/**
 How processes that share a k2hash file learn of its new areas: a one-byte counter in the monitor
 file, the copy of it that each process keeps, and the steps of K2HShm::ExpandArea, CheckAreaUpdate
 and DoAreaUpdate, interleaved in any order.
 */
module AreaMonitor {
  import opened Layout

  // ---------------------------------------------------------------- the counter

  /** ++ on one byte. */
  function Bumped(b: Byte): Byte
  {
    (b + 1) % 256
  }

  /** The counter is not the kept one: another process has moved it. */
  predicate Stale(bup: Byte, areaCnt: Byte)
  {
    bup != areaCnt
  }

  /** The part of the monitor file that all processes map. */
  class SharedMonitor {
    var areaCnt: Byte

    constructor ()
      ensures areaCnt == 0
    {
      areaCnt := 0;
    }
  }

  class FileMonitor {
    const psfmon: SharedMonitor
    var bupAreaCnt: Byte

    /** Keeps the counter as it is when the monitor file is opened. */
    constructor (psfmon: SharedMonitor)
      ensures this.psfmon == psfmon && bupAreaCnt == psfmon.areaCnt
    {
      this.psfmon := psfmon;
      bupAreaCnt := psfmon.areaCnt;
    }

    /** Whether the counter was moved by another process; the kept value follows if wanted. */
    method CheckArea(valupdate: bool) returns (isChange: bool)
      modifies this`bupAreaCnt
      ensures isChange == Stale(old(bupAreaCnt), psfmon.areaCnt)
      ensures bupAreaCnt == if isChange && valupdate then psfmon.areaCnt else old(bupAreaCnt)
    {
      if bupAreaCnt != psfmon.areaCnt {
        isChange := true;
        if valupdate {
          bupAreaCnt := psfmon.areaCnt;
        }
      } else {
        isChange := false;
      }
    }

    /** Moves the counter on; tells whether another process had moved it before. */
    method UpdateArea() returns (isNeedCheck: bool)
      modifies this`bupAreaCnt, psfmon
      ensures isNeedCheck == Stale(old(bupAreaCnt), old(psfmon.areaCnt))
      ensures psfmon.areaCnt == bupAreaCnt == Bumped(old(psfmon.areaCnt))
    {
      isNeedCheck := false;
      if bupAreaCnt != psfmon.areaCnt {
        isNeedCheck := true;
      }
      psfmon.areaCnt := Bumped(psfmon.areaCnt);
      bupAreaCnt := psfmon.areaCnt;
    }
  }

  // ---------------------------------------------------------------- processes and their steps

  /** Where a process is: between operations, attaching, in CheckAreaUpdate, before DoAreaUpdate, or in ExpandArea. */
  datatype Pc = Idle | Attaching | Noticed | Refreshing | Locked | Mapped | Published | Counted(isNeedCheck: bool)

  /**
   One process: the kept counter, the areas it has mapped, and, for the proofs only, how many updates
   there had been when it last kept the counter.
   */
  datatype Process = Process(pc: Pc, bup: Byte, areas: set<nat>, seen: nat)

  /**
   The file: how many areas its header lists, the shared counter, the holder of the unassign_area lock,
   and, for the proofs only, how many updates were counted.
   */
  datatype State = State(header: nat, areaCnt: Byte, lock: set<nat>, updates: nat, procs: map<nat, Process>)

  /**
   What a process does next: Notice and Copy are CheckArea without and with the lock, Count is UpdateArea, and
   Refresh is DoAreaUpdate.
   */
  datatype Action = Attach | MapAll | Notice | Copy | Refresh | Lock | Map | Publish | Count | Unlock

  datatype Step = Step(p: nat, action: Action)

  /** The first n areas. */
  function FirstAreas(n: nat): (r: set<nat>)
    ensures forall i: nat :: i in r <==> i < n
  {
    if n == 0 then {} else FirstAreas(n - 1) + {n - 1}
  }

  predicate Enabled(s: State, step: Step)
  {
    if step.action == Attach then step.p !in s.procs
    else
      && step.p in s.procs
      && var proc := s.procs[step.p];
      match step.action
      case Attach => false
      case MapAll => proc.pc == Attaching
      case Notice => proc.pc == Idle && Stale(proc.bup, s.areaCnt)
      case Copy => proc.pc == Noticed
      case Refresh => proc.pc == Refreshing && s.lock == {}
      case Lock => proc.pc == Idle && s.lock == {}
      case Map => proc.pc == Locked
      case Publish => proc.pc == Mapped
      case Count => proc.pc == Published
      case Unlock => proc.pc.Counted?
  }

  /** The process after its step; `checked` says whether ExpandArea heeds isNeedCheck, as it does. */
  function Moved(s: State, proc: Process, action: Action, checked: bool): Process
  {
    match action
    case Attach => Process(Attaching, s.areaCnt, {}, s.updates)
    case MapAll => proc.(areas := FirstAreas(s.header), pc := Idle)
    case Notice => proc.(pc := Noticed)
    case Copy => proc.(bup := s.areaCnt, seen := s.updates, pc := Refreshing)
    case Refresh => proc.(areas := FirstAreas(s.header), pc := Idle)
    case Lock => proc.(pc := Locked)
    case Map => proc.(areas := proc.areas + {s.header}, pc := Mapped)
    case Publish => proc.(pc := Published)
    case Count => proc.(bup := Bumped(s.areaCnt), seen := s.updates + 1, pc := Counted(Stale(proc.bup, s.areaCnt)))
    case Unlock => proc.(pc := if proc.pc.Counted? && proc.pc.isNeedCheck && checked then Refreshing else Idle)
  }

  function Do(s: State, step: Step, checked: bool): State
    requires Enabled(s, step)
  {
    var before := if step.p in s.procs then s.procs[step.p] else Process(Idle, 0, {}, 0);
    State(
      if step.action == Publish then s.header + 1 else s.header,
      if step.action == Count then Bumped(s.areaCnt) else s.areaCnt,
      if step.action == Lock then {step.p} else if step.action == Unlock then {} else s.lock,
      if step.action == Count then s.updates + 1 else s.updates,
      s.procs[step.p := Moved(s, before, step.action, checked)])
  }

  predicate CanRun(s: State, steps: seq<Step>, checked: bool)
    decreases |steps|
  {
    steps == [] || (Enabled(s, steps[0]) && CanRun(Do(s, steps[0], checked), steps[1..], checked))
  }

  function Run(s: State, steps: seq<Step>, checked: bool): State
    requires CanRun(s, steps, checked)
    decreases |steps|
  {
    if steps == [] then s else Run(Do(s, steps[0], checked), steps[1..], checked)
  }

  /** A new file, to which no process is attached. */
  function NewFile(): State
  {
    State(0, 0, {}, 0, map[])
  }

  // ---------------------------------------------------------------- no area is missed

  predicate Holds(pc: Pc)
  {
    pc == Locked || pc == Mapped || pc == Published || pc.Counted?
  }

  /** One process at a time adds an area. */
  ghost predicate Exclusive(s: State)
  {
    && (forall p | p in s.procs :: Holds(s.procs[p].pc) <==> p in s.lock)
    && (forall p | p in s.lock :: p in s.procs && s.lock == {p})
  }

  /** The header is ahead of the counter only while a process is between writing the one and the other. */
  ghost predicate Orderly(s: State)
  {
    && Exclusive(s) && s.areaCnt == s.updates % 256
    && s.updates <= s.header <= s.updates + 1
    && (forall p | p in s.procs && s.procs[p].pc == Published :: s.header == s.updates + 1)
    && (s.header == s.updates + 1 ==> exists p | p in s.lock :: p in s.procs && s.procs[p].pc == Published)
    && (forall p | p in s.procs :: s.procs[p].seen <= s.updates && s.procs[p].bup == s.procs[p].seen % 256)
  }

  lemma ExclusiveStep(s: State, step: Step, checked: bool)
    requires Exclusive(s) && Enabled(s, step)
    ensures Exclusive(Do(s, step, checked))
    ensures step.p in s.procs && Holds(s.procs[step.p].pc) ==> s.lock == {step.p}
  {
  }

  lemma OrderlyStep(s: State, step: Step, checked: bool)
    requires Orderly(s) && Enabled(s, step)
    ensures Orderly(Do(s, step, checked))
  {
    ExclusiveStep(s, step, checked);
    BumpedCount(s.updates);
  }

  lemma BumpedCount(updates: nat)
    ensures Bumped(updates % 256) == (updates + 1) % 256
  {
  }

  /**
   What a process knows to have mapped: all areas counted up to the moment it kept the counter, unless it is about to
   map them.
   */
  ghost predicate Knows(s: State, p: nat)
  {
    p in s.procs ==>
      var proc := s.procs[p];
      && (proc.pc in {Attaching, Refreshing, Counted(true)} || FirstAreas(proc.seen) <= proc.areas)
      && (proc.pc == Mapped ==> s.header in proc.areas)
      && (proc.pc == Published ==> s.header == s.updates + 1 && s.updates in proc.areas)
  }

  /**
   The counter tells p whether there were updates since p kept it: it does not when their number is a multiple of 256.
   */
  predicate Told(s: State, p: nat)
  {
    p in s.procs ==> s.procs[p].seen == s.updates || (s.updates - s.procs[p].seen) % 256 != 0
  }

  /** Whenever p itself counts an update the counter tells it of those before, unless p maps all areas later. */
  predicate ToldAlong(s: State, steps: seq<Step>, p: nat, checked: bool)
    requires CanRun(s, steps, checked)
    decreases |steps|
  {
    steps != [] ==>
      && (steps[0] == Step(p, Count) ==> Told(s, p) || Step(p, Refresh) in steps[1..])
      && ToldAlong(Do(s, steps[0], checked), steps[1..], p, checked)
  }

  /** The kept counter is the shared one exactly when there were no updates, or the counter does not tell. */
  lemma SameByte(s: State, p: nat)
    requires Orderly(s) && p in s.procs
    ensures s.procs[p].bup == s.areaCnt <==> s.procs[p].seen == s.updates || !Told(s, p)
  {
    var seen, updates := s.procs[p].seen, s.updates;
    assert updates == seen + (updates - seen);
  }

  lemma KnowsStep(s: State, step: Step, p: nat)
    requires Orderly(s) && Knows(s, p) && Enabled(s, step) && (step == Step(p, Count) ==> Told(s, p))
    ensures Knows(Do(s, step, true), p)
  {
    var s' := Do(s, step, true);
    if p in s.procs {
      var proc := s.procs[p];
      if Holds(proc.pc) && p != step.p {
        assert p in s.lock && step.p !in s.lock;
      }
      if p == step.p {
        if Holds(proc.pc) {
          assert s.lock == {p};
        }
        SameByte(s, p);
      }
    }
  }

  /** Mapping all areas makes up for whatever was missed. */
  lemma KnowsAgain(s: State, p: nat)
    requires Orderly(s) && Enabled(s, Step(p, Refresh))
    ensures Knows(Do(s, Step(p, Refresh), true), p)
  {
    assert s.procs[p].seen <= s.header;
  }

  lemma {:induction false} KnowsAlong(s: State, steps: seq<Step>, p: nat)
    requires Orderly(s) && CanRun(s, steps, true) && ToldAlong(s, steps, p, true)
    requires Knows(s, p) || Step(p, Refresh) in steps
    ensures Orderly(Run(s, steps, true)) && Knows(Run(s, steps, true), p)
    decreases |steps|
  {
    if steps != [] {
      OrderlyStep(s, steps[0], true);
      if steps[0] == Step(p, Refresh) {
        KnowsAgain(s, p);
      } else if Step(p, Refresh) !in steps[1..] {
        KnowsStep(s, steps[0], p);
      }
      KnowsAlong(Do(s, steps[0], true), steps[1..], p);
    }
  }

  /**
   In every run in which the counter told a process of updates whenever it counted one itself since it last mapped
   all areas: between operations, if its kept counter is the shared one and tells the truth, it has mapped every
   area counted, and every area of the header when no process is adding one.
   */
  lemma NoAreaMissed(steps: seq<Step>, p: nat)
    requires CanRun(NewFile(), steps, true) && ToldAlong(NewFile(), steps, p, true)
    ensures
      var s := Run(NewFile(), steps, true);
      p in s.procs && s.procs[p].pc == Idle && s.procs[p].bup == s.areaCnt && Told(s, p) ==>
        && (forall area: nat | area < s.updates :: area in s.procs[p].areas)
        && (s.lock == {} ==> forall area: nat | area < s.header :: area in s.procs[p].areas)
  {
    KnowsAlong(NewFile(), steps, p);
    var s := Run(NewFile(), steps, true);
    if p in s.procs {
      SameByte(s, p);
    }
  }

  /** For a process between operations that has mapped what it has seen and no more, both are asked for exactly. */
  lemma ToldExactly(s: State, p: nat)
    requires Orderly(s) && p in s.procs && s.procs[p].pc == Idle && s.procs[p].areas == FirstAreas(s.procs[p].seen)
    ensures (s.procs[p].bup == s.areaCnt ==> FirstAreas(s.updates) <= s.procs[p].areas) <==> Told(s, p)
  {
    SameByte(s, p);
    assert s.procs[p].seen < s.updates ==> s.procs[p].seen in FirstAreas(s.updates);
  }

  /** The same for the update it counts itself: it goes on knowing all areas, or maps them, exactly if it is told. */
  lemma CountExactly(s: State, p: nat)
    requires Orderly(s) && Enabled(s, Step(p, Count)) && Knows(s, p)
    requires s.procs[p].areas == FirstAreas(s.procs[p].seen) + {s.updates}
    ensures Knows(Do(s, Step(p, Count), true), p) <==> Told(s, p)
  {
    SameByte(s, p);
    if !Told(s, p) {
      assert s.procs[p].seen in FirstAreas(s.updates + 1) && s.procs[p].seen !in s.procs[p].areas;
    } else {
      KnowsStep(s, Step(p, Count), p);
    }
  }

  // ---------------------------------------------------------------- why isNeedCheck and the 256 are needed

  /** One whole ExpandArea. */
  function Expansion(p: nat): seq<Step>
  {
    [Step(p, Lock), Step(p, Map), Step(p, Publish), Step(p, Count), Step(p, Unlock)]
  }

  function Expansions(p: nat, n: nat): seq<Step>
  {
    if n == 0 then [] else Expansion(p) + Expansions(p, n - 1)
  }

  /** The state after one ExpandArea of p that nobody interrupts. */
  function Expanded(s: State, p: nat, checked: bool): State
    requires p in s.procs
  {
    var proc := s.procs[p];
    var pc := if proc.bup != s.areaCnt && checked then Refreshing else Idle;
    State(s.header + 1, Bumped(s.areaCnt), {}, s.updates + 1,
          s.procs[p := Process(pc, Bumped(s.areaCnt), proc.areas + {s.header}, s.updates + 1)])
  }

  lemma {:induction false} RunAppend(s: State, a: seq<Step>, b: seq<Step>, checked: bool)
    requires CanRun(s, a, checked) && CanRun(Run(s, a, checked), b, checked)
    ensures CanRun(s, a + b, checked) && Run(s, a + b, checked) == Run(Run(s, a, checked), b, checked)
    decreases |a|
  {
    if a == [] {
      assert a + b == b;
    } else {
      RunAppend(Do(s, a[0], checked), a[1..], b, checked);
      assert (a + b)[1..] == a[1..] + b;
    }
  }

  lemma RunStep(s: State, step: Step, rest: seq<Step>, checked: bool)
    requires Enabled(s, step) && CanRun(Do(s, step, checked), rest, checked)
    ensures
      && CanRun(s, [step] + rest, checked) && Run(s, [step] + rest, checked) == Run(Do(s, step, checked), rest, checked)
  {
    assert ([step] + rest)[1..] == rest;
  }

  lemma ExpansionRuns(s: State, p: nat, checked: bool)
    requires p in s.procs && s.procs[p].pc == Idle && s.lock == {}
    ensures CanRun(s, Expansion(p), checked) && Run(s, Expansion(p), checked) == Expanded(s, p, checked)
  {
    var s1 := Do(s, Step(p, Lock), checked);
    var s2 := Do(s1, Step(p, Map), checked);
    var s3 := Do(s2, Step(p, Publish), checked);
    var s4 := Do(s3, Step(p, Count), checked);
    var s5 := Do(s4, Step(p, Unlock), checked);
    assert s5 == Expanded(s, p, checked);
    RunStep(s4, Step(p, Unlock), [], checked);
    RunStep(s3, Step(p, Count), [Step(p, Unlock)], checked);
    RunStep(s2, Step(p, Publish), [Step(p, Count), Step(p, Unlock)], checked);
    RunStep(s1, Step(p, Map), [Step(p, Publish), Step(p, Count), Step(p, Unlock)], checked);
    RunStep(s, Step(p, Lock), [Step(p, Map), Step(p, Publish), Step(p, Count), Step(p, Unlock)], checked);
    assert [Step(p, Lock)] + [Step(p, Map), Step(p, Publish), Step(p, Count), Step(p, Unlock)] == Expansion(p);
  }

  /** p is between operations and has mapped the areas of the header. */
  ghost predicate UpToDate(s: State, p: nat)
  {
    && p in s.procs && s.procs[p].pc == Idle && s.procs[p].bup == s.areaCnt && s.procs[p].seen == s.updates
    && forall area: nat :: area in s.procs[p].areas <==> area < s.header
  }

  /**
   A process that is not attached can attach, and one whose counter is stale can find out; then both are up to date.
   */
  lemma CatchesUp(s: State, p: nat, checked: bool)
    requires s.lock == {} && (p in s.procs ==> s.procs[p].pc == Idle && s.procs[p].bup != s.areaCnt)
    ensures
      var steps := if p in s.procs then [Step(p, Notice), Step(p, Copy), Step(p, Refresh)]
                   else [Step(p, Attach), Step(p, MapAll)];
      && CanRun(s, steps, checked)
      && var s' := Run(s, steps, checked);
         UpToDate(s', p) && s' == s.(procs := s.procs[p := s'.procs[p]])
  {
    if p in s.procs {
      var s1 := Do(s, Step(p, Notice), checked);
      var s2 := Do(s1, Step(p, Copy), checked);
      RunStep(s2, Step(p, Refresh), [], checked);
      RunStep(s1, Step(p, Copy), [Step(p, Refresh)], checked);
      RunStep(s, Step(p, Notice), [Step(p, Copy), Step(p, Refresh)], checked);
      assert [Step(p, Notice)] + [Step(p, Copy), Step(p, Refresh)] ==
        [Step(p, Notice), Step(p, Copy), Step(p, Refresh)];
    } else {
      var s1 := Do(s, Step(p, Attach), checked);
      RunStep(s1, Step(p, MapAll), [], checked);
      RunStep(s, Step(p, Attach), [Step(p, MapAll)], checked);
      assert [Step(p, Attach)] + [Step(p, MapAll)] == [Step(p, Attach), Step(p, MapAll)];
    }
  }

  /**
   A process can add an area whenever none is being added; it is up to date afterwards, if its counter was stale
   after it has mapped all areas.
   */
  lemma ExpandsUpToDate(s: State, p: nat)
    requires Orderly(s) && s.lock == {} && p in s.procs && s.procs[p].pc == Idle
    requires s.procs[p].bup != s.areaCnt || UpToDate(s, p)
    ensures
      var steps := Expansion(p) + if s.procs[p].bup != s.areaCnt then [Step(p, Refresh)] else [];
      CanRun(s, steps, true) && UpToDate(Run(s, steps, true), p) && Run(s, steps, true).header == s.header + 1
  {
    ExpansionRuns(s, p, true);
    if s.procs[p].bup != s.areaCnt {
      RunStep(Expanded(s, p, true), Step(p, Refresh), [], true);
      RunAppend(s, Expansion(p), [Step(p, Refresh)], true);
    } else {
      assert Expansion(p) + [] == Expansion(p);
    }
  }

  ghost predicate OthersSame(s: State, s': State, p: nat)
  {
    forall q | q in s.procs && q != p :: q in s'.procs && s'.procs[q] == s.procs[q]
  }

  /** p adds an area and is not disturbed. */
  lemma OneExpansion(s: State, p: nat)
    requires p in s.procs && s.procs[p].pc == Idle && s.lock == {} && s.procs[p].bup == s.areaCnt
    ensures CanRun(s, Expansion(p), true)
    ensures
      var s' := Run(s, Expansion(p), true);
      && s'.updates == s.updates + 1 && s'.areaCnt == Bumped(s.areaCnt) && s'.lock == {} && p in s'.procs
      && s'.procs[p].pc == Idle && s'.procs[p].bup == s'.areaCnt
      && OthersSame(s, s', p)
  {
    ExpansionRuns(s, p, true);
  }

  lemma FirstExpansion(s: State, p: nat, n: nat)
    requires n > 0 && CanRun(s, Expansion(p), true)
    requires CanRun(Run(s, Expansion(p), true), Expansions(p, n - 1), true)
    ensures CanRun(s, Expansions(p, n), true)
    ensures Run(s, Expansions(p, n), true) == Run(Run(s, Expansion(p), true), Expansions(p, n - 1), true)
  {
    RunAppend(s, Expansion(p), Expansions(p, n - 1), true);
  }

  /** p adds n areas and is never disturbed. */
  lemma {:induction false} ExpansionsRun(s: State, p: nat, n: nat)
    requires p in s.procs && s.procs[p].pc == Idle && s.lock == {} && s.procs[p].bup == s.areaCnt
    ensures CanRun(s, Expansions(p, n), true)
    ensures
      var s' := Run(s, Expansions(p, n), true);
      && s'.updates == s.updates + n && s'.areaCnt == (s.areaCnt + n) % 256 && s'.lock == {}
      && OthersSame(s, s', p)
    decreases n
  {
    if n > 0 {
      OneExpansion(s, p);
      var s1 := Run(s, Expansion(p), true);
      ExpansionsRun(s1, p, n - 1);
      FirstExpansion(s, p, n);
      BumpedSum(s.areaCnt, n);
    }
  }

  lemma BumpedSum(b: Byte, n: nat)
    requires n > 0
    ensures (Bumped(b) + (n - 1)) % 256 == (b + n) % 256
  {
  }

  /** Two processes attached to a new file. */
  function TwoAttached(): State
  {
    State(0, 0, {}, 0, map[0 := Process(Idle, 0, {}, 0), 1 := Process(Idle, 0, {}, 0)])
  }

  lemma TwoAttach(checked: bool)
    ensures
      var steps := [Step(0, Attach), Step(0, MapAll), Step(1, Attach), Step(1, MapAll)];
      CanRun(NewFile(), steps, checked) && Run(NewFile(), steps, checked) == TwoAttached()
  {
    var s1 := Do(NewFile(), Step(0, Attach), checked);
    var s2 := Do(s1, Step(0, MapAll), checked);
    var s3 := Do(s2, Step(1, Attach), checked);
    var s4 := Do(s3, Step(1, MapAll), checked);
    assert s4 == TwoAttached();
    RunStep(s3, Step(1, MapAll), [], checked);
    RunStep(s2, Step(1, Attach), [Step(1, MapAll)], checked);
    RunStep(s1, Step(0, MapAll), [Step(1, Attach), Step(1, MapAll)], checked);
    RunStep(NewFile(), Step(0, Attach), [Step(0, MapAll), Step(1, Attach), Step(1, MapAll)], checked);
    assert [Step(0, Attach)] + [Step(0, MapAll), Step(1, Attach), Step(1, MapAll)] == [Step(0, Attach), Step(0, MapAll),
      Step(1, Attach), Step(1, MapAll)];
  }

  /** Attaching both processes and then steps that run from there. */
  function AttachedThen(steps: seq<Step>): seq<Step>
  {
    [Step(0, Attach), Step(0, MapAll), Step(1, Attach), Step(1, MapAll)] + steps
  }

  lemma AttachedRun(steps: seq<Step>, checked: bool)
    requires CanRun(TwoAttached(), steps, checked)
    ensures CanRun(NewFile(), AttachedThen(steps), checked)
    ensures Run(NewFile(), AttachedThen(steps), checked) == Run(TwoAttached(), steps, checked)
    ensures ToldAlong(TwoAttached(), steps, 1, checked) ==> ToldAlong(NewFile(), AttachedThen(steps), 1, checked)
  {
    TwoAttach(checked);
    var attach := [Step(0, Attach), Step(0, MapAll), Step(1, Attach), Step(1, MapAll)];
    RunAppend(NewFile(), attach, steps, checked);
    NoCount(NewFile(), attach, 1, checked);
    if ToldAlong(TwoAttached(), steps, 1, checked) {
      ToldAppend(NewFile(), attach, steps, 1, checked);
    }
  }

  lemma {:induction false} ToldAppend(s: State, a: seq<Step>, b: seq<Step>, p: nat, checked: bool)
    requires CanRun(s, a, checked) && CanRun(Run(s, a, checked), b, checked)
    requires ToldAlong(s, a, p, checked) && ToldAlong(Run(s, a, checked), b, p, checked)
    ensures CanRun(s, a + b, checked) && ToldAlong(s, a + b, p, checked)
    decreases |a|
  {
    RunAppend(s, a, b, checked);
    if a == [] {
      assert a + b == b;
    } else {
      ToldAppend(Do(s, a[0], checked), a[1..], b, p, checked);
      assert (a + b)[1..] == a[1..] + b;
    }
  }

  lemma {:induction false} NoCount(s: State, steps: seq<Step>, p: nat, checked: bool)
    requires CanRun(s, steps, checked) && Step(p, Count) !in steps
    ensures ToldAlong(s, steps, p, checked)
    decreases |steps|
  {
    if steps != [] {
      NoCount(Do(s, steps[0], checked), steps[1..], p, checked);
    }
  }

  /**
   If ExpandArea ignored isNeedCheck, an updater would miss the area of another process for good, although
   the counter tells of every update.
   */
  lemma UncheckedMisses() returns (steps: seq<Step>)
    ensures CanRun(NewFile(), steps, false) && ToldAlong(NewFile(), steps, 1, false)
    ensures
      var s := Run(NewFile(), steps, false);
      && 1 in s.procs && s.procs[1].pc == Idle && s.procs[1].bup == s.areaCnt && s.lock == {}
      && Told(s, 1) && 0 < s.updates && 0 !in s.procs[1].areas
  {
    TwoExpand();
    AttachedRun(Expansion(0) + Expansion(1), false);
    steps := AttachedThen(Expansion(0) + Expansion(1));
  }

  /** Steps among which q counts nothing, and then others. */
  lemma ThenTold(s: State, a: seq<Step>, b: seq<Step>, q: nat, checked: bool)
    requires CanRun(s, a, checked) && Step(q, Count) !in a
    requires CanRun(Run(s, a, checked), b, checked) && ToldAlong(Run(s, a, checked), b, q, checked)
    ensures CanRun(s, a + b, checked) && Run(s, a + b, checked) == Run(Run(s, a, checked), b, checked)
    ensures ToldAlong(s, a + b, q, checked)
  {
    RunAppend(s, a, b, checked);
    NoCount(s, a, q, checked);
    ToldAppend(s, a, b, q, checked);
  }

  /** One ExpandArea after the other, by the two processes. */
  lemma TwoExpand()
    ensures
      var s1, steps := Expanded(TwoAttached(), 0, false), Expansion(0) + Expansion(1);
      && CanRun(TwoAttached(), steps, false) && Run(TwoAttached(), steps, false) == Expanded(s1, 1, false)
      && ToldAlong(TwoAttached(), steps, 1, false)
  {
    ExpansionRuns(TwoAttached(), 0, false);
    ToldExpansion(Expanded(TwoAttached(), 0, false), 1, false);
    ExpansionRuns(Expanded(TwoAttached(), 0, false), 1, false);
    ThenTold(TwoAttached(), Expansion(0), Expansion(1), 1, false);
  }

  lemma ToldStep(s: State, step: Step, rest: seq<Step>, p: nat, checked: bool)
    requires Enabled(s, step) && CanRun(Do(s, step, checked), rest, checked)
    requires (step == Step(p, Count) ==> Told(s, p)) && ToldAlong(Do(s, step, checked), rest, p, checked)
    ensures CanRun(s, [step] + rest, checked) && ToldAlong(s, [step] + rest, p, checked)
  {
    assert ([step] + rest)[1..] == rest;
  }

  /** The count within one ExpandArea. */
  lemma ToldExpansion(s: State, p: nat, checked: bool)
    requires p in s.procs && s.procs[p].pc == Idle && s.lock == {} && Told(s, p)
    ensures CanRun(s, Expansion(p), checked) && ToldAlong(s, Expansion(p), p, checked)
  {
    ExpansionRuns(s, p, checked);
    var s1 := Do(s, Step(p, Lock), checked);
    var s2 := Do(s1, Step(p, Map), checked);
    var s3 := Do(s2, Step(p, Publish), checked);
    NoCount(Do(s3, Step(p, Count), checked), [Step(p, Unlock)], p, checked);
    ToldStep(s3, Step(p, Count), [Step(p, Unlock)], p, checked);
    ToldStep(s2, Step(p, Publish), [Step(p, Count), Step(p, Unlock)], p, checked);
    ToldStep(s1, Step(p, Map), [Step(p, Publish), Step(p, Count), Step(p, Unlock)], p, checked);
    ToldStep(s, Step(p, Lock), [Step(p, Map), Step(p, Publish), Step(p, Count), Step(p, Unlock)], p, checked);
    assert [Step(p, Lock)] + [Step(p, Map), Step(p, Publish), Step(p, Count), Step(p, Unlock)] == Expansion(p);
  }

  /**
   For every number of updates there is a run in which a process notices none of them and has mapped none of
   their areas.  Its kept counter is the shared one again after every 256 of them.
   */
  lemma ByteComesRound(n: nat) returns (steps: seq<Step>)
    ensures CanRun(NewFile(), steps, true) && ToldAlong(NewFile(), steps, 1, true)
    ensures
      var s := Run(NewFile(), steps, true);
      && 1 in s.procs && s.procs[1].pc == Idle && s.lock == {} && s.procs[1].areas == {}
      && s.updates == n && s.procs[1].seen == 0 && (s.procs[1].bup == s.areaCnt <==> n % 256 == 0)
  {
    ExpansionsRun(TwoAttached(), 0, n);
    NoneCounts(n);
    NoCount(TwoAttached(), Expansions(0, n), 1, true);
    AttachedRun(Expansions(0, n), true);
    steps := AttachedThen(Expansions(0, n));
  }

  lemma {:induction false} NoneCounts(n: nat)
    ensures Step(1, Count) !in Expansions(0, n)
  {
    if n > 0 {
      NoneCounts(n - 1);
    }
  }
}

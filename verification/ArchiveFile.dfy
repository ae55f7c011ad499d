/**
 Archives of a whole store (K2HArchive::Save and Load): one command for every key, further commands for
 the chunks of a long value, and the walk that applies the commands of a file.
 */
module ArchiveFile {
  import opened Layout
  import opened SizeCodec
  import opened Records
  import opened CommandArchive

  // ---------------------------------------------------------------- what a command does

  /**
   Done, refused, or beyond what is modelled: a write that leaves a gap, renaming to a key in use, an offset of more
   than eight bytes.
   */
  datatype Outcome = Done(content: Content) | Failed(content: Content) | Outside

  function EntryAt(m: Content, key: Bytes): Entry
  {
    if key in m then m[key] else Entry([], [], [])
  }

  function Replaced(m: Content, key: Bytes, t: PageType, bytes: Bytes): Content
  {
    m[key := WithPart(EntryAt(m, key), t, bytes)]
  }

  /**
   What a command does; an overwriting one makes the key before it looks at the bytes, and leaves it when there are
   none.
   */
  function Apply(m: Content, c: Command): Outcome
  {
    if c.key == [] then Failed(m)
    else match c.comType
    case 0 =>
      var m1 := Replaced(m, c.key, VALUE, c.val);
      var m2 := if c.skey == [] then m1 else Replaced(m1, c.key, SUBKEYS, c.skey);
      Done(if c.attrs == [] then m2 else Replaced(m2, c.key, ATTRS, c.attrs))
    case 1 => Done(Replaced(m, c.key, VALUE, c.val))
    case 2 => Done(Replaced(m, c.key, SUBKEYS, c.skey))
    case 3 => Done(m - {c.key})
    case 4 =>
      if c.exdata == [] then Failed(m)
      else if SIZE_T < |c.exdata| || |EntryAt(m, c.key).value| < Number(c.exdata) then Outside
      else if c.val == [] then Failed(Opened(m, c.key))
      else Done(Replaced(m, c.key, VALUE, WriteAt(EntryAt(m, c.key).value, Number(c.exdata), c.val)))
    case 5 => Done(Replaced(m, c.key, ATTRS, c.attrs))
    case 6 =>
      if c.exdata == [] || c.key !in m then Failed(m)
      else if c.exdata in m && c.exdata != c.key then Outside
      else Done(Renamed(m, c.key, c.exdata, c.attrs))
    case _ => Failed(m)
  }

  /** What a command does not carry it does not use: dropping it changes nothing. */
  lemma CarriedApplied(m: Content, c: Command)
    ensures Apply(m, Carried(c)) == Apply(m, c)
  {
  }

  /** The commands, type by type, on the entry there is under the key, or an empty one. */
  lemma CommandsDo(m: Content, c: Command)
    requires c.key != []
    ensures
      var was := if c.key in m then m[c.key] else Entry([], [], []);
      && (c.comType == SCOM_SET_ALL ==>
            Apply(m, c) == Done(m[c.key := Entry(c.val, if c.skey == [] then was.subkeys else c.skey,
                                                 if c.attrs == [] then was.attrs else c.attrs)]))
      && (c.comType == SCOM_REPLACE_VAL ==> Apply(m, c) == Done(m[c.key := Entry(c.val, was.subkeys, was.attrs)]))
      && (c.comType == SCOM_REPLACE_SKEY ==> Apply(m, c) == Done(m[c.key := Entry(was.value, c.skey, was.attrs)]))
      && (c.comType == SCOM_REPLACE_ATTRS ==> Apply(m, c) == Done(m[c.key := Entry(was.value, was.subkeys, c.attrs)]))
      && (c.comType == SCOM_DEL_KEY ==> Apply(m, c) == Done(m - {c.key}))
      && (c.comType == SCOM_RENAME && c.exdata != [] && c.key in m && c.exdata !in m ==>
            Apply(m, c) == Done((m - {c.key})[c.exdata := Entry(was.value, was.subkeys,
                                                                if c.attrs == [] then was.attrs else c.attrs)]))
      && (c.comType == SCOM_OW_VAL && c.val != [] && 0 < |c.exdata| <= SIZE_T && Number(c.exdata) <= |was.value| ==>
            exists value :: WrittenInto(was.value, Number(c.exdata), c.val, value) &&
              Apply(m, c) == Done(m[c.key := Entry(value, was.subkeys, was.attrs)]))
  {
    if c.comType == SCOM_OW_VAL && c.val != [] && 0 < |c.exdata| <= SIZE_T {
      if Number(c.exdata) <= |EntryAt(m, c.key).value| {
        WrittenAt(EntryAt(m, c.key).value, Number(c.exdata), c.val);
        assert WrittenInto(EntryAt(m, c.key).value, Number(c.exdata), c.val,
          WriteAt(EntryAt(m, c.key).value, Number(c.exdata), c.val));
      }
    }
  }

  // ---------------------------------------------------------------- loading

  /** Field number i of the header at an offset of the file. */
  function FieldAt(file: Bytes, offset: nat, i: nat): nat
    requires offset + SCOM_SIZE <= |file| && i < 11
  {
    SizeAt(file, offset + SCOM_COMSTR_LENGTH + SIZE_T * i)
  }

  /** The header at an offset of the file. */
  function ScomAt(file: Bytes, offset: nat): Scom
    requires offset + SCOM_SIZE <= |file|
  {
    Scom(FieldAt(file, offset, 0), FieldAt(file, offset, 1), FieldAt(file, offset, 2), FieldAt(file, offset, 3),
         FieldAt(file, offset, 4), FieldAt(file, offset, 5), FieldAt(file, offset, 6), FieldAt(file, offset, 7),
         FieldAt(file, offset, 8), FieldAt(file, offset, 9), FieldAt(file, offset, 10))
  }

  /** ReadFile: all the bytes asked for, or none. */
  predicate Readable(file: Bytes, offset: nat, pos: nat, length: nat)
  {
    length == 0 || offset + pos + length <= |file|
  }

  function PartAt(file: Bytes, offset: nat, pos: nat, length: nat): Bytes
    requires Readable(file, offset, pos, length)
  {
    if length == 0 then [] else file[offset + pos..offset + pos + length]
  }

  predicate AllReadable(file: Bytes, offset: nat, s: Scom)
  {
    && Readable(file, offset, s.keyPos, s.keyLength) && Readable(file, offset, s.valPos, s.valLength)
    && Readable(file, offset, s.skeyPos, s.skeyLength) && Readable(file, offset, s.attrsPos, s.attrLength)
    && Readable(file, offset, s.exdataPos, s.exdataLength)
  }

  function CommandAt(file: Bytes, offset: nat, s: Scom): Command
    requires AllReadable(file, offset, s)
  {
    Command(s.comType, PartAt(file, offset, s.keyPos, s.keyLength), PartAt(file, offset, s.valPos, s.valLength),
            PartAt(file, offset, s.skeyPos, s.skeyLength), PartAt(file, offset, s.attrsPos, s.attrLength),
            PartAt(file, offset, s.exdataPos, s.exdataLength))
  }

  /** What the command at an offset does; a command of unknown type or with missing data is refused. */
  function ApplyAt(file: Bytes, offset: nat, m: Content): Outcome
    requires offset + SCOM_SIZE <= |file|
  {
    var s := ScomAt(file, offset);
    if SCOM_TYPE_MAX < s.comType || !AllReadable(file, offset, s) then Failed(m)
    else Apply(m, CommandAt(file, offset, s))
  }

  /**
   The store after the commands from an offset on; refused commands are skipped if that is wanted and end the load
   otherwise.
   */
  function LoadedFrom(file: Bytes, offset: nat, m: Content, isErrSkip: bool): (r: (Outcome, Content))
    decreases |file| - offset
  {
    if |file| < offset + SCOM_SIZE then (Done(m), m)
    else
      var next := offset + TotalLength(ScomAt(file, offset));
      match ApplyAt(file, offset, m)
      case Done(m1) => LoadedFrom(file, next, m1, isErrSkip)
      case Failed(m1) => if isErrSkip then LoadedFrom(file, next, m1, isErrSkip) else (Failed(m1), m1)
      case Outside => (Outside, m)
  }

  // ---------------------------------------------------------------- a file of commands

  /** The buffers of commands, one behind the other. */
  function FileOf(cs: seq<Command>): Bytes
  {
    if cs == [] then [] else Encoded(cs[0]) + FileOf(cs[1..])
  }

  /** The commands applied one by one; those that are refused are passed over, or end it. */
  function ApplyAll(m: Content, cs: seq<Command>, isErrSkip: bool): (r: (Outcome, Content))
    decreases |cs|
  {
    if cs == [] then (Done(m), m)
    else
      match Apply(m, Carried(cs[0]))
      case Done(m1) => ApplyAll(m1, cs[1..], isErrSkip)
      case Failed(m1) => if isErrSkip then ApplyAll(m1, cs[1..], isErrSkip) else (Failed(m1), m1)
      case Outside => (Outside, m)
  }

  /** All of them can be put, and the lengths fit their fields. */
  predicate AllPuttable(cs: seq<Command>)
  {
    forall i | 0 <= i < |cs| :: Puttable(cs[i]) && |Encoded(cs[i])| < Limit(SIZE_T)
  }

  /** Number i of a row of sizes. */
  lemma {:induction false} SizesAt(pre: Bytes, fields: seq<nat>, post: Bytes, i: nat)
    requires i < |fields| && forall j | 0 <= j < |fields| :: fields[j] < Limit(SIZE_T)
    ensures |pre| + SIZE_T * i + SIZE_T <= |pre + Sizes(fields) + post|
    ensures SizeAt(pre + Sizes(fields) + post, |pre| + SIZE_T * i) == fields[i]
    decreases |fields|
  {
    var first, more := Le(fields[0], SIZE_T), Sizes(fields[1..]);
    assert pre + Sizes(fields) + post == pre + first + (more + post);
    if i == 0 {
      SizeWithin(pre, fields[0], more + post);
    } else {
      assert pre + Sizes(fields) + post == (pre + first) + more + post;
      SizesAt(pre + first, fields[1..], post, i - 1);
    }
  }

  /** The header of a command is read back. */
  lemma HeaderRead(pre: Bytes, s: Scom, post: Bytes)
    requires forall j | 0 <= j < 11 :: FieldsOf(s)[j] < Limit(SIZE_T)
    ensures ScomAt(pre + HeaderBytes(s) + post, |pre|) == s
  {
    var file, p := pre + HeaderBytes(s) + post, pre + CommandString(s.comType);
    assert file == p + Sizes(FieldsOf(s)) + post;
    forall i: nat | i < 11
      ensures FieldAt(file, |pre|, i) == FieldsOf(s)[i]
    {
      SizesAt(p, FieldsOf(s), post, i);
    }
  }

  lemma FieldsSmall(c: Command)
    requires Puttable(c) && |Encoded(c)| < Limit(SIZE_T)
    ensures forall j | 0 <= j < 11 :: FieldsOf(ScomOf(Carried(c)))[j] < Limit(SIZE_T)
  {
    LimitIs();
  }

  lemma EncodedParts(pre: Bytes, c: Command, post: Bytes)
    requires Puttable(c)
    ensures var n := Carried(c); FivePartsAt(pre + Encoded(c) + post, |pre| + SCOM_SIZE, n.key, n.val, n.skey, n.attrs,
        n.exdata)
  {
    var n, s := Carried(c), ScomOf(Carried(c));
    assert pre + Encoded(c) + post == (pre + HeaderBytes(s)) + (n.key + n.val + n.skey + n.attrs + n.exdata) + post;
    PartsRead(pre + HeaderBytes(s), n.key, n.val, n.skey, n.attrs, n.exdata, post);
  }

  lemma EncodedHeader(pre: Bytes, c: Command, post: Bytes)
    requires Puttable(c) && |Encoded(c)| < Limit(SIZE_T)
    ensures
      && |pre| + SCOM_SIZE <= |pre + Encoded(c) + post| && ScomAt(pre + Encoded(c) + post, |pre|) == ScomOf(Carried(c))
  {
    var n, s, file := Carried(c), ScomOf(Carried(c)), pre + Encoded(c) + post;
    FieldsSmall(c);
    assert file == pre + HeaderBytes(s) + (DataOf(n) + post);
    HeaderRead(pre, s, DataOf(n) + post);
  }

  /** The command at the start of its buffer is read back, and the next one starts where the buffer ends. */
  lemma CommandRead(pre: Bytes, c: Command, post: Bytes)
    requires Puttable(c) && |Encoded(c)| < Limit(SIZE_T)
    ensures
      var file := pre + Encoded(c) + post;
      && |pre| + SCOM_SIZE <= |file| && ScomAt(file, |pre|) == ScomOf(Carried(c))
      && AllReadable(file, |pre|, ScomOf(Carried(c))) && CommandAt(file, |pre|, ScomOf(Carried(c))) == Carried(c)
      && |pre| + TotalLength(ScomOf(Carried(c))) == |pre + Encoded(c)|
  {
    var n, s, file := Carried(c), ScomOf(Carried(c)), pre + Encoded(c) + post;
    EncodedHeader(pre, c, post);
    EncodedParts(pre, c, post);
    PartsAre(c);
    PartsFound(file, |pre|, n, s);
  }

  /** Parts that are found behind the header, where the fields say, are the data of the command. */
  lemma PartsFound(file: Bytes, offset: nat, n: Command, s: Scom)
    requires s.comType == n.comType && s.keyLength == |n.key| && s.valLength == |n.val| && s.skeyLength == |n.skey|
    requires s.attrLength == |n.attrs| && s.exdataLength == |n.exdata| && s.keyPos == SCOM_SIZE
    requires n.val == [] || s.valPos == SCOM_SIZE + |n.key|
    requires n.skey == [] || s.skeyPos == SCOM_SIZE + |n.key| + |n.val|
    requires n.attrs == [] || s.attrsPos == SCOM_SIZE + |n.key| + |n.val| + |n.skey|
    requires n.exdata == [] || s.exdataPos == SCOM_SIZE + |n.key| + |n.val| + |n.skey| + |n.attrs|
    requires offset + TotalLength(s) <= |file|
    requires FivePartsAt(file, offset + SCOM_SIZE, n.key, n.val, n.skey, n.attrs, n.exdata)
    ensures AllReadable(file, offset, s) && CommandAt(file, offset, s) == n
  {
    var p := offset + SCOM_SIZE;
    assert Readable(file, offset, s.keyPos, s.keyLength) && PartAt(file, offset, s.keyPos, s.keyLength) == n.key by {
      PartFound(file, offset, s.keyPos, p, n.key);
    }
    assert Readable(file, offset, s.valPos, s.valLength) && PartAt(file, offset, s.valPos, s.valLength) == n.val by {
      PartFound(file, offset, s.valPos, p + |n.key|, n.val);
    }
    assert Readable(file, offset, s.skeyPos, s.skeyLength) && PartAt(file, offset, s.skeyPos, s.skeyLength) == n.skey
    by {
      PartFound(file, offset, s.skeyPos, p + |n.key| + |n.val|, n.skey);
    }
    assert Readable(file, offset, s.attrsPos, s.attrLength) && PartAt(file, offset, s.attrsPos, s.attrLength) == n.attrs
    by {
      PartFound(file, offset, s.attrsPos, p + |n.key| + |n.val| + |n.skey|, n.attrs);
    }
    PartFound(file, offset, s.exdataPos, p + |n.key| + |n.val| + |n.skey| + |n.attrs|, n.exdata);
  }

  lemma PartFound(file: Bytes, offset: nat, pos: nat, from: nat, part: Bytes)
    requires Lies(file, from, part) && (part == [] || offset + pos == from)
    ensures Readable(file, offset, pos, |part|) && PartAt(file, offset, pos, |part|) == part
  {
    LiesAt(file, from, part);
  }

  /** What the command at the start of its buffer does, and where the next one starts. */
  lemma CommandApplied(pre: Bytes, c: Command, post: Bytes, m: Content)
    requires Puttable(c) && |Encoded(c)| < Limit(SIZE_T)
    ensures
      var file := pre + Encoded(c) + post;
      && |pre| + SCOM_SIZE <= |file| && ApplyAt(file, |pre|, m) == Apply(m, Carried(c))
      && |pre| + TotalLength(ScomAt(file, |pre|)) == |pre + Encoded(c)|
  {
    CommandRead(pre, c, post);
  }

  /** The buffer of a command that sets everything, field by field: lengths, places and data. */
  lemma SetAllLayout(c: Command)
    requires Puttable(c) && c.comType == SCOM_SET_ALL && |Encoded(c)| < Limit(SIZE_T)
    ensures
      var buf := Encoded(c);
      var valPos := 104 + |c.key|;
      var skeyPos := valPos + |c.val|;
      var attrsPos := skeyPos + |c.skey|;
      && |buf| == attrsPos + |c.attrs| && buf[..16] == CommandString(SCOM_SET_ALL) && SizeAt(buf, 16) == SCOM_SET_ALL
      && SizeAt(buf, 24) == |c.key| && SizeAt(buf, 32) == |c.val| && SizeAt(buf, 40) == |c.skey|
      && SizeAt(buf, 48) == |c.attrs| && SizeAt(buf, 56) == 0
      && SizeAt(buf, 64) == 104 && SizeAt(buf, 72) == valPos && SizeAt(buf, 80) == skeyPos
      && SizeAt(buf, 88) == attrsPos && SizeAt(buf, 96) == 104
      && buf[104..] == c.key + c.val + c.skey + c.attrs
  {
    EncodedHeader([], c, []);
    var buf, s := Encoded(c), ScomOf(Carried(c));
    assert [] + buf + [] == buf;
    assert buf[..16] == HeaderBytes(s)[..16] == CommandString(SCOM_SET_ALL);
    assert DataOf(Carried(c)) == c.key + c.val + c.skey + c.attrs;
    assert forall i: nat | i < 11 :: FieldAt(buf, 0, i) == SizeAt(buf, 16 + SIZE_T * i);
  }

  /** Loading a file of commands applies exactly these commands, each with the data its type carries, in their order. */
  lemma {:induction false} FileLoaded(pre: Bytes, cs: seq<Command>, m: Content, isErrSkip: bool)
    requires AllPuttable(cs)
    ensures LoadedFrom(pre + FileOf(cs), |pre|, m, isErrSkip) == ApplyAll(m, cs, isErrSkip)
    decreases |cs|
  {
    if cs != [] {
      var pre', post := pre + Encoded(cs[0]), FileOf(cs[1..]);
      assert pre + FileOf(cs) == pre' + post;
      CommandApplied(pre, cs[0], post, m);
      LoadedNext(pre' + post, |pre|, m, isErrSkip, |pre'|, Apply(m, Carried(cs[0])));
      match Apply(m, Carried(cs[0]))
      case Done(m1) => FileLoaded(pre', cs[1..], m1, isErrSkip);
      case Failed(m1) => FileLoaded(pre', cs[1..], m1, isErrSkip);
      case Outside =>
    }
  }

  lemma {:induction false} LoadedNext(file: Bytes, offset: nat, m: Content, isErrSkip: bool, next: nat,
                                      outcome: Outcome)
    requires offset + SCOM_SIZE <= |file| && next == offset + TotalLength(ScomAt(file, offset))
    requires outcome == ApplyAt(file, offset, m)
    ensures
      LoadedFrom(file, offset, m, isErrSkip) ==
        match outcome
        case Done(m1) => LoadedFrom(file, next, m1, isErrSkip)
        case Failed(m1) => if isErrSkip then LoadedFrom(file, next, m1, isErrSkip) else (Failed(m1), m1)
        case Outside => (Outside, m)
  {
  }

  // ---------------------------------------------------------------- saving

  /** Longer values are saved in chunks of this length. */
  const MAX_VALLENGTH_FOR_SERIALIZE := 1024 * 1024 * 10

  datatype Stored = Stored(key: Bytes, entry: Entry)

  function SetAll(key: Bytes, value: Bytes, entry: Entry): Command
  {
    Command(SCOM_SET_ALL, key, value, entry.subkeys, entry.attrs, [])
  }

  function OverWrite(key: Bytes, bytes: Bytes, offset: nat): Command
  {
    Command(SCOM_OW_VAL, key, bytes, [], [], Le(offset, SIZE_T))
  }

  /** The commands for the chunks of a value from an offset on. */
  function Chunks(key: Bytes, value: Bytes, offset: nat): seq<Command>
    decreases |value| - offset
  {
    if |value| <= offset then []
    else
      var n := if |value| - offset < MAX_VALLENGTH_FOR_SERIALIZE then |value| - offset else MAX_VALLENGTH_FOR_SERIALIZE;
      [OverWrite(key, value[offset..offset + n], offset)] + Chunks(key, value, offset + n)
  }

  /** The commands for one key. */
  function SaveOne(s: Stored): seq<Command>
  {
    if MAX_VALLENGTH_FOR_SERIALIZE < |s.entry.value| then [SetAll(s.key, [], s.entry)] + Chunks(s.key, s.entry.value, 0)
    else [SetAll(s.key, s.entry.value, s.entry)]
  }

  function SaveAll(all: seq<Stored>): seq<Command>
  {
    if all == [] then [] else SaveOne(all[0]) + SaveAll(all[1..])
  }

  /** Writes the buffer of a command at the end of a file, which holds the commands done. */
  method WriteCommand(arCom: Archive, c: Command, file: Bytes, ghost done: seq<Command>) returns (file': Bytes)
    requires Puttable(c) && file == FileOf(done)
    modifies arCom
    ensures file' == FileOf(done + [c])
  {
    var ok := arCom.Put(c);
    file' := file + arCom.binCom[..];
    FileAppend(done, [c]);
    assert [c][1..] == [] && FileOf([c]) == Encoded(c) + [];
  }

  /** Writes a long value chunk by chunk, up to the first chunk that is not full. */
  method SaveChunks(arCom: Archive, key: Bytes, value: Bytes, file: Bytes, ghost done: seq<Command>)
    returns (file': Bytes)
    requires key != [] && file == FileOf(done)
    modifies arCom
    ensures file' == FileOf(done + Chunks(key, value, 0))
  {
    file' := file;
    ghost var now := [];
    assert done + [] == done;
    var valoffset: nat := 0;
    while true
      invariant ChunksSaved(file', done, now, key, value, valoffset)
      decreases |value| - valoffset
    {
      var vlength :=
        if |value| - valoffset < MAX_VALLENGTH_FOR_SERIALIZE then |value| - valoffset else MAX_VALLENGTH_FOR_SERIALIZE;
      if vlength == 0 {
        break;
      }
      file' := SaveChunk(arCom, key, value, file', done, now, valoffset, vlength);
      now := now + [OverWrite(key, value[valoffset..valoffset + vlength], valoffset)];
      valoffset := valoffset + vlength;
      if MAX_VALLENGTH_FOR_SERIALIZE != vlength {
        break;
      }
    }
    assert now + [] == now;
  }

  /** The chunks before the offset are in the file, behind the commands done. */
  ghost predicate ChunksSaved(file: Bytes, done: seq<Command>, now: seq<Command>, key: Bytes, value: Bytes,
                              valoffset: nat)
  {
    valoffset <= |value| && file == FileOf(done + now) && now + Chunks(key, value, valoffset) == Chunks(key, value, 0)
  }

  method SaveChunk(arCom: Archive, key: Bytes, value: Bytes, file: Bytes, ghost done: seq<Command>,
                   ghost now: seq<Command>, valoffset: nat, vlength: nat)
    returns (file': Bytes)
    requires key != [] && ChunksSaved(file, done, now, key, value, valoffset) && 0 < vlength
    requires vlength ==
      if |value| - valoffset < MAX_VALLENGTH_FOR_SERIALIZE then |value| - valoffset else MAX_VALLENGTH_FOR_SERIALIZE
    modifies arCom
    ensures ChunksSaved(file', done, now + [OverWrite(key, value[valoffset..valoffset + vlength], valoffset)], key,
      value, valoffset + vlength)
  {
    var c := OverWrite(key, value[valoffset..valoffset + vlength], valoffset);
    file' := WriteCommand(arCom, c, file, done + now);
    Onward(done, now, c, Chunks(key, value, valoffset + vlength));
  }

  lemma Onward(done: seq<Command>, now: seq<Command>, c: Command, more: seq<Command>)
    ensures (done + now) + [c] == done + (now + [c]) && now + ([c] + more) == (now + [c]) + more
  {
  }

  lemma SavedOnward(done: seq<Command>, now: seq<Command>, more: seq<Command>)
    ensures done + (now + more) == (done + now) + more
  {
  }

  method SaveKey(s: Stored, file: Bytes, ghost done: seq<Command>) returns (file': Bytes)
    requires s.key != [] && file == FileOf(done)
    ensures file' == FileOf(done + SaveOne(s))
  {
    var arCom := new Archive();
    if MAX_VALLENGTH_FOR_SERIALIZE < |s.entry.value| {
      var c := SetAll(s.key, [], s.entry);
      file' := WriteCommand(arCom, c, file, done);
      file' := SaveChunks(arCom, s.key, s.entry.value, file', done + [c]);
      SavedOnward(done, [c], Chunks(s.key, s.entry.value, 0));
    } else {
      file' := WriteCommand(arCom, SetAll(s.key, s.entry.value, s.entry), file, done);
    }
  }

  lemma {:induction false} FileAppend(a: seq<Command>, b: seq<Command>)
    ensures FileOf(a + b) == FileOf(a) + FileOf(b)
    decreases |a|
  {
    if a == [] {
      assert a + b == b;
    } else {
      assert (a + b)[1..] == a[1..] + b;
      FileAppend(a[1..], b);
    }
  }

  // ---------------------------------------------------------------- saving and loading

  lemma {:induction false} ApplyAppend(m: Content, a: seq<Command>, b: seq<Command>, m1: Content, isErrSkip: bool)
    requires ApplyAll(m, a, false) == (Done(m1), m1)
    ensures ApplyAll(m, a + b, isErrSkip) == ApplyAll(m1, b, isErrSkip)
    decreases |a|
  {
    if a == [] {
      assert a + b == b;
    } else {
      assert (a + b)[0] == a[0] && (a + b)[1..] == a[1..] + b;
      var m2 := Apply(m, Carried(a[0])).content;
      ApplyAppend(m2, a[1..], b, m1, isErrSkip);
    }
  }

  /** The first command that is refused ends the load, or is passed over if that is wanted. */
  lemma FirstRefused(m: Content, a: seq<Command>, c: Command, b: seq<Command>, m1: Content, m2: Content)
    requires ApplyAll(m, a, false) == (Done(m1), m1) && Apply(m1, c) == Failed(m2)
    ensures ApplyAll(m, a + ([c] + b), false) == (Failed(m2), m2)
    ensures ApplyAll(m, a + ([c] + b), true) == ApplyAll(m2, b, true)
  {
    CarriedApplied(m1, c);
    ApplyAppend(m, a, [c] + b, m1, false);
    ApplyAppend(m, a, [c] + b, m1, true);
    assert ([c] + b)[1..] == b;
  }

  /** The chunks, applied to a value that has everything before them, complete it. */
  lemma {:induction false} ChunksApplied(m: Content, key: Bytes, value: Bytes, offset: nat)
    requires key != [] && key in m && offset <= |value| && |value| < Limit(SIZE_T) && m[key].value == value[..offset]
    ensures
      var m' := m[key := m[key].(value := value)];
      ApplyAll(m, Chunks(key, value, offset), false) == (Done(m'), m')
    decreases |value| - offset
  {
    if offset == |value| {
      assert value[..offset] == value;
      assert m[key := m[key].(value := value)] == m;
    } else {
      var n := if |value| - offset < MAX_VALLENGTH_FOR_SERIALIZE then |value| - offset else MAX_VALLENGTH_FOR_SERIALIZE;
      var c := OverWrite(key, value[offset..offset + n], offset);
      WrittenRead(offset, SIZE_T);
      assert WriteAt(value[..offset], offset, value[offset..offset + n]) == value[..offset + n];
      var m1 := m[key := m[key].(value := value[..offset + n])];
      assert Apply(m, Carried(c)) == Done(m1);
      ChunksApplied(m1, key, value, offset + n);
      OneThen(m, c, m1, Chunks(key, value, offset + n));
      assert m1[key := m1[key].(value := value)] == m[key := m[key].(value := value)];
    }
  }

  lemma OneThen(m: Content, c: Command, m1: Content, more: seq<Command>)
    requires Apply(m, Carried(c)) == Done(m1)
    ensures ApplyAll(m, [c] + more, false) == ApplyAll(m1, more, false)
  {
    assert ([c] + more)[1..] == more;
  }

  /** The commands of one key make its entry. */
  lemma SavedOne(m: Content, s: Stored)
    requires s.key != [] && s.key !in m && |s.entry.value| < Limit(SIZE_T)
    ensures var m' := m[s.key := s.entry]; ApplyAll(m, SaveOne(s), false) == (Done(m'), m')
  {
    var m' := m[s.key := s.entry];
    if MAX_VALLENGTH_FOR_SERIALIZE < |s.entry.value| {
      var m1 := m[s.key := s.entry.(value := [])];
      SetAllApplied(m, s.key, [], s.entry);
      OneThen(m, SetAll(s.key, [], s.entry), m1, Chunks(s.key, s.entry.value, 0));
      ChunksApplied(m1, s.key, s.entry.value, 0);
      assert m1[s.key := m1[s.key].(value := s.entry.value)] == m';
    } else {
      SetAllApplied(m, s.key, s.entry.value, s.entry);
      OneThen(m, SetAll(s.key, s.entry.value, s.entry), m', []);
      assert [SetAll(s.key, s.entry.value, s.entry)] + [] == SaveOne(s);
    }
  }

  lemma SetAllApplied(m: Content, key: Bytes, value: Bytes, entry: Entry)
    requires key != [] && key !in m
    ensures Apply(m, Carried(SetAll(key, value, entry))) == Done(m[key := entry.(value := value)])
  {
  }

  /** The map that a list of keys stands for. */
  function ContentOf(all: seq<Stored>): Content
  {
    if all == [] then map[] else ContentOf(all[..|all| - 1])[all[|all| - 1].key := all[|all| - 1].entry]
  }

  /** Keys that are all there, and all different, with values whose lengths fit their fields. */
  ghost predicate Savable(all: seq<Stored>)
  {
    && (forall i | 0 <= i < |all| :: all[i].key != [] && |all[i].entry.value| < Limit(SIZE_T))
    && (forall i, j | 0 <= i < j < |all| :: all[i].key != all[j].key)
  }

  lemma {:induction false} ContentKeys(all: seq<Stored>, k: Bytes)
    ensures k in ContentOf(all) <==> exists i | 0 <= i < |all| :: all[i].key == k
  {
    if all != [] {
      var n := |all| - 1;
      ContentKeys(all[..n], k);
      if i :| 0 <= i < |all| && all[i].key == k {
        assert i < n ==> all[..n][i].key == k;
      }
    }
  }

  lemma {:induction false} SaveAppend(all: seq<Stored>)
    requires all != []
    ensures SaveAll(all) == SaveAll(all[..|all| - 1]) + SaveOne(all[|all| - 1])
  {
    var n := |all| - 1;
    if n > 0 {
      SaveAppend(all[1..]);
      assert all[1..][..n - 1] == all[..n][1..];
      assert all[..n][0] == all[0];
    } else {
      assert all[1..] == [] && all[..n] == [];
    }
  }

  lemma {:induction false} SavedAll(all: seq<Stored>)
    requires Savable(all)
    ensures ApplyAll(map[], SaveAll(all), false) == (Done(ContentOf(all)), ContentOf(all))
    decreases |all|
  {
    if all != [] {
      var n := |all| - 1;
      var m := ContentOf(all[..n]);
      SavedAll(all[..n]);
      SaveAppend(all);
      ContentKeys(all[..n], all[n].key);
      ApplyAppend(map[], SaveAll(all[..n]), SaveOne(all[n]), m, false);
      SavedOne(m, all[n]);
    }
  }

  /**
   Saving a store and loading the file into an empty one gives the same keys with the same values, subkeys and
   attributes.
   */
  lemma SavedThenLoaded(all: seq<Stored>)
    requires Savable(all) && AllPuttable(SaveAll(all))
    ensures LoadedFrom(FileOf(SaveAll(all)), 0, map[], false) == (Done(ContentOf(all)), ContentOf(all))
  {
    SavedAll(all);
    FileLoaded([], SaveAll(all), map[], false);
    assert [] + FileOf(SaveAll(all)) == FileOf(SaveAll(all));
  }
}

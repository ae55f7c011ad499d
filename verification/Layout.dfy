/**
 Basic vocabulary of a k2hash file: relative addresses, bytes, and the powers
 of two that stand for its masks.  A mask of the file is always a run of low
 one-bits, so the model keeps its bit count n; the mask itself is Pow2(n) - 1,
 masking is the remainder modulo Pow2(n), and a right shift by n is the
 quotient by Pow2(n).
 */
module Layout {

  /** An offset in the k2hash file; 0 is the null pointer. */
  type Ptr = nat

  const NULL: Ptr := 0

  /** No address is in the list twice. */
  ghost predicate Distinct(list: seq<Ptr>)
  {
    forall i, j | 0 <= i < j < |list| :: list[i] != list[j]
  }

  type Byte = b: int | 0 <= b < 256

  type Bytes = seq<Byte>

  /**
   Always true.  A definition guarded by Look(level, _) is part of a proof only where Look(level, 0)
   is mentioned, which keeps large invariants out of the proofs that just hand them on.  Each such
   definition has a level of its own.
   */
  predicate Look(level: nat, u: nat) { true }

  /** How deep the recursive invariants nest; a proof unfolds one only where it names the depth. */
  const DEPTH: nat := |[0, 0, 0]|

  const ROOTED: nat := 0
  const REARRANGED: nat := 1
  const INDEXED: nat := 2
  const ARRANGING: nat := 3
  const KEPT: nat := 4
  const UNTOUCHED: nat := 5
  const WRITING_AT: nat := 8
  const PATCHING_AT: nat := 9
  const FINER: nat := 10
  const OWNS: nat := 11
  const KEYED: nat := 12
  const GATHERED: nat := 13
  const SAME_BODIES: nat := 14
  const FITS_IN: nat := 15
  const TWINLESS: nat := 16
  const WIDENED: nat := 17
  const AREA_MADE: nat := 18
  const SORTED: nat := 19
  const WALKING: nat := 20
  const PAGE_IN: nat := 21
  const AREAS: nat := 22
  const CARRIED: nat := 24
  const BETWEEN: nat := 25
  const LOADING: nat := 26
  const RECORD_FOLLOWS: nat := 27
  const FOLLOWS: nat := 28
  const LOAD_FOLLOWS: nat := 29
  const ELEMENTS_MADE: nat := 30
  const SLICE: nat := 31
  const ARCHIVED_IN: nat := 32
  const PREPARED: nat := 33
  const FILLING: nat := 34
  const LEADS: nat := 35
  const APART: nat := 36
  const KEYS_ALONG: nat := 37
  const NOTED: nat := 38
  const LISTED: nat := 39
  const ALL_PACKED: nat := 40
  const LOCATED: nat := 41
  const AREAS_WHOLE: nat := 42
  const FOUND_AT: nat := 43

  lemma RemovedThenPut<V>(m: map<Bytes, V>, key: Bytes, val: V)
    ensures (m - {key})[key := val] == m[key := val]
  {
  }

  function Pow2(n: nat): (p: nat)
    ensures p >= 1
  {
    if n == 0 then 1 else 2 * Pow2(n - 1)
  }

  /** The low n bits of s: s & (2^n - 1). */
  function Low(s: nat, n: nat): (r: nat)
    ensures r < Pow2(n)
    ensures r <= s
  {
    if n == 0 then 0 else s % 2 + 2 * Low(s / 2, n - 1)
  }

  /** s >> n. */
  function Shift(s: nat, n: nat): nat
  {
    if n == 0 then s else Shift(s / 2, n - 1)
  }

  /** Bit n of s. */
  function Bit(s: nat, n: nat): (r: nat)
    ensures r <= 1
  {
    if n == 0 then s % 2 else Bit(s / 2, n - 1)
  }

  lemma Doubled(a: nat, b: nat)
    ensures a * (2 * b) == 2 * (a * b)
  {
  }

  lemma {:induction false} ShiftAndLow(s: nat, n: nat)
    ensures s == Shift(s, n) * Pow2(n) + Low(s, n)
  {
    if n > 0 {
      ShiftAndLow(s / 2, n - 1);
      Doubled(Shift(s / 2, n - 1), Pow2(n - 1));
    }
  }

  /** Masking and shifting are remainder and quotient. */
  lemma MaskAndShift(s: nat, n: nat)
    ensures Low(s, n) == s % Pow2(n) && Shift(s, n) == s / Pow2(n)
  {
    ShiftAndLow(s, n);
    RestIs(s, Pow2(n), Shift(s, n), Low(s, n));
  }

  /** A sum of a multiple and a rest has that rest, and the factor is its quotient. */
  lemma RestIs(x: int, max: nat, q: int, r: nat)
    requires r < max && x == q * max + r
    ensures x % max == r && x / max == q
  {
    var d := q - x / max;
    assert x == max * (x / max) + x % max && max * d == x % max - r;
    assert d >= 1 ==> max * d >= max;
    assert d <= -1 ==> max * d <= -1 * max;
  }

  lemma {:induction false} Pow2Monotone(m: nat, n: nat)
    requires m <= n
    ensures Pow2(m) <= Pow2(n)
  {
    if m < n {
      Pow2Monotone(m, n - 1);
    }
  }

  /** Masking loses nothing of a value that fits the mask. */
  lemma {:induction false} LowFits(s: nat, n: nat)
    requires s < Pow2(n)
    ensures Low(s, n) == s
  {
    if n > 0 {
      LowFits(s / 2, n - 1);
    }
  }

  /** Reading k+1 bits gives the low k bits plus the bit above them. */
  lemma {:induction false} LowStep(s: nat, k: nat)
    ensures Low(s, k + 1) == Low(s, k) + if Bit(s, k) == 1 then Pow2(k) else 0
  {
    if k > 0 {
      LowStep(s / 2, k - 1);
    }
  }

  /** The wider mask gives a value below 2^k exactly when it gives the narrower mask's value. */
  lemma LowStepCases(s: nat, k: nat)
    ensures Low(s, k + 1) == Low(s, k) || Low(s, k + 1) == Low(s, k) + Pow2(k)
    ensures Low(s, k + 1) < Pow2(k) <==> Low(s, k + 1) == Low(s, k)
  {
    LowStep(s, k);
  }

  /** Masking by a wide mask and then by a narrow one is masking by the narrow one. */
  lemma {:induction false} LowLow(s: nat, j: nat, k: nat)
    requires j <= k
    ensures Low(Low(s, k), j) == Low(s, j)
  {
    if j > 0 {
      LowLow(s / 2, j - 1, k - 1);
      assert Low(s, k) % 2 == s % 2 && Low(s, k) / 2 == Low(s / 2, k - 1);
    }
  }
}

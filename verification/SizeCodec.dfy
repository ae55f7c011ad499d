/** The eight bytes of a size_t, least significant first. */
module SizeCodec {
  import opened Layout

  const SIZE_T := 8

  /** The bytes of n in a field of `width` bytes. */
  function Le(n: nat, width: nat): (r: Bytes)
    ensures |r| == width
  {
    if width == 0 then [] else [n % 256] + Le(n / 256, width - 1)
  }

  /** The number that bytes stand for. */
  function Number(bytes: Bytes): nat
  {
    if bytes == [] then 0 else bytes[0] + 256 * Number(bytes[1..])
  }

  function Limit(width: nat): (r: nat)
    ensures r > 0
  {
    if width == 0 then 1 else 256 * Limit(width - 1)
  }

  lemma LimitIs()
    ensures Limit(SIZE_T) == 0x1_0000_0000_0000_0000
  {
    assert
      && Limit(2) == 0x1_0000 && Limit(4) == 256 * (256 * Limit(2)) && Limit(6) == 256 * (256 * Limit(4))
      && Limit(8) == 256 * (256 * Limit(6));
  }

  /** Writing a number that fits and reading it gives it back. */
  lemma {:induction false} WrittenRead(n: nat, width: nat)
    requires n < Limit(width)
    ensures Number(Le(n, width)) == n
  {
    if width > 0 {
      WrittenRead(n / 256, width - 1);
      assert Le(n, width)[1..] == Le(n / 256, width - 1);
    }
  }

  /** The bytes of a size_t, the lowest first. */
  lemma LowestFirst(bytes: Bytes)
    requires |bytes| == SIZE_T
    ensures
      var b: seq<int> := bytes;
      Number(bytes) ==
      b[0] + 0x100 * b[1] + 0x1_0000 * b[2] + 0x100_0000 * b[3] + 0x1_0000_0000 * b[4]
      + 0x100_0000_0000 * b[5] + 0x1_0000_0000_0000 * b[6] + 0x100_0000_0000_0000 * b[7]
  {
    assert Number(bytes[8..]) == 0;
    assert bytes[7..][1..] == bytes[8..] && bytes[6..][1..] == bytes[7..] && bytes[5..][1..] == bytes[6..];
    assert bytes[4..][1..] == bytes[5..] && bytes[3..][1..] == bytes[4..] && bytes[2..][1..] == bytes[3..];
    assert bytes[1..][1..] == bytes[2..];
    assert Number(bytes[6..]) == bytes[6] + 256 * Number(bytes[7..]) && Number(bytes[7..]) == bytes[7];
    assert Number(bytes[4..]) == bytes[4] + 256 * (bytes[5] + 256 * Number(bytes[6..]));
    assert Number(bytes[2..]) == bytes[2] + 256 * (bytes[3] + 256 * Number(bytes[4..]));
  }

  /** Reading bytes and writing the number gives the bytes back. */
  lemma {:induction false} ReadWritten(bytes: Bytes)
    ensures Le(Number(bytes), |bytes|) == bytes
  {
    if bytes != [] {
      ReadWritten(bytes[1..]);
    }
  }

  /** The size_t at a position of a buffer. */
  function SizeAt(buf: Bytes, pos: nat): nat
    requires pos + SIZE_T <= |buf|
  {
    Number(buf[pos..pos + SIZE_T])
  }

  /** The bytes between others. */
  lemma Cut(pre: Bytes, bytes: Bytes, post: Bytes)
    ensures (pre + bytes + post)[|pre|..|pre| + |bytes|] == bytes
  {
  }

  /** The part lies in the buffer from n on. */
  ghost predicate Lies(buf: Bytes, n: nat, part: Bytes)
  {
    n + |part| <= |buf| && forall u: nat {:trigger Look(SLICE, u)} :: Look(SLICE, u) ==> buf[n..n + |part|] == part
  }

  lemma LiesAt(buf: Bytes, n: nat, part: Bytes)
    ensures Lies(buf, n, part) <==> n + |part| <= |buf| && buf[n..n + |part|] == part
  {
    assert Look(SLICE, 0);
  }

  /** Three byte strings behind each other, grouped in other ways. */
  lemma Grouped(a: Bytes, b: Bytes, c: Bytes)
    ensures a + b + c == a + (b + c) && [] + a + (b + c) == a + (b + c)
  {
  }

  /** Five byte strings lie one behind the other from n on. */
  ghost predicate FivePartsAt(buf: Bytes, n: nat, a: Bytes, b: Bytes, c: Bytes, d: Bytes, e: Bytes)
  {
    && Lies(buf, n, a) && Lies(buf, n + |a|, b) && Lies(buf, n + |a| + |b|, c)
    && Lies(buf, n + |a| + |b| + |c|, d) && Lies(buf, n + |a| + |b| + |c| + |d|, e)
  }

  /** A part with bytes before and behind it, all of them among others. */
  lemma PartRead(pre: Bytes, all: Bytes, before: Bytes, part: Bytes, behind: Bytes, post: Bytes)
    requires all == before + part + behind
    ensures Lies(pre + all + post, |pre| + |before|, part)
  {
    assert pre + all + post == (pre + before) + part + (behind + post);
    Cut(pre + before, part, behind + post);
  }

  /** Five parts behind each other are found at their places. */
  lemma PartsRead(pre: Bytes, a: Bytes, b: Bytes, c: Bytes, d: Bytes, e: Bytes, post: Bytes)
    ensures FivePartsAt(pre + (a + b + c + d + e) + post, |pre|, a, b, c, d, e)
  {
    var all := a + b + c + d + e;
    Associates(a, b, c, d, e);
    PartRead(pre, all, [], a, b + c + d + e, post);
    PartRead(pre, all, a, b, c + d + e, post);
    PartRead(pre, all, a + b, c, d + e, post);
    PartRead(pre, all, a + b + c, d, e, post);
    PartRead(pre, all, a + b + c + d, e, [], post);
  }

  lemma Associates(a: Bytes, b: Bytes, c: Bytes, d: Bytes, e: Bytes)
    ensures
      var all := a + b + c + d + e;
      && all == [] + a + (b + c + d + e) && all == a + b + (c + d + e) && all == (a + b) + c + (d + e)
      && all == (a + b + c) + d + e && all == (a + b + c + d) + e + []
  {
  }

  /** A size_t among other bytes. */
  lemma SizeWithin(pre: Bytes, n: nat, post: Bytes)
    requires n < Limit(SIZE_T)
    ensures SizeAt(pre + Le(n, SIZE_T) + post, |pre|) == n
  {
    Cut(pre, Le(n, SIZE_T), post);
    WrittenRead(n, SIZE_T);
  }

  /** size_t arithmetic. */
  function Wrap(n: nat): nat
  {
    n % Limit(SIZE_T)
  }
}

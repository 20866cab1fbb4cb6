/**
 * How bits lie in bytes: packed from the left, the last byte filled up with
 * zeros.  Partial bytes handed to or taken from a stream are aligned to the
 * right, or to the left as inside the stream.
 */
module BitLayout {
  import opened Bits

  function BytesFor(bits: nat): nat {
    (bits + 7) / 8
  }

  /** The bytes d hold the bits s and then only zeros. */
  ghost predicate Holds(d: seq<Byte>, s: seq<bool>) {
    |d| == BytesFor(|s|) && Flatten(d) == s + Falses(8 * |d| - |s|)
  }

  /** The bits a call of WriteBits with n bits of `input` denotes. */
  ghost function Payload(input: seq<Byte>, n: nat, rightAligned: bool): (s: seq<bool>)
    requires n <= 8 * |input|
    ensures |s| == n
  {
    Flatten(input[..n / 8]) + LastBits(input, n, rightAligned)
  }

  ghost function LastBits(input: seq<Byte>, n: nat, rightAligned: bool): (s: seq<bool>)
    requires n <= 8 * |input|
    ensures |s| == n % 8
  {
    if n % 8 == 0 then []
    else if rightAligned then Unpack(input[n / 8])[8 - n % 8..]
    else Unpack(input[n / 8])[..n % 8]
  }

  /** Left-aligned data whose unused low bits are zero, as far as they are stored behind `used` bits. */
  ghost predicate LeavesCleanTail(input: seq<Byte>, n: nat, used: nat)
    requires n <= 8 * |input|
  {
    n % 8 == 0 || Clean(input[n / 8], n % 8, used % 8)
  }

  /** How many bits of a byte of which r count are stored behind m bits of a byte. */
  function Stored(m: nat, r: nat): (end: nat)
    requires m < 8 && 0 < r <= 8
    ensures r <= end <= 8
  {
    if m > 0 && r <= 8 - m then 8 - m else 8
  }

  ghost predicate Clean(b: Byte, r: nat, m: nat)
    requires m < 8 && 0 < r <= 8
  {
    Unpack(b)[r..Stored(m, r)] == Falses(Stored(m, r) - r)
  }

  lemma CleanIf(b: Byte, r: nat, m: nat)
    requires m < 8 && 0 < r <= 8 && (Unpack(b)[r..] == Falses(8 - r) || m + r == 8)
    ensures Clean(b, r, m)
  {
    hide Unpack;
    var u, end := Unpack(b), Stored(m, r);
    assert u[r..end] == u[r..][..end - r];
    assert Falses(8 - r)[..end - r] == Falses(end - r);
  }

  /** The bytes d begin with the bits s and end with the byte of the last one. */
  ghost predicate Begins(d: seq<Byte>, s: seq<bool>) {
    |d| == BytesFor(|s|) && s <= Flatten(d)
  }

  lemma BegunContents(d: seq<Byte>, s: seq<bool>)
    requires Begins(d, s)
    ensures Flatten(d)[..|s|] == s
  {
  }

  /** One byte of data whose first r bits count, appended after the bits s. */
  function Spliced(d: seq<Byte>, used: nat, b: Byte, r: nat): seq<Byte>
    requires |d| == BytesFor(used) && 0 < r <= 8
  {
    var m := used % 8;
    if m == 0 then d + [b]
    else
      var first := d[..|d| - 1] + [d[|d| - 1] | Shr(b, m)];
      if 8 - m < r then first + [Shl(b, 8 - m)] else first
  }

  /** A single bit goes into a new byte or into the last one. */
  lemma SplicedBit(d: seq<Byte>, used: nat, b: Byte)
    requires |d| == BytesFor(used)
    ensures BytesFor(used + 1) == used / 8 + 1 == if used % 8 == 0 then |d| + 1 else |d|
    ensures Spliced(d, used, b, 1) == if used % 8 == 0 then d + [b] else d[used / 8 := d[used / 8] | Shr(b, used % 8)]
  {
    hide Shr, Shl;
  }

  /** A spliced byte continues the bits, and the tail remains zero exactly if its own is, as far as it is stored. */
  lemma SplicedHolds(d: seq<Byte>, s: seq<bool>, b: Byte, r: nat)
    requires Holds(d, s) && 0 < r <= 8
    ensures Begins(Spliced(d, |s|, b, r), s + Unpack(b)[..r])
    ensures Holds(Spliced(d, |s|, b, r), s + Unpack(b)[..r]) <==> Clean(b, r, |s| % 8)
  {
    hide Unpack, Shl, Shr, Flatten, Holds, Spliced, Begins, Clean;
    var m := |s| % 8;
    var e := SplicedTail(d, s, b, r, m);
    TailHolds(e, s, b, r, m);
  }

  lemma SplicedTail(d: seq<Byte>, s: seq<bool>, b: Byte, r: nat, m: nat) returns (e: seq<Byte>)
    requires Holds(d, s) && 0 < r <= 8 && m == |s| % 8
    ensures e == Spliced(d, |s|, b, r) && |s| + Stored(m, r) <= 8 * |e| < |s| + r + 8
    ensures Flatten(e) == s + Unpack(b)[..Stored(m, r)] + Falses(8 * |e| - |s| - Stored(m, r))
  {
    hide *;
    HeldLength(d, s, m);
    SplicedIs(d, |s|, b, r, m);
    if m == 0 {
      e := d + [b];
      WholeByte(d, s, b);
    } else {
      JoinedByte(d, s, b, m);
      var first := d[..|d| - 1] + [d[|d| - 1] | Shr(b, m)];
      if 8 - m < r {
        SecondByte(first, s, b, m);
        e := first + [Shl(b, 8 - m)];
      } else {
        e := first;
        NothingBehind(s + Unpack(b)[..8 - m]);
      }
    }
  }

  /** Spliced and Stored, unfolded. */
  lemma SplicedIs(d: seq<Byte>, used: nat, b: Byte, r: nat, m: nat)
    requires |d| == BytesFor(used) && 0 < r <= 8 && m == used % 8
    ensures m == 0 ==> Stored(m, r) == 8 && Spliced(d, used, b, r) == d + [b]
    ensures m != 0 ==> |d| > 0
    ensures m != 0 ==>
              var first := d[..|d| - 1] + [d[|d| - 1] | Shr(b, m)];
              && Stored(m, r) == (if 8 - m < r then 8 else 8 - m)
              && Spliced(d, used, b, r) == if 8 - m < r then first + [Shl(b, 8 - m)] else first
  {
    hide Shl, Shr;
  }

  lemma HeldLength(d: seq<Byte>, s: seq<bool>, m: nat)
    requires Holds(d, s) && m == |s| % 8
    ensures |d| == BytesFor(|s|) && 8 * |d| == if m == 0 then |s| else |s| + 8 - m
    ensures m == 0 ==> Flatten(d) == s
  {
    hide Flatten;
  }

  lemma NothingBehind(s: seq<bool>)
    ensures s + Falses(0) == s
  {
  }

  lemma WholeByte(d: seq<Byte>, s: seq<bool>, b: Byte)
    requires Flatten(d) == s
    ensures Flatten(d + [b]) == s + Unpack(b)[..8] + Falses(0)
  {
    hide Unpack, Flatten;
    FlattenPush(d, b);
    assert Unpack(b)[..8] == Unpack(b);
    NothingBehind(s + Unpack(b));
  }

  lemma SecondByte(first: seq<Byte>, s: seq<bool>, b: Byte, m: nat)
    requires 0 < m < 8 && Flatten(first) == s + Unpack(b)[..8 - m]
    ensures Flatten(first + [Shl(b, 8 - m)]) == s + Unpack(b)[..8] + Falses(8 - m)
  {
    hide Unpack, Flatten, Shl;
    var u := Unpack(b);
    FlattenPush(first, Shl(b, 8 - m));
    UnpackShl(b, 8 - m);
    assert u[..8] == u[..8 - m] + u[8 - m..];
    assert s + u[..8 - m] + (u[8 - m..] + Falses(8 - m)) == s + (u[..8 - m] + u[8 - m..]) + Falses(8 - m);
  }

  lemma TailHolds(e: seq<Byte>, s: seq<bool>, b: Byte, r: nat, m: nat)
    requires 0 < r <= 8 && m == |s| % 8 && |s| + Stored(m, r) <= 8 * |e| < |s| + r + 8
    requires Flatten(e) == s + Unpack(b)[..Stored(m, r)] + Falses(8 * |e| - |s| - Stored(m, r))
    ensures Begins(e, s + Unpack(b)[..r]) && (Holds(e, s + Unpack(b)[..r]) <==> Clean(b, r, m))
  {
    hide *;
    var end, v := Stored(m, r), s + Unpack(b)[..r];
    TailZeros(Flatten(e), s, Unpack(b), r, end, 8 * |e| - |s| - end);
    BeginsAndHolds(e, v, end - r + (8 * |e| - |s| - end));
    CleanIs(b, r, m, end);
  }

  lemma BeginsAndHolds(d: seq<Byte>, s: seq<bool>, pad: nat)
    requires 8 * |d| == |s| + pad && pad < 8 && s <= Flatten(d)
    ensures Begins(d, s) && (Holds(d, s) <==> Flatten(d) == s + Falses(pad))
  {
    hide Flatten, Falses;
    assert |d| == BytesFor(|s|);
  }

  lemma CleanIs(b: Byte, r: nat, m: nat, end: nat)
    requires m < 8 && 0 < r <= 8 && end == Stored(m, r)
    ensures Clean(b, r, m) <==> Unpack(b)[r..end] == Falses(end - r)
  {
    hide Unpack, Falses, Stored;
  }

  lemma TailZeros(w: seq<bool>, s: seq<bool>, u: seq<bool>, r: nat, end: nat, pad: nat)
    requires r <= end <= |u| && w == s + u[..end] + Falses(pad)
    ensures var v := s + u[..r];
            v <= w && (w == v + Falses(end - r + pad) <==> u[r..end] == Falses(end - r))
  {
    var v, n := s + u[..r], end - r;
    assert w == v + (u[r..end] + Falses(pad));
    if w == v + Falses(n + pad) {
      assert u[r..end] == w[|v|..|v| + n] == Falses(n + pad)[..n] == Falses(n);
    }
  }

  /** The partly used byte filled up with the first bits of b. */
  lemma JoinedByte(d: seq<Byte>, s: seq<bool>, b: Byte, m: nat)
    requires Holds(d, s) && m == |s| % 8 != 0
    ensures |d| > 0
    ensures Flatten(d[..|d| - 1] + [d[|d| - 1] | Shr(b, m)]) == s + Unpack(b)[..8 - m]
  {
    hide Unpack, Shr, Flatten, Holds;
    var whole, low := LastByte(d, s, m);
    var front, last := d[..|d| - 1], d[|d| - 1];
    FilledUp(last, low, b, m);
    FlattenPush(front, last | Shr(b, m));
    ConcatAssociates(whole, low, Unpack(b)[..8 - m]);
  }

  lemma FilledUp(last: Byte, low: seq<bool>, b: Byte, m: nat)
    requires |low| == m <= 8 && Unpack(last) == low + Falses(8 - m)
    ensures Unpack(last | Shr(b, m)) == low + Unpack(b)[..8 - m]
  {
    hide Unpack, Shr;
    var u := Unpack(b)[..8 - m];
    UnpackShr(b, m);
    assert Unpack(last)[..m] == low && Unpack(last)[m..] == Falses(8 - m);
    assert Unpack(Shr(b, m))[m..] == u && Unpack(Shr(b, m))[..m] == Falses(m);
    UnpackSplice(last, Shr(b, m), m);
  }

  /** The last, partly used byte: the bits past the whole bytes, then zeros. */
  lemma LastByte(d: seq<Byte>, s: seq<bool>, m: nat) returns (whole: seq<bool>, low: seq<bool>)
    requires Holds(d, s) && m == |s| % 8 != 0
    ensures |d| > 0 && s == whole + low && |low| == m
    ensures Flatten(d[..|d| - 1]) == whole
    ensures Unpack(d[|d| - 1]) == low + Falses(8 - m)
  {
    hide Unpack;
    var k := |d| - 1;
    whole, low := s[..8 * k], s[8 * k..];
    assert Unpack(d[k]) == Flatten(d)[8 * k..];
    assert Flatten(d[..k]) == Flatten(d)[..8 * k];
  }

  lemma SplicedLength(n: nat, r: nat)
    requires 0 < r <= 8
    ensures BytesFor(n + r) == BytesFor(n) + if n % 8 == 0 || 8 - n % 8 < r then 1 else 0
    ensures n % 8 == 0 ==> BytesFor(n) == n / 8
    ensures n % 8 != 0 ==> BytesFor(n) == n / 8 + 1
  {
  }

  /** Bits written after `offset` bytes of a request for n. */
  function Written(n: nat, offset: nat): nat {
    if 8 * offset <= n then 8 * offset else n
  }

  lemma HeldContents(d: seq<Byte>, s: seq<bool>)
    requires Holds(d, s)
    ensures Flatten(d)[..|s|] == s
  {
  }

  lemma ZeroByte(m: nat)
    requires m < 8
    ensures Unpack(0)[..1] == [false] && Unpack(0)[1..] == Falses(7)
    ensures Shr(0, m) == 0
  {
    ZeroShifted(m);
  }

  lemma {:induction false} ZeroShifted(m: nat)
    ensures Shr(0, m) == 0
  {
    if m > 0 {
      ZeroShifted(m - 1);
    }
  }

  lemma TopBitByte()
    ensures Unpack(0x80)[..1] == [true] && Unpack(0x80)[1..] == Falses(7)
  {
    forall i | 0 <= i < 8
      ensures Bit(0x80, i) == (i == 0)
    {
      MaskDistinct(0, i);
    }
  }

  lemma RoomFor(bits: nat, room: nat)
    requires bits <= room
    ensures BytesFor(bits) <= BytesFor(room)
  {
  }

  lemma EmptyPayload(input: seq<Byte>, n: nat, rightAligned: bool)
    ensures Written(n, 0) == 0 && Payload(input, 0, rightAligned) == []
  {
  }

  lemma AllWritten(n: nat, offset: nat)
    ensures Written(n, offset) <= n && (n <= 8 * offset ==> Written(n, offset) == n)
    ensures Written(n, 0) == 0
  {
  }

  /** What one round of WriteBits adds to the payload, and when it keeps the tail clean. */
  lemma NextPayload(input: seq<Byte>, n: nat, offset: nat, rightAligned: bool, start: nat)
    requires n <= 8 * |input| && 8 * offset < n
    ensures var rest := n - 8 * offset;
            var r := if rest >= 8 then 8 else rest;
            var b := if rest < 8 && rightAligned then Shl(input[offset], 8 - rest) else input[offset];
            var used := start + Written(n, offset);
            && used % 8 == start % 8 && Written(n, offset + 1) == Written(n, offset) + r <= n
            && Payload(input, Written(n, offset + 1), rightAligned)
               == Payload(input, Written(n, offset), rightAligned) + Unpack(b)[..r]
            && (Clean(b, r, used % 8) <==> rest > 8 || rightAligned || LeavesCleanTail(input, n, start))
  {
    hide Unpack, Shl, Payload, Flatten, LeavesCleanTail, Clean;
    assert Written(n, offset) == 8 * offset;
    if n - 8 * offset >= 8 {
      CleanIf(input[offset], 8, start % 8);
      WholeIsClean(input, n, start);
      assert Written(n, offset + 1) == 8 * (offset + 1);
      assert Unpack(input[offset])[..8] == Unpack(input[offset]);
      WholeBytes(input, offset, rightAligned);
      WholeBytes(input, offset + 1, rightAligned);
      assert input[..offset + 1] == input[..offset] + [input[offset]];
      FlattenPush(input[..offset], input[offset]);
    } else {
      assert Written(n, offset + 1) == n;
      WholeBytes(input, offset, rightAligned);
      LastPayload(input, n, offset, rightAligned, start);
    }
  }

  lemma WholeIsClean(input: seq<Byte>, n: nat, used: nat)
    requires n <= 8 * |input|
    ensures n % 8 == 0 ==> LeavesCleanTail(input, n, used)
  {
  }

  lemma WholeBytes(input: seq<Byte>, k: nat, rightAligned: bool)
    requires k <= |input|
    ensures Payload(input, 8 * k, rightAligned) == Flatten(input[..k])
  {
    assert 8 * k / 8 == k && 8 * k % 8 == 0;
  }

  lemma LastPayload(input: seq<Byte>, n: nat, offset: nat, rightAligned: bool, start: nat)
    requires n <= 8 * |input| && 8 * offset < n < 8 * offset + 8
    ensures var r := n - 8 * offset;
            var b := if rightAligned then Shl(input[offset], 8 - r) else input[offset];
            var used := start + 8 * offset;
            && Payload(input, n, rightAligned) == Flatten(input[..offset]) + Unpack(b)[..r]
            && (Clean(b, r, used % 8) <==> rightAligned || LeavesCleanTail(input, n, start))
  {
    hide Unpack, Shl, Flatten, Clean;
    var r := n - 8 * offset;
    assert (start + 8 * offset) % 8 == start % 8;
    assert n / 8 == offset && n % 8 == r;
    UnpackShl(input[offset], 8 - r);
    if rightAligned {
      assert (Unpack(input[offset])[8 - r..] + Falses(8 - r))[..r] == Unpack(input[offset])[8 - r..];
      CleanIf(Shl(input[offset], 8 - r), r, start % 8);
    }
  }

  // ----- reading

  /** The bytes ReadBits delivers for the bits s: whole bytes, then the rest at the right. */
  function RightPacked(s: seq<bool>): (d: seq<Byte>)
    ensures |d| == BytesFor(|s|)
  {
    var w := |s| / 8 * 8;
    PackBytes(s[..w]) + (if w == |s| then [] else [PackRight(s[w..])])
  }

  function PackRight(s: seq<bool>): Byte
    requires |s| <= 8
  {
    Pack(Falses(8 - |s|) + s)
  }

  /** The byte of r bits from the m-th of byte q on, put together from two neighbours where it needs both. */
  function Joined(d: seq<Byte>, q: nat, m: nat, r: nat): Byte
    requires m < 8 && 0 < r <= 8 && 8 * q + m + r <= 8 * |d|
  {
    if m + r > 8 then Shl(d[q], m) | Shr(d[q + 1], 8 - m) else Shl(d[q], m)
  }

  /** The byte at an offset, before a partial byte is moved right. */
  function Gathered(d: seq<Byte>, offset: nat, remaining: nat): Byte
    requires 0 < remaining && offset + remaining <= 8 * |d|
  {
    Joined(d, offset / 8, offset % 8, if remaining >= 8 then 8 else remaining)
  }

  lemma GatheredBits(d: seq<Byte>, offset: nat, remaining: nat)
    requires 0 < remaining && offset + remaining <= 8 * |d|
    ensures var r := if remaining >= 8 then 8 else remaining;
            Unpack(Gathered(d, offset, remaining))[..r] == Flatten(d)[offset..offset + r]
  {
    hide Unpack, Flatten, Joined;
    var q, m := offset / 8, offset % 8;
    assert offset == 8 * q + m;
    JoinedBits(d, q, m, if remaining >= 8 then 8 else remaining);
  }

  lemma JoinedBits(d: seq<Byte>, q: nat, m: nat, r: nat)
    requires m < 8 && 0 < r <= 8 && 8 * q + m + r <= 8 * |d|
    ensures Unpack(Joined(d, q, m, r))[..r] == Flatten(d)[8 * q + m..8 * q + m + r]
  {
    hide Unpack, Shl, Shr, Flatten;
    if m + r > 8 {
      GatheredFromTwo(d, q, m);
      SliceOfSlice(Flatten(d), 8 * q + m, 8 * q + m + 8, 0, r);
    } else {
      GatheredFromOne(d, q, m, r);
    }
  }

  /** The byte at an offset, as the reader puts it together. */
  lemma GatheredParts(d: seq<Byte>, offset: nat, remaining: nat)
    requires 0 < remaining && offset + remaining <= 8 * |d|
    ensures var q, m := offset / 8, offset % 8;
            && q < |d|
            && if m > 0 && remaining > 8 - m
               then q + 1 < |d| && Gathered(d, offset, remaining) == Shl(d[q], m) | Shr(d[q + 1], 8 - m)
               else Gathered(d, offset, remaining) == Shl(d[q], m)
  {
    hide Shl, Shr;
  }

  lemma GatheredFromTwo(d: seq<Byte>, q: nat, m: nat)
    requires 0 < m < 8 && q + 1 < |d|
    ensures Unpack(Shl(d[q], m) | Shr(d[q + 1], 8 - m)) == Flatten(d)[8 * q + m..8 * q + m + 8]
  {
    hide Unpack, Shl, Shr, Flatten;
    FlattenAt(d, q);
    FlattenAt(d, q + 1);
    GatherTwo(d[q], d[q + 1], m);
    TwoBytes(Flatten(d), Unpack(d[q]), Unpack(d[q + 1]), q, m);
  }

  lemma GatheredFromOne(d: seq<Byte>, q: nat, m: nat, r: nat)
    requires q < |d| && m + r <= 8
    ensures Unpack(Shl(d[q], m))[..r] == Flatten(d)[8 * q + m..8 * q + m + r]
  {
    hide Unpack, Shl, Flatten;
    FlattenAt(d, q);
    UnpackShl(d[q], m);
    OneByte(Flatten(d), Unpack(d[q]), q, m, r);
  }

  lemma GatherTwo(a: Byte, b: Byte, m: nat)
    requires 0 < m < 8
    ensures Unpack(Shl(a, m) | Shr(b, 8 - m)) == Unpack(a)[m..] + Unpack(b)[..m]
  {
    hide Unpack, Shl, Shr;
    UnpackShl(a, m);
    UnpackShr(b, 8 - m);
    var x, y := Unpack(Shl(a, m)), Unpack(Shr(b, 8 - m));
    assert x[..8 - m] == Unpack(a)[m..] && x[8 - m..] == Falses(m);
    assert y[8 - m..] == Unpack(b)[..m] && y[..8 - m] == Falses(8 - m);
    UnpackSplice(Shl(a, m), Shr(b, 8 - m), 8 - m);
  }

  lemma TwoBytes(s: seq<bool>, x: seq<bool>, y: seq<bool>, q: nat, m: nat)
    requires |x| == |y| == 8 && m < 8 && 8 * q + 16 <= |s|
    requires s[8 * q..8 * q + 8] == x && s[8 * (q + 1)..8 * (q + 1) + 8] == y
    ensures s[8 * q + m..8 * q + m + 8] == x[m..] + y[..m]
  {
    var t := s[8 * q..8 * q + 16];
    SliceOfSlice(s, 8 * q, 8 * q + 16, 0, 8);
    SliceOfSlice(s, 8 * q, 8 * q + 16, 8, 16);
    assert t == t[0..8] + t[8..16];
    SliceOfSlice(s, 8 * q, 8 * q + 16, m, m + 8);
    assert (x + y)[m..m + 8] == x[m..] + y[..m];
  }

  lemma OneByte(s: seq<bool>, x: seq<bool>, q: nat, m: nat, r: nat)
    requires |x| == 8 && m + r <= 8 <= |s| - 8 * q
    requires s[8 * q..8 * q + 8] == x
    ensures s[8 * q + m..8 * q + m + r] == (x[m..] + Falses(m))[..r]
  {
    SliceOfSlice(s, 8 * q, 8 * q + 8, m, m + r);
    assert x[m..m + r] == (x[m..] + Falses(m))[..r];
  }

  /** A partial byte moved right keeps just its leading bits. */
  lemma MovedRight(b: Byte, r: nat)
    requires r <= 8
    ensures Shr(b, 8 - r) == PackRight(Unpack(b)[..r])
  {
    hide Unpack, Shr, Pack;
    UnpackShr(b, 8 - r);
    UnpackPack(Falses(8 - r) + Unpack(b)[..r]);
    UnpackInjective(Shr(b, 8 - r), PackRight(Unpack(b)[..r]));
  }

  /** Reading n bits and writing them again denotes the same bits. */
  lemma PayloadOfRightPacked(s: seq<bool>)
    ensures Payload(RightPacked(s), |s|, true) == s
  {
    hide Unpack, Pack, Flatten;
    var w, r := |s| / 8 * 8, |s| % 8;
    var d := RightPacked(s);
    FlattenPackBytes(s[..w]);
    assert d[..|s| / 8] == PackBytes(s[..w]);
    assert s == s[..w] + s[w..];
    if r != 0 {
      UnpackPack(Falses(8 - r) + s[w..]);
      assert (Falses(8 - r) + s[w..])[8 - r..] == s[w..];
    }
  }

  /** Bytes whose partial last byte has no bits above its value read back as written. */
  lemma RightPackedPayload(input: seq<Byte>, n: nat)
    requires |input| == BytesFor(n)
    requires n % 8 != 0 ==> Unpack(input[n / 8])[..8 - n % 8] == Falses(8 - n % 8)
    ensures RightPacked(Payload(input, n, true)) == input
  {
    hide Unpack, Pack, PackRight, PackBytes, Flatten;
    var s, k, r := Payload(input, n, true), n / 8, n % 8;
    assert n == 8 * k + r && n / 8 * 8 == 8 * k;
    WholePart(s, input[..k]);
    if r != 0 {
      assert s[8 * k..] == Unpack(input[k])[8 - r..];
      PackRightUnpacked(input[k], r);
      assert input == input[..k] + [input[k]];
    } else {
      assert input == input[..k];
    }
  }

  lemma PackRightUnpacked(b: Byte, r: nat)
    requires r <= 8 && Unpack(b)[..8 - r] == Falses(8 - r)
    ensures PackRight(Unpack(b)[8 - r..]) == b
  {
    hide Unpack, Pack;
    assert Unpack(b) == Falses(8 - r) + Unpack(b)[8 - r..];
    PackUnpack(b);
  }

  lemma WholePart(s: seq<bool>, d: seq<Byte>)
    requires 8 * |d| <= |s| && s[..8 * |d|] == Flatten(d)
    ensures PackBytes(s[..8 * |d|]) == d
  {
    hide Unpack, Pack, Flatten;
    FlattenPackBytes(s[..8 * |d|]);
    FlattenInjective(PackBytes(s[..8 * |d|]), d);
  }

  /** What one round of ReadBits adds to the delivered bytes. */
  lemma NextRightPacked(s: seq<bool>, offset: nat)
    requires 8 * offset < |s|
    ensures var rest := |s| - 8 * offset;
            var r := if rest >= 8 then 8 else rest;
            && Written(|s|, offset) == 8 * offset && Written(|s|, offset + 1) == 8 * offset + r
            && RightPacked(s[..8 * offset + r])
               == RightPacked(s[..8 * offset]) + [PackRight(s[8 * offset..8 * offset + r])]
  {
    hide PackRight, PackBytes, Pack;
    var rest := |s| - 8 * offset;
    var r := if rest >= 8 then 8 else rest;
    var t, w := s[..8 * offset + r], s[..8 * offset];
    assert w[..8 * offset] == w && t[..8 * offset] == w;
    assert s[8 * offset..8 * offset + r] == t[8 * offset..];
    if r == 8 {
      WholePush(w, t[8 * offset..]);
      assert t == w + t[8 * offset..];
      assert t[..8 * offset + 8] == t;
    }
  }

  /** The bytes d hold the bits s: packed to the right, or at the front with anything behind. */
  ghost predicate Takes(d: seq<Byte>, s: seq<bool>, alignBitsToRight: bool) {
    if alignBitsToRight then d == RightPacked(s) else |d| == BytesFor(|s|) && Flatten(d)[..|s|] == s
  }

  ghost predicate ByteTakes(b: Byte, s: seq<bool>, alignBitsToRight: bool)
    requires |s| <= 8
  {
    if alignBitsToRight then b == PackRight(s) else Unpack(b)[..|s|] == s
  }

  lemma NextTaken(d: seq<Byte>, s: seq<bool>, offset: nat, b: Byte, alignBitsToRight: bool)
    requires 8 * offset < |s| && Takes(d, s[..8 * offset], alignBitsToRight)
    requires var r := if |s| - 8 * offset >= 8 then 8 else |s| - 8 * offset;
             ByteTakes(b, s[8 * offset..8 * offset + r], alignBitsToRight)
    ensures var r := if |s| - 8 * offset >= 8 then 8 else |s| - 8 * offset;
            && Written(|s|, offset) == 8 * offset && Written(|s|, offset + 1) == 8 * offset + r
            && Takes(d + [b], s[..8 * offset + r], alignBitsToRight)
  {
    hide Flatten, Unpack, PackRight, RightPacked;
    NextRightPacked(s, offset);
    if !alignBitsToRight {
      var r := if |s| - 8 * offset >= 8 then 8 else |s| - 8 * offset;
      FlattenPush(d, b);
      assert s[..8 * offset + r] == s[..8 * offset] + s[8 * offset..8 * offset + r];
      assert (Flatten(d) + Unpack(b))[..8 * offset + r] == Flatten(d) + Unpack(b)[..r];
    }
  }

  lemma NothingTaken(alignBitsToRight: bool)
    ensures Takes([], [], alignBitsToRight)
  {
  }

  lemma WholePush(w: seq<bool>, u: seq<bool>)
    requires |w| % 8 == 0 && |u| == 8
    ensures PackBytes(w + u) == PackBytes(w) + [PackRight(u)]
  {
    hide Pack;
    assert (w + u)[..|w + u| - 8] == w && (w + u)[|w + u| - 8..] == u;
    assert Falses(0) + u == u;
  }

  /** The bit that the mask 0x80 >> (offset % 8) picks from its byte. */
  lemma BitOfBytes(d: seq<Byte>, offset: nat)
    requires offset < 8 * |d|
    ensures Bit(d[offset / 8], offset % 8) == Flatten(d)[offset]
  {
    hide Bit, Flatten;
    var q, m := offset / 8, offset % 8;
    FlattenAt(d, q);
    assert offset == 8 * q + m;
    assert Unpack(d[q])[m] == Flatten(d)[8 * q..8 * q + 8][m];
  }

  /** Left-aligned data is what the bytes hold, as far as it goes. */
  lemma LeftPayload(d: seq<Byte>, w: seq<bool>, n: nat, used: nat)
    requires Holds(d, w) && n <= |w| && (n == |w| || (used + n) % 8 == 0)
    ensures n <= 8 * |d| && Payload(d, n, false) == w[..n] && LeavesCleanTail(d, n, used)
  {
    hide Flatten, Unpack, Clean;
    var q, k := n / 8, n % 8;
    assert d == d[..q] + d[q..];
    FlattenAppend(d[..q], d[q..]);
    assert Flatten(d)[..8 * q] == Flatten(d[..q]) && Flatten(d)[..n] == w[..n];
    if k != 0 {
      FlattenAt(d, q);
      SliceOfSlice(Flatten(d), 8 * q, 8 * q + 8, 0, k);
      assert w[..n] == Flatten(d)[..8 * q] + Flatten(d)[8 * q..8 * q + k];
      LeftTail(d, w, n, used, q, k);
    }
  }

  lemma LeftTail(d: seq<Byte>, w: seq<bool>, n: nat, used: nat, q: nat, k: nat)
    requires Holds(d, w) && n <= |w| && (n == |w| || (used + n) % 8 == 0)
    requires n == 8 * q + k && 0 < k < 8 && q < |d|
    ensures Clean(d[q], k, used % 8)
  {
    hide Unpack, Flatten, Clean;
    if n == |w| {
      FlattenAt(d, q);
      SliceOfSlice(Flatten(d), 8 * q, 8 * q + 8, k, 8);
      assert Flatten(d)[n..8 * q + 8] == Falses(8 * |d| - n)[..8 - k] == Falses(8 - k);
      assert Unpack(d[q])[k..] == Unpack(d[q])[k..8];
    } else {
      assert used % 8 + k == 8;
    }
    CleanIf(d[q], k, used % 8);
  }
}

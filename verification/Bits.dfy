/** Bytes as sequences of eight bits, most significant first, and byte strings as bit strings. */
module Bits {
  type Byte = bv8

  /** b << k on an unsigned char, one place at a time: bits shifted out are lost. */
  function Shl(b: Byte, k: nat): Byte {
    if k == 0 then b else Shl(b, k - 1) << 1
  }

  function Shr(b: Byte, k: nat): Byte {
    if k == 0 then b else Shr(b, k - 1) >> 1
  }

  /** The bit at place i from the left, tested with the mask 0x80 >> i. */
  function Bit(b: Byte, i: nat): bool {
    b & Shr(0x80, i) != 0
  }

  function Unpack(b: Byte): (s: seq<bool>)
    ensures |s| == 8
  {
    seq(8, i requires 0 <= i => Bit(b, i))
  }

  function Falses(n: nat): (s: seq<bool>)
    ensures |s| == n && forall i :: 0 <= i < n ==> !s[i]
  {
    seq(n, _ => false)
  }

  /** The byte with the given bits, the first n of them taken so far. */
  function PackFirst(s: seq<bool>, n: nat): Byte
    requires n <= |s|
  {
    if n == 0 then 0
    else PackFirst(s, n - 1) | (if s[n - 1] then Shr(0x80, n - 1) else 0)
  }

  function Pack(s: seq<bool>): Byte
    requires |s| == 8
  {
    PackFirst(s, 8)
  }

  /** The masks are the eight powers of two, and 0 from place 8 on. */
  lemma Masks()
    ensures Shr(0x80, 0) == 0x80 && Shr(0x80, 1) == 0x40 && Shr(0x80, 2) == 0x20 && Shr(0x80, 3) == 0x10
    ensures Shr(0x80, 4) == 0x08 && Shr(0x80, 5) == 0x04 && Shr(0x80, 6) == 0x02 && Shr(0x80, 7) == 0x01
    ensures Shr(0x80, 8) == 0
  {
  }

  lemma MaskShl(b: Byte, m: Byte)
    ensures (b << 1) & m != 0 <==> b & (m >> 1) != 0
  {
  }

  lemma MaskShr(b: Byte, m: Byte)
    ensures (b >> 1) & m != 0 <==> b & (m << 1) != 0
  {
  }

  lemma MaskOr(a: Byte, b: Byte, m: Byte)
    ensures (a | b) & m != 0 <==> a & m != 0 || b & m != 0
  {
  }

  lemma MaskBack(i: nat)
    requires 1 <= i <= 7
    ensures Shr(0x80, i) << 1 == Shr(0x80, i - 1)
  {
    Masks();
  }

  lemma {:induction false} BitOr(a: Byte, b: Byte, i: nat)
    ensures Bit(a | b, i) == (Bit(a, i) || Bit(b, i))
  {
    hide *;
    var m := Shr(0x80, i);
    BitByMask(a, i);
    BitByMask(b, i);
    BitByMask(a | b, i);
    MaskOr(a, b, m);
  }

  lemma BitByMask(b: Byte, i: nat)
    ensures Bit(b, i) <==> b & Shr(0x80, i) != 0
  {
    hide Shr;
  }

  lemma BitShl(b: Byte, i: nat)
    ensures Bit(b << 1, i) == Bit(b, i + 1)
  {
    MaskShl(b, Shr(0x80, i));
  }

  lemma BitShr(b: Byte, i: nat)
    requires i <= 7
    ensures Bit(b >> 1, i) == (i > 0 && Bit(b, i - 1))
  {
    if i > 0 {
      MaskBack(i);
      MaskShr(b, Shr(0x80, i));
    }
  }

  lemma BitBeyond(b: Byte)
    ensures !Bit(b, 8)
  {
    Masks();
  }

  lemma {:induction false} UnpackShl(b: Byte, k: nat)
    requires k <= 8
    ensures Unpack(Shl(b, k)) == Unpack(b)[k..] + Falses(k)
  {
    hide Bit;
    if k > 0 {
      UnpackShl(b, k - 1);
      var c := Shl(b, k - 1);
      forall i | 0 <= i < 8
        ensures Unpack(Shl(b, k))[i] == (i < 7 && Unpack(c)[i + 1])
      {
        BitShl(c, i);
        BitBeyond(c);
      }
      MovedLeftByOne(Unpack(b), k, Unpack(c), Unpack(Shl(b, k)));
    }
  }

  lemma {:induction false} UnpackShr(b: Byte, k: nat)
    requires k <= 8
    ensures Unpack(Shr(b, k)) == Falses(k) + Unpack(b)[..8 - k]
  {
    hide Bit;
    if k > 0 {
      UnpackShr(b, k - 1);
      var c := Shr(b, k - 1);
      forall i | 0 <= i < 8
        ensures Unpack(Shr(b, k))[i] == (i > 0 && Unpack(c)[i - 1])
      {
        BitShr(c, i);
      }
      MovedRightByOne(Unpack(b), k, Unpack(c), Unpack(Shr(b, k)));
    }
  }

  lemma MovedRightByOne(s: seq<bool>, k: nat, t: seq<bool>, u: seq<bool>)
    requires |s| == |t| == |u| == 8 && 0 < k <= 8 && t == Falses(k - 1) + s[..9 - k]
    requires forall i :: 0 <= i < 8 ==> u[i] == (i > 0 && t[i - 1])
    ensures u == Falses(k) + s[..8 - k]
  {
    forall i | 0 <= i < 8
      ensures u[i] == (Falses(k) + s[..8 - k])[i]
    {
      assert i > 0 ==> t[i - 1] == (Falses(k - 1) + s[..9 - k])[i - 1];
    }
  }

  lemma MovedLeftByOne(s: seq<bool>, k: nat, t: seq<bool>, u: seq<bool>)
    requires |s| == |t| == |u| == 8 && 0 < k <= 8 && t == s[k - 1..] + Falses(k - 1)
    requires forall i :: 0 <= i < 8 ==> u[i] == (i < 7 && t[i + 1])
    ensures u == s[k..] + Falses(k)
  {
    forall i | 0 <= i < 8
      ensures u[i] == (s[k..] + Falses(k))[i]
    {
      assert i < 7 ==> t[i + 1] == (s[k - 1..] + Falses(k - 1))[i + 1];
    }
  }

  lemma SameBits(a: Byte, b: Byte)
    requires a & 0x80 == 0 <==> b & 0x80 == 0
    requires a & 0x40 == 0 <==> b & 0x40 == 0
    requires a & 0x20 == 0 <==> b & 0x20 == 0
    requires a & 0x10 == 0 <==> b & 0x10 == 0
    requires a & 0x08 == 0 <==> b & 0x08 == 0
    requires a & 0x04 == 0 <==> b & 0x04 == 0
    requires a & 0x02 == 0 <==> b & 0x02 == 0
    requires a & 0x01 == 0 <==> b & 0x01 == 0
    ensures a == b
  {
  }

  lemma UnpackInjective(a: Byte, b: Byte)
    requires Unpack(a) == Unpack(b)
    ensures a == b
  {
    Masks();
    hide Unpack, Shr;
    SameBit(a, b, 0);
    SameBit(a, b, 1);
    SameBit(a, b, 2);
    SameBit(a, b, 3);
    SameBit(a, b, 4);
    SameBit(a, b, 5);
    SameBit(a, b, 6);
    SameBit(a, b, 7);
    SameBits(a, b);
  }

  lemma SameBit(a: Byte, b: Byte, i: nat)
    requires i < 8 && Unpack(a) == Unpack(b)
    ensures a & Shr(0x80, i) == 0 <==> b & Shr(0x80, i) == 0
  {
    assert Unpack(a)[i] == Bit(a, i) && Unpack(b)[i] == Bit(b, i);
  }

  /** Masks of different places share no bit. */
  lemma MaskDistinct(i: nat, j: nat)
    requires i < 8 && j < 8
    ensures Bit(Shr(0x80, i), j) == (i == j)
  {
    Masks();
  }

  lemma {:induction false} BitPackFirst(s: seq<bool>, n: nat, i: nat)
    requires n <= |s| == 8 && i < 8
    ensures Bit(PackFirst(s, n), i) == (i < n && s[i])
  {
    hide Bit;
    if n == 0 {
      BitOfZero(i);
    } else {
      var m := if s[n - 1] then Shr(0x80, n - 1) else 0;
      BitPackFirst(s, n - 1, i);
      BitOr(PackFirst(s, n - 1), m, i);
      BitOfZero(i);
      MaskDistinct(n - 1, i);
    }
  }

  lemma BitOfZero(i: nat)
    ensures !Bit(0, i)
  {
  }

  lemma UnpackPack(s: seq<bool>)
    requires |s| == 8
    ensures Unpack(Pack(s)) == s
  {
    hide Bit;
    forall i | 0 <= i < 8
      ensures Unpack(Pack(s))[i] == s[i]
    {
      BitPackFirst(s, 8, i);
    }
  }

  lemma PackUnpack(b: Byte)
    ensures Pack(Unpack(b)) == b
  {
    hide Unpack, Pack;
    UnpackPack(Unpack(b));
    UnpackInjective(Pack(Unpack(b)), b);
  }

  /** Or-ing the high part of one byte with the low part of another splices their bits. */
  lemma UnpackSplice(a: Byte, b: Byte, k: nat)
    requires k <= 8
    requires Unpack(a)[k..] == Falses(8 - k) && Unpack(b)[..k] == Falses(k)
    ensures Unpack(a | b) == Unpack(a)[..k] + Unpack(b)[k..]
  {
    hide Bit;
    var s := Unpack(a)[..k] + Unpack(b)[k..];
    forall i | 0 <= i < 8
      ensures Unpack(a | b)[i] == s[i]
    {
      BitOr(a, b, i);
      if i < k {
        assert !Unpack(b)[..k][i];
      } else {
        assert !Unpack(a)[k..][i - k];
      }
    }
  }

  lemma SliceOfSlice(s: seq<bool>, a: nat, b: nat, c: nat, d: nat)
    requires a <= b <= |s| && c <= d <= b - a
    ensures s[a..b][c..d] == s[a + c..a + d]
  {
    forall i | 0 <= i < d - c
      ensures s[a..b][c..d][i] == s[a + c..a + d][i]
    {
    }
  }

  lemma ConcatAssociates(s: seq<bool>, t: seq<bool>, u: seq<bool>)
    ensures s + (t + u) == s + t + u
  {
  }

  function Flatten(d: seq<Byte>): (s: seq<bool>)
    ensures |s| == 8 * |d|
  {
    if d == [] then [] else Flatten(d[..|d| - 1]) + Unpack(d[|d| - 1])
  }

  lemma FlattenPush(d: seq<Byte>, b: Byte)
    ensures Flatten(d + [b]) == Flatten(d) + Unpack(b)
  {
    assert (d + [b])[..|d|] == d;
  }

  lemma {:induction false} FlattenAppend(d: seq<Byte>, e: seq<Byte>)
    ensures Flatten(d + e) == Flatten(d) + Flatten(e)
    decreases |e|
  {
    hide Unpack;
    if e == [] {
      assert d + e == d;
    } else {
      var m := |e| - 1;
      assert d + e == (d + e[..m]) + [e[m]];
      FlattenPush(d + e[..m], e[m]);
      FlattenAppend(d, e[..m]);
    }
  }

  lemma {:induction false} FlattenInjective(d: seq<Byte>, e: seq<Byte>)
    requires Flatten(d) == Flatten(e)
    ensures d == e
  {
    hide Unpack;
    if d != [] {
      var m := |d| - 1;
      assert Flatten(d[..m]) == Flatten(d)[..8 * m] == Flatten(e)[..8 * m] == Flatten(e[..m]);
      assert Unpack(d[m]) == Flatten(d)[8 * m..] == Flatten(e)[8 * m..] == Unpack(e[m]);
      FlattenInjective(d[..m], e[..m]);
      UnpackInjective(d[m], e[m]);
      assert d == d[..m] + [d[m]] && e == e[..m] + [e[m]];
    }
  }

  /** Eight bits of a flattened byte string are those of one byte. */
  lemma FlattenAt(d: seq<Byte>, k: nat)
    requires k < |d|
    ensures Flatten(d)[8 * k..8 * k + 8] == Unpack(d[k])
  {
    hide *;
    var e := [d[k]] + d[k + 1..];
    assert d == d[..k] + e;
    FlattenAppend(d[..k], e);
    FlattenCons(d[k], d[k + 1..]);
  }

  lemma FlattenCons(b: Byte, d: seq<Byte>)
    ensures Flatten([b] + d) == Unpack(b) + Flatten(d)
  {
    hide Unpack;
    FlattenAppend([b], d);
    FlattenPush([], b);
    assert [] + [b] == [b];
  }

  /** The bytes a bit string of whole bytes packs into. */
  function PackBytes(s: seq<bool>): (d: seq<Byte>)
    requires |s| % 8 == 0
    ensures 8 * |d| == |s|
  {
    if s == [] then [] else PackBytes(s[..|s| - 8]) + [Pack(s[|s| - 8..])]
  }

  lemma {:induction false} FlattenPackBytes(s: seq<bool>)
    requires |s| % 8 == 0
    ensures Flatten(PackBytes(s)) == s
  {
    hide Unpack, Pack;
    if s != [] {
      var m := |s| - 8;
      FlattenPackBytes(s[..m]);
      UnpackPack(s[m..]);
      FlattenPush(PackBytes(s[..m]), Pack(s[m..]));
      assert s == s[..m] + s[m..];
    }
  }
}

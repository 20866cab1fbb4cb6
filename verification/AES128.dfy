/**
 * The block cipher on 16 bytes in four rows of four, with the rounds of
 * sections 5.1 and 5.3 of FIPS 197, and that deciphering undoes ciphering for
 * every key schedule.
 */
module AES {
  import opened Bits
  import opened AESTables

  type Block = m: seq<Byte> | |m| == 16 witness seq(16, _ => 0)

  // ----- the transformations of a block

  /** The byte of a mixed column, from the column's bytes beginning with its own row. */
  function Mixed(a: Byte, b: Byte, c: Byte, d: Byte): Byte {
    GF2M(2, a) ^ GF2M(3, b) ^ c ^ d
  }

  function Unmixed(a: Byte, b: Byte, c: Byte, d: Byte): Byte {
    GF2M(0xe, a) ^ GF2M(0xb, b) ^ GF2M(0xd, c) ^ GF2M(0x9, d)
  }

  function AddedKey(m: Block, k: Block): Block {
    seq(16, i requires 0 <= i < 16 => m[i] ^ k[i])
  }

  function Substituted(m: Block): Block {
    seq(16, i requires 0 <= i < 16 => S(m[i]))
  }

  function Unsubstituted(m: Block): Block {
    seq(16, i requires 0 <= i < 16 => Si(m[i]))
  }

  /** A row moved n places to the left. */
  function Turned(w: seq<Byte>, n: nat): (r: seq<Byte>)
    requires n <= |w|
    ensures |r| == |w|
  {
    w[n..] + w[..n]
  }

  /** Row r moves r places to the left. */
  function Shifted(m: Block): Block {
    m[..4] + Turned(m[4..8], 1) + Turned(m[8..12], 2) + Turned(m[12..], 3)
  }

  /** Row r moves r places to the right. */
  function Unshifted(m: Block): Block {
    m[..4] + Turned(m[4..8], 3) + Turned(m[8..12], 2) + Turned(m[12..], 1)
  }

  /** Each byte from its column, beginning with its own row. */
  function MixedByte(m: Block, r: nat, c: nat): Byte
    requires r < 4 && c < 4
  {
    Mixed(m[4 * r + c], m[4 * ((r + 1) % 4) + c], m[4 * ((r + 2) % 4) + c], m[4 * ((r + 3) % 4) + c])
  }

  function UnmixedByte(m: Block, r: nat, c: nat): Byte
    requires r < 4 && c < 4
  {
    Unmixed(m[4 * r + c], m[4 * ((r + 1) % 4) + c], m[4 * ((r + 2) % 4) + c], m[4 * ((r + 3) % 4) + c])
  }

  function MixedColumns(m: Block): Block {
    seq(16, i requires 0 <= i < 16 => MixedByte(m, i / 4, i % 4))
  }

  function UnmixedColumns(m: Block): Block {
    seq(16, i requires 0 <= i < 16 => UnmixedByte(m, i / 4, i % 4))
  }

  // ----- their inverses

  lemma AddKeyTwice(m: Block, k: Block)
    ensures AddedKey(AddedKey(m, k), k) == m
  {
    forall i | 0 <= i < 16
      ensures AddedKey(AddedKey(m, k), k)[i] == m[i]
    {
      XorTwice(m[i], k[i]);
    }
  }

  lemma XorTwice(a: Byte, b: Byte)
    ensures (a ^ b) ^ b == a
  {
  }

  lemma SubstituteBack(m: Block)
    ensures Unsubstituted(Substituted(m)) == m
  {
    hide S, Si;
    forall i | 0 <= i < 16
      ensures Unsubstituted(Substituted(m))[i] == m[i]
    {
      SubstitutionInverse(m[i]);
    }
  }

  lemma TurnedBack(w: seq<Byte>, n: nat)
    requires n <= |w|
    ensures Turned(Turned(w, n), |w| - n) == w
  {
  }

  lemma ShiftBack(m: Block)
    ensures Unshifted(Shifted(m)) == m
  {
    hide Turned;
    var n := Shifted(m);
    assert n[..4] == m[..4] && n[4..8] == Turned(m[4..8], 1) && n[8..12] == Turned(m[8..12], 2);
    assert n[12..] == Turned(m[12..], 3);
    TurnedBack(m[4..8], 1);
    TurnedBack(m[8..12], 2);
    TurnedBack(m[12..], 3);
  }

  /** Where the byte at place i comes from when rows are shifted. */
  function ShiftedFrom(i: nat): (j: nat)
    requires i < 16
    ensures j < 16
  {
    4 * (i / 4) + (i % 4 + i / 4) % 4
  }

  lemma ShiftedAt(m: Block, i: nat)
    requires i < 16
    ensures Shifted(m)[i] == m[ShiftedFrom(i)]
  {
    if i < 8 {
      assert i < 4 ==> ShiftedFrom(i) == i;
      assert 4 <= i < 7 ==> ShiftedFrom(i) == i + 1;
      assert i == 7 ==> ShiftedFrom(i) == 4;
    } else {
      assert 8 <= i < 10 ==> ShiftedFrom(i) == i + 2;
      assert 10 <= i < 12 ==> ShiftedFrom(i) == i - 2;
      assert i == 12 ==> ShiftedFrom(i) == 15;
      assert 13 <= i ==> ShiftedFrom(i) == i - 1;
    }
  }

  /** Substituting does not care where a byte is. */
  lemma SubstituteShifted(m: Block)
    ensures Unsubstituted(Shifted(m)) == Shifted(Unsubstituted(m))
  {
    hide Si, Shifted, ShiftedFrom;
    forall i | 0 <= i < 16
      ensures Unsubstituted(Shifted(m))[i] == Shifted(Unsubstituted(m))[i]
    {
      ShiftedAt(m, i);
      ShiftedAt(Unsubstituted(m), i);
    }
  }

  function Quad(a: Byte, b: Byte, c: Byte, d: Byte): Byte {
    Plus(Plus(a, b), Plus(c, d))
  }

  lemma QuadRotates(a: Byte, b: Byte, c: Byte, d: Byte)
    ensures Quad(b, c, d, a) == Quad(a, b, c, d)
  {
    PlusCommutes(d, a);
    PlusSwap(b, c, a, d);
    PlusCommutes(b, a);
    hide Plus;
    PlusSwap(a, b, c, d);
    PlusCommutes(a, c);
    PlusSwap(a, c, b, d);
  }

  lemma QuadAdds(a: Byte, b: Byte, c: Byte, d: Byte, e: Byte, f: Byte, g: Byte, h: Byte)
    ensures Plus(Quad(a, b, c, d), Quad(e, f, g, h)) == Quad(Plus(a, e), Plus(b, f), Plus(c, g), Plus(d, h))
  {
    hide Plus;
    PlusSwap(Plus(a, b), Plus(c, d), Plus(e, f), Plus(g, h));
    PlusSwap(a, b, e, f);
    PlusSwap(c, d, g, h);
  }

  lemma QuadTransposes(a0: Byte, b0: Byte, c0: Byte, d0: Byte, a1: Byte, b1: Byte, c1: Byte, d1: Byte,
                       a2: Byte, b2: Byte, c2: Byte, d2: Byte, a3: Byte, b3: Byte, c3: Byte, d3: Byte)
    ensures Quad(Quad(a0, b0, c0, d0), Quad(a1, b1, c1, d1), Quad(a2, b2, c2, d2), Quad(a3, b3, c3, d3))
         == Quad(Quad(a0, a1, a2, a3), Quad(b0, b1, b2, b3), Quad(c0, c1, c2, c3), Quad(d0, d1, d2, d3))
  {
    hide Plus;
    QuadAdds(a0, b0, c0, d0, a1, b1, c1, d1);
    QuadAdds(a2, b2, c2, d2, a3, b3, c3, d3);
    QuadAdds(Plus(a0, a1), Plus(b0, b1),
             Plus(c0, c1), Plus(d0, d1), Plus(a2, a3), Plus(b2, b3), Plus(c2, c3), Plus(d2, d3));
  }

  lemma MulQuad(k: Byte, a: Byte, b: Byte, c: Byte, d: Byte)
    ensures Mul(k, Quad(a, b, c, d)) == Quad(Mul(k, a), Mul(k, b), Mul(k, c), Mul(k, d))
  {
    hide Plus, Mul;
    MulAdds(k, Plus(a, b), Plus(c, d));
    MulAdds(k, a, b);
    MulAdds(k, c, d);
  }

  lemma QuadOfOne(a: Byte)
    ensures Quad(a, 0, 0, 0) == a
  {
  }

  lemma PicksOfSmall(k: Byte, b4: Byte, b5: Byte, b6: Byte, b7: Byte)
    requires k < 16
    ensures Pick(k, 16, b4) == 0 && Pick(k, 32, b5) == 0 && Pick(k, 64, b6) == 0 && Pick(k, 128, b7) == 0
  {
  }

  lemma SumOfFour(a: Byte, b: Byte, c: Byte, d: Byte)
    ensures Sum(a, b, c, d, 0, 0, 0, 0) == Quad(a, b, c, d)
  {
    PlusZero(0);
    PlusZero(Plus(Plus(a, b), Plus(c, d)));
    hide Plus;
  }

  /** The product with a constant of four bits. */
  lemma SmallProduct(k: Byte, p: Byte)
    requires k < 16
    ensures var q := Double(p);
            var r := Double(q);
            Mul(k, p) == Quad(Pick(k, 1, p), Pick(k, 2, q), Pick(k, 4, r), Pick(k, 8, Double(r)))
  {
    hide Double, Pick, Quad, Sum;
    var q := Double(p);
    var r := Double(q);
    var s := Double(r);
    var t := Double(s);
    var u := Double(t);
    var v := Double(u);
    PicksOfSmall(k, t, u, v, Double(v));
    SumOfFour(Pick(k, 1, p), Pick(k, 2, q), Pick(k, 4, r), Pick(k, 8, s));
  }

  lemma PicksOfConstants(p: Byte, q: Byte, r: Byte, s: Byte)
    ensures Pick(2, 1, p) == 0 && Pick(2, 2, q) == q && Pick(2, 4, r) == 0 && Pick(2, 8, s) == 0
    ensures Pick(3, 1, p) == p && Pick(3, 2, q) == q && Pick(3, 4, r) == 0 && Pick(3, 8, s) == 0
    ensures Pick(0x9, 1, p) == p && Pick(0x9, 2, q) == 0 && Pick(0x9, 4, r) == 0 && Pick(0x9, 8, s) == s
    ensures Pick(0xb, 1, p) == p && Pick(0xb, 2, q) == q && Pick(0xb, 4, r) == 0 && Pick(0xb, 8, s) == s
    ensures Pick(0xd, 1, p) == p && Pick(0xd, 2, q) == 0 && Pick(0xd, 4, r) == r && Pick(0xd, 8, s) == s
    ensures Pick(0xe, 1, p) == 0 && Pick(0xe, 2, q) == q && Pick(0xe, 4, r) == r && Pick(0xe, 8, s) == s
  {
  }

  lemma PlusZeros(a: Byte)
    ensures Plus(0, a) == a && Plus(a, 0) == a && Plus(a, a) == 0 && Plus(0, 0) == 0
  {
    PlusZero(a);
    PlusZero(0);
  }

  /** Sums of a few of the bytes p, 2p, 4p, 8p and 16p. */
  function Five(a: Byte, b: Byte, c: Byte, d: Byte, e: Byte): Byte {
    Plus(Quad(a, b, c, d), e)
  }

  lemma FiveOfLow(a: Byte, b: Byte, c: Byte, d: Byte)
    ensures Quad(a, b, c, d) == Five(a, b, c, d, 0)
  {
    PlusZeros(Quad(a, b, c, d));
    hide Plus, Quad;
  }

  lemma FiveOfHigh(a: Byte, b: Byte, c: Byte, d: Byte)
    ensures Quad(a, b, c, d) == Five(0, a, b, c, d)
  {
    PlusZeros(a);
    PlusAssociates(a, b, c);
    PlusAssociates(Plus(a, b), c, d);
    hide Plus;
  }

  lemma FiveAdds(a: Byte, b: Byte, c: Byte, d: Byte, e: Byte, f: Byte, g: Byte, h: Byte, i: Byte, j: Byte)
    ensures Plus(Five(a, b, c, d, e), Five(f, g, h, i, j))
         == Five(Plus(a, f), Plus(b, g), Plus(c, h), Plus(d, i), Plus(e, j))
  {
    QuadAdds(a, b, c, d, f, g, h, i);
    PlusSwap(Quad(a, b, c, d), e, Quad(f, g, h, i), j);
    hide Plus, Quad;
  }

  lemma QuadOfFives(a0: Byte, b0: Byte, c0: Byte, d0: Byte, e0: Byte, a1: Byte, b1: Byte, c1: Byte, d1: Byte, e1: Byte,
                    a2: Byte, b2: Byte, c2: Byte, d2: Byte, e2: Byte, a3: Byte, b3: Byte, c3: Byte, d3: Byte, e3: Byte)
    ensures Quad(Five(a0, b0, c0, d0, e0), Five(a1, b1, c1, d1, e1), Five(a2, b2, c2, d2, e2), Five(a3, b3, c3, d3, e3))
         == Five(Quad(a0, a1, a2, a3), Quad(b0, b1, b2, b3), Quad(c0, c1, c2, c3),
                  Quad(d0, d1, d2, d3), Quad(e0, e1, e2, e3))
  {
    FiveAdds(a0, b0, c0, d0, e0, a1, b1, c1, d1, e1);
    FiveAdds(a2, b2, c2, d2, e2, a3, b3, c3, d3, e3);
    FiveAdds(Plus(a0, a1), Plus(b0, b1), Plus(c0, c1), Plus(d0, d1), Plus(e0, e1),
             Plus(a2, a3), Plus(b2, b3), Plus(c2, c3), Plus(d2, d3), Plus(e2, e3));
    hide Plus, Five;
  }

  /** A byte taken an even number of times is 0. */
  lemma QuadCancels(a: Byte)
    ensures Quad(0, a, a, a) == a && Quad(a, a, a, a) == 0
    ensures Quad(a, a, 0, 0) == 0 && Quad(a, 0, a, 0) == 0 && Quad(a, 0, 0, a) == 0
    ensures Quad(0, a, a, 0) == 0 && Quad(0, a, 0, a) == 0 && Quad(0, 0, a, a) == 0
    ensures Quad(0, a, 0, 0) == a && Quad(0, 0, 0, 0) == 0
  {
    PlusZeros(a);
    hide Plus;
  }

  /** The products of p and 2p with the constants of the cipher, in terms of p, 2p, 4p, 8p and 16p. */
  ghost predicate Products(x: Byte, q: Byte, r: Byte, s: Byte, t: Byte) {
    && Mul(2, x) == q && Mul(3, x) == Plus(x, q)
    && Mul(0x9, x) == Five(x, 0, 0, s, 0) && Mul(0x9, q) == Five(0, q, 0, 0, t)
    && Mul(0xb, x) == Five(x, q, 0, s, 0) && Mul(0xb, q) == Five(0, q, r, 0, t)
    && Mul(0xd, x) == Five(x, 0, r, s, 0) && Mul(0xd, q) == Five(0, q, 0, s, t)
    && Mul(0xe, x) == Five(0, q, r, s, 0) && Mul(0xe, q) == Five(0, 0, r, s, t)
  }

  lemma ProductsAre(x: Byte)
    ensures var q := Double(x);
            var r := Double(q);
            var s := Double(r);
            Products(x, q, r, s, Double(s))
  {
    hide Double, Quad, Mul, Plus, Five;
    var q := Double(x);
    var r := Double(q);
    var s := Double(r);
    var t := Double(s);
    PicksOfConstants(x, q, r, s);
    PicksOfConstants(q, r, s, t);
    hide Pick;
    SmallProduct(2, x);
    SmallProduct(3, x);
    SmallProduct(0x9, x);
    SmallProduct(0xb, x);
    SmallProduct(0xd, x);
    SmallProduct(0xe, x);
    SmallProduct(0x9, q);
    SmallProduct(0xb, q);
    SmallProduct(0xd, q);
    SmallProduct(0xe, q);
    QuadCancels(q);
    QuadOfTwo(x, q);
    FiveOfLow(x, 0, 0, s);
    FiveOfLow(x, q, 0, s);
    FiveOfLow(x, 0, r, s);
    FiveOfLow(0, q, r, s);
    FiveOfHigh(q, 0, 0, t);
    FiveOfHigh(q, r, 0, t);
    FiveOfHigh(q, 0, s, t);
    FiveOfHigh(0, r, s, t);
  }

  lemma QuadOfTwo(a: Byte, b: Byte)
    ensures Quad(a, b, 0, 0) == Plus(a, b)
  {
    PlusZeros(Plus(a, b));
    hide Plus;
  }

  /** The products with 3 are sums of those. */
  lemma ProductsOfThree(x: Byte, q: Byte, r: Byte, s: Byte, t: Byte)
    requires Products(x, q, r, s, t)
    ensures Mul(0x9, Mul(3, x)) == Five(x, q, 0, s, t) && Mul(0xb, Mul(3, x)) == Five(x, 0, r, s, t)
    ensures Mul(0xd, Mul(3, x)) == Five(x, q, r, 0, t) && Mul(0xe, Mul(3, x)) == Five(0, q, 0, 0, t)
  {
    hide Mul, Plus, Five;
    MulAdds(0x9, x, q);
    MulAdds(0xb, x, q);
    MulAdds(0xd, x, q);
    MulAdds(0xe, x, q);
    FiveAdds(x, 0, 0, s, 0, 0, q, 0, 0, t);
    FiveAdds(x, q, 0, s, 0, 0, q, r, 0, t);
    FiveAdds(x, 0, r, s, 0, 0, q, 0, s, t);
    FiveAdds(0, q, r, s, 0, 0, 0, r, s, t);
    PlusZeros(x);
    PlusZeros(q);
    PlusZeros(r);
    PlusZeros(s);
    PlusZeros(t);
  }

  /** The product of the two matrices is the unit matrix: its first row. */
  lemma MatrixRow(x: Byte)
    ensures Quad(Mul(0xe, Mul(2, x)), Mul(0xb, x), Mul(0xd, x), Mul(0x9, Mul(3, x))) == x
    ensures Quad(Mul(0xe, Mul(3, x)), Mul(0xb, Mul(2, x)), Mul(0xd, x), Mul(0x9, x)) == 0
    ensures Quad(Mul(0xe, x), Mul(0xb, Mul(3, x)), Mul(0xd, Mul(2, x)), Mul(0x9, x)) == 0
    ensures Quad(Mul(0xe, x), Mul(0xb, x), Mul(0xd, Mul(3, x)), Mul(0x9, Mul(2, x))) == 0
  {
    hide Mul, Double, Quad, Five;
    var q := Double(x);
    var r := Double(q);
    var s := Double(r);
    var t := Double(s);
    ProductsAre(x);
    ProductsOfThree(x, q, r, s, t);
    QuadCancels(x);
    QuadCancels(q);
    QuadCancels(r);
    QuadCancels(s);
    QuadCancels(t);
    FiveOfLow(x, 0, 0, 0);
    FiveOfLow(0, 0, 0, 0);
    QuadOfOne(x);
    QuadOfOne(0);
    QuadOfFives(0, 0, r, s, t, x, q, 0, s, 0, x, 0, r, s, 0, x, q, 0, s, t);
    QuadOfFives(0, q, 0, 0, t, 0, q, r, 0, t, x, 0, r, s, 0, x, 0, 0, s, 0);
    QuadOfFives(0, q, r, s, 0, x, 0, r, s, t, 0, q, 0, s, t, x, 0, 0, s, 0);
    QuadOfFives(0, q, r, s, 0, x, q, 0, s, 0, x, q, r, 0, t, 0, q, 0, 0, t);
  }

  lemma MixedIs(a: Byte, b: Byte, c: Byte, d: Byte)
    ensures Mixed(a, b, c, d) == Quad(Mul(2, a), Mul(3, b), c, d)
    ensures Unmixed(a, b, c, d) == Quad(Mul(0xe, a), Mul(0xb, b), Mul(0xd, c), Mul(0x9, d))
  {
    hide GF2M, Mul;
    TablesMultiply(2, a);
    TablesMultiply(3, b);
    TablesMultiply(0xe, a);
    TablesMultiply(0xb, b);
    TablesMultiply(0xd, c);
    TablesMultiply(0x9, d);
    XorQuad(Mul(2, a), Mul(3, b), c, d);
    XorQuad(Mul(0xe, a), Mul(0xb, b), Mul(0xd, c), Mul(0x9, d));
    hide Quad;
  }

  lemma XorQuad(a: Byte, b: Byte, c: Byte, d: Byte)
    ensures a ^ b ^ c ^ d == Quad(a, b, c, d)
  {
    assert a ^ b ^ c ^ d == (a ^ b) ^ (c ^ d);
  }

  /** Unmixing a mixed column gives back the byte of its first row. */
  lemma ColumnBack(a: Byte, b: Byte, c: Byte, d: Byte)
    ensures Unmixed(Mixed(a, b, c, d), Mixed(b, c, d, a), Mixed(c, d, a, b), Mixed(d, a, b, c)) == a
  {
    hide *;
    MixedIs(a, b, c, d);
    MixedIs(b, c, d, a);
    MixedIs(c, d, a, b);
    MixedIs(d, a, b, c);
    var a2, b2, c2, d2 := Mul(2, a), Mul(2, b), Mul(2, c), Mul(2, d);
    var a3, b3, c3, d3 := Mul(3, a), Mul(3, b), Mul(3, c), Mul(3, d);
    QuadRotates(a, b2, c3, d);
    QuadRotates(b, c2, d3, a);
    QuadRotates(a, b, c2, d3);
    QuadRotates(d2, a3, b, c);
    MixedIs(Mixed(a, b, c, d), Mixed(b, c, d, a), Mixed(c, d, a, b), Mixed(d, a, b, c));
    MulQuad(0xe, a2, b3, c, d);
    MulQuad(0xb, a, b2, c3, d);
    MulQuad(0xd, a, b, c2, d3);
    MulQuad(0x9, a3, b, c, d2);
    QuadTransposes(Mul(0xe, a2), Mul(0xe, b3), Mul(0xe, c), Mul(0xe, d),
                   Mul(0xb, a), Mul(0xb, b2), Mul(0xb, c3), Mul(0xb, d),
                   Mul(0xd, a), Mul(0xd, b), Mul(0xd, c2), Mul(0xd, d3),
                   Mul(0x9, a3), Mul(0x9, b), Mul(0x9, c), Mul(0x9, d2));
    MatrixRow(a);
    MatrixRow(b);
    MatrixRow(c);
    MatrixRow(d);
    QuadOfOne(a);
  }

  lemma MixedAt(m: Block, c: nat, r: nat, r1: nat, r2: nat, r3: nat)
    requires r < 4 && c < 4 && r1 == (r + 1) % 4 && r2 == (r + 2) % 4 && r3 == (r + 3) % 4
    ensures MixedColumns(m)[4 * r + c] == Mixed(m[4 * r + c], m[4 * r1 + c], m[4 * r2 + c], m[4 * r3 + c])
    ensures UnmixedColumns(m)[4 * r + c] == Unmixed(m[4 * r + c], m[4 * r1 + c], m[4 * r2 + c], m[4 * r3 + c])
  {
    hide Mixed, Unmixed;
    PlaceOf(r, c);
    ColumnsAt(m, 4 * r + c);
    hide MixedColumns, UnmixedColumns;
  }

  lemma PlaceOf(r: nat, c: nat)
    requires r < 4 && c < 4
    ensures (4 * r + c) / 4 == r && (4 * r + c) % 4 == c
  {
  }

  lemma ColumnsAt(m: Block, i: nat)
    requires i < 16
    ensures MixedColumns(m)[i] == MixedByte(m, i / 4, i % 4) && UnmixedColumns(m)[i] == UnmixedByte(m, i / 4, i % 4)
  {
    hide MixedByte, UnmixedByte;
  }

  /** Going around the four rows. */
  lemma NextRows(r: nat)
    requires r < 4
    ensures var r1, r2, r3 := (r + 1) % 4, (r + 2) % 4, (r + 3) % 4;
            && r1 < 4 && r2 < 4 && r3 < 4
            && (r1 + 1) % 4 == r2 && (r1 + 2) % 4 == r3 && (r1 + 3) % 4 == r
            && (r2 + 1) % 4 == r3 && (r2 + 2) % 4 == r && (r2 + 3) % 4 == r1
            && (r3 + 1) % 4 == r && (r3 + 2) % 4 == r1 && (r3 + 3) % 4 == r2
  {
  }

  lemma MixBackAt(m: Block, r: nat, c: nat)
    requires r < 4 && c < 4
    ensures UnmixedColumns(MixedColumns(m))[4 * r + c] == m[4 * r + c]
  {
    hide *;
    NextRows(r);
    var r1, r2, r3 := (r + 1) % 4, (r + 2) % 4, (r + 3) % 4;
    MixedAt(m, c, r, r1, r2, r3);
    MixedAt(m, c, r1, r2, r3, r);
    MixedAt(m, c, r2, r3, r, r1);
    MixedAt(m, c, r3, r, r1, r2);
    MixedAt(MixedColumns(m), c, r, r1, r2, r3);
    ColumnBack(m[4 * r + c], m[4 * r1 + c], m[4 * r2 + c], m[4 * r3 + c]);
  }

  lemma MixBack(m: Block)
    ensures UnmixedColumns(MixedColumns(m)) == m
  {
    hide MixedColumns, UnmixedColumns;
    forall i | 0 <= i < 16
      ensures UnmixedColumns(MixedColumns(m))[i] == m[i]
    {
      MixBackAt(m, i / 4, i % 4);
    }
  }

  // ----- the cipher

  /** Round key r of a schedule of eleven. */
  function KeyAt(schedule: seq<Byte>, r: nat): Block
    requires |schedule| == 176 && r < 11
  {
    schedule[16 * r..16 * r + 16]
  }

  function Round(m: Block, schedule: seq<Byte>, r: nat): Block
    requires |schedule| == 176 && r < 11
  {
    AddedKey(MixedColumns(Shifted(Substituted(m))), KeyAt(schedule, r))
  }

  /** The block after the first n rounds. */
  function Rounds(m: Block, schedule: seq<Byte>, n: nat): Block
    requires |schedule| == 176 && n < 10
  {
    if n == 0 then AddedKey(m, KeyAt(schedule, 0)) else Round(Rounds(m, schedule, n - 1), schedule, n)
  }

  function Encrypted(m: Block, schedule: seq<Byte>): Block
    requires |schedule| == 176
  {
    AddedKey(Shifted(Substituted(Rounds(m, schedule, 9))), KeyAt(schedule, 10))
  }

  function RoundBack(m: Block, schedule: seq<Byte>, r: nat): Block
    requires |schedule| == 176 && r < 11
  {
    Unshifted(Unsubstituted(UnmixedColumns(AddedKey(m, KeyAt(schedule, r)))))
  }

  /** The rounds from n down to 1 taken back. */
  function RoundsBack(m: Block, schedule: seq<Byte>, n: nat): Block
    requires |schedule| == 176 && n < 10
    decreases n
  {
    if n == 0 then m else RoundsBack(RoundBack(m, schedule, n), schedule, n - 1)
  }

  function Decrypted(m: Block, schedule: seq<Byte>): Block
    requires |schedule| == 176
  {
    var last := Unshifted(Unsubstituted(AddedKey(m, KeyAt(schedule, 10))));
    AddedKey(RoundsBack(last, schedule, 9), KeyAt(schedule, 0))
  }

  /** Unsubstituting and unshifting takes back substituting and shifting, in spite of the order. */
  lemma LayerBack(m: Block)
    ensures Unshifted(Unsubstituted(Shifted(Substituted(m)))) == m
  {
    hide *;
    SubstituteShifted(Substituted(m));
    SubstituteBack(m);
    ShiftBack(m);
  }

  lemma {:induction false} RoundsTakenBack(m: Block, schedule: seq<Byte>, n: nat)
    requires |schedule| == 176 && n < 10
    ensures RoundsBack(Rounds(m, schedule, n), schedule, n) == AddedKey(m, KeyAt(schedule, 0))
    decreases n
  {
    hide AddedKey, Substituted, Unsubstituted, Shifted, Unshifted, MixedColumns, UnmixedColumns, KeyAt;
    if n > 0 {
      var before := Rounds(m, schedule, n - 1);
      var mixed := MixedColumns(Shifted(Substituted(before)));
      AddKeyTwice(mixed, KeyAt(schedule, n));
      MixBack(Shifted(Substituted(before)));
      LayerBack(before);
      RoundsTakenBack(m, schedule, n - 1);
    }
  }

  /** Deciphering undoes ciphering, whatever the key schedule. */
  lemma DecryptEncrypt(m: Block, schedule: seq<Byte>)
    requires |schedule| == 176
    ensures Decrypted(Encrypted(m, schedule), schedule) == m
  {
    hide AddedKey, Substituted, Unsubstituted, Shifted, Unshifted, Rounds, RoundsBack, KeyAt;
    var inner := Rounds(m, schedule, 9);
    AddKeyTwice(Shifted(Substituted(inner)), KeyAt(schedule, 10));
    LayerBack(inner);
    RoundsTakenBack(m, schedule, 9);
    AddKeyTwice(m, KeyAt(schedule, 0));
  }

  // ----- what the schedule is for

  lemma AddedInjective(m: Block, n: Block, k: Block, l: Block)
    ensures k == l && m != n ==> AddedKey(m, k) != AddedKey(n, l)
    ensures m == n && k != l ==> AddedKey(m, k) != AddedKey(n, l)
  {
    AddKeyTwice(m, k);
    AddKeyTwice(n, l);
    AddKeyTwice(k, m);
    AddKeyTwice(l, n);
    AddCommutes(m, k);
    AddCommutes(n, l);
    hide AddedKey;
  }

  lemma AddCommutes(m: Block, k: Block)
    ensures AddedKey(m, k) == AddedKey(k, m)
  {
    forall i | 0 <= i < 16
      ensures AddedKey(m, k)[i] == AddedKey(k, m)[i]
    {
      XorCommutes(m[i], k[i]);
    }
  }

  lemma XorCommutes(a: Byte, b: Byte)
    ensures a ^ b == b ^ a
  {
  }

  lemma LayerInjective(m: Block, n: Block)
    requires m != n
    ensures Shifted(Substituted(m)) != Shifted(Substituted(n))
  {
    hide *;
    LayerBack(m);
    LayerBack(n);
  }

  lemma RoundInjective(m: Block, n: Block)
    requires m != n
    ensures MixedColumns(Shifted(Substituted(m))) != MixedColumns(Shifted(Substituted(n)))
  {
    hide *;
    LayerInjective(m, n);
    MixBack(Shifted(Substituted(m)));
    MixBack(Shifted(Substituted(n)));
  }

  /** Schedules that differ in the key of just one round lead to different blocks after that round. */
  lemma {:induction false} RoundsDiffer(m: Block, s: seq<Byte>, t: seq<Byte>, r: nat, n: nat)
    requires |s| == |t| == 176 && n < 10
    requires forall j: nat :: j <= n && j != r ==> KeyAt(s, j) == KeyAt(t, j)
    requires r <= n ==> KeyAt(s, r) != KeyAt(t, r)
    ensures Rounds(m, s, n) == Rounds(m, t, n) <==> n < r
  {
    hide AddedKey, MixedColumns, Shifted, Substituted, KeyAt;
    if n == 0 {
      AddedInjective(m, m, KeyAt(s, 0), KeyAt(t, 0));
    } else {
      RoundsDiffer(m, s, t, r, n - 1);
      var a, b := Rounds(m, s, n - 1), Rounds(m, t, n - 1);
      if a != b {
        RoundInjective(a, b);
      }
      AddedInjective(MixedColumns(Shifted(Substituted(a))), MixedColumns(Shifted(Substituted(b))),
                     KeyAt(s, n), KeyAt(t, n));
    }
  }

  /** Every round key matters: schedules that differ inside just one of them cipher every block differently. */
  lemma EveryRoundKeyCounts(m: Block, s: seq<Byte>, t: seq<Byte>, r: nat)
    requires |s| == |t| == 176 && r < 11 && s != t
    requires forall i :: 0 <= i < 176 && i / 16 != r ==> s[i] == t[i]
    ensures Encrypted(m, s) != Encrypted(m, t)
  {
    KeysDiffer(s, t, r);
    hide AddedKey, MixedColumns, Shifted, Substituted, KeyAt, Rounds;
    RoundsDiffer(m, s, t, r, 9);
    var a, b := Rounds(m, s, 9), Rounds(m, t, 9);
    if a != b {
      LayerInjective(a, b);
    }
    AddedInjective(Shifted(Substituted(a)), Shifted(Substituted(b)), KeyAt(s, 10), KeyAt(t, 10));
  }

  lemma KeysDiffer(s: seq<Byte>, t: seq<Byte>, r: nat)
    requires |s| == |t| == 176 && r < 11 && s != t
    requires forall i :: 0 <= i < 176 && i / 16 != r ==> s[i] == t[i]
    ensures KeyAt(s, r) != KeyAt(t, r) && forall j: nat :: j < 11 && j != r ==> KeyAt(s, j) == KeyAt(t, j)
  {
    var i :| 0 <= i < 176 && s[i] != t[i];
    assert KeyAt(s, r)[i - 16 * r] == s[i] && KeyAt(t, r)[i - 16 * r] == t[i];
    forall j: nat | j < 11 && j != r
      ensures KeyAt(s, j) == KeyAt(t, j)
    {
      SameKey(s, t, j);
    }
  }

  lemma SameKey(s: seq<Byte>, t: seq<Byte>, j: nat)
    requires |s| == |t| == 176 && j < 11
    requires forall i :: 0 <= i < 176 && i / 16 == j ==> s[i] == t[i]
    ensures KeyAt(s, j) == KeyAt(t, j)
  {
    forall i | 0 <= i < 16
      ensures KeyAt(s, j)[i] == KeyAt(t, j)[i]
    {
      assert (16 * j + i) / 16 == j;
      assert KeyAt(s, j)[i] == s[16 * j + i] && KeyAt(t, j)[i] == t[16 * j + i];
    }
  }
}

/** In-place shifts of word arrays: whole words first, then the remaining bits. */
module BigShift {
  import opened PowerOfTwo
  import opened Words
  import opened WordOps
  import opened BigTypes

  /** n <<= s, modulo the width. */
  method ShiftLeft(n: array<Word>, s: nat)
    requires s <= 32 * n.Length
    modifies n
    ensures Val(n[..]) == (old(Val(n[..])) * Pow2(s)) % Weight(n.Length)
  {
    var bases, bits := s / 32, s % 32;
    ghost var v, p := Val(n[..]), Weight(n.Length);
    if bases > 0 {
      MoveWordsUp(n, bases);
    } else {
      WeightStep(0);
      ValBound(n[..]);
      DivModUnique(v, p, 0, v);
    }
    if bits > 0 {
      ShiftBitsLeft(n, bits);
    } else {
      ValBound(n[..]);
      DivModUnique(Val(n[..]), p, 0, Val(n[..]));
    }
    Pow2Add(32 * bases, bits);
    ModMul(v * Weight(bases), Pow2(bits), p);
    MulAssociates(v, Weight(bases), Pow2(bits));
  }

  /** The word-moving loop of shiftLeft, highest word first. */
  method MoveWordsUp(n: array<Word>, bases: nat)
    requires bases <= n.Length
    modifies n
    ensures Val(n[..]) == (old(Val(n[..])) * Weight(bases)) % Weight(n.Length)
  {
    ghost var n0 := n[..];
    var i := n.Length - bases;
    while i > 0
      invariant 0 <= i <= n.Length - bases
      invariant MovedUpFrom(n0, n[..], i, bases)
    {
      i := i - 1;
      WordMovedUp(n0, n[..], i, bases);
      n[i + bases] := n[i];
    }
    forall k | 0 <= k < bases {
      n[k] := 0;
    }
    assert n[..] == Zeros(bases) + n0[..n.Length - bases];
    MovedUpValue(n0, bases);
  }

  /** The words from place i on have been moved; those below and in their way are as they were. */
  ghost predicate MovedUpFrom(was: seq<Word>, d: seq<Word>, i: nat, bases: nat) {
    |d| == |was| && i + bases <= |d| && d[..i + bases] == was[..i + bases] && d[i + bases..] == was[i..|d| - bases]
  }

  lemma WordMovedUp(was: seq<Word>, d: seq<Word>, i: nat, bases: nat)
    requires MovedUpFrom(was, d, i + 1, bases)
    ensures MovedUpFrom(was, d[i + bases := d[i]], i, bases)
  {
    var e := d[i + bases := d[i]];
    assert d[i] == d[..i + 1 + bases][i] == was[i];
    assert e[..i + bases] == d[..i + 1 + bases][..i + bases];
    assert e[i + bases..] == [was[i]] + d[i + 1 + bases..];
  }

  lemma MovedUpValue(s: seq<Word>, bases: nat)
    requires bases <= |s|
    ensures Val(Zeros(bases) + s[..|s| - bases]) == (Val(s) * Weight(bases)) % Weight(|s|)
  {
    hide *;
    var k := |s| - bases;
    var r := Zeros(bases) + s[..k];
    assert Val(r) == Weight(bases) * Val(s[..k]) by {
      ValZeros(bases);
      ValAppend(Zeros(bases), s[..k]);
    }
    assert Val(r) < Weight(|s|) by {
      ValBound(r);
    }
    assert Weight(|s|) == Weight(k) * Weight(bases) by {
      WeightAdd(k, bases);
    }
    assert Val(s) == Val(s[..k]) + Weight(k) * Val(s[k..]) by {
      ValSplit(s, k);
    }
    MovedUpArithmetic(Val(s), Val(s[..k]), Val(s[k..]), Weight(k), Weight(bases), Weight(|s|));
  }

  lemma MovedUpArithmetic(v: int, low: int, high: int, p: int, q: int, w: int)
    requires v == low + p * high && w == p * q
    requires 0 <= q * low < w
    ensures (v * q) % w == q * low
  {
    MulDistributes(q, low, p * high);
    MulAssociates(q, p, high);
    DivModUnique(v * q, w, high, q * low);
  }

  /** The bit loop of shiftLeft; shiftLeft1 is the case of one bit. */
  method ShiftBitsLeft(n: array<Word>, bits: nat)
    requires bits <= 32
    modifies n
    ensures Val(n[..]) == (old(Val(n[..])) * Pow2(bits)) % Weight(n.Length)
  {
    ghost var n0 := n[..];
    var carry: Word := 0;
    ValPush([], 0);
    for i := 0 to n.Length
      invariant n[i..] == n0[i..]
      invariant carry < Pow2(bits)
      invariant Val(n[..i] + [carry]) == Val(n0[..i]) * Pow2(bits)
    {
      assert n[i] == n0[i];
      ghost var done, c := n[..i], carry;
      var w := n[i];
      ShlOr(w, bits, carry);
      ShlSplit(w, bits);
      n[i] := Or(Shl(w, bits), carry);
      carry := Shr(w, 32 - bits);
      assert n[..i + 1] == done + [n[i]];
      ShiftLeftStep(done, c, n0, i, bits, n[i], carry);
    }
    assert n[..n.Length] == n[..] && n0[..n.Length] == n0;
    CarryOverflow(n[..], carry);
  }

  lemma ShiftLeftStep(done: seq<Word>, carry: Word, was: seq<Word>, i: nat, bits: nat, w: Word, out: Word)
    requires i == |done| < |was|
    requires Val(done + [carry]) == Val(was[..i]) * Pow2(bits)
    requires was[i] * Pow2(bits) + carry == w + BASE * out
    ensures Val(done + [w] + [out]) == Val(was[..i + 1]) * Pow2(bits)
  {
    ColumnSum(done, carry, was[i] * Pow2(bits), 0, w, out);
    ValPrefix(was, i);
    MulDistributes(Pow2(bits), Val(was[..i]), was[i] * Weight(i));
    MulAssociates(Pow2(bits), was[i], Weight(i));
  }

  method ShiftLeft1(n: array<Word>)
    modifies n
    ensures Val(n[..]) == (old(Val(n[..])) * 2) % Weight(n.Length)
  {
    assert Pow2(1) == 2;
    ShiftBitsLeft(n, 1);
  }

  /** n >>= s, unsigned. */
  method UShiftRight(n: array<Word>, s: nat)
    requires s <= 32 * n.Length
    modifies n
    ensures Val(n[..]) == old(Val(n[..])) / Pow2(s)
  {
    var bases, bits := s / 32, s % 32;
    ghost var v := Val(n[..]);
    if bases > 0 {
      MoveWordsDown(n, bases);
    } else {
      WeightStep(0);
      ValSplit(n[..], n.Length);
      assert n[..] == n[..n.Length];
    }
    if bits > 0 {
      ShiftBitsRight(n, bits, bases);
    }
    Pow2Add(32 * bases, bits);
    DivDiv(v, Weight(bases), Pow2(bits));
  }

  /** The word-moving loop of ushiftRight, lowest word first. */
  method MoveWordsDown(n: array<Word>, bases: nat)
    requires bases <= n.Length
    modifies n
    ensures Val(n[..]) == old(Val(n[..])) / Weight(bases)
    ensures n[n.Length - bases..] == Zeros(bases)
  {
    ghost var n0 := n[..];
    for i := bases to n.Length
      invariant n[..i - bases] == n0[bases..i]
      invariant n[i..] == n0[i..]
    {
      assert n[i] == n0[i];
      n[i - bases] := n[i];
    }
    assert n[..n.Length - bases] == n0[bases..];
    forall k | n.Length - bases <= k < n.Length {
      n[k] := 0;
    }
    assert n[..] == n0[bases..] + Zeros(bases);
    MovedDownValue(n0, bases);
  }

  lemma MovedDownValue(s: seq<Word>, bases: nat)
    requires bases <= |s|
    ensures Val(s[bases..] + Zeros(bases)) == Val(s) / Weight(bases)
  {
    hide *;
    assert Val(s[bases..] + Zeros(bases)) == Val(s[bases..]) by {
      ValAppend(s[bases..], Zeros(bases));
      ValZeros(bases);
    }
    ValBound(s[..bases]);
    ValSplit(s, bases);
    DivModUnique(Val(s), Weight(bases), Val(s[bases..]), Val(s[..bases]));
  }

  /** The bit loop of ushiftRight; the top `clear` words are already zero. */
  method ShiftBitsRight(n: array<Word>, bits: nat, clear: nat)
    requires 0 < bits <= 32 && clear <= n.Length
    requires n[n.Length - clear..] == Zeros(clear)
    modifies n
    ensures Val(n[..]) == old(Val(n[..])) / Pow2(bits)
  {
    hide Val, Weight, Pow2;
    ghost var n0 := n[..];
    ghost var rem: nat := 0;
    var carry: Word := 0;
    ValZeros(clear);
    var i := n.Length - clear;
    while i > 0
      invariant 0 <= i <= n.Length - clear
      invariant n[..i] == n0[..i] && n.Length == |n0|
      invariant rem < Pow2(bits) && carry == rem * Pow2(32 - bits)
      invariant Shifted(n0[i..], n[i..], bits, rem)
    {
      i := i - 1;
      assert n[i] == n0[i] && n0[i..] == [n0[i]] + n0[i + 1..];
      ghost var done, r := n[i + 1..], rem;
      var w := n[i];
      n[i], carry, rem := ShiftWordRight(rem, carry, w, bits);
      assert n[i..] == [n[i]] + done;
      ShiftRightStep(done, n0[i + 1..], r, w, bits, n[i]);
    }
    assert n[0..] == n[..] && n0[0..] == n0;
    DivModUnique(Val(n0), Pow2(bits), Val(n[..]), rem);
  }

  /** now is was shifted right, and rem the bits shifted out. */
  ghost predicate Shifted(was: seq<Word>, now: seq<Word>, bits: nat, rem: nat) {
    Val(was) == Val(now) * Pow2(bits) + rem
  }

  /** One word of the right shift: the carry's bits come in above the word's own. */
  method ShiftWordRight(ghost rem: nat, carry: Word, w: Word, bits: nat)
    returns (now: Word, out: Word, ghost rest: nat)
    requires bits <= 32 && carry == rem * Pow2(32 - bits)
    ensures now == rem * Pow2(32 - bits) + Shr(w, bits)
    ensures rest == w % Pow2(bits) && out == rest * Pow2(32 - bits)
  {
    ShrOr(rem, w, bits);
    ShrSplit(w, bits);
    return Or(carry, Shr(w, bits)), Shl(w, 32 - bits), w % Pow2(bits);
  }

  lemma ShiftRightStep(done: seq<Word>, was: seq<Word>, rem: nat, w: Word, bits: nat, now: Word)
    requires bits <= 32
    requires Shifted(was, done, bits, rem)
    requires now == rem * Pow2(32 - bits) + Shr(w, bits)
    ensures Shifted([w] + was, [now] + done, bits, w % Pow2(bits))
  {
    ValCons(w, was);
    ValCons(now, done);
    ShrSplit(w, bits);
    Pow2Add(bits, 32 - bits);
    Pow2Of32();
    ShiftRightArithmetic(Val([w] + was), Val([now] + done), Pow2(bits), Pow2(32 - bits), w, Shr(w, bits),
                         w % Pow2(bits), Val(was), Val(done), rem);
  }

  lemma ShiftRightArithmetic(
      all: int, out: int, p: int, q: int, w: int, h: int, low: int, was: int, done: int, rem: int)
    requires p * q == BASE
    requires w == h * p + low && was == done * p + rem
    requires all == w + BASE * was && out == rem * q + h + BASE * done
    ensures all == out * p + low
  {
    MulDistributes(p, rem * q + h, BASE * done);
    MulDistributes(p, rem * q, h);
    MulAssociates(p, q, rem);
    MulAssociates(p, BASE, done);
  }

  method UShiftRight1(n: array<Word>)
    modifies n
    ensures Val(n[..]) == old(Val(n[..])) / 2
  {
    assert Pow2(1) == 2;
    assert n[n.Length..] == Zeros(0);
    ShiftBitsRight(n, 1, 0);
  }
}

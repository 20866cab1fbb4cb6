/**
 * Shift-and-add multiplication.  Shifts of the multiplicand are deferred until
 * a bit of the multiplier is set; whole zero words only add to the deferral.
 */
module BigMultiply {
  import opened PowerOfTwo
  import opened Words
  import opened BigTypes
  import opened BigShift

  /** m = a * b modulo m's width; a is used up. */
  method ShiftAdd(m: array<Word>, a: array<Word>, b: array<Word>)
    requires m.Length == a.Length >= b.Length
    requires m != a && m != b && a != b
    modifies m, a
    ensures Val(m[..]) == (old(Val(a[..])) * Val(b[..])) % Weight(m.Length)
  {
    hide Val, Weight, Pow2;
    ghost var x, p := Val(a[..]), Weight(m.Length);
    ghost var applied: nat, low: nat := 0, 0;
    Zero(m);
    InitialProduct(m[..], a[..]);
    var shifts: nat := 0;
    for i := 0 to b.Length
      invariant applied + shifts == 32 * i && low == Val(b[..i])
      invariant Val(a[..]) == (x * Pow2(applied)) % p
      invariant Val(m[..]) == (x * low) % p
    {
      var w: Word := b[i];
      var ctr := 32;
      StartWord(b[..], i);
      while w != 0
        invariant 0 <= ctr <= 32 && w < Pow2(ctr)
        invariant applied + shifts == 32 * i + (32 - ctr)
        invariant Val(b[..i + 1]) == low + w * Pow2(applied + shifts)
        invariant Val(a[..]) == (x * Pow2(applied)) % p
        invariant Val(m[..]) == (x * low) % p
        decreases w
      {
        CounterPositive(w, ctr);
        NextBit(w, applied + shifts, low, Val(b[..i + 1]));
        if w % 2 == 1 {
          if shifts > 0 {
            ShiftLeft(a, shifts);
            DeferredShift(x, applied, shifts, p);
            applied, shifts := applied + shifts, 0;
          }
          AddTerm(x, low, Pow2(applied), p);
          Add(m, a);
          low := low + Pow2(applied);
        }
        w := w / 2;
        shifts := shifts + 1;
        ctr := ctr - 1;
      }
      shifts := shifts + ctr;
      assert b[..i + 1] == b[..][..i + 1];
    }
    assert b[..b.Length] == b[..];
  }

  lemma InitialProduct(m: seq<Word>, a: seq<Word>)
    requires m == Zeros(|m|) && |m| == |a|
    ensures Val(m) == 0 == (Val(a) * 0) % Weight(|m|)
    ensures Val(a) == (Val(a) * Pow2(0)) % Weight(|m|)
    ensures Val([]) == 0
  {
    ValZeros(|m|);
    ValBound(a);
    ModSmall(Val(a), Weight(|m|));
    ModSmall(0, Weight(|m|));
  }

  lemma StartWord(b: seq<Word>, i: nat)
    requires i < |b|
    ensures Val(b[..i + 1]) == Val(b[..i]) + b[i] * Pow2(32 * i)
    ensures b[i] < Pow2(32)
  {
    ValPrefix(b, i);
    Pow2Of32();
  }

  lemma CounterPositive(w: nat, ctr: nat)
    requires 0 < w < Pow2(ctr)
    ensures ctr > 0 && w / 2 < Pow2(ctr - 1)
  {
  }

  /** The bit at position s of the rest w, and what is left above it. */
  lemma NextBit(w: nat, s: nat, low: int, all: int)
    requires all == low + w * Pow2(s)
    ensures all == low + (if w % 2 == 1 then Pow2(s) else 0) + w / 2 * Pow2(s + 1)
  {
    var h := w / 2;
    MulAssociates(h, 2, Pow2(s));
    if w % 2 == 1 {
      MulSuccessor(2 * h, w, Pow2(s));
    } else {
      assert w == 2 * h;
    }
  }

  lemma DeferredShift(x: int, applied: nat, shifts: nat, p: int)
    requires p > 0
    ensures (((x * Pow2(applied)) % p) * Pow2(shifts)) % p == (x * Pow2(applied + shifts)) % p
  {
    Pow2Add(applied, shifts);
    ModMul(x * Pow2(applied), Pow2(shifts), p);
    MulAssociates(x, Pow2(applied), Pow2(shifts));
  }

  lemma AddTerm(x: int, low: int, bit: int, p: int)
    requires p > 0
    ensures ((x * low) % p + (x * bit) % p) % p == (x * (low + bit)) % p
  {
    ModAdd(x * low, (x * bit) % p, p);
    ModAdd(x * bit, x * low, p);
    MulDistributes(x, low, bit);
  }

  /** m = a0 * b0, unsigned; exact when m has the words of both factors. */
  method UMultiply(a0: array<Word>, b0: array<Word>, m: array<Word>)
    requires a0.Length == b0.Length <= m.Length
    requires m != a0 && m != b0
    modifies m
    ensures Val(m[..]) == (Val(a0[..]) * Val(b0[..])) % Weight(m.Length)
    ensures m.Length >= 2 * a0.Length ==> Val(m[..]) == Val(a0[..]) * Val(b0[..])
  {
    hide *;
    var a := new Word[m.Length];
    USetLow(a, a0);
    ShiftAdd(m, a, b0);
    ProductFits(a0[..], b0[..], m.Length);
  }

  lemma ProductFits(a: seq<Word>, b: seq<Word>, n: nat)
    requires |a| == |b|
    ensures n >= 2 * |a| ==> (Val(a) * Val(b)) % Weight(n) == Val(a) * Val(b)
  {
    hide *;
    if n >= 2 * |a| {
      assert Val(a) * Val(b) < Weight(n) by {
        ValBound(a);
        ValBound(b);
        MulBelow(Val(a), Val(b), Weight(|a|), Weight(|b|));
        WeightAdd(|a|, |b|);
        WeightMonotone(|a| + |b|, n);
      }
      ModSmall(Val(a) * Val(b), Weight(n));
    }
  }

  lemma WeightMonotone(i: nat, j: nat)
    requires i <= j
    ensures Weight(i) <= Weight(j)
  {
    Pow2Monotone(32 * i, 32 * j);
  }

  /** a0 *= b0, unsigned, modulo a0's width. */
  method UMultiplyBy(a0: array<Word>, b0: array<Word>)
    requires a0.Length >= b0.Length && a0 != b0
    modifies a0
    ensures Val(a0[..]) == (old(Val(a0[..])) * Val(b0[..])) % Weight(a0.Length)
  {
    var a := new Word[a0.Length];
    Set(a, a0);
    ShiftAdd(a0, a, b0);
  }
}

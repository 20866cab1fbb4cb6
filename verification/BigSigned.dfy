/** Two's-complement multiplication and division, on magnitudes with the signs put back. */
module BigSigned {
  import opened PowerOfTwo
  import opened Words
  import opened WordOps
  import opened BigTypes
  import opened BigMultiply
  import opened BigDivide

  function Abs(x: int): (y: nat) {
    if x < 0 then -x else x
  }

  /** Sign-extends b into the at least as wide a. */
  method SSetLow(a: array<Word>, b: array<Word>)
    requires a.Length >= b.Length > 0 && a != b
    modifies a
    ensures SVal(a[..]) == SVal(b[..]) && High(a[..]) == High(b[..])
  {
    var fill: Word := if b[b.Length - 1] >= HALF then BASE - 1 else 0;
    forall i | 0 <= i < a.Length {
      a[i] := if i < b.Length then b[i] else fill;
    }
    assert a[..] == b[..] + seq(a.Length - b.Length, _ => fill);
    SignExtended(b[..], a.Length - b.Length, fill);
  }

  lemma SignExtended(b: seq<Word>, k: nat, fill: Word)
    requires b != [] && fill == if High(b) then BASE - 1 else 0
    ensures SVal(b + seq(k, _ => fill)) == SVal(b)
    ensures High(b + seq(k, _ => fill)) == High(b)
  {
    hide Val, Weight;
    var t := seq(k, _ => fill);
    ValAppend(b, t);
    if High(b) {
      AllOnes(k);
      assert t == seq(k, _ => BASE - 1);
      MulSuccessor(Val(t), Weight(k), Weight(|b|));
      WeightAdd(|b|, k);
    } else {
      assert t == Zeros(k);
      ValZeros(k);
    }
  }

  lemma {:induction false} AllOnes(k: nat)
    ensures Val(seq(k, _ => BASE - 1)) == Weight(k) - 1
  {
    if k == 0 {
      WeightStep(0);
    } else {
      assert seq(k, _ => BASE - 1) == seq(k - 1, _ => BASE - 1) + [BASE - 1];
      AllOnes(k - 1);
      ValPush(seq(k - 1, _ => BASE - 1), BASE - 1);
      WeightStep(k - 1);
    }
  }

  /** Takes the absolute value in place and returns the sign, as the source does with its sign words. */
  method Magnitude(n: array<Word>) returns (negative: bool)
    requires n.Length > 0
    modifies n
    ensures Val(n[..]) == Abs(SVal(old(n[..]))) && negative == High(old(n[..])) == (SVal(old(n[..])) < 0)
  {
    ghost var n0 := n[..];
    ValBound(n0);
    HighIsUpperHalf(n0);
    negative := HighBit(n);
    if negative {
      Negate(n);
      NegatedHigh(Val(n0), Weight(n.Length));
    }
  }

  lemma NegatedHigh(v: nat, p: nat)
    requires 0 < v < p
    ensures (0 - v) % p == p - v
  {
    ModAddMultiple(0 - v, p, 1);
    ModSmall(p - v, p);
  }

  /** The signed value of a word sequence is the one representative of its value in range. */
  lemma SValRange(s: seq<Word>)
    requires s != []
    ensures 0 <= 2 * SVal(s) + Weight(|s|) && 2 * SVal(s) < Weight(|s|)
    ensures Val(s) == SVal(s) % Weight(|s|)
  {
    hide Val, Weight;
    ValBound(s);
    HighIsUpperHalf(s);
    ModSmall(Val(s), Weight(|s|));
    if High(s) {
      ModAddMultiple(SVal(s), Weight(|s|), 1);
    }
  }

  lemma SValUnique(s: seq<Word>, v: int)
    requires s != [] && Val(s) == v % Weight(|s|)
    requires 0 <= 2 * v + Weight(|s|) && 2 * v < Weight(|s|)
    ensures SVal(s) == v
  {
    hide Val, Weight;
    var p := Weight(|s|);
    HighIsUpperHalf(s);
    if v < 0 {
      ModAddMultiple(v, p, 1);
      ModSmall(v + p, p);
    } else {
      ModSmall(v, p);
    }
  }

  /** n = -n when asked, modulo the width. */
  method NegateIf(n: array<Word>, c: bool, ghost v: int)
    requires Val(n[..]) == v % Weight(n.Length)
    modifies n
    ensures Val(n[..]) == (if c then -v else v) % Weight(n.Length)
  {
    if c {
      Negate(n);
      NegatedMod(v, Weight(n.Length));
    }
  }

  lemma NegatedMod(v: int, p: int)
    requires p > 0
    ensures (0 - v % p) % p == (-v) % p
  {
    ModSub(0, v, p);
  }

  // ----- multiplication

  /** m = a0 * b0, signed, modulo m's width; exact when m has the words of both factors. */
  method SMultiply(a0: array<Word>, b0: array<Word>, m: array<Word>)
    requires 0 < a0.Length == b0.Length <= m.Length
    requires m != a0 && m != b0
    modifies m
    ensures Val(m[..]) == (SVal(a0[..]) * SVal(b0[..])) % Weight(m.Length)
    ensures m.Length >= 2 * a0.Length ==> SVal(m[..]) == SVal(a0[..]) * SVal(b0[..])
  {
    hide Val, Weight, SVal, High;
    var a := new Word[m.Length];
    SSetLow(a, a0);
    SignedShiftAdd(m, a, b0);
    SignedProductFits(m[..], a0[..], b0[..]);
  }

  /** The common tail of both signed multiplications. */
  method SignedShiftAdd(m: array<Word>, a: array<Word>, b0: array<Word>)
    requires m.Length == a.Length >= b0.Length > 0
    requires m != a && m != b0 && a != b0
    modifies m, a
    ensures Val(m[..]) == (old(SVal(a[..])) * SVal(b0[..])) % Weight(m.Length)
  {
    hide Val, Weight, SVal, High;
    ghost var x, y := SVal(a[..]), SVal(b0[..]);
    var signA := Magnitude(a);
    var b := new Word[b0.Length];
    Set(b, b0);
    var signB := Magnitude(b);
    ShiftAdd(m, a, b);
    NegateIf(m, signA != signB, Abs(x) * Abs(y));
    SignedProduct(x, y);
  }

  lemma SignedProduct(x: int, y: int)
    ensures (if (x < 0) != (y < 0) then -(Abs(x) * Abs(y)) else Abs(x) * Abs(y)) == x * y
  {
  }

  lemma SignedProductFits(m: seq<Word>, a: seq<Word>, b: seq<Word>)
    requires 0 < |a| == |b| <= |m|
    requires Val(m) == (SVal(a) * SVal(b)) % Weight(|m|)
    ensures |m| >= 2 * |a| ==> SVal(m) == SVal(a) * SVal(b)
  {
    hide Val, Weight, SVal;
    if |m| >= 2 * |a| {
      var p := Weight(|a|);
      SValRange(a);
      SValRange(b);
      WeightStep(|a| - 1);
      ProductRange(SVal(a), SVal(b), p);
      WeightAdd(|a|, |b|);
      WeightMonotone(|a| + |b|, |m|);
      SValUnique(m, SVal(a) * SVal(b));
    }
  }

  lemma ProductRange(x: int, y: int, p: nat)
    requires 0 <= 2 * x + p && 2 * x < p && 0 <= 2 * y + p && 2 * y < p && p > 1
    ensures 0 <= 2 * (x * y) + p * p && 2 * (x * y) < p * p
  {
    var u, v := Abs(2 * x), Abs(2 * y);
    MulMonotone(u, p, v);
    MulMonotone(v, p, p);
    SignedProduct(2 * x, 2 * y);
    assert (2 * x) * (2 * y) == 4 * (x * y);
    MulStrict(0, p, p);
  }

  /** a0 *= b0, signed, modulo a0's width. */
  method SMultiplyBy(a0: array<Word>, b0: array<Word>)
    requires a0.Length >= b0.Length > 0 && a0 != b0
    modifies a0
    ensures Val(a0[..]) == (old(SVal(a0[..])) * SVal(b0[..])) % Weight(a0.Length)
  {
    var a := new Word[a0.Length];
    SSetLow(a, a0);
    SignedShiftAdd(a0, a, b0);
  }

  // ----- division

  /** Quotient rounded toward zero, and the remainder that goes with it. */
  function TQuot(x: int, y: int): int
    requires y != 0
  {
    var t := Abs(x) / Abs(y);
    if (x < 0) != (y < 0) then -t else t
  }

  function TRem(x: int, y: int): int
    requires y != 0
  {
    var t := Abs(x) % Abs(y);
    if x < 0 then -t else t
  }

  lemma TruncatedProperties(x: int, y: int)
    requires y != 0
    ensures x == TQuot(x, y) * y + TRem(x, y)
    ensures Abs(TRem(x, y)) < Abs(y)
    ensures x >= 0 ==> TRem(x, y) >= 0
    ensures x <= 0 ==> TRem(x, y) <= 0
  {
    var u, v := Abs(x) / Abs(y), Abs(x) % Abs(y);
    DivModBy(Abs(x), Abs(y));
    SignsPutBack(x, y, u, v);
  }

  /** A division of magnitudes with the signs put back. */
  lemma SignsPutBack(x: int, y: int, u: int, v: int)
    requires y != 0 && Abs(x) == u * Abs(y) + v && 0 <= v < Abs(y)
    ensures var t, r := if (x < 0) != (y < 0) then -u else u, if x < 0 then -v else v;
            x == t * y + r && Abs(r) < Abs(y) && (x >= 0 ==> r >= 0) && (x <= 0 ==> r <= 0)
  {
    NegatedFactors(u, y);
    if x == 0 {
      NoNegativeTerm(u, Abs(y), v);
    }
  }

  lemma NegatedFactors(u: int, y: int)
    ensures (-u) * y == -(u * y) && u * (-y) == -(u * y)
  {
  }

  lemma NoNegativeTerm(u: int, d: int, v: int)
    requires u * d + v == 0 && 0 <= v < d
    ensures u == 0 && v == 0
  {
    DivModUnique(0, d, u, v);
  }

  /** These properties determine the quotient and the remainder. */
  lemma TruncatedUnique(x: int, y: int, t: int, r: int)
    requires y != 0 && x == t * y + r && Abs(r) < Abs(y)
    requires (x >= 0 ==> r >= 0) && (x <= 0 ==> r <= 0)
    ensures t == TQuot(x, y) && r == TRem(x, y)
  {
    var u := if (x < 0) != (y < 0) then -t else t;
    SignedTerms(t, y, u, x, r);
    DivModUnique(Abs(x), Abs(y), u, Abs(r));
  }

  lemma SignedTerms(t: int, y: int, u: int, x: int, r: int)
    requires y != 0 && x == t * y + r && Abs(r) < Abs(y)
    requires (x >= 0 ==> r >= 0) && (x <= 0 ==> r <= 0)
    requires u == if (x < 0) != (y < 0) then -t else t
    ensures Abs(x) == u * Abs(y) + Abs(r)
  {
  }

  /** q and r hold the truncated division of x by y, the quotient modulo the width. */
  ghost predicate Divided(x: int, y: int, q: seq<Word>, r: seq<Word>)
    requires y != 0 && r != []
  {
    Val(q) == TQuot(x, y) % Weight(|q|) && SVal(r) == TRem(x, y)
  }

  /**
   * {q, r} = a / b0, signed.  The sign of a is read after q has been cleared,
   * so when q is the same object as a the dividend counts as unsigned.
   */
  method SDivide(a: array<Word>, b0: array<Word>, q: array<Word>, r: array<Word>)
    requires a.Length == b0.Length == q.Length == r.Length > 0 && q != r
    requires SVal(b0[..]) != 0
    modifies q, r
    ensures Divided(if q == a then old(Val(a[..])) else old(SVal(a[..])), old(SVal(b0[..])), q[..], r[..])
  {
    hide Val, Weight, Aligned;
    ghost var x, y := if q == a then Val(a[..]) else SVal(a[..]), SVal(b0[..]);
    HighIsUpperHalf(a[..]);
    ValBound(a[..]);
    SValRange(b0[..]);
    var b := new Word[a.Length];
    Set(b, b0);
    Set(r, a);
    Zero(q);
    ValZeros(q.Length);
    var signA := HighBit(a);
    if signA {
      var _ := Magnitude(r);
    }
    assert Val(r[..]) == Abs(x) && signA == (x < 0);
    var signB := Magnitude(b);
    ghost var d := Val(b[..]);
    var shifts := Align(b, r);
    DivideLoop(b, q, r, shifts, d);
    RestoreSigns(q, r, signA, signA != signB, x, y);
  }

  /** Gives the quotient and the remainder of the magnitudes their signs. */
  method RestoreSigns(q: array<Word>, r: array<Word>, negateR: bool, negateQ: bool, ghost x: int, ghost y: int)
    requires q.Length == r.Length > 0 && q != r && y != 0
    requires Abs(x) == Val(q[..]) * Abs(y) + Val(r[..]) && Val(r[..]) < Abs(y) && 2 * Abs(y) <= Weight(r.Length)
    requires negateR == (x < 0) && negateQ == ((x < 0) != (y < 0))
    modifies q, r
    ensures Divided(x, y, q[..], r[..])
  {
    hide Val, Weight, High;
    ghost var t, rest := Val(q[..]), Val(r[..]);
    DivModUnique(Abs(x), Abs(y), t, rest);
    ValBound(q[..]);
    ValBound(r[..]);
    ModSmall(t, Weight(q.Length));
    ModSmall(rest, Weight(r.Length));
    NegateIf(q, negateQ, t);
    NegateIf(r, negateR, rest);
    SValUnique(r[..], TRem(x, y));
  }

  /** r = a mod b0, signed like a; the three arrays may coincide. */
  method SModulo(a: array<Word>, b0: array<Word>, r: array<Word>)
    requires a.Length == b0.Length == r.Length > 0
    requires SVal(b0[..]) != 0
    modifies r
    ensures SVal(r[..]) == TRem(old(SVal(a[..])), old(SVal(b0[..])))
  {
    hide Val, Weight, High, Aligned;
    ghost var x, y := SVal(a[..]), SVal(b0[..]);
    SValRange(b0[..]);
    var b := new Word[a.Length];
    Set(b, b0);
    Set(r, a);
    var signA := Magnitude(r);
    var signB := Magnitude(b);
    ghost var d := Val(b[..]);
    var shifts := Align(b, r);
    ModuloLoop(b, r, shifts, d);
    ghost var rest := Val(r[..]);
    ValBound(r[..]);
    ModSmall(rest, Weight(r.Length));
    NegateIf(r, signA, rest);
    SValUnique(r[..], TRem(x, y));
  }

  /** sdivide is exact except for the most negative number divided by -1. */
  lemma SDivideExact(a: seq<Word>, b: seq<Word>, q: seq<Word>, r: seq<Word>)
    requires |a| == |b| == |q| == |r| > 0 && SVal(b) != 0
    requires Divided(SVal(a), SVal(b), q, r)
    ensures Abs(SVal(r)) < Abs(SVal(b)) && (SVal(r) == 0 || (SVal(r) < 0) == (SVal(a) < 0))
    ensures SVal(a) == SVal(q) * SVal(b) + SVal(r) <==> !(2 * SVal(a) + Weight(|a|) == 0 && SVal(b) == -1)
  {
    hide Val, Weight, SVal, High;
    var x, y, p := SVal(a), SVal(b), Weight(|a|);
    TruncatedProperties(x, y);
    SValRange(a);
    SValRange(q);
    QuotientRange(x, y, p);
    if 2 * x + p == 0 && y == -1 {
      TruncatedUnique(x, -1, -x, 0);
    } else {
      SValUnique(q, TQuot(x, y));
    }
  }

  lemma QuotientRange(x: int, y: int, p: int)
    requires y != 0 && 0 <= 2 * x + p && 2 * x < p
    ensures 0 <= 2 * TQuot(x, y) + p && 2 * TQuot(x, y) <= p
    ensures !(2 * x + p == 0 && y == -1) ==> 2 * TQuot(x, y) < p
  {
    DivBound(Abs(x), Abs(y));
    if Abs(x) / Abs(y) == Abs(x) > 0 {
      DivModBy(Abs(x), Abs(y));
      if Abs(y) >= 2 {
        MulMonotone(2, Abs(y), Abs(x));
      }
    }
  }

  /**
   * Dividing with q the same object as a (its sign lost) gives the signed result
   * exactly when the dividend is not negative or the divisor is 1 or -1.
   */
  lemma DividingInPlace(a: seq<Word>, y: int)
    requires a != [] && y != 0
    ensures (TQuot(Val(a), y) % Weight(|a|) == TQuot(SVal(a), y) % Weight(|a|) && TRem(Val(a), y) == TRem(SVal(a), y))
       <==> (SVal(a) >= 0 || y == 1 || y == -1)
  {
    hide Val, Weight;
    var v, x, p := Val(a), SVal(a), Weight(|a|);
    SValRange(a);
    if x < 0 {
      var t, u := TQuot(v, y), TQuot(x, y);
      TruncatedProperties(v, y);
      TruncatedProperties(x, y);
      if TRem(v, y) == TRem(x, y) && t % p == u % p {
        DifferenceOfCongruent(t, u, p, y);
      }
      if y == 1 || y == -1 {
        TruncatedUnique(v, y, v * y, 0);
        TruncatedUnique(x, y, x * y, 0);
        ModAddMultiple(x * y, p, y);
        MulDistributes(y, x, p);
      }
    }
  }

  lemma DifferenceOfCongruent(t: int, u: int, p: int, y: int)
    requires p > 0 && t % p == u % p && t * y - u * y == p
    ensures y == 1 || y == -1
  {
    DivModBy(t, p);
    DivModBy(u, p);
    var k := t / p - u / p;
    assert k * y * p == p;
    if k * y != 1 {
      MulMonotone(if k * y < 1 then k * y else 2, if k * y < 1 then 0 else k * y, p);
    }
    if y > 1 || y < -1 {
      MulMonotone(1, Abs(k), Abs(y));
    }
  }
}

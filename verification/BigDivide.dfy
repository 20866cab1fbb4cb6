/**
 * Shift-and-subtract division.  The divisor is first aligned with the dividend
 * (whole words, then single bits, overshooting and backing off), and the
 * quotient's shifts are deferred until a quotient bit is set.
 */
module BigDivide {
  import opened PowerOfTwo
  import opened Words
  import opened WordOps
  import opened BigTypes
  import opened BigShift

  /** What aligning the divisor d leaves behind: b is d shifted so that b <= r < 2b, or r < d. */
  ghost predicate Aligned(b: nat, d: nat, r: nat, shifts: nat) {
    r < d * Pow2(shifts) && (shifts > 0 ==> b == d * Pow2(shifts - 1))
  }

  /** The alignment prologue that all four division routines share. */
  method Align(b: array<Word>, r: array<Word>) returns (shifts: nat)
    requires b.Length == r.Length > 0 && b != r && Val(b[..]) > 0
    modifies b
    ensures Aligned(Val(b[..]), old(Val(b[..])), Val(r[..]), shifts)
    ensures shifts <= 32 * b.Length
  {
    hide Val, Weight, Pow2, High, Aligned;
    ghost var d := Val(b[..]);
    shifts := 1;
    Unshifted(d);
    var high := HighBit(b);
    var above := UGreater(r, b);
    if !high && above {
      shifts := AlignWords(b, r);
      shifts := AlignBitsUp(b, r, d, shifts);
      shifts := AlignBitsDown(b, r, d, shifts);
      ShiftsFit(b[..], d, shifts);
      AlignedBetween(Val(b[..]), d, Val(r[..]), shifts);
    } else {
      var below := UGreater(b, r);
      if below {
        UShiftRight1(b);
        shifts := 0;
      }
      NoShiftNeeded(b[..], r[..], d, high, shifts);
    }
  }

  lemma Unshifted(d: nat)
    ensures d * Pow2(0) == d
  {
  }

  lemma NoShiftNeeded(b: seq<Word>, r: seq<Word>, d: nat, high: bool, shifts: nat)
    requires |b| == |r| > 0 && shifts <= 1 && d > 0
    requires shifts == 0 ==> Val(r) < d
    requires shifts == 1 ==> Val(b) == d && high == High(b) && d <= Val(r) && (high || Val(r) <= d)
    ensures Aligned(Val(b), d, Val(r), shifts)
  {
    hide Val, Weight, High;
    ValBound(r);
    HighIsUpperHalf(b);
  }

  lemma AlignedBetween(b: nat, d: nat, r: nat, shifts: nat)
    requires shifts >= 1 && b == d * Pow2(shifts - 1) && r < 2 * b
    ensures Aligned(b, d, r, shifts)
  {
    MulAssociates(2, d, Pow2(shifts - 1));
  }

  lemma ShiftsFit(b: seq<Word>, d: nat, shifts: nat)
    requires d > 0 && shifts >= 1 && Val(b) == d * Pow2(shifts - 1)
    ensures shifts <= 32 * |b|
  {
    hide Val;
    ValBound(b);
    MulMonotone(1, d, Pow2(shifts - 1));
    if shifts > 32 * |b| {
      Pow2Monotone(32 * |b|, shifts - 1);
    }
  }

  /** Shifts b by whole words until its top word lines up with r's. */
  method AlignWords(b: array<Word>, r: array<Word>) returns (shifts: nat)
    requires b.Length == r.Length && b != r && 0 < Val(b[..]) < Val(r[..])
    modifies b
    ensures shifts >= 1 && Val(b[..]) == old(Val(b[..])) * Pow2(shifts - 1)
  {
    hide Val, Weight, Pow2;
    ghost var d := Val(b[..]);
    var i := TopWord(r, r.Length);
    TopWordsOrdered(b[..], r[..], i);
    var j := TopWord(b, i);
    shifts := 1;
    if i != j {
      var s := (i - j) * 32;
      ShiftLeft(b, s);
      WordShiftFits(old(b[..]), i, j);
      shifts := s + 1;
    } else {
      Unshifted(d);
    }
  }

  /** One past the highest nonzero word below `limit`. */
  method TopWord(n: array<Word>, limit: nat) returns (k: nat)
    requires limit <= n.Length && Val(n[..]) > 0
    requires forall m :: limit <= m < n.Length ==> n[m] == 0
    ensures 0 < k <= limit && n[k - 1] != 0
    ensures forall m :: k <= m < n.Length ==> n[m] == 0
  {
    k := limit;
    while k > 0 && n[k - 1] == 0
      invariant k <= limit
      invariant forall m :: k <= m < n.Length ==> n[m] == 0
    {
      k := k - 1;
    }
    assert k == 0 ==> forall m :: 0 <= m < |n[..]| ==> n[..][m] == 0;
    ValZeroWords(n[..]);
  }

  /** A number whose words from i on are zero is below the weight of i. */
  lemma ValBelow(s: seq<Word>, i: nat)
    requires i <= |s| && forall m :: i <= m < |s| ==> s[m] == 0
    ensures Val(s) < Weight(i)
  {
    hide Val, Weight;
    assert s == s[..i] + Zeros(|s| - i);
    ValAppend(s[..i], Zeros(|s| - i));
    ValZeros(|s| - i);
    ValBound(s[..i]);
  }

  /** The smaller number has no word above the larger one's top word. */
  lemma TopWordsOrdered(b: seq<Word>, r: seq<Word>, i: nat)
    requires |b| == |r| && i <= |r| && Val(b) < Val(r)
    requires forall m :: i <= m < |r| ==> r[m] == 0
    ensures forall m :: i <= m < |b| ==> b[m] == 0
  {
    hide Val, Weight;
    ValBelow(r, i);
    forall m | i <= m < |b|
      ensures b[m] == 0
    {
      if b[m] != 0 {
        ValAtLeast(b, m);
        Pow2Monotone(32 * i, 32 * m);
        assert Weight(i) == Pow2(32 * i) && Weight(m) == Pow2(32 * m) by {
          WeightIsPow2(i);
          WeightIsPow2(m);
        }
      }
    }
  }

  lemma WeightIsPow2(i: nat)
    ensures Weight(i) == Pow2(32 * i)
  {
  }

  lemma WordShiftFits(b: seq<Word>, i: nat, j: nat)
    requires j <= i <= |b| && forall m :: j <= m < |b| ==> b[m] == 0
    ensures (Val(b) * Pow2((i - j) * 32)) % Weight(|b|) == Val(b) * Pow2((i - j) * 32)
  {
    hide Val, Weight, Pow2;
    var p := Pow2((i - j) * 32);
    assert 0 <= Val(b) * p < Weight(|b|) by {
      ValBelow(b, j);
      WeightIsPow2(i - j);
      WeightAdd(j, i - j);
      MulStrict(Val(b), Weight(j), p);
      WeightIsPow2(i);
      WeightIsPow2(|b|);
      Pow2Monotone(32 * i, 32 * |b|);
    }
    ModSmall(Val(b) * p, Weight(|b|));
  }

  /** Doubles b while it has room and is below r; may overshoot by one bit. */
  method AlignBitsUp(b: array<Word>, r: array<Word>, ghost d: nat, start: nat) returns (shifts: nat)
    requires b.Length == r.Length > 0 && b != r && d > 0
    requires start >= 1 && Val(b[..]) == d * Pow2(start - 1)
    modifies b
    ensures shifts >= 1 && Val(b[..]) == d * Pow2(shifts - 1)
    ensures Val(r[..]) < 2 * Val(b[..])
  {
    hide Val, Weight, Pow2, High;
    shifts := start;
    ghost var p := Weight(b.Length);
    while true
      invariant shifts >= 1 && Val(b[..]) == d * Pow2(shifts - 1)
      decreases p - Val(b[..])
    {
      Positive(d, shifts - 1);
      RoomToDouble(b[..], r[..]);
      var high := HighBit(b);
      var above := UGreater(r, b);
      if high || !above {
        break;
      }
      ShiftLeft1(b);
      DoubledShift(d, shifts);
      shifts := shifts + 1;
    }
  }

  lemma Positive(d: nat, s: nat)
    requires d > 0
    ensures d * Pow2(s) >= d > 0
  {
    MulMonotone(1, Pow2(s), d);
  }

  lemma RoomToDouble(b: seq<Word>, r: seq<Word>)
    requires |b| == |r| > 0
    ensures Val(b) < Weight(|b|)
    ensures High(b) ==> Val(r) < 2 * Val(b)
    ensures !High(b) ==> (Val(b) * 2) % Weight(|b|) == 2 * Val(b) < Weight(|b|)
  {
    hide Val, Weight, High;
    ValBound(b);
    ValBound(r);
    HighIsUpperHalf(b);
    if !High(b) {
      ModSmall(Val(b) * 2, Weight(|b|));
    }
  }

  lemma DoubledShift(d: nat, shifts: nat)
    requires shifts >= 1
    ensures 2 * (d * Pow2(shifts - 1)) == d * Pow2(shifts)
  {
    MulAssociates(2, d, Pow2(shifts - 1));
  }

  /** Backs off until b fits in r. */
  method AlignBitsDown(b: array<Word>, r: array<Word>, ghost d: nat, start: nat) returns (shifts: nat)
    requires b.Length == r.Length && b != r && 0 < d < Val(r[..])
    requires start >= 1 && Val(b[..]) == d * Pow2(start - 1)
    requires Val(r[..]) < 2 * Val(b[..])
    modifies b
    ensures shifts >= 1 && Val(b[..]) == d * Pow2(shifts - 1)
    ensures Val(b[..]) <= Val(r[..]) < 2 * Val(b[..])
  {
    hide Val, Weight, Pow2;
    shifts := start;
    while true
      invariant shifts >= 1 && Val(b[..]) == d * Pow2(shifts - 1)
      invariant Val(r[..]) < 2 * Val(b[..])
      decreases shifts
    {
      var over := UGreater(b, r);
      if !over {
        break;
      }
      if shifts == 1 {
        Unshifted(d);
      } else {
        DoubledShift(d, shifts - 1);
      }
      UShiftRight1(b);
      shifts := shifts - 1;
    }
  }

  /** The numbers of one division step: a == t * e + r with r < e, e the divisor times 2^shifts. */
  ghost predicate Partial(a: nat, d: nat, t: nat, r: nat, b: nat, shifts: nat) {
    && a == t * (d * Pow2(shifts)) + r
    && Aligned(b, d, r, shifts)
  }

  lemma StartPartial(a: nat, d: nat, b: nat, shifts: nat)
    requires Aligned(b, d, a, shifts)
    ensures Partial(a, d, 0, a, b, shifts)
  {
  }

  /** One quotient bit: the partial quotient doubles and takes the bit b <= r. */
  lemma DivisionStep(a: nat, d: nat, t: nat, r: nat, b: nat, shifts: nat)
    requires shifts > 0 && Partial(a, d, t, r, b, shifts)
    ensures b <= r ==> Partial(a, d, 2 * t + 1, r - b, b / 2, shifts - 1)
    ensures b > r ==> Partial(a, d, 2 * t, r, b / 2, shifts - 1)
  {
    var e := d * Pow2(shifts - 1);
    DoubledShift(d, shifts);
    MulAssociates(t, 2, e);
    MulSuccessor(2 * t, 2 * t + 1, e);
    if shifts > 1 {
      DoubledShift(d, shifts - 1);
    }
  }

  lemma FinishedDivision(a: nat, d: nat, t: nat, r: nat, b: nat)
    requires Partial(a, d, t, r, b, 0)
    ensures a == t * d + r && r < d
  {
    Unshifted(d);
  }

  lemma QuotientBound(a: nat, d: nat, t: nat, r: nat, b: nat, shifts: nat)
    requires d > 0 && Partial(a, d, t, r, b, shifts)
    ensures t <= a
  {
    Positive(d, shifts);
    MulMonotone(1, d * Pow2(shifts), t);
  }

  /** The quotient loop of udivide and sdivide; qshifts counts the quotient's deferred shifts. */
  method DivideLoop(b: array<Word>, q: array<Word>, r: array<Word>, start: nat, ghost d: nat)
    requires b.Length == q.Length == r.Length > 0 && start <= 32 * b.Length && d > 0
    requires b != q && b != r && q != r && Val(q[..]) == 0
    requires Aligned(Val(b[..]), d, Val(r[..]), start)
    modifies b, q, r
    ensures old(Val(r[..])) == Val(q[..]) * d + Val(r[..]) && Val(r[..]) < d
  {
    hide *;
    ghost var a: nat, t: nat := Val(r[..]), 0;
    ValBound(r[..]);
    StartPartial(a, d, Val(b[..]), start);
    NothingDeferred(0);
    var shifts: nat, qshifts: nat := start, 0;
    while shifts > 0
      invariant shifts + qshifts <= 32 * b.Length
      invariant a < Weight(b.Length) && t == Deferred(Val(q[..]), qshifts)
      invariant Partial(a, d, t, Val(r[..]), Val(b[..]), shifts)
    {
      DivisionStep(a, d, t, Val(r[..]), Val(b[..]), shifts);
      shifts := shifts - 1;
      qshifts := qshifts + 1;
      DeferredDouble(Val(q[..]), qshifts);
      t := 2 * t;
      var over := UGreater(b, r);
      if !over {
        SubtractSmaller(r, b);
        QuotientBound(a, d, t + 1, Val(r[..]), Val(b[..]) / 2, shifts);
        AppendOne(q, qshifts, t);
        qshifts := 0;
        t := t + 1;
        NothingDeferred(t);
      }
      UShiftRight1(b);
    }
    FinishedDivision(a, d, t, Val(r[..]), Val(b[..]));
    QuotientBound(a, d, t, Val(r[..]), Val(b[..]), shifts);
    ShiftDeferred(q, qshifts, t);
  }

  /** Subtracts a number that is not greater. */
  method SubtractSmaller(r: array<Word>, b: array<Word>)
    requires r.Length == b.Length && r != b && Val(b[..]) <= Val(r[..])
    modifies r
    ensures Val(r[..]) == old(Val(r[..])) - Val(b[..])
  {
    hide *;
    ghost var r0 := Val(r[..]);
    ValBound(r[..]);
    Subtract(r, b);
    ModSmall(r0 - Val(b[..]), Weight(r.Length));
  }

  /** Performs the quotient's deferred shifts. */
  method ShiftDeferred(q: array<Word>, qshifts: nat, ghost t: nat)
    requires q.Length > 0 && qshifts <= 32 * q.Length && t == Deferred(Val(q[..]), qshifts) < Weight(q.Length)
    modifies q
    ensures Val(q[..]) == t
  {
    hide Val, Weight, Pow2;
    ShiftLeft(q, qshifts);
    ModSmall(t, Weight(q.Length));
  }

  /** What the quotient stands for while some of its shifts are still to be done. */
  ghost function Deferred(q: nat, qshifts: nat): nat {
    q * Pow2(qshifts)
  }

  lemma NothingDeferred(q: nat)
    ensures Deferred(q, 0) == q
  {
    Unshifted(q);
  }

  lemma DeferredDouble(q: nat, qshifts: nat)
    requires qshifts >= 1
    ensures Deferred(q, qshifts) == 2 * Deferred(q, qshifts - 1)
  {
    MulAssociates(2, q, Pow2(qshifts - 1));
  }

  /** Performs the quotient's deferred shift and sets its low bit. */
  method AppendOne(q: array<Word>, qshifts: nat, ghost t: nat)
    requires q.Length > 0 && 1 <= qshifts <= 32 * q.Length
    requires t == Deferred(Val(q[..]), qshifts) && t % 2 == 0 && t + 1 < Weight(q.Length)
    modifies q
    ensures Val(q[..]) == t + 1
  {
    hide Val, Weight, Pow2, Deferred;
    ShiftDeferred(q, qshifts, t);
    ghost var w, rest := q[0], q[1..];
    assert q[..] == [w] + rest;
    ValCons(w, rest);
    OrOne(w);
    q[0] := Or(q[0], 1);
    assert q[..] == [q[0]] + rest;
    ValCons(q[0], rest);
  }

  /** {q, r} = a / b0, unsigned; q and r must differ, any other arrays may coincide. */
  method UDivide(a: array<Word>, b0: array<Word>, q: array<Word>, r: array<Word>)
    requires a.Length == b0.Length == q.Length == r.Length > 0 && q != r
    requires Val(b0[..]) > 0
    modifies q, r
    ensures old(Val(a[..])) == Val(q[..]) * old(Val(b0[..])) + Val(r[..])
    ensures Val(r[..]) < old(Val(b0[..]))
  {
    hide *;
    var b := new Word[a.Length];
    Set(b, b0);
    Set(r, a);
    Zero(q);
    ValZeros(q.Length);
    ghost var d := Val(b[..]);
    var shifts := Align(b, r);
    DivideLoop(b, q, r, shifts, d);
  }

  /** The remainder loop of umodulo and smodulo. */
  method ModuloLoop(b: array<Word>, r: array<Word>, start: nat, ghost d: nat)
    requires b.Length == r.Length && b != r && d > 0
    requires Aligned(Val(b[..]), d, Val(r[..]), start)
    modifies b, r
    ensures Val(r[..]) == old(Val(r[..])) % d
  {
    hide *;
    ghost var a: nat, t: nat := Val(r[..]), 0;
    ValBound(r[..]);
    StartPartial(a, d, Val(b[..]), start);
    var shifts: nat := start;
    while shifts > 0
      invariant Partial(a, d, t, Val(r[..]), Val(b[..]), shifts)
    {
      DivisionStep(a, d, t, Val(r[..]), Val(b[..]), shifts);
      shifts := shifts - 1;
      t := 2 * t;
      var over := UGreater(b, r);
      if !over {
        SubtractSmaller(r, b);
        t := t + 1;
      }
      UShiftRight1(b);
    }
    FinishedDivision(a, d, t, Val(r[..]), Val(b[..]));
    DivModUnique(a, d, t, Val(r[..]));
  }

  /** r = a mod b0, unsigned; the three arrays may coincide. */
  method UModulo(a: array<Word>, b0: array<Word>, r: array<Word>)
    requires a.Length == b0.Length == r.Length > 0
    requires Val(b0[..]) > 0
    modifies r
    ensures Val(r[..]) == old(Val(a[..])) % old(Val(b0[..]))
  {
    hide *;
    var b := new Word[a.Length];
    Set(b, b0);
    Set(r, a);
    ghost var d := Val(b[..]);
    var shifts := Align(b, r);
    ModuloLoop(b, r, shifts, d);
  }

  /** udivide's quotient and remainder are the Euclidean ones, and umodulo agrees. */
  lemma QuotientIsEuclidean(a: nat, d: nat, q: nat, r: nat)
    requires a == q * d + r && r < d
    ensures q == a / d && r == a % d
  {
    DivModUnique(a, d, q, r);
  }
}

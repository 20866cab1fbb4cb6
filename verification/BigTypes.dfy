/**
 * Multi-precision integers on little-endian word arrays, updated in place.
 * Every operation is specified by the numbers the arrays stand for; n is the
 * word count of the type.  Arrays may be the same object wherever the source
 * tolerates it.
 */
module BigTypes {
  import opened PowerOfTwo
  import opened Words
  import opened WordOps

  /** Whether the top word has its high bit set. */
  method HighBit(n: array<Word>) returns (h: bool)
    requires n.Length > 0
    ensures h == High(n[..])
  {
    h := n[n.Length - 1] >= HALF;
  }

  method Zero(n: array<Word>)
    modifies n
    ensures n[..] == Zeros(n.Length)
  {
    forall i | 0 <= i < n.Length {
      n[i] := 0;
    }
  }

  method Set(a: array<Word>, b: array<Word>)
    requires a.Length == b.Length
    modifies a
    ensures a[..] == old(b[..])
  {
    forall i | 0 <= i < a.Length {
      a[i] := b[i];
    }
  }

  /** Zero-extends b into the at least as wide a. */
  method USetLow(a: array<Word>, b: array<Word>)
    requires a.Length >= b.Length && a != b
    modifies a
    ensures Val(a[..]) == Val(b[..])
  {
    forall i | 0 <= i < a.Length {
      a[i] := if i < b.Length then b[i] else 0;
    }
    assert a[..] == b[..] + Zeros(a.Length - b.Length);
    ValAppend(b[..], Zeros(a.Length - b.Length));
    ValZeros(a.Length - b.Length);
  }

  method USetW(a: array<Word>, w: Word)
    requires a.Length > 0
    modifies a
    ensures Val(a[..]) == w
  {
    forall i | 0 <= i < a.Length {
      a[i] := if i == 0 then w else 0;
    }
    assert a[..] == [w] + Zeros(a.Length - 1);
    ValAppend([w], Zeros(a.Length - 1));
    ValZeros(a.Length - 1);
    WeightStep(0);
    ValPush([], w);
    assert [] + [w] == [w];
  }

  method UGreater(a: array<Word>, b: array<Word>) returns (g: bool)
    requires a.Length == b.Length
    ensures g <==> Val(a[..]) > Val(b[..])
  {
    var i := a.Length;
    while i > 0
      invariant 0 <= i <= a.Length
      invariant a[i..] == b[i..]
    {
      i := i - 1;
      assert a[..][i + 1..] == b[..][i + 1..];
      if a[i] > b[i] {
        ValCompare(a[..], b[..], i);
        return true;
      }
      if a[i] < b[i] {
        ValCompare(b[..], a[..], i);
        return false;
      }
    }
    assert a[..] == a[0..] && b[..] == b[0..];
    return false;
  }

  method IsZero(n: array<Word>) returns (z: bool)
    ensures z <==> Val(n[..]) == 0
  {
    ValZeroWords(n[..]);
    for i := 0 to n.Length
      invariant forall k :: 0 <= k < i ==> n[k] == 0
    {
      if n[i] != 0 {
        assert n[..][i] != 0;
        return false;
      }
    }
    return true;
  }

  // ----- addition and subtraction

  /** a += b, modulo the width; b may be a itself. */
  method Add(a: array<Word>, b: array<Word>)
    requires a.Length == b.Length
    modifies a
    ensures Val(a[..]) == (old(Val(a[..])) + old(Val(b[..]))) % Weight(a.Length)
  {
    ghost var a0, b0 := a[..], b[..];
    var carry: Word := 0;
    ValPush([], 0);
    for i := 0 to a.Length
      invariant a[i..] == a0[i..] && b[i..] == b0[i..]
      invariant carry <= 1
      invariant Val(a[..i] + [carry]) == Val(a0[..i]) + Val(b0[..i])
    {
      assert a[i] == a0[i] && b[i] == b0[i];
      ghost var done, c := a[..i], carry;
      CarryOutIsCarry(a[i], b[i], carry);
      carry, a[i] := CarryOut(a[i], b[i], carry), WAdd(a[i], b[i], carry);
      assert a[..i + 1] == done + [a[i]];
      ColumnSum(done, c, a0[i], b0[i], a[i], carry);
      ValPrefix(a0, i);
      ValPrefix(b0, i);
    }
    assert a[..a.Length] == a[..] && a0[..a.Length] == a0 && b0[..a.Length] == b0;
    CarryOverflow(a[..], carry);
  }

  /** One column of a sum: the new word and the carry out hold what came in. */
  lemma ColumnSum(done: seq<Word>, carry: Word, a: int, b: int, w: Word, out: Word)
    requires a + b + carry == w + BASE * out
    ensures Val(done + [w] + [out]) == Val(done + [carry]) + a * Weight(|done|) + b * Weight(|done|)
  {
    hide *;
    ValPush(done, carry);
    ValPush(done, w);
    ValPush(done + [w], out);
    WeightStep(|done|);
    ColumnArithmetic(a, b, carry, w, out, Weight(|done|));
  }

  lemma ColumnArithmetic(a: int, b: int, carry: int, w: int, out: int, p: int)
    requires a + b + carry == w + BASE * out
    ensures a * p + b * p + carry * p == w * p + out * (BASE * p)
  {
    MulDistributes(p, a, b);
    MulDistributes(p, a + b, carry);
    MulDistributes(p, w, BASE * out);
    MulAssociates(out, BASE, p);
  }

  /** Dropping the last carry takes the value modulo the width. */
  lemma CarryOverflow(s: seq<Word>, carry: Word)
    ensures Val(s + [carry]) % Weight(|s|) == Val(s)
  {
    hide *;
    ValPush(s, carry);
    ValBound(s);
    DivModUnique(Val(s + [carry]), Weight(|s|), carry, Val(s));
  }

  /** a -= b, modulo the width; b may be a itself. */
  method Subtract(a: array<Word>, b: array<Word>)
    requires a.Length == b.Length
    modifies a
    ensures Val(a[..]) == (old(Val(a[..])) - old(Val(b[..]))) % Weight(a.Length)
  {
    ghost var a0, b0 := a[..], b[..];
    var borrow: Word := 0;
    ValPush([], 0);
    for i := 0 to a.Length
      invariant a[i..] == a0[i..] && b[i..] == b0[i..]
      invariant borrow <= 1
      invariant Val(a[..i]) + Val(b0[..i]) == Val(a0[..i] + [borrow])
    {
      assert a[i] == a0[i] && b[i] == b0[i];
      ghost var done, c := a[..i], borrow;
      BorrowOutIsBorrow(a[i], b[i], borrow);
      borrow, a[i] := BorrowOut(a[i], b[i], borrow), WSub(a[i], b[i], borrow);
      assert a[..i + 1] == done + [a[i]];
      assert a0[..i + 1] == a0[..i] + [a0[i]];
      ColumnSum(a0[..i], c, a[i], b0[i], a0[i], borrow);
      ValPush(done, a[i]);
      ValPrefix(b0, i);
    }
    assert a[..a.Length] == a[..] && a0[..a.Length] == a0 && b0[..a.Length] == b0;
    BorrowUnderflow(a[..], a0, b0, borrow);
  }

  lemma BorrowArithmetic(v: int, m: int, borrow: int, p: int)
    requires 0 <= m < p
    requires m == v + borrow * p
    ensures v % p == m
  {
    DivModUnique(v, p, -borrow, m);
  }

  lemma BorrowUnderflow(s: seq<Word>, a: seq<Word>, b: seq<Word>, borrow: Word)
    requires |s| == |a|
    requires Val(s) + Val(b) == Val(a + [borrow])
    ensures Val(s) == (Val(a) - Val(b)) % Weight(|s|)
  {
    hide *;
    ValPush(a, borrow);
    ValBound(s);
    var v, p := Val(a) - Val(b), Weight(|s|);
    BorrowArithmetic(v, Val(s), borrow, p);
  }

  /** ++n, modulo the width; stops at the first word that does not wrap. */
  method Increment(n: array<Word>)
    modifies n
    ensures Val(n[..]) == (old(Val(n[..])) + 1) % Weight(n.Length)
  {
    ghost var n0 := n[..];
    WeightStep(0);
    for i := 0 to n.Length
      invariant n[i..] == n0[i..]
      invariant Val(n[..i]) == 0 && Val(n0[..i]) + 1 == Weight(i)
    {
      assert n[i] == n0[i];
      ghost var done := n[..i];
      n[i] := (n[i] + 1) % BASE;
      assert n[..i + 1] == done + [n[i]];
      if n[i] != 0 {
        assert n[..][i + 1..] == n0[i + 1..] && n[..][..i] == done;
        IncrementStops(n0, n[..], i);
        return;
      }
      IncrementWraps(done, n0, i);
    }
    assert n[..n.Length] == n[..] && n0[..n.Length] == n0;
    DivModUnique(Val(n0) + 1, Weight(n.Length), 1, 0);
  }

  lemma IncrementStops(was: seq<Word>, now: seq<Word>, i: nat)
    requires i < |was| == |now| && now[i] as int == was[i] as int + 1 && now[i + 1..] == was[i + 1..]
    requires Val(now[..i]) == 0 && Val(was[..i]) + 1 == Weight(i)
    ensures Val(now) == (Val(was) + 1) % Weight(|was|)
  {
    hide *;
    assert Val(now) == Val(was) + 1 by {
      assert Val(now[..i + 1]) == Val(was[..i + 1]) + 1 by {
        ValPrefix(now, i);
        ValPrefix(was, i);
        MulSuccessor(was[i], now[i], Weight(i));
      }
      ValSplit(now, i + 1);
      ValSplit(was, i + 1);
    }
    assert Val(now) < Weight(|was|) by {
      ValBound(now);
    }
    ModSmall(Val(now), Weight(|was|));
  }

  lemma IncrementWraps(done: seq<Word>, was: seq<Word>, i: nat)
    requires i == |done| < |was| && was[i] == BASE - 1
    requires Val(done) == 0 && Val(was[..i]) + 1 == Weight(i)
    ensures Val(done + [0]) == 0 && Val(was[..i + 1]) + 1 == Weight(i + 1)
  {
    hide *;
    ValPush(done, 0);
    ValPrefix(was, i);
    WeightStep(i);
  }

  /** n = -n, modulo the width. */
  method Negate(n: array<Word>)
    modifies n
    ensures Val(n[..]) == (0 - old(Val(n[..]))) % Weight(n.Length)
  {
    hide *;
    ghost var v := Val(n[..]);
    Complement(n);
    ghost var inverted := Val(n[..]);
    Increment(n);
    ComplementPlusOne(inverted, v, Weight(n.Length));
  }

  /** Inverts all bits. */
  method Complement(n: array<Word>)
    modifies n
    ensures Val(n[..]) + old(Val(n[..])) + 1 == Weight(n.Length)
  {
    ghost var n0, done: seq<Word> := n[..], [];
    assert Val(done) == Val(n0[..0]) == 0;
    hide *;
    WeightStep(0);
    for i := 0 to n.Length
      invariant i == |done| && n[..] == done + n0[i..]
      invariant Val(done) + Val(n0[..i]) + 1 == Weight(i)
    {
      ghost var before, w := n[..], Not(n[i]);
      n[i] := Not(n[i]);
      assert n[..] == before[i := w];
      NextWord(before, done, n0, i, w);
      NegateStep(done, n0, i);
      done := done + [w];
    }
    assert n0[n.Length..] == [] && n0[..n.Length] == n0;
    assert n[..] == done;
  }

  lemma NextWord(n: seq<Word>, done: seq<Word>, was: seq<Word>, i: nat, w: Word)
    requires i == |done| < |was| && n == done + was[i..]
    ensures n[i] == was[i] && n[i := w] == done + [w] + was[i + 1..]
  {
  }

  lemma ComplementPlusOne(u: int, v: int, p: int)
    requires p > 0 && u + v + 1 == p
    ensures (u + 1) % p == (0 - v) % p
  {
    ModAddMultiple(0 - v, p, 1);
  }

  lemma NegateStep(done: seq<Word>, was: seq<Word>, i: nat)
    requires i == |done| < |was|
    requires Val(done) + Val(was[..i]) + 1 == Weight(i)
    ensures Val(done + [Not(was[i])]) + Val(was[..i + 1]) + 1 == Weight(i + 1)
  {
    hide Val, Weight;
    ValPush(done, Not(was[i]));
    ValPrefix(was, i);
    WeightStep(i);
    MulDistributes(Weight(i), Not(was[i]), was[i]);
  }
}

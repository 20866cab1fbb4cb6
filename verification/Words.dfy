/** The number a little-endian sequence of 32-bit words stands for. */
module Words {
  import opened PowerOfTwo

  const BASE := 0x1_0000_0000
  type Word = w: int | 0 <= w < 0x1_0000_0000

  /** Weight of word i, and one more than the largest value of i words. */
  function Weight(i: nat): (p: nat)
    ensures p > 0
  {
    Pow2(32 * i)
  }

  /** The unsigned value; word 0 is the least significant. */
  ghost function Val(s: seq<Word>): (v: nat)
  {
    if s == [] then 0 else Val(s[..|s| - 1]) + s[|s| - 1] * Weight(|s| - 1)
  }

  ghost predicate High(s: seq<Word>)
    requires s != []
  {
    s[|s| - 1] >= 0x8000_0000
  }

  /** The two's-complement value. */
  ghost function SVal(s: seq<Word>): int
    requires s != []
  {
    if High(s) then Val(s) - Weight(|s|) else Val(s)
  }

  ghost function Zeros(n: nat): (s: seq<Word>)
    ensures |s| == n && forall i :: 0 <= i < n ==> s[i] == 0
  {
    seq(n, _ => 0)
  }

  lemma WeightStep(i: nat)
    ensures Weight(0) == 1
    ensures Weight(i + 1) == BASE * Weight(i) == Weight(i) * BASE
  {
    Pow2Of32();
    Pow2Add(32, 32 * i);
    assert 32 * (i + 1) == 32 + 32 * i;
  }

  lemma WeightAdd(i: nat, j: nat)
    ensures Weight(i + j) == Weight(i) * Weight(j)
  {
    Pow2Add(32 * i, 32 * j);
    assert 32 * (i + j) == 32 * i + 32 * j;
  }

  lemma ValPush(s: seq<Word>, w: Word)
    ensures Val(s + [w]) == Val(s) + w * Weight(|s|)
  {
    assert (s + [w])[..|s|] == s;
  }

  lemma ValPrefix(s: seq<Word>, i: nat)
    requires i < |s|
    ensures Val(s[..i + 1]) == Val(s[..i]) + s[i] * Weight(i)
  {
    assert s[..i + 1] == s[..i] + [s[i]];
    ValPush(s[..i], s[i]);
  }

  lemma {:induction false} ValBound(s: seq<Word>)
    ensures Val(s) < Weight(|s|)
  {
    if s == [] {
      WeightStep(0);
    } else {
      var m := |s| - 1;
      ValBound(s[..m]);
      WeightStep(m);
      MulMonotone(s[m], BASE - 1, Weight(m));
    }
  }

  lemma {:induction false} ValZeros(n: nat)
    ensures Val(Zeros(n)) == 0
  {
    if n > 0 {
      assert Zeros(n) == Zeros(n - 1) + [0];
      ValZeros(n - 1);
      ValPush(Zeros(n - 1), 0);
    }
  }

  lemma {:induction false} ValAppend(s: seq<Word>, t: seq<Word>)
    ensures Val(s + t) == Val(s) + Weight(|s|) * Val(t)
    decreases |t|
  {
    if t == [] {
      assert s + t == s;
    } else {
      var m := |t| - 1;
      assert s + t == (s + t[..m]) + [t[m]];
      ValAppend(s, t[..m]);
      ValPush(s + t[..m], t[m]);
      WeightAdd(|s|, m);
      MulDistributes(Weight(|s|), Val(t[..m]), t[m] * Weight(m));
      MulAssociates(t[m], Weight(|s|), Weight(m));
    }
  }

  lemma ValCons(w: Word, s: seq<Word>)
    ensures Val([w] + s) == w + BASE * Val(s)
  {
    ValAppend([w], s);
    ValPush([], w);
    assert [] + [w] == [w];
    WeightStep(0);
  }

  lemma ValSplit(s: seq<Word>, i: nat)
    requires i <= |s|
    ensures Val(s) == Val(s[..i]) + Weight(i) * Val(s[i..])
  {
    assert s == s[..i] + s[i..];
    ValAppend(s[..i], s[i..]);
  }

  /** Equal high words and a larger word below them decide the order. */
  lemma ValCompare(a: seq<Word>, b: seq<Word>, i: nat)
    requires |a| == |b| && i < |a|
    requires a[i + 1..] == b[i + 1..]
    requires a[i] > b[i]
    ensures Val(a) > Val(b)
  {
    assert Val(a[..i + 1]) > Val(b[..i + 1]) by {
      ValPrefix(a, i);
      ValPrefix(b, i);
      ValBound(b[..i]);
      MulMonotone(b[i] + 1, a[i], Weight(i));
      MulDistributes(Weight(i), b[i], 1);
    }
    ValSplit(a, i + 1);
    ValSplit(b, i + 1);
  }

  /** A value has one representation of each length. */
  lemma {:induction false} ValInjective(a: seq<Word>, b: seq<Word>)
    requires |a| == |b| && Val(a) == Val(b)
    ensures a == b
  {
    if a != [] {
      var m := |a| - 1;
      ValBound(a[..m]);
      ValBound(b[..m]);
      DivModUnique(Val(a), Weight(m), a[m], Val(a[..m]));
      DivModUnique(Val(b), Weight(m), b[m], Val(b[..m]));
      ValInjective(a[..m], b[..m]);
      assert a == a[..m] + [a[m]];
      assert b == b[..m] + [b[m]];
    }
  }

  /** The high bit is set exactly when the value is in the upper half of the range. */
  lemma HighIsUpperHalf(s: seq<Word>)
    requires s != []
    ensures High(s) <==> 2 * Val(s) >= Weight(|s|)
  {
    var m := |s| - 1;
    ValBound(s[..m]);
    WeightStep(m);
    if High(s) {
      MulMonotone(0x8000_0000, s[m], Weight(m));
    } else {
      MulMonotone(s[m], 0x7fff_ffff, Weight(m));
    }
  }

  /** A zero value consists of zero words; a nonzero word makes the value at least its weight. */
  lemma ValZeroWords(s: seq<Word>)
    ensures Val(s) == 0 <==> forall i :: 0 <= i < |s| ==> s[i] == 0
  {
    if forall i :: 0 <= i < |s| ==> s[i] == 0 {
      assert s == Zeros(|s|);
      ValZeros(|s|);
    } else {
      var i :| 0 <= i < |s| && s[i] != 0;
      ValAtLeast(s, i);
    }
  }

  lemma ValAtLeast(s: seq<Word>, i: nat)
    requires i < |s| && s[i] != 0
    ensures Val(s) >= Weight(i)
  {
    ValSplit(s, i + 1);
    ValPrefix(s, i);
    MulMonotone(1, s[i], Weight(i));
    MulMonotone(0, Weight(i + 1), Val(s[i + 1..]));
  }
}

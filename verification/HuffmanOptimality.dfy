/**
 * The classical optimality theorem, on weights and code word lengths alone:
 * repeatedly merging the two lightest weights costs no more than any lengths
 * that satisfy Kraft's inequality.
 */
module HuffmanOptimality {
  import opened PowerOfTwo
  import opened PrefixCodes

  ghost predicate Ascending(w: seq<nat>) {
    forall i, j :: 0 <= i < j < |w| ==> w[i] <= w[j]
  }

  ghost predicate Descending(l: seq<nat>) {
    forall i, j :: 0 <= i < j < |l| ==> l[i] >= l[j]
  }

  /** Inserts before the first weight that is not lighter. */
  function InsertWeight(x: nat, w: seq<nat>): (r: seq<nat>)
    ensures |r| == |w| + 1
  {
    if w == [] || w[0] >= x then [x] + w else [w[0]] + InsertWeight(x, w[1..])
  }

  /** The sum of all merged weights when the two lightest are merged until one is left. */
  function MergeCost(w: seq<nat>): nat
    decreases |w|
  {
    if |w| <= 1 then 0 else w[0] + w[1] + MergeCost(InsertWeight(w[0] + w[1], w[2..]))
  }

  /** Total weight times length. */
  function Dot(w: seq<nat>, l: seq<nat>): nat
    requires |w| == |l|
  {
    if w == [] then 0 else w[0] * l[0] + Dot(w[1..], l[1..])
  }

  lemma {:induction false} InsertAscending(x: nat, w: seq<nat>)
    requires Ascending(w)
    ensures Ascending(InsertWeight(x, w))
    ensures forall y :: y in InsertWeight(x, w) <==> y == x || y in w
  {
    if w == [] || w[0] >= x {
    } else {
      InsertAscending(x, w[1..]);
      var r := InsertWeight(x, w[1..]);
      assert forall y :: y in w <==> y == w[0] || y in w[1..];
      forall i | 0 <= i < |r|
        ensures w[0] <= r[i]
      {
        assert r[i] in r;
      }
    }
  }

  /** The Kraft sum at two scales. */
  lemma {:induction false} KraftScale(l: seq<nat>, m: nat, n: nat)
    requires AtMost(l, m) && m <= n
    ensures AtMost(l, n) && Kraft(l, n) == Kraft(l, m) * Pow2(n - m)
  {
    if l != [] {
      KraftScale(l[1..], m, n);
      Pow2Add(m - l[0], n - m);
      assert (m - l[0]) + (n - m) == n - l[0];
      MulDistributes(Pow2(n - m), Pow2(m - l[0]), Kraft(l[1..], m));
    }
  }

  /** Moves a length behind the larger ones; this does not raise the cost. */
  lemma {:induction false} SinkLength(w: seq<nat>, a: nat, l: seq<nat>, m: nat) returns (r: seq<nat>)
    requires |w| == |l| + 1 && Ascending(w) && Descending(l) && AtMost([a] + l, m)
    ensures |r| == |w| && Descending(r) && AtMost(r, m)
    ensures forall x :: x in r ==> x == a || x in l
    ensures Dot(w, r) <= Dot(w, [a] + l) && Kraft(r, m) == Kraft([a] + l, m)
    decreases |l|
  {
    hide Dot, Kraft, Pow2;
    assert ([a] + l)[1..] == l;
    if l == [] || a >= l[0] {
      r := [a] + l;
    } else {
      var b, rest := l[0], l[1..];
      assert AtMost([a] + rest, m) by {
        assert forall i :: 0 <= i < |l| ==> l[i] == ([a] + l)[i + 1];
      }
      var s := SinkLength(w[1..], a, rest, m);
      r := [b] + s;
      SinkDot(w, a, l, s);
      SinkKraft(a, l, s, m);
      assert forall x :: x in l <==> x == b || x in rest;
      forall i | 0 <= i < |s|
        ensures s[i] <= b
      {
        assert s[i] in s;
      }
    }
  }

  lemma SinkDot(w: seq<nat>, a: nat, l: seq<nat>, s: seq<nat>)
    requires l != [] && |s| == |l| && |w| == |l| + 1 && w[0] <= w[1] && a <= l[0]
    requires Dot(w[1..], s) <= Dot(w[1..], [a] + l[1..])
    ensures Dot(w, [l[0]] + s) <= Dot(w, [a] + l)
  {
    hide Dot;
    var b, rest := l[0], l[1..];
    DotFirst(w, b, s);
    DotFirst(w, a, l);
    DotFirst(w[1..], b, rest);
    DotFirst(w[1..], a, rest);
    assert l == [b] + rest;
    Rearranged(w[0], w[1], a, b);
  }

  lemma DotFirst(w: seq<nat>, a: nat, l: seq<nat>)
    requires |w| == |l| + 1
    ensures Dot(w, [a] + l) == w[0] * a + Dot(w[1..], l)
  {
    assert ([a] + l)[1..] == l;
  }

  lemma SinkKraft(a: nat, l: seq<nat>, s: seq<nat>, m: nat)
    requires l != [] && AtMost([a] + l, m) && AtMost(s, m) && AtMost([a] + l[1..], m)
    requires Kraft(s, m) == Kraft([a] + l[1..], m)
    ensures AtMost([l[0]] + s, m) && Kraft([l[0]] + s, m) == Kraft([a] + l, m)
  {
    hide Pow2;
    assert ([a] + l)[1] == l[0];
    assert ([l[0]] + s)[1..] == s && ([a] + l[1..])[1..] == l[1..] && ([a] + l)[1..] == l;
  }

  lemma Rearranged(u: nat, v: nat, a: nat, b: nat)
    requires u <= v && a <= b
    ensures u * b + v * a <= u * a + v * b
  {
    MulMonotone(u, v, b - a);
    MulDistributes(u, a, b - a);
    MulDistributes(v, a, b - a);
  }

  /** Longer words on lighter symbols: sorting the lengths downwards does not raise the cost. */
  lemma {:induction false} SortLengths(w: seq<nat>, l: seq<nat>, m: nat) returns (r: seq<nat>)
    requires |w| == |l| && Ascending(w) && AtMost(l, m)
    ensures |r| == |w| && Descending(r) && AtMost(r, m)
    ensures Dot(w, r) <= Dot(w, l) && Kraft(r, m) == Kraft(l, m)
    decreases |l|
  {
    if l == [] {
      r := [];
    } else {
      var s := SortLengths(w[1..], l[1..], m);
      r := SinkLength(w, l[0], s, m);
      assert ([l[0]] + s)[1..] == s;
    }
  }

  /** A single longest word can be shortened to the next length without breaking Kraft's inequality. */
  lemma EqualizeLongest(l: seq<nat>, m: nat)
    requires |l| >= 2 && Descending(l) && AtMost(l, m) && Kraft(l, m) <= Pow2(m)
    ensures l[1] <= m && l[1] > 0 && AtMost([l[1]] + l[1..], m) && Kraft([l[1]] + l[1..], m) <= Pow2(m)
  {
    hide Pow2, Kraft, AtMost, Descending;
    var rest, k := l[1..], l[1];
    FirstLength(l, m);
    RestLengths(l, m);
    KraftScale(rest, k, m);
    Pow2Add(k, m - k);
    assert k + (m - k) == m;
    FirstLength(rest, k);
    Pow2Zero();
    RoomForOneMore(Kraft(rest, k), Pow2(k), Pow2(m - k), Kraft(rest, m), Pow2(m));
    assert ([k] + rest)[1..] == rest;
    FirstLength([k] + rest, m);
  }

  /** The first length's share. */
  lemma FirstLength(l: seq<nat>, m: nat)
    requires l != [] && AtMost(l, m)
    ensures l[0] <= m && AtMost(l[1..], m) && Kraft(l, m) == Pow2(m - l[0]) + Kraft(l[1..], m)
  {
    hide Pow2;
  }

  lemma RestLengths(l: seq<nat>, m: nat)
    requires |l| >= 2 && Descending(l) && AtMost(l, m)
    ensures l[1] <= m && AtMost(l[1..], l[1]) && AtMost([l[1]] + l[1..], m)
  {
  }

  lemma Pow2Zero()
    ensures Pow2(0) == 1
  {
  }

  /** Multiples of p below a multiple of p leave room for p. */
  lemma RoomForOneMore(q: nat, n: nat, p: nat, qp: nat, np: nat)
    requires qp == q * p && np == n * p && qp < np
    ensures q + 1 <= n && qp + p <= np
  {
    if q >= n {
      MulMonotone(n, q, p);
    } else {
      MulMonotone(q + 1, n, p);
      MulSuccessor(q, q + 1, p);
    }
  }

  /** Inserting a weight and a length at the same place. */
  lemma {:induction false} InsertPair(x: nat, k: nat, w: seq<nat>, l: seq<nat>, m: nat) returns (r: seq<nat>)
    requires |w| == |l| && AtMost(l, m) && k <= m
    ensures |r| == |l| + 1 && AtMost(r, m)
    ensures Dot(InsertWeight(x, w), r) == x * k + Dot(w, l)
    ensures Kraft(r, m) == Pow2(m - k) + Kraft(l, m)
    decreases |w|
  {
    if w == [] || w[0] >= x {
      r := [k] + l;
      assert r[1..] == l && ([x] + w)[1..] == w;
    } else {
      var s := InsertPair(x, k, w[1..], l[1..], m);
      r := [l[0]] + s;
      assert r[1..] == s && InsertWeight(x, w)[1..] == InsertWeight(x, w[1..]);
    }
  }

  /** No lengths that satisfy Kraft's inequality cost less than merging. */
  lemma {:induction false} MergeCostIsLeast(w: seq<nat>, l: seq<nat>, m: nat)
    requires |w| == |l| && Ascending(w) && AtMost(l, m) && Kraft(l, m) <= Pow2(m)
    ensures MergeCost(w) <= Dot(w, l)
    decreases |w|
  {
    hide Kraft, Dot, InsertWeight, AtMost;
    if |w| >= 2 {
      var s := SortLengths(w, l, m);
      EqualizeLongest(s, m);
      var k, rest := s[1], s[2..];
      assert [k] + s[1..] == [k, k] + rest;
      TwoLongest(w, s, m);
      MulMonotone(k, s[0], w[0]);
      var r := InsertPair(w[0] + w[1], k - 1, w[2..], rest, m);
      InsertAscending(w[0] + w[1], w[2..]);
      assert Pow2(m - (k - 1)) == 2 * Pow2(m - k);
      MergeCostIsLeast(InsertWeight(w[0] + w[1], w[2..]), r, m);
      MergedProducts(w[0], w[1], k);
    }
  }

  lemma TwoLongest(w: seq<nat>, s: seq<nat>, m: nat)
    requires |w| == |s| >= 2 && AtMost(s, m) && AtMost([s[1]] + s[1..], m)
    ensures Dot(w, s) == w[0] * s[0] + w[1] * s[1] + Dot(w[2..], s[2..])
    ensures AtMost(s[2..], m)
    ensures Kraft([s[1]] + s[1..], m) == 2 * Pow2(m - s[1]) + Kraft(s[2..], m)
  {
    assert ([s[1]] + s[1..])[1..] == s[1..];
    assert s[1..][1..] == s[2..] && w[1..][1..] == w[2..];
  }

  lemma MergedProducts(u: nat, v: nat, k: nat)
    requires k > 0
    ensures u * k + v * k == u + v + (u + v) * (k - 1)
  {
  }
}

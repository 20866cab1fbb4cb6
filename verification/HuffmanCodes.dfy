/** The code of the Huffman tree: its words, their lengths, and that no prefix code is cheaper. */
module HuffmanCodes {
  import opened PowerOfTwo
  import opened PrefixCodes
  import opened HuffmanOptimality
  import opened HuffmanTrees

  // ----- symbols of a forest

  function ForestValues(list: seq<Tree>): seq<nat> {
    if list == [] then [] else Values(list[0]) + ForestValues(list[1..])
  }

  function WeightsOf(list: seq<Tree>): (w: seq<nat>)
    ensures |w| == |list|
  {
    if list == [] then [] else [Weight(list[0])] + WeightsOf(list[1..])
  }

  function ForestTotal(list: seq<Tree>): nat {
    if list == [] then 0 else Total(list[0]) + ForestTotal(list[1..])
  }

  /** The merged weights of a tree: every inner node's total. */
  function Cost(t: Tree): nat {
    match t
    case Leaf(_, _) => 0
    case Node(l, r) => Cost(l) + Cost(r) + Total(t)
  }

  function ForestCost(list: seq<Tree>): nat {
    if list == [] then 0 else Cost(list[0]) + ForestCost(list[1..])
  }

  lemma {:induction false} InsertSortedForest(t: Tree, list: seq<Tree>)
    ensures WeightsOf(InsertSorted(t, list)) == InsertWeight(Weight(t), WeightsOf(list))
    ensures ForestTotal(InsertSorted(t, list)) == Total(t) + ForestTotal(list)
    ensures ForestCost(InsertSorted(t, list)) == Cost(t) + ForestCost(list)
    ensures multiset(ForestValues(InsertSorted(t, list))) == multiset(Values(t)) + multiset(ForestValues(list))
  {
    if list == [] || Weight(list[0]) >= Weight(t) {
    } else {
      InsertSortedForest(t, list[1..]);
      assert WeightsOf(list)[1..] == WeightsOf(list[1..]);
    }
  }

  lemma {:induction false} WeightIsTotal(t: Tree)
    requires Total(t) < WEIGHT_RANGE
    ensures Weight(t) == Total(t)
  {
    if t.Node? {
      WeightIsTotal(t.left);
      WeightIsTotal(t.right);
    }
  }

  lemma FirstTwo(list: seq<Tree>)
    requires |list| >= 2
    ensures ForestTotal(list) == Total(list[0]) + Total(list[1]) + ForestTotal(list[2..])
    ensures ForestCost(list) == Cost(list[0]) + Cost(list[1]) + ForestCost(list[2..])
    ensures multiset(ForestValues(list))
         == multiset(Values(list[0])) + multiset(Values(list[1])) + multiset(ForestValues(list[2..]))
  {
    hide Weight, Total, Cost, Values;
    var rest := list[1..];
    assert rest[0] == list[1] && rest[1..] == list[2..];
    assert ForestValues(list) == Values(list[0]) + ForestValues(rest);
    assert ForestValues(rest) == Values(list[1]) + ForestValues(list[2..]);
  }

  lemma FirstTwoWeights(list: seq<Tree>)
    requires |list| >= 2
    ensures var w := WeightsOf(list);
            w[0] == Weight(list[0]) && w[1] == Weight(list[1]) && w[2..] == WeightsOf(list[2..])
  {
    hide Weight;
    var rest := list[1..];
    assert rest[0] == list[1] && rest[1..] == list[2..];
    assert WeightsOf(list)[1..] == WeightsOf(rest);
    assert WeightsOf(list)[2..] == WeightsOf(rest)[1..];
    assert WeightsOf(rest)[1..] == WeightsOf(list[2..]);
  }

  /** Merging keeps the symbols. */
  lemma {:induction false} BuildValues(list: seq<Tree>)
    requires list != []
    ensures multiset(Values(Build(list))) == multiset(ForestValues(list))
    decreases |list|
  {
    if |list| == 1 {
      assert ForestValues(list[1..]) == [];
    } else {
      FirstTwo(list);
      InsertSortedForest(Node(list[0], list[1]), list[2..]);
      BuildValues(InsertSorted(Node(list[0], list[1]), list[2..]));
    }
  }

  /** What the merges cost is what the tree costs, as long as no stored weight wraps. */
  lemma {:induction false} BuildCost(list: seq<Tree>)
    requires list != [] && ForestTotal(list) < WEIGHT_RANGE
    ensures Cost(Build(list)) == ForestCost(list) + MergeCost(WeightsOf(list))
    decreases |list|
  {
    if |list| == 1 {
      assert ForestCost(list[1..]) == 0;
    } else {
      var t := Node(list[0], list[1]);
      var r := InsertSorted(t, list[2..]);
      FirstTwo(list);
      FirstMerge(list);
      InsertSortedForest(t, list[2..]);
      BuildCost(r);
    }
  }

  /** The first merge puts the sum of the first two weights back into the list. */
  lemma FirstMerge(list: seq<Tree>)
    requires |list| >= 2 && ForestTotal(list) < WEIGHT_RANGE
    ensures var t := Node(list[0], list[1]);
            && Weight(t) == Total(t) && Cost(t) == Cost(list[0]) + Cost(list[1]) + Weight(t)
            && MergeCost(WeightsOf(list)) == Weight(t) + MergeCost(InsertWeight(Weight(t), WeightsOf(list[2..])))
  {
    hide Weight, Cost, WeightsOf, ForestTotal, ForestCost, InsertWeight, MergeCost;
    var t := Node(list[0], list[1]);
    assert Total(t) <= ForestTotal(list) by {
      FirstTwo(list);
    }
    WeightIsTotal(list[0]);
    WeightIsTotal(list[1]);
    WeightIsTotal(t);
    CostOfNode(list[0], list[1]);
    FirstTwoWeights(list);
    MergeCostStep(WeightsOf(list), Weight(t));
  }

  lemma {:induction false} MergeCostStep(w: seq<nat>, x: nat)
    requires |w| >= 2 && x == w[0] + w[1]
    ensures MergeCost(w) == x + MergeCost(InsertWeight(x, w[2..]))
  {
    hide InsertWeight;
  }

  lemma CostOfNode(l: Tree, r: Tree)
    ensures Cost(Node(l, r)) == Cost(l) + Cost(r) + Total(Node(l, r))
  {
  }

  // ----- the list of leaves

  function Iota(n: nat): (s: seq<nat>)
    ensures |s| == n && forall i :: 0 <= i < n ==> s[i] == i
  {
    seq(n, i => i)
  }

  /** Every tree of the list is the leaf of a symbol. */
  ghost predicate LeafList(weights: seq<nat>, list: seq<Tree>) {
    forall i :: 0 <= i < |list| ==>
      list[i].Leaf? && list[i].value < |weights| && list[i] == LeafOf(weights, list[i].value)
  }

  lemma {:induction false} InsertSortedElements(t: Tree, list: seq<Tree>)
    ensures multiset(InsertSorted(t, list)) == multiset{t} + multiset(list)
  {
    if list == [] || Weight(list[0]) >= Weight(t) {
    } else {
      InsertSortedElements(t, list[1..]);
      assert list == [list[0]] + list[1..];
    }
  }

  /** The list of leaves is sorted by weight, so that the first two trees are the lightest. */
  lemma {:induction false} LeavesAscending(weights: seq<nat>, n: nat)
    requires n <= |weights|
    ensures Ascending(WeightsOf(Leaves(weights, n)))
    ensures ForestCost(Leaves(weights, n)) == 0
  {
    hide Ascending, InsertSorted;
    if n > 0 {
      LeavesAscending(weights, n - 1);
      var t, list := LeafOf(weights, n - 1), Leaves(weights, n - 1);
      InsertSortedForest(t, list);
      InsertAscending(Weight(t), WeightsOf(list));
    } else {
      EmptyAscending();
    }
  }

  lemma EmptyAscending()
    ensures Ascending([])
  {
  }

  /** Merging keeps the list sorted: the new tree goes where its weight belongs. */
  lemma MergeAscending(list: seq<Tree>)
    requires |list| >= 2 && Ascending(WeightsOf(list))
    ensures Ascending(WeightsOf(InsertSorted(Node(list[0], list[1]), list[2..])))
  {
    hide WeightsOf, InsertSorted, InsertWeight, Weight, Ascending;
    FirstTwoWeights(list);
    AscendingRest(WeightsOf(list), 2);
    InsertSortedForest(Node(list[0], list[1]), list[2..]);
    InsertAscending(Weight(Node(list[0], list[1])), WeightsOf(list[2..]));
  }

  lemma AscendingRest(w: seq<nat>, k: nat)
    requires Ascending(w) && k <= |w|
    ensures Ascending(w[k..])
  {
  }

  /** The two trees in front are the two lightest, now and after every merge that follows. */
  predicate TakesLightest(list: seq<Tree>)
    decreases |list|
  {
    |list| >= 2 ==> LightestFirst(list) && TakesLightest(InsertSorted(Node(list[0], list[1]), list[2..]))
  }

  predicate LightestFirst(list: seq<Tree>)
    requires |list| >= 2
  {
    forall i :: 2 <= i < |list| ==> Weight(list[0]) <= Weight(list[1]) <= Weight(list[i])
  }

  lemma {:induction false} SortedTakesLightest(list: seq<Tree>)
    requires Ascending(WeightsOf(list))
    ensures TakesLightest(list)
    decreases |list|
  {
    hide WeightsOf, InsertSorted, Weight, Ascending, LightestFirst;
    if |list| >= 2 {
      AscendingStartsLightest(list);
      MergeAscending(list);
      SortedTakesLightest(InsertSorted(Node(list[0], list[1]), list[2..]));
    }
  }

  lemma AscendingStartsLightest(list: seq<Tree>)
    requires |list| >= 2 && Ascending(WeightsOf(list))
    ensures LightestFirst(list)
  {
    hide WeightsOf, Weight;
    var w := WeightsOf(list);
    WeightsAt(list, 0);
    WeightsAt(list, 1);
    forall i | 2 <= i < |list|
      ensures Weight(list[0]) <= Weight(list[1]) <= Weight(list[i])
    {
      WeightsAt(list, i);
      assert w[0] <= w[1] <= w[i];
    }
  }

  lemma {:induction false} WeightsAt(list: seq<Tree>, i: nat)
    requires i < |list|
    ensures WeightsOf(list)[i] == Weight(list[i])
  {
    if i > 0 {
      WeightsAt(list[1..], i - 1);
    }
  }

  /** Every merge on the way to a Huffman tree is of the two lightest trees there are. */
  lemma EveryMergeTakesLightest(weights: seq<nat>)
    ensures TakesLightest(Leaves(weights, |weights|))
  {
    LeavesAscending(weights, |weights|);
    SortedTakesLightest(Leaves(weights, |weights|));
  }

  lemma {:induction false} LeavesAreLeaves(weights: seq<nat>, n: nat)
    requires n <= |weights|
    ensures LeafList(weights, Leaves(weights, n))
  {
    hide InsertSorted;
    if n > 0 {
      LeavesAreLeaves(weights, n - 1);
      var t, list, r := LeafOf(weights, n - 1), Leaves(weights, n - 1), Leaves(weights, n);
      InsertSortedElements(t, list);
      forall i | 0 <= i < |r|
        ensures r[i] == t || r[i] in list
      {
        assert r[i] in multiset(r);
      }
    }
  }

  lemma NoValues()
    ensures ForestValues([]) == [] == Iota(0)
  {
  }

  /** The list of leaves holds every symbol once. */
  lemma {:induction false} LeavesValues(weights: seq<nat>, n: nat)
    requires n <= |weights|
    ensures multiset(ForestValues(Leaves(weights, n))) == multiset(Iota(n))
  {
    hide InsertSorted, ForestValues;
    if n == 0 {
      NoValues();
    } else {
      LeavesValues(weights, n - 1);
      InsertSortedForest(LeafOf(weights, n - 1), Leaves(weights, n - 1));
      assert Iota(n) == Iota(n - 1) + [n - 1];
    }
  }

  // ----- the price of a code

  predicate Below(s: seq<nat>, n: nat) {
    forall i :: 0 <= i < |s| ==> s[i] < n
  }

  /** Total weight times word length over the symbols s. */
  function CodeCost(weights: seq<nat>, code: seq<Word>, s: seq<nat>): nat
    requires |code| == |weights| && Below(s, |weights|)
  {
    if s == [] then 0 else WeightOf(weights, s[0]) * |code[s[0]]| + CodeCost(weights, code, s[1..])
  }

  lemma {:induction false} CodeCostAppend(weights: seq<nat>, code: seq<Word>, s: seq<nat>, t: seq<nat>)
    requires |code| == |weights|
    requires Below(s + t, |weights|)
    ensures Below(s, |weights|) && Below(t, |weights|)
    ensures CodeCost(weights, code, s + t) == CodeCost(weights, code, s) + CodeCost(weights, code, t)
  {
    assert forall i :: 0 <= i < |s| ==> s[i] == (s + t)[i];
    assert forall i :: 0 <= i < |t| ==> t[i] == (s + t)[|s| + i];
    if s == [] {
      assert s + t == t;
    } else {
      assert (s + t)[1..] == s[1..] + t;
      CodeCostAppend(weights, code, s[1..], t);
    }
  }

  lemma Removed(s: seq<nat>, k: nat)
    requires k < |s|
    ensures multiset(s[..k] + s[k + 1..]) == multiset(s) - multiset{s[k]}
  {
    assert s == s[..k] + [s[k]] + s[k + 1..];
  }

  /** The price does not depend on the order of the symbols. */
  lemma {:induction false} CodeCostPermutation(weights: seq<nat>, code: seq<Word>, s: seq<nat>, t: seq<nat>)
    requires |code| == |weights| && multiset(s) == multiset(t)
    requires Below(s, |weights|)
    ensures Below(t, |weights|)
    ensures CodeCost(weights, code, s) == CodeCost(weights, code, t)
  {
    hide *;
    PermutedBelow(s, t, |weights|);
    if s == [] {
      assert |multiset(t)| == 0;
    } else {
      var k := PlaceOfFirst(s, t);
      var u := t[..k] + t[k + 1..];
      assert s[..0] + s[1..] == s[1..];
      CodeCostMoved(weights, code, s, 0);
      CodeCostPermutation(weights, code, s[1..], u);
      CodeCostMoved(weights, code, t, k);
    }
  }

  lemma {:induction false} PlaceOfFirst(s: seq<nat>, t: seq<nat>) returns (k: nat)
    requires s != [] && multiset(s) == multiset(t)
    ensures k < |t| && t[k] == s[0] && multiset(s[1..]) == multiset(t[..k] + t[k + 1..])
  {
    assert s[0] in multiset(s);
    k := PlaceOf(t, s[0]);
    Removed(s, 0);
    Removed(t, k);
    assert s[..0] + s[1..] == s[1..];
  }

  lemma PlaceOf(t: seq<nat>, x: nat) returns (k: nat)
    requires x in multiset(t)
    ensures k < |t| && t[k] == x
  {
    k :| k < |t| && t[k] == x;
  }

  lemma PermutedBelow(s: seq<nat>, t: seq<nat>, n: nat)
    requires multiset(s) == multiset(t) && Below(s, n)
    ensures Below(t, n)
  {
    forall i | 0 <= i < |t|
      ensures t[i] < n
    {
      assert t[i] in multiset(s);
    }
  }

  /** A symbol can be priced first wherever it stands. */
  lemma CodeCostMoved(weights: seq<nat>, code: seq<Word>, t: seq<nat>, k: nat)
    requires |code| == |weights| && k < |t| && Below(t, |weights|)
    ensures Below(t[..k] + t[k + 1..], |weights|)
    ensures CodeCost(weights, code, t)
         == WeightOf(weights, t[k]) * |code[t[k]]| + CodeCost(weights, code, t[..k] + t[k + 1..])
  {
    hide CodeCost;
    var a, b := t[..k], t[k + 1..];
    assert t == a + ([t[k]] + b);
    CodeCostAppend(weights, code, a, [t[k]] + b);
    CodeCostAppend(weights, code, [t[k]], b);
    CodeCostOne(weights, code, t[k]);
    CodeCostAppend(weights, code, a, b);
  }

  /** Every leaf of the tree carries its symbol's weight. */
  ghost predicate Weighted(t: Tree, weights: seq<nat>) {
    match t
    case Leaf(v, c) => v < |weights| && c == WeightOf(weights, v)
    case Node(l, r) => Weighted(l, weights) && Weighted(r, weights)
  }

  /** The price of the tree's own code is the tree's cost. */
  lemma {:induction false} CodedCost(t: Tree, pre: Word, table: seq<Word>, weights: seq<nat>)
    requires Coded(t, pre, table) && |table| == |weights| && Weighted(t, weights)
    ensures Below(Values(t), |weights|)
    ensures CodeCost(weights, table, Values(t)) == Cost(t) + Total(t) * |pre|
  {
    hide CodeCost;
    match t
    case Leaf(v, c) =>
      CodeCostOne(weights, table, v);
    case Node(l, r) =>
      CodedCost(l, pre + [false], table, weights);
      CodedCost(r, pre + [true], table, weights);
      CodeCostAppend(weights, table, Values(l), Values(r));
      OneLevelDown(Total(l), Total(r), |pre|);
  }

  lemma CodeCostOne(weights: seq<nat>, code: seq<Word>, v: nat)
    requires |code| == |weights| && v < |weights|
    ensures CodeCost(weights, code, [v]) == WeightOf(weights, v) * |code[v]|
  {
    assert [v][1..] == [];
  }

  lemma OneLevelDown(a: nat, b: nat, k: nat)
    ensures a * (k + 1) + b * (k + 1) == a + b + (a + b) * k
  {
  }

  lemma {:induction false} BuildWeighted(list: seq<Tree>, weights: seq<nat>)
    requires list != [] && forall t :: t in list ==> Weighted(t, weights)
    ensures Weighted(Build(list), weights)
    decreases |list|
  {
    if |list| > 1 {
      var t := Node(list[0], list[1]);
      var r := InsertSorted(t, list[2..]);
      InsertSortedElements(t, list[2..]);
      forall u | u in r
        ensures Weighted(u, weights)
      {
        assert u in multiset(r);
        assert u == t || u in list[2..];
      }
      BuildWeighted(r, weights);
    }
  }

  // ----- optimality

  /** The words of another code, in the order of a list of leaves. */
  function Pick(code: seq<Word>, list: seq<Tree>): (s: seq<Word>)
    requires forall i :: 0 <= i < |list| ==> list[i].Leaf? && list[i].value < |code|
    ensures |s| == |list|
  {
    seq(|list|, i requires 0 <= i < |list| => code[list[i].value])
  }

  lemma {:induction false} PickCost(weights: seq<nat>, code: seq<Word>, list: seq<Tree>)
    requires LeafList(weights, list) && |code| == |weights|
    ensures Below(ForestValues(list), |weights|)
    ensures Dot(WeightsOf(list), Lengths(Pick(code, list))) == CodeCost(weights, code, ForestValues(list))
  {
    if list != [] {
      PickCost(weights, code, list[1..]);
      assert Lengths(Pick(code, list))[1..] == Lengths(Pick(code, list[1..]));
      assert ForestValues(list) == [list[0].value] + ForestValues(list[1..]);
      assert ForestValues(list)[1..] == ForestValues(list[1..]);
    }
  }

  /** Distinct symbols pick distinct words, so the picked words are a prefix code too. */
  lemma PickPrefixFree(code: seq<Word>, list: seq<Tree>)
    requires forall i :: 0 <= i < |list| ==> list[i].Leaf? && list[i].value < |code|
    requires PrefixFree(code) && forall v :: multiset(ForestValues(list))[v] <= 1
    ensures PrefixFree(Pick(code, list))
  {
    forall i, j | 0 <= i < j < |list|
      ensures list[i].value != list[j].value
    {
      if list[i].value == list[j].value {
        TwoLeaves(list, i, j);
      }
    }
  }

  lemma {:induction false} TwoLeaves(list: seq<Tree>, i: nat, j: nat)
    requires i < j < |list| && list[i].Leaf? && list[j].Leaf? && list[i].value == list[j].value
    ensures multiset(ForestValues(list))[list[i].value] >= 2
  {
    if i == 0 {
      OneLeaf(list[1..], j - 1);
    } else {
      TwoLeaves(list[1..], i - 1, j - 1);
    }
  }

  lemma {:induction false} OneLeaf(list: seq<Tree>, j: nat)
    requires j < |list| && list[j].Leaf?
    ensures multiset(ForestValues(list))[list[j].value] >= 1
  {
    if j > 0 {
      OneLeaf(list[1..], j - 1);
    }
  }

  function LongestLength(code: seq<Word>): (m: nat)
    ensures AtMost(Lengths(code), m)
  {
    if code == [] then 0
    else
      var m := LongestLength(code[1..]);
      assert forall i :: 1 <= i < |code| ==> Lengths(code)[i] == Lengths(code[1..])[i - 1] <= m;
      if m < |code[0]| then |code[0]| else m
  }

  lemma IotaDistinct(n: nat)
    ensures forall v :: multiset(Iota(n))[v] <= 1
    ensures forall v :: v in Iota(n) <==> 0 <= v < n
  {
    if n > 0 {
      IotaDistinct(n - 1);
      assert Iota(n) == Iota(n - 1) + [n - 1];
    }
  }

  lemma CheapestCode(weights: seq<nat>, table: seq<Word>, code: seq<Word>)
    requires weights != [] && |table| == |code| == |weights|
    requires ForestTotal(Leaves(weights, |weights|)) < WEIGHT_RANGE
    requires Coded(HuffmanTree(weights), [], table)
    requires PrefixFree(code)
    ensures CodeCost(weights, table, Iota(|weights|)) <= CodeCost(weights, code, Iota(|weights|))
  {
    var n := |weights|;
    var list, t := Leaves(weights, n), HuffmanTree(weights);
    LeavesAscending(weights, n);
    LeavesAreLeaves(weights, n);
    LeavesValues(weights, n);
    BuildCost(list);
    BuildValues(list);
    BuildWeighted(list, weights);
    CodedCost(t, [], table, weights);
    CodeCostPermutation(weights, table, Iota(n), Values(t));
    IotaDistinct(n);
    PickPrefixFree(code, list);
    var words := Pick(code, list);
    var m := LongestLength(words);
    KraftInequality(words, m);
    MergeCostIsLeast(WeightsOf(list), Lengths(words), m);
    PickCost(weights, code, list);
    CodeCostPermutation(weights, code, Iota(n), ForestValues(list));
  }

  function Sum(s: seq<nat>): nat {
    if s == [] then 0 else Sum(s[..|s| - 1]) + s[|s| - 1]
  }

  /** The frequencies with every 0 raised to 1. */
  predicate Raised(weights: seq<nat>, ones: seq<nat>) {
    |ones| == |weights| && forall v :: 0 <= v < |weights| ==> ones[v] == if weights[v] == 0 then 1 else weights[v]
  }

  lemma {:induction false} TotalIsSum(weights: seq<nat>, ones: seq<nat>, n: nat)
    requires Raised(weights, ones) && n <= |weights|
    ensures ForestTotal(Leaves(weights, n)) == Sum(ones[..n])
  {
    hide InsertSorted;
    if n > 0 {
      TotalIsSum(weights, ones, n - 1);
      InsertSortedForest(LeafOf(weights, n - 1), Leaves(weights, n - 1));
      assert ones[..n][..n - 1] == ones[..n - 1];
    }
  }

  lemma {:induction false} CostIsDot(weights: seq<nat>, ones: seq<nat>, code: seq<Word>, k: nat)
    requires Raised(weights, ones) && |code| == |weights| && k <= |weights|
    ensures Below(Iota(|weights|)[k..], |weights|)
    ensures CodeCost(weights, code, Iota(|weights|)[k..]) == Dot(ones[k..], Lengths(code)[k..])
    decreases |weights| - k
  {
    if k < |weights| {
      CostIsDot(weights, ones, code, k + 1);
      assert Iota(|weights|)[k..][1..] == Iota(|weights|)[k + 1..];
      assert ones[k..][1..] == ones[k + 1..] && Lengths(code)[k..][1..] == Lengths(code)[k + 1..];
    }
  }

  /** Frequency times word length, summed up, is least for the generated code among all prefix codes. */
  lemma HuffmanIsOptimal(weights: seq<nat>, ones: seq<nat>, table: seq<Word>, code: seq<Word>)
    requires weights != [] && |table| == |code| == |weights| && Raised(weights, ones) && Sum(ones) < WEIGHT_RANGE
    requires Coded(HuffmanTree(weights), [], table)
    requires PrefixFree(code)
    ensures Dot(ones, Lengths(table)) <= Dot(ones, Lengths(code))
  {
    hide CodeCost, Dot, HuffmanTree, Coded, Leaves, PrefixFree;
    var n := |weights|;
    assert ones[..n] == ones && ones[0..] == ones && Iota(n)[0..] == Iota(n);
    assert Lengths(table)[0..] == Lengths(table) && Lengths(code)[0..] == Lengths(code);
    TotalIsSum(weights, ones, n);
    CostIsDot(weights, ones, table, 0);
    CostIsDot(weights, ones, code, 0);
    CheapestCode(weights, table, code);
  }

  /** For a table without zeros that is its own frequencies. */
  lemma HuffmanIsLeast(weights: seq<nat>, table: seq<Word>, code: seq<Word>)
    requires weights != [] && |table| == |code| == |weights| && Sum(weights) < WEIGHT_RANGE
    requires forall v :: 0 <= v < |weights| ==> weights[v] > 0
    requires Coded(HuffmanTree(weights), [], table) && PrefixFree(code)
    ensures Dot(weights, Lengths(table)) <= Dot(weights, Lengths(code))
  {
    HuffmanIsOptimal(weights, weights, table, code);
  }

  /** A frequency of 0 makes the same tree as 1. */
  lemma ZeroIsOne(weights: seq<nat>, v: nat)
    requires v < |weights| && weights[v] == 0
    ensures HuffmanTree(weights[v := 1]) == HuffmanTree(weights)
  {
    SameLeaves(weights, weights[v := 1], |weights|);
  }

  lemma {:induction false} SameLeaves(weights: seq<nat>, other: seq<nat>, n: nat)
    requires n <= |weights| == |other|
    requires forall v :: 0 <= v < |weights| ==> WeightOf(other, v) == WeightOf(weights, v)
    ensures Leaves(other, n) == Leaves(weights, n)
  {
    if n > 0 {
      SameLeaves(weights, other, n - 1);
    }
  }

  // ----- which tree it is

  /** The new tree goes behind all lighter ones and before the first that is not lighter. */
  lemma {:induction false} InsertedWhere(t: Tree, list: seq<Tree>) returns (k: nat)
    ensures k <= |list| && InsertSorted(t, list) == list[..k] + [t] + list[k..]
    ensures forall i :: 0 <= i < k ==> Weight(list[i]) < Weight(t)
    ensures k < |list| ==> Weight(list[k]) >= Weight(t)
  {
    if list == [] || Weight(list[0]) >= Weight(t) {
      k := 0;
    } else {
      var j := InsertedWhere(t, list[1..]);
      k := j + 1;
      assert list[..k] == [list[0]] + list[1..][..j] && list[k..] == list[1..][j..];
    }
  }

  /** At every node the lighter subtree is on the left, where the code has a 0 bit. */
  predicate LighterLeft(t: Tree) {
    t.Node? ==> Weight(t.left) <= Weight(t.right) && LighterLeft(t.left) && LighterLeft(t.right)
  }

  lemma {:induction false} BuildLighterLeft(list: seq<Tree>)
    requires list != [] && Ascending(WeightsOf(list)) && forall t :: t in list ==> LighterLeft(t)
    ensures LighterLeft(Build(list))
    decreases |list|
  {
    hide WeightsOf, InsertSorted, Ascending, Weight;
    if |list| > 1 {
      var t := Node(list[0], list[1]);
      var r := InsertSorted(t, list[2..]);
      FirstLighter(list);
      MergeAscending(list);
      InsertSortedElements(t, list[2..]);
      forall u | u in r
        ensures LighterLeft(u)
      {
        assert u in multiset(r);
        assert u == t || u in list[2..];
      }
      BuildLighterLeft(r);
    }
  }

  lemma FirstLighter(list: seq<Tree>)
    requires |list| >= 2 && Ascending(WeightsOf(list))
    ensures Weight(list[0]) <= Weight(list[1])
  {
    hide WeightsOf, Weight;
    WeightsAt(list, 0);
    WeightsAt(list, 1);
  }

  lemma HuffmanLighterLeft(weights: seq<nat>)
    requires weights != []
    ensures LighterLeft(HuffmanTree(weights))
  {
    var list := Leaves(weights, |weights|);
    LeavesAscending(weights, |weights|);
    LeavesAreLeaves(weights, |weights|);
    BuildLighterLeft(list);
  }

  // ----- shape of the code

  /** The words of a tree with distinct symbols are a prefix code. */
  lemma HuffmanPrefixFree(weights: seq<nat>, table: seq<Word>)
    requires |weights| >= 2 && |table| == |weights| && Coded(HuffmanTree(weights), [], table)
    ensures PrefixFree(table)
  {
    var t, n := HuffmanTree(weights), |weights|;
    AllSymbols(weights);
    NodeTree(weights);
    forall i, j | 0 <= i < n && 0 <= j < n && i != j
      ensures !(table[i] <= table[j])
    {
      WordsApart(t, table, i, j);
    }
  }

  /** The tree's leaves are the symbols. */
  lemma AllSymbols(weights: seq<nat>)
    requires weights != []
    ensures multiset(Values(HuffmanTree(weights))) == multiset(Iota(|weights|))
    ensures forall v :: 0 <= v < |weights| ==> v in Values(HuffmanTree(weights))
  {
    hide Values, HuffmanTree;
    var n, t := |weights|, HuffmanTree(weights);
    LeavesValues(weights, n);
    BuildValues(Leaves(weights, n));
    TreeIsBuilt(weights);
    IotaDistinct(n);
    forall v | 0 <= v < n
      ensures v in Values(t)
    {
      assert Iota(n)[v] == v;
      assert v in multiset(Iota(n));
    }
  }

  lemma TreeIsBuilt(weights: seq<nat>)
    requires weights != []
    ensures HuffmanTree(weights) == Build(Leaves(weights, |weights|))
  {
  }

  lemma NodeTree(weights: seq<nat>)
    requires |weights| >= 2
    ensures HuffmanTree(weights).Node?
  {
    BuildNode(Leaves(weights, |weights|));
  }

  lemma {:induction false} BuildNode(list: seq<Tree>)
    requires list != [] && (|list| >= 2 || list[0].Node?)
    ensures Build(list).Node?
    decreases |list|
  {
    if |list| >= 2 {
      var t := Node(list[0], list[1]);
      BuildNode(InsertSorted(t, list[2..]));
    }
  }

  lemma WordsApart(t: Tree, table: seq<Word>, u: nat, v: nat)
    requires t.Node? && Coded(t, [], table) && u in Values(t) && v in Values(t) && u != v
    ensures u < |table| && v < |table| && !(table[u] <= table[v])
  {
    DecodeWord(t, t, [], table, u, []);
    DecodeWord(t, t, [], table, v, []);
    assert table[u][0..] + [] == table[u] && table[v][0..] + [] == table[v];
    assert Decode(t, t, table[u]).0[0] == u && Decode(t, t, table[v]).0[0] == v;
    assert table[u] != table[v];
    assert [] + table[u] == table[u];
    if table[u] <= table[v] {
      DecodePartial(t, t, [], table, v, table[u]);
    }
  }

  /** Among more than 2^m leaves some word has more than m bits. */
  lemma {:induction false} LongWord(t: Tree, pre: Word, table: seq<Word>, m: nat) returns (v: nat)
    requires Coded(t, pre, table) && |Values(t)| > Pow2(m)
    ensures v in Values(t) && v < |table| && |table[v]| > |pre| + m
    decreases t
  {
    match t
    case Leaf(_, _) =>
    case Node(l, r) =>
      if m == 0 {
        v := AnyWord(l, pre + [false], table);
      } else if |Values(l)| > Pow2(m - 1) {
        v := LongWord(l, pre + [false], table, m - 1);
      } else {
        v := LongWord(r, pre + [true], table, m - 1);
      }
  }

  lemma {:induction false} AnyWord(t: Tree, pre: Word, table: seq<Word>) returns (v: nat)
    requires Coded(t, pre, table)
    ensures v in Values(t) && v < |table| && |table[v]| >= |pre|
  {
    match t
    case Leaf(u, _) => v := u;
    case Node(l, _) => v := AnyWord(l, pre + [false], table);
  }

}

/** The linked nodes of a Huffman tree, and the sorted list they are merged in. */
module HuffmanNodes {
  import opened HuffmanTrees

  class HuffmanNode {
    var value: nat
    var weight: nat
    var left: HuffmanNode?
    var right: HuffmanNode?
    var parent: HuffmanNode?

    constructor (value: nat, weight: nat, left: HuffmanNode?, right: HuffmanNode?)
      ensures this.value == value && this.weight == weight
      ensures this.left == left && this.right == right && parent == null
    {
      this.value := value;
      this.weight := weight;
      this.left := left;
      this.right := right;
      parent := null;
    }
  }

  /** How nodes hang together. */
  datatype Shape = Tip(n: HuffmanNode) | Fork(n: HuffmanNode, l: Shape, r: Shape)

  ghost function Nodes(s: Shape): (r: set<HuffmanNode>)
    ensures s.n in r
  {
    match s
    case Tip(n) => {n}
    case Fork(n, l, r) => {n} + Nodes(l) + Nodes(r)
  }

  ghost function Tips(s: Shape): (r: set<HuffmanNode>)
    ensures r <= Nodes(s)
  {
    match s
    case Tip(n) => {n}
    case Fork(n, l, r) => Tips(l) + Tips(r)
  }

  /** The pointers agree with the shape, and the stored weights with the tree. */
  ghost predicate Linked(s: Shape)
    reads Nodes(s)
  {
    match s
    case Tip(n) => n.left == null && n.right == null
    case Fork(n, l, r) =>
      && n.left == l.n && n.right == r.n && l.n.parent == n && r.n.parent == n
      && n !in Nodes(l) && n !in Nodes(r) && Nodes(l) !! Nodes(r)
      && Linked(l) && Linked(r)
      && n.weight == Weight(TreeOf(s))
  }

  ghost function TreeOf(s: Shape): Tree
    reads Nodes(s)
  {
    match s
    case Tip(n) => Leaf(n.value, n.weight)
    case Fork(n, l, r) => Node(TreeOf(l), TreeOf(r))
  }

  lemma StoredWeight(s: Shape)
    requires Linked(s)
    ensures s.n.weight == Weight(TreeOf(s))
  {
  }

  /** A tree does not notice a change of its root's parent pointer. */
  twostate lemma {:induction false} ParentIrrelevant(s: Shape)
    requires old(Linked(s))
    requires forall n :: n in Nodes(s) ==> old(allocated(n))
    requires forall n :: n in Nodes(s) ==>
               n.value == old(n.value) && n.weight == old(n.weight) && n.left == old(n.left) && n.right == old(n.right)
    requires forall n :: n in Nodes(s) && n != s.n ==> n.parent == old(n.parent)
    ensures Linked(s) && TreeOf(s) == old(TreeOf(s))
  {
    if s.Fork? {
      ParentIrrelevant(s.l);
      ParentIrrelevant(s.r);
    }
  }

  lemma {:induction false} NodesAllocated(s: Shape)
    ensures forall n :: n in Nodes(s) ==> allocated(n)
  {
    if s.Fork? {
      NodesAllocated(s.l);
      NodesAllocated(s.r);
    }
  }

  lemma {:induction false} ListAllocated(shapes: seq<Shape>)
    ensures forall n :: n in AllNodes(shapes) ==> allocated(n)
  {
    if shapes != [] {
      NodesAllocated(shapes[0]);
      ListAllocated(shapes[1..]);
    }
  }

  // ----- a list of trees

  ghost function AllNodes(shapes: seq<Shape>): set<HuffmanNode> {
    if shapes == [] then {} else Nodes(shapes[0]) + AllNodes(shapes[1..])
  }

  ghost function AllTips(shapes: seq<Shape>): (r: set<HuffmanNode>)
    ensures r <= AllNodes(shapes)
  {
    if shapes == [] then {} else Tips(shapes[0]) + AllTips(shapes[1..])
  }

  /** The list holds the roots of the shapes, which share no nodes. */
  ghost predicate Forest(list: seq<HuffmanNode>, shapes: seq<Shape>)
    reads AllNodes(shapes)
  {
    if list == [] || shapes == [] then |list| == |shapes|
    else
      && list[0] == shapes[0].n && Linked(shapes[0])
      && Nodes(shapes[0]) !! AllNodes(shapes[1..])
      && Forest(list[1..], shapes[1..])
  }

  ghost function Trees(shapes: seq<Shape>): (r: seq<Tree>)
    reads AllNodes(shapes)
    ensures |r| == |shapes|
  {
    if shapes == [] then [] else [TreeOf(shapes[0])] + Trees(shapes[1..])
  }

  lemma {:induction false} ForestWeights(list: seq<HuffmanNode>, shapes: seq<Shape>, k: nat)
    requires Forest(list, shapes) && k < |list|
    ensures |shapes| == |list| && list[k].weight == Weight(Trees(shapes)[k])
  {
    hide TreeOf, Weight;
    ForestSize(list, shapes);
    StoredWeight(shapes[0]);
    if k > 0 {
      ForestWeights(list[1..], shapes[1..], k - 1);
    }
  }

  lemma {:induction false} ForestSize(list: seq<HuffmanNode>, shapes: seq<Shape>)
    requires Forest(list, shapes)
    ensures |shapes| == |list|
  {
    if list != [] && shapes != [] {
      ForestSize(list[1..], shapes[1..]);
    }
  }

  lemma InsertedBehind<T>(list: seq<T>, x: T, k: nat)
    requires 0 < k <= |list|
    ensures var r := list[..k] + [x] + list[k..];
            r[0] == list[0] && r[1..] == list[1..][..k - 1] + [x] + list[1..][k - 1..]
  {
    assert list[1..][..k - 1] == list[1..k];
    assert list[1..][k - 1..] == list[k..];
  }

  lemma ListCons(list: seq<HuffmanNode>, shapes: seq<Shape>)
    requires list != [] && shapes != []
    ensures Forest(list, shapes) <==>
              && list[0] == shapes[0].n && Linked(shapes[0])
              && Nodes(shapes[0]) !! AllNodes(shapes[1..]) && Forest(list[1..], shapes[1..])
    ensures AllNodes(shapes) == Nodes(shapes[0]) + AllNodes(shapes[1..])
    ensures AllTips(shapes) == Tips(shapes[0]) + AllTips(shapes[1..])
    ensures Trees(shapes) == [TreeOf(shapes[0])] + Trees(shapes[1..])
  {
    hide Linked, TreeOf, Nodes, Tips;
  }

  /** Where the insertion scan stops, in terms of the list of trees. */
  lemma {:induction false} InsertSortedAt(s: Shape, list: seq<HuffmanNode>, shapes: seq<Shape>, k: nat)
    requires Forest(list, shapes) && Linked(s) && Nodes(s) !! AllNodes(shapes)
    requires k <= |list| == |shapes| && forall i :: 0 <= i < k ==> list[i].weight < s.n.weight
    requires k < |list| ==> list[k].weight >= s.n.weight
    ensures var r := shapes[..k] + [s] + shapes[k..];
            && Forest(list[..k] + [s.n] + list[k..], r)
            && AllNodes(r) == AllNodes(shapes) + Nodes(s) && AllTips(r) == AllTips(shapes) + Tips(s)
            && Trees(r) == InsertSorted(TreeOf(s), Trees(shapes))
  {
    hide Linked, TreeOf, Weight, Nodes, Tips, Forest, AllNodes, AllTips, Trees;
    var r, l := shapes[..k] + [s] + shapes[k..], list[..k] + [s.n] + list[k..];
    ListCons(l, r);
    if list != [] {
      ForestWeights(list, shapes, 0);
      ListCons(list, shapes);
    }
    StoredWeight(s);
    if k == 0 {
      assert r == [s] + shapes && l == [s.n] + list;
      assert r[1..] == shapes && l[1..] == list;
    } else {
      InsertSortedAt(s, list[1..], shapes[1..], k - 1);
      InsertedBehind(shapes, s, k);
      InsertedBehind(list, s.n, k);
      assert Trees(shapes)[1..] == Trees(shapes[1..]);
    }
  }

  /** The scan for the first node that is not lighter; the node goes in front of it, or to the end. */
  method InsertNodeIntoSortedList(node: HuffmanNode, list: seq<HuffmanNode>, ghost s: Shape, ghost shapes: seq<Shape>)
    returns (result: seq<HuffmanNode>, ghost resultShapes: seq<Shape>)
    requires Forest(list, shapes) && Linked(s) && s.n == node && Nodes(s) !! AllNodes(shapes)
    ensures Forest(result, resultShapes) && |result| == |list| + 1
    ensures AllNodes(resultShapes) == AllNodes(shapes) + Nodes(s)
    ensures AllTips(resultShapes) == AllTips(shapes) + Tips(s)
    ensures Trees(resultShapes) == old(InsertSorted(TreeOf(s), Trees(shapes)))
  {
    hide *;
    ForestSize(list, shapes);
    var k := 0;
    while k < |list| && list[k].weight < node.weight
      invariant k <= |list|
      invariant forall i :: 0 <= i < k ==> list[i].weight < node.weight
    {
      k := k + 1;
    }
    result, resultShapes := list[..k] + [node] + list[k..], shapes[..k] + [s] + shapes[k..];
    InsertSortedAt(s, list, shapes, k);
  }

  /** Links two trees under a new node whose stored weight may wrap. */
  method Merge(lesser: HuffmanNode, greater: HuffmanNode, ghost sl: Shape, ghost sg: Shape)
    returns (node: HuffmanNode, ghost s: Shape)
    requires Linked(sl) && sl.n == lesser && Linked(sg) && sg.n == greater && Nodes(sl) !! Nodes(sg)
    modifies lesser`parent, greater`parent
    ensures fresh(node) && node.parent == null
    ensures s == Fork(node, sl, sg) && Linked(s)
    ensures TreeOf(s) == Node(old(TreeOf(sl)), old(TreeOf(sg)))
  {
    hide Nodes;
    StoredWeight(sl);
    StoredWeight(sg);
    NodesAllocated(sl);
    NodesAllocated(sg);
    node := new HuffmanNode(0, (lesser.weight + greater.weight) % WEIGHT_RANGE, lesser, greater);
    lesser.parent := node;
    greater.parent := node;
    s := Fork(node, sl, sg);
    ParentIrrelevant(sl);
    ParentIrrelevant(sg);
  }

  lemma FirstTwoShapes(list: seq<HuffmanNode>, shapes: seq<Shape>)
    requires Forest(list, shapes) && |list| >= 2
    ensures |shapes| == |list| && list[0] == shapes[0].n && list[1] == shapes[1].n
    ensures Linked(shapes[0]) && Linked(shapes[1]) && Nodes(shapes[0]) !! Nodes(shapes[1])
    ensures Forest(list[2..], shapes[2..])
    ensures Nodes(shapes[0]) !! AllNodes(shapes[2..]) && Nodes(shapes[1]) !! AllNodes(shapes[2..])
    ensures Trees(shapes) == [TreeOf(shapes[0]), TreeOf(shapes[1])] + Trees(shapes[2..])
    ensures AllNodes(shapes) == Nodes(shapes[0]) + Nodes(shapes[1]) + AllNodes(shapes[2..])
    ensures AllTips(shapes) == Tips(shapes[0]) + Tips(shapes[1]) + AllTips(shapes[2..])
  {
    hide Linked, TreeOf, Nodes, Tips;
    ForestSize(list, shapes);
    assert list[1..][1..] == list[2..] && shapes[1..][1..] == shapes[2..];
    assert list[1..][0] == list[1] && shapes[1..][0] == shapes[1];
  }

  lemma NoShapes(shapes: seq<Shape>)
    requires shapes == []
    ensures AllNodes(shapes) == {} && AllTips(shapes) == {}
  {
  }

  lemma BuildStep(list: seq<Tree>)
    requires |list| >= 2
    ensures Build(list) == Build(InsertSorted(Node(list[0], list[1]), list[2..]))
    ensures |list| == 2 ==> Build(list) == Node(list[0], list[1])
  {
    if |list| == 2 {
      assert InsertSorted(Node(list[0], list[1]), list[2..]) == [Node(list[0], list[1])];
    }
  }

  /** Merges the two first trees of the list until one is left, which becomes the root. */
  method MergeAll(list0: seq<HuffmanNode>, ghost shapes0: seq<Shape>) returns (root: HuffmanNode, ghost s: Shape)
    requires |list0| >= 2 && Forest(list0, shapes0)
    modifies AllNodes(shapes0)`parent
    ensures Linked(s) && s.Fork? && s.n == root && root.parent == null
    ensures |shapes0| == |list0| && TreeOf(s) == Build(old(Trees(shapes0)))
    ensures Tips(s) == AllTips(shapes0) && fresh(Nodes(s) - AllNodes(shapes0))
  {
    hide Linked, TreeOf, Weight, InsertSorted, Forest, Trees, AllNodes, AllTips, Build;
    var list := list0;
    ghost var shapes := shapes0;
    ForestSize(list, shapes);
    while true
      invariant |list| >= 2 && |shapes| == |list| && Forest(list, shapes)
      invariant Trees(shapes) != [] && Build(Trees(shapes)) == Build(old(Trees(shapes0)))
      invariant AllTips(shapes) == AllTips(shapes0) && fresh(AllNodes(shapes) - AllNodes(shapes0))
      decreases |list|
    {
      FirstTwoShapes(list, shapes);
      var lesser, greater := list[0], list[1];
      ghost var trees, rest := Trees(shapes), shapes[2..];
      ghost var restTrees := Trees(rest);
      assert trees[2..] == restTrees;
      NodesAllocated(shapes[0]);
      ListAllocated(rest);
      var node, t := Merge(lesser, greater, shapes[0], shapes[1]);
      assert Trees(rest) == restTrees;
      BuildStep(trees);
      assert TreeOf(t) == Node(trees[0], trees[1]);
      ghost var merged := InsertSorted(TreeOf(t), Trees(rest));
      assert Build(merged) == Build(trees);
      if |list| == 2 {
        NoShapes(rest);
        root, s := node, t;
        return;
      }
      list, shapes := InsertNodeIntoSortedList(node, list[2..], t, rest);
    }
  }
}

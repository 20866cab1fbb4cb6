/**
 * Trees linked by pointers.  A shape says which node is where; the lemmas say
 * what the pointers form after some of them have been changed.
 */
module LinkedTrees {
  import opened BinaryTrees
  import opened TreeClimbs
  import opened TreeRemovals

  datatype Direction = NotFound | Left | Right | Root

  class TreeNode {
    var item: int
    var left: TreeNode?
    var right: TreeNode?

    constructor (item: int)
      ensures this.item == item && left == null && right == null
    {
      this.item := item;
      left, right := null, null;
    }
  }

  type Shape = Tree<TreeNode>

  ghost function RootOf(s: Shape): TreeNode? {
    if s.Empty? then null else s.ref
  }

  ghost function Nodes(s: Shape): (r: set<TreeNode>)
    ensures s.Node? ==> s.ref in r
  {
    if s.Empty? then {} else {s.ref} + Nodes(s.left) + Nodes(s.right)
  }

  /** Every node is in one place only. */
  ghost predicate Distinct(s: Shape) {
    s.Node? ==>
      && s.ref !in Nodes(s.left) && s.ref !in Nodes(s.right) && Nodes(s.left) !! Nodes(s.right)
      && Distinct(s.left) && Distinct(s.right)
  }

  /** The nodes hold the items and are linked as the shape says. */
  ghost predicate Linked(s: Shape)
    reads Nodes(s)
  {
    s.Node? ==>
      && s.ref.item == s.item && s.ref.left == RootOf(s.left) && s.ref.right == RootOf(s.right)
      && Linked(s.left) && Linked(s.right)
  }

  // ----- parts of the structure

  lemma {:induction false} LinkedAt(s: Shape, p: Path)
    requires Linked(s) && HasPath(s, p)
    ensures Linked(At(s, p))
    ensures var t := At(s, p);
            t.Node? ==>
              && t.ref.item == t.item && t.ref.left == RootOf(t.left) && t.ref.right == RootOf(t.right)
              && Linked(t.left) && Linked(t.right)
  {
    if p != [] {
      LinkedAt(Child(s, p[0]), p[1..]);
    }
  }

  lemma {:induction false} NodesAt(s: Shape, p: Path)
    requires HasPath(s, p)
    ensures Nodes(At(s, p)) <= Nodes(s)
    ensures Distinct(s) ==> Distinct(At(s, p))
  {
    if p != [] {
      NodesAt(Child(s, p[0]), p[1..]);
    }
  }

  lemma {:induction false} NodesAllocated(s: Shape)
    ensures forall n :: n in Nodes(s) ==> allocated(n)
  {
    if s.Node? {
      NodesAllocated(s.left);
      NodesAllocated(s.right);
    }
  }

  twostate lemma {:induction false} Untouched(s: Shape)
    requires old(Linked(s))
    requires forall n :: n in Nodes(s) ==> old(allocated(n))
    requires forall n :: n in Nodes(s) ==> n.item == old(n.item) && n.left == old(n.left) && n.right == old(n.right)
    ensures Linked(s)
  {
    if s.Node? {
      Untouched(s.left);
      Untouched(s.right);
    }
  }

  /** A node above the place p is not below it. */
  lemma {:induction false} ParentOutside(s: Shape, p: Path)
    requires Distinct(s) && HasPath(s, p) && p != []
    ensures HasPath(s, Parent(p)) && At(s, Parent(p)).Node?
    ensures At(s, Parent(p)).ref in Nodes(s) - Nodes(At(s, p))
  {
    ParentNode(s, p);
    NodesAt(s, Parent(p));
    var t := At(s, Parent(p));
    assert t.ref in Nodes(t);
  }

  lemma {:induction false} ReplacedNodes(s: Shape, p: Path, u: Shape)
    requires Distinct(s) && HasPath(s, p) && Distinct(u) && Nodes(u) !! (Nodes(s) - Nodes(At(s, p)))
    ensures Nodes(Replace(s, p, u)) == Nodes(s) - Nodes(At(s, p)) + Nodes(u)
    ensures Distinct(Replace(s, p, u))
  {
    if p != [] {
      NodesAt(Child(s, p[0]), p[1..]);
      ReplacedNodes(Child(s, p[0]), p[1..], u);
    }
  }

  /** Whether the place p hangs on the given side of the node n. */
  ghost predicate HangsOn(s: Shape, p: Path, n: TreeNode, right: bool)
    requires HasPath(s, p)
  {
    p != [] && HasPath(s, Parent(p)) && RootOf(At(s, Parent(p))) == n && right == Last(p)
  }

  /** Outside the place p, only the pointer to it has been changed, to the root of u. */
  twostate predicate OnlyHung(new s: Shape, new p: Path, new u: Shape, n: TreeNode)
    requires HasPath(s, p)
    reads n
  {
    && n.item == old(n.item)
    && (if HangsOn(s, p, n, false) then n.left == RootOf(u) else n.left == old(n.left))
    && (if HangsOn(s, p, n, true) then n.right == RootOf(u) else n.right == old(n.right))
  }

  /** Hanging in a linked structure at the place p, and changing nothing else outside that place. */
  twostate lemma {:induction false} Relinked(s: Shape, new p: Path, new u: Shape)
    requires old(Linked(s)) && Distinct(s) && HasPath(s, p)
    requires forall n :: n in Nodes(s) ==> old(allocated(n))
    requires forall n :: n in Nodes(s) - Nodes(At(s, p)) ==> OnlyHung(s, p, u, n)
    ensures Linked(u) ==> Linked(Replace(s, p, u))
    decreases |p|
  {
    if p != [] {
      var c, o := Child(s, p[0]), Child(s, !p[0]);
      hide HangsOn, Distinct, Nodes;
      OtherNodesUnhung(s, p);
      forall n | n in Nodes(c) - Nodes(At(c, p[1..]))
        ensures OnlyHung(c, p[1..], u, n)
      {
        assert OnlyHung(s, p, u, n);
      }
      forall n | n in Nodes(o)
        ensures n.item == old(n.item) && n.left == old(n.left) && n.right == old(n.right)
      {
        assert OnlyHung(s, p, u, n);
      }
      assert OnlyHung(s, p, u, s.ref);
      Untouched(o);
      DistinctChild(s, p[0]);
      Relinked(c, p[1..], u);
    }
  }

  lemma DistinctChild(s: Shape, right: bool)
    requires s.Node? && Distinct(s)
    ensures Distinct(Child(s, right)) && Nodes(Child(s, right)) <= Nodes(s)
  {
  }

  /** Nothing hangs on the nodes of the other child, and the same things hang on those of the child. */
  lemma OtherNodesUnhung(s: Shape, p: Path)
    requires Distinct(s) && HasPath(s, p) && p != []
    ensures forall n, b :: n in Nodes(Child(s, !p[0])) ==> !HangsOn(s, p, n, b)
    ensures forall n, b :: n in Nodes(Child(s, p[0])) ==> HangsOn(s, p, n, b) == HangsOn(Child(s, p[0]), p[1..], n, b)
    ensures forall b :: HangsOn(s, p, s.ref, b) <==> |p| == 1 && b == p[0]
    ensures forall n :: n in Nodes(Child(s, !p[0])) ==> n in Nodes(s) && n in Nodes(s) - Nodes(At(s, p))
    ensures forall n :: n in Nodes(Child(s, p[0])) - Nodes(At(s, p)) ==>
              n in Nodes(s) && n in Nodes(s) - Nodes(At(s, p))
    ensures s.ref in Nodes(s) - Nodes(At(s, p)) && At(Child(s, p[0]), p[1..]) == At(s, p)
  {
    ParentNode(s, p);
    NodesAt(Child(s, p[0]), p[1..]);
    if |p| > 1 {
      ParentBelow(s, p);
    }
  }

  /** The parent of a place more than one step down is in the child's nodes. */
  lemma ParentBelow(s: Shape, p: Path)
    requires HasPath(s, p) && |p| > 1
    ensures HasPath(s, Parent(p)) && At(s, Parent(p)).Node?
    ensures HasPath(Child(s, p[0]), Parent(p[1..])) && At(Child(s, p[0]), Parent(p[1..])) == At(s, Parent(p))
    ensures Last(p[1..]) == Last(p)
    ensures At(s, Parent(p)).ref in Nodes(Child(s, p[0]))
  {
    ParentNode(s, p);
    assert Parent(p)[1..] == Parent(p[1..]);
    NodesAt(Child(s, p[0]), Parent(p[1..]));
    var t := At(s, Parent(p));
    assert t.ref in Nodes(t);
  }

  lemma HangsOnParent(s: Shape, q: Path, b: bool)
    requires HasPath(s, q) && At(s, q).Node?
    ensures HasPath(s, q + [b]) && forall n, r :: HangsOn(s, q + [b], n, r) <==> n == At(s, q).ref && r == b
  {
    Step(s, q, b);
  }

  /** A new leaf in the structure. */
  twostate lemma LeafHung(s: Shape, new q: Path, new b: bool, new node: TreeNode, new x: int)
    requires old(Linked(s)) && Distinct(s) && HasPath(s, q) && At(s, q).Node? && Child(At(s, q), b).Empty?
    requires forall n :: n in Nodes(s) ==> old(allocated(n))
    requires node !in Nodes(s) && node.item == x && node.left == null && node.right == null
    requires forall n :: n in Nodes(s) ==>
               && n.item == old(n.item)
               && n.left == (if n == At(s, q).ref && !b then node else old(n.left))
               && n.right == (if n == At(s, q).ref && b then node else old(n.right))
    ensures HasPath(s, q + [b])
    ensures var r := Replace(s, q + [b], Single(node, x));
            Linked(r) && Distinct(r) && Nodes(r) == Nodes(s) + {node} && RootOf(r) == RootOf(s)
  {
    hide Sorted, HangsOn;
    var u := Single(node, x);
    SingleWell(node, x);
    HangsOnParent(s, q, b);
    Step(s, q, b);
    assert Nodes(At(s, q + [b])) == {};
    ReplacedNodes(s, q + [b], u);
    Relinked(s, q + [b], u);
  }

  /** The pointers after the right child of the place q has moved up. */
  ghost predicate TurnedLeft(s: Shape, q: Path, n: TreeNode, wasLeft: TreeNode?, wasRight: TreeNode?)
    requires HasPath(s, q) && At(s, q).Node? && At(s, q).right.Node?
    reads n
  {
    var t := At(s, q);
    && n.left == (if n == t.right.ref then t.ref else if HangsOn(s, q, n, false) then t.right.ref else wasLeft)
    && n.right == (if n == t.ref then RootOf(t.right.left)
                  else if HangsOn(s, q, n, true) then t.right.ref else wasRight)
  }

  ghost predicate TurnedRight(s: Shape, q: Path, n: TreeNode, wasLeft: TreeNode?, wasRight: TreeNode?)
    requires HasPath(s, q) && At(s, q).Node? && At(s, q).left.Node?
    reads n
  {
    var t := At(s, q);
    && n.right == (if n == t.left.ref then t.ref else if HangsOn(s, q, n, true) then t.left.ref else wasRight)
    && n.left == (if n == t.ref then RootOf(t.left.right) else if HangsOn(s, q, n, false) then t.left.ref else wasLeft)
  }

  /** Nothing hangs a place on the nodes below it. */
  lemma HungFromOutside(s: Shape, q: Path)
    requires Distinct(s) && HasPath(s, q)
    ensures forall n, b :: n in Nodes(At(s, q)) ==> !HangsOn(s, q, n, b)
    ensures Nodes(At(s, q)) <= Nodes(s) && Distinct(At(s, q))
  {
    NodesAt(s, q);
    if q != [] {
      ParentOutside(s, q);
    }
  }

  lemma LeftDistinct(t: Shape)
    requires Distinct(t) && t.Node? && t.right.Node?
    ensures Distinct(RotatedLeft(t)) && Nodes(RotatedLeft(t)) == Nodes(t)
    ensures t.ref in Nodes(t) && t.right.ref in Nodes(t) && t.ref != t.right.ref
    ensures Nodes(t.left) <= Nodes(t) - {t.ref, t.right.ref}
    ensures Nodes(t.right.left) <= Nodes(t) - {t.ref, t.right.ref} &&
            Nodes(t.right.right) <= Nodes(t) - {t.ref, t.right.ref}
  {
  }

  lemma LeftLinked(t: Shape)
    requires t.Node? && t.right.Node? && Linked(t.left) && Linked(t.right.left) && Linked(t.right.right)
    requires t.ref.item == t.item && t.ref.left == RootOf(t.left) && t.ref.right == RootOf(t.right.left)
    requires t.right.ref.item == t.right.item && t.right.ref.left == t.ref && t.right.ref.right == RootOf(t.right.right)
    ensures Linked(RotatedLeft(t))
  {
  }

  twostate lemma LeftTurned(t: Shape)
    requires old(Linked(t)) && Distinct(t) && t.Node? && t.right.Node?
    requires forall n :: n in Nodes(t) ==> old(allocated(n))
    requires forall n :: n in Nodes(t) ==>
               && n.item == old(n.item)
               && n.left == (if n == t.right.ref then t.ref else old(n.left))
               && n.right == (if n == t.ref then RootOf(t.right.left) else old(n.right))
    ensures Linked(RotatedLeft(t))
  {
    hide Distinct;
    LeftDistinct(t);
    Untouched(t.left);
    Untouched(t.right.left);
    Untouched(t.right.right);
    LeftLinked(t);
  }

  /** The right child of the place q has moved up. */
  twostate lemma LeftRotated(s: Shape, new q: Path)
    requires old(Linked(s)) && Distinct(s) && HasPath(s, q) && At(s, q).Node? && At(s, q).right.Node?
    requires forall n :: n in Nodes(s) ==> old(allocated(n))
    requires forall n :: n in Nodes(s) ==> n.item == old(n.item) && TurnedLeft(s, q, n, old(n.left), old(n.right))
    ensures var r := Replace(s, q, RotatedLeft(At(s, q)));
            Linked(r) && Distinct(r) && Nodes(r) == Nodes(s)
  {
    hide Linked, Distinct, HangsOn;
    var t := At(s, q);
    HungFromOutside(s, q);
    WasLinkedAt(s, q);
    LeftTurned(t);
    LeftDistinct(t);
    ReplacedNodes(s, q, RotatedLeft(t));
    Relinked(s, q, RotatedLeft(t));
  }

  lemma RightDistinct(t: Shape)
    requires Distinct(t) && t.Node? && t.left.Node?
    ensures Distinct(RotatedRight(t)) && Nodes(RotatedRight(t)) == Nodes(t)
    ensures t.ref in Nodes(t) && t.left.ref in Nodes(t) && t.ref != t.left.ref
    ensures Nodes(t.right) <= Nodes(t) - {t.ref, t.left.ref}
    ensures Nodes(t.left.left) <= Nodes(t) - {t.ref, t.left.ref} &&
            Nodes(t.left.right) <= Nodes(t) - {t.ref, t.left.ref}
  {
  }

  lemma RightLinked(t: Shape)
    requires t.Node? && t.left.Node? && Linked(t.right) && Linked(t.left.left) && Linked(t.left.right)
    requires t.ref.item == t.item && t.ref.right == RootOf(t.right) && t.ref.left == RootOf(t.left.right)
    requires t.left.ref.item == t.left.item && t.left.ref.right == t.ref && t.left.ref.left == RootOf(t.left.left)
    ensures Linked(RotatedRight(t))
  {
  }

  twostate lemma RightTurned(t: Shape)
    requires old(Linked(t)) && Distinct(t) && t.Node? && t.left.Node?
    requires forall n :: n in Nodes(t) ==> old(allocated(n))
    requires forall n :: n in Nodes(t) ==>
               && n.item == old(n.item)
               && n.right == (if n == t.left.ref then t.ref else old(n.right))
               && n.left == (if n == t.ref then RootOf(t.left.right) else old(n.left))
    ensures Linked(RotatedRight(t))
  {
    hide Distinct;
    RightDistinct(t);
    Untouched(t.right);
    Untouched(t.left.left);
    Untouched(t.left.right);
    RightLinked(t);
  }

  /** The left child of the place q has moved up. */
  twostate lemma RightRotated(s: Shape, new q: Path)
    requires old(Linked(s)) && Distinct(s) && HasPath(s, q) && At(s, q).Node? && At(s, q).left.Node?
    requires forall n :: n in Nodes(s) ==> old(allocated(n))
    requires forall n :: n in Nodes(s) ==> n.item == old(n.item) && TurnedRight(s, q, n, old(n.left), old(n.right))
    ensures var r := Replace(s, q, RotatedRight(At(s, q)));
            Linked(r) && Distinct(r) && Nodes(r) == Nodes(s)
  {
    hide Linked, Distinct, HangsOn;
    var t := At(s, q);
    HungFromOutside(s, q);
    WasLinkedAt(s, q);
    RightTurned(t);
    RightDistinct(t);
    ReplacedNodes(s, q, RotatedRight(t));
    Relinked(s, q, RotatedRight(t));
  }

  twostate lemma {:induction false} WasLinkedAt(s: Shape, new p: Path)
    requires old(Linked(s)) && HasPath(s, p)
    ensures old(Linked(At(s, p)))
    decreases |p|
  {
    if p != [] {
      WasLinkedAt(Child(s, p[0]), p[1..]);
    }
  }

  twostate lemma LeafAdded(s: Shape, new q: Path, new b: bool, new node: TreeNode, new x: int)
    requires old(Linked(s)) && Distinct(s) && HasPath(s, q) && At(s, q).Node? && Child(At(s, q), b).Empty?
    requires Sorted(s) && PathTo(s, x) == q + [b]
    requires forall n :: n in Nodes(s) ==> old(allocated(n))
    requires node !in Nodes(s) && node.item == x && node.left == null && node.right == null
    requires forall n :: n in Nodes(s) ==>
               && n.item == old(n.item)
               && n.left == (if n == At(s, q).ref && !b then node else old(n.left))
               && n.right == (if n == At(s, q).ref && b then node else old(n.right))
    ensures var r := Replace(s, q + [b], Single(node, x));
            && Linked(r) && Distinct(r) && Nodes(r) == Nodes(s) + {node} && RootOf(r) == RootOf(s)
            && Sorted(r) && |InOrder(r)| == |InOrder(s)| + 1
  {
    hide Linked, Distinct, Nodes, Sorted, InOrder, Replace;
    LeafHung(s, q, b, node, x);
    Step(s, q, b);
    InsertSorted(s, x, node);
    InsertSize(s, q + [b], x, node);
  }

  lemma SkippedNodes(s: Shape, q: Path)
    requires Distinct(s) && HasPath(s, q) && AtMostOneChild(At(s, q))
    ensures var r := Replace(s, q, OnlyChild(At(s, q)));
            Distinct(r) && Nodes(r) == Nodes(s) - {At(s, q).ref}
    ensures At(s, q).ref in Nodes(s)
  {
    var t := At(s, q);
    NodesAt(s, q);
    assert Nodes(t) == {t.ref} + Nodes(OnlyChild(t));
    ReplacedNodes(s, q, OnlyChild(t));
  }

  /** The node at the place q, with at most one child, is no longer linked. */
  twostate lemma Skipped(s: Shape, new q: Path)
    requires old(Linked(s)) && Distinct(s) && HasPath(s, q) && AtMostOneChild(At(s, q))
    requires forall n :: n in Nodes(s) ==> old(allocated(n))
    requires forall n :: n in Nodes(s) ==> OnlyHung(s, q, OnlyChild(At(s, q)), n)
    ensures Linked(Replace(s, q, OnlyChild(At(s, q))))
  {
    var t := At(s, q);
    var u := OnlyChild(t);
    HungFromOutside(s, q);
    WasLinkedAt(s, q);
    assert Nodes(u) <= Nodes(t) <= Nodes(s);
    hide HangsOn, Distinct;
    forall n | n in Nodes(u)
      ensures n.item == old(n.item) && n.left == old(n.left) && n.right == old(n.right)
    {
      assert OnlyHung(s, q, u, n);
    }
    Untouched(u);
    Relinked(s, q, u);
  }

  /** The node at the place q holds another item. */
  twostate lemma Relabelled(s: Shape, new q: Path, new x: int)
    requires old(Linked(s)) && Distinct(s) && HasPath(s, q) && At(s, q).Node?
    requires forall n :: n in Nodes(s) ==> old(allocated(n))
    requires forall n :: n in Nodes(s) ==>
               && n.item == (if n == At(s, q).ref then x else old(n.item))
               && n.left == old(n.left) && n.right == old(n.right)
    ensures var r := Replace(s, q, At(s, q).(item := x));
            Linked(r) && Distinct(r) && Nodes(r) == Nodes(s) && RootOf(r) == RootOf(s)
  {
    var t := At(s, q);
    var u := t.(item := x);
    HungFromOutside(s, q);
    WasLinkedAt(s, q);
    assert Nodes(u) == Nodes(t) && Nodes(t.left) <= Nodes(t) - {t.ref} && Nodes(t.right) <= Nodes(t) - {t.ref};
    Untouched(t.left);
    Untouched(t.right);
    ReplacedNodes(s, q, u);
    WasHung(s, q);
    Relinked(s, q, u);
  }

  /** What hangs at a place is its root. */
  twostate lemma WasHung(s: Shape, new q: Path)
    requires old(Linked(s)) && HasPath(s, q)
    requires forall n :: n in Nodes(s) ==> old(allocated(n))
    ensures forall n :: n in Nodes(s) ==>
              && (HangsOn(s, q, n, false) ==> old(n.left) == RootOf(At(s, q)))
              && (HangsOn(s, q, n, true) ==> old(n.right) == RootOf(At(s, q)))
  {
    if q != [] {
      ParentNode(s, q);
      WasLinkedAt(s, Parent(q));
    }
  }

  ghost function ParentRef(s: Shape, p: Path): TreeNode?
    requires HasPath(s, p)
  {
    if p == [] then null
    else
      ParentNode(s, p);
      RootOf(At(s, Parent(p)))
  }

  /** On which side of its parent a place is. */
  function SideOf(p: Path): Direction {
    if p == [] then Root else if Last(p) then Right else Left
  }

  lemma SizeZero(s: Shape)
    ensures |InOrder(s)| == 0 <==> s.Empty?
  {
  }

  /** The place where a search begins. */
  lemma AtTop(s: Shape)
    ensures HasPath(s, []) && At(s, []) == s && ParentRef(s, []) == null
  {
  }

  /** The search for x goes on one step down from a node that does not hold x. */
  lemma StepPath(s: Shape, q: Path, x: int)
    requires HasPath(s, q) && At(s, q).Node? && At(s, q).item != x
    requires PathTo(s, x) == q + PathTo(At(s, q), x)
    ensures var b := x > At(s, q).item;
            && HasPath(s, q + [b]) && At(s, q + [b]) == Child(At(s, q), b)
            && ParentRef(s, q + [b]) == At(s, q).ref && Parent(q + [b]) == q && Last(q + [b]) == b
            && PathTo(s, x) == q + [b] + PathTo(At(s, q + [b]), x)
  {
    var b := x > At(s, q).item;
    Step(s, q, b);
    Associate(q, [b], PathTo(Child(At(s, q), b), x));
  }

  lemma Associate(a: Path, b: Path, c: Path)
    ensures a + (b + c) == a + b + c
  {
  }

  /** The search for x ends at an empty place or at x. */
  lemma PathEnds(s: Shape, q: Path, x: int)
    requires HasPath(s, q)
    ensures At(s, q).Empty? || At(s, q).item == x ==> q + PathTo(At(s, q), x) == q
    ensures q == [] ==> PathTo(s, x) == q + PathTo(At(s, q), x)
  {
  }

  lemma SingleWell(n: TreeNode, x: int)
    requires n.item == x && n.left == null && n.right == null
    ensures Linked(Single(n, x)) && Distinct(Single(n, x)) && Sorted(Single(n, x)) && |InOrder(Single(n, x))| == 1
    ensures Nodes(Single(n, x)) == {n}
    ensures forall s: Shape :: s.Empty? ==> PathTo(s, x) == [] && Replace(s, [], Single(n, x)) == Single(n, x)
  {
    assert InOrder(Single(n, x)) == [] + [x] + [];
  }

  // ----- rotations and searches

  /** Where the searches of a rotation end. */
  lemma TurnPaths(s: Shape, q: Path, right: bool)
    requires Sorted(s) && HasPath(s, q) && At(s, q).Node? && Child(At(s, q), right).Node?
    ensures HasPath(s, q + [right]) && At(s, q + [right]) == Child(At(s, q), right)
    ensures PathTo(s, Child(At(s, q), right).item) == q + [right] && PathTo(s, At(s, q).item) == q
    ensures ParentRef(s, q + [right]) == At(s, q).ref
  {
    Step(s, q, right);
    PathToItem(s, q + [right]);
    PathToItem(s, q);
  }

  /** The nodes of a rotation, and that only the parent has to change outside. */
  lemma TurnNodes(s: Shape, q: Path, right: bool)
    requires Linked(s) && Distinct(s) && HasPath(s, q) && At(s, q).Node? && Child(At(s, q), right).Node?
    ensures var t, c := At(s, q), Child(At(s, q), right);
            && t.ref in Nodes(s) && c.ref in Nodes(s) && t.ref != c.ref
            && t.ref.item == t.item && c.ref.item == c.item
            && c.ref.left == RootOf(c.left) && c.ref.right == RootOf(c.right)
            && (forall n, b :: HangsOn(s, q, n, b) <==> q != [] && n == ParentRef(s, q) && b == Last(q))
            && (q != [] ==> ParentRef(s, q) in Nodes(s) && ParentRef(s, q) != t.ref && ParentRef(s, q) != c.ref)
  {
    Step(s, q, right);
    LinkedAt(s, q);
    LinkedAt(s, q + [right]);
    NodesAt(s, q);
    NodesAt(s, q + [right]);
    if q != [] {
      ParentOutside(s, q);
    }
  }

  /** A rotated subtree in its place. */
  lemma Turned(s: Shape, q: Path, u: Shape)
    requires Sorted(s) && HasPath(s, q) && InOrder(u) == InOrder(At(s, q)) && Items(u) == Items(At(s, q))
    requires Sorted(At(s, q)) ==> Sorted(u)
    ensures Sorted(Replace(s, q, u)) && |InOrder(Replace(s, q, u))| == |InOrder(s)|
    ensures Items(Replace(s, q, u)) == Items(s)
    ensures RootOf(Replace(s, q, u)) == if q == [] then RootOf(u) else RootOf(s)
  {
    SortedAt(s, q);
    ReplaceSorted(s, q, u);
    ReplaceInOrder(s, q, u);
  }

  /** A change one step down, seen from above. */
  lemma DownAndBack(s: Shape, q: Path, right: bool, u: Shape)
    requires HasPath(s, q) && At(s, q).Node?
    ensures HasPath(s, q + [right]) && At(s, q + [right]) == Child(At(s, q), right)
    ensures var r := Replace(s, q + [right], u);
            && HasPath(r, q) && At(r, q) == WithChild(At(s, q), right, u)
            && forall v: Shape :: Replace(r, q, v) == Replace(s, q, v)
  {
    var w := WithChild(At(s, q), right, u);
    Step(s, q, right);
    assert [right][1..] == [];
    ReplaceBelow(s, q, [right], u);
    ReplaceAt(s, q, w);
    forall v: Shape
      ensures Replace(Replace(s, q, w), q, v) == Replace(s, q, v)
    {
      ReplaceTwice(s, q, w, v);
    }
  }

  lemma OnlyRootAtTop(s: Shape, q: Path)
    requires Distinct(s) && HasPath(s, q) && At(s, q).Node?
    ensures At(s, q).ref == RootOf(s) <==> q == []
  {
    if q != [] {
      NodesAt(Child(s, q[0]), q[1..]);
    }
  }

  /** A search for the item of a node finds its parent. */
  lemma UpPath(s: Shape, q: Path)
    requires Sorted(s) && HasPath(s, q) && At(s, q).Node? && q != []
    ensures PathTo(s, At(s, q).item) == q
    ensures HasPath(s, Parent(q)) && At(s, Parent(q)).Node? && ParentRef(s, q) == At(s, Parent(q)).ref
  {
    PathToItem(s, q);
    ParentNode(s, q);
  }

  // ----- states of the walk

  /** What has been printed when the walk is at the node at q. */
  ghost predicate WalkAt(s: Shape, q: Path, direction: Direction, justPrinted: bool, done: seq<int>)
    requires HasPath(s, q)
  {
    var t, before := At(s, q), Before(s, q);
    && t.Node?
    && match direction
       case NotFound => false
       case Right => !justPrinted && done == before + InOrder(t)
       case Left => done == before + InOrder(t.left) + if justPrinted then [t.item] else []
       case Root => if justPrinted then t.left.Empty? && done == before + [t.item] else done == before
  }

  /** Between two prints the walk goes on from its node, down, and up, in this order. */
  function Phase(direction: Direction, justPrinted: bool): nat {
    if justPrinted then 3 else match direction case Root => 2 case Right => 1 case _ => 0
  }

  lemma WalkStarts(s: Shape)
    requires s.Node?
    ensures WalkAt(s, [], Root, false, [])
  {
  }

  lemma WalkLeft(s: Shape, q: Path, direction: Direction, justPrinted: bool, done: seq<int>)
    requires HasPath(s, q) && WalkAt(s, q, direction, justPrinted, done)
    requires At(s, q).left.Node? && direction != Left && direction != Right
    ensures !justPrinted && direction == Root && HasPath(s, q + [false]) && At(s, q + [false]) == At(s, q).left
    ensures WalkAt(s, q + [false], Root, false, done)
    ensures BinaryTrees.Height(At(s, q + [false])) < BinaryTrees.Height(At(s, q))
  {
    Step(s, q, false);
    BeforeStep(s, q, false);
  }

  lemma WalkPrints(s: Shape, q: Path, direction: Direction, done: seq<int>)
    requires HasPath(s, q) && WalkAt(s, q, direction, false, done)
    requires direction == Left || (direction == Root && At(s, q).left.Empty?)
    ensures |done| < |InOrder(s)| && WalkAt(s, q, direction, true, done + [At(s, q).item])
  {
    BeforeAndAt(s, q);
  }

  lemma WalkRight(s: Shape, q: Path, direction: Direction, done: seq<int>)
    requires HasPath(s, q) && WalkAt(s, q, direction, true, done) && At(s, q).right.Node?
    ensures HasPath(s, q + [true]) && At(s, q + [true]) == At(s, q).right
    ensures WalkAt(s, q + [true], Root, false, done)
  {
    Step(s, q, true);
    BeforeStep(s, q, true);
    assert Before(s, q) + (InOrder(At(s, q).left) + [At(s, q).item]) == done;
  }

  /** With nothing left to do at a node, there is a parent to go to as long as not all is printed. */
  lemma WalkUp(s: Shape, q: Path, direction: Direction, justPrinted: bool, done: seq<int>)
    requires HasPath(s, q) && WalkAt(s, q, direction, justPrinted, done) && |done| < |InOrder(s)|
    requires direction == Right || (justPrinted && At(s, q).right.Empty?)
    ensures q != [] && HasPath(s, Parent(q)) && WalkAt(s, Parent(q), SideOf(q), false, done)
  {
    assert done == Before(s, q) + InOrder(At(s, q));
    if q != [] {
      WalkedUp(s, q, done);
    }
  }

  lemma WalkedUp(s: Shape, q: Path, done: seq<int>)
    requires HasPath(s, q) && q != [] && done == Before(s, q) + InOrder(At(s, q))
    ensures HasPath(s, Parent(q)) && WalkAt(s, Parent(q), SideOf(q), false, done)
  {
    ParentNode(s, q);
    BeforeStep(s, Parent(q), Last(q));
    SplitPath(q);
    var u, before := At(s, Parent(q)), Before(s, Parent(q));
    hide Before, At, HasPath, Parent, InOrder;
    if Last(q) {
      InOrderIs(u);
      AfterSubtree(before, InOrder(u.left), u.item, InOrder(u.right));
    } else {
      assert Before(s, q) == before;
    }
  }

  lemma InOrderIs(t: Shape)
    requires t.Node?
    ensures InOrder(t) == InOrder(t.left) + [t.item] + InOrder(t.right)
  {
  }

  lemma AfterSubtree(before: seq<int>, a: seq<int>, x: int, b: seq<int>)
    ensures before + (a + [x]) + b == before + (a + [x] + b)
  {
  }

  lemma WalkDone(s: Shape, q: Path, direction: Direction, justPrinted: bool, done: seq<int>)
    requires HasPath(s, q) && WalkAt(s, q, direction, justPrinted, done) && |done| == |InOrder(s)|
    ensures done == InOrder(s)
  {
    BeforeAndAt(s, q);
  }

  /** One more item in an array whose front is printed and whose rest is as it was. */
  lemma OneMorePrinted(done: seq<int>, rest: seq<int>, x: int)
    requires |done| < |rest|
    ensures (done + rest[|done|..])[|done| := x] == done + [x] + rest[|done| + 1..]
  {
  }

  lemma WalkIsAtNode(s: Shape, q: Path, direction: Direction, justPrinted: bool, done: seq<int>)
    requires HasPath(s, q) && WalkAt(s, q, direction, justPrinted, done)
    ensures At(s, q).Node? && direction != NotFound && (justPrinted ==> direction != Right)
    ensures direction == Root && justPrinted ==> At(s, q).left.Empty?
  {
  }

  lemma OnlyItem(s: Shape)
    requires |InOrder(s)| == 1
    ensures s.Node? && InOrder(s) == [s.item]
  {
  }

  // ----- copying

  lemma CopyStarts(shape: Shape, s: Shape)
    requires shape.Empty?
    ensures Plain(shape) == Prune(s, {}) && (s.Empty? ==> Plain(shape) == Plain(s))
    ensures HasPath(s, []) && At(s, []) == s
    ensures s.Node? ==> Frontier(s, [[]], {}) && Covered(s, [[]], {})
    ensures Nodes(shape) == {}
  {
    if s.Node? {
      var places: seq<Path> := [[]];
      forall x | x in Items(s)
        ensures HasPath(s, places[0]) && x in Items(At(s, places[0]))
      {
      }
    }
  }

  /** The next item of the queue is new. */
  lemma CopyFirst(shape: Shape, s: Shape, places: seq<Path>, done: set<int>)
    requires Sorted(s) && places != [] && Frontier(s, places, done) && Plain(shape) == Prune(s, done)
    ensures HasPath(s, places[0]) && At(s, places[0]).Node? && At(s, places[0]).item !in Items(shape)
  {
    hide Sorted, Frontier, Items, AncestorsIn;
    FrontierStep(s, places, done);
    PruneItems(s, done);
    PlainItems(shape);
  }

  /** The queue after its first node has been replaced by its children. */
  lemma QueueStep(s: Shape, places: seq<Path>, queue: seq<TreeNode>, done: set<int>)
    requires Sorted(s) && Queued(s, places, queue) && queue != [] &&
             Frontier(s, places, done) && Covered(s, places, done)
    ensures places != [] && HasPath(s, places[0]) && At(s, places[0]).Node? && queue[0] == RootOf(At(s, places[0]))
    ensures var t, next := At(s, places[0]), places[1..] + ChildPlaces(s, places[0]);
            && Frontier(s, next, done + {t.item}) && Covered(s, next, done + {t.item})
            && Items(s) - (done + {t.item}) < Items(s) - done
            && var l, r := RootOf(t.left), RootOf(t.right);
               var one := if l != null then queue[1..] + [l] else queue[1..];
               Queued(s, next, if r != null then one + [r] else one)
  {
    hide Sorted, Frontier, Covered, Items, AncestorsIn, HasPath, At;
    QueuedFirst(s, places, queue);
    FrontierStep(s, places, done);
    CoveredStep(s, places, done);
    QueuedStep(s, places, queue);
    assert At(s, places[0]).item in Items(s) - done;
  }

  /** It belongs where its search ends. */
  lemma CopyAdded(shape: Shape, s: Shape, places: seq<Path>, done: set<int>, n: TreeNode)
    requires Sorted(s) && places != [] && Frontier(s, places, done) && Plain(shape) == Prune(s, done)
    ensures HasPath(s, places[0]) && At(s, places[0]).Node?
    ensures var x := At(s, places[0]).item;
            Plain(Replace(shape, PathTo(shape, x), Single(n, x))) == Prune(s, done + {x})
  {
    FrontierPlace(s, places, done);
    var x := At(s, places[0]).item;
    PruneInsert(s, places[0], done);
    PlainPath(shape, x);
    PlainReplace(shape, PathTo(shape, x), n, x);
  }

  lemma CopyEnds(s: Shape, places: seq<Path>, done: set<int>)
    requires places == [] && Covered(s, places, done)
    ensures Prune(s, done) == Plain(s)
  {
    forall x | x in Items(s)
      ensures x in done
    {
    }
    PruneAll(s, done);
  }

  /** The queue goes with its places. */
  ghost predicate Queued(s: Shape, places: seq<Path>, queue: seq<TreeNode>) {
    |places| == |queue|
    && forall i :: 0 <= i < |queue| ==> HasPath(s, places[i]) && queue[i] == RootOf(At(s, places[i]))
  }

  lemma QueuedStep(s: Shape, places: seq<Path>, queue: seq<TreeNode>)
    requires Queued(s, places, queue) && queue != [] && At(s, places[0]).Node?
    ensures var t := At(s, places[0]);
            var one := if t.left.Node? then queue[1..] + [t.left.ref] else queue[1..];
            Queued(s, places[1..] + ChildPlaces(s, places[0]), if t.right.Node? then one + [t.right.ref] else one)
  {
    Step(s, places[0], false);
    Step(s, places[0], true);
    ChildPlacesAre(s, places[0], places[1..]);
  }

  lemma QueuedFirst(s: Shape, places: seq<Path>, queue: seq<TreeNode>)
    requires Queued(s, places, queue) && queue != []
    ensures places != [] && HasPath(s, places[0]) && queue[0] == RootOf(At(s, places[0]))
  {
  }

  lemma QueueEmpty(s: Shape, places: seq<Path>, queue: seq<TreeNode>)
    requires Queued(s, places, queue) && queue == []
    ensures places == []
  {
  }

  lemma RootOfEmpty(s: Shape)
    ensures RootOf(s) == null <==> s.Empty?
    ensures s.Node? ==> RootOf(s) == s.ref
  {
  }

  // ----- removing

  lemma EmptyItems(s: Shape)
    requires s.Empty?
    ensures Items(s) == {} && Nodes(s) == {}
  {
  }

  /** Something hangs only on the parent of its place. */
  lemma HangsWhere(s: Shape, q: Path)
    requires Distinct(s) && HasPath(s, q)
    ensures forall n, b :: HangsOn(s, q, n, b) <==> q != [] && n == ParentRef(s, q) && b == Last(q)
    ensures q != [] ==> ParentRef(s, q) in Nodes(s)
  {
    if q != [] {
      ParentOutside(s, q);
    }
  }

  lemma LeafIsSmall(s: Shape, p: Path)
    requires HasPath(s, p) && At(s, p).Node?
    ensures p == [] && s.left.Empty? && s.right.Empty? ==> |InOrder(s)| == 1
  {
  }

  lemma SkippedRoot(s: Shape, p: Path)
    requires HasPath(s, p) && AtMostOneChild(At(s, p))
    ensures RootOf(Replace(s, p, OnlyChild(At(s, p)))) == if p == [] then RootOf(OnlyChild(s)) else RootOf(s)
  {
  }

  lemma ReplaceNext(s: Shape, p: Path)
    requires Sorted(s) && HasPath(s, p) && At(s, p).Node? && At(s, p).right.Node?
    ensures var r := Replace(s, p, NextUp(At(s, p)));
            Sorted(r) && Items(r) == Items(s) - {At(s, p).item} && |InOrder(r)| == |InOrder(s)| - 1
  {
    var t := At(s, p);
    SortedAt(s, p);
    NextUpKeeps(t);
    assert t.item in Items(t);
    hide Sorted, Items, InOrder, NextUp;
    ReplaceFewer(s, p, NextUp(t), t.item);
  }

  lemma MinStarts(t: Shape)
    requires t.Node?
    ensures MinPath(t) == [] + MinPath(t) && HasPath(t, []) && At(t, []) == t
  {
  }

  lemma MinStep(t: Shape, m: Path)
    requires t.Node? && HasPath(t, m) && At(t, m).Node? && MinPath(t) == m + MinPath(At(t, m)) && At(t, m).left.Node?
    ensures HasPath(t, m + [false]) && At(t, m + [false]) == At(t, m).left
    ensures MinPath(t) == m + [false] + MinPath(At(t, m + [false]))
  {
    Step(t, m, false);
    Associate(m, [false], MinPath(At(t, m).left));
  }

  /** Places below the right child, from the top and from there. */
  lemma ParentOfNext(s: Shape, p: Path, m: Path)
    requires HasPath(s, p) && At(s, p).Node? && HasPath(At(s, p).right, m)
    ensures HasPath(s, p + [true] + m) && At(s, p + [true] + m) == At(At(s, p).right, m)
    ensures m == [] ==> ParentRef(s, p + [true] + m) == At(s, p).ref && SideOf(p + [true] + m) == Right
    ensures m != [] ==>
              ParentRef(s, p + [true] + m) == ParentRef(At(s, p).right, m) && SideOf(p + [true] + m) == SideOf(m)
  {
    Step(s, p, true);
    PathAppend(s, p + [true], m);
    var q := p + [true] + m;
    if m == [] {
      assert q == p + [true];
    } else {
      assert Parent(q) == p + [true] + Parent(m);
      ParentNode(At(s, p).right, m);
      PathAppend(s, p + [true], Parent(m));
    }
  }

  lemma LeastFound(t: Shape, m: Path)
    requires t.Node? && HasPath(t, m) && At(t, m).Node? && At(t, m).left.Empty?
    requires MinPath(t) == m + MinPath(At(t, m)) || MinPath(t) == m
    ensures MinPath(t) == m && Least(t) == At(t, m).item && WithoutLeast(t) == Replace(t, m, At(t, m).right)
    ensures AtMostOneChild(At(t, m)) && OnlyChild(At(t, m)) == At(t, m).right
  {
    assert m + [] == m;
  }

  /** The same places once the node at p holds the next item, and what skipping that item's node leads to. */
  lemma RelabelledPaths(s: Shape, p: Path, x: int, m: Path)
    requires HasPath(s, p) && At(s, p).Node? && At(s, p).right.Node?
    requires HasPath(At(s, p).right, m) && MinPath(At(s, p).right) == m
    requires At(At(s, p).right, m).Node? && x == At(At(s, p).right, m).item
    ensures var q, s1 := p + [true] + m, Replace(s, p, At(s, p).(item := x));
            && HasPath(s, q) && HasPath(s1, q) && At(s, q) == At(At(s, p).right, m)
            && At(s1, q) == At(s, q) && ParentRef(s1, q) == ParentRef(s, q)
            && Replace(s1, q, At(s, q).right) == Replace(s, p, NextUp(At(s, p)))
    ensures RootOf(Replace(s, p, NextUp(At(s, p)))) == RootOf(s)
  {
    hide *;
    var t := At(s, p);
    var u := t.(item := x);
    ReplaceAt(s, p, u);
    ParentOfNext(s, p, m);
    ParentOfNext(Replace(s, p, u), p, m);
    LeastFound(t.right, m);
    NextUpReplaced(s, p, x, m);
  }

  lemma NextUpReplaced(s: Shape, p: Path, x: int, m: Path)
    requires HasPath(s, p) && At(s, p).Node? && At(s, p).right.Node?
    requires HasPath(At(s, p).right, m) && Least(At(s, p).right) == x && At(At(s, p).right, m).Node?
    requires WithoutLeast(At(s, p).right) == Replace(At(s, p).right, m, At(At(s, p).right, m).right)
    ensures var q, s1 := p + [true] + m, Replace(s, p, At(s, p).(item := x));
            HasPath(s1, q) && Replace(s1, q, At(At(s, p).right, m).right) == Replace(s, p, NextUp(At(s, p)))
    ensures RootOf(Replace(s, p, NextUp(At(s, p)))) == RootOf(s)
  {
    var t := At(s, p);
    var u, v := t.(item := x), At(t.right, m).right;
    var s1, n := Replace(s, p, u), [true] + m;
    SameRoot(s, p, NextUp(t));
    hide WithoutLeast, Least, RootOf;
    ReplaceAt(s, p, u);
    ParentOfNext(s1, p, m);
    Associate(p, [true], m);
    assert n[1..] == m && n[0];
    assert Replace(u, n, v) == u.(right := Replace(t.right, m, v)) == NextUp(t);
    hide *;
    ReplaceBelow(s1, p, n, v);
    ReplaceTwice(s, p, u, NextUp(t));
  }

  lemma SameRoot(s: Shape, p: Path, u: Shape)
    requires HasPath(s, p) && At(s, p).Node? && u.Node? && u.ref == At(s, p).ref
    ensures RootOf(Replace(s, p, u)) == RootOf(s)
  {
  }

  // ----- removals and the climb after them

  /** What unlinking a node with at most one child leads to. */
  lemma SkippedIsRemoved(s: Shape, x: int)
    requires AtMostOneChild(At(s, PathTo(s, x)))
    ensures var p := PathTo(s, x);
            RemovedPlace(s, x) == p && Overwritten(s, x) == s && Removed(s, x) == Replace(s, p, OnlyChild(At(s, p)))
  {
  }

  /** What taking over the next item leads to. */
  lemma TakenIsRemoved(s: Shape, x: int)
    requires TwoChildren(At(s, PathTo(s, x)))
    ensures var p, q := PathTo(s, x), RemovedPlace(s, x);
            && Removed(s, x) == Replace(s, p, NextUp(At(s, p)))
            && q == p + [true] + MinPath(At(s, p).right)
            && HasPath(Overwritten(s, x), q) && ParentRef(Overwritten(s, x), q) == ParentRef(s, q)
  {
    hide ParentRef, NextUp;
    var p := PathTo(s, x);
    var t := At(s, p);
    var m, next := MinPath(t.right), Least(t.right);
    RelabelledPaths(s, p, next, m);
    OverwrittenForm(s, x);
    FormPlaces(s, Overwritten(s, x), RemovedPlace(s, x));
  }

  /** A rotated node is one step below its old place. */
  lemma RotatedDown(s: Shape, q: Path, v: Shape, b: bool)
    requires HasPath(s, q) && HasPath(v, [b])
    ensures var r := Replace(s, q, v);
            && HasPath(r, q) && At(r, q) == v && HasPath(r, q + [b]) && At(r, q + [b]) == At(v, [b])
            && Parent(q + [b]) == q && Last(q + [b]) == b
  {
    ReplaceAt(s, q, v);
    PathAppend(Replace(s, q, v), q, [b]);
  }

  /** The parent of the node that a removal unlinks. */
  ghost function RemovedParent(s: Shape, x: int): TreeNode? {
    ParentRef(s, RemovedPlace(s, x))
  }

  /** Where that parent is afterwards. */
  lemma ParentOfRemoved(s: Shape, x: int)
    requires At(s, PathTo(s, x)).Node?
    ensures var p, r := RemovedPlace(s, x), Removed(s, x);
            && (RemovedParent(s, x) == null <==> p == [])
            && (p != [] ==>
                  HasPath(r, Parent(p)) && At(r, Parent(p)).Node? && At(r, Parent(p)).ref == RemovedParent(s, x))
  {
    hide Removed, At, HasPath, Replace;
    var p := RemovedPlace(s, x);
    if p != [] {
      ParentNode(s, p);
      RemovalParent(s, x);
      if TwoChildren(At(s, PathTo(s, x))) {
        TakenIsRemoved(s, x);
      } else {
        SkippedIsRemoved(s, x);
      }
    }
  }

  // ----- clearing

  lemma EmptyWell()
    ensures var s: Shape := Empty;
            Linked(s) && Distinct(s) && Sorted(s) && Balanced(s) && |InOrder(s)| == 0 && Nodes(s) == {}
  {
  }

  lemma ChildBelow(s: Shape, q: Path, right: bool)
    requires HasPath(s, q) && At(s, q).Node? && Child(At(s, q), right).Node?
    ensures HasPath(s, q + [right]) && At(s, q + [right]) == Child(At(s, q), right)
    ensures BinaryTrees.Height(At(s, q + [right])) < BinaryTrees.Height(At(s, q))
  {
    Step(s, q, right);
  }

  /** Whether a node hangs on the left. */
  lemma LeftOfParent(s: Shape, q: Path)
    requires Linked(s) && Distinct(s) && q != [] && HasPath(s, q) && At(s, q).Node?
    ensures ParentRef(s, q) != null && (ParentRef(s, q).left == At(s, q).ref <==> !Last(q))
  {
    ParentNode(s, q);
    LinkedAt(s, Parent(q));
    NodesAt(s, Parent(q));
  }

}

/**
 * Binary trees as values.  A node carries a reference, which is the linked
 * node when the tree describes a structure in memory.  Places in a tree are
 * paths from the root: false goes left, true goes right.
 */
module BinaryTrees {
  import opened PowerOfTwo

  datatype Tree<N> = Empty | Node(ref: N, left: Tree<N>, item: int, right: Tree<N>)

  type Path = seq<bool>

  function Height<N>(t: Tree<N>): nat {
    match t
    case Empty => 0
    case Node(_, l, _, r) => 1 + if Height(l) > Height(r) then Height(l) else Height(r)
  }

  function Items<N>(t: Tree<N>): set<int> {
    match t
    case Empty => {}
    case Node(_, l, x, r) => Items(l) + {x} + Items(r)
  }

  function InOrder<N>(t: Tree<N>): seq<int> {
    match t
    case Empty => []
    case Node(_, l, x, r) => InOrder(l) + [x] + InOrder(r)
  }

  ghost predicate AllBelow(s: set<int>, x: int) {
    forall y :: y in s ==> y < x
  }

  ghost predicate AllAbove(s: set<int>, x: int) {
    forall y :: y in s ==> x < y
  }

  /** A strict search tree. */
  ghost predicate Sorted<N>(t: Tree<N>) {
    t.Node? ==> AllBelow(Items(t.left), t.item) && AllAbove(Items(t.right), t.item) && Sorted(t.left) && Sorted(t.right)
  }

  predicate Near(a: nat, b: nat) {
    a <= b + 1 && b <= a + 1
  }

  /** The two subtrees of every node differ by at most one in height. */
  ghost predicate Balanced<N>(t: Tree<N>) {
    t.Node? ==> Near(Height(t.left), Height(t.right)) && Balanced(t.left) && Balanced(t.right)
  }

  // ----- places

  function Child<N>(t: Tree<N>, right: bool): Tree<N>
    requires t.Node?
  {
    if right then t.right else t.left
  }

  function WithChild<N>(t: Tree<N>, right: bool, u: Tree<N>): Tree<N>
    requires t.Node?
  {
    if right then t.(right := u) else t.(left := u)
  }

  predicate HasPath<N>(t: Tree<N>, p: Path) {
    p == [] || (t.Node? && HasPath(Child(t, p[0]), p[1..]))
  }

  function At<N>(t: Tree<N>, p: Path): Tree<N>
    requires HasPath(t, p)
  {
    if p == [] then t else At(Child(t, p[0]), p[1..])
  }

  function Replace<N>(t: Tree<N>, p: Path, u: Tree<N>): Tree<N>
    requires HasPath(t, p)
  {
    if p == [] then u else WithChild(t, p[0], Replace(Child(t, p[0]), p[1..], u))
  }

  /** Where a search for x ends: at x, or at the empty place where it belongs. */
  function PathTo<N>(t: Tree<N>, x: int): (p: Path)
    ensures HasPath(t, p)
  {
    if t.Empty? || x == t.item then [] else [x > t.item] + PathTo(Child(t, x > t.item), x)
  }

  function Parent(p: Path): Path
    requires p != []
  {
    p[..|p| - 1]
  }

  function Last(p: Path): bool
    requires p != []
  {
    p[|p| - 1]
  }

  lemma {:induction false} PathAppend<N>(t: Tree<N>, p: Path, q: Path)
    requires HasPath(t, p)
    ensures HasPath(t, p + q) <==> HasPath(At(t, p), q)
    ensures HasPath(t, p + q) ==> At(t, p + q) == At(At(t, p), q)
  {
    if p == [] {
      assert p + q == q;
    } else {
      assert (p + q)[1..] == p[1..] + q;
      PathAppend(Child(t, p[0]), p[1..], q);
    }
  }

  /** Before the last step of a path there is a node. */
  lemma ParentNode<N>(t: Tree<N>, p: Path)
    requires HasPath(t, p) && p != []
    ensures HasPath(t, Parent(p)) && At(t, Parent(p)).Node? && Child(At(t, Parent(p)), Last(p)) == At(t, p)
  {
    assert p == Parent(p) + [Last(p)];
    PrefixPath(t, Parent(p), [Last(p)]);
    PathAppend(t, Parent(p), [Last(p)]);
    assert [Last(p)][1..] == [];
  }

  lemma {:induction false} PrefixPath<N>(t: Tree<N>, p: Path, q: Path)
    requires HasPath(t, p + q)
    ensures HasPath(t, p)
  {
    if p != [] {
      assert (p + q)[1..] == p[1..] + q;
      PrefixPath(Child(t, p[0]), p[1..], q);
    }
  }

  /** A step down from a node. */
  lemma Step<N>(t: Tree<N>, p: Path, right: bool)
    requires HasPath(t, p) && At(t, p).Node?
    ensures HasPath(t, p + [right]) && At(t, p + [right]) == Child(At(t, p), right)
    ensures Parent(p + [right]) == p && Last(p + [right]) == right
  {
    PathAppend(t, p, [right]);
    assert [right][1..] == [];
  }

  lemma {:induction false} ReplaceAt<N>(t: Tree<N>, p: Path, u: Tree<N>)
    requires HasPath(t, p)
    ensures HasPath(Replace(t, p, u), p) && At(Replace(t, p, u), p) == u
  {
    if p != [] {
      ReplaceAt(Child(t, p[0]), p[1..], u);
    }
  }

  lemma {:induction false} ReplaceTwice<N>(t: Tree<N>, p: Path, u: Tree<N>, v: Tree<N>)
    requires HasPath(t, p) && HasPath(Replace(t, p, u), p)
    ensures Replace(Replace(t, p, u), p, v) == Replace(t, p, v)
  {
    if p != [] {
      ReplaceTwice(Child(t, p[0]), p[1..], u, v);
    }
  }

  /** Replacing below a place is replacing at that place. */
  lemma {:induction false} ReplaceBelow<N>(t: Tree<N>, p: Path, q: Path, u: Tree<N>)
    requires HasPath(t, p) && HasPath(At(t, p), q) && HasPath(t, p + q)
    ensures Replace(t, p + q, u) == Replace(t, p, Replace(At(t, p), q, u))
  {
    if p == [] {
      assert p + q == q;
    } else {
      assert (p + q)[1..] == p[1..] + q;
      ReplaceBelow(Child(t, p[0]), p[1..], q, u);
    }
  }

  // ----- order and contents

  lemma {:induction false} ItemsAt<N>(t: Tree<N>, p: Path)
    requires HasPath(t, p)
    ensures Items(At(t, p)) <= Items(t)
  {
    if p != [] {
      ItemsAt(Child(t, p[0]), p[1..]);
    }
  }

  lemma {:induction false} SortedAt<N>(t: Tree<N>, p: Path)
    requires Sorted(t) && HasPath(t, p)
    ensures Sorted(At(t, p))
  {
    if p != [] {
      SortedAt(Child(t, p[0]), p[1..]);
    }
  }

  /** A search for an item of a search tree ends where the item is. */
  lemma {:induction false} PathToItem<N>(t: Tree<N>, p: Path)
    requires Sorted(t) && HasPath(t, p) && At(t, p).Node?
    ensures PathTo(t, At(t, p).item) == p
  {
    if p != [] {
      var c := Child(t, p[0]);
      ItemsAt(c, p[1..]);
      assert At(t, p).item in Items(At(t, p));
      PathToItem(c, p[1..]);
      assert p == [p[0]] + p[1..];
    }
  }

  lemma {:induction false} FoundIff<N>(t: Tree<N>, x: int)
    requires Sorted(t)
    ensures x in Items(t) <==> At(t, PathTo(t, x)).Node?
    ensures At(t, PathTo(t, x)).Node? ==> At(t, PathTo(t, x)).item == x
  {
    if t.Node? && x != t.item {
      var c := Child(t, x > t.item);
      FoundIff(c, x);
      assert ([x > t.item] + PathTo(c, x))[1..] == PathTo(c, x);
    }
  }

  /** Replacing a subtree by one with the same items keeps the order. */
  lemma {:induction false} ReplaceSorted<N>(t: Tree<N>, p: Path, u: Tree<N>)
    requires Sorted(t) && HasPath(t, p) && Sorted(u) && Items(u) == Items(At(t, p))
    ensures Sorted(Replace(t, p, u)) && Items(Replace(t, p, u)) == Items(t)
  {
    if p != [] {
      ReplaceSorted(Child(t, p[0]), p[1..], u);
    }
  }

  lemma {:induction false} ReplaceInOrder<N>(t: Tree<N>, p: Path, u: Tree<N>)
    requires HasPath(t, p) && InOrder(u) == InOrder(At(t, p))
    ensures InOrder(Replace(t, p, u)) == InOrder(t)
  {
    if p != [] {
      ReplaceInOrder(Child(t, p[0]), p[1..], u);
    }
  }

  function Single<N>(ref: N, x: int): Tree<N> {
    Node(ref, Empty, x, Empty)
  }

  /** A new item at the place where its search ends keeps the order and is all that is new. */
  lemma {:induction false} InsertSorted<N>(t: Tree<N>, x: int, ref: N)
    requires Sorted(t) && At(t, PathTo(t, x)).Empty?
    ensures Sorted(Replace(t, PathTo(t, x), Single(ref, x)))
    ensures Items(Replace(t, PathTo(t, x), Single(ref, x))) == Items(t) + {x}
  {
    if t.Node? {
      var c := Child(t, x > t.item);
      assert ([x > t.item] + PathTo(c, x))[1..] == PathTo(c, x);
      InsertSorted(c, x, ref);
    }
  }

  lemma {:induction false} InsertSize<N>(t: Tree<N>, p: Path, x: int, ref: N)
    requires HasPath(t, p) && At(t, p).Empty?
    ensures |InOrder(Replace(t, p, Single(ref, x)))| == |InOrder(t)| + 1
  {
    if p != [] {
      InsertSize(Child(t, p[0]), p[1..], x, ref);
    } else {
      assert InOrder(Single(ref, x)) == [] + [x] + [];
    }
  }

  // ----- removing

  /** The only child of a node with at most one, or nothing. */
  function OnlyChild<N>(t: Tree<N>): Tree<N>
    requires t.Node?
  {
    if t.left.Empty? then t.right else t.left
  }

  predicate AtMostOneChild<N>(t: Tree<N>) {
    t.Node? && (t.left.Empty? || t.right.Empty?)
  }

  /** Skipping a node that has at most one child takes out just its item. */
  lemma {:induction false} SkipNode<N>(t: Tree<N>, p: Path)
    requires Sorted(t) && HasPath(t, p) && AtMostOneChild(At(t, p))
    ensures var r := Replace(t, p, OnlyChild(At(t, p)));
            Sorted(r) && Items(r) == Items(t) - {At(t, p).item} && |InOrder(r)| == |InOrder(t)| - 1
  {
    var u := At(t, p);
    if p == [] {
      assert u.item !in Items(u.left) && u.item !in Items(u.right);
    } else {
      var c := Child(t, p[0]);
      SkipNode(c, p[1..]);
      ItemsAt(c, p[1..]);
      assert u.item in Items(u);
      assert u.item in Items(c) && u.item != t.item && u.item !in Items(Child(t, !p[0]));
    }
  }

  /** The way to the smallest item. */
  function MinPath<N>(t: Tree<N>): (p: Path)
    requires t.Node?
    ensures HasPath(t, p) && At(t, p).Node? && At(t, p).left.Empty?
  {
    if t.left.Empty? then [] else [false] + MinPath(t.left)
  }

  function Least<N>(t: Tree<N>): int
    requires t.Node?
  {
    At(t, MinPath(t)).item
  }

  function WithoutLeast<N>(t: Tree<N>): Tree<N>
    requires t.Node?
  {
    Replace(t, MinPath(t), At(t, MinPath(t)).right)
  }

  lemma {:induction false} LeastIsLeast<N>(t: Tree<N>)
    requires t.Node? && Sorted(t)
    ensures Least(t) in Items(t) && AllAbove(Items(t) - {Least(t)}, Least(t))
  {
    if t.left.Node? {
      LeastIsLeast(t.left);
      LeastStep(t);
      var x := Least(t);
      assert x < t.item;
      forall y | y in Items(t) - {x}
        ensures x < y
      {
        assert y in Items(t.left) - {x} || y == t.item || y in Items(t.right);
      }
    } else {
      assert Items(t.left) == {};
    }
  }

  lemma LeastStep<N>(t: Tree<N>)
    requires t.Node? && t.left.Node?
    ensures MinPath(t) == [false] + MinPath(t.left) && Least(t) == Least(t.left)
    ensures WithoutLeast(t) == t.(left := WithoutLeast(t.left))
  {
    assert MinPath(t)[1..] == MinPath(t.left);
  }

  /** A node with two children takes over the next item. */
  function NextUp<N>(t: Tree<N>): Tree<N>
    requires t.Node? && t.right.Node?
  {
    Node(t.ref, t.left, Least(t.right), WithoutLeast(t.right))
  }

  lemma NextUpKeeps<N>(t: Tree<N>)
    requires t.Node? && t.right.Node? && Sorted(t)
    ensures Sorted(NextUp(t)) && Items(NextUp(t)) == Items(t) - {t.item} && |InOrder(NextUp(t))| == |InOrder(t)| - 1
  {
    hide Least, WithoutLeast;
    var x := Least(t.right);
    LeastIsLeast(t.right);
    WithoutLeastKeeps(t.right);
    assert t.item !in Items(t.left) && t.item !in Items(t.right) && x > t.item;
    assert AllBelow(Items(t.left), x);
  }

  lemma WithoutLeastKeeps<N>(t: Tree<N>)
    requires t.Node? && Sorted(t)
    ensures Sorted(WithoutLeast(t)) && Items(WithoutLeast(t)) == Items(t) - {Least(t)}
    ensures |InOrder(WithoutLeast(t))| == |InOrder(t)| - 1
  {
    hide Sorted, Items, InOrder;
    SkipNode(t, MinPath(t));
  }

  /** Replacing a subtree by one with fewer items takes out just those. */
  lemma {:induction false} ReplaceFewer<N>(t: Tree<N>, p: Path, u: Tree<N>, x: int)
    requires Sorted(t) && HasPath(t, p) && Sorted(u) && x in Items(At(t, p)) && Items(u) == Items(At(t, p)) - {x}
    requires |InOrder(u)| == |InOrder(At(t, p))| - 1
    ensures Sorted(Replace(t, p, u)) && Items(Replace(t, p, u)) == Items(t) - {x}
    ensures |InOrder(Replace(t, p, u))| == |InOrder(t)| - 1
  {
    if p != [] {
      var c := Child(t, p[0]);
      ReplaceFewer(c, p[1..], u, x);
      ItemsAt(c, p[1..]);
      assert x in Items(c) && x != t.item && x !in Items(Child(t, !p[0]));
    }
  }

  // ----- rotations

  /** The right child moves up. */
  function RotatedLeft<N>(t: Tree<N>): Tree<N>
    requires t.Node? && t.right.Node?
  {
    var c := t.right;
    Node(c.ref, Node(t.ref, t.left, t.item, c.left), c.item, c.right)
  }

  function RotatedRight<N>(t: Tree<N>): Tree<N>
    requires t.Node? && t.left.Node?
  {
    var c := t.left;
    Node(c.ref, c.left, c.item, Node(t.ref, c.right, t.item, t.right))
  }

  lemma Regrouped(a: seq<int>, x: int, b: seq<int>, y: int, c: seq<int>)
    ensures a + [x] + (b + [y] + c) == (a + [x] + b) + [y] + c
  {
  }

  lemma RotateLeftKeeps<N>(t: Tree<N>)
    requires t.Node? && t.right.Node?
    ensures InOrder(RotatedLeft(t)) == InOrder(t) && Items(RotatedLeft(t)) == Items(t)
  {
    var c, r := t.right, RotatedLeft(t);
    Regrouped(InOrder(t.left), t.item, InOrder(c.left), c.item, InOrder(c.right));
    assert InOrder(r.left) == InOrder(t.left) + [t.item] + InOrder(c.left);
    assert InOrder(c) == InOrder(c.left) + [c.item] + InOrder(c.right);
  }

  lemma RotateRightKeeps<N>(t: Tree<N>)
    requires t.Node? && t.left.Node?
    ensures InOrder(RotatedRight(t)) == InOrder(t) && Items(RotatedRight(t)) == Items(t)
  {
    var c, r := t.left, RotatedRight(t);
    Regrouped(InOrder(c.left), c.item, InOrder(c.right), t.item, InOrder(t.right));
    assert InOrder(r.right) == InOrder(c.right) + [t.item] + InOrder(t.right);
    assert InOrder(c) == InOrder(c.left) + [c.item] + InOrder(c.right);
  }

  lemma RotateLeftSorted<N>(t: Tree<N>)
    requires Sorted(t) && t.Node? && t.right.Node?
    ensures Sorted(RotatedLeft(t))
  {
    assert t.right.item in Items(t.right);
    assert Items(t.right.left) <= Items(t.right);
  }

  lemma RotateRightSorted<N>(t: Tree<N>)
    requires Sorted(t) && t.Node? && t.left.Node?
    ensures Sorted(RotatedRight(t))
  {
    assert t.left.item in Items(t.left);
    assert Items(t.left.right) <= Items(t.left);
  }

  // ----- rebalancing after an insertion

  /** What balance_tree does at one node. */
  function Rebalanced<N>(t: Tree<N>): Tree<N> {
    if t.Empty? then t
    else if Height(t.right) == Height(t.left) + 2 then
      if Height(t.right.right) > Height(t.right.left) then RotatedLeft(t)
      else RotatedLeft(t.(right := RotatedRight(t.right)))
    else if Height(t.left) == Height(t.right) + 2 then
      if Height(t.left.left) > Height(t.left.right) then RotatedRight(t)
      else RotatedRight(t.(left := RotatedLeft(t.left)))
    else t
  }

  /** The tree u has grown out of the balanced tree t by an insertion: no higher, or by one and leaning. */
  ghost predicate Grown<N>(t: Tree<N>, u: Tree<N>) {
    && Balanced(u)
    && (Height(u) == Height(t) ||
       (Height(u) == Height(t) + 1 && (t.Empty? || u.Empty? || Height(u.left) != Height(u.right))))
  }

  lemma SingleLeft<N>(t: Tree<N>)
    requires t.Node? && t.right.Node? && Balanced(t.left) && Balanced(t.right)
    requires Height(t.right) == Height(t.left) + 2 && Height(t.right.right) > Height(t.right.left)
    ensures Balanced(RotatedLeft(t)) && Height(RotatedLeft(t)) == Height(t.right)
  {
  }

  lemma SingleRight<N>(t: Tree<N>)
    requires t.Node? && t.left.Node? && Balanced(t.left) && Balanced(t.right)
    requires Height(t.left) == Height(t.right) + 2 && Height(t.left.left) > Height(t.left.right)
    ensures Balanced(RotatedRight(t)) && Height(RotatedRight(t)) == Height(t.left)
  {
  }

  lemma DoubleLeft<N>(t: Tree<N>)
    requires t.Node? && t.right.Node? && t.right.left.Node? && Balanced(t.left) && Balanced(t.right)
    requires Height(t.right) == Height(t.left) + 2 && Height(t.right.left) > Height(t.right.right)
    ensures var r := RotatedLeft(t.(right := RotatedRight(t.right)));
            Balanced(r) && Height(r) == Height(t.right)
  {
  }

  lemma DoubleRight<N>(t: Tree<N>)
    requires t.Node? && t.left.Node? && t.left.right.Node? && Balanced(t.left) && Balanced(t.right)
    requires Height(t.left) == Height(t.right) + 2 && Height(t.left.right) > Height(t.left.left)
    ensures var r := RotatedRight(t.(left := RotatedLeft(t.left)));
            Balanced(r) && Height(r) == Height(t.left)
  {
  }

  /** The other subtree is higher by two only just below a growth; a rotation then restores the old height. */
  lemma RebalanceOnce<N>(t: Tree<N>, right: bool, c: Tree<N>)
    requires t.Node? && Balanced(t) && Grown(Child(t, right), c)
    ensures var u := WithChild(t, right, c);
            if Near(Height(u.left), Height(u.right)) then Grown(t, u)
            else Balanced(Rebalanced(u)) && Height(Rebalanced(u)) == Height(t)
  {
    var u := WithChild(t, right, c);
    if !Near(Height(u.left), Height(u.right)) {
      HigherChild(c);
      if right {
        if Height(c.right) > Height(c.left) {
          SingleLeft(u);
        } else {
          DoubleLeft(u);
        }
      } else {
        if Height(c.left) > Height(c.right) {
          SingleRight(u);
        } else {
          DoubleRight(u);
        }
      }
    }
  }

  lemma HigherChild<N>(t: Tree<N>)
    ensures t.Empty? <==> Height(t) == 0
    ensures t.Node? && Height(t.left) > Height(t.right) ==> t.left.Node?
    ensures t.Node? && Height(t.right) > Height(t.left) ==> t.right.Node?
  {
  }

  lemma {:induction false} BalancedAt<N>(t: Tree<N>, p: Path)
    requires Balanced(t) && HasPath(t, p)
    ensures Balanced(At(t, p))
  {
    if p != [] {
      BalancedAt(Child(t, p[0]), p[1..]);
    }
  }

  /** A balanced subtree of the old height fits. */
  lemma {:induction false} ReplaceBalanced<N>(t: Tree<N>, p: Path, u: Tree<N>)
    requires Balanced(t) && HasPath(t, p) && Balanced(u) && Height(u) == Height(At(t, p))
    ensures Balanced(Replace(t, p, u)) && Height(Replace(t, p, u)) == Height(t)
  {
    if p != [] {
      ReplaceBalanced(Child(t, p[0]), p[1..], u);
    }
  }

  /** A subtree that has grown, or a node with one such child. */
  ghost predicate Pending<N>(t: Tree<N>, u: Tree<N>) {
    || Grown(t, u)
    || (t.Node? && u.Node? && exists b :: Grown(Child(t, b), Child(u, b)) && u == WithChild(t, b, Child(u, b)))
  }

  lemma PendingNode<N>(t: Tree<N>, u: Tree<N>)
    requires Balanced(t) && Pending(t, u) && u.Node?
    ensures if Near(Height(u.left), Height(u.right)) then Grown(t, u)
            else Balanced(Rebalanced(u)) && Height(Rebalanced(u)) == Height(t)
  {
    if !Grown(t, u) {
      var b :| Grown(Child(t, b), Child(u, b)) && u == WithChild(t, b, Child(u, b));
      RebalanceOnce(t, b, Child(u, b));
    }
  }

  /** Once a subtree has grown, its parent is next. */
  lemma PendingParent<N>(t: Tree<N>, p: Path, u: Tree<N>)
    requires HasPath(t, p) && p != [] && Grown(At(t, p), u)
    ensures HasPath(t, Parent(p)) && HasPath(Replace(t, p, u), Parent(p))
    ensures var v := At(Replace(t, p, u), Parent(p));
            && Pending(At(t, Parent(p)), v) && v.Node? && Replace(t, Parent(p), v) == Replace(t, p, u)
  {
    hide *;
    var q, b := Parent(p), Last(p);
    ParentNode(t, p);
    SplitPath(p);
    var d := At(t, q);
    ReplaceChild(t, q, b, u);
    PendingChild(d, b, u);
    ReplaceAt(t, q, WithChild(d, b, u));
  }

  lemma SplitPath(p: Path)
    requires p != []
    ensures p == Parent(p) + [Last(p)]
  {
  }

  lemma PendingChild<N>(t: Tree<N>, b: bool, u: Tree<N>)
    requires t.Node? && Grown(Child(t, b), u)
    ensures Pending(t, WithChild(t, b, u)) && WithChild(t, b, u).Node?
  {
    hide Grown;
    assert Child(WithChild(t, b, u), b) == u;
  }

  lemma ReplaceChild<N>(t: Tree<N>, q: Path, b: bool, u: Tree<N>)
    requires HasPath(t, q) && At(t, q).Node?
    ensures HasPath(t, q + [b]) && Replace(t, q + [b], u) == Replace(t, q, WithChild(At(t, q), b, u))
  {
    Step(t, q, b);
    var d := At(t, q);
    assert [b][1..] == [];
    assert HasPath(Child(d, b), []) && Replace(Child(d, b), [], u) == u;
    assert HasPath(d, [b]);
    assert Replace(d, [b], u) == WithChild(d, b, u);
    ReplaceBelow(t, q, [b], u);
  }

  lemma SingleGrown<N>(t: Tree<N>, ref: N, x: int)
    requires t.Empty?
    ensures Grown(t, Single(ref, x))
  {
    assert Height(Single(ref, x).left) == 0;
  }

  /** A balanced tree with height h has at least 2^(h / 2) - 1 items. */
  lemma {:induction false} BalancedIsShallow<N>(t: Tree<N>)
    requires Balanced(t)
    ensures Pow2(Height(t) / 2) <= |InOrder(t)| + 1
  {
    if t.Node? {
      var h := Height(t);
      BalancedIsShallow(t.left);
      BalancedIsShallow(t.right);
      if h >= 2 {
        Pow2Monotone((h - 2) / 2, Height(t.left) / 2);
        Pow2Monotone((h - 2) / 2, Height(t.right) / 2);
        assert h / 2 == (h - 2) / 2 + 1;
      }
    }
  }

  /**
   * After a removal the higher child may have two equally high children.  The
   * double rotation that is then chosen keeps the height, and balances the
   * node exactly when the tree that ends up beside the outer child is only one
   * lower than it; a single rotation would always do.
   */
  lemma EqualChildren<N>(t: Tree<N>)
    requires t.Node? && Balanced(t.left) && Balanced(t.right) && Height(t.right) == Height(t.left) + 2
    requires Height(t.right.left) == Height(t.right.right)
    ensures t.right.left.Node? && Balanced(RotatedLeft(t))
    ensures var r := Rebalanced(t);
            && r.Node? && Near(Height(r.left), Height(r.right)) && Height(r) == Height(t)
            && (Balanced(r) <==> Height(t.right.left.right) + 1 == Height(t.right.right))
  {
    var c, g := t.right, t.right.left;
    HigherChild(g);
    var a, b := Node(t.ref, t.left, t.item, g.left), Node(c.ref, g.right, c.item, c.right);
    assert Rebalanced(t) == Node(g.ref, a, g.item, b);
    hide Rebalanced, RotatedRight;
    assert Balanced(a) && Height(a) == Height(t.left) + 1 && Height(b) == Height(t.left) + 2;
    assert Balanced(b) <==> Height(g.right) + 1 == Height(c.right);
  }

  lemma EqualChildrenLeft<N>(t: Tree<N>)
    requires t.Node? && Balanced(t.left) && Balanced(t.right) && Height(t.left) == Height(t.right) + 2
    requires Height(t.left.left) == Height(t.left.right)
    ensures t.left.right.Node? && Balanced(RotatedRight(t))
    ensures var r := Rebalanced(t);
            && r.Node? && Near(Height(r.left), Height(r.right)) && Height(r) == Height(t)
            && (Balanced(r) <==> Height(t.left.right.left) + 1 == Height(t.left.left))
  {
    var c, g := t.left, t.left.right;
    HigherChild(g);
    var a, b := Node(t.ref, g.right, t.item, t.right), Node(c.ref, c.left, c.item, g.left);
    assert Rebalanced(t) == Node(g.ref, b, g.item, a);
    hide Rebalanced, RotatedLeft;
    assert Balanced(a) && Height(a) == Height(t.right) + 1 && Height(b) == Height(t.right) + 2;
    assert Balanced(b) <==> Height(g.left) + 1 == Height(c.left);
  }

  // ----- walking in order

  /** The items that come before those at the place p. */
  function Before<N>(t: Tree<N>, p: Path): seq<int>
    requires HasPath(t, p)
  {
    if p == [] then []
    else if p[0] then InOrder(t.left) + [t.item] + Before(t.right, p[1..])
    else Before(t.left, p[1..])
  }

  lemma {:induction false} BeforeStep<N>(t: Tree<N>, p: Path, right: bool)
    requires HasPath(t, p) && At(t, p).Node?
    ensures HasPath(t, p + [right])
    ensures Before(t, p + [right]) == Before(t, p) + if right then InOrder(At(t, p).left) + [At(t, p).item] else []
  {
    Step(t, p, right);
    var q := p + [right];
    if p == [] {
      assert q[1..] == [];
    } else {
      assert q[1..] == p[1..] + [right];
      BeforeStep(Child(t, p[0]), p[1..], right);
    }
  }

  /** What is at a place follows what comes before it. */
  lemma {:induction false} BeforeAndAt<N>(t: Tree<N>, p: Path)
    requires HasPath(t, p)
    ensures Before(t, p) + InOrder(At(t, p)) <= InOrder(t)
  {
    if p != [] {
      BeforeAndAt(Child(t, p[0]), p[1..]);
      var s := Before(Child(t, p[0]), p[1..]) + InOrder(At(t, p));
      if p[0] {
        assert Before(t, p) + InOrder(At(t, p)) == InOrder(t.left) + [t.item] + s;
      } else {
        assert s <= InOrder(t.left) <= InOrder(t);
      }
    }
  }

  ghost predicate Ascending(s: seq<int>) {
    forall i, j :: 0 <= i < j < |s| ==> s[i] < s[j]
  }

  /** The items of a search tree in order ascend, and are all its items. */
  lemma {:induction false} InOrderAscends<N>(t: Tree<N>)
    requires Sorted(t)
    ensures Ascending(InOrder(t))
    ensures forall x :: x in InOrder(t) <==> x in Items(t)
  {
    if t.Node? {
      InOrderAscends(t.left);
      InOrderAscends(t.right);
      var a, b, s := InOrder(t.left), InOrder(t.right), InOrder(t);
      assert forall x :: x in s <==> x in a || x == t.item || x in b;
      forall i, j | 0 <= i < j < |s|
        ensures s[i] < s[j]
      {
        assert i < |a| ==> s[i] == a[i] && a[i] in a;
        assert j < |a| ==> s[j] == a[j] && a[j] in a;
        assert i > |a| ==> s[i] == b[i - |a| - 1] && b[i - |a| - 1] in b;
        assert j > |a| ==> s[j] == b[j - |a| - 1] && b[j - |a| - 1] in b;
      }
    }
  }

  // ----- copying

  /** The tree without its references: its shape and items. */
  function Plain<N>(t: Tree<N>): Tree<()> {
    match t
    case Empty => Empty
    case Node(_, l, x, r) => Node((), Plain(l), x, Plain(r))
  }

  lemma {:induction false} PlainItems<N>(t: Tree<N>)
    ensures Items(Plain(t)) == Items(t)
  {
    if t.Node? {
      PlainItems(t.left);
      PlainItems(t.right);
    }
  }

  lemma {:induction false} PlainPath<N>(t: Tree<N>, x: int)
    ensures PathTo(Plain(t), x) == PathTo(t, x)
  {
    if t.Node? && x != t.item {
      PlainPath(Child(t, x > t.item), x);
    }
  }

  lemma {:induction false} PlainReplace<N>(t: Tree<N>, p: Path, ref: N, x: int)
    requires HasPath(t, p)
    ensures HasPath(Plain(t), p) && Plain(Replace(t, p, Single(ref, x))) == Replace(Plain(t), p, Single((), x))
  {
    if p != [] {
      PlainReplace(Child(t, p[0]), p[1..], ref, x);
    } else {
      assert Plain(Single(ref, x)) == Single((), x);
    }
  }

  /** The part of the tree that is above the items not in s. */
  function Prune<N>(t: Tree<N>, s: set<int>): Tree<()> {
    if t.Empty? || t.item !in s then Empty else Node((), Prune(t.left, s), t.item, Prune(t.right, s))
  }

  lemma {:induction false} PruneItems<N>(t: Tree<N>, s: set<int>)
    ensures Items(Prune(t, s)) <= s
  {
    if t.Node? {
      PruneItems(t.left, s);
      PruneItems(t.right, s);
    }
  }

  lemma {:induction false} PruneAll<N>(t: Tree<N>, s: set<int>)
    requires Items(t) <= s
    ensures Prune(t, s) == Plain(t)
  {
    if t.Node? {
      PruneAll(t.left, s);
      PruneAll(t.right, s);
    }
  }

  lemma {:induction false} PruneSame<N>(t: Tree<N>, s: set<int>, x: int)
    requires x !in Items(t)
    ensures Prune(t, s + {x}) == Prune(t, s)
  {
    if t.Node? {
      PruneSame(t.left, s, x);
      PruneSame(t.right, s, x);
    }
  }

  lemma PruneNone<N>(t: Tree<N>, s: set<int>)
    requires Items(t) !! s
    ensures Prune(t, s) == Empty
  {
    assert t.Node? ==> t.item in Items(t);
  }

  predicate AncestorsIn<N>(t: Tree<N>, p: Path, s: set<int>)
    requires HasPath(t, p)
  {
    p == [] || (t.item in s && AncestorsIn(Child(t, p[0]), p[1..], s))
  }

  lemma {:induction false} AncestorsMore<N>(t: Tree<N>, p: Path, s: set<int>, x: int)
    requires HasPath(t, p) && AncestorsIn(t, p, s)
    ensures AncestorsIn(t, p, s + {x})
  {
    if p != [] {
      AncestorsMore(Child(t, p[0]), p[1..], s, x);
    }
  }

  lemma {:induction false} AncestorsOfChild<N>(t: Tree<N>, p: Path, s: set<int>, right: bool)
    requires HasPath(t, p) && AncestorsIn(t, p, s) && At(t, p).Node? && At(t, p).item in s
    ensures HasPath(t, p + [right]) && AncestorsIn(t, p + [right], s)
  {
    Step(t, p, right);
    var q := p + [right];
    if p == [] {
      assert q[1..] == [];
    } else {
      assert q[1..] == p[1..] + [right];
      AncestorsOfChild(Child(t, p[0]), p[1..], s, right);
    }
  }

  /** Inserting the item of a node whose ancestors are all there extends the upper part by that node. */
  lemma {:induction false} PruneInsert<N>(t: Tree<N>, p: Path, s: set<int>)
    requires Sorted(t) && HasPath(t, p) && At(t, p).Node? && AncestorsIn(t, p, s) && Items(At(t, p)) !! s
    ensures var x := At(t, p).item;
            && PathTo(Prune(t, s), x) == p && At(Prune(t, s), p).Empty?
            && Prune(t, s + {x}) == Replace(Prune(t, s), p, Single((), x))
  {
    var x := At(t, p).item;
    if p == [] {
      assert x in Items(t);
      PruneNone(t, s);
      assert x !in Items(t.left) && x !in Items(t.right);
      PruneNone(t.left, s + {x});
      PruneNone(t.right, s + {x});
    } else {
      var c, o := Child(t, p[0]), Child(t, !p[0]);
      ItemsAt(c, p[1..]);
      assert x in Items(At(t, p));
      assert x !in Items(o) && x != t.item && (x > t.item) == p[0];
      PruneInsert(c, p[1..], s);
      PruneSame(o, s, x);
      assert p == [p[0]] + p[1..];
    }
  }

  // ----- the queue of a breadth-first walk

  /** The places hold subtrees that have no items in common with each other or with s. */
  ghost predicate Frontier<N>(t: Tree<N>, places: seq<Path>, s: set<int>) {
    && (forall i :: 0 <= i < |places| ==>
          HasPath(t, places[i]) && At(t, places[i]).Node? &&
          AncestorsIn(t, places[i], s) && Items(At(t, places[i])) !! s)
    && (forall i, j :: 0 <= i < j < |places| ==> Items(At(t, places[i])) !! Items(At(t, places[j])))
  }

  /** Every item is in s or at one of the places. */
  ghost predicate Covered<N>(t: Tree<N>, places: seq<Path>, s: set<int>) {
    forall x :: x in Items(t) ==>
      x in s || exists i :: 0 <= i < |places| && HasPath(t, places[i]) && x in Items(At(t, places[i]))
  }

  /** The children of the first place, as far as there are any. */
  function ChildPlaces<N>(t: Tree<N>, p: Path): seq<Path>
    requires HasPath(t, p) && At(t, p).Node?
  {
    (if At(t, p).left.Node? then [p + [false]] else []) + (if At(t, p).right.Node? then [p + [true]] else [])
  }

  lemma FrontierAdd<N>(t: Tree<N>, places: seq<Path>, s: set<int>, q: Path)
    requires Frontier(t, places, s)
    requires HasPath(t, q) && At(t, q).Node? && AncestorsIn(t, q, s) && Items(At(t, q)) !! s
    requires forall i :: 0 <= i < |places| ==> Items(At(t, places[i])) !! Items(At(t, q))
    ensures Frontier(t, places + [q], s)
  {
    hide HasPath, At, AncestorsIn, Items;
  }

  lemma FrontierRest<N>(t: Tree<N>, places: seq<Path>, s: set<int>)
    requires Sorted(t) && places != [] && Frontier(t, places, s)
    ensures var x := At(t, places[0]).item;
            && x !in s && x in Items(t) && Frontier(t, places[1..], s + {x})
            && forall i :: 1 <= i < |places| ==> Items(At(t, places[i])) !! Items(At(t, places[0]))
  {
    var p := places[0];
    ItemsAt(t, p);
    var x, rest := At(t, p).item, places[1..];
    assert x in Items(At(t, p));
    hide HasPath, At, AncestorsIn, Items;
    forall i | 0 <= i < |rest|
      ensures HasPath(t, rest[i]) && At(t, rest[i]).Node? && AncestorsIn(t, rest[i], s + {x})
      ensures Items(At(t, rest[i])) !! s + {x}
    {
      assert rest[i] == places[i + 1];
      AncestorsMore(t, rest[i], s, x);
    }
  }

  lemma ChildItems<N>(u: Tree<N>)
    requires Sorted(u) && u.Node?
    ensures Items(u.left) <= Items(u) && Items(u.right) <= Items(u) && Items(u.left) !! Items(u.right)
    ensures u.item !in Items(u.left) && u.item !in Items(u.right)
  {
    var a, b := Items(u.left), Items(u.right);
    assert Items(u) == a + {u.item} + b;
    hide Items, Sorted;
    forall y | y in a
      ensures y !in b
    {
      assert y < u.item;
    }
  }

  lemma RestApart<N>(t: Tree<N>, places: seq<Path>, w: set<int>)
    requires places != [] && forall i :: 0 <= i < |places| ==> HasPath(t, places[i])
    requires forall i :: 1 <= i < |places| ==> Items(At(t, places[i])) !! Items(At(t, places[0]))
    requires w <= Items(At(t, places[0]))
    ensures forall i :: 0 <= i < |places| - 1 ==> Items(At(t, places[1..][i])) !! w
  {
    hide HasPath, At, Items;
  }

  lemma FrontierPlace<N>(t: Tree<N>, places: seq<Path>, s: set<int>)
    requires Frontier(t, places, s) && places != []
    ensures forall i :: 0 <= i < |places| ==> HasPath(t, places[i])
    ensures At(t, places[0]).Node? && AncestorsIn(t, places[0], s) && Items(At(t, places[0])) !! s
  {
  }

  /** Taking the first place off the queue and its children on to it. */
  lemma FrontierStep<N>(t: Tree<N>, places: seq<Path>, s: set<int>)
    requires Sorted(t) && places != [] && Frontier(t, places, s)
    ensures HasPath(t, places[0]) && At(t, places[0]).Node?
    ensures var x := At(t, places[0]).item;
            x !in s && x in Items(t) && Frontier(t, places[1..] + ChildPlaces(t, places[0]), s + {x})
  {
    hide HasPath, At, AncestorsIn, Items, Sorted, Frontier, ChildPlaces;
    FrontierPlace(t, places, s);
    var p := places[0];
    var u := At(t, p);
    var s1, rest := s + {u.item}, places[1..];
    FrontierRest(t, places, s);
    AncestorsMore(t, p, s, u.item);
    SortedAt(t, p);
    Step(t, p, false);
    Step(t, p, true);
    AncestorsOfChild(t, p, s1, false);
    AncestorsOfChild(t, p, s1, true);
    ChildItems(u);
    RestApart(t, places, Items(u.left));
    RestApart(t, places, Items(u.right));
    ChildPlacesAre(t, p, rest);
    if u.left.Node? {
      FrontierAdd(t, rest, s1, p + [false]);
      if u.right.Node? {
        FrontierAdd(t, rest + [p + [false]], s1, p + [true]);
      }
    } else if u.right.Node? {
      FrontierAdd(t, rest, s1, p + [true]);
    }
  }

  lemma ChildPlacesAre<N>(t: Tree<N>, p: Path, rest: seq<Path>)
    requires HasPath(t, p) && At(t, p).Node?
    ensures rest + ChildPlaces(t, p)
         == var one := if At(t, p).left.Node? then rest + [p + [false]] else rest;
            if At(t, p).right.Node? then one + [p + [true]] else one
  {
  }

  lemma CoveredStep<N>(t: Tree<N>, places: seq<Path>, s: set<int>)
    requires places != [] && HasPath(t, places[0]) && At(t, places[0]).Node? && Covered(t, places, s)
    ensures Covered(t, places[1..] + ChildPlaces(t, places[0]), s + {At(t, places[0]).item})
  {
    var p := places[0];
    var u := At(t, p);
    var s1, next := s + {u.item}, places[1..] + ChildPlaces(t, p);
    Step(t, p, false);
    Step(t, p, true);
    assert Items(u) == Items(u.left) + {u.item} + Items(u.right);
    assert u.left.Node? ==> next[|places| - 1] == p + [false];
    assert u.right.Node? ==> next[|next| - 1] == p + [true];
    forall x | x in Items(t) && x !in s1
      ensures exists i :: 0 <= i < |next| && HasPath(t, next[i]) && x in Items(At(t, next[i]))
    {
      var i :| 0 <= i < |places| && HasPath(t, places[i]) && x in Items(At(t, places[i]));
      if i > 0 {
        assert next[i - 1] == places[i];
      } else if x in Items(u.left) {
        assert HasPath(t, next[|places| - 1]) && x in Items(At(t, next[|places| - 1]));
      } else {
        assert HasPath(t, next[|next| - 1]) && x in Items(At(t, next[|next| - 1]));
      }
    }
  }
}

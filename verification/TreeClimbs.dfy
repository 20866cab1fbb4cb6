/**
 * The climb of balance_tree, on trees of any form: from a node to the root, or
 * up to the first rotation.  A removal can leave a tree unbalanced, and then
 * one rotation need not settle a node; two always do.
 */
module TreeClimbs {
  import opened BinaryTrees
  import opened TreeRemovals

  /** What balance_tree looks for. */
  predicate HeightsDiffer<N>(t: Tree<N>)
    requires t.Node?
  {
    Height(t.right) == Height(t.left) + 2 || Height(t.left) == Height(t.right) + 2
  }

  /** How many rotations a node takes before the climb leaves it. */
  function Turns<N>(t: Tree<N>): nat {
    if t.Empty? || !HeightsDiffer(t) then 0
    else if Rebalanced(t).Empty? || !HeightsDiffer(Rebalanced(t)) then 1
    else 2
  }

  /** Whatever the tree, a node is settled after at most two rotations, and is not higher than before. */
  lemma FewerTurns<N>(t: Tree<N>)
    requires t.Node? && HeightsDiffer(t)
    ensures Rebalanced(t).Node? && Turns(Rebalanced(t)) < Turns(t)
    ensures Height(Rebalanced(t)) <= Height(t)
  {
    TurnedOnce(t);
    if HeightsDiffer(Rebalanced(t)) {
      TurnedTwice(t);
    }
  }

  lemma TurnedOnce<N>(t: Tree<N>)
    requires t.Node? && HeightsDiffer(t)
    ensures Rebalanced(t).Node? && Height(Rebalanced(t)) <= Height(t)
  {
    HigherChild(t.left);
    HigherChild(t.right);
  }

  /** A rotation that does not settle the node was a double one, and leaves two equally high grandchildren. */
  lemma TurnedTwice<N>(t: Tree<N>)
    requires t.Node? && HeightsDiffer(t) && Rebalanced(t).Node? && HeightsDiffer(Rebalanced(t))
    ensures var r := Rebalanced(Rebalanced(t)); r.Node? && !HeightsDiffer(r)
  {
    HigherChild(t.left);
    HigherChild(t.right);
    var r := Rebalanced(t);
    if Height(t.right) == Height(t.left) + 2 {
      assert Height(r.left) == Height(r.right) + 2 && Height(r.left.left) == Height(r.left.right);
      EvenTurn(r, false);
    } else {
      assert Height(r.right) == Height(r.left) + 2 && Height(r.right.right) == Height(r.right.left);
      EvenTurn(r, true);
    }
  }

  /** A double rotation because of equally high grandchildren settles the node. */
  lemma EvenTurn<N>(t: Tree<N>, right: bool)
    requires t.Node? && Child(t, right).Node?
    requires Height(Child(t, right)) == Height(Child(t, !right)) + 2
    requires Height(Child(t, right).left) == Height(Child(t, right).right)
    ensures Rebalanced(t).Node? && !HeightsDiffer(Rebalanced(t))
  {
    HigherChild(Child(t, right));
  }

  /** The tree that a climb from the node at q ends with. */
  function BalancedUp<N>(t: Tree<N>, q: Path, rotateOnce: bool): Tree<N>
    requires HasPath(t, q) && At(t, q).Node?
    decreases |q|, Turns(At(t, q))
  {
    var u := At(t, q);
    if HeightsDiffer(u) then
      FewerTurns(u);
      ReplaceAt(t, q, Rebalanced(u));
      var r := Replace(t, q, Rebalanced(u));
      if rotateOnce then r else BalancedUp(r, q, false)
    else if q == [] then t
    else
      ParentNode(t, q);
      BalancedUp(t, Parent(q), rotateOnce)
  }

  /** BalancedUp, one step unfolded. */
  lemma ClimbStep<N>(t: Tree<N>, q: Path, rotateOnce: bool)
    requires HasPath(t, q) && At(t, q).Node?
    ensures var u := At(t, q);
            var r := Replace(t, q, Rebalanced(u));
            if HeightsDiffer(u) then
              && HasPath(r, q) && At(r, q) == Rebalanced(u) && At(r, q).Node? && Turns(At(r, q)) < Turns(u)
              && BalancedUp(t, q, rotateOnce) == if rotateOnce then r else BalancedUp(r, q, false)
            else
              && r == t
              && if q == [] then BalancedUp(t, q, rotateOnce) == t
                 else && HasPath(t, Parent(q)) && At(t, Parent(q)).Node?
                      && BalancedUp(t, q, rotateOnce) == BalancedUp(t, Parent(q), rotateOnce)
  {
    hide Turns, Replace, At, HasPath, Height;
    var u := At(t, q);
    if HeightsDiffer(u) {
      FewerTurns(u);
      ReplaceAt(t, q, Rebalanced(u));
    } else {
      ReplaceSame(t, q);
      if q != [] {
        ParentNode(t, q);
      }
    }
  }

  lemma {:induction false} ReplaceSame<N>(t: Tree<N>, p: Path)
    requires HasPath(t, p)
    ensures Replace(t, p, At(t, p)) == t
  {
    if p != [] {
      ReplaceSame(Child(t, p[0]), p[1..]);
    }
  }

  /** Whatever the tree, a climb keeps the in-order sequence, and the tree gets no higher. */
  lemma {:induction false} ClimbKeeps<N>(t: Tree<N>, q: Path, rotateOnce: bool)
    requires HasPath(t, q) && At(t, q).Node?
    ensures InOrder(BalancedUp(t, q, rotateOnce)) == InOrder(t) && Height(BalancedUp(t, q, rotateOnce)) <= Height(t)
    decreases |q|, Turns(At(t, q))
  {
    hide BalancedUp, Turns, Replace, At, HasPath, Height, InOrder, Rebalanced;
    ClimbStep(t, q, rotateOnce);
    var u := At(t, q);
    if HeightsDiffer(u) {
      FewerTurns(u);
      RebalancedInOrder(u);
      ReplaceInOrder(t, q, Rebalanced(u));
      ReplaceLower(t, q, Rebalanced(u));
      if !rotateOnce {
        ClimbKeeps(Replace(t, q, Rebalanced(u)), q, false);
      }
    } else if q != [] {
      ClimbKeeps(t, Parent(q), rotateOnce);
    }
  }

  /** A climb to the root ends with a root that needs no rotation. */
  lemma {:induction false} RootSettled<N>(t: Tree<N>, q: Path)
    requires HasPath(t, q) && At(t, q).Node?
    ensures var r := BalancedUp(t, q, false); r.Node? && !HeightsDiffer(r)
    decreases |q|, Turns(At(t, q))
  {
    hide BalancedUp, Turns, Replace, Height, Rebalanced;
    ClimbStep(t, q, false);
    if HeightsDiffer(At(t, q)) {
      RootSettled(Replace(t, q, Rebalanced(At(t, q))), q);
    } else if q != [] {
      RootSettled(t, Parent(q));
    }
  }

  lemma RebalancedInOrder<N>(t: Tree<N>)
    ensures InOrder(Rebalanced(t)) == InOrder(t)
  {
    if t.Node? && HeightsDiffer(t) {
      HigherChild(t.left);
      HigherChild(t.right);
      hide InOrder, Height, RotatedLeft, RotatedRight;
      if Height(t.right) == Height(t.left) + 2 {
        if Height(t.right.right) > Height(t.right.left) {
          RotateLeftKeeps(t);
        } else {
          RotateRightKeeps(t.right);
          SameSides(t, t.(right := RotatedRight(t.right)));
          RotateLeftKeeps(t.(right := RotatedRight(t.right)));
        }
      } else if Height(t.left.left) > Height(t.left.right) {
        RotateRightKeeps(t);
      } else {
        RotateLeftKeeps(t.left);
        SameSides(t, t.(left := RotatedLeft(t.left)));
        RotateRightKeeps(t.(left := RotatedLeft(t.left)));
      }
    }
  }

  lemma SameSides<N>(t: Tree<N>, u: Tree<N>)
    requires t.Node? && u.Node? && t.item == u.item
    requires InOrder(t.left) == InOrder(u.left) && InOrder(t.right) == InOrder(u.right)
    ensures InOrder(t) == InOrder(u)
  {
  }

  lemma {:induction false} ReplaceLower<N>(t: Tree<N>, p: Path, u: Tree<N>)
    requires HasPath(t, p) && Height(u) <= Height(At(t, p))
    ensures Height(Replace(t, p, u)) <= Height(t)
  {
    if p != [] {
      ReplaceLower(Child(t, p[0]), p[1..], u);
    }
  }

  // ----- the climb in a balanced tree

  /**
   * After an insertion into a balanced tree: a climb up to the first rotation
   * balances it again, and does nothing where nothing is to be done.
   */
  lemma {:induction false} AfterInsertion<N>(before: Tree<N>, t: Tree<N>, q: Path)
    requires Balanced(before) && HasPath(before, q) && HasPath(t, q) && At(t, q).Node?
    requires t == Replace(before, q, At(t, q)) && Pending(At(before, q), At(t, q))
    ensures Balanced(BalancedUp(t, q, true)) && (Balanced(t) ==> BalancedUp(t, q, true) == t)
    decreases |q|
  {
    hide BalancedUp, Turns, Replace, At, HasPath, Height, Rebalanced, Pending, Grown, Balanced;
    var w, u := At(before, q), At(t, q);
    BalancedAt(before, q);
    PendingHeights(w, u);
    ClimbStep(t, q, true);
    if HeightsDiffer(u) {
      ReplaceTwice(before, q, u, Rebalanced(u));
      ReplaceBalanced(before, q, Rebalanced(u));
      DifferIsUnbalanced(t, q);
    } else if q == [] {
      WholeGrown(before, t);
    } else {
      PendingParent(before, q, u);
      AfterInsertion(before, t, Parent(q));
    }
  }

  lemma PendingHeights<N>(t: Tree<N>, u: Tree<N>)
    requires Balanced(t) && Pending(t, u) && u.Node?
    ensures if HeightsDiffer(u) then Balanced(Rebalanced(u)) && Height(Rebalanced(u)) == Height(t) else Grown(t, u)
  {
    PendingNode(t, u);
  }

  lemma WholeGrown<N>(before: Tree<N>, t: Tree<N>)
    requires Grown(At(before, []), At(t, []))
    ensures Balanced(t)
  {
  }

  lemma DifferIsUnbalanced<N>(t: Tree<N>, q: Path)
    requires HasPath(t, q) && At(t, q).Node? && HeightsDiffer(At(t, q))
    ensures !Balanced(t)
  {
    if Balanced(t) {
      BalancedAt(t, q);
    }
  }

  /**
   * After a removal from a balanced tree: a climb to the root balances it
   * again exactly when no double rotation on the way misses.
   */
  lemma {:induction false} AfterRemoval<N>(before: Tree<N>, t: Tree<N>, q: Path, below: Path)
    requires Balanced(before) && HasPath(before, q) && HasPath(t, q) && At(t, q).Node?
    requires t == Replace(before, q, At(t, q)) && below != [] && HasPath(At(before, q), below)
    requires Waiting(At(before, q), below, At(t, q)) || Climbed(At(before, q), below, At(t, q))
    ensures HasPath(before, q + below)
    ensures Balanced(BalancedUp(t, q, false)) <==> StaysBalanced(before, q + below)
    decreases |q|, HeightsDiffer(At(t, q))
  {
    hide BalancedUp, Turns, Replace, Height, Rebalanced, Balanced, Waiting, Climbed, StaysBalanced, HeightsDiffer;
    RotateAndClimb(before, t, q, below);
    ClimbStep(t, q, false);
    PathAppend(before, q, below);
    if HeightsDiffer(At(t, q)) {
      AfterRemoval(before, Replace(t, q, Rebalanced(At(t, q))), q, below);
    } else if q == [] {
      assert q + below == below;
      ClimbEnds(before, t, below);
    } else {
      ParentWaits(before, q, below, At(t, q));
      AfterRemoval(before, t, Parent(q), [Last(q)] + below);
    }
  }

  lemma RotateAndClimb<N>(before: Tree<N>, t: Tree<N>, q: Path, p: Path)
    requires Balanced(before) && HasPath(before, q) && HasPath(t, q) && t == Replace(before, q, At(t, q))
    requires HasPath(At(before, q), p) && p != []
    requires Waiting(At(before, q), p, At(t, q)) || Climbed(At(before, q), p, At(t, q))
    ensures var r := Replace(t, q, Rebalanced(At(t, q)));
            && HasPath(r, q) && At(r, q) == Rebalanced(At(t, q)) && r == Replace(before, q, At(r, q))
            && Climbed(At(before, q), p, At(r, q)) && (At(r, q).Node? ==> !HeightsDiffer(At(r, q)))
    ensures At(t, q).Node? ==>
              (NearRoot(At(t, q)) <==> !HeightsDiffer(At(t, q))) &&
              (NearRoot(At(t, q)) ==> Rebalanced(At(t, q)) == At(t, q))
  {
    hide Waiting, Climbed, Replace, At;
    var v := At(t, q);
    BalancedAt(before, q);
    if Climbed(At(before, q), p, v) {
      ClimbedIsNear(At(before, q), p, v);
    } else {
      NodeClimbed(At(before, q), p, v);
    }
    ClimbedIsNear(At(before, q), p, Rebalanced(v));
    ReplaceAt(t, q, Rebalanced(v));
    ReplaceTwice(before, q, v, Rebalanced(v));
  }

  lemma ClimbedIsNear<N>(w: Tree<N>, p: Path, v: Tree<N>)
    requires HasPath(w, p) && Climbed(w, p, v)
    ensures NearRoot(v) && Rebalanced(v) == v && (v.Node? ==> !HeightsDiffer(v))
  {
  }

  lemma ClimbEnds<N>(before: Tree<N>, t: Tree<N>, p: Path)
    requires HasPath(At(before, []), p) && Climbed(At(before, []), p, At(t, []))
    ensures HasPath(before, p) && (Balanced(t) <==> StaysBalanced(before, p))
  {
  }

  // ----- adding and removing

  /** What adding x at a node n leads to. */
  function AddedBalanced<N>(t: Tree<N>, x: int, n: N): Tree<N> {
    var p := PathTo(t, x);
    if At(t, p).Node? then t
    else
      ReplaceAt(t, p, Single(n, x));
      BalancedUp(Replace(t, p, Single(n, x)), p, true)
  }

  /** What removing x leads to; a tree of one item is emptied, whatever x is. */
  function RemovedBalanced<N>(t: Tree<N>, x: int): Tree<N> {
    var p := RemovedPlace(t, x);
    if |InOrder(t)| == 1 then Empty
    else if At(t, PathTo(t, x)).Empty? then t
    else if p == [] then Removed(t, x)
    else
      RemovalParent(t, x);
      BalancedUp(Removed(t, x), Parent(p), false)
  }

  /** The parent of the unlinked node stays where it is. */
  lemma RemovalParent<N>(t: Tree<N>, x: int)
    requires At(t, PathTo(t, x)).Node? && RemovedPlace(t, x) != []
    ensures var w, r, o := Overwritten(t, x), Removed(t, x), Parent(RemovedPlace(t, x));
            HasPath(w, o) && HasPath(r, o) && At(w, o).Node? && At(r, o).Node? && At(r, o).ref == At(w, o).ref
  {
    hide Overwritten, RemovedPlace, Removed, Replace, At, HasPath;
    RemovalSkips(t, x);
    var w, p := Overwritten(t, x), RemovedPlace(t, x);
    ParentReplaced(w, p, OnlyChild(At(w, p)));
  }

  /** A change below a node, seen from the node. */
  lemma ParentReplaced<N>(t: Tree<N>, p: Path, u: Tree<N>)
    requires HasPath(t, p) && p != []
    ensures HasPath(t, Parent(p)) && At(t, Parent(p)).Node?
    ensures var r := Replace(t, p, u);
            && HasPath(r, Parent(p)) && At(r, Parent(p)) == WithChild(At(t, Parent(p)), Last(p), u)
            && r == Replace(t, Parent(p), At(r, Parent(p)))
  {
    hide Replace, HasPath, At;
    ParentNode(t, p);
    SplitPath(p);
    ReplaceChild(t, Parent(p), Last(p), u);
    ReplaceAt(t, Parent(p), WithChild(At(t, Parent(p)), Last(p), u));
  }

  /** A balanced tree stays balanced when an item is added. */
  lemma AddedIsBalanced<N>(t: Tree<N>, x: int, n: N)
    requires Balanced(t)
    ensures Balanced(AddedBalanced(t, x, n))
  {
    hide BalancedUp, Replace, At, PathTo, Balanced, Grown;
    var p := PathTo(t, x);
    if At(t, p).Empty? {
      var r := Replace(t, p, Single(n, x));
      ReplaceAt(t, p, Single(n, x));
      SingleGrown(At(t, p), n, x);
      AfterInsertion(t, r, p);
    }
  }

  /** It stays balanced when one is removed, exactly when no rotation misses. */
  lemma RemovedIsBalanced<N>(t: Tree<N>, x: int)
    requires Balanced(t)
    ensures Balanced(RemovedBalanced(t, x)) <==>
            |InOrder(t)| <= 1 || At(t, PathTo(t, x)).Empty? || StaysBalanced(t, RemovedPlace(t, x))
  {
    hide BalancedUp, Replace, At, PathTo, StaysBalanced, RemovedPlace, Overwritten, Removed, Shrinks, Waiting, HasPath;
    var w, p := Overwritten(t, x), RemovedPlace(t, x);
    FewItems(t, x);
    if |InOrder(t)| > 1 && At(t, PathTo(t, x)).Node? {
      RemovalLowers(t, x);
      var u := OnlyChild(At(w, p));
      if p == [] {
        WholeLowered(w, u);
      } else {
        var o, b := Parent(p), Last(p);
        ParentNode(w, p);
        SplitPath(p);
        ParentReplaced(w, p, u);
        ClimbStarts(At(w, o), b, u);
        AfterRemoval(w, Removed(t, x), o, [b]);
      }
    }
  }

  lemma FewItems<N>(t: Tree<N>, x: int)
    ensures |InOrder(t)| == 0 ==> At(t, PathTo(t, x)).Empty?
  {
  }

  lemma WholeLowered<N>(w: Tree<N>, u: Tree<N>)
    ensures HasPath(w, []) && Replace(w, [], u) == u && StaysBalanced(w, [])
  {
  }

  // ----- a tree that a removal leaves unbalanced

  /** An item added where its search ends, without a rotation. */
  function Grow(t: Tree<()>, x: int): Tree<()> {
    match t
    case Empty => Single((), x)
    case Node(_, l, y, r) =>
      if x < y then Node((), Grow(l, x), y, r)
      else if x > y then Node((), l, y, Grow(r, x))
      else t
  }

  lemma {:induction false} GrowsAtItsPlace(t: Tree<()>, x: int)
    ensures Grow(t, x) == if At(t, PathTo(t, x)).Node? then t else Replace(t, PathTo(t, x), Single((), x))
  {
    if t.Node? && x != t.item {
      var b := x > t.item;
      var p, q := PathTo(t, x), PathTo(Child(t, b), x);
      assert p == [b] + q && p[0] == b && p[1..] == q;
      assert t.ref == ();
      GrowsAtItsPlace(Child(t, b), x);
    }
  }

  /** Where the tree that has grown is balanced, no rotation took place. */
  lemma GrowthIsAddition(t: Tree<()>, x: int)
    requires Balanced(t) && Balanced(Grow(t, x))
    ensures AddedBalanced(t, x, ()) == Grow(t, x)
  {
    hide BalancedUp, Replace, At, PathTo, Balanced, Grown, Grow;
    var p := PathTo(t, x);
    GrowsAtItsPlace(t, x);
    if At(t, p).Empty? {
      var r := Replace(t, p, Single((), x));
      ReplaceAt(t, p, Single((), x));
      SingleGrown(At(t, p), (), x);
      AfterInsertion(t, r, p);
    }
  }

  /** The items added to the balanced form one by one. */
  function AddedFrom(items: seq<int>): Tree<()> {
    if items == [] then Empty else AddedBalanced(AddedFrom(items[..|items| - 1]), items[|items| - 1], ())
  }

  /** The same without rotations. */
  function GrownFrom(items: seq<int>): Tree<()> {
    if items == [] then Empty else Grow(GrownFrom(items[..|items| - 1]), items[|items| - 1])
  }

  function Tip(x: int): Tree<()> {
    Single((), x)
  }

  function Inner(l: Tree<()>, x: int, r: Tree<()>): Tree<()> {
    Node((), l, x, r)
  }

  const EIGHT_ITEMS := [20, 10, 50, 15, 40, 60, 30, 70]

  /** Eight items need no rotation when they are added in this order; taking out 15 unbalances their tree. */
  lemma RemovalUnbalances()
    ensures forall k :: 0 <= k <= 8 ==> AddedFrom(EIGHT_ITEMS[..k]) == GrownFrom(EIGHT_ITEMS[..k])
    ensures var t := AddedFrom(EIGHT_ITEMS); 15 in Items(t) && Balanced(t) && !Balanced(RemovedBalanced(t, 15))
  {
    EightBalanced();
    FifteenMissed();
    AddedToEight(8);
    assert EIGHT_ITEMS[..8] == EIGHT_ITEMS;
    RemovedIsBalanced(FirstItems(8), 15);
    forall k | 0 <= k <= 8
      ensures AddedFrom(EIGHT_ITEMS[..k]) == GrownFrom(EIGHT_ITEMS[..k])
    {
      AddedToEight(k);
    }
  }

  /** The tree of the first k items. */
  function FirstItems(k: nat): Tree<()>
    requires k <= 8
  {
    var ten := if k < 4 then Tip(10) else Inner(Empty, 10, Tip(15));
    var forty := if k < 5 then Empty else if k < 7 then Tip(40) else Inner(Tip(30), 40, Empty);
    var sixty := if k < 6 then Empty else if k < 8 then Tip(60) else Inner(Empty, 60, Tip(70));
    if k == 0 then Empty
    else Inner(if k < 2 then Empty else ten, 20, if k < 3 then Empty else Inner(forty, 50, sixty))
  }

  lemma {:induction false} AddedToEight(k: nat)
    requires k <= 8
    ensures GrownFrom(EIGHT_ITEMS[..k]) == FirstItems(k) && AddedFrom(EIGHT_ITEMS[..k]) == FirstItems(k)
  {
    hide Grow, AddedBalanced, FirstItems, Balanced;
    if k == 0 {
      NoItems();
    } else {
      AddedToEight(k - 1);
      assert EIGHT_ITEMS[..k][..k - 1] == EIGHT_ITEMS[..k - 1];
      NextItem(k - 1);
      EightBalanced();
      GrowthIsAddition(FirstItems(k - 1), EIGHT_ITEMS[k - 1]);
    }
  }

  lemma NoItems()
    ensures FirstItems(0) == Empty
  {
  }

  lemma NextItem(k: nat)
    requires k < 8
    ensures Grow(FirstItems(k), EIGHT_ITEMS[k]) == FirstItems(k + 1)
  {
    assert Grow(Empty, EIGHT_ITEMS[k]) == Tip(EIGHT_ITEMS[k]);
    assert Grow(Tip(10), 15) == Inner(Empty, 10, Tip(15));
    assert Grow(Tip(40), 30) == Inner(Tip(30), 40, Empty);
    assert Grow(Tip(60), 70) == Inner(Empty, 60, Tip(70));
  }

  lemma EightBalanced()
    ensures forall k :: 0 <= k <= 8 ==> Balanced(FirstItems(k))
  {
    assert Height(Tip(10)) == 1 && Balanced(Tip(10));
    assert Height(Tip(15)) == 1 && Height(Tip(30)) == 1 && Height(Tip(40)) == 1 &&
      Height(Tip(60)) == 1 && Height(Tip(70)) == 1;
  }

  lemma FifteenMissed()
    ensures var t := FirstItems(8);
            && 15 in Items(t) && At(t, PathTo(t, 15)).Node? && |InOrder(t)| > 1
            && !StaysBalanced(t, RemovedPlace(t, 15))
  {
    var ten := Inner(Empty, 10, Tip(15));
    var t := FirstItems(8);
    assert PathTo(Tip(15), 15) == [];
    assert PathTo(ten, 15) == [true];
    assert PathTo(t, 15) == [false, true];
    assert At(t, [false, true]) == Tip(15);
    assert [false, true][1..] == [true] && [true][1..] == [];
    assert Shrinks(ten, [true]);
    assert Height(ten) == 2;
    assert Misses(t, false);
  }
}

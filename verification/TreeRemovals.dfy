/**
 * Rebalancing after a removal.  A removal makes the subtree at one place lower
 * by one; the climb from there to the root rotates at every node whose
 * subtrees differ by two.  Where the higher child has two equally high
 * children, a double rotation is chosen, which does not always balance.
 */
module TreeRemovals {
  import opened BinaryTrees

  /** When the child on side b gets lower, its sibling is higher by two and has equally high children. */
  predicate EvenSibling<N>(t: Tree<N>, b: bool)
    requires t.Node?
  {
    var s := Child(t, !b);
    s.Node? && Height(s) == Height(Child(t, b)) + 1 && Height(s.left) == Height(s.right)
  }

  /** The double rotation then leaves the sibling unbalanced: what it gets beside its outer child is too low. */
  predicate Misses<N>(t: Tree<N>, b: bool)
    requires t.Node?
  {
    && EvenSibling(t, b)
    && var s := Child(t, !b);
       var inner := Child(s, b);
       inner.Node? && Height(Child(inner, !b)) + 1 != Height(Child(s, !b))
  }

  /** Whether the tree gets lower, too, when the subtree at the place does. */
  predicate Shrinks<N>(t: Tree<N>, p: Path)
    requires HasPath(t, p)
  {
    p == [] ||
    (Shrinks(Child(t, p[0]), p[1..]) && Height(Child(t, !p[0])) != Height(Child(t, p[0])) && !EvenSibling(t, p[0]))
  }

  /** On the way up from the place, the tree gets lower nowhere that a double rotation misses. */
  predicate StaysBalanced<N>(t: Tree<N>, p: Path)
    requires HasPath(t, p)
  {
    p == [] ||
    (StaysBalanced(Child(t, p[0]), p[1..]) && !(Shrinks(Child(t, p[0]), p[1..]) && Misses(t, p[0])))
  }

  predicate NearRoot<N>(t: Tree<N>) {
    t.Node? ==> Near(Height(t.left), Height(t.right))
  }

  /** The climb has left v in the place of the tree w, of which the subtree at p got lower. */
  ghost predicate Climbed<N>(w: Tree<N>, p: Path, v: Tree<N>)
    requires HasPath(w, p)
  {
    && NearRoot(v)
    && if Shrinks(w, p) then Balanced(v) && Height(v) + 1 == Height(w) && StaysBalanced(w, p)
       else Height(v) == Height(w) && (Balanced(v) <==> StaysBalanced(w, p))
  }

  // ----- one node of the climb

  /** One child is done, and the node itself has not been looked at. */
  ghost predicate Waiting<N>(w: Tree<N>, p: Path, v: Tree<N>)
    requires HasPath(w, p) && p != []
  {
    v.Node? && v == WithChild(w, p[0], Child(v, p[0])) && Climbed(Child(w, p[0]), p[1..], Child(v, p[0]))
  }

  lemma ClimbStarts<N>(w: Tree<N>, b: bool, u: Tree<N>)
    requires w.Node? && Balanced(u) && Height(u) + 1 == Height(Child(w, b))
    ensures HasPath(w, [b]) && Waiting(w, [b], WithChild(w, b, u))
  {
    assert [b][1..] == [];
    assert HasPath(Child(w, b), []) && Shrinks(Child(w, b), []) && StaysBalanced(Child(w, b), []);
    assert Child(WithChild(w, b, u), b) == u;
    assert u.Node? ==> Near(Height(u.left), Height(u.right));
  }

  /** A node that needs no rotation is done; another one is done after the rotation that is chosen for it. */
  lemma NodeClimbed<N>(w: Tree<N>, p: Path, v: Tree<N>)
    requires HasPath(w, p) && p != [] && Balanced(w) && Waiting(w, p, v)
    ensures if NearRoot(v) then Climbed(w, p, v) && Rebalanced(v) == v else Climbed(w, p, Rebalanced(v))
    ensures v.Node? && (!NearRoot(v) ==> Height(v.right) == Height(v.left) + 2 || Height(v.left) == Height(v.right) + 2)
    ensures !NearRoot(v) ==> Balanced(v.left) && Balanced(v.right)
  {
    var b := p[0];
    var x, c := Child(w, b), Child(v, b);
    if Shrinks(x, p[1..]) {
      hide Shrinks, StaysBalanced;
      ChildLower(w, b, c);
      HeightStays(w, p);
    } else {
      hide Rebalanced;
    }
  }

  /** What Shrinks and StaysBalanced say about a place below, one step unfolded. */
  lemma HeightStays<N>(t: Tree<N>, p: Path)
    requires HasPath(t, p) && p != [] && Shrinks(Child(t, p[0]), p[1..])
    ensures Shrinks(t, p) <==> Height(Child(t, !p[0])) != Height(Child(t, p[0])) && !EvenSibling(t, p[0])
    ensures StaysBalanced(t, p) <==> StaysBalanced(Child(t, p[0]), p[1..]) && !Misses(t, p[0])
  {
  }

  /** One child of a balanced node got lower by one. */
  lemma ChildLower<N>(w: Tree<N>, b: bool, c: Tree<N>)
    requires w.Node? && Balanced(w) && Balanced(c) && Height(c) + 1 == Height(Child(w, b))
    ensures var v := WithChild(w, b, c);
            && Balanced(v.left) && Balanced(v.right)
            && if NearRoot(v) then
                 && Balanced(v) && Rebalanced(v) == v && !EvenSibling(w, b)
                 && Height(v) + (if Height(Child(w, !b)) == Height(Child(w, b)) then 0 else 1) == Height(w)
               else
                 && Height(Child(v, !b)) == Height(c) + 2 && Height(Child(w, !b)) != Height(Child(w, b))
                 && NearRoot(Rebalanced(v))
                 && if EvenSibling(w, b) then
                      Height(Rebalanced(v)) == Height(w) && (Balanced(Rebalanced(v)) <==> !Misses(w, b))
                    else Height(Rebalanced(v)) + 1 == Height(w) && Balanced(Rebalanced(v))
  {
    var v := WithChild(w, b, c);
    if !NearRoot(v) {
      HigherSibling(w, b, c);
    }
  }

  lemma HigherSibling<N>(w: Tree<N>, b: bool, c: Tree<N>)
    requires w.Node? && Balanced(w) && Balanced(c) && Height(c) + 1 == Height(Child(w, b))
    requires Height(Child(w, !b)) == Height(c) + 2
    ensures var r := Rebalanced(WithChild(w, b, c));
            && NearRoot(r)
            && if EvenSibling(w, b) then Height(r) == Height(w) && (Balanced(r) <==> !Misses(w, b))
               else Height(r) + 1 == Height(w) && Balanced(r)
  {
    var v := WithChild(w, b, c);
    var s := Child(v, !b);
    HigherChild(s);
    hide Misses, Rebalanced, RotatedLeft, RotatedRight;
    RotationChosen(v);
    if EvenSibling(w, b) {
      EvenSiblingHigher(w, b, c);
    } else if b {
      if Height(s.left) > Height(s.right) {
        SingleRight(v);
      } else {
        DoubleRight(v);
      }
    } else {
      if Height(s.right) > Height(s.left) {
        SingleLeft(v);
      } else {
        DoubleLeft(v);
      }
    }
  }

  lemma EvenSiblingHigher<N>(w: Tree<N>, b: bool, c: Tree<N>)
    requires w.Node? && Balanced(w) && Balanced(c) && Height(c) + 1 == Height(Child(w, b)) && EvenSibling(w, b)
    ensures var r := Rebalanced(WithChild(w, b, c));
            NearRoot(r) && Height(r) == Height(w) && (Balanced(r) <==> !Misses(w, b))
  {
    var v := WithChild(w, b, c);
    hide Rebalanced;
    if b {
      EqualChildrenLeft(v);
    } else {
      EqualChildren(v);
    }
  }

  /** The rotation at a node one of whose subtrees is higher by two. */
  lemma RotationChosen<N>(v: Tree<N>)
    requires v.Node?
    ensures Height(v.right) == Height(v.left) + 2 ==>
              && v.right.Node? && HasPath(Rebalanced(v), [false])
              && At(Rebalanced(v), [false]).Node? && At(Rebalanced(v), [false]).ref == v.ref
              && if Height(v.right.right) > Height(v.right.left) then Rebalanced(v) == RotatedLeft(v)
                 else v.right.left.Node? && Rebalanced(v) == RotatedLeft(v.(right := RotatedRight(v.right)))
    ensures Height(v.left) == Height(v.right) + 2 ==>
              && v.left.Node? && HasPath(Rebalanced(v), [true])
              && At(Rebalanced(v), [true]).Node? && At(Rebalanced(v), [true]).ref == v.ref
              && if Height(v.left.left) > Height(v.left.right) then Rebalanced(v) == RotatedRight(v)
                 else v.left.right.Node? && Rebalanced(v) == RotatedRight(v.(left := RotatedLeft(v.left)))
  {
    HigherChild(v);
    HigherChild(v.left);
    HigherChild(v.right);
    assert [false][1..] == [] && [true][1..] == [];
  }

  /** Once a place is done, its parent waits. */
  lemma ParentWaits<N>(t: Tree<N>, q: Path, p: Path, v: Tree<N>)
    requires HasPath(t, q) && q != [] && HasPath(At(t, q), p) && Climbed(At(t, q), p, v)
    ensures var o, r := Parent(q), [Last(q)] + p;
            && HasPath(t, o) && At(t, o).Node? && HasPath(At(t, o), r) && o + r == q + p
            && HasPath(Replace(t, q, v), o)
            && var u := At(Replace(t, q, v), o);
               Waiting(At(t, o), r, u) && Replace(t, o, u) == Replace(t, q, v)
  {
    hide *;
    var o, b := Parent(q), Last(q);
    ParentNode(t, q);
    SplitPath(q);
    var d := At(t, o);
    ReplaceChild(t, o, b, v);
    ReplaceAt(t, o, WithChild(d, b, v));
    ChildWaits(d, b, p, v);
    assert o + ([b] + p) == q + p;
  }

  lemma ChildWaits<N>(t: Tree<N>, b: bool, p: Path, v: Tree<N>)
    requires t.Node? && HasPath(Child(t, b), p) && Climbed(Child(t, b), p, v)
    ensures HasPath(t, [b] + p) && Waiting(t, [b] + p, WithChild(t, b, v))
  {
    hide Climbed;
    assert ([b] + p)[1..] == p;
    assert Child(WithChild(t, b, v), b) == v;
  }

  // ----- where a removal takes place

  predicate TwoChildren<N>(t: Tree<N>) {
    t.Node? && t.left.Node? && t.right.Node?
  }

  /** The place of the node that is unlinked when x is removed. */
  function RemovedPlace<N>(t: Tree<N>, x: int): (p: Path)
    ensures HasPath(t, p)
  {
    var p := PathTo(t, x);
    if TwoChildren(At(t, p)) then NextPlace(t, p) else p
  }

  /** The place of the next item, when that is below. */
  function NextPlace<N>(t: Tree<N>, p: Path): (q: Path)
    requires HasPath(t, p) && TwoChildren(At(t, p))
    ensures HasPath(t, q) && q != [] &&
            At(t, q) == At(At(t, p).right, MinPath(At(t, p).right)) && AtMostOneChild(At(t, q))
  {
    Step(t, p, true);
    PathAppend(t, p + [true], MinPath(At(t, p).right));
    p + [true] + MinPath(At(t, p).right)
  }

  /** The tree before that node is unlinked: x may have been overwritten by the next item. */
  function Overwritten<N>(t: Tree<N>, x: int): Tree<N> {
    var p := PathTo(t, x);
    var u := At(t, p);
    if TwoChildren(u) then Replace(t, p, u.(item := Least(u.right))) else t
  }

  /** The tree after the removal of x, which has to be there. */
  function Removed<N>(t: Tree<N>, x: int): Tree<N> {
    OverwrittenForm(t, x);
    FormPlaces(t, Overwritten(t, x), RemovedPlace(t, x));
    var u := At(Overwritten(t, x), RemovedPlace(t, x));
    if u.Empty? then t else Replace(Overwritten(t, x), RemovedPlace(t, x), OnlyChild(u))
  }

  /** A removal unlinks one node, which has at most one child, in a tree of the same form as before. */
  lemma RemovalSkips<N>(t: Tree<N>, x: int)
    requires At(t, PathTo(t, x)).Node?
    ensures var w, p := Overwritten(t, x), RemovedPlace(t, x);
            && SameForm(t, w) && HasPath(w, p) && AtMostOneChild(At(w, p))
            && Removed(t, x) == Replace(w, p, OnlyChild(At(w, p)))
  {
    hide Overwritten, RemovedPlace, SameForm;
    var w, p := Overwritten(t, x), RemovedPlace(t, x);
    OverwrittenForm(t, x);
    FormPlaces(t, w, p);
    PlaceIsSmall(t, x);
    SmallForm(At(t, p), At(w, p));
  }

  /** In a balanced tree the unlinked node's subtree gets lower by one. */
  lemma RemovalLowers<N>(t: Tree<N>, x: int)
    requires Balanced(t) && At(t, PathTo(t, x)).Node?
    ensures var w, p := Overwritten(t, x), RemovedPlace(t, x);
            && Balanced(w) && HasPath(w, p) && AtMostOneChild(At(w, p)) && StaysBalanced(w, p) == StaysBalanced(t, p)
            && Removed(t, x) == Replace(w, p, OnlyChild(At(w, p)))
            && Balanced(OnlyChild(At(w, p))) && Height(OnlyChild(At(w, p))) + 1 == Height(At(w, p))
  {
    hide Overwritten, RemovedPlace, Shrinks, StaysBalanced, Removed, SameForm;
    var w, p := Overwritten(t, x), RemovedPlace(t, x);
    RemovalSkips(t, x);
    FormHeight(t, w);
    FormPlaces(t, w, p);
    BalancedAt(w, p);
  }

  lemma PlaceIsSmall<N>(t: Tree<N>, x: int)
    requires At(t, PathTo(t, x)).Node?
    ensures AtMostOneChild(At(t, RemovedPlace(t, x)))
  {
  }

  lemma SmallForm<N>(t: Tree<N>, u: Tree<N>)
    requires SameForm(t, u) && AtMostOneChild(t)
    ensures AtMostOneChild(u)
  {
  }

  /** Trees that differ in their items only. */
  predicate SameForm<N>(t: Tree<N>, u: Tree<N>) {
    if t.Empty? then u.Empty? else u.Node? && SameForm(t.left, u.left) && SameForm(t.right, u.right)
  }

  lemma {:induction false} SameFormItself<N>(t: Tree<N>)
    ensures SameForm(t, t)
  {
    if t.Node? {
      SameFormItself(t.left);
      SameFormItself(t.right);
    }
  }

  lemma {:induction false} FormReplaced<N>(t: Tree<N>, p: Path, u: Tree<N>)
    requires HasPath(t, p) && SameForm(At(t, p), u)
    ensures SameForm(t, Replace(t, p, u))
  {
    if p != [] {
      FormReplaced(Child(t, p[0]), p[1..], u);
      SameFormItself(Child(t, !p[0]));
    }
  }

  lemma OverwrittenForm<N>(t: Tree<N>, x: int)
    ensures SameForm(t, Overwritten(t, x))
  {
    var p := PathTo(t, x);
    var u := At(t, p);
    SameFormItself(t);
    SameFormItself(u);
    if TwoChildren(u) {
      FormReplaced(t, p, u.(item := Least(u.right)));
    }
  }

  lemma {:induction false} FormHeight<N>(t: Tree<N>, u: Tree<N>)
    requires SameForm(t, u)
    ensures Height(t) == Height(u) && (Balanced(t) <==> Balanced(u))
  {
    if t.Node? {
      FormHeight(t.left, u.left);
      FormHeight(t.right, u.right);
    }
  }

  lemma {:induction false} FormPlaces<N>(t: Tree<N>, u: Tree<N>, p: Path)
    requires SameForm(t, u) && HasPath(t, p)
    ensures HasPath(u, p) && SameForm(At(t, p), At(u, p))
    ensures Shrinks(t, p) == Shrinks(u, p) && StaysBalanced(t, p) == StaysBalanced(u, p)
  {
    if p != [] {
      var b := p[0];
      FormPlaces(Child(t, b), Child(u, b), p[1..]);
      SiblingForm(t, u, b);
    }
  }

  lemma SiblingForm<N>(t: Tree<N>, u: Tree<N>, b: bool)
    requires SameForm(t, u) && t.Node?
    ensures Height(Child(t, b)) == Height(Child(u, b)) && Height(Child(t, !b)) == Height(Child(u, !b))
    ensures EvenSibling(t, b) == EvenSibling(u, b) && Misses(t, b) == Misses(u, b)
  {
    hide Height;
    FormHeight(Child(t, b), Child(u, b));
    var s, r := Child(t, !b), Child(u, !b);
    FormHeight(s, r);
    if s.Node? {
      FormHeight(s.left, r.left);
      FormHeight(s.right, r.right);
      if Child(s, b).Node? {
        FormHeight(Child(Child(s, b), !b), Child(Child(r, b), !b));
      }
    }
  }
}

/**
 * The linked search tree and its balanced form.  Nodes have no parent
 * pointers: parents are found by searching for the node's item from the root,
 * which leaves behind in `direction` on which side of its parent the item is.
 */
module SearchTrees {
  import opened BinaryTrees
  import opened LinkedTrees
  import opened TreeClimbs
  import opened TreeRemovals

  class BinarySearchTree {
    var root: TreeNode?
    var direction: Direction
    var size: nat
    ghost var shape: Shape

    /** A linked search tree with as many nodes as `size` says. */
    ghost predicate Valid()
      reads this, Nodes(shape)
    {
      root == RootOf(shape) && Linked(shape) && Distinct(shape) && Sorted(shape) && size == |InOrder(shape)|
    }

    constructor ()
      ensures Valid() && shape == Empty
    {
      root, direction, size, shape := null, NotFound, 0, Empty;
    }

    /** The copy constructor. */
    constructor Copy(original: BinarySearchTree)
      requires original.Valid()
      ensures Valid() && fresh(Nodes(shape)) && original.Valid()
      ensures Plain(shape) == Plain(original.shape)
    {
      root, direction, size, shape := null, NotFound, 0, Empty;
      new;
      NodesAllocated(original.shape);
      CopyNodes(original);
    }

    /** The assignment operator; what the tree held before is given up. */
    method Assign(original: BinarySearchTree)
      requires Valid() && original.Valid() && (original == this || Nodes(shape) !! Nodes(original.shape))
      modifies this, if original == this then {} else Nodes(shape)
      ensures Valid() && original.Valid() && Plain(shape) == Plain(original.shape) == old(Plain(original.shape))
    {
      if original != this {
        NodesAllocated(original.shape);
        Clear();
        StillValid(original);
        CopyNodes(original);
      }
    }

    /** Takes out one leaf after the other, going down from each parent again. */
    method Clear()
      requires Valid()
      modifies this, Nodes(shape)
      ensures Valid() && shape == Empty
    {
      hide Sorted, Distinct, Items, Linked, InOrder, Nodes, Replace, BinaryTrees.Height;
      SizeZero(shape);
      NodesAllocated(shape);
      ghost var nodes := Nodes(shape);
      var current := root;
      ghost var q: Path := [];
      while size > 0
        invariant Valid() && (size > 0 ==> HasPath(shape, q) && At(shape, q).Node? && current == At(shape, q).ref)
        invariant Nodes(shape) <= nodes && forall n :: n in nodes ==> old(allocated(n))
        decreases size, if size > 0 then BinaryTrees.Height(At(shape, q)) else 0
      {
        SizeZero(shape);
        if size == 1 {
          root := null;
          size := 0;
          shape := Empty;
          EmptyWell();
        } else {
          LinkedAt(shape, q);
          LeafIsSmall(shape, q);
          if current.left != null {
            ChildBelow(shape, q, false);
            current := current.left;
            q := q + [false];
          } else if current.right != null {
            ChildBelow(shape, q, true);
            current := current.right;
            q := q + [true];
          } else {
            current := TakeLeaf(current, q);
            q := Parent(q);
          }
        }
      }
      SizeZero(shape);
    }

    /** The case of a leaf in clear. */
    method TakeLeaf(current: TreeNode, ghost q: Path) returns (parent: TreeNode)
      requires Valid() && q != [] && HasPath(shape, q) && At(shape, q).Node? && current == At(shape, q).ref
      requires At(shape, q).left.Empty? && At(shape, q).right.Empty?
      modifies this, Nodes(shape)
      ensures Valid() && size == old(size) - 1 && Nodes(shape) <= Nodes(old(shape))
      ensures shape == Replace(old(shape), q, Empty)
      ensures HasPath(shape, Parent(q)) && At(shape, Parent(q)).Node? && parent == At(shape, Parent(q)).ref
    {
      hide Sorted, Distinct, Items, Linked, InOrder, Nodes, Replace;
      ghost var s := shape;
      NodesAllocated(s);
      LinkedAt(s, q);
      SkippedNodes(s, q);
      SkipNode(s, q);
      HangsWhere(s, q);
      LeftOfParent(s, q);
      SkippedRoot(s, q);
      UpPath(s, q);
      parent := FindParent(current.item);
      Untouched(s);
      LinkedAt(s, Parent(q));
      label take:
      if parent.left == current {
        parent.left := null;
      } else {
        parent.right := null;
      }
      size := size - 1;
      Skipped@take(s, q);
      shape := Replace(s, q, Empty);
      ParentReplaced(s, q, Empty);
    }

    /** Adds the items of another tree in breadth-first order, which gives a tree of the same shape. */
    method CopyNodes(original: BinarySearchTree)
      requires Valid() && shape == Empty && original != this && original.Valid()
      modifies this
      ensures Valid() && fresh(Nodes(shape)) && original.Valid()
      ensures Plain(shape) == Plain(original.shape)
    {
      hide *;
      ghost var s := original.shape;
      NodesAllocated(s);
      ValidFacts(original);
      CopyStarts(shape, s);
      if original.size == 0 {
        return;
      }
      var queue: seq<TreeNode> := [original.root];
      ghost var places: seq<Path>, done := [[]], {};
      while |queue| > 0
        invariant Valid() && fresh(Nodes(shape))
        invariant Queued(s, places, queue) && Frontier(s, places, done) && Covered(s, places, done)
        invariant Plain(shape) == Prune(s, done)
        decreases Items(s) - done
      {
        Untouched(s);
        var current := queue[0];
        QueueStep(s, places, queue, done);
        AddNext(current, s, places, done);
        Untouched(s);
        LinkedAt(s, places[0]);
        ghost var t := At(s, places[0]);
        RootOfEmpty(t);
        places := places[1..] + ChildPlaces(s, places[0]);
        done := done + {t.item};
        queue := queue[1..];
        queue := if current.left != null then queue + [current.left] else queue;
        queue := if current.right != null then queue + [current.right] else queue;
      }
      QueueEmpty(s, places, queue);
      CopyEnds(s, places, done);
      StillValid(original);
    }

    /** Adds the item of the first node in the queue of CopyNodes. */
    method AddNext(current: TreeNode, ghost s: Shape, ghost places: seq<Path>, ghost done: set<int>)
      requires Valid() && Linked(s) && Sorted(s) && places != [] && Frontier(s, places, done)
      requires HasPath(s, places[0]) && current == RootOf(At(s, places[0])) && Plain(shape) == Prune(s, done)
      modifies this, Nodes(shape)
      ensures Valid() && (forall n :: n in Nodes(shape) ==> n in old(Nodes(shape)) || fresh(n)) &&
              At(s, places[0]).Node?
      ensures Plain(shape) == Prune(s, done + {At(s, places[0]).item})
    {
      hide Sorted, Distinct, Items, PathTo, Linked, InOrder, Nodes, Plain, Prune, Frontier, At, HasPath, Replace, Valid;
      CopyFirst(shape, s, places, done);
      LinkedAt(s, places[0]);
      RootOfEmpty(At(s, places[0]));
      ghost var was, x := shape, At(s, places[0]).item;
      assert current.item == x;
      var node := Add(current.item);
      assert shape == Replace(was, PathTo(was, x), Single(node, x));
      CopyAdded(was, s, places, done, node);
    }

    /** Follows the search for an element to the place where it ends; tells the node there, its parent, and its side. */
    method Find(element: int) returns (result: TreeNode?, parent: TreeNode?)
      requires Valid()
      modifies this`direction
      ensures Valid()
      ensures var p := PathTo(shape, element);
              && result == RootOf(At(shape, p)) && parent == ParentRef(shape, p)
              && direction == if result == null then NotFound else SideOf(p)
    {
      hide Sorted, Distinct, Items, PathTo, InOrder, At, HasPath, ParentRef, Nodes, Linked;
      NodesAllocated(shape);
      parent, result := null, root;
      direction := Root;
      SizeZero(shape);
      Untouched(shape);
      AtTop(shape);
      PathEnds(shape, [], element);
      if size == 0 {
        direction := NotFound;
        Untouched(shape);
        return;
      }
      if element == result.item {
        return;
      }
      ghost var q: Path := [];
      while true
        invariant HasPath(shape, q) && result != null && result == RootOf(At(shape, q)) && element != At(shape, q).item
        invariant PathTo(shape, element) == q + PathTo(At(shape, q), element)
        decreases At(shape, q)
      {
        Untouched(shape);
        LinkedAt(shape, q);
        ghost var b := element > result.item;
        StepPath(shape, q, element);
        LinkedAt(shape, q + [b]);
        parent := result;
        if element < result.item {
          direction := Left;
          result := result.left;
        } else if element > result.item {
          direction := Right;
          result := result.right;
        }
        q := q + [b];
        PathEnds(shape, q, element);
        if result == null {
          break;
        }
        if element == result.item {
          return;
        }
      }
      direction := NotFound;
      Untouched(shape);
    }

    method FindParent(element: int) returns (parent: TreeNode?)
      requires Valid()
      modifies this`direction
      ensures Valid()
      ensures var p := PathTo(shape, element);
              && parent == ParentRef(shape, p)
              && direction == if At(shape, p).Empty? then NotFound else SideOf(p)
    {
      var result;
      result, parent := Find(element);
    }

    method IsIn(element: int) returns (present: bool)
      requires Valid()
      modifies this`direction
      ensures Valid() && present == (element in Items(shape))
    {
      FoundIff(shape, element);
      var result, parent := Find(element);
      present := direction != NotFound;
    }

    /** The height of the tree below a node, which is the root of s. */
    function Height(startingNode: TreeNode?, ghost s: Shape): (h: nat)
      requires Linked(s) && startingNode == RootOf(s) && (size == 0 ==> s.Empty?)
      reads this, Nodes(s)
      ensures h == BinaryTrees.Height(s)
    {
      if size == 0 || startingNode == null then 0 else HeightRecursive(startingNode, s)
    }

    function HeightRecursive(current: TreeNode, ghost s: Shape): (h: nat)
      requires Linked(s) && current == RootOf(s)
      reads Nodes(s)
      ensures h == BinaryTrees.Height(s)
      decreases s
    {
      if current.left == null && current.right == null then 1
      else
        var leftHeight := if current.left != null then 1 + HeightRecursive(current.left, s.left) else 0;
        var rightHeight := if current.right != null then 1 + HeightRecursive(current.right, s.right) else 0;
        if leftHeight > rightHeight then leftHeight else rightHeight
    }

    /** Adds an element at the end of its search, as a new leaf; an element that is there already is not added again. */
    method Add(input: int) returns (node: TreeNode?)
      requires Valid()
      modifies this, Nodes(shape)
      ensures Valid() && (node == null <==> input in Items(old(shape)))
      ensures node == null ==> shape == old(shape)
      ensures node != null ==>
                && fresh(node) && node.item == input && Nodes(shape) == Nodes(old(shape)) + {node}
                && shape == Replace(old(shape), PathTo(old(shape), input), Single(node, input))
    {
      hide Sorted, Distinct, Items, PathTo, Nodes, Linked, Replace, InOrder;
      FoundIff(shape, input);
      SizeZero(shape);
      NodesAllocated(shape);
      if size == 0 {
        size := 1;
        node := new TreeNode(input);
        root := node;
        shape := Single(node, input);
        SingleWell(node, input);
        return;
      }
      var current := root;
      ghost var q: Path := [];
      while true
        invariant Valid() && shape == old(shape) && HasPath(shape, q) &&
                  current == RootOf(At(shape, q)) && current != null
        invariant PathTo(shape, input) == q + PathTo(At(shape, q), input)
        decreases At(shape, q)
      {
        LinkedAt(shape, q);
        NodesAt(shape, q);
        ghost var b := input > current.item;
        PathEnds(shape, q, input);
        if input < current.item {
          StepPath(shape, q, input);
          PathEnds(shape, q + [b], input);
          if current.left == null {
            node := HangLeaf(current, false, input, q);
            return;
          }
          current := current.left;
        } else if input > current.item {
          StepPath(shape, q, input);
          PathEnds(shape, q + [b], input);
          if current.right == null {
            node := HangLeaf(current, true, input, q);
            return;
          }
          current := current.right;
        } else {
          return null;
        }
        q := q + [b];
      }
    }

    /** A new leaf on an empty side of a node. */
    method HangLeaf(current: TreeNode, right: bool, input: int, ghost q: Path) returns (node: TreeNode)
      requires Valid() && HasPath(shape, q) && At(shape, q).Node? && current == At(shape, q).ref
      requires Child(At(shape, q), right).Empty? && PathTo(shape, input) == q + [right]
      modifies this, Nodes(shape)
      ensures Valid() && fresh(node) && node.item == input && Nodes(shape) == Nodes(old(shape)) + {node}
      ensures shape == Replace(old(shape), PathTo(old(shape), input), Single(node, input))
    {
      hide Sorted, Distinct, Items, PathTo, Nodes, Linked, Replace, InOrder;
      NodesAllocated(shape);
      NodesAt(shape, q);
      Step(shape, q, right);
      node := new TreeNode(input);
      label hang:
      if right {
        current.right := node;
      } else {
        current.left := node;
      }
      size := size + 1;
      LeafAdded@hang(shape, q, right, node, input);
      shape := Replace(shape, q + [right], Single(node, input));
    }

    // ----- removing

    /**
     * Takes an element out: its node is skipped, or takes over the next item.
     * A tree of one element is emptied whatever the element asked for.  The
     * result is the parent of the node that was unlinked.
     */
    method Del(input: int) returns (result: TreeNode?)
      requires Valid()
      modifies this, Nodes(shape)
      ensures Valid() && Nodes(shape) <= Nodes(old(shape))
      ensures Items(shape) == if old(size) == 1 then {} else Items(old(shape)) - {input}
      ensures if old(size) > 1 && input in Items(old(shape)) then
                && shape == Removed(old(shape), input)
                && result == RemovedParent(old(shape), input)
              else
                result == null && shape == if old(size) == 1 then Empty else old(shape)
    {
      hide Sorted, Distinct, Items, PathTo, Linked, InOrder, Nodes, Replace, NextUp, Removed;
      ghost var s, p := shape, PathTo(shape, input);
      NodesAllocated(s);
      FoundIff(s, input);
      SizeZero(s);
      EmptyItems(Empty);
      if size == 0 {
        EmptyItems(s);
        return null;
      }
      if size == 1 {
        Clear();
        return null;
      }
      var nodeToDelete, parent := Find(input);
      if direction == NotFound {
        return null;
      }
      Untouched(s);
      LinkedAt(s, p);
      if nodeToDelete.left == null || nodeToDelete.right == null {
        SkipNode(s, p);
        SkippedIsRemoved(s, input);
        SkipFound(nodeToDelete, parent, p);
        result := parent;
      } else {
        ReplaceNext(s, p);
        TakenIsRemoved(s, input);
        result := TakeNext(nodeToDelete, p);
      }
    }

    /** The three cases of del where the node has at most one child. */
    method SkipFound(current: TreeNode, parent: TreeNode?, ghost p: Path)
      requires Valid() && size > 1 && HasPath(shape, p) && AtMostOneChild(At(shape, p)) && current == At(shape, p).ref
      requires parent == ParentRef(shape, p) && direction == SideOf(p)
      modifies this, Nodes(shape)
      ensures Valid() && Nodes(shape) <= Nodes(old(shape))
      ensures shape == Replace(old(shape), p, OnlyChild(At(old(shape), p)))
    {
      hide Sorted, Distinct, Items, Linked, InOrder, Nodes, Replace;
      ghost var s := shape;
      NodesAllocated(s);
      LinkedAt(s, p);
      SkippedNodes(s, p);
      SkipNode(s, p);
      HangsWhere(s, p);
      LeafIsSmall(s, p);
      SkippedRoot(s, p);
      label skip:
      if current.right == null && current.left == null {
        if parent != null {
          if direction == Left {
            parent.left := null;
          } else {
            parent.right := null;
          }
        }
      } else if current.right != null && current.left == null {
        if parent != null {
          if direction == Right {
            parent.right := current.right;
          } else {
            parent.left := current.right;
          }
        } else {
          root := current.right;
        }
      } else {
        if parent != null {
          if direction == Right {
            parent.right := current.left;
          } else {
            parent.left := current.left;
          }
        } else {
          root := current.left;
        }
      }
      size := size - 1;
      Skipped@skip(s, p);
      shape := Replace(s, p, OnlyChild(At(s, p)));
    }

    /** Right, and then left as far as possible. */
    method GoToNext(nodeToDelete: TreeNode, ghost p: Path) returns (current: TreeNode, parent: TreeNode, ghost m: Path)
      requires Valid() && HasPath(shape, p) && At(shape, p).Node? && At(shape, p).right.Node?
      requires nodeToDelete == At(shape, p).ref
      modifies this`direction
      ensures Valid()
      ensures var r := At(shape, p).right;
              HasPath(r, m) && MinPath(r) == m && At(r, m).Node? && At(r, m).left.Empty? && current == At(r, m).ref
      ensures HasPath(shape, p + [true] + m)
      ensures parent == ParentRef(shape, p + [true] + m) && direction == SideOf(p + [true] + m)
    {
      hide Sorted, Distinct, Items, Linked, InOrder, Nodes, Replace, MinPath, HasPath, At;
      ghost var s := shape;
      ghost var t := At(s, p);
      NodesAllocated(s);
      LinkedAt(s, p);
      Step(s, p, true);
      parent := nodeToDelete;
      direction := Right;
      current := nodeToDelete.right;
      m := [];
      MinStarts(t.right);
      ParentOfNext(s, p, m);
      while current.left != null
        modifies this`direction
        invariant HasPath(t.right, m) && At(t.right, m).Node? && current == At(t.right, m).ref
        invariant MinPath(t.right) == m + MinPath(At(t.right, m))
        invariant HasPath(s, p + [true] + m) && At(s, p + [true] + m) == At(t.right, m)
        invariant parent == ParentRef(s, p + [true] + m) && direction == SideOf(p + [true] + m)
        decreases At(t.right, m)
      {
        Untouched(s);
        LinkedAt(s, p + [true] + m);
        MinStep(t.right, m);
        direction := Left;
        parent := current;
        current := current.left;
        m := m + [false];
        ParentOfNext(s, p, m);
      }
      Untouched(s);
      LinkedAt(s, p + [true] + m);
      LeastFound(t.right, m);
    }

    /** Hangs the right subtree of the next greater node where that node hangs. */
    method UnlinkNext(current: TreeNode, parent: TreeNode, ghost s: Shape, ghost q: Path)
      requires Linked(s) && Distinct(s) && HasPath(s, q) && q != [] && At(s, q).Node? && At(s, q).left.Empty?
      requires current == At(s, q).ref && parent == ParentRef(s, q) && direction == SideOf(q)
      modifies Nodes(s)
      ensures Linked(Replace(s, q, At(s, q).right))
    {
      hide Distinct, Items, Linked, InOrder, Nodes, Replace, HasPath, At, ParentRef;
      NodesAllocated(s);
      LinkedAt(s, q);
      HangsWhere(s, q);
      label unlink:
      if current.right == null {
        if direction == Right {
          parent.right := null;
        } else {
          parent.left := null;
        }
      } else {
        if direction == Right {
          parent.right := current.right;
        } else {
          parent.left := current.right;
        }
      }
      Skipped@unlink(s, q);
    }

    /** The case of two children: the next item is taken over, and its node skipped. */
    method TakeNext(nodeToDelete: TreeNode, ghost p: Path) returns (parent: TreeNode)
      requires Valid() && HasPath(shape, p) && At(shape, p).Node? && At(shape, p).left.Node? && At(shape, p).right.Node?
      requires nodeToDelete == At(shape, p).ref
      modifies this, Nodes(shape)
      ensures Valid() && Nodes(shape) <= Nodes(old(shape))
      ensures shape == Replace(old(shape), p, NextUp(At(old(shape), p)))
      ensures var q := p + [true] + MinPath(At(old(shape), p).right);
              HasPath(old(shape), q) && parent == ParentRef(old(shape), q)
    {
      hide Sorted, Distinct, Items, Linked, InOrder, Nodes, Replace, MinPath, NextUp, HasPath, At;
      ghost var s := shape;
      NodesAllocated(s);
      var current;
      ghost var m;
      current, parent, m := GoToNext(nodeToDelete, p);
      ghost var t, q := At(s, p), p + [true] + m;
      ghost var x := At(t.right, m).item;
      LeastFound(t.right, m);
      RelabelledPaths(s, p, x, m);
      LinkedAt(s, q);
      TurnNodes(s, p, true);
      ReplaceNext(s, p);
      label found:
      nodeToDelete.item := current.item;
      Relabelled@found(s, p, x);
      ghost var s1 := Replace(s, p, t.(item := x));
      SkippedNodes(s1, q);
      LinkedAt(s1, q);
      UnlinkNext(current, parent, s1, q);
      size := size - 1;
      shape := Replace(s, p, NextUp(t));
    }

    // ----- the balanced form

    /** The node to be turned down and its parent, both found from the root. */
    method FindTurn(C: TreeNode, ghost q: Path, ghost right: bool) returns (B: TreeNode, A: TreeNode?)
      requires Valid() && HasPath(shape, q) && At(shape, q).Node?
      requires Child(At(shape, q), right).Node? && Child(At(shape, q), right).ref == C
      modifies this`direction
      ensures Valid() && B == At(shape, q).ref && A == ParentRef(shape, q) && direction == SideOf(q)
      ensures A == null <==> q == []
    {
      hide Sorted, Distinct, Items, PathTo, Linked, InOrder, Nodes, At, HasPath, ParentRef;
      NodesAllocated(shape);
      TurnPaths(shape, q, right);
      TurnNodes(shape, q, right);
      AtTop(shape);
      B := FindParent(C.item);
      A := FindParent(B.item);
      Untouched(shape);
    }

    /** Turns the right child C of the node at q up into the place of that node. */
    method RotateLeft(C: TreeNode, ghost q: Path)
      requires Valid() && HasPath(shape, q) && At(shape, q).Node?
      requires At(shape, q).right.Node? && At(shape, q).right.ref == C
      modifies this, Nodes(shape)
      ensures Valid() && Nodes(shape) == Nodes(old(shape)) && Items(shape) == Items(old(shape)) && size == old(size)
      ensures shape == Replace(old(shape), q, RotatedLeft(At(old(shape), q)))
    {
      hide Sorted, Distinct, Items, PathTo, Linked, Replace, InOrder, Nodes, At, HasPath, ParentRef;
      ghost var t := At(shape, q);
      NodesAllocated(shape);
      TurnNodes(shape, q, true);
      var B, A := FindTurn(C, q, true);
      Untouched(shape);
      var D := C.left;
      label turn:
      if A != null {
        if direction == Left {
          A.left := C;
        } else {
          A.right := C;
        }
      } else {
        root := C;
      }
      B.right := D;
      C.left := B;
      LeftRotated@turn(shape, q);
      RotateLeftKeeps(t);
      if Sorted(t) {
        RotateLeftSorted(t);
      }
      Turned(shape, q, RotatedLeft(t));
      shape := Replace(shape, q, RotatedLeft(t));
    }

    /** Turns the left child C of the node at q up into the place of that node. */
    method RotateRight(C: TreeNode, ghost q: Path)
      requires Valid() && HasPath(shape, q) && At(shape, q).Node?
      requires At(shape, q).left.Node? && At(shape, q).left.ref == C
      modifies this, Nodes(shape)
      ensures Valid() && Nodes(shape) == Nodes(old(shape)) && Items(shape) == Items(old(shape)) && size == old(size)
      ensures shape == Replace(old(shape), q, RotatedRight(At(old(shape), q)))
    {
      hide Sorted, Distinct, Items, PathTo, Linked, Replace, InOrder, Nodes, At, HasPath, ParentRef;
      ghost var t := At(shape, q);
      NodesAllocated(shape);
      TurnNodes(shape, q, false);
      var B, A := FindTurn(C, q, false);
      Untouched(shape);
      var D := C.right;
      label turnRight:
      if A != null {
        if direction == Left {
          A.left := C;
        } else {
          A.right := C;
        }
      } else {
        root := C;
      }
      B.left := D;
      C.right := B;
      RightRotated@turnRight(shape, q);
      RotateRightKeeps(t);
      if Sorted(t) {
        RotateRightSorted(t);
      }
      Turned(shape, q, RotatedRight(t));
      shape := Replace(shape, q, RotatedRight(t));
    }

    /** A left rotation one step down on the right, and then here. */
    method DoubleRotateLeft(A: TreeNode, ghost q: Path)
      requires Valid() && HasPath(shape, q) && At(shape, q).Node? && At(shape, q).ref == A
      requires At(shape, q).right.Node? && At(shape, q).right.left.Node?
      modifies this, Nodes(shape)
      ensures Valid() && Nodes(shape) == Nodes(old(shape)) && Items(shape) == Items(old(shape)) && size == old(size)
      ensures var t := At(old(shape), q);
              shape == Replace(old(shape), q, RotatedLeft(t.(right := RotatedRight(t.right))))
    {
      hide Sorted, Distinct, Items, PathTo, Linked, InOrder, Nodes;
      DownAndBack(shape, q, true, RotatedRight(At(shape, q).right));
      LinkedAt(shape, q);
      LinkedAt(shape, q + [true]);
      RotateRight(A.right.left, q + [true]);
      LinkedAt(shape, q);
      RotateLeft(A.right, q);
    }

    method DoubleRotateRight(A: TreeNode, ghost q: Path)
      requires Valid() && HasPath(shape, q) && At(shape, q).Node? && At(shape, q).ref == A
      requires At(shape, q).left.Node? && At(shape, q).left.right.Node?
      modifies this, Nodes(shape)
      ensures Valid() && Nodes(shape) == Nodes(old(shape)) && Items(shape) == Items(old(shape)) && size == old(size)
      ensures var t := At(old(shape), q);
              shape == Replace(old(shape), q, RotatedRight(t.(left := RotatedLeft(t.left))))
    {
      hide Sorted, Distinct, Items, PathTo, Linked, InOrder, Nodes;
      DownAndBack(shape, q, false, RotatedLeft(At(shape, q).left));
      LinkedAt(shape, q);
      LinkedAt(shape, q + [false]);
      RotateLeft(A.left.right, q + [false]);
      LinkedAt(shape, q);
      RotateRight(A.left, q);
    }

    /** Rotates at a node if its subtrees differ by two. */
    method RotateAt(current: TreeNode, ghost q: Path) returns (rotated: bool, ghost c: Path)
      requires Valid() && HasPath(shape, q) && At(shape, q).Node? && At(shape, q).ref == current
      modifies this, Nodes(shape)
      ensures Valid() && Nodes(shape) == Nodes(old(shape)) && Items(shape) == Items(old(shape)) && size == old(size)
      ensures rotated == HeightsDiffer(At(old(shape), q))
      ensures shape == if rotated then Replace(old(shape), q, Rebalanced(At(old(shape), q))) else old(shape)
      ensures HasPath(shape, c) && At(shape, c).Node? && At(shape, c).ref == current
      ensures if rotated then c != [] && Parent(c) == q else c == q
    {
      hide Sorted, Distinct, Items, PathTo, Linked, InOrder, Nodes, Replace, BinaryTrees.Height, Rebalanced;
      hide RotatedLeft, RotatedRight;
      ghost var s, u := shape, At(shape, q);
      LinkedAt(s, q);
      RotationChosen(u);
      HigherChild(u.left);
      HigherChild(u.right);
      SizeZero(s);
      assert s.Node?;
      var leftHeight := if current.left == null then 0 else Height(current.left, u.left);
      var rightHeight := if current.right == null then 0 else Height(current.right, u.right);
      if rightHeight - leftHeight == 2 {
        RotatedDown(s, q, Rebalanced(u), false);
        if RightHigher(current.right, u.right) {
          RotateLeft(current.right, q);
        } else {
          DoubleRotateLeft(current, q);
        }
        return true, q + [false];
      } else if rightHeight - leftHeight == -2 {
        RotatedDown(s, q, Rebalanced(u), true);
        if LeftHigher(current.left, u.left) {
          RotateRight(current.left, q);
        } else {
          DoubleRotateRight(current, q);
        }
        return true, q + [true];
      }
      return false, q;
    }

    /**
     * balance_tree: goes up to the root, or to the first rotation, and rotates
     * wherever two subtrees differ by two, as often as they do.
     */
    method BalanceTree(node: TreeNode?, rotateOnce: bool, ghost p: Path)
      requires Valid()
      requires node != null ==> HasPath(shape, p) && At(shape, p).Node? && At(shape, p).ref == node
      modifies this, Nodes(shape)
      ensures Valid() && Nodes(shape) == Nodes(old(shape)) && Items(shape) == Items(old(shape)) && size == old(size)
      ensures shape == if node == null then old(shape) else BalancedUp(old(shape), p, rotateOnce)
    {
      hide Sorted, Distinct, Items, PathTo, Linked, InOrder, Nodes, Replace, At, HasPath;
      hide BinaryTrees.Height, HeightsDiffer, Turns, Rebalanced, BalancedUp;
      var current := node;
      if node == null {
        return;
      }
      NodesAllocated(shape);
      ghost var q, goal := p, BalancedUp(shape, p, rotateOnce);
      while current != null
        invariant Valid() && Nodes(shape) == Nodes(old(shape)) && Items(shape) == Items(old(shape)) && size == old(size)
        invariant HasPath(shape, q) && At(shape, q).Node? && At(shape, q).ref == current
        invariant BalancedUp(shape, q, rotateOnce) == goal
        decreases |q|, Turns(At(shape, q))
      {
        ClimbStep(shape, q, rotateOnce);
        var rotated, c := RotateAt(current, q);
        if rotated && rotateOnce {
          break;
        }
        OnlyRootAtTop(shape, c);
        if current == root {
          break;
        }
        UpPath(shape, c);
        LinkedAt(shape, c);
        current := FindParent(current.item);
        q := Parent(c);
      }
    }

    function RightHigher(A: TreeNode?, ghost s: Shape): (b: bool)
      requires Linked(s) && A == RootOf(s) && size > 0
      reads this, Nodes(s)
      ensures b == (s.Node? && BinaryTrees.Height(s.right) > BinaryTrees.Height(s.left))
    {
      A != null && Height(A.right, s.right) > Height(A.left, s.left)
    }

    function LeftHigher(A: TreeNode?, ghost s: Shape): (b: bool)
      requires Linked(s) && A == RootOf(s) && size > 0
      reads this, Nodes(s)
      ensures b == (s.Node? && BinaryTrees.Height(s.left) > BinaryTrees.Height(s.right))
    {
      A != null && Height(A.left, s.left) > Height(A.right, s.right)
    }

    /** The add of the balanced form, for every search tree; a balanced one remains balanced. */
    method AddBalanced(input: int)
      requires Valid()
      modifies this, Nodes(shape)
      ensures Valid() && fresh(Nodes(shape) - old(Nodes(shape)))
      ensures Items(shape) == Items(old(shape)) + {input}
      ensures exists n :: shape == AddedBalanced(old(shape), input, n)
      ensures Balanced(old(shape)) ==> Balanced(shape)
    {
      hide Sorted, Distinct, Items, PathTo, Linked, InOrder, Nodes, Replace, At, HasPath, Balanced, BalancedUp;
      ghost var s, p := shape, PathTo(shape, input);
      FoundIff(s, input);
      var current := Add(input);
      ghost var n: TreeNode;
      if current != null {
        n := current;
        InsertSorted(s, input, n);
        ReplaceAt(s, p, Single(n, input));
      } else {
        n := At(s, p).ref;
      }
      BalanceTree(current, true, p);
      assert shape == AddedBalanced(s, input, n);
      if Balanced(s) {
        AddedIsBalanced(s, input, n);
      }
    }

    /**
     * The del of the balanced form, for every search tree; a balanced one
     * remains balanced exactly when no double rotation on the way up misses.
     */
    method DelBalanced(input: int)
      requires Valid()
      modifies this, Nodes(shape)
      ensures Valid() && Nodes(shape) <= Nodes(old(shape))
      ensures Items(shape) == if old(size) == 1 then {} else Items(old(shape)) - {input}
      ensures shape == RemovedBalanced(old(shape), input)
      ensures Balanced(old(shape)) ==>
                (Balanced(shape) <==>
                 old(size) <= 1 || input !in Items(old(shape)) ||
                 StaysBalanced(old(shape), RemovedPlace(old(shape), input)))
    {
      hide Sorted, Distinct, Items, PathTo, Linked, InOrder, Nodes, Replace, At, HasPath, Balanced, BalancedUp;
      hide Removed, RemovedPlace, Overwritten, StaysBalanced;
      ghost var s, p := shape, RemovedPlace(shape, input);
      FoundIff(s, input);
      FewItems(s, input);
      if input in Items(s) {
        ParentOfRemoved(s, input);
      }
      var current := Del(input);
      BalanceTree(current, false, if p == [] then [] else Parent(p));
      assert shape == RemovedBalanced(s, input);
      if Balanced(s) {
        RemovedIsBalanced(s, input);
      }
    }

    // ----- walking

    /** The way up in the walk below. */
    method WalkParent(current: TreeNode, ghost q: Path) returns (parent: TreeNode)
      requires Valid() && HasPath(shape, q) && q != [] && At(shape, q).Node? && current == At(shape, q).ref
      modifies this`direction
      ensures Valid() && direction == SideOf(q)
      ensures HasPath(shape, Parent(q)) && At(shape, Parent(q)).Node? && parent == At(shape, Parent(q)).ref
    {
      hide Sorted, Distinct, PathTo, Linked, InOrder, Nodes, At, HasPath;
      LinkedAt(shape, q);
      UpPath(shape, q);
      parent := FindParent(current.item);
    }

    /**
     * Fills the array with the elements in order.  There is no stack and no
     * way up from a node but a search from the root; the direction that search
     * leaves behind and a flag tell which part of a node has been done.
     */
    method DisplayInorder(returnArray: array<int>)
      requires Valid() && size <= returnArray.Length
      modifies this`direction, returnArray
      ensures Valid() && returnArray[..] == InOrder(shape) + old(returnArray[..])[size..]
    {
      hide Sorted, Distinct, Items, PathTo, Linked, InOrder, Nodes;
      SizeZero(shape);
      NodesAllocated(shape);
      if size == 0 {
        assert InOrder(shape) == [];
        return;
      } else if size == 1 {
        ghost var rest := returnArray[..];
        returnArray[0] := root.item;
        OnlyItem(shape);
        Untouched(shape);
        OneMorePrinted([], rest, root.item);
        return;
      }
      WalkInorder(returnArray);
    }

    /** The loop of displayInorder. */
    method WalkInorder(returnArray: array<int>)
      requires Valid() && 0 < size <= returnArray.Length
      modifies this`direction, returnArray
      ensures Valid() && returnArray[..] == InOrder(shape) + old(returnArray[..])[size..]
    {
      hide Sorted, Distinct, Items, PathTo, Linked, InOrder, Nodes, BinaryTrees.Height, WalkAt, At, HasPath;
      NodesAllocated(shape);
      SizeZero(shape);
      var current := root;
      ghost var rest := returnArray[..];
      var justPrinted := false;
      var index := 0;
      ghost var q: Path, done: seq<int> := [], [];
      direction := Root;
      WalkStarts(shape);
      AtTop(shape);
      while index != size
        invariant index == |done| <= size && HasPath(shape, q) && current != null && current == RootOf(At(shape, q))
        invariant WalkAt(shape, q, direction, justPrinted, done)
        invariant returnArray[..] == done + rest[index..]
        decreases size - index, Phase(direction, justPrinted),
                  if direction == Root then BinaryTrees.Height(At(shape, q)) else |q|
      {
        Untouched(shape);
        LinkedAt(shape, q);
        WalkIsAtNode(shape, q, direction, justPrinted, done);
        if current.left != null && direction != Left && direction != Right {
          WalkLeft(shape, q, direction, justPrinted, done);
          current := current.left;
          direction := Root;
          q := q + [false];
        } else if direction != Right && !justPrinted {
          WalkPrints(shape, q, direction, done);
          OneMorePrinted(done, rest, current.item);
          returnArray[index] := current.item;
          index := index + 1;
          justPrinted := true;
          done := done + [current.item];
        } else if current.right != null && direction != Right {
          WalkRight(shape, q, direction, done);
          current := current.right;
          direction := Root;
          justPrinted := false;
          q := q + [true];
        } else {
          WalkUp(shape, q, direction, justPrinted, done);
          current := WalkParent(current, q);
          justPrinted := false;
          q := Parent(q);
        }
      }
      Untouched(shape);
      WalkDone(shape, q, direction, justPrinted, done);
    }
  }

  lemma ValidFacts(h: BinarySearchTree)
    requires h.Valid()
    ensures h.root == RootOf(h.shape) && Linked(h.shape) && Sorted(h.shape) && (h.size == 0 <==> h.shape.Empty?)
    ensures h.shape.Node? ==> h.root != null && Queued(h.shape, [[]], [h.root])
  {
    hide Sorted, Linked;
    SizeZero(h.shape);
  }

  twostate lemma StillValid(h: BinarySearchTree)
    requires old(h.Valid()) && unchanged(h)
    requires forall n :: n in Nodes(h.shape) ==> old(allocated(n))
    requires forall n :: n in Nodes(h.shape) ==>
               n.item == old(n.item) && n.left == old(n.left) && n.right == old(n.right)
    ensures h.Valid()
  {
    Untouched(h.shape);
  }
}

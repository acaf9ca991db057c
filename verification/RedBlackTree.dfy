module RedBlackTree {
  import opened RedBlackNode
  import opened RedBlackShape
  import opened RedBlackLinks
  import opened RedBlackInsert
  import opened RedBlackDelete
  import opened RedBlackOrder

  class RbTree {
    const compare: CompareFunc
    const root: RbNode
    const nil: RbNode
    ghost var shape: Tree

    // ----- Invariant --------------------------------------------------------

    ghost function Cells(): set<RbNode>
      reads this
    {
      Nodes(shape) + {root}
    }

    ghost function Contents(): seq<RbNode>
      reads this
    {
      InOrder(shape)
    }

    ghost predicate Valid()
      reads this, nil, Cells()
    {
      && Comparator(compare)
      && !nil.red
      && Focus(Snap(Cells()), nil, root, Top, shape, root.left, root)
      && IsRedBlack(shape)
      && Sorted(compare, Contents())
    }

    constructor (compare: CompareFunc)
      requires Comparator(compare)
      ensures Valid() && Contents() == [] && fresh(root) && fresh(nil) && this.compare == compare
    {
      this.compare := compare;
      var temp := new RbNode.Sentinel();
      nil := temp;
      root := new RbNode(0, 0, temp);
      shape := Leaf;
    }

    /** The pointers already form the tree `s`. */
    ghost method Adopt(s: Tree, cells: set<RbNode>)
      requires Comparator(compare) && !nil.red
      requires Focus(Snap(cells), nil, root, Top, s, root.left, root)
      requires IsRedBlack(s) && Sorted(compare, InOrder(s))
      modifies this`shape
      ensures Valid() && shape == s
    {
      FocusKept(Snap(cells), Snap(Nodes(s) + {root}), nil, root, Top, s, root.left, root);
      shape := s;
    }

    // ----- Rotations --------------------------------------------------------

    method LeftRotate(x: RbNode, ghost cells: set<RbNode>)
      requires CanRotateLeft(Snap(cells), nil, x)
      modifies cells`left, cells`right, cells`parent
      ensures LeftRotated(old(Snap(cells)), Snap(cells), nil, x)
    {
      var y := x.right;
      x.right := y.left;
      if y.left != nil { y.left.parent := x; }
      y.parent := x.parent;
      if x == x.parent.left {
        x.parent.left := y;
      } else {
        x.parent.right := y;
      }
      y.left := x;
      x.parent := y;
    }

    method RightRotate(y: RbNode, ghost cells: set<RbNode>)
      requires CanRotateRight(Snap(cells), nil, y)
      modifies cells`left, cells`right, cells`parent
      ensures RightRotated(old(Snap(cells)), Snap(cells), nil, y)
    {
      var x := y.left;
      y.left := x.right;
      if nil != x.right { x.right.parent := y; }
      x.parent := y.parent;
      if y == y.parent.left {
        y.parent.left := x;
      } else {
        y.parent.right := x;
      }
      x.right := y;
      y.parent := x;
    }

    // ----- Insertion --------------------------------------------------------

    /** The descent of TreeInsertHelp: `y` is to become the new node's parent. */
    method InsertionPoint(key: VoidPtr, ghost cells: set<RbNode>, ghost s: Tree) returns (y: RbNode, ghost c: Path)
      requires Comparator(compare) && Focus(Snap(cells), nil, root, Top, s, root.left, root)
      requires Sorted(compare, InOrder(s))
      ensures Snap(cells) == old(Snap(cells))
      ensures Plug(c, Leaf) == s && Focus(Snap(cells), nil, root, c, Leaf, nil, y)
      ensures NoneAbove(compare, Before(c), key) && AllAbove(compare, After(c), key)
    {
      ghost var st := Snap(cells);
      ghost var t := s;
      c := Top;
      y := root;
      var x := root.left;
      while x != nil
        invariant Focus(st, nil, root, c, t, x, y)
        invariant Plug(c, t) == s
        invariant NoneAbove(compare, Before(c), key) && AllAbove(compare, After(c), key)
        decreases t
      {
        InOrderPlug(c, t);
        assert t.Br? && x in st && st[x] == Links(x.left, x.right, x.parent, x.red);
        y := x;
        if 1 == Compare(compare, x.key, key) {
          SearchLeft(compare, InOrder(s), c, t, key);
          MoveLeft(st, nil, root, c, t, x, x.parent);
          c, t := InLeft(c, t.red, x, t.right), t.left;
          x := x.left;
        } else {
          SearchRight(compare, InOrder(s), c, t, key);
          MoveRight(st, nil, root, c, t, x, x.parent);
          c, t := InRight(c, t.red, t.left, x), t.right;
          x := x.right;
        }
      }
    }

    /** The last lines of TreeInsertHelp: `z` becomes a child of `y`. */
    method HangUnder(z: RbNode, y: RbNode, ghost cells: set<RbNode>)
      requires z in cells && y in cells && z != y
      modifies cells`left, cells`right, cells`parent
      ensures HungUnder(old(Snap(cells)), Snap(cells), z, y, y != root && 1 != Compare(compare, y.key, z.key))
    {
      z.parent := y;
      if y == root || 1 == Compare(compare, y.key, z.key) {
        y.left := z;
      } else {
        y.right := z;
      }
    }

    method TreeInsertHelp(z: RbNode, ghost cells: set<RbNode>, ghost s: Tree) returns (ghost c: Path)
      requires Comparator(compare) && Sorted(compare, InOrder(s))
      requires Focus(Snap(cells), nil, root, Top, s, root.left, root)
      requires z in cells && z !in Nodes(s) && z != root
      modifies cells`left, cells`right, cells`parent
      ensures Plug(c, Leaf) == s
      ensures Focus(Snap(cells), nil, root, c, Br(z.red, Leaf, z, Leaf), z, z.parent)
      ensures NoneAbove(compare, Before(c), z.key) && AllAbove(compare, After(c), z.key)
    {
      ghost var st0 := Snap(cells);
      z.left, z.right := nil, nil;
      ghost var st := Snap(cells);
      assert st[z] == Links(nil, nil, z.parent, z.red);
      FocusKept(st0, st, nil, root, Top, s, root.left, root);
      var y;
      y, c := InsertionPoint(z.key, cells, s);
      AttachSide(st, c, y, z.key);
      NodesPlug(c, Leaf);
      HangUnder(z, y, cells);
      Attached(st, Snap(cells), nil, root, c, y, z);
      assert Snap(cells)[z] == Links(z.left, z.right, z.parent, z.red);
    }

    lemma AttachSide(st: Store, c: Path, y: RbNode, key: VoidPtr)
      requires Focus(st, nil, root, c, Leaf, nil, y)
      requires NoneAbove(compare, Before(c), key) && AllAbove(compare, After(c), key)
      ensures y in st && (c.InRight? <==> y != root && 1 != Compare(compare, y.key, key))
    {
      if c.InLeft? { assert After(c)[0] == c.node; }
      if c.InRight? { assert Before(c)[|Before(c)| - 1] == c.node; }
    }

    method SetRed(n: RbNode, red: bool, ghost cells: set<RbNode>)
      modifies n`red
      ensures n.red == red
      ensures Snap(cells) == if n in cells then Paint(old(Snap(cells)), n, red) else old(Snap(cells))
    {
      n.red := red;
    }

    /** The red-uncle case: parent and uncle `y` turn black, the grandparent red. */
    method RecolourUncle(x: RbNode, y: RbNode, ghost cells: set<RbNode>)
      requires x in cells && y in cells && x.parent in cells && x.parent.parent in cells
      modifies cells`red
      ensures old(x.parent in cells && x.parent.parent in cells)
      ensures Snap(cells)
           == Paint(Paint(Paint(old(Snap(cells)), old(x.parent), false), y, false), old(x.parent.parent), true)
    {
      SetRed(x.parent, false, cells);
      SetRed(y, false, cells);
      SetRed(x.parent.parent, true, cells);
    }

    /** The outer-grandchild case: the parent turns black and the grandparent red. */
    method RecolourGrandparent(x: RbNode, ghost cells: set<RbNode>)
      requires x in cells && x.parent in cells && x.parent.parent in cells
      modifies cells`red
      ensures old(x.parent in cells && x.parent.parent in cells)
      ensures Snap(cells) == Paint(Paint(old(Snap(cells)), old(x.parent), false), old(x.parent.parent), true)
    {
      SetRed(x.parent, false, cells);
      SetRed(x.parent.parent, true, cells);
    }

    /** The red-uncle case, the same on both sides. */
    method InsertClimb(z: RbNode, y: RbNode, ghost cells: set<RbNode>, ghost c: Path, ghost t: Tree, ghost h: int)
      returns (x: RbNode)
      requires Inserting(Snap(cells), nil, root, c, t, h, z, z.parent)
      requires CtxRed(c) && !c.up.Top? && IsRed(Uncle(c))
      requires y == if c.up.InLeft? then z.parent.parent.right else z.parent.parent.left
      modifies cells`red
      ensures Inserting(Snap(cells), nil, root, c.up.up, PushRedUp(c, t), h + 1, x, x.parent)
      ensures Whole(c.up.up, PushRedUp(c, t)) == Whole(c, t)
    {
      ghost var st := Snap(cells);
      AroundInserted(st, nil, root, c, t, h, z, z.parent);
      RecolourUncle(z, y, cells);
      RedUncleStep(st, nil, root, c, t, h, z, st[z].parent);
      x := z.parent.parent;
      assert x == st[st[z].parent].parent && x.parent == st[x].parent;
    }

    /** The black-uncle case below a left-hand parent. */
    method InsertRotateLeft(z: RbNode, ghost cells: set<RbNode>, ghost c: Path, ghost t: Tree, ghost h: int)
      returns (x: RbNode, ghost c': Path, ghost t': Tree, ghost rotations: nat)
      requires Inserting(Snap(cells), nil, root, c, t, h, z, z.parent)
      requires CtxRed(c) && !c.up.Top? && c.up.InLeft? && !IsRed(Uncle(c))
      modifies cells`left, cells`right, cells`parent, cells`red
      ensures Inserting(Snap(cells), nil, root, c', t', h, x, x.parent)
      ensures !CtxRed(c') && Whole(c', t') == Whole(c, t) && rotations <= 2
    {
      ghost var st := Snap(cells);
      AroundInserted(st, nil, root, c, t, h, z, z.parent);
      x, c', t', rotations := z, c, t, 0;
      if x == x.parent.right {
        x := x.parent;
        StraightenReady(st, nil, root, c, t, h, z, x);
        LeftRotate(x, cells);
        StraightenStep(st, Snap(cells), nil, root, c, t, h, z, x);
        c', t', rotations := Straighten(c, t).0, Straighten(c, t).1, 1;
      }
      ghost var st1 := Snap(cells);
      AroundInserted(st1, nil, root, c', t', h, x, st1[x].parent);
      RecolourGrandparent(x, cells);
      SettleReady(st1, nil, root, c', t', h, x, st1[x].parent);
      RightRotate(x.parent.parent, cells);
      SettleStep(st1, Snap(cells), nil, root, c', t', h, x, st1[x].parent);
      c', rotations := Settle(c'), rotations + 1;
      AroundInserted(Snap(cells), nil, root, c', t', h, x, st1[x].parent);
    }

    /** One round of the fix-up loop below a left-hand parent. */
    method InsertFixLeft(z: RbNode, ghost cells: set<RbNode>, ghost c: Path, ghost t: Tree, ghost h: int)
      returns (x: RbNode, ghost c': Path, ghost t': Tree, ghost h': int, ghost rotations: nat)
      requires !nil.red && Inserting(Snap(cells), nil, root, c, t, h, z, z.parent)
      requires CtxRed(c) && !c.up.Top? && c.up.InLeft?
      modifies cells`left, cells`right, cells`parent, cells`red
      ensures Inserting(Snap(cells), nil, root, c', t', h', x, x.parent)
      ensures Whole(c', t') == Whole(c, t)
      ensures if CtxRed(c') then rotations == 0 && Depth(c') < Depth(c) else rotations <= 2
    {
      AroundInserted(Snap(cells), nil, root, c, t, h, z, z.parent);
      x, rotations := z, 0;
      var y := x.parent.parent.right;
      if y.red {
        x := InsertClimb(x, y, cells, c, t, h);
        c', t', h' := c.up.up, PushRedUp(c, t), h + 1;
      } else {
        x, c', t', rotations := InsertRotateLeft(x, cells, c, t, h);
        h' := h;
      }
    }

    /** The black-uncle case below a right-hand parent. */
    method InsertRotateRight(z: RbNode, ghost cells: set<RbNode>, ghost c: Path, ghost t: Tree, ghost h: int)
      returns (x: RbNode, ghost c': Path, ghost t': Tree, ghost rotations: nat)
      requires Inserting(Snap(cells), nil, root, c, t, h, z, z.parent)
      requires CtxRed(c) && !c.up.Top? && c.up.InRight? && !IsRed(Uncle(c))
      modifies cells`left, cells`right, cells`parent, cells`red
      ensures Inserting(Snap(cells), nil, root, c', t', h, x, x.parent)
      ensures !CtxRed(c') && Whole(c', t') == Whole(c, t) && rotations <= 2
    {
      ghost var st := Snap(cells);
      AroundInserted(st, nil, root, c, t, h, z, z.parent);
      x, c', t', rotations := z, c, t, 0;
      if x == x.parent.left {
        x := x.parent;
        StraightenReady(st, nil, root, c, t, h, z, x);
        RightRotate(x, cells);
        StraightenStep(st, Snap(cells), nil, root, c, t, h, z, x);
        c', t', rotations := Straighten(c, t).0, Straighten(c, t).1, 1;
      }
      ghost var st1 := Snap(cells);
      AroundInserted(st1, nil, root, c', t', h, x, st1[x].parent);
      RecolourGrandparent(x, cells);
      SettleReady(st1, nil, root, c', t', h, x, st1[x].parent);
      LeftRotate(x.parent.parent, cells);
      SettleStep(st1, Snap(cells), nil, root, c', t', h, x, st1[x].parent);
      c', rotations := Settle(c'), rotations + 1;
      AroundInserted(Snap(cells), nil, root, c', t', h, x, st1[x].parent);
    }

    /** One round of the fix-up loop below a right-hand parent. */
    method InsertFixRight(z: RbNode, ghost cells: set<RbNode>, ghost c: Path, ghost t: Tree, ghost h: int)
      returns (x: RbNode, ghost c': Path, ghost t': Tree, ghost h': int, ghost rotations: nat)
      requires !nil.red && Inserting(Snap(cells), nil, root, c, t, h, z, z.parent)
      requires CtxRed(c) && !c.up.Top? && c.up.InRight?
      modifies cells`left, cells`right, cells`parent, cells`red
      ensures Inserting(Snap(cells), nil, root, c', t', h', x, x.parent)
      ensures Whole(c', t') == Whole(c, t)
      ensures if CtxRed(c') then rotations == 0 && Depth(c') < Depth(c) else rotations <= 2
    {
      AroundInserted(Snap(cells), nil, root, c, t, h, z, z.parent);
      x, rotations := z, 0;
      var y := x.parent.parent.left;
      if y.red {
        x := InsertClimb(x, y, cells, c, t, h);
        c', t', h' := c.up.up, PushRedUp(c, t), h + 1;
      } else {
        x, c', t', rotations := InsertRotateRight(x, cells, c, t, h);
        h' := h;
      }
    }

    /** The loop of RBTreeInsert and the line after it. */
    method InsertFixUp(z: RbNode, ghost cells: set<RbNode>, ghost c0: Path, ghost t0: Tree, ghost h0: int)
      returns (ghost s: Tree, ghost rotations: nat)
      requires !nil.red && Inserting(Snap(cells), nil, root, c0, t0, h0, z, z.parent)
      modifies cells`left, cells`right, cells`parent, cells`red
      ensures Focus(Snap(cells), nil, root, Top, s, root.left, root)
      ensures IsRedBlack(s) && InOrder(s) == Whole(c0, t0) && rotations <= 2
    {
      var x := z;
      ghost var c, t, h := c0, t0, h0;
      rotations := 0;
      AroundInserted(Snap(cells), nil, root, c, t, h, x, x.parent);
      while x.parent.red
        invariant !nil.red
        invariant Inserting(Snap(cells), nil, root, c, t, h, x, x.parent) && Whole(c, t) == Whole(c0, t0)
        invariant rotations <= 2 && (CtxRed(c) ==> rotations == 0)
        invariant x.parent in cells && (x.parent.red <==> CtxRed(c))
        decreases if CtxRed(c) then 1 + Depth(c) else 0
      {
        AroundInserted(Snap(cells), nil, root, c, t, h, x, x.parent);
        if x.parent == x.parent.parent.left {
          x, c, t, h, rotations := InsertFixLeft(x, cells, c, t, h);
        } else {
          x, c, t, h, rotations := InsertFixRight(x, cells, c, t, h);
        }
        AroundInserted(Snap(cells), nil, root, c, t, h, x, x.parent);
      }
      InsertDone(Snap(cells), nil, root, c, t, h, x, x.parent);
      s := Blacken(Plug(c, t));
      SetRed(root.left, false, cells);
    }

    /** Creates a node and inserts it after every node whose key is not above `key`. */
    method RBTreeInsert(key: VoidPtr, info: VoidPtr)
      returns (newNode: RbNode, ghost k: nat, ghost rotations: nat)
      requires Valid()
      modifies this`shape, Cells()`left, Cells()`right, Cells()`parent, Cells()`red
      ensures Valid() && fresh(newNode) && newNode.key == key && newNode.info == info
      ensures k <= |old(Contents())|
      ensures Contents() == old(Contents())[..k] + [newNode] + old(Contents())[k..]
      ensures NoneAbove(compare, old(Contents())[..k], key) && AllAbove(compare, old(Contents())[k..], key)
      ensures rotations <= 2
      ensures Cells() == old(Cells()) + {newNode}
    {
      newNode := MakeNode(key, info);
      ghost var s, cells := shape, Nodes(shape) + {root} + {newNode};
      s, k, rotations := LinkNode(newNode, cells, shape);
      Adopt(s, cells);
    }

    /** A node that is not in the tree yet. */
    method MakeNode(key: VoidPtr, info: VoidPtr) returns (x: RbNode)
      requires Valid()
      ensures fresh(x) && x.key == key && x.info == info && !x.red
      ensures x !in Nodes(shape) && x != root && x != nil
      ensures Focus(Snap(Nodes(shape) + {root} + {x}), nil, root, Top, shape, root.left, root)
    {
      ghost var st := Snap(Cells());
      x := new RbNode(key, info, nil);
      FocusKept(st, Snap(Nodes(shape) + {root} + {x}), nil, root, Top, shape, root.left, root);
    }

    /** The new node goes into the tree `s`, and the colours are put right. */
    method LinkNode(x: RbNode, ghost cells: set<RbNode>, ghost s: Tree)
      returns (ghost s': Tree, ghost k: nat, ghost rotations: nat)
      requires Comparator(compare) && Sorted(compare, InOrder(s)) && IsRedBlack(s) && !nil.red
      requires Focus(Snap(cells), nil, root, Top, s, root.left, root)
      requires x in cells && x !in Nodes(s) && x != root && x != nil && !x.red
      modifies cells`left, cells`right, cells`parent, cells`red
      ensures !nil.red && Focus(Snap(cells), nil, root, Top, s', root.left, root)
      ensures IsRedBlack(s') && Sorted(compare, InOrder(s')) && rotations <= 2
      ensures k <= |InOrder(s)| && InOrder(s') == InOrder(s)[..k] + [x] + InOrder(s)[k..] && Nodes(s') == Nodes(s) + {x}
      ensures NoneAbove(compare, InOrder(s)[..k], x.key) && AllAbove(compare, InOrder(s)[k..], x.key)
    {
      ghost var c := TreeInsertHelp(x, cells, s);
      k := |Before(c)|;
      ghost var h := InsertBegins(s, Snap(cells), c, x, x.parent);
      SetRed(x, true, cells);
      s', rotations := InsertFixUp(x, cells, c, Br(true, Leaf, x, Leaf), h);
      NodesGained(s, s', k, x);
    }

    lemma {:induction false} NodesGained(s: Tree, s': Tree, k: nat, x: RbNode)
      requires k <= |InOrder(s)| && InOrder(s') == InOrder(s)[..k] + [x] + InOrder(s)[k..]
      ensures Nodes(s') == Nodes(s) + {x}
    {
      NodesInOrder(s);
      NodesInOrder(s');
      assert InOrder(s) == InOrder(s)[..k] + InOrder(s)[k..];
    }

    lemma InsertBegins(s: Tree, st: Store, c: Path, x: RbNode, p: RbNode) returns (h: int)
      requires Comparator(compare) && Sorted(compare, InOrder(s)) && IsRedBlack(s) && Plug(c, Leaf) == s
      requires NoneAbove(compare, Before(c), x.key) && AllAbove(compare, After(c), x.key)
      requires Focus(st, nil, root, c, Br(false, Leaf, x, Leaf), x, p)
      ensures InOrder(s) == Before(c) + After(c) && Sorted(compare, Before(c) + [x] + After(c))
      ensures Whole(c, Br(true, Leaf, x, Leaf)) == Before(c) + [x] + After(c)
      ensures x in st && Inserting(Paint(st, x, true), nil, root, c, Br(true, Leaf, x, Leaf), h, x, p)
    {
      InOrderPlug(c, Leaf);
      assert Before(c) + [] + After(c) == Before(c) + After(c);
      SortedInsert(compare, Before(c), After(c), x);
      h := ColouredUnplug(c, Leaf);
      Painted(st, nil, root, c, Br(false, Leaf, x, Leaf), x, p, true);
      assert InOrder(Br(true, Leaf, x, Leaf)) == [x];
    }

    // ----- Deletion ---------------------------------------------------------

    /** Between rounds: either still one black short at `x`, or done with `x` sent to the old top. */
    ghost predicate Fixing(st: Store, done: bool, c: Path, t: Tree, h: int, x: RbNode, p: RbNode, top: RbNode,
                           all: seq<RbNode>) {
      if done then
        x == top && c.Top? && Finished(st, nil, root, t, top) && InOrder(t) == all
      else
        Deleting(st, nil, root, c, t, h, x, p) && Whole(c, t) == all && (IsRed(t) || TopNode(c, x) == top)
    }

    /** The parent pointer of `x` agrees with the tree, when it is a node of it. */
    lemma XParent(cells: set<RbNode>, c: Path, t: Tree, x: RbNode, p: RbNode)
      requires Focus(Snap(cells), nil, root, c, t, x, p)
      ensures p in cells && (t.Br? ==> x in cells && x.parent == p)
    {
      ParentThere(Snap(cells), nil, root, c, t, x, p);
      if t.Br? {
        assert Snap(cells)[x].parent == p;
      }
    }

    /** Case 1 of RBDeleteFixUp for a left-hand `x`: its sibling `w0` is red. */
    method DeleteRaiseLeft(x: RbNode, w0: RbNode, ghost cells: set<RbNode>, ghost c: Path, ghost t: Tree, ghost h: int)
      returns (w: RbNode)
      requires Deleting(Snap(cells), nil, root, c, t, h, x, x.parent) && !IsRed(t)
      requires c.InLeft? && IsRed(Sibling(c)) && w0 == x.parent.right
      modifies cells`left, cells`right, cells`parent, cells`red
      ensures Deleting(Snap(cells), nil, root, RaiseSibling(c), t, h, x, x.parent)
      ensures Whole(RaiseSibling(c), t) == Whole(c, t)
      ensures w == x.parent.right
    {
      ghost var st, p := Snap(cells), x.parent;
      AroundDeleted(st, nil, root, c, t, h, x, p);
      RaiseReady(st, nil, root, c, t, x, p);
      SetRed(w0, false, cells);
      SetRed(x.parent, true, cells);
      LeftRotate(x.parent, cells);
      RaiseStep(st, Snap(cells), nil, root, c, t, h, x, p);
      XParent(cells, RaiseSibling(c), t, x, p);
      w := x.parent.right;
    }

    /** Case 3 of RBDeleteFixUp for a left-hand `x`: its sibling `w0` and the far nephew
        are black, the near one is red. */
    method DeleteTurnLeft(x: RbNode, w0: RbNode, ghost cells: set<RbNode>, ghost c: Path, ghost t: Tree, ghost h: int)
      returns (w: RbNode)
      requires Deleting(Snap(cells), nil, root, c, t, h, x, x.parent) && !IsRed(t)
      requires c.InLeft? && Sibling(c).Br? && !IsRed(Sibling(c)) && w0 == x.parent.right
      requires IsRed(NearNephew(c)) && !IsRed(FarNephew(c))
      modifies cells`left, cells`right, cells`parent, cells`red
      ensures Deleting(Snap(cells), nil, root, TurnSibling(c), t, h, x, x.parent)
      ensures Whole(TurnSibling(c), t) == Whole(c, t) && IsRed(FarNephew(TurnSibling(c)))
      ensures w == x.parent.right
    {
      ghost var st, p := Snap(cells), x.parent;
      AroundDeleted(st, nil, root, c, t, h, x, p);
      TurnReady(st, nil, root, c, t, x, p);
      SetRed(w0.left, false, cells);
      SetRed(w0, true, cells);
      RightRotate(w0, cells);
      TurnStep(st, Snap(cells), nil, root, c, t, h, x, p);
      XParent(cells, TurnSibling(c), t, x, p);
      w := x.parent.right;
    }

    /** Case 4 of RBDeleteFixUp for a left-hand `x`: its sibling `w` is black and the far nephew red. */
    method DeleteAbsorbLeft(x: RbNode, w: RbNode, ghost cells: set<RbNode>, ghost c: Path, ghost t: Tree,
                            ghost h: int, ghost top: RbNode)
      requires Deleting(Snap(cells), nil, root, c, t, h, x, x.parent) && !IsRed(t)
      requires c.InLeft? && KnewTop(c, top) && Sibling(c).Br? && !IsRed(Sibling(c)) && w == x.parent.right
      requires IsRed(FarNephew(c))
      modifies cells`left, cells`right, cells`parent, cells`red
      ensures Finished(Snap(cells), nil, root, Plug(c.up, Absorb(c, t)), top)
      ensures InOrder(Plug(c.up, Absorb(c, t))) == Whole(c, t)
    {
      ghost var st, p := Snap(cells), x.parent;
      AroundDeleted(st, nil, root, c, t, h, x, p);
      AbsorbReady(st, nil, root, c, t, x, p);
      SetRed(w, x.parent.red, cells);
      SetRed(x.parent, false, cells);
      SetRed(w.right, false, cells);
      LeftRotate(x.parent, cells);
      AbsorbStep(st, Snap(cells), nil, root, c, t, h, x, p, top);
    }

    /** Cases 2 to 4 of RBDeleteFixUp for a left-hand `z`: its sibling `w0` is black. */
    method DeleteSettleLeft(z: RbNode, w0: RbNode, top: RbNode, ghost cells: set<RbNode>, ghost c: Path,
                            ghost t: Tree, ghost h: int)
      returns (x: RbNode, ghost done: bool, ghost c': Path, ghost t': Tree, ghost h': int, ghost rotations: nat)
      requires !nil.red && Deleting(Snap(cells), nil, root, c, t, h, z, z.parent) && !IsRed(t)
      requires c.InLeft? && Sibling(c).Br? && !IsRed(Sibling(c)) && w0 == z.parent.right
      requires KnewTop(c, top) && (c.red || TopNode(c, z) == top)
      modifies cells`left, cells`right, cells`parent, cells`red
      ensures Fixing(Snap(cells), done, c', t', h', x, x.parent, top, Whole(c, t))
      ensures if done then rotations <= 2 else rotations == 0 && (IsRed(t') <==> c.red) && c' == c.up
    {
      x, rotations := z, 0;
      ghost var p := x.parent;
      AroundDeleted(Snap(cells), nil, root, c, t, h, x, p);
      var w := w0;
      if !w.right.red && !w.left.red {
        RedSiblingStep(Snap(cells), nil, root, c, t, h, x, p);
        SetRed(w, true, cells);
        x := x.parent;
        done, c', t', h' := false, c.up, Fill(RedSibling(c), t), if c.red then h else h + 1;
      } else {
        ghost var c1 := c;
        if !w.right.red {
          w := DeleteTurnLeft(x, w, cells, c, t, h);
          c1, rotations := TurnSibling(c), 1;
        }
        DeleteAbsorbLeft(x, w, cells, c1, t, h, top);
        x := top;
        done, c', t', h', rotations := true, Top, Plug(c1.up, Absorb(c1, t)), 0, rotations + 1;
      }
    }

    /** One round of RBDeleteFixUp for a left-hand `z`. */
    method DeleteFixLeft(z: RbNode, top: RbNode, ghost cells: set<RbNode>, ghost c: Path, ghost t: Tree, ghost h: int)
      returns (x: RbNode, ghost done: bool, ghost c': Path, ghost t': Tree, ghost h': int, ghost rotations: nat)
      requires !nil.red && Deleting(Snap(cells), nil, root, c, t, h, z, z.parent) && !IsRed(t)
      requires c.InLeft? && TopNode(c, z) == top
      modifies cells`left, cells`right, cells`parent, cells`red
      ensures Fixing(Snap(cells), done, c', t', h', x, x.parent, top, Whole(c, t))
      ensures !done ==> IsRed(t') || (Depth(c') < Depth(c) && rotations == 0)
      ensures rotations <= if done then 3 else 1
    {
      AroundDeleted(Snap(cells), nil, root, c, t, h, z, z.parent);
      var w := z.parent.right;
      if w.red {
        w := DeleteRaiseLeft(z, w, cells, c, t, h);
        AroundDeleted(Snap(cells), nil, root, RaiseSibling(c), t, h, z, z.parent);
        SiblingThere(RaiseSibling(c), t, h);
        x, done, c', t', h', rotations := DeleteSettleLeft(z, w, top, cells, RaiseSibling(c), t, h);
        rotations := rotations + 1;
      } else {
        x, done, c', t', h', rotations := DeleteSettleLeft(z, w, top, cells, c, t, h);
      }
    }

    /** Case 1 of RBDeleteFixUp for a right-hand `x`: its sibling `w0` is red. */
    method DeleteRaiseRight(x: RbNode, w0: RbNode, ghost cells: set<RbNode>, ghost c: Path, ghost t: Tree, ghost h: int)
      returns (w: RbNode)
      requires Deleting(Snap(cells), nil, root, c, t, h, x, x.parent) && !IsRed(t)
      requires c.InRight? && IsRed(Sibling(c)) && w0 == x.parent.left
      modifies cells`left, cells`right, cells`parent, cells`red
      ensures Deleting(Snap(cells), nil, root, RaiseSibling(c), t, h, x, x.parent)
      ensures Whole(RaiseSibling(c), t) == Whole(c, t)
      ensures w == x.parent.left
    {
      ghost var st, p := Snap(cells), x.parent;
      AroundDeleted(st, nil, root, c, t, h, x, p);
      RaiseReady(st, nil, root, c, t, x, p);
      SetRed(w0, false, cells);
      SetRed(x.parent, true, cells);
      RightRotate(x.parent, cells);
      RaiseStep(st, Snap(cells), nil, root, c, t, h, x, p);
      XParent(cells, RaiseSibling(c), t, x, p);
      w := x.parent.left;
    }

    /** Case 3 of RBDeleteFixUp for a right-hand `x`: its sibling `w0` and the far nephew
        are black, the near one is red. */
    method DeleteTurnRight(x: RbNode, w0: RbNode, ghost cells: set<RbNode>, ghost c: Path, ghost t: Tree, ghost h: int)
      returns (w: RbNode)
      requires Deleting(Snap(cells), nil, root, c, t, h, x, x.parent) && !IsRed(t)
      requires c.InRight? && Sibling(c).Br? && !IsRed(Sibling(c)) && w0 == x.parent.left
      requires IsRed(NearNephew(c)) && !IsRed(FarNephew(c))
      modifies cells`left, cells`right, cells`parent, cells`red
      ensures Deleting(Snap(cells), nil, root, TurnSibling(c), t, h, x, x.parent)
      ensures Whole(TurnSibling(c), t) == Whole(c, t) && IsRed(FarNephew(TurnSibling(c)))
      ensures w == x.parent.left
    {
      ghost var st, p := Snap(cells), x.parent;
      AroundDeleted(st, nil, root, c, t, h, x, p);
      TurnReady(st, nil, root, c, t, x, p);
      SetRed(w0.right, false, cells);
      SetRed(w0, true, cells);
      LeftRotate(w0, cells);
      TurnStep(st, Snap(cells), nil, root, c, t, h, x, p);
      XParent(cells, TurnSibling(c), t, x, p);
      w := x.parent.left;
    }

    /** Case 4 of RBDeleteFixUp for a right-hand `x`: its sibling `w` is black and the far nephew red. */
    method DeleteAbsorbRight(x: RbNode, w: RbNode, ghost cells: set<RbNode>, ghost c: Path, ghost t: Tree,
                             ghost h: int, ghost top: RbNode)
      requires Deleting(Snap(cells), nil, root, c, t, h, x, x.parent) && !IsRed(t)
      requires c.InRight? && KnewTop(c, top) && Sibling(c).Br? && !IsRed(Sibling(c)) && w == x.parent.left
      requires IsRed(FarNephew(c))
      modifies cells`left, cells`right, cells`parent, cells`red
      ensures Finished(Snap(cells), nil, root, Plug(c.up, Absorb(c, t)), top)
      ensures InOrder(Plug(c.up, Absorb(c, t))) == Whole(c, t)
    {
      ghost var st, p := Snap(cells), x.parent;
      AroundDeleted(st, nil, root, c, t, h, x, p);
      AbsorbReady(st, nil, root, c, t, x, p);
      SetRed(w, x.parent.red, cells);
      SetRed(x.parent, false, cells);
      SetRed(w.left, false, cells);
      RightRotate(x.parent, cells);
      AbsorbStep(st, Snap(cells), nil, root, c, t, h, x, p, top);
    }

    /** Cases 2 to 4 of RBDeleteFixUp for a right-hand `z`: its sibling `w0` is black. */
    method DeleteSettleRight(z: RbNode, w0: RbNode, top: RbNode, ghost cells: set<RbNode>, ghost c: Path,
                             ghost t: Tree, ghost h: int)
      returns (x: RbNode, ghost done: bool, ghost c': Path, ghost t': Tree, ghost h': int, ghost rotations: nat)
      requires !nil.red && Deleting(Snap(cells), nil, root, c, t, h, z, z.parent) && !IsRed(t)
      requires c.InRight? && Sibling(c).Br? && !IsRed(Sibling(c)) && w0 == z.parent.left
      requires KnewTop(c, top) && (c.red || TopNode(c, z) == top)
      modifies cells`left, cells`right, cells`parent, cells`red
      ensures Fixing(Snap(cells), done, c', t', h', x, x.parent, top, Whole(c, t))
      ensures if done then rotations <= 2 else rotations == 0 && (IsRed(t') <==> c.red) && c' == c.up
    {
      x, rotations := z, 0;
      ghost var p := x.parent;
      AroundDeleted(Snap(cells), nil, root, c, t, h, x, p);
      var w := w0;
      if !w.right.red && !w.left.red {
        RedSiblingStep(Snap(cells), nil, root, c, t, h, x, p);
        SetRed(w, true, cells);
        x := x.parent;
        done, c', t', h' := false, c.up, Fill(RedSibling(c), t), if c.red then h else h + 1;
      } else {
        ghost var c1 := c;
        if !w.left.red {
          w := DeleteTurnRight(x, w, cells, c, t, h);
          c1, rotations := TurnSibling(c), 1;
        }
        DeleteAbsorbRight(x, w, cells, c1, t, h, top);
        x := top;
        done, c', t', h', rotations := true, Top, Plug(c1.up, Absorb(c1, t)), 0, rotations + 1;
      }
    }

    /** One round of RBDeleteFixUp for a right-hand `z`. */
    method DeleteFixRight(z: RbNode, top: RbNode, ghost cells: set<RbNode>, ghost c: Path, ghost t: Tree, ghost h: int)
      returns (x: RbNode, ghost done: bool, ghost c': Path, ghost t': Tree, ghost h': int, ghost rotations: nat)
      requires !nil.red && Deleting(Snap(cells), nil, root, c, t, h, z, z.parent) && !IsRed(t)
      requires c.InRight? && TopNode(c, z) == top
      modifies cells`left, cells`right, cells`parent, cells`red
      ensures Fixing(Snap(cells), done, c', t', h', x, x.parent, top, Whole(c, t))
      ensures !done ==> IsRed(t') || (Depth(c') < Depth(c) && rotations == 0)
      ensures rotations <= if done then 3 else 1
    {
      AroundDeleted(Snap(cells), nil, root, c, t, h, z, z.parent);
      var w := z.parent.left;
      if w.red {
        w := DeleteRaiseRight(z, w, cells, c, t, h);
        AroundDeleted(Snap(cells), nil, root, RaiseSibling(c), t, h, z, z.parent);
        SiblingThere(RaiseSibling(c), t, h);
        x, done, c', t', h', rotations := DeleteSettleRight(z, w, top, cells, RaiseSibling(c), t, h);
        rotations := rotations + 1;
      } else {
        x, done, c', t', h', rotations := DeleteSettleRight(z, w, top, cells, c, t, h);
      }
    }

    method RBDeleteFixUp(z: RbNode, ghost cells: set<RbNode>, ghost c0: Path, ghost t0: Tree, ghost h0: int)
      returns (ghost s: Tree, ghost rotations: nat)
      requires !nil.red && Deleting(Snap(cells), nil, root, c0, t0, h0, z, z.parent)
      modifies cells`left, cells`right, cells`parent, cells`red, nil`red
      ensures !nil.red && Focus(Snap(cells), nil, root, Top, s, root.left, root)
      ensures IsRedBlack(s) && InOrder(s) == Whole(c0, t0) && rotations <= 3
    {
      var top := root.left;
      var x := z;
      ghost var done, c, t, h := false, c0, t0, h0;
      rotations := 0;
      TopIsRootLeft(Snap(cells), nil, root, c, x, x.parent);
      XColour(cells, done, c, t, h, x, top, Whole(c0, t0));
      while !x.red && top != x
        invariant !nil.red
        invariant Fixing(Snap(cells), done, c, t, h, x, x.parent, top, Whole(c0, t0))
        invariant if done then x == top else x.red == IsRed(t)
        invariant rotations <= if done then 3 else if IsRed(t) then 1 else 0
        decreases if done || IsRed(t) then 0 else 1 + Depth(c)
      {
        AroundDeleted(Snap(cells), nil, root, c, t, h, x, x.parent);
        ghost var k;
        if x == x.parent.left {
          x, done, c, t, h, k := DeleteFixLeft(x, top, cells, c, t, h);
        } else {
          x, done, c, t, h, k := DeleteFixRight(x, top, cells, c, t, h);
        }
        rotations := rotations + k;
        XColour(cells, done, c, t, h, x, top, Whole(c0, t0));
      }
      s := if done then t else Plug(c, Blacken(t));
      FixEnds(cells, done, c, t, h, x, top, Whole(c0, t0));
      SetRed(x, false, cells);
    }

    lemma XColour(cells: set<RbNode>, done: bool, c: Path, t: Tree, h: int, x: RbNode, top: RbNode, all: seq<RbNode>)
      requires !nil.red && Fixing(Snap(cells), done, c, t, h, x, x.parent, top, all)
      ensures !done ==> x.red == IsRed(t)
      ensures !done && !IsRed(t) && x != top ==> !c.Top?
    {
      if !done && t.Br? {
        assert Snap(cells)[x].red == x.red;
      }
    }

    /** When the loop is left, painting `x` black gives a red-black tree. */
    lemma FixEnds(cells: set<RbNode>, done: bool, c: Path, t: Tree, h: int, x: RbNode, top: RbNode, all: seq<RbNode>)
      requires !nil.red && Fixing(Snap(cells), done, c, t, h, x, x.parent, top, all)
      requires done || IsRed(t) || x == top
      ensures var st := Snap(cells);
        var st' := if x in cells then Paint(st, x, false) else st;
        var s := if done then t else Plug(c, Blacken(t));
        root in st' && Focus(st', nil, root, Top, s, st'[root].left, root) && IsRedBlack(s) && InOrder(s) == all
    {
      var st := Snap(cells);
      if done {
        assert Paint(st, x, false) == st;
      } else {
        ShortageEnds(st, nil, root, c, t, h, x, x.parent, top);
      }
    }

    /** The opening of RBDelete: `y`, which has at most one child, leaves the tree. */
    method SpliceOut(y: RbNode, ghost cells: set<RbNode>) returns (x: RbNode)
      requires y in cells && y.parent in cells && root in cells && nil !in cells
      requires var x := if y.left == nil then y.right else y.left; x != y.parent && (x in cells || x == nil)
      requires y.parent == root ==> root.left == y
      modifies cells`left, cells`right, cells`parent, nil`parent
      ensures x == old(if y.left == nil then y.right else y.left) && x.parent == old(y.parent)
      ensures Spliced(old(Snap(cells)), Snap(cells), y, x)
    {
      x := if y.left == nil then y.right else y.left;
      x.parent := y.parent;
      if root == x.parent {
        root.left := x;
      } else {
        if y == y.parent.left {
          y.parent.left := x;
        } else {
          y.parent.right := x;
        }
      }
    }

    /** The close of RBDelete: `y` takes the place of `z`. */
    method TakePlace(y: RbNode, z: RbNode, ghost cells: set<RbNode>)
      requires y in cells && z in cells && z.parent in cells && nil !in cells
      requires z.parent != y && z.parent != z && z != y
      requires (z.left in cells || z.left == nil) && (z.right in cells || z.right == nil)
      requires z.left != z.parent && z.left != y && z.left != z
      requires z.right != z.parent && z.right != y && z.right != z
      modifies cells`left, cells`right, cells`parent, cells`red, nil`parent
      ensures TookPlace(old(Snap(cells)), Snap(cells), y, z)
    {
      y.left := z.left;
      y.right := z.right;
      y.parent := z.parent;
      y.red := z.red;
      z.right.parent := y;
      z.left.parent := y;
      if z == z.parent.left {
        z.parent.left := y;
      } else {
        z.parent.right := y;
      }
    }

    /** The minimum of the subtree at `y0`. */
    method Minimum(y0: RbNode, ghost cells: set<RbNode>, ghost c: Path, ghost t: Tree, ghost p: RbNode)
      returns (y: RbNode)
      requires Focus(Snap(cells), nil, root, c, t, y0, p) && t.Br?
      ensures y == Leftmost(c, t).1.node && Snap(cells) == old(Snap(cells))
    {
      ghost var st, c1, t1 := Snap(cells), c, t;
      y := y0;
      ChildSide(st, nil, root, c1, t1, y, p);
      while y.left != nil
        invariant t1.Br? && y in st && Focus(st, nil, root, c1, t1, y, st[y].parent)
        invariant y.left == nil <==> t1.left.Leaf?
        invariant Leftmost(c1, t1) == Leftmost(c, t)
        decreases t1
      {
        MoveLeft(st, nil, root, c1, t1, y, st[y].parent);
        c1, t1 := InLeft(c1, t1.red, y, t1.right), t1.left;
        y := y.left;
        ChildSide(st, nil, root, c1, t1, y, st[y].parent);
      }
    }

    /** The loops of TreeSuccessor, for a node that hangs at (`c`, `t`). */
    method SuccessorFrom(x0: RbNode, ghost cells: set<RbNode>, ghost c: Path, ghost t: Tree) returns (y: RbNode)
      requires Focus(Snap(cells), nil, root, c, t, x0, x0.parent) && t.Br?
      ensures NextPlace(c, t, y, nil) && Snap(cells) == old(Snap(cells))
    {
      ghost var st := Snap(cells);
      ChildSide(st, nil, root, c, t, x0, x0.parent);
      var x := x0;
      if nil != x.right {
        y := x.right;
        MoveRight(st, nil, root, c, t, x, x.parent);
        y := Minimum(y, cells, InRight(c, t.red, t.left, x), t.right, x);
      } else {
        y := x.parent;
        ghost var c1, t1 := c, t;
        while x == y.right
          invariant t1.Br? && Focus(st, nil, root, c1, t1, x, y) && y in st
          invariant x == y.right <==> c1.InRight?
          invariant y == root <==> c1.Top?
          invariant After(c1) == After(c)
          decreases c1
        {
          MoveUp(st, nil, root, c1, t1, x, y);
          c1, t1 := c1.up, Fill(c1, t1);
          x := y;
          y := y.parent;
          ChildSide(st, nil, root, c1, t1, x, y);
        }
        if y == root {
          y := nil;
        }
      }
    }

    /** The node after `x` in symmetric order, or nil. */
    method TreeSuccessor(x: RbNode) returns (y: RbNode)
      requires Valid() && x in Contents()
      ensures Valid() && Follows(Contents(), x, y, nil)
    {
      ghost var st, all, p := Snap(Cells()), Contents(), x.parent;
      ghost var c, t := Place(x);
      y := SuccessorFrom(x, Cells(), c, t);
      NextNode(st, nil, root, c, t, x, p, y, all);
    }

    /** The rightmost node below `y0`. */
    method Maximum(y0: RbNode, ghost cells: set<RbNode>, ghost c: Path, ghost t: Tree, ghost p: RbNode)
      returns (y: RbNode)
      requires Focus(Snap(cells), nil, root, c, t, y0, p) && t.Br?
      ensures y == Rightmost(c, t).1.node && Snap(cells) == old(Snap(cells))
    {
      ghost var st, c1, t1, q := Snap(cells), c, t, p;
      y := y0;
      ChildSide(st, nil, root, c1, t1, y, q);
      while y.right != nil
        invariant t1.Br? && y in st && Focus(st, nil, root, c1, t1, y, q)
        invariant y.right == nil <==> t1.right.Leaf?
        invariant Rightmost(c1, t1) == Rightmost(c, t)
        decreases t1
      {
        MoveRight(st, nil, root, c1, t1, y, q);
        c1, t1, q := InRight(c1, t1.red, t1.left, y), t1.right, y;
        y := y.right;
        ChildSide(st, nil, root, c1, t1, y, q);
      }
    }

    method PredecessorFrom(x0: RbNode, ghost cells: set<RbNode>, ghost c: Path, ghost t: Tree) returns (y: RbNode)
      requires Focus(Snap(cells), nil, root, c, t, x0, x0.parent) && t.Br?
      ensures PreviousPlace(c, t, y, nil) && Snap(cells) == old(Snap(cells))
    {
      ghost var st := Snap(cells);
      ChildSide(st, nil, root, c, t, x0, x0.parent);
      var x := x0;
      if nil != x.left {
        y := x.left;
        MoveLeft(st, nil, root, c, t, x, x.parent);
        y := Maximum(y, cells, InLeft(c, t.red, x, t.right), t.left, x);
      } else {
        y := x.parent;
        ghost var c1, t1 := c, t;
        while x == y.left
          invariant t1.Br? && Focus(st, nil, root, c1, t1, x, y) && y in st
          invariant x == y.left <==> !c1.InRight?
          invariant y == root <==> c1.Top?
          invariant Before(c1) == Before(c)
          decreases c1
        {
          if y == root {
            y := nil;
            break;
          }
          MoveUp(st, nil, root, c1, t1, x, y);
          c1, t1 := c1.up, Fill(c1, t1);
          x := y;
          y := y.parent;
          ChildSide(st, nil, root, c1, t1, x, y);
        }
      }
    }

    /** The node before `x` in symmetric order, or nil. */
    method TreePredecessor(x: RbNode) returns (y: RbNode)
      requires Valid() && x in Contents()
      ensures Valid() && Precedes(Contents(), x, y, nil)
    {
      ghost var st, all, p := Snap(Cells()), Contents(), x.parent;
      ghost var c, t := Place(x);
      y := PredecessorFrom(x, Cells(), c, t);
      PreviousNode(st, nil, root, c, t, x, p, y, all);
    }

    /** Where a node of the tree hangs. */
    lemma Place(x: RbNode) returns (c: Path, t: Tree)
      requires Valid() && x in Contents()
      ensures t.Br? && x in Cells() && Plug(c, t) == shape && Focus(Snap(Cells()), nil, root, c, t, x, x.parent)
    {
      NodesInOrder(shape);
      c, t := Locate(Snap(Cells()), nil, root, Top, shape, root.left, root, x);
    }

    /** No node stands in the tree twice, and nil nowhere. */
    lemma ContentsDistinct()
      requires Valid()
      ensures Distinct(Contents()) && nil !in Contents()
    {
      var s := Contents();
      NodesInOrder(shape);
      forall i, j | 0 <= i < j < |s| ensures s[i] != s[j] {
        var c, t := Place(s[i]);
        InOrderPlug(c, t);
        OccursOnce(Snap(Cells()), nil, root, c, t, s[i], s[i].parent);
        OneIndex(Before(c) + InOrder(t.left), s[i], InOrder(t.right) + After(c), i);
      }
    }

    /** Where a walk through the tree begins. */
    lemma FirstNode()
      requires Valid()
      ensures root.left == nil <==> shape.Leaf?
      ensures shape.Leaf? ==> Contents() == []
      ensures shape.Br? ==> Contents() != [] && Contents()[0] == Leftmost(Top, shape).1.node
    {
      if shape.Br? {
        var (c, t) := Leftmost(Top, shape);
        LeftmostPlace(Top, shape);
        InOrderPlug(c, t);
        assert Before(c) == [] && InOrder(t.left) == [];
      }
    }

    /** A search for `q` has come to `x`. */
    ghost predicate Searching(st: Store, c: Path, t: Tree, x: RbNode, p: RbNode, q: VoidPtr)
      reads this
    {
      && Focus(st, nil, root, c, t, x, p) && Plug(c, t) == shape
      && AllBelow(compare, Before(c), q) && AllAbove(compare, After(c), q)
      && EqualTo(compare, Contents(), q) <= Nodes(t)
    }

    lemma QueryStep(st: Store, c: Path, t: Tree, x: RbNode, p: RbNode, q: VoidPtr, left: bool)
      requires Searching(st, c, t, x, p, q) && t.Br? && Comparator(compare) && Sorted(compare, Contents())
      requires Compare(compare, t.node.key, q) == if left then 1 else -1
      ensures x == t.node && x in st
      ensures if left then Searching(st, InLeft(c, t.red, x, t.right), t.left, st[x].left, x, q)
              else Searching(st, InRight(c, t.red, t.left, x), t.right, st[x].right, x, q)
    {
      InOrderPlug(c, t);
      if left {
        SearchLeft(compare, Contents(), c, t, q);
        MoveLeft(st, nil, root, c, t, x, p);
        InOrderPlug(InLeft(c, t.red, x, t.right), t.left);
        EqualInside(compare, InLeft(c, t.red, x, t.right), t.left, q);
      } else {
        SearchRightStrictly(compare, Contents(), c, t, q);
        MoveRight(st, nil, root, c, t, x, p);
        InOrderPlug(InRight(c, t.red, t.left, x), t.right);
        EqualInside(compare, InRight(c, t.red, t.left, x), t.right, q);
      }
    }

    lemma QueryCost(c: Path, t: Tree, compares: nat)
      requires IsRedBlack(shape) && Plug(c, t) == shape && compares <= Depth(c) + if t.Br? then 1 else 0
      ensures compares <= Height(shape) && WithinTwiceLog(compares, |Contents()|)
    {
      DepthAndHeight(c, t);
      HeightBound(shape);
      Pow2Monotonic(compares, Height(shape));
    }

    /** A node with a key equal to `q`, the topmost one, or null when there is none. */
    method RBExactQuery(q: VoidPtr) returns (r: RbNode?, ghost c: Path, ghost t: Tree, ghost compares: nat)
      requires Valid()
      ensures r == null <==> EqualTo(compare, Contents(), q) == {}
      ensures r != null ==> r in EqualTo(compare, Contents(), q) && EqualTo(compare, Contents(), q) <= Nodes(t)
      ensures r != null ==> t.Br? && t.node == r && Plug(c, t) == shape
      ensures compares <= Height(shape) && WithinTwiceLog(compares, |Contents()|)
    {
      ghost var st := Snap(Cells());
      c, t, compares := Top, shape, 0;
      NodesInOrder(shape);
      var x := root.left;
      ghost var p := root;
      if x == nil {
        QueryCost(c, t, compares);
        return null, c, t, compares;
      }
      var compVal := Compare(compare, x.key, q);
      compares := 1;
      while 0 != compVal
        invariant t.Br? && t.node == x && Searching(st, c, t, x, p, q)
        invariant compVal == Compare(compare, x.key, q)
        invariant compares <= 1 + Depth(c)
        decreases t
      {
        QueryStep(st, c, t, x, p, q, compVal == 1);
        p := x;
        if 1 == compVal {
          c, t := InLeft(c, t.red, x, t.right), t.left;
          x := x.left;
        } else {
          c, t := InRight(c, t.red, t.left, x), t.right;
          x := x.right;
        }
        if x == nil {
          QueryCost(c, t, compares);
          return null, c, t, compares;
        }
        compVal := Compare(compare, x.key, q);
        compares := compares + 1;
      }
      QueryCost(c, t, compares);
      InOrderPlug(c, t);
      assert x in InOrder(t);
      return x, c, t, compares;
    }

    /** The first half of RBDelete: `y` leaves the tree, and the colours are repaired. */
    method RemoveNode(y: RbNode, ghost cells: set<RbNode>, ghost c: Path, ghost t: Tree, ghost p: RbNode)
      returns (ghost s: Tree, ghost rotations: nat)
      requires !nil.red && Focus(Snap(cells), nil, root, c, t, y, p) && IsRedBlack(Plug(c, t))
      requires t.Br? && (t.left.Leaf? || t.right.Leaf?)
      modifies cells`left, cells`right, cells`parent, cells`red, nil`parent, nil`red
      ensures !nil.red && Focus(Snap(cells), nil, root, Top, s, root.left, root)
      ensures IsRedBlack(s) && InOrder(s) == Whole(c, OnlyChild(t)) && rotations <= 3
    {
      ghost var st := Snap(cells);
      SpliceReady(st, nil, root, c, t, y, p);
      ghost var h := SpliceColours(c, t);
      var x := SpliceOut(y, cells);
      SpliceStep(st, Snap(cells), nil, root, c, t, y, p, x);
      s, rotations := Plug(c, OnlyChild(t)), 0;
      InOrderPlug(c, OnlyChild(t));
      if !y.red {
        s, rotations := RBDeleteFixUp(x, cells, c, OnlyChild(t), h);
      } else {
        MoveToTop(Snap(cells), nil, root, c, OnlyChild(t), x, p);
      }
    }

    /** Splicing out the successor `y` of `z`, which has no left child. */
    lemma PlanSuccessor(z: RbNode, cz: Path, tz: Tree)
      returns (y: RbNode, c: Path, t: Tree, k: nat, a: seq<RbNode>, b: seq<RbNode>)
      requires Valid() && Focus(Snap(Cells()), nil, root, cz, tz, z, z.parent) && Plug(cz, tz) == shape
      requires tz.Br? && tz.right.Br?
      ensures NextPlace(cz, tz, y, nil) && y != z && y in Cells() && y != root && y != nil
      ensures Focus(Snap(Cells()), nil, root, c, t, y, y.parent) && Plug(c, t) == shape && t.Br? && t.left.Leaf?
      ensures Whole(c, OnlyChild(t)) == a + [z] + b && z !in a && y !in a + [z] + b
      ensures Removes(Contents(), a + [y] + b, k, z) && Sorted(compare, a + [y] + b)
    {
      var st, c1, s := Snap(Cells()), InRight(cz, tz.red, tz.left, z), Contents();
      k := IndexOf(st, nil, root, cz, tz, z, z.parent, s);
      MoveRight(st, nil, root, cz, tz, z, z.parent);
      LeftmostPlace(c1, tz.right);
      LeftmostFocus(st, nil, root, c1, tz.right, st[z].right, z);
      c, t := Leftmost(c1, tz.right).0, Leftmost(c1, tz.right).1;
      y := t.node;
      var j := IndexOf(st, nil, root, c, t, y, y.parent, s);
      DeletedContents(compare, s, k, j, z, y);
      a, b := s[..k], s[k + 2..];
    }

    /** What removing `y`, and then putting it in the place of `z` if it is another node, will do to the contents. */
    ghost predicate Planned(s: seq<RbNode>, w: seq<RbNode>, z: RbNode, y: RbNode, k: nat, a: seq<RbNode>,
                            b: seq<RbNode>) {
      if y == z then
        Removes(s, w, k, z) && Sorted(compare, w)
      else
        w == a + [z] + b && z !in a && y !in w && Removes(s, a + [y] + b, k, z) && Sorted(compare, a + [y] + b)
    }

    lemma Plan(z: RbNode, cz: Path, tz: Tree)
      returns (y: RbNode, c: Path, t: Tree, k: nat, a: seq<RbNode>, b: seq<RbNode>)
      requires Valid() && Focus(Snap(Cells()), nil, root, cz, tz, z, z.parent) && tz.Br? && Plug(cz, tz) == shape
      ensures if z.left == nil || z.right == nil then y == z else y != z && NextPlace(cz, tz, y, nil)
      ensures Focus(Snap(Cells()), nil, root, c, t, y, y.parent) && Plug(c, t) == shape
      ensures y in Cells() && y != root && t.Br? && (t.left.Leaf? || t.right.Leaf?)
      ensures Planned(Contents(), Whole(c, OnlyChild(t)), z, y, k, a, b)
    {
      ChildSide(Snap(Cells()), nil, root, cz, tz, z, z.parent);
      if tz.left.Leaf? || tz.right.Leaf? {
        y, c, t, a, b := z, cz, tz, [], [];
        k := IndexOf(Snap(Cells()), nil, root, c, t, z, z.parent, Contents());
        DeletedContents(compare, Contents(), k, k, z, z);
      } else {
        y, c, t, k, a, b := PlanSuccessor(z, cz, tz);
      }
    }

    /** After `y`, the successor of `z`, has left the tree, `y` takes the place of `z`. */
    method ReplaceNode(y: RbNode, z: RbNode, ghost cells: set<RbNode>, ghost s1: Tree, ghost a: seq<RbNode>,
                       ghost b: seq<RbNode>)
      returns (ghost s: Tree)
      requires Focus(Snap(cells), nil, root, Top, s1, root.left, root) && IsRedBlack(s1)
      requires InOrder(s1) == a + [z] + b && z !in a
      requires y in cells && y !in Nodes(s1) && y != root
      modifies cells`left, cells`right, cells`parent, cells`red, nil`parent
      ensures Focus(Snap(cells), nil, root, Top, s, root.left, root)
      ensures IsRedBlack(s) && InOrder(s) == a + [y] + b
    {
      ghost var st := Snap(cells);
      NodesInOrder(s1);
      ghost var c, t := Locate(st, nil, root, Top, s1, root.left, root, z);
      ghost var p := z.parent;
      NodesPlug(c, t);
      PlaceReady(st, nil, root, c, t, z, p, y);
      InOrderPlug(c, t);
      OccursOnce(st, nil, root, c, t, z, p);
      RelabelColours(c, t, y);
      PlacedContents(a, b, c, t, z, y);
      TakePlace(y, z, cells);
      PlaceStep(st, Snap(cells), nil, root, c, t, z, p, y);
      MoveToTop(Snap(cells), nil, root, c, t.(node := y), y, p);
      s := Plug(c, t.(node := y));
    }

    /** What RBDelete does once it has chosen `y`. */
    method DeleteVia(z: RbNode, y: RbNode, ghost cells: set<RbNode>, ghost c: Path, ghost t: Tree, ghost p: RbNode,
                     ghost all: seq<RbNode>, ghost k: nat, ghost a: seq<RbNode>, ghost b: seq<RbNode>)
      returns (ghost s: Tree, ghost rotations: nat)
      requires !nil.red && Focus(Snap(cells), nil, root, c, t, y, p) && IsRedBlack(Plug(c, t))
      requires y in cells && y != root && t.Br? && (t.left.Leaf? || t.right.Leaf?)
      requires Planned(all, Whole(c, OnlyChild(t)), z, y, k, a, b)
      modifies cells`left, cells`right, cells`parent, cells`red, nil`parent, nil`red
      ensures !nil.red && Focus(Snap(cells), nil, root, Top, s, root.left, root) && IsRedBlack(s)
      ensures Removes(all, InOrder(s), k, z) && Sorted(compare, InOrder(s)) && rotations <= 3
    {
      s, rotations := RemoveNode(y, cells, c, t, p);
      if y != z {
        NodesInOrder(s);
        s := ReplaceNode(y, z, cells, s, a, b);
      }
    }

    /** Removes exactly the node `z`; every other node stays, in order, itself. */
    method RBDelete(z: RbNode) returns (ghost k: nat, ghost rotations: nat)
      requires Valid() && z in Contents()
      modifies this`shape, Cells()`left, Cells()`right, Cells()`parent, Cells()`red, nil`parent, nil`red
      ensures Valid()
      ensures Removes(old(Contents()), Contents(), k, z)
      ensures rotations <= 3
      ensures Cells() <= old(Cells())
    {
      ghost var cells, all := Cells(), Contents();
      ghost var cz, tz := Place(z);
      ghost var y', c, t, a, b;
      y', c, t, k, a, b := Plan(z, cz, tz);
      ghost var p := y'.parent;
      var y := z;
      if z.left != nil && z.right != nil {
        y := SuccessorFrom(z, cells, cz, tz);
      }
      ghost var s;
      s, rotations := DeleteVia(z, y, cells, c, t, p, all, k, a, b);
      NodesLost(shape, s, k, z);
      Adopt(s, cells);
    }

    lemma {:induction false} NodesLost(s: Tree, s': Tree, k: nat, z: RbNode)
      requires Removes(InOrder(s), InOrder(s'), k, z)
      ensures Nodes(s') <= Nodes(s)
    {
      NodesInOrder(s);
      NodesInOrder(s');
    }
  }
}

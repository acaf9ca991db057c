module RedBlackNode {
  /** A C `void*`; 0 is NULL. */
  type VoidPtr = int

  /** `key` and `info` are written once, by the allocation. */
  class RbNode {
    const key: VoidPtr
    const info: VoidPtr
    var red: bool
    var left: RbNode
    var right: RbNode
    var parent: RbNode

    constructor Sentinel()
      ensures key == 0 && !red && left == right == parent == this
    {
      key, info, red := 0, 0, false;
      left, right, parent := this, this, this;
    }

    constructor (key: VoidPtr, info: VoidPtr, nil: RbNode)
      ensures this.key == key && this.info == info && !red
      ensures left == right == parent == nil
    {
      this.key, this.info, red := key, info, false;
      left, right, parent := nil, nil, nil;
    }
  }
}

/**
 Pointer structure as a value: a `Store` is what the four mutable fields of a
 set of nodes hold at one moment.
 */
module RedBlackLinks {
  import opened RedBlackNode
  import opened RedBlackShape

  datatype Links = Links(left: RbNode, right: RbNode, parent: RbNode, red: bool)

  type Store = map<RbNode, Links>

  type Tree = Shape<RbNode>
  type Path = Ctx<RbNode>

  ghost function Snap(nodes: set<RbNode>): Store
    reads nodes`left, nodes`right, nodes`parent, nodes`red
  {
    map n | n in nodes :: Links(n.left, n.right, n.parent, n.red)
  }

  ghost predicate Linked(st: Store, nil: RbNode, t: Tree, x: RbNode, p: RbNode)
  {
    match t
    case Leaf => x == nil
    case Br(red, l, n, r) =>
      && x == n && n in st && st[n].parent == p && st[n].red == red
      && n !in Nodes(l) && n !in Nodes(r) && Nodes(l) !! Nodes(r)
      && Linked(st, nil, l, st[n].left, n)
      && Linked(st, nil, r, st[n].right, n)
  }

  /** The surroundings `c` are in the store, with `x` in the hole and `p` above it. */
  ghost predicate CtxLinked(st: Store, nil: RbNode, root: RbNode, c: Path, x: RbNode, p: RbNode)
    decreases c
  {
    match c
    case Top => p == root && root in st && st[root].left == x
    case InLeft(up, red, n, r) =>
      && p == n && n in st && st[n].left == x && st[n].red == red
      && n !in CtxNodes(up) && n !in Nodes(r) && CtxNodes(up) !! Nodes(r)
      && Linked(st, nil, r, st[n].right, n)
      && CtxLinked(st, nil, root, up, n, st[n].parent)
    case InRight(up, red, l, n) =>
      && p == n && n in st && st[n].right == x && st[n].red == red
      && n !in CtxNodes(up) && n !in Nodes(l) && CtxNodes(up) !! Nodes(l)
      && Linked(st, nil, l, st[n].left, n)
      && CtxLinked(st, nil, root, up, n, st[n].parent)
  }

  ghost predicate Focus(st: Store, nil: RbNode, root: RbNode, c: Path, t: Tree, x: RbNode, p: RbNode)
  {
    && CtxNodes(c) + Nodes(t) + {root} <= st.Keys
    && nil !in st && st[root].right == nil && !st[root].red
    && CtxNodes(c) !! Nodes(t)
    && root !in CtxNodes(c) && root !in Nodes(t)
    && Linked(st, nil, t, x, p)
    && CtxLinked(st, nil, root, c, x, p)
  }

  lemma {:induction false} LinkedKept(st: Store, st': Store, nil: RbNode, t: Tree, x: RbNode, p: RbNode)
    requires Linked(st, nil, t, x, p)
    requires forall n <- Nodes(t) :: n in st && n in st' && st'[n] == st[n]
    ensures Linked(st', nil, t, x, p)
  {
    if t.Br? {
      LinkedKept(st, st', nil, t.left, st[x].left, x);
      LinkedKept(st, st', nil, t.right, st[x].right, x);
    }
  }

  lemma {:induction false} CtxLinkedKept(st: Store, st': Store, nil: RbNode, root: RbNode, c: Path, x: RbNode,
                                         p: RbNode)
    requires CtxLinked(st, nil, root, c, x, p)
    requires forall n <- CtxNodes(c) + {root} :: n in st && n in st' && st'[n] == st[n]
    ensures CtxLinked(st', nil, root, c, x, p)
    decreases c
  {
    match c
    case Top =>
    case InLeft(up, _, n, r) =>
      LinkedKept(st, st', nil, r, st[n].right, n);
      CtxLinkedKept(st, st', nil, root, up, n, st[n].parent);
    case InRight(up, _, n, r) =>
      LinkedKept(st, st', nil, c.left, st[c.node].left, c.node);
      CtxLinkedKept(st, st', nil, root, up, c.node, st[c.node].parent);
  }

  /** `st'` differs from `st` at most in the cells of `changed`. */
  ghost predicate Same(st: Store, st': Store, kept: set<RbNode>) {
    forall n <- kept :: n in st && n in st' && st'[n] == st[n]
  }

  lemma FocusKept(st: Store, st': Store, nil: RbNode, root: RbNode, c: Path, t: Tree, x: RbNode, p: RbNode)
    requires Focus(st, nil, root, c, t, x, p)
    requires nil !in st' && Same(st, st', CtxNodes(c) + Nodes(t) + {root})
    ensures Focus(st', nil, root, c, t, x, p)
  {
    LinkedKept(st, st', nil, t, x, p);
    CtxLinkedKept(st, st', nil, root, c, x, p);
  }

  /** The pointer that held `x` in its parent `p` now holds `x'`. */
  ghost predicate Hung(st: Store, st': Store, p: RbNode, x: RbNode, x': RbNode) {
    && p in st && p in st'
    && st'[p] == if x == st[p].left then st[p].(left := x') else st[p].(right := x')
  }

  /** The pointer into the hole of `c` now holds `x'`. */
  ghost predicate HungAt(st: Store, st': Store, c: Path, p: RbNode, x': RbNode) {
    && p in st && p in st'
    && st'[p] == if c.InRight? then st[p].(right := x') else st[p].(left := x')
  }

  /** Asking the parent on which side `x` hangs finds the hole of `c`. */
  lemma HungSide(st: Store, st': Store, nil: RbNode, root: RbNode, c: Path, x: RbNode, p: RbNode, x': RbNode)
    requires CtxLinked(st, nil, root, c, x, p) && x !in CtxNodes(c) && x != nil
    requires Hung(st, st', p, x, x')
    ensures HungAt(st, st', c, p, x')
  {
  }

  /** Another pointer `x'` goes into the hole of `c`. */
  lemma {:induction false} Rehung(st: Store, st': Store, nil: RbNode, root: RbNode, c: Path, x: RbNode,
                                  p: RbNode, x': RbNode)
    requires CtxLinked(st, nil, root, c, x, p) && root !in CtxNodes(c)
    requires HungAt(st, st', c, p, x')
    requires Same(st, st', CtxNodes(c) + {root} - {p})
    ensures CtxLinked(st', nil, root, c, x', p)
  {
    match c
    case Top =>
    case InLeft(up, _, n, r) =>
      LinkedKept(st, st', nil, r, st[n].right, n);
      CtxLinkedKept(st, st', nil, root, up, n, st[n].parent);
    case InRight(up, _, l, n) =>
      LinkedKept(st, st', nil, l, st[n].left, n);
      CtxLinkedKept(st, st', nil, root, up, n, st[n].parent);
  }

  ghost function RotateLeft(t: Tree): Tree
    requires t.Br? && t.right.Br?
  {
    Br(t.right.red, Br(t.red, t.left, t.node, t.right.left), t.right.node, t.right.right)
  }

  /** What LeftRotate does to the pointers. */
  ghost predicate LeftRotated(st: Store, st': Store, nil: RbNode, x: RbNode)
  {
    && x in st && st[x].right in st && st[x].parent in st &&
    var y := st[x].right;
    var b := st[y].left;
    var p := st[x].parent;
    st'.Keys == st.Keys
    && st'[x] == Links(st[x].left, b, y, st[x].red)
    && st'[y] == Links(x, st[y].right, p, st[y].red)
    && (b in st ==> st'[b] == st[b].(parent := x))
    && Hung(st, st', p, x, y)
    && Same(st, st', st.Keys - {x, y, b, p})
  }

  /** A subtree survives being handed to another parent. */
  lemma Reparented(st: Store, st': Store, nil: RbNode, t: Tree, x: RbNode, p: RbNode, p': RbNode)
    requires Linked(st, nil, t, x, p) && nil !in st
    requires x in st ==> x in st' && st'[x] == st[x].(parent := p')
    requires Same(st, st', Nodes(t) - {x})
    ensures Linked(st', nil, t, x, p')
  {
    if t.Br? {
      LinkedKept(st, st', nil, t.left, st[x].left, x);
      LinkedKept(st, st', nil, t.right, st[x].right, x);
    }
  }

  /** The cells LeftRotate writes are there and are different cells. */
  ghost predicate CanRotateLeft(st: Store, nil: RbNode, x: RbNode) {
    && x in st && st[x].right in st && st[x].parent in st && nil !in st &&
    var y, p := st[x].right, st[x].parent;
    && x != y && x != p && y != p
    && (st[y].left in st || st[y].left == nil)
    && st[y].left != x && st[y].left != y && st[y].left != p
    && (st[p].left == x || st[p].right == x)
  }

  lemma LeftRotatable(st: Store, nil: RbNode, root: RbNode, c: Path, t: Tree, x: RbNode, p: RbNode)
    requires t.Br? && t.right.Br? && Focus(st, nil, root, c, t, x, p)
    ensures CanRotateLeft(st, nil, x)
  {
    assert Linked(st, nil, t.right, st[x].right, x);
    assert Linked(st, nil, t.right.left, st[st[x].right].left, st[x].right);
  }

  lemma LeftRotateLinked(st: Store, st': Store, nil: RbNode, t: Tree, x: RbNode, p: RbNode)
    requires t.Br? && t.right.Br? && Linked(st, nil, t, x, p) && p in st && nil !in st
    requires Nodes(t) <= st.Keys && p !in Nodes(t)
    requires LeftRotated(st, st', nil, x)
    ensures Linked(st', nil, RotateLeft(t), st[x].right, p)
    ensures x in Nodes(t) && st[x].right in Nodes(t) && st[st[x].right].left in Nodes(t) + {nil}
  {
    var y := st[x].right;
    var a, b, d := t.left, t.right.left, t.right.right;
    assert Linked(st, nil, t.right, y, x);
    assert Linked(st, nil, b, st[y].left, y);
    assert b.Br? ==> st[y].left in Nodes(b);
    LinkedKept(st, st', nil, a, st[x].left, x);
    LinkedKept(st, st', nil, d, st[y].right, y);
    Reparented(st, st', nil, b, st[y].left, y, x);
  }

  lemma LeftRotateFocus(st: Store, st': Store, nil: RbNode, root: RbNode, c: Path, t: Tree, x: RbNode, p: RbNode)
    requires t.Br? && t.right.Br? && Focus(st, nil, root, c, t, x, p)
    requires LeftRotated(st, st', nil, x)
    ensures Focus(st', nil, root, c, RotateLeft(t), st[x].right, p)
  {
    LeftRotateLinked(st, st', nil, t, x, p);
    HungSide(st, st', nil, root, c, x, p, st[x].right);
    Rehung(st, st', nil, root, c, x, p, st[x].right);
  }

  ghost function RotateRight(t: Tree): Tree
    requires t.Br? && t.left.Br?
  {
    Br(t.left.red, t.left.left, t.left.node, Br(t.red, t.left.right, t.node, t.right))
  }

  /** What RightRotate does to the pointers. */
  ghost predicate RightRotated(st: Store, st': Store, nil: RbNode, y: RbNode)
  {
    && y in st && st[y].left in st && st[y].parent in st &&
    var x := st[y].left;
    var b := st[x].right;
    var p := st[y].parent;
    st'.Keys == st.Keys
    && st'[y] == Links(b, st[y].right, x, st[y].red)
    && st'[x] == Links(st[x].left, y, p, st[x].red)
    && (b in st ==> st'[b] == st[b].(parent := y))
    && Hung(st, st', p, y, x)
    && Same(st, st', st.Keys - {x, y, b, p})
  }

  ghost predicate CanRotateRight(st: Store, nil: RbNode, y: RbNode) {
    && y in st && st[y].left in st && st[y].parent in st && nil !in st &&
    var x, p := st[y].left, st[y].parent;
    && x != y && x != p && y != p
    && (st[x].right in st || st[x].right == nil)
    && st[x].right != x && st[x].right != y && st[x].right != p
    && (st[p].left == y || st[p].right == y)
  }

  lemma RightRotatable(st: Store, nil: RbNode, root: RbNode, c: Path, t: Tree, y: RbNode, p: RbNode)
    requires t.Br? && t.left.Br? && Focus(st, nil, root, c, t, y, p)
    ensures CanRotateRight(st, nil, y)
  {
    assert Linked(st, nil, t.left, st[y].left, y);
    assert Linked(st, nil, t.left.right, st[st[y].left].right, st[y].left);
  }

  lemma RightRotateLinked(st: Store, st': Store, nil: RbNode, t: Tree, y: RbNode, p: RbNode)
    requires t.Br? && t.left.Br? && Linked(st, nil, t, y, p) && p in st && nil !in st
    requires Nodes(t) <= st.Keys && p !in Nodes(t)
    requires RightRotated(st, st', nil, y)
    ensures Linked(st', nil, RotateRight(t), st[y].left, p)
    ensures y in Nodes(t) && st[y].left in Nodes(t) && st[st[y].left].right in Nodes(t) + {nil}
  {
    var x := st[y].left;
    var a, b, d := t.left.left, t.left.right, t.right;
    assert Linked(st, nil, t.left, x, y);
    assert Linked(st, nil, b, st[x].right, x);
    assert b.Br? ==> st[x].right in Nodes(b);
    LinkedKept(st, st', nil, a, st[x].left, x);
    LinkedKept(st, st', nil, d, st[y].right, y);
    Reparented(st, st', nil, b, st[x].right, x, y);
  }

  lemma RightRotateFocus(st: Store, st': Store, nil: RbNode, root: RbNode, c: Path, t: Tree, y: RbNode, p: RbNode)
    requires t.Br? && t.left.Br? && Focus(st, nil, root, c, t, y, p)
    requires RightRotated(st, st', nil, y)
    ensures Focus(st', nil, root, c, RotateRight(t), st[y].left, p)
  {
    RightRotateLinked(st, st', nil, t, y, p);
    HungSide(st, st', nil, root, c, y, p, st[y].left);
    Rehung(st, st', nil, root, c, y, p, st[y].left);
  }

  // ----- Moving the focus ---------------------------------------------------

  lemma MoveUp(st: Store, nil: RbNode, root: RbNode, c: Path, t: Tree, x: RbNode, p: RbNode)
    requires Focus(st, nil, root, c, t, x, p) && !c.Top?
    ensures p == c.node && p in st
    ensures Focus(st, nil, root, c.up, Fill(c, t), p, st[p].parent)
  {
  }

  lemma MoveLeft(st: Store, nil: RbNode, root: RbNode, c: Path, t: Tree, x: RbNode, p: RbNode)
    requires Focus(st, nil, root, c, t, x, p) && t.Br?
    ensures x == t.node && x in st && st[x].parent == p
    ensures Focus(st, nil, root, InLeft(c, t.red, x, t.right), t.left, st[x].left, x)
  {
  }

  lemma MoveRight(st: Store, nil: RbNode, root: RbNode, c: Path, t: Tree, x: RbNode, p: RbNode)
    requires Focus(st, nil, root, c, t, x, p) && t.Br?
    ensures x == t.node && x in st && st[x].parent == p
    ensures Focus(st, nil, root, InRight(c, t.red, t.left, x), t.right, st[x].right, x)
  {
  }

  /** The subtree at the top of everything. */
  lemma {:induction false} MoveToTop(st: Store, nil: RbNode, root: RbNode, c: Path, t: Tree, x: RbNode, p: RbNode)
    requires Focus(st, nil, root, c, t, x, p)
    ensures Focus(st, nil, root, Top, Plug(c, t), st[root].left, root)
    decreases c
  {
    if !c.Top? {
      MoveUp(st, nil, root, c, t, x, p);
      MoveToTop(st, nil, root, c.up, Fill(c, t), p, st[p].parent);
    }
  }

  function Paint(st: Store, n: RbNode, red: bool): Store
    requires n in st
  {
    st[n := st[n].(red := red)]
  }

  lemma Painted(st: Store, nil: RbNode, root: RbNode, c: Path, t: Tree, x: RbNode, p: RbNode, red: bool)
    requires Focus(st, nil, root, c, t, x, p) && t.Br?
    ensures x in st
    ensures Focus(Paint(st, x, red), nil, root, c, t.(red := red), x, p)
  {
    var st' := Paint(st, x, red);
    LinkedKept(st, st', nil, t.left, st[x].left, x);
    LinkedKept(st, st', nil, t.right, st[x].right, x);
    CtxLinkedKept(st, st', nil, root, c, x, p);
  }

  /** `z` has `y` for parent and is its right or left child. */
  ghost predicate HungUnder(st: Store, st': Store, z: RbNode, y: RbNode, right: bool) {
    && z in st && y in st && st'.Keys == st.Keys
    && st'[z] == st[z].(parent := y)
    && st'[y] == (if right then st[y].(right := z) else st[y].(left := z))
    && Same(st, st', st.Keys - {y, z})
  }

  /** A node of the store outside the tree takes the place of an empty subtree. */
  lemma Attached(st: Store, st': Store, nil: RbNode, root: RbNode, c: Path, p: RbNode, z: RbNode)
    requires Focus(st, nil, root, c, Leaf, nil, p)
    requires z in st && z !in CtxNodes(c) && z != root && st[z].left == st[z].right == nil
    requires HungUnder(st, st', z, p, c.InRight?)
    ensures Focus(st', nil, root, c, Br(st[z].red, Leaf, z, Leaf), z, p)
  {
    Rehung(st, st', nil, root, c, nil, p, z);
  }

  // ----- Places -------------------------------------------------------------

  /** The place of node `n`, found from the top of a subtree that holds it. */
  lemma {:induction false} Locate(st: Store, nil: RbNode, root: RbNode, c: Path, t: Tree, x: RbNode, p: RbNode,
                                  n: RbNode)
    returns (c': Path, t': Tree)
    requires Focus(st, nil, root, c, t, x, p) && n in Nodes(t)
    ensures t'.Br? && n in st && Focus(st, nil, root, c', t', n, st[n].parent)
    ensures Plug(c', t') == Plug(c, t)
    decreases t
  {
    if t.node == n {
      c', t' := c, t;
    } else if n in Nodes(t.left) {
      MoveLeft(st, nil, root, c, t, x, p);
      c', t' := Locate(st, nil, root, InLeft(c, t.red, x, t.right), t.left, st[x].left, x, n);
    } else {
      MoveRight(st, nil, root, c, t, x, p);
      c', t' := Locate(st, nil, root, InRight(c, t.red, t.left, x), t.right, st[x].right, x, n);
    }
  }

  lemma {:induction false} AroundNodes(c: Path)
    ensures forall n <- Before(c) + After(c) :: n in CtxNodes(c)
    decreases c
  {
    if !c.Top? {
      AroundNodes(c.up);
      NodesInOrder(if c.InLeft? then c.right else c.left);
    }
  }

  /** A node of the tree occurs once in symmetric order. */
  lemma OccursOnce(st: Store, nil: RbNode, root: RbNode, c: Path, t: Tree, x: RbNode, p: RbNode)
    requires Focus(st, nil, root, c, t, x, p) && t.Br?
    ensures Whole(c, t) == (Before(c) + InOrder(t.left)) + [x] + (InOrder(t.right) + After(c))
    ensures x !in Before(c) + InOrder(t.left)
    ensures x !in InOrder(t.right) + After(c)
  {
    AroundNodes(c);
    NodesInOrder(t.left);
    NodesInOrder(t.right);
    Regroup(Before(c), InOrder(t.left), [x], InOrder(t.right), After(c));
    assert (Before(c) + InOrder(t.left)) + [x] + InOrder(t.right) + After(c)
        == (Before(c) + InOrder(t.left)) + [x] + (InOrder(t.right) + After(c));
  }

  lemma {:induction false} LeftmostFocus(st: Store, nil: RbNode, root: RbNode, c: Path, t: Tree, x: RbNode, p: RbNode)
    requires Focus(st, nil, root, c, t, x, p) && t.Br?
    ensures var (c', t') := Leftmost(c, t);
      t'.Br? && t'.node in st && Focus(st, nil, root, c', t', t'.node, st[t'.node].parent)
    decreases t
  {
    if t.left.Br? {
      MoveLeft(st, nil, root, c, t, x, p);
      LeftmostFocus(st, nil, root, InLeft(c, t.red, x, t.right), t.left, st[x].left, x);
    }
  }

  /** Which child of its parent `x` is. */
  lemma ChildSide(st: Store, nil: RbNode, root: RbNode, c: Path, t: Tree, x: RbNode, p: RbNode)
    requires Focus(st, nil, root, c, t, x, p) && t.Br?
    ensures p in st && (x == st[p].right <==> c.InRight?) && (x == st[p].left <==> !c.InRight?)
    ensures p == root <==> c.Top?
    ensures (st[x].left == nil <==> t.left.Leaf?) && (st[x].right == nil <==> t.right.Leaf?)
  {
    MoveLeft(st, nil, root, c, t, x, p);
    MoveRight(st, nil, root, c, t, x, p);
  }

  /** The index of `x` in symmetric order, and what surrounds it there. */
  lemma IndexOf(st: Store, nil: RbNode, root: RbNode, c: Path, t: Tree, x: RbNode, p: RbNode, s: seq<RbNode>)
    returns (j: nat)
    requires Focus(st, nil, root, c, t, x, p) && t.Br? && s == InOrder(Plug(c, t))
    ensures j == |Before(c)| + |InOrder(t.left)| && j < |s| && s[j] == x
    ensures x !in s[..j] && x !in s[j + 1..]
    ensures t.left.Leaf? || t.right.Leaf? ==> Whole(c, OnlyChild(t)) == s[..j] + s[j + 1..]
  {
    InOrderPlug(c, t);
    OccursOnce(st, nil, root, c, t, x, p);
    var a, b := Before(c) + InOrder(t.left), InOrder(t.right) + After(c);
    j := |a|;
    assert s[..j] == a && s[j + 1..] == b;
  }

  // ----- Neighbours in symmetric order --------------------------------------

  ghost function NextIn(s: seq<RbNode>, i: nat, none: RbNode): RbNode {
    if i + 1 < |s| then s[i + 1] else none
  }

  ghost function PreviousIn(s: seq<RbNode>, i: nat, none: RbNode): RbNode
    requires i < |s|
  {
    if 0 < i then s[i - 1] else none
  }

  /** Wherever `x` occurs in `s`, `y` comes next, or `none` when nothing does. */
  ghost predicate Follows(s: seq<RbNode>, x: RbNode, y: RbNode, none: RbNode) {
    forall i | 0 <= i < |s| && s[i] == x :: y == NextIn(s, i, none)
  }

  ghost predicate Precedes(s: seq<RbNode>, x: RbNode, y: RbNode, none: RbNode) {
    forall i | 0 <= i < |s| && s[i] == x :: y == PreviousIn(s, i, none)
  }

  lemma OneIndex(a: seq<RbNode>, x: RbNode, b: seq<RbNode>, i: nat)
    requires x !in a && x !in b && i < |a + [x] + b| && (a + [x] + b)[i] == x
    ensures i == |a|
  {
  }

  /** Where the next node is found: first in the right subtree, or else first after the whole subtree. */
  ghost predicate NextPlace(c: Path, t: Tree, y: RbNode, none: RbNode)
    requires t.Br?
  {
    y == if t.right.Br? then Leftmost(InRight(c, t.red, t.left, t.node), t.right).1.node
         else if After(c) == [] then none else After(c)[0]
  }

  ghost predicate PreviousPlace(c: Path, t: Tree, y: RbNode, none: RbNode)
    requires t.Br?
  {
    y == if t.left.Br? then Rightmost(InLeft(c, t.red, t.node, t.right), t.left).1.node
         else if Before(c) == [] then none else Before(c)[|Before(c)| - 1]
  }

  lemma NextValue(c: Path, t: Tree, y: RbNode, none: RbNode)
    requires t.Br? && NextPlace(c, t, y, none)
    ensures y == NextIn(Whole(c, t), |Before(c) + InOrder(t.left)|, none)
  {
    Regroup(Before(c), InOrder(t.left), [t.node], InOrder(t.right), After(c));
    if t.right.Br? {
      var c1 := InRight(c, t.red, t.left, t.node);
      LeftmostPlace(c1, t.right);
      var (c', t') := Leftmost(c1, t.right);
      InOrderPlug(c', t');
      InOrderPlug(c, t);
      assert InOrder(t')[0] == t'.node;
      assert Whole(c', t')[|Before(c')|] == InOrder(t')[0];
    }
  }

  lemma PreviousValue(c: Path, t: Tree, y: RbNode, none: RbNode)
    requires t.Br? && PreviousPlace(c, t, y, none)
    ensures y == PreviousIn(Whole(c, t), |Before(c) + InOrder(t.left)|, none)
  {
    Regroup(Before(c), InOrder(t.left), [t.node], InOrder(t.right), After(c));
    if t.left.Br? {
      var c1 := InLeft(c, t.red, t.node, t.right);
      RightmostPlace(c1, t.left);
      var (c', t') := Rightmost(c1, t.left);
      InOrderPlug(c', t');
      InOrderPlug(c, t);
      var k := |InOrder(t')| - 1;
      assert InOrder(t')[k] == t'.node;
      assert Whole(c', t')[|Before(c')| + k] == InOrder(t')[k];
    }
  }

  /** Then it follows `x` wherever `x` occurs, which is once. */
  lemma NextNode(st: Store, nil: RbNode, root: RbNode, c: Path, t: Tree, x: RbNode, p: RbNode, y: RbNode,
                 s: seq<RbNode>)
    requires Focus(st, nil, root, c, t, x, p) && t.Br? && s == InOrder(Plug(c, t)) && NextPlace(c, t, y, nil)
    ensures Follows(s, x, y, nil)
  {
    InOrderPlug(c, t);
    OccursOnce(st, nil, root, c, t, x, p);
    NextValue(c, t, y, nil);
    forall i | 0 <= i < |s| && s[i] == x ensures y == NextIn(s, i, nil) {
      OneIndex(Before(c) + InOrder(t.left), x, InOrder(t.right) + After(c), i);
    }
  }

  lemma PreviousNode(st: Store, nil: RbNode, root: RbNode, c: Path, t: Tree, x: RbNode, p: RbNode, y: RbNode,
                     s: seq<RbNode>)
    requires Focus(st, nil, root, c, t, x, p) && t.Br? && s == InOrder(Plug(c, t)) && PreviousPlace(c, t, y, nil)
    ensures Precedes(s, x, y, nil)
  {
    InOrderPlug(c, t);
    OccursOnce(st, nil, root, c, t, x, p);
    PreviousValue(c, t, y, nil);
    forall i | 0 <= i < |s| && s[i] == x ensures y == PreviousIn(s, i, nil) {
      OneIndex(Before(c) + InOrder(t.left), x, InOrder(t.right) + After(c), i);
    }
  }
}

/**
 The steps of RBDeleteFixUp and of RBDelete, each as a change of the store.
 */
module RedBlackDelete {
  import opened RedBlackNode
  import opened RedBlackShape
  import opened RedBlackLinks

  /** Where the fix-up stands: the subtree `t` at `x` is one black short, all else is in order. */
  ghost predicate Deleting(st: Store, nil: RbNode, root: RbNode, c: Path, t: Tree, h: int, x: RbNode, p: RbNode) {
    Focus(st, nil, root, c, t, x, p) && OneShort(c, t, h)
  }

  /** `x` tops the subtree `t`. */
  ghost predicate Tops(st: Store, nil: RbNode, t: Tree, x: RbNode) {
    if t.Leaf? then x == nil else x == t.node && x in st && st[x].red == t.red
  }

  ghost function SiblingPath(c: Path, t: Tree): Path
    requires !c.Top?
  {
    if c.InLeft? then InRight(c.up, c.red, t, c.node) else InLeft(c.up, c.red, c.node, t)
  }

  ghost function SiblingNode(st: Store, c: Path, p: RbNode): RbNode
    requires p in st
  {
    if c.InLeft? then st[p].right else st[p].left
  }

  lemma MoveToSibling(st: Store, nil: RbNode, root: RbNode, c: Path, t: Tree, x: RbNode, p: RbNode)
    requires Focus(st, nil, root, c, t, x, p) && !c.Top?
    ensures p in st && Focus(st, nil, root, SiblingPath(c, t), Sibling(c), SiblingNode(st, c, p), p)
  {
    MoveUp(st, nil, root, c, t, x, p);
    if c.InLeft? {
      MoveRight(st, nil, root, c.up, Fill(c, t), p, st[p].parent);
    } else {
      MoveLeft(st, nil, root, c.up, Fill(c, t), p, st[p].parent);
    }
  }

  /** Coming back from the sibling, which may have changed. */
  lemma MoveBack(st: Store, nil: RbNode, root: RbNode, c: Path, t: Tree, x: RbNode, w: Tree, y: RbNode, p: RbNode)
    requires !c.Top? && Focus(st, nil, root, SiblingPath(c, t), w, y, p)
    requires if t.Leaf? then x == nil else x == t.node
    ensures Focus(st, nil, root, WithSibling(c, w), t, x, p)
  {
    MoveUp(st, nil, root, SiblingPath(c, t), w, y, p);
    var t1 := Fill(SiblingPath(c, t), w);
    if c.InLeft? {
      MoveLeft(st, nil, root, c.up, t1, p, st[p].parent);
    } else {
      MoveRight(st, nil, root, c.up, t1, p, st[p].parent);
    }
  }

  /** What the fix-up sees around a black `x` below the top. */
  lemma AroundDeleted(st: Store, nil: RbNode, root: RbNode, c: Path, t: Tree, h: int, x: RbNode, p: RbNode)
    requires Deleting(st, nil, root, c, t, h, x, p) && !IsRed(t) && !c.Top?
    ensures Sibling(c).Br? && p in st && p == c.node && st[p].red == c.red && st[p].parent in st
    ensures x == st[p].left <==> c.InLeft?
    ensures var w := SiblingNode(st, c, p);
      && Tops(st, nil, Sibling(c), w) && st[w].parent == p
      && Tops(st, nil, FarNephew(c), if c.InLeft? then st[w].right else st[w].left)
      && Tops(st, nil, NearNephew(c), if c.InLeft? then st[w].left else st[w].right)
  {
    SiblingThere(c, t, h);
    MoveUp(st, nil, root, c, t, x, p);
    MoveToSibling(st, nil, root, c, t, x, p);
    var w := SiblingNode(st, c, p);
    MoveLeft(st, nil, root, SiblingPath(c, t), Sibling(c), w, p);
    MoveRight(st, nil, root, SiblingPath(c, t), Sibling(c), w, p);
    ParentThere(st, nil, root, c.up, Fill(c, t), p, st[p].parent);
  }

  lemma ParentThere(st: Store, nil: RbNode, root: RbNode, c: Path, t: Tree, x: RbNode, p: RbNode)
    requires Focus(st, nil, root, c, t, x, p)
    ensures p in st
  {
  }

  // ----- Case 1: red sibling ------------------------------------------------

  /** The subtree one step up, coloured for the rotation. */
  ghost function RaiseTree(c: Path, t: Tree): Tree
    requires !c.Top?
  {
    if c.InLeft? then Br(true, t, c.node, Blacken(c.right)) else Br(true, Blacken(c.left), c.node, t)
  }

  lemma RaisePainted(st: Store, nil: RbNode, root: RbNode, c: Path, t: Tree, x: RbNode, p: RbNode)
    requires Focus(st, nil, root, c, t, x, p) && !c.Top? && Sibling(c).Br?
    ensures p in st && SiblingNode(st, c, p) in st
    ensures Focus(Paint(Paint(st, SiblingNode(st, c, p), false), p, true), nil, root, c.up,
                  RaiseTree(c, t), p, st[p].parent)
  {
    MoveToSibling(st, nil, root, c, t, x, p);
    var w := SiblingNode(st, c, p);
    Painted(st, nil, root, SiblingPath(c, t), Sibling(c), w, p, false);
    var st1 := Paint(st, w, false);
    MoveUp(st1, nil, root, SiblingPath(c, t), Blacken(Sibling(c)), w, p);
    Painted(st1, nil, root, c.up, Fill(SiblingPath(c, t), Blacken(Sibling(c))), p, st1[p].parent, true);
  }

  lemma RaiseReady(st: Store, nil: RbNode, root: RbNode, c: Path, t: Tree, x: RbNode, p: RbNode)
    requires Focus(st, nil, root, c, t, x, p) && !c.Top? && Sibling(c).Br?
    ensures p in st && SiblingNode(st, c, p) in st
    ensures var st1 := Paint(Paint(st, SiblingNode(st, c, p), false), p, true);
      if c.InLeft? then CanRotateLeft(st1, nil, p) else CanRotateRight(st1, nil, p)
  {
    RaisePainted(st, nil, root, c, t, x, p);
    var st1 := Paint(Paint(st, SiblingNode(st, c, p), false), p, true);
    var t1 := RaiseTree(c, t);
    if c.InLeft? {
      LeftRotatable(st1, nil, root, c.up, t1, p, st[p].parent);
    } else {
      RightRotatable(st1, nil, root, c.up, t1, p, st[p].parent);
    }
  }

  lemma RaiseStep(st: Store, st': Store, nil: RbNode, root: RbNode, c: Path, t: Tree, h: int, x: RbNode, p: RbNode)
    requires Deleting(st, nil, root, c, t, h, x, p) && !IsRed(t) && !c.Top? && IsRed(Sibling(c))
    requires p in st && SiblingNode(st, c, p) in st
    requires var st1 := Paint(Paint(st, SiblingNode(st, c, p), false), p, true);
      if c.InLeft? then LeftRotated(st1, st', nil, p) else RightRotated(st1, st', nil, p)
    ensures Deleting(st', nil, root, RaiseSibling(c), t, h, x, p)
    ensures Whole(RaiseSibling(c), t) == Whole(c, t)
  {
    RaisePainted(st, nil, root, c, t, x, p);
    var w, g := SiblingNode(st, c, p), st[p].parent;
    var st1 := Paint(Paint(st, w, false), p, true);
    var t1 := RaiseTree(c, t);
    if c.InLeft? {
      LeftRotateFocus(st1, st', nil, root, c.up, t1, p, g);
      var t2 := RotateLeft(t1);
      MoveLeft(st', nil, root, c.up, t2, st1[p].right, g);
      MoveLeft(st', nil, root, InLeft(c.up, t2.red, st1[p].right, t2.right), t2.left, p, st'[p].parent);
    } else {
      RightRotateFocus(st1, st', nil, root, c.up, t1, p, g);
      var t2 := RotateRight(t1);
      MoveRight(st', nil, root, c.up, t2, st1[p].left, g);
      MoveRight(st', nil, root, InRight(c.up, t2.red, t2.left, st1[p].left), t2.right, p, st'[p].parent);
    }
    RaiseSiblingColours(c, t, h);
    RaiseSiblingWhole(c, t);
  }

  // ----- Case 2: black sibling, black nephews -------------------------------

  lemma RedSiblingStep(st: Store, nil: RbNode, root: RbNode, c: Path, t: Tree, h: int, x: RbNode, p: RbNode)
    requires Deleting(st, nil, root, c, t, h, x, p) && !IsRed(t) && !c.Top?
    requires Sibling(c).Br? && !Sibling(c).red && !IsRed(NearNephew(c)) && !IsRed(FarNephew(c))
    ensures p in st && SiblingNode(st, c, p) in st
    ensures Deleting(Paint(st, SiblingNode(st, c, p), true), nil, root, c.up, Fill(RedSibling(c), t),
                     if c.red then h else h + 1, p, st[p].parent)
    ensures Whole(c.up, Fill(RedSibling(c), t)) == Whole(c, t)
  {
    MoveToSibling(st, nil, root, c, t, x, p);
    var w := SiblingNode(st, c, p);
    Painted(st, nil, root, SiblingPath(c, t), Sibling(c), w, p, true);
    MoveUp(Paint(st, w, true), nil, root, SiblingPath(c, t), Sibling(c).(red := true), w, p);
    RedSiblingColours(c, t, h);
    RedSiblingWhole(c, t);
  }

  // ----- Case 3: black sibling, red near nephew, black far nephew -----------

  ghost function NearNode(st: Store, c: Path, w: RbNode): RbNode
    requires w in st
  {
    if c.InLeft? then st[w].left else st[w].right
  }

  ghost function FarNode(st: Store, c: Path, w: RbNode): RbNode
    requires w in st
  {
    if c.InLeft? then st[w].right else st[w].left
  }

  lemma TurnPainted(st: Store, nil: RbNode, root: RbNode, c: Path, t: Tree, x: RbNode, p: RbNode)
    requires Focus(st, nil, root, c, t, x, p) && !c.Top? && Sibling(c).Br? && NearNephew(c).Br?
    ensures p in st && SiblingNode(st, c, p) in st && NearNode(st, c, SiblingNode(st, c, p)) in st
    ensures var w := SiblingNode(st, c, p);
      var t1 := if c.InLeft? then Sibling(c).(red := true, left := Blacken(NearNephew(c)))
                else Sibling(c).(red := true, right := Blacken(NearNephew(c)));
      Focus(Paint(Paint(st, NearNode(st, c, w), false), w, true), nil, root, SiblingPath(c, t), t1, w, p)
  {
    MoveToSibling(st, nil, root, c, t, x, p);
    var w := SiblingNode(st, c, p);
    var c1, t1 := SiblingPath(c, t), Sibling(c);
    if c.InLeft? {
      MoveLeft(st, nil, root, c1, t1, w, p);
      var v, c2 := st[w].left, InLeft(c1, t1.red, w, t1.right);
      Painted(st, nil, root, c2, t1.left, v, w, false);
      MoveUp(Paint(st, v, false), nil, root, c2, Blacken(t1.left), v, w);
      Painted(Paint(st, v, false), nil, root, c1, Fill(c2, Blacken(t1.left)), w, p, true);
    } else {
      MoveRight(st, nil, root, c1, t1, w, p);
      var v, c2 := st[w].right, InRight(c1, t1.red, t1.left, w);
      Painted(st, nil, root, c2, t1.right, v, w, false);
      MoveUp(Paint(st, v, false), nil, root, c2, Blacken(t1.right), v, w);
      Painted(Paint(st, v, false), nil, root, c1, Fill(c2, Blacken(t1.right)), w, p, true);
    }
  }

  lemma TurnReady(st: Store, nil: RbNode, root: RbNode, c: Path, t: Tree, x: RbNode, p: RbNode)
    requires Focus(st, nil, root, c, t, x, p) && !c.Top? && Sibling(c).Br? && NearNephew(c).Br?
    ensures p in st && SiblingNode(st, c, p) in st && NearNode(st, c, SiblingNode(st, c, p)) in st
    ensures var w := SiblingNode(st, c, p);
      var st1 := Paint(Paint(st, NearNode(st, c, w), false), w, true);
      if c.InLeft? then CanRotateRight(st1, nil, w) else CanRotateLeft(st1, nil, w)
  {
    TurnPainted(st, nil, root, c, t, x, p);
    var w := SiblingNode(st, c, p);
    var st1 := Paint(Paint(st, NearNode(st, c, w), false), w, true);
    if c.InLeft? {
      RightRotatable(st1, nil, root, SiblingPath(c, t), Sibling(c).(red := true, left := Blacken(NearNephew(c))), w, p);
    } else {
      LeftRotatable(st1, nil, root, SiblingPath(c, t), Sibling(c).(red := true, right := Blacken(NearNephew(c))), w, p);
    }
  }

  lemma TurnStep(st: Store, st': Store, nil: RbNode, root: RbNode, c: Path, t: Tree, h: int, x: RbNode, p: RbNode)
    requires Deleting(st, nil, root, c, t, h, x, p) && !IsRed(t) && !c.Top?
    requires Sibling(c).Br? && !Sibling(c).red && IsRed(NearNephew(c)) && !IsRed(FarNephew(c))
    requires p in st && SiblingNode(st, c, p) in st && NearNode(st, c, SiblingNode(st, c, p)) in st
    requires var w := SiblingNode(st, c, p);
      var st1 := Paint(Paint(st, NearNode(st, c, w), false), w, true);
      if c.InLeft? then RightRotated(st1, st', nil, w) else LeftRotated(st1, st', nil, w)
    ensures Deleting(st', nil, root, TurnSibling(c), t, h, x, p) && IsRed(FarNephew(TurnSibling(c)))
    ensures Whole(TurnSibling(c), t) == Whole(c, t)
  {
    TurnPainted(st, nil, root, c, t, x, p);
    var w := SiblingNode(st, c, p);
    var v := NearNode(st, c, w);
    var st1 := Paint(Paint(st, v, false), w, true);
    if c.InLeft? {
      var t1 := Sibling(c).(red := true, left := Blacken(NearNephew(c)));
      RightRotateFocus(st1, st', nil, root, SiblingPath(c, t), t1, w, p);
      MoveBack(st', nil, root, c, t, x, RotateRight(t1), v, p);
    } else {
      var t1 := Sibling(c).(red := true, right := Blacken(NearNephew(c)));
      LeftRotateFocus(st1, st', nil, root, SiblingPath(c, t), t1, w, p);
      MoveBack(st', nil, root, c, t, x, RotateLeft(t1), v, p);
    }
    TurnSiblingColours(c, t, h);
    TurnSiblingWhole(c, t);
  }

  // ----- Case 4: black sibling, red far nephew ------------------------------

  ghost function AbsorbReadyTree(c: Path, t: Tree): Tree
    requires !c.Top? && Sibling(c).Br?
  {
    var w := Sibling(c);
    if c.InLeft? then Br(false, t, c.node, Br(c.red, w.left, w.node, Blacken(w.right)))
    else Br(false, Br(c.red, Blacken(w.left), w.node, w.right), c.node, t)
  }

  ghost function AbsorbPaint(st: Store, c: Path, p: RbNode): Store
    requires p in st && SiblingNode(st, c, p) in st && FarNode(st, c, SiblingNode(st, c, p)) in st
  {
    var w := SiblingNode(st, c, p);
    Paint(Paint(Paint(st, w, st[p].red), p, false), FarNode(st, c, w), false)
  }

  lemma AbsorbPainted(st: Store, nil: RbNode, root: RbNode, c: Path, t: Tree, x: RbNode, p: RbNode)
    requires Focus(st, nil, root, c, t, x, p) && !c.Top? && Sibling(c).Br? && FarNephew(c).Br?
    ensures p in st && SiblingNode(st, c, p) in st && FarNode(st, c, SiblingNode(st, c, p)) in st
    ensures Focus(AbsorbPaint(st, c, p), nil, root, c.up, AbsorbReadyTree(c, t), p, st[p].parent)
  {
    MoveToSibling(st, nil, root, c, t, x, p);
    var w, g, red := SiblingNode(st, c, p), st[p].parent, st[p].red;
    var c1 := SiblingPath(c, t);
    Painted(st, nil, root, c1, Sibling(c), w, p, red);
    var st1, t1 := Paint(st, w, red), Sibling(c).(red := red);
    MoveUp(st1, nil, root, c1, t1, w, p);
    Painted(st1, nil, root, c.up, Fill(c1, t1), p, g, false);
    var st2, t2 := Paint(st1, p, false), Fill(c1, t1).(red := false);
    if c.InLeft? {
      MoveRight(st2, nil, root, c.up, t2, p, g);
      var c2 := InRight(c.up, false, t, p);
      MoveRight(st2, nil, root, c2, t1, w, p);
      var c3, v := InRight(c2, red, t1.left, w), st2[w].right;
      Painted(st2, nil, root, c3, t1.right, v, w, false);
      var st3 := Paint(st2, v, false);
      MoveUp(st3, nil, root, c3, Blacken(t1.right), v, w);
      MoveUp(st3, nil, root, c2, Fill(c3, Blacken(t1.right)), w, p);
    } else {
      MoveLeft(st2, nil, root, c.up, t2, p, g);
      var c2 := InLeft(c.up, false, p, t);
      MoveLeft(st2, nil, root, c2, t1, w, p);
      var c3, v := InLeft(c2, red, w, t1.right), st2[w].left;
      Painted(st2, nil, root, c3, t1.left, v, w, false);
      var st3 := Paint(st2, v, false);
      MoveUp(st3, nil, root, c3, Blacken(t1.left), v, w);
      MoveUp(st3, nil, root, c2, Fill(c3, Blacken(t1.left)), w, p);
    }
  }

  lemma AbsorbReady(st: Store, nil: RbNode, root: RbNode, c: Path, t: Tree, x: RbNode, p: RbNode)
    requires Focus(st, nil, root, c, t, x, p) && !c.Top? && Sibling(c).Br? && FarNephew(c).Br?
    ensures p in st && SiblingNode(st, c, p) in st && FarNode(st, c, SiblingNode(st, c, p)) in st
    ensures var st1 := AbsorbPaint(st, c, p);
      if c.InLeft? then CanRotateLeft(st1, nil, p) else CanRotateRight(st1, nil, p)
  {
    AbsorbPainted(st, nil, root, c, t, x, p);
    var st1, t1 := AbsorbPaint(st, c, p), AbsorbReadyTree(c, t);
    if c.InLeft? {
      LeftRotatable(st1, nil, root, c.up, t1, p, st[p].parent);
    } else {
      RightRotatable(st1, nil, root, c.up, t1, p, st[p].parent);
    }
  }

  /** The node that was on top when the fix-up began, which a case 1 may have left stale. */
  ghost predicate KnewTop(c: Path, top: RbNode)
    requires !c.Top?
  {
    top == c.node || (!c.up.Top? && top == TopNode(c.up, c.node))
  }

  lemma AbsorbStep(st: Store, st': Store, nil: RbNode, root: RbNode, c: Path, t: Tree, h: int, x: RbNode,
                   p: RbNode, top: RbNode)
    requires Deleting(st, nil, root, c, t, h, x, p) && !IsRed(t) && !c.Top? && KnewTop(c, top)
    requires Sibling(c).Br? && !Sibling(c).red && IsRed(FarNephew(c))
    requires p in st && SiblingNode(st, c, p) in st && FarNode(st, c, SiblingNode(st, c, p)) in st
    requires var st1 := AbsorbPaint(st, c, p);
      if c.InLeft? then LeftRotated(st1, st', nil, p) else RightRotated(st1, st', nil, p)
    ensures Finished(st', nil, root, Plug(c.up, Absorb(c, t)), top)
    ensures InOrder(Plug(c.up, Absorb(c, t))) == Whole(c, t)
  {
    AbsorbPainted(st, nil, root, c, t, x, p);
    var st1, t1, g := AbsorbPaint(st, c, p), AbsorbReadyTree(c, t), st[p].parent;
    var w := SiblingNode(st, c, p);
    if c.InLeft? {
      LeftRotateFocus(st1, st', nil, root, c.up, t1, p, g);
      MoveLeft(st', nil, root, c.up, Absorb(c, t), w, g);
    } else {
      RightRotateFocus(st1, st', nil, root, c.up, t1, p, g);
      MoveRight(st', nil, root, c.up, Absorb(c, t), w, g);
    }
    assert p in st' && !st'[p].red;
    if top != c.node {
      SiblingThere(c, t, h);
      TopBlack(st', nil, root, c.up, if c.red then h + 1 else h + 2, w, g, c.node);
    }
    AbsorbColours(c, t, h);
    AbsorbWhole(c, t);
    MoveToTop(st', nil, root, c.up, Absorb(c, t), w, g);
  }

  // ----- The end of the fix-up ----------------------------------------------

  /** The whole tree is in order, and painting `top` black changes nothing. */
  ghost predicate Finished(st: Store, nil: RbNode, root: RbNode, s: Tree, top: RbNode) {
    && root in st && Focus(st, nil, root, Top, s, st[root].left, root) && IsRedBlack(s)
    && top in st && !st[top].red
  }

  /** The topmost node of well-coloured surroundings is black. */
  lemma {:induction false} TopBlack(st: Store, nil: RbNode, root: RbNode, c: Path, h: int, x: RbNode,
                                    p: RbNode, any: RbNode)
    requires CtxLinked(st, nil, root, c, x, p) && CtxColoured(c, h) && !c.Top?
    ensures var n := TopNode(c, any); n in st && !st[n].red && n in CtxNodes(c)
    decreases c
  {
    if !c.up.Top? {
      TopBlack(st, nil, root, c.up, if c.red then h else h + 1, c.node, st[c.node].parent, c.node);
    }
  }

  lemma {:induction false} TopIsRootLeft(st: Store, nil: RbNode, root: RbNode, c: Path, x: RbNode, p: RbNode)
    requires CtxLinked(st, nil, root, c, x, p)
    ensures root in st && st[root].left == TopNode(c, x)
    decreases c
  {
    if !c.Top? {
      TopIsRootLeft(st, nil, root, c.up, c.node, st[c.node].parent);
    }
  }

  lemma {:induction false} TopNodeInside(c: Path, x: RbNode)
    requires !c.Top?
    ensures TopNode(c, x) in CtxNodes(c)
    decreases c
  {
    if !c.up.Top? {
      TopNodeInside(c.up, c.node);
    }
  }

  /** The shortage ends at a red `x`, or at the top. */
  lemma ShortageEnds(st: Store, nil: RbNode, root: RbNode, c: Path, t: Tree, h: int, x: RbNode, p: RbNode, top: RbNode)
    requires Deleting(st, nil, root, c, t, h, x, p)
    requires IsRed(t) || (x == top && TopNode(c, x) == top)
    ensures root in st && (t.Br? ==> x in st) && (t.Leaf? ==> x == nil)
    ensures var st' := if t.Br? then Paint(st, x, false) else st;
      var s := Plug(c, Blacken(t));
      Focus(st', nil, root, Top, s, st'[root].left, root) && IsRedBlack(s) && InOrder(s) == Whole(c, t)
  {
    var st' := if t.Br? then Paint(st, x, false) else st;
    if t.Br? {
      Painted(st, nil, root, c, t, x, p, false);
    }
    MoveToTop(st', nil, root, c, Blacken(t), x, p);
    InOrderPlug(c, Blacken(t));
    assert InOrder(Blacken(t)) == InOrder(t);
    if IsRed(t) {
      ColouredPlug(c, Blacken(t), h + 1);
    } else {
      if !c.Top? {
        TopNodeInside(c, x);
        assert false;
      }
      HeightIsBlackHeight(t, h);
    }
  }

  // ----- Taking a node out --------------------------------------------------

  /** `x` has taken the place of `y` below the parent of `y`. */
  ghost predicate Spliced(st: Store, st': Store, y: RbNode, x: RbNode) {
    && y in st && var p := st[y].parent;
    && st'.Keys == st.Keys && Hung(st, st', p, y, x)
    && (x in st ==> st'[x] == st[x].(parent := p))
    && Same(st, st', st.Keys - {p, x})
  }

  lemma SpliceReady(st: Store, nil: RbNode, root: RbNode, c: Path, t: Tree, y: RbNode, p: RbNode)
    requires Focus(st, nil, root, c, t, y, p) && t.Br? && (t.left.Leaf? || t.right.Leaf?)
    ensures y in st && p in st && st[y].parent == p && (p == root ==> st[p].left == y)
    ensures st[y].left == nil <==> t.left.Leaf?
    ensures st[y].right == nil <==> t.right.Leaf?
    ensures var x := if t.left.Leaf? then st[y].right else st[y].left;
      x != p && (x in st || x == nil)
  {
    MoveLeft(st, nil, root, c, t, y, p);
    MoveRight(st, nil, root, c, t, y, p);
  }

  lemma SpliceStep(st: Store, st': Store, nil: RbNode, root: RbNode, c: Path, t: Tree, y: RbNode, p: RbNode, x: RbNode)
    requires Focus(st, nil, root, c, t, y, p) && t.Br? && (t.left.Leaf? || t.right.Leaf?)
    requires y in st && x == (if t.left.Leaf? then st[y].right else st[y].left)
    requires Spliced(st, st', y, x)
    ensures Focus(st', nil, root, c, OnlyChild(t), x, p)
  {
    SpliceReady(st, nil, root, c, t, y, p);
    Reparented(st, st', nil, OnlyChild(t), x, y, p);
    HungSide(st, st', nil, root, c, y, p, x);
    Rehung(st, st', nil, root, c, y, p, x);
  }

  /** `y` has taken over the place, the colour and the neighbours of `z`. */
  ghost predicate TookPlace(st: Store, st': Store, y: RbNode, z: RbNode) {
    && z in st && y in st && var p, l, r := st[z].parent, st[z].left, st[z].right;
    && st'.Keys == st.Keys && st'[y] == st[z]
    && (l in st ==> st'[l] == st[l].(parent := y))
    && (r in st ==> st'[r] == st[r].(parent := y))
    && Hung(st, st', p, z, y)
    && Same(st, st', st.Keys - {p, y, l, r})
  }

  lemma PlaceReady(st: Store, nil: RbNode, root: RbNode, c: Path, t: Tree, z: RbNode, p: RbNode, y: RbNode)
    requires Focus(st, nil, root, c, t, z, p) && t.Br?
    requires y in st && y !in Nodes(t) + CtxNodes(c) + {root}
    ensures z in st && p in st && st[z].parent == p && p != y && p != z && z != y
    ensures var l, r := st[z].left, st[z].right;
      && (l in st || l == nil) && l != p && l != y && l != z
      && (r in st || r == nil) && r != p && r != y && r != z
      && (l in st ==> l != r) && l !in Nodes(t.right) && r !in Nodes(t.left)
    ensures z !in Nodes(t.left) && z !in Nodes(t.right) && p !in Nodes(t)
    ensures st[z].left !in CtxNodes(c) + {root} && st[z].right !in CtxNodes(c) + {root} && z !in CtxNodes(c) + {root}
    ensures Linked(st, nil, t.left, st[z].left, z) && Linked(st, nil, t.right, st[z].right, z)
  {
    MoveLeft(st, nil, root, c, t, z, p);
    MoveRight(st, nil, root, c, t, z, p);
  }

  lemma PlaceStep(st: Store, st': Store, nil: RbNode, root: RbNode, c: Path, t: Tree, z: RbNode, p: RbNode, y: RbNode)
    requires Focus(st, nil, root, c, t, z, p) && t.Br?
    requires y in st && y !in Nodes(t) + CtxNodes(c) + {root}
    requires TookPlace(st, st', y, z)
    ensures Focus(st', nil, root, c, t.(node := y), y, p)
  {
    PlaceReady(st, nil, root, c, t, z, p, y);
    Reparented(st, st', nil, t.left, st[z].left, z, y);
    Reparented(st, st', nil, t.right, st[z].right, z, y);
    HungSide(st, st', nil, root, c, z, p, y);
    Rehung(st, st', nil, root, c, z, p, y);
  }

  /** With `z` in `s`, taking out `y` right after it and then putting `y` where `z` is takes out `z`. */
  lemma PlacedContents(a: seq<RbNode>, b: seq<RbNode>, c: Path, t: Tree, z: RbNode, y: RbNode)
    requires t.Br? && t.node == z && Whole(c, t) == a + [z] + b
    requires z !in a && z !in Before(c) + InOrder(t.left)
    ensures InOrder(Plug(c, t.(node := y))) == a + [y] + b
  {
    InOrderPlug(c, t.(node := y));
    Regroup(Before(c), InOrder(t.left), [z], InOrder(t.right), After(c));
    Regroup(Before(c), InOrder(t.left), [y], InOrder(t.right), After(c));
    var l, r := Before(c) + InOrder(t.left), InOrder(t.right) + After(c);
    assert l + [z] + InOrder(t.right) + After(c) == l + [z] + r;
    assert l + [y] + InOrder(t.right) + After(c) == l + [y] + r;
    UniqueSplit(a, b, l, r, z);
  }
}

/**
 The steps of RBTreeInsert's fix-up loop, each as a change of the store.
 */
module RedBlackInsert {
  import opened RedBlackNode
  import opened RedBlackShape
  import opened RedBlackLinks

  /** Where the fix-up stands: the subtree `t` at `x` is red, all else is in order. */
  ghost predicate Inserting(st: Store, nil: RbNode, root: RbNode, c: Path, t: Tree, h: int, x: RbNode, p: RbNode) {
    Focus(st, nil, root, c, t, x, p) && AlmostInserted(c, t, h)
  }

  /** What the fix-up sees around a red `x`. */
  lemma AroundInserted(st: Store, nil: RbNode, root: RbNode, c: Path, t: Tree, h: int, x: RbNode, p: RbNode)
    requires Inserting(st, nil, root, c, t, h, x, p)
    ensures p in st && x in st && st[x].parent == p && (st[p].red <==> CtxRed(c))
    ensures CtxRed(c) ==>
              && !c.up.Top? && !c.up.red && p == c.node
              && st[p].parent == c.up.node && st[p].parent in st
              && (p == st[st[p].parent].left <==> c.up.InLeft?)
              && (x == st[p].right <==> c.InRight?) && (x == st[p].left <==> c.InLeft?)
              && var g := st[p].parent;
                 var u := if c.up.InLeft? then st[g].right else st[g].left;
                 if Uncle(c).Leaf? then u == nil else u in st && st[u].red == Uncle(c).red
  {
    if CtxRed(c) {
      MoveUp(st, nil, root, c, t, x, p);
      MoveUp(st, nil, root, c.up, Fill(c, t), p, st[p].parent);
    }
  }

  lemma UncleRecoloured(st: Store, nil: RbNode, root: RbNode, c: Path, t: Tree, x: RbNode, p: RbNode)
    requires Focus(st, nil, root, c, t, x, p) && !c.Top? && !c.up.Top? && IsRed(Uncle(c))
    ensures p in st && st[p].parent in st
    ensures var g := st[p].parent;
      var u := if c.up.InLeft? then st[g].right else st[g].left;
      u in st && Focus(Paint(Paint(Paint(st, p, false), u, false), g, true),
                       nil, root, c.up.up, PushRedUp(c, t), g, st[g].parent)
  {
    MoveUp(st, nil, root, c, t, x, p);
    var g := st[p].parent;
    var st1 := Paint(st, p, false);
    Painted(st, nil, root, c.up, Fill(c, t), p, g, false);
    MoveUp(st1, nil, root, c.up, Blacken(Fill(c, t)), p, g);
    var t1 := Fill(c.up, Blacken(Fill(c, t)));
    if c.up.InLeft? {
      MoveRight(st1, nil, root, c.up.up, t1, g, st1[g].parent);
      var u := st1[g].right;
      var c2 := InRight(c.up.up, t1.red, t1.left, g);
      Painted(st1, nil, root, c2, t1.right, u, g, false);
      var st2 := Paint(st1, u, false);
      MoveUp(st2, nil, root, c2, Blacken(t1.right), u, g);
      Painted(st2, nil, root, c.up.up, Fill(c2, Blacken(t1.right)), g, st2[g].parent, true);
    } else {
      MoveLeft(st1, nil, root, c.up.up, t1, g, st1[g].parent);
      var u := st1[g].left;
      var c2 := InLeft(c.up.up, t1.red, g, t1.right);
      Painted(st1, nil, root, c2, t1.left, u, g, false);
      var st2 := Paint(st1, u, false);
      MoveUp(st2, nil, root, c2, Blacken(t1.left), u, g);
      Painted(st2, nil, root, c.up.up, Fill(c2, Blacken(t1.left)), g, st2[g].parent, true);
    }
  }

  /** Red uncle: three nodes change colour and the focus climbs two levels. */
  lemma RedUncleStep(st: Store, nil: RbNode, root: RbNode, c: Path, t: Tree, h: int, x: RbNode, p: RbNode)
    requires Inserting(st, nil, root, c, t, h, x, p) && CtxRed(c) && !c.up.Top? && IsRed(Uncle(c))
    ensures p in st && st[p].parent in st
    ensures var g := st[p].parent;
      var u := if c.up.InLeft? then st[g].right else st[g].left;
      u in st && Inserting(Paint(Paint(Paint(st, p, false), u, false), g, true),
                           nil, root, c.up.up, PushRedUp(c, t), h + 1, g, st[g].parent)
    ensures Whole(c.up.up, PushRedUp(c, t)) == Whole(c, t)
  {
    UncleRecoloured(st, nil, root, c, t, x, p);
    PushRedUpColours(c, t, h);
  }

  lemma StraightenReady(st: Store, nil: RbNode, root: RbNode, c: Path, t: Tree, h: int, x: RbNode, p: RbNode)
    requires Inserting(st, nil, root, c, t, h, x, p) && CtxRed(c)
    ensures if c.InRight? then CanRotateLeft(st, nil, p) else CanRotateRight(st, nil, p)
  {
    MoveUp(st, nil, root, c, t, x, p);
    if c.InRight? {
      LeftRotatable(st, nil, root, c.up, Fill(c, t), p, st[p].parent);
    } else {
      RightRotatable(st, nil, root, c.up, Fill(c, t), p, st[p].parent);
    }
  }

  /** Black uncle, inner grandchild: one rotation at the parent, which takes the focus. */
  lemma StraightenStep(st: Store, st': Store, nil: RbNode, root: RbNode, c: Path, t: Tree, h: int, x: RbNode, p: RbNode)
    requires Inserting(st, nil, root, c, t, h, x, p) && CtxRed(c)
    requires !c.up.Top? && c.up.InLeft? == c.InRight?
    requires if c.InRight? then LeftRotated(st, st', nil, p) else RightRotated(st, st', nil, p)
    ensures var (c', t') := Straighten(c, t);
      Inserting(st', nil, root, c', t', h, p, x) && CtxRed(c') && c'.up == c.up && c'.InLeft? == c'.up.InLeft?
      && Whole(c', t') == Whole(c, t)
  {
    MoveUp(st, nil, root, c, t, x, p);
    var g := st[p].parent;
    if c.InRight? {
      LeftRotateFocus(st, st', nil, root, c.up, Fill(c, t), p, g);
      MoveLeft(st', nil, root, c.up, RotateLeft(Fill(c, t)), x, g);
    } else {
      RightRotateFocus(st, st', nil, root, c.up, Fill(c, t), p, g);
      MoveRight(st', nil, root, c.up, RotateRight(Fill(c, t)), x, g);
    }
    StraightenColours(c, t, h);
    StraightenWhole(c, t);
  }

  lemma SettlePainted(st: Store, nil: RbNode, root: RbNode, c: Path, t: Tree, x: RbNode, p: RbNode)
    requires Focus(st, nil, root, c, t, x, p) && !c.Top? && !c.up.Top? && c.up.InLeft? == c.InLeft?
    ensures p in st && st[p].parent in st
    ensures var g := st[p].parent;
      var t1 := Fill(c.up, Fill(c, t).(red := false)).(red := true);
      Focus(Paint(Paint(st, p, false), g, true), nil, root, c.up.up, t1, g, st[g].parent)
  {
    MoveUp(st, nil, root, c, t, x, p);
    var g := st[p].parent;
    var st1 := Paint(st, p, false);
    Painted(st, nil, root, c.up, Fill(c, t), p, g, false);
    MoveUp(st1, nil, root, c.up, Fill(c, t).(red := false), p, g);
    Painted(st1, nil, root, c.up.up, Fill(c.up, Fill(c, t).(red := false)), g, st1[g].parent, true);
  }

  lemma SettleReady(st: Store, nil: RbNode, root: RbNode, c: Path, t: Tree, h: int, x: RbNode, p: RbNode)
    requires Inserting(st, nil, root, c, t, h, x, p) && CtxRed(c) && !c.up.Top? && c.up.InLeft? == c.InLeft?
    ensures p in st && st[p].parent in st
    ensures var g := st[p].parent;
      var st1 := Paint(Paint(st, p, false), g, true);
      st1[x].parent == p && st1[p].parent == g
      && if c.InLeft? then CanRotateRight(st1, nil, g) else CanRotateLeft(st1, nil, g)
  {
    SettlePainted(st, nil, root, c, t, x, p);
    MoveUp(st, nil, root, c, t, x, p);
    var g := st[p].parent;
    var st1 := Paint(Paint(st, p, false), g, true);
    var t1 := Fill(c.up, Fill(c, t).(red := false)).(red := true);
    if c.InLeft? {
      RightRotatable(st1, nil, root, c.up.up, t1, g, st[g].parent);
    } else {
      LeftRotatable(st1, nil, root, c.up.up, t1, g, st[g].parent);
    }
  }

  /** Black uncle, outer grandchild: two nodes change colour and the grandparent rotates down. */
  lemma SettleStep(st: Store, st': Store, nil: RbNode, root: RbNode, c: Path, t: Tree, h: int, x: RbNode, p: RbNode)
    requires Inserting(st, nil, root, c, t, h, x, p) && CtxRed(c)
    requires !c.up.Top? && c.up.InLeft? == c.InLeft? && !IsRed(Uncle(c))
    requires p in st && st[p].parent in st
    requires var g := st[p].parent;
      var st1 := Paint(Paint(st, p, false), g, true);
      if c.InLeft? then RightRotated(st1, st', nil, g) else LeftRotated(st1, st', nil, g)
    ensures Inserting(st', nil, root, Settle(c), t, h, x, p) && !CtxRed(Settle(c))
    ensures Whole(Settle(c), t) == Whole(c, t)
  {
    SettlePainted(st, nil, root, c, t, x, p);
    var g := st[p].parent;
    var st1 := Paint(Paint(st, p, false), g, true);
    var t1 := Fill(c.up, Fill(c, t).(red := false)).(red := true);
    if c.InLeft? {
      RightRotateFocus(st1, st', nil, root, c.up.up, t1, g, st[g].parent);
      MoveLeft(st', nil, root, c.up.up, RotateRight(t1), p, st'[p].parent);
    } else {
      LeftRotateFocus(st1, st', nil, root, c.up.up, t1, g, st[g].parent);
      MoveRight(st', nil, root, c.up.up, RotateLeft(t1), p, st'[p].parent);
    }
    SettleColours(c, t, h);
    SettleWhole(c, t);
  }

  /** Painting the root black ends an insertion. */
  lemma InsertDone(st: Store, nil: RbNode, root: RbNode, c: Path, t: Tree, h: int, x: RbNode, p: RbNode)
    requires Inserting(st, nil, root, c, t, h, x, p) && !CtxRed(c)
    ensures root in st && st[root].left in st
    ensures Focus(Paint(st, st[root].left, false), nil, root, Top, Blacken(Plug(c, t)), st[root].left, root)
    ensures IsRedBlack(Blacken(Plug(c, t))) && InOrder(Blacken(Plug(c, t))) == Whole(c, t)
  {
    MoveToTop(st, nil, root, c, t, x, p);
    InOrderPlug(c, t);
    PlugBr(c, t);
    Painted(st, nil, root, Top, Plug(c, t), st[root].left, root, false);
    if c.Top? {
      BlackenColours(t, h);
      HeightIsBlackHeight(Blacken(t), h + 1);
    } else {
      ColouredPlug(c, t, h);
    }
  }
}

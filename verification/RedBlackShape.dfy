/**
 Mathematical side of the red-black tree of `rbt/src/red_black_tree.c`: the
 tree as a value (`Shape`), the surroundings of one of its subtrees (`Ctx`, a
 path back to the root), and the colour discipline of both.  Nothing in this
 module reads the heap; `RedBlackTree.dfy` ties nodes and pointers to it.
 */
module RedBlackShape {

  datatype Shape<N> =
    | Leaf
    | Br(red: bool, left: Shape<N>, node: N, right: Shape<N>)

  /** A tree with a hole, read from the hole upwards. */
  datatype Ctx<N> =
    | Top
    | InLeft(up: Ctx<N>, red: bool, node: N, right: Shape<N>)
    | InRight(up: Ctx<N>, red: bool, left: Shape<N>, node: N)

  // ----- Contents -----------------------------------------------------------

  ghost function InOrder<N>(t: Shape<N>): seq<N> {
    match t
    case Leaf => []
    case Br(_, l, n, r) => InOrder(l) + [n] + InOrder(r)
  }

  ghost function Nodes<N>(t: Shape<N>): set<N> {
    match t
    case Leaf => {}
    case Br(_, l, n, r) => Nodes(l) + {n} + Nodes(r)
  }

  ghost function CtxNodes<N>(c: Ctx<N>): set<N> {
    match c
    case Top => {}
    case InLeft(up, _, n, r) => CtxNodes(up) + {n} + Nodes(r)
    case InRight(up, _, l, n) => CtxNodes(up) + {n} + Nodes(l)
  }

  /** What precedes the hole in symmetric order. */
  ghost function Before<N>(c: Ctx<N>): seq<N> {
    match c
    case Top => []
    case InLeft(up, _, _, _) => Before(up)
    case InRight(up, _, l, n) => Before(up) + InOrder(l) + [n]
  }

  /** What follows the hole in symmetric order. */
  ghost function After<N>(c: Ctx<N>): seq<N> {
    match c
    case Top => []
    case InLeft(up, _, n, r) => [n] + InOrder(r) + After(up)
    case InRight(up, _, _, _) => After(up)
  }

  ghost function Whole<N>(c: Ctx<N>, t: Shape<N>): seq<N> {
    Before(c) + InOrder(t) + After(c)
  }

  ghost function Plug<N>(c: Ctx<N>, t: Shape<N>): Shape<N>
    decreases c
  {
    match c
    case Top => t
    case InLeft(up, red, n, r) => Plug(up, Br(red, t, n, r))
    case InRight(up, red, l, n) => Plug(up, Br(red, l, n, t))
  }

  ghost function Depth<N>(c: Ctx<N>): nat {
    if c.Top? then 0 else 1 + Depth(c.up)
  }

  ghost function Height<N>(t: Shape<N>): nat {
    match t
    case Leaf => 0
    case Br(_, l, _, r) => 1 + (if Height(l) < Height(r) then Height(r) else Height(l))
  }

  // ----- Colours ------------------------------------------------------------

  ghost predicate IsRed<N>(t: Shape<N>) {
    t.Br? && t.red
  }

  ghost predicate CtxRed<N>(c: Ctx<N>) {
    !c.Top? && c.red
  }

  ghost function Blacken<N>(t: Shape<N>): Shape<N> {
    if t.Br? then t.(red := false) else t
  }

  /** No red node has a red child, and every path down to a leaf meets `h` black nodes. */
  ghost predicate Coloured<N>(t: Shape<N>, h: int) {
    match t
    case Leaf => h == 0
    case Br(red, l, _, r) =>
      && (red ==> !IsRed(l) && !IsRed(r))
      && Coloured(l, if red then h else h - 1)
      && Coloured(r, if red then h else h - 1)
  }

  ghost function BlackHeight<N>(t: Shape<N>): nat {
    match t
    case Leaf => 0
    case Br(red, l, _, _) => BlackHeight(l) + if red then 0 else 1
  }

  /** The red-black properties of a whole tree. */
  ghost predicate IsRedBlack<N>(t: Shape<N>) {
    !IsRed(t) && Coloured(t, BlackHeight(t))
  }

  /** The surroundings obey the colour discipline and want black height `h` in the hole. */
  ghost predicate CtxColoured<N>(c: Ctx<N>, h: int) {
    match c
    case Top => true
    case InLeft(up, red, _, sib) =>
      && Coloured(sib, h)
      && (red ==> !IsRed(sib) && !CtxRed(up) && !up.Top?)
      && CtxColoured(up, if red then h else h + 1)
    case InRight(up, red, sib, _) =>
      && Coloured(sib, h)
      && (red ==> !IsRed(sib) && !CtxRed(up) && !up.Top?)
      && CtxColoured(up, if red then h else h + 1)
  }

  /** Insertion's one possible flaw: a red subtree under a red parent, or at the top. */
  ghost predicate AlmostInserted<N>(c: Ctx<N>, t: Shape<N>, h: int) {
    IsRed(t) && Coloured(t, h) && CtxColoured(c, h)
  }

  /** Deletion's one possible flaw: the subtree in the hole is one black short.
      Its root may be red, and then painting it black repairs everything. */
  ghost predicate OneShort<N>(c: Ctx<N>, t: Shape<N>, h: int) {
    && CtxColoured(c, h + 1)
    && if IsRed(t) then Coloured(Blacken(t), h + 1) else Coloured(t, h)
  }

  // ----- Lemmas about contents ----------------------------------------------

  lemma Regroup<T>(a: seq<T>, b: seq<T>, c: seq<T>, d: seq<T>, e: seq<T>)
    ensures a + (b + c + d) + e == a + b + (c + d + e)
    ensures a + (b + c + d) + e == (a + b + c) + d + e
  {
  }

  /** The subtree one step up, when `t` fills the hole of `c`. */
  ghost function Fill<N>(c: Ctx<N>, t: Shape<N>): (r: Shape<N>)
    requires !c.Top?
    ensures r.Br?
  {
    match c
    case InLeft(_, red, n, r) => Br(red, t, n, r)
    case InRight(_, red, l, n) => Br(red, l, n, t)
  }

  lemma WholeFill<N>(c: Ctx<N>, t: Shape<N>)
    requires !c.Top?
    ensures Whole(c.up, Fill(c, t)) == Whole(c, t)
  {
    match c
    case InLeft(up, _, n, r) => Regroup(Before(up), InOrder(t), [n], InOrder(r), After(up));
    case InRight(up, _, l, n) => Regroup(Before(up), InOrder(l), [n], InOrder(t), After(up));
  }

  lemma {:induction false} InOrderPlug<N>(c: Ctx<N>, t: Shape<N>)
    ensures InOrder(Plug(c, t)) == Whole(c, t)
    decreases c
  {
    if !c.Top? {
      WholeFill(c, t);
      InOrderPlug(c.up, Fill(c, t));
    }
  }

  lemma {:induction false} NodesInOrder<N>(t: Shape<N>)
    ensures Nodes(t) == set n | n in InOrder(t)
  {
    if t.Br? {
      NodesInOrder(t.left);
      NodesInOrder(t.right);
    }
  }

  lemma {:induction false} NodesPlug<N>(c: Ctx<N>, t: Shape<N>)
    ensures Nodes(Plug(c, t)) == CtxNodes(c) + Nodes(t)
    decreases c
  {
    match c
    case Top =>
    case InLeft(up, red, n, r) => NodesPlug(up, Br(red, t, n, r));
    case InRight(up, red, l, n) => NodesPlug(up, Br(red, l, n, t));
  }

  lemma {:induction false} PlugBr<N>(c: Ctx<N>, t: Shape<N>)
    requires t.Br?
    ensures Plug(c, t).Br?
    decreases c
  {
    if !c.Top? {
      PlugBr(c.up, Fill(c, t));
    }
  }

  // ----- Lemmas about colours -----------------------------------------------

  lemma {:induction false} HeightIsBlackHeight<N>(t: Shape<N>, h: int)
    requires Coloured(t, h)
    ensures h == BlackHeight(t)
  {
    if t.Br? {
      HeightIsBlackHeight(t.left, if t.red then h else h - 1);
    }
  }

  /** A well-coloured subtree in well-coloured surroundings makes a red-black tree. */
  lemma {:induction false} ColouredPlug<N>(c: Ctx<N>, t: Shape<N>, h: int)
    requires Coloured(t, h) && CtxColoured(c, h)
    requires IsRed(t) ==> !c.Top? && !CtxRed(c)
    ensures IsRedBlack(Plug(c, t))
    decreases c
  {
    match c
    case Top => HeightIsBlackHeight(t, h);
    case InLeft(up, red, n, r) => ColouredPlug(up, Br(red, t, n, r), if red then h else h + 1);
    case InRight(up, red, l, n) => ColouredPlug(up, Br(red, l, n, t), if red then h else h + 1);
  }

  /** Conversely, cutting a red-black tree anywhere leaves two well-coloured parts. */
  lemma {:induction false} ColouredUnplug<N>(c: Ctx<N>, t: Shape<N>) returns (h: int)
    requires IsRedBlack(Plug(c, t))
    ensures Coloured(t, h) && CtxColoured(c, h)
    ensures IsRed(t) ==> !c.Top? && !CtxRed(c)
    decreases c
  {
    match c
    case Top => h := BlackHeight(t);
    case InLeft(up, red, n, r) =>
      h := ColouredUnplug(up, Br(red, t, n, r));
      h := if red then h else h - 1;
    case InRight(up, red, l, n) =>
      h := ColouredUnplug(up, Br(red, l, n, t));
      h := if red then h else h - 1;
  }

  // ----- Insertion's fix-up on values ---------------------------------------

  /** The sibling of the hole's parent. */
  ghost function Uncle<N>(c: Ctx<N>): Shape<N>
    requires !c.Top? && !c.up.Top?
  {
    if c.up.InLeft? then c.up.right else c.up.left
  }

  /** Parent and uncle turn black and the grandparent red. */
  ghost function PushRedUp<N>(c: Ctx<N>, t: Shape<N>): Shape<N>
    requires !c.Top? && !c.up.Top?
  {
    if c.up.InLeft? then Br(true, Blacken(Fill(c, t)), c.up.node, Blacken(c.up.right))
    else Br(true, Blacken(c.up.left), c.up.node, Blacken(Fill(c, t)))
  }

  /** A red parent in the making of an insertion: it is not the top, and above it all is black. */
  lemma AboveRedParent<N>(c: Ctx<N>, h: int)
    requires CtxColoured(c, h) && CtxRed(c)
    ensures !c.up.Top? && !c.up.red && CtxColoured(c.up, h) && CtxColoured(c.up.up, h + 1)
    ensures Coloured(Uncle(c), h)
    ensures c.InLeft? ==> Coloured(c.right, h) && !IsRed(c.right)
    ensures c.InRight? ==> Coloured(c.left, h) && !IsRed(c.left)
  {
  }

  lemma BlackenColours<N>(t: Shape<N>, h: int)
    requires IsRed(t) && Coloured(t, h)
    ensures Coloured(Blacken(t), h + 1)
  {
  }

  lemma PushRedUpColours<N>(c: Ctx<N>, t: Shape<N>, h: int)
    requires AlmostInserted(c, t, h) && CtxRed(c) && !c.up.Top? && IsRed(Uncle(c))
    ensures AlmostInserted(c.up.up, PushRedUp(c, t), h + 1)
    ensures Whole(c.up.up, PushRedUp(c, t)) == Whole(c, t)
  {
    AboveRedParent(c, h);
    BlackenColours(Uncle(c), h);
    assert Coloured(Blacken(Fill(c, t)), h + 1);
    WholeFill(c, t);
    WholeFill(c.up, Fill(c, t));
    assert InOrder(PushRedUp(c, t)) == InOrder(Fill(c.up, Fill(c, t)));
  }

  /** The inner grandchild `t` rotates past its parent; the parent takes the focus. */
  ghost function Straighten<N>(c: Ctx<N>, t: Shape<N>): (Ctx<N>, Shape<N>)
    requires !c.Top? && !c.up.Top? && t.Br?
  {
    match c
    case InRight(up, red, a, p) => (InLeft(up, t.red, t.node, t.right), Br(red, a, p, t.left))
    case InLeft(up, red, p, a) => (InRight(up, t.red, t.left, t.node), Br(red, t.right, p, a))
  }

  lemma StraightenColours<N>(c: Ctx<N>, t: Shape<N>, h: int)
    requires AlmostInserted(c, t, h) && CtxRed(c) && !c.up.Top? && c.up.InLeft? == c.InRight?
    ensures var (c', t') := Straighten(c, t);
      && AlmostInserted(c', t', h) && CtxRed(c') && c'.up == c.up && c'.InLeft? == c'.up.InLeft?
  {
    AboveRedParent(c, h);
  }

  lemma StraightenWhole<N>(c: Ctx<N>, t: Shape<N>)
    requires !c.Top? && !c.up.Top? && t.Br?
    ensures var (c', t') := Straighten(c, t); Whole(c', t') == Whole(c, t)
  {
    var (c', t') := Straighten(c, t);
    WholeFill(c, t);
    WholeFill(c', t');
    if c.InRight? {
      Regroup(InOrder(c.left), [c.node], InOrder(t.left), [t.node], InOrder(t.right));
      assert InOrder(Fill(c, t)) == InOrder(Fill(c', t'));
    } else {
      Regroup(InOrder(t.left), [t.node], InOrder(t.right), [c.node], InOrder(c.right));
      assert InOrder(Fill(c, t)) == InOrder(Fill(c', t'));
    }
  }

  /** The parent turns black, the grandparent red, and the parent rotates above it. */
  ghost function Settle<N>(c: Ctx<N>): Ctx<N>
    requires !c.Top? && !c.up.Top?
  {
    if c.up.InLeft? then
      if c.InLeft? then InLeft(c.up.up, false, c.node, Br(true, c.right, c.up.node, c.up.right)) else c
    else
      if c.InRight? then InRight(c.up.up, false, Br(true, c.up.left, c.up.node, c.left), c.node) else c
  }

  lemma SettleColours<N>(c: Ctx<N>, t: Shape<N>, h: int)
    requires AlmostInserted(c, t, h) && CtxRed(c) && !c.up.Top?
    requires c.up.InLeft? == c.InLeft? && !IsRed(Uncle(c))
    ensures AlmostInserted(Settle(c), t, h) && !CtxRed(Settle(c))
  {
    AboveRedParent(c, h);
  }

  lemma SettleWhole<N>(c: Ctx<N>, t: Shape<N>)
    requires !c.Top? && !c.up.Top?
    ensures Whole(Settle(c), t) == Whole(c, t)
  {
    if c.up.InLeft? && c.InLeft? {
      Regroup([c.node], InOrder(c.right), [c.up.node], InOrder(c.up.right), After(c.up.up));
      assert After(Settle(c)) == After(c);
      assert Before(c.up) == Before(c.up.up);
    } else if c.up.InRight? && c.InRight? {
      Regroup(Before(c.up.up), InOrder(c.up.left), [c.up.node], InOrder(c.left), [c.node]);
      assert Before(Settle(c)) == Before(c);
      assert After(c.up) == After(c.up.up);
    }
  }

  // ----- Deletion's fix-up on values ----------------------------------------

  ghost function Sibling<N>(c: Ctx<N>): Shape<N>
    requires !c.Top?
  {
    if c.InLeft? then c.right else c.left
  }

  ghost function WithSibling<N>(c: Ctx<N>, sib: Shape<N>): (r: Ctx<N>)
    requires !c.Top?
    ensures !r.Top?
  {
    if c.InLeft? then c.(right := sib) else c.(left := sib)
  }

  /** The child of the sibling that is further from the hole, and the nearer one. */
  ghost function FarNephew<N>(c: Ctx<N>): Shape<N>
    requires !c.Top? && Sibling(c).Br?
  {
    if c.InLeft? then c.right.right else c.left.left
  }

  ghost function NearNephew<N>(c: Ctx<N>): Shape<N>
    requires !c.Top? && Sibling(c).Br?
  {
    if c.InLeft? then c.right.left else c.left.right
  }

  /** Next to a hole that is one black short there is a sibling. */
  lemma SiblingThere<N>(c: Ctx<N>, t: Shape<N>, h: int)
    requires OneShort(c, t, h) && !IsRed(t) && !c.Top?
    ensures 0 <= h && Sibling(c).Br? && Coloured(Sibling(c), h + 1)
    ensures CtxColoured(c.up, if c.red then h + 1 else h + 2)
    ensures c.red ==> !Sibling(c).red && !CtxRed(c.up) && !c.up.Top?
    ensures Coloured(NearNephew(c), if Sibling(c).red then h + 1 else h)
    ensures Coloured(FarNephew(c), if Sibling(c).red then h + 1 else h)
  {
    HeightAtMostTwiceBlack(t, h);
  }

  /** Case 1: the red sibling turns black and rotates above the parent, which turns red. */
  ghost function RaiseSibling<N>(c: Ctx<N>): Ctx<N>
    requires !c.Top? && Sibling(c).Br?
  {
    if c.InLeft? then
      InLeft(InLeft(c.up, false, c.right.node, c.right.right), true, c.node, c.right.left)
    else
      InRight(InRight(c.up, false, c.left.left, c.left.node), true, c.left.right, c.node)
  }

  lemma RaiseSiblingColours<N>(c: Ctx<N>, t: Shape<N>, h: int)
    requires OneShort(c, t, h) && !IsRed(t) && !c.Top? && IsRed(Sibling(c))
    ensures OneShort(RaiseSibling(c), t, h)
  {
    SiblingThere(c, t, h);
  }

  lemma RaiseSiblingWhole<N>(c: Ctx<N>, t: Shape<N>)
    requires !c.Top? && Sibling(c).Br?
    ensures Whole(RaiseSibling(c), t) == Whole(c, t)
  {
    var c' := RaiseSibling(c);
    if c.InLeft? {
      Regroup([c.node], InOrder(c.right.left), [c.right.node], InOrder(c.right.right), After(c.up));
      assert After(c') == After(c);
      assert Before(c'.up) == Before(c.up);
    } else {
      Regroup(Before(c.up), InOrder(c.left.left), [c.left.node], InOrder(c.left.right), [c.node]);
      assert Before(c') == Before(c);
      assert After(c'.up) == After(c.up);
    }
  }

  /** Case 2: the sibling turns red and the shortage moves up. */
  ghost function RedSibling<N>(c: Ctx<N>): Ctx<N>
    requires !c.Top? && Sibling(c).Br?
  {
    WithSibling(c, Sibling(c).(red := true))
  }

  lemma RedSiblingColours<N>(c: Ctx<N>, t: Shape<N>, h: int)
    requires OneShort(c, t, h) && !IsRed(t) && !c.Top?
    requires Sibling(c).Br? && !Sibling(c).red && !IsRed(NearNephew(c)) && !IsRed(FarNephew(c))
    ensures OneShort(c.up, Fill(RedSibling(c), t), if c.red then h else h + 1)
  {
    SiblingThere(c, t, h);
    assert Coloured(Sibling(RedSibling(c)), h);
  }

  lemma RedSiblingWhole<N>(c: Ctx<N>, t: Shape<N>)
    requires !c.Top? && Sibling(c).Br?
    ensures Whole(c.up, Fill(RedSibling(c), t)) == Whole(c, t)
  {
    WholeFill(c, t);
    assert InOrder(Fill(RedSibling(c), t)) == InOrder(Fill(c, t));
  }

  /** Case 3: the near nephew turns black and rotates above the sibling, which turns red. */
  ghost function TurnSibling<N>(c: Ctx<N>): Ctx<N>
    requires !c.Top? && Sibling(c).Br? && NearNephew(c).Br?
  {
    var w, v := Sibling(c), NearNephew(c);
    if c.InLeft? then c.(right := Br(false, v.left, v.node, Br(true, v.right, w.node, w.right)))
    else c.(left := Br(false, Br(true, w.left, w.node, v.left), v.node, v.right))
  }

  lemma TurnSiblingColours<N>(c: Ctx<N>, t: Shape<N>, h: int)
    requires OneShort(c, t, h) && !IsRed(t) && !c.Top?
    requires Sibling(c).Br? && !Sibling(c).red && IsRed(NearNephew(c)) && !IsRed(FarNephew(c))
    ensures OneShort(TurnSibling(c), t, h) && IsRed(FarNephew(TurnSibling(c)))
  {
    SiblingThere(c, t, h);
    assert Coloured(Sibling(TurnSibling(c)), h + 1);
  }

  lemma TurnSiblingWhole<N>(c: Ctx<N>, t: Shape<N>)
    requires !c.Top? && Sibling(c).Br? && NearNephew(c).Br?
    ensures Whole(TurnSibling(c), t) == Whole(c, t)
  {
    var w, v := Sibling(c), NearNephew(c);
    if c.InLeft? {
      Regroup(InOrder(v.left), [v.node], InOrder(v.right), [w.node], InOrder(w.right));
      assert InOrder(Sibling(TurnSibling(c))) == InOrder(w);
    } else {
      Regroup(InOrder(w.left), [w.node], InOrder(v.left), [v.node], InOrder(v.right));
      assert InOrder(Sibling(TurnSibling(c))) == InOrder(w);
    }
  }

  /** Case 4: the sibling rotates above the parent and takes its colour; parent and far nephew turn black. */
  ghost function Absorb<N>(c: Ctx<N>, t: Shape<N>): Shape<N>
    requires !c.Top? && Sibling(c).Br?
  {
    var w := Sibling(c);
    if c.InLeft? then Br(c.red, Br(false, t, c.node, w.left), w.node, Blacken(w.right))
    else Br(c.red, Blacken(w.left), w.node, Br(false, w.right, c.node, t))
  }

  lemma AbsorbColours<N>(c: Ctx<N>, t: Shape<N>, h: int)
    requires OneShort(c, t, h) && !IsRed(t) && !c.Top?
    requires Sibling(c).Br? && !Sibling(c).red && IsRed(FarNephew(c))
    ensures IsRedBlack(Plug(c.up, Absorb(c, t)))
  {
    SiblingThere(c, t, h);
    BlackenColours(FarNephew(c), h);
    ColouredPlug(c.up, Absorb(c, t), if c.red then h + 1 else h + 2);
  }

  lemma AbsorbWhole<N>(c: Ctx<N>, t: Shape<N>)
    requires !c.Top? && Sibling(c).Br?
    ensures InOrder(Plug(c.up, Absorb(c, t))) == Whole(c, t)
  {
    InOrderPlug(c.up, Absorb(c, t));
    WholeFill(c, t);
    var w := Sibling(c);
    if c.InLeft? {
      Regroup(InOrder(t), [c.node], InOrder(w.left), [w.node], InOrder(w.right));
    } else {
      Regroup(InOrder(w.left), [w.node], InOrder(w.right), [c.node], InOrder(t));
    }
    assert InOrder(Absorb(c, t)) == InOrder(Fill(c, t));
  }

  // ----- Taking a node out --------------------------------------------------

  /** What is left of a subtree whose top has at most one child, once the top is gone. */
  ghost function OnlyChild<N>(t: Shape<N>): Shape<N>
    requires t.Br? && (t.left.Leaf? || t.right.Leaf?)
  {
    if t.left.Leaf? then t.right else t.left
  }

  lemma SpliceColours<N>(c: Ctx<N>, t: Shape<N>) returns (h: int)
    requires t.Br? && (t.left.Leaf? || t.right.Leaf?) && IsRedBlack(Plug(c, t))
    ensures if t.red then IsRedBlack(Plug(c, OnlyChild(t))) else OneShort(c, OnlyChild(t), h)
  {
    h := ColouredUnplug(c, t);
    if t.red {
      ColouredPlug(c, OnlyChild(t), h);
    } else {
      h := h - 1;
    }
  }

  /** Another node in the same place changes nothing about colours. */
  lemma {:induction false} RelabelColours<N>(c: Ctx<N>, t: Shape<N>, n: N)
    requires t.Br? && IsRedBlack(Plug(c, t))
    ensures IsRedBlack(Plug(c, t.(node := n)))
  {
    var h := ColouredUnplug(c, t);
    ColouredPlug(c, t.(node := n), h);
  }

  /** The leftmost node of a subtree, with what surrounds it. */
  ghost function Leftmost<N>(c: Ctx<N>, t: Shape<N>): (r: (Ctx<N>, Shape<N>))
    requires t.Br?
    ensures r.1.Br?
    decreases t
  {
    if t.left.Leaf? then (c, t) else Leftmost(InLeft(c, t.red, t.node, t.right), t.left)
  }

  ghost function Rightmost<N>(c: Ctx<N>, t: Shape<N>): (r: (Ctx<N>, Shape<N>))
    requires t.Br?
    ensures r.1.Br?
    decreases t
  {
    if t.right.Leaf? then (c, t) else Rightmost(InRight(c, t.red, t.left, t.node), t.right)
  }

  lemma {:induction false} LeftmostPlace<N>(c: Ctx<N>, t: Shape<N>)
    requires t.Br?
    ensures var (c', t') := Leftmost(c, t);
      t'.left.Leaf? && Before(c') == Before(c) && Plug(c', t') == Plug(c, t)
    decreases t
  {
    if t.left.Br? {
      LeftmostPlace(InLeft(c, t.red, t.node, t.right), t.left);
    }
  }

  lemma {:induction false} RightmostPlace<N>(c: Ctx<N>, t: Shape<N>)
    requires t.Br?
    ensures var (c', t') := Rightmost(c, t);
      t'.right.Leaf? && After(c') == After(c) && Plug(c', t') == Plug(c, t)
    decreases t
  {
    if t.right.Br? {
      RightmostPlace(InRight(c, t.red, t.left, t.node), t.right);
    }
  }

  /** A sequence splits in one way only around an element that occurs once. */
  lemma UniqueSplit<T>(a: seq<T>, b: seq<T>, a': seq<T>, b': seq<T>, z: T)
    requires a + [z] + b == a' + [z] + b' && z !in a && z !in a'
    ensures a == a' && b == b'
  {
    var s := a + [z] + b;
    assert s[|a|] == z && s[|a'|] == z;
    assert |a| == |a'|;
    assert a == s[..|a|] && a' == s[..|a'|];
    assert b == s[|a| + 1..] && b' == s[|a'| + 1..];
  }

  /** The node at the top of everything, when `x` tops the subtree in the hole. */
  ghost function TopNode<N>(c: Ctx<N>, x: N): N {
    if c.Top? then x else TopNode(c.up, c.node)
  }

  // ----- The height bound ---------------------------------------------------

  ghost function Pow2(n: nat): nat {
    if n == 0 then 1 else 2 * Pow2(n - 1)
  }

  /** `h` is at most twice the binary logarithm of `n` + 1. */
  ghost predicate WithinTwiceLog(h: nat, n: nat) {
    Pow2(h) <= (n + 1) * (n + 1)
  }

  lemma {:induction false} Pow2Add(a: nat, b: nat)
    ensures Pow2(a + b) == Pow2(a) * Pow2(b)
  {
    if a > 0 {
      Pow2Add(a - 1, b);
      assert Pow2(a + b) == 2 * Pow2(a - 1 + b);
      assert 2 * (Pow2(a - 1) * Pow2(b)) == Pow2(a) * Pow2(b);
    }
  }

  lemma {:induction false} Pow2Monotonic(a: nat, b: nat)
    requires a <= b
    ensures 1 <= Pow2(a) <= Pow2(b)
    decreases b
  {
    if a < b {
      Pow2Monotonic(a, b - 1);
    } else if 0 < a {
      Pow2Monotonic(a - 1, a - 1);
    }
  }

  lemma {:induction false} HeightAtMostTwiceBlack<N>(t: Shape<N>, h: int)
    requires Coloured(t, h)
    ensures 0 <= h && Height(t) <= 2 * h + if IsRed(t) then 1 else 0
  {
    if t.Br? {
      HeightAtMostTwiceBlack(t.left, if t.red then h else h - 1);
      HeightAtMostTwiceBlack(t.right, if t.red then h else h - 1);
    }
  }

  lemma {:induction false} ManyNodes<N>(t: Shape<N>, h: int)
    requires Coloured(t, h)
    ensures 0 <= h && Pow2(h) <= |InOrder(t)| + 1
  {
    if t.Br? {
      ManyNodes(t.left, if t.red then h else h - 1);
      ManyNodes(t.right, if t.red then h else h - 1);
    }
  }

  lemma SquareMonotonic(a: nat, b: nat)
    requires a <= b
    ensures a * a <= b * b
  {
    assert a * a <= a * b <= b * b;
  }

  /** Height at most 2*log2(n+1), written without logarithms. */
  lemma HeightBound<N>(t: Shape<N>)
    requires IsRedBlack(t)
    ensures WithinTwiceLog(Height(t), |InOrder(t)|)
  {
    var h := BlackHeight(t);
    HeightAtMostTwiceBlack(t, h);
    ManyNodes(t, h);
    Pow2Add(h, h);
    Pow2Monotonic(Height(t), h + h);
    SquareMonotonic(Pow2(h), |InOrder(t)| + 1);
  }

  lemma {:induction false} DepthAndHeight<N>(c: Ctx<N>, t: Shape<N>)
    ensures Depth(c) + Height(t) <= Height(Plug(c, t))
    decreases c
  {
    if !c.Top? {
      DepthAndHeight(c.up, Fill(c, t));
    }
  }
}

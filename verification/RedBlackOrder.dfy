/**
 Keys in order, for any comparison that meets the contract of `rbt/inc/w_rbt.h`.
 */
module RedBlackOrder {
  import opened RedBlackNode
  import opened RedBlackShape
  import opened RedBlackLinks

  type CompareFunc = (VoidPtr, VoidPtr) -> int

  function Compare(f: CompareFunc, a: VoidPtr, b: VoidPtr): int {
    f(a, b)
  }

  /** What the library asks of its caller's comparison: 1, -1 or 0, and a total preorder. */
  ghost predicate Comparator(f: CompareFunc) {
    && (forall a, b :: -1 <= Compare(f, a, b) <= 1)
    && (forall a, b :: Compare(f, a, b) == 1 <==> Compare(f, b, a) == -1)
    && (forall a, b, c :: Compare(f, a, b) != 1 && Compare(f, b, c) != 1 ==> Compare(f, a, c) != 1)
  }

  /** No key is above a later one. */
  ghost predicate Sorted(f: CompareFunc, s: seq<RbNode>) {
    forall i, j | 0 <= i < j < |s| :: Compare(f, s[i].key, s[j].key) != 1
  }

  ghost predicate Distinct(s: seq<RbNode>) {
    forall i, j | 0 <= i < j < |s| :: s[i] != s[j]
  }

  ghost predicate NoneAbove(f: CompareFunc, s: seq<RbNode>, key: VoidPtr) {
    forall i | 0 <= i < |s| :: Compare(f, s[i].key, key) != 1
  }

  ghost predicate AllAbove(f: CompareFunc, s: seq<RbNode>, key: VoidPtr) {
    forall i | 0 <= i < |s| :: Compare(f, s[i].key, key) == 1
  }

  /** Going left keeps everything to the right of the hole above `key`. */
  lemma SearchLeft(f: CompareFunc, s: seq<RbNode>, c: Path, t: Tree, key: VoidPtr)
    requires Comparator(f) && t.Br? && Sorted(f, s) && s == Whole(c, t)
    requires Compare(f, t.node.key, key) == 1 && AllAbove(f, After(c), key)
    ensures AllAbove(f, After(InLeft(c, t.red, t.node, t.right)), key)
  {
    var r := InOrder(t.right);
    var k := |Before(c) + InOrder(t.left)|;
    assert s == (Before(c) + InOrder(t.left)) + [t.node] + r + After(c);
    forall i | 0 <= i < |r| ensures Compare(f, r[i].key, key) == 1 {
      assert s[k] == t.node && s[k + 1 + i] == r[i];
      assert Compare(f, s[k].key, s[k + 1 + i].key) != 1;
    }
  }

  /** Going right keeps everything to the left of the hole at or below `key`. */
  lemma SearchRight(f: CompareFunc, s: seq<RbNode>, c: Path, t: Tree, key: VoidPtr)
    requires Comparator(f) && t.Br? && Sorted(f, s) && s == Whole(c, t)
    requires Compare(f, t.node.key, key) != 1 && NoneAbove(f, Before(c), key)
    ensures NoneAbove(f, Before(InRight(c, t.red, t.left, t.node)), key)
  {
    var l := InOrder(t.left);
    var k := |Before(c)|;
    assert s == Before(c) + l + [t.node] + (InOrder(t.right) + After(c));
    forall i | 0 <= i < |l| ensures Compare(f, l[i].key, key) != 1 {
      assert s[k + i] == l[i] && s[k + |l|] == t.node;
      assert Compare(f, s[k + i].key, s[k + |l|].key) != 1;
    }
  }

  ghost predicate AllBelow(f: CompareFunc, s: seq<RbNode>, key: VoidPtr) {
    forall i | 0 <= i < |s| :: Compare(f, s[i].key, key) == -1
  }

  /** Going right past a smaller key keeps everything to the left of the hole below `key`. */
  lemma SearchRightStrictly(f: CompareFunc, s: seq<RbNode>, c: Path, t: Tree, key: VoidPtr)
    requires Comparator(f) && t.Br? && Sorted(f, s) && s == Whole(c, t)
    requires Compare(f, t.node.key, key) == -1 && AllBelow(f, Before(c), key)
    ensures AllBelow(f, Before(InRight(c, t.red, t.left, t.node)), key)
  {
    var l := InOrder(t.left);
    var k := |Before(c)|;
    assert s == Before(c) + l + [t.node] + (InOrder(t.right) + After(c));
    forall i | 0 <= i < |l| ensures Compare(f, l[i].key, key) == -1 {
      assert s[k + i] == l[i] && s[k + |l|] == t.node;
      assert Compare(f, s[k + i].key, s[k + |l|].key) != 1;
      assert Compare(f, key, t.node.key) == 1;
    }
  }

  /** The nodes with a key equal to `key`. */
  ghost function EqualTo(f: CompareFunc, s: seq<RbNode>, key: VoidPtr): set<RbNode> {
    set n | n in s && Compare(f, n.key, key) == 0
  }

  /** Between what is below and what is above it, a search has all equal keys in its subtree. */
  lemma EqualInside(f: CompareFunc, c: Path, t: Tree, key: VoidPtr)
    requires AllBelow(f, Before(c), key) && AllAbove(f, After(c), key)
    ensures EqualTo(f, Whole(c, t), key) <= Nodes(t)
  {
    NodesInOrder(t);
    forall n | n in EqualTo(f, Whole(c, t), key) ensures n in InOrder(t) {
      assert n in Before(c) || n in InOrder(t) || n in After(c);
    }
  }

  /** Between what is at or below its key and what is above it, a new node is in order. */
  lemma SortedInsert(f: CompareFunc, s: seq<RbNode>, t: seq<RbNode>, z: RbNode)
    requires Comparator(f) && Sorted(f, s + t) && NoneAbove(f, s, z.key) && AllAbove(f, t, z.key)
    ensures Sorted(f, s + [z] + t)
  {
    var u, v := s + t, s + [z] + t;
    forall i, j | 0 <= i < j < |v| ensures Compare(f, v[i].key, v[j].key) != 1 {
      if i != |s| && j != |s| {
        var i', j' := if i < |s| then i else i - 1, if j < |s| then j else j - 1;
        assert v[i] == u[i'] && v[j] == u[j'];
      }
    }
  }

  lemma SortedDelete(f: CompareFunc, s: seq<RbNode>, t: seq<RbNode>, z: RbNode)
    requires Sorted(f, s + [z] + t)
    ensures Sorted(f, s + t)
  {
    var u, v := s + t, s + [z] + t;
    forall i, j | 0 <= i < j < |u| ensures Compare(f, u[i].key, u[j].key) != 1 {
      var i', j' := if i < |s| then i else i + 1, if j < |s| then j else j + 1;
      assert u[i] == v[i'] && u[j] == v[j'];
    }
  }

  /** `s'` is `s` without the element `z`, which is at index `k`. */
  ghost predicate Removes(s: seq<RbNode>, s': seq<RbNode>, k: nat, z: RbNode) {
    k < |s| && s[k] == z && s' == s[..k] + s[k + 1..]
  }

  /** Taking out the successor `y` of `z` and putting it in the place of `z` takes out `z`. */
  lemma DeletedContents(f: CompareFunc, s: seq<RbNode>, k: nat, j: nat, z: RbNode, y: RbNode)
    requires k < |s| && s[k] == z && j < |s| && s[j] == y && (j == k || j == k + 1)
    requires Sorted(f, s) && y !in s[..j] && y !in s[j + 1..] && z !in s[..k] && z !in s[k + 1..]
    ensures j == k <==> y == z
    ensures Sorted(f, s[..k] + s[k + 1..])
    ensures y !in s[..j] + s[j + 1..]
    ensures j == k + 1 ==>
              && s[..j] + s[j + 1..] == s[..k] + [z] + s[k + 2..]
              && s[..k] + [y] + s[k + 2..] == s[..k] + s[k + 1..]
  {
    assert s == s[..k] + [z] + s[k + 1..];
    SortedDelete(f, s[..k], s[k + 1..], z);
  }
}

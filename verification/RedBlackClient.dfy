/**
 What a caller of `rbt/src/red_black_tree.c` sees over whole runs of calls on a tree.
 */
module RedBlackClient {
  import opened RedBlackNode
  import opened RedBlackShape
  import opened RedBlackLinks
  import opened RedBlackOrder
  import opened RedBlackRuns
  import opened RedBlackTree

  /** A call: a key to insert with its info, or the number of the surviving node to
      delete, counted in order of arrival. */
  datatype Command = InsertKey(key: VoidPtr, info: VoidPtr) | DeleteNode(n: nat)

  /** A key and its info. */
  datatype Entry = Entry(key: VoidPtr, info: VoidPtr)

  /** The entries left, in order of arrival. */
  function Left(entries: seq<Entry>, commands: seq<Command>): seq<Entry>
    decreases |commands|
  {
    if commands == [] then entries
    else Left(Next(entries, commands[0]), commands[1..])
  }

  function Next(entries: seq<Entry>, c: Command): seq<Entry> {
    match c
    case InsertKey(key, info) => entries + [Entry(key, info)]
    case DeleteNode(n) => if n < |entries| then entries[..n] + entries[n + 1..] else entries
  }

  function EntryOf(n: RbNode): Entry {
    Entry(n.key, n.info)
  }

  function EntriesOf(s: seq<RbNode>): (r: seq<Entry>)
    ensures |r| == |s|
  {
    seq(|s|, i requires 0 <= i < |s| => EntryOf(s[i]))
  }

  /** The tree holds the nodes of `arrived`, sorted by inserting them in that order. */
  ghost predicate Holds(t: RbTree, arrived: seq<RbNode>)
    reads t, t.nil, t.Cells()
  {
    t.Valid() && Distinct(arrived) && t.Contents() == SortedBy(t.compare, arrived)
  }

  /** The nodes of `s` that are left in `s'` are there in the same order. */
  ghost predicate OrderKept(s: seq<RbNode>, s': seq<RbNode>) {
    forall x, y | Ahead(s, x, y) && x in s' && y in s' :: Ahead(s', x, y)
  }

  /** None of the nodes of `past` has come into the tree again. */
  ghost predicate NoneBack(past: set<RbNode>, s: seq<RbNode>, s': seq<RbNode>) {
    forall n | n in s' && n in past :: n in s
  }

  lemma {:induction false} InsertKeepsAll(f: CompareFunc, s: seq<RbNode>, n: RbNode)
    ensures OrderKept(s, Inserted(f, s, n))
    ensures forall x :: x in Inserted(f, s, n) <==> x in s || x == n
  {
    forall x, y | Ahead(s, x, y) ensures Ahead(Inserted(f, s, n), x, y) {
      InsertKeepsOrder(f, s, n, x, y);
    }
    forall x ensures x in Inserted(f, s, n) <==> x in s || x == n {
      InsertedHas(f, s, n, x);
    }
  }

  lemma {:induction false} RemoveKeepsAll(s: seq<RbNode>, z: RbNode)
    requires Distinct(s) && z in s
    ensures OrderKept(s, Removed(s, z))
    ensures forall x :: x in Removed(s, z) <==> x in s && x != z
  {
    RemovedDistinct(s, z);
    forall x, y | Ahead(s, x, y) && x in Removed(s, z) && y in Removed(s, z) ensures Ahead(Removed(s, z), x, y) {
      RemoveKeepsOrder(s, z, x, y);
    }
  }

  /** Over two stretches, when nothing that the first has taken out comes back in the second. */
  lemma OrderKeptOn(s0: seq<RbNode>, s: seq<RbNode>, s': seq<RbNode>)
    requires OrderKept(s0, s) && OrderKept(s, s')
    requires forall n <- s' :: n in s || n !in s0
    ensures OrderKept(s0, s')
  {
    forall x, y | Ahead(s0, x, y) && x in s' && y in s' ensures Ahead(s', x, y) {
      assert x in s0 && y in s0;
    }
  }

  /** One insertion. */
  method InsertNext(t: RbTree, arrived: seq<RbNode>, key: VoidPtr, info: VoidPtr, ghost past: set<RbNode>)
    returns (arrived': seq<RbNode>)
    requires Holds(t, arrived)
    modifies t`shape, t.Cells()`left, t.Cells()`right, t.Cells()`parent, t.Cells()`red
    ensures Holds(t, arrived') && fresh(t.Cells() - old(t.Cells()))
    ensures NoneBack(past, old(t.Contents()), t.Contents()) && OrderKept(old(t.Contents()), t.Contents())
    ensures arrived <= arrived' && EntriesOf(arrived') == EntriesOf(arrived) + [Entry(key, info)]
  {
    ghost var s, f := t.Contents(), t.compare;
    var n, k, rotations := t.RBTreeInsert(key, info);
    arrived' := arrived + [n];
    InsertPromise(f, s, k, n);
    SortedByDistinct(f, arrived);
    ArrivedNext(f, arrived, n, s);
    InsertKeepsAll(f, s, n);
  }

  lemma {:induction false} ArrivedNext(f: CompareFunc, arrived: seq<RbNode>, n: RbNode, s: seq<RbNode>)
    requires Distinct(arrived) && n !in arrived && s == SortedBy(f, arrived)
    ensures Distinct(arrived + [n]) && SortedBy(f, arrived + [n]) == Inserted(f, s, n)
    ensures EntriesOf(arrived + [n]) == EntriesOf(arrived) + [EntryOf(n)]
  {
    assert (arrived + [n])[..|arrived|] == arrived;
  }

  /** One deletion, of the node that has arrived as number `n` of those left. */
  method DeleteNext(t: RbTree, arrived: seq<RbNode>, n: nat) returns (arrived': seq<RbNode>)
    requires Holds(t, arrived) && n < |arrived|
    modifies t`shape, t.Cells()`left, t.Cells()`right, t.Cells()`parent, t.Cells()`red, t.nil`parent, t.nil`red
    ensures Holds(t, arrived') && t.Cells() <= old(t.Cells())
    ensures (forall n | n in t.Contents() :: n in old(t.Contents())) && OrderKept(old(t.Contents()), t.Contents())
    ensures arrived' == arrived[..n] + arrived[n + 1..]
    ensures EntriesOf(arrived') == EntriesOf(arrived)[..n] + EntriesOf(arrived)[n + 1..]
  {
    ghost var s, f := t.Contents(), t.compare;
    var z := arrived[n];
    SortedByDistinct(f, arrived);
    ghost var k, rotations;
    k, rotations := t.RBDelete(z);
    arrived' := arrived[..n] + arrived[n + 1..];
    DeletePromise(s, t.Contents(), k, z);
    ArrivedWithout(f, arrived, n, s);
    RemoveKeepsAll(s, z);
  }

  lemma {:induction false} ArrivedWithout(f: CompareFunc, arrived: seq<RbNode>, n: nat, s: seq<RbNode>)
    requires Comparator(f) && Distinct(arrived) && n < |arrived| && s == SortedBy(f, arrived)
    ensures var rest := arrived[..n] + arrived[n + 1..];
      && Distinct(rest) && SortedBy(f, rest) == Removed(s, arrived[n])
      && EntriesOf(rest) == EntriesOf(arrived)[..n] + EntriesOf(arrived)[n + 1..]
  {
    var z := arrived[n];
    var k := RemovedCut(arrived, z);
    assert k == n;
    SortedByRemoved(f, arrived, z);
    RemovedDistinct(arrived, z);
    EntriesWithout(arrived, n);
  }

  lemma EntriesWithout(s: seq<RbNode>, n: nat)
    requires n < |s|
    ensures EntriesOf(s[..n] + s[n + 1..]) == EntriesOf(s)[..n] + EntriesOf(s)[n + 1..]
  {
  }

  /** The node objects of `s`, the first to have arrived, that no command deletes. */
  function Kept(s: seq<RbNode>, commands: seq<Command>): seq<RbNode>
    decreases |commands|
  {
    if commands == [] then s else Kept(KeptNext(s, commands[0]), commands[1..])
  }

  function KeptNext(s: seq<RbNode>, c: Command): seq<RbNode> {
    match c
    case InsertKey(_, _) => s
    case DeleteNode(n) => if n < |s| then s[..n] + s[n + 1..] else s
  }

  /** Any run of insertions and deletions: the tree stays a red-black tree, and holds
      exactly the entries left, sorted, equal keys in their order of arrival, as if the
      others had never been there.  Of the nodes in `first`, exactly those that are not
      deleted are still there, as the same objects, and any nodes that stay keep their
      order. */
  method RunCommands(t: RbTree, arrived0: seq<RbNode>, commands: seq<Command>, ghost first: seq<RbNode>,
                     ghost past: set<RbNode>)
    returns (arrived: seq<RbNode>)
    requires Holds(t, arrived0) && first <= arrived0
    modifies t`shape, t.Cells()`left, t.Cells()`right, t.Cells()`parent, t.Cells()`red, t.nil`parent, t.nil`red
    ensures Holds(t, arrived) && EntriesOf(arrived) == Left(EntriesOf(arrived0), commands)
    ensures fresh(t.Cells() - old(t.Cells())) && OrderKept(old(t.Contents()), t.Contents())
    ensures NoneBack(past, old(t.Contents()), t.Contents())
    ensures Kept(first, commands) <= arrived && ExactlyThese(Kept(first, commands), first, t.Contents())
    decreases |commands|
  {
    arrived := arrived0;
    SortedByDistinct(t.compare, arrived);
    if commands != [] {
      ghost var s0 := t.Contents();
      ghost var all := past + set n | n in s0;
      arrived := RunCommand(t, arrived, commands[0], first, all);
      ghost var s := t.Contents();
      arrived := RunCommands(t, arrived, commands[1..], KeptNext(first, commands[0]), all);
      OrderKeptOn(s0, s, t.Contents());
      KeptOn(first, commands, all, s, t.Contents());
    }
  }

  /** Of the nodes in `first`, those of `kept` are in `s` and no others. */
  ghost predicate ExactlyThese(kept: seq<RbNode>, first: seq<RbNode>, s: seq<RbNode>) {
    (forall n <- kept :: n in first) && forall n <- first :: n in s <==> n in kept
  }

  /** Over one command and the run after it: what is deleted does not come back. */
  lemma {:induction false} KeptOn(first: seq<RbNode>, commands: seq<Command>, all: set<RbNode>, s: seq<RbNode>,
                                  s': seq<RbNode>)
    requires commands != [] && (forall n <- first :: n in all) && NoneBack(all, s, s')
    requires ExactlyThese(KeptNext(first, commands[0]), first, s)
    requires ExactlyThese(Kept(KeptNext(first, commands[0]), commands[1..]), KeptNext(first, commands[0]), s')
    ensures ExactlyThese(Kept(first, commands), first, s')
  {
  }

  /** What one deletion leaves of the first nodes, and of all of them. */
  lemma {:induction false} KeptStep(arrived: seq<RbNode>, n: nat, first: seq<RbNode>)
    requires first <= arrived && Distinct(arrived) && n < |arrived|
    ensures var rest, kept := arrived[..n] + arrived[n + 1..], KeptNext(first, DeleteNode(n));
      kept <= rest && ExactlyThese(kept, first, rest)
  {
    var rest, kept := arrived[..n] + arrived[n + 1..], KeptNext(first, DeleteNode(n));
    assert arrived[..|first|] == first;
    assert rest[..|kept|] == kept;
    forall x | x in first ensures x in rest <==> x in kept {
      var k :| 0 <= k < |first| && first[k] == x;
      assert arrived[k] == x;
      if k < n {
        assert rest[k] == x;
      } else if k > n {
        assert rest[k - 1] == x;
      }
    }
  }

  method RunCommand(t: RbTree, arrived: seq<RbNode>, c: Command, ghost first: seq<RbNode>, ghost past: set<RbNode>)
    returns (arrived': seq<RbNode>)
    requires Holds(t, arrived) && first <= arrived
    modifies t`shape, t.Cells()`left, t.Cells()`right, t.Cells()`parent, t.Cells()`red, t.nil`parent, t.nil`red
    ensures Holds(t, arrived') && EntriesOf(arrived') == Next(EntriesOf(arrived), c)
    ensures fresh(t.Cells() - old(t.Cells())) && OrderKept(old(t.Contents()), t.Contents())
    ensures NoneBack(past, old(t.Contents()), t.Contents())
    ensures KeptNext(first, c) <= arrived' && ExactlyThese(KeptNext(first, c), first, t.Contents())
  {
    ghost var f := t.compare;
    match c
    case InsertKey(key, info) =>
      arrived' := InsertNext(t, arrived, key, info, past);
      SortedByDistinct(f, arrived');
    case DeleteNode(n) =>
      arrived' := arrived;
      if n < |arrived| {
        arrived' := DeleteNext(t, arrived, n);
        KeptStep(arrived, n, first);
      }
      SortedByDistinct(f, arrived');
  }

  /** From a new tree on. */
  method RunFromNew(compare: CompareFunc, commands: seq<Command>) returns (t: RbTree, arrived: seq<RbNode>)
    requires Comparator(compare)
    ensures fresh(t) && t.compare == compare && Holds(t, arrived) && EntriesOf(arrived) == Left([], commands)
  {
    t := new RbTree(compare);
    arrived := RunCommands(t, [], commands, [], {});
  }

  /** The leftmost node. */
  method FirstOf(t: RbTree) returns (x: RbNode)
    requires t.Valid() && t.root.left != t.nil
    ensures t.Valid() && t.Contents() != [] && x == t.Contents()[0]
  {
    t.FirstNode();
    x := t.Minimum(t.root.left, t.Cells(), Top, t.shape, t.root);
  }

  /** From the leftmost node, successor by successor, until nil: the whole tree in order. */
  method VisitAll(t: RbTree) returns (v: seq<RbNode>)
    requires t.Valid()
    ensures v == t.Contents()
  {
    v := [];
    t.FirstNode();
    t.ContentsDistinct();
    if t.root.left == t.nil {
      return;
    }
    var x := FirstOf(t);
    v := [x];
    ghost var s := t.Contents();
    var y := t.TreeSuccessor(x);
    while y != t.nil
      invariant t.Valid() && t.Contents() == s
      invariant 1 <= |v| <= |s| && v == s[..|v|] && y == NextIn(s, |v| - 1, t.nil)
      decreases |s| - |v|
    {
      NextVisit(s, v, y, t.nil);
      v := v + [y];
      y := t.TreeSuccessor(y);
    }
    NoVisitLeft(s, v, t.nil);
  }

  lemma NextVisit(s: seq<RbNode>, v: seq<RbNode>, y: RbNode, none: RbNode)
    requires 1 <= |v| <= |s| && v == s[..|v|] && y == NextIn(s, |v| - 1, none) && y != none
    ensures |v| < |s| && s[|v|] == y && y in s && v + [y] == s[..|v| + 1]
  {
  }

  lemma NoVisitLeft(s: seq<RbNode>, v: seq<RbNode>, none: RbNode)
    requires 1 <= |v| <= |s| && v == s[..|v|] && none == NextIn(s, |v| - 1, none) && none !in s
    ensures v == s
  {
    assert forall i | 0 <= i < |s| :: s[i] in s;
  }
}

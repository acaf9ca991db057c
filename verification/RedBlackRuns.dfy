/**
 Whole runs of insertions and deletions, on the in-order sequence of nodes that
 `RedBlackTree.RbTree` maintains.
 */
module RedBlackRuns {
  import opened RedBlackNode
  import opened RedBlackLinks
  import opened RedBlackOrder

  /** How many nodes a new node with `key` goes after. */
  function Place(f: CompareFunc, s: seq<RbNode>, key: VoidPtr): (k: nat)
    ensures k <= |s|
  {
    if s == [] || Compare(f, s[0].key, key) == 1 then 0 else 1 + Place(f, s[1..], key)
  }

  function Inserted(f: CompareFunc, s: seq<RbNode>, n: RbNode): seq<RbNode> {
    var k := Place(f, s, n.key);
    s[..k] + [n] + s[k..]
  }

  function Removed(s: seq<RbNode>, n: RbNode): seq<RbNode> {
    if s == [] then [] else if s[0] == n then s[1..] else [s[0]] + Removed(s[1..], n)
  }

  // ----- One call ------------------------------------------------------------------

  /** What RBTreeInsert promises leaves no choice. */
  lemma {:induction false} InsertPromise(f: CompareFunc, s: seq<RbNode>, k: nat, n: RbNode)
    requires k <= |s| && NoneAbove(f, s[..k], n.key) && AllAbove(f, s[k..], n.key)
    ensures s[..k] + [n] + s[k..] == Inserted(f, s, n)
  {
    PlaceIs(f, s, k, n.key);
  }

  lemma {:induction false} PlaceIs(f: CompareFunc, s: seq<RbNode>, k: nat, key: VoidPtr)
    requires k <= |s| && NoneAbove(f, s[..k], key) && AllAbove(f, s[k..], key)
    ensures k == Place(f, s, key)
    decreases s
  {
    if k > 0 {
      assert s[..k][0] == s[0];
      assert s[1..][..k - 1] == s[..k][1..] && s[1..][k - 1..] == s[k..];
      PlaceIs(f, s[1..], k - 1, key);
    } else if s != [] {
      assert s[k..][0] == s[0];
    }
  }

  /** Neither does what RBDelete promises. */
  lemma {:induction false} DeletePromise(s: seq<RbNode>, s': seq<RbNode>, k: nat, z: RbNode)
    requires Distinct(s) && Removes(s, s', k, z)
    ensures s' == Removed(s, z)
    decreases s
  {
    if k > 0 {
      var rest := s[1..];
      assert rest[k - 1] == z && s[0] != z;
      assert Removes(rest, rest[..k - 1] + rest[k..], k - 1, z);
      DeletePromise(rest, rest[..k - 1] + rest[k..], k - 1, z);
      assert s' == [s[0]] + (rest[..k - 1] + rest[k..]);
    }
  }

  /** Deleting a node and inserting another can be done in either order. */
  lemma {:induction false} RemoveCommutes(f: CompareFunc, s: seq<RbNode>, n: RbNode, z: RbNode)
    requires Comparator(f) && Sorted(f, s) && n != z
    ensures Removed(Inserted(f, s, n), z) == Inserted(f, Removed(s, z), n)
    decreases s
  {
    if s == [] {
      assert Removed([n], z) == [n] + Removed([], z);
    } else if Compare(f, s[0].key, n.key) == 1 {
      InsertFirst(f, s, n);
      RemoveRest(n, s, z);
      RemovedAbove(f, s, n.key, z);
      InsertFirst(f, Removed(s, z), n);
    } else {
      var rest := s[1..];
      InsertRest(f, s[0], rest, n);
      assert s == [s[0]] + rest;
      if s[0] == z {
        assert Removed([z] + Inserted(f, rest, n), z) == Inserted(f, rest, n);
      } else {
        SortedRest(f, s);
        RemoveCommutes(f, rest, n, z);
        RemoveRest(s[0], Inserted(f, rest, n), z);
        InsertRest(f, s[0], Removed(rest, z), n);
      }
    }
  }

  lemma SortedRest(f: CompareFunc, s: seq<RbNode>)
    requires Sorted(f, s) && s != []
    ensures Sorted(f, s[1..])
  {
  }

  lemma RemoveRest(m: RbNode, s: seq<RbNode>, z: RbNode)
    requires m != z
    ensures Removed([m] + s, z) == [m] + Removed(s, z)
  {
    assert ([m] + s)[1..] == s;
  }

  lemma {:induction false} InsertRest(f: CompareFunc, m: RbNode, s: seq<RbNode>, n: RbNode)
    requires Compare(f, m.key, n.key) != 1
    ensures Inserted(f, [m] + s, n) == [m] + Inserted(f, s, n)
  {
    assert ([m] + s)[1..] == s;
    var k := Place(f, s, n.key);
    assert ([m] + s)[..k + 1] == [m] + s[..k] && ([m] + s)[k + 1..] == s[k..];
  }

  lemma InsertFirst(f: CompareFunc, s: seq<RbNode>, n: RbNode)
    requires s != [] ==> Compare(f, s[0].key, n.key) == 1
    ensures Inserted(f, s, n) == [n] + s
  {
  }

  /** When the first key of a sorted sequence is above `key`, so is the first one left. */
  lemma RemovedAbove(f: CompareFunc, s: seq<RbNode>, key: VoidPtr, z: RbNode)
    requires Comparator(f) && Sorted(f, s) && s != [] && Compare(f, s[0].key, key) == 1
    ensures Removed(s, z) != [] ==> Compare(f, Removed(s, z)[0].key, key) == 1
  {
    if s[0] == z && |s| > 1 {
      assert Compare(f, s[0].key, s[1].key) != 1;
    }
  }

  // ----- Runs --------------------------------------------------------------------------

  datatype Call = Insert(n: RbNode) | Delete(n: RbNode)

  function Done(f: CompareFunc, s: seq<RbNode>, call: Call): seq<RbNode> {
    match call
    case Insert(n) => Inserted(f, s, n)
    case Delete(n) => Removed(s, n)
  }

  function Run(f: CompareFunc, s: seq<RbNode>, calls: seq<Call>): seq<RbNode>
    decreases |calls|
  {
    if calls == [] then s else Run(f, Done(f, s, calls[0]), calls[1..])
  }

  /** The nodes still there, in the order in which they were inserted. */
  function Survivors(s: seq<RbNode>, calls: seq<Call>): seq<RbNode>
    decreases |calls|
  {
    if calls == [] then s
    else Survivors(match calls[0] case Insert(n) => s + [n] case Delete(n) => Removed(s, n), calls[1..])
  }

  /** Every node inserted is new, and every node deleted is there. */
  ghost predicate Legal(s: seq<RbNode>, calls: seq<Call>)
    decreases |calls|
  {
    calls == [] ||
    match calls[0]
    case Insert(n) => n !in s && Legal(s + [n], calls[1..])
    case Delete(n) => n in s && Legal(Removed(s, n), calls[1..])
  }

  /** Insertion of one node after another. */
  function SortedBy(f: CompareFunc, s: seq<RbNode>): seq<RbNode> {
    if s == [] then [] else Inserted(f, SortedBy(f, s[..|s| - 1]), s[|s| - 1])
  }

  lemma {:induction false} InsertedSorted(f: CompareFunc, s: seq<RbNode>, n: RbNode)
    requires Comparator(f) && Sorted(f, s)
    ensures Sorted(f, Inserted(f, s, n))
  {
    var k := Place(f, s, n.key);
    PlaceSplits(f, s, n.key);
    assert s[..k] + s[k..] == s;
    SortedInsert(f, s[..k], s[k..], n);
  }

  lemma {:induction false} PlaceSplits(f: CompareFunc, s: seq<RbNode>, key: VoidPtr)
    requires Comparator(f) && Sorted(f, s)
    ensures var k := Place(f, s, key); NoneAbove(f, s[..k], key) && AllAbove(f, s[k..], key)
    decreases s
  {
    if s != [] && Compare(f, s[0].key, key) != 1 {
      var k := Place(f, s[1..], key);
      assert Sorted(f, s[1..]);
      PlaceSplits(f, s[1..], key);
      assert s[..k + 1] == [s[0]] + s[1..][..k] && s[k + 1..] == s[1..][k..];
    } else if s != [] {
      forall i | 0 <= i < |s| ensures Compare(f, s[i].key, key) == 1 {
        assert i > 0 ==> Compare(f, s[0].key, s[i].key) != 1;
      }
    }
  }

  lemma {:induction false} SortedBySorted(f: CompareFunc, s: seq<RbNode>)
    requires Comparator(f)
    ensures Sorted(f, SortedBy(f, s)) && multiset(SortedBy(f, s)) == multiset(s)
  {
    if s != [] {
      var front, n := s[..|s| - 1], s[|s| - 1];
      SortedBySorted(f, front);
      InsertedSorted(f, SortedBy(f, front), n);
      InsertedMembers(f, SortedBy(f, front), n);
      assert s == front + [n];
    }
  }

  lemma {:induction false} InsertedMembers(f: CompareFunc, s: seq<RbNode>, n: RbNode)
    ensures multiset(Inserted(f, s, n)) == multiset(s) + multiset{n}
  {
    var k := Place(f, s, n.key);
    assert s == s[..k] + s[k..];
  }

  lemma {:induction false} SortedByRemoved(f: CompareFunc, s: seq<RbNode>, z: RbNode)
    requires Comparator(f) && Distinct(s) && z in s
    ensures SortedBy(f, Removed(s, z)) == Removed(SortedBy(f, s), z)
  {
    var front, n := s[..|s| - 1], s[|s| - 1];
    RemovedBack(s, z);
    SortedBySorted(f, front);
    SortedByDistinct(f, front);
    if n == z {
      InsertThenRemove(f, SortedBy(f, front), z);
    } else {
      SortedByRemoved(f, front, z);
      RemoveCommutes(f, SortedBy(f, front), n, z);
      var r := Removed(front, z) + [n];
      assert r[..|r| - 1] == Removed(front, z);
    }
  }

  lemma {:induction false} RemovedAt(a: seq<RbNode>, z: RbNode, b: seq<RbNode>)
    requires z !in a
    ensures Removed(a + [z] + b, z) == a + b
    decreases a
  {
    var s := a + [z] + b;
    if a != [] {
      assert s[1..] == a[1..] + [z] + b;
      RemovedAt(a[1..], z, b);
      assert s[0] == a[0] != z;
    }
  }

  lemma {:induction false} InsertThenRemove(f: CompareFunc, s: seq<RbNode>, z: RbNode)
    requires z !in s
    ensures Removed(Inserted(f, s, z), z) == s
  {
    var k := Place(f, s, z.key);
    RemovedAt(s[..k], z, s[k..]);
    assert s[..k] + s[k..] == s;
  }

  /** Where a node is taken out. */
  lemma {:induction false} RemovedCut(s: seq<RbNode>, z: RbNode) returns (k: nat)
    requires z in s
    ensures k < |s| && s[k] == z && z !in s[..k] && Removed(s, z) == s[..k] + s[k + 1..]
    decreases s
  {
    if s[0] == z {
      k := 0;
    } else {
      var j := RemovedCut(s[1..], z);
      k := j + 1;
      assert s[..k] == [s[0]] + s[1..][..j] && s[k + 1..] == s[1..][j + 1..];
    }
  }

  lemma {:induction false} RemovedBack(s: seq<RbNode>, z: RbNode)
    requires Distinct(s) && z in s
    ensures var front, n := s[..|s| - 1], s[|s| - 1];
      && Distinct(front) && n !in front
      && (n == z ==> Removed(s, z) == front)
      && (n != z ==> z in front && Removed(s, z) == Removed(front, z) + [n])
  {
    var front, n := s[..|s| - 1], s[|s| - 1];
    var k := RemovedCut(s, z);
    if n != z {
      assert front[k] == z;
      var j := RemovedCut(front, z);
      assert s[j] == z;
      assert s[k + 1..] == front[k + 1..] + [n];
    }
  }

  lemma {:induction false} RemovedDistinct(s: seq<RbNode>, z: RbNode)
    requires Distinct(s) && z in s
    ensures Distinct(Removed(s, z)) && forall n :: n in Removed(s, z) <==> n in s && n != z
  {
    var k := RemovedCut(s, z);
    assert s == s[..k] + [z] + s[k + 1..];
  }

  lemma {:induction false} InsertedHas(f: CompareFunc, s: seq<RbNode>, n: RbNode, x: RbNode)
    ensures x in Inserted(f, s, n) <==> x in s || x == n
  {
    var k := Place(f, s, n.key);
    assert s == s[..k] + s[k..];
  }

  lemma {:induction false} InsertedDistinct(f: CompareFunc, s: seq<RbNode>, n: RbNode)
    requires Distinct(s) && n !in s
    ensures Distinct(Inserted(f, s, n))
  {
    var k, u := Place(f, s, n.key), Inserted(f, s, n);
    forall i, j | 0 <= i < j < |u| ensures u[i] != u[j] {
      assert u[i] == if i < k then s[i] else if i == k then n else s[i - 1];
      assert u[j] == if j < k then s[j] else if j == k then n else s[j - 1];
    }
  }

  lemma {:induction false} SortedByDistinct(f: CompareFunc, s: seq<RbNode>)
    requires Distinct(s)
    ensures Distinct(SortedBy(f, s)) && forall x :: x in SortedBy(f, s) <==> x in s
  {
    if s != [] {
      var front, n := s[..|s| - 1], s[|s| - 1];
      assert s == front + [n] && n !in front;
      SortedByDistinct(f, front);
      InsertedDistinct(f, SortedBy(f, front), n);
      forall x ensures x in SortedBy(f, s) <==> x in s {
        InsertedHas(f, SortedBy(f, front), n, x);
      }
    }
  }

  /** Whatever the run, the tree holds the surviving nodes, sorted by inserting them in
      their order of arrival: deletions leave no trace. */
  lemma {:induction false} RunSorts(f: CompareFunc, s: seq<RbNode>, calls: seq<Call>)
    requires Comparator(f) && Distinct(s) && Legal(s, calls)
    ensures Run(f, SortedBy(f, s), calls) == SortedBy(f, Survivors(s, calls))
    ensures Distinct(Survivors(s, calls))
    decreases |calls|
  {
    if calls != [] {
      match calls[0]
      case Insert(n) =>
        assert (s + [n])[..|s|] == s;
        RunSorts(f, s + [n], calls[1..]);
      case Delete(z) =>
        SortedByRemoved(f, s, z);
        RemovedDistinct(s, z);
        RunSorts(f, Removed(s, z), calls[1..]);
    }
  }

  // ----- Order -------------------------------------------------------------------------

  /** `x` stands somewhere before `y`. */
  ghost predicate Ahead(s: seq<RbNode>, x: RbNode, y: RbNode) {
    exists a, b :: 0 <= a < b < |s| && s[a] == x && s[b] == y
  }

  lemma {:induction false} InsertKeepsOrder(f: CompareFunc, s: seq<RbNode>, n: RbNode, x: RbNode, y: RbNode)
    requires Ahead(s, x, y)
    ensures Ahead(Inserted(f, s, n), x, y)
  {
    var a, b :| 0 <= a < b < |s| && s[a] == x && s[b] == y;
    var k, t := Place(f, s, n.key), Inserted(f, s, n);
    assert t[if a < k then a else a + 1] == x && t[if b < k then b else b + 1] == y;
  }

  lemma {:induction false} RemoveKeepsOrder(s: seq<RbNode>, z: RbNode, x: RbNode, y: RbNode)
    requires Distinct(s) && z in s && Ahead(s, x, y) && x != z && y != z
    ensures Ahead(Removed(s, z), x, y)
  {
    var k := RemovedCut(s, z);
    var a, b :| 0 <= a < b < |s| && s[a] == x && s[b] == y;
    var t := s[..k] + s[k + 1..];
    assert t[if a < k then a else a - 1] == x && t[if b < k then b else b - 1] == y;
  }

  /** Equal keys come out in the order in which they came in, and smaller ones before greater ones. */
  lemma {:induction false} SortedByStable(f: CompareFunc, s: seq<RbNode>, i: nat, j: nat)
    requires Comparator(f) && i < |s| && j < |s| && i != j
    requires Compare(f, s[i].key, s[j].key) == -1 || (Compare(f, s[i].key, s[j].key) == 0 && i < j)
    ensures Ahead(SortedBy(f, s), s[i], s[j])
    decreases |s|
  {
    var front, n := s[..|s| - 1], s[|s| - 1];
    var t, m := SortedBy(f, front), |s| - 1;
    SortedBySorted(f, front);
    if i < m && j < m {
      SortedByStable(f, front, i, j);
      InsertKeepsOrder(f, t, n, s[i], s[j]);
    } else if i < m {
      SortedByHas(f, front, i);
      SortedByEnds(f, t, s[i], n);
    } else {
      assert Compare(f, s[j].key, n.key) == 1;
      SortedByHas(f, front, j);
      SortedByEnds(f, t, s[j], n);
    }
  }

  lemma {:induction false} SortedByHas(f: CompareFunc, s: seq<RbNode>, i: nat)
    requires Comparator(f) && i < |s|
    ensures s[i] in SortedBy(f, s)
  {
    SortedBySorted(f, s);
    assert s[i] in multiset(s);
  }

  lemma {:induction false} SortedByEnds(f: CompareFunc, t: seq<RbNode>, x: RbNode, n: RbNode)
    requires Comparator(f) && Sorted(f, t) && x in t
    ensures if Compare(f, x.key, n.key) == 1 then Ahead(Inserted(f, t, n), n, x) else Ahead(Inserted(f, t, n), x, n)
  {
    var k, u := Place(f, t, n.key), Inserted(f, t, n);
    PlaceSplits(f, t, n.key);
    var a :| 0 <= a < |t| && t[a] == x;
    assert u[k] == n;
    if a < k {
      assert t[..k][a] == x && u[a] == x;
    } else {
      assert t[k..][a - k] == x && u[a + 1] == x;
    }
  }

  /** Two nodes that a run leaves alone keep their order. */
  lemma {:induction false} RunKeepsOrder(f: CompareFunc, s: seq<RbNode>, calls: seq<Call>, x: RbNode, y: RbNode)
    requires Comparator(f) && Distinct(s) && Legal(s, calls) && Ahead(SortedBy(f, s), x, y)
    requires Delete(x) !in calls && Delete(y) !in calls
    ensures Ahead(Run(f, SortedBy(f, s), calls), x, y)
    decreases |calls|
  {
    if calls != [] {
      var t := SortedBy(f, s);
      match calls[0]
      case Insert(n) =>
        InsertKeepsOrder(f, t, n, x, y);
        assert (s + [n])[..|s|] == s;
        RunKeepsOrder(f, s + [n], calls[1..], x, y);
      case Delete(z) =>
        SortedByRemoved(f, s, z);
        SortedByDistinct(f, s);
        RemoveKeepsOrder(t, z, x, y);
        RemovedDistinct(s, z);
        RunKeepsOrder(f, Removed(s, z), calls[1..], x, y);
    }
  }

  // ----- Walks ---------------------------------------------------------------------------

  /** Each of `v` is a node of `s`, and the one after it its successor. */
  ghost predicate Climbs(s: seq<RbNode>, v: seq<RbNode>, none: RbNode) {
    && v != [] && s != [] && v[0] == s[0]
    && (forall i | 0 <= i < |v| :: v[i] in s)
    && (forall i, j | 0 <= i < j < |v| && j == i + 1 :: Follows(s, v[i], v[j], none))
  }

  /** Successors from the first node to the last go through the whole sequence, once. */
  lemma {:induction false} SuccessorWalk(s: seq<RbNode>, v: seq<RbNode>, none: RbNode)
    requires Distinct(s) && none !in s && Climbs(s, v, none) && Follows(s, v[|v| - 1], none, none)
    ensures v == s
  {
    ClimbsAlong(s, v, none, |v|);
    assert forall i | 0 <= i < |s| :: s[i] in s;
    assert none == NextIn(s, |v| - 1, none);
  }

  lemma {:induction false} ClimbsAlong(s: seq<RbNode>, v: seq<RbNode>, none: RbNode, n: nat)
    requires none !in s && Climbs(s, v, none) && 1 <= n <= |v|
    ensures n <= |s| && forall i | 0 <= i < n :: v[i] == s[i]
    decreases n
  {
    if n > 1 {
      ClimbsAlong(s, v, none, n - 1);
      assert Follows(s, v[n - 2], v[n - 1], none);
      assert v[n - 1] == NextIn(s, n - 2, none) && v[n - 1] in s;
    }
  }

  /** The predecessor undoes the successor. */
  lemma SuccessorInverse(s: seq<RbNode>, x: RbNode, y: RbNode, none: RbNode)
    requires Distinct(s) && none !in s && x in s && y in s
    ensures Follows(s, x, y, none) <==> Precedes(s, y, x, none)
  {
    var i :| 0 <= i < |s| && s[i] == x;
    var j :| 0 <= j < |s| && s[j] == y;
    if Follows(s, x, y, none) {
      assert y == NextIn(s, i, none) == s[j];
      assert j == i + 1;
    }
    if Precedes(s, y, x, none) {
      assert x == PreviousIn(s, j, none) == s[i];
      assert i == j - 1;
    }
  }
}

/**
 What `val_foreach` of `bkv/src/bkv_val.c` does with a document, as a recursion
 over the tree: the callbacks it makes, where it stops, and what a skip does.
 */
module BkvEvents {
  import opened BkvBytes
  import opened BkvDocument

  /** A callback's answer, bit by bit. */
  datatype Reply = Reply(gotoEnd: bool, stop: bool)

  const BKV_PARSE_ACTION_NONE := Reply(false, false)
  const BKV_PARSE_ACTION_GOTO_END_MAP := Reply(true, false)
  const BKV_PARSE_ACTION_STOP_LOOP := Reply(false, true)

  /** One call of a callback, with the arguments it is given. */
  datatype Event =
    | MapOpen(ptr: int, key: U16)
    | MapClose(key: U16)
    | ArrayOpen(ptr: int, len: U16, key: U16)
    | ArrayClose
    | Integer(ptr: int, deep: int, key: U16, v: Scalar)
    | Value(ptr: int, key: U16, v: Scalar)
    | Double(ptr: int, key: U16, bits: U64)

  /** The callbacks, together with the data they share. */
  type Callbacks<!D> = (D, Event) -> (D, Reply)

  /** Where a stretch of the loop ends: it goes on, it is stopped, it meets a map
      without a length, it has jumped and does not stand behind the map, or it has to
      read behind the end of the buffer. */
  datatype Outcome<D> =
    | Going(d: D, pos: int, deep: int)
    | Stopped(d: D, pos: int, deep: int)
    | BadLength(d: D)
    | Lost(d: D, pos: int, deep: int)
    | Beyond(d: D)

  /** A callback has answered and the loop has moved on. */
  function Answered<D>(r: (D, Reply), pos: int, deep: int): Outcome<D> {
    if r.1.stop then Stopped(r.0, pos, deep) else Going(r.0, pos, deep)
  }

  function LeafEvent(pos: int, deep: int, key: U16, v: Scalar): Event {
    match v
    case Int16(_) => Integer(pos, deep, key, v)
    case Int32(_) => Integer(pos, deep, key, v)
    case Int64(_) => Integer(pos, deep, key, v)
    case Str(_) => Value(pos + 4, key, v)
    case _ => Value(pos + 2, key, v)
  }

  /** Jumping over a map of `n` bytes by its sixteen-bit length. */
  function Skip<D>(r: (D, Reply), pos: int, deep: int, n: nat): Outcome<D> {
    if n % 0x1_0000 == 0 then BadLength(r.0)
    else if r.1.stop then Stopped(r.0, pos + n % 0x1_0000, deep)
    else if n < 0x1_0000 then Going(r.0, pos + n, deep)
    else Lost(r.0, pos + n % 0x1_0000, deep)
  }

  /** The outermost map ends the loop whatever its callback says. */
  function AfterMapClose<D>(cb: Callbacks<D>, d: D, pos: int, deep: int, key: U16): Outcome<D> {
    var r := cb(d, MapClose(key));
    if deep - 1 == 0 then Stopped(r.0, pos + 2, deep - 1) else Answered(r, pos + 2, deep - 1)
  }

  /** No array ends the loop by itself. */
  function AfterArrayClose<D>(cb: Callbacks<D>, d: D, pos: int, deep: int): Outcome<D> {
    Answered(cb(d, ArrayClose), pos + 5, deep - 1)
  }

  function RunItem<D>(cb: Callbacks<D>, d: D, pos: int, deep: int, i: Item): Outcome<D>
    decreases i, 1
  {
    match i
    case Leaf(k, v) => Answered(cb(d, LeafEvent(pos, deep, k, v)), pos + Extent(i), deep)
    case Map(k, kids, pad) =>
      var r := cb(d, MapOpen(pos, k));
      if r.1.gotoEnd then Skip(r, pos, deep, Extent(i))
      else if r.1.stop then Stopped(r.0, pos + 4, deep + 1)
      else (
        var o := RunAll(cb, r.0, pos + 4, deep + 1, kids);
        if o.Going? then AfterMapClose(cb, o.d, o.pos, o.deep, pad) else o
      )
    case Arr(k, count, kids, pad) =>
      var r := cb(d, ArrayOpen(pos, count, k));
      if r.1.stop then Stopped(r.0, pos + 6, deep + 1)
      else (
        var o := RunAll(cb, r.0, pos + 6, deep + 1, kids);
        if o.Going? then AfterArrayClose(cb, o.d, o.pos, o.deep) else o
      )
  }

  function RunAll<D>(cb: Callbacks<D>, d: D, pos: int, deep: int, kids: seq<Item>): Outcome<D>
    decreases kids, 0
  {
    if kids == [] then Going(d, pos, deep)
    else
      var o := RunItem(cb, d, pos, deep, kids[0]);
      if o.Going? then RunAll(cb, o.d, o.pos, o.deep, kids[1..]) else o
  }

  // ----- Reading everything ----------------------------------------------------

  /** The events of a whole item, in order. */
  function Events(pos: int, deep: int, i: Item): seq<Event>
    decreases i, 1
  {
    match i
    case Leaf(k, v) => [LeafEvent(pos, deep, k, v)]
    case Map(k, kids, pad) => [MapOpen(pos, k)] + EventsAll(pos + 4, deep + 1, kids) + [MapClose(pad)]
    case Arr(k, count, kids, _) => [ArrayOpen(pos, count, k)] + EventsAll(pos + 6, deep + 1, kids) + [ArrayClose]
  }

  function EventsAll(pos: int, deep: int, kids: seq<Item>): seq<Event>
    decreases kids, 0
  {
    if kids == [] then []
    else Events(pos, deep, kids[0]) + EventsAll(pos + Extent(kids[0]), deep, kids[1..])
  }

  /** Callbacks that never ask for anything. */
  ghost predicate Quiet<D(!new)>(cb: Callbacks<D>) {
    forall d, e :: Fire(cb, d, e).1 == BKV_PARSE_ACTION_NONE
  }

  function Fire<D>(cb: Callbacks<D>, d: D, e: Event): (D, Reply) {
    cb(d, e)
  }

  /** The data after the given events. */
  function Fold<D>(cb: Callbacks<D>, d: D, events: seq<Event>): D {
    if events == [] then d else Fold(cb, Fire(cb, d, events[0]).0, events[1..])
  }

  lemma {:induction false} FoldConcat<D>(cb: Callbacks<D>, d: D, a: seq<Event>, b: seq<Event>)
    ensures Fold(cb, d, a + b) == Fold(cb, Fold(cb, d, a), b)
    decreases a
  {
    if a == [] {
      assert a + b == b;
    } else {
      FoldConcat(cb, Fire(cb, d, a[0]).0, a[1..], b);
      assert (a + b)[1..] == a[1..] + b;
    }
  }

  lemma FoldBetween<D>(cb: Callbacks<D>, d: D, first: Event, events: seq<Event>, last: Event)
    ensures Fold(cb, d, [first] + events + [last]) == Fire(cb, Fold(cb, Fire(cb, d, first).0, events), last).0
  {
    FoldConcat(cb, d, [first] + events, [last]);
    FoldConcat(cb, d, [first], events);
    assert [first][1..] == [] && [last][1..] == [];
  }

  /** Inside a container, quiet callbacks see exactly the item's events, and the loop
      stands just past the item at the same depth. */
  lemma {:induction false} QuietItem<D(!new)>(cb: Callbacks<D>, d: D, pos: int, deep: int, i: Item)
    requires Quiet(cb) && deep > 0
    ensures RunItem(cb, d, pos, deep, i) == Going(Fold(cb, d, Events(pos, deep, i)), pos + Extent(i), deep)
    decreases i, 1
  {
    match i
    case Leaf(k, v) =>
      assert Fire(cb, d, LeafEvent(pos, deep, k, v)).1 == BKV_PARSE_ACTION_NONE;
    case Map(k, kids, pad) =>
      var d1 := Fire(cb, d, MapOpen(pos, k)).0;
      QuietAll(cb, d1, pos + 4, deep + 1, kids);
      var d2 := Fold(cb, d1, EventsAll(pos + 4, deep + 1, kids));
      assert Fire(cb, d2, MapClose(pad)).1 == BKV_PARSE_ACTION_NONE;
      FoldBetween(cb, d, MapOpen(pos, k), EventsAll(pos + 4, deep + 1, kids), MapClose(pad));
    case Arr(k, count, kids, _) =>
      var d1 := Fire(cb, d, ArrayOpen(pos, count, k)).0;
      QuietAll(cb, d1, pos + 6, deep + 1, kids);
      var d2 := Fold(cb, d1, EventsAll(pos + 6, deep + 1, kids));
      assert Fire(cb, d2, ArrayClose).1 == BKV_PARSE_ACTION_NONE;
      FoldBetween(cb, d, ArrayOpen(pos, count, k), EventsAll(pos + 6, deep + 1, kids), ArrayClose);
  }

  lemma {:induction false} QuietAll<D(!new)>(cb: Callbacks<D>, d: D, pos: int, deep: int, kids: seq<Item>)
    requires Quiet(cb) && deep > 0
    ensures RunAll(cb, d, pos, deep, kids)
         == Going(Fold(cb, d, EventsAll(pos, deep, kids)), pos + ExtentAll(kids), deep)
    decreases kids, 0
  {
    if kids != [] {
      QuietItem(cb, d, pos, deep, kids[0]);
      var o := RunItem(cb, d, pos, deep, kids[0]);
      QuietAll(cb, o.d, o.pos, deep, kids[1..]);
      FoldConcat(cb, d, Events(pos, deep, kids[0]), EventsAll(o.pos, deep, kids[1..]));
    }
  }

  /** The round trip: on a closed document quiet callbacks see exactly its events,
      and the loop stops just past the root's close, at depth 0. */
  lemma QuietRoot<D(!new)>(cb: Callbacks<D>, d: D, pos: int, i: Item)
    requires Quiet(cb) && i.Map?
    ensures RunItem(cb, d, pos, 0, i) == Stopped(Fold(cb, d, Events(pos, 0, i)), pos + Extent(i), 0)
  {
    var d1 := Fire(cb, d, MapOpen(pos, i.key)).0;
    assert Fire(cb, d, MapOpen(pos, i.key)).1 == BKV_PARSE_ACTION_NONE;
    QuietAll(cb, d1, pos + 4, 1, i.kids);
    FoldBetween(cb, d, MapOpen(pos, i.key), EventsAll(pos + 4, 1, i.kids), MapClose(i.pad));
  }

  /** Skipping a map lands where reading all of it lands, exactly when its extent
      fits the length field; a whole multiple of 65536 is taken for a map that was
      never closed. */
  lemma SkipEqualsParse<D(!new)>(cb: Callbacks<D>, d: D, cb': Callbacks<D>, d': D, pos: int, deep: int, i: Item)
    requires i.Map? && Quiet(cb') && deep > 0
    requires Fire(cb, d, MapOpen(pos, i.key)).1 == BKV_PARSE_ACTION_GOTO_END_MAP
    ensures var skip, parse := RunItem(cb, d, pos, deep, i), RunItem(cb', d', pos, deep, i);
      && parse.Going?
      && (skip.Going? && skip.pos == parse.pos && skip.deep == parse.deep <==> Extent(i) < 0x1_0000)
      && (skip.BadLength? <==> Extent(i) % 0x1_0000 == 0)
  {
    QuietItem(cb', d', pos, deep, i);
    assert Extent(i) > 0;
  }

  // ----- The events determine the document ---------------------------------------

  /** The same document up to the pad byte of array closes, which no callback sees. */
  predicate SameRead(i: Item, j: Item)
    decreases i, 1
  {
    match i
    case Leaf(_, _) => i == j
    case Map(k, kids, pad) => j.Map? && j.key == k && j.pad == pad && AllSameRead(kids, j.kids)
    case Arr(k, count, kids, _) => j.Arr? && j.key == k && j.count == count && AllSameRead(kids, j.kids)
  }

  predicate AllSameRead(a: seq<Item>, b: seq<Item>)
    decreases a, 0
  {
    if a == [] then b == [] else b != [] && SameRead(a[0], b[0]) && AllSameRead(a[1..], b[1..])
  }

  predicate Closing(e: Event) {
    e.MapClose? || e.ArrayClose?
  }

  lemma EventsFirst(pos: int, deep: int, i: Item)
    ensures Events(pos, deep, i) != [] && !Closing(Events(pos, deep, i)[0])
  {
  }

  lemma Unbracket(e: Event, es: seq<Event>, last: Event, x: seq<Event>, f: Event, fs: seq<Event>, last': Event,
                  y: seq<Event>)
    requires [e] + es + [last] + x == [f] + fs + [last'] + y
    ensures e == f && es + ([last] + x) == fs + ([last'] + y)
  {
    var s, t := [e] + es + [last] + x, [f] + fs + [last'] + y;
    assert s[0] == e && t[0] == f;
    assert s[1..] == es + ([last] + x) && t[1..] == fs + ([last'] + y);
  }

  lemma Unhead(e: Event, x: seq<Event>, f: Event, y: seq<Event>)
    requires [e] + x == [f] + y
    ensures e == f && x == y
  {
    assert ([e] + x)[0] == e && ([f] + y)[0] == f;
    assert ([e] + x)[1..] == x && ([f] + y)[1..] == y;
  }

  lemma {:induction false} EventsDetermine(pos: int, deep: int, i: Item, j: Item, x: seq<Event>, y: seq<Event>)
    requires Events(pos, deep, i) + x == Events(pos, deep, j) + y
    ensures SameRead(i, j) && x == y && Extent(i) == Extent(j)
    decreases i, 1
  {
    EventsSplit(pos, deep, i, x);
    EventsSplit(pos, deep, j, y);
    var e, f := Events(pos, deep, i)[0], Events(pos, deep, j)[0];
    Unhead(e, Events(pos, deep, i)[1..] + x, f, Events(pos, deep, j)[1..] + y);
    if !i.Leaf? {
      var p := if i.Map? then pos + 4 else pos + 6;
      var last, last' := if i.Map? then MapClose(i.pad) else ArrayClose, if i.Map? then MapClose(j.pad) else ArrayClose;
      Unbracket(e, EventsAll(p, deep + 1, i.kids), last, x, f, EventsAll(p, deep + 1, j.kids), last', y);
      EventsAllDetermine(p, deep + 1, i.kids, j.kids, [last] + x, [last'] + y);
      Unhead(last, x, last', y);
    } else {
      assert Events(pos, deep, i)[1..] + x == x && Events(pos, deep, j)[1..] + y == y;
    }
  }

  lemma EventsSplit(pos: int, deep: int, i: Item, x: seq<Event>)
    ensures Events(pos, deep, i) != []
    ensures Events(pos, deep, i) + x == [Events(pos, deep, i)[0]] + (Events(pos, deep, i)[1..] + x)
  {
  }

  lemma {:induction false} EventsAllDetermine(pos: int, deep: int, a: seq<Item>, b: seq<Item>, x: seq<Event>,
                                              y: seq<Event>)
    requires EventsAll(pos, deep, a) + x == EventsAll(pos, deep, b) + y
    requires x != [] && Closing(x[0]) && y != [] && Closing(y[0])
    ensures AllSameRead(a, b) && x == y && ExtentAll(a) == ExtentAll(b)
    decreases a, 0
  {
    AllFirst(pos, deep, a, x);
    AllFirst(pos, deep, b, y);
    if a != [] && b != [] {
      var x' := AllSplit(pos, deep, a, x);
      var y' := AllSplit(pos, deep, b, y);
      EventsDetermine(pos, deep, a[0], b[0], x', y');
      EventsAllDetermine(pos + Extent(a[0]), deep, a[1..], b[1..], x, y);
    } else if a == [] && b == [] {
      assert [] + x == x && [] + y == y;
    }
  }

  lemma AllSplit(pos: int, deep: int, a: seq<Item>, x: seq<Event>) returns (x': seq<Event>)
    requires a != []
    ensures x' == EventsAll(pos + Extent(a[0]), deep, a[1..]) + x
    ensures EventsAll(pos, deep, a) + x == Events(pos, deep, a[0]) + x'
  {
    x' := EventsAll(pos + Extent(a[0]), deep, a[1..]) + x;
  }

  /** Only the end of the list puts a closing event first. */
  lemma AllFirst(pos: int, deep: int, a: seq<Item>, x: seq<Event>)
    requires x != [] && Closing(x[0])
    ensures Closing((EventsAll(pos, deep, a) + x)[0]) <==> a == []
  {
    if a != [] {
      EventsFirst(pos, deep, a[0]);
    }
  }

  /** Two documents that quiet callbacks cannot tell apart are the same. */
  lemma SameEventsSameDocument(pos: int, deep: int, i: Item, j: Item)
    requires Events(pos, deep, i) == Events(pos, deep, j)
    ensures SameRead(i, j)
  {
    assert Events(pos, deep, i) + [] == Events(pos, deep, j) + [];
    EventsDetermine(pos, deep, i, j, [], []);
  }
}

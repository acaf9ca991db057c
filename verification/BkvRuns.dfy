/**
 Whole runs of writer calls: which documents can be written, and what stands in
 the handle after any run.
 */
module BkvRuns {
  import opened BkvBytes
  import opened BkvDocument
  import opened BkvMachine

  // ----- What each state takes ----------------------------------------------

  /** In every state the handle can be in, the calls it takes; the array case of
      STATE_IN_MAP and STATE_KEY_SET never come up, and closing an array leaves a map open. */
  lemma AcceptsExactly(w: Writer, op: Op)
    requires Inv(w)
    ensures Accepts(w, op) <==>
      match w.state
      case STATE_INIT => op.OpenMap?
      case STATE_IN_MAP => (op.Add? && op.key <= 0xFFF) || op.OpenMap? || op.OpenArr? || op.CloseMap?
      case STATE_IN_ARRAY => (op.AddElement? && !op.v.Int32?) || op.OpenMap? || op.CloseArr?
      case _ => false
    ensures w.state == STATE_IN_MAP ==> w.TopMark() == MAP_KEY
    ensures Accepts(w, op) && op.CloseArr? ==> |w.open| >= 2 && Apply(w, op).state == STATE_IN_MAP
  {
    if Accepts(w, op) && op.CloseArr? {
      PopKeepsKinds(w);
      PutKeepsKinds(w.Pop(), Closed(w, op.pad));
    }
  }

  // ----- Runs ---------------------------------------------------------------

  /** The call is accepted, and there is room for a container it opens. */
  predicate Takes(w: Writer, op: Op) {
    Accepts(w, op) && (Opens(op) ==> |w.open| < MAX_DEPTH)
  }

  /** `ops` are all accepted one after the other and lead from `w` to `w'`.
      Refused calls change nothing, so they are left out of a run. */
  ghost predicate Runs(w: Writer, ops: seq<Op>, w': Writer)
    requires Inv(w)
    decreases |ops|
  {
    if ops == [] then w' == w
    else Takes(w, ops[0]) && (ApplyKeepsInv(w, ops[0]); Runs(Apply(w, ops[0]), ops[1..], w'))
  }

  lemma {:induction false} RunsKeepInv(w: Writer, ops: seq<Op>, w': Writer)
    requires Inv(w) && Runs(w, ops, w')
    ensures Inv(w')
    decreases |ops|
  {
    if ops != [] {
      ApplyKeepsInv(w, ops[0]);
      RunsKeepInv(Apply(w, ops[0]), ops[1..], w');
    }
  }

  lemma RunsFirst(w: Writer, op: Op, ops: seq<Op>, w': Writer)
    requires Inv(w) && Takes(w, op) && Inv(Apply(w, op)) && Runs(Apply(w, op), ops, w')
    ensures Runs(w, [op] + ops, w')
  {
    assert ([op] + ops)[1..] == ops;
  }

  lemma OpsFirst(a: seq<Op>, b: seq<Op>)
    requires a != []
    ensures [a[0]] + (a[1..] + b) == a + b
  {
  }

  lemma {:induction false} RunsConcat(w: Writer, a: seq<Op>, m: Writer, b: seq<Op>, w': Writer)
    requires Inv(w) && Runs(w, a, m) && Inv(m) && Runs(m, b, w')
    ensures Runs(w, a + b, w')
    decreases |a|
  {
    if a == [] {
      assert a + b == b;
    } else {
      ApplyKeepsInv(w, a[0]);
      RunsConcat(Apply(w, a[0]), a[1..], m, b, w');
      RunsFirst(w, a[0], a[1..] + b, w');
      OpsFirst(a, b);
    }
  }

  lemma RunsOne(w: Writer, op: Op)
    requires Inv(w) && Takes(w, op)
    ensures Inv(Apply(w, op)) && Runs(w, [op], Apply(w, op))
  {
    ApplyKeepsInv(w, op);
    RunsFirst(w, op, [], Apply(w, op));
  }

  // ----- Documents that can be written ---------------------------------------

  /** `i` can be written into a map, or with `inArr` into an array, when `room` more
      containers may be opened: scalars in maps have keys that fit, elements of arrays are
      scalars other than 32-bit integers, under the array key, or maps. */
  predicate Writable(i: Item, inArr: bool, room: int) {
    match i
    case Leaf(k, v) => if inArr then k == BKV_ARRAY_KEY && !v.Int32? else k <= 0xFFF
    case Map(_, kids, _) => room > 0 && forall x <- kids :: Writable(x, false, room - 1)
    case Arr(_, _, kids, _) => room > 0 && !inArr && forall x <- kids :: Writable(x, true, room - 1)
  }

  predicate AllWritable(kids: seq<Item>, inArr: bool, room: int) {
    forall x <- kids :: Writable(x, inArr, room)
  }

  /** The calls that write an item. */
  function Ops(i: Item, inArr: bool): seq<Op>
    decreases i, 1
  {
    match i
    case Leaf(k, v) => [if inArr then AddElement(v) else Add(k, v)]
    case Map(k, kids, pad) => [OpenMap(k)] + OpsAll(kids, false) + [CloseMap(pad)]
    case Arr(k, _, kids, pad) => [OpenArr(k)] + OpsAll(kids, true) + [CloseArr(pad)]
  }

  function OpsAll(kids: seq<Item>, inArr: bool): seq<Op>
    decreases kids, 0
  {
    if kids == [] then [] else Ops(kids[0], inArr) + OpsAll(kids[1..], inArr)
  }

  /** True of the elements the writer counts. */
  predicate Counted(i: Item) {
    i.Leaf? && !i.value.Int64?
  }

  function CountedIn(kids: seq<Item>): (n: nat)
    ensures n <= |kids|
  {
    if kids == [] then 0 else (if Counted(kids[0]) then 1 else 0) + CountedIn(kids[1..])
  }

  /** The counters after an item has been written at depth `d`. */
  function CountsAfter(i: Item, inArr: bool, d: nat, counts: seq<int>): seq<int>
    decreases i, 1
  {
    match i
    case Leaf(_, _) => if inArr && Counted(i) && 0 < d <= |counts| then counts[d - 1 := counts[d - 1] + 1] else counts
    case Map(_, kids, _) => CountsAfterAll(kids, false, d + 1, counts)
    case Arr(_, _, kids, _) => CountsAfterAll(kids, true, d + 1, counts)
  }

  function CountsAfterAll(kids: seq<Item>, inArr: bool, d: nat, counts: seq<int>): seq<int>
    decreases kids, 0
  {
    if kids == [] then counts
    else CountsAfterAll(kids[1..], inArr, d, CountsAfter(kids[0], inArr, d, counts))
  }

  /** The item with the element counts that its arrays get. */
  function Stamp(i: Item, d: nat, counts: seq<int>): Item
    decreases i, 1
  {
    match i
    case Leaf(_, _) => i
    case Map(k, kids, pad) => Map(k, StampAll(kids, false, d + 1, counts), pad)
    case Arr(k, _, kids, pad) =>
      var counts' := CountsAfterAll(kids, true, d + 1, counts);
      Arr(k, if d < |counts'| then counts'[d] % 0x1_0000 else 0, StampAll(kids, true, d + 1, counts), pad)
  }

  function StampAll(kids: seq<Item>, inArr: bool, d: nat, counts: seq<int>): seq<Item>
    decreases kids, 0
  {
    if kids == [] then []
    else [Stamp(kids[0], d, counts)] + StampAll(kids[1..], inArr, d, CountsAfter(kids[0], inArr, d, counts))
  }

  /** The handle after an item has been written into its innermost container. */
  function Wrote(w: Writer, i: Item, inArr: bool): Writer {
    w.Put(Stamp(i, |w.open|, w.counts)).(counts := CountsAfter(i, inArr, |w.open|, w.counts))
  }

  function WroteAll(w: Writer, kids: seq<Item>, inArr: bool): Writer
    decreases kids
  {
    if kids == [] then w else WroteAll(Wrote(w, kids[0], inArr), kids[1..], inArr)
  }

  /** The same after the outermost map. */
  function WroteRoot(w: Writer, i: Item, inArr: bool): Writer {
    if w.open == [] then Wrote(w, i, inArr).(state := STATE_TERM) else Wrote(w, i, inArr)
  }

  /** The handle stands in a map, or with `inArr` in an array. */
  predicate Inside(w: Writer, inArr: bool) {
    w.state == if inArr then STATE_IN_ARRAY else STATE_IN_MAP
  }

  lemma {:induction false} WroteAllFrame(w: Writer, kids: seq<Item>, inArr: bool)
    requires w.open != []
    ensures var n := |w.open| - 1;
      WroteAll(w, kids, inArr)
        == w.(open := w.open[n := w.open[n].(kids := w.open[n].kids + StampAll(kids, inArr, |w.open|, w.counts))],
              counts := CountsAfterAll(kids, inArr, |w.open|, w.counts))
    decreases kids
  {
    var n, d := |w.open| - 1, |w.open|;
    if kids == [] {
      assert w.open[n].kids + [] == w.open[n].kids;
      assert w.open[n := w.open[n]] == w.open;
    } else {
      var w1 := Wrote(w, kids[0], inArr);
      WroteAllFrame(w1, kids[1..], inArr);
      var rest := StampAll(kids[1..], inArr, d, w1.counts);
      Concat(w.open[n].kids, Stamp(kids[0], d, w.counts), rest);
      assert StampAll(kids, inArr, d, w.counts) == [Stamp(kids[0], d, w.counts)] + rest;
    }
  }

  lemma Concat(a: seq<Item>, i: Item, b: seq<Item>)
    ensures a + [i] + b == a + ([i] + b)
  {
  }

  predicate Placed(w: Writer, i: Item, inArr: bool) {
    && Inv(w) && Writable(i, inArr, MAX_DEPTH - |w.open|)
    && (Inside(w, inArr) || (w.state == STATE_INIT && i.Map? && !inArr))
  }

  /** A writable item is accepted call by call wherever it may stand, and lands in
      the innermost container with nothing else changed but the counters. */
  lemma {:induction false} WriteItem(w: Writer, i: Item, inArr: bool)
    requires Placed(w, i, inArr)
    ensures Inv(WroteRoot(w, i, inArr)) && Runs(w, Ops(i, inArr), WroteRoot(w, i, inArr))
    decreases i, 1
  {
    match i
    case Leaf(k, v) => RunsOne(w, if inArr then AddElement(v) else Add(k, v));
    case _ => WriteContainer(w, i, inArr);
  }

  lemma {:induction false} WriteContainer(w: Writer, i: Item, inArr: bool)
    requires Placed(w, i, inArr) && !i.Leaf?
    ensures Inv(WroteRoot(w, i, inArr)) && Runs(w, Ops(i, inArr), WroteRoot(w, i, inArr))
    decreases i, 0
  {
    var open := if i.Map? then OpenMap(i.key) else OpenArr(i.key);
    var close := if i.Map? then CloseMap(i.pad) else CloseArr(i.pad);
    RunsOne(w, open);
    var w1 := Apply(w, open);
    WriteItems(w1, i.kids, i.Arr?);
    var w2 := WroteAll(w1, i.kids, i.Arr?);
    CloseWritten(w, i, inArr);
    RunsOne(w2, close);
    RunsConcat(w, [open], w1, OpsAll(i.kids, i.Arr?), w2);
    RunsConcat(w, [open] + OpsAll(i.kids, i.Arr?), w2, [close], Apply(w2, close));
  }

  /** Closing a container whose kids have been written. */
  lemma CloseWritten(w: Writer, i: Item, inArr: bool)
    requires Placed(w, i, inArr) && !i.Leaf?
    requires var w1 := Apply(w, if i.Map? then OpenMap(i.key) else OpenArr(i.key));
      Inv(WroteAll(w1, i.kids, i.Arr?)) && Inside(WroteAll(w1, i.kids, i.Arr?), i.Arr?)
    ensures var w1 := Apply(w, if i.Map? then OpenMap(i.key) else OpenArr(i.key));
      var close := if i.Map? then CloseMap(i.pad) else CloseArr(i.pad);
      var w2 := WroteAll(w1, i.kids, i.Arr?);
      Accepts(w2, close) && Apply(w2, close) == WroteRoot(w, i, inArr)
  {
    var w1 := Apply(w, if i.Map? then OpenMap(i.key) else OpenArr(i.key));
    WroteAllFrame(w1, i.kids, i.Arr?);
    var items := StampAll(i.kids, i.Arr?, |w1.open|, w.counts);
    var f := Frame(i.Map?, i.key, items);
    assert [] + items == items;
    assert (w.open + [Frame(i.Map?, i.key, [])])[|w.open| := f] == w.open + [f];
    CloseFrame(w, WroteAll(w1, i.kids, i.Arr?), f, i.pad);
  }

  lemma CloseFrame(w: Writer, w2: Writer, f: Frame, pad: Byte)
    requires Inv(w) && Inv(w2) && w2.open == w.open + [f] && w2.top == w.top
    requires w2.state == if f.isMap then STATE_IN_MAP else STATE_IN_ARRAY
    ensures var close := if f.isMap then CloseMap(pad) else CloseArr(pad);
      && Accepts(w2, close)
      && Apply(w2, close)
           == w.Put(Closed(w2, pad)).(counts := w2.counts, state := if w.open == [] then STATE_TERM else w.state)
  {
    assert w2.Pop().open == w.open;
  }

  lemma {:induction false} WriteItems(w: Writer, kids: seq<Item>, inArr: bool)
    requires Inv(w) && Inside(w, inArr) && AllWritable(kids, inArr, MAX_DEPTH - |w.open|)
    ensures var w' := WroteAll(w, kids, inArr);
      Inv(w') && Inside(w', inArr) && Runs(w, OpsAll(kids, inArr), w')
    decreases kids, 0
  {
    if kids != [] {
      var w1 := Wrote(w, kids[0], inArr);
      WriteItem(w, kids[0], inArr);
      WriteItems(w1, kids[1..], inArr);
      RunsConcat(w, Ops(kids[0], inArr), w1, OpsAll(kids[1..], inArr), WroteAll(w, kids, inArr));
    }
  }

  // ----- What any run leaves --------------------------------------------------

  /** The same document up to the element counts in array headers. */
  predicate Alike(i: Item, j: Item)
    decreases i, 1
  {
    match i
    case Leaf(_, _) => i == j
    case Map(k, kids, pad) => j.Map? && j.key == k && j.pad == pad && AllAlike(kids, j.kids)
    case Arr(k, _, kids, pad) => j.Arr? && j.key == k && j.pad == pad && AllAlike(kids, j.kids)
  }

  predicate AllAlike(a: seq<Item>, b: seq<Item>)
    decreases a, 0
  {
    if a == [] then b == [] else b != [] && Alike(a[0], b[0]) && AllAlike(a[1..], b[1..])
  }

  lemma {:induction false} StampAlike(i: Item, d: nat, counts: seq<int>)
    ensures Alike(i, Stamp(i, d, counts))
    decreases i, 1
  {
    match i
    case Leaf(_, _) =>
    case Map(_, kids, _) => StampAllAlike(kids, false, d + 1, counts);
    case Arr(_, _, kids, _) => StampAllAlike(kids, true, d + 1, counts);
  }

  lemma {:induction false} StampAllAlike(kids: seq<Item>, inArr: bool, d: nat, counts: seq<int>)
    ensures AllAlike(kids, StampAll(kids, inArr, d, counts))
    decreases kids, 0
  {
    if kids != [] {
      StampAlike(kids[0], d, counts);
      StampAllAlike(kids[1..], inArr, d, CountsAfter(kids[0], inArr, d, counts));
    }
  }

  lemma {:induction false} AlikeWritable(i: Item, j: Item, inArr: bool, room: int)
    requires Alike(i, j) && Writable(j, inArr, room)
    ensures Writable(i, inArr, room)
    decreases i, 1
  {
    match i
    case Leaf(_, _) =>
    case Map(_, kids, _) => AllAlikeWritable(kids, j.kids, false, room - 1);
    case Arr(_, _, kids, _) => AllAlikeWritable(kids, j.kids, true, room - 1);
  }

  lemma {:induction false} AllAlikeWritable(a: seq<Item>, b: seq<Item>, inArr: bool, room: int)
    requires AllAlike(a, b) && AllWritable(b, inArr, room)
    ensures AllWritable(a, inArr, room)
    decreases a, 0
  {
    if a != [] {
      assert b[0] in b;
      AlikeWritable(a[0], b[0], inArr, room);
      forall x | x in b[1..] ensures x in b { }
      AllAlikeWritable(a[1..], b[1..], inArr, room);
      assert a == [a[0]] + a[1..];
    }
  }

  predicate FramesWritable(open: seq<Frame>) {
    if open == [] then true
    else
      var n := |open| - 1;
      AllWritable(open[n].kids, !open[n].isMap, MAX_DEPTH - n - 1) && FramesWritable(open[..n])
  }

  /** Everything in the handle could be written where it stands, and a root map is
      there exactly when the handle has reached STATE_TERM. */
  ghost predicate WellWritten(w: Writer) {
    && Inv(w)
    && FramesWritable(w.open)
    && (if w.state == STATE_TERM
        then |w.top| == 1 && w.top[0].Map? && Writable(w.top[0], false, MAX_DEPTH)
        else w.top == [])
  }

  lemma PutWellWritten(w: Writer, i: Item)
    requires WellWritten(w) && w.open != [] && Writable(i, !w.open[|w.open| - 1].isMap, MAX_DEPTH - |w.open|)
    ensures WellWritten(w.Put(i))
  {
    PutKeepsKinds(w, i);
    var w', n := w.Put(i), |w.open| - 1;
    assert w'.open[..n] == w.open[..n];
  }

  lemma CloseWellWritten(w: Writer, op: Op)
    requires WellWritten(w) && Accepts(w, op) && (op.CloseMap? || op.CloseArr?)
    ensures WellWritten(Apply(w, op))
  {
    ApplyKeepsInv(w, op);
    PopKeepsKinds(w);
    var n := |w.open| - 1;
    var i := Closed(w, op.pad);
    assert Writable(i, false, MAX_DEPTH - n);
    if n > 0 {
      var w1 := w.Pop().(state := Resumed(w.Pop()));
      assert op.CloseArr? ==> w1.open[n - 1].isMap;
      assert i.Map? ==> Writable(i, true, MAX_DEPTH - n);
      PutWellWritten(w1, i);
      assert Apply(w, op) == w1.Put(i);
    }
  }

  lemma CallWellWritten(w: Writer, op: Op)
    requires WellWritten(w) && Takes(w, op)
    ensures WellWritten(Apply(w, op))
  {
    ApplyKeepsInv(w, op);
    match op {
      case Add(key, v) => PutWellWritten(w, Leaf(key, v));
      case AddElement(v) => PutWellWritten(w, Leaf(BKV_ARRAY_KEY, v));
      case CloseMap(_) => CloseWellWritten(w, op);
      case CloseArr(_) => CloseWellWritten(w, op);
      case _ =>
    }
  }

  lemma {:induction false} RunWellWritten(w: Writer, ops: seq<Op>, w': Writer)
    requires WellWritten(w) && Runs(w, ops, w')
    ensures WellWritten(w')
    decreases |ops|
  {
    if ops != [] {
      CallWellWritten(w, ops[0]);
      RunWellWritten(Apply(w, ops[0]), ops[1..], w');
    }
  }

  /** `w` has closed a root map, `i` up to array counts. */
  predicate Closes(w: Writer, i: Item) {
    w.state == STATE_TERM && |w.top| == 1 && Alike(i, w.top[0])
  }

  /** Every writable map closes at the end of the run that writes it. */
  lemma WritableIsWritten(i: Item)
    requires i.Map? && Writable(i, false, MAX_DEPTH)
    ensures var w := WroteRoot(Start(), i, false);
      Runs(Start(), Ops(i, false), w) && Closes(w, i)
  {
    WriteItem(Start(), i, false);
    StampAlike(i, 0, Start().counts);
    assert WroteRoot(Start(), i, false).top == [Stamp(i, 0, Start().counts)];
  }

  /** Some run from a fresh handle ends with the root map `i` closed. */
  ghost predicate CanBeWritten(i: Item) {
    exists ops, w :: Runs(Start(), ops, w) && Closes(w, i)
  }

  /** The documents that complete runs produce are exactly the writable maps. */
  lemma WrittenExactly(i: Item)
    ensures CanBeWritten(i) <==> i.Map? && Writable(i, false, 32)
  {
    if CanBeWritten(i) {
      var ops, w :| Runs(Start(), ops, w) && Closes(w, i);
      RunWellWritten(Start(), ops, w);
      AlikeWritable(i, w.top[0], false, MAX_DEPTH);
    }
    if i.Map? && Writable(i, false, MAX_DEPTH) {
      WritableIsWritten(i);
    }
  }

  // ----- The element count of an array ----------------------------------------

  /** An item moves only the counter of the array it stands in, and those of deeper levels. */
  lemma {:induction false} CountsAbove(i: Item, inArr: bool, d: nat, counts: seq<int>)
    requires 0 < d
    ensures var counts' := CountsAfter(i, inArr, d, counts);
      && |counts'| == |counts|
      && (d <= |counts| ==> counts'[d - 1] == counts[d - 1] + (if inArr && Counted(i) then 1 else 0))
      && forall e | 0 <= e < d - 1 && e < |counts| :: counts'[e] == counts[e]
    decreases i, 1
  {
    match i
    case Leaf(_, _) =>
    case _ => CountsAboveAll(i.kids, i.Arr?, d + 1, counts);
  }

  lemma {:induction false} CountsAboveAll(kids: seq<Item>, inArr: bool, d: nat, counts: seq<int>)
    requires 0 < d
    ensures var counts' := CountsAfterAll(kids, inArr, d, counts);
      && |counts'| == |counts|
      && (d <= |counts| ==> counts'[d - 1] == counts[d - 1] + (if inArr then CountedIn(kids) else 0))
      && forall e | 0 <= e < d - 1 && e < |counts| :: counts'[e] == counts[e]
    decreases kids, 0
  {
    if kids != [] {
      CountsAbove(kids[0], inArr, d, counts);
      CountsAboveAll(kids[1..], inArr, d, CountsAfter(kids[0], inArr, d, counts));
    }
  }

  /** The count an array gets: its elements other than 64-bit integers and maps, on
      top of what earlier arrays at the same depth have left in the counter.  It is
      the number of elements exactly when the two errors cancel. */
  lemma ArrayCount(i: Item, d: nat, counts: seq<int>)
    requires i.Arr? && d < |counts|
    ensures var n := Stamp(i, d, counts).count;
      && n == (counts[d] + CountedIn(i.kids)) % 0x1_0000
      && (n == |i.kids| % 0x1_0000 <==> (counts[d] - (|i.kids| - CountedIn(i.kids))) % 0x1_0000 == 0)
      && |CountsAfter(i, false, d, counts)| == |counts|
      && CountsAfter(i, false, d, counts)[d] == counts[d] + CountedIn(i.kids)
  {
    CountsAboveAll(i.kids, true, d + 1, counts);
  }

  /** A second array beside the first goes on from the first one's count. */
  lemma SecondArrayMiscounted()
    ensures var a := Arr(1, 0, [Leaf(BKV_ARRAY_KEY, Int16(7))], 0);
      Stamp(Map(0, [a, a], 0), 0, Start().counts) == Map(0, [a.(count := 1), a.(count := 2)], 0)
  {
    var a := Arr(1, 0, [Leaf(BKV_ARRAY_KEY, Int16(7))], 0);
    var counts := CountsAfter(a, false, 1, Start().counts);
    ArrayCount(a, 1, Start().counts);
    ArrayCount(a, 1, counts);
    assert StampAll(a.kids, true, 2, Start().counts) == a.kids == StampAll(a.kids, true, 2, counts);
    assert [a, a][1..] == [a] && [a][1..] == [];
    assert StampAll([a], false, 1, counts) == [Stamp(a, 1, counts)];
    assert StampAll([a, a], false, 1, Start().counts) == [Stamp(a, 1, Start().counts), Stamp(a, 1, counts)];
  }
}

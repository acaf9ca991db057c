/**
 From the calls that write a document to the callbacks that read it, and from
 appending a document to looking into it.
 */
module BkvRoundTrip {
  import opened BkvBytes
  import opened BkvError
  import opened BkvDocument
  import opened BkvMachine
  import opened BkvWriter
  import opened BkvRuns
  import opened BkvEvents
  import opened BkvReader

  /** A handle that has reached STATE_TERM holds one root map and nothing else. */
  lemma ClosedHandle(w: Writer, state: State, counts: seq<int>, d: int, dv: seq<char>, mo: seq<int>, bytes: seq<Byte>)
    requires Refines(w, state, counts, d, dv, mo, bytes) && WellWritten(w) && state == STATE_TERM
    ensures |w.top| == 1 && w.top[0].Map? && Writable(w.top[0], false, MAX_DEPTH)
    ensures bytes == Encode(w.top[0])
  {
    EncodeAllAppend([], w.top[0]);
    assert w.top == [] + [w.top[0]] && [] + Encode(w.top[0]) == Encode(w.top[0]);
  }

  /** Reading a closed handle with quiet callbacks gives them the root's events, from
      the first to the last byte written. */
  method ReadBack<D(!new)>(h: Bkv, cb: Callbacks<D>, data: D) returns (d: D, ret: int, ghost end: int)
    requires h.Valid() && WellWritten(h.written) && h.state == STATE_TERM
    requires Quiet(cb) && Readable(h.written.top[0])
    ensures ret == BKV_OK && end == h.writeOffset
    ensures d == Fold(cb, data, Events(0, 0, h.written.top[0]))
  {
    ghost var i := h.written.top[0];
    ClosedHandle(h.written, h.state, h.arrayNbElems, h.deepOffset, h.deepValue, h.mapOffset, h.ptr[..h.writeOffset]);
    ExtentIsLength(i);
    QuietRoot(cb, data, 0, i);
    WalkItem(cb, h.ptr[..], data, 0, 0, i);
    d, ret, end := ValForeach(h.ptr, 0, cb, data);
  }

  /** The same item up to the bytes that closing marks find in the buffer. */
  predicate SameButPads(i: Item, j: Item)
    decreases i, 1
  {
    match i
    case Leaf(_, _) => i == j
    case Map(k, kids, _) => j.Map? && j.key == k && AllSameButPads(kids, j.kids)
    case Arr(k, count, kids, _) => j.Arr? && j.key == k && j.count == count && AllSameButPads(kids, j.kids)
  }

  predicate AllSameButPads(a: seq<Item>, b: seq<Item>)
    decreases a, 0
  {
    if a == [] then b == [] else b != [] && SameButPads(a[0], b[0]) && AllSameButPads(a[1..], b[1..])
  }

  lemma {:induction false} SameButPadsKept(i: Item, j: Item, inArr: bool, room: int)
    requires SameButPads(i, j)
    ensures Extent(i) == Extent(j)
    ensures Writable(i, inArr, room) ==> Writable(j, inArr, room)
    ensures Readable(i) ==> Readable(j)
    decreases i, 1
  {
    if !i.Leaf? {
      AllSameButPadsKept(i.kids, j.kids, i.Arr?, room - 1);
    }
  }

  lemma {:induction false} AllSameButPadsKept(a: seq<Item>, b: seq<Item>, inArr: bool, room: int)
    requires AllSameButPads(a, b)
    ensures ExtentAll(a) == ExtentAll(b)
    ensures AllWritable(a, inArr, room) ==> AllWritable(b, inArr, room)
    ensures (forall x <- a :: Readable(x)) ==> forall x <- b :: Readable(x)
    decreases a, 0
  {
    if a != [] {
      SameButPadsKept(a[0], b[0], inArr, room);
      AllSameButPadsKept(a[1..], b[1..], inArr, room);
      assert a == [a[0]] + a[1..] && b == [b[0]] + b[1..];
    }
  }

  /** The item as it is written where the buffer holds zeros. */
  function Plain(i: Item): (j: Item)
    decreases i, 1
  {
    match i
    case Leaf(_, _) => i
    case Map(k, kids, _) => Map(k, PlainAll(kids), 0)
    case Arr(k, count, kids, _) => Arr(k, count, PlainAll(kids), 0)
  }

  function PlainAll(kids: seq<Item>): seq<Item>
    decreases kids, 0
  {
    if kids == [] then [] else [Plain(kids[0])] + PlainAll(kids[1..])
  }

  /** Zeros from `w` on. */
  ghost predicate Clear(bytes: seq<Byte>, w: nat) {
    forall k | w <= k < |bytes| :: bytes[k] == 0
  }

  /** From `w` on the buffer is as it was, and where there were zeros from `v` on, `items` have
      been written with pads of zero. */
  ghost predicate WroteClear(before: seq<Byte>, after: seq<Byte>, v: nat, w: nat, items: seq<Item>,
                             written: seq<Item>) {
    v <= w && Untouched(before, after, w) && (Clear(before, v) ==> written == PlainAll(items))
  }

  lemma {:induction false} LeafClear(before: seq<Byte>, after: seq<Byte>, v: nat, w: nat, i: Item)
    requires i.Leaf? && v <= w && Untouched(before, after, w)
    ensures WroteClear(before, after, v, w, [i], [i])
  {
    assert [i][1..] == [] && PlainAll([i]) == [Plain(i)] + PlainAll([]);
  }

  /** One item, and then more. */
  lemma {:induction false} ClearOn(before: seq<Byte>, mid: seq<Byte>, after: seq<Byte>, v: nat, u: nat, w: nat,
                                   kids: seq<Item>, first: Item, rest: seq<Item>)
    requires kids != [] && WroteClear(before, mid, v, u, [kids[0]], [first])
    requires WroteClear(mid, after, u, w, kids[1..], rest)
    ensures WroteClear(before, after, v, w, kids, [first] + rest)
  {
    UntouchedOn(before, mid, after, u, w);
    if Clear(before, v) {
      StaysClear(before, mid, v, u);
      assert [kids[0]][1..] == [] && PlainAll([kids[0]]) == [Plain(kids[0])] + PlainAll([]);
      assert [first][0] == PlainAll([kids[0]])[0];
    }
  }

  /** A container: its header, what it holds, and its mark. */
  lemma {:induction false} ContainerClear(before: seq<Byte>, start: seq<Byte>, filled: seq<Byte>, after: seq<Byte>,
                                          v: nat, o: nat, q: nat, w: nat, i: Item, kids: seq<Item>, j: Item)
    requires !i.Leaf? && v <= o && q + 2 <= w && q + 1 < |filled|
    requires Untouched(before, start, o) && WroteClear(start, filled, o, q, i.kids, kids) && Untouched(filled, after, w)
    requires j == if i.Map? then Map(i.key, kids, filled[q + 1]) else Arr(i.key, i.count, kids, filled[q + 1])
    ensures WroteClear(before, after, v, w, [i], [j])
  {
    UntouchedOn(before, start, filled, o, q);
    UntouchedOn(before, filled, after, q, w);
    if Clear(before, v) {
      StaysClear(before, start, v, o);
      StaysClear(start, filled, o, q);
      assert j == Plain(i);
    }
    assert [i][1..] == [] && PlainAll([i]) == [Plain(i)] + PlainAll([]);
  }

  lemma StaysClear(before: seq<Byte>, after: seq<Byte>, v: nat, w: nat)
    requires Clear(before, v) && v <= w && Untouched(before, after, w)
    ensures Clear(after, w)
  {
    forall k | w <= k < |after| ensures after[k] == 0 {
      assert after[k] == after[w..][k - w] == before[w..][k - w];
    }
  }

  /** The calls for a writable item, made on a handle that stands where it may go: all are
      accepted, and the item is written with the pads that its marks have found. */
  method WriteOut(h: Bkv, i: Item, inArr: bool) returns (ghost j: Item)
    requires h.Valid() && Placed(h.written, i, inArr) && h.writeOffset + Extent(i) <= h.ptr.Length
    modifies h, h.ptr
    ensures h.Valid() && h.ptr == old(h.ptr) && h.writeOffset == old(h.writeOffset) + Extent(i)
    ensures SameButPads(i, j) && Placed(old(h.written), j, inArr) && h.written == WroteRoot(old(h.written), j, inArr)
    ensures WroteClear(old(h.ptr[..]), h.ptr[..], old(h.writeOffset), h.writeOffset, [i], [j])
    decreases i, 2
  {
    match i {
      case Leaf(_, _) =>
        WriteOutLeaf(h, i, inArr);
        j := i;
      case Map(_, _, _) =>
        j := WriteOutMap(h, i, inArr);
      case Arr(_, _, _, _) =>
        j := WriteOutArr(h, i);
    }
  }

  method WriteOutLeaf(h: Bkv, i: Item, inArr: bool)
    requires i.Leaf? && h.Valid() && Placed(h.written, i, inArr) && h.writeOffset + Extent(i) <= h.ptr.Length
    modifies h, h.ptr
    ensures h.Valid() && h.ptr == old(h.ptr) && h.writeOffset == old(h.writeOffset) + Extent(i)
    ensures h.written == WroteRoot(old(h.written), i, inArr)
    ensures WroteClear(old(h.ptr[..]), h.ptr[..], old(h.writeOffset), h.writeOffset, [i], [i])
  {
    ghost var o, before := h.writeOffset, h.ptr[..];
    var r;
    if inArr {
      r := h.KvArrayAdd(i.value);
    } else {
      r := h.KvAdd(i.key, i.value);
    }
    LeafClear(before, h.ptr[..], o, h.writeOffset, i);
  }

  method WriteOutMap(h: Bkv, i: Item, inArr: bool) returns (ghost j: Item)
    requires i.Map? && h.Valid() && Placed(h.written, i, inArr) && h.writeOffset + Extent(i) <= h.ptr.Length
    modifies h, h.ptr
    ensures h.Valid() && h.ptr == old(h.ptr) && h.writeOffset == old(h.writeOffset) + Extent(i)
    ensures SameButPads(i, j) && Placed(old(h.written), j, inArr) && h.written == WroteRoot(old(h.written), j, inArr)
    ensures WroteClear(old(h.ptr[..]), h.ptr[..], old(h.writeOffset), h.writeOffset, [i], [j])
    decreases i, 1
  {
    ghost var w, v, before := h.written, h.writeOffset, h.ptr[..];
    OpensInside(w, i, inArr);
    var r := h.KvMapOpen(i.key);
    ghost var o, start := h.writeOffset, h.ptr[..];
    ghost var kids := WriteOutAll(h, i.kids, false);
    ghost var q, filled := h.writeOffset, h.ptr[..];
    ghost var pad;
    CloseIsAccepted(w, i, kids, inArr);
    r, pad := h.KvMapClose();
    j := Map(i.key, kids, pad);
    WroteWith(w, i, j, inArr);
    ContainerClear(before, start, filled, h.ptr[..], v, o, q, h.writeOffset, i, kids, j);
  }

  method WriteOutArr(h: Bkv, i: Item) returns (ghost j: Item)
    requires i.Arr? && h.Valid() && Placed(h.written, i, false) && h.writeOffset + Extent(i) <= h.ptr.Length
    modifies h, h.ptr
    ensures h.Valid() && h.ptr == old(h.ptr) && h.writeOffset == old(h.writeOffset) + Extent(i)
    ensures SameButPads(i, j) && Placed(old(h.written), j, false) && h.written == WroteRoot(old(h.written), j, false)
    ensures WroteClear(old(h.ptr[..]), h.ptr[..], old(h.writeOffset), h.writeOffset, [i], [j])
    decreases i, 1
  {
    ghost var w, v, before := h.written, h.writeOffset, h.ptr[..];
    OpensInside(w, i, false);
    var r := h.KvArrayOpen(i.key);
    ghost var o, start := h.writeOffset, h.ptr[..];
    ghost var kids := WriteOutAll(h, i.kids, true);
    ghost var q, filled := h.writeOffset, h.ptr[..];
    ghost var pad;
    CloseIsAccepted(w, i, kids, false);
    r, pad := h.KvArrayClose();
    j := Arr(i.key, i.count, kids, pad);
    WroteWith(w, i, j, false);
    ContainerClear(before, start, filled, h.ptr[..], v, o, q, h.writeOffset, i, kids, j);
  }

  method WriteOutAll(h: Bkv, kids: seq<Item>, inArr: bool) returns (ghost written: seq<Item>)
    requires h.Valid() && Inside(h.written, inArr) && AllWritable(kids, inArr, MAX_DEPTH - |h.written.open|)
    requires h.writeOffset + ExtentAll(kids) <= h.ptr.Length
    modifies h, h.ptr
    ensures h.Valid() && h.ptr == old(h.ptr) && h.writeOffset == old(h.writeOffset) + ExtentAll(kids)
    ensures AllSameButPads(kids, written) && h.written == WroteAll(old(h.written), written, inArr)
    ensures WroteClear(old(h.ptr[..]), h.ptr[..], old(h.writeOffset), h.writeOffset, kids, written)
    decreases kids, 0
  {
    if kids == [] {
      return [];
    }
    ghost var w, v, before := h.written, h.writeOffset, h.ptr[..];
    ghost var first := WriteOut(h, kids[0], inArr);
    ghost var u, mid := h.writeOffset, h.ptr[..];
    StandsForMore(w, first, kids, inArr);
    ghost var rest := WriteOutAll(h, kids[1..], inArr);
    written := [first] + rest;
    assert written[1..] == rest;
    ClearOn(before, mid, h.ptr[..], v, u, h.writeOffset, kids, first, rest);
  }

  /** After the first of some items the handle stands for the others. */
  lemma StandsForMore(w: Writer, first: Item, kids: seq<Item>, inArr: bool)
    requires Placed(w, first, inArr) && Inside(w, inArr)
    requires kids != [] && AllWritable(kids, inArr, MAX_DEPTH - |w.open|)
    ensures var w1 := WroteRoot(w, first, inArr);
      && w1 == Wrote(w, first, inArr) && Inside(w1, inArr)
      && AllWritable(kids[1..], inArr, MAX_DEPTH - |w1.open|)
  {
    WriteItem(w, first, inArr);
  }

  /** The call that opens a container. */
  function Opening(i: Item): Op
    requires !i.Leaf?
  {
    if i.Map? then OpenMap(i.key) else OpenArr(i.key)
  }

  function Closing(i: Item, pad: Byte): Op
    requires !i.Leaf?
  {
    if i.Map? then CloseMap(pad) else CloseArr(pad)
  }

  lemma OpensInside(w: Writer, i: Item, inArr: bool)
    requires Placed(w, i, inArr) && !i.Leaf?
    ensures Accepts(w, Opening(i)) && |w.open| < MAX_DEPTH && Inv(Apply(w, Opening(i)))
    ensures var w1 := Apply(w, Opening(i));
      Inside(w1, i.Arr?) && AllWritable(i.kids, i.Arr?, MAX_DEPTH - |w1.open|)
  {
    ApplyKeepsInv(w, Opening(i));
  }

  /** With any kids written that are as good as the item's, the close is accepted. */
  lemma CloseIsAccepted(w: Writer, i: Item, kids: seq<Item>, inArr: bool)
    requires Placed(w, i, inArr) && !i.Leaf? && AllSameButPads(i.kids, kids)
    ensures Inv(Apply(w, Opening(i))) && Inv(WroteAll(Apply(w, Opening(i)), kids, i.Arr?))
    ensures Inside(WroteAll(Apply(w, Opening(i)), kids, i.Arr?), i.Arr?)
    ensures forall pad :: Accepts(WroteAll(Apply(w, Opening(i)), kids, i.Arr?), Closing(i, pad))
  {
    OpensInside(w, i, inArr);
    var w1 := Apply(w, Opening(i));
    AllSameButPadsKept(i.kids, kids, i.Arr?, MAX_DEPTH - |w1.open|);
    WriteItems(w1, kids, i.Arr?);
    forall pad ensures Accepts(WroteAll(w1, kids, i.Arr?), Closing(i, pad)) {
      AcceptsExactly(WroteAll(w1, kids, i.Arr?), Closing(i, pad));
    }
  }

  /** And it puts the item with those kids. */
  lemma WroteWith(w: Writer, i: Item, j: Item, inArr: bool)
    requires Placed(w, i, inArr) && !i.Leaf? && SameButPads(i, j)
    ensures Placed(w, j, inArr) && Inv(Apply(w, Opening(i))) && Inv(WroteAll(Apply(w, Opening(i)), j.kids, i.Arr?))
    ensures var w2 := WroteAll(Apply(w, Opening(i)), j.kids, i.Arr?);
      Accepts(w2, Closing(i, j.pad)) && Apply(w2, Closing(i, j.pad)) == WroteRoot(w, j, inArr)
  {
    SameButPadsKept(i, j, inArr, MAX_DEPTH - |w.open|);
    CloseIsAccepted(w, i, j.kids, inArr);
    CloseWritten(w, j, inArr);
  }

  /** The round trip on handles and bytes: a writable map is written on a new handle with
      just the room it needs, and reading the handle gives quiet callbacks the events of
      that very map, with marks of zero and the counts its arrays have got. */
  method WriteAndRead<D(!new)>(i: Item, cb: Callbacks<D>, data: D)
    returns (d: D, ret: int, ghost end: int)
    requires i.Map? && Writable(i, false, MAX_DEPTH) && Readable(i) && Quiet(cb)
    ensures ret == 1 && end == Extent(i)
    ensures d == Fold(cb, data, Events(0, 0, Stamp(Plain(i), 0, Start().counts)))
  {
    var h := new Bkv(Extent(i));
    ghost var j := WriteOut(h, i, false);
    OnlyPlain(i, j);
    RootWritten(i, j);
    d, ret, end := ReadBack(h, cb, data);
  }

  lemma {:induction false} OnlyPlain(i: Item, j: Item)
    requires [j] == PlainAll([i])
    ensures j == Plain(i)
  {
    assert [i][1..] == [] && PlainAll([i]) == [Plain(i)] + PlainAll([]);
    assert [j][0] == PlainAll([i])[0];
  }

  lemma RootWritten(i: Item, j: Item)
    requires i.Map? && Writable(i, false, MAX_DEPTH) && Readable(i) && SameButPads(i, j)
    ensures var w, k := WroteRoot(Start(), j, false), Stamp(j, 0, Start().counts);
      WellWritten(w) && w.state == STATE_TERM && w.top == [k] && Readable(k)
  {
    SameButPadsKept(i, j, false, MAX_DEPTH);
    WriteItem(Start(), j, false);
    RunWellWritten(Start(), Ops(j, false), WroteRoot(Start(), j, false));
    StampReadable(j, 0, Start().counts);
  }

  lemma {:induction false} StampReadable(i: Item, d: nat, counts: seq<int>)
    requires Readable(i)
    ensures Readable(Stamp(i, d, counts))
    decreases i, 1
  {
    if !i.Leaf? {
      StampAllReadable(i.kids, i.Arr?, d + 1, counts);
    }
  }

  lemma {:induction false} StampAllReadable(kids: seq<Item>, inArr: bool, d: nat, counts: seq<int>)
    requires forall x <- kids :: Readable(x)
    ensures forall x <- StampAll(kids, inArr, d, counts) :: Readable(x)
    decreases kids, 0
  {
    if kids != [] {
      StampReadable(kids[0], d, counts);
      StampAllReadable(kids[1..], inArr, d, CountsAfter(kids[0], inArr, d, counts));
    }
  }

  /** The same with any pads: the run that writes a map, and the events of what it writes. */
  lemma WrittenReadsBack<D(!new)>(i: Item, cb: Callbacks<D>, d: D)
    requires i.Map? && Writable(i, false, MAX_DEPTH) && Quiet(cb)
    ensures var w := WroteRoot(Start(), i, false);
      && Runs(Start(), Ops(i, false), w) && w.state == STATE_TERM && |w.top| == 1 && Alike(i, w.top[0])
      && RunItem(cb, d, 0, 0, w.top[0]) == Stopped(Fold(cb, d, Events(0, 0, w.top[0])), Extent(i), 0)
  {
    WritableIsWritten(i);
    var j := WroteRoot(Start(), i, false).top[0];
    QuietRoot(cb, d, 0, j);
    AlikeExtent(i, j);
  }

  lemma {:induction false} AlikeExtent(i: Item, j: Item)
    requires Alike(i, j)
    ensures Extent(i) == Extent(j)
    decreases i, 1
  {
    if !i.Leaf? {
      AllAlikeExtent(i.kids, j.kids);
    }
  }

  lemma {:induction false} AllAlikeExtent(a: seq<Item>, b: seq<Item>)
    requires AllAlike(a, b)
    ensures ExtentAll(a) == ExtentAll(b)
    decreases a, 0
  {
    if a != [] {
      AlikeExtent(a[0], b[0]);
      AllAlikeExtent(a[1..], b[1..]);
    }
  }

  /** Appending the handle of a closed document `i` leaves the tree that writing `i` as
      a nested map under its own key would leave, up to array counts. */
  lemma AppendedAsWritten(w: Writer, i: Item)
    requires Inv(w) && (Inside(w, false) || Inside(w, true)) && i.Map? && Writable(i, false, MAX_DEPTH - |w.open|)
    ensures var inArr, w' := w.state == STATE_IN_ARRAY, WroteRoot(w, i, w.state == STATE_IN_ARRAY);
      && Runs(w, Ops(i, inArr), w')
      && exists j :: Alike(i, j) && w' == w.Put(j).(counts := w'.counts) && w.PutAll([i]) == w.Put(i)
  {
    WriteItem(w, i, w.state == STATE_IN_ARRAY);
    StampAlike(i, |w.open|, w.counts);
    assert [i][1..] == [];
    assert w.PutAll([i]) == w.Put(i).PutAll([]);
  }
}

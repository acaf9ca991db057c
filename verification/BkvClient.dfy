/**
 What a caller of `bkv/src/bkv.c` and `bkv/src/bkv_val.c` sees over whole runs of calls.
 */
module BkvClient {
  import opened BkvBytes
  import opened BkvError
  import opened BkvDocument
  import opened BkvMachine
  import opened BkvWriter
  import opened BkvRuns
  import opened BkvReader
  import opened BkvLayout
  import opened BkvRoundTrip
  import L = BkvLookup

  // ----- Any calls on a handle ------------------------------------------------------

  /** A call on a handle. */
  datatype Call =
    | CallAdd(key: U16, v: Scalar)
    | CallAddElement(v: Scalar)
    | CallMapOpen(key: U16)
    | CallArrayOpen(key: U16)
    | CallMapClose
    | CallArrayClose

  /** How much the call writes. */
  function Size(c: Call): nat {
    match c
    case CallAdd(_, v) => 2 + |ScalarBytes(v)|
    case CallAddElement(v) => 2 + |ScalarBytes(v)|
    case CallMapOpen(_) => 4
    case CallArrayOpen(_) => 6
    case CallMapClose => 2
    case CallArrayClose => 5
  }

  /** There is room for the call, it can be made, and no stack is overrun by it. */
  predicate Possible(c: Call, free: int, deepOffset: int) {
    && Size(c) <= free
    && (c.CallAddElement? ==> !c.v.Int32?)
    && (c.CallMapOpen? || c.CallArrayOpen? ==> deepOffset < MAX_DEPTH - 1)
  }

  /** The answer to a call in this state: 1 where it is taken, -5 for a key that does not
      fit, and -2 otherwise. */
  predicate Answers(state: State, c: Call, r: int) {
    match c
    case CallAdd(key, _) => r == if key > 0xFFF then -5 else if state == STATE_IN_MAP then 1 else -2
    case CallAddElement(_) => r == if state == STATE_IN_ARRAY then 1 else -2
    case CallMapOpen(_) => r == if state == STATE_TERM then -2 else 1
    case CallArrayOpen(_) => r == if state == STATE_IN_MAP then 1 else -2
    case CallMapClose => r == if state == STATE_IN_MAP then 1 else -2
    case CallArrayClose => r == if state == STATE_IN_ARRAY then 1 else -2
  }

  /** The call that the machine knows by this operation. */
  predicate Means(c: Call, op: Op) {
    match c
    case CallAdd(key, v) => op == Add(key, v)
    case CallAddElement(v) => op == AddElement(v) && !v.Int32?
    case CallMapOpen(key) => op == OpenMap(key)
    case CallArrayOpen(key) => op == OpenArr(key)
    case CallMapClose => op.CloseMap?
    case CallArrayClose => op.CloseArr?
  }

  lemma AnswersAre(w: Writer, w': Writer, c: Call, op: Op, r: int)
    requires Inv(w) && Means(c, op) && Answer(w, w', op, r)
    ensures Answers(w.state, c, r)
  {
    AcceptsExactly(w, op);
  }

  /** One call, accepted or refused. */
  method Make(h: Bkv, c: Call) returns (r: int, ghost op: Op)
    requires h.Valid() && Possible(c, h.ptr.Length - h.writeOffset, h.deepOffset)
    modifies h, h.ptr
    ensures h.Valid() && h.ptr == old(h.ptr) && h.writeOffset <= h.ptr.Length
    ensures Answer(old(h.written), h.written, op, r) && Means(c, op) && Answers(old(h.state), c, r)
    ensures Opens(op) ==> old(h.deepOffset) < MAX_DEPTH - 1
  {
    ghost var w := h.written;
    match c {
      case CallAdd(key, v) =>
        op := Add(key, v);
        r := h.KvAdd(key, v);
      case CallAddElement(v) =>
        op := AddElement(v);
        r := h.KvArrayAdd(v);
      case CallMapOpen(key) =>
        op := OpenMap(key);
        r := h.KvMapOpen(key);
      case CallArrayOpen(key) =>
        op := OpenArr(key);
        r := h.KvArrayOpen(key);
      case CallMapClose =>
        ghost var pad;
        r, pad := h.KvMapClose();
        op := CloseMap(pad);
      case CallArrayClose =>
        ghost var pad;
        r, pad := h.KvArrayClose();
        op := CloseArr(pad);
    }
    AnswersAre(w, h.written, c, op, r);
  }

  /** Any calls whatever, each made if there is room for it: those accepted are a run, so
      that everything in the handle could be written where it stands, and STATE_TERM means
      that the bytes are those of one writable root map. */
  method MakeAll(h: Bkv, calls: seq<Call>) returns (ghost ops: seq<Op>)
    requires h.Valid() && WellWritten(h.written)
    modifies h, h.ptr
    ensures h.Valid() && h.ptr == old(h.ptr) && WellWritten(h.written)
    ensures Inv(old(h.written)) && Runs(old(h.written), ops, h.written)
    ensures h.state == STATE_TERM ==>
      && |h.written.top| == 1 && h.written.top[0].Map? && h.ptr[..h.writeOffset] == Encode(h.written.top[0])
      && (Readable(h.written.top[0]) ==> LaidOut(h.ptr[..h.writeOffset], 0, h.written.top[0]))
  {
    ops := [];
    ghost var w0 := h.written;
    for n := 0 to |calls|
      invariant h.Valid() && h.ptr == old(h.ptr) && Runs(w0, ops, h.written)
    {
      if Possible(calls[n], h.ptr.Length - h.writeOffset, h.deepOffset) {
        ghost var w := h.written;
        var r;
        ghost var op;
        r, op := Make(h, calls[n]);
        RunGoesOn(w0, ops, w, op, r, h.written);
        ops := if r == BKV_OK then ops + [op] else ops;
      }
    }
    RunWellWritten(w0, ops, h.written);
    if h.state == STATE_TERM {
      ClosedHandle(h.written, h.state, h.arrayNbElems, h.deepOffset, h.deepValue, h.mapOffset, h.ptr[..h.writeOffset]);
      WholeLaidOut(h.ptr[..h.writeOffset], h.written.top[0]);
    }
  }

  lemma {:induction false} WholeLaidOut(bytes: seq<Byte>, i: Item)
    requires bytes == Encode(i)
    ensures Readable(i) ==> LaidOut(bytes, 0, i)
  {
    assert bytes[0..0 + |bytes|] == bytes;
    if Readable(i) {
      EncodeLaidOut(bytes, 0, i);
    }
  }

  lemma RunGoesOn(w0: Writer, ops: seq<Op>, w: Writer, op: Op, r: int, w': Writer)
    requires Inv(w0) && Runs(w0, ops, w) && Inv(w) && Answer(w, w', op, r) && (Opens(op) ==> |w.open| < MAX_DEPTH)
    ensures Runs(w0, if r == BKV_OK then ops + [op] else ops, w')
  {
    if Accepts(w, op) {
      RunsOne(w, op);
      RunsConcat(w0, ops, w, [op], w');
    }
  }

  // ----- Documents inside documents on a handle ---------------------------------------

  /** A handle with nothing open holds the bytes of its items. */
  lemma {:induction false} WholeItem(h: Bkv, i: Item)
    requires h.Valid() && h.written.open == [] && h.written.top == [i]
    ensures h.writeOffset == |Encode(i)| <= h.ptr.Length && At(h.ptr[..], 0, Encode(i))
  {
    EncodeAllAppend([], i);
    assert [i] == [] + [i] && [] + Encode(i) == Encode(i);
  }

  /** The closed document of `a` can be appended to the root map of `h`, looked up there by
      its key, and looked into by `path`. */
  ghost predicate CanEmbed(h: Writer, a: Writer, path: seq<U16>) {
    && Inv(h) && h.state == STATE_IN_MAP && |h.open| == 1 && h.top == [] && h.open[0].key <= 0xFFF
    && (forall x <- h.open[0].kids :: Readable(x))
    && a.open == [] && |a.top| == 1 && a.top[0].Map? && Readable(a.top[0]) && a.top[0].key != L.BKV_KEY_INVALID
    && (forall s <- L.Visible(4, 1, h.open[0].kids) :: s.i.key != a.top[0].key && L.Jumpable(s))
    && path != [] && L.BKV_KEY_INVALID !in path && L.SkipsFit(path, L.Entries(0, a.top[0]))
  }

  /** Appends the closed document of `a`, which becomes an entry of the open map. */
  method AppendDocument(h: Bkv, a: Bkv)
    requires h.Valid() && a.Valid() && h != a && h.ptr != a.ptr && a.written.open == [] && |a.written.top| == 1
    requires h.writeOffset + a.writeOffset + 2 <= h.ptr.Length
    modifies h, h.ptr
    ensures h.Valid() && h.ptr == old(h.ptr) && h.writeOffset + 2 <= h.ptr.Length
    ensures h.written == old(h.written).Put(old(a.written).top[0])
  {
    ghost var inner := a.written.top[0];
    assert [inner][1..] == [] && a.written.top == [inner];
    assert h.written.PutAll([inner]) == h.written.Put(inner).PutAll([]) == h.written.Put(inner);
    var r := h.Append(a);
  }

  /** Closing a root map after one more entry. */
  lemma {:induction false} RootCloses(w: Writer, inner: Item, pad: Byte)
    requires Inv(w) && w.state == STATE_IN_MAP && |w.open| == 1 && w.top == []
    ensures var w1, op := w.Put(inner), CloseMap(pad);
      && Inv(w1) && Accepts(w1, op)
      && var w2 := Apply(w1, op);
         w2.open == [] && w2.top == [Map(w.open[0].key, w.open[0].kids + [inner], pad)] && w2.state == STATE_TERM
  {
    PutKeepsKinds(w, inner);
  }

  /** Appends the closed document of `a` to the open root map of `h`, and closes that. */
  method AppendAndClose(h: Bkv, a: Bkv, ghost path: seq<U16>) returns (ghost doc: Item)
    requires h.Valid() && a.Valid() && h != a && h.ptr != a.ptr && CanEmbed(h.written, a.written, path)
    requires h.writeOffset + a.writeOffset + 2 <= h.ptr.Length
    modifies h, h.ptr
    ensures h.Valid() && h.ptr == old(h.ptr) && h.state == STATE_TERM
    ensures h.written.open == [] && h.written.top == [doc]
    ensures doc.Map?
    ensures doc == Map(old(h.written.open)[0].key, old(h.written.open)[0].kids + [old(a.written).top[0]], doc.pad)
  {
    ghost var w, inner := h.written, a.written.top[0];
    AppendDocument(h, a);
    ghost var pad;
    var r;
    r, pad := h.KvMapClose();
    RootCloses(w, inner, pad);
    doc := Map(w.open[0].key, w.open[0].kids + [inner], pad);
  }

  /** The embedded document is found under its key, and a lookup inside it from the place
      found answers as it does in the document by itself, with places moved there. */
  method EmbedAndLookUp(h: Bkv, a: Bkv, key: U16, path: seq<U16>) returns (place: int, ret: int, found: L.Found)
    requires h.Valid() && a.Valid() && h != a && h.ptr != a.ptr && CanEmbed(h.written, a.written, path)
    requires h.writeOffset + a.writeOffset + 2 <= h.ptr.Length && key == a.written.top[0].key
    modifies h, h.ptr
    ensures place == 4 + ExtentAll(old(h.written.open)[0].kids)
    ensures var r := L.Search(path, L.Entries(0, old(a.written).top[0]));
      && (ret == BKV_OK <==> r.Some?)
      && (r.Some? ==> found == L.Moved(r.value, place))
  {
    ghost var before, inner := h.written.open[0].kids, a.written.top[0];
    ghost var doc := AppendAndClose(h, a, path);
    WholeItem(h, doc);
    place, ret, found := LookUpInside(h.ptr, key, path, doc, before, inner);
  }

  /** `doc` ends with `inner`, whose key nothing before it has, and stands at the start of `m`. */
  ghost predicate Embedded(m: seq<Byte>, doc: Item, before: seq<Item>, inner: Item) {
    && doc.Map? && doc.kids == before + [inner] && There(m, 0, doc)
    && inner.Map? && inner.key != L.BKV_KEY_INVALID
    && forall s <- L.Visible(4, 1, before) :: s.i.key != inner.key && L.Jumpable(s)
  }

  /** One lookup for the embedded document, and one inside it. */
  method LookUpInside(m: array<Byte>, key: U16, path: seq<U16>, ghost doc: Item, ghost before: seq<Item>,
                      ghost inner: Item)
    returns (place: int, ret: int, found: L.Found)
    requires Embedded(m[..], doc, before, inner) && key == inner.key
    requires path != [] && L.BKV_KEY_INVALID !in path && L.SkipsFit(path, L.Entries(0, inner))
    ensures place == 4 + ExtentAll(before)
    ensures var r := L.Search(path, L.Entries(0, inner));
      (ret == BKV_OK <==> r.Some?) && (r.Some? ==> found == L.Moved(r.value, place))
  {
    place := LookUpPlace(m, key, doc, before, inner);
    FoundInside(m[..], doc, before, inner, path);
    ret, found := LookUp(m, place, path, inner);
  }

  /** Where the embedded document stands. */
  method LookUpPlace(m: array<Byte>, key: U16, ghost doc: Item, ghost before: seq<Item>, ghost inner: Item)
    returns (place: int)
    requires Embedded(m[..], doc, before, inner) && key == inner.key
    ensures place == 4 + ExtentAll(before)
  {
    FoundThere(m[..], doc, before, inner);
    var ret, found := LookUp(m, 0, [key], doc);
    place := found.priv;
  }

  /** One lookup in the document `i` that stands at `base`. */
  method LookUp(m: array<Byte>, base: nat, path: seq<U16>, ghost i: Item) returns (ret: int, found: L.Found)
    requires There(m[..], base, i) && i.Map?
    requires path != [] && L.BKV_KEY_INVALID !in path && L.SkipsFit(path, L.Entries(base, i))
    ensures var r := L.Search(path, L.Entries(base, i));
      (ret == BKV_OK <==> r.Some?) && (r.Some? ==> found == r.value)
  {
    var val := new L.Found[1](_ => L.NoValue);
    L.GetSearches(m[..], base, path, 1, val[..], i);
    ret := L.ValGet2(m, base, false, L.Path(path), 1, val);
    found := val[..][0];
  }

  lemma {:induction false} FoundThere(m: seq<Byte>, doc: Item, before: seq<Item>, inner: Item)
    requires Embedded(m, doc, before, inner)
    ensures L.SkipsFit([inner.key], L.Entries(0, doc))
    ensures L.Search([inner.key], L.Entries(0, doc)) == L.Some(L.ObjectAt(4 + ExtentAll(before)))
  {
    assert before + [inner] + [] == before + [inner];
    L.EmbeddedIsFound(0, doc.key, before, inner, [], doc.pad);
    L.EmbeddedSkips(0, doc.key, before, inner, [], doc.pad);
  }

  lemma {:induction false} FoundInside(m: seq<Byte>, doc: Item, before: seq<Item>, inner: Item, path: seq<U16>)
    requires Embedded(m, doc, before, inner) && path != [] && L.SkipsFit(path, L.Entries(0, inner))
    ensures var o := 4 + ExtentAll(before);
      && There(m, o, inner) && L.SkipsFit(path, L.Entries(o, inner))
      && L.Search(path, L.Entries(o, inner)) == L.MovedResult(L.Search(path, L.Entries(0, inner)), o)
  {
    var o := 4 + ExtentAll(before);
    LastThere(m, doc, before, inner);
    L.SkipsFitAnywhere(path, inner, o);
    L.LookupMoved(path, inner, o);
  }

  lemma {:induction false} LastThere(m: seq<Byte>, doc: Item, before: seq<Item>, inner: Item)
    requires doc.Map? && doc.kids == before + [inner] && There(m, 0, doc)
    ensures There(m, 4 + ExtentAll(before), inner)
  {
    EntryThere(m, 0, doc, |before|);
    assert doc.kids[..|before|] == before;
  }
}

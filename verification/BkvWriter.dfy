/**
 The write handle of `bkv/src/bkv.c`: one buffer that grows at `writeOffset`
 and whose container headers are patched when the container closes.
 */
module BkvWriter {
  import opened BkvBytes
  import opened BkvError
  import opened BkvDocument
  import opened BkvMachine
  import opened BkvWire

  function HeadSize(f: Frame): nat {
    if f.isMap then 4 else 6
  }

  function OpenType(f: Frame): Nibble {
    if f.isMap then HDR_TYPE_MAP_OPEN else HDR_TYPE_ARRAY_OPEN
  }

  /** `bytes` hold `top`, then the headers of the open containers, each at its offset
      and each followed by what the container holds so far.  The length and count
      fields of open containers are not written yet. */
  ghost predicate Laid(top: seq<Item>, open: seq<Frame>, offs: seq<int>, bytes: seq<Byte>)
    requires |open| <= |offs|
    decreases |open|
  {
    if open == [] then bytes == EncodeAll(top)
    else
      var n := |open| - 1;
      var f, o := open[n], offs[n];
      && 0 <= o && o + HeadSize(f) <= |bytes|
      && bytes[o..o + 2] == Header(OpenType(f), f.key)
      && bytes[o + HeadSize(f)..] == EncodeAll(f.kids)
      && Laid(top, open[..n], offs, bytes[..o])
  }

  /** Only the offsets of the open containers matter. */
  lemma {:induction false} LaidOffsets(top: seq<Item>, open: seq<Frame>, offs: seq<int>, offs': seq<int>,
                                       bytes: seq<Byte>)
    requires |open| <= |offs| && |open| <= |offs'| && offs[..|open|] == offs'[..|open|]
    requires Laid(top, open, offs, bytes)
    ensures Laid(top, open, offs', bytes)
    decreases |open|
  {
    if open != [] {
      var n := |open| - 1;
      assert offs[n] == offs[..|open|][n] && offs'[n] == offs'[..|open|][n];
      assert offs[..n] == offs[..|open|][..n] && offs'[..n] == offs'[..|open|][..n];
      LaidOffsets(top, open[..n], offs, offs', bytes[..offs[n]]);
    }
  }

  /** The bytes of an open container, with whatever its unwritten fields hold. */
  function OpenBytes(f: Frame, unwritten: seq<Byte>): seq<Byte> {
    Header(OpenType(f), f.key) + unwritten + EncodeAll(f.kids)
  }

  lemma LaidWith(top: seq<Item>, outer: seq<Frame>, f: Frame, offs: seq<int>, below: seq<Byte>, unwritten: seq<Byte>)
    requires |outer| < |offs| && offs[|outer|] == |below| && Laid(top, outer, offs, below)
    requires |unwritten| == HeadSize(f) - 2
    ensures Laid(top, outer + [f], offs, below + OpenBytes(f, unwritten))
  {
    var n, o, bytes := |outer|, |below|, below + OpenBytes(f, unwritten);
    assert (outer + [f])[n] == f && (outer + [f])[..n] == outer;
    OpenBytesParts(below, Header(OpenType(f), f.key), unwritten, EncodeAll(f.kids));
  }

  lemma OpenBytesParts(below: seq<Byte>, header: seq<Byte>, unwritten: seq<Byte>, kids: seq<Byte>)
    requires |header| == 2
    ensures var bytes, o := below + (header + unwritten + kids), |below|;
      && bytes[..o] == below && bytes[o..o + 2] == header && bytes[o + 2 + |unwritten|..] == kids
      && |bytes| >= o + 2 + |unwritten|
  {
  }

  lemma LaidWithout(top: seq<Item>, outer: seq<Frame>, f: Frame, offs: seq<int>, bytes: seq<Byte>)
    returns (below: seq<Byte>, unwritten: seq<Byte>)
    requires |outer| < |offs| && Laid(top, outer + [f], offs, bytes)
    ensures offs[|outer|] == |below| && Laid(top, outer, offs, below) && |unwritten| == HeadSize(f) - 2
    ensures bytes == below + OpenBytes(f, unwritten)
  {
    var n, o := |outer|, offs[|outer|];
    assert (outer + [f])[n] == f && (outer + [f])[..n] == outer;
    below, unwritten := bytes[..o], bytes[o + 2..o + HeadSize(f)];
    CutInFour(bytes, o, o + 2, o + HeadSize(f));
  }

  lemma CutInFour(bytes: seq<Byte>, o: nat, p: nat, q: nat)
    requires o <= p <= q <= |bytes|
    ensures bytes == bytes[..o] + (bytes[o..p] + bytes[p..q] + bytes[q..])
  {
  }

  /** Writing a whole item after everything else. */
  lemma LaidPut(w: Writer, offs: seq<int>, bytes: seq<Byte>, i: Item)
    requires |w.open| <= |offs| && Laid(w.top, w.open, offs, bytes)
    ensures var w' := w.Put(i); Laid(w'.top, w'.open, offs, bytes + Encode(i))
  {
    if w.open == [] {
      EncodeAllAppend(w.top, i);
    } else {
      var n := |w.open| - 1;
      var outer, f := w.open[..n], w.open[n];
      var f' := f.(kids := f.kids + [i]);
      assert w.open == outer + [f] && w.Put(i).open == outer + [f'];
      var below, unwritten := LaidWithout(w.top, outer, f, offs, bytes);
      LaidWith(w.top, outer, f', offs, below, unwritten);
      EncodeAllAppend(f.kids, i);
      PutBytes(below, f, unwritten, i);
    }
  }

  lemma PutBytes(below: seq<Byte>, f: Frame, unwritten: seq<Byte>, i: Item)
    requires EncodeAll(f.kids + [i]) == EncodeAll(f.kids) + Encode(i)
    ensures below + OpenBytes(f, unwritten) + Encode(i) == below + OpenBytes(f.(kids := f.kids + [i]), unwritten)
  {
    var h, e, x := Header(OpenType(f), f.key) + unwritten, EncodeAll(f.kids), Encode(i);
    Associate(h, e, x);
    Associate(below, h + e, x);
  }

  lemma EmptyOpenBytes(bytes: seq<Byte>, f: Frame, unwritten: seq<Byte>)
    requires f.kids == []
    ensures bytes + OpenBytes(f, unwritten) == bytes + Header(OpenType(f), f.key) + unwritten
  {
    var h := Header(OpenType(f), f.key);
    assert OpenBytes(f, unwritten) == h + unwritten + [] == h + unwritten;
    Associate(bytes, h, unwritten);
  }

  /** Writing the header of a new container. */
  lemma LaidOpen(w: Writer, offs: seq<int>, bytes: seq<Byte>, f: Frame, unwritten: seq<Byte>)
    requires |w.open| < |offs| && Laid(w.top, w.open, offs, bytes)
    requires f.kids == [] && |unwritten| == HeadSize(f) - 2
    ensures Laid(w.top, w.open + [f], offs[|w.open| := |bytes|], bytes + Header(OpenType(f), f.key) + unwritten)
  {
    var offs' := offs[|w.open| := |bytes|];
    assert offs'[..|w.open|] == offs[..|w.open|];
    LaidOffsets(w.top, w.open, offs, offs', bytes);
    LaidWith(w.top, w.open, f, offs', bytes, unwritten);
    EmptyOpenBytes(bytes, f, unwritten);
  }

  /** The buffer with an open container's length (and count) written and its closing mark appended. */
  function Patched(bytes: seq<Byte>, o: nat, fields: seq<Byte>, mark: seq<Byte>): seq<Byte>
    requires o + 2 + |fields| <= |bytes|
  {
    bytes[..o + 2] + fields + bytes[o + 2 + |fields|..] + mark
  }

  lemma MapPatched(bytes: seq<Byte>, o: nat, pad: Byte)
    requires o + 4 <= |bytes|
    ensures MapFinished(bytes, Patched(bytes, o, Bytes16((|bytes| + 2 - o) % 0x1_0000), CloseMapBytes(pad)), o)
  {
    var fields := Bytes16((|bytes| + 2 - o) % 0x1_0000);
    var after := Patched(bytes, o, fields, CloseMapBytes(pad));
    assert after[o + 4..|bytes|] == bytes[o + 4..];
    assert after[o + 2] == fields[0] && after[o + 3] == fields[1];
  }

  lemma ArrayPatched(bytes: seq<Byte>, o: nat, count: int, pad: Byte)
    requires o + 6 <= |bytes|
    ensures ArrayFinished(bytes, Patched(bytes, o, Bytes16((|bytes| + 5 - o) % 0x1_0000) + Bytes16(count % 0x1_0000),
                                         CloseArrBytes(pad)), o, count)
  {
    var fields := Bytes16((|bytes| + 5 - o) % 0x1_0000) + Bytes16(count % 0x1_0000);
    var after := Patched(bytes, o, fields, CloseArrBytes(pad));
    assert after[o + 6..|bytes|] == bytes[o + 6..];
    assert after[o + 2] == fields[0] && after[o + 3] == fields[1];
    assert after[o + 4] == fields[2] && after[o + 5] == fields[3];
  }

  /** The mark is written first and the fields after it. */
  lemma PatchedByParts(before: seq<Byte>, mid: seq<Byte>, after: seq<Byte>, w: nat, o: nat, fields: seq<Byte>,
                       mark: seq<Byte>)
    requires Stored(before, mid, w, mark) && Stored(mid, after, o + 2, fields) && o + 2 + |fields| <= w
    ensures after[..w + |mark|] == Patched(before[..w], o, fields, mark)
  {
    StoredPrefix(before, mid, w, mark);
    var bytes, p := before[..w], o + 2 + |fields|;
    assert mid[..w + |mark|] == bytes + mark;
    assert after[..w + |mark|] == mid[..o + 2] + fields + mid[p..w + |mark|];
    assert mid[p..w + |mark|] == mid[..w + |mark|][p..] == bytes[p..] + mark;
    assert mid[..o + 2] == bytes[..o + 2];
    Associate(bytes[..o + 2] + fields, bytes[p..], mark);
  }

  /** A map's mark and then its length. */
  lemma MapMarked(before: seq<Byte>, mid: seq<Byte>, after: seq<Byte>, w: nat, o: nat, pad: Byte)
    requires o + 4 <= w
    requires Stored(before, mid, w, CloseMapBytes(pad)) && Stored(mid, after, o + 2, Bytes16((w + 2 - o) % 0x1_0000))
    ensures after[..w + 2] == Patched(before[..w], o, Bytes16((w + 2 - o) % 0x1_0000), CloseMapBytes(pad))
    ensures MapFinished(before[..w], after[..w + 2], o) && Untouched(before, after, w + 2)
  {
    StoredUntouched(before, mid, w, CloseMapBytes(pad), w + 2);
    StoredUntouched(mid, after, o + 2, Bytes16((w + 2 - o) % 0x1_0000), w + 2);
    PatchedByParts(before, mid, after, w, o, Bytes16((w + 2 - o) % 0x1_0000), CloseMapBytes(pad));
    MapPatched(before[..w], o, pad);
  }

  /** An array's mark and then its fields. */
  lemma ArrayMarked(before: seq<Byte>, mid: seq<Byte>, after: seq<Byte>, w: nat, o: nat, count: int, pad: Byte)
    requires o + 6 <= w && Stored(before, mid, w, CloseArrBytes(pad))
    requires Stored(mid, after, o + 2, Bytes16((w + 5 - o) % 0x1_0000) + Bytes16(count % 0x1_0000))
    ensures after[..w + 5] == Patched(before[..w], o, Bytes16((w + 5 - o) % 0x1_0000) + Bytes16(count % 0x1_0000),
                                      CloseArrBytes(pad))
    ensures ArrayFinished(before[..w], after[..w + 5], o, count) && Untouched(before, after, w + 5)
  {
    StoredUntouched(before, mid, w, CloseArrBytes(pad), w + 5);
    StoredUntouched(mid, after, o + 2, Bytes16((w + 5 - o) % 0x1_0000) + Bytes16(count % 0x1_0000), w + 5);
    PatchedByParts(before, mid, after, w, o, Bytes16((w + 5 - o) % 0x1_0000) + Bytes16(count % 0x1_0000),
                   CloseArrBytes(pad));
    ArrayPatched(before[..w], o, count, pad);
  }

  lemma PatchedOpen(below: seq<Byte>, f: Frame, unwritten: seq<Byte>, fields: seq<Byte>, mark: seq<Byte>)
    requires |fields| == |unwritten|
    ensures Patched(below + OpenBytes(f, unwritten), |below|, fields, mark)
         == below + (Header(OpenType(f), f.key) + fields + EncodeAll(f.kids) + mark)
  {
    var h, e := Header(OpenType(f), f.key), EncodeAll(f.kids);
    var bytes := below + (h + unwritten + e);
    assert bytes[..|below| + 2] == below + h;
    assert bytes[|below| + 2 + |fields|..] == e;
    Associate(below, h, fields);
    Associate(below, h + fields, e);
    Associate(below, h + fields + e, mark);
  }

  /** Patching the header and appending the mark turns an open map into an item. */
  lemma LaidCloseMap(w: Writer, offs: seq<int>, bytes: seq<Byte>, pad: Byte)
    requires w.open != [] && w.open[|w.open| - 1].isMap
    requires |w.open| <= |offs| && Laid(w.top, w.open, offs, bytes)
    ensures var n := |w.open| - 1;
      var f, o := w.open[n], offs[n];
      var w' := w.Pop().Put(Map(f.key, f.kids, pad));
      && 0 <= o && o + 4 <= |bytes|
      && Laid(w'.top, w'.open, offs, Patched(bytes, o, Bytes16((|bytes| + 2 - o) % 0x1_0000), CloseMapBytes(pad)))
  {
    var n := |w.open| - 1;
    var outer, f := w.open[..n], w.open[n];
    assert w.open == outer + [f];
    var below, unwritten := LaidWithout(w.top, outer, f, offs, bytes);
    PatchedOpen(below, f, unwritten, Bytes16((|bytes| + 2 - |below|) % 0x1_0000), CloseMapBytes(pad));
    assert |bytes| + 2 - |below| == |EncodeAll(f.kids)| + 6;
    LaidPut(w.Pop(), offs, below, Map(f.key, f.kids, pad));
  }

  lemma LaidCloseArr(w: Writer, offs: seq<int>, bytes: seq<Byte>, pad: Byte, count: U16)
    requires w.open != [] && !w.open[|w.open| - 1].isMap
    requires |w.open| <= |offs| && Laid(w.top, w.open, offs, bytes)
    ensures var n := |w.open| - 1;
      var f, o := w.open[n], offs[n];
      var w' := w.Pop().Put(Arr(f.key, count, f.kids, pad));
      && 0 <= o && o + 6 <= |bytes|
      && Laid(w'.top, w'.open, offs,
              Patched(bytes, o, Bytes16((|bytes| + 5 - o) % 0x1_0000) + Bytes16(count), CloseArrBytes(pad)))
  {
    var n := |w.open| - 1;
    var outer, f := w.open[..n], w.open[n];
    assert w.open == outer + [f];
    var below, unwritten := LaidWithout(w.top, outer, f, offs, bytes);
    var fields := Bytes16((|bytes| + 5 - |below|) % 0x1_0000) + Bytes16(count);
    PatchedOpen(below, f, unwritten, fields, CloseArrBytes(pad));
    assert |bytes| + 5 - |below| == |EncodeAll(f.kids)| + 11;
    LaidPut(w.Pop(), offs, below, Arr(f.key, count, f.kids, pad));
  }

  /** The handle's fields agree with the containers of `w`. */
  ghost predicate Agrees(w: Writer, state: State, counts: seq<int>, deepOffset: int, deepValue: seq<char>,
                         mapOffset: seq<int>) {
    && Inv(w) && state == w.state && counts == w.counts && deepOffset == |w.open| - 1
    && |deepValue| == MAX_DEPTH && |mapOffset| == MAX_DEPTH
    && forall i | 0 <= i < |w.open| :: deepValue[i] == if w.open[i].isMap then MAP_KEY else ARRAY_KEY
  }

  lemma AgreesAdd(w: Writer, state: State, counts: seq<int>, d: int, dv: seq<char>, mo: seq<int>, op: Op)
    requires Agrees(w, state, counts, d, dv, mo) && Accepts(w, op) && (op.Add? || op.AddElement?)
    ensures 0 <= d < |counts|
    ensures Agrees(Apply(w, op), state,
                   if op.AddElement? && !op.v.Int64? then counts[d := counts[d] + 1] else counts, d, dv, mo)
  {
    ApplyKeepsInv(w, op);
  }

  lemma AgreesOpen(w: Writer, state: State, counts: seq<int>, d: int, dv: seq<char>, mo: seq<int>, op: Op, o: int)
    requires Agrees(w, state, counts, d, dv, mo) && Accepts(w, op) && Opens(op) && d < MAX_DEPTH - 1
    ensures -1 <= d
    ensures Agrees(Apply(w, op), if op.OpenMap? then STATE_IN_MAP else STATE_IN_ARRAY, counts, d + 1,
                   dv[d + 1 := if op.OpenMap? then MAP_KEY else ARRAY_KEY], mo[d + 1 := o])
  {
    ApplyKeepsInv(w, op);
  }

  lemma AgreesClose(w: Writer, state: State, counts: seq<int>, d: int, dv: seq<char>, mo: seq<int>, op: Op)
    requires Agrees(w, state, counts, d, dv, mo) && Accepts(w, op) && (op.CloseMap? || op.CloseArr?)
    ensures if op.CloseMap? then 0 <= d else 1 <= d
    ensures w.open[d].isMap <==> op.CloseMap?
    ensures var state' := if d == 0 then STATE_TERM else if dv[d - 1] == MAP_KEY then STATE_IN_MAP else STATE_IN_ARRAY;
      Agrees(Apply(w, op), state', counts, d - 1, if op.CloseMap? then dv else dv[d := '\0'], mo)
  {
    ApplyKeepsInv(w, op);
    var w1 := w.Pop();
    if w1.open != [] {
      assert w1.open[|w1.open| - 1] == w.open[d - 1];
    }
  }

  /** A handle with these fields and this buffer has written `w`. */
  ghost predicate Refines(w: Writer, state: State, counts: seq<int>, d: int, dv: seq<char>, mo: seq<int>,
                          bytes: seq<Byte>) {
    Agrees(w, state, counts, d, dv, mo) && Laid(w.top, w.open, mo, bytes)
  }

  lemma AddRefines(w: Writer, state: State, counts: seq<int>, d: int, dv: seq<char>, mo: seq<int>,
                   bytes: seq<Byte>, op: Op)
    requires Refines(w, state, counts, d, dv, mo, bytes) && Accepts(w, op) && (op.Add? || op.AddElement?)
    ensures 0 <= d < |counts|
    ensures Refines(Apply(w, op), state,
                    if op.AddElement? && !op.v.Int64? then counts[d := counts[d] + 1] else counts, d, dv, mo,
                    bytes + Encode(Leaf(if op.Add? then op.key else BKV_ARRAY_KEY, op.v)))
  {
    AgreesAdd(w, state, counts, d, dv, mo, op);
    LaidPut(w, mo, bytes, Leaf(if op.Add? then op.key else BKV_ARRAY_KEY, op.v));
  }

  /** The counters after an element has been added at depth `d`. */
  function CountsWith(counts: seq<int>, d: int, v: Scalar): seq<int>
    requires 0 <= d < |counts|
  {
    if v.Int64? then counts else counts[d := counts[d] + 1]
  }

  lemma ElementRefines(w: Writer, state: State, counts: seq<int>, d: int, dv: seq<char>, mo: seq<int>,
                       bytes: seq<Byte>, v: Scalar)
    requires Refines(w, state, counts, d, dv, mo, bytes) && Accepts(w, AddElement(v))
    ensures 0 <= d < |counts|
    ensures Refines(Apply(w, AddElement(v)), state, CountsWith(counts, d, v), d, dv, mo,
                    bytes + Encode(Leaf(BKV_ARRAY_KEY, v)))
  {
    AddRefines(w, state, counts, d, dv, mo, bytes, AddElement(v));
  }

  lemma OpenRefines(w: Writer, state: State, counts: seq<int>, d: int, dv: seq<char>, mo: seq<int>, bytes: seq<Byte>,
                    op: Op, unwritten: seq<Byte>)
    requires Refines(w, state, counts, d, dv, mo, bytes) && Accepts(w, op) && Opens(op) && d < MAX_DEPTH - 1
    requires |unwritten| == if op.OpenMap? then 2 else 4
    ensures -1 <= d
    ensures Refines(Apply(w, op), if op.OpenMap? then STATE_IN_MAP else STATE_IN_ARRAY, counts, d + 1,
                    dv[d + 1 := if op.OpenMap? then MAP_KEY else ARRAY_KEY], mo[d + 1 := |bytes|],
                    bytes
                    + (if op.OpenMap? then Header(HDR_TYPE_MAP_OPEN, op.mapKey)
                       else Header(HDR_TYPE_ARRAY_OPEN, op.arrKey))
                    + unwritten)
  {
    AgreesOpen(w, state, counts, d, dv, mo, op, |bytes|);
    LaidOpen(w, mo, bytes, if op.OpenMap? then Frame(true, op.mapKey, []) else Frame(false, op.arrKey, []), unwritten);
  }

  lemma MapOpenRefines(w: Writer, state: State, counts: seq<int>, d: int, dv: seq<char>, mo: seq<int>,
                       bytes: seq<Byte>, o: int, key: U16, unwritten: seq<Byte>)
    requires Refines(w, state, counts, d, dv, mo, bytes) && Accepts(w, OpenMap(key)) && d < MAX_DEPTH - 1
    requires |unwritten| == 2 && o == |bytes|
    ensures -1 <= d
    ensures Refines(Apply(w, OpenMap(key)), STATE_IN_MAP, counts, d + 1, dv[d + 1 := MAP_KEY], mo[d + 1 := o],
                    bytes + Header(HDR_TYPE_MAP_OPEN, key) + unwritten)
  {
    OpenRefines(w, state, counts, d, dv, mo, bytes, OpenMap(key), unwritten);
  }

  lemma ArrayOpenRefines(w: Writer, state: State, counts: seq<int>, d: int, dv: seq<char>, mo: seq<int>,
                         bytes: seq<Byte>, o: int, key: U16, unwritten: seq<Byte>)
    requires Refines(w, state, counts, d, dv, mo, bytes) && Accepts(w, OpenArr(key)) && d < MAX_DEPTH - 1
    requires |unwritten| == 4 && o == |bytes|
    ensures -1 <= d
    ensures Refines(Apply(w, OpenArr(key)), STATE_IN_ARRAY, counts, d + 1, dv[d + 1 := ARRAY_KEY], mo[d + 1 := o],
                    bytes + Header(HDR_TYPE_ARRAY_OPEN, key) + unwritten)
  {
    OpenRefines(w, state, counts, d, dv, mo, bytes, OpenArr(key), unwritten);
  }

  /** The state a handle goes to when the container at depth `d` closes. */
  function ClosedState(d: int, dv: seq<char>): State
    requires 0 <= d <= |dv|
  {
    if d == 0 then STATE_TERM else if dv[d - 1] == MAP_KEY then STATE_IN_MAP else STATE_IN_ARRAY
  }

  lemma CloseMapRefines(w: Writer, state: State, counts: seq<int>, d: int, dv: seq<char>, mo: seq<int>,
                        bytes: seq<Byte>, pad: Byte)
    requires Refines(w, state, counts, d, dv, mo, bytes) && Accepts(w, CloseMap(pad))
    ensures 0 <= d < |mo| == |dv| && 0 <= mo[d] && mo[d] + 4 <= |bytes|
    ensures Refines(Apply(w, CloseMap(pad)), ClosedState(d, dv), counts, d - 1, dv, mo,
                    Patched(bytes, mo[d], Bytes16((|bytes| + 2 - mo[d]) % 0x1_0000), CloseMapBytes(pad)))
  {
    AgreesClose(w, state, counts, d, dv, mo, CloseMap(pad));
    LaidCloseMap(w, mo, bytes, pad);
  }

  lemma CloseArrRefines(w: Writer, state: State, counts: seq<int>, d: int, dv: seq<char>, mo: seq<int>,
                        bytes: seq<Byte>, pad: Byte)
    requires Refines(w, state, counts, d, dv, mo, bytes) && Accepts(w, CloseArr(pad))
    ensures 1 <= d < |mo| == |dv| == |counts| && 0 <= mo[d] && mo[d] + 6 <= |bytes|
    ensures Refines(Apply(w, CloseArr(pad)), ClosedState(d, dv), counts, d - 1, dv[d := '\0'], mo,
                    Patched(bytes, mo[d], Bytes16((|bytes| + 5 - mo[d]) % 0x1_0000) + Bytes16(counts[d] % 0x1_0000),
                            CloseArrBytes(pad)))
  {
    AgreesClose(w, state, counts, d, dv, mo, CloseArr(pad));
    LaidCloseArr(w, mo, bytes, pad, counts[d] % 0x1_0000);
  }

  lemma {:induction false} LaidPutAll(w: Writer, offs: seq<int>, bytes: seq<Byte>, items: seq<Item>)
    requires |w.open| <= |offs| && Laid(w.top, w.open, offs, bytes)
    ensures var w' := w.PutAll(items);
      |w'.open| == |w.open| && Laid(w'.top, w'.open, offs, bytes + EncodeAll(items))
    decreases items
  {
    if items == [] {
      assert bytes + [] == bytes;
    } else {
      LaidPut(w, offs, bytes, items[0]);
      LaidPutAll(w.Put(items[0]), offs, bytes + Encode(items[0]), items[1..]);
      Associate(bytes, Encode(items[0]), EncodeAll(items[1..]));
    }
  }

  lemma {:induction false} PutAllKeeps(w: Writer, items: seq<Item>)
    requires Inv(w)
    ensures var w' := w.PutAll(items);
      && Inv(w') && w'.state == w.state && w'.counts == w.counts && |w'.open| == |w.open|
      && forall i | 0 <= i < |w.open| :: w'.open[i].isMap == w.open[i].isMap
    decreases items
  {
    if items != [] {
      PutKeepsKinds(w, items[0]);
      PutAllKeeps(w.Put(items[0]), items[1..]);
    }
  }

  /** Copying the bytes of a handle with nothing open puts its items into the container being written. */
  lemma AppendRefines(w: Writer, state: State, counts: seq<int>, d: int, dv: seq<char>, mo: seq<int>, bytes: seq<Byte>,
                      other: Writer, more: seq<Byte>)
    requires Refines(w, state, counts, d, dv, mo, bytes) && other.open == [] && more == EncodeAll(other.top)
    ensures Refines(w.PutAll(other.top), state, counts, d, dv, mo, bytes + more)
  {
    PutAllKeeps(w, other.top);
    LaidPutAll(w, mo, bytes, other.top);
  }

  /** The answer to a call, and its effect: none at all when it is refused. */
  ghost predicate Answer(w: Writer, w': Writer, op: Op, r: int)
    requires Inv(w)
  {
    if Accepts(w, op) then r == BKV_OK && w' == Apply(w, op)
    else (r == if op.Add? && op.key > 0xFFF then BKV_KEY_OUT_OF_RANGE else BKV_HDL_INV) && w' == w
  }

  /** An element is counted at its depth, unless it is a 64-bit integer. */
  predicate CountedOnce(counts: seq<int>, counts': seq<int>, d: int, v: Scalar) {
    && 0 <= d < |counts| == |counts'|
    && counts'[d] == (match v case Int64(_) => counts[d] case _ => counts[d] + 1)
    && forall e | 0 <= e < |counts| && e != d :: counts'[e] == counts[e]
  }

  lemma CountsWithOnce(counts: seq<int>, d: int, v: Scalar)
    requires 0 <= d < |counts|
    ensures CountedOnce(counts, CountsWith(counts, d, v), d, v)
  {
  }

  class Bkv {
    var state: State
    var ptr: array<Byte>
    var writeOffset: nat
    var deepOffset: int
    var deepValue: seq<char>
    var mapOffset: seq<int>
    var arrayNbElems: seq<int>
    ghost var written: Writer

    ghost predicate Valid()
      reads this, ptr
    {
      && writeOffset <= ptr.Length
      && Refines(written, state, arrayNbElems, deepOffset, deepValue, mapOffset, ptr[..writeOffset])
    }

    constructor (size: nat)
      ensures Valid() && fresh(ptr) && ptr.Length == size && writeOffset == 0
      ensures written == Start() && forall j | 0 <= j < size :: ptr[j] == 0
    {
      state := STATE_INIT;
      ptr := new Byte[size](_ => 0);
      writeOffset := 0;
      deepOffset := -1;
      deepValue := seq(MAX_DEPTH, _ => '\0');
      mapOffset := seq(MAX_DEPTH, _ => 0);
      arrayNbElems := seq(MAX_DEPTH, _ => 0);
      written := Start();
    }

    /** The innermost container's mark, as bkv_check_state is given it. */
    function Mark(): char
      reads this
      requires -1 <= deepOffset < |deepValue|
    {
      if deepOffset == -1 then '\0' else deepValue[deepOffset]
    }

    /** The handle knows the state and the innermost container. */
    lemma KnowsState()
      requires Valid()
      ensures -1 <= deepOffset < |deepValue| && Inv(written)
      ensures state == written.state && Mark() == written.TopMark()
    {
    }

    /** The bytes of a value, after everything written so far. */
    method WriteValue(v: Scalar)
      requires writeOffset + |ScalarBytes(v)| <= ptr.Length
      modifies this`writeOffset, ptr
      ensures writeOffset == old(writeOffset) + |ScalarBytes(v)|
      ensures Stored(old(ptr[..]), ptr[..], old(writeOffset), ScalarBytes(v))
    {
      match v {
        case Int16(n) =>
          CpuToLe16(n, ptr, writeOffset);
          writeOffset := writeOffset + 2;
        case Int32(n) =>
          CpuToLe32(n, ptr, writeOffset);
          writeOffset := writeOffset + 4;
        case Int64(n) =>
          CpuToLeU64(n, ptr, writeOffset);
          writeOffset := writeOffset + 8;
        case Float(n) =>
          CpuToLef(n, ptr, writeOffset);
          writeOffset := writeOffset + 4;
        case Boolean(b) =>
          ptr[writeOffset] := if b then 1 else 0;
          writeOffset := writeOffset + 1;
        case Str(s) =>
          WriteString(s);
      }
    }

    /** A string's length, cut to sixteen bits, and its bytes. */
    method WriteString(s: seq<Byte>)
      requires writeOffset + 2 + |s| <= ptr.Length
      modifies this`writeOffset, ptr
      ensures writeOffset == old(writeOffset) + 2 + |s|
      ensures Stored(old(ptr[..]), ptr[..], old(writeOffset), Bytes16(|s| % 0x1_0000) + s)
    {
      ghost var o, before := writeOffset, ptr[..];
      CpuToLe16(|s| % 0x1_0000, ptr, writeOffset);
      writeOffset := writeOffset + 2;
      ghost var mid := ptr[..];
      Copy(s);
      StoredTwice(before, mid, ptr[..], o, Bytes16(|s| % 0x1_0000), s);
    }

    /** The memcpy of a string or of another handle's buffer. */
    method Copy(s: seq<Byte>)
      requires writeOffset + |s| <= ptr.Length
      modifies this`writeOffset, ptr
      ensures writeOffset == old(writeOffset) + |s|
      ensures Stored(old(ptr[..]), ptr[..], old(writeOffset), s)
    {
      forall i | 0 <= i < |s| {
        ptr[writeOffset + i] := s[i];
      }
      writeOffset := writeOffset + |s|;
    }

    /** Header and value of a scalar, after everything written so far. */
    method WriteScalar(key: U16, v: Scalar)
      requires writeOffset + 2 + |ScalarBytes(v)| <= ptr.Length
      modifies this`writeOffset, ptr
      ensures writeOffset == old(writeOffset) + 2 + |ScalarBytes(v)|
      ensures ptr[..writeOffset] == old(ptr[..writeOffset]) + Encode(Leaf(key, v))
      ensures key <= 0xFFF ==> Appended(old(ptr[..writeOffset]), ptr[..writeOffset], key, v)
      ensures Untouched(old(ptr[..]), ptr[..], writeOffset)
    {
      ghost var o, before := writeOffset, ptr[..];
      if key <= 0xFFF {
        LeafAppended(before[..o], key, v);
      }
      SetKey(ScalarType(v), key, ptr, writeOffset);
      StoredPrefix(before, ptr[..], o, Header(ScalarType(v), key));
      writeOffset := writeOffset + 2;
      ghost var mid := ptr[..];
      WriteValue(v);
      StoredPrefix(mid, ptr[..], o + 2, ScalarBytes(v));
      StoredUntouched(before, mid, o, Header(ScalarType(v), key), o + 2);
      StoredUntouched(mid, ptr[..], o + 2, ScalarBytes(v), writeOffset);
      UntouchedOn(before, mid, ptr[..], o + 2, writeOffset);
      Associate(before[..o], Header(ScalarType(v), key), ScalarBytes(v));
    }

    /** A container's header; the `n` bytes of its fields are left as they are. */
    method WriteOpen(hdrType: Nibble, key: U16, n: nat) returns (ghost unwritten: seq<Byte>)
      requires writeOffset + 2 + n <= ptr.Length
      modifies this`writeOffset, ptr
      ensures writeOffset == old(writeOffset) + 2 + n && unwritten == old(ptr[writeOffset + 2..writeOffset + 2 + n])
      ensures ptr[..writeOffset] == old(ptr[..writeOffset]) + Header(hdrType, key) + unwritten
      ensures key <= 0xFFF ==> Opened(old(ptr[..writeOffset]), ptr[..writeOffset], hdrType * 0x10, key, n)
      ensures Untouched(old(ptr[..]), ptr[..], writeOffset)
    {
      ghost var o, before := writeOffset, ptr[..];
      if key <= 0xFFF {
        HeaderOpened(before[..o], hdrType, key, before[o + 2..o + 2 + n]);
      }
      SetKey(hdrType, key, ptr, writeOffset);
      StoredPrefix(before, ptr[..], o, Header(hdrType, key));
      StoredUntouched(before, ptr[..], o, Header(hdrType, key), o + 2 + n);
      writeOffset := writeOffset + 2;
      writeOffset := writeOffset + n;
      unwritten := ptr[o + 2..writeOffset];
      assert ptr[..writeOffset] == ptr[..o + 2] + unwritten;
    }

    /** A map's closing mark, and its length into the header at `o`. */
    method WriteMapMark(o: nat) returns (ghost pad: Byte)
      requires o + 4 <= writeOffset && writeOffset + 2 <= ptr.Length
      modifies this`writeOffset, ptr
      ensures writeOffset == old(writeOffset) + 2 && pad == old(ptr[writeOffset + 1])
      ensures ptr[..writeOffset] == Patched(old(ptr[..writeOffset]), o,
                Bytes16((writeOffset - o) % 0x1_0000), CloseMapBytes(pad))
      ensures MapFinished(old(ptr[..writeOffset]), ptr[..writeOffset], o)
      ensures Untouched(old(ptr[..]), ptr[..], writeOffset)
    {
      ghost var w, before := writeOffset, ptr[..];
      pad := WriteMapEnd();
      ghost var mid := ptr[..];
      var mapLength := (writeOffset - o) % 0x1_0000;
      CpuToLe16(mapLength, ptr, o + 2);
      MapMarked(before, mid, ptr[..], w, o, pad);
    }

    method WriteMapEnd() returns (ghost pad: Byte)
      requires writeOffset + 2 <= ptr.Length
      modifies this`writeOffset, ptr
      ensures writeOffset == old(writeOffset) + 2 && pad == old(ptr[writeOffset + 1])
      ensures Stored(old(ptr[..]), ptr[..], old(writeOffset), CloseMapBytes(pad))
    {
      pad := ptr[writeOffset + 1];
      ptr[writeOffset] := HDR_TYPE_MAP_CLOSE * 0x10;
      writeOffset := writeOffset + 2;
    }

    /** An array's closing mark, and its element count and length into the header at `o`. */
    method WriteArrMark(o: nat, count: int) returns (ghost pad: Byte)
      requires o + 6 <= writeOffset && writeOffset + 5 <= ptr.Length
      modifies this`writeOffset, ptr
      ensures writeOffset == old(writeOffset) + 5 && pad == old(ptr[writeOffset + 1])
      ensures ptr[..writeOffset] == Patched(old(ptr[..writeOffset]), o,
                Bytes16((writeOffset - o) % 0x1_0000) + Bytes16(count % 0x1_0000), CloseArrBytes(pad))
      ensures ArrayFinished(old(ptr[..writeOffset]), ptr[..writeOffset], o, count)
      ensures Untouched(old(ptr[..]), ptr[..], writeOffset)
    {
      ghost var w, before := writeOffset, ptr[..];
      pad := WriteArrEnd();
      ghost var mid := ptr[..];
      WriteArrFields(o + 2, (writeOffset - o) % 0x1_0000, count % 0x1_0000);
      ArrayMarked(before, mid, ptr[..], w, o, count, pad);
      assert ptr[..][..w + 5] == ptr[..writeOffset];
    }

    method WriteArrEnd() returns (ghost pad: Byte)
      requires writeOffset + 5 <= ptr.Length
      modifies this`writeOffset, ptr
      ensures writeOffset == old(writeOffset) + 5 && pad == old(ptr[writeOffset + 1])
      ensures Stored(old(ptr[..]), ptr[..], old(writeOffset), CloseArrBytes(pad))
    {
      pad := ptr[writeOffset + 1];
      ptr[writeOffset] := HDR_TYPE_ARRAY_CLOSE * 0x10;
      writeOffset := writeOffset + 2;
      ptr[writeOffset] := 0xEE;
      ptr[writeOffset + 1] := 0xEE;
      ptr[writeOffset + 2] := 0xEE;
      writeOffset := writeOffset + 3;
    }

    /** The count first, and the length in front of it. */
    method WriteArrFields(at: nat, mapLength: U16, count: U16)
      requires at + 4 <= ptr.Length
      modifies ptr
      ensures Stored(old(ptr[..]), ptr[..], at, Bytes16(mapLength) + Bytes16(count))
    {
      ghost var before := ptr[..];
      CpuToLe16(count, ptr, at + 2);
      ghost var mid := ptr[..];
      CpuToLe16(mapLength, ptr, at);
      StoredBefore(before, mid, ptr[..], at, Bytes16(mapLength), Bytes16(count));
    }

    /** bkv_kv_u16_add, _u32_add, _u64_add, _float_add, _boolean_add and _str_add. */
    method KvAdd(key: U16, v: Scalar) returns (r: int)
      requires Valid() && writeOffset + 2 + |ScalarBytes(v)| <= ptr.Length
      modifies this, ptr
      ensures Valid() && ptr == old(ptr)
      ensures Answer(old(written), written, Add(key, v), r)
      ensures writeOffset == old(writeOffset) + if r == BKV_OK then 2 + |ScalarBytes(v)| else 0
      ensures Untouched(old(ptr[..]), ptr[..], writeOffset)
      ensures r == 1 ==>
        && Appended(old(ptr[..writeOffset]), ptr[..writeOffset], key, v)
        && mapOffset == old(mapOffset) && deepOffset == old(deepOffset) && arrayNbElems == old(arrayNbElems)
      ensures r != BKV_OK ==> unchanged(this, ptr)
    {
      if key > 0xFFF {
        return BKV_KEY_OUT_OF_RANGE;
      }
      KnowsState();
      if !CheckState(state, Mark(), SET_KEY) {
        return BKV_HDL_INV;
      }
      ghost var w := Apply(written, Add(key, v));
      AddRefines(written, state, arrayNbElems, deepOffset, deepValue, mapOffset, ptr[..writeOffset], Add(key, v));
      WriteScalar(key, v);
      Adopt(w);
      r := BKV_OK;
    }

    /** bkv_kv_array_u16_add, _u64_add, _float_add, _boolean_add and _str_add. */
    method KvArrayAdd(v: Scalar) returns (r: int)
      requires Valid() && writeOffset + 2 + |ScalarBytes(v)| <= ptr.Length && !v.Int32?
      modifies this, ptr
      ensures Valid() && ptr == old(ptr)
      ensures Answer(old(written), written, AddElement(v), r)
      ensures writeOffset == old(writeOffset) + if r == BKV_OK then 2 + |ScalarBytes(v)| else 0
      ensures Untouched(old(ptr[..]), ptr[..], writeOffset)
      ensures r == 1 ==>
        && Appended(old(ptr[..writeOffset]), ptr[..writeOffset], 0xFFD, v)
        && mapOffset == old(mapOffset) && deepOffset == old(deepOffset)
        && CountedOnce(old(arrayNbElems), arrayNbElems, deepOffset, v)
      ensures r != BKV_OK ==> unchanged(this, ptr)
    {
      KnowsState();
      if !CheckState(state, Mark(), SET_ARRAY_KEY) {
        return BKV_HDL_INV;
      }
      ElementRefines(written, state, arrayNbElems, deepOffset, deepValue, mapOffset, ptr[..writeOffset], v);
      PutElement(Apply(written, AddElement(v)), v);
      r := BKV_OK;
    }

    /** The element goes to the end, and is counted unless it is a 64-bit integer. */
    method PutElement(ghost w: Writer, v: Scalar)
      requires 0 <= deepOffset < |arrayNbElems| && writeOffset + 2 + |ScalarBytes(v)| <= ptr.Length
      requires Refines(w, state, CountsWith(arrayNbElems, deepOffset, v), deepOffset, deepValue, mapOffset,
                       ptr[..writeOffset] + Encode(Leaf(BKV_ARRAY_KEY, v)))
      modifies this`writeOffset, this`arrayNbElems, this`written, ptr
      ensures Valid() && written == w && writeOffset == old(writeOffset) + 2 + |ScalarBytes(v)|
      ensures Untouched(old(ptr[..]), ptr[..], writeOffset)
      ensures Appended(old(ptr[..writeOffset]), ptr[..writeOffset], 0xFFD, v)
      ensures CountedOnce(old(arrayNbElems), arrayNbElems, deepOffset, v)
    {
      CountsWithOnce(arrayNbElems, deepOffset, v);
      WriteScalar(BKV_ARRAY_KEY, v);
      if !v.Int64? {
        arrayNbElems := arrayNbElems[deepOffset := arrayNbElems[deepOffset] + 1];
      }
      Adopt(w);
    }

    method KvMapOpen(key: U16) returns (r: int)
      requires Valid() && writeOffset + 4 <= ptr.Length && deepOffset < MAX_DEPTH - 1
      modifies this, ptr
      ensures Valid() && ptr == old(ptr)
      ensures Answer(old(written), written, OpenMap(key), r)
      ensures writeOffset == old(writeOffset) + if r == BKV_OK then 4 else 0
      ensures Untouched(old(ptr[..]), ptr[..], writeOffset)
      ensures r == 1 ==>
        && deepOffset == old(deepOffset) + 1 && mapOffset == old(mapOffset)[deepOffset := old(writeOffset)]
        && arrayNbElems == old(arrayNbElems)
        && (key <= 0xFFF ==> Opened(old(ptr[..writeOffset]), ptr[..writeOffset], 0x10, key, 2))
      ensures r != BKV_OK ==> unchanged(this, ptr)
    {
      KnowsState();
      if !CheckState(state, Mark(), OPEN_MAP) {
        return BKV_HDL_INV;
      }
      MapOpenRefines(written, state, arrayNbElems, deepOffset, deepValue, mapOffset, ptr[..writeOffset],
                   writeOffset, key, ptr[writeOffset + 2..writeOffset + 4]);
      StartMap(Apply(written, OpenMap(key)), key);
      r := BKV_OK;
    }

    /** The header of a new map goes to the end, and its offset onto the stack. */
    method StartMap(ghost w: Writer, key: U16)
      requires -1 <= deepOffset < MAX_DEPTH - 1 && |deepValue| == |mapOffset| == MAX_DEPTH
      requires writeOffset + 4 <= ptr.Length
      requires Refines(w, STATE_IN_MAP, arrayNbElems, deepOffset + 1, deepValue[deepOffset + 1 := MAP_KEY],
                       mapOffset[deepOffset + 1 := writeOffset],
                       ptr[..writeOffset] + Header(HDR_TYPE_MAP_OPEN, key) + ptr[writeOffset + 2..writeOffset + 4])
      modifies this`writeOffset, this`deepOffset, this`deepValue, this`mapOffset, this`state, this`written, ptr
      ensures Valid() && written == w && writeOffset == old(writeOffset) + 4
      ensures Untouched(old(ptr[..]), ptr[..], writeOffset)
      ensures deepOffset == old(deepOffset) + 1 && mapOffset == old(mapOffset)[deepOffset := old(writeOffset)]
      ensures key <= 0xFFF ==> Opened(old(ptr[..writeOffset]), ptr[..writeOffset], 0x10, key, 2)
    {
      mapOffset := mapOffset[deepOffset + 1 := writeOffset];
      ghost var unwritten := WriteOpen(HDR_TYPE_MAP_OPEN, key, 2);
      deepOffset := deepOffset + 1;
      deepValue := deepValue[deepOffset := MAP_KEY];
      state := STATE_IN_MAP;
      Adopt(w);
    }

    method KvArrayOpen(key: U16) returns (r: int)
      requires Valid() && writeOffset + 6 <= ptr.Length && deepOffset < MAX_DEPTH - 1
      modifies this, ptr
      ensures Valid() && ptr == old(ptr)
      ensures Answer(old(written), written, OpenArr(key), r)
      ensures writeOffset == old(writeOffset) + if r == BKV_OK then 6 else 0
      ensures Untouched(old(ptr[..]), ptr[..], writeOffset)
      ensures r == 1 ==>
        && deepOffset == old(deepOffset) + 1 && mapOffset == old(mapOffset)[deepOffset := old(writeOffset)]
        && arrayNbElems == old(arrayNbElems)
        && (key <= 0xFFF ==> Opened(old(ptr[..writeOffset]), ptr[..writeOffset], 0x30, key, 4))
      ensures r != BKV_OK ==> unchanged(this, ptr)
    {
      KnowsState();
      if !CheckState(state, Mark(), OPEN_ARRAY) {
        return BKV_HDL_INV;
      }
      ArrayOpenRefines(written, state, arrayNbElems, deepOffset, deepValue, mapOffset, ptr[..writeOffset],
                     writeOffset, key, ptr[writeOffset + 2..writeOffset + 6]);
      StartArray(Apply(written, OpenArr(key)), key);
      r := BKV_OK;
    }

    /** The header of a new array goes to the end, and its offset onto the stack. */
    method StartArray(ghost w: Writer, key: U16)
      requires -1 <= deepOffset < MAX_DEPTH - 1 && |deepValue| == |mapOffset| == MAX_DEPTH
      requires writeOffset + 6 <= ptr.Length
      requires Refines(w, STATE_IN_ARRAY, arrayNbElems, deepOffset + 1, deepValue[deepOffset + 1 := ARRAY_KEY],
                       mapOffset[deepOffset + 1 := writeOffset],
                       ptr[..writeOffset] + Header(HDR_TYPE_ARRAY_OPEN, key) + ptr[writeOffset + 2..writeOffset + 6])
      modifies this`writeOffset, this`deepOffset, this`deepValue, this`mapOffset, this`state, this`written, ptr
      ensures Valid() && written == w && writeOffset == old(writeOffset) + 6
      ensures Untouched(old(ptr[..]), ptr[..], writeOffset)
      ensures deepOffset == old(deepOffset) + 1 && mapOffset == old(mapOffset)[deepOffset := old(writeOffset)]
      ensures key <= 0xFFF ==> Opened(old(ptr[..writeOffset]), ptr[..writeOffset], 0x30, key, 4)
    {
      mapOffset := mapOffset[deepOffset + 1 := writeOffset];
      ghost var unwritten := WriteOpen(HDR_TYPE_ARRAY_OPEN, key, 4);
      deepOffset := deepOffset + 1;
      deepValue := deepValue[deepOffset := ARRAY_KEY];
      state := STATE_IN_ARRAY;
      Adopt(w);
    }

    method KvMapClose() returns (r: int, ghost pad: Byte)
      requires Valid() && writeOffset + 2 <= ptr.Length
      modifies this, ptr
      ensures Valid() && ptr == old(ptr)
      ensures Answer(old(written), written, CloseMap(pad), r) && pad == old(ptr[writeOffset + 1])
      ensures writeOffset == old(writeOffset) + if r == BKV_OK then 2 else 0
      ensures Untouched(old(ptr[..]), ptr[..], writeOffset)
      ensures r == 1 ==>
        && 0 <= old(deepOffset) < |mapOffset| && deepOffset == old(deepOffset) - 1
        && mapOffset == old(mapOffset) && arrayNbElems == old(arrayNbElems)
        && MapFinished(old(ptr[..writeOffset]), ptr[..writeOffset], mapOffset[old(deepOffset)])
      ensures r != BKV_OK ==> unchanged(this, ptr)
    {
      pad := ptr[writeOffset + 1];
      KnowsState();
      if !CheckState(state, Mark(), CLOSE_MAP) {
        return BKV_HDL_INV, pad;
      }
      CloseMapRefines(written, state, arrayNbElems, deepOffset, deepValue, mapOffset, ptr[..writeOffset], pad);
      FinishMap(Apply(written, CloseMap(pad)), pad);
      r := BKV_OK;
    }

    /** The map at `deepOffset` gets its mark and its length; back to what is around it. */
    method FinishMap(ghost w: Writer, ghost pad: Byte)
      requires 0 <= deepOffset < |deepValue| == |mapOffset|
      requires writeOffset + 2 <= ptr.Length && pad == ptr[writeOffset + 1]
      requires 0 <= mapOffset[deepOffset] && mapOffset[deepOffset] + 4 <= writeOffset
      requires Refines(w, ClosedState(deepOffset, deepValue), arrayNbElems, deepOffset - 1, deepValue, mapOffset,
                       Patched(ptr[..writeOffset], mapOffset[deepOffset],
                               Bytes16((writeOffset + 2 - mapOffset[deepOffset]) % 0x1_0000), CloseMapBytes(pad)))
      modifies this`writeOffset, this`deepOffset, this`state, this`written, ptr
      ensures Valid() && written == w && writeOffset == old(writeOffset) + 2 && deepOffset == old(deepOffset) - 1
      ensures Untouched(old(ptr[..]), ptr[..], writeOffset)
      ensures MapFinished(old(ptr[..writeOffset]), ptr[..writeOffset], mapOffset[old(deepOffset)])
    {
      ghost var p := WriteMapMark(mapOffset[deepOffset]);
      deepOffset := deepOffset - 1;
      if deepOffset == -1 {
        state := STATE_TERM;
      } else {
        state := if deepValue[deepOffset] == MAP_KEY then STATE_IN_MAP else STATE_IN_ARRAY;
      }
      Adopt(w);
    }

    method KvArrayClose() returns (r: int, ghost pad: Byte)
      requires Valid() && writeOffset + 5 <= ptr.Length
      modifies this, ptr
      ensures Valid() && ptr == old(ptr)
      ensures Answer(old(written), written, CloseArr(pad), r) && pad == old(ptr[writeOffset + 1])
      ensures writeOffset == old(writeOffset) + if r == BKV_OK then 5 else 0
      ensures Untouched(old(ptr[..]), ptr[..], writeOffset)
      ensures r == 1 ==>
        && 0 <= old(deepOffset) < |mapOffset| == |arrayNbElems| && deepOffset == old(deepOffset) - 1
        && mapOffset == old(mapOffset) && arrayNbElems == old(arrayNbElems)
        && ArrayFinished(old(ptr[..writeOffset]), ptr[..writeOffset], mapOffset[old(deepOffset)],
                         arrayNbElems[old(deepOffset)])
      ensures r != BKV_OK ==> unchanged(this, ptr)
    {
      pad := ptr[writeOffset + 1];
      KnowsState();
      if !CheckState(state, Mark(), CLOSE_ARRAY) {
        return BKV_HDL_INV, pad;
      }
      CloseArrRefines(written, state, arrayNbElems, deepOffset, deepValue, mapOffset, ptr[..writeOffset], pad);
      FinishArray(Apply(written, CloseArr(pad)), pad);
      r := BKV_OK;
    }

    /** The array at `deepOffset` gets its mark, its count and its length; a map is always around it. */
    method FinishArray(ghost w: Writer, ghost pad: Byte)
      requires 1 <= deepOffset < |deepValue| == |mapOffset| == |arrayNbElems|
      requires writeOffset + 5 <= ptr.Length && pad == ptr[writeOffset + 1]
      requires 0 <= mapOffset[deepOffset] && mapOffset[deepOffset] + 6 <= writeOffset
      requires Refines(w, ClosedState(deepOffset, deepValue), arrayNbElems, deepOffset - 1,
                       deepValue[deepOffset := '\0'], mapOffset,
                       Patched(ptr[..writeOffset], mapOffset[deepOffset],
                               Bytes16((writeOffset + 5 - mapOffset[deepOffset]) % 0x1_0000)
                               + Bytes16(arrayNbElems[deepOffset] % 0x1_0000), CloseArrBytes(pad)))
      modifies this`writeOffset, this`deepValue, this`deepOffset, this`state, this`written, ptr
      ensures Valid() && written == w && writeOffset == old(writeOffset) + 5 && deepOffset == old(deepOffset) - 1
      ensures Untouched(old(ptr[..]), ptr[..], writeOffset)
      ensures ArrayFinished(old(ptr[..writeOffset]), ptr[..writeOffset], mapOffset[old(deepOffset)],
                            arrayNbElems[old(deepOffset)])
    {
      ghost var p := WriteArrMark(mapOffset[deepOffset], arrayNbElems[deepOffset]);
      deepValue := deepValue[deepOffset := '\0'];
      deepOffset := deepOffset - 1;
      if deepOffset == -1 {
        assert false;
      } else {
        state := if deepValue[deepOffset] == MAP_KEY then STATE_IN_MAP else STATE_IN_ARRAY;
      }
      Adopt(w);
    }

    /** bkv_append: whatever the other handle holds, with no check of either state.
        A handle with nothing open contributes the items it has written. */
    method Append(a: Bkv) returns (r: int)
      requires Valid() && a.Valid() && writeOffset + a.writeOffset <= ptr.Length
      modifies this, ptr
      ensures r == BKV_OK && ptr == old(ptr) && writeOffset <= ptr.Length
      ensures ptr[..writeOffset] == old(ptr[..writeOffset]) + old(a.ptr[..a.writeOffset])
      ensures old(a.written).open == [] ==> Valid() && written == old(written).PutAll(old(a.written).top)
    {
      ghost var o, before, other := writeOffset, ptr[..], a.written;
      var bytes := a.ptr[..a.writeOffset];
      if other.open == [] {
        AppendRefines(written, state, arrayNbElems, deepOffset, deepValue, mapOffset, before[..o], other, bytes);
      }
      Copy(bytes);
      StoredPrefix(before, ptr[..], o, bytes);
      r := BKV_OK;
      if other.open == [] {
        Adopt(written.PutAll(other.top));
      }
    }

    /** Takes over fields and buffer that stand for `w`. */
    ghost method Adopt(w: Writer)
      requires writeOffset <= ptr.Length
      requires Refines(w, state, arrayNbElems, deepOffset, deepValue, mapOffset, ptr[..writeOffset])
      modifies this`written
      ensures Valid() && written == w
    {
      written := w;
    }
  }
}

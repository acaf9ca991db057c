/**
 The writer of `bkv/src/bkv.c` as a state machine on values: which calls it
 takes in which state, and the tree that has been written so far.
 */
module BkvMachine {
  import opened BkvBytes
  import opened BkvDocument

  datatype State = STATE_INIT | STATE_IN_MAP | STATE_KEY_SET | STATE_IN_ARRAY | STATE_TERM

  datatype Action = OPEN_MAP | CLOSE_MAP | OPEN_ARRAY | CLOSE_ARRAY | SET_ARRAY_KEY | SET_KEY | SET_VALUE

  const MAP_KEY := '{'
  const ARRAY_KEY := '['
  const BKV_ARRAY_KEY: Key := 0xFFD
  const MAX_DEPTH := 32

  /** True when the C function returns 0. */
  predicate CheckState(s: State, t: char, a: Action) {
    match s
    case STATE_INIT => a == OPEN_MAP
    case STATE_IN_MAP =>
      || (t == MAP_KEY && (a == SET_KEY || a == CLOSE_MAP || a == OPEN_MAP || a == OPEN_ARRAY))
      || (t == ARRAY_KEY && (a == OPEN_MAP || a == OPEN_ARRAY))
    case STATE_KEY_SET => false
    case STATE_IN_ARRAY => a == OPEN_MAP || a == SET_ARRAY_KEY || a == CLOSE_ARRAY
    case STATE_TERM => false
  }

  /** A container that is open, with what it holds so far. */
  datatype Frame = Frame(isMap: bool, key: U16, kids: seq<Item>)

  /** `top` is what stands outside every container, `open` the containers from the
      outermost, and `counts` the element counters, one for each depth. */
  datatype Writer = Writer(state: State, top: seq<Item>, open: seq<Frame>, counts: seq<int>)
  {
    function TopMark(): char {
      if open == [] then '\0' else if open[|open| - 1].isMap then MAP_KEY else ARRAY_KEY
    }

    /** A finished item goes into the innermost open container. */
    function Put(i: Item): Writer {
      if open == [] then this.(top := top + [i])
      else
        var n := |open| - 1;
        this.(open := open[n := open[n].(kids := open[n].kids + [i])])
    }

    function PutAll(items: seq<Item>): Writer
      decreases items
    {
      if items == [] then this else Put(items[0]).PutAll(items[1..])
    }

    function Pop(): Writer
      requires open != []
    {
      this.(open := open[..|open| - 1])
    }
  }

  datatype Op =
    | Add(key: U16, v: Scalar)
    | AddElement(v: Scalar)
    | OpenMap(mapKey: U16)
    | CloseMap(pad: Byte)
    | OpenArr(arrKey: U16)
    | CloseArr(pad: Byte)

  /** The call is answered with BKV_OK; no call adds a 32-bit integer to an array. */
  predicate Accepts(w: Writer, op: Op) {
    match op
    case Add(key, _) => key <= 0xFFF && CheckState(w.state, w.TopMark(), SET_KEY)
    case AddElement(v) => !v.Int32? && CheckState(w.state, w.TopMark(), SET_ARRAY_KEY)
    case OpenMap(_) => CheckState(w.state, w.TopMark(), OPEN_MAP)
    case CloseMap(_) => CheckState(w.state, w.TopMark(), CLOSE_MAP)
    case OpenArr(_) => CheckState(w.state, w.TopMark(), OPEN_ARRAY)
    case CloseArr(_) => CheckState(w.state, w.TopMark(), CLOSE_ARRAY)
  }

  /** The state after a container has been closed and `w` is what remains. */
  function Resumed(w: Writer): State {
    if w.open == [] then STATE_TERM else if w.TopMark() == MAP_KEY then STATE_IN_MAP else STATE_IN_ARRAY
  }

  /** The innermost container as an item. */
  function Closed(w: Writer, pad: Byte): Item
    requires 0 < |w.open| <= |w.counts|
  {
    var n := |w.open| - 1;
    var f := w.open[n];
    if f.isMap then Map(f.key, f.kids, pad) else Arr(f.key, w.counts[n] % 0x1_0000, f.kids, pad)
  }

  /** What an accepted call does. */
  function Apply(w: Writer, op: Op): Writer
    requires Inv(w) && Accepts(w, op)
  {
    var n := |w.open| - 1;
    match op
    case Add(key, v) => w.Put(Leaf(key, v))
    case AddElement(v) =>
      var w1 := w.Put(Leaf(BKV_ARRAY_KEY, v));
      if v.Int64? then w1 else w1.(counts := w.counts[n := w.counts[n] + 1])
    case OpenMap(key) => w.(open := w.open + [Frame(true, key, [])], state := STATE_IN_MAP)
    case OpenArr(key) => w.(open := w.open + [Frame(false, key, [])], state := STATE_IN_ARRAY)
    case CloseMap(pad) => w.Pop().Put(Closed(w, pad)).(state := Resumed(w.Pop()))
    case CloseArr(pad) => w.Pop().Put(Closed(w, pad)).(state := Resumed(w.Pop()))
  }

  /** The state says what the innermost container is; arrays stand in maps only. */
  predicate Inv(w: Writer) {
    && |w.counts| == MAX_DEPTH && |w.open| <= MAX_DEPTH
    && w.state != STATE_KEY_SET
    && (w.open == [] <==> w.state == STATE_INIT || w.state == STATE_TERM)
    && (w.TopMark() == MAP_KEY <==> w.state == STATE_IN_MAP)
    && (w.TopMark() == ARRAY_KEY <==> w.state == STATE_IN_ARRAY)
    && ArraysInMaps(w.open)
  }

  predicate ArraysInMaps(open: seq<Frame>) {
    forall i | 0 <= i < |open| && !open[i].isMap :: 0 < i && open[i - 1].isMap
  }

  lemma PutKeepsKinds(w: Writer, i: Item)
    ensures var w' := w.Put(i);
      |w'.open| == |w.open| && w'.TopMark() == w.TopMark() && (ArraysInMaps(w.open) ==> ArraysInMaps(w'.open))
  {
    var open' := w.Put(i).open;
    if ArraysInMaps(w.open) {
      forall j | 0 <= j < |open'| && !open'[j].isMap ensures 0 < j && open'[j - 1].isMap {
        assert !w.open[j].isMap;
      }
    }
  }

  lemma PopKeepsKinds(w: Writer)
    requires w.open != [] && ArraysInMaps(w.open)
    ensures ArraysInMaps(w.Pop().open)
    ensures w.TopMark() == ARRAY_KEY ==> w.Pop().TopMark() == MAP_KEY
  {
    var open' := w.Pop().open;
    forall j | 0 <= j < |open'| && !open'[j].isMap ensures 0 < j && open'[j - 1].isMap {
      assert !w.open[j].isMap;
    }
  }

  /** A fresh handle. */
  function Start(): (w: Writer)
    ensures Inv(w)
  {
    Writer(STATE_INIT, [], [], seq(MAX_DEPTH, _ => 0))
  }

  predicate Opens(op: Op) {
    op.OpenMap? || op.OpenArr?
  }

  lemma ApplyKeepsInv(w: Writer, op: Op)
    requires Inv(w) && Accepts(w, op) && (Opens(op) ==> |w.open| < MAX_DEPTH)
    ensures Inv(Apply(w, op))
  {
    match op {
      case Add(key, v) => PutKeepsKinds(w, Leaf(key, v));
      case AddElement(v) => PutKeepsKinds(w, Leaf(BKV_ARRAY_KEY, v));
      case OpenMap(_) =>
      case OpenArr(_) =>
      case CloseMap(pad) =>
        PopKeepsKinds(w);
        PutKeepsKinds(w.Pop(), Closed(w, pad));
      case CloseArr(pad) =>
        PopKeepsKinds(w);
        PutKeepsKinds(w.Pop(), Closed(w, pad));
    }
  }
}

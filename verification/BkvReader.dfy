/**
 The loop of `val_foreach` in `bkv/src/bkv_val.c`: one pointer and one depth
 counter moving over the bytes, whatever they are.
 */
module BkvReader {
  import opened BkvBytes
  import opened BkvError
  import opened BkvDocument
  import opened BkvEvents

  // ----- The bytes under the pointer -------------------------------------------

  function U16At(m: seq<Byte>, o: nat): (v: U16)
    requires o + 2 <= |m|
    ensures Bytes16(v) == m[o..o + 2]
  {
    var b0: int, b1: int := m[o], m[o + 1];
    b0 * 0x100 + b1
  }

  function U32At(m: seq<Byte>, o: nat): (v: U32)
    requires o + 4 <= |m|
    ensures Bytes32(v) == m[o..o + 4]
  {
    Compose32(m[o], m[o + 1], m[o + 2], m[o + 3])
  }

  function U64At(m: seq<Byte>, o: nat): (v: U64)
    requires o + 8 <= |m|
    ensures Bytes64(v) == m[o..o + 8]
  {
    var hi, lo := U32At(m, o), U32At(m, o + 4);
    assert m[o..o + 8] == m[o..o + 4] + m[o + 4..o + 8];
    Compose64(hi, lo)
  }

  /** The bytes a scalar of the given type takes behind its header, if they are there. */
  predicate Whole(m: seq<Byte>, o: nat, hdrType: Nibble) {
    if hdrType == HDR_TYPE_INT16 then o + 2 <= |m|
    else if hdrType == HDR_TYPE_INT32 || hdrType == HDR_TYPE_FLOAT then o + 4 <= |m|
    else if hdrType == HDR_TYPE_INT64 || hdrType == HDR_TYPE_DOUBLE then o + 8 <= |m|
    else if hdrType == HDR_TYPE_STRING then o + 2 <= |m| && o + 2 + U16At(m, o) <= |m|
    else hdrType == HDR_TYPE_BOOLEAN && o < |m|
  }

  function ScalarAt(m: seq<Byte>, o: nat, hdrType: Nibble): Scalar
    requires Whole(m, o, hdrType) && hdrType != HDR_TYPE_DOUBLE
  {
    if hdrType == HDR_TYPE_INT16 then Int16(U16At(m, o))
    else if hdrType == HDR_TYPE_INT32 then Int32(U32At(m, o))
    else if hdrType == HDR_TYPE_INT64 then Int64(U64At(m, o))
    else if hdrType == HDR_TYPE_STRING then Str(m[o + 2..o + 2 + U16At(m, o)])
    else if hdrType == HDR_TYPE_FLOAT then Float(U32At(m, o) as bv32)
    else Boolean(m[o] != 0)
  }

  // ----- One round of the loop ---------------------------------------------------

  predicate ScalarHeader(t: Nibble) {
    || t == HDR_TYPE_INT16 || t == HDR_TYPE_INT32 || t == HDR_TYPE_INT64
    || t == HDR_TYPE_STRING || t == HDR_TYPE_FLOAT || t == HDR_TYPE_DOUBLE || t == HDR_TYPE_BOOLEAN
  }

  /** Where the round that starts at `pos` ends. */
  function Round<D>(cb: Callbacks<D>, m: seq<Byte>, d: D, pos: nat, deep: int): (o: Outcome<D>)
    ensures !o.Lost? && (o.Going? ==> pos < o.pos && pos < |m|)
  {
    if pos + 2 > |m| then Beyond(d)
    else
      var t, key := HeaderType(m[pos]), HeaderKey(m[pos], m[pos + 1]);
      if t == HDR_TYPE_MAP_OPEN then RoundMapOpen(cb, m, d, pos, deep, key)
      else if t == HDR_TYPE_MAP_CLOSE then AfterMapClose(cb, d, pos, deep, key)
      else if t == HDR_TYPE_ARRAY_OPEN then
        if pos + 6 > |m| then Beyond(d)
        else Answered(cb(d, ArrayOpen(pos, U16At(m, pos + 4), key)), pos + 6, deep + 1)
      else if t == HDR_TYPE_ARRAY_CLOSE then AfterArrayClose(cb, d, pos, deep)
      else if ScalarHeader(t) then RoundScalar(cb, m, d, pos, deep, t, key)
      else Stopped(d, pos, deep)
  }

  function RoundMapOpen<D>(cb: Callbacks<D>, m: seq<Byte>, d: D, pos: nat, deep: int, key: U16): (o: Outcome<D>)
    ensures !o.Lost? && (o.Going? ==> pos < o.pos)
  {
    var r := cb(d, MapOpen(pos, key));
    if !r.1.gotoEnd then Answered(r, pos + 4, deep + 1)
    else if pos + 4 > |m| then Beyond(r.0)
    else if U16At(m, pos + 2) == 0 then BadLength(r.0)
    else Answered(r, pos + U16At(m, pos + 2), deep)
  }

  function RoundScalar<D>(cb: Callbacks<D>, m: seq<Byte>, d: D, pos: nat, deep: int, t: Nibble,
                          key: U16): (o: Outcome<D>)
    ensures !o.Lost? && (o.Going? ==> pos < o.pos)
  {
    if !Whole(m, pos + 2, t) then Beyond(d)
    else if t == HDR_TYPE_DOUBLE then Answered(cb(d, Double(pos + 2, key, U64At(m, pos + 2))), pos + 10, deep)
    else
      var v := ScalarAt(m, pos + 2, t);
      Answered(cb(d, LeafEvent(pos, deep, key, v)), pos + 2 + Width(v), deep)
  }

  /** Round after round, until the loop is left. */
  function Walk<D>(cb: Callbacks<D>, m: seq<Byte>, d: D, pos: nat, deep: int): (o: Outcome<D>)
    ensures o.Stopped? || o.BadLength? || o.Beyond?
    decreases if pos <= |m| then |m| - pos + 1 else 0
  {
    var o := Round(cb, m, d, pos, deep);
    if o.Going? then Walk(cb, m, o.d, o.pos, o.deep) else o
  }

  // ----- The loop ------------------------------------------------------------------

  /** A number from the bytes. */
  method Read16(m: array<Byte>, at: nat) returns (x: U16)
    requires at + 2 <= m.Length
    ensures x == U16At(m[..], at)
  {
    x := Le16ToCpu(m, at);
    Bytes16Injective(x, U16At(m[..], at));
  }

  method Read32(m: array<Byte>, at: nat) returns (x: U32)
    requires at + 4 <= m.Length
    ensures x == U32At(m[..], at)
  {
    x := Le32ToCpu(m, at);
    Bytes32Injective(x, U32At(m[..], at));
  }

  method Read64(m: array<Byte>, at: nat) returns (x: U64)
    requires at + 8 <= m.Length
    ensures x == U64At(m[..], at)
  {
    x := LeU64ToCpu(m, at);
    Bytes64Injective(x, U64At(m[..], at));
  }

  method ReadFloat(m: array<Byte>, at: nat) returns (x: bv32)
    requires at + 4 <= m.Length
    ensures x == U32At(m[..], at) as bv32
  {
    var bits := LefToCpu(m, at);
    Bytes32Injective(bits, U32At(m[..], at));
    x := bits as bv32;
  }

  /** The value of a scalar behind its header. */
  method ReadScalar(m: array<Byte>, at: nat, hdrType: Nibble) returns (x: Scalar)
    requires Whole(m[..], at, hdrType) && hdrType != HDR_TYPE_DOUBLE
    ensures x == ScalarAt(m[..], at, hdrType)
  {
    if hdrType == HDR_TYPE_INT16 {
      var n := Read16(m, at);
      x := Int16(n);
    } else if hdrType == HDR_TYPE_INT32 {
      var n := Read32(m, at);
      x := Int32(n);
    } else if hdrType == HDR_TYPE_INT64 {
      var n := Read64(m, at);
      x := Int64(n);
    } else if hdrType == HDR_TYPE_STRING {
      var len := Read16(m, at);
      x := Str(m[at + 2..at + 2 + len]);
    } else if hdrType == HDR_TYPE_FLOAT {
      var n := ReadFloat(m, at);
      x := Float(n);
    } else {
      x := Boolean(m[at] != 0);
    }
  }

  /** One round: the switch on the header type. */
  method ReadOne<D>(m: array<Byte>, cb: Callbacks<D>, data: D, at: nat, mapDeep: int)
    returns (d: D, ptr: nat, deep: int, ret: Reply, invalid: bool)
    requires !Round(cb, m[..], data, at, mapDeep).Beyond?
    ensures Round(cb, m[..], data, at, mapDeep) == if invalid then BadLength(d) else Answered((d, ret), ptr, deep)
  {
    d, ptr, deep, ret, invalid := data, at, mapDeep, BKV_PARSE_ACTION_NONE, false;
    var hdrType := HeaderType(m[at]);
    var key := HeaderKey(m[at], m[at + 1]);
    if hdrType == HDR_TYPE_MAP_OPEN {
      var r := cb(d, MapOpen(ptr, key));
      d, ret := r.0, r.1;
      if ret.gotoEnd {
        var mapLength := Read16(m, at + 2);
        if mapLength == 0 {
          invalid := true;
          return;
        }
        ptr := ptr + mapLength;
      } else {
        deep := deep + 1;
        ptr := ptr + 4;
      }
    } else if hdrType == HDR_TYPE_MAP_CLOSE {
      ptr := ptr + 2;
      deep := deep - 1;
      var r := cb(d, MapClose(key));
      d, ret := r.0, r.1;
      if deep == 0 {
        ret := BKV_PARSE_ACTION_STOP_LOOP;
      }
    } else if hdrType == HDR_TYPE_ARRAY_OPEN {
      var len := Read16(m, at + 4);
      var r := cb(d, ArrayOpen(ptr, len, key));
      d, ret := r.0, r.1;
      deep := deep + 1;
      ptr := ptr + 6;
    } else if hdrType == HDR_TYPE_ARRAY_CLOSE {
      var r := cb(d, ArrayClose);
      d, ret := r.0, r.1;
      deep := deep - 1;
      ptr := ptr + 5;
    } else if hdrType == HDR_TYPE_DOUBLE {
      var n := Read64(m, at + 2);
      var r := cb(d, Double(ptr + 2, key, n));
      d, ret := r.0, r.1;
      ptr := ptr + 10;
    } else if ScalarHeader(hdrType) {
      var v := ReadScalar(m, at + 2, hdrType);
      var r := cb(d, LeafEvent(at, mapDeep, key, v));
      d, ret := r.0, r.1;
      ptr := ptr + 2 + Width(v);
    } else {
      ret := Reply(true, true);
    }
  }

  /** Walks over the buffer from `base` on, which the walk must not leave.  The answer is
      BKV_INV_ARG when the walk meets a map to skip that has no length. */
  method ValForeach<D>(m: array<Byte>, base: nat, cb: Callbacks<D>, data: D) returns (d: D, ret: int, ghost end: int)
    requires !Walk(cb, m[..], data, base, 0).Beyond?
    ensures var o := Walk(cb, m[..], data, base, 0);
      d == o.d && ret == if o.Stopped? then BKV_OK else BKV_INV_ARG
    ensures var o := Walk(cb, m[..], data, base, 0); o.Stopped? ==> end == o.pos
  {
    var ptr: nat, deep, looping := base, 0, true;
    d := data;
    ghost var result := Walk(cb, m[..], data, base, 0);
    while looping
      invariant looping ==> ptr >= base && Walk(cb, m[..], d, ptr, deep) == result
      invariant !looping ==> result == Stopped(d, ptr, deep)
      decreases looping, if ptr <= m.Length then m.Length - ptr + 1 else 0
    {
      var ret, invalid;
      d, ptr, deep, ret, invalid := ReadOne(m, cb, d, ptr, deep);
      if invalid {
        return d, BKV_INV_ARG, ptr;
      }
      looping := !ret.stop && ptr - base > 0;
    }
    return d, BKV_OK, ptr;
  }

  // ----- Walks over documents ------------------------------------------------------

  /** The bytes stand in the buffer at `pos`. */
  ghost predicate At(m: seq<Byte>, pos: int, bytes: seq<Byte>) {
    0 <= pos && pos + |bytes| <= |m| && m[pos..pos + |bytes|] == bytes
  }

  lemma Halves(m: seq<Byte>, pos: int, a: seq<Byte>, b: seq<Byte>)
    requires At(m, pos, a + b)
    ensures At(m, pos, a) && At(m, pos + |a|, b)
  {
    Slice(m, pos, a + b, 0, |a|);
    Slice(m, pos, a + b, |a|, |a + b|);
  }

  lemma Part(m: seq<Byte>, pos: int, a: seq<Byte>, b: seq<Byte>, c: seq<Byte>)
    requires At(m, pos, a + b + c)
    ensures At(m, pos, a) && At(m, pos + |a|, b) && At(m, pos + |a| + |b|, c)
  {
    Halves(m, pos, a + b, c);
    Halves(m, pos, a, b);
  }

  lemma Slice(m: seq<Byte>, pos: nat, e: seq<Byte>, a: nat, b: nat)
    requires At(m, pos, e) && a <= b <= |e|
    ensures m[pos + a..pos + b] == e[a..b]
  {
    forall k | 0 <= k < b - a ensures m[pos + a..pos + b][k] == e[a..b][k] {
      assert m[pos..pos + |e|][a + k] == m[pos + a + k];
    }
  }

  lemma HeaderAt(m: seq<Byte>, pos: int, t: Nibble, key: U16)
    requires At(m, pos, Header(t, key)) && key <= 0xFFF
    ensures HeaderType(m[pos]) == t && HeaderKey(m[pos], m[pos + 1]) == key
  {
    HeaderRoundTrip(t, key);
    assert m[pos] == m[pos..pos + 2][0] && m[pos + 1] == m[pos..pos + 2][1];
  }

  lemma U16There(m: seq<Byte>, pos: int, v: U16)
    requires At(m, pos, Bytes16(v))
    ensures U16At(m, pos) == v
  {
    Bytes16Injective(U16At(m, pos), v);
  }

  lemma U32There(m: seq<Byte>, pos: int, v: U32)
    requires At(m, pos, Bytes32(v))
    ensures U32At(m, pos) == v
  {
    Bytes32Injective(U32At(m, pos), v);
  }

  lemma U64There(m: seq<Byte>, pos: int, v: U64)
    requires At(m, pos, Bytes64(v))
    ensures U64At(m, pos) == v
  {
    Bytes64Injective(U64At(m, pos), v);
  }

  /** A float's bit pattern as the number whose bytes it is written with. */
  function FloatWord(bits: bv32): (n: U32)
    ensures n == bits as int && ScalarBytes(Float(bits)) == Bytes32(n)
  {
    bits as int
  }

  lemma FloatBitsThere(m: seq<Byte>, pos: int, bits: bv32, n: U32)
    requires n == bits as int && At(m, pos, Bytes32(n))
    ensures U32At(m, pos) as bv32 == bits
  {
    U32There(m, pos, n);
  }

  lemma FloatThere(m: seq<Byte>, pos: int, bits: bv32)
    requires At(m, pos, ScalarBytes(Float(bits)))
    ensures Whole(m, pos, HDR_TYPE_FLOAT) && ScalarAt(m, pos, HDR_TYPE_FLOAT) == Float(bits)
  {
    FloatBitsThere(m, pos, bits, FloatWord(bits));
  }

  lemma ScalarThere(m: seq<Byte>, pos: int, v: Scalar)
    requires At(m, pos, ScalarBytes(v)) && (v.Str? ==> |v.s| < 0x1_0000)
    ensures Whole(m, pos, ScalarType(v)) && ScalarAt(m, pos, ScalarType(v)) == v && |ScalarBytes(v)| == Width(v)
  {
    match v
    case Int16(n) => U16There(m, pos, n);
    case Int32(n) => U32There(m, pos, n);
    case Int64(n) => U64There(m, pos, n);
    case Float(n) => FloatThere(m, pos, n);
    case Boolean(b) => assert m[pos] == m[pos..pos + 1][0];
    case Str(s) => StringThere(m, pos, s);
  }

  lemma StringThere(m: seq<Byte>, pos: int, s: seq<Byte>)
    requires At(m, pos, Bytes16(|s| % 0x1_0000) + s) && |s| < 0x1_0000
    ensures pos + 2 + |s| <= |m| && U16At(m, pos) == |s| && m[pos + 2..pos + 2 + |s|] == s
  {
    Halves(m, pos, Bytes16(|s|), s);
    U16There(m, pos, |s|);
  }

  /** A round at a scalar. */
  lemma RoundLeaf<D>(cb: Callbacks<D>, m: seq<Byte>, d: D, pos: int, deep: int, i: Item)
    requires i.Leaf? && Readable(i) && At(m, pos, Encode(i))
    ensures Round(cb, m, d, pos, deep) == RunItem(cb, d, pos, deep, i)
  {
    var h, b := Header(ScalarType(i.value), i.key), ScalarBytes(i.value);
    Halves(m, pos, h, b);
    HeaderAt(m, pos, ScalarType(i.value), i.key);
    ScalarThere(m, pos + 2, i.value);
  }

  /** Where the parts of a map stand. */
  lemma MapParts(m: seq<Byte>, pos: int, k: U16, body: seq<Byte>, pad: Byte)
    requires k <= 0xFFF && At(m, pos, MapBytes(k, body, pad))
    ensures HeaderType(m[pos]) == HDR_TYPE_MAP_OPEN && HeaderKey(m[pos], m[pos + 1]) == k
    ensures U16At(m, pos + 2) == (|body| + 6) % 0x1_0000
    ensures At(m, pos + 4, body) && At(m, pos + 4 + |body|, CloseMapBytes(pad))
  {
    var h, len := Header(HDR_TYPE_MAP_OPEN, k), Bytes16((|body| + 6) % 0x1_0000);
    Part(m, pos, h + len, body, CloseMapBytes(pad));
    Halves(m, pos, h, len);
    HeaderAt(m, pos, HDR_TYPE_MAP_OPEN, k);
    U16There(m, pos + 2, (|body| + 6) % 0x1_0000);
  }

  /** Where the parts of an array stand. */
  lemma ArrParts(m: seq<Byte>, pos: int, k: U16, count: U16, body: seq<Byte>, pad: Byte)
    requires k <= 0xFFF && At(m, pos, ArrBytes(k, count, body, pad))
    ensures HeaderType(m[pos]) == HDR_TYPE_ARRAY_OPEN && HeaderKey(m[pos], m[pos + 1]) == k
    ensures pos + 6 <= |m| && U16At(m, pos + 2) == (|body| + 11) % 0x1_0000 && U16At(m, pos + 4) == count
    ensures At(m, pos + 6, body) && At(m, pos + 6 + |body|, CloseArrBytes(pad))
  {
    var h, len := Header(HDR_TYPE_ARRAY_OPEN, k), Bytes16((|body| + 11) % 0x1_0000);
    Part(m, pos, h + (len + Bytes16(count)), body, CloseArrBytes(pad));
    Halves(m, pos, h, len + Bytes16(count));
    Halves(m, pos + 2, len, Bytes16(count));
    HeaderAt(m, pos, HDR_TYPE_ARRAY_OPEN, k);
    U16There(m, pos + 2, (|body| + 11) % 0x1_0000);
    U16There(m, pos + 4, count);
  }

  /** A round at the start of a map. */
  lemma RoundMap<D>(cb: Callbacks<D>, m: seq<Byte>, d: D, pos: int, deep: int, i: Item)
    requires i.Map? && Readable(i) && At(m, pos, Encode(i))
    ensures pos + 4 <= |m| && HeaderType(m[pos]) == HDR_TYPE_MAP_OPEN && HeaderKey(m[pos], m[pos + 1]) == i.key
    ensures At(m, pos + 4, EncodeAll(i.kids)) && At(m, pos + 4 + ExtentAll(i.kids), CloseMapBytes(i.pad))
    ensures Round(cb, m, d, pos, deep) == Jump(cb(d, MapOpen(pos, i.key)), pos, deep, Extent(i) % 0x1_0000)
  {
    ExtentAllIsLength(i.kids);
    MapParts(m, pos, i.key, EncodeAll(i.kids), i.pad);
  }

  /** A round at the start of an array. */
  lemma RoundArr<D>(cb: Callbacks<D>, m: seq<Byte>, d: D, pos: int, deep: int, i: Item)
    requires i.Arr? && Readable(i) && At(m, pos, Encode(i))
    ensures pos + 6 <= |m| && HeaderType(m[pos]) == HDR_TYPE_ARRAY_OPEN && HeaderKey(m[pos], m[pos + 1]) == i.key
    ensures At(m, pos + 6, EncodeAll(i.kids)) && At(m, pos + 6 + ExtentAll(i.kids), CloseArrBytes(i.pad))
    ensures Round(cb, m, d, pos, deep) == Answered(cb(d, ArrayOpen(pos, i.count, i.key)), pos + 6, deep + 1)
  {
    ExtentAllIsLength(i.kids);
    ArrParts(m, pos, i.key, i.count, EncodeAll(i.kids), i.pad);
  }

  /** After a map's callback: into the map, or as far as its length field says. */
  function Jump<D>(r: (D, Reply), pos: int, deep: int, length: U16): Outcome<D> {
    if !r.1.gotoEnd then Answered(r, pos + 4, deep + 1)
    else if length == 0 then BadLength(r.0)
    else Answered(r, pos + length, deep)
  }

  /** A walk whose first stretch ends with `o` comes to `all`: when it goes on, it does so
      from `end`, and when it has jumped, from where it has come to. */
  ghost predicate Follows<D>(cb: Callbacks<D>, m: seq<Byte>, o: Outcome<D>, all: Outcome<D>, end: int) {
    match o
    case Going(d, pos, deep) => 0 <= pos == end && all == Walk(cb, m, d, pos, deep)
    case Lost(d, pos, deep) => 0 <= pos && all == Walk(cb, m, d, pos, deep)
    case _ => all == o
  }

  /** At the bytes of an item the walk does what the recursion over the tree says, and
      goes on from where that ends. */
  lemma {:induction false} WalkItem<D>(cb: Callbacks<D>, m: seq<Byte>, d: D, pos: int, deep: int, i: Item)
    requires Readable(i) && At(m, pos, Encode(i))
    ensures var o := RunItem(cb, d, pos, deep, i); Follows(cb, m, o, Walk(cb, m, d, pos, deep), pos + Extent(i))
    decreases i, 1
  {
    match i
    case Leaf(_, _) => RoundLeaf(cb, m, d, pos, deep, i);
    case Map(_, _, _) => WalkMap(cb, m, d, pos, deep, i);
    case Arr(_, _, _, _) => WalkArr(cb, m, d, pos, deep, i);
  }

  lemma {:induction false} WalkMap<D>(cb: Callbacks<D>, m: seq<Byte>, d: D, pos: int, deep: int, i: Item)
    requires i.Map? && Readable(i) && At(m, pos, Encode(i))
    ensures var o := RunItem(cb, d, pos, deep, i); Follows(cb, m, o, Walk(cb, m, d, pos, deep), pos + Extent(i))
    decreases i, 0
  {
    RoundMap(cb, m, d, pos, deep, i);
    var r := cb(d, MapOpen(pos, i.key));
    if r.1.gotoEnd {
      JumpSkips(r, pos, deep, Extent(i));
    } else if !r.1.stop {
      WalkMapInside(cb, m, r.0, pos + 4, deep + 1, i.kids, i.pad);
    }
  }

  /** From the first entry of a map to its close. */
  lemma {:induction false} WalkMapInside<D>(cb: Callbacks<D>, m: seq<Byte>, d: D, pos: int, deep: int, kids: seq<Item>,
                                            pad: Byte)
    requires forall k <- kids :: Readable(k)
    requires At(m, pos, EncodeAll(kids)) && At(m, pos + ExtentAll(kids), CloseMapBytes(pad))
    ensures var o := RunAll(cb, d, pos, deep, kids);
      Follows(cb, m, if o.Going? then AfterMapClose(cb, o.d, o.pos, o.deep, pad) else o,
              Walk(cb, m, d, pos, deep), pos + ExtentAll(kids) + 2)
    decreases kids, 1
  {
    WalkAll(cb, m, d, pos, deep, kids);
    var o := RunAll(cb, d, pos, deep, kids);
    if o.Going? {
      RoundMapClose(cb, m, o.d, o.pos, o.deep, pad);
    }
  }

  /** The jump is the skip, whether or not it lands behind the map. */
  lemma JumpSkips<D>(r: (D, Reply), pos: int, deep: int, n: nat)
    requires r.1.gotoEnd
    ensures var o, o' := Jump(r, pos, deep, n % 0x1_0000), Skip(r, pos, deep, n);
      && (!o'.Lost? ==> o == o')
      && (o'.Lost? ==> o == Going(o'.d, o'.pos, o'.deep))
      && (o'.Going? ==> o'.pos == pos + n)
      && (o'.Going? || o'.Lost? ==> o'.pos >= pos)
  {
  }

  lemma {:induction false} WalkArr<D>(cb: Callbacks<D>, m: seq<Byte>, d: D, pos: int, deep: int, i: Item)
    requires i.Arr? && Readable(i) && At(m, pos, Encode(i))
    ensures var o := RunItem(cb, d, pos, deep, i); Follows(cb, m, o, Walk(cb, m, d, pos, deep), pos + Extent(i))
    decreases i, 0
  {
    RoundArr(cb, m, d, pos, deep, i);
    var r := cb(d, ArrayOpen(pos, i.count, i.key));
    if !r.1.stop {
      WalkArrInside(cb, m, r.0, pos + 6, deep + 1, i.kids, i.pad);
    }
  }

  /** From the first element of an array to its close. */
  lemma {:induction false} WalkArrInside<D>(cb: Callbacks<D>, m: seq<Byte>, d: D, pos: int, deep: int, kids: seq<Item>,
                                            pad: Byte)
    requires forall k <- kids :: Readable(k)
    requires At(m, pos, EncodeAll(kids)) && At(m, pos + ExtentAll(kids), CloseArrBytes(pad))
    ensures var o := RunAll(cb, d, pos, deep, kids);
      Follows(cb, m, if o.Going? then AfterArrayClose(cb, o.d, o.pos, o.deep) else o,
              Walk(cb, m, d, pos, deep), pos + ExtentAll(kids) + 5)
    decreases kids, 1
  {
    WalkAll(cb, m, d, pos, deep, kids);
    var o := RunAll(cb, d, pos, deep, kids);
    if o.Going? {
      RoundArrClose(cb, m, o.d, o.pos, o.deep, pad);
    }
  }

  lemma RoundMapClose<D>(cb: Callbacks<D>, m: seq<Byte>, d: D, pos: int, deep: int, pad: Byte)
    requires At(m, pos, CloseMapBytes(pad))
    ensures pos + 2 <= |m| && HeaderType(m[pos]) == HDR_TYPE_MAP_CLOSE && HeaderKey(m[pos], m[pos + 1]) == pad
    ensures Round(cb, m, d, pos, deep) == AfterMapClose(cb, d, pos, deep, pad)
  {
    assert m[pos] == m[pos..pos + 2][0] && m[pos + 1] == m[pos..pos + 2][1];
  }

  lemma RoundArrClose<D>(cb: Callbacks<D>, m: seq<Byte>, d: D, pos: int, deep: int, pad: Byte)
    requires At(m, pos, CloseArrBytes(pad))
    ensures pos + 2 <= |m| && HeaderType(m[pos]) == HDR_TYPE_ARRAY_CLOSE
    ensures Round(cb, m, d, pos, deep) == AfterArrayClose(cb, d, pos, deep)
  {
    assert m[pos] == m[pos..pos + 5][0] && m[pos + 1] == m[pos..pos + 5][1];
  }

  lemma {:induction false} WalkAll<D>(cb: Callbacks<D>, m: seq<Byte>, d: D, pos: int, deep: int, kids: seq<Item>)
    requires (forall k <- kids :: Readable(k)) && At(m, pos, EncodeAll(kids))
    ensures var o := RunAll(cb, d, pos, deep, kids); Follows(cb, m, o, Walk(cb, m, d, pos, deep), pos + ExtentAll(kids))
    decreases kids, 0
  {
    if kids != [] {
      var a, b := Encode(kids[0]), EncodeAll(kids[1..]);
      Halves(m, pos, a, b);
      ExtentIsLength(kids[0]);
      WalkItem(cb, m, d, pos, deep, kids[0]);
      var o := RunItem(cb, d, pos, deep, kids[0]);
      if o.Going? {
        WalkAll(cb, m, o.d, o.pos, o.deep, kids[1..]);
      }
    }
  }

  // ----- Skips on bytes ---------------------------------------------------------------

  /** At the bytes of a map whose callback asks to skip it, the round stands behind the
      map, at the same depth, if and only if its extent fits the length field. */
  lemma {:induction false} RoundSkips<D>(cb: Callbacks<D>, m: seq<Byte>, d: D, pos: int, deep: int, i: Item)
    requires i.Map? && Readable(i) && At(m, pos, Encode(i))
    requires Fire(cb, d, MapOpen(pos, i.key)).1 == BKV_PARSE_ACTION_GOTO_END_MAP
    ensures var o := Round(cb, m, d, pos, deep);
      && ((o.Going? && o.pos == pos + Extent(i) && o.deep == deep) <==> Extent(i) < 0x1_0000)
      && (o.BadLength? <==> Extent(i) % 0x1_0000 == 0)
  {
    RoundMap(cb, m, d, pos, deep, i);
    JumpSkips(Fire(cb, d, MapOpen(pos, i.key)), pos, deep, Extent(i));
  }

  lemma {:induction false} GoesOnFrom<D>(cb: Callbacks<D>, m: seq<Byte>, o: Outcome<D>, all: Outcome<D>, end: int)
    requires Follows(cb, m, o, all, end) && o.Going?
    ensures 0 <= o.pos == end && all == Walk(cb, m, o.d, o.pos, o.deep)
  {
  }

  /** Where the recursion over an item goes on, the walk over its bytes goes on. */
  lemma {:induction false} WalkPast<D>(cb: Callbacks<D>, m: seq<Byte>, d: D, pos: int, deep: int, i: Item,
                                       o: Outcome<D>)
    requires Readable(i) && At(m, pos, Encode(i)) && o == RunItem(cb, d, pos, deep, i) && o.Going?
    ensures 0 <= o.pos == pos + Extent(i) && Walk(cb, m, d, pos, deep) == Walk(cb, m, o.d, o.pos, o.deep)
  {
    WalkItem(cb, m, d, pos, deep, i);
    GoesOnFrom(cb, m, o, Walk(cb, m, d, pos, deep), pos + Extent(i));
  }

  /** Round by round, callbacks that ask for nothing come to the same place and depth. */
  lemma {:induction false} ParseLandsBehind<D(!new)>(cb: Callbacks<D>, m: seq<Byte>, d: D, pos: int, deep: int,
                                                     i: Item)
    requires i.Map? && Readable(i) && At(m, pos, Encode(i)) && deep > 0 && Quiet(cb)
    ensures Walk(cb, m, d, pos, deep) == Walk(cb, m, Fold(cb, d, Events(pos, deep, i)), pos + Extent(i), deep)
  {
    QuietItem(cb, d, pos, deep, i);
    WalkPast(cb, m, d, pos, deep, i, RunItem(cb, d, pos, deep, i));
  }

  /** And from there the walk with the skip goes on. */
  lemma {:induction false} SkipLandsBehind<D>(cb: Callbacks<D>, m: seq<Byte>, d: D, pos: int, deep: int, i: Item)
    requires i.Map? && Readable(i) && At(m, pos, Encode(i)) && Extent(i) < 0x1_0000
    requires Fire(cb, d, MapOpen(pos, i.key)).1 == BKV_PARSE_ACTION_GOTO_END_MAP
    ensures Walk(cb, m, d, pos, deep) == Walk(cb, m, Fire(cb, d, MapOpen(pos, i.key)).0, pos + Extent(i), deep)
  {
    WalkPast(cb, m, d, pos, deep, i, RunItem(cb, d, pos, deep, i));
  }
}

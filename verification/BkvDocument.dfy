/**
 Documents as trees, and the bytes that stand for them.
 */
module BkvDocument {
  import opened BkvBytes

  /** A value that fits in one item; a float is its 32-bit pattern. */
  datatype Scalar =
    | Int16(v16: U16)
    | Int32(v32: U32)
    | Int64(v64: U64)
    | Float(bits: bv32)
    | Boolean(b: bool)
    | Str(s: seq<Byte>)

  /** A keyed value.  `pad` is the header byte of a closing mark that the writer
      leaves as it finds it; `count` is the element count an array header carries. */
  datatype Item =
    | Leaf(key: U16, value: Scalar)
    | Map(key: U16, kids: seq<Item>, pad: Byte)
    | Arr(key: U16, count: U16, kids: seq<Item>, pad: Byte)

  function ScalarType(v: Scalar): Nibble {
    match v
    case Int16(_) => HDR_TYPE_INT16
    case Int32(_) => HDR_TYPE_INT32
    case Int64(_) => HDR_TYPE_INT64
    case Float(_) => HDR_TYPE_FLOAT
    case Boolean(_) => HDR_TYPE_BOOLEAN
    case Str(_) => HDR_TYPE_STRING
  }

  function ScalarBytes(v: Scalar): seq<Byte> {
    match v
    case Int16(n) => Bytes16(n)
    case Int32(n) => Bytes32(n)
    case Int64(n) => Bytes64(n)
    case Float(n) => Bytes32(n as int)
    case Boolean(b) => [if b then 1 else 0]
    case Str(s) => Bytes16(|s| % 0x1_0000) + s
  }

  function Encode(i: Item): seq<Byte>
    decreases i, 1
  {
    match i
    case Leaf(k, v) => Header(ScalarType(v), k) + ScalarBytes(v)
    case Map(k, kids, pad) => MapBytes(k, EncodeAll(kids), pad)
    case Arr(k, count, kids, pad) => ArrBytes(k, count, EncodeAll(kids), pad)
  }

  /** A map's length field holds its whole extent, cut to sixteen bits. */
  function MapBytes(k: U16, body: seq<Byte>, pad: Byte): seq<Byte> {
    Header(HDR_TYPE_MAP_OPEN, k) + Bytes16((|body| + 6) % 0x1_0000) + body + CloseMapBytes(pad)
  }

  function ArrBytes(k: U16, count: U16, body: seq<Byte>, pad: Byte): seq<Byte> {
    Header(HDR_TYPE_ARRAY_OPEN, k) + (Bytes16((|body| + 11) % 0x1_0000) + Bytes16(count)) + body + CloseArrBytes(pad)
  }

  function CloseMapBytes(pad: Byte): (r: seq<Byte>)
    ensures |r| == 2
  {
    [HDR_TYPE_MAP_CLOSE * 0x10, pad]
  }

  function CloseArrBytes(pad: Byte): (r: seq<Byte>)
    ensures |r| == 5
  {
    [HDR_TYPE_ARRAY_CLOSE * 0x10, pad, 0xEE, 0xEE, 0xEE]
  }

  function EncodeAll(items: seq<Item>): seq<Byte>
    decreases items, 0
  {
    if items == [] then [] else Encode(items[0]) + EncodeAll(items[1..])
  }

  /** The length of a value's bytes. */
  function Width(v: Scalar): nat {
    match v
    case Int16(_) => 2
    case Int32(_) => 4
    case Int64(_) => 8
    case Float(_) => 4
    case Boolean(_) => 1
    case Str(s) => 2 + |s|
  }

  /** The length of an item's bytes. */
  function Extent(i: Item): (n: nat)
    ensures n > 0
    decreases i, 1
  {
    match i
    case Leaf(_, v) => 2 + Width(v)
    case Map(_, kids, _) => ExtentAll(kids) + 6
    case Arr(_, _, kids, _) => ExtentAll(kids) + 11
  }

  function ExtentAll(items: seq<Item>): nat
    decreases items, 0
  {
    if items == [] then 0 else Extent(items[0]) + ExtentAll(items[1..])
  }

  lemma {:induction false} ExtentIsLength(i: Item)
    ensures |Encode(i)| == Extent(i)
    decreases i, 1
  {
    match i
    case Leaf(_, _) =>
    case Map(_, kids, _) => ExtentAllIsLength(kids);
    case Arr(_, _, kids, _) => ExtentAllIsLength(kids);
  }

  lemma {:induction false} ExtentAllIsLength(items: seq<Item>)
    ensures |EncodeAll(items)| == ExtentAll(items)
    decreases items, 0
  {
    if items != [] {
      ExtentIsLength(items[0]);
      ExtentAllIsLength(items[1..]);
    }
  }

  lemma {:induction false} EncodeAllConcat(a: seq<Item>, b: seq<Item>)
    ensures EncodeAll(a + b) == EncodeAll(a) + EncodeAll(b)
  {
    if a == [] {
      assert a + b == b;
    } else {
      EncodeAllConcat(a[1..], b);
      Associate(Encode(a[0]), EncodeAll(a[1..]), EncodeAll(b));
      assert (a + b)[0] == a[0] && (a + b)[1..] == a[1..] + b;
      assert EncodeAll(a + b) == Encode(a[0]) + EncodeAll(a[1..] + b);
    }
  }

  lemma EncodeAllAppend(a: seq<Item>, i: Item)
    ensures EncodeAll(a + [i]) == EncodeAll(a) + Encode(i)
  {
    EncodeAllConcat(a, [i]);
    assert [i][1..] == [];
    assert EncodeAll([i]) == Encode(i) + [];
  }

  /** Every key fits its header and every string its length field. */
  predicate Readable(i: Item)
  {
    && i.key <= 0xFFF
    && match i
       case Leaf(_, v) => v.Str? ==> |v.s| < 0x1_0000
       case Map(_, kids, _) => forall k <- kids :: Readable(k)
       case Arr(_, _, kids, _) => forall k <- kids :: Readable(k)
  }
}

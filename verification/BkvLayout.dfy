/**
 Whole documents on the wire, in numbers.
 */
module BkvLayout {
  import opened BkvBytes
  import opened BkvDocument
  import opened BkvReader
  import opened BkvWire

  /** The item's own bytes stand at `p`: header, length, count and mark, or header and value. */
  ghost predicate Framed(m: seq<Byte>, p: int, i: Item) {
    match i
    case Leaf(key, v) => Stands(m, p, key, v)
    case Map(key, kids, pad) =>
      var q := p + 4 + ExtentAll(kids);
      && Headed(m, p, 1, key) && q + 2 <= |m| && Word16(m, p + 2) == (q + 2 - p) % 0x1_0000
      && m[q] == 0x20 && m[q + 1] == pad
    case Arr(key, count, kids, pad) =>
      var q := p + 6 + ExtentAll(kids);
      && Headed(m, p, 3, key) && q + 5 <= |m| && Word16(m, p + 2) == (q + 5 - p) % 0x1_0000
      && Word16(m, p + 4) == count
      && m[q] == 0x40 && m[q + 1] == pad && m[q + 2] == m[q + 3] == m[q + 4] == 0xEE
  }

  /** Where entry number `j` of the container at `p` stands. */
  function Place(p: int, i: Item, j: nat): int
    requires !i.Leaf? && j <= |i.kids|
  {
    p + (if i.Map? then 4 else 6) + ExtentAll(i.kids[..j])
  }

  /** The whole item stands at `p`. */
  ghost predicate LaidOut(m: seq<Byte>, p: int, i: Item)
    decreases i
  {
    Framed(m, p, i) && (i.Leaf? || forall j | 0 <= j < |i.kids| :: LaidOut(m, Place(p, i, j), i.kids[j]))
  }

  /** The value behind a header, by the shared reading and in numbers. */
  lemma ScalarStands(m: seq<Byte>, pos: nat, t: Nibble, key: U16)
    requires Headed(m, pos, t, key) && Whole(m, pos + 2, t) && ScalarHeader(t) && t != HDR_TYPE_DOUBLE
    ensures Stands(m, pos, key, ScalarAt(m, pos + 2, t))
  {
    if t == HDR_TYPE_INT32 || t == HDR_TYPE_FLOAT {
      Word32Bytes(m, pos + 2, U32At(m, pos + 2));
    } else if t == HDR_TYPE_INT64 {
      Word64Bytes(m, pos + 2, U64At(m, pos + 2));
    }
  }

  /** The encoding of a value, in numbers. */
  lemma LeafLaidOut(m: seq<Byte>, p: int, key: U16, v: Scalar)
    requires key <= 0xFFF && (v.Str? ==> |v.s| < 0x1_0000) && At(m, p, Encode(Leaf(key, v)))
    ensures Stands(m, p, key, v)
  {
    Halves(m, p, Header(ScalarType(v), key), ScalarBytes(v));
    HeaderAt(m, p, ScalarType(v), key);
    ScalarThere(m, p + 2, v);
    ScalarStands(m, p, ScalarType(v), key);
  }

  /** The bytes of a readable item stand at `p`. */
  ghost predicate There(m: seq<Byte>, p: int, i: Item) {
    Readable(i) && At(m, p, Encode(i))
  }

  ghost predicate AllThere(m: seq<Byte>, p: int, kids: seq<Item>) {
    (forall k <- kids :: Readable(k)) && At(m, p, EncodeAll(kids))
  }

  lemma MapFramed(m: seq<Byte>, p: int, i: Item)
    requires i.Map? && There(m, p, i)
    ensures Framed(m, p, i) && AllThere(m, p + 4, i.kids)
  {
    var q := p + 4 + ExtentAll(i.kids);
    ExtentAllIsLength(i.kids);
    MapParts(m, p, i.key, EncodeAll(i.kids), i.pad);
    assert m[q] == m[q..q + 2][0] && m[q + 1] == m[q..q + 2][1];
  }

  lemma ArrFramed(m: seq<Byte>, p: int, i: Item)
    requires i.Arr? && There(m, p, i)
    ensures Framed(m, p, i) && AllThere(m, p + 6, i.kids)
  {
    var q := p + 6 + ExtentAll(i.kids);
    ExtentAllIsLength(i.kids);
    ArrParts(m, p, i.key, i.count, EncodeAll(i.kids), i.pad);
    MarkThere(m, q, i.pad);
  }

  lemma MarkThere(m: seq<Byte>, q: int, pad: Byte)
    requires At(m, q, CloseArrBytes(pad))
    ensures m[q] == 0x40 && m[q + 1] == pad && m[q + 2] == m[q + 3] == m[q + 4] == 0xEE
  {
    var mark := m[q..q + 5];
    assert m[q] == mark[0] && m[q + 1] == mark[1] && m[q + 2] == mark[2] && m[q + 3] == mark[3] && m[q + 4] == mark[4];
  }

  lemma {:induction false} FirstAndRest(m: seq<Byte>, p: int, kids: seq<Item>)
    requires kids != [] && AllThere(m, p, kids)
    ensures There(m, p, kids[0]) && AllThere(m, p + Extent(kids[0]), kids[1..])
  {
    Halves(m, p, Encode(kids[0]), EncodeAll(kids[1..]));
    ExtentIsLength(kids[0]);
  }

  lemma {:induction false} EncodeAllAt(kids: seq<Item>, j: nat)
    requires j < |kids|
    ensures EncodeAll(kids) == EncodeAll(kids[..j]) + Encode(kids[j]) + EncodeAll(kids[j + 1..])
  {
    assert kids == kids[..j] + [kids[j]] + kids[j + 1..];
    EncodeAllConcat(kids[..j] + [kids[j]], kids[j + 1..]);
    EncodeAllAppend(kids[..j], kids[j]);
  }

  lemma {:induction false} KidThere(m: seq<Byte>, p: int, kids: seq<Item>, j: nat)
    requires AllThere(m, p, kids) && j < |kids|
    ensures There(m, p + ExtentAll(kids[..j]), kids[j])
  {
    EncodeAllAt(kids, j);
    ExtentAllIsLength(kids[..j]);
    Part(m, p, EncodeAll(kids[..j]), Encode(kids[j]), EncodeAll(kids[j + 1..]));
  }

  /** Where each entry of a container stands. */
  lemma {:induction false} EntryThere(m: seq<Byte>, p: int, i: Item, j: nat)
    requires !i.Leaf? && There(m, p, i) && j < |i.kids|
    ensures There(m, Place(p, i, j), i.kids[j])
  {
    if i.Map? {
      MapFramed(m, p, i);
      KidThere(m, p + 4, i.kids, j);
    } else {
      ArrFramed(m, p, i);
      KidThere(m, p + 6, i.kids, j);
    }
  }

  /** Where the bytes of an item stand, it is laid out. */
  lemma {:induction false} EncodeLaidOut(m: seq<Byte>, p: int, i: Item)
    requires There(m, p, i)
    ensures LaidOut(m, p, i)
    decreases i
  {
    match i {
      case Leaf(key, v) => LeafLaidOut(m, p, key, v);
      case Map(_, _, _) => MapFramed(m, p, i);
      case Arr(_, _, _, _) => ArrFramed(m, p, i);
    }
    if !i.Leaf? {
      forall j | 0 <= j < |i.kids| ensures LaidOut(m, Place(p, i, j), i.kids[j]) {
        EntryThere(m, p, i, j);
        EncodeLaidOut(m, Place(p, i, j), i.kids[j]);
      }
    }
  }
}

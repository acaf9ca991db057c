/**
 The bytes of the format as plain numbers, after `bkv/src/bkv_header.h`: which kind of
 item, which key and which value stand at a place.  The predicates do not refer to the
 encoding that the other modules share; the lemmas tie it to them.
 */
module BkvWire {
  import opened BkvBytes
  import opened BkvDocument

  // ----- What stands at a place ---------------------------------------------------

  function Word16(m: seq<Byte>, o: nat): U16
    requires o + 2 <= |m|
  {
    var b0: int, b1: int := m[o], m[o + 1];
    b0 * 0x100 + b1
  }

  function Word32(m: seq<Byte>, o: nat): U32
    requires o + 4 <= |m|
  {
    var hi: int, lo: int := Word16(m, o), Word16(m, o + 2);
    hi * 0x1_0000 + lo
  }

  function Word64(m: seq<Byte>, o: nat): U64
    requires o + 8 <= |m|
  {
    var hi: int, lo: int := Word32(m, o), Word32(m, o + 4);
    hi * 0x1_0000_0000 + lo
  }

  /** A header of this kind with this key stands at `p`. */
  ghost predicate Headed(m: seq<Byte>, p: int, kind: int, key: int) {
    && 0 <= p && p + 2 <= |m|
    && m[p] / 0x10 == kind && (m[p] % 0x10) as int * 0x100 + m[p + 1] as int == key
  }

  /** The value under this key, header and all, stands at `p`. */
  ghost predicate Stands(m: seq<Byte>, p: int, key: int, v: Scalar) {
    match v
    case Int16(n) => Headed(m, p, 5, key) && p + 4 <= |m| && n == Word16(m, p + 2)
    case Int32(n) => Headed(m, p, 6, key) && p + 6 <= |m| && n == Word32(m, p + 2)
    case Int64(n) => Headed(m, p, 7, key) && p + 10 <= |m| && n == Word64(m, p + 2)
    case Str(s) =>
      && Headed(m, p, 8, key) && p + 4 <= |m| && |s| == Word16(m, p + 2)
      && p + 4 + |s| <= |m| && m[p + 4..p + 4 + |s|] == s
    case Float(bits) => Headed(m, p, 9, key) && p + 6 <= |m| && bits == Word32(m, p + 2) as bv32
    case Boolean(b) => Headed(m, p, 11, key) && p + 3 <= |m| && (b <==> m[p + 2] != 0)
  }

  // ----- What a call writes ---------------------------------------------------------

  ghost predicate Digits2(m: seq<Byte>, o: nat, n: U16)
    requires o + 2 <= |m|
  {
    m[o] == n / 0x100 && m[o + 1] == n % 0x100
  }

  ghost predicate Digits4(m: seq<Byte>, o: nat, n: U32)
    requires o + 4 <= |m|
  {
    Digits2(m, o, n / 0x1_0000) && Digits2(m, o + 2, n % 0x1_0000)
  }

  ghost predicate Digits8(m: seq<Byte>, o: nat, n: U64)
    requires o + 8 <= |m|
  {
    Digits4(m, o, n / 0x1_0000_0000) && Digits4(m, o + 4, n % 0x1_0000_0000)
  }

  /** The two bytes of a header for a key that fits. */
  ghost predicate HeaderDigits(m: seq<Byte>, o: nat, first: int, key: int)
    requires o + 2 <= |m|
  {
    m[o] == first + key / 0x100 && m[o + 1] == key % 0x100
  }

  /** The value has been written at `o` under this key, and nothing behind it. */
  ghost predicate Written(m: seq<Byte>, o: nat, key: int, v: Scalar) {
    match v
    case Int16(n) => |m| == o + 4 && HeaderDigits(m, o, 0x50, key) && Digits2(m, o + 2, n)
    case Int32(n) => |m| == o + 6 && HeaderDigits(m, o, 0x60, key) && Digits4(m, o + 2, n)
    case Int64(n) => |m| == o + 10 && HeaderDigits(m, o, 0x70, key) && Digits8(m, o + 2, n)
    case Str(s) =>
      |m| == o + 4 + |s| && HeaderDigits(m, o, 0x80, key) && Digits2(m, o + 2, |s| % 0x1_0000) && m[o + 4..] == s
    case Float(bits) => |m| == o + 6 && HeaderDigits(m, o, 0x90, key) && Digits4(m, o + 2, bits as int)
    case Boolean(b) => |m| == o + 3 && HeaderDigits(m, o, 0xB0, key) && m[o + 2] == if b then 1 else 0
  }

  /** `after` is `before` and then the value under this key. */
  ghost predicate Appended(before: seq<Byte>, after: seq<Byte>, key: int, v: Scalar) {
    before <= after && Written(after, |before|, key, v)
  }

  /** `after` is `before` and then the header of a container and `n` bytes for its fields. */
  ghost predicate Opened(before: seq<Byte>, after: seq<Byte>, first: int, key: int, n: nat) {
    |after| == |before| + 2 + n && before <= after && HeaderDigits(after, |before|, first, key)
  }

  /** The map at `o` has been closed: its length stands in its header, its mark at the end. */
  ghost predicate MapFinished(before: seq<Byte>, after: seq<Byte>, o: int) {
    && 0 <= o && o + 4 <= |before| && |after| == |before| + 2
    && after[|before|] == 0x20
    && Digits2(after, o + 2, (|after| - o) % 0x1_0000)
    && after[..o + 2] == before[..o + 2] && after[o + 4..|before|] == before[o + 4..]
  }

  /** The same for an array, with its count. */
  ghost predicate ArrayFinished(before: seq<Byte>, after: seq<Byte>, o: int, count: int) {
    && 0 <= o && o + 6 <= |before| && |after| == |before| + 5
    && after[|before|] == 0x40
    && after[|before| + 2] == 0xEE && after[|before| + 3] == 0xEE && after[|before| + 4] == 0xEE
    && Digits2(after, o + 2, (|after| - o) % 0x1_0000) && Digits2(after, o + 4, count % 0x1_0000)
    && after[..o + 2] == before[..o + 2] && after[o + 6..|before|] == before[o + 6..]
  }

  // ----- The shared encoding in numbers ---------------------------------------------

  lemma HeaderNumbers(kind: Nibble, key: U16)
    requires key <= 0xFFF
    ensures HeaderDigits(Header(kind, key), 0, kind * 0x10, key)
  {
    BitOrLow(kind, key / 0x100);
  }

  lemma HeaderOpened(below: seq<Byte>, kind: Nibble, key: U16, fields: seq<Byte>)
    requires key <= 0xFFF
    ensures Opened(below, below + Header(kind, key) + fields, kind * 0x10, key, |fields|)
  {
    HeaderNumbers(kind, key);
  }

  /** The encoding of a value behind anything. */
  lemma LeafAppended(below: seq<Byte>, key: U16, v: Scalar)
    requires key <= 0xFFF
    ensures Appended(below, below + Encode(Leaf(key, v)), key, v)
  {
    HeaderNumbers(ScalarType(v), key);
    match v
    case Str(s) => StringWritten(below, key, s);
    case _ =>
  }

  lemma StringWritten(below: seq<Byte>, key: U16, s: seq<Byte>)
    requires key <= 0xFFF
    ensures Written(below + Encode(Leaf(key, Str(s))), |below|, key, Str(s))
  {
    HeaderNumbers(8, key);
    var m := below + (Header(8, key) + (Bytes16(|s| % 0x1_0000) + s));
    assert m[|below| + 4..] == s;
  }

  lemma Digits4Word(m: seq<Byte>, o: nat, n: U32)
    requires o + 4 <= |m| && Digits4(m, o, n)
    ensures Word32(m, o) == n
  {
    assert Word16(m, o) == n / 0x1_0000 && Word16(m, o + 2) == n % 0x1_0000;
  }

  lemma Digits8Word(m: seq<Byte>, o: nat, n: U64)
    requires o + 8 <= |m| && Digits8(m, o, n)
    ensures Word64(m, o) == n
  {
    Digits4Word(m, o, n / 0x1_0000_0000);
    Digits4Word(m, o + 4, n % 0x1_0000_0000);
  }

  lemma DigitsHeaded(m: seq<Byte>, o: nat, kind: Nibble, key: U16)
    requires o + 2 <= |m| && HeaderDigits(m, o, kind * 0x10, key) && key <= 0xFFF
    ensures Headed(m, o, kind, key)
  {
  }

  /** What is written under a key that fits, strings of at most 65535 bytes, is read there. */
  lemma WrittenStands(m: seq<Byte>, o: nat, key: U16, v: Scalar)
    requires Written(m, o, key, v) && key <= 0xFFF && (v.Str? ==> |v.s| < 0x1_0000)
    ensures Stands(m, o, key, v)
  {
    DigitsHeaded(m, o, match v case Int16(_) => 5 case Int32(_) => 6 case Int64(_) => 7 case Str(_) => 8
                       case Float(_) => 9 case Boolean(_) => 11, key);
    match v
    case Int32(n) => Digits4Word(m, o + 2, n);
    case Int64(n) => Digits8Word(m, o + 2, n);
    case Float(bits) => FloatStands(m, o, key, bits, bits as int);
    case _ =>
  }

  lemma FloatStands(m: seq<Byte>, o: nat, key: U16, bits: bv32, n: U32)
    requires n == bits as int && |m| == o + 6 && Headed(m, o, 9, key) && Digits4(m, o + 2, n)
    ensures Stands(m, o, key, Float(bits))
  {
    Digits4Word(m, o + 2, n);
  }

  lemma Word32Bytes(m: seq<Byte>, o: nat, v: U32)
    requires o + 4 <= |m| && Bytes32(v) == m[o..o + 4]
    ensures v == Word32(m, o)
  {
    assert m[o..o + 4][0] == m[o] && m[o..o + 4][1] == m[o + 1];
    assert m[o..o + 4][2] == m[o + 2] && m[o..o + 4][3] == m[o + 3];
  }

  lemma Word64Bytes(m: seq<Byte>, o: nat, v: U64)
    requires o + 8 <= |m| && Bytes64(v) == m[o..o + 8]
    ensures v == Word64(m, o)
  {
    var hi, lo := v / 0x1_0000_0000, v % 0x1_0000_0000;
    assert m[o..o + 4] == m[o..o + 8][..4] == Bytes32(hi);
    assert m[o + 4..o + 8] == m[o..o + 8][4..] == Bytes32(lo);
    Word32Bytes(m, o, hi);
    Word32Bytes(m, o + 4, lo);
  }
}

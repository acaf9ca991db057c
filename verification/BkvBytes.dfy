/**
 Byte layouts of `bkv/src/bkv_byteorder.c` and of the item headers.  Despite
 their names the routines store the most significant byte first.
 */
module BkvBytes {
  type Byte = x: int | 0 <= x < 0x100
  type U16 = x: int | 0 <= x < 0x1_0000
  type U32 = x: int | 0 <= x < 0x1_0000_0000
  type U64 = x: int | 0 <= x < 0x1_0000_0000_0000_0000

  /** The keys a header has room for. */
  type Key = x: int | 0 <= x <= 0xFFF

  function Bytes16(v: U16): (r: seq<Byte>)
    ensures |r| == 2
  {
    [v / 0x100, v % 0x100]
  }

  function Bytes32(v: U32): (r: seq<Byte>)
    ensures |r| == 4
  {
    Bytes16(v / 0x1_0000) + Bytes16(v % 0x1_0000)
  }

  function Bytes64(v: U64): (r: seq<Byte>)
    ensures |r| == 8
  {
    Bytes32(v / 0x1_0000_0000) + Bytes32(v % 0x1_0000_0000)
  }

  lemma Bytes16Injective(v: U16, w: U16)
    requires Bytes16(v) == Bytes16(w)
    ensures v == w
  {
    assert Bytes16(v)[0] == Bytes16(w)[0] && Bytes16(v)[1] == Bytes16(w)[1];
  }

  lemma Bytes32Injective(v: U32, w: U32)
    requires Bytes32(v) == Bytes32(w)
    ensures v == w
  {
    assert Bytes16(v / 0x1_0000) == Bytes32(v)[..2] && Bytes16(w / 0x1_0000) == Bytes32(w)[..2];
    assert Bytes16(v % 0x1_0000) == Bytes32(v)[2..] && Bytes16(w % 0x1_0000) == Bytes32(w)[2..];
    Bytes16Injective(v / 0x1_0000, w / 0x1_0000);
    Bytes16Injective(v % 0x1_0000, w % 0x1_0000);
  }

  lemma Bytes64Injective(v: U64, w: U64)
    requires Bytes64(v) == Bytes64(w)
    ensures v == w
  {
    assert Bytes32(v / 0x1_0000_0000) == Bytes64(v)[..4] && Bytes32(w / 0x1_0000_0000) == Bytes64(w)[..4];
    assert Bytes32(v % 0x1_0000_0000) == Bytes64(v)[4..] && Bytes32(w % 0x1_0000_0000) == Bytes64(w)[4..];
    Bytes32Injective(v / 0x1_0000_0000, w / 0x1_0000_0000);
    Bytes32Injective(v % 0x1_0000_0000, w % 0x1_0000_0000);
  }

  lemma Digits32(v: U32)
    ensures (v / 0x100_0000) % 0x100 == v / 0x1_0000 / 0x100
    ensures (v / 0x1_0000) % 0x100 == v / 0x1_0000 % 0x100
    ensures (v / 0x100) % 0x100 == v % 0x1_0000 / 0x100
    ensures v % 0x100 == v % 0x1_0000 % 0x100
  {
    var hi, lo := v / 0x1_0000, v % 0x1_0000;
    assert v == hi * 0x1_0000 + lo;
    assert v / 0x100 == hi * 0x100 + lo / 0x100;
  }

  lemma Digits64(v: U64)
    ensures var hi, lo := v / 0x1_0000_0000, v % 0x1_0000_0000;
      && (v / 0x100_0000_0000_0000) % 0x100 == (hi / 0x100_0000) % 0x100
      && (v / 0x1_0000_0000_0000) % 0x100 == (hi / 0x1_0000) % 0x100
      && (v / 0x100_0000_0000) % 0x100 == (hi / 0x100) % 0x100
      && (v / 0x1_0000_0000) % 0x100 == hi % 0x100
      && (v / 0x100_0000) % 0x100 == (lo / 0x100_0000) % 0x100
      && (v / 0x1_0000) % 0x100 == (lo / 0x1_0000) % 0x100
      && (v / 0x100) % 0x100 == (lo / 0x100) % 0x100
      && v % 0x100 == lo % 0x100
  {
    var hi, lo := v / 0x1_0000_0000, v % 0x1_0000_0000;
    assert v == hi * 0x1_0000_0000 + lo;
    assert v / 0x100_0000 == hi * 0x100 + lo / 0x100_0000;
    assert v / 0x1_0000 == hi * 0x1_0000 + lo / 0x1_0000;
    assert v / 0x100 == hi * 0x100_0000 + lo / 0x100;
    assert v / 0x100_0000_0000_0000 == hi / 0x100_0000;
    assert v / 0x1_0000_0000_0000 == hi / 0x1_0000;
    assert v / 0x100_0000_0000 == hi / 0x100;
  }

  lemma PutTogether(v: U32)
    ensures v / 0x100_0000 * 0x100_0000 + (v / 0x1_0000) % 0x100 * 0x1_0000
            + (v / 0x100) % 0x100 * 0x100 + v % 0x100 == v
  {
    var a, b := v / 0x100, v / 0x1_0000;
    assert a == v / 0x100 && v == a * 0x100 + v % 0x100;
    assert b == a / 0x100 && a == b * 0x100 + a % 0x100;
    assert v / 0x100_0000 == b / 0x100 && b == b / 0x100 * 0x100 + b % 0x100;
  }

  function Digits(v: U32): (r: seq<Byte>)
  {
    [(v / 0x100_0000) % 0x100, (v / 0x1_0000) % 0x100, (v / 0x100) % 0x100, v % 0x100]
  }

  lemma Bytes32Digits(v: U32)
    ensures Bytes32(v) == Digits(v)
  {
    Digits32(v);
  }

  lemma Bytes64Digits(v: U64)
    ensures Bytes64(v) == [(v / 0x100_0000_0000_0000) % 0x100, (v / 0x1_0000_0000_0000) % 0x100,
                           (v / 0x100_0000_0000) % 0x100, (v / 0x1_0000_0000) % 0x100,
                           (v / 0x100_0000) % 0x100, (v / 0x1_0000) % 0x100, (v / 0x100) % 0x100, v % 0x100]
  {
    Digits64(v);
    Bytes32Digits(v / 0x1_0000_0000);
    Bytes32Digits(v % 0x1_0000_0000);
  }

  // ----- Reading ------------------------------------------------------------

  method Le16ToCpu(m: array<Byte>, o: nat) returns (v: U16)
    requires o + 2 <= m.Length
    ensures m[o..o + 2] == Bytes16(v)
  {
    var b0: int, b1: int := m[o], m[o + 1];
    v := b0 * 0x100 + b1;
  }

  method Le32ToCpu(m: array<Byte>, o: nat) returns (v: U32)
    requires o + 4 <= m.Length
    ensures m[o..o + 4] == Bytes32(v)
  {
    var b0: int, b1: int, b2: int, b3: int := m[o], m[o + 1], m[o + 2], m[o + 3];
    v := b0 * 0x100_0000 + b1 * 0x1_0000 + b2 * 0x100 + b3;
    assert v / 0x1_0000 == b0 * 0x100 + b1 && v % 0x1_0000 == b2 * 0x100 + b3;
  }

  /** Four bytes put together, the most significant first. */
  function Compose32(b0: Byte, b1: Byte, b2: Byte, b3: Byte): (v: U32)
    ensures Bytes32(v) == [b0, b1, b2, b3]
  {
    var x0: int, x1: int, x2: int, x3: int := b0, b1, b2, b3;
    var v := x0 * 0x100_0000 + x1 * 0x1_0000 + x2 * 0x100 + x3;
    assert v / 0x1_0000 == x0 * 0x100 + x1 && v % 0x1_0000 == x2 * 0x100 + x3;
    v
  }

  /** Two halves put together. */
  function Compose64(hi: U32, lo: U32): (v: U64)
    ensures Bytes64(v) == Bytes32(hi) + Bytes32(lo)
    ensures v == hi * 0x1_0000_0000 + lo
  {
    var h: int, l: int := hi, lo;
    var v := h * 0x1_0000_0000 + l;
    assert v / 0x1_0000_0000 == h && v % 0x1_0000_0000 == l;
    v
  }

  method LeU64ToCpu(m: array<Byte>, o: nat) returns (v: U64)
    requires o + 8 <= m.Length
    ensures m[o..o + 8] == Bytes64(v)
  {
    var b0: int, b1: int, b2: int, b3: int := m[o], m[o + 1], m[o + 2], m[o + 3];
    var b4: int, b5: int, b6: int, b7: int := m[o + 4], m[o + 5], m[o + 6], m[o + 7];
    v := b0 * 0x100_0000_0000_0000 + b1 * 0x1_0000_0000_0000 + b2 * 0x100_0000_0000 + b3 * 0x1_0000_0000
         + b4 * 0x100_0000 + b5 * 0x1_0000 + b6 * 0x100 + b7;
    var hi := Compose32(b0, b1, b2, b3);
    var lo := Compose32(b4, b5, b6, b7);
    assert v == Compose64(hi, lo);
    assert m[o..o + 8] == [b0, b1, b2, b3] + [b4, b5, b6, b7];
  }

  // ----- Writing ------------------------------------------------------------

  /** `b` has been stored at offset `o` and nothing else has changed. */
  ghost predicate Stored(before: seq<Byte>, after: seq<Byte>, o: nat, b: seq<Byte>) {
    && o + |b| <= |before| == |after|
    && after == before[..o] + b + before[o + |b|..]
  }

  lemma StoredPrefix(before: seq<Byte>, after: seq<Byte>, o: nat, b: seq<Byte>)
    requires Stored(before, after, o, b)
    ensures after[..o + |b|] == before[..o] + b
  {
  }

  lemma StoredAt(before: seq<Byte>, after: seq<Byte>, o: nat, b: seq<Byte>)
    requires o + |b| <= |before| == |after|
    requires forall i | 0 <= i < |b| :: after[o + i] == b[i]
    requires forall i | 0 <= i < |before| && !(o <= i < o + |b|) :: after[i] == before[i]
    ensures Stored(before, after, o, b)
  {
    assert after[o..o + |b|] == b;
  }

  /** Two stores, one right after the other. */
  lemma StoredTwice(before: seq<Byte>, mid: seq<Byte>, after: seq<Byte>, o: nat, b: seq<Byte>, c: seq<Byte>)
    requires Stored(before, mid, o, b) && Stored(mid, after, o + |b|, c)
    ensures Stored(before, after, o, b + c)
  {
    StoredPrefix(before, mid, o, b);
    assert mid[o + |b| + |c|..] == before[o + |b| + |c|..];
  }

  /** Two stores, the first one right behind the second. */
  lemma StoredBefore(before: seq<Byte>, mid: seq<Byte>, after: seq<Byte>, o: nat, b: seq<Byte>, c: seq<Byte>)
    requires Stored(before, mid, o + |b|, c) && Stored(mid, after, o, b)
    ensures Stored(before, after, o, b + c)
  {
    assert mid[..o] == before[..o];
    assert mid[o + |b|..] == c + before[o + |b| + |c|..];
    Associate(before[..o] + b, c, before[o + |b| + |c|..]);
    Associate(before[..o], b, c);
  }

  /** From `w` on the buffer is as it was. */
  ghost predicate Untouched(before: seq<Byte>, after: seq<Byte>, w: nat) {
    w <= |before| == |after| && after[w..] == before[w..]
  }

  lemma StoredUntouched(before: seq<Byte>, after: seq<Byte>, o: nat, b: seq<Byte>, w: nat)
    requires Stored(before, after, o, b) && o + |b| <= w <= |before|
    ensures Untouched(before, after, w)
  {
    assert after[o + |b|..] == before[o + |b|..];
    forall j | 0 <= j < |before| - w ensures after[w..][j] == before[w..][j] {
      assert after[w + j] == after[o + |b|..][w + j - o - |b|];
      assert before[w + j] == before[o + |b|..][w + j - o - |b|];
    }
  }

  lemma UntouchedOn(before: seq<Byte>, mid: seq<Byte>, after: seq<Byte>, v: nat, w: nat)
    requires Untouched(before, mid, v) && Untouched(mid, after, w) && v <= w
    ensures Untouched(before, after, w)
  {
    assert mid[w..] == mid[v..][w - v..] && before[w..] == before[v..][w - v..];
  }

  lemma Associate(x: seq<Byte>, y: seq<Byte>, z: seq<Byte>)
    ensures (x + y) + z == x + (y + z)
  {
  }

  method CpuToLe16(v: U16, m: array<Byte>, o: nat)
    requires o + 2 <= m.Length
    modifies m
    ensures Stored(old(m[..]), m[..], o, Bytes16(v))
  {
    m[o] := (v / 0x100) % 0x100;
    m[o + 1] := v % 0x100;
  }

  method CpuToLe32(v: U32, m: array<Byte>, o: nat)
    requires o + 4 <= m.Length
    modifies m
    ensures Stored(old(m[..]), m[..], o, Bytes32(v))
  {
    m[o] := (v / 0x100_0000) % 0x100;
    m[o + 1] := (v / 0x1_0000) % 0x100;
    m[o + 2] := (v / 0x100) % 0x100;
    m[o + 3] := v % 0x100;
    Bytes32Digits(v);
  }

  method CpuToLeU64(v: U64, m: array<Byte>, o: nat)
    requires o + 8 <= m.Length
    modifies m
    ensures Stored(old(m[..]), m[..], o, Bytes64(v))
  {
    ghost var before := m[..];
    Bytes64Digits(v);
    m[o] := (v / 0x100_0000_0000_0000) % 0x100;
    m[o + 1] := (v / 0x1_0000_0000_0000) % 0x100;
    m[o + 2] := (v / 0x100_0000_0000) % 0x100;
    m[o + 3] := (v / 0x1_0000_0000) % 0x100;
    m[o + 4] := (v / 0x100_0000) % 0x100;
    m[o + 5] := (v / 0x1_0000) % 0x100;
    m[o + 6] := (v / 0x100) % 0x100;
    m[o + 7] := v % 0x100;
    StoredAt(before, m[..], o, Bytes64(v));
  }

  /** The pattern under the three masks of cpu_to_lef, which cover all 32 bits. */
  function Masked(v: bv32): (r: bv32)
    ensures r == v
  {
    (v & 0xFF00_0000) | (v & 0x0780_0000) | (v & 0x007F_FFFF)
  }

  /** A float travels as its 32-bit pattern. */
  method CpuToLef(v: bv32, m: array<Byte>, o: nat)
    requires o + 4 <= m.Length
    modifies m
    ensures Stored(old(m[..]), m[..], o, Bytes32(v as int))
  {
    var tmp := Masked(v);
    CpuToLe32(tmp as int, m, o);
  }

  /** The four bytes of the pattern, put back one by one. */
  method LefToCpu(m: array<Byte>, o: nat) returns (v: U32)
    requires o + 4 <= m.Length
    ensures m[o..o + 4] == Bytes32(v)
  {
    var ivalue := Le32ToCpu(m, o);
    var b3, b2 := ivalue / 0x100_0000, (ivalue / 0x1_0000) % 0x100;
    var b1, b0 := (ivalue / 0x100) % 0x100, ivalue % 0x100;
    v := b3 * 0x100_0000 + b2 * 0x1_0000 + b1 * 0x100 + b0;
    PutTogether(ivalue);
  }

  // ----- Headers ------------------------------------------------------------

  const HDR_TYPE_MAP_OPEN := 1
  const HDR_TYPE_MAP_CLOSE := 2
  const HDR_TYPE_ARRAY_OPEN := 3
  const HDR_TYPE_ARRAY_CLOSE := 4
  const HDR_TYPE_INT16 := 5
  const HDR_TYPE_INT32 := 6
  const HDR_TYPE_INT64 := 7
  const HDR_TYPE_STRING := 8
  const HDR_TYPE_FLOAT := 9
  const HDR_TYPE_DOUBLE := 10
  const HDR_TYPE_BOOLEAN := 11

  type Nibble = x: int | 0 <= x < 0x10

  /** Bitwise or. */
  function BitOr(a: nat, b: nat): (r: nat)
    ensures a < 2 && b < 2 ==> r < 2
    ensures a < 4 && b < 4 ==> r < 4
    ensures a < 8 && b < 8 ==> r < 8
    ensures a < 16 && b < 16 ==> r < 16
    ensures a < 32 && b < 32 ==> r < 32
    ensures a < 64 && b < 64 ==> r < 64
    ensures a < 128 && b < 128 ==> r < 128
    ensures a < 256 && b < 256 ==> r < 256
  {
    if a == 0 then b else if b == 0 then a
    else 2 * BitOr(a / 2, b / 2) + if a % 2 == 1 || b % 2 == 1 then 1 else 0
  }

  /** The first byte of a header: the type above the key's top bits. */
  function HeaderByte(hdrType: Nibble, key: U16): Byte {
    BitOr(hdrType * 0x10, key / 0x100)
  }

  function Header(hdrType: Nibble, key: U16): (r: seq<Byte>)
    ensures |r| == 2
  {
    [HeaderByte(hdrType, key), key % 0x100]
  }

  function HeaderType(b0: Byte): Nibble {
    b0 / 0x10
  }

  function HeaderKey(b0: Byte, b1: Byte): Key {
    (b0 % 0x10) * 0x100 + b1
  }

  lemma BitOrDouble(a: nat, k: nat)
    ensures BitOr(2 * a, k) == 2 * BitOr(a, k / 2) + k % 2
  {
  }

  lemma BitOrLow(a: nat, k: nat)
    requires k < 0x10
    ensures BitOr(a * 0x10, k) == a * 0x10 + k
  {
    var k1 := k / 2;
    var k2 := k1 / 2;
    var k3 := k2 / 2;
    assert k3 / 2 == 0;
    BitOrDouble(8 * a, k);
    BitOrDouble(4 * a, k1);
    BitOrDouble(2 * a, k2);
    BitOrDouble(a, k3);
    assert BitOr(a, 0) == a;
  }

  /** A header gives back its type and key exactly when the key fits in twelve bits. */
  lemma HeaderRoundTrip(hdrType: Nibble, key: U16)
    ensures var h := Header(hdrType, key);
      (HeaderType(h[0]) == hdrType && HeaderKey(h[0], h[1]) == key) <==> key <= 0xFFF
  {
    if key <= 0xFFF {
      BitOrLow(hdrType, key / 0x100);
    }
  }

  method SetKey(hdrType: Nibble, key: U16, m: array<Byte>, o: nat)
    requires o + 2 <= m.Length
    modifies m
    ensures Stored(old(m[..]), m[..], o, Header(hdrType, key))
  {
    m[o] := HeaderByte(hdrType, key);
    m[o + 1] := key % 0x100;
  }
}

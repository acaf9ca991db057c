/**
 Path lookup of `bkv/src/bkv_val.c`: the callbacks of bkv_val_get2, what they
 find, and how that compares with a search of the tree.
 */
module BkvLookup {
  import opened BkvBytes
  import opened BkvError
  import opened BkvDocument
  import opened BkvEvents
  import opened BkvReader

  datatype Option<T> = None | Some(value: T)

  const BKV_KEY_INVALID := 0xFFF

  /** What the output value is set to: its type tag and the fields that go with it. */
  datatype Found =
    | NoValue
    | ObjectAt(priv: int)
    | ArrayAt(len: U16, priv: int)
    | Number(n: Scalar, priv: int, deep: int)
    | FloatNumber(bits: bv32)
    | Text(ptr: int, s: seq<Byte>)
    | Truth(b: bool)
    | Element(v: Scalar)
    | MistypedDouble(double: U64)

  /** A path of keys, without the BKV_KEY_INVALID at its end, or no path at all. */
  datatype Keys = Null | Path(path: seq<U16>)
  {
    function KeyAt(n: int): U16 {
      if Path? && 0 <= n < |path| then path[n] else BKV_KEY_INVALID
    }
  }

  /** bkv_val_get_ctx_t; `wild` tells that a callback has read outside the keys, or
      written outside the values, that it was given. */
  datatype GetCtx = GetCtx(
    keys: Keys, nbVal: int, val: seq<Found>, valOffset: nat, gotIt: bool, keyOffset: int, valIsSet: bool, wild: bool)
  {
    function Set(n: nat, v: Found): GetCtx {
      if n < |val| then this.(val := val[n := v], valIsSet := true) else this.(valIsSet := true, wild := true)
    }

    /** Reads the key looked for. */
    function Look(): GetCtx {
      if keys.Path? && 0 <= keyOffset < |keys.path| then this else this.(wild := true)
    }

    /** The key is the one looked for. */
    function Wanted(key: U16): bool {
      key == keys.KeyAt(keyOffset)
    }

    /** No key follows the one looked for. */
    function Last(): bool {
      keys.KeyAt(keyOffset + 1) == BKV_KEY_INVALID
    }
  }

  // ----- The callbacks -----------------------------------------------------------

  function GetMapOpen(c0: GetCtx, ptr: int, key: U16): (GetCtx, Reply) {
    if c0.keyOffset < 0 then (c0.(keyOffset := c0.keyOffset + 1), BKV_PARSE_ACTION_NONE)
    else
      var c := c0.Look();
      var c1 := if c.Wanted(key) then c.(gotIt := c.gotIt || c.Last(), keyOffset := c.keyOffset + 1) else c;
      if c1.gotIt then (c1.Set(0, ObjectAt(ptr)), BKV_PARSE_ACTION_STOP_LOOP)
      else (c1, if c.Wanted(key) then BKV_PARSE_ACTION_NONE else BKV_PARSE_ACTION_GOTO_END_MAP)
  }

  /** An element of an array when no path is given. */
  function GetElement(c: GetCtx, v: Scalar): (GetCtx, Reply) {
    (c.Set(c.valOffset, Element(v)).(valOffset := c.valOffset + 1),
     if c.valOffset + 1 >= c.nbVal then BKV_PARSE_ACTION_STOP_LOOP else BKV_PARSE_ACTION_NONE)
  }

  /** Numbers under the key of an inner step end the loop. */
  function GetNumber(c: GetCtx, key: U16, element: Scalar, v: Found): (GetCtx, Reply) {
    if c.keys.Null? then GetElement(c, element)
    else if !c.Wanted(key) then (c.Look(), BKV_PARSE_ACTION_NONE)
    else if c.Last() then (c.Look().Set(0, v), BKV_PARSE_ACTION_STOP_LOOP)
    else (c.Look(), BKV_PARSE_ACTION_STOP_LOOP)
  }

  /** Strings, booleans, doubles and arrays under the key of an inner step are passed over. */
  function GetOther(c: GetCtx, key: U16, v: Found): (GetCtx, Reply) {
    if c.Wanted(key) && c.Last() then (c.Look().Set(0, v), BKV_PARSE_ACTION_STOP_LOOP)
    else (c.Look(), BKV_PARSE_ACTION_NONE)
  }

  function GetArrayOpen(c: GetCtx, ptr: int, len: U16, key: U16): (GetCtx, Reply) {
    if c.keys.Null? then (c, BKV_PARSE_ACTION_NONE) else GetOther(c, key, ArrayAt(len, ptr))
  }

  function GetCallback(c: GetCtx, e: Event): (r: (GetCtx, Reply))
    ensures |r.0.val| == |c.val|
  {
    match e
    case MapOpen(ptr, key) => GetMapOpen(c, ptr, key)
    case MapClose(_) => (c, BKV_PARSE_ACTION_NONE)
    case ArrayOpen(ptr, len, key) => GetArrayOpen(c, ptr, len, key)
    case ArrayClose => (c, BKV_PARSE_ACTION_NONE)
    case Integer(ptr, deep, key, v) => GetNumber(c, key, v, Number(v, ptr, deep))
    case Value(ptr, key, Float(bits)) => GetNumber(c, key, Float(bits), FloatNumber(bits))
    case Value(ptr, key, Str(s)) => GetOther(c, key, Text(ptr, s))
    case Value(ptr, key, Boolean(b)) => GetOther(c, key, Truth(b))
    case Value(_, _, _) => (c, BKV_PARSE_ACTION_NONE)
    case Double(_, key, bits) => GetOther(c, key, MistypedDouble(bits))
  }

  // ----- Searching the tree --------------------------------------------------------

  /** An item and where the reader meets it. */
  datatype Spot = Spot(i: Item, pos: int, deep: int)

  /** What a lookup says of the item it ends at. */
  function Describe(s: Spot): Found {
    match s.i
    case Map(_, _, _) => ObjectAt(s.pos)
    case Arr(_, count, _, _) => ArrayAt(count, s.pos)
    case Leaf(_, Float(bits)) => FloatNumber(bits)
    case Leaf(_, Str(t)) => Text(s.pos + 4, t)
    case Leaf(_, Boolean(b)) => Truth(b)
    case Leaf(_, v) => Number(v, s.pos, s.deep)
  }

  /** The entries of a map that a lookup sees: its own, and those of the arrays among them. */
  function Visible(pos: int, deep: int, kids: seq<Item>): seq<Spot>
    decreases kids, 0
  {
    if kids == [] then []
    else VisibleItem(pos, deep, kids[0]) + Visible(pos + Extent(kids[0]), deep, kids[1..])
  }

  function VisibleItem(pos: int, deep: int, i: Item): seq<Spot>
    decreases i, 1
  {
    [Spot(i, pos, deep)] + if i.Arr? then Visible(pos + 6, deep + 1, i.kids) else []
  }

  /** The entries of the map at `s`. */
  function Inner(s: Spot): seq<Spot>
    requires s.i.Map?
  {
    Visible(s.pos + 4, s.deep + 1, s.i.kids)
  }

  /** The entries of the root map of a document at `base`. */
  function Entries(base: int, i: Item): seq<Spot>
    requires i.Map?
  {
    Inner(Spot(i, base, 0))
  }

  /** A number under an inner key ends the search without a result. */
  predicate Numeric(v: Scalar) {
    v.Int16? || v.Int32? || v.Int64? || v.Float?
  }

  /** The search deals with this entry: any entry under the last key, under an inner
      key only maps and numbers. */
  predicate Taken(s: Spot, k: U16, last: bool) {
    s.i.key == k && (last || s.i.Map? || (s.i.Leaf? && Numeric(s.i.value)))
  }

  /** The first of `spots` the search deals with, or their number when there is none. */
  function First(spots: seq<Spot>, k: U16, last: bool): (n: nat)
    ensures n <= |spots|
    ensures n < |spots| ==> Taken(spots[n], k, last)
    ensures forall j | 0 <= j < n :: !Taken(spots[j], k, last)
  {
    if spots == [] || Taken(spots[0], k, last) then 0 else 1 + First(spots[1..], k, last)
  }

  /** Step by step: the first match of each key among the entries of the map before it. */
  function Descend(path: seq<U16>, spots: seq<Spot>): Option<Found>
    requires path != []
  {
    var last := |path| == 1;
    var n := First(spots, path[0], last);
    if n == |spots| then None
    else if last then Some(Describe(spots[n]))
    else if spots[n].i.Map? then Descend(path[1..], Inner(spots[n]))
    else None
  }

  /** What the lookup really does: once inside a map it never goes back to the key
      before, so the entries after the map are searched as if they belonged to it. */
  function Search(path: seq<U16>, spots: seq<Spot>): Option<Found>
    requires path != []
    decreases |path|, 1
  {
    var n := First(spots, path[0], |path| == 1);
    if n == |spots| then None else SearchFrom(path, spots[n], spots[n + 1..])
  }

  /** The search has come to `s`, which it deals with, and `rest` follows. */
  function SearchFrom(path: seq<U16>, s: Spot, rest: seq<Spot>): Option<Found>
    requires path != []
    decreases |path|, 0
  {
    if |path| == 1 then Some(Describe(s))
    else if s.i.Map? then Search(path[1..], Inner(s) + rest)
    else None
  }

  // ----- Search against descent ------------------------------------------------------

  lemma {:induction false} FirstAppend(a: seq<Spot>, b: seq<Spot>, k: U16, last: bool)
    ensures First(a + b, k, last) == if First(a, k, last) < |a| then First(a, k, last) else |a| + First(b, k, last)
  {
    if a == [] {
      assert a + b == b;
    } else if !Taken(a[0], k, last) {
      FirstAppend(a[1..], b, k, last);
      assert (a + b)[1..] == a[1..] + b;
    }
  }

  /** Further entries do not change a lookup that resolves. */
  lemma {:induction false} DescendSearch(path: seq<U16>, spots: seq<Spot>, more: seq<Spot>)
    requires path != [] && Descend(path, spots).Some?
    ensures Search(path, spots + more) == Descend(path, spots)
    decreases |path|
  {
    var last := |path| == 1;
    var n := First(spots, path[0], last);
    FirstAppend(spots, more, path[0], last);
    if !last {
      DescendSearch(path[1..], Inner(spots[n]), spots[n + 1..] + more);
      assert (spots + more)[n + 1..] == spots[n + 1..] + more;
    }
  }

  /** Where the descent gets stuck: the keys it has not found, and the entries that
      come after the maps it has gone into. */
  function Stuck(path: seq<U16>, spots: seq<Spot>, after: seq<Spot>): (seq<U16>, seq<Spot>)
    requires path != []
  {
    var last := |path| == 1;
    var n := First(spots, path[0], last);
    if n < |spots| && !last && spots[n].i.Map? then Stuck(path[1..], Inner(spots[n]), spots[n + 1..] + after)
    else if n < |spots| then ([], after)
    else (path, after)
  }

  /** Exactly what a lookup answers: the descent's result when it resolves, and when it
      gets stuck whatever the keys left are found to be among the entries that follow. */
  lemma {:induction false} SearchExactly(path: seq<U16>, spots: seq<Spot>, after: seq<Spot>)
    requires path != []
    ensures var (left, rest) := Stuck(path, spots, after);
      Search(path, spots + after)
        == if Descend(path, spots).Some? then Descend(path, spots)
           else if left == [] then None
           else Search(left, rest)
    decreases |path|
  {
    var last := |path| == 1;
    var n := First(spots, path[0], last);
    FirstAppend(spots, after, path[0], last);
    if n < |spots| && !last && spots[n].i.Map? {
      SearchExactly(path[1..], Inner(spots[n]), spots[n + 1..] + after);
      assert (spots + after)[n + 1..] == spots[n + 1..] + after;
    } else if n == |spots| {
      SearchSkips(path, spots, after);
    }
  }

  lemma {:induction false} SearchSkips(path: seq<U16>, spots: seq<Spot>, after: seq<Spot>)
    requires path != [] && First(spots, path[0], |path| == 1) == |spots|
    ensures Search(path, spots + after) == Search(path, after)
  {
    FirstAppend(spots, after, path[0], |path| == 1);
    var n := First(after, path[0], |path| == 1);
    if n < |after| {
      DropAppended(spots, after, n);
    }
  }

  lemma DropAppended(a: seq<Spot>, b: seq<Spot>, n: nat)
    requires n < |b|
    ensures (a + b)[|a| + n] == b[n] && (a + b)[|a| + n + 1..] == b[n + 1..]
  {
  }

  /** What a lookup answers, by descents alone: when one gets stuck, the keys it has not
      found are looked up among the entries after the maps it has gone into, unless it
      has not gone into any. */
  function Settled(path: seq<U16>, spots: seq<Spot>): Option<Found>
    requires path != []
    decreases |path|
  {
    var (left, rest) := Stuck(path, spots, []);
    StuckShape(path, spots, []);
    if Descend(path, spots).Some? then Descend(path, spots)
    else if left == [] || |left| == |path| then None
    else Settled(left, rest)
  }

  /** Stuck at once, nothing has been gone into; otherwise fewer keys are left. */
  lemma {:induction false} StuckShape(path: seq<U16>, spots: seq<Spot>, after: seq<Spot>)
    requires path != []
    ensures var (left, rest) := Stuck(path, spots, after);
      |left| <= |path| && (|left| == |path| ==> left == path && rest == after)
    decreases |path|
  {
    var n := First(spots, path[0], |path| == 1);
    if n < |spots| && |path| > 1 && spots[n].i.Map? {
      StuckShape(path[1..], Inner(spots[n]), spots[n + 1..] + after);
    }
  }

  /** The lookup in closed form, for every path and document. */
  lemma {:induction false} SearchSettled(path: seq<U16>, spots: seq<Spot>)
    requires path != []
    ensures Search(path, spots) == Settled(path, spots)
    decreases |path|
  {
    var (left, rest) := Stuck(path, spots, []);
    StuckShape(path, spots, []);
    SearchExactly(path, spots, []);
    assert spots + [] == spots;
    if Descend(path, spots).None? && left != [] {
      if |left| == |path| {
        NothingThere(path);
      } else {
        SearchSettled(left, rest);
      }
    }
  }

  lemma NothingThere(path: seq<U16>)
    requires path != []
    ensures Search(path, []) == None
  {
  }

  /** A lookup is wrong, in that it answers where the descent does not, exactly when the
      descent has gone into some map, and the keys left are found behind it. */
  lemma {:induction false} StrayAnswer(path: seq<U16>, spots: seq<Spot>)
    requires path != []
    ensures var (left, rest) := Stuck(path, spots, []);
      (Search(path, spots) != Descend(path, spots))
        <==> (Descend(path, spots).None? && 0 < |left| < |path| && Settled(left, rest).Some?)
  {
    SearchSettled(path, spots);
    StuckShape(path, spots, []);
  }

  /** With one key left it is found when an entry has it. */
  lemma {:induction false} OneKeyLeft(k: U16, rest: seq<Spot>)
    ensures Settled([k], rest).Some? <==> exists s <- rest :: s.i.key == k
  {
    SearchSettled([k], rest);
    OneKey(k, rest);
  }

  /** One key: the first entry with it, in document order, and nothing when there is none. */
  lemma {:induction false} OneKey(k: U16, spots: seq<Spot>)
    ensures Search([k], spots).Some? <==> exists s <- spots :: s.i.key == k
    ensures forall n | 0 <= n < |spots| && IsFirst(spots, n, k) :: Search([k], spots) == Some(Describe(spots[n]))
  {
    var f := First(spots, k, true);
    if f < |spots| {
      assert spots[f] in spots;
    }
    forall n | 0 <= n < |spots| && IsFirst(spots, n, k) ensures n == f {
    }
  }

  /** The entry is the first one with the key. */
  predicate IsFirst(spots: seq<Spot>, n: nat, k: U16)
    requires n < |spots|
  {
    spots[n].i.key == k && forall j | 0 <= j < n :: spots[j].i.key != k
  }

  /** More keys: whenever the descent resolves, the lookup finds what it finds. */
  lemma DescendedIsFound(path: seq<U16>, spots: seq<Spot>)
    requires path != [] && Descend(path, spots).Some?
    ensures Search(path, spots) == Descend(path, spots)
  {
    DescendSearch(path, spots, []);
    assert spots + [] == spots;
  }

  /** In { 1: {}, 3: 7 } there is no 1.3, and yet it is found: the 3 beside the map. */
  lemma NotRolledBack()
    ensures var doc := Map(0, [Map(1, [], 0), Leaf(3, Int16(7))], 0);
      Descend([1, 3], Entries(0, doc)) == None && Search([1, 3], Entries(0, doc)) == Some(Number(Int16(7), 10, 1))
  {
    var m, l := Map(1, [], 0), Leaf(3, Int16(7));
    var s, t := Spot(m, 4, 1), Spot(l, 10, 1);
    assert Entries(0, Map(0, [m, l], 0)) == [s, t] by {
      assert [m, l][1..] == [l] && [l][1..] == [];
      assert Visible(10, 1, [l]) == VisibleItem(10, 1, l) + [] == [t];
      assert Visible(4, 1, [m, l]) == VisibleItem(4, 1, m) + [t];
    }
    assert First([s, t], 1, false) == 0 && [s, t][1..] == [t];
    assert [1, 3][1..] == [3] && Inner(s) == [] && [] + [t] == [t];
    FoundAfter(3, [], [t], t);
    assert First([], 3, true) == 0;
  }

  /** The entries seen under a key other than the array elements' are a map's own, and
      the maps held directly in its arrays, when arrays do not hold arrays. */
  lemma {:induction false} VisibleEntries(pos: int, deep: int, kids: seq<Item>, s: Spot)
    requires s in Visible(pos, deep, kids)
    requires forall a <- kids | a.Arr? :: forall x <- a.kids :: !x.Arr?
    ensures s.i in kids || exists a <- kids :: a.Arr? && s.i in a.kids
    decreases kids
  {
    var rest := Visible(pos + Extent(kids[0]), deep, kids[1..]);
    if s in rest {
      VisibleEntries(pos + Extent(kids[0]), deep, kids[1..], s);
    } else if s != Spot(kids[0], pos, deep) {
      VisibleFlat(pos + 6, deep + 1, kids[0].kids, s);
    }
  }

  lemma {:induction false} VisibleFlat(pos: int, deep: int, kids: seq<Item>, s: Spot)
    requires s in Visible(pos, deep, kids) && forall x <- kids :: !x.Arr?
    ensures s.i in kids
    decreases kids
  {
    if s != Spot(kids[0], pos, deep) {
      VisibleFlat(pos + Extent(kids[0]), deep, kids[1..], s);
    }
  }

  // ----- Documents inside documents ------------------------------------------------------

  function Moved(v: Found, p: int): Found {
    match v
    case ObjectAt(priv) => ObjectAt(priv + p)
    case ArrayAt(len, priv) => ArrayAt(len, priv + p)
    case Number(n, priv, deep) => Number(n, priv + p, deep)
    case Text(ptr, s) => Text(ptr + p, s)
    case _ => v
  }

  function MovedSpots(spots: seq<Spot>, p: int): (r: seq<Spot>)
    ensures |r| == |spots|
  {
    seq(|spots|, j requires 0 <= j < |spots| => spots[j].(pos := spots[j].pos + p))
  }

  lemma MovedConcat(a: seq<Spot>, b: seq<Spot>, p: int)
    ensures MovedSpots(a + b, p) == MovedSpots(a, p) + MovedSpots(b, p)
  {
  }

  lemma MovedDrop(spots: seq<Spot>, n: nat, p: int)
    requires n <= |spots|
    ensures MovedSpots(spots, p)[n..] == MovedSpots(spots[n..], p)
  {
  }

  lemma {:induction false} VisibleMoved(pos: int, deep: int, kids: seq<Item>, p: int)
    ensures Visible(pos + p, deep, kids) == MovedSpots(Visible(pos, deep, kids), p)
    decreases kids, 0
  {
    if kids != [] {
      VisibleMoved(pos + Extent(kids[0]), deep, kids[1..], p);
      VisibleItemMoved(pos, deep, kids[0], p);
      MovedConcat(VisibleItem(pos, deep, kids[0]), Visible(pos + Extent(kids[0]), deep, kids[1..]), p);
      assert pos + p + Extent(kids[0]) == pos + Extent(kids[0]) + p;
    }
  }

  lemma {:induction false} VisibleItemMoved(pos: int, deep: int, i: Item, p: int)
    ensures VisibleItem(pos + p, deep, i) == MovedSpots(VisibleItem(pos, deep, i), p)
    decreases i, 1
  {
    var arr := if i.Arr? then Visible(pos + 6, deep + 1, i.kids) else [];
    if i.Arr? {
      VisibleMoved(pos + 6, deep + 1, i.kids, p);
      assert pos + p + 6 == pos + 6 + p;
    }
    MovedConcat([Spot(i, pos, deep)], arr, p);
  }

  lemma {:induction false} FirstMoved(spots: seq<Spot>, p: int, k: U16, last: bool)
    ensures First(MovedSpots(spots, p), k, last) == First(spots, k, last)
  {
    if spots != [] {
      FirstMoved(spots[1..], p, k, last);
      MovedDrop(spots, 1, p);
    }
  }

  lemma {:induction false} SearchUnfold(path: seq<U16>, spots: seq<Spot>, n: nat)
    requires path != [] && n == First(spots, path[0], |path| == 1) < |spots|
    ensures Search(path, spots) == SearchFrom(path, spots[n], spots[n + 1..])
  {
  }

  function MovedResult(r: Option<Found>, p: int): Option<Found> {
    if r.Some? then Some(Moved(r.value, p)) else None
  }

  lemma {:induction false} SearchMoved(path: seq<U16>, spots: seq<Spot>, p: int)
    requires path != []
    ensures Search(path, MovedSpots(spots, p)) == MovedResult(Search(path, spots), p)
    decreases |path|, 1
  {
    var n, moved := First(spots, path[0], |path| == 1), MovedSpots(spots, p);
    FirstMoved(spots, p, path[0], |path| == 1);
    if n < |spots| {
      var s, rest := spots[n], spots[n + 1..];
      SearchUnfold(path, spots, n);
      SearchUnfold(path, moved, n);
      MovedDrop(spots, n + 1, p);
      assert moved[n] == s.(pos := s.pos + p);
      SearchFromMoved(path, s, rest, p);
    }
  }

  lemma {:induction false} SearchFromMoved(path: seq<U16>, s: Spot, rest: seq<Spot>, p: int)
    requires path != []
    ensures SearchFrom(path, s.(pos := s.pos + p), MovedSpots(rest, p)) == MovedResult(SearchFrom(path, s, rest), p)
    decreases |path|, 0
  {
    if |path| > 1 && s.i.Map? {
      VisibleMoved(s.pos + 4, s.deep + 1, s.i.kids, p);
      assert s.pos + p + 4 == s.pos + 4 + p;
      MovedConcat(Inner(s), rest, p);
      SearchMoved(path[1..], Inner(s) + rest, p);
    }
  }

  /** A lookup in a document answers the same wherever the document stands, but for
      the place: lengths count from a map's own header. */
  lemma LookupMoved(path: seq<U16>, i: Item, base: int)
    requires path != [] && i.Map?
    ensures Search(path, Entries(base, i)) == MovedResult(Search(path, Entries(0, i)), base)
  {
    VisibleMoved(4, 1, i.kids, base);
    SearchMoved(path, Entries(0, i), base);
  }

  lemma {:induction false} VisibleConcat(pos: int, deep: int, a: seq<Item>, b: seq<Item>)
    ensures Visible(pos, deep, a + b) == Visible(pos, deep, a) + Visible(pos + ExtentAll(a), deep, b)
    decreases a
  {
    var z := Visible(pos + ExtentAll(a), deep, b);
    if a == [] {
      assert a + b == b && [] + z == z;
    } else {
      VisibleConcat(pos + Extent(a[0]), deep, a[1..], b);
      ItemsFirst(a, b);
      assert pos + Extent(a[0]) + ExtentAll(a[1..]) == pos + ExtentAll(a);
      SpotsAssociate(VisibleItem(pos, deep, a[0]), Visible(pos + Extent(a[0]), deep, a[1..]), z);
    }
  }

  lemma ItemsFirst(a: seq<Item>, b: seq<Item>)
    requires a != []
    ensures (a + b)[0] == a[0] && (a + b)[1..] == a[1..] + b
  {
  }

  lemma SpotsAssociate(x: seq<Spot>, y: seq<Spot>, z: seq<Spot>)
    ensures (x + y) + z == x + (y + z)
  {
  }

  /** A document embedded under a key that nothing before it uses is found there, and
      at that place stand its own bytes, to look into in turn. */
  lemma {:induction false} EmbeddedIsFound(base: int, k: Key, before: seq<Item>, inner: Item, after: seq<Item>,
                                           pad: Byte)
    requires inner.Map? && forall s <- Visible(base + 4, 1, before) :: s.i.key != inner.key
    ensures var doc, o := Map(k, before + [inner] + after, pad), 4 + ExtentAll(before);
      && Search([inner.key], Entries(base, doc)) == Some(ObjectAt(base + o))
      && o + |Encode(inner)| <= |Encode(doc)| && Encode(doc)[o..o + |Encode(inner)|] == Encode(inner)
  {
    EmbeddedSpot(base, k, before, inner, after, pad);
    EmbeddedBytes(k, before, inner, after, pad);
  }

  lemma {:induction false} EmbeddedSpot(base: int, k: Key, before: seq<Item>, inner: Item, after: seq<Item>, pad: Byte)
    requires inner.Map? && forall s <- Visible(base + 4, 1, before) :: s.i.key != inner.key
    ensures Search([inner.key], Entries(base, Map(k, before + [inner] + after, pad)))
         == Some(ObjectAt(base + 4 + ExtentAll(before)))
  {
    var p := base + 4 + ExtentAll(before);
    var a, b := Visible(base + 4, 1, before), Visible(p, 1, [inner] + after);
    assert before + [inner] + after == before + ([inner] + after);
    VisibleConcat(base + 4, 1, before, [inner] + after);
    forall j | 0 <= j < |a| ensures a[j].i.key != inner.key {
      assert a[j] in a;
    }
    FoundAfter(inner.key, a, b, Spot(inner, p, 1));
  }

  lemma {:induction false} FoundAfter(k: U16, a: seq<Spot>, b: seq<Spot>, s: Spot)
    requires b != [] && b[0] == s && s.i.key == k && forall j | 0 <= j < |a| :: a[j].i.key != k
    ensures Search([k], a + b) == Some(Describe(s))
  {
    FirstAppend(a, b, k, true);
  }

  lemma {:induction false} EmbeddedBytes(k: Key, before: seq<Item>, inner: Item, after: seq<Item>, pad: Byte)
    ensures var doc, o := Map(k, before + [inner] + after, pad), 4 + ExtentAll(before);
      o + |Encode(inner)| <= |Encode(doc)| && Encode(doc)[o..o + |Encode(inner)|] == Encode(inner)
  {
    var kids := before + [inner] + after;
    EncodeAllConcat(before + [inner], after);
    EncodeAllAppend(before, inner);
    ExtentAllIsLength(before);
    MapBytesMiddle(k, EncodeAll(before), Encode(inner), EncodeAll(after), pad);
  }

  lemma MapBytesMiddle(k: Key, a: seq<Byte>, b: seq<Byte>, c: seq<Byte>, pad: Byte)
    ensures var all := MapBytes(k, a + b + c, pad);
      4 + |a| + |b| <= |all| && all[4 + |a|..4 + |a| + |b|] == b
  {
    Middle(Header(HDR_TYPE_MAP_OPEN, k) + Bytes16((|a + b + c| + 6) % 0x1_0000), a, b, c, CloseMapBytes(pad));
  }

  lemma Middle(h: seq<Byte>, a: seq<Byte>, b: seq<Byte>, c: seq<Byte>, mark: seq<Byte>)
    ensures var all := h + (a + b + c) + mark;
      |h| + |a| + |b| <= |all| && all[|h| + |a|..|h| + |a| + |b|] == b
  {
  }

  // ----- The callbacks search ------------------------------------------------------

  /** How the lookup comes out of some entries: with the value, stopped without one, still
      looking for key number `n`, or at a map too long for its length field, which it
      takes for unclosed or from which it jumps to the wrong place. */
  datatype Find = Hit(v: Found) | Dead | On(n: nat) | Cut | Astray

  function FindSpot(path: seq<U16>, n: nat, s: Spot): Find
    requires n < |path|
    ensures var f := FindSpot(path, n, s); f.On? ==> n <= f.n < |path|
    decreases s.i, 1
  {
    var last := n + 1 == |path|;
    if !Taken(s, path[n], last) then
      match s.i
      case Leaf(_, _) => On(n)
      case Map(_, _, _) => if Extent(s.i) < 0x1_0000 then On(n) else if Extent(s.i) % 0x1_0000 == 0 then Cut else Astray
      case Arr(_, _, kids, _) => FindAll(path, n, s.pos + 6, s.deep + 1, kids)
    else if last then Hit(Describe(s))
    else if s.i.Map? then FindAll(path, n + 1, s.pos + 4, s.deep + 1, s.i.kids)
    else Dead
  }

  function FindAll(path: seq<U16>, n: nat, pos: int, deep: int, kids: seq<Item>): Find
    requires n < |path|
    ensures var f := FindAll(path, n, pos, deep, kids); f.On? ==> n <= f.n < |path|
    decreases kids, 0
  {
    if kids == [] then On(n)
    else
      var f := FindSpot(path, n, Spot(kids[0], pos, deep));
      if f.On? then FindAll(path, f.n, pos + Extent(kids[0]), deep, kids[1..]) else f
  }

  /** A lookup under way: inside the root, with nothing found. */
  ghost predicate Looking(c: GetCtx, path: seq<U16>, n: int) {
    && c.keys == Path(path) && BKV_KEY_INVALID !in path && c.val != [] && !c.gotIt && !c.valIsSet && !c.wild
    && 0 <= c.keyOffset == n < |path|
  }

  /** The outcome of a stretch of the loop tells what `f` does. */
  ghost predicate Tells(o: Outcome<GetCtx>, f: Find, c: GetCtx, pos: int, deep: int) {
    match f
    case Hit(v) => o.Stopped? && !o.d.wild && o.d.valIsSet && c.val != [] && o.d.val == c.val[0 := v]
    case Dead => o.Stopped? && !o.d.wild && !o.d.valIsSet && o.d.val == c.val
    case On(n) => o == Going(c.(keyOffset := n), pos, deep)
    case Cut => o.BadLength? && !o.d.wild && !o.d.valIsSet && o.d.val == c.val
    case Astray => o.Lost?
  }

  /** The callbacks do what `FindSpot` does, whatever the item. */
  lemma {:induction false} RunFinds(c: GetCtx, path: seq<U16>, n: nat, s: Spot)
    requires Looking(c, path, n) && s.deep > 0
    ensures Tells(RunItem(GetCallback, c, s.pos, s.deep, s.i), FindSpot(path, n, s), c, s.pos + Extent(s.i), s.deep)
    decreases s.i, 1
  {
    match s.i
    case Leaf(_, _) =>
    case Map(k, kids, _) =>
      if k == path[n] && n + 1 < |path| {
        RunFindsAll(c.(keyOffset := n + 1), path, n + 1, s.pos + 4, s.deep + 1, kids);
      }
    case Arr(k, _, kids, _) =>
      if !(k == path[n] && n + 1 == |path|) {
        RunFindsAll(c, path, n, s.pos + 6, s.deep + 1, kids);
      }
  }

  lemma {:induction false} RunFindsAll(c: GetCtx, path: seq<U16>, n: nat, pos: int, deep: int, kids: seq<Item>)
    requires Looking(c, path, n) && deep > 0
    ensures Tells(RunAll(GetCallback, c, pos, deep, kids), FindAll(path, n, pos, deep, kids), c,
                  pos + ExtentAll(kids), deep)
    decreases kids, 0
  {
    if kids != [] {
      RunFinds(c, path, n, Spot(kids[0], pos, deep));
      var f := FindSpot(path, n, Spot(kids[0], pos, deep));
      if f.On? {
        RunFindsAll(c.(keyOffset := f.n), path, f.n, pos + Extent(kids[0]), deep, kids[1..]);
      }
    }
  }

  /** Jumping over this entry, if it is a map, lands behind it. */
  predicate Jumpable(s: Spot) {
    s.i.Map? ==> Extent(s.i) < 0x1_0000
  }

  /** The lookup can jump over every map that it does not go into or answer with. */
  predicate SkipsFit(path: seq<U16>, spots: seq<Spot>)
    requires path != []
    decreases |path|, 1
  {
    var n := First(spots, path[0], |path| == 1);
    && (forall j | 0 <= j < n :: Jumpable(spots[j]))
    && (n < |spots| ==> SkipsFitFrom(path, spots[n], spots[n + 1..]))
  }

  predicate SkipsFitFrom(path: seq<U16>, s: Spot, rest: seq<Spot>)
    requires path != []
    decreases |path|, 0
  {
    |path| > 1 && s.i.Map? ==> SkipsFit(path[1..], Inner(s) + rest)
  }

  lemma {:induction false} SkipsFitRest(path: seq<U16>, s: Spot, rest: seq<Spot>)
    requires path != [] && !Taken(s, path[0], |path| == 1) && SkipsFit(path, [s] + rest)
    ensures Jumpable(s) && SkipsFit(path, rest)
  {
    var n := First(rest, path[0], |path| == 1);
    FirstAppend([s], rest, path[0], |path| == 1);
    assert ([s] + rest)[0] == s;
    forall j | 0 <= j < n ensures Jumpable(rest[j]) {
      assert ([s] + rest)[j + 1] == rest[j];
    }
    if n < |rest| {
      DropAppended([s], rest, n);
    }
  }

  lemma {:induction false} SkipsFitMoved(path: seq<U16>, spots: seq<Spot>, p: int)
    requires path != [] && SkipsFit(path, spots)
    ensures SkipsFit(path, MovedSpots(spots, p))
    decreases |path|, 1
  {
    var n := First(spots, path[0], |path| == 1);
    FirstMoved(spots, p, path[0], |path| == 1);
    if n < |spots| {
      MovedDrop(spots, n + 1, p);
      SkipsFitFromMoved(path, spots[n], spots[n + 1..], p);
    }
  }

  lemma {:induction false} SkipsFitFromMoved(path: seq<U16>, s: Spot, rest: seq<Spot>, p: int)
    requires path != [] && SkipsFitFrom(path, s, rest)
    ensures SkipsFitFrom(path, s.(pos := s.pos + p), MovedSpots(rest, p))
    decreases |path|, 0
  {
    if |path| > 1 && s.i.Map? {
      VisibleMoved(s.pos + 4, s.deep + 1, s.i.kids, p);
      assert s.pos + p + 4 == s.pos + 4 + p;
      MovedConcat(Inner(s), rest, p);
      SkipsFitMoved(path[1..], Inner(s) + rest, p);
    }
  }

  /** Whether a lookup can jump where it has to does not depend on the document's place. */
  lemma SkipsFitAnywhere(path: seq<U16>, i: Item, base: int)
    requires path != [] && i.Map? && SkipsFit(path, Entries(0, i))
    ensures SkipsFit(path, Entries(base, i))
  {
    VisibleMoved(4, 1, i.kids, base);
    SkipsFitMoved(path, Entries(0, i), base);
  }

  /** The lookup of an embedded document jumps only over maps before it. */
  lemma {:induction false} EmbeddedSkips(base: int, k: U16, before: seq<Item>, inner: Item, after: seq<Item>, pad: Byte)
    requires forall s <- Visible(base + 4, 1, before) :: s.i.key != inner.key && Jumpable(s)
    ensures SkipsFit([inner.key], Entries(base, Map(k, before + [inner] + after, pad)))
  {
    var p := base + 4 + ExtentAll(before);
    var a, b := Visible(base + 4, 1, before), Visible(p, 1, [inner] + after);
    assert before + [inner] + after == before + ([inner] + after);
    VisibleConcat(base + 4, 1, before, [inner] + after);
    JumpsBefore(inner.key, a, b, p, inner);
  }

  lemma {:induction false} JumpsBefore(k: U16, a: seq<Spot>, b: seq<Spot>, p: int, inner: Item)
    requires forall s <- a :: s.i.key != k && Jumpable(s)
    requires b != [] && b[0] == Spot(inner, p, 1) && inner.key == k
    ensures SkipsFit([k], a + b)
  {
    forall j | 0 <= j < |a| ensures a[j].i.key != k && Jumpable(a[j]) {
      assert a[j] in a;
    }
    FirstAppend(a, b, k, true);
    assert First(b, k, true) == 0;
  }

  /** What `f` and then a search of `after` for the keys left come to. */
  function Answer(f: Find, path: seq<U16>, after: seq<Spot>): Option<Found>
    requires f.On? ==> f.n < |path|
  {
    match f
    case Hit(v) => Some(v)
    case On(n) => Search(path[n..], after)
    case _ => None
  }

  /** The lookup has not met a map too long, `after` may be searched, and it all comes to `r`. */
  ghost predicate Answers(f: Find, path: seq<U16>, after: seq<Spot>, r: Option<Found>)
    requires f.On? ==> f.n < |path|
  {
    && !f.Cut? && !f.Astray? && r == Answer(f, path, after)
    && (f.On? ==> SkipsFit(path[f.n..], after))
  }

  lemma {:induction false} FindSearches(path: seq<U16>, n: nat, s: Spot, after: seq<Spot>)
    requires n < |path| && SkipsFit(path[n..], VisibleItem(s.pos, s.deep, s.i) + after)
    ensures Answers(FindSpot(path, n, s), path, after, Search(path[n..], VisibleItem(s.pos, s.deep, s.i) + after))
    decreases s.i, 2
  {
    var all := VisibleItem(s.pos, s.deep, s.i) + after;
    var arr := Regroup(s, after);
    if s.i.Arr? {
      assert SkipsFit(path[n..], [s] + (arr + after)) by {
        assert all == [s] + (arr + after);
      }
      FindArr(path, n, s, arr, after);
    } else {
      FindOne(path, n, s, after);
    }
  }

  lemma {:induction false} FindArr(path: seq<U16>, n: nat, s: Spot, arr: seq<Spot>, after: seq<Spot>)
    requires n < |path| && s.i.Arr? && arr == Visible(s.pos + 6, s.deep + 1, s.i.kids)
    requires SkipsFit(path[n..], [s] + (arr + after))
    ensures Answers(FindSpot(path, n, s), path, after, Search(path[n..], [s] + (arr + after)))
    decreases s.i, 1
  {
    if Taken(s, path[n], n + 1 == |path|) {
      FindTaken(path, n, s, arr + after);
    } else {
      FindPassed(path, n, s, arr + after);
      FindAllSearches(path, n, s.pos + 6, s.deep + 1, s.i.kids, after);
    }
  }

  lemma {:induction false} FindOne(path: seq<U16>, n: nat, s: Spot, after: seq<Spot>)
    requires n < |path| && !s.i.Arr? && SkipsFit(path[n..], [s] + after)
    ensures Answers(FindSpot(path, n, s), path, after, Search(path[n..], [s] + after))
    decreases s.i, 1
  {
    if !Taken(s, path[n], n + 1 == |path|) {
      FindPassed(path, n, s, after);
    } else {
      FindTaken(path, n, s, after);
      if n + 1 < |path| && s.i.Map? {
        FindAllSearches(path, n + 1, s.pos + 4, s.deep + 1, s.i.kids, after);
      }
    }
  }

  lemma Regroup(s: Spot, after: seq<Spot>) returns (arr: seq<Spot>)
    ensures s.i.Arr? ==> arr == Visible(s.pos + 6, s.deep + 1, s.i.kids)
    ensures !s.i.Arr? ==> arr + after == after
    ensures VisibleItem(s.pos, s.deep, s.i) + after == [s] + (arr + after)
  {
    arr := if s.i.Arr? then Visible(s.pos + 6, s.deep + 1, s.i.kids) else [];
    assert VisibleItem(s.pos, s.deep, s.i) == [s] + arr;
  }

  /** The search at an entry it passes over. */
  lemma {:induction false} FindPassed(path: seq<U16>, n: nat, s: Spot, rest: seq<Spot>)
    requires n < |path| && !Taken(s, path[n], n + 1 == |path|) && SkipsFit(path[n..], [s] + rest)
    ensures Search(path[n..], [s] + rest) == Search(path[n..], rest) && SkipsFit(path[n..], rest) && Jumpable(s)
  {
    SearchSkips(path[n..], [s], rest);
    SkipsFitRest(path[n..], s, rest);
  }

  /** The search at an entry it deals with. */
  lemma {:induction false} FindTaken(path: seq<U16>, n: nat, s: Spot, rest: seq<Spot>)
    requires n < |path| && Taken(s, path[n], n + 1 == |path|) && SkipsFit(path[n..], [s] + rest)
    ensures Search(path[n..], [s] + rest) == SearchFrom(path[n..], s, rest)
    ensures n + 1 < |path| && s.i.Map? ==>
      path[n..][1..] == path[n + 1..] && SkipsFit(path[n + 1..], Inner(s) + rest)
  {
    assert ([s] + rest)[1..] == rest && ([s] + rest)[0] == s;
    assert n + 1 < |path| ==> path[n..][1..] == path[n + 1..];
    assert First([s] + rest, path[n..][0], |path[n..]| == 1) == 0;
  }

  lemma {:induction false} FindAllSearches(path: seq<U16>, n: nat, pos: int, deep: int, kids: seq<Item>,
                                           after: seq<Spot>)
    requires n < |path| && SkipsFit(path[n..], Visible(pos, deep, kids) + after)
    ensures Answers(FindAll(path, n, pos, deep, kids), path, after, Search(path[n..], Visible(pos, deep, kids) + after))
    decreases kids, 0
  {
    if kids == [] {
      assert [] + after == after;
    } else {
      var first, rest := Spot(kids[0], pos, deep), Visible(pos + Extent(kids[0]), deep, kids[1..]);
      assert Visible(pos, deep, kids) + after == VisibleItem(pos, deep, kids[0]) + (rest + after);
      FindSearches(path, n, first, rest + after);
      var f := FindSpot(path, n, first);
      if f.On? {
        FindAllSearches(path, f.n, pos + Extent(kids[0]), deep, kids[1..], after);
      }
    }
  }

  /** The context bkv_val_get2 starts with. */
  function GetStart(keys: Keys, nbVal: int, val: seq<Found>): GetCtx {
    GetCtx(keys, nbVal, val, 0, false, -1, false, false)
  }

  /** On a closed document the loop with these callbacks is a search of its entries. */
  lemma LookupSearches(path: seq<U16>, nbVal: int, val: seq<Found>, base: int, i: Item)
    requires path != [] && BKV_KEY_INVALID !in path && val != []
    requires i.Map? && SkipsFit(path, Entries(base, i))
    ensures var o := RunItem(GetCallback, GetStart(Path(path), nbVal, val), base, 0, i);
      var r := Search(path, Entries(base, i));
      && o.Stopped? && !o.d.wild
      && (o.d.valIsSet <==> r.Some?)
      && o.d.val == if r.Some? then val[0 := r.value] else val
  {
    var c := GetStart(Path(path), nbVal, val).(keyOffset := 0);
    RunFindsAll(c, path, 0, base + 4, 1, i.kids);
    assert path[0..] == path && Entries(base, i) + [] == Entries(base, i);
    FindAllSearches(path, 0, base + 4, 1, i.kids, []);
  }

  // ----- The elements of an array ----------------------------------------------------

  /** An array element that bkv_val_get2 takes without a path. */
  predicate NumberElement(i: Item) {
    i.Leaf? && Numeric(i.value)
  }

  function ElementOf(i: Item): Found {
    if i.Leaf? then Element(i.value) else NoValue
  }

  /** The loop over the elements from number `n` on stops at number `m`, all before it delivered. */
  lemma {:induction false} RunElements(c: GetCtx, pos: int, deep: int, kids: seq<Item>, n: nat, m: nat)
    requires c.keys.Null? && c.nbVal == m && c.valOffset == n < m <= n + |kids| && m <= |c.val| && !c.wild
    requires forall j | 0 <= j < m - n :: NumberElement(kids[j])
    ensures var o := RunAll(GetCallback, c, pos, deep, kids);
      && o.Stopped? && o.pos == pos + ExtentAll(kids[..m - n]) && o.d.valIsSet && !o.d.wild
      && |o.d.val| == |c.val|
      && (forall j | 0 <= j < |c.val| :: o.d.val[j] == if n <= j < m then ElementOf(kids[j - n]) else c.val[j])
    decreases kids
  {
    var c1 := GetElement(c, kids[0].value).0;
    var rest := kids[1..];
    assert kids[..m - n] == [kids[0]] + rest[..m - n - 1];
    assert kids[..m - n][1..] == rest[..m - n - 1];
    if n + 1 < m {
      RunElements(c1, pos + Extent(kids[0]), deep, rest, n + 1, m);
    }
  }

  /** Without a path the first `m` elements of an array of numbers are delivered in
      order, and the loop stops right after the last of them. */
  lemma ArrayFills(val: seq<Found>, m: nat, base: int, i: Item)
    requires i.Arr? && 1 <= m <= |i.kids| && m <= |val| && forall j | 0 <= j < m :: NumberElement(i.kids[j])
    ensures var o := RunItem(GetCallback, GetStart(Null, m, val), base, 0, i);
      && o.Stopped? && o.pos == base + 6 + ExtentAll(i.kids[..m]) && o.d.valIsSet && !o.d.wild
      && o.d.val == seq(m, j requires 0 <= j < m => ElementOf(i.kids[j])) + val[m..]
  {
    var c := GetStart(Null, m, val);
    RunElements(c, base + 6, 1, i.kids, 0, m);
  }

  // ----- bkv_val_get2 --------------------------------------------------------------------

  /** The outcome of the loop that bkv_val_get2 runs over the bytes. */
  function GetWalk(m: seq<Byte>, base: nat, keys: Keys, nbVal: int, val: seq<Found>): Outcome<GetCtx> {
    Walk(GetCallback, m, GetStart(keys, nbVal, val), base, 0)
  }

  lemma {:induction false} WalkKeepsSize(m: seq<Byte>, c: GetCtx, pos: nat, deep: int)
    ensures |Walk(GetCallback, m, c, pos, deep).d.val| == |c.val|
    decreases if pos <= |m| then |m| - pos + 1 else 0
  {
    var o := Round(GetCallback, m, c, pos, deep);
    if o.Going? {
      WalkKeepsSize(m, o.d, o.pos, o.deep);
    }
  }

  /** The lookup, on any bytes that neither the walk nor the callbacks leave.  `isArray` is
      the type of the value looked into. */
  method ValGet2(m: array<Byte>, base: nat, isArray: bool, keys: Keys, nbVal: int, val: array<Found>) returns (ret: int)
    requires keys.Path? || isArray ==>
      var o := GetWalk(m[..], base, keys, nbVal, val[..]); !o.Beyond? && !o.d.wild
    modifies val
    ensures keys.Null? && !isArray ==> ret == BKV_INV_ARG && val[..] == old(val[..])
    ensures keys.Path? || isArray ==>
      var o := GetWalk(old(m[..]), base, keys, nbVal, old(val[..]));
      ret == (if o.d.valIsSet then BKV_OK else BKV_INV_ARG) && val[..] == o.d.val
  {
    if keys.Null? && !isArray {
      return BKV_INV_ARG;
    }
    var c := GetStart(keys, nbVal, val[..]);
    WalkKeepsSize(m[..], c, base, 0);
    ghost var end;
    c, ret, end := ValForeach(m, base, GetCallback, c);
    forall j | 0 <= j < val.Length {
      val[j] := c.val[j];
    }
    assert val[..] == c.val;
    ret := if c.valIsSet then BKV_OK else BKV_INV_ARG;
  }

  /** With a path, on a document whose maps to jump over are short enough: the lookup is
      safe, answers exactly when the search finds an entry, and with that entry. */
  lemma GetSearches(m: seq<Byte>, base: nat, path: seq<U16>, nbVal: int, val: seq<Found>, i: Item)
    requires Readable(i) && At(m, base, Encode(i)) && i.Map?
    requires path != [] && BKV_KEY_INVALID !in path && val != [] && SkipsFit(path, Entries(base, i))
    ensures var o, r := GetWalk(m, base, Path(path), nbVal, val), Search(path, Entries(base, i));
      && o.Stopped? && !o.d.wild
      && (o.d.valIsSet <==> r.Some?)
      && o.d.val == if r.Some? then val[0 := r.value] else val
  {
    LookupSearches(path, nbVal, val, base, i);
    WalkItem(GetCallback, m, GetStart(Path(path), nbVal, val), base, 0, i);
  }

  /** Without one, on an array that begins with as many numbers as asked for. */
  lemma GetFills(m: seq<Byte>, base: nat, nbVal: nat, val: seq<Found>, i: Item)
    requires Readable(i) && At(m, base, Encode(i)) && i.Arr?
    requires 1 <= nbVal <= |i.kids| && nbVal <= |val| && forall j | 0 <= j < nbVal :: NumberElement(i.kids[j])
    ensures var o := GetWalk(m, base, Null, nbVal, val);
      && o.Stopped? && !o.d.wild && o.d.valIsSet && o.pos == base + 6 + ExtentAll(i.kids[..nbVal])
      && o.d.val == seq(nbVal, j requires 0 <= j < nbVal => ElementOf(i.kids[j])) + val[nbVal..]
  {
    ArrayFills(val, nbVal, base, i);
    WalkItem(GetCallback, m, GetStart(Null, nbVal, val), base, 0, i);
  }
}

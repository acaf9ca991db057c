/**
 What `bkv_val_get2` of `bkv/src/bkv_val.c` hands out, by the bytes it comes from.
 */
module BkvFound {
  import opened BkvBytes
  import opened BkvError
  import opened BkvDocument
  import opened BkvEvents
  import opened BkvReader
  import opened BkvWire
  import opened BkvLayout
  import opened BkvTurns
  import opened BkvLookup

  /** The output says of the item at `p`, which has this key, what its bytes say. */
  ghost predicate Says(m: seq<Byte>, p: int, deep: int, key: int, v: Found) {
    match v
    case ObjectAt(priv) => Headed(m, p, 1, key) && priv == p
    case ArrayAt(len, priv) => Headed(m, p, 3, key) && priv == p && p + 6 <= |m| && len == Word16(m, p + 4)
    case Number(n, priv, dp) => Stands(m, p, key, n) && WholeNumber(n) && priv == p && dp == deep
    case FloatNumber(bits) => Stands(m, p, key, Float(bits))
    case Text(ptr, s) => Stands(m, p, key, Str(s)) && ptr == p + 4
    case Truth(b) => Stands(m, p, key, Boolean(b))
    case MistypedDouble(bits) => Headed(m, p, 10, key) && p + 10 <= |m| && bits == Word64(m, p + 2)
    case _ => false
  }

  // ----- On any bytes ---------------------------------------------------------------

  /** A lookup that has found nothing yet. */
  predicate Seeking(c: GetCtx, path: seq<U16>) {
    c.keys == Path(path) && path != [] && BKV_KEY_INVALID !in path && c.val != [] && !c.gotIt && !c.valIsSet
  }

  /** A callback either sets the first value to what the bytes say, of an item with the
      last key, and asks to stop, or leaves the values alone. */
  ghost predicate SaysOrSeeks(m: seq<Byte>, c: GetCtx, path: seq<U16>, pos: int, deep: int, r: (GetCtx, Reply))
    requires path != [] && c.val != [] && |r.0.val| == |c.val|
  {
    && (!r.0.valIsSet ==> Seeking(r.0, path) && r.0.val == c.val)
    && (r.0.valIsSet ==> r.1.stop)
    && (r.0.valIsSet && !r.0.wild ==>
          r.0.val == c.val[0 := r.0.val[0]] && Says(m, pos, deep, path[|path| - 1], r.0.val[0]))
  }

  lemma OtherSays(m: seq<Byte>, c: GetCtx, path: seq<U16>, pos: int, deep: int, key: U16, v: Found)
    requires Seeking(c, path) && Says(m, pos, deep, key, v)
    ensures SaysOrSeeks(m, c, path, pos, deep, GetOther(c, key, v))
  {
  }

  lemma NumberSays(m: seq<Byte>, c: GetCtx, path: seq<U16>, pos: int, deep: int, key: U16, element: Scalar, v: Found)
    requires Seeking(c, path) && Says(m, pos, deep, key, v)
    ensures SaysOrSeeks(m, c, path, pos, deep, GetNumber(c, key, element, v))
  {
  }

  lemma CallbackSays(m: seq<Byte>, c: GetCtx, path: seq<U16>, pos: int, deep: int, e: Event)
    requires Seeking(c, path) && Reads(m, pos, deep, e)
    ensures SaysOrSeeks(m, c, path, pos, deep, GetCallback(c, e))
  {
    match e {
      case ArrayOpen(ptr, len, key) => OtherSays(m, c, path, pos, deep, key, ArrayAt(len, ptr));
      case Integer(ptr, dp, key, v) => NumberSays(m, c, path, pos, deep, key, v, Number(v, ptr, dp));
      case Value(_, key, Float(bits)) => NumberSays(m, c, path, pos, deep, key, Float(bits), FloatNumber(bits));
      case Value(ptr, key, Str(s)) => OtherSays(m, c, path, pos, deep, key, Text(ptr, s));
      case Value(_, key, Boolean(b)) => OtherSays(m, c, path, pos, deep, key, Truth(b));
      case Double(_, key, bits) => OtherSays(m, c, path, pos, deep, key, MistypedDouble(bits));
      case _ =>
    }
  }

  lemma SeeksOn(m: seq<Byte>, path: seq<U16>, t: Turn<GetCtx>, u: Turn<GetCtx>)
    requires Seeking(t.d, path) && Made(GetCallback, m, t) && GoesOn(m, t, u)
    ensures Seeking(u.d, path) && u.d.val == t.d.val
  {
    CallbackSays(m, t.d, path, t.pos, t.deep, t.e);
  }

  /** Up to its last turn the loop only seeks. */
  lemma {:induction false} SeeksUpTo(m: seq<Byte>, c: GetCtx, path: seq<U16>, base: int, turns: seq<Turn<GetCtx>>,
                                     k: nat)
    requires Seeking(c, path) && Turns(GetCallback, m, c, base, 0, turns) && k < |turns|
    ensures Seeking(turns[k].d, path) && turns[k].d.val == c.val
  {
    var kept := (d: GetCtx) => Seeking(d, path) && d.val == c.val;
    forall j | 0 <= j < |turns| - 1 && kept(turns[j].d) ensures kept(turns[j + 1].d) {
      TurnFollows(GetCallback, m, c, base, 0, turns, j);
      SeeksOn(m, path, turns[j], turns[j + 1]);
    }
    KeptUpTo(GetCallback, m, c, base, 0, turns, kept, k);
  }

  /** Where the loop has made its last callback, an item with this key stands, and the output
      says of it what its bytes say. */
  ghost predicate SaidAtLast(m: seq<Byte>, turns: seq<Turn<GetCtx>>, key: int, v: Found) {
    turns != [] && var t := turns[|turns| - 1]; Says(m, t.pos, t.deep, key, v)
  }

  /** What any lookup with a path leaves in the outputs. */
  lemma {:induction false} LookupSays(m: seq<Byte>, c: GetCtx, path: seq<U16>, base: int, turns: seq<Turn<GetCtx>>,
                                      c': GetCtx, ret: int, end: int)
    requires Seeking(c, path) && Turns(GetCallback, m, c, base, 0, turns)
    requires Over(m, c, base, turns, c', ret, end) && !c'.wild && |c'.val| == |c.val|
    ensures if c'.valIsSet then c'.val == c.val[0 := c'.val[0]] && SaidAtLast(m, turns, path[|path| - 1], c'.val[0])
            else c'.val == c.val
  {
    if turns != [] {
      var t := turns[|turns| - 1];
      SeeksUpTo(m, c, path, base, turns, |turns| - 1);
      assert Made(GetCallback, m, t);
      CallbackSays(m, t.d, path, t.pos, t.deep, t.e);
    }
  }

  /** bkv_val_get2 with a path, on any bytes that it does not leave: what it hands out is what
      the bytes say of an item under the last key, which the loop has come to last; a failure
      leaves the output alone. */
  method GetOnAnyBytes(m: array<Byte>, base: nat, path: seq<U16>, val: array<Found>)
    returns (ret: int, ghost turns: seq<Turn<GetCtx>>)
    requires path != [] && 0xFFF !in path && val.Length == 1
    requires var o := GetWalk(m[..], base, Path(path), 1, val[..]); !o.Beyond? && !o.d.wild
    modifies val
    ensures Turns(GetCallback, old(m[..]), GetStart(Path(path), 1, old(val[..])), base, 0, turns)
    ensures ret == 1 || ret == -5
    ensures ret == 1 ==> SaidAtLast(old(m[..]), turns, path[|path| - 1], val[0])
    ensures ret != 1 ==> val[..] == old(val[..])
  {
    ghost var c := GetStart(Path(path), 1, val[..]);
    ghost var o := GetWalk(m[..], base, Path(path), 1, val[..]);
    turns := WalkTurns(GetCallback, m[..], c, base, 0);
    WalkKeepsSize(m[..], c, base, 0);
    LookupSays(m[..], c, path, base, turns, o.d, AnswerOf(o), EndOf(o));
    ret := ValGet2(m, base, false, Path(path), 1, val);
    assert val[..][0] == val[0];
  }

  // ----- On documents ----------------------------------------------------------------

  /** All these entries stand where they are said to stand. */
  ghost predicate SpotsThere(m: seq<Byte>, spots: seq<Spot>) {
    forall s <- spots :: There(m, s.pos, s.i)
  }

  lemma {:induction false} VisibleThere(m: seq<Byte>, pos: int, deep: int, kids: seq<Item>)
    requires AllThere(m, pos, kids)
    ensures SpotsThere(m, Visible(pos, deep, kids))
    decreases kids, 0
  {
    if kids != [] {
      FirstAndRest(m, pos, kids);
      VisibleItemThere(m, pos, deep, kids[0]);
      VisibleThere(m, pos + Extent(kids[0]), deep, kids[1..]);
    }
  }

  lemma {:induction false} VisibleItemThere(m: seq<Byte>, pos: int, deep: int, i: Item)
    requires There(m, pos, i)
    ensures SpotsThere(m, VisibleItem(pos, deep, i))
    decreases i, 1
  {
    if i.Arr? {
      ArrFramed(m, pos, i);
      VisibleThere(m, pos + 6, deep + 1, i.kids);
    }
  }

  /** The entries of a map that stands in the buffer. */
  lemma {:induction false} InnerThere(m: seq<Byte>, s: Spot)
    requires s.i.Map? && There(m, s.pos, s.i)
    ensures SpotsThere(m, Inner(s))
  {
    MapFramed(m, s.pos, s.i);
    VisibleThere(m, s.pos + 4, s.deep + 1, s.i.kids);
  }

  /** An entry says of itself what its bytes say. */
  lemma DescribeSays(m: seq<Byte>, s: Spot)
    requires There(m, s.pos, s.i)
    ensures Says(m, s.pos, s.deep, s.i.key, Describe(s))
  {
    match s.i
    case Leaf(key, v) => LeafLaidOut(m, s.pos, key, v);
    case Map(_, _, _) => MapFramed(m, s.pos, s.i);
    case Arr(_, _, _, _) => ArrFramed(m, s.pos, s.i);
  }

  /** The header at `p` has this key, and the lookup does something there: under the last key
      anyhow, under a key before only at a map or a number. */
  ghost predicate Halts(m: seq<Byte>, p: int, key: U16, last: bool) {
    exists kind :: Headed(m, p, kind, key) && (last || kind in {1, 5, 6, 7, 9})
  }

  lemma HaltsTaken(m: seq<Byte>, s: Spot, key: U16, last: bool)
    requires There(m, s.pos, s.i)
    ensures Halts(m, s.pos, key, last) <==> Taken(s, key, last)
    ensures s.i.Map? <==> Headed(m, s.pos, 1, s.i.key)
  {
    DescribeSays(m, s);
    var kind := m[s.pos] / 0x10;
    assert Headed(m, s.pos, kind, s.i.key);
  }

  /** Entry number `n` is the first at which the lookup does something. */
  ghost predicate FirstHalt(m: seq<Byte>, spots: seq<Spot>, n: nat, key: U16, last: bool) {
    && n < |spots| && Halts(m, spots[n].pos, key, last)
    && forall j | 0 <= j < n :: !Halts(m, spots[j].pos, key, last)
  }

  /** The keys lead to this entry: each to the first one, from where the key before has led,
      at which the lookup does something; on the way these are maps, and their entries come
      before those behind them. */
  ghost predicate Leads(m: seq<Byte>, path: seq<U16>, spots: seq<Spot>, s: Spot)
    requires path != []
    decreases |path|, 1
  {
    exists n: nat :: FirstHalt(m, spots, n, path[0], |path| == 1) && LeadsVia(m, path, spots, n, s)
  }

  ghost predicate LeadsVia(m: seq<Byte>, path: seq<U16>, spots: seq<Spot>, n: nat, s: Spot)
    requires path != [] && n < |spots|
    decreases |path|, 0
  {
    if |path| == 1 then s == spots[n]
    else Headed(m, spots[n].pos, 1, path[0]) && spots[n].i.Map?
         && Leads(m, path[1..], Inner(spots[n]) + spots[n + 1..], s)
  }

  lemma {:induction false} FirstHaltIs(m: seq<Byte>, spots: seq<Spot>, n: nat, key: U16, last: bool)
    requires SpotsThere(m, spots)
    ensures FirstHalt(m, spots, n, key, last) <==> n == First(spots, key, last) < |spots|
  {
    forall j | 0 <= j < |spots| ensures Halts(m, spots[j].pos, key, last) <==> Taken(spots[j], key, last) {
      assert spots[j] in spots;
      HaltsTaken(m, spots[j], key, last);
    }
  }

  /** A lookup that answers has been led somewhere. */
  lemma {:induction false} AnswerLed(m: seq<Byte>, path: seq<U16>, spots: seq<Spot>) returns (s: Spot)
    requires path != [] && SpotsThere(m, spots) && Search(path, spots).Some?
    ensures Leads(m, path, spots, s)
    decreases |path|
  {
    var last := |path| == 1;
    var n := First(spots, path[0], last);
    FirstHaltIs(m, spots, n, path[0], last);
    s := spots[n];
    assert s in spots;
    if !last {
      HaltsTaken(m, spots[n], path[0], last);
      InnerThere(m, spots[n]);
      s := AnswerLed(m, path[1..], Inner(spots[n]) + spots[n + 1..]);
    }
    assert LeadsVia(m, path, spots, n, s);
  }

  /** The entry that the keys lead to is the answer. */
  lemma {:induction false} LedAnswers(m: seq<Byte>, path: seq<U16>, spots: seq<Spot>, s: Spot)
    requires path != [] && SpotsThere(m, spots) && Leads(m, path, spots, s)
    ensures There(m, s.pos, s.i) && s.i.key == path[|path| - 1] && Search(path, spots) == Some(Describe(s))
    decreases |path|, 1
  {
    var n: nat :| FirstHalt(m, spots, n, path[0], |path| == 1) && LeadsVia(m, path, spots, n, s);
    FirstHaltIs(m, spots, n, path[0], |path| == 1);
    assert spots[n] in spots;
    SearchUnfold(path, spots, n);
    LedVia(m, path, spots, n, s);
  }

  lemma {:induction false} LedVia(m: seq<Byte>, path: seq<U16>, spots: seq<Spot>, n: nat, s: Spot)
    requires path != [] && SpotsThere(m, spots) && n < |spots| && LeadsVia(m, path, spots, n, s)
    requires Taken(spots[n], path[0], |path| == 1) && There(m, spots[n].pos, spots[n].i)
    ensures There(m, s.pos, s.i) && s.i.key == path[|path| - 1]
    ensures SearchFrom(path, spots[n], spots[n + 1..]) == Some(Describe(s))
    decreases |path|, 0
  {
    if |path| > 1 {
      InnerThere(m, spots[n]);
      LedAnswers(m, path[1..], Inner(spots[n]) + spots[n + 1..], s);
    }
  }

  /** The keys lead somewhere. */
  ghost predicate Led(m: seq<Byte>, path: seq<U16>, spots: seq<Spot>)
    requires path != []
  {
    exists s :: Leads(m, path, spots, s)
  }

  lemma {:induction false} LedSays(m: seq<Byte>, path: seq<U16>, spots: seq<Spot>, s: Spot)
    requires path != [] && SpotsThere(m, spots) && Leads(m, path, spots, s)
    ensures There(m, s.pos, s.i) && Search(path, spots).Some?
    ensures Says(m, s.pos, s.deep, path[|path| - 1], Search(path, spots).value)
  {
    LedAnswers(m, path, spots, s);
    DescribeSays(m, s);
  }

  /** A lookup answers exactly when the keys lead somewhere. */
  lemma {:induction false} AnswersWhenLed(m: seq<Byte>, path: seq<U16>, spots: seq<Spot>)
    requires path != [] && SpotsThere(m, spots)
    ensures Search(path, spots).Some? <==> Led(m, path, spots)
  {
    if Search(path, spots).Some? {
      var s := AnswerLed(m, path, spots);
    }
    if Led(m, path, spots) {
      var s :| Leads(m, path, spots, s);
      LedSays(m, path, spots, s);
    }
  }

  /** On a document that stands at `base`: a lookup answers exactly when the keys lead to an
      entry, and says of it what the bytes at its place say. */
  lemma {:induction false} FoundByBytes(m: seq<Byte>, base: int, path: seq<U16>, i: Item)
    requires path != [] && i.Map? && There(m, base, i)
    ensures Search(path, Entries(base, i)).Some? <==> Led(m, path, Entries(base, i))
    ensures forall s | Leads(m, path, Entries(base, i), s) ::
      There(m, s.pos, s.i) && Says(m, s.pos, s.deep, path[|path| - 1], Search(path, Entries(base, i)).value)
  {
    InnerThere(m, Spot(i, base, 0));
    AnswersWhenLed(m, path, Entries(base, i));
    forall s | Leads(m, path, Entries(base, i), s)
      ensures There(m, s.pos, s.i) && Search(path, Entries(base, i)).Some?
      ensures Says(m, s.pos, s.deep, path[|path| - 1], Search(path, Entries(base, i)).value)
    {
      LedSays(m, path, Entries(base, i), s);
    }
  }

  /** bkv_val_get2 with a path on the document that stands at `base`, whose maps to jump over
      are short enough: it answers exactly when the keys lead to an entry, and says of that
      entry what its bytes say. */
  method GetOnDocument(m: array<Byte>, base: nat, path: seq<U16>, ghost i: Item) returns (ret: int, found: Found)
    requires i.Map? && There(m[..], base, i)
    requires path != [] && 0xFFF !in path && SkipsFit(path, Entries(base, i))
    ensures ret == if Led(m[..], path, Entries(base, i)) then 1 else -5
    ensures forall s | Leads(m[..], path, Entries(base, i), s) ::
      Says(m[..], s.pos, s.deep, path[|path| - 1], found)
  {
    var val := new Found[1](_ => NoValue);
    FoundByBytes(m[..], base, path, i);
    GetSearches(m[..], base, path, 1, val[..], i);
    ret := ValGet2(m, base, false, Path(path), 1, val);
    found := val[..][0];
  }

  /** These entries stand one behind the other, from `lo` to before `hi`. */
  ghost predicate Ascending(v: seq<Spot>, lo: int, hi: int) {
    && (forall a | 0 <= a < |v| :: lo <= v[a].pos < hi)
    && forall a, b | 0 <= a < b < |v| :: v[a].pos < v[b].pos
  }

  lemma AscendingConcat(v: seq<Spot>, w: seq<Spot>, lo: int, mid: int, hi: int)
    requires Ascending(v, lo, mid) && Ascending(w, mid, hi) && lo <= mid <= hi
    ensures Ascending(v + w, lo, hi)
  {
  }

  /** The visible entries are in the order in which they stand. */
  lemma {:induction false} VisibleAscends(pos: int, deep: int, kids: seq<Item>)
    ensures Ascending(Visible(pos, deep, kids), pos, pos + ExtentAll(kids))
    decreases kids, 0
  {
    if kids != [] {
      var mid := pos + Extent(kids[0]);
      VisibleItemAscends(pos, deep, kids[0]);
      VisibleAscends(mid, deep, kids[1..]);
      AscendingConcat(VisibleItem(pos, deep, kids[0]), Visible(mid, deep, kids[1..]), pos, mid, pos + ExtentAll(kids));
    }
  }

  lemma {:induction false} VisibleItemAscends(pos: int, deep: int, i: Item)
    ensures Ascending(VisibleItem(pos, deep, i), pos, pos + Extent(i))
    decreases i, 1
  {
    if i.Arr? {
      VisibleAscends(pos + 6, deep + 1, i.kids);
      AscendingConcat([Spot(i, pos, deep)], Visible(pos + 6, deep + 1, i.kids), pos, pos + 6, pos + Extent(i));
    }
  }

  /** None is missing: every entry of a map or an array among the entries is there, at its place. */
  lemma {:induction false} VisibleHas(pos: int, deep: int, kids: seq<Item>, j: nat)
    requires j < |kids|
    ensures Spot(kids[j], pos + ExtentAll(kids[..j]), deep) in Visible(pos, deep, kids)
    ensures kids[j].Arr? ==>
      forall s <- Visible(pos + ExtentAll(kids[..j]) + 6, deep + 1, kids[j].kids) :: s in Visible(pos, deep, kids)
    decreases j
  {
    if j > 0 {
      VisibleHas(pos + Extent(kids[0]), deep, kids[1..], j - 1);
      assert kids[1..][..j - 1] == kids[..j][1..] && kids[1..][j - 1] == kids[j];
      assert ExtentAll(kids[..j]) == Extent(kids[0]) + ExtentAll(kids[..j][1..]);
    } else {
      assert kids[..0] == [];
    }
  }

  // ----- The elements of an array ------------------------------------------------------

  lemma ElementSays(m: seq<Byte>, base: int, i: Item, j: nat)
    requires i.Arr? && There(m, base, i) && j < |i.kids| && NumberElement(i.kids[j])
    ensures ElementOf(i.kids[j]).Element?
    ensures Stands(m, Place(base, i, j), i.kids[j].key, ElementOf(i.kids[j]).v)
  {
    EntryThere(m, base, i, j);
    LeafLaidOut(m, Place(base, i, j), i.kids[j].key, i.kids[j].value);
  }

  /** bkv_val_get2 without a path, on an array that begins with enough numbers: output number
      `j` is the value whose bytes stand at the place of element number `j`. */
  method GetElements(m: array<Byte>, base: nat, ghost i: Item, val: array<Found>) returns (ret: int)
    requires i.Arr? && There(m[..], base, i) && 1 <= val.Length <= |i.kids|
    requires forall j | 0 <= j < val.Length :: NumberElement(i.kids[j])
    modifies val
    ensures ret == 1
    ensures forall j | 0 <= j < val.Length ::
      val[j].Element? && Stands(old(m[..]), Place(base, i, j), i.kids[j].key, val[j].v)
  {
    ghost var bytes, n := m[..], val.Length;
    GetFills(bytes, base, n, val[..], i);
    forall j: nat | j < n
      ensures ElementOf(i.kids[j]).Element?
      ensures Stands(bytes, Place(base, i, j), i.kids[j].key, ElementOf(i.kids[j]).v)
    {
      ElementSays(bytes, base, i, j);
    }
    ret := ValGet2(m, base, true, Null, val.Length, val);
    forall j | 0 <= j < n ensures val[j] == ElementOf(i.kids[j]) {
      assert val[j] == val[..][j];
    }
  }
}

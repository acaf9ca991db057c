/**
 The loop of `val_foreach` in `bkv/src/bkv_val.c` as the list of its turns: what each
 turn reads, where it goes, and when there is no further one.
 */
module BkvTurns {
  import opened BkvBytes
  import opened BkvError
  import opened BkvDocument
  import opened BkvEvents
  import opened BkvLayout
  import opened BkvReader
  import opened BkvWire

  /** One callback: where the loop stands, the data before, the arguments, and the answer. */
  datatype Turn<D> = Turn(pos: int, deep: int, d: D, e: Event, r: (D, Reply))

  /** The bytes at `pos` call for this callback. */
  ghost predicate Reads(m: seq<Byte>, pos: int, deep: int, e: Event) {
    match e
    case MapOpen(ptr, key) => Headed(m, pos, 1, key) && ptr == pos
    case MapClose(key) => Headed(m, pos, 2, key)
    case ArrayOpen(ptr, len, key) => Headed(m, pos, 3, key) && ptr == pos && pos + 6 <= |m| && len == Word16(m, pos + 4)
    case ArrayClose => pos >= 0 && pos + 2 <= |m| && m[pos] / 0x10 == 4
    case Integer(ptr, dp, key, v) => Stands(m, pos, key, v) && WholeNumber(v) && ptr == pos && dp == deep
    case Value(ptr, key, v) => Stands(m, pos, key, v) && !WholeNumber(v) && ptr == if v.Str? then pos + 4 else pos + 2
    case Double(ptr, key, bits) =>
      Headed(m, pos, 10, key) && ptr == pos + 2 && pos + 10 <= |m| && bits == Word64(m, pos + 2)
  }

  predicate WholeNumber(v: Scalar) {
    v.Int16? || v.Int32? || v.Int64?
  }

  predicate Skips<D>(t: Turn<D>) {
    t.e.MapOpen? && t.r.1.gotoEnd
  }

  /** The map to skip has no length: it was never closed. */
  ghost predicate Unclosed<D>(m: seq<Byte>, t: Turn<D>) {
    Skips(t) && 0 <= t.pos && t.pos + 4 <= |m| && Word16(m, t.pos + 2) == 0
  }

  /** Where the pointer goes in this turn. */
  ghost predicate Goes<D>(m: seq<Byte>, t: Turn<D>, pos: int) {
    match t.e
    case MapOpen(_, _) =>
      if t.r.1.gotoEnd then 0 <= t.pos && t.pos + 4 <= |m| && pos == t.pos + Word16(m, t.pos + 2) > t.pos
      else pos == t.pos + 4
    case MapClose(_) => pos == t.pos + 2
    case ArrayOpen(_, _, _) => pos == t.pos + 6
    case ArrayClose => pos == t.pos + 5
    case Integer(_, _, _, v) => pos == t.pos + if v.Int16? then 4 else if v.Int32? then 6 else 10
    case Value(_, _, v) => pos == t.pos + if v.Str? then 4 + |v.s| else if v.Float? then 6 else 3
    case Double(_, _, _) => pos == t.pos + 10
  }

  /** The depth after this turn. */
  function DeepAfter<D>(t: Turn<D>): int {
    if t.e.ArrayOpen? || (t.e.MapOpen? && !t.r.1.gotoEnd) then t.deep + 1
    else if t.e.MapClose? || t.e.ArrayClose? then t.deep - 1
    else t.deep
  }

  /** No header that the loop knows stands at `pos`. */
  ghost predicate Unknown(m: seq<Byte>, pos: int) {
    0 <= pos && pos + 2 <= |m| && (m[pos] / 0x10 == 0 || m[pos] / 0x10 > 11)
  }

  /** The turn closes the outermost map. */
  predicate Outermost<D>(t: Turn<D>) {
    t.e.MapClose? && t.deep == 1
  }

  /** `t` is followed by `u`: nobody has asked to stop and the outermost map is still open. */
  ghost predicate GoesOn<D>(m: seq<Byte>, t: Turn<D>, u: Turn<D>) {
    !t.r.1.stop && !Outermost(t) && Goes(m, t, u.pos) && u.deep == DeepAfter(t) && u.d == t.r.0
  }

  /** The callback that the bytes call for, and its answer. */
  ghost predicate Made<D>(cb: Callbacks<D>, m: seq<Byte>, t: Turn<D>) {
    Reads(m, t.pos, t.deep, t.e) && t.r == cb(t.d, t.e)
  }

  /** These are turns of the loop that starts at `pos`, one after the other. */
  ghost predicate Turns<D>(cb: Callbacks<D>, m: seq<Byte>, d: D, pos: int, deep: int, turns: seq<Turn<D>>) {
    && (turns != [] ==> turns[0].pos == pos && turns[0].deep == deep && turns[0].d == d)
    && (forall k | 0 <= k < |turns| :: Made(cb, m, turns[k]))
    && (forall k | 0 <= k < |turns| - 1 :: GoesOn(m, turns[k], turns[k + 1]))
  }

  lemma TurnFollows<D>(cb: Callbacks<D>, m: seq<Byte>, d: D, pos: int, deep: int, turns: seq<Turn<D>>, k: nat)
    requires Turns(cb, m, d, pos, deep, turns) && k + 1 < |turns|
    ensures Made(cb, m, turns[k]) && GoesOn(m, turns[k], turns[k + 1])
  {
  }

  /** What holds of the data at first, and is kept by each turn, holds at every turn. */
  lemma {:induction false} KeptUpTo<D>(cb: Callbacks<D>, m: seq<Byte>, d: D, pos: int, deep: int, turns: seq<Turn<D>>,
                                       kept: D -> bool, k: nat)
    requires Turns(cb, m, d, pos, deep, turns) && k < |turns| && kept(d)
    requires forall j | 0 <= j < |turns| - 1 && kept(turns[j].d) :: kept(turns[j + 1].d)
    ensures kept(turns[k].d)
  {
    if k > 0 {
      KeptUpTo(cb, m, d, pos, deep, turns, kept, k - 1);
    }
  }

  /** Why there is no turn after these, with what data and answer, and where the loop stands
      then: it has been told to stop, it has closed the outermost map, it does not know the
      header, or, and only then is the answer an error, it has to skip an unclosed map. */
  ghost predicate Over<D>(m: seq<Byte>, d: D, pos: int, turns: seq<Turn<D>>, d': D, ret: int, end: int) {
    if turns == [] then d' == d && end == pos && ret == 1 && Unknown(m, pos)
    else
      var t := turns[|turns| - 1];
      && d' == t.r.0
      && if Unclosed(m, t) then ret == -5
         else ret == 1 && Goes(m, t, end) && (t.r.1.stop || Outermost(t) || Unknown(m, end))
  }

  // ----- The walk consists of turns --------------------------------------------------

  /** The turn that the round at `pos` makes. */
  function TurnAt<D>(cb: Callbacks<D>, d: D, pos: int, deep: int, e: Event): Turn<D> {
    Turn(pos, deep, d, e, cb(d, e))
  }

  /** The round ends as the turn says. */
  ghost predicate Ends<D>(m: seq<Byte>, t: Turn<D>, o: Outcome<D>) {
    && o.d == t.r.0
    && if Unclosed(m, t) then o.BadLength?
       else
         && (o.Going? || o.Stopped?) && Goes(m, t, o.pos) && o.deep == DeepAfter(t)
         && (o.Stopped? <==> t.r.1.stop || Outermost(t))
  }

  lemma DoubleTurn<D>(cb: Callbacks<D>, m: seq<Byte>, d: D, pos: nat, deep: int, key: U16) returns (turn: Turn<D>)
    requires Headed(m, pos, 10, key) && pos + 10 <= |m|
    ensures turn == TurnAt(cb, d, pos, deep, Double(pos + 2, key, U64At(m, pos + 2))) && Made(cb, m, turn)
  {
    Word64Bytes(m, pos + 2, U64At(m, pos + 2));
    turn := TurnAt(cb, d, pos, deep, Double(pos + 2, key, U64At(m, pos + 2)));
  }

  lemma ScalarTurn<D>(cb: Callbacks<D>, m: seq<Byte>, d: D, pos: nat, deep: int, t: Nibble, key: U16)
    returns (turn: Turn<D>)
    requires Headed(m, pos, t, key) && ScalarHeader(t) && !RoundScalar(cb, m, d, pos, deep, t, key).Beyond?
    ensures turn.pos == pos && turn.deep == deep && turn.d == d && Made(cb, m, turn)
    ensures Ends(m, turn, RoundScalar(cb, m, d, pos, deep, t, key))
  {
    if t == HDR_TYPE_DOUBLE {
      turn := DoubleTurn(cb, m, d, pos, deep, key);
    } else {
      ScalarStands(m, pos, t, key);
      turn := TurnAt(cb, d, pos, deep, LeafEvent(pos, deep, key, ScalarAt(m, pos + 2, t)));
    }
  }

  lemma RoundTurns<D>(cb: Callbacks<D>, m: seq<Byte>, d: D, pos: nat, deep: int) returns (turns: seq<Turn<D>>)
    requires !Round(cb, m, d, pos, deep).Beyond?
    ensures var o := Round(cb, m, d, pos, deep);
      if turns == [] then Unknown(m, pos) && o == Stopped(d, pos, deep)
      else
        && |turns| == 1 && turns[0].pos == pos && turns[0].deep == deep && turns[0].d == d
        && Made(cb, m, turns[0]) && Ends(m, turns[0], o)
  {
    var t, key := HeaderType(m[pos]), HeaderKey(m[pos], m[pos + 1]);
    if t == HDR_TYPE_MAP_OPEN {
      turns := [TurnAt(cb, d, pos, deep, MapOpen(pos, key))];
    } else if t == HDR_TYPE_MAP_CLOSE {
      turns := [TurnAt(cb, d, pos, deep, MapClose(key))];
    } else if t == HDR_TYPE_ARRAY_OPEN {
      turns := [TurnAt(cb, d, pos, deep, ArrayOpen(pos, U16At(m, pos + 4), key))];
    } else if t == HDR_TYPE_ARRAY_CLOSE {
      turns := [TurnAt(cb, d, pos, deep, ArrayClose)];
    } else if ScalarHeader(t) {
      var turn := ScalarTurn(cb, m, d, pos, deep, t, key);
      turns := [turn];
    } else {
      turns := [];
    }
  }

  lemma TurnsFirst<D>(cb: Callbacks<D>, m: seq<Byte>, t: Turn<D>, rest: seq<Turn<D>>, pos: int)
    requires Made(cb, m, t) && Goes(m, t, pos) && !t.r.1.stop && !Outermost(t)
    requires Turns(cb, m, t.r.0, pos, DeepAfter(t), rest)
    ensures Turns(cb, m, t.d, t.pos, t.deep, [t] + rest)
  {
    var turns := [t] + rest;
    forall k | 0 <= k < |turns| ensures Made(cb, m, turns[k]) {
      assert k > 0 ==> turns[k] == rest[k - 1];
    }
    forall k | 0 <= k < |turns| - 1 ensures GoesOn(m, turns[k], turns[k + 1]) {
      assert turns[k + 1] == rest[k];
      assert k > 0 ==> turns[k] == rest[k - 1];
    }
  }

  function AnswerOf<D>(o: Outcome<D>): int {
    if o.BadLength? then -5 else 1
  }

  function EndOf<D>(o: Outcome<D>): int {
    if o.Stopped? then o.pos else 0
  }

  /** The walk is a list of turns, and then over. */
  lemma {:induction false} WalkTurns<D>(cb: Callbacks<D>, m: seq<Byte>, d: D, pos: nat, deep: int)
    returns (turns: seq<Turn<D>>)
    requires !Walk(cb, m, d, pos, deep).Beyond?
    ensures Turns(cb, m, d, pos, deep, turns)
    ensures var o := Walk(cb, m, d, pos, deep); Over(m, d, pos, turns, o.d, AnswerOf(o), EndOf(o))
    decreases if pos <= |m| then |m| - pos + 1 else 0
  {
    var o := Round(cb, m, d, pos, deep);
    turns := RoundTurns(cb, m, d, pos, deep);
    if o.Going? {
      var rest := WalkTurns(cb, m, o.d, o.pos, o.deep);
      TurnsFirst(cb, m, turns[0], rest, o.pos);
      turns := [turns[0]] + rest;
    }
  }

  // ----- The bytes and the callbacks determine the turns -------------------------------

  lemma StandsOnce(m: seq<Byte>, p: int, key: int, v: Scalar, key': int, v': Scalar)
    requires Stands(m, p, key, v) && Stands(m, p, key', v')
    ensures key == key' && v == v'
  {
  }

  lemma ReadsOnce(m: seq<Byte>, pos: int, deep: int, e: Event, f: Event)
    requires Reads(m, pos, deep, e) && Reads(m, pos, deep, f)
    ensures e == f && !Unknown(m, pos)
  {
    if (e.Integer? || e.Value?) && (f.Integer? || f.Value?) {
      StandsOnce(m, pos, e.key, e.v, f.key, f.v);
    }
  }

  lemma {:induction false} SameTurn<D>(cb: Callbacks<D>, m: seq<Byte>, d: D, pos: int, deep: int, turns: seq<Turn<D>>,
                                       others: seq<Turn<D>>, k: nat)
    requires Turns(cb, m, d, pos, deep, turns) && Turns(cb, m, d, pos, deep, others) && k < |turns| && k < |others|
    ensures turns[k] == others[k]
  {
    if k > 0 {
      SameTurn(cb, m, d, pos, deep, turns, others, k - 1);
      assert GoesOn(m, turns[k - 1], turns[k]) && GoesOn(m, others[k - 1], others[k]);
    }
    assert Made(cb, m, turns[k]) && Made(cb, m, others[k]);
    ReadsOnce(m, turns[k].pos, turns[k].deep, turns[k].e, others[k].e);
  }

  /** When it is over, there is no further turn. */
  lemma {:induction false} NoFurther<D>(cb: Callbacks<D>, m: seq<Byte>, d: D, pos: int, deep: int, turns: seq<Turn<D>>,
                                        others: seq<Turn<D>>, d': D, ret: int, end: int)
    requires Turns(cb, m, d, pos, deep, turns) && Turns(cb, m, d, pos, deep, others)
    requires Over(m, d, pos, turns, d', ret, end)
    ensures |others| <= |turns|
  {
    var n := |turns|;
    if n < |others| {
      var u := others[n];
      assert Made(cb, m, u);
      if n > 0 {
        SameTurn(cb, m, d, pos, deep, turns, others, n - 1);
        assert GoesOn(m, others[n - 1], u);
      }
      ReadsOnce(m, u.pos, u.deep, u.e, u.e);
      assert false;
    }
  }

  /** There is only one way the loop can go, and one way it can end. */
  lemma {:induction false} TurnsUnique<D>(cb: Callbacks<D>, m: seq<Byte>, d: D, pos: int, deep: int,
                                          turns: seq<Turn<D>>, d1: D, ret1: int, end1: int,
                                          others: seq<Turn<D>>, d2: D, ret2: int, end2: int)
    requires Turns(cb, m, d, pos, deep, turns) && Over(m, d, pos, turns, d1, ret1, end1)
    requires Turns(cb, m, d, pos, deep, others) && Over(m, d, pos, others, d2, ret2, end2)
    ensures turns == others && d1 == d2 && ret1 == ret2 && (ret1 == 1 ==> end1 == end2)
  {
    NoFurther(cb, m, d, pos, deep, turns, others, d1, ret1, end1);
    NoFurther(cb, m, d, pos, deep, others, turns, d2, ret2, end2);
    forall k | 0 <= k < |turns| ensures turns[k] == others[k] {
      SameTurn(cb, m, d, pos, deep, turns, others, k);
    }
  }

  // ----- A log of the callbacks --------------------------------------------------------

  /** What a callback has been given and has answered. */
  type Log = seq<(Event, Reply)>

  /** The same callbacks, with a log of what they answer. */
  function Logging<D>(cb: Callbacks<D>): Callbacks<(D, Log)> {
    ((data: (D, Log), e: Event) => var r := cb(data.0, e); ((r.0, data.1 + [(e, r.1)]), r.1))
  }

  /** The turn without the log. */
  function Unlogged<D>(t: Turn<(D, Log)>): Turn<D> {
    Turn(t.pos, t.deep, t.d.0, t.e, (t.r.0.0, t.r.1))
  }

  function UnloggedAll<D>(turns: seq<Turn<(D, Log)>>): (r: seq<Turn<D>>)
    ensures |r| == |turns|
  {
    seq(|turns|, k requires 0 <= k < |turns| => Unlogged(turns[k]))
  }

  /** What the turns have logged. */
  function LogOf<D>(turns: seq<Turn<D>>): (r: Log)
    ensures |r| == |turns|
  {
    seq(|turns|, k requires 0 <= k < |turns| => (turns[k].e, turns[k].r.1))
  }

  lemma UnloggedTurns<D>(cb: Callbacks<D>, m: seq<Byte>, d: (D, Log), pos: int, deep: int, turns: seq<Turn<(D, Log)>>)
    requires Turns(Logging(cb), m, d, pos, deep, turns)
    ensures Turns(cb, m, d.0, pos, deep, UnloggedAll(turns))
  {
    var plain := UnloggedAll(turns);
    forall k | 0 <= k < |plain| ensures Made(cb, m, plain[k]) {
      assert Made(Logging(cb), m, turns[k]);
    }
    forall k | 0 <= k < |plain| - 1 ensures GoesOn(m, plain[k], plain[k + 1]) {
      assert GoesOn(m, turns[k], turns[k + 1]);
    }
  }

  /** Each turn adds its entry to the log. */
  lemma {:induction false} LogGrows<D>(cb: Callbacks<D>, m: seq<Byte>, d: (D, Log), pos: int, deep: int,
                                       turns: seq<Turn<(D, Log)>>, n: nat)
    requires Turns(Logging(cb), m, d, pos, deep, turns) && n < |turns|
    ensures turns[n].r.0.1 == d.1 + LogOf(UnloggedAll(turns))[..n + 1]
  {
    assert Made(Logging(cb), m, turns[n]);
    var log := LogOf(UnloggedAll(turns));
    assert log[..n + 1] == log[..n] + [log[n]];
    if n > 0 {
      LogGrows(cb, m, d, pos, deep, turns, n - 1);
      assert GoesOn(m, turns[n - 1], turns[n]);
    } else {
      assert d.1 + [] == d.1;
    }
  }

  /** A log does not make the walk leave the buffer. */
  lemma {:induction false} LoggedWalk<D>(cb: Callbacks<D>, m: seq<Byte>, d: (D, Log), pos: nat, deep: int)
    requires !Walk(cb, m, d.0, pos, deep).Beyond?
    ensures !Walk(Logging(cb), m, d, pos, deep).Beyond?
    decreases if pos <= |m| then |m| - pos + 1 else 0
  {
    var o, o' := Round(cb, m, d.0, pos, deep), Round(Logging(cb), m, d, pos, deep);
    LoggedRound(cb, m, d, pos, deep);
    if o.Going? {
      LoggedWalk(cb, m, o'.d, o.pos, o.deep);
    }
  }

  /** Two rounds that differ in the log only. */
  ghost predicate SameRound<D>(o: Outcome<D>, o': Outcome<(D, Log)>) {
    && (o.Beyond? <==> o'.Beyond?) && (o.Going? <==> o'.Going?) && o.d == o'.d.0
    && (o.Going? ==> o.pos == o'.pos && o.deep == o'.deep)
  }

  lemma LoggedRound<D>(cb: Callbacks<D>, m: seq<Byte>, d: (D, Log), pos: nat, deep: int)
    ensures SameRound(Round(cb, m, d.0, pos, deep), Round(Logging(cb), m, d, pos, deep))
  {
    if pos + 2 <= |m| && ScalarHeader(HeaderType(m[pos])) {
      LoggedScalar(cb, m, d, pos, deep, HeaderType(m[pos]), HeaderKey(m[pos], m[pos + 1]));
    }
  }

  lemma LoggedScalar<D>(cb: Callbacks<D>, m: seq<Byte>, d: (D, Log), pos: nat, deep: int, t: Nibble, key: U16)
    ensures SameRound(RoundScalar(cb, m, d.0, pos, deep, t, key), RoundScalar(Logging(cb), m, d, pos, deep, t, key))
  {
  }

  lemma UnloggedOver<D>(m: seq<Byte>, data: (D, Log), base: int, turns: seq<Turn<(D, Log)>>, d: (D, Log), ret: int,
                        end: int)
    requires Over(m, data, base, turns, d, ret, end)
    ensures Over(m, data.0, base, UnloggedAll(turns), d.0, ret, end)
  {
    if turns != [] {
      var t := turns[|turns| - 1];
      assert UnloggedAll(turns)[|turns| - 1] == Unlogged(t);
      assert Unclosed(m, t) <==> Unclosed(m, Unlogged(t));
    }
  }

  /** All the turns together leave their log. */
  lemma {:induction false} LogAtEnd<D>(cb: Callbacks<D>, m: seq<Byte>, data: D, base: int, turns: seq<Turn<(D, Log)>>,
                                       d: (D, Log), ret: int, end: int)
    requires Turns(Logging(cb), m, (data, []), base, 0, turns) && Over(m, (data, []), base, turns, d, ret, end)
    ensures d.1 == LogOf(UnloggedAll(turns))
  {
    var log := LogOf(UnloggedAll(turns));
    if turns != [] {
      LogGrows(cb, m, (data, []), base, 0, turns, |turns| - 1);
      assert log[..|turns|] == log && [] + log == log;
    }
  }

  /** The turns of a logged walk, without the log, and that log. */
  lemma LoggedTurns<D>(cb: Callbacks<D>, m: seq<Byte>, data: D, base: nat) returns (turns: seq<Turn<D>>)
    requires !Walk(cb, m, data, base, 0).Beyond?
    ensures var o := Walk(Logging(cb), m, (data, []), base, 0);
      && !o.Beyond? && Turns(cb, m, data, base, 0, turns) && o.d.1 == LogOf(turns)
      && Over(m, data, base, turns, o.d.0, AnswerOf(o), EndOf(o))
  {
    var o := Walk(Logging(cb), m, (data, []), base, 0);
    LoggedWalk(cb, m, (data, []), base, 0);
    var turns' := WalkTurns(Logging(cb), m, (data, []), base, 0);
    turns := UnloggedAll(turns');
    UnloggedTurns(cb, m, (data, []), base, 0, turns');
    UnloggedOver(m, (data, []), base, turns', o.d, AnswerOf(o), EndOf(o));
    LogAtEnd(cb, m, data, base, turns', o.d, AnswerOf(o), EndOf(o));
  }

  lemma NobodyAfterStop<D>(cb: Callbacks<D>, m: seq<Byte>, data: D, base: nat, turns: seq<Turn<D>>)
    requires Turns(cb, m, data, base, 0, turns)
    ensures forall k | 0 <= k < |LogOf(turns)| - 1 :: !LogOf(turns)[k].1.stop
  {
    forall k | 0 <= k < |turns| - 1 ensures !turns[k].r.1.stop {
      assert GoesOn(m, turns[k], turns[k + 1]);
    }
  }

  /** val_foreach on any bytes that it does not leave, with a log: nobody is called after
      having answered STOP or after the close of the outermost map; every callback is the one
      that the bytes call for where the turn before has led, with the data it has left; and
      the loop ends for no other reason than those that `Over` lists. */
  method ForeachLogged<D>(m: array<Byte>, base: nat, cb: Callbacks<D>, data: D)
    returns (d: D, log: Log, ret: int, ghost turns: seq<Turn<D>>, ghost end: int)
    requires !Walk(cb, m[..], data, base, 0).Beyond?
    ensures Turns(cb, m[..], data, base, 0, turns) && Over(m[..], data, base, turns, d, ret, end)
    ensures |log| == |turns| && forall k | 0 <= k < |log| :: log[k] == (turns[k].e, turns[k].r.1)
    ensures forall k | 0 <= k < |log| - 1 :: !log[k].1.stop
  {
    turns := LoggedTurns(cb, m[..], data, base);
    NobodyAfterStop(cb, m[..], data, base, turns);
    var d';
    d', ret, end := ValForeach(m, base, Logging(cb), (data, []));
    d, log := d'.0, d'.1;
    end := if ret == BKV_OK then end else 0;
  }
}

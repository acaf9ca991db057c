/**
 The key tree of `kt/src/keytree.c`: every key holds its children by character
 class, in lists that are made with their first child and count their children.
 */
module KeyTree {
  import opened KeyTreeWords

  const W_NO_ERROR := 0
  const W_E_OPERATION_FAILED := 2
  const W_E_BAD_PARAMETER := 5
  const W_E_EXISTS := 6

  /** wg_key_list_t; no keys at all is the null pointer. */
  datatype KeyList = KeyList(keys: seq<WgKey?>, nbKeys: nat)

  function AtIndex(l: KeyList, i: nat): WgKey? {
    if i < |l.keys| then l.keys[i] else null
  }

  function Count(keys: seq<WgKey?>): (n: nat)
    ensures n <= |keys|
  {
    if keys == [] then 0 else (if keys[0] == null then 0 else 1) + Count(keys[1..])
  }

  /** A list of `n` places whose counter is right. */
  predicate Shaped(l: KeyList, n: nat) {
    (l.keys == [] || |l.keys| == n) && l.nbKeys == Count(l.keys)
  }

  lemma {:induction false} CountSet(keys: seq<WgKey?>, i: nat, k: WgKey)
    requires i < |keys| && keys[i] == null
    ensures Count(keys[i := k]) == Count(keys) + 1
  {
    if i > 0 {
      CountSet(keys[1..], i - 1, k);
      assert keys[i := k][1..] == keys[1..][i - 1 := k];
    } else {
      assert keys[i := k][1..] == keys[1..];
    }
  }

  lemma {:induction false} CountNone(n: nat)
    ensures Count(seq<WgKey?>(n, _ => null)) == 0
  {
    if n > 0 {
      CountNone(n - 1);
      assert seq<WgKey?>(n, _ => null)[1..] == seq<WgKey?>(n - 1, _ => null);
    }
  }

  class WgKey {
    var lower: KeyList
    var upper: KeyList
    var number: KeyList
    var endOfWord: bool
    var udata: Data

    /** The string the key stands for. */
    ghost const path: string

    constructor (ghost path: string)
      ensures this.path == path
      ensures lower == KeyList([], 0) && upper == KeyList([], 0) && number == KeyList([], 0)
      ensures !endOfWord && udata == NULL
    {
      lower, upper, number := KeyList([], 0), KeyList([], 0), KeyList([], 0);
      endOfWord, udata := false, NULL;
      this.path := path;
    }

    /** The child for a character; only letters and digits have one. */
    function Child(c: char): WgKey?
      reads this`lower, this`upper, this`number
    {
      var t := WordType(c);
      if t == 1 then AtIndex(number, c as int - '0' as int)
      else if t == 2 then AtIndex(upper, c as int - 'A' as int)
      else if t == 3 then AtIndex(lower, c as int - 'a' as int)
      else null
    }

    predicate WellShaped()
      reads this`lower, this`upper, this`number
    {
      Shaped(lower, 26) && Shaped(upper, 26) && Shaped(number, 10)
    }
  }

  type Paths = map<string, WgKey>

  /** The key `k` for `p` has the keys for what follows `p` as its children, and nothing else. */
  ghost predicate KeyOk(paths: Paths, p: string, k: WgKey)
    reads k`lower, k`upper, k`number
  {
    && k.WellShaped()
    && forall c {:trigger k.Child(c)} | AlNum(c) :: k.Child(c) == if p + [c] in paths then paths[p + [c]] else null
  }

  ghost predicate KeysOk(paths: Paths)
    reads paths.Values`lower, paths.Values`upper, paths.Values`number
  {
    forall p {:trigger KeyOk(paths, p, paths[p])} | p in paths :: KeyOk(paths, p, paths[p])
  }

  /** Every string is a word's beginning, and no key stands for two of them. */
  ghost predicate PathsOk(paths: Paths) {
    && "" in paths
    && (forall p, c | p + [c] in paths :: p in paths && AlNum(c))
    && (forall p | p in paths :: paths[p].path == p)
  }

  lemma Unsnoc(p: string, c: char, q: string, e: char)
    requires p + [c] == q + [e]
    ensures p == q && c == e
  {
    assert (p + [c])[|p|] == c && (q + [e])[|q|] == e;
    assert (p + [c])[..|p|] == p && (q + [e])[..|q|] == q;
  }

  /** The beginnings of a string in the tree are in the tree. */
  lemma {:induction false} BeginningsIn(paths: Paths, q: string, i: nat)
    requires PathsOk(paths) && q in paths && i <= |q|
    ensures q[..i] in paths && AllAlNum(q)
    decreases |q|
  {
    if q == "" {
      assert q[..i] == "";
    } else {
      var p := q[..|q| - 1];
      assert q == p + [q[|q| - 1]];
      BeginningsIn(paths, p, if i < |q| then i else 0);
      assert if i < |q| then q[..i] == p[..i] else q[..i] == q;
    }
  }

  /** The keys end the words and have the data that are known. */
  ghost predicate KnownOk(paths: Paths, known: Known)
    reads paths.Values`endOfWord, paths.Values`udata
  {
    && (forall p :: p in known.data <==> p in paths) && (forall p | p in known.words :: p in paths)
    && forall p | p in paths :: known.data[p] == paths[p].udata && (p in known.words <==> paths[p].endOfWord)
  }

  lemma TakeMore(w: string, i: nat)
    requires i < |w|
    ensures w[..i + 1] == w[..i] + [w[i]]
  {
  }

  /** What is known when there is a key for every beginning of `w`. */
  function Through(known: Known, w: string): Known {
    known.(data := map p | p in known.data.Keys + Prefixes(w) :: if p in known.data then known.data[p] else NULL)
  }

  lemma ThroughMore(known: Known, w: string, i: nat)
    requires i < |w|
    ensures WithKey(Through(known, w[..i]), w[..i + 1]) == Through(known, w[..i + 1])
    ensures w[..i + 1] in Through(known, w[..i]).data <==> w[..i + 1] in known.data
  {
    PrefixesMore(w, i);
    var q := w[..i + 1];
    assert WithKey(Through(known, w[..i]), q).data == Through(known, q).data;
    PrefixesArePrefixes(q, w[..i]);
  }

  lemma ThroughNothing(known: Known, paths: Paths)
    requires "" in paths && KnownOk(paths, known)
    ensures Through(known, "") == known
  {
    PrefixesNone();
    assert Through(known, "").data == known.data;
  }

  /** A key for `q` is there. */
  function WithKey(k: Known, q: string): Known {
    if q in k.data then k else k.(data := k.data[q := NULL])
  }

  /** Blank keys for the word's beginnings, and then the word itself. */
  lemma AddedKnows(known: Known, k: Known, e: Elem)
    requires k == Through(known, e.word)
    ensures Added(known, e)
         == Known(k.words + {e.word}, if e.word in known.data then k.data else k.data[e.word := e.udata])
  {
    var data := if e.word in known.data then k.data else k.data[e.word := e.udata];
    forall p ensures p in Added(known, e).data <==> p in data {
      PrefixesArePrefixes(p, e.word);
    }
    assert Added(known, e).data == data;
  }

  lemma PathsGrow(paths: Paths, p: string, c: char, key: WgKey)
    requires PathsOk(paths) && p in paths && AlNum(c) && p + [c] !in paths && key.path == p + [c]
    ensures PathsOk(paths[p + [c] := key])
  {
    forall r, e | r + [e] == p + [c] ensures r == p && e == c {
      Unsnoc(r, e, p, c);
    }
  }

  /** kt_key_add, and what parse_file_create_key does in its place for digits. */
  method KtKeyAdd(list: KeyList, offset: nat, nbCharacters: nat, ghost path: string)
    returns (list': KeyList, key: WgKey, newElem: bool)
    requires offset < nbCharacters && Shaped(list, nbCharacters)
    ensures Shaped(list', nbCharacters) && key == AtIndex(list', offset)
    ensures forall j | 0 <= j < nbCharacters && j != offset :: AtIndex(list', j) == AtIndex(list, j)
    ensures newElem <==> AtIndex(list, offset) == null
    ensures !newElem ==> list' == list
    ensures newElem ==> fresh(key) && Blank(key, path)
  {
    list' := list;
    if list'.keys == [] {
      CountNone(nbCharacters);
      list' := list'.(keys := seq(nbCharacters, _ => null));
    }
    newElem := list'.keys[offset] == null;
    if newElem {
      key := new WgKey(path);
      CountSet(list'.keys, offset, key);
      list' := KeyList(list'.keys[offset := key], list'.nbKeys + 1);
    } else {
      key := list'.keys[offset];
    }
  }

  class KeyTree {
    const head: WgKey
    ghost var paths: Paths
    ghost var known: Known

    ghost predicate Valid()
      reads this, paths.Values
    {
      PathsOk(paths) && paths[""] == head && KeysOk(paths) && KnownOk(paths, known) && "" !in known.words
    }

    constructor ()
      ensures Valid() && known == Nothing && fresh(paths.Values)
    {
      head := new WgKey("");
      new;
      paths, known := map["" := head], Nothing;
      OnlyHead(paths, head);
    }

    /** The child of the key `n` for `c`, made if it is not there. */
    method MakeChild(n: WgKey, c: char, ghost path: string) returns (key: WgKey, newElem: bool)
      requires n.WellShaped() && AlNum(c)
      modifies n`lower, n`upper, n`number
      ensures n.WellShaped() && n.Child(c) == key
      ensures forall e | AlNum(e) && e != c :: n.Child(e) == old(n.Child(e))
      ensures newElem <==> old(n.Child(c)) == null
      ensures !newElem ==> key == old(n.Child(c))
      ensures newElem ==> fresh(key) && Blank(key, path)
    {
      var t := WordType(c);
      if t == 1 {
        n.number, key, newElem := KtKeyAdd(n.number, c as int - '0' as int, 10, path);
      } else if t == 2 {
        n.upper, key, newElem := KtKeyAdd(n.upper, c as int - 'A' as int, 26, path);
      } else {
        n.lower, key, newElem := KtKeyAdd(n.lower, c as int - 'a' as int, 26, path);
      }
    }

    /** The same in a tree: the other keys do not notice. */
    method MakeChildAt(n: WgKey, c: char, ghost p: string) returns (key: WgKey, newElem: bool)
      requires Valid() && p in paths && paths[p] == n && AlNum(c)
      modifies n`lower, n`upper, n`number
      ensures OthersOk(paths, p) && Gained(paths, p, paths[p], c, key) && KnownOk(paths, known)
      ensures newElem <==> p + [c] !in paths
      ensures if newElem then fresh(key) && Blank(key, p + [c]) else key == paths[p + [c]]
    {
      assert KeyOk(paths, p, paths[p]);
      key, newElem := MakeChild(n, c, p + [c]);
      forall r | r in paths && r != p ensures KeyOk(paths, r, paths[r]) {
        assert old(KeyOk(paths, r, paths[r]));
      }
    }

    /** One round of the loop: from the key for `p` to the key for `p` and `c`. */
    method ChildFor(n: WgKey, c: char, ghost p: string) returns (key: WgKey, newElem: bool)
      requires Valid() && p in paths && paths[p] == n && AlNum(c)
      modifies this`paths, this`known, n`lower, n`upper, n`number
      ensures Valid() && paths == old(paths)[p + [c] := key] && known == WithKey(old(known), p + [c])
      ensures newElem <==> p + [c] !in old(known).data
      ensures if newElem then fresh(key) else key in old(paths.Values)
    {
      key, newElem := MakeChildAt(n, c, p);
      Grow(p, c, key);
    }

    ghost method Grow(p: string, c: char, key: WgKey)
      requires PathsOk(paths) && paths[""] == head && KnownOk(paths, known) && "" !in known.words
      requires p in paths && AlNum(c) && OthersOk(paths, p) && Gained(paths, p, paths[p], c, key)
      requires if p + [c] in paths then key == paths[p + [c]] else Blank(key, p + [c])
      modifies this`paths, this`known
      ensures Valid() && paths == old(paths)[p + [c] := key] && known == WithKey(old(known), p + [c])
    {
      TreeGrows(paths, p, c, key);
      KnownGrows(paths, known, p + [c], key);
      paths, known := paths[p + [c] := key], WithKey(known, p + [c]);
      assert PathsOk(paths) && KeysOk(paths) && KnownOk(paths, known);
    }

    /** `i` characters of the word have been gone through, and `key` is the one they lead to. */
    ghost predicate Underway(known0: Known, word: string, i: nat, key: WgKey, newElem: bool)
      reads this, paths.Values
    {
      && Valid() && i <= |word| && word[..i] in paths && key == paths[word[..i]]
      && known == Through(known0, word[..i]) && (i > 0 ==> (newElem <==> word[..i] !in known0.data))
    }

    /** The body of the loop over the word. */
    method NextKey(word: string, i: nat, key0: WgKey, ghost known0: Known, ghost new0: bool)
      returns (key: WgKey, newElem: bool)
      requires Underway(known0, word, i, key0, new0) && i < |word| && AlNum(word[i])
      modifies this`paths, this`known, paths.Values`lower, paths.Values`upper, paths.Values`number
      ensures Underway(known0, word, i + 1, key, newElem)
      ensures fresh(paths.Values - old(paths.Values))
    {
      ghost var p, q := word[..i], word[..i + 1];
      TakeMore(word, i);
      ThroughMore(known0, word, i);
      key, newElem := ChildFor(key0, word[i], p);
    }

    /** The loop over the word: afterwards there is a key for each of its beginnings. */
    method MakeKeys(word: string) returns (key: WgKey, newElem: bool)
      requires Valid() && AllAlNum(word) && word != ""
      modifies this`paths, this`known, paths.Values`lower, paths.Values`upper, paths.Values`number
      ensures Underway(old(known), word, |word|, key, newElem)
      ensures fresh(paths.Values - old(paths.Values))
    {
      key, newElem := head, false;
      var i := 0;
      ghost var known0, keys := known, paths.Values;
      ThroughNothing(known, paths);
      while i < |word|
        invariant i <= |word| && Underway(known0, word, i, key, newElem)
        invariant fresh(paths.Values - keys)
      {
        key, newElem := NextKey(word, i, key, known0, newElem);
        i := i + 1;
      }
    }

    /** The key of the word ends it, and takes the data if it has just been made. */
    method EndWord(key: WgKey, newElem: bool, e: Elem) returns (ret: int, udata: Data)
      requires Valid() && e.word in paths && key == paths[e.word] && e.word != ""
      modifies this`known, key`endOfWord, key`udata
      ensures Valid()
      ensures known == Known(old(known).words + {e.word},
                             if newElem then old(known).data[e.word := e.udata] else old(known).data)
      ensures ret == (if newElem then W_NO_ERROR else W_E_EXISTS) && (!newElem ==> udata == known.data[e.word])
    {
      udata := NULL;
      key.endOfWord := true;
      if !newElem {
        udata := key.udata;
        ret := W_E_EXISTS;
      } else {
        key.udata := e.udata;
        ret := W_NO_ERROR;
      }
      ghost var known0 := known;
      known := Known(known.words + {e.word}, if newElem then known.data[e.word := e.udata] else known.data);
      assert PathsOk(paths) && KeysOk(paths);
      forall p | p in paths
        ensures known.data[p] == paths[p].udata && (p in known.words <==> paths[p].endOfWord)
      {
        assert paths[p].path == p;
        assert p != e.word ==> paths[p] != key;
        assert p != e.word ==> known.data[p] == known0.data[p];
      }
      assert KnownOk(paths, known);
    }

    /** wg_keytree_add, for words of letters and digits. */
    method Add(e: Elem) returns (ret: int, udata: Data)
      requires Valid() && AllAlNum(e.word)
      modifies this`paths, this`known, paths.Values
      ensures Valid() && fresh(paths.Values - old(paths.Values))
      ensures e.word == "" ==> ret == W_E_BAD_PARAMETER && known == old(known)
      ensures e.word != "" ==>
                && known == Added(old(known), e)
                && ret == (if e.word in old(known).data then W_E_EXISTS else W_NO_ERROR)
                && (ret == W_E_EXISTS ==> udata == known.data[e.word])
    {
      udata := NULL;
      if |e.word| <= 0 {
        return W_E_BAD_PARAMETER, udata;
      }
      ghost var known0 := known;
      var key, newElem := MakeKeys(e.word);
      assert e.word[..|e.word|] == e.word;
      AddedKnows(known0, known, e);
      ret, udata := EndWord(key, newElem, e);
    }

    // ----- Looking up --------------------------------------------------------------

    /** One round of a lookup: `n` is the key for the first `i` characters of `str`, all of
        them letters and digits. */
    method Follow(str: string, i: nat, n: WgKey) returns (key: WgKey?)
      requires Valid() && i <= |LeadingRun(str)| && Leads(str, i, n)
      ensures key != null ==> i < |LeadingRun(str)| && Leads(str, i + 1, key)
      ensures key != null ==> if i + 1 < |LeadingRun(str)| then AlNum(CharAt(str, i + 1))
                              else (key.endOfWord <==> LeadingRun(str) in known.words)
      ensures key == null ==> LeadingRun(str) !in known.words || i == |LeadingRun(str)|
    {
      ghost var run, p := LeadingRun(str), LeadingRun(str)[..i];
      key := null;
      assert KeyOk(paths, p, n);
      if AlNum(CharAt(str, i)) {
        key := n.Child(CharAt(str, i));
        assert i < |run| && run[i] == CharAt(str, i);
        TakeMore(run, i);
        assert i + 1 < |run| ==> run[i + 1] == CharAt(str, i + 1);
        assert i + 1 == |run| ==> run[..i + 1] == run;
        if run in known.words {
          BeginningsIn(paths, run, i + 1);
        }
      }
    }

    ghost predicate Leads(str: string, i: nat, n: WgKey)
      reads this
    {
      var run := LeadingRun(str);
      i <= |run| && run[..i] in paths && paths[run[..i]] == n
    }

    /** wg_keytree_strcmp: the letters and digits the string starts with are a word, and
        a space or a control character follows them. */
    method Strcmp(str: string) returns (error: int)
      requires Valid()
      ensures var run := LeadingRun(str);
        error == if run in known.words && (IsSpace(CharAt(str, |run|)) || IsCntrl(CharAt(str, |run|)))
                 then W_NO_ERROR else W_E_OPERATION_FAILED
    {
      error := W_E_OPERATION_FAILED;
      var n: WgKey, i := head, 0;
      ghost var run := LeadingRun(str);
      ghost var ends := IsSpace(CharAt(str, |run|)) || IsCntrl(CharAt(str, |run|));
      while true
        invariant Leads(str, i, n)
        invariant error == if i == |run| && run in known.words && ends then W_NO_ERROR else W_E_OPERATION_FAILED
        decreases |run| - i
      {
        var key := Follow(str, i, n);
        if key == null {
          break;
        } else if key.endOfWord {
          if IsSpace(CharAt(str, i + 1)) || IsCntrl(CharAt(str, i + 1)) {
            error := W_NO_ERROR;
          }
        }
        n, i := key, i + 1;
      }
    }

    /** keytree_keyget: the same with punctuation too, and the key of the word. */
    method KeyGet(str: string) returns (r: WgKey?)
      requires Valid()
      ensures var run := LeadingRun(str);
        var next := CharAt(str, |run|);
        if run in known.words && (IsPunct(next) || IsSpace(next) || IsCntrl(next))
        then run in paths && r == paths[run] && r.udata == known.data[run] else r == null
    {
      var n: WgKey, i := head, 0;
      ghost var run := LeadingRun(str);
      ghost var next := CharAt(str, |run|);
      assert run[..|run|] == run;
      while true
        invariant Leads(str, i, n)
        invariant i == |run| && run in known.words ==> !(IsPunct(next) || IsSpace(next) || IsCntrl(next))
        decreases |run| - i
      {
        var key := Follow(str, i, n);
        if key == null {
          return null;
        } else if key.endOfWord {
          var c := CharAt(str, i + 1);
          if IsPunct(c) || IsSpace(c) || IsCntrl(c) {
            return key;
          }
        }
        n, i := key, i + 1;
      }
    }

    // ----- Walking -------------------------------------------------------------------

    /** keytree_foreach: every key below `n`, in order, with its string in the buffer. */
    method Foreach<D>(n: WgKey, fn: Visitor<D>, str: array<char>, len: nat, data: D, ghost p: string,
                      ghost depth: nat)
      returns (d: D)
      requires Valid() && p in paths && paths[p] == n && (forall q | q in paths :: |q| <= depth)
      requires len == |p| && depth <= str.Length && str[..len] == p
      modifies str
      ensures d == FoldVisits(fn, paths, known, data, Visits(paths.Keys, depth, p))
      ensures str[..len] == p
      decreases depth + 1 - |p|, 1
    {
      ghost var a, b := Branch(paths.Keys, depth, p, 'a', 0, 26), Branch(paths.Keys, depth, p, 'A', 0, 26);
      ghost var c := Branch(paths.Keys, depth, p, '0', 0, 10);
      FoldVisitsConcat(fn, paths, known, data, a + b, c);
      FoldVisitsConcat(fn, paths, known, data, a, b);
      assert KeyOk(paths, p, n);
      ListOfKey(paths, p, n);
      d := ForeachList(n.lower, 26, 'a', fn, str, len, data, p, depth);
      d := ForeachList(n.upper, 26, 'A', fn, str, len, d, p, depth);
      d := ForeachList(n.number, 10, '0', fn, str, len, d, p, depth);
    }

    /** wg_keytree_foreach, with its buffer of 128 characters. */
    method ForeachAll<D>(fn: Visitor<D>, data: D) returns (d: D)
      requires Valid() && forall q | q in paths :: |q| <= 128
      ensures d == FoldVisits(fn, paths, known, data, Visits(paths.Keys, 128, ""))
    {
      var str := new char[128](_ => '\0');
      d := Foreach(head, fn, str, 0, data, "", 128);
    }

    /** One child: the callback for its key, and then the keys below it. */
    method VisitKey<D>(key: WgKey, fn: Visitor<D>, str: array<char>, len: nat, c: char, data: D,
                       ghost p: string, ghost depth: nat)
      returns (d: D)
      requires Valid() && p + [c] in paths && paths[p + [c]] == key && (forall q | q in paths :: |q| <= depth)
      requires len == |p| < depth <= str.Length && str[..len] == p
      modifies str
      ensures d == FoldVisits(fn, paths, known, FoldOne(fn, paths, known, data, p + [c]),
                              Visits(paths.Keys, depth, p + [c]))
      ensures str[..len] == p
      decreases depth + 1 - |p| - 1, 2
    {
      str[len] := c;
      ghost var q := p + [c];
      assert str[..len + 1] == q;
      d := fn(data, Visit(key, key.endOfWord, key.udata), str[..len + 1]);
      d := Foreach(key, fn, str, len + 1, d, q, depth);
      assert str[..len] == str[..len + 1][..len] == q[..len] == p;
    }

    /** The loop over one list of children, left as soon as all of them have been met. */
    method ForeachList<D>(l: KeyList, nb: nat, base: char, fn: Visitor<D>, str: array<char>, len: nat, data: D,
                          ghost p: string, ghost depth: nat) returns (d: D)
      requires Valid() && p in paths && (forall q | q in paths :: |q| <= depth)
      requires len == |p| && depth <= str.Length && str[..len] == p
      requires ClassBase(base, nb) && Lists(paths, p, l, base, nb)
      modifies str
      ensures d == FoldVisits(fn, paths, known, data, Branch(paths.Keys, depth, p, base, 0, nb))
      ensures str[..len] == p
      decreases depth + 1 - |p|, 0
    {
      var found, i := 0, 0;
      d := data;
      while i < nb && found < l.nbKeys
        invariant 0 <= i <= nb && str[..len] == p
        invariant found == Count(l.keys[..if l.keys == [] then 0 else i])
        invariant FoldVisits(fn, paths, known, d, Branch(paths.Keys, depth, p, base, i, nb))
               == FoldVisits(fn, paths, known, data, Branch(paths.Keys, depth, p, base, 0, nb))
        decreases nb - i
      {
        var key := l.keys[i];
        CountNext(l.keys, i);
        FoldBranch(fn, paths, known, d, depth, p, l, base, nb, i);
        if key != null {
          found := found + 1;
          d := VisitKey(key, fn, str, len, ChildChar(base, i), d, p, depth);
        }
        i := i + 1;
      }
      NoneLeft(paths, p, l, base, nb, i, depth);
    }
  }

  lemma PathsTrie(paths: Paths, depth: nat)
    requires PathsOk(paths) && forall q | q in paths :: |q| <= depth
    ensures IsTrie(paths.Keys, depth)
  {
    forall q, i | q in paths && 0 <= i <= |q| ensures AllAlNum(q) && q[..i] in paths {
      BeginningsIn(paths, q, i);
    }
    forall q | q in paths ensures AllAlNum(q) {
      BeginningsIn(paths, q, 0);
    }
  }

  /** A walk from the head meets every string that has a key, once and in order. */
  lemma {:induction false} WalkExactly(paths: Paths, depth: nat)
    requires PathsOk(paths) && forall q | q in paths :: |q| <= depth
    ensures forall x :: x in Visits(paths.Keys, depth, "") <==> x in paths && x != ""
    ensures InOrder(Visits(paths.Keys, depth, ""))
  {
    PathsTrie(paths, depth);
    VisitsInOrder(paths.Keys, depth, "");
    forall x ensures x in Visits(paths.Keys, depth, "") <==> x in paths && x != "" {
      VisitsExactly(paths.Keys, depth, "", x);
    }
  }

  /** A key as a callback finds it: the object, and what it says then. */
  datatype Visit = Visit(key: WgKey, endOfWord: bool, udata: Data)

  type Visitor<!D> = (D, Visit, string) -> D

  /** What the callback for `p` finds. */
  function VisitOf(paths: Paths, known: Known, p: string): Visit
    requires p in paths && p in known.data
  {
    Visit(paths[p], p in known.words, known.data[p])
  }

  /** The data after the callback has been given the keys for these strings. */
  function FoldVisits<D>(fn: Visitor<D>, paths: Paths, known: Known, d: D, v: seq<string>): D {
    if v == [] then d else FoldVisits(fn, paths, known, FoldOne(fn, paths, known, d, v[0]), v[1..])
  }

  function FoldOne<D>(fn: Visitor<D>, paths: Paths, known: Known, d: D, p: string): D {
    if p in paths && p in known.data then fn(d, VisitOf(paths, known, p), p) else d
  }

  lemma {:induction false} FoldVisitsConcat<D>(fn: Visitor<D>, paths: Paths, known: Known, d: D, v: seq<string>,
                                               w: seq<string>)
    ensures FoldVisits(fn, paths, known, d, v + w)
         == FoldVisits(fn, paths, known, FoldVisits(fn, paths, known, d, v), w)
    decreases v
  {
    if v == [] {
      assert v + w == w;
    } else {
      FoldVisitsConcat(fn, paths, known, FoldOne(fn, paths, known, d, v[0]), v[1..], w);
      assert (v + w)[1..] == v[1..] + w;
    }
  }

  /** `l` holds the keys for `p` followed by a character of one class. */
  ghost predicate Lists(paths: Paths, p: string, l: KeyList, base: char, nb: nat)
    requires ClassBase(base, nb)
  {
    && Shaped(l, nb)
    && forall i {:trigger AtIndex(l, i)} | 0 <= i < nb ::
         var q := p + [ChildChar(base, i)]; AtIndex(l, i) == if q in paths then paths[q] else null
  }

  /** A child, what is below it, and the children that follow. */
  lemma {:induction false} FoldBranch<D>(fn: Visitor<D>, paths: Paths, known: Known, d: D, depth: nat, p: string,
                                         l: KeyList, base: char, nb: nat, i: nat)
    requires ClassBase(base, nb) && Lists(paths, p, l, base, nb) && i < nb && |p| <= depth
    requires forall q | q in paths :: |q| <= depth
    ensures var q, key, rest := p + [ChildChar(base, i)], AtIndex(l, i), Branch(paths.Keys, depth, p, base, i + 1, nb);
      && (key != null ==> q in paths && paths[q] == key && |q| <= depth)
      && FoldVisits(fn, paths, known, d, Branch(paths.Keys, depth, p, base, i, nb))
           == if key == null then FoldVisits(fn, paths, known, d, rest)
              else FoldVisits(fn, paths, known,
                              FoldVisits(fn, paths, known, FoldOne(fn, paths, known, d, q),
                                         Visits(paths.Keys, depth, q)),
                              rest)
  {
    var q, rest := p + [ChildChar(base, i)], Branch(paths.Keys, depth, p, base, i + 1, nb);
    if AtIndex(l, i) == null {
      assert [] + rest == rest;
    } else {
      var v := Visits(paths.Keys, depth, q);
      FoldVisitsConcat(fn, paths, known, d, [q] + v, rest);
      assert ([q] + v)[1..] == v;
    }
  }

  lemma ListOfKey(paths: Paths, p: string, k: WgKey)
    requires KeyOk(paths, p, k)
    ensures Lists(paths, p, k.lower, 'a', 26) && Lists(paths, p, k.upper, 'A', 26) && Lists(paths, p, k.number, '0', 10)
  {
    forall i: nat | i < 26
      ensures k.Child(ChildChar('a', i)) == AtIndex(k.lower, i) && k.Child(ChildChar('A', i)) == AtIndex(k.upper, i)
    {
    }
    forall i: nat | i < 10 ensures k.Child(ChildChar('0', i)) == AtIndex(k.number, i) {
    }
  }

  lemma {:induction false} CountSplit(keys: seq<WgKey?>, i: nat)
    requires i <= |keys|
    ensures Count(keys) == Count(keys[..i]) + Count(keys[i..])
  {
    if i > 0 {
      CountSplit(keys[1..], i - 1);
      assert keys[..i][1..] == keys[1..][..i - 1] && keys[1..][i - 1..] == keys[i..];
    } else {
      assert keys[0..] == keys;
    }
  }

  lemma {:induction false} CountNext(keys: seq<WgKey?>, i: nat)
    requires i < |keys|
    ensures Count(keys[..i + 1]) == Count(keys[..i]) + if keys[i] == null then 0 else 1
  {
    CountSplit(keys[..i + 1], i);
    assert keys[..i + 1][..i] == keys[..i] && keys[..i + 1][i..] == [keys[i]];
    assert [keys[i]][1..] == [];
  }

  lemma {:induction false} CountZero(keys: seq<WgKey?>, i: nat)
    requires Count(keys) == 0 && i < |keys|
    ensures keys[i] == null
  {
    if i > 0 {
      CountZero(keys[1..], i - 1);
    }
  }

  /** When the loop is left, no child is left. */
  lemma {:induction false} NoneLeft(paths: Paths, p: string, l: KeyList, base: char, nb: nat, i: nat, depth: nat)
    requires ClassBase(base, nb) && Lists(paths, p, l, base, nb) && i <= nb && |p| <= depth
    requires i == nb || Count(l.keys[..if l.keys == [] then 0 else i]) >= l.nbKeys
    ensures Branch(paths.Keys, depth, p, base, i, nb) == []
    decreases nb - i
  {
    if i < nb {
      if l.keys != [] {
        CountSplit(l.keys, i);
        CountZero(l.keys[i..], 0);
        CountNext(l.keys, i);
      }
      assert AtIndex(l, i) == null;
      NoneLeft(paths, p, l, base, nb, i + 1, depth);
    }
  }

  lemma OnlyHead(paths: Paths, head: WgKey)
    requires paths == map["" := head] && Blank(head, "")
    ensures PathsOk(paths) && KeysOk(paths) && KnownOk(paths, Nothing)
  {
    forall c: char ensures [c] !in paths && [] + [c] == [c] {
    }
  }

  /** A key that has just been made. */
  ghost predicate Blank(key: WgKey, p: string)
    reads key
  {
    && !key.endOfWord && key.udata == NULL && key.path == p
    && key.WellShaped() && forall e :: key.Child(e) == null
  }

  ghost predicate OthersOk(paths: Paths, p: string)
    reads paths.Values`lower, paths.Values`upper, paths.Values`number
  {
    forall r {:trigger KeyOk(paths, r, paths[r])} | r in paths && r != p :: KeyOk(paths, r, paths[r])
  }

  /** The key for `p` has the child `key` for `c`, and otherwise what it should have. */
  ghost predicate Gained(paths: Paths, p: string, k: WgKey, c: char, key: WgKey)
    reads k`lower, k`upper, k`number
  {
    && k.WellShaped() && k.Child(c) == key
    && forall e {:trigger k.Child(e)} | AlNum(e) && e != c ::
         k.Child(e) == if p + [e] in paths then paths[p + [e]] else null
  }

  lemma TreeGrows(paths: Paths, p: string, c: char, key: WgKey)
    requires PathsOk(paths) && p in paths && AlNum(c) && OthersOk(paths, p) && Gained(paths, p, paths[p], c, key)
    requires if p + [c] in paths then key == paths[p + [c]] else Blank(key, p + [c])
    ensures PathsOk(paths[p + [c] := key]) && KeysOk(paths[p + [c] := key])
  {
    var paths' := paths[p + [c] := key];
    if p + [c] !in paths {
      PathsGrow(paths, p, c, key);
      NewKeyOk(paths, p, c, key);
    } else {
      assert paths' == paths;
    }
    KeyGains(paths, p, c, key);
    forall r | r in paths && r != p ensures KeyOk(paths', r, paths[r]) {
      KeyKeeps(paths, p, c, key, r);
    }
  }

  lemma KnownGrows(paths: Paths, known: Known, q: string, key: WgKey)
    requires KnownOk(paths, known) && if q in paths then key == paths[q] else Blank(key, q)
    ensures KnownOk(paths[q := key], WithKey(known, q))
  {
    assert q in paths ==> paths[q := key] == paths;
  }

  lemma NewKeyOk(paths: Paths, p: string, c: char, key: WgKey)
    requires PathsOk(paths) && p + [c] !in paths && Blank(key, p + [c])
    ensures KeyOk(paths[p + [c] := key], p + [c], key)
  {
    forall e ensures p + [c] + [e] !in paths[p + [c] := key] {
      assert |p + [c] + [e]| != |p + [c]|;
    }
  }

  lemma KeyGains(paths: Paths, p: string, c: char, key: WgKey)
    requires p in paths && Gained(paths, p, paths[p], c, key)
    ensures KeyOk(paths[p + [c] := key], p, paths[p])
  {
    assert |p + [c]| != |p|;
    forall e | p + [e] == p + [c] ensures e == c {
      Unsnoc(p, e, p, c);
    }
  }

  lemma KeyKeeps(paths: Paths, p: string, c: char, key: WgKey, r: string)
    requires r in paths && r != p && KeyOk(paths, r, paths[r]) && (p + [c] in paths ==> paths[p + [c]] == key)
    ensures KeyOk(paths[p + [c] := key], r, paths[r])
  {
    forall e ensures r + [e] != p + [c] {
      if r + [e] == p + [c] {
        Unsnoc(r, e, p, c);
      }
    }
  }

  // ----- Whole runs ------------------------------------------------------------------

  /** Adds the words one after the other to an empty tree. */
  method AddAll(t: KeyTree, es: seq<Elem>)
    requires t.Valid() && t.known == Nothing && forall e <- es :: e.word != "" && AllAlNum(e.word)
    modifies t, t.paths.Values
    ensures t.Valid() && t.known == After(es) && fresh(t.paths.Values - old(t.paths.Values))
  {
    ghost var keys := t.paths.Values;
    for n := 0 to |es|
      invariant t.Valid() && t.known == After(es[..n]) && fresh(t.paths.Values - keys)
    {
      assert es[n] in es;
      AfterNext(es, n);
      var ret, udata := t.Add(es[n]);
    }
    assert es[..|es|] == es;
  }

  lemma {:induction false} AfterNext(es: seq<Elem>, n: nat)
    requires n < |es|
    ensures After(es[..n + 1]) == Added(After(es[..n]), es[n])
  {
    var more := es[..n + 1];
    assert more[..|more| - 1] == es[..n];
  }

  /** After any additions a string is recognised exactly when the letters and digits it
      starts with are one of the words, and a space or a control character follows. */
  method AddAllAndCompare(es: seq<Elem>, str: string) returns (error: int)
    requires forall e <- es :: e.word != "" && AllAlNum(e.word)
    ensures var run := LeadingRun(str);
      error == if HasWord(es, run) && (CharAt(str, |run|) <= ' ' || CharAt(str, |run|) == '\U{7F}') then 0 else 2
  {
    var t := new KeyTree();
    AddAll(t, es);
    IsKnownWord(es, LeadingRun(str));
    Followers(CharAt(str, |LeadingRun(str)|));
    error := t.Strcmp(str);
  }

  lemma WordsNotEmpty(es: seq<Elem>)
    requires forall e <- es :: e.word != ""
    ensures !HasWord(es, "")
  {
  }

  /** A callback that collects the strings of the keys that end a word. */
  function Collect(words: seq<string>, v: Visit, p: string): seq<string> {
    if v.endOfWord then words + [p] else words
  }

  /** Those of `v` that are words. */
  function Flagged(known: Known, v: seq<string>): seq<string> {
    if v == [] then [] else (if v[0] in known.words then [v[0]] else []) + Flagged(known, v[1..])
  }

  lemma {:induction false} CollectIs(paths: Paths, known: Known, words: seq<string>, v: seq<string>)
    requires forall p <- v :: p in paths && p in known.data
    ensures FoldVisits(Collect, paths, known, words, v) == words + Flagged(known, v)
    decreases v
  {
    if v == [] {
      assert words + [] == words;
    } else {
      assert v[0] in v;
      CollectIs(paths, known, FoldOne(Collect, paths, known, words, v[0]), v[1..]);
    }
  }

  lemma {:induction false} FlaggedHas(known: Known, v: seq<string>, p: string)
    ensures p in Flagged(known, v) <==> p in v && p in known.words
  {
    if v != [] {
      FlaggedHas(known, v[1..], p);
      assert v == [v[0]] + v[1..];
    }
  }

  lemma {:induction false} FlaggedInOrder(known: Known, v: seq<string>)
    requires InOrder(v)
    ensures InOrder(Flagged(known, v))
  {
    if v != [] {
      var rest := Flagged(known, v[1..]);
      FlaggedInOrder(known, v[1..]);
      forall j | 0 <= j < |rest| ensures Earlier(v[0], rest[j]) {
        FlaggedHas(known, v[1..], rest[j]);
        var k :| 0 <= k < |v[1..]| && v[1..][k] == rest[j];
        assert v[k + 1] == rest[j];
      }
    }
  }

  /** After any additions, the keys that a walk over the tree finds ending a word are those
      of exactly the words added, each met once, in order. */
  method AddAllAndCollect(es: seq<Elem>) returns (words: seq<string>)
    requires forall e <- es :: e.word != "" && AllAlNum(e.word) && |e.word| <= 128
    ensures InOrder(words) && forall p :: p in words <==> HasWord(es, p)
  {
    var t := new KeyTree();
    AddAll(t, es);
    KeysShort(t.paths, t.known, es, 128);
    words := t.ForeachAll(Collect, []);
    CollectedWords(t.paths, t.known, es, 128);
  }

  /** What a callback has been given, noted down. */
  datatype Note = Note(p: string, v: Visit)

  /** A callback that notes down everything it is given. */
  function TakeNote(notes: seq<Note>, v: Visit, p: string): seq<Note> {
    notes + [Note(p, v)]
  }

  /** These notes are on the keys for the strings of `v`, one by one. */
  ghost predicate NotesOn(paths: Paths, known: Known, v: seq<string>, notes: seq<Note>) {
    && |notes| == |v|
    && forall k | 0 <= k < |v| ::
         v[k] in paths && v[k] in known.data && notes[k] == Note(v[k], VisitOf(paths, known, v[k]))
  }

  lemma {:induction false} NotesAre(paths: Paths, known: Known, notes: seq<Note>, v: seq<string>)
    requires forall p <- v :: p in paths && p in known.data
    ensures var all := FoldVisits(TakeNote, paths, known, notes, v);
      |all| == |notes| + |v| && notes <= all && NotesOn(paths, known, v, all[|notes|..])
    decreases v
  {
    if v != [] {
      assert v[0] in v;
      NotesAre(paths, known, notes + [Note(v[0], VisitOf(paths, known, v[0]))], v[1..]);
      var all := FoldVisits(TakeNote, paths, known, notes, v);
      assert all[|notes|] == Note(v[0], VisitOf(paths, known, v[0]));
      forall k | 0 <= k < |v| ensures all[|notes|..][k] == Note(v[k], VisitOf(paths, known, v[k])) {
        assert k > 0 ==> all[|notes|..][k] == all[|notes| + 1..][k - 1] && v[k] == v[1..][k - 1];
      }
    }
  }

  /** The first addition through the key for `p`. */
  predicate FirstThrough(es: seq<Elem>, n: int, p: string) {
    0 <= n < |es| && IsPrefix(p, es[n].word) && forall j | 0 <= j < n :: !IsPrefix(p, es[j].word)
  }

  /** What a note must say after these additions: the flag of the words, the data of the first
      addition through the key if that was of the very word and none otherwise, and both as
      the key itself has them. */
  ghost predicate RightNote(es: seq<Elem>, note: Note)
    reads note.v.key
  {
    && (note.v.endOfWord <==> HasWord(es, note.p))
    && (forall n | FirstThrough(es, n, note.p) :: note.v.udata == if es[n].word == note.p then es[n].udata else NULL)
    && note.v.key.endOfWord == note.v.endOfWord && note.v.key.udata == note.v.udata && note.v.key.path == note.p
  }

  /** `p` is the beginning of a word. */
  predicate Begins(es: seq<Elem>, p: string) {
    p != "" && exists n | 0 <= n < |es| :: IsPrefix(p, es[n].word)
  }

  /** There is a note on `p`. */
  predicate Noted(notes: seq<Note>, p: string) {
    exists k | 0 <= k < |notes| :: notes[k].p == p
  }

  /** The one note before the other, on different strings and on different keys. */
  ghost predicate Apart(a: Note, b: Note) {
    Before(a.p, b.p) && a.p != b.p && a.v.key != b.v.key
  }

  lemma {:induction false} NoteIsRight(paths: Paths, known: Known, es: seq<Elem>, p: string)
    requires PathsOk(paths) && KnownOk(paths, known) && known == After(es) && p in paths && p != ""
    ensures RightNote(es, Note(p, VisitOf(paths, known, p)))
  {
    AfterExactly(es, p);
    forall j | FirstThrough(es, j, p) ensures j == FirstTouch(es, p) {
    }
  }

  lemma {:induction false} HasKey(paths: Paths, known: Known, es: seq<Elem>, p: string)
    requires KnownOk(paths, known) && known == After(es)
    ensures Begins(es, p) <==> p in paths && p != ""
  {
    if p != "" {
      AfterExactly(es, p);
    }
  }

  /** All beginnings are noted, and nothing else is. */
  lemma {:induction false} NotesComplete(paths: Paths, known: Known, es: seq<Elem>, v: seq<string>, notes: seq<Note>)
    requires KnownOk(paths, known) && known == After(es) && NotesOn(paths, known, v, notes)
    requires forall x :: x in v <==> x in paths && x != ""
    ensures forall p :: Noted(notes, p) <==> Begins(es, p)
  {
    forall p ensures Noted(notes, p) <==> Begins(es, p) {
      HasKey(paths, known, es, p);
      if p in v {
        var k :| 0 <= k < |v| && v[k] == p;
        assert notes[k].p == p;
      }
      if k :| 0 <= k < |notes| && notes[k].p == p {
        assert v[k] in v;
      }
    }
  }

  lemma {:induction false} NotesOrdered(paths: Paths, known: Known, v: seq<string>, notes: seq<Note>)
    requires PathsOk(paths) && NotesOn(paths, known, v, notes) && InOrder(v)
    ensures forall i, j | 0 <= i < j < |notes| :: Apart(notes[i], notes[j])
  {
    forall i, j | 0 <= i < j < |notes| ensures Apart(notes[i], notes[j]) {
      BeginningsIn(paths, v[i], 0);
      BeginningsIn(paths, v[j], 0);
      EarlierIsBefore(v[i], v[j]);
      NeverBeforeItself(v[i]);
    }
  }

  lemma {:induction false} NotesRight(paths: Paths, known: Known, es: seq<Elem>, v: seq<string>, notes: seq<Note>)
    requires PathsOk(paths) && KnownOk(paths, known) && known == After(es) && NotesOn(paths, known, v, notes)
    requires "" !in v
    ensures forall k | 0 <= k < |notes| :: RightNote(es, notes[k])
  {
    forall k | 0 <= k < |notes| ensures RightNote(es, notes[k]) {
      assert v[k] in v;
      NoteIsRight(paths, known, es, v[k]);
    }
  }

  /** The whole walk, noted down. */
  lemma {:induction false} WalkNotes(paths: Paths, known: Known, depth: nat) returns (v: seq<string>)
    requires PathsOk(paths) && KnownOk(paths, known) && forall q | q in paths :: |q| <= depth
    ensures NotesOn(paths, known, v, FoldVisits(TakeNote, paths, known, [], Visits(paths.Keys, depth, "")))
    ensures InOrder(v) && forall x :: x in v <==> x in paths && x != ""
  {
    v := Visits(paths.Keys, depth, "");
    WalkExactly(paths, depth);
    NotesAre(paths, known, [], v);
    var all := FoldVisits(TakeNote, paths, known, [], v);
    assert all[0..] == all;
  }

  /** Everything a walk over a tree made by these additions hands to its callback. */
  method VisitNoting(t: KeyTree, ghost es: seq<Elem>) returns (notes: seq<Note>)
    requires t.Valid() && t.known == After(es) && forall q | q in t.paths :: |q| <= 128
    ensures forall p :: Noted(notes, p) <==> Begins(es, p)
    ensures forall k | 0 <= k < |notes| :: RightNote(es, notes[k])
    ensures forall k | 0 <= k < |notes| :: notes[k].p in t.paths && t.paths[notes[k].p] == notes[k].v.key
    ensures forall i, j | 0 <= i < j < |notes| :: Apart(notes[i], notes[j])
  {
    ghost var v := WalkNotes(t.paths, t.known, 128);
    notes := t.ForeachAll(TakeNote, []);
    NotesComplete(t.paths, t.known, es, v, notes);
    NotesRight(t.paths, t.known, es, v, notes);
    NotesOrdered(t.paths, t.known, v, notes);
  }

  /** After any additions, everything a walk over the tree hands to its callback: each beginning
      of a word once, in order, with the right flag and data, and with a key of its own. */
  method AddAllAndVisit(es: seq<Elem>) returns (t: KeyTree, notes: seq<Note>)
    requires forall e <- es :: e.word != "" && AllAlNum(e.word) && |e.word| <= 128
    ensures fresh(t) && t.Valid() && t.known == After(es)
    ensures forall p :: Noted(notes, p) <==> Begins(es, p)
    ensures forall k | 0 <= k < |notes| :: RightNote(es, notes[k])
    ensures forall k | 0 <= k < |notes| :: notes[k].p in t.paths && t.paths[notes[k].p] == notes[k].v.key
    ensures forall i, j | 0 <= i < j < |notes| :: Apart(notes[i], notes[j])
  {
    t := new KeyTree();
    AddAll(t, es);
    KeysShort(t.paths, t.known, es, 128);
    notes := VisitNoting(t, es);
  }

  /** A lookup in a tree made by additions, and a walk over it: the string gives a key exactly
      when the letters and digits it starts with are a word and any other character up to 127
      follows, and it is the very key that the walk hands out under that word. */
  method VisitAndGet(es: seq<Elem>, str: string) returns (notes: seq<Note>, key: WgKey?)
    requires forall e <- es :: e.word != "" && AllAlNum(e.word) && |e.word| <= 128
    ensures var run := LeadingRun(str);
      && (key != null <==> HasWord(es, run) && CharAt(str, |run|) <= '\U{7F}')
      && (key != null ==> Noted(notes, run))
      && (key != null ==> forall k | 0 <= k < |notes| && notes[k].p == run :: notes[k].v.key == key)
  {
    var t;
    t, notes := AddAllAndVisit(es);
    IsKnownWord(es, LeadingRun(str));
    Followers(CharAt(str, |LeadingRun(str)|));
    key := t.KeyGet(str);
  }

  lemma {:induction false} IsKnownWord(es: seq<Elem>, w: string)
    requires forall e <- es :: e.word != ""
    ensures w in After(es).words && w != "" <==> HasWord(es, w)
    ensures HasWord(es, w) ==> Begins(es, w)
  {
    if w != "" {
      AfterExactly(es, w);
    }
    if n :| 0 <= n < |es| && es[n].word == w {
      assert es[n] in es && IsPrefix(w, es[n].word);
    }
  }

  /** No key is longer than the longest word. */
  lemma {:induction false} KeysShort(paths: Paths, known: Known, es: seq<Elem>, depth: nat)
    requires known == After(es) && (forall p :: p in paths <==> p in known.data)
    requires forall e <- es :: |e.word| <= depth
    ensures forall q | q in paths :: |q| <= depth
  {
    forall q | q in paths && q != "" ensures |q| <= depth {
      AfterExactly(es, q);
      assert es[FirstTouch(es, q)] in es;
    }
  }

  lemma {:induction false} CollectedWords(paths: Paths, known: Known, es: seq<Elem>, depth: nat)
    requires PathsOk(paths) && known == After(es) && (forall p :: p in paths <==> p in known.data)
    requires (forall p | p in known.words :: p in paths) && "" !in known.words
    requires (forall e <- es :: e.word != "") && forall q | q in paths :: |q| <= depth
    ensures var words := FoldVisits(Collect, paths, known, [], Visits(paths.Keys, depth, ""));
      InOrder(words) && forall p :: p in words <==> HasWord(es, p)
  {
    var v := Visits(paths.Keys, depth, "");
    WalkExactly(paths, depth);
    CollectIs(paths, known, [], v);
    assert [] + Flagged(known, v) == Flagged(known, v);
    FlaggedInOrder(known, v);
    WordsNotEmpty(es);
    forall p ensures p in Flagged(known, v) <==> HasWord(es, p) {
      FlaggedHas(known, v, p);
      if p != "" {
        AfterExactly(es, p);
      }
    }
  }

  /** The word is new to the tree that the words before it have made. */
  predicate NewWord(es: seq<Elem>, n: nat)
    requires n < |es|
  {
    es[n].word != "" && forall j | 0 <= j < n :: !IsPrefix(es[n].word, es[j].word)
  }

  predicate AllNew(es: seq<Elem>, n: nat)
    requires n <= |es|
  {
    forall j | 0 <= j < n :: NewWord(es, j)
  }

  /** wg_keytree_create: there is a tree exactly when each word is new, that is, neither
      empty nor the beginning of a word before it, and it holds all the words.  Otherwise the
      first word that is not new decides the error: 5 when it is empty, 6 when its key is there. */
  method WgKeytreeCreate(es: seq<Elem>) returns (tree: KeyTree?, error: int)
    requires forall n | 0 <= n < |es| :: AllAlNum(es[n].word)
    ensures error == 0 <==> AllNew(es, |es|)
    ensures error == 0 ==> tree != null && fresh(tree) && tree.Valid() && tree.known == After(es)
    ensures error != 0 ==> tree == null
    ensures error != 0 ==> Refused(es, error)
  {
    var t := new KeyTree();
    for n := 0 to |es|
      invariant fresh(t) && t.Valid() && t.known == After(es[..n]) && fresh(t.paths.Values)
      invariant AllNew(es, n)
    {
      var ret := CreateNext(t, es, n);
      if ret != W_NO_ERROR {
        return null, ret;
      }
    }
    assert es[..|es|] == es;
    return t, W_NO_ERROR;
  }

  lemma {:induction false} OneMoreNew(es: seq<Elem>, n: nat)
    requires n < |es| && AllNew(es, n) && NewWord(es, n)
    ensures AllNew(es, n + 1)
  {
    forall j | 0 <= j < n + 1 ensures NewWord(es, j) {
    }
  }

  /** Word number `n` is the first that is not new. */
  predicate FirstNotNew(es: seq<Elem>, n: int) {
    0 <= n < |es| && AllNew(es, n) && !NewWord(es, n)
  }

  /** The error that the first word that is not new gives. */
  ghost predicate Refused(es: seq<Elem>, error: int) {
    exists n :: FirstNotNew(es, n) && error == if es[n].word == "" then 5 else 6
  }

  /** The next word goes into the tree that the words before it have made. */
  method CreateNext(t: KeyTree, es: seq<Elem>, n: nat) returns (ret: int)
    requires n < |es| && t.Valid() && t.known == After(es[..n]) && AllNew(es, n) && AllAlNum(es[n].word)
    modifies t, t.paths.Values
    ensures t.Valid() && fresh(t.paths.Values - old(t.paths.Values))
    ensures ret == 0 ==> AllNew(es, n + 1) && t.known == After(es[..n + 1])
    ensures ret != 0 ==> !AllNew(es, |es|) && Refused(es, ret)
  {
    AfterNext(es, n);
    if es[n].word != "" {
      IsNewWord(es, n);
    }
    var udata;
    ret, udata := t.Add(es[n]);
    if NewWord(es, n) {
      OneMoreNew(es, n);
    } else {
      assert FirstNotNew(es, n);
    }
  }

  lemma {:induction false} IsNewWord(es: seq<Elem>, n: nat)
    requires n < |es| && es[n].word != ""
    ensures es[n].word in After(es[..n]).data <==> !NewWord(es, n)
  {
    var w, before := es[n].word, es[..n];
    AfterExactly(before, w);
    var k := FirstTouch(before, w);
    assert k < n ==> before[k] == es[k];
    forall j | 0 <= j < k ensures !IsPrefix(w, es[j].word) {
      assert before[j] == es[j];
    }
  }
}

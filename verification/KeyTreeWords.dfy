/**
 Words over letters and digits, and what a sequence of additions to a key tree of
 `kt/src/keytree.c` amounts to.
 */
module KeyTreeWords {
  type Data = int

  const NULL: Data := 0

  function WordType(c: char): int {
    if '0' <= c <= '9' then 1 else if 'A' <= c <= 'Z' then 2 else if 'a' <= c <= 'z' then 3 else 0
  }

  predicate AlNum(c: char) {
    WordType(c) != 0
  }

  predicate IsSpace(c: char) {
    c == ' ' || '\U{9}' <= c <= '\r'
  }

  predicate IsCntrl(c: char) {
    c < ' ' || c == '\U{7F}'
  }

  predicate IsPunct(c: char) {
    '!' <= c <= '~' && !AlNum(c)
  }

  /** What may follow a word: for wg_keytree_strcmp the characters up to the space and DEL, for
      wg_keytree_keyget every character up to DEL that is not part of the word. */
  lemma Followers(c: char)
    ensures IsSpace(c) || IsCntrl(c) <==> c <= ' ' || c == '\U{7F}'
    ensures !AlNum(c) ==> (IsPunct(c) || IsSpace(c) || IsCntrl(c) <==> c <= '\U{7F}')
  {
  }

  predicate AllAlNum(w: string) {
    forall i | 0 <= i < |w| :: AlNum(w[i])
  }

  predicate IsPrefix(p: string, w: string) {
    |p| <= |w| && p == w[..|p|]
  }

  /** The character at `i` of a C string. */
  function CharAt(s: string, i: nat): char {
    if i < |s| then s[i] else '\0'
  }

  /** The letters and digits a string starts with. */
  function LeadingRun(s: string): (r: string)
    ensures IsPrefix(r, s) && AllAlNum(r)
    ensures !AlNum(CharAt(s, |r|))
  {
    if s == "" || !AlNum(s[0]) then "" else [s[0]] + LeadingRun(s[1..])
  }

  // ----- Additions -----------------------------------------------------------------

  /** A word to add, with its data. */
  datatype Elem = Elem(word: string, udata: Data)

  /** What a tree knows: which strings are words, and the data of every string it has a key for. */
  datatype Known = Known(words: set<string>, data: map<string, Data>)

  const Nothing := Known({}, map["" := NULL])

  function Prefixes(w: string): set<string> {
    set i | 0 <= i <= |w| :: w[..i]
  }

  lemma PrefixesArePrefixes(p: string, w: string)
    ensures p in Prefixes(w) <==> IsPrefix(p, w)
  {
  }

  lemma PrefixesNone()
    ensures Prefixes("") == {""}
  {
    forall p ensures p in Prefixes("") <==> p == "" {
      PrefixesArePrefixes(p, "");
    }
  }

  lemma PrefixesMore(w: string, i: nat)
    requires i < |w|
    ensures Prefixes(w[..i + 1]) == Prefixes(w[..i]) + {w[..i + 1]}
  {
    var v, q := w[..i], w[..i + 1];
    assert v == q[..i];
    forall p ensures p in Prefixes(q) <==> p in Prefixes(v) || p == q {
      PrefixesArePrefixes(p, q);
      PrefixesArePrefixes(p, v);
      PrefixMore(p, q);
    }
  }

  lemma PrefixMore(p: string, q: string)
    requires q != ""
    ensures IsPrefix(p, q) <==> IsPrefix(p, q[..|q| - 1]) || p == q
  {
    var v := q[..|q| - 1];
    if |p| <= |v| {
      assert v[..|p|] == q[..|p|];
    } else if |p| == |q| {
      assert q[..|p|] == q;
    }
  }

  /** The keys on the way to the word are made, the last one with the word's data; keys
      that were there keep theirs. */
  function Added(k: Known, e: Elem): Known {
    Known(k.words + {e.word},
          map p | p in k.data.Keys + Prefixes(e.word) ::
            if p in k.data then k.data[p] else if p == e.word then e.udata else NULL)
  }

  function After(es: seq<Elem>): Known {
    if es == [] then Nothing else Added(After(es[..|es| - 1]), es[|es| - 1])
  }

  /** The first addition that makes a key for `p`, or their number when none does. */
  function FirstTouch(es: seq<Elem>, p: string): (n: nat)
    ensures n <= |es|
    ensures n < |es| ==> IsPrefix(p, es[n].word)
    ensures forall j | 0 <= j < n :: !IsPrefix(p, es[j].word)
  {
    if es == [] || IsPrefix(p, es[0].word) then 0 else 1 + FirstTouch(es[1..], p)
  }

  lemma {:induction false} FirstTouchFront(es: seq<Elem>, p: string)
    requires es != []
    ensures var front := es[..|es| - 1];
      FirstTouch(es, p) == if FirstTouch(front, p) < |front| then FirstTouch(front, p)
                           else if IsPrefix(p, es[|es| - 1].word) then |front| else |es|
  {
    var front := es[..|es| - 1];
    var n, m := FirstTouch(es, p), FirstTouch(front, p);
    assert n < |front| ==> es[n] == front[n];
    assert m < |front| ==> es[m] == front[m];
  }

  /** After any additions the words are those added, and a key's data is what the first
      addition that passed through it left there. */
  lemma {:induction false} AfterExactly(es: seq<Elem>, p: string)
    requires p != ""
    ensures var k, n := After(es), FirstTouch(es, p);
      && (p in k.words <==> HasWord(es, p))
      && (p in k.data <==> n < |es|)
      && (n < |es| ==> k.data[p] == if es[n].word == p then es[n].udata else NULL)
    decreases |es|
  {
    if es != [] {
      var front, e := es[..|es| - 1], es[|es| - 1];
      AfterExactly(front, p);
      FirstTouchFront(es, p);
      PrefixesArePrefixes(p, e.word);
      HasWordFront(es, p);
    }
  }

  predicate HasWord(es: seq<Elem>, p: string) {
    exists j | 0 <= j < |es| :: es[j].word == p
  }

  lemma {:induction false} HasWordFront(es: seq<Elem>, p: string)
    requires es != []
    ensures HasWord(es, p) <==> HasWord(es[..|es| - 1], p) || es[|es| - 1].word == p
  {
    var front := es[..|es| - 1];
    if j :| 0 <= j < |es| && es[j].word == p {
      assert j < |front| ==> front[j] == es[j];
    }
    if j :| 0 <= j < |front| && front[j].word == p {
      assert es[j] == front[j];
    }
  }

  /** The first writer of a word wins exactly when no longer word has gone through its
      key before, or it had nothing to write. */
  lemma {:induction false} FirstWriterWins(es: seq<Elem>, a: nat)
    requires a < |es| && es[a].word != "" && forall j | 0 <= j < a :: es[j].word != es[a].word
    ensures var w := es[a].word;
      && w in After(es).data
      && (After(es).data[w] == es[a].udata
          <==> es[a].udata == NULL || forall j | 0 <= j < a :: !IsPrefix(w, es[j].word))
  {
    var w := es[a].word;
    AfterExactly(es, w);
    var n := FirstTouch(es, w);
    assert IsPrefix(w, es[a].word);
    assert n <= a;
    if n < a {
      assert IsPrefix(w, es[n].word);
    }
  }

  /** "ab" before "a" leaves the data of "a" unset. */
  lemma LongerWordFirst(u: Data, v: Data)
    ensures var k := After([Elem("ab", u), Elem("a", v)]);
      "a" in k.words && "a" in k.data && k.data["a"] == NULL
  {
    var es := [Elem("ab", u), Elem("a", v)];
    AfterExactly(es, "a");
    assert es[1].word == "a" && IsPrefix("a", es[0].word);
  }

  // ----- The order of a walk ----------------------------------------------------------

  /** Lower case before upper case before digits. */
  function Rank(c: char): int {
    if WordType(c) == 3 then c as int - 'a' as int
    else if WordType(c) == 2 then 26 + c as int - 'A' as int
    else 52 + c as int - '0' as int
  }

  /** The character of a child, from the first one of its class and its index. */
  function ChildChar(base: char, i: nat): char
    requires base <= 'a' && i < 26
  {
    (base as int + i) as char
  }

  /** Every string is within the walk's depth, has its prefixes with it, and is a word's. */
  ghost predicate IsTrie(dom: set<string>, depth: nat) {
    forall q | q in dom :: |q| <= depth && AllAlNum(q) && forall i | 0 <= i <= |q| :: q[..i] in dom
  }

  function Visits(dom: set<string>, depth: nat, p: string): seq<string>
    requires |p| <= depth
    decreases depth + 1 - |p|, 1, 0
  {
    Branch(dom, depth, p, 'a', 0, 26) + Branch(dom, depth, p, 'A', 0, 26) + Branch(dom, depth, p, '0', 0, 10)
  }

  /** The children number `i` to `n` of one class, each before what is below it. */
  function Branch(dom: set<string>, depth: nat, p: string, base: char, i: nat, n: nat): seq<string>
    requires |p| <= depth && base <= 'a' && n <= 26
    decreases depth + 1 - |p|, 0, n - i
  {
    if i >= n then []
    else VisitChild(dom, depth, p + [ChildChar(base, i)]) + Branch(dom, depth, p, base, i + 1, n)
  }

  function VisitChild(dom: set<string>, depth: nat, q: string): seq<string>
    requires |q| <= depth + 1
    decreases depth + 1 - |q|, 2, 0
  {
    if q in dom && |q| <= depth then [q] + Visits(dom, depth, q) else []
  }

  /** `x` comes before `y` when it is a beginning of `y`, or has an earlier character
      where they first differ. */
  predicate Earlier(x: string, y: string) {
    y != "" && (x == "" || Rank(x[0]) < Rank(y[0]) || (x[0] == y[0] && Earlier(x[1..], y[1..])))
  }

  predicate InOrder(v: seq<string>) {
    forall i, j | 0 <= i < j < |v| :: Earlier(v[i], v[j])
  }

  /** Lower case comes before upper case and upper case before digits; within a class, the
      character with the smaller code. */
  predicate CharBefore(c: char, e: char) {
    || ('a' <= c <= 'z' && !('a' <= e <= 'z'))
    || ('A' <= c <= 'Z' && '0' <= e <= '9')
    || ('a' <= c < e <= 'z') || ('A' <= c < e <= 'Z') || ('0' <= c < e <= '9')
  }

  /** `x` goes on as `y` up to `k`, and comes before it there. */
  predicate PartsAt(x: string, y: string, k: nat) {
    k < |x| && k < |y| && x[..k] == y[..k] && CharBefore(x[k], y[k])
  }

  /** The order of a walk without ranks: a string before those that go on from it, otherwise by
      the first character that differs. */
  ghost predicate Before(x: string, y: string) {
    (IsPrefix(x, y) && x != y) || exists k: nat :: PartsAt(x, y, k)
  }

  lemma {:induction false} EarlierIsBefore(x: string, y: string)
    requires AllAlNum(x) && AllAlNum(y) && Earlier(x, y)
    ensures Before(x, y)
  {
    if x == "" {
    } else if x[0] != y[0] {
      assert PartsAt(x, y, 0);
    } else {
      EarlierIsBefore(x[1..], y[1..]);
      if IsPrefix(x[1..], y[1..]) && x[1..] != y[1..] {
        assert x == [x[0]] + x[1..] && y[..|x|] == [y[0]] + y[1..][..|x| - 1];
      } else {
        var k: nat :| PartsAt(x[1..], y[1..], k);
        assert x[..k + 1] == [x[0]] + x[1..][..k] && y[..k + 1] == [y[0]] + y[1..][..k];
        assert PartsAt(x, y, k + 1);
      }
    }
  }

  lemma NeverBeforeItself(x: string)
    ensures !Before(x, x)
  {
  }

  lemma {:induction false} NeverEarlierThanItself(x: string)
    ensures !Earlier(x, x)
  {
    if x != "" {
      NeverEarlierThanItself(x[1..]);
    }
  }

  lemma {:induction false} BeginningEarlier(p: string, y: string)
    requires IsPrefix(p, y) && p != y
    ensures Earlier(p, y)
  {
    if p != "" {
      BeginningEarlier(p[1..], y[1..]);
    }
  }

  lemma {:induction false} EarlierAt(p: string, c: char, e: char, x: string, y: string)
    requires IsPrefix(p + [c], x) && IsPrefix(p + [e], y) && Rank(c) < Rank(e)
    ensures Earlier(x, y)
    decreases |p|
  {
    assert (p + [c])[|p|] == c && (p + [e])[|p|] == e;
    if p != "" {
      assert x[0] == (p + [c])[0] && y[0] == (p + [e])[0];
      assert (p + [c])[1..] == p[1..] + [c] && (p + [e])[1..] == p[1..] + [e];
      EarlierAt(p[1..], c, e, x[1..], y[1..]);
    } else {
      assert x[0] == (p + [c])[0] && y[0] == (p + [e])[0];
    }
  }

  /** All of `v` lie below `p`, through one of the characters ranked from `lo` to `hi`. */
  ghost predicate Below(v: seq<string>, p: string, lo: int, hi: int) {
    forall x <- v :: IsPrefix(p, x) && |p| < |x| && lo <= Rank(x[|p|]) < hi
  }

  lemma {:induction false} InOrderConcat(v: seq<string>, w: seq<string>, p: string, lo: int, mid: int, hi: int)
    requires InOrder(v) && InOrder(w) && Below(v, p, lo, mid) && Below(w, p, mid, hi) && lo <= mid <= hi
    ensures InOrder(v + w) && Below(v + w, p, lo, hi)
  {
    forall i, j | 0 <= i < j < |v + w| ensures Earlier((v + w)[i], (v + w)[j]) {
      if i < |v| <= j {
        var x, y := v[i], w[j - |v|];
        assert x in v && y in w;
        assert p + [x[|p|]] == x[..|p| + 1] && p + [y[|p|]] == y[..|p| + 1];
        EarlierAt(p, x[|p|], y[|p|], x, y);
      }
    }
  }

  predicate ClassBase(base: char, n: nat) {
    (base == 'a' && n == 26) || (base == 'A' && n == 26) || (base == '0' && n == 10)
  }

  /** A walk is in order: a string before those below it, and these by character. */
  lemma {:induction false} VisitsInOrder(dom: set<string>, depth: nat, p: string)
    requires |p| <= depth
    ensures InOrder(Visits(dom, depth, p)) && Below(Visits(dom, depth, p), p, 0, 62)
    decreases depth + 1 - |p|, 1, 0
  {
    var a, b := Branch(dom, depth, p, 'a', 0, 26), Branch(dom, depth, p, 'A', 0, 26);
    var c := Branch(dom, depth, p, '0', 0, 10);
    BranchInOrder(dom, depth, p, 'a', 0, 26);
    BranchInOrder(dom, depth, p, 'A', 0, 26);
    BranchInOrder(dom, depth, p, '0', 0, 10);
    InOrderConcat(a, b, p, 0, 26, 52);
    InOrderConcat(a + b, c, p, 0, 52, 62);
  }

  lemma {:induction false} BranchInOrder(dom: set<string>, depth: nat, p: string, base: char, i: nat, n: nat)
    requires |p| <= depth && ClassBase(base, n) && i <= n
    ensures InOrder(Branch(dom, depth, p, base, i, n))
    ensures Below(Branch(dom, depth, p, base, i, n), p, Rank(base) + i, Rank(base) + n)
    decreases depth + 1 - |p|, 0, n - i
  {
    if i < n {
      ChildInOrder(dom, depth, p, ChildChar(base, i));
      BranchInOrder(dom, depth, p, base, i + 1, n);
      InOrderConcat(VisitChild(dom, depth, p + [ChildChar(base, i)]), Branch(dom, depth, p, base, i + 1, n), p,
                    Rank(base) + i, Rank(base) + i + 1, Rank(base) + n);
    }
  }

  lemma {:induction false} ChildInOrder(dom: set<string>, depth: nat, p: string, c: char)
    requires |p| <= depth
    ensures var v := VisitChild(dom, depth, p + [c]); InOrder(v) && Below(v, p, Rank(c), Rank(c) + 1)
    decreases depth - |p|, 2, 0
  {
    var q := p + [c];
    if q in dom && |q| <= depth {
      var v := Visits(dom, depth, q);
      VisitsInOrder(dom, depth, q);
      forall i, j | 0 <= i < j < |[q] + v| ensures Earlier(([q] + v)[i], ([q] + v)[j]) {
        if i == 0 {
          assert v[j - 1] in v;
          BeginningEarlier(q, v[j - 1]);
        }
      }
      forall x | x in [q] + v ensures IsPrefix(p, x) && |p| < |x| && Rank(x[|p|]) == Rank(c) {
        assert IsPrefix(q, x);
        assert x[|p|] == q[|p|];
        assert x[..|p|] == q[..|p|];
      }
    }
  }

  /** A walk visits exactly the strings below `p`. */
  lemma {:induction false} VisitsExactly(dom: set<string>, depth: nat, p: string, x: string)
    requires IsTrie(dom, depth) && |p| <= depth
    ensures x in Visits(dom, depth, p) <==> x in dom && IsPrefix(p, x) && p != x
  {
    VisitsInOrder(dom, depth, p);
    if x in dom && IsPrefix(p, x) && p != x {
      VisitsHas(dom, depth, p, x);
    }
    if x in Visits(dom, depth, p) {
      VisitsInDom(dom, depth, p, x);
    }
  }

  lemma {:induction false} VisitsHas(dom: set<string>, depth: nat, p: string, x: string)
    requires IsTrie(dom, depth) && x in dom && IsPrefix(p, x) && p != x
    ensures |p| <= depth && x in Visits(dom, depth, p)
    decreases |x| - |p|
  {
    var c, q := x[|p|], x[..|p| + 1];
    assert q == p + [c] && q in dom && AlNum(c);
    if x != q {
      VisitsHas(dom, depth, q, x);
    }
    assert x in VisitChild(dom, depth, p + [c]);
    var t := WordType(c);
    var base := if t == 3 then 'a' else if t == 2 then 'A' else '0';
    BranchHas(dom, depth, p, base, c as int - base as int, if t == 1 then 10 else 26, 0, x);
  }

  lemma {:induction false} BranchHas(dom: set<string>, depth: nat, p: string, base: char, k: nat, n: nat,
                                     i: nat, x: string)
    requires |p| <= depth && ClassBase(base, n) && i <= k < n && x in VisitChild(dom, depth, p + [ChildChar(base, k)])
    ensures x in Branch(dom, depth, p, base, i, n)
    decreases k - i
  {
    if i < k {
      BranchHas(dom, depth, p, base, k, n, i + 1, x);
    }
  }

  lemma {:induction false} VisitsInDom(dom: set<string>, depth: nat, p: string, x: string)
    requires |p| <= depth && x in Visits(dom, depth, p)
    ensures x in dom
    decreases depth + 1 - |p|, 1, 0
  {
    if x in Branch(dom, depth, p, 'a', 0, 26) {
      BranchInDom(dom, depth, p, 'a', 0, 26, x);
    } else if x in Branch(dom, depth, p, 'A', 0, 26) {
      BranchInDom(dom, depth, p, 'A', 0, 26, x);
    } else {
      BranchInDom(dom, depth, p, '0', 0, 10, x);
    }
  }

  lemma {:induction false} BranchInDom(dom: set<string>, depth: nat, p: string, base: char, i: nat, n: nat, x: string)
    requires |p| <= depth && base <= 'a' && n <= 26 && x in Branch(dom, depth, p, base, i, n)
    ensures x in dom
    decreases depth + 1 - |p|, 0, n - i
  {
    var q := p + [ChildChar(base, i)];
    if x in VisitChild(dom, depth, q) {
      if x != q {
        VisitsInDom(dom, depth, q, x);
      }
    } else {
      BranchInDom(dom, depth, p, base, i + 1, n, x);
    }
  }

  /** No string is visited twice. */
  lemma {:induction false} VisitedOnce(dom: set<string>, depth: nat, p: string)
    requires |p| <= depth
    ensures var v := Visits(dom, depth, p); forall i, j | 0 <= i < j < |v| :: v[i] != v[j]
  {
    VisitsInOrder(dom, depth, p);
    var v := Visits(dom, depth, p);
    forall i, j | 0 <= i < j < |v| ensures v[i] != v[j] {
      NeverEarlierThanItself(v[i]);
      assert Earlier(v[i], v[j]);
    }
  }
}

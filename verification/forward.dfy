/** `Finglish_be_Farsi` (finglish_to_farsi.py, lines 17-21): Latin to
    Persian. The keys are visited longest first and each one's occurrences
    are all replaced in the text produced so far.

    The reference it is proved against is a single left-to-right scan that
    at each position takes a two-letter key if one starts there, and
    otherwise maps the one character. The fold of passes and the scan agree
    on every input because two-letter keys cannot overlap (each ends in `h`
    and none starts with it) and no value contains a key letter. */
module ForwardScan {
  import opened OrderedDict
  import opened Replace
  import opened KeySort
  import opened Classify
  import opened CharMap

  /** The shape of a Latin-to-Persian table that makes the fold of passes a
      single scan: keys of one or two characters, values non-empty, no two
      two-character keys able to overlap, no value character in any key. */
  predicate LatinShaped(t: Table)
  {
    && (forall e :: e in t ==> 1 <= |e.0| <= 2 && |e.1| >= 1)
    && (forall e, f :: e in t && f in t && |e.0| == 2 && |f.0| == 2 ==> e.0[1] != f.0[0])
    && (forall e, f, c :: e in t && f in t && c in e.1 ==> c !in f.0)
  }

  /** A table of two-character keys with the same guarantees. */
  predicate DigraphTable(d: Table)
  {
    && (forall e :: e in d ==> |e.0| == 2 && |e.1| >= 1)
    && (forall e, f :: e in d && f in d ==> e.0[1] != f.0[0])
    && (forall e, f, c :: e in d && f in d && c in e.1 ==> c !in f.0)
  }

  /** All two-character keys of `d` replaced in one left-to-right scan;
      everything else copied. */
  function DigraphPass(d: Table, s: string): string
    decreases |s|
  {
    if s == [] then []
    else if |s| >= 2 && Lookup(d, s[..2]).Some? then Lookup(d, s[..2]).value + DigraphPass(d, s[2..])
    else [s[0]] + DigraphPass(d, s[1..])
  }

  /** The reference transliteration: at each position a two-character key
      wins over the single character. */
  function ScanWith(t: Table, s: string): string
    decreases |s|
  {
    if s == [] then []
    else if |s| >= 2 && Lookup(t, s[..2]).Some? then Lookup(t, s[..2]).value + ScanWith(t, s[2..])
    else CharImage(t, s[0]) + ScanWith(t, s[1..])
  }

  function Scan(s: string): string
  {
    ScanWith(Forward(), s)
  }

  /** `sorted(char_map.keys(), key=len, reverse=True)`, with each key's
      value alongside. */
  function ForwardOrder(): (order: Table)
    ensures NonEmptyKeys(order)
    ensures multiset(order) == multiset(Forward())
    ensures LongestFirst(order)
  {
    ForwardShape();
    SortedShape(Forward());
    SortByKeyLengthDesc(Forward())
  }

  /** Sorting a shaped table keeps its entries, so no key is empty. */
  lemma {:induction false} SortedShape(t: Table)
    requires LatinShaped(t)
    ensures NonEmptyKeys(SortByKeyLengthDesc(t))
    ensures multiset(SortByKeyLengthDesc(t)) == multiset(t)
    ensures LongestFirst(SortByKeyLengthDesc(t))
  {
    var r := SortByKeyLengthDesc(t);
    SortByKeyLengthDescCorrect(t);
    forall i | 0 <= i < |r|
      ensures |r[i].0| > 0
    {
      assert r[i] in multiset(r);
    }
  }

  /** `Finglish_be_Farsi(matn)`. */
  function ToFarsi(s: string): string
  {
    ReplaceEach(s, ForwardOrder())
  }

  /** The table shape, from facts stated entry by entry. */
  lemma {:induction false} LatinShapedByIndex(t: Table)
    requires forall i :: 0 <= i < |t| ==> 1 <= |t[i].0| <= 2 && |t[i].1| >= 1
    requires forall i :: 0 <= i < |t| && |t[i].0| == 2 ==> t[i].0[1] == 'h' && t[i].0[0] != 'h'
    requires forall i :: 0 <= i < |t| ==> forall c :: c in t[i].0 ==> IsAsciiLetter(c)
    requires forall i :: 0 <= i < |t| ==> forall c :: c in t[i].1 ==> InPersianRange(c)
    ensures LatinShaped(t)
    ensures forall e, c :: e in t && c in e.0 ==> IsAsciiLetter(c)
    ensures forall e, c :: e in t && c in e.1 ==> InPersianRange(c)
  {
  }

  /** `char_map` has the shape the scan needs, and its longest key has two
      letters. */
  lemma {:induction false} ForwardShape()
    ensures LatinShaped(Forward())
    ensures MaxKeyLength(Forward()) == 2
    ensures forall e, c :: e in Forward() && c in e.0 ==> IsAsciiLetter(c)
    ensures forall e, c :: e in Forward() && c in e.1 ==> InPersianRange(c)
  {
    ForwardLatinShaped();
    ForwardLongestKey();
    ForwardKeyLetters();
    ForwardValuesPersian();
  }

  lemma {:induction false} ForwardLatinShaped()
    ensures LatinShaped(Forward())
  {
    ForwardIsTable36();
    Table36Shape();
  }

  lemma {:induction false} ForwardLongestKey()
    ensures MaxKeyLength(Forward()) == 2
  {
    ForwardIsTable36();
    Table36Longest();
  }

  lemma {:induction false} ForwardKeyLetters()
    ensures forall e, c :: e in Forward() && c in e.0 ==> IsAsciiLetter(c)
  {
    ForwardIsTable36();
    Table36Shape();
  }

  lemma {:induction false} ForwardValuesPersian()
    ensures forall e, c :: e in Forward() && c in e.1 ==> InPersianRange(c)
  {
    ForwardIsTable36();
    Table36Shape();
  }

  lemma {:induction false} Table36Shape()
    ensures LatinShaped(Table36)
    ensures forall e, c :: e in Table36 && c in e.0 ==> IsAsciiLetter(c)
    ensures forall e, c :: e in Table36 && c in e.1 ==> InPersianRange(c)
  {
    Table36KeyLetters();
    Table36DigraphShape();
    Table36Values();
    LatinShapedByIndex(Table36);
  }

  lemma {:induction false} Table36Longest()
    ensures MaxKeyLength(Table36) == 2
  {
    Table36KeyLetters();
    assert |Table36[31].0| == 2;
    MaxKeyLengthIs(Table36, 2);
  }

  lemma {:induction false} DigraphTableTail(p: (string, string), d: Table)
    requires DigraphTable([p] + d)
    ensures DigraphTable(d)
  {
    assert forall e :: e in d ==> e in [p] + d;
  }

  lemma {:induction false} DigraphPassEmptyTable(s: string)
    ensures DigraphPass([], s) == s
    decreases |s|
  {
    if s != [] {
      DigraphPassEmptyTable(s[1..]);
      if |s| >= 2 {
        assert Lookup([], s[..2]) == None;
      }
      assert [s[0]] + s[1..] == s;
    }
  }

  /** Text made of value characters is copied by the digraph scan. */
  lemma {:induction false} DigraphPassPrefix(d: Table, v: string, x: string)
    requires forall c, f :: c in v && f in d ==> c !in f.0
    ensures DigraphPass(d, v + x) == v + DigraphPass(d, x)
    decreases |v|
  {
    if v != [] {
      var s := v + x;
      assert s[0] == v[0] && v[0] in v;
      if |s| >= 2 {
        NotAKey(d, s[..2], 0);
      }
      assert s[1..] == v[1..] + x;
      assert forall c :: c in v[1..] ==> c in v;
      DigraphPassPrefix(d, v[1..], x);
    } else {
      assert v + x == x;
    }
  }
  /** The first character `ReplaceAll` leaves at the front. */
  lemma {:induction false} ReplaceAllHead(s: string, k: string, v: string)
    requires |k| > 0 && |v| > 0 && |s| > 0
    ensures |ReplaceAll(s, k, v)| > 0
    ensures ReplaceAll(s, k, v)[0] == if |s| >= |k| && s[..|k|] == k then v[0] else s[0]
  {
  }

  /** One digraph's replace-all pass followed by the scan of the remaining
      digraphs is the scan of them all. */
  lemma {:induction false} DigraphAbsorb(p: (string, string), d: Table, s: string)
    requires DigraphTable([p] + d)
    ensures |p.0| == 2
    ensures DigraphPass(d, ReplaceAll(s, p.0, p.1)) == DigraphPass([p] + d, s)
    decreases |s|, 1
  {
    assert p in [p] + d;
    if |s| < 2 {
      assert ReplaceAll(s, p.0, p.1) == s;
      assert DigraphPass(d, s) == DigraphPass([p] + d, s);
    } else if s[..2] == p.0 {
      DigraphAbsorbHit(p, d, s);
    } else if Lookup(d, s[..2]).Some? {
      DigraphAbsorbOther(p, d, s);
    } else {
      DigraphAbsorbMiss(p, d, s);
    }
  }

  /** The tables `[p] + d` and `d` agree on every other key. */
  lemma {:induction false} DigraphLookupTail(p: (string, string), d: Table, k: string)
    requires k != p.0
    ensures Lookup([p] + d, k) == Lookup(d, k)
  {
    assert ([p] + d)[1..] == d;
  }

  /** The text starts with the key of `p`. */
  lemma {:induction false} DigraphAbsorbHit(p: (string, string), d: Table, s: string)
    requires DigraphTable([p] + d) && |s| >= 2 && s[..2] == p.0
    ensures DigraphPass(d, ReplaceAll(s, p.0, p.1)) == DigraphPass([p] + d, s)
    decreases |s|, 0
  {
    var t := [p] + d;
    var k, v := p.0, p.1;
    assert p in t;
    assert forall e :: e in d ==> e in t;
    assert ReplaceAll(s, k, v) == v + ReplaceAll(s[2..], k, v);
    DigraphAbsorb(p, d, s[2..]);
    DigraphPassPrefix(d, v, ReplaceAll(s[2..], k, v));
    assert Lookup(t, s[..2]) == Some(v);
  }

  /** The text starts with a key of `d`: its second character cannot start
      the key of `p`, so the pass leaves both characters. */
  lemma {:induction false} DigraphAbsorbOther(p: (string, string), d: Table, s: string)
    requires DigraphTable([p] + d) && |s| >= 2 && s[..2] != p.0
    requires Lookup(d, s[..2]).Some?
    ensures DigraphPass(d, ReplaceAll(s, p.0, p.1)) == DigraphPass([p] + d, s)
    decreases |s|, 0
  {
    var t := [p] + d;
    var k, v := p.0, p.1;
    var w := Lookup(d, s[..2]).value;
    DigraphLookupTail(p, d, s[..2]);
    LookupFound(d, s[..2]);
    DigraphNoOverlap(p, d, (s[..2], w));
    ReplaceAllSkipTwo(s, k, v);
    DigraphAbsorb(p, d, s[2..]);
    var x := ReplaceAll(s[2..], k, v);
    var r := s[..2] + x;
    assert r[..2] == s[..2];
    assert r[2..] == x;
    DigraphPassTwo(d, r);
    DigraphPassTwo(t, s);
  }

  /** No key of `d` ends with the first character of the key of `p`. */
  lemma {:induction false} DigraphNoOverlap(p: (string, string), d: Table, e: (string, string))
    requires DigraphTable([p] + d) && e in d
    ensures |e.0| == 2 && |p.0| == 2 && e.0[1] != p.0[0]
  {
    assert e in [p] + d;
    assert p in [p] + d;
  }

  /** A two-character prefix that is not the key and cannot start an
      occurrence at its second character is copied whole. */
  lemma {:induction false} ReplaceAllSkipTwo(s: string, k: string, v: string)
    requires |k| == 2 && |s| >= 2 && s[..2] != k && s[1] != k[0]
    ensures ReplaceAll(s, k, v) == s[..2] + ReplaceAll(s[2..], k, v)
  {
    var s1 := s[1..];
    assert ReplaceAll(s, k, v) == [s[0]] + ReplaceAll(s1, k, v);
    assert s1[0] == s[1];
    assert s1[1..] == s[2..];
    assert ReplaceAll(s1, k, v) == [s[1]] + ReplaceAll(s[2..], k, v);
    assert [s[0]] + ([s[1]] + ReplaceAll(s[2..], k, v)) == s[..2] + ReplaceAll(s[2..], k, v);
  }

  /** The digraph scan replaces a key at the front. */
  lemma {:induction false} DigraphPassTwo(d: Table, s: string)
    requires |s| >= 2 && Lookup(d, s[..2]).Some?
    ensures DigraphPass(d, s) == Lookup(d, s[..2]).value + DigraphPass(d, s[2..])
  {
  }

  /** The first two characters are no key: the first is copied, and the
      pass cannot form a key of `d` with it. */
  lemma {:induction false} DigraphAbsorbMiss(p: (string, string), d: Table, s: string)
    requires DigraphTable([p] + d) && |s| >= 2 && s[..2] != p.0
    requires Lookup(d, s[..2]) == None
    ensures DigraphPass(d, ReplaceAll(s, p.0, p.1)) == DigraphPass([p] + d, s)
    decreases |s|, 0
  {
    var t := [p] + d;
    var k, v := p.0, p.1;
    assert p in t;
    assert forall e :: e in d ==> e in t;
    DigraphLookupTail(p, d, s[..2]);
    var s1 := s[1..];
    assert ReplaceAll(s, k, v) == [s[0]] + ReplaceAll(s1, k, v);
    DigraphAbsorb(p, d, s1);
    var y := ReplaceAll(s1, k, v);
    ReplaceAllHead(s1, k, v);
    var z := [s[0]] + y;
    assert z[..2] == [s[0], y[0]];
    if y[0] != s[1] {
      assert y[0] in v;
      NotAKey(d, z[..2], 1);
    } else {
      assert z[..2] == s[..2];
    }
    assert z[1..] == y;
  }

  /** The fold of replace-all passes over a digraph table is one scan. */
  lemma {:induction false} DigraphPassIsReplaceEach(d: Table, s: string)
    requires DigraphTable(d)
    ensures NonEmptyKeys(d)
    ensures ReplaceEach(s, d) == DigraphPass(d, s)
    decreases |d|
  {
    assert forall i :: 0 <= i < |d| ==> d[i] in d;
    if d == [] {
      DigraphPassEmptyTable(s);
    } else {
      assert d == [d[0]] + d[1..];
      DigraphTableTail(d[0], d[1..]);
      DigraphPassIsReplaceEach(d[1..], ReplaceAll(s, d[0].0, d[0].1));
      DigraphAbsorb(d[0], d[1..], s);
    }
  }

  /** A value character is no key of a length class of the table. */
  lemma {:induction false} ValueCharNotSingleKey(t: Table, w: string, n: nat)
    requires LatinShaped(t)
    requires exists e :: e in t && e.1 == w
    ensures forall c :: c in w ==> Lookup(WithKeyLength(t, n), [c]) == None
  {
    WithKeyLengthMembers(t, n);
    forall c | c in w
      ensures Lookup(WithKeyLength(t, n), [c]) == None
    {
      NotAKey(WithKeyLength(t, n), [c], 0);
    }
  }

  /** The reference scan is the digraph scan followed by the per-character
      substitution of single letters. */
  lemma {:induction false} ScanDecomposes(t: Table, s: string)
    requires LatinShaped(t)
    ensures ScanWith(t, s) == SubstituteChars(WithKeyLength(t, 1), DigraphPass(WithKeyLength(t, 2), s))
    decreases |s|
  {
    var w1 := WithKeyLength(t, 1);
    var w2 := WithKeyLength(t, 2);
    if s != [] {
      if |s| >= 2 {
        LookupWithKeyLength(t, 2, s[..2]);
      }
      if |s| >= 2 && Lookup(t, s[..2]).Some? {
        var w := Lookup(t, s[..2]).value;
        LookupFound(t, s[..2]);
        ValueCharNotSingleKey(t, w, 1);
        SubstituteIdentity(w1, w);
        ScanDecomposes(t, s[2..]);
        SubstituteConcat(w1, w, DigraphPass(w2, s[2..]));
      } else {
        LookupWithKeyLength(t, 1, [s[0]]);
        ScanDecomposes(t, s[1..]);
        SubstituteConcat(w1, [s[0]], DigraphPass(w2, s[1..]));
        assert SubstituteChars(w1, [s[0]]) == CharImage(w1, s[0]);
      }
    }
  }

  /** A shaped table whose longest key has two letters is sorted into its
      two-letter entries followed by its one-letter entries. */
  lemma {:induction false} ShapedOrder(t: Table)
    requires LatinShaped(t) && MaxKeyLength(t) == 2
    ensures SortByKeyLengthDesc(t) == WithKeyLength(t, 2) + WithKeyLength(t, 1)
    ensures NonEmptyKeys(WithKeyLength(t, 2)) && NonEmptyKeys(WithKeyLength(t, 1))
  {
    WithKeyLengthMembers(t, 2);
    WithKeyLengthMembers(t, 1);
    assert forall i :: 0 <= i < |t| ==> t[i] in t;
    WithKeyLengthNone(t, 0);
    assert ByLengthFrom(t, 0) == [];
    assert ByLengthFrom(t, 1) == WithKeyLength(t, 1);
    assert ByLengthFrom(t, 2) == WithKeyLength(t, 2) + WithKeyLength(t, 1);
    var w2 := WithKeyLength(t, 2);
    var w1 := WithKeyLength(t, 1);
    assert forall i :: 0 <= i < |w2| ==> w2[i] in w2;
    assert forall i :: 0 <= i < |w1| ==> w1[i] in w1;
  }

  /** In a shaped table the one-letter entries meet the conditions under
      which their fold of passes is a per-character substitution. */
  lemma {:induction false} ShapedSinglesInert(t: Table)
    requires LatinShaped(t)
    ensures NonEmptyKeys(WithKeyLength(t, 1))
    ensures ValuesInert(WithKeyLength(t, 1), {})
    ensures LongKeysDead(WithKeyLength(t, 1), {})
  {
    var w1 := WithKeyLength(t, 1);
    WithKeyLengthMembers(t, 1);
    assert forall i :: 0 <= i < |w1| ==> w1[i] in w1 && w1[i] in t;
    forall i, c | 0 <= i < |w1| && c in w1[i].1
      ensures Lookup(w1, [c]) == None
    {
      ValueCharNotSingleKey(t, w1[i].1, 1);
    }
  }

  /** For a shaped table with two-letter keys, the fold of replace-all passes
      in longest-first order is the reference scan. */
  lemma {:induction false} FoldIsScan(t: Table, s: string)
    requires LatinShaped(t) && MaxKeyLength(t) == 2
    ensures NonEmptyKeys(SortByKeyLengthDesc(t))
    ensures ReplaceEach(s, SortByKeyLengthDesc(t)) == ScanWith(t, s)
  {
    var w2 := WithKeyLength(t, 2);
    var w1 := WithKeyLength(t, 1);
    ShapedOrder(t);
    WithKeyLengthMembers(t, 2);
    assert DigraphTable(w2);
    DigraphPassIsReplaceEach(w2, s);
    ShapedSinglesInert(t);
    ReplaceEachConcat(s, w2, w1);
    ReplaceEachCharwise(DigraphPass(w2, s), w1, {});
    ScanDecomposes(t, s);
  }

  /** `Finglish_be_Farsi` is the reference scan over `char_map`. */
  lemma {:induction false} ToFarsiIsScan(s: string)
    ensures ToFarsi(s) == Scan(s)
  {
    ForwardShape();
    FoldIsScan(Forward(), s);
  }
}

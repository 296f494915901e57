/** An insertion-ordered dictionary, the model of a Python `dict` as the
    transliteration table uses it: a sequence of (key, value) entries in
    insertion order. Writing an existing key keeps its position and replaces
    its value; writing a new key appends it. Both the table literal and the
    inverted table of the reverse direction are built this way. */
module OrderedDict {

  datatype Option<+T> = None | Some(value: T)

  /** The entries of a dictionary from strings to strings, in insertion
      order. */
  type Table = seq<(string, string)>

  /** No key occurs twice. */
  predicate DistinctKeys(d: Table)
  {
    forall i, j :: 0 <= i < j < |d| ==> d[i].0 != d[j].0
  }

  predicate HasKey(d: Table, k: string)
  {
    exists i :: 0 <= i < |d| && d[i].0 == k
  }

  /** `d[k]`, or None when `k` is not a key. The first entry wins, which
      only matters for a sequence that is not a dictionary. */
  function Lookup(d: Table, k: string): (r: Option<string>)
    ensures r.Some? <==> HasKey(d, k)
  {
    if d == [] then None
    else if d[0].0 == k then Some(d[0].1)
    else
      var r := Lookup(d[1..], k);
      assert HasKey(d[1..], k) ==> HasKey(d, k) by {
        if HasKey(d[1..], k) {
          var i :| 0 <= i < |d[1..]| && d[1..][i].0 == k;
          assert d[i + 1].0 == k;
        }
      }
      r
  }

  /** `d[k] = v` on an insertion-ordered dict. */
  function Put(d: Table, k: string, v: string): (r: Table)
    ensures HasKey(d, k) ==> |r| == |d|
    ensures !HasKey(d, k) ==> r == d + [(k, v)]
    ensures forall i :: 0 <= i < |d| ==> r[i].0 == d[i].0
    ensures forall i :: 0 <= i < |d| && d[i].0 != k ==> r[i] == d[i]
    ensures DistinctKeys(d) ==> forall i :: 0 <= i < |d| && d[i].0 == k ==> r[i] == (k, v)
  {
    if d == [] then [(k, v)]
    else if d[0].0 == k then [(k, v)] + d[1..]
    else
      assert HasKey(d[1..], k) ==> HasKey(d, k) by {
        if HasKey(d[1..], k) {
          var i :| 0 <= i < |d[1..]| && d[1..][i].0 == k;
          assert d[i + 1].0 == k;
        }
      }
      assert !HasKey(d, k) ==> !HasKey(d[1..], k) by {
        if HasKey(d[1..], k) {
          var i :| 0 <= i < |d[1..]| && d[1..][i].0 == k;
          assert d[i + 1].0 == k;
        }
      }
      [d[0]] + Put(d[1..], k, v)
  }

  /** Writing a key keeps the keys distinct: an existing key is written in
      place, a new one is appended. */
  lemma {:induction false} PutDistinct(d: Table, k: string, v: string)
    requires DistinctKeys(d)
    ensures DistinctKeys(Put(d, k, v))
  {
    var r := Put(d, k, v);
    if !HasKey(d, k) {
      assert forall i :: 0 <= i < |d| ==> d[i].0 != k;
      assert forall i :: 0 <= i < |d| ==> r[i] == d[i];
      assert r[|d|] == (k, v);
    }
  }

  /** The dictionary a Python dict display (or comprehension) builds from
      its pairs, written left to right. */
  function FromPairs(ps: Table): Table
  {
    if ps == [] then []
    else
      var last := ps[|ps| - 1];
      Put(FromPairs(ps[..|ps| - 1]), last.0, last.1)
  }

  /** `{v: k for k, v in d.items()}`: the pairs of `d`, each turned round. */
  function Swap(d: Table): (r: Table)
    ensures |r| == |d|
    ensures forall i :: 0 <= i < |d| ==> r[i] == (d[i].1, d[i].0)
  {
    seq(|d|, i requires 0 <= i < |d| => (d[i].1, d[i].0))
  }

  function Invert(d: Table): Table
  {
    FromPairs(Swap(d))
  }

  lemma {:induction false} LookupAt(d: Table, i: nat)
    requires i < |d|
    requires forall j :: 0 <= j < i ==> d[j].0 != d[i].0
    ensures Lookup(d, d[i].0) == Some(d[i].1)
  {
    if i > 0 {
      LookupAt(d[1..], i - 1);
    }
  }

  /** In a dictionary every key finds its own entry. */
  lemma {:induction false} LookupDistinct(d: Table, i: nat)
    requires DistinctKeys(d)
    requires i < |d|
    ensures Lookup(d, d[i].0) == Some(d[i].1)
  {
    LookupAt(d, i);
  }

  /** A found value belongs to an entry with that key. */
  lemma {:induction false} LookupFound(d: Table, k: string)
    requires Lookup(d, k).Some?
    ensures (k, Lookup(d, k).value) in d
  {
    if d[0].0 != k {
      LookupFound(d[1..], k);
    }
  }

  lemma {:induction false} FromPairsDistinct(ps: Table)
    ensures DistinctKeys(FromPairs(ps))
  {
    if ps != [] {
      var d := FromPairs(ps[..|ps| - 1]);
      FromPairsDistinct(ps[..|ps| - 1]);
      PutDistinct(d, ps[|ps| - 1].0, ps[|ps| - 1].1);
    }
  }

  /** Every entry of the built dictionary is one of the pairs written. */
  lemma {:induction false} FromPairsEntries(ps: Table)
    ensures forall e :: e in FromPairs(ps) ==> e in ps
  {
    if ps != [] {
      var init := ps[..|ps| - 1];
      var last := ps[|ps| - 1];
      FromPairsEntries(init);
      FromPairsDistinct(init);
      var d := FromPairs(init);
      var r := Put(d, last.0, last.1);
      assert r == FromPairs(ps);
      forall e | e in r
        ensures e in ps
      {
        var i :| 0 <= i < |r| && r[i] == e;
        if i < |d| && d[i].0 != last.0 {
          assert d[i] in d;
          assert d[i] in init;
        } else {
          assert e == last;
        }
      }
    }
  }

  lemma {:induction false} PutHasKey(d: Table, k: string, v: string, k': string)
    ensures HasKey(Put(d, k, v), k') <==> HasKey(d, k') || k' == k
  {
    var r := Put(d, k, v);
    if HasKey(r, k') && k' != k {
      var i :| 0 <= i < |r| && r[i].0 == k';
      if !HasKey(d, k) {
        assert i < |d|;
      }
      assert d[i].0 == k';
    }
    if HasKey(d, k') {
      var i :| 0 <= i < |d| && d[i].0 == k';
      assert r[i].0 == k';
    }
    if k' == k && !HasKey(d, k) {
      assert r[|d|].0 == k;
    }
  }

  lemma {:induction false} HasKeySnoc(ps: Table)
    requires ps != []
    ensures forall k :: HasKey(ps, k) <==> HasKey(ps[..|ps| - 1], k) || ps[|ps| - 1].0 == k
  {
    var init := ps[..|ps| - 1];
    forall k
      ensures HasKey(ps, k) <==> HasKey(init, k) || ps[|ps| - 1].0 == k
    {
      if HasKey(ps, k) && ps[|ps| - 1].0 != k {
        var i :| 0 <= i < |ps| && ps[i].0 == k;
        assert init[i].0 == k;
      }
      if HasKey(init, k) {
        var i :| 0 <= i < |init| && init[i].0 == k;
        assert ps[i].0 == k;
      }
    }
  }

  /** A key is in the built dictionary exactly when some pair writes it. */
  lemma {:induction false} FromPairsHasKey(ps: Table, k: string)
    ensures HasKey(FromPairs(ps), k) <==> HasKey(ps, k)
  {
    if ps != [] {
      var init := ps[..|ps| - 1];
      var last := ps[|ps| - 1];
      assert FromPairs(ps) == Put(FromPairs(init), last.0, last.1);
      FromPairsHasKey(init, k);
      PutHasKey(FromPairs(init), last.0, last.1, k);
      HasKeySnoc(ps);
    }
  }

  /** Last write wins: the value a key ends up with is the one its last
      pair writes. */
  lemma {:induction false} FromPairsLastWins(ps: Table, i: nat)
    requires i < |ps|
    requires forall j :: i < j < |ps| ==> ps[j].0 != ps[i].0
    ensures Lookup(FromPairs(ps), ps[i].0) == Some(ps[i].1)
  {
    FromPairsDistinct(ps);
    var k := ps[i].0;
    var init := ps[..|ps| - 1];
    var last := ps[|ps| - 1];
    var d := FromPairs(init);
    var r := Put(d, last.0, last.1);
    assert r == FromPairs(ps);
    if i == |ps| - 1 {
      if HasKey(d, k) {
        var j :| 0 <= j < |d| && d[j].0 == k;
        LookupDistinct(r, j);
      } else {
        LookupDistinct(r, |d|);
      }
    } else {
      FromPairsLastWins(init, i);
      FromPairsDistinct(init);
      var j :| 0 <= j < |d| && d[j].0 == k;
      LookupDistinct(d, j);
      LookupDistinct(r, j);
    }
  }

  /** Insertion order: the keys written by a prefix of the pairs come first,
      in the same order. */
  lemma {:induction false} FromPairsPrefixKeys(ps: Table, n: nat)
    requires n <= |ps|
    ensures |FromPairs(ps[..n])| <= |FromPairs(ps)|
    ensures forall i :: 0 <= i < |FromPairs(ps[..n])| ==>
              FromPairs(ps)[i].0 == FromPairs(ps[..n])[i].0
  {
    if n < |ps| {
      var init := ps[..|ps| - 1];
      var last := ps[|ps| - 1];
      assert init[..n] == ps[..n];
      FromPairsPrefixKeys(init, n);
      var d := FromPairs(init);
      assert Put(d, last.0, last.1) == FromPairs(ps);
    } else {
      assert ps[..n] == ps;
    }
  }

  /** Writing pairs whose keys are new and distinct appends them. */
  lemma {:induction false} FromPairsAppendNew(ps: Table, qs: Table)
    requires DistinctKeys(FromPairs(ps) + qs)
    ensures FromPairs(ps + qs) == FromPairs(ps) + qs
  {
    if qs == [] {
      assert ps + qs == ps;
    } else {
      var init := qs[..|qs| - 1];
      var last := qs[|qs| - 1];
      var d := FromPairs(ps) + qs;
      var e := FromPairs(ps) + init;
      assert (ps + qs)[..|ps + qs| - 1] == ps + init;
      assert (ps + qs)[|ps + qs| - 1] == last;
      assert d[..|d| - 1] == e;
      assert d[|d| - 1] == last;
      DistinctInit(d);
      FromPairsAppendNew(ps, init);
      assert e + [last] == d;
    }
  }

  /** Two dictionaries with no key in common make one. */
  lemma {:induction false} DistinctConcat(a: Table, b: Table)
    requires DistinctKeys(a) && DistinctKeys(b)
    requires forall i, j :: 0 <= i < |a| && 0 <= j < |b| ==> a[i].0 != b[j].0
    ensures DistinctKeys(a + b)
  {
    var d := a + b;
    assert forall i :: 0 <= i < |a| ==> d[i] == a[i];
    assert forall j :: |a| <= j < |d| ==> d[j] == b[j - |a|];
  }

  /** Dropping the last entry of a dictionary leaves a dictionary without
      that entry's key. */
  lemma {:induction false} DistinctInit(d: Table)
    requires DistinctKeys(d) && d != []
    ensures DistinctKeys(d[..|d| - 1])
    ensures !HasKey(d[..|d| - 1], d[|d| - 1].0)
  {
    var e := d[..|d| - 1];
    assert forall i :: 0 <= i < |e| ==> e[i] == d[i];
  }

  /** Writing an existing key of a dictionary only changes its value, in
      place. */
  lemma {:induction false} PutExisting(d: Table, i: nat, v: string)
    requires DistinctKeys(d)
    requires i < |d|
    ensures Put(d, d[i].0, v) == d[i := (d[i].0, v)]
  {
    assert HasKey(d, d[i].0);
  }

  /** Some character of `w` is in no key, so `w` is not a key. */
  lemma {:induction false} NotAKey(d: Table, w: string, j: nat)
    requires j < |w|
    requires forall f :: f in d ==> w[j] !in f.0
    ensures Lookup(d, w) == None
  {
    forall i | 0 <= i < |d|
      ensures d[i].0 != w
    {
      assert d[i] in d;
      assert w[j] in w;
    }
  }

  /** Every entry of the inverted dictionary is an entry of the original
      turned round. */
  lemma {:induction false} InvertEntries(d: Table)
    ensures forall e :: e in Invert(d) ==> (e.1, e.0) in d
  {
    var s := Swap(d);
    FromPairsEntries(s);
    forall e | e in s
      ensures (e.1, e.0) in d
    {
      var i :| 0 <= i < |s| && s[i] == e;
      assert d[i] == (e.1, e.0);
    }
  }

  /** A value is a key of the inverse exactly when some entry holds it. */
  lemma {:induction false} InvertHasKey(d: Table, v: string)
    ensures Lookup(Invert(d), v).Some? <==> exists i :: 0 <= i < |d| && d[i].1 == v
  {
    var s := Swap(d);
    FromPairsHasKey(s, v);
    if HasKey(s, v) {
      var i :| 0 <= i < |s| && s[i].0 == v;
      assert d[i].1 == v;
    }
    if exists i :: 0 <= i < |d| && d[i].1 == v {
      var i :| 0 <= i < |d| && d[i].1 == v;
      assert s[i].0 == v;
    }
  }

  /** The inverse maps a value to the key of the last entry holding it. */
  lemma {:induction false} InvertLastWins(d: Table, i: nat)
    requires i < |d|
    requires forall j :: i < j < |d| ==> d[j].1 != d[i].1
    ensures Lookup(Invert(d), d[i].1) == Some(d[i].0)
  {
    FromPairsLastWins(Swap(d), i);
  }

  /** What the inverse finds for a value is a key the original maps back to
      that value. */
  lemma {:induction false} InvertSound(d: Table, v: string)
    requires DistinctKeys(d)
    requires Lookup(Invert(d), v).Some?
    ensures Lookup(d, Lookup(Invert(d), v).value) == Some(v)
  {
    var k := Lookup(Invert(d), v).value;
    LookupFound(Invert(d), v);
    InvertEntries(d);
    assert (k, v) in d;
    var i :| 0 <= i < |d| && d[i] == (k, v);
    LookupDistinct(d, i);
  }

  /** The inverse starts with the first entry's value as its key. */
  lemma {:induction false} InvertFirst(d: Table)
    requires d != []
    ensures Invert(d) != [] && Invert(d)[0].0 == d[0].1
  {
    var s := Swap(d);
    FromPairsPrefixKeys(s, 1);
    assert s[..1] == [(d[0].1, d[0].0)];
    assert s[..1][..0] == [];
    assert FromPairs(s[..1]) == [(d[0].1, d[0].0)];
  }
}

/** `sorted(char_map.keys(), key=len, reverse=True)`: the table's entries
    ordered by key length, longest first. Python's sort is stable, also with
    `reverse=True`, so entries whose keys have the same length keep their
    dictionary order. The sort here takes the lengths from the longest down
    and, for each, the entries of that length in table order. */
module KeySort {
  import opened OrderedDict

  /** The entries whose key has length `n`, in table order. */
  function WithKeyLength(t: Table, n: nat): Table
    decreases |t|
  {
    if t == [] then [] else (if |t[0].0| == n then [t[0]] else []) + WithKeyLength(t[1..], n)
  }

  /** The length-`n` class holds exactly the table's entries with keys of
      length `n`. */
  lemma {:induction false} WithKeyLengthMembers(t: Table, n: nat)
    ensures forall e :: e in WithKeyLength(t, n) <==> e in t && |e.0| == n
    decreases |t|
  {
    if t != [] {
      WithKeyLengthMembers(t[1..], n);
      assert forall e :: e in t <==> e == t[0] || e in t[1..];
    }
  }

  /** The entries whose key is at most `n` long, in table order. */
  function WithKeyLengthAtMost(t: Table, n: nat): Table
    decreases |t|
  {
    if t == [] then []
    else (if |t[0].0| <= n then [t[0]] else []) + WithKeyLengthAtMost(t[1..], n)
  }

  function MaxKeyLength(t: Table): (m: nat)
    ensures forall i :: 0 <= i < |t| ==> |t[i].0| <= m
    ensures t != [] ==> exists i :: 0 <= i < |t| && |t[i].0| == m
    decreases |t|
  {
    if t == [] then 0
    else
      var m := MaxKeyLength(t[1..]);
      assert forall i :: 1 <= i < |t| ==> t[i] == t[1..][i - 1];
      if |t[0].0| >= m then |t[0].0| else m
  }

  /** The entries of lengths `n`, `n - 1`, ..., 0, in that order. */
  function ByLengthFrom(t: Table, n: nat): Table
    decreases n
  {
    WithKeyLength(t, n) + (if n == 0 then [] else ByLengthFrom(t, n - 1))
  }

  /** The order in which the forward pass visits the table. */
  function SortByKeyLengthDesc(t: Table): Table
  {
    ByLengthFrom(t, MaxKeyLength(t))
  }

  /** Key lengths never increase along the sequence. */
  predicate LongestFirst(t: Table)
  {
    forall i, j :: 0 <= i < j < |t| ==> |t[i].0| >= |t[j].0|
  }

  lemma {:induction false} WithKeyLengthConcat(a: Table, b: Table, n: nat)
    ensures WithKeyLength(a + b, n) == WithKeyLength(a, n) + WithKeyLength(b, n)
    decreases |a|
  {
    if a != [] {
      assert (a + b)[1..] == a[1..] + b;
      WithKeyLengthConcat(a[1..], b, n);
    } else {
      assert a + b == b;
    }
  }

  lemma {:induction false} WithKeyLengthTwice(t: Table, n: nat, m: nat)
    ensures WithKeyLength(WithKeyLength(t, n), m) == if n == m then WithKeyLength(t, n) else []
    decreases |t|
  {
    if t != [] {
      WithKeyLengthTwice(t[1..], n, m);
      var head := if |t[0].0| == n then [t[0]] else [];
      WithKeyLengthConcat(head, WithKeyLength(t[1..], n), m);
    }
  }

  lemma {:induction false} WithKeyLengthNone(t: Table, n: nat)
    requires forall i :: 0 <= i < |t| ==> |t[i].0| != n
    ensures WithKeyLength(t, n) == []
    decreases |t|
  {
    if t != [] {
      WithKeyLengthNone(t[1..], n);
    }
  }

  /** Every length class of the sorted sequence is exactly the same
      class of the table: nothing lost, nothing added, order kept. */
  lemma {:induction false} ByLengthFromClasses(t: Table, n: nat, m: nat)
    ensures WithKeyLength(ByLengthFrom(t, n), m) == if m <= n then WithKeyLength(t, m) else []
    decreases n
  {
    var rest := if n == 0 then [] else ByLengthFrom(t, n - 1);
    WithKeyLengthConcat(WithKeyLength(t, n), rest, m);
    WithKeyLengthTwice(t, n, m);
    if n > 0 {
      ByLengthFromClasses(t, n - 1, m);
    }
  }

  lemma {:induction false} ByLengthFromBounded(t: Table, n: nat)
    ensures forall e :: e in ByLengthFrom(t, n) ==> |e.0| <= n
    ensures LongestFirst(ByLengthFrom(t, n))
    decreases n
  {
    var head := WithKeyLength(t, n);
    WithKeyLengthMembers(t, n);
    var rest := if n == 0 then [] else ByLengthFrom(t, n - 1);
    if n > 0 {
      ByLengthFromBounded(t, n - 1);
    }
    var r := head + rest;
    forall i, j | 0 <= i < j < |r|
      ensures |r[i].0| >= |r[j].0|
    {
      if i < |head| {
        assert r[i] in head;
        if j >= |head| {
          assert r[j] == rest[j - |head|];
          assert r[j] in rest;
        } else {
          assert r[j] in head;
        }
      } else {
        assert r[i] == rest[i - |head|] && r[j] == rest[j - |head|];
      }
    }
  }

  lemma {:induction false} AtMostSplit(t: Table, n: nat)
    ensures multiset(WithKeyLengthAtMost(t, n)) ==
            multiset(WithKeyLength(t, n)) + (if n == 0 then multiset{} else multiset(WithKeyLengthAtMost(t, n - 1)))
    decreases |t|
  {
    if t != [] {
      AtMostSplit(t[1..], n);
    }
  }

  lemma {:induction false} ByLengthFromMultiset(t: Table, n: nat)
    ensures multiset(ByLengthFrom(t, n)) == multiset(WithKeyLengthAtMost(t, n))
    decreases n
  {
    if n == 0 {
      ByLengthFromMultisetZero(t);
    } else {
      ByLengthFromMultiset(t, n - 1);
      ByLengthFromMultisetStep(t, n);
    }
  }

  lemma {:induction false} ByLengthFromMultisetZero(t: Table)
    ensures multiset(ByLengthFrom(t, 0)) == multiset(WithKeyLengthAtMost(t, 0))
  {
    AtMostSplit(t, 0);
    ByLengthFromStep(t, 0);
    MultisetStep(WithKeyLength(t, 0), [], [], WithKeyLengthAtMost(t, 0));
  }

  lemma {:induction false} ByLengthFromMultisetStep(t: Table, n: nat)
    requires n > 0
    requires multiset(ByLengthFrom(t, n - 1)) == multiset(WithKeyLengthAtMost(t, n - 1))
    ensures multiset(ByLengthFrom(t, n)) == multiset(WithKeyLengthAtMost(t, n))
  {
    AtMostSplit(t, n);
    ByLengthFromStep(t, n);
    MultisetStep(WithKeyLength(t, n), ByLengthFrom(t, n - 1), WithKeyLengthAtMost(t, n - 1), WithKeyLengthAtMost(t, n));
  }

  lemma {:induction false} ByLengthFromStep(t: Table, n: nat)
    ensures ByLengthFrom(t, n) == WithKeyLength(t, n) + (if n == 0 then [] else ByLengthFrom(t, n - 1))
  {
  }

  lemma {:induction false} MultisetStep(a: Table, b: Table, b': Table, c: Table)
    requires multiset(b) == multiset(b')
    requires multiset(c) == multiset(a) + multiset(b')
    ensures multiset(a + b) == multiset(c)
  {
  }

  lemma {:induction false} AtMostAll(t: Table, n: nat)
    requires forall i :: 0 <= i < |t| ==> |t[i].0| <= n
    ensures WithKeyLengthAtMost(t, n) == t
    decreases |t|
  {
    if t != [] {
      AtMostAll(t[1..], n);
    }
  }

  /** The sort is what Python's stable sort by descending key length
      returns: a permutation of the table, longest keys first, and within
      each key length the table's own order. */
  lemma {:induction false} SortByKeyLengthDescCorrect(t: Table)
    ensures multiset(SortByKeyLengthDesc(t)) == multiset(t)
    ensures LongestFirst(SortByKeyLengthDesc(t))
    ensures forall n: nat :: WithKeyLength(SortByKeyLengthDesc(t), n) == WithKeyLength(t, n)
  {
    var m := MaxKeyLength(t);
    ByLengthFromMultiset(t, m);
    AtMostAll(t, m);
    ByLengthFromBounded(t, m);
    forall n: nat
      ensures WithKeyLength(SortByKeyLengthDesc(t), n) == WithKeyLength(t, n)
    {
      ByLengthFromClasses(t, m, n);
      if n > m {
        WithKeyLengthNone(t, n);
      }
    }
  }

  /** The longest key length is `n` when every key is at most `n` long and
      one is exactly `n` long. */
  lemma {:induction false} MaxKeyLengthIs(t: Table, n: nat)
    requires forall i :: 0 <= i < |t| ==> |t[i].0| <= n
    requires exists i :: 0 <= i < |t| && |t[i].0| == n
    ensures MaxKeyLength(t) == n
  {
  }

  /** Keys of length `n` are looked up alike in the table and in its
      length-`n` class. */
  lemma {:induction false} LookupWithKeyLength(t: Table, n: nat, k: string)
    requires |k| == n
    ensures Lookup(WithKeyLength(t, n), k) == Lookup(t, k)
    decreases |t|
  {
    if t != [] {
      LookupWithKeyLength(t[1..], n, k);
      var rest := WithKeyLength(t[1..], n);
      if |t[0].0| == n {
        assert WithKeyLength(t, n) == [t[0]] + rest;
        assert ([t[0]] + rest)[1..] == rest;
      } else {
        assert WithKeyLength(t, n) == rest;
        assert t[0].0 != k;
      }
    }
  }
}

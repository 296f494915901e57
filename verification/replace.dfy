/** Literal substitution: `re.sub(re.escape(k), v, s)` for a fixed key `k`,
    the loop that applies one such substitution per table entry, and the
    one-pass per-character substitution the loop amounts to when every key
    is a single character. */
module Replace {
  import opened OrderedDict

  /** Every key of the table is a non-empty string. */
  predicate NonEmptyKeys(t: Table)
  {
    forall i :: 0 <= i < |t| ==> |t[i].0| > 0
  }

  /** `c` occurs in the value of some entry. */
  predicate InSomeValue(t: Table, c: char)
  {
    exists i :: 0 <= i < |t| && c in t[i].1
  }

  /** Replaces every occurrence of `k` in `s` by `v`, scanning left to right
      and resuming after each replaced occurrence, so occurrences never
      overlap. The replacement is literal text. */
  function ReplaceAll(s: string, k: string, v: string): (r: string)
    requires |k| > 0
    ensures k[0] !in s ==> r == s
    ensures forall c :: c in r ==> c in s || c in v
    ensures |k| == 1 && k[0] !in v ==> k[0] !in r
    decreases |s|
  {
    if |s| < |k| then s
    else if s[..|k|] == k then
      assert s[0] == k[0];
      v + ReplaceAll(s[|k|..], k, v)
    else [s[0]] + ReplaceAll(s[1..], k, v)
  }

  /** The loop `for k, v in t: s = re.sub(re.escape(k), v, s)`: each entry's
      substitution sees the output of all earlier ones. No character enters
      the text except from some value, and a single-character key that no
      value contains is gone from the result. */
  function ReplaceEach(s: string, t: Table): (r: string)
    requires NonEmptyKeys(t)
    ensures forall c :: c in r ==> c in s || InSomeValue(t, c)
    ensures forall i :: 0 <= i < |t| && |t[i].0| == 1 && !InSomeValue(t, t[i].0[0]) ==>
              t[i].0[0] !in r
    decreases |t|
  {
    if t == [] then s
    else
      var s' := ReplaceAll(s, t[0].0, t[0].1);
      var r := ReplaceEach(s', t[1..]);
      assert forall c :: InSomeValue(t[1..], c) ==> InSomeValue(t, c) by {
        forall c | InSomeValue(t[1..], c)
          ensures InSomeValue(t, c)
        {
          var i :| 0 <= i < |t[1..]| && c in t[1..][i].1;
          assert c in t[i + 1].1;
        }
      }
      assert forall c :: c in t[0].1 ==> InSomeValue(t, c) by {
        forall c | c in t[0].1
          ensures InSomeValue(t, c)
        {
          assert c in t[0].1;
        }
      }
      assert forall i :: 1 <= i < |t| ==> t[i] == t[1..][i - 1];
      r
  }

  /** What one character becomes under a table of single-character keys. */
  function CharImage(t: Table, c: char): string
  {
    match Lookup(t, [c])
    case Some(v) => v
    case None => [c]
  }

  /** Every character of `s` replaced by its image, in a single pass. */
  function SubstituteChars(t: Table, s: string): string
    decreases |s|
  {
    if s == [] then [] else CharImage(t, s[0]) + SubstituteChars(t, s[1..])
  }

  /** Some earlier entry of `t` has the first character of entry `j`'s key
      as its whole key. */
  predicate EarlierSingle(t: Table, j: nat)
    requires j < |t| && |t[j].0| > 0
  {
    exists i :: 0 <= i < j && t[i].0 == [t[j].0[0]]
  }

  lemma {:induction false} ReplaceEachConcat(s: string, a: Table, b: Table)
    requires NonEmptyKeys(a) && NonEmptyKeys(b)
    ensures NonEmptyKeys(a + b)
    ensures ReplaceEach(s, a + b) == ReplaceEach(ReplaceEach(s, a), b)
    decreases |a|
  {
    assert forall i :: 0 <= i < |a + b| ==> (a + b)[i] == if i < |a| then a[i] else b[i - |a|];
    if a != [] {
      assert (a + b)[1..] == a[1..] + b;
      ReplaceEachConcat(ReplaceAll(s, a[0].0, a[0].1), a[1..], b);
    } else {
      assert a + b == b;
    }
  }

  /** Text in which no key's first character occurs comes through the
      loop unchanged. */
  lemma {:induction false} ReplaceEachUntouched(s: string, t: Table)
    requires NonEmptyKeys(t)
    requires forall i :: 0 <= i < |t| ==> t[i].0[0] !in s
    ensures ReplaceEach(s, t) == s
    decreases |t|
  {
    if t != [] {
      assert forall i :: 1 <= i < |t| ==> t[i] == t[1..][i - 1];
      ReplaceEachUntouched(s, t[1..]);
    }
  }

  lemma {:induction false} SubstituteConcat(t: Table, a: string, b: string)
    ensures SubstituteChars(t, a + b) == SubstituteChars(t, a) + SubstituteChars(t, b)
  {
    if a != [] {
      assert (a + b)[1..] == a[1..] + b;
      SubstituteConcat(t, a[1..], b);
    } else {
      assert a + b == b;
    }
  }

  /** Text with no single-character key of the table is left as it is. */
  lemma {:induction false} SubstituteIdentity(t: Table, s: string)
    requires forall c :: c in s ==> Lookup(t, [c]) == None
    ensures SubstituteChars(t, s) == s
  {
    if s != [] {
      SubstituteIdentity(t, s[1..]);
    }
  }

  /** Two tables that give every character of `s` the same image substitute
      `s` alike. */
  lemma {:induction false} SubstituteSame(t: Table, t': Table, s: string)
    requires forall c :: c in s ==> CharImage(t, c) == CharImage(t', c)
    ensures SubstituteChars(t, s) == SubstituteChars(t', s)
  {
    if s != [] {
      SubstituteSame(t, t', s[1..]);
    }
  }

  /** For a one-character key, `ReplaceAll` is the per-character
      substitution by that key alone. */
  lemma {:induction false} ReplaceSingle(s: string, c: char, v: string)
    ensures ReplaceAll(s, [c], v) == SubstituteChars([([c], v)], s)
    decreases |s|
  {
    if s != [] {
      ReplaceSingle(s[1..], c, v);
      if s[0] == c {
        assert s[..1] == [c];
      } else {
        assert s[..1] != [c];
      }
    }
  }

  /** Substituting by one entry and then by a table that leaves that
      entry's value alone is substituting by the entry followed by the
      table. */
  lemma {:induction false} SubstituteCompose(p: (string, string), t: Table, s: string)
    requires |p.0| == 1
    requires forall c :: c in p.1 ==> Lookup(t, [c]) == None
    ensures SubstituteChars(t, SubstituteChars([p], s)) == SubstituteChars([p] + t, s)
    decreases |s|
  {
    if s != [] {
      SubstituteConcat(t, CharImage([p], s[0]), SubstituteChars([p], s[1..]));
      SubstituteCompose(p, t, s[1..]);
      if p.0 == [s[0]] {
        SubstituteIdentity(t, p.1);
      } else {
        assert ([p] + t)[1..] == t;
      }
    }
  }

  /** The dead-on-arrival condition of `ReplaceEachCharwise`. */
  predicate LongKeysDead(t: Table, gone: set<char>)
    requires NonEmptyKeys(t)
  {
    forall j :: 0 <= j < |t| && |t[j].0| > 1 ==> t[j].0[0] in gone || EarlierSingle(t, j)
  }

  /** Values bring back no key character and nothing from `gone`. */
  predicate ValuesInert(t: Table, gone: set<char>)
  {
    forall i, c :: 0 <= i < |t| && c in t[i].1 ==> c !in gone && Lookup(t, [c]) == None
  }

  /** Dropping the first entry keeps the conditions, once its key (if it is
      a single character) is added to the absent characters. */
  lemma {:induction false} LongKeysDeadTail(t: Table, gone: set<char>)
    requires t != [] && NonEmptyKeys(t)
    requires LongKeysDead(t, gone)
    ensures NonEmptyKeys(t[1..])
    ensures |t[0].0| == 1 ==> LongKeysDead(t[1..], gone + {t[0].0[0]})
    ensures |t[0].0| > 1 ==> LongKeysDead(t[1..], gone)
  {
    var t' := t[1..];
    assert forall i :: 0 <= i < |t'| ==> t'[i] == t[i + 1];
    var gone' := if |t[0].0| == 1 then gone + {t[0].0[0]} else gone;
    forall j | 0 <= j < |t'| && |t'[j].0| > 1
      ensures t'[j].0[0] in gone' || EarlierSingle(t', j)
    {
      if t'[j].0[0] !in gone {
        assert EarlierSingle(t, j + 1);
        var i :| 0 <= i < j + 1 && t[i].0 == [t[j + 1].0[0]];
        if i > 0 {
          assert t'[i - 1].0 == [t'[j].0[0]];
        } else {
          assert |t[0].0| == 1;
        }
      }
    }
  }

  lemma {:induction false} ValuesInertTail(t: Table, gone: set<char>)
    requires t != []
    requires ValuesInert(t, gone)
    ensures |t[0].0| == 1 ==> ValuesInert(t[1..], gone + {t[0].0[0]})
    ensures ValuesInert(t[1..], gone)
  {
    var t' := t[1..];
    assert forall i :: 0 <= i < |t'| ==> t'[i] == t[i + 1];
    assert forall c :: t[0].0 != [c] ==> Lookup(t, [c]) == Lookup(t', [c]);
    if |t[0].0| == 1 {
      assert t[0].0 == [t[0].0[0]];
      assert Lookup(t, [t[0].0[0]]).Some?;
    }
  }

  /** The substitution loop over a table is the single per-character pass,
      provided every longer key is dead on arrival: its first character is
      a key of an earlier entry (or is known to be absent, the set `gone`),
      so by the time the longer key is tried no occurrence of it is left.
      Values must not bring back a key character. */
  lemma {:induction false} ReplaceEachCharwise(s: string, t: Table, gone: set<char>)
    requires NonEmptyKeys(t)
    requires forall c :: c in s ==> c !in gone
    requires ValuesInert(t, gone)
    requires LongKeysDead(t, gone)
    ensures ReplaceEach(s, t) == SubstituteChars(t, s)
    decreases |t|
  {
    if t == [] {
      SubstituteIdentity(t, s);
    } else {
      var p := t[0];
      var t' := t[1..];
      assert ReplaceEach(s, t) == ReplaceEach(ReplaceAll(s, p.0, p.1), t');
      LongKeysDeadTail(t, gone);
      ValuesInertTail(t, gone);
      if |p.0| == 1 {
        var c0 := p.0[0];
        assert p.0 == [c0];
        var s' := ReplaceAll(s, p.0, p.1);
        assert Lookup(t, [c0]) == Some(p.1);
        assert c0 !in p.1;
        ReplaceEachCharwise(s', t', gone + {c0});
        ReplaceSingle(s, c0, p.1);
        assert forall c :: c in p.1 ==> Lookup(t', [c]) == None by {
          forall c | c in p.1
            ensures Lookup(t', [c]) == None
          {
            assert Lookup(t, [c]) == None;
            assert p.0 != [c];
          }
        }
        SubstituteCompose(p, t', s);
        assert p == ([c0], p.1);
        assert [p] + t' == t;
      } else {
        assert !EarlierSingle(t, 0);
        ReplaceEachCharwise(s, t', gone);
        assert forall c :: CharImage(t, c) == CharImage(t', c) by {
          forall c
            ensures CharImage(t, c) == CharImage(t', c)
          {
            assert p.0 != [c];
          }
        }
        SubstituteSame(t, t', s);
      }
    }
  }

  /** A character with no entry of its own stays in the text. */
  lemma {:induction false} SubstituteKeeps(t: Table, s: string, c: char)
    requires c in s && Lookup(t, [c]) == None
    ensures c in SubstituteChars(t, s)
    decreases |s|
  {
    if s[0] != c {
      SubstituteKeeps(t, s[1..], c);
    }
  }

  /** A character that is not in the text and not in the image of any
      other character does not appear in the substituted text. */
  lemma {:induction false} SubstituteAvoids(t: Table, s: string, x: char)
    requires x !in s
    requires forall d :: d != x ==> x !in CharImage(t, d)
    ensures x !in SubstituteChars(t, s)
    decreases |s|
  {
    if s != [] {
      SubstituteAvoids(t, s[1..], x);
    }
  }

  /** A character in the substituted text was in the original or in the
      value of some entry. */
  lemma {:induction false} SubstituteFrom(t: Table, s: string, x: char)
    requires x in SubstituteChars(t, s)
    ensures x in s || InSomeValue(t, x)
    decreases |s|
  {
    if x !in CharImage(t, s[0]) {
      SubstituteFrom(t, s[1..], x);
    } else if Lookup(t, [s[0]]).Some? {
      LookupFound(t, [s[0]]);
      var i :| 0 <= i < |t| && t[i] == ([s[0]], Lookup(t, [s[0]]).value);
    }
  }
}


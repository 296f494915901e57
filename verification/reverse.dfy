/** `Farsi_be_Finglish` (finglish_to_farsi.py, lines 23-27): Persian to
    Latin. The table is inverted by a dict comprehension, so of several
    letters that share a Persian value the last one written is kept, and
    each entry of the inverse then has all its occurrences replaced, in the
    inverse's insertion order.

    The reference it is proved against is one pass that maps every
    character through the inverse on its own. They agree because the
    inverse's only two-character key, alef with kasra, comes after the key
    alef, whose pass has already removed every alef. */
module ReverseScan {
  import opened OrderedDict
  import opened Replace
  import opened Classify
  import opened CharMap

  /** A table from ASCII-letter keys to Persian values, none empty, stated
      entry by entry. */
  predicate LatinToPersian(d: Table)
  {
    forall i :: 0 <= i < |d| ==>
      && |d[i].0| >= 1 && |d[i].1| >= 1
      && (forall c :: c in d[i].0 ==> IsAsciiLetter(c))
      && (forall c :: c in d[i].1 ==> InPersianRange(c))
  }

  /** The inverse of such a table: Persian keys, ASCII-letter values. */
  lemma {:induction false} InvertShape(d: Table)
    requires LatinToPersian(d)
    ensures NonEmptyKeys(Invert(d))
    ensures forall e, c :: e in Invert(d) && c in e.0 ==> InPersianRange(c)
    ensures forall e, c :: e in Invert(d) && c in e.1 ==> IsAsciiLetter(c)
    ensures ValuesInert(Invert(d), {})
  {
    var inv := Invert(d);
    InvertEntries(d);
    forall e | e in inv
      ensures |e.0| >= 1
      ensures forall c :: c in e.0 ==> InPersianRange(c)
      ensures forall c :: c in e.1 ==> IsAsciiLetter(c)
    {
      var i :| 0 <= i < |d| && d[i] == (e.1, e.0);
    }
    assert forall i :: 0 <= i < |inv| ==> inv[i] in inv;
    forall i, c | 0 <= i < |inv| && c in inv[i].1
      ensures Lookup(inv, [c]) == None
    {
      NotAKey(inv, [c], 0);
    }
  }

  /** The inverse passes are dead on arrival beyond single characters when
      the first value is a single character that starts every longer
      value. */
  lemma {:induction false} InvertLongKeysDead(d: Table, x: char)
    requires LatinToPersian(d) && d != []
    requires d[0].1 == [x]
    requires forall i :: 0 <= i < |d| && |d[i].1| != 1 ==> d[i].1[0] == x
    ensures NonEmptyKeys(Invert(d))
    ensures LongKeysDead(Invert(d), {})
  {
    var inv := Invert(d);
    InvertShape(d);
    InvertEntries(d);
    InvertFirst(d);
    forall j | 0 <= j < |inv| && |inv[j].0| > 1
      ensures EarlierSingle(inv, j)
    {
      assert inv[j] in inv;
      var i :| 0 <= i < |d| && d[i] == (inv[j].1, inv[j].0);
      assert inv[0].0 == [inv[j].0[0]];
    }
  }

  /** `char_map` is such a table. */
  lemma {:induction false} Table36LatinToPersian()
    ensures LatinToPersian(Table36)
    ensures Table36[0].1 == [Alef]
    ensures forall i :: 0 <= i < |Table36| && |Table36[i].1| != 1 ==> Table36[i].1[0] == Alef
  {
    Table36KeyLetters();
    Table36Values();
  }

  /** `temp_char_map`: Persian keys, ASCII-letter values, and fit for the
      per-character reading. */
  lemma {:induction false} ReverseShape()
    ensures NonEmptyKeys(Reverse())
    ensures forall e, c :: e in Reverse() && c in e.0 ==> InPersianRange(c)
    ensures forall e, c :: e in Reverse() && c in e.1 ==> IsAsciiLetter(c)
    ensures ValuesInert(Reverse(), {})
    ensures LongKeysDead(Reverse(), {})
  {
    ForwardIsTable36();
    Table36LatinToPersian();
    InvertShape(Table36);
    InvertLongKeysDead(Table36, Alef);
  }

  /** `Farsi_be_Finglish(matn)`. */
  function ToFinglish(s: string): string
  {
    ReverseShape();
    ReplaceEach(s, Reverse())
  }

  /** The fold of passes is the per-character substitution. */
  lemma {:induction false} ToFinglishCharwise(s: string)
    ensures ToFinglish(s) == SubstituteChars(Reverse(), s)
  {
    ReverseShape();
    ReplaceEachCharwise(s, Reverse(), {});
  }

  /** Persian to Latin works character by character, so it distributes over
      concatenation: a text can be cut anywhere. */
  lemma {:induction false} ToFinglishConcat(a: string, b: string)
    ensures ToFinglish(a + b) == ToFinglish(a) + ToFinglish(b)
  {
    ToFinglishCharwise(a + b);
    ToFinglishCharwise(a);
    ToFinglishCharwise(b);
    SubstituteConcat(Reverse(), a, b);
  }

  /** A character that is not a Persian letter is no key of the inverse. */
  lemma {:induction false} NotPersianNoEntry(c: char)
    requires !InPersianRange(c)
    ensures Lookup(Reverse(), [c]) == None
  {
    ReverseShape();
    NotAKey(Reverse(), [c], 0);
  }

  /** The fold over a table with Persian keys and ASCII-letter values:
      output characters come from the input or are ASCII letters, and no
      single-character key survives. */
  lemma {:induction false} FoldOutputInv(t: Table, s: string)
    requires NonEmptyKeys(t)
    requires forall e, c :: e in t && c in e.0 ==> InPersianRange(c)
    requires forall e, c :: e in t && c in e.1 ==> IsAsciiLetter(c)
    ensures forall c :: c in ReplaceEach(s, t) ==> c in s || IsAsciiLetter(c)
    ensures forall e :: e in t && |e.0| == 1 ==> e.0[0] !in ReplaceEach(s, t)
  {
    assert forall i :: 0 <= i < |t| ==> t[i] in t;
    forall e | e in t && |e.0| == 1
      ensures e.0[0] !in ReplaceEach(s, t)
    {
      var c := e.0[0];
      assert c in e.0;
      assert InPersianRange(c);
      forall j | 0 <= j < |t|
        ensures c !in t[j].1
      {
        assert c in t[j].1 ==> IsAsciiLetter(c);
      }
      var i :| 0 <= i < |t| && t[i] == e;
    }
  }

  /** Every output character was in the input or is an ASCII letter, and
      no Persian character the inverse maps on its own survives. */
  lemma {:induction false} ToFinglishOutput(s: string)
    ensures forall c :: c in ToFinglish(s) ==> c in s || IsAsciiLetter(c)
    ensures forall e :: e in Reverse() && |e.0| == 1 ==> e.0[0] !in ToFinglish(s)
  {
    ReverseShape();
    FoldOutputInv(Reverse(), s);
  }

  /** A character that is neither a Persian letter nor an ASCII letter
      (whitespace, digits, punctuation, emoji) is in the output exactly when
      it is in the input. */
  lemma {:induction false} ToFinglishKeepsOthers(s: string, c: char)
    requires !InPersianRange(c) && !IsAsciiLetter(c)
    ensures c in ToFinglish(s) <==> c in s
  {
    ToFinglishOutput(s);
    if c in s {
      NotPersianNoEntry(c);
      ToFinglishCharwise(s);
      SubstituteKeeps(Reverse(), s, c);
    }
  }

  /** Text without a Persian letter is returned unchanged. */
  lemma {:induction false} ToFinglishPassThrough(s: string)
    requires !HasPersian(s)
    ensures ToFinglish(s) == s
  {
    ToFinglishCharwise(s);
    forall c | c in s
      ensures Lookup(Reverse(), [c]) == None
    {
      var i :| 0 <= i < |s| && s[i] == c;
      NotPersianNoEntry(c);
    }
    SubstituteIdentity(Reverse(), s);
  }

  /** The entry of the inverse for `'E'`'s value, alef with kasra, is never
      used: alef is replaced first. So `E` is in the output only when it
      was in the input. */
  lemma {:induction false} ToFinglishNeverEmitsE(s: string)
    ensures 'E' in ToFinglish(s) <==> 'E' in s
  {
    ToFinglishKeepsE(s);
    if 'E' !in s {
      ToFinglishCharwise(s);
      forall d | d != 'E'
        ensures 'E' !in CharImage(Reverse(), d)
      {
        NoImageHasE(d);
      }
      SubstituteAvoids(Reverse(), s, 'E');
    }
  }

  lemma {:induction false} ToFinglishKeepsE(s: string)
    ensures 'E' in s ==> 'E' in ToFinglish(s)
  {
    if 'E' in s {
      NotPersianNoEntry('E');
      ToFinglishCharwise(s);
      SubstituteKeeps(Reverse(), s, 'E');
    }
  }

  /** No single character's image contains `E`. */
  lemma {:induction false} NoImageHasE(d: char)
    requires d != 'E'
    ensures 'E' !in CharImage(Reverse(), d)
  {
    if Lookup(Reverse(), [d]).Some? {
      var v := Lookup(Reverse(), [d]).value;
      LookupFound(Reverse(), [d]);
      ForwardIsTable36();
      InvertEntries(Table36);
      assert (v, [d]) in Table36;
      var i :| 0 <= i < |Table36| && Table36[i] == (v, [d]);
      Table36E();
      Table36Values();
    }
  }

  /** Every character's image under the inverse is non-empty. */
  lemma {:induction false} ImageNonEmpty(c: char)
    ensures CharImage(Reverse(), c) != []
  {
    if Lookup(Reverse(), [c]).Some? {
      var v := Lookup(Reverse(), [c]).value;
      LookupFound(Reverse(), [c]);
      ForwardIsTable36();
      InvertEntries(Table36);
      assert (v, [c]) in Table36;
      var i :| 0 <= i < |Table36| && Table36[i] == (v, [c]);
      Table36KeyLetters();
    }
  }

  /** The output is empty exactly when the input is. */
  lemma {:induction false} ToFinglishNonEmpty(s: string)
    ensures s != [] <==> ToFinglish(s) != []
  {
    ToFinglishCharwise(s);
    if s != [] {
      ImageNonEmpty(s[0]);
    }
  }

  /** Text without whitespace comes back without whitespace. */
  lemma {:induction false} ToFinglishNoSpace(s: string)
    requires NoSpace(s)
    ensures NoSpace(ToFinglish(s))
  {
    ToFinglishOutput(s);
    NoSpaceFrom(s, ToFinglish(s));
  }
}


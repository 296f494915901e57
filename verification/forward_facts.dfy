/** What `Finglish_be_Farsi` (finglish_to_farsi.py, lines 17-21) does to
    its input, stated through the reference scan: two-letter keys win over
    their first letter, non-letters are copied and cut the text into pieces
    transliterated independently, and no mapped letter survives. */
module ForwardFacts {
  import opened OrderedDict
  import opened Replace
  import opened KeySort
  import opened Classify
  import opened CharMap
  import opened ForwardScan

  /** The scan of `a + b` is the scans of `a` and `b` side by side when
      `b` starts with a character in no key. */
  lemma {:induction false} ScanSplit(t: Table, a: string, b: string)
    requires b != [] && forall e :: e in t ==> b[0] !in e.0
    ensures ScanWith(t, a + b) == ScanWith(t, a) + ScanWith(t, b)
    decreases |a|, 1
  {
    if a == [] {
      ScanSplitEmpty(t, a, b);
    } else if |a| == 1 {
      ScanSplitLast(t, a, b);
    } else {
      var k := if Lookup(t, a[..2]).Some? then 2 else 1;
      ScanSplitStep(t, a, b, k);
    }
  }

  lemma {:induction false} ScanSplitEmpty(t: Table, a: string, b: string)
    requires a == []
    ensures ScanWith(t, a + b) == ScanWith(t, a) + ScanWith(t, b)
  {
    assert a + b == b;
  }

  /** The last character of `a` is not the start of a two-character key
      with the first of `b`. */
  lemma {:induction false} ScanSplitLast(t: Table, a: string, b: string)
    requires |a| == 1 && b != [] && forall e :: e in t ==> b[0] !in e.0
    ensures ScanWith(t, a + b) == ScanWith(t, a) + ScanWith(t, b)
  {
    var s := a + b;
    assert s[..2] == [a[0], b[0]];
    NotAKey(t, s[..2], 1);
    ScanOne(t, s);
    assert s[1..] == b;
    ScanOne(t, a);
    assert a[1..] == [];
  }

  /** The scan of `a + b` takes the same first step as the scan of `a`. */
  lemma {:induction false} ScanSplitStep(t: Table, a: string, b: string, k: nat)
    requires |a| >= 2 && b != [] && forall e :: e in t ==> b[0] !in e.0
    requires k == (if Lookup(t, a[..2]).Some? then 2 else 1)
    ensures ScanWith(t, a + b) == ScanWith(t, a) + ScanWith(t, b)
    decreases |a|, 0
  {
    var s := a + b;
    assert s[..2] == a[..2];
    assert s[k..] == a[k..] + b;
    var v := if k == 2 then Lookup(t, a[..2]).value else CharImage(t, a[0]);
    if k == 2 {
      ScanTwo(t, s);
      ScanTwo(t, a);
    } else {
      ScanOne(t, s);
      ScanOne(t, a);
    }
    ScanSplit(t, a[k..], b);
    Assoc(v, ScanWith(t, a[k..]), ScanWith(t, b));
  }

  /** Concatenation regrouped, as one instance the scan proofs can call. */
  lemma {:induction false} Assoc(x: string, y: string, z: string)
    ensures x + (y + z) == (x + y) + z
  {
  }

  /** The scan takes a two-character key at the front when there is one. */
  lemma {:induction false} ScanTwo(t: Table, s: string)
    requires |s| >= 2 && Lookup(t, s[..2]).Some?
    ensures ScanWith(t, s) == Lookup(t, s[..2]).value + ScanWith(t, s[2..])
  {
  }

  /** Otherwise it maps the first character alone. */
  lemma {:induction false} ScanOne(t: Table, s: string)
    requires s != [] && (|s| < 2 || Lookup(t, s[..2]) == None)
    ensures ScanWith(t, s) == CharImage(t, s[0]) + ScanWith(t, s[1..])
  {
  }

  /** A character in no key is copied and the scan resumes after it. */
  lemma {:induction false} ScanCopies(t: Table, c: char, b: string)
    requires forall e :: e in t ==> c !in e.0
    ensures ScanWith(t, [c] + b) == [c] + ScanWith(t, b)
  {
    var s := [c] + b;
    if |s| >= 2 {
      NotAKey(t, s[..2], 0);
    }
    NotAKey(t, [c], 0);
    assert s[1..] == b;
  }

  /** A character in no key cuts the text in two independent scans. */
  lemma {:induction false} ScanBarrier(t: Table, a: string, c: char, b: string)
    requires forall e :: e in t ==> c !in e.0
    ensures ScanWith(t, a + [c] + b) == ScanWith(t, a) + [c] + ScanWith(t, b)
  {
    assert a + [c] + b == a + ([c] + b);
    ScanSplit(t, a, [c] + b);
    ScanCopies(t, c, b);
  }

  /** Text none of whose characters is in a key is its own scan. */
  lemma {:induction false} ScanUntouched(t: Table, s: string)
    requires forall c, e :: c in s && e in t ==> c !in e.0
    ensures ScanWith(t, s) == s
    decreases |s|
  {
    if s != [] {
      assert s == [s[0]] + s[1..];
      assert s[0] in s;
      ScanCopies(t, s[0], s[1..]);
      assert forall c :: c in s[1..] ==> c in s;
      ScanUntouched(t, s[1..]);
    }
  }

  /** A letter not followed by `h` is mapped on its own when every
      two-letter key ends in `h`. */
  lemma {:induction false} ScanLetter(t: Table, c: char, b: string)
    requires forall j :: 0 <= j < |t| && |t[j].0| == 2 ==> t[j].0[1] == 'h'
    requires b == [] || b[0] != 'h'
    ensures ScanWith(t, [c] + b) == CharImage(t, c) + ScanWith(t, b)
  {
    var s := [c] + b;
    if |s| >= 2 {
      forall i | 0 <= i < |t|
        ensures t[i].0 != s[..2]
      {
        assert s[..2][1] == b[0];
      }
    }
    assert s[1..] == b;
  }

  /** A single-letter key not followed by `h` is replaced by its value. */
  lemma {:induction false} ScanLetterEntry(t: Table, i: nat, b: string)
    requires DistinctKeys(t) && i < |t| && |t[i].0| == 1
    requires forall j :: 0 <= j < |t| && |t[j].0| == 2 ==> t[j].0[1] == 'h'
    requires b == [] || b[0] != 'h'
    ensures ScanWith(t, t[i].0 + b) == t[i].1 + ScanWith(t, b)
  {
    var c := t[i].0[0];
    assert t[i].0 == [c];
    LookupDistinct(t, i);
    ScanLetter(t, c, b);
  }

  /** A two-letter key at the front is replaced whole. */
  lemma {:induction false} ScanDigraph(t: Table, i: nat, b: string)
    requires DistinctKeys(t) && i < |t| && |t[i].0| == 2
    ensures ScanWith(t, t[i].0 + b) == t[i].1 + ScanWith(t, b)
  {
    var s := t[i].0 + b;
    assert s[..2] == t[i].0;
    LookupDistinct(t, i);
    assert s[2..] == b;
  }

  /** Every entry of the 36-entry table is what `char_map` returns for its
      key. */
  lemma {:induction false} ForwardEntry(i: nat)
    requires i < |Table36|
    ensures Lookup(Forward(), Table36[i].0) == Some(Table36[i].1)
  {
    ForwardIsTable36();
    Table36Distinct();
    LookupDistinct(Table36, i);
  }

  /** Text without an ASCII letter is returned unchanged. */
  lemma {:induction false} ToFarsiPassThrough(s: string)
    requires !HasAsciiLetter(s)
    ensures ToFarsi(s) == s
  {
    ForwardShape();
    forall c, e | c in s && e in Forward()
      ensures c !in e.0
    {
      var i :| 0 <= i < |s| && s[i] == c;
    }
    ToFarsiUnmapped(s);
  }

  /** The characters that occur in some key: the 31 one-letter keys, in
      table order. The two-letter keys use only letters among them. */
  const KeyChars: string := "aAeEiobcdfghjklmnpqrsStTuvwxyzZ"

  /** A character occurs in a key of `char_map` exactly when it is one of
      the one-letter keys. */
  lemma {:induction false} ForwardKeyChars(c: char)
    ensures (exists e :: e in Forward() && c in e.0) <==> c in KeyChars
  {
    ForwardIsTable36();
    Table36KeyChars();
    if c in KeyChars {
      var j :| 0 <= j < |KeyChars| && KeyChars[j] == c;
      assert Table36[j].0 == [c];
      assert Table36[j] in Table36;
    }
    if e :| e in Table36 && c in e.0 {
      var i :| 0 <= i < |Table36| && Table36[i] == e;
    }
  }

  lemma {:induction false} Table36KeyChars()
    ensures |KeyChars| == 31
    ensures forall j :: 0 <= j < 31 ==> Table36[j].0 == [KeyChars[j]]
    ensures forall i, c :: 0 <= i < |Table36| && c in Table36[i].0 ==> c in KeyChars
  {
    Table36KeyLetters();
    Table36DigraphShape();
    assert forall i :: 31 <= i < |Table36| ==> Table36[i].0[0] in KeyChars;
  }

  /** Text none of whose characters occurs in a key is returned unchanged:
      the ASCII letters `B C D F G H I J K L M N O P Q R U V W X Y` pass
      through like any other character outside the keys. */
  lemma {:induction false} ToFarsiUnmapped(s: string)
    requires forall c, e :: c in s && e in Forward() ==> c !in e.0
    ensures ToFarsi(s) == s
  {
    ToFarsiIsScan(s);
    ScanUntouched(Forward(), s);
  }

  /** A character in no key cuts the text: the two sides are
      transliterated independently and the character itself is kept. */
  lemma {:induction false} ToFarsiBarrierUnmapped(a: string, c: char, b: string)
    requires forall e :: e in Forward() ==> c !in e.0
    ensures ToFarsi(a + [c] + b) == ToFarsi(a) + [c] + ToFarsi(b)
  {
    ScanBarrier(Forward(), a, c, b);
    ToFarsiIsScan(a + [c] + b);
    ToFarsiIsScan(a);
    ToFarsiIsScan(b);
  }

  /** Capital letters other than `A E S T Z` are in no key. */
  lemma {:induction false} UnmappedCapital(c: char)
    requires 'A' <= c <= 'Z' && c !in "AESTZ"
    ensures forall e :: e in Forward() ==> c !in e.0
  {
    KeyCharsCase();
    ForwardKeyChars(c);
  }

  /** The key characters are lower-case letters and `A E S T Z`. */
  lemma {:induction false} KeyCharsCase()
    ensures forall c :: c in KeyChars ==> 'a' <= c <= 'z' || c in "AESTZ"
  {
    forall c | c in KeyChars
      ensures 'a' <= c <= 'z' || c in "AESTZ"
    {
      var j :| 0 <= j < |KeyChars| && KeyChars[j] == c;
    }
  }

  /** `B`, an ASCII letter in no key, comes out as it went in. */
  lemma {:induction false} CapitalBExample(w: string)
    requires w == "B"
    ensures ToFarsi(w) == w
  {
    UnmappedCapital('B');
    ToFarsiUnmapped(w);
  }

  /** A character that is not an ASCII letter (a space, a digit, an emoji)
      cuts the text: the two sides are transliterated independently and
      the character itself is kept. */
  lemma {:induction false} ToFarsiBarrier(a: string, c: char, b: string)
    requires !IsAsciiLetter(c)
    ensures ToFarsi(a + [c] + b) == ToFarsi(a) + [c] + ToFarsi(b)
  {
    ForwardKeyLetters();
    ToFarsiBarrierUnmapped(a, c, b);
  }

  /** The two-letter keys through the scan. */
  lemma {:induction false} ScanForwardDigraph(i: nat, b: string)
    requires 31 <= i < |Table36|
    ensures |Table36[i].0| == 2
    ensures Scan(Table36[i].0 + b) == Table36[i].1 + Scan(b)
  {
    ForwardIsTable36();
    Table36Distinct();
    Table36KeyLetters();
    ScanDigraph(Table36, i, b);
  }

  /** Each of the five two-letter keys at the front becomes its letter,
      whatever follows. */
  lemma {:induction false} ToFarsiDigraph(i: nat, b: string)
    requires 31 <= i < |Table36|
    ensures |Table36[i].0| == 2
    ensures ToFarsi(Table36[i].0 + b) == Table36[i].1 + ToFarsi(b)
  {
    ScanForwardDigraph(i, b);
    ToFarsiIsScan(Table36[i].0 + b);
    ToFarsiIsScan(b);
  }

  /** The single-letter keys through the scan. */
  lemma {:induction false} ScanForwardLetter(i: nat, b: string)
    requires i < 31
    requires b == [] || b[0] != 'h'
    ensures |Table36[i].0| == 1
    ensures Scan(Table36[i].0 + b) == Table36[i].1 + Scan(b)
  {
    ForwardIsTable36();
    Table36Distinct();
    Table36KeyLetters();
    Table36DigraphShape();
    ScanLetterEntry(Table36, i, b);
  }

  /** A single-letter key that does not start a two-letter key with the
      next character becomes its value. */
  lemma {:induction false} ToFarsiLetter(i: nat, b: string)
    requires i < 31
    requires b == [] || Lookup(Forward(), Table36[i].0 + [b[0]]) == None
    ensures |Table36[i].0| == 1
    ensures ToFarsi(Table36[i].0 + b) == Table36[i].1 + ToFarsi(b)
  {
    Table36KeyLetters();
    var c := Table36[i].0[0];
    assert Table36[i].0 == [c];
    ForwardEntry(i);
    ScanNoDigraph(Forward(), c, b);
    ToFarsiIsScan(Table36[i].0 + b);
    ToFarsiIsScan(b);
  }

  /** A character that does not start a two-character key with the next
      one is mapped alone. */
  lemma {:induction false} ScanNoDigraph(t: Table, c: char, b: string)
    requires b == [] || Lookup(t, [c] + [b[0]]) == None
    ensures ScanWith(t, [c] + b) == CharImage(t, c) + ScanWith(t, b)
  {
    var s := [c] + b;
    if |s| >= 2 {
      assert s[..2] == [c] + [b[0]];
    }
    assert s[1..] == b;
  }

  /** `a` followed by `h` is still alef then he: only `s c z k g` start a
      two-letter key. */
  lemma {:induction false} LetterBeforeH()
    ensures Lookup(Forward(), Table36[0].0 + ['h']) == None
  {
    ForwardIsTable36();
    assert Table36[0].0 + ['h'] == "ah";
    Table36KeyChars();
    forall j | 0 <= j < |Table36|
      ensures Table36[j].0 != "ah"
    {
      if j >= 31 {
        assert Table36[j].0[0] != 'a';
      }
    }
  }

  /** The fold over any ordering of a table with ASCII-letter keys and
      Persian values: output characters come from the input or the values,
      and no single-letter key survives. */
  lemma {:induction false} FoldOutput(t: Table, order: Table, s: string)
    requires NonEmptyKeys(order) && multiset(order) == multiset(t)
    requires forall e, c :: e in t && c in e.0 ==> IsAsciiLetter(c)
    requires forall e, c :: e in t && c in e.1 ==> InPersianRange(c)
    ensures forall c :: c in ReplaceEach(s, order) ==> c in s || InPersianRange(c)
    ensures forall e :: e in t && |e.0| == 1 ==> e.0[0] !in ReplaceEach(s, order)
  {
    assert forall e :: e in order <==> e in t by {
      forall e
        ensures e in order <==> e in t
      {
        assert e in order <==> e in multiset(order);
      }
    }
    assert forall i :: 0 <= i < |order| ==> order[i] in order;
    forall e | e in t && |e.0| == 1
      ensures e.0[0] !in ReplaceEach(s, order)
    {
      var c := e.0[0];
      assert IsAsciiLetter(c);
      forall j | 0 <= j < |order|
        ensures c !in order[j].1
      {
        assert order[j] in order;
        assert order[j] in t;
        assert c in order[j].1 ==> InPersianRange(c);
      }
      var i :| 0 <= i < |order| && order[i] == e;
    }
  }

  /** Every output character was in the input or is a Persian letter, and
      no single-letter key of `char_map` survives. */
  lemma {:induction false} ToFarsiOutput(s: string)
    ensures forall c :: c in ToFarsi(s) ==> c in s || InPersianRange(c)
    ensures forall e :: e in Forward() && |e.0| == 1 ==> e.0[0] !in ToFarsi(s)
  {
    ForwardKeyLetters();
    ForwardValuesPersian();
    FoldOutput(Forward(), ForwardOrder(), s);
  }

  /** The empty text is returned as it is. */
  lemma {:induction false} ToFarsiEmpty()
    ensures ToFarsi([]) == []
  {
    ToFarsiIsScan([]);
  }

  /** In a table of one- and two-character keys, a key on its own scans
      to its value. */
  lemma {:induction false} ScanKey(t: Table, k: string, v: string)
    requires 1 <= |k| <= 2 && Lookup(t, k) == Some(v)
    ensures ScanWith(t, k) == v
  {
    if |k| == 1 {
      assert k == [k[0]];
      assert ScanWith(t, k[1..]) == [];
    } else {
      assert k[..2] == k;
      assert ScanWith(t, k[2..]) == [];
    }
  }

  /** A key of `char_map` on its own becomes its value. */
  lemma {:induction false} ToFarsiKey(k: string, v: string)
    requires Lookup(Forward(), k) == Some(v)
    ensures ToFarsi(k) == v
  {
    LookupFound(Forward(), k);
    ForwardShape();
    assert (k, v) in Forward();
    ToFarsiIsScan(k);
    ScanKey(Forward(), k, v);
  }


  /** The entries the examples below go through. */
  lemma {:induction false} ExampleEntries()
    ensures Table36[0] == ("a", [Alef]) && Table36[5] == ("o", [Damma])
    ensures Table36[14] == ("l", [Lam]) && Table36[15] == ("m", [Mim])
    ensures Table36[20] == ("s", [Sin]) && Table36[30] == ("Z", [Zad])
    ensures Table36[31] == ("sh", [Shin])
    ensures Table36[4] == ("i", [FarsiYeh]) && Table36[11] == ("h", [He])
    ensures Table36[24] == ("u", [Vav])
  {
  }

  /** One step of the scan through a named entry. */
  lemma {:induction false} ScanStep(i: nat, k: string, v: string, b: string)
    requires i < |Table36| && Table36[i] == (k, v)
    requires i < 31 ==> b == [] || b[0] != 'h'
    ensures Scan(k + b) == v + Scan(b)
  {
    if i < 31 {
      ScanForwardLetter(i, b);
    } else {
      ScanForwardDigraph(i, b);
    }
  }

  /** One step of the scan at the front of `w`, through entry `i`. */
  lemma {:induction false} StepAt(i: nat, w: string, r: string)
    requires i < |Table36| && |Table36[i].0| <= |w| && w[..|Table36[i].0|] == Table36[i].0
    requires i < 31 ==> |w| == 1 || w[1] != 'h'
    requires Scan(w[|Table36[i].0|..]) == r
    ensures Scan(w) == Table36[i].1 + r
  {
    var k := Table36[i].0;
    var b := w[|k|..];
    Table36KeyLetters();
    assert i < 31 ==> b == [] || b[0] == w[1];
    ScanStep(i, k, Table36[i].1, b);
    assert k + b == w;
  }

  /* The worked examples below take their words as parameters held equal
     to a literal by a `requires`, and are built from one-step lemmas.
     Written with the literal inside the conclusion, the verifier would
     evaluate the whole conversion of the literal eagerly, table lookups
     included, which costs far more than the step-by-step proof. */

  lemma {:induction false} ScanNothing(w: string)
    requires w == []
    ensures Scan(w) == []
  {
  }

  lemma {:induction false} ScanM(w: string)
    requires w == "m"
    ensures Scan(w) == [Mim]
  {
    ExampleEntries();
    ScanNothing(w[1..]);
    StepAt(15, w, []);
  }

  lemma {:induction false} ScanAm(w: string)
    requires w == "am"
    ensures Scan(w) == [Alef, Mim]
  {
    ExampleEntries();
    ScanM(w[1..]);
    StepAt(0, w, [Mim]);
  }

  lemma {:induction false} ScanLam(w: string)
    requires w == "lam"
    ensures Scan(w) == [Lam, Alef, Mim]
  {
    ExampleEntries();
    ScanAm(w[1..]);
    StepAt(14, w, [Alef, Mim]);
  }

  lemma {:induction false} ScanAlam(w: string)
    requires w == "alam"
    ensures Scan(w) == [Alef, Lam, Alef, Mim]
  {
    ExampleEntries();
    ScanLam(w[1..]);
    StepAt(0, w, [Lam, Alef, Mim]);
  }

  lemma {:induction false} ScanSalam(w: string)
    requires w == "salam"
    ensures Scan(w) == [Sin, Alef, Lam, Alef, Mim]
  {
    ExampleEntries();
    ScanAlam(w[1..]);
    StepAt(20, w, [Alef, Lam, Alef, Mim]);
  }

  /** `salam`: five letters, none followed by `h`, each mapped alone. */
  lemma {:induction false} SalamExample()
    ensures ToFarsi("salam") == [Sin, Alef, Lam, Alef, Mim]
  {
    ToFarsiIsScan("salam");
    ScanSalam("salam");
  }

  lemma {:induction false} ScanA(w: string)
    requires w == "a"
    ensures Scan(w) == [Alef]
  {
    ExampleEntries();
    ScanNothing(w[1..]);
    StepAt(0, w, []);
  }

  lemma {:induction false} ScanMa(w: string)
    requires w == "ma"
    ensures Scan(w) == [Mim, Alef]
  {
    ExampleEntries();
    ScanA(w[1..]);
    StepAt(15, w, [Alef]);
  }

  lemma {:induction false} ScanOma(w: string)
    requires w == "oma"
    ensures Scan(w) == [Damma, Mim, Alef]
  {
    ExampleEntries();
    ScanMa(w[1..]);
    StepAt(5, w, [Mim, Alef]);
  }

  lemma {:induction false} ScanShoma(w: string)
    requires w == "shoma"
    ensures Scan(w) == [Shin, Damma, Mim, Alef]
  {
    ExampleEntries();
    ScanOma(w[2..]);
    StepAt(31, w, [Damma, Mim, Alef]);
  }

  /** `shoma`: `sh` is taken before `s` and `h` are. */
  lemma {:induction false} ShomaExample()
    ensures ToFarsi("shoma") == [Shin, Damma, Mim, Alef]
  {
    ToFarsiIsScan("shoma");
    ScanShoma("shoma");
  }

  lemma {:induction false} ScanZ(w: string)
    requires w == "Z"
    ensures Scan(w) == [Zad]
  {
    ExampleEntries();
    ScanNothing(w[1..]);
    StepAt(30, w, []);
  }

  /** `Z` becomes zad, the last of its three writes. */
  lemma {:induction false} ZExample()
    ensures ToFarsi("Z") == [Zad]
  {
    ToFarsiIsScan("Z");
    ScanZ("Z");
  }

  lemma {:induction false} ScanSh(w: string)
    requires w == "sh"
    ensures Scan(w) == [Shin]
  {
    ExampleEntries();
    ScanNothing(w[2..]);
    StepAt(31, w, []);
  }

  /** `sh` alone is shin. */
  lemma {:induction false} ShExample()
    ensures ToFarsi("sh") == [Shin]
  {
    ToFarsiIsScan("sh");
    ScanSh("sh");
  }

  lemma {:induction false} ScanI(w: string)
    requires w == "i"
    ensures Scan(w) == [FarsiYeh]
  {
    ExampleEntries();
    ScanNothing(w[1..]);
    StepAt(4, w, []);
  }

  lemma {:induction false} ScanHi(w: string)
    requires w == "hi"
    ensures Scan(w) == [He, FarsiYeh]
  {
    ExampleEntries();
    ScanI(w[1..]);
    StepAt(11, w, [FarsiYeh]);
  }

  /** `hi`: an `h` that does not follow a digraph's first letter is he. */
  lemma {:induction false} HiExample()
    ensures ToFarsi("hi") == [He, FarsiYeh]
  {
    ToFarsiIsScan("hi");
    ScanHi("hi");
  }

  lemma {:induction false} ScanShSh(w: string)
    requires w == "shsh"
    ensures Scan(w) == [Shin, Shin]
  {
    ExampleEntries();
    ScanSh(w[2..]);
    StepAt(31, w, [Shin]);
  }

  /** `shsh`: two shins, the middle `hs` never read as letters. */
  lemma {:induction false} ShShExample()
    ensures ToFarsi("shsh") == [Shin, Shin]
  {
    ToFarsiIsScan("shsh");
    ScanShSh("shsh");
  }

  lemma {:induction false} ScanU(w: string)
    requires w == "u"
    ensures Scan(w) == [Vav]
  {
    ExampleEntries();
    ScanNothing(w[1..]);
    StepAt(24, w, []);
  }

  /** `u` is vav. */
  lemma {:induction false} UExample()
    ensures ToFarsi("u") == [Vav]
  {
    ToFarsiIsScan("u");
    ScanU("u");
  }
}

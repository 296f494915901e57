/** The transliteration table `char_map` (finglish_to_farsi.py, lines 4-12)
    and the reverse table the Persian-to-Latin direction inverts it into. */
module CharMap {
  import opened OrderedDict
  import opened Classify

  const Alef: char := '\U{0627}'
  const AlefMadda: char := '\U{0622}'
  const Ain: char := '\U{0639}'
  const Kasra: char := '\U{0650}'
  const Damma: char := '\U{064F}'
  const FarsiYeh: char := '\U{06CC}'
  const Be: char := '\U{0628}'
  const Se: char := '\U{062B}'
  const Dal: char := '\U{062F}'
  const Fe: char := '\U{0641}'
  const Gaf: char := '\U{06AF}'
  const He: char := '\U{0647}'
  const Jim: char := '\U{062C}'
  const Kaf: char := '\U{06A9}'
  const Lam: char := '\U{0644}'
  const Mim: char := '\U{0645}'
  const Nun: char := '\U{0646}'
  const Pe: char := '\U{067E}'
  const Qaf: char := '\U{0642}'
  const Re: char := '\U{0631}'
  const Sin: char := '\U{0633}'
  const Te: char := '\U{062A}'
  const Ta: char := '\U{0637}'
  const Vav: char := '\U{0648}'
  const Khe: char := '\U{062E}'
  const Ze: char := '\U{0632}'
  const Zal: char := '\U{0630}'
  const Za: char := '\U{0638}'
  const Zad: char := '\U{0636}'
  const Shin: char := '\U{0634}'
  const Che: char := '\U{0686}'
  const Zhe: char := '\U{0698}'

  /** The single-letter entries of the dict display before `'Z'`. */
  const Letters: Table := [
    ("a", [Alef]), ("A", [AlefMadda]), ("e", [Ain]), ("E", [Alef, Kasra]), ("i", [FarsiYeh]), ("o", [Damma]),
    ("b", [Be]), ("c", [Se]), ("d", [Dal]), ("f", [Fe]), ("g", [Gaf]), ("h", [He]),
    ("j", [Jim]), ("k", [Kaf]), ("l", [Lam]), ("m", [Mim]), ("n", [Nun]), ("p", [Pe]),
    ("q", [Qaf]), ("r", [Re]), ("s", [Sin]), ("S", [Se]), ("t", [Te]), ("T", [Ta]),
    ("u", [Vav]), ("v", [Vav]), ("w", [Vav]), ("x", [Khe]), ("y", [FarsiYeh]), ("z", [Ze])
  ]

  /** The five two-letter entries, last in the display. */
  const Digraphs: Table := [("sh", [Shin]), ("ch", [Che]), ("zh", [Zhe]), ("kh", [Khe]), ("gh", [Qaf])]

  /** The pairs of the dict display in the order written, including the
      three writes of `'Z'` (zal, za, zad). */
  const Literal: Table := Letters + [("Z", [Zal]), ("Z", [Za]), ("Z", [Zad])] + Digraphs

  /** `char_map` as the interpreter holds it: `'Z'` keeps the position of its
      first write and the value of its last. */
  const Table36: Table := Letters + [("Z", [Zad])] + Digraphs

  /** `char_map`. */
  function Forward(): Table
  {
    FromPairs(Literal)
  }

  /** `temp_char_map = {v: k for k, v in char_map.items()}`. */
  function Reverse(): Table
  {
    Invert(Forward())
  }

  lemma {:induction false} LettersDistinct(z: string)
    ensures DistinctKeys(Letters + [("Z", z)])
  {
    var d := Letters + [("Z", z)];
    assert forall i, j :: 0 <= i < j < |d| ==> d[i].0 != d[j].0;
  }

  /** The first write of `'Z'` adds a new key after the letters. */
  lemma {:induction false} FirstZWrite()
    ensures FromPairs(Letters + [("Z", [Zal])]) == Letters + [("Z", [Zal])]
  {
    var d1 := Letters + [("Z", [Zal])];
    LettersDistinct([Zal]);
    assert [] + d1 == d1;
    FromPairsAppendNew([], d1);
  }

  /** A later write of `'Z'` replaces the value in place. */
  lemma {:induction false} LaterZWrite(ps: Table, z: string, z': string)
    requires FromPairs(ps) == Letters + [("Z", z)]
    ensures FromPairs(ps + [("Z", z')]) == Letters + [("Z", z')]
  {
    var d := Letters + [("Z", z)];
    assert (ps + [("Z", z')])[..|ps|] == ps;
    LettersDistinct(z);
    PutExisting(d, 30, z');
    assert d[30 := ("Z", z')] == Letters + [("Z", z')];
  }

  /** The three writes of `'Z'` leave one entry holding zad. */
  lemma {:induction false} AllZWrites()
    ensures FromPairs(Letters + [("Z", [Zal])] + [("Z", [Za])] + [("Z", [Zad])]) == Letters + [("Z", [Zad])]
  {
    FirstZWrite();
    LaterZWrite(Letters + [("Z", [Zal])], [Zal], [Za]);
    LaterZWrite(Letters + [("Z", [Zal])] + [("Z", [Za])], [Za], [Zad]);
  }

  /** The two-letter keys are new, so they are appended in order. */
  lemma {:induction false} AppendDigraphs(ps: Table)
    requires FromPairs(ps) == Letters + [("Z", [Zad])]
    ensures FromPairs(ps + Digraphs) == Table36
  {
    Table36Distinct();
    FromPairsAppendNew(ps, Digraphs);
  }

  lemma {:induction false} LiteralParts()
    ensures Literal == Letters + [("Z", [Zal])] + [("Z", [Za])] + [("Z", [Zad])] + Digraphs
  {
  }

  /** The dict display resolves to the 36-entry table. */
  lemma {:induction false} ForwardIsTable36()
    ensures Forward() == Table36
  {
    var ps := Letters + [("Z", [Zal])] + [("Z", [Za])] + [("Z", [Zad])];
    AllZWrites();
    AppendDigraphs(ps);
    LiteralParts();
  }

  /** The duplicate `'Z'` collapses to one entry, in the place of its first
      write (index 30 of the display) and holding its last write's value,
      zad; zal and za are lost. */
  lemma {:induction false} ZResolution()
    ensures |Literal| == 38 && |Forward()| == 36
    ensures Literal[30] == ("Z", [Zal]) && Literal[31] == ("Z", [Za]) && Literal[32] == ("Z", [Zad])
    ensures Forward()[30] == ("Z", [Zad])
    ensures forall i :: 0 <= i < |Forward()| ==> Forward()[i].1 != [Zal] && Forward()[i].1 != [Za]
  {
    LiteralZ();
    ForwardIsTable36();
    Table36NoZalZa();
  }

  lemma {:induction false} LiteralZ()
    ensures |Literal| == 38
    ensures Literal[30] == ("Z", [Zal]) && Literal[31] == ("Z", [Za]) && Literal[32] == ("Z", [Zad])
  {
    assert |Letters| == 30;
  }

  /** Neither zal nor za is a value of the table, and zad is that of `Z`. */
  lemma {:induction false} Table36NoZalZa()
    ensures |Table36| == 36 && Table36[30] == ("Z", [Zad])
    ensures forall i :: 0 <= i < |Table36| ==> Table36[i].1 != [Zal] && Table36[i].1 != [Za]
  {
  }

  /** The table is a dictionary: no key twice. */
  lemma {:induction false} Table36Distinct()
    ensures DistinctKeys(Table36)
  {
    var a := Letters + [("Z", [Zad])];
    LettersDistinct([Zad]);
    assert forall i :: 0 <= i < |a| ==> |a[i].0| == 1;
    assert forall j :: 0 <= j < |Digraphs| ==> |Digraphs[j].0| == 2;
    assert DistinctKeys(Digraphs);
    DistinctConcat(a, Digraphs);
  }

  /** Keys are one or two ASCII letters: one letter up to index 30, two
      from index 31 on. */
  lemma {:induction false} Table36KeyLetters()
    ensures |Table36| == 36
    ensures forall i :: 0 <= i < |Table36| ==> 1 <= |Table36[i].0| <= 2
    ensures forall i :: 0 <= i < 31 ==> |Table36[i].0| == 1
    ensures forall i :: 31 <= i < |Table36| ==> |Table36[i].0| == 2
    ensures forall i :: 0 <= i < |Table36| ==> forall c :: c in Table36[i].0 ==> IsAsciiLetter(c)
  {
  }

  /** Every two-letter key ends in `h` and none starts with it, so two
      occurrences of two-letter keys never overlap. */
  lemma {:induction false} Table36DigraphShape()
    ensures forall i :: 0 <= i < |Table36| && |Table36[i].0| == 2 ==>
              Table36[i].0[1] == 'h' && Table36[i].0[0] != 'h'
  {
  }

  /** Values are non-empty text in the Persian range, and only `'E'` has a
      value longer than one character. */
  lemma {:induction false} Table36Values()
    ensures forall i :: 0 <= i < |Table36| ==> |Table36[i].1| >= 1
    ensures forall i :: 0 <= i < |Table36| && |Table36[i].1| != 1 ==> Table36[i] == ("E", [Alef, Kasra])
    ensures forall i :: 0 <= i < |Table36| ==> forall c :: c in Table36[i].1 ==> InPersianRange(c)
  {
  }

  /** Alef on its own is the value of `a` only. */
  lemma {:induction false} Table36AlefOnce()
    ensures Table36[0] == ("a", [Alef])
    ensures forall j :: 0 < j < |Table36| ==> Table36[j].1 != [Alef]
  {
  }

  /** Kasra on its own is no value. */
  lemma {:induction false} Table36NoKasra()
    ensures forall i :: 0 <= i < |Table36| ==> Table36[i].1 != [Kasra]
  {
  }

  /** `'E'` is only the key of alef with kasra. */
  lemma {:induction false} Table36E()
    ensures forall i :: 0 <= i < |Table36| && 'E' in Table36[i].0 ==> Table36[i] == ("E", [Alef, Kasra])
  {
  }
}

/** `Tashkhis_va_Tarjome` (finglish_to_farsi.py, lines 29-38), the one
    entry point: text with any ASCII letter is taken as Latin and goes
    through the forward direction whole; any other text is split at
    whitespace and each piece that has a Persian letter and no emoji goes
    through the reverse direction. */
module Dispatch {
  import opened Classify
  import opened CharMap
  import opened ForwardScan
  import opened ForwardFacts
  import opened ReverseScan
  import opened ReverseFacts
  import opened Segments

  /** The test and conversion of line 34-37 for one piece. */
  function ConvertSegment(seg: string): string
  {
    if HasPersian(seg) && !IsEmoji(seg) then ToFinglish(seg) else seg
  }

  function ConvertAll(segs: seq<string>): (r: seq<string>)
    ensures |r| == |segs|
    ensures forall k :: 0 <= k < |segs| ==> r[k] == ConvertSegment(segs[k])
  {
    seq(|segs|, k requires 0 <= k < |segs| => ConvertSegment(segs[k]))
  }

  /** `Tashkhis_va_Tarjome(matn)`. */
  function Transliterate(s: string): string
  {
    if HasAsciiLetter(s) then ToFarsi(s) else Join(ConvertAll(Split(s)))
  }

  /** Any ASCII letter sends the whole text forward, and then every other
      character, Persian letters and emoji included, is kept as it is. */
  lemma {:induction false} DetectionRule(s: string)
    requires HasAsciiLetter(s)
    ensures Transliterate(s) == ToFarsi(s)
    ensures forall i :: 0 <= i < |s| && !IsAsciiLetter(s[i]) ==> s[i] in Transliterate(s)
  {
    forall i | 0 <= i < |s| && !IsAsciiLetter(s[i])
      ensures s[i] in ToFarsi(s)
    {
      KeptChar(s, i);
    }
  }

  lemma {:induction false} KeptChar(s: string, i: nat)
    requires i < |s| && !IsAsciiLetter(s[i])
    ensures s[i] in ToFarsi(s)
  {
    var a, c, b := s[..i], s[i], s[i + 1..];
    AroundIndex(s, i);
    ToFarsiBarrier(a, c, b);
    InMiddle(ToFarsi(a), c, ToFarsi(b));
  }

  /** Text cut around one of its characters. */
  lemma {:induction false} AroundIndex(s: string, i: nat)
    requires i < |s|
    ensures s == s[..i] + [s[i]] + s[i + 1..]
  {
  }

  /** A character between two texts is in their concatenation. */
  lemma {:induction false} InMiddle(x: string, c: char, y: string)
    ensures c in x + [c] + y
  {
    assert (x + [c] + y)[|x|] == c;
  }

  /** A piece of Persian letters only is converted. */
  lemma {:induction false} ConvertPersian(seg: string)
    requires seg != [] && forall i :: 0 <= i < |seg| ==> InPersianRange(seg[i])
    ensures ConvertSegment(seg) == ToFinglish(seg)
  {
    PersianTextIsNotEmoji(seg);
    assert InPersianRange(seg[0]);
  }

  /** A whitespace run is kept. */
  lemma {:induction false} ConvertSpace(seg: string)
    requires AllSpace(seg)
    ensures ConvertSegment(seg) == seg
  {
    SpaceTextIsPlain(seg);
  }

  /** Which pieces are converted: whitespace runs and pieces with an emoji
      or without a Persian letter are kept, pieces of Persian letters only
      are converted, and a converted piece stays free of whitespace, and
      empty exactly when it was. */
  lemma {:induction false} ConvertSegmentFacts(seg: string)
    ensures AllSpace(seg) ==> ConvertSegment(seg) == seg
    ensures IsEmoji(seg) ==> ConvertSegment(seg) == seg
    ensures !HasPersian(seg) ==> ConvertSegment(seg) == seg
    ensures seg != [] && (forall i :: 0 <= i < |seg| ==> InPersianRange(seg[i])) ==>
              ConvertSegment(seg) == ToFinglish(seg)
    ensures NoSpace(seg) ==> NoSpace(ConvertSegment(seg))
    ensures seg != [] <==> ConvertSegment(seg) != []
  {
    ToFinglishNonEmpty(seg);
    if NoSpace(seg) {
      ToFinglishNoSpace(seg);
    }
    if AllSpace(seg) {
      ConvertSpace(seg);
    }
    if seg != [] && (forall i :: 0 <= i < |seg| ==> InPersianRange(seg[i])) {
      ConvertPersian(seg);
    }
  }

  /** Converting the pieces keeps the `re.split` shape and leaves every
      whitespace run as it was. */
  lemma {:induction false} ConvertWellFormed(segs: seq<string>)
    requires WellFormed(segs)
    ensures WellFormed(ConvertAll(segs))
    ensures forall k :: 0 <= k < |segs| && k % 2 == 1 ==> ConvertAll(segs)[k] == segs[k]
  {
    var r := ConvertAll(segs);
    forall k | 0 <= k < |segs|
      ensures k % 2 == 0 ==> NoSpace(r[k])
      ensures k % 2 == 1 ==> r[k] == segs[k]
      ensures segs[k] != [] ==> r[k] != []
    {
      ConvertSegmentFacts(segs[k]);
    }
  }

  /** The layout survives: splitting the output gives the converted pieces
      of the input, so the output has the input's whitespace runs, in the
      same places. */
  lemma {:induction false} LayoutPreserved(s: string)
    requires !HasAsciiLetter(s)
    ensures Split(Transliterate(s)) == ConvertAll(Split(s))
    ensures |Split(Transliterate(s))| == |Split(s)|
    ensures forall k :: 0 <= k < |Split(s)| && k % 2 == 1 ==> Split(Transliterate(s))[k] == Split(s)[k]
  {
    SplitWellFormed(s);
    ConvertWellFormed(Split(s));
    JoinSplit(ConvertAll(Split(s)));
  }

  /** Empty input gives empty output. */
  lemma {:induction false} EmptyInput()
    ensures Transliterate([]) == []
  {
    assert !HasAsciiLetter([]);
    assert Split([]) == [[]];
    assert ConvertSegment([]) == [];
    assert ConvertAll([[]]) == [[]];
    assert Join([[]]) == [] + Join([]);
  }

  /** A character is in the joined text exactly when it is in some piece. */
  lemma {:induction false} JoinMember(segs: seq<string>, c: char)
    ensures c in Join(segs) <==> exists k :: 0 <= k < |segs| && c in segs[k]
  {
    if segs != [] {
      JoinMember(segs[1..], c);
      if exists k :: 0 <= k < |segs[1..]| && c in segs[1..][k] {
        var k :| 0 <= k < |segs[1..]| && c in segs[1..][k];
        assert c in segs[k + 1];
      }
      if exists k :: 0 <= k < |segs| && c in segs[k] {
        var k :| 0 <= k < |segs| && c in segs[k];
        if k > 0 {
          assert c in segs[1..][k - 1];
        }
      }
    }
  }

  /** No input produces an `E`: the forward direction replaces every `E`
      it is given, and the inverse's entry for alef with kasra is dead. */
  lemma {:induction false} DispatchNeverEmitsE(s: string)
    ensures 'E' !in Transliterate(s)
  {
    if HasAsciiLetter(s) {
      ForwardNeverEmitsE(s);
    } else {
      LetterFreeNeverEmitsE(s);
    }
  }

  /** The forward direction leaves no `E`: it is a one-letter key. */
  lemma {:induction false} ForwardNeverEmitsE(s: string)
    ensures 'E' !in ToFarsi(s)
  {
    var e: (string, string) := ("E", [Alef, Kasra]);
    EntryE(e);
    ToFarsiOutput(s);
    assert |e.0| == 1 && e.0[0] == 'E';
  }

  /** `E` is a key of `char_map`. */
  lemma {:induction false} EntryE(e: (string, string))
    requires e == ("E", [Alef, Kasra])
    ensures e in Forward()
  {
    ForwardIsTable36();
    Table36Entry3(e);
  }

  lemma {:induction false} Table36Entry3(e: (string, string))
    requires e == ("E", [Alef, Kasra])
    ensures e in Table36
  {
    assert Table36[3] == e;
  }

  /** Text without ASCII letters never gains an `E`. */
  lemma {:induction false} LetterFreeNeverEmitsE(s: string)
    requires !HasAsciiLetter(s)
    ensures 'E' !in Transliterate(s)
  {
    var segs := Split(s);
    var r := ConvertAll(segs);
    forall i | 0 <= i < |s|
      ensures s[i] != 'E'
    {
      assert !IsAsciiLetter(s[i]);
    }
    SplitJoin(s);
    JoinMember(segs, 'E');
    forall k | 0 <= k < |r|
      ensures 'E' !in r[k]
    {
      ToFinglishNeverEmitsE(segs[k]);
    }
    JoinMember(r, 'E');
  }

  lemma {:induction false} JoinThree(a: string, w: string, b: string)
    ensures Join([a, w, b]) == a + w + b
  {
    assert [a, w, b][1..] == [w, b];
    assert [w, b][1..] == [b];
    assert Join([b]) == b + Join([]);
  }

  /** Two runs of Persian letters around a run of whitespace are split
      into those three pieces, and have no ASCII letter. */
  lemma {:induction false} TwoWordsSplit(a: string, w: string, b: string)
    requires a != [] && forall i :: 0 <= i < |a| ==> InPersianRange(a[i])
    requires b != [] && forall i :: 0 <= i < |b| ==> InPersianRange(b[i])
    requires w != [] && AllSpace(w)
    ensures !HasAsciiLetter(a + w + b)
    ensures Split(a + w + b) == [a, w, b]
  {
    PersianTextIsPlain(a);
    PersianTextIsPlain(b);
    SpaceTextIsPlain(w);
    HasAsciiLetterConcat(a, w);
    HasAsciiLetterConcat(a + w, b);
    assert WellFormed([a, w, b]);
    JoinThree(a, w, b);
    JoinSplit([a, w, b]);
  }

  lemma {:induction false} ConvertThree(a: string, w: string, b: string)
    ensures ConvertAll([a, w, b]) == [ConvertSegment(a), ConvertSegment(w), ConvertSegment(b)]
  {
    var segs := [a, w, b];
    assert segs[0] == a && segs[1] == w && segs[2] == b;
    ThreeOf(ConvertAll(segs), ConvertSegment(a), ConvertSegment(w), ConvertSegment(b));
  }

  /** A sequence of three known elements is their display. */
  lemma {:induction false} ThreeOf<T>(r: seq<T>, x: T, y: T, z: T)
    requires |r| == 3 && r[0] == x && r[1] == y && r[2] == z
    ensures r == [x, y, z]
  {
  }

  /** Two runs of Persian letters around a run of whitespace: each word is
      converted and the whitespace is kept exactly. */
  lemma {:induction false} TwoWords(a: string, w: string, b: string)
    requires a != [] && forall i :: 0 <= i < |a| ==> InPersianRange(a[i])
    requires b != [] && forall i :: 0 <= i < |b| ==> InPersianRange(b[i])
    requires w != [] && AllSpace(w)
    ensures Transliterate(a + w + b) == ToFinglish(a) + w + ToFinglish(b)
  {
    TwoWordsSplit(a, w, b);
    ConvertPersian(a);
    ConvertSpace(w);
    ConvertPersian(b);
    ConvertThree(a, w, b);
    JoinThree(ToFinglish(a), w, ToFinglish(b));
  }

  /** Text without whitespace or ASCII letters is one piece, converted or
      kept as that piece is. */
  lemma {:induction false} OneWord(w: string)
    requires NoSpace(w) && !HasAsciiLetter(w)
    ensures Transliterate(w) == ConvertSegment(w)
  {
    SplitNoSpace(w);
    assert ConvertAll([w]) == [ConvertSegment(w)];
    assert Join([ConvertSegment(w)]) == ConvertSegment(w);
  }

  /** A word with an emoji in it is kept whole, its Persian letters
      included. */
  lemma {:induction false} EmojiWordKept(w: string)
    requires NoSpace(w) && !HasAsciiLetter(w) && IsEmoji(w)
    ensures Transliterate(w) == w
  {
    OneWord(w);
  }

  /** A word of Persian letters alone goes through the reverse direction. */
  lemma {:induction false} PersianWord(w: string)
    requires w != [] && forall i :: 0 <= i < |w| ==> InPersianRange(w[i])
    ensures Transliterate(w) == ToFinglish(w)
  {
    PersianTextIsPlain(w);
    OneWord(w);
    ConvertPersian(w);
  }

  const Grin: char := '\U{1F600}'

  /* As for the forward examples, the example texts are parameters held
     equal to a literal, so that the verifier does not evaluate the whole
     conversion of the literal; the small helpers each take one step. */

  /** Persian salam becomes `salam`. */
  lemma {:induction false} SalamDispatch(p: string)
    requires p == [Sin, Alef, Lam, Alef, Mim]
    ensures Transliterate(p) == "salam"
  {
    SalamIsPersian(p);
    PersianWord(p);
    SalamBack(p);
  }

  /** Persian salam with a grinning face glued to it is left as it is. */
  lemma {:induction false} SalamGrinKept()
    ensures Transliterate([Sin, Alef, Lam, Alef, Mim, Grin]) == [Sin, Alef, Lam, Alef, Mim, Grin]
  {
    var w := [Sin, Alef, Lam, Alef, Mim, Grin];
    assert InEmojiRange(w[5]);
    EmojiWordKept(w);
  }

  lemma {:induction false} SalamIsPersian(p: string)
    requires p == [Sin, Alef, Lam, Alef, Mim]
    ensures p != [] && forall i :: 0 <= i < |p| ==> InPersianRange(p[i])
  {
  }

  /** Two Persian words around whitespace give the two converted words
      around the same whitespace. */
  lemma {:induction false} SalamSalamParts(p: string, s: string)
    requires p == [Sin, Alef, Lam, Alef, Mim] && s == p + "  " + p
    ensures Transliterate(s) == ToFinglish(p) + "  " + ToFinglish(p)
  {
    SalamIsPersian(p);
    var w := "  ";
    assert AllSpace(w);
    TwoWords(p, w, p);
  }

  lemma {:induction false} SalamTwice(r: string, w: string)
    requires r == "salam" && w == "  "
    ensures r + w + r == "salam  salam"
  {
  }

  /** Two Persian salams around two spaces: each word converted, the
      spaces kept. */
  lemma {:induction false} SalamSalam(p: string, s: string)
    requires p == [Sin, Alef, Lam, Alef, Mim] && s == p + "  " + p
    ensures Transliterate(s) == "salam  salam"
  {
    SalamSalamParts(p, s);
    SalamBack(p);
    SalamTwice(ToFinglish(p), "  ");
  }

  /** Latin text, a character that is no ASCII letter, and text without
      ASCII letters: the first part goes forward, the rest is kept. */
  lemma {:induction false} LatinThenOther(a: string, c: char, b: string)
    requires HasAsciiLetter(a) && !IsAsciiLetter(c) && !HasAsciiLetter(b)
    ensures Transliterate(a + [c] + b) == ToFarsi(a) + [c] + b
  {
    HasAsciiLetterConcat(a, [c] + b);
    assert a + [c] + b == a + ([c] + b);
    ToFarsiBarrier(a, c, b);
    ToFarsiPassThrough(b);
  }

  lemma {:induction false} HiGrinLetters(a: string, b: string)
    requires a == "hi" && b == [Grin]
    ensures HasAsciiLetter(a) && !HasAsciiLetter(b)
  {
    assert IsAsciiLetter(a[0]);
    assert !IsAsciiLetter(b[0]);
  }

  lemma {:induction false} HiWord(a: string)
    requires a == "hi"
    ensures ToFarsi(a) == [He, FarsiYeh]
  {
    HiExample();
  }

  lemma {:induction false} HiGrinTail(x: string, b: string)
    requires x == [He, FarsiYeh] && b == [Grin]
    ensures x + [' '] + b == [He, FarsiYeh, ' ', Grin]
  {
  }

  /** `hi` and an emoji: the ASCII letters send everything forward, and the
      space and the emoji pass through unchanged. */
  lemma {:induction false} HiGrin(a: string, b: string, s: string)
    requires a == "hi" && b == [Grin] && s == a + [' '] + b
    ensures Transliterate(s) == [He, FarsiYeh, ' ', Grin]
  {
    HiGrinLetters(a, b);
    LatinThenOther(a, ' ', b);
    HiWord(a);
    HiGrinTail(ToFarsi(a), b);
  }
}

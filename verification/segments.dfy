/** `re.split(r'(\s+)', matn)` and `''.join(...)` (finglish_to_farsi.py,
    lines 33 and 38): the text cut at maximal runs of whitespace, the runs
    kept as segments of their own. The result alternates non-whitespace
    pieces (at the even positions) with whitespace runs (at the odd ones),
    so it always has odd length; the first and last pieces are empty when
    the text starts or ends with whitespace, and the empty text gives one
    empty piece. */
module Segments {
  import opened Classify

  /** `''.join(segs)`. */
  function Join(segs: seq<string>): string
  {
    if segs == [] then [] else segs[0] + Join(segs[1..])
  }

  /** The length of the longest prefix without whitespace. */
  function WordLength(s: string): (n: nat)
    ensures n <= |s|
    ensures forall k :: 0 <= k < n ==> !IsSpace(s[k])
    ensures n < |s| ==> IsSpace(s[n])
  {
    if s == [] || IsSpace(s[0]) then 0 else 1 + WordLength(s[1..])
  }

  /** The length of the longest prefix of whitespace. */
  function RunLength(s: string): (n: nat)
    ensures n <= |s|
    ensures forall k :: 0 <= k < n ==> IsSpace(s[k])
    ensures n < |s| ==> !IsSpace(s[n])
  {
    if s == [] || !IsSpace(s[0]) then 0 else 1 + RunLength(s[1..])
  }

  /** `re.split(r'(\s+)', s)`. */
  function Split(s: string): seq<string>
    decreases |s|
  {
    var i := WordLength(s);
    if i == |s| then [s]
    else
      var j := i + RunLength(s[i..]);
      [s[..i], s[i..j]] + Split(s[j..])
  }

  /** The shape of what `re.split` with one capturing group of `\s+`
      returns: odd length; words without whitespace at the even positions,
      non-empty whitespace runs at the odd ones; only the first and last
      word may be empty. */
  predicate WellFormed(segs: seq<string>)
  {
    && |segs| % 2 == 1
    && (forall k :: 0 <= k < |segs| && k % 2 == 0 ==> NoSpace(segs[k]))
    && (forall k :: 0 <= k < |segs| && k % 2 == 1 ==> segs[k] != [] && AllSpace(segs[k]))
    && (forall k :: 0 < k < |segs| - 1 ==> segs[k] != [])
  }

  lemma {:induction false} JoinTwo(a: string, w: string, rest: seq<string>)
    ensures Join([a, w] + rest) == a + w + Join(rest)
  {
    assert ([a, w] + rest)[1..] == [w] + rest;
    assert ([w] + rest)[1..] == rest;
  }

  /** Joining the pieces gives back the text. */
  lemma {:induction false} SplitJoin(s: string)
    ensures Join(Split(s)) == s
    decreases |s|
  {
    var i := WordLength(s);
    if i == |s| {
      assert Split(s) == [s];
      JoinOne(s);
    } else {
      var j := i + RunLength(s[i..]);
      SplitUnfold(s);
      RunBounds(s, i);
      var a, w, b := s[..i], s[i..j], s[j..];
      ThreeParts(s, i, j);
      SplitJoin(b);
      JoinTwo(a, w, Split(b));
    }
  }

  /** One step of the split: a word, a non-empty run, and the rest. */
  lemma {:induction false} SplitUnfold(s: string)
    requires WordLength(s) < |s|
    ensures var i := WordLength(s); var j := i + RunLength(s[i..]);
      Split(s) == [s[..i], s[i..j]] + Split(s[j..])
  {
  }

  /** The whitespace run starting at `i`, by position. */
  lemma {:induction false} RunBounds(s: string, i: nat)
    requires i < |s| && IsSpace(s[i])
    ensures var j := i + RunLength(s[i..]);
      && i < j <= |s|
      && (forall k :: i <= k < j ==> IsSpace(s[k]))
      && (j < |s| ==> !IsSpace(s[j]))
  {
    var t := s[i..];
    assert t[0] == s[i];
    var n := RunLength(t);
    forall k | i <= k < i + n
      ensures IsSpace(s[k])
    {
      assert s[k] == t[k - i];
    }
    if i + n < |s| {
      assert s[i + n] == t[n];
    }
  }

  lemma {:induction false} ThreeParts(s: string, i: nat, j: nat)
    requires i <= j <= |s|
    ensures s[..i] + s[i..j] + s[j..] == s
  {
  }

  lemma {:induction false} JoinOne(a: string)
    ensures Join([a]) == a
  {
    assert [a][1..] == [];
  }

  /** The pieces have the shape of a `re.split` result. */
  lemma {:induction false} SplitWellFormed(s: string)
    ensures WellFormed(Split(s))
    decreases |s|
  {
    var i := WordLength(s);
    if i == |s| {
      assert Split(s) == [s];
      assert NoSpace(s);
    } else {
      var j := i + RunLength(s[i..]);
      SplitUnfold(s);
      RunBounds(s, i);
      SplitPieces(s, i, j);
      var a, w, b := s[..i], s[i..j], s[j..];
      var rest := Split(b);
      SplitWellFormed(b);
      if j < |s| {
        SplitStartsWithWord(b);
      }
      ConsWellFormed(a, w, rest);
      assert Split(s) == [a, w] + rest;
    }
  }

  /** A word, a whitespace run, and a rest that does not start with
      whitespace, told apart by position. */
  lemma {:induction false} SplitPieces(s: string, i: nat, j: nat)
    requires i < j <= |s|
    requires forall k :: 0 <= k < i ==> !IsSpace(s[k])
    requires forall k :: i <= k < j ==> IsSpace(s[k])
    requires j < |s| ==> !IsSpace(s[j])
    ensures NoSpace(s[..i])
    ensures AllSpace(s[i..j]) && s[i..j] != []
    ensures j < |s| ==> s[j..] != [] && !IsSpace(s[j..][0])
  {
    forall k | 0 <= k < i
      ensures !IsSpace(s[..i][k])
    {
      assert s[..i][k] == s[k];
    }
    forall k | 0 <= k < j - i
      ensures IsSpace(s[i..j][k])
    {
      assert s[i..j][k] == s[i + k];
    }
    if j < |s| {
      assert s[j..][0] == s[j];
    }
  }

  /** A word and a whitespace run in front of well-formed pieces keep them
      well formed. */
  lemma {:induction false} ConsWellFormed(a: string, w: string, rest: seq<string>)
    requires NoSpace(a) && AllSpace(w) && w != []
    requires WellFormed(rest) && (|rest| > 1 ==> rest[0] != [])
    ensures WellFormed([a, w] + rest)
  {
    var segs := [a, w] + rest;
    assert forall k :: 2 <= k < |segs| ==> segs[k] == rest[k - 2];
  }

  /** Text that starts with a non-whitespace character is split into a
      first piece that is not empty. */
  lemma {:induction false} SplitStartsWithWord(s: string)
    requires s != [] && !IsSpace(s[0])
    ensures Split(s)[0] != []
  {
    assert WordLength(s) > 0;
  }

  /** Text without whitespace is one piece. */
  lemma {:induction false} SplitNoSpace(s: string)
    requires NoSpace(s)
    ensures Split(s) == [s]
  {
  }

  /** `re.split` is determined by its shape: a well-formed sequence of
      pieces is exactly what splitting their concatenation returns. */
  lemma {:induction false} JoinSplit(segs: seq<string>)
    requires WellFormed(segs)
    ensures Split(Join(segs)) == segs
    decreases |segs|
  {
    if |segs| == 1 {
      assert segs[1..] == [];
      assert Join(segs) == segs[0] + [];
      assert segs[0] + [] == segs[0];
      assert NoSpace(segs[0]);
      SplitNoSpace(segs[0]);
      assert segs == [segs[0]];
    } else {
      var a := segs[0];
      var w := segs[1];
      var rest := segs[2..];
      assert segs == [a, w] + rest;
      assert WellFormed(rest) by {
        assert forall k :: 0 <= k < |rest| ==> rest[k] == segs[k + 2];
      }
      JoinSplit(rest);
      JoinTwo(a, w, rest);
      SplitCons(a, w, rest);
    }
  }

  /** One word and one whitespace run in front of well-formed pieces are
      split off first. */
  lemma {:induction false} SplitCons(a: string, w: string, rest: seq<string>)
    requires NoSpace(a) && AllSpace(w) && w != []
    requires WellFormed(rest) && (|rest| > 1 ==> rest[0] != [])
    ensures Split(a + w + Join(rest)) == [a, w] + Split(Join(rest))
  {
    var r := Join(rest);
    var s := a + w + r;
    assert s == a + (w + r);
    WordIs(a, w + r);
    assert s[|a|..] == w + r;
    RunIs(w, r, rest);
    assert s[..|a|] == a;
    assert s[|a|..|a| + |w|] == w;
    assert s[|a| + |w|..] == r;
  }

  /** The first word of `a + b` is `a` when `b` starts with whitespace. */
  lemma {:induction false} WordIs(a: string, b: string)
    requires NoSpace(a) && b != [] && IsSpace(b[0])
    ensures WordLength(a + b) == |a|
  {
    var s := a + b;
    assert forall k :: 0 <= k < |a| ==> s[k] == a[k];
    assert s[|a|] == b[0];
  }

  /** The first whitespace run of `w + Join(rest)` is `w` when `rest`
      starts with a word that is not empty, or is the empty last word. */
  lemma {:induction false} RunIs(w: string, r: string, rest: seq<string>)
    requires AllSpace(w) && w != []
    requires WellFormed(rest) && r == Join(rest)
    requires |rest| > 1 ==> rest[0] != []
    ensures RunLength(w + r) == |w|
  {
    var s := w + r;
    assert forall k :: 0 <= k < |w| ==> s[k] == w[k];
    assert r == rest[0] + Join(rest[1..]);
    assert |rest| == 1 ==> rest[1..] == [];
    if rest[0] != [] {
      assert NoSpace(rest[0]);
      assert s[|w|] == rest[0][0];
    }
  }
}

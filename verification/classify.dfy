/** The character tests the dispatcher makes: ASCII letters (`[a-zA-Z]`),
    the Persian letter range (`[آ-ی]`, U+0622 to U+06CC), the emoji ranges
    of `is_emoji`, and the whitespace that `\s` matches. */
module Classify {

  predicate IsAsciiLetter(c: char)
  {
    'a' <= c <= 'z' || 'A' <= c <= 'Z'
  }

  /** `re.search(r'[a-zA-Z]', s)` finds something. */
  predicate HasAsciiLetter(s: string)
  {
    exists i :: 0 <= i < |s| && IsAsciiLetter(s[i])
  }

  /** The character class `[آ-ی]`: alef with madda (U+0622) up to Farsi
      yeh (U+06CC). */
  predicate InPersianRange(c: char)
  {
    '\U{0622}' <= c <= '\U{06CC}'
  }

  predicate HasPersian(s: string)
  {
    exists i :: 0 <= i < |s| && InPersianRange(s[i])
  }

  /** The character class of `is_emoji`, range by range as written. The last
      range, U+24C2 to U+1F251, is far wider than emoji: it covers, among
      much else, CJK text. */
  predicate InEmojiRange(c: char)
  {
    || '\U{1F600}' <= c <= '\U{1F64F}'
    || '\U{1F300}' <= c <= '\U{1F5FF}'
    || '\U{1F680}' <= c <= '\U{1F6FF}'
    || '\U{1F700}' <= c <= '\U{1F77F}'
    || '\U{1F780}' <= c <= '\U{1F7FF}'
    || '\U{1F800}' <= c <= '\U{1F8FF}'
    || '\U{1F900}' <= c <= '\U{1F9FF}'
    || '\U{1FA00}' <= c <= '\U{1FA6F}'
    || '\U{1FA70}' <= c <= '\U{1FAFF}'
    || '\U{2702}' <= c <= '\U{27B0}'
    || '\U{24C2}' <= c <= '\U{1F251}'
  }

  /** `is_emoji(s)`: some character of `s` is in one of the ranges. */
  predicate IsEmoji(s: string)
  {
    exists i :: 0 <= i < |s| && InEmojiRange(s[i])
  }

  /** The characters `\s` matches in a Python 3 `str` pattern: the ASCII
      controls tab to carriage return, the information separators
      U+001C to U+001F, space, next line, no-break space, ogham space mark,
      the spaces U+2000 to U+200A, line and paragraph separator, narrow
      no-break space, medium mathematical space and ideographic space. */
  predicate IsSpace(c: char)
  {
    || '\t' <= c <= '\r'
    || '\U{001C}' <= c <= ' '
    || c == '\U{0085}' || c == '\U{00A0}' || c == '\U{1680}'
    || '\U{2000}' <= c <= '\U{200A}'
    || c == '\U{2028}' || c == '\U{2029}' || c == '\U{202F}'
    || c == '\U{205F}' || c == '\U{3000}'
  }

  predicate AllSpace(s: string)
  {
    forall i :: 0 <= i < |s| ==> IsSpace(s[i])
  }

  predicate NoSpace(s: string)
  {
    forall i :: 0 <= i < |s| ==> !IsSpace(s[i])
  }

  /** Every emoji range starts above the Persian range, so text made only of
      Persian-range characters is never taken for emoji. */
  lemma {:induction false} PersianTextIsNotEmoji(s: string)
    requires forall i :: 0 <= i < |s| ==> InPersianRange(s[i])
    ensures !IsEmoji(s)
  {
  }

  /** Whitespace is neither an ASCII letter nor in the Persian range. */
  lemma {:induction false} SpaceIsNeitherLetterNorPersian(c: char)
    requires IsSpace(c)
    ensures !IsAsciiLetter(c) && !InPersianRange(c)
  {
  }

  /** Persian-range text has no whitespace and no ASCII letter. */
  lemma {:induction false} PersianTextIsPlain(s: string)
    requires forall i :: 0 <= i < |s| ==> InPersianRange(s[i])
    ensures NoSpace(s) && !HasAsciiLetter(s)
  {
  }

  /** Whitespace has no ASCII letter. */
  lemma {:induction false} SpaceTextIsPlain(s: string)
    requires AllSpace(s)
    ensures !HasAsciiLetter(s) && !HasPersian(s)
  {
  }

  /** A concatenation has an ASCII letter exactly when a part has one. */
  lemma {:induction false} HasAsciiLetterConcat(a: string, b: string)
    ensures HasAsciiLetter(a + b) <==> HasAsciiLetter(a) || HasAsciiLetter(b)
  {
    var s := a + b;
    if HasAsciiLetter(s) {
      var i :| 0 <= i < |s| && IsAsciiLetter(s[i]);
      if i < |a| {
        assert s[i] == a[i];
      } else {
        assert s[i] == b[i - |a|];
      }
    }
    if HasAsciiLetter(a) {
      var i :| 0 <= i < |a| && IsAsciiLetter(a[i]);
      assert s[i] == a[i];
    }
    if HasAsciiLetter(b) {
      var i :| 0 <= i < |b| && IsAsciiLetter(b[i]);
      assert s[|a| + i] == b[i];
    }
  }

  /** Text whose characters come from whitespace-free text or are ASCII
      letters has no whitespace. */
  lemma {:induction false} NoSpaceFrom(s: string, r: string)
    requires NoSpace(s)
    requires forall c :: c in r ==> c in s || IsAsciiLetter(c)
    ensures NoSpace(r)
  {
    forall c | c in s
      ensures !IsSpace(c)
    {
      var j :| 0 <= j < |s| && s[j] == c;
    }
    forall i | 0 <= i < |r|
      ensures !IsSpace(r[i])
    {
      assert r[i] in r;
    }
  }
}


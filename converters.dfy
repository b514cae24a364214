/**
 * `UnicodeSlugConverter` (store/converters.py), the path converter for
 * slugs in store URLs: the pattern a URL segment must match, `to_python`,
 * which cleans up the matched text before a view sees it, and `to_url`.
 *
 * Python's Unicode `\w` class is a large table of the `re` module; it is a
 * parameter `isWord` here. Django's `slugify` is a parameter too.
 */
module Converters {
  import opened Text

  const ArabicYeh: char := '\U{064A}'
  const FarsiYeh: char := '\U{06CC}'
  const ArabicKaf: char := '\U{0643}'
  const Keheh: char := '\U{06A9}'

  /** The range `؀-ۿ` of the pattern's character class. */
  predicate InArabicBlock(c: char)
  {
    '\U{0600}' <= c <= '\U{06FF}'
  }

  /** The character class `[\w؀-ۿ]`. */
  predicate SlugChar(c: char, isWord: char -> bool)
  {
    isWord(c) || InArabicBlock(c)
  }

  predicate AllSlugChars(s: string, isWord: char -> bool)
  {
    forall k :: 0 <= k < |s| ==> SlugChar(s[k], isWord)
  }

  /** `s` matches `[\w؀-ۿ]+(?:-[\w؀-ۿ]+)*` as a whole:
      a non-empty run of class characters, then either the end or a hyphen
      followed by another match. A match is never empty and begins with a
      class character. */
  ghost predicate MatchesPattern(s: string, isWord: char -> bool): (b: bool)
    ensures b ==> s != [] && SlugChar(s[0], isWord)
    decreases |s|
  {
    exists i :: 0 < i <= |s| && AllSlugChars(s[..i], isWord) &&
                (i == |s| || (s[i] == '-' && MatchesPattern(s[i + 1..], isWord)))
  }

  /** The same language stated through `s.split('-')`: every hyphen-separated
      part is a non-empty run of class characters. This rules out the empty
      string and leading, trailing and doubled hyphens. */
  predicate SegmentsWellFormed(s: string, isWord: char -> bool)
  {
    AllRuns(Split(s, '-'), isWord)
  }

  /** Every part is a non-empty run of class characters. */
  predicate AllRuns(parts: seq<string>, isWord: char -> bool)
  {
    |parts| == 0 || (IsRun(parts[0], isWord) && AllRuns(parts[1..], isWord))
  }

  /** A non-empty run of class characters. */
  predicate IsRun(s: string, isWord: char -> bool)
  {
    s != [] && AllSlugChars(s, isWord)
  }

  /** `SegmentsWellFormed` one part at a time: the part before the first
      hyphen, then the rest after it. */
  lemma {:induction false} SegmentsUnfold(s: string, isWord: char -> bool)
    ensures var i := IndexOf(s, '-');
            SegmentsWellFormed(s, isWord) <==>
              (IsRun(s[..i], isWord) && (i < |s| ==> SegmentsWellFormed(s[i + 1..], isWord)))
  {
    var i := IndexOf(s, '-');
    SplitAt(s, '-');
    if i == |s| {
      AllRunsCons(s, [], isWord);
      assert [s] + [] == [s];
      assert s[..i] == s;
    } else {
      AllRunsCons(s[..i], Split(s[i + 1..], '-'), isWord);
    }
  }

  lemma {:induction false} AllRunsCons(p: string, rest: seq<string>, isWord: char -> bool)
    ensures AllRuns([p] + rest, isWord) <==> IsRun(p, isWord) && AllRuns(rest, isWord)
  {
    assert ([p] + rest)[0] == p && ([p] + rest)[1..] == rest;
  }

  /** A hyphen is never a class character. */
  lemma NoHyphenInRun(s: string, j: nat, isWord: char -> bool)
    requires !isWord('-')
    requires j <= |s| && AllSlugChars(s[..j], isWord)
    ensures IndexOf(s, '-') >= j
  {
    forall k | 0 <= k < j ensures s[k] != '-' {
      assert s[k] == s[..j][k];
      assert SlugChar(s[..j][k], isWord);
    }
  }

  /** The pattern accepts exactly the strings whose hyphen-separated parts
      are non-empty runs of class characters. Python's `\w` does not match
      a hyphen. */
  lemma {:induction false} PatternIffSegments(s: string, isWord: char -> bool)
    requires !isWord('-')
    ensures MatchesPattern(s, isWord) <==> SegmentsWellFormed(s, isWord)
    decreases |s|
  {
    var i := IndexOf(s, '-');
    SegmentsUnfold(s, isWord);
    if i < |s| {
      PatternIffSegments(s[i + 1..], isWord);
    }
    if SegmentsWellFormed(s, isWord) {
      assert 0 < i <= |s| && AllSlugChars(s[..i], isWord);
    }
    if MatchesPattern(s, isWord) {
      var j :| 0 < j <= |s| && AllSlugChars(s[..j], isWord) &&
               (j == |s| || (s[j] == '-' && MatchesPattern(s[j + 1..], isWord)));
      NoHyphenInRun(s, j, isWord);
      assert i == j;
    }
  }

  /** `re.sub('[from]', to, s)`: the scan from left to right that writes
      `to` for each match of the one-character class and copies every other
      character. The result lines up with `s` character by character. */
  function ReplaceChar(s: string, from: char, to: char): (r: string)
    ensures |r| == |s|
    ensures forall k :: 0 <= k < |s| ==> r[k] == (if s[k] == from then to else s[k])
  {
    if s == [] then []
    else [if s[0] == from then to else s[0]] + ReplaceChar(s[1..], from, to)
  }

  /** What `to_python` does to one character. */
  function NormalizeChar(c: char): char
  {
    if c == ArabicYeh then FarsiYeh else if c == ArabicKaf then Keheh else c
  }

  /** `to_python`: strip surrounding whitespace, then write Arabic Yeh as
      Farsi Yeh and Arabic Kaf as Keheh. The result is the stripped infix of
      the input with those two letters replaced one for one and every other
      character unchanged; it neither starts nor ends with whitespace and
      holds neither Arabic letter. */
  function ToPython(value: string): (r: string)
    ensures IsTrimmed(r)
    ensures ArabicYeh !in r && ArabicKaf !in r
    ensures var i := SkipLeft(value, 0);
            i + |r| <= |value| &&
            (forall k :: 0 <= k < i ==> IsSpace(value[k])) &&
            (forall k :: i + |r| <= k < |value| ==> IsSpace(value[k])) &&
            (forall k :: 0 <= k < |r| ==> r[k] == NormalizeChar(value[i + k]))
  {
    var v := Strip(value);
    var v1 := ReplaceChar(v, ArabicYeh, FarsiYeh);
    var v2 := ReplaceChar(v1, ArabicKaf, Keheh);
    assert forall k :: 0 <= k < |v2| ==> v2[k] == NormalizeChar(v[k]);
    NormalizedFacts(v, v2);
    StrippedNormalized(value, v2);
    v2
  }

  /** Normalizing `strip(value)` character by character gives characters of
      `value` itself, read from its first non-whitespace character on. */
  lemma StrippedNormalized(value: string, r: string)
    requires var v := Strip(value);
             |r| == |v| && forall k :: 0 <= k < |v| ==> r[k] == NormalizeChar(v[k])
    ensures var i := SkipLeft(value, 0);
            i + |r| <= |value| &&
            (forall k :: 0 <= k < i ==> IsSpace(value[k])) &&
            (forall k :: i + |r| <= k < |value| ==> IsSpace(value[k])) &&
            (forall k :: 0 <= k < |r| ==> r[k] == NormalizeChar(value[i + k]))
  {
    var v := Strip(value);
    var i := SkipLeft(value, 0);
    assert v == value[i..i + |v|];
    assert forall k :: 0 <= k < |v| ==> v[k] == value[i + k];
  }

  /** A string normalized character by character holds neither Arabic
      letter, and stays trimmed: neither replacement is whitespace. */
  lemma NormalizedFacts(v: string, r: string)
    requires |r| == |v| && forall k :: 0 <= k < |v| ==> r[k] == NormalizeChar(v[k])
    ensures IsTrimmed(v) ==> IsTrimmed(r)
    ensures ArabicYeh !in r && ArabicKaf !in r
  {
  }

  /** Cleaning a slug twice is the same as cleaning it once. */
  lemma ToPythonIdempotent(value: string)
    ensures ToPython(ToPython(value)) == ToPython(value)
  {
    var r := ToPython(value);
    StripTrimmed(r);
    assert ReplaceChar(r, ArabicYeh, FarsiYeh) == r;
    assert ReplaceChar(r, ArabicKaf, Keheh) == r;
  }

  /** A segment the pattern accepted has no surrounding whitespace, so the
      strip in `to_python` changes nothing and only the two letters are
      rewritten. Python's `\w` matches no whitespace character. */
  lemma AcceptedNeedsNoStrip(value: string, isWord: char -> bool)
    requires !isWord('-')
    requires forall c :: isWord(c) ==> !IsSpace(c)
    requires MatchesPattern(value, isWord)
    ensures Strip(value) == value
    ensures |ToPython(value)| == |value|
    ensures forall k :: 0 <= k < |value| ==> ToPython(value)[k] == NormalizeChar(value[k])
  {
    PatternIffSegments(value, isWord);
    SegmentsUnfold(value, isWord);
    AllCharsSlugOrHyphen(value, isWord);
    var i := IndexOf(value, '-');
    assert value[0] == value[..i][0];
    EndsWithClassChar(value, isWord);
    StripTrimmed(value);
  }

  /** Rewriting the two letters keeps a string inside the pattern: both
      replacements lie in the Arabic block and a hyphen is left alone. */
  lemma {:induction false} NormalizeKeepsPattern(s: string, t: string, isWord: char -> bool)
    requires |t| == |s| && forall k :: 0 <= k < |s| ==> t[k] == NormalizeChar(s[k])
    requires MatchesPattern(s, isWord)
    ensures MatchesPattern(t, isWord)
    decreases |s|
  {
    var i :| 0 < i <= |s| && AllSlugChars(s[..i], isWord) &&
             (i == |s| || (s[i] == '-' && MatchesPattern(s[i + 1..], isWord)));
    assert AllSlugChars(t[..i], isWord) by {
      forall k | 0 <= k < i ensures SlugChar(t[..i][k], isWord) {
        assert t[..i][k] == NormalizeChar(s[..i][k]);
      }
    }
    if i < |s| {
      NormalizeKeepsPattern(s[i + 1..], t[i + 1..], isWord);
    }
  }

  /** A segment the pattern accepted still matches it after `to_python`,
      so the view receives a well-formed slug. */
  lemma ToPythonKeepsPattern(value: string, isWord: char -> bool)
    requires !isWord('-')
    requires forall c :: isWord(c) ==> !IsSpace(c)
    requires MatchesPattern(value, isWord)
    ensures MatchesPattern(ToPython(value), isWord)
  {
    AcceptedNeedsNoStrip(value, isWord);
    NormalizeKeepsPattern(value, ToPython(value), isWord);
  }

  /** Every character of a well-formed slug is a hyphen or a class character. */
  lemma {:induction false} AllCharsSlugOrHyphen(s: string, isWord: char -> bool)
    requires SegmentsWellFormed(s, isWord)
    ensures forall k :: 0 <= k < |s| ==> s[k] == '-' || SlugChar(s[k], isWord)
    decreases |s|
  {
    var i := IndexOf(s, '-');
    SegmentsUnfold(s, isWord);
    if i < |s| {
      var rest := s[i + 1..];
      AllCharsSlugOrHyphen(rest, isWord);
      assert forall k :: i < k < |s| ==> s[k] == rest[k - i - 1];
    }
    assert forall k :: 0 <= k < i ==> s[k] == s[..i][k];
  }

  /** A match ends with a class character, never with a hyphen. */
  lemma {:induction false} EndsWithClassChar(s: string, isWord: char -> bool)
    requires MatchesPattern(s, isWord)
    ensures |s| > 0 && SlugChar(s[|s| - 1], isWord)
    decreases |s|
  {
    var j :| 0 < j <= |s| && AllSlugChars(s[..j], isWord) &&
             (j == |s| || (s[j] == '-' && MatchesPattern(s[j + 1..], isWord)));
    if j == |s| {
      assert s[|s| - 1] == s[..j][j - 1];
    } else {
      EndsWithClassChar(s[j + 1..], isWord);
      assert s[|s| - 1] == s[j + 1..][|s| - j - 2];
    }
  }

  /** `to_url`: Django's `slugify(value, allow_unicode=True)`. */
  function ToUrl(value: string, slugify: string -> string): string
  {
    slugify(value)
  }
}

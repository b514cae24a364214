/**
 * The few Python string built-ins the store relies on, stated exactly:
 * `str.strip()` with no argument, `sep.join(parts)` and `str(n)` for a
 * natural number `n`. `s.split(sep)`, `lstrip` and `rstrip` are not called
 * by the store; they are here to state properties of the others.
 */
module Text {

  /** Python's `str.isspace()` for one character: the characters that
      `str.strip()` with no argument removes. */
  predicate IsSpace(c: char)
  {
    ('\U{0009}' <= c <= '\U{000D}') || ('\U{001C}' <= c <= '\U{001F}') || c == ' ' ||
    c == '\U{0085}' || c == '\U{00A0}' || c == '\U{1680}' ||
    ('\U{2000}' <= c <= '\U{200A}') || c == '\U{2028}' || c == '\U{2029}' ||
    c == '\U{202F}' || c == '\U{205F}' || c == '\U{3000}'
  }

  predicate AllSpace(s: string)
  {
    forall i :: 0 <= i < |s| ==> IsSpace(s[i])
  }

  /** Neither the first nor the last character is whitespace. */
  predicate IsTrimmed(s: string)
  {
    s == [] || (!IsSpace(s[0]) && !IsSpace(s[|s| - 1]))
  }

  /** The scan `str.strip()` makes from the left: the first index at or
      after `i` that does not hold whitespace, or `|s|`. */
  function SkipLeft(s: string, i: nat): (r: nat)
    requires i <= |s|
    ensures i <= r <= |s|
    ensures forall k :: i <= k < r ==> IsSpace(s[k])
    ensures r == |s| || !IsSpace(s[r])
    decreases |s| - i
  {
    if i < |s| && IsSpace(s[i]) then SkipLeft(s, i + 1) else i
  }

  /** The scan `str.strip()` makes from the right, stopping at `i`: the end
      of `s[i..j]` once its trailing whitespace is dropped. */
  function SkipRight(s: string, i: nat, j: nat): (r: nat)
    requires i <= j <= |s|
    ensures i <= r <= j
    ensures forall k :: r <= k < j ==> IsSpace(s[k])
    ensures r == i || !IsSpace(s[r - 1])
  {
    if i < j && IsSpace(s[j - 1]) then SkipRight(s, i, j - 1) else j
  }

  /** `s.strip()`: `s` without its leading and trailing whitespace. The
      result is the infix of `s` that starts at its first non-whitespace
      character, everything cut off on either side is whitespace, and what
      is left neither starts nor ends with whitespace. */
  function Strip(s: string): (r: string)
    ensures IsTrimmed(r)
    ensures var i := SkipLeft(s, 0);
            i + |r| <= |s| && r == s[i..i + |r|] &&
            (forall k :: 0 <= k < i ==> IsSpace(s[k])) &&
            (forall k :: i + |r| <= k < |s| ==> IsSpace(s[k]))
  {
    var i := SkipLeft(s, 0);
    var j := SkipRight(s, i, |s|);
    var r := s[i..j];
    assert r == s[i..i + |r|];
    r
  }

  /** Whitespace around a trimmed infix is exactly what `strip` removes. */
  lemma {:induction false} StripSurrounded(a: string, m: string, b: string)
    requires AllSpace(a) && AllSpace(b) && IsTrimmed(m)
    ensures Strip(a + m + b) == m
  {
    var s := a + m + b;
    var i := SkipLeft(s, 0);
    if m == [] {
      assert forall k :: 0 <= k < |s| ==> IsSpace(s[k]) by {
        forall k | 0 <= k < |s| ensures IsSpace(s[k]) {
          if k < |a| { assert s[k] == a[k]; } else { assert s[k] == b[k - |a|]; }
        }
      }
      assert i == |s|;
    } else {
      assert s[|a|] == m[0];
      assert forall k :: 0 <= k < |a| ==> s[k] == a[k];
      assert i == |a|;
      var j := SkipRight(s, i, |s|);
      assert s[|a| + |m| - 1] == m[|m| - 1];
      assert forall k :: |a| + |m| <= k < |s| ==> s[k] == b[k - |a| - |m|];
      assert j == |a| + |m|;
      assert s[i..j] == m;
    }
  }

  /** `strip` removes everything exactly when everything is whitespace. */
  lemma {:induction false} StripEmptyIffSpace(s: string)
    ensures Strip(s) == [] <==> AllSpace(s)
  {
    var i := SkipLeft(s, 0);
    if AllSpace(s) {
      assert i == |s|;
    }
  }

  /** A string is its leading whitespace, its strip, and its trailing
      whitespace. */
  lemma {:induction false} StripDecompose(s: string)
    ensures var i := SkipLeft(s, 0); var m := Strip(s);
            s == s[..i] + m + s[i + |m|..] && AllSpace(s[..i]) && AllSpace(s[i + |m|..])
  {
    var i := SkipLeft(s, 0);
    var m := Strip(s);
    var j := i + |m|;
    assert m == s[i..j];
    SliceThree(s, i, j);
    AllSpaceSlice(s, 0, i);
    AllSpaceSlice(s, j, |s|);
    assert s[0..i] == s[..i] && s[j..|s|] == s[j..];
  }

  lemma {:induction false} SliceThree(s: string, i: nat, j: nat)
    requires i <= j <= |s|
    ensures s == s[..i] + s[i..j] + s[j..]
  {
    assert s[..i] + s[i..j] == s[..j];
    assert s[..j] + s[j..] == s;
  }

  lemma {:induction false} AllSpaceSlice(s: string, lo: nat, hi: nat)
    requires lo <= hi <= |s|
    requires forall k :: lo <= k < hi ==> IsSpace(s[k])
    ensures AllSpace(s[lo..hi])
  {
    forall k | 0 <= k < hi - lo ensures IsSpace(s[lo..hi][k]) {
      assert s[lo..hi][k] == s[lo + k];
    }
  }


  lemma {:induction false} AllSpaceConcat(x: string, y: string)
    requires AllSpace(x) && AllSpace(y)
    ensures AllSpace(x + y)
  {
    forall k | 0 <= k < |x + y| ensures IsSpace((x + y)[k]) {
      if k < |x| { assert (x + y)[k] == x[k]; } else { assert (x + y)[k] == y[k - |x|]; }
    }
  }

  /** Whitespace added after a string does not change its strip. */
  lemma {:induction false} StripSpaceSuffix(s: string, b: string)
    requires AllSpace(b)
    ensures Strip(s + b) == Strip(s)
  {
    var i := SkipLeft(s, 0);
    var m := Strip(s);
    StripDecompose(s);
    var x := s[..i] + m + s[i + |m|..];
    StripWiderSurround([], s[..i], m, s[i + |m|..], b);
    assert [] + x == s;
  }

  /** Whitespace added before a string does not change its strip. */
  lemma {:induction false} StripSpacePrefix(a: string, s: string)
    requires AllSpace(a)
    ensures Strip(a + s) == Strip(s)
  {
    var i := SkipLeft(s, 0);
    var m := Strip(s);
    StripDecompose(s);
    var x := s[..i] + m + s[i + |m|..];
    StripWiderSurround(a, s[..i], m, s[i + |m|..], []);
    assert a + x + [] == a + s;
  }

  /** More whitespace on either side of a trimmed infix is still stripped. */
  lemma {:induction false} StripWiderSurround(a: string, lead: string, m: string, tail: string, b: string)
    requires AllSpace(a) && AllSpace(lead) && AllSpace(tail) && AllSpace(b) && IsTrimmed(m)
    ensures Strip(a + (lead + m + tail) + b) == m
  {
    AllSpaceConcat(a, lead);
    AllSpaceConcat(tail, b);
    assert a + (lead + m + tail) + b == (a + lead) + m + (tail + b);
    StripSurrounded(a + lead, m, tail + b);
  }

  /** `s.lstrip()`: `s` without its leading whitespace. */
  function LStrip(s: string): (r: string)
    ensures |r| <= |s| && r == s[|s| - |r|..]
    ensures r == [] || !IsSpace(r[0])
    ensures forall k :: 0 <= k < |s| - |r| ==> IsSpace(s[k])
  {
    s[SkipLeft(s, 0)..]
  }

  /** `s.rstrip()`: `s` without its trailing whitespace. */
  function RStrip(s: string): (r: string)
    ensures |r| <= |s| && r == s[..|r|]
    ensures r == [] || !IsSpace(r[|r| - 1])
    ensures forall k :: |r| <= k < |s| ==> IsSpace(s[k])
  {
    s[..SkipRight(s, 0, |s|)]
  }

  /** `strip` leaves a trimmed string alone. */
  lemma {:induction false} StripTrimmed(s: string)
    requires IsTrimmed(s)
    ensures Strip(s) == s
  {
    StripSurrounded([], s, []);
    assert [] + s + [] == s;
  }

  // ---------------------------------------------------------------------
  // sep.join(parts) and s.split(sep)
  // ---------------------------------------------------------------------

  /** `[sep].join(parts)`: the parts with one `sep` between each two. */
  function Join(parts: seq<string>, sep: char): string
  {
    if |parts| == 0 then []
    else if |parts| == 1 then parts[0]
    else parts[0] + [sep] + Join(parts[1..], sep)
  }

  /** Joining one more part at the end adds the separator and that part. */
  lemma {:induction false} JoinSnoc(parts: seq<string>, last: string, sep: char)
    requires |parts| >= 1
    ensures Join(parts + [last], sep) == Join(parts, sep) + [sep] + last
    decreases |parts|
  {
    if |parts| == 1 {
      assert parts + [last] == [parts[0], last];
    } else {
      assert (parts + [last])[1..] == parts[1..] + [last];
      JoinSnoc(parts[1..], last, sep);
    }
  }

  /** A join ends with its last part. */
  lemma {:induction false} JoinEndsWithLast(parts: seq<string>, sep: char)
    requires |parts| >= 1
    ensures var r := Join(parts, sep); var last := parts[|parts| - 1];
            |last| <= |r| && r[|r| - |last|..] == last
    decreases |parts|
  {
    if |parts| > 1 {
      var last := parts[|parts| - 1];
      var rest := Join(parts[1..], sep);
      JoinEndsWithLast(parts[1..], sep);
      assert parts[1..][|parts[1..]| - 1] == last;
      var a := parts[0] + [sep];
      assert Join(parts, sep) == a + rest;
      assert (a + rest)[|a + rest| - |last|..] == rest[|rest| - |last|..];
    }
  }

  /** Index of the first `c` in `s`, or `|s|` when there is none. */
  function IndexOf(s: string, c: char): (i: nat)
    ensures i <= |s|
    ensures i < |s| ==> s[i] == c
    ensures forall j :: 0 <= j < i ==> s[j] != c
  {
    if |s| == 0 then 0
    else if s[0] == c then 0
    else 1 + IndexOf(s[1..], c)
  }

  /** `s.split(sep)`: the maximal runs between separators, at least one. */
  function Split(s: string, sep: char): (parts: seq<string>)
    ensures |parts| >= 1
    decreases |s|
  {
    var i := IndexOf(s, sep);
    if i == |s| then [s] else [s[..i]] + Split(s[i + 1..], sep)
  }

  /** One step of `Split`: the part before the first separator, then the
      parts of what follows it. */
  lemma {:induction false} SplitAt(s: string, sep: char)
    ensures var i := IndexOf(s, sep);
            Split(s, sep) == if i == |s| then [s] else [s[..i]] + Split(s[i + 1..], sep)
  {
  }

  /** The last part of `s.split(sep)`: what follows the last separator. It
      never holds the separator. */
  function LastPart(s: string, sep: char): (r: string)
    ensures sep !in r
    decreases |s|
  {
    var i := IndexOf(s, sep);
    if i == |s| then s else LastPart(s[i + 1..], sep)
  }

  /** `LastPart` is the last element of `Split`. */
  lemma {:induction false} SplitLastPart(s: string, sep: char)
    ensures var p := Split(s, sep); p[|p| - 1] == LastPart(s, sep)
    decreases |s|
  {
    var i := IndexOf(s, sep);
    if i < |s| {
      var rest := Split(s[i + 1..], sep);
      SplitLastPart(s[i + 1..], sep);
      LastOfCons(s[..i], rest);
    }
  }

  lemma {:induction false} LastOfCons(x: string, rest: seq<string>)
    requires |rest| >= 1
    ensures ([x] + rest)[|rest|] == rest[|rest| - 1]
  {
  }

  /** The first separator is at or before any separator. */
  lemma {:induction false} IndexOfAtMost(s: string, k: nat, sep: char)
    requires k < |s| && s[k] == sep
    ensures IndexOf(s, sep) <= k
  {
  }

  /** Whatever comes before a separator does not reach the last part. */
  lemma {:induction false} LastPartAfterSep(a: string, y: string, sep: char)
    ensures LastPart(a + [sep] + y, sep) == LastPart(y, sep)
    decreases |a|
  {
    var s := a + [sep] + y;
    assert s[|a|] == sep;
    IndexOfAtMost(s, |a|, sep);
    var i := IndexOf(s, sep);
    if i == |a| {
      assert s[i + 1..] == y;
    } else {
      assert s[i + 1..] == a[i + 1..] + [sep] + y;
      LastPartAfterSep(a[i + 1..], y, sep);
    }
  }

  /** The last part of a join is its last part when that holds no
      separator. */
  lemma {:induction false} JoinLastPart(parts: seq<string>, sep: char)
    requires |parts| >= 1 && sep !in parts[|parts| - 1]
    ensures LastPart(Join(parts, sep), sep) == parts[|parts| - 1]
    decreases |parts|
  {
    if |parts| == 1 {
      assert IndexOf(parts[0], sep) == |parts[0]|;
    } else {
      assert parts[1..][|parts| - 2] == parts[|parts| - 1];
      JoinLastPart(parts[1..], sep);
      LastPartAfterSep(parts[0], Join(parts[1..], sep), sep);
    }
  }

  /** Splitting undoes joining, provided no part holds the separator. */
  lemma {:induction false} SplitJoin(parts: seq<string>, sep: char)
    requires |parts| >= 1
    requires forall k :: 0 <= k < |parts| ==> sep !in parts[k]
    ensures Split(Join(parts, sep), sep) == parts
    decreases |parts|
  {
    var p := parts[0];
    if |parts| == 1 {
      assert IndexOf(p, sep) == |p|;
    } else {
      var s := Join(parts, sep);
      var rest := Join(parts[1..], sep);
      assert s == p + [sep] + rest;
      assert IndexOf(s, sep) == |p| by {
        assert forall j :: 0 <= j < |p| ==> s[j] == p[j];
        assert s[|p|] == sep;
      }
      assert s[..|p|] == p;
      assert s[|p| + 1..] == rest;
      SplitJoin(parts[1..], sep);
      assert [p] + parts[1..] == parts;
    }
  }

  // ---------------------------------------------------------------------
  // str(n) for natural numbers
  // ---------------------------------------------------------------------

  predicate IsDigit(c: char)
  {
    '0' <= c <= '9'
  }

  function DigitChar(d: nat): (c: char)
    requires d < 10
    ensures IsDigit(c) && c as int - '0' as int == d
  {
    ('0' as int + d) as char
  }

  /** `str(n)`: decimal digits, most significant first, no leading zero. */
  function NatToString(n: nat): (r: string)
    ensures |r| >= 1
    ensures forall i :: 0 <= i < |r| ==> IsDigit(r[i])
    ensures r[0] == '0' ==> n == 0
  {
    if n < 10 then [DigitChar(n)] else NatToString(n / 10) + [DigitChar(n % 10)]
  }

  /** `int(s)` for a string of decimal digits. */
  function ParseDigits(s: string): int
    requires forall i :: 0 <= i < |s| ==> IsDigit(s[i])
  {
    if s == [] then 0
    else 10 * ParseDigits(s[..|s| - 1]) + (s[|s| - 1] as int - '0' as int)
  }

  /** Reading back what `str` wrote gives the number again. */
  lemma {:induction false} ParseNatToString(n: nat)
    ensures ParseDigits(NatToString(n)) == n
  {
    var s := NatToString(n);
    if n >= 10 {
      assert s[..|s| - 1] == NatToString(n / 10);
      ParseNatToString(n / 10);
    } else {
      assert s[..|s| - 1] == [];
    }
  }

  /** Different numbers have different decimal representations. */
  lemma {:induction false} NatToStringInjective(m: nat, n: nat)
    requires NatToString(m) == NatToString(n)
    ensures m == n
  {
    ParseNatToString(m);
    ParseNatToString(n);
  }
}

/** The fragments of Python's `str` behaviour the application relies on,
    over `string` (a sequence of characters): lower-casing, substring tests,
    `replace(pat, '')`, `split('.')`, `strip()` and `endswith`. */
module Strings {

  /** `str.lower()` on one character; only ASCII letters are mapped. */
  function LowerChar(c: char): (r: char)
    ensures !('A' <= r <= 'Z')
    ensures !('A' <= c <= 'Z') ==> r == c
  {
    if 'A' <= c <= 'Z' then (c as int + 32) as char else c
  }

  /** True when the text has no upper-case ASCII letter. */
  predicate IsLower(s: string) {
    forall i :: 0 <= i < |s| ==> !('A' <= s[i] <= 'Z')
  }

  /** `str.lower()`, character by character. */
  function Lower(s: string): (r: string)
    ensures |r| == |s|
  {
    if |s| == 0 then "" else [LowerChar(s[0])] + Lower(s[1..])
  }

  /** Each character of the lower-case form is its character lower-cased,
      so the form has no upper-case letter. */
  lemma {:induction false} LowerSpec(s: string)
    ensures forall i :: 0 <= i < |s| ==> Lower(s)[i] == LowerChar(s[i])
    ensures IsLower(Lower(s))
    decreases |s|
  {
    if |s| > 0 {
      LowerSpec(s[1..]);
      assert Lower(s) == [LowerChar(s[0])] + Lower(s[1..]);
      forall i | 0 < i < |s| ensures Lower(s)[i] == LowerChar(s[i]) {
        assert Lower(s)[i] == Lower(s[1..])[i - 1];
      }
    }
  }

  lemma LowerIdempotent(s: string)
    ensures Lower(Lower(s)) == Lower(s)
  {
    LowerSpec(s);
    LowerOfLower(Lower(s));
  }

  /** Lower-casing text that is already lower-case changes nothing. */
  lemma LowerOfLower(s: string)
    requires IsLower(s)
    ensures Lower(s) == s
  {
    LowerSpec(s);
  }

  /** Texts that agree character by character after lower-casing have the
      same lower-case form. */
  lemma LowerAgree(s: string, t: string)
    requires |s| == |t|
    requires forall i :: 0 <= i < |s| ==> LowerChar(s[i]) == LowerChar(t[i])
    ensures Lower(s) == Lower(t)
  {
    LowerSpec(s);
    LowerSpec(t);
  }

  lemma LowerConcat(a: string, b: string)
    ensures Lower(a + b) == Lower(a) + Lower(b)
  {
    LowerSpec(a);
    LowerSpec(b);
    LowerSpec(a + b);
    var l, r := Lower(a + b), Lower(a) + Lower(b);
    forall i | 0 <= i < |l| ensures l[i] == r[i] {
      if i >= |a| {
        assert (a + b)[i] == b[i - |a|];
      }
    }
  }

  /** Every name's lower-case form has no upper-case letter. */
  lemma AllLowerCased(names: seq<string>)
    ensures forall i :: 0 <= i < |names| ==> IsLower(Lower(names[i]))
  {
    forall i | 0 <= i < |names| ensures IsLower(Lower(names[i])) {
      LowerSpec(names[i]);
    }
  }

  /** `needle` occurs in `hay` starting at index `i`. */
  predicate OccursAt(hay: string, needle: string, i: int) {
    0 <= i && i + |needle| <= |hay| && hay[i..i + |needle|] == needle
  }

  /** Python's `needle in hay` for strings. */
  predicate Contains(hay: string, needle: string) {
    exists i | 0 <= i <= |hay| :: OccursAt(hay, needle, i)
  }

  /** The empty string occurs in every string. */
  lemma ContainsEmpty(hay: string)
    ensures Contains(hay, "")
  {
    assert OccursAt(hay, "", 0);
  }

  /** `s.endswith(suffix)`. */
  predicate EndsWith(s: string, suffix: string) {
    |suffix| <= |s| && s[|s| - |suffix|..] == suffix
  }

  /** `s.replace(pat, '')`: occurrences are removed left to right without
      overlapping, and the text left behind is not scanned again. */
  function RemoveAll(s: string, pat: string): (r: string)
    requires |pat| > 0
    ensures |r| <= |s|
    decreases |s|
  {
    if |s| < |pat| then s
    else if s[..|pat|] == pat then RemoveAll(s[|pat|..], pat)
    else [s[0]] + RemoveAll(s[1..], pat)
  }

  /** No occurrence of `pat` can start inside `x` and end inside `y`:
      no proper suffix of `pat` begins `y`. */
  predicate NoStraddle(pat: string, y: string) {
    forall k :: 0 < k < |pat| && |pat| - k <= |y| ==> pat[k..] != y[..|pat| - k]
  }

  /** An occurrence at the start of `x + y` that is longer than `x` puts a
      suffix of `pat` at the start of `y`. */
  lemma StraddleAt(x: string, y: string, pat: string)
    requires 0 < |x| < |pat| <= |x + y|
    requires (x + y)[..|pat|] == pat
    ensures pat[|x|..] == y[..|pat| - |x|]
  {
    var k := |x|;
    forall j | 0 <= j < |pat| - k
      ensures pat[k..][j] == y[..|pat| - k][j]
    {
      assert pat[k + j] == (x + y)[k + j];
    }
  }

  /** A `y` whose first character occurs nowhere in `pat` past its first
      place cannot complete a straddling occurrence. */
  lemma NoStraddleByHead(pat: string, y: string)
    requires |pat| > 0 && |y| > 0 && y[0] !in pat[1..]
    ensures NoStraddle(pat, y)
  {
    forall k | 0 < k < |pat| && |pat| - k <= |y|
      ensures pat[k..] != y[..|pat| - k]
    {
      assert pat[k] == pat[1..][k - 1];
      assert pat[k..][0] != y[..|pat| - k][0];
    }
  }

  /** When no occurrence can straddle the seam, removal distributes over
      concatenation. */
  lemma {:induction false} RemoveAllConcat(x: string, y: string, pat: string)
    requires |pat| > 0
    requires NoStraddle(pat, y)
    ensures RemoveAll(x + y, pat) == RemoveAll(x, pat) + RemoveAll(y, pat)
    decreases |x|
  {
    var n := |pat|;
    if |x| == 0 {
      assert x + y == y;
    } else if |x + y| < n {
    } else if (x + y)[..n] == pat {
      if |x| >= n {
        assert x[..n] == pat;
        assert (x + y)[n..] == x[n..] + y;
        RemoveAllConcat(x[n..], y, pat);
      } else {
        StraddleAt(x, y, pat);
        assert false;
      }
    } else {
      assert (x + y)[1..] == x[1..] + y;
      RemoveAllConcat(x[1..], y, pat);
      if |x| >= n {
        assert x[..n] == (x + y)[..n];
      } else {
        assert [x[0]] + x[1..] == x;
      }
    }
  }

  /** Python's `replace` does not remove occurrences that its own removals
      bring together: one ".exe" survives here. */
  lemma RemoveAllIsSinglePass()
    ensures RemoveAll("a..exeexe", ".exe") == "a.exe"
  {
    var pat := ".exe";
    assert RemoveAll("exe", pat) == "exe";
    assert RemoveAll(".exeexe", pat) == "exe";
    assert RemoveAll("..exeexe", pat) == "." + RemoveAll(".exeexe", pat);
    assert RemoveAll("a..exeexe", pat) == "a" + RemoveAll("..exeexe", pat);
  }

  /** Python's `split` with a one-character separator: always at least one
      piece, possibly empty. */
  function Split(s: string, sep: char): (parts: seq<string>)
    ensures |parts| >= 1
    ensures forall j :: 0 <= j < |parts| ==> sep !in parts[j]
    decreases |s|
  {
    if |s| == 0 then [""]
    else if s[0] == sep then [""] + Split(s[1..], sep)
    else
      var rest := Split(s[1..], sep);
      [[s[0]] + rest[0]] + rest[1..]
  }

  /** `sep.join(parts)`. */
  function Join(parts: seq<string>, sep: char): string
    requires |parts| >= 1
    decreases |parts|
  {
    if |parts| == 1 then parts[0] else parts[0] + [sep] + Join(parts[1..], sep)
  }

  /** Joining the pieces of a split gives back the text. */
  lemma {:induction false} JoinSplit(s: string, sep: char)
    ensures Join(Split(s, sep), sep) == s
    decreases |s|
  {
    if |s| == 0 {
    } else if s[0] == sep {
      JoinSplit(s[1..], sep);
      var parts := [""] + Split(s[1..], sep);
      assert parts[1..] == Split(s[1..], sep);
      assert s == [s[0]] + s[1..];
    } else {
      JoinSplit(s[1..], sep);
      var rest := Split(s[1..], sep);
      var parts := [[s[0]] + rest[0]] + rest[1..];
      assert s == [s[0]] + s[1..];
      if |rest| == 1 {
      } else {
        assert parts[1..] == rest[1..];
      }
    }
  }

  /** Splitting separator-free text gives one piece. */
  lemma {:induction false} SplitNoSep(s: string, sep: char)
    requires sep !in s
    ensures Split(s, sep) == [s]
    decreases |s|
  {
    if |s| > 0 {
      SplitNoSep(s[1..], sep);
      assert s == [s[0]] + s[1..];
    }
  }

  /** A separator-free piece followed by the separator splits off first. */
  lemma {:induction false} SplitPiece(p: string, sep: char, x: string)
    requires sep !in p
    ensures Split(p + [sep] + x, sep) == [p] + Split(x, sep)
    decreases |p|
  {
    if |p| == 0 {
      assert p + [sep] + x == [sep] + x;
      assert ([sep] + x)[1..] == x;
    } else {
      assert (p + [sep] + x)[1..] == p[1..] + [sep] + x;
      SplitPiece(p[1..], sep, x);
      assert [p[0]] + p[1..] == p;
    }
  }

  /** Splitting joined separator-free pieces gives back the pieces. */
  lemma {:induction false} SplitJoin(parts: seq<string>, sep: char)
    requires |parts| >= 1
    requires forall j :: 0 <= j < |parts| ==> sep !in parts[j]
    ensures Split(Join(parts, sep), sep) == parts
    decreases |parts|
  {
    if |parts| == 1 {
      SplitNoSep(parts[0], sep);
    } else {
      SplitJoin(parts[1..], sep);
      SplitPiece(parts[0], sep, Join(parts[1..], sep));
      assert [parts[0]] + parts[1..] == parts;
    }
  }

  /** `str.isspace()` for one character: the characters Python's `strip()`
      removes when called without arguments. */
  predicate IsSpace(c: char) {
    || c == ' '
    || '\t' <= c <= '\r'
    || '\U{1C}' <= c <= '\U{1F}'
    || c == '\U{85}' || c == '\U{A0}' || c == '\U{1680}'
    || '\U{2000}' <= c <= '\U{200A}'
    || c == '\U{2028}' || c == '\U{2029}' || c == '\U{202F}'
    || c == '\U{205F}' || c == '\U{3000}'
  }

  predicate AllSpace(s: string) {
    forall i :: 0 <= i < |s| ==> IsSpace(s[i])
  }

  /** `s.lstrip()`: the suffix left after dropping leading whitespace. */
  function StripLeft(s: string): (r: string)
    ensures |r| <= |s| && r == s[|s| - |r|..]
    ensures AllSpace(s[..|s| - |r|])
    ensures |r| == 0 || !IsSpace(r[0])
    decreases |s|
  {
    if |s| > 0 && IsSpace(s[0]) then
      var r := StripLeft(s[1..]);
      SpaceThenSpaces(s, |s| - |r|);
      r
    else s
  }

  /** A whitespace character followed by whitespace is whitespace. */
  lemma SpaceThenSpaces(s: string, m: int)
    requires 1 <= m <= |s| && IsSpace(s[0]) && AllSpace(s[1..][..m - 1])
    ensures AllSpace(s[..m])
  {
    forall i | 1 <= i < m
      ensures IsSpace(s[i])
    {
      assert s[i] == s[1..][..m - 1][i - 1];
    }
  }

  /** Whitespace followed by a whitespace character is whitespace. */
  lemma SpacesThenSpace(s: string, m: int)
    requires 0 <= m < |s| && IsSpace(s[|s| - 1]) && AllSpace(s[..|s| - 1][m..])
    ensures AllSpace(s[m..])
  {
    forall i | m <= i < |s| - 1
      ensures IsSpace(s[i])
    {
      assert s[i] == s[..|s| - 1][m..][i - m];
    }
  }

  /** `s.rstrip()`: the prefix left after dropping trailing whitespace. */
  function StripRight(s: string): (r: string)
    ensures |r| <= |s| && r == s[..|r|]
    ensures AllSpace(s[|r|..])
    ensures |r| == 0 || !IsSpace(r[|r| - 1])
    decreases |s|
  {
    if |s| > 0 && IsSpace(s[|s| - 1]) then
      var r := StripRight(s[..|s| - 1]);
      SpacesThenSpace(s, |r|);
      r
    else s
  }

  /** `s` is the text `r` at position `i` with only whitespace around it. */
  predicate PaddedAt(s: string, r: string, i: int) {
    0 <= i <= |s| - |r| && s[i..i + |r|] == r && AllSpace(s[..i]) && AllSpace(s[i + |r|..])
  }

  /** `s.strip()`: `s` is some whitespace, the result, then some whitespace,
      and the result neither starts nor ends with whitespace. */
  function Strip(s: string): (r: string)
    ensures exists i :: PaddedAt(s, r, i)
    ensures |r| == 0 || (!IsSpace(r[0]) && !IsSpace(r[|r| - 1]))
  {
    var left := StripLeft(s);
    var r := StripRight(left);
    StripParts(s, left, r);
    r
  }

  lemma StripParts(s: string, left: string, r: string)
    requires |left| <= |s| && left == s[|s| - |left|..] && AllSpace(s[..|s| - |left|])
    requires |r| <= |left| && r == left[..|r|] && AllSpace(left[|r|..])
    ensures PaddedAt(s, r, |s| - |left|)
  {
    var i := |s| - |left|;
    assert s[i..i + |r|] == left[..|r|];
    assert s[i + |r|..] == left[|r|..];
  }

  /** `s.strip()` is empty exactly when `s` is all whitespace. */
  lemma StripEmptyIffAllSpace(s: string)
    ensures Strip(s) == "" <==> AllSpace(s)
  {
    var r := Strip(s);
    if r == "" {
      var i :| PaddedAt(s, r, i);
      forall k | 0 <= k < |s| ensures IsSpace(s[k]) {
        if k < i { assert s[..i][k] == s[k]; } else { assert s[i..][k - i] == s[k]; }
      }
    }
  }

  /** Leading whitespace is dropped up to the first other character. */
  lemma {:induction false} StripLeftPadded(ws: string, a: string)
    requires AllSpace(ws)
    requires |a| == 0 || !IsSpace(a[0])
    ensures StripLeft(ws + a) == a
    decreases |ws|
  {
    if |ws| > 0 {
      assert (ws + a)[1..] == ws[1..] + a;
      StripLeftPadded(ws[1..], a);
    } else {
      assert ws + a == a;
    }
  }

  /** Trailing whitespace is dropped back to the last other character. */
  lemma {:induction false} StripRightPadded(a: string, ws: string)
    requires AllSpace(ws)
    requires |a| == 0 || !IsSpace(a[|a| - 1])
    ensures StripRight(a + ws) == a
    decreases |ws|
  {
    if |ws| > 0 {
      assert (a + ws)[..|a + ws| - 1] == a + ws[..|ws| - 1];
      assert (a + ws)[|a + ws| - 1] == ws[|ws| - 1];
      StripRightPadded(a, ws[..|ws| - 1]);
    } else {
      assert a + ws == a;
    }
  }

  /** `strip()` undoes any whitespace padding of a text that neither starts
      nor ends with whitespace. */
  lemma StripPadded(left: string, a: string, right: string)
    requires AllSpace(left) && AllSpace(right)
    requires |a| == 0 || (!IsSpace(a[0]) && !IsSpace(a[|a| - 1]))
    ensures Strip(left + a + right) == a
  {
    if |a| == 0 {
      assert left + a + right == left + right;
      assert AllSpace(left + right) by {
        forall k | 0 <= k < |left + right| ensures IsSpace((left + right)[k]) {
          if k >= |left| { assert (left + right)[k] == right[k - |left|]; }
        }
      }
      StripEmptyIffAllSpace(left + right);
    } else {
      assert left + a + right == left + (a + right);
      assert (a + right)[0] == a[0];
      StripLeftPadded(left, a + right);
      StripRightPadded(a, right);
    }
  }
}

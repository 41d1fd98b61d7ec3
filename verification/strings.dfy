/** The JavaScript string built-ins the application relies on, over `seq<char>`:
    substring search, `split` on a one-character separator, global literal
    `replace` with the empty string, and `trim`. */
module Strings {

  /** `p` occurs in `s` starting at index `i`. */
  predicate OccursAt(s: string, p: string, i: int) {
    0 <= i && i + |p| <= |s| && s[i..i + |p|] == p
  }

  /** `p` occurs somewhere in `s`. */
  predicate Contains(s: string, p: string) {
    exists i :: 0 <= i <= |s| && OccursAt(s, p, i)
  }

  predicate IsPrefix(p: string, s: string) {
    |p| <= |s| && s[..|p|] == p
  }

  predicate IsSuffix(p: string, s: string) {
    |p| <= |s| && s[|s| - |p|..] == p
  }

  /** An occurrence inside a slice is an occurrence in the whole string. */
  lemma OccursInSlice(s: string, lo: int, hi: int, p: string, i: int)
    requires 0 <= lo <= hi <= |s|
    requires OccursAt(s[lo..hi], p, i)
    ensures OccursAt(s, p, lo + i)
  {
    forall k | 0 <= k < |p|
      ensures s[lo + i..lo + i + |p|][k] == p[k]
    {
      assert s[lo..hi][i..i + |p|][k] == p[k];
    }
  }

  /** A string without `p` has no slice containing `p`. */
  lemma NotContainsSlice(s: string, lo: int, hi: int, p: string)
    requires 0 <= lo <= hi <= |s|
    requires !Contains(s, p)
    ensures !Contains(s[lo..hi], p)
  {
    if Contains(s[lo..hi], p) {
      var i :| OccursAt(s[lo..hi], p, i);
      OccursInSlice(s, lo, hi, p, i);
    }
  }

  // ---------------------------------------------------------------------------
  // String.prototype.split with a one-character separator
  // ---------------------------------------------------------------------------

  /** Concatenation of `parts` with `sep` between consecutive parts
      (`Array.prototype.join`). */
  function Join(parts: seq<string>, sep: char): string
    requires |parts| >= 1
  {
    if |parts| == 1 then parts[0] else parts[0] + [sep] + Join(parts[1..], sep)
  }

  /** `s.split(sep)`: the maximal separator-free pieces of `s`, in order. There
      is always at least one piece, and joining the pieces gives `s` back. */
  function Split(s: string, sep: char): (parts: seq<string>)
    ensures |parts| >= 1
    ensures forall k :: 0 <= k < |parts| ==> sep !in parts[k]
    ensures Join(parts, sep) == s
  {
    if |s| == 0 then [""]
    else
      var rest := Split(s[1..], sep);
      if s[0] == sep then
        assert s == [sep] + s[1..];
        [""] + rest
      else
        var parts := [[s[0]] + rest[0]] + rest[1..];
        assert s == [s[0]] + s[1..];
        assert parts[1..] == rest[1..];
        parts
  }

  /** A separator-free string splits into itself. */
  lemma {:induction false} SplitWithoutSeparator(s: string, sep: char)
    requires sep !in s
    ensures Split(s, sep) == [s]
  {
    if |s| > 0 {
      SplitWithoutSeparator(s[1..], sep);
      assert [s[0]] + s[1..] == s;
    }
  }

  /** The piece before the first separator is split off first. */
  lemma {:induction false} SplitAtFirstSeparator(a: string, sep: char, b: string)
    requires sep !in a
    ensures Split(a + [sep] + b, sep) == [a] + Split(b, sep)
  {
    var s := a + [sep] + b;
    if |a| == 0 {
      assert s[1..] == b;
    } else {
      assert s[1..] == a[1..] + [sep] + b;
      SplitAtFirstSeparator(a[1..], sep, b);
      assert [a[0]] + a[1..] == a;
    }
  }

  /** Split inverts Join on separator-free pieces: the two are a bijection
      between strings and non-empty lists of separator-free pieces. */
  lemma {:induction false} SplitJoin(parts: seq<string>, sep: char)
    requires |parts| >= 1
    requires forall k :: 0 <= k < |parts| ==> sep !in parts[k]
    ensures Split(Join(parts, sep), sep) == parts
  {
    if |parts| == 1 {
      SplitWithoutSeparator(parts[0], sep);
    } else {
      SplitJoin(parts[1..], sep);
      SplitAtFirstSeparator(parts[0], sep, Join(parts[1..], sep));
      assert [parts[0]] + parts[1..] == parts;
    }
  }

  /** `s.split(sep).pop()`: the longest suffix of `s` that holds no separator,
      i.e. the text after the last separator, or all of `s` when there is none. */
  function LastPiece(s: string, sep: char): (r: string)
    ensures IsSuffix(r, s) && sep !in r
    ensures |r| == |s| || s[|s| - |r| - 1] == sep
  {
    LastPieceIsFinalSegment(s, sep);
    var parts := Split(s, sep);
    parts[|parts| - 1]
  }

  lemma {:induction false} LastPieceIsFinalSegment(s: string, sep: char)
    ensures var parts := Split(s, sep);
      var r := parts[|parts| - 1];
      && IsSuffix(r, s)
      && sep !in r
      && (|r| == |s| || s[|s| - |r| - 1] == sep)
  {
    if |s| > 0 {
      LastPieceIsFinalSegment(s[1..], sep);
      var rest := Split(s[1..], sep);
      if s[0] != sep && |rest| == 1 {
        assert Join(rest, sep) == rest[0];
      }
    }
  }

  /** The last piece is whatever follows the final separator. */
  lemma LastPieceAfterSeparator(init: string, sep: char, last: string)
    requires sep !in last
    ensures LastPiece(init + [sep] + last, sep) == last
  {
    var s := init + [sep] + last;
    var r := LastPiece(s, sep);
    assert s[|init|] == sep;
    assert |r| == |last|;
    assert r == s[|s| - |r|..] == last;
  }

  // ---------------------------------------------------------------------------
  // String.prototype.replace(/literal/g, '')
  // ---------------------------------------------------------------------------

  /** `s.replace(/p/g, '')` for a literal pattern `p`: scanning left to right,
      every occurrence found is dropped and the scan resumes just after it, so
      matches never overlap. */
  function RemoveAll(s: string, p: string): (r: string)
    requires |p| > 0
    ensures |r| <= |s|
    decreases |s|
  {
    if |s| < |p| then s
    else if s[..|p|] == p then RemoveAll(s[|p|..], p)
    else [s[0]] + RemoveAll(s[1..], p)
  }

  /** Removing a pattern that does not occur changes nothing. */
  lemma {:induction false} RemoveAllAbsent(s: string, p: string)
    requires |p| > 0
    requires !Contains(s, p)
    ensures RemoveAll(s, p) == s
  {
    if |s| >= |p| {
      assert !OccursAt(s, p, 0);
      NotContainsSlice(s, 1, |s|, p);
      assert s[1..|s|] == s[1..];
      RemoveAllAbsent(s[1..], p);
      assert [s[0]] + s[1..] == s;
    }
  }

  /** When the scan keeps the first character of `s`, that character leads the result. */
  lemma KeptHead(s: string, p: string)
    requires |p| > 0 && |s| > 0
    requires !IsPrefix(p, s)
    ensures |RemoveAll(s, p)| > 0 && RemoveAll(s, p)[0] == s[0]
  {
  }

  /** A backtick kept at the front, before the rest of the scan, never starts a
      "```": one of the next two characters of `s` is not a backtick, and the
      scan keeps it in place. */
  lemma NoFenceAtKeptHead(s: string)
    requires |s| >= 3 && s[..3] != "```"
    ensures !OccursAt([s[0]] + RemoveAll(s[1..], "```"), "```", 0)
  {
    var f := "```";
    var t := s[1..];
    var r := [s[0]] + RemoveAll(t, f);
    assert |f| == 3 && f[0] == '`' && f[1] == '`' && f[2] == '`';
    if s[0] != '`' {
      if |r| >= 3 {
        assert r[..3][0] == r[0] != f[0];
      }
    } else if s[1] != '`' {
      KeptHead(t, f);
      if |r| >= 3 {
        assert r[..3][1] == r[1] == t[0] != f[1];
      }
    } else {
      assert s[2] != '`';
      assert !IsPrefix(f, t) by {
        if |t| >= 3 {
          assert t[..3][1] == t[1] != f[1];
        }
      }
      KeptHead(t, f);
      assert RemoveAll(t, f) == [t[0]] + RemoveAll(t[1..], f);
      KeptHead(t[1..], f);
      if |r| >= 3 {
        assert r[..3][2] == r[2] == t[1] != f[2];
      }
    }
  }

  /** No character sequence "```" survives removal of every "```": a backtick
      that the scan keeps is never followed by two kept backticks, because the
      scan would have matched there. */
  lemma {:induction false} RemoveAllFenceFree(s: string)
    ensures !Contains(RemoveAll(s, "```"), "```")
    decreases |s|
  {
    var f := "```";
    if |s| < 3 {
    } else if s[..3] == f {
      RemoveAllFenceFree(s[3..]);
    } else {
      var t := s[1..];
      var rt := RemoveAll(t, f);
      RemoveAllFenceFree(t);
      NoFenceAtKeptHead(s);
      var r := [s[0]] + rt;
      assert RemoveAll(s, f) == r;
      forall i | 0 < i <= |r|
        ensures !OccursAt(r, f, i)
      {
        if i + 3 <= |r| {
          assert r[i..i + 3] == rt[i - 1..i + 2];
          assert !OccursAt(rt, f, i - 1);
        }
      }
    }
  }

  // ---------------------------------------------------------------------------
  // String.prototype.trim
  // ---------------------------------------------------------------------------

  /** ECMAScript WhiteSpace and LineTerminator code points: what `trim` strips. */
  predicate IsJsWhitespace(c: char) {
    || c == '\t' || c == '\U{000B}' || c == '\U{000C}' || c == ' ' || c == '\U{00A0}'
    || c == '\U{FEFF}' || c == '\U{1680}' || ('\U{2000}' <= c <= '\U{200A}')
    || c == '\U{202F}' || c == '\U{205F}' || c == '\U{3000}'
    || c == '\n' || c == '\r' || c == '\U{2028}' || c == '\U{2029}'
  }

  predicate AllWhitespace(s: string) {
    forall k :: 0 <= k < |s| ==> IsJsWhitespace(s[k])
  }

  /** Neither end of `s` is whitespace. */
  predicate IsTrimmed(s: string) {
    |s| == 0 || (!IsJsWhitespace(s[0]) && !IsJsWhitespace(s[|s| - 1]))
  }

  /** Number of leading whitespace characters. */
  function LeadingWhitespace(s: string): (n: nat)
    ensures n <= |s|
    ensures AllWhitespace(s[..n])
    ensures n == |s| || !IsJsWhitespace(s[n])
  {
    if |s| > 0 && IsJsWhitespace(s[0]) then
      var n := 1 + LeadingWhitespace(s[1..]);
      assert forall k :: 1 <= k < n ==> s[..n][k] == s[1..][..n - 1][k - 1];
      n
    else 0
  }

  /** Number of trailing whitespace characters. */
  function TrailingWhitespace(s: string): (n: nat)
    ensures n <= |s|
    ensures AllWhitespace(s[|s| - n..])
    ensures n == |s| || !IsJsWhitespace(s[|s| - 1 - n])
  {
    if |s| > 0 && IsJsWhitespace(s[|s| - 1]) then
      var n := 1 + TrailingWhitespace(s[..|s| - 1]);
      assert s[|s| - n..] == s[..|s| - 1][|s| - n..] + [s[|s| - 1]];
      n
    else 0
  }

  /** `r` is `s` with whitespace-only text removed before index `i` and after `r`. */
  predicate TrimmedFrom(s: string, r: string, i: int) {
    0 <= i && i + |r| <= |s| && s[i..i + |r|] == r
    && AllWhitespace(s[..i]) && AllWhitespace(s[i + |r|..])
  }

  /** `s.trim()`: the result is trimmed and is what remains of `s` once its
      leading and trailing whitespace is cut off; together these fix it uniquely. */
  function Trim(s: string): (r: string)
    ensures IsTrimmed(r)
    ensures TrimmedFrom(s, r, LeadingWhitespace(s))
  {
    var a := LeadingWhitespace(s);
    var t := s[a..];
    var b := TrailingWhitespace(t);
    assert t[|t| - b..] == s[a + |t| - b..];
    t[..|t| - b]
  }

  /** Trimming text that is already trimmed returns it unchanged. */
  lemma TrimTrimmed(s: string)
    requires IsTrimmed(s)
    ensures Trim(s) == s
  {
  }
}

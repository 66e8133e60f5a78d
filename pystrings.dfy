/**
 * The parts of Python's `str` that the scraper relies on: `startswith`,
 * `endswith`, substring search, `replace`, `split` on one character,
 * `join`, `strip` and the decimal rendering of a natural number.
 */
module PyStrings {

  /** `s.startswith(p)` */
  predicate StartsWith(s: string, p: string) {
    |p| <= |s| && s[..|p|] == p
  }

  /** `s.endswith(p)` */
  predicate EndsWith(s: string, p: string) {
    |p| <= |s| && s[|s| - |p|..] == p
  }

  /** `p in s` for two strings: `p` occurs in `s` at some position. */
  predicate Occurs(p: string, s: string) {
    exists j :: 0 <= j <= |s| && StartsWith(s[j..], p)
  }

  lemma OccursInSuffix(p: string, s: string, k: nat)
    requires k <= |s| && Occurs(p, s[k..])
    ensures Occurs(p, s)
  {
    var j :| 0 <= j <= |s[k..]| && StartsWith(s[k..][j..], p);
    assert s[k..][j..] == s[k + j..];
  }

  lemma OccursShift(p: string, s: string, k: nat, j: nat)
    requires k <= j <= |s| && StartsWith(s[j..], p)
    ensures Occurs(p, s[k..])
  {
    assert s[k..][j - k..] == s[j..];
  }

  lemma OccursInPrefix(p: string, s: string, t: string)
    requires StartsWith(s, t) && Occurs(p, t)
    ensures Occurs(p, s)
  {
    var j :| 0 <= j <= |t| && StartsWith(t[j..], p);
    var e := j + |p|;
    assert e <= |t| <= |s|;
    assert t[j..][..|p|] == t[j..e];
    assert s[j..][..|p|] == s[j..e];
    assert s[j..e] == s[..|t|][j..e];
    assert StartsWith(s[j..], p);
  }

  lemma FirstChar(s: string, p: string)
    requires p != [] && StartsWith(s, p)
    ensures s[0] == p[0] && s[0] in p
  {
    assert s[..|p|][0] == s[0];
  }

  /** The head of `pat` that a tail of `rep` followed by `t` holds overlaps that tail. */
  lemma OverlapAt(rep: string, t: string, pat: string, j: nat)
    requires j < |rep| && StartsWith((rep + t)[j..], pat)
    ensures StartsWith(pat, rep[j..]) || StartsWith(rep[j..], pat)
  {
    var r := rep + t;
    assert r[j..] == rep[j..] + t;
    if |pat| <= |rep| - j {
      assert rep[j..][..|pat|] == r[j..][..|pat|];
    } else {
      assert pat[..|rep| - j] == r[j..][..|rep| - j];
    }
  }

  // ---------------------------------------------------------------------------
  // str.replace
  // ---------------------------------------------------------------------------

  /**
   * `s.replace(pat, rep)`: scans `s` from the left and replaces every
   * non-overlapping occurrence of `pat`; an empty `pat` matches before every
   * character and at the end, as in Python.
   */
  function Replace(s: string, pat: string, rep: string): string
    decreases |s|
  {
    if pat == [] then
      rep + (if s == [] then [] else [s[0]] + Replace(s[1..], pat, rep))
    else if StartsWith(s, pat) then
      rep + Replace(s[|pat|..], pat, rep)
    else if s == [] then
      []
    else
      [s[0]] + Replace(s[1..], pat, rep)
  }

  /** A string in which `pat` does not occur comes back from `Replace` unchanged. */
  lemma {:induction false} ReplaceAbsent(s: string, pat: string, rep: string)
    requires pat != [] && !Occurs(pat, s)
    ensures Replace(s, pat, rep) == s
  {
    if s != [] {
      assert s[0..] == s;
      assert !StartsWith(s, pat);
      if Occurs(pat, s[1..]) {
        OccursInSuffix(pat, s, 1);
      }
      ReplaceAbsent(s[1..], pat, rep);
    }
  }

  /**
   * Replacing `pat` by `rep` cannot create a new occurrence of `pat`:
   * `rep` is non-empty, its first character does not occur in `pat`, and no
   * tail of `rep` overlaps the head of `pat` in either direction.
   */
  predicate Compatible(pat: string, rep: string) {
    && pat != []
    && rep != []
    && rep[0] !in pat
    && forall j :: 0 <= j < |rep| ==> !StartsWith(pat, rep[j..]) && !StartsWith(rep[j..], pat)
  }

  /**
   * A way to show `Compatible`: some character `pat[k]` never occurs in
   * `rep`, and `pat[0]` does not occur in the last `k` characters of `rep`.
   */
  lemma CompatibleByMarker(pat: string, rep: string, k: nat)
    requires k < |pat| && rep != [] && rep[0] !in pat
    requires pat[k] !in rep
    requires k <= |rep| && pat[0] !in rep[|rep| - k..]
    ensures Compatible(pat, rep)
  {
    forall j | 0 <= j < |rep|
      ensures !StartsWith(pat, rep[j..]) && !StartsWith(rep[j..], pat)
    {
      if j + k < |rep| {
        assert rep[j..][k] == rep[j + k];
      } else {
        assert rep[j..][0] == rep[|rep| - k..][j - (|rep| - k)];
      }
    }
  }

  /**
   * A prefix `q` of `Replace(x, pat, rep)` that avoids the first character of
   * `rep` was copied from `x`: no replacement happened inside it.
   */
  lemma {:induction false} ReplaceKeepsPrefix(x: string, pat: string, rep: string, q: string)
    requires pat != [] && rep != [] && rep[0] !in q
    requires StartsWith(Replace(x, pat, rep), q)
    ensures StartsWith(x, q)
    decreases |x|
  {
    var r := Replace(x, pat, rep);
    if q == [] {
    } else if StartsWith(x, pat) {
      FirstChar(r, rep);
      FirstChar(r, q);
      assert false;
    } else if x == [] {
      assert false;
    } else {
      var t := Replace(x[1..], pat, rep);
      assert r == [x[0]] + t;
      assert r[1..][..|q| - 1] == q[1..];
      assert StartsWith(t, q[1..]);
      ReplaceKeepsPrefix(x[1..], pat, rep, q[1..]);
      assert x[..|q|] == [x[0]] + x[1..][..|q| - 1];
    }
  }

  /** After `Replace` with a compatible pair, `pat` no longer occurs anywhere. */
  lemma {:induction false} ReplaceRemovesAll(s: string, pat: string, rep: string)
    requires Compatible(pat, rep)
    ensures !Occurs(pat, Replace(s, pat, rep))
    decreases |s|
  {
    var r := Replace(s, pat, rep);
    if StartsWith(s, pat) {
      var t := Replace(s[|pat|..], pat, rep);
      ReplaceRemovesAll(s[|pat|..], pat, rep);
      assert r == rep + t;
      assert r[|rep|..] == t;
      if Occurs(pat, r) {
        var j :| 0 <= j <= |r| && StartsWith(r[j..], pat);
        if j < |rep| {
          OverlapAt(rep, t, pat, j);
          assert false;
        } else {
          OccursShift(pat, r, |rep|, j);
          assert false;
        }
      }
    } else if s != [] {
      var t := Replace(s[1..], pat, rep);
      ReplaceRemovesAll(s[1..], pat, rep);
      assert r == [s[0]] + t;
      assert r[1..] == t;
      if Occurs(pat, r) {
        var j :| 0 <= j <= |r| && StartsWith(r[j..], pat);
        if j == 0 {
          assert r[..|pat|] == pat;
          assert t[..|pat| - 1] == pat[1..];
          assert StartsWith(t, pat[1..]);
          assert rep[0] !in pat[1..];
          ReplaceKeepsPrefix(s[1..], pat, rep, pat[1..]);
          assert false;
        } else {
          OccursShift(pat, r, 1, j);
          assert false;
        }
      }
    }
  }

  // ---------------------------------------------------------------------------
  // str.split(sep) and sep.join(parts)
  // ---------------------------------------------------------------------------

  /** `s.split(sep)` for a one-character separator: the pieces between the separators. */
  function Split(s: string, sep: char): (parts: seq<string>)
    ensures |parts| >= 1
  {
    if s == [] then
      [[]]
    else
      var rest := Split(s[1..], sep);
      if s[0] == sep then
        [[]] + rest
      else
        [[s[0]] + rest[0]] + rest[1..]
  }

  /** No piece of a split holds the separator. */
  lemma {:induction false} SplitNoSeparator(s: string, sep: char)
    ensures forall i :: 0 <= i < |Split(s, sep)| ==> sep !in Split(s, sep)[i]
  {
    if s != [] {
      var rest := Split(s[1..], sep);
      SplitNoSeparator(s[1..], sep);
      if s[0] != sep {
        assert sep !in [s[0]] + rest[0];
      }
    }
  }

  /** The first piece is what precedes the first separator (all of `s` when there is none). */
  lemma {:induction false} SplitFirst(s: string, sep: char)
    ensures var first := Split(s, sep)[0];
      StartsWith(s, first) && (first == s || s[|first|] == sep)
  {
    if s != [] && s[0] != sep {
      var rest := Split(s[1..], sep);
      SplitFirst(s[1..], sep);
      var first := [s[0]] + rest[0];
      assert Split(s, sep)[0] == first;
      assert s[..|first|] == [s[0]] + s[1..][..|rest[0]|];
      if rest[0] != s[1..] {
        assert s[|first|] == s[1..][|rest[0]|];
      } else {
        assert first == s;
      }
    }
  }

  /** The last piece is what follows the last separator (all of `s` when there is none). */
  lemma SplitLast(s: string, sep: char)
    ensures var parts := Split(s, sep);
      var last := parts[|parts| - 1];
      EndsWith(s, last) && (last == s || s[|s| - |last| - 1] == sep)
  {
    JoinSplit(s, sep);
    LastOfJoin(s, sep, Split(s, sep));
  }

  /** In a string joined from pieces, the last piece ends it and follows a separator, if it is not all of it. */
  lemma LastOfJoin(s: string, sep: char, parts: seq<string>)
    requires |parts| >= 1 && Join(parts, [sep]) == s
    ensures var last := parts[|parts| - 1];
      EndsWith(s, last) && (last == s || s[|s| - |last| - 1] == sep)
  {
    if |parts| >= 2 {
      JoinLast(parts, [sep]);
      SeparatedSuffix(s, sep, parts[|parts| - 1]);
    }
  }

  lemma SeparatedSuffix(s: string, sep: char, last: string)
    requires EndsWith(s, [sep] + last)
    ensures EndsWith(s, last) && |last| < |s| && s[|s| - |last| - 1] == sep
  {
    assert s[|s| - |last| - 1..] == [sep] + last;
    assert s[|s| - |last|..] == ([sep] + last)[1..];
  }

  /** A split has a single piece exactly when the separator does not occur. */
  lemma {:induction false} SplitSingle(s: string, sep: char)
    ensures |Split(s, sep)| == 1 <==> sep !in s
  {
    if s != [] {
      SplitSingle(s[1..], sep);
      assert s == [s[0]] + s[1..];
    }
  }

  /**
   * No piece holds the separator; the first piece is what precedes the
   * first separator and the last piece what follows the last one; there is
   * a single piece exactly when the separator does not occur.
   */
  lemma SplitPieces(s: string, sep: char)
    ensures var parts := Split(s, sep);
      && (forall i :: 0 <= i < |parts| ==> sep !in parts[i])
      && StartsWith(s, parts[0]) && (parts[0] == s || s[|parts[0]|] == sep)
      && EndsWith(s, parts[|parts| - 1])
      && (parts[|parts| - 1] == s || s[|s| - |parts[|parts| - 1]| - 1] == sep)
      && (|parts| == 1 <==> sep !in s)
  {
    SplitNoSeparator(s, sep);
    SplitFirst(s, sep);
    SplitLast(s, sep);
    SplitSingle(s, sep);
  }

  /** `sep.join(parts)` */
  function Join(parts: seq<string>, sep: string): string
  {
    if |parts| == 0 then []
    else if |parts| == 1 then parts[0]
    else parts[0] + sep + Join(parts[1..], sep)
  }

  /** The join of two or more pieces ends with the separator and the last piece. */
  lemma {:induction false} JoinLast(parts: seq<string>, sep: string)
    requires |parts| >= 2
    ensures EndsWith(Join(parts, sep), sep + parts[|parts| - 1])
  {
    var tail := sep + parts[|parts| - 1];
    var rest := Join(parts[1..], sep);
    assert Join(parts, sep) == parts[0] + sep + rest;
    if |parts| == 2 {
      assert rest == parts[1];
    } else {
      JoinLast(parts[1..], sep);
      assert EndsWith(rest, tail);
      assert (parts[0] + sep + rest)[|parts[0] + sep + rest| - |tail|..] == rest[|rest| - |tail|..];
    }
  }

  /** Joining the pieces of a split with the separator gives back the string. */
  lemma {:induction false} JoinSplit(s: string, sep: char)
    ensures Join(Split(s, sep), [sep]) == s
  {
    if s != [] {
      var rest := Split(s[1..], sep);
      JoinSplit(s[1..], sep);
      if s[0] == sep {
        assert ([[]] + rest)[1..] == rest;
      } else if |rest| > 1 {
        var parts := [[s[0]] + rest[0]] + rest[1..];
        assert parts[1..] == rest[1..];
        assert Join(rest, [sep]) == rest[0] + [sep] + Join(rest[1..], [sep]);
      }
    }
  }

  lemma {:induction false} SplitAfterPiece(a: string, sep: char, b: string)
    requires sep !in a
    ensures Split(a + [sep] + b, sep) == [a] + Split(b, sep)
  {
    if a == [] {
      assert ([] + [sep] + b)[1..] == b;
    } else {
      assert (a + [sep] + b)[1..] == a[1..] + [sep] + b;
      SplitAfterPiece(a[1..], sep, b);
      assert [a[0]] + a[1..] == a;
    }
  }

  /**
   * Splitting the join of separator-free pieces gives back the pieces: with
   * JoinSplit, split and join are inverse to each other.
   */
  lemma {:induction false} SplitJoin(parts: seq<string>, sep: char)
    requires |parts| >= 1
    requires forall i :: 0 <= i < |parts| ==> sep !in parts[i]
    ensures Split(Join(parts, [sep]), sep) == parts
  {
    if |parts| == 1 {
      SplitPieces(parts[0], sep);
    } else {
      SplitJoin(parts[1..], sep);
      SplitAfterPiece(parts[0], sep, Join(parts[1..], [sep]));
      assert [parts[0]] + parts[1..] == parts;
    }
  }

  // ---------------------------------------------------------------------------
  // str.strip()
  // ---------------------------------------------------------------------------

  /** The characters for which Python's `str.isspace` holds; `strip()` removes these. */
  predicate IsSpace(ch: char) {
    || ('\U{9}' <= ch <= '\U{D}')
    || ('\U{1C}' <= ch <= '\U{20}')
    || ch == '\U{85}' || ch == '\U{A0}' || ch == '\U{1680}'
    || ('\U{2000}' <= ch <= '\U{200A}')
    || ch == '\U{2028}' || ch == '\U{2029}' || ch == '\U{202F}'
    || ch == '\U{205F}' || ch == '\U{3000}'
  }

  /** Every character of `s` is white space. */
  predicate AllSpace(s: string) {
    forall i :: 0 <= i < |s| ==> IsSpace(s[i])
  }

  /** `s.lstrip()` */
  function TrimLeft(s: string): string {
    if s != [] && IsSpace(s[0]) then TrimLeft(s[1..]) else s
  }

  /** `s.rstrip()` */
  function TrimRight(s: string): string {
    if s != [] && IsSpace(s[|s| - 1]) then TrimRight(s[..|s| - 1]) else s
  }

  /** `s.strip()` */
  function Strip(s: string): string {
    TrimRight(TrimLeft(s))
  }

  /** `lstrip()` drops the leading white space and nothing else. */
  lemma {:induction false} TrimLeftMeaning(s: string)
    ensures var r := TrimLeft(s);
      && EndsWith(s, r) && AllSpace(s[..|s| - |r|])
      && (r == [] || !IsSpace(r[0]))
  {
    if s != [] && IsSpace(s[0]) {
      TrimLeftMeaning(s[1..]);
      var r := TrimLeft(s);
      assert s[..|s| - |r|] == [s[0]] + s[1..][..|s| - 1 - |r|];
    }
  }

  /** `rstrip()` drops the trailing white space and nothing else. */
  lemma {:induction false} TrimRightMeaning(s: string)
    ensures var r := TrimRight(s);
      && StartsWith(s, r) && AllSpace(s[|r|..])
      && (r == [] || !IsSpace(r[|r| - 1]))
  {
    if s != [] && IsSpace(s[|s| - 1]) {
      TrimRightMeaning(s[..|s| - 1]);
      var r := TrimRight(s);
      assert s[|r|..] == s[..|s| - 1][|r|..] + [s[|s| - 1]];
    }
  }

  /**
   * `strip()` keeps a middle part of the string: what it drops on either
   * side is white space, and neither end of what it keeps is.
   */
  lemma StripMeaning(s: string)
    ensures var r := Strip(s);
      && Occurs(r, s)
      && (r == [] || (!IsSpace(r[0]) && !IsSpace(r[|r| - 1])))
  {
    var l := TrimLeft(s);
    var r := TrimRight(l);
    TrimLeftMeaning(s);
    TrimRightMeaning(l);
    var k := |s| - |l|;
    assert s[k..] == l;
    assert StartsWith(s[k..], r);
  }

  lemma {:induction false} TrimLeftExact(a: string, m: string)
    requires AllSpace(a) && (m == [] || !IsSpace(m[0]))
    ensures TrimLeft(a + m) == m
  {
    if a != [] {
      assert (a + m)[1..] == a[1..] + m;
      TrimLeftExact(a[1..], m);
    } else {
      assert a + m == m;
    }
  }

  lemma {:induction false} TrimRightExact(m: string, b: string)
    requires AllSpace(b) && (m == [] || !IsSpace(m[|m| - 1]))
    ensures TrimRight(m + b) == m
  {
    if b != [] {
      assert (m + b)[..|m + b| - 1] == m + b[..|b| - 1];
      TrimRightExact(m, b[..|b| - 1]);
    } else {
      assert m + b == m;
    }
  }

  /**
   * `strip()` removes exactly the white space around the text: a string made
   * of white space, a text with non-blank ends, and white space strips to that text.
   */
  lemma StripExact(a: string, m: string, b: string)
    requires AllSpace(a) && AllSpace(b)
    requires m == [] || (!IsSpace(m[0]) && !IsSpace(m[|m| - 1]))
    ensures Strip(a + m + b) == m
  {
    if m == [] {
      assert a + m + b == a + b;
      assert AllSpace(a + b);
      TrimLeftExact(a + b, []);
      assert a + b + [] == a + b;
    } else {
      assert a + m + b == a + (m + b);
      TrimLeftExact(a, m + b);
      TrimRightExact(m, b);
    }
  }

  /** Stripping twice is stripping once. */
  lemma StripIdempotent(s: string)
    ensures Strip(Strip(s)) == Strip(s)
  {
    var m := Strip(s);
    StripMeaning(s);
    StripExact([], m, []);
    assert [] + m + [] == m;
  }

  // ---------------------------------------------------------------------------
  // str(n) for a natural number
  // ---------------------------------------------------------------------------

  predicate IsDigit(ch: char) {
    '0' <= ch <= '9'
  }

  function DigitChar(d: nat): (ch: char)
    requires d < 10
    ensures IsDigit(ch) && ch as int - '0' as int == d
  {
    ('0' as int + d) as char
  }

  /** `str(n)` (also `f'{n}'`): the decimal digits of `n`, without leading zeros. */
  function NatToString(n: nat): (r: string)
    ensures |r| >= 1 && forall i :: 0 <= i < |r| ==> IsDigit(r[i])
    ensures n < 10 <==> |r| == 1
  {
    if n < 10 then [DigitChar(n)] else NatToString(n / 10) + [DigitChar(n % 10)]
  }

  /** Different numbers are written differently. */
  lemma {:induction false} NatToStringInjective(m: nat, n: nat)
    requires NatToString(m) == NatToString(n)
    ensures m == n
  {
    var a, b := NatToString(m), NatToString(n);
    if m >= 10 && n >= 10 {
      assert a[..|a| - 1] == NatToString(m / 10);
      assert b[..|b| - 1] == NatToString(n / 10);
      NatToStringInjective(m / 10, n / 10);
      assert a[|a| - 1] == DigitChar(m % 10);
      assert b[|b| - 1] == DigitChar(n % 10);
    } else {
      assert a[0] == DigitChar(m) || m >= 10;
    }
  }
}

/** String helpers shared by the content pipeline: the JavaScript string
    operations the build scripts use (toLowerCase, trim, split, endsWith,
    replace with a global pattern, localeCompare), stated over `seq<char>`. */
module Text {

  /** JavaScript's `\s` class (also the set `String.prototype.trim` strips). */
  predicate IsSpace(c: char) {
    var n := c as int;
    n == 32 || 9 <= n <= 13 || n == 0xA0 || n == 0x1680 || 0x2000 <= n <= 0x200A ||
    n == 0x2028 || n == 0x2029 || n == 0x202F || n == 0x205F || n == 0x3000 || n == 0xFEFF
  }

  predicate IsUpper(c: char) { 'A' <= c <= 'Z' }

  predicate IsDigit(c: char) { '0' <= c <= '9' }

  /** JavaScript's `\w` class: ASCII letters, digits and underscore. */
  predicate IsWordChar(c: char) {
    'a' <= c <= 'z' || IsUpper(c) || IsDigit(c) || c == '_'
  }

  /** `toLowerCase` on one character (ASCII letters only). */
  function Lower(c: char): (r: char)
    ensures !IsUpper(r)
    ensures !IsUpper(c) ==> r == c
  {
    if IsUpper(c) then (c as int + 32) as char else c
  }

  function LowerStr(s: string): (r: string)
    ensures |r| == |s|
    ensures forall i :: 0 <= i < |s| ==> r[i] == Lower(s[i])
  {
    seq(|s|, i requires 0 <= i < |s| => Lower(s[i]))
  }

  /** `toLowerCase` works character by character. */
  lemma LowerStrConcat(a: string, b: string)
    ensures LowerStr(a + b) == LowerStr(a) + LowerStr(b)
  {
  }

  /** `trimStart`: drops the leading whitespace run. */
  function TrimStart(s: string): (r: string)
    ensures |r| <= |s|
    ensures s != [] && IsSpace(s[0]) ==> |r| < |s|
  {
    if s != [] && IsSpace(s[0]) then TrimStart(s[1..]) else s
  }

  /** `trimEnd`: drops the trailing whitespace run. */
  function TrimEnd(s: string): (r: string)
    ensures |r| <= |s|
  {
    if s != [] && IsSpace(s[|s| - 1]) then TrimEnd(s[..|s| - 1]) else s
  }

  /** `trim`. */
  function Trim(s: string): string {
    TrimEnd(TrimStart(s))
  }

  /** `trimStart` removes exactly the leading whitespace. */
  lemma {:induction false} TrimStartSpec(s: string)
    ensures var r := TrimStart(s);
      r == s[|s| - |r|..] && (r == [] || !IsSpace(r[0])) &&
      forall k :: 0 <= k < |s| - |r| ==> IsSpace(s[k])
  {
    if s != [] && IsSpace(s[0]) {
      TrimStartSpec(s[1..]);
    }
  }

  /** `trimEnd` removes exactly the trailing whitespace. */
  lemma {:induction false} TrimEndSpec(s: string)
    ensures var r := TrimEnd(s);
      r == s[..|r|] && (r == [] || !IsSpace(r[|r| - 1])) &&
      forall k :: |r| <= k < |s| ==> IsSpace(s[k])
  {
    if s != [] && IsSpace(s[|s| - 1]) {
      TrimEndSpec(s[..|s| - 1]);
    }
  }

  /** `trim` keeps the middle of `s`, from its first to its last non-space
      character: only whitespace is removed, and none is left at either end. */
  lemma TrimSpec(s: string)
    ensures var r, lead := Trim(s), |s| - |TrimStart(s)|;
      lead + |r| <= |s| && r == s[lead..lead + |r|] &&
      (r == [] || (!IsSpace(r[0]) && !IsSpace(r[|r| - 1]))) &&
      (forall k :: 0 <= k < lead ==> IsSpace(s[k])) &&
      (forall k :: lead + |r| <= k < |s| ==> IsSpace(s[k]))
  {
    TrimStartSpec(s);
    TrimSlice(s);
    TrimEnds(s);
    TrimTrailing(s);
  }

  lemma TrimSlice(s: string)
    ensures var r, lead := Trim(s), |s| - |TrimStart(s)|;
      lead + |r| <= |s| && r == s[lead..lead + |r|]
  {
    var t := TrimStart(s);
    TrimStartSuffix(s);
    var r := TrimEnd(t);
    TrimEndPrefix(t);
    var lead := |s| - |t|;
    assert s[lead..][..|r|] == s[lead..lead + |r|];
  }

  lemma {:induction false} TrimStartSuffix(s: string)
    ensures TrimStart(s) == s[|s| - |TrimStart(s)|..]
  {
    if s != [] && IsSpace(s[0]) {
      TrimStartSuffix(s[1..]);
    }
  }

  lemma {:induction false} TrimEndPrefix(s: string)
    ensures TrimEnd(s) == s[..|TrimEnd(s)|]
  {
    if s != [] && IsSpace(s[|s| - 1]) {
      TrimEndPrefix(s[..|s| - 1]);
    }
  }

  lemma TrimEnds(s: string)
    ensures var r := Trim(s);
      r == [] || (!IsSpace(r[0]) && !IsSpace(r[|r| - 1]))
  {
    var t := TrimStart(s);
    TrimStartSpec(s);
    var r := TrimEnd(t);
    TrimEndSpec(t);
    if r != [] {
      assert r[0] == t[0];
    }
  }

  lemma TrimTrailing(s: string)
    ensures var r, lead := Trim(s), |s| - |TrimStart(s)|;
      forall k :: lead + |r| <= k < |s| ==> IsSpace(s[k])
  {
    var t := TrimStart(s);
    TrimStartSpec(s);
    var r := TrimEnd(t);
    TrimEndSpec(t);
    var lead := |s| - |t|;
    forall k | lead + |r| <= k < |s|
      ensures IsSpace(s[k])
    {
      assert s[k] == t[k - lead];
    }
  }

  /** `trim` only removes characters. */
  lemma TrimChars(s: string)
    ensures forall c :: c in Trim(s) ==> c in s
  {
    TrimSpec(s);
  }

  predicate NoSpace(s: string) {
    forall i :: 0 <= i < |s| ==> !IsSpace(s[i])
  }

  lemma TrimNoSpace(s: string)
    requires NoSpace(s)
    ensures Trim(s) == s
  {
    assert TrimStart(s) == s;
  }

  /** `replace(/\s+/g, [rep])`: every maximal whitespace run becomes `rep`. */
  function ReplaceSpaceRuns(s: string, rep: char): (r: string)
    ensures forall i :: 0 <= i < |r| ==> r[i] == rep || (!IsSpace(r[i]) && r[i] in s)
    ensures s == [] <==> r == []
    ensures s != [] ==> r[0] == (if IsSpace(s[0]) then rep else s[0])
    ensures IsSpace(rep) ==> forall i :: 0 <= i < |r| - 1 ==> !(IsSpace(r[i]) && IsSpace(r[i + 1]))
    decreases |s|
  {
    if s == [] then []
    else if IsSpace(s[0]) then
      var rest := TrimStart(s);
      TrimStartSpec(s);
      [rep] + ReplaceSpaceRuns(rest, rep)
    else [s[0]] + ReplaceSpaceRuns(s[1..], rep)
  }

  lemma {:induction false} ReplaceSpaceRunsNoSpace(s: string, rep: char)
    requires NoSpace(s)
    ensures ReplaceSpaceRuns(s, rep) == s
  {
    if s != [] {
      ReplaceSpaceRunsNoSpace(s[1..], rep);
    }
  }

  /** `trimStart` of a concatenation only reaches into `b` when `a` is all
      whitespace. */
  lemma {:induction false} TrimStartConcat(a: string, b: string)
    ensures TrimStart(a + b) == if TrimStart(a) == [] then TrimStart(b) else TrimStart(a) + b
  {
    if a == [] {
      assert a + b == b;
    } else if IsSpace(a[0]) {
      assert (a + b)[1..] == a[1..] + b;
      TrimStartConcat(a[1..], b);
    }
  }

  lemma ConcatAssoc(a: string, b: string, c: string)
    ensures a + (b + c) == (a + b) + c
  {
  }

  predicate AllSpace(s: string) {
    forall i :: 0 <= i < |s| ==> IsSpace(s[i])
  }

  lemma AllSpaceConcat(a: string, b: string)
    requires AllSpace(a) && AllSpace(b)
    ensures AllSpace(a + b)
  {
  }

  /** A string is its leading whitespace followed by what `trimStart` keeps. */
  lemma TrimStartSplit(x: string)
    ensures var y := TrimStart(x);
      x == x[..|x| - |y|] + y && AllSpace(x[..|x| - |y|]) && (y == [] || !IsSpace(y[0]))
  {
    TrimStartSpec(x);
  }

  /** A string is what `trimEnd` keeps followed by its trailing whitespace. */
  lemma TrimEndSplit(x: string)
    ensures var y := TrimEnd(x);
      x == y + x[|y|..] && AllSpace(x[|y|..]) && (y == [] || !IsSpace(y[|y| - 1]))
  {
    TrimEndSpec(x);
  }

  /** `trimEnd` of a concatenation stays inside `b` unless `b` is all
      whitespace. */
  lemma {:induction false} TrimEndConcat(a: string, b: string)
    requires TrimEnd(b) != []
    ensures TrimEnd(a + b) == a + TrimEnd(b)
    decreases |b|
  {
    var n := |a + b|;
    if IsSpace(b[|b| - 1]) {
      assert (a + b)[..n - 1] == a + b[..|b| - 1];
      TrimEndConcat(a, b[..|b| - 1]);
    }
  }

  /** Whitespace appended to `a` is all trimmed away. */
  lemma {:induction false} TrimEndSpaces(a: string, sp: string)
    requires AllSpace(sp)
    ensures TrimEnd(a + sp) == TrimEnd(a)
    decreases |sp|
  {
    if sp == [] {
      assert a + sp == a;
    } else {
      var n := |a + sp|;
      assert (a + sp)[..n - 1] == a + sp[..|sp| - 1];
      TrimEndSpaces(a, sp[..|sp| - 1]);
    }
  }

  lemma TrimSpacesBefore(sp: string, z: string)
    requires AllSpace(sp)
    ensures Trim(sp + z) == Trim(z)
  {
    TrimStartConcat(sp, z);
    TrimStartSpec(sp);
    assert TrimStart(sp) == [];
  }

  lemma TrimSpacesAfter(z: string, sp: string)
    requires AllSpace(sp)
    ensures Trim(z + sp) == Trim(z)
  {
    TrimStartConcat(z, sp);
    if TrimStart(z) == [] {
      TrimStartSpec(sp);
      assert TrimStart(sp) == [];
    } else {
      TrimEndSpaces(TrimStart(z), sp);
    }
  }

  /** A non-empty whitespace run becomes exactly one `rep`. */
  lemma SpaceRunReplaced(s: string, rep: char)
    requires s != [] && AllSpace(s)
    ensures ReplaceSpaceRuns(s, rep) == [rep]
  {
    TrimStartSpec(s);
    assert TrimStart(s) == [];
  }

  /** Cutting between two characters that are not both whitespace cuts no
      run, so the replacement works on each side separately. Together with
      `ReplaceSpaceRunsNoSpace` and `SpaceRunReplaced` this pins the result
      down: every maximal whitespace run becomes one `rep`, everything else
      is kept in order. */
  lemma {:induction false} ReplaceSpaceRunsConcat(a: string, b: string, rep: char)
    requires a == [] || b == [] || !IsSpace(a[|a| - 1]) || !IsSpace(b[0])
    ensures ReplaceSpaceRuns(a + b, rep) == ReplaceSpaceRuns(a, rep) + ReplaceSpaceRuns(b, rep)
    decreases |a|, 1
  {
    if a == [] {
      assert a + b == b;
    } else if b == [] {
      assert a + b == a;
    } else if IsSpace(a[0]) {
      ReplaceSpaceRunsConcatRun(a, b, rep);
    } else {
      assert (a + b)[1..] == a[1..] + b;
      if a[1..] != [] {
        assert a[1..][|a[1..]| - 1] == a[|a| - 1];
      }
      ReplaceSpaceRunsConcat(a[1..], b, rep);
      assert a == [a[0]] + a[1..];
    }
  }

  /** `ReplaceSpaceRunsConcat` when `a` opens with a whitespace run. */
  lemma {:induction false} ReplaceSpaceRunsConcatRun(a: string, b: string, rep: char)
    requires a != [] && b != [] && IsSpace(a[0])
    requires !IsSpace(a[|a| - 1]) || !IsSpace(b[0])
    ensures ReplaceSpaceRuns(a + b, rep) == ReplaceSpaceRuns(a, rep) + ReplaceSpaceRuns(b, rep)
    decreases |a|, 0
  {
    var t := TrimStart(a);
    if t == [] {
      ReplaceSpaceRunsConcatSpaces(a, b, rep);
    } else {
      assert ReplaceSpaceRuns(a + b, rep) == [rep] + ReplaceSpaceRuns(t + b, rep) by {
        TrimStartConcat(a, b);
        assert (a + b)[0] == a[0];
      }
      assert ReplaceSpaceRuns(a, rep) == [rep] + ReplaceSpaceRuns(t, rep);
      assert ReplaceSpaceRuns(t + b, rep) == ReplaceSpaceRuns(t, rep) + ReplaceSpaceRuns(b, rep) by {
        TrimStartLast(a);
        ReplaceSpaceRunsConcat(t, b, rep);
      }
      ConcatAssoc([rep], ReplaceSpaceRuns(t, rep), ReplaceSpaceRuns(b, rep));
    }
  }

  lemma {:induction false} TrimStartLast(a: string)
    requires TrimStart(a) != []
    ensures TrimStart(a)[|TrimStart(a)| - 1] == a[|a| - 1]
  {
    if IsSpace(a[0]) {
      TrimStartLast(a[1..]);
    }
  }

  /** `ReplaceSpaceRunsConcat` when `a` is all whitespace. */
  lemma ReplaceSpaceRunsConcatSpaces(a: string, b: string, rep: char)
    requires a != [] && b != [] && TrimStart(a) == []
    requires !IsSpace(a[|a| - 1]) || !IsSpace(b[0])
    ensures ReplaceSpaceRuns(a + b, rep) == ReplaceSpaceRuns(a, rep) + ReplaceSpaceRuns(b, rep)
  {
    TrimStartSplit(a);
    TrimStartConcat(a, b);
    assert (a + b)[0] == a[0];
    assert TrimStart(a + b) == b;
    assert ReplaceSpaceRuns(a, rep) == [rep];
  }

  predicate StartsWith(s: string, p: string) {
    |p| <= |s| && s[..|p|] == p
  }

  predicate EndsWith(s: string, p: string) {
    |p| <= |s| && s[|s| - |p|..] == p
  }

  /** `s.toLowerCase().endsWith(p)`, or `/p$/i`, for a lower-case `p`. */
  predicate EndsWithNoCase(s: string, p: string) {
    |p| <= |s| && LowerStr(s[|s| - |p|..]) == p
  }

  /** Substring test, as a regular expression without anchors performs it. */
  predicate Contains(s: string, p: string)
    decreases |s|
  {
    StartsWith(s, p) || (s != [] && Contains(s[1..], p))
  }

  /** `replace(/pat/g, rep)` for a literal pattern: left to right, non-overlapping. */
  function ReplaceAll(s: string, pat: string, rep: string): string
    requires pat != []
    decreases |s|
  {
    if StartsWith(s, pat) then rep + ReplaceAll(s[|pat|..], pat, rep)
    else if s == [] then []
    else [s[0]] + ReplaceAll(s[1..], pat, rep)
  }

  lemma ReplaceAllAtMatch(t: string, pat: string, rep: string)
    requires pat != []
    ensures ReplaceAll(pat + t, pat, rep) == rep + ReplaceAll(t, pat, rep)
  {
    assert (pat + t)[..|pat|] == pat;
    assert (pat + t)[|pat|..] == t;
  }

  /** No occurrence of `pat` starts inside `w`, whatever follows it. */
  lemma {:induction false} ReplaceAllSkips(w: string, t: string, pat: string, rep: string)
    requires pat != []
    requires forall i :: 0 <= i < |w| ==> !StartsWith((w + t)[i..], pat)
    ensures ReplaceAll(w + t, pat, rep) == w + ReplaceAll(t, pat, rep)
  {
    if w != [] {
      var s := w + t;
      assert s[0..] == s;
      assert !StartsWith(s, pat);
      assert ReplaceAll(s, pat, rep) == [s[0]] + ReplaceAll(s[1..], pat, rep);
      assert s[1..] == w[1..] + t;
      forall i | 0 <= i < |w| - 1
        ensures !StartsWith((w[1..] + t)[i..], pat)
      {
        assert (w[1..] + t)[i..] == s[i + 1..];
      }
      ReplaceAllSkips(w[1..], t, pat, rep);
      calc {
        ReplaceAll(s, pat, rep);
        [s[0]] + ReplaceAll(w[1..] + t, pat, rep);
        [w[0]] + (w[1..] + ReplaceAll(t, pat, rep));
        { assert w == [w[0]] + w[1..]; }
        w + ReplaceAll(t, pat, rep);
      }
    } else {
      assert w + t == t;
    }
  }

  /** Index of the first `c` in `s`, or -1. */
  function IndexOf(s: string, c: char): (r: int)
    ensures -1 <= r < |s|
    ensures r == -1 <==> c !in s
    ensures r >= 0 ==> s[r] == c && c !in s[..r]
  {
    if s == [] then -1
    else if s[0] == c then 0
    else
      var k := IndexOf(s[1..], c);
      if k == -1 then -1 else k + 1
  }

  /** `split(sep)` for a one-character separator. */
  function Split(s: string, sep: char): (r: seq<string>)
    ensures |r| >= 1
  {
    if s == [] then [[]]
    else
      var rest := Split(s[1..], sep);
      if s[0] == sep then [[]] + rest else [[s[0]] + rest[0]] + rest[1..]
  }

  /** The pieces hold no separator. */
  lemma {:induction false} SplitNoSep(s: string, sep: char)
    ensures forall k :: 0 <= k < |Split(s, sep)| ==> sep !in Split(s, sep)[k]
  {
    if s != [] {
      SplitNoSep(s[1..], sep);
    }
  }

  /** Joining the pieces gives the text back. */
  lemma {:induction false} SplitJoin(s: string, sep: char)
    ensures Join(Split(s, sep), sep) == s
  {
    if s != [] {
      var rest := Split(s[1..], sep);
      SplitJoin(s[1..], sep);
      if s[0] == sep {
        JoinCons([], rest, sep);
      } else {
        JoinHead(rest, sep);
        JoinHead([[s[0]] + rest[0]] + rest[1..], sep);
        assert ([[s[0]] + rest[0]] + rest[1..])[1..] == rest[1..];
      }
      assert s == [s[0]] + s[1..];
    }
  }

  lemma JoinCons(head: string, rest: seq<string>, sep: char)
    requires rest != []
    ensures Join([head] + rest, sep) == head + [sep] + Join(rest, sep)
  {
    assert ([head] + rest)[1..] == rest;
  }

  /** The first piece, then the separator-led rest. */
  lemma JoinHead(parts: seq<string>, sep: char)
    requires parts != []
    ensures Join(parts, sep) == parts[0] + (if |parts| == 1 then [] else [sep] + Join(parts[1..], sep))
  {
  }

  /** `join(sep)`, the inverse of `Split`. */
  function Join(parts: seq<string>, sep: char): string {
    if parts == [] then []
    else if |parts| == 1 then parts[0]
    else parts[0] + [sep] + Join(parts[1..], sep)
  }

  /** The text before the first occurrence of `pat` (all of `s` when absent):
      `s.split(pat)[0]`. */
  function BeforeFirst(s: string, pat: string): (r: string)
    requires pat != []
    ensures StartsWith(s, r)
    ensures forall i :: 0 <= i < |r| ==> !StartsWith(s[i..], pat)
    ensures |r| < |s| ==> StartsWith(s[|r|..], pat)
    decreases |s|
  {
    if s == [] || StartsWith(s, pat) then []
    else
      var r := [s[0]] + BeforeFirst(s[1..], pat);
      assert forall i :: 1 <= i < |r| ==> s[i..] == s[1..][i - 1..];
      r
  }

  /** Decimal digits of a natural number. */
  function DigitChar(d: nat): char
    requires d < 10
  {
    ('0' as int + d) as char
  }

  function NatToString(n: nat): (r: string)
    ensures r != []
    ensures forall i :: 0 <= i < |r| ==> IsDigit(r[i])
  {
    if n < 10 then [DigitChar(n)] else NatToString(n / 10) + [DigitChar(n % 10)]
  }

  /** Reads a string of decimal digits back. */
  function DigitsValue(s: string): nat
    requires forall i :: 0 <= i < |s| ==> IsDigit(s[i])
  {
    if s == [] then 0
    else assert IsDigit(s[|s| - 1]); DigitsValue(s[..|s| - 1]) * 10 + (s[|s| - 1] as int - '0' as int)
  }

  lemma {:induction false} NatToStringRoundTrip(n: nat)
    ensures DigitsValue(NatToString(n)) == n
  {
    if n >= 10 {
      var s := NatToString(n);
      assert s[..|s| - 1] == NatToString(n / 10);
      NatToStringRoundTrip(n / 10);
    }
  }

  function IntToString(n: int): string {
    if n < 0 then "-" + NatToString(-n) else NatToString(n)
  }

  /** `localeCompare`, taken as ordinal comparison by character code:
      -1, 0 or 1. */
  function StrCompare(s: string, t: string): (r: int)
    ensures -1 <= r <= 1
  {
    if s == [] && t == [] then 0
    else if s == [] then -1
    else if t == [] then 1
    else if s[0] < t[0] then -1
    else if s[0] > t[0] then 1
    else StrCompare(s[1..], t[1..])
  }

  lemma {:induction false} StrCompareAntisymmetric(s: string, t: string)
    ensures StrCompare(s, t) == -StrCompare(t, s)
  {
    if s != [] && t != [] && s[0] == t[0] {
      StrCompareAntisymmetric(s[1..], t[1..]);
    }
  }

  lemma {:induction false} StrCompareZero(s: string, t: string)
    ensures StrCompare(s, t) == 0 <==> s == t
  {
    if s != [] && t != [] && s[0] == t[0] {
      StrCompareZero(s[1..], t[1..]);
      if s[1..] == t[1..] {
        assert s == [s[0]] + s[1..] && t == [t[0]] + t[1..];
      }
    }
  }

  lemma {:induction false} StrCompareTransitive(a: string, b: string, c: string)
    requires StrCompare(a, b) <= 0 && StrCompare(b, c) <= 0
    ensures StrCompare(a, c) <= 0
  {
    if a != [] && b != [] && c != [] && a[0] == b[0] && b[0] == c[0] {
      StrCompareTransitive(a[1..], b[1..], c[1..]);
    }
  }
}

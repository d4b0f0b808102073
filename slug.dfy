/** `slugify` of scripts/md.js: lower-case, drop everything outside
    `[\w\s-]`, trim, turn each whitespace run into one hyphen, squash hyphen
    runs. */
module Slug {
  import opened Text

  /** The characters `replace(/[^\w\s-]/g, "")` leaves in place. */
  predicate Kept(c: char) {
    IsWordChar(c) || IsSpace(c) || c == '-'
  }

  /** `replace(/[^\w\s-]/g, "")`. */
  function StripPunctuation(s: string): (r: string)
    ensures forall i :: 0 <= i < |r| ==> Kept(r[i]) && r[i] in s
    ensures (forall i :: 0 <= i < |s| ==> Kept(s[i])) ==> r == s
  {
    if s == [] then []
    else if Kept(s[0]) then [s[0]] + StripPunctuation(s[1..])
    else StripPunctuation(s[1..])
  }

  /** The leading hyphen run removed. */
  function DropDashes(s: string): (r: string)
    ensures |r| <= |s|
    ensures r == [] || r[0] != '-'
    ensures s != [] && s[0] == '-' ==> |r| < |s|
  {
    if s != [] && s[0] == '-' then DropDashes(s[1..]) else s
  }

  /** What `DropDashes` leaves is a suffix of its input. */
  lemma {:induction false} DropDashesSuffix(s: string)
    ensures DropDashes(s) == s[|s| - |DropDashes(s)|..]
  {
    if s != [] && s[0] == '-' {
      DropDashesSuffix(s[1..]);
    }
  }

  /** No `--` anywhere in `s`. */
  predicate NoDoubleDash(s: string) {
    |s| < 2 || (!(s[0] == '-' && s[1] == '-') && NoDoubleDash(s[1..]))
  }

  /** The same, position by position. */
  lemma {:induction false} NoDoubleDashSpec(s: string)
    ensures NoDoubleDash(s) <==> forall i :: 0 <= i < |s| - 1 ==> !(s[i] == '-' && s[i + 1] == '-')
  {
    if |s| >= 2 {
      NoDoubleDashSpec(s[1..]);
      assert forall i :: 1 <= i < |s| ==> s[i] == s[1..][i - 1];
    }
  }

  /** `replace(/--+/g, "-")`: every hyphen run becomes a single hyphen. */
  function SquashDashes(s: string): (r: string)
    ensures NoDoubleDash(r)
    ensures forall i :: 0 <= i < |r| ==> r[i] in s
    ensures s == [] <==> r == []
    ensures s != [] ==> r[0] == s[0]
    decreases |s|
  {
    if s == [] then []
    else if s[0] == '-' then
      var rest := DropDashes(s);
      DropDashesSuffix(s);
      "-" + SquashDashes(rest)
    else [s[0]] + SquashDashes(s[1..])
  }

  /** Stripping works character by character: a kept character stays, any
      other is dropped, and the order of what stays is the input's. */
  lemma {:induction false} StripPunctuationConcat(a: string, b: string)
    ensures StripPunctuation(a + b) == StripPunctuation(a) + StripPunctuation(b)
  {
    if a == [] {
      assert a + b == b;
    } else {
      assert (a + b)[1..] == a[1..] + b;
      StripPunctuationConcat(a[1..], b);
    }
  }

  lemma StripPunctuationChar(c: char)
    ensures StripPunctuation([c]) == if Kept(c) then [c] else []
  {
    assert [c][1..] == [];
  }

  lemma {:induction false} DropDashesConcat(a: string, b: string)
    ensures DropDashes(a + b) == if DropDashes(a) == [] then DropDashes(b) else DropDashes(a) + b
  {
    if a == [] {
      assert a + b == b;
    } else if a[0] == '-' {
      assert (a + b)[1..] == a[1..] + b;
      DropDashesConcat(a[1..], b);
    }
  }

  /** A non-empty hyphen run becomes exactly one hyphen. */
  lemma DashRunSquashed(s: string)
    requires s != [] && forall i :: 0 <= i < |s| ==> s[i] == '-'
    ensures SquashDashes(s) == "-"
  {
    DropDashesRun(s);
  }

  lemma {:induction false} DropDashesRun(s: string)
    requires forall i :: 0 <= i < |s| ==> s[i] == '-'
    ensures DropDashes(s) == []
  {
    if s != [] {
      assert forall i :: 0 <= i < |s[1..]| ==> s[1..][i] == s[i + 1];
      DropDashesRun(s[1..]);
    }
  }

  /** Cutting between two characters that are not both hyphens cuts no run,
      so squashing works on each side separately. With `DashRunSquashed`
      and `SquashDashesKeepsSquashed` this pins the result down: every
      hyphen run becomes one hyphen, everything else is kept in order. */
  lemma {:induction false} SquashDashesConcat(a: string, b: string)
    requires a == [] || b == [] || a[|a| - 1] != '-' || b[0] != '-'
    ensures SquashDashes(a + b) == SquashDashes(a) + SquashDashes(b)
    decreases |a|, 1
  {
    if a == [] {
      assert a + b == b;
    } else if b == [] {
      assert a + b == a;
    } else if a[0] == '-' {
      SquashDashesConcatRun(a, b);
    } else {
      assert (a + b)[1..] == a[1..] + b;
      if a[1..] != [] {
        assert a[1..][|a[1..]| - 1] == a[|a| - 1];
      }
      SquashDashesConcat(a[1..], b);
      assert a == [a[0]] + a[1..];
    }
  }

  /** `SquashDashesConcat` when `a` opens with a hyphen run. */
  lemma {:induction false} SquashDashesConcatRun(a: string, b: string)
    requires a != [] && b != [] && a[0] == '-'
    requires a[|a| - 1] != '-' || b[0] != '-'
    ensures SquashDashes(a + b) == SquashDashes(a) + SquashDashes(b)
    decreases |a|, 0
  {
    var t := DropDashes(a);
    if t == [] {
      SquashDashesConcatDashes(a, b);
    } else {
      assert SquashDashes(a + b) == "-" + SquashDashes(t + b) by {
        DropDashesConcat(a, b);
        assert (a + b)[0] == '-';
      }
      assert SquashDashes(a) == "-" + SquashDashes(t);
      assert SquashDashes(t + b) == SquashDashes(t) + SquashDashes(b) by {
        DropDashesLast(a);
        SquashDashesConcat(t, b);
      }
      ConcatAssoc("-", SquashDashes(t), SquashDashes(b));
    }
  }

  lemma {:induction false} DropDashesLast(a: string)
    requires DropDashes(a) != []
    ensures DropDashes(a)[|DropDashes(a)| - 1] == a[|a| - 1]
  {
    if a[0] == '-' {
      DropDashesLast(a[1..]);
    }
  }

  /** `SquashDashesConcat` when `a` is all hyphens. */
  lemma SquashDashesConcatDashes(a: string, b: string)
    requires a != [] && b != [] && DropDashes(a) == []
    requires a[|a| - 1] != '-' || b[0] != '-'
    ensures SquashDashes(a + b) == SquashDashes(a) + SquashDashes(b)
  {
    DropDashesAll(a);
    DropDashesConcat(a, b);
    assert (a + b)[0] == '-';
    assert DropDashes(a + b) == b;
    assert SquashDashes(a) == "-";
  }

  lemma {:induction false} DropDashesAll(s: string)
    requires DropDashes(s) == []
    ensures forall i :: 0 <= i < |s| ==> s[i] == '-'
  {
    if s != [] {
      DropDashesAll(s[1..]);
      assert forall i :: 1 <= i < |s| ==> s[i] == s[1..][i - 1];
    }
  }

  lemma {:induction false} SquashDashesKeepsSquashed(s: string)
    requires NoDoubleDash(s)
    ensures SquashDashes(s) == s
  {
    if s != [] {
      var t := s[1..];
      SquashDashesKeepsSquashed(t);
      if s[0] == '-' {
        assert t == [] || t[0] != '-';
        assert DropDashes(t) == t;
      }
      assert s == [s[0]] + t;
    }
  }

  function Slugify(s: string): string {
    SquashDashes(ReplaceSpaceRuns(Trim(StripPunctuation(LowerStr(s))), '-'))
  }

  predicate IsSlugChar(c: char) {
    'a' <= c <= 'z' || IsDigit(c) || c == '_' || c == '-'
  }

  /** What `slugify` can produce: `[a-z0-9_-]` only, never `--`. */
  predicate IsSlug(s: string) {
    (forall i :: 0 <= i < |s| ==> IsSlugChar(s[i])) && NoDoubleDash(s)
  }

  /** Slugs hold no whitespace and no upper-case letter, and never `--`. */
  lemma SlugifyIsSlug(s: string)
    ensures IsSlug(Slugify(s))
  {
    var lowered := LowerStr(s);
    var stripped := StripPunctuation(lowered);
    assert forall c :: c in stripped ==> Kept(c) && !IsUpper(c);
    var trimmed := Trim(stripped);
    TrimChars(stripped);
    assert forall c :: c in trimmed ==> Kept(c) && !IsUpper(c);
    var dashed := ReplaceSpaceRuns(trimmed, '-');
    assert forall c :: c in dashed ==> IsSlugChar(c);
    var r := SquashDashes(dashed);
    assert forall i :: 0 <= i < |r| ==> r[i] in dashed;
  }

  /** A slug is a fixed point of every stage of the pipeline. */
  lemma SlugIsFixedPoint(y: string)
    requires IsSlug(y)
    ensures Slugify(y) == y
  {
    assert LowerStr(y) == y;
    assert StripPunctuation(y) == y;
    assert NoSpace(y);
    TrimNoSpace(y);
    ReplaceSpaceRunsNoSpace(y, '-');
    SquashDashesKeepsSquashed(y);
  }

  /** Characters outside `[\w\s-]` do not affect the slug at all. */
  lemma SlugifyIgnoresPunctuation(a: string, c: char, b: string)
    requires !Kept(c)
    ensures Slugify(a + [c] + b) == Slugify(a + b)
  {
    StrippedIgnoresPunctuation(a, c, b);
  }

  lemma StrippedIgnoresPunctuation(a: string, c: char, b: string)
    requires !Kept(c)
    ensures StripPunctuation(LowerStr(a + [c] + b)) == StripPunctuation(LowerStr(a + b))
  {
    var la, lb := LowerStr(a), LowerStr(b);
    LowerStrConcat(a + [c], b);
    LowerStrConcat(a, [c]);
    LowerStrConcat(a, b);
    assert LowerStr([c]) == [c];
    StripPunctuationConcat(la + [c], lb);
    StripPunctuationConcat(la, [c]);
    StripPunctuationConcat(la, lb);
    StripPunctuationChar(c);
  }

  /** Letters, digits and underscores only. */
  predicate IsWord(s: string) {
    forall i :: 0 <= i < |s| ==> IsWordChar(s[i])
  }

  /** Two words separated by a space slug to the lower-cased words joined by
      one hyphen. */
  lemma SlugifyTwoWords(a: string, b: string)
    requires a != [] && b != [] && IsWord(a) && IsWord(b)
    ensures Slugify(a + " " + b) == LowerStr(a) + "-" + LowerStr(b)
  {
    var la, lb := LowerStr(a), LowerStr(b);
    LowerStrConcat(a + " ", b);
    LowerStrConcat(a, " ");
    assert LowerStr(a + " " + b) == la + " " + lb;
    WordsStayPut(la, lb);
    WordsJoined(la, lb);
  }

  /** Stripping and trimming leave two words and the space between alone. */
  lemma WordsStayPut(la: string, lb: string)
    requires la != [] && lb != [] && IsWord(la) && IsWord(lb)
    ensures Trim(StripPunctuation(la + " " + lb)) == la + " " + lb
  {
    var l := la + " " + lb;
    assert forall i :: 0 <= i < |l| ==> Kept(l[i]) by {
      forall i | 0 <= i < |l| ensures Kept(l[i]) {
        if i < |la| {
          assert l[i] == la[i];
        } else if i > |la| {
          assert l[i] == lb[i - |la| - 1];
        }
      }
    }
    assert TrimStart(l) == l;
    assert l[|l| - 1] == lb[|lb| - 1];
  }

  /** The space between two words becomes one hyphen, and squashing leaves
      the result alone. */
  lemma WordsJoined(la: string, lb: string)
    requires la != [] && lb != [] && IsWord(la) && IsWord(lb)
    ensures SquashDashes(ReplaceSpaceRuns(la + " " + lb, '-')) == la + "-" + lb
  {
    SpaceBecomesDash(la, lb);
    var d := la + "-" + lb;
    NoDoubleDashSpec(d);
    assert NoDoubleDash(d) by {
      forall i | 0 <= i < |d| - 1 ensures !(d[i] == '-' && d[i + 1] == '-') {
        if i < |la| {
          assert d[i] == la[i];
        } else {
          assert d[i + 1] == lb[i - |la|];
        }
      }
    }
    SquashDashesKeepsSquashed(d);
  }

  lemma SpaceBecomesDash(la: string, lb: string)
    requires la != [] && lb != [] && IsWord(la) && IsWord(lb)
    ensures ReplaceSpaceRuns(la + " " + lb, '-') == la + "-" + lb
  {
    assert NoSpace(la) && NoSpace(lb);
    ConcatAssoc(la, " ", lb);
    ReplaceSpaceRunsConcat(la, " " + lb, '-');
    ReplaceSpaceRunsNoSpace(la, '-');
    ReplaceSpaceRunsConcat(" ", lb, '-');
    SpaceRunReplaced(" ", '-');
    ReplaceSpaceRunsNoSpace(lb, '-');
  }

  lemma SlugifyIdempotent(s: string)
    ensures Slugify(Slugify(s)) == Slugify(s)
  {
    SlugifyIsSlug(s);
    SlugIsFixedPoint(Slugify(s));
  }
}

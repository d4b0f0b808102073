/** `htmlAttrEscape` of scripts/md.js: four global replacements, `&` first,
    so that a chart configuration can sit inside a double-quoted HTML
    attribute. */
module AttrEscape {
  import opened Text

  function HtmlAttrEscape(s: string): string {
    ReplaceAll(ReplaceAll(ReplaceAll(ReplaceAll(s, "&", "&amp;"), "\"", "&quot;"), "<", "&lt;"), ">", "&gt;")
  }

  /** What a browser does with the attribute value: the four entities
      decoded, `&amp;` last. */
  function DecodeEntities(s: string): string {
    ReplaceAll(ReplaceAll(ReplaceAll(ReplaceAll(s, "&quot;", "\""), "&lt;", "<"), "&gt;", ">"), "&amp;", "&")
  }

  predicate StartsWithEntity(s: string) {
    StartsWith(s, "&amp;") || StartsWith(s, "&quot;") || StartsWith(s, "&lt;") || StartsWith(s, "&gt;")
  }

  /** Safe inside a double-quoted attribute: no quote, no angle bracket, and
      every ampersand opens one of the four entities. */
  predicate AttrSafe(s: string) {
    forall i :: 0 <= i < |s| ==>
      s[i] != '"' && s[i] != '<' && s[i] != '>' && (s[i] == '&' ==> StartsWithEntity(s[i..]))
  }

  // The eight replacements above, numbered 0..7: after the first k of them
  // every input character has become Chunk(k, c).

  function Pat(k: nat): string
    requires k < 8
  {
    ["&", "\"", "<", ">", "&quot;", "&lt;", "&gt;", "&amp;"][k]
  }

  function Rep(k: nat): string
    requires k < 8
  {
    ["&amp;", "&quot;", "&lt;", "&gt;", "\"", "<", ">", "&"][k]
  }

  function Chunk(k: nat, c: char): string {
    if c == '&' then (if 1 <= k < 8 then "&amp;" else "&")
    else if c == '"' then (if 2 <= k < 5 then "&quot;" else "\"")
    else if c == '<' then (if 3 <= k < 6 then "&lt;" else "<")
    else if c == '>' then (if 4 <= k < 7 then "&gt;" else ">")
    else [c]
  }

  /** The string after the first k replacements, character by character. */
  function Expand(k: nat, s: string): string {
    if s == [] then [] else Chunk(k, s[0]) + Expand(k, s[1..])
  }

  /** No occurrence of `pat` can start inside `w`: `pat`'s first character
      appears in `w` only at its head, and there the second characters
      differ. */
  predicate Separated(w: string, pat: string) {
    pat != [] && forall i :: 0 <= i < |w| ==>
      w[i] != pat[0] || (i == 0 && |w| >= 2 && |pat| >= 2 && w[1] != pat[1])
  }

  lemma SeparatedNoMatch(w: string, t: string, pat: string)
    requires pat != [] && Separated(w, pat)
    ensures forall i :: 0 <= i < |w| ==> !StartsWith((w + t)[i..], pat)
  {
    forall i | 0 <= i < |w|
      ensures !StartsWith((w + t)[i..], pat)
    {
      var x := (w + t)[i..];
      assert x[0] == w[i];
      if w[i] == pat[0] {
        assert x[1] == w[1];
      }
    }
  }

  lemma ChunkStep(k: nat, c: char)
    requires k < 8
    ensures Chunk(k, c) == Pat(k) ==> Chunk(k + 1, c) == Rep(k)
    ensures Chunk(k, c) != Pat(k) ==> Chunk(k + 1, c) == Chunk(k, c) && Separated(Chunk(k, c), Pat(k))
  {
  }

  lemma {:induction false} ExpandStep(k: nat, s: string)
    requires k < 8
    ensures ReplaceAll(Expand(k, s), Pat(k), Rep(k)) == Expand(k + 1, s)
  {
    if s != [] {
      var w, t := Chunk(k, s[0]), Expand(k, s[1..]);
      ChunkStep(k, s[0]);
      ExpandStep(k, s[1..]);
      if w == Pat(k) {
        ReplaceAllAtMatch(t, Pat(k), Rep(k));
      } else {
        SeparatedNoMatch(w, t, Pat(k));
        ReplaceAllSkips(w, t, Pat(k), Rep(k));
      }
    }
  }

  lemma {:induction false} ExpandIdentity(k: nat, s: string)
    requires k == 0 || k == 8
    ensures Expand(k, s) == s
  {
    if s != [] {
      ExpandIdentity(k, s[1..]);
      assert s == [s[0]] + s[1..];
    }
  }

  lemma EscapeAmp(s: string)
    ensures ReplaceAll(s, "&", "&amp;") == Expand(1, s)
  {
    ExpandIdentity(0, s);
    ExpandStep(0, s);
  }

  lemma EscapeQuot(s: string)
    ensures ReplaceAll(Expand(1, s), "\"", "&quot;") == Expand(2, s)
  {
    ExpandStep(1, s);
  }

  lemma EscapeLt(s: string)
    ensures ReplaceAll(Expand(2, s), "<", "&lt;") == Expand(3, s)
  {
    ExpandStep(2, s);
  }

  lemma EscapeGt(s: string)
    ensures ReplaceAll(Expand(3, s), ">", "&gt;") == Expand(4, s)
  {
    ExpandStep(3, s);
  }

  /** The replacement chain escapes each character on its own. */
  lemma EscapeIsChunkwise(s: string)
    ensures HtmlAttrEscape(s) == Expand(4, s)
  {
    EscapeAmp(s);
    EscapeQuot(s);
    EscapeLt(s);
    EscapeGt(s);
  }

  lemma {:induction false} ExpandSafe(s: string)
    ensures AttrSafe(Expand(4, s))
  {
    if s != [] {
      var w, t := Chunk(4, s[0]), Expand(4, s[1..]);
      ExpandSafe(s[1..]);
      var r := w + t;
      forall i | 0 <= i < |r|
        ensures r[i] != '"' && r[i] != '<' && r[i] != '>' && (r[i] == '&' ==> StartsWithEntity(r[i..]))
      {
        if i < |w| {
          if i == 0 {
            assert r[..|w|] == w;
          }
        } else {
          assert r[i..] == t[i - |w|..];
        }
      }
    }
  }

  /** The escaped text can be placed inside `"..."` without ending it early. */
  lemma EscapedIsAttrSafe(s: string)
    ensures AttrSafe(HtmlAttrEscape(s))
  {
    EscapeIsChunkwise(s);
    ExpandSafe(s);
  }

  /** Decoding the entities, `&amp;` last, gives the original text back. */
  lemma EscapeRoundTrip(s: string)
    ensures DecodeEntities(HtmlAttrEscape(s)) == s
  {
    EscapeIsChunkwise(s);
    var d1 := ReplaceAll(Expand(4, s), "&quot;", "\"");
    assert d1 == Expand(5, s) by { ExpandStep(4, s); }
    var d2 := ReplaceAll(d1, "&lt;", "<");
    assert d2 == Expand(6, s) by { ExpandStep(5, s); }
    var d3 := ReplaceAll(d2, "&gt;", ">");
    assert d3 == Expand(7, s) by { ExpandStep(6, s); }
    var d4 := ReplaceAll(d3, "&amp;", "&");
    assert d4 == Expand(8, s) by { ExpandStep(7, s); }
    ExpandIdentity(8, s);
  }
}

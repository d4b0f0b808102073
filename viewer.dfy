/** The figure viewer of `ArticleDetail` in src/App.tsx: the de-duplicated
    figure list, wrap-around navigation, and the zoom and pan state of the
    lightbox. Scale is kept in hundredths (100 is 1x); pointer coordinates
    are whole pixels. */
module Viewer {
  import opened Text
  import opened JsValue

  /* ---------------- figures ---------------- */

  /** One entry of `images` or `figures`; a `null` entry has no URL. */
  datatype Figure = Figure(url: Option<string>, title: Option<string>, alt: Option<string>, sizeHuman: Option<string>)

  /** The two lists an article may carry: `Some` when the field is an array,
      `None` when it is absent. */
  datatype FigureLists = FigureLists(images: Option<seq<Figure>>, figures: Option<seq<Figure>>)

  /** `Array.isArray(src.images) ? src.images : src.figures`, then `if (!arr) return []`. */
  function Source(src: FigureLists): seq<Figure> {
    if src.images.Some? then src.images.value else src.figures.GetOr([])
  }

  /** `(f?.url || "").trim()`. */
  function UrlKey(f: Figure): string {
    Trim(f.url.GetOr(""))
  }

  /** The contents of `seen` after the first `|fs|` figures: every non-empty
      key met so far. */
  function Seen(fs: seq<Figure>): set<string> {
    if fs == [] then {}
    else
      var u := UrlKey(fs[|fs| - 1]);
      Seen(fs[..|fs| - 1]) + (if u != "" then {u} else {})
  }

  /** The figures the filter keeps: those with a non-empty key not met
      before. */
  function Dedup(fs: seq<Figure>): seq<Figure> {
    if fs == [] then []
    else
      var f := fs[|fs| - 1];
      var u := UrlKey(f);
      Dedup(fs[..|fs| - 1]) + (if u != "" && u !in Seen(fs[..|fs| - 1]) then [f] else [])
  }

  /** The `figures` memo. */
  method Figures(src: FigureLists) returns (figs: seq<Figure>)
    ensures figs == Dedup(Source(src))
  {
    var arr := Source(src);
    var seen: set<string> := {};
    figs := [];
    var i := 0;
    while i < |arr|
      invariant 0 <= i <= |arr|
      invariant figs == Dedup(arr[..i]) && seen == Seen(arr[..i])
    {
      var u := UrlKey(arr[i]);
      assert arr[..i + 1][..i] == arr[..i];
      if u != "" && u !in seen {
        seen := seen + {u};
        figs := figs + [arr[i]];
      }
      i := i + 1;
    }
    assert arr[..i] == arr;
  }

  /** `seen` holds exactly the non-empty keys of the figures met. */
  lemma {:induction false} SeenSpec(fs: seq<Figure>)
    ensures forall u :: u in Seen(fs) <==> u != "" && exists i :: 0 <= i < |fs| && UrlKey(fs[i]) == u
  {
    if fs != [] {
      var init := fs[..|fs| - 1];
      SeenSpec(init);
      assert forall i :: 0 <= i < |init| ==> init[i] == fs[i];
    }
  }

  /** The kept figures have non-empty, pairwise different keys, and their
      keys are exactly the non-empty keys of the input. */
  lemma {:induction false} DedupKeys(fs: seq<Figure>)
    ensures forall k :: 0 <= k < |Dedup(fs)| ==> UrlKey(Dedup(fs)[k]) != ""
    ensures forall k, l :: 0 <= k < l < |Dedup(fs)| ==> UrlKey(Dedup(fs)[k]) != UrlKey(Dedup(fs)[l])
    ensures forall u :: u in Seen(fs) <==> exists k :: 0 <= k < |Dedup(fs)| && UrlKey(Dedup(fs)[k]) == u
  {
    if fs != [] {
      var init, f := fs[..|fs| - 1], fs[|fs| - 1];
      DedupKeys(init);
      var d0, d := Dedup(init), Dedup(fs);
      var u := UrlKey(f);
      if u != "" && u !in Seen(init) {
        assert d == d0 + [f];
        assert forall k :: 0 <= k < |d0| ==> d[k] == d0[k];
        assert UrlKey(d[|d0|]) == u;
      } else {
        assert d == d0;
      }
    }
  }

  /** `fs[i]` is the first figure of `fs` with its key. */
  predicate FirstWithKey(fs: seq<Figure>, i: int) {
    0 <= i < |fs| && forall j :: 0 <= j < i ==> UrlKey(fs[j]) != UrlKey(fs[i])
  }

  /** A first occurrence stays first when figures are appended. */
  lemma FirstWithKeyExtend(fs: seq<Figure>, n: nat, i: int)
    requires n <= |fs| && FirstWithKey(fs[..n], i)
    ensures FirstWithKey(fs, i)
  {
    assert forall j :: 0 <= j <= i ==> fs[..n][j] == fs[j];
  }

  /** A figure with a non-empty key not seen before it is the first with
      its key. */
  lemma UnseenIsFirst(fs: seq<Figure>)
    requires fs != [] && UrlKey(fs[|fs| - 1]) != "" && UrlKey(fs[|fs| - 1]) !in Seen(fs[..|fs| - 1])
    ensures FirstWithKey(fs, |fs| - 1)
  {
    var init, u := fs[..|fs| - 1], UrlKey(fs[|fs| - 1]);
    SeenSpec(init);
    forall j | 0 <= j < |init|
      ensures UrlKey(fs[j]) != u
    {
      assert fs[j] == init[j];
    }
  }

  /** Each kept figure is the first of the input with its key. */
  lemma {:induction false} DedupKeepsFirst(fs: seq<Figure>)
    ensures forall k :: 0 <= k < |Dedup(fs)| ==> exists i :: FirstWithKey(fs, i) && Dedup(fs)[k] == fs[i]
  {
    if fs != [] {
      var n := |fs| - 1;
      var init := fs[..n];
      DedupKeepsFirst(init);
      var d0, d := Dedup(init), Dedup(fs);
      forall k | 0 <= k < |d|
        ensures exists i :: FirstWithKey(fs, i) && d[k] == fs[i]
      {
        if k < |d0| {
          assert d[k] == d0[k];
          var i :| FirstWithKey(init, i) && d0[k] == init[i];
          FirstWithKeyExtend(fs, n, i);
        } else {
          UnseenIsFirst(fs);
          assert d[k] == fs[n];
        }
      }
      assert forall k :: 0 <= k < |Dedup(fs)| ==> exists i :: FirstWithKey(fs, i) && Dedup(fs)[k] == fs[i];
    } else {
      assert Dedup(fs) == [];
    }
  }

  /** `s` can be obtained from `t` by deleting elements. */
  predicate Subsequence<T(==)>(s: seq<T>, t: seq<T>)
    decreases |t|
  {
    if s == [] then true
    else if t == [] then false
    else if s[|s| - 1] == t[|t| - 1] then Subsequence(s[..|s| - 1], t[..|t| - 1])
    else Subsequence(s, t[..|t| - 1])
  }

  lemma {:induction false} SubsequenceDropLast<T>(s: seq<T>, t: seq<T>)
    requires s != [] && Subsequence(s, t)
    ensures Subsequence(s[..|s| - 1], t)
    decreases |t|, 0
  {
    var s', t' := s[..|s| - 1], t[..|t| - 1];
    assert t' + [t[|t| - 1]] == t;
    if s' != [] {
      if s[|s| - 1] != t[|t| - 1] {
        SubsequenceDropLast(s, t');
      }
      SubsequenceExtend(s', t', t[|t| - 1]);
    }
  }

  lemma {:induction false} SubsequenceExtend<T>(s: seq<T>, t: seq<T>, x: T)
    requires Subsequence(s, t)
    ensures Subsequence(s, t + [x])
    decreases |t|, 1
  {
    var t' := t + [x];
    assert t'[..|t'| - 1] == t;
    if s != [] && s[|s| - 1] == x {
      SubsequenceDropLast(s, t);
    }
  }

  /** The filter keeps figures in their original order. */
  lemma {:induction false} DedupIsSubsequence(fs: seq<Figure>)
    ensures Subsequence(Dedup(fs), fs)
  {
    if fs != [] {
      var init, f := fs[..|fs| - 1], fs[|fs| - 1];
      DedupIsSubsequence(init);
      assert init + [f] == fs;
      var d := Dedup(fs);
      if UrlKey(f) != "" && UrlKey(f) !in Seen(init) {
        assert d == Dedup(init) + [f];
        assert d[..|d| - 1] == Dedup(init);
      } else {
        assert d == Dedup(init);
        SubsequenceExtend(Dedup(init), init, f);
      }
    }
  }

  /* ---------------- navigation ---------------- */

  /** `(i + 1) % figures.length`. */
  function Next(i: nat, n: nat): (r: nat)
    requires i < n
    ensures r < n
    ensures r == if i == n - 1 then 0 else i + 1
  {
    (i + 1) % n
  }

  /** `(i - 1 + figures.length) % figures.length`. */
  function Prev(i: nat, n: nat): (r: nat)
    requires i < n
    ensures r < n
    ensures r == if i == 0 then n - 1 else i - 1
  {
    (i - 1 + n) % n
  }

  /** Previous undoes next and next undoes previous. */
  lemma NavigationRoundTrip(i: nat, n: nat)
    requires i < n
    ensures Prev(Next(i, n), n) == i && Next(Prev(i, n), n) == i
  {
  }

  /* ---------------- zoom and pan ---------------- */

  /** `clamp(v, lo, hi)`. */
  function Clamp(v: int, lo: int, hi: int): (r: int)
    ensures lo <= hi ==> lo <= r <= hi
    ensures lo <= v <= hi ==> r == v
    ensures v < lo <= hi ==> r == lo
    ensures v > hi ==> r == hi
    ensures hi < lo ==> r == hi
  {
    if hi < (if lo < v then v else lo) then hi else if lo < v then v else lo
  }

  const MinScale := 100
  const MaxScale := 500
  /** The wheel and the zoom buttons step by 0.2. */
  const Step := 20

  /** The scale and translation the image is drawn with. */
  datatype Zoom = Zoom(scale: int, tx: int, ty: int)

  const Rest := Zoom(100, 0, 0)

  predicate InRange(z: Zoom) {
    MinScale <= z.scale <= MaxScale
  }

  /** `zoomBy(delta)`: the translation is left as it is, even at 1x. */
  function ZoomBy(z: Zoom, delta: int): Zoom {
    z.(scale := Clamp(z.scale + delta, MinScale, MaxScale))
  }

  /** `setZoom(val)`. */
  function SetZoom(z: Zoom, v: int): Zoom {
    z.(scale := Clamp(v, MinScale, MaxScale))
  }

  /** The state after `onWheel`: scrolling down zooms out, anything else
      zooms in; reaching 1x drops the translation. */
  function Wheel(z: Zoom, deltaY: int): Zoom {
    var next := Clamp(z.scale + (if deltaY > 0 then -Step else Step), MinScale, MaxScale);
    if next == MinScale then Zoom(next, 0, 0) else z.(scale := next)
  }

  /** The state after `onDoubleClick`: 1x goes to 2x, any other scale back
      to 1x without translation. */
  function DoubleClick(z: Zoom): Zoom {
    if z.scale == MinScale then z.(scale := 200) else Zoom(MinScale, 0, 0)
  }

  /** Every zoom operation keeps the scale between 1x and 5x. */
  lemma ZoomStaysInRange(z: Zoom, delta: int, v: int, deltaY: int)
    ensures InRange(ZoomBy(z, delta)) && InRange(SetZoom(z, v)) && InRange(Wheel(z, deltaY)) && InRange(DoubleClick(z))
  {
  }

  /** The wheel moves the scale by one step within range, and at 1x the
      image is never shifted afterwards; between 1x and 5x the translation
      is kept. */
  lemma WheelSpec(z: Zoom, deltaY: int)
    requires InRange(z)
    ensures var w := Wheel(z, deltaY);
      (deltaY > 0 ==> w.scale == if z.scale - Step < MinScale then MinScale else z.scale - Step) &&
      (deltaY <= 0 ==> w.scale == if z.scale + Step > MaxScale then MaxScale else z.scale + Step) &&
      (w.scale == MinScale ==> w.tx == 0 && w.ty == 0) &&
      (w.scale != MinScale ==> w.tx == z.tx && w.ty == z.ty)
  {
  }

  /** One step in and one step out return to the same scale when neither
      hits a bound. */
  lemma WheelInOut(z: Zoom)
    requires MinScale + Step < z.scale + Step <= MaxScale
    ensures Wheel(Wheel(z, -1), 1) == z
  {
  }

  /** Double-clicking twice returns to 1x from 1x, and otherwise ends at
      2x; a double click never leaves a translation at 1x. */
  lemma DoubleClickToggle(z: Zoom)
    ensures DoubleClick(z).scale == (if z.scale == MinScale then 200 else MinScale)
    ensures DoubleClick(DoubleClick(z)).scale == (if z.scale == MinScale then MinScale else 200)
    ensures DoubleClick(z).scale == MinScale ==> DoubleClick(z).tx == 0 && DoubleClick(z).ty == 0
  {
  }

  /** Unlike the wheel, the zoom-out button can reach 1x with the image
      still shifted. */
  lemma ZoomOutKeepsShift()
    ensures ZoomBy(Zoom(120, 30, 0), -Step) == Zoom(MinScale, 30, 0)
    ensures Wheel(Zoom(120, 30, 0), 1) == Zoom(MinScale, 0, 0)
  {
  }

  /** The state of the lightbox: which figure is open, the zoom, and the
      drag in progress. */
  class Lightbox {
    /** `figures.length`. */
    const count: nat
    /** `viewerIdx`. */
    var index: Option<nat>
    var zoom: Zoom
    var dragging: bool
    /** `dragStart.current`. */
    var start: (int, int, int, int)

    ghost predicate Valid()
      reads this
    {
      InRange(zoom) && (index.Some? ==> index.value < count)
    }

    constructor (count: nat)
      ensures Valid() && this.count == count
      ensures index == None && zoom == Rest && !dragging && start == (0, 0, 0, 0)
    {
      this.count := count;
      index := None;
      zoom := Rest;
      dragging := false;
      start := (0, 0, 0, 0);
    }

    /** `resetZoom()`. */
    method ResetZoom()
      modifies this
      ensures zoom == Rest
      ensures index == old(index) && dragging == old(dragging) && start == old(start)
    {
      zoom := Rest;
    }

    /** A click on figure `i`: open it at 1x. */
    method Open(i: nat)
      requires Valid() && i < count
      modifies this
      ensures Valid() && index == Some(i) && zoom == Rest
      ensures dragging == old(dragging) && start == old(start)
    {
      index := Some(i);
      ResetZoom();
    }

    /** The Close button. */
    method Close()
      requires Valid()
      modifies this
      ensures Valid() && index == None && zoom == Rest
      ensures dragging == old(dragging) && start == old(start)
    {
      index := None;
      ResetZoom();
    }

    /** The `‹` and `›` buttons, shown when there is more than one figure:
        move with wrap-around and reset the zoom. */
    method Navigate(forward: bool)
      requires Valid() && index.Some?
      modifies this
      ensures Valid() && zoom == Rest
      ensures index == Some(if forward then Next(old(index).value, count) else Prev(old(index).value, count))
      ensures dragging == old(dragging) && start == old(start)
    {
      var i := index.value;
      index := Some(if forward then Next(i, count) else Prev(i, count));
      ResetZoom();
    }

    /** The keyboard: Escape closes, the arrows move with wrap-around; none
        of them resets the zoom. */
    method OnKey(key: string)
      requires Valid() && index.Some?
      modifies this
      ensures Valid() && zoom == old(zoom) && dragging == old(dragging) && start == old(start)
      ensures key == "Escape" ==> index == None
      ensures key == "ArrowLeft" ==> index == Some(Prev(old(index).value, count))
      ensures key == "ArrowRight" ==> index == Some(Next(old(index).value, count))
      ensures key != "Escape" && key != "ArrowLeft" && key != "ArrowRight" ==> index == old(index)
    {
      var i := index.value;
      if key == "Escape" {
        index := None;
      } else if key == "ArrowLeft" {
        index := Some(Prev(i, count));
      } else if key == "ArrowRight" {
        index := Some(Next(i, count));
      }
    }

    /** `zoomBy(delta)`, `delta` in hundredths. */
    method ZoomByStep(delta: int)
      requires Valid()
      modifies this
      ensures Valid() && zoom == ZoomBy(old(zoom), delta)
      ensures index == old(index) && dragging == old(dragging) && start == old(start)
    {
      zoom := zoom.(scale := Clamp(zoom.scale + delta, MinScale, MaxScale));
    }

    /** `setZoom(val)`, `val` in hundredths. */
    method SetZoomTo(v: int)
      requires Valid()
      modifies this
      ensures Valid() && zoom == SetZoom(old(zoom), v)
      ensures index == old(index) && dragging == old(dragging) && start == old(start)
    {
      zoom := zoom.(scale := Clamp(v, MinScale, MaxScale));
    }

    method OnWheel(deltaY: int)
      requires Valid()
      modifies this
      ensures Valid() && zoom == Wheel(old(zoom), deltaY)
      ensures index == old(index) && dragging == old(dragging) && start == old(start)
    {
      var step := if deltaY > 0 then -Step else Step;
      var next := Clamp(zoom.scale + step, MinScale, MaxScale);
      if next == MinScale {
        zoom := zoom.(tx := 0, ty := 0);
      }
      zoom := zoom.(scale := next);
    }

    method OnDoubleClick()
      requires Valid()
      modifies this
      ensures Valid() && zoom == DoubleClick(old(zoom))
      ensures index == old(index) && dragging == old(dragging) && start == old(start)
    {
      var next := if zoom.scale == MinScale then 200 else MinScale;
      if next == MinScale {
        zoom := zoom.(tx := 0, ty := 0);
      }
      zoom := zoom.(scale := next);
    }

    /** A press starts a drag, remembering the pointer and the translation,
        unless the image is at 1x. */
    method OnMouseDown(x: int, y: int)
      requires Valid()
      modifies this
      ensures Valid() && zoom == old(zoom) && index == old(index)
      ensures old(zoom.scale) == MinScale ==> dragging == old(dragging) && start == old(start)
      ensures old(zoom.scale) != MinScale ==> dragging && start == (x, y, zoom.tx, zoom.ty)
    {
      if zoom.scale == MinScale {
        return;
      }
      dragging := true;
      start := (x, y, zoom.tx, zoom.ty);
    }

    /** While dragging, the translation is the one at the press plus the
        pointer's displacement since. */
    method OnMouseMove(x: int, y: int)
      requires Valid()
      modifies this
      ensures Valid() && zoom.scale == old(zoom.scale) && index == old(index)
      ensures dragging == old(dragging) && start == old(start)
      ensures !dragging ==> zoom == old(zoom)
      ensures dragging ==> zoom.tx == start.2 + (x - start.0) && zoom.ty == start.3 + (y - start.1)
    {
      if !dragging {
        return;
      }
      var dx := x - start.0;
      var dy := y - start.1;
      zoom := zoom.(tx := start.2 + dx, ty := start.3 + dy);
    }

    /** `stopDrag`, on release or when the pointer leaves. */
    method StopDrag()
      modifies this
      ensures !dragging && zoom == old(zoom) && index == old(index) && start == old(start)
    {
      dragging := false;
    }
  }
}

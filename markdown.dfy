/** The Markdown side of scripts/md.js: the fenced-code renderer override
    that turns `chart` and `chartcsv` fences into chart placeholders, and
    `loadMDDir`, which derives each record's `slug` and `key`. */
module Markdown {
  import opened Text
  import opened JsValue
  import opened Slug
  import opened AttrEscape
  import opened Csv
  import opened Seqs

  /* ---------------- the code-fence renderer ---------------- */

  /** One entry of `data.datasets`. */
  datatype Dataset = Dataset(seriesLabel: string, data: seq<real>)

  /** The Chart.js configuration a `chartcsv` fence is turned into. */
  datatype ChartConfig = ChartConfig(
    chartType: string,
    labels: seq<string>,
    datasets: seq<Dataset>,
    indexAxis: string,
    responsive: bool,
    legendDisplay: bool,
    titleDisplay: bool,
    xBeginAtZero: bool,
    xGrace: string)

  /** `(infostring || "").trim().toLowerCase()`; a missing info string is `None`. */
  function Lang(infostring: Option<string>): string {
    LowerStr(Trim(infostring.GetOr("")))
  }

  const ChartOpen: string := "\n<div class=\"ha-chart\">\n  <canvas data-chart=\""
  const ChartClose: string := "\"></canvas>\n</div>"

  /** The placeholder both chart branches return. */
  function ChartMarkup(dataAttr: string): string {
    ChartOpen + dataAttr + ChartClose
  }

  /** How a browser reads the placeholder back: the `data-chart` attribute
      runs up to the next double quote, and its entities are decoded. */
  function ChartData(html: string): Option<string> {
    if StartsWith(html, ChartOpen) then Some(DecodeEntities(BeforeFirst(html[|ChartOpen|..], "\"")))
    else None
  }

  /** The bar chart scaffold built from a CSV series. */
  function CsvChartConfig(series: Series): ChartConfig {
    ChartConfig("bar", series.labels, [Dataset("Frequency", series.values)],
                "y", true, false, false, true, "5%")
  }

  /** The scaffold is a horizontal bar chart with one dataset, "Frequency",
      whose labels and data are exactly the CSV's labels and values. */
  lemma CsvChartConfigShape(series: Series)
    ensures var c := CsvChartConfig(series);
      c.chartType == "bar" && c.indexAxis == "y" &&
      c.labels == series.labels && |c.datasets| == 1 &&
      c.datasets[0].seriesLabel == "Frequency" && c.datasets[0].data == series.values &&
      c.responsive && !c.legendDisplay && !c.titleDisplay && c.xBeginAtZero && c.xGrace == "5%"
  {
  }

  /** `renderer.code(code, infostring, escaped)`. `JSON.stringify` and the
      original renderer are passed in; `escaped` is handed through to the
      latter untouched and is not modelled. */
  method RenderCode(code: string, infostring: Option<string>,
                    toNumber: string -> JsNumber,
                    stringify: ChartConfig -> string,
                    origCode: (string, Option<string>) -> string)
    returns (html: string)
    ensures Lang(infostring) == "chart" ==> html == ChartMarkup(HtmlAttrEscape(code))
    ensures Lang(infostring) == "chart" ==> ChartData(html) == Some(code)
    ensures Lang(infostring) == "chartcsv" ==>
      html == ChartMarkup(HtmlAttrEscape(stringify(CsvChartConfig(CsvSeries(code, toNumber)))))
    ensures Lang(infostring) == "chartcsv" ==>
      ChartData(html) == Some(stringify(CsvChartConfig(CsvSeries(code, toNumber))))
    ensures Lang(infostring) in {"chart", "chartcsv"} ==>
      |ChartOpen| + |ChartClose| <= |html| && AttrSafe(html[|ChartOpen|..|html| - |ChartClose|])
    ensures Lang(infostring) !in {"chart", "chartcsv"} ==> html == origCode(code, infostring)
  {
    var lang := Lang(infostring);
    if lang == "chart" {
      var dataAttr := HtmlAttrEscape(code);
      html := ChartMarkup(dataAttr);
      ChartMarkupReadBack(code, html);
      return;
    }
    if lang == "chartcsv" {
      var labels, values := ParseCsv(code, toNumber);
      var cfg := CsvChartConfig(Series(labels, values));
      var dataAttr := HtmlAttrEscape(stringify(cfg));
      html := ChartMarkup(dataAttr);
      ChartMarkupReadBack(stringify(cfg), html);
      return;
    }
    html := origCode(code, infostring);
  }

  /** The escaped text sits between the two fixed halves of the placeholder. */
  lemma ChartMarkupParts(a: string)
    ensures var html := ChartMarkup(a);
      StartsWith(html, ChartOpen) && |ChartOpen| + |ChartClose| <= |html| &&
      html[|ChartOpen|..] == a + ChartClose && html[|ChartOpen|..|html| - |ChartClose|] == a
  {
    var html := ChartMarkup(a);
    assert html[..|ChartOpen|] == ChartOpen;
    assert html[|ChartOpen|..] == a + ChartClose;
  }

  /** The text before the first quote of `a + ChartClose` is `a` itself when
      `a` holds no quote. */
  lemma BeforeQuote(a: string)
    requires '"' !in a
    ensures BeforeFirst(a + ChartClose, "\"") == a
  {
    var s := a + ChartClose;
    var r := BeforeFirst(s, "\"");
    assert StartsWith(s[|a|..], "\"") by {
      assert s[|a|..] == ChartClose;
    }
    assert r == s[..|r|];
    assert s[..|a|] == a;
  }

  /** A placeholder built from the escaped text gives that text back, and
      nothing in it can close the attribute early. */
  lemma ChartMarkupReadBack(text: string, html: string)
    requires html == ChartMarkup(HtmlAttrEscape(text))
    ensures ChartData(html) == Some(text)
    ensures |ChartOpen| + |ChartClose| <= |html| && AttrSafe(html[|ChartOpen|..|html| - |ChartClose|])
  {
    var a := HtmlAttrEscape(text);
    EscapedIsAttrSafe(text);
    EscapeRoundTrip(text);
    ChartMarkupParts(a);
    assert '"' !in a by {
      forall i | 0 <= i < |a|
        ensures a[i] != '"'
      {
      }
    }
    BeforeQuote(a);
  }

  /** Lowering commutes with trimming, since no letter is whitespace. */
  lemma {:induction false} TrimStartLower(s: string)
    ensures TrimStart(LowerStr(s)) == LowerStr(TrimStart(s))
  {
    if s != [] {
      assert LowerStr(s)[1..] == LowerStr(s[1..]);
      TrimStartLower(s[1..]);
    }
  }

  lemma {:induction false} TrimEndLower(s: string)
    ensures TrimEnd(LowerStr(s)) == LowerStr(TrimEnd(s))
  {
    if s != [] {
      assert LowerStr(s)[..|s| - 1] == LowerStr(s[..|s| - 1]);
      TrimEndLower(s[..|s| - 1]);
    }
  }

  /** The fence language ignores letter case: `Chart` and `CHART` are `chart`. */
  lemma LangIgnoresCase(s: string)
    ensures Lang(Some(s)) == Lang(Some(LowerStr(s)))
  {
    TrimStartLower(s);
    TrimEndLower(TrimStart(s));
    var t := Trim(s);
    assert LowerStr(LowerStr(t)) == LowerStr(t);
  }

  /* ---------------- loadMDDir ---------------- */

  /** What gray-matter gives back for a file: its front-matter and body. */
  datatype FrontMatter = FrontMatter(data: Record, content: string)

  /** `filename.replace(/\.md$/i, "")`. */
  function MdStem(filename: string): (r: string)
    ensures |r| <= |filename| && r == filename[..|r|]
  {
    if EndsWithNoCase(filename, ".md") then filename[..|filename| - 3]
    else filename
  }

  /** The stem is what is left after an `.md` extension, in any letter case,
      and the whole name when there is none. */
  lemma MdStemSpec(filename: string)
    ensures var stem := MdStem(filename);
      (EndsWith(filename, ".md") ==> filename == stem + ".md") &&
      (!EndsWithNoCase(filename, ".md") ==> stem == filename)
  {
    if EndsWith(filename, ".md") {
      var tail := filename[|filename| - 3..];
      assert tail == ".md";
      assert LowerStr(tail) == tail;
      assert filename == filename[..|filename| - 3] + tail;
    }
  }

  /** `data.slug ? String(data.slug) : slugify(data.title || base)`. A truthy
      title that is not a string has no `toLowerCase`, so `slugify` throws. */
  function DerivedSlug(data: Record, base: string): Result<string> {
    if TruthyField(data, "slug") then Ok(ToJsString(data["slug"]))
    else if TruthyField(data, "title") then
      (match data["title"]
       case Str(t) => Ok(Slugify(t))
       case _ => Throws)
    else Ok(Slugify(base))
  }

  /** `{ ...data, slug: derivedSlug, key, html }`. */
  function MdRecord(filename: string, data: Record, html: string): Result<Record> {
    match DerivedSlug(data, MdStem(filename))
    case Throws => Throws
    case Ok(slug) =>
      var key := if TruthyField(data, "key") then ToJsString(data["key"]) else slug;
      Ok(data["slug" := Str(slug)]["key" := Str(key)]["html" := Str(html)])
  }

  /** The identifiers: `slug` from front-matter when truthy, else a slug of
      the title or stem; `key` from front-matter when truthy, else `slug`;
      `html` the rendered body. Every other front-matter field passes
      through, and no field is invented. */
  lemma MdRecordFields(filename: string, data: Record, html: string)
    requires MdRecord(filename, data, html).Ok?
    ensures var rec := MdRecord(filename, data, html).value;
      rec.Keys == data.Keys + {"slug", "key", "html"} &&
      (forall k :: k in data && k !in {"slug", "key", "html"} ==> rec[k] == data[k]) &&
      rec["html"] == Str(html) &&
      (TruthyField(data, "slug") ==> rec["slug"] == Str(ToJsString(data["slug"]))) &&
      (!TruthyField(data, "slug") ==> rec["slug"].Str? && IsSlug(rec["slug"].s)) &&
      (!TruthyField(data, "slug") && TruthyField(data, "title") ==>
         data["title"].Str? && rec["slug"] == Str(Slugify(data["title"].s))) &&
      (!TruthyField(data, "slug") && !TruthyField(data, "title") ==>
         rec["slug"] == Str(Slugify(MdStem(filename)))) &&
      (TruthyField(data, "key") ==> rec["key"] == Str(ToJsString(data["key"]))) &&
      (!TruthyField(data, "key") ==> rec["key"] == rec["slug"])
  {
    if !TruthyField(data, "slug") {
      if TruthyField(data, "title") {
        SlugifyIsSlug(data["title"].s);
      } else {
        SlugifyIsSlug(MdStem(filename));
      }
    }
  }

  /** Building a record from parsed front matter fails exactly when there is
      no truthy `slug` and the truthy `title` is not a string. */
  lemma MdRecordThrows(filename: string, data: Record, html: string)
    ensures MdRecord(filename, data, html).Throws? <==>
      !TruthyField(data, "slug") && TruthyField(data, "title") && !data["title"].Str?
  {
  }

  /** `readdirSync(dir).filter(f => f.endsWith(".md"))`: case-sensitive. */
  function MdFiles(files: seq<string>): seq<string> {
    if files == [] then []
    else (if EndsWith(files[0], ".md") then [files[0]] else []) + MdFiles(files[1..])
  }

  /** Exactly the listed names ending in `.md`. */
  lemma {:induction false} MdFilesSpec(files: seq<string>)
    ensures forall f :: f in MdFiles(files) <==> f in files && EndsWith(f, ".md")
  {
    if files != [] {
      MdFilesSpec(files[1..]);
      assert files == [files[0]] + files[1..];
    }
  }

  /** The record of one listed file. `read` stands for reading the file and
      parsing its front matter, and throws when either does. */
  function FileRecord(name: string, read: string -> Result<FrontMatter>, render: string -> string): Result<Record> {
    match read(name)
    case Throws => Throws
    case Ok(fm) => MdRecord(name, fm.data, render(fm.content))
  }

  /** A record fails exactly when reading or front-matter parsing throws, or
      when the front matter has no truthy `slug` and a truthy `title` that is
      not a string. */
  lemma FileRecordThrows(name: string, read: string -> Result<FrontMatter>, render: string -> string)
    ensures FileRecord(name, read, render).Throws? <==>
      read(name).Throws? ||
      (var data := read(name).value.data;
       !TruthyField(data, "slug") && TruthyField(data, "title") && !data["title"].Str?)
  {
    if read(name).Ok? {
      var fm := read(name).value;
      MdRecordThrows(name, fm.data, render(fm.content));
    }
  }

  function MdLoader(read: string -> Result<FrontMatter>, render: string -> string): string -> Result<Record> {
    name => FileRecord(name, read, render)
  }

  /** `loadMDDir(dir)`: the directory listing, file reading (with front-matter
      parsing) and Markdown rendering are passed in; the first record that
      throws ends the load. */
  function LoadMDDir(files: seq<string>, read: string -> Result<FrontMatter>, render: string -> string): Result<seq<Record>> {
    TryMap(MdFiles(files), MdLoader(read, render))
  }

  /** Every listed file's record builds. */
  predicate AllRecordsOk(names: seq<string>, read: string -> Result<FrontMatter>, render: string -> string) {
    forall i :: 0 <= i < |names| ==> FileRecord(names[i], read, render).Ok?
  }

  /** The load succeeds exactly when every `.md` file's record does. */
  lemma LoadMDDirOk(files: seq<string>, read: string -> Result<FrontMatter>, render: string -> string)
    ensures LoadMDDir(files, read, render).Ok? <==> AllRecordsOk(MdFiles(files), read, render)
  {
    LoaderOk(MdFiles(files), read, render);
  }

  lemma {:induction false} LoaderOk(names: seq<string>, read: string -> Result<FrontMatter>, render: string -> string)
    ensures TryMap(names, MdLoader(read, render)).Ok? <==> AllRecordsOk(names, read, render)
  {
    if names != [] {
      var f := MdLoader(read, render);
      assert f(names[0]) == FileRecord(names[0], read, render);
      LoaderOk(names[1..], read, render);
      assert forall i :: 0 < i < |names| ==> names[i] == names[1..][i - 1];
    }
  }

  /** A successful load holds the `.md` files' records in listing order. */
  lemma LoadMDDirValues(files: seq<string>, read: string -> Result<FrontMatter>, render: string -> string)
    requires LoadMDDir(files, read, render).Ok?
    ensures var rs, names := LoadMDDir(files, read, render).value, MdFiles(files);
      |rs| == |names| && forall i :: 0 <= i < |names| ==> FileRecord(names[i], read, render) == Ok(rs[i])
  {
    var names, f := MdFiles(files), MdLoader(read, render);
    TryMapValues(names, f);
    assert forall i :: 0 <= i < |names| ==> f(names[i]) == FileRecord(names[i], read, render);
  }
}

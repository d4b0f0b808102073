/** build-articles.js: one entry per Markdown article that parses, then the
    entries sorted with dated articles first, newest first, and undated
    articles by title. Directory listing, file reading, front-matter parsing
    and rendering are passed in. */
module Articles {
  import opened Text
  import opened JsValue
  import opened Markdown
  import opened Sorting
  import opened Seqs

  /** One object of `articles-data.json`. `undefined` fields are `None`. */
  datatype Entry = Entry(key: Value, title: Value, excerpt: Value, cover: Option<Value>,
                         icon: Value, date: Option<Value>, html: string)

  /** `file.replace(/\.md$/, "")`: case-sensitive, unlike `loadMDDir`. */
  function Stem(file: string): string {
    if EndsWith(file, ".md") then file[..|file| - 3] else file
  }

  /** `data.k || fallback`. */
  function Or(data: Record, k: string, fallback: Value): Value {
    if TruthyField(data, k) then data[k] else fallback
  }

  /** `data.k || undefined`. */
  function OrUndefined(data: Record, k: string): Option<Value> {
    if TruthyField(data, k) then Some(data[k]) else None
  }

  /** The object pushed for one file. */
  function MakeEntry(file: string, fm: FrontMatter, html: string): Entry {
    var stem := Str(Stem(file));
    Entry(Or(fm.data, "slug", stem), Or(fm.data, "title", stem),
          Or(fm.data, "excerpt", Str(BeforeFirst(fm.content, "\n\n"))),
          OrUndefined(fm.data, "cover"), Or(fm.data, "icon", Str("book")),
          OrUndefined(fm.data, "date"), html)
  }

  /** The key is the truthy front-matter `slug`, else the file name without
      `.md`; the title is the truthy `title`, else that same stem; the
      excerpt is the truthy `excerpt`, else the body up to its first blank
      line; the icon defaults to "book"; cover and date are present only
      when truthy. */
  lemma MakeEntryFields(file: string, fm: FrontMatter, html: string)
    requires EndsWith(file, ".md")
    ensures var e, stem := MakeEntry(file, fm, html), file[..|file| - 3];
      file == stem + ".md" &&
      (e.key == if TruthyField(fm.data, "slug") then fm.data["slug"] else Str(stem)) &&
      (e.title == if TruthyField(fm.data, "title") then fm.data["title"] else Str(stem)) &&
      (!TruthyField(fm.data, "excerpt") ==>
         e.excerpt.Str? && StartsWith(fm.content, e.excerpt.s) &&
         (forall k :: 0 <= k < |e.excerpt.s| ==> !StartsWith(fm.content[k..], "\n\n")) &&
         (|e.excerpt.s| < |fm.content| ==> StartsWith(fm.content[|e.excerpt.s|..], "\n\n"))) &&
      (e.icon == if TruthyField(fm.data, "icon") then fm.data["icon"] else Str("book")) &&
      (TruthyField(fm.data, "excerpt") ==> e.excerpt == fm.data["excerpt"]) &&
      (e.cover == if TruthyField(fm.data, "cover") then Some(fm.data["cover"]) else None) &&
      (e.date == if TruthyField(fm.data, "date") then Some(fm.data["date"]) else None) &&
      (e.date.Some? ==> Truthy(e.date.value)) &&
      e.html == html
  {
    assert file == file[..|file| - 3] + file[|file| - 3..];
  }

  /** What one directory entry contributes: nothing unless its name ends in
      `.md`; nothing when front-matter parsing or rendering throws (the
      `catch` logs and goes on); otherwise its entry. */
  function FileEntries(file: string, read: string -> string, matter: string -> Result<FrontMatter>,
                       render: string -> Result<string>): seq<Entry> {
    if !EndsWith(file, ".md") then []
    else
      match matter(read(file))
      case Throws => []
      case Ok(fm) =>
        match render(fm.content)
        case Throws => []
        case Ok(html) => [MakeEntry(file, fm, html)]
  }

  function FileLoader(read: string -> string, matter: string -> Result<FrontMatter>,
                      render: string -> Result<string>): string -> seq<Entry> {
    file => FileEntries(file, read, matter, render)
  }

  /** The `articles` array after the loop, before the sort. */
  function Collected(files: seq<string>, read: string -> string, matter: string -> Result<FrontMatter>,
                     render: string -> Result<string>): seq<Entry> {
    FlatMap(files, FileLoader(read, matter, render))
  }

  /** Files are processed independently and in order: a file that is
      skipped leaves the entries of the files around it as they are. */
  lemma CollectedSplit(a: seq<string>, f: string, b: seq<string>, read: string -> string,
                       matter: string -> Result<FrontMatter>, render: string -> Result<string>)
    ensures Collected(a + [f] + b, read, matter, render)
         == Collected(a, read, matter, render) + FileEntries(f, read, matter, render) + Collected(b, read, matter, render)
  {
    var g := FileLoader(read, matter, render);
    FlatMapConcat(a + [f], b, g);
    FlatMapConcat(a, [f], g);
    FlatMapOne(f, g);
  }

  /** A file contributes exactly one entry when its name ends in `.md` and
      both parsing and rendering return, and none otherwise. */
  lemma FileEntriesSpec(f: string, read: string -> string, matter: string -> Result<FrontMatter>,
                        render: string -> Result<string>)
    ensures var es, fm := FileEntries(f, read, matter, render), matter(read(f));
      |es| <= 1 &&
      (|es| == 1 <==> EndsWith(f, ".md") && fm.Ok? && render(fm.value.content).Ok?) &&
      (|es| == 1 ==> es[0] == MakeEntry(f, fm.value, render(fm.value.content).value))
  {
  }

  /** `processArticles` up to the sort, then `articles.sort(...)`, with the
      sorted array as the result. */
  method ProcessArticles(files: seq<string>, read: string -> string, matter: string -> Result<FrontMatter>,
                         render: string -> Result<string>) returns (out: seq<Entry>)
    ensures multiset(out) == multiset(Collected(files, read, matter, render))
    ensures Sorted(Compare, out)
  {
    var articles: seq<Entry> := [];
    var i := 0;
    while i < |files|
      invariant 0 <= i <= |files|
      invariant articles == Collected(files[..i], read, matter, render)
    {
      var file := files[i];
      assert files[..i + 1][..i] == files[..i];
      assert FileLoader(read, matter, render)(file) == FileEntries(file, read, matter, render);
      if EndsWith(file, ".md") {
        var parsed := matter(read(file));
        if parsed.Ok? {
          var fm := parsed.value;
          var html := render(fm.content);
          if html.Ok? {
            articles := articles + [MakeEntry(file, fm, html.value)];
          }
        }
      }
      i := i + 1;
    }
    assert files[..i] == files;
    var arr := new Entry[|articles|](k requires 0 <= k < |articles| => articles[k]);
    assert arr[..] == articles;
    SortArticles(arr);
    out := arr[..];
  }

  /** `!a.date`. */
  predicate Dated(e: Entry) {
    e.date.Some? && Truthy(e.date.value)
  }

  /** The comparator of `articles.sort`. `localeCompare` is taken as
      ordinal comparison of the strings. */
  function Compare(a: Entry, b: Entry): int {
    if !Dated(a) && !Dated(b) then StrCompare(ToJsString(a.title), ToJsString(b.title))
    else if !Dated(a) then 1
    else if !Dated(b) then -1
    else StrCompare(ToJsString(b.date.value), ToJsString(a.date.value))
  }

  /** Swapping the arguments negates the comparison. */
  lemma CompareAntisymmetric(a: Entry, b: Entry)
    ensures Compare(a, b) == -Compare(b, a)
  {
    if !Dated(a) && !Dated(b) {
      StrCompareAntisymmetric(ToJsString(a.title), ToJsString(b.title));
    } else if Dated(a) && Dated(b) {
      StrCompareAntisymmetric(ToJsString(b.date.value), ToJsString(a.date.value));
    }
  }

  lemma CompareTransitive(a: Entry, b: Entry, c: Entry)
    requires Compare(a, b) <= 0 && Compare(b, c) <= 0
    ensures Compare(a, c) <= 0
  {
    if !Dated(a) && !Dated(b) && !Dated(c) {
      StrCompareTransitive(ToJsString(a.title), ToJsString(b.title), ToJsString(c.title));
    } else if Dated(a) && Dated(b) && Dated(c) {
      StrCompareTransitive(ToJsString(c.date.value), ToJsString(b.date.value), ToJsString(a.date.value));
    }
  }

  /** The comparator is consistent, so the sort's result is defined. */
  lemma CompareConsistent()
    ensures Consistent(Compare)
  {
    forall x, y
      ensures Le(Compare, x, y) || Le(Compare, y, x)
    {
      CompareAntisymmetric(x, y);
    }
    forall x, y, z | Le(Compare, x, y) && Le(Compare, y, z)
      ensures Le(Compare, x, z)
    {
      CompareTransitive(x, y, z);
    }
  }

  /** Two articles with the same date compare equal whatever their titles. */
  lemma SameDateNoTiebreak(a: Entry, b: Entry)
    requires Dated(a) && Dated(b) && a.date == b.date
    ensures Compare(a, b) == 0 && Compare(b, a) == 0
  {
    StrCompareZero(ToJsString(a.date.value), ToJsString(b.date.value));
  }

  /** `articles.sort(...)`, in place. */
  method SortArticles(a: array<Entry>)
    modifies a
    ensures Sorted(Compare, a[..])
    ensures multiset(a[..]) == multiset(old(a[..]))
  {
    CompareConsistent();
    InsertionSort(a, Compare);
  }

  /** In a sorted list every dated article precedes every undated one, dated
      articles run from the latest date string to the earliest, and undated
      articles run in ascending title order. */
  lemma SortedOrder(s: seq<Entry>)
    requires Sorted(Compare, s)
    ensures forall i, j :: 0 <= i < j < |s| ==>
      (Dated(s[j]) ==> Dated(s[i])) &&
      (Dated(s[i]) && Dated(s[j]) ==> StrCompare(ToJsString(s[j].date.value), ToJsString(s[i].date.value)) <= 0) &&
      (!Dated(s[i]) && !Dated(s[j]) ==> StrCompare(ToJsString(s[i].title), ToJsString(s[j].title)) <= 0)
  {
    forall i, j | 0 <= i < j < |s|
      ensures Compare(s[i], s[j]) <= 0
    {
      assert Le(Compare, s[i], s[j]);
    }
  }
}

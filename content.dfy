/** The aggregation in scripts/build-content.js: HTML records and content
    directories, the images of an article, date backfill and book sizes.
    Directory listings, file existence, sizes and modification dates are
    passed in. */
module Content {
  import opened Text
  import opened JsValue
  import opened ByteSize
  import opened Markdown
  import opened Seqs

  /* ---------------- loadHTMLDir / loadContentDir ---------------- */

  /** `base.replace(/[-_]/g, " ")`. */
  function DashesToSpaces(s: string): string {
    seq(|s|, i requires 0 <= i < |s| => if s[i] == '-' || s[i] == '_' then ' ' else s[i])
  }

  /** `filename.replace(/\.html$/i, "")`. */
  function HtmlStem(filename: string): string {
    if EndsWithNoCase(filename, ".html") then filename[..|filename| - 5] else filename
  }

  /** `base.replace(/[-_]/g, " ").replace(/\s+/g, " ").trim()`. */
  function HtmlTitle(base: string): string {
    Trim(ReplaceSpaceRuns(DashesToSpaces(base), ' '))
  }

  /** `{ title, slug: base, key: base, html }`. */
  function HtmlRecord(filename: string, html: string): Record {
    var base := HtmlStem(filename);
    map["title" := Str(HtmlTitle(base)), "slug" := Str(base), "key" := Str(base), "html" := Str(html)]
  }

  /** `readdirSync(dir).filter(f => f.toLowerCase().endsWith(".html"))`. */
  function HtmlFiles(files: seq<string>): seq<string> {
    if files == [] then []
    else (if EndsWithNoCase(files[0], ".html") then [files[0]] else []) + HtmlFiles(files[1..])
  }

  /** Exactly the listed names ending in `.html`, in any letter case. */
  lemma {:induction false} HtmlFilesSpec(files: seq<string>)
    ensures forall f :: f in HtmlFiles(files) <==> f in files && EndsWithNoCase(f, ".html")
  {
    if files != [] {
      HtmlFilesSpec(files[1..]);
      assert files == [files[0]] + files[1..];
    }
  }

  /** `loadHTMLDir(dir)`; `listing` is `None` when the directory is missing. */
  function LoadHTMLDir(listing: Option<seq<string>>, read: string -> string): seq<Record> {
    match listing
    case None => []
    case Some(files) => Map(HtmlFiles(files), HtmlLoader(read))
  }

  function HtmlLoader(read: string -> string): string -> Record {
    name => HtmlRecord(name, read(name))
  }

  /** `[...loadMDDir(dir), ...loadHTMLDir(dir)]`. `loadMDDir` lists the
      directory without checking that it exists, so a missing directory
      throws. */
  function LoadContentDir(listing: Option<seq<string>>, readMd: string -> Result<FrontMatter>,
                          render: string -> string, readHtml: string -> string): Result<seq<Record>> {
    match listing
    case None => Throws
    case Some(files) =>
      match LoadMDDir(files, readMd, render)
      case Throws => Throws
      case Ok(md) => Ok(md + LoadHTMLDir(listing, readHtml))
  }

  /** The title has no `-` or `_`, no whitespace run longer than one
      character and no whitespace at either end; its other characters come
      from the stem. */
  lemma HtmlTitleSpec(base: string)
    ensures var t := HtmlTitle(base);
      (forall i :: 0 <= i < |t| ==> t[i] != '-' && t[i] != '_' && (t[i] == ' ' || (!IsSpace(t[i]) && t[i] in base))) &&
      (forall i :: 0 <= i < |t| - 1 ==> !(IsSpace(t[i]) && IsSpace(t[i + 1]))) &&
      (t == [] || (!IsSpace(t[0]) && !IsSpace(t[|t| - 1])))
  {
    HtmlTitleChars(base);
    HtmlTitleSingleSpaces(base);
    TrimEnds(ReplaceSpaceRuns(DashesToSpaces(base), ' '));
  }

  lemma HtmlTitleChars(base: string)
    ensures var t := HtmlTitle(base);
      forall i :: 0 <= i < |t| ==> t[i] != '-' && t[i] != '_' && (t[i] == ' ' || (!IsSpace(t[i]) && t[i] in base))
  {
    DashesToSpacesChars(base);
    var w := ReplaceSpaceRuns(DashesToSpaces(base), ' ');
    var t := Trim(w);
    TrimSlice(w);
    var lead := |w| - |TrimStart(w)|;
    forall i | 0 <= i < |t|
      ensures t[i] != '-' && t[i] != '_' && (t[i] == ' ' || (!IsSpace(t[i]) && t[i] in base))
    {
      assert t[i] == w[lead + i];
    }
  }

  lemma HtmlTitleSingleSpaces(base: string)
    ensures var t := HtmlTitle(base);
      forall i :: 0 <= i < |t| - 1 ==> !(IsSpace(t[i]) && IsSpace(t[i + 1]))
  {
    var w := ReplaceSpaceRuns(DashesToSpaces(base), ' ');
    var t := Trim(w);
    TrimSlice(w);
    var lead := |w| - |TrimStart(w)|;
    forall i | 0 <= i < |t| - 1
      ensures !(IsSpace(t[i]) && IsSpace(t[i + 1]))
    {
      assert t[i] == w[lead + i] && t[i + 1] == w[lead + i + 1];
    }
  }

  lemma DashesToSpacesChars(base: string)
    ensures forall c :: c in DashesToSpaces(base) && !IsSpace(c) ==> c != '-' && c != '_' && c in base
  {
  }

  /** The characters a title treats as word separators. */
  predicate IsSep(c: char) {
    c == '-' || c == '_' || IsSpace(c)
  }

  /** A run of stem characters with no separator in it. */
  predicate IsTitleWord(w: string) {
    w != [] && forall i :: 0 <= i < |w| ==> !IsSep(w[i])
  }

  predicate AllSep(s: string) {
    forall i :: 0 <= i < |s| ==> IsSep(s[i])
  }

  /* The four lemmas below determine the title of every stem, by induction
     on its number of words: a word is its own title, separators at either
     end are dropped, and each separator run between two words becomes
     exactly one space. */

  lemma HtmlTitleWord(w: string)
    requires IsTitleWord(w)
    ensures HtmlTitle(w) == w
  {
    assert DashesToSpaces(w) == w;
    assert NoSpace(w);
    ReplaceSpaceRunsNoSpace(w, ' ');
    TrimNoSpace(w);
  }

  lemma HtmlTitleLeading(run: string, t: string)
    requires AllSep(run)
    ensures HtmlTitle(run + t) == HtmlTitle(t)
  {
    DashesToSpacesConcat(run, t);
    LeadingSpacesDropped(DashesToSpaces(run), DashesToSpaces(t));
  }

  lemma DashesToSpacesConcat(a: string, b: string)
    ensures DashesToSpaces(a + b) == DashesToSpaces(a) + DashesToSpaces(b)
    ensures AllSep(a) ==> AllSpace(DashesToSpaces(a))
  {
  }

  lemma LeadingSpacesDropped(sp: string, x: string)
    requires AllSpace(sp)
    ensures Trim(ReplaceSpaceRuns(sp + x, ' ')) == Trim(ReplaceSpaceRuns(x, ' '))
  {
    TrimStartConcat(sp, x);
    TrimStartSplit(sp);
    TrimReplaceStart(sp + x);
    TrimReplaceStart(x);
  }

  /** Leading whitespace only ever becomes one leading space, which
      trimming removes. */
  lemma TrimReplaceStart(z: string)
    ensures Trim(ReplaceSpaceRuns(z, ' ')) == Trim(ReplaceSpaceRuns(TrimStart(z), ' '))
  {
    if z != [] && IsSpace(z[0]) {
      TrimSpacesBefore(" ", ReplaceSpaceRuns(TrimStart(z), ' '));
    }
  }

  lemma HtmlTitleTrailing(t: string, run: string)
    requires AllSep(run)
    ensures HtmlTitle(t + run) == HtmlTitle(t)
  {
    DashesToSpacesConcat(t, run);
    DashesToSpacesConcat(run, []);
    TrailingSpacesDropped(DashesToSpaces(t), DashesToSpaces(run));
  }

  lemma TrailingSpacesDropped(x: string, sp: string)
    requires AllSpace(sp)
    ensures Trim(ReplaceSpaceRuns(x + sp, ' ')) == Trim(ReplaceSpaceRuns(x, ' '))
  {
    TrimEndSpaces(x, sp);
    TrimReplaceEnd(x + sp);
    TrimReplaceEnd(x);
  }

  /** Trailing whitespace only ever becomes one trailing space, which
      trimming removes. */
  lemma TrimReplaceEnd(z: string)
    ensures Trim(ReplaceSpaceRuns(z, ' ')) == Trim(ReplaceSpaceRuns(TrimEnd(z), ' '))
  {
    var y := TrimEnd(z);
    TrimEndSplit(z);
    RestThenSpaces(y, z[|y|..]);
  }

  /** A whitespace run after `y` adds at most one trailing space, which
      trimming removes. */
  lemma RestThenSpaces(y: string, sp: string)
    requires AllSpace(sp) && (y == [] || !IsSpace(y[|y| - 1]))
    ensures Trim(ReplaceSpaceRuns(y + sp, ' ')) == Trim(ReplaceSpaceRuns(y, ' '))
  {
    if sp != [] {
      ReplaceSpaceRunsConcat(y, sp, ' ');
      SpaceRunReplaced(sp, ' ');
      TrimSpacesAfter(ReplaceSpaceRuns(y, ' '), " ");
    } else {
      assert y + sp == y;
    }
  }

  lemma HtmlTitleJoin(w: string, run: string, t: string)
    requires IsTitleWord(w) && run != [] && AllSep(run) && t != [] && !IsSep(t[0])
    ensures HtmlTitle(w + run + t) == w + " " + HtmlTitle(t)
  {
    var x := DashesToSpaces(t);
    var sp := DashesToSpaces(run);
    assert DashesToSpaces(w + run + t) == w + (sp + x);
    assert NoSpace(w) && AllSpace(sp) && !IsSpace(x[0]);
    ReplaceSpaceRunsConcat(w, sp + x, ' ');
    ReplaceSpaceRunsNoSpace(w, ' ');
    ReplaceSpaceRunsConcat(sp, x, ' ');
    SpaceRunReplaced(sp, ' ');
    var r := ReplaceSpaceRuns(x, ' ');
    WordSpaceTrim(w, r);
  }

  /** Trimming a word, a space and a text opening with a non-space
      character trims only the end of that text. */
  lemma WordSpaceTrim(w: string, r: string)
    requires w != [] && NoSpace(w) && r != [] && !IsSpace(r[0])
    ensures Trim(w + (" " + r)) == w + " " + Trim(r)
  {
    assert TrimStart(w + (" " + r)) == w + (" " + r);
    assert TrimStart(r) == r;
    TrimEndSpec(r);
    TrimEndConcat(w + " ", r);
    assert w + (" " + r) == (w + " ") + r;
  }

  /** An HTML record is keyed by its file name without `.html`, in any
      letter case; its title is derived from that stem. */
  lemma HtmlRecordFields(filename: string, html: string)
    ensures var rec, base := HtmlRecord(filename, html), HtmlStem(filename);
      rec.Keys == {"title", "slug", "key", "html"} &&
      rec["slug"] == rec["key"] == Str(base) && rec["html"] == Str(html) &&
      rec["title"] == Str(HtmlTitle(base)) &&
      (EndsWith(filename, ".html") ==> filename == base + ".html") &&
      (!EndsWithNoCase(filename, ".html") ==> base == filename)
  {
    if EndsWith(filename, ".html") {
      var tail := filename[|filename| - 5..];
      assert tail == ".html" && LowerStr(tail) == tail;
      assert filename == filename[..|filename| - 5] + tail;
    }
  }

  /** A content directory lists all Markdown records, in listing order,
      and then all HTML records. */
  lemma LoadContentDirOrder(files: seq<string>, readMd: string -> Result<FrontMatter>,
                            render: string -> string, readHtml: string -> string)
    requires LoadContentDir(Some(files), readMd, render, readHtml).Ok?
    ensures var rs, md := LoadContentDir(Some(files), readMd, render, readHtml).value, MdFiles(files);
      |rs| == |md| + |HtmlFiles(files)| &&
      (forall i :: 0 <= i < |md| ==> FileRecord(md[i], readMd, render) == Ok(rs[i])) &&
      rs[|md|..] == LoadHTMLDir(Some(files), readHtml)
  {
    var md, f := MdFiles(files), MdLoader(readMd, render);
    var html := LoadHTMLDir(Some(files), readHtml);
    TryMapValues(md, f);
    var rs := TryMap(md, f).value + html;
    assert LoadContentDir(Some(files), readMd, render, readHtml).value == rs;
    forall i | 0 <= i < |md|
      ensures FileRecord(md[i], readMd, render) == Ok(rs[i])
    {
      assert f(md[i]) == Ok(rs[i]);
    }
    assert rs[|md|..] == html;
  }

  /** The HTML records follow the listing order. */
  lemma LoadHTMLDirOrder(files: seq<string>, read: string -> string)
    ensures var rs, html := LoadHTMLDir(Some(files), read), HtmlFiles(files);
      |rs| == |html| && forall j :: 0 <= j < |html| ==> rs[j] == HtmlRecord(html[j], read(html[j]))
  {
    var html, g := HtmlFiles(files), HtmlLoader(read);
    MapSpec(html, g);
    forall j | 0 <= j < |html|
      ensures Map(html, g)[j] == HtmlRecord(html[j], read(html[j]))
    {
      assert Map(html, g)[j] == g(html[j]);
    }
  }

  /** The load throws exactly when the directory is missing or a Markdown
      record throws. */
  lemma LoadContentDirThrows(listing: Option<seq<string>>, readMd: string -> Result<FrontMatter>,
                             render: string -> string, readHtml: string -> string)
    ensures LoadContentDir(listing, readMd, render, readHtml).Throws? <==>
      listing.None? ||
      exists i :: 0 <= i < |MdFiles(listing.value)| && FileRecord(MdFiles(listing.value)[i], readMd, render).Throws?
  {
    if listing.Some? {
      LoadMDDirOk(listing.value, readMd, render);
    }
  }

  /* ---------------- listImagesUnderPublic ---------------- */

  /** The `public/` tree, addressed by paths relative to it: directory
      listings (`None` when missing), file existence and sizes. */
  datatype PublicTree = PublicTree(listing: string -> Option<seq<string>>,
                                   fileExists: string -> bool,
                                   size: string -> nat)

  const ImageExtensions: seq<string> := [".png", ".jpg", ".jpeg", ".gif", ".webp", ".svg"]

  /** `/\.(png|jpe?g|gif|webp|svg)$/i`. */
  predicate IsImageName(f: string) {
    exists e :: e in ImageExtensions && EndsWithNoCase(f, e)
  }

  function ImageNames(files: seq<string>): seq<string> {
    if files == [] then []
    else (if IsImageName(files[0]) then [files[0]] else []) + ImageNames(files[1..])
  }

  /** Exactly the listed names with an image extension. */
  lemma {:induction false} ImageNamesSpec(files: seq<string>)
    ensures forall f :: f in ImageNames(files) <==> f in files && IsImageName(f)
  {
    if files != [] {
      ImageNamesSpec(files[1..]);
      assert files == [files[0]] + files[1..];
    }
  }

  /** Index of the last `c` in `s`, or -1. */
  function LastIndexOf(s: string, c: char): (r: int)
    ensures -1 <= r < |s|
    ensures r >= 0 ==> s[r] == c
    ensures forall j :: r < j < |s| ==> s[j] != c
  {
    if s == [] then -1
    else if s[|s| - 1] == c then |s| - 1
    else LastIndexOf(s[..|s| - 1], c)
  }

  /** `f.replace(/\.[^.]+$/, "")`: the last extension removed. */
  function StripLastExt(f: string): string {
    var k := LastIndexOf(f, '.');
    if 0 <= k < |f| - 1 then f[..k] else f
  }

  /** `formatBytes(size)` of a size, which is never null. */
  function HumanSize(n: nat): (r: string)
    ensures FormatBytes(Num(n)) == Some(r)
  {
    FormatBytes(Num(n)).value
  }

  /** The descriptor of one image. */
  datatype Image = Image(url: string, title: string, sizeBytes: nat, sizeHuman: string)

  function ImageOf(relDir: string, f: string, tree: PublicTree): Image {
    var size := tree.size(relDir + "/" + f);
    Image("/" + relDir + "/" + f, StripLastExt(f), size, HumanSize(size))
  }

  /** `listImagesUnderPublic(relDir)`. */
  function ListImages(relDir: string, tree: PublicTree): seq<Image> {
    match tree.listing(relDir)
    case None => []
    case Some(files) => Map(ImageNames(files), ImageMaker(relDir, tree))
  }

  function ImageMaker(relDir: string, tree: PublicTree): string -> Image {
    f => ImageOf(relDir, f, tree)
  }

  /** `Lower` leaves `.` alone and never produces it from anything else. */
  lemma LowerDot(c: char)
    ensures Lower(c) == '.' <==> c == '.'
  {
  }

  /** An image's title is its file name with exactly the matched extension
      removed: the name is the title, a dot, and one of the six extensions
      in some letter case. */
  lemma ImageTitleDropsExtension(f: string)
    requires IsImageName(f)
    ensures var t := StripLastExt(f);
      |t| < |f| && f == t + f[|t|..] && f[|t|] == '.' && LowerStr(f[|t|..]) in ImageExtensions
  {
    var e :| e in ImageExtensions && EndsWithNoCase(f, e);
    ExtensionsShape(e);
    StripExtension(f, e);
  }

  lemma ExtensionsShape(e: string)
    requires e in ImageExtensions
    ensures |e| >= 2 && e[0] == '.' && forall j :: 1 <= j < |e| ==> e[j] != '.'
  {
  }

  /** A name ending in `.ext` (any case, `ext` dot-free) loses exactly that. */
  lemma StripExtension(f: string, e: string)
    requires |e| >= 2 && e[0] == '.' && forall j :: 1 <= j < |e| ==> e[j] != '.'
    requires EndsWithNoCase(f, e)
    ensures var t := StripLastExt(f);
      |t| == |f| - |e| && f == t + f[|t|..] && f[|t|] == '.' && LowerStr(f[|t|..]) == e
  {
    var start := |f| - |e|;
    var tail := f[start..];
    assert Lower(tail[0]) == '.';
    LowerDot(tail[0]);
    forall j | start < j < |f|
      ensures f[j] != '.'
    {
      assert Lower(tail[j - start]) == e[j - start];
      LowerDot(tail[j - start]);
    }
    var k := LastIndexOf(f, '.');
    assert k == start;
  }

  /** Each image of a listing: its URL is `/relDir/f`, its size the file's,
      and its human size `formatBytes` of that; the images follow the
      listing's order and keep only image names. */
  lemma ListImagesSpec(relDir: string, tree: PublicTree)
    requires tree.listing(relDir).Some?
    ensures var imgs, names := ListImages(relDir, tree), ImageNames(tree.listing(relDir).value);
      |imgs| == |names| &&
      forall i :: 0 <= i < |imgs| ==>
        IsImageName(names[i]) &&
        imgs[i].url == "/" + relDir + "/" + names[i] &&
        imgs[i].title == StripLastExt(names[i]) &&
        imgs[i].sizeBytes == tree.size(relDir + "/" + names[i]) &&
        FormatBytes(Num(imgs[i].sizeBytes)) == Some(imgs[i].sizeHuman)
  {
    var names := ImageNames(tree.listing(relDir).value);
    ImageNamesSpec(tree.listing(relDir).value);
    MapSpec(names, ImageMaker(relDir, tree));
    assert forall i :: 0 <= i < |names| ==> names[i] in names && ImageMaker(relDir, tree)(names[i]) == ImageOf(relDir, names[i], tree);
  }

  /** A missing directory has no images. */
  lemma ListImagesMissing(relDir: string, tree: PublicTree)
    requires tree.listing(relDir).None?
    ensures ListImages(relDir, tree) == []
  {
  }

  /* ---------------- resolveArticleImageDirs ---------------- */

  /** `article.images_dir && typeof article.images_dir === "string"`. */
  predicate HasDirOverride(a: Record) {
    "images_dir" in a && a["images_dir"].Str? && a["images_dir"].s != ""
  }

  /** The length of the leading slash run. */
  function LeadingSlashes(s: string): (n: nat)
    ensures n <= |s|
  {
    if s != [] && s[0] == '/' then 1 + LeadingSlashes(s[1..]) else 0
  }

  /** `s.replace(/^\/+/, "")`. */
  function StripLeadingSlashes(s: string): string {
    s[LeadingSlashes(s)..]
  }

  /** Only the leading slash run is removed, all of it. */
  lemma {:induction false} StripLeadingSlashesSpec(s: string)
    ensures var n := LeadingSlashes(s);
      (forall k :: 0 <= k < n ==> s[k] == '/') && (n < |s| ==> s[n] != '/')
  {
    if s != [] && s[0] == '/' {
      StripLeadingSlashesSpec(s[1..]);
      forall k | 0 < k < LeadingSlashes(s)
        ensures s[k] == '/'
      {
        assert s[k] == s[1..][k - 1];
      }
    }
  }

  function ConventionalDirs(slug: string): seq<string> {
    ["uploads/articles/" + slug + "/images",
     "uploads/articles/" + slug + "/figures",
     "uploads/images/" + slug,
     "uploads/images/" + slug + "/images",
     "uploads/images/" + slug + "/figures"]
  }

  /** The candidate list `resolveArticleImageDirs` builds. */
  function CandidateDirs(a: Record, slug: string): seq<string> {
    (if HasDirOverride(a) then [StripLeadingSlashes(a["images_dir"].s)] else []) + ConventionalDirs(slug)
  }

  /** `resolveArticleImageDirs(article, slug)`. */
  method ResolveArticleImageDirs(a: Record, slug: string) returns (dirs: seq<string>)
    ensures dirs == CandidateDirs(a, slug)
  {
    dirs := [];
    if HasDirOverride(a) {
      dirs := dirs + [StripLeadingSlashes(a["images_dir"].s)];
    }
    dirs := dirs + ["uploads/articles/" + slug + "/images",
                    "uploads/articles/" + slug + "/figures",
                    "uploads/images/" + slug,
                    "uploads/images/" + slug + "/images",
                    "uploads/images/" + slug + "/figures"];
  }

  /** Five conventional paths in fixed order, preceded by the override,
      without its leading slashes, exactly when it is a non-empty string. */
  lemma CandidateDirsShape(a: Record, slug: string)
    ensures var dirs := CandidateDirs(a, slug);
      |dirs| == (if HasDirOverride(a) then 6 else 5) &&
      dirs[|dirs| - 5..] == ConventionalDirs(slug) &&
      (HasDirOverride(a) ==> dirs[0] == StripLeadingSlashes(a["images_dir"].s) && (dirs[0] == [] || dirs[0][0] != '/'))
  {
    if HasDirOverride(a) {
      StripLeadingSlashesSpec(a["images_dir"].s);
    }
  }

  /* ---------------- attachImagesToArticle ---------------- */

  /** Index of the first non-empty list, or -1. */
  function FirstNonEmpty<T>(lists: seq<seq<T>>): (r: int)
    ensures -1 <= r < |lists|
    ensures r == -1 <==> forall j :: 0 <= j < |lists| ==> lists[j] == []
    ensures r >= 0 ==> lists[r] != [] && forall j :: 0 <= j < r ==> lists[j] == []
  {
    if lists == [] then -1
    else if lists[0] != [] then 0
    else
      var k := FirstNonEmpty(lists[1..]);
      if k == -1 then -1 else k + 1
  }

  /** The image listing of each candidate directory. */
  function Listings(dirs: seq<string>, tree: PublicTree): seq<seq<Image>> {
    Map(dirs, Lister(tree))
  }

  function Lister(tree: PublicTree): string -> seq<Image> {
    d => ListImages(d, tree)
  }

  lemma ListingsSpec(dirs: seq<string>, tree: PublicTree)
    ensures |Listings(dirs, tree)| == |dirs|
    ensures forall j :: 0 <= j < |dirs| ==> Listings(dirs, tree)[j] == ListImages(dirs[j], tree)
  {
    MapSpec(dirs, Lister(tree));
    assert forall j :: 0 <= j < |dirs| ==> Lister(tree)(dirs[j]) == ListImages(dirs[j], tree);
  }

  /** An article after `attachImagesToArticle`: its other fields, and the
      `images` and `images_dir_resolved` fields that override any of the
      same name. */
  datatype Article = Article(fields: Record, images: seq<Image>, imagesDirResolved: Option<string>)

  const AttachedKeys: set<string> := {"images", "images_dir_resolved"}

  /** The result `attachImagesToArticle` computes. */
  function Attached(a: Record, slug: string, tree: PublicTree): Article {
    var dirs := CandidateDirs(a, slug);
    var k := FirstNonEmpty(Listings(dirs, tree));
    if k == -1 then Article(a - AttachedKeys, [], None)
    else Article(a - AttachedKeys, ListImages(dirs[k], tree), Some(dirs[k]))
  }

  /** `attachImagesToArticle(article, slug)`: the first candidate with
      images wins. */
  method AttachImagesToArticle(a: Record, slug: string, tree: PublicTree) returns (r: Article)
    ensures r == Attached(a, slug, tree)
  {
    var candidates := ResolveArticleImageDirs(a, slug);
    var i := 0;
    while i < |candidates|
      invariant 0 <= i <= |candidates|
      invariant forall j :: 0 <= j < i ==> ListImages(candidates[j], tree) == []
    {
      var found := ListImages(candidates[i], tree);
      if |found| > 0 {
        AttachedAt(a, slug, tree, i);
        return Article(a - AttachedKeys, found, Some(candidates[i]));
      }
      i := i + 1;
    }
    AttachedNone(a, slug, tree);
    return Article(a - AttachedKeys, [], None);
  }

  /** The article when candidate `k` is the first with images. */
  lemma AttachedAt(a: Record, slug: string, tree: PublicTree, k: nat)
    requires var dirs := CandidateDirs(a, slug);
      k < |dirs| && ListImages(dirs[k], tree) != [] && forall j :: 0 <= j < k ==> ListImages(dirs[j], tree) == []
    ensures var dirs := CandidateDirs(a, slug);
      Attached(a, slug, tree) == Article(a - AttachedKeys, ListImages(dirs[k], tree), Some(dirs[k]))
  {
    var dirs := CandidateDirs(a, slug);
    ListingsSpec(dirs, tree);
    var r := FirstNonEmpty(Listings(dirs, tree));
    assert r == k;
  }

  /** The article when no candidate has images. */
  lemma AttachedNone(a: Record, slug: string, tree: PublicTree)
    requires var dirs := CandidateDirs(a, slug);
      forall j :: 0 <= j < |dirs| ==> ListImages(dirs[j], tree) == []
    ensures Attached(a, slug, tree) == Article(a - AttachedKeys, [], None)
  {
    ListingsSpec(CandidateDirs(a, slug), tree);
  }

  /** The images come from the first candidate whose listing is non-empty,
      which is recorded as `images_dir_resolved`; when every listing is
      empty there are no images and no directory. Every other field is
      unchanged. */
  lemma AttachedSpec(a: Record, slug: string, tree: PublicTree)
    ensures var r, dirs := Attached(a, slug, tree), CandidateDirs(a, slug);
      (forall k :: k !in AttachedKeys ==> (k in r.fields <==> k in a) && (k in a ==> r.fields[k] == a[k])) &&
      (r.imagesDirResolved.None? <==> forall j :: 0 <= j < |dirs| ==> ListImages(dirs[j], tree) == []) &&
      (r.imagesDirResolved.None? ==> r.images == []) &&
      (r.imagesDirResolved.Some? ==>
         r.images != [] &&
         exists k :: 0 <= k < |dirs| && dirs[k] == r.imagesDirResolved.value && r.images == ListImages(dirs[k], tree) &&
                     forall j :: 0 <= j < k ==> ListImages(dirs[j], tree) == [])
  {
    var dirs := CandidateDirs(a, slug);
    ListingsSpec(dirs, tree);
    var k := FirstNonEmpty(Listings(dirs, tree));
    if k >= 0 {
      assert dirs[k] == Attached(a, slug, tree).imagesDirResolved.value;
    }
  }

  /* ---------------- articles: date backfill ---------------- */

  /** `a.slug || a.key`, as it is spliced into paths. */
  function ArticleSlug(a: Record): string {
    if TruthyField(a, "slug") then ToJsString(a["slug"]) else FieldText(a, "key")
  }

  /** The articles directory: which files exist, and the modification date
      `statSync` gives for a file as an ISO `YYYY-MM-DD` string (`None` when
      it throws). */
  datatype ArticlesDir = ArticlesDir(fileExists: string -> bool, mtime: string -> Option<string>)

  /** The record after the date backfill. */
  function BackfillDate(a: Record, slug: string, dir: ArticlesDir): Record {
    if TruthyField(a, "date") then a
    else
      var mdPath := slug + ".md";
      var path := if dir.fileExists(mdPath) then mdPath else slug + ".html";
      match dir.mtime(path)
      case None => a
      case Some(iso) => a["date" := Str(iso)]
  }

  /** An explicit date is never overwritten; a missing or falsy one is
      replaced by the modification date of the `.md` file when it exists,
      else of the `.html` file, unless that `stat` fails. No other field
      changes. */
  lemma BackfillDateSpec(a: Record, slug: string, dir: ArticlesDir)
    ensures var r := BackfillDate(a, slug, dir);
      (forall k :: k != "date" ==> (k in r <==> k in a) && (k in a ==> r[k] == a[k])) &&
      (TruthyField(a, "date") ==> r == a) &&
      (!TruthyField(a, "date") ==>
         var path := if dir.fileExists(slug + ".md") then slug + ".md" else slug + ".html";
         (dir.mtime(path).None? ==> r == a) &&
         (dir.mtime(path).Some? ==> r["date"] == Str(dir.mtime(path).value)))
  {
  }

  /** An article of `articles-data.json`: the date backfilled, then images
      attached, both under the slug of the loaded record. */
  function Enriched(a: Record, dir: ArticlesDir, tree: PublicTree): Article {
    Attached(BackfillDate(a, ArticleSlug(a), dir), ArticleSlug(a), tree)
  }

  /** One article of the `articles` map: date backfill, then images. */
  method EnrichArticle(a: Record, dir: ArticlesDir, tree: PublicTree) returns (enriched: Article)
    ensures enriched == Enriched(a, dir, tree)
  {
    var slug := ArticleSlug(a);
    var withDate := a;
    if !TruthyField(a, "date") {
      var mdPath := slug + ".md";
      var htmlPath := slug + ".html";
      var stamp := dir.mtime(if dir.fileExists(mdPath) then mdPath else htmlPath);
      if stamp.Some? {
        withDate := withDate["date" := Str(stamp.value)];
      }
    }
    enriched := AttachImagesToArticle(withDate, slug, tree);
  }

  function Enricher(dir: ArticlesDir, tree: PublicTree): Record -> Article {
    a => Enriched(a, dir, tree)
  }

  /** `loadContentDir(articlesDir).map(...)`, before the sort. */
  function EnrichedAll(records: seq<Record>, dir: ArticlesDir, tree: PublicTree): seq<Article> {
    Map(records, Enricher(dir, tree))
  }

  /** One article per record, in order. */
  lemma EnrichedAllSpec(records: seq<Record>, dir: ArticlesDir, tree: PublicTree)
    ensures var out := EnrichedAll(records, dir, tree);
      |out| == |records| && forall i :: 0 <= i < |records| ==> out[i] == Enriched(records[i], dir, tree)
  {
    MapSpec(records, Enricher(dir, tree));
    assert forall i :: 0 <= i < |records| ==> Enricher(dir, tree)(records[i]) == Enriched(records[i], dir, tree);
  }

  /** The `articles` map. */
  method EnrichArticles(records: seq<Record>, dir: ArticlesDir, tree: PublicTree) returns (articles: seq<Article>)
    ensures articles == EnrichedAll(records, dir, tree)
  {
    articles := [];
    var i := 0;
    while i < |records|
      invariant 0 <= i <= |records|
      invariant articles == Map(records[..i], Enricher(dir, tree))
    {
      var e := EnrichArticle(records[i], dir, tree);
      MapSnoc(records, i, Enricher(dir, tree));
      assert e == Enricher(dir, tree)(records[i]);
      articles := articles + [e];
      i := i + 1;
    }
    assert records[..i] == records;
  }

  /* ---------------- books: size annotation ---------------- */

  /** `typeof out.download_url === "string" && out.download_url.startsWith("/uploads/")`. */
  predicate IsLocalUpload(b: Record) {
    "download_url" in b && b["download_url"].Str? && StartsWith(b["download_url"].s, "/uploads/")
  }

  /** One book of the `books` map. */
  method AnnotateBook(b: Record, tree: PublicTree) returns (out: Record)
    ensures forall k :: k != "file_size_bytes" && k != "file_size_human" ==>
      (k in out <==> k in b) && (k in b ==> out[k] == b[k])
    ensures !IsLocalUpload(b) ==> out == b
    ensures IsLocalUpload(b) && !tree.fileExists(b["download_url"].s[1..]) ==> out == b
    ensures IsLocalUpload(b) && tree.fileExists(b["download_url"].s[1..]) ==>
      var size := tree.size(b["download_url"].s[1..]);
      "file_size_bytes" in out && out["file_size_bytes"] == Int(size) &&
      "file_size_human" in out && out["file_size_human"].Str? && FormatBytes(Num(size)) == Some(out["file_size_human"].s)
  {
    out := b;
    if "download_url" in out && out["download_url"].Str? && StartsWith(out["download_url"].s, "/uploads/") {
      var rel := out["download_url"].s[1..];
      if tree.fileExists(rel) {
        var size := tree.size(rel);
        out := out["file_size_bytes" := Int(size)];
        out := out["file_size_human" := Str(HumanSize(size))];
      }
    }
  }
}

# homeoanalytics content pipeline, modelled in Dafny

This project models the logic of the homeoanalytics site's build-time content
pipeline and the state logic of its article figure viewer:

- **scripts/md.js**: `slugify` (modules `Text`, `Slug`), `htmlAttrEscape` (module `AttrEscape`),
  `parseCSV` (module `Csv`), the `renderer.code` override that turns `chart` and
  `chartcsv` code fences into a `<canvas data-chart="...">` placeholder, and the
  record identifiers of `loadMDDir` (module `Markdown`).
- **scripts/build-content.js**: `formatBytes` (module `ByteSize`), `loadHTMLDir`,
  `loadContentDir`, the image listing of `listImagesUnderPublic`,
  `resolveArticleImageDirs`, `attachImagesToArticle`, the article date backfill
  and the book size annotation (module `Content`).
- **build-articles.js**: the per-file article object, the loop that skips
  files whose parsing or rendering throws, and the in-place sort with its
  three-way comparator (modules `Articles` and `Sorting`).
- **src/App.tsx**: the `figures` de-duplication memo, wrap-around
  previous/next, and the zoom and pan state of the lightbox as a class
  `Lightbox` (module `Viewer`).

Front-matter values are a small datatype (`JsValue.Value`): strings,
integers, null, and any other value, which is reduced to its truthiness and
its `String()` text. JavaScript's `undefined` is `Option.None`. The file
system, gray-matter, marked, unified and `JSON.stringify` are not modelled.
They are passed in as functions: directory listings, file contents, parsed
front matter, rendered HTML, `Number()`, file sizes and modification dates.
The throws the model keeps are a `Result.Throws`: reading and front-matter
parsing in `loadMDDir`; front-matter parsing and rendering in
`build-articles.js`, where the throw is caught and the file is skipped; a
truthy non-string title in `slugify`; and a missing content directory. The
others are listed under "Left out".

The source's loops stay loops. `parseCSV` (`Csv.ReadRows`), the
first-non-empty search, the article map, the article builder's loop and the
figure filter are methods with loop invariants. The candidate directory list
(`Content.ResolveArticleImageDirs`) is straight-line code, as in the source.
Each method is proved equal to a specification function, and the properties
are proved about that function. `articles.sort` is an in-place insertion sort on an
`array` (`Sorting.InsertionSort`). It is proved sorted and a permutation for
any comparator that is total and transitive, and the article comparator is
proved to be one (`Articles.CompareConsistent`).

The lightbox scale is kept in hundredths: `1` is `100` and a step of `0.2`
is `20`. On hundredths, `Number((s + delta).toFixed(2))` is exact addition.

Three behaviours of the code are kept as written:

- In `parseCSV` the value keyword `n` is an unanchored regular expression.
  Any header containing the letter n, such as `name`, therefore counts as a
  value column, and with the header `name,count` the labels and values come
  from the same column (`Csv.NameIsAValueColumn`).
- `formatBytes(1048576)` prints one decimal, `"1.0 MB"`, because the scaled
  value 1 is below ten and the unit index is not zero (`ByteSize.FormatBytesMega`).
- The zoom buttons (`zoomBy`) can reach scale 1 without clearing the
  translation. Only the wheel, the double click and `resetZoom` clear it
  (`Viewer.ZoomOutKeepsShift`).

## Model

| member | source | states |
|---|---|---|
| Text.LowerStr | scripts/md.js:10 | `toLowerCase` keeps the length and lowers each letter, leaving every other character as it is |
| Slug.StripPunctuation | scripts/md.js:11 | the result holds only word characters, whitespace and hyphens taken from the input; an input of only such characters is unchanged |
| Slug.StripPunctuationConcat | scripts/md.js:11 | stripping works character by character: the result for `a + b` is the result for `a` followed by the result for `b` |
| Slug.StripPunctuationChar | scripts/md.js:11 | one character is kept exactly when it is a word character, whitespace or `-`, and dropped otherwise |
| Text.TrimSpec | scripts/md.js:12 | `trim` removes exactly the leading and trailing whitespace runs: the result is a slice of the input that is empty or starts and ends with non-whitespace, and everything cut off is whitespace |
| Text.ReplaceSpaceRuns | scripts/md.js:13 | every output character is the replacement or a non-whitespace input character, the output is empty only for empty input, and with a space as the replacement no two whitespace characters are adjacent |
| Text.ReplaceSpaceRunsNoSpace | scripts/md.js:13 | text without whitespace is unchanged |
| Text.SpaceRunReplaced | scripts/md.js:13 | a non-empty whitespace run becomes exactly one replacement character |
| Text.ReplaceSpaceRunsConcat | scripts/md.js:13 | a cut between two characters that are not both whitespace splits no run: the result for `a + b` is the result for `a` followed by the result for `b` |
| Slug.SquashDashes | scripts/md.js:14 | the result never contains `--`, its characters come from the input, and it starts with the input's first character |
| Slug.SquashDashesKeepsSquashed | scripts/md.js:14 | a string without `--` is unchanged |
| Slug.DashRunSquashed | scripts/md.js:14 | a non-empty run of hyphens becomes exactly one hyphen |
| Slug.SquashDashesConcat | scripts/md.js:14 | a cut between two characters that are not both hyphens splits no run: the result for `a + b` is the result for `a` followed by the result for `b` |
| Slug.SlugifyIsSlug | scripts/md.js:8-15 | a slug holds only `a-z`, `0-9`, `_` and `-` (no whitespace, no capital), and never `--` |
| Slug.SlugIsFixedPoint | scripts/md.js:8-15 | a string that already has the slug shape is its own slug |
| Slug.SlugifyIdempotent | scripts/md.js:8-15 | slugifying a slug changes nothing |
| Slug.SlugifyIgnoresPunctuation | scripts/md.js:8-15 | removing one character outside `[\w\s-]` from the input does not change the slug |
| Slug.SlugifyTwoWords | scripts/md.js:8-15 | two words of letters, digits and underscores separated by a space slug to the lower-cased words joined by one hyphen |
| AttrEscape.EscapeIsChunkwise | scripts/md.js:18-24 | the four sequential replacements equal escaping each character on its own (`&`, `"`, `<`, `>` to their entities), so no replacement rewrites the output of an earlier one |
| AttrEscape.EscapedIsAttrSafe | scripts/md.js:18-24 | the escaped text has no `"`, `<` or `>`, and every `&` in it opens `&amp;`, `&quot;`, `&lt;` or `&gt;` |
| AttrEscape.EscapeRoundTrip | scripts/md.js:18-24 | decoding the four entities, `&amp;` last, gives back the input |
| Csv.NonBlank | scripts/md.js:30-31 | no more lines than the input, and none of them blank |
| Csv.NonBlankConcat | scripts/md.js:30-31 | lines are trimmed and filtered one at a time, keeping their order |
| Csv.NonBlankLine | scripts/md.js:30-31 | one line is kept, trimmed, exactly when its trimmed text is not empty |
| Csv.FindColumn | scripts/md.js:36-37 | `findIndex`: the first header cell containing one of the keywords, or -1 exactly when no cell contains any |
| Csv.CsvSeriesEmpty | scripts/md.js:33-39 | fewer than two non-blank lines, no label column or no value column give empty labels and values |
| Csv.NameIsAValueColumn | scripts/md.js:36-37 | the keyword tests are substring tests: for the header `name,count` both the label and the value column are column 0 |
| Csv.RowEntry | scripts/md.js:44-49 | a data line contributes at most one (label, value) pair, and its label is non-empty |
| Csv.RowEntryOf | scripts/md.js:44-49 | a blank trimmed label cell contributes nothing; otherwise the trimmed label and `Number` of the trimmed value cell, with a non-finite number read as 0 |
| Csv.ReadRows | scripts/md.js:41-50 | the loop over the lines after the header yields exactly the concatenated entries of those lines, in order |
| Csv.DataRowsConcat | scripts/md.js:43-50 | lines contribute independently and in order: the rows of `a + b` are those of `a` followed by those of `b` |
| Csv.DataRowsShape | scripts/md.js:41-51 | labels and values have equal length, at most the number of data lines, and every label is non-empty |
| Csv.ParseCsv | scripts/md.js:27-52 | `parseCSV` returns the labels and values of the specification `CsvSeries` |
| Csv.CsvSeriesShape | scripts/md.js:33-51 | the result has as many labels as values, no more than the data lines, and no empty label |
| Markdown.CsvChartConfigShape | scripts/md.js:73-93 | the `chartcsv` config is a horizontal (`indexAxis "y"`) responsive bar chart with one dataset, "Frequency", whose labels and data are the CSV's labels and values; legend and title are hidden; the x axis begins at zero with 5% grace |
| Markdown.RenderCode | scripts/md.js:58-103 | for the `chart` language the `data-chart` attribute reads back as exactly the code; for `chartcsv` it reads back as the serialised config of the parsed CSV; in both the attribute is escape-safe; for both languages the whole output is the fixed placeholder around the escaped text; any other language goes to the original renderer |
| Markdown.ChartMarkupReadBack | scripts/md.js:63-67 | the placeholder around escaped text reads back, up to the closing quote and with entities decoded, as that text |
| Markdown.LangIgnoresCase | scripts/md.js:59 | the fence language is compared after trimming and lower-casing, so the case of the info string does not matter |
| Markdown.MdFilesSpec | scripts/md.js:113 | exactly the listed names ending in `.md` (case-sensitive) are loaded |
| Markdown.MdStem | scripts/md.js:119 | the stem is a prefix of the file name |
| Markdown.MdStemSpec | scripts/md.js:119 | a name ending in `.md` is its stem plus `.md`; a name not ending in `.md` in any case is its own stem |
| Markdown.MdRecordFields | scripts/md.js:119-123 | `slug` is the `String()` of the truthy front-matter slug, else `slugify` of the truthy title (which is then a string), else `slugify` of the stem; `key` is the truthy front-matter key, else `slug`; `html` is the rendered body; the other front-matter fields pass through and no other field appears |
| Markdown.MdRecordThrows | scripts/md.js:120 | a record fails exactly when there is no truthy slug and the truthy title is not a string, since `slugify` then calls `toLowerCase` on a non-string |
| Markdown.FileRecordThrows | scripts/md.js:115-123 | one file's record fails exactly when reading or front-matter parsing throws, or when it has no truthy slug and a truthy non-string title |
| Markdown.LoadMDDirOk | scripts/md.js:112-124 | the load completes exactly when every `.md` file's record does |
| Markdown.LoadMDDirValues | scripts/md.js:114-124 | a completed load holds one record per `.md` file, in listing order |
| ByteSize.FloorLog1024 | scripts/build-content.js:15 | the unit index `i` satisfies `1024^i <= n < 1024^(i+1)` |
| ByteSize.FloorLogUnique | scripts/build-content.js:15 | that index is the only one with this property |
| ByteSize.FormatBytesNull | scripts/build-content.js:12-13 | the result is null exactly for a non-number, NaN or a negative value; 0 gives `"0 B"` |
| ByteSize.FormatBytesUnit | scripts/build-content.js:14-17 | for a positive size the text is the scaled number, a space and the unit B to TB below `1024^5`; it has a decimal point exactly when the unit index is not 0 and the scaled value is below 10 |
| ByteSize.ToFixedAccuracy | scripts/build-content.js:16-17 | the printed number, read back, is the exact quotient rounded to 0 or 1 decimals, ties up |
| ByteSize.FormatBytesKilo | scripts/build-content.js:11-18 | 1536 bytes print as `"1.5 KB"` |
| ByteSize.FormatBytesMega | scripts/build-content.js:11-18 | 1048576 bytes print as `"1.0 MB"` |
| Text.NatToStringRoundTrip | scripts/build-content.js:17 | the decimal digits printed for a number read back as that number |
| Content.HtmlFilesSpec | scripts/build-content.js:30 | exactly the listed names ending in `.html`, in any case, are loaded |
| Content.HtmlTitleSpec | scripts/build-content.js:34 | the title has no `-` or `_`, no two adjacent whitespace characters and no whitespace at either end, and its other characters come from the stem |
| Content.HtmlTitleWord | scripts/build-content.js:34 | a stem without `-`, `_` or whitespace is its own title |
| Content.HtmlTitleLeading | scripts/build-content.js:34 | separators (`-`, `_`, whitespace) at the start of the stem do not change the title |
| Content.HtmlTitleTrailing | scripts/build-content.js:34 | separators at the end of the stem do not change the title |
| Content.HtmlTitleJoin | scripts/build-content.js:34 | a word, a separator run and a text starting with a non-separator give the word, one space and the title of that text |
| Content.HtmlRecordFields | scripts/build-content.js:33-35 | an HTML record has exactly the fields title, slug, key and html; slug and key are the name without a trailing `.html` in any case, title is derived from it, and html is the file text |
| Content.LoadHTMLDirOrder | scripts/build-content.js:28-36 | one record per `.html` file, in listing order |
| Content.LoadContentDirOrder | scripts/build-content.js:40-44 | all Markdown records, in order, come before all HTML records |
| Content.LoadContentDirThrows | scripts/build-content.js:40-44 | loading a content directory throws exactly when the directory is missing or one of its `.md` records throws |
| Content.ImageNamesSpec | scripts/build-content.js:51 | exactly the listed names ending in `.png`, `.jpg`, `.jpeg`, `.gif`, `.webp` or `.svg`, in any case, become images |
| Content.ImageTitleDropsExtension | scripts/build-content.js:57 | an image's title is its file name without the last extension, which is one of the image extensions |
| Content.HumanSize | scripts/build-content.js:59 | the human size is `formatBytes` of the size, which is never null |
| Content.ListImagesSpec | scripts/build-content.js:48-61 | one descriptor per image file, in listing order, with url `/relDir/name`, title the name without its last extension, the file's size and that size formatted |
| Content.ListImagesMissing | scripts/build-content.js:50 | a missing directory has no images |
| Content.StripLeadingSlashesSpec | scripts/build-content.js:69 | all of the leading slash run, and nothing else, is removed |
| Content.ResolveArticleImageDirs | scripts/build-content.js:65-80 | the straight-line method builds the candidate list `CandidateDirs` |
| Content.CandidateDirsShape | scripts/build-content.js:65-80 | the `images_dir` override comes first, without leading slashes, only when it is a non-empty string; the five conventional slug paths follow in fixed order, so there are 5 or 6 candidates |
| Content.FirstNonEmpty | scripts/build-content.js:85-90 | the first non-empty listing, or -1 exactly when all are empty |
| Content.AttachImagesToArticle | scripts/build-content.js:83-92 | the loop with early return computes `Attached` |
| Content.AttachedSpec | scripts/build-content.js:83-92 | the first candidate with images wins: its images and its path are attached; when every candidate is empty, images are `[]` and the resolved directory is null; every other field is unchanged |
| Content.BackfillDateSpec | scripts/build-content.js:101-110 | an explicit date is never overwritten; a falsy one is replaced by the date of the `.md` file if it exists, else of the `.html` file, unless that stat fails; no other field changes |
| Content.EnrichArticle | scripts/build-content.js:97-115 | one article: date backfill under `slug || key`, then images |
| Content.EnrichArticles | scripts/build-content.js:96-115 | the article map is computed by a loop, one enriched article per record |
| Content.EnrichedAllSpec | scripts/build-content.js:96-115 | the map keeps the number and order of the records |
| Content.AnnotateBook | scripts/build-content.js:122-140 | a book whose `download_url` is a string starting `/uploads/` and whose file exists gains `file_size_bytes` and `file_size_human = formatBytes(size)`; any other book is unchanged; no other field changes |
| Text.BeforeFirst | build-articles.js:37 | `split("\n\n")[0]`: a prefix of the text in which `"\n\n"` does not start, followed in the text by `"\n\n"` unless it is the whole text |
| Articles.MakeEntryFields | build-articles.js:34-42 | key is the truthy slug else the stem; title the truthy title else the stem; excerpt the truthy excerpt else the body before the first blank line; icon the truthy icon else "book"; cover and date the front-matter value when truthy, else absent; html is the rendered body |
| Articles.FileEntriesSpec | build-articles.js:18-46 | a file yields one entry exactly when its name ends in `.md` and front-matter parsing and rendering both return; otherwise none |
| Articles.CollectedSplit | build-articles.js:18-47 | files contribute independently and in order, so a skipped file leaves the entries of the files around it unchanged |
| Articles.ProcessArticles | build-articles.js:14-55 | the written array is a permutation of the entries collected by the loop, and it is sorted by the comparator |
| Text.StrCompareAntisymmetric | build-articles.js:51-54 | swapping the strings negates the comparison |
| Text.StrCompareZero | build-articles.js:51-54 | two strings compare equal exactly when they are the same |
| Text.StrCompareTransitive | build-articles.js:51-54 | the string order is transitive |
| Articles.CompareAntisymmetric | build-articles.js:50-55 | swapping two articles negates the comparator |
| Articles.CompareTransitive | build-articles.js:50-55 | the comparator's order is transitive |
| Articles.CompareConsistent | build-articles.js:50-55 | the comparator is total and transitive, so the sort has a defined result |
| Articles.SameDateNoTiebreak | build-articles.js:54 | two articles with the same date compare equal whatever their titles |
| Articles.SortedOrder | build-articles.js:50-55 | in the sorted list every dated article precedes every undated one, dates descend and undated titles ascend |
| Articles.SortArticles | build-articles.js:50-55 | `articles.sort` leaves the array sorted by the comparator and a permutation of what it was |
| Sorting.InsertionSort | build-articles.js:50 | for a total, transitive comparator the array ends sorted and a permutation of its old contents |
| Viewer.Figures | src/App.tsx:311-321 | the memo returns the de-duplicated list of `images` when it is an array, else of `figures`, else of `[]` |
| Viewer.SeenSpec | src/App.tsx:315-319 | the `seen` set holds exactly the non-empty trimmed urls met so far |
| Viewer.DedupKeys | src/App.tsx:316-320 | kept figures have non-empty, pairwise different trimmed urls, and every non-empty url of the input is kept once |
| Viewer.DedupKeepsFirst | src/App.tsx:316-320 | each kept figure is the first of the input with its url |
| Viewer.DedupIsSubsequence | src/App.tsx:316-320 | the kept figures are a subsequence of the input, in the original order |
| Viewer.Prev | src/App.tsx:349-350 | previous stays in range and wraps from the first figure to the last |
| Viewer.Next | src/App.tsx:351-352 | next stays in range and wraps from the last figure to the first |
| Viewer.NavigationRoundTrip | src/App.tsx:349-352 | previous undoes next, and next undoes previous |
| Viewer.Clamp | src/App.tsx:366 | the result lies in `[lo, hi]`, equals `v` inside it and the nearer bound outside it |
| Viewer.ZoomStaysInRange | src/App.tsx:366-387 | `zoomBy`, `setZoom`, the wheel and the double click always leave the scale in [1, 5] |
| Viewer.WheelSpec | src/App.tsx:371-379 | scrolling down zooms out and anything else zooms in by 0.2 within [1, 5]; reaching 1 clears the translation, any other scale keeps it |
| Viewer.WheelInOut | src/App.tsx:371-379 | one step in and one step out restore the state when no bound is hit |
| Viewer.DoubleClickToggle | src/App.tsx:381-387 | a double click maps scale 1 to 2 and any other scale to 1, clearing the translation when it lands on 1; two double clicks from 1 return to 1 and from any other scale end at 2 |
| Viewer.ZoomOutKeepsShift | src/App.tsx:368-379 | the zoom-out button can reach 1 with the translation kept, where the wheel clears it |
| Viewer.Lightbox.constructor | src/App.tsx:360-364 | the viewer starts closed, at scale 1, unshifted, not dragging |
| Viewer.Lightbox.ResetZoom | src/App.tsx:367 | scale 1 and no translation; nothing else changes |
| Viewer.Lightbox.Open | src/App.tsx:433 | clicking a figure opens it with the zoom reset |
| Viewer.Lightbox.Close | src/App.tsx:490 | closing clears the index and resets the zoom |
| Viewer.Lightbox.Navigate | src/App.tsx:531-536 | the arrow buttons move to the previous or next figure with wrap-around and reset the zoom |
| Viewer.Lightbox.OnKey | src/App.tsx:346-353 | Escape closes, the arrow keys move with wrap-around, other keys do nothing; the zoom is kept |
| Viewer.Lightbox.ZoomByStep | src/App.tsx:368 | `zoomBy` changes only the scale, to the clamped sum |
| Viewer.Lightbox.SetZoomTo | src/App.tsx:369 | `setZoom` changes only the scale, to the clamped value |
| Viewer.Lightbox.OnWheel | src/App.tsx:371-379 | the zoom becomes `Wheel` of the old zoom; nothing else changes |
| Viewer.Lightbox.OnDoubleClick | src/App.tsx:381-387 | the zoom becomes `DoubleClick` of the old zoom; nothing else changes |
| Viewer.Lightbox.OnMouseDown | src/App.tsx:389-393 | at scale 1 nothing changes; otherwise a drag starts, remembering the pointer and the translation |
| Viewer.Lightbox.OnMouseMove | src/App.tsx:394-400 | while dragging, the translation is the one at the press plus the pointer's displacement; otherwise nothing changes |
| Viewer.Lightbox.StopDrag | src/App.tsx:401 | the drag ends; nothing else changes |

## Left out

- File system and process I/O (`readdirSync`, `readFileSync`, `existsSync`, `statSync`, `writeFileSync`, console output, `process.cwd`) are parameters. Paths are joined as plain strings, without `path.join` normalisation.
- gray-matter, marked, unified/remark/rehype and `JSON.stringify`/`JSON.parse` are parameters, or omitted. The chart config is a datatype.
- The conversion of a modification time to an ISO date (scripts/build-content.js:106-107) is an optional input string.
- The article sort at scripts/build-content.js:116 is not modelled. `new Date(b.date) - new Date(a.date)` is NaN for a missing date, so it is not a consistent order.
- The apps JSON passthrough (scripts/build-content.js:148-153) is not modelled.
- `writeJSON`, `fileExists` and the `escaped` argument of `renderer.code` are not modelled.
- Content.AnnotateBook: a `statSync` that fails after `existsSync` succeeded is not modelled. The file tree always gives a size for an existing file.
- ByteSize.FormatBytes: sizes are whole numbers. Floating-point sizes, `Infinity` and the rounding error of `Math.log` at exact powers of 1024 are not modelled. `toFixed` is exact decimal rounding of the quotient, half up.
- Csv.ParseCsv: `Number()` is a parameter that gives a finite number or a non-finite one. Values are reals, not doubles.
- Text.LowerStr: lower-casing covers ASCII letters only. Whitespace for `trim` and `\s` is the ECMAScript set.
- Articles.Compare: `localeCompare` is taken as ordinal comparison of strings. A title or date that is not a string is compared by its `String()` text, where JavaScript would throw.
- Articles.ProcessArticles: the `readFileSync` outside the `try`, which would abort the whole run, is not modelled. `read` is total. `processArticles` is asynchronous; the model runs it in sequence.
- Sorting.InsertionSort: the sort is stable, like the engine's, but stability is not proved.
- Articles.SortArticles: the order of articles that compare equal (same date, or undated with the same title) is not stated; the result is proved sorted and a permutation only.
- Articles.ProcessArticles: likewise, the written order of articles that compare equal is not stated.
- Markdown.LoadMDDir: `marked.parse` is taken to always return; a throw while rendering is not modelled. Reading and front-matter parsing may throw.
- Content.ListImages: a `statSync` that throws for a listed image is not modelled; the file tree gives a size for every listed name.
- Viewer.Lightbox: pointer coordinates are whole pixels. The React state updaters are applied in order, as direct field updates.
- Viewer.Figures: a `figures` field that is truthy but not an array, or a `url` that is not a string, would throw in JavaScript. The model's figure lists are arrays and its urls are strings or absent.
- React rendering, Chart.js, event-listener wiring, body-class toggling and the early `return null` before the zoom hooks are not modelled. Routing, the other pages and components, the content loader and the Tailwind configuration are also not modelled.

/** `parseCSV` of scripts/md.js: a header-driven reader that finds a label
    column and a value column by keyword and collects one (label, value)
    pair per data line that has a label. */
module Csv {
  import opened Text

  /** The result of `Number(text)`, reduced to what `parseCSV` asks of it. */
  datatype JsNumber = Finite(value: real) | NonFinite

  /** `{ labels, values }`. */
  datatype Series = Series(labels: seq<string>, values: seq<real>)

  const Empty := Series([], [])

  const LabelKeywords: seq<string> := ["label", "name", "rubric", "chapter", "remedy"]
  const ValueKeywords: seq<string> := ["value", "count", "freq", "frequency", "n"]

  function Concat(a: Series, b: Series): Series {
    Series(a.labels + b.labels, a.values + b.values)
  }

  /** A trailing carriage return, as the `\r?` of `/\r?\n/` consumes it. */
  function DropCR(p: string): string {
    if p != [] && p[|p| - 1] == '\r' then p[..|p| - 1] else p
  }

  /** `split(/\r?\n/)`. */
  function SplitLines(s: string): (r: seq<string>)
    ensures |r| >= 1
    decreases |s|
  {
    var i := IndexOf(s, '\n');
    if i < 0 then [s] else [DropCR(s[..i])] + SplitLines(s[i + 1..])
  }

  /** `.map(l => l.trim()).filter(Boolean)`. */
  function NonBlank(ls: seq<string>): (r: seq<string>)
    ensures |r| <= |ls|
    ensures forall k :: 0 <= k < |r| ==> r[k] != ""
  {
    if ls == [] then []
    else
      var t := Trim(ls[0]);
      (if t == "" then [] else [t]) + NonBlank(ls[1..])
  }

  /** Lines are trimmed and filtered one at a time, in order. */
  lemma {:induction false} NonBlankConcat(a: seq<string>, b: seq<string>)
    ensures NonBlank(a + b) == NonBlank(a) + NonBlank(b)
  {
    if a == [] {
      assert a + b == b;
    } else {
      assert (a + b)[1..] == a[1..] + b;
      NonBlankConcat(a[1..], b);
    }
  }

  /** One line: kept trimmed unless only whitespace is left. */
  lemma NonBlankLine(l: string)
    ensures NonBlank([l]) == if Trim(l) == "" then [] else [Trim(l)]
  {
    assert [l][1..] == [];
  }

  function CsvLines(text: string): seq<string> {
    NonBlank(SplitLines(text))
  }

  /** `/k1|k2|.../.test(h)`: some keyword occurs anywhere in `h`. */
  predicate MatchesAny(h: string, keywords: seq<string>)
    decreases |keywords|
  {
    keywords != [] && (Contains(h, keywords[0]) || MatchesAny(h, keywords[1..]))
  }

  /** `header.findIndex(...)`: the first matching column, or -1. */
  function FindColumn(header: seq<string>, keywords: seq<string>): (r: int)
    ensures -1 <= r < |header|
    ensures r == -1 <==> forall j :: 0 <= j < |header| ==> !MatchesAny(header[j], keywords)
    ensures r >= 0 ==> MatchesAny(header[r], keywords)
    ensures r >= 0 ==> forall j :: 0 <= j < r ==> !MatchesAny(header[j], keywords)
  {
    if header == [] then -1
    else if MatchesAny(header[0], keywords) then 0
    else
      var k := FindColumn(header[1..], keywords);
      if k == -1 then -1 else k + 1
  }

  /** `lines[0].split(",").map(h => h.trim().toLowerCase())`. */
  function HeaderCells(line: string): seq<string> {
    var parts := Split(line, ',');
    seq(|parts|, i requires 0 <= i < |parts| => LowerStr(Trim(parts[i])))
  }

  /** `parts[idx] || ""`. */
  function Cell(parts: seq<string>, idx: nat): string {
    if idx < |parts| then parts[idx] else ""
  }

  /** `Number.isFinite(val) ? val : 0`. */
  function NumberOrZero(n: JsNumber): real {
    match n
    case Finite(v) => v
    case NonFinite => 0.0
  }

  /** What one data line contributes: nothing when its label cell is blank,
      else its trimmed label and its value. */
  function RowEntry(line: string, il: nat, iv: nat, toNumber: string -> JsNumber): (r: Series)
    ensures |r.labels| == |r.values| <= 1
    ensures forall k :: 0 <= k < |r.labels| ==> r.labels[k] != ""
  {
    var parts := Split(line, ',');
    var lab := Trim(Cell(parts, il));
    if lab == "" then Empty
    else Series([lab], [NumberOrZero(toNumber(Trim(Cell(parts, iv))))])
  }

  /** The data lines, in order. */
  function DataRows(lines: seq<string>, il: nat, iv: nat, toNumber: string -> JsNumber): Series {
    if lines == [] then Empty
    else Concat(RowEntry(lines[0], il, iv, toNumber), DataRows(lines[1..], il, iv, toNumber))
  }

  /** The specification of `parseCSV`. */
  function CsvSeries(text: string, toNumber: string -> JsNumber): Series {
    var lines := CsvLines(text);
    if |lines| < 2 then Empty
    else
      var header := HeaderCells(lines[0]);
      var il := FindColumn(header, LabelKeywords);
      var iv := FindColumn(header, ValueKeywords);
      if il == -1 || iv == -1 then Empty
      else DataRows(lines[1..], il, iv, toNumber)
  }

  /** `parseCSV(text)`, with `Number` passed in as `toNumber`. */
  method ParseCsv(text: string, toNumber: string -> JsNumber) returns (labels: seq<string>, values: seq<real>)
    ensures Series(labels, values) == CsvSeries(text, toNumber)
  {
    var lines := CsvLines(text);
    if |lines| < 2 {
      return [], [];
    }
    var header := HeaderCells(lines[0]);
    var idxLabel := FindColumn(header, LabelKeywords);
    var idxValue := FindColumn(header, ValueKeywords);
    if idxLabel == -1 || idxValue == -1 {
      return [], [];
    }
    labels, values := ReadRows(lines, idxLabel, idxValue, toNumber);
  }

  /** The `for` loop of `parseCSV`: every line after the header, in order,
      skipping those whose label cell is blank. */
  method ReadRows(lines: seq<string>, idxLabel: nat, idxValue: nat, toNumber: string -> JsNumber)
    returns (labels: seq<string>, values: seq<real>)
    requires |lines| >= 1
    ensures Series(labels, values) == DataRows(lines[1..], idxLabel, idxValue, toNumber)
  {
    labels, values := [], [];
    var i := 1;
    while i < |lines|
      invariant 1 <= i <= |lines|
      invariant Series(labels, values) == DataRows(lines[1..i], idxLabel, idxValue, toNumber)
    {
      var parts := Split(lines[i], ',');
      var lab := Trim(Cell(parts, idxLabel));
      var val := toNumber(Trim(Cell(parts, idxValue)));
      var v := if val.Finite? then val.value else 0.0;
      RowEntryOf(lines[i], idxLabel, idxValue, toNumber, parts, lab, val);
      ReadRowStep(lines, i, idxLabel, idxValue, toNumber, labels, values, lab, v);
      if lab == "" {
        i := i + 1;
        continue;
      }
      labels := labels + [lab];
      values := values + [v];
      i := i + 1;
    }
    assert lines[1..i] == lines[1..];
  }

  /** One turn of the loop in `ReadRows` extends the series by the line's entry. */
  lemma ReadRowStep(lines: seq<string>, i: nat, il: nat, iv: nat, toNumber: string -> JsNumber,
                    labels: seq<string>, values: seq<real>, lab: string, v: real)
    requires 1 <= i < |lines|
    requires Series(labels, values) == DataRows(lines[1..i], il, iv, toNumber)
    requires RowEntry(lines[i], il, iv, toNumber) == if lab == "" then Empty else Series([lab], [v])
    ensures lab == "" ==> Series(labels, values) == DataRows(lines[1..i + 1], il, iv, toNumber)
    ensures lab != "" ==> Series(labels + [lab], values + [v]) == DataRows(lines[1..i + 1], il, iv, toNumber)
  {
    DataRowsSnoc(lines, i, il, iv, toNumber);
    if lab == "" {
      assert labels + [] == labels && values + [] == values;
    }
  }

  lemma RowEntryOf(line: string, il: nat, iv: nat, toNumber: string -> JsNumber,
                   parts: seq<string>, lab: string, val: JsNumber)
    requires parts == Split(line, ',')
    requires lab == Trim(Cell(parts, il)) && val == toNumber(Trim(Cell(parts, iv)))
    ensures RowEntry(line, il, iv, toNumber) == if lab == "" then Empty else Series([lab], [NumberOrZero(val)])
  {
  }

  lemma DataRowsSnoc(lines: seq<string>, i: nat, il: nat, iv: nat, toNumber: string -> JsNumber)
    requires 1 <= i < |lines|
    ensures DataRows(lines[1..i + 1], il, iv, toNumber)
         == Concat(DataRows(lines[1..i], il, iv, toNumber), RowEntry(lines[i], il, iv, toNumber))
  {
    assert lines[1..i + 1] == lines[1..i] + [lines[i]];
    DataRowsConcat(lines[1..i], [lines[i]], il, iv, toNumber);
    DataRowsSingle(lines[i], il, iv, toNumber);
  }

  lemma DataRowsSingle(line: string, il: nat, iv: nat, toNumber: string -> JsNumber)
    ensures DataRows([line], il, iv, toNumber) == RowEntry(line, il, iv, toNumber)
  {
    var e := RowEntry(line, il, iv, toNumber);
    assert [line][1..] == [];
    assert Concat(e, Empty) == e;
  }

  /** Equal lengths, at most one pair per data line, and no empty label. */
  lemma {:induction false} DataRowsShape(lines: seq<string>, il: nat, iv: nat, toNumber: string -> JsNumber)
    ensures var r := DataRows(lines, il, iv, toNumber);
      |r.labels| == |r.values| <= |lines| &&
      forall k :: 0 <= k < |r.labels| ==> r.labels[k] != ""
  {
    if lines != [] {
      DataRowsShape(lines[1..], il, iv, toNumber);
    }
  }

  lemma ConcatAssoc(x: Series, y: Series, z: Series)
    ensures Concat(x, Concat(y, z)) == Concat(Concat(x, y), z)
  {
  }

  lemma DataRowsCons(a: seq<string>, b: seq<string>, il: nat, iv: nat, toNumber: string -> JsNumber)
    requires a != []
    ensures DataRows(a + b, il, iv, toNumber)
         == Concat(RowEntry(a[0], il, iv, toNumber), DataRows(a[1..] + b, il, iv, toNumber))
  {
    assert (a + b)[1..] == a[1..] + b;
    assert (a + b)[0] == a[0];
  }

  /** Rows are read independently and in order: the result for a
      concatenation of lines is the concatenation of the results. */
  lemma {:induction false} DataRowsConcat(a: seq<string>, b: seq<string>, il: nat, iv: nat, toNumber: string -> JsNumber)
    ensures DataRows(a + b, il, iv, toNumber) == Concat(DataRows(a, il, iv, toNumber), DataRows(b, il, iv, toNumber))
  {
    if a == [] {
      assert a + b == b;
    } else {
      DataRowsConcat(a[1..], b, il, iv, toNumber);
      DataRowsCons(a, b, il, iv, toNumber);
      ConcatAssoc(RowEntry(a[0], il, iv, toNumber), DataRows(a[1..], il, iv, toNumber), DataRows(b, il, iv, toNumber));
    }
  }

  /** When the header names both columns, the data lines in order. */
  lemma CsvSeriesShape(text: string, toNumber: string -> JsNumber)
    ensures var r := CsvSeries(text, toNumber);
      |r.labels| == |r.values| &&
      (|CsvLines(text)| >= 1 ==> |r.labels| <= |CsvLines(text)| - 1) &&
      forall k :: 0 <= k < |r.labels| ==> r.labels[k] != ""
  {
    var lines := CsvLines(text);
    if |lines| >= 2 {
      var header := HeaderCells(lines[0]);
      var il := FindColumn(header, LabelKeywords);
      var iv := FindColumn(header, ValueKeywords);
      if il != -1 && iv != -1 {
        DataRowsShape(lines[1..], il, iv, toNumber);
      }
    }
  }

  /** The three ways `parseCSV` gives up: fewer than two non-blank lines,
      no header cell containing a label keyword, or none containing a value
      keyword. */
  lemma CsvSeriesEmpty(text: string, toNumber: string -> JsNumber)
    ensures var lines := CsvLines(text);
      (|lines| < 2 ||
       (forall j :: 0 <= j < |HeaderCells(lines[0])| ==> !MatchesAny(HeaderCells(lines[0])[j], LabelKeywords)) ||
       (forall j :: 0 <= j < |HeaderCells(lines[0])| ==> !MatchesAny(HeaderCells(lines[0])[j], ValueKeywords)))
      ==> CsvSeries(text, toNumber) == Empty
  {
  }

  /** The keyword `n` is a substring test too: any header containing the
      letter n, such as `name`, is taken as the value column. With the
      header `name,count` the label and the value are read from the same
      column. */
  lemma NameIsAValueColumn()
    ensures FindColumn(["name", "count"], LabelKeywords) == 0
    ensures FindColumn(["name", "count"], ValueKeywords) == 0
  {
    assert Contains("name", "n");
    assert "name"[..4] == "name";
    assert Contains("name", "name");
  }
}

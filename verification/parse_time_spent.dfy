/** The wide-to-long reshaper of scripts/parse_time_spent.py: each CSV record is
    zipped with the header into a row, each row's `time_spent` list (a string such
    as `[1,2,3]`) is exploded into one output row per list element, and the output
    rows are written as CSV under the sorted key names.

    The records are taken as already split into fields: the quoting rules of
    `csv.reader` are not modelled. */
module TimeSpent {
  import opened Wrappers
  import opened Collections
  import opened Text

  /** Why the script fails: a record shorter than the header (`IndexError`), a row
      without a `week` or `time_spent` column (`KeyError`), or no output row at all
      (`IndexError` on `out_lines[0]`). */
  datatype Error = ShortRecord(index: nat) | MissingColumn(name: string) | NoRows

  // ---------------------------------------------------------------------------
  // read_csv

  /** `fp.read().strip().split("\n")[0].split(",")`: the first line of the stripped
      text, split at commas. */
  function Header(text: string): (h: seq<string>)
    ensures |h| >= 1
  {
    Split(Split(Strip(text, IsSpace), '\n')[0], ',')
  }

  /** A text that starts with its header line and ends in a non-space character
      has that line's fields as its header. */
  lemma HeaderOfText(line: string, rest: string)
    requires '\n' !in line && |line| >= 1 && !IsSpace(line[0])
    requires |rest| >= 1 && !IsSpace(rest[|rest| - 1])
    ensures Header(line + "\n" + rest) == Split(line, ',')
  {
    var text := line + "\n" + rest;
    assert text[0] == line[0] && text[|text| - 1] == rest[|rest| - 1];
    StripNothing(text, IsSpace);
    assert text == line + ['\n'] + rest;
    SplitCons(line, '\n', rest);
  }

  /** `{header[i]: l[i] for i in range(len(header))}`, the record holding at least
      as many fields as the header: a key for every column name. */
  function Zip(header: seq<string>, record: seq<string>): (row: map<string, string>)
    requires |record| >= |header|
    ensures row.Keys == Elems(header)
  {
    if |header| == 0 then map[]
    else
      var n := |header| - 1;
      assert Elems(header) == Elems(header[..n]) + {header[n]} by {
        assert header == header[..n] + [header[n]];
      }
      Zip(header[..n], record)[header[n] := record[n]]
  }

  /** When a column name repeats, the last column of that name wins. */
  lemma {:induction false} ZipLastWins(header: seq<string>, record: seq<string>, i: nat)
    requires |record| >= |header| && i < |header| && header[i] !in header[i + 1..]
    ensures Zip(header, record)[header[i]] == record[i]
  {
    var n := |header| - 1;
    if i < n {
      assert header[n] == header[i + 1..][n - i - 1];
      assert header[..n][i] == header[i];
      assert header[..n][i + 1..] == header[i + 1..n];
      assert header[i + 1..n] <= header[i + 1..];
      ZipLastWins(header[..n], record, i);
    }
  }

  /** With no repeated column name, column `i` is the field at `i`. */
  lemma ZipDistinct(header: seq<string>, record: seq<string>)
    requires |record| >= |header| && Distinct(header)
    ensures forall i :: 0 <= i < |header| ==> Zip(header, record)[header[i]] == record[i]
  {
    forall i | 0 <= i < |header| ensures Zip(header, record)[header[i]] == record[i] {
      var later := header[i + 1..];
      forall j | 0 <= j < |later| ensures later[j] != header[i] {
        assert later[j] == header[i + 1 + j];
      }
      ZipLastWins(header, record, i);
    }
  }

  /** The list comprehension of `read_csv` over the records: the first record
      shorter than the header fails. */
  function ReadRecords(header: seq<string>, records: seq<seq<string>>, first: nat)
    : (r: Result<seq<map<string, string>>, Error>)
    ensures r.Ok? <==> forall k :: 0 <= k < |records| ==> |records[k]| >= |header|
    ensures r.Ok? ==> (
      && |r.value| == |records|
      && forall k :: 0 <= k < |records| ==> r.value[k] == Zip(header, records[k]))
    ensures r.Err? ==> (
      && r.error.ShortRecord?
      && first <= r.error.index < first + |records|
      && |records[r.error.index - first]| < |header|)
    decreases |records|
  {
    if |records| == 0 then Ok([])
    else if |records[0]| < |header| then Err(ShortRecord(first))
    else
      var rest :- ReadRecords(header, records[1..], first + 1);
      assert forall k :: 1 <= k < |records| ==> records[k] == records[1..][k - 1];
      Ok([Zip(header, records[0])] + rest)
  }

  // ---------------------------------------------------------------------------
  // The reshape loop of main

  predicate IsBracket(c: char) {
    c == '[' || c == ']'
  }

  /** `times.strip("[]").split(",")`: the pieces are not trimmed, and joined back
      with commas they give the list with its brackets removed. */
  function Pieces(times: string): (ps: seq<string>)
    ensures |ps| >= 1
    ensures forall k :: 0 <= k < |ps| ==> ',' !in ps[k]
    ensures Join(ps, ',') == Strip(times, IsBracket)
  {
    Split(Strip(times, IsBracket), ',')
  }

  /** The empty list `[]` gives one empty piece. */
  lemma EmptyListPieces()
    ensures Pieces("[]") == [""]
  {
    StripPadding("[]", "", "", IsBracket);
    assert "[]" + "" + "" == "[]";
    IndexOfFirst("", ',', 0);
  }

  /** A bracketed list of comma-free elements splits back into the elements, as
      long as the elements do not themselves begin or end the list with a bracket. */
  lemma PiecesOfList(elems: seq<string>)
    requires |elems| >= 1 && forall k :: 0 <= k < |elems| ==> ',' !in elems[k]
    requires var body := Join(elems, ','); |body| > 0 ==> !IsBracket(body[0]) && !IsBracket(body[|body| - 1])
    ensures Pieces("[" + Join(elems, ',') + "]") == elems
  {
    StripPadding("[", Join(elems, ','), "]", IsBracket);
    SplitJoin(elems, ',');
  }

  /** One output row: `{"week": week, "time_spent": t}`. */
  datatype LongRow = LongRow(week: string, timeSpent: string)

  /** The time spent of each row, in order. */
  function TimesOf(rows: seq<LongRow>): (ts: seq<string>)
    ensures |ts| == |rows|
  {
    seq(|rows|, k requires 0 <= k < |rows| => rows[k].timeSpent)
  }

  /** The inner loop for one input row: `week` is read first, then `time_spent`;
      there is one output row per piece, each carrying the row's week, and their
      times rejoined by commas give the list without its brackets. */
  function Explode(row: map<string, string>): (r: Result<seq<LongRow>, Error>)
    ensures r.Ok? <==> "week" in row && "time_spent" in row
    ensures "week" !in row ==> r == Err(MissingColumn("week"))
    ensures "week" in row && "time_spent" !in row ==> r == Err(MissingColumn("time_spent"))
    ensures r.Ok? ==> (
      && |r.value| == |Pieces(row["time_spent"])|
      && (forall k :: 0 <= k < |r.value| ==> r.value[k].week == row["week"])
      && Join(TimesOf(r.value), ',') == Strip(row["time_spent"], IsBracket))
  {
    if "week" !in row then Err(MissingColumn("week"))
    else if "time_spent" !in row then Err(MissingColumn("time_spent"))
    else
      var ps := Pieces(row["time_spent"]);
      var out := seq(|ps|, k requires 0 <= k < |ps| => LongRow(row["week"], ps[k]));
      assert TimesOf(out) == ps;
      Ok(out)
  }

  /** A row whose list is `[]` yields exactly one output row, with an empty time. */
  lemma ExplodeEmptyList(row: map<string, string>)
    requires "week" in row && "time_spent" in row && row["time_spent"] == "[]"
    ensures Explode(row) == Ok([LongRow(row["week"], "")])
  {
    EmptyListPieces();
    var out := Explode(row).value;
    assert |out| == 1 && out[0].week == row["week"];
    assert TimesOf(out) == [out[0].timeSpent];
    assert Strip("[]", IsBracket) == Join(Pieces("[]"), ',') == "";
    assert out[0] == LongRow(row["week"], "");
    assert out == [LongRow(row["week"], "")];
  }

  /** Both columns the loop reads are present. */
  predicate HasColumns(row: map<string, string>) {
    "week" in row && "time_spent" in row
  }

  /** Number of pieces the rows' lists hold together. */
  function PieceCount(rows: seq<map<string, string>>): nat
    requires forall k :: 0 <= k < |rows| ==> HasColumns(rows[k])
  {
    if |rows| == 0 then 0
    else
      assert HasColumns(rows[0]);
      |Pieces(rows[0]["time_spent"])| + PieceCount(rows[1..])
  }

  /** `f` applied to each element, the outputs concatenated in order; the first
      element on which `f` fails decides the error. */
  function FlatMap<X, Y, E>(xs: seq<X>, f: X -> Result<seq<Y>, E>): (r: Result<seq<Y>, E>)
    ensures r.Ok? <==> forall k :: 0 <= k < |xs| ==> f(xs[k]).Ok?
    ensures r.Err? ==> exists k :: 0 <= k < |xs| && f(xs[k]) == Err(r.error)
    decreases |xs|
  {
    if |xs| == 0 then Ok([])
    else
      var first :- f(xs[0]);
      var rest :- FlatMap(xs[1..], f);
      assert forall k :: 1 <= k < |xs| ==> xs[k] == xs[1..][k - 1];
      Ok(first + rest)
  }

  /** Mapping a concatenation gives the concatenated outputs. */
  lemma {:induction false} FlatMapAppend<X, Y, E>(a: seq<X>, b: seq<X>, f: X -> Result<seq<Y>, E>)
    requires FlatMap(a, f).Ok? && FlatMap(b, f).Ok?
    ensures FlatMap(a + b, f) == Ok(FlatMap(a, f).value + FlatMap(b, f).value)
    decreases |a|
  {
    if |a| == 0 {
      assert a + b == b;
      assert FlatMap(a, f).value + FlatMap(b, f).value == FlatMap(b, f).value;
    } else {
      assert (a + b)[0] == a[0];
      assert (a + b)[1..] == a[1..] + b;
      assert FlatMap(a[1..], f).Ok?;
      FlatMapAppend(a[1..], b, f);
      var x, y, z := f(a[0]).value, FlatMap(a[1..], f).value, FlatMap(b, f).value;
      assert x + (y + z) == (x + y) + z;
    }
  }

  /** The outer loop: the rows exploded in order and concatenated; the first row
      missing a column fails. There is one output row per piece. */
  function Reshape(rows: seq<map<string, string>>): (r: Result<seq<LongRow>, Error>)
    ensures r.Ok? <==> forall k :: 0 <= k < |rows| ==> HasColumns(rows[k])
    ensures r.Err? ==> r.error.MissingColumn?
  {
    FlatMap(rows, Explode)
  }

  /** One output row per piece of every row's list. */
  lemma {:induction false} ReshapeCount(rows: seq<map<string, string>>)
    requires Reshape(rows).Ok?
    ensures |Reshape(rows).value| == PieceCount(rows)
    decreases |rows|
  {
    if |rows| > 0 {
      assert Reshape(rows[1..]).Ok?;
      ReshapeCount(rows[1..]);
    }
  }

  /** Order is kept: reshaping two runs of rows one after the other gives the
      output of the first run followed by that of the second. */
  lemma ReshapeAppend(a: seq<map<string, string>>, b: seq<map<string, string>>)
    requires Reshape(a).Ok? && Reshape(b).Ok?
    ensures Reshape(a + b) == Ok(Reshape(a).value + Reshape(b).value)
  {
    FlatMapAppend(a, b, Explode);
  }

  /** Every input row yields at least one output row, so there are output rows
      exactly when there are input rows. */
  lemma {:induction false} ReshapeNonEmpty(rows: seq<map<string, string>>)
    requires Reshape(rows).Ok?
    ensures |Reshape(rows).value| >= |rows|
    ensures |Reshape(rows).value| == 0 <==> |rows| == 0
    decreases |rows|
  {
    if |rows| > 0 {
      assert Reshape(rows[1..]).Ok?;
      ReshapeNonEmpty(rows[1..]);
    }
  }

  // ---------------------------------------------------------------------------
  // Writing the output

  /** Python's `<=` on strings: code point by code point, a proper prefix first. */
  predicate LexLe(a: string, b: string)
    decreases |a|
  {
    |a| == 0 || (|b| > 0 && (a[0] < b[0] || (a[0] == b[0] && LexLe(a[1..], b[1..]))))
  }

  /** Any two strings are ordered one way or the other. */
  lemma {:induction false} LexLeTotal(a: string, b: string)
    ensures LexLe(a, b) || LexLe(b, a)
    decreases |a|
  {
    if |a| > 0 && |b| > 0 && a[0] == b[0] {
      LexLeTotal(a[1..], b[1..]);
    }
  }

  predicate Sorted(s: seq<string>) {
    forall i :: 0 <= i < |s| - 1 ==> LexLe(s[i], s[i + 1])
  }

  /** Insert `x` into a sorted list before the first element it does not follow. */
  function Insert(x: string, s: seq<string>): (r: seq<string>)
    requires Sorted(s)
    ensures Sorted(r)
    ensures multiset(r) == multiset(s) + multiset{x}
    ensures |r| == |s| + 1
    ensures |r| > 0 && (r[0] == x || (|s| > 0 && r[0] == s[0]))
  {
    if |s| == 0 || LexLe(x, s[0]) then [x] + s
    else
      LexLeTotal(x, s[0]);
      var rest := Insert(x, s[1..]);
      assert s == [s[0]] + s[1..];
      [s[0]] + rest
  }

  /** `list.sort()` on strings: the same strings in ascending order. */
  function Sort(s: seq<string>): (r: seq<string>)
    ensures Sorted(r)
    ensures multiset(r) == multiset(s)
  {
    if |s| == 0 then []
    else
      assert s == [s[0]] + s[1..];
      Insert(s[0], Sort(s[1..]))
  }

  /** The keys of an output row in insertion order. */
  const RowKeys: seq<string> := ["week", "time_spent"]

  /** `heading`: the sorted key list. */
  function Heading(): seq<string> {
    Sort(RowKeys)
  }

  /** The heading is `time_spent` then `week`. */
  lemma HeadingIsTimeThenWeek()
    ensures Heading() == ["time_spent", "week"]
  {
    assert !LexLe("week", "time_spent");
    assert LexLe("time_spent", "week");
  }

  /** `{"week": ..., "time_spent": ...}`: an output row as the dictionary it is. */
  function AsDict(row: LongRow): map<string, string> {
    map["week" := row.week, "time_spent" := row.timeSpent]
  }

  /** `[line[field] for field in heading]` for one output row. */
  function Line(row: LongRow): seq<string> {
    HeadingIsTimeThenWeek();
    seq(|Heading()|, i requires 0 <= i < |Heading()| => AsDict(row)[Heading()[i]])
  }

  /** A row's line holds its time, then its week. */
  lemma LineIsTimeThenWeek(row: LongRow)
    ensures Line(row) == [row.timeSpent, row.week]
  {
    HeadingIsTimeThenWeek();
    var d := AsDict(row);
    assert d["time_spent"] == row.timeSpent && d["week"] == row.week;
    assert Line(row)[0] == row.timeSpent;
    assert Line(row)[1] == row.week;
  }

  /** The lines of all output rows, in order. */
  function Cells(rows: seq<LongRow>): (cells: seq<seq<string>>)
    ensures |cells| == |rows|
  {
    seq(|rows|, k requires 0 <= k < |rows| => Line(rows[k]))
  }

  /** The output file: the heading joined by commas and a newline, then one line
      per output row, no newline after the last. With no output row the script
      fails on `out_lines[0]`. */
  function Render(rows: seq<LongRow>): (r: Result<string, Error>)
    ensures r.Err? <==> |rows| == 0
    ensures r.Err? ==> r.error == NoRows
  {
    if |rows| == 0 then Err(NoRows)
    else Ok(Join(Heading(), ',') + "\n" + Join(JoinEach(Cells(rows), ','), '\n'))
  }

  /** The output starts with the heading line `time_spent,week`. */
  lemma RenderText(rows: seq<LongRow>)
    requires |rows| >= 1
    ensures Render(rows).value == "time_spent,week" + ['\n'] + Join(JoinEach(Cells(rows), ','), '\n')
  {
    HeadingIsTimeThenWeek();
    JoinCons("time_spent", ["week"], ',');
  }

  /** Fields free of commas and newlines give cells free of them. */
  lemma CellsPlain(rows: seq<LongRow>)
    requires forall k :: 0 <= k < |rows| ==>
      ',' !in rows[k].week && '\n' !in rows[k].week && ',' !in rows[k].timeSpent && '\n' !in rows[k].timeSpent
    ensures Plain(Cells(rows), ',', '\n')
    ensures forall j :: 0 <= j < |rows| ==> Cells(rows)[j] == [rows[j].timeSpent, rows[j].week]
  {
    forall j | 0 <= j < |rows| ensures Cells(rows)[j] == [rows[j].timeSpent, rows[j].week] {
      LineIsTimeThenWeek(rows[j]);
    }
  }

  /** Reading the output back: the heading line `time_spent,week`, then for each
      output row in order one line that splits on commas into its time and week. */
  lemma RenderRoundTrip(rows: seq<LongRow>)
    requires |rows| >= 1
    requires forall k :: 0 <= k < |rows| ==>
      ',' !in rows[k].week && '\n' !in rows[k].week && ',' !in rows[k].timeSpent && '\n' !in rows[k].timeSpent
    ensures var lines := Split(Render(rows).value, '\n');
      && |lines| == |rows| + 1
      && lines[0] == "time_spent,week"
      && forall k :: 0 <= k < |rows| ==> Split(lines[k + 1], ',') == [rows[k].timeSpent, rows[k].week]
  {
    var cells := Cells(rows);
    RenderText(rows);
    CellsPlain(rows);
    HeadedRowsRoundTrip("time_spent,week", cells, ',', '\n');
    JoinEachRoundTrip(cells, ',', '\n');
    var lines := Split(Render(rows).value, '\n');
    assert lines == ["time_spent,week"] + JoinEach(cells, ',');
    forall k | 0 <= k < |rows| ensures Split(lines[k + 1], ',') == [rows[k].timeSpent, rows[k].week] {
      assert lines[k + 1] == JoinEach(cells, ',')[k];
    }
  }

  /** `main` on the input text and the records `csv.reader` makes of the lines
      after the first. */
  function Convert(text: string, records: seq<seq<string>>): Result<string, Error> {
    var rows :- ReadRecords(Header(text), records, 0);
    var out :- Reshape(rows);
    Render(out)
  }

  /** Once every record is long enough and every row has both columns, the script
      fails exactly when there are no records. */
  lemma ConvertFailsOnlyWithoutRecords(text: string, records: seq<seq<string>>)
    requires ReadRecords(Header(text), records, 0).Ok?
    requires Reshape(ReadRecords(Header(text), records, 0).value).Ok?
    ensures Convert(text, records).Err? <==> |records| == 0
    ensures Convert(text, records).Err? ==> Convert(text, records).error == NoRows
  {
    ReshapeNonEmpty(ReadRecords(Header(text), records, 0).value);
  }
}

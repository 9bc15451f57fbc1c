/**
 * The price database: a text file of rows `to_db_row` writes, one per line, that is only ever
 * read whole or appended to. The file is modelled by whether it exists and by its contents.
 */
module PriceStore {
  import opened Wrappers
  import opened Calendar
  import opened Text
  import opened Models
  import opened Sequences

  // ---------------------------------------------------------------------------------------------
  // Lines of a file.

  /** The concatenation of the pieces, `"".join(parts)`. */
  function Concat(parts: seq<string>): (s: string)
    ensures parts == [] ==> s == []
  {
    if parts == [] then [] else parts[0] + Concat(parts[1..])
  }

  lemma {:induction false} ConcatAppend(parts: seq<string>, last: string)
    ensures Concat(parts + [last]) == Concat(parts) + last
  {
    if parts != [] {
      assert (parts + [last])[1..] == parts[1..] + [last];
      ConcatAppend(parts[1..], last);
    } else {
      assert parts + [last] == [last];
    }
  }

  lemma ConcatPrefixStep(parts: seq<string>, i: nat)
    requires i < |parts|
    ensures Concat(parts[..i + 1]) == Concat(parts[..i]) + parts[i]
  {
    assert parts[..i + 1] == parts[..i] + [parts[i]];
    ConcatAppend(parts[..i], parts[i]);
  }

  lemma {:induction false} ConcatJoin(a: seq<string>, b: seq<string>)
    ensures Concat(a + b) == Concat(a) + Concat(b)
  {
    if a != [] {
      assert (a + b)[1..] == a[1..] + b;
      ConcatJoin(a[1..], b);
    } else {
      assert a + b == b;
    }
  }

  predicate NotNewline(c: char) {
    c != '\n'
  }

  /** The length of the first line of a non-empty text, its newline included when it has one. */
  function LineLength(c: string): (n: nat)
    requires c != []
    ensures 1 <= n <= |c|
  {
    var e := RunEnd(c, 0, NotNewline);
    if e < |c| then e + 1 else e
  }

  /** `fp.readlines()`: the text cut after every newline; the last line has no newline when the
      text does not end in one. */
  function ReadLines(c: string): (lines: seq<string>)
    ensures Concat(lines) == c
    ensures forall i :: 0 <= i < |lines| ==> lines[i] != []
    decreases |c|
  {
    if c == [] then [] else
      var n := LineLength(c);
      assert c[..n] + c[n..] == c;
      [c[..n]] + ReadLines(c[n..])
  }

  /** A line that `readlines` gives back as it is: one newline, at its end. */
  predicate IsLine(l: string) {
    |l| > 0 && l[|l| - 1] == '\n' && '\n' !in l[..|l| - 1]
  }

  /** The first line of a text that starts with a line is that line. */
  lemma LineLengthOfLine(l: string, rest: string)
    requires IsLine(l)
    ensures LineLength(l + rest) == |l|
  {
    var c := l + rest;
    forall x | 0 <= x < |l| - 1
      ensures NotNewline(c[x])
    {
      assert c[x] == l[..|l| - 1][x];
    }
    RunEndUnique(c, 0, |l| - 1, NotNewline);
  }

  /** Reading back lines that each end in their only newline gives those lines. */
  lemma {:induction false} ReadConcatLines(lines: seq<string>)
    requires forall i :: 0 <= i < |lines| ==> IsLine(lines[i])
    ensures ReadLines(Concat(lines)) == lines
  {
    if lines != [] {
      var rest := Concat(lines[1..]);
      LineLengthOfLine(lines[0], rest);
      assert (lines[0] + rest)[..|lines[0]|] == lines[0];
      assert (lines[0] + rest)[|lines[0]|..] == rest;
      ReadConcatLines(lines[1..]);
      assert [lines[0]] + lines[1..] == lines;
    }
  }

  /** Text appended after a newline does not change the first line. */
  lemma FirstLineAppend(a: string, b: string)
    requires a != [] && a[|a| - 1] == '\n'
    ensures LineLength(a + b) == LineLength(a)
    ensures (a + b)[..LineLength(a)] == a[..LineLength(a)]
    ensures (a + b)[LineLength(a)..] == a[LineLength(a)..] + b
  {
    var n := LineLength(a);
    var e := RunEnd(a, 0, NotNewline);
    assert e < |a| by {
      if e == |a| {
        RunCovers(a, 0, NotNewline);
      }
    }
    RunCovers(a, 0, NotNewline);
    forall x | 0 <= x < e
      ensures NotNewline((a + b)[x])
    {
      assert (a + b)[x] == a[x];
    }
    assert (a + b)[e] == a[e];
    RunEndUnique(a + b, 0, e, NotNewline);
    assert (a + b)[..n] == a[..n];
    assert (a + b)[n..] == a[n..] + b;
  }

  /** After a text that is empty or ends in a newline, the lines of what follows are read as
      they are. */
  lemma {:induction false} ReadLinesAppend(a: string, b: string)
    requires a == [] || a[|a| - 1] == '\n'
    ensures ReadLines(a + b) == ReadLines(a) + ReadLines(b)
    decreases |a|
  {
    if a == [] {
      assert a + b == b;
    } else {
      var n := LineLength(a);
      FirstLineAppend(a, b);
      ReadLinesAppend(a[n..], b);
      assert ReadLines(a + b) == [a[..n]] + ReadLines(a[n..] + b);
      assert ReadLines(a) == [a[..n]] + ReadLines(a[n..]);
      AppendAssoc([a[..n]], ReadLines(a[n..]), ReadLines(b));
    }
  }

  // ---------------------------------------------------------------------------------------------
  // Records of the file.

  /** `[ExchangeRate.from_db_row(row) for row in lines]`. */
  function ParseAll(lines: seq<string>): (r: Result<seq<ExchangeRate>, RowError>)
    ensures r.Ok? <==> forall i :: 0 <= i < |lines| ==> FromDbRow(lines[i]).Ok?
    ensures r.Ok? ==> |r.value| == |lines| && forall i :: 0 <= i < |lines| ==> FromDbRow(lines[i]) == Ok(r.value[i])
  {
    MapAll(lines, FromDbRow)
  }

  /** `f"{r.to_db_row()}\n"`. */
  function RowLine(r: ExchangeRate): string
    requires InPythonRange(r.date)
  {
    ToDbRow(r) + "\n"
  }

  predicate AllInRange(rows: seq<ExchangeRate>) {
    forall r :: r in rows ==> InPythonRange(r.date)
  }

  predicate AllWritable(rows: seq<ExchangeRate>) {
    forall r :: r in rows ==> Writable(r)
  }

  /** The lines `append_rows` writes for `rows`, in order. */
  function RowLines(rows: seq<ExchangeRate>): (lines: seq<string>)
    requires AllInRange(rows)
    ensures |lines| == |rows| && forall i :: 0 <= i < |rows| ==> lines[i] == RowLine(rows[i])
  {
    if rows == [] then [] else [RowLine(rows[0])] + RowLines(rows[1..])
  }

  /** A written row holds no newline, so its line is a line `readlines` gives back. */
  lemma RowLineIsLine(r: ExchangeRate)
    requires Writable(r)
    ensures IsLine(RowLine(r))
  {
    var l := RowLine(r);
    var date := FormatDbDate(r.date);
    assert '\n' !in r.symbol && '\n' !in r.priceSymbol by {
      assert IsSpace('\n');
    }
    assert '\n' !in date by {
      assert '\n' !in DbDay(r.date.date) && '\n' !in DbClock(r.date);
    }
    assert '\n' !in PriceText(r.price);
    var row := ToDbRow(r);
    assert '\n' !in row;
    assert l[..|l| - 1] == row;
  }

  /** The lines written for any rows read back as those rows. */
  lemma ReadWrittenRows(rows: seq<ExchangeRate>)
    requires AllWritable(rows)
    ensures ParseAll(ReadLines(Concat(RowLines(rows)))) == Ok(rows)
  {
    var lines := RowLines(rows);
    forall i | 0 <= i < |lines|
      ensures IsLine(lines[i]) && FromDbRow(lines[i]) == Ok(rows[i])
    {
      RowLineIsLine(rows[i]);
      RoundTrip(rows[i]);
    }
    ReadConcatLines(lines);
    var r := ParseAll(lines);
    assert r.value == rows;
  }

  // ---------------------------------------------------------------------------------------------
  // Order by date.

  /** The sort key: the record's moment, as an integer that orders moments. */
  function DateOf(r: ExchangeRate): int {
    Key(r.date)
  }

  /** `sorted(rows, key=lambda r: r.date)`. */
  function SortByDate(rows: seq<ExchangeRate>): (r: seq<ExchangeRate>)
    ensures multiset(r) == multiset(rows)
    ensures SortedBy(r, DateOf)
    ensures forall k :: WithKey(r, DateOf, k) == WithKey(rows, DateOf, k)
    ensures AllInRange(rows) ==> AllInRange(r)
    ensures AllWritable(rows) ==> AllWritable(r)
  {
    SortBySorted(rows, DateOf);
    forall k ensures WithKey(SortBy(rows, DateOf), DateOf, k) == WithKey(rows, DateOf, k) {
      SortByStable(rows, DateOf, k);
    }
    var r := SortBy(rows, DateOf);
    assert forall x :: x in r <==> x in multiset(rows);
    r
  }

  /** `min(records, key=lambda r: r.date, default=None)`. */
  function Earliest(rs: seq<ExchangeRate>): (r: Option<ExchangeRate>)
    ensures r.None? <==> rs == []
    ensures r.Some? ==> exists i :: (0 <= i < |rs| && r.value == rs[i]
                                     && (forall j :: 0 <= j < |rs| ==> DateOf(rs[i]) <= DateOf(rs[j]))
                                     && (forall j :: 0 <= j < i ==> DateOf(rs[i]) < DateOf(rs[j])))
  {
    if rs == [] then None else Some(rs[FirstMinIndex(rs, DateOf)])
  }

  /** `max(records, key=lambda r: r.date, default=None)`. */
  function Latest(rs: seq<ExchangeRate>): (r: Option<ExchangeRate>)
    ensures r.None? <==> rs == []
    ensures r.Some? ==> exists i :: (0 <= i < |rs| && r.value == rs[i]
                                     && (forall j :: 0 <= j < |rs| ==> DateOf(rs[j]) <= DateOf(rs[i]))
                                     && (forall j :: 0 <= j < i ==> DateOf(rs[j]) < DateOf(rs[i])))
  {
    if rs == [] then None else Some(rs[FirstMaxIndex(rs, DateOf)])
  }

  // ---------------------------------------------------------------------------------------------
  // The database.

  class PriceDb {
    /** Whether the file at `db_path` exists. */
    var present: bool
    /** Its contents; empty while it does not exist. */
    var content: string

    predicate Valid()
      reads this
    {
      present || content == []
    }

    constructor (present: bool, content: string)
      requires present || content == []
      ensures Valid() && this.present == present && this.content == content
    {
      this.present := present;
      this.content := content;
    }

    /** `read_db`: no records while the file does not exist; otherwise every line read as a
        record. */
    function ReadDb(): (r: Result<seq<ExchangeRate>, RowError>)
      reads this
      ensures !present ==> r == Ok([])
      ensures present ==> r == ParseAll(ReadLines(content))
    {
      if !present then Ok([]) else ParseAll(ReadLines(content))
    }

    /** `first_record`. */
    function FirstRecord(): (r: Result<Option<ExchangeRate>, RowError>)
      reads this
      ensures r.Ok? <==> ReadDb().Ok?
      ensures r.Ok? ==> r.value == Earliest(ReadDb().value)
    {
      match ReadDb()
      case Err(e) => Err(e)
      case Ok(rs) => Ok(Earliest(rs))
    }

    /** `last_record`. */
    function LastRecord(): (r: Result<Option<ExchangeRate>, RowError>)
      reads this
      ensures r.Ok? <==> ReadDb().Ok?
      ensures r.Ok? ==> r.value == Latest(ReadDb().value)
    {
      match ReadDb()
      case Err(e) => Err(e)
      case Ok(rs) => Ok(Latest(rs))
    }

    /** `fp.writelines(lines)` on a file opened for appending: each line goes at the end in turn. */
    method WriteLines(lines: seq<string>)
      modifies this
      ensures present == old(present)
      ensures content == old(content) + Concat(lines)
    {
      var i := 0;
      while i < |lines|
        invariant 0 <= i <= |lines|
        invariant present == old(present)
        invariant content == old(content) + Concat(lines[..i])
      {
        ConcatPrefixStep(lines, i);
        content := content + lines[i];
        i := i + 1;
      }
      assert lines[..i] == lines;
    }

    /** `append_rows`: the rows sorted by date, each written as a line at the end of the file,
        which `open(..., "a")` creates when it does not exist. */
    method AppendRows(rows: seq<ExchangeRate>)
      requires Valid()
      requires AllInRange(rows)
      modifies this
      ensures Valid() && present
      ensures content == old(content) + Concat(RowLines(SortByDate(rows)))
    {
      present := true;
      WriteLines(RowLines(SortByDate(rows)));
    }
  }

  // ---------------------------------------------------------------------------------------------
  // What the database gives back.

  /** A file that is empty or ends in a newline: what appending rows to an empty file keeps. */
  predicate LineEnded(c: string) {
    c == [] || c[|c| - 1] == '\n'
  }

  lemma {:induction false} WrittenLinesEnded(rows: seq<ExchangeRate>)
    requires AllInRange(rows)
    ensures LineEnded(Concat(RowLines(rows)))
  {
    if rows != [] {
      var rest := Concat(RowLines(rows[1..]));
      WrittenLinesEnded(rows[1..]);
      assert RowLines(rows)[1..] == RowLines(rows[1..]);
      assert Concat(RowLines(rows)) == RowLine(rows[0]) + rest;
    }
  }

  /** Reading a file that ends in a line, followed by the lines of some rows, gives its records
      and then those rows. */
  lemma ReadAfterLines(before: string, rows: seq<ExchangeRate>)
    requires LineEnded(before) && ParseAll(ReadLines(before)).Ok?
    requires AllWritable(rows)
    ensures ParseAll(ReadLines(before + Concat(RowLines(rows)))) == Ok(ParseAll(ReadLines(before)).value + rows)
  {
    var added := Concat(RowLines(rows));
    ReadLinesAppend(before, added);
    ReadWrittenRows(rows);
    MapAllJoin(ReadLines(before), ReadLines(added), FromDbRow);
  }

  lemma LineEndedAppend(before: string, rows: seq<ExchangeRate>)
    requires LineEnded(before) && AllInRange(rows)
    ensures LineEnded(before + Concat(RowLines(rows)))
  {
    var added := Concat(RowLines(rows));
    WrittenLinesEnded(rows);
    if added != [] {
      assert (before + added)[|before + added| - 1] == added[|added| - 1];
    } else {
      assert before + added == before;
    }
  }

  /** Reading a file after `append_rows` gives the records read before, then the appended rows in
      date order; the file still ends in a line. */
  lemma ReadAfterAppend(before: string, rows: seq<ExchangeRate>)
    requires LineEnded(before) && ParseAll(ReadLines(before)).Ok?
    requires AllWritable(rows)
    ensures ParseAll(ReadLines(before + Concat(RowLines(SortByDate(rows)))))
            == Ok(ParseAll(ReadLines(before)).value + SortByDate(rows))
    ensures LineEnded(before + Concat(RowLines(SortByDate(rows))))
  {
    ReadAfterLines(before, SortByDate(rows));
    LineEndedAppend(before, SortByDate(rows));
  }

  /** Each row is dated strictly after the one before it. */
  predicate StrictlyDated(rows: seq<ExchangeRate>) {
    forall i :: 0 < i < |rows| ==> DateOf(rows[i - 1]) < DateOf(rows[i])
  }

  /** Of rows in date order, the earliest is the first and the latest has the date of the last;
      when no two rows share a date, the latest is the last row. */
  lemma SortedFirstLast(rows: seq<ExchangeRate>)
    requires rows != [] && SortedBy(rows, DateOf)
    ensures Earliest(rows) == Some(rows[0])
    ensures Latest(rows).Some? && DateOf(Latest(rows).value) == DateOf(rows[|rows| - 1])
    ensures StrictlyDated(rows) ==> Latest(rows) == Some(rows[|rows| - 1])
  {
    if StrictlyDated(rows) {
      var n := |rows| - 1;
      forall j | 0 <= j < n
        ensures DateOf(rows[j]) < DateOf(rows[n])
      {
        assert DateOf(rows[j]) < DateOf(rows[j + 1]);
      }
    }
  }

  /** Rows appended in date order to an empty file read back as they are. */
  lemma ReadSortedAppended(rows: seq<ExchangeRate>)
    requires AllWritable(rows) && SortedBy(rows, DateOf)
    ensures ParseAll(ReadLines(Concat(RowLines(SortByDate(rows))))) == Ok(rows)
  {
    SortBySortedInput(rows, DateOf);
    ReadWrittenRows(rows);
  }

  /** A fresh store reads as empty with no first or last record; after the rows, in date order,
      are appended it reads them back, its first record is the first row and its last record has
      the date of the last row, and is the last row when no two rows share a date. */
  method StoreRoundTrip(rows: seq<ExchangeRate>)
      returns (readBefore: Result<seq<ExchangeRate>, RowError>, firstBefore: Result<Option<ExchangeRate>, RowError>,
               lastBefore: Result<Option<ExchangeRate>, RowError>,
               readAfter: Result<seq<ExchangeRate>, RowError>, firstAfter: Result<Option<ExchangeRate>, RowError>,
               lastAfter: Result<Option<ExchangeRate>, RowError>)
    requires rows != [] && AllWritable(rows) && SortedBy(rows, DateOf)
    ensures readBefore == Ok([]) && firstBefore == Ok(None) && lastBefore == Ok(None)
    ensures readAfter == Ok(rows)
    ensures firstAfter == Ok(Some(rows[0]))
    ensures lastAfter.Ok? && lastAfter.value.Some? && DateOf(lastAfter.value.value) == DateOf(rows[|rows| - 1])
    ensures StrictlyDated(rows) ==> lastAfter == Ok(Some(rows[|rows| - 1]))
  {
    var db := new PriceDb(false, []);
    readBefore := db.ReadDb();
    firstBefore := db.FirstRecord();
    lastBefore := db.LastRecord();
    db.AppendRows(rows);
    ghost var written := Concat(RowLines(SortByDate(rows)));
    assert db.content == written by {
      assert [] + written == written;
    }
    ReadSortedAppended(rows);
    readAfter := db.ReadDb();
    firstAfter := db.FirstRecord();
    lastAfter := db.LastRecord();
    SortedFirstLast(rows);
  }
}

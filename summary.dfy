/**
 * `get_summary` (backend/app/api/summary.py): the number of rows per
 * Asia/Tokyo calendar day of a stored CSV, read from its `time_generated`
 * column as microseconds since the Unix epoch, one entry per day in
 * ascending `YYYY-MM-DD` order.
 */
module Summary {
  import opened Records
  import opened Text
  import opened CivilDate

  const TimeColumn := "time_generated"

  /** One record of the response: `{"date": "YYYY-MM-DD", "count": n}`. */
  datatype Entry = Entry(date: string, count: nat)

  /**
   * `pd.to_datetime(cell, unit="us", errors="coerce")`: the microsecond
   * count when the cell holds an integer pandas can represent as a
   * timestamp, nothing (NaT) otherwise.
   */
  function Coerce(c: Cell): (r: Option<int>)
    ensures r.Some? ==> InPandasRange(r.value)
  {
    match c
    case Num(v) => if InPandasRange(v) then Some(v) else None
    case Str(s) =>
      if IsIntegerText(s) && InPandasRange(IntegerValue(s)) then Some(IntegerValue(s)) else None
    case Missing => None
  }

  /** The label a row gets (`dt.strftime("%Y-%m-%d")` after `tz_convert('Asia/Tokyo')`), if it is kept. */
  function RowDate(c: Cell): (r: Option<string>)
    ensures r.Some? <==> Coerce(c).Some?
  {
    match Coerce(c)
    case Some(us) => Some(TokyoDateString(us))
    case None => None
  }

  /** The labels of the rows that survive `dropna`, in row order. */
  function KeptDates(cells: seq<Cell>): (dates: seq<string>)
  {
    if cells == [] then []
    else (match RowDate(cells[0]) case Some(d) => [d] case None => []) + KeptDates(cells[1..])
  }

  /** How many rows have a convertible timestamp. */
  function ConvertibleRows(cells: seq<Cell>): nat {
    if cells == [] then 0 else (if Coerce(cells[0]).Some? then 1 else 0) + ConvertibleRows(cells[1..])
  }

  /** How many rows fall on the Tokyo day labelled `d`. */
  function RowsOn(cells: seq<Cell>, d: string): nat {
    if cells == [] then 0 else (if RowDate(cells[0]) == Some(d) then 1 else 0) + RowsOn(cells[1..], d)
  }

  function Occurrences(ds: seq<string>, d: string): nat {
    if ds == [] then 0 else (if ds[0] == d then 1 else 0) + Occurrences(ds[1..], d)
  }

  /** Every convertible row contributes exactly one label. */
  lemma {:induction false} KeptDatesLength(cells: seq<Cell>)
    ensures |KeptDates(cells)| == ConvertibleRows(cells)
  {
    if cells != [] {
      KeptDatesLength(cells[1..]);
    }
  }

  /** A label occurs among the kept labels once per row on that day. */
  lemma {:induction false} KeptDatesOccurrences(cells: seq<Cell>, d: string)
    ensures Occurrences(KeptDates(cells), d) == RowsOn(cells, d)
  {
    if cells != [] {
      KeptDatesOccurrences(cells[1..], d);
      var head := match RowDate(cells[0]) case Some(x) => [x] case None => [];
      OccurrencesAppend(head, KeptDates(cells[1..]), d);
    }
  }

  /** The label of every kept row is among the kept labels. */
  lemma {:induction false} KeptDatesComplete(cells: seq<Cell>, i: int)
    requires 0 <= i < |cells| && RowDate(cells[i]).Some?
    ensures RowDate(cells[i]).value in KeptDates(cells)
  {
    if i > 0 {
      assert cells[i] == cells[1..][i - 1];
      KeptDatesComplete(cells[1..], i - 1);
    }
  }

  lemma {:induction false} OccurrencesAppend(a: seq<string>, b: seq<string>, d: string)
    ensures Occurrences(a + b, d) == Occurrences(a, d) + Occurrences(b, d)
  {
    if a != [] {
      assert (a + b)[1..] == a[1..] + b;
      OccurrencesAppend(a[1..], b, d);
    } else {
      assert a + b == b;
    }
  }

  // ---- The group-count-sort fold ----

  function DateSet(es: seq<Entry>): set<string> {
    set i | 0 <= i < |es| :: es[i].date
  }

  /** The count listed for `d`, or 0 when `d` is not listed. */
  function Lookup(es: seq<Entry>, d: string): nat {
    if es == [] then 0 else if es[0].date == d then es[0].count else Lookup(es[1..], d)
  }

  /** The sum of all listed counts. */
  function Total(es: seq<Entry>): nat {
    if es == [] then 0 else es[0].count + Total(es[1..])
  }

  /** Dates in strictly ascending string order (hence also distinct). */
  predicate StrictlyAscending(es: seq<Entry>) {
    forall i, j :: 0 <= i < j < |es| ==> LexLess(es[i].date, es[j].date)
  }

  predicate AllPositive(es: seq<Entry>) {
    forall i :: 0 <= i < |es| ==> es[i].count >= 1
  }

  /** `r` is `es` with one more row counted on day `d`, still ascending and positive. */
  ghost predicate CountedOnce(r: seq<Entry>, es: seq<Entry>, d: string) {
    && StrictlyAscending(r) && AllPositive(r)
    && DateSet(r) == DateSet(es) + {d}
    && (forall x :: Lookup(r, x) == Lookup(es, x) + (if x == d then 1 else 0))
    && Total(r) == Total(es) + 1
  }

  /** Count one more row on day `d`, keeping the dates ascending. */
  function Insert(es: seq<Entry>, d: string): (r: seq<Entry>)
    requires StrictlyAscending(es) && AllPositive(es)
    ensures StrictlyAscending(r) && AllPositive(r)
    ensures DateSet(r) == DateSet(es) + {d}
    ensures forall x :: Lookup(r, x) == Lookup(es, x) + (if x == d then 1 else 0)
    ensures Total(r) == Total(es) + 1
  {
    if es == [] then
      [Entry(d, 1)]
    else if es[0].date == d then
      InsertAtHead(es, d);
      [Entry(d, es[0].count + 1)] + es[1..]
    else if LexLess(d, es[0].date) then
      InsertInFront(es, d);
      [Entry(d, 1)] + es
    else
      LexLessTotal(d, es[0].date);
      var rest := Insert(es[1..], d);
      InsertFurther(es, rest, d);
      [es[0]] + rest
  }

  /** The first listed date is `d`: its count goes up by one. */
  lemma InsertAtHead(es: seq<Entry>, d: string)
    requires StrictlyAscending(es) && AllPositive(es) && es != [] && es[0].date == d
    ensures CountedOnce([Entry(d, es[0].count + 1)] + es[1..], es, d)
  {
    var e, tail := es[0], es[1..];
    var r := [Entry(d, e.count + 1)] + tail;
    assert es == [e] + tail;
    assert r[1..] == tail;
    HeadBelowTail(es);
    DateSetCons(e, tail);
    DateSetCons(r[0], tail);
    ConsAscending(r[0], tail);
  }

  /** `d` is below every listed date: it is listed first with count one. */
  lemma InsertInFront(es: seq<Entry>, d: string)
    requires StrictlyAscending(es) && AllPositive(es) && es != [] && LexLess(d, es[0].date)
    ensures CountedOnce([Entry(d, 1)] + es, es, d)
  {
    var e, tail := es[0], es[1..];
    var r := [Entry(d, 1)] + es;
    assert es == [e] + tail;
    assert r[1..] == es;
    HeadBelowTail(es);
    DateSetCons(e, tail);
    forall x | x in DateSet(es) ensures LexLess(d, x) {
      if x != e.date {
        LexLessTransitive(d, e.date, x);
      }
    }
    DateSetCons(r[0], es);
    ConsAscending(r[0], es);
    LookupAbsent(es, d);
  }

  /** `d` comes after the first listed date: the first entry stays and `d` is counted in the rest. */
  lemma InsertFurther(es: seq<Entry>, rest: seq<Entry>, d: string)
    requires StrictlyAscending(es) && AllPositive(es) && es != [] && LexLess(es[0].date, d)
    requires CountedOnce(rest, es[1..], d)
    ensures CountedOnce([es[0]] + rest, es, d)
  {
    var e, tail := es[0], es[1..];
    var r := [e] + rest;
    assert es == [e] + tail;
    assert r[1..] == rest;
    assert Total(r) == e.count + Total(rest);
    assert Total(es) == e.count + Total(tail);
    LexLessIrreflexive(d);
    forall x ensures Lookup(r, x) == Lookup(es, x) + (if x == d then 1 else 0) {
      if x != e.date {
        assert Lookup(r, x) == Lookup(rest, x) && Lookup(es, x) == Lookup(tail, x);
      }
    }
    HeadBelowTail(es);
    DateSetCons(e, tail);
    DateSetCons(e, rest);
    ConsAscending(e, rest);
  }

  /** The head of an ascending list is below every other listed date. */
  lemma HeadBelowTail(es: seq<Entry>)
    requires StrictlyAscending(es) && es != []
    ensures forall x :: x in DateSet(es[1..]) ==> LexLess(es[0].date, x)
  {
    forall x | x in DateSet(es[1..]) ensures LexLess(es[0].date, x) {
      var k :| 0 <= k < |es[1..]| && es[1..][k].date == x;
      assert es[k + 1].date == x;
    }
  }

  /** Putting a smaller date in front of an ascending list keeps it ascending. */
  lemma ConsAscending(e: Entry, es: seq<Entry>)
    requires StrictlyAscending(es) && forall x :: x in DateSet(es) ==> LexLess(e.date, x)
    ensures StrictlyAscending([e] + es)
  {
    var r := [e] + es;
    forall i, j | 0 <= i < j < |r| ensures LexLess(r[i].date, r[j].date) {
      if i == 0 {
        assert r[j].date == es[j - 1].date;
      } else {
        assert r[i] == es[i - 1] && r[j] == es[j - 1];
      }
    }
  }

  lemma DateSetCons(e: Entry, es: seq<Entry>)
    ensures DateSet([e] + es) == {e.date} + DateSet(es)
  {
    var r := [e] + es;
    forall x | x in DateSet(r) ensures x in {e.date} + DateSet(es) {
      var i :| 0 <= i < |r| && r[i].date == x;
      if i > 0 {
        assert es[i - 1].date == x;
      }
    }
    forall x | x in DateSet(es) ensures x in DateSet(r) {
      var i :| 0 <= i < |es| && es[i].date == x;
      assert r[i + 1].date == x;
    }
    assert r[0].date == e.date;
  }

  /** A date below every listed date is not listed. */
  lemma LookupAbsent(es: seq<Entry>, d: string)
    requires StrictlyAscending(es) && es != [] && LexLess(d, es[0].date)
    ensures Lookup(es, d) == 0
    decreases |es|
  {
    LexLessIrreflexive(d);
    if |es| > 1 {
      LexLessTransitive(d, es[0].date, es[1].date);
      LookupAbsent(es[1..], d);
    }
  }

  /**
   * `groupby("date").size().reset_index(name="count").sort_values("date")`
   * over the kept labels: one entry per distinct label, ascending, holding
   * the number of times the label occurs.
   */
  function Tally(ds: seq<string>): (r: seq<Entry>)
    ensures StrictlyAscending(r) && AllPositive(r)
    ensures DateSet(r) == set i | 0 <= i < |ds| :: ds[i]
    ensures forall x :: Lookup(r, x) == Occurrences(ds, x)
    ensures Total(r) == |ds|
  {
    if ds == [] then []
    else
      ElementsCons(ds);
      Insert(Tally(ds[1..]), ds[0])
  }

  lemma ElementsCons(ds: seq<string>)
    requires ds != []
    ensures (set i | 0 <= i < |ds| :: ds[i]) == (set i | 0 <= i < |ds[1..]| :: ds[1..][i]) + {ds[0]}
  {
    assert forall i :: 0 < i < |ds| ==> ds[i] == ds[1..][i - 1];
  }

  /** In an ascending list, the count found for a listed date is that entry's own count. */
  lemma {:induction false} LookupAt(es: seq<Entry>, i: int)
    requires StrictlyAscending(es) && 0 <= i < |es|
    ensures Lookup(es, es[i].date) == es[i].count
  {
    if i > 0 {
      LexLessIrreflexive(es[0].date);
      assert es[0].date != es[i].date;
      LookupAt(es[1..], i - 1);
    }
  }

  /**
   * What a daily summary of the rows `cells` is: ascending dates, one entry
   * per day that has at least one kept row, each with the number of kept
   * rows on that day, together accounting for every convertible row.
   */
  predicate IsDailySummary(es: seq<Entry>, cells: seq<Cell>) {
    && StrictlyAscending(es)
    && (forall i :: 0 <= i < |es| ==> es[i].count == RowsOn(cells, es[i].date) && es[i].count >= 1)
    && (forall i :: 0 <= i < |cells| && RowDate(cells[i]).Some? ==>
          exists j :: 0 <= j < |es| && es[j].date == RowDate(cells[i]).value)
    && Total(es) == ConvertibleRows(cells)
  }

  lemma SummaryOfRows(cells: seq<Cell>)
    ensures IsDailySummary(Tally(KeptDates(cells)), cells)
  {
    var ds := KeptDates(cells);
    var es := Tally(ds);
    KeptDatesLength(cells);
    forall i | 0 <= i < |es|
      ensures es[i].count == RowsOn(cells, es[i].date)
    {
      LookupAt(es, i);
      KeptDatesOccurrences(cells, es[i].date);
    }
    forall i | 0 <= i < |cells| && RowDate(cells[i]).Some?
      ensures exists j :: 0 <= j < |es| && es[j].date == RowDate(cells[i]).value
    {
      var d := RowDate(cells[i]).value;
      KeptDatesComplete(cells, i);
      var k :| 0 <= k < |ds| && ds[k] == d;
      assert d in DateSet(es);
    }
  }

  /** A day with rows on it has a row whose label is that day. */
  lemma {:induction false} RowsOnWitness(cells: seq<Cell>, d: string)
    requires RowsOn(cells, d) > 0
    ensures exists i :: 0 <= i < |cells| && RowDate(cells[i]) == Some(d)
  {
    if RowDate(cells[0]) != Some(d) {
      RowsOnWitness(cells[1..], d);
      var i :| 0 <= i < |cells[1..]| && RowDate(cells[1..][i]) == Some(d);
      assert cells[i + 1] == cells[1..][i];
    }
  }

  lemma DateSetEmpty(es: seq<Entry>)
    ensures DateSet(es) == {} <==> es == []
  {
    if es != [] {
      assert es[0].date in DateSet(es);
    }
  }

  /** Two ascending lists over the same dates list them in the same order. */
  lemma {:induction false} AscendingSameDates(a: seq<Entry>, b: seq<Entry>)
    requires StrictlyAscending(a) && StrictlyAscending(b) && DateSet(a) == DateSet(b)
    ensures |a| == |b| && forall i :: 0 <= i < |a| ==> a[i].date == b[i].date
  {
    DateSetEmpty(a);
    DateSetEmpty(b);
    if a != [] {
      HeadBelowTail(a);
      HeadBelowTail(b);
      assert a == [a[0]] + a[1..] && b == [b[0]] + b[1..];
      DateSetCons(a[0], a[1..]);
      DateSetCons(b[0], b[1..]);
      LexLessIrreflexive(a[0].date);
      LexLessIrreflexive(b[0].date);
      if a[0].date != b[0].date {
        assert a[0].date in DateSet(b[1..]) && b[0].date in DateSet(a[1..]);
        LexLessAsymmetric(a[0].date, b[0].date);
        assert false;
      }
      assert DateSet(a[1..]) == DateSet(b[1..]);
      AscendingSameDates(a[1..], b[1..]);
      forall i | 0 < i < |a| ensures a[i].date == b[i].date {
        assert a[i] == a[1..][i - 1] && b[i] == b[1..][i - 1];
      }
    }
  }

  /** The daily summary of a column is unique: there is exactly one right answer. */
  lemma DailySummaryUnique(a: seq<Entry>, b: seq<Entry>, cells: seq<Cell>)
    requires IsDailySummary(a, cells) && IsDailySummary(b, cells)
    ensures a == b
  {
    forall x | x in DateSet(a) ensures x in DateSet(b) {
      var j :| 0 <= j < |a| && a[j].date == x;
      RowsOnWitness(cells, x);
    }
    forall x | x in DateSet(b) ensures x in DateSet(a) {
      var j :| 0 <= j < |b| && b[j].date == x;
      RowsOnWitness(cells, x);
    }
    AscendingSameDates(a, b);
    assert forall i :: 0 <= i < |a| ==> a[i] == b[i];
  }

  /** The cells of column `name` (NaN where a row is short), as `df[name]`. */
  function ColumnCells(t: Table, name: string): (cells: seq<Cell>)
    requires name in t.columns
    ensures |cells| == |t.rows|
  {
    var k := IndexOf(t.columns, name);
    seq(|t.rows|, i requires 0 <= i < |t.rows| => if k < |t.rows[i]| then t.rows[i][k] else Missing)
  }

  function IndexOf(names: seq<string>, name: string): (k: nat)
    requires name in names
    ensures k < |names| && names[k] == name
  {
    if names[0] == name then 0 else 1 + IndexOf(names[1..], name)
  }

  /**
   * `GET /summary/{file_id}`: 404 when no record has the id (before any
   * file is read); 500 for any failure that is not an HTTP error (no blob
   * at the path, a CSV pandas cannot read); 400 without a `time_generated`
   * column; otherwise the daily summary of that column.
   */
  function GetSummary(records: map<FileId, FileRecord>, blobs: map<FileId, Bytes>,
                      readCsv: CsvReader, fileId: FileId): (r: Response<seq<Entry>>)
    ensures fileId !in records ==> r == Err(NotFound)
    ensures fileId in records && fileId !in blobs ==> r == Err(Internal)
    ensures fileId in records && fileId in blobs && !readCsv(blobs[fileId]).Parsed? ==> r == Err(Internal)
    ensures fileId in records && fileId in blobs && readCsv(blobs[fileId]).Parsed? ==>
      var t := readCsv(blobs[fileId]).table;
      if TimeColumn in t.columns then r.Ok? && IsDailySummary(r.value, ColumnCells(t, TimeColumn))
      else r == Err(NoTimeColumn)
  {
    if fileId !in records then Err(NotFound)
    else if fileId !in blobs then Err(Internal)
    else
      match readCsv(blobs[fileId])
      case Parsed(t) =>
        if TimeColumn !in t.columns then Err(NoTimeColumn)
        else
          var cells := ColumnCells(t, TimeColumn);
          SummaryOfRows(cells);
          Ok(Tally(KeptDates(cells)))
      case _ => Err(Internal)
  }

  /**
   * The status codes of the summary endpoint: 404 for an unknown id, 400
   * for a readable CSV without `time_generated`, and 500 for everything
   * else that goes wrong (no blob, a file the reader cannot read).
   */
  lemma SummaryStatus(records: map<FileId, FileRecord>, blobs: map<FileId, Bytes>,
                      readCsv: CsvReader, fileId: FileId)
    ensures GetSummary(records, blobs, readCsv, fileId).Err? &&
            Status(GetSummary(records, blobs, readCsv, fileId).reason) == 404 <==>
      fileId !in records
    ensures GetSummary(records, blobs, readCsv, fileId).Err? &&
            Status(GetSummary(records, blobs, readCsv, fileId).reason) == 400 <==>
      fileId in records && fileId in blobs && readCsv(blobs[fileId]).Parsed? &&
      TimeColumn !in readCsv(blobs[fileId]).table.columns
    ensures GetSummary(records, blobs, readCsv, fileId).Err? &&
            Status(GetSummary(records, blobs, readCsv, fileId).reason) == 500 <==>
      fileId in records && (fileId !in blobs || !readCsv(blobs[fileId]).Parsed?)
    ensures GetSummary(records, blobs, readCsv, fileId).Ok? <==>
      fileId in records && fileId in blobs && readCsv(blobs[fileId]).Parsed? &&
      TimeColumn in readCsv(blobs[fileId]).table.columns
  {
  }
}

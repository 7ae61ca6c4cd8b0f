/**
 * Reading journal rows into the date-keyed book (`book_of_days`): one row
 * becomes a `DayBookEntry` and is appended to the list kept for its date;
 * the driver feeds the rows in arrival order and stops at the first failure.
 */
module DayBook {
  import opened Results
  import opened Dates
  import Split

  /** One journal record. */
  datatype DayBookEntry = DayBookEntry(date: NaiveDate, name: string, content: string, tags: seq<string>)

  /** What reading a row can fail with: the CSV reader's error or the date parser's. */
  datatype ProcError = CsvError(message: string) | DateError(message: string)

  /** One item of the CSV record stream: the row's fields, or the reader's error text. */
  type Row = Result<seq<string>, string>

  /** `NaiveDate::from_str`: a date, or the parser's error text. */
  type DateParser = string -> Result<NaiveDate, string>

  /** The tag field is split on this character. */
  const TagSeparator: char := ','

  /**
   * Rows whose four fields are all present when the record was read. Rows the
   * source would panic on are excluded, and so are rows that fail on their date
   * before a missing later field is reached.
   */
  predicate WellFormed(record: Row) {
    record.Ok? ==> |record.value| >= 4
  }

  /** The entry a row stands for: date from field 0, name 1, tags 2, content 3. */
  function ReadEntry(record: Row, parse: DateParser): Result<DayBookEntry, ProcError>
    requires WellFormed(record)
  {
    match record
    case Err(message) => Err(CsvError(message))
    case Ok(fields) =>
      match parse(fields[0])
      case Err(message) => Err(DateError(message))
      case Ok(date) => Ok(DayBookEntry(date, fields[1], fields[3], Split.Split(fields[2], TagSeparator)))
  }

  /**
   * A row is read exactly when the reader produced it and its date parses, and
   * the entry gives back all four fields: the date text parses to its date,
   * name and content are the fields themselves, and the tags, one more than
   * there are commas, join back into the tag field.
   */
  lemma ReadEntryFields(record: Row, parse: DateParser)
    requires WellFormed(record)
    ensures ReadEntry(record, parse).Ok? <==> record.Ok? && parse(record.value[0]).Ok?
    ensures record.Err? ==> ReadEntry(record, parse) == Err(CsvError(record.error))
    ensures record.Ok? && parse(record.value[0]).Err? ==>
              ReadEntry(record, parse) == Err(DateError(parse(record.value[0]).error))
    ensures ReadEntry(record, parse).Ok? ==>
              var e, fields := ReadEntry(record, parse).value, record.value;
              && parse(fields[0]) == Ok(e.date)
              && e.name == fields[1]
              && e.content == fields[3]
              && Split.Join(e.tags, TagSeparator) == fields[2]
              && |e.tags| == multiset(fields[2])[TagSeparator] + 1
  {
    if ReadEntry(record, parse).Ok? {
      Split.JoinSplit(record.value[2], TagSeparator);
      Split.SplitCount(record.value[2], TagSeparator);
    }
  }

  /** The bucket kept for `date`, or the empty list if the date is new. */
  function BucketOrEmpty(days: map<NaiveDate, seq<DayBookEntry>>, date: NaiveDate): seq<DayBookEntry> {
    if date in days then days[date] else []
  }

  /** `book_of_days.entry(date).or_insert(vec![]).push(entry)`. */
  function Appended(days: map<NaiveDate, seq<DayBookEntry>>, e: DayBookEntry): (r: map<NaiveDate, seq<DayBookEntry>>)
    ensures r.Keys == days.Keys + {e.date}
    ensures r[e.date] == BucketOrEmpty(days, e.date) + [e]
    ensures forall d :: d in days && d != e.date ==> r[d] == days[d]
  {
    days[e.date := BucketOrEmpty(days, e.date) + [e]]
  }

  /** The entries of `es` dated `d`, in the order they come in `es`. */
  function Bucket(es: seq<DayBookEntry>, d: NaiveDate): seq<DayBookEntry> {
    if es == [] then []
    else Bucket(es[..|es| - 1], d) + (if es[|es| - 1].date == d then [es[|es| - 1]] else [])
  }

  function DatesOf(es: seq<DayBookEntry>): set<NaiveDate> {
    set i | 0 <= i < |es| :: es[i].date
  }

  /** The book that stable grouping of `es` by date gives. */
  function GroupByDate(es: seq<DayBookEntry>): map<NaiveDate, seq<DayBookEntry>> {
    map d | d in DatesOf(es) :: Bucket(es, d)
  }

  lemma DatesOfSnoc(es: seq<DayBookEntry>, e: DayBookEntry)
    ensures DatesOf(es + [e]) == DatesOf(es) + {e.date}
  {
    var es' := es + [e];
    forall x | x in DatesOf(es') ensures x in DatesOf(es) + {e.date} {
      var i :| 0 <= i < |es'| && es'[i].date == x;
      if i < |es| { assert es[i] == es'[i]; }
    }
    forall x | x in DatesOf(es) ensures x in DatesOf(es') {
      var i :| 0 <= i < |es| && es[i].date == x;
      assert es'[i] == es[i];
    }
    assert es'[|es|] == e;
  }

  /** A bucket holds exactly the entries of `es` with that date. */
  lemma {:induction false} BucketMembers(es: seq<DayBookEntry>, d: NaiveDate)
    ensures forall e :: e in Bucket(es, d) <==> e in es && e.date == d
    ensures Bucket(es, d) == [] <==> d !in DatesOf(es)
  {
    if es != [] {
      var init, last := es[..|es| - 1], es[|es| - 1];
      BucketMembers(init, d);
      assert es == init + [last];
      DatesOfSnoc(init, last);
    }
  }

  /** Stability: entries from earlier rows come before entries from later rows. */
  lemma {:induction false} BucketConcat(a: seq<DayBookEntry>, b: seq<DayBookEntry>, d: NaiveDate)
    ensures Bucket(a + b, d) == Bucket(a, d) + Bucket(b, d)
    decreases |b|
  {
    if b == [] {
      assert a + b == a;
    } else {
      var init, last := b[..|b| - 1], b[|b| - 1];
      BucketConcat(a, init, d);
      assert (a + b)[..|a + b| - 1] == a + init;
      assert (a + b)[|a + b| - 1] == last;
    }
  }

  /** Appending one entry to a grouped book groups the longer sequence. */
  lemma GroupByDateSnoc(es: seq<DayBookEntry>, e: DayBookEntry)
    ensures GroupByDate(es + [e]) == Appended(GroupByDate(es), e)
  {
    var es' := es + [e];
    assert es'[..|es'| - 1] == es;
    DatesOfSnoc(es, e);
    var g, l, r := GroupByDate(es), GroupByDate(es'), Appended(GroupByDate(es), e);
    assert l.Keys == r.Keys;
    forall d | d in l ensures l[d] == r[d] {
      assert l[d] == Bucket(es, d) + (if e.date == d then [e] else []);
      if d == e.date {
        BucketMembers(es, d);
        assert BucketOrEmpty(g, d) == Bucket(es, d);
      }
    }
  }

  /** Buckets exist only for dates that received an entry, and hold only entries of their date. */
  ghost predicate BucketsOwnDates(days: map<NaiveDate, seq<DayBookEntry>>) {
    forall d :: d in days ==> days[d] != [] && forall e :: e in days[d] ==> e.date == d
  }

  /** Every bucket of a grouped book is non-empty and holds only entries of its own date. */
  lemma GroupByDateBuckets(es: seq<DayBookEntry>)
    ensures BucketsOwnDates(GroupByDate(es))
    ensures forall i :: 0 <= i < |es| ==> es[i].date in GroupByDate(es) && es[i] in GroupByDate(es)[es[i].date]
  {
    forall d | d in GroupByDate(es) {
      BucketMembers(es, d);
    }
    forall i | 0 <= i < |es| ensures es[i].date in GroupByDate(es) && es[i] in GroupByDate(es)[es[i].date] {
      BucketMembers(es, es[i].date);
    }
  }

  /**
   * `BTreeMap<NaiveDate, Vec<DayBookEntry>>` that `proc_record` fills in place.
   * Iteration order (ascending dates) is not a property of this map; the
   * regrouping takes the keys in ascending order itself.
   */
  class BookOfDays {
    var days: map<NaiveDate, seq<DayBookEntry>>

    ghost predicate Valid()
      reads this
    {
      BucketsOwnDates(days)
    }

    constructor ()
      ensures Valid() && days == map[]
    {
      days := map[];
    }

    /** `entry(date).or_insert(Vec::with_capacity(8)).push(e)`. */
    method Push(e: DayBookEntry)
      requires Valid()
      modifies this
      ensures Valid()
      ensures days == Appended(old(days), e)
    {
      var entries := if e.date in days then days[e.date] else [];
      days := days[e.date := entries + [e]];
    }
  }

  /**
   * `proc_record`: read one row and append its entry to the book. A reader
   * error or a date that does not parse is returned and leaves the book as it
   * was, because the book is touched only after every field is read.
   */
  method ProcRecord(record: Row, parse: DateParser, book: BookOfDays) returns (r: Result<(), ProcError>)
    requires WellFormed(record)
    requires book.Valid()
    modifies book
    ensures book.Valid()
    ensures r.Ok? <==> ReadEntry(record, parse).Ok?
    ensures r.Err? ==> r.error == ReadEntry(record, parse).error && book.days == old(book.days)
    ensures r.Ok? ==> book.days == Appended(old(book.days), ReadEntry(record, parse).value)
  {
    if record.Err? {
      return Err(CsvError(record.error));
    }
    var fields := record.value;
    var dateText := fields[0];
    var parsed := parse(dateText);
    if parsed.Err? {
      return Err(DateError(parsed.error));
    }
    var date := parsed.value;
    var name := fields[1];
    var tags := Split.Split(fields[2], TagSeparator);
    var content := fields[3];
    var entry := DayBookEntry(date, name, content, tags);
    book.Push(entry);
    return Ok(());
  }

  /** The entries of `rows` read in order, or the error of the first row that fails. */
  function ReadAll(rows: seq<Row>, parse: DateParser): Result<seq<DayBookEntry>, ProcError>
    requires forall i :: 0 <= i < |rows| ==> WellFormed(rows[i])
  {
    if rows == [] then Ok([])
    else
      match ReadAll(rows[..|rows| - 1], parse)
      case Err(e) => Err(e)
      case Ok(es) =>
        match ReadEntry(rows[|rows| - 1], parse)
        case Err(e) => Err(e)
        case Ok(x) => Ok(es + [x])
  }

  /** All rows read succeeds exactly when every row reads, giving one entry per row, in order. */
  lemma {:induction false} ReadAllOk(rows: seq<Row>, parse: DateParser)
    requires forall i :: 0 <= i < |rows| ==> WellFormed(rows[i])
    ensures ReadAll(rows, parse).Ok? <==> forall i :: 0 <= i < |rows| ==> ReadEntry(rows[i], parse).Ok?
    ensures ReadAll(rows, parse).Ok? ==>
              && |ReadAll(rows, parse).value| == |rows|
              && forall i :: 0 <= i < |rows| ==> ReadAll(rows, parse).value[i] == ReadEntry(rows[i], parse).value
  {
    if rows != [] {
      var init := rows[..|rows| - 1];
      ReadAllOk(init, parse);
      assert forall i :: 0 <= i < |init| ==> init[i] == rows[i];
    }
  }

  /** A failed run reports the error of the first row that does not read. */
  lemma {:induction false} ReadAllFirstError(rows: seq<Row>, parse: DateParser)
    requires forall i :: 0 <= i < |rows| ==> WellFormed(rows[i])
    ensures ReadAll(rows, parse).Err? ==>
              exists i :: && 0 <= i < |rows|
                          && ReadEntry(rows[i], parse) == Err(ReadAll(rows, parse).error)
                          && forall j :: 0 <= j < i ==> ReadEntry(rows[j], parse).Ok?
  {
    if rows != [] && ReadAll(rows, parse).Err? {
      var init := rows[..|rows| - 1];
      assert forall i :: 0 <= i < |init| ==> init[i] == rows[i];
      if ReadAll(init, parse).Err? {
        ReadAllFirstError(init, parse);
        var i :| 0 <= i < |init| && ReadEntry(init[i], parse) == Err(ReadAll(init, parse).error)
                 && forall j :: 0 <= j < i ==> ReadEntry(init[j], parse).Ok?;
        assert ReadEntry(rows[i], parse) == Err(ReadAll(rows, parse).error);
      } else {
        ReadAllOk(init, parse);
        assert ReadEntry(rows[|rows| - 1], parse) == Err(ReadAll(rows, parse).error);
      }
    }
  }

  /** Once a prefix fails, the rows after it change nothing. */
  lemma {:induction false} ReadAllErrSticks(rows: seq<Row>, k: nat, parse: DateParser)
    requires k <= |rows|
    requires forall i :: 0 <= i < |rows| ==> WellFormed(rows[i])
    requires ReadAll(rows[..k], parse).Err?
    ensures ReadAll(rows, parse) == ReadAll(rows[..k], parse)
    decreases |rows| - k
  {
    if k < |rows| {
      assert rows[..k + 1][..k] == rows[..k];
      ReadAllErrSticks(rows, k + 1, parse);
    } else {
      assert rows[..k] == rows;
    }
  }

  /**
   * The ingestion loop of `main`: feed the rows to `proc_record` in arrival
   * order, stopping at the first error (where the source panics). The book
   * that results is the stable grouping of all entries by date.
   */
  method Ingest(rows: seq<Row>, parse: DateParser) returns (r: Result<map<NaiveDate, seq<DayBookEntry>>, ProcError>)
    requires forall i :: 0 <= i < |rows| ==> WellFormed(rows[i])
    ensures r.Ok? <==> ReadAll(rows, parse).Ok?
    ensures r.Err? ==> r.error == ReadAll(rows, parse).error
    ensures r.Ok? ==> r.value == GroupByDate(ReadAll(rows, parse).value)
    ensures r.Ok? ==> BucketsOwnDates(r.value)
  {
    var book := new BookOfDays();
    var i := 0;
    assert GroupByDate([]) == map[];
    while i < |rows|
      invariant 0 <= i <= |rows|
      invariant book.Valid()
      invariant ReadAll(rows[..i], parse).Ok?
      invariant book.days == GroupByDate(ReadAll(rows[..i], parse).value)
    {
      ghost var es := ReadAll(rows[..i], parse).value;
      var outcome := ProcRecord(rows[i], parse, book);
      assert rows[..i + 1][..i] == rows[..i];
      if outcome.Err? {
        ReadAllErrSticks(rows, i + 1, parse);
        return Err(outcome.error);
      }
      GroupByDateSnoc(es, ReadEntry(rows[i], parse).value);
      i := i + 1;
    }
    assert rows[..i] == rows;
    return Ok(book.days);
  }
}

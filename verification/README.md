# codify.rs journal loader — a Dafny model

`codify.rs` reads a CSV journal (one row per record: date, name, comma-separated
tags, content) and files the records by date. It works in two stages:

1. **Ingestion.** `proc_record` turns one CSV row into a `DayBookEntry` and
   appends it to the list kept for its date in `book_of_days`, an ordered map
   from `NaiveDate` to entries. `main` feeds the rows in arrival order and
   panics on the first row that fails.
2. **Regrouping.** `main` walks `book_of_days` in ascending date order and
   files each date's list in `book_of_fate`, three nested ordered maps
   year → month → day → entries. The year and month maps are created on first
   use. The day bucket is filled with `or_insert`, which never replaces a
   bucket that is already there.

The model follows the code in `src/main.rs`:

- `dates.dfy` (`Dates`) holds `NaiveDate` as a valid proleptic Gregorian date.
  It also holds chronological order, `month0`, `day0`, `year_ce`, and the
  existence of a least date in a finite set. That last fact is what ascending
  `BTreeMap` iteration relies on.
- `split.dfy` (`Split`) holds `str::split` on one character, with `Join` as
  its inverse.
- `daybook.dfy` (`DayBook`) covers the entry, the row and error types, and the
  pure reading of a row (`ReadEntry`). `BookOfDays` is a class whose `days`
  map is updated in place, and `ProcRecord` is `proc_record` working on it.
  `Ingest` is the ingestion loop. `ReadAll`, `Bucket` and `GroupByDate` are the
  specification functions that the loop is proved against.
- `fate.dfy` (`BookOfFate`) covers the nested maps, the slot a date is filed
  under, the `or_insert` step, the regrouping loop (`Regroup`) and the whole
  pipeline without I/O (`Run`). It also proves that the result is a faithful
  re-keying for CE dates and that a 1 BCE date shadows the matching 1 CE date.

`src/main.rs` has no rendering step: the last loop over `book_of_fate`
(lines 112-118) has an empty body. A missing field panics (lines 29, 34, 38,
48) rather than returning an error.

## Model

| member | source | states |
|---|---|---|
| `Dates.Month0` | src/main.rs:90 | `month0()` is below 12, so `month0() + 1` is a month number 1..12 |
| `Dates.Day0` | src/main.rs:92 | `day0()` is below 31, so `day0() + 1` is a day number 1..31 |
| `Dates.YearCeRoundTrip` | src/main.rs:89 | `year_ce()` gives an era year of at least 1 and a flag that is true exactly for CE years; the flag and the era year together give back the proleptic year |
| `Dates.LeastExists` | src/main.rs:88 | every non-empty set of dates has a chronologically first element, which is the next key ascending `BTreeMap` iteration yields |
| `Split.Split` | src/main.rs:39-43 | splitting always gives at least one piece (the empty text gives one empty piece) |
| `Split.SplitCount` | src/main.rs:39-43 | there is exactly one more piece than there are separators in the text |
| `Split.SplitPiecesFree` | src/main.rs:39-43 | no piece contains the separator |
| `Split.JoinSplit` | src/main.rs:39-43 | joining the pieces with the separator gives back the text: nothing is trimmed or dropped |
| `Split.SplitJoin` | src/main.rs:39-43 | pieces that contain no separator are recovered exactly by splitting their join |
| `DayBook.ReadEntryFields` | src/main.rs:25-56 | a row yields an entry exactly when the reader produced it and its date parses; a reader error becomes `CsvError` and a bad date `DateError`; the entry's date is the parse of field 0, name and content are fields 1 and 3 verbatim, and the tags join back into field 2 with one more tag than commas |
| `DayBook.Appended` | src/main.rs:58-62 | after the push the date is a key; its list is the old list, or the empty list for a new date, with the entry at the end; every other key keeps its list |
| `DayBook.BookOfDays.constructor` | src/main.rs:68-69 | the book starts empty |
| `DayBook.BookOfDays.Push` | src/main.rs:58-62 | the book becomes `Appended` of the old book, and its buckets stay non-empty and hold only entries of their own date |
| `DayBook.ProcRecord` | src/main.rs:21-65 | returns `Ok` exactly when the row reads; on an error it returns the row's error and leaves the book unchanged; on success the book is the old book with the entry appended under its date |
| `DayBook.BucketMembers` | src/main.rs:78-83 | a date's bucket holds exactly the entries with that date, and it is empty exactly when no entry has that date |
| `DayBook.BucketConcat` | src/main.rs:78-83 | grouping is stable: the bucket of a concatenation is the bucket of the earlier rows followed by that of the later rows |
| `DayBook.DatesOfSnoc` | src/main.rs:58-62 | one more entry adds exactly its date to the set of dates |
| `DayBook.GroupByDateSnoc` | src/main.rs:58-62 | appending an entry to the grouping of a sequence gives the grouping of the sequence extended by that entry |
| `DayBook.GroupByDateBuckets` | src/main.rs:78-83 | every bucket of a grouped book is non-empty and holds only its date's entries, and every entry is in the bucket of its own date |
| `DayBook.ReadAllOk` | src/main.rs:78-83 | reading all rows succeeds exactly when every row reads, and then yields one entry per row, in row order |
| `DayBook.ReadAllFirstError` | src/main.rs:78-83 | a failed run reports the error of the first row that does not read; all rows before it read |
| `DayBook.ReadAllErrSticks` | src/main.rs:78-83 | once a prefix of the rows fails, later rows do not change the outcome |
| `DayBook.Ingest` | src/main.rs:78-83 | the ingestion loop fails exactly when some row fails, with the first failing row's error; otherwise the book is the stable grouping of all entries by date, whose buckets are non-empty and hold only entries of their own date |
| `BookOfFate.WrapI32` | src/main.rs:90-92 | `as i32` gives the value in the `i32` range that is congruent to its operand modulo 2^32 |
| `BookOfFate.SlotOf` | src/main.rs:89-92 | the filing key of a date has an era year between 1 and 262145, a month in 1..12 and a day in 1..31 |
| `BookOfFate.SlotOfDecomposes` | src/main.rs:89-92 | the casts lose nothing: the key's month and day are the date's, its year with the era flag gives the date's year, and a CE date is filed under its own year, month and day |
| `BookOfFate.SlotCollision` | src/main.rs:89 | two different dates share a key only when they have the same month and day and years that add up to 1 (one BCE, one CE) |
| `BookOfFate.OrInsert` | src/main.rs:94-107 | after the step the key is present; its bucket is the old bucket if there was one, otherwise the date's entries; all old year and month keys and buckets stay; only the given year and month keys can be added; other keys and other years' maps are unchanged; no level becomes empty |
| `BookOfFate.RegroupStep` | src/main.rs:88-108 | visiting the next date in ascending order keeps the loop's description true |
| `BookOfFate.Regroup` | src/main.rs:85-108 | every date of the book has a bucket at its key; the bucket at a key is the list of the earliest date filed there; every bucket comes from some date; no year or month map is empty |
| `BookOfFate.RegroupedEarliest` | src/main.rs:104-107 | every date's key holds the list of the earliest date with the same key, because `or_insert` keeps the first bucket |
| `BookOfFate.RegroupedCe` | src/main.rs:88-107 | with CE dates only, no two dates share a key and every date's key holds exactly that date's list |
| `BookOfFate.BceShadowsCe` | src/main.rs:89 | a date in 1 BCE and the same month and day in 1 CE share a key, and the key holds the BCE list, so the CE entries are lost |
| `BookOfFate.RegroupedUnique` | src/main.rs:85-108 | the description of the regrouped map determines it: two maps that both satisfy it are equal |
| `BookOfFate.Run` | src/main.rs:67-108 | the pipeline without I/O fails exactly when some row fails, with the first failing row's error, and otherwise returns the regrouping of the stable grouping of all entries |
| `BookOfFate.EntriesFiledByDate` | src/main.rs:78-108 | with CE dates only, every entry is at its own date's key, that key lists the entries of the date in arrival order, and no other key holds the entry |

## Left out

- CSV tokenizing and file I/O (src/main.rs:71-78): the input is a sequence of `Row` values, each either the fields of a record or the reader's error text.
- `NaiveDate::from_str` (src/main.rs:30): the parser is a function-valued parameter that returns a valid date or an error text; the accepted date syntax is not modelled.
- The `.expect` calls on missing fields (src/main.rs:29, 34, 38, 48) panic in the source. They are modelled as a precondition that every record read has at least four fields. This applies to all rows, including rows after a failing one, which the source never reaches, and rows with one to three fields whose date does not parse, which the source rejects with the date error before reaching the missing field.
- The `panic!` on the first failing row (src/main.rs:80) is modelled as returning that row's error.
- Error values are `Box<dyn Error>` in the source; the model keeps only which kind of error occurred (`CsvError` or `DateError`) and its text.
- The `println!` dump of year 2024 (src/main.rs:110), which also panics when there is no 2024 key, is I/O and is not modelled.
- The final loop over `book_of_fate` (src/main.rs:112-118) has an empty body and is not modelled. For that reason the ascending iteration order of the nested maps is not represented: they are Dafny maps.
- `BookOfDays`: its `BTreeMap` ordering is not a field of the model. `Regroup` visits the dates in ascending order by always taking the least date not yet visited.
- `Vec::with_capacity(8)` (src/main.rs:61) is a performance hint and has no effect on contents.
- The year range of dates is taken to be `chrono`'s `i32::MIN >> 13` to `i32::MAX >> 13`; a `chrono` version with a different range changes only the bound in `SlotOf`.

/**
 * Regrouping the date-keyed book into `book_of_fate`, three nested maps
 * year -> month -> day -> entries. The dates are visited in ascending order;
 * the year and month levels are created on first use and the day level is
 * filled with `or_insert`, which never replaces a bucket already there.
 */
module BookOfFate {
  import opened Results
  import opened Dates
  import opened DayBook

  type Entries = seq<DayBookEntry>
  type EntryDays = map<int, Entries>
  type EntryMonths = map<int, EntryDays>
  type DayBookEntries = map<int, EntryMonths>

  /** A (year, month, day) position in the nested maps. */
  datatype Slot = Slot(year: int, month: int, day: int)

  /** The largest era year `year_ce` yields: 1 - MinYear (BCE) or MaxYear (CE). */
  const MaxEraYear: int := 1 - MinYear

  /** Rust's `as i32` on a `u32`: the `i32` congruent to `x` modulo 2^32. */
  function WrapI32(x: int): (r: int)
    requires 0 <= x < 0x1_0000_0000
    ensures -0x8000_0000 <= r < 0x8000_0000
    ensures (r - x) % 0x1_0000_0000 == 0
  {
    if x < 0x8000_0000 then x else x - 0x1_0000_0000
  }

  /** Where `main` files the entries of `d`: era year, `month0() + 1`, `day0() + 1`, each cast to `i32`. */
  function SlotOf(d: NaiveDate): (s: Slot)
    ensures 1 <= s.year <= MaxEraYear
    ensures 1 <= s.month <= 12
    ensures 1 <= s.day <= 31
  {
    var (_, year) := YearCe(d);
    Slot(WrapI32(year), WrapI32(Month0(d) + 1), WrapI32(Day0(d) + 1))
  }

  /** The casts lose nothing: month and day are the date's own, and the era year with its era gives the year back. */
  lemma SlotOfDecomposes(d: NaiveDate)
    ensures SlotOf(d).month == d.month && SlotOf(d).day == d.day
    ensures FromYearCe(d.year >= 1, SlotOf(d).year) == d.year
    ensures d.year >= 1 ==> SlotOf(d) == Slot(d.year, d.month, d.day)
  {
  }

  /** Two different dates share a slot only when one is BCE and the other CE, mirrored around year 1. */
  lemma SlotCollision(a: NaiveDate, b: NaiveDate)
    requires a != b && SlotOf(a) == SlotOf(b)
    ensures a.year + b.year == 1
    ensures a.month == b.month && a.day == b.day
  {
  }

  predicate Has(fate: DayBookEntries, s: Slot) {
    s.year in fate && s.month in fate[s.year] && s.day in fate[s.year][s.month]
  }

  function At(fate: DayBookEntries, s: Slot): Entries
    requires Has(fate, s)
  {
    fate[s.year][s.month][s.day]
  }

  /** No year map and no month map is empty. */
  predicate NoEmptyLevels(fate: DayBookEntries) {
    && (forall y :: y in fate ==> fate[y] != map[])
    && (forall y, m :: y in fate && m in fate[y] ==> fate[y][m] != map[])
  }

  /** `g` keeps every year and month key of `f` and every bucket of `f` unchanged. */
  ghost predicate Extends(f: DayBookEntries, g: DayBookEntries) {
    && (forall y :: y in f ==> y in g && f[y].Keys <= g[y].Keys)
    && (forall t :: Has(f, t) ==> Has(g, t) && At(g, t) == At(f, t))
  }

  /**
   * One pass of the regrouping loop body: get or create the year map, get or
   * create the month map, then `or_insert` the bucket for the day.
   */
  function OrInsert(fate: DayBookEntries, s: Slot, entries: Entries): (r: DayBookEntries)
    ensures Has(r, s)
    ensures At(r, s) == if Has(fate, s) then At(fate, s) else entries
    ensures Extends(fate, r)
    ensures forall t :: t != s ==> (Has(r, t) <==> Has(fate, t))
    ensures r.Keys == fate.Keys + {s.year}
    ensures forall y :: y in fate && y != s.year ==> r[y] == fate[y]
    ensures r[s.year].Keys == (if s.year in fate then fate[s.year].Keys else {}) + {s.month}
    ensures NoEmptyLevels(fate) ==> NoEmptyLevels(r)
  {
    var months := if s.year in fate then fate[s.year] else map[];
    var days := if s.month in months then months[s.month] else map[];
    var bucket := if s.day in days then days[s.day] else entries;
    fate[s.year := months[s.month := days[s.day := bucket]]]
  }

  /** `k` is the earliest date of `keys` filed under its slot. */
  ghost predicate IsFirstIn(keys: set<NaiveDate>, k: NaiveDate) {
    k in keys && forall j :: j in keys && SlotOf(j) == SlotOf(k) ==> !Before(j, k)
  }

  /**
   * `fate` is what the loop has built after visiting the dates in `done`:
   * each visited date has a bucket, the bucket of a slot is that of the
   * earliest visited date filed there, and nothing else is in `fate`.
   */
  ghost predicate RegroupedFrom(days: map<NaiveDate, Entries>, done: set<NaiveDate>, fate: DayBookEntries) {
    && done <= days.Keys
    && (forall k :: k in done ==> Has(fate, SlotOf(k)))
    && (forall k :: k in days && IsFirstIn(done, k) ==> Has(fate, SlotOf(k)) && At(fate, SlotOf(k)) == days[k])
    && (forall s :: Has(fate, s) ==> exists k :: k in done && SlotOf(k) == s)
    && NoEmptyLevels(fate)
  }

  /** `fate` is the regrouping of the whole book. */
  ghost predicate Regrouped(days: map<NaiveDate, Entries>, fate: DayBookEntries) {
    RegroupedFrom(days, days.Keys, fate)
  }

  /** Visiting the next date in ascending order keeps the loop's description true. */
  lemma RegroupStep(days: map<NaiveDate, Entries>, done: set<NaiveDate>, fate: DayBookEntries, date: NaiveDate)
    requires RegroupedFrom(days, done, fate)
    requires date in days && date !in done
    requires forall p :: p in done ==> Before(p, date)
    ensures RegroupedFrom(days, done + {date}, OrInsert(fate, SlotOf(date), days[date]))
  {
  }

  /**
   * The regrouping loop of `main` (lines 88-108): visit the book's dates in
   * ascending order (as `BTreeMap` iteration does) and file each date's
   * entries under its (year, month, day).
   */
  method Regroup(days: map<NaiveDate, Entries>) returns (fate: DayBookEntries)
    ensures Regrouped(days, fate)
  {
    fate := map[];
    var remaining := days.Keys;
    while remaining != {}
      invariant remaining <= days.Keys
      invariant forall p, q :: p in days && p !in remaining && q in remaining ==> Before(p, q)
      invariant RegroupedFrom(days, days.Keys - remaining, fate)
      decreases remaining
    {
      LeastExists(remaining);
      var date :| date in remaining && forall x :: x in remaining && x != date ==> Before(date, x);
      RegroupStep(days, days.Keys - remaining, fate, date);
      fate := OrInsert(fate, SlotOf(date), days[date]);
      assert days.Keys - remaining + {date} == days.Keys - (remaining - {date});
      remaining := remaining - {date};
    }
    assert days.Keys - remaining == days.Keys;
  }

  /**
   * Every date's slot holds the bucket of the earliest date filed under the
   * same slot: `or_insert` keeps the first bucket and drops the later ones.
   */
  lemma RegroupedEarliest(days: map<NaiveDate, Entries>, fate: DayBookEntries, k: NaiveDate)
    requires Regrouped(days, fate)
    requires k in days
    ensures Has(fate, SlotOf(k))
    ensures exists j :: j in days && IsFirstIn(days.Keys, j) && SlotOf(j) == SlotOf(k) && At(fate, SlotOf(k)) == days[j]
  {
    var same := set j | j in days && SlotOf(j) == SlotOf(k);
    assert k in same;
    LeastExists(same);
    var m :| m in same && forall x :: x in same && x != m ==> Before(m, x);
    forall j | j in days && SlotOf(j) == SlotOf(m) ensures !Before(j, m) {
      if j != m {
        assert j in same && Before(m, j);
      }
    }
    assert IsFirstIn(days.Keys, m);
  }

  /** With only CE dates no two dates share a slot, so every date keeps its own bucket. */
  lemma RegroupedCe(days: map<NaiveDate, Entries>, fate: DayBookEntries)
    requires Regrouped(days, fate)
    requires forall k :: k in days ==> k.year >= 1
    ensures forall k :: k in days ==> Has(fate, SlotOf(k)) && At(fate, SlotOf(k)) == days[k]
    ensures forall k, j :: k in days && j in days && SlotOf(k) == SlotOf(j) ==> k == j
  {
  }

  /**
   * A date in 1 BCE (proleptic year 0) and the same month and day of 1 CE
   * land in one slot; since 1 BCE comes first, the slot keeps the BCE bucket
   * and the CE entries are not in `fate`.
   */
  lemma BceShadowsCe(days: map<NaiveDate, Entries>, fate: DayBookEntries, bce: NaiveDate, ce: NaiveDate)
    requires Regrouped(days, fate)
    requires bce in days && ce in days
    requires bce.year == 0 && ce.year == 1 && bce.month == ce.month && bce.day == ce.day
    ensures SlotOf(bce) == SlotOf(ce)
    ensures At(fate, SlotOf(ce)) == days[bce]
  {
  }

  /** The description pins the regrouping down: two maps that both regroup the book are equal. */
  lemma RegroupedUnique(days: map<NaiveDate, Entries>, f: DayBookEntries, g: DayBookEntries)
    requires Regrouped(days, f) && Regrouped(days, g)
    ensures f == g
  {
    forall s | Has(f, s) || Has(g, s) ensures Has(f, s) && Has(g, s) && At(f, s) == At(g, s) {
      var k :| k in days && SlotOf(k) == s;
      RegroupedEarliest(days, f, k);
      var j :| j in days && IsFirstIn(days.Keys, j) && SlotOf(j) == s && At(f, s) == days[j];
    }
    SameLevels(f, g);
    SameLevels(g, f);
    assert f.Keys == g.Keys by {
      assert forall y :: y in f ==> y in g;
      assert forall y :: y in g ==> y in f;
    }
    forall y | y in f ensures f[y] == g[y] {
      assert f[y].Keys == g[y].Keys;
      forall m | m in f[y] ensures f[y][m] == g[y][m] {
        assert f[y][m].Keys == g[y][m].Keys by {
          forall d | d in f[y][m] ensures d in g[y][m] { assert Has(f, Slot(y, m, d)); }
          forall d | d in g[y][m] ensures d in f[y][m] { assert Has(g, Slot(y, m, d)); }
        }
        forall d | d in f[y][m] ensures f[y][m][d] == g[y][m][d] { assert Has(f, Slot(y, m, d)); }
      }
    }
  }

  lemma SomeKey<K, V>(m: map<K, V>) returns (k: K)
    requires m != map[]
    ensures k in m
  {
    assert |m| != 0;
    k :| k in m.Keys;
  }

  /** With no empty levels, the year and month keys of `f` are those of its buckets, so `g` has them too. */
  lemma SameLevels(f: DayBookEntries, g: DayBookEntries)
    requires NoEmptyLevels(f)
    requires forall s :: Has(f, s) ==> Has(g, s)
    ensures forall y :: y in f ==> y in g && f[y].Keys <= g[y].Keys
  {
    forall y | y in f ensures y in g && f[y].Keys <= g[y].Keys {
      forall m | m in f[y] ensures y in g && m in g[y] {
        var d := SomeKey(f[y][m]);
        assert Has(f, Slot(y, m, d));
      }
      var m := SomeKey(f[y]);
      assert m in g[y];
    }
  }

  /**
   * `main` without its I/O: ingest the rows (stopping at the first failure,
   * where the source panics) and regroup the resulting book.
   */
  method Run(rows: seq<Row>, parse: DateParser) returns (r: Result<DayBookEntries, ProcError>)
    requires forall i :: 0 <= i < |rows| ==> WellFormed(rows[i])
    ensures r.Ok? <==> ReadAll(rows, parse).Ok?
    ensures r.Err? ==> r.error == ReadAll(rows, parse).error
    ensures r.Ok? ==> Regrouped(GroupByDate(ReadAll(rows, parse).value), r.value)
  {
    var book := Ingest(rows, parse);
    if book.Err? {
      return Err(book.error);
    }
    var fate := Regroup(book.value);
    return Ok(fate);
  }

  /**
   * With CE dates only, the regrouped book files every entry under exactly
   * one slot, its own date's, and that slot lists the entries of that date
   * in arrival order.
   */
  lemma EntriesFiledByDate(es: seq<DayBookEntry>, fate: DayBookEntries)
    requires Regrouped(GroupByDate(es), fate)
    requires forall i :: 0 <= i < |es| ==> es[i].date.year >= 1
    ensures forall i :: 0 <= i < |es| ==>
              Has(fate, SlotOf(es[i].date)) && At(fate, SlotOf(es[i].date)) == Bucket(es, es[i].date)
    ensures forall i, s :: 0 <= i < |es| && Has(fate, s) && es[i] in At(fate, s) ==> s == SlotOf(es[i].date)
  {
    var days := GroupByDate(es);
    GroupByDateBuckets(es);
    assert forall k :: k in days ==> k.year >= 1 by {
      forall k | k in days ensures k.year >= 1 {
        BucketMembers(es, k);
        var e :| e in Bucket(es, k);
        var i :| 0 <= i < |es| && es[i] == e;
      }
    }
    RegroupedCe(days, fate);
    forall i, s | 0 <= i < |es| && Has(fate, s) && es[i] in At(fate, s) ensures s == SlotOf(es[i].date) {
      var k :| k in days && SlotOf(k) == s;
      assert es[i] in days[k];
    }
  }
}

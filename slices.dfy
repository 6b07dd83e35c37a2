/** The day slices of `TwitterSlicer.search`: the days from `since` up to
    (not including) `until`, each searched with the query narrowed to that
    day by Twitter's `since:` and `until:` operators. */
module Slices {
  import opened Wrappers
  import opened Civil
  import opened TimeFormat
  import opened Search

  /** One task handed to the pool: `perform_search(query, date)`. */
  datatype Slice = Slice(query: string, date: string)

  /** The "%Y-%m-%d" text of the day with ordinal `n`. */
  function DayText(n: int): string
    requires 1 <= n <= MaxOrdinal
  {
    FromOrdinalHolds(n);
    FormatYmd(FromOrdinal(n))
  }

  /** `"%s since:%s until:%s" % (query, since, until)`. */
  function DayQuery(query: string, since: string, until: string): string
  {
    query + " since:" + since + " until:" + until
  }

  /** The slice `i` days after the day with ordinal `first`. */
  function SliceAt(query: string, first: int, i: nat): Slice
    requires 1 <= first && first + i + 1 <= MaxOrdinal
  {
    Slice(DayQuery(query, DayText(first + i), DayText(first + i + 1)), DayText(first + i))
  }

  /** The slices of the first `n` days from the day with ordinal `first`,
      as the loop of `search` builds them one day at a time. */
  function Days(query: string, first: int, n: nat): (r: seq<Slice>)
    requires 1 <= first && first + n <= MaxOrdinal
    ensures |r| == n
  {
    if n == 0 then [] else Days(query, first, n - 1) + [SliceAt(query, first, n - 1)]
  }

  /** The tasks `search(query)` submits, in order: a slice per day from
      `since` up to, not including, `until`; `ValueError` where either bound
      does not parse, or where the pool refuses a worker count of
      `n_days <= 0`. */
  function DaySlices(query: string, since: string, until: string): (r: Result<seq<Slice>, Exc>)
    ensures r.Ok? <==> ParseYmd(since).Some? && ParseYmd(until).Some?
                       && Ordinal(ParseYmd(since).value) < Ordinal(ParseYmd(until).value)
    ensures r.Err? ==> r.error == ValueError
  {
    match (ParseYmd(since), ParseYmd(until))
    case (None, _) => Err(ValueError)
    case (_, None) => Err(ValueError)
    case (Some(s), Some(u)) =>
      var nDays := Ordinal(u) - Ordinal(s);
      if nDays <= 0 then Err(ValueError)
      else
        OrdinalRange(s);
        OrdinalRange(u);
        Ok(Days(query, Ordinal(s), nDays))
  }

  // ---- properties ----

  /** Slice `i` is the day `i` days after the first. */
  lemma {:induction false} DaysAt(query: string, first: int, n: nat, i: nat)
    requires 1 <= first && first + n <= MaxOrdinal && i < n
    ensures Days(query, first, n)[i] == SliceAt(query, first, i)
  {
    var r := Days(query, first, n);
    var r' := Days(query, first, n - 1);
    assert r == r' + [SliceAt(query, first, n - 1)];
    if i < n - 1 {
      DaysAt(query, first, n - 1, i);
      assert r[i] == r'[i];
    }
  }

  /** Slice `i` is dated on the day `i` days after the first, a date that
      reads back to that day, and its query runs from that day to the next. */
  lemma DaysDates(query: string, first: int, n: nat)
    requires 1 <= first && first + n <= MaxOrdinal
    ensures var r := Days(query, first, n);
            forall i | 0 <= i < |r| ::
              ParseYmd(r[i].date) == Some(FromOrdinal(first + i))
              && r[i].query == DayQuery(query, r[i].date, DayText(first + i + 1))
  {
    var r := Days(query, first, n);
    forall i | 0 <= i < |r|
      ensures ParseYmd(r[i].date) == Some(FromOrdinal(first + i))
      ensures r[i].query == DayQuery(query, r[i].date, DayText(first + i + 1))
    {
      SliceDay(query, first, n, i);
    }
  }

  lemma SliceDay(query: string, first: int, n: nat, i: nat)
    requires 1 <= first && first + n <= MaxOrdinal && i < n
    ensures ParseYmd(Days(query, first, n)[i].date) == Some(FromOrdinal(first + i))
    ensures Days(query, first, n)[i].query == DayQuery(query, Days(query, first, n)[i].date, DayText(first + i + 1))
  {
    DaysAt(query, first, n, i);
    FromOrdinalHolds(first + i);
    ParseFormatYmd(FromOrdinal(first + i));
  }

  /** The slices tile the days: each one's query runs from its own date to
      the next one's, the first is dated on the first day and the last runs
      to the day after the `n`. */
  lemma {:induction false} DaysAdjoin(query: string, first: int, n: nat)
    requires 1 <= first && first + n <= MaxOrdinal && n > 0
    ensures var r := Days(query, first, n);
            r[0].date == DayText(first)
            && (forall i | 0 <= i < n - 1 :: r[i] == Slice(DayQuery(query, r[i].date, r[i + 1].date), r[i].date))
            && r[n - 1] == Slice(DayQuery(query, r[n - 1].date, DayText(first + n)), r[n - 1].date)
  {
    var r := Days(query, first, n);
    DaysAt(query, first, n, 0);
    forall i | 0 <= i < n - 1
      ensures r[i] == Slice(DayQuery(query, r[i].date, r[i + 1].date), r[i].date)
    {
      DaysAt(query, first, n, i);
      DaysAt(query, first, n, i + 1);
    }
    DaysAt(query, first, n, n - 1);
  }

  /** The text of a day's ordinal is the day's text. */
  lemma DayTextOf(d: Date)
    requires Valid(d)
    ensures 1 <= Ordinal(d) <= MaxOrdinal && DayText(Ordinal(d)) == FormatYmd(d)
  {
    FromOrdinalOrdinal(d);
  }

  /** Different days have different texts. */
  lemma DayTextInjective(a: int, b: int)
    requires 1 <= a <= MaxOrdinal && 1 <= b <= MaxOrdinal
    ensures DayText(a) == DayText(b) <==> a == b
  {
    FromOrdinalHolds(a);
    FromOrdinalHolds(b);
    FormatYmdInjective(FromOrdinal(a), FromOrdinal(b));
  }

  /** Every day has exactly one slice, and no other day has one: a day's
      text is a slice date if and only if the day is one of the `n`. */
  lemma DaysCover(query: string, first: int, n: nat, d: Date)
    requires 1 <= first && first + n <= MaxOrdinal && Valid(d)
    ensures var r := Days(query, first, n);
            (exists i | 0 <= i < |r| :: r[i].date == FormatYmd(d)) <==> first <= Ordinal(d) < first + n
  {
    var r := Days(query, first, n);
    DayTextOf(d);
    var k := Ordinal(d);
    var text := FormatYmd(d);
    assert text == DayText(k);
    DaysCoverDay(query, first, n, k);
    if exists i | 0 <= i < |r| :: r[i].date == text {
      var i :| 0 <= i < |r| && r[i].date == text;
      assert r[i].date == DayText(k);
    }
    if first <= k < first + n {
      var i :| 0 <= i < |r| && r[i].date == DayText(k);
      assert r[i].date == text;
    }
  }

  /** The same for a day given by its ordinal `k`. */
  lemma DaysCoverDay(query: string, first: int, n: nat, k: int)
    requires 1 <= first && first + n <= MaxOrdinal && 1 <= k <= MaxOrdinal
    ensures var r := Days(query, first, n);
            (exists i | 0 <= i < |r| :: r[i].date == DayText(k)) <==> first <= k < first + n
  {
    var r := Days(query, first, n);
    if exists i | 0 <= i < |r| :: r[i].date == DayText(k) {
      var i :| 0 <= i < |r| && r[i].date == DayText(k);
      DaysOnly(query, first, n, k, i);
    }
    if first <= k < first + n {
      DaysHas(query, first, n, k);
    }
  }

  /** A slice dated on day `k` is the one `k - first` places in. */
  lemma DaysOnly(query: string, first: int, n: nat, k: int, i: nat)
    requires 1 <= first && first + n <= MaxOrdinal && 1 <= k <= MaxOrdinal && i < n
    requires Days(query, first, n)[i].date == DayText(k)
    ensures k == first + i
  {
    DaysDate(query, first, n, i);
    DayTextInjective(first + i, k);
  }

  /** The slice of day `k` sits `k - first` places in. */
  lemma DaysHas(query: string, first: int, n: nat, k: int)
    requires 1 <= first && first + n <= MaxOrdinal && first <= k < first + n
    ensures Days(query, first, n)[k - first].date == DayText(k)
  {
    var i := k - first;
    assert first + i == k;
    DaysDate(query, first, n, i);
  }

  /** No day is searched twice. */
  lemma DaysDistinct(query: string, first: int, n: nat)
    requires 1 <= first && first + n <= MaxOrdinal
    ensures var r := Days(query, first, n);
            forall i, j | 0 <= i < j < |r| :: r[i].date != r[j].date
  {
    forall i, j | 0 <= i < j < n
      ensures Days(query, first, n)[i].date != Days(query, first, n)[j].date
    {
      DaysApart(query, first, n, i, j);
    }
  }

  /** Two slices `i < j` are dated on different days. */
  lemma DaysApart(query: string, first: int, n: nat, i: nat, j: nat)
    requires 1 <= first && first + n <= MaxOrdinal && i < j < n
    ensures Days(query, first, n)[i].date != Days(query, first, n)[j].date
  {
    DayTextInjective(first + i, first + j);
    assert DayText(first + i) != DayText(first + j);
    DaysDate(query, first, n, i);
    DaysDate(query, first, n, j);
  }

  /** The date of slice `i`. */
  lemma DaysDate(query: string, first: int, n: nat, i: nat)
    requires 1 <= first && first + n <= MaxOrdinal && i < n
    ensures Days(query, first, n)[i].date == DayText(first + i)
  {
    DaysAt(query, first, n, i);
  }

  /** Where both bounds parse and `since` comes first, the tasks are the
      days between them. */
  lemma DaySlicesDays(query: string, since: string, until: string, first: int, n: int)
    requires ParseYmd(since).Some? && ParseYmd(until).Some?
    requires first == Ordinal(ParseYmd(since).value) && n == Ordinal(ParseYmd(until).value) - first && n > 0
    ensures 1 <= first && first + n <= MaxOrdinal && DaySlices(query, since, until) == Ok(Days(query, first, n))
  {
    var s, u := ParseYmd(since).value, ParseYmd(until).value;
    OrdinalRange(s);
    OrdinalRange(u);
    assert ParseYmd(since) == Some(s) && ParseYmd(until) == Some(u);
  }

  /** The slices `search` submits begin on the day `since` names, even when
      `since` is not written with zero padding, and end on the day before
      `until`. */
  lemma DaySlicesSpan(query: string, since: string, until: string)
    requires DaySlices(query, since, until).Ok?
    ensures var r := DaySlices(query, since, until).value;
            ParseYmd(r[0].date) == ParseYmd(since)
            && r[|r| - 1].query == DayQuery(query, r[|r| - 1].date, FormatYmd(ParseYmd(until).value))
  {
    var s, u := ParseYmd(since).value, ParseYmd(until).value;
    var first, n := Ordinal(s), Ordinal(u) - Ordinal(s);
    DaySlicesDays(query, since, until, first, n);
    var r := Days(query, first, n);
    assert DaySlices(query, since, until).value == r;
    DaysAdjoin(query, first, n);
    DayTextOf(s);
    DayTextOf(u);
    ParseFormatYmd(s);
    assert first + n == Ordinal(u);
  }
}

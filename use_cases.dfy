/**
 * The price-database update: the intervals still missing from the store are planned from the
 * configured start, the store's first and last records and today, cut into year-long chunks, and
 * each chunk is fetched and appended in turn.
 */
module UseCases {
  import opened Wrappers
  import opened Calendar
  import opened Models
  import opened PriceStore
  import opened Rates
  import opened Chunking
  import opened Sequences

  /** A datetime Python can build here: a valid calendar date and time of day. */
  type Moment = t: DateTime | Valid(t) witness DateTime(Date(1970, 1, 1), 0, 0, 0)

  /** A `(start, end)` pair of datetimes, both ends included. */
  type Interval = (Moment, Moment)

  /** Two datetimes with the same time of day. */
  predicate SameClock(a: DateTime, b: DateTime) {
    a.hour == b.hour && a.minute == b.minute && a.second == b.second
  }

  /** Datetimes with one time of day compare as their dates, and one is before another exactly
      when the day after it is not after the other. */
  lemma DayStep(a: DateTime, b: DateTime)
    requires Valid(a) && Valid(b) && SameClock(a, b)
    ensures Before(a, b) <==> DateKey(a.date) < DateKey(b.date)
    ensures NotAfter(a, b) <==> DateKey(a.date) <= DateKey(b.date)
    ensures Before(a, b) <==> DateKey(NextDay(a.date)) <= DateKey(b.date)
    ensures Before(a, b) <==> DateKey(a.date) <= DateKey(PrevDay(b.date))
  {
    if Before(a, b) {
      NextDayIsSuccessor(a.date, b.date);
      PrevDayIsPredecessor(b.date, a.date);
    }
  }

  /** A chunk's start is before its year-long end, which is before the next start, the day after. */
  lemma NextStartAfter(t: DateTime)
    requires Valid(t)
    ensures Key(t) < Key(YearSpanEnd(t)) < Key(ShiftYears(t, 1))
    ensures SameClock(YearSpanEnd(t), t) && SameClock(ShiftYears(t, 1), t)
    ensures NextDay(YearSpanEnd(t).date) == ShiftYears(t, 1).date
  {
    YearSpanEndFacts(t);
    DayStep(YearSpanEnd(t), ShiftYears(t, 1));
  }

  // ---------------------------------------------------------------------------------------------
  // `split_by_year`.

  function MomentKey(t: Moment): int {
    Key(t)
  }

  /** `dt.shift(years=1, days=-1)`. */
  function AnnualEnd(t: Moment): Moment {
    YearSpanEnd(t)
  }

  /** `dt.shift(years=1)`. */
  function AnnualNext(t: Moment): Moment {
    ShiftYears(t, 1)
  }

  /** The datetimes at the time of day of `c`. */
  function OnClock(c: Moment): Moment -> bool {
    t => SameClock(t, c)
  }

  lemma AnnualSteps()
    ensures Steps(MomentKey, AnnualEnd, AnnualNext)
  {
    forall t: Moment
      ensures MomentKey(t) <= MomentKey(AnnualEnd(t)) < MomentKey(AnnualNext(t))
    {
      NextStartAfter(t);
    }
  }

  /** The datetimes at one time of day form a grid for the year steps: no such datetime lies
      between the end of a year-long span and the start of the next. */
  lemma AnnualGrid(c: Moment)
    ensures Grid(OnClock(c), MomentKey, AnnualEnd, AnnualNext)
  {
    forall t: Moment | OnClock(c)(t)
      ensures OnClock(c)(AnnualNext(t))
    {
      NextStartAfter(t);
    }
    forall t: Moment, x: Moment | OnClock(c)(t) && OnClock(c)(x) && MomentKey(AnnualEnd(t)) < MomentKey(x)
      ensures MomentKey(AnnualNext(t)) <= MomentKey(x)
    {
      NextStartAfter(t);
      DayStep(YearSpanEnd(t), x);
      DayStep(ShiftYears(t, 1), x);
    }
  }

  /** `sorted((a, b))`: the earlier end first. */
  function Ordered(region: Interval): (r: Interval)
    ensures NotAfter(r.0, r.1)
    ensures r == region || r == (region.1, region.0)
  {
    if Before(region.1, region.0) then (region.1, region.0) else region
  }

  /** `split_by_year(region)`: year-long chunks from the earlier end while they end before the
      later one, then a last chunk up to the later end. */
  function YearSplit(region: Interval): (r: seq<Interval>)
  {
    var o := Ordered(region);
    AnnualSteps();
    Chunks(o.0, o.1, MomentKey, AnnualEnd, AnnualNext)
  }

  /** The loop of `split_by_year`. */
  method SplitByYear(region: Interval) returns (chunks: seq<Interval>)
    ensures chunks == YearSplit(region)
  {
    AnnualSteps();
    var o := Ordered(region);
    chunks := ChunkLoop(o.0, o.1, MomentKey, AnnualEnd, AnnualNext);
  }

  /** There is always a chunk; the first starts at the earlier end of the region and the last
      ends at the later one. */
  lemma SplitEnds(region: Interval)
    ensures YearSplit(region) != []
    ensures YearSplit(region)[0].0 == Ordered(region).0
    ensures YearSplit(region)[|YearSplit(region)| - 1].1 == Ordered(region).1
  {
    AnnualSteps();
    ChunksEnds(Ordered(region).0, Ordered(region).1, MomentKey, AnnualEnd, AnnualNext);
  }

  /** Chunk `i` before the last is the year-long span from its start and ends before the later
      end of the region; the next chunk starts one year after it started, the day after it ends.
      The last chunk ends at the later end, which its year-long span reaches. */
  lemma SplitChunkAt(region: Interval, i: nat)
    requires i < |YearSplit(region)|
    ensures var c := YearSplit(region);
            && (i < |c| - 1 ==> && c[i].1 == YearSpanEnd(c[i].0)
                                && Before(c[i].1, Ordered(region).1)
                                && c[i + 1].0 == ShiftYears(c[i].0, 1)
                                && c[i + 1].0 == ShiftDays(c[i].1, 1))
            && (i == |c| - 1 ==> c[i].1 == Ordered(region).1 && NotAfter(Ordered(region).1, YearSpanEnd(c[i].0)))
  {
    AnnualSteps();
    var c := YearSplit(region);
    ChunkAt(Ordered(region).0, Ordered(region).1, MomentKey, AnnualEnd, AnnualNext, i);
    if i < |c| - 1 {
      YearSpanEndShifts(c[i].0);
    }
  }

  /** For ends with one time of day, every chunk starts no later than it ends. */
  lemma SplitChunkOrdered(region: Interval, i: nat)
    requires SameClock(region.0, region.1) && i < |YearSplit(region)|
    ensures NotAfter(YearSplit(region)[i].0, YearSplit(region)[i].1)
  {
    AnnualSteps();
    var o := Ordered(region);
    AnnualGrid(o.0);
    ChunkOrdered(o.0, o.1, MomentKey, AnnualEnd, AnnualNext, OnClock(o.0), i);
  }

  /** Some interval of `cs` contains `x`. */
  predicate Covers(cs: seq<Interval>, x: Moment) {
    InSomeChunk(cs, MomentKey, x)
  }

  lemma CoversAppend(a: seq<Interval>, b: seq<Interval>, x: Moment)
    ensures Covers(a + b, x) <==> Covers(a, x) || Covers(b, x)
  {
    if Covers(a + b, x) {
      var i :| 0 <= i < |a + b| && MomentKey((a + b)[i].0) <= MomentKey(x) <= MomentKey((a + b)[i].1);
      if i >= |a| {
        assert b[i - |a|] == (a + b)[i];
      } else {
        assert a[i] == (a + b)[i];
      }
    }
    if Covers(a, x) {
      var i :| 0 <= i < |a| && MomentKey(a[i].0) <= MomentKey(x) <= MomentKey(a[i].1);
      assert (a + b)[i] == a[i];
    }
    if Covers(b, x) {
      var i :| 0 <= i < |b| && MomentKey(b[i].0) <= MomentKey(x) <= MomentKey(b[i].1);
      assert (a + b)[|a| + i] == b[i];
    }
  }

  /** For ends with one time of day, the chunks of a region cover exactly the datetimes with that
      time of day between its two ends, in whichever order they are given. */
  lemma YearSplitCovers(region: Interval, x: Moment)
    requires SameClock(region.0, region.1) && SameClock(region.0, x)
    ensures Covers(YearSplit(region), x) <==>
              (NotAfter(region.0, x) && NotAfter(x, region.1)) || (NotAfter(region.1, x) && NotAfter(x, region.0))
  {
    AnnualSteps();
    var o := Ordered(region);
    AnnualGrid(o.0);
    ChunksCover(o.0, o.1, MomentKey, AnnualEnd, AnnualNext, OnClock(o.0), x);
  }

  /** The ends of the region are sorted first, so their order does not matter. */
  lemma SplitSymmetric(a: Moment, b: Moment)
    ensures YearSplit((a, b)) == YearSplit((b, a))
  {
    if Key(a) == Key(b) {
      KeyInjective(a, b);
    }
  }

  /** The first example of the tests, for any year: from 1 January to 1 January two years later
      come two whole years and a single day; by `SplitSymmetric` the reversed region, the second
      example, gives the same chunks. */
  lemma SplitWholeYears(y: int)
    ensures YearSplit((Midnight(Date(y, 1, 1)), Midnight(Date(y + 2, 1, 1)))) ==
              [(Midnight(Date(y, 1, 1)), Midnight(Date(y, 12, 31))),
               (Midnight(Date(y + 1, 1, 1)), Midnight(Date(y + 1, 12, 31))),
               (Midnight(Date(y + 2, 1, 1)), Midnight(Date(y + 2, 1, 1)))]
  {
    AnnualSteps();
    var t0: Moment, t1: Moment, t2: Moment := Midnight(Date(y, 1, 1)), Midnight(Date(y + 1, 1, 1)), Midnight(Date(y + 2, 1, 1));
    var e0: Moment, e1: Moment := Midnight(Date(y, 12, 31)), Midnight(Date(y + 1, 12, 31));
    assert AnnualEnd(t0) == e0 && AnnualNext(t0) == t1;
    assert AnnualEnd(t1) == e1 && AnnualNext(t1) == t2;
    assert MomentKey(t2) <= MomentKey(AnnualEnd(t2));
    assert MomentKey(e0) < MomentKey(t2) && MomentKey(e1) < MomentKey(t2);
    ChunksStep(t2, t2, MomentKey, AnnualEnd, AnnualNext);
    ChunksStep(t1, t2, MomentKey, AnnualEnd, AnnualNext);
    ChunksStep(t0, t2, MomentKey, AnnualEnd, AnnualNext);
    assert Ordered((t0, t2)) == (t0, t2);
  }

  /** The third example of the tests, for any year: from 5 May the chunks run to 4 May of the
      next year, and the last one from 5 May to 12 August. */
  lemma SplitMidYear(y: int)
    ensures YearSplit((Midnight(Date(y, 5, 5)), Midnight(Date(y + 2, 8, 12)))) ==
              [(Midnight(Date(y, 5, 5)), Midnight(Date(y + 1, 5, 4))),
               (Midnight(Date(y + 1, 5, 5)), Midnight(Date(y + 2, 5, 4))),
               (Midnight(Date(y + 2, 5, 5)), Midnight(Date(y + 2, 8, 12)))]
  {
    AnnualSteps();
    var t0: Moment, t1: Moment, t2: Moment := Midnight(Date(y, 5, 5)), Midnight(Date(y + 1, 5, 5)), Midnight(Date(y + 2, 5, 5));
    var e0: Moment, e1: Moment, to: Moment := Midnight(Date(y + 1, 5, 4)), Midnight(Date(y + 2, 5, 4)), Midnight(Date(y + 2, 8, 12));
    assert AnnualEnd(t0) == e0 && AnnualNext(t0) == t1;
    assert AnnualEnd(t1) == e1 && AnnualNext(t1) == t2;
    assert AnnualEnd(t2) == Midnight(Date(y + 3, 5, 4));
    assert MomentKey(e0) < MomentKey(to) && MomentKey(e1) < MomentKey(to);
    ChunksStep(t2, to, MomentKey, AnnualEnd, AnnualNext);
    ChunksStep(t1, to, MomentKey, AnnualEnd, AnnualNext);
    ChunksStep(t0, to, MomentKey, AnnualEnd, AnnualNext);
    assert Ordered((t0, to)) == (t0, to);
  }

  // ---------------------------------------------------------------------------------------------
  // `prepare_date_intervals`.

  /** The chunks of every interval of `gaps`, in order (`chain.from_iterable(map(split_by_year, ...))`). */
  function SplitAll(gaps: seq<Interval>): (r: seq<Interval>)
    ensures |r| >= |gaps| && (r == [] <==> gaps == [])
    ensures gaps != [] ==> r[0].0 == Ordered(gaps[0]).0 && r[|r| - 1].1 == Ordered(gaps[|gaps| - 1]).1
  {
    if gaps == [] then []
    else
      var head, rest := YearSplit(gaps[0]), SplitAll(gaps[1..]);
      SplitEnds(gaps[0]);
      AppendEnds(head, rest);
      assert rest != [] ==> gaps[1..][|gaps[1..]| - 1] == gaps[|gaps| - 1];
      head + rest
  }

  lemma {:induction false} SplitAllAppend(a: seq<Interval>, b: seq<Interval>)
    ensures SplitAll(a + b) == SplitAll(a) + SplitAll(b)
  {
    if a == [] {
      assert a + b == b;
    } else {
      assert (a + b)[1..] == a[1..] + b;
      SplitAllAppend(a[1..], b);
      AppendAssoc(YearSplit(a[0]), SplitAll(a[1..]), SplitAll(b));
    }
  }

  lemma SplitAllOne(a: Interval)
    ensures SplitAll([a]) == YearSplit(a)
  {
    assert [a][1..] == [];
    assert YearSplit(a) + [] == YearSplit(a);
  }

  /** The days missing before the first record: from the start to the day before it, when the
      start is before it. */
  function GapBefore(dbStart: Moment, first: Moment): (r: seq<Interval>)
    ensures |r| <= 1 && (r != [] <==> Before(dbStart, first))
    ensures r != [] ==> r[0].0 == dbStart && Before(r[0].1, first) && SameClock(r[0].1, first)
  {
    if Before(dbStart, first) then [(dbStart, ShiftDays(first, -1))] else []
  }

  /** The days missing after the last record: from the day after it to `now`, when it is before
      `now`. */
  function GapAfter(last: Moment, now: Moment): (r: seq<Interval>)
    ensures |r| <= 1 && (r != [] <==> Before(last, now))
    ensures r != [] ==> Before(last, r[0].0) && SameClock(r[0].0, last) && r[0].1 == now
  {
    if Before(last, now) then [(ShiftDays(last, 1), now)] else []
  }

  /** The intervals missing from the store, before they are cut: with both a first and a last
      record, the days before the first and the days after the last up to `now`; otherwise the
      whole range from the start to `now`. */
  function Gaps(dbStart: Moment, first: Option<ExchangeRate>, last: Option<ExchangeRate>, now: Moment): (r: seq<Interval>)
    requires first.Some? ==> Valid(first.value.date)
    requires last.Some? ==> Valid(last.value.date)
    ensures first.None? || last.None? ==> r == [(dbStart, now)]
    ensures first.Some? && last.Some? ==>
              (r == [] <==> !Before(dbStart, first.value.date) && !Before(last.value.date, now))
    ensures first.Some? && last.Some? ==>
              forall i :: 0 <= i < |r| ==> Before(r[i].1, first.value.date) || Before(last.value.date, r[i].0)
  {
    if first.Some? && last.Some? then GapBefore(dbStart, first.value.date) + GapAfter(last.value.date, now)
    else [(dbStart, now)]
  }

  /** `prepare_date_intervals`, with the clock reading `utcnow` as a parameter. */
  function PrepareDateIntervals(dbStart: Moment, first: Option<ExchangeRate>, last: Option<ExchangeRate>, clock: Moment): (r: seq<Interval>)
    requires first.Some? ==> Valid(first.value.date)
    requires last.Some? ==> Valid(last.value.date)
    ensures r == [] <==> first.Some? && last.Some? && !Before(dbStart, first.value.date)
                         && !Before(last.value.date, StartOfDay(clock))
    ensures |r| >= |Gaps(dbStart, first, last, StartOfDay(clock))|
  {
    SplitAll(Gaps(dbStart, first, last, StartOfDay(clock)))
  }

  /** Without a first or a last record, the plan is the split of the range from the start to
      today. */
  lemma PlanWithoutRecords(dbStart: Moment, first: Option<ExchangeRate>, last: Option<ExchangeRate>, clock: Moment)
    requires first.Some? ==> Valid(first.value.date)
    requires last.Some? ==> Valid(last.value.date)
    requires first.None? || last.None?
    ensures PrepareDateIntervals(dbStart, first, last, clock) == YearSplit((dbStart, StartOfDay(clock)))
  {
    SplitAllOne((dbStart, StartOfDay(clock)));
  }

  /** The split of a gap of at most one interval. */
  lemma SplitGap(gap: seq<Interval>, iv: Interval)
    requires gap == [] || gap == [iv]
    ensures SplitAll(gap) == if gap == [] then [] else YearSplit(iv)
  {
    SplitAllOne(iv);
  }

  /** With both records, the plan is the split of the gap before the first record, present when
      it is after the start, followed by the split of the gap after the last record, present
      when it is before today. */
  lemma PlanWithRecords(dbStart: Moment, first: ExchangeRate, last: ExchangeRate, clock: Moment)
    requires Valid(first.date) && Valid(last.date)
    ensures var now: Moment := StartOfDay(clock);
            PrepareDateIntervals(dbStart, Some(first), Some(last), clock) ==
              (if Before(dbStart, first.date) then YearSplit((dbStart, ShiftDays(first.date, -1))) else [])
              + (if Before(last.date, now) then YearSplit((ShiftDays(last.date, 1), now)) else [])
  {
    var now: Moment := StartOfDay(clock);
    var left, right := GapBefore(dbStart, first.date), GapAfter(last.date, now);
    SplitAllAppend(left, right);
    SplitGap(left, (dbStart, ShiftDays(first.date, -1)));
    SplitGap(right, (ShiftDays(last.date, 1), now));
  }

  /** The gap before the first record in the example of the tests: from 1 January to 9 January
      of the next year come one whole year and the nine days. */
  lemma SplitExampleBefore(y: int)
    ensures YearSplit((Midnight(Date(y, 1, 1)), Midnight(Date(y + 1, 1, 9)))) ==
              [(Midnight(Date(y, 1, 1)), Midnight(Date(y, 12, 31))),
               (Midnight(Date(y + 1, 1, 1)), Midnight(Date(y + 1, 1, 9)))]
  {
    AnnualSteps();
    var t0: Moment, t1: Moment, to: Moment := Midnight(Date(y, 1, 1)), Midnight(Date(y + 1, 1, 1)), Midnight(Date(y + 1, 1, 9));
    var e0: Moment := Midnight(Date(y, 12, 31));
    assert AnnualEnd(t0) == e0 && AnnualNext(t0) == t1;
    assert AnnualEnd(t1) == Midnight(Date(y + 1, 12, 31));
    assert MomentKey(e0) < MomentKey(to);
    ChunksStep(t1, to, MomentKey, AnnualEnd, AnnualNext);
    ChunksStep(t0, to, MomentKey, AnnualEnd, AnnualNext);
    assert Ordered((t0, to)) == (t0, to);
  }

  /** The gap after the last record in the example of the tests: from 11 May the chunks run to
      10 May of the next year, and the last one from 11 May to 12 August. */
  lemma SplitExampleAfter(y: int)
    ensures YearSplit((Midnight(Date(y, 5, 11)), Midnight(Date(y + 1, 8, 12)))) ==
              [(Midnight(Date(y, 5, 11)), Midnight(Date(y + 1, 5, 10))),
               (Midnight(Date(y + 1, 5, 11)), Midnight(Date(y + 1, 8, 12)))]
  {
    AnnualSteps();
    var t0: Moment, t1: Moment, to: Moment := Midnight(Date(y, 5, 11)), Midnight(Date(y + 1, 5, 11)), Midnight(Date(y + 1, 8, 12));
    var e0: Moment := Midnight(Date(y + 1, 5, 10));
    assert AnnualEnd(t0) == e0 && AnnualNext(t0) == t1;
    assert AnnualEnd(t1) == Midnight(Date(y + 2, 5, 10));
    assert MomentKey(e0) < MomentKey(to);
    ChunksStep(t1, to, MomentKey, AnnualEnd, AnnualNext);
    ChunksStep(t0, to, MomentKey, AnnualEnd, AnnualNext);
    assert Ordered((t0, to)) == (t0, to);
  }

  /** The planning example of the tests, for any year: with the store starting on 1 January, its
      first record on 10 January and its last on 10 May of the next year, and today 12 August of
      the year after, the plan is the year and nine days before the first record, then the
      year-long chunk from 11 May and the days up to today. */
  lemma PlanExample(y: int, first: ExchangeRate, last: ExchangeRate, clock: Moment)
    requires first.date == Midnight(Date(y + 1, 1, 10)) && last.date == Midnight(Date(y + 1, 5, 10))
    requires clock.date == Date(y + 2, 8, 12)
    ensures PrepareDateIntervals(Midnight(Date(y, 1, 1)), Some(first), Some(last), clock) ==
              [(Midnight(Date(y, 1, 1)), Midnight(Date(y, 12, 31))),
               (Midnight(Date(y + 1, 1, 1)), Midnight(Date(y + 1, 1, 9))),
               (Midnight(Date(y + 1, 5, 11)), Midnight(Date(y + 2, 5, 10))),
               (Midnight(Date(y + 2, 5, 11)), Midnight(Date(y + 2, 8, 12)))]
  {
    var start: Moment := Midnight(Date(y, 1, 1));
    PlanWithRecords(start, first, last, clock);
    PlanExampleGaps(y, first.date, last.date, clock);
    PlanExampleSplits(y, first.date, last.date, StartOfDay(clock));
  }

  /** The two splits of the planning example of the tests, joined. */
  lemma PlanExampleSplits(y: int, first: Moment, last: Moment, now: Moment)
    requires ShiftDays(first, -1) == Midnight(Date(y + 1, 1, 9))
    requires ShiftDays(last, 1) == Midnight(Date(y + 1, 5, 11))
    requires now == Midnight(Date(y + 2, 8, 12))
    ensures YearSplit((Midnight(Date(y, 1, 1)), ShiftDays(first, -1))) + YearSplit((ShiftDays(last, 1), now)) ==
              [(Midnight(Date(y, 1, 1)), Midnight(Date(y, 12, 31))),
               (Midnight(Date(y + 1, 1, 1)), Midnight(Date(y + 1, 1, 9))),
               (Midnight(Date(y + 1, 5, 11)), Midnight(Date(y + 2, 5, 10))),
               (Midnight(Date(y + 2, 5, 11)), Midnight(Date(y + 2, 8, 12)))]
  {
    SplitExampleBefore(y);
    SplitExampleAfter(y + 1);
  }

  /** The ends of the two gaps in the planning example of the tests. */
  lemma PlanExampleGaps(y: int, first: Moment, last: Moment, clock: Moment)
    requires first == Midnight(Date(y + 1, 1, 10)) && last == Midnight(Date(y + 1, 5, 10))
    requires clock.date == Date(y + 2, 8, 12)
    ensures ShiftDays(first, -1) == Midnight(Date(y + 1, 1, 9))
    ensures ShiftDays(last, 1) == Midnight(Date(y + 1, 5, 11))
    ensures StartOfDay(clock) == Midnight(Date(y + 2, 8, 12))
    ensures Before(Midnight(Date(y, 1, 1)), first) && Before(last, StartOfDay(clock))
  {
    ShiftOneDay(first);
    ShiftOneDay(last);
  }

  /** For midnight values, the split of the gap before the first record covers exactly the days
      from the start up to the one before that record. */
  lemma GapBeforeCovers(dbStart: Moment, first: Moment, x: Moment)
    requires IsMidnight(dbStart) && IsMidnight(first) && IsMidnight(x)
    ensures Covers(SplitAll(GapBefore(dbStart, first)), x) <==> NotAfter(dbStart, x) && Before(x, first)
  {
    SplitGap(GapBefore(dbStart, first), (dbStart, ShiftDays(first, -1)));
    ShiftOneDay(first);
    DayStep(x, first);
    DayStep(dbStart, first);
    if Before(dbStart, first) {
      YearSplitCovers((dbStart, ShiftDays(first, -1)), x);
    }
  }

  /** For midnight values, the split of the gap after the last record covers exactly the days
      after that record up to `now`. */
  lemma GapAfterCovers(last: Moment, now: Moment, x: Moment)
    requires IsMidnight(last) && IsMidnight(now) && IsMidnight(x)
    ensures Covers(SplitAll(GapAfter(last, now)), x) <==> Before(last, x) && NotAfter(x, now)
  {
    SplitGap(GapAfter(last, now), (ShiftDays(last, 1), now));
    ShiftOneDay(last);
    DayStep(last, x);
    DayStep(last, now);
    if Before(last, now) {
      YearSplitCovers((ShiftDays(last, 1), now), x);
    }
  }

  /** For midnight values, with both records, the plan covers exactly the days from the start to
      the day before the first record and the days after the last record up to today. */
  lemma PlanCovers(dbStart: Moment, first: ExchangeRate, last: ExchangeRate, clock: Moment, x: Moment)
    requires Valid(first.date) && Valid(last.date)
    requires IsMidnight(dbStart) && IsMidnight(first.date) && IsMidnight(last.date) && IsMidnight(x)
    ensures Covers(PrepareDateIntervals(dbStart, Some(first), Some(last), clock), x) <==>
              (NotAfter(dbStart, x) && Before(x, first.date)) || (Before(last.date, x) && NotAfter(x, StartOfDay(clock)))
  {
    var now: Moment := StartOfDay(clock);
    var left, right := GapBefore(dbStart, first.date), GapAfter(last.date, now);
    SplitAllAppend(left, right);
    CoversAppend(SplitAll(left), SplitAll(right), x);
    GapBeforeCovers(dbStart, first.date, x);
    GapAfterCovers(last.date, now, x);
  }

  /** For midnight values and a store missing either record, the plan covers exactly the days
      between the start and today, in whichever order those two come. */
  lemma PlanCoversWithoutRecords(dbStart: Moment, first: Option<ExchangeRate>, last: Option<ExchangeRate>, clock: Moment, x: Moment)
    requires IsMidnight(dbStart) && IsMidnight(x)
    requires first.Some? ==> Valid(first.value.date)
    requires last.Some? ==> Valid(last.value.date)
    requires first.None? || last.None?
    ensures Covers(PrepareDateIntervals(dbStart, first, last, clock), x) <==>
              (NotAfter(dbStart, x) && NotAfter(x, StartOfDay(clock))) || (NotAfter(StartOfDay(clock), x) && NotAfter(x, dbStart))
  {
    PlanWithoutRecords(dbStart, first, last, clock);
    YearSplitCovers((dbStart, StartOfDay(clock)), x);
  }

  // ---------------------------------------------------------------------------------------------
  // `update_price_db`.

  /** The fetch of one interval: the records, or the error raised. */
  type Fetch = Interval -> Result<seq<ExchangeRate>, ApiError>

  /** The fetched records are datetimes Python can hold. */
  ghost predicate FetchInRange(fetch: Fetch) {
    forall iv :: fetch(iv).Ok? ==> AllInRange(fetch(iv).value)
  }

  /** `exchange_api.get_rates(*interval)`: the client's fetch of one interval. An interval with an
      end outside the years 1 to 9999 fails with `DateOverflow` before any request goes out. The
      records of a successful fetch are midnights Python can hold, so the client's fetch is one
      `update_price_db` can sync with. */
  function ClientFetch(c: Client, http: Request -> Response): (fetch: Fetch)
    ensures FetchInRange(fetch)
    ensures forall iv: Interval :: fetch(iv).Ok? ==> forall x :: x in fetch(iv).value ==> IsMidnight(x.date)
    ensures forall iv: Interval :: !(InPythonRange(iv.0) && InPythonRange(iv.1)) ==> fetch(iv) == Err(DateOverflow)
  {
    (iv: Interval) => if InPythonRange(iv.0) && InPythonRange(iv.1) then GetRates(c, iv.0, iv.1, http) else Err(DateOverflow)
  }

  /** Records whose datetimes Python can hold, as `append_rows` takes them. */
  type Batch = rows: seq<ExchangeRate> | AllInRange(rows)

  /** The batches fetched for `intervals` in order, up to the first failure, and that failure. */
  datatype SyncOutcome = SyncOutcome(batches: seq<Batch>, failure: Option<ApiError>)

  function Sync(intervals: seq<Interval>, fetch: Fetch): (o: SyncOutcome)
    requires FetchInRange(fetch)
    ensures |o.batches| <= |intervals|
    ensures forall i :: 0 <= i < |o.batches| ==> fetch(intervals[i]) == Ok(o.batches[i])
    ensures o.failure.None? <==> |o.batches| == |intervals|
    ensures o.failure.Some? ==> fetch(intervals[|o.batches|]) == Err(o.failure.value)
  {
    if intervals == [] then SyncOutcome([], None)
    else
      match fetch(intervals[0])
      case Err(e) => SyncOutcome([], Some(e))
      case Ok(rows) =>
        var rest := Sync(intervals[1..], fetch);
        SyncOutcome([rows] + rest.batches, rest.failure)
  }

  /** The text `append_rows` adds for a batch: its rows sorted by date, one line each. */
  function BatchText(rows: Batch): string {
    Concat(RowLines(SortByDate(rows)))
  }

  /** The records a batch adds to the store: its rows sorted by date. */
  function BatchRows(rows: Batch): seq<ExchangeRate> {
    SortByDate(rows)
  }

  /** The text appended for the batches in turn. */
  function Written(batches: seq<Batch>): string {
    JoinMap(batches, BatchText)
  }

  /** The records those batches add to the store, in turn. */
  function SortedRows(batches: seq<Batch>): seq<ExchangeRate> {
    JoinMap(batches, BatchRows)
  }

  /** A store text that ends with a whole line and whose every line reads as a record. */
  predicate Readable(c: string) {
    LineEnded(c) && ParseAll(ReadLines(c)).Ok?
  }

  /** The records a store text reads as. */
  function Records(c: string): seq<ExchangeRate> {
    var r := ParseAll(ReadLines(c));
    if r.Ok? then r.value else []
  }

  /** Appending the next batch extends the text written for the batches before it. */
  lemma WrittenStep(start: string, batches: seq<Batch>, i: nat, before: string, after: string)
    requires i < |batches|
    requires before == start + Written(batches[..i])
    requires after == before + Concat(RowLines(SortByDate(batches[i])))
    ensures after == start + Written(batches[..i + 1])
  {
    JoinMapStep(batches, BatchText, i);
    AppendAssoc(start, Written(batches[..i]), BatchText(batches[i]));
  }

  /** While the fetches before `i` succeeded, a successful fetch of interval `i` is batch `i`, and
      a failed one is the failure that ends the sync. */
  lemma SyncAt(intervals: seq<Interval>, fetch: Fetch, i: nat)
    requires FetchInRange(fetch) && i < |intervals| && i <= |Sync(intervals, fetch).batches|
    ensures var o := Sync(intervals, fetch);
            && (fetch(intervals[i]).Ok? ==> i < |o.batches| && o.batches[i] == fetch(intervals[i]).value)
            && (fetch(intervals[i]).Err? ==> i == |o.batches| && o.failure == Some(fetch(intervals[i]).error))
  {
  }

  /** The loop of `update_price_db`: fetches each interval and appends the result before the next
      fetch, stopping at the first failure. */
  method SyncIntervals(db: PriceDb, intervals: seq<Interval>, fetch: Fetch) returns (failure: Option<ApiError>)
    requires db.Valid() && FetchInRange(fetch)
    modifies db
    ensures db.Valid()
    ensures failure == Sync(intervals, fetch).failure
    ensures db.content == old(db.content) + Written(Sync(intervals, fetch).batches)
    ensures db.present == (old(db.present) || Sync(intervals, fetch).batches != [])
  {
    ghost var whole := Sync(intervals, fetch);
    assert whole.batches[..0] == [];
    assert old(db.content) + [] == old(db.content);
    var i := 0;
    while i < |intervals|
      invariant 0 <= i <= |whole.batches| && db.Valid()
      invariant db.content == old(db.content) + Written(whole.batches[..i])
      invariant db.present == (old(db.present) || i > 0)
    {
      var fetched := fetch(intervals[i]);
      SyncAt(intervals, fetch, i);
      if fetched.Err? {
        assert whole.batches[..i] == whole.batches;
        return Some(fetched.error);
      }
      ghost var before := db.content;
      db.AppendRows(fetched.value);
      WrittenStep(old(db.content), whole.batches, i, before, db.content);
      i := i + 1;
    }
    assert whole.batches[..i] == whole.batches;
    failure := None;
  }

  datatype UpdateError = ReadFailure(rowError: RowError) | FetchFailure(apiError: ApiError)

  /** `update_price_db`: plans the missing intervals from the store's first and last records and
      syncs them; an unreadable store changes nothing. */
  method UpdatePriceDb(db: PriceDb, dbStart: Moment, clock: Moment, fetch: Fetch) returns (r: Result<(), UpdateError>)
    requires db.Valid() && FetchInRange(fetch)
    modifies db
    ensures db.Valid()
    ensures old(db.ReadDb()).Err? ==> r == Err(ReadFailure(old(db.ReadDb()).error)) && unchanged(db)
    ensures old(db.ReadDb()).Ok? ==>
              var plan := PrepareDateIntervals(dbStart, Earliest(old(db.ReadDb()).value), Latest(old(db.ReadDb()).value), clock);
              var o := Sync(plan, fetch);
              && db.content == old(db.content) + Written(o.batches)
              && db.present == (old(db.present) || o.batches != [])
              && (r.Err? <==> o.failure.Some?)
              && (r.Err? ==> r.error == FetchFailure(o.failure.value))
  {
    var first := db.FirstRecord();
    if first.Err? {
      return Err(ReadFailure(first.error));
    }
    // Both records come from the same read of the store, so this one succeeds as well.
    var last := db.LastRecord();
    assert last.Ok?;
    RecordsValid(db.ReadDb().value);
    var plan := PrepareDateIntervals(dbStart, first.value, last.value, clock);
    var failure := SyncIntervals(db, plan, fetch);
    if failure.Some? {
      return Err(FetchFailure(failure.value));
    }
    r := Ok(());
  }

  /** The first and the last record of a readable store are well-formed. */
  lemma RecordsValid(rs: seq<ExchangeRate>)
    requires forall i :: 0 <= i < |rs| ==> Writable(rs[i])
    ensures Earliest(rs).Some? ==> Valid(Earliest(rs).value.date)
    ensures Latest(rs).Some? ==> Valid(Latest(rs).value.date)
  {
  }

  /** After a sync, a readable store reads as its old records followed by each fetched batch
      sorted by date, and is still readable. */
  lemma WrittenReadBack(before: string, batches: seq<Batch>)
    requires Readable(before)
    requires forall b :: b in batches ==> AllWritable(b)
    ensures Readable(before + Written(batches))
    ensures Records(before + Written(batches)) == Records(before) + SortedRows(batches)
  {
    forall s, b | b in batches && Readable(s)
      ensures Readable(s + BatchText(b)) && Records(s + BatchText(b)) == Records(s) + BatchRows(b)
    {
      ReadAfterAppend(s, b);
    }
    JoinMapRead(before, batches, BatchText, BatchRows, Readable, Records);
  }
}

/**
 * The begin, end and aggregation defaults of the `balance` and `average` reports, as the use
 * cases fill them in before building the ledger command.
 */
module ReportDefaults {
  import opened Wrappers
  import opened Calendar
  import opened Models

  /** `EPOCH_BEGIN`, 1 January 1980. */
  const EpochBegin: DateTime := Midnight(Date(1980, 1, 1))

  /** `get_leger_end_day`: the midnight that ends the day of `now`. */
  function LedgerEndDay(now: DateTime): (r: DateTime)
    requires Valid(now)
    ensures Valid(r) && IsMidnight(r) && Before(now, r) && r.date == NextDay(now.date)
  {
    ShiftOneDay(StartOfDay(now));
    ShiftDays(StartOfDay(now), 1)
  }

  /** `floor(frame)` for each floor type. */
  function Floor(t: DateTime, f: FloorType): (r: DateTime)
    requires Valid(t)
    ensures Valid(r) && IsMidnight(r) && NotAfter(r, t)
    ensures f == Day ==> r.date == t.date
    ensures f == Month ==> r.date == Date(t.date.year, t.date.month, 1)
    ensures f == Year ==> r.date == Date(t.date.year, 1, 1)
  {
    match f
    case Day => StartOfDay(t)
    case Week => StartOfWeek(t)
    case Month => StartOfMonth(t)
    case Quarter => StartOfQuarter(t)
    case Year => StartOfYear(t)
  }

  /** The end of a report: the given end, or the end of today. */
  function DefaultEnd(end: Option<DateTime>, now: DateTime): (r: DateTime)
    requires Valid(now)
    ensures end.Some? ==> r == end.value
    ensures end.None? ==> IsMidnight(r) && Before(now, r)
  {
    if end.Some? then end.value else LedgerEndDay(now)
  }

  /** The begin of a report: the given begin; otherwise the end floored to the floor type when
      there is one; otherwise 1 January 1980. */
  function DefaultBegin(begin: Option<DateTime>, floor: Option<FloorType>, end: DateTime): (r: DateTime)
    requires Valid(end)
    ensures begin.Some? ==> r == begin.value
    ensures begin.None? && floor.Some? ==> r == Floor(end, floor.value)
    ensures begin.None? && floor.None? ==> r == EpochBegin
  {
    if begin.Some? then begin.value
    else if floor.Some? then Floor(end, floor.value)
    else EpochBegin
  }

  /** A defaulted begin is a midnight no later than the end; without a floor type this needs the
      end not to be before 1980. */
  lemma DefaultBeginNotAfterEnd(floor: Option<FloorType>, end: DateTime)
    requires Valid(end) && (floor.None? ==> NotAfter(EpochBegin, end))
    ensures IsMidnight(DefaultBegin(None, floor, end)) && NotAfter(DefaultBegin(None, floor, end), end)
  {
    match floor
    case None => assert DefaultBegin(None, floor, end) == EpochBegin;
    case Some(f) => assert DefaultBegin(None, floor, end) == Floor(end, f);
  }

  /** The aggregation of `average`: the given one; otherwise the one just finer than the floor
      type; otherwise daily. */
  function DefaultAggregation(aggregation: Option<AggregationType>, floor: Option<FloorType>): (r: AggregationType)
    ensures aggregation.Some? ==> r == aggregation.value
    ensures aggregation.None? && floor.Some? ==> AggregationFor(floor.value, 1) == Some(r)
    ensures aggregation.None? && floor.None? ==> r == Daily
  {
    if aggregation.Some? then aggregation.value
    else if floor.Some? then
      AggregationMonotone(floor.value, floor.value, 1);
      AggregationFor(floor.value, 1).value
    else Daily
  }

  /** A defaulted aggregation is never coarser than the floor type it comes from, and is one step
      finer except for a daily floor. */
  lemma DefaultAggregationFiner(f: FloorType)
    ensures AggregationIndex(DefaultAggregation(None, Some(f))) <= FloorIndex(f)
    ensures f != Day ==> AggregationIndex(DefaultAggregation(None, Some(f))) == FloorIndex(f) - 1
  {
    AggregationMonotone(f, f, 1);
  }
}

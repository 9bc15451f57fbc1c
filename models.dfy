/**
 * The value types of the system: the report floors and aggregations, and the exchange-rate
 * record with its one-line text encoding `P <YYYY/MM/DD HH:MM:SS> <symbol> <price> <price symbol>`
 * and the regular-expression parser that reads it back.
 */
module Models {
  import opened Wrappers
  import opened Calendar
  import opened Text

  // ---------------------------------------------------------------------------------------------
  // Floors and aggregations.

  /** The period a report is floored to, in declaration order. */
  datatype FloorType = Day | Week | Month | Quarter | Year

  /** The grouping of an averaged report, in declaration order. */
  datatype AggregationType = Daily | Weekly | Monthly | Quarterly | Yearly

  const FloorTypes: seq<FloorType> := [Day, Week, Month, Quarter, Year]
  const AggregationTypes: seq<AggregationType> := [Daily, Weekly, Monthly, Quarterly, Yearly]

  function FloorValue(f: FloorType): string {
    match f
    case Day => "day"
    case Week => "week"
    case Month => "month"
    case Quarter => "quarter"
    case Year => "year"
  }

  function AggregationValue(a: AggregationType): string {
    match a
    case Daily => "daily"
    case Weekly => "weekly"
    case Monthly => "monthly"
    case Quarterly => "quarterly"
    case Yearly => "yearly"
  }

  /** `list(FloorType).index(f)`. */
  function FloorIndex(f: FloorType): (i: nat)
    ensures i < |FloorTypes| && FloorTypes[i] == f
  {
    match f
    case Day => 0
    case Week => 1
    case Month => 2
    case Quarter => 3
    case Year => 4
  }

  function AggregationIndex(a: AggregationType): (i: nat)
    ensures i < |AggregationTypes| && AggregationTypes[i] == a
  {
    match a
    case Daily => 0
    case Weekly => 1
    case Monthly => 2
    case Quarterly => 3
    case Yearly => 4
  }

  /** `FloorType.aggregation_type(shift)`: the aggregation `shift` places finer than the floor,
      never finer than daily; `None` where the list lookup raises `IndexError`. */
  function AggregationFor(f: FloorType, shift: int): (r: Option<AggregationType>)
    ensures r.Some? <==> FloorIndex(f) - shift < |AggregationTypes|
    ensures r.Some? ==> AggregationIndex(r.value) == if FloorIndex(f) - shift > 0 then FloorIndex(f) - shift else 0
  {
    var i := if FloorIndex(f) - shift > 0 then FloorIndex(f) - shift else 0;
    if i < |AggregationTypes| then Some(AggregationTypes[i]) else None
  }

  /** With the default shift of one: day and week give daily, month weekly, quarter monthly and
      year quarterly. */
  lemma DefaultAggregationTable()
    ensures AggregationFor(Day, 1) == Some(Daily)
    ensures AggregationFor(Week, 1) == Some(Daily)
    ensures AggregationFor(Month, 1) == Some(Weekly)
    ensures AggregationFor(Quarter, 1) == Some(Monthly)
    ensures AggregationFor(Year, 1) == Some(Quarterly)
  {
  }

  /** A non-negative shift always finds an aggregation, never coarser than the floor, and a
      coarser floor never gets a finer aggregation. */
  lemma AggregationMonotone(f: FloorType, g: FloorType, shift: int)
    requires shift >= 0
    ensures AggregationFor(f, shift).Some? && AggregationFor(g, shift).Some?
    ensures AggregationIndex(AggregationFor(f, shift).value) <= FloorIndex(f)
    ensures FloorIndex(f) <= FloorIndex(g) ==>
              AggregationIndex(AggregationFor(f, shift).value) <= AggregationIndex(AggregationFor(g, shift).value)
  {
  }

  /** `AggregationType.to_option()`: the ledger command-line flag of an aggregation. */
  function ToOption(a: AggregationType): (r: string)
    ensures |r| > 2 && r[..2] == "--" && r[2..] == AggregationValue(a)
  {
    "--" + AggregationValue(a)
  }

  /** Distinct aggregations give distinct flags. */
  lemma ToOptionInjective(a: AggregationType, b: AggregationType)
    requires ToOption(a) == ToOption(b)
    ensures a == b
  {
    assert ToOption(a)[2..] == ToOption(b)[2..];
  }

  // ---------------------------------------------------------------------------------------------
  // The exchange-rate record.

  /** A price as the decimal literal it is written as: digits, a point, possibly no digits. */
  datatype Price = Price(whole: string, fraction: string)

  predicate ValidPrice(p: Price) {
    |p.whole| > 0 && AllDigits(p.whole) && AllDigits(p.fraction)
  }

  function PriceText(p: Price): string {
    p.whole + "." + p.fraction
  }

  /** One observation: on `date`, one `symbol` is worth `price` units of `priceSymbol`. */
  datatype ExchangeRate = ExchangeRate(date: DateTime, symbol: string, price: Price, priceSymbol: string)

  /** A record whose encoding reads back as itself: a datetime Python can hold, symbols that are
      non-empty and free of white space, a well-formed price. */
  predicate Writable(r: ExchangeRate) {
    InPythonRange(r.date)
    && |r.symbol| > 0 && NoSpace(r.symbol)
    && |r.priceSymbol| > 0 && NoSpace(r.priceSymbol)
    && ValidPrice(r.price)
  }

  // ---------------------------------------------------------------------------------------------
  // Encoding: `DB_ROW_FMT_WRITE` filled with the JSON form of the record.

  /** `DATETIME_FMT`, `%Y/%m/%d %H:%M:%S`. */
  function FormatDbDate(t: DateTime): (s: string)
    requires InPythonRange(t)
    ensures |s| == 19 && DateShaped(s) && s[10] == ' '
  {
    var day, clock := DbDay(t.date), DbClock(t);
    DbDayPieces(t.date);
    DbClockPieces(t);
    var s := day + " " + clock;
    assert s[0..4] == day[0..4] && s[5..7] == day[5..7] && s[8..10] == day[8..10];
    assert s[11..13] == clock[0..2] && s[14..16] == clock[3..5] && s[17..19] == clock[6..8];
    s
  }

  /** The `%Y/%m/%d` part. */
  function DbDay(d: Date): (s: string)
    requires d.year >= 0 && d.month >= 0 && d.day >= 0
    ensures |s| == 10
  {
    Pad(d.year, 4) + "/" + Pad(d.month, 2) + "/" + Pad(d.day, 2)
  }

  /** The `%H:%M:%S` part. */
  function DbClock(t: DateTime): (s: string)
    requires t.hour >= 0 && t.minute >= 0 && t.second >= 0
    ensures |s| == 8
  {
    Pad(t.hour, 2) + ":" + Pad(t.minute, 2) + ":" + Pad(t.second, 2)
  }

  /** `ExchangeRate.to_db_row`. */
  function ToDbRow(r: ExchangeRate): (row: string)
    requires InPythonRange(r.date)
    ensures |row| > 21 && row[..2] == "P " && row[2..21] == FormatDbDate(r.date)
    ensures row[21..] == " " + (r.symbol + (" " + (PriceText(r.price) + (" " + r.priceSymbol))))
  {
    var rest := " " + (r.symbol + (" " + (PriceText(r.price) + (" " + r.priceSymbol))));
    PiecesOf("P " + (FormatDbDate(r.date) + rest), 0, "P ", FormatDbDate(r.date) + rest);
    PiecesOf("P " + (FormatDbDate(r.date) + rest), 2, FormatDbDate(r.date), rest);
    "P " + (FormatDbDate(r.date) + rest)
  }

  // ---------------------------------------------------------------------------------------------
  // Decoding: the pattern `DB_ROW_FMT_READ`,
  //   ^P \s* (date: \d{4}/\d{2}/\d{2}\s\d{2}:\d{2}:\d{2}) \s* (symbol: \S+) \s*
  //     (price: \d+[.,]\d*) \s* (price_symbol: \S+)$

  predicate IsNonSpace(c: char) {
    !IsSpace(c)
  }

  predicate IsRowPadding(c: char) {
    c == '\n' || c == ' '
  }

  /** What the `date` group matches. */
  predicate DateShaped(s: string) {
    |s| == 19
    && AllDigits(s[0..4]) && s[4] == '/' && AllDigits(s[5..7]) && s[7] == '/' && AllDigits(s[8..10])
    && IsSpace(s[10])
    && AllDigits(s[11..13]) && s[13] == ':' && AllDigits(s[14..16]) && s[16] == ':' && AllDigits(s[17..19])
  }

  /** What the `price` group matches: one or more digits, `.` or `,`, digits. */
  predicate PriceShaped(s: string) {
    var i := LeadingRun(s, IsDigit);
    0 < i < |s| && (s[i] == '.' || s[i] == ',') && AllDigits(s[i + 1..])
  }

  /** A row cut into the pieces of the pattern: the groups and the white space between them. */
  datatype RowMatch = RowMatch(
    ws1: string, date: string, ws2: string, symbol: string, ws3: string,
    price: string, ws4: string, priceSymbol: string)

  /** The part of a match after the date and its trailing white space. */
  datatype TailMatch = TailMatch(symbol: string, ws3: string, price: string, ws4: string, priceSymbol: string)

  function AssembleTail(t: TailMatch): string {
    t.symbol + (t.ws3 + (t.price + (t.ws4 + t.priceSymbol)))
  }

  /** The pieces of a row after the date and the white space that follows it. */
  function TailOf(m: RowMatch): TailMatch {
    TailMatch(m.symbol, m.ws3, m.price, m.ws4, m.priceSymbol)
  }

  function Assemble(m: RowMatch): string {
    "P" + (m.ws1 + (m.date + (m.ws2 + AssembleTail(TailOf(m)))))
  }

  predicate TailWellFormed(t: TailMatch) {
    |t.symbol| > 0 && NoSpace(t.symbol) && AllSpace(t.ws3) && PriceShaped(t.price)
    && AllSpace(t.ws4) && |t.priceSymbol| > 0 && NoSpace(t.priceSymbol)
  }

  /** A decomposition of a text that the pattern accepts. */
  predicate WellFormed(m: RowMatch) {
    AllSpace(m.ws1) && DateShaped(m.date) && AllSpace(m.ws2)
    && TailWellFormed(TailOf(m))
  }

  // The matcher works on positions of the row: `RunEnd(s, i, p)` is how far a greedy `\s*`, `\S+`
  // or `\d*` reaches from position `i`.

  /** Where the engine cuts the tail of a row (everything after the white space following the
      date): the symbol ends at `k`, the price runs from `p1` to `p2`, the price symbol starts at
      `p3`. */
  datatype TailCut = TailCut(k: nat, p1: nat, p2: nat, p3: nat)

  /** A cut of the tail starting at `b` that the pattern's tail `(\S+)\s*(\d+[.,]\d*)\s*(\S+)$`
      accepts, said with runs: the symbol is non-space, white space follows it up to the price,
      the integer digits of the price reach its separator, fraction digits follow, and after the
      white space there is a non-empty non-space remainder. */
  predicate ValidCut(s: string, b: nat, c: TailCut) {
    b <= |s| && b < c.k <= RunEnd(s, b, IsNonSpace) && RunEnd(s, c.k, IsSpace) == c.p1
    && var e := RunEnd(s, c.p1, IsDigit);
       c.p1 < e < |s| && (s[e] == '.' || s[e] == ',') && e + 1 <= c.p2 <= RunEnd(s, e + 1, IsDigit)
       && RunEnd(s, c.p2, IsSpace) == c.p3 < |s| && RunEnd(s, c.p3, IsNonSpace) == |s|
  }

  /** The pieces a cut gives. */
  function Cut(s: string, b: nat, c: TailCut): TailMatch
    requires b <= c.k <= c.p1 <= c.p2 <= c.p3 <= |s|
  {
    TailMatch(s[b..c.k], s[c.k..c.p1], s[c.p1..c.p2], s[c.p2..c.p3], s[c.p3..])
  }

  /** The engine's last step: `\d*` has taken the fraction digits from `q` up to `p2`; greedy
      `\s*` and then `\S+$` must take the rest. Tries `p2`, then fewer digits down to none, as
      backtracking does. The result is where the white space and the price symbol start. */
  function MatchFraction(s: string, q: nat, p2: nat): (r: Option<(nat, nat)>)
    requires q <= |s| && q <= p2 <= RunEnd(s, q, IsDigit)
    ensures r.Some? ==> q <= r.value.0 <= p2
    ensures r.Some? ==> RunEnd(s, r.value.0, IsSpace) == r.value.1 < |s| && RunEnd(s, r.value.1, IsNonSpace) == |s|
    decreases p2
  {
    var p3 := RunEnd(s, p2, IsSpace);
    if p3 < |s| && RunEnd(s, p3, IsNonSpace) == |s| then Some((p2, p3))
    else if p2 == q then None
    else MatchFraction(s, q, p2 - 1)
  }

  /** The step after `\S+` has taken `s[b..k]` as the symbol: greedy `\s*`, then `\d+` (which
      gives nothing back, since a separator must follow it), the separator, and the fraction. */
  function MatchTailAt(s: string, b: nat, k: nat): (r: Option<TailCut>)
    requires b <= |s| && b < k <= RunEnd(s, b, IsNonSpace)
    ensures r.Some? ==> r.value.k == k && ValidCut(s, b, r.value)
  {
    var p1 := RunEnd(s, k, IsSpace);
    var e := RunEnd(s, p1, IsDigit);
    if e == p1 || e == |s| || !(s[e] == '.' || s[e] == ',') then None
    else
      match MatchFraction(s, e + 1, RunEnd(s, e + 1, IsDigit))
      case None => None
      case Some(v) => Some(TailCut(k, p1, v.0, v.1))
  }

  /** Backtracking over the length of the symbol: up to position `k`, then shorter. */
  function MatchTail(s: string, b: nat, k: nat): (r: Option<TailCut>)
    requires b <= |s| && b <= k <= RunEnd(s, b, IsNonSpace)
    ensures r.Some? ==> r.value.k <= k && ValidCut(s, b, r.value)
    decreases k
  {
    if k == b then None
    else
      match MatchTailAt(s, b, k)
      case Some(c) => Some(c)
      case None => MatchTail(s, b, k - 1)
  }

  /** `DB_ROW_FMT_READ.match(s)` on a row that does not end in a newline (so `$` is the end of the
      text): the pieces the engine settles on, or `None` when nothing matches. The leading `\s*`
      runs are taken whole because what follows them cannot start with white space; the symbol and
      the fraction digits are searched longest first. */
  function MatchRow(s: string): (r: Option<RowMatch>)
    requires s == [] || s[|s| - 1] != '\n'
    ensures r.Some? ==> WellFormed(r.value) && Assemble(r.value) == s
  {
    if s == [] || s[0] != 'P' then None
    else
      var d := RunEnd(s, 1, IsSpace);
      if |s| < d + 19 || !DateShaped(s[d..d + 19]) then None
      else
        var b := RunEnd(s, d + 19, IsSpace);
        match MatchTail(s, b, RunEnd(s, b, IsNonSpace))
        case None => None
        case Some(c) =>
          CutSound(s, b, c);
          RowPieces(s, d, b, Cut(s, b, c));
          Some(RowFromCut(s, d, b, Cut(s, b, c)))
  }

  /** The pieces of a row whose date starts at `d` and whose tail, from `b` on, has the pieces `t`. */
  function RowFromCut(s: string, d: nat, b: nat, t: TailMatch): RowMatch
    requires 1 <= d && d + 19 <= b <= |s|
  {
    RowMatch(s[1..d], s[d..d + 19], s[d + 19..b], t.symbol, t.ws3, t.price, t.ws4, t.priceSymbol)
  }

  // ---------------------------------------------------------------------------------------------
  // Soundness of the matcher: what it returns is a decomposition the pattern accepts.

  /** The price group `s[p1..p2]`: digits up to the separator at `e`, then digits. */
  lemma PriceSlice(s: string, p1: nat, e: nat, p2: nat)
    requires p1 < e < p2 <= |s| && RunEnd(s, p1, IsDigit) == e
    requires s[e] == '.' || s[e] == ','
    requires e + 1 <= RunEnd(s, e + 1, IsDigit) && p2 <= RunEnd(s, e + 1, IsDigit)
    ensures PriceShaped(s[p1..p2])
  {
    var price := s[p1..p2];
    PieceIndex(s, p1, price);
    RunCovers(s, p1, IsDigit);
    RunEndUnique(price, 0, e - p1, IsDigit);
    RunPiece(s, e + 1, p2, IsDigit);
    assert price[e - p1 + 1..] == s[e + 1..p2];
  }

  /** Five consecutive slices of `s` from `b` on put back together. */
  lemma JoinSlices(s: string, b: nat, k: nat, p1: nat, p2: nat, p3: nat)
    requires b <= k <= p1 <= p2 <= p3 <= |s|
    ensures s[b..k] + (s[k..p1] + (s[p1..p2] + (s[p2..p3] + s[p3..]))) == s[b..]
  {
    SliceSplit(s, p2, p3);
    SliceSplit(s, p1, p2);
    SliceSplit(s, k, p1);
    SliceSplit(s, b, k);
  }

  /** The white space and non-space pieces of a valid cut. */
  lemma CutRuns(s: string, b: nat, c: TailCut)
    requires ValidCut(s, b, c)
    ensures c.k <= c.p1 <= c.p2 <= c.p3 <= |s|
    ensures |s[b..c.k]| > 0 && NoSpace(s[b..c.k]) && AllSpace(s[c.k..c.p1])
    ensures AllSpace(s[c.p2..c.p3]) && |s[c.p3..]| > 0 && NoSpace(s[c.p3..])
  {
    RunPiece(s, b, c.k, IsNonSpace);
    RunPiece(s, c.k, c.p1, IsSpace);
    RunPiece(s, c.p2, c.p3, IsSpace);
    RunPiece(s, c.p3, |s|, IsNonSpace);
    assert s[c.p3..|s|] == s[c.p3..];
  }

  /** The pieces of a valid cut are a well-formed decomposition of `s[b..]`. */
  lemma CutSound(s: string, b: nat, c: TailCut)
    requires ValidCut(s, b, c)
    ensures c.k <= c.p1 <= c.p2 <= c.p3 <= |s|
    ensures TailWellFormed(Cut(s, b, c)) && AssembleTail(Cut(s, b, c)) == s[b..]
  {
    CutRuns(s, b, c);
    PriceSlice(s, c.p1, RunEnd(s, c.p1, IsDigit), c.p2);
    JoinSlices(s, b, c.k, c.p1, c.p2, c.p3);
  }

  /** Four consecutive slices of `s` from 1 on, after a leading `P`, put back together. */
  lemma JoinRow(s: string, d: nat, b: nat)
    requires |s| > 0 && s[0] == 'P' && 1 <= d && d + 19 <= b <= |s|
    ensures "P" + (s[1..d] + (s[d..d + 19] + (s[d + 19..b] + s[b..]))) == s
  {
    SliceSplit(s, d + 19, b);
    SliceSplit(s, d, d + 19);
    SliceSplit(s, 1, d);
    SliceSplit(s, 0, 1);
    assert s[0..1] == "P";
  }

  /** The pieces `MatchRow` cuts, with a well-formed tail, are a well-formed decomposition of `s`. */
  lemma RowPieces(s: string, d: nat, b: nat, t: TailMatch)
    requires |s| > 0 && s[0] == 'P' && d == RunEnd(s, 1, IsSpace)
    requires d + 19 <= |s| && DateShaped(s[d..d + 19]) && b == RunEnd(s, d + 19, IsSpace)
    requires TailWellFormed(t) && AssembleTail(t) == s[b..]
    ensures WellFormed(RowFromCut(s, d, b, t)) && Assemble(RowFromCut(s, d, b, t)) == s
  {
    RunPiece(s, 1, d, IsSpace);
    RunPiece(s, d + 19, b, IsSpace);
    JoinRow(s, d, b);
    assert TailOf(RowFromCut(s, d, b, t)) == t;
  }

  // ---------------------------------------------------------------------------------------------
  // Completeness of the matcher: every decomposition the pattern accepts is found.

  /** Where the pieces of a tail decomposition sit in the row. */
  ghost predicate TailCuts(s: string, b: nat, k: nat, p1: nat, p2: nat, p3: nat, t: TailMatch) {
    b <= k <= p1 <= p2 <= p3 <= |s|
    && s[b..k] == t.symbol && s[k..p1] == t.ws3 && s[p1..p2] == t.price
    && s[p2..p3] == t.ws4 && s[p3..] == t.priceSymbol
  }

  lemma TailPositions(s: string, b: nat, t: TailMatch)
    requires b <= |s| && s[b..] == AssembleTail(t)
    ensures var k := b + |t.symbol|; var p1 := k + |t.ws3|; var p2 := p1 + |t.price|;
            TailCuts(s, b, k, p1, p2, p2 + |t.ws4|, t)
  {
    var k := b + |t.symbol|;
    var p1 := k + |t.ws3|;
    var p2 := p1 + |t.price|;
    var r1 := t.ws3 + (t.price + (t.ws4 + t.priceSymbol));
    var r2 := t.price + (t.ws4 + t.priceSymbol);
    var r3 := t.ws4 + t.priceSymbol;
    PiecesOf(s, b, t.symbol, r1);
    assert s[k..] == r1;
    PiecesOf(s, k, t.ws3, r2);
    assert s[p1..] == r2;
    PiecesOf(s, p1, t.price, r3);
    assert s[p2..] == r3;
    PiecesOf(s, p2, t.ws4, t.priceSymbol);
  }

  /** `\S+` reaches past the symbol. */
  lemma SymbolRun(s: string, b: nat, k: nat, p1: nat, p2: nat, p3: nat, t: TailMatch)
    requires TailCuts(s, b, k, p1, p2, p3, t) && TailWellFormed(t)
    ensures k <= RunEnd(s, b, IsNonSpace)
  {
    RunOverPiece(s, b, t.symbol, IsNonSpace);
  }

  /** `\s*` after the symbol takes exactly the white space before the price. */
  lemma SpaceBeforePrice(s: string, b: nat, k: nat, p1: nat, p2: nat, p3: nat, t: TailMatch)
    requires TailCuts(s, b, k, p1, p2, p3, t) && TailWellFormed(t)
    ensures RunEnd(s, k, IsSpace) == p1
  {
    RunOverPiece(s, k, t.ws3, IsSpace);
    assert s[p1] == t.price[0];
    RunEndUnique(s, p1, p1, IsSpace);
  }

  /** The integer digits of the price run up to its separator; the fraction digits follow it. */
  lemma PriceRun(s: string, p1: nat, p2: nat, price: string)
    requires p1 + |price| == p2 <= |s| && s[p1..p2] == price && PriceShaped(price)
    ensures var e := p1 + LeadingRun(price, IsDigit);
            RunEnd(s, p1, IsDigit) == e && e < p2 && (s[e] == '.' || s[e] == ',')
            && p2 <= RunEnd(s, e + 1, IsDigit)
  {
    var i := LeadingRun(price, IsDigit);
    var e := p1 + i;
    PieceIndex(s, p1, price);
    RunEndUnique(s, p1, e, IsDigit);
    forall x | e + 1 <= x < p2
      ensures IsDigit(s[x])
    {
      assert price[i + 1..][x - e - 1] == price[x - p1];
    }
    RunReaches(s, e + 1, p2, IsDigit);
  }

  /** After the price, `\s*` takes the white space before the price symbol, and `\S+` the rest. */
  lemma SymbolAtEnd(s: string, b: nat, k: nat, p1: nat, p2: nat, p3: nat, t: TailMatch)
    requires TailCuts(s, b, k, p1, p2, p3, t) && TailWellFormed(t)
    ensures RunEnd(s, p2, IsSpace) == p3 < |s| && RunEnd(s, p3, IsNonSpace) == |s|
  {
    RunOverPiece(s, p2, t.ws4, IsSpace);
    assert s[p3] == t.priceSymbol[0];
    RunEndUnique(s, p3, p3, IsSpace);
    assert s[p3..|s|] == s[p3..];
    RunOverPiece(s, p3, t.priceSymbol, IsNonSpace);
  }

  /** The positions of the pieces of a well-formed tail form a valid cut. */
  lemma CutValid(s: string, b: nat, k: nat, p1: nat, p2: nat, p3: nat, t: TailMatch)
    requires TailCuts(s, b, k, p1, p2, p3, t) && TailWellFormed(t)
    ensures ValidCut(s, b, TailCut(k, p1, p2, p3)) && Cut(s, b, TailCut(k, p1, p2, p3)) == t
  {
    SymbolRun(s, b, k, p1, p2, p3, t);
    SpaceBeforePrice(s, b, k, p1, p2, p3, t);
    PriceRun(s, p1, p2, t.price);
    SymbolAtEnd(s, b, k, p1, p2, p3, t);
  }

  /** Every well-formed decomposition of a tail is the pieces of a valid cut. */
  lemma CutOf(s: string, b: nat, t: TailMatch) returns (c: TailCut)
    requires b <= |s| && s[b..] == AssembleTail(t) && TailWellFormed(t)
    ensures ValidCut(s, b, c) && b <= c.k <= c.p1 <= c.p2 <= c.p3 <= |s| && Cut(s, b, c) == t
  {
    var k := b + |t.symbol|;
    var p1 := k + |t.ws3|;
    var p2 := p1 + |t.price|;
    var p3 := p2 + |t.ws4|;
    TailPositions(s, b, t);
    assert TailCuts(s, b, k, p1, p2, p3, t);
    CutValid(s, b, k, p1, p2, p3, t);
    c := TailCut(k, p1, p2, p3);
  }

  /** Giving back fraction digits one at a time reaches every position that lets the rest match. */
  lemma {:induction false} FractionSearch(s: string, q: nat, p2: nat, top: nat)
    requires q <= |s| && q <= p2 <= top <= RunEnd(s, q, IsDigit)
    requires RunEnd(s, p2, IsSpace) < |s| && RunEnd(s, RunEnd(s, p2, IsSpace), IsNonSpace) == |s|
    ensures MatchFraction(s, q, top).Some?
    decreases top
  {
    if top > p2 {
      FractionSearch(s, q, p2, top - 1);
    }
  }

  /** Shortening the symbol one character at a time reaches every length that lets the rest match. */
  lemma {:induction false} TailSearch(s: string, b: nat, k: nat, top: nat)
    requires b <= |s| && b < k <= top <= RunEnd(s, b, IsNonSpace)
    requires MatchTailAt(s, b, k).Some?
    ensures MatchTail(s, b, top).Some?
    decreases top
  {
    if top > k {
      TailSearch(s, b, k, top - 1);
    }
  }

  /** With the symbol cut where a valid cut cuts it, the rest of the pattern matches; and when
      white space separates the price from its symbol the engine settles on exactly that cut. */
  lemma TailAtHit(s: string, b: nat, c: TailCut)
    requires ValidCut(s, b, c)
    ensures MatchTailAt(s, b, c.k).Some?
    ensures c.p2 < c.p3 ==> MatchTailAt(s, b, c.k) == Some(c)
  {
    var e := RunEnd(s, c.p1, IsDigit);
    var top := RunEnd(s, e + 1, IsDigit);
    FractionSearch(s, e + 1, c.p2, top);
    if c.p2 < c.p3 {
      assert IsSpace(s[c.p2]) && !IsDigit(s[c.p2]);
      RunCovers(s, e + 1, IsDigit);
      RunEndUnique(s, e + 1, c.p2, IsDigit);
      assert MatchFraction(s, e + 1, top) == Some((c.p2, c.p3));
    }
  }

  /** The engine finds a match for every tail that has a valid cut, and finds exactly that cut
      when white space surrounds the price. */
  lemma TailComplete(s: string, b: nat, c: TailCut)
    requires ValidCut(s, b, c)
    ensures MatchTail(s, b, RunEnd(s, b, IsNonSpace)).Some?
    ensures c.k < c.p1 && c.p2 < c.p3 ==> MatchTail(s, b, RunEnd(s, b, IsNonSpace)) == Some(c)
  {
    TailAtHit(s, b, c);
    TailSearch(s, b, c.k, RunEnd(s, b, IsNonSpace));
    if c.k < c.p1 {
      RunCovers(s, b, IsNonSpace);
      RunEndUnique(s, b, c.k, IsNonSpace);
    }
  }

  /** Where the pieces of a row decomposition sit in the row. */
  lemma RowPositions(m: RowMatch)
    ensures var s := Assemble(m); var d := 1 + |m.ws1|; var b := d + 19 + |m.ws2|;
            |m.date| == 19 ==> b <= |s| && s[0] == 'P' && s[1..d] == m.ws1 && s[d..d + 19] == m.date
                               && s[d + 19..b] == m.ws2 && s[b..] == AssembleTail(TailOf(m))
  {
    var s := Assemble(m);
    var d := 1 + |m.ws1|;
    if |m.date| == 19 {
      var tail := AssembleTail(TailOf(m));
      var r2 := m.ws2 + tail;
      var r1 := m.date + r2;
      PiecesOf(s, 0, "P", m.ws1 + r1);
      assert s[1..] == m.ws1 + r1;
      PiecesOf(s, 1, m.ws1, r1);
      assert s[d..] == r1;
      PiecesOf(s, d, m.date, r2);
      assert s[d + 19..] == r2;
      PiecesOf(s, d + 19, m.ws2, tail);
    }
  }

  /** The leading `\s*` runs of the pattern take exactly the white space of a decomposition. */
  lemma RowRuns(s: string, m: RowMatch)
    requires WellFormed(m) && s == Assemble(m)
    ensures var d := 1 + |m.ws1|; var b := d + 19 + |m.ws2|;
            b < |s| && s[0] == 'P' && RunEnd(s, 1, IsSpace) == d && RunEnd(s, d + 19, IsSpace) == b
            && s[1..d] == m.ws1 && s[d..d + 19] == m.date && s[d + 19..b] == m.ws2
            && s[b..] == AssembleTail(TailOf(m))
  {
    var d := 1 + |m.ws1|;
    var b := d + 19 + |m.ws2|;
    RowPositions(m);
    RunOverPiece(s, 1, m.ws1, IsSpace);
    assert s[d] == m.date[0];
    RunEndUnique(s, d, d, IsSpace);
    RunOverPiece(s, d + 19, m.ws2, IsSpace);
    assert s[b] == m.symbol[0];
    RunEndUnique(s, b, b, IsSpace);
  }

  /** A decomposed row does not end in a newline: its last character belongs to the price symbol. */
  lemma RowEnd(m: RowMatch)
    requires WellFormed(m)
    ensures var s := Assemble(m); s != [] && s[0] == 'P' && !IsSpace(s[|s| - 1])
  {
    var s := Assemble(m);
    assert s == ("P" + (m.ws1 + (m.date + (m.ws2 + (m.symbol + (m.ws3 + (m.price + m.ws4))))))) + m.priceSymbol;
    assert s[|s| - 1] == m.priceSymbol[|m.priceSymbol| - 1];
  }

  /** Once the leading runs and the date are in place, `MatchRow` answers with the cut that
      `MatchTail` finds. */
  lemma MatchRowFound(s: string, d: nat, b: nat, c: TailCut)
    requires |s| > 0 && s[|s| - 1] != '\n' && s[0] == 'P' && d == RunEnd(s, 1, IsSpace)
    requires d + 19 <= |s| && DateShaped(s[d..d + 19]) && b == RunEnd(s, d + 19, IsSpace)
    requires MatchTail(s, b, RunEnd(s, b, IsNonSpace)) == Some(c)
    ensures b <= c.k <= c.p1 <= c.p2 <= c.p3 <= |s|
    ensures MatchRow(s) == Some(RowFromCut(s, d, b, Cut(s, b, c)))
  {
    CutSound(s, b, c);
  }

  /** A row whose leading runs end where a date starts and whose rest is a well-formed tail is
      matched; when white space surrounds the price the engine recovers exactly that tail. */
  lemma RowMatchesAt(s: string, d: nat, b: nat, t: TailMatch)
    requires |s| > 0 && s[|s| - 1] != '\n' && s[0] == 'P' && d == RunEnd(s, 1, IsSpace)
    requires d + 19 <= |s| && DateShaped(s[d..d + 19]) && b == RunEnd(s, d + 19, IsSpace)
    requires TailWellFormed(t) && s[b..] == AssembleTail(t)
    ensures MatchRow(s).Some?
    ensures |t.ws3| > 0 && |t.ws4| > 0 ==> MatchRow(s) == Some(RowFromCut(s, d, b, t))
  {
    var c := CutOf(s, b, t);
    TailComplete(s, b, c);
    var found := MatchTail(s, b, RunEnd(s, b, IsNonSpace)).value;
    MatchRowFound(s, d, b, found);
    if |t.ws3| > 0 && |t.ws4| > 0 {
      assert found == c;
    }
  }

  /** The matcher accepts every row the pattern describes; when white space surrounds the price
      it recovers exactly the given pieces. */
  lemma RowComplete(m: RowMatch)
    requires WellFormed(m)
    ensures var s := Assemble(m);
            (s != [] && s[|s| - 1] != '\n' && MatchRow(s).Some?
             && (|m.ws3| > 0 && |m.ws4| > 0 ==> MatchRow(s) == Some(m)))
  {
    var s := Assemble(m);
    var d := 1 + |m.ws1|;
    var b := d + 19 + |m.ws2|;
    RowEnd(m);
    assert s[|s| - 1] != '\n' by {
      assert IsSpace('\n');
    }
    RowRuns(s, m);
    assert RunEnd(s, 1, IsSpace) == d && RunEnd(s, d + 19, IsSpace) == b;
    RowRecovered(s, d, b, m);
  }

  /** The pieces of a row, where `RowRuns` puts them, are what the matcher recovers. */
  lemma RowRecovered(s: string, d: nat, b: nat, m: RowMatch)
    requires WellFormed(m) && |s| > 0 && s[|s| - 1] != '\n' && s[0] == 'P'
    requires d == RunEnd(s, 1, IsSpace) && d + 19 <= b < |s| && b == RunEnd(s, d + 19, IsSpace)
    requires s[1..d] == m.ws1 && s[d..d + 19] == m.date && s[d + 19..b] == m.ws2
    requires s[b..] == AssembleTail(TailOf(m))
    ensures MatchRow(s).Some? && (|m.ws3| > 0 && |m.ws4| > 0 ==> MatchRow(s) == Some(m))
  {
    RowMatchesAt(s, d, b, TailOf(m));
    assert RowFromCut(s, d, b, TailOf(m)) == m;
  }

  /** `DB_ROW_FMT_READ.match` succeeds on a row exactly when the row is one the pattern describes. */
  lemma MatchRowIff(s: string)
    requires s == [] || s[|s| - 1] != '\n'
    ensures MatchRow(s).Some? <==> exists m :: WellFormed(m) && Assemble(m) == s
  {
    if MatchRow(s).Some? {
      assert WellFormed(MatchRow(s).value) && Assemble(MatchRow(s).value) == s;
    }
    if m :| WellFormed(m) && Assemble(m) == s {
      RowComplete(m);
    }
  }

  // ---------------------------------------------------------------------------------------------
  // Decoding: `ExchangeRate.from_db_row`.

  /** Why a row of the price file is rejected: it does not match the pattern (`ValueError`), its
      date is not one `arrow` accepts or Python can hold (`ParserError`, `ValueError`,
      `OverflowError`), or its price is not one `float` reads (a validation error). */
  datatype RowError = NoMatch(row: string) | BadDate(text: string) | BadPrice(text: string)

  /** The calendar day written in the first ten characters of a date text. */
  function DateGroupDay(text: string): Date
    requires DateShaped(text)
  {
    Date(DigitsValue(text[0..4]), DigitsValue(text[5..7]), DigitsValue(text[8..10]))
  }

  /** `arrow.get` on the `date` group. `arrow` reads the time only after a space: with any other
      white space between day and time it reads the day alone, as its midnight, and the time
      digits are not looked at. After a space, hour 24 is accepted as the midnight that ends the
      day when minutes and seconds are zero. */
  function ParseDbDate(text: string): (r: Result<DateTime, RowError>)
    requires DateShaped(text)
    ensures r.Ok? ==> InPythonRange(r.value)
    ensures r.Err? ==> r.error == BadDate(text)
    ensures text[10] != ' ' ==> (r.Ok? <==> DateGroupDay(text).year >= 1 && ValidDate(DateGroupDay(text)))
    ensures text[10] != ' ' && r.Ok? ==> r.value == Midnight(DateGroupDay(text))
  {
    var date := DateGroupDay(text);
    var hour := DigitsValue(text[11..13]);
    var minute := DigitsValue(text[14..16]);
    var second := DigitsValue(text[17..19]);
    if date.year < 1 || !ValidDate(date) then Err(BadDate(text))
    else if text[10] != ' ' then Ok(Midnight(date))
    else if hour == 24 && minute == 0 && second == 0 then
      if NextDay(date).year > 9999 then Err(BadDate(text)) else Ok(Midnight(NextDay(date)))
    else if hour < 24 && minute < 60 && second < 60 then Ok(DateTime(date, hour, minute, second))
    else Err(BadDate(text))
  }

  /** The pieces of a formatted datetime. */
  lemma FormatDbDatePieces(t: DateTime)
    requires InPythonRange(t)
    ensures var s := FormatDbDate(t);
            s[0..4] == Pad(t.date.year, 4) && s[4] == '/' && s[5..7] == Pad(t.date.month, 2)
            && s[7] == '/' && s[8..10] == Pad(t.date.day, 2) && s[10] == ' '
            && s[11..13] == Pad(t.hour, 2) && s[13] == ':' && s[14..16] == Pad(t.minute, 2)
            && s[16] == ':' && s[17..19] == Pad(t.second, 2)
  {
    var s := FormatDbDate(t);
    var d, c := DbDay(t.date), DbClock(t);
    assert s[..10] == d && s[10] == ' ' && s[11..] == c;
    DbDayPieces(t.date);
    DbClockPieces(t);
    assert s[0..4] == d[0..4] && s[5..7] == d[5..7] && s[8..10] == d[8..10];
    assert s[11..13] == c[0..2] && s[14..16] == c[3..5] && s[17..19] == c[6..8];
  }

  lemma DbDayPieces(d: Date)
    requires d.year >= 0 && d.month >= 0 && d.day >= 0
    ensures var s := DbDay(d);
            s[0..4] == Pad(d.year, 4) && s[4] == '/' && s[5..7] == Pad(d.month, 2)
            && s[7] == '/' && s[8..10] == Pad(d.day, 2)
  {
  }

  lemma DbClockPieces(t: DateTime)
    requires t.hour >= 0 && t.minute >= 0 && t.second >= 0
    ensures var s := DbClock(t);
            s[0..2] == Pad(t.hour, 2) && s[2] == ':' && s[3..5] == Pad(t.minute, 2)
            && s[5] == ':' && s[6..8] == Pad(t.second, 2)
  {
  }

  /** The digit groups of a formatted datetime read back as its fields. */
  lemma FormatDbDateFields(t: DateTime)
    requires InPythonRange(t)
    ensures var s := FormatDbDate(t);
            DateShaped(s) && s[10] == ' '
            && DigitsValue(s[0..4]) == t.date.year && DigitsValue(s[5..7]) == t.date.month
            && DigitsValue(s[8..10]) == t.date.day && DigitsValue(s[11..13]) == t.hour
            && DigitsValue(s[14..16]) == t.minute && DigitsValue(s[17..19]) == t.second
  {
    FormatDbDatePieces(t);
    PadValue(t.date.year, 4);
    PadValue(t.date.month, 2);
    PadValue(t.date.day, 2);
    PadValue(t.hour, 2);
    PadValue(t.minute, 2);
    PadValue(t.second, 2);
  }

  /** `arrow.get` reads back what `strftime(DATETIME_FMT)` writes. */
  lemma ParseFormatDbDate(t: DateTime)
    requires InPythonRange(t)
    ensures DateShaped(FormatDbDate(t)) && ParseDbDate(FormatDbDate(t)) == Ok(t)
  {
    var s := FormatDbDate(t);
    FormatDbDateFields(t);
    assert Date(DigitsValue(s[0..4]), DigitsValue(s[5..7]), DigitsValue(s[8..10])) == t.date;
  }

  /** A text of the length of a datetime, cut where `DATETIME_FMT` puts its separators. */
  lemma DateTextPieces(s: string)
    requires |s| == 19
    ensures s == s[0..4] + [s[4]] + s[5..7] + [s[7]] + s[8..10] + [s[10]]
                 + s[11..13] + [s[13]] + s[14..16] + [s[16]] + s[17..19]
  {
  }

  /** What `ParseDbDate` reads from a date text with a space before the time and an hour other
      than 24. */
  lemma ParsedParts(text: string)
    requires DateShaped(text) && text[10] == ' ' && ParseDbDate(text).Ok? && DigitsValue(text[11..13]) != 24
    ensures ParseDbDate(text).value
            == DateTime(Date(DigitsValue(text[0..4]), DigitsValue(text[5..7]), DigitsValue(text[8..10])),
                        DigitsValue(text[11..13]), DigitsValue(text[14..16]), DigitsValue(text[17..19]))
  {
  }

  /** A datetime whose zero-padded fields are the pieces of a text with the separators of
      `DATETIME_FMT` is written as that text. */
  lemma FormatFromParts(t: DateTime, text: string)
    requires InPythonRange(t) && |text| == 19
    requires text[4] == '/' && text[7] == '/' && text[10] == ' ' && text[13] == ':' && text[16] == ':'
    requires text[0..4] == Pad(t.date.year, 4) && text[5..7] == Pad(t.date.month, 2)
    requires text[8..10] == Pad(t.date.day, 2) && text[11..13] == Pad(t.hour, 2)
    requires text[14..16] == Pad(t.minute, 2) && text[17..19] == Pad(t.second, 2)
    ensures FormatDbDate(t) == text
  {
    DateTextPieces(text);
  }

  /** The digit groups of a date text are its fields written back zero-padded. */
  lemma DateTextPadded(text: string)
    requires DateShaped(text)
    ensures text[0..4] == Pad(DigitsValue(text[0..4]), 4) && text[5..7] == Pad(DigitsValue(text[5..7]), 2)
    ensures text[8..10] == Pad(DigitsValue(text[8..10]), 2) && text[11..13] == Pad(DigitsValue(text[11..13]), 2)
    ensures text[14..16] == Pad(DigitsValue(text[14..16]), 2) && text[17..19] == Pad(DigitsValue(text[17..19]), 2)
  {
    DigitsPad(text[0..4]);
    DigitsPad(text[5..7]);
    DigitsPad(text[8..10]);
    DigitsPad(text[11..13]);
    DigitsPad(text[14..16]);
    DigitsPad(text[17..19]);
  }

  /** Conversely, a date text with a space before the time that is read with an hour other
      than 24 is exactly how the datetime read from it is written back. */
  lemma FormatParseDbDate(text: string)
    requires DateShaped(text) && text[10] == ' ' && ParseDbDate(text).Ok? && DigitsValue(text[11..13]) != 24
    ensures FormatDbDate(ParseDbDate(text).value) == text
  {
    var t := ParseDbDate(text).value;
    ParsedParts(text);
    DateTextPadded(text);
    FormatFromParts(t, text);
  }

  /** pydantic's `float` coercion of the `price` group: a decimal comma is rejected. */
  function PriceOf(text: string): (r: Result<Price, RowError>)
    requires PriceShaped(text)
    ensures r.Ok? ==> ValidPrice(r.value) && PriceText(r.value) == text
    ensures r.Err? <==> ',' in text
    ensures r.Err? ==> r.error == BadPrice(text)
  {
    var i := LeadingRun(text, IsDigit);
    assert text == text[..i] + [text[i]] + text[i + 1..];
    if text[i] == ',' then Err(BadPrice(text)) else Ok(Price(text[..i], text[i + 1..]))
  }

  /** A well-formed price reads back as itself. */
  lemma PriceRoundTrip(p: Price)
    requires ValidPrice(p)
    ensures PriceShaped(PriceText(p)) && PriceOf(PriceText(p)) == Ok(p)
  {
    var s := PriceText(p);
    LeadingRunConcat(p.whole, "." + p.fraction, IsDigit);
    RunEndUnique(p.whole, 0, |p.whole|, IsDigit);
    RunEndUnique("." + p.fraction, 0, 0, IsDigit);
    assert s[|p.whole|] == '.';
    assert s[..|p.whole|] == p.whole && s[|p.whole| + 1..] == p.fraction;
  }

  /** `ExchangeRate.from_db_row`: strips newlines and spaces from both ends, matches the pattern,
      reads the date and the price. */
  function FromDbRow(row: string): (r: Result<ExchangeRate, RowError>)
    ensures r.Ok? ==> Writable(r.value)
    ensures var s := Strip(row, IsRowPadding);
            (s == [] || s[|s| - 1] != '\n') && (r == Err(NoMatch(s)) <==> MatchRow(s).None?)
    ensures var s := Strip(row, IsRowPadding);
            (s == [] || s[|s| - 1] != '\n')
            && (MatchRow(s).Some? ==>
                  var m := MatchRow(s).value;
                  (r.Ok? <==> ParseDbDate(m.date).Ok? && PriceOf(m.price).Ok?)
                  && (r.Ok? ==> r.value.date == ParseDbDate(m.date).value && r.value.symbol == m.symbol
                                && PriceText(r.value.price) == m.price && r.value.priceSymbol == m.priceSymbol))
  {
    var s := Strip(row, IsRowPadding);
    match MatchRow(s)
    case None => Err(NoMatch(s))
    case Some(m) => FromGroups(m)
  }

  /** The record built from the groups of a match: the date read by `arrow.get`, the price by
      pydantic, the symbols as they are. */
  function FromGroups(m: RowMatch): (r: Result<ExchangeRate, RowError>)
    requires WellFormed(m)
    ensures r.Ok? ==> Writable(r.value) && r.value.symbol == m.symbol && r.value.priceSymbol == m.priceSymbol
    ensures r.Ok? ==> PriceText(r.value.price) == m.price
    ensures r.Err? ==> r.error == BadDate(m.date) || r.error == BadPrice(m.price)
    ensures r.Ok? <==> ParseDbDate(m.date).Ok? && PriceOf(m.price).Ok?
    ensures r.Ok? ==> r.value.date == ParseDbDate(m.date).value
  {
    match ParseDbDate(m.date)
    case Err(e) => Err(e)
    case Ok(t) =>
      match PriceOf(m.price)
      case Err(e) => Err(e)
      case Ok(p) => Ok(ExchangeRate(t, m.symbol, p, m.priceSymbol))
  }

  /** A row is rejected as not matching exactly when no decomposition of its stripped text has
      the shape of the pattern. */
  lemma FromDbRowNoMatch(row: string)
    ensures var s := Strip(row, IsRowPadding);
            FromDbRow(row) == Err(NoMatch(s)) <==> !exists m :: WellFormed(m) && Assemble(m) == s
  {
    MatchRowIff(Strip(row, IsRowPadding));
  }

  /** A row assembled from a decomposition the pattern accepts, with white space around the
      price, is read through that decomposition. */
  lemma {:induction false} AssembledRowReads(m: RowMatch)
    requires WellFormed(m) && |m.ws3| > 0 && |m.ws4| > 0
    ensures FromDbRow(Assemble(m)) == FromGroups(m)
  {
    RowEnd(m);
    StripUnpadded(Assemble(m));
    RowComplete(m);
  }

  /** The date text with a tab before the time. */
  lemma TabDateText(text: string)
    requires text == "2001/01/01\t12:34:56"
    ensures DateShaped(text) && text[10] != ' ' && DateGroupDay(text) == Date(2001, 1, 1)
  {
    DigitsYear(text[0..4]);
    DigitsOne(text[5..7]);
    DigitsOne(text[8..10]);
    TwoDigits(text[11..13]);
    TwoDigits(text[14..16]);
    TwoDigits(text[17..19]);
    assert IsSpace(text[10]);
  }

  lemma DigitsYear(s: string)
    requires s == "2001"
    ensures AllDigits(s) && DigitsValue(s) == 2001
  {
    var a, b, c := s[..3], s[..2], s[..1];
    assert a == "200" && a[..2] == b && b[..1] == c && c[..0] == [];
    assert DigitsValue(c) == 2;
    assert DigitsValue(b) == 20;
    assert DigitsValue(a) == 200;
  }

  lemma DigitsOne(s: string)
    requires s == "01"
    ensures AllDigits(s) && DigitsValue(s) == 1
  {
    assert s[..1] == "0" && s[..1][..0] == [];
    assert DigitsValue(s[..1]) == 0;
  }

  lemma TwoDigits(s: string)
    requires |s| == 2 && IsDigit(s[0]) && IsDigit(s[1])
    ensures AllDigits(s)
  {
  }

  /** The match of the row with a tab before the time. */
  lemma TabRowMatch(m: RowMatch)
    requires m == RowMatch(" ", "2001/01/01\t12:34:56", " ", "RUB", " ", "30.05", " ", "$")
    ensures WellFormed(m)
    ensures FromGroups(m) == Ok(ExchangeRate(Midnight(Date(2001, 1, 1)), "RUB", Price("30", "05"), "$"))
  {
    TabDateText(m.date);
    TabPrice(m.price);
    assert AllSpace(" ") by { assert IsSpace(' '); }
    assert NoSpace("RUB") && NoSpace("$");
  }

  lemma TabPrice(s: string)
    requires s == "30.05"
    ensures PriceShaped(s) && PriceOf(s) == Ok(Price("30", "05"))
  {
    var p := Price("30", "05");
    assert PriceText(p) == s;
    PriceRoundTrip(p);
  }

  lemma TabRowAssembles(m: RowMatch)
    requires m == RowMatch(" ", "2001/01/01\t12:34:56", " ", "RUB", " ", "30.05", " ", "$")
    ensures Assemble(m) == "P 2001/01/01\t12:34:56 RUB 30.05 $"
  {
    var row := "P 2001/01/01\t12:34:56 RUB 30.05 $";
    TabTail(TailOf(m), row[21..]);
    TabHead(m.date, row[21..], row);
  }

  lemma TabHead(date: string, rest: string, row: string)
    requires row == "P 2001/01/01\t12:34:56 RUB 30.05 $"
    requires date == "2001/01/01\t12:34:56" && rest == row[21..]
    ensures "P" + (" " + (date + rest)) == row
  {
    assert date + rest == row[2..];
    assert " " + row[2..] == row[1..];
  }

  lemma TabTail(t: TailMatch, text: string)
    requires t == TailMatch("RUB", " ", "30.05", " ", "$") && text == " RUB 30.05 $"
    ensures " " + AssembleTail(t) == text
  {
    assert "30.05" + (" " + "$") == text[5..];
  }

  /** A tab between day and time still matches the pattern, and `arrow` then reads the day alone:
      the row is the record of that day's midnight. */
  lemma TabRowReads()
    ensures FromDbRow("P 2001/01/01\t12:34:56 RUB 30.05 $")
            == Ok(ExchangeRate(Midnight(Date(2001, 1, 1)), "RUB", Price("30", "05"), "$"))
  {
    var m := RowMatch(" ", "2001/01/01\t12:34:56", " ", "RUB", " ", "30.05", " ", "$");
    TabRowMatch(m);
    TabRowAssembles(m);
    AssembledRowReads(m);
  }

  /** The decomposition of the row that `to_db_row` writes. */
  function Written(r: ExchangeRate): RowMatch
    requires InPythonRange(r.date)
  {
    RowMatch(" ", FormatDbDate(r.date), " ", r.symbol, " ", PriceText(r.price), " ", r.priceSymbol)
  }

  lemma WrittenWellFormed(r: ExchangeRate)
    requires Writable(r)
    ensures WellFormed(Written(r))
  {
    ParseFormatDbDate(r.date);
    PriceRoundTrip(r.price);
    assert AllSpace(" ") by { assert IsSpace(' '); }
  }

  lemma WrittenAssembles(r: ExchangeRate)
    requires InPythonRange(r.date)
    ensures Assemble(Written(r)) == ToDbRow(r)
  {
    var rest := " " + (r.symbol + (" " + (PriceText(r.price) + (" " + r.priceSymbol))));
    assert "P " + (FormatDbDate(r.date) + rest) == "P" + (" " + (FormatDbDate(r.date) + rest));
  }

  /** What `to_db_row` writes starts with `P` and ends with the price symbol's last character. */
  lemma WrittenEnds(r: ExchangeRate)
    requires Writable(r)
    ensures var row := ToDbRow(r); row != [] && !IsRowPadding(row[0]) && !IsRowPadding(row[|row| - 1])
  {
    var row := ToDbRow(r);
    var p := r.priceSymbol;
    var last := p[|p| - 1];
    assert row[0] == row[..2][0] == 'P';
    var tail := row[21..];
    assert (" " + p)[|" " + p| - 1] == last;
    assert (PriceText(r.price) + (" " + p))[|PriceText(r.price) + (" " + p)| - 1] == last;
    assert (" " + (PriceText(r.price) + (" " + p)))[|" " + (PriceText(r.price) + (" " + p))| - 1] == last;
    assert (r.symbol + (" " + (PriceText(r.price) + (" " + p))))[|r.symbol + (" " + (PriceText(r.price) + (" " + p)))| - 1] == last;
    assert tail[|tail| - 1] == last;
    assert row[|row| - 1] == last;
    assert !IsSpace(last);
  }

  /** `strip("\n ")` leaves a text alone whose ends are neither, also when a newline follows it. */
  lemma StripUnpadded(s: string)
    requires s != [] && !IsRowPadding(s[0]) && !IsRowPadding(s[|s| - 1])
    ensures Strip(s, IsRowPadding) == s && Strip(s + "\n", IsRowPadding) == s
  {
    StripSurrounded([], s, [], IsRowPadding);
    StripSurrounded([], s, "\n", IsRowPadding);
    assert [] + s + [] == s;
    assert [] + s + "\n" == s + "\n";
  }

  /** A row that strips to what `to_db_row` writes reads back as the record. */
  lemma ReadsBack(row: string, r: ExchangeRate)
    requires Writable(r) && Strip(row, IsRowPadding) == ToDbRow(r)
    ensures FromDbRow(row) == Ok(r)
  {
    WrittenWellFormed(r);
    WrittenAssembles(r);
    RowComplete(Written(r));
    ParseFormatDbDate(r.date);
    PriceRoundTrip(r.price);
  }

  /** Reading back what `to_db_row` writes gives the record, with or without the newline the
      price file puts after it. */
  lemma RoundTrip(r: ExchangeRate)
    requires Writable(r)
    ensures FromDbRow(ToDbRow(r)) == Ok(r)
    ensures FromDbRow(ToDbRow(r) + "\n") == Ok(r)
  {
    var row := ToDbRow(r);
    WrittenEnds(r);
    StripUnpadded(row);
    ReadsBack(row, r);
    ReadsBack(row + "\n", r);
  }
}

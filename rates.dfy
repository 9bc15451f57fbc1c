/**
 * The exchange-rates client: the request it sends for a date range, the validation of the
 * `rates` map of the time-series response, and the records it yields, one per date and currency.
 * The HTTP exchange itself is a function parameter from request to response.
 */
module Rates {
  import opened Wrappers
  import opened Calendar
  import opened Text
  import opened OrderedMap
  import opened Models
  import opened Sequences

  /** The client's settings, fixed at construction. `aliases` is the currency alias table, an
      insertion-ordered dictionary. */
  datatype Client = Client(apiUrl: string, apiKey: string, baseSymbol: string, symbols: seq<string>,
                           aliases: seq<(string, string)>)

  /** The `rates` member of a response body as JSON gives it: date text to (currency code to price). */
  type RawRates = seq<(string, seq<(string, Price)>)>

  /** The `rates` map after validation: datetime to (currency code to price). */
  type DatedRates = seq<(DateTime, seq<(string, Price)>)>

  datatype Request = Request(url: string, headers: seq<(string, string)>, params: seq<(string, string)>)

  /** The HTTP status, and the body's `rates` when the body is a valid time-series object. */
  datatype Response = Response(status: int, body: Option<RawRates>)

  datatype ApiError =
    | ApiException(status: int)   // `ExchangeRatesAPIException`, raised for an HTTP error status
    | InvalidBody                 // the body is not a time-series object; raised unwrapped
    | InvalidRateDate(key: string) // a `rates` key `strptime` refuses; raised unwrapped
    | DateOverflow                // a range end outside the years 1 to 9999, which no Python
                                  // datetime holds; the error comes before any request

  // ---------------------------------------------------------------------------------------------
  // The request.

  /** `timeseries_url`. */
  function TimeseriesUrl(c: Client): (u: string)
    ensures |u| == |c.apiUrl| + 11 && u[..|c.apiUrl|] == c.apiUrl && u[|c.apiUrl|..] == "/timeseries"
  {
    c.apiUrl + "/timeseries"
  }

  /** `auth_header`. */
  function AuthHeader(c: Client): (h: seq<(string, string)>)
    ensures Get(h, "apikey") == Some(c.apiKey) && |h| == 1
  {
    [("apikey", c.apiKey)]
  }

  /** `strftime("%Y-%m-%d")`, `Consts.DATE_FORMAT`. */
  function IsoDate(t: DateTime): (s: string)
    requires InPythonRange(t)
    ensures |s| == 10 && s[4] == '-' && s[7] == '-'
    ensures AllDigits(s[..4]) && AllDigits(s[5..7]) && AllDigits(s[8..10])
    ensures DigitsValue(s[..4]) == t.date.year && DigitsValue(s[5..7]) == t.date.month
            && DigitsValue(s[8..10]) == t.date.day
  {
    var year, month, day := Pad(t.date.year, 4), Pad(t.date.month, 2), Pad(t.date.day, 2);
    PadIsoFields(t);
    DashJoin(year, month, day);
    year + "-" + month + "-" + day
  }

  /** The zero-padded fields of a date Python holds read back as the fields. */
  lemma PadIsoFields(t: DateTime)
    requires InPythonRange(t)
    ensures DigitsValue(Pad(t.date.year, 4)) == t.date.year
    ensures DigitsValue(Pad(t.date.month, 2)) == t.date.month
    ensures DigitsValue(Pad(t.date.day, 2)) == t.date.day
  {
    assert Pow10(2) == 100 && Pow10(4) == 10000;
    PadValue(t.date.year, 4);
    PadValue(t.date.month, 2);
    PadValue(t.date.day, 2);
  }

  /** Where the pieces of a text joined by two dashes lie. */
  lemma DashJoin(a: string, b: string, c: string)
    requires |a| == 4 && |b| == 2 && |c| == 2
    ensures var s := a + "-" + b + "-" + c;
            |s| == 10 && s[..4] == a && s[4] == '-' && s[5..7] == b && s[7] == '-' && s[8..10] == c
  {
  }

  /** The query parameters of `get_rates`, in their order. */
  function RequestParams(c: Client, start: DateTime, end: DateTime): (p: seq<(string, string)>)
    requires InPythonRange(start) && InPythonRange(end)
    ensures Keys(p) == ["start_date", "end_date", "base", "symbols"]
    ensures Get(p, "start_date") == Some(IsoDate(start)) && Get(p, "end_date") == Some(IsoDate(end))
    ensures Get(p, "base") == Some(c.baseSymbol) && Get(p, "symbols") == Some(Join(c.symbols, ","))
  {
    var p := [("start_date", IsoDate(start)), ("end_date", IsoDate(end)), ("base", c.baseSymbol),
              ("symbols", Join(c.symbols, ","))];
    IndexOfAt(p, "start_date", 0);
    IndexOfAt(p, "end_date", 1);
    IndexOfAt(p, "base", 2);
    IndexOfAt(p, "symbols", 3);
    p
  }

  /** The provider reads back the list of currencies the client asks for, as long as no currency
      code holds a comma. */
  lemma SymbolsParamSplits(c: Client, start: DateTime, end: DateTime)
    requires InPythonRange(start) && InPythonRange(end)
    requires |c.symbols| >= 1 && forall i :: 0 <= i < |c.symbols| ==> ',' !in c.symbols[i]
    ensures Split(Get(RequestParams(c, start, end), "symbols").value, ',') == c.symbols
  {
    SplitJoin(c.symbols, ',');
  }

  function RequestFor(c: Client, start: DateTime, end: DateTime): (r: Request)
    requires InPythonRange(start) && InPythonRange(end)
    ensures |r.url| == |c.apiUrl| + 11 && r.url[..|c.apiUrl|] == c.apiUrl && r.url[|c.apiUrl|..] == "/timeseries"
    ensures Get(r.headers, "apikey") == Some(c.apiKey) && |r.headers| == 1
    ensures Keys(r.params) == ["start_date", "end_date", "base", "symbols"]
    ensures Get(r.params, "start_date") == Some(IsoDate(start)) && Get(r.params, "end_date") == Some(IsoDate(end))
    ensures Get(r.params, "base") == Some(c.baseSymbol) && Get(r.params, "symbols") == Some(Join(c.symbols, ","))
  {
    Request(TimeseriesUrl(c), AuthHeader(c), RequestParams(c, start, end))
  }

  // ---------------------------------------------------------------------------------------------
  // `datetime.strptime(key, "%Y-%m-%d")`. The format compiles to the pattern
  //   (\d\d\d\d) - (1[0-2]|0[1-9]|[1-9]) - (3[01]|[12]\d|0[1-9]|[1-9]| [1-9])
  // matched at the start of the key; the key must end where the match ends, and the fields must
  // name a valid date.

  predicate InRange(c: char, lo: char, hi: char) {
    lo <= c <= hi
  }

  /** Where the month field ends: the first alternative followed by `-`. */
  function MonthEnd(k: string): (e: Option<nat>)
    ensures e.Some? ==> (e.value == 6 || e.value == 7) && e.value < |k| && k[e.value] == '-'
    ensures e.Some? ==> AllDigits(k[5..e.value])
    ensures e.Some? ==> 1 <= DigitsValue(k[5..e.value]) <= 12
  {
    if |k| >= 8 && k[5] == '1' && InRange(k[6], '0', '2') && k[7] == '-' then
      ShortDigitsValue(k[5..7]);
      Some(7)
    else if |k| >= 8 && k[5] == '0' && InRange(k[6], '1', '9') && k[7] == '-' then
      ShortDigitsValue(k[5..7]);
      Some(7)
    else if |k| >= 7 && InRange(k[5], '1', '9') && k[6] == '-' then
      ShortDigitsValue(k[5..6]);
      Some(6)
    else None
  }

  /** Where the day field starting at `p` ends: the first alternative that matches, since nothing
      of the pattern follows it. */
  function DayEnd(k: string, p: nat): (e: Option<nat>)
    ensures e.Some? ==> p + 1 <= e.value <= p + 2 && e.value <= |k|
  {
    if p + 2 <= |k| && k[p] == '3' && InRange(k[p + 1], '0', '1') then Some(p + 2)
    else if p + 2 <= |k| && InRange(k[p], '1', '2') && IsDigit(k[p + 1]) then Some(p + 2)
    else if p + 2 <= |k| && k[p] == '0' && InRange(k[p + 1], '1', '9') then Some(p + 2)
    else if p + 1 <= |k| && InRange(k[p], '1', '9') then Some(p + 1)
    else if p + 2 <= |k| && k[p] == ' ' && InRange(k[p + 1], '1', '9') then Some(p + 2)
    else None
  }

  /** The value of the day field `k[p..e]`; a leading space stands for no tens digit. */
  function DayValue(k: string, p: nat, e: nat): (d: nat)
    requires DayEnd(k, p) == Some(e)
    ensures 1 <= d <= 31
  {
    if k[p] == ' ' then DigitValue(k[p + 1])
    else
      assert AllDigits(k[p..e]) by {
        assert forall i :: p <= i < e ==> IsDigit(k[i]);
      }
      assert e == p + 2 ==> DigitsValue(k[p..e]) == DigitValue(k[p]) * 10 + DigitValue(k[p + 1]) by {
        if e == p + 2 {
          assert k[p..e][..1] == [k[p]];
        }
      }
      DigitsValue(k[p..e])
  }

  /** `datetime.strptime(key, "%Y-%m-%d")`: midnight of the date the key names. */
  function ParseRateDate(k: string): (r: Result<DateTime, ApiError>)
    ensures r.Ok? ==> InPythonRange(r.value) && IsMidnight(r.value)
    ensures r.Err? ==> r.error == InvalidRateDate(k)
  {
    if |k| < 5 || !AllDigits(k[..4]) || k[4] != '-' then Err(InvalidRateDate(k))
    else match MonthEnd(k)
      case None => Err(InvalidRateDate(k))
      case Some(me) =>
        match DayEnd(k, me + 1)
        case None => Err(InvalidRateDate(k))
        case Some(de) =>
          var year := DigitsValue(k[..4]);
          var month := DigitsValue(k[5..me]);
          var day := DayValue(k, me + 1, de);
          if de != |k| || year < 1 || day > DaysInMonth(year, month) then Err(InvalidRateDate(k))
          else Ok(Midnight(Date(year, month, day)))
  }

  /** The pieces of a formatted date. */
  lemma IsoDatePieces(t: DateTime)
    requires InPythonRange(t)
    ensures var s := IsoDate(t);
            s[..4] == Pad(t.date.year, 4) && s[4] == '-' && s[5..7] == Pad(t.date.month, 2)
            && s[7] == '-' && s[8..10] == Pad(t.date.day, 2)
  {
  }

  /** The two digits of a zero-padded number below 100. */
  lemma PadTwo(n: nat)
    requires n < 100
    ensures Pad(n, 2) == [DigitChar(n / 10), DigitChar(n % 10)]
  {
    var tens := n / 10;
    assert tens < 10 && tens % 10 == tens;
    assert Pad(tens, 1) == [] + [DigitChar(tens)];
  }

  /** A zero-padded month is read by the alternative for its two digits. */
  lemma MonthFieldOf(k: string, m: nat)
    requires |k| >= 8 && 1 <= m <= 12 && k[5..7] == Pad(m, 2) && k[7] == '-'
    ensures MonthEnd(k) == Some(7)
  {
    PadTwo(m);
    assert k[5] == DigitChar(m / 10) && k[6] == DigitChar(m % 10);
  }

  /** A zero-padded day is read by the alternative for its two digits, and gives the day back. */
  lemma DayFieldOf(k: string, d: nat)
    requires |k| == 10 && 1 <= d <= 31 && k[8..10] == Pad(d, 2)
    ensures DayEnd(k, 8) == Some(10) && DayValue(k, 8, 10) == d
  {
    PadTwo(d);
    assert k[8] == DigitChar(d / 10) && k[9] == DigitChar(d % 10);
    PadValue(d, 2);
  }

  /** `strptime` reads back the midnight of every date `strftime` writes. */
  lemma ParseIsoDate(t: DateTime)
    requires InPythonRange(t)
    ensures ParseRateDate(IsoDate(t)) == Ok(Midnight(t.date))
  {
    var s := IsoDate(t);
    IsoDatePieces(t);
    PadValue(t.date.year, 4);
    PadValue(t.date.month, 2);
    MonthFieldOf(s, t.date.month);
    DayFieldOf(s, t.date.day);
  }

  /** The fields of a ten-character key read with a two-digit month and a two-digit day. */
  lemma TenCharacterFields(k: string)
    requires ParseRateDate(k).Ok? && |k| == 10 && k[8] != ' '
    ensures MonthEnd(k) == Some(7) && DayEnd(k, 8) == Some(10)
    ensures AllDigits(k[..4]) && AllDigits(k[5..7]) && AllDigits(k[8..10]) && k[4] == '-' && k[7] == '-'
    ensures ParseRateDate(k).value.date
            == Date(DigitsValue(k[..4]), DigitsValue(k[5..7]), DigitsValue(k[8..10]))
  {
    assert AllDigits(k[8..10]) by {
      assert forall i :: 8 <= i < 10 ==> IsDigit(k[i]);
    }
  }

  /** A ten-character key is its three fields around two hyphens. */
  lemma TenCharacterPieces(k: string)
    requires |k| == 10 && k[4] == '-' && k[7] == '-'
    ensures k[..4] + "-" + k[5..7] + "-" + k[8..10] == k
  {
  }

  /** A ten-character key that does not pad its day with a space is the very text `strftime`
      writes for the date it names. */
  lemma IsoDateOfParsed(k: string)
    requires ParseRateDate(k).Ok? && |k| == 10 && k[8] != ' '
    ensures IsoDate(ParseRateDate(k).value) == k
  {
    TenCharacterFields(k);
    var t := ParseRateDate(k).value;
    DigitsPad(k[..4]);
    DigitsPad(k[5..7]);
    DigitsPad(k[8..10]);
    assert Pad(t.date.year, 4) == k[..4] && Pad(t.date.month, 2) == k[5..7] && Pad(t.date.day, 2) == k[8..10];
    TenCharacterPieces(k);
  }

  // ---------------------------------------------------------------------------------------------
  // `TimeSeries.rates_validate`: `{strptime(k): v for k, v in rates.items()}`.

  /** One entry of the comprehension, its key read as a datetime. */
  function ParseEntry(e: (string, seq<(string, Price)>)): (r: Result<(DateTime, seq<(string, Price)>), ApiError>)
    ensures r.Ok? <==> ParseRateDate(e.0).Ok?
    ensures r.Ok? ==> r.value == (ParseRateDate(e.0).value, e.1)
    ensures r.Err? ==> r.error == InvalidRateDate(e.0)
  {
    var d :- ParseRateDate(e.0);
    Ok((d, e.1))
  }

  /** Every key becomes the datetime it names, in order; a later key naming an earlier one's date
      replaces that entry's value where it stands. The first key `strptime` refuses fails
      validation. */
  function RatesValidate(raw: RawRates): (r: Result<DatedRates, ApiError>)
    ensures r.Ok? <==> forall i :: 0 <= i < |raw| ==> ParseRateDate(raw[i].0).Ok?
    ensures r.Ok? ==> DistinctKeys(r.value)
    ensures r.Err? ==> r.error.InvalidRateDate?
  {
    match MapAll(raw, ParseEntry)
    case Err(e) =>
      MapAllFirstError(raw, ParseEntry);
      Err(e)
    case Ok(parsed) => Ok(FromPairs(parsed))
  }

  /** The validated map holds exactly the dates its keys name. */
  lemma RatesValidateKeys(raw: RawRates, d: DateTime)
    requires RatesValidate(raw).Ok?
    ensures d in Keys(RatesValidate(raw).value) <==> exists i :: 0 <= i < |raw| && ParseRateDate(raw[i].0) == Ok(d)
  {
    var parsed := MapAll(raw, ParseEntry).value;
    assert RatesValidate(raw).value == FromPairs(parsed);
    FromPairsKeys(parsed, d);
    if d in Keys(parsed) {
      var i :| 0 <= i < |parsed| && Keys(parsed)[i] == d;
      assert ParseEntry(raw[i]) == Ok(parsed[i]);
    }
    if exists i :: 0 <= i < |raw| && ParseRateDate(raw[i].0) == Ok(d) {
      var i :| 0 <= i < |raw| && ParseRateDate(raw[i].0) == Ok(d);
      assert ParseEntry(raw[i]) == Ok(parsed[i]);
      assert Keys(parsed)[i] == d;
    }
  }

  /** Every date of the validated map is a midnight Python can hold. */
  lemma RatesValidateDates(raw: RawRates)
    requires RatesValidate(raw).Ok?
    ensures forall i :: 0 <= i < |RatesValidate(raw).value| ==>
              InPythonRange(RatesValidate(raw).value[i].0) && IsMidnight(RatesValidate(raw).value[i].0)
  {
    var v := RatesValidate(raw).value;
    forall i | 0 <= i < |v|
      ensures InPythonRange(v[i].0) && IsMidnight(v[i].0)
    {
      assert Keys(v)[i] == v[i].0;
      RatesValidateKeys(raw, v[i].0);
    }
  }

  /** When the keys name pairwise different dates, validation keeps every entry where it is. */
  lemma RatesValidateDistinct(raw: RawRates)
    requires forall i :: 0 <= i < |raw| ==> ParseRateDate(raw[i].0).Ok?
    requires forall i, j :: 0 <= i < j < |raw| ==> ParseRateDate(raw[i].0) != ParseRateDate(raw[j].0)
    ensures |RatesValidate(raw).value| == |raw|
    ensures forall i :: 0 <= i < |raw| ==> RatesValidate(raw).value[i] == (ParseRateDate(raw[i].0).value, raw[i].1)
  {
    var parsed := MapAll(raw, ParseEntry).value;
    assert DistinctKeys(parsed) by {
      forall i, j | 0 <= i < j < |parsed| ensures parsed[i].0 != parsed[j].0 {
        assert ParseRateDate(raw[i].0) != ParseRateDate(raw[j].0);
      }
    }
    FromDistinctPairs(parsed);
  }

  // ---------------------------------------------------------------------------------------------
  // The records of `get_rates`.

  /** `currency_aliases.get(code, code)`. */
  function AliasOf(c: Client, code: string): (a: string)
    ensures Get(c.aliases, code).Some? ==> a == Get(c.aliases, code).value
    ensures Get(c.aliases, code).None? ==> a == code
  {
    match Get(c.aliases, code)
    case Some(a) => a
    case None => code
  }

  /** The records of one date, one per currency of its entry, in the entry's order. */
  function DateRecords(c: Client, date: DateTime, record: seq<(string, Price)>): (rs: seq<ExchangeRate>)
    ensures |rs| == |record|
    ensures forall j :: 0 <= j < |record| ==>
              rs[j] == ExchangeRate(date, AliasOf(c, c.baseSymbol), record[j].1, AliasOf(c, record[j].0))
  {
    seq(|record|, j requires 0 <= j < |record| =>
      ExchangeRate(date, AliasOf(c, c.baseSymbol), record[j].1, AliasOf(c, record[j].0)))
  }

  /** The nested loop of `get_rates`: for each date in order, for each currency in order, one record. */
  function Normalize(c: Client, rates: DatedRates): (rs: seq<ExchangeRate>)
    ensures forall x :: x in rs ==> x.symbol == AliasOf(c, c.baseSymbol)
  {
    if rates == [] then [] else DateRecords(c, rates[0].0, rates[0].1) + Normalize(c, rates[1..])
  }

  /** The number of (date, currency) pairs of the first `n` dates. */
  function Count(rates: DatedRates, n: nat): (k: nat)
    requires n <= |rates|
  {
    if n == 0 then 0 else Count(rates, n - 1) + |rates[n - 1].1|
  }

  lemma {:induction false} CountShift(rates: DatedRates, n: nat)
    requires 1 <= n <= |rates|
    ensures Count(rates, n) == |rates[0].1| + Count(rates[1..], n - 1)
  {
    if n > 1 {
      CountShift(rates, n - 1);
    }
  }

  /** One record per (date, currency) pair. */
  lemma {:induction false} NormalizeLength(c: Client, rates: DatedRates)
    ensures |Normalize(c, rates)| == Count(rates, |rates|)
  {
    if rates != [] {
      NormalizeLength(c, rates[1..]);
      CountShift(rates, |rates|);
    }
  }

  /** The records of the `i`-th date come after those of the earlier dates. */
  lemma {:induction false} NormalizeIndex(c: Client, rates: DatedRates, i: nat, j: nat)
    requires i < |rates| && j < |rates[i].1|
    ensures Count(rates, i) + j < |Normalize(c, rates)|
    ensures Normalize(c, rates)[Count(rates, i) + j] == DateRecords(c, rates[i].0, rates[i].1)[j]
  {
    var head := DateRecords(c, rates[0].0, rates[0].1);
    var tail := Normalize(c, rates[1..]);
    assert Normalize(c, rates) == head + tail;
    if i > 0 {
      var n := Count(rates[1..], i - 1) + j;
      NormalizeIndex(c, rates[1..], i - 1, j);
      CountShift(rates, i);
      assert (head + tail)[|head| + n] == tail[n];
      assert rates[1..][i - 1] == rates[i];
    }
  }

  /** The record of the `j`-th currency of the `i`-th date comes after those of the earlier dates:
      date-major, in response order, with the date and price copied and both currencies aliased. */
  lemma NormalizeAt(c: Client, rates: DatedRates, i: nat, j: nat)
    requires i < |rates| && j < |rates[i].1|
    ensures Count(rates, i) + j < |Normalize(c, rates)|
    ensures Normalize(c, rates)[Count(rates, i) + j]
            == ExchangeRate(rates[i].0, AliasOf(c, c.baseSymbol), rates[i].1[j].1, AliasOf(c, rates[i].1[j].0))
  {
    NormalizeIndex(c, rates, i, j);
  }

  /** Every record is the one of some (date, currency) pair. */
  lemma {:induction false} NormalizeFrom(c: Client, rates: DatedRates, n: nat) returns (i: nat, j: nat)
    requires n < |Normalize(c, rates)|
    ensures i < |rates| && j < |rates[i].1| && n == Count(rates, i) + j
  {
    var head := DateRecords(c, rates[0].0, rates[0].1);
    if n < |head| {
      i, j := 0, n;
    } else {
      var i', j' := NormalizeFrom(c, rates[1..], n - |head|);
      CountShift(rates, i' + 1);
      assert rates[1..][i'] == rates[i' + 1];
      i, j := i' + 1, j';
    }
  }

  /** Every record carries one of the dates of the map. */
  lemma NormalizeDates(c: Client, rates: DatedRates)
    requires forall i :: 0 <= i < |rates| ==> InPythonRange(rates[i].0) && IsMidnight(rates[i].0)
    ensures forall x :: x in Normalize(c, rates) ==> InPythonRange(x.date) && IsMidnight(x.date)
  {
    var rs := Normalize(c, rates);
    forall x | x in rs
      ensures InPythonRange(x.date) && IsMidnight(x.date)
    {
      var n :| 0 <= n < |rs| && rs[n] == x;
      var i, j := NormalizeFrom(c, rates, n);
      NormalizeAt(c, rates, i, j);
    }
  }

  /** `get_rates`: the request for the range goes out; an HTTP error status raises
      `ExchangeRatesAPIException`; otherwise the body is validated and flattened into records. */
  function GetRates(c: Client, start: DateTime, end: DateTime, http: Request -> Response): (r: Result<seq<ExchangeRate>, ApiError>)
    requires InPythonRange(start) && InPythonRange(end)
    ensures var resp := http(RequestFor(c, start, end));
            && (r.Err? && r.error.ApiException? <==> 400 <= resp.status < 600)
            && (r.Err? && r.error.ApiException? ==> r.error.status == resp.status)
            && (r.Ok? <==> !(400 <= resp.status < 600) && resp.body.Some? && RatesValidate(resp.body.value).Ok?)
            && (r.Ok? ==> r.value == Normalize(c, RatesValidate(resp.body.value).value))
    ensures r.Ok? ==> forall x :: x in r.value ==> InPythonRange(x.date) && IsMidnight(x.date)
  {
    var resp := http(RequestFor(c, start, end));
    if 400 <= resp.status < 600 then Err(ApiException(resp.status))
    else if resp.body.None? then Err(InvalidBody)
    else
      match RatesValidate(resp.body.value)
      case Err(e) => Err(e)
      case Ok(rates) =>
        RatesValidateDates(resp.body.value);
        NormalizeDates(c, rates);
        var rs := Normalize(c, rates);
        Ok(rs)
  }

  // ---------------------------------------------------------------------------------------------
  // The dates of the client's test series.

  /** The key the client writes for a day of December 2022 before the tenth. */
  lemma ExampleKeyText(day: nat)
    requires 1 <= day <= 9
    ensures IsoDate(Midnight(Date(2022, 12, day))) == "2022-12-0" + [DigitChar(day)]
  {
    PadTwo(day);
  }

  /** The `rates` keys of the test series, 1 and 2 December 2022, name midnight of their days. */
  lemma ExampleKeys(day: nat)
    requires 1 <= day <= 9
    ensures ParseRateDate("2022-12-0" + [DigitChar(day)]) == Ok(Midnight(Date(2022, 12, day)))
  {
    ExampleKeyText(day);
    ParseIsoDate(Midnight(Date(2022, 12, day)));
  }
}

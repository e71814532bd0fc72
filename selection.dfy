/** The choice `FlightFinder.best_flight` makes from a price-API response:
    keep the offers whose stay lasts more than a week, order them by flight
    duration and take the first. A raised exception (a missing key, a date
    strptime refuses) is a `Failure`; the pandas steps are modelled by what
    they deliver, not by how. */
module Selection {

  import opened Wrappers
  import opened Calendar

  /** The "duration" entry of a record: no such key, a JSON null, or a
      number of minutes. */
  datatype Duration = Missing | Null | Minutes(minutes: int)

  /** One offer of the response's "data" list. A date key the API left out
      of the record is `None`. `value` is the price, which the choice never
      reads. */
  datatype FlightRecord = FlightRecord(
    origin: string,
    destination: string,
    departDate: Option<string>,
    returnDate: Option<string>,
    duration: Duration,
    value: int)

  /** The decoded JSON response; `data` is `None` when it has no "data" key. */
  datatype PriceResponse = PriceResponse(data: Option<seq<FlightRecord>>)

  /** Why `best_flight` raises: a KeyError naming the key, or the ValueError
      of strptime naming the text it could not read. */
  datatype SelectError = MissingField(name: string) | BadDate(text: string)

  /** Reads one date key of a record, as `strptime(flight[key], "%Y-%m-%d")`. */
  function ReadDate(field: Option<string>, name: string): (r: Result<Date, SelectError>)
    ensures field.None? ==> r == Failure(MissingField(name))
    ensures field.Some? ==> (r.Success? <==> ParseDate(field.value).Some?)
    ensures r.Success? ==> IsValid(r.value) && r.value == ParseDate(field.value).value
    ensures field.Some? && r.Failure? ==> r.error == BadDate(field.value)
  {
    match field
    case None => Failure(MissingField(name))
    case Some(text) =>
      match ParseDate(text)
      case None => Failure(BadDate(text))
      case Some(d) => Success(d)
  }

  /** `(return - depart).days` for one record. The left operand of the
      subtraction is evaluated first, so the return date is read, and can
      fail, before the departure date. */
  function TripDays(x: FlightRecord): (r: Result<int, SelectError>)
    ensures r.Success? <==> ReadDate(x.returnDate, "return_date").Success?
                            && ReadDate(x.departDate, "depart_date").Success?
    ensures r.Success? ==>
              r.value == DaysBetween(ReadDate(x.returnDate, "return_date").value, ReadDate(x.departDate, "depart_date").value)
    ensures ReadDate(x.returnDate, "return_date").Failure? ==> r == ReadDate(x.returnDate, "return_date").PropagateFailure()
    ensures ReadDate(x.returnDate, "return_date").Success? && ReadDate(x.departDate, "depart_date").Failure? ==>
              r == ReadDate(x.departDate, "depart_date").PropagateFailure()
  {
    var ret :- ReadDate(x.returnDate, "return_date");
    var dep :- ReadDate(x.departDate, "depart_date");
    Success(DaysBetween(ret, dep))
  }

  /** The comprehension's condition: both dates read and the stay is longer
      than seven days. */
  predicate Kept(x: FlightRecord) {
    TripDays(x).Success? && TripDays(x).value > 7
  }

  /** What evaluating the comprehension's condition does with one record:
      raise, or tell whether the record stays. */
  function Verdict(x: FlightRecord): (r: Result<bool, SelectError>)
    ensures r.Success? <==> TripDays(x).Success?
    ensures r.Success? ==> (r.value <==> Kept(x))
    ensures r.Failure? ==> r.error == TripDays(x).error
  {
    var days :- TripDays(x);
    Success(days > 7)
  }

  /** `[x for x in records if cond(x)]` where evaluating the condition may
      raise: walks the records in order, keeps those it holds for and stops
      at the first exception. */
  function Comprehension(records: seq<FlightRecord>, cond: FlightRecord -> Result<bool, SelectError>)
    : (r: Result<seq<FlightRecord>, SelectError>)
    ensures r.Success? ==> |r.value| <= |records|
  {
    if records == [] then
      Success([])
    else
      var keep :- cond(records[0]);
      var rest :- Comprehension(records[1..], cond);
      Success(if keep then [records[0]] + rest else rest)
  }

  /** The list comprehension that builds `short_listed`. */
  function ShortList(records: seq<FlightRecord>): (r: Result<seq<FlightRecord>, SelectError>)
    ensures r.Success? ==> |r.value| <= |records|
  {
    Comprehension(records, Verdict)
  }

  /** Index of a row with the fewest minutes, if any row has minutes. */
  function LeastMinutes(ks: seq<FlightRecord>): (r: Option<nat>)
    ensures r.None? <==> forall j :: 0 <= j < |ks| ==> !ks[j].duration.Minutes?
    ensures r.Some? ==> r.value < |ks| && ks[r.value].duration.Minutes?
    ensures r.Some? ==> forall j :: 0 <= j < |ks| && ks[j].duration.Minutes? ==>
                          ks[r.value].duration.minutes <= ks[j].duration.minutes
  {
    if ks == [] then
      None
    else
      var last := ks[|ks| - 1];
      match LeastMinutes(ks[..|ks| - 1])
      case None => if last.duration.Minutes? then Some(|ks| - 1) else None
      case Some(i) =>
        if last.duration.Minutes? && last.duration.minutes < ks[i].duration.minutes then Some(|ks| - 1)
        else Some(i)
  }

  /** Index of the row `sort_values(by="duration").head(1)` delivers. The
      "duration" column exists when some row has the key; otherwise pandas
      raises KeyError (`None` here). A row without the key, or with null,
      holds NaN, and NaN rows sort last in their original order. So the first
      row is one with the fewest minutes or, when no row has minutes, the
      first row. */
  function Shortest(ks: seq<FlightRecord>): (r: Option<nat>)
    ensures r.None? <==> forall j :: 0 <= j < |ks| ==> ks[j].duration.Missing?
    ensures r.Some? ==> r.value < |ks|
    ensures r.Some? && ks[r.value].duration.Minutes? ==>
              forall j :: 0 <= j < |ks| && ks[j].duration.Minutes? ==>
                ks[r.value].duration.minutes <= ks[j].duration.minutes
    ensures r.Some? && !ks[r.value].duration.Minutes? ==>
              r.value == 0 && forall j :: 0 <= j < |ks| ==> !ks[j].duration.Minutes?
  {
    if forall j :: 0 <= j < |ks| ==> ks[j].duration.Missing? then
      None
    else
      match LeastMinutes(ks)
      case None => Some(0)
      case Some(i) => Some(i)
  }

  /** `best_flight` on an already fetched response: the first row of the
      short list sorted by duration. */
  function BestFlight(response: PriceResponse): (r: Result<FlightRecord, SelectError>)
    ensures response.data.None? ==> r == Failure(MissingField("data"))
    ensures response.data.Some? && ShortList(response.data.value).Failure? ==>
              r == ShortList(response.data.value).PropagateFailure()
    ensures response.data.Some? && ShortList(response.data.value).Success? ==>
              var kept := ShortList(response.data.value).value;
              && (r.Failure? <==> forall x :: x in kept ==> x.duration.Missing?)
              && (r.Failure? ==> r.error == MissingField("duration"))
              && (r.Success? ==> r.value in kept)
              && (r.Success? && r.value.duration.Minutes? ==>
                    forall x :: x in kept && x.duration.Minutes? ==> r.value.duration.minutes <= x.duration.minutes)
              && (r.Success? && !r.value.duration.Minutes? ==>
                    r.value == kept[0] && forall x :: x in kept ==> !x.duration.Minutes?)
  {
    match response.data
    case None => Failure(MissingField("data"))
    case Some(records) =>
      var kept :- ShortList(records);
      match Shortest(kept)
      case None => Failure(MissingField("duration"))
      case Some(i) => Success(kept[i])
  }

  /** The choice in terms of the response: a kept offer of the response with
      the fewest minutes among kept offers; or, when no kept offer has
      minutes but one has the key, the first kept offer; and KeyError
      "duration" when no kept offer has the key. */
  lemma BestFlightIsShortestKept(records: seq<FlightRecord>)
    requires ShortList(records).Success?
    ensures var r := BestFlight(PriceResponse(Some(records)));
      && (r.Failure? <==> forall x :: x in records && Kept(x) ==> x.duration.Missing?)
      && (r.Success? ==> r.value in records && Kept(r.value))
      && (r.Success? && r.value.duration.Minutes? ==>
            forall x :: x in records && Kept(x) && x.duration.Minutes? ==> r.value.duration.minutes <= x.duration.minutes)
      && (r.Success? && !r.value.duration.Minutes? ==> forall x :: x in records && Kept(x) ==> !x.duration.Minutes?)
  {
    ShortListMembers(records);
  }

  // ----- Properties of the choice -----

  /** The number of days of a stay is the count of days from the departure
      date to the return date: positive exactly when the return date comes
      after the departure date, and zero exactly when they coincide. */
  lemma TripDaysFollowsCalendar(x: FlightRecord)
    requires TripDays(x).Success?
    ensures var ret, dep := ParseDate(x.returnDate.value).value, ParseDate(x.departDate.value).value;
      && TripDays(x).value == CountDays(ret) - CountDays(dep)
      && (TripDays(x).value > 0 <==> Precedes(dep, ret)) && (TripDays(x).value == 0 <==> dep == ret)
  {
    var ret, dep := ParseDate(x.returnDate.value).value, ParseDate(x.departDate.value).value;
    OrdinalOrder(dep, ret);
  }

  /** A kept offer returns after it departs. */
  lemma KeptReturnsAfterDeparture(x: FlightRecord)
    requires Kept(x)
    ensures Precedes(ParseDate(x.departDate.value).value, ParseDate(x.returnDate.value).value)
  {
    TripDaysFollowsCalendar(x);
  }

  /** Two example records of the week-long search period, leaving on
      2024-09-01, one back a week later and one back eight days later. */
  const WeekTrip := FlightRecord("SJC", "LIM", Some("2024-09-01"), Some("2024-09-08"), Minutes(500), 300)
  const EightDayTrip := FlightRecord("SJC", "LIM", Some("2024-09-01"), Some("2024-09-09"), Minutes(500), 300)

  lemma ExampleDatesRead()
    ensures ParseDate("2024-09-01") == Some(Date(2024, 9, 1))
    ensures ParseDate("2024-09-08") == Some(Date(2024, 9, 8))
    ensures ParseDate("2024-09-09") == Some(Date(2024, 9, 9))
  {
  }

  /** A stay of exactly one week is not enough; eight days are. */
  lemma OneWeekIsNotEnough()
    ensures TripDays(WeekTrip) == Success(7) && !Kept(WeekTrip)
    ensures TripDays(EightDayTrip) == Success(8) && Kept(EightDayTrip)
  {
    ExampleDatesRead();
  }

  /** A null duration keeps the "duration" column, so a row is chosen even
      when no row has minutes: the first one. Without the key anywhere there
      is no column to sort by. */
  lemma NullDurationKeepsColumn(withNull: FlightRecord, withoutKey: FlightRecord)
    requires withNull.duration.Null? && withoutKey.duration.Missing?
    ensures Shortest([withoutKey, withNull]) == Some(0)
    ensures Shortest([withoutKey, withoutKey]) == None
  {
    assert [withoutKey, withNull][1].duration.Null?;
  }

  // The comprehension, for any condition

  /** It completes exactly when the condition can be evaluated on every record. */
  lemma {:induction false} ComprehensionSucceeds(records: seq<FlightRecord>, cond: FlightRecord -> Result<bool, SelectError>)
    ensures Comprehension(records, cond).Success? <==> forall i :: 0 <= i < |records| ==> cond(records[i]).Success?
  {
    if records != [] {
      ComprehensionSucceeds(records[1..], cond);
      assert forall i :: 1 <= i < |records| ==> records[i] == records[1..][i - 1];
    }
  }

  /** It raises the exception of the first record the condition raises on. */
  lemma {:induction false} FirstFailureReported(records: seq<FlightRecord>, cond: FlightRecord -> Result<bool, SelectError>, i: nat)
    requires i < |records| && cond(records[i]).Failure?
    requires forall j :: 0 <= j < i ==> cond(records[j]).Success?
    ensures Comprehension(records, cond) == Failure(cond(records[i]).error)
  {
    if i > 0 {
      assert forall j :: 0 <= j < i - 1 ==> records[1..][j] == records[j + 1];
      FirstFailureReported(records[1..], cond, i - 1);
    }
  }

  /** It keeps the order of the records: the comprehension over two lists one
      after the other is the two comprehensions one after the other. */
  lemma {:induction false} ComprehensionKeepsOrder(a: seq<FlightRecord>, b: seq<FlightRecord>,
                                                   cond: FlightRecord -> Result<bool, SelectError>)
    requires Comprehension(a + b, cond).Success?
    ensures Comprehension(a, cond).Success? && Comprehension(b, cond).Success?
    ensures Comprehension(a + b, cond).value == Comprehension(a, cond).value + Comprehension(b, cond).value
  {
    if a == [] {
      assert a + b == b;
    } else {
      assert (a + b)[1..] == a[1..] + b;
      assert (a + b)[0] == a[0];
      ComprehensionKeepsOrder(a[1..], b, cond);
    }
  }

  /** A record the condition keeps appears as often as in the input, any
      other record not at all. */
  lemma {:induction false} ComprehensionCounts(records: seq<FlightRecord>, cond: FlightRecord -> Result<bool, SelectError>,
                                               x: FlightRecord)
    requires Comprehension(records, cond).Success?
    ensures multiset(Comprehension(records, cond).value)[x]
            == if cond(x) == Success(true) then multiset(records)[x] else 0
  {
    if records != [] {
      assert records == [records[0]] + records[1..];
      ComprehensionCounts(records[1..], cond, x);
    }
  }

  /** Two offer lists that differ at most in their prices. */
  predicate SameButPrice(a: seq<FlightRecord>, b: seq<FlightRecord>) {
    |a| == |b| && forall i :: 0 <= i < |a| ==> a[i].(value := b[i].value) == b[i]
  }

  /** A condition that does not read the price gives lists that differ only
      in their prices the same outcome. */
  lemma {:induction false} ComprehensionIgnoresPrice(a: seq<FlightRecord>, b: seq<FlightRecord>,
                                                     cond: FlightRecord -> Result<bool, SelectError>)
    requires SameButPrice(a, b)
    requires forall i :: 0 <= i < |a| ==> cond(a[i]) == cond(b[i])
    ensures Comprehension(a, cond).Failure? <==> Comprehension(b, cond).Failure?
    ensures Comprehension(a, cond).Failure? ==> Comprehension(a, cond).error == Comprehension(b, cond).error
    ensures Comprehension(a, cond).Success? ==> SameButPrice(Comprehension(a, cond).value, Comprehension(b, cond).value)
  {
    if a != [] {
      assert SameButPrice(a[1..], b[1..]) by {
        forall i | 0 <= i < |a| - 1
          ensures a[1..][i].(value := b[1..][i].value) == b[1..][i]
        {
          assert a[1..][i] == a[i + 1] && b[1..][i] == b[i + 1];
        }
      }
      assert forall i :: 0 <= i < |a| - 1 ==> a[1..][i] == a[i + 1] && b[1..][i] == b[i + 1];
      ComprehensionIgnoresPrice(a[1..], b[1..], cond);
    }
  }

  // The short list

  /** `short_listed` is built exactly when every record's dates can be read,
      and otherwise the first unreadable record's exception propagates. */
  lemma ShortListSucceeds(records: seq<FlightRecord>)
    ensures ShortList(records).Success? <==> forall i :: 0 <= i < |records| ==> TripDays(records[i]).Success?
  {
    ComprehensionSucceeds(records, Verdict);
  }

  lemma ShortListFirstFailure(records: seq<FlightRecord>, i: nat)
    requires i < |records| && TripDays(records[i]).Failure?
    requires forall j :: 0 <= j < i ==> TripDays(records[j]).Success?
    ensures ShortList(records) == Failure(TripDays(records[i]).error)
  {
    FirstFailureReported(records, Verdict, i);
  }

  /** `short_listed` keeps the order of the response's records. */
  lemma ShortListKeepsOrder(a: seq<FlightRecord>, b: seq<FlightRecord>)
    requires ShortList(a + b).Success?
    ensures ShortList(a).Success? && ShortList(b).Success?
    ensures ShortList(a + b).value == ShortList(a).value + ShortList(b).value
  {
    ComprehensionKeepsOrder(a, b, Verdict);
  }

  /** Every kept record appears in the short list as often as in the
      response, every other record not at all. */
  lemma ShortListCounts(records: seq<FlightRecord>, x: FlightRecord)
    requires ShortList(records).Success?
    ensures multiset(ShortList(records).value)[x] == if Kept(x) then multiset(records)[x] else 0
  {
    ComprehensionCounts(records, Verdict, x);
  }

  /** The short list holds exactly the kept records of the response. */
  lemma ShortListMembers(records: seq<FlightRecord>)
    requires ShortList(records).Success?
    ensures forall x :: x in ShortList(records).value <==> x in records && Kept(x)
  {
    forall x {
      ShortListCounts(records, x);
    }
  }

  lemma ShortListIgnoresPrice(a: seq<FlightRecord>, b: seq<FlightRecord>)
    requires SameButPrice(a, b)
    ensures ShortList(a).Failure? <==> ShortList(b).Failure?
    ensures ShortList(a).Failure? ==> ShortList(a).error == ShortList(b).error
    ensures ShortList(a).Success? ==> SameButPrice(ShortList(a).value, ShortList(b).value)
  {
    forall i | 0 <= i < |a|
      ensures Verdict(a[i]) == Verdict(b[i])
    {
      assert a[i].(value := b[i].value) == b[i];
    }
    ComprehensionIgnoresPrice(a, b, Verdict);
  }

  lemma {:induction false} LeastMinutesIgnoresPrice(a: seq<FlightRecord>, b: seq<FlightRecord>)
    requires SameButPrice(a, b)
    ensures LeastMinutes(a) == LeastMinutes(b)
  {
    if a != [] {
      LeastMinutesIgnoresPrice(a[..|a| - 1], b[..|b| - 1]);
    }
  }

  lemma ShortestIgnoresPrice(a: seq<FlightRecord>, b: seq<FlightRecord>)
    requires SameButPrice(a, b)
    ensures Shortest(a) == Shortest(b)
  {
    LeastMinutesIgnoresPrice(a, b);
    assert forall j :: 0 <= j < |a| ==> a[j].duration == b[j].duration;
  }

  /** The price never influences the choice: responses that differ only in
      prices fail alike or pick the same offer. */
  lemma PriceIsIgnored(a: seq<FlightRecord>, b: seq<FlightRecord>)
    requires SameButPrice(a, b)
    ensures var ra, rb := BestFlight(PriceResponse(Some(a))), BestFlight(PriceResponse(Some(b)));
      (ra.Failure? <==> rb.Failure?) && (ra.Failure? ==> ra.error == rb.error)
      && (ra.Success? ==> ra.value.(value := rb.value.value) == rb.value)
  {
    ShortListIgnoresPrice(a, b);
    if ShortList(a).Success? {
      ShortestIgnoresPrice(ShortList(a).value, ShortList(b).value);
    }
  }
}

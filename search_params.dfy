/** `FlightSearchParams`: the nine search fields sent to the price API, and
    `to_dict`, which lays them out as query parameters. Nothing is checked or
    converted on the way: a field holds whatever the caller passed. */
module SearchParams {

  import opened Wrappers

  /** A field value as the caller passes it: the code sends strings and
      integers (`page=1`, `limit=30`, `unique="true"`, ...). */
  datatype ParamValue = Text(s: string) | Number(n: int)

  /** The record `FlightSearchParams.__init__` builds. The fields are listed
      in the constructor's parameter order, so `limit` comes last and
      defaults to 30, as in the source. The object is never changed after it
      is built, so it is a value here. */
  datatype FlightSearchParams = FlightSearchParams(
    origin: ParamValue,
    destination: ParamValue,
    currency: ParamValue,
    page: ParamValue,
    unique: ParamValue,
    sorting: ParamValue,
    beginningOfPeriod: ParamValue,
    periodType: ParamValue,
    limit: ParamValue := Number(30))

  /** The nine query-parameter names `to_dict` uses. */
  const ParamNames: set<string> :=
    {"origin", "destination", "currency", "page", "limit", "unique", "sorting",
     "beginning_of_period", "period_type"}

  /** `to_dict`: every field under its own name, nothing else. */
  function ToDict(p: FlightSearchParams): (m: map<string, ParamValue>)
    ensures m.Keys == ParamNames
    ensures m["origin"] == p.origin && m["destination"] == p.destination
    ensures m["currency"] == p.currency && m["page"] == p.page && m["limit"] == p.limit
    ensures m["unique"] == p.unique && m["sorting"] == p.sorting
    ensures m["beginning_of_period"] == p.beginningOfPeriod && m["period_type"] == p.periodType
  {
    map[
      "origin" := p.origin,
      "destination" := p.destination,
      "currency" := p.currency,
      "page" := p.page,
      "limit" := p.limit,
      "unique" := p.unique,
      "sorting" := p.sorting,
      "beginning_of_period" := p.beginningOfPeriod,
      "period_type" := p.periodType]
  }

  /** Reading the nine fields back out of a parameter map, as the receiving
      side does; `None` when one of the names is missing. */
  function FromDict(m: map<string, ParamValue>): (r: Option<FlightSearchParams>)
    ensures r.Some? <==> ParamNames <= m.Keys
  {
    if ParamNames <= m.Keys then
      Some(FlightSearchParams(
        origin := m["origin"], destination := m["destination"], currency := m["currency"],
        page := m["page"], unique := m["unique"], sorting := m["sorting"],
        beginningOfPeriod := m["beginning_of_period"], periodType := m["period_type"],
        limit := m["limit"]))
    else
      None
  }

  /** Serialising and reading back gives the original nine values. */
  lemma ToDictRoundTrip(p: FlightSearchParams)
    ensures FromDict(ToDict(p)) == Some(p)
  {
  }

  /** A map with exactly the nine names is the serialisation of what is read
      from it: `ToDict` loses nothing and adds nothing. */
  lemma FromDictRoundTrip(m: map<string, ParamValue>)
    requires m.Keys == ParamNames
    ensures FromDict(m).Some? && ToDict(FromDict(m).value) == m
  {
  }

  /** `ToDict` is one-to-one: two different searches never send the same
      parameters. */
  lemma ToDictInjective(p: FlightSearchParams, q: FlightSearchParams)
    requires ToDict(p) == ToDict(q)
    ensures p == q
  {
    ToDictRoundTrip(p);
    ToDictRoundTrip(q);
  }

  /** Without an explicit `limit`, the request asks for 30 results. */
  lemma DefaultLimitIs30(origin: ParamValue, destination: ParamValue, currency: ParamValue,
                         page: ParamValue, unique: ParamValue, sorting: ParamValue,
                         beginningOfPeriod: ParamValue, periodType: ParamValue)
    ensures ToDict(FlightSearchParams(origin, destination, currency, page, unique, sorting,
                                      beginningOfPeriod, periodType))["limit"] == Number(30)
  {
  }
}

/**
 * The HTTP endpoints under `/api/v1`: argument parsing, response shaping and
 * the wrapping of any failure of the service call into a 500 reply. An error
 * raised inside a read endpoint, by the database for instance, is an input
 * here (`fault`), carrying the text of the raised error; the fetch endpoint
 * receives the outcome of the remote call as a `Result`.
 */
module Controllers {
  import opened Wrappers
  import opened Text
  import opened Models
  import opened Filters
  import opened Pagination
  import opened GeoNames
  import opened Ingestion

  /** A JSON reply body. */
  datatype Body =
    | PageBody(data: seq<Record>, total: nat, pages: nat, currentPage: nat, perPage: nat)
    | PlaceNames(distinctGeoPlaceNames: seq<string>)
    | Message(message: string)
    | ErrorBody(error: string)

  datatype Response = Response(body: Body, status: nat)

  /** The reply of the `except` clause shared by the data endpoints: a 500 carrying the error text. */
  function ErrorResponse(message: string): (r: Response)
    ensures r.status == 500 && r.body.ErrorBody? && r.body.error == message
  {
    Response(ErrorBody(message), 500)
  }

  /** `try: <success> except Exception as e: <500 with str(e)>`, with the raised error as input. */
  function Guard(fault: Option<string>, success: Response): (r: Response)
    ensures fault.Some? ==> r.status == 500 && r.body == ErrorBody(fault.value)
    ensures fault.None? ==> r == success
  {
    match fault
    case Some(message) => ErrorResponse(message)
    case None => success
  }

  /** `args.get(key, fallback)`: the argument when it is given, otherwise the fallback. */
  function ArgOr(args: map<string, string>, key: string, fallback: string): (v: string)
    ensures key in args ==> v == args[key]
    ensures key !in args ==> v == fallback
  {
    if key in args then args[key] else fallback
  }

  /** `int(text) if text.isdigit() else default`, for ASCII text. */
  function ParseIntOrDefault(text: string, default: nat): (n: nat)
    ensures IsDigits(text) ==> n == DigitsValue(text)
    ensures !IsDigits(text) ==> n == default
  {
    if IsDigits(text) then DigitsValue(text) else default
  }

  /** A rendered number parses back to itself, whatever the default. */
  lemma ParseRendered(n: nat, default: nat)
    ensures ParseIntOrDefault(NatToString(n), default) == n
  {
    NatToStringRoundTrip(n);
  }

  /** The parse of some telling inputs: empty, letters and a sign give the default, "0" gives 0. */
  lemma ParseExamples()
    ensures ParseIntOrDefault("", 1) == 1
    ensures ParseIntOrDefault("abc", 1) == 1
    ensures ParseIntOrDefault("-1", 1) == 1
    ensures ParseIntOrDefault("0", 1) == 0
    ensures ParseIntOrDefault("007", 10) == 7
    ensures ParseIntOrDefault("25", 10) == 25
  {
    assert "abc"[0] == 'a';
    assert "-1"[0] == '-';
    assert "007"[..2] == "00" && "00"[..1] == "0" && "0"[..0] == "";
    assert "25"[..1] == "2" && "2"[..0] == "";
  }

  /** The `page` argument: 1 when missing or not all digits, otherwise its value (so "0" gives 0). */
  function PageArg(args: map<string, string>): (page: nat)
    ensures "page" !in args ==> page == 1
    ensures "page" in args && !IsDigits(args["page"]) ==> page == 1
    ensures "page" in args && IsDigits(args["page"]) ==> page == DigitsValue(args["page"])
  {
    var text := ArgOr(args, "page", "1");
    assert text == "1" ==> IsDigits(text) && text[..0] == "";
    ParseIntOrDefault(text, 1)
  }

  /** The `per_page` argument: 10 when missing or not all digits, otherwise its value. */
  function PerPageArg(args: map<string, string>): (perPage: nat)
    ensures "per_page" !in args ==> perPage == 10
    ensures "per_page" in args && !IsDigits(args["per_page"]) ==> perPage == 10
    ensures "per_page" in args && IsDigits(args["per_page"]) ==> perPage == DigitsValue(args["per_page"])
  {
    var text := ArgOr(args, "per_page", "10");
    assert "10"[..1] == "1" && "1"[..0] == "";
    assert IsDigits("10") && DigitsValue("10") == 10;
    ParseIntOrDefault(text, 10)
  }

  /** The filter map: the arguments with `page` and `per_page` popped, everything else as given. */
  function FilterArgs(args: map<string, string>): (filters: map<string, string>)
    ensures filters.Keys == args.Keys - {"page", "per_page"}
    ensures forall k :: k in filters ==> filters[k] == args[k]
  {
    var withoutPage := args - {"page"};
    withoutPage - {"per_page"}
  }

  /**
   * `GET /air-quality`. None stands for a page number or page size of 0,
   * whose handling belongs to the pagination library and is not modelled.
   */
  function GetAirQuality(args: map<string, string>, table: seq<Record>, fault: Option<string>): (r: Option<Response>)
    ensures fault.Some? ==> r == Some(ErrorResponse(fault.value))
    ensures fault.None? ==> (r.Some? <==> PageArg(args) >= 1 && PerPageArg(args) >= 1)
    ensures fault.None? && r.Some? ==> r.value.status == 200 && r.value.body.PageBody?
  {
    match fault
    case Some(message) => Some(ErrorResponse(message))
    case None =>
      var page := PageArg(args);
      var perPage := PerPageArg(args);
      var filters := FilterArgs(args);
      match GetPaginatedData(table, filters, page, perPage)
      case None => None
      case Some(p) => Some(Response(PageBody(p.items, p.total, p.pages, p.page, p.perPage), 200))
  }

  /**
   * A successful `GET /air-quality` reply carries the page of the filtered
   * table exactly as the pagination produced it, every record in it matches
   * every filter argument, and it holds at most `per_page` records.
   */
  lemma AirQualityReply(args: map<string, string>, table: seq<Record>)
    requires PageArg(args) >= 1 && PerPageArg(args) >= 1
    ensures var r := GetAirQuality(args, table, None);
      var p := Paginate(FilterRecords(table, FilterArgs(args)), PageArg(args), PerPageArg(args));
      && r.Some? && r.value.status == 200
      && r.value.body == PageBody(p.items, p.total, p.pages, p.page, p.perPage)
      && |r.value.body.data| <= PerPageArg(args)
      && r.value.body.currentPage == PageArg(args)
      && r.value.body.total == |FilterRecords(table, FilterArgs(args))|
      && forall x :: x in r.value.body.data ==> x in table && MatchesAll(x, FilterArgs(args))
  {
    var page, perPage, filters := PageArg(args), PerPageArg(args), FilterArgs(args);
    forall x | x in GetAirQuality(args, table, None).value.body.data
      ensures x in table && MatchesAll(x, filters)
    {
      PageRecordsMatch(table, filters, page, perPage, x);
    }
  }

  /** `name=Ozone&page=1&per_page=5`: at most five records, each with "Ozone" in its name, reported as page 1. */
  lemma OzoneExample(table: seq<Record>)
    ensures var args := map["name" := "Ozone", "page" := "1", "per_page" := "5"];
      var r := GetAirQuality(args, table, None);
      && r.Some? && r.value.status == 200
      && |r.value.body.data| <= 5
      && r.value.body.currentPage == 1
      && forall x :: x in r.value.body.data ==> Contains(x.name, "Ozone")
  {
    var args := map["name" := "Ozone", "page" := "1", "per_page" := "5"];
    assert "1"[..0] == "" && "5"[..0] == "";
    assert PageArg(args) == 1 && PerPageArg(args) == 5;
    assert FilterArgs(args) == map["name" := "Ozone"];
    AirQualityReply(args, table);
    var filters := FilterArgs(args);
    assert "name" in filters && filters["name"] == "Ozone";
    forall x | x in GetAirQuality(args, table, None).value.body.data ensures Contains(x.name, "Ozone") {
      assert MatchesAll(x, filters);
      assert Accepts(x, "name", filters["name"]);
    }
  }

  /** A malformed page number is read as page 1. */
  lemma MalformedPageIsFirst()
    ensures var args := map["page" := "abc"];
      PageArg(args) == 1 && PerPageArg(args) == 10
  {
    assert !('0' <= "abc"[0] <= '9');
  }

  /** `GET /air-quality/distinct-geo-place-names`. */
  function GetDistinctGeoPlaceNames(table: seq<Record>, fault: Option<string>): (r: Response)
    ensures fault.Some? ==> r == ErrorResponse(fault.value)
    ensures fault.None? ==> r.status == 200 && r.body.PlaceNames?
    ensures fault.None? ==> StrictlyAscending(r.body.distinctGeoPlaceNames)
    ensures fault.None? ==> forall n :: n in r.body.distinctGeoPlaceNames <==> n in PlaceNameSet(table)
  {
    Guard(fault, Response(PlaceNames(DistinctGeoPlaceNames(table)), 200))
  }

  /** Whatever the arguments and the table, a failing service call never yields a success reply. */
  lemma FailuresAre500(args: map<string, string>, table: seq<Record>, message: string)
    ensures GetAirQuality(args, table, Some(message)) == Some(ErrorResponse(message))
    ensures GetDistinctGeoPlaceNames(table, Some(message)) == ErrorResponse(message)
    ensures ErrorResponse(message).status == 500 && !ErrorResponse(message).body.PageBody?
      && !ErrorResponse(message).body.PlaceNames?
  {
  }

  /**
   * `POST /air-quality/fetch`: reports success exactly when ingestion
   * completes, and otherwise a 500 carrying the error, with nothing committed.
   */
  method FetchAirQuality(store: Store, fetched: Result<seq<Row>, string>) returns (r: Response)
    requires store.Valid()
    requires fetched.Success? ==> |fetched.value| <= FetchLimit
    modifies store
    ensures store.Valid()
    ensures r.status == 200 <==> fetched.Success? && DropIncomplete(fetched.value).Success?
    ensures r.status == 200 ==> r.body == Message("Data fetched successfully!")
    ensures r.status != 200 ==> r.status == 500 && r.body.ErrorBody?
    ensures fetched.Failure? ==> r == ErrorResponse(fetched.error)
    ensures fetched.Success? && DropIncomplete(fetched.value).Failure? ==>
      r == ErrorResponse(KeyErrorText(AbsentColumns(fetched.value, RequiredFields)))
    ensures r.status == 500 ==> store.records == old(store.records) && store.nextId == old(store.nextId)
    ensures r.status == 200 ==>
      store.records == old(store.records) + Admitted(old(store.records), DropIncomplete(fetched.value).value, old(store.nextId))
  {
    var outcome := store.FetchData(fetched);
    match outcome
    case Pass => r := Response(Message("Data fetched successfully!"), 200);
    case Fail(message) => r := ErrorResponse(message);
  }
}

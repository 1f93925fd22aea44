/** The `GET` handler of app/api/events/route.ts as a pure function: the query parameters,
    the answer of the upstream "on this day" feed and the deployment mode go in, a status
    and a JSON body come out. */
module Gateway {

  import opened Wrappers
  import Numbers
  import Classifier

  /** A historical event as the handler emits it and the view stores it; `category` and
      `links` are optional fields of the JSON object. */
  datatype HistoricalEvent = HistoricalEvent(
    year: int,
    event: string,
    category: Option<string>,
    links: Option<seq<string>>)

  /** A record of the upstream feed: a year, a text and, optionally, link objects. */
  datatype RawLink = RawLink(url: string)
  datatype RawRecord = RawRecord(year: int, text: string, links: Option<seq<RawLink>>)

  /** What the outbound request produced: a parsed event list, or a failure of any kind
      (a non-ok status, a network error, a body that is not the expected JSON). */
  datatype Upstream = Unavailable | Feed(records: seq<RawRecord>)

  /** The `month` and `day` query parameters; None when a parameter is absent. */
  datatype Request = Request(month: Option<string>, day: Option<string>)

  datatype Body =
    | ErrorBody(error: string)
    | EventsBody(date: string, events: seq<HistoricalEvent>, success: bool)

  datatype Response = Response(status: int, body: Body)

  const RequiredMessage := "Month and day parameters are required"
  const InvalidMessage := "Invalid month or day values"
  const FailedMessage := "Failed to fetch historical events"

  /** JavaScript truthiness of an optional string, such as `searchParams.get(...)` or an
      event's `category`: neither null/undefined nor "". */
  predicate Present(p: Option<string>)
  {
    p.Some? && p.value != ""
  }

  /** Both numbers parsed (neither is NaN) and lie in 1..12 and 1..31. */
  predicate InRange(month: Option<int>, day: Option<int>)
  {
    month.Some? && day.Some? && 1 <= month.value <= 12 && 1 <= day.value <= 31
  }

  /** The request passes both validation steps. */
  predicate Accepted(req: Request)
  {
    Present(req.month) && Present(req.day)
    && InRange(Numbers.ParseInt(req.month.value), Numbers.ParseInt(req.day.value))
  }

  // ---------------------------------------------------------------------------
  // The per-record transform.

  function Urls(links: seq<RawLink>): (urls: seq<string>)
    ensures |urls| == |links|
    ensures forall i :: 0 <= i < |links| ==> urls[i] == links[i].url
  {
    if links == [] then [] else [links[0].url] + Urls(links[1..])
  }

  /** `event.links?.map(link => link.url) || []`: the url of each link, in order, and
      nothing when the record has no links. */
  function LinkUrls(links: Option<seq<RawLink>>): (urls: seq<string>)
    ensures links.None? ==> urls == []
    ensures links.Some? ==> |urls| == |links.value|
    ensures links.Some? ==> forall i :: 0 <= i < |urls| ==> urls[i] == links.value[i].url
  {
    match links
    case None => []
    case Some(ls) => Urls(ls)
  }

  /** The record's year and text are kept; it always gets a truthy category, the one
      determineCategory gives, and a links list (possibly empty). */
  function Transform(raw: RawRecord): (e: HistoricalEvent)
    ensures e.year == raw.year && e.event == raw.text
    ensures e.category == Some(Classifier.Classify(raw.text, raw.year)) && e.category.value != ""
    ensures e.links.Some? && e.links.value == LinkUrls(raw.links)
  {
    HistoricalEvent(raw.year, raw.text, Some(Classifier.Classify(raw.text, raw.year)),
                    Some(LinkUrls(raw.links)))
  }

  function TransformAll(raws: seq<RawRecord>): (es: seq<HistoricalEvent>)
    ensures |es| == |raws|
    ensures forall i :: 0 <= i < |raws| ==> es[i] == Transform(raws[i])
  {
    if raws == [] then [] else [Transform(raws[0])] + TransformAll(raws[1..])
  }

  // ---------------------------------------------------------------------------
  // `.sort((a, b) => b.year - a.year)`: a stable sort, most recent year first.

  predicate DescendingByYear(s: seq<HistoricalEvent>)
  {
    forall i, j :: 0 <= i < j < |s| ==> s[i].year >= s[j].year
  }

  /** The events of year y, in their order in s. A stable sort keeps each of these. */
  function OfYear(s: seq<HistoricalEvent>, y: int): seq<HistoricalEvent>
  {
    if s == [] then [] else (if s[0].year == y then [s[0]] else []) + OfYear(s[1..], y)
  }

  lemma OfYearCons(e: HistoricalEvent, s: seq<HistoricalEvent>)
    ensures forall y :: OfYear([e] + s, y) == (if e.year == y then [e] else []) + OfYear(s, y)
  {
    assert ([e] + s)[0] == e && ([e] + s)[1..] == s;
  }

  /** x goes before the first event that is not more recent than itself. */
  function InsertByYear(x: HistoricalEvent, s: seq<HistoricalEvent>): seq<HistoricalEvent>
  {
    if s == [] || s[0].year <= x.year then [x] + s else [s[0]] + InsertByYear(x, s[1..])
  }

  lemma {:induction false} InsertPermutes(x: HistoricalEvent, s: seq<HistoricalEvent>)
    ensures multiset(InsertByYear(x, s)) == multiset(s) + multiset{x}
  {
    if s != [] && s[0].year > x.year {
      InsertPermutes(x, s[1..]);
      assert s == [s[0]] + s[1..];
    }
  }

  lemma {:induction false} InsertKeepsDescending(x: HistoricalEvent, s: seq<HistoricalEvent>)
    requires DescendingByYear(s)
    ensures DescendingByYear(InsertByYear(x, s))
  {
    if s != [] && s[0].year > x.year {
      var rest := InsertByYear(x, s[1..]);
      InsertKeepsDescending(x, s[1..]);
      InsertPermutes(x, s[1..]);
      forall e | e in rest
        ensures s[0].year >= e.year
      {
        assert e in multiset(rest);
        if e != x {
          assert e in s[1..];
        }
      }
    }
  }

  /** Inserting x adds x to its own year's events, in front, and leaves other years alone:
      x only ever passes events of a more recent year. */
  lemma {:induction false} InsertKeepsYearOrder(x: HistoricalEvent, s: seq<HistoricalEvent>)
    ensures forall y :: OfYear(InsertByYear(x, s), y) == (if x.year == y then [x] else []) + OfYear(s, y)
  {
    if s == [] || s[0].year <= x.year {
      OfYearCons(x, s);
    } else {
      var rest := InsertByYear(x, s[1..]);
      InsertKeepsYearOrder(x, s[1..]);
      OfYearCons(s[0], rest);
    }
  }

  /** The stable sort: the result is a permutation of the input, most recent year first,
      and the events of each year keep their input order. */
  function SortByYearDesc(s: seq<HistoricalEvent>): (r: seq<HistoricalEvent>)
    ensures multiset(r) == multiset(s)
    ensures DescendingByYear(r)
    ensures forall y :: OfYear(r, y) == OfYear(s, y)
  {
    if s == [] then []
    else
      var sorted := SortByYearDesc(s[1..]);
      InsertPermutes(s[0], sorted);
      InsertKeepsDescending(s[0], sorted);
      InsertKeepsYearOrder(s[0], sorted);
      assert s == [s[0]] + s[1..];
      InsertByYear(s[0], sorted)
  }

  /** The events of year y are the events of s that have year y. */
  lemma {:induction false} OfYearMembers(s: seq<HistoricalEvent>, y: int)
    ensures forall e :: e in OfYear(s, y) <==> e in s && e.year == y
  {
    if s != [] {
      OfYearMembers(s[1..], y);
      assert s == [s[0]] + s[1..];
    }
  }

  /** The first event of s is among the events of its own year. */
  lemma OfYearOfFirst(s: seq<HistoricalEvent>)
    requires s != []
    ensures OfYear(s, s[0].year) != []
  {
  }

  /** Descending by year and each year's events in a given order leave one arrangement:
      whatever sorts that way equals the result of SortByYearDesc. */
  lemma {:induction false} StableOrderUnique(a: seq<HistoricalEvent>, b: seq<HistoricalEvent>)
    requires DescendingByYear(a) && DescendingByYear(b)
    requires forall y :: OfYear(a, y) == OfYear(b, y)
    ensures a == b
    decreases |a|
  {
    if a == [] || b == [] {
      if a != [] {
        OfYearOfFirst(a);
      } else if b != [] {
        OfYearOfFirst(b);
      }
    } else {
      var m, n := a[0].year, b[0].year;
      OfYearMembers(a, n);
      OfYearMembers(b, m);
      assert a[0] in OfYear(b, m);
      assert b[0] in OfYear(a, n);
      assert m == n;
      assert a[0] == OfYear(a, m)[0] == OfYear(b, m)[0] == b[0];
      forall y
        ensures OfYear(a[1..], y) == OfYear(b[1..], y)
      {
        assert OfYear(a, y) == OfYear(b, y);
        if m == y {
          assert OfYear(a[1..], y) == OfYear(a, y)[1..];
          assert OfYear(b[1..], y) == OfYear(b, y)[1..];
        } else {
          assert OfYear(a[1..], y) == OfYear(a, y);
          assert OfYear(b[1..], y) == OfYear(b, y);
        }
      }
      StableOrderUnique(a[1..], b[1..]);
      assert a == [a[0]] + a[1..] && b == [b[0]] + b[1..];
    }
  }

  /** JavaScript's stable sort with comparator `b.year - a.year` is pinned down by those two
      properties, so any arrangement having them is the one SortByYearDesc computes. */
  lemma SortIsTheStableSort(s: seq<HistoricalEvent>, t: seq<HistoricalEvent>)
    requires DescendingByYear(t) && forall y :: OfYear(t, y) == OfYear(s, y)
    ensures t == SortByYearDesc(s)
  {
    StableOrderUnique(t, SortByYearDesc(s));
  }

  // ---------------------------------------------------------------------------
  // The handler.

  /** The sample served in development mode when the upstream attempt fails. */
  const DevSampleEvents: seq<HistoricalEvent> := [
    HistoricalEvent(1776, "United States Declaration of Independence is adopted",
                    Some(Classifier.PoliticsLabel), None),
    HistoricalEvent(1802, "The United States Military Academy opens",
                    Some(Classifier.MilitaryLabel), None),
    HistoricalEvent(1886, "First transcontinental train arrives in Port Moody, BC",
                    Some(Classifier.ScienceLabel), None)
  ]

  /** GET /api/events?month=..&day=..; `devMode` is NODE_ENV === 'development'. The
      validation responses are returned inside the `try`, so neither depends on the mode. */
  function Get(req: Request, upstream: Upstream, devMode: bool): (r: Response)
    ensures r.status == 200 || r.status == 400 || r.status == 500
    ensures r.status == 200 <==> r.body.EventsBody?
    ensures r.body.EventsBody? ==> r.body.success
    ensures r.status == 400 <==> !Accepted(req)
    ensures r.status == 500 <==> Accepted(req) && upstream.Unavailable? && !devMode
  {
    if !Present(req.month) || !Present(req.day) then
      Response(400, ErrorBody(RequiredMessage))
    else
      var month := Numbers.ParseInt(req.month.value);
      var day := Numbers.ParseInt(req.day.value);
      if !InRange(month, day) then
        Response(400, ErrorBody(InvalidMessage))
      else
        match upstream
        case Feed(records) =>
          var date := Numbers.IntToString(month.value) + "-" + Numbers.IntToString(day.value);
          Response(200, EventsBody(date, SortByYearDesc(TransformAll(records)), true))
        case Unavailable =>
          if devMode then
            Response(200, EventsBody(req.month.value + "-" + req.day.value, DevSampleEvents, true))
          else
            Response(500, ErrorBody(FailedMessage))
  }

  // ---------------------------------------------------------------------------
  // What the handler promises.

  /** A missing or empty parameter gives 400 "required", in both modes, whatever upstream
      would have answered. */
  lemma MissingParameterRejected(req: Request, upstream: Upstream, devMode: bool)
    requires !Present(req.month) || !Present(req.day)
    ensures Get(req, upstream, devMode) == Response(400, ErrorBody(RequiredMessage))
  {
  }

  /** Both parameters present, but one is not a number or is out of range: 400 "invalid",
      in both modes. */
  lemma InvalidValuesRejected(req: Request, upstream: Upstream, devMode: bool)
    requires Present(req.month) && Present(req.day) && !Accepted(req)
    ensures Get(req, upstream, devMode) == Response(400, ErrorBody(InvalidMessage))
  {
  }

  /** Status 400 is given exactly to the requests that fail validation, and a rejected
      request gets the same response whatever upstream and the mode are: the development
      fallback never covers a validation error. */
  lemma RejectedExactlyWhenInvalid(req: Request, upstream: Upstream, devMode: bool,
                                   upstream': Upstream, devMode': bool)
    ensures Get(req, upstream, devMode).status == 400 <==> !Accepted(req)
    ensures !Accepted(req) ==> Get(req, upstream, devMode) == Get(req, upstream', devMode')
  {
  }

  /** Day 31 is accepted for every month: validation knows nothing of month lengths. */
  lemma Day31AcceptedInEveryMonth(month: int, upstream: Upstream, devMode: bool)
    requires 1 <= month <= 12
    ensures Accepted(Request(Some(Numbers.IntToString(month)), Some("31")))
    ensures Get(Request(Some(Numbers.IntToString(month)), Some("31")), upstream, devMode).status != 400
  {
    Numbers.ParseIntToString(month);
    Numbers.ParseIntToString(31);
    assert Numbers.NatToString(3) == "3";
    assert Numbers.IntToString(31) == "31";
  }

  /** Every month 1..12 and day 1..31, written as `${n}` writes them, is accepted; with the
      rejection lemmas this makes validation an exact range check. */
  lemma ValidDatesAccepted(month: int, day: int)
    requires 1 <= month <= 12 && 1 <= day <= 31
    ensures Accepted(Request(Some(Numbers.IntToString(month)), Some(Numbers.IntToString(day))))
  {
    Numbers.ParseIntToString(month);
    Numbers.ParseIntToString(day);
  }

  /** Month 13 and day 0 are rejected as invalid. */
  lemma OutOfRangeRejected(upstream: Upstream, devMode: bool)
    ensures Get(Request(Some("13"), Some("4")), upstream, devMode) == Response(400, ErrorBody(InvalidMessage))
    ensures Get(Request(Some("7"), Some("0")), upstream, devMode) == Response(400, ErrorBody(InvalidMessage))
  {
    assert Numbers.ParseInt("13") == Some(13) by {
      assert Numbers.LeadingDigits("13") == "13";
      assert Numbers.DigitsValue("1") == 1;
    }
    assert Numbers.ParseInt("0") == Some(0) by {
      assert Numbers.LeadingDigits("0") == "0";
    }
  }

  /** On an upstream success: status 200, the date made of the parsed numbers, and events
      that are the per-record transforms, permuted into descending year order with the
      records of each year in upstream order. Each event carries the classifier's category
      for its own text and year, and its links. */
  lemma FeedAnswered(req: Request, records: seq<RawRecord>, devMode: bool)
    requires Accepted(req)
    ensures var r := Get(req, Feed(records), devMode);
      var month := Numbers.ParseInt(req.month.value).value;
      var day := Numbers.ParseInt(req.day.value).value;
      && r.status == 200
      && r.body == EventsBody(Numbers.IntToString(month) + "-" + Numbers.IntToString(day),
                              r.body.events, true)
      && multiset(r.body.events) == multiset(TransformAll(records))
      && DescendingByYear(r.body.events)
      && (forall y :: OfYear(r.body.events, y) == OfYear(TransformAll(records), y))
      && (forall e <- r.body.events :: exists raw <- records :: e == Transform(raw))
      && (forall e <- r.body.events ::
            e.category == Some(Classifier.Classify(e.event, e.year)) && e.links.Some?)
  {
    var events := SortByYearDesc(TransformAll(records));
    forall e | e in events
      ensures exists raw <- records :: e == Transform(raw)
    {
      assert e in multiset(events);
      assert e in TransformAll(records);
      var i :| 0 <= i < |records| && TransformAll(records)[i] == e;
      assert records[i] in records;
    }
  }

  /** On an upstream failure: in development mode, success with exactly the three sample
      events and a date echoing the raw parameters; otherwise 500 with the fixed message. */
  lemma UpstreamFailure(req: Request, devMode: bool)
    requires Accepted(req)
    ensures devMode ==> (Get(req, Unavailable, devMode) ==
      Response(200, EventsBody(req.month.value + "-" + req.day.value, DevSampleEvents, true)))
    ensures !devMode ==> Get(req, Unavailable, devMode) == Response(500, ErrorBody(FailedMessage))
  {
  }

  /** The sample holds 1776, 1802 and 1886 in that order: ascending, so it is the one
      successful body whose events are not most recent first. */
  lemma DevSampleAscending()
    ensures |DevSampleEvents| == 3
    ensures DevSampleEvents[0].year == 1776 && DevSampleEvents[1].year == 1802
    ensures DevSampleEvents[2].year == 1886
    ensures !DescendingByYear(DevSampleEvents)
  {
    assert DevSampleEvents[0].year < DevSampleEvents[1].year;
  }

  /** Every event of a successful body carries a non-empty category, on both paths. */
  lemma CategoriesAlwaysSet(req: Request, upstream: Upstream, devMode: bool)
    ensures var r := Get(req, upstream, devMode);
      r.body.EventsBody? ==>
        forall e <- r.body.events :: e.category.Some? && e.category.value != ""
  {
    var r := Get(req, upstream, devMode);
    if r.body.EventsBody? && upstream.Feed? {
      forall e | e in r.body.events
        ensures e.category.Some? && e.category.value != ""
      {
        FeedAnswered(req, upstream.records, devMode);
      }
    }
  }

  /** parseInt skips leading zeros. */
  lemma LeadingZerosParsed()
    ensures Numbers.ParseInt("07") == Some(7) && Numbers.ParseInt("04") == Some(4)
  {
    assert Numbers.LeadingDigits("07") == "07" && Numbers.DigitsValue("0") == 0;
    assert Numbers.LeadingDigits("04") == "04";
  }

  /** A feed answer prints the parsed numbers: "07" and "04" give the date "7-4". */
  lemma FeedDateIsParsed(records: seq<RawRecord>)
    ensures Get(Request(Some("07"), Some("04")), Feed(records), true).body.EventsBody?
    ensures Get(Request(Some("07"), Some("04")), Feed(records), true).body.date == "7-4"
  {
    LeadingZerosParsed();
    assert Numbers.IntToString(7) == "7" && Numbers.IntToString(4) == "4";
  }

  /** The development fallback echoes the raw parameters instead: "07-04". */
  lemma FallbackDateIsRaw()
    ensures Get(Request(Some("07"), Some("04")), Unavailable, true).body.EventsBody?
    ensures Get(Request(Some("07"), Some("04")), Unavailable, true).body.date == "07-04"
  {
    LeadingZerosParsed();
  }
}

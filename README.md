# Chronicles of Time — a Dafny model of its decision core

Chronicles of Time shows the historical events that happened on a calendar day. A server
route, `GET /api/events?month=..&day=..`, checks the query and asks an upstream
"on this day" feed for the events. It labels each event with a category and returns them
most recent first. A React component, `TodayInHistory`, loads those events. It derives the
list of categories, lets the reader filter by one, and chooses what to show.

This project models the part of that program that makes decisions, and proves properties of
it:

| file | module | models |
|---|---|---|
| wrappers.dfy | `Wrappers` | `Option`, for JSON fields and query parameters that may be absent |
| text.dfy | `Text` | the string operations the code relies on: `toLowerCase` (ASCII), `includes`, and the `<` order used by `Array.prototype.sort()` |
| numbers.dfy | `Numbers` | `${n}` for integers, and `parseInt` over an optional sign and a decimal-digit prefix |
| classifier.dfy | `Classifier` | `determineCategory`: ordered keyword rules, then the `Nth Century` fallback |
| gateway.dfy | `Gateway` | the `GET` handler as a pure function of the parameters, the upstream result and the deployment mode |
| timeline.dfy | `Timeline` | the component's state: pure derivations (category fill-in, category list, filter, what is rendered) and a `TimelineState` class whose methods are the state transitions of `fetchEvents`, the filter effect and the category setter |

The route's code is pure: map, sort and early returns. It is modelled as functions, with
lemmas stating what the route promises. The component's code is mixed:

- Its setter batches become methods of `TimelineState` that change its fields. Each method
  states the whole new state.
- Its `map`/`Set`/`sort`/`filter` expressions become functions.
- Every completed load keeps the invariant `Valid()`: all stored events have a category, and
  `categories` is the category list of the stored events.

## Notable behaviour of the code

- "Declaration of Independence is adopted by the United States" (1776) contains none of the
  keywords, so `determineCategory` labels it "18th Century", not "Politics & Leadership".
  Matching is by substring, so a keyword-free text always falls through to the century
  label. `Classifier.DeclarationIsUnclassified` proves this.
- The events of a feed answer are sorted by descending year. The three-event sample served
  in development mode is not: it is ascending (1776, 1802, 1886).
  `Gateway.DevSampleAscending` proves this.
- For any non-2xx status the client throws "Failed to fetch historical events" before it
  reads the body. So the handler's 400 texts ("Month and day parameters are required",
  "Invalid month or day values") never reach the page. `Timeline.ClientOfGateway` proves
  this.
- The development sample's date echoes the raw parameters ("07-04"). A feed answer prints
  the parsed numbers ("7-4"). `Gateway.FallbackDateIsRaw` and `Gateway.FeedDateIsParsed`
  show both.

## Model

| member | source | states |
|---|---|---|
| Text.Lower | app/api/events/route.ts:11 | lower-casing keeps the length and leaves no upper-case letter |
| Text.LowerIdempotent | app/api/events/route.ts:11 | lower-casing twice is lower-casing once |
| Text.LowerConcat | app/api/events/route.ts:11 | lower-casing distributes over concatenation |
| Text.MissingChar | app/api/events/route.ts:12 | `includes(k)` is false when the text lacks one of k's characters |
| Text.NotAcrossSeam | app/api/events/route.ts:12 | a keyword without character c occurs in x + y (y starting with c) only if it occurs in x or in y |
| Text.Contains | app/api/events/route.ts:12-21 | `includes(k)` holds only when k fits in the text, and holds when the text starts with k (so `""` is in every text); `Text.ContainsAt`, `Text.MissingChar` and `Text.NotAcrossSeam` give its other directions |
| Text.Below | components/todayinhistory.tsx:183 | the `<` of `sort()`: a proper prefix sorts first and no string is below itself; `Text.BelowTransitive` and `Text.BelowTotal` make it a strict total order |
| Text.BelowTransitive | components/todayinhistory.tsx:183 | the default string order of `sort()` is transitive |
| Text.BelowTotal | components/todayinhistory.tsx:183 | any two different strings are ordered one way or the other |
| Numbers.NatToString | app/api/events/route.ts:24 | `${n}` prints a non-empty digit string without a leading zero |
| Numbers.IntToString | app/api/events/route.ts:83 | `${i}` starts with '-' exactly for negative integers |
| Numbers.NatToStringValue | app/api/events/route.ts:24 | the printed digits denote n |
| Numbers.LeadingDigits | app/api/events/route.ts:40-41 | parseInt reads the longest digit prefix and stops at the first non-digit |
| Numbers.ParseInt | app/api/events/route.ts:40-41 | parseInt gives a number exactly when a digit starts the text after an optional sign (otherwise NaN), and a negative one only after '-'; `Numbers.ParseIntToString` is its round trip with `${i}` |
| Numbers.ParseNegatedDigits | app/api/events/route.ts:40-41 | '-', a digit run and then a non-digit parse to the negated value of the run |
| Numbers.ParseIntAfterToString | app/api/events/route.ts:40-41 | parseInt reads back `${i}` followed by anything that does not start with a digit |
| Numbers.ParseIntToString | app/api/events/route.ts:40-41 | parseInt(`${i}`) is i for every integer |
| Classifier.CenturyNumber | app/api/events/route.ts:24 | floor(year/100 + 1) is the c with 100(c-1) <= year < 100c |
| Classifier.CenturyLabel | app/api/events/route.ts:24 | the fallback label ends in the literal "th Century" |
| Classifier.CenturyLabelReadsBack | app/api/events/route.ts:24 | the number in front of the suffix is the century number |
| Classifier.Classify | app/api/events/route.ts:10-25 | the category is never empty |
| Classifier.FirstFiring | app/api/events/route.ts:12-23 | the index of the first rule whose keywords occur, no earlier rule firing |
| Classifier.CenturyLabelIsNoRuleLabel | app/api/events/route.ts:13-24 | the century label never equals one of the four rule labels |
| Classifier.ClassifyIsByTable | app/api/events/route.ts:10-25 | the if-chain equals the first-match reading of the rule table on every text and year |
| Classifier.ClassifiedAs | app/api/events/route.ts:12-23 | rule i's label is the result iff rule i's keywords occur and no earlier rule's do (rule 0 wins whatever else occurs) |
| Classifier.ClassifiedByCentury | app/api/events/route.ts:24 | the century label is the result iff no rule's keywords occur |
| Classifier.ClassifyRange | app/api/events/route.ts:10-25 | the result is one of the four labels or the century label of the year |
| Classifier.ClassifyIgnoresCase | app/api/events/route.ts:11 | a text and its lower-cased form get the same category |
| Classifier.WarBeforeArt | app/api/events/route.ts:12-13 | "War and art" is Military & War, though it also mentions "art" |
| Classifier.AwardIsMilitary | app/api/events/route.ts:12 | substring matching: "Award" contains "war" |
| Classifier.ShoemakingIsPolitics | app/api/events/route.ts:18-19 | "Shoemaking" contains "king" |
| Classifier.TeaPartyIsArts | app/api/events/route.ts:21-22 | "Tea party" contains "art" |
| Classifier.RomeBurnsInFirstCentury | app/api/events/route.ts:24 | a text without keywords in year 64 gets "1th Century" |
| Classifier.CenturyLabelOf | app/api/events/route.ts:24 | the label is the printed century number followed by "th Century" |
| Classifier.CenturyLabelOf1776 | app/api/events/route.ts:24 | 1776 gives "18th Century" |
| Classifier.CenturyLabelOf1800 | app/api/events/route.ts:24 | 1800 gives "19th Century": no adjustment at multiples of 100 |
| Classifier.CenturyLabelOf2001 | app/api/events/route.ts:24 | 2001 gives "21th Century": the suffix is always "th" |
| Classifier.CenturyLabelOfMinus44 | app/api/events/route.ts:24 | -44 gives "0th Century" |
| Classifier.CenturyLabelOfMinus150 | app/api/events/route.ts:24 | -150 gives "-1th Century" |
| Classifier.QuietIsCentury | app/api/events/route.ts:11-24 | a text in which no keyword occurs gets the century label |
| Classifier.QuietPieces | app/api/events/route.ts:12-21 | keyword-free words joined at spaces form a keyword-free text |
| Classifier.DeclarationIsUnclassified | app/api/events/route.ts:10-25 | "Declaration of Independence is adopted by the United States" in 1776 gets "18th Century" |
| Gateway.LinkUrls | app/api/events/route.ts:76 | `links?.map(link => link.url)`, or the empty list when the record has no links; otherwise one url per link, in order |
| Gateway.Transform | app/api/events/route.ts:72-77 | year and text are kept, the category is `determineCategory(text, year)` and never empty, and the links are the record's urls |
| Gateway.Urls | app/api/events/route.ts:76 | `links.map(link => link.url)`: same length, i-th url of the i-th link |
| Gateway.TransformAll | app/api/events/route.ts:70-79 | one event per record, the i-th the transform of the i-th record |
| Gateway.InsertPermutes | app/api/events/route.ts:80 | insertion adds exactly the inserted event |
| Gateway.InsertKeepsDescending | app/api/events/route.ts:80 | insertion into a descending list keeps it descending |
| Gateway.InsertKeepsYearOrder | app/api/events/route.ts:80 | the inserted event goes in front of the events of its year; every other year's events are unchanged |
| Gateway.SortByYearDesc | app/api/events/route.ts:80 | the sort permutes its input into non-increasing years, and the events of each year keep their input order (stability) |
| Gateway.OfYearMembers | app/api/events/route.ts:80 | the events of year y are the events that have year y |
| Gateway.StableOrderUnique | app/api/events/route.ts:80 | two descending lists with the same per-year order are equal |
| Gateway.SortIsTheStableSort | app/api/events/route.ts:80 | every descending arrangement with the input's per-year order is the result of the sort |
| Gateway.Get | app/api/events/route.ts:27-120 | the handler answers 200, 400 or 500; 200 exactly with an events body, which always has success true; 400 exactly for requests failing validation; 500 exactly for valid requests whose upstream attempt fails outside development mode (the paths are spelt out by the lemmas below) |
| Gateway.MissingParameterRejected | app/api/events/route.ts:33-38 | a missing or empty parameter gives 400 "Month and day parameters are required" in both modes, whatever upstream answers |
| Gateway.InvalidValuesRejected | app/api/events/route.ts:40-55 | a NaN or out-of-range month or day gives 400 "Invalid month or day values" in both modes |
| Gateway.RejectedExactlyWhenInvalid | app/api/events/route.ts:33-55 | status 400 exactly for requests failing validation; their response does not depend on upstream or mode |
| Gateway.Day31AcceptedInEveryMonth | app/api/events/route.ts:43-50 | day 31 passes validation in every month 1..12 |
| Gateway.ValidDatesAccepted | app/api/events/route.ts:40-55 | every month 1..12 and day 1..31 passes validation |
| Gateway.OutOfRangeRejected | app/api/events/route.ts:43-55 | month 13 and day 0 are rejected as invalid |
| Gateway.FeedAnswered | app/api/events/route.ts:70-86 | on upstream success: status 200, date `${monthNum}-${dayNum}`, success true, events a permutation of the transforms, non-increasing in year, ties in upstream order, each with the classifier's category and its links |
| Gateway.UpstreamFailure | app/api/events/route.ts:88-119 | on upstream failure: dev mode answers 200 with exactly the three sample events and the raw date; otherwise 500 "Failed to fetch historical events" |
| Gateway.DevSampleAscending | app/api/events/route.ts:95-111 | the sample constant `DevSampleEvents` holds 1776, 1802, 1886 in that order, so it is not descending |
| Gateway.CategoriesAlwaysSet | app/api/events/route.ts:75 | every event of a successful body has a non-empty category, on both paths |
| Gateway.LeadingZerosParsed | app/api/events/route.ts:40-41 | parseInt("07") is 7 and parseInt("04") is 4 |
| Gateway.FeedDateIsParsed | app/api/events/route.ts:83 | a feed answer to month "07", day "04" has date "7-4" |
| Gateway.FallbackDateIsRaw | app/api/events/route.ts:94 | the development fallback for the same request has date "07-04" |
| Timeline.FillCategory | components/todayinhistory.tsx:170-173 | the event keeps year, text and links; its category is its own when truthy, else the century label |
| Timeline.FillCategories | components/todayinhistory.tsx:170-173 | same length, each event filled in, every category truthy |
| Timeline.FillKeepsCategorised | components/todayinhistory.tsx:172 | events that all have a category are left unchanged |
| Timeline.FillIdempotent | components/todayinhistory.tsx:170-173 | filling in twice is filling in once |
| Timeline.GatewayEventsNeedNoFill | components/todayinhistory.tsx:170-173 | the fill-in changes nothing in a body this handler sends |
| Timeline.CategoryNames | components/todayinhistory.tsx:179-181 | c is listed iff some event's category is Some(c) with c non-empty |
| Timeline.Distinct | components/todayinhistory.tsx:177-182 | the Set keeps each value once and the same values |
| Timeline.SortNames | components/todayinhistory.tsx:183 | `sort()` returns an ascending permutation |
| Timeline.InsertNameAscending | components/todayinhistory.tsx:183 | insertion keeps a list ascending |
| Timeline.SortNamesDistinct | components/todayinhistory.tsx:183 | sorting a duplicate-free list keeps it duplicate-free |
| Timeline.CategoryList | components/todayinhistory.tsx:177-183 | `categories` is strictly ascending (so duplicate-free) and holds exactly the truthy categories of the events |
| Timeline.SortNamesStrict | components/todayinhistory.tsx:183 | sorting a duplicate-free list gives a strictly ascending list of the same names |
| Timeline.StrictlyAscendingUnique | components/todayinhistory.tsx:183 | a strictly ascending list is determined by its elements |
| Timeline.CategoryListIgnoresOrder | components/todayinhistory.tsx:177-183 | events in any order give the same category list |
| Timeline.OnlyCategory | components/todayinhistory.tsx:200 | an event is kept iff it is one of the events and has category c |
| Timeline.OnlyCategoryCounts | components/todayinhistory.tsx:200 | each event of category c is kept as often as it occurs, and no other event is |
| Timeline.OnlyCategoryKeepsOrder | components/todayinhistory.tsx:200 | the kept events are a subsequence of the events |
| Timeline.OnlyCategoryIdempotent | components/todayinhistory.tsx:200 | filtering the filtered list by the same c changes nothing |
| Timeline.FilterEvents | components/todayinhistory.tsx:198-204 | no (falsy) selection shows all events; selection c shows the order-preserving sub-list of events of category c, each as often as it occurs; each shown event is one of the events |
| Timeline.FilterIdempotent | components/todayinhistory.tsx:198-204 | filtering again by the same selection changes nothing |
| Timeline.OfferedCategoryShowsEvents | components/todayinhistory.tsx:50-53 | choosing a category the filter bar offers never gives an empty list |
| Timeline.Outcome | components/todayinhistory.tsx:158-188 | the load succeeds iff the status is 2xx and the body has success true, and the stored events are then the body's events; a thrown Error keeps its message and any other thrown value gives "An error occurred"; a non-2xx status gives "Failed to fetch historical events"; a 2xx error body gives its error when truthy, else "Failed to fetch events"; a 2xx events body without success gives "Failed to fetch events" |
| Timeline.ClientOfGateway | components/todayinhistory.tsx:160-162 | against this handler the client loads exactly the 200 answers; every other answer, a rejected request included, ends with "Failed to fetch historical events" |
| Timeline.EmptyStateMessage | components/todayinhistory.tsx:266-268 | with a selection the message contains the category and differs from the generic one; without, it is "No historical records found for this date." |
| Timeline.Render | components/todayinhistory.tsx:244-270 | spinner iff loading; cards, carrying the visible list, iff not loading and the list is non-empty; an empty list gets the message for the selection; filter bar, carrying the categories, iff not loading and categories exist; banner, carrying the error, iff the error is truthy |
| Timeline.TimelineState.constructor | components/todayinhistory.tsx:142-148 | the initial state: no events, no categories, no selection, no error, loading |
| Timeline.TimelineState.BeginLoad | components/todayinhistory.tsx:152-153 | a load starts by setting loading and clearing the error, nothing else |
| Timeline.TimelineState.StoreEvents | components/todayinhistory.tsx:170-191 | success: filled-in events, their category list, selection reset to none, loading off, invariant kept |
| Timeline.TimelineState.StoreError | components/todayinhistory.tsx:187-191 | failure: the error set, loading off, events, categories and selection unchanged |
| Timeline.TimelineState.FinishLoad | components/todayinhistory.tsx:160-191 | the end of a load, by its outcome: success as in StoreEvents, failure as in StoreError |
| Timeline.TimelineState.FetchEvents | components/todayinhistory.tsx:150-192 | one whole load: loading off on every path; on success the error cleared and the selection reset; on failure the message stored and the data left as they were; the invariant kept |
| Timeline.TimelineState.FilterEffect | components/todayinhistory.tsx:198-204 | the visible list becomes the filter of the events by the selection; nothing else changes |
| Timeline.TimelineState.SelectCategory | components/todayinhistory.tsx:254 | the setter changes the selection only |
| Timeline.LoadAndSettle | components/todayinhistory.tsx:194-204 | after a successful load and its effect: all loaded events visible, no banner, the filter bar offering the categories, the generic message when nothing was loaded |

## Left out

- Network I/O is left out: the outbound `fetch` to the feed, its headers and bearer token, `response.json()` and `console.error`. The model takes the upstream result as the input `Upstream`.
- `process.env.NODE_ENV` and the API key are left out. The mode is the input `devMode`.
- `NextResponse` and the HTTP framing are left out. A response is a status and a body datatype.
- Gateway.Get: an upstream body whose `events` is not an array, or a record without `text` (`toLowerCase` of undefined), makes the handler throw inside the `try`. That path is the same as a failed request, so the model folds it into `Unavailable`.
- Gateway.Transform: every modelled link has a `url`. In the code a link object without `url` throws nothing: `link.url` is undefined and that undefined stays in `links`. The model does not represent undefined entries.
- Text.Lower: folds only the ASCII letters A-Z. JavaScript's `toLowerCase` folds all of Unicode; the Kelvin sign, for example, becomes 'k' and can complete a keyword.
- Text.Below: compares Unicode scalar values. JavaScript compares UTF-16 code units, which orders characters above U+FFFF differently from those in U+E000..U+FFFF.
- Numbers.ParseInt: skips no leading whitespace and reads no `0x` prefix. It does not model the loss of precision above 2^53.
- Numbers.IntToString: does not model the exponent notation JavaScript uses from 10^21 up.
- Classifier.CenturyNumber: integer years only. Non-integer or huge floating-point years are left out.
- The sort comparator `b.year - a.year` is modelled for integer years only; NaN years are left out.
- The date navigation is left out: `date`, `handlePrevDay`/`handleNextDay`, `toLocaleDateString`, and building the request URL from `getMonth()`/`getDate()`. They depend on JavaScript's `Date` with the local time zone.
- The component's load is atomic in the model; overlapping `fetchEvents` calls, which can finish out of order, are left out.
- JSX and styling are left out: the markup of `CategoryFilter`, `HistoricalEventCard` and `DateNavigation`, the header and the footer. `Render` keeps only which parts appear and what they carry.
- app/layout.tsx is not part of this model. It holds only page metadata and the HTML shell.

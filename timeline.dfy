/** The state logic of the `TodayInHistory` component (components/todayinhistory.tsx): what
    `fetchEvents` derives from a loaded body (categories filled in, the sorted category list),
    the effect that keeps the visible list in step with the selection, and the choice of what
    the page shows. The component's state is a TimelineState object; each setter batch is one
    of its methods. */
module Timeline {

  import opened Wrappers
  import opened Text
  import Classifier
  import opened Gateway

  // ---------------------------------------------------------------------------
  // Filling in missing categories.

  /** `{...event, category: event.category || `${Math.floor(event.year/100 + 1)}th Century`}`:
      the event keeps every field, and a falsy category is replaced by the century label. */
  function FillCategory(e: HistoricalEvent): (r: HistoricalEvent)
    ensures r.year == e.year && r.event == e.event && r.links == e.links
    ensures Present(r.category)
    ensures Present(e.category) ==> r == e
    ensures !Present(e.category) ==> r.category == Some(Classifier.CenturyLabel(e.year))
  {
    if Present(e.category) then e else e.(category := Some(Classifier.CenturyLabel(e.year)))
  }

  /** Every event of es has a truthy category. */
  predicate AllCategorised(es: seq<HistoricalEvent>)
  {
    forall e <- es :: Present(e.category)
  }

  /** `data.events.map(...)` with the fill-in above. */
  function FillCategories(es: seq<HistoricalEvent>): (r: seq<HistoricalEvent>)
    ensures |r| == |es|
    ensures forall i :: 0 <= i < |es| ==> r[i] == FillCategory(es[i])
    ensures AllCategorised(r)
  {
    seq(|es|, i requires 0 <= i < |es| => FillCategory(es[i]))
  }

  /** Events that all have a category are left as they are; in particular filling in twice
      is filling in once. */
  lemma FillKeepsCategorised(es: seq<HistoricalEvent>)
    requires AllCategorised(es)
    ensures FillCategories(es) == es
  {
    assert forall i :: 0 <= i < |es| ==> FillCategories(es)[i] == es[i];
  }

  lemma FillIdempotent(es: seq<HistoricalEvent>)
    ensures FillCategories(FillCategories(es)) == FillCategories(es)
  {
    FillKeepsCategorised(FillCategories(es));
  }

  /** The handler already sets a category on every event it sends, so the client's fill-in
      changes nothing in what it receives from it. */
  lemma GatewayEventsNeedNoFill(req: Request, upstream: Upstream, devMode: bool)
    ensures var r := Get(req, upstream, devMode);
      r.body.EventsBody? ==> FillCategories(r.body.events) == r.body.events
  {
    var r := Get(req, upstream, devMode);
    if r.body.EventsBody? {
      CategoriesAlwaysSet(req, upstream, devMode);
      FillKeepsCategorised(r.body.events);
    }
  }

  // ---------------------------------------------------------------------------
  // The category list: `Array.from(new Set(cats.filter(c => !!c))).sort()`.

  /** The truthy categories of es, in event order. */
  function CategoryNames(es: seq<HistoricalEvent>): (r: seq<string>)
    ensures forall c :: c in r <==> exists e <- es :: e.category == Some(c) && c != ""
  {
    if es == [] then []
    else
      assert es == [es[0]] + es[1..];
      (if Present(es[0].category) then [es[0].category.value] else []) + CategoryNames(es[1..])
  }

  predicate NoDuplicates(s: seq<string>)
  {
    forall i, j :: 0 <= i < j < |s| ==> s[i] != s[j]
  }

  /** `Array.from(new Set(s))`: each value once, at its first occurrence. */
  function Distinct(s: seq<string>): (r: seq<string>)
    ensures NoDuplicates(r)
    ensures forall x :: x in r <==> x in s
    decreases |s|
  {
    if s == [] then []
    else
      var init, last := s[..|s| - 1], s[|s| - 1];
      assert s == init + [last];
      if last in init then Distinct(init) else Distinct(init) + [last]
  }

  /** No later element is `<` an earlier one. */
  predicate Ascending(s: seq<string>)
  {
    forall i, j :: 0 <= i < j < |s| ==> !Below(s[j], s[i])
  }

  /** Each element is `<` every later one. */
  predicate StrictlyAscending(s: seq<string>)
  {
    forall i, j :: 0 <= i < j < |s| ==> Below(s[i], s[j])
  }

  /** x goes before the first element that is not `<` x. */
  function InsertName(x: string, s: seq<string>): seq<string>
  {
    if s == [] then [x]
    else if Below(s[0], x) then [s[0]] + InsertName(x, s[1..])
    else [x] + s
  }

  lemma {:induction false} InsertNameMembers(x: string, s: seq<string>)
    ensures multiset(InsertName(x, s)) == multiset(s) + multiset{x}
  {
    if s != [] && Below(s[0], x) {
      InsertNameMembers(x, s[1..]);
      assert s == [s[0]] + s[1..];
    }
  }

  lemma {:induction false} InsertNameAscending(x: string, s: seq<string>)
    requires Ascending(s)
    ensures Ascending(InsertName(x, s))
  {
    if s == [] {
    } else if Below(s[0], x) {
      var t := InsertName(x, s[1..]);
      InsertNameAscending(x, s[1..]);
      InsertNameMembers(x, s[1..]);
      forall j | 0 <= j < |t|
        ensures !Below(t[j], s[0])
      {
        assert t[j] in multiset(s[1..]) + multiset{x};
        if t[j] == x {
          if Below(x, s[0]) {
            BelowTransitive(x, s[0], x);
          }
        } else {
          assert t[j] in s[1..];
        }
      }
    } else {
      forall j | 0 <= j < |s|
        ensures !Below(s[j], x)
      {
        BelowTotal(s[0], s[j]);
        if Below(s[j], x) && Below(s[0], s[j]) {
          BelowTransitive(s[0], s[j], x);
        }
      }
    }
  }

  lemma {:induction false} InsertNameFresh(x: string, s: seq<string>)
    requires NoDuplicates(s) && x !in s
    ensures NoDuplicates(InsertName(x, s))
  {
    if s != [] && Below(s[0], x) {
      InsertNameFresh(x, s[1..]);
      InsertNameMembers(x, s[1..]);
      assert s[0] !in multiset(s[1..]) + multiset{x};
    }
  }

  /** Array.prototype.sort() without a comparator, on strings. */
  function SortNames(s: seq<string>): (r: seq<string>)
    ensures Ascending(r)
    ensures multiset(r) == multiset(s)
  {
    if s == [] then []
    else
      var t := SortNames(s[1..]);
      InsertNameAscending(s[0], t);
      InsertNameMembers(s[0], t);
      assert s == [s[0]] + s[1..];
      InsertName(s[0], t)
  }

  lemma {:induction false} SortNamesDistinct(s: seq<string>)
    requires NoDuplicates(s)
    ensures NoDuplicates(SortNames(s))
  {
    if s != [] {
      var t := SortNames(s[1..]);
      SortNamesDistinct(s[1..]);
      assert s[0] !in s[1..];
      assert s[0] !in multiset(t);
      InsertNameFresh(s[0], t);
    }
  }

  /** The sorted, duplicate-free list of the categories the events carry: strictly
      ascending (so free of duplicates), holding exactly the truthy categories of the events. */
  function CategoryList(es: seq<HistoricalEvent>): (r: seq<string>)
    ensures StrictlyAscending(r)
    ensures forall c :: c in r <==> exists e <- es :: e.category == Some(c) && c != ""
  {
    var d := Distinct(CategoryNames(es));
    SortNamesStrict(d);
    SortNames(d)
  }

  /** Sorting a duplicate-free list gives a strictly ascending list of the same names. */
  lemma SortNamesStrict(d: seq<string>)
    requires NoDuplicates(d)
    ensures StrictlyAscending(SortNames(d))
    ensures forall c :: c in SortNames(d) <==> c in d
  {
    var r := SortNames(d);
    SortNamesDistinct(d);
    forall i, j | 0 <= i < j < |r|
      ensures Below(r[i], r[j])
    {
      BelowTotal(r[i], r[j]);
    }
    forall c
      ensures c in r <==> c in d
    {
      assert c in r <==> c in multiset(r);
    }
  }

  /** A strictly ascending list is determined by its elements: the category list does not
      depend on the order in which the events arrive. */
  lemma {:induction false} StrictlyAscendingUnique(a: seq<string>, b: seq<string>)
    requires StrictlyAscending(a) && StrictlyAscending(b)
    requires forall x :: x in a <==> x in b
    ensures a == b
    decreases |a|
  {
    if a != [] && b != [] {
      assert a[0] in b && b[0] in a;
      if a[0] != b[0] {
        var i :| 0 <= i < |b| && b[i] == a[0];
        var j :| 0 <= j < |a| && a[j] == b[0];
        BelowTransitive(a[0], b[0], a[0]);
      }
      forall x
        ensures x in a[1..] <==> x in b[1..]
      {
        if x in a[1..] {
          var k :| 1 <= k < |a| && a[k] == x;
          assert Below(a[0], a[k]);
          assert x in a && x in b;
          var m :| 0 <= m < |b| && b[m] == x;
          assert b[1..][m - 1] == x;
        }
        if x in b[1..] {
          var k :| 1 <= k < |b| && b[k] == x;
          assert Below(b[0], b[k]);
          assert x in b && x in a;
          var m :| 0 <= m < |a| && a[m] == x;
          assert a[1..][m - 1] == x;
        }
      }
      StrictlyAscendingUnique(a[1..], b[1..]);
      assert a == [a[0]] + a[1..] && b == [b[0]] + b[1..];
    } else if a != [] {
      FirstIsMember(a);
    } else if b != [] {
      FirstIsMember(b);
    }
  }

  lemma FirstIsMember(s: seq<string>)
    requires s != []
    ensures s[0] in s
  {
  }

  lemma CategoryListIgnoresOrder(es: seq<HistoricalEvent>, es': seq<HistoricalEvent>)
    requires multiset(es) == multiset(es')
    ensures CategoryList(es) == CategoryList(es')
  {
    forall e
      ensures e in es <==> e in es'
    {
      assert e in es <==> e in multiset(es);
      assert e in es' <==> e in multiset(es');
    }
    StrictlyAscendingUnique(CategoryList(es), CategoryList(es'));
  }

  // ---------------------------------------------------------------------------
  // The filter effect: `events.filter(event => event.category === selectedCategory)`.

  /** The events whose category is exactly c, each as often as in es. */
  function OnlyCategory(es: seq<HistoricalEvent>, c: string): (r: seq<HistoricalEvent>)
    ensures forall e :: e in r <==> e in es && e.category == Some(c)
  {
    if es == [] then []
    else
      assert es == [es[0]] + es[1..];
      (if es[0].category == Some(c) then [es[0]] else []) + OnlyCategory(es[1..], c)
  }

  /** Filtering keeps every event of category c as often as it occurs, and no other. */
  lemma {:induction false} OnlyCategoryCounts(es: seq<HistoricalEvent>, c: string)
    ensures forall e :: multiset(OnlyCategory(es, c))[e]
                        == (if e.category == Some(c) then multiset(es)[e] else 0)
  {
    if es != [] {
      OnlyCategoryCounts(es[1..], c);
      assert es == [es[0]] + es[1..];
      var head := if es[0].category == Some(c) then [es[0]] else [];
      assert OnlyCategory(es, c) == head + OnlyCategory(es[1..], c);
      assert multiset(OnlyCategory(es, c)) == multiset(head) + multiset(OnlyCategory(es[1..], c));
    }
  }

  /** a can be obtained from b by deleting elements. */
  predicate IsSubsequence(a: seq<HistoricalEvent>, b: seq<HistoricalEvent>)
    decreases |b|
  {
    if a == [] then true
    else if b == [] then false
    else if a[0] == b[0] then IsSubsequence(a[1..], b[1..])
    else IsSubsequence(a, b[1..])
  }

  /** Filtering keeps the events in the order they had. */
  lemma {:induction false} OnlyCategoryKeepsOrder(es: seq<HistoricalEvent>, c: string)
    ensures IsSubsequence(OnlyCategory(es, c), es)
  {
    if es != [] {
      OnlyCategoryKeepsOrder(es[1..], c);
      var r, rest := OnlyCategory(es, c), OnlyCategory(es[1..], c);
      if es[0].category == Some(c) {
        assert r == [es[0]] + rest;
        assert r[0] == es[0] && r[1..] == rest;
      } else {
        assert r == rest;
        if rest != [] {
          assert rest[0] in rest;
          assert rest[0] != es[0];
        }
      }
    }
  }

  lemma {:induction false} OnlyCategoryIdempotent(es: seq<HistoricalEvent>, c: string)
    ensures OnlyCategory(OnlyCategory(es, c), c) == OnlyCategory(es, c)
  {
    if es != [] {
      OnlyCategoryIdempotent(es[1..], c);
      var r, rest := OnlyCategory(es, c), OnlyCategory(es[1..], c);
      if es[0].category == Some(c) {
        assert r == [es[0]] + rest;
        assert r[0] == es[0] && r[1..] == rest;
      } else {
        assert r == rest;
      }
    }
  }

  /** `filteredEvents` for the selection sel: with no (falsy) selection all events; with
      one, the order-preserving sub-list of the events whose category is the selection, each
      as often as in es. */
  function FilterEvents(es: seq<HistoricalEvent>, sel: Option<string>): (f: seq<HistoricalEvent>)
    ensures !Present(sel) ==> f == es
    ensures Present(sel) ==> forall e ::
      multiset(f)[e] == if e.category == sel then multiset(es)[e] else 0
    ensures IsSubsequence(f, es)
    ensures forall e <- f :: e in es
  {
    if Present(sel) then
      OnlyCategoryKeepsOrder(es, sel.value);
      OnlyCategoryCounts(es, sel.value);
      OnlyCategory(es, sel.value)
    else
      SubsequenceOfItself(es);
      es
  }

  lemma {:induction false} SubsequenceOfItself(s: seq<HistoricalEvent>)
    ensures IsSubsequence(s, s)
  {
    if s != [] {
      SubsequenceOfItself(s[1..]);
    }
  }

  /** Filtering the visible list again by the same selection changes nothing. */
  lemma FilterIdempotent(es: seq<HistoricalEvent>, sel: Option<string>)
    ensures FilterEvents(FilterEvents(es, sel), sel) == FilterEvents(es, sel)
  {
    if Present(sel) {
      OnlyCategoryIdempotent(es, sel.value);
    }
  }

  /** Choosing one of the offered categories never leaves an empty list. */
  lemma OfferedCategoryShowsEvents(es: seq<HistoricalEvent>, c: string)
    requires c in CategoryList(es)
    ensures FilterEvents(es, Some(c)) != []
  {
    var e :| e in es && e.category == Some(c) && c != "";
    assert e in FilterEvents(es, Some(c));
  }

  // ---------------------------------------------------------------------------
  // What one `fetchEvents` call ends with.

  /** How the `fetch` call ended: it threw (an Error carrying its message, or some other
      value: None), or a response arrived whose JSON body parsed. */
  datatype FetchResult = Threw(message: Option<string>) | Received(response: Response)

  /** The try block either reaches `setEvents` with the body's events, or throws. */
  datatype LoadOutcome = Loaded(events: seq<HistoricalEvent>) | Failed(message: string)

  const NotOkMessage := "Failed to fetch historical events"
  const NoSuccessMessage := "Failed to fetch events"
  const UnknownErrorMessage := "An error occurred"

  /** `response.ok` is a status in 200..299; a body without `success: true` throws
      `data.error || 'Failed to fetch events'`; the catch keeps an Error's message. */
  function Outcome(result: FetchResult): (o: LoadOutcome)
    ensures o.Loaded? <==> result.Received? && 200 <= result.response.status <= 299
                           && result.response.body.EventsBody? && result.response.body.success
    ensures o.Loaded? ==> o.events == result.response.body.events
    ensures result.Threw? ==>
      o == Failed(if result.message.Some? then result.message.value else UnknownErrorMessage)
    ensures result.Received? && !(200 <= result.response.status <= 299) ==>
      o == Failed(NotOkMessage)
    ensures result.Received? && 200 <= result.response.status <= 299
            && result.response.body.ErrorBody? ==>
      o == Failed(if result.response.body.error != "" then result.response.body.error
                  else NoSuccessMessage)
    ensures result.Received? && 200 <= result.response.status <= 299
            && result.response.body.EventsBody? && !result.response.body.success ==>
      o == Failed(NoSuccessMessage)
  {
    match result
    case Threw(m) => Failed(if m.Some? then m.value else UnknownErrorMessage)
    case Received(response) =>
      if !(200 <= response.status <= 299) then Failed(NotOkMessage)
      else
        match response.body
        case EventsBody(_, events, success) =>
          if success then Loaded(events) else Failed(NoSuccessMessage)
        case ErrorBody(message) =>
          Failed(if message != "" then message else NoSuccessMessage)
  }

  /** Against this handler the client loads exactly the 200 answers, and every other answer
      ends with the fixed not-ok message: the 400 texts the handler sends are never read,
      because `!response.ok` throws before the body is parsed. */
  lemma ClientOfGateway(req: Request, upstream: Upstream, devMode: bool)
    ensures var r := Get(req, upstream, devMode);
      Outcome(Received(r)) == if r.status == 200 then Loaded(r.body.events) else Failed(NotOkMessage)
    ensures var r := Get(req, upstream, devMode);
      !Accepted(req) ==> Outcome(Received(r)) == Failed(FailedMessage)
  {
  }

  // ---------------------------------------------------------------------------
  // What the page shows.

  const NoRecordsMessage := "No historical records found for this date."
  const InCategoryPrefix := "No historical records found in \""
  const InCategorySuffix := "\" for this date."

  /** The empty-state text: with a truthy selection it names the category and differs from
      the generic message; with no selection it is the generic message. */
  function EmptyStateMessage(sel: Option<string>): (m: string)
    ensures Present(sel) ==> Contains(m, sel.value)
    ensures Present(sel) ==> m != NoRecordsMessage
    ensures !Present(sel) ==> m == NoRecordsMessage
  {
    if Present(sel) then
      var m := InCategoryPrefix + sel.value + InCategorySuffix;
      MessageTexts(InCategoryPrefix, NoRecordsMessage);
      assert m[32..32 + |sel.value|] == sel.value;
      ContainsAt(m, sel.value, 32);
      assert m[28] == InCategoryPrefix[28];
      m
    else
      NoRecordsMessage
  }

  lemma MessageTexts(p: string, g: string)
    requires p == InCategoryPrefix && g == NoRecordsMessage
    ensures |p| == 32 && |g| > 28 && p[28] != g[28]
  {
  }

  /** The main panel: the spinner, the empty-state notice, or the event cards. */
  datatype Panel = Spinner | EmptyNotice(message: string) | Cards(events: seq<HistoricalEvent>)

  /** The error banner (when shown), the category filter bar (when shown, with its
      categories), and the main panel. */
  datatype Screen = Screen(banner: Option<string>, filterBar: Option<seq<string>>, panel: Panel)

  /** The JSX of lines 244-270, reduced to which parts appear and what they carry. The
      spinner replaces the list while loading; otherwise the list is shown exactly when it is
      not empty, and an empty list gets the message for the selection. The filter bar never
      shows while loading or without categories; the banner shows a truthy error. */
  function Render(loading: bool, error: Option<string>, categories: seq<string>,
                  selectedCategory: Option<string>, filteredEvents: seq<HistoricalEvent>): (s: Screen)
    ensures s.panel == Spinner <==> loading
    ensures s.panel.Cards? <==> !loading && filteredEvents != []
    ensures s.panel.Cards? ==> s.panel.events == filteredEvents
    ensures s.panel.EmptyNotice? ==> s.panel.message == EmptyStateMessage(selectedCategory)
    ensures s.filterBar.Some? <==> !loading && categories != []
    ensures s.filterBar.Some? ==> s.filterBar.value == categories
    ensures s.banner.Some? <==> Present(error)
    ensures s.banner.Some? ==> s.banner == error
  {
    Screen(
      if Present(error) then error else None,
      if !loading && |categories| > 0 then Some(categories) else None,
      if loading then Spinner
      else if |filteredEvents| == 0 then EmptyNotice(EmptyStateMessage(selectedCategory))
      else Cards(filteredEvents))
  }

  // ---------------------------------------------------------------------------
  // The component state.

  /** The six `useState` slots of TodayInHistory, other than the date. */
  class TimelineState {
    var events: seq<HistoricalEvent>
    var filteredEvents: seq<HistoricalEvent>
    var loading: bool
    var error: Option<string>
    var selectedCategory: Option<string>
    var categories: seq<string>

    /** What every completed load keeps: each stored event has a category, and
        `categories` is the category list of the stored events. */
    ghost predicate Valid()
      reads this
    {
      AllCategorised(events) && categories == CategoryList(events)
    }

    /** The filter effect has run since the last change of `events` or the selection. */
    ghost predicate Settled()
      reads this
    {
      filteredEvents == FilterEvents(events, selectedCategory)
    }

    /** The initial render: nothing loaded yet, the spinner on. */
    constructor()
      ensures events == [] && filteredEvents == [] && categories == []
      ensures loading && error == None && selectedCategory == None
      ensures Valid() && Settled()
    {
      events := [];
      filteredEvents := [];
      loading := true;
      error := None;
      selectedCategory := None;
      categories := [];
    }

    /** `setLoading(true); setError(null)` at the start of every load. */
    method BeginLoad()
      modifies this
      ensures loading && error == None
      ensures events == old(events) && filteredEvents == old(filteredEvents)
      ensures selectedCategory == old(selectedCategory) && categories == old(categories)
    {
      loading := true;
      error := None;
    }

    /** The rest of `fetchEvents`, once the request has ended: on success the filled-in
        events, their category list and no selection; on failure the error message and the
        data left as they were; `loading` is false on both paths. */
    method FinishLoad(result: FetchResult)
      requires Valid()
      modifies this
      ensures Valid() && !loading && filteredEvents == old(filteredEvents)
      ensures Outcome(result).Loaded? ==>
        && events == FillCategories(Outcome(result).events)
        && categories == CategoryList(events)
        && selectedCategory == None
        && error == old(error)
      ensures Outcome(result).Failed? ==>
        && error == Some(Outcome(result).message)
        && events == old(events) && categories == old(categories)
        && selectedCategory == old(selectedCategory)
    {
      var outcome := Outcome(result);
      if outcome.Loaded? {
        StoreEvents(outcome.events);
      } else {
        StoreError(outcome.message);
      }
    }

    /** The success path: `setEvents`, `setCategories`, `setSelectedCategory(null)`, and
        `setLoading(false)` in the finally block. */
    method StoreEvents(received: seq<HistoricalEvent>)
      modifies this
      ensures Valid() && !loading && filteredEvents == old(filteredEvents) && error == old(error)
      ensures events == FillCategories(received) && categories == CategoryList(events)
      ensures selectedCategory == None
    {
      events := FillCategories(received);
      categories := CategoryList(events);
      selectedCategory := None;
      loading := false;
    }

    /** The failure path: `setError(message)` in the catch block and `setLoading(false)` in
        the finally block; nothing else changes. */
    method StoreError(message: string)
      modifies this
      ensures !loading && error == Some(message)
      ensures events == old(events) && filteredEvents == old(filteredEvents)
      ensures selectedCategory == old(selectedCategory) && categories == old(categories)
    {
      error := Some(message);
      loading := false;
    }

    /** One whole `fetchEvents` call. */
    method FetchEvents(result: FetchResult)
      requires Valid()
      modifies this
      ensures Valid() && !loading && filteredEvents == old(filteredEvents)
      ensures Outcome(result).Loaded? ==>
        && events == FillCategories(Outcome(result).events)
        && categories == CategoryList(events)
        && selectedCategory == None
        && error == None
      ensures Outcome(result).Failed? ==>
        && error == Some(Outcome(result).message)
        && events == old(events) && categories == old(categories)
        && selectedCategory == old(selectedCategory)
      ensures Outcome(result).Failed? && old(Settled()) ==> Settled()
    {
      BeginLoad();
      FinishLoad(result);
    }

    /** The second `useEffect`, run after `events` or the selection changed. */
    method FilterEffect()
      modifies this
      ensures Settled()
      ensures events == old(events) && loading == old(loading) && error == old(error)
      ensures selectedCategory == old(selectedCategory) && categories == old(categories)
    {
      if Present(selectedCategory) {
        filteredEvents := OnlyCategory(events, selectedCategory.value);
      } else {
        filteredEvents := events;
      }
    }

    /** `onSelectCategory`, the setter the filter buttons call. */
    method SelectCategory(c: Option<string>)
      modifies this
      ensures selectedCategory == c
      ensures events == old(events) && filteredEvents == old(filteredEvents)
      ensures loading == old(loading) && error == old(error) && categories == old(categories)
    {
      selectedCategory := c;
    }

    /** What the component renders from its state. */
    function View(): Screen
      reads this
    {
      Render(loading, error, categories, selectedCategory, filteredEvents)
    }
  }

  /** After a successful load and the effect it triggers, every loaded event is visible, the
      filter bar offers the sorted categories of the loaded events, and no banner shows. */
  method LoadAndSettle(st: TimelineState, result: FetchResult)
    requires st.Valid() && Outcome(result).Loaded?
    modifies st
    ensures st.Valid() && st.Settled()
    ensures st.filteredEvents == st.events == FillCategories(Outcome(result).events)
    ensures st.View().banner == None
    ensures st.View().panel ==
      if st.events == [] then EmptyNotice(NoRecordsMessage) else Cards(st.events)
    ensures st.View().filterBar == if st.categories == [] then None else Some(st.categories)
  {
    st.FetchEvents(result);
    st.FilterEffect();
  }
}

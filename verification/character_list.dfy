/**
 The paginated character list (`CharacterListViewModel`). The view model keeps
 the page counter and the end-of-data flag, asks the page use case for the
 current page, and reports progress through its `events` LiveData.

 Each Rx callback is a separate transition: issuing a request publishes
 `ShowLoading` at once (the `doOnSubscribe` hook) and leaves a subscription
 in flight; the page or the failure arrives later through `OnPageLoaded` or
 `OnPageError`, which answer one subscription in flight.
 */
module CharacterList {
  import opened KotlinTypes
  import opened Payloads
  import opened EventLog

  /** Number of characters on a full page of the remote source. */
  const PAGE_SIZE: Int32 := 20

  datatype Navigation =
    | ShowCharacterError(error: Throwable)
    | ShowCharacterList(characterList: seq<CharacterServer>)
    | HideLoading
    | ShowLoading

  /**
   The view model's three fields, the history of its `events` LiveData, the
   page numbers it has requested from the page use case, oldest first, and
   the number of those requests whose single callback has not yet fired.
   */
  datatype ViewModel = ViewModel(
    currentPage: Int32,
    isLastPage: bool,
    isLoading: bool,
    events: seq<Navigation>,
    requestedPages: seq<Int32>,
    pendingPages: nat)

  /** A freshly constructed view model. */
  const INITIAL: ViewModel := ViewModel(1, false, false, [], [], 0)

  /** The page counter, the last-page flag and the loading flag are the same. */
  predicate SamePaging(a: ViewModel, b: ViewModel) {
    a.currentPage == b.currentPage && a.isLastPage == b.isLastPage && a.isLoading == b.isLoading
  }

  /**
   Whether the visible window reaches the end of a list of at least one page.
   The sum is Kotlin `Int` addition, so it wraps: a sum past the top of the
   range never counts as the footer, and for a non-negative visible count a
   reported footer is always a real one.
   */
  function IsInFooter(visibleItemCount: Int32, firstVisibleItemPosition: Int32, totalItemCount: Int32): (r: bool)
    ensures r ==> firstVisibleItemPosition >= 0 && totalItemCount >= PAGE_SIZE
    ensures INT32_MIN <= visibleItemCount + firstVisibleItemPosition <= INT32_MAX ==>
      (r <==> visibleItemCount + firstVisibleItemPosition >= totalItemCount
              && firstVisibleItemPosition >= 0 && totalItemCount >= PAGE_SIZE)
    ensures visibleItemCount + firstVisibleItemPosition > INT32_MAX ==> !r
    ensures visibleItemCount >= 0 && r ==> visibleItemCount + firstVisibleItemPosition >= totalItemCount
  {
    WrapAdd(visibleItemCount, firstVisibleItemPosition) >= totalItemCount
    && firstVisibleItemPosition >= 0
    && totalItemCount >= PAGE_SIZE
  }

  /**
   `onGetAllCharacters`: requests the current page and subscribes. The page
   number is not advanced and the last-page flag is not consulted.
   */
  function GetAllCharacters(vm: ViewModel): (r: ViewModel)
    ensures SamePaging(r, vm)
    ensures |r.requestedPages| == |vm.requestedPages| + 1
    ensures r.requestedPages[..|vm.requestedPages|] == vm.requestedPages
    ensures CurrentValue(r.requestedPages) == vm.currentPage
    ensures r.pendingPages == vm.pendingPages + 1
    ensures |r.events| == |vm.events| + 1
    ensures r.events[..|vm.events|] == vm.events
    ensures CurrentValue(r.events) == ShowLoading
  {
    vm.(events := vm.events + [ShowLoading],
        requestedPages := vm.requestedPages + [vm.currentPage],
        pendingPages := vm.pendingPages + 1)
  }

  /** Whether `onLoadMoreItems` returns without doing anything. */
  predicate LoadMoreBlocked(vm: ViewModel, visibleItemCount: Int32, firstVisibleItemPosition: Int32, totalItemCount: Int32) {
    vm.isLoading || vm.isLastPage || !IsInFooter(visibleItemCount, firstVisibleItemPosition, totalItemCount)
  }

  /**
   `onLoadMoreItems`: when nothing blocks it, advances the page counter
   (with `Int` wrap-around) and requests the new page.
   */
  function LoadMoreItems(vm: ViewModel, visibleItemCount: Int32, firstVisibleItemPosition: Int32, totalItemCount: Int32): (r: ViewModel)
    ensures LoadMoreBlocked(vm, visibleItemCount, firstVisibleItemPosition, totalItemCount) ==> r == vm
    ensures !LoadMoreBlocked(vm, visibleItemCount, firstVisibleItemPosition, totalItemCount) ==>
      && (vm.currentPage < INT32_MAX ==> r.currentPage == vm.currentPage + 1)
      && r.isLastPage == vm.isLastPage && r.isLoading == vm.isLoading
      && r.requestedPages == vm.requestedPages + [r.currentPage]
      && r.pendingPages == vm.pendingPages + 1
      && r.events == vm.events + [ShowLoading]
  {
    if LoadMoreBlocked(vm, visibleItemCount, firstVisibleItemPosition, totalItemCount) then vm
    else GetAllCharacters(vm.(currentPage := WrapAdd(vm.currentPage, 1)))
  }

  /**
   `onRetryGetAllCharacter`: with items already on screen only hides the
   loading indicator; otherwise requests the current page again, whether or
   not the last page has been reached.
   */
  function RetryGetAllCharacter(vm: ViewModel, itemCount: Int32): (r: ViewModel)
    ensures SamePaging(r, vm)
    ensures itemCount > 0 ==>
      && r.requestedPages == vm.requestedPages && r.pendingPages == vm.pendingPages
      && r.events == vm.events + [HideLoading]
    ensures itemCount <= 0 ==>
      && r.requestedPages == vm.requestedPages + [vm.currentPage]
      && r.pendingPages == vm.pendingPages + 1
      && r.events == vm.events + [ShowLoading]
  {
    if itemCount > 0 then vm.(events := vm.events + [HideLoading])
    else GetAllCharacters(vm)
  }

  /**
   Success callback of a page request in flight: a short page marks the end
   of the data; the received list is published unchanged after `HideLoading`.
   */
  function OnPageLoaded(vm: ViewModel, characterList: seq<CharacterServer>): (r: ViewModel)
    requires vm.pendingPages > 0
    ensures r.isLastPage <==> vm.isLastPage || |characterList| < PAGE_SIZE
    ensures r.currentPage == vm.currentPage && r.isLoading == vm.isLoading
    ensures r.requestedPages == vm.requestedPages && r.pendingPages == vm.pendingPages - 1
    ensures |r.events| == |vm.events| + 2 && r.events[..|vm.events|] == vm.events
    ensures r.events[|vm.events|] == HideLoading
    ensures CurrentValue(r.events) == ShowCharacterList(characterList)
  {
    var isLastPage := if |characterList| < PAGE_SIZE then true else vm.isLastPage;
    vm.(isLastPage := isLastPage,
        events := vm.events + [HideLoading, ShowCharacterList(characterList)],
        pendingPages := vm.pendingPages - 1)
  }

  /**
   Error callback of a page request in flight: paging stops for good and the
   failure is published after `HideLoading`.
   */
  function OnPageError(vm: ViewModel, error: Throwable): (r: ViewModel)
    requires vm.pendingPages > 0
    ensures r.isLastPage
    ensures r.currentPage == vm.currentPage && r.isLoading == vm.isLoading
    ensures r.requestedPages == vm.requestedPages && r.pendingPages == vm.pendingPages - 1
    ensures |r.events| == |vm.events| + 2 && r.events[..|vm.events|] == vm.events
    ensures r.events[|vm.events|] == HideLoading
    ensures CurrentValue(r.events) == ShowCharacterError(error)
  {
    vm.(isLastPage := true,
        events := vm.events + [HideLoading, ShowCharacterError(error)],
        pendingPages := vm.pendingPages - 1)
  }

  // ----- Sequences of calls and callbacks -----

  /** What can happen to the view model: a call from the screen or a callback. */
  datatype Input =
    | Scrolled(visibleItemCount: Int32, firstVisibleItemPosition: Int32, totalItemCount: Int32)
    | RetryRequested(itemCount: Int32)
    | GetAllRequested
    | PageLoaded(characterList: seq<CharacterServer>)
    | PageFailed(error: Throwable)

  /** A callback fires only for a subscription in flight: each request is answered at most once. */
  predicate Allowed(vm: ViewModel, input: Input) {
    (input.PageLoaded? || input.PageFailed?) ==> vm.pendingPages > 0
  }

  function Step(vm: ViewModel, input: Input): (r: ViewModel)
    requires Allowed(vm, input)
    ensures r.isLoading == vm.isLoading
    ensures vm.isLastPage ==> r.isLastPage
    ensures r.currentPage == vm.currentPage || r.currentPage == WrapAdd(vm.currentPage, 1)
    ensures |r.events| >= |vm.events| && r.events[..|vm.events|] == vm.events
  {
    match input
    case Scrolled(v, f, t) => LoadMoreItems(vm, v, f, t)
    case RetryRequested(n) => RetryGetAllCharacter(vm, n)
    case GetAllRequested => GetAllCharacters(vm)
    case PageLoaded(list) => OnPageLoaded(vm, list)
    case PageFailed(e) => OnPageError(vm, e)
  }

  /** Every input of the sequence can happen when its turn comes. */
  predicate Runnable(vm: ViewModel, inputs: seq<Input>)
    decreases |inputs|
  {
    inputs == [] || (Allowed(vm, inputs[0]) && Runnable(Step(vm, inputs[0]), inputs[1..]))
  }

  function Run(vm: ViewModel, inputs: seq<Input>): ViewModel
    requires Runnable(vm, inputs)
    decreases |inputs|
  {
    if inputs == [] then vm else Run(Step(vm, inputs[0]), inputs[1..])
  }

  /** `isLoading` is never assigned: no sequence of inputs changes it. */
  lemma {:induction false} IsLoadingNeverChanges(vm: ViewModel, inputs: seq<Input>)
    requires Runnable(vm, inputs)
    ensures Run(vm, inputs).isLoading == vm.isLoading
    decreases |inputs|
  {
    if inputs != [] {
      IsLoadingNeverChanges(Step(vm, inputs[0]), inputs[1..]);
    }
  }

  /** So the `isLoading` guard of `onLoadMoreItems` never blocks a request. */
  lemma LoadingGuardNeverFires(inputs: seq<Input>)
    requires Runnable(INITIAL, inputs)
    ensures !Run(INITIAL, inputs).isLoading
  {
    IsLoadingNeverChanges(INITIAL, inputs);
  }

  /**
   The page counter never decreases and grows by at most one per input, as
   long as it stays clear of the `Int` range end.
   */
  lemma {:induction false} PageMonotone(vm: ViewModel, inputs: seq<Input>)
    requires Runnable(vm, inputs)
    requires vm.currentPage + |inputs| <= INT32_MAX
    ensures vm.currentPage <= Run(vm, inputs).currentPage <= vm.currentPage + |inputs|
    decreases |inputs|
  {
    if inputs != [] {
      PageMonotone(Step(vm, inputs[0]), inputs[1..]);
    }
  }

  /** An input after which no further page is expected. */
  predicate EndsPaging(input: Input) {
    input.PageFailed? || (input.PageLoaded? && |input.characterList| < PAGE_SIZE)
  }

  /**
   The last-page flag is set exactly when it was already set or some
   callback delivered a failure or a short page.
   */
  lemma {:induction false} LastPageReached(vm: ViewModel, inputs: seq<Input>)
    requires Runnable(vm, inputs)
    ensures Run(vm, inputs).isLastPage <==>
      vm.isLastPage || exists i :: 0 <= i < |inputs| && EndsPaging(inputs[i])
    decreases |inputs|
  {
    if inputs != [] {
      var next := Step(vm, inputs[0]);
      LastPageReached(next, inputs[1..]);
      assert next.isLastPage <==> vm.isLastPage || EndsPaging(inputs[0]);
      if exists i :: 0 <= i < |inputs[1..]| && EndsPaging(inputs[1..][i]) {
        var i :| 0 <= i < |inputs[1..]| && EndsPaging(inputs[1..][i]);
        assert EndsPaging(inputs[i + 1]);
      }
      if exists i :: 0 <= i < |inputs| && EndsPaging(inputs[i]) {
        var i :| 0 <= i < |inputs| && EndsPaging(inputs[i]);
        if i > 0 {
          assert EndsPaging(inputs[1..][i - 1]);
        }
      }
    }
  }

  /** Once the last page is reached, scrolling never requests anything again. */
  lemma {:induction false} ScrollingStopsAtLastPage(vm: ViewModel, inputs: seq<Input>)
    requires vm.isLastPage
    requires forall i :: 0 <= i < |inputs| ==> inputs[i].Scrolled?
    ensures Runnable(vm, inputs) && Run(vm, inputs) == vm
    decreases |inputs|
  {
    if inputs != [] {
      assert Step(vm, inputs[0]) == vm;
      ScrollingStopsAtLastPage(vm, inputs[1..]);
    }
  }

  // ----- What the event log always satisfies -----

  /** Events that carry the outcome of a page request. */
  predicate IsResult(e: Navigation) {
    e.ShowCharacterList? || e.ShowCharacterError?
  }

  /**
   The requested pages start at the first or second page and each repeats
   the one before or is its `Int` successor, the latest being the page
   counter (which is the initial 1 before any request).
   */
  ghost predicate PagesClimb(pages: seq<Int32>, currentPage: Int32) {
    && (forall i :: 0 < i < |pages| ==> pages[i] == pages[i - 1] || pages[i] == WrapAdd(pages[i - 1], 1))
    && (|pages| == 0 ==> currentPage == 1)
    && (|pages| > 0 ==> (pages[0] == 1 || pages[0] == 2) && CurrentValue(pages) == currentPage)
  }

  /**
   The log and the requests agree: one `ShowLoading` per request, published
   before any outcome it announces; every outcome right after a
   `HideLoading`; one outcome per answered request, the rest still pending.
   */
  ghost predicate Valid(vm: ViewModel) {
    && LoadingProtocol(vm.events, ShowLoading, HideLoading, IsResult, |vm.requestedPages|, vm.pendingPages)
    && PagesClimb(vm.requestedPages, vm.currentPage)
  }

  lemma InitialValid()
    ensures Valid(INITIAL)
  {
    assert INITIAL.events[..0] == [];
  }

  /** Requesting the current page or its successor extends a climbing request history. */
  lemma PagesClimbSnoc(pages: seq<Int32>, currentPage: Int32, page: Int32)
    requires PagesClimb(pages, currentPage)
    requires page == currentPage || page == WrapAdd(currentPage, 1)
    ensures PagesClimb(pages + [page], page)
  {
    var longer := pages + [page];
    forall i | 0 < i < |longer|
      ensures longer[i] == longer[i - 1] || longer[i] == WrapAdd(longer[i - 1], 1)
    {
      if i < |pages| {
        assert longer[i - 1] == pages[i - 1] && longer[i] == pages[i];
      } else {
        assert longer[i - 1] == CurrentValue(pages) == currentPage;
      }
    }
  }

  /** Issuing a request for the current page, or for its successor, keeps the log consistent. */
  lemma RequestPreservesValid(vm: ViewModel, page: Int32)
    requires Valid(vm)
    requires page == vm.currentPage || page == WrapAdd(vm.currentPage, 1)
    ensures Valid(GetAllCharacters(vm.(currentPage := page)))
  {
    var r := GetAllCharacters(vm.(currentPage := page));
    assert r.events == vm.events + [ShowLoading];
    assert r.requestedPages == vm.requestedPages + [page];
    assert r.pendingPages == vm.pendingPages + 1 && r.currentPage == page;
    ProtocolAfterShow(vm.events, ShowLoading, HideLoading, IsResult, |vm.requestedPages|, vm.pendingPages);
    PagesClimbSnoc(vm.requestedPages, vm.currentPage, page);
  }

  /** Publishing an event that is neither `ShowLoading` nor an outcome keeps the log consistent. */
  lemma SignalPreservesValid(vm: ViewModel, e: Navigation)
    requires Valid(vm)
    requires e != ShowLoading && !IsResult(e)
    ensures Valid(vm.(events := vm.events + [e]))
  {
    ProtocolAfterSignal(vm.events, e, ShowLoading, HideLoading, IsResult, |vm.requestedPages|, vm.pendingPages);
  }

  /** Answering a request in flight with `HideLoading` and then an outcome keeps the log consistent. */
  lemma OutcomePreservesValid(vm: ViewModel, e: Navigation, isLastPage: bool)
    requires Valid(vm)
    requires vm.pendingPages > 0
    requires IsResult(e)
    ensures Valid(vm.(isLastPage := isLastPage, events := vm.events + [HideLoading, e], pendingPages := vm.pendingPages - 1))
  {
    ProtocolAfterOutcome(vm.events, e, ShowLoading, HideLoading, IsResult, |vm.requestedPages|, vm.pendingPages);
  }

  /** A scroll either does nothing or requests the successor of the current page. */
  lemma ScrollPreservesValid(vm: ViewModel, v: Int32, f: Int32, t: Int32)
    requires Valid(vm)
    ensures Valid(LoadMoreItems(vm, v, f, t))
  {
    if !LoadMoreBlocked(vm, v, f, t) {
      RequestPreservesValid(vm, WrapAdd(vm.currentPage, 1));
    }
  }

  /** A call from the screen keeps the log consistent. */
  lemma CallPreservesValid(vm: ViewModel, input: Input)
    requires Valid(vm)
    requires input.Scrolled? || input.RetryRequested? || input.GetAllRequested?
    ensures Valid(Step(vm, input))
  {
    match input {
      case Scrolled(v, f, t) =>
        ScrollPreservesValid(vm, v, f, t);
      case RetryRequested(n) =>
        if n > 0 {
          SignalPreservesValid(vm, HideLoading);
        } else {
          RequestPreservesValid(vm, vm.currentPage);
          assert vm.(currentPage := vm.currentPage) == vm;
        }
      case GetAllRequested =>
        RequestPreservesValid(vm, vm.currentPage);
        assert vm.(currentPage := vm.currentPage) == vm;
    }
  }

  /** A callback of a request in flight keeps the log consistent. */
  lemma CallbackPreservesValid(vm: ViewModel, input: Input)
    requires Valid(vm)
    requires input.PageLoaded? || input.PageFailed?
    requires vm.pendingPages > 0
    ensures Valid(Step(vm, input))
  {
    match input {
      case PageLoaded(list) =>
        OutcomePreservesValid(vm, ShowCharacterList(list), OnPageLoaded(vm, list).isLastPage);
      case PageFailed(e) =>
        OutcomePreservesValid(vm, ShowCharacterError(e), true);
    }
  }

  lemma StepPreservesValid(vm: ViewModel, input: Input)
    requires Valid(vm)
    requires Allowed(vm, input)
    ensures Valid(Step(vm, input))
  {
    if input.PageLoaded? || input.PageFailed? {
      CallbackPreservesValid(vm, input);
    } else {
      CallPreservesValid(vm, input);
    }
  }

  /** Every sequence of inputs keeps the log consistent with the requests. */
  lemma {:induction false} RunPreservesValid(vm: ViewModel, inputs: seq<Input>)
    requires Valid(vm)
    requires Runnable(vm, inputs)
    ensures Valid(Run(vm, inputs))
    decreases |inputs|
  {
    if inputs != [] {
      StepPreservesValid(vm, inputs[0]);
      RunPreservesValid(Step(vm, inputs[0]), inputs[1..]);
    }
  }

  /**
   From construction on, whatever the screen and the callbacks do, every
   prefix of the log holds at least as many `ShowLoading` events as outcomes,
   and the outcomes published plus the requests in flight are the requests made.
   */
  lemma LoadingPrecedesOutcomes(inputs: seq<Input>)
    requires Runnable(INITIAL, inputs)
    ensures Announced(Run(INITIAL, inputs).events, ShowLoading, IsResult)
    ensures |Filter(Run(INITIAL, inputs).events, IsResult)| + Run(INITIAL, inputs).pendingPages
            == |Run(INITIAL, inputs).requestedPages|
  {
    InitialValid();
    RunPreservesValid(INITIAL, inputs);
  }

  /** The outcome event a single input is expected to publish. */
  function ExpectedResult(input: Input): seq<Navigation> {
    match input
    case PageLoaded(list) => [ShowCharacterList(list)]
    case PageFailed(e) => [ShowCharacterError(e)]
    case _ => []
  }

  function ExpectedResults(inputs: seq<Input>): seq<Navigation>
    decreases |inputs|
  {
    if inputs == [] then [] else ExpectedResult(inputs[0]) + ExpectedResults(inputs[1..])
  }

  lemma StepResults(vm: ViewModel, input: Input)
    requires Allowed(vm, input)
    ensures Filter(Step(vm, input).events, IsResult) == Filter(vm.events, IsResult) + ExpectedResult(input)
  {
    match input {
      case Scrolled(v, f, t) =>
        if !LoadMoreBlocked(vm, v, f, t) {
          FilterSnoc(vm.events, ShowLoading, IsResult);
        }
      case RetryRequested(n) =>
        if n > 0 {
          FilterSnoc(vm.events, HideLoading, IsResult);
        } else {
          FilterSnoc(vm.events, ShowLoading, IsResult);
        }
      case GetAllRequested =>
        FilterSnoc(vm.events, ShowLoading, IsResult);
      case PageLoaded(list) =>
        OutcomeResults(vm.events, ShowCharacterList(list));
      case PageFailed(e) =>
        OutcomeResults(vm.events, ShowCharacterError(e));
    }
  }

  lemma OutcomeResults(events: seq<Navigation>, e: Navigation)
    requires IsResult(e)
    ensures Filter(events + [HideLoading, e], IsResult) == Filter(events, IsResult) + [e]
  {
    assert events + [HideLoading, e] == (events + [HideLoading]) + [e];
    FilterSnoc(events, HideLoading, IsResult);
    FilterSnoc(events + [HideLoading], e, IsResult);
  }

  /**
   The outcomes published are exactly the callbacks' results, in order: each
   received page verbatim as `ShowCharacterList`, each failure as
   `ShowCharacterError`, and nothing else.
   */
  lemma {:induction false} RunPublishesExactlyResults(vm: ViewModel, inputs: seq<Input>)
    requires Runnable(vm, inputs)
    ensures Filter(Run(vm, inputs).events, IsResult) == Filter(vm.events, IsResult) + ExpectedResults(inputs)
    decreases |inputs|
  {
    if inputs != [] {
      StepResults(vm, inputs[0]);
      RunPublishesExactlyResults(Step(vm, inputs[0]), inputs[1..]);
    }
  }
}

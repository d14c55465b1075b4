/**
 The character detail screen (`CharacterDetailViewModel`). It is built with an
 optional character; validating it either closes the screen or publishes the
 character, asks the favourite store for its status and requests its episodes.

 Each Rx subscription is recorded as a request and stays in flight until its
 single callback fires; each callback is a separate transition taking the
 callback's value and answering one subscription of its kind.
 */
module CharacterDetail {
  import opened KotlinTypes
  import opened Payloads
  import opened EventLog

  datatype Navigation =
    | ShowEpisodeError(error: Throwable)
    | ShowEpisodeList(episodeList: seq<EpisodeServer>)
    | CloseActivity
    | HideEpisodeListLoading
    | ShowEpisodeListLoading

  /**
   The constructor argument `character`, the current values of the
   `characterValues` and `isFavorite` LiveData (`Null` while never assigned),
   the history of the `events` LiveData, the requests issued so far
   (favourite-status lookups by id, episode requests by URL list, and
   favourite-status updates by character), and for each kind the number of
   subscriptions whose callback has not yet fired.
   */
  datatype ViewModel = ViewModel(
    character: Nullable<CharacterServer>,
    characterValues: Nullable<CharacterServer>,
    isFavorite: Nullable<bool>,
    events: seq<Navigation>,
    statusLookups: seq<Int32>,
    episodeRequests: seq<seq<string>>,
    statusUpdates: seq<CharacterServer>,
    pendingLookups: nat,
    pendingEpisodes: nat,
    pendingUpdates: nat)

  /** A freshly constructed view model. */
  function Create(character: Nullable<CharacterServer>): ViewModel {
    ViewModel(character, Null, Null, [], [], [], [], 0, 0, 0)
  }

  /** `validateFavoriteCharacterStatus`: subscribes to the favourite-status lookup for one id. */
  function ValidateFavoriteCharacterStatus(vm: ViewModel, characterId: Int32): (r: ViewModel)
    ensures |r.statusLookups| == |vm.statusLookups| + 1 && r.statusLookups[..|vm.statusLookups|] == vm.statusLookups
    ensures CurrentValue(r.statusLookups) == characterId
    ensures r.pendingLookups == vm.pendingLookups + 1
    ensures r.(statusLookups := vm.statusLookups, pendingLookups := vm.pendingLookups) == vm
  {
    vm.(statusLookups := vm.statusLookups + [characterId], pendingLookups := vm.pendingLookups + 1)
  }

  /**
   `requestShowEpisodeList`: subscribes to the episode request; the
   `doOnSubscribe` hook publishes `ShowEpisodeListLoading` before any result.
   */
  function RequestShowEpisodeList(vm: ViewModel, episodeUrlList: seq<string>): (r: ViewModel)
    ensures |r.episodeRequests| == |vm.episodeRequests| + 1 && r.episodeRequests[..|vm.episodeRequests|] == vm.episodeRequests
    ensures CurrentValue(r.episodeRequests) == episodeUrlList
    ensures r.pendingEpisodes == vm.pendingEpisodes + 1
    ensures |r.events| == |vm.events| + 1 && r.events[..|vm.events|] == vm.events
    ensures CurrentValue(r.events) == ShowEpisodeListLoading
    ensures r.(episodeRequests := vm.episodeRequests, events := vm.events, pendingEpisodes := vm.pendingEpisodes) == vm
  {
    vm.(episodeRequests := vm.episodeRequests + [episodeUrlList],
        events := vm.events + [ShowEpisodeListLoading],
        pendingEpisodes := vm.pendingEpisodes + 1)
  }

  /**
   `onCharacterValidation`: a missing character closes the screen and does
   nothing else; a present one is published, its favourite status is looked
   up by its id, and its episodes are requested by its URL list.
   */
  function CharacterValidation(vm: ViewModel): (r: ViewModel)
    ensures vm.character.Null? ==>
      && r.events == vm.events + [CloseActivity]
      && r.(events := vm.events) == vm
    ensures vm.character.NonNull? ==>
      && r.characterValues == vm.character
      && r.statusLookups == vm.statusLookups + [vm.character.value.id]
      && r.episodeRequests == vm.episodeRequests + [vm.character.value.episodeList]
      && r.events == vm.events + [ShowEpisodeListLoading]
      && r.pendingLookups == vm.pendingLookups + 1 && r.pendingEpisodes == vm.pendingEpisodes + 1
      && r.character == vm.character && r.isFavorite == vm.isFavorite
      && r.statusUpdates == vm.statusUpdates && r.pendingUpdates == vm.pendingUpdates
  {
    match vm.character
    case Null => vm.(events := vm.events + [CloseActivity])
    case NonNull(character) =>
      var published := vm.(characterValues := NonNull(character));
      RequestShowEpisodeList(ValidateFavoriteCharacterStatus(published, character.id), character.episodeList)
  }

  /**
   `onUpdateFavoriteCharacterStatus`: asks the store to toggle the
   character's favourite status. The character must be present (the source
   dereferences it with `!!`). The flag changes only when the store answers.
   */
  function UpdateFavoriteCharacterStatus(vm: ViewModel): (r: ViewModel)
    requires vm.character.NonNull?
    ensures |r.statusUpdates| == |vm.statusUpdates| + 1 && r.statusUpdates[..|vm.statusUpdates|] == vm.statusUpdates
    ensures NonNull(CurrentValue(r.statusUpdates)) == vm.character
    ensures r.pendingUpdates == vm.pendingUpdates + 1
    ensures r.(statusUpdates := vm.statusUpdates, pendingUpdates := vm.pendingUpdates) == vm
  {
    vm.(statusUpdates := vm.statusUpdates + [vm.character.value], pendingUpdates := vm.pendingUpdates + 1)
  }

  /** Success callback of a favourite-status lookup in flight: the answer becomes `isFavorite` verbatim. */
  function OnFavoriteStatusLoaded(vm: ViewModel, isFavorite: bool): (r: ViewModel)
    requires vm.pendingLookups > 0
    ensures r.isFavorite == NonNull(isFavorite)
    ensures r.pendingLookups == vm.pendingLookups - 1
    ensures r.(isFavorite := vm.isFavorite, pendingLookups := vm.pendingLookups) == vm
  {
    vm.(isFavorite := NonNull(isFavorite), pendingLookups := vm.pendingLookups - 1)
  }

  /** Success callback of a favourite-status update in flight: the answer becomes `isFavorite` verbatim. */
  function OnFavoriteStatusUpdated(vm: ViewModel, isFavorite: bool): (r: ViewModel)
    requires vm.pendingUpdates > 0
    ensures r.isFavorite == NonNull(isFavorite)
    ensures r.pendingUpdates == vm.pendingUpdates - 1
    ensures r.(isFavorite := vm.isFavorite, pendingUpdates := vm.pendingUpdates) == vm
  {
    vm.(isFavorite := NonNull(isFavorite), pendingUpdates := vm.pendingUpdates - 1)
  }

  /**
   Success callback of an episode request in flight: the list is published
   unchanged after the loading indicator is hidden.
   */
  function OnEpisodesLoaded(vm: ViewModel, episodeList: seq<EpisodeServer>): (r: ViewModel)
    requires vm.pendingEpisodes > 0
    ensures |r.events| == |vm.events| + 2 && r.events[..|vm.events|] == vm.events
    ensures r.events[|vm.events|] == HideEpisodeListLoading
    ensures CurrentValue(r.events) == ShowEpisodeList(episodeList)
    ensures r.pendingEpisodes == vm.pendingEpisodes - 1
    ensures r.(events := vm.events, pendingEpisodes := vm.pendingEpisodes) == vm
  {
    vm.(events := vm.events + [HideEpisodeListLoading, ShowEpisodeList(episodeList)],
        pendingEpisodes := vm.pendingEpisodes - 1)
  }

  /**
   Error callback of an episode request in flight: the failure is published
   after the loading indicator is hidden.
   */
  function OnEpisodesError(vm: ViewModel, error: Throwable): (r: ViewModel)
    requires vm.pendingEpisodes > 0
    ensures |r.events| == |vm.events| + 2 && r.events[..|vm.events|] == vm.events
    ensures r.events[|vm.events|] == HideEpisodeListLoading
    ensures CurrentValue(r.events) == ShowEpisodeError(error)
    ensures r.pendingEpisodes == vm.pendingEpisodes - 1
    ensures r.(events := vm.events, pendingEpisodes := vm.pendingEpisodes) == vm
  {
    vm.(events := vm.events + [HideEpisodeListLoading, ShowEpisodeError(error)],
        pendingEpisodes := vm.pendingEpisodes - 1)
  }

  // ----- Sequences of calls and callbacks -----

  /** What can happen to the view model: a call from the screen or a callback. */
  datatype Input =
    | Validated
    | FavoriteClicked
    | FavoriteStatusLoaded(isFavorite: bool)
    | FavoriteStatusUpdated(isFavorite: bool)
    | EpisodesLoaded(episodeList: seq<EpisodeServer>)
    | EpisodesFailed(error: Throwable)

  /**
   A click on the favourite button needs a character to convert, and a
   callback fires only for a subscription of its kind still in flight.
   */
  predicate Allowed(vm: ViewModel, input: Input) {
    match input
    case Validated => true
    case FavoriteClicked => vm.character.NonNull?
    case FavoriteStatusLoaded(_) => vm.pendingLookups > 0
    case FavoriteStatusUpdated(_) => vm.pendingUpdates > 0
    case EpisodesLoaded(_) => vm.pendingEpisodes > 0
    case EpisodesFailed(_) => vm.pendingEpisodes > 0
  }

  function Step(vm: ViewModel, input: Input): (r: ViewModel)
    requires Allowed(vm, input)
    ensures r.character == vm.character
    ensures |r.events| >= |vm.events| && r.events[..|vm.events|] == vm.events
  {
    match input
    case Validated => CharacterValidation(vm)
    case FavoriteClicked => UpdateFavoriteCharacterStatus(vm)
    case FavoriteStatusLoaded(b) => OnFavoriteStatusLoaded(vm, b)
    case FavoriteStatusUpdated(b) => OnFavoriteStatusUpdated(vm, b)
    case EpisodesLoaded(list) => OnEpisodesLoaded(vm, list)
    case EpisodesFailed(e) => OnEpisodesError(vm, e)
  }

  /** Every input of the sequence can happen when its turn comes. */
  predicate Runnable(vm: ViewModel, inputs: seq<Input>)
    decreases |inputs|
  {
    inputs == [] || (Allowed(vm, inputs[0]) && Runnable(Step(vm, inputs[0]), inputs[1..]))
  }

  function Run(vm: ViewModel, inputs: seq<Input>): ViewModel
    requires Runnable(vm, inputs)
    decreases |inputs|
  {
    if inputs == [] then vm else Run(Step(vm, inputs[0]), inputs[1..])
  }

  /**
   Without a character nothing is ever subscribed to, so the only thing that
   can happen is validation, and each validation publishes one more
   `CloseActivity` and changes nothing else: no character data, no favourite
   flag, no request and no episode outcome.
   */
  lemma {:induction false} MissingCharacterNeverRequests(vm: ViewModel, inputs: seq<Input>)
    requires vm.character.Null?
    requires vm.pendingLookups == 0 && vm.pendingEpisodes == 0 && vm.pendingUpdates == 0
    requires Runnable(vm, inputs)
    ensures forall i :: 0 <= i < |inputs| ==> inputs[i] == Validated
    ensures Run(vm, inputs) == vm.(events := vm.events + seq(|inputs|, _ => CloseActivity))
    decreases |inputs|
  {
    if inputs == [] {
      assert vm.events + seq(0, _ => CloseActivity) == vm.events;
    } else {
      var next := Step(vm, inputs[0]);
      assert inputs[0] == Validated;
      MissingCharacterNeverRequests(next, inputs[1..]);
      assert next.events + seq(|inputs| - 1, _ => CloseActivity) == vm.events + seq(|inputs|, _ => CloseActivity);
      forall i | 0 <= i < |inputs|
        ensures inputs[i] == Validated
      {
        if i > 0 {
          assert inputs[i] == inputs[1..][i - 1];
        }
      }
    }
  }

  /** A screen opened without a character publishes exactly one `CloseActivity` on validation. */
  lemma MissingCharacterCloses()
    ensures var r := CharacterValidation(Create(Null));
      r.events == [CloseActivity] && r.characterValues.Null? && r.isFavorite.Null?
      && r.statusLookups == [] && r.episodeRequests == []
  {
  }

  /** The favourite flag delivered by the latest favourite callback among `inputs`, if any. */
  function LatestFavoriteAnswer(inputs: seq<Input>): Nullable<bool>
    decreases |inputs|
  {
    if inputs == [] then Null
    else
      var later := LatestFavoriteAnswer(inputs[1..]);
      if later.NonNull? then later
      else if inputs[0].FavoriteStatusLoaded? || inputs[0].FavoriteStatusUpdated? then NonNull(inputs[0].isFavorite)
      else Null
  }

  /**
   `isFavorite` always shows the most recent answer of either favourite
   callback; with no answer yet it keeps its previous value.
   */
  lemma {:induction false} FavoriteIsLatestAnswer(vm: ViewModel, inputs: seq<Input>)
    requires Runnable(vm, inputs)
    ensures Run(vm, inputs).isFavorite ==
      (if LatestFavoriteAnswer(inputs).NonNull? then LatestFavoriteAnswer(inputs) else vm.isFavorite)
    decreases |inputs|
  {
    if inputs != [] {
      FavoriteIsLatestAnswer(Step(vm, inputs[0]), inputs[1..]);
    }
  }

  // ----- What the state always satisfies -----

  /** Events that carry the outcome of the episode request. */
  predicate IsResult(e: Navigation) {
    e.ShowEpisodeList? || e.ShowEpisodeError?
  }

  /**
   Everything published or requested concerns the screen's own character;
   lookups and episode requests are issued in pairs; the episode log follows
   the loading protocol (one `ShowEpisodeListLoading` per episode request,
   published before any outcome it announces, every outcome right after a
   `HideEpisodeListLoading`); and no kind has more answers than requests.
   */
  ghost predicate Valid(vm: ViewModel) {
    && AboutCharacter(vm.character, vm.characterValues, vm.statusLookups, vm.episodeRequests, vm.statusUpdates)
    && |vm.statusLookups| == |vm.episodeRequests|
    && LoadingProtocol(vm.events, ShowEpisodeListLoading, HideEpisodeListLoading, IsResult,
                       |vm.episodeRequests|, vm.pendingEpisodes)
    && vm.pendingLookups <= |vm.statusLookups|
    && vm.pendingUpdates <= |vm.statusUpdates|
  }

  /** Published values and requests all concern `character`. */
  ghost predicate AboutCharacter(
    character: Nullable<CharacterServer>,
    characterValues: Nullable<CharacterServer>,
    statusLookups: seq<Int32>,
    episodeRequests: seq<seq<string>>,
    statusUpdates: seq<CharacterServer>)
  {
    && (characterValues.NonNull? ==> characterValues == character)
    && (forall i :: 0 <= i < |statusLookups| ==> character.NonNull? && statusLookups[i] == character.value.id)
    && (forall i :: 0 <= i < |episodeRequests| ==>
          character.NonNull? && episodeRequests[i] == character.value.episodeList)
    && (forall i :: 0 <= i < |statusUpdates| ==> NonNull(statusUpdates[i]) == character)
  }

  lemma CreateValid(character: Nullable<CharacterServer>)
    ensures Valid(Create(character))
  {
    assert Create(character).events[..0] == [];
  }

  /** Publishing a single event that is neither a loading signal nor an outcome. */
  lemma SignalPreservesValid(vm: ViewModel, e: Navigation)
    requires Valid(vm)
    requires e != ShowEpisodeListLoading && !IsResult(e)
    ensures Valid(vm.(events := vm.events + [e]))
  {
    ProtocolAfterSignal(vm.events, e, ShowEpisodeListLoading, HideEpisodeListLoading, IsResult,
                        |vm.episodeRequests|, vm.pendingEpisodes);
  }

  /** Answering an episode request in flight with `HideEpisodeListLoading` and then an outcome. */
  lemma OutcomePreservesValid(vm: ViewModel, e: Navigation)
    requires Valid(vm)
    requires vm.pendingEpisodes > 0
    requires IsResult(e)
    ensures Valid(vm.(events := vm.events + [HideEpisodeListLoading, e], pendingEpisodes := vm.pendingEpisodes - 1))
  {
    ProtocolAfterOutcome(vm.events, e, ShowEpisodeListLoading, HideEpisodeListLoading, IsResult,
                         |vm.episodeRequests|, vm.pendingEpisodes);
  }

  lemma ValidationPreservesValid(vm: ViewModel)
    requires Valid(vm)
    ensures Valid(CharacterValidation(vm))
  {
    if vm.character.NonNull? {
      ProtocolAfterShow(vm.events, ShowEpisodeListLoading, HideEpisodeListLoading, IsResult,
                        |vm.episodeRequests|, vm.pendingEpisodes);
    } else {
      SignalPreservesValid(vm, CloseActivity);
    }
  }

  lemma StepPreservesValid(vm: ViewModel, input: Input)
    requires Valid(vm)
    requires Allowed(vm, input)
    ensures Valid(Step(vm, input))
  {
    match input {
      case Validated => ValidationPreservesValid(vm);
      case FavoriteClicked =>
        var r := UpdateFavoriteCharacterStatus(vm);
        assert r.statusUpdates == vm.statusUpdates + [vm.character.value];
        assert AboutCharacter(r.character, r.characterValues, r.statusLookups, r.episodeRequests, r.statusUpdates);
      case FavoriteStatusLoaded(b) =>
        var r := OnFavoriteStatusLoaded(vm, b);
        assert r.events == vm.events && r.episodeRequests == vm.episodeRequests && r.pendingEpisodes == vm.pendingEpisodes;
      case FavoriteStatusUpdated(b) =>
        var r := OnFavoriteStatusUpdated(vm, b);
        assert r.events == vm.events && r.episodeRequests == vm.episodeRequests && r.pendingEpisodes == vm.pendingEpisodes;
      case EpisodesLoaded(list) => OutcomePreservesValid(vm, ShowEpisodeList(list));
      case EpisodesFailed(e) => OutcomePreservesValid(vm, ShowEpisodeError(e));
    }
  }

  /** Every sequence of inputs keeps the state about the screen's own character and the log in protocol. */
  lemma {:induction false} RunPreservesValid(vm: ViewModel, inputs: seq<Input>)
    requires Valid(vm)
    requires Runnable(vm, inputs)
    ensures Valid(Run(vm, inputs))
    decreases |inputs|
  {
    if inputs != [] {
      StepPreservesValid(vm, inputs[0]);
      RunPreservesValid(Step(vm, inputs[0]), inputs[1..]);
    }
  }

  /**
   From construction on, every prefix of the log holds at least as many
   `ShowEpisodeListLoading` events as episode outcomes, and the outcomes
   published plus the requests in flight are the episode requests made.
   */
  lemma LoadingPrecedesOutcomes(character: Nullable<CharacterServer>, inputs: seq<Input>)
    requires Runnable(Create(character), inputs)
    ensures Announced(Run(Create(character), inputs).events, ShowEpisodeListLoading, IsResult)
    ensures |Filter(Run(Create(character), inputs).events, IsResult)| + Run(Create(character), inputs).pendingEpisodes
            == |Run(Create(character), inputs).episodeRequests|
  {
    CreateValid(character);
    RunPreservesValid(Create(character), inputs);
  }

  /** The outcome event a single input is expected to publish. */
  function ExpectedResult(input: Input): seq<Navigation> {
    match input
    case EpisodesLoaded(list) => [ShowEpisodeList(list)]
    case EpisodesFailed(e) => [ShowEpisodeError(e)]
    case _ => []
  }

  function ExpectedResults(inputs: seq<Input>): seq<Navigation>
    decreases |inputs|
  {
    if inputs == [] then [] else ExpectedResult(inputs[0]) + ExpectedResults(inputs[1..])
  }

  lemma OutcomeResults(events: seq<Navigation>, e: Navigation)
    requires IsResult(e)
    ensures Filter(events + [HideEpisodeListLoading, e], IsResult) == Filter(events, IsResult) + [e]
  {
    assert events + [HideEpisodeListLoading, e] == (events + [HideEpisodeListLoading]) + [e];
    FilterSnoc(events, HideEpisodeListLoading, IsResult);
    FilterSnoc(events + [HideEpisodeListLoading], e, IsResult);
  }

  lemma StepResults(vm: ViewModel, input: Input)
    requires Allowed(vm, input)
    ensures Filter(Step(vm, input).events, IsResult) == Filter(vm.events, IsResult) + ExpectedResult(input)
  {
    match input {
      case Validated =>
        if vm.character.NonNull? {
          FilterSnoc(vm.events, ShowEpisodeListLoading, IsResult);
        } else {
          FilterSnoc(vm.events, CloseActivity, IsResult);
        }
      case FavoriteClicked =>
      case FavoriteStatusLoaded(b) =>
      case FavoriteStatusUpdated(b) =>
      case EpisodesLoaded(list) => OutcomeResults(vm.events, ShowEpisodeList(list));
      case EpisodesFailed(e) => OutcomeResults(vm.events, ShowEpisodeError(e));
    }
  }

  /**
   The episode outcomes published are exactly the callbacks' results, in
   order: each received list verbatim, each failure as `ShowEpisodeError`,
   and never a list after a failure in its place.
   */
  lemma {:induction false} RunPublishesExactlyResults(vm: ViewModel, inputs: seq<Input>)
    requires Runnable(vm, inputs)
    ensures Filter(Run(vm, inputs).events, IsResult) == Filter(vm.events, IsResult) + ExpectedResults(inputs)
    decreases |inputs|
  {
    if inputs == [] {
      assert ExpectedResults(inputs) == [];
    } else {
      var next := Step(vm, inputs[0]);
      var now, later := ExpectedResult(inputs[0]), ExpectedResults(inputs[1..]);
      assert Filter(Run(vm, inputs).events, IsResult) == Filter(next.events, IsResult) + later by {
        RunPublishesExactlyResults(next, inputs[1..]);
      }
      assert Filter(next.events, IsResult) == Filter(vm.events, IsResult) + now by {
        StepResults(vm, inputs[0]);
      }
      assert ExpectedResults(inputs) == now + later;
    }
  }
}

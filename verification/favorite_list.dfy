/**
 The favourites screen (`FavoriteListViewModel`). The list of favourites
 itself comes straight from the favourite store's stream and is not view
 model state; each list the screen receives is classified into one event.
 */
module FavoriteList {
  import opened Payloads
  import opened EventLog

  datatype Navigation =
    | ShowCharacterList(characterList: seq<CharacterEntity>)
    | ShowEmptyListMessage

  /** The history of the `events` LiveData. */
  datatype ViewModel = ViewModel(events: seq<Navigation>)

  /** A freshly constructed view model. */
  const INITIAL: ViewModel := ViewModel([])

  /** The list of favourites a navigation event tells the screen to display. */
  function Displayed(nav: Navigation): seq<CharacterEntity> {
    match nav
    case ShowCharacterList(list) => list
    case ShowEmptyListMessage => []
  }

  /**
   The event a received list maps to: the empty-list message exactly for an
   empty list, otherwise the list itself, so the screen displays precisely
   what it received.
   */
  function Classify(list: seq<CharacterEntity>): (r: Navigation)
    ensures r.ShowEmptyListMessage? <==> |list| == 0
    ensures r.ShowCharacterList? ==> |r.characterList| > 0
    ensures Displayed(r) == list
  {
    if |list| == 0 then ShowEmptyListMessage else ShowCharacterList(list)
  }

  /** Two lists classify alike exactly when they are the same list. */
  lemma ClassifyInjective(a: seq<CharacterEntity>, b: seq<CharacterEntity>)
    ensures Classify(a) == Classify(b) <==> a == b
  {
    assert Displayed(Classify(a)) == a && Displayed(Classify(b)) == b;
  }

  /**
   `onFavoriteCharacterList`: publishes exactly one event for the received
   list and changes nothing else.
   */
  function OnFavoriteCharacterList(vm: ViewModel, list: seq<CharacterEntity>): (r: ViewModel)
    ensures |r.events| == |vm.events| + 1
    ensures r.events[..|vm.events|] == vm.events
    ensures |list| == 0 ==> CurrentValue(r.events) == ShowEmptyListMessage
    ensures |list| > 0 ==> CurrentValue(r.events) == ShowCharacterList(list)
  {
    ViewModel(vm.events + [Classify(list)])
  }

  /** The view model after receiving each list in turn. */
  function Run(vm: ViewModel, lists: seq<seq<CharacterEntity>>): ViewModel
    decreases |lists|
  {
    if lists == [] then vm else Run(OnFavoriteCharacterList(vm, lists[0]), lists[1..])
  }

  /**
   Receiving a sequence of lists publishes one event per list, in order,
   each displaying exactly that list; earlier events stay as they were.
   */
  lemma {:induction false} RunPublishesOnePerList(vm: ViewModel, lists: seq<seq<CharacterEntity>>)
    ensures |Run(vm, lists).events| == |vm.events| + |lists|
    ensures Run(vm, lists).events[..|vm.events|] == vm.events
    ensures forall i :: 0 <= i < |lists| ==> Displayed(Run(vm, lists).events[|vm.events| + i]) == lists[i]
    decreases |lists|
  {
    if lists != [] {
      var next := OnFavoriteCharacterList(vm, lists[0]);
      RunPublishesOnePerList(next, lists[1..]);
      var r := Run(vm, lists);
      assert r == Run(next, lists[1..]);
      assert r.events[..|vm.events|] == next.events[..|next.events|][..|vm.events|];
      forall i | 0 <= i < |lists|
        ensures Displayed(r.events[|vm.events| + i]) == lists[i]
      {
        if i == 0 {
          assert r.events[|vm.events|] == next.events[|vm.events|] == Classify(lists[0]);
        } else {
          assert |vm.events| + i == |next.events| + (i - 1);
          assert lists[i] == lists[1..][i - 1];
        }
      }
    }
  }

  /** After a sequence of lists the screen shows the last list received. */
  lemma LastListShown(vm: ViewModel, lists: seq<seq<CharacterEntity>>)
    requires |lists| > 0
    ensures |Run(vm, lists).events| > 0 && Displayed(CurrentValue(Run(vm, lists).events)) == lists[|lists| - 1]
  {
    RunPublishesOnePerList(vm, lists);
  }
}

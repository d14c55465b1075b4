/**
 The `events` LiveData of each view model, with every `value = …` assignment
 recorded, is a log: its current value is the last entry. `Filter` picks out
 the entries of interest, and `LoadingProtocol` states how a loading
 indicator and the outcomes of requests interleave in such a log.
 */
module EventLog {

  /** The value a LiveData observer sees: the last one assigned. */
  function CurrentValue<T>(log: seq<T>): T
    requires |log| > 0
  {
    log[|log| - 1]
  }

  /** The entries of `s` that satisfy `keep`, in their original order. */
  function Filter<T>(s: seq<T>, keep: T -> bool): (r: seq<T>)
    ensures |r| <= |s|
    ensures forall i :: 0 <= i < |r| ==> keep(r[i])
    ensures forall x :: x in s && keep(x) ==> x in r
    decreases |s|
  {
    if s == [] then []
    else (if keep(s[0]) then [s[0]] else []) + Filter(s[1..], keep)
  }

  /** Filtering distributes over concatenation of logs. */
  lemma {:induction false} FilterConcat<T>(a: seq<T>, b: seq<T>, keep: T -> bool)
    ensures Filter(a + b, keep) == Filter(a, keep) + Filter(b, keep)
    decreases |a|
  {
    if a == [] {
      assert a + b == b;
    } else {
      assert (a + b)[0] == a[0];
      assert (a + b)[1..] == a[1..] + b;
      FilterConcat(a[1..], b, keep);
    }
  }

  /** Appending one entry to a log appends it to the filtered log exactly when it is kept. */
  lemma FilterSnoc<T>(a: seq<T>, x: T, keep: T -> bool)
    ensures Filter(a + [x], keep) == Filter(a, keep) + (if keep(x) then [x] else [])
  {
    FilterConcat(a, [x], keep);
    assert [x][1..] == [];
  }

  /**
   Every prefix of `log` holds at least as many `show` entries as outcomes:
   each outcome was announced by an earlier `show`.
   */
  ghost predicate Announced<T>(log: seq<T>, show: T, isOutcome: T -> bool) {
    forall k :: 0 <= k <= |log| ==> |Filter(log[..k], isOutcome)| <= multiset(log[..k])[show]
  }

  /** Appending keeps every outcome announced when an appended outcome has an unanswered `show`. */
  lemma AnnouncedSnoc<T>(log: seq<T>, x: T, show: T, isOutcome: T -> bool)
    requires Announced(log, show, isOutcome)
    requires isOutcome(x) ==> |Filter(log, isOutcome)| < multiset(log)[show]
    ensures Announced(log + [x], show, isOutcome)
  {
    var longer := log + [x];
    forall k | 0 <= k <= |longer|
      ensures |Filter(longer[..k], isOutcome)| <= multiset(longer[..k])[show]
    {
      if k <= |log| {
        assert longer[..k] == log[..k];
      } else {
        assert longer[..k] == longer;
        assert log[..|log|] == log;
        FilterSnoc(log, x, isOutcome);
      }
    }
  }

  /**
   The loading protocol of one kind of request: `show` is published once per
   request, every outcome was announced by an earlier `show` and comes right
   after a `dismiss`, and the requests still unanswered number `pending`.
   */
  ghost predicate LoadingProtocol<T>(log: seq<T>, show: T, dismiss: T, isOutcome: T -> bool, requests: nat, pending: nat) {
    && multiset(log)[show] == requests
    && pending + |Filter(log, isOutcome)| == requests
    && Announced(log, show, isOutcome)
    && (forall i :: 0 <= i < |log| && isOutcome(log[i]) ==> 0 < i && log[i - 1] == dismiss)
  }

  /** Issuing a request publishes `show` and leaves one more request pending. */
  lemma ProtocolAfterShow<T>(log: seq<T>, show: T, dismiss: T, isOutcome: T -> bool, requests: nat, pending: nat)
    requires LoadingProtocol(log, show, dismiss, isOutcome, requests, pending)
    requires !isOutcome(show)
    ensures LoadingProtocol(log + [show], show, dismiss, isOutcome, requests + 1, pending + 1)
  {
    FilterSnoc(log, show, isOutcome);
    AnnouncedSnoc(log, show, show, isOutcome);
  }

  /** Publishing anything that is neither `show` nor an outcome. */
  lemma ProtocolAfterSignal<T>(log: seq<T>, x: T, show: T, dismiss: T, isOutcome: T -> bool, requests: nat, pending: nat)
    requires LoadingProtocol(log, show, dismiss, isOutcome, requests, pending)
    requires x != show && !isOutcome(x)
    ensures LoadingProtocol(log + [x], show, dismiss, isOutcome, requests, pending)
  {
    FilterSnoc(log, x, isOutcome);
    AnnouncedSnoc(log, x, show, isOutcome);
  }

  /** Answering a pending request publishes `dismiss` and then the outcome. */
  lemma ProtocolAfterOutcome<T>(log: seq<T>, e: T, show: T, dismiss: T, isOutcome: T -> bool, requests: nat, pending: nat)
    requires LoadingProtocol(log, show, dismiss, isOutcome, requests, pending)
    requires pending > 0
    requires isOutcome(e) && !isOutcome(show) && !isOutcome(dismiss) && dismiss != show
    ensures LoadingProtocol(log + [dismiss, e], show, dismiss, isOutcome, requests, pending - 1)
  {
    ProtocolAfterSignal(log, dismiss, show, dismiss, isOutcome, requests, pending);
    var hidden := log + [dismiss];
    FilterSnoc(hidden, e, isOutcome);
    AnnouncedSnoc(hidden, e, show, isOutcome);
    assert log + [dismiss, e] == hidden + [e];
  }
}

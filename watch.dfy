/** The `cache.watch` callback of `useFragment` and the closure state it updates. */
module Subscription {
  import opened FragmentTypes
  import opened ResultProjector
  import opened ResultHistory

  /** The closure variables of one registered watch: `immediate`,
      `latestDiff` and `latestResult`. The results reachable from
      `latestResult` through `previousResult` are kept in `results`, and
      `latestResult` is the index of the current one. */
  class FragmentWatch<D, T> {
    var immediate: bool
    var latestDiff: Diff<D, T>
    var latestResult: nat
    var results: seq<FragmentResult<D, T>>
    /** The diffs that were projected, oldest first. */
    ghost var accepted: seq<Diff<D, T>>
    /** The deep-merge primitive used by the projector. */
    const merge: seq<T> -> T
    /** The deep-equality primitive used by the gate. */
    const equal: (Diff<D, T>, Diff<D, T>) -> bool

    ghost predicate Valid()
      reads this
    {
      && |accepted| > 0
      && results == History(accepted, merge)
      && latestDiff == accepted[|accepted| - 1]
      && latestResult == |results| - 1
    }

    /** The synchronous initial read `initial` is projected without a
        previous result, and the watch is registered with `immediate` set. */
    constructor (initial: Diff<D, T>, merge: seq<T> -> T, equal: (Diff<D, T>, Diff<D, T>) -> bool)
      ensures Valid() && immediate
      ensures this.merge == merge && this.equal == equal
      ensures latestDiff == initial && accepted == [initial]
      ensures results == [Project([], initial, None, merge)] && latestResult == 0
    {
      this.merge := merge;
      this.equal := equal;
      latestDiff := initial;
      results := [Project([], initial, None, merge)];
      latestResult := 0;
      accepted := [initial];
      immediate := true;
      assert [initial][..0] == [];
    }

    /** The watch callback. While `immediate` is set, a diff deep-equal to
        `latestDiff` is dropped; otherwise it becomes `latestDiff` and is
        projected with the latest result as its previous result. */
    method Callback(newDiff: Diff<D, T>) returns (delivered: bool)
      requires Valid()
      modifies this
      ensures Valid() && !immediate
      ensures delivered <==> !old(immediate) || !equal(newDiff, old(latestDiff))
      ensures delivered ==> latestDiff == newDiff && accepted == old(accepted) + [newDiff]
      ensures delivered ==> results == old(results) + [Project(old(results), newDiff, Some(old(latestResult)), merge)]
      ensures delivered ==> latestResult == old(latestResult) + 1
      ensures delivered ==> results[latestResult].previousResult == Some(old(latestResult))
      ensures !delivered ==> latestDiff == old(latestDiff) && accepted == old(accepted)
      ensures !delivered ==> results == old(results) && latestResult == old(latestResult)
      ensures old(results[latestResult].lastCompleteResult).Some? ==>
                results[latestResult].lastCompleteResult.Some?
                && old(results[latestResult].lastCompleteResult.value) <= results[latestResult].lastCompleteResult.value
    {
      if !immediate || !equal(newDiff, latestDiff) {
        ghost var before := accepted;
        latestDiff := newDiff;
        results := Extend(results, newDiff, merge);
        latestResult := |results| - 1;
        accepted := accepted + [newDiff];
        delivered := true;
        assert accepted[..|accepted| - 1] == before;
        HistoryChain(accepted, merge);
        assert results[latestResult - 1] == results[..|results| - 1][latestResult - 1];
        if results[latestResult - 1].lastCompleteResult.Some? {
          LastCompleteMonotone(results, latestResult - 1, latestResult);
        }
      } else {
        delivered := false;
      }
      immediate := false;
    }

    /** What the hook returns: the latest result, which projects the latest
        accepted diff and whose last complete result is the latest complete
        result so far. */
    method Current() returns (r: FragmentResult<D, T>)
      requires Valid()
      ensures r == results[latestResult]
      ensures ProjectsDiff(r, latestDiff, merge)
      ensures r.data == latestDiff.result && r.complete == Truthy(latestDiff.complete)
      ensures r.previousResult == (if |results| == 1 then None else Some(|results| - 2))
      ensures r.lastCompleteResult == LatestComplete(results, |results|)
    {
      HistoryChain(accepted, merge);
      r := results[latestResult];
    }
  }

  /** A watch whose first callback re-delivers the initial diff, followed by
      the same diff once more: the first delivery is dropped, the second is
      projected even though nothing changed, and it links back to the
      initial result. */
  method RedeliveryScenario<D, T>(d: Diff<D, T>, merge: seq<T> -> T,
                                  equal: (Diff<D, T>, Diff<D, T>) -> bool)
    returns (first: bool, second: bool, current: FragmentResult<D, T>)
    requires equal(d, d)
    ensures !first && second
    ensures current.previousResult == Some(0)
    ensures current.data == d.result
  {
    var w := new FragmentWatch(d, merge, equal);
    first := w.Callback(d);
    second := w.Callback(d);
    current := w.Current();
  }
}

/** The result projector `diffToResult`. */
module ResultProjector {
  import opened FragmentTypes

  /** `errors.map(error => error.missing)`: the missing sub-trees, in order. */
  function MissingTrees<T>(errors: seq<MissingFieldError<T>>): (trees: seq<T>)
    ensures |trees| == |errors|
    ensures forall i :: 0 <= i < |errors| ==> trees[i] == errors[i].missing
  {
    if errors == [] then [] else [errors[0].missing] + MissingTrees(errors[1..])
  }

  /** `diffToResult(diff, previousResult)`, producing the entry that will sit
      at index |h| of history `h`. `prev` is the index of the previous
      result, if one is passed; `merge` is the deep-merge primitive. */
  function Project<D, T>(h: seq<FragmentResult<D, T>>, diff: Diff<D, T>, prev: Option<nat>,
                         merge: seq<T> -> T): (r: FragmentResult<D, T>)
    requires prev.Some? ==> prev.value < |h|
    ensures r.data == diff.result
    ensures r.complete <==> diff.complete == Some(true)
    ensures r.missing.Some? <==> diff.missing.Some?
    ensures diff.missing.Some? ==> r.missing.value == merge(MissingTrees(diff.missing.value))
    ensures r.previousResult == prev
    ensures r.complete ==> r.lastCompleteResult == Some(|h|)
    ensures !r.complete && prev.None? ==> r.lastCompleteResult == None
    ensures !r.complete && prev.Some? && h[prev.value].complete ==> r.lastCompleteResult == prev
    ensures !r.complete && prev.Some? && !h[prev.value].complete ==>
              r.lastCompleteResult == h[prev.value].lastCompleteResult
  {
    var complete := Truthy(diff.complete);
    var missing := if diff.missing.Some? then Some(merge(MissingTrees(diff.missing.value))) else None;
    var last :=
      if complete then Some(|h|)
      else if prev.None? then None
      else if h[prev.value].complete then prev
      else h[prev.value].lastCompleteResult;
    FragmentResult(diff.result, complete, missing, prev, last)
  }

  /** The index of the latest entry of `h`, if any. */
  function LastIndex<D, T>(h: seq<FragmentResult<D, T>>): (k: Option<nat>)
    ensures k.Some? <==> |h| > 0
    ensures k.Some? ==> k.value == |h| - 1
  {
    if |h| == 0 then None else Some(|h| - 1)
  }

  /** One projection step of the hook: `diff` is projected with the latest
      result as its previous result, and the new result is appended. The
      earlier results are left as they were. */
  function Extend<D, T>(h: seq<FragmentResult<D, T>>, diff: Diff<D, T>, merge: seq<T> -> T)
    : (h': seq<FragmentResult<D, T>>)
    ensures |h'| == |h| + 1
    ensures h'[..|h|] == h
    ensures h'[|h|] == Project(h, diff, LastIndex(h), merge)
  {
    h + [Project(h, diff, LastIndex(h), merge)]
  }
}

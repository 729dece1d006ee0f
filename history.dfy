/** The result history chain: successive projections threaded through
    `previousResult`, and the meaning of `lastCompleteResult` along them. */
module ResultHistory {
  import opened FragmentTypes
  import opened ResultProjector

  /** The history produced by projecting `diffs` one after another, each
      with the result before it as its previous result. */
  function History<D, T>(diffs: seq<Diff<D, T>>, merge: seq<T> -> T): (h: seq<FragmentResult<D, T>>)
    ensures |h| == |diffs|
  {
    if diffs == [] then []
    else Extend(History(diffs[..|diffs| - 1], merge), diffs[|diffs| - 1], merge)
  }

  /** The index of the latest complete entry among the first `n` entries of `h`. */
  function LatestComplete<D, T>(h: seq<FragmentResult<D, T>>, n: nat): (k: Option<nat>)
    requires n <= |h|
    ensures k.Some? ==> k.value < n && h[k.value].complete
    ensures k.Some? ==> forall j :: k.value < j < n ==> !h[j].complete
    ensures k.None? ==> forall j :: 0 <= j < n ==> !h[j].complete
  {
    if n == 0 then None
    else if h[n - 1].complete then Some(n - 1)
    else LatestComplete(h, n - 1)
  }

  /** Every entry's previous result is the entry just before it. */
  ghost predicate Linked<D, T>(h: seq<FragmentResult<D, T>>) {
    forall i :: 0 <= i < |h| ==> h[i].previousResult == (if i == 0 then None else Some(i - 1))
  }

  /** Every entry's last complete result is the latest complete entry up to
      and including itself, or absent when there is none. */
  ghost predicate ChainInvariant<D, T>(h: seq<FragmentResult<D, T>>) {
    forall i :: 0 <= i < |h| ==> h[i].lastCompleteResult == LatestComplete(h, i + 1)
  }

  /** Entry `r` is the projection of diff `d`, as far as its own fields go. */
  ghost predicate ProjectsDiff<D, T>(r: FragmentResult<D, T>, d: Diff<D, T>, merge: seq<T> -> T) {
    && r.data == d.result
    && r.complete == Truthy(d.complete)
    && r.missing == (if d.missing.Some? then Some(merge(MissingTrees(d.missing.value))) else None)
  }

  lemma {:induction false} LatestCompletePrefix<D, T>(a: seq<FragmentResult<D, T>>,
                                                      b: seq<FragmentResult<D, T>>, n: nat)
    requires n <= |a| && n <= |b| && a[..n] == b[..n]
    ensures LatestComplete(a, n) == LatestComplete(b, n)
  {
    if n > 0 {
      assert a[n - 1] == a[..n][n - 1] == b[..n][n - 1] == b[n - 1];
      assert a[..n - 1] == a[..n][..n - 1];
      assert b[..n - 1] == b[..n][..n - 1];
      LatestCompletePrefix(a, b, n - 1);
    }
  }

  /** Appending an entry leaves the earlier entries' latest complete entry as it was. */
  lemma {:induction false} AppendKeepsEarlier<D, T>(h: seq<FragmentResult<D, T>>, r: FragmentResult<D, T>)
    requires ChainInvariant(h)
    ensures forall i :: 0 <= i < |h| ==> (h + [r])[i].lastCompleteResult == LatestComplete(h + [r], i + 1)
  {
    var h' := h + [r];
    forall i | 0 <= i < |h|
      ensures h'[i].lastCompleteResult == LatestComplete(h', i + 1)
    {
      assert h'[..i + 1] == h[..i + 1];
      LatestCompletePrefix(h, h', i + 1);
    }
  }

  /** The projected entry's `lastCompleteResult` is the latest complete entry
      of the extended history. */
  lemma {:induction false} NewEntryLatest<D, T>(h: seq<FragmentResult<D, T>>, d: Diff<D, T>, merge: seq<T> -> T)
    requires ChainInvariant(h)
    ensures Project(h, d, LastIndex(h), merge).lastCompleteResult
            == LatestComplete(h + [Project(h, d, LastIndex(h), merge)], |h| + 1)
  {
    var r := Project(h, d, LastIndex(h), merge);
    var h' := h + [r];
    assert h'[..|h|] == h[..|h|];
    LatestCompletePrefix(h, h', |h|);
    if !r.complete && |h| > 0 {
      var p := |h| - 1;
      assert h'[|h|] == r;
      if !h[p].complete {
        assert h[p].lastCompleteResult == LatestComplete(h, p + 1);
      }
    }
  }

  /** One projection step keeps the history linked and keeps every
      `lastCompleteResult` equal to the latest complete entry. */
  lemma {:induction false} ExtendKeepsChain<D, T>(h: seq<FragmentResult<D, T>>, d: Diff<D, T>, merge: seq<T> -> T)
    requires Linked(h) && ChainInvariant(h)
    ensures Linked(Extend(h, d, merge))
    ensures ChainInvariant(Extend(h, d, merge))
  {
    var r := Project(h, d, LastIndex(h), merge);
    var h' := Extend(h, d, merge);
    assert h' == h + [r];
    AppendKeepsEarlier(h, r);
    NewEntryLatest(h, d, merge);
    assert forall i :: 0 <= i < |h| ==> h'[i] == h[i];
  }

  /** By induction over the projections: a history built by the hook is
      linked, each entry projects its own diff, and each entry's
      `lastCompleteResult` is the latest complete entry so far. */
  lemma {:induction false} HistoryChain<D, T>(diffs: seq<Diff<D, T>>, merge: seq<T> -> T)
    ensures Linked(History(diffs, merge))
    ensures ChainInvariant(History(diffs, merge))
    ensures forall i :: 0 <= i < |diffs| ==> ProjectsDiff(History(diffs, merge)[i], diffs[i], merge)
  {
    if diffs != [] {
      var init := diffs[..|diffs| - 1];
      var h := History(init, merge);
      HistoryChain(init, merge);
      ExtendKeepsChain(h, diffs[|diffs| - 1], merge);
      var h' := History(diffs, merge);
      forall i | 0 <= i < |diffs|
        ensures ProjectsDiff(h'[i], diffs[i], merge)
      {
        if i < |init| {
          assert h'[i] == h'[..|h|][i] == h[i];
          assert diffs[i] == init[i];
        }
      }
    }
  }

  /** `lastCompleteResult` names a complete entry no later than the entry
      itself, is the entry itself exactly when it is complete, and is absent
      exactly when no entry so far was complete. */
  lemma LastCompleteMeaning<D, T>(h: seq<FragmentResult<D, T>>, i: nat)
    requires ChainInvariant(h) && i < |h|
    ensures h[i].lastCompleteResult.Some? <==> exists j :: 0 <= j <= i && h[j].complete
    ensures h[i].lastCompleteResult.Some? ==>
              var k := h[i].lastCompleteResult.value;
              k <= i && h[k].complete && (k == i <==> h[i].complete)
  {
    var k := LatestComplete(h, i + 1);
    if k.None? {
      forall j | 0 <= j <= i ensures !h[j].complete { }
    }
  }

  /** Once some entry was complete, `lastCompleteResult` never reverts to
      absent and never moves back to an earlier entry. */
  lemma LastCompleteMonotone<D, T>(h: seq<FragmentResult<D, T>>, i: nat, j: nat)
    requires ChainInvariant(h) && i <= j < |h|
    requires h[i].lastCompleteResult.Some?
    ensures h[j].lastCompleteResult.Some?
    ensures h[i].lastCompleteResult.value <= h[j].lastCompleteResult.value
  {
    var k := h[i].lastCompleteResult.value;
    assert h[k].complete && k < j + 1;
  }

  /** Three projections, the first complete and the other two not: the second
      and third name the first as their last complete result, and the third's
      previous result is the second. */
  lemma LinkageExample<D, T>(d1: Diff<D, T>, d2: Diff<D, T>, d3: Diff<D, T>, merge: seq<T> -> T)
    requires d1.complete == Some(true) && d2.complete != Some(true) && d3.complete != Some(true)
    ensures History([d1, d2, d3], merge)[1].lastCompleteResult == Some(0)
    ensures History([d1, d2, d3], merge)[2].lastCompleteResult == Some(0)
    ensures History([d1, d2, d3], merge)[2].previousResult == Some(1)
  {
    var ds := [d1, d2, d3];
    HistoryChain(ds, merge);
    var h := History(ds, merge);
    assert h[0].complete && !h[1].complete && !h[2].complete;
    assert LatestComplete(h, 2) == Some(0);
    assert LatestComplete(h, 3) == Some(0);
  }
}

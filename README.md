# useFragment: result projection, history chain and watch gate

A Dafny model of the logic inside Apollo Client's `useFragment` hook
(`src/react/hooks/useFragment.ts`). The hook reads a fragment from the
normalized cache and projects each cache diff into a `UseFragmentResult`
(`data`, `complete`, `missing`, `previousResult`, `lastCompleteResult`). It
also registers a `cache.watch` callback that re-projects later diffs. The model has
three parts:

- **Diff-options builder** (`DiffRequest`, `diff_options.dfy`). It defaults
  `optimistic` to true. It resolves `from` as a raw id or through the cache's
  `identify`, resolves the query through `getFragmentDoc`, and forwards every
  other option unchanged.
- **Result projector and history chain** (`ResultProjector`, `ResultHistory`;
  `projector.dfy`, `history.dfy`). A datatype cannot refer to itself, and a
  complete result is its own `lastCompleteResult`. So results are entries of a
  history sequence, and `previousResult` and `lastCompleteResult` are indices
  into it. An entry whose `lastCompleteResult` is its own index is "itself".
  `Project` is `diffToResult`, and `Extend` is one projection with the latest
  result as the previous one. `History` is the history the hook builds from a
  sequence of accepted diffs. `LatestComplete` is an independent reference
  definition: it gives the latest complete entry. `HistoryChain` proves by
  induction that every `lastCompleteResult` equals it.
- **Watch gate** (`Subscription.FragmentWatch`, `watch.dfy`). This is a class
  whose fields are the closure variables `immediate`, `latestDiff` and
  `latestResult`, plus the results reachable through `previousResult`. Its
  `Callback` method is the `cache.watch` callback.

The cache collaborators are function-valued parameters with no assumed
properties: `identify`, `getFragmentDoc`, the deep-equality `equal` and the
deep-merge `mergeDeepArray`. They are deterministic because Dafny functions
are. `setResult` is modelled as the assignment to `latestResult`.

Three behaviours of the code that are easy to misread:

- The gate drops a deep-equal diff only while `immediate` is set, so only the
  first callback after registration can be dropped. Every later callback is
  projected with no equality check (line 82). `Callback` and
  `RedeliveryScenario` state this behaviour.
- `if (diff.missing)` holds for an empty array too. So `missing` is present,
  as `merge([])`, whenever the diff's `missing` array is present, even when
  that array is empty (line 105). `Project` states this.
- When `identify` cannot identify the object, its `undefined` result is
  passed on as `id`. No error is raised (line 67). `BuildDiffOptions` states this.

## Model

| member | source | states |
|---|---|---|
| `FragmentTypes.Truthy` | src/react/hooks/useFragment.ts:102 | `!!complete` is true exactly when `complete` is present and true |
| `ResultProjector.MissingTrees` | src/react/hooks/useFragment.ts:107 | the `.missing` sub-trees of the errors, one per error, in the same order |
| `ResultProjector.Project` | src/react/hooks/useFragment.ts:96-127 | `data` is the diff's result; `complete` is its truthiness; `missing` is present exactly when the diff's `missing` array is, and is then the merge of the errors' trees in order; `previousResult` is present exactly when one is given; `lastCompleteResult` is the result itself if complete, else the previous if complete, else the previous one's, else absent |
| `ResultProjector.Extend` | src/react/hooks/useFragment.ts:83-86 | one projection with the latest result as previous appends exactly one result and leaves all earlier results unchanged |
| `ResultHistory.History` | src/react/hooks/useFragment.ts:72-86 | the history built from the accepted diffs holds one result per diff |
| `ResultHistory.LatestComplete` | src/react/hooks/useFragment.ts:115-121 | reference definition: the returned entry is complete and no later entry is; absent means no entry is complete |
| `ResultHistory.AppendKeepsEarlier` | src/react/hooks/useFragment.ts:99-127 | adding a result does not change what any earlier result's last complete result should be |
| `ResultHistory.NewEntryLatest` | src/react/hooks/useFragment.ts:115-125 | the new result's `lastCompleteResult` is the latest complete result of the extended history |
| `ResultHistory.ExtendKeepsChain` | src/react/hooks/useFragment.ts:111-125 | one projection step keeps every result linked to its predecessor and every `lastCompleteResult` equal to the latest complete result |
| `ResultHistory.HistoryChain` | src/react/hooks/useFragment.ts:72-127 | by induction over the projections: each result projects its own diff, its `previousResult` is the result before it (absent for the first), and its `lastCompleteResult` is the latest complete result so far, or absent if none was complete |
| `ResultHistory.LastCompleteMeaning` | src/react/hooks/useFragment.ts:115-121 | `lastCompleteResult` is present exactly when some result so far was complete; it then names a complete result no later than this one, and names this one exactly when this one is complete |
| `ResultHistory.LastCompleteMonotone` | src/react/hooks/useFragment.ts:115-121 | once present, `lastCompleteResult` never reverts to absent and never moves back to an earlier result |
| `ResultHistory.LinkageExample` | src/react/hooks/useFragment.ts:111-125 | with the first of three results complete and the other two not, the second and third name the first as last complete, and the third's previous result is the second |
| `DiffRequest.BuildDiffOptions` | src/react/hooks/useFragment.ts:57-70 | `optimistic` is true unless supplied, and the supplied value otherwise; a string `from` is the id verbatim; an object `from` gets the id `identify` gives; the query is `getFragmentDoc(fragment, fragmentName)`; every other option is forwarded unchanged, and no other key appears |
| `DiffRequest.IdentityEquivalence` | src/react/hooks/useFragment.ts:67 | a raw id and an object that identifies to that id give the same request |
| `Subscription.FragmentWatch.constructor` | src/react/hooks/useFragment.ts:72-77 | the initial diff is projected with no previous result, and `immediate` starts true |
| `Subscription.FragmentWatch.Callback` | src/react/hooks/useFragment.ts:81-89 | a callback is accepted exactly when `immediate` was false or the diff is not deep-equal to `latestDiff`; when accepted, `latestDiff` becomes the new diff and one result is appended whose previous result is the old latest; when rejected, nothing but `immediate` changes; `immediate` ends false; the last complete result never reverts or moves back |
| `Subscription.FragmentWatch.Current` | src/react/hooks/useFragment.ts:93 | the returned result is the entry at `latestResult`; it projects `latestDiff` (data, completeness and missing tree), links to the result before it, and names the latest complete result so far |
| `Subscription.RedeliveryScenario` | src/react/hooks/useFragment.ts:77-89 | with the initial diff delivered twice more, the first callback is dropped and the second is projected, linking back to the initial result |

## Left out

- React machinery: `useState`, `useEffect` and its dependency array `[latestDiff]`, and re-rendering. `setResult` is the assignment to `latestResult`. `FragmentWatch` models one registration after mount. Effect re-runs are not modelled: a re-run keeps the current result and its chain, reads a fresh `latestDiff`, and the two need not agree.
- `useApolloClient`, `cache.diff`, `cache.watch` and the teardown function it returns, `cache.identify` and `getFragmentDoc`: these are foreign calls. The initial diff is a constructor argument. `identify` and `getFragmentDoc` are parameters. The request passed to `cache.watch` (the diff options plus `immediate: true`) is not modelled separately.
- `equal` from `@wry/equality` and `mergeDeepArray`: these are opaque function parameters. Nothing is claimed about what they compute, so merge associativity and conflict resolution are not modelled.
- Asynchronous delivery order and late deliveries after teardown: the code has no teardown guard of its own.
- The diff's other fields: `Diff` and `MissingFieldError` hold only the fields the projector reads. `equal` at line 82 compares whole diff objects, so two diffs that differ only in another field of `Cache.DiffResult` are one value at the gate.
- The TypeScript option and result interfaces (lines 14-50) are types only. Only the fields the code reads are modelled, and `MissingFieldError` carries only a message and its `missing` tree.
- Object identity, aliasing and heap allocation of result objects: results are immutable values in a history sequence, linked by index.

/** Value types shared by the projector, the history chain and the watch gate. */
module FragmentTypes {

  /** An optional value; `None` stands for an absent field or `undefined`. */
  datatype Option<+T> = None | Some(value: T)

  /** One element of a diff's `missing` array: an error that carries the
      sub-tree of paths the cache could not resolve. */
  datatype MissingFieldError<T> = MissingFieldError(message: string, missing: T)

  /** The cache's diff of a fragment: the data read (possibly undefined), the
      completeness flag (possibly undefined) and the optional array of
      missing-field errors. `D` is the fragment's data type, `T` the type of
      missing trees. */
  datatype Diff<D, T> = Diff(
    result: Option<D>,
    complete: Option<bool>,
    missing: Option<seq<MissingFieldError<T>>>)

  /** A projected result, stored as one entry of a result history.
      `previousResult` and `lastCompleteResult` are indices into that history;
      an entry whose `lastCompleteResult` is its own index is its own last
      complete result. */
  datatype FragmentResult<D, T> = FragmentResult(
    data: Option<D>,
    complete: bool,
    missing: Option<T>,
    previousResult: Option<nat>,
    lastCompleteResult: Option<nat>)

  /** JavaScript's `!!b` for a boolean that may be undefined. */
  function Truthy(b: Option<bool>): (r: bool)
    ensures r <==> b == Some(true)
  {
    b.Some? && b.value
  }
}

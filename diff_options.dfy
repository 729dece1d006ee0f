/** The diff-options builder at the top of `useFragment`. */
module DiffRequest {
  import opened FragmentTypes

  /** `from`: a raw id string, or a store object / reference to be identified. */
  datatype From<O> = FromId(id: string) | FromObject(obj: O)

  /** The hook's options. `others` holds every further option the caller
      passed (variables, returnPartialData, canonizeResults, ...), by name. */
  datatype FragmentOptions<F, O, V> = FragmentOptions(
    fragment: F,
    fragmentName: Option<string>,
    from: From<O>,
    optimistic: Option<bool>,
    others: map<string, V>)

  /** The request handed to the cache: the spread rest options, then `id`,
      `query` and `optimistic`, which take precedence over same-named rest keys. */
  datatype DiffOptions<Q, V> = DiffOptions(
    rest: map<string, V>,
    id: Option<string>,
    query: Q,
    optimistic: bool)

  /** The option names taken out by the destructuring. */
  const Destructured: set<string> := {"fragment", "fragmentName", "from", "optimistic"}

  /** The option names that the built request sets explicitly. */
  const Explicit: set<string> := {"id", "query", "optimistic"}

  /** Builds the diff options; `identify` and `getFragmentDoc` are the cache's
      `identify` and `getFragmentDoc`. */
  function BuildDiffOptions<F, O, V, Q>(options: FragmentOptions<F, O, V>,
                                        identify: O -> Option<string>,
                                        getFragmentDoc: (F, Option<string>) -> Q)
    : (r: DiffOptions<Q, V>)
    ensures options.optimistic.None? ==> r.optimistic
    ensures options.optimistic.Some? ==> r.optimistic == options.optimistic.value
    ensures options.from.FromId? ==> r.id == Some(options.from.id)
    ensures options.from.FromObject? ==> r.id == identify(options.from.obj)
    ensures r.query == getFragmentDoc(options.fragment, options.fragmentName)
    ensures forall k :: k in r.rest <==> k in options.others && k !in Destructured && k !in Explicit
    ensures forall k :: k in r.rest ==> r.rest[k] == options.others[k]
  {
    var optimistic := if options.optimistic.Some? then options.optimistic.value else true;
    var rest := options.others - Destructured;
    var id := match options.from
      case FromId(s) => Some(s)
      case FromObject(o) => identify(o);
    DiffOptions(rest - Explicit, id, getFragmentDoc(options.fragment, options.fragmentName), optimistic)
  }

  /** A raw id and an object that identifies to the same id give the same
      request, all other options being equal. */
  lemma IdentityEquivalence<F, O, V, Q>(byId: FragmentOptions<F, O, V>, byObject: FragmentOptions<F, O, V>,
                                        identify: O -> Option<string>,
                                        getFragmentDoc: (F, Option<string>) -> Q)
    requires byId.from.FromId? && byObject.from.FromObject?
    requires identify(byObject.from.obj) == Some(byId.from.id)
    requires byId.fragment == byObject.fragment && byId.fragmentName == byObject.fragmentName
    requires byId.optimistic == byObject.optimistic && byId.others == byObject.others
    ensures BuildDiffOptions(byId, identify, getFragmentDoc) == BuildDiffOptions(byObject, identify, getFragmentDoc)
  {
  }
}

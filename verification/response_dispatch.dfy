/**
 * Response callbacks of an engine message and the order in which a response
 * reaches them.
 *
 * A response's runtime class is represented by the set of `Kind` tags of
 * that class and all its supertypes, so that `it is T` is membership.  A callback
 * registered through `onResponse` has no filter; one registered through
 * `onResponseWith<T>` carries the filter `Some(T)`: its wrapper is invoked
 * for every response, but hands the response on to its handler only when the
 * response is of kind `T`.
 */
module ResponseDispatch {
  import opened Wrappers

  type Kind = string

  /** A response: the kinds it is an instance of (its class and every supertype) and an opaque payload. */
  datatype Response = Response(kinds: set<Kind>, payload: string)

  /** A registered callback: the handler it wraps and the kind it filters on, if any. */
  datatype Callback = Callback(handler: string, filter: Option<Kind>)

  /** One invocation `callback.onResponse(response)` made while accepting a response. */
  datatype Delivery = Delivery(callback: Callback, response: Response)

  /** Whether the handler of `c` runs when `c` is invoked with `r` (the `it is T` test). */
  predicate Fires(c: Callback, r: Response) {
    match c.filter
    case None => true
    case Some(k) => k in r.kinds
  }

  /** The invocations that accepting `r` makes on the callback list `cbs`. */
  function Dispatch(cbs: seq<Callback>, r: Response): (trace: seq<Delivery>)
    ensures |trace| == |cbs|
    ensures forall i :: 0 <= i < |cbs| ==> trace[i] == Delivery(cbs[i], r)
  {
    if cbs == [] then [] else [Delivery(cbs[0], r)] + Dispatch(cbs[1..], r)
  }

  /** The invocations of a trace whose handler actually runs, in trace order. */
  function Handled(trace: seq<Delivery>): (h: seq<Delivery>)
    ensures |h| <= |trace|
    ensures forall d :: d in h ==> d in trace && Fires(d.callback, d.response)
    ensures forall d :: d in trace && Fires(d.callback, d.response) ==> d in h
  {
    if trace == [] then []
    else
      var rest := Handled(trace[1..]);
      if Fires(trace[0].callback, trace[0].response) then [trace[0]] + rest else rest
  }

  /** Registering one more callback adds exactly one invocation, after all earlier ones. */
  lemma DispatchAppend(cbs: seq<Callback>, c: Callback, r: Response)
    ensures Dispatch(cbs + [c], r) == Dispatch(cbs, r) + [Delivery(c, r)]
  {
  }

  /**
   * Every registration of a callback receives the accepted response exactly
   * once, and nothing receives any other response: a callback registered
   * twice is invoked twice.
   */
  lemma {:induction false} DispatchCount(cbs: seq<Callback>, r: Response, d: Delivery)
    ensures multiset(Dispatch(cbs, r))[d] == if d.response == r then multiset(cbs)[d.callback] else 0
  {
    if cbs != [] {
      DispatchCount(cbs[1..], r, d);
      assert cbs == [cbs[0]] + cbs[1..];
      assert Dispatch(cbs, r) == [Delivery(cbs[0], r)] + Dispatch(cbs[1..], r);
    }
  }

  /** Filtering keeps every admitted invocation of a trace as often as it occurs, and drops the others. */
  lemma {:induction false} HandledMultiplicity(trace: seq<Delivery>, d: Delivery)
    ensures multiset(Handled(trace))[d] == if Fires(d.callback, d.response) then multiset(trace)[d] else 0
  {
    if trace != [] {
      HandledMultiplicity(trace[1..], d);
      assert trace == [trace[0]] + trace[1..];
    }
  }

  /**
   * The handler of a registered callback runs once per registration when its
   * filter admits the response, and not at all otherwise.
   */
  lemma HandledCount(cbs: seq<Callback>, r: Response, c: Callback)
    ensures multiset(Handled(Dispatch(cbs, r)))[Delivery(c, r)] == if Fires(c, r) then multiset(cbs)[c] else 0
  {
    HandledMultiplicity(Dispatch(cbs, r), Delivery(c, r));
    DispatchCount(cbs, r, Delivery(c, r));
  }

  /** The callbacks of `cbs` whose filter admits `r`, in registration order. */
  function Admitting(cbs: seq<Callback>, r: Response): (a: seq<Callback>)
    ensures forall c :: c in a <==> c in cbs && Fires(c, r)
  {
    if cbs == [] then []
    else if Fires(cbs[0], r) then [cbs[0]] + Admitting(cbs[1..], r)
    else Admitting(cbs[1..], r)
  }

  /**
   * The handlers that run are those of the admitting callbacks, each once per
   * registration and in registration order.
   */
  lemma {:induction false} HandledInOrder(cbs: seq<Callback>, r: Response)
    ensures Handled(Dispatch(cbs, r)) == Dispatch(Admitting(cbs, r), r)
  {
    if cbs != [] {
      HandledInOrder(cbs[1..], r);
      var t := Dispatch(cbs, r);
      assert t == [Delivery(cbs[0], r)] + Dispatch(cbs[1..], r);
      assert t[1..] == Dispatch(cbs[1..], r);
    }
  }

  /**
   * A callback registered with the filter `k` handles `r` exactly when `r` is
   * an instance of kind `k`, while an unfiltered callback on the same list handles every
   * response.
   */
  lemma FilteredAndUnfiltered(cbs: seq<Callback>, r: Response, h: string, k: Kind, u: string)
    requires Callback(h, Some(k)) in cbs && Callback(u, None) in cbs
    ensures Delivery(Callback(h, Some(k)), r) in Handled(Dispatch(cbs, r)) <==> k in r.kinds
    ensures Delivery(Callback(u, None), r) in Handled(Dispatch(cbs, r))
  {
    HandledCount(cbs, r, Callback(h, Some(k)));
    HandledCount(cbs, r, Callback(u, None));
  }
}

/**
 * The observer protocol of `Arrangement_2`: a list of registered observers,
 * registration (append), unregistration (erase the first match), and the
 * `_notify_before_*` / `_notify_after_*` loops. Each observer callback is
 * recorded as a `Call` in a trace, so the order in which observers hear
 * about a change is part of the state.
 */
module Observers {
  import opened Common

  /** An observer is registered by pointer; its identity is all the arrangement uses. */
  type ObserverId = nat

  /** The `before_*` callbacks with their arguments (handles are DCEL ids). */
  datatype BeforeEvent<P, C> =
    | BeforeAssign
    | BeforeClear
    | BeforeGlobalChange
    | BeforeCreateVertex(p: P)
    | BeforeCreateVertexAtInfinity(infX: Boundary, infY: Boundary)
    | BeforeCreateEdge(c: C, v1: nat, v2: nat)
    | BeforeModifyVertex(v: nat, p: P)
    | BeforeModifyEdge(e: nat, c: C)
    | BeforeSplitEdge(e: nat, v: nat, c1: C, c2: C)
    | BeforeSplitFictitiousEdge(e: nat, v: nat)
    | BeforeSplitFace(f: nat, e: nat)
    | BeforeSplitHole(f: nat, h: nat, e: nat)
    | BeforeAddHole(f: nat, e: nat)
    | BeforeAddIsolatedVertex(f: nat, v: nat)
    | BeforeMergeEdge(e1: nat, e2: nat, c: C)
    | BeforeMergeFictitiousEdge(e1: nat, e2: nat)
    | BeforeMergeFace(f1: nat, f2: nat, e: nat)
    | BeforeMergeHole(f: nat, h1: nat, h2: nat, e: nat)
    | BeforeMoveHole(fromF: nat, toF: nat, h: nat)
    | BeforeMoveIsolatedVertex(fromF: nat, toF: nat, v: nat)
    | BeforeRemoveVertex(v: nat)
    | BeforeRemoveVertexAtInfinity(v: nat)
    | BeforeRemoveEdge(e: nat)
    | BeforeRemoveHole(f: nat, h: nat)

  /** The `after_*` callbacks with their arguments (handles are DCEL ids). */
  datatype AfterEvent =
    | AfterAssign
    | AfterClear(u: nat)
    | AfterGlobalChange
    | AfterCreateVertex(v: nat)
    | AfterCreateVertexAtInfinity(v: nat)
    | AfterCreateEdge(e: nat)
    | AfterModifyVertex(v: nat)
    | AfterModifyEdge(e: nat)
    | AfterSplitEdge(e1: nat, e2: nat)
    | AfterSplitFictitiousEdge(e1: nat, e2: nat)
    | AfterSplitFace(f: nat, newF: nat, isHole: bool)
    | AfterSplitHole(f: nat, h1: nat, h2: nat)
    | AfterAddHole(h: nat)
    | AfterAddIsolatedVertex(v: nat)
    | AfterMergeEdge(e: nat)
    | AfterMergeFictitiousEdge(e: nat)
    | AfterMergeFace(f: nat)
    | AfterMergeHole(f: nat, h: nat)
    | AfterMoveHole(h: nat)
    | AfterMoveIsolatedVertex(v: nat)
    | AfterRemoveVertex
    | AfterRemoveVertexAtInfinity
    | AfterRemoveEdge
    | AfterRemoveHole(f: nat)

  datatype Notification<P, C> = Before(before: BeforeEvent<P, C>) | After(after: AfterEvent)

  /** One callback: which observer was told what. */
  datatype Call<P, C> = Call(observer: ObserverId, notification: Notification<P, C>)

  // ---------------------------------------------------------------------
  // Specification functions
  // ---------------------------------------------------------------------

  /** The calls a before-notification makes: every observer, in registration order. */
  function BeforeCalls<P, C>(obs: seq<ObserverId>, b: BeforeEvent<P, C>): (calls: seq<Call<P, C>>)
  {
    if obs == [] then []
    else BeforeCalls(obs[..|obs| - 1], b) + [Call(obs[|obs| - 1], Before(b))]
  }

  /** The calls an after-notification makes: every observer, last registered first. */
  function AfterCalls<P, C>(obs: seq<ObserverId>, a: AfterEvent): (calls: seq<Call<P, C>>)
  {
    if obs == [] then []
    else AfterCalls(obs[1..], a) + [Call(obs[0], After(a))]
  }

  /** The observer list after erasing the first occurrence of o (unchanged if o is absent). */
  function RemoveFirst(obs: seq<ObserverId>, o: ObserverId): (rest: seq<ObserverId>)
  {
    if obs == [] then []
    else if obs[0] == o then obs[1..]
    else [obs[0]] + RemoveFirst(obs[1..], o)
  }

  /**
   * Observers nesting like scopes: each observer's before-call and
   * after-call enclose those of every observer registered after it.
   */
  ghost function Nested<P, C>(obs: seq<ObserverId>, b: BeforeEvent<P, C>, a: AfterEvent): seq<Call<P, C>>
  {
    if obs == [] then []
    else [Call(obs[0], Before(b))] + Nested(obs[1..], b, a) + [Call(obs[0], After(a))]
  }

  // ---------------------------------------------------------------------
  // The registry
  // ---------------------------------------------------------------------

  /** The `observers` member of `Arrangement_2`, with the callbacks made so far. */
  class ObserverList<P, C> {
    var observers: seq<ObserverId>
    var trace: seq<Call<P, C>>

    constructor ()
      ensures observers == [] && trace == []
    {
      observers := [];
      trace := [];
    }

    /** `_register_observer`: append the observer to the list. */
    method RegisterObserver(o: ObserverId)
      modifies this`observers
      ensures observers == old(observers) + [o]
    {
      observers := observers + [o];
    }

    /**
     * `_unregister_observer`: erase the first entry equal to o and report
     * whether there was one.
     */
    method UnregisterObserver(o: ObserverId) returns (removed: bool)
      modifies this`observers
      ensures removed <==> o in old(observers)
      ensures observers == RemoveFirst(old(observers), o)
    {
      var i := 0;
      while i < |observers|
        invariant 0 <= i <= |observers|
        invariant o !in observers[..i]
        invariant observers == old(observers)
      {
        if observers[i] == o {
          RemoveFirstAt(observers, o, i);
          observers := observers[..i] + observers[i + 1..];
          return true;
        }
        i := i + 1;
      }
      assert observers[..i] == observers;
      RemoveFirstAbsent(observers, o);
      return false;
    }

    /** Every `_notify_before_*`: call the observers from the first registered to the last. */
    method NotifyBefore(b: BeforeEvent<P, C>)
      modifies this`trace
      ensures trace == old(trace) + BeforeCalls(observers, b)
    {
      for i := 0 to |observers|
        invariant trace == old(trace) + BeforeCalls(observers[..i], b)
      {
        assert observers[..i + 1][..i] == observers[..i];
        trace := trace + [Call(observers[i], Before(b))];
      }
      assert observers[..|observers|] == observers;
    }

    /** Every `_notify_after_*`: call the observers from the last registered to the first. */
    method NotifyAfter(a: AfterEvent)
      modifies this`trace
      ensures trace == old(trace) + AfterCalls(observers, a)
    {
      var i := |observers|;
      while i > 0
        invariant 0 <= i <= |observers|
        invariant trace == old(trace) + AfterCalls(observers[i..], a)
      {
        i := i - 1;
        assert observers[i..][1..] == observers[i + 1..];
        trace := trace + [Call(observers[i], After(a))];
      }
    }
  }

  // ---------------------------------------------------------------------
  // Unregistration
  // ---------------------------------------------------------------------

  /** Erasing the first match at index i drops exactly that entry. */
  lemma {:induction false} RemoveFirstAt(obs: seq<ObserverId>, o: ObserverId, i: nat)
    requires i < |obs| && obs[i] == o && o !in obs[..i]
    ensures RemoveFirst(obs, o) == obs[..i] + obs[i + 1..]
  {
    if i > 0 {
      assert obs[0] != o;
      assert obs[1..][..i - 1] == obs[1..i];
      RemoveFirstAt(obs[1..], o, i - 1);
    }
  }

  /** Unregistering an observer that is not registered leaves the list unchanged. */
  lemma {:induction false} RemoveFirstAbsent(obs: seq<ObserverId>, o: ObserverId)
    requires o !in obs
    ensures RemoveFirst(obs, o) == obs
  {
    if obs != [] {
      RemoveFirstAbsent(obs[1..], o);
    }
  }

  /** The position of the first registration of o. */
  function FirstIndex(obs: seq<ObserverId>, o: ObserverId): (i: nat)
    requires o in obs
    ensures i < |obs| && obs[i] == o && o !in obs[..i]
  {
    if obs[0] == o then 0
    else
      var j := FirstIndex(obs[1..], o);
      assert obs[..j + 1] == [obs[0]] + obs[1..][..j];
      j + 1
  }

  /**
   * Unregistering a registered observer removes one occurrence of it, the
   * first: the list loses exactly that entry, so it shrinks by one and
   * holds one copy of o fewer.
   */
  lemma RemoveFirstRemovesOne(obs: seq<ObserverId>, o: ObserverId)
    requires o in obs
    ensures RemoveFirst(obs, o) == obs[..FirstIndex(obs, o)] + obs[FirstIndex(obs, o) + 1..]
    ensures |RemoveFirst(obs, o)| == |obs| - 1
    ensures multiset(RemoveFirst(obs, o)) == multiset(obs) - multiset{o}
  {
    var i := FirstIndex(obs, o);
    RemoveFirstAt(obs, o, i);
    var before, after := obs[..i], obs[i + 1..];
    calc {
      multiset(obs);
      { assert obs == before + [o] + after; }
      multiset(before + [o] + after);
      multiset(before) + multiset{o} + multiset(after);
    }
  }

  /** Registering a new observer and then unregistering it restores the list. */
  lemma RegisterThenUnregisterNew(obs: seq<ObserverId>, o: ObserverId)
    requires o !in obs
    ensures RemoveFirst(obs + [o], o) == obs
  {
    var i := |obs|;
    assert (obs + [o])[..i] == obs;
    RemoveFirstAt(obs + [o], o, i);
    assert (obs + [o])[i + 1..] == [];
  }

  /**
   * Registering an already registered observer again and then unregistering
   * it removes the earlier registration and keeps the new one at the end.
   */
  lemma RegisterThenUnregisterAgain(obs: seq<ObserverId>, o: ObserverId)
    requires o in obs
    ensures RemoveFirst(obs + [o], o) == RemoveFirst(obs, o) + [o]
  {
    var i := FirstIndex(obs, o);
    RemoveFirstAt(obs, o, i);
    assert (obs + [o])[..i] == obs[..i];
    RemoveFirstAt(obs + [o], o, i);
    assert (obs + [o])[i + 1..] == obs[i + 1..] + [o];
  }

  // ---------------------------------------------------------------------
  // Notification order
  // ---------------------------------------------------------------------

  /** A before-notification calls observer i as its i-th call. */
  lemma {:induction false} BeforeCallsInRegistrationOrder<P, C>(obs: seq<ObserverId>, b: BeforeEvent<P, C>)
    ensures |BeforeCalls(obs, b)| == |obs|
    ensures forall i :: 0 <= i < |obs| ==> BeforeCalls(obs, b)[i] == Call(obs[i], Before(b))
  {
    if obs != [] {
      BeforeCallsInRegistrationOrder(obs[..|obs| - 1], b);
    }
  }

  /** An after-notification calls observer |obs| - 1 - i as its i-th call. */
  lemma {:induction false} AfterCallsInReverseOrder<P, C>(obs: seq<ObserverId>, a: AfterEvent)
    ensures |AfterCalls<P, C>(obs, a)| == |obs|
    ensures forall i :: 0 <= i < |obs| ==> AfterCalls<P, C>(obs, a)[i] == Call(obs[|obs| - 1 - i], After(a))
  {
    if obs != [] {
      AfterCallsInReverseOrder<P, C>(obs[1..], a);
    }
  }

  /** Before-calls for a list headed by o start with o's call. */
  lemma {:induction false} BeforeCallsCons<P, C>(o: ObserverId, rest: seq<ObserverId>, b: BeforeEvent<P, C>)
    ensures BeforeCalls([o] + rest, b) == [Call(o, Before(b))] + BeforeCalls(rest, b)
    decreases |rest|
  {
    if rest != [] {
      var obs := [o] + rest;
      assert obs[..|obs| - 1] == [o] + rest[..|rest| - 1];
      BeforeCallsCons(o, rest[..|rest| - 1], b);
    } else {
      assert ([o] + rest)[..0] == [];
    }
  }

  /**
   * A before-notification followed by an after-notification nests the
   * observers like scopes: the first registered is told first before the
   * change and last after it.
   */
  lemma {:induction false} NotificationsNest<P, C>(obs: seq<ObserverId>, b: BeforeEvent<P, C>, a: AfterEvent)
    ensures BeforeCalls(obs, b) + AfterCalls(obs, a) == Nested(obs, b, a)
  {
    if obs != [] {
      NotificationsNest(obs[1..], b, a);
      assert obs == [obs[0]] + obs[1..];
      BeforeCallsCons(obs[0], obs[1..], b);
    }
  }

  /** Observers A then B hear before(A), before(B), after(B), after(A). */
  lemma TwoObserversNest<P, C>(A: ObserverId, B: ObserverId, b: BeforeEvent<P, C>, a: AfterEvent)
    ensures BeforeCalls([A, B], b) + AfterCalls([A, B], a) ==
            [Call(A, Before(b)), Call(B, Before(b)), Call(B, After(a)), Call(A, After(a))]
  {
    NotificationsNest([A, B], b, a);
    assert [A, B][1..] == [B];
    assert [B][1..] == [];
    assert Nested<P, C>([B], b, a) == [Call(B, Before(b)), Call(B, After(a))];
  }
}

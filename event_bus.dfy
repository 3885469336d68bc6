/**
 * The host's publish/subscribe registry (host/src/eventBus.js): a map from
 * event name to the set of listeners registered under it. A JavaScript `Set`
 * keeps one copy of each member and iterates in insertion order, so a set of
 * listeners is a sequence without duplicates. Listeners are opaque ids; a
 * delivery is the pair of the listener called and the payload it was given.
 */
module Bus {

  type ListenerId = nat
  type EventName = string
  type Registry = map<EventName, seq<ListenerId>>

  /** What `on` hands back: calling it is `off` with these two arguments. */
  datatype Subscription = Subscription(event: EventName, listener: ListenerId)

  /** One call `cb(payload)` made by `emit`. */
  datatype Delivery<P> = Delivery(listener: ListenerId, payload: P)

  predicate NoDuplicates<T(==)>(s: seq<T>) {
    forall i, j :: 0 <= i < j < |s| ==> s[i] != s[j]
  }

  /** Every set in the registry has each listener once. */
  predicate WellFormed(reg: Registry) {
    forall e :: e in reg ==> NoDuplicates(reg[e])
  }

  /** The listeners `emit` would see: none when the name has no entry. */
  function ListenersOf(reg: Registry, e: EventName): seq<ListenerId> {
    if e in reg then reg[e] else []
  }

  /** `Set.prototype.add`: a member already present keeps its place; a new one goes last. */
  function Added(ids: seq<ListenerId>, id: ListenerId): (r: seq<ListenerId>)
    ensures forall x :: x in r <==> x in ids || x == id
    ensures NoDuplicates(ids) ==> NoDuplicates(r)
    ensures |ids| <= |r| <= |ids| + 1 && r[..|ids|] == ids
  {
    if id in ids then ids else ids + [id]
  }

  /** `Set.prototype.delete`: every other member stays, in its order. */
  function Removed(ids: seq<ListenerId>, id: ListenerId): (r: seq<ListenerId>)
    ensures forall x :: x in r <==> x in ids && x != id
    ensures NoDuplicates(ids) ==> NoDuplicates(r)
    ensures id !in ids ==> r == ids
    ensures NoDuplicates(ids) && id in ids ==> |r| == |ids| - 1
    decreases |ids|
  {
    if ids == [] then []
    else if ids[0] == id then Removed(ids[1..], id)
    else
      var rest := Removed(ids[1..], id);
      assert NoDuplicates(ids) ==> ids[0] !in ids[1..] && ids[0] !in rest;
      [ids[0]] + rest
  }

  /** The registry after `on(e, id)`. */
  function Subscribed(reg: Registry, e: EventName, id: ListenerId): (r: Registry)
    ensures r.Keys == reg.Keys + {e}
    ensures forall e' :: e' in reg && e' != e ==> r[e'] == reg[e']
    ensures id in r[e]
    ensures r[e] == Added(ListenersOf(reg, e), id)
    ensures e !in reg ==> r[e] == [id]
    ensures WellFormed(reg) ==> WellFormed(r)
  {
    reg[e := Added(ListenersOf(reg, e), id)]
  }

  /** The registry after `off(e, id)`; the entry for `e` is never deleted. */
  function Unsubscribed(reg: Registry, e: EventName, id: ListenerId): (r: Registry)
    ensures r.Keys == reg.Keys
    ensures forall e' :: e' in reg && e' != e ==> r[e'] == reg[e']
    ensures id !in ListenersOf(r, e)
    ensures forall x :: x != id ==> (x in ListenersOf(r, e) <==> x in ListenersOf(reg, e))
    ensures id !in ListenersOf(reg, e) ==> r == reg
    ensures WellFormed(reg) ==> WellFormed(r)
  {
    if e in reg then reg[e := Removed(reg[e], id)] else reg
  }

  /** `delivered` is one call per listener of `ids`, in order, each with `payload`. */
  predicate DeliversTo<P(==)>(delivered: seq<Delivery<P>>, ids: seq<ListenerId>, payload: P) {
    |delivered| == |ids| &&
    forall i :: 0 <= i < |ids| ==> delivered[i] == Delivery(ids[i], payload)
  }

  /** Removing a listener that sits at index `k` closes the gap and moves nothing else. */
  lemma {:induction false} RemovedAt(ids: seq<ListenerId>, k: nat)
    requires NoDuplicates(ids) && k < |ids|
    ensures Removed(ids, ids[k]) == ids[..k] + ids[k + 1..]
    decreases |ids|
  {
    if k == 0 {
      assert ids[0] !in ids[1..];
      assert Removed(ids, ids[0]) == Removed(ids[1..], ids[0]);
    } else {
      assert ids[0] != ids[k];
      RemovedAt(ids[1..], k - 1);
      assert ids[1..][..k - 1] == ids[1..k];
      assert ids[1..][k..] == ids[k + 1..];
      assert ids[..k] == [ids[0]] + ids[1..k];
    }
  }

  /** Removing the listener just appended gives the set back. */
  lemma {:induction false} RemovedAppended(ids: seq<ListenerId>, id: ListenerId)
    requires id !in ids
    ensures Removed(ids + [id], id) == ids
    decreases |ids|
  {
    if ids == [] {
      assert Removed([id], id) == Removed([], id);
    } else {
      assert (ids + [id])[1..] == ids[1..] + [id];
      RemovedAppended(ids[1..], id);
      assert ids == [ids[0]] + ids[1..];
    }
  }

  /** Registering a listener that was not there and then unregistering it restores its event's set. */
  lemma SubscribeThenUnsubscribe(reg: Registry, e: EventName, id: ListenerId)
    requires id !in ListenersOf(reg, e)
    ensures ListenersOf(Unsubscribed(Subscribed(reg, e, id), e, id), e) == ListenersOf(reg, e)
    ensures forall e' :: e' in reg && e' != e ==> Unsubscribed(Subscribed(reg, e, id), e, id)[e'] == reg[e']
  {
    RemovedAppended(ListenersOf(reg, e), id);
  }

  /** `off(e, id)` takes `id` out of its place in `e`'s set and leaves every other listener where it was. */
  lemma UnsubscribeKeepsOrder(reg: Registry, e: EventName, k: nat)
    requires WellFormed(reg) && e in reg && k < |reg[e]|
    ensures ListenersOf(Unsubscribed(reg, e, reg[e][k]), e) == reg[e][..k] + reg[e][k + 1..]
  {
    RemovedAt(reg[e], k);
  }

  /** Registering the same listener twice leaves one copy in its first place. */
  lemma SubscribeTwice(reg: Registry, e: EventName, id: ListenerId)
    ensures Subscribed(Subscribed(reg, e, id), e, id) == Subscribed(reg, e, id)
  {
  }

  /** Unregistering twice is unregistering once. */
  lemma UnsubscribeTwice(reg: Registry, e: EventName, id: ListenerId)
    ensures Unsubscribed(Unsubscribed(reg, e, id), e, id) == Unsubscribed(reg, e, id)
  {
  }

  class EventBus<P(==)> {
    var listeners: Registry

    ghost predicate Valid()
      reads this
    {
      WellFormed(listeners)
    }

    constructor ()
      ensures Valid() && listeners == map[]
    {
      listeners := map[];
    }

    /** Registers `id` under `e` (creating an empty set first) and returns its unsubscribe handle. */
    method On(e: EventName, id: ListenerId) returns (sub: Subscription)
      requires Valid()
      modifies this
      ensures Valid() && listeners == Subscribed(old(listeners), e, id)
      ensures sub == Subscription(e, id)
    {
      if e !in listeners {
        listeners := listeners[e := []];
      }
      listeners := listeners[e := Added(listeners[e], id)];
      sub := Subscription(e, id);
    }

    /** Removes `id` from `e`'s set when `e` has one; otherwise nothing happens. */
    method Off(e: EventName, id: ListenerId)
      requires Valid()
      modifies this
      ensures Valid() && listeners == Unsubscribed(old(listeners), e, id)
    {
      if e in listeners {
        listeners := listeners[e := Removed(listeners[e], id)];
      }
    }

    /** Calls the function `on` returned: exactly `off` on the pair it captured. */
    method Unsubscribe(sub: Subscription)
      requires Valid()
      modifies this
      ensures Valid() && listeners == Unsubscribed(old(listeners), sub.event, sub.listener)
    {
      Off(sub.event, sub.listener);
    }

    /**
     * Calls every listener registered under `e` once with `payload`, in
     * insertion order; nothing when `e` has no entry or an empty set. The
     * method has no `modifies` clause: the registry is left as it was.
     */
    method Emit(e: EventName, payload: P) returns (delivered: seq<Delivery<P>>)
      requires Valid()
      ensures DeliversTo(delivered, ListenersOf(listeners, e), payload)
      ensures NoDuplicates(delivered)
    {
      delivered := [];
      if e !in listeners {
        return;
      }
      var ids := listeners[e];
      for i := 0 to |ids|
        invariant DeliversTo(delivered, ids[..i], payload)
      {
        delivered := delivered + [Delivery(ids[i], payload)];
      }
      assert ids[..|ids|] == ids;
      assert NoDuplicates(ids);
    }
  }

  /**
   * Subscribe `a` to "x", emit 42, unsubscribe, emit 7: the first emit reaches
   * `a` once and the second reaches no one.
   */
  method SubscribeEmitUnsubscribe(a: ListenerId) returns (first: seq<Delivery<int>>, second: seq<Delivery<int>>)
    ensures first == [Delivery(a, 42)]
    ensures second == []
  {
    var bus := new EventBus<int>();
    var off := bus.On("x", a);
    first := bus.Emit("x", 42);
    bus.Unsubscribe(off);
    second := bus.Emit("x", 7);
  }
}

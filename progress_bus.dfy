/**
  The progress bus: a module-level set of listeners that `subscribe` adds to,
  the returned closure removes from, and `emit` broadcasts a message to. A
  JavaScript `Set` keeps insertion order, so the set is a sequence without
  duplicates here.
*/
module ProgressBus {
  import opened Wrappers

  /** A listener, by identity: the function object given to `subscribe`. */
  type ListenerId = nat

  /** One call `emit` makes: to whom, with what, and whether the listener threw (the error is caught). */
  datatype Delivery = Delivery(listener: ListenerId, message: string, percent: Option<int>, threw: bool)

  predicate NoDuplicates(ls: seq<ListenerId>) {
    forall i, j :: 0 <= i < j < |ls| ==> ls[i] != ls[j]
  }

  /** `Set.prototype.add`: a new listener joins at the end; one already present keeps its place. */
  function Added(ls: seq<ListenerId>, l: ListenerId): seq<ListenerId> {
    if l in ls then ls else ls + [l]
  }

  /** `Set.prototype.delete`: the listener leaves, the others keep their order. */
  function Removed(ls: seq<ListenerId>, l: ListenerId): seq<ListenerId>
    decreases |ls|
  {
    if |ls| == 0 then []
    else if ls[0] == l then Removed(ls[1..], l)
    else [ls[0]] + Removed(ls[1..], l)
  }

  /** The calls `emit` makes: every registered listener once, in set order, with the message as given. */
  function Deliveries(ls: seq<ListenerId>, message: string, percent: Option<int>, throws: ListenerId -> bool): (ds: seq<Delivery>)
    ensures |ds| == |ls|
  {
    seq(|ls|, i requires 0 <= i < |ls| => Delivery(ls[i], message, percent, throws(ls[i])))
  }

  /** Subscribing adds exactly that listener, never twice, and a second subscription changes nothing. */
  lemma AddedSpec(ls: seq<ListenerId>, l: ListenerId)
    ensures forall x :: x in Added(ls, l) <==> x in ls || x == l
    ensures NoDuplicates(ls) ==> NoDuplicates(Added(ls, l))
    ensures Added(Added(ls, l), l) == Added(ls, l)
    ensures l in ls ==> Added(ls, l) == ls
  {
  }

  /** Unsubscribing removes exactly that listener and keeps every other one. */
  lemma {:induction false} RemovedSpec(ls: seq<ListenerId>, l: ListenerId)
    ensures forall x :: x in Removed(ls, l) <==> x in ls && x != l
    ensures NoDuplicates(ls) ==> NoDuplicates(Removed(ls, l))
    ensures l !in ls ==> Removed(ls, l) == ls
    decreases |ls|
  {
    if |ls| > 0 {
      RemovedSpec(ls[1..], l);
      if NoDuplicates(ls) {
        assert NoDuplicates(ls[1..]);
        assert ls[0] !in ls[1..];
      }
    }
  }

  /** Unsubscribing twice, or after the listener is already gone, leaves the set as it is. */
  lemma RemovedIdempotent(ls: seq<ListenerId>, l: ListenerId)
    ensures Removed(Removed(ls, l), l) == Removed(ls, l)
  {
    RemovedSpec(ls, l);
    RemovedSpec(Removed(ls, l), l);
  }

  /** Two unsubscriptions give the same set in either order. */
  lemma {:induction false} RemovedCommutes(ls: seq<ListenerId>, a: ListenerId, b: ListenerId)
    ensures Removed(Removed(ls, a), b) == Removed(Removed(ls, b), a)
    decreases |ls|
  {
    if |ls| > 0 {
      RemovedCommutes(ls[1..], a, b);
    }
  }

  /** A subscription after an unsubscription puts the listener at the end of the order. */
  lemma Resubscribe(ls: seq<ListenerId>, l: ListenerId)
    ensures Added(Removed(ls, l), l) == Removed(ls, l) + [l]
  {
    RemovedSpec(ls, l);
  }

  /**
    `emit` reaches every registered listener exactly once with the message and
    percentage unchanged, and which listeners throw does not change who is
    reached: only the `threw` marks differ.
  */
  lemma DeliveredOnce(ls: seq<ListenerId>, message: string, percent: Option<int>,
                      throws: ListenerId -> bool, throws': ListenerId -> bool)
    requires NoDuplicates(ls)
    ensures var ds := Deliveries(ls, message, percent, throws);
      (forall l :: l in ls <==> exists i :: 0 <= i < |ds| && ds[i].listener == l)
      && (forall i, j :: 0 <= i < j < |ds| ==> ds[i].listener != ds[j].listener)
      && (forall i :: 0 <= i < |ds| ==> ds[i].message == message && ds[i].percent == percent)
    ensures var ds, ds' := Deliveries(ls, message, percent, throws), Deliveries(ls, message, percent, throws');
      forall i :: 0 <= i < |ds| ==> ds[i].listener == ds'[i].listener && ds[i].message == ds'[i].message
  {
    var ds := Deliveries(ls, message, percent, throws);
    forall l | l in ls
      ensures exists i :: 0 <= i < |ds| && ds[i].listener == l
    {
      var i :| 0 <= i < |ls| && ls[i] == l;
      assert ds[i].listener == l;
    }
  }

  /** The listener registry. */
  class Bus {
    /** The registered listeners in insertion order. */
    var listeners: seq<ListenerId>

    ghost predicate Valid()
      reads this
    {
      NoDuplicates(listeners)
    }

    /** `const listeners = new Set()`. */
    constructor ()
      ensures Valid() && listeners == []
    {
      listeners := [];
    }

    /** `subscribe`: `listeners.add(listener)`. */
    method Subscribe(l: ListenerId)
      requires Valid()
      modifies this
      ensures Valid()
      ensures listeners == Added(old(listeners), l)
    {
      if l !in listeners {
        listeners := listeners + [l];
      }
    }

    /** The closure `subscribe` returns: `listeners.delete(listener)`. */
    method Unsubscribe(l: ListenerId)
      requires Valid()
      modifies this
      ensures Valid()
      ensures listeners == Removed(old(listeners), l)
    {
      RemovedSpec(listeners, l);
      listeners := Removed(listeners, l);
    }

    /**
      `emit`: every registered listener is called once, in order, with the
      message and percentage; an error a listener throws is caught and the
      loop goes on. The registry itself is not changed.
    */
    method Emit(message: string, percent: Option<int>, throws: ListenerId -> bool) returns (ds: seq<Delivery>)
      ensures ds == Deliveries(listeners, message, percent, throws)
    {
      ds := [];
      for i := 0 to |listeners|
        invariant |ds| == i
        invariant forall j :: 0 <= j < i ==> ds[j] == Delivery(listeners[j], message, percent, throws(listeners[j]))
      {
        var l := listeners[i];
        var threw := throws(l);
        ds := ds + [Delivery(l, message, percent, threw)];
      }
    }
  }
}

/**
 * The messaging hub: an in-process publish/subscribe dispatcher. It keeps an ordered list
 * of registered listeners without duplicates. Sending a message of type T delivers it
 * first to every listener able to receive T specifically, then to every listener that
 * receives any message; each of the two rounds walks a snapshot of the list as it was
 * when the round began, so listeners that register or unregister while receiving do not
 * change the round in progress but are seen by the next one.
 *
 * A listener is a record of its capabilities. What a listener does to the hub while it
 * receives a message is given by a `Reaction`: the registrations it adds or removes.
 */
module Messaging {
  import opened Wrappers

  /** The name of a message type. */
  type MessageType = string

  datatype Message = Message(runtimeType: MessageType, body: string)

  /** A listener: its identity, the message types T it receives as a typed listener of T,
      and whether it is also an untyped listener of every message. */
  datatype Listener = Listener(id: nat, typedFor: set<MessageType>, untyped: bool)

  /** One delivery of a message to a listener, through the typed or the untyped receiver. */
  datatype Delivery = Typed(to: Listener, message: Message) | Untyped(to: Listener, message: Message)

  /** A change a listener makes to the hub's registrations while receiving. */
  datatype Edit = Add(listener: Listener) | Remove(listener: Listener)

  type Reaction = Delivery -> seq<Edit>

  /** Fault raised while decoding a JSON envelope. */
  datatype DecodeError = DecodeError(reason: string)

  predicate NoDuplicates(ls: seq<Listener>)
  {
    forall i, j :: 0 <= i < j < |ls| ==> ls[i] != ls[j]
  }

  // ---------------------------------------------------------------------------
  // Registration

  /** Appending a listener only when it is not registered yet. */
  function Fill(ls: seq<Listener>, l: Listener): seq<Listener>
  {
    if l in ls then ls else ls + [l]
  }

  /** Registering is idempotent and keeps the list free of duplicates. */
  lemma FillFacts(ls: seq<Listener>, l: Listener)
    ensures l in Fill(ls, l)
    ensures Fill(Fill(ls, l), l) == Fill(ls, l)
    ensures forall x :: x in Fill(ls, l) <==> x in ls || x == l
    ensures NoDuplicates(ls) ==> NoDuplicates(Fill(ls, l))
  {
  }

  /** The position of the first occurrence of `l`. */
  function IndexOf(ls: seq<Listener>, l: Listener): (i: nat)
    requires l in ls
    ensures i < |ls| && ls[i] == l
    ensures forall j :: 0 <= j < i ==> ls[j] != l
  {
    if ls[0] == l then 0 else 1 + IndexOf(ls[1..], l)
  }

  /** Removing the first occurrence of `l`, as a list's Remove does. */
  function RemoveFirst(ls: seq<Listener>, l: Listener): (r: seq<Listener>)
    ensures l !in ls ==> r == ls
    ensures l in ls ==> r == ls[..IndexOf(ls, l)] + ls[IndexOf(ls, l) + 1..]
  {
    if ls == [] then []
    else if ls[0] == l then ls[1..]
    else
      var rest := RemoveFirst(ls[1..], l);
      assert l in ls[1..] ==> [ls[0]] + ls[1..][..IndexOf(ls[1..], l)] == ls[..IndexOf(ls, l)];
      assert l in ls[1..] ==> ls[1..][IndexOf(ls[1..], l) + 1..] == ls[IndexOf(ls, l) + 1..];
      [ls[0]] + rest
  }

  /** Unregistering from a list without duplicates removes the listener and keeps the
      others, in their order. */
  lemma {:induction false} RemoveFacts(ls: seq<Listener>, l: Listener)
    requires NoDuplicates(ls)
    ensures l !in RemoveFirst(ls, l)
    ensures forall x :: x != l ==> (x in RemoveFirst(ls, l) <==> x in ls)
    ensures NoDuplicates(RemoveFirst(ls, l))
  {
    if ls != [] {
      assert NoDuplicates(ls[1..]);
      assert ls[0] !in ls[1..];
      if ls[0] != l {
        RemoveFacts(ls[1..], l);
        var rest := RemoveFirst(ls[1..], l);
        assert RemoveFirst(ls, l) == [ls[0]] + rest;
        assert ls[0] !in rest;
        ConsKeepsNoDuplicates(ls[0], rest);
      }
    }
  }

  lemma ConsKeepsNoDuplicates(x: Listener, rest: seq<Listener>)
    requires x !in rest && NoDuplicates(rest)
    ensures NoDuplicates([x] + rest)
  {
    var r := [x] + rest;
    forall i, j | 0 <= i < j < |r|
      ensures r[i] != r[j]
    {
      assert r[j] == rest[j - 1];
      if i > 0 {
        assert r[i] == rest[i - 1];
      }
    }
  }

  function ApplyEdit(ls: seq<Listener>, e: Edit): seq<Listener>
  {
    match e
    case Add(l) => Fill(ls, l)
    case Remove(l) => RemoveFirst(ls, l)
  }

  function ApplyEdits(ls: seq<Listener>, edits: seq<Edit>): seq<Listener>
    decreases edits
  {
    if edits == [] then ls else ApplyEdits(ApplyEdit(ls, edits[0]), edits[1..])
  }

  lemma {:induction false} ApplyEditsKeepsNoDuplicates(ls: seq<Listener>, edits: seq<Edit>)
    requires NoDuplicates(ls)
    ensures NoDuplicates(ApplyEdits(ls, edits))
    decreases edits
  {
    if edits != [] {
      match edits[0] {
        case Add(l) => FillFacts(ls, l);
        case Remove(l) => RemoveFacts(ls, l);
      }
      ApplyEditsKeepsNoDuplicates(ApplyEdit(ls, edits[0]), edits[1..]);
    }
  }

  // ---------------------------------------------------------------------------
  // Dispatch

  /** The typed listeners of messages of type `t`, in registration order. */
  function TypedFor(ls: seq<Listener>, t: MessageType): (r: seq<Listener>)
    ensures forall x :: x in r <==> x in ls && t in x.typedFor
  {
    if ls == [] then []
    else (if t in ls[0].typedFor then [ls[0]] else []) + TypedFor(ls[1..], t)
  }

  /** The untyped listeners, in registration order. */
  function UntypedIn(ls: seq<Listener>): (r: seq<Listener>)
    ensures forall x :: x in r <==> x in ls && x.untyped
  {
    if ls == [] then []
    else (if ls[0].untyped then [ls[0]] else []) + UntypedIn(ls[1..])
  }

  function Deliver(l: Listener, typed: bool, m: Message): Delivery
  {
    if typed then Typed(l, m) else Untyped(l, m)
  }

  /** The deliveries of one round: one per listener of the snapshot, in its order. */
  function Deliveries(snapshot: seq<Listener>, typed: bool, m: Message): (r: seq<Delivery>)
    ensures |r| == |snapshot|
    ensures forall i :: 0 <= i < |snapshot| ==> r[i] == Deliver(snapshot[i], typed, m)
  {
    seq(|snapshot|, i requires 0 <= i < |snapshot| => Deliver(snapshot[i], typed, m))
  }

  /**
   * One round of a send: the message goes to each listener of the snapshot in turn, and
   * the registrations that listener makes while receiving are applied to the live list.
   * Gives the deliveries and the live list at the end of the round.
   */
  function Round(snapshot: seq<Listener>, typed: bool, m: Message, ls: seq<Listener>, react: Reaction)
    : (seq<Delivery>, seq<Listener>)
    decreases snapshot
  {
    if snapshot == [] then ([], ls)
    else
      var d := Deliver(snapshot[0], typed, m);
      var next := Round(snapshot[1..], typed, m, ApplyEdits(ls, react(d)), react);
      ([d] + next.0, next.1)
  }

  /** Send<T>: the typed round over the list as it is, then the untyped round over the list
      as the typed round left it. Gives the deliveries and the final list. */
  function SendSpec(ls: seq<Listener>, t: MessageType, m: Message, react: Reaction): (seq<Delivery>, seq<Listener>)
  {
    var typed := Round(TypedFor(ls, t), true, m, ls, react);
    var untyped := Round(UntypedIn(typed.1), false, m, typed.1, react);
    (typed.0 + untyped.0, untyped.1)
  }

  /** A round delivers to exactly its snapshot, whatever the listeners do meanwhile. */
  lemma {:induction false} RoundDeliversSnapshot(snapshot: seq<Listener>, typed: bool, m: Message, ls: seq<Listener>, react: Reaction)
    ensures Round(snapshot, typed, m, ls, react).0 == Deliveries(snapshot, typed, m)
    decreases snapshot
  {
    if snapshot != [] {
      var d := Deliver(snapshot[0], typed, m);
      RoundDeliversSnapshot(snapshot[1..], typed, m, ApplyEdits(ls, react(d)), react);
    }
  }

  /** A round keeps the live list free of duplicates. */
  lemma {:induction false} RoundKeepsNoDuplicates(snapshot: seq<Listener>, typed: bool, m: Message, ls: seq<Listener>, react: Reaction)
    requires NoDuplicates(ls)
    ensures NoDuplicates(Round(snapshot, typed, m, ls, react).1)
    decreases snapshot
  {
    if snapshot != [] {
      var d := Deliver(snapshot[0], typed, m);
      ApplyEditsKeepsNoDuplicates(ls, react(d));
      RoundKeepsNoDuplicates(snapshot[1..], typed, m, ApplyEdits(ls, react(d)), react);
    }
  }

  /** A round in which no listener changes the registrations leaves the list as it was. */
  lemma {:induction false} QuietRoundKeepsList(snapshot: seq<Listener>, typed: bool, m: Message, ls: seq<Listener>, react: Reaction)
    requires forall d :: react(d) == []
    ensures Round(snapshot, typed, m, ls, react).1 == ls
    decreases snapshot
  {
    if snapshot != [] {
      var d := Deliver(snapshot[0], typed, m);
      assert ApplyEdits(ls, react(d)) == ls;
      QuietRoundKeepsList(snapshot[1..], typed, m, ls, react);
    }
  }

  /**
   * The order of a send: first the typed listeners of T registered when the send began,
   * then the untyped listeners registered once the typed round is over; changes made
   * during the typed round do not affect it.
   */
  lemma SendOrder(ls: seq<Listener>, t: MessageType, m: Message, react: Reaction)
    ensures var afterTyped := Round(TypedFor(ls, t), true, m, ls, react).1;
            SendSpec(ls, t, m, react).0 ==
              Deliveries(TypedFor(ls, t), true, m) + Deliveries(UntypedIn(afterTyped), false, m)
  {
    var afterTyped := Round(TypedFor(ls, t), true, m, ls, react).1;
    RoundDeliversSnapshot(TypedFor(ls, t), true, m, ls, react);
    RoundDeliversSnapshot(UntypedIn(afterTyped), false, m, afterTyped, react);
  }

  /** With listeners that leave the registrations alone, a send reaches every typed
      listener of T, then every untyped listener, all in registration order. */
  lemma QuietSend(ls: seq<Listener>, t: MessageType, m: Message, react: Reaction)
    requires forall d :: react(d) == []
    ensures SendSpec(ls, t, m, react).0 == Deliveries(TypedFor(ls, t), true, m) + Deliveries(UntypedIn(ls), false, m)
    ensures SendSpec(ls, t, m, react).1 == ls
  {
    QuietRoundKeepsList(TypedFor(ls, t), true, m, ls, react);
    QuietRoundKeepsList(UntypedIn(ls), false, m, ls, react);
    SendOrder(ls, t, m, react);
  }

  /** Every delivery of a send goes through a capability the listener has: the typed
      receiver of T or the untyped receiver. A listener with neither receives nothing. */
  lemma SendUsesCapabilities(ls: seq<Listener>, t: MessageType, m: Message, react: Reaction)
    ensures forall d :: d in SendSpec(ls, t, m, react).0 ==>
              d.message == m && (d.Typed? ==> t in d.to.typedFor) && (d.Untyped? ==> d.to.untyped)
  {
    SendOrder(ls, t, m, react);
  }

  /** All deliveries of a list that go to listener `l`. */
  function DeliveriesTo(trace: seq<Delivery>, l: Listener): (r: seq<Delivery>)
    ensures forall d :: d in r <==> d in trace && d.to == l
  {
    if trace == [] then []
    else (if trace[0].to == l then [trace[0]] else []) + DeliveriesTo(trace[1..], l)
  }

  lemma {:induction false} DeliveriesToAppend(a: seq<Delivery>, b: seq<Delivery>, l: Listener)
    ensures DeliveriesTo(a + b, l) == DeliveriesTo(a, l) + DeliveriesTo(b, l)
  {
    if a == [] {
      assert a + b == b;
    } else {
      assert (a + b)[0] == a[0];
      assert (a + b)[1..] == a[1..] + b;
      DeliveriesToAppend(a[1..], b, l);
    }
  }

  /** In a list without duplicates, a listener registered once gets one delivery of a
      round when it is in the snapshot, and none when it is not. */
  lemma {:induction false} RoundDeliversOnce(snapshot: seq<Listener>, typed: bool, m: Message, l: Listener)
    requires NoDuplicates(snapshot)
    ensures l in snapshot ==> DeliveriesTo(Deliveries(snapshot, typed, m), l) == [Deliver(l, typed, m)]
    ensures l !in snapshot ==> DeliveriesTo(Deliveries(snapshot, typed, m), l) == []
    decreases snapshot
  {
    if snapshot != [] {
      var ds := Deliveries(snapshot, typed, m);
      assert ds == [Deliver(snapshot[0], typed, m)] + Deliveries(snapshot[1..], typed, m);
      assert ds[0] == Deliver(snapshot[0], typed, m);
      assert ds[1..] == Deliveries(snapshot[1..], typed, m);
      assert NoDuplicates(snapshot[1..]);
      assert snapshot[0] !in snapshot[1..];
      RoundDeliversOnce(snapshot[1..], typed, m, l);
    }
  }

  lemma {:induction false} TypedForKeepsNoDuplicates(ls: seq<Listener>, t: MessageType)
    requires NoDuplicates(ls)
    ensures NoDuplicates(TypedFor(ls, t))
  {
    if ls != [] {
      assert NoDuplicates(ls[1..]) && ls[0] !in ls[1..];
      TypedForKeepsNoDuplicates(ls[1..], t);
    }
  }

  lemma {:induction false} UntypedInKeepsNoDuplicates(ls: seq<Listener>)
    requires NoDuplicates(ls)
    ensures NoDuplicates(UntypedIn(ls))
  {
    if ls != [] {
      assert NoDuplicates(ls[1..]) && ls[0] !in ls[1..];
      UntypedInKeepsNoDuplicates(ls[1..]);
    }
  }

  /** With quiet listeners, a registered listener that is both a typed listener of T and an
      untyped listener gets the message twice, the typed delivery first; one with only
      one of the two gets it once; one with neither, never. */
  lemma QuietSendPerListener(ls: seq<Listener>, t: MessageType, m: Message, react: Reaction, l: Listener)
    requires NoDuplicates(ls) && l in ls
    requires forall d :: react(d) == []
    ensures var got := DeliveriesTo(SendSpec(ls, t, m, react).0, l);
            got == (if t in l.typedFor then [Typed(l, m)] else []) + (if l.untyped then [Untyped(l, m)] else [])
  {
    QuietSend(ls, t, m, react);
    TypedForKeepsNoDuplicates(ls, t);
    UntypedInKeepsNoDuplicates(ls);
    RoundDeliversOnce(TypedFor(ls, t), true, m, l);
    RoundDeliversOnce(UntypedIn(ls), false, m, l);
    DeliveriesToAppend(Deliveries(TypedFor(ls, t), true, m), Deliveries(UntypedIn(ls), false, m), l);
  }

  // ---------------------------------------------------------------------------
  // The hub

  class MessagingHub {
    var listeners: seq<Listener>

    ghost predicate Valid()
      reads this
    {
      NoDuplicates(listeners)
    }

    constructor ()
      ensures Valid() && listeners == []
    {
      listeners := [];
    }

    /** The registered listeners, in registration order. */
    function Listeners(): seq<Listener>
      reads this
    {
      listeners
    }

    /** Registers a listener unless it is registered already. */
    method AddListener(l: Listener)
      requires Valid()
      modifies this
      ensures Valid()
      ensures listeners == Fill(old(listeners), l)
    {
      FillFacts(listeners, l);
      if l !in listeners {
        listeners := listeners + [l];
      }
    }

    /** Unregisters a listener; the others keep their order. */
    method RemoveListener(l: Listener)
      requires Valid()
      modifies this
      ensures Valid()
      ensures listeners == RemoveFirst(old(listeners), l)
    {
      RemoveFacts(listeners, l);
      var i := 0;
      while i < |listeners| && listeners[i] != l
        invariant 0 <= i <= |listeners|
        invariant forall j :: 0 <= j < i ==> listeners[j] != l
      {
        i := i + 1;
      }
      if i < |listeners| {
        listeners := listeners[..i] + listeners[i + 1..];
      }
    }

    /** The registrations a listener makes while it receives. */
    method ApplyAll(edits: seq<Edit>)
      requires Valid()
      modifies this
      ensures Valid()
      ensures listeners == ApplyEdits(old(listeners), edits)
    {
      var i := 0;
      while i < |edits|
        invariant 0 <= i <= |edits|
        invariant Valid()
        invariant ApplyEdits(listeners, edits[i..]) == ApplyEdits(old(listeners), edits)
      {
        assert edits[i..][1..] == edits[i + 1..];
        match edits[i] {
          case Add(l) => AddListener(l);
          case Remove(l) => RemoveListener(l);
        }
        i := i + 1;
      }
    }

    /** Delivers the message to each listener of the snapshot in turn. */
    method RunRound(snapshot: seq<Listener>, typed: bool, m: Message, react: Reaction) returns (trace: seq<Delivery>)
      requires Valid()
      modifies this
      ensures Valid()
      ensures (trace, listeners) == Round(snapshot, typed, m, old(listeners), react)
    {
      trace := [];
      var i := 0;
      assert snapshot[0..] == snapshot;
      assert trace + Round(snapshot, typed, m, listeners, react).0 == Round(snapshot, typed, m, listeners, react).0;
      while i < |snapshot|
        invariant 0 <= i <= |snapshot|
        invariant Valid()
        invariant var rest := Round(snapshot[i..], typed, m, listeners, react);
                  (trace + rest.0, rest.1) == Round(snapshot, typed, m, old(listeners), react)
      {
        var d := Deliver(snapshot[i], typed, m);
        assert snapshot[i..][1..] == snapshot[i + 1..];
        ghost var before := listeners;
        ApplyAll(react(d));
        ghost var rest := Round(snapshot[i + 1..], typed, m, listeners, react);
        assert Round(snapshot[i..], typed, m, before, react) == ([d] + rest.0, rest.1);
        assert trace + ([d] + rest.0) == (trace + [d]) + rest.0;
        trace := trace + [d];
        i := i + 1;
      }
      assert snapshot[i..] == [];
      assert trace + [] == trace;
    }

    /** Send<T>: the typed round over a snapshot of the typed listeners of T, then the
        untyped round over a snapshot of the untyped listeners taken afterwards. */
    method Send(t: MessageType, m: Message, react: Reaction) returns (trace: seq<Delivery>)
      requires Valid()
      modifies this
      ensures Valid()
      ensures (trace, listeners) == SendSpec(old(listeners), t, m, react)
    {
      var typed := RunRound(TypedFor(listeners, t), true, m, react);
      var untyped := RunRound(UntypedIn(listeners), false, m, react);
      trace := typed + untyped;
    }

    /** SendJson: decodes the envelope and sends the message as Send does for its runtime
        type; a decoding failure is raised before anything is delivered. */
    method SendJson(json: string, decode: string -> Result<Message, DecodeError>, react: Reaction)
      returns (r: Result<seq<Delivery>, DecodeError>)
      requires Valid()
      modifies this
      ensures Valid()
      ensures decode(json).Err? ==> r == Err(decode(json).error) && listeners == old(listeners)
      ensures decode(json).Ok? ==>
                var m := decode(json).value;
                r.Ok? && (r.value, listeners) == SendSpec(old(listeners), m.runtimeType, m, react)
    {
      match decode(json)
      case Err(e) =>
        r := Err(e);
      case Ok(m) =>
        var trace := Send(m.runtimeType, m, react);
        r := Ok(trace);
    }
  }
}

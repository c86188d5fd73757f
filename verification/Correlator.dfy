/** Request/response correlation as a state machine over its atomic steps.

    Each registration gets the next number. A resolve is two steps, because the
    sender is taken under the lock and used after it is released; dropping a
    guard deregisters its key and drops its receiver, in either order. Every
    interleaving of these steps is a run. */
module Correlator {
  import opened Wrappers

  /** How far a resolve call has got: on its way to a registration, sent to it, or
      handed back to its caller. */
  datatype Outcome = Flying(target: nat) | Sent(target: nat) | Back

  /** One resolve call: its key and value, and how many registrations preceded it. */
  datatype Call<K, V> = Call(key: K, value: V, at: nat, outcome: Outcome)

  datatype State<K, V> = State(
    next: nat,
    entries: map<K, nat>,
    keyOf: map<nat, K>,
    live: set<nat>,
    open: set<nat>,
    calls: seq<Call<K, V>>,
    received: map<nat, V>)

  datatype Event<K, V> =
    | Register(key: K)
    | Take(key: K, value: V)
    | Send(call: nat)
    | Deregister(id: nat, key: K)
    | Close(id: nat)
    | Cancel(id: nat)
    | Receive(id: nat, call: nat)

  function Initial<K, V>(): State<K, V> {
    State(0, map[], map[], {}, {}, [], map[])
  }

  /** Whether a call has a registration's sender, or has used it. */
  predicate Targets<K, V>(c: Call<K, V>, id: nat) {
    !c.outcome.Back? && c.outcome.target == id
  }

  /** Whether the sender of a registration is neither in the map nor with a call. */
  predicate SenderGone<K, V>(s: State<K, V>, id: nat) {
    id !in s.entries.Values && forall c :: 0 <= c < |s.calls| ==> !Targets(s.calls[c], id)
  }

  /** When a step can happen: a guard is dropped once, a call is sent once, and a
      waiter receives what was sent to it, or is cancelled when its sender is gone. */
  predicate Enabled<K(==), V>(s: State<K, V>, e: Event<K, V>) {
    match e
    case Register(_) | Take(_, _) => true
    case Send(c) => c < |s.calls| && s.calls[c].outcome.Flying?
    case Deregister(id, key) => id in s.live && id in s.keyOf && s.keyOf[id] == key
    case Close(id) => id in s.open
    case Cancel(id) => id in s.open && SenderGone(s, id)
    case Receive(id, c) => id in s.open && c < |s.calls| && s.calls[c].outcome == Sent(id)
  }

  function Step<K, V>(s: State<K, V>, e: Event<K, V>): State<K, V>
    requires Enabled(s, e)
  {
    match e
    case Register(key) =>
      s.(next := s.next + 1, entries := s.entries[key := s.next], keyOf := s.keyOf[s.next := key],
         live := s.live + {s.next}, open := s.open + {s.next})
    case Take(key, value) =>
      if key in s.entries then
        s.(entries := s.entries - {key}, calls := s.calls + [Call(key, value, s.next, Flying(s.entries[key]))])
      else s.(calls := s.calls + [Call(key, value, s.next, Back)])
    case Send(c) =>
      var id := s.calls[c].outcome.target;
      s.(calls := s.calls[c := s.calls[c].(outcome := if id in s.open then Sent(id) else Back)])
    case Deregister(id, key) => s.(entries := s.entries - {key}, live := s.live - {id})
    case Close(id) => s.(open := s.open - {id})
    case Cancel(id) => s.(open := s.open - {id})
    case Receive(id, c) => s.(open := s.open - {id}, received := s.received[id := s.calls[c].value])
  }

  /** The state after a run, or `None` when some step was not possible. */
  function Run<K, V>(events: seq<Event<K, V>>): Option<State<K, V>> {
    if events == [] then Some(Initial())
    else
      match Run(events[..|events| - 1])
      case None => None
      case Some(s) => if Enabled(s, events[|events| - 1]) then Some(Step(s, events[|events| - 1])) else None
  }

  // ---------------------------------------------------------------------
  // The shared object

  datatype WaitError = Cancelled

  /** The pending-request registry. The fields beside `entries` record who holds
      which end of which channel. */
  class Registry<K(==), V> {
    var next: nat
    var entries: map<K, nat>
    var keyOf: map<nat, K>
    var live: set<nat>
    var open: set<nat>
    var calls: seq<Call<K, V>>
    var received: map<nat, V>

    function Snapshot(): State<K, V>
      reads this
    {
      State(next, entries, keyOf, live, open, calls, received)
    }

    constructor ()
      ensures Snapshot() == Initial()
    {
      next, entries, keyOf, live, open, calls, received := 0, map[], map[], {}, {}, [], map[];
    }

    /** Registers interest in a key, replacing any sender already under it. */
    method RegisterKey(key: K) returns (id: nat)
      modifies this
      ensures Snapshot() == Step(old(Snapshot()), Register(key)) && id == old(next)
    {
      id := next;
      next := next + 1;
      entries := entries[key := id];
      keyOf := keyOf[id := key];
      live, open := live + {id}, open + {id};
    }

    /** First half of a resolve: takes the sender; nobody waiting hands the value back. */
    method TakeSender(key: K, value: V) returns (call: nat, returned: Option<V>)
      modifies this
      ensures Snapshot() == Step(old(Snapshot()), Take(key, value)) && call == old(|calls|)
      ensures returned == if key in old(entries) then None else Some(value)
    {
      call := |calls|;
      if key in entries {
        calls := calls + [Call(key, value, next, Flying(entries[key]))];
        entries := entries - {key};
        returned := None;
      } else {
        calls := calls + [Call(key, value, next, Back)];
        returned := Some(value);
      }
    }

    /** Second half: a receiver that is gone hands the value back. */
    method SendValue(call: nat) returns (returned: Option<V>)
      requires Enabled(Snapshot(), Send(call))
      modifies this
      ensures Snapshot() == Step(old(Snapshot()), Send(call))
      ensures returned == if calls[call].outcome.Back? then Some(old(calls)[call].value) else None
    {
      var id := calls[call].outcome.target;
      returned := if id in open then None else Some(calls[call].value);
      calls := calls[call := calls[call].(outcome := if id in open then Sent(id) else Back)];
    }

    /** What dropping a guard does to the shared map: it removes the key, whoever
        is registered under it. */
    method Remove(id: nat, key: K)
      requires Enabled(Snapshot(), Deregister(id, key))
      modifies this
      ensures Snapshot() == Step(old(Snapshot()), Deregister(id, key))
    {
      entries := entries - {key};
      live := live - {id};
    }

    /** Dropping a guard or its wait drops the receiver too. */
    method DropReceiver(id: nat)
      requires Enabled(Snapshot(), Close(id))
      modifies this
      ensures Snapshot() == Step(old(Snapshot()), Close(id))
    {
      open := open - {id};
    }

    /** A wait that can finish: with the value sent, or cancelled when its sender is gone. */
    method FinishWait(id: nat, sent: Option<nat>) returns (r: Result<V, WaitError>)
      requires if sent.Some? then Enabled(Snapshot(), Receive(id, sent.value)) else Enabled(Snapshot(), Cancel(id))
      modifies this
      ensures sent.Some? ==> Snapshot() == Step(old(Snapshot()), Receive(id, sent.value)) && r == Ok(old(calls)[sent.value].value)
      ensures sent.None? ==> Snapshot() == Step(old(Snapshot()), Cancel(id)) && r == Err(Cancelled)
    {
      open := open - {id};
      if sent.None? {
        return Err(Cancelled);
      }
      received := received[id := calls[sent.value].value];
      r := Ok(calls[sent.value].value);
    }

    /** Number of outstanding registrations. */
    method Pending() returns (n: nat)
      ensures n == |entries|
    {
      n := |entries|;
    }
  }

  // ---------------------------------------------------------------------
  // Every run

  /** No registration between `id` and the first `before` of them is of this key. */
  predicate NewestBefore<K(==), V>(s: State<K, V>, id: nat, key: K, before: nat) {
    forall later :: id < later < before && later in s.keyOf ==> s.keyOf[later] != key
  }

  predicate IsFreshEntry<K(==), V>(s: State<K, V>, key: K, id: nat) {
    && id in s.live && id in s.keyOf && s.keyOf[id] == key
    && NewestBefore(s, id, key, s.next)
    && forall c :: 0 <= c < |s.calls| ==> !Targets(s.calls[c], id)
  }

  predicate IsRouted<K(==), V>(s: State<K, V>, call: Call<K, V>)
    requires !call.outcome.Back?
  {
    && call.outcome.target in s.keyOf && s.keyOf[call.outcome.target] == call.key
    && call.outcome.target < call.at <= s.next
    && NewestBefore(s, call.outcome.target, call.key, call.at)
  }

  /** What holds in every reachable state. */
  ghost predicate Invariant<K(!new), V>(s: State<K, V>) {
    && (forall id :: id in s.keyOf <==> 0 <= id < s.next)
    && s.live <= s.keyOf.Keys && s.open <= s.keyOf.Keys
    // An entry belongs to a live guard, the newest registration of its key, to
    // which nothing has been sent.
    && (forall key :: key in s.entries ==> IsFreshEntry(s, key, s.entries[key]))
    // A call goes to the newest registration of its own key at the time it was made.
    && (forall c :: 0 <= c < |s.calls| && !s.calls[c].outcome.Back? ==> IsRouted(s, s.calls[c]))
    // No registration is the target of two calls.
    && (forall c, d :: 0 <= c < d < |s.calls| && !s.calls[c].outcome.Back? && !s.calls[d].outcome.Back? ==>
          s.calls[c].outcome.target != s.calls[d].outcome.target)
    // Whatever was received was sent to that registration.
    && forall id :: id in s.received ==>
         id !in s.open && exists c :: 0 <= c < |s.calls| && s.calls[c].outcome == Sent(id) && s.calls[c].value == s.received[id]
  }

  lemma RegisterKeeps<K(!new), V>(s: State<K, V>, key: K)
    requires Invariant(s)
    ensures Invariant(Step(s, Register(key)))
  {
    var t := Step(s, Register(key));
    forall k | k in t.entries
      ensures IsFreshEntry(t, k, t.entries[k])
    {
      assert k != key ==> IsFreshEntry(s, k, s.entries[k]);
    }
    forall c | 0 <= c < |t.calls| && !t.calls[c].outcome.Back?
      ensures IsRouted(t, t.calls[c])
    {
      assert IsRouted(s, s.calls[c]);
    }
  }

  lemma TakeKeeps<K(!new), V>(s: State<K, V>, key: K, value: V)
    requires Invariant(s)
    ensures Invariant(Step(s, Take(key, value)))
  {
    var t, last := Step(s, Take(key, value)), |s.calls|;
    assert forall c :: 0 <= c < last ==> t.calls[c] == s.calls[c];
    forall k | k in t.entries
      ensures IsFreshEntry(t, k, t.entries[k])
    {
      TakeKeepsFresh(s, key, value, k);
    }
    forall c | 0 <= c < |t.calls| && !t.calls[c].outcome.Back?
      ensures IsRouted(t, t.calls[c])
    {
      if c < last {
        assert IsRouted(s, s.calls[c]);
      } else {
        assert IsFreshEntry(s, key, s.entries[key]);
      }
    }
    forall c | 0 <= c < last && !t.calls[c].outcome.Back? && !t.calls[last].outcome.Back?
      ensures t.calls[c].outcome.target != t.calls[last].outcome.target
    {
      assert IsFreshEntry(s, key, s.entries[key]) && !Targets(s.calls[c], s.entries[key]);
    }
    forall id | id in t.received
      ensures exists c :: 0 <= c < |t.calls| && t.calls[c].outcome == Sent(id) && t.calls[c].value == t.received[id]
    {
      var c :| 0 <= c < last && s.calls[c].outcome == Sent(id) && s.calls[c].value == s.received[id];
      assert t.calls[c] == s.calls[c];
    }
  }

  /** Two keys never share a registration, so taking one leaves the others untouched. */
  lemma TakeKeepsFresh<K(!new), V>(s: State<K, V>, key: K, value: V, k: K)
    requires Invariant(s) && k in s.entries && (key in s.entries ==> k != key)
    ensures IsFreshEntry(Step(s, Take(key, value)), k, s.entries[k])
  {
    assert IsFreshEntry(s, k, s.entries[k]);
    if key in s.entries {
      assert IsFreshEntry(s, key, s.entries[key]);
    }
  }

  lemma SendKeeps<K(!new), V>(s: State<K, V>, c: nat)
    requires Invariant(s) && Enabled(s, Send(c))
    ensures Invariant(Step(s, Send(c)))
  {
    var t := Step(s, Send(c));
    assert forall d :: 0 <= d < |s.calls| && d != c ==> t.calls[d] == s.calls[d];
    forall id | id in t.received
      ensures exists d :: 0 <= d < |t.calls| && t.calls[d].outcome == Sent(id) && t.calls[d].value == t.received[id]
    {
      var d :| 0 <= d < |s.calls| && s.calls[d].outcome == Sent(id) && s.calls[d].value == s.received[id];
      assert t.calls[d] == s.calls[d];
    }
  }

  lemma ReceiveKeeps<K(!new), V>(s: State<K, V>, id: nat, c: nat)
    requires Invariant(s) && Enabled(s, Receive(id, c))
    ensures Invariant(Step(s, Receive(id, c)))
  {
  }

  lemma {:induction false} Reachable<K(!new), V>(events: seq<Event<K, V>>)
    requires Run(events).Some?
    ensures Invariant(Run(events).value)
  {
    if events != [] {
      Reachable(events[..|events| - 1]);
      var s := Run(events[..|events| - 1]).value;
      match events[|events| - 1]
      case Register(key) => RegisterKeeps(s, key);
      case Take(key, value) => TakeKeeps(s, key, value);
      case Send(c) => SendKeeps(s, c);
      case Receive(id, c) => ReceiveKeeps(s, id, c);
      case Deregister(_, _) =>
      case Close(_) =>
      case Cancel(_) =>
    }
  }

  /** Nothing leaks: in every reachable state each entry belongs to a live guard
      that is the newest registration of its key, so when every guard is gone the
      registry is empty. */
  lemma NothingLeaks<K(!new), V>(events: seq<Event<K, V>>)
    requires Run(events).Some?
    ensures var s := Run(events).value;
            && (forall key :: key in s.entries ==>
                  s.entries[key] in s.live && s.entries[key] in s.keyOf && s.keyOf[s.entries[key]] == key &&
                  NewestBefore(s, s.entries[key], key, s.next))
            && (s.live == {} ==> |s.entries| == 0)
  {
    Reachable(events);
  }

  /** Nothing is misrouted: a value received was sent by exactly one resolve call,
      under the waiter's own key, made when no later registration of that key
      existed. */
  lemma NothingMisrouted<K(!new), V>(events: seq<Event<K, V>>, id: nat) returns (c: nat)
    requires Run(events).Some? && id in Run(events).value.received
    ensures var s := Run(events).value;
            && c < |s.calls| && s.calls[c].outcome == Sent(id) && s.calls[c].value == s.received[id]
            && id in s.keyOf && s.calls[c].key == s.keyOf[id]
            && id < s.calls[c].at && NewestBefore(s, id, s.keyOf[id], s.calls[c].at)
            && forall d :: 0 <= d < |s.calls| && Targets(s.calls[d], id) ==> d == c
  {
    Reachable(events);
    var s := Run(events).value;
    c :| 0 <= c < |s.calls| && s.calls[c].outcome == Sent(id) && s.calls[c].value == s.received[id];
  }

  /** A call's key and value never change, and once it is sent or handed back it stays so. */
  lemma OutcomesAreFinal<K, V>(s: State<K, V>, e: Event<K, V>, c: nat)
    requires Enabled(s, e) && c < |s.calls|
    ensures var t := Step(s, e);
            && c < |t.calls| && t.calls[c].(outcome := s.calls[c].outcome) == s.calls[c]
            && (!s.calls[c].outcome.Flying? ==> t.calls[c] == s.calls[c])
            && (s.calls[c].outcome.Flying? ==>
                  t.calls[c].outcome in {s.calls[c].outcome, Sent(s.calls[c].outcome.target), Back})
  {
  }

  /** A waiter receives at most one value, for good. */
  lemma ReceivedOnce<K(!new), V>(s: State<K, V>, e: Event<K, V>, id: nat)
    requires Invariant(s) && Enabled(s, e) && id in s.received
    ensures id in Step(s, e).received && Step(s, e).received[id] == s.received[id]
    ensures !(e.Receive? && e.id == id)
  {
  }

  /** A step that can leave the current waiter of a key without its sender. */
  predicate Displaces<K(==), V>(e: Event<K, V>, key: K) {
    (e.Register? || e.Deregister?) && e.key == key
  }

  /** A waiter can be cancelled only because, after it registered, its key was
      registered again or some guard of its key was dropped. */
  lemma {:induction false} CancelledWasDisplaced<K(!new), V>(events: seq<Event<K, V>>, id: nat) returns (i: nat)
    requires Run(events).Some? && Enabled(Run(events).value, Cancel(id)) && id in Run(events).value.keyOf
    ensures i < |events| && Run(events[..i]).Some? && id < Run(events[..i]).value.next
    ensures Displaces(events[i], Run(events).value.keyOf[id])
  {
    var before, e := events[..|events| - 1], events[|events| - 1];
    var s := Run(before).value;
    if id in s.keyOf && SenderGone(s, id) {
      KeyStays(before, s, e, id);
      i := CancelledWasDisplaced(before, id);
      assert before[..i] == events[..i];
    } else {
      i := |events| - 1;
      SenderLost(before, s, e, id);
    }
  }

  lemma KeyStays<K(!new), V>(before: seq<Event<K, V>>, s: State<K, V>, e: Event<K, V>, id: nat)
    requires Run(before) == Some(s) && Enabled(s, e) && id in s.keyOf
    ensures id in Step(s, e).keyOf && Step(s, e).keyOf[id] == s.keyOf[id]
    ensures id in Step(s, e).open ==> id in s.open
  {
    Reachable(before);
  }

  lemma SenderLost<K(!new), V>(before: seq<Event<K, V>>, s: State<K, V>, e: Event<K, V>, id: nat)
    requires Run(before) == Some(s) && Enabled(s, e) && Enabled(Step(s, e), Cancel(id)) && id in Step(s, e).keyOf
    requires !(id in s.keyOf && SenderGone(s, id))
    ensures id in s.keyOf && id < s.next && Displaces(e, s.keyOf[id]) && Step(s, e).keyOf[id] == s.keyOf[id]
  {
    Reachable(before);
    if id in s.keyOf && !Displaces(e, s.keyOf[id]) {
      SenderKept(s, e, id);
    } else if id !in s.keyOf {
      SenderStarts(s, e, id);
    }
  }

  lemma SenderStarts<K(!new), V>(s: State<K, V>, e: Event<K, V>, id: nat)
    requires Invariant(s) && Enabled(s, e) && id !in s.keyOf && id in Step(s, e).keyOf
    ensures !SenderGone(Step(s, e), id)
  {
    assert e.Register? && Step(s, e).entries[e.key] == id;
  }

  lemma SenderKept<K(!new), V>(s: State<K, V>, e: Event<K, V>, id: nat)
    requires Invariant(s) && Enabled(s, e) && id in s.keyOf && !SenderGone(s, id)
    requires id in Step(s, e).open && !Displaces(e, s.keyOf[id])
    ensures !SenderGone(Step(s, e), id)
  {
    var t := Step(s, e);
    if id in s.entries.Values {
      var key :| key in s.entries && s.entries[key] == id;
      assert s.keyOf[id] == key;
      if e.Take? && e.key == key {
        assert Targets(t.calls[|s.calls|], id);
      } else {
        assert key in t.entries && t.entries[key] == id;
      }
    } else {
      var c :| 0 <= c < |s.calls| && Targets(s.calls[c], id);
      assert Targets(t.calls[c], id);
    }
  }

  /** One call per resolve, none lost and none invented. */
  lemma {:induction false} CallsCountResolves<K, V>(events: seq<Event<K, V>>)
    requires Run(events).Some?
    ensures var takes := TakesOf(events);
            var calls := Run(events).value.calls;
            |calls| == |takes| && forall c :: 0 <= c < |calls| ==> takes[c] == Take(calls[c].key, calls[c].value)
  {
    if events != [] {
      CallsCountResolves(events[..|events| - 1]);
    }
  }

  function TakesOf<K, V>(events: seq<Event<K, V>>): seq<Event<K, V>> {
    if events == [] then []
    else TakesOf(events[..|events| - 1]) + if events[|events| - 1].Take? then [events[|events| - 1]] else []
  }

  /** A step that changes who is registered under a key. */
  predicate Touches<K(==), V>(e: Event<K, V>, key: K) {
    (e.Register? || e.Take? || e.Deregister?) && e.key == key
  }

  /** The last step of the run that touched a key, as the length of the run up to it. */
  function LastTouch<K(==), V>(events: seq<Event<K, V>>, key: K): (n: nat)
    ensures n <= |events|
    ensures n > 0 ==> Touches(events[n - 1], key)
    ensures forall i :: n <= i < |events| ==> !Touches(events[i], key)
  {
    if events == [] then 0
    else if Touches(events[|events| - 1], key) then |events|
    else LastTouch(events[..|events| - 1], key)
  }

  /** Exactly when a key can be resolved: its last registration is more recent than
      every resolve of it and every drop of any guard of it, the older ones
      included. */
  lemma {:induction false} ResolvableExactly<K(!new), V>(events: seq<Event<K, V>>, key: K)
    requires Run(events).Some?
    ensures var n := LastTouch(events, key);
            key in Run(events).value.entries <==> n > 0 && events[n - 1].Register?
  {
    if events != [] {
      ResolvableExactly(events[..|events| - 1], key);
    }
  }

  /** So a stale guard evicts its successor: dropping the replaced registration
      leaves the newer one waiting, and its response is handed back as unsolicited. */
  lemma StaleGuardEvictsNewer<K(!new), V>(key: K, value: V)
    ensures var run := Run([Register(key), Register(key), Deregister(0, key), Take(key, value)]);
            && run.Some? && 1 in run.value.live && 1 in run.value.open
            && run.value.calls == [Call(key, value, 2, Back)]
  {
    var e := [Register(key), Register(key), Deregister(0, key), Take(key, value)];
    assert e[..3] == [Register(key), Register(key), Deregister(0, key)];
    assert e[..3][..2] == [Register(key), Register(key)];
    assert e[..3][..2][..1] == [Register(key)];
    assert e[..3][..2][..1][..0] == [];
    assert Run(e[..3][..2][..1]) == Some(Step(Initial<K, V>(), Register(key)));
    assert Run(e[..3][..2]).Some?;
    assert Run(e[..3]).Some?;
  }
}

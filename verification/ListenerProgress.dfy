/**
  When a call of the listener comes back with a connection: a dial or an accept whose own steps
  all work out does, whatever other calls do in between.
 */
module ListenerProgress {
  import opened ListenerProtocol

  /** How many turns of its own a call has in front of it at most. */
  function TurnsLeft(call: Call): nat {
    match call
    case DialStart(_) => 6
    case DialLook(_) => 5
    case Connecting(_) => 4
    case DialAgain(_) => 3
    case DialPeer(_) => 2
    case Holding(_, _) => 1
    case Waiting => 4
    case Looking(_) => 3
    case Preparing(_) => 2
    case Inserting(_) => 1
  }

  predicate Own(e: Event, id: nat) { e.Turn? && e.id == id }

  function OwnTurns(events: seq<Event>, id: nat): nat {
    if events == [] then 0 else (if Own(events[0], id) then 1 else 0) + OwnTurns(events[1..], id)
  }

  /** The outside world obliges in every turn of this call. */
  ghost predicate Obliged(events: seq<Event>, id: nat) {
    forall k | 0 <= k < |events| && Own(events[k], id) :: events[k].ok
  }

  /** The call wants pk; an accept has taken its event. */
  ghost predicate Underway(s: System, id: nat, pk: PublicKey) {
    id in s.calls && !s.calls[id].Waiting? && s.calls[id].pk == pk
  }

  predicate Dialling(call: Call) {
    call.DialStart? || call.DialLook? || call.Connecting? || call.DialAgain? || call.DialPeer? || call.Holding?
  }

  /** The listener is open when a dial that has just started takes its first turn. */
  ghost predicate OpenAtStart(s: System, events: seq<Event>, id: nat) {
    id in s.calls && s.calls[id].DialStart? ==>
      !s.closed && forall k | 0 <= k < |events| && events[k].CloseListener? :: OwnTurns(events[..k], id) > 0
  }

  /** The call has returned the peer's connection, which is open and in the table. */
  ghost predicate HandedOut(t: System, id: nat, pk: PublicKey) {
    && id in t.results && t.results[id].Got? && t.results[id].pk == pk
    && pk in t.table.established && t.table.established[pk] == t.results[id].conn
    && t.results[id].conn < |t.table.conns| && !t.table.conns[t.results[id].conn].closed
  }

  lemma OthersLeave(s: System, e: Event, id: nat)
    requires Inv(s) && id in s.calls && !Own(e, id)
    ensures var t := Step(s, e); id in t.calls && t.calls[id] == s.calls[id] && id !in t.results
    ensures Step(s, e).closed == (s.closed || e.CloseListener?)
  {
    if e.Turn? && e.id in s.calls {
      hide Inv;
      TurnLeaves(s, e, id);
    }
  }

  lemma TurnLeaves(s: System, e: Event, id: nat)
    requires Inv(s) && id in s.calls && e.Turn? && e.id in s.calls && e.id != id
    ensures var t := Step(s, e);
      id in t.calls && t.calls[id] == s.calls[id] && (id in t.results <==> id in s.results) && t.closed == s.closed
  {
    hide Step, Inv;
    TurnStep(s, e.id, e.pk, e.ok);
    TurnOfLeaves(s, e.id, s.calls[e.id], e.pk, e.ok, id);
  }

  lemma TurnOfLeaves(s: System, id: nat, call: Call, q: PublicKey, ok: bool, other: nat)
    requires (call.Holding? ==> call.conn < |s.table.conns|) && id != other && other in s.calls
    ensures var t := TurnOf(s, id, call, q, ok);
      other in t.calls && t.calls[other] == s.calls[other] && (other in t.results <==> other in s.results) && t.closed == s.closed
  {
    hide Create, Publish;
  }

  lemma TurnOfAdvances(s: System, id: nat, call: Call, q: PublicKey)
    requires (call.Holding? ==> call.conn < |s.table.conns|) && id !in s.results && !call.Waiting?
    requires call.DialStart? ==> !s.closed
    ensures var t := TurnOf(s, id, call, q, true);
      if id in t.results then t.results[id].Got?
      else
        && id in t.calls && !t.calls[id].Waiting? && t.calls[id].pk == call.pk
        && !t.calls[id].DialStart? && TurnsLeft(t.calls[id]) < TurnsLeft(call)
  {
    hide Create, Publish;
  }

  lemma TurnOfFails(s: System, id: nat, call: Call, q: PublicKey, ok: bool)
    requires (call.Holding? ==> call.conn < |s.table.conns|) && id !in s.results && id in s.calls && s.calls[id] == call
    ensures var t := TurnOf(s, id, call, q, ok);
      if id in t.results then
        (t.results[id].ErrPeer? ==> !ok && Dialling(call)) && (t.results[id].ErrClosed? ==> t.closed)
      else
        id in t.calls && (Dialling(t.calls[id]) <==> Dialling(call))
  {
    hide Create, Publish;
  }

  /** A turn that is obliged brings the call on, or back with a connection. */
  lemma TurnAdvances(s: System, e: Event, id: nat, pk: PublicKey)
    requires Inv(s) && Underway(s, id, pk) && Own(e, id) && e.ok
    requires s.calls[id].DialStart? ==> !s.closed
    ensures var t := Step(s, e);
      if id in t.results then HandedOut(t, id, pk)
      else Underway(t, id, pk) && !t.calls[id].DialStart? && TurnsLeft(t.calls[id]) < TurnsLeft(s.calls[id])
  {
    hide Step, Inv;
    NoResultYet(s, id);
    TurnStep(s, id, e.pk, e.ok);
    TurnOfAdvances(s, id, s.calls[id], e.pk);
    if id in Step(s, e).results {
      HandsOutOpen(s, e, id);
    }
  }

  lemma OpenGoesOn(s: System, events: seq<Event>, id: nat)
    requires Inv(s) && events != [] && OpenAtStart(s, events, id) && id in s.calls && !Own(events[0], id)
    ensures OpenAtStart(Step(s, events[0]), events[1..], id)
  {
    hide Inv, Step;
    OthersLeave(s, events[0], id);
    var rest := events[1..];
    if s.calls[id].DialStart? {
      assert events[..0] == [];
      forall k | 0 <= k < |rest| && rest[k].CloseListener? ensures OwnTurns(rest[..k], id) > 0 {
        assert events[k + 1] == rest[k] && events[..k + 1][1..] == rest[..k];
      }
    }
  }

  /**
    Whatever other calls do: a call that gets all its turns, is obliged in each of them and, as a dial,
    finds the listener open returns the peer's connection, open and in the table.
   */
  lemma {:induction false} CallSucceeds(s: System, events: seq<Event>, id: nat, pk: PublicKey) returns (n: nat)
    requires Inv(s) && Underway(s, id, pk) && OwnTurns(events, id) >= TurnsLeft(s.calls[id])
    requires Obliged(events, id) && OpenAtStart(s, events, id)
    ensures n <= |events| && HandedOut(Run(s, events[..n]), id, pk)
    ensures id in Run(s, events).results && Run(s, events).results[id] == Run(s, events[..n]).results[id]
    decreases |events|
  {
    hide Step, Inv, HandedOut;
    var e, rest := events[0], events[1..];
    var t := Step(s, e);
    StepKeepsInv(s, e);
    assert forall k | 0 <= k < |rest| :: rest[k] == events[k + 1];
    if Own(e, id) {
      TurnAdvances(s, e, id, pk);
      if id in t.results {
        n := 1;
        OneStep(s, events);
        ResultsStay(t, rest, id);
        return;
      }
    } else {
      OpenGoesOn(s, events, id);
      OthersLeave(s, e, id);
    }
    var m := CallSucceeds(t, rest, id, pk);
    n := m + 1;
    assert events[..n][1..] == rest[..m] && events[..n][0] == e;
  }

  lemma OneStep(s: System, events: seq<Event>)
    requires Inv(s) && events != []
    ensures Run(s, events[..1]) == Step(s, events[0])
  {
    hide Step, Inv;
    StepKeepsInv(s, events[0]);
    assert events[..1][1..] == [];
  }

  /** A dial through an open listener: six turns are enough. */
  lemma DialGetsThrough(s: System, events: seq<Event>, id: nat, pk: PublicKey) returns (n: nat)
    requires Inv(s) && !s.closed && id !in s.calls && id !in s.results
    requires events != [] && events[0] == StartDial(id, pk)
    requires OwnTurns(events, id) >= 6 && Obliged(events, id)
    requires forall k | 0 <= k < |events| && events[k].CloseListener? :: OwnTurns(events[..k], id) > 0
    ensures n <= |events| && HandedOut(Run(s, events[..n]), id, pk)
    ensures id in Run(s, events).results && Run(s, events).results[id] == Run(s, events[..n]).results[id]
  {
    hide Inv, HandedOut;
    var t, rest := Step(s, events[0]), events[1..];
    StepKeepsInv(s, events[0]);
    assert forall k | 0 <= k < |rest| :: rest[k] == events[k + 1];
    forall k | 0 <= k < |rest| && rest[k].CloseListener? ensures OwnTurns(rest[..k], id) > 0 {
      assert events[..k + 1][1..] == rest[..k];
    }
    var m := CallSucceeds(t, rest, id, pk);
    n := m + 1;
    assert events[..n][1..] == rest[..m] && events[..n][0] == events[0];
  }

  /** An accept that has taken an event: three turns more are enough, also if the listener closes. */
  lemma AcceptGetsThrough(s: System, events: seq<Event>, id: nat, pk: PublicKey) returns (n: nat)
    requires Inv(s) && id in s.calls && s.calls[id].Waiting?
    requires events != [] && events[0] == Turn(id, pk, true)
    requires OwnTurns(events, id) >= 4 && Obliged(events, id)
    ensures n <= |events| && HandedOut(Run(s, events[..n]), id, pk)
    ensures id in Run(s, events).results && Run(s, events).results[id] == Run(s, events[..n]).results[id]
  {
    hide HandedOut, TableOk;
    var t, rest := Step(s, events[0]), events[1..];
    StepKeepsInv(s, events[0]);
    TurnStep(s, id, pk, true);
    assert t == Go(s, id, Looking(pk));
    hide Inv, Step;
    assert forall k | 0 <= k < |rest| :: rest[k] == events[k + 1];
    var m := CallSucceeds(t, rest, id, pk);
    n := m + 1;
    assert events[..n][1..] == rest[..m] && events[..n][0] == events[0];
  }

  /** A call that ends without a connection has a reason: an own turn that was not obliged, or a closed listener. */
  lemma {:induction false} FailuresHaveReasons(s: System, events: seq<Event>, id: nat)
    requires Inv(s) && id in s.calls && id in Run(s, events).results
    ensures var r := Run(s, events).results[id];
      && (r.ErrPeer? ==> exists k :: 0 <= k < |events| && Own(events[k], id) && !events[k].ok)
      && (r.ErrPeer? ==> Dialling(s.calls[id]))
      && (r.ErrClosed? ==> Run(s, events).closed)
    decreases |events|
  {
    hide Step, Inv;
    if events == [] {
      NoResultYet(s, id);
    } else {
      var e, rest := events[0], events[1..];
      var t := Step(s, e);
      StepKeepsInv(s, e);
      if Own(e, id) {
        TurnFails(s, e, id);
      } else {
        OthersLeave(s, e, id);
      }
      if id in t.results {
        ResultsStay(t, rest, id);
        ClosedForGood(t, rest);
      } else {
        FailuresHaveReasons(t, rest, id);
        if k :| 0 <= k < |rest| && Own(rest[k], id) && !rest[k].ok {
          assert events[k + 1] == rest[k];
        }
      }
    }
  }

  lemma NoResultYet(s: System, id: nat)
    requires Inv(s) && id in s.calls
    ensures id !in s.results
  {
  }

  lemma TurnFails(s: System, e: Event, id: nat)
    requires Inv(s) && id in s.calls && Own(e, id)
    ensures var t := Step(s, e);
      if id in t.results then
        (t.results[id].ErrPeer? ==> !e.ok && Dialling(s.calls[id])) && (t.results[id].ErrClosed? ==> t.closed)
      else
        id in t.calls && (Dialling(t.calls[id]) <==> Dialling(s.calls[id]))
  {
    hide Step, Inv;
    NoResultYet(s, id);
    TurnStep(s, id, e.pk, e.ok);
    TurnOfFails(s, id, s.calls[id], e.pk, e.ok);
  }

  lemma {:induction false} ClosedForGood(s: System, events: seq<Event>)
    requires Inv(s)
    ensures s.closed ==> Run(s, events).closed
    decreases |events|
  {
    hide Step, Inv;
    if events != [] {
      StepKeepsInv(s, events[0]);
      ClosedStays(s, events[0]);
      ClosedForGood(Step(s, events[0]), events[1..]);
    }
  }

  lemma ClosedStays(s: System, e: Event)
    requires Inv(s)
    ensures s.closed ==> Step(s, e).closed
  {
    hide Inv, Create, Publish;
  }

  /** Closing a handed-out connection closes it and frees its entry, and nothing else. */
  lemma CloseFrees(s: System, c: ConnId)
    requires Inv(s) && c < |s.table.conns| && s.table.conns[c].returned
    ensures var t := Step(s, CloseConn(c)).table;
      && c < |t.conns| && t.conns[c].closed
      && (forall pk :: pk in t.established <==> pk in s.table.established && s.table.established[pk] != c)
      && (forall pk | pk in t.established :: t.established[pk] == s.table.established[pk])
      && (forall d | 0 <= d < |s.table.conns| && d != c :: d < |t.conns| && t.conns[d] == s.table.conns[d])
  {
    assert TableOk(s.table);
  }

  /** Once the listener is closed, a dial that starts is refused. */
  lemma ClosedRefusesDials(s: System, id: nat, pk: PublicKey, q: PublicKey, ok: bool)
    requires Inv(s) && id in s.calls && s.calls[id] == DialStart(pk)
    ensures var t := Step(Step(s, CloseListener), Turn(id, q, ok));
      id in t.results && t.results[id] == ErrClosed
  {
    StepKeepsInv(s, CloseListener);
  }
}

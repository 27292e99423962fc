/**
  The connection table of a listener as a protocol.  Accept and Dial look a peer up, give the
  lock away while they prepare a connection, and look again before they publish it; Close runs
  under the lock.  Runs interleave these steps for any number of calls in any order.
 */
module ListenerProtocol {
  type PublicKey = nat
  type ConnId = nat

  /** returned: some call has handed this connection to a caller. */
  datatype ConnInfo = ConnInfo(pk: PublicKey, closed: bool, returned: bool)

  datatype Table = Table(conns: seq<ConnInfo>, established: map<PublicKey, ConnId>)

  datatype Call =
    | Waiting
    | Looking(pk: PublicKey)
    | Preparing(pk: PublicKey)
    | Inserting(pk: PublicKey)
    | DialStart(pk: PublicKey)
    | DialLook(pk: PublicKey)
    | Connecting(pk: PublicKey)
    | DialAgain(pk: PublicKey)
    | DialPeer(pk: PublicKey)
    | Holding(pk: PublicKey, conn: ConnId)

  datatype Result = Got(pk: PublicKey, conn: ConnId) | ErrClosed | ErrPeer

  datatype System = System(table: Table, calls: map<nat, Call>, results: map<nat, Result>, closed: bool)

  /** In a turn, pk is the peer of an arriving event, and ok says whether the outside world obliges. */
  datatype Event =
    | StartAccept(id: nat)
    | StartDial(id: nat, pk: PublicKey)
    | Turn(id: nat, pk: PublicKey, ok: bool)
    | CloseConn(conn: ConnId)
    | CloseListener

  // ---------------------------------------------------------------------------
  // What happens under the lock
  // ---------------------------------------------------------------------------

  ghost predicate TableOk(t: Table) {
    && (forall pk | pk in t.established ::
          var c := t.established[pk];
          c < |t.conns| && t.conns[c].pk == pk && !t.conns[c].closed && t.conns[c].returned)
    && (forall c | 0 <= c < |t.conns| && t.conns[c].returned && !t.conns[c].closed ::
          t.conns[c].pk in t.established && t.established[t.conns[c].pk] == c)
  }

  /** A connection that no caller has seen. */
  ghost predicate Private(t: Table, pk: PublicKey, c: ConnId) {
    c < |t.conns| && t.conns[c] == ConnInfo(pk, false, false)
  }

  function Create(t: Table, pk: PublicKey): (r: (Table, ConnId)) {
    (t.(conns := t.conns + [ConnInfo(pk, false, false)]), |t.conns|)
  }

  /** The second look: an entry made meanwhile wins over the prepared connection. */
  function Publish(t: Table, c: ConnId): (r: (Table, ConnId))
    requires c < |t.conns|
  {
    var pk := t.conns[c].pk;
    if pk in t.established then (t, t.established[pk])
    else (t.(conns := t.conns[c := t.conns[c].(returned := true)], established := t.established[pk := c]), c)
  }

  /** Closing marks the connection and releases its entry; a second close changes nothing. */
  function Release(t: Table, c: ConnId): (r: Table)
    requires c < |t.conns|
  {
    if t.conns[c].closed then t
    else
      var pk := t.conns[c].pk;
      t.(conns := t.conns[c := t.conns[c].(closed := true)],
         established := if pk in t.established && t.established[pk] == c then t.established - {pk} else t.established)
  }

  // ---------------------------------------------------------------------------
  // Runs
  // ---------------------------------------------------------------------------

  function Init(): System {
    System(Table([], map[]), map[], map[], false)
  }

  function Return(s: System, id: nat, r: Result): System {
    s.(calls := s.calls - {id}, results := s.results[id := r])
  }

  function Go(s: System, id: nat, call: Call): System {
    s.(calls := s.calls[id := call])
  }

  /** The first look. */
  function LookUp(s: System, id: nat, pk: PublicKey, otherwise: Call): System {
    if pk in s.table.established then Return(s, id, Got(pk, s.table.established[pk])) else Go(s, id, otherwise)
  }

  function PublishAndReturn(s: System, id: nat, pk: PublicKey, c: ConnId): System
    requires c < |s.table.conns|
  {
    var (table, got) := Publish(s.table, c);
    Return(s.(table := table), id, Got(pk, got))
  }

  function TurnOf(s: System, id: nat, call: Call, pk: PublicKey, ok: bool): System
    requires call.Holding? ==> call.conn < |s.table.conns|
  {
    match call
    case Waiting =>
      if ok then Go(s, id, Looking(pk)) else if s.closed then Return(s, id, ErrClosed) else s
    case Looking(peer) => LookUp(s, id, peer, Preparing(peer))
    case Preparing(peer) => Go(s, id, if ok then Inserting(peer) else Waiting)
    case Inserting(peer) =>
      if peer in s.table.established then Return(s, id, Got(peer, s.table.established[peer]))
      else
        var (table, c) := Create(s.table, peer);
        PublishAndReturn(s.(table := table), id, peer, c)
    case DialStart(peer) => if s.closed then Return(s, id, ErrClosed) else Go(s, id, DialLook(peer))
    case DialLook(peer) => LookUp(s, id, peer, Connecting(peer))
    case Connecting(peer) => if ok then Go(s, id, DialAgain(peer)) else Return(s, id, ErrPeer)
    case DialAgain(peer) => LookUp(s, id, peer, DialPeer(peer))
    case DialPeer(peer) =>
      if !ok then Return(s, id, ErrPeer)
      else
        var (table, c) := Create(s.table, peer);
        Go(s.(table := table), id, Holding(peer, c))
    case Holding(peer, c) => PublishAndReturn(s, id, peer, c)
  }

  /** Calls have fresh names, and only a connection that was handed out can be closed. */
  function Step(s: System, e: Event): System
    requires Inv(s)
  {
    match e
    case StartAccept(id) => if id in s.calls || id in s.results then s else Go(s, id, Waiting)
    case StartDial(id, pk) => if id in s.calls || id in s.results then s else Go(s, id, DialStart(pk))
    case Turn(id, pk, ok) =>
      if id !in s.calls then s
      else
        assert CallOk(s, id);
        TurnOf(s, id, s.calls[id], pk, ok)
    case CloseConn(c) =>
      if c < |s.table.conns| && s.table.conns[c].returned then s.(table := Release(s.table, c)) else s
    case CloseListener => s.(closed := true)
  }

  function Run(s: System, events: seq<Event>): (t: System)
    requires Inv(s)
    ensures Inv(t)
    decreases |events|
  {
    if events == [] then s
    else
      StepKeepsInv(s, events[0]);
      Run(Step(s, events[0]), events[1..])
  }

  // ---------------------------------------------------------------------------
  // The invariant
  // ---------------------------------------------------------------------------

  /** What a call holds is its own and unseen. */
  ghost predicate CallOk(s: System, id: nat)
    requires id in s.calls
  {
    s.calls[id].Holding? ==> Private(s.table, s.calls[id].pk, s.calls[id].conn)
  }

  ghost predicate Unshared(s: System) {
    forall i, j | i in s.calls && j in s.calls && i != j && s.calls[i].Holding? && s.calls[j].Holding? ::
      s.calls[i].conn != s.calls[j].conn
  }

  ghost predicate ResultOk(s: System, id: nat)
    requires id in s.results
  {
    s.results[id].Got? ==>
      var Got(pk, c) := s.results[id];
      c < |s.table.conns| && s.table.conns[c].pk == pk && s.table.conns[c].returned
  }

  ghost predicate Inv(s: System) {
    && TableOk(s.table)
    && (forall id | id in s.calls :: CallOk(s, id))
    && Unshared(s)
    && (forall id | id in s.results :: ResultOk(s, id))
    && s.calls.Keys !! s.results.Keys
  }

  /** Connections are only added, keep their peer, and never go back to open or unseen. */
  ghost predicate Grows(t: Table, u: Table) {
    && |t.conns| <= |u.conns|
    && forall c | 0 <= c < |t.conns| ::
         && u.conns[c].pk == t.conns[c].pk
         && (t.conns[c].closed ==> u.conns[c].closed)
         && (t.conns[c].returned ==> u.conns[c].returned)
  }

  lemma CreateOk(t: Table, pk: PublicKey)
    requires TableOk(t)
    ensures var (u, c) := Create(t, pk); TableOk(u) && Private(u, pk, c) && Grows(t, u)
    ensures forall q, d | Private(t, q, d) :: Private(Create(t, pk).0, q, d) && d != Create(t, pk).1
  {
    var (u, c) := Create(t, pk);
    forall d | 0 <= d < |u.conns| && u.conns[d].returned && !u.conns[d].closed
      ensures u.conns[d].pk in u.established && u.established[u.conns[d].pk] == d
    {
      assert d < |t.conns|;
    }
  }

  lemma PublishOk(t: Table, pk: PublicKey, c: ConnId)
    requires TableOk(t) && Private(t, pk, c)
    ensures var (u, d) := Publish(t, c);
      && TableOk(u) && Grows(t, u) && d < |u.conns|
      && u.conns[d] == ConnInfo(pk, false, true) && pk in u.established && u.established[pk] == d
    ensures forall q, d | Private(t, q, d) && d != c :: Private(Publish(t, c).0, q, d)
  {
  }

  lemma ReleaseOk(t: Table, c: ConnId)
    requires TableOk(t) && c < |t.conns| && t.conns[c].returned
    ensures var u := Release(t, c);
      && TableOk(u) && Grows(t, u) && u.conns[c].closed
      && (forall pk | pk in u.established :: u.established[pk] != c)
    ensures forall q, d | Private(t, q, d) :: Private(Release(t, c), q, d)
  {
    var u := Release(t, c);
    forall d | 0 <= d < |u.conns| && u.conns[d].returned && !u.conns[d].closed
      ensures u.conns[d].pk in u.established && u.established[u.conns[d].pk] == d
    {
      assert t.conns[d] == u.conns[d] && t.established[t.conns[d].pk] == d;
      assert !t.conns[c].closed ==> t.established[t.conns[c].pk] == c;
    }
  }

  /** A call that moves on without touching the table. */
  lemma GoKeepsInv(s: System, id: nat, call: Call)
    requires Inv(s) && !call.Holding? && id !in s.results
    ensures Inv(Go(s, id, call))
  {
    hide TableOk, Private;
    var t := Go(s, id, call);
    forall i | i in t.calls ensures CallOk(t, i) {
      assert i != id ==> CallOk(s, i);
    }
    forall i | i in t.results ensures ResultOk(t, i) {
      assert ResultOk(s, i);
    }
  }

  /** A call that ends with a connection of the table, or with none. */
  lemma ReturnKeepsInv(s: System, id: nat, r: Result)
    requires Inv(s)
    requires r.Got? ==> r.conn < |s.table.conns| && s.table.conns[r.conn].pk == r.pk && s.table.conns[r.conn].returned
    ensures Inv(Return(s, id, r))
  {
    hide TableOk, Private;
    var t := Return(s, id, r);
    forall i | i in t.calls ensures CallOk(t, i) {
      assert CallOk(s, i);
    }
    forall i | i in t.results ensures ResultOk(t, i) {
      assert i != id ==> ResultOk(s, i);
    }
  }

  /** The table may move on as long as private connections stay private. */
  lemma TableKeepsInv(s: System, u: Table)
    requires Inv(s) && TableOk(u) && Grows(s.table, u)
    requires forall i | i in s.calls && s.calls[i].Holding? :: Private(u, s.calls[i].pk, s.calls[i].conn)
    ensures Inv(s.(table := u))
  {
    hide TableOk, Private;
    var t := s.(table := u);
    forall i | i in t.calls ensures CallOk(t, i) {
      assert CallOk(s, i);
    }
    forall i | i in t.results ensures ResultOk(t, i) {
      assert ResultOk(s, i);
    }
  }

  lemma LookUpKeepsInv(s: System, id: nat, pk: PublicKey, otherwise: Call)
    requires Inv(s) && id !in s.results && !otherwise.Holding?
    ensures Inv(LookUp(s, id, pk, otherwise))
  {
    if pk in s.table.established {
      ReturnKeepsInv(s, id, Got(pk, s.table.established[pk]));
    } else {
      GoKeepsInv(s, id, otherwise);
    }
  }

  /** Publishing a connection that no other call holds. */
  lemma PublishKeepsInv(s: System, id: nat, pk: PublicKey, c: ConnId)
    requires Inv(s) && Private(s.table, pk, c)
    requires forall i | i in s.calls && i != id && s.calls[i].Holding? :: s.calls[i].conn != c
    ensures Inv(PublishAndReturn(s, id, pk, c))
  {
    hide TableOk, Publish;
    PublishOk(s.table, pk, c);
    var (table, got) := Publish(s.table, c);
    var s1 := Return(s, id, ErrPeer);
    ReturnKeepsInv(s, id, ErrPeer);
    forall i | i in s1.calls && s1.calls[i].Holding? ensures Private(table, s1.calls[i].pk, s1.calls[i].conn) {
      assert CallOk(s, i);
    }
    TableKeepsInv(s1, table);
    ReturnKeepsInv(s1.(table := table), id, Got(pk, got));
    assert Return(s1.(table := table), id, Got(pk, got)) == PublishAndReturn(s, id, pk, c);
  }

  lemma CreateKeepsInv(s: System, pk: PublicKey)
    requires Inv(s)
    ensures var (table, c) := Create(s.table, pk);
      && Inv(s.(table := table)) && Private(table, pk, c)
      && forall i | i in s.calls && s.calls[i].Holding? :: s.calls[i].conn != c
  {
    hide TableOk, Create;
    CreateOk(s.table, pk);
    forall i | i in s.calls && s.calls[i].Holding?
      ensures Private(Create(s.table, pk).0, s.calls[i].pk, s.calls[i].conn) && s.calls[i].conn != Create(s.table, pk).1
    {
      assert CallOk(s, i);
    }
    TableKeepsInv(s, Create(s.table, pk).0);
  }

  lemma HoldKeepsInv(s: System, id: nat, pk: PublicKey, c: ConnId)
    requires Inv(s) && id !in s.results && Private(s.table, pk, c)
    requires forall i | i in s.calls && s.calls[i].Holding? :: s.calls[i].conn != c
    ensures Inv(Go(s, id, Holding(pk, c)))
  {
    hide TableOk, Private;
    var t := Go(s, id, Holding(pk, c));
    forall i | i in t.calls ensures CallOk(t, i) {
      assert i != id ==> CallOk(s, i);
    }
    forall i | i in t.results ensures ResultOk(t, i) {
      assert ResultOk(s, i);
    }
  }

  lemma TurnKeepsInv(s: System, id: nat, pk: PublicKey, ok: bool)
    requires Inv(s) && id in s.calls && CallOk(s, id) && id !in s.results
    ensures Inv(TurnOf(s, id, s.calls[id], pk, ok))
  {
    hide TableOk, Private, Publish, Create, Go, LookUp, PublishAndReturn;
    match s.calls[id]
    case Waiting =>
      if ok {
        GoKeepsInv(s, id, Looking(pk));
      } else {
        ReturnKeepsInv(s, id, ErrClosed);
      }
    case Looking(peer) => LookUpKeepsInv(s, id, peer, Preparing(peer));
    case Preparing(peer) => GoKeepsInv(s, id, if ok then Inserting(peer) else Waiting);
    case Inserting(peer) =>
      if peer in s.table.established {
        SeenIsOpen(s.table, peer);
        ReturnKeepsInv(s, id, Got(peer, s.table.established[peer]));
      } else {
        CreateKeepsInv(s, peer);
        var (table, c) := Create(s.table, peer);
        PublishKeepsInv(s.(table := table), id, peer, c);
      }
    case DialStart(peer) =>
      ReturnKeepsInv(s, id, ErrClosed);
      GoKeepsInv(s, id, DialLook(peer));
    case DialLook(peer) => LookUpKeepsInv(s, id, peer, Connecting(peer));
    case Connecting(peer) =>
      ReturnKeepsInv(s, id, ErrPeer);
      GoKeepsInv(s, id, DialAgain(peer));
    case DialAgain(peer) => LookUpKeepsInv(s, id, peer, DialPeer(peer));
    case DialPeer(peer) =>
      ReturnKeepsInv(s, id, ErrPeer);
      CreateKeepsInv(s, peer);
      var (table, c) := Create(s.table, peer);
      HoldKeepsInv(s.(table := table), id, peer, c);
    case Holding(peer, c) => PublishKeepsInv(s, id, peer, c);
  }

  lemma StepKeepsInv(s: System, e: Event)
    requires Inv(s)
    ensures Inv(Step(s, e))
  {
    match e
    case StartAccept(id) =>
      if id !in s.calls && id !in s.results {
        GoKeepsInv(s, id, Waiting);
      }
    case StartDial(id, pk) =>
      if id !in s.calls && id !in s.results {
        GoKeepsInv(s, id, DialStart(pk));
      }
    case Turn(id, pk, ok) =>
      if id in s.calls {
        assert CallOk(s, id) && id !in s.results;
        TurnKeepsInv(s, id, pk, ok);
      }
    case CloseConn(c) =>
      if c < |s.table.conns| && s.table.conns[c].returned {
        ReleaseOk(s.table, c);
        forall i | i in s.calls && s.calls[i].Holding?
          ensures Private(Release(s.table, c), s.calls[i].pk, s.calls[i].conn)
        {
          assert CallOk(s, i);
        }
        TableKeepsInv(s, Release(s.table, c));
      }
    case CloseListener =>
      var t := s.(closed := true);
      forall i | i in t.calls ensures CallOk(t, i) {
        assert CallOk(s, i);
      }
      forall i | i in t.results ensures ResultOk(t, i) {
        assert ResultOk(s, i);
      }
  }

  function RunNew(events: seq<Event>): (t: System)
    ensures Inv(t)
  {
    Run(Init(), events)
  }

  // ---------------------------------------------------------------------------
  // The promises
  // ---------------------------------------------------------------------------

  /**
    In every run: what the table holds for a peer is open, and an open connection that some caller
    was given is what the table holds; so a peer has at most one.
   */
  lemma OneOpenConnPerPeer(events: seq<Event>, c: ConnId, d: ConnId)
    requires var conns := RunNew(events).table.conns;
      && c < |conns| && conns[c].returned && !conns[c].closed
      && d < |conns| && conns[d].returned && !conns[d].closed && conns[c].pk == conns[d].pk
    ensures c == d
    ensures var t := RunNew(events).table; t.conns[c].pk in t.established && t.established[t.conns[c].pk] == c
  {
    hide Run;
    assert TableOk(RunNew(events).table);
  }

  lemma EstablishedIsOpen(events: seq<Event>, pk: PublicKey)
    requires pk in RunNew(events).table.established
    ensures var t := RunNew(events).table;
      var c := t.established[pk];
      c < |t.conns| && t.conns[c].pk == pk && !t.conns[c].closed
  {
    hide Run;
    assert TableOk(RunNew(events).table);
  }

  lemma StepGrows(s: System, e: Event)
    requires Inv(s)
    ensures Grows(s.table, Step(s, e).table)
  {
    if e.Turn? && e.id in s.calls {
      hide Step;
      assert CallOk(s, e.id);
      assert Step(s, e) == TurnOf(s, e.id, s.calls[e.id], e.pk, e.ok) by {
        TurnStep(s, e.id, e.pk, e.ok);
      }
      hide Inv;
      TurnGrows(s, e.id, s.calls[e.id], e.pk, e.ok);
    } else {
      hide TurnOf;
    }
  }

  lemma TurnStep(s: System, id: nat, pk: PublicKey, ok: bool)
    requires Inv(s) && id in s.calls
    ensures CallOk(s, id) && (s.calls[id].Holding? ==> s.calls[id].conn < |s.table.conns|)
    ensures Step(s, Turn(id, pk, ok)) == TurnOf(s, id, s.calls[id], pk, ok)
  {
    assert CallOk(s, id);
    hide TurnOf;
  }

  lemma TurnGrows(s: System, id: nat, call: Call, pk: PublicKey, ok: bool)
    requires call.Holding? ==> call.conn < |s.table.conns|
    ensures Grows(s.table, TurnOf(s, id, call, pk, ok).table)
  {
  }

  lemma {:induction false} RunGrows(s: System, events: seq<Event>)
    requires Inv(s)
    ensures Grows(s.table, Run(s, events).table)
    decreases |events|
  {
    if events != [] {
      StepKeepsInv(s, events[0]);
      StepGrows(s, events[0]);
      RunGrows(Step(s, events[0]), events[1..]);
    }
  }

  /** A closed connection stays closed, and out of the table, in every run. */
  lemma ClosedStaysClosed(s: System, events: seq<Event>, c: ConnId, pk: PublicKey)
    requires Inv(s) && c < |s.table.conns| && s.table.conns[c].closed
    ensures var t := Run(s, events).table;
      c < |t.conns| && t.conns[c].closed && (pk in t.established ==> t.established[pk] != c)
  {
    hide Run;
    RunGrows(s, events);
    assert TableOk(Run(s, events).table);
  }

  /** A call that was still running when c was closed never comes back with c. */
  lemma {:induction false} ClosedIsNeverHandedOut(s: System, events: seq<Event>, c: ConnId, id: nat)
    requires Inv(s) && c < |s.table.conns| && s.table.conns[c].closed
    requires id !in s.results && id in Run(s, events).results
    ensures Run(s, events).results[id].Got? ==> Run(s, events).results[id].conn != c
    decreases |events|
  {
    if events != [] {
      var t := Step(s, events[0]);
      StepKeepsInv(s, events[0]);
      StepGrows(s, events[0]);
      if id in t.results {
        HandsOutOpen(s, events[0], id);
        ResultsStay(t, events[1..], id);
      } else {
        ClosedIsNeverHandedOut(t, events[1..], c, id);
      }
    }
  }

  /** A call that returns a connection returns the open one in the table, for the peer it asked for. */
  lemma HandsOutOpen(s: System, e: Event, id: nat)
    requires Inv(s) && id !in s.results && id in Step(s, e).results
    ensures var t := Step(s, e);
      t.results[id].Got? ==>
        var Got(pk, c) := t.results[id];
        c < |t.table.conns| && t.table.conns[c] == ConnInfo(pk, false, true)
        && pk in t.table.established && t.table.established[pk] == c
    ensures var t := Step(s, e);
      t.results[id].Got? && id in s.calls && !s.calls[id].Waiting? ==> t.results[id].pk == s.calls[id].pk
  {
    assert e.Turn? && e.id == id && id in s.calls && CallOk(s, id);
    HandsOutOpenTurn(s, id, e.pk, e.ok);
  }

  lemma HandsOutOpenTurn(s: System, id: nat, q: PublicKey, ok: bool)
    requires TableOk(s.table) && id in s.calls && CallOk(s, id) && id !in s.results
    ensures var t := TurnOf(s, id, s.calls[id], q, ok);
      id in t.results && t.results[id].Got? ==>
        var Got(pk, c) := t.results[id];
        && c < |t.table.conns| && t.table.conns[c] == ConnInfo(pk, false, true)
        && pk in t.table.established && t.table.established[pk] == c
        && (!s.calls[id].Waiting? ==> pk == s.calls[id].pk)
  {
    hide TableOk, Create, Publish;
    match s.calls[id]
    case Looking(peer) => SeenIsOpen(s.table, peer);
    case DialLook(peer) => SeenIsOpen(s.table, peer);
    case DialAgain(peer) => SeenIsOpen(s.table, peer);
    case Inserting(peer) =>
      SeenIsOpen(s.table, peer);
      CreateOk(s.table, peer);
      PublishOk(Create(s.table, peer).0, peer, Create(s.table, peer).1);
    case Holding(peer, c) => PublishOk(s.table, peer, c);
    case _ =>
  }

  lemma SeenIsOpen(t: Table, pk: PublicKey)
    requires TableOk(t)
    ensures pk in t.established ==> t.established[pk] < |t.conns| && t.conns[t.established[pk]] == ConnInfo(pk, false, true)
  {
  }

  lemma {:induction false} ResultsStay(s: System, events: seq<Event>, id: nat)
    requires Inv(s) && id in s.results
    ensures id in Run(s, events).results && Run(s, events).results[id] == s.results[id]
    decreases |events|
  {
    if events != [] {
      StepKeepsInv(s, events[0]);
      ResultStays(s, events[0], id);
      ResultsStay(Step(s, events[0]), events[1..], id);
    }
  }

  lemma ResultStays(s: System, e: Event, id: nat)
    requires Inv(s) && id in s.results
    ensures id in Step(s, e).results && Step(s, e).results[id] == s.results[id]
  {
    hide TableOk, Private;
    assert id !in s.calls;
  }
}

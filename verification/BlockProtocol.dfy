/**
  The blocking ring as a protocol.  A call takes turns under the lock: a turn ends when the
  call returns or parks because the ring is full or empty.  Runs interleave the turns of any
  number of calls in any order; a parked call may be woken too early and park again.
 */
module BlockProtocol {
  import opened Basics
  import opened Rings

  datatype Ring<T> = Ring(contents: seq<T>, size: nat, closeWrite: bool, closeErr: bool)

  /** One turn of a writing call that still has p to place. */
  function Put<T>(r: Ring<T>, p: seq<T>): (out: (Ring<T>, nat, Status))
    requires |r.contents| <= r.size
    ensures out.1 <= |p| && |out.0.contents| <= r.size
    ensures out.0 == r.(contents := r.contents + p[..out.1])
    ensures match out.2
            case Done => out.1 == |p|
            case Closed => out.1 == 0 && (r.closeWrite || r.closeErr)
            case Waits => out.1 < |p|
            case EndOfData => false
    ensures r.closeWrite || r.closeErr ==> out.2 == Closed
  {
    if r.closeErr || r.closeWrite then (r, 0, Closed)
    else
      var n := Min(r.size - |r.contents|, |p|);
      (r.(contents := r.contents + p[..n]), n, if n == |p| then Done else Waits)
  }

  /** One turn of a reading call with room for want elements. */
  function Take<T>(r: Ring<T>, want: nat): (out: (Ring<T>, seq<T>, Status))
    ensures r.contents == out.1 + out.0.contents && out.0 == r.(contents := out.0.contents)
    ensures out.2 != Done ==> out.1 == []
    ensures out.2 == EndOfData ==> r.closeWrite && r.contents == []
  {
    if r.closeErr then (r, [], Closed)
    else if r.contents == [] then (r, [], if r.closeWrite then EndOfData else Waits)
    else
      var n := Min(want, |r.contents|);
      (r.(contents := r.contents[n..]), r.contents[..n], Done)
  }

  // ---------------------------------------------------------------------------
  // Runs
  // ---------------------------------------------------------------------------

  datatype Call<T> = Writing(data: seq<T>, placed: nat) | Reading(want: nat)

  datatype Return<T> =
    | Wrote(data: seq<T>, n: nat, status: Status)
    | Got(chunk: seq<T>, status: Status)

  datatype Move<T> = Move(call: nat, item: T)

  /** accepted and delivered record every element that went in and out, with the call that moved it. */
  datatype System<T> = System(ring: Ring<T>,
                              calls: map<nat, Call<T>>,
                              returned: map<nat, Return<T>>,
                              accepted: seq<Move<T>>,
                              delivered: seq<Move<T>>)

  datatype Event<T> =
    | StartWrite(id: nat, data: seq<T>)
    | StartAdd(id: nat, item: T)
    | StartRead(id: nat, want: nat)
    | StartNext(id: nat)
    | Turn(id: nat)
    | CloseWrite
    | CloseWithError

  function Init<T>(size: nat): System<T> {
    System(Ring([], size, false, false), map[], map[], [], [])
  }

  function Start<T>(s: System<T>, id: nat, call: Call<T>): System<T> {
    if id in s.calls || id in s.returned then s else s.(calls := s.calls[id := call])
  }

  function Finish<T>(s: System<T>, id: nat, ret: Return<T>): System<T> {
    s.(calls := s.calls - {id}, returned := s.returned[id := ret])
  }

  function Tag<T>(id: nat, p: seq<T>): (t: seq<Move<T>>)
    ensures |t| == |p|
  {
    if p == [] then [] else [Move(id, p[0])] + Tag(id, p[1..])
  }

  function WriteTurn<T>(s: System<T>, id: nat, data: seq<T>, placed: nat): System<T>
    requires |s.ring.contents| <= s.ring.size && placed <= |data|
  {
    var (ring, n, status) := Put(s.ring, data[placed..]);
    var t := s.(ring := ring, accepted := s.accepted + Tag(id, data[placed..placed + n]));
    if status == Waits then t.(calls := t.calls[id := Writing(data, placed + n)])
    else Finish(t, id, Wrote(data, placed + n, status))
  }

  function ReadTurn<T>(s: System<T>, id: nat, want: nat): System<T> {
    var (ring, chunk, status) := Take(s.ring, want);
    if status == Waits then s
    else Finish(s.(ring := ring, delivered := s.delivered + Tag(id, chunk)), id, Got(chunk, status))
  }

  function Step<T>(s: System<T>, e: Event<T>): System<T>
    requires Inv(s)
  {
    match e
    case StartWrite(id, data) => Start(s, id, Writing(data, 0))
    case StartAdd(id, item) => Start(s, id, Writing([item], 0))
    case StartRead(id, want) => Start(s, id, Reading(want))
    case StartNext(id) => Start(s, id, Reading(1))
    case CloseWrite => s.(ring := s.ring.(closeWrite := true))
    case CloseWithError => s.(ring := s.ring.(closeWrite := true, closeErr := true))
    case Turn(id) =>
      if id !in s.calls then s
      else
        match s.calls[id]
        case Writing(data, placed) => WriteTurn(s, id, data, placed)
        case Reading(want) => ReadTurn(s, id, want)
  }

  function Run<T(!new)>(s: System<T>, events: seq<Event<T>>): (t: System<T>)
    requires Inv(s)
    ensures Inv(t)
    decreases |events|
  {
    if events == [] then s
    else
      StepKeepsInv(s, events[0]);
      Run(Step(s, events[0]), events[1..])
  }

  // ---------------------------------------------------------------------------
  // What every state of every run satisfies
  // ---------------------------------------------------------------------------

  function Items<T>(s: seq<Move<T>>): (p: seq<T>)
    ensures |p| == |s|
  {
    if s == [] then [] else [s[0].item] + Items(s[1..])
  }

  /** What call id moved, in order. */
  function By<T>(s: seq<Move<T>>, id: nat): seq<T> {
    if s == [] then []
    else (if s[0].call == id then [s[0].item] else []) + By(s[1..], id)
  }

  /** Nothing is lost, duplicated or reordered. */
  ghost predicate Conserved<T>(s: System<T>) {
    && |s.ring.contents| <= s.ring.size
    && Items(s.accepted) == Items(s.delivered) + s.ring.contents
  }

  /** A call still under way has placed exactly what it counts, and delivered nothing. */
  ghost predicate CallCounts<T>(s: System<T>, id: nat, c: Call<T>) {
    && By(s.delivered, id) == []
    && match c
       case Writing(data, placed) =>
         (placed < |data| || data == []) && placed <= |data| && By(s.accepted, id) == data[..placed]
       case Reading(_) => By(s.accepted, id) == []
  }

  /** A call that returned reports exactly what it moved. */
  ghost predicate ReturnCounts<T>(s: System<T>, id: nat, ret: Return<T>) {
    match ret
    case Wrote(data, n, status) =>
      && n <= |data| && By(s.accepted, id) == data[..n] && By(s.delivered, id) == []
      && (status == Done || status == Closed)
      && (status == Done ==> n == |data|)
      && (status == Closed ==> s.ring.closeWrite && (n < |data| || data == []))
    case Got(chunk, status) =>
      && By(s.delivered, id) == chunk && By(s.accepted, id) == []
      && (status == Done || status == Closed || status == EndOfData)
      && (status != Done ==> chunk == [])
      && (status == EndOfData ==> s.ring.closeWrite && s.ring.contents == [])
  }

  ghost predicate Inv<T>(s: System<T>) {
    && Conserved(s)
    && (s.ring.closeErr ==> s.ring.closeWrite)
    && s.calls.Keys !! s.returned.Keys
    && (forall id | id in s.calls :: CallCounts(s, id, s.calls[id]))
    && (forall id | id in s.returned :: ReturnCounts(s, id, s.returned[id]))
    && (forall id | id !in s.calls && id !in s.returned :: By(s.accepted, id) == [] == By(s.delivered, id))
  }

  lemma FirstMove<T>(s: seq<Move<T>>, t: seq<Move<T>>)
    requires s != []
    ensures (s + t)[1..] == s[1..] + t
    ensures Items(s + t) == [s[0].item] + Items(s[1..] + t)
    ensures forall who :: By(s + t, who) == (if s[0].call == who then [s[0].item] else []) + By(s[1..] + t, who)
  {
    assert (s + t)[1..] == s[1..] + t;
  }

  lemma Regrouped<T>(a: seq<T>, b: seq<T>, c: seq<T>)
    ensures a + (b + c) == a + b + c
  {
  }

  lemma {:induction false} ItemsAppended<T>(s: seq<Move<T>>, t: seq<Move<T>>)
    ensures Items(s + t) == Items(s) + Items(t)
  {
    if s == [] {
      assert s + t == t;
    } else {
      ItemsAppended(s[1..], t);
      FirstMove(s, t);
      FirstMove(s, []);
      assert s + [] == s && s[1..] + [] == s[1..];
      hide Items;
      Regrouped([s[0].item], Items(s[1..]), Items(t));
    }
  }

  lemma {:induction false} ByAppended<T>(s: seq<Move<T>>, t: seq<Move<T>>, who: nat)
    ensures By(s + t, who) == By(s, who) + By(t, who)
  {
    if s == [] {
      assert s + t == t;
    } else {
      hide Items, By;
      ByAppended(s[1..], t, who);
      FirstMove(s, t);
      FirstMove(s, []);
      assert s + [] == s && s[1..] + [] == s[1..];
      Regrouped(if s[0].call == who then [s[0].item] else [], By(s[1..], who), By(t, who));
    }
  }

  lemma {:induction false} Tagged<T>(id: nat, p: seq<T>, who: nat)
    ensures Items(Tag(id, p)) == p && By(Tag(id, p), who) == if who == id then p else []
  {
    if p != [] {
      Tagged(id, p[1..], who);
      assert Tag(id, p)[1..] == Tag(id, p[1..]);
    }
  }

  lemma Logged<T>(s: seq<Move<T>>, id: nat, p: seq<T>)
    ensures Items(s + Tag(id, p)) == Items(s) + p
    ensures forall who :: By(s + Tag(id, p), who) == By(s, who) + if who == id then p else []
  {
    ItemsAppended(s, Tag(id, p));
    Tagged(id, p, 0);
    forall who ensures By(s + Tag(id, p), who) == By(s, who) + if who == id then p else [] {
      ByAppended(s, Tag(id, p), who);
      Tagged(id, p, who);
    }
  }

  lemma WriteTurnKeepsInv<T(!new)>(s: System<T>, id: nat)
    requires Inv(s) && id in s.calls && s.calls[id].Writing?
    ensures Inv(WriteTurn(s, id, s.calls[id].data, s.calls[id].placed))
  {
    hide By, Items, Tag, Put, Finish;
    assert CallCounts(s, id, s.calls[id]);
    var Writing(data, placed) := s.calls[id];
    var (ring, n, status) := Put(s.ring, data[placed..]);
    Logged(s.accepted, id, data[placed..placed + n]);
    assert data[placed..][..n] == data[placed..placed + n];
    var u := s.(ring := ring, accepted := s.accepted + Tag(id, data[placed..placed + n]));
    if status == Waits {
      WriteWaits(s, u, id, data, placed, n);
    } else {
      WriteEnds(s, u, id, data, placed, n, status);
    }
  }

  lemma CallKept<T>(s: System<T>, t: System<T>, who: nat, c: Call<T>)
    requires CallCounts(s, who, c)
    requires By(t.accepted, who) == By(s.accepted, who) && By(t.delivered, who) == By(s.delivered, who)
    ensures CallCounts(t, who, c)
  {
    hide By;
  }

  lemma ReturnKept<T>(s: System<T>, t: System<T>, who: nat, ret: Return<T>)
    requires ReturnCounts(s, who, ret)
    requires By(t.accepted, who) == By(s.accepted, who) && By(t.delivered, who) == By(s.delivered, who)
    requires s.ring.closeWrite ==> t.ring.closeWrite && (s.ring.contents == [] ==> t.ring.contents == [])
    ensures ReturnCounts(t, who, ret)
  {
    hide By;
  }

  /** What a turn of a write does to the ring and to the log. */
  ghost predicate Places<T(!new)>(s: System<T>, u: System<T>, id: nat, data: seq<T>, placed: nat, n: nat, status: Status) {
    && placed + n <= |data| && |u.ring.contents| <= u.ring.size
    && u.ring == s.ring.(contents := s.ring.contents + data[placed..placed + n])
    && u == s.(ring := u.ring, accepted := u.accepted)
    && (status == Done || status == Closed || status == Waits)
    && (status == Done ==> placed + n == |data|)
    && (status == Closed ==> s.ring.closeWrite)
    && (s.ring.closeWrite ==> n == 0)
    && (status == Waits ==> placed + n < |data|)
    && Items(u.accepted) == Items(s.accepted) + data[placed..placed + n]
    && forall who :: By(u.accepted, who) == By(s.accepted, who) + if who == id then data[placed..placed + n] else []
  }

  lemma WriteWaits<T(!new)>(s: System<T>, u: System<T>, id: nat, data: seq<T>, placed: nat, n: nat)
    requires Inv(s) && id in s.calls && s.calls[id] == Writing(data, placed) && Places(s, u, id, data, placed, n, Waits)
    ensures Inv(u.(calls := u.calls[id := Writing(data, placed + n)]))
  {
    hide By, Items, ReturnCounts, CallCounts;
    var t := u.(calls := u.calls[id := Writing(data, placed + n)]);
    assert CallCounts(s, id, s.calls[id]);
    OwnWrite(s, t, id, data, placed, n, Waits);
    assert t.calls.Keys == s.calls.Keys;
    OthersKept(s, t, id);
    StillConserved(s, u, data[placed..placed + n]);
  }

  lemma WriteEnds<T(!new)>(s: System<T>, u: System<T>, id: nat, data: seq<T>, placed: nat, n: nat, status: Status)
    requires Inv(s) && id in s.calls && s.calls[id] == Writing(data, placed)
    requires Places(s, u, id, data, placed, n, status) && status != Waits
    ensures Inv(Finish(u, id, Wrote(data, placed + n, status)))
  {
    hide By, Items, ReturnCounts, CallCounts;
    var t := Finish(u, id, Wrote(data, placed + n, status));
    assert CallCounts(s, id, s.calls[id]);
    OwnWrite(s, t, id, data, placed, n, status);
    assert t.calls.Keys == s.calls.Keys - {id} && t.returned.Keys == s.returned.Keys + {id};
    OthersKept(s, t, id);
    StillConserved(s, u, data[placed..placed + n]);
  }

  lemma StillConserved<T>(s: System<T>, u: System<T>, more: seq<T>)
    requires Conserved(s) && u.ring.contents == s.ring.contents + more && |u.ring.contents| <= u.ring.size
    requires Items(u.accepted) == Items(s.accepted) + more && u.delivered == s.delivered
    ensures Conserved(u)
  {
    hide Items;
    Regrouped(Items(s.delivered), s.ring.contents, more);
  }

  /** A turn of one call leaves what the others count as it was. */
  lemma OthersKept<T(!new)>(s: System<T>, t: System<T>, id: nat)
    requires Inv(s) && t.calls.Keys !! t.returned.Keys
    requires t.calls.Keys + t.returned.Keys == s.calls.Keys + s.returned.Keys && id in s.calls
    requires forall who | who != id :: By(t.accepted, who) == By(s.accepted, who) && By(t.delivered, who) == By(s.delivered, who)
    requires forall who | who in t.calls && who != id :: who in s.calls && t.calls[who] == s.calls[who]
    requires forall who | who in t.returned && who != id :: who in s.returned && t.returned[who] == s.returned[who]
    requires s.ring.closeWrite ==> t.ring.closeWrite && (s.ring.contents == [] ==> t.ring.contents == [])
    requires id in t.calls ==> CallCounts(t, id, t.calls[id])
    requires id in t.returned ==> ReturnCounts(t, id, t.returned[id])
    ensures forall who | who in t.calls :: CallCounts(t, who, t.calls[who])
    ensures forall who | who in t.returned :: ReturnCounts(t, who, t.returned[who])
    ensures forall who | who !in t.calls && who !in t.returned :: By(t.accepted, who) == [] == By(t.delivered, who)
  {
    hide By, Items, ReturnCounts, CallCounts, Conserved;
    forall who | who in t.calls ensures CallCounts(t, who, t.calls[who]) {
      if who != id {
        CallKept(s, t, who, s.calls[who]);
      }
    }
    forall who | who in t.returned ensures ReturnCounts(t, who, t.returned[who]) {
      if who != id {
        ReturnKept(s, t, who, s.returned[who]);
      }
    }
    forall who | who !in t.calls && who !in t.returned ensures By(t.accepted, who) == [] == By(t.delivered, who) {
      assert who !in s.calls.Keys + s.returned.Keys;
    }
  }

  lemma OwnWrite<T>(s: System<T>, t: System<T>, id: nat, data: seq<T>, placed: nat, n: nat, status: Status)
    requires CallCounts(s, id, Writing(data, placed)) && placed + n <= |data|
    requires By(t.accepted, id) == By(s.accepted, id) + data[placed..placed + n]
    requires By(t.delivered, id) == By(s.delivered, id)
    requires status == Done || status == Closed || status == Waits
    requires status == Done ==> placed + n == |data|
    requires status == Closed ==> n == 0 && t.ring.closeWrite
    requires status == Waits ==> placed + n < |data|
    ensures status == Waits ==> CallCounts(t, id, Writing(data, placed + n))
    ensures status != Waits ==> ReturnCounts(t, id, Wrote(data, placed + n, status))
  {
    hide By;
    assert data[..placed] + data[placed..placed + n] == data[..placed + n];
  }

  lemma ReadTurnKeepsInv<T(!new)>(s: System<T>, id: nat)
    requires Inv(s) && id in s.calls && s.calls[id].Reading?
    ensures Inv(ReadTurn(s, id, s.calls[id].want))
  {
    hide By, Items, Tag, Take;
    assert CallCounts(s, id, s.calls[id]);
    var want := s.calls[id].want;
    var (ring, chunk, status) := Take(s.ring, want);
    if status != Waits {
      Logged(s.delivered, id, chunk);
      ReadDone(s, id, ring, chunk, status);
    }
  }

  lemma ReadDone<T(!new)>(s: System<T>, id: nat, ring: Ring<T>, chunk: seq<T>, status: Status)
    requires Inv(s) && id in s.calls && s.calls[id].Reading?
    requires ring == s.ring.(contents := ring.contents) && s.ring.contents == chunk + ring.contents
    requires status != Waits && (status != Done ==> chunk == [])
    requires status == EndOfData ==> s.ring.closeWrite && s.ring.contents == []
    requires Items(s.delivered + Tag(id, chunk)) == Items(s.delivered) + chunk
    requires forall who :: By(s.delivered + Tag(id, chunk), who) == By(s.delivered, who) + if who == id then chunk else []
    ensures Inv(Finish(s.(ring := ring, delivered := s.delivered + Tag(id, chunk)), id, Got(chunk, status)))
  {
    hide By, Items, Tag, CallCounts, ReturnCounts;
    var t := Finish(s.(ring := ring, delivered := s.delivered + Tag(id, chunk)), id, Got(chunk, status));
    assert Conserved(t) by {
      var del := Items(s.delivered);
      assert del + chunk + ring.contents == del + s.ring.contents;
    }
    OwnRead(s, t, id, chunk, status);
    OthersKept(s, t, id);
  }

  lemma OwnRead<T>(s: System<T>, t: System<T>, id: nat, chunk: seq<T>, status: Status)
    requires id in s.calls && s.calls[id].Reading? && CallCounts(s, id, s.calls[id])
    requires By(t.delivered, id) == By(s.delivered, id) + chunk && By(t.accepted, id) == By(s.accepted, id)
    requires status != Waits && (status != Done ==> chunk == [])
    requires status == EndOfData ==> t.ring.closeWrite && t.ring.contents == []
    ensures ReturnCounts(t, id, Got(chunk, status))
  {
    hide By;
  }

  lemma StartKeepsInv<T(!new)>(s: System<T>, id: nat, call: Call<T>)
    requires Inv(s) && (call.Writing? ==> call.placed == 0)
    ensures Inv(Start(s, id, call))
  {
    hide By, Items, ReturnCounts;
    var t := Start(s, id, call);
    forall who | who in t.calls ensures CallCounts(t, who, t.calls[who]) {
      assert who in s.calls ==> CallCounts(s, who, s.calls[who]);
    }
    forall who | who in t.returned ensures ReturnCounts(t, who, t.returned[who]) {
      ReturnKept(s, t, who, s.returned[who]);
    }
  }

  lemma CloseKeepsInv<T(!new)>(s: System<T>, error: bool)
    requires Inv(s)
    ensures Inv(s.(ring := s.ring.(closeWrite := true, closeErr := error || s.ring.closeErr)))
  {
    hide By, Items, CallCounts, ReturnCounts;
    var t := s.(ring := s.ring.(closeWrite := true, closeErr := error || s.ring.closeErr));
    forall who | who in t.calls ensures CallCounts(t, who, t.calls[who]) {
      CallKept(s, t, who, s.calls[who]);
    }
    forall who | who in t.returned ensures ReturnCounts(t, who, t.returned[who]) {
      ReturnKept(s, t, who, s.returned[who]);
    }
  }

  lemma StepKeepsInv<T(!new)>(s: System<T>, e: Event<T>)
    requires Inv(s)
    ensures Inv(Step(s, e))
  {
    hide Inv, Start, WriteTurn, ReadTurn;
    match e
    case StartWrite(id, data) => StartKeepsInv(s, id, Writing(data, 0));
    case StartAdd(id, item) => StartKeepsInv(s, id, Writing([item], 0));
    case StartRead(id, want) => StartKeepsInv(s, id, Reading(want));
    case StartNext(id) => StartKeepsInv(s, id, Reading(1));
    case CloseWrite =>
      CloseKeepsInv(s, false);
    case CloseWithError =>
      CloseKeepsInv(s, true);
    case Turn(id) =>
      if id in s.calls {
        if s.calls[id].Writing? {
          WriteTurnKeepsInv(s, id);
        } else {
          ReadTurnKeepsInv(s, id);
        }
      }
  }

  /** A run of a fresh ring. */
  function RunNew<T(!new)>(size: nat, events: seq<Event<T>>): (t: System<T>)
    ensures Inv(t)
  {
    Run(Init<T>(size), events)
  }

  // ---------------------------------------------------------------------------
  // The promises to callers
  // ---------------------------------------------------------------------------

  /** In every run: what came out followed by what is stored is what went in, in order. */
  lemma DeliveredThenStored<T(!new)>(size: nat, events: seq<Event<T>>)
    ensures var s := RunNew(size, events);
      && Items(s.delivered) + s.ring.contents == Items(s.accepted)
      && |s.ring.contents| <= s.ring.size == size
  {
    SizeStays(Init<T>(size), events);
  }

  lemma {:induction false} SizeStays<T(!new)>(s: System<T>, events: seq<Event<T>>)
    requires Inv(s)
    ensures Run(s, events).ring.size == s.ring.size
    decreases |events|
  {
    hide Inv;
    if events != [] {
      StepKeepsInv(s, events[0]);
      SizeStays(Step(s, events[0]), events[1..]);
    }
  }

  /** In every run: a write that was cut short reports how much it placed, and placed a prefix. */
  lemma CutShort<T(!new)>(size: nat, events: seq<Event<T>>, id: nat)
    requires var s := RunNew(size, events); id in s.returned && s.returned[id].Wrote?
    ensures var s := RunNew(size, events);
      var Wrote(data, n, status) := s.returned[id];
      && n <= |data| && By(s.accepted, id) == data[..n]
      && (status == Done ==> n == |data|)
      && (status == Closed && data != [] ==> n < |data|)
  {
    var s := RunNew(size, events);
    assert ReturnCounts(s, id, s.returned[id]);
  }

  /** Once writing is closed nothing more is accepted, whatever parked writers do. */
  lemma {:induction false} NothingAfterClose<T(!new)>(s: System<T>, events: seq<Event<T>>)
    requires Inv(s) && s.ring.closeWrite
    ensures Run(s, events).ring.closeWrite && Run(s, events).accepted == s.accepted
    decreases |events|
  {
    if events != [] {
      StepKeepsInv(s, events[0]);
      NothingInOneStep(s, events[0]);
      hide Inv, Step;
      NothingAfterClose(Step(s, events[0]), events[1..]);
    }
  }

  lemma NothingInOneStep<T(!new)>(s: System<T>, e: Event<T>)
    requires Inv(s) && s.ring.closeWrite
    ensures Step(s, e).ring.closeWrite && Step(s, e).accepted == s.accepted
  {
    hide By, Items, Conserved, ReturnCounts;
    if e.Turn? && e.id in s.calls && s.calls[e.id].Writing? {
      assert CallCounts(s, e.id, s.calls[e.id]);
      assert s.accepted + [] == s.accepted;
    }
  }

  /** A reader sees the end only when every accepted element has been delivered, and then for good. */
  lemma EndMeansDrained<T(!new)>(s: System<T>, id: nat, events: seq<Event<T>>)
    requires Inv(s) && id in s.returned && s.returned[id].Got? && s.returned[id].status == EndOfData
    ensures Items(s.delivered) == Items(s.accepted)
    ensures Items(Run(s, events).delivered) == Items(Run(s, events).accepted) == Items(s.accepted)
  {
    assert ReturnCounts(s, id, s.returned[id]);
    NothingAfterClose(s, events);
    ReturnsStay(s, id, events);
    var t := Run(s, events);
    assert ReturnCounts(t, id, t.returned[id]);
  }

  lemma {:induction false} ReturnsStay<T(!new)>(s: System<T>, id: nat, events: seq<Event<T>>)
    requires Inv(s) && id in s.returned
    ensures id in Run(s, events).returned && Run(s, events).returned[id] == s.returned[id]
    decreases |events|
  {
    if events != [] {
      StepKeepsInv(s, events[0]);
      ReturnStays(s, id, events[0]);
      hide Inv, Step;
      ReturnsStay(Step(s, events[0]), id, events[1..]);
    }
  }

  lemma ReturnStays<T(!new)>(s: System<T>, id: nat, e: Event<T>)
    requires Inv(s) && id in s.returned
    ensures id in Step(s, e).returned && Step(s, e).returned[id] == s.returned[id]
  {
    hide Put, Take, Tag, Conserved, CallCounts, ReturnCounts;
    assert id !in s.calls;
  }

  /** Calls of Next under fresh names, each followed by its turn. */
  function Drain<T>(first: nat, n: nat): seq<Event<T>>
    decreases n
  {
    if n == 0 then [] else [StartNext(first), Turn(first)] + Drain(first + 1, n - 1)
  }

  ghost predicate FreshFrom<T>(s: System<T>, first: nat) {
    forall id | id >= first :: id !in s.calls && id !in s.returned
  }

  /** One call of Next after the close takes the oldest element, or sees the end if there is none. */
  lemma DrainOne<T(!new)>(s: System<T>, id: nat)
    requires Inv(s) && s.ring.closeWrite && !s.ring.closeErr && FreshFrom(s, id)
    ensures Inv(Step(s, StartNext(id)))
    ensures var t := Step(Step(s, StartNext(id)), Turn(id));
      && Inv(t) && t.ring.closeWrite && !t.ring.closeErr && FreshFrom(t, id + 1) && id in t.returned
      && (s.ring.contents == [] ==> t.returned[id] == Got([], EndOfData))
      && (s.ring.contents != [] ==>
            t.returned[id] == Got([s.ring.contents[0]], Done) && t.ring.contents == s.ring.contents[1..])
  {
    StepKeepsInv(s, StartNext(id));
    StepKeepsInv(Step(s, StartNext(id)), Turn(id));
    DrainTurn(s, id);
  }

  lemma DrainTurn<T(!new)>(s: System<T>, id: nat)
    requires Inv(s) && Inv(Step(s, StartNext(id))) && FreshFrom(s, id)
    requires s.ring.closeWrite && !s.ring.closeErr
    ensures var t := Step(Step(s, StartNext(id)), Turn(id));
      && t.ring.closeWrite && !t.ring.closeErr && FreshFrom(t, id + 1) && id in t.returned
      && (s.ring.contents == [] ==> t.returned[id] == Got([], EndOfData))
      && (s.ring.contents != [] ==>
            t.returned[id] == Got([s.ring.contents[0]], Done) && t.ring.contents == s.ring.contents[1..])
  {
    hide Inv, Tag;
    var u := Step(s, StartNext(id));
    assert u == s.(calls := s.calls[id := Reading(1)]);
    assert Step(u, Turn(id)) == ReadTurn(u, id, 1);
    if s.ring.contents != [] {
      assert s.ring.contents[..1] == [s.ring.contents[0]];
    }
  }

  lemma RunTwo<T(!new)>(s: System<T>, a: Event<T>, b: Event<T>, rest: seq<Event<T>>)
    requires Inv(s) && Inv(Step(s, a)) && Inv(Step(Step(s, a), b))
    ensures Run(s, [a, b] + rest) == Run(Step(Step(s, a), b), rest)
  {
    hide Inv, Step;
    var all := [a, b] + rest;
    assert all[0] == a && all[1..][0] == b && all[1..][1..] == rest;
  }

  /** After CloseWrite, calling Next over and over delivers everything stored and then the end. */
  lemma {:induction false} ReadersDrain<T(!new)>(s: System<T>, first: nat, k: nat)
    requires Inv(s) && s.ring.closeWrite && !s.ring.closeErr && FreshFrom(s, first)
    requires k <= |s.ring.contents|
    ensures var t := Run(s, Drain(first, |s.ring.contents| + 1));
      first + k in t.returned
      && t.returned[first + k]
         == if k < |s.ring.contents| then Got([s.ring.contents[k]], Done) else Got([], EndOfData)
    decreases |s.ring.contents|
  {
    hide Inv, Step, FreshFrom, Run;
    var n := |s.ring.contents|;
    var rest := Drain<T>(first + 1, n);
    DrainOne(s, first);
    var v := Step(Step(s, StartNext(first)), Turn(first));
    RunTwo(s, StartNext(first), Turn(first), rest);
    if k == 0 {
      ReturnsStay(v, first, rest);
    } else {
      assert s.ring.contents[1..] == v.ring.contents && |v.ring.contents| + 1 == n;
      ReadersDrain(v, first + 1, k - 1);
    }
  }
}

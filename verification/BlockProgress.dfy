/** What a turn of the blocking ring brings, and when a write gets through. */
module BlockProgress {
  import opened Basics
  import opened Rings
  import opened BlockProtocol

  /** A call begins with nothing done. */
  lemma CallsStart<T(!new)>(s: System<T>, id: nat, data: seq<T>, item: T, want: nat)
    requires Inv(s) && id !in s.calls && id !in s.returned
    ensures Step(s, StartWrite(id, data)) == s.(calls := s.calls[id := Writing(data, 0)])
    ensures Step(s, StartAdd(id, item)) == s.(calls := s.calls[id := Writing([item], 0)])
    ensures Step(s, StartRead(id, want)) == s.(calls := s.calls[id := Reading(want)])
    ensures Step(s, StartNext(id)) == s.(calls := s.calls[id := Reading(1)])
  {
    hide Inv;
  }

  /** A writing turn places as much as there is room for; it parks only in front of a full ring. */
  lemma WriteTurnPlaces<T(!new)>(s: System<T>, id: nat, data: seq<T>, placed: nat)
    requires Inv(s) && id in s.calls && s.calls[id] == Writing(data, placed)
    ensures placed <= |data| && |s.ring.contents| <= s.ring.size
    ensures var t := Step(s, Turn(id));
      if s.ring.closeWrite || s.ring.closeErr then
        id !in t.calls && id in t.returned && t.returned[id] == Wrote(data, placed, Closed) && t.ring == s.ring
      else
        var room, rest := s.ring.size - |s.ring.contents|, |data| - placed;
        && t.ring == s.ring.(contents := s.ring.contents + data[placed..][..Min(room, rest)])
        && (rest <= room ==> id !in t.calls && id in t.returned && t.returned[id] == Wrote(data, |data|, Done))
        && (rest > room ==> id !in t.returned && id in t.calls && t.calls[id] == Writing(data, placed + room)
                            && |t.ring.contents| == t.ring.size)
  {
    CallFacts(s, id);
    hide Inv, Tag;
    assert Step(s, Turn(id)) == WriteTurn(s, id, data, placed);
  }

  lemma CallFacts<T(!new)>(s: System<T>, id: nat)
    requires Inv(s) && id in s.calls
    ensures |s.ring.contents| <= s.ring.size && id !in s.returned
    ensures s.calls[id].Writing? ==> s.calls[id].placed <= |s.calls[id].data|
  {
    hide By, Items, ReturnCounts;
    assert CallCounts(s, id, s.calls[id]);
  }

  /** A reading turn takes as much as is wanted and there; it parks only if the ring is empty and open. */
  lemma ReadTurnTakes<T(!new)>(s: System<T>, id: nat, want: nat)
    requires Inv(s) && id in s.calls && s.calls[id] == Reading(want)
    ensures var t := Step(s, Turn(id));
      if s.ring.closeErr then id in t.returned && t.returned[id] == Got([], Closed) && t.ring == s.ring
      else if s.ring.contents == [] then
        if s.ring.closeWrite then id in t.returned && t.returned[id] == Got([], EndOfData) && t.ring == s.ring else t == s
      else
        var n := Min(want, |s.ring.contents|);
        && id in t.returned && t.returned[id] == Got(s.ring.contents[..n], Done)
        && t.ring == s.ring.(contents := s.ring.contents[n..])
  {
    hide Inv, Tag;
    assert Step(s, Turn(id)) == ReadTurn(s, id, want);
  }

  lemma OthersWait<T(!new)>(s: System<T>, e: Event<T>, id: nat)
    requires Inv(s) && id in s.calls && e != Turn(id)
    ensures id in Step(s, e).calls && Step(s, e).calls[id] == s.calls[id]
    ensures !e.CloseWrite? && !e.CloseWithError? ==>
      Step(s, e).ring.closeWrite == s.ring.closeWrite && Step(s, e).ring.closeErr == s.ring.closeErr
  {
    hide Inv, Tag;
    if e.Turn? && e.id in s.calls {
      hide Step;
      if s.calls[e.id].Writing? {
        CallFacts(s, e.id);
        OtherWriteTurn(s, e.id, id);
      } else {
        OtherReadTurn(s, e.id, id);
      }
    }
  }

  lemma OtherWriteTurn<T(!new)>(s: System<T>, other: nat, id: nat)
    requires Inv(s) && id in s.calls && other in s.calls && other != id && s.calls[other].Writing?
    ensures var t := Step(s, Turn(other));
      && id in t.calls && t.calls[id] == s.calls[id]
      && t.ring.closeWrite == s.ring.closeWrite && t.ring.closeErr == s.ring.closeErr
  {
    CallFacts(s, other);
    hide Inv, Tag;
    assert Step(s, Turn(other)) == WriteTurn(s, other, s.calls[other].data, s.calls[other].placed);
  }

  lemma OtherReadTurn<T(!new)>(s: System<T>, other: nat, id: nat)
    requires Inv(s) && id in s.calls && other in s.calls && other != id && s.calls[other].Reading?
    ensures var t := Step(s, Turn(other));
      && id in t.calls && t.calls[id] == s.calls[id]
      && t.ring.closeWrite == s.ring.closeWrite && t.ring.closeErr == s.ring.closeErr
  {
    hide Inv, Tag;
    assert Step(s, Turn(other)) == ReadTurn(s, other, s.calls[other].want);
  }

  /** The turns that a call takes while the ring is not full. */
  function RoomyTurns<T(!new)>(s: System<T>, events: seq<Event<T>>, id: nat): nat
    requires Inv(s)
    decreases |events|
  {
    if events == [] then 0
    else
      StepKeepsInv(s, events[0]);
      (if events[0] == Turn(id) && |s.ring.contents| < s.ring.size then 1 else 0)
      + RoomyTurns(Step(s, events[0]), events[1..], id)
  }

  /**
    Whatever other calls do: a write into a ring that stays open has placed everything and returned, once
    it has had as many turns with any room at all as it has elements.
   */
  lemma {:induction false} WriteGetsThrough<T(!new)>(s: System<T>, events: seq<Event<T>>, id: nat, data: seq<T>, placed: nat)
    requires Inv(s) && id in s.calls && s.calls[id] == Writing(data, placed) && placed < |data|
    requires !s.ring.closeWrite && !s.ring.closeErr
    requires forall k | 0 <= k < |events| :: !events[k].CloseWrite? && !events[k].CloseWithError?
    requires RoomyTurns(s, events, id) >= |data| - placed
    ensures id in Run(s, events).returned && Run(s, events).returned[id] == Wrote(data, |data|, Done)
    decreases |events|
  {
    hide Inv, Step;
    var e, rest := events[0], events[1..];
    var t := Step(s, e);
    StepKeepsInv(s, e);
    assert forall k | 0 <= k < |rest| :: rest[k] == events[k + 1];
    if e != Turn(id) {
      OthersWait(s, e, id);
      WriteGetsThrough(t, rest, id, data, placed);
    } else {
      WriteTurnPlaces(s, id, data, placed);
      if id in t.returned {
        ReturnsStay(t, id, rest);
      } else {
        WriteGetsThrough(t, rest, id, data, placed + (s.ring.size - |s.ring.contents|));
      }
    }
  }
}

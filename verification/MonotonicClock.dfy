/**
  The package-wide clock: what one call answers, and the compare-and-swap loop by which
  concurrent callers get their answers.
 */
module MonotonicClock {

  /** The wall clock's time, unless that would not be later than the last answer. */
  function Later(wall: int, last: int): (t: int)
    ensures t > last && t >= wall && (t == wall || t == last + 1)
  {
    if wall <= last then last + 1 else wall
  }

  /** The answers to calls that come one after the other, with the times their wall clocks showed. */
  function Answers(walls: seq<int>): (ts: seq<int>)
    ensures |ts| == |walls|
  {
    if walls == [] then []
    else
      var before := Answers(walls[..|walls| - 1]);
      before + [Later(walls[|walls| - 1], Latest(before))]
  }

  function Latest(ts: seq<int>): int { if ts == [] then 0 else ts[|ts| - 1] }

  /** A call that runs undisturbed. */
  class Clock {
    var last: int

    constructor ()
      ensures last == 0
    {
      last := 0;
    }

    method Now() returns (t: int, ghost wall: int)
      modifies this
      ensures t == last == Later(wall, old(last))
    {
      var now: int := *;
      wall := now;
      t := now;
      if t <= last {
        t := last + 1;
      }
      last := t;
    }
  }

  // ---------------------------------------------------------------------------
  // Concurrent callers
  // ---------------------------------------------------------------------------

  /** A call has read the wall clock, and then also the last answer it wants to replace. */
  datatype Call = Started(now: int) | Loaded(now: int, seen: int)

  /** The walls are those of the calls that have answered, in the order of their swaps. */
  datatype System = System(last: int, calls: map<nat, Call>, answers: map<nat, int>, walls: seq<int>)

  datatype Event = Start(id: nat, now: int) | Load(id: nat) | Swap(id: nat)

  /** A swap succeeds only if no other call has answered since the load; otherwise the call loads again. */
  function Step(s: System, e: Event): (t: System) {
    match e
    case Start(id, now) =>
      if id in s.calls || id in s.answers then s else s.(calls := s.calls[id := Started(now)])
    case Load(id) =>
      if id in s.calls && s.calls[id].Started?
      then s.(calls := s.calls[id := Loaded(s.calls[id].now, s.last)]) else s
    case Swap(id) =>
      if id !in s.calls || s.calls[id].Started? then s
      else
        var now, seen := s.calls[id].now, s.calls[id].seen;
        var next := if now <= seen then seen + 1 else now;
        if s.last == seen
        then System(next, s.calls - {id}, s.answers[id := next], s.walls + [now])
        else s.(calls := s.calls[id := Started(now)])
  }

  function Run(s: System, events: seq<Event>): (t: System)
    decreases |events|
  {
    if events == [] then s else Run(Step(s, events[0]), events[1..])
  }

  const INIT := System(0, map[], map[], [])

  /** The answers given so far are those of calls one after the other. */
  ghost predicate Inv(s: System) {
    && s.last == Latest(Answers(s.walls)) && s.calls.Keys !! s.answers.Keys
    && (forall id | id in s.calls && s.calls[id].Loaded? :: 0 <= s.calls[id].seen <= s.last)
    && (forall id | id in s.answers :: s.answers[id] in Answers(s.walls))
    && (forall i, j | i in s.answers && j in s.answers && i != j :: s.answers[i] != s.answers[j])
  }

  lemma {:induction false} Ascend(walls: seq<int>)
    ensures forall i, j | 0 <= i < j < |walls| :: Answers(walls)[i] < Answers(walls)[j]
    ensures forall i | 0 <= i < |walls| :: walls[i] <= Answers(walls)[i] <= Latest(Answers(walls))
    ensures Latest(Answers(walls)) >= 0
  {
    if walls != [] {
      Ascend(walls[..|walls| - 1]);
    }
  }

  lemma StepKeepsInv(s: System, e: Event)
    requires Inv(s)
    ensures Inv(Step(s, e))
  {
    Ascend(s.walls);
    if e.Swap? && e.id in s.calls && s.calls[e.id].Loaded? && s.last == s.calls[e.id].seen {
      SwapKeepsInv(s, e.id);
    } else {
      hide Answers;
    }
  }

  lemma SwapKeepsInv(s: System, id: nat)
    requires Inv(s) && id in s.calls && s.calls[id].Loaded? && s.last == s.calls[id].seen
    ensures Inv(Step(s, Swap(id)))
  {
    hide Answers;
    var t := Step(s, Swap(id));
    Ascend(s.walls);
    AnswersGrow(s.walls, s.calls[id].now);
    forall i | i in t.answers ensures t.answers[i] in Answers(t.walls) {
      assert i != id ==> s.answers[i] in Answers(s.walls);
    }
    forall i, j | i in t.answers && j in t.answers && i != j ensures t.answers[i] != t.answers[j] {
      assert i != id ==> s.answers[i] <= s.last;
      assert j != id ==> s.answers[j] <= s.last;
    }
  }

  lemma AnswersGrow(walls: seq<int>, wall: int)
    ensures Answers(walls + [wall]) == Answers(walls) + [Later(wall, Latest(Answers(walls)))]
    ensures forall t | t in Answers(walls) :: t <= Latest(Answers(walls)) && t in Answers(walls + [wall])
  {
    assert (walls + [wall])[..|walls|] == walls;
    Ascend(walls);
  }

  lemma {:induction false} RunKeepsInv(s: System, events: seq<Event>)
    requires Inv(s)
    ensures Inv(Run(s, events))
    decreases |events|
  {
    if events != [] {
      StepKeepsInv(s, events[0]);
      RunKeepsInv(Step(s, events[0]), events[1..]);
    }
  }

  /** In every run the calls answer as if they had come one after the other, and no answer is given twice. */
  lemma AsIfInTurn(events: seq<Event>)
    ensures var t := Run(INIT, events);
      && t.last == Latest(Answers(t.walls))
      && (forall id | id in t.answers :: t.answers[id] in Answers(t.walls))
      && (forall i, j | i in t.answers && j in t.answers && i != j :: t.answers[i] != t.answers[j])
      && (forall i, j | 0 <= i < j < |t.walls| :: Answers(t.walls)[i] < Answers(t.walls)[j])
  {
    hide Run, Answers, Latest;
    assert Inv(INIT) by {
      EmptyAnswers();
    }
    RunKeepsInv(INIT, events);
    Ascend(Run(INIT, events).walls);
  }

  lemma EmptyAnswers()
    ensures Answers([]) == [] && Latest([]) == 0
  {
  }

  /** A call has to try again only if another one has answered since it loaded. */
  lemma RetryMeansProgress(events: seq<Event>, id: nat)
    requires var s := Run(INIT, events); id in s.calls && s.calls[id].Loaded?
    ensures var s := Run(INIT, events);
      id in Step(s, Swap(id)).calls <==> exists k | 0 <= k < |s.walls| :: Answers(s.walls)[k] > s.calls[id].seen
    ensures var s, t := Run(INIT, events), Step(Run(INIT, events), Swap(id));
      id !in t.calls ==>
        id in t.answers && t.answers[id] == t.last == Later(s.calls[id].now, s.last) && t.walls == s.walls + [s.calls[id].now]
  {
    hide Run;
    AsIfInTurn(events);
    RunKeepsInv(INIT, events);
    var s := Run(INIT, events);
    Ascend(s.walls);
    if s.walls != [] {
      assert Answers(s.walls)[|s.walls| - 1] == s.last;
    }
  }

  /** A call that nobody disturbs answers as the clock does. */
  lemma UndisturbedAnswers(s: System, id: nat, now: int)
    requires id !in s.calls && id !in s.answers
    ensures var t := Step(Step(Step(s, Start(id, now)), Load(id)), Swap(id));
      id in t.answers && t.answers[id] == t.last == Later(now, s.last)
  {
  }

  /** The call's answer, given or still to come, is later than a time. */
  ghost predicate Above(s: System, id: nat, time: int) {
    && s.last >= time
    && (id in s.answers ==> s.answers[id] > time)
    && (id in s.calls && s.calls[id].Loaded? ==> s.calls[id].seen >= time)
  }

  lemma StaysAbove(s: System, e: Event, id: nat, time: int)
    requires Inv(s) && Above(s, id, time)
    ensures Above(Step(s, e), id, time)
  {
  }

  lemma {:induction false} RunStaysAbove(s: System, events: seq<Event>, id: nat, time: int)
    requires Inv(s) && Above(s, id, time)
    ensures Above(Run(s, events), id, time)
    decreases |events|
  {
    hide Step, Inv, Above;
    if events != [] {
      StepKeepsInv(s, events[0]);
      StaysAbove(s, events[0], id, time);
      RunStaysAbove(Step(s, events[0]), events[1..], id, time);
    }
  }

  /** A call that starts when others have answered gets a later time than they, whatever the wall clock shows. */
  lemma LaterCallsLater(s: System, events: seq<Event>, id: nat)
    requires Inv(s) && id !in s.calls && id !in s.answers && id in Run(s, events).answers
    ensures forall i | i in s.answers :: Run(s, events).answers[id] > s.answers[i]
  {
    hide Run, Answers;
    RunStaysAbove(s, events, id, s.last);
    Ascend(s.walls);
  }
}

/**
  A conversation: messages by time, the key that names the latest user message, and the counters
  that decide about compression.
 */
module Conversation {
  import opened Basics
  import opened Decimal
  import opened RecallKeys
  import opened RecallIndex
  import opened Memory

  type Messages = map<int, Message>

  /** The stored messages, the revert key, and the pending counters. */
  datatype Log = Log(msgs: Messages, revert: Option<int>, chars: int, count: int)

  const EMPTY: Log := Log(map[], None, 0, 0)

  // ---------------------------------------------------------------------------
  // Keys
  // ---------------------------------------------------------------------------

  /** Message keys are padded to 20 digits, so that the store lists messages by time. */
  lemma KeysSortAsTimes(a: nat, b: nat)
    requires a < b && Int64(b)
    ensures |Dec(b)| <= 20 && Less(Padded(a, 20), Padded(b, 20))
  {
    hide Pow10, Zeros, Dec, Less;
    TwentyDigits();
    DecDigits(b, 20);
    DecDigits(a, 20);
    PaddedReads(a, 20);
    PaddedReads(b, 20);
    ZerosInFront(20 - |Dec(a)|, []);
    ZerosInFront(20 - |Dec(b)|, []);
    SameLengthOrder(Padded(a, 20), Padded(b, 20));
  }

  function Pow10(n: nat): nat { if n == 0 then 1 else 10 * Pow10(n - 1) }

  lemma {:induction false} PowAdd(a: nat, b: nat)
    ensures Pow10(a + b) == Pow10(a) * Pow10(b)
  {
    if a > 0 {
      PowAdd(a - 1, b);
    }
  }

  lemma TwentyDigits()
    ensures Pow10(20) > MAX_INT64
  {
    assert Pow10(2) == 10 * Pow10(1) == 100 * Pow10(0);
    assert Pow10(5) == 10 * Pow10(4) == 100 * Pow10(3) == 1000 * Pow10(2);
    PowAdd(5, 5);
    PowAdd(10, 10);
  }

  lemma {:induction false} DecDigits(n: nat, d: nat)
    requires d > 0 && n < Pow10(d)
    ensures |Dec(n)| <= d
    decreases d
  {
    if n >= 10 {
      assert Pow10(d) == 10 * Pow10(d - 1);
      assert d > 1;
      DecDigits(n / 10, d - 1);
    }
  }

  // ---------------------------------------------------------------------------
  // The log
  // ---------------------------------------------------------------------------

  ghost function TotalChars(msgs: Messages): nat
    decreases |msgs|
  {
    if exists t :: t in msgs then
      var t :| t in msgs;
      |msgs[t].content| + TotalChars(msgs - {t})
    else 0
  }

  lemma {:induction false} TotalOf(msgs: Messages, t: int)
    requires t in msgs
    ensures TotalChars(msgs) == |msgs[t].content| + TotalChars(msgs - {t})
    decreases |msgs|
  {
    var u :| u in msgs && TotalChars(msgs) == |msgs[u].content| + TotalChars(msgs - {u});
    if u != t {
      TotalOf(msgs - {u}, t);
      TotalOf(msgs - {t}, u);
      assert msgs - {u} - {t} == msgs - {t} - {u};
    }
  }

  lemma TotalWith(msgs: Messages, t: int, m: Message)
    requires t !in msgs
    ensures TotalChars(msgs[t := m]) == TotalChars(msgs) + |m.content|
  {
    TotalOf(msgs[t := m], t);
    assert msgs[t := m] - {t} == msgs;
  }

  ghost predicate IsUser(msgs: Messages, t: int) {
    t in msgs && msgs[t].role == User
  }

  ghost predicate LatestUser(msgs: Messages, r: Option<int>) {
    match r
    case None => forall t | t in msgs :: !IsUser(msgs, t)
    case Some(u) => IsUser(msgs, u) && forall t | t in msgs && IsUser(msgs, t) :: t <= u
  }

  /**
    The revert key names the latest stored user message, and is absent exactly if there is none; the
    counters are those of the stored messages; times are positive, as the scan after a revert expects.
   */
  ghost predicate Inv(log: Log) {
    && (forall t | t in log.msgs :: log.msgs[t].ts == t && t > 0)
    && LatestUser(log.msgs, log.revert)
    && log.count == |log.msgs| && log.chars == TotalChars(log.msgs)
  }

  function Appended(log: Log, m: Message): Log {
    Log(log.msgs[m.ts := m], if m.role == User then Some(m.ts) else log.revert,
        log.chars + |m.content|, log.count + 1)
  }

  /** A new positive time, and for a user message one after the latest user message. */
  ghost predicate Fits(log: Log, m: Message) {
    m.ts > 0 && m.ts !in log.msgs && (m.role == User && log.revert.Some? ==> m.ts > log.revert.value)
  }

  /** Appending keeps the invariant exactly for messages that fit. */
  lemma AppendKeeps(log: Log, m: Message)
    requires Inv(log)
    ensures Inv(Appended(log, m)) <==> Fits(log, m)
  {
    hide TotalChars;
    if Fits(log, m) {
      FittingKeeps(log, m);
    } else {
      MisfitBreaks(log, m);
    }
  }

  lemma FittingKeeps(log: Log, m: Message)
    requires Inv(log) && Fits(log, m)
    ensures Inv(Appended(log, m))
  {
    hide TotalChars;
    var after := Appended(log, m);
    TotalWith(log.msgs, m.ts, m);
    assert after.msgs.Keys == log.msgs.Keys + {m.ts};
    forall t | t in after.msgs && IsUser(after.msgs, t) ensures after.revert.Some? && t <= after.revert.value {
      assert t != m.ts ==> IsUser(log.msgs, t);
    }
    if after.revert.Some? && m.role != User {
      assert IsUser(log.msgs, log.revert.value);
    }
  }

  lemma MisfitBreaks(log: Log, m: Message)
    requires Inv(log) && !Fits(log, m)
    ensures !Inv(Appended(log, m))
  {
    hide TotalChars;
    var after := Appended(log, m);
    if m.ts in log.msgs {
      assert after.msgs.Keys == log.msgs.Keys;
      assert |after.msgs| == |after.msgs.Keys| == |log.msgs.Keys|;
    } else if m.ts > 0 {
      assert IsUser(log.msgs, log.revert.value) && IsUser(after.msgs, log.revert.value);
    } else {
      assert m.ts in after.msgs;
    }
  }

  /** The messages before a time. */
  function Before(msgs: Messages, t: int): Messages {
    map u | u in msgs && u < t :: msgs[u]
  }

  /** What a revert must leave: the messages before the latest user message, if there is one. */
  ghost predicate Reverted(log: Log, after: Log) {
    && Inv(after)
    && after.msgs == if log.revert.None? then log.msgs else Before(log.msgs, log.revert.value)
  }

  lemma LatestUnique(msgs: Messages, r: Option<int>, s: Option<int>)
    requires LatestUser(msgs, r) && LatestUser(msgs, s)
    ensures r == s
  {
  }

  function AppendedAll(log: Log, ms: seq<Message>): Log
    decreases |ms|
  {
    if ms == [] then log else Appended(AppendedAll(log, ms[..|ms| - 1]), ms[|ms| - 1])
  }

  /** Replies to a message: none of them from the user, all later, in order. */
  ghost predicate Replies(user: Message, ms: seq<Message>) {
    && (forall i | 0 <= i < |ms| :: ms[i].role != User && ms[i].ts > user.ts)
    && (forall i, j | 0 <= i < j < |ms| :: ms[i].ts < ms[j].ts)
  }

  /** The state in the middle of a turn: everything from the user message on belongs to it. */
  ghost predicate InTurn(log: Log, user: Message, last: int, now: Log) {
    && Inv(now) && now.revert == Some(user.ts) && Before(now.msgs, user.ts) == log.msgs
    && user.ts <= last && forall t | t in now.msgs :: t <= last
  }

  lemma TurnStarts(log: Log, user: Message)
    requires Inv(log) && user.role == User && user.ts > 0
    requires forall t | t in log.msgs :: t < user.ts
    ensures InTurn(log, user, user.ts, Appended(log, user))
  {
    hide TotalChars;
    if log.revert.Some? {
      assert IsUser(log.msgs, log.revert.value);
    }
    FittingKeeps(log, user);
    assert Before(Appended(log, user).msgs, user.ts) == log.msgs;
  }

  lemma TurnGoesOn(log: Log, user: Message, last: int, now: Log, reply: Message)
    requires InTurn(log, user, last, now) && reply.role != User && reply.ts > last
    ensures InTurn(log, user, reply.ts, Appended(now, reply))
  {
    hide TotalChars;
    assert now.revert.Some? && IsUser(now.msgs, user.ts) && now.msgs[user.ts].ts == user.ts > 0;
    FittingKeeps(now, reply);
    assert Before(Appended(now, reply).msgs, user.ts) == Before(now.msgs, user.ts);
  }

  lemma {:induction false} TurnAppended(log: Log, user: Message, ms: seq<Message>)
    requires Inv(log) && user.role == User && user.ts > 0 && Replies(user, ms)
    requires forall t | t in log.msgs :: t < user.ts
    ensures InTurn(log, user, if ms == [] then user.ts else ms[|ms| - 1].ts, AppendedAll(Appended(log, user), ms))
    decreases |ms|
  {
    hide Inv, InTurn, Appended;
    if ms == [] {
      TurnStarts(log, user);
    } else {
      var n := |ms| - 1;
      TurnAppended(log, user, ms[..n]);
      TurnGoesOn(log, user, if n == 0 then user.ts else ms[n - 1].ts, AppendedAll(Appended(log, user), ms[..n]), ms[n]);
    }
  }

  /** A revert undoes a whole turn: the user message and every reply to it, and nothing else. */
  lemma RevertUndoesTurn(log: Log, user: Message, ms: seq<Message>, after: Log)
    requires Inv(log) && user.role == User && user.ts > 0 && Replies(user, ms)
    requires forall t | t in log.msgs :: t < user.ts
    requires Reverted(AppendedAll(Appended(log, user), ms), after)
    ensures after == log
  {
    TurnAppended(log, user, ms);
    LatestUnique(log.msgs, log.revert, after.revert);
  }

  // ---------------------------------------------------------------------------
  // Listing
  // ---------------------------------------------------------------------------

  ghost predicate Keyed(msgs: Messages) {
    forall t | t in msgs :: msgs[t].ts == t && t > 0
  }

  /** All messages, oldest first. */
  ghost predicate Chronological(list: seq<Message>, msgs: Messages) {
    && (forall i | 0 <= i < |list| :: list[i].ts in msgs && msgs[list[i].ts] == list[i])
    && (forall t | t in msgs :: msgs[t] in list)
    && (forall i, j | 0 <= i < j < |list| :: list[i].ts < list[j].ts)
  }

  /** The first n listed messages, as a map. */
  function Taken(list: seq<Message>, n: nat): Messages
    requires n <= |list|
  {
    if n == 0 then map[] else Taken(list, n - 1)[list[n - 1].ts := list[n - 1]]
  }

  lemma {:induction false} TakenMeans(list: seq<Message>, msgs: Messages, n: nat)
    requires Chronological(list, msgs) && n <= |list|
    ensures forall t | t in Taken(list, n) :: t in msgs && msgs[t] == Taken(list, n)[t]
    ensures forall i | 0 <= i < n :: list[i].ts in Taken(list, n)
    ensures forall i | n <= i < |list| :: list[i].ts !in Taken(list, n)
  {
    if n > 0 {
      TakenMeans(list, msgs, n - 1);
    }
  }

  lemma {:induction false} TakenCount(list: seq<Message>, msgs: Messages, n: nat)
    requires Chronological(list, msgs) && n <= |list|
    ensures |Taken(list, n)| == n
  {
    hide Chronological;
    if n > 0 {
      TakenCount(list, msgs, n - 1);
      TakenMeans(list, msgs, n - 1);
      assert Taken(list, n).Keys == Taken(list, n - 1).Keys + {list[n - 1].ts};
    }
  }

  lemma TakenAll(list: seq<Message>, msgs: Messages)
    requires Chronological(list, msgs) && Keyed(msgs)
    ensures Taken(list, |list|) == msgs
  {
    hide Taken;
    TakenMeans(list, msgs, |list|);
    forall t | t in msgs ensures t in Taken(list, |list|) {
      assert msgs[t] in list;
      var i :| 0 <= i < |list| && list[i] == msgs[t];
    }
    var all := Taken(list, |list|);
    assert forall t | t in all :: t in msgs;
    assert forall t | t in msgs :: t in all;
    assert all.Keys == msgs.Keys;
    assert forall t | t in all :: all[t] == msgs[t];
    assert all == msgs;
  }

  lemma NoneTaken(list: seq<Message>)
    ensures Taken(list, 0) == map[]
  {
  }

  lemma OneMoreTaken(list: seq<Message>, n: nat)
    requires n < |list|
    ensures Taken(list, n + 1) == Taken(list, n)[list[n].ts := list[n]]
  {
  }

  lemma NoChars()
    ensures TotalChars(map[]) == 0 && Inv(EMPTY)
  {
  }

  lemma ListedCount(list: seq<Message>, msgs: Messages)
    requires Chronological(list, msgs) && Keyed(msgs)
    ensures |list| == |msgs|
  {
    TakenCount(list, msgs, |list|);
    TakenAll(list, msgs);
  }

  lemma LatestFound(list: seq<Message>, msgs: Messages, latest: int)
    requires Keyed(msgs) && Chronological(list, msgs) && latest >= 0
    requires forall i | 0 <= i < |list| && list[i].role == User :: list[i].ts <= latest
    requires latest == 0 || exists i | 0 <= i < |list| :: list[i].role == User && list[i].ts == latest
    ensures LatestUser(msgs, if latest > 0 then Some(latest) else None)
  {
    forall t | t in msgs && IsUser(msgs, t) ensures 0 < t <= latest {
      assert msgs[t] in list;
      var i :| 0 <= i < |list| && list[i] == msgs[t];
    }
    if latest > 0 {
      var i :| 0 <= i < |list| && list[i].role == User && list[i].ts == latest;
      assert IsUser(msgs, latest);
    }
  }

  method Least(times: set<int>) returns (m: int)
    requires times != {}
    ensures m in times && forall t | t in times :: m <= t
  {
    Inhabited(times);
    m :| m in times;
    var rest := times - {m};
    while rest != {}
      invariant rest <= times && m in times && forall t | t in times && t !in rest :: m <= t
      decreases |rest|
    {
      Inhabited(rest);
      var t :| t in rest;
      if t < m {
        m := t;
      }
      rest := rest - {t};
    }
  }

  /** In order, up to the times that are still to come. */
  ghost predicate Gathered(msgs: Messages, times: set<int>, list: seq<Message>) {
    && times <= msgs.Keys
    && (forall i | 0 <= i < |list| :: list[i].ts in msgs && msgs[list[i].ts] == list[i])
    && (forall t | t in msgs && t !in times :: msgs[t] in list)
    && (forall i, t | 0 <= i < |list| && t in times :: list[i].ts < t)
    && (forall i, j | 0 <= i < j < |list| :: list[i].ts < list[j].ts)
  }

  lemma NoneGathered(msgs: Messages)
    ensures Gathered(msgs, msgs.Keys, [])
  {
  }

  lemma OneGathered(msgs: Messages, times: set<int>, list: seq<Message>, t: int)
    requires Keyed(msgs) && Gathered(msgs, times, list) && t in times && forall u | u in times :: t <= u
    ensures t in msgs && Gathered(msgs, times - {t}, list + [msgs[t]])
  {
    assert (list + [msgs[t]])[|list|] == msgs[t];
    forall u | u in msgs && u !in times - {t} ensures msgs[u] in list + [msgs[t]] {
      assert u != t ==> msgs[u] in list;
    }
  }

  lemma AllGathered(msgs: Messages, list: seq<Message>)
    requires Gathered(msgs, {}, list)
    ensures Chronological(list, msgs)
  {
  }

  /** Some threshold is reached by the counters. */
  ghost predicate Overfull(p: Policy, log: Log) {
    (p.maxChars > 0 && log.chars >= p.maxChars) || (p.maxMessages > 0 && log.count >= p.maxMessages)
  }

  /** A compression: what the compressor was asked and said, what was stored since when, and the compactions after it. */
  datatype Digest = Digest(asked: seq<Message>, outs: seq<SegmentInput>, made: seq<Segment>, since: int, passes: seq<Pass>)

  /** All messages, in order, have gone to the compressor, and all of its answer into hour segments. */
  ghost predicate Digested(comp: Compressor, p: Policy, msgs: Messages, before: Segments, after: Segments, d: Digest) {
    && Chronological(d.asked, msgs) && comp.compressMessages(d.asked) == Some(d.outs)
    && Apart(before, d.made) && Made(d.made, d.outs, Hour, d.since) && |d.made| == |d.outs|
    && Chain(comp, p, Added(before, d.made), d.passes, after)
  }

  lemma SomethingAsked(asked: seq<Message>, msgs: Messages)
    requires Chronological(asked, msgs) && Keyed(msgs) && msgs != map[]
    ensures asked != []
  {
    ListedCount(asked, msgs);
  }

  class Conversation {
    const mem: Memory
    var msgs: Messages
    var revert: Option<int>
    var pendingChars: int
    var pendingMsgs: int
    var compressFailed: bool

    ghost function State(): (log: Log)
      requires pendingChars >= 0 && pendingMsgs >= 0
      reads this
    {
      Log(msgs, revert, pendingChars, pendingMsgs)
    }

    ghost predicate Valid()
      reads this
    {
      pendingChars >= 0 && pendingMsgs >= 0 && Keyed(msgs)
    }

    constructor (mem: Memory)
      ensures Valid() && State() == EMPTY && Inv(State()) && this.mem == mem
    {
      this.mem := mem;
      msgs, revert, pendingChars, pendingMsgs, compressFailed := map[], None, 0, 0, false;
    }

    /** The ordered store lists message keys, which sort as their times do. */
    method All() returns (list: seq<Message>)
      requires Valid()
      ensures Chronological(list, msgs)
    {
      hide Chronological, Gathered;
      list := [];
      var times := msgs.Keys;
      NoneGathered(msgs);
      while times != {}
        invariant Gathered(msgs, times, list)
        decreases |times|
      {
        var t := Least(times);
        OneGathered(msgs, times, list, t);
        list := list + [msgs[t]];
        times := times - {t};
      }
      AllGathered(msgs, list);
    }

    /** The n latest messages, oldest first. */
    method Recent(n: int) returns (list: seq<Message>)
      requires Valid()
      ensures exists all ::
        (Chronological(all, msgs) && list == if n <= 0 then [] else if |all| > n then all[|all| - n..] else all)
    {
      var all := All();
      if n <= 0 {
        return [];
      }
      list := if |all| > n then all[|all| - n..] else all;
    }

    method RecomputePending()
      requires Valid()
      modifies this`pendingChars, this`pendingMsgs
      ensures Valid() && State() == Log(msgs, revert, TotalChars(msgs), |msgs|)
    {
      hide TotalChars, Taken, Chronological;
      var list := All();
      var chars, count := 0, 0;
      NoneTaken(list);
      NoChars();
      for i := 0 to |list|
        invariant count == i && chars == TotalChars(Taken(list, i))
      {
        TakenMeans(list, msgs, i);
        TotalWith(Taken(list, i), list[i].ts, list[i]);
        OneMoreTaken(list, i);
        chars := chars + |list[i].content|;
        count := count + 1;
      }
      TakenCount(list, msgs, |list|);
      TakenAll(list, msgs);
      pendingChars, pendingMsgs := chars, count;
    }

    method Clear()
      requires Valid()
      modifies this`msgs, this`revert, this`pendingChars, this`pendingMsgs
      ensures Valid() && State() == EMPTY
    {
      msgs, revert, pendingChars, pendingMsgs := map[], None, 0, 0;
    }

    /** The latest user time in a list, or 0. */
    method LatestUserTS(list: seq<Message>) returns (latest: int)
      ensures latest >= 0
      ensures forall i | 0 <= i < |list| && list[i].role == User :: list[i].ts <= latest
      ensures latest == 0 || exists i | 0 <= i < |list| :: list[i].role == User && list[i].ts == latest
    {
      latest := 0;
      for i := 0 to |list|
        invariant latest >= 0
        invariant forall j | 0 <= j < i && list[j].role == User :: list[j].ts <= latest
        invariant latest == 0 || exists j | 0 <= j < i :: list[j].role == User && list[j].ts == latest
      {
        if list[i].role == User && list[i].ts > latest {
          latest := list[i].ts;
        }
      }
    }

    /** Takes back everything from the latest user message on. */
    method Revert()
      requires Valid()
      modifies this`msgs, this`revert, this`pendingChars, this`pendingMsgs
      ensures Valid()
      ensures old(Inv(State())) ==> Reverted(old(State()), State())
      ensures old(revert.None?) ==> State() == old(State())
    {
      hide TotalChars;
      if revert.None? {
        return;
      }
      var toDelete := set t | t in msgs && t >= revert.value;
      assert Inv(State()) ==> IsUser(msgs, revert.value) && revert.value in toDelete;
      if |toDelete| == 0 {
        RecomputePending();
        return;
      }
      ghost var before := msgs;
      msgs := msgs - toDelete;
      assert msgs == Before(before, revert.value);
      var list := All();
      var latest := LatestUserTS(list);
      LatestFound(list, msgs, latest);
      if latest > 0 {
        revert := Some(latest);
      } else {
        revert := None;
      }
      RecomputePending();
    }

    /**
      Turns the messages into segments of the hour bucket, one per answer of the compressor, and clears
      the conversation; a failure leaves it as it is.
     */
    method Compress(given: Option<Compressor>)
      returns (ok: bool, ghost asked: seq<Message>, ghost outs: seq<SegmentInput>, ghost made: seq<Segment>)
      requires Valid() && mem.Valid()
      modifies this`msgs, this`revert, this`pendingChars, this`pendingMsgs, mem.index, mem.clock
      ensures Valid() && mem.Valid() && old(mem.clock.last) <= mem.clock.last
      ensures Apart(old(mem.index.segs), made) && mem.index.segs == Added(old(mem.index.segs), made)
      ensures Made(made, outs, Hour, old(mem.clock.last))
      ensures !ok || old(msgs) == map[] ==> State() == old(State())
      ensures var comp := if given.Some? then given else mem.compressor;
        if comp.None? then !ok && made == []
        else
          && Chronological(asked, old(msgs))
          && (ok && old(msgs) != map[] ==>
                State() == EMPTY && comp.value.compressMessages(asked) == Some(outs) && |made| == |outs|)
          && (made != [] ==> comp.value.compressMessages(asked) == Some(outs))
          && (mem.index.reliable ==>
                (ok <==> asked == [] || (comp.value.extractEntities(asked) && comp.value.compressMessages(asked).Some?)))
    {
      hide Apart, Made, Added, Chronological, PlainId, CompactedId, Agree, Filed, Past;
      asked, outs, made := [], [], [];
      NoneMade(mem.index.segs, [], Hour, mem.clock.last);
      var comp := if given.Some? then given else mem.compressor;
      if comp.None? {
        return false, [], [], [];
      }
      var list := All();
      asked := list;
      ListedCount(list, msgs);
      if |list| == 0 {
        return true, asked, [], [];
      }
      var applied: bool := *;
      if !comp.value.extractEntities(list) || (!applied && !mem.index.reliable) {
        return false, asked, [], [];
      }
      var result := comp.value.compressMessages(list);
      if result.None? {
        return false, asked, [], [];
      }
      outs := result.value;
      ok, made := StoreAll(result.value);
      if !ok {
        return false, asked, outs, made;
      }
      Clear();
    }

    method StoreAll(inputs: seq<SegmentInput>) returns (ok: bool, ghost made: seq<Segment>)
      requires mem.Valid()
      modifies mem.index, mem.clock
      ensures mem.Valid() && old(mem.clock.last) <= mem.clock.last
      ensures Apart(old(mem.index.segs), made) && mem.index.segs == Added(old(mem.index.segs), made)
      ensures Made(made, inputs, Hour, old(mem.clock.last))
      ensures ok ==> |made| == |inputs|
      ensures mem.index.reliable ==> ok
    {
      hide Apart, Made, Added, PlainId, CompactedId, Agree, Filed, Past;
      ghost var before, start := mem.index.segs, mem.clock.last;
      made := [];
      NoneMade(before, inputs, Hour, start);
      for i := 0 to |inputs|
        invariant mem.Valid() && start + i <= mem.clock.last
        invariant |made| == i && Apart(before, made) && Made(made, inputs, Hour, start)
        invariant mem.index.segs == Added(before, made)
      {
        var r := mem.StoreSegment(inputs[i], Hour);
        if r != NotStored {
          ghost var last := mem.clock.last;
          ghost var s := Segment(PlainId(mem.id, last), inputs[i].summary, inputs[i].keywords, inputs[i].labels, last, Hour);
          OneMade(before, made, s, inputs, Hour, start);
          made := made + [s];
        }
        if r != Done {
          return false, made;
        }
      }
      return true, made;
    }

    /** Compression and then compaction, if the counters have reached a threshold. */
    method AutoCompress() returns (due: bool, compressed: bool, ghost d: Digest)
      requires Valid() && mem.Valid() && msgs != map[]
      modifies this, mem.index, mem.clock
      ensures Valid() && mem.Valid() && old(mem.clock.last) <= mem.clock.last
      ensures due <==> mem.compressor.Some? && Overfull(mem.policy, old(State()))
      ensures !due ==> mem.index.segs == old(mem.index.segs)
      ensures compressed ==>
        && due && State() == EMPTY
        && Digested(mem.compressor.value, mem.policy, old(msgs), old(mem.index.segs), mem.index.segs, d)
      ensures !compressed ==>
        State() == old(State()) && Apart(old(mem.index.segs), d.made) && mem.index.segs == Added(old(mem.index.segs), d.made)
      ensures due && mem.index.reliable ==>
        && Chronological(d.asked, old(msgs))
        && (compressed <==> mem.compressor.value.extractEntities(d.asked) && mem.compressor.value.compressMessages(d.asked).Some?)
      ensures due && !compressed ==> compressFailed
      ensures !due ==> compressFailed == old(compressFailed)
    {
      hide PlainId, CompactedId, Agree, Filed, Past, Apart, Made, Added, Slots, Chain, Chronological;
      NoneMade(mem.index.segs, [], Hour, mem.clock.last);
      d := Digest([], [], [], mem.clock.last, []);
      due, compressed := mem.compressor.Some? && ShouldCompress(mem.policy, pendingChars, pendingMsgs), false;
      if due {
        var ok;
        ghost var asked, outs, made, passes;
        ghost var had := msgs;
        ok, asked, outs, made := Compress(None);
        d := Digest(asked, outs, made, d.since, []);
        SomethingAsked(asked, had);
        if !ok {
          compressFailed := true;
        } else {
          pendingChars, pendingMsgs, compressed := 0, 0, true;
          ok, passes := mem.Compact();
          d := d.(passes := passes);
          compressFailed := !ok;
        }
      }
    }

    method Put(m: Message)
      requires Valid() && m.ts > 0
      modifies this`msgs, this`revert, this`pendingChars, this`pendingMsgs
      ensures Valid() && msgs != map[] && State() == Appended(old(State()), m)
    {
      msgs := msgs[m.ts := m];
      if m.role == User {
        revert := Some(m.ts);
      }
      pendingChars := pendingChars + |m.content|;
      pendingMsgs := pendingMsgs + 1;
      assert m.ts in msgs;
    }

    /** A message without a time gets the clock's. */
    method Stamp(msg: Message) returns (m: Message)
      requires mem.Valid() && msg.ts >= 0
      modifies mem.clock
      ensures mem.Valid() && old(mem.clock.last) <= mem.clock.last
      ensures m == if msg.ts != 0 then msg else msg.(ts := m.ts)
      ensures msg.ts == 0 ==> old(mem.clock.last) < m.ts <= mem.clock.last
    {
      hide PlainId, CompactedId, Agree, Filed;
      m := msg;
      if m.ts == 0 {
        var now, _ := mem.clock.Now();
        m := m.(ts := now);
      }
    }

    /** Stores a message; when a threshold is reached, the conversation is compressed into segments. */
    method Append(msg: Message) returns (ghost m: Message, due: bool, compressed: bool, ghost d: Digest)
      requires Valid() && mem.Valid() && msg.ts >= 0
      modifies this, mem.index, mem.clock
      ensures Valid() && mem.Valid() && old(mem.clock.last) <= mem.clock.last
      ensures m == if msg.ts != 0 then msg else msg.(ts := m.ts)
      ensures msg.ts == 0 ==> old(mem.clock.last) < m.ts <= mem.clock.last
      ensures old(Inv(State())) && Fits(old(State()), m) ==> Inv(State())
      ensures var log := Appended(old(State()), m);
        && (due <==> mem.compressor.Some? && Overfull(mem.policy, log))
        && (compressed ==>
              && due && State() == EMPTY
              && Digested(mem.compressor.value, mem.policy, log.msgs, old(mem.index.segs), mem.index.segs, d))
        && (!compressed ==>
              State() == log && Apart(old(mem.index.segs), d.made) && mem.index.segs == Added(old(mem.index.segs), d.made))
        && (due && mem.index.reliable ==>
              && Chronological(d.asked, log.msgs)
              && (compressed <==> mem.compressor.value.extractEntities(d.asked) && mem.compressor.value.compressMessages(d.asked).Some?))
      ensures !due ==> mem.index.segs == old(mem.index.segs)
      ensures due && !compressed ==> compressFailed
      ensures !due ==> compressFailed == old(compressFailed)
    {
      hide PlainId, CompactedId, Agree, Filed, Past, TotalChars, Inv, Fits, Digested, Overfull, Chronological, Apart, Added;
      var stamped := Stamp(msg);
      m := stamped;
      ghost var before := State();
      if Inv(before) {
        AppendKeeps(before, m);
      }
      NoChars();
      Put(stamped);
      due, compressed, d := AutoCompress();
    }

    /**
      Any sequence of operations keeps the invariant: if the clock stamps the messages, without any
      condition; if the caller does, as long as the stamps rise.
     */
    method Replay(ops: seq<Op>)
      requires Valid() && mem.Valid() && Inv(State())
      requires forall i | 0 <= i < |ops| && ops[i].Say? :: ops[i].msg.ts >= 0
      requires if Unstamped(ops) then Upto(msgs, mem.clock.last) else Rising(ops) && Ahead(msgs, ops)
      modifies this, mem.index, mem.clock
      ensures Valid() && mem.Valid() && Inv(State())
    {
      hide Inv, TotalChars;
      for i := 0 to |ops|
        invariant Valid() && mem.Valid() && Inv(State())
        invariant if Unstamped(ops) then Upto(msgs, mem.clock.last) else Ahead(msgs, ops[i..])
      {
        ghost var before := State();
        match ops[i]
        case Say(msg) =>
          ghost var m, d;
          var due, compressed;
          m, due, compressed, d := Append(msg);
          if Unstamped(ops) {
            LaterFits(before, m, m.ts - 1);
          } else {
            AheadFits(before, msg, ops, i);
          }
        case TakeBack =>
          RevertLeaves(before);
          Revert();
          assert State().msgs.Keys <= before.msgs.Keys;
          assert Rising(ops) && Ahead(before.msgs, ops[i..]) ==> Ahead(State().msgs, ops[i + 1..]);
        case Wipe =>
          NoChars();
          Clear();
      }
    }
  }

  datatype Op = Say(msg: Message) | TakeBack | Wipe

  /** The caller leaves all times to the clock. */
  ghost predicate Unstamped(ops: seq<Op>) {
    forall i | 0 <= i < |ops| && ops[i].Say? :: ops[i].msg.ts == 0
  }

  /** The caller stamps all messages, later ones with later times. */
  ghost predicate Rising(ops: seq<Op>) {
    && (forall i | 0 <= i < |ops| && ops[i].Say? :: ops[i].msg.ts > 0)
    && (forall i, j | 0 <= i < j < |ops| && ops[i].Say? && ops[j].Say? :: ops[i].msg.ts < ops[j].msg.ts)
  }

  ghost predicate Upto(msgs: Messages, last: int) {
    last >= 0 && forall t | t in msgs :: t <= last
  }

  ghost predicate Ahead(msgs: Messages, ops: seq<Op>) {
    forall t, i | t in msgs && 0 <= i < |ops| && ops[i].Say? :: t < ops[i].msg.ts
  }

  /** A message later than everything stored fits. */
  lemma LaterFits(log: Log, m: Message, last: int)
    requires Inv(log) && Upto(log.msgs, last) && m.ts > last
    ensures Fits(log, m)
  {
    hide TotalChars;
    if log.revert.Some? {
      assert IsUser(log.msgs, log.revert.value);
    }
  }

  lemma AheadFits(log: Log, m: Message, ops: seq<Op>, i: nat)
    requires Inv(log) && i < |ops| && ops[i] == Say(m) && Rising(ops) && Ahead(log.msgs, ops[i..])
    ensures Fits(log, m)
    ensures Ahead(Appended(log, m).msgs, ops[i + 1..]) && Ahead(map[], ops[i + 1..])
  {
    assert ops[i..][0] == ops[i];
    LaterFits(log, m, m.ts - 1);
    var rest := ops[i + 1..];
    forall t, k | t in Appended(log, m).msgs && 0 <= k < |rest| && rest[k].Say? ensures t < rest[k].msg.ts {
      assert rest[k] == ops[i..][k + 1] == ops[i + 1 + k];
    }
  }

  lemma RevertLeaves(log: Log)
    ensures forall after | Reverted(log, after) :: after.msgs.Keys <= log.msgs.Keys
  {
  }
}

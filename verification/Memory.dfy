/**
  A persona's memory: segments with issued IDs, and the cascading compaction of full buckets into
  coarser ones.  The compressor's answers are arbitrary.
 */
module Memory {
  import opened Basics
  import opened Decimal
  import opened RecallKeys
  import opened RecallIndex
  import MonotonicClock

  datatype Role = User | Model | Tool

  datatype Message = Message(role: Role, content: string, ts: int)

  datatype SegmentInput = SegmentInput(summary: string, keywords: seq<string>, labels: seq<string>)

  /** What the compressor makes of messages and of summaries; each of the three can fail. */
  datatype Compressor = Compressor(
    extractEntities: seq<Message> -> bool,
    compressMessages: seq<Message> -> Option<seq<SegmentInput>>,
    compactSegments: seq<string> -> Option<seq<SegmentInput>>)

  // ---------------------------------------------------------------------------
  // Issued IDs and times
  // ---------------------------------------------------------------------------

  function PlainId(mid: string, t: int): string { mid + ("-" + FormatInt(t)) }

  function CompactedId(mid: string, t: int): string { mid + ("-cmp-" + FormatInt(t)) }

  /** Different times, and the two kinds, never share an ID. */
  lemma IdsDiffer(mid: string, t: int, u: int)
    ensures PlainId(mid, t) == PlainId(mid, u) ==> t == u
    ensures CompactedId(mid, t) == CompactedId(mid, u) ==> t == u
    ensures PlainId(mid, t) != CompactedId(mid, u)
  {
    hide FormatInt;
    Cancel(mid, "-" + FormatInt(t), "-" + FormatInt(u));
    Cancel("-", FormatInt(t), FormatInt(u));
    Cancel(mid, "-cmp-" + FormatInt(t), "-cmp-" + FormatInt(u));
    Cancel("-cmp-", FormatInt(t), FormatInt(u));
    Cancel(mid, "-" + FormatInt(t), "-cmp-" + FormatInt(u));
    FirstChar(t);
    assert ("-" + FormatInt(t))[1] == FormatInt(t)[0] && ("-cmp-" + FormatInt(u))[1] == 'c';
    if FormatInt(t) == FormatInt(u) {
      FormatInjective(t, u);
    }
  }

  lemma Cancel(front: string, a: string, b: string)
    ensures front + a == front + b ==> a == b
  {
    assert (front + a)[|front|..] == a && (front + b)[|front|..] == b;
  }

  lemma FirstChar(t: int)
    ensures FormatInt(t) != "" && (IsDigit(FormatInt(t)[0]) || FormatInt(t)[0] == '-')
  {
    DecReads(if t < 0 then -t else t);
  }

  /** Nothing stored is newer than the clock, and no ID of a later time has been issued. */
  ghost predicate Past(segs: Segments, sids: Sids, mid: string, last: int) {
    && (forall k | k in segs :: k.ts <= last)
    && (forall t: int | t > last :: PlainId(mid, t) !in sids && CompactedId(mid, t) !in sids)
  }

  // ---------------------------------------------------------------------------
  // Policy and target bucket
  // ---------------------------------------------------------------------------

  datatype Policy = Policy(maxChars: int, maxMessages: int)

  predicate ShouldCompress(p: Policy, chars: int, msgs: int) {
    (p.maxChars > 0 && chars >= p.maxChars) || (p.maxMessages > 0 && msgs >= p.maxMessages)
  }

  /** The target if it is coarser than the source, else the next bucket, as far as there is one. */
  method EnsureCoarser(source: Bucket, target: Bucket) returns (b: Bucket)
    ensures Rank(b) ==
      if Rank(target) > Rank(source) then Rank(target) else if source == Lifetime then Rank(Lifetime) else Rank(source) + 1
  {
    var sourceIdx, targetIdx := -1, -1;
    for i := 0 to |ALL_BUCKETS|
      invariant sourceIdx == if Rank(source) < i then Rank(source) else -1
      invariant targetIdx == if Rank(target) < i then Rank(target) else -1
    {
      RankAt(i);
      if ALL_BUCKETS[i] == source {
        sourceIdx := i;
      }
      if ALL_BUCKETS[i] == target {
        targetIdx := i;
      }
    }
    if targetIdx <= sourceIdx {
      var next := sourceIdx + 1;
      if next >= |ALL_BUCKETS| {
        return Lifetime;
      }
      RankAt(next);
      return ALL_BUCKETS[next];
    }
    return target;
  }

  lemma RankAt(i: nat)
    requires i < |ALL_BUCKETS|
    ensures Rank(ALL_BUCKETS[i]) == i
  {
  }

  /** Everything goes to a coarser bucket, but the lifetime bucket has only itself to go to. */
  ghost predicate Goes(source: Bucket, target: Bucket) {
    if source == Lifetime then target == Lifetime else Rank(target) > Rank(source)
  }

  /** Together: the finest bucket that is strictly coarser than the source and covers the span. */
  method TargetBucket(source: Bucket, span: int) returns (b: Bucket)
    ensures Goes(source, b)
    ensures source != Lifetime ==> Finest(b, Rank(source) + 1, span)
  {
    var covering := BucketForSpan(span);
    b := EnsureCoarser(source, covering);
    CoarserCoversMore(covering, b, span);
  }

  // ---------------------------------------------------------------------------
  // Free times
  // ---------------------------------------------------------------------------

  function AtLeast(used: set<int>, t: int): set<int> {
    set u | u in used && u >= t
  }

  /** The first unused time from a start on; the search ends because finitely many are used. */
  method FreeTime(used: set<int>, start: int) returns (t: int)
    ensures start <= t && t !in used && forall u | start <= u < t :: u in used
  {
    t := start;
    while t in used
      invariant start <= t && forall u | start <= u < t :: u in used
      decreases |AtLeast(used, t)|
    {
      assert AtLeast(used, t) == AtLeast(used, t + 1) + {t};
      t := t + 1;
    }
  }

  // ---------------------------------------------------------------------------
  // What a compaction leaves
  // ---------------------------------------------------------------------------

  /** The segments after storing some more, each in its slot. */
  function Added(segs: Segments, made: seq<Segment>): Segments {
    if made == [] then segs
    else Added(segs, made[..|made| - 1])[SlotOf(made[|made| - 1]) := made[|made| - 1]]
  }

  /** The new segments say what the compressor said, in order, in the target bucket from lastTS on. */
  ghost predicate Made(made: seq<Segment>, outs: seq<SegmentInput>, target: Bucket, lastTS: int) {
    && |made| <= |outs|
    && forall i | 0 <= i < |made| ::
         && made[i].summary == outs[i].summary && made[i].keywords == outs[i].keywords
         && made[i].labels == outs[i].labels
         && made[i].bucket == target && made[i].ts >= lastTS + i
  }

  /** They took free slots, one each. */
  ghost predicate Apart(segs: Segments, made: seq<Segment>) {
    && (forall i | 0 <= i < |made| :: SlotOf(made[i]) !in segs)
    && (forall i, j | 0 <= i < j < |made| :: SlotOf(made[i]) != SlotOf(made[j]))
  }

  lemma {:induction false} AddedMeans(segs: Segments, made: seq<Segment>)
    requires Apart(segs, made)
    ensures forall k | k in segs :: k in Added(segs, made) && Added(segs, made)[k] == segs[k]
    ensures forall i | 0 <= i < |made| :: SlotOf(made[i]) in Added(segs, made) && Added(segs, made)[SlotOf(made[i])] == made[i]
    ensures forall k | k in Added(segs, made) :: k in segs || exists i | 0 <= i < |made| :: k == SlotOf(made[i])
  {
    if made != [] {
      var n := |made| - 1;
      AddedMeans(segs, made[..n]);
      assert forall i | 0 <= i < n :: made[..n][i] == made[i];
    }
  }

  lemma AddedOne(segs: Segments, made: seq<Segment>, s: Segment)
    ensures Added(segs, made + [s]) == Added(segs, made)[SlotOf(s) := s]
  {
    assert (made + [s])[..|made|] == made;
  }

  lemma StoreFresh(segs: Segments, sids: Sids, s: Segment)
    requires Agree(segs, sids) && s.id !in sids && SlotOf(s) !in segs
    ensures AfterStore(segs, sids, s) == (segs[SlotOf(s) := s], sids[s.id := SlotOf(s)])
    ensures Agree(segs[SlotOf(s) := s], sids[s.id := SlotOf(s)])
  {
    StoreAgrees(segs, sids, s);
  }

  datatype Outcome = Nothing | CompressorFailed | StoreFailed | DeleteFailed | Success

  /** What a compaction did: it added segments to a coarser bucket and took away the head of the listing. */
  ghost predicate Compaction(before: Segments, after: Segments, b: Bucket, list: seq<Segment>, gone: nat,
                             made: seq<Segment>, target: Bucket) {
    && Listing(list, before, b) && gone <= |list|
    && Goes(b, target)
    && Apart(before, made) && (forall i | 0 <= i < |made| :: made[i].bucket == target)
    && after == Added(before, made) - Heads(list, b, gone)
  }

  /** At least half of the bucket, and enough to bring it under the message threshold. */
  ghost predicate ChosenPart(p: Policy, count: nat, chosen: nat) {
    && 1 <= chosen <= count && chosen >= count / 2
    && (p.maxMessages > 0 ==> count - chosen < p.maxMessages)
    && (chosen - 1 < 1 || chosen - 1 < count / 2 || (p.maxMessages > 0 && count - (chosen - 1) >= p.maxMessages))
  }

  /** One compaction: what was listed, how much of it was chosen and has gone, what was said and stored where. */
  datatype Pass = Pass(b: Bucket, list: seq<Segment>, chosen: nat, gone: nat,
                       outs: seq<SegmentInput>, made: seq<Segment>, target: Bucket)

  /** What the compressor is asked: the summaries of the chosen segments, in order. */
  function Question(list: seq<Segment>, chosen: nat): (q: seq<string>)
    requires chosen <= |list|
  {
    seq(chosen, i requires 0 <= i < chosen => list[i].summary)
  }

  /** Some threshold of the policy is reached. */
  ghost predicate Full(p: Policy, list: seq<Segment>) {
    (p.maxChars > 0 && Chars(list) >= p.maxChars) || (p.maxMessages > 0 && |list| >= p.maxMessages)
  }

  /**
    A compaction of a full bucket.  What is stored is what the compressor answered to the summaries of
    the chosen part, and nothing is deleted before all of the answer is stored.
   */
  ghost predicate Compacts(comp: Compressor, p: Policy, before: Segments, after: Segments, c: Pass) {
    && Compaction(before, after, c.b, c.list, c.gone, c.made, c.target)
    && Full(p, c.list) && ChosenPart(p, |c.list|, c.chosen) && c.gone <= c.chosen
    && (c.b != Lifetime ==> Finest(c.target, Rank(c.b) + 1, c.list[c.chosen - 1].ts - c.list[0].ts))
    && Made(c.made, c.outs, c.target, c.list[c.chosen - 1].ts)
    && (c.gone > 0 ==> |c.made| == |c.outs|)
    && match comp.compactSegments(Question(c.list, c.chosen))
       case Some(answer) => c.outs == answer
       case None => c.outs == [] && c.gone == 0
  }

  lemma NothingToCompress(p: Policy)
    ensures !ShouldCompress(p, Chars([]), 0)
  {
  }

  lemma NoneMade(segs: Segments, outs: seq<SegmentInput>, target: Bucket, lastTS: int)
    ensures Apart(segs, []) && Made([], outs, target, lastTS) && Added(segs, []) == segs
  {
  }

  lemma OneMade(segs: Segments, made: seq<Segment>, s: Segment, outs: seq<SegmentInput>, target: Bucket, lastTS: int)
    requires Apart(segs, made) && Made(made, outs, target, lastTS) && |made| < |outs|
    requires var o := outs[|made|];
      s.summary == o.summary && s.keywords == o.keywords && s.labels == o.labels
    requires s.bucket == target && s.ts >= lastTS + |made| && SlotOf(s) !in Added(segs, made)
    ensures Apart(segs, made + [s]) && Made(made + [s], outs, target, lastTS)
    ensures Added(segs, made + [s]) == Added(segs, made)[SlotOf(s) := s]
  {
    hide Added;
    AddedMeans(segs, made);
    AddedOne(segs, made, s);
  }

  lemma OneMoreHead(list: seq<Segment>, b: Bucket, j: nat)
    requires j < |list|
    ensures Heads(list, b, 0) == {}
    ensures Heads(list, b, j + 1) == Heads(list, b, j) + {Slot(b, list[j].ts)}
  {
  }

  /** Deleting the next listed segment by its ID takes away its slot, and nothing else. */
  lemma DeleteOne(list: seq<Segment>, b: Bucket, j: nat, before: Segments, made: seq<Segment>, segs: Segments, sids: Sids)
    requires Listing(list, before, b) && j < |list| && Apart(before, made)
    requires Agree(segs, sids) && segs == Added(before, made) - Heads(list, b, j)
    ensures var (segs', sids') := AfterDelete(segs, sids, list[j].id);
      && Agree(segs', sids') && segs' == Added(before, made) - Heads(list, b, j + 1)
      && segs'.Keys <= segs.Keys && sids'.Keys <= sids.Keys
  {
    hide Added, Apart, Earlier, Heads;
    var all, k := Added(before, made), Slot(b, list[j].ts);
    AddedMeans(before, made);
    NotAmongHeads(list, before, b, j);
    assert k in segs && segs[k] == list[j];
    assert list[j].id in sids && sids[list[j].id] == k;
    DeleteAgrees(segs, sids, list[j].id);
    OneMoreHead(list, b, j);
    assert all - Heads(list, b, j) - {k} == all - (Heads(list, b, j) + {k});
  }

  lemma NothingCompacted(before: Segments, b: Bucket, list: seq<Segment>, target: Bucket)
    requires Listing(list, before, b) && Goes(b, target)
    ensures Compaction(before, before, b, list, 0, [], target)
  {
    assert before - {} == before;
  }

  lemma NotInTheFuture(list: seq<Segment>, segs: Segments, b: Bucket, i: nat, last: int)
    requires Listing(list, segs, b) && i < |list| && forall k | k in segs :: k.ts <= last
    ensures list[i].ts <= last
  {
    hide Earlier;
    assert Slot(b, list[i].ts) in segs;
  }

  method TimesOf(list: seq<Segment>) returns (used: set<int>)
    ensures forall s | s in list :: s.ts in used
    ensures forall t | t in used :: exists i | 0 <= i < |list| :: list[i].ts == t
  {
    used := {};
    for i := 0 to |list|
      invariant forall j | 0 <= j < i :: list[j].ts in used
      invariant forall t | t in used :: exists j | 0 <= j < i :: list[j].ts == t
    {
      used := used + {list[i].ts};
    }
  }

  lemma ListedTimes(list: seq<Segment>, segs: Segments, b: Bucket, used: set<int>, last: int)
    requires Filed(segs) && Listing(list, segs, b) && forall k | k in segs :: k.ts <= last
    requires forall s | s in list :: s.ts in used
    requires forall t | t in used :: exists i | 0 <= i < |list| :: list[i].ts == t
    ensures forall t | Slot(b, t) in segs :: t in used
    ensures forall t | t in used :: t <= last
  {
    hide Earlier;
    forall t | Slot(b, t) in segs ensures t in used {
      assert segs[Slot(b, t)] in list && SlotOf(segs[Slot(b, t)]) == Slot(b, t);
    }
    forall t | t in used ensures t <= last {
      var i :| 0 <= i < |list| && list[i].ts == t;
      NotInTheFuture(list, segs, b, i, last);
    }
  }

  class Memory {
    const id: string
    const index: Index
    const clock: MonotonicClock.Clock
    const policy: Policy
    const compressor: Option<Compressor>

    ghost predicate Valid()
      reads index, clock
    {
      && Filed(index.segs) && Agree(index.segs, index.sids)
      && Past(index.segs, index.sids, id, clock.last) && clock.last >= 0
    }

    constructor (id: string, clock: MonotonicClock.Clock, policy: Policy, compressor: Option<Compressor>, reliable: bool)
      requires clock.last >= 0
      ensures Valid() && index.segs == map[] && fresh(index) && index.reliable == reliable
    {
      this.id, this.clock, this.policy, this.compressor := id, clock, policy, compressor;
      index := new Index(reliable);
    }

    /** A new segment gets a new ID and a slot that nothing holds. */
    method StoreSegment(input: SegmentInput, bucket: Bucket) returns (r: Stored)
      requires Valid()
      modifies index, clock
      ensures Valid() && old(clock.last) < clock.last
      ensures var s := Segment(PlainId(id, clock.last), input.summary, input.keywords, input.labels, clock.last, bucket);
        && s.id !in old(index.sids) && SlotOf(s) !in old(index.segs)
        && index.segs == (if r == NotStored then old(index.segs) else old(index.segs)[SlotOf(s) := s])
      ensures index.reliable ==> r == Done
    {
      var ts, _ := clock.Now();
      var s := Segment(PlainId(id, ts), input.summary, input.keywords, input.labels, ts, bucket);
      r := StoreNew(s);
    }

    /** Storing under an ID of the clock's present time, in a free slot. */
    method StoreNew(s: Segment) returns (r: Stored)
      requires Filed(index.segs) && Agree(index.segs, index.sids)
      requires clock.last >= 0 && s.ts <= clock.last && forall k | k in index.segs :: k.ts <= clock.last
      requires forall t: int | t >= clock.last :: PlainId(id, t) !in index.sids && CompactedId(id, t) !in index.sids
      requires SlotOf(s) !in index.segs
      requires s.id == PlainId(id, clock.last) || s.id == CompactedId(id, clock.last)
      modifies index
      ensures Valid()
      ensures index.segs == if r == NotStored then old(index.segs) else old(index.segs)[SlotOf(s) := s]
      ensures index.reliable ==> r == Done
    {
      hide PlainId, CompactedId, Agree, Filed;
      StoreFresh(index.segs, index.sids, s);
      forall t: int | t > clock.last ensures PlainId(id, t) != s.id && CompactedId(id, t) != s.id {
        IdsDiffer(id, t, clock.last);
        IdsDiffer(id, clock.last, t);
      }
      ghost var cleared;
      r, cleared := index.StoreSegment(s, true);
    }

    /** Stores the compacted segments at the first free times from lastTS on. */
    method StoreCompacted(outs: seq<SegmentInput>, target: Bucket, lastTS: int)
      returns (ok: bool, ghost made: seq<Segment>)
      requires Valid() && lastTS <= clock.last
      modifies index, clock
      ensures Valid() && old(clock.last) <= clock.last
      ensures Apart(old(index.segs), made) && Made(made, outs, target, lastTS)
      ensures index.segs == Added(old(index.segs), made)
      ensures ok ==> |made| == |outs|
      ensures index.reliable ==> ok
    {
      hide PlainId, CompactedId, Agree, Filed, Listing, Added;
      ghost var before := index.segs;
      var existing := index.BucketSegments(target);
      var used := TimesOf(existing);
      ListedTimes(existing, before, target, used, clock.last);
      made := [];
      NoneMade(before, outs, target, lastTS);
      for i := 0 to |outs|
        invariant Valid() && lastTS + i <= clock.last && old(clock.last) <= clock.last
        invariant |made| == i && Apart(before, made) && Made(made, outs, target, lastTS)
        invariant index.segs == Added(before, made)
        invariant forall t | Slot(target, t) in index.segs :: t in used
        invariant forall t | t in used :: t <= clock.last
      {
        var segTS := FreeTime(used, lastTS + i);
        assert segTS <= clock.last + 1 by {
          assert segTS == lastTS + i || segTS - 1 in used;
        }
        used := used + {segTS};
        var now, _ := clock.Now();
        var s := Segment(CompactedId(id, now), outs[i].summary, outs[i].keywords, outs[i].labels, segTS, target);
        var r := StoreNew(s);
        if r != NotStored {
          OneMade(before, made, s, outs, target, lastTS);
          made := made + [s];
        }
        if r != Done {
          return false, made;
        }
      }
      return true, made;
    }

    /** Deletes the first n listed segments by their IDs. */
    method DeleteSources(list: seq<Segment>, b: Bucket, n: nat, ghost before: Segments, ghost made: seq<Segment>)
      returns (ok: bool, ghost gone: nat)
      requires Valid() && Listing(list, before, b) && 0 < n <= |list|
      requires Apart(before, made) && index.segs == Added(before, made)
      modifies index
      ensures Valid() && gone <= n && index.segs == Added(before, made) - Heads(list, b, gone)
      ensures ok ==> gone == n
      ensures index.reliable ==> ok
    {
      hide PlainId, CompactedId, Filed, Agree, Listing, Added, Apart, Heads, AfterDelete;
      OneMoreHead(list, b, 0);
      assert index.segs - {} == index.segs;
      for j := 0 to n
        invariant Valid() && index.segs == Added(before, made) - Heads(list, b, j)
      {
        DeleteOne(list, b, j, before, made, index.segs, index.sids);
        var done := index.DeleteSegment(list[j].id);
        if !done {
          return false, j;
        }
      }
      return true, n;
    }

    /**
      Compacts the oldest part of a bucket that has reached a threshold.  Segments leave only by
      being in that part; what the compressor made goes to the target; a failure deletes nothing
      that has not been replaced.
     */
    method CompactBucket(b: Bucket) returns (r: Outcome, ghost c: Pass)
      requires Valid()
      modifies index, clock
      ensures Valid() && old(clock.last) <= clock.last && c.b == b
      ensures r == Nothing <==> compressor.None? || (Listing(c.list, old(index.segs), b) && !Full(policy, c.list))
      ensures r == Nothing ==> index.segs == old(index.segs)
      ensures r != Nothing ==> Compacts(compressor.value, policy, old(index.segs), index.segs, c)
      ensures r != Nothing ==>
        && c.chosen <= |c.list|
        && (r == CompressorFailed <==> compressor.value.compactSegments(Question(c.list, c.chosen)) == None)
      ensures r == StoreFailed ==> c.gone == 0
      ensures r == Success || r == DeleteFailed ==> |c.made| == |c.outs|
      ensures r == Success ==> c.gone == c.chosen
      ensures index.reliable ==> r != StoreFailed && r != DeleteFailed
    {
      hide Listing, Apart, Made, Added, Heads, Filed, Agree, PlainId, CompactedId, Chars, Compaction, Compacts,
           ChosenPart, Finest, Goes, Full, ShouldCompress;
      r, c := Nothing, Pass(b, [], 0, 0, [], [], Lifetime);
      if compressor.None? {
        return;
      }
      var count, chars;
      ghost var list;
      count, chars, list := index.BucketStats(b);
      c := c.(list := list);
      DueIfFull(policy, list);
      if !ShouldCompress(policy, chars, count) {
        return;
      }
      var segments := index.BucketSegments(b);
      ListingUnique(segments, list, index.segs, b);
      NothingToCompress(policy);
      if |segments| == 0 {
        return;
      }
      var compactCount := CompactCount(count);
      r, c := CompactPrefix(segments, b, compactCount);
    }

    /** Asks the compressor about the first n segments and replaces them by its answer. */
    method CompactPrefix(segments: seq<Segment>, b: Bucket, n: nat) returns (r: Outcome, ghost c: Pass)
      requires Valid() && compressor.Some? && Listing(segments, index.segs, b)
      requires Full(policy, segments) && ChosenPart(policy, |segments|, n)
      modifies index, clock
      ensures Valid() && old(clock.last) <= clock.last && c.b == b && c.list == segments
      ensures r != Nothing && Compacts(compressor.value, policy, old(index.segs), index.segs, c)
      ensures
        && c.chosen <= |c.list|
        && (r == CompressorFailed <==> compressor.value.compactSegments(Question(c.list, c.chosen)) == None)
      ensures r == StoreFailed ==> c.gone == 0
      ensures r == Success || r == DeleteFailed ==> |c.made| == |c.outs|
      ensures r == Success ==> c.gone == c.chosen
      ensures index.reliable ==> r != StoreFailed && r != DeleteFailed
    {
      hide Listing, Apart, Made, Added, Heads, Filed, Agree, PlainId, CompactedId, Chars, Compaction, Compacts,
           ChosenPart, Finest, Goes, Full;
      ghost var before := index.segs;
      ChosenBounds(policy, |segments|, n);
      var toCompact := segments[..n];
      var summaries := seq(n, i requires 0 <= i < n => toCompact[i].summary);
      assert summaries == Question(segments, n);
      var result := compressor.value.compactSegments(summaries);
      var firstTS, lastTS := toCompact[0].ts, toCompact[n - 1].ts;
      var coarser := TargetBucket(b, lastTS - firstTS);
      c := Pass(b, segments, n, 0, [], [], coarser);
      if result.None? {
        NothingCompacted(before, b, segments, coarser);
        NoneMade(before, [], coarser, lastTS);
        PassMade(compressor.value, policy, before, before, c);
        return CompressorFailed, c;
      }
      c := c.(outs := result.value);
      NotInTheFuture(segments, before, b, n - 1, clock.last);
      r, c := Replace(segments, b, n, coarser, lastTS, result.value, c, before);
      PassMade(compressor.value, policy, before, index.segs, c);
    }

    /** Stores the answer and then deletes the sources. */
    method Replace(segments: seq<Segment>, b: Bucket, n: nat, target: Bucket, lastTS: int, answer: seq<SegmentInput>,
                   ghost c0: Pass, ghost before: Segments)
      returns (r: Outcome, ghost c: Pass)
      requires Valid() && before == index.segs && Listing(segments, before, b) && 0 < n <= |segments| && Goes(b, target)
      requires lastTS <= clock.last && c0 == Pass(b, segments, n, 0, answer, [], target)
      modifies index, clock
      ensures Valid() && old(clock.last) <= clock.last
      ensures c == c0.(made := c.made, gone := c.gone) && c.gone <= n
      ensures Compaction(before, index.segs, b, segments, c.gone, c.made, target) && Made(c.made, answer, target, lastTS)
      ensures r == StoreFailed || r == DeleteFailed || r == Success
      ensures r == StoreFailed ==> c.gone == 0
      ensures r != StoreFailed ==> |c.made| == |answer|
      ensures r == Success ==> c.gone == n
      ensures index.reliable ==> r == Success
    {
      hide Listing, Apart, Made, Added, Heads, Filed, Agree, PlainId, CompactedId, Chars, Goes, Compaction;
      var ok;
      ghost var made, gone;
      ok, made := StoreCompacted(answer, target, lastTS);
      c := c0.(made := made);
      if !ok {
        StoredOnly(before, b, segments, answer, made, target, lastTS);
        return StoreFailed, c;
      }
      MadeApart(before, answer, made, target, lastTS);
      ok, gone := DeleteSources(segments, b, n, before, made);
      c := c.(gone := gone);
      MadeThere(before, index.segs, b, segments, gone, answer, made, target, lastTS);
      r := if ok then Success else DeleteFailed;
    }

    /**
      Compacts every bucket in turn, finest first, as long as all goes well.  Then every bucket but the
      last ends under the message threshold; lifetime segments stay in any case.
     */
    method Compact() returns (ok: bool, ghost passes: seq<Pass>)
      requires Valid()
      modifies index, clock
      ensures Valid() && old(clock.last) <= clock.last
      ensures compressor.None? ==> ok && index.segs == old(index.segs)
      ensures compressor.Some? ==> Chain(compressor.value, policy, old(index.segs), passes, index.segs)
      ensures forall i, j | 0 <= i < j < |passes| :: Rank(passes[i].b) < Rank(passes[j].b)
      ensures ok && compressor.Some? ==> forall c | c != Lifetime :: Handled(policy, passes, index.segs, c)
      ensures compressor.Some? && index.reliable ==>
        (ok <==> Answered(compressor.value, passes))
      ensures forall k | k in old(index.segs) && k.bucket == Lifetime ::
        k in index.segs && index.segs[k] == old(index.segs)[k]
      ensures ok && compressor.Some? && policy.maxMessages > 0 ==>
        forall c | c != Lifetime :: |Slots(index.segs, c)| < policy.maxMessages
    {
      hide Compaction, Compacts, Listing, ChosenPart, Full, Agree, PlainId, CompactedId, Heads, Slots, Chars, Swept, Answered,
           Chain, Handled;
      passes := [];
      if compressor.None? {
        return true, [];
      }
      ghost var start := index.segs;
      NothingSwept(compressor.value, policy, start);
      for i := 0 to |COMPACTABLE|
        invariant Valid() && old(clock.last) <= clock.last
        invariant Swept(compressor.value, policy, start, passes, index.segs, i)
        invariant Answered(compressor.value, passes)
        invariant passes == [] || passes[|passes| - 1].gone == passes[|passes| - 1].chosen
      {
        var b := COMPACTABLE[i];
        assert Rank(b) == i && b != Lifetime;
        ghost var before := index.segs;
        var r, c := CompactBucket(b);
        if r == Nothing {
          SweepIdle(compressor.value, policy, start, passes, before, c.list, b);
        } else {
          SweepPass(compressor.value, policy, start, passes, before, index.segs, c);
          AnsweredOne(compressor.value, passes, c);
          passes := passes + [c];
        }
        if r != Nothing && r != Success {
          SweptMeans(compressor.value, policy, start, passes, index.segs, i + 1, false);
          return false, passes;
        }
      }
      SweptMeans(compressor.value, policy, start, passes, index.segs, |COMPACTABLE|, true);
      return true, passes;
    }

    /** How many of the oldest segments go. */
    method CompactCount(count: nat) returns (n: nat)
      requires count > 0
      ensures ChosenPart(policy, count, n)
    {
      n := count / 2;
      if n < 1 {
        n := 1;
      }
      if policy.maxMessages > 0 && count > policy.maxMessages {
        var need := count - policy.maxMessages + 1;
        if need > n {
          n := need;
        }
      }
      if n > count {
        n := count;
      }
    }
  }

  // ---------------------------------------------------------------------------
  // Chains of compactions
  // ---------------------------------------------------------------------------

  /** The passes lead from one state of the index to the other, each from where the last one has ended. */
  ghost predicate Chain(comp: Compressor, p: Policy, before: Segments, passes: seq<Pass>, after: Segments) {
    if passes == [] then after == before
    else
      var n := |passes| - 1;
      exists mid :: Chain(comp, p, before, passes[..n], mid) && Compacts(comp, p, mid, after, passes[n])
  }

  lemma NoPasses(comp: Compressor, p: Policy, segs: Segments)
    ensures Chain(comp, p, segs, [], segs)
  {
  }

  /** One more pass, and what it means for its bucket and the others. */
  lemma OnePass(comp: Compressor, p: Policy, start: Segments, passes: seq<Pass>, before: Segments, after: Segments, c: Pass)
    requires Filed(before) && c.b != Lifetime
    requires Chain(comp, p, start, passes, before) && Compacts(comp, p, before, after, c)
    ensures Chain(comp, p, start, passes + [c], after)
    ensures c.gone <= |c.list|
    ensures forall k | k in before && k !in Heads(c.list, c.b, c.gone) :: k in after && after[k] == before[k]
    ensures forall k | k in Heads(c.list, c.b, c.gone) :: k.bucket == c.b
    ensures forall d | Rank(d) < Rank(c.b) :: Slots(after, d) == Slots(before, d)
    ensures c.gone == c.chosen && p.maxMessages > 0 ==> |Slots(after, c.b)| < p.maxMessages
  {
    hide Compaction, ChosenPart, Heads, Slots, Chars, Finest, Made;
    assert (passes + [c])[..|passes|] == passes;
    CompactionKeeps(before, after, c.b, c.list, c.gone, c.made, c.target);
    CompactionCounts(before, after, c.b, c.list, c.gone, c.made, c.target);
    CompactedUnder(p, before, after, c.b, c.list, c.gone, c.chosen, c.made, c.target);
  }

  /** The bucket has been compacted, or it is not full. */
  ghost predicate Handled(p: Policy, passes: seq<Pass>, segs: Segments, b: Bucket) {
    || (exists c :: c in passes && c.b == b && c.gone == c.chosen)
    || (exists list :: Listing(list, segs, b) && !Full(p, list))
  }

  lemma IdleHandled(p: Policy, passes: seq<Pass>, segs: Segments, list: seq<Segment>, b: Bucket)
    requires Listing(list, segs, b) && !Full(p, list)
    ensures Handled(p, passes, segs, b)
  {
    hide Listing, Full;
  }

  lemma StaysHandled(comp: Compressor, p: Policy, passes: seq<Pass>, before: Segments, after: Segments, c: Pass, b: Bucket)
    requires Compacts(comp, p, before, after, c) && c.b != Lifetime && Rank(b) <= Rank(c.b)
    requires if b == c.b then c.gone == c.chosen else Handled(p, passes, before, b)
    ensures Handled(p, passes + [c], after, b)
  {
    hide Full, Finest, Made, Chars, Listing, Heads;
    if b == c.b {
      assert c in passes + [c];
    } else if d :| d in passes && d.b == b && d.gone == d.chosen {
      assert d in passes + [c];
    } else {
      var list :| Listing(list, before, b) && !Full(p, list);
      CompactionKeeps(before, after, c.b, c.list, c.gone, c.made, c.target);
      ListingStays(list, before, after, b);
    }
  }

  lemma ListingStays(list: seq<Segment>, before: Segments, after: Segments, b: Bucket)
    requires Listing(list, before, b)
    requires forall k: Slot | k.bucket == b :: k in after <==> k in before
    requires forall k: Slot | k.bucket == b && k in before :: after[k] == before[k]
    ensures Listing(list, after, b)
  {
    hide Earlier;
  }

  /** The compressor has answered every question. */
  ghost predicate Answered(comp: Compressor, passes: seq<Pass>) {
    forall c | c in passes :: c.chosen <= |c.list| && comp.compactSegments(Question(c.list, c.chosen)).Some?
  }

  lemma AnsweredOne(comp: Compressor, passes: seq<Pass>, c: Pass)
    requires c.chosen <= |c.list|
    ensures Answered(comp, passes + [c]) <==> Answered(comp, passes) && comp.compactSegments(Question(c.list, c.chosen)).Some?
  {
    assert forall d :: d in passes + [c] <==> d in passes || d == c;
  }

  /** The passes over the i finest buckets; the last pass may be unfinished. */
  ghost predicate Swept(comp: Compressor, p: Policy, start: Segments, passes: seq<Pass>, segs: Segments, i: nat) {
    && Stays(start, segs) && Chain(comp, p, start, passes, segs)
    && (forall j, k | 0 <= j < k < |passes| :: Rank(passes[j].b) < Rank(passes[k].b))
    && (forall k | 0 <= k < |passes| :: Rank(passes[k].b) < i)
    && (passes == [] || passes[|passes| - 1].gone == passes[|passes| - 1].chosen ==>
          forall c: Bucket | Rank(c) < i ::
            Handled(p, passes, segs, c) && (p.maxMessages > 0 ==> |Slots(segs, c)| < p.maxMessages))
  }

  lemma NothingSwept(comp: Compressor, p: Policy, start: Segments)
    ensures Swept(comp, p, start, [], start, 0) && Answered(comp, [])
  {
    NoPasses(comp, p, start);
    hide Chain;
  }

  lemma SweptMeans(comp: Compressor, p: Policy, start: Segments, passes: seq<Pass>, segs: Segments, i: nat, all: bool)
    requires Swept(comp, p, start, passes, segs, i)
    requires all ==> i == |COMPACTABLE| && (passes == [] || passes[|passes| - 1].gone == passes[|passes| - 1].chosen)
    ensures Stays(start, segs) && Chain(comp, p, start, passes, segs)
    ensures forall j, k | 0 <= j < k < |passes| :: Rank(passes[j].b) < Rank(passes[k].b)
    ensures all ==> forall c: Bucket | c != Lifetime ::
      Handled(p, passes, segs, c) && (p.maxMessages > 0 ==> |Slots(segs, c)| < p.maxMessages)
  {
    hide Chain, Handled, Stays, Slots;
    assert forall c: Bucket | c != Lifetime :: Rank(c) < |COMPACTABLE|;
  }

  lemma SweepIdle(comp: Compressor, p: Policy, start: Segments, passes: seq<Pass>, segs: Segments, list: seq<Segment>, b: Bucket)
    requires Swept(comp, p, start, passes, segs, Rank(b)) && Filed(segs) && Listing(list, segs, b) && !Full(p, list)
    ensures Swept(comp, p, start, passes, segs, Rank(b) + 1)
  {
    hide Listing, Full, Chain, Handled, Stays, Slots;
    UnderThreshold(p, list, segs, b);
    IdleHandled(p, passes, segs, list, b);
  }

  lemma SweepPass(comp: Compressor, p: Policy, start: Segments, passes: seq<Pass>, before: Segments, after: Segments, c: Pass)
    requires Swept(comp, p, start, passes, before, Rank(c.b)) && Filed(before) && c.b != Lifetime
    requires passes == [] || passes[|passes| - 1].gone == passes[|passes| - 1].chosen
    requires Compacts(comp, p, before, after, c)
    ensures Swept(comp, p, start, passes + [c], after, Rank(c.b) + 1)
  {
    hide Compacts, Chain, Handled, Slots, Heads;
    OnePass(comp, p, start, passes, before, after, c);
    StillThere(start, before, after, c.b, Heads(c.list, c.b, c.gone));
    var all := passes + [c];
    assert all[|all| - 1] == c;
    if c.gone == c.chosen {
      forall d: Bucket | Rank(d) <= Rank(c.b)
        ensures Handled(p, all, after, d) && (p.maxMessages > 0 ==> |Slots(after, d)| < p.maxMessages)
      {
        assert d == c.b || Rank(d) < Rank(c.b);
        StaysHandled(comp, p, passes, before, after, c, d);
      }
    }
  }

  /** s was summarised in some pass, and all of the answer was stored before s was deleted. */
  ghost predicate Summarised(comp: Compressor, passes: seq<Pass>, s: Segment) {
    exists c | c in passes ::
      && c.chosen <= |c.list| && s in c.list[..c.chosen] && |c.made| == |c.outs|
      && comp.compactSegments(Question(c.list, c.chosen)) == Some(c.outs)
  }

  /** Whatever was there at some point is still there after more passes, or has been summarised. */
  lemma {:induction false} NothingForgotten(comp: Compressor, p: Policy, before: Segments, passes: seq<Pass>, after: Segments, k: Slot)
    requires Chain(comp, p, before, passes, after) && k in before
    ensures (k in after && after[k] == before[k]) || Summarised(comp, passes, before[k])
  {
    hide Compacts;
    if passes != [] {
      var n := |passes| - 1;
      var mid :| Chain(comp, p, before, passes[..n], mid) && Compacts(comp, p, mid, after, passes[n]);
      NothingForgotten(comp, p, before, passes[..n], mid, k);
      if Summarised(comp, passes[..n], before[k]) {
        assert forall c | c in passes[..n] :: c in passes;
      } else {
        StaysOrSummarised(comp, p, mid, after, passes[n], k);
        assert passes[n] in passes;
      }
    }
  }

  lemma StaysOrSummarised(comp: Compressor, p: Policy, before: Segments, after: Segments, c: Pass, k: Slot)
    requires Compacts(comp, p, before, after, c) && k in before
    ensures (k in after && after[k] == before[k]) ||
      (c.chosen <= |c.list| && before[k] in c.list[..c.chosen] && |c.made| == |c.outs|
       && comp.compactSegments(Question(c.list, c.chosen)) == Some(c.outs))
  {
    hide Heads, Finest, Made, Chars;
    CompactionKeeps(before, after, c.b, c.list, c.gone, c.made, c.target);
    InHeads(c.list, c.b, c.gone, k);
    if k in Heads(c.list, c.b, c.gone) {
      var i :| 0 <= i < c.gone && k == Slot(c.b, c.list[i].ts);
      assert c.list[..c.chosen][i] == before[k];
    }
  }

  /** After a pass that has deleted anything, each piece of the compressor's answer lies in the target bucket. */
  lemma AnswerLands(comp: Compressor, p: Policy, before: Segments, after: Segments, c: Pass, i: nat) returns (k: Slot)
    requires Compacts(comp, p, before, after, c) && |c.made| == |c.outs| && i < |c.outs|
    ensures k in after && k !in before && k.bucket == c.target
    ensures after[k].summary == c.outs[i].summary && after[k].keywords == c.outs[i].keywords && after[k].labels == c.outs[i].labels
  {
    hide Heads, Finest, Chars, Added;
    k := SlotOf(c.made[i]);
    AddedMeans(before, c.made);
    CompactionKeeps(before, after, c.b, c.list, c.gone, c.made, c.target);
  }

  lemma DueIfFull(p: Policy, list: seq<Segment>)
    ensures ShouldCompress(p, Chars(list), |list|) <==> Full(p, list)
  {
  }

  lemma ChosenBounds(p: Policy, count: nat, n: nat)
    requires ChosenPart(p, count, n)
    ensures 1 <= n <= count
  {
  }

  lemma PassMade(comp: Compressor, p: Policy, before: Segments, after: Segments, c: Pass)
    requires Compaction(before, after, c.b, c.list, c.gone, c.made, c.target)
    requires Full(p, c.list) && ChosenPart(p, |c.list|, c.chosen) && c.gone <= c.chosen <= |c.list| && 1 <= c.chosen
    requires c.b != Lifetime ==> Finest(c.target, Rank(c.b) + 1, c.list[c.chosen - 1].ts - c.list[0].ts)
    requires Made(c.made, c.outs, c.target, c.list[c.chosen - 1].ts) && (c.gone > 0 ==> |c.made| == |c.outs|)
    requires match comp.compactSegments(Question(c.list, c.chosen))
             case Some(answer) => c.outs == answer
             case None => c.outs == [] && c.gone == 0
    ensures Compacts(comp, p, before, after, c)
  {
    hide Compaction, ChosenPart, Made, Finest, Full;
  }

  lemma MadeApart(before: Segments, outs: seq<SegmentInput>, made: seq<Segment>, target: Bucket, lastTS: int)
    requires Made(made, outs, target, lastTS)
    ensures forall i | 0 <= i < |made| :: made[i].bucket == target
  {
  }

  /** A compaction removes only the head of the listing and adds only to the target. */
  lemma CompactionKeeps(before: Segments, after: Segments, b: Bucket, list: seq<Segment>, gone: nat,
                        made: seq<Segment>, target: Bucket)
    requires Compaction(before, after, b, list, gone, made, target)
    ensures gone <= |list|
    ensures forall k | k in before && k !in Heads(list, b, gone) :: k in after && after[k] == before[k]
    ensures forall k | k in after && k !in before :: k.bucket == target
    ensures forall k | k in Heads(list, b, gone) :: k in before && k !in after && k.bucket == b
  {
    hide Listing, Apart, Added, Heads, Rank;
    AddedMeans(before, made);
    HeadsCount(list, before, b, gone);
  }

  /** The compacted bucket shrinks by what was deleted; finer buckets stay as they are. */
  lemma CompactionCounts(before: Segments, after: Segments, b: Bucket, list: seq<Segment>, gone: nat,
                         made: seq<Segment>, target: Bucket)
    requires Compaction(before, after, b, list, gone, made, target) && b != Lifetime
    ensures |Slots(after, b)| == |Slots(before, b)| - gone
    ensures forall c | Rank(c) < Rank(b) :: Slots(after, c) == Slots(before, c)
  {
    hide Listing, Apart, Added, Heads;
    assert Goes(b, target);
    CompactionKeeps(before, after, b, list, gone, made, target);
    HeadsCount(list, before, b, gone);
    TakenFrom(before, after, b, target, Heads(list, b, gone));
    forall c | Rank(c) < Rank(b) ensures Slots(after, c) == Slots(before, c) {
      OtherSlots(before, after, b, target, c, Heads(list, b, gone));
    }
  }

  lemma TakenFrom(before: Segments, after: Segments, b: Bucket, target: Bucket, heads: set<Slot>)
    requires b != target
    requires forall k | k in before && k !in heads :: k in after
    requires forall k | k in after && k !in before :: k.bucket == target
    requires forall k | k in heads :: k in before && k !in after && k.bucket == b
    ensures Slots(after, b) == Slots(before, b) - heads && |Slots(after, b)| == |Slots(before, b)| - |heads|
  {
    assert Slots(after, b) == Slots(before, b) - heads;
    assert heads <= Slots(before, b);
  }

  /** Lifetime segments leave exactly when it is the lifetime bucket that is compacted and a deletion succeeds. */
  lemma LifetimeLeaves(before: Segments, after: Segments, b: Bucket, list: seq<Segment>, gone: nat,
                       made: seq<Segment>, target: Bucket)
    requires Compaction(before, after, b, list, gone, made, target)
    ensures (exists k :: k in before && k.bucket == Lifetime && k !in after) <==> b == Lifetime && gone > 0
  {
    hide Listing, Apart, Added;
    CompactionKeeps(before, after, b, list, gone, made, target);
    if gone > 0 {
      assert Slot(b, list[gone - 1].ts) in Heads(list, b, gone);
    }
  }

  lemma OtherSlots(before: Segments, after: Segments, b: Bucket, target: Bucket, c: Bucket, heads: set<Slot>)
    requires c != b && c != target
    requires forall k | k in before && k !in heads :: k in after
    requires forall k | k in after && k !in before :: k.bucket == target
    requires forall k | k in heads :: k.bucket == b
    ensures Slots(after, c) == Slots(before, c)
  {
  }

  /** Lifetime segments are as they were. */
  ghost predicate Stays(start: Segments, now: Segments) {
    forall k | k in start && k.bucket == Lifetime :: k in now && now[k] == start[k]
  }

  lemma StillThere(start: Segments, before: Segments, after: Segments, b: Bucket, heads: set<Slot>)
    requires Stays(start, before) && b != Lifetime
    requires forall k | k in before && k !in heads :: k in after && after[k] == before[k]
    requires forall k | k in heads :: k.bucket == b
    ensures Stays(start, after)
  {
  }

  lemma UnderThreshold(p: Policy, list: seq<Segment>, segs: Segments, b: Bucket)
    requires Filed(segs) && Listing(list, segs, b) && !Full(p, list)
    ensures p.maxMessages > 0 ==> |Slots(segs, b)| < p.maxMessages
  {
    hide Listing, Slots, Chars;
    ListingCount(list, segs, b);
  }

  lemma CompactedUnder(p: Policy, before: Segments, after: Segments, b: Bucket, list: seq<Segment>, gone: nat, chosen: nat,
                       made: seq<Segment>, target: Bucket)
    requires Compaction(before, after, b, list, gone, made, target) && Filed(before) && b != Lifetime
    requires ChosenPart(p, |list|, chosen)
    ensures gone == chosen && p.maxMessages > 0 ==> |Slots(after, b)| < p.maxMessages
  {
    hide Listing, Slots, Apart, Added, Heads;
    CompactionCounts(before, after, b, list, gone, made, target);
    ListingCount(list, before, b);
  }

  lemma StoredOnly(before: Segments, b: Bucket, list: seq<Segment>, outs: seq<SegmentInput>,
                   made: seq<Segment>, target: Bucket, lastTS: int)
    requires Listing(list, before, b) && Apart(before, made) && Made(made, outs, target, lastTS)
    requires Goes(b, target)
    ensures Compaction(before, Added(before, made), b, list, 0, made, target)
  {
    hide Listing, Apart, Added;
    assert Added(before, made) - {} == Added(before, made);
  }

  lemma MadeThere(before: Segments, after: Segments, b: Bucket, list: seq<Segment>, gone: nat, outs: seq<SegmentInput>,
                  made: seq<Segment>, target: Bucket, lastTS: int)
    requires Listing(list, before, b) && Apart(before, made) && Made(made, outs, target, lastTS)
    requires Goes(b, target) && gone <= |list| && after == Added(before, made) - Heads(list, b, gone)
    ensures Compaction(before, after, b, list, gone, made, target)
  {
    hide Listing, Apart, Added, Heads;
  }
}

/**
  The segment index: segments filed by bucket and time, and a reverse index from segment IDs to
  those slots.  The key-value store is two maps, which the key layout keeps apart; listing a
  bucket yields it in the order of its keys.
 */
module RecallIndex {
  import opened Basics
  import opened Decimal
  import opened RecallKeys

  datatype Slot = Slot(bucket: Bucket, ts: int)

  datatype Segment = Segment(id: string, summary: string, keywords: seq<string>, labels: seq<string>,
                             ts: int, bucket: Bucket)

  function SlotOf(s: Segment): Slot { Slot(s.bucket, s.ts) }

  type Segments = map<Slot, Segment>
  type Sids = map<string, Slot>

  /** Segments lie in the slot they name. */
  ghost predicate Filed(segs: Segments) {
    forall k | k in segs :: SlotOf(segs[k]) == k
  }

  /** The reverse index and the segments are each other's inverse. */
  ghost predicate Agree(segs: Segments, sids: Sids) {
    && (forall id | id in sids :: sids[id] in segs && segs[sids[id]].id == id)
    && (forall k | k in segs :: segs[k].id in sids && sids[segs[k].id] == k)
  }

  /** What looking each ID up gives. */
  function Shelf(segs: Segments, sids: Sids): map<string, Segment> {
    map id | id in sids && sids[id] in segs :: segs[sids[id]]
  }

  function AfterStore(segs: Segments, sids: Sids, s: Segment): (r: (Segments, Sids)) {
    var k := SlotOf(s);
    (if s.id in sids && sids[s.id] != k then segs[k := s] - {sids[s.id]} else segs[k := s],
     sids[s.id := k])
  }

  function AfterDelete(segs: Segments, sids: Sids, id: string): (r: (Segments, Sids)) {
    if id in sids then (segs - {sids[id]}, sids - {id}) else (segs, sids)
  }

  /** The slot holds nothing, or an earlier version of the same segment. */
  ghost predicate FreeFor(segs: Segments, s: Segment) {
    SlotOf(s) in segs ==> segs[SlotOf(s)].id == s.id
  }

  /**
    Storing keeps data and reverse index in agreement exactly when the slot is free for the segment,
    also when the segment moves to another bucket or time.
   */
  lemma StoreAgrees(segs: Segments, sids: Sids, s: Segment)
    requires Agree(segs, sids)
    ensures var (segs', sids') := AfterStore(segs, sids, s); Agree(segs', sids') <==> FreeFor(segs, s)
  {
    var k := SlotOf(s);
    var (segs', sids') := AfterStore(segs, sids, s);
    if FreeFor(segs, s) {
      forall id | id in sids' ensures sids'[id] in segs' && segs'[sids'[id]].id == id {
        if id != s.id {
          assert sids[id] in segs && segs[sids[id]].id == id;
        }
      }
      forall j | j in segs' ensures segs'[j].id in sids' && sids'[segs'[j].id] == j {
        if j != k {
          assert j in segs && sids[segs[j].id] == j;
        }
      }
    } else {
      var other := segs[k].id;
      assert sids'[other] == k && segs'[k] == s;
    }
  }

  /** Into a free slot, storing is one update of the shelf: the ID now gives this segment, the rest is as before. */
  lemma StoreUpdatesShelf(segs: Segments, sids: Sids, s: Segment)
    requires Agree(segs, sids) && FreeFor(segs, s)
    ensures var (segs', sids') := AfterStore(segs, sids, s); Shelf(segs', sids') == Shelf(segs, sids)[s.id := s]
  {
    var (segs', sids') := AfterStore(segs, sids, s);
    forall id ensures id in Shelf(segs', sids') <==> id in Shelf(segs, sids)[s.id := s] {
      assert id in sids && id != s.id ==> segs[sids[id]].id == id;
    }
  }

  /** Into a slot that another segment holds, it makes the other ID give this segment. */
  lemma ReuseMisleads(segs: Segments, sids: Sids, s: Segment)
    requires Agree(segs, sids) && !FreeFor(segs, s)
    ensures var other := segs[SlotOf(s)].id;
      var (segs', sids') := AfterStore(segs, sids, s);
      other != s.id && other in Shelf(segs', sids') && Shelf(segs', sids')[other] == s
  {
    var other := segs[SlotOf(s)].id;
    var (segs', sids') := AfterStore(segs, sids, s);
    assert sids'[other] == SlotOf(s) && segs'[SlotOf(s)] == s;
  }

  lemma DeleteAgrees(segs: Segments, sids: Sids, id: string)
    requires Agree(segs, sids)
    ensures var (segs', sids') := AfterDelete(segs, sids, id);
      Agree(segs', sids') && Shelf(segs', sids') == Shelf(segs, sids) - {id}
  {
    var (segs', sids') := AfterDelete(segs, sids, id);
    forall j | j in sids' ensures sids'[j] in segs' && segs'[sids'[j]].id == j {
      assert segs[sids[j]].id == j;
    }
    assert Agree(segs', sids');
  }

  // ---------------------------------------------------------------------------
  // Runs
  // ---------------------------------------------------------------------------

  /** What a call did; cleared says whether a moved segment's old slot was freed. */
  datatype Event = Wrote(s: Segment, cleared: bool) | Dropped(id: string) | Refused

  function Step(segs: Segments, sids: Sids, e: Event): (Segments, Sids) {
    match e
    case Wrote(s, cleared) =>
      if cleared then AfterStore(segs, sids, s) else (segs[SlotOf(s) := s], sids[s.id := SlotOf(s)])
    case Dropped(id) => AfterDelete(segs, sids, id)
    case Refused => (segs, sids)
  }

  function Run(events: seq<Event>): (Segments, Sids) {
    if events == [] then (map[], map[])
    else var before := Run(events[..|events| - 1]); Step(before.0, before.1, events[|events| - 1])
  }

  function Found(events: seq<Event>): map<string, Segment> { Shelf(Run(events).0, Run(events).1) }

  /** The same calls on a plain map from IDs to segments. */
  function Flat(events: seq<Event>): map<string, Segment> {
    if events == [] then map[]
    else
      var before := Flat(events[..|events| - 1]);
      match events[|events| - 1]
      case Wrote(s, _) => before[s.id := s]
      case Dropped(id) => before - {id}
      case Refused => before
  }

  /** Some other ID's segment has the bucket and time of this one. */
  ghost predicate Clash(shelf: map<string, Segment>, s: Segment) {
    exists id | id in shelf :: id != s.id && SlotOf(shelf[id]) == SlotOf(s)
  }

  ghost predicate Clashes(events: seq<Event>, n: nat)
    requires n < |events|
  {
    events[n].Wrote? && Clash(Flat(events[..n]), events[n].s)
  }

  /** IDs give their own segments; old slots that were not freed may hold more. */
  ghost predicate Points(segs: Segments, sids: Sids) {
    forall id | id in sids :: sids[id] in segs && segs[sids[id]].id == id
  }

  lemma StepPoints(segs: Segments, sids: Sids, e: Event)
    requires Filed(segs) && Points(segs, sids) && (e.Wrote? ==> !Clash(Shelf(segs, sids), e.s))
    ensures var (segs', sids') := Step(segs, sids, e);
      && Filed(segs') && Points(segs', sids')
      && Shelf(segs', sids') == match e {
           case Wrote(s, _) => Shelf(segs, sids)[s.id := s]
           case Dropped(id) => Shelf(segs, sids) - {id}
           case Refused => Shelf(segs, sids)
         }
  {
    if e.Wrote? {
      WritePoints(segs, sids, e.s, e.cleared);
    }
  }

  lemma WritePoints(segs: Segments, sids: Sids, s: Segment, cleared: bool)
    requires Filed(segs) && Points(segs, sids) && !Clash(Shelf(segs, sids), s)
    ensures var (segs', sids') := Step(segs, sids, Wrote(s, cleared));
      Filed(segs') && Points(segs', sids') && Shelf(segs', sids') == Shelf(segs, sids)[s.id := s]
  {
    hide Step, Clash;
    var (segs', sids') := Step(segs, sids, Wrote(s, cleared));
    OwnWritten(segs, sids, s, cleared);
    forall id | id in sids && id != s.id
      ensures id in sids' && sids'[id] == sids[id] && sids[id] in segs' && segs'[sids[id]] == segs[sids[id]]
    {
      OtherStays(segs, sids, s, cleared, id);
    }
    SameLookups(segs, sids, s, segs', sids');
  }

  lemma OwnWritten(segs: Segments, sids: Sids, s: Segment, cleared: bool)
    requires Filed(segs)
    ensures var (segs', sids') := Step(segs, sids, Wrote(s, cleared));
      && Filed(segs') && sids'.Keys == sids.Keys + {s.id}
      && sids'[s.id] == SlotOf(s) && SlotOf(s) in segs' && segs'[SlotOf(s)] == s
  {
  }

  lemma OtherStays(segs: Segments, sids: Sids, s: Segment, cleared: bool, id: string)
    requires Points(segs, sids) && Filed(segs) && !Clash(Shelf(segs, sids), s) && id in sids && id != s.id
    ensures var (segs', sids') := Step(segs, sids, Wrote(s, cleared));
      id in sids' && sids'[id] == sids[id] && sids[id] in segs' && segs'[sids[id]] == segs[sids[id]]
  {
    assert id in Shelf(segs, sids) && SlotOf(Shelf(segs, sids)[id]) == sids[id];
    assert sids[id] != SlotOf(s);
    assert s.id in sids ==> sids[s.id] != sids[id];
  }

  lemma SameLookups(segs: Segments, sids: Sids, s: Segment, segs': Segments, sids': Sids)
    requires Points(segs, sids) && sids'.Keys == sids.Keys + {s.id}
    requires sids'[s.id] == SlotOf(s) && SlotOf(s) in segs' && segs'[SlotOf(s)] == s
    requires forall id | id in sids && id != s.id ::
      sids'[id] == sids[id] && sids[id] in segs' && segs'[sids[id]] == segs[sids[id]]
    ensures Points(segs', sids') && Shelf(segs', sids') == Shelf(segs, sids)[s.id := s]
  {
    hide SlotOf;
    forall id | id in sids' ensures sids'[id] in segs' && segs'[sids'[id]].id == id {
      assert id != s.id ==> segs[sids[id]].id == id;
    }
    forall id ensures id in Shelf(segs', sids') <==> id in Shelf(segs, sids)[s.id := s] {
    }
  }

  /** A moved segment whose old slot was not freed still lies there too, where listings show it. */
  lemma LeftoverShows(segs: Segments, sids: Sids, s: Segment)
    requires Agree(segs, sids) && FreeFor(segs, s)
    ensures var (segs', sids') := Step(segs, sids, Wrote(s, false));
      && (Agree(segs', sids') <==> s.id in sids ==> sids[s.id] == SlotOf(s))
      && Shelf(segs', sids') == Shelf(segs, sids)[s.id := s]
  {
    var (segs', sids') := Step(segs, sids, Wrote(s, false));
    if s.id in sids && sids[s.id] != SlotOf(s) {
      assert sids[s.id] in segs' && segs'[sids[s.id]].id == s.id;
    } else {
      StoreAgrees(segs, sids, s);
    }
    forall id ensures id in Shelf(segs', sids') <==> id in Shelf(segs, sids)[s.id := s] {
      assert id in sids && id != s.id ==> segs[sids[id]].id == id;
    }
  }

  lemma StepMisleads(segs: Segments, sids: Sids, s: Segment, cleared: bool)
    requires Filed(segs) && Points(segs, sids) && Clash(Shelf(segs, sids), s)
    ensures var (segs', sids') := Step(segs, sids, Wrote(s, cleared));
      exists id | id in Shelf(segs, sids) && id in Shelf(segs', sids') :: id != s.id && Shelf(segs', sids')[id].id != id
  {
    var shelf := Shelf(segs, sids);
    var id :| id in shelf && id != s.id && SlotOf(shelf[id]) == SlotOf(s);
    var (segs', sids') := Step(segs, sids, Wrote(s, cleared));
    assert sids'[id] == SlotOf(s) && segs'[SlotOf(s)] == s;
    assert id in Shelf(segs', sids');
  }

  lemma {:induction false} FlatIds(events: seq<Event>)
    ensures forall id | id in Flat(events) :: Flat(events)[id].id == id
  {
    if events != [] {
      FlatIds(events[..|events| - 1]);
    }
  }

  lemma {:induction false} RunPoints(events: seq<Event>)
    requires forall n: nat | n < |events| :: !Clashes(events, n)
    ensures Filed(Run(events).0) && Points(Run(events).0, Run(events).1) && Found(events) == Flat(events)
  {
    if events != [] {
      var front := events[..|events| - 1];
      forall n: nat | n < |front| ensures !Clashes(front, n) {
        assert front[..n] == events[..n] && !Clashes(events, n);
      }
      RunPoints(front);
      assert !Clashes(events, |events| - 1);
      StepPoints(Run(front).0, Run(front).1, events[|events| - 1]);
    }
  }

  /**
    All along a run the lookups find what was stored last under each ID, if and only if no segment
    is stored with the bucket and time of another ID's segment.
   */
  lemma LookupsAreFlat(events: seq<Event>)
    ensures (forall n: nat | n <= |events| :: Found(events[..n]) == Flat(events[..n]))
       <==> (forall n: nat | n < |events| :: !Clashes(events, n))
  {
    hide Clashes, Run, Flat, Found;
    if forall n: nat | n < |events| :: !Clashes(events, n) {
      forall n: nat | n <= |events| ensures Found(events[..n]) == Flat(events[..n]) {
        NoClashBefore(events, n);
        RunPoints(events[..n]);
      }
    } else {
      var k: nat :| k < |events| && Clashes(events, k);
      var n := FirstClash(events, k);
      ClashShows(events, n);
    }
  }

  lemma FirstClash(events: seq<Event>, k: nat) returns (n: nat)
    requires k < |events| && Clashes(events, k)
    ensures n <= k && Clashes(events, n) && forall m: nat | m < n :: !Clashes(events, m)
  {
    n := k;
    if m: nat :| m < k && Clashes(events, m) {
      n := FirstClash(events, m);
    }
  }

  lemma NoClashBefore(events: seq<Event>, n: nat)
    requires n <= |events| && forall m: nat | m < n :: !Clashes(events, m)
    ensures forall m: nat | m < n :: !Clashes(events[..n], m)
  {
    forall m: nat | m < n ensures !Clashes(events[..n], m) {
      assert events[..n][..m] == events[..m] && !Clashes(events, m);
    }
  }

  lemma ClashShows(events: seq<Event>, n: nat)
    requires n < |events| && Clashes(events, n) && forall m: nat | m < n :: !Clashes(events, m)
    ensures Found(events[..n + 1]) != Flat(events[..n + 1])
  {
    hide Clash;
    NoClashBefore(events, n);
    RunPoints(events[..n]);
    assert events[..n + 1][..n] == events[..n];
    StepMisleads(Run(events[..n]).0, Run(events[..n]).1, events[n].s, events[n].cleared);
    FlatIds(events[..n + 1]);
  }

  // ---------------------------------------------------------------------------
  // Listing a bucket
  // ---------------------------------------------------------------------------

  predicate Earlier(a: int, b: int) {
    Less(FormatInt(a), FormatInt(b))
  }

  /** All segments of a bucket, in the order of their keys. */
  ghost predicate Listing(list: seq<Segment>, segs: Segments, b: Bucket) {
    && (forall i | 0 <= i < |list| :: Slot(b, list[i].ts) in segs && segs[Slot(b, list[i].ts)] == list[i])
    && (forall k | k in segs && k.bucket == b :: segs[k] in list)
    && (forall i, j | 0 <= i < j < |list| :: Earlier(list[i].ts, list[j].ts))
  }

  function Slots(segs: Segments, b: Bucket): set<Slot> {
    set k | k in segs && k.bucket == b
  }

  function Chars(list: seq<Segment>): nat {
    if list == [] then 0 else Chars(list[..|list| - 1]) + |list[|list| - 1].summary|
  }

  /** Characters add up. */
  lemma {:induction false} CharsAddUp(a: seq<Segment>, b: seq<Segment>, s: Segment)
    ensures Chars(a + b) == Chars(a) + Chars(b) && Chars([s]) == |s.summary|
  {
    assert [s][..0] == [];
    if b == [] {
      assert a + b == a;
    } else {
      CharsAddUp(a, b[..|b| - 1], s);
      assert (a + b)[..|a + b| - 1] == a + b[..|b| - 1];
    }
  }

  /** The first n of a listing, as slots. */
  function Heads(list: seq<Segment>, b: Bucket, n: nat): (s: set<Slot>)
    requires n <= |list|
  {
    if n == 0 then {} else Heads(list, b, n - 1) + {Slot(b, list[n - 1].ts)}
  }

  lemma {:induction false} InHeads(list: seq<Segment>, b: Bucket, n: nat, k: Slot)
    requires n <= |list|
    ensures k in Heads(list, b, n) <==> exists i | 0 <= i < n :: k == Slot(b, list[i].ts)
  {
    if n > 0 {
      InHeads(list, b, n - 1, k);
    }
  }

  lemma {:induction false} HeadsCount(list: seq<Segment>, segs: Segments, b: Bucket, n: nat)
    requires Listing(list, segs, b) && n <= |list|
    ensures |Heads(list, b, n)| == n && Heads(list, b, n) <= Slots(segs, b)
  {
    hide Earlier;
    if n > 0 {
      HeadsCount(list, segs, b, n - 1);
      NotAmongHeads(list, segs, b, n - 1);
    }
  }

  lemma NotAmongHeads(list: seq<Segment>, segs: Segments, b: Bucket, n: nat)
    requires Listing(list, segs, b) && n < |list|
    ensures Slot(b, list[n].ts) !in Heads(list, b, n) && Slot(b, list[n].ts) in Slots(segs, b)
  {
    hide Earlier, Heads;
    var k := Slot(b, list[n].ts);
    InHeads(list, b, n, k);
    if k in Heads(list, b, n) {
      var i :| 0 <= i < n && k == Slot(b, list[i].ts);
      assert Earlier(list[i].ts, list[n].ts);
      EarlierAsymmetric(k.ts, k.ts);
    }
  }

  /** A listing has every segment of the bucket once. */
  lemma ListingCount(list: seq<Segment>, segs: Segments, b: Bucket)
    requires Listing(list, segs, b) && Filed(segs)
    ensures |list| == |Slots(segs, b)| && Heads(list, b, |list|) == Slots(segs, b)
  {
    hide Earlier, Heads;
    HeadsCount(list, segs, b, |list|);
    forall k | k in Slots(segs, b) ensures k in Heads(list, b, |list|) {
      assert segs[k] in list;
      var i :| 0 <= i < |list| && list[i] == segs[k];
      assert SlotOf(segs[k]) == k && k == Slot(b, list[i].ts);
      InHeads(list, b, |list|, k);
    }
    assert Heads(list, b, |list|) == Slots(segs, b);
  }

  /** Two times whose numerals sort as the times do. */
  ghost predicate KeepsOrder(m: nat, n: nat) {
    m <= Shifted(n, if |Dec(m)| <= |Dec(n)| then |Dec(n)| - |Dec(m)| else 0)
  }

  /**
    A bucket is listed oldest first exactly when every two of its times sort as their numerals do;
    when all numerals have the same length, they do.
   */
  lemma OldestFirst(list: seq<Segment>, segs: Segments, b: Bucket)
    requires Listing(list, segs, b) && forall i | 0 <= i < |list| :: list[i].ts >= 0
    ensures (forall i, j | 0 <= i < j < |list| :: list[i].ts < list[j].ts)
       <==> (forall i, j | 0 <= i < |list| && 0 <= j < |list| && list[i].ts < list[j].ts ::
               KeepsOrder(list[i].ts, list[j].ts))
    ensures (forall i, j | 0 <= i < j < |list| :: |Dec(list[i].ts)| == |Dec(list[j].ts)|)
       ==> (forall i, j | 0 <= i < j < |list| :: list[i].ts < list[j].ts)
  {
    hide Dec, Less, Shifted;
    forall i, j | 0 <= i < |list| && 0 <= j < |list| && list[i].ts < list[j].ts
      ensures KeepsOrder(list[i].ts, list[j].ts) <==> i < j
      ensures |Dec(list[i].ts)| == |Dec(list[j].ts)| ==> i < j
    {
      UnpaddedOrder(list[i].ts, list[j].ts);
      LessTotal(Dec(list[i].ts), Dec(list[j].ts));
      if j < i {
        assert Earlier(list[j].ts, list[i].ts);
      } else {
        assert Earlier(list[i].ts, list[j].ts);
      }
    }
    forall i, j | 0 <= i < j < |list| ensures list[i].ts != list[j].ts {
      assert Earlier(list[i].ts, list[j].ts);
      EarlierAsymmetric(list[i].ts, list[i].ts);
    }
  }

  // ---------------------------------------------------------------------------
  // The index
  // ---------------------------------------------------------------------------

  /** NotIndexed: written to the store, but the vector step failed afterwards. */
  datatype Stored = Done | NotStored | NotIndexed

  class Index {
    var segs: Segments
    var sids: Sids

    /** Store and vector index of a reliable index have no faults. */
    const reliable: bool

    constructor (reliable: bool)
      ensures segs == map[] && sids == map[] && this.reliable == reliable
    {
      segs, sids := map[], map[];
      this.reliable := reliable;
    }

    /**
      Store faults and vector faults are nondeterministic; the write of both entries is atomic, but
      the removal of a moved segment's old slot may fail without anyone noticing.
     */
    method StoreSegment(segment: Segment, bucketGiven: bool) returns (r: Stored, ghost cleared: bool)
      requires Filed(segs)
      modifies this
      ensures Filed(segs)
      ensures var s := if bucketGiven then segment else segment.(bucket := Hour);
        && (segs, sids) == Step(old(segs), old(sids), if r == NotStored then Refused else Wrote(s, cleared))
        && (cleared || (s.id in old(sids) && old(sids)[s.id] != SlotOf(s)))
      ensures reliable ==> r == Done && cleared
    {
      cleared := true;
      var seg := if bucketGiven then segment else segment.(bucket := Hour);
      var known := LookupSid(seg.id);
      var moved := known.Some? && known.value != SlotOf(seg);
      var fault: bool := *;
      if fault && !reliable {
        return NotStored, true;
      }
      segs, sids := segs[SlotOf(seg) := seg], sids[seg.id := SlotOf(seg)];
      if moved {
        fault := *;
        if fault && !reliable {
          cleared := false;
        } else {
          segs := segs - {known.value};
        }
      }
      fault := *;
      return if fault && !reliable then NotIndexed else Done, cleared;
    }

    method LookupSid(id: string) returns (slot: Option<Slot>)
      ensures slot == if id in sids then Some(sids[id]) else None
    {
      if id in sids {
        return Some(sids[id]);
      }
      return None;
    }

    /** A missing ID is not an error. */
    method DeleteSegment(id: string) returns (ok: bool)
      requires Filed(segs)
      modifies this
      ensures Filed(segs)
      ensures (segs, sids) == Step(old(segs), old(sids), if ok then Dropped(id) else Refused)
      ensures reliable ==> ok
    {
      var slot := LookupSid(id);
      if slot.None? {
        return true;
      }
      var fault: bool := *;
      if fault && !reliable {
        return false;
      }
      segs, sids := segs - {slot.value}, sids - {id};
      return true;
    }

    /** After a run without clashes, the shelf is the flat map: what was stored last (`LookupsAreFlat`). */
    method GetSegment(id: string) returns (seg: Option<Segment>)
      ensures seg == if id in Shelf(segs, sids) then Some(Shelf(segs, sids)[id]) else None
    {
      var slot := LookupSid(id);
      if slot.None? || slot.value !in segs {
        return None;
      }
      return Some(segs[slot.value]);
    }

    /** The ordered store's first key among some times. */
    method First(times: set<int>) returns (m: int)
      requires times != {}
      ensures m in times && forall t | t in times :: t == m || Earlier(m, t)
    {
      Inhabited(times);
      m :| m in times;
      var rest := times - {m};
      while rest != {}
        invariant rest <= times && m in times
        invariant forall t | t in times && t !in rest :: t == m || Earlier(m, t)
        decreases |rest|
      {
        Inhabited(rest);
        var t :| t in rest;
        LessTotal(FormatInt(t), FormatInt(m));
        if Earlier(t, m) {
          forall u | u in times && u !in rest ensures u == t || Earlier(t, u) {
            if u != m {
              LessTransitive(FormatInt(t), FormatInt(m), FormatInt(u));
            }
          }
          m := t;
        } else if t != m {
          Distinguished(t, m);
        }
        rest := rest - {t};
      }
    }

    method BucketSegments(b: Bucket) returns (list: seq<Segment>)
      requires Filed(segs)
      ensures Listing(list, segs, b)
    {
      hide Earlier, SeenSoFar, Filed, Listing;
      list := [];
      var times := set k | k in segs && k.bucket == b :: k.ts;
      NoneSeen(segs, b, times);
      while times != {}
        invariant SeenSoFar(segs, b, times, list)
        decreases |times|
      {
        var t := First(times);
        OneSeen(segs, b, times, list, t);
        list := list + [segs[Slot(b, t)]];
        times := times - {t};
      }
      AllSeen(segs, b, list);
    }

    method BucketStats(b: Bucket) returns (count: nat, chars: nat, ghost list: seq<Segment>)
      requires Filed(segs)
      ensures count == |Slots(segs, b)|
      ensures Listing(list, segs, b) && count == |list| && chars == Chars(list)
    {
      hide Listing, Filed, Slots;
      var entries := BucketSegments(b);
      list := entries;
      ListingCount(list, segs, b);
      count, chars := 0, 0;
      for i := 0 to |entries|
        invariant count == i && chars == Chars(list[..i])
      {
        assert list[..i + 1][..i] == list[..i];
        count := count + 1;
        chars := chars + |entries[i].summary|;
      }
      assert list[..|list|] == list;
    }
  }

  /** A listing up to the times that are still to come. */
  ghost predicate SeenSoFar(segs: Segments, b: Bucket, times: set<int>, list: seq<Segment>) {
    && (forall t | t in times :: Slot(b, t) in segs)
    && (forall k | k in segs && k.bucket == b && k.ts !in times :: segs[k] in list)
    && (forall i | 0 <= i < |list| :: Slot(b, list[i].ts) in segs && segs[Slot(b, list[i].ts)] == list[i])
    && (forall i, t | 0 <= i < |list| && t in times :: Earlier(list[i].ts, t))
    && (forall i, j | 0 <= i < j < |list| :: Earlier(list[i].ts, list[j].ts))
  }

  lemma NoneSeen(segs: Segments, b: Bucket, times: set<int>)
    requires times == set k | k in segs && k.bucket == b :: k.ts
    ensures SeenSoFar(segs, b, times, [])
  {
    assert forall t | t in times :: Slot(b, t) in segs;
  }

  lemma OneSeen(segs: Segments, b: Bucket, times: set<int>, list: seq<Segment>, t: int)
    requires Filed(segs) && SeenSoFar(segs, b, times, list) && t in times
    requires forall u | u in times :: u == t || Earlier(t, u)
    ensures Slot(b, t) in segs && SeenSoFar(segs, b, times - {t}, list + [segs[Slot(b, t)]])
  {
    hide Earlier;
    var s := segs[Slot(b, t)];
    assert SlotOf(s) == Slot(b, t);
    var more := list + [s];
    assert more[|list|] == s;
    forall k | k in segs && k.bucket == b && k.ts !in times - {t} ensures segs[k] in more {
      assert k.ts == t ==> k == Slot(b, t);
      assert segs[k] in list ==> segs[k] in more;
    }
  }

  lemma AllSeen(segs: Segments, b: Bucket, list: seq<Segment>)
    requires SeenSoFar(segs, b, {}, list)
    ensures Listing(list, segs, b)
  {
    hide Earlier;
  }

  lemma Inhabited(times: set<int>)
    ensures times == {} || exists t :: t in times
  {
    if forall t :: t !in times {
      assert times == {};
    }
  }

  lemma Distinguished(t: int, m: int)
    requires t != m && !Earlier(t, m)
    ensures Earlier(m, t)
  {
    LessTotal(FormatInt(t), FormatInt(m));
    if FormatInt(t) == FormatInt(m) {
      FormatInjective(t, m);
    }
  }

  /** There is one listing of a bucket. */
  lemma ListingUnique(list: seq<Segment>, other: seq<Segment>, segs: Segments, b: Bucket)
    requires Filed(segs) && Listing(list, segs, b) && Listing(other, segs, b)
    ensures list == other
  {
    forall s ensures s in list <==> s in other {
      if s in list {
        var i :| 0 <= i < |list| && list[i] == s;
        assert Slot(b, s.ts) in segs;
      }
      if s in other {
        var i :| 0 <= i < |other| && other[i] == s;
        assert Slot(b, s.ts) in segs;
      }
    }
    InOrderUnique(list, other);
  }

  ghost predicate InOrder(list: seq<Segment>) {
    forall i, j | 0 <= i < j < |list| :: Earlier(list[i].ts, list[j].ts)
  }

  lemma {:induction false} InOrderUnique(a: seq<Segment>, b: seq<Segment>)
    requires InOrder(a) && InOrder(b) && forall s :: s in a <==> s in b
    ensures a == b
    decreases |a|
  {
    hide Earlier;
    if a == [] {
      SomeElement(b);
    } else {
      var m, n := |a| - 1, |b| - 1;
      assert a[m] in b;
      var i :| 0 <= i < |b| && b[i] == a[m];
      assert b[n] in a;
      var j :| 0 <= j < |a| && a[j] == b[n];
      if i < n {
        assert Earlier(b[i].ts, b[n].ts) && (j == m || Earlier(a[j].ts, a[m].ts));
        EarlierAsymmetric(a[m].ts, b[n].ts);
      }
      assert a[m] == b[n];
      forall s ensures s in a[..m] <==> s in b[..n] {
        InFront(a, s);
        InFront(b, s);
      }
      InOrderUnique(a[..m], b[..n]);
      assert a == a[..m] + [a[m]] && b == b[..n] + [b[n]];
    }
  }

  lemma SomeElement(b: seq<Segment>)
    ensures b == [] || exists s :: s in b
  {
    if b != [] {
      assert b[0] in b;
    }
  }

  lemma EarlierAsymmetric(t: int, u: int)
    ensures !(Earlier(t, u) && Earlier(u, t)) && !Earlier(t, t)
  {
    LessTotal(FormatInt(t), FormatInt(u));
    LessTotal(FormatInt(t), FormatInt(t));
  }

  lemma InFront(a: seq<Segment>, s: Segment)
    requires InOrder(a) && a != []
    ensures s in a[..|a| - 1] <==> s in a && s != a[|a| - 1]
  {
    hide Earlier;
    var m := |a| - 1;
    if s in a[..m] {
      var i :| 0 <= i < m && a[..m][i] == s;
      assert Earlier(a[i].ts, a[m].ts);
      EarlierAsymmetric(s.ts, s.ts);
    }
    if s in a && s != a[m] {
      var i :| 0 <= i < |a| && a[i] == s;
      assert a[..m][i] == s;
    }
  }
}

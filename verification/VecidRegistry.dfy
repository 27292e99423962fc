/**
  The embedding registry: online matching, reclustering, and the identity of buckets over
  time.  Embeddings are values of an arbitrary type; similarity, distance and averaging are
  parameters.  Registry calls run one after the other.
 */
module VecidRegistry {
  import opened Dbscan
  import opened InsertionSorts
  import Compaction = VecidCompact
  import Representatives = VecidRepresentatives
  import Decimal

  datatype Metric<!V(!new)> = Metric(
    sim: (V, V) -> real,
    dist: (V, V) -> real,
    mean: seq<V> -> V,
    geometry: (seq<V>, seq<int>) -> Representatives.Geometry)

  ghost predicate MetricOK<V(!new)>(m: Metric<V>) {
    && (forall a, b :: m.dist(a, b) == m.dist(b, a))
    && (forall e, labels :: Compaction.PositiveWeight(m.geometry(e, labels)))
  }

  datatype Bucket<V> = Bucket(id: string, centroid: V, count: nat)

  /** The neighbour graph that dbscan sees. */
  function Graph<V(!new)>(m: Metric<V>, e: seq<V>, eps: real, minPts: int): Points {
    Points(|e|, (i: nat, j: nat) => i < |e| && j < |e| && m.dist(e[i], e[j]) <= eps, minPts)
  }

  // ---------------------------------------------------------------------------
  // Buckets of a labelling
  // ---------------------------------------------------------------------------

  /** after holds the samples of before at the given ascending indices. */
  ghost predicate Picked<V>(before: seq<V>, indices: seq<nat>, after: seq<V>) {
    && (forall i, j | 0 <= i < j < |indices| :: indices[i] < indices[j])
    && |after| == |indices|
    && forall k | 0 <= k < |after| :: indices[k] < |before| && after[k] == before[indices[k]]
  }

  /** x holds the embeddings of exactly the samples with label c, in order. */
  ghost predicate Gathers<V>(e: seq<V>, labels: seq<int>, c: int, x: seq<V>) {
    exists indices: seq<nat> ::
      Picked(e, indices, x) && Representatives.SetOf(indices) == Compaction.Members(labels, c)
  }

  /** b counts the samples with label c and has their mean as centroid. */
  ghost predicate BucketFor<V(!new)>(m: Metric<V>, e: seq<V>, labels: seq<int>, c: int, b: Bucket<V>) {
    exists x :: Gathers(e, labels, c, x) && b.centroid == m.mean(x) && b.count == |x| > 0
  }

  lemma GathersCount<V>(e: seq<V>, labels: seq<int>, c: int, x: seq<V>)
    requires Gathers(e, labels, c, x)
    ensures |x| == |Compaction.Members(labels, c)|
  {
    var indices: seq<nat> :| Picked(e, indices, x) && Representatives.SetOf(indices) == Compaction.Members(labels, c);
    Representatives.DistinctCount(indices);
  }

  /** Which embeddings a label gathers is determined. */
  lemma GathersUnique<V>(e: seq<V>, labels: seq<int>, c: int, x: seq<V>, y: seq<V>)
    requires Gathers(e, labels, c, x) && Gathers(e, labels, c, y)
    ensures x == y
  {
    var i: seq<nat> :| Picked(e, i, x) && Representatives.SetOf(i) == Compaction.Members(labels, c);
    var j: seq<nat> :| Picked(e, j, y) && Representatives.SetOf(j) == Compaction.Members(labels, c);
    forall k: nat ensures k in i <==> k in j {
      assert k in i <==> k in Representatives.SetOf(i);
      assert k in j <==> k in Representatives.SetOf(j);
    }
    AscendingUnique(i, j);
  }

  /** tags are the positive labels that occur, in ascending order. */
  ghost predicate Occurring(labels: seq<int>, tags: seq<int>) {
    && (forall i, j | 0 <= i < j < |tags| :: tags[i] < tags[j])
    && (forall c :: c in tags <==> c in Compaction.Tags(labels))
  }

  /** One bucket for each positive label that occurs, in ascending order of labels. */
  method BuildBuckets<V(!new)>(m: Metric<V>, e: seq<V>, labels: seq<int>) returns (r: seq<Bucket<V>>, ghost tags: seq<int>)
    requires |e| == |labels|
    ensures Occurring(labels, tags) && |r| == |tags|
    ensures forall k | 0 <= k < |r| :: BucketFor(m, e, labels, tags[k], r[k])
  {
    hide BucketFor, Gathers;
    var maxLabel := 0;
    for i := 0 to |labels|
      invariant maxLabel >= 0 && forall j | 0 <= j < i :: labels[j] <= maxLabel
    {
      if labels[i] > maxLabel {
        maxLabel := labels[i];
      }
    }
    r, tags := [], [];
    for c := 1 to maxLabel + 1
      invariant |r| == |tags| && forall k | 0 <= k < |tags| :: tags[k] < c
      invariant forall i, j | 0 <= i < j < |tags| :: tags[i] < tags[j]
      invariant forall d :: d in tags <==> d in Compaction.Tags(labels) && d < c
      invariant forall k | 0 <= k < |r| :: BucketFor(m, e, labels, tags[k], r[k])
    {
      var members, count := Collect(e, labels, c);
      GathersCount(e, labels, c, members);
      OccursIff(labels, c);
      if count == 0 {
        continue;
      }
      r := r + [Bucket("", m.mean(members), count)];
      tags := tags + [c];
      assert BucketFor(m, e, labels, c, r[|r| - 1]) by {
        BucketMade(m, e, labels, c, members, r[|r| - 1]);
      }
    }
  }

  lemma BucketMade<V(!new)>(m: Metric<V>, e: seq<V>, labels: seq<int>, c: int, x: seq<V>, b: Bucket<V>)
    requires Gathers(e, labels, c, x) && b.centroid == m.mean(x) && b.count == |x| > 0
    ensures BucketFor(m, e, labels, c, b)
  {
  }

  lemma OccursIff(labels: seq<int>, c: int)
    ensures c > 0 ==> (c in Compaction.Tags(labels) <==> |Compaction.Members(labels, c)| > 0)
  {
    if |Compaction.Members(labels, c)| > 0 {
      var i :| i in Compaction.Members(labels, c);
      assert labels[i] == c;
    }
    if i: nat :| i < |labels| && labels[i] == c {
      assert i in Compaction.Members(labels, c);
    }
  }

  method Collect<V>(e: seq<V>, labels: seq<int>, c: int) returns (members: seq<V>, count: nat)
    requires |e| == |labels|
    ensures Gathers(e, labels, c, members) && count == |members|
  {
    members, count := [], 0;
    ghost var indices: seq<nat> := [];
    for i := 0 to |labels|
      invariant Picked(e, indices, members) && count == |members|
      invariant forall k | 0 <= k < |indices| :: indices[k] < i
      invariant forall j: nat :: j in indices <==> j < i && labels[j] == c
    {
      if labels[i] == c {
        members, count, indices := members + [e[i]], count + 1, indices + [i];
      }
    }
    assert Representatives.SetOf(indices) == Compaction.Members(labels, c);
  }

  function SumCounts<V>(r: seq<Bucket<V>>): nat {
    if r == [] then 0 else SumCounts(r[..|r| - 1]) + r[|r| - 1].count
  }

  function UpTo(labels: seq<int>, k: int): set<nat> {
    set i: nat | i < |labels| && 1 <= labels[i] <= k
  }

  lemma {:induction false} CountsAddUp<V>(r: seq<Bucket<V>>, labels: seq<int>)
    requires forall c | 0 <= c < |r| :: r[c].count == |Compaction.Members(labels, c + 1)|
    ensures SumCounts(r) == |UpTo(labels, |r|)|
  {
    if r == [] {
      assert UpTo(labels, 0) == {};
    } else {
      var k := |r|;
      CountsAddUp(r[..k - 1], labels);
      assert UpTo(labels, k) == UpTo(labels, k - 1) + Compaction.Members(labels, k);
      assert UpTo(labels, k - 1) !! Compaction.Members(labels, k);
    }
  }

  /** r has one bucket per cluster of labels, none empty, and together they hold every clustered sample. */
  ghost predicate BucketsOf<V(!new)>(m: Metric<V>, e: seq<V>, labels: seq<int>, r: seq<Bucket<V>>) {
    && (forall i | 0 <= i < |labels| :: labels[i] <= |r|)
    && (forall k | 0 <= k < |r| :: BucketFor(m, e, labels, k + 1, r[k]))
    && SumCounts(r) == |(set i: nat | i < |labels| && labels[i] > 0)|
  }

  lemma NumberedTags(g: Points, labels: seq<int>) returns (k: nat)
    requires Numbered(g, labels)
    ensures forall c :: c in Compaction.Tags(labels) <==> 1 <= c <= k
    ensures forall i | 0 <= i < |labels| :: labels[i] <= k
  {
    var starts: seq<nat> :| LeastCores(g, labels, starts) &&
                            forall i | 0 <= i < g.n :: labels[i] == NOISE || 1 <= labels[i] <= |starts|;
    k := |starts|;
    forall c: int | 1 <= c <= k ensures c in Compaction.Tags(labels) {
      assert labels[starts[c - 1]] == c;
    }
  }

  lemma {:induction false} OneToK(tags: seq<int>, k: nat)
    requires forall i, j | 0 <= i < j < |tags| :: tags[i] < tags[j]
    requires forall c :: c in tags <==> 1 <= c <= k
    ensures |tags| == k && forall i | 0 <= i < k :: tags[i] == i + 1
  {
    if k == 0 {
      SomeTag(tags);
    } else {
      assert k in tags;
      var n := |tags| - 1;
      var i :| 0 <= i < |tags| && tags[i] == k;
      assert tags[n] in tags;
      assert i == n;
      forall c ensures c in tags[..n] <==> 1 <= c <= k - 1 {
        if c in tags[..n] {
          assert c in tags;
        }
        if 1 <= c <= k - 1 {
          assert c in tags;
        }
      }
      OneToK(tags[..n], k - 1);
    }
  }

  lemma SomeTag(tags: seq<int>)
    ensures tags == [] || exists c :: c in tags
  {
    if tags != [] {
      var c := tags[0];
      assert c in tags;
    }
  }

  lemma ClusteringGivesBuckets<V(!new)>(m: Metric<V>, g: Points, e: seq<V>, labels: seq<int>, tags: seq<int>, r: seq<Bucket<V>>)
    requires |e| == |labels| && Numbered(g, labels)
    requires Occurring(labels, tags) && |r| == |tags|
    requires forall k | 0 <= k < |r| :: BucketFor(m, e, labels, tags[k], r[k])
    ensures BucketsOf(m, e, labels, r)
  {
    var k := NumberedTags(g, labels);
    OneToK(tags, k);
    hide Gathers;
    forall c | 0 <= c < |r| ensures r[c].count == |Compaction.Members(labels, c + 1)| {
      var x :| Gathers(e, labels, tags[c], x) && r[c].centroid == m.mean(x) && r[c].count == |x| > 0;
      GathersCount(e, labels, tags[c], x);
    }
    CountsAddUp(r, labels);
    assert UpTo(labels, |r|) == set i: nat | i < |labels| && labels[i] > 0;
  }

  // ---------------------------------------------------------------------------
  // Identifiers
  // ---------------------------------------------------------------------------

  function Render(prefix: string, n: nat): string {
    (if prefix != "" then prefix + ":" else "") + Decimal.Padded(n, 3)
  }

  lemma RenderInjective(prefix: string, m: nat, n: nat)
    requires Render(prefix, m) == Render(prefix, n)
    ensures m == n
  {
    var k := if prefix != "" then |prefix| + 1 else 0;
    assert Render(prefix, m)[k..] == Decimal.Padded(m, 3);
    assert Render(prefix, n)[k..] == Decimal.Padded(n, 3);
    Decimal.PaddedReads(m, 3);
    Decimal.PaddedReads(n, 3);
  }

  function Ids<V>(r: seq<Bucket<V>>): set<string> {
    set k | 0 <= k < |r| :: r[k].id
  }

  /** The identifiers handed out so far. */
  function Issued(prefix: string, nextID: nat): set<string> {
    set k: nat | 1 <= k <= nextID :: Render(prefix, k)
  }

  ghost predicate DistinctIds<V>(r: seq<Bucket<V>>) {
    forall i, j | 0 <= i < j < |r| :: r[i].id != r[j].id
  }

  lemma FreshId(prefix: string, nextID: nat)
    ensures Render(prefix, nextID + 1) !in Issued(prefix, nextID)
    ensures Issued(prefix, nextID + 1) == Issued(prefix, nextID) + {Render(prefix, nextID + 1)}
  {
    forall k: nat | 1 <= k <= nextID ensures Render(prefix, k) != Render(prefix, nextID + 1) {
      if Render(prefix, k) == Render(prefix, nextID + 1) {
        RenderInjective(prefix, k, nextID + 1);
      }
    }
  }

  /** An old bucket that may pass its identifier on. */
  ghost predicate Heir<V(!new)>(m: Metric<V>, threshold: real, before: seq<Bucket<V>>, taken: set<string>, centroid: V, j: nat) {
    && j < |before| && before[j].id !in taken
    && m.sim(centroid, before[j].centroid) > -1.0 && m.sim(centroid, before[j].centroid) >= threshold
  }

  /**
    A bucket takes the identifier of a most similar old bucket whose identifier is still free, the
    first among equals; only if none of those is similar enough does it get a new one.
   */
  ghost predicate Assigned<V(!new)>(m: Metric<V>, threshold: real, before: seq<Bucket<V>>, taken: set<string>,
                                    issued: set<string>, b: Bucket<V>) {
    if exists j: nat :: Heir(m, threshold, before, taken, b.centroid, j) then
      exists j: nat ::
        && Heir(m, threshold, before, taken, b.centroid, j) && before[j].id == b.id
        && forall i | 0 <= i < |before| && before[i].id !in taken ::
             && m.sim(b.centroid, before[i].centroid) <= m.sim(b.centroid, before[j].centroid)
             && (i < j ==> m.sim(b.centroid, before[i].centroid) < m.sim(b.centroid, before[j].centroid))
    else
      b.id !in issued
  }

  ghost predicate AllAssigned<V(!new)>(m: Metric<V>, threshold: real, before: seq<Bucket<V>>, issued: set<string>, r: seq<Bucket<V>>) {
    forall k | 0 <= k < |r| :: Assigned(m, threshold, before, Ids(r[..k]), issued, r[k])
  }

  /** The most similar old bucket whose identifier is still free, the first among equals. */
  method BestOld<V(!new)>(m: Metric<V>, before: seq<Bucket<V>>, used: set<string>, centroid: V)
    returns (bestOldIdx: int, bestSim: real)
    ensures -1 <= bestOldIdx < |before|
    ensures bestOldIdx >= 0 ==>
      before[bestOldIdx].id !in used && bestSim == m.sim(centroid, before[bestOldIdx].centroid)
    ensures bestOldIdx == -1 ==> bestSim == -1.0
    ensures bestOldIdx >= 0 ==> bestSim > -1.0
    ensures forall j | 0 <= j < |before| && before[j].id !in used ::
      && m.sim(centroid, before[j].centroid) <= bestSim
      && (j < bestOldIdx ==> m.sim(centroid, before[j].centroid) < bestSim)
  {
    bestSim, bestOldIdx := -1.0, -1;
    for j := 0 to |before|
      invariant -1 <= bestOldIdx < j
      invariant bestOldIdx >= 0 ==>
        before[bestOldIdx].id !in used && bestSim == m.sim(centroid, before[bestOldIdx].centroid)
      invariant bestOldIdx == -1 ==> bestSim == -1.0
      invariant bestOldIdx >= 0 ==> bestSim > -1.0
      invariant forall i | 0 <= i < j && before[i].id !in used ::
        && m.sim(centroid, before[i].centroid) <= bestSim
        && (i < bestOldIdx ==> m.sim(centroid, before[i].centroid) < bestSim)
    {
      if before[j].id in used {
        continue;
      }
      var sim := m.sim(centroid, before[j].centroid);
      if sim > bestSim {
        bestSim, bestOldIdx := sim, j;
      }
    }
  }

  method AssignIds<V(!new)>(m: Metric<V>, threshold: real, prefix: string,
                            before: seq<Bucket<V>>, newBuckets: seq<Bucket<V>>, nextID: nat)
    returns (r: seq<Bucket<V>>, next: nat)
    requires Ids(before) <= Issued(prefix, nextID)
    ensures |r| == |newBuckets| && next >= nextID
    ensures forall k | 0 <= k < |r| :: r[k] == newBuckets[k].(id := r[k].id)
    ensures DistinctIds(r)
    ensures Ids(r) <= Ids(before) + (Issued(prefix, next) - Issued(prefix, nextID))
    ensures Issued(prefix, nextID) <= Issued(prefix, next)
    ensures AllAssigned(m, threshold, before, Issued(prefix, nextID), r)
  {
    hide Taken, AllAssigned, DistinctIds, Issued, Heir;
    r, next := [], nextID;
    var used: set<string> := {};
    NothingTaken(m, threshold, prefix, before, nextID);
    for i := 0 to |newBuckets|
      invariant |r| == i && next >= nextID
      invariant forall k | 0 <= k < i :: r[k] == newBuckets[k].(id := r[k].id)
      invariant Issued(prefix, nextID) <= Issued(prefix, next)
      invariant Taken(prefix, nextID, next, before, used, r)
      invariant AllAssigned(m, threshold, before, Issued(prefix, nextID), r)
    {
      var bestOldIdx, bestSim := BestOld(m, before, used, newBuckets[i].centroid);
      FreeIds(prefix, nextID, next, before, used, r);
      if bestOldIdx >= 0 && bestSim >= threshold {
        var b := newBuckets[i].(id := before[bestOldIdx].id);
        TakenReuse(prefix, nextID, next, before, used, r, b, bestOldIdx);
        Inherits(m, threshold, before, Issued(prefix, nextID), r, b, bestOldIdx);
        r := r + [b];
        used := used + {b.id};
      } else {
        var b := newBuckets[i].(id := Render(prefix, next + 1));
        TakenFresh(prefix, nextID, next, before, used, r, b);
        NoHeir(m, threshold, before, Issued(prefix, nextID), r, b, bestSim);
        next := next + 1;
        r := r + [b];
      }
    }
    TakenMeans(prefix, nextID, next, before, used, r);
  }

  lemma NothingTaken<V(!new)>(m: Metric<V>, threshold: real, prefix: string, before: seq<Bucket<V>>, nextID: nat)
    ensures Taken(prefix, nextID, nextID, before, {}, [])
    ensures AllAssigned(m, threshold, before, Issued(prefix, nextID), [])
  {
  }

  lemma TakenMeans<V>(prefix: string, nextID: nat, next: nat, before: seq<Bucket<V>>, used: set<string>, r: seq<Bucket<V>>)
    requires Taken(prefix, nextID, next, before, used, r)
    ensures DistinctIds(r) && Ids(r) <= Ids(before) + (Issued(prefix, next) - Issued(prefix, nextID))
  {
  }

  /** An old identifier is free exactly if no bucket so far carries it. */
  lemma FreeIds<V>(prefix: string, nextID: nat, next: nat, before: seq<Bucket<V>>, used: set<string>, r: seq<Bucket<V>>)
    requires Taken(prefix, nextID, next, before, used, r) && Ids(before) <= Issued(prefix, nextID)
    ensures forall j | 0 <= j < |before| :: before[j].id in used <==> before[j].id in Ids(r)
  {
    hide Issued;
    forall j | 0 <= j < |before| ensures before[j].id in Ids(before) {
    }
  }

  lemma AssignedAppend<V(!new)>(m: Metric<V>, threshold: real, before: seq<Bucket<V>>, issued: set<string>,
                                r: seq<Bucket<V>>, b: Bucket<V>)
    requires AllAssigned(m, threshold, before, issued, r) && Assigned(m, threshold, before, Ids(r), issued, b)
    ensures AllAssigned(m, threshold, before, issued, r + [b])
  {
    hide Assigned, Ids;
    var all := r + [b];
    forall k | 0 <= k < |all| ensures Assigned(m, threshold, before, Ids(all[..k]), issued, all[k]) {
      assert k < |r| ==> all[..k] == r[..k];
      assert k == |r| ==> all[..k] == r;
    }
  }

  lemma Inherits<V(!new)>(m: Metric<V>, threshold: real, before: seq<Bucket<V>>, issued: set<string>,
                          r: seq<Bucket<V>>, b: Bucket<V>, j: int)
    requires AllAssigned(m, threshold, before, issued, r)
    requires 0 <= j < |before| && before[j].id == b.id && b.id !in Ids(r)
    requires m.sim(b.centroid, before[j].centroid) > -1.0 && m.sim(b.centroid, before[j].centroid) >= threshold
    requires forall i | 0 <= i < |before| && before[i].id !in Ids(r) ::
      && m.sim(b.centroid, before[i].centroid) <= m.sim(b.centroid, before[j].centroid)
      && (i < j ==> m.sim(b.centroid, before[i].centroid) < m.sim(b.centroid, before[j].centroid))
    ensures AllAssigned(m, threshold, before, issued, r + [b])
  {
    hide AllAssigned, Ids;
    assert Heir(m, threshold, before, Ids(r), b.centroid, j);
    AssignedAppend(m, threshold, before, issued, r, b);
  }

  lemma NoHeir<V(!new)>(m: Metric<V>, threshold: real, before: seq<Bucket<V>>, issued: set<string>,
                        r: seq<Bucket<V>>, b: Bucket<V>, best: real)
    requires AllAssigned(m, threshold, before, issued, r) && b.id !in issued
    requires best <= -1.0 || best < threshold
    requires forall j | 0 <= j < |before| && before[j].id !in Ids(r) :: m.sim(b.centroid, before[j].centroid) <= best
    ensures AllAssigned(m, threshold, before, issued, r + [b])
  {
    hide AllAssigned, Ids;
    assert forall j :: !Heir(m, threshold, before, Ids(r), b.centroid, j);
    AssignedAppend(m, threshold, before, issued, r, b);
  }

  /** Identifiers so far: reused ones are marked, the others are new. */
  ghost predicate Taken<V>(prefix: string, nextID: nat, next: nat, before: seq<Bucket<V>>, used: set<string>, r: seq<Bucket<V>>) {
    && DistinctIds(r)
    && used <= Ids(before) * Ids(r)
    && Ids(r) <= used + (Issued(prefix, next) - Issued(prefix, nextID))
  }

  lemma IdsAppend<V>(r: seq<Bucket<V>>, b: Bucket<V>)
    ensures Ids(r + [b]) == Ids(r) + {b.id}
  {
    var s := r + [b];
    assert s[|r|] == b && forall k | 0 <= k < |r| :: s[k] == r[k];
    forall i ensures i in Ids(s) <==> i in Ids(r) + {b.id} {
      if i in Ids(r) {
        var k :| 0 <= k < |r| && r[k].id == i;
        assert s[k].id == i;
      }
      assert s[|r|].id in Ids(s);
    }
  }

  lemma TakenReuse<V>(prefix: string, nextID: nat, next: nat, before: seq<Bucket<V>>, used: set<string>,
                      r: seq<Bucket<V>>, b: Bucket<V>, j: int)
    requires Taken(prefix, nextID, next, before, used, r) && Ids(before) <= Issued(prefix, nextID)
    requires 0 <= j < |before| && before[j].id == b.id && b.id !in used
    ensures Taken(prefix, nextID, next, before, used + {b.id}, r + [b])
  {
    hide Issued;
    assert b.id in Ids(before);
    assert forall k | 0 <= k < |r| :: r[k].id in Ids(r);
    IdsAppend(r, b);
  }

  lemma TakenFresh<V>(prefix: string, nextID: nat, next: nat, before: seq<Bucket<V>>, used: set<string>,
                      r: seq<Bucket<V>>, b: Bucket<V>)
    requires Taken(prefix, nextID, next, before, used, r) && Ids(before) <= Issued(prefix, nextID)
    requires Issued(prefix, nextID) <= Issued(prefix, next)
    requires b.id == Render(prefix, next + 1)
    ensures Taken(prefix, nextID, next + 1, before, used, r + [b])
    ensures Issued(prefix, nextID) <= Issued(prefix, next + 1)
    ensures b.id !in Issued(prefix, nextID)
  {
    FreshId(prefix, next);
    hide Issued;
    assert forall k | 0 <= k < |r| :: r[k].id in Ids(r);
    IdsAppend(r, b);
  }

  lemma {:induction false} SumIgnoresIds<V>(newBuckets: seq<Bucket<V>>, r: seq<Bucket<V>>)
    requires |r| == |newBuckets| && forall k | 0 <= k < |r| :: r[k] == newBuckets[k].(id := r[k].id)
    ensures SumCounts(r) == SumCounts(newBuckets)
  {
    if r != [] {
      SumIgnoresIds(newBuckets[..|r| - 1], r[..|r| - 1]);
    }
  }

  // ---------------------------------------------------------------------------
  // The registry
  // ---------------------------------------------------------------------------

  ghost predicate Clusters<V(!new)>(m: Metric<V>, e: seq<V>, eps: real, minPts: int, labels: seq<int>) {
    && |labels| == |e|
    && IsDensityClustering(Graph(m, e, eps, minPts), labels)
    && Numbered(Graph(m, e, eps, minPts), labels)
  }

  /** What a recluster pass keeps: everything, or a compaction of a density clustering. */
  ghost predicate Retained<V(!new)>(m: Metric<V>, before: seq<V>, eps: real, minPts: int, maxSamples: int, after: seq<V>) {
    if 0 < maxSamples < |before| then
      exists labels, indices ::
        && Clusters(m, before, eps, minPts, labels)
        && Compaction.IsCompaction(m.geometry(before, labels), labels, maxSamples, Representatives.SetOf(indices))
        && |after| == maxSamples
        && Picked(before, indices, after)
    else
      after == before
  }

  /** The buckets are the clusters of what is stored. */
  ghost predicate Reclustered<V(!new)>(m: Metric<V>, e: seq<V>, eps: real, minPts: int, r: seq<Bucket<V>>) {
    exists labels :: Clusters(m, e, eps, minPts, labels) && BucketsOf(m, e, labels, r)
  }

  method Label<V(!new)>(m: Metric<V>, e: seq<V>, eps: real, minPts: int) returns (labels: seq<int>)
    requires MetricOK(m)
    ensures Clusters(m, e, eps, minPts, labels)
  {
    var a := Dbscan.Dbscan(Graph(m, e, eps, minPts));
    labels := a[..];
  }

  method Prune<V(!new)>(m: Metric<V>, e: seq<V>, eps: real, minPts: int, labels: seq<int>, maxSamples: nat) returns (r: seq<V>)
    requires MetricOK(m) && 0 < maxSamples < |e| && Clusters(m, e, eps, minPts, labels)
    ensures Retained(m, e, eps, minPts, maxSamples, r)
  {
    hide Compaction.IsCompaction, Clusters;
    LabelsMatch(m, e, eps, minPts, labels);
    var indices := Compaction.CompactEmbeddings(m.geometry(e, labels), labels, maxSamples);
    InRange(m.geometry(e, labels), labels, maxSamples, indices);
    r := [];
    for k := 0 to |indices|
      invariant |r| == k
      invariant forall j | 0 <= j < k :: indices[j] < |e| && r[j] == e[indices[j]]
    {
      r := r + [e[indices[k]]];
    }
    assert Picked(e, indices, r);
  }

  lemma LabelsMatch<V(!new)>(m: Metric<V>, e: seq<V>, eps: real, minPts: int, labels: seq<int>)
    requires Clusters(m, e, eps, minPts, labels)
    ensures |labels| == |e|
  {
  }

  lemma InRange(geo: Representatives.Geometry, labels: seq<int>, maxSamples: nat, indices: seq<nat>)
    requires Compaction.IsCompaction(geo, labels, maxSamples, Representatives.SetOf(indices))
    ensures forall k | 0 <= k < |indices| :: indices[k] < |labels|
  {
    assert forall k | 0 <= k < |indices| :: indices[k] in Representatives.SetOf(indices);
  }

  method Rebuild<V(!new)>(m: Metric<V>, e: seq<V>, eps: real, minPts: int, labels: seq<int>, threshold: real,
                          prefix: string, before: seq<Bucket<V>>, nextID: nat)
    returns (r: seq<Bucket<V>>, next: nat)
    requires MetricOK(m) && Clusters(m, e, eps, minPts, labels)
    requires Ids(before) <= Issued(prefix, nextID)
    ensures Reclustered(m, e, eps, minPts, r)
    ensures DistinctIds(r) && next >= nextID
    ensures Ids(r) <= Ids(before) + (Issued(prefix, next) - Issued(prefix, nextID))
    ensures Issued(prefix, nextID) <= Issued(prefix, next)
    ensures AllAssigned(m, threshold, before, Issued(prefix, nextID), r)
  {
    hide BucketFor;
    var newBuckets, tags := BuildBuckets(m, e, labels);
    ClusteringGivesBuckets(m, Graph(m, e, eps, minPts), e, labels, tags, newBuckets);
    r, next := AssignIds(m, threshold, prefix, before, newBuckets, nextID);
    SumIgnoresIds(newBuckets, r);
    forall k | 0 <= k < |r| ensures BucketFor(m, e, labels, k + 1, r[k]) {
      RenamedBucket(m, e, labels, k + 1, newBuckets[k], r[k]);
    }
    assert BucketsOf(m, e, labels, r);
  }

  lemma RenamedBucket<V(!new)>(m: Metric<V>, e: seq<V>, labels: seq<int>, c: int, b: Bucket<V>, d: Bucket<V>)
    requires BucketFor(m, e, labels, c, b) && d == b.(id := d.id)
    ensures BucketFor(m, e, labels, c, d)
  {
  }

  class Registry<V(!new)> {
    const metric: Metric<V>
    const prefix: string
    const minSamples: int
    const maxSamples: int
    var threshold: real
    var clusterThreshold: real
    var stored: seq<V>
    var buckets: seq<Bucket<V>>
    var nextID: nat
    /** Identifiers that were live once and are not any more. */
    ghost var retired: set<string>

    ghost predicate Valid()
      reads this
    {
      && MetricOK(metric)
      && DistinctIds(buckets)
      && Ids(buckets) + retired <= Issued(prefix, nextID)
      && retired !! Ids(buckets)
    }

    constructor (metric: Metric<V>, prefix: string, threshold: real, clusterThreshold: real, minSamples: int, maxSamples: int)
      requires MetricOK(metric)
      ensures Valid() && stored == [] && buckets == [] && retired == {} && nextID == 0
    {
      this.metric, this.prefix, this.minSamples, this.maxSamples := metric, prefix, minSamples, maxSamples;
      this.threshold, this.clusterThreshold := threshold, clusterThreshold;
      stored, buckets, nextID, retired := [], [], 0, {};
    }

    /** Stores the embedding and answers with the closest bucket that is similar enough. */
    method Identify(emb: V) returns (id: string, confidence: real, matched: bool)
      requires Valid()
      modifies this`stored
      ensures Valid() && stored == old(stored) + [emb]
      ensures matched <==> exists b ::
        b in buckets && metric.sim(emb, b.centroid) > -1.0 && metric.sim(emb, b.centroid) >= threshold
      ensures matched ==> exists b ::
        b in buckets && b.id == id && metric.sim(emb, b.centroid) == confidence
      ensures matched ==> forall b | b in buckets :: metric.sim(emb, b.centroid) <= confidence
      ensures !matched ==> id == "" && confidence == 0.0
    {
      stored := stored + [emb];
      if buckets == [] {
        return "", 0.0, false;
      }
      var bestSim, bestIdx := -1.0, -1;
      for i := 0 to |buckets|
        invariant -1 <= bestIdx < i
        invariant forall j | 0 <= j < i :: metric.sim(emb, buckets[j].centroid) <= bestSim
        invariant bestIdx == -1 ==> bestSim == -1.0
        invariant bestIdx >= 0 ==> bestSim == metric.sim(emb, buckets[bestIdx].centroid) > -1.0
      {
        var sim := metric.sim(emb, buckets[i].centroid);
        if sim > bestSim {
          bestSim, bestIdx := sim, i;
        }
      }
      if bestIdx >= 0 && bestSim >= threshold {
        return buckets[bestIdx].id, bestSim, true;
      }
      return "", 0.0, false;
    }

    /**
      Reclusters everything stored.  readOK and replaceOK say whether the store's reads and its
      swap succeed.  Identifiers survive or are new; one that has disappeared stays away.
     */
    method Recluster(readOK: bool, replaceOK: bool) returns (n: nat)
      requires Valid()
      modifies this
      ensures Valid() && threshold == old(threshold) && clusterThreshold == old(clusterThreshold)
      ensures Ids(buckets) <= Ids(old(buckets)) + (Issued(prefix, nextID) - Issued(prefix, old(nextID)))
      ensures old(nextID) <= nextID && old(retired) <= retired && Ids(old(buckets)) <= retired + Ids(buckets)
      ensures !readOK || old(stored) == [] ==> n == 0 && buckets == old(buckets) && stored == old(stored)
      ensures readOK && old(stored) != [] ==>
        if 0 < maxSamples < |old(stored)| && !replaceOK then
          n == 0 && buckets == old(buckets) && stored == old(stored)
        else
          && n == |buckets|
          && Retained(metric, old(stored), 1.0 - clusterThreshold, minSamples, maxSamples, stored)
          && Reclustered(metric, stored, 1.0 - clusterThreshold, minSamples, buckets)
          && AllAssigned(metric, clusterThreshold, old(buckets), Issued(prefix, old(nextID)), buckets)
    {
      hide MetricOK, Clusters, Retained, Reclustered, AllAssigned, DistinctIds, Issued;
      var e := stored;
      if !readOK || |e| == 0 {
        return 0;
      }
      var eps := 1.0 - clusterThreshold;
      var labels := Label(metric, e, eps, minSamples);
      if maxSamples > 0 && |e| > maxSamples {
        var compacted := Prune(metric, e, eps, minSamples, labels, maxSamples);
        if !replaceOK {
          return 0;
        }
        stored := compacted;
        e := compacted;
        labels := Label(metric, e, eps, minSamples);
      } else {
        assert Retained(metric, e, eps, minSamples, maxSamples, e) by { RetainedWhole(metric, e, eps, minSamples, maxSamples); }
      }
      var r, next := Rebuild(metric, e, eps, minSamples, labels, clusterThreshold, prefix, buckets, nextID);
      retired := retired + (Ids(buckets) - Ids(r));
      buckets, nextID := r, next;
      n := |r|;
    }

    method Reset()
      requires Valid()
      modifies this
      ensures Valid() && stored == [] && buckets == [] && nextID == 0
      ensures threshold == old(threshold) && clusterThreshold == old(clusterThreshold)
    {
      stored, buckets, nextID := [], [], 0;
      retired := {};
    }
  }

  lemma RetainedWhole<V(!new)>(m: Metric<V>, e: seq<V>, eps: real, minPts: int, maxSamples: int)
    requires !(0 < maxSamples < |e|)
    ensures Retained(m, e, eps, minPts, maxSamples, e)
  {
  }
}

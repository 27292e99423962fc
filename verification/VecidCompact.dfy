/**
  Which embeddings survive a compaction: a quota of seats for every cluster, the members that stand
  for it, and noise only beside complete clusters.  Cosine similarities, distances, the outlier
  threshold and the square-root cluster weight are arbitrary functions of the reals; the weight
  only has to be positive.
 */
module VecidCompact {
  import opened InsertionSorts
  import opened VecidRepresentatives

  /** recent is the newest member. */
  datatype Cluster = Cluster(tag: int, members: seq<nat>, recent: nat)

  type Quotas = map<int, nat>

  ghost predicate PositiveWeight(geo: Geometry) {
    forall k: nat | k > 0 :: geo.weight(k) > 0.0
  }

  // ---------------------------------------------------------------------------
  // What a compaction promises, in terms of the labels alone
  // ---------------------------------------------------------------------------

  function Members(labels: seq<int>, tag: int): set<nat> {
    set i: nat | i < |labels| && labels[i] == tag
  }

  function Tags(labels: seq<int>): set<int> {
    set i: nat | i < |labels| && labels[i] > 0 :: labels[i]
  }

  predicate IsNoise(labels: seq<int>, i: nat) {
    i < |labels| && labels[i] <= 0
  }

  function Size(labels: seq<int>, tag: int): nat { |Members(labels, tag)| }

  /** The samples of a cluster that are kept. */
  function Chosen(labels: seq<int>, keep: set<nat>, tag: int): set<nat> { keep * Members(labels, tag) }

  function Kept(labels: seq<int>, keep: set<nat>, tag: int): nat { |Chosen(labels, keep, tag)| }

  ghost predicate InRange(labels: seq<int>, keep: set<nat>) {
    forall i | i in keep :: i < |labels|
  }

  /** One seat each, as far as the seats go. */
  ghost predicate Seated(labels: seq<int>, keep: set<nat>, maxSamples: nat) {
    |Tags(labels)| <= maxSamples ==> forall t | t in Tags(labels) :: Kept(labels, keep, t) >= 1
  }

  /** Noise is kept only beside complete clusters, newest first. */
  ghost predicate NoiseLast(labels: seq<int>, keep: set<nat>) {
    && (forall i: nat, j: nat | i in keep && IsNoise(labels, i) && j < |labels| && !IsNoise(labels, j) :: j in keep)
    && (forall i: nat, j: nat | i in keep && IsNoise(labels, i) && i < j && IsNoise(labels, j) :: j in keep)
  }

  /** Highest averages: no unsaturated cluster deserved a further seat more than a given one. */
  ghost predicate Fair(geo: Geometry, labels: seq<int>, keep: set<nat>) {
    forall a, b | a in Tags(labels) && b in Tags(labels)
               && 1 <= Kept(labels, keep, a) < Size(labels, a) && Kept(labels, keep, b) >= 2 ::
      geo.weight(Size(labels, a)) / (Kept(labels, keep, a) + 1) as real
        <= geo.weight(Size(labels, b)) / Kept(labels, keep, b) as real
  }

  /** Every sample of a was seen before some sample of b. */
  ghost predicate SeenBefore(labels: seq<int>, a: int, b: int) {
    exists j :: j in Members(labels, b) && forall i | i in Members(labels, a) :: i < j
  }

  /** A cluster without a seat is smaller than one that has a seat, or as large and less recent. */
  ghost predicate LargestFirst(labels: seq<int>, keep: set<nat>) {
    forall a, b | a in Tags(labels) && b in Tags(labels)
               && Kept(labels, keep, a) == 0 && Kept(labels, keep, b) >= 1 ::
      Size(labels, a) < Size(labels, b) || (Size(labels, a) == Size(labels, b) && SeenBefore(labels, a, b))
  }

  /** Who stands for a cluster is not arbitrary either. */
  ghost predicate StandIns(geo: Geometry, labels: seq<int>, keep: set<nat>) {
    forall t | t in Tags(labels) && Kept(labels, keep, t) >= 1 ::
      Represents(geo, t, Members(labels, t), Chosen(labels, keep, t))
  }

  ghost predicate IsCompaction(geo: Geometry, labels: seq<int>, maxSamples: nat, keep: set<nat>) {
    && InRange(labels, keep)
    && |keep| == maxSamples
    && Seated(labels, keep, maxSamples)
    && NoiseLast(labels, keep)
    && Fair(geo, labels, keep)
    && LargestFirst(labels, keep)
    && StandIns(geo, labels, keep)
  }

  // ---------------------------------------------------------------------------
  // Grouping
  // ---------------------------------------------------------------------------

  /** A cluster lists exactly the samples with its label, in order; the last is the most recent. */
  ghost predicate Describes(labels: seq<int>, c: Cluster) {
    && c.tag in Tags(labels)
    && Ascending(c.members)
    && SetOf(c.members) == Members(labels, c.tag)
    && c.members != [] && c.recent == c.members[|c.members| - 1]
  }

  ghost predicate DescribesAll(labels: seq<int>, clusters: seq<Cluster>) {
    && (forall k | 0 <= k < |clusters| :: Describes(labels, clusters[k]))
    && (forall k, m | 0 <= k < m < |clusters| :: clusters[k].tag != clusters[m].tag)
    && (forall t | t in Tags(labels) :: exists k :: 0 <= k < |clusters| && clusters[k].tag == t)
  }

  lemma DescribedSize(labels: seq<int>, c: Cluster)
    requires Describes(labels, c)
    ensures |c.members| == Size(labels, c.tag) > 0
  {
    DistinctCount(c.members);
  }

  ghost predicate ByTag(labels: seq<int>, byTag: map<int, Cluster>) {
    && byTag.Keys == Tags(labels)
    && forall t | t in byTag :: byTag[t].tag == t && Describes(labels, byTag[t])
  }

  function NoiseSet(labels: seq<int>): set<nat> {
    set i: nat | i < |labels| && labels[i] <= 0
  }

  lemma PrefixGrows(labels: seq<int>, i: nat)
    requires i < |labels|
    ensures forall u :: Members(labels[..i + 1], u) == Members(labels[..i], u) + if u == labels[i] then {i} else {}
    ensures Tags(labels[..i + 1]) == Tags(labels[..i]) + if labels[i] > 0 then {labels[i]} else {}
  {
    var more := labels[..i + 1];
    assert forall j | 0 <= j < i :: more[j] == labels[..i][j];
    assert more[i] == labels[i];
  }

  lemma DescribesGrows(labels: seq<int>, i: nat, members: seq<nat>)
    requires i < |labels| && labels[i] > 0
    requires Ascending(members) && SetOf(members) == Members(labels[..i], labels[i])
    ensures Describes(labels[..i + 1], Cluster(labels[i], members + [i], i))
  {
    PrefixGrows(labels, i);
    assert forall k | 0 <= k < |members| :: members[k] in SetOf(members);
    assert SetOf(members + [i]) == SetOf(members) + {i};
    assert (members + [i])[|members|] == i;
  }

  lemma DescribesKept(labels: seq<int>, i: nat, c: Cluster)
    requires i < |labels| && labels[i] != c.tag && Describes(labels[..i], c)
    ensures Describes(labels[..i + 1], c)
  {
    PrefixGrows(labels, i);
  }

  lemma GroupStep(labels: seq<int>, byTag: map<int, Cluster>, i: nat)
    requires i < |labels| && ByTag(labels[..i], byTag)
    ensures labels[i] <= 0 ==> ByTag(labels[..i + 1], byTag)
    ensures labels[i] > 0 ==>
      var known := if labels[i] in byTag then byTag[labels[i]].members else [];
      ByTag(labels[..i + 1], byTag[labels[i] := Cluster(labels[i], known + [i], i)])
  {
    hide Describes;
    var t := labels[i];
    PrefixGrows(labels, i);
    forall u | u in byTag && u != t ensures Describes(labels[..i + 1], byTag[u]) {
      DescribesKept(labels, i, byTag[u]);
    }
    if t > 0 {
      var known := if t in byTag then byTag[t].members else [];
      assert Ascending(known) && SetOf(known) == Members(labels[..i], t) by { KnownMembers(labels[..i], byTag, t); }
      DescribesGrows(labels, i, known);
    }
  }

  lemma KnownMembers(labels: seq<int>, byTag: map<int, Cluster>, t: int)
    requires ByTag(labels, byTag) && t > 0
    ensures var known := if t in byTag then byTag[t].members else [];
      Ascending(known) && SetOf(known) == Members(labels, t)
  {
    if t !in byTag {
      assert Members(labels, t) == {};
    }
  }

  method Group(labels: seq<int>) returns (byTag: map<int, Cluster>, noise: seq<nat>)
    ensures ByTag(labels, byTag)
    ensures SetOf(noise) == NoiseSet(labels)
    ensures Ascending(noise)
  {
    hide ByTag;
    byTag, noise := map[], [];
    NoTags();
    assert labels[..0] == [];
    for i := 0 to |labels|
      invariant ByTag(labels[..i], byTag)
      invariant SetOf(noise) == NoiseSet(labels[..i])
      invariant Ascending(noise)
    {
      GroupStep(labels, byTag, i);
      if labels[i] <= 0 {
        assert forall k | 0 <= k < |noise| :: noise[k] in SetOf(noise);
        noise := noise + [i];
        assert NoiseSet(labels[..i + 1]) == NoiseSet(labels[..i]) + {i};
        continue;
      }
      assert NoiseSet(labels[..i + 1]) == NoiseSet(labels[..i]);
      var members := if labels[i] in byTag then byTag[labels[i]].members else [];
      byTag := byTag[labels[i] := Cluster(labels[i], members + [i], i)];
    }
    assert labels[..|labels|] == labels;
  }

  lemma NoTags()
    ensures ByTag([], map[])
  {
  }

  /** Larger clusters first, then the ones seen more recently. */
  predicate StaysInFront(p: Cluster, c: Cluster) {
    |p.members| > |c.members| || (|p.members| == |c.members| && p.recent > c.recent)
  }

  lemma ClustersOrdered(labels: seq<int>, clusters: seq<Cluster>)
    requires DescribesAll(labels, clusters)
    ensures TotalOn(StaysInFront, clusters) && TransitiveOn(StaysInFront, clusters)
  {
    forall x, y | x in clusters && y in clusters
      ensures Before(StaysInFront, x, y) || Before(StaysInFront, y, x)
    {
      if x.recent == y.recent {
        assert x.recent in SetOf(x.members) && y.recent in SetOf(y.members);
        assert x.tag == y.tag;
        var k :| 0 <= k < |clusters| && clusters[k] == x;
        var m :| 0 <= m < |clusters| && clusters[m] == y;
        assert k == m;
      }
    }
  }

  lemma DescribesAllPermuted(labels: seq<int>, s: seq<Cluster>, r: seq<Cluster>)
    requires DescribesAll(labels, s) && multiset(r) == multiset(s)
    ensures DescribesAll(labels, r)
  {
    forall k | 0 <= k < |r| ensures Describes(labels, r[k]) {
      assert r[k] in multiset(s);
    }
    forall t | t in Tags(labels) ensures exists k :: 0 <= k < |r| && r[k].tag == t {
      var m :| 0 <= m < |s| && s[m].tag == t;
      assert s[m] in multiset(r);
    }
    forall k, m | 0 <= k < m < |r| ensures r[k].tag != r[m].tag {
      if r[k].tag == r[m].tag {
        assert r[k] in multiset(s) && r[m] in multiset(s);
        assert r[k] == r[m];
        RepeatedTwice(r, k, m);
        OnceOnly(labels, s, r[k]);
        assert false;
      }
    }
  }

  lemma RepeatedTwice<T>(s: seq<T>, k: nat, m: nat)
    requires k < m < |s| && s[k] == s[m]
    ensures multiset(s)[s[k]] >= 2
  {
    assert s == s[..k] + [s[k]] + s[k + 1..m] + [s[m]] + s[m + 1..];
  }

  lemma OnceOnly(labels: seq<int>, s: seq<Cluster>, c: Cluster)
    requires DescribesAll(labels, s)
    ensures multiset(s)[c] <= 1
  {
    if k :| 0 <= k < |s| && s[k] == c {
      assert s == s[..k] + [c] + s[k + 1..];
      assert forall m | 0 <= m < k :: s[..k][m].tag != c.tag;
      assert c !in s[..k] && c !in s[k + 1..];
    }
  }

  /** The clusters in compaction order, whatever order the map yields them in. */
  method SortedClusters(labels: seq<int>, byTag: map<int, Cluster>) returns (clusters: seq<Cluster>)
    requires ByTag(labels, byTag)
    ensures DescribesAll(labels, clusters)
    ensures Sorted(StaysInFront, clusters)
  {
    clusters := [];
    var left := byTag.Keys;
    while left != {}
      invariant left <= byTag.Keys
      invariant forall k | 0 <= k < |clusters| ::
        clusters[k].tag in byTag.Keys - left && byTag[clusters[k].tag] == clusters[k]
      invariant forall k, m | 0 <= k < m < |clusters| :: clusters[k].tag != clusters[m].tag
      invariant forall t | t in byTag.Keys - left :: byTag[t] in clusters
      decreases left
    {
      var t :| t in left;
      left := left - {t};
      clusters := clusters + [byTag[t]];
    }
    ghost var unsorted := clusters;
    assert DescribesAll(labels, unsorted);
    ClustersOrdered(labels, unsorted);
    clusters := SortSeq(clusters, StaysInFront);
    DescribesAllPermuted(labels, unsorted, clusters);
  }

  /** The order does not depend on the order in which the map yields the clusters. */
  lemma SortedClustersUnique(labels: seq<int>, one: seq<Cluster>, two: seq<Cluster>)
    requires DescribesAll(labels, one) && Sorted(StaysInFront, one)
    requires DescribesAll(labels, two) && Sorted(StaysInFront, two)
    ensures one == two
  {
    forall c ensures multiset(one)[c] == multiset(two)[c] {
      OnceOnly(labels, one, c);
      OnceOnly(labels, two, c);
      if c in one {
        SameClusters(labels, one, two, c);
      }
      if c in two {
        SameClusters(labels, two, one, c);
      }
      assert c in one <==> c in multiset(one);
      assert c in two <==> c in multiset(two);
    }
    SortedUnique(StaysInFront, one, two);
  }

  lemma SameClusters(labels: seq<int>, one: seq<Cluster>, two: seq<Cluster>, c: Cluster)
    requires DescribesAll(labels, one) && DescribesAll(labels, two) && c in one
    ensures c in two
  {
    hide Describes;
    assert Describes(labels, c);
    TagsKnown(labels, one);
    var k :| 0 <= k < |two| && two[k].tag == c.tag;
    OneDescription(labels, c, two[k]);
  }

  lemma OneDescription(labels: seq<int>, c: Cluster, d: Cluster)
    requires Describes(labels, c) && Describes(labels, d) && c.tag == d.tag
    ensures c == d
  {
    hide Members, Tags;
    forall i: nat ensures i in c.members <==> i in d.members {
      assert i in SetOf(c.members) <==> i in SetOf(d.members);
    }
    AscendingUnique(c.members, d.members);
  }

  // ---------------------------------------------------------------------------
  // Quotas
  // ---------------------------------------------------------------------------

  function Quota(quotas: Quotas, t: int): nat {
    if t in quotas then quotas[t] else 0
  }

  function Total(clusters: seq<Cluster>, quotas: Quotas): nat {
    if clusters == [] then 0
    else Total(clusters[..|clusters| - 1], quotas) + Quota(quotas, clusters[|clusters| - 1].tag)
  }

  ghost predicate DistinctTags(clusters: seq<Cluster>) {
    forall k, m | 0 <= k < m < |clusters| :: clusters[k].tag != clusters[m].tag
  }

  lemma {:induction false} TotalUpdate(clusters: seq<Cluster>, quotas: Quotas, k: nat, v: nat)
    requires k < |clusters| && DistinctTags(clusters)
    ensures Total(clusters, quotas[clusters[k].tag := v])
         == Total(clusters, quotas) - Quota(quotas, clusters[k].tag) + v
  {
    var last := |clusters| - 1;
    if k < last {
      TotalUpdate(clusters[..last], quotas, k, v);
    } else {
      TotalUnaffected(clusters[..last], quotas, clusters[k].tag, v);
    }
  }

  lemma {:induction false} TotalUnaffected(clusters: seq<Cluster>, quotas: Quotas, t: int, v: nat)
    requires forall m | 0 <= m < |clusters| :: clusters[m].tag != t
    ensures Total(clusters, quotas[t := v]) == Total(clusters, quotas)
  {
    if clusters != [] {
      TotalUnaffected(clusters[..|clusters| - 1], quotas, t, v);
    }
  }

  lemma {:induction false} TotalEmpty(clusters: seq<Cluster>)
    ensures Total(clusters, map[]) == 0
  {
    if clusters != [] {
      TotalEmpty(clusters[..|clusters| - 1]);
    }
  }

  predicate Unsaturated(clusters: seq<Cluster>, quotas: Quotas, k: nat)
    requires k < |clusters|
  {
    1 <= Quota(quotas, clusters[k].tag) < |clusters[k].members|
  }

  /** What the cluster's next seat is worth. */
  function Average(geo: Geometry, size: nat, seats: nat): real
    requires seats > 0
  {
    geo.weight(size) / seats as real
  }

  lemma AverageFalls(geo: Geometry, size: nat, seats: nat)
    requires seats > 0 && geo.weight(size) > 0.0
    ensures 0.0 < Average(geo, size, seats + 1) <= Average(geo, size, seats)
  {
    var x := seats as real;
    var p, q := geo.weight(size) / (x + 1.0), geo.weight(size) / x;
    assert p * (x + 1.0) == q * x;
    assert (q - p) * x == p;
  }

  ghost predicate FairQuotas(geo: Geometry, clusters: seq<Cluster>, quotas: Quotas) {
    forall a: nat, b: nat | a < |clusters| && b < |clusters|
                   && Unsaturated(clusters, quotas, a) && Quota(quotas, clusters[b].tag) >= 2 ::
      Average(geo, |clusters[a].members|, Quota(quotas, clusters[a].tag) + 1)
        <= Average(geo, |clusters[b].members|, Quota(quotas, clusters[b].tag))
  }

  ghost predicate Best(geo: Geometry, clusters: seq<Cluster>, quotas: Quotas, upTo: nat, best: nat)
    requires upTo <= |clusters| && best < |clusters|
  {
    && Unsaturated(clusters, quotas, best)
    && forall a: nat | a < upTo && Unsaturated(clusters, quotas, a) ::
         var mine, other := Average(geo, |clusters[best].members|, Quota(quotas, clusters[best].tag) + 1),
                            Average(geo, |clusters[a].members|, Quota(quotas, clusters[a].tag) + 1);
         other <= mine && (a < best ==> other < mine)
  }

  ghost predicate NonEmpty(clusters: seq<Cluster>) {
    forall k | 0 <= k < |clusters| :: |clusters[k].members| > 0 && clusters[k].tag > 0
  }

  lemma BestKeepsFair(geo: Geometry, clusters: seq<Cluster>, quotas: Quotas, best: nat)
    requires PositiveWeight(geo) && NonEmpty(clusters) && DistinctTags(clusters)
    requires best < |clusters| && Best(geo, clusters, quotas, |clusters|, best)
    requires FairQuotas(geo, clusters, quotas)
    ensures var t := clusters[best].tag;
      FairQuotas(geo, clusters, quotas[t := Quota(quotas, t) + 1])
  {
    var t := clusters[best].tag;
    var after := quotas[t := Quota(quotas, t) + 1];
    forall a: nat, b: nat | a < |clusters| && b < |clusters|
                  && Unsaturated(clusters, after, a) && Quota(after, clusters[b].tag) >= 2
      ensures Average(geo, |clusters[a].members|, Quota(after, clusters[a].tag) + 1)
           <= Average(geo, |clusters[b].members|, Quota(after, clusters[b].tag))
    {
      assert a != best ==> clusters[a].tag != t;
      assert b != best ==> clusters[b].tag != t;
      if a == best {
        AverageFalls(geo, |clusters[a].members|, Quota(after, t));
      }
    }
  }

  /** The best next seat, the first in order among equals; 0 when every seated cluster is full. */
  method BestCluster(geo: Geometry, clusters: seq<Cluster>, quotas: Quotas) returns (bestTag: int, ghost best: nat)
    requires PositiveWeight(geo) && NonEmpty(clusters)
    ensures bestTag == 0 ==> forall k: nat | k < |clusters| :: !Unsaturated(clusters, quotas, k)
    ensures bestTag != 0 ==>
      best < |clusters| && clusters[best].tag == bestTag && Best(geo, clusters, quotas, |clusters|, best)
  {
    bestTag, best := 0, 0;
    var bestScore := -1.0;
    for k := 0 to |clusters|
      invariant bestTag == 0 ==> bestScore == -1.0 && forall m: nat | m < k :: !Unsaturated(clusters, quotas, m)
      invariant bestTag != 0 ==> best < k && clusters[best].tag == bestTag && Best(geo, clusters, quotas, k, best)
      invariant bestTag != 0 ==>
        bestScore == Average(geo, |clusters[best].members|, Quota(quotas, clusters[best].tag) + 1)
    {
      var c := clusters[k];
      var quota := Quota(quotas, c.tag);
      if quota == 0 || quota >= |c.members| {
        continue;
      }
      var score := geo.weight(|c.members|) / (quota + 1) as real;
      AverageFalls(geo, |c.members|, quota);
      if score > bestScore {
        bestScore, bestTag, best := score, c.tag, k;
      }
    }
  }

  ghost predicate QuotasFit(clusters: seq<Cluster>, quotas: Quotas) {
    forall k | 0 <= k < |clusters| :: Quota(quotas, clusters[k].tag) <= |clusters[k].members|
  }

  /** The first clusters in order have a seat, the others none. */
  ghost predicate FirstSeated(clusters: seq<Cluster>, quotas: Quotas, seats: nat) {
    forall k | 0 <= k < |clusters| :: Quota(quotas, clusters[k].tag) > 0 <==> k < seats
  }

  /** One seat per cluster, in order, while seats last. */
  method SeatFirst(clusters: seq<Cluster>, maxSamples: nat) returns (quotas: Quotas, remaining: nat)
    requires DistinctTags(clusters)
    ensures Total(clusters, quotas) + remaining == maxSamples
    ensures forall k | 0 <= k < |clusters| :: Quota(quotas, clusters[k].tag) == if k < maxSamples then 1 else 0
    ensures remaining > 0 ==> |clusters| <= maxSamples
  {
    quotas, remaining := map[], maxSamples;
    TotalEmpty(clusters);
    var i := 0;
    while i < |clusters| && remaining > 0
      invariant i <= |clusters| && remaining == maxSamples - i
      invariant Total(clusters, quotas) == i
      invariant forall k | 0 <= k < |clusters| :: Quota(quotas, clusters[k].tag) == if k < i then 1 else 0
    {
      TotalUpdate(clusters, quotas, i, 1);
      quotas := quotas[clusters[i].tag := 1];
      remaining := remaining - 1;
      i := i + 1;
    }
  }

  lemma NoBestMeansFull(clusters: seq<Cluster>, quotas: Quotas, seats: nat)
    requires QuotasFit(clusters, quotas) && FirstSeated(clusters, quotas, seats) && |clusters| <= seats
    requires forall k: nat | k < |clusters| :: !Unsaturated(clusters, quotas, k)
    ensures forall k | 0 <= k < |clusters| :: Quota(quotas, clusters[k].tag) == |clusters[k].members|
  {
    forall k | 0 <= k < |clusters| ensures Quota(quotas, clusters[k].tag) == |clusters[k].members| {
      assert !Unsaturated(clusters, quotas, k);
    }
  }

  lemma BestKeepsFit(geo: Geometry, clusters: seq<Cluster>, quotas: Quotas, best: nat, seats: nat)
    requires DistinctTags(clusters) && best < |clusters| && Unsaturated(clusters, quotas, best)
    requires QuotasFit(clusters, quotas) && FirstSeated(clusters, quotas, seats)
    ensures var t := clusters[best].tag;
      var after := quotas[t := Quota(quotas, t) + 1];
      QuotasFit(clusters, after) && FirstSeated(clusters, after, seats)
      && Total(clusters, after) == Total(clusters, quotas) + 1
  {
    TotalUpdate(clusters, quotas, best, Quota(quotas, clusters[best].tag) + 1);
    assert forall k | 0 <= k < |clusters| && k != best :: clusters[k].tag != clusters[best].tag;
  }

  method Allocate(geo: Geometry, clusters: seq<Cluster>, maxSamples: nat) returns (quotas: Quotas, remaining: nat)
    requires PositiveWeight(geo) && NonEmpty(clusters) && DistinctTags(clusters)
    ensures Total(clusters, quotas) + remaining == maxSamples
    ensures QuotasFit(clusters, quotas)
    ensures FirstSeated(clusters, quotas, maxSamples)
    ensures FairQuotas(geo, clusters, quotas)
    ensures remaining > 0 ==> forall k | 0 <= k < |clusters| :: Quota(quotas, clusters[k].tag) == |clusters[k].members|
  {
    quotas, remaining := SeatFirst(clusters, maxSamples);
    assert QuotasFit(clusters, quotas) && FirstSeated(clusters, quotas, maxSamples);
    assert FairQuotas(geo, clusters, quotas);
    hide QuotasFit, FirstSeated, FairQuotas, PositiveWeight, NonEmpty, DistinctTags;
    while remaining > 0
      invariant Total(clusters, quotas) + remaining == maxSamples
      invariant QuotasFit(clusters, quotas)
      invariant FirstSeated(clusters, quotas, maxSamples)
      invariant FairQuotas(geo, clusters, quotas)
      invariant remaining > 0 ==> |clusters| <= maxSamples
    {
      var bestTag, best := BestCluster(geo, clusters, quotas);
      if bestTag == 0 {
        NoBestMeansFull(clusters, quotas, maxSamples);
        break;
      }
      assert Unsaturated(clusters, quotas, best);
      BestKeepsFair(geo, clusters, quotas, best);
      BestKeepsFit(geo, clusters, quotas, best, maxSamples);
      quotas := quotas[bestTag := Quota(quotas, bestTag) + 1];
      remaining := remaining - 1;
    }
  }

  // ---------------------------------------------------------------------------
  // The whole compaction
  // ---------------------------------------------------------------------------

  /** keep holds each cluster's quota of its members, and nothing else. */
  ghost predicate HoldsQuotas(labels: seq<int>, clusters: seq<Cluster>, quotas: Quotas, keep: set<nat>) {
    && (forall i | i in keep :: i < |labels| && labels[i] > 0)
    && |keep| == Total(clusters, quotas)
    && MeetsQuotas(labels, clusters, quotas, keep)
  }

  ghost predicate MeetsQuotas(labels: seq<int>, clusters: seq<Cluster>, quotas: Quotas, keep: set<nat>) {
    forall k | 0 <= k < |clusters| :: Kept(labels, keep, clusters[k].tag) == Quota(quotas, clusters[k].tag)
  }

  /** Every cluster with a seat is represented. */
  ghost predicate StandFor(geo: Geometry, labels: seq<int>, clusters: seq<Cluster>, keep: set<nat>) {
    forall k | 0 <= k < |clusters| && Kept(labels, keep, clusters[k].tag) >= 1 ::
      Represents(geo, clusters[k].tag, Members(labels, clusters[k].tag), Chosen(labels, keep, clusters[k].tag))
  }

  lemma KeptAfter(labels: seq<int>, keep: set<nat>, more: set<nat>, t: int)
    requires more <= Members(labels, t) && Kept(labels, keep, t) == 0
    ensures |keep + more| == |keep| + |more|
    ensures Chosen(labels, keep + more, t) == more
    ensures forall u | u != t :: Chosen(labels, keep + more, u) == Chosen(labels, keep, u)
  {
    assert keep * more == {} by {
      assert keep * more <= Chosen(labels, keep, t);
    }
    assert Chosen(labels, keep, t) == {};
    assert Chosen(labels, keep + more, t) == Chosen(labels, keep, t) + more;
    forall u | u != t ensures Chosen(labels, keep + more, u) == Chosen(labels, keep, u) {
      assert more * Members(labels, u) == {};
    }
  }

  lemma KeepStep(labels: seq<int>, clusters: seq<Cluster>, quotas: Quotas, keep: set<nat>, more: set<nat>, j: nat)
    requires j < |clusters| && DescribesAll(labels, clusters)
    requires HoldsQuotas(labels, clusters[..j], quotas, keep)
    requires Kept(labels, keep, clusters[j].tag) == 0
    requires more <= Members(labels, clusters[j].tag) && |more| == Quota(quotas, clusters[j].tag)
    ensures HoldsQuotas(labels, clusters[..j + 1], quotas, keep + more)
  {
    MembersPositive(labels, clusters, j);
    TotalGrows(clusters, quotas, j);
    KeptAfter(labels, keep, more, clusters[j].tag);
    hide DescribesAll, Tags, Members, Kept, Total, Quota;
    assert MeetsQuotas(labels, clusters[..j + 1], quotas, keep + more) by {
      MeetsStep(labels, clusters, quotas, keep, more, j);
    }
    hide MeetsQuotas;
  }

  lemma MeetsStep(labels: seq<int>, clusters: seq<Cluster>, quotas: Quotas, keep: set<nat>, more: set<nat>, j: nat)
    requires j < |clusters| && MeetsQuotas(labels, clusters[..j], quotas, keep)
    requires forall k | 0 <= k < j :: Kept(labels, keep + more, clusters[k].tag) == Kept(labels, keep, clusters[k].tag)
    requires Kept(labels, keep + more, clusters[j].tag) == Quota(quotas, clusters[j].tag)
    ensures MeetsQuotas(labels, clusters[..j + 1], quotas, keep + more)
  {
    hide Kept;
    forall k | 0 <= k < j ensures Kept(labels, keep + more, clusters[k].tag) == Quota(quotas, clusters[k].tag) {
      assert clusters[..j][k] == clusters[k];
    }
  }

  lemma TotalGrows(clusters: seq<Cluster>, quotas: Quotas, j: nat)
    requires j < |clusters|
    ensures Total(clusters[..j + 1], quotas) == Total(clusters[..j], quotas) + Quota(quotas, clusters[j].tag)
  {
    assert clusters[..j + 1][..j] == clusters[..j];
  }

  lemma MembersPositive(labels: seq<int>, clusters: seq<Cluster>, j: nat)
    requires j < |clusters| && DescribesAll(labels, clusters)
    ensures forall i | i in Members(labels, clusters[j].tag) :: i < |labels| && labels[i] > 0
    ensures forall k | 0 <= k < j :: clusters[k].tag != clusters[j].tag
  {
  }

  method KeepRepresentatives(geo: Geometry, labels: seq<int>, clusters: seq<Cluster>, quotas: Quotas)
    returns (keep: set<nat>)
    requires DescribesAll(labels, clusters) && QuotasFit(clusters, quotas)
    ensures HoldsQuotas(labels, clusters, quotas, keep) && StandFor(geo, labels, clusters, keep)
  {
    hide HoldsQuotas, StandFor, DescribesAll, QuotasFit, Kept, Chosen, Members, Distinct, Represents, SetOf;
    keep := {};
    NothingKept(geo, labels, clusters, quotas);
    for j := 0 to |clusters|
      invariant HoldsQuotas(labels, clusters[..j], quotas, keep) && StandFor(geo, labels, clusters[..j], keep)
      invariant forall k | j <= k < |clusters| :: Kept(labels, keep, clusters[k].tag) == 0
    {
      var c := clusters[j];
      var quota := Quota(quotas, c.tag);
      ClusterFacts(labels, clusters, quotas, j);
      ghost var before := keep;
      ghost var more: set<nat> := {};
      if quota > 0 {
        var chosen := SelectRepresentatives(geo, c.tag, c.members, quota);
        more := SetOf(chosen);
        keep := keep + SetOf(chosen);
      }
      assert keep == before + more;
      KeepStep(labels, clusters, quotas, before, more, j);
      StandStep(geo, labels, clusters, before, more, j);
      StillUnkept(labels, clusters, before, more, j);
    }
    assert clusters[..|clusters|] == clusters;
  }

  lemma NothingKept(geo: Geometry, labels: seq<int>, clusters: seq<Cluster>, quotas: Quotas)
    ensures HoldsQuotas(labels, clusters[..0], quotas, {}) && StandFor(geo, labels, clusters[..0], {})
    ensures forall t :: Kept(labels, {}, t) == 0
  {
  }

  lemma StandStep(geo: Geometry, labels: seq<int>, clusters: seq<Cluster>, keep: set<nat>, more: set<nat>, j: nat)
    requires j < |clusters| && DescribesAll(labels, clusters) && StandFor(geo, labels, clusters[..j], keep)
    requires Kept(labels, keep, clusters[j].tag) == 0 && more <= Members(labels, clusters[j].tag)
    requires more != {} ==> Represents(geo, clusters[j].tag, Members(labels, clusters[j].tag), more)
    ensures StandFor(geo, labels, clusters[..j + 1], keep + more)
  {
    MembersPositive(labels, clusters, j);
    KeptAfter(labels, keep, more, clusters[j].tag);
    hide DescribesAll, Chosen, Members, Represents;
    var next := clusters[..j + 1];
    forall k | 0 <= k < |next| && Kept(labels, keep + more, next[k].tag) >= 1
      ensures Represents(geo, next[k].tag, Members(labels, next[k].tag), Chosen(labels, keep + more, next[k].tag))
    {
      assert k < j ==> next[k] == clusters[..j][k];
    }
  }

  lemma StillUnkept(labels: seq<int>, clusters: seq<Cluster>, keep: set<nat>, more: set<nat>, j: nat)
    requires j < |clusters| && more <= Members(labels, clusters[j].tag)
    requires forall k | j < k < |clusters| :: clusters[k].tag != clusters[j].tag
    requires forall k | j <= k < |clusters| :: Kept(labels, keep, clusters[k].tag) == 0
    ensures forall k | j < k < |clusters| :: Kept(labels, keep + more, clusters[k].tag) == 0
  {
    KeptAfter(labels, keep, more, clusters[j].tag);
  }

  lemma ClusterFacts(labels: seq<int>, clusters: seq<Cluster>, quotas: Quotas, j: nat)
    requires j < |clusters| && DescribesAll(labels, clusters) && QuotasFit(clusters, quotas)
    ensures Distinct(clusters[j].members) && SetOf(clusters[j].members) == Members(labels, clusters[j].tag)
    ensures Quota(quotas, clusters[j].tag) <= |clusters[j].members|
    ensures forall k | j < k < |clusters| :: clusters[k].tag != clusters[j].tag
  {
  }

  lemma TagCount(labels: seq<int>, clusters: seq<Cluster>)
    requires DescribesAll(labels, clusters)
    ensures |Tags(labels)| == |clusters|
  {
    var tags := seq(|clusters|, k requires 0 <= k < |clusters| => clusters[k].tag);
    DistinctCount(tags);
    forall t ensures t in SetOf(tags) <==> t in Tags(labels) {
      if t in Tags(labels) {
        var k :| 0 <= k < |clusters| && clusters[k].tag == t;
        assert tags[k] == t;
      }
    }
    assert SetOf(tags) == Tags(labels);
  }

  lemma FullSubset<T>(a: set<T>, b: set<T>)
    requires a <= b && |a| == |b|
    ensures a == b
  {
    assert |b - a| == |b| - |a|;
  }

  lemma ClusterOf(labels: seq<int>, clusters: seq<Cluster>, t: int) returns (k: nat)
    requires DescribesAll(labels, clusters) && t in Tags(labels)
    ensures k < |clusters| && clusters[k].tag == t && |clusters[k].members| == Size(labels, t)
  {
    k :| 0 <= k < |clusters| && clusters[k].tag == t;
    DescribedSize(labels, clusters[k]);
  }

  /** Saturated quotas keep every clustered sample. */
  lemma SaturatedKeepsAll(labels: seq<int>, clusters: seq<Cluster>, quotas: Quotas, keep: set<nat>)
    requires DescribesAll(labels, clusters) && MeetsQuotas(labels, clusters, quotas, keep)
    requires forall k | 0 <= k < |clusters| :: Quota(quotas, clusters[k].tag) == |clusters[k].members|
    ensures forall i: nat | i < |labels| && labels[i] > 0 :: i in keep
  {
    forall i: nat | i < |labels| && labels[i] > 0 ensures i in keep {
      assert labels[i] in Tags(labels);
      var k := ClusterOf(labels, clusters, labels[i]);
      hide DescribesAll;
      FullSubset(Chosen(labels, keep, labels[i]), Members(labels, labels[i]));
      assert i in Members(labels, labels[i]);
    }
  }

  lemma KeptAndNoise(labels: seq<int>, keep: set<nat>)
    requires forall i: nat :: i in keep <==> i < |labels| && labels[i] > 0
    ensures |keep| + |NoiseSet(labels)| == |labels|
  {
    var all := seq(|labels|, i => i);
    DistinctCount(all);
    forall i: nat ensures i in SetOf(all) <==> i in keep + NoiseSet(labels) {
      assert i < |labels| ==> all[i] in all;
    }
    assert SetOf(all) == keep + NoiseSet(labels);
    assert keep !! NoiseSet(labels);
  }

  lemma NoiseLeavesKept(labels: seq<int>, keep: set<nat>, more: set<nat>)
    requires forall i | i in more :: IsNoise(labels, i)
    ensures forall t | t in Tags(labels) :: Chosen(labels, keep + more, t) == Chosen(labels, keep, t)
  {
    forall t | t in Tags(labels) ensures Chosen(labels, keep + more, t) == Chosen(labels, keep, t) {
      assert more * Members(labels, t) == {};
    }
  }

  lemma QuotasAreFair(geo: Geometry, labels: seq<int>, clusters: seq<Cluster>, quotas: Quotas, keep: set<nat>)
    requires DescribesAll(labels, clusters) && FairQuotas(geo, clusters, quotas)
    requires MeetsQuotas(labels, clusters, quotas, keep)
    ensures Fair(geo, labels, keep)
  {
    hide DescribesAll, Size, Kept, Tags, FairQuotas, MeetsQuotas;
    forall a, b | a in Tags(labels) && b in Tags(labels)
              && 1 <= Kept(labels, keep, a) < Size(labels, a) && Kept(labels, keep, b) >= 2
      ensures geo.weight(Size(labels, a)) / (Kept(labels, keep, a) + 1) as real
           <= geo.weight(Size(labels, b)) / Kept(labels, keep, b) as real
    {
      var i := ClusterOf(labels, clusters, a);
      var j := ClusterOf(labels, clusters, b);
      FairPair(geo, labels, clusters, quotas, keep, i, j);
    }
  }

  lemma FairPair(geo: Geometry, labels: seq<int>, clusters: seq<Cluster>, quotas: Quotas, keep: set<nat>, i: nat, j: nat)
    requires FairQuotas(geo, clusters, quotas) && MeetsQuotas(labels, clusters, quotas, keep)
    requires i < |clusters| && j < |clusters|
    requires 1 <= Kept(labels, keep, clusters[i].tag) < |clusters[i].members| && Kept(labels, keep, clusters[j].tag) >= 2
    ensures geo.weight(|clusters[i].members|) / (Kept(labels, keep, clusters[i].tag) + 1) as real
         <= geo.weight(|clusters[j].members|) / Kept(labels, keep, clusters[j].tag) as real
  {
    hide Kept, Quota;
    assert Unsaturated(clusters, quotas, i);
  }

  lemma SeatsGoToTheLargest(labels: seq<int>, clusters: seq<Cluster>, quotas: Quotas, keep: set<nat>, maxSamples: nat)
    requires DescribesAll(labels, clusters) && Sorted(StaysInFront, clusters)
    requires FirstSeated(clusters, quotas, maxSamples)
    requires MeetsQuotas(labels, clusters, quotas, keep)
    ensures LargestFirst(labels, keep)
  {
    hide DescribesAll;
    forall a, b | a in Tags(labels) && b in Tags(labels) && Kept(labels, keep, a) == 0 && Kept(labels, keep, b) >= 1
      ensures Size(labels, a) < Size(labels, b) || (Size(labels, a) == Size(labels, b) && SeenBefore(labels, a, b))
    {
      var i := ClusterOf(labels, clusters, a);
      var j := ClusterOf(labels, clusters, b);
      hide Size, Kept, Tags;
      assert j < maxSamples <= i;
      assert Before(StaysInFront, clusters[j], clusters[i]);
      if |clusters[i].members| == |clusters[j].members| {
        MoreRecent(labels, clusters, i, j);
      }
    }
  }

  lemma MoreRecent(labels: seq<int>, clusters: seq<Cluster>, i: nat, j: nat)
    requires DescribesAll(labels, clusters) && i < |clusters| && j < |clusters|
    requires clusters[i].recent < clusters[j].recent
    ensures SeenBefore(labels, clusters[i].tag, clusters[j].tag)
  {
    var c, d := clusters[i], clusters[j];
    assert d.recent in SetOf(d.members);
    forall m | m in Members(labels, c.tag) ensures m < d.recent {
      assert m in SetOf(c.members);
      var k :| 0 <= k < |c.members| && c.members[k] == m;
    }
  }

  lemma EveryClusterSeated(labels: seq<int>, clusters: seq<Cluster>, quotas: Quotas, keep: set<nat>, maxSamples: nat)
    requires DescribesAll(labels, clusters) && FirstSeated(clusters, quotas, maxSamples)
    requires MeetsQuotas(labels, clusters, quotas, keep)
    ensures Seated(labels, keep, maxSamples)
  {
    TagCount(labels, clusters);
    hide DescribesAll;
    forall t | t in Tags(labels) && |Tags(labels)| <= maxSamples ensures Kept(labels, keep, t) >= 1 {
      var i := ClusterOf(labels, clusters, t);
    }
  }

  method KeepNewest(noise: seq<nat>, remaining: nat, keep: set<nat>) returns (all: set<nat>, ghost from: nat)
    ensures from <= |noise| && all == keep + SetOf(noise[from..])
    ensures |noise| - from == if remaining < |noise| then remaining else |noise|
  {
    all := keep;
    var i: nat, left := |noise|, remaining;
    while i > 0 && left > 0
      invariant 0 <= i <= |noise| && all == keep + SetOf(noise[i..])
      invariant |noise| - i == remaining - left
    {
      i, left := i - 1, left - 1;
      assert noise[i..] == [noise[i]] + noise[i + 1..];
      all := all + {noise[i]};
    }
    from := i;
  }

  lemma NewestNoise(labels: seq<int>, noise: seq<nat>, keep: set<nat>, from: nat)
    requires from <= |noise| && SetOf(noise) == NoiseSet(labels)
    requires Ascending(noise)
    requires forall i | i in keep :: i < |labels| && labels[i] > 0
    requires from < |noise| ==> forall i: nat | i < |labels| && labels[i] > 0 :: i in keep
    ensures NoiseLast(labels, keep + SetOf(noise[from..]))
  {
    var tail := noise[from..];
    forall i: nat, j: nat | i in tail && i < j && IsNoise(labels, j) ensures j in tail {
      assert j in SetOf(noise);
      var a: nat :| a < |tail| && tail[a] == i;
      var b: nat :| b < |noise| && noise[b] == j;
      assert noise[from + a] == i;
      assert tail[b - from] == j;
    }
  }

  lemma NoiseCount(labels: seq<int>, noise: seq<nat>, keep: set<nat>, from: nat)
    requires from <= |noise| && SetOf(noise) == NoiseSet(labels)
    requires Ascending(noise)
    requires forall i | i in keep :: i < |labels| && labels[i] > 0
    ensures |keep + SetOf(noise[from..])| == |keep| + |noise| - from
    ensures forall i | i in SetOf(noise[from..]) :: IsNoise(labels, i)
  {
    var tail := noise[from..];
    DistinctCount(tail);
    forall i | i in tail ensures i in NoiseSet(labels) {
      assert i in SetOf(noise);
    }
    assert keep * SetOf(tail) == {};
  }

  /** Which samples to keep, as ascending indices. */
  method CompactEmbeddings(geo: Geometry, labels: seq<int>, maxSamples: int) returns (indices: seq<nat>)
    requires PositiveWeight(geo)
    ensures forall i, j | 0 <= i < j < |indices| :: indices[i] < indices[j]
    ensures maxSamples <= 0 || |labels| <= maxSamples ==> indices == seq(|labels|, i => i)
    ensures 0 < maxSamples < |labels| ==>
      |indices| == maxSamples && IsCompaction(geo, labels, maxSamples, SetOf(indices))
  {
    if maxSamples <= 0 || |labels| <= maxSamples {
      return seq(|labels|, i => i);
    }
    var keep := ChooseSamples(geo, labels, maxSamples);
    indices := InOrder(keep);
  }

  /** The elements of a set in ascending order, whatever order the set yields them in. */
  method InOrder(keep: set<nat>) returns (indices: seq<nat>)
    ensures SetOf(indices) == keep && |indices| == |keep|
    ensures forall i, j | 0 <= i < j < |indices| :: indices[i] < indices[j]
  {
    indices := [];
    var left := keep;
    while left != {}
      invariant left <= keep && SetOf(indices) == keep - left
      invariant |indices| + |left| == |keep|
      decreases left
    {
      var i :| i in left;
      left := left - {i};
      assert SetOf(indices + [i]) == SetOf(indices) + {i};
      indices := indices + [i];
    }
    indices := SortInts(indices);
    SameSizeDistinct(indices);
  }

  method ChooseSamples(geo: Geometry, labels: seq<int>, maxSamples: nat) returns (keep: set<nat>)
    requires PositiveWeight(geo) && 0 < maxSamples < |labels|
    ensures IsCompaction(geo, labels, maxSamples, keep)
  {
    var byTag, noise := Group(labels);
    var clusters := SortedClusters(labels, byTag);
    WellFormedClusters(labels, clusters);
    var quotas, remaining := Allocate(geo, clusters, maxSamples);
    var clustered := KeepRepresentatives(geo, labels, clusters, quotas);
    ghost var from;
    keep, from := KeepNewest(noise, remaining, clustered);
    Assemble(geo, labels, clusters, quotas, maxSamples, remaining, noise, clustered, from);
  }

  lemma WellFormedClusters(labels: seq<int>, clusters: seq<Cluster>)
    requires DescribesAll(labels, clusters)
    ensures NonEmpty(clusters) && DistinctTags(clusters)
  {
  }

  lemma Assemble(geo: Geometry, labels: seq<int>, clusters: seq<Cluster>, quotas: Quotas, maxSamples: nat,
                 remaining: nat, noise: seq<nat>, keep: set<nat>, from: nat)
    requires maxSamples < |labels|
    requires DescribesAll(labels, clusters) && Sorted(StaysInFront, clusters)
    requires HoldsQuotas(labels, clusters, quotas, keep) && StandFor(geo, labels, clusters, keep)
    requires Total(clusters, quotas) + remaining == maxSamples
    requires FirstSeated(clusters, quotas, maxSamples) && FairQuotas(geo, clusters, quotas)
    requires remaining > 0 ==> forall k | 0 <= k < |clusters| :: Quota(quotas, clusters[k].tag) == |clusters[k].members|
    requires SetOf(noise) == NoiseSet(labels) && Ascending(noise)
    requires from <= |noise| && |noise| - from == if remaining < |noise| then remaining else |noise|
    ensures IsCompaction(geo, labels, maxSamples, keep + SetOf(noise[from..]))
  {
    hide DescribesAll, Fair, LargestFirst, Seated, NoiseLast, FairQuotas, FirstSeated, StandIns, StandFor, Chosen, Sorted;
    var more := SetOf(noise[from..]);
    DistinctCount(noise);
    if remaining > 0 {
      SaturatedKeepsAll(labels, clusters, quotas, keep);
      KeptAndNoise(labels, keep);
    }
    NewestNoise(labels, noise, keep, from);
    NoiseCount(labels, noise, keep, from);
    NoiseLeavesKept(labels, keep, more);
    assert MeetsQuotas(labels, clusters, quotas, keep + more) by {
      TagsKnown(labels, clusters);
    }
    QuotasAreFair(geo, labels, clusters, quotas, keep + more);
    SeatsGoToTheLargest(labels, clusters, quotas, keep + more, maxSamples);
    EveryClusterSeated(labels, clusters, quotas, keep + more, maxSamples);
    EveryClusterRepresented(geo, labels, clusters, keep, keep + more);
  }

  lemma EveryClusterRepresented(geo: Geometry, labels: seq<int>, clusters: seq<Cluster>, keep: set<nat>, all: set<nat>)
    requires DescribesAll(labels, clusters) && StandFor(geo, labels, clusters, keep)
    requires forall t | t in Tags(labels) :: Chosen(labels, all, t) == Chosen(labels, keep, t)
    ensures StandIns(geo, labels, all)
  {
    hide Represents, Chosen, Members;
    forall t | t in Tags(labels) && Kept(labels, all, t) >= 1
      ensures Represents(geo, t, Members(labels, t), Chosen(labels, all, t))
    {
      var k :| 0 <= k < |clusters| && clusters[k].tag == t;
    }
  }

  lemma TagsKnown(labels: seq<int>, clusters: seq<Cluster>)
    requires DescribesAll(labels, clusters)
    ensures forall k | 0 <= k < |clusters| :: clusters[k].tag in Tags(labels)
  {
  }

  // ---------------------------------------------------------------------------
  // What a compaction keeps of a cluster
  // ---------------------------------------------------------------------------

  /** Of every cluster with a seat, a most central member survives, and with two seats the newest candidate. */
  lemma AnchorsSurvive(geo: Geometry, labels: seq<int>, maxSamples: nat, keep: set<nat>, t: int)
    requires IsCompaction(geo, labels, maxSamples, keep) && t in Tags(labels) && Kept(labels, keep, t) >= 1
    ensures exists a ::
      (a in Chosen(labels, keep, t) && forall m | m in Members(labels, t) :: geo.sim(t, m) <= geo.sim(t, a))
    ensures 2 <= Kept(labels, keep, t) < Size(labels, t) ==>
      exists n :: n in Chosen(labels, keep, t) && Newest(Pool(geo, t, Members(labels, t), Kept(labels, keep, t)), n)
  {
    hide Represents, Pool, Newest;
    assert Represents(geo, t, Members(labels, t), Chosen(labels, keep, t));
    var a := MostCentralKept(geo, t, Members(labels, t), Chosen(labels, keep, t));
    if 2 <= Kept(labels, keep, t) < Size(labels, t) {
      var n := NewestKept(geo, t, Members(labels, t), Chosen(labels, keep, t));
    }
  }

  /** The number of seats determines which samples of a cluster are kept. */
  lemma SeatsDecide(geo: Geometry, labels: seq<int>, one: set<nat>, two: set<nat>, t: int)
    requires StandIns(geo, labels, one) && StandIns(geo, labels, two) && t in Tags(labels)
    requires Kept(labels, one, t) == Kept(labels, two, t)
    ensures Chosen(labels, one, t) == Chosen(labels, two, t)
  {
    hide Represents;
    var a, b, all := Chosen(labels, one, t), Chosen(labels, two, t), Members(labels, t);
    if |a| == |all| {
      FullSubset(a, all);
      FullSubset(b, all);
    } else if |a| > 0 {
      SubsetSize(a, all);
      RepresentsUnique(geo, t, all, a, b);
    }
  }
}

/**
  DBSCAN over an abstract neighbour relation.  The cosine distances are replaced by a
  symmetric predicate `near`; nothing says that a point is its own neighbour, because a
  zero vector is at distance 1 from itself.
 */
module Dbscan {
  import opened InsertionSorts

  const UNDEFINED: int := 0
  const NOISE: int := -1

  datatype Points = Points(n: nat, near: (nat, nat) -> bool, minPts: int)

  /** How many of the first k points are neighbours of i. */
  function NearCount(g: Points, i: nat, k: nat): nat {
    if k == 0 then 0 else NearCount(g, i, k - 1) + if g.near(i, k - 1) then 1 else 0
  }

  predicate Core(g: Points, i: nat) {
    i < g.n && NearCount(g, i, g.n) >= g.minPts
  }

  ghost predicate Symmetric(g: Points) {
    forall i: nat, j: nat | i < g.n && j < g.n :: g.near(i, j) ==> g.near(j, i)
  }

  // ---------------------------------------------------------------------------
  // What a density clustering is
  // ---------------------------------------------------------------------------

  /** A chain of core points, each a neighbour of the one before. */
  ghost predicate CoreChain(g: Points, p: seq<nat>) {
    && |p| > 0
    && (forall k | 0 <= k < |p| :: Core(g, p[k]))
    && (forall k | 0 < k < |p| :: g.near(p[k - 1], p[k]))
  }

  ghost predicate Connected(g: Points, a: nat, b: nat) {
    exists p: seq<nat> :: CoreChain(g, p) && p[0] == a && p[|p| - 1] == b
  }

  ghost predicate HasCoreNeighbor(g: Points, i: nat) {
    exists c: nat :: Core(g, c) && g.near(c, i)
  }

  ghost predicate HasCoreNeighborLabelled(g: Points, labels: seq<int>, i: nat, tag: int)
    requires |labels| == g.n
  {
    exists c: nat :: Core(g, c) && g.near(c, i) && labels[c] == tag
  }

  ghost predicate IsDensityClustering(g: Points, labels: seq<int>) {
    && |labels| == g.n
    && (forall i: nat, j: nat | Core(g, i) && Core(g, j) ::
          labels[i] == labels[j] <==> Connected(g, i, j))
    && (forall i: nat | i < g.n ::
          labels[i] == NOISE <==> !Core(g, i) && !HasCoreNeighbor(g, i))
    && (forall i: nat | i < g.n && !Core(g, i) && labels[i] != NOISE ::
          HasCoreNeighborLabelled(g, labels, i, labels[i]))
    && FirstCome(g, labels)
  }

  /** No point carries a later label than a core point next to it. */
  ghost predicate FirstCome(g: Points, labels: seq<int>)
    requires |labels| == g.n
  {
    forall c: nat, i: nat | Core(g, c) && i < g.n && g.near(c, i) && labels[c] > 0 && labels[i] > 0 ::
      labels[i] <= labels[c]
  }

  /** starts[c - 1] is the core point of least index that carries label c. */
  ghost predicate LeastCores(g: Points, labels: seq<int>, starts: seq<nat>)
    requires |labels| == g.n
  {
    && (forall c | 0 <= c < |starts| :: Core(g, starts[c]) && labels[starts[c]] == c + 1)
    && (forall c, d | 0 <= c < d < |starts| :: starts[c] < starts[d])
    && (forall j: nat, c | Core(g, j) && 0 <= c < |starts| && labels[j] == c + 1 :: starts[c] <= j)
  }

  /** The labels in use are 1..k, numbered by ascending least core index, and NOISE. */
  ghost predicate Numbered(g: Points, labels: seq<int>) {
    && |labels| == g.n
    && exists starts: seq<nat> ::
         LeastCores(g, labels, starts) &&
         forall i | 0 <= i < g.n :: labels[i] == NOISE || 1 <= labels[i] <= |starts|
  }

  // ---------------------------------------------------------------------------
  // Chains
  // ---------------------------------------------------------------------------

  lemma ConnectedSelf(g: Points, a: nat)
    requires Core(g, a)
    ensures Connected(g, a, a)
  {
    assert CoreChain(g, [a]) && [a][0] == a;
  }

  lemma ConnectedStep(g: Points, a: nat, b: nat, c: nat)
    requires Connected(g, a, b) && Core(g, c) && g.near(b, c)
    ensures Connected(g, a, c)
  {
    var p :| CoreChain(g, p) && p[0] == a && p[|p| - 1] == b;
    var q := p + [c];
    assert CoreChain(g, q) && q[0] == a && q[|q| - 1] == c;
  }

  lemma ConnectedTransitive(g: Points, a: nat, b: nat, c: nat)
    requires Connected(g, a, b) && Connected(g, b, c)
    ensures Connected(g, a, c)
  {
    var q :| CoreChain(g, q) && q[0] == b && q[|q| - 1] == c;
    ChainExtends(g, a, q);
  }

  lemma {:induction false} ChainExtends(g: Points, a: nat, q: seq<nat>)
    requires CoreChain(g, q) && Connected(g, a, q[0])
    ensures Connected(g, a, q[|q| - 1])
    decreases |q|
  {
    if |q| > 1 {
      ConnectedStep(g, a, q[0], q[1]);
      ChainExtends(g, a, q[1..]);
    }
  }

  lemma {:induction false} ChainReverses(g: Points, p: seq<nat>)
    requires Symmetric(g) && CoreChain(g, p)
    ensures Connected(g, p[|p| - 1], p[0])
    decreases |p|
  {
    if |p| == 1 {
      ConnectedSelf(g, p[0]);
    } else {
      ChainReverses(g, p[1..]);
      ConnectedStep(g, p[|p| - 1], p[1], p[0]);
    }
  }

  lemma ConnectedSymmetric(g: Points, a: nat, b: nat)
    requires Symmetric(g) && Connected(g, a, b)
    ensures Connected(g, b, a)
  {
    var p :| CoreChain(g, p) && p[0] == a && p[|p| - 1] == b;
    ChainReverses(g, p);
  }

  // ---------------------------------------------------------------------------
  // Invariant of the scan
  // ---------------------------------------------------------------------------

  /** Labels in range, and no core point dismissed as noise. */
  ghost predicate Ranged(g: Points, labels: seq<int>, k: nat) {
    && |labels| == g.n
    && (forall j | 0 <= j < g.n :: NOISE <= labels[j] <= k)
    && (forall j: nat | Core(g, j) :: labels[j] != NOISE)
  }

  /** Every labelled core point hangs together with the point its cluster grew from. */
  ghost predicate Grown(g: Points, labels: seq<int>, starts: seq<nat>)
    requires |labels| == g.n
  {
    forall j: nat, c | Core(g, j) && 0 <= c < |starts| && labels[j] == c + 1 :: Connected(g, starts[c], j)
  }

  /** Every labelled border point took its label from a core neighbour. */
  ghost predicate Bordered(g: Points, labels: seq<int>)
    requires |labels| == g.n
  {
    forall j: nat | j < g.n && !Core(g, j) && labels[j] > 0 ::
      HasCoreNeighborLabelled(g, labels, j, labels[j])
  }

  /** Labels so far: starts are the points the clusters grew from. */
  ghost predicate Sound(g: Points, labels: seq<int>, starts: seq<nat>) {
    && Ranged(g, labels, |starts|)
    && LeastCores(g, labels, starts)
    && Grown(g, labels, starts)
    && Bordered(g, labels)
    && FirstCome(g, labels)
  }

  /** Clusters below `open` have reached all their neighbours. */
  ghost predicate ClosedBelow(g: Points, labels: seq<int>, open: int)
    requires |labels| == g.n
  {
    forall q: nat, r: nat | Core(g, q) && r < g.n && 0 < labels[q] < open && g.near(q, r) ::
      labels[r] > 0 && (Core(g, r) ==> labels[r] == labels[q])
  }

  /** The open cluster reaches its neighbours once the queue has been worked off. */
  ghost predicate Pending(g: Points, labels: seq<int>, open: int, queue: seq<nat>)
    requires |labels| == g.n
  {
    && (forall k | 0 <= k < |queue| :: queue[k] < g.n && HasCoreNeighborLabelled(g, labels, queue[k], open))
    && (forall q: nat, r: nat | Core(g, q) && r < g.n && labels[q] == open && g.near(q, r) ::
          labels[r] > 0 || r in queue)
  }

  function Undefined(labels: seq<int>): nat {
    if labels == [] then 0
    else Undefined(labels[..|labels| - 1]) + if labels[|labels| - 1] == UNDEFINED then 1 else 0
  }

  lemma {:induction false} UndefinedUpdate(labels: seq<int>, q: nat, c: int)
    requires q < |labels| && c != UNDEFINED
    ensures Undefined(labels[q := c]) == Undefined(labels) - if labels[q] == UNDEFINED then 1 else 0
  {
    var last := |labels| - 1;
    if q < last {
      assert labels[q := c][..last] == labels[..last][q := c];
      UndefinedUpdate(labels[..last], q, c);
    } else {
      assert labels[q := c][..last] == labels[..last];
    }
  }

  lemma CoreNeighborKept(g: Points, labels: seq<int>, q: nat, c: int, j: nat, tag: int)
    requires |labels| == g.n && q < g.n
    requires labels[q] <= 0 && tag > 0
    requires HasCoreNeighborLabelled(g, labels, j, tag)
    ensures HasCoreNeighborLabelled(g, labels[q := c], j, tag)
  {
    var w: nat :| Core(g, w) && g.near(w, j) && labels[w] == tag;
    assert labels[q := c][w] == tag;
  }

  lemma BorderedKept(g: Points, labels: seq<int>, q: nat, c: int)
    requires |labels| == g.n && q < g.n && labels[q] <= 0
    requires Bordered(g, labels)
    requires !Core(g, q) && c > 0 ==> HasCoreNeighborLabelled(g, labels, q, c)
    ensures Bordered(g, labels[q := c])
  {
    var after := labels[q := c];
    forall j: nat | j < g.n && !Core(g, j) && after[j] > 0
      ensures HasCoreNeighborLabelled(g, after, j, after[j])
    {
      CoreNeighborKept(g, labels, q, c, j, after[j]);
    }
  }

  /** A point that gets the highest label so far has no neighbour in a closed cluster. */
  lemma FirstComeKept(g: Points, labels: seq<int>, q: nat, c: int)
    requires |labels| == g.n && q < g.n && labels[q] <= 0
    requires FirstCome(g, labels) && ClosedBelow(g, labels, c)
    requires forall j | 0 <= j < g.n :: labels[j] <= c
    ensures FirstCome(g, labels[q := c])
  {
  }

  /** Labelling a fresh or noise point that a core point of the open cluster reaches. */
  lemma LabelKeepsSound(g: Points, labels: seq<int>, starts: seq<nat>, q: nat)
    requires Sound(g, labels, starts) && |starts| > 0
    requires ClosedBelow(g, labels, |starts|) && q < g.n && labels[q] <= 0
    requires starts[|starts| - 1] <= q || !Core(g, q)
    requires HasCoreNeighborLabelled(g, labels, q, |starts|)
    ensures Sound(g, labels[q := |starts|], starts)
  {
    var open := |starts|;
    BorderedKept(g, labels, q, open);
    FirstComeKept(g, labels, q, open);
    LabelKeepsGrown(g, labels, starts, q);
    assert LeastCores(g, labels[q := open], starts);
  }

  lemma LabelKeepsGrown(g: Points, labels: seq<int>, starts: seq<nat>, q: nat)
    requires |labels| == g.n && |starts| > 0 && Grown(g, labels, starts)
    requires q < g.n && labels[q] <= 0
    requires HasCoreNeighborLabelled(g, labels, q, |starts|)
    ensures Grown(g, labels[q := |starts|], starts)
  {
    if Core(g, q) {
      var w: nat :| Core(g, w) && g.near(w, q) && labels[w] == |starts|;
      ConnectedStep(g, starts[|starts| - 1], w, q);
    }
  }

  /** ... and it moves the queue's promise along. */
  lemma LabelKeepsPending(g: Points, labels: seq<int>, open: int, queue: seq<nat>, more: seq<nat>)
    requires |labels| == g.n && open > 0 && |queue| > 0
    requires Pending(g, labels, open, queue)
    requires labels[queue[0]] <= 0
    requires forall r: nat :: r in more ==> r < g.n && g.near(queue[0], r)
    requires Core(g, queue[0]) ==> forall r: nat | r < g.n && g.near(queue[0], r) :: r in more
    requires more != [] ==> Core(g, queue[0])
    ensures Pending(g, labels[queue[0] := open], open, queue[1..] + more)
  {
    var q := queue[0];
    var after, rest := labels[q := open], queue[1..] + more;
    forall k | 0 <= k < |rest|
      ensures rest[k] < g.n && HasCoreNeighborLabelled(g, after, rest[k], open)
    {
      if k < |queue| - 1 {
        CoreNeighborKept(g, labels, q, open, rest[k], open);
      } else {
        assert rest[k] in more;
        assert Core(g, q) && g.near(q, rest[k]) && after[q] == open;
      }
    }
    forall p: nat, r: nat | Core(g, p) && r < g.n && after[p] == open && g.near(p, r)
      ensures after[r] > 0 || r in rest
    {
      if p == q {
        assert r in more;
      } else {
        assert labels[r] > 0 || r in queue;
      }
    }
  }

  lemma SkipKeepsPending(g: Points, labels: seq<int>, open: int, queue: seq<nat>)
    requires |labels| == g.n && |queue| > 0
    requires Pending(g, labels, open, queue) && labels[queue[0]] > 0
    ensures Pending(g, labels, open, queue[1..])
  {
  }

  lemma LabelKeepsClosed(g: Points, labels: seq<int>, open: int, q: nat)
    requires |labels| == g.n && q < g.n && labels[q] <= 0
    requires ClosedBelow(g, labels, open)
    ensures ClosedBelow(g, labels[q := open], open)
  {
  }

  /** An exhausted queue closes the open cluster. */
  lemma ExhaustedCloses(g: Points, labels: seq<int>, starts: seq<nat>)
    requires Symmetric(g) && Sound(g, labels, starts) && |starts| > 0
    requires ClosedBelow(g, labels, |starts|) && Pending(g, labels, |starts|, [])
    ensures ClosedBelow(g, labels, |starts| + 1)
  {
    forall q: nat, r: nat | Core(g, q) && r < g.n && 0 < labels[q] < |starts| + 1 && g.near(q, r)
      ensures labels[r] > 0 && (Core(g, r) ==> labels[r] == labels[q])
    {
      assert g.near(r, q);
    }
  }

  /** Starting a cluster at an undefined core point. */
  lemma StartKeepsSound(g: Points, labels: seq<int>, starts: seq<nat>, i: nat)
    requires Sound(g, labels, starts) && ClosedBelow(g, labels, |starts| + 1)
    requires Core(g, i) && labels[i] == UNDEFINED
    requires forall j | 0 <= j < i :: labels[j] != UNDEFINED
    requires forall c | 0 <= c < |starts| :: starts[c] < i
    ensures Sound(g, labels[i := |starts| + 1], starts + [i])
    ensures ClosedBelow(g, labels[i := |starts| + 1], |starts| + 1)
  {
    var open, next := |starts| + 1, starts + [i];
    ConnectedSelf(g, i);
    BorderedKept(g, labels, i, open);
    FirstComeKept(g, labels, i, open);
    LabelKeepsClosed(g, labels, open, i);
    assert Grown(g, labels[i := open], next);
    assert LeastCores(g, labels[i := open], next);
  }

  // ---------------------------------------------------------------------------
  // The algorithm
  // ---------------------------------------------------------------------------

  /** All neighbours of i, in ascending order. */
  method RangeQuery(g: Points, i: nat) returns (result: seq<nat>)
    requires i < g.n
    ensures forall j: nat :: j in result <==> j < g.n && g.near(i, j)
    ensures forall a, b | 0 <= a < b < |result| :: result[a] < result[b]
    ensures |result| >= g.minPts <==> Core(g, i)
  {
    result := [];
    for k := 0 to g.n
      invariant forall j: nat :: j in result <==> j < k && g.near(i, j)
      invariant forall a, b | 0 <= a < b < |result| :: result[a] < result[b]
      invariant |result| == NearCount(g, i, k)
    {
      ghost var before := result;
      if g.near(i, k) {
        result := result + [k];
        assert forall a | 0 <= a < |before| :: before[a] in before;
      }
    }
  }

  /** The seed loop: grows the open cluster until its queue is empty. */
  method Grow(g: Points, labels: array<int>, queue: seq<nat>, ghost starts: seq<nat>, clusterID: int)
    requires Symmetric(g) && labels.Length == g.n && clusterID == |starts| > 0
    requires Sound(g, labels[..], starts) && ClosedBelow(g, labels[..], clusterID)
    requires Pending(g, labels[..], clusterID, queue)
    requires forall j: nat | j < starts[clusterID - 1] && j < g.n :: labels[j] != UNDEFINED
    modifies labels
    ensures Sound(g, labels[..], starts) && ClosedBelow(g, labels[..], clusterID + 1)
    ensures forall j | 0 <= j < g.n && old(labels[j]) != UNDEFINED :: labels[j] != UNDEFINED
  {
    hide Sound, ClosedBelow, Pending;
    var seed := queue;
    while seed != []
      invariant Sound(g, labels[..], starts) && ClosedBelow(g, labels[..], clusterID)
      invariant Pending(g, labels[..], clusterID, seed)
      invariant forall j | 0 <= j < g.n && old(labels[j]) != UNDEFINED :: labels[j] != UNDEFINED
      decreases Undefined(labels[..]), |seed|
    {
      ghost var before, waiting := labels[..], seed;
      var q := seed[0];
      seed := seed[1..];
      PendingHead(g, before, starts, waiting);
      UndefinedUpdate(before, q, clusterID);
      if labels[q] == NOISE {
        labels[q] := clusterID;
        assert labels[..] == before[q := clusterID];
        LabelKeepsSound(g, before, starts, q);
        LabelKeepsClosed(g, before, clusterID, q);
        LabelKeepsPending(g, before, clusterID, waiting, []);
        assert waiting[1..] + [] == seed;
      }
      if labels[q] != UNDEFINED {
        if before[q] > 0 {
          SkipKeepsPending(g, before, clusterID, waiting);
        }
        continue;
      }
      labels[q] := clusterID;
      assert labels[..] == before[q := clusterID];
      LabelKeepsSound(g, before, starts, q);
      LabelKeepsClosed(g, before, clusterID, q);
      var found := RangeQuery(g, q);
      if |found| >= g.minPts {
        LabelKeepsPending(g, before, clusterID, waiting, found);
        seed := seed + found;
      } else {
        LabelKeepsPending(g, before, clusterID, waiting, []);
        assert waiting[1..] + [] == seed;
      }
    }
    ExhaustedCloses(g, labels[..], starts);
  }

  method Dbscan(g: Points) returns (labels: array<int>)
    requires Symmetric(g)
    ensures IsDensityClustering(g, labels[..])
    ensures Numbered(g, labels[..])
  {
    hide Sound, ClosedBelow, Pending, IsDensityClustering, Numbered;
    labels := new int[g.n](_ => UNDEFINED);
    var clusterID := 0;
    ghost var starts: seq<nat> := [];
    NothingLabelled(g, labels[..]);
    for i := 0 to g.n
      invariant clusterID == |starts|
      invariant Sound(g, labels[..], starts) && ClosedBelow(g, labels[..], clusterID + 1)
      invariant forall c | 0 <= c < |starts| :: starts[c] < i
      invariant forall j | 0 <= j < i :: labels[j] != UNDEFINED
    {
      if labels[i] != UNDEFINED {
        continue;
      }
      ghost var before := labels[..];
      var neighbors := RangeQuery(g, i);
      if |neighbors| < g.minPts {
        labels[i] := NOISE;
        assert labels[..] == before[i := NOISE];
        NoiseKeeps(g, before, starts, i);
        continue;
      }
      clusterID := clusterID + 1;
      labels[i] := clusterID;
      assert labels[..] == before[i := clusterID];
      StartKeepsSound(g, before, starts, i);
      starts := starts + [i];
      var seed := Without(neighbors, i);
      assert forall j | 0 <= j < g.n :: before[j] != clusterID by { Unused(g, before, starts[..|starts| - 1]); }
      StartPending(g, before, |starts|, i, neighbors, seed);
      Grow(g, labels, seed, starts, clusterID);
    }
    ScanResult(g, labels[..], starts);
  }

  method Without(s: seq<nat>, i: nat) returns (r: seq<nat>)
    ensures forall j: nat :: j in r <==> j in s && j != i
  {
    r := [];
    for k := 0 to |s|
      invariant forall j: nat :: j in r <==> j in s[..k] && j != i
    {
      if s[k] != i {
        r := r + [s[k]];
      }
    }
  }

  lemma NothingLabelled(g: Points, labels: seq<int>)
    requires |labels| == g.n && forall j | 0 <= j < g.n :: labels[j] == UNDEFINED
    ensures Sound(g, labels, []) && ClosedBelow(g, labels, 1)
  {
  }

  lemma Unused(g: Points, labels: seq<int>, starts: seq<nat>)
    requires Sound(g, labels, starts)
    ensures forall j | 0 <= j < g.n :: labels[j] != |starts| + 1
  {
  }

  /** The next point to visit, and that the open cluster may take it. */
  lemma PendingHead(g: Points, labels: seq<int>, starts: seq<nat>, queue: seq<nat>)
    requires Sound(g, labels, starts) && |starts| > 0 && |queue| > 0
    requires Pending(g, labels, |starts|, queue)
    requires forall j: nat | j < starts[|starts| - 1] && j < g.n :: labels[j] != UNDEFINED
    ensures queue[0] < g.n && NOISE <= labels[queue[0]]
    ensures HasCoreNeighborLabelled(g, labels, queue[0], |starts|)
    ensures labels[queue[0]] == NOISE ==> !Core(g, queue[0])
    ensures labels[queue[0]] <= 0 ==> starts[|starts| - 1] <= queue[0] || !Core(g, queue[0])
  {
  }

  lemma NoiseKeeps(g: Points, labels: seq<int>, starts: seq<nat>, i: nat)
    requires Sound(g, labels, starts) && ClosedBelow(g, labels, |starts| + 1)
    requires i < g.n && !Core(g, i) && labels[i] == UNDEFINED
    ensures Sound(g, labels[i := NOISE], starts) && ClosedBelow(g, labels[i := NOISE], |starts| + 1)
  {
    BorderedKept(g, labels, i, NOISE);
  }

  lemma StartPending(g: Points, labels: seq<int>, open: int, i: nat, neighbors: seq<nat>, seed: seq<nat>)
    requires |labels| == g.n && Core(g, i) && open > 0
    requires forall j | 0 <= j < g.n :: labels[j] != open
    requires forall j: nat :: j in neighbors <==> j < g.n && g.near(i, j)
    requires forall j: nat :: j in seed <==> j in neighbors && j != i
    ensures Pending(g, labels[i := open], open, seed)
  {
    var after := labels[i := open];
    forall k | 0 <= k < |seed|
      ensures seed[k] < g.n && HasCoreNeighborLabelled(g, after, seed[k], open)
    {
      assert seed[k] in seed;
      assert Core(g, i) && g.near(i, seed[k]) && after[i] == open;
    }
  }

  /** Once every point is labelled, the scan's invariant is the clustering. */
  lemma ScanResult(g: Points, labels: seq<int>, starts: seq<nat>)
    requires Symmetric(g) && Sound(g, labels, starts) && ClosedBelow(g, labels, |starts| + 1)
    requires forall j | 0 <= j < g.n :: labels[j] != UNDEFINED
    ensures IsDensityClustering(g, labels) && Numbered(g, labels)
  {
    forall i: nat, j: nat | Core(g, i) && Core(g, j)
      ensures labels[i] == labels[j] <==> Connected(g, i, j)
    {
      SameLabel(g, labels, starts, i, j);
    }
    forall i: nat | i < g.n
      ensures labels[i] == NOISE <==> !Core(g, i) && !HasCoreNeighbor(g, i)
    {
      if HasCoreNeighbor(g, i) {
        var c: nat :| Core(g, c) && g.near(c, i);
        assert labels[i] > 0;
      }
    }
  }

  lemma SameLabel(g: Points, labels: seq<int>, starts: seq<nat>, i: nat, j: nat)
    requires Symmetric(g) && |labels| == g.n
    requires Grown(g, labels, starts) && ClosedBelow(g, labels, |starts| + 1)
    requires forall j: nat | Core(g, j) :: 1 <= labels[j] <= |starts|
    requires Core(g, i) && Core(g, j)
    ensures labels[i] == labels[j] <==> Connected(g, i, j)
  {
    if labels[i] == labels[j] {
      ConnectedSymmetric(g, starts[labels[i] - 1], i);
      ConnectedTransitive(g, i, starts[labels[i] - 1], j);
    }
    if Connected(g, i, j) {
      var p :| CoreChain(g, p) && p[0] == i && p[|p| - 1] == j;
      ChainSharesLabel(g, labels, |starts|, p);
    }
  }

  lemma {:induction false} ChainSharesLabel(g: Points, labels: seq<int>, k: int, p: seq<nat>)
    requires |labels| == g.n && ClosedBelow(g, labels, k + 1)
    requires forall j: nat | Core(g, j) :: 1 <= labels[j] <= k
    requires CoreChain(g, p)
    ensures labels[p[0]] == labels[p[|p| - 1]]
    decreases |p|
  {
    if |p| > 1 {
      assert g.near(p[0], p[1]);
      ChainSharesLabel(g, labels, k, p[1..]);
    }
  }

  // ---------------------------------------------------------------------------
  // The specification determines every label
  // ---------------------------------------------------------------------------

  /** j has the least index in its component. */
  ghost predicate Leader(g: Points, j: nat) {
    Core(g, j) && forall i: nat | Core(g, i) && Connected(g, i, j) :: j <= i
  }

  lemma StartIsLeader(g: Points, labels: seq<int>, starts: seq<nat>, c: nat)
    requires IsDensityClustering(g, labels) && LeastCores(g, labels, starts) && c < |starts|
    ensures Leader(g, starts[c])
  {
    hide FirstCome, HasCoreNeighbor, HasCoreNeighborLabelled, Connected;
    forall i: nat | Core(g, i) && Connected(g, i, starts[c]) ensures starts[c] <= i {
      assert labels[i] == labels[starts[c]] == c + 1;
    }
  }

  lemma LeaderIsStart(g: Points, labels: seq<int>, starts: seq<nat>, j: nat)
    requires IsDensityClustering(g, labels) && LeastCores(g, labels, starts) && Leader(g, j)
    requires forall i | 0 <= i < g.n :: labels[i] == NOISE || 1 <= labels[i] <= |starts|
    ensures j in starts
  {
    hide FirstCome, HasCoreNeighborLabelled, Connected;
    assert Core(g, j) && labels[j] != NOISE;
    var s := starts[labels[j] - 1];
    assert labels[s] == labels[j] && Connected(g, s, j);
  }

  lemma StartsAreLeaders(g: Points, labels: seq<int>, starts: seq<nat>)
    requires IsDensityClustering(g, labels) && LeastCores(g, labels, starts)
    requires forall i | 0 <= i < g.n :: labels[i] == NOISE || 1 <= labels[i] <= |starts|
    ensures forall j: nat :: j in starts <==> Leader(g, j)
  {
    hide IsDensityClustering, LeastCores, Leader, Core;
    forall j: nat ensures j in starts <==> Leader(g, j) {
      if j in starts {
        var c :| 0 <= c < |starts| && starts[c] == j;
        StartIsLeader(g, labels, starts, c);
      }
      if Leader(g, j) {
        LeaderIsStart(g, labels, starts, j);
      }
    }
  }

  lemma BorderUnique(g: Points, one: seq<int>, two: seq<int>, j: nat)
    requires IsDensityClustering(g, one) && IsDensityClustering(g, two) && Numbered(g, one) && Numbered(g, two)
    requires forall i: nat | Core(g, i) :: one[i] == two[i]
    requires j < g.n && !Core(g, j) && one[j] != NOISE && two[j] != NOISE
    ensures one[j] <= two[j]
  {
    var c: nat :| Core(g, c) && g.near(c, j) && two[c] == two[j];
    assert one[j] > 0 && one[c] > 0;
  }

  /** The specification leaves no choice: there is one clustering, and the algorithm finds it. */
  lemma ClusteringUnique(g: Points, one: seq<int>, two: seq<int>)
    requires IsDensityClustering(g, one) && Numbered(g, one)
    requires IsDensityClustering(g, two) && Numbered(g, two)
    ensures one == two
  {
    var s: seq<nat> :| LeastCores(g, one, s) && forall i | 0 <= i < g.n :: one[i] == NOISE || 1 <= one[i] <= |s|;
    var t: seq<nat> :| LeastCores(g, two, t) && forall i | 0 <= i < g.n :: two[i] == NOISE || 1 <= two[i] <= |t|;
    StartsAreLeaders(g, one, s);
    StartsAreLeaders(g, two, t);
    AscendingUnique(s, t);
    forall j: nat | Core(g, j) ensures one[j] == two[j] {
      assert one[s[one[j] - 1]] == one[j];
      assert Connected(g, s[one[j] - 1], j);
    }
    forall j | 0 <= j < g.n ensures one[j] == two[j] {
      if !Core(g, j) && one[j] != NOISE {
        BorderUnique(g, one, two, j);
        BorderUnique(g, two, one, j);
      }
    }
  }
}

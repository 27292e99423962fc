/**
  Which members stand for a cluster: the most central one, the newest, and then again and again
  the one that is farthest from what has been picked.  Similarities, distances and the outlier
  threshold are arbitrary functions of the reals.
 */
module VecidRepresentatives {
  import opened InsertionSorts

  datatype Geometry = Geometry(
    weight: nat -> real,
    sim: (int, nat) -> real,
    dist: (nat, nat) -> real,
    threshold: int -> real)

  datatype Scored = Scored(idx: nat, sim: real)

  const MAX_DIST: real := 340282346638528859811704183484516925440.0

  function SetOf<T>(s: seq<T>): set<T> { set x | x in s }

  ghost predicate Distinct<T>(s: seq<T>) {
    forall i, j | 0 <= i < j < |s| :: s[i] != s[j]
  }

  lemma {:induction false} DistinctCount<T>(s: seq<T>)
    requires Distinct(s)
    ensures |SetOf(s)| == |s|
  {
    if s != [] {
      var front, last := s[..|s| - 1], s[|s| - 1];
      DistinctCount(front);
      assert SetOf(s) == SetOf(front) + {last};
      assert last !in SetOf(front);
    }
  }

  lemma {:induction false} SameSizeDistinct<T>(s: seq<T>)
    requires |SetOf(s)| == |s|
    ensures Distinct(s)
  {
    if s != [] {
      var front, last := s[..|s| - 1], s[|s| - 1];
      assert SetOf(s) == SetOf(front) + {last};
      SetSizeBound(front);
      assert last !in SetOf(front);
      SameSizeDistinct(front);
    }
  }

  lemma {:induction false} SetSizeBound<T>(s: seq<T>)
    ensures |SetOf(s)| <= |s|
  {
    if s != [] {
      assert SetOf(s) == SetOf(s[..|s| - 1]) + {s[|s| - 1]};
      SetSizeBound(s[..|s| - 1]);
    }
  }

  lemma {:induction false} SubsetSize<T>(a: set<T>, b: set<T>)
    requires a <= b
    ensures |a| <= |b|
  {
    if x :| x in a {
      SubsetSize(a - {x}, b - {x});
    }
  }

  // ---------------------------------------------------------------------------
  // What the selection promises, in terms of the members alone
  // ---------------------------------------------------------------------------

  /** More central first, then the older sample. */
  predicate Precedes(geo: Geometry, tag: int, a: nat, b: nat) {
    geo.sim(tag, a) > geo.sim(tag, b) || (geo.sim(tag, a) == geo.sim(tag, b) && a < b)
  }

  /** How far a candidate is from what has been selected. */
  function MinDist(geo: Geometry, selected: seq<nat>, i: nat): real {
    if selected == [] then MAX_DIST
    else
      var d, m := geo.dist(i, selected[|selected| - 1]), MinDist(geo, selected[..|selected| - 1], i);
      if d < m then d else m
  }

  /** It is the distance to the nearest of them. */
  lemma {:induction false} MinDistIsLeast(geo: Geometry, selected: seq<nat>, i: nat)
    ensures forall s | s in selected :: MinDist(geo, selected, i) <= geo.dist(i, s)
    ensures MinDist(geo, selected, i) <= MAX_DIST
    ensures MinDist(geo, selected, i) == MAX_DIST || exists s :: s in selected && MinDist(geo, selected, i) == geo.dist(i, s)
  {
    if selected != [] {
      var n := |selected| - 1;
      MinDistIsLeast(geo, selected[..n], i);
      assert selected == selected[..n] + [selected[n]];
      assert forall s :: s in selected <==> s in selected[..n] || s == selected[n];
    }
  }

  function Score(geo: Geometry, tag: int, selected: seq<nat>, i: nat): real {
    MinDist(geo, selected, i) + geo.sim(tag, i) * 0.05
  }

  /** Scores of -1 and less count alike. */
  function Worth(geo: Geometry, tag: int, selected: seq<nat>, i: nat): real {
    if Score(geo, tag, selected, i) > -1.0 then Score(geo, tag, selected, i) else -1.0
  }

  ghost predicate Better(geo: Geometry, tag: int, selected: seq<nat>, i: nat, d: nat) {
    || Worth(geo, tag, selected, i) > Worth(geo, tag, selected, d)
    || (Worth(geo, tag, selected, i) == Worth(geo, tag, selected, d) && Precedes(geo, tag, i, d))
  }

  /** i is the best candidate that is left, the most central among equals. */
  ghost predicate NextPick(geo: Geometry, tag: int, pool: set<nat>, selected: seq<nat>, i: nat) {
    && i in pool && i !in selected
    && forall d | d in pool && d !in selected && d != i :: Better(geo, tag, selected, i, d)
  }

  ghost predicate First(geo: Geometry, tag: int, pool: set<nat>, i: nat) {
    i in pool && forall d | d in pool && d != i :: Precedes(geo, tag, i, d)
  }

  ghost predicate Newest(pool: set<nat>, i: nat) {
    i in pool && forall d | d in pool :: d <= i
  }

  /** The most central one, then the newest unless that is the same, then the best each time. */
  ghost predicate Picks(geo: Geometry, tag: int, pool: set<nat>, order: seq<nat>) {
    && (|order| > 0 ==> First(geo, tag, pool, order[0]))
    && (|order| > 1 && !Newest(pool, order[0]) ==> Newest(pool, order[1]))
    && (forall k | 1 <= k < |order| && (k > 1 || Newest(pool, order[0])) ::
          NextPick(geo, tag, pool, order[..k], order[k]))
  }

  function Central(geo: Geometry, tag: int, members: set<nat>): set<nat> {
    set m | m in members && geo.sim(tag, m) >= geo.threshold(tag)
  }

  /** The members that are not outliers; everybody, if too few of those remain. */
  function Pool(geo: Geometry, tag: int, members: set<nat>, quota: nat): set<nat> {
    if |Central(geo, tag, members)| < quota then members else Central(geo, tag, members)
  }

  /** What is kept of a cluster: all of it, or the picks. */
  ghost predicate Represents(geo: Geometry, tag: int, members: set<nat>, chosen: set<nat>) {
    || chosen == members
    || exists order: seq<nat> ::
         SetOf(order) == chosen && |order| == |chosen| && Picks(geo, tag, Pool(geo, tag, members, |chosen|), order)
  }

  lemma {:induction false} PicksUnique(geo: Geometry, tag: int, pool: set<nat>, a: seq<nat>, b: seq<nat>)
    requires |a| == |b| && Picks(geo, tag, pool, a) && Picks(geo, tag, pool, b)
    ensures a == b
    decreases |a|
  {
    hide Picks, Precedes, Better;
    if a != [] {
      var n := |a| - 1;
      PicksFront(geo, tag, pool, a);
      PicksFront(geo, tag, pool, b);
      PicksUnique(geo, tag, pool, a[..n], b[..n]);
      assert n > 0 ==> a[0] == a[..n][0] == b[..n][0] == b[0];
      LastUnique(geo, tag, pool, a[..n], a[n], b[n]);
      assert a == a[..n] + [a[n]] && b == b[..n] + [b[n]];
    }
  }

  /** How the last of some picks was picked. */
  ghost predicate Follows(geo: Geometry, tag: int, pool: set<nat>, front: seq<nat>, i: nat) {
    if front == [] then First(geo, tag, pool, i)
    else if |front| == 1 && !Newest(pool, front[0]) then Newest(pool, i)
    else NextPick(geo, tag, pool, front, i)
  }

  lemma PicksFront(geo: Geometry, tag: int, pool: set<nat>, a: seq<nat>)
    requires Picks(geo, tag, pool, a) && a != []
    ensures Picks(geo, tag, pool, a[..|a| - 1]) && Follows(geo, tag, pool, a[..|a| - 1], a[|a| - 1])
  {
    hide First, Newest, NextPick;
    var front := a[..|a| - 1];
    assert forall k | 1 <= k < |front| :: front[..k] == a[..k];
  }

  lemma LastUnique(geo: Geometry, tag: int, pool: set<nat>, front: seq<nat>, i: nat, j: nat)
    requires Follows(geo, tag, pool, front, i) && Follows(geo, tag, pool, front, j)
    ensures i == j
  {
    hide Score;
  }

  /** The members and the number of seats determine who stands for a cluster. */
  lemma RepresentsUnique(geo: Geometry, tag: int, members: set<nat>, one: set<nat>, two: set<nat>)
    requires Represents(geo, tag, members, one) && Represents(geo, tag, members, two)
    requires |one| == |two| < |members|
    ensures one == two
  {
    var a: seq<nat> :| SetOf(a) == one && |a| == |one| && Picks(geo, tag, Pool(geo, tag, members, |one|), a);
    var b: seq<nat> :| SetOf(b) == two && |b| == |two| && Picks(geo, tag, Pool(geo, tag, members, |two|), b);
    PicksUnique(geo, tag, Pool(geo, tag, members, |one|), a, b);
  }

  /** Whoever is kept, a most central member is among them. */
  lemma MostCentralKept(geo: Geometry, tag: int, members: set<nat>, chosen: set<nat>) returns (a: nat)
    requires Represents(geo, tag, members, chosen) && chosen != {}
    ensures a in chosen && forall m | m in members :: geo.sim(tag, m) <= geo.sim(tag, a)
  {
    if chosen == members {
      a := MostCentral(geo, tag, members);
    } else {
      var order: seq<nat> :|
        SetOf(order) == chosen && |order| == |chosen| && Picks(geo, tag, Pool(geo, tag, members, |chosen|), order);
      assert |chosen| > 0;
      a := order[0];
      assert a in SetOf(order) && First(geo, tag, Pool(geo, tag, members, |chosen|), a);
    }
  }

  lemma {:induction false} MostCentral(geo: Geometry, tag: int, members: set<nat>) returns (a: nat)
    requires members != {}
    ensures a in members && forall m | m in members :: geo.sim(tag, m) <= geo.sim(tag, a)
    decreases |members|
  {
    a :| a in members;
    if members != {a} {
      assert members - {a} != {};
      var b := MostCentral(geo, tag, members - {a});
      if geo.sim(tag, a) < geo.sim(tag, b) {
        a := b;
      }
    }
  }

  /** From two on, the newest of the candidates is kept. */
  lemma NewestKept(geo: Geometry, tag: int, members: set<nat>, chosen: set<nat>) returns (n: nat)
    requires Represents(geo, tag, members, chosen) && 2 <= |chosen| < |members|
    ensures n in chosen && Newest(Pool(geo, tag, members, |chosen|), n)
  {
    var pool := Pool(geo, tag, members, |chosen|);
    var order: seq<nat> :| SetOf(order) == chosen && |order| == |chosen| && Picks(geo, tag, pool, order);
    n := if Newest(pool, order[0]) then order[0] else order[1];
    assert n in SetOf(order);
  }

  // ---------------------------------------------------------------------------
  // The selection
  // ---------------------------------------------------------------------------

  predicate MoreCentral(p: Scored, c: Scored) {
    p.sim > c.sim || (p.sim == c.sim && p.idx < c.idx)
  }

  predicate AtMost(p: nat, c: nat) { p <= c }

  method SortInts(s: seq<nat>) returns (r: seq<nat>)
    ensures SetOf(r) == SetOf(s) && |r| == |s|
    ensures forall i, j | 0 <= i < j < |r| :: r[i] <= r[j]
  {
    r := SortSeq(s, AtMost);
    SameMultisetSameSet(s, r);
    assert forall i, j | 0 <= i < j < |r| :: Before(AtMost, r[i], r[j]);
  }

  lemma SameMultisetSameSet<T>(s: seq<T>, r: seq<T>)
    requires multiset(s) == multiset(r)
    ensures SetOf(s) == SetOf(r) && |s| == |r|
  {
    forall x ensures x in s <==> x in r {
      assert x in s <==> x in multiset(s);
    }
    assert |multiset(s)| == |s| && |multiset(r)| == |r|;
  }

  function Ids(s: seq<Scored>): (r: seq<nat>)
    ensures |r| == |s| && forall k | 0 <= k < |s| :: r[k] == s[k].idx
  {
    if s == [] then [] else Ids(s[..|s| - 1]) + [s[|s| - 1].idx]
  }

  /** The candidates, scored by their similarity and in central order. */
  ghost predicate Ranked(geo: Geometry, tag: int, s: seq<Scored>) {
    && (forall k | 0 <= k < |s| :: s[k].sim == geo.sim(tag, s[k].idx))
    && (forall i, j | 0 <= i < j < |s| :: Precedes(geo, tag, s[i].idx, s[j].idx))
  }

  method ScoreMembers(geo: Geometry, tag: int, members: seq<nat>) returns (scored: seq<Scored>)
    ensures |scored| == |members|
    ensures forall k | 0 <= k < |members| :: scored[k] == Scored(members[k], geo.sim(tag, members[k]))
  {
    scored := [];
    for k := 0 to |members|
      invariant |scored| == k
      invariant forall m | 0 <= m < k :: scored[m] == Scored(members[m], geo.sim(tag, members[m]))
    {
      scored := scored + [Scored(members[k], geo.sim(tag, members[k]))];
    }
  }

  ghost predicate Simmed(geo: Geometry, tag: int, s: seq<Scored>) {
    forall k | 0 <= k < |s| :: s[k].sim == geo.sim(tag, s[k].idx)
  }

  method Candidates(geo: Geometry, tag: int, scored: seq<Scored>, quota: nat) returns (r: seq<Scored>)
    requires Simmed(geo, tag, scored) && Distinct(Ids(scored)) && quota <= |scored|
    ensures Simmed(geo, tag, r) && Distinct(Ids(r)) && quota <= |r|
    ensures SetOf(Ids(r)) == Pool(geo, tag, SetOf(Ids(scored)), quota)
  {
    hide Ids, Simmed, Central, SetOf, Distinct;
    SimmedGrows(geo, tag, scored, scored, 0);
    r := [];
    assert Ids(scored)[..0] == Ids(r);
    NobodyCentral(geo, tag, Ids(r));
    for k := 0 to |scored|
      invariant Simmed(geo, tag, r) && Distinct(Ids(r))
      invariant SetOf(Ids(r)) == Central(geo, tag, SetOf(Ids(scored)[..k]))
    {
      var c := scored[k];
      CentralGrows(geo, tag, Ids(scored), k);
      SimmedGrows(geo, tag, r, scored, k);
      if c.sim >= geo.threshold(tag) {
        AppendId(r, c);
        DistinctGrows(Ids(r), c.idx);
        r := r + [c];
      }
    }
    assert Ids(scored)[..|scored|] == Ids(scored);
    DistinctCount(Ids(r));
    if |r| < quota {
      r := scored;
    }
  }

  lemma SimmedGrows(geo: Geometry, tag: int, r: seq<Scored>, s: seq<Scored>, k: nat)
    requires Simmed(geo, tag, r) && Simmed(geo, tag, s)
    ensures Simmed(geo, tag, []) && Ids([]) == [] && Distinct(Ids([]))
    ensures k < |s| ==> s[k].sim == geo.sim(tag, s[k].idx) && Simmed(geo, tag, r + [s[k]])
  {
  }

  lemma DistinctGrows(ids: seq<nat>, i: nat)
    requires Distinct(ids) && i !in SetOf(ids)
    ensures Distinct(ids + [i])
  {
    assert forall k | 0 <= k < |ids| :: ids[k] in SetOf(ids);
  }

  lemma NobodyCentral(geo: Geometry, tag: int, nobody: seq<nat>)
    requires nobody == []
    ensures Central(geo, tag, SetOf(nobody)) == SetOf(nobody)
  {
  }

  lemma OneMoreId(ids: seq<nat>, k: nat)
    requires k < |ids| && Distinct(ids)
    ensures SetOf(ids[..k + 1]) == SetOf(ids[..k]) + {ids[k]} && ids[k] !in SetOf(ids[..k])
  {
    assert ids[..k + 1] == ids[..k] + [ids[k]];
  }

  lemma CentralGrows(geo: Geometry, tag: int, ids: seq<nat>, k: nat)
    requires k < |ids| && Distinct(ids)
    ensures Central(geo, tag, SetOf(ids[..k + 1]))
         == Central(geo, tag, SetOf(ids[..k])) + if geo.sim(tag, ids[k]) >= geo.threshold(tag) then {ids[k]} else {}
    ensures ids[k] !in Central(geo, tag, SetOf(ids[..k]))
  {
    hide SetOf;
    OneMoreId(ids, k);
  }

  lemma AppendId(r: seq<Scored>, c: Scored)
    ensures Ids(r + [c]) == Ids(r) + [c.idx] && SetOf(Ids(r + [c])) == SetOf(Ids(r)) + {c.idx}
  {
    assert (r + [c])[..|r|] == r;
  }

  lemma CandidatesOrdered(s: seq<Scored>)
    ensures TotalOn(MoreCentral, s) && TransitiveOn(MoreCentral, s)
  {
  }

  /** Sorting the candidates keeps them and ranks them. */
  lemma SortedRanks(geo: Geometry, tag: int, s: seq<Scored>, r: seq<Scored>)
    requires Simmed(geo, tag, s) && Distinct(Ids(s))
    requires multiset(r) == multiset(s) && Sorted(MoreCentral, r)
    ensures Ranked(geo, tag, r) && SetOf(Ids(r)) == SetOf(Ids(s)) && |r| == |s| && Distinct(Ids(r))
  {
    hide Ids, Precedes;
    SameMultisetSameSet(s, r);
    assert forall c :: c in r <==> c in SetOf(r);
    assert forall c :: c in s <==> c in SetOf(s);
    forall i ensures i in SetOf(Ids(r)) <==> i in SetOf(Ids(s)) {
      IdOf(r, i);
      IdOf(s, i);
    }
    assert SetOf(Ids(r)) == SetOf(Ids(s));
    DistinctCount(Ids(s));
    SameSizeDistinct(Ids(r));
    forall k | 0 <= k < |r| ensures r[k].sim == geo.sim(tag, r[k].idx) {
      assert r[k] in s;
    }
    forall i, j | 0 <= i < j < |r| ensures Precedes(geo, tag, r[i].idx, r[j].idx) {
      assert Before(MoreCentral, r[i], r[j]) && Ids(r)[i] != Ids(r)[j];
      PrecedesOf(geo, tag, r[i], r[j]);
    }
  }

  lemma PrecedesOf(geo: Geometry, tag: int, p: Scored, c: Scored)
    requires MoreCentral(p, c) && p.sim == geo.sim(tag, p.idx) && c.sim == geo.sim(tag, c.idx)
    ensures Precedes(geo, tag, p.idx, c.idx)
  {
  }

  lemma IdOf(s: seq<Scored>, i: nat)
    ensures i in SetOf(Ids(s)) <==> exists c :: c in s && c.idx == i
  {
    if i in SetOf(Ids(s)) {
      var k :| 0 <= k < |s| && Ids(s)[k] == i;
      assert s[k] in s;
    }
    if c :| c in s && c.idx == i {
      var k :| 0 <= k < |s| && s[k] == c;
      assert Ids(s)[k] == i;
    }
  }

  /** appendIfNeeded: at most quota indices, none twice. */
  method AppendIfNeeded(selected: seq<nat>, quota: nat, idx: nat) returns (r: seq<nat>)
    ensures r == if |selected| < quota && idx !in selected then selected + [idx] else selected
  {
    if |selected| >= quota || idx in selected {
      return selected;
    }
    r := selected + [idx];
  }

  method MinDistance(geo: Geometry, selected: seq<nat>, idx: nat) returns (minDist: real)
    ensures minDist == MinDist(geo, selected, idx)
  {
    minDist := MAX_DIST;
    assert selected[..0] == [];
    for k := 0 to |selected|
      invariant minDist == MinDist(geo, selected[..k], idx)
    {
      assert selected[..k + 1][..k] == selected[..k];
      if geo.dist(idx, selected[k]) < minDist {
        minDist := geo.dist(idx, selected[k]);
      }
    }
    assert selected[..|selected|] == selected;
  }

  /** The next pick, unless nobody who is left scores more than -1. */
  method FarthestCandidate(geo: Geometry, tag: int, candidates: seq<Scored>, selected: seq<nat>) returns (bestIdx: int)
    requires Ranked(geo, tag, candidates)
    ensures bestIdx >= -1
    ensures bestIdx >= 0 ==> NextPick(geo, tag, SetOf(Ids(candidates)), selected, bestIdx)
    ensures bestIdx == -1 ==>
      forall k | 0 <= k < |candidates| && candidates[k].idx !in selected :: Score(geo, tag, selected, candidates[k].idx) <= -1.0
  {
    hide MinDist;
    bestIdx := -1;
    var bestScore := -1.0;
    ghost var best := 0;
    for k := 0 to |candidates|
      invariant bestIdx >= -1 && bestScore >= -1.0
      invariant bestIdx == -1 ==> bestScore == -1.0
      invariant bestIdx >= 0 ==>
        && best < k && candidates[best].idx == bestIdx && bestIdx !in selected
        && bestScore == Score(geo, tag, selected, bestIdx) > -1.0
      invariant forall m | 0 <= m < k && candidates[m].idx !in selected ::
        && Score(geo, tag, selected, candidates[m].idx) <= bestScore
        && (bestIdx >= 0 && Score(geo, tag, selected, candidates[m].idx) == bestScore ==> best <= m)
    {
      if candidates[k].idx in selected {
        continue;
      }
      var minDist := MinDistance(geo, selected, candidates[k].idx);
      var score := minDist + candidates[k].sim * 0.05;
      if score > bestScore {
        bestScore, bestIdx, best := score, candidates[k].idx, k;
      }
    }
    if bestIdx >= 0 {
      BestIsNext(geo, tag, candidates, selected, best);
    }
  }

  lemma BestIsNext(geo: Geometry, tag: int, candidates: seq<Scored>, selected: seq<nat>, best: nat)
    requires Ranked(geo, tag, candidates) && best < |candidates| && candidates[best].idx !in selected
    requires Score(geo, tag, selected, candidates[best].idx) > -1.0
    requires forall m | 0 <= m < |candidates| && candidates[m].idx !in selected ::
      var s, t := Score(geo, tag, selected, candidates[m].idx), Score(geo, tag, selected, candidates[best].idx);
      s <= t && (s == t ==> best <= m)
    ensures NextPick(geo, tag, SetOf(Ids(candidates)), selected, candidates[best].idx)
  {
    hide Score, Precedes, Ids;
    var ids, i := Ids(candidates), candidates[best].idx;
    assert ids[best] == i;
    forall d | d in SetOf(ids) && d !in selected && d != i ensures Better(geo, tag, selected, i, d) {
      var m :| 0 <= m < |ids| && ids[m] == d;
      assert candidates[m].idx == d;
    }
  }

  /** With one more pick, nobody's score rises. */
  lemma ScoresFall(geo: Geometry, tag: int, selected: seq<nat>, more: nat, i: nat)
    ensures Score(geo, tag, selected + [more], i) <= Score(geo, tag, selected, i)
  {
    assert (selected + [more])[..|selected|] == selected;
  }

  /** Taking the next pick goes on with the picks. */
  lemma PicksGrow(geo: Geometry, tag: int, pool: set<nat>, order: seq<nat>, i: nat)
    requires Picks(geo, tag, pool, order) && |order| >= 1 && (|order| > 1 || Newest(pool, order[0]))
    requires NextPick(geo, tag, pool, order, i)
    ensures Picks(geo, tag, pool, order + [i])
  {
    hide NextPick, First, Newest;
    var more := order + [i];
    assert more[..|order|] == order;
    forall k | 1 <= k < |more| && (k > 1 || Newest(pool, more[0])) ensures NextPick(geo, tag, pool, more[..k], more[k]) {
      assert k < |order| ==> more[..k] == order[..k];
    }
  }

  /** The first candidate that is left is the next pick once all scores are down to -1. */
  lemma RankIsNext(geo: Geometry, tag: int, candidates: seq<Scored>, selected: seq<nat>, k: nat)
    requires Ranked(geo, tag, candidates) && k < |candidates| && candidates[k].idx !in selected
    requires forall m | 0 <= m < k :: candidates[m].idx in selected
    requires forall m | 0 <= m < |candidates| && candidates[m].idx !in selected ::
      Score(geo, tag, selected, candidates[m].idx) <= -1.0
    ensures NextPick(geo, tag, SetOf(Ids(candidates)), selected, candidates[k].idx)
  {
    hide Score, Precedes, Ids;
    var ids, i := Ids(candidates), candidates[k].idx;
    assert ids[k] == i;
    forall d | d in SetOf(ids) && d !in selected && d != i ensures Better(geo, tag, selected, i, d) {
      var m :| 0 <= m < |ids| && ids[m] == d;
      assert candidates[m].idx == d && k < m;
    }
  }

  /** The anchors: the head of the ranking, and the newest candidate. */
  method PickAnchors(geo: Geometry, tag: int, filtered: seq<Scored>, quota: nat) returns (selected: seq<nat>)
    requires Ranked(geo, tag, filtered) && 1 <= quota && filtered != []
    ensures Picks(geo, tag, SetOf(Ids(filtered)), selected) && 1 <= |selected| <= quota
    ensures |selected| == quota || |selected| > 1 || Newest(SetOf(Ids(filtered)), selected[0])
    ensures Distinct(selected) && SetOf(selected) <= SetOf(Ids(filtered))
  {
    hide Precedes, NextPick, Ids;
    selected := AppendIfNeeded([], quota, filtered[0].idx);
    var recentIdx := filtered[0].idx;
    ghost var at := 0;
    for k := 0 to |filtered|
      invariant at < |filtered| && filtered[at].idx == recentIdx && filtered[0].idx <= recentIdx
      invariant forall m | 0 <= m < k :: filtered[m].idx <= recentIdx
    {
      if filtered[k].idx > recentIdx {
        recentIdx, at := filtered[k].idx, k;
      }
    }
    assert Ids(filtered)[at] == recentIdx && Ids(filtered)[0] == filtered[0].idx;
    HeadIsFirst(geo, tag, filtered);
    assert Newest(SetOf(Ids(filtered)), recentIdx);
    selected := AppendIfNeeded(selected, quota, recentIdx);
  }

  lemma HeadIsFirst(geo: Geometry, tag: int, filtered: seq<Scored>)
    requires Ranked(geo, tag, filtered) && filtered != []
    ensures First(geo, tag, SetOf(Ids(filtered)), filtered[0].idx)
  {
    hide Precedes, Ids;
    var ids := Ids(filtered);
    assert ids[0] == filtered[0].idx;
    forall d | d in SetOf(ids) && d != ids[0] ensures Precedes(geo, tag, ids[0], d) {
      var m :| 0 <= m < |ids| && ids[m] == d;
      assert Precedes(geo, tag, filtered[0].idx, filtered[m].idx);
    }
  }

  /** Exactly the picks, as many as there are seats. */
  method PickFrom(geo: Geometry, tag: int, filtered: seq<Scored>, quota: nat) returns (selected: seq<nat>)
    requires Ranked(geo, tag, filtered) && Distinct(Ids(filtered)) && 1 <= quota <= |filtered|
    ensures Picks(geo, tag, SetOf(Ids(filtered)), selected) && |selected| == quota
    ensures Distinct(selected) && SetOf(selected) <= SetOf(Ids(filtered))
  {
    hide Ranked, Picks, NextPick, Newest, Score;
    selected := PickAnchors(geo, tag, filtered, quota);
    ghost var pool := SetOf(Ids(filtered));
    ghost var stuck := false;
    while |selected| < quota
      invariant Picks(geo, tag, pool, selected) && 1 <= |selected| <= quota
      invariant |selected| == quota || |selected| > 1 || Newest(pool, selected[0])
      invariant Distinct(selected) && SetOf(selected) <= pool
      decreases quota - |selected|
    {
      var bestIdx := FarthestCandidate(geo, tag, filtered, selected);
      if bestIdx < 0 {
        stuck := true;
        break;
      }
      PicksGrow(geo, tag, pool, selected, bestIdx);
      NextIsNew(geo, tag, pool, selected, bestIdx);
      selected := AppendIfNeeded(selected, quota, bestIdx);
    }
    if |selected| < quota {
      selected := PickRest(geo, tag, filtered, quota, selected);
    }
  }

  lemma NextIsNew(geo: Geometry, tag: int, pool: set<nat>, selected: seq<nat>, i: nat)
    requires NextPick(geo, tag, pool, selected, i) && Distinct(selected) && SetOf(selected) <= pool
    ensures i !in selected && Distinct(selected + [i]) && SetOf(selected + [i]) <= pool
  {
  }

  /** The last resort, when distances no longer tell: the rest in central order. */
  method PickRest(geo: Geometry, tag: int, filtered: seq<Scored>, quota: nat, start: seq<nat>) returns (selected: seq<nat>)
    requires Ranked(geo, tag, filtered) && Distinct(Ids(filtered)) && quota <= |filtered|
    requires Picks(geo, tag, SetOf(Ids(filtered)), start) && 1 <= |start| <= quota
    requires |start| > 1 || Newest(SetOf(Ids(filtered)), start[0])
    requires Distinct(start) && SetOf(start) <= SetOf(Ids(filtered))
    requires Down(geo, tag, filtered, start)
    ensures Picks(geo, tag, SetOf(Ids(filtered)), selected) && |selected| == quota
    ensures Distinct(selected) && SetOf(selected) <= SetOf(Ids(filtered))
  {
    hide Ranked, Picks, NextPick, Newest, Down;
    selected := start;
    ghost var pool := SetOf(Ids(filtered));
    for k := 0 to |filtered|
      invariant Picks(geo, tag, pool, selected) && 1 <= |selected| <= quota
      invariant |selected| > 1 || Newest(pool, selected[0])
      invariant Distinct(selected) && SetOf(selected) <= pool
      invariant Down(geo, tag, filtered, selected)
      invariant |selected| == quota || forall m | 0 <= m < k :: filtered[m].idx in selected
    {
      if |selected| < quota && filtered[k].idx !in selected {
        DownGoesOn(geo, tag, filtered, selected, k);
        PicksGrow(geo, tag, pool, selected, filtered[k].idx);
        NextIsNew(geo, tag, pool, selected, filtered[k].idx);
      }
      selected := AppendIfNeeded(selected, quota, filtered[k].idx);
    }
    EnoughCandidates(filtered, selected, quota);
  }

  /** Nobody who is left scores more than -1. */
  ghost predicate Down(geo: Geometry, tag: int, filtered: seq<Scored>, selected: seq<nat>) {
    forall m | 0 <= m < |filtered| && filtered[m].idx !in selected :: Score(geo, tag, selected, filtered[m].idx) <= -1.0
  }

  lemma DownGoesOn(geo: Geometry, tag: int, filtered: seq<Scored>, selected: seq<nat>, k: nat)
    requires Ranked(geo, tag, filtered) && k < |filtered| && filtered[k].idx !in selected
    requires forall m | 0 <= m < k :: filtered[m].idx in selected
    requires Down(geo, tag, filtered, selected)
    ensures NextPick(geo, tag, SetOf(Ids(filtered)), selected, filtered[k].idx)
    ensures Down(geo, tag, filtered, selected + [filtered[k].idx])
  {
    hide Score, NextPick, Ranked;
    RankIsNext(geo, tag, filtered, selected, k);
    var more := selected + [filtered[k].idx];
    forall m | 0 <= m < |filtered| && filtered[m].idx !in more ensures Score(geo, tag, more, filtered[m].idx) <= -1.0 {
      ScoresFall(geo, tag, selected, filtered[k].idx, filtered[m].idx);
    }
  }

  lemma EnoughCandidates(filtered: seq<Scored>, selected: seq<nat>, quota: nat)
    requires Distinct(selected) && Distinct(Ids(filtered)) && |selected| <= quota <= |filtered|
    requires |selected| == quota || forall m | 0 <= m < |filtered| :: filtered[m].idx in selected
    ensures |selected| == quota
  {
    hide Ids, Distinct;
    if |selected| < quota {
      DistinctCount(selected);
      DistinctCount(Ids(filtered));
      forall i | i in SetOf(Ids(filtered)) ensures i in SetOf(selected) {
        var m :| 0 <= m < |filtered| && Ids(filtered)[m] == i;
        assert filtered[m].idx in selected;
      }
      SubsetSize(SetOf(Ids(filtered)), SetOf(selected));
    }
  }

  /** Who stands for a cluster: everybody, or the picks for its seats. */
  method SelectRepresentatives(geo: Geometry, tag: int, members: seq<nat>, quota: nat) returns (out: seq<nat>)
    requires Distinct(members) && 1 <= quota
    ensures SetOf(out) <= SetOf(members)
    ensures |SetOf(out)| == if quota < |members| then quota else |members|
    ensures Represents(geo, tag, SetOf(members), SetOf(out))
  {
    hide Ranked, Picks, Pool, Simmed, Sorted;
    DistinctCount(members);
    if quota >= |members| {
      return members;
    }
    var scored := ScoreMembers(geo, tag, members);
    ScoredMembers(geo, tag, members, scored);
    var filtered := Candidates(geo, tag, scored, quota);
    ghost var unsorted := filtered;
    CandidatesOrdered(filtered);
    filtered := SortSeq(filtered, MoreCentral);
    SortedRanks(geo, tag, unsorted, filtered);
    var order := PickFrom(geo, tag, filtered, quota);
    DistinctCount(order);
    PoolWithin(geo, tag, SetOf(members), quota);
    out := SortInts(order);
    assert SetOf(order) == SetOf(out) && |order| == |SetOf(out)|;
  }

  lemma PoolWithin(geo: Geometry, tag: int, members: set<nat>, quota: nat)
    ensures Pool(geo, tag, members, quota) <= members
  {
  }

  lemma ScoredMembers(geo: Geometry, tag: int, members: seq<nat>, scored: seq<Scored>)
    requires |scored| == |members|
    requires forall k | 0 <= k < |members| :: scored[k] == Scored(members[k], geo.sim(tag, members[k]))
    ensures Ids(scored) == members && Simmed(geo, tag, scored)
  {
  }
}

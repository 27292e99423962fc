/**
  The trie as a value: which patterns its nodes bind, what storing at a path does to those
  bindings, and which binding a path selects.
 */
module TrieModel {
  import opened Basics
  import opened TriePatterns

  datatype Node<T> = Node(
    children: map<string, Node<T>>,
    matchAny: Option<Node<T>>,
    matchAll: Option<Node<T>>,
    bound: bool,
    value: T)

  /** What a caller's store function leaves in the slot, and whether it reported success. */
  datatype Stored<T> = Stored(value: T, ok: bool)

  type SetFunc<!T> = (T, bool) -> Stored<T>

  datatype Outcome = Done | FuncFailed | InvalidPattern

  datatype Hit<T> = Hit(pattern: Pattern, value: T)

  function Empty<T>(zero: T): Node<T> {
    Node(map[], None, None, false, zero)
  }

  // ---------------------------------------------------------------------------
  // Shape and bindings
  // ---------------------------------------------------------------------------

  /** Wildcards live in their own fields, and nothing hangs below a multi-level wildcard. */
  ghost predicate WellShaped<T>(n: Node<T>) {
    && "+" !in n.children && "#" !in n.children
    && (forall c | c in n.children :: WellShaped(n.children[c]))
    && (n.matchAny.Some? ==> WellShaped(n.matchAny.value))
    && (n.matchAll.Some? ==> n.matchAll.value == Node(map[], None, None, n.matchAll.value.bound, n.matchAll.value.value))
  }

  function Child<T>(n: Node<T>, s: Seg): Option<Node<T>> {
    match s
    case Lit(name) => if name in n.children then Some(n.children[name]) else None
    case Any => n.matchAny
    case All => n.matchAll
  }

  /** The node at the end of a pattern. */
  function Find<T>(n: Node<T>, p: Pattern): Option<Node<T>>
    decreases |p|
  {
    if p == [] then Some(n)
    else match Child(n, p[0])
         case None => None
         case Some(m) => Find(m, p[1..])
  }

  predicate IsBound<T>(n: Node<T>, p: Pattern) {
    Find(n, p).Some? && Find(n, p).value.bound
  }

  /** The contents of a pattern's slot, bound or not. */
  function Slot<T>(n: Node<T>, p: Pattern, zero: T): T {
    if Find(n, p).Some? then Find(n, p).value.value else zero
  }

  // ---------------------------------------------------------------------------
  // Set
  // ---------------------------------------------------------------------------

  function Put<T>(n: Node<T>, fn: SetFunc<T>): (Node<T>, Outcome) {
    var r := fn(n.value, n.bound);
    (n.(value := r.value, bound := n.bound || r.ok), if r.ok then Done else FuncFailed)
  }

  function OrEmpty<T>(n: Option<Node<T>>, zero: T): Node<T> {
    if n.Some? then n.value else Empty(zero)
  }

  function SetAt<T>(n: Node<T>, segs: seq<string>, fn: SetFunc<T>, zero: T): (Node<T>, Outcome)
    decreases |segs|
  {
    if segs == [] then Put(n, fn)
    else
      var first, rest := segs[0], segs[1..];
      if first in n.children then
        var r := SetAt(n.children[first], rest, fn, zero);
        (n.(children := n.children[first := r.0]), r.1)
      else if first == "+" then
        var r := SetAt(OrEmpty(n.matchAny, zero), rest, fn, zero);
        (n.(matchAny := Some(r.0)), r.1)
      else if first == "#" then
        if rest != [] then (n, InvalidPattern)
        else
          var r := Put(OrEmpty(n.matchAll, zero), fn);
          (n.(matchAll := Some(r.0)), r.1)
      else
        var r := SetAt(Empty(zero), rest, fn, zero);
        (n.(children := n.children[first := r.0]), r.1)
  }

  /** n' is n with the slot of p replaced, everything else as before. */
  ghost predicate SlotChanged<T(!new)>(n: Node<T>, n': Node<T>, p: Pattern, r: Stored<T>, zero: T) {
    && (forall q | q != p :: IsBound(n', q) == IsBound(n, q) && Slot(n', q, zero) == Slot(n, q, zero))
    && IsBound(n', p) == (IsBound(n, p) || r.ok)
    && Slot(n', p, zero) == r.value
  }

  ghost predicate SlotsUnchanged<T(!new)>(n: Node<T>, n': Node<T>, zero: T) {
    forall q :: IsBound(n', q) == IsBound(n, q) && Slot(n', q, zero) == Slot(n, q, zero)
  }

  lemma EmptyBindsNothing<T>(q: Pattern, zero: T)
    ensures !IsBound(Empty(zero), q) && Slot(Empty(zero), q, zero) == zero && WellShaped(Empty(zero))
  {
  }

  lemma SlotBelow<T>(n: Node<T>, p: Pattern, zero: T)
    requires p != []
    ensures var c := OrEmpty(Child(n, p[0]), zero);
      IsBound(n, p) == IsBound(c, p[1..]) && Slot(n, p, zero) == Slot(c, p[1..], zero)
  {
    EmptyBindsNothing(p[1..], zero);
  }

  /** n' is n with another child at s. */
  ghost predicate ChildReplaced<T(!new)>(n: Node<T>, n': Node<T>, s: Seg, c': Node<T>) {
    && Child(n', s) == Some(c')
    && (forall t | t != s :: Child(n', t) == Child(n, t))
    && n'.bound == n.bound && n'.value == n.value
  }

  lemma OthersUnaffected<T(!new)>(n: Node<T>, n': Node<T>, s: Seg, c': Node<T>, q: Pattern, zero: T)
    requires ChildReplaced(n, n', s, c') && (q == [] || q[0] != s)
    ensures IsBound(n', q) == IsBound(n, q) && Slot(n', q, zero) == Slot(n, q, zero)
  {
  }

  lemma DescendChanged<T(!new)>(n: Node<T>, n': Node<T>, s: Seg, c': Node<T>, p: Pattern, r: Stored<T>, zero: T)
    requires ChildReplaced(n, n', s, c') && p != [] && p[0] == s
    requires SlotChanged(OrEmpty(Child(n, s), zero), c', p[1..], r, zero)
    ensures SlotChanged(n, n', p, r, zero)
  {
    SlotBelow(n, p, zero);
    SlotBelow(n', p, zero);
    hide IsBound, Slot;
    forall q | q != p
      ensures IsBound(n', q) == IsBound(n, q) && Slot(n', q, zero) == Slot(n, q, zero)
    {
      if q != [] && q[0] == s {
        assert q == [s] + q[1..] && p == [s] + p[1..];
        SlotBelow(n, q, zero);
        SlotBelow(n', q, zero);
      } else {
        OthersUnaffected(n, n', s, c', q, zero);
      }
    }
  }

  lemma DescendUnchanged<T(!new)>(n: Node<T>, n': Node<T>, s: Seg, c': Node<T>, zero: T)
    requires ChildReplaced(n, n', s, c')
    requires SlotsUnchanged(OrEmpty(Child(n, s), zero), c', zero)
    ensures SlotsUnchanged(n, n', zero)
  {
    hide IsBound, Slot;
    forall q
      ensures IsBound(n', q) == IsBound(n, q) && Slot(n', q, zero) == Slot(n, q, zero)
    {
      if q != [] && q[0] == s {
        SlotBelow(n, q, zero);
        SlotBelow(n', q, zero);
      } else {
        OthersUnaffected(n, n', s, c', q, zero);
      }
    }
  }

  lemma ParseBelow(segs: seq<string>)
    requires segs != []
    ensures var p := Parse(segs);
      && p[0] == ParseSeg(segs[0]) && p[1..] == Parse(segs[1..])
      && (WellFormed(p) <==> WellFormed(p[1..]) && (p[0] != All || p[1..] == []))
  {
    var p := Parse(segs);
    assert forall k | 0 <= k < |p| - 1 :: p[1..][k] == p[k + 1];
    if WellFormed(p[1..]) && (p[0] != All || p[1..] == []) {
      forall k | 0 <= k < |p| - 1 ensures p[k] != All {
        assert k > 0 ==> p[k] == p[1..][k - 1];
      }
    }
  }

  /** What Set promises about the node it leaves behind. */
  ghost predicate SetMeaning<T(!new)>(n: Node<T>, r: (Node<T>, Outcome), p: Pattern, fn: SetFunc<T>, zero: T) {
    && WellShaped(r.0)
    && (r.1 == InvalidPattern <==> !WellFormed(p))
    && (!WellFormed(p) ==> SlotsUnchanged(n, r.0, zero))
    && (WellFormed(p) ==>
          var stored := fn(Slot(n, p, zero), IsBound(n, p));
          (r.1 == Done <==> stored.ok) && SlotChanged(n, r.0, p, stored, zero))
  }

  lemma MeaningBelow<T(!new)>(n: Node<T>, n': Node<T>, s: Seg, r: (Node<T>, Outcome), p: Pattern, fn: SetFunc<T>, zero: T)
    requires p != [] && p[0] == s && ChildReplaced(n, n', s, r.0) && WellShaped(n')
    requires WellFormed(p) <==> WellFormed(p[1..])
    requires SetMeaning(OrEmpty(Child(n, s), zero), r, p[1..], fn, zero)
    ensures SetMeaning(n, (n', r.1), p, fn, zero)
  {
    SlotBelow(n, p, zero);
    if WellFormed(p) {
      DescendChanged(n, n', s, r.0, p, fn(Slot(n, p, zero), IsBound(n, p)), zero);
    } else {
      DescendUnchanged(n, n', s, r.0, zero);
    }
  }

  lemma SetDescends<T(!new)>(n: Node<T>, segs: seq<string>, fn: SetFunc<T>, zero: T)
    requires WellShaped(n) && segs != [] && segs[0] != "#"
    ensures var s := ParseSeg(segs[0]);
      var r := SetAt(OrEmpty(Child(n, s), zero), segs[1..], fn, zero);
      var (n', out) := SetAt(n, segs, fn, zero);
      && out == r.1 && ChildReplaced(n, n', s, r.0)
      && WellShaped(OrEmpty(Child(n, s), zero))
      && (WellShaped(r.0) ==> WellShaped(n'))
  {
    var s, c' := ParseSeg(segs[0]), SetAt(OrEmpty(Child(n, ParseSeg(segs[0])), zero), segs[1..], fn, zero).0;
    assert ChildReplaced(n, SetAt(n, segs, fn, zero).0, s, c');
    hide SetAt;
    ShapedChild(n, s, zero);
    if WellShaped(c') {
      ShapedReplaced(n, SetAt(n, segs, fn, zero).0, s, c');
    }
  }

  lemma ShapedChild<T(!new)>(n: Node<T>, s: Seg, zero: T)
    requires WellShaped(n)
    ensures WellShaped(OrEmpty(Child(n, s), zero))
  {
  }

  lemma ShapedReplaced<T(!new)>(n: Node<T>, n': Node<T>, s: Seg, c': Node<T>)
    requires WellShaped(n) && WellShaped(c') && ChildReplaced(n, n', s, c')
    requires s != All && s != Lit("+") && s != Lit("#")
    ensures WellShaped(n')
  {
    forall t | Child(n', t).Some? ensures t == All || WellShaped(Child(n', t).value) {
      assert t != s ==> Child(n, t) == Child(n', t);
    }
    assert Child(n', Lit("+")) == Child(n, Lit("+")) && Child(n', Lit("#")) == Child(n, Lit("#"));
    assert Child(n', All) == Child(n, All);
    forall c | c in n'.children ensures WellShaped(n'.children[c]) {
      assert Child(n', Lit(c)) == Some(n'.children[c]);
    }
    assert Child(n', Any) == n'.matchAny;
  }

  lemma PutMeaning<T(!new)>(n: Node<T>, fn: SetFunc<T>, zero: T)
    requires WellShaped(n)
    ensures SetMeaning(n, Put(n, fn), [], fn, zero)
  {
  }

  /**
    Set refines the update of a flat map from patterns to slots: it touches the slot of its
    pattern and no other, whatever nodes it creates on the way.
   */
  lemma {:induction false} SetRefinesMap<T(!new)>(n: Node<T>, segs: seq<string>, fn: SetFunc<T>, zero: T)
    requires WellShaped(n)
    ensures SetMeaning(n, SetAt(n, segs, fn, zero), Parse(segs), fn, zero)
    decreases |segs|
  {
    if segs == [] {
      PutMeaning(n, fn, zero);
    } else {
      var s, r := ParseSeg(segs[0]), SetAt(n, segs, fn, zero);
      ParseBelow(segs);
      var c := OrEmpty(Child(n, s), zero);
      if segs[0] != "#" {
        SetDescends(n, segs, fn, zero);
        SetRefinesMap(c, segs[1..], fn, zero);
        MeaningBelow(n, r.0, s, SetAt(c, segs[1..], fn, zero), Parse(segs), fn, zero);
      } else if segs[1..] == [] {
        PutMeaning(c, fn, zero);
        MeaningBelow(n, r.0, s, Put(c, fn), Parse(segs), fn, zero);
      }
    }
  }

  // ---------------------------------------------------------------------------
  // Match
  // ---------------------------------------------------------------------------

  function Below<T>(s: Seg, h: Option<Hit<T>>): Option<Hit<T>> {
    match h
    case None => None
    case Some(hit) => Some(Hit([s] + hit.pattern, hit.value))
  }

  /** Greedy descent with backtracking: literal child, then `+`, then `#`. */
  function MatchAt<T>(n: Node<T>, segs: seq<string>): Option<Hit<T>>
    decreases |segs|
  {
    if segs == [] then
      if n.bound then Some(Hit([], n.value)) else None
    else
      var viaLit :=
        if segs[0] in n.children then Below(Lit(segs[0]), MatchAt(n.children[segs[0]], segs[1..])) else None;
      if viaLit.Some? then viaLit
      else
        var viaAny := if n.matchAny.Some? then Below(Any, MatchAt(n.matchAny.value, segs[1..])) else None;
        if viaAny.Some? then viaAny
        else if n.matchAll.Some? then Below(All, MatchAt(n.matchAll.value, []))
        else None
  }

  /** Nothing that is bound and matches does better than h; with no h, nothing matches at all. */
  ghost predicate Selects<T(!new)>(n: Node<T>, segs: seq<string>, h: Option<Hit<T>>) {
    match h
    case None => forall q :: IsBound(n, q) ==> !Matches(q, segs)
    case Some(hit) =>
      && IsBound(n, hit.pattern) && Matches(hit.pattern, segs)
      && Find(n, hit.pattern).value.value == hit.value
      && forall q :: IsBound(n, q) && Matches(q, segs) ==> q == hit.pattern || MoreSpecific(hit.pattern, q)
  }

  /** Candidates through child s: if Below is what that child selects, it beats all of them. */
  lemma SelectsBelow<T(!new)>(n: Node<T>, segs: seq<string>, s: Seg, q: Pattern)
    requires segs != [] && q != [] && q[0] == s && s != All && Child(n, s).Some?
    requires IsBound(n, q) && Matches(q, segs)
    requires Selects(Child(n, s).value, segs[1..], MatchAt(Child(n, s).value, segs[1..]))
    ensures var h := Below(s, MatchAt(Child(n, s).value, segs[1..]));
      h.Some? && (q == h.value.pattern || MoreSpecific(h.value.pattern, q))
  {
    var c := Child(n, s).value;
    assert IsBound(c, q[1..]) && Matches(q[1..], segs[1..]);
    var h := MatchAt(c, segs[1..]);
    assert q == [s] + q[1..];
    assert ([s] + h.value.pattern)[1..] == h.value.pattern;
  }

  lemma BelowIsHit<T(!new)>(n: Node<T>, segs: seq<string>, s: Seg)
    requires segs != [] && s != All && Child(n, s).Some? && (s.Lit? ==> s.name == segs[0])
    requires Selects(Child(n, s).value, segs[1..], MatchAt(Child(n, s).value, segs[1..]))
    ensures var h := Below(s, MatchAt(Child(n, s).value, segs[1..]));
      h.Some? ==>
        && IsBound(n, h.value.pattern) && Matches(h.value.pattern, segs)
        && Find(n, h.value.pattern).value.value == h.value.value
  {
    var h := MatchAt(Child(n, s).value, segs[1..]);
    if h.Some? {
      assert ([s] + h.value.pattern)[1..] == h.value.pattern;
    }
  }

  lemma AllIsLast<T(!new)>(n: Node<T>, segs: seq<string>, q: Pattern)
    requires segs != [] && IsBound(n, q) && Matches(q, segs) && q[0] == All
    ensures q == [All] && n.matchAll.Some?
    ensures Below(All, MatchAt(n.matchAll.value, [])) == Some(Hit(q, n.matchAll.value.value))
  {
    assert q == [q[0]] + q[1..] && q[1..] == [];
    assert Find(n, q) == Find(n.matchAll.value, []);
  }

  /** Match finds a bound pattern exactly when one matches, and then the most specific one. */
  lemma {:induction false} MatchSelects<T(!new)>(n: Node<T>, segs: seq<string>)
    requires WellShaped(n)
    ensures Selects(n, segs, MatchAt(n, segs))
    decreases |segs|
  {
    if segs != [] {
      var lit := Lit(segs[0]);
      if Child(n, lit).Some? {
        MatchSelects(Child(n, lit).value, segs[1..]);
        BelowIsHit(n, segs, lit);
      }
      if Child(n, Any).Some? {
        MatchSelects(n.matchAny.value, segs[1..]);
        BelowIsHit(n, segs, Any);
      }
      var h := MatchAt(n, segs);
      forall q | IsBound(n, q) && Matches(q, segs)
        ensures h.Some? && (q == h.value.pattern || MoreSpecific(h.value.pattern, q))
      {
        if q[0] == All {
          AllIsLast(n, segs, q);
        } else {
          SelectsBelow(n, segs, q[0], q);
        }
      }
      if h.Some? && h.value.pattern[0] == All {
        assert Find(n, [All]) == Find(n.matchAll.value, []);
      }
    } else {
      forall q | IsBound(n, q) && Matches(q, segs) ensures q == [] {
      }
    }
  }

  ghost predicate SameBindings<T(!new)>(n: Node<T>, n': Node<T>, zero: T) {
    && (forall q :: IsBound(n', q) == IsBound(n, q))
    && (forall q | IsBound(n, q) :: Slot(n', q, zero) == Slot(n, q, zero))
  }

  /** What a path selects depends on the bindings only, not on how the nodes are laid out. */
  lemma MatchDependsOnBindings<T(!new)>(n: Node<T>, n': Node<T>, segs: seq<string>, zero: T)
    requires WellShaped(n) && WellShaped(n') && SameBindings(n, n', zero)
    ensures MatchAt(n', segs) == MatchAt(n, segs)
  {
    MatchSelects(n, segs);
    MatchSelects(n', segs);
    var h, h' := MatchAt(n, segs), MatchAt(n', segs);
    if h.Some? && h'.Some? {
      MoreSpecificStrict(h.value.pattern, h'.value.pattern);
      assert Slot(n', h.value.pattern, zero) == Slot(n, h.value.pattern, zero);
    }
  }

  /**
    A Set that fails leaves every binding, and so every match, as it was, unless the store
    function has overwritten a bound slot before it reported its error.
   */
  lemma FailedSet<T(!new)>(n: Node<T>, segs: seq<string>, fn: SetFunc<T>, zero: T)
    requires WellShaped(n) && SetAt(n, segs, fn, zero).1 != Done
    ensures var n', p := SetAt(n, segs, fn, zero).0, Parse(segs);
      var overwritten := WellFormed(p) && IsBound(n, p) && fn(Slot(n, p, zero), true).value != Slot(n, p, zero);
      && (SameBindings(n, n', zero) <==> !overwritten)
      && (!overwritten ==> forall path :: MatchAt(n', path) == MatchAt(n, path))
  {
    SetRefinesMap(n, segs, fn, zero);
    var n', p := SetAt(n, segs, fn, zero).0, Parse(segs);
    if SameBindings(n, n', zero) {
      forall path ensures MatchAt(n', path) == MatchAt(n, path) {
        MatchDependsOnBindings(n, n', path, zero);
      }
    }
  }

  lemma {:induction false} LiteralBest(p: Pattern, q: Pattern)
    requires forall k | 0 <= k < |p| :: p[k].Lit?
    ensures !MoreSpecific(q, p)
    decreases |p|
  {
    if p != [] && q != [] {
      LiteralBest(p[1..], q[1..]);
    }
  }

  lemma {:induction false} LiteralMatchesItself(segs: seq<string>)
    requires "+" !in segs && "#" !in segs
    ensures Matches(Parse(segs), segs) && WellFormed(Parse(segs))
    ensures forall k | 0 <= k < |segs| :: Parse(segs)[k] == Lit(segs[k])
  {
    if segs != [] {
      ParseBelow(segs);
      assert forall k | 0 <= k < |segs[1..]| :: segs[1..][k] in segs;
      LiteralMatchesItself(segs[1..]);
      assert segs[0] in segs;
      forall k | 0 <= k < |segs| ensures Parse(segs)[k] == Lit(segs[k]) {
        assert k > 0 ==> Parse(segs)[k] == Parse(segs[1..])[k - 1];
      }
    }
  }

  /** A value stored at a path without wildcards is what that path finds, whatever else is stored. */
  lemma SetThenGet<T(!new)>(n: Node<T>, segs: seq<string>, fn: SetFunc<T>, zero: T)
    requires WellShaped(n) && "+" !in segs && "#" !in segs
    requires SetAt(n, segs, fn, zero).1 == Done
    ensures MatchAt(SetAt(n, segs, fn, zero).0, segs)
         == Some(Hit(Parse(segs), fn(Slot(n, Parse(segs), zero), IsBound(n, Parse(segs))).value))
  {
    var n', p := SetAt(n, segs, fn, zero).0, Parse(segs);
    SetRefinesMap(n, segs, fn, zero);
    LiteralMatchesItself(segs);
    MatchSelects(n', segs);
    var h := MatchAt(n', segs);
    assert IsBound(n', p) && Matches(p, segs);
    LiteralBest(p, h.value.pattern);
    assert Slot(n', p, zero) == Find(n', p).value.value;
  }

  // ---------------------------------------------------------------------------
  // Bound patterns
  // ---------------------------------------------------------------------------

  function Prefixed(s: Seg, ps: set<Pattern>): set<Pattern> {
    set p | p in ps :: [s] + p
  }

  /** All bound patterns. */
  ghost function BoundSet<T>(n: Node<T>): set<Pattern> {
    (if n.bound then {[]} else {})
    + (set c, p | c in n.children && p in BoundSet(n.children[c]) :: [Lit(c)] + p)
    + (if n.matchAny.Some? then Prefixed(Any, BoundSet(n.matchAny.value)) else {})
    + (if n.matchAll.Some? then Prefixed(All, BoundSet(n.matchAll.value)) else {})
  }

  lemma BoundSetStep<T>(n: Node<T>, p: Pattern)
    ensures p in BoundSet(n) <==>
      if p == [] then n.bound else Child(n, p[0]).Some? && p[1..] in BoundSet(Child(n, p[0]).value)
  {
    if p != [] {
      assert p == [p[0]] + p[1..];
      if n.matchAny.Some? {
        InPrefixed(Any, BoundSet(n.matchAny.value), p);
      }
      if n.matchAll.Some? {
        InPrefixed(All, BoundSet(n.matchAll.value), p);
      }
      hide Prefixed;
      assert forall c, q: Pattern :: ([Lit(c)] + q)[0] == Lit(c) && ([Lit(c)] + q)[1..] == q;
    }
  }

  lemma InPrefixed(s: Seg, ps: set<Pattern>, p: Pattern)
    requires p != []
    ensures p in Prefixed(s, ps) <==> p[0] == s && p[1..] in ps
  {
    assert p == [p[0]] + p[1..];
    assert forall q: Pattern :: ([s] + q)[0] == s && ([s] + q)[1..] == q;
  }

  lemma {:induction false} BoundSetIsBound<T>(n: Node<T>, p: Pattern)
    ensures p in BoundSet(n) <==> IsBound(n, p)
    decreases |p|
  {
    hide BoundSet;
    BoundSetStep(n, p);
    if p != [] && Child(n, p[0]).Some? {
      BoundSetIsBound(Child(n, p[0]).value, p[1..]);
    }
  }

  lemma {:induction false} PrefixedCount(s: Seg, ps: set<Pattern>)
    ensures |Prefixed(s, ps)| == |ps|
  {
    if p :| p in ps {
      PrefixedCount(s, ps - {p});
      assert Prefixed(s, ps) == Prefixed(s, ps - {p}) + {[s] + p};
      assert [s] + p !in Prefixed(s, ps - {p}) by {
        assert forall q: Pattern :: ([s] + q)[1..] == q;
      }
    }
  }

  // ---------------------------------------------------------------------------
  // Walking
  // ---------------------------------------------------------------------------

  datatype Visit<T> = Visit(pattern: Pattern, value: T, bound: bool)

  function BoundCount<T>(visits: seq<Visit<T>>): nat {
    if visits == [] then 0
    else BoundCount(visits[..|visits| - 1]) + if visits[|visits| - 1].bound then 1 else 0
  }

  ghost function BoundVisits<T>(visits: seq<Visit<T>>): set<Pattern> {
    set v | v in visits && v.bound :: v.pattern
  }

  function Under(path: Pattern, ps: set<Pattern>): set<Pattern> {
    set p | p in ps :: path + p
  }

  /** visits reports each pattern of ps, moved below path, exactly once as bound. */
  ghost predicate Reports<T>(visits: seq<Visit<T>>, path: Pattern, ps: set<Pattern>) {
    BoundVisits(visits) == Under(path, ps) && BoundCount(visits) == |ps|
  }

  /** Every visit tells what its node, found below path, holds. */
  ghost predicate Genuine<T>(visits: seq<Visit<T>>, path: Pattern, n: Node<T>) {
    forall v | v in visits ::
      && path <= v.pattern
      && var m := Find(n, v.pattern[|path|..]);
      && m.Some? && v.value == m.value.value && v.bound == m.value.bound
  }

  lemma GenuineBelow<T>(visits: seq<Visit<T>>, path: Pattern, n: Node<T>, s: Seg)
    requires Child(n, s).Some? && Genuine(visits, path + [s], Child(n, s).value)
    ensures Genuine(visits, path, n)
  {
    forall v | v in visits
      ensures path <= v.pattern
      ensures var m := Find(n, v.pattern[|path|..]); m.Some? && v.value == m.value.value && v.bound == m.value.bound
    {
      var q := v.pattern[|path|..];
      assert q[0] == (path + [s])[|path|] == s && q[1..] == v.pattern[|path + [s]|..];
    }
  }

  lemma NothingGenuine<T>(path: Pattern, n: Node<T>)
    ensures Genuine([], path, n)
  {
  }

  lemma GenuineHere<T>(path: Pattern, n: Node<T>)
    ensures Genuine([Visit(path, n.value, n.bound)], path, n)
  {
    assert path[|path|..] == [];
  }

  lemma GenuineJoin<T>(a: seq<Visit<T>>, b: seq<Visit<T>>, path: Pattern, n: Node<T>)
    requires Genuine(a, path, n) && Genuine(b, path, n)
    ensures Genuine(a + b, path, n)
  {
    hide Find;
  }

  lemma {:induction false} BoundCountAppend<T>(a: seq<Visit<T>>, b: seq<Visit<T>>)
    ensures BoundCount(a + b) == BoundCount(a) + BoundCount(b)
  {
    if b == [] {
      assert a + b == a;
    } else {
      var front := b[..|b| - 1];
      assert (a + b)[..|a + b| - 1] == a + front;
      BoundCountAppend(a, front);
    }
  }

  lemma ReportsUnion<T>(a: seq<Visit<T>>, b: seq<Visit<T>>, path: Pattern, s: Seg, ps: set<Pattern>, qs: set<Pattern>)
    requires Reports(a, path, ps) && Reports(b, path + [s], qs)
    requires ps !! Prefixed(s, qs)
    ensures Reports(a + b, path, ps + Prefixed(s, qs))
  {
    BoundCountAppend(a, b);
    PrefixedCount(s, qs);
    UnderPrefixed(path, s, qs);
    assert BoundVisits(a + b) == BoundVisits(a) + BoundVisits(b);
    assert Under(path, ps + Prefixed(s, qs)) == Under(path, ps) + Under(path, Prefixed(s, qs));
  }

  lemma UnderPrefixed(path: Pattern, s: Seg, qs: set<Pattern>)
    ensures Under(path, Prefixed(s, qs)) == Under(path + [s], qs)
  {
    forall q: Pattern ensures path + ([s] + q) == path + [s] + q {
    }
    forall x ensures x in Under(path, Prefixed(s, qs)) <==> x in Under(path + [s], qs) {
      if x in Under(path + [s], qs) {
        var q :| q in qs && path + [s] + q == x;
        assert [s] + q in Prefixed(s, qs) && path + ([s] + q) == x;
      }
    }
  }

  lemma ReportsNothing<T>(path: Pattern)
    ensures Reports<T>([], path, {})
  {
  }

  /** The bound patterns that start with one of the given literals. */
  ghost function Via<T>(n: Node<T>, names: set<string>): set<Pattern> {
    set c, p | c in names && c in n.children && p in BoundSet(n.children[c]) :: [Lit(c)] + p
  }

  lemma ViaGrows<T>(n: Node<T>, names: set<string>, c: string)
    requires c in n.children && c !in names
    ensures Via(n, names + {c}) == Via(n, names) + Prefixed(Lit(c), BoundSet(n.children[c]))
    ensures Via(n, names) !! Prefixed(Lit(c), BoundSet(n.children[c]))
  {
    assert forall s: Seg, q: Pattern :: ([s] + q)[0] == s;
  }

  ghost function ViaAny<T>(n: Node<T>): set<Pattern> {
    if n.matchAny.Some? then Prefixed(Any, BoundSet(n.matchAny.value)) else {}
  }

  ghost function ViaAll<T>(n: Node<T>): set<Pattern> {
    if n.matchAll.Some? then Prefixed(All, BoundSet(n.matchAll.value)) else {}
  }

  lemma BoundSetParts<T>(n: Node<T>)
    ensures BoundSet(n) == Via(n, n.children.Keys) + ViaAny(n) + ViaAll(n) + (if n.bound then {[]} else {})
  {
  }

  lemma PartsDisjoint<T>(n: Node<T>)
    ensures Via(n, n.children.Keys) !! ViaAny(n) && (Via(n, n.children.Keys) + ViaAny(n)) !! ViaAll(n)
    ensures [] !in Via(n, n.children.Keys) + ViaAny(n) + ViaAll(n)
  {
    hide BoundSet;
    assert forall s: Seg, q: Pattern :: ([s] + q)[0] == s;
  }

  lemma UnderGrows(path: Pattern, ps: set<Pattern>)
    ensures Under(path, ps + {[]}) == Under(path, ps) + {path}
  {
    assert path + [] == path;
  }

  lemma BoundVisitsAppend<T>(a: seq<Visit<T>>, v: Visit<T>)
    ensures BoundVisits(a + [v]) == BoundVisits(a) + if v.bound then {v.pattern} else {}
    ensures BoundCount(a + [v]) == BoundCount(a) + if v.bound then 1 else 0
  {
    assert (a + [v])[..|a|] == a;
  }

  lemma ReportsHere<T>(a: seq<Visit<T>>, path: Pattern, ps: set<Pattern>, v: Visit<T>)
    requires Reports(a, path, ps) && [] !in ps && v.pattern == path
    ensures Reports(a + [v], path, ps + if v.bound then {[]} else {})
  {
    BoundVisitsAppend(a, v);
    UnderGrows(path, ps);
    hide Under, BoundVisits, BoundCount;
    if !v.bound {
      assert ps + {} == ps;
    }
  }

  lemma WalkStart<T>(n: Node<T>, path: Pattern)
    ensures Reports<T>([], path, Via(n, {}))
  {
    ReportsNothing<T>(path);
    assert Via(n, {}) == {};
  }

  lemma WalkStep<T>(n: Node<T>, a: seq<Visit<T>>, b: seq<Visit<T>>, path: Pattern, done: set<string>, c: string)
    requires c in n.children && c !in done
    requires Reports(a, path, Via(n, done)) && Reports(b, path + [Lit(c)], BoundSet(n.children[c]))
    ensures Reports(a + b, path, Via(n, done + {c}))
  {
    ViaGrows(n, done, c);
    ReportsUnion(a, b, path, Lit(c), Via(n, done), BoundSet(n.children[c]));
  }

  lemma WalkWildcards<T>(n: Node<T>, a: seq<Visit<T>>, any: seq<Visit<T>>, all: seq<Visit<T>>, path: Pattern)
    requires Reports(a, path, Via(n, n.children.Keys))
    requires if n.matchAny.Some? then Reports(any, path + [Any], BoundSet(n.matchAny.value)) else any == []
    requires if n.matchAll.Some? then Reports(all, path + [All], BoundSet(n.matchAll.value)) else all == []
    ensures Reports(a + any + all + [Visit(path, n.value, n.bound)], path, BoundSet(n))
  {
    PartsDisjoint(n);
    BoundSetParts(n);
    var seen := Via(n, n.children.Keys);
    hide Reports, Via, BoundSet;
    assert Reports(a + any, path, seen + ViaAny(n)) by {
      if n.matchAny.Some? {
        ReportsUnion(a, any, path, Any, seen, BoundSet(n.matchAny.value));
      } else {
        assert a + any == a && seen + ViaAny(n) == seen;
      }
    }
    assert Reports(a + any + all, path, seen + ViaAny(n) + ViaAll(n)) by {
      if n.matchAll.Some? {
        ReportsUnion(a + any, all, path, All, seen + ViaAny(n), BoundSet(n.matchAll.value));
      } else {
        assert a + any + all == a + any && seen + ViaAny(n) + ViaAll(n) == seen + ViaAny(n);
      }
    }
    hide ViaAny, ViaAll;
    ReportsHere(a + any + all, path, seen + ViaAny(n) + ViaAll(n), Visit(path, n.value, n.bound));
  }

  lemma WalkGenuine<T>(n: Node<T>, a: seq<Visit<T>>, any: seq<Visit<T>>, all: seq<Visit<T>>, path: Pattern)
    requires Genuine(a, path, n)
    requires if n.matchAny.Some? then Genuine(any, path + [Any], n.matchAny.value) else any == []
    requires if n.matchAll.Some? then Genuine(all, path + [All], n.matchAll.value) else all == []
    ensures Genuine(a + any + all + [Visit(path, n.value, n.bound)], path, n)
  {
    hide Genuine;
    NothingGenuine(path, n);
    if n.matchAny.Some? {
      GenuineBelow(any, path, n, Any);
    }
    if n.matchAll.Some? {
      GenuineBelow(all, path, n, All);
    }
    GenuineHere(path, n);
    GenuineJoin(a, any, path, n);
    GenuineJoin(a + any, all, path, n);
    GenuineJoin(a + any + all, [Visit(path, n.value, n.bound)], path, n);
  }
}

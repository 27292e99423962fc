/**
  Paths, patterns and matching, without any trie: which patterns match a path, which of two
  matching patterns is the more specific, and how path strings split into segments.
 */
module TriePatterns {

  import opened Strings

  datatype Seg = Lit(name: string) | Any | All

  type Pattern = seq<Seg>

  // ---------------------------------------------------------------------------
  // Strings
  // ---------------------------------------------------------------------------

  /** The segments of a path; a trailing slash adds none, an empty path has none. */
  function Segments(path: string): seq<string>
    decreases |path|
  {
    if path == "" then [] else [Before(path, '/')] + Segments(After(path, '/'))
  }

  lemma NothingToJoin()
    ensures Join([], '/') == "" && Plain([], '/')
  {
  }

  /** Splitting loses nothing but a trailing slash. */
  lemma {:induction false} JoinSegments(path: string)
    ensures Plain(Segments(path), '/')
    ensures path == Join(Segments(path), '/') || path == Join(Segments(path), '/') + "/"
    ensures path != "" ==> Segments(path) != []
    decreases |path|
  {
    hide IndexByte, Join, Plain;
    NothingToJoin();
    if path != "" {
      var s, rest := Before(path, '/'), After(path, '/');
      SplitOnce(path, '/');
      JoinSegments(rest);
      JoinCons(s, Segments(rest), '/');
      var j := Join(Segments(rest), '/');
      assert s + ("/" + (j + "/")) == s + ("/" + j) + "/";
    }
  }

  /** Every list of plain segments is the split of a path, unless it ends in an empty segment. */
  lemma {:induction false} SegmentsJoin(segs: seq<string>)
    requires Plain(segs, '/') && (segs != [] ==> segs[|segs| - 1] != "")
    ensures Segments(Join(segs, '/')) == segs
  {
    if |segs| == 1 {
      CutAt(segs[0], '/', "");
      assert Segments("") == [];
    } else if |segs| > 1 {
      CutAt(segs[0], '/', Join(segs[1..], '/'));
      SegmentsJoin(segs[1..]);
    }
  }

  function ParseSeg(s: string): Seg {
    if s == "+" then Any else if s == "#" then All else Lit(s)
  }

  function Parse(segs: seq<string>): (p: Pattern)
    ensures |p| == |segs|
  {
    if segs == [] then [] else [ParseSeg(segs[0])] + Parse(segs[1..])
  }

  function Name(s: Seg): string {
    match s
    case Lit(name) => name
    case Any => "+"
    case All => "#"
  }

  /** The route string of a pattern: a slash before every segment. */
  function Route(p: Pattern): string {
    if p == [] then "" else "/" + Name(p[0]) + Route(p[1..])
  }

  /** A name that stands for itself in a path. */
  predicate Ordinary(s: Seg) {
    s.Lit? ==> s.name != "+" && s.name != "#" && '/' !in s.name
  }

  lemma OneName(name: string, tail: string)
    requires '/' !in name
    ensures Segments(name + (['/'] + tail)) == [name] + Segments(tail)
    ensures name != "" ==> Segments(name) == [name]
  {
    CutAt(name, '/', tail);
    assert Segments("") == [];
  }

  lemma NameReadsBack(s: Seg, segs: seq<string>)
    requires Ordinary(s)
    ensures '/' !in Name(s) && (s != Lit("") ==> Name(s) != "")
    ensures Parse([Name(s)] + segs) == [s] + Parse(segs)
  {
    assert ([Name(s)] + segs)[1..] == segs;
  }

  lemma RouteStep(p: Pattern)
    requires p != []
    ensures Route(p) != "" && Route(p)[0] == '/' && Route(p)[1..] == Name(p[0]) + Route(p[1..])
  {
    var name, rest := Name(p[0]), Route(p[1..]);
    assert Route(p) == "/" + name + rest;
    hide Route, Name;
    Slash(name, rest);
  }

  lemma Slash(name: string, rest: string)
    ensures "/" + name + rest == ['/'] + (name + rest) && ("/" + name + rest)[1..] == name + rest
  {
  }

  lemma RouteOfOne(p: Pattern)
    requires |p| == 1 && Ordinary(p[0]) && p[0] != Lit("")
    ensures Parse(Segments(Route(p)[1..])) == p
  {
    hide Segments, Name, Ordinary;
    RouteStep(p);
    var name := Name(p[0]);
    assert Route(p[1..]) == "" && name + "" == name;
    NameReadsBack(p[0], []);
    OneName(name, "");
    assert [name] + [] == [name] && p == [p[0]] + [] && Parse([]) == [];
  }

  /** A route reads back as its pattern, unless its last name is empty. */
  lemma {:induction false} RouteReadsBack(p: Pattern)
    requires p != [] && (forall k | 0 <= k < |p| :: Ordinary(p[k])) && p[|p| - 1] != Lit("")
    ensures Route(p) != "" && Route(p)[0] == '/' && Parse(Segments(Route(p)[1..])) == p
  {
    hide Segments, Name, Ordinary;
    RouteStep(p);
    var name, rest := Name(p[0]), Route(p[1..]);
    if |p| == 1 {
      RouteOfOne(p);
    } else {
      hide Parse, Route;
      RouteReadsBack(p[1..]);
      NameReadsBack(p[0], Segments(rest[1..]));
      OneName(name, rest[1..]);
      assert rest == ['/'] + rest[1..];
      assert p == [p[0]] + p[1..];
    }
  }

  /** A multi-level wildcard may only stand last. */
  predicate WellFormed(p: Pattern) {
    forall k | 0 <= k < |p| - 1 :: p[k] != All
  }

  // ---------------------------------------------------------------------------
  // Matching
  // ---------------------------------------------------------------------------

  /** `#` stands for one or more remaining segments, `+` for exactly one. */
  predicate Matches(p: Pattern, segs: seq<string>) {
    if segs == [] then p == []
    else
      && p != []
      && match p[0]
         case Lit(name) => name == segs[0] && Matches(p[1..], segs[1..])
         case Any => Matches(p[1..], segs[1..])
         case All => |p| == 1
  }

  function Rank(s: Seg): nat {
    match s
    case Lit(_) => 0
    case Any => 1
    case All => 2
  }

  /** At the first segment where they differ, p ranks before q. */
  predicate MoreSpecific(p: Pattern, q: Pattern) {
    && p != [] && q != []
    && (Rank(p[0]) < Rank(q[0]) || (p[0] == q[0] && MoreSpecific(p[1..], q[1..])))
  }

  lemma {:induction false} MoreSpecificStrict(p: Pattern, q: Pattern)
    ensures !MoreSpecific(p, p)
    ensures !(MoreSpecific(p, q) && MoreSpecific(q, p))
    decreases |p|
  {
    if p != [] {
      MoreSpecificStrict(p[1..], if q == [] then [] else q[1..]);
    }
  }

  lemma {:induction false} MoreSpecificTransitive(p: Pattern, q: Pattern, r: Pattern)
    requires MoreSpecific(p, q) && MoreSpecific(q, r)
    ensures MoreSpecific(p, r)
    decreases |p|
  {
    if p[0] == q[0] == r[0] {
      MoreSpecificTransitive(p[1..], q[1..], r[1..]);
    }
  }

  /** Of two different patterns that match one path, one is the more specific. */
  lemma {:induction false} MatchingComparable(p: Pattern, q: Pattern, segs: seq<string>)
    requires Matches(p, segs) && Matches(q, segs) && p != q
    ensures MoreSpecific(p, q) || MoreSpecific(q, p)
    decreases |segs|
  {
    if segs != [] && p[0] == q[0] {
      assert p == [p[0]] + p[1..] && q == [q[0]] + q[1..];
      if p[0] != All {
        MatchingComparable(p[1..], q[1..], segs[1..]);
      }
    }
  }

  /** Among the patterns that match a path, being more specific is a strict total order. */
  lemma SpecificityOrders(p: Pattern, q: Pattern, r: Pattern, segs: seq<string>)
    requires Matches(p, segs) && Matches(q, segs) && Matches(r, segs)
    ensures MoreSpecific(p, q) && MoreSpecific(q, r) ==> MoreSpecific(p, r)
    ensures !MoreSpecific(p, p)
    ensures p != q ==> (MoreSpecific(p, q) <==> !MoreSpecific(q, p))
  {
    MoreSpecificStrict(p, q);
    if MoreSpecific(p, q) && MoreSpecific(q, r) {
      MoreSpecificTransitive(p, q, r);
    }
    if p != q {
      MatchingComparable(p, q, segs);
    }
  }
}

/** The linked trie: nodes changed in place, each tied to the value of the subtree below it. */
module Trie {
  import opened Basics
  import opened Strings
  import opened TriePatterns
  import opened TrieModel

  class Trie<T(!new)> {
    const zero: T
    var children: map<string, Trie<T>>
    var matchAny: Trie?<T>
    var matchAll: Trie?<T>
    var bound: bool
    var value: T

    /** The nodes of this subtree, and its value. */
    ghost var Repr: set<object>
    ghost var view: Node<T>

    function Kid(s: Seg): Trie?<T>
      reads this
    {
      match s
      case Lit(name) => if name in children then children[name] else null
      case Any => matchAny
      case All => matchAll
    }

    /** sub hangs below this node and is a valid trie of its own. */
    ghost predicate Sub(sub: Trie<T>)
      reads this, Repr
      decreases Repr, 0
    {
      && this in Repr && sub in Repr && sub.Repr <= Repr && this !in sub.Repr && sub in sub.Repr
      && sub.zero == zero && sub.Valid()
    }

    ghost predicate Valid()
      reads this, Repr
      decreases Repr, 1
    {
      && this in Repr
      && (forall s | Kid(s) != null :: Sub(Kid(s)))
      && (forall s, t | s != t && Kid(s) != null && Kid(t) != null :: Kid(s).Repr !! Kid(t).Repr)
      && (forall s :: Kid(s) == null ==> Child(view, s) == None)
      && (forall s | Kid(s) != null :: Child(view, s) == Some(Kid(s).view))
      && view.bound == bound && view.value == value
    }

    constructor (zero: T)
      ensures Valid() && fresh(Repr) && view == Empty(zero) && this.zero == zero
    {
      this.zero := zero;
      children, matchAny, matchAll, bound, value := map[], null, null, false, zero;
      Repr := {this};
      view := Empty(zero);
    }

    /** A node stays valid when one child has changed and the others have been left alone. */
    twostate lemma StaysValid(s: Seg, new sub: Trie<T>)
      requires old(Valid())
      requires Kid(s) == sub && sub.Valid() && sub.zero == zero && sub in sub.Repr
      requires forall t | t != s :: Kid(t) == old(Kid(t))
      requires this !in sub.Repr
      requires forall o | o in sub.Repr && old(allocated(o)) :: old(Kid(s) != null && o in Kid(s).Repr)
      requires forall o | o in old(Repr) && o != this && !(old(Kid(s)) != null && o in old(Kid(s).Repr)) :: unchanged(o)
      requires Repr == old(Repr) + sub.Repr
      requires Child(view, s) == Some(sub.view) && forall t | t != s :: Child(view, t) == old(Child(view, t))
      requires view.bound == bound && view.value == value
      ensures Valid()
    {
      forall t | t != s && Kid(t) != null
        ensures Sub(Kid(t)) && Kid(t).view == old(Kid(t).view) && Kid(t).Repr == old(Kid(t).Repr) && Kid(t).Repr !! sub.Repr
      {
        var k := Kid(t);
        assert old(Sub(k));
        assert unchanged(old(k.Repr));
      }
    }

    /** ... and when only its own slot has changed. */
    twostate lemma KidsUntouched()
      requires old(Valid()) && Repr == old(Repr)
      requires forall t :: Kid(t) == old(Kid(t)) && Child(view, t) == old(Child(view, t))
      requires forall t | old(Kid(t)) != null :: unchanged(old(Kid(t).Repr))
      requires view.bound == bound && view.value == value
      ensures Valid()
    {
      forall t | Kid(t) != null
        ensures Sub(Kid(t)) && Kid(t).view == old(Kid(t).view) && Kid(t).Repr == old(Kid(t).Repr)
      {
        assert old(Sub(Kid(t)));
      }
    }

    method SetHere(fn: SetFunc<T>) returns (out: Outcome)
      requires Valid()
      modifies this
      ensures Valid() && Repr == old(Repr)
      ensures (view, out) == Put(old(view), fn)
    {
      var r := fn(value, bound);
      value := r.value;
      if r.ok {
        bound := true;
      }
      out := if r.ok then Done else FuncFailed;
      view := Put(view, fn).0;
      KidsUntouched();
    }

    method SetInChild(first: string, subseq: string, fn: SetFunc<T>) returns (out: Outcome)
      requires Valid() && first in children
      modifies Repr
      ensures Valid() && fresh(Repr - old(Repr))
      ensures first in old(view.children)
      ensures var r := SetAt(old(view.children[first]), Segments(subseq), fn, zero);
        out == r.1 && view == old(view).(children := old(view.children)[first := r.0])
      decreases |subseq|, 1
    {
      var ch := children[first];
      assert Kid(Lit(first)) == ch && Sub(ch);
      out := ch.Set(subseq, fn);
      Repr := Repr + ch.Repr;
      view := view.(children := view.children[first := ch.view]);
      StaysValid(Lit(first), ch);
    }

    method SetInAny(subseq: string, fn: SetFunc<T>) returns (out: Outcome)
      requires Valid()
      modifies Repr
      ensures Valid() && fresh(Repr - old(Repr))
      ensures var r := SetAt(OrEmpty(old(view.matchAny), zero), Segments(subseq), fn, zero);
        out == r.1 && view == old(view).(matchAny := Some(r.0))
      decreases |subseq|, 2
    {
      WildcardFacts();
      hide SetAt, Segments, Valid;
      if matchAny == null {
        AddAny();
      }
      out := SetBelowAny(subseq, fn);
    }

    method AddAny()
      requires Valid() && matchAny == null
      modifies this
      ensures Valid() && fresh(Repr - old(Repr)) && this in Repr
      ensures matchAny != null && view == old(view).(matchAny := Some(Empty(zero)))
    {
      matchAny := new Trie(zero);
      Repr := Repr + matchAny.Repr;
      view := view.(matchAny := Some(matchAny.view));
      StaysValid(Any, matchAny);
    }

    method SetBelowAny(subseq: string, fn: SetFunc<T>) returns (out: Outcome)
      requires Valid() && matchAny != null
      modifies Repr
      ensures Valid() && fresh(Repr - old(Repr))
      ensures old(view).matchAny.Some?
      ensures var r := SetAt(old(view).matchAny.value, Segments(subseq), fn, zero);
        out == r.1 && view == old(view).(matchAny := Some(r.0))
      decreases |subseq|, 1
    {
      hide SetAt, Put, WellShaped, Segments;
      assert matchAny == Kid(Any) && Sub(matchAny);
      out := matchAny.Set(subseq, fn);
      Repr := Repr + matchAny.Repr;
      view := view.(matchAny := Some(matchAny.view));
      StaysValid(Any, matchAny);
    }

    method SetInAll(fn: SetFunc<T>) returns (out: Outcome)
      requires Valid()
      modifies Repr
      ensures Valid() && fresh(Repr - old(Repr))
      ensures var r := Put(OrEmpty(old(view.matchAll), zero), fn);
        out == r.1 && view == old(view).(matchAll := Some(r.0))
    {
      WildcardFacts();
      hide Put, Valid;
      if matchAll == null {
        AddAll();
      }
      out := SetBelowAll(fn);
    }

    method AddAll()
      requires Valid() && matchAll == null
      modifies this
      ensures Valid() && fresh(Repr - old(Repr)) && this in Repr
      ensures matchAll != null && view == old(view).(matchAll := Some(Empty(zero)))
    {
      matchAll := new Trie(zero);
      Repr := Repr + matchAll.Repr;
      view := view.(matchAll := Some(matchAll.view));
      StaysValid(All, matchAll);
    }

    method SetBelowAll(fn: SetFunc<T>) returns (out: Outcome)
      requires Valid() && matchAll != null
      modifies Repr
      ensures Valid() && fresh(Repr - old(Repr))
      ensures old(view).matchAll.Some?
      ensures var r := Put(old(view).matchAll.value, fn);
        out == r.1 && view == old(view).(matchAll := Some(r.0))
    {
      hide SetAt, Put, WellShaped, Segments;
      assert matchAll == Kid(All) && Sub(matchAll);
      out := matchAll.SetHere(fn);
      Repr := Repr + matchAll.Repr;
      view := view.(matchAll := Some(matchAll.view));
      StaysValid(All, matchAll);
    }

    method SetInNew(first: string, subseq: string, fn: SetFunc<T>) returns (out: Outcome)
      requires Valid() && first !in children
      modifies Repr
      ensures Valid() && fresh(Repr - old(Repr))
      ensures var r := SetAt(Empty(zero), Segments(subseq), fn, zero);
        out == r.1 && view == old(view).(children := old(view.children)[first := r.0])
      decreases |subseq|, 1
    {
      hide SetAt, Put, WellShaped, Segments;
      var ch := new Trie(zero);
      out := ch.Set(subseq, fn);
      children := children[first := ch];
      Repr := Repr + ch.Repr;
      view := view.(children := view.children[first := ch.view]);
      StaysValid(Lit(first), ch);
    }

    /** The lookup in the live map agrees with the subtree's value. */
    lemma ChildrenAgree(first: string)
      requires Valid()
      ensures first in children <==> first in view.children
    {
      assert Kid(Lit(first)) == null || Kid(Lit(first)) != null;
    }

    method Set(path: string, fn: SetFunc<T>) returns (out: Outcome)
      requires Valid()
      modifies Repr
      ensures Valid() && fresh(Repr - old(Repr))
      ensures (view, out) == SetAt(old(view), Segments(path), fn, zero)
      decreases |path|, 0
    {
      assert this in Repr;
      if |path| == 0 {
        out := SetHere(fn);
        return;
      }
      var first, subseq := Before(path, '/'), After(path, '/');
      ChildrenAgree(first);
      hide Valid;
      assert Segments(path)[0] == first && Segments(path)[1..] == Segments(subseq);
      if first in children {
        out := SetInChild(first, subseq, fn);
      } else if first == "+" {
        out := SetInAny(subseq, fn);
      } else if first == "#" {
        if |subseq| != 0 {
          assert Segments(subseq) != [];
          return InvalidPattern;
        }
        out := SetInAll(fn);
      } else {
        out := SetInNew(first, subseq, fn);
      }
    }

    /** The route and value that a path selects; matched is the route so far. */
    function MatchFrom(matched: string, path: string): (r: Option<(string, T)>)
      requires Valid()
      reads this, Repr
      ensures r == Routed(matched, MatchAt(view, Segments(path)))
      decreases |path|
    {
      SegmentsStep(path);
      if |path| == 0 then
        assert matched + Route([]) == matched;
        if bound then Some((matched, value)) else None
      else
        var first, subseq := Before(path, '/'), After(path, '/');
        ChildrenAgree(first);
        assert matchAny == Kid(Any) && matchAll == Kid(All);
        var viaLit := if first in children then
                        assert Kid(Lit(first)) == children[first] && Sub(children[first]);
                        children[first].MatchFrom(matched + "/" + first, subseq)
                      else None;
        if viaLit.Some? then
          RoutedBelow(matched, Lit(first), MatchAt(view.children[first], Segments(subseq)));
          viaLit
        else
          var viaAny := if matchAny != null then
                          assert Sub(matchAny);
                          RoutedBelow(matched, Any, MatchAt(matchAny.view, Segments(subseq)));
                          matchAny.MatchFrom(matched + "/+", subseq)
                        else None;
          if viaAny.Some? then viaAny
          else if matchAll != null then
            assert Sub(matchAll);
            RoutedBelow(matched, All, MatchAt(matchAll.view, []));
            matchAll.MatchFrom(matched + "/#", "")
          else None
    }

    lemma ChildFacts(c: string)
      requires Valid() && c in children
      ensures children[c].Valid() && children[c].Repr < Repr
      ensures c in view.children && view.children[c] == children[c].view
    {
      assert Kid(Lit(c)) == children[c] && Sub(children[c]);
    }

    lemma WildcardFacts()
      requires Valid()
      ensures view.matchAny == if matchAny == null then None else Some(matchAny.view)
      ensures view.matchAll == if matchAll == null then None else Some(matchAll.view)
      ensures matchAny != null ==> matchAny.Valid() && matchAny.Repr < Repr
      ensures matchAll != null ==> matchAll.Valid() && matchAll.Repr < Repr
      ensures view.bound == bound && view.value == value
      ensures view.children.Keys == children.Keys
    {
      assert matchAny == Kid(Any) && matchAll == Kid(All);
      assert matchAny != null ==> Sub(matchAny);
      assert matchAll != null ==> Sub(matchAll);
      forall c ensures c in children <==> c in view.children {
        ChildrenAgree(c);
      }
    }

    method WalkChildren(path: Pattern) returns (visits: seq<Visit<T>>)
      requires Valid()
      ensures Reports(visits, path, Via(view, view.children.Keys)) && Genuine(visits, path, view)
      decreases Repr, 0
    {
      visits := [];
      WalkStart(view, path);
      WildcardFacts();
      ghost var n := view;
      hide Reports, Via, BoundSet, Valid, Genuine;
      NothingGenuine(path, n);
      var left := children.Keys;
      ghost var done: set<string> := {};
      assert left + done == n.children.Keys;
      while left != {}
        invariant left + done == n.children.Keys && left !! done
        invariant Reports(visits, path, Via(n, done)) && Genuine(visits, path, n)
        decreases left
      {
        var c :| c in left;
        ChildFacts(c);
        var more := children[c].Walk(path + [Lit(c)]);
        WalkStep(n, visits, more, path, done, c);
        GenuineBelow(more, path, n, Lit(c));
        GenuineJoin(visits, more, path, n);
        MoveOne(left, done, c);
        visits, left, done := visits + more, left - {c}, done + {c};
      }
      assert done == n.children.Keys;
    }

    /** Reports every node below path: children in any order, then `+`, `#` and the node itself. */
    method Walk(path: Pattern) returns (visits: seq<Visit<T>>)
      requires Valid()
      ensures Reports(visits, path, BoundSet(view)) && Genuine(visits, path, view)
      decreases Repr, 1
    {
      WildcardFacts();
      hide Valid, Reports, Via, BoundSet, Genuine;
      var literals := WalkChildren(path);
      var any, all := [], [];
      if matchAny != null {
        any := matchAny.Walk(path + [Any]);
      }
      if matchAll != null {
        all := matchAll.Walk(path + [All]);
      }
      WalkWildcards(view, literals, any, all, path);
      WalkGenuine(view, literals, any, all, path);
      visits := literals + any + all + [Visit(path, value, bound)];
    }

    /** Len is the number of patterns that Match can find bound. */
    method Len() returns (count: nat)
      requires Valid()
      ensures count == |BoundSet(view)|
      ensures forall p :: p in BoundSet(view) <==> IsBound(view, p)
    {
      var visits := Walk([]);
      count := 0;
      for i := 0 to |visits|
        invariant count == BoundCount(visits[..i])
      {
        assert visits[..i + 1][..i] == visits[..i];
        if visits[i].bound {
          count := count + 1;
        }
      }
      assert visits[..|visits|] == visits;
      forall p ensures p in BoundSet(view) <==> IsBound(view, p) {
        BoundSetIsBound(view, p);
      }
    }

    /** Binds value to the pattern, touching no other; refuses a `#` that is not last. */
    method SetValue(path: string, value: T) returns (out: Outcome)
      requires Valid() && WellShaped(view)
      modifies Repr
      ensures Valid() && WellShaped(view) && fresh(Repr - old(Repr))
      ensures out == if WellFormed(Parse(Segments(path))) then Done else InvalidPattern
      ensures out == Done ==> SlotChanged(old(view), view, Parse(Segments(path)), Stored(value, true), zero)
      ensures out != Done ==> SlotsUnchanged(old(view), view, zero)
    {
      ghost var before := view;
      SetRefinesMap(before, Segments(path), (_, _) => Stored(value, true), zero);
      out := Set(path, (_, _) => Stored(value, true));
    }

    /** The route and value of the most specific bound pattern that the path matches. */
    method Match(path: string) returns (r: Option<(string, T)>)
      requires Valid() && WellShaped(view)
      ensures r == Routed("", MatchAt(view, Segments(path)))
      ensures Selects(view, Segments(path), MatchAt(view, Segments(path)))
      ensures r.Some? <==> exists p :: IsBound(view, p) && Matches(p, Segments(path))
    {
      MatchSelects(view, Segments(path));
      r := MatchFrom("", path);
    }
  }

  lemma MoveOne<A>(left: set<A>, done: set<A>, c: A)
    requires c in left && left !! done
    ensures (left - {c}) + (done + {c}) == left + done && (left - {c}) !! (done + {c})
  {
  }

  function Routed<T>(matched: string, h: Option<Hit<T>>): Option<(string, T)> {
    match h
    case None => None
    case Some(hit) => Some((matched + Route(hit.pattern), hit.value))
  }

  lemma RoutedBelow<T>(matched: string, s: Seg, h: Option<Hit<T>>)
    ensures Routed(matched, Below(s, h)) == Routed(matched + "/" + Name(s), h)
    ensures matched + "/+" == matched + "/" + Name(Any) && matched + "/#" == matched + "/" + Name(All)
  {
    if h.Some? {
      var p := h.value.pattern;
      assert ([s] + p)[1..] == p;
      assert matched + ("/" + Name(s) + Route(p)) == matched + "/" + Name(s) + Route(p);
    }
  }

  lemma SegmentsStep(path: string)
    ensures path == "" ==> Segments(path) == []
    ensures path != "" ==> Segments(path) == [Before(path, '/')] + Segments(After(path, '/'))
    ensures path != "" ==> Segments(path)[0] == Before(path, '/') && Segments(path)[1..] == Segments(After(path, '/'))
    ensures Segments("") == []
  {
  }
}

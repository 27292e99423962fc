/**
  The insertion sort that the sample compactor writes out three times, each time with
  another condition for "the previous element stays in front of this one".
 */
module InsertionSorts {

  import opened Basics

  /** x may come before y. */
  ghost predicate Before<T>(stop: (T, T) -> bool, x: T, y: T) {
    x == y || stop(x, y)
  }

  ghost predicate TotalOn<T>(stop: (T, T) -> bool, s: seq<T>) {
    forall x, y | x in s && y in s :: Before(stop, x, y) || Before(stop, y, x)
  }

  ghost predicate TransitiveOn<T>(stop: (T, T) -> bool, s: seq<T>) {
    forall x, y, z | x in s && y in s && z in s && Before(stop, x, y) && Before(stop, y, z) ::
      Before(stop, x, z)
  }

  ghost predicate Sorted<T>(stop: (T, T) -> bool, s: seq<T>) {
    forall k, m | 0 <= k < m < |s| :: Before(stop, s[k], s[m])
  }

  /** The array after its element i has moved down to position j. */
  function Inserted<T>(s: seq<T>, j: nat, i: nat): seq<T>
    requires j <= i < |s|
  {
    s[..j] + [s[i]] + s[j..i] + s[i + 1..]
  }

  lemma InsertedPermutes<T>(s: seq<T>, j: nat, i: nat)
    requires j <= i < |s|
    ensures multiset(Inserted(s, j, i)) == multiset(s)
  {
    var a, b, c, d := s[..j], s[j..i], [s[i]], s[i + 1..];
    assert s == a + b + c + d;
    assert multiset(a + b + c + d) == multiset(a) + multiset(b) + multiset(c) + multiset(d);
  }

  lemma InsertedSorts<T>(stop: (T, T) -> bool, s: seq<T>, j: nat, i: nat)
    requires j <= i < |s| && Sorted(stop, s[..i])
    requires TotalOn(stop, s) && TransitiveOn(stop, s)
    requires j == 0 || stop(s[j - 1], s[i])
    requires forall k | j <= k < i :: !stop(s[k], s[i])
    ensures Sorted(stop, Inserted(s, j, i)[..i + 1])
  {
    var t := Inserted(s, j, i)[..i + 1];
    var front := s[..i];
    forall k, m | 0 <= k < m <= i ensures Before(stop, t[k], t[m]) {
      if k < j && m < j {
        assert Before(stop, front[k], front[m]);
      } else if k < j && m > j {
        assert Before(stop, front[k], front[m - 1]);
      } else if k > j {
        assert Before(stop, front[k - 1], front[m - 1]);
      } else if m == j {
        assert k < j - 1 ==> Before(stop, front[k], front[j - 1]);
        assert Before(stop, s[k], s[j - 1]) && Before(stop, s[j - 1], s[i]);
      } else {
        assert Before(stop, s[m - 1], s[i]) || Before(stop, s[i], s[m - 1]);
      }
    }
  }

  /** One pass of the inner loop: element i moves in front of everything that does not stop it. */
  method MoveDown<T>(a: array<T>, i: nat, stop: (T, T) -> bool) returns (j: nat)
    requires i < a.Length
    modifies a
    ensures j <= i && a[..] == Inserted(old(a[..]), j, i)
    ensures j == 0 || stop(old(a[..])[j - 1], old(a[..])[i])
    ensures forall k | j <= k < i :: !stop(old(a[..])[k], old(a[..])[i])
  {
    hide Inserted;
    ghost var before := a[..];
    var cur := a[i];
    j := i;
    while j > 0 && !stop(a[j - 1], cur)
      invariant j <= i
      invariant forall k | 0 <= k < j :: a[k] == before[k]
      invariant forall k | j < k <= i :: a[k] == before[k - 1]
      invariant forall k | i < k < a.Length :: a[k] == before[k]
      invariant forall k | j <= k < i :: !stop(before[k], cur)
    {
      a[j] := a[j - 1];
      j := j - 1;
    }
    a[j] := cur;
    InsertedIs(before, j, i, a[..]);
  }

  lemma InsertedIs<T>(s: seq<T>, j: nat, i: nat, t: seq<T>)
    requires j <= i < |s| == |t|
    requires forall k | 0 <= k < j :: t[k] == s[k]
    requires t[j] == s[i]
    requires forall k | j < k <= i :: t[k] == s[k - 1]
    requires forall k | i < k < |s| :: t[k] == s[k]
    ensures t == Inserted(s, j, i)
  {
    assert t[..j] == s[..j];
    assert t[j + 1..i + 1] == s[j..i];
    assert t[i + 1..] == s[i + 1..];
    assert t == t[..j] + [t[j]] + t[j + 1..i + 1] + t[i + 1..];
  }

  method InsertionSort<T>(a: array<T>, stop: (T, T) -> bool)
    requires TotalOn(stop, a[..]) && TransitiveOn(stop, a[..])
    modifies a
    ensures multiset(a[..]) == multiset(old(a[..]))
    ensures Sorted(stop, a[..])
  {
    hide Sorted, TotalOn, TransitiveOn;
    SortedShort(stop, a[..Min(1, a.Length)]);
    for i := Min(1, a.Length) to a.Length
      invariant Sorted(stop, a[..i])
      invariant multiset(a[..]) == multiset(old(a[..]))
    {
      ghost var before := a[..];
      SameElements(old(a[..]), before, stop);
      var j := MoveDown(a, i, stop);
      InsertedPermutes(before, j, i);
      InsertedSorts(stop, before, j, i);
    }
    assert a[..a.Length] == a[..];
  }

  lemma SortedShort<T>(stop: (T, T) -> bool, s: seq<T>)
    requires |s| <= 1
    ensures Sorted(stop, s)
  {
  }

  lemma SameElements<T>(s: seq<T>, t: seq<T>, stop: (T, T) -> bool)
    requires multiset(s) == multiset(t)
    requires TotalOn(stop, s) && TransitiveOn(stop, s)
    ensures TotalOn(stop, t) && TransitiveOn(stop, t)
  {
    forall x | x in t ensures x in s {
      assert x in multiset(t);
    }
  }

  method SortSeq<T>(s: seq<T>, stop: (T, T) -> bool) returns (r: seq<T>)
    requires TotalOn(stop, s) && TransitiveOn(stop, s)
    ensures multiset(r) == multiset(s)
    ensures Sorted(stop, r)
  {
    var a := new T[|s|](k requires 0 <= k < |s| => s[k]);
    assert a[..] == s;
    InsertionSort(a, stop);
    r := a[..];
  }

  // ---------------------------------------------------------------------------
  // Sorted sequences without repetition
  // ---------------------------------------------------------------------------

  ghost predicate Ascending(s: seq<nat>) {
    forall c, d | 0 <= c < d < |s| :: s[c] < s[d]
  }

  lemma {:induction false} AscendingUnique(s: seq<nat>, t: seq<nat>)
    requires Ascending(s) && Ascending(t)
    requires forall j: nat :: j in s <==> j in t
    ensures s == t
    decreases |s|
  {
    if s == [] {
      assert forall k | 0 <= k < |t| :: t[k] in t;
    } else {
      assert s[0] in t && t != [];
      var m, k := |s| - 1, |t| - 1;
      assert s[m] in t && t[k] in s;
      assert s[m] == t[k];
      forall j: nat ensures j in s[..m] <==> j in t[..k] {
        if j in s[..m] { assert j in t; }
        if j in t[..k] { assert j in s; }
      }
      AscendingUnique(s[..m], t[..k]);
      assert s == s[..m] + [s[m]] && t == t[..k] + [t[k]];
    }
  }

  /** Two elements never may both come before each other. */
  ghost predicate Strict<T(!new)>(stop: (T, T) -> bool) {
    forall x, y :: !(stop(x, y) && stop(y, x))
  }

  /** A strict order leaves one way of sorting. */
  lemma {:induction false} SortedUnique<T(!new)>(stop: (T, T) -> bool, s: seq<T>, t: seq<T>)
    requires Strict(stop) && Sorted(stop, s) && Sorted(stop, t) && multiset(s) == multiset(t)
    ensures s == t
    decreases |s|
  {
    assert |s| == |multiset(s)| == |multiset(t)| == |t|;
    if s != [] {
      var n := |s| - 1;
      LastUnique(stop, s, t);
      WithoutLast(s);
      WithoutLast(t);
      hide Sorted;
      SortedUnique(stop, s[..n], t[..n]);
    }
  }

  lemma LastUnique<T(!new)>(stop: (T, T) -> bool, s: seq<T>, t: seq<T>)
    requires Strict(stop) && Sorted(stop, s) && Sorted(stop, t) && multiset(s) == multiset(t)
    requires s != [] && |s| == |t|
    ensures s[|s| - 1] == t[|t| - 1] && Sorted(stop, s[..|s| - 1]) && Sorted(stop, t[..|t| - 1])
  {
    var n := |s| - 1;
    assert s[n] in multiset(t) && t[n] in multiset(s);
    var i :| 0 <= i < |t| && t[i] == s[n];
    var j :| 0 <= j < |s| && s[j] == t[n];
    assert i < n ==> Before(stop, t[i], t[n]);
    assert j < n ==> Before(stop, s[j], s[n]);
  }

  lemma WithoutLast<T>(s: seq<T>)
    requires s != []
    ensures s == s[..|s| - 1] + [s[|s| - 1]]
    ensures multiset(s[..|s| - 1]) == multiset(s) - multiset{s[|s| - 1]}
  {
    assert s == s[..|s| - 1] + [s[|s| - 1]];
  }
}

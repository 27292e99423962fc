/**
  Circular storage: the contents of a ring as a sequence, and the copy steps that the
  buffers share.  Positions are kept below twice the capacity, so that wrapping is linear.
 */
module Rings {
  import opened Basics

  /** How one turn under the lock ends; Waits means that the call parks and takes another turn later. */
  datatype Status = Done | EndOfData | Closed | Waits

  function Wrap(i: nat, n: nat): (r: nat)
    requires i < 2 * n
    ensures r < n
  {
    if i < n then i else i - n
  }

  /** The len elements stored from position h on. */
  function View<T>(buf: seq<T>, h: nat, len: nat): (s: seq<T>)
    requires h < |buf| && len <= |buf|
    ensures |s| == len && forall k | 0 <= k < len :: s[k] == buf[Wrap(h + k, |buf|)]
  {
    if h + len <= |buf| then buf[h..h + len] else buf[h..] + buf[..len - (|buf| - h)]
  }

  /** How far position j lies behind position h, going around at the end. */
  function Ahead(h: nat, j: nat, n: nat): (d: nat)
    requires h < n && j < n
    ensures d < n && Wrap(h + d, n) == j
  {
    if j >= h then j - h else j + n - h
  }

  /** now is was with s written from position h on, going around at the end. */
  ghost predicate Placed<T>(was: seq<T>, now: seq<T>, h: nat, s: seq<T>) {
    && |now| == |was| && h < |was| && |s| <= |was|
    && forall j | 0 <= j < |was| ::
         now[j] == if Ahead(h, j, |was|) < |s| then s[Ahead(h, j, |was|)] else was[j]
  }

  /** Where a running counter points into a ring of n slots. */
  function Slot(i: nat, n: nat): (r: nat)
    requires n > 0
    ensures r < n
  {
    i % n
  }

  /** A counter that has run ahead by at most the capacity is found by wrapping once. */
  lemma SlotAhead(head: nat, len: nat, n: nat)
    requires n > 0 && len <= n
    ensures Slot(head + len, n) == Wrap(Slot(head, n) + len, n)
  {
    var q, h := head / n, head % n;
    assert head == q * n + h;
    if h + len < n {
      ModUnique(head + len, q, h + len, n);
    } else {
      assert (q + 1) * n == q * n + n;
      ModUnique(head + len, q + 1, h + len - n, n);
    }
  }

  lemma ModUnique(x: int, q: int, r: int, n: int)
    requires n > 0 && 0 <= r < n && x == q * n + r
    ensures x % n == r
  {
    var p, m := x / n, x % n;
    assert x == n * p + m;
    assert (p - q) * n == r - m;
    if p > q {
      Multiple(p - q, n);
    } else if p < q {
      Multiple(q - p, n);
    }
  }

  lemma Multiple(d: int, n: int)
    requires d >= 1 && n > 0
    ensures d * n >= n
  {
  }

  /** Writing behind the contents appends to them. */
  lemma PlacedAppends<T>(was: seq<T>, now: seq<T>, h: nat, len: nat, s: seq<T>)
    requires h < |was| && len + |s| <= |was|
    requires len < |was| || s == []
    requires Placed(was, now, Wrap(h + len, |was|), s)
    ensures View(now, h, len + |s|) == View(was, h, len) + s
  {
    hide View;
    forall k | 0 <= k < len + |s| ensures View(now, h, len + |s|)[k] == (View(was, h, len) + s)[k] {
      var j := Wrap(h + k, |was|);
      assert now[j] == if k < len then was[j] else s[k - len];
    }
  }

  /** Overwriting a full ring from its oldest element on leaves the newest elements. */
  lemma PlacedOverwrites<T>(was: seq<T>, now: seq<T>, h: nat, c: seq<T>, b: seq<T>)
    requires h < |was| && |c| <= |was| && (b == [] || |b| + |c| == |was|)
    requires Placed(was, now, h, c + b)
    ensures View(now, Wrap(h + |c|, |was|), |was|) == (if b == [] then View(was, h, |was|)[|c|..] else b) + c
  {
    hide View;
    var n, rest := |was|, if b == [] then View(was, h, |was|)[|c|..] else b;
    var g := Wrap(h + |c|, n);
    forall k | 0 <= k < n ensures View(now, g, n)[k] == (rest + c)[k] {
      var j := Wrap(g + k, n);
      if |c| + k < n {
        assert Ahead(h, j, n) == |c| + k;
        assert b == [] ==> rest[k] == was[Wrap(h + (|c| + k), n)] == was[j];
      } else {
        assert Ahead(h, j, n) == |c| + k - n;
      }
    }
  }

  /** Dropping from the front. */
  lemma ViewDrop<T>(buf: seq<T>, h: nat, len: nat, k: nat)
    requires h < |buf| && k <= len <= |buf|
    ensures View(buf, Wrap(h + k, |buf|), len - k) == View(buf, h, len)[k..]
  {
    hide View;
    var g := Wrap(h + k, |buf|);
    forall j | 0 <= j < len - k ensures View(buf, g, len - k)[j] == View(buf, h, len)[k..][j] {
      assert Wrap(g + j, |buf|) == Wrap(h + (k + j), |buf|);
    }
  }

  // ---------------------------------------------------------------------------
  // Copying
  // ---------------------------------------------------------------------------

  /** dst with src written over it at a position. */
  function Splice<T>(dst: seq<T>, from: nat, src: seq<T>): (r: seq<T>)
    requires from + |src| <= |dst|
    ensures |r| == |dst|
  {
    dst[..from] + src + dst[from + |src|..]
  }

  lemma SplicePlaced<T>(was: seq<T>, t: nat, a: seq<T>)
    requires t < |was| && t + |a| <= |was|
    ensures Placed(was, Splice(was, t, a), t, a)
  {
  }

  lemma OnePlaced<T>(was: seq<T>, j: nat, t: T)
    requires j < |was|
    ensures Placed(was, was[j := t], j, [t])
  {
  }

  lemma SpliceAroundPlaced<T>(was: seq<T>, t: nat, a: seq<T>, b: seq<T>)
    requires t < |was| && t + |a| == |was| && |b| <= t
    ensures Placed(was, Splice(Splice(was, t, a), 0, b), t, a + b)
  {
  }

  lemma SpliceTwice<T>(p: seq<T>, a: seq<T>, b: seq<T>)
    requires |a| + |b| <= |p|
    ensures Splice(Splice(p, 0, a), |a|, b) == a + b + p[|a| + |b|..]
  {
  }

  lemma SpliceFront<T>(p: seq<T>, a: seq<T>)
    requires |a| <= |p|
    ensures Splice(p, 0, a)[..|a|] == a && Splice(p, 0, a)[|a|..] == p[|a|..]
  {
  }

  lemma SpliceNext<T>(p: seq<T>, a: seq<T>, b: seq<T>)
    requires |a| + |b| <= |p|
    ensures Splice(Splice(p, 0, a), |a|, b) == Splice(p, 0, a + b)
  {
  }

  lemma SpliceAfter<T>(p: seq<T>, h: nat, a: seq<T>, b: seq<T>)
    requires h + |a| + |b| <= |p|
    ensures Splice(Splice(p, h, a), h + |a|, b) == Splice(p, h, a + b)
  {
  }

  /** copy(dst[from:to], src) */
  method Copy<T>(dst: array<T>, from: nat, to: nat, src: seq<T>) returns (n: nat)
    requires from <= to <= dst.Length
    modifies dst
    ensures n == Min(to - from, |src|)
    ensures dst[..] == Splice(old(dst[..]), from, src[..n])
  {
    n := Min(to - from, |src|);
    var i := 0;
    while i < n
      invariant i <= n
      invariant forall j | 0 <= j < dst.Length ::
        dst[j] == if from <= j < from + i then src[j - from] else old(dst[j])
    {
      dst[from + i] := src[i];
      i := i + 1;
    }
  }

  /** Writes as much of p as fits into the avail free positions from t on; returns how much. */
  method PlaceWrapped<T>(buf: array<T>, t: nat, avail: nat, p: seq<T>) returns (n: nat)
    requires t < buf.Length && 0 < avail <= buf.Length
    modifies buf
    ensures n == Min(avail, |p|)
    ensures Placed(old(buf[..]), buf[..], t, p[..n])
  {
    ghost var was := buf[..];
    hide Placed, Splice;
    if t + avail <= buf.Length {
      n := Copy(buf, t, t + avail, p);
      SplicePlaced(was, t, p[..n]);
    } else {
      n := Copy(buf, t, buf.Length, p);
      var m := Copy(buf, 0, avail - n, p[n..]);
      if n < buf.Length - t {
        assert p[n..][..m] == [];
        SpliceNothing(Splice(was, t, p[..n]));
        SplicePlaced(was, t, p[..n]);
      } else {
        SpliceAroundPlaced(was, t, p[..n], p[n..][..m]);
        assert p[..n] + p[n..][..m] == p[..n + m];
      }
      n := n + m;
    }
  }

  lemma SpliceNothing<T>(s: seq<T>)
    ensures Splice(s, 0, []) == s
  {
  }

  /** Copies as much as fits of the avail elements stored from h on into p; returns how much. */
  method TakeWrapped<T>(buf: array<T>, h: nat, avail: nat, p: array<T>) returns (n: nat)
    requires h < buf.Length && avail <= buf.Length && p != buf
    modifies p
    ensures n == Min(avail, p.Length)
    ensures p[..] == Splice(old(p[..]), 0, View(buf[..], h, avail)[..n])
  {
    ghost var was, v := p[..], View(buf[..], h, avail);
    assert v == if h + avail <= buf.Length then buf[h..h + avail] else buf[h..] + buf[..avail - (buf.Length - h)];
    hide Splice, Wrap, View;
    if h + avail <= buf.Length {
      n := Copy(p, 0, p.Length, buf[h..h + avail]);
    } else {
      var tail, rest := buf[h..], buf[..avail - (buf.Length - h)];
      n := Copy(p, 0, p.Length, tail);
      var m := Copy(p, n, p.Length, buf[..avail - n]);
      TakenTwice(was, tail, rest, buf[..avail - n], n, m);
      n := n + m;
    }
  }

  lemma TakenTwice<T>(was: seq<T>, tail: seq<T>, rest: seq<T>, second: seq<T>, n: nat, m: nat)
    requires n == Min(|was|, |tail|) && m == Min(|was| - n, |second|)
    requires n == |tail| ==> second == rest
    ensures n + m == Min(|was|, |tail + rest|)
    ensures Splice(Splice(was, 0, tail[..n]), n, second[..m]) == Splice(was, 0, (tail + rest)[..n + m])
  {
    SpliceTwice(was, tail[..n], second[..m]);
    assert tail[..n] + second[..m] == (tail + rest)[..n + m];
  }
}

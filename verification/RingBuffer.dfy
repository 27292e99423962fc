/** The overwriting ring: a full buffer drops its oldest elements to take new ones. */
module RingBuffer {
  import opened Basics
  import opened Rings

  function Last<T>(s: seq<T>, n: nat): seq<T> {
    if |s| <= n then s else s[|s| - n..]
  }

  class RingBuffer<T(0)> {
    const buf: array<T>
    var head: int
    var tail: int
    var closeWrite: bool
    var closeErr: bool

    ghost predicate Valid()
      reads this
    {
      buf.Length > 0 && 0 <= head <= tail <= head + buf.Length
    }

    /** The stored elements, oldest first. */
    ghost function Contents(): (s: seq<T>)
      requires Valid()
      reads this, buf
      ensures |s| == tail - head
    {
      View(buf[..], Slot(head, buf.Length), tail - head)
    }

    constructor (size: nat)
      requires size > 0
      ensures Valid() && buf.Length == size && Contents() == [] && !closeWrite && !closeErr
    {
      buf := new T[size];
      head, tail, closeWrite, closeErr := 0, 0, false, false;
    }

    /** Moves the head; a negative count would bring elements back and is not guarded against. */
    method Discard(n: int) returns (r: Status)
      requires Valid()
      modifies this`head
      ensures closeErr ==> r == Closed && head == old(head)
      ensures !closeErr ==> r == Done
      ensures !closeErr && n >= 0 ==>
        Valid() && Contents() == old(Contents())[if n <= |old(Contents())| then n else |old(Contents())|..]
      ensures !closeErr && n < 0 ==> (Valid() <==> -n <= old(head) && |old(Contents())| - n <= buf.Length)
    {
      hide Slot, View, Splice, Placed;
      if closeErr {
        return Closed;
      }
      if n > tail - head {
        head := tail;
        return Done;
      }
      if n >= 0 {
        Dropped(n);
      }
      head := head + n;
      return Done;
    }

    /** Advancing the head by k drops k elements. */
    lemma Dropped(k: nat)
      requires Valid() && k <= tail - head
      ensures View(buf[..], Slot(head + k, buf.Length), tail - (head + k)) == Contents()[k..]
    {
      SlotAhead(head, k, buf.Length);
      ViewDrop(buf[..], Slot(head, buf.Length), tail - head, k);
    }

    /** Copies the oldest elements out, as many as fit; Waits means the caller parks and tries again. */
    method Read(p: array<T>) returns (n: nat, r: Status)
      requires Valid() && p != buf
      modifies this`head, p
      ensures Valid()
      ensures closeErr ==> r == Closed
      ensures !closeErr && old(Contents()) == [] ==> r == if closeWrite then EndOfData else Waits
      ensures !closeErr && old(Contents()) != [] ==> r == Done
      ensures r == Done ==> n == Min(p.Length, |old(Contents())|)
      ensures r == Done ==>
        old(Contents()) == p[..n] + Contents() && p[n..] == old(p[n..])
      ensures r != Done ==> n == 0 && Contents() == old(Contents()) && p[..] == old(p[..])
    {
      hide Slot, View, Splice, Placed;
      if closeErr {
        return 0, Closed;
      }
      if head == tail {
        return 0, if closeWrite then EndOfData else Waits;
      }
      ghost var was := Contents();
      SpliceFront(p[..], was[..Min(p.Length, |was|)]);
      n := TakeWrapped(buf, Slot(head, buf.Length), tail - head, p);
      Dropped(n);
      head := head + n;
      return n, Done;
    }

    method Next() returns (t: seq<T>, r: Status)
      requires Valid()
      modifies this`head
      ensures Valid()
      ensures closeErr ==> r == Closed
      ensures !closeErr && old(Contents()) == [] ==> r == if closeWrite then EndOfData else Waits
      ensures !closeErr && old(Contents()) != [] ==> r == Done
      ensures r == Done ==> |t| == 1 && old(Contents()) == t + Contents()
      ensures r != Done ==> t == [] && Contents() == old(Contents())
    {
      hide Slot, View, Splice, Placed;
      if closeErr {
        return [], Closed;
      }
      if head == tail {
        return [], if closeWrite then EndOfData else Waits;
      }
      ghost var was := Contents();
      assert was[0] == buf[Slot(head, buf.Length)];
      Dropped(1);
      t := [buf[Slot(head, buf.Length)]];
      head := head + 1;
      r := Done;
    }

    /** Adds one element, dropping the oldest if the ring is full. */
    method Add(t: T) returns (r: Status)
      requires Valid()
      modifies this`head, this`tail, buf
      ensures Valid()
      ensures r == if closeErr || closeWrite then Closed else Done
      ensures r == Closed ==> Contents() == old(Contents())
      ensures r == Done ==> Contents() == Last(old(Contents()) + [t], buf.Length)
    {
      hide Slot, View, Splice, Placed, Wrap;
      if closeErr || closeWrite {
        return Closed;
      }
      ghost var now, size := buf[..][Slot(tail, buf.Length) := t], buf.Length;
      ghost var want := Last(Contents() + [t], size);
      Added(buf[..], head, tail - head, t);
      hide Last;
      assert tail - head < size ==> View(now, Slot(head, size), tail - head + 1) == want;
      assert tail - head == size ==> View(now, Slot(head + 1, size), tail - head) == want;
      buf[Slot(tail, buf.Length)] := t;
      assert buf[..] == now;
      tail := tail + 1;
      if tail - head > buf.Length {
        head := head + 1;
      }
      return Done;
    }

    /**
      Afterwards the ring holds the last elements of its old contents followed by p, for every
      head position and every length of p.
     */
    method Write(p: seq<T>) returns (n: nat, r: Status)
      requires Valid()
      modifies this`head, this`tail, buf
      ensures Valid()
      ensures r == if closeErr || closeWrite then Closed else Done
      ensures r == Closed ==> n == 0 && Contents() == old(Contents())
      ensures r == Done ==> n == |p| && Contents() == Last(old(Contents()) + p, buf.Length)
    {
      hide Slot, View, Splice, Placed;
      if closeErr || closeWrite {
        return 0, Closed;
      }
      ghost var before := Contents();
      var wn := Fill(p);
      var leftn := |p| - wn;
      if leftn == 0 {
        assert p[..wn] == p;
        return wn, Done;
      }
      var cbuf, bbuf: seq<T> := [], [];
      if leftn <= buf.Length {
        cbuf := p[|p| - leftn..];
      } else {
        var cn := leftn % buf.Length;
        cbuf := p[|p| - cn..];
        bbuf := p[|p| - buf.Length..|p| - cn];
      }
      LastOfBoth(before, p, wn, cbuf, bbuf, buf.Length);
      Overwrite(cbuf, bbuf);
      return |p|, Done;
    }

    /** The free part of the ring takes what it can. */
    method Fill(p: seq<T>) returns (wn: nat)
      requires Valid()
      modifies this`tail, buf
      ensures Valid() && wn == Min(buf.Length - |old(Contents())|, |p|)
      ensures Contents() == old(Contents()) + p[..wn]
    {
      hide Slot, View, Splice, Placed;
      var avail := buf.Length - (tail - head);
      wn := 0;
      if avail > 0 {
        ghost var was, len := buf[..], tail - head;
        SlotAhead(head, len, buf.Length);
        wn := PlaceWrapped(buf, Slot(tail, buf.Length), avail, p);
        PlacedAppends(was, buf[..], Slot(head, buf.Length), len, p[..wn]);
        tail := tail + wn;
      }
    }

    /** A full ring takes b, if any, and then c, over its oldest elements. */
    method Overwrite(c: seq<T>, b: seq<T>)
      requires Valid() && tail - head == buf.Length
      requires |c| <= buf.Length && (b == [] || |b| + |c| == buf.Length)
      modifies this`head, this`tail, buf
      ensures Valid() && tail - head == buf.Length
      ensures Contents() == (if b == [] then old(Contents())[|c|..] else b) + c
    {
      hide Slot, View, Splice, Placed;
      ghost var was := buf[..];
      PlaceBoth(c, b);
      PlacedOverwrites(was, buf[..], Slot(head, buf.Length), c, b);
      SlotAhead(head, |c|, buf.Length);
      head := head + |c|;
      tail := tail + |c|;
    }

    method PlaceBoth(c: seq<T>, b: seq<T>)
      requires Valid() && |c| <= buf.Length && (b == [] || |b| + |c| == buf.Length)
      modifies buf
      ensures Placed(old(buf[..]), buf[..], Slot(head, buf.Length), c + b)
    {
      hide Slot, View, Splice, Placed;
      var h := Slot(head, buf.Length);
      ghost var was := buf[..];
      var cp1 := Copy(buf, h, buf.Length, c);
      if cp1 < |c| {
        var cp2 := Copy(buf, 0, buf.Length, c[cp1..]);
        var cp3 := Copy(buf, cp2, buf.Length, b);
        AroundInC(was, h, c, b, cp1, cp2, cp3);
      } else {
        var bp1 := Copy(buf, h + cp1, buf.Length, b);
        var bp2 := Copy(buf, 0, buf.Length, b[bp1..]);
        AroundInB(was, h, c, b, bp1, bp2);
      }
    }

    method CloseWrite()
      requires Valid()
      modifies this`closeWrite
      ensures Valid() && closeWrite && Contents() == old(Contents())
    {
      closeWrite := true;
    }

    method CloseWithError()
      requires Valid()
      modifies this`closeErr, this`closeWrite
      ensures Valid() && closeErr && closeWrite && Contents() == old(Contents())
    {
      closeErr, closeWrite := true, true;
    }

    method Reset()
      requires Valid()
      modifies this`head, this`tail
      ensures Valid() && Contents() == []
    {
      head, tail := 0, 0;
    }

    /** Bytes is the contents exactly when there are any; an empty ring yields its whole storage. */
    method Bytes() returns (s: seq<T>)
      requires Valid()
      ensures s == Contents() <==> Contents() != []
      ensures Contents() == [] ==> |s| == buf.Length
    {
      hide Slot, View, Splice, Placed;
      SlotAhead(head, tail - head, buf.Length);
      var h, t := Slot(head, buf.Length), Slot(tail, buf.Length);
      if h < t {
        s := buf[h..t];
      } else {
        s := buf[h..] + buf[..t];
      }
    }
  }

  /** One element placed behind len others; the oldest makes room if there is none. */
  lemma Added<T>(was: seq<T>, head: nat, len: nat, t: T)
    requires |was| > 0 && len <= |was|
    ensures len < |was| ==>
      View(was[Slot(head + len, |was|) := t], Slot(head, |was|), len + 1)
      == Last(View(was, Slot(head, |was|), len) + [t], |was|)
    ensures len == |was| ==>
      View(was[Slot(head + len, |was|) := t], Slot(head + 1, |was|), len)
      == Last(View(was, Slot(head, |was|), len) + [t], |was|)
  {
    hide View, Placed;
    if len < |was| {
      AddedBehind(was, head, len, t);
    } else {
      AddedOver(was, head, t);
    }
  }

  lemma AddedBehind<T>(was: seq<T>, head: nat, len: nat, t: T)
    requires len < |was|
    ensures View(was[Slot(head + len, |was|) := t], Slot(head, |was|), len + 1) == View(was, Slot(head, |was|), len) + [t]
  {
    hide Slot, View, Placed;
    SlotAhead(head, len, |was|);
    OnePlaced(was, Slot(head + len, |was|), t);
    PlacedAppends(was, was[Slot(head + len, |was|) := t], Slot(head, |was|), len, [t]);
  }

  lemma AddedOver<T>(was: seq<T>, head: nat, t: T)
    requires |was| > 0
    ensures View(was[Slot(head + |was|, |was|) := t], Slot(head + 1, |was|), |was|)
         == View(was, Slot(head, |was|), |was|)[1..] + [t]
  {
    hide Slot, View, Placed;
    SlotAhead(head, |was|, |was|);
    SlotAhead(head, 1, |was|);
    OnePlaced(was, Slot(head + |was|, |was|), t);
    assert [t] + [] == [t];
    PlacedOverwrites(was, was[Slot(head + |was|, |was|) := t], Slot(head, |was|), [t], []);
  }

  /** The first run, c, goes around the end, and b follows it at the start of the storage. */
  lemma AroundInC<T>(was: seq<T>, h: nat, c: seq<T>, b: seq<T>, n1: nat, n2: nat, n3: nat)
    requires h < |was| && |c| <= |was| && (b == [] || |b| + |c| == |was|)
    requires n1 == Min(|was| - h, |c|) && n1 < |c|
    requires n2 == Min(|was|, |c| - n1) && n3 == Min(|was| - n2, |b|)
    ensures Placed(was, Splice(Splice(Splice(was, h, c[..n1]), 0, c[n1..][..n2]), n2, b[..n3]), h, c + b)
  {
    var s1 := Splice(was, h, c[..n1]);
    SpliceNext(s1, c[n1..][..n2], b[..n3]);
    SpliceAroundPlaced(was, h, c[..n1], c[n1..][..n2] + b[..n3]);
    assert c[..n1] + (c[n1..][..n2] + b[..n3]) == c + b;
  }

  /** c fits before the end, and b goes around it. */
  lemma AroundInB<T>(was: seq<T>, h: nat, c: seq<T>, b: seq<T>, n1: nat, n2: nat)
    requires h + |c| <= |was| && h < |was| && (b == [] || |b| + |c| == |was|)
    requires n1 == Min(|was| - h - |c|, |b|) && n2 == Min(|was|, |b| - n1)
    ensures Placed(was, Splice(Splice(Splice(was, h, c[..|c|]), h + |c|, b[..n1]), 0, b[n1..][..n2]), h, c + b)
  {
    assert c[..|c|] == c;
    SpliceAfter(was, h, c, b[..n1]);
    if n1 < |was| - h - |c| {
      assert n1 == |b| && b[n1..][..n2] == [] && b[..n1] == b;
      SpliceNothing(Splice(was, h, c + b));
      SplicePlaced(was, h, c + b);
    } else {
      SpliceAroundPlaced(was, h, c + b[..n1], b[n1..][..n2]);
      assert c + b[..n1] + b[n1..][..n2] == c + b;
    }
  }

  /** Two writes leave what one write of both pieces leaves, however large they are. */
  lemma WritesJoin<T>(s: seq<T>, p: seq<T>, q: seq<T>, size: nat)
    ensures Last(Last(s + p, size) + q, size) == Last(s + (p + q), size)
  {
    var all := s + p;
    assert s + (p + q) == all + q;
    if |all| > size {
      var cut := |all| - size;
      assert all == all[..cut] + all[cut..];
      assert all + q == all[..cut] + (all[cut..] + q);
      LastOfRest(all[..cut], all[cut..] + q, size);
    }
  }

  lemma LastOfRest<T>(front: seq<T>, rest: seq<T>, size: nat)
    requires |rest| >= size
    ensures Last(front + rest, size) == Last(rest, size)
  {
    assert (front + rest)[|front + rest| - size..] == rest[|rest| - size..];
  }

  /** Which part of p survives when the ring overflows. */
  lemma LastOfBoth<T>(before: seq<T>, p: seq<T>, wn: nat, c: seq<T>, b: seq<T>, size: nat)
    requires |before| <= size && wn == Min(size - |before|, |p|) && wn < |p|
    requires |p| - wn <= size ==> c == p[wn..] && b == []
    requires |p| - wn > size ==> |c| < size && c == p[|p| - |c|..] && b == p[|p| - size..|p| - |c|]
    ensures (if b == [] then (before + p[..wn])[|c|..] else b) + c == Last(before + p, size)
  {
    if |p| - wn <= size {
      assert before + p == before + p[..wn] + c;
    } else {
      assert (before + p)[|before + p| - size..] == p[|p| - size..];
      assert p[|p| - size..] == p[|p| - size..|p| - |c|] + p[|p| - |c|..];
    }
  }
}

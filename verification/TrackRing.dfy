/** A track of the mixer: rings kept with 0 <= head < N <= tail - head + N, read in order. */
module TrackRing {
  import opened Basics
  import opened Rings
  import opened BlockProtocol

  newtype Byte = b: int | 0 <= b < 256

  ghost predicate Zero(s: seq<Byte>) {
    forall k | 0 <= k < |s| :: s[k] == 0
  }

  class TrackRing {
    const rb: array<Byte>
    var head: nat
    var tail: nat
    var closeWrite: bool
    var closeErr: bool

    /** The head is normalised; the tail runs ahead of it by at most one lap. */
    ghost predicate Valid()
      reads this
    {
      0 <= head < rb.Length && head <= tail <= head + rb.Length && (closeErr ==> closeWrite)
    }

    ghost function Contents(): (s: seq<Byte>)
      requires Valid()
      reads this, rb
      ensures |s| == tail - head
    {
      View(rb[..], head, tail - head)
    }

    ghost function Abstract(): (r: Ring<Byte>)
      requires Valid()
      reads this, rb
      ensures |r.contents| <= r.size
    {
      Ring(Contents(), rb.Length, closeWrite, closeErr)
    }

    constructor (size: nat)
      requires size > 0
      ensures Valid() && Abstract() == Ring([], size, false, false) && fresh(rb)
    {
      rb := new Byte[size];
      head, tail, closeWrite, closeErr := 0, 0, false, false;
    }

    /** Places what fits, in at most two runs. */
    method CopyIn(p: seq<Byte>) returns (n: nat)
      requires Valid()
      modifies this`tail, rb
      ensures Valid() && n == Min(rb.Length - |old(Contents())|, |p|)
      ensures Contents() == old(Contents()) + p[..n]
    {
      hide View;
      if tail - head == rb.Length {
        return 0;
      }
      ghost var before := Contents();
      n := 0;
      if tail < rb.Length {
        n := FillToEnd(p);
      }
      if tail >= rb.Length {
        var m := FillFromStart(p[n..]);
        InTwo(before, p, n, m);
        n := n + m;
      }
    }

    /** The run from the tail to the end of the storage. */
    method FillToEnd(p: seq<Byte>) returns (n: nat)
      requires Valid() && tail < rb.Length
      modifies this`tail, rb
      ensures Valid() && n == Min(rb.Length - old(tail), |p|) && tail == old(tail) + n
      ensures Contents() == old(Contents()) + p[..n]
    {
      hide View, Splice, Placed;
      ghost var was, len := rb[..], tail - head;
      n := Copy(rb, tail, rb.Length, p);
      SplicePlaced(was, tail, p[..n]);
      PlacedAppends(was, rb[..], head, len, p[..n]);
      tail := tail + n;
    }

    /** The run from the start of the storage to the head. */
    method FillFromStart(p: seq<Byte>) returns (n: nat)
      requires Valid() && tail >= rb.Length
      modifies this`tail, rb
      ensures Valid() && n == Min(rb.Length - (old(tail) - head), |p|) && tail == old(tail) + n
      ensures Contents() == old(Contents()) + p[..n]
    {
      hide View, Splice, Placed;
      ghost var was, len := rb[..], tail - head;
      n := Copy(rb, tail - rb.Length, head, p);
      SplicePlaced(was, tail - rb.Length, p[..n]);
      PlacedAppends(was, rb[..], head, len, p[..n]);
      tail := tail + n;
    }

    /** A turn of Write: p is what the call has not placed yet. */
    method Write(p: seq<Byte>) returns (n: nat, status: Status)
      requires Valid()
      modifies this`tail, rb
      ensures Valid()
      ensures p == [] ==> n == 0 && status == Done && Abstract() == old(Abstract())
      ensures p != [] ==> (Abstract(), n, status) == Put(old(Abstract()), p)
    {
      hide View;
      n := 0;
      while n < |p|
        invariant Valid() && n <= |p| && (closeErr || closeWrite ==> n == 0)
        invariant Abstract() == old(Abstract()).(contents := old(Abstract()).contents + p[..n])
      {
        if closeErr || closeWrite {
          return 0, Closed;
        }
        if tail - head == rb.Length {
          return n, Waits;
        }
        var m := CopyIn(p[n..]);
        assert p[..n + m] == p[..n] + p[n..][..m];
        n := n + m;
      }
      assert p[..n] == p;
      return n, Done;
    }

    /** Takes what fits into p from a position on, in at most two runs, and normalises the head. */
    method CopyOut(p: array<Byte>, from: nat) returns (n: nat)
      requires Valid() && p != rb && from <= p.Length
      modifies this`head, this`tail, p
      ensures Valid() && n == Min(p.Length - from, |old(Contents())|)
      ensures Contents() == old(Contents())[n..]
      ensures p[..] == Splice(old(p[..]), from, old(Contents())[..n])
    {
      hide View, Splice, Wrap, Placed, Contents, Zero;
      ghost var was, all := p[..], Contents();
      n := 0;
      SpliceNone(was, from);
      if tail >= rb.Length {
        n := TakeToEnd(p, from);
      }
      if tail < rb.Length {
        var m := TakeToTail(p, from + n);
        OutTwo(was, from, all, n, m);
        n := n + m;
      }
    }

    /** The run from the head to the end of the storage, where the head goes back to its start. */
    method TakeToEnd(p: array<Byte>, from: nat) returns (n: nat)
      requires Valid() && p != rb && from <= p.Length && tail >= rb.Length
      modifies this`head, this`tail, p
      ensures Valid() && n == Min(p.Length - from, rb.Length - old(head)) && n <= |old(Contents())|
      ensures Contents() == old(Contents())[n..]
      ensures tail >= rb.Length ==> n == p.Length - from
      ensures p[..] == Splice(old(p[..]), from, old(Contents())[..n])
    {
      hide View, Splice, Wrap;
      ghost var len := tail - head;
      TwoRuns(rb[..], head, len);
      n := Copy(p, from, p.Length, rb[head..]);
      assert rb[head..] == rb[..][head..];
      assert rb[head..][..n] == Contents()[..n];
      Advanced(rb[..], head, len, n);
      head := head + n;
      if head == rb.Length {
        head := 0;
        tail := tail - rb.Length;
      }
    }

    /** The run from the head to the tail, where the contents do not wrap. */
    method TakeToTail(p: array<Byte>, from: nat) returns (n: nat)
      requires Valid() && p != rb && from <= p.Length && tail < rb.Length
      modifies this`head, p
      ensures Valid() && n == Min(p.Length - from, |old(Contents())|)
      ensures Contents() == old(Contents())[n..]
      ensures p[..] == Splice(old(p[..]), from, old(Contents())[..n])
    {
      hide View, Splice, Wrap;
      ghost var len := tail - head;
      TwoRuns(rb[..], head, len);
      assert rb[head..tail] == rb[..][head..head + len] == Contents();
      n := Copy(p, from, p.Length, rb[head..tail]);
      Advanced(rb[..], head, len, n);
      head := head + n;
    }

    /** Fills p from a position on; what is not filled is zero.  Waits stands for no data yet. */
    method Read(p: array<Byte>, from: nat) returns (n: nat, status: Status)
      requires Valid() && p != rb && from <= p.Length
      modifies this`head, this`tail, p
      ensures Valid() && from + n <= p.Length
      ensures (Abstract(), p[from..from + n], status) == Take(old(Abstract()), p.Length - from)
      ensures p[..from] == old(p[..from]) && Zero(p[from + n..])
    {
      hide View, Splice, Wrap, Placed, Min;
      Clear(p, from);
      assert p[from..from] == [];
      if closeErr {
        return 0, Closed;
      }
      if head == tail {
        return 0, if closeWrite then EndOfData else Waits;
      }
      n := ReadSome(p, from);
      return n, Done;
    }

    method ReadSome(p: array<Byte>, from: nat) returns (n: nat)
      requires Valid() && p != rb && from <= p.Length && Zero(p[from..])
      modifies this`head, this`tail, p
      ensures Valid() && n == Min(p.Length - from, |old(Contents())|)
      ensures Contents() == old(Contents())[n..] && p[from..from + n] == old(Contents())[..n]
      ensures p[..from] == old(p[..from]) && Zero(p[from + n..])
    {
      hide View, Splice, Wrap, Placed, Zero;
      ghost var zeroed, all := p[..], Contents();
      assert zeroed[from..] == p[from..] && zeroed[..from] == p[..from];
      n := CopyOut(p, from);
      SplicedOver(zeroed, from, all[..n]);
      ghost var now := p[..];
      assert p[from..from + n] == now[from..from + n] && p[..from] == now[..from] && p[from + n..] == now[from + n..];
    }

    method CloseWrite()
      requires Valid()
      modifies this`closeWrite
      ensures Valid() && Abstract() == old(Abstract()).(closeWrite := true)
    {
      if !closeErr {
        closeWrite := true;
      }
    }

    method CloseWithError()
      requires Valid()
      modifies this`closeErr, this`closeWrite
      ensures Valid() && Abstract() == old(Abstract()).(closeErr := true, closeWrite := true)
    {
      if !closeErr {
        closeErr, closeWrite := true, true;
      }
    }
  }

  method Clear(p: array<Byte>, from: nat)
    requires from <= p.Length
    modifies p
    ensures p[..from] == old(p[..from]) && Zero(p[from..])
  {
    for i := from to p.Length
      invariant p[..from] == old(p[..from])
      invariant forall k | from <= k < i :: p[k] == 0
    {
      p[i] := 0;
    }
  }

  lemma SplicedOver(p: seq<Byte>, from: nat, a: seq<Byte>)
    requires from + |a| <= |p| && Zero(p[from..])
    ensures var q := Splice(p, from, a);
      q[..from] == p[..from] && q[from..from + |a|] == a && Zero(q[from + |a|..])
  {
    var rest := p[from + |a|..];
    forall k | 0 <= k < |rest| ensures rest[k] == 0 {
      assert p[from..][|a| + k] == 0;
    }
    assert Splice(p, from, a)[from + |a|..] == rest;
  }

  lemma InTwo(before: seq<Byte>, p: seq<Byte>, n: nat, m: nat)
    requires n + m <= |p|
    ensures before + p[..n] + p[n..][..m] == before + p[..n + m]
  {
    assert p[..n] + p[n..][..m] == p[..n + m];
  }

  lemma SpliceNone(was: seq<Byte>, from: nat)
    requires from <= |was|
    ensures Splice(was, from, []) == was
  {
  }

  lemma OutTwo(was: seq<Byte>, from: nat, all: seq<Byte>, n: nat, m: nat)
    requires n + m <= |all| && from + n + m <= |was|
    ensures Splice(Splice(was, from, all[..n]), from + n, all[n..][..m]) == Splice(was, from, all[..n + m])
    ensures all[n..][m..] == all[n + m..]
  {
    SpliceAfter(was, from, all[..n], all[n..][..m]);
    assert all[..n] + all[n..][..m] == all[..n + m];
  }

  /** Advancing the head, and going back to the start of the storage at its end. */
  lemma Advanced(buf: seq<Byte>, h: nat, len: nat, n: nat)
    requires h < |buf| && n <= len <= |buf| && h + n <= |buf|
    ensures View(buf, if h + n == |buf| then 0 else h + n, len - n) == View(buf, h, len)[n..]
  {
    hide View;
    ViewDrop(buf, h, len, n);
  }

  /** The contents before the end of the storage, and all of them if they end there. */
  lemma TwoRuns(buf: seq<Byte>, h: nat, len: nat)
    requires h < |buf| && len <= |buf|
    ensures h + len >= |buf| ==> View(buf, h, len)[..|buf| - h] == buf[h..]
    ensures h + len < |buf| ==> View(buf, h, len) == buf[h..h + len]
  {
  }

  // ---------------------------------------------------------------------------
  // Reading a track
  // ---------------------------------------------------------------------------

  /** Writers of this ring take turns of their own while a reader is between two reads. */
  method Others(r: TrackRing) returns (ghost more: seq<Byte>)
    requires r.Valid()
    modifies r`tail, r.rb
    ensures r.Valid()
    ensures r.Abstract() == old(r.Abstract()).(contents := old(r.Contents()) + more)
    ensures r.closeWrite ==> more == []
  {
    hide View;
    var p: seq<Byte> := *;
    var n, status := r.Write(p);
    more := p[..n];
  }

  /**
    What one full read of a ring gives: it took got bytes from the front of what was stored and
    of what writers added meanwhile, and either reports nothing at all or fills p.
   */
  ghost predicate FullRead(before: Ring<Byte>, more: seq<Byte>, after: Ring<Byte>, p: seq<Byte>, got: nat,
                           n: nat, status: Status) {
    && after == before.(contents := after.contents)
    && (before.closeWrite ==> more == [])
    && (before.closeErr ==> n == 0 && status == Closed && after.contents == before.contents + more)
    && (!before.closeErr ==>
          && got <= |p| && before.contents + more == p[..got] + after.contents
          && (got == 0 ==>
                && n == 0
                && status == (if before.closeWrite && after.contents == [] then EndOfData else Done)
                && (|p| > 0 ==> after.contents == []))
          && (got > 0 ==> n == |p| && status == Done && Zero(p[got..]))
          && (0 < got < |p| ==> after.contents == []))
  }

  /** Other writers go first, then one read into p from position to on. */
  method ReadNext(r: TrackRing, p: array<Byte>, ghost from: nat, to: nat)
    returns (m: nat, status: Status, ghost added: seq<Byte>, ghost chunk: seq<Byte>)
    requires r.Valid() && p != r.rb && from <= to <= p.Length
    modifies r`head, r`tail, r.rb, p
    ensures r.Valid() && to + m <= p.Length
    ensures r.Abstract() == old(r.Abstract()).(contents := r.Contents())
    ensures p[..from] == old(p[..from]) && p[from..to + m] == old(p[from..to]) + chunk && |chunk| == m
    ensures old(r.Contents()) + added == chunk + r.Contents()
    ensures r.closeWrite ==> added == []
    ensures (status == Closed <==> r.closeErr) && (status == Closed ==> m == 0)
    ensures status == EndOfData ==> r.closeWrite && m == 0 && r.Contents() == []
    ensures m == 0 && status != Closed && to < p.Length ==> r.Contents() == []
    ensures m == 0 && r.closeWrite && r.Contents() == [] && !r.closeErr && old(r.Contents()) == [] ==> status == EndOfData
  {
    hide View;
    added := Others(r);
    ghost var stored := r.Contents();
    ghost var kept := p[..to];
    m, status := r.Read(p, to);
    chunk := p[to..to + m];
    assert stored == chunk + r.Contents();
    assert p[from..to + m] == p[from..to] + chunk;
    assert p[..from] == p[..to][..from] && kept[..from] == old(p[..from]);
    assert p[from..to] == p[..to][from..] && kept[from..] == old(p[from..to]);
  }

  lemma Regroup(begin: seq<Byte>, more: seq<Byte>, taken: seq<Byte>, stored: seq<Byte>, added: seq<Byte>,
                chunk: seq<Byte>, after: seq<Byte>)
    requires begin + more == taken + stored && stored + added == chunk + after
    ensures begin + (more + added) == taken + chunk + after
  {
    assert begin + (more + added) == begin + more + added == taken + (stored + added);
  }

  /** The reading loop: stops when a read brings nothing, or fails, or the end is reached. */
  method ReadLoop(r: TrackRing, p: array<Byte>, from: nat)
    returns (readBytes: nat, readErr: Status, ghost more: seq<Byte>)
    requires r.Valid() && p != r.rb && from <= p.Length
    modifies r`head, r`tail, r.rb, p
    ensures r.Valid() && p[..from] == old(p[..from]) && from + readBytes <= p.Length
    ensures r.Abstract() == old(r.Abstract()).(contents := r.Contents())
    ensures old(r.Contents()) + more == p[from..from + readBytes] + r.Contents()
    ensures r.closeWrite ==> more == []
    ensures if r.closeErr then readBytes == 0 && readErr == Closed else readErr == EndOfData || readErr == Done
    ensures readErr == EndOfData ==> r.closeWrite && r.Contents() == []
    ensures !r.closeErr && from + readBytes < p.Length ==> r.Contents() == []
    ensures readBytes == 0 && readErr == Done ==> !(r.closeWrite && r.Contents() == [])
  {
    hide View;
    readBytes, readErr, more := 0, Done, [];
    ghost var begin := r.Abstract();
    while true
      invariant r.Valid() && from + readBytes <= p.Length
      invariant r.Abstract() == begin.(contents := r.Contents())
      invariant p[..from] == old(p[..from])
      invariant begin.contents + more == p[from..from + readBytes] + r.Contents()
      invariant begin.closeWrite ==> more == []
      invariant begin.closeErr ==> readBytes == 0
      decreases p.Length - readBytes
    {
      ghost var taken, stored := p[from..from + readBytes], r.Contents();
      var n, err, added, chunk := ReadNext(r, p, from, from + readBytes);
      Regroup(begin.contents, more, taken, stored, added, chunk, r.Contents());
      more := more + added;
      if n > 0 {
        readBytes := readBytes + n;
      }
      if err == EndOfData || err == Closed {
        readErr := err;
        break;
      }
      if n == 0 {
        break;
      }
    }
  }

  method ReadFull(r: TrackRing, p: array<Byte>, from: nat)
    returns (n: nat, status: Status, ghost more: seq<Byte>, ghost got: nat)
    requires r.Valid() && p != r.rb && from <= p.Length
    modifies r`head, r`tail, r.rb, p
    ensures r.Valid() && p[..from] == old(p[..from])
    ensures FullRead(old(r.Abstract()), more, r.Abstract(), p[from..], got, n, status)
  {
    hide View, Zero, FullRead;
    ghost var begin := r.Abstract();
    var readBytes, readErr;
    readBytes, readErr, more := ReadLoop(r, p, from);
    got := readBytes;
    if readErr == Closed {
      ReadClosed(begin, more, r.Abstract(), p[from..], got);
      return 0, Closed, more, got;
    }
    if readBytes == 0 {
      assert p[from..from] + r.Contents() == r.Contents();
      ReadNothing(begin, more, r.Abstract(), p[from..], readErr);
      return 0, readErr, more, got;
    }
    ghost var filled := p[..from + readBytes];
    Clear(p, from + readBytes);
    assert p[..from + got] == filled && p[..from] == filled[..from];
    assert p[from..][..got] == p[..from + got][from..] == filled[from..];
    assert p[from..][got..] == p[from + got..];
    ReadSome(begin, more, r.Abstract(), p[from..], got);
    return p.Length - from, Done, more, got;
  }

  lemma ReadClosed(before: Ring<Byte>, more: seq<Byte>, after: Ring<Byte>, p: seq<Byte>, got: nat)
    requires before.closeErr && after == before.(contents := before.contents + more)
    requires before.closeWrite ==> more == []
    ensures FullRead(before, more, after, p, got, 0, Closed)
  {
  }

  lemma ReadNothing(before: Ring<Byte>, more: seq<Byte>, after: Ring<Byte>, p: seq<Byte>, status: Status)
    requires !before.closeErr && after == before.(contents := before.contents + more)
    requires before.closeWrite ==> more == []
    requires status == if before.closeWrite && after.contents == [] then EndOfData else Done
    requires |p| > 0 ==> after.contents == []
    ensures FullRead(before, more, after, p, 0, 0, status)
  {
    assert p[..0] + after.contents == after.contents;
  }

  lemma ReadSome(before: Ring<Byte>, more: seq<Byte>, after: Ring<Byte>, p: seq<Byte>, got: nat)
    requires !before.closeErr && after == before.(contents := after.contents)
    requires before.closeWrite ==> more == []
    requires 0 < got <= |p| && before.contents + more == p[..got] + after.contents
    requires Zero(p[got..]) && (got < |p| ==> after.contents == [])
    ensures FullRead(before, more, after, p, got, |p|, Done)
  {
  }

  ghost predicate AtEnd(r: Ring<Byte>) {
    r.closeWrite && !r.closeErr && r.contents == []
  }

  lemma AllOrNothing(before: Ring<Byte>, more: seq<Byte>, after: Ring<Byte>, p: seq<Byte>, got: nat,
                     n: nat, status: Status)
    requires FullRead(before, more, after, p, got, n, status)
    ensures n == 0 || n == |p|
    ensures status == EndOfData ==> AtEnd(before)
    ensures after == before.(contents := after.contents)
  {
  }

  ghost predicate AllValid(inputs: seq<TrackRing>)
    reads inputs
  {
    forall j | 0 <= j < |inputs| :: inputs[j].Valid()
  }

  ghost predicate Apart(inputs: seq<TrackRing>) {
    forall i, j | 0 <= i < j < |inputs| :: inputs[i] != inputs[j] && inputs[i].rb != inputs[j].rb
  }

  /** Reads the first input; it is closed if it was at its end, and the others are left alone. */
  method ReadFirst(inputs: seq<TrackRing>, p: array<Byte>)
    returns (n: nat, status: Status, ghost more: seq<Byte>, ghost got: nat)
    requires inputs != [] && AllValid(inputs) && Apart(inputs)
    requires forall j | 0 <= j < |inputs| :: inputs[j].rb != p
    modifies inputs[0], inputs[0].rb, p
    ensures AllValid(inputs[1..]) && Apart(inputs[1..])
    ensures status != EndOfData ==> AllValid(inputs)
    ensures forall j | 0 < j < |inputs| :: inputs[j].Abstract() == old(inputs[j].Abstract())
    ensures n == 0 || n == p.Length
    ensures status == EndOfData ==> AtEnd(old(inputs[0].Abstract()))
    ensures status != EndOfData ==>
      FullRead(old(inputs[0].Abstract()), more, inputs[0].Abstract(), p[..], got, n, status)
  {
    hide View, FullRead, Zero;
    ghost var before := inputs[0].Abstract();
    n, status, more, got := ReadFull(inputs[0], p, 0);
    assert p[..] == p[0..];
    AllOrNothing(before, more, inputs[0].Abstract(), p[..], got, n, status);
    if status == EndOfData {
      inputs[0].CloseWithError();
    }
  }

  class Track {
    var inputs: seq<TrackRing>
    var closeWrite: bool
    var closeErr: bool

    ghost predicate Valid()
      reads this, inputs
    {
      AllValid(inputs) && Apart(inputs)
    }

    ghost function Stores(): set<object>
      reads this
    {
      set r: TrackRing | r in inputs :: r.rb
    }

    /**
      Reads the inputs in order.  The result is all of p or nothing; p is padded with zeros only
      after everything the current input holds, and inputs that were passed over were at their end.
     */
    method Read(p: array<Byte>)
      returns (n: nat, status: Status, ghost passed: nat, ghost more: seq<Byte>, ghost got: nat)
      requires Valid() && forall j | 0 <= j < |inputs| :: inputs[j].rb != p
      modifies this`inputs, inputs, Stores(), p
      ensures Valid() && (n == 0 || n == p.Length)
      ensures passed <= |old(inputs)| && inputs == old(inputs)[passed..]
      ensures forall j | 0 <= j < passed :: AtEnd(old(inputs[j].Abstract()))
      ensures forall j | 0 < j < |inputs| :: inputs[j].Abstract() == old(inputs[passed + j].Abstract())
      ensures closeErr ==> n == 0 && status == Closed && passed == 0
      ensures !closeErr && inputs == [] ==> n == 0 && status == if closeWrite then EndOfData else Done
      ensures !closeErr && inputs != [] ==>
        FullRead(old(inputs[passed].Abstract()), more, inputs[0].Abstract(), p[..], got, n, status) && status != EndOfData
    {
      hide View, FullRead, Zero, AtEnd, Apart, TrackRing.Abstract, TrackRing.Contents;
      passed, more, got := 0, [], 0;
      if closeErr {
        return 0, Closed, 0, [], 0;
      }
      ghost var all := inputs;
      while true
        invariant Valid() && passed <= |all| && inputs == all[passed..]
        invariant forall j | 0 <= j < |all| :: all[j].rb != p
        invariant forall j | 0 <= j < passed :: AtEnd(old(all[j].Abstract()))
        invariant forall j | passed <= j < |all| :: all[j].Abstract() == old(all[j].Abstract())
        decreases |inputs|
      {
        if |inputs| == 0 {
          return 0, if closeWrite then EndOfData else Done, passed, [], 0;
        }
        var rn, err;
        rn, err, more, got := ReadFirst(inputs, p);
        if err == EndOfData {
          inputs := inputs[1..];
          passed := passed + 1;
        } else {
          return rn, err, passed, more, got;
        }
      }
    }
  }
}

/**
  The blocking ring as a class.  Each method is one turn of a call under the lock, from taking
  the lock (or waking up) to returning or parking; it refines a turn of the protocol.
 */
module BlockBuffer {
  import opened Basics
  import opened Rings
  import opened BlockProtocol

  class BlockBuffer<T(0)> {
    const buf: array<T>
    var head: nat
    var tail: nat
    var closeWrite: bool
    var closeErr: bool

    ghost predicate Valid()
      reads this
    {
      buf.Length > 0 && head <= tail <= head + buf.Length && (closeErr ==> closeWrite)
    }

    ghost function Abstract(): (r: Ring<T>)
      requires Valid()
      reads this, buf
      ensures |r.contents| == tail - head <= r.size
    {
      Ring(View(buf[..], Slot(head, buf.Length), tail - head), buf.Length, closeWrite, closeErr)
    }

    constructor (storage: array<T>)
      requires storage.Length > 0
      ensures Valid() && buf == storage && Abstract() == Ring([], storage.Length, false, false)
    {
      buf, head, tail, closeWrite, closeErr := storage, 0, 0, false, false;
    }

    /** The free part of the ring takes what it can. */
    method Fill(p: seq<T>) returns (n: nat)
      requires Valid() && tail - head < buf.Length
      modifies this`tail, buf
      ensures Valid() && n == Min(buf.Length - |old(Abstract()).contents|, |p|)
      ensures Abstract() == old(Abstract()).(contents := old(Abstract()).contents + p[..n])
    {
      hide View, Slot, Wrap, Splice, Placed;
      ghost var was, len := buf[..], tail - head;
      SlotAhead(head, len, buf.Length);
      n := PlaceWrapped(buf, Slot(tail, buf.Length), buf.Length - (tail - head), p);
      PlacedAppends(was, buf[..], Slot(head, buf.Length), len, p[..n]);
      tail := tail + n;
    }

    /** A turn of Write: p is what the call has not placed yet. */
    method Write(p: seq<T>) returns (wn: nat, status: Status)
      requires Valid()
      modifies this`tail, buf
      ensures Valid()
      ensures (Abstract(), wn, status) == Put(old(Abstract()), p)
    {
      hide View, Slot;
      if closeErr || closeWrite {
        return 0, Closed;
      }
      wn := 0;
      while wn < |p|
        invariant Valid() && wn <= |p|
        invariant Abstract() == old(Abstract()).(contents := old(Abstract()).contents + p[..wn])
      {
        if tail - head == buf.Length {
          return wn, Waits;
        }
        var n := Fill(p[wn..]);
        assert p[..wn + n] == p[..wn] + p[wn..][..n];
        wn := wn + n;
      }
      assert p[..wn] == p;
      return wn, Done;
    }

    /** A turn of Add. */
    method Add(t: T) returns (status: Status)
      requires Valid()
      modifies this`tail, buf
      ensures Valid()
      ensures (Abstract(), if status == Done then 1 else 0, status) == Put(old(Abstract()), [t])
    {
      hide View, Slot, Wrap, Splice, Placed;
      if closeErr || closeWrite {
        return Closed;
      }
      if tail - head == buf.Length {
        assert Abstract().contents + [t][..0] == Abstract().contents;
        return Waits;
      }
      ghost var now := buf[..][Slot(tail, buf.Length) := t];
      SlotAhead(head, tail - head, buf.Length);
      OnePlaced(buf[..], Slot(tail, buf.Length), t);
      PlacedAppends(buf[..], now, Slot(head, buf.Length), tail - head, [t]);
      buf[Slot(tail, buf.Length)] := t;
      assert buf[..] == now && [t][..1] == [t];
      tail := tail + 1;
      return Done;
    }

    /** Advancing the head by k drops k elements. */
    lemma Dropped(k: nat)
      requires Valid() && k <= tail - head
      ensures View(buf[..], Slot(head + k, buf.Length), tail - (head + k))
           == View(buf[..], Slot(head, buf.Length), tail - head)[k..]
    {
      hide View, Slot;
      SlotAhead(head, k, buf.Length);
      ViewDrop(buf[..], Slot(head, buf.Length), tail - head, k);
    }

    /** A turn of Read. */
    method Read(p: array<T>) returns (n: nat, status: Status)
      requires Valid() && p != buf
      modifies this`head, p
      ensures Valid()
      ensures n <= p.Length && (Abstract(), p[..n], status) == Take(old(Abstract()), p.Length)
      ensures p[n..] == old(p[n..])
    {
      hide View, Slot, Wrap, Splice, Placed;
      if closeErr {
        return 0, Closed;
      }
      if head == tail {
        return 0, if closeWrite then EndOfData else Waits;
      }
      ghost var was := Abstract().contents;
      SpliceFront(p[..], was[..Min(p.Length, |was|)]);
      n := TakeWrapped(buf, Slot(head, buf.Length), tail - head, p);
      Dropped(n);
      head := head + n;
      return n, Done;
    }

    /** A turn of Next; chunk is the one element, if there is one. */
    method Next() returns (chunk: seq<T>, status: Status)
      requires Valid()
      modifies this`head
      ensures Valid()
      ensures (Abstract(), chunk, status) == Take(old(Abstract()), 1)
    {
      hide View, Slot, Placed;
      if closeErr {
        return [], Closed;
      }
      if head == tail {
        return [], if closeWrite then EndOfData else Waits;
      }
      ghost var was := Abstract().contents;
      assert was[0] == buf[Slot(head, buf.Length)] && was[..1] == [was[0]];
      Dropped(1);
      chunk := [buf[Slot(head, buf.Length)]];
      head := head + 1;
      status := Done;
    }

    method CloseWrite()
      requires Valid()
      modifies this`closeWrite
      ensures Valid() && Abstract() == old(Abstract()).(closeWrite := true)
    {
      closeWrite := true;
    }

    method CloseWithError()
      requires Valid()
      modifies this`closeErr, this`closeWrite
      ensures Valid()
      ensures Abstract() == old(Abstract()).(closeErr := true, closeWrite := true)
    {
      if closeErr {
        return;
      }
      closeErr := true;
      if !closeWrite {
        closeWrite := true;
      }
    }
  }
}

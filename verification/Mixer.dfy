/**
  The mixer: tracks in a linked list, read one after the other into a mixing buffer of reals,
  with tracks whose read fails unlinked on the way.
 */
module Mixer {

  /** What reading one track gives in this pass, with the gain loaded for its samples. */
  datatype Outcome = Failed | NoData | Frame(samples: seq<int>, gain: real)

  ghost predicate Pcm16(x: int) {
    -32768 <= x <= 32767
  }

  // ---------------------------------------------------------------------------
  // Mixing over the reals
  // ---------------------------------------------------------------------------

  function Normal(x: int): real {
    if x >= 0 then x as real / 32767.0 else x as real / 32768.0
  }

  function Part(o: Outcome, i: nat): real {
    if o.Frame? && i < |o.samples| then Normal(o.samples[i]) * o.gain else 0.0
  }

  /** The gain-weighted sum of sample i over the tracks that delivered. */
  function Sum(outs: seq<Outcome>, i: nat): real {
    if outs == [] then 0.0 else Sum(outs[..|outs| - 1], i) + Part(outs[|outs| - 1], i)
  }

  function Clip(t: real): real {
    if t > 1.0 then 1.0 else if t < -1.0 then -1.0 else t
  }

  /** The conversion to 16 bits truncates toward zero. */
  function ToPcm(t: real): (x: int) {
    var c := Clip(t);
    if c >= 0.0 then (c * 32767.0).Floor else -((-c * 32768.0).Floor)
  }

  function Abs(t: real): real {
    if t >= 0.0 then t else -t
  }

  /** peak bounds every part that went in, and is zero unless one of them is not. */
  ghost predicate Peak(outs: seq<Outcome>, n: nat, peak: real) {
    && (forall k, i | 0 <= k < |outs| && 0 <= i < n :: Abs(Part(outs[k], i)) <= peak)
    && (peak == 0.0 || exists k, i | 0 <= k < |outs| && 0 <= i < n :: Abs(Part(outs[k], i)) == peak)
  }

  /** Samples converted to 16 bits never leave the 16-bit range. */
  lemma PcmRange(t: real)
    ensures Pcm16(ToPcm(t))
  {
    var c := Clip(t);
    if c >= 0.0 {
      assert 0.0 <= c * 32767.0 <= 32767.0;
    } else {
      assert 0.0 <= -c * 32768.0 <= 32768.0;
    }
  }

  /** A louder mix never converts to a smaller sample. */
  lemma PcmMonotone(s: real, t: real)
    requires s <= t
    ensures ToPcm(s) <= ToPcm(t)
  {
    var c, d := Clip(s), Clip(t);
    assert c <= d;
    if c >= 0.0 {
      assert c * 32767.0 <= d * 32767.0;
    } else if d < 0.0 {
      assert -d * 32768.0 <= -c * 32768.0;
    } else {
      assert 0.0 <= d * 32767.0 && 0.0 <= -c * 32768.0;
    }
  }

  /** One track at unit gain comes out of the mixer sample for sample as it went in. */
  lemma LoneTrackPasses(samples: seq<int>, i: nat)
    requires i < |samples| && Pcm16(samples[i])
    ensures ToPcm(Sum([Frame(samples, 1.0)], i)) == samples[i]
  {
    var outs := [Frame(samples, 1.0)];
    assert outs[..0] == [];
    var x := samples[i];
    assert Sum(outs, i) == Sum(outs[..0], i) + Part(outs[0], i) == Normal(x);
    if x >= 0 {
      assert Normal(x) * 32767.0 == x as real;
    } else {
      assert -Normal(x) * 32768.0 == -(x as real);
    }
  }

  /** The mix adds up over the tracks. */
  lemma {:induction false} MixAddsUp(a: seq<Outcome>, b: seq<Outcome>, i: nat)
    ensures Sum(a + b, i) == Sum(a, i) + Sum(b, i)
  {
    if b == [] {
      assert a + b == a;
    } else {
      var n := |b| - 1;
      MixAddsUp(a, b[..n], i);
      SumStep(a + b[..n], b[n], i);
      SumStep(b[..n], b[n], i);
      assert a + b == a + b[..n] + [b[n]] && b == b[..n] + [b[n]];
    }
  }

  /** One track counts in proportion to its gain, and not at all without data. */
  lemma GainScales(samples: seq<int>, gain: real, i: nat)
    ensures Sum([Frame(samples, gain)], i) == gain * Sum([Frame(samples, 1.0)], i)
    ensures Sum([Failed], i) == 0.0 && Sum([NoData], i) == 0.0
  {
    OneTrack(Frame(samples, gain), i);
    OneTrack(Frame(samples, 1.0), i);
    OneTrack(Failed, i);
    OneTrack(NoData, i);
    hide Sum, Normal;
  }

  lemma OneTrack(o: Outcome, i: nat)
    ensures Sum([o], i) == Part(o, i)
  {
    assert [o][..0] == [];
  }

  /** With nothing but zeros going in, the conversion loop would write zeros. */
  lemma {:induction false} SilenceMixesToZero(outs: seq<Outcome>, n: nat, i: nat)
    requires Peak(outs, n, 0.0) && i < n
    ensures Sum(outs, i) == 0.0 && ToPcm(Sum(outs, i)) == 0
  {
    if outs != [] {
      var last := |outs| - 1;
      assert Abs(Part(outs[last], i)) <= 0.0;
      forall k, j | 0 <= k < last && 0 <= j < n ensures Abs(Part(outs[..last][k], j)) <= 0.0 {
        assert outs[..last][k] == outs[k];
      }
      SilenceMixesToZero(outs[..last], n, i);
    }
  }

  function Remove<T>(s: seq<T>, k: nat): (r: seq<T>)
    requires k < |s|
    ensures |r| == |s| - 1
  {
    s[..k] + s[k + 1..]
  }

  lemma BagWithout<T>(s: seq<T>, k: nat)
    requires k < |s|
    ensures multiset(Remove(s, k)) == multiset(s) - multiset{s[k]}
  {
    assert s == s[..k] + [s[k]] + s[k + 1..];
  }

  lemma RemoveMeans<T>(s: seq<T>, k: nat)
    requires k < |s|
    ensures |Remove(s, k)| == |s| - 1
    ensures forall i | 0 <= i < |s| - 1 :: Remove(s, k)[i] == s[if i < k then i else i + 1]
  {
  }

  lemma {:induction false} SumWithout(outs: seq<Outcome>, k: nat, i: nat)
    requires k < |outs|
    ensures Sum(outs, i) == Sum(Remove(outs, k), i) + Part(outs[k], i)
  {
    var last := |outs| - 1;
    if k == last {
      assert Remove(outs, k) == outs[..last];
    } else {
      SumWithout(outs[..last], k, i);
      var r := Remove(outs, k);
      assert r[..|r| - 1] == Remove(outs[..last], k) && r[|r| - 1] == outs[last];
    }
  }

  /** The mix does not depend on the order of the tracks in the list. */
  lemma {:induction false} OrderDoesNotMatter(a: seq<Outcome>, b: seq<Outcome>, i: nat)
    requires multiset(a) == multiset(b)
    ensures Sum(a, i) == Sum(b, i)
    decreases |a|
  {
    hide Remove, Part;
    if a == [] {
      assert |multiset(b)| == 0 && b == [];
    } else {
      var last := |a| - 1;
      var x := a[last];
      assert a == a[..last] + [x];
      assert x in multiset(b);
      var k :| 0 <= k < |b| && b[k] == x;
      BagWithout(b, k);
      assert multiset(Remove(b, k)) == multiset(a[..last]);
      OrderDoesNotMatter(a[..last], Remove(b, k), i);
      SumWithout(b, k, i);
    }
  }

  /** A failed track or one without data leaves the mix as it is. */
  lemma SumStep(outs: seq<Outcome>, o: Outcome, i: nat)
    ensures Sum(outs + [o], i) == Sum(outs, i) + Part(o, i)
  {
    assert (outs + [o])[..|outs|] == outs;
  }

  lemma PeakStep(outs: seq<Outcome>, o: Outcome, n: nat, peak: real, next: real)
    requires Peak(outs, n, peak) && peak <= next
    requires forall i | 0 <= i < n :: Abs(Part(o, i)) <= next
    requires next == peak || exists i | 0 <= i < n :: Abs(Part(o, i)) == next
    ensures Peak(outs + [o], n, next)
  {
    var all := outs + [o];
    forall k, i | 0 <= k < |all| && 0 <= i < n ensures Abs(Part(all[k], i)) <= next {
      assert k < |outs| ==> all[k] == outs[k];
    }
    if next != 0.0 {
      if next == peak {
        var k, i :| 0 <= k < |outs| && 0 <= i < n && Abs(Part(outs[k], i)) == peak;
        assert all[k] == outs[k];
      } else {
        var i :| 0 <= i < n && Abs(Part(o, i)) == next;
        assert all[|outs|] == o;
      }
    }
  }

  // ---------------------------------------------------------------------------
  // The list of tracks
  // ---------------------------------------------------------------------------

  datatype Mark = Mark(fadeOut: nat, writeClosed: bool, closed: bool)

  /** Nothing more can be written; a track that is to fade out is closed entirely only later. */
  function Closing(m: Mark): Mark { m.(writeClosed := true, closed := m.closed || m.fadeOut == 0) }

  class TrackCtrl {
    var next: TrackCtrl?
    var mark: Mark

    constructor (next: TrackCtrl?)
      ensures this.next == next && mark == Mark(0, false, false)
    {
      this.next, mark := next, Mark(0, false, false);
    }

    method CloseWithError()
      modifies this`mark
      ensures mark == Closing(old(mark))
    {
      if mark.fadeOut > 0 {
        mark := mark.(writeClosed := true);
      } else {
        mark := mark.(writeClosed := true, closed := true);
      }
    }
  }

  function At(s: seq<TrackCtrl>, k: nat): TrackCtrl? {
    if k < |s| then s[k] else null
  }

  lemma AtIsThere(s: seq<TrackCtrl>, k: nat)
    ensures At(s, k) == null <==> k >= |s|
    ensures k < |s| ==> At(s, k) == s[k]
  {
  }

  ghost predicate Distinct(s: seq<TrackCtrl>) {
    forall i, j | 0 <= i < j < |s| :: s[i] != s[j]
  }

  lemma Apart(s: seq<TrackCtrl>, k: nat)
    requires Distinct(s) && k < |s|
    ensures forall i | 0 <= i < |s| && i != k :: s[i] != s[k]
  {
  }

  ghost predicate Linked(s: seq<TrackCtrl>)
    reads s
  {
    forall i | 0 <= i < |s| :: s[i].next == At(s, i + 1)
  }

  lemma LinksThere(s: seq<TrackCtrl>)
    requires Linked(s)
    ensures forall i | 0 <= i < |s| :: s[i].next == At(s, i + 1)
  {
  }

  lemma Bridged(s: seq<TrackCtrl>, j: nat)
    requires j < |s| && Distinct(s)
    ensures Distinct(Remove(s, j)) && At(Remove(s, j), 0) == At(s, if j == 0 then 1 else 0)
  {
  }

  lemma LinkedWithout(s: seq<TrackCtrl>, j: nat)
    requires j < |s|
    requires forall i | 0 <= i < |s| && i + 1 != j :: s[i].next == At(s, i + 1)
    requires j > 0 ==> s[j - 1].next == At(s, j + 1)
    ensures Linked(Remove(s, j))
  {
    hide Remove;
    RemoveMeans(s, j);
    var rest := Remove(s, j);
    forall i | 0 <= i < |rest| ensures rest[i].next == At(rest, i + 1) {
      var k := if i < j then i else i + 1;
      assert rest[i] == s[k];
      assert At(rest, i + 1) == At(s, if i + 1 < j then i + 1 else i + 2);
    }
  }

  /** The tracks whose read did not fail, in order. */
  function Survivors(tracks: seq<TrackCtrl>, outs: seq<Outcome>): (s: seq<TrackCtrl>)
    requires |tracks| == |outs|
    ensures |s| <= |tracks|
  {
    if tracks == [] then []
    else
      var last := |tracks| - 1;
      Survivors(tracks[..last], outs[..last]) + if outs[last].Failed? then [] else [tracks[last]]
  }

  /** The places of the tracks whose read did not fail. */
  function Places(outs: seq<Outcome>): seq<nat> {
    if outs == [] then []
    else
      var n := |outs| - 1;
      Places(outs[..n]) + if outs[n].Failed? then [] else [n]
  }

  lemma {:induction false} PlacesMean(outs: seq<Outcome>)
    ensures forall k: nat :: k in Places(outs) <==> k < |outs| && !outs[k].Failed?
    ensures forall j, k | 0 <= j < k < |Places(outs)| :: Places(outs)[j] < Places(outs)[k]
  {
    if outs != [] {
      var n := |outs| - 1;
      PlacesMean(outs[..n]);
      PlacesStep(outs);
      hide Places;
      OneMorePlace(outs, Places(outs[..n]), Places(outs));
    }
  }

  lemma PlacesStep(outs: seq<Outcome>)
    requires outs != []
    ensures Places(outs) == Places(outs[..|outs| - 1]) + if outs[|outs| - 1].Failed? then [] else [|outs| - 1]
  {
  }

  lemma OneMorePlace(outs: seq<Outcome>, front: seq<nat>, all: seq<nat>)
    requires outs != [] && all == front + if outs[|outs| - 1].Failed? then [] else [|outs| - 1]
    requires forall k: nat :: k in front <==> k < |outs| - 1 && !outs[..|outs| - 1][k].Failed?
    requires forall j, k | 0 <= j < k < |front| :: front[j] < front[k]
    ensures forall k: nat :: k in all <==> k < |outs| && !outs[k].Failed?
    ensures forall j, k | 0 <= j < k < |all| :: all[j] < all[k]
  {
    var n := |outs| - 1;
    forall k: nat ensures k in all <==> k < |outs| && !outs[k].Failed? {
      assert k in all <==> k in front || (k == n && !outs[n].Failed?);
      assert k < n ==> outs[..n][k] == outs[k];
    }
    forall j | 0 <= j < |front| ensures front[j] < n {
      assert front[j] in front;
    }
  }

  lemma {:induction false} SurvivorsAt(tracks: seq<TrackCtrl>, outs: seq<Outcome>)
    requires |tracks| == |outs|
    ensures |Survivors(tracks, outs)| == |Places(outs)|
    ensures forall j | 0 <= j < |Places(outs)| ::
      Places(outs)[j] < |tracks| && Survivors(tracks, outs)[j] == tracks[Places(outs)[j]]
  {
    if tracks != [] {
      SurvivorsAt(tracks[..|tracks| - 1], outs[..|tracks| - 1]);
    }
  }

  /** The survivors are the tracks at exactly the places whose read did not fail, in order. */
  lemma SurvivorsAre(tracks: seq<TrackCtrl>, outs: seq<Outcome>) returns (at: seq<nat>)
    requires |tracks| == |outs|
    ensures forall k: nat :: k in at <==> k < |outs| && !outs[k].Failed?
    ensures forall j, k | 0 <= j < k < |at| :: at[j] < at[k]
    ensures |Survivors(tracks, outs)| == |at|
    ensures forall j | 0 <= j < |at| :: at[j] < |tracks| && Survivors(tracks, outs)[j] == tracks[at[j]]
  {
    hide Survivors, Places;
    at := Places(outs);
    PlacesMean(outs);
    SurvivorsAt(tracks, outs);
  }

  lemma SurvivorsStep(tracks: seq<TrackCtrl>, outs: seq<Outcome>, k: nat)
    requires |tracks| == |outs| && k < |tracks|
    ensures Survivors(tracks[..k + 1], outs[..k + 1])
         == Survivors(tracks[..k], outs[..k]) + if outs[k].Failed? then [] else [tracks[k]]
  {
    assert tracks[..k + 1][..k] == tracks[..k] && outs[..k + 1][..k] == outs[..k];
  }

  ghost predicate AnyFrame(outs: seq<Outcome>) {
    exists k | 0 <= k < |outs| :: outs[k].Frame?
  }

  function Marks(tracks: seq<TrackCtrl>): (m: seq<Mark>)
    reads tracks
    ensures |m| == |tracks|
  {
    seq(|tracks|, i requires 0 <= i < |tracks| reads tracks => tracks[i].mark)
  }

  /** Exactly the tracks whose read failed are closed, the others are left alone. */
  function Closed(m: seq<Mark>, outs: seq<Outcome>): (r: seq<Mark>)
    ensures |r| == |m|
  {
    seq(|m|, i requires 0 <= i < |m| => if i < |outs| && outs[i].Failed? then Closing(m[i]) else m[i])
  }

  lemma NoneClosed(m: seq<Mark>, outs: seq<Outcome>)
    ensures Closed(m, outs[..0]) == m
  {
  }

  lemma ClosedStep(m: seq<Mark>, outs: seq<Outcome>, k: nat)
    requires k < |outs| == |m|
    ensures var c := Closed(m, outs[..k]);
      Closed(m, outs[..k + 1]) == if outs[k].Failed? then c[k := Closing(c[k])] else c
  {
  }

  datatype Result = Failure | EndOfMix | Wait | Played

  class Mixer {
    var head: TrackCtrl?
    ghost var tracks: seq<TrackCtrl>
    var closeErr: bool
    var closeWrite: bool
    var autoClose: bool
    var silenceGap: nat
    var runningSilence: nat
    var buf: array<real>

    ghost predicate Valid()
      reads this, tracks
    {
      head == At(tracks, 0) && Linked(tracks) && Distinct(tracks)
    }

    constructor (autoClose: bool, silenceGap: nat)
      ensures Valid() && tracks == [] && !closeErr && !closeWrite && runningSilence == silenceGap && fresh(buf)
    {
      head, tracks, closeErr, closeWrite := null, [], false, false;
      this.autoClose, this.silenceGap, runningSilence := autoClose, silenceGap, silenceGap;
      buf := new real[0];
    }

    /** A new track goes to the front of the list. */
    method CreateTrack() returns (tc: TrackCtrl?)
      requires Valid()
      modifies this`head, this`tracks
      ensures Valid()
      ensures if closeErr || closeWrite then tc == null && tracks == old(tracks)
              else tc != null && fresh(tc) && tracks == [tc] + old(tracks)
    {
      if closeErr || closeWrite {
        return null;
      }
      tc := new TrackCtrl(head);
      head := tc;
      tracks := [tc] + tracks;
    }

    /** Adds one track's samples to the mixing buffer and follows the peak. */
    method AddFrame(o: Outcome, n: nat, peak: real) returns (next: real)
      requires o.Frame? && |o.samples| == n <= buf.Length && peak >= 0.0
      modifies buf
      ensures forall i | 0 <= i < n :: buf[i] == old(buf[i]) + Part(o, i)
      ensures peak <= next && (forall i | 0 <= i < n :: Abs(Part(o, i)) <= next)
      ensures next == peak || exists i | 0 <= i < n :: Abs(Part(o, i)) == next
    {
      hide Abs, Part, Normal;
      next := peak;
      for i := 0 to n
        invariant forall j | 0 <= j < n :: buf[j] == old(buf[j]) + if j < i then Part(o, j) else 0.0
        invariant peak <= next && forall j | 0 <= j < i :: Abs(Part(o, j)) <= next
        invariant next == peak || exists j | 0 <= j < i :: Abs(Part(o, j)) == next
      {
        PartOf(o, i);
        AbsOf(Part(o, i), next);
        if o.samples[i] != 0 {
          var s := Weighted(o.samples[i], o.gain);
          if s > next {
            next := s;
          } else if -s > next {
            next := -s;
          }
          buf[i] := buf[i] + s;
        }
      }
    }

    method Weighted(sample: int, gain: real) returns (s: real)
      ensures s == Normal(sample) * gain
    {
      s := sample as real;
      if s >= 0.0 {
        s := s / 32767.0;
      } else {
        s := s / 32768.0;
      }
      s := s * gain;
    }

    lemma PartOf(o: Outcome, i: nat)
      requires o.Frame? && i < |o.samples|
      ensures Part(o, i) == Normal(o.samples[i]) * o.gain
      ensures o.samples[i] == 0 ==> Part(o, i) == 0.0
    {
    }

    lemma AbsOf(t: real, peak: real)
      requires peak >= 0.0
      ensures Abs(t) == if t > peak then t else if -t > peak then -t else Abs(t)
      ensures t <= peak && -t <= peak ==> Abs(t) <= peak
    {
    }

    method ClearMix()
      modifies buf
      ensures forall j | 0 <= j < buf.Length :: buf[j] == 0.0
    {
      for i := 0 to buf.Length
        invariant forall j | 0 <= j < i :: buf[j] == 0.0
      {
        buf[i] := 0.0;
      }
    }

    lemma First()
      requires Valid()
      ensures head == At(tracks, 0) && Distinct(tracks)
    {
    }

    /** Where the pass stands: the node to read next, and what comes of keeping or dropping it. */
    lemma Here(all: seq<TrackCtrl>, outs: seq<Outcome>, k: nat, kept: seq<TrackCtrl>)
      requires Valid() && Passed(all, outs, k, kept, tracks) && k < |all|
      ensures |kept| < |tracks| && tracks[|kept|] == all[k] && all[k].next == At(all, k + 1)
      ensures kept != [] ==> kept[|kept| - 1] == tracks[|kept| - 1] && kept[|kept| - 1] in all
      ensures if outs[k].Failed? then Passed(all, outs, k + 1, kept, Remove(tracks, |kept|))
              else Passed(all, outs, k + 1, kept + [all[k]], tracks)
    {
      hide Passed;
      PassOne(all, outs, k, kept, tracks);
    }

    /** Takes the node at position j out of the list. */
    method Unlink(prev: TrackCtrl?, it: TrackCtrl, ghost j: nat)
      requires Valid() && j < |tracks| && it == tracks[j] && prev == if j == 0 then null else tracks[j - 1]
      modifies this`head, this`tracks, (if prev == null then {} else {prev})`next
      ensures Valid() && tracks == Remove(old(tracks), j)
    {
      hide Remove, Linked;
      ghost var all := tracks;
      LinksThere(all);
      AtIsThere(all, j + 1);
      Bridged(all, j);
      if prev == null {
        head := it.next;
      } else {
        prev.next := it.next;
      }
      tracks := Remove(all, j);
      assert forall i | 0 <= i < |all| && i + 1 != j :: all[i].next == At(all, i + 1);
      LinkedWithout(all, j);
    }

    /** The pass has read k tracks and stands at the next one; prev is the last one it kept. */
    ghost predicate Reached(all: seq<TrackCtrl>, marks: seq<Mark>, outs: seq<Outcome>, k: nat, kept: seq<TrackCtrl>,
                            it: TrackCtrl?, prev: TrackCtrl?)
      reads this, tracks, all
    {
      && Valid() && Distinct(all) && Passed(all, outs, k, kept, tracks)
      && it == At(all, k) && prev == (if kept == [] then null else kept[|kept| - 1])
      && Marks(all) == Closed(marks, outs[..k])
    }

    lemma Starts(marks: seq<Mark>, outs: seq<Outcome>)
      requires Valid() && |outs| == |tracks| && marks == Marks(tracks)
      ensures Reached(tracks, marks, outs, 0, [], head, null)
    {
      hide Marks, Closed, Survivors, Linked, Distinct;
      NoneClosed(marks, outs);
      NonePassed(tracks, outs);
    }

    lemma Keeps(all: seq<TrackCtrl>, marks: seq<Mark>, outs: seq<Outcome>, k: nat, kept: seq<TrackCtrl>,
                it: TrackCtrl, prev: TrackCtrl?)
      requires |marks| == |all| && Reached(all, marks, outs, k, kept, it, prev) && k < |outs| && !outs[k].Failed?
      ensures Reached(all, marks, outs, k + 1, kept + [it], it.next, it)
    {
      hide Marks, Closed, Distinct, Passed, Valid, Remove;
      assert |all| == |outs| by {
        PassedLength(all, outs, k, kept, tracks);
      }
      AtIsThere(all, k);
      Here(all, outs, k, kept);
      ClosedStep(marks, outs, k);
    }

    /** Closes a track whose read failed and takes it out of the list. */
    method Drop(ghost all: seq<TrackCtrl>, ghost marks: seq<Mark>, ghost outs: seq<Outcome>, ghost k: nat,
                ghost kept: seq<TrackCtrl>, it: TrackCtrl, prev: TrackCtrl?) returns (next: TrackCtrl?)
      requires |marks| == |all| && Reached(all, marks, outs, k, kept, it, prev) && k < |outs| && outs[k].Failed?
      modifies this`head, this`tracks, all
      ensures Reached(all, marks, outs, k + 1, kept, next, prev)
    {
      hide Marks, Closed, Distinct, Passed, Valid, Remove, At, Survivors;
      PassedLength(all, outs, k, kept, tracks);
      AtIsThere(all, k);
      Here(all, outs, k, kept);
      ClosedStep(marks, outs, k);
      next := it.next;
      CloseAndUnlink(prev, it, |kept|, all, k);
    }

    method CloseAndUnlink(prev: TrackCtrl?, it: TrackCtrl, ghost j: nat, ghost all: seq<TrackCtrl>, ghost k: nat)
      requires Valid() && j < |tracks| && it == tracks[j] && prev == if j == 0 then null else tracks[j - 1]
      requires Distinct(all) && k < |all| && all[k] == it
      modifies this`head, this`tracks, it`mark, (if prev == null then {} else {prev})`next
      ensures Valid() && tracks == Remove(old(tracks), j)
      ensures Marks(all) == old(Marks(all))[k := Closing(old(Marks(all))[k])]
    {
      hide Remove, Distinct, At;
      ghost var was := Marks(all);
      Apart(all, k);
      it.CloseWithError();
      Unlink(prev, it, j);
      assert forall i | 0 <= i < |all| :: Marks(all)[i] == if i == k then Closing(was[i]) else was[i];
    }

    /**
      One pass over the tracks.  Exactly the tracks whose read failed leave the list, in order and
      counted; the buffer is the weighted sum of those that delivered.
     */
    method Pass(outs: seq<Outcome>, n: nat) returns (peak: real, read: bool, closedCount: nat)
      requires Valid() && |outs| == |tracks| && n <= buf.Length
      requires forall k | 0 <= k < |outs| && outs[k].Frame? :: |outs[k].samples| == n
      modifies this`head, this`tracks, tracks, buf
      ensures Valid() && tracks == Survivors(old(tracks), outs)
      ensures Marks(old(tracks)) == Closed(old(Marks(tracks)), outs)
      ensures closedCount == |old(tracks)| - |tracks|
      ensures read <==> AnyFrame(outs)
      ensures Peak(outs, n, peak)
      ensures forall i | 0 <= i < n :: buf[i] == Sum(outs, i)
    {
      hide Reached, Marks, Closed, Mixed, Valid, Peak, Sum, AnyFrame, Survivors, At;
      ClearMix();
      ghost var all, marks := tracks, Marks(tracks);
      ghost var kept: seq<TrackCtrl> := [];
      var it, prev: TrackCtrl?, k := head, null, 0;
      peak, read, closedCount := 0.0, false, 0;
      NothingMixed(buf[..], n);
      Starts(marks, outs);
      while it != null
        invariant k <= |outs| && closedCount == k - |kept|
        invariant Reached(all, marks, outs, k, kept, it, prev)
        invariant Mixed(buf[..], outs[..k], n, peak, read)
        decreases |outs| - k
      {
        Standing(all, marks, outs, k, kept, it, prev);
        if outs[k].Failed? {
          Unheard(buf[..], outs, k, n, peak, read);
          it := Drop(all, marks, outs, k, kept, it, prev);
          closedCount := closedCount + 1;
        } else {
          peak, read := Hear(outs, k, n, peak, read);
          Keeps(all, marks, outs, k, kept, it, prev);
          kept := kept + [it];
          prev := it;
          it := it.next;
        }
        k := k + 1;
      }
      Standing(all, marks, outs, k, kept, it, prev);
      assert outs[..k] == outs;
      MixedMeans(buf[..], outs, n, peak, read);
    }

    lemma Standing(all: seq<TrackCtrl>, marks: seq<Mark>, outs: seq<Outcome>, k: nat, kept: seq<TrackCtrl>,
                   it: TrackCtrl?, prev: TrackCtrl?)
      requires Reached(all, marks, outs, k, kept, it, prev) && |marks| == |all|
      ensures it == null <==> k == |outs|
      ensures it != null ==> it in all
      ensures it == null ==>
        Valid() && tracks == kept && |all| == |outs| && tracks == Survivors(all, outs) && Marks(all) == Closed(marks, outs)
    {
      hide Marks, Closed, Distinct, Valid, Survivors;
      AtIsThere(all, k);
      if it == null {
        AllPassed(all, outs, kept, tracks);
        assert outs[..k] == outs;
      }
    }

    /** What one track that did not fail adds to the mix. */
    method Hear(outs: seq<Outcome>, k: nat, n: nat, peak: real, read: bool) returns (next: real, any: bool)
      requires k < |outs| && n <= buf.Length && Mixed(buf[..], outs[..k], n, peak, read)
      requires outs[k].Frame? ==> |outs[k].samples| == n
      modifies buf
      ensures Mixed(buf[..], outs[..k + 1], n, next, any)
    {
      hide Peak, Part, Abs, AnyFrame;
      next, any := peak, read;
      assert outs[..k + 1] == outs[..k] + [outs[k]];
      AnyFrameStep(outs[..k], outs[k]);
      if outs[k].Frame? {
        any := true;
        next := AddFrame(outs[k], n, peak);
        Heard(outs[..k], outs[k], n, peak, next);
      } else {
        Unheard(buf[..], outs, k, n, peak, read);
      }
    }

    method Silence(i16: array<int>)
      modifies i16
      ensures forall i | 0 <= i < i16.Length :: i16[i] == 0
    {
      for i := 0 to i16.Length
        invariant forall j | 0 <= j < i :: i16[j] == 0
      {
        i16[i] := 0;
      }
    }

    /** What the conversion loop writes for one sample of the mixing buffer. */
    method Convert(n: nat, i16: array<int>)
      requires n <= buf.Length && n == i16.Length
      modifies i16
      ensures forall i | 0 <= i < n :: i16[i] == ToPcm(buf[i])
    {
      for i := 0 to n
        invariant forall j | 0 <= j < i :: i16[j] == ToPcm(buf[j])
      {
        var t := buf[i];
        if t > 1.0 {
          t := 1.0;
        } else if t < -1.0 {
          t := -1.0;
        }
        if t >= 0.0 {
          i16[i] := (t * 32767.0).Floor;
        } else {
          i16[i] := -((-t * 32768.0).Floor);
        }
      }
    }

    /**
      One round of a read of n samples lasting d.  Whatever plays is the clipped and converted mix of
      the tracks that delivered, also where the silence shortcut skips the conversion.
     */
    method ReadFull(outs: seq<Outcome>, n: nat, d: nat, i16: array<int>) returns (r: Result, closedCount: nat)
      requires Valid() && |outs| == |tracks| && i16.Length == n > 0
      requires forall k | 0 <= k < |outs| && outs[k].Frame? :: |outs[k].samples| == n
      modifies this`head, this`tracks, this`buf, this`closeWrite, this`runningSilence, tracks, buf, i16
      ensures Valid()
      ensures closeErr ==> r == Failure && tracks == old(tracks)
      ensures !closeErr && old(tracks) == [] ==>
        && tracks == []
        && r == (if old(closeWrite) || autoClose then EndOfMix
                 else if old(runningSilence) < silenceGap then Played else Wait)
      ensures !closeErr && old(tracks) != [] ==>
        && tracks == Survivors(old(tracks), outs) && Marks(old(tracks)) == Closed(old(Marks(tracks)), outs)
        && r == if AnyFrame(outs) || tracks != [] then Played else Wait
      ensures closedCount == |old(tracks)| - |tracks|
      ensures closeWrite == (old(closeWrite) || (r == EndOfMix && autoClose))
      ensures r == Played ==> forall i | 0 <= i < n :: i16[i] == ToPcm(Sum(outs, i)) && Pcm16(i16[i])
      ensures runningSilence ==
        if r != Played then old(runningSilence) else if AnyFrame(outs) then 0 else old(runningSilence) + d
    {
      hide Linked, Distinct, Peak, AnyFrame, Survivors, Marks, Closed, ToPcm, Pcm16;
      closedCount := 0;
      if buf.Length < n {
        buf := new real[n];
      }
      var peak, read, silence := 0.0, false, false;
      NoFrames();
      if closeErr {
        return Failure, 0;
      }
      if head == null {
        if closeWrite {
          return EndOfMix, 0;
        }
        if autoClose {
          closeWrite := true;
          return EndOfMix, 0;
        }
        if runningSilence >= silenceGap {
          return Wait, 0;
        }
        silence := true;
      } else {
        peak, read, closedCount := Pass(outs, n);
        silence := !read && head != null;
      }
      if !read && !silence {
        return Wait, closedCount;
      }
      if read {
        runningSilence := 0;
      } else {
        runningSilence := runningSilence + d;
      }
      if peak == 0.0 {
        Silence(i16);
        AllSilent(outs, n);
        return Played, closedCount;
      }
      Convert(n, i16);
      AllInRange(outs, n);
      return Played, closedCount;
    }
  }

  lemma AllSilent(outs: seq<Outcome>, n: nat)
    requires Peak(outs, n, 0.0)
    ensures Pcm16(0) && forall i | 0 <= i < n :: ToPcm(Sum(outs, i)) == 0
  {
    hide Peak, Sum, ToPcm;
    forall i | 0 <= i < n ensures ToPcm(Sum(outs, i)) == 0 {
      SilenceMixesToZero(outs, n, i);
    }
  }

  lemma AllInRange(outs: seq<Outcome>, n: nat)
    ensures forall i | 0 <= i < n :: Pcm16(ToPcm(Sum(outs, i)))
  {
    hide Sum, ToPcm, Pcm16;
    forall i | 0 <= i < n ensures Pcm16(ToPcm(Sum(outs, i))) {
      PcmRange(Sum(outs, i));
    }
  }

  lemma NoFrames()
    ensures !AnyFrame([]) && forall n :: Peak([], n, 0.0)
  {
  }

  /** The mix after the tracks that gave outs. */
  ghost predicate Mixed(buf: seq<real>, outs: seq<Outcome>, n: nat, peak: real, read: bool) {
    && n <= |buf| && peak >= 0.0 && Peak(outs, n, peak) && (read <==> AnyFrame(outs))
    && forall i | 0 <= i < n :: buf[i] == Sum(outs, i)
  }

  /** The list after k tracks: the kept ones, and those not read yet. */
  ghost predicate Passed(all: seq<TrackCtrl>, outs: seq<Outcome>, k: nat, kept: seq<TrackCtrl>, now: seq<TrackCtrl>) {
    && k <= |all| == |outs|
    && kept == Survivors(all[..k], outs[..k]) && now == kept + all[k..]
    && forall t | t in kept :: t in all
  }

  lemma NothingMixed(buf: seq<real>, n: nat)
    requires n <= |buf| && forall j | 0 <= j < |buf| :: buf[j] == 0.0
    ensures forall outs: seq<Outcome> :: Mixed(buf, outs[..0], n, 0.0, false)
  {
  }

  lemma MixedMeans(buf: seq<real>, outs: seq<Outcome>, n: nat, peak: real, read: bool)
    requires Mixed(buf, outs, n, peak, read)
    ensures n <= |buf| && Peak(outs, n, peak) && (read <==> AnyFrame(outs))
    ensures forall i | 0 <= i < n :: buf[i] == Sum(outs, i)
  {
  }

  lemma NonePassed(all: seq<TrackCtrl>, outs: seq<Outcome>)
    requires |all| == |outs|
    ensures Passed(all, outs, 0, [], all)
  {
  }

  lemma PassedLength(all: seq<TrackCtrl>, outs: seq<Outcome>, k: nat, kept: seq<TrackCtrl>, now: seq<TrackCtrl>)
    requires Passed(all, outs, k, kept, now)
    ensures k <= |all| == |outs|
  {
  }

  lemma PassOne(all: seq<TrackCtrl>, outs: seq<Outcome>, k: nat, kept: seq<TrackCtrl>, now: seq<TrackCtrl>)
    requires Passed(all, outs, k, kept, now) && k < |all|
    ensures |kept| < |now| && now[|kept|] == all[k] && At(now, |kept| + 1) == At(all, k + 1)
    ensures kept != [] ==> kept[|kept| - 1] == now[|kept| - 1] && kept[|kept| - 1] in all
    ensures if outs[k].Failed? then Passed(all, outs, k + 1, kept, Remove(now, |kept|))
            else Passed(all, outs, k + 1, kept + [all[k]], now)
  {
    hide Survivors;
    SurvivorsStep(all, outs, k);
    assert now == kept + [all[k]] + all[k + 1..];
    assert Remove(now, |kept|) == kept + all[k + 1..];
  }

  lemma AllPassed(all: seq<TrackCtrl>, outs: seq<Outcome>, kept: seq<TrackCtrl>, now: seq<TrackCtrl>)
    requires |all| == |outs| && Passed(all, outs, |all|, kept, now)
    ensures now == kept == Survivors(all, outs)
  {
    assert all[..|all|] == all && outs[..|outs|] == outs;
  }

  lemma AnyFrameStep(outs: seq<Outcome>, o: Outcome)
    ensures AnyFrame(outs + [o]) <==> AnyFrame(outs) || o.Frame?
  {
    var all := outs + [o];
    assert all[|outs|] == o;
    if AnyFrame(outs) {
      var k :| 0 <= k < |outs| && outs[k].Frame?;
      assert all[k].Frame?;
    }
  }

  lemma Unheard(buf: seq<real>, outs: seq<Outcome>, k: nat, n: nat, peak: real, read: bool)
    requires k < |outs| && !outs[k].Frame? && Mixed(buf, outs[..k], n, peak, read)
    ensures Mixed(buf, outs[..k + 1], n, peak, read)
  {
    hide Peak, AnyFrame;
    assert outs[..k + 1] == outs[..k] + [outs[k]];
    PeakStep(outs[..k], outs[k], n, peak, peak);
    AnyFrameStep(outs[..k], outs[k]);
    forall i | 0 <= i < n ensures Sum(outs[..k + 1], i) == Sum(outs[..k], i) {
      SumStep(outs[..k], outs[k], i);
    }
  }

  lemma Heard(outs: seq<Outcome>, o: Outcome, n: nat, peak: real, next: real)
    requires Peak(outs, n, peak) && peak <= next
    requires forall i | 0 <= i < n :: Abs(Part(o, i)) <= next
    requires next == peak || exists i | 0 <= i < n :: Abs(Part(o, i)) == next
    ensures Peak(outs + [o], n, next)
    ensures forall i | 0 <= i < n :: Sum(outs + [o], i) == Sum(outs, i) + Part(o, i)
  {
    hide Peak, Part, Abs;
    PeakStep(outs, o, n, peak, next);
    forall i | 0 <= i < n ensures Sum(outs + [o], i) == Sum(outs, i) + Part(o, i) {
      SumStep(outs, o, i);
    }
  }
}

/** Time buckets, and the keys and values under which the recall index keeps its segments. */
module RecallKeys {
  import opened Basics
  import opened Decimal
  import opened Strings

  // ---------------------------------------------------------------------------
  // Buckets
  // ---------------------------------------------------------------------------

  datatype Bucket = Hour | Day | Week | Month | Quarter | HalfYear | Year | Lifetime

  const HOUR: int := 3_600_000_000_000

  /** From finest to coarsest. */
  const ALL_BUCKETS: seq<Bucket> := [Hour, Day, Week, Month, Quarter, HalfYear, Year, Lifetime]
  const COMPACTABLE: seq<Bucket> := [Hour, Day, Week, Month, Quarter, HalfYear, Year]

  /** Nanoseconds; 0 means that there is no bound. */
  function Duration(b: Bucket): int {
    match b
    case Hour => HOUR
    case Day => 24 * HOUR
    case Week => 7 * 24 * HOUR
    case Month => 30 * 24 * HOUR
    case Quarter => 90 * 24 * HOUR
    case HalfYear => 180 * 24 * HOUR
    case Year => 365 * 24 * HOUR
    case Lifetime => 0
  }

  function Name(b: Bucket): string {
    match b
    case Hour => "1h"
    case Day => "1d"
    case Week => "1w"
    case Month => "1m"
    case Quarter => "3m"
    case HalfYear => "6m"
    case Year => "1y"
    case Lifetime => "lt"
  }

  function Rank(b: Bucket): (r: nat)
    ensures r < |ALL_BUCKETS| && ALL_BUCKETS[r] == b
  {
    match b
    case Hour => 0
    case Day => 1
    case Week => 2
    case Month => 3
    case Quarter => 4
    case HalfYear => 5
    case Year => 6
    case Lifetime => 7
  }

  ghost predicate Covers(b: Bucket, span: int) {
    b == Lifetime || span <= Duration(b)
  }

  lemma CoarserCoversMore(b: Bucket, c: Bucket, span: int)
    requires Rank(b) <= Rank(c) && Covers(b, span)
    ensures Covers(c, span)
  {
  }

  /** b is the finest of the buckets from rank lo on that covers the span. */
  ghost predicate Finest(b: Bucket, lo: nat, span: int) {
    && lo <= Rank(b) && Covers(b, span)
    && forall c: Bucket | lo <= Rank(c) < Rank(b) :: !Covers(c, span)
  }

  method BucketForSpan(span: int) returns (b: Bucket)
    ensures Finest(b, 0, span)
  {
    for i := 0 to |ALL_BUCKETS|
      invariant forall c: Bucket | Rank(c) < i :: !Covers(c, span)
    {
      b := ALL_BUCKETS[i];
      assert Rank(b) == i;
      var d := Duration(b);
      if d == 0 || span <= d {
        return b;
      }
    }
    return Lifetime;
  }

  // ---------------------------------------------------------------------------
  // Keys and reverse-index values
  // ---------------------------------------------------------------------------

  type Key = seq<string>

  function SegmentKey(prefix: Key, b: Bucket, ts: int): Key {
    prefix + ["seg", Name(b), FormatInt(ts)]
  }

  function SidKey(prefix: Key, id: string): Key {
    prefix + ["sid", id]
  }

  lemma NameInjective(b: Bucket, c: Bucket)
    requires Name(b) == Name(c)
    ensures b == c
  {
    assert Name(b)[0] == Name(c)[0] && Name(b)[1] == Name(c)[1];
  }

  /** Different slots have different keys, and reverse-index entries never share a key with a segment. */
  lemma KeysAreApart(prefix: Key, b: Bucket, ts: int, c: Bucket, us: int, id: string, jd: string)
    ensures SegmentKey(prefix, b, ts) == SegmentKey(prefix, c, us) <==> b == c && ts == us
    ensures SidKey(prefix, id) == SidKey(prefix, jd) <==> id == jd
    ensures SegmentKey(prefix, b, ts) != SidKey(prefix, id)
  {
    var n := |prefix|;
    var k, l := SegmentKey(prefix, b, ts), SegmentKey(prefix, c, us);
    if k == l {
      assert Name(b) == k[n + 1] == l[n + 1] == Name(c);
      assert FormatInt(ts) == k[n + 2] == l[n + 2] == FormatInt(us);
      NameInjective(b, c);
      FormatInjective(ts, us);
    }
    assert SidKey(prefix, id)[n + 1] == id && SidKey(prefix, jd)[n + 1] == jd;
    assert |k| == n + 3 && |SidKey(prefix, id)| == n + 2;
  }

  function SidValue(b: Bucket, ts: int): string {
    Name(b) + ([':'] + FormatInt(ts))
  }

  /** Bucket names are not checked on the way back; a value without a colon is an old one, in the hour bucket. */
  function ParseSidValue(s: string): Option<(string, int)> {
    var i := IndexByte(s, ':');
    if i < |s| then
      var ts := ParseInt(s[i + 1..]);
      if ts.None? then None else Some((s[..i], ts.value))
    else
      var ts := ParseInt(s);
      if ts.None? then None else Some((Name(Hour), ts.value))
  }

  lemma FormatHasNoColon(x: int)
    ensures ':' !in FormatInt(x)
  {
    var n := if x < 0 then -x else x;
    DecReads(n);
    assert forall k | 0 <= k < |Dec(n)| :: IsDigit(Dec(n)[k]);
  }

  /** What the reverse index stores for a slot reads back as that slot. */
  lemma SidValueReadsBack(b: Bucket, ts: int)
    requires Int64(ts)
    ensures ParseSidValue(SidValue(b, ts)) == Some((Name(b), ts))
  {
    var s := SidValue(b, ts);
    CutAt(Name(b), ':', FormatInt(ts));
    ParseFormats(ts);
  }

  /** Values from before there were buckets read as the hour bucket. */
  lemma OldSidValueReads(ts: int)
    requires Int64(ts)
    ensures ParseSidValue(FormatInt(ts)) == Some((Name(Hour), ts))
  {
    FormatHasNoColon(ts);
    ParseFormats(ts);
    CutAt(FormatInt(ts), ':', "");
  }
}

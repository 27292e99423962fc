/** Searching, splitting and joining strings at one separator character. */
module Strings {

  /** Index of the first c, or the length if there is none. */
  function IndexByte(s: string, c: char): (i: nat)
    ensures i <= |s|
    ensures forall k | 0 <= k < i :: s[k] != c
    ensures i < |s| ==> s[i] == c
  {
    if s == "" || s[0] == c then 0 else 1 + IndexByte(s[1..], c)
  }

  function Before(s: string, c: char): string { s[..IndexByte(s, c)] }

  function After(s: string, c: char): string {
    if IndexByte(s, c) < |s| then s[IndexByte(s, c) + 1..] else ""
  }

  /** The parts between separators; a string without any is its own only part. */
  function Split(s: string, c: char): (parts: seq<string>)
    ensures parts != []
    decreases |s|
  {
    if IndexByte(s, c) == |s| then [s] else [Before(s, c)] + Split(After(s, c), c)
  }

  function Join(parts: seq<string>, c: char): string {
    if parts == [] then ""
    else if |parts| == 1 then parts[0]
    else parts[0] + ([c] + Join(parts[1..], c))
  }

  /** No part contains the separator. */
  predicate Plain(parts: seq<string>, c: char) {
    forall k | 0 <= k < |parts| :: c !in parts[k]
  }

  lemma SplitAt(s: string, i: nat)
    requires i < |s|
    ensures s == s[..i] + ([s[i]] + s[i + 1..])
  {
  }

  lemma SplitOnce(s: string, c: char)
    ensures c !in Before(s, c)
    ensures IndexByte(s, c) < |s| ==> s == Before(s, c) + ([c] + After(s, c))
    ensures IndexByte(s, c) == |s| ==> s == Before(s, c) && After(s, c) == ""
  {
    hide IndexByte;
    var i := IndexByte(s, c);
    if i < |s| {
      SplitAt(s, i);
    }
  }

  lemma JoinCons(s: string, rest: seq<string>, c: char)
    ensures Join([s] + rest, c) == if rest == [] then s else s + ([c] + Join(rest, c))
    ensures c !in s && Plain(rest, c) ==> Plain([s] + rest, c)
  {
    assert ([s] + rest)[1..] == rest;
  }

  /** Joining undoes splitting. */
  lemma {:induction false} JoinSplit(s: string, c: char)
    ensures Join(Split(s, c), c) == s && Plain(Split(s, c), c)
    decreases |s|
  {
    SplitOnce(s, c);
    if IndexByte(s, c) < |s| {
      JoinSplit(After(s, c), c);
      JoinCons(Before(s, c), Split(After(s, c), c), c);
    }
  }

  lemma {:induction false} IndexAt(s: string, c: char, tail: string)
    requires c !in s && (tail == "" || tail[0] == c)
    ensures IndexByte(s + tail, c) == |s|
  {
    if s == "" {
      assert s + tail == tail;
    } else {
      assert s[0] in s && (s + tail)[1..] == s[1..] + tail;
      IndexAt(s[1..], c, tail);
    }
  }

  lemma CutAt(s: string, c: char, rest: string)
    requires c !in s
    ensures Before(s + ([c] + rest), c) == s && After(s + ([c] + rest), c) == rest
    ensures IndexByte(s + ([c] + rest), c) == |s|
    ensures Before(s, c) == s && After(s, c) == "" && IndexByte(s, c) == |s|
  {
    IndexAt(s, c, [c] + rest);
    IndexAt(s, c, "");
    assert s + "" == s;
  }

  /** Splitting undoes joining. */
  lemma {:induction false} SplitJoin(parts: seq<string>, c: char)
    requires parts != [] && Plain(parts, c)
    ensures Split(Join(parts, c), c) == parts
  {
    if |parts| == 1 {
      CutAt(parts[0], c, "");
    } else {
      CutAt(parts[0], c, Join(parts[1..], c));
      SplitJoin(parts[1..], c);
    }
  }
}

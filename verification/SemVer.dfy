/**
  Firmware versions: parsing, comparison, and how far the comparison follows section 11 of
  Semantic Versioning 2.0.0.  Strings are sequences of characters; the identifiers that pass
  validation are ASCII, so the byte order of the original is the character order here.
 */
module SemVer {
  import opened Basics
  import opened Decimal
  import opened Strings

  datatype Version = Version(major: nat, minor: nat, patch: nat, pre: seq<string>)

  // ---------------------------------------------------------------------------
  // Parsing
  // ---------------------------------------------------------------------------

  function ParseNumber(value: string): Option<nat> {
    if value == "" || (|value| > 1 && value[0] == '0') then None
    else match ParseInt(value)
         case None => None
         case Some(n) => if n < 0 then None else Some(n)
  }

  predicate IdentifierChar(c: char) {
    '0' <= c <= '9' || 'a' <= c <= 'z' || 'A' <= c <= 'Z' || c == '-'
  }

  predicate ValidIdentifier(s: string) {
    s != "" && forall k | 0 <= k < |s| :: IdentifierChar(s[k])
  }

  predicate ValidIdentifiers(value: string) {
    value != "" && forall k | 0 <= k < |Split(value, '.')| :: ValidIdentifier(Split(value, '.')[k])
  }

  /** A version without its build metadata. */
  function Core(value: string): string { Before(value, '+') }

  function Numbers(core: string): Option<(nat, nat, nat)> {
    var parts := Split(core, '.');
    if |parts| != 3 then None
    else match (ParseNumber(parts[0]), ParseNumber(parts[1]), ParseNumber(parts[2]))
         case (Some(x), Some(y), Some(z)) => Some((x, y, z))
         case _ => None
  }

  function Parse(value: string): Option<Version> {
    if IndexByte(value, '+') < |value| && !ValidIdentifiers(After(value, '+')) then None
    else
      var core := Core(value);
      var hasPre := IndexByte(core, '-') < |core|;
      match Numbers(Before(core, '-'))
      case None => None
      case Some(n) =>
        if hasPre && !ValidIdentifiers(After(core, '-')) then None
        else Some(Version(n.0, n.1, n.2, if hasPre then Split(After(core, '-'), '.') else []))
  }

  predicate Valid(value: string) { Parse(value).Some? }

  // ---------------------------------------------------------------------------
  // Comparing
  // ---------------------------------------------------------------------------

  datatype Key = Num(n: nat) | Text(s: string)

  /** A numeric identifier, unless it has leading zeros or does not fit. */
  function IdentKey(s: string): Key {
    if Canonical(s) && Val(s) <= MAX_INT64 then Num(Val(s)) else Text(s)
  }

  function CompareInt(x: int, y: int): int { if x < y then -1 else if x > y then 1 else 0 }

  function CompareText(s: string, t: string): int { if Less(s, t) then -1 else if s == t then 0 else 1 }

  function CompareKey(a: Key, b: Key): int {
    match (a, b)
    case (Num(m), Num(n)) => CompareInt(m, n)
    case (Num(_), Text(_)) => -1
    case (Text(_), Num(_)) => 1
    case (Text(s), Text(t)) => CompareText(s, t)
  }

  function Keys(ids: seq<string>, key: string -> Key): (r: seq<Key>)
    ensures |r| == |ids| && forall k | 0 <= k < |ids| :: r[k] == key(ids[k])
  {
    seq(|ids|, k requires 0 <= k < |ids| => key(ids[k]))
  }

  /** The first difference decides; if there is none, the longer list is greater. */
  function CompareKeys(a: seq<Key>, b: seq<Key>): int {
    if a == [] || b == [] then CompareInt(|a|, |b|)
    else
      var c := CompareKey(a[0], b[0]);
      if c != 0 then c else CompareKeys(a[1..], b[1..])
  }

  /** A pre-release comes before the release. */
  function ComparePre(a: seq<string>, b: seq<string>, key: string -> Key): int {
    if a == [] || b == [] then CompareInt(|b|, |a|) else CompareKeys(Keys(a, key), Keys(b, key))
  }

  function CompareVersions(v: Version, w: Version, key: string -> Key): int {
    if v.major != w.major then CompareInt(v.major, w.major)
    else if v.minor != w.minor then CompareInt(v.minor, w.minor)
    else if v.patch != w.patch then CompareInt(v.patch, w.patch)
    else ComparePre(v.pre, w.pre, key)
  }

  /** Versions that do not parse are compared as strings. */
  function CompareSemVer(a: string, b: string): int {
    match (Parse(a), Parse(b))
    case (Some(v), Some(w)) => CompareVersions(v, w, IdentKey)
    case _ => CompareText(a, b)
  }

  /** The loop over identifiers. */
  method ComparePrerelease(a: seq<string>, b: seq<string>) returns (c: int)
    ensures c == ComparePre(a, b, IdentKey)
  {
    hide CompareKeys, Less;
    if |a| == 0 && |b| == 0 { return 0; }
    if |a| == 0 { return 1; }
    if |b| == 0 { return -1; }
    ghost var ka, kb := Keys(a, IdentKey), Keys(b, IdentKey);
    var i := 0;
    while i < |a| && i < |b|
      invariant i <= |a| && i <= |b|
      invariant CompareKeys(ka, kb) == CompareKeys(ka[i..], kb[i..])
    {
      KeysFrom(ka, kb, i);
      var x, y := IdentKey(a[i]), IdentKey(b[i]);
      if x.Num? && y.Num? {
        if x.n < y.n { return -1; }
        if x.n > y.n { return 1; }
      } else if x.Num? {
        return -1;
      } else if y.Num? {
        return 1;
      } else {
        LessTotal(a[i], b[i]);
        if Less(a[i], b[i]) { return -1; }
        if Less(b[i], a[i]) { return 1; }
      }
      i := i + 1;
    }
    KeysFrom(ka, kb, i);
    c := if |a| < |b| then -1 else if |a| > |b| then 1 else 0;
  }

  lemma KeysFrom(a: seq<Key>, b: seq<Key>, i: nat)
    requires i <= |a| && i <= |b|
    ensures CompareKeys(a[i..], b[i..]) ==
      if i == |a| || i == |b| then CompareInt(|a|, |b|)
      else if CompareKey(a[i], b[i]) != 0 then CompareKey(a[i], b[i]) else CompareKeys(a[i + 1..], b[i + 1..])
  {
    if i < |a| && i < |b| {
      assert a[i..][1..] == a[i + 1..] && b[i..][1..] == b[i + 1..];
    }
  }

  // ---------------------------------------------------------------------------
  // The comparison is a total preorder
  // ---------------------------------------------------------------------------

  lemma TextOrder(s: string, t: string)
    ensures CompareText(t, s) == -CompareText(s, t)
    ensures CompareText(s, t) == 0 <==> s == t
  {
    LessTotal(s, t);
  }

  lemma KeyOrder(a: Key, b: Key)
    ensures CompareKey(b, a) == -CompareKey(a, b)
    ensures CompareKey(a, b) == 0 <==> a == b
  {
    if a.Text? && b.Text? {
      TextOrder(a.s, b.s);
    }
  }

  lemma KeyTransitive(a: Key, b: Key, c: Key)
    requires CompareKey(a, b) <= 0 && CompareKey(b, c) <= 0
    ensures CompareKey(a, c) <= 0
  {
    if a.Text? && b.Text? && c.Text? && a != b && b != c {
      LessTransitive(a.s, b.s, c.s);
    }
  }

  lemma {:induction false} KeysOrder(a: seq<Key>, b: seq<Key>)
    ensures CompareKeys(b, a) == -CompareKeys(a, b)
    ensures CompareKeys(a, b) == 0 <==> a == b
    decreases |a|
  {
    if a != [] && b != [] {
      KeyOrder(a[0], b[0]);
      KeysOrder(a[1..], b[1..]);
      assert a == [a[0]] + a[1..] && b == [b[0]] + b[1..];
    }
  }

  lemma {:induction false} KeysTransitive(a: seq<Key>, b: seq<Key>, c: seq<Key>)
    requires CompareKeys(a, b) <= 0 && CompareKeys(b, c) <= 0
    ensures CompareKeys(a, c) <= 0
    decreases |a|
  {
    if a != [] && b != [] && c != [] {
      KeyTransitive(a[0], b[0], c[0]);
      KeyOrder(a[0], b[0]);
      KeyOrder(b[0], c[0]);
      KeyOrder(a[0], c[0]);
      if CompareKey(a[0], c[0]) == 0 {
        KeyTransitive(c[0], a[0], b[0]);
        KeyOrder(c[0], b[0]);
        KeysTransitive(a[1..], b[1..], c[1..]);
      }
    }
  }

  lemma VersionsOrder(v: Version, w: Version, key: string -> Key)
    ensures CompareVersions(w, v, key) == -CompareVersions(v, w, key)
    ensures CompareVersions(v, w, key) == 0 <==>
      v.(pre := []) == w.(pre := []) && Keys(v.pre, key) == Keys(w.pre, key)
  {
    KeysOrder(Keys(v.pre, key), Keys(w.pre, key));
  }

  lemma VersionsTransitive(u: Version, v: Version, w: Version, key: string -> Key)
    requires CompareVersions(u, v, key) <= 0 && CompareVersions(v, w, key) <= 0
    ensures CompareVersions(u, w, key) <= 0
  {
    if u.pre != [] && v.pre != [] && w.pre != [] && u.(pre := []) == v.(pre := []) == w.(pre := []) {
      KeysTransitive(Keys(u.pre, key), Keys(v.pre, key), Keys(w.pre, key));
    }
  }

  /** Different identifiers have different keys. */
  lemma IdentKeyInjective(s: string, t: string)
    requires IdentKey(s) == IdentKey(t)
    ensures s == t
  {
    if IdentKey(s).Num? {
      DecWrites(s);
      DecWrites(t);
    }
  }

  lemma KeysInjective(a: seq<string>, b: seq<string>)
    requires Keys(a, IdentKey) == Keys(b, IdentKey)
    ensures a == b
  {
    forall k | 0 <= k < |a| ensures a[k] == b[k] {
      assert Keys(a, IdentKey)[k] == Keys(b, IdentKey)[k];
      IdentKeyInjective(a[k], b[k]);
    }
  }

  // ---------------------------------------------------------------------------
  // Equal versions are equal strings, up to build metadata
  // ---------------------------------------------------------------------------

  function NumbersOf(v: Version): string {
    Join([Dec(v.major), Dec(v.minor), Dec(v.patch)], '.')
  }

  function Render(v: Version): string {
    NumbersOf(v) + if v.pre == [] then "" else ['-'] + Join(v.pre, '.')
  }

  lemma NumberReads(s: string)
    requires ParseNumber(s).Some? && '+' !in s && '-' !in s
    ensures Dec(ParseNumber(s).value) == s
  {
    assert s[0] in s;
    DecWrites(s);
  }

  lemma NumbersRead(core: string)
    requires Numbers(core).Some? && '+' !in core && '-' !in core
    ensures var n := Numbers(core).value;
      Join([Dec(n.0), Dec(n.1), Dec(n.2)], '.') == core
  {
    hide Split, Join, Val, Dec, ParseNumber;
    var parts := Split(core, '.');
    JoinSplit(core, '.');
    PartsWithin(core, '.', '+');
    PartsWithin(core, '.', '-');
    forall k | 0 <= k < 3 ensures Dec(ParseNumber(parts[k]).value) == parts[k] {
      NumberReads(parts[k]);
    }
    assert parts == [parts[0], parts[1], parts[2]];
  }

  /** A character that is missing from a string is missing from its parts. */
  lemma {:induction false} PartsWithin(s: string, c: char, d: char)
    requires d !in s
    ensures Plain(Split(s, c), d)
    decreases |s|
  {
    hide IndexByte, Before, After;
    SplitOnce(s, c);
    if IndexByte(s, c) < |s| {
      PartsWithin(After(s, c), c, d);
    }
  }

  lemma ParseReads(value: string)
    requires Valid(value)
    ensures Render(Parse(value).value) == Core(value)
  {
    var core := Core(value);
    SplitOnce(value, '+');
    SplitOnce(core, '-');
    NumbersRead(Before(core, '-'));
    JoinSplit(After(core, '-'), '.');
  }

  lemma {:induction false} JoinAvoids(parts: seq<string>, c: char, d: char)
    requires Plain(parts, d) && c != d
    ensures d !in Join(parts, c)
  {
    if |parts| > 1 {
      JoinAvoids(parts[1..], c, d);
    }
  }

  lemma NumberParses(n: nat)
    requires n <= MAX_INT64
    ensures ParseNumber(Dec(n)) == Some(n)
    ensures forall k | 0 <= k < |Dec(n)| :: IsDigit(Dec(n)[k])
  {
    DecReads(n);
  }

  /** Parsing undoes rendering. */
  lemma RenderParses(v: Version)
    requires v.major <= MAX_INT64 && v.minor <= MAX_INT64 && v.patch <= MAX_INT64
    requires forall k | 0 <= k < |v.pre| :: ValidIdentifier(v.pre[k])
    ensures Parse(Render(v)) == Some(v)
  {
    var core, pre := NumbersOf(v), Join(v.pre, '.');
    NumbersParse(v);
    JoinAvoids(v.pre, '.', '+');
    assert Core(Render(v)) == Render(v) by {
      CutAt(Render(v), '+', "");
    }
    hide Numbers, NumbersOf;
    if v.pre == [] {
      assert Render(v) == core;
      CutAt(core, '-', "");
    } else {
      CutAt(core, '-', pre);
      SplitJoin(v.pre, '.');
      assert pre != "";
    }
  }

  lemma NumbersParse(v: Version)
    requires v.major <= MAX_INT64 && v.minor <= MAX_INT64 && v.patch <= MAX_INT64
    ensures Numbers(NumbersOf(v)) == Some((v.major, v.minor, v.patch))
    ensures '+' !in NumbersOf(v) && '-' !in NumbersOf(v)
  {
    var parts := [Dec(v.major), Dec(v.minor), Dec(v.patch)];
    NumberParses(v.major);
    NumberParses(v.minor);
    NumberParses(v.patch);
    assert Plain(parts, '.') && Plain(parts, '+') && Plain(parts, '-');
    hide Dec, ParseNumber, Plain;
    SplitJoin(parts, '.');
    JoinAvoids(parts, '.', '+');
    JoinAvoids(parts, '.', '-');
  }

  /** Build metadata plays no part in parsing. */
  lemma ParseIgnoresBuild(a: string, b: string)
    requires Valid(a) && Valid(b) && Core(a) == Core(b)
    ensures Parse(a) == Parse(b)
  {
  }

  /**
    On valid versions: antisymmetric, transitive, and zero exactly for versions that agree
    apart from build metadata.
   */
  lemma CompareSemVerPreorder(a: string, b: string, c: string)
    requires Valid(a) && Valid(b) && Valid(c)
    ensures CompareSemVer(b, a) == -CompareSemVer(a, b)
    ensures CompareSemVer(a, b) <= 0 && CompareSemVer(b, c) <= 0 ==> CompareSemVer(a, c) <= 0
    ensures CompareSemVer(a, b) == 0 <==> Core(a) == Core(b)
  {
    var u, v, w := Parse(a).value, Parse(b).value, Parse(c).value;
    VersionsOrder(u, v, IdentKey);
    if CompareVersions(u, v, IdentKey) <= 0 && CompareVersions(v, w, IdentKey) <= 0 {
      VersionsTransitive(u, v, w, IdentKey);
    }
    if CompareSemVer(a, b) == 0 {
      KeysInjective(u.pre, v.pre);
      assert u == v;
      ParseReads(a);
      ParseReads(b);
    }
    if Core(a) == Core(b) {
      ParseIgnoresBuild(a, b);
    }
  }

  // ---------------------------------------------------------------------------
  // Section 11
  // ---------------------------------------------------------------------------

  /** Section 11.4 compares all-digit identifiers numerically, whatever their size. */
  function SpecKey(s: string): Key {
    if AllDigits(s) then Num(Val(s)) else Text(s)
  }

  /** Section 9: identifiers are not empty and numeric ones have no leading zeros. */
  predicate SpecIdentifiers(ids: seq<string>) {
    forall k | 0 <= k < |ids| :: ValidIdentifier(ids[k]) && (AllDigits(ids[k]) ==> Canonical(ids[k]))
  }

  predicate Overflows(s: string) { AllDigits(s) && Val(s) > MAX_INT64 }

  predicate Fit(ids: seq<string>) {
    forall k | 0 <= k < |ids| :: !Overflows(ids[k])
  }

  lemma FittingKeys(ids: seq<string>)
    requires SpecIdentifiers(ids) && Fit(ids)
    ensures Keys(ids, IdentKey) == Keys(ids, SpecKey)
  {
    forall k | 0 <= k < |ids| ensures IdentKey(ids[k]) == SpecKey(ids[k]) {
    }
  }

  lemma {:induction false} FirstDifference(a: seq<Key>, b: seq<Key>, k: nat)
    requires k < |a| && k < |b| && a[..k] == b[..k] && a[k] != b[k]
    ensures CompareKeys(a, b) == CompareKey(a[k], b[k])
    decreases k
  {
    KeyOrder(a[0], b[0]);
    KeyOrder(a[k], b[k]);
    if k > 0 {
      assert a[0] == a[..k][0] && b[0] == b[..k][0];
      assert a[1..][..k - 1] == a[..k][1..] && b[1..][..k - 1] == b[..k][1..];
      FirstDifference(a[1..], b[1..], k - 1);
    }
  }

  /** The identifiers up to the first that overflows, which a hyphen replaces. */
  function Witness(ids: seq<string>, k: nat): seq<string>
    requires k < |ids|
  {
    ids[..k] + ["-"]
  }

  lemma OverflowDisagrees(ids: seq<string>, k: nat)
    requires SpecIdentifiers(ids) && k < |ids| && Overflows(ids[k]) && Fit(ids[..k])
    ensures SpecIdentifiers(Witness(ids, k)) && Fit(Witness(ids, k))
    ensures ComparePre(ids, Witness(ids, k), IdentKey) == 1
    ensures ComparePre(ids, Witness(ids, k), SpecKey) == -1
  {
    var w := Witness(ids, k);
    assert forall j | 0 <= j < k :: w[j] == ids[..k][j] == ids[j];
    assert w[k] == "-" && !IsDigit('-');
    assert IdentKey(ids[k]) == Text(ids[k]) && IdentKey("-") == Text("-");
    assert ids[k][0] > '-';
    LessTotal(ids[k], "-");
    assert Keys(ids, IdentKey)[..k] == Keys(w, IdentKey)[..k];
    assert Keys(ids, SpecKey)[..k] == Keys(w, SpecKey)[..k];
    FirstDifference(Keys(ids, IdentKey), Keys(w, IdentKey), k);
    FirstDifference(Keys(ids, SpecKey), Keys(w, SpecKey), k);
  }

  lemma {:induction false} FirstOverflow(ids: seq<string>) returns (k: nat)
    requires !Fit(ids)
    ensures k < |ids| && Overflows(ids[k]) && Fit(ids[..k])
  {
    var n := |ids| - 1;
    if Fit(ids[..n]) {
      k := n;
    } else {
      k := FirstOverflow(ids[..n]);
      assert ids[..n][..k] == ids[..k];
    }
  }

  /**
    A version's pre-release identifiers are compared as section 11 prescribes, with all
    versions whose numeric identifiers fit into 64 bits, exactly when its own do.
   */
  lemma PrecedenceIsSection11(a: seq<string>)
    requires SpecIdentifiers(a)
    ensures Fit(a) <==>
      forall b | SpecIdentifiers(b) && Fit(b) :: ComparePre(a, b, IdentKey) == ComparePre(a, b, SpecKey)
  {
    if Fit(a) {
      FittingKeys(a);
      forall b | SpecIdentifiers(b) && Fit(b) ensures ComparePre(a, b, IdentKey) == ComparePre(a, b, SpecKey) {
        FittingKeys(b);
      }
    } else {
      var k := FirstOverflow(a);
      OverflowDisagrees(a, k);
    }
  }
}

/**
  What the comparison of versions means, and which strings are versions: section 11 of Semantic
  Versioning 2.0.0, rule by rule, and its grammar as far as the code has it.
 */
module SemVerLaws {
  import opened Basics
  import opened Decimal
  import opened Strings
  import opened SemVer

  // ---------------------------------------------------------------------------
  // The order, rule by rule
  // ---------------------------------------------------------------------------

  ghost predicate SameNumbers(v: Version, w: Version) {
    v.major == w.major && v.minor == w.minor && v.patch == w.patch
  }

  /** Major decides before minor, and minor before patch. */
  lemma NumbersDecide(a: string, b: string)
    requires Valid(a) && Valid(b)
    ensures var v, w := Parse(a).value, Parse(b).value;
      && (v.major < w.major ==> CompareSemVer(a, b) == -1 && CompareSemVer(b, a) == 1)
      && (v.major == w.major && v.minor < w.minor ==> CompareSemVer(a, b) == -1 && CompareSemVer(b, a) == 1)
      && (v.major == w.major && v.minor == w.minor && v.patch < w.patch ==>
            CompareSemVer(a, b) == -1 && CompareSemVer(b, a) == 1)
  {
    hide Parse;
  }

  /** A pre-release comes before its release. */
  lemma PreReleaseFirst(a: string, b: string)
    requires Valid(a) && Valid(b) && SameNumbers(Parse(a).value, Parse(b).value)
    requires Parse(a).value.pre != [] && Parse(b).value.pre == []
    ensures CompareSemVer(a, b) == -1 && CompareSemVer(b, a) == 1
  {
    hide Parse;
  }

  /** If all identifiers of one are the first ones of the other, the shorter list comes first. */
  lemma PrefixFirst(a: string, b: string)
    requires Valid(a) && Valid(b) && SameNumbers(Parse(a).value, Parse(b).value)
    requires [] < Parse(a).value.pre < Parse(b).value.pre
    ensures CompareSemVer(a, b) == -1 && CompareSemVer(b, a) == 1
  {
    hide Parse, IdentKey;
    var v, w := Parse(a).value, Parse(b).value;
    var x, y := Keys(v.pre, IdentKey), Keys(w.pre, IdentKey);
    assert x == y[..|x|] by {
      assert v.pre == w.pre[..|v.pre|];
    }
    ShorterFirst(x, y);
    VersionsOrder(v, w, IdentKey);
  }

  lemma {:induction false} ShorterFirst(x: seq<Key>, y: seq<Key>)
    requires |x| < |y| && x == y[..|x|]
    ensures CompareKeys(x, y) == -1
    decreases |x|
  {
    if x != [] {
      KeyOrder(x[0], y[0]);
      assert x[1..] == y[1..][..|x| - 1];
      ShorterFirst(x[1..], y[1..]);
    }
  }

  /** An identifier that is compared as a number. */
  predicate Numeric(s: string) {
    s != "" && AllDigits(s) && (s[0] == '0' ==> s == "0") && Val(s) <= MAX_INT64
  }

  /**
    Otherwise the first different identifiers decide: numbers by value and before everything else, the
    others by their characters.
   */
  lemma FirstDifferenceDecides(a: string, b: string, k: nat)
    requires Valid(a) && Valid(b) && SameNumbers(Parse(a).value, Parse(b).value)
    requires var p, q := Parse(a).value.pre, Parse(b).value.pre;
      k < |p| && k < |q| && p[..k] == q[..k] && p[k] != q[k]
    ensures var s, t := Parse(a).value.pre[k], Parse(b).value.pre[k];
      && (CompareSemVer(a, b) == -1 || CompareSemVer(a, b) == 1)
      && (Numeric(s) && Numeric(t) ==> (CompareSemVer(a, b) == -1 <==> Val(s) < Val(t)))
      && (Numeric(s) && !Numeric(t) ==> CompareSemVer(a, b) == -1)
      && (!Numeric(s) && Numeric(t) ==> CompareSemVer(a, b) == 1)
      && (!Numeric(s) && !Numeric(t) ==> (CompareSemVer(a, b) == -1 <==> Less(s, t)))
  {
    hide Parse, Less, Val;
    var v, w := Parse(a).value, Parse(b).value;
    var p, q := Keys(v.pre, IdentKey), Keys(w.pre, IdentKey);
    assert p[..k] == q[..k] by {
      assert forall j | 0 <= j < k :: v.pre[j] == v.pre[..k][j] == w.pre[j];
    }
    if p[k] == q[k] {
      IdentKeyInjective(v.pre[k], w.pre[k]);
    }
    FirstDifference(p, q, k);
    KeyOrder(p[k], q[k]);
    NumericKey(v.pre[k]);
    NumericKey(w.pre[k]);
  }

  lemma NumericKey(s: string)
    ensures if Numeric(s) then IdentKey(s) == Num(Val(s)) else IdentKey(s) == Text(s)
  {
    assert s != "" && s[0] == '0' ==> (|s| == 1 <==> s == "0");
  }

  /** If one of the two is not a version, they compare as strings. */
  lemma OthersAsStrings(a: string, b: string)
    requires !Valid(a) || !Valid(b)
    ensures CompareSemVer(a, b) < 0 <==> Less(a, b)
    ensures CompareSemVer(a, b) == 0 <==> a == b
    ensures CompareSemVer(a, b) > 0 <==> Less(b, a)
  {
    hide Parse;
    LessTotal(a, b);
  }

  // ---------------------------------------------------------------------------
  // The grammar
  // ---------------------------------------------------------------------------

  /** Numbers without leading zeros, then the pre-release and the build identifiers, if any. */
  function Written(v: Version, build: seq<string>): string {
    Dec(v.major) + "." + Dec(v.minor) + "." + Dec(v.patch)
    + (if v.pre == [] then "" else "-" + Join(v.pre, '.'))
    + (if build == [] then "" else "+" + Join(build, '.'))
  }

  predicate Identifiers(ids: seq<string>) {
    forall k | 0 <= k < |ids| :: ValidIdentifier(ids[k])
  }

  predicate WellFormed(v: Version, build: seq<string>) {
    && v.major <= MAX_INT64 && v.minor <= MAX_INT64 && v.patch <= MAX_INT64
    && Identifiers(v.pre) && Identifiers(build)
  }

  /** The strings that parse are exactly the written versions, and each gives back what was written. */
  lemma ParsesExactly(value: string)
    ensures Valid(value) <==> exists v, build :: WellFormed(v, build) && value == Written(v, build)
    ensures forall v, build | WellFormed(v, build) && value == Written(v, build) :: Parse(value) == Some(v)
  {
    hide Parse, Written, WellFormed;
    forall v, build | WellFormed(v, build) && value == Written(v, build) ensures Parse(value) == Some(v) {
      WrittenParses(v, build);
    }
    if Valid(value) {
      var build := ValidIsWritten(value);
    }
  }

  lemma WrittenIs(v: Version, build: seq<string>)
    ensures Written(v, build) == Render(v) + if build == [] then "" else ['+'] + Join(build, '.')
  {
    var x, y, z := Dec(v.major), Dec(v.minor), Dec(v.patch);
    assert Join([z], '.') == z;
    JoinCons(y, [z], '.');
    JoinCons(x, [y, z], '.');
    assert [x] + [y, z] == [x, y, z] && [y] + [z] == [y, z];
    assert x + (['.'] + (y + (['.'] + z))) == x + "." + y + "." + z;
  }

  lemma WrittenParses(v: Version, build: seq<string>)
    requires WellFormed(v, build)
    ensures Parse(Written(v, build)) == Some(v)
  {
    hide Render, Join, ValidIdentifier, Written, Dec;
    WrittenIs(v, build);
    RenderParses(v);
    NoPlus(v);
    if build == [] {
      assert Render(v) + "" == Render(v);
    } else {
      CutAt(Render(v), '+', Join(build, '.'));
      IdentifiersJoin(build);
      SameCore(Written(v, build), Render(v));
    }
  }

  lemma SameCore(value: string, core: string)
    requires Core(value) == core == Core(core) && IndexByte(core, '+') == |core|
    requires ValidIdentifiers(After(value, '+'))
    ensures Parse(value) == Parse(core)
  {
    hide Numbers, ValidIdentifiers;
  }

  lemma IdentifiersJoin(ids: seq<string>)
    requires ids != [] && Identifiers(ids)
    ensures ValidIdentifiers(Join(ids, '.'))
  {
    assert Plain(ids, '.');
    SplitJoin(ids, '.');
    JoinFirst(ids);
  }

  lemma JoinFirst(ids: seq<string>)
    requires ids != [] && ids[0] != ""
    ensures Join(ids, '.') != ""
  {
  }

  lemma NoPlus(v: Version)
    requires v.major <= MAX_INT64 && v.minor <= MAX_INT64 && v.patch <= MAX_INT64 && Identifiers(v.pre)
    ensures '+' !in Render(v) && IndexByte(Render(v), '+') == |Render(v)| && Core(Render(v)) == Render(v)
  {
    NumbersParse(v);
    assert Plain(v.pre, '+');
    JoinAvoids(v.pre, '.', '+');
    hide NumbersOf, Join;
    CutAt(Render(v), '+', "");
  }

  lemma ValidIsWritten(value: string) returns (build: seq<string>)
    requires Valid(value)
    ensures WellFormed(Parse(value).value, build) && value == Written(Parse(value).value, build)
  {
    var v := Parse(value).value;
    build := if IndexByte(value, '+') < |value| then Split(After(value, '+'), '.') else [];
    ParseReads(value);
    FieldsInRange(value);
    WrittenIs(v, build);
    SplitOnce(value, '+');
    JoinSplit(After(value, '+'), '.');
    hide Render, Join, Split, Written;
    assert Core(value) == Before(value, '+');
  }

  lemma FieldsInRange(value: string)
    requires Valid(value)
    ensures var v := Parse(value).value;
      v.major <= MAX_INT64 && v.minor <= MAX_INT64 && v.patch <= MAX_INT64 && Identifiers(v.pre)
    ensures IndexByte(value, '+') < |value| ==> Identifiers(Split(After(value, '+'), '.'))
  {
    NumbersFit(Before(Core(value), '-'));
    hide IndexByte, Split, Numbers, ValidIdentifier;
  }

  lemma NumbersFit(core: string)
    requires Numbers(core).Some?
    ensures var n := Numbers(core).value; n.0 <= MAX_INT64 && n.1 <= MAX_INT64 && n.2 <= MAX_INT64
  {
    hide Split, AllDigits, Val;
  }
}

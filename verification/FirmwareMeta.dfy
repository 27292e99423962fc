/**
  Firmware metadata: releases per channel, their validity, and what releasing and rolling
  back do to them.  File lists are multisets, because the original sorts every list it
  stores; hashing, JSON and path cleaning are parameters.
 */
module FirmwareMeta {
  import opened Basics
  import SemVer

  datatype Channel = Rollback | Stable | Beta | Testing

  datatype File = File(path: string, sha: string, md5: string)

  /** channel is None when the manifest names no known channel. */
  datatype Release = Release(semver: string, channel: Option<Channel>, files: multiset<File>)

  datatype Meta = Meta(info: multiset<string>, rollback: Release, stable: Release, beta: Release, testing: Release)

  /** manifest.json of a channel directory. */
  datatype Manifest = Missing | Corrupt | Parsed(release: Release)

  datatype Dir = Dir(files: map<string, string>, manifest: Manifest)

  datatype Env = Env(
    sha: string -> string,
    md5: string -> string,
    clean: string -> string,
    validPath: string -> bool,
    decode: string -> Option<Release>)

  const ABSENT: Release := Release("", None, multiset{})
  const NO_DEPOT: Meta := Meta(multiset{}, ABSENT, ABSENT, ABSENT, ABSENT)

  predicate Present(r: Release) { r.semver != "" }

  function Get(m: Meta, c: Channel): Release {
    match c
    case Rollback => m.rollback
    case Stable => m.stable
    case Beta => m.beta
    case Testing => m.testing
  }

  function With(m: Meta, c: Channel, r: Release): Meta {
    match c
    case Rollback => m.(rollback := r)
    case Stable => m.(stable := r)
    case Beta => m.(beta := r)
    case Testing => m.(testing := r)
  }

  // ---------------------------------------------------------------------------
  // Validity
  // ---------------------------------------------------------------------------

  predicate DistinctPaths(files: multiset<File>) {
    && (forall f | f in files :: files[f] == 1)
    && (forall f, g | f in files && g in files && f.path == g.path :: f == g)
  }

  predicate ValidRelease(env: Env, r: Release) {
    && SemVer.Valid(r.semver) && r.channel.Some?
    && DistinctPaths(r.files)
    && forall f | f in r.files :: env.validPath(f.path)
  }

  predicate ValidInfo(env: Env, info: multiset<string>) {
    forall p | p in info :: info[p] == 1 && env.validPath(p)
  }

  predicate AtLeast(v: string, w: string) { SemVer.CompareSemVer(v, w) >= 0 }

  /** Stable, beta and testing do not go down in version, as far as they are present. */
  predicate VersionOrder(m: Meta) {
    && (Present(m.stable) && Present(m.beta) ==> AtLeast(m.beta.semver, m.stable.semver))
    && (Present(m.beta) && Present(m.testing) ==> AtLeast(m.testing.semver, m.beta.semver))
  }

  predicate OwnChannel(env: Env, m: Meta, c: Channel) {
    Present(Get(m, c)) ==> ValidRelease(env, Get(m, c)) && Get(m, c).channel == Some(c)
  }

  predicate ValidMeta(env: Env, m: Meta) {
    ValidInfo(env, m.info) && (forall c :: OwnChannel(env, m, c)) && VersionOrder(m)
  }

  predicate FileMatches(env: Env, d: Dir, f: File) {
    && env.clean(f.path) in d.files
    && env.sha(d.files[env.clean(f.path)]) == f.sha
    && env.md5(d.files[env.clean(f.path)]) == f.md5
  }

  predicate DirMatches(env: Env, d: Dir, r: Release) {
    forall f | f in r.files :: FileMatches(env, d, f)
  }

  // ---------------------------------------------------------------------------
  // Release and rollback
  // ---------------------------------------------------------------------------

  function Retagged(r: Release, c: Channel): Release {
    if !Present(r) then ABSENT else r.(channel := Some(c))
  }

  function Released(m: Meta): Meta {
    Meta(m.info, Retagged(m.stable, Rollback), Retagged(m.beta, Stable), Retagged(m.testing, Beta), ABSENT)
  }

  function RolledBack(m: Meta): Meta {
    m.(stable := Retagged(m.rollback, Stable), rollback := Retagged(m.stable, Rollback))
  }

  /** to has the version and the files of from, or is absent as from is. */
  ghost predicate Carried(from: Release, to: Release) {
    && (Present(to) <==> Present(from))
    && (Present(from) ==> to.semver == from.semver && to.files == from.files)
  }

  /** Testing becomes beta, beta stable, stable rollback; nothing is left in testing. */
  ghost predicate Promoted(m: Meta, n: Meta) {
    && Carried(m.stable, n.rollback) && Carried(m.beta, n.stable) && Carried(m.testing, n.beta)
    && !Present(n.testing) && n.info == m.info
  }

  /** Stable and rollback have changed places, everything else is as before. */
  ghost predicate Exchanged(m: Meta, n: Meta) {
    && Carried(m.rollback, n.stable) && Carried(m.stable, n.rollback)
    && n.beta == m.beta && n.testing == m.testing && n.info == m.info
  }

  lemma ReleasedMeans(m: Meta)
    ensures Promoted(m, Released(m))
  {
  }

  lemma RolledBackMeans(m: Meta)
    ensures Exchanged(m, RolledBack(m))
  {
  }

  /** Rolling back twice gives the old metadata back, the channel tags included. */
  lemma RollbackTwice(env: Env, m: Meta)
    requires ValidMeta(env, m) && Present(m.stable) && Present(m.rollback)
    ensures RolledBack(RolledBack(m)) == m
    ensures forall n | Exchanged(m, n) && OwnChannel(env, n, Stable) && OwnChannel(env, n, Rollback) :: n == RolledBack(m)
  {
    hide ValidMeta, SemVer.Valid, VersionOrder, ValidInfo;
    ChannelVersion(env, m, Stable);
    ChannelVersion(env, m, Rollback);
  }

  lemma RetaggedOwn(env: Env, m: Meta, from: Channel, n: Meta, to: Channel)
    requires OwnChannel(env, m, from) && Get(n, to) == Retagged(Get(m, from), to)
    ensures OwnChannel(env, n, to)
  {
    hide SemVer.Valid;
  }

  /** Releasing never breaks the version order, so its metadata is always accepted. */
  lemma ReleaseIsValid(env: Env, m: Meta)
    requires ValidMeta(env, m)
    ensures ValidMeta(env, Released(m))
  {
    hide AtLeast, OwnChannel, ValidInfo;
    var n := Released(m);
    RetaggedOwn(env, m, Stable, n, Rollback);
    RetaggedOwn(env, m, Beta, n, Stable);
    RetaggedOwn(env, m, Testing, n, Beta);
    assert OwnChannel(env, n, Testing) by { NothingThere(env, n, Testing); }
    forall c ensures OwnChannel(env, n, c) {
      assert c == Rollback || c == Stable || c == Beta || c == Testing;
    }
  }

  lemma NothingThere(env: Env, m: Meta, c: Channel)
    requires !Present(Get(m, c))
    ensures OwnChannel(env, m, c)
  {
  }

  lemma OwnKept(env: Env, m: Meta, n: Meta, c: Channel)
    requires OwnChannel(env, m, c) && Get(n, c) == Get(m, c)
    ensures OwnChannel(env, n, c)
  {
  }

  /** Rolling back is accepted exactly when the rolled-back version is not newer than beta. */
  lemma RollbackIsValid(env: Env, m: Meta)
    requires ValidMeta(env, m) && Present(m.rollback)
    ensures ValidMeta(env, RolledBack(m)) <==>
      (Present(m.beta) ==> AtLeast(m.beta.semver, m.rollback.semver))
  {
    hide AtLeast, OwnChannel, ValidInfo;
    var n := RolledBack(m);
    RetaggedOwn(env, m, Rollback, n, Stable);
    RetaggedOwn(env, m, Stable, n, Rollback);
    OwnKept(env, m, n, Beta);
    OwnKept(env, m, n, Testing);
    forall c ensures OwnChannel(env, n, c) {
      assert c == Rollback || c == Stable || c == Beta || c == Testing;
    }
    Ordered(env, m);
  }

  lemma Ordered(env: Env, m: Meta)
    requires ValidMeta(env, m)
    ensures VersionOrder(m)
  {
  }

  /** After a release a rollback is always accepted, and it restores the old stable version. */
  lemma ReleaseThenRollback(env: Env, m: Meta)
    requires ValidMeta(env, m) && Present(m.stable) && Present(m.beta) && Present(m.testing)
    ensures ValidMeta(env, RolledBack(Released(m)))
    ensures RolledBack(Released(m)).stable == m.stable
  {
    hide AtLeast, OwnChannel, ValidMeta;
    TestingAtLeastStable(env, m);
    ReleaseIsValid(env, m);
    RollbackIsValid(env, Released(m));
    TagRestored(env, m);
  }

  lemma TestingAtLeastStable(env: Env, m: Meta)
    requires ValidMeta(env, m) && Present(m.stable) && Present(m.beta) && Present(m.testing)
    ensures AtLeast(m.testing.semver, m.stable.semver)
  {
    hide AtLeast, ValidMeta, SemVer.Valid;
    ChannelVersion(env, m, Stable);
    ChannelVersion(env, m, Beta);
    ChannelVersion(env, m, Testing);
    Ordered(env, m);
    NotOlder(m.stable.semver, m.beta.semver, m.testing.semver);
  }

  lemma ChannelVersion(env: Env, m: Meta, c: Channel)
    requires ValidMeta(env, m) && Present(Get(m, c))
    ensures SemVer.Valid(Get(m, c).semver) && Get(m, c).channel == Some(c)
  {
    hide SemVer.Valid, AtLeast;
    assert OwnChannel(env, m, c);
  }

  lemma TagRestored(env: Env, m: Meta)
    requires ValidMeta(env, m) && Present(m.stable)
    ensures m.stable.(channel := Some(Stable)) == m.stable
  {
    ChannelVersion(env, m, Stable);
  }

  lemma NotOlder(x: string, y: string, z: string)
    requires SemVer.Valid(x) && SemVer.Valid(y) && SemVer.Valid(z)
    requires AtLeast(y, x) && AtLeast(z, y)
    ensures AtLeast(z, x)
  {
    hide SemVer.CompareSemVer, SemVer.Valid;
    SemVer.CompareSemVerPreorder(x, y, z);
    SemVer.CompareSemVerPreorder(y, z, x);
    SemVer.CompareSemVerPreorder(x, z, y);
  }
}

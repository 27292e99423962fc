/**
  One firmware depot: its channel directories and its metadata, moved together by uploads,
  releases and rollbacks.  Every store call may fail; the undo steps that run after a
  failure are taken to work.
 */
module FirmwareDepot {
  import opened Basics
  import opened FirmwareMeta
  import SemVer

  /** Directories of a depot: a channel, its backup, its upload area and its swapped-out copy. */
  datatype Path = Live(c: Channel) | Bak(c: Channel) | Tmp(c: Channel) | Old(c: Channel)

  type Dirs = map<Path, Dir>

  datatype IO = Done | NotExist | Failed

  function Moved(dirs: Dirs, from: Path, to: Path): Dirs
    requires from in dirs
  {
    (dirs - {from})[to := dirs[from]]
  }

  type Layout = map<Channel, Channel>

  ghost predicate InjectiveOn(layout: Layout, paths: set<Channel>) {
    && layout.Keys <= paths
    && (forall t | t in layout :: layout[t] in paths)
    && (forall t, u | t in layout && u in layout && layout[t] == layout[u] :: t == u)
  }

  /** What a path holds, if anything. */
  function At(dirs: Dirs, p: Path): Option<Dir> {
    if p in dirs then Some(dirs[p]) else None
  }

  predicate Switchable(p: Path, paths: set<Channel>) {
    (p.Live? || p.Bak?) && p.c in paths
  }

  /** Everything but channels and backups among paths is as before. */
  ghost predicate OutsideSame(was: Dirs, now: Dirs, paths: set<Channel>) {
    forall p | !Switchable(p, paths) :: At(now, p) == At(was, p)
  }

  /** Midway through the backups: channels in done have left, if they were there. */
  ghost predicate BackedUp(was: Dirs, now: Dirs, paths: set<Channel>, done: set<Channel>, backups: set<Channel>) {
    && OutsideSame(was, now, paths)
    && backups <= done <= paths
    && (forall c | c in done :: At(now, Live(c)) == None && (c in backups <==> At(was, Live(c)).Some?))
    && (forall c | c in backups :: At(now, Bak(c)) == At(was, Live(c)))
    && (forall c | c in paths && c !in done :: At(now, Live(c)) == At(was, Live(c)))
  }

  /** Channels whose backups have gone to targets in applied. */
  ghost predicate Used(applied: Layout, c: Channel) {
    exists t :: t in applied && applied[t] == c
  }

  /** The targets in applied hold their sources' old contents, and the backups they came from are gone. */
  ghost predicate Filled(was: Dirs, now: Dirs, layout: Layout, backups: set<Channel>, applied: Layout) {
    && (forall t | t in applied :: t in layout && applied[t] == layout[t] && layout[t] in backups)
    && (forall t | t in applied :: At(now, Live(t)) == At(was, Live(applied[t])))
    && (forall t | t in applied :: At(now, Bak(applied[t])) == None)
  }

  /** The other targets are free and the other backups untouched. */
  ghost predicate Waiting(was: Dirs, now: Dirs, paths: set<Channel>, backups: set<Channel>, applied: Layout) {
    && (forall c | c in paths && c !in applied :: At(now, Live(c)) == None)
    && (forall c | c in backups && !Used(applied, c) :: At(now, Bak(c)) == At(was, Live(c)))
  }

  /** Midway through the layout. */
  ghost predicate LaidOut(was: Dirs, now: Dirs, paths: set<Channel>, layout: Layout, backups: set<Channel>, applied: Layout) {
    && OutsideSame(was, now, paths)
    && backups <= paths
    && (forall c | c in paths :: c in backups <==> At(was, Live(c)).Some?)
    && Filled(was, now, layout, backups, applied)
    && Waiting(was, now, paths, backups, applied)
  }

  /** The switch is done: each target holds what its source held, whatever order it happened in. */
  ghost predicate Switched(was: Dirs, now: Dirs, paths: set<Channel>, layout: Layout) {
    && OutsideSame(was, now, paths)
    && forall c | c in paths ::
         At(now, Live(c)) == if c in layout then At(was, Live(layout[c])) else None
  }

  /** All channel, upload and swap directories are as before. */
  ghost predicate Restored(was: Dirs, now: Dirs) {
    forall p: Path | !p.Bak? :: At(now, p) == At(was, p)
  }

  /** A backup rename has failed: the channels in moved sit in their backups, the others are in place. */
  ghost predicate Stranded(was: Dirs, now: Dirs, paths: set<Channel>, moved: set<Channel>) {
    && OutsideSame(was, now, paths)
    && moved <= paths
    && (forall c | c in paths :: At(now, Live(c)) == if c in moved then None else At(was, Live(c)))
    && (forall c | c in moved :: At(now, Bak(c)) == At(was, Live(c)) && At(was, Live(c)).Some?)
  }

  /** What restore finds: applied targets full, their sources' backups empty, the other backups full. */
  ghost predicate Restorable(dirs: Dirs, paths: set<Channel>, backups: set<Channel>, applied: Layout) {
    && InjectiveOn(applied, paths) && backups <= paths
    && (forall t | t in applied :: applied[t] in backups && At(dirs, Live(t)).Some? && At(dirs, Bak(applied[t])) == None)
    && (forall c | c in paths && c !in applied :: At(dirs, Live(c)) == None)
    && (forall c | c in backups && !Used(applied, c) :: At(dirs, Bak(c)).Some?)
  }

  ghost predicate Touched(p: Path, applied: Layout) {
    (p.Live? && p.c in applied) || (p.Bak? && Used(applied, p.c))
  }

  datatype SwitchOutcome =
    | Ready(backups: set<Channel>, applied: Layout)
    | Stuck
    | Undone

  /** What a directory ships, its manifest aside. */
  function Payload(dirs: Dirs, p: Path): Option<map<string, string>> {
    if p in dirs then Some(dirs[p].files) else None
  }

  /** If there is a release in a channel, its directory is there, with the files it lists. */
  ghost predicate BackedAt(env: Env, m: Meta, dirs: Dirs, c: Channel) {
    Present(Get(m, c)) ==> Live(c) in dirs && DirMatches(env, dirs[Live(c)], Get(m, c))
  }

  ghost predicate Backed(env: Env, m: Meta, dirs: Dirs) {
    forall c :: BackedAt(env, m, dirs, c)
  }

  datatype Error = DepotNotFound | ChannelNotFound(c: Channel) | Refused

  datatype Result<+T> = Ok(value: T) | Err(error: Error)

  class Depot {
    const env: Env
    /** On a reliable depot no store call fails, except for missing and for existing names. */
    const reliable: bool
    var dirs: Dirs
    var meta: Option<Meta>

    /** The invariant of a depot. */
    ghost predicate Valid()
      reads this
    {
      meta.Some? ==> ValidMeta(env, meta.value) && Backed(env, meta.value, dirs)
    }

    constructor (env: Env, reliable: bool)
      ensures Valid() && dirs == map[] && meta == None
    {
      this.env, this.reliable := env, reliable;
      dirs, meta := map[], None;
    }

    method Stat(p: Path) returns (r: IO)
      ensures r == Done ==> p in dirs
      ensures r == NotExist ==> p !in dirs
      ensures reliable ==> r != Failed
    {
      var fault: bool := *;
      if fault && !reliable {
        return Failed;
      }
      r := if p in dirs then Done else NotExist;
    }

    /** Calls that are sure to work fail only for the reasons a rename always has. */
    method Rename(from: Path, to: Path, sure: bool) returns (r: IO)
      modifies this`dirs
      ensures r == Done ==> from in old(dirs) && to !in old(dirs) && dirs == Moved(old(dirs), from, to)
      ensures r != Done ==> dirs == old(dirs)
      ensures r == NotExist ==> from !in dirs
      ensures (sure || reliable) && from in old(dirs) && to !in old(dirs) ==> r == Done
    {
      if from !in dirs {
        return NotExist;
      }
      if to in dirs {
        return Failed;
      }
      var fault: bool := *;
      if fault && !sure && !reliable {
        return Failed;
      }
      dirs := Moved(dirs, from, to);
      return Done;
    }

    /** A rename on the undo path: it works, as both names are as they should be. */
    method Move(from: Path, to: Path)
      requires At(dirs, from).Some? && At(dirs, to) == None && from != to
      modifies this`dirs
      ensures At(dirs, from) == None && At(dirs, to) == At(old(dirs), from)
      ensures forall p | p != from && p != to :: At(dirs, p) == At(old(dirs), p)
    {
      var _ := Rename(from, to, true);
    }

    method RemoveAll(p: Path, sure: bool) returns (r: IO)
      modifies this`dirs
      ensures r == Done ==> dirs == old(dirs) - {p}
      ensures r != Done ==> dirs == old(dirs)
      ensures sure || reliable ==> r == Done
    {
      var fault: bool := *;
      if fault && !sure && !reliable {
        return Failed;
      }
      dirs := dirs - {p};
      return Done;
    }

    /** First loop: move every channel that exists to its backup, in any order. */
    method BackUp(paths: set<Channel>) returns (ok: bool, backups: set<Channel>, ghost done: set<Channel>)
      modifies this`dirs
      ensures BackedUp(old(dirs), dirs, paths, done, backups)
      ensures ok ==> done == paths
      ensures reliable ==> ok
    {
      backups, done := {}, {};
      var todo := paths;
      assert BackedUp(dirs, dirs, paths, {}, {});
      hide BackedUp;
      while todo != {}
        invariant todo <= paths && done == paths - todo
        invariant BackedUp(old(dirs), dirs, paths, done, backups)
        decreases todo
      {
        var c :| c in todo;
        ghost var before := dirs;
        var _ := RemoveAll(Bak(c), false);
        BackUpCleared(old(dirs), before, dirs, paths, done, backups, c);
        var found := Stat(Live(c));
        if found == Done {
          var moved := Rename(Live(c), Bak(c), false);
          if moved != Done {
            return false, backups, done;
          }
          BackUpMoved(old(dirs), before, dirs, paths, done, backups, c);
          backups := backups + {c};
        } else if found == Failed {
          return false, backups, done;
        } else {
          BackUpSkipped(old(dirs), dirs, paths, done, backups, c);
        }
        todo, done := todo - {c}, done + {c};
      }
      return true, backups, done;
    }

    /** Second loop: fill the targets from the backups, in any order; stops at the first failure. */
    method LayOut(paths: set<Channel>, layout: Layout, backups: set<Channel>, ghost was: Dirs)
      returns (ok: bool, applied: Layout)
      requires InjectiveOn(layout, paths) && BackedUp(was, dirs, paths, paths, backups)
      modifies this`dirs
      ensures LaidOut(was, dirs, paths, layout, backups, applied)
      ensures ok ==> forall t | t in layout && layout[t] in backups :: t in applied
      ensures reliable ==> ok
    {
      hide LaidOut, BackedUp, InjectiveOn, At;
      applied := map[];
      NothingLaidOut(was, dirs, paths, layout, backups);
      var todo := layout.Keys;
      while todo != {}
        invariant todo <= layout.Keys
        invariant LaidOut(was, dirs, paths, layout, backups, applied)
        invariant forall t | t in layout && layout[t] in backups :: t in applied <==> t !in todo
        invariant applied.Keys <= layout.Keys
        decreases todo
      {
        var t :| t in todo;
        todo := todo - {t};
        if layout[t] !in backups {
          continue;
        }
        ghost var before, done := dirs, applied;
        TargetFree(was, dirs, paths, layout, backups, applied, t);
        var moved := Rename(Bak(layout[t]), Live(t), false);
        if moved != Done {
          return false, applied;
        }
        applied := applied[t := layout[t]];
        LayOutStep(was, before, paths, layout, backups, done, t);
      }
      return true, applied;
    }

    /** First half of restore: applied targets go back into the backups. */
    method Unapply(applied: Layout)
      requires forall t, u | t in applied && u in applied && applied[t] == applied[u] :: t == u
      requires forall t | t in applied :: At(dirs, Live(t)).Some? && At(dirs, Bak(applied[t])) == None
      modifies this`dirs
      ensures Unapplied(old(dirs), dirs, applied, applied.Keys)
    {
      assert Unapplied(dirs, dirs, applied, {});
      hide At, Unapplied;
      var todo := applied.Keys;
      ghost var done: set<Channel> := {};
      while todo != {}
        invariant todo + done == applied.Keys && todo !! done
        invariant Unapplied(old(dirs), dirs, applied, done)
        decreases todo
      {
        var t :| t in todo;
        ghost var before := dirs;
        UnapplyReady(old(dirs), dirs, applied, done, t);
        Move(Live(t), Bak(applied[t]));
        UnapplyStep(old(dirs), before, dirs, applied, done, t);
        todo, done := todo - {t}, done + {t};
      }
    }

    /** Second half of restore: backups go back into the channels. */
    method PutBack(backups: set<Channel>)
      requires forall c | c in backups :: At(dirs, Bak(c)).Some? && At(dirs, Live(c)) == None
      modifies this`dirs
      ensures forall c | c in backups :: At(dirs, Live(c)) == At(old(dirs), Bak(c))
      ensures forall p | !Switchable(p, backups) :: At(dirs, p) == At(old(dirs), p)
    {
      hide At;
      var todo := backups;
      while todo != {}
        invariant todo <= backups
        invariant forall c | c in todo :: At(dirs, Bak(c)) == At(old(dirs), Bak(c)) && At(dirs, Live(c)) == None
        invariant forall c | c in backups && c !in todo :: At(dirs, Live(c)) == At(old(dirs), Bak(c))
        invariant forall p | !Switchable(p, backups) :: At(dirs, p) == At(old(dirs), p)
        decreases todo
      {
        var c :| c in todo;
        Move(Bak(c), Live(c));
        todo := todo - {c};
      }
    }

    /** Undoes a switch, whatever order the maps yield their entries in. */
    method Restore(paths: set<Channel>, backups: set<Channel>, applied: Layout)
      requires Restorable(dirs, paths, backups, applied)
      modifies this`dirs
      ensures OutsideSame(old(dirs), dirs, paths)
      ensures forall t | t in applied :: At(dirs, Live(applied[t])) == At(old(dirs), Live(t))
      ensures forall c | c in backups && !Used(applied, c) :: At(dirs, Live(c)) == At(old(dirs), Bak(c))
      ensures forall c | c in paths && c !in backups :: At(dirs, Live(c)) == None
    {
      hide At;
      Unapply(applied);
      forall c | c in backups ensures At(dirs, Bak(c)).Some? && At(dirs, Live(c)) == None {
        if Used(applied, c) {
          var t :| t in applied && applied[t] == c;
        }
      }
      PutBack(backups);
    }

    /** Backs up, lays out, and undoes both if laying out fails. */
    method PrepareSwitch(paths: set<Channel>, layout: Layout) returns (out: SwitchOutcome, ghost moved: set<Channel>)
      requires InjectiveOn(layout, paths)
      modifies this`dirs
      ensures out.Ready? ==>
        && LaidOut(old(dirs), dirs, paths, layout, out.backups, out.applied)
        && Switched(old(dirs), dirs, paths, layout)
        && Restorable(dirs, paths, out.backups, out.applied)
      ensures out.Stuck? ==> Stranded(old(dirs), dirs, paths, moved)
      ensures out.Undone? ==> Restored(old(dirs), dirs)
      ensures !out.Stuck? ==> moved == {}
      ensures reliable ==> out.Ready?
    {
      hide At, Used, LaidOut, BackedUp, Restorable, Restored, Switched, Stranded;
      var backedUp, backups, done := BackUp(paths);
      if !backedUp {
        BackedUpStranded(old(dirs), dirs, paths, done, backups);
        return Stuck, backups;
      }
      var ok, applied := LayOut(paths, layout, backups, old(dirs));
      LaidOutRestorable(old(dirs), dirs, paths, layout, backups, applied);
      if !ok {
        ghost var midway := dirs;
        Restore(paths, backups, applied);
        RestoredAgain(old(dirs), midway, dirs, paths, layout, backups, applied);
        return Undone, {};
      }
      LaidOutSwitched(old(dirs), dirs, paths, layout, backups, applied);
      return Ready(backups, applied), {};
    }

    // -------------------------------------------------------------------------
    // Metadata and manifests
    // -------------------------------------------------------------------------

    method ReadMeta() returns (r: Result<Meta>)
      ensures r.Ok? ==> meta == Some(r.value) && ValidMeta(env, r.value)
      ensures r == Err(DepotNotFound) ==> meta == None
      ensures r.Ok? || r == Err(DepotNotFound) || r == Err(Refused)
      ensures reliable ==> (r.Ok? <==> meta.Some? && ValidMeta(env, meta.value)) && (r == Err(DepotNotFound) <==> meta == None)
    {
      var fault: bool := *;
      if fault && !reliable {
        return Err(Refused);
      }
      if meta.None? {
        return Err(DepotNotFound);
      }
      r := if ValidMeta(env, meta.value) then Ok(meta.value) else Err(Refused);
    }

    /** Refuses invalid metadata; the store may refuse valid metadata, too. */
    method WriteMeta(m: Meta) returns (ok: bool)
      modifies this`meta
      ensures ok ==> ValidMeta(env, m) && meta == Some(m)
      ensures !ok ==> meta == old(meta)
      ensures reliable ==> (ok <==> ValidMeta(env, m))
    {
      var fault: bool := *;
      if (fault && !reliable) || !ValidMeta(env, m) {
        return false;
      }
      meta := Some(m);
      return true;
    }

    /** A channel's release, if it is listed and its files match. */
    method ScanRelease(c: Channel) returns (r: Result<Release>)
      ensures r.Ok? ==> meta.Some? && Present(Get(meta.value, c)) && r.value == Get(meta.value, c)
      ensures r.Ok? ==> Live(c) in dirs && DirMatches(env, dirs[Live(c)], r.value)
      ensures r == Err(ChannelNotFound(c)) ==> meta.Some? && !Present(Get(meta.value, c))
      ensures r.Err? ==> r.error == DepotNotFound || r.error == ChannelNotFound(c) || r.error == Refused
      ensures reliable ==> (r.Ok? <==>
        && meta.Some? && ValidMeta(env, meta.value) && Present(Get(meta.value, c))
        && Live(c) in dirs && DirMatches(env, dirs[Live(c)], Get(meta.value, c)))
    {
      hide ValidMeta, DirMatches;
      var m := ReadMeta();
      if m.Err? {
        return Err(m.error);
      }
      var release := Get(m.value, c);
      if !Present(release) {
        return Err(ChannelNotFound(c));
      }
      var fault: bool := *;
      if (fault && !reliable) || Live(c) !in dirs || !DirMatches(env, dirs[Live(c)], release) {
        return Err(Refused);
      }
      return Ok(release);
    }

    /** Rewrites the channel tag of a manifest; an interrupted write may leave it unreadable. */
    method RewriteManifest(c: Channel) returns (r: IO)
      modifies this`dirs
      ensures OnlyManifest(old(dirs), dirs, Live(c))
      ensures r == NotExist <==> Live(c) !in old(dirs) || old(dirs)[Live(c)].manifest.Missing?
      ensures r == NotExist ==> dirs == old(dirs)
      ensures r == Done ==>
        && Legible(env, old(dirs), Live(c)) && Live(c) in dirs
        && dirs[Live(c)].manifest == Parsed(old(dirs)[Live(c)].manifest.release.(channel := Some(c)))
      ensures r == Failed ==> dirs == old(dirs) || (Live(c) in dirs && dirs[Live(c)].manifest == Corrupt)
      ensures reliable ==> (r == Done <==> Legible(env, old(dirs), Live(c)))
    {
      hide ValidRelease;
      var p := Live(c);
      if p !in dirs || dirs[p].manifest.Missing? {
        return NotExist;
      }
      var fault: bool := *;
      var manifest := dirs[p].manifest;
      if (fault && !reliable) || manifest.Corrupt? || !ValidRelease(env, manifest.release) {
        return Failed;
      }
      var interrupted: bool := *;
      if interrupted && !reliable {
        dirs := dirs[p := dirs[p].(manifest := Corrupt)];
        return Failed;
      }
      dirs := dirs[p := dirs[p].(manifest := Parsed(manifest.release.(channel := Some(c))))];
      return Done;
    }

    /** Retags the manifests of the channels in order; channels without one are skipped, unless required. */
    method RewriteManifests(channels: seq<Channel>, required: set<Channel>) returns (ok: bool)
      requires forall i, j | 0 <= i < j < |channels| :: channels[i] != channels[j]
      modifies this`dirs
      ensures OnlyManifests(old(dirs), dirs)
      ensures ok ==> forall c | c in channels :: ManifestCarried(env, old(dirs), Live(c), dirs, c)
      ensures reliable ==> (ok <==> forall c | c in channels :: Retaggable(env, old(dirs), Live(c), c in required))
    {
      hide ManifestCarried, Retaggable, Legible;
      OnlyManifestsSelf(dirs);
      for k := 0 to |channels|
        invariant OnlyManifests(old(dirs), dirs)
        invariant forall j | 0 <= j < k :: ManifestCarried(env, old(dirs), Live(channels[j]), dirs, channels[j])
        invariant forall j | k <= j < |channels| :: At(dirs, Live(channels[j])) == At(old(dirs), Live(channels[j]))
        invariant reliable ==> forall j | 0 <= j < k :: Retaggable(env, old(dirs), Live(channels[j]), channels[j] in required)
      {
        var c := channels[k];
        ghost var before := dirs;
        var r := RewriteManifest(c);
        RetagStep(env, old(dirs), before, dirs, channels, k, required, r);
        if r == Failed || (r == NotExist && c in required) {
          return false;
        }
      }
      return true;
    }

    method CleanupBackups(backups: set<Channel>)
      modifies this`dirs
      ensures forall p: Path | !p.Bak? :: At(dirs, p) == At(old(dirs), p)
    {
      var todo := backups;
      while todo != {}
        invariant forall p: Path | !p.Bak? :: At(dirs, p) == At(old(dirs), p)
        decreases todo
      {
        var c :| c in todo;
        var _ := RemoveAll(Bak(c), false);
        todo := todo - {c};
      }
    }

    /** Undoes a finished switch after manifests have been retagged: the payloads come back. */
    method UndoSwitch(paths: set<Channel>, layout: Layout, backups: set<Channel>, applied: Layout, ghost was: Dirs, ghost switched: Dirs)
      requires LaidOut(was, switched, paths, layout, backups, applied) && Restorable(switched, paths, backups, applied)
      requires OnlyManifests(switched, dirs)
      modifies this`dirs
      ensures SamePayload(was, dirs)
    {
      hide At, LaidOut, Restorable, SamePayload, OnlyManifests, OutsideSame;
      ghost var retagged := dirs;
      RestorableKeys(switched, dirs, paths, backups, applied);
      Restore(paths, backups, applied);
      PayloadRestored(was, switched, retagged, dirs, paths, layout, backups, applied);
    }

    /** The common part of release and rollback: move directories, retag manifests, write metadata. */
    method SwitchTo(next: Meta, paths: set<Channel>, layout: Layout, order: seq<Channel>, required: set<Channel>)
      returns (r: Result<Meta>, ghost moved: set<Channel>)
      requires InjectiveOn(layout, paths) && forall c | c in order :: c in layout
      requires forall i, j | 0 <= i < j < |order| :: order[i] != order[j]
      modifies this
      ensures r.Ok? ==>
        && meta == Some(next) && r.value == next && ValidMeta(env, next)
        && PayloadsMoved(old(dirs), dirs, paths, layout)
        && ManifestsMoved(env, old(dirs), dirs, order, layout)
      ensures reliable ==>
        && moved == {}
        && (r.Ok? <==>
              ValidMeta(env, next) && forall c | c in order :: Retaggable(env, old(dirs), Live(layout[c]), c in required))
      ensures r.Ok? ==> moved == {}
      ensures r.Err? ==> meta == old(meta) && r.error == Refused
      ensures r.Err? && moved == {} ==> SamePayload(old(dirs), dirs)
      ensures r.Err? && moved != {} ==> Stranded(old(dirs), dirs, paths, moved)
    {
      hide ValidMeta, Backed, At, LaidOut, Restorable, Restored, Switched, Stranded, SamePayload, OnlyManifests,
           PayloadsMoved, OutsideSame, InjectiveOn, ManifestsMoved, Retaggable, ManifestCarried;
      var out;
      out, moved := PrepareSwitch(paths, layout);
      match out
      case Stuck =>
        StrandedNothing(old(dirs), dirs, paths, moved);
        return Err(Refused), moved;
      case Undone =>
        RestoredPayload(old(dirs), dirs);
        return Err(Refused), {};
      case Ready(backups, applied) =>
        ghost var switched := dirs;
        RetaggableMoved(env, old(dirs), switched, paths, layout, order, required);
        var ok := RewriteManifests(order, required);
        ghost var retagged := dirs;
        if ok {
          ok := WriteMeta(next);
        }
        if !ok {
          UndoSwitch(paths, layout, backups, applied, old(dirs), switched);
          return Err(Refused), {};
        }
        CleanupBackups(backups);
        SwitchedPayload(old(dirs), switched, retagged, dirs, paths, layout);
        ManifestsArrived(env, old(dirs), switched, retagged, dirs, paths, layout, order);
        return Ok(next), {};
    }

    /**
      Testing becomes beta, beta becomes stable, stable becomes rollback.  On failure nothing
      is lost; only a failed backup leaves channels out of place, and then the depot is valid
      exactly when none of those is listed.
     */
    method Release() returns (r: Result<Meta>, ghost moved: set<Channel>)
      requires Valid()
      modifies this
      ensures r.Ok? ==>
        && Valid() && old(meta).Some? && meta == Some(r.value)
        && r.value == Released(old(meta).value) && Promoted(old(meta).value, r.value)
        && PayloadsMoved(old(dirs), dirs, ALL, RELEASE)
        && ManifestsMoved(env, old(dirs), dirs, [Rollback, Stable, Beta], RELEASE)
      ensures r.Ok? ==> moved == {}
      ensures r.Err? ==> meta == old(meta)
      ensures r.Err? && moved == {} ==> Valid() && SamePayload(old(dirs), dirs)
      ensures r.Err? && moved != {} ==>
        && meta.Some? && Stranded(old(dirs), dirs, ALL, moved)
        && (Valid() <==> forall c | c in moved :: !Present(Get(meta.value, c)))
      ensures old(meta).Some? && !(Present(old(meta).value.beta) && Present(old(meta).value.testing)) ==>
        r.Err? && dirs == old(dirs)
      ensures reliable ==> (r.Ok? <==>
        && old(meta).Some? && Present(old(meta).value.beta) && Present(old(meta).value.testing)
        && forall c | c != Rollback :: Retaggable(env, old(dirs), Live(c), false))
    {
      assert SamePayload(dirs, dirs);
      hide ValidMeta, Backed, Stranded, SamePayload, PayloadsMoved, InjectiveOn, ManifestsMoved, Retaggable, DirMatches;
      var current := ReadSources();
      if current.Err? {
        return Err(current.error), {};
      }
      LayoutsInjective();
      ReleaseAccepted(env, current.value, dirs);
      r, moved := SwitchTo(Released(current.value), ALL, RELEASE, [Rollback, Stable, Beta], {});
      ReleaseOutcome(env, current.value, old(dirs), dirs, r, moved);
    }

    /** A listed release's directory has its files. */
    lemma ListedMatches(c: Channel)
      requires Valid()
      ensures meta.Some? ==> ValidMeta(env, meta.value)
      ensures meta.Some? && Present(Get(meta.value, c)) ==>
        Live(c) in dirs && DirMatches(env, dirs[Live(c)], Get(meta.value, c))
    {
      hide DirMatches, ValidMeta;
      assert meta.Some? ==> BackedAt(env, meta.value, dirs, c);
    }

    /** The metadata, once all releases that are to move have been read. */
    method ReadSources() returns (r: Result<Meta>)
      requires Valid()
      ensures r.Ok? ==> meta == Some(r.value) && Present(r.value.beta) && Present(r.value.testing)
      ensures reliable ==> (r.Ok? <==> meta.Some? && Present(meta.value.beta) && Present(meta.value.testing))
    {
      ListedMatches(Beta);
      ListedMatches(Testing);
      ListedMatches(Stable);
      hide DirMatches, ValidMeta, Backed;
      var current := ReadMeta();
      if current.Err? {
        return current;
      }
      var beta := ScanRelease(Beta);
      if beta.Err? {
        return Err(beta.error);
      }
      var testing := ScanRelease(Testing);
      if testing.Err? {
        return Err(testing.error);
      }
      if Present(current.value.stable) {
        var stable := ScanRelease(Stable);
        if stable.Err? {
          return Err(stable.error);
        }
      }
      return current;
    }

    /** Rollback and stable change places; refused when the old version is newer than beta. */
    method RollBack() returns (r: Result<Meta>, ghost moved: set<Channel>)
      requires Valid()
      modifies this
      ensures r.Ok? ==>
        && Valid() && old(meta).Some? && meta == Some(r.value)
        && r.value == RolledBack(old(meta).value) && Exchanged(old(meta).value, r.value)
        && PayloadsMoved(old(dirs), dirs, {Stable, Rollback}, ROLLBACK)
        && ManifestsMoved(env, old(dirs), dirs, [Stable, Rollback], ROLLBACK)
      ensures r.Ok? ==> moved == {}
      ensures r.Err? ==> meta == old(meta)
      ensures r.Err? && moved == {} ==> Valid() && SamePayload(old(dirs), dirs)
      ensures r.Err? && moved != {} ==>
        && meta.Some? && Stranded(old(dirs), dirs, {Stable, Rollback}, moved)
        && (Valid() <==> forall c | c in moved :: !Present(Get(meta.value, c)))
      ensures old(meta).Some? && !Present(old(meta).value.rollback) ==> r.Err? && dirs == old(dirs)
      ensures reliable ==> (r.Ok? <==> old(meta).Some? && CanRollBack(env, old(meta).value, old(dirs)))
    {
      assert SamePayload(dirs, dirs);
      hide ValidMeta, Backed, Stranded, SamePayload, PayloadsMoved, InjectiveOn, ManifestsMoved, Retaggable, DirMatches, AtLeast,
           Exchanged, RolledBack, Present, At, CanRollBack;
      var current := ReadPrevious();
      if current.Err? {
        if meta.Some? && CanRollBack(env, meta.value, dirs) {
          RollbackNeeds(env, meta.value, dirs);
        }
        return Err(current.error), {};
      }
      LayoutsInjective();
      RollbackAccepted(env, current.value, dirs);
      r, moved := SwitchTo(RolledBack(current.value), {Stable, Rollback}, ROLLBACK, [Stable, Rollback], {Stable});
      RollbackOutcome(env, current.value, old(dirs), dirs, r, moved);
    }

    /** The metadata, once the releases that are to change places have been read. */
    method ReadPrevious() returns (r: Result<Meta>)
      requires Valid()
      ensures r.Ok? ==> meta == Some(r.value) && Present(r.value.rollback)
      ensures reliable ==> (r.Ok? <==> meta.Some? && Present(meta.value.rollback))
    {
      ListedMatches(Rollback);
      ListedMatches(Stable);
      hide DirMatches, ValidMeta, Backed;
      var current := ReadMeta();
      if current.Err? {
        return current;
      }
      var rollback := ScanRelease(Rollback);
      if rollback.Err? {
        return Err(rollback.error);
      }
      if Present(current.value.stable) {
        var stable := ScanRelease(Stable);
        if stable.Err? {
          return Err(stable.error);
        }
      }
      return current;
    }

    // -------------------------------------------------------------------------
    // Upload
    // -------------------------------------------------------------------------

    /** Reads an archive: its manifest, and the other files by name. */
    method ReadTar(want: Channel, entries: seq<Entry>) returns (r: Result<Release>, files: map<string, string>)
      ensures r.Ok? ==> ValidRelease(env, r.value) && r.value.channel == Some(want)
      ensures r.Ok? ==> Archive(env, entries, r.value, files)
      ensures r.Err? ==> r.error == Refused
      ensures reliable ==> forall release | Readable(env, want, entries, release) :: r == Ok(release)
    {
      files := map[];
      var manifest: Option<Release> := None;
      var seen: set<string> := {};
      assert ReadSoFar(env, entries, 0, seen, files, manifest);
      assert forall n | n in seen :: n != MANIFEST;
      hide ValidRelease, ReadSoFar, Archive, Readable, Named;
      for k := 0 to |entries|
        invariant ReadSoFar(env, entries, k, seen, files, manifest)
        invariant manifest.Some? ==> ValidRelease(env, manifest.value) && manifest.value.channel == Some(want)
        invariant MANIFEST in seen ==> manifest.Some?
      {
        var e := entries[k];
        var fault: bool := *;
        SeenBefore(env, entries, k, seen, files, manifest);
        if (fault && !reliable) || !e.regular || !env.validPath(e.name) || e.name in seen {
          if reliable {
            Unreadable(env, want, entries, k);
          }
          return Err(Refused), files;
        }
        ReadStep(env, entries, k, seen, files, manifest);
        seen := seen + {e.name};
        if e.name == MANIFEST {
          manifest := env.decode(e.data);
          if manifest.None? || !ValidRelease(env, manifest.value) || manifest.value.channel != Some(want) {
            Unreadable(env, want, entries, k);
            return Err(Refused), files;
          }
          continue;
        }
        files := files[e.name := e.data];
      }
      if manifest.None? {
        NoManifest(env, want, entries, seen, files, manifest);
        return Err(Refused), files;
      }
      OneManifest(env, want, entries, seen, files, manifest);
      ReadArchive(env, entries, seen, files, manifest);
      r := Ok(manifest.value);
    }

    /** Writes the listed files, each taken from the archive once, in any order. */
    method WriteFiles(dst: Path, files: map<string, string>, release: Release) returns (ok: bool)
      requires dst in dirs && DistinctPaths(release.files)
      modifies this`dirs
      ensures dst in dirs && forall p | p != dst :: At(dirs, p) == At(old(dirs), p)
      ensures ok ==>
        && files.Keys == Listed(release)
        && Written(env, old(dirs[dst].files), dirs[dst].files, files, files.Keys)
      ensures reliable ==> (ok <==> files.Keys == Listed(release))
    {
      hide Written, At, Matched, DistinctPaths, Listed;
      var left, todo := files, release.files;
      ghost var before := dirs[dst].files;
      NothingWritten(env, before, files);
      NothingMatched(files, release.files);
      while todo != multiset{}
        invariant dst in dirs && forall p | p != dst :: At(dirs, p) == At(old(dirs), p)
        invariant Matched(files, left, release.files, todo)
        invariant Written(env, before, dirs[dst].files, files, files.Keys - left.Keys)
        decreases |todo|
      {
        var f :| f in todo;
        var fault: bool := *;
        if (fault && !reliable) || f.path !in left {
          if f.path !in left {
            Unmatched(files, left, release, todo, f);
          }
          return false;
        }
        MatchedOne(files, left, release.files, todo, f);
        WrittenOne(env, before, dirs[dst].files, files, files.Keys - left.Keys, f.path);
        PutFile(dst, env.clean(f.path), left[f.path]);
        assert files.Keys - (left - {f.path}).Keys == files.Keys - left.Keys + {f.path};
        left := left - {f.path};
        todo := todo - multiset{f};
      }
      if left != map[] {
        LeftOver(files, left, release);
        return false;
      }
      AllMatched(files, left, release);
      return true;
    }

    method PutFile(dst: Path, name: string, data: string)
      requires dst in dirs
      modifies this`dirs
      ensures dst in dirs && dirs[dst].files == old(dirs[dst].files)[name := data]
      ensures forall p | p != dst :: At(dirs, p) == At(old(dirs), p)
    {
      dirs := dirs[dst := dirs[dst].(files := dirs[dst].files[name := data])];
    }

    method ExtractTar(dst: Path, want: Channel, entries: seq<Entry>) returns (r: Result<Release>)
      requires dst in dirs
      modifies this`dirs
      ensures dst in dirs && forall p | p != dst :: At(dirs, p) == At(old(dirs), p)
      ensures r.Ok? ==>
        Extracted(env, dirs[dst], entries, r.value, old(dirs[dst].files)) && r.value.channel == Some(want)
      ensures r.Err? ==> r.error == Refused
      ensures reliable ==> forall release | Fitting(env, want, entries, release) :: r == Ok(release)
    {
      hide ValidRelease, Archive, DirMatches, Written, Listed, Readable, Fitting;
      FittingReadable(env, want, entries);
      var release, files := ReadTar(want, entries);
      if release.Err? {
        return Err(Refused);
      }
      assert DistinctPaths(release.value.files) by {
        ValidDistinct(env, release.value);
      }
      FittingFiles(env, want, entries, release.value, files);
      var written := WriteFiles(dst, files, release.value);
      if !written {
        return Err(Refused);
      }
      var fault: bool := *;
      if (fault && !reliable) || exists f :: f in release.value.files && env.clean(f.path) == MANIFEST {
        // a listed file that the manifest itself has just overwritten
        return Err(Refused);
      }
      dirs := dirs[dst := dirs[dst].(manifest := Parsed(release.value))];
      if !DirMatches(env, dirs[dst], release.value) {
        FittingMatches(env, want, entries, release.value, old(dirs[dst].files), dirs[dst], files);
        return Err(Refused);
      }
      return release;
    }

    /** The new metadata, unless the depot's file list disagrees with the upload. */
    method PlanUpload(channel: Channel, release: Release) returns (r: Result<Meta>)
      requires Valid()
      ensures r.Ok? ==> r.value == With(if meta.Some? then meta.value else NO_DEPOT, channel, release)
      ensures reliable ==> (r.Ok? <==> meta.None? || meta.value.info == multiset{} || SameFiles(meta.value.info, release))
      ensures r.Ok? && meta.Some? && meta.value.info != multiset{} ==> SameFiles(meta.value.info, release)
    {
      var snapshot := ReadMeta();
      if snapshot.Err? {
        return if snapshot.error == DepotNotFound then Ok(With(NO_DEPOT, channel, release)) else Err(Refused);
      }
      var m := snapshot.value;
      if m.info != multiset{} && !SameFiles(m.info, release) {
        return Err(Refused);
      }
      return Ok(With(m, channel, release));
    }

    method MakeDir(p: Path) returns (ok: bool)
      modifies this`dirs
      ensures forall q | q != p :: At(dirs, q) == At(old(dirs), q)
      ensures ok ==> p in dirs && (p !in old(dirs) ==> dirs[p].files == map[])
      ensures !ok ==> dirs == old(dirs)
      ensures reliable ==> ok
    {
      var fault: bool := *;
      if fault && !reliable {
        return false;
      }
      if p !in dirs {
        dirs := dirs[p := Dir(map[], Missing)];
      }
      return true;
    }

    /** Swaps the upload area in for the channel and writes the metadata, or leaves both as they were. */
    method Install(channel: Channel, next: Meta) returns (ok: bool)
      requires Tmp(channel) in dirs
      modifies this
      ensures ok ==> meta == Some(next) && ValidMeta(env, next) && At(dirs, Live(channel)) == At(old(dirs), Tmp(channel))
      ensures !ok ==> meta == old(meta) && At(dirs, Live(channel)) == At(old(dirs), Live(channel))
      ensures forall c | c != channel :: At(dirs, Live(c)) == At(old(dirs), Live(c))
      ensures reliable ==> (ok <==> ValidMeta(env, next))
    {
      hide ValidMeta, At;
      var _ := RemoveAll(Old(channel), false);
      ghost var start := dirs;
      OldGone(old(dirs), start, channel);
      var swapped, hadPrevious := SwapIn(channel);
      if !swapped {
        return false;
      }
      var written := WriteMeta(next);
      if !written {
        SwapBack(channel, hadPrevious);
        return false;
      }
      ghost var done := dirs;
      var _ := RemoveAll(Old(channel), false);
      OldGone(done, dirs, channel);
      return true;
    }

    method SwapIn(channel: Channel) returns (ok: bool, hadPrevious: bool)
      requires Tmp(channel) in dirs && (reliable ==> Old(channel) !in dirs)
      modifies this`dirs
      ensures ok ==>
        && At(dirs, Live(channel)) == At(old(dirs), Tmp(channel))
        && (if hadPrevious then At(dirs, Old(channel)) == At(old(dirs), Live(channel)) && At(dirs, Old(channel)).Some?
            else At(old(dirs), Live(channel)) == None)
      ensures !ok ==> At(dirs, Live(channel)) == At(old(dirs), Live(channel))
      ensures forall c | c != channel :: At(dirs, Live(c)) == At(old(dirs), Live(c))
      ensures reliable ==> ok
    {
      var tmp, target, swap := Tmp(channel), Live(channel), Old(channel);
      var found := Stat(target);
      hadPrevious := found == Done;
      if hadPrevious {
        var moved := Rename(target, swap, false);
        if moved != Done {
          return false, hadPrevious;
        }
      }
      var moved := Rename(tmp, target, false);
      ok := moved == Done;
      if !ok && hadPrevious {
        Move(swap, target);
      }
    }

    /** The metadata could not be written: the old directory comes back. */
    method SwapBack(channel: Channel, hadPrevious: bool)
      requires hadPrevious ==> At(dirs, Old(channel)).Some?
      modifies this`dirs
      ensures At(dirs, Live(channel)) == if hadPrevious then At(old(dirs), Old(channel)) else None
      ensures forall c | c != channel :: At(dirs, Live(c)) == At(old(dirs), Live(c))
    {
      var _ := RemoveAll(Live(channel), true);
      if hadPrevious {
        Move(Old(channel), Live(channel));
      }
    }

    /**
      Replaces one channel by the archive's contents.  A failure at any point leaves metadata
      and all channels exactly as they were.  stale is what clearing the upload area has left there.
     */
    method Upload(channel: Channel, entries: seq<Entry>)
      returns (r: Result<Release>, ghost cleared: bool, ghost stale: map<string, string>)
      requires Valid()
      modifies this
      ensures Valid()
      ensures r.Ok? ==>
        && meta == Some(With(if old(meta).Some? then old(meta).value else NO_DEPOT, channel, r.value))
        && Live(channel) in dirs && Extracted(env, dirs[Live(channel)], entries, r.value, stale)
        && r.value.channel == Some(channel)
        && Replaced(if old(meta).Some? then old(meta).value else NO_DEPOT, meta.value, channel, r.value)
        && SemVer.Valid(r.value.semver) && (forall f | f in r.value.files :: env.validPath(f.path))
      ensures cleared ==> stale == map[]
      ensures r.Err? ==> meta == old(meta) && At(dirs, Live(channel)) == At(old(dirs), Live(channel))
      ensures forall c | c != channel :: At(dirs, Live(c)) == At(old(dirs), Live(c))
      ensures r.Ok? && old(meta).Some? ==> SameFilesIf(old(meta).value.info, r.value)
      ensures reliable ==> forall release | Fitting(env, channel, entries, release) && Acceptable(env, old(meta), channel, release) ::
        r == Ok(release)
    {
      hide ValidMeta, Backed, Extracted, At, Fitting, SameFiles, SameFilesIf, Replaced, With, SemVer.Valid;
      var tmp := Tmp(channel);
      ghost var was, known := dirs, meta;
      cleared := Clear(tmp);
      stale := map[];
      var made := MakeDir(tmp);
      if !made {
        KeptValid(env, meta, was, dirs);
        return Err(Refused), cleared, stale;
      }
      stale := dirs[tmp].files;
      r := ExtractTar(tmp, channel, entries);
      KeptValid(env, meta, was, dirs);
      if r.Ok? {
        var plan := PlanUpload(channel, r.value);
        ghost var extracted := dirs;
        var installed := false;
        if plan.Ok? {
          installed := Install(channel, plan.value);
        }
        if installed {
          var _ := Clear(tmp);
          NamesAgree(env, known, extracted[tmp], entries, r.value, stale);
          ExtractedSound(env, extracted[tmp], entries, r.value, stale);
          WithReplaces(if known.Some? then known.value else NO_DEPOT, channel, r.value);
          InstalledValid(env, known, plan.value, channel, was, extracted, dirs, entries, r.value, stale);
          return;
        }
      }
      var _ := Clear(tmp);
      KeptValid(env, meta, was, dirs);
      r := Err(Refused);
    }

    method Clear(p: Path) returns (done: bool)
      modifies this`dirs
      ensures forall q | q != p :: At(dirs, q) == At(old(dirs), q)
      ensures done ==> p !in dirs
    {
      var r := RemoveAll(p, false);
      done := r == Done;
    }
  }

  lemma OldGone(was: Dirs, now: Dirs, channel: Channel)
    requires now == was || now == was - {Old(channel)}
    ensures forall c :: At(now, Live(c)) == At(was, Live(c)) && At(now, Tmp(c)) == At(was, Tmp(c))
    ensures forall c | Tmp(c) in was :: Tmp(c) in now
  {
  }

  const MANIFEST: string := "manifest.json"

  datatype Entry = Entry(name: string, regular: bool, data: string)

  ghost predicate Named(entries: seq<Entry>, k: nat, n: string)
    requires k <= |entries|
  {
    exists i :: 0 <= i < k && entries[i].name == n
  }

  lemma NamedGrows(entries: seq<Entry>, k: nat)
    requires k < |entries|
    ensures forall n :: Named(entries, k + 1, n) <==> Named(entries, k, n) || n == entries[k].name
    ensures forall i | 0 <= i < k :: Named(entries, k, entries[i].name)
  {
    forall n ensures Named(entries, k + 1, n) <==> Named(entries, k, n) || n == entries[k].name {
      assert n == entries[k].name ==> entries[k].name == n;
    }
  }

  /** The first k entries have been read. */
  ghost predicate ReadSoFar(env: Env, entries: seq<Entry>, k: nat, seen: set<string>, files: map<string, string>,
                            manifest: Option<Release>)
    requires k <= |entries|
  {
    && (forall n :: n in seen <==> Named(entries, k, n))
    && (forall i, j | 0 <= i < j < k :: entries[i].name != entries[j].name)
    && (forall n :: n in files <==> n in seen && n != MANIFEST)
    && (forall i | 0 <= i < k && entries[i].name != MANIFEST :: files[entries[i].name] == entries[i].data)
    && (manifest.Some? ==> MANIFEST in seen)
    && (forall i | 0 <= i < k && entries[i].name == MANIFEST :: env.decode(entries[i].data) == manifest)
  }

  lemma ReadStep(env: Env, entries: seq<Entry>, k: nat, seen: set<string>, files: map<string, string>, manifest: Option<Release>)
    requires k < |entries| && entries[k].name !in seen && ReadSoFar(env, entries, k, seen, files, manifest)
    ensures var e := entries[k];
      if e.name == MANIFEST then ReadSoFar(env, entries, k + 1, seen + {e.name}, files, env.decode(e.data))
        || env.decode(e.data) == None
      else ReadSoFar(env, entries, k + 1, seen + {e.name}, files[e.name := e.data], manifest)
  {
    hide ReadSoFar, Named;
    if entries[k].name == MANIFEST {
      if env.decode(entries[k].data).Some? {
        ReadManifest(env, entries, k, seen, files, manifest);
      }
    } else {
      ReadFile(env, entries, k, seen, files, manifest);
    }
  }

  lemma ReadManifest(env: Env, entries: seq<Entry>, k: nat, seen: set<string>, files: map<string, string>, manifest: Option<Release>)
    requires k < |entries| && entries[k].name !in seen && ReadSoFar(env, entries, k, seen, files, manifest)
    requires entries[k].name == MANIFEST
    ensures ReadSoFar(env, entries, k + 1, seen + {MANIFEST}, files, env.decode(entries[k].data))
  {
    NamedGrows(entries, k);
    hide Named;
  }

  lemma ReadFile(env: Env, entries: seq<Entry>, k: nat, seen: set<string>, files: map<string, string>, manifest: Option<Release>)
    requires k < |entries| && entries[k].name !in seen && ReadSoFar(env, entries, k, seen, files, manifest)
    requires entries[k].name != MANIFEST
    ensures ReadSoFar(env, entries, k + 1, seen + {entries[k].name}, files[entries[k].name := entries[k].data], manifest)
  {
    NamedGrows(entries, k);
    hide Named;
  }

  lemma ReadArchive(env: Env, entries: seq<Entry>, seen: set<string>, files: map<string, string>, manifest: Option<Release>)
    requires ReadSoFar(env, entries, |entries|, seen, files, manifest) && manifest.Some?
    ensures Archive(env, entries, manifest.value, files)
  {
  }

  /** The archive holds the release as its manifest, and otherwise exactly these files, each once. */
  ghost predicate Archive(env: Env, entries: seq<Entry>, release: Release, files: map<string, string>) {
    && (forall i, j | 0 <= i < j < |entries| :: entries[i].name != entries[j].name)
    && (exists i :: 0 <= i < |entries| && entries[i].name == MANIFEST)
    && (forall i | 0 <= i < |entries| && entries[i].name == MANIFEST :: env.decode(entries[i].data) == Some(release))
    && (forall n | n in files :: exists i :: 0 <= i < |entries| && entries[i].name == n != MANIFEST)
    && (forall i | 0 <= i < |entries| && entries[i].name != MANIFEST ::
          entries[i].name in files && files[entries[i].name] == entries[i].data)
  }

  function Listed(release: Release): set<string> {
    set f | f in release.files :: f.path
  }

  /** The data of the names written so far is in place, over what was there before. */
  ghost predicate Written(env: Env, before: map<string, string>, now: map<string, string>, files: map<string, string>,
                          names: set<string>)
  {
    && names <= files.Keys
    && (forall n | n in names :: env.clean(n) in now)
    && (forall t | t in before :: t in now)
    && (forall t | t in now ::
          if exists n :: n in names && env.clean(n) == t then
            exists n :: n in names && env.clean(n) == t && now[t] == files[n]
          else
            t in before && now[t] == before[t])
  }

  /** The entries still to come and the files still left: what is gone from both has found its partner. */
  ghost predicate Matched(files: map<string, string>, left: map<string, string>, listed: multiset<File>, todo: multiset<File>) {
    && todo <= listed
    && left.Keys <= files.Keys && (forall n | n in left :: left[n] == files[n])
    && (forall n | n in files && n !in left :: exists f :: f in listed - todo && f.path == n)
    && (forall f | f in listed - todo :: f.path in files && f.path !in left)
  }

  lemma NothingMatched(files: map<string, string>, listed: multiset<File>)
    ensures Matched(files, files, listed, listed)
  {
    assert listed - listed == multiset{};
  }

  lemma MatchedOne(files: map<string, string>, left: map<string, string>, listed: multiset<File>, todo: multiset<File>, f: File)
    requires Matched(files, left, listed, todo) && f in todo && f.path in left
    ensures Matched(files, left - {f.path}, listed, todo - multiset{f})
    ensures f.path in files && left[f.path] == files[f.path]
    ensures files.Keys - (left - {f.path}).Keys == files.Keys - left.Keys + {f.path}
  {
    TodoLess(listed, todo, f);
    GoneFound(files, left, listed - todo, listed - (todo - multiset{f}), f);
    StillListed(files, left, listed - todo, listed - (todo - multiset{f}), f);
  }

  lemma GoneFound(files: map<string, string>, left: map<string, string>, was: multiset<File>, now: multiset<File>, f: File)
    requires forall n | n in files && n !in left :: exists g :: g in was && g.path == n
    requires forall g :: g in now <==> g in was || g == f
    ensures forall n | n in files && n !in left - {f.path} :: exists g :: g in now && g.path == n
  {
    forall n | n in files && n !in left - {f.path} ensures exists g :: g in now && g.path == n {
      if n == f.path {
        assert f in now;
      } else {
        var g :| g in was && g.path == n;
        assert g in now;
      }
    }
  }

  lemma StillListed(files: map<string, string>, left: map<string, string>, was: multiset<File>, now: multiset<File>, f: File)
    requires forall g | g in was :: g.path in files && g.path !in left
    requires (forall g :: g in now <==> g in was || g == f) && f.path in files
    ensures forall g | g in now :: g.path in files && g.path !in left - {f.path}
  {
  }

  lemma TodoLess(listed: multiset<File>, todo: multiset<File>, f: File)
    requires todo <= listed && f in todo
    ensures todo - multiset{f} <= listed
    ensures forall g :: g in listed - (todo - multiset{f}) <==> g in listed - todo || g == f
  {
  }

  lemma AllMatched(files: map<string, string>, left: map<string, string>, release: Release)
    requires Matched(files, left, release.files, multiset{}) && left == map[]
    ensures files.Keys == Listed(release) && files.Keys - left.Keys == files.Keys
  {
    assert release.files - multiset{} == release.files;
    forall n ensures n in files <==> n in Listed(release) {
      if n in files {
        var f :| f in release.files && f.path == n;
      }
    }
  }

  lemma LeftOver(files: map<string, string>, left: map<string, string>, release: Release)
    requires Matched(files, left, release.files, multiset{}) && left != map[]
    ensures files.Keys != Listed(release)
  {
    assert release.files - multiset{} == release.files;
    SomeKey(left);
    var n :| n in left;
    assert n in files && n !in Listed(release);
  }

  lemma SomeKey(left: map<string, string>)
    ensures left == map[] || exists n :: n in left
  {
    if forall n :: n !in left {
      assert left == map[];
    }
  }

  lemma Unmatched(files: map<string, string>, left: map<string, string>, release: Release, todo: multiset<File>, f: File)
    requires Matched(files, left, release.files, todo) && DistinctPaths(release.files) && f in todo && f.path !in left
    ensures files.Keys != Listed(release)
  {
    assert f.path in Listed(release);
  }

  // ---------------------------------------------------------------------------
  // Archives that are accepted
  // ---------------------------------------------------------------------------

  /** A proper archive: regular files with valid paths, each once, and one of them the channel's manifest. */
  ghost predicate Readable(env: Env, want: Channel, entries: seq<Entry>, release: Release) {
    && (forall i | 0 <= i < |entries| :: entries[i].regular && env.validPath(entries[i].name))
    && (forall i, j | 0 <= i < j < |entries| :: entries[i].name != entries[j].name)
    && (exists i :: 0 <= i < |entries| && entries[i].name == MANIFEST)
    && (forall i | 0 <= i < |entries| && entries[i].name == MANIFEST :: env.decode(entries[i].data) == Some(release))
    && ValidRelease(env, release) && release.channel == Some(want)
  }

  function OtherNames(entries: seq<Entry>): set<string> {
    set i | 0 <= i < |entries| && entries[i].name != MANIFEST :: entries[i].name
  }

  /** It holds exactly the files its manifest lists, with their hashes, each with a place of its own. */
  ghost predicate Fitting(env: Env, want: Channel, entries: seq<Entry>, release: Release) {
    && Readable(env, want, entries, release)
    && OtherNames(entries) == Listed(release)
    && (forall f | f in release.files :: env.clean(f.path) != MANIFEST && OwnPlace(env, release, f.path))
    && (forall f, i | f in release.files && 0 <= i < |entries| && entries[i].name == f.path ::
          env.sha(entries[i].data) == f.sha && env.md5(entries[i].data) == f.md5)
  }

  lemma FittingReadable(env: Env, want: Channel, entries: seq<Entry>)
    ensures forall release | Fitting(env, want, entries, release) :: Readable(env, want, entries, release)
  {
    hide Readable;
  }

  lemma ValidDistinct(env: Env, release: Release)
    requires ValidRelease(env, release)
    ensures DistinctPaths(release.files)
  {
  }

  lemma SeenBefore(env: Env, entries: seq<Entry>, k: nat, seen: set<string>, files: map<string, string>, manifest: Option<Release>)
    requires k < |entries| && ReadSoFar(env, entries, k, seen, files, manifest)
    ensures entries[k].name in seen <==> Named(entries, k, entries[k].name)
  {
  }

  lemma Unreadable(env: Env, want: Channel, entries: seq<Entry>, k: nat)
    requires k < |entries|
    requires var e := entries[k];
      !e.regular || !env.validPath(e.name) || Named(entries, k, e.name)
      || (e.name == MANIFEST && (env.decode(e.data).None? || !ValidRelease(env, env.decode(e.data).value)
                                 || env.decode(e.data).value.channel != Some(want)))
    ensures forall release :: !Readable(env, want, entries, release)
  {
    hide ValidRelease;
  }

  lemma NoManifest(env: Env, want: Channel, entries: seq<Entry>, seen: set<string>, files: map<string, string>, manifest: Option<Release>)
    requires ReadSoFar(env, entries, |entries|, seen, files, manifest) && MANIFEST !in seen
    ensures forall release :: !Readable(env, want, entries, release)
  {
    hide ValidRelease;
    assert !Named(entries, |entries|, MANIFEST);
  }

  lemma OneManifest(env: Env, want: Channel, entries: seq<Entry>, seen: set<string>, files: map<string, string>, manifest: Option<Release>)
    requires ReadSoFar(env, entries, |entries|, seen, files, manifest)
    ensures forall release | Readable(env, want, entries, release) :: manifest == Some(release)
  {
    hide ValidRelease;
  }

  lemma FittingFiles(env: Env, want: Channel, entries: seq<Entry>, release: Release, files: map<string, string>)
    requires Archive(env, entries, release, files)
    ensures Fitting(env, want, entries, release) ==>
      files.Keys == Listed(release) && forall f | f in release.files :: env.clean(f.path) != MANIFEST
  {
    hide Readable, OwnPlace;
    assert files.Keys == OtherNames(entries);
  }

  lemma FittingMatches(env: Env, want: Channel, entries: seq<Entry>, release: Release, before: map<string, string>, d: Dir,
                       files: map<string, string>)
    requires Archive(env, entries, release, files) && files.Keys == Listed(release)
    requires Written(env, before, d.files, files, files.Keys)
    ensures Fitting(env, want, entries, release) ==> DirMatches(env, d, release)
  {
    if Fitting(env, want, entries, release) {
      forall f | f in release.files ensures FileMatches(env, d, f) {
        MatchesInPlace(env, want, entries, release, before, d, files, f);
      }
    }
  }

  lemma MatchesInPlace(env: Env, want: Channel, entries: seq<Entry>, release: Release, before: map<string, string>, d: Dir,
                       files: map<string, string>, f: File)
    requires Archive(env, entries, release, files) && files.Keys == Listed(release)
    requires Written(env, before, d.files, files, files.Keys) && Fitting(env, want, entries, release) && f in release.files
    ensures FileMatches(env, d, f)
  {
    hide Readable;
    assert f.path in files && OwnPlace(env, release, f.path);
    var i :| 0 <= i < |entries| && entries[i].name == f.path != MANIFEST;
    var n :| n in files && env.clean(n) == env.clean(f.path) && d.files[env.clean(f.path)] == files[n];
    assert n in Listed(release) && n == f.path;
  }

  lemma NothingWritten(env: Env, before: map<string, string>, files: map<string, string>)
    ensures Written(env, before, before, files, files.Keys - files.Keys)
  {
  }

  lemma WrittenOne(env: Env, before: map<string, string>, now: map<string, string>, files: map<string, string>,
                   names: set<string>, name: string)
    requires Written(env, before, now, files, names) && name in files
    ensures Written(env, before, now[env.clean(name) := files[name]], files, names + {name})
  {
    var all, next := names + {name}, now[env.clean(name) := files[name]];
    forall t | t in next
      ensures if exists n :: n in all && env.clean(n) == t then exists n :: n in all && env.clean(n) == t && next[t] == files[n]
              else t in before && next[t] == before[t]
    {
      if t == env.clean(name) {
        assert name in all && next[t] == files[name];
      } else if n :| n in names && env.clean(n) == t && now[t] == files[n] {
        assert n in all;
      }
    }
  }

  /**
    d is the archive unpacked over what was there before: all of its files are listed and in place, and
    the listed hashes are right.
   */
  ghost predicate Extracted(env: Env, d: Dir, entries: seq<Entry>, release: Release, before: map<string, string>) {
    && ValidRelease(env, release)
    && DirMatches(env, d, release)
    && d.manifest == Parsed(release)
    && exists files ::
         && Archive(env, entries, release, files)
         && files.Keys == Listed(release)
         && Written(env, before, d.files, files, files.Keys)
  }

  /** No other listed name goes to the same place. */
  predicate OwnPlace(env: Env, release: Release, name: string) {
    forall f | f in release.files && env.clean(f.path) == env.clean(name) :: f.path == name
  }

  /**
    Every file of the archive lands in the directory with the archive's data, which has the listed
    hashes; what else is there was there before.
   */
  lemma ExtractedIsArchive(env: Env, d: Dir, entries: seq<Entry>, release: Release, before: map<string, string>)
    requires Extracted(env, d, entries, release, before)
    ensures forall i | 0 <= i < |entries| && entries[i].name != MANIFEST && OwnPlace(env, release, entries[i].name) ::
      exists f ::
        && f in release.files && f.path == entries[i].name
        && env.clean(f.path) in d.files && d.files[env.clean(f.path)] == entries[i].data
        && env.sha(entries[i].data) == f.sha && env.md5(entries[i].data) == f.md5
    ensures forall t | t in d.files :: t in before || exists f :: f in release.files && env.clean(f.path) == t
  {
    hide ValidRelease, Archive, Written, DirMatches;
    var files :| Archive(env, entries, release, files) && files.Keys == Listed(release)
                 && Written(env, before, d.files, files, files.Keys);
    forall i | 0 <= i < |entries| && entries[i].name != MANIFEST && OwnPlace(env, release, entries[i].name)
      ensures exists f ::
        && f in release.files && f.path == entries[i].name
        && env.clean(f.path) in d.files && d.files[env.clean(f.path)] == entries[i].data
        && env.sha(entries[i].data) == f.sha && env.md5(entries[i].data) == f.md5
    {
      var f := EntryInPlace(env, d, entries, release, before, files, i);
    }
    NothingElse(env, d.files, release, before, files);
  }

  lemma EntryInPlace(env: Env, d: Dir, entries: seq<Entry>, release: Release, before: map<string, string>,
                     files: map<string, string>, i: nat) returns (f: File)
    requires Archive(env, entries, release, files) && files.Keys == Listed(release)
    requires Written(env, before, d.files, files, files.Keys) && DirMatches(env, d, release)
    requires i < |entries| && entries[i].name != MANIFEST && OwnPlace(env, release, entries[i].name)
    ensures f in release.files && f.path == entries[i].name
    ensures env.clean(f.path) in d.files && d.files[env.clean(f.path)] == entries[i].data
    ensures env.sha(entries[i].data) == f.sha && env.md5(entries[i].data) == f.md5
  {
    var name := entries[i].name;
    assert name in files && files[name] == entries[i].data;
    hide Archive;
    f :| f in release.files && f.path == name;
    var n :| n in files && env.clean(n) == env.clean(name) && d.files[env.clean(name)] == files[n];
    assert n in Listed(release) && FileMatches(env, d, f);
  }

  lemma NothingElse(env: Env, now: map<string, string>, release: Release, before: map<string, string>, files: map<string, string>)
    requires files.Keys == Listed(release) && Written(env, before, now, files, files.Keys)
    ensures forall t | t in now :: t in before || exists f :: f in release.files && env.clean(f.path) == t
  {
    forall t | t in now && t !in before ensures exists f :: f in release.files && env.clean(f.path) == t {
      var n :| n in files && env.clean(n) == t;
      assert n in Listed(release);
    }
  }

  /** So an archive with a file that misses one of its listed hashes is refused. */
  lemma WrongHashRefused(env: Env, d: Dir, entries: seq<Entry>, release: Release, before: map<string, string>, i: nat, f: File)
    requires i < |entries| && entries[i].name == f.path != MANIFEST && f in release.files && OwnPlace(env, release, f.path)
    requires env.sha(entries[i].data) != f.sha || env.md5(entries[i].data) != f.md5
    ensures !Extracted(env, d, entries, release, before)
  {
    hide Extracted;
    if Extracted(env, d, entries, release, before) {
      ExtractedIsArchive(env, d, entries, release, before);
      OneFilePerPath(env, d, entries, release, before, f);
    }
  }

  lemma OneFilePerPath(env: Env, d: Dir, entries: seq<Entry>, release: Release, before: map<string, string>, f: File)
    requires Extracted(env, d, entries, release, before) && f in release.files
    ensures forall g | g in release.files && g.path == f.path :: g == f
  {
  }

  /** The depot's file list and the release name the same paths. */
  predicate SameFiles(info: multiset<string>, release: Release) {
    |info| == |release.files| && forall f | f in release.files :: f.path in info
  }

  /** The depot's file list, if it has one, names exactly the release's paths. */
  ghost predicate SameFilesIf(info: multiset<string>, release: Release) {
    info != multiset{} ==> forall p :: p in info <==> p in Listed(release)
  }

  /** The release goes with the depot's file list and with its other channels. */
  ghost predicate Acceptable(env: Env, meta: Option<Meta>, channel: Channel, release: Release) {
    && (meta.Some? && meta.value.info != multiset{} ==> SameFiles(meta.value.info, release))
    && ValidMeta(env, With(if meta.Some? then meta.value else NO_DEPOT, channel, release))
  }

  lemma SameFilesMeans(env: Env, info: multiset<string>, release: Release)
    requires ValidInfo(env, info) && DistinctPaths(release.files) && SameFiles(info, release)
    ensures SameFilesIf(info, release)
  {
    var names := set p | p in info;
    EachOnce(info);
    PathCount(release.files);
    assert Listed(release) <= names;
    assert Paths(release.files) == Listed(release);
    EqualSets(Listed(release), names);
    assert forall p :: p in info <==> p in names;
  }

  lemma NamesAgree(env: Env, known: Option<Meta>, d: Dir, entries: seq<Entry>, release: Release, stale: map<string, string>)
    requires known.Some? ==> ValidMeta(env, known.value)
    requires Extracted(env, d, entries, release, stale)
    requires known.Some? && known.value.info != multiset{} ==> SameFiles(known.value.info, release)
    ensures known.Some? ==> SameFilesIf(known.value.info, release)
  {
    hide SameFiles, SameFilesIf, DistinctPaths, ValidInfo, OwnChannel, VersionOrder, DirMatches;
    if known.Some? && known.value.info != multiset{} {
      SameFilesMeans(env, known.value.info, release);
    } else {
      NoList(release);
    }
  }

  lemma ExtractedSound(env: Env, d: Dir, entries: seq<Entry>, release: Release, stale: map<string, string>)
    requires Extracted(env, d, entries, release, stale)
    ensures SemVer.Valid(release.semver) && forall f | f in release.files :: env.validPath(f.path)
  {
    hide SemVer.Valid, DirMatches;
  }

  lemma NoList(release: Release)
    ensures SameFilesIf(multiset{}, release)
  {
  }

  /** n is m with another release in one channel. */
  ghost predicate Replaced(m: Meta, n: Meta, channel: Channel, release: Release) {
    n.info == m.info && forall c :: Get(n, c) == if c == channel then release else Get(m, c)
  }

  lemma WithReplaces(m: Meta, channel: Channel, release: Release)
    ensures Replaced(m, With(m, channel, release), channel, release)
  {
  }

  lemma {:induction false} EachOnce(m: multiset<string>)
    requires forall p | p in m :: m[p] == 1
    ensures |m| == |(set p | p in m)|
  {
    if p :| p in m {
      EachOnce(m - multiset{p});
      assert (set q | q in m) == (set q | q in m - multiset{p}) + {p};
    } else {
      assert m == multiset{} && (set q | q in m) == {};
    }
  }

  lemma {:induction false} PathCount(files: multiset<File>)
    requires DistinctPaths(files)
    ensures |files| == |Paths(files)|
  {
    if f :| f in files {
      PathsLess(files, f);
      hide Paths, DistinctPaths;
      PathCount(files - multiset{f});
    } else {
      assert files == multiset{} && Paths(files) == {};
    }
  }

  function Paths(files: multiset<File>): set<string> { set f | f in files :: f.path }

  lemma PathsLess(files: multiset<File>, f: File)
    requires DistinctPaths(files) && f in files
    ensures var rest := files - multiset{f};
      DistinctPaths(rest) && |files| == |rest| + 1 && f.path !in Paths(rest) && Paths(files) == Paths(rest) + {f.path}
  {
    var rest := files - multiset{f};
    assert forall g :: g in files <==> g in rest || g == f;
    assert f !in rest;
    forall p ensures p in Paths(files) <==> p in Paths(rest) + {f.path} {
    }
  }

  lemma EqualSets(a: set<string>, b: set<string>)
    requires a <= b && |a| == |b|
    ensures a == b
  {
    assert |b| == |a| + |b - a| by {
      assert b == a + (b - a);
    }
  }

  lemma KeptValid(env: Env, meta: Option<Meta>, was: Dirs, now: Dirs)
    requires forall c :: At(now, Live(c)) == At(was, Live(c))
    ensures meta.Some? && Backed(env, meta.value, was) ==> Backed(env, meta.value, now)
  {
    hide DirMatches;
    if meta.Some? && Backed(env, meta.value, was) {
      forall c ensures BackedAt(env, meta.value, now, c) {
        SameAt(now, Live(c), was, Live(c));
        assert BackedAt(env, meta.value, was, c);
      }
    }
  }

  lemma InstalledValid(env: Env, known: Option<Meta>, next: Meta, channel: Channel, was: Dirs, extracted: Dirs, now: Dirs,
                       entries: seq<Entry>, release: Release, stale: map<string, string>)
    requires known.Some? ==> Backed(env, known.value, was)
    requires next == With(if known.Some? then known.value else NO_DEPOT, channel, release)
    requires Tmp(channel) in extracted && Extracted(env, extracted[Tmp(channel)], entries, release, stale)
    requires At(now, Live(channel)) == At(extracted, Tmp(channel))
    requires forall c | c != channel :: At(now, Live(c)) == At(was, Live(c))
    ensures Backed(env, next, now)
    ensures Live(channel) in now && Extracted(env, now[Live(channel)], entries, release, stale)
  {
    hide Extracted, With, Get, DirMatches;
    SameAt(now, Live(channel), extracted, Tmp(channel));
    ExtractedMatches(env, extracted[Tmp(channel)], entries, release, stale);
    forall c ensures BackedAt(env, next, now, c) {
      WithElsewhere(if known.Some? then known.value else NO_DEPOT, channel, release, c);
      if c != channel {
        SameAt(now, Live(c), was, Live(c));
        NothingListed(c);
        if known.Some? {
          assert BackedAt(env, known.value, was, c);
        }
      }
    }
  }

  lemma SameAt(now: Dirs, p: Path, was: Dirs, q: Path)
    requires At(now, p) == At(was, q)
    ensures (p in now <==> q in was) && (p in now ==> now[p] == was[q])
  {
  }

  lemma ExtractedMatches(env: Env, d: Dir, entries: seq<Entry>, release: Release, before: map<string, string>)
    requires Extracted(env, d, entries, release, before)
    ensures DirMatches(env, d, release)
  {
  }

  lemma WithElsewhere(m: Meta, channel: Channel, release: Release, c: Channel)
    ensures Get(With(m, channel, release), c) == if c == channel then release else Get(m, c)
  {
  }

  lemma NothingListed(c: Channel)
    ensures !Present(Get(NO_DEPOT, c))
  {
  }

  lemma ReleaseOutcome(env: Env, m: Meta, was: Dirs, now: Dirs, r: Result<Meta>, moved: set<Channel>)
    requires ValidMeta(env, m) && Backed(env, m, was)
    ensures r.Ok? && PayloadsMoved(was, now, ALL, RELEASE) ==> Backed(env, Released(m), now)
    ensures SamePayload(was, now) ==> Backed(env, m, now)
    ensures r.Err? && Stranded(was, now, ALL, moved) ==>
      (Backed(env, m, now) <==> forall c | c in moved :: !Present(Get(m, c)))
  {
    hide ValidMeta, Backed, Stranded, SamePayload, PayloadsMoved;
    if SamePayload(was, now) {
      PayloadKeepsValid(env, m, was, now);
    }
    if r.Ok? && PayloadsMoved(was, now, ALL, RELEASE) {
      ReleaseBacked(env, m, was, now);
    }
    if r.Err? && Stranded(was, now, ALL, moved) {
      StrandedValid(env, m, was, now, ALL, moved);
    }
  }

  lemma RollbackOutcome(env: Env, m: Meta, was: Dirs, now: Dirs, r: Result<Meta>, moved: set<Channel>)
    requires ValidMeta(env, m) && Backed(env, m, was)
    ensures r.Ok? && PayloadsMoved(was, now, {Stable, Rollback}, ROLLBACK) ==> Backed(env, RolledBack(m), now)
    ensures SamePayload(was, now) ==> Backed(env, m, now)
    ensures r.Err? && Stranded(was, now, {Stable, Rollback}, moved) ==>
      (Backed(env, m, now) <==> forall c | c in moved :: !Present(Get(m, c)))
  {
    hide ValidMeta, Backed, Stranded, SamePayload, PayloadsMoved;
    if SamePayload(was, now) {
      PayloadKeepsValid(env, m, was, now);
    }
    if r.Ok? && PayloadsMoved(was, now, {Stable, Rollback}, ROLLBACK) {
      RollbackBacked(env, m, was, now);
    }
    if r.Err? && Stranded(was, now, {Stable, Rollback}, moved) {
      StrandedValid(env, m, was, now, {Stable, Rollback}, moved);
    }
  }

  lemma RollbackBacked(env: Env, m: Meta, was: Dirs, now: Dirs)
    requires Backed(env, m, was) && PayloadsMoved(was, now, {Stable, Rollback}, ROLLBACK)
    ensures Backed(env, RolledBack(m), now)
  {
    hide Backed, PayloadsMoved;
    MovedBacked(env, m, RolledBack(m), was, now, {Stable, Rollback}, ROLLBACK);
  }

  const ALL: set<Channel> := {Rollback, Stable, Beta, Testing}
  const RELEASE: Layout := map[Stable := Beta, Beta := Testing, Rollback := Stable]
  const ROLLBACK: Layout := map[Stable := Rollback, Rollback := Stable]

  lemma ReleaseAccepted(env: Env, m: Meta, dirs: Dirs)
    requires ValidMeta(env, m)
    ensures ValidMeta(env, Released(m)) && Promoted(m, Released(m))
    ensures (forall c | c in [Rollback, Stable, Beta] :: Retaggable(env, dirs, Live(RELEASE[c]), c in {}))
       <==> (forall c | c != Rollback :: Retaggable(env, dirs, Live(c), false))
  {
    hide ValidMeta, Retaggable, Promoted;
    ReleaseIsValid(env, m);
    ReleasedMeans(m);
    assert RELEASE[Rollback] == Stable && RELEASE[Stable] == Beta && RELEASE[Beta] == Testing;
    assert Rollback in [Rollback, Stable, Beta] && Stable in [Rollback, Stable, Beta] && Beta in [Rollback, Stable, Beta];
  }

  /** There is a previous release, no newer than beta, and the two manifests can be retagged. */
  ghost predicate CanRollBack(env: Env, m: Meta, dirs: Dirs) {
    && Present(m.rollback) && (Present(m.beta) ==> AtLeast(m.beta.semver, m.rollback.semver))
    && Retaggable(env, dirs, Live(Rollback), true) && Retaggable(env, dirs, Live(Stable), false)
  }

  lemma RollbackNeeds(env: Env, m: Meta, dirs: Dirs)
    requires CanRollBack(env, m, dirs)
    ensures Present(m.rollback)
  {
    hide Retaggable, AtLeast;
  }

  lemma RollbackAccepted(env: Env, m: Meta, dirs: Dirs)
    requires ValidMeta(env, m) && Present(m.rollback)
    ensures Exchanged(m, RolledBack(m))
    ensures CanRollBack(env, m, dirs) <==>
      && ValidMeta(env, RolledBack(m))
      && forall c | c in [Stable, Rollback] :: Retaggable(env, dirs, Live(ROLLBACK[c]), c in {Stable})
  {
    hide ValidMeta, Retaggable, Exchanged, AtLeast;
    RollbackIsValid(env, m);
    RolledBackMeans(m);
    assert ROLLBACK[Stable] == Rollback && ROLLBACK[Rollback] == Stable;
    assert Stable in [Stable, Rollback] && Rollback in [Stable, Rollback];
  }

  lemma LayoutsInjective()
    ensures InjectiveOn(RELEASE, ALL) && InjectiveOn(ROLLBACK, {Stable, Rollback})
  {
  }

  ghost predicate SamePayload(was: Dirs, now: Dirs) {
    forall p: Path | !p.Bak? :: Payload(now, p) == Payload(was, p)
  }

  /** Each target's payload is its source's old one; channels left out of the layout are empty. */
  ghost predicate PayloadsMoved(was: Dirs, now: Dirs, paths: set<Channel>, layout: Layout) {
    && (forall c | c in paths :: Payload(now, Live(c)) == if c in layout then Payload(was, Live(layout[c])) else None)
    && (forall p: Path | !p.Bak? && !(p.Live? && p.c in paths) :: Payload(now, p) == Payload(was, p))
  }

  /** Each channel has the manifest of its source, retagged. */
  ghost predicate ManifestsMoved(env: Env, was: Dirs, now: Dirs, channels: seq<Channel>, layout: Layout) {
    forall c | c in channels && c in layout :: ManifestCarried(env, was, Live(layout[c]), now, c)
  }

  lemma RestorableKeys(a: Dirs, b: Dirs, paths: set<Channel>, backups: set<Channel>, applied: Layout)
    requires Restorable(a, paths, backups, applied) && OnlyManifests(a, b)
    ensures Restorable(b, paths, backups, applied)
  {
    assert forall p :: At(a, p) == None <==> At(b, p) == None;
    hide At, Used;
  }

  lemma PayloadOfAt(a: Dirs, p: Path, b: Dirs, q: Path)
    requires At(a, p) == At(b, q)
    ensures Payload(a, p) == Payload(b, q)
  {
  }

  lemma ManifestsLeavePayload(a: Dirs, b: Dirs)
    requires OnlyManifests(a, b)
    ensures forall p :: Payload(a, p) == Payload(b, p)
  {
  }

  lemma PayloadRestored(was: Dirs, switched: Dirs, retagged: Dirs, now: Dirs, paths: set<Channel>, layout: Layout,
                        backups: set<Channel>, applied: Layout)
    requires LaidOut(was, switched, paths, layout, backups, applied)
    requires OnlyManifests(switched, retagged) && OutsideSame(retagged, now, paths)
    requires forall t | t in applied :: At(now, Live(applied[t])) == At(retagged, Live(t))
    requires forall c | c in backups && !Used(applied, c) :: At(now, Live(c)) == At(retagged, Bak(c))
    requires forall c | c in paths && c !in backups :: At(now, Live(c)) == None
    ensures SamePayload(was, now)
  {
    ManifestsLeavePayload(switched, retagged);
    hide At, Payload, OnlyManifests;
    forall p: Path | !p.Bak? ensures Payload(now, p) == Payload(was, p) {
      if !Switchable(p, paths) {
        PayloadOfAt(now, p, retagged, p);
        PayloadOfAt(switched, p, was, p);
      } else if p.c !in backups {
        PayloadOfAt(now, p, was, p);
      } else if Used(applied, p.c) {
        var t :| t in applied && applied[t] == p.c;
        PayloadOfAt(now, p, retagged, Live(t));
        PayloadOfAt(switched, Live(t), was, p);
      } else {
        PayloadOfAt(now, p, retagged, Bak(p.c));
        PayloadOfAt(switched, Bak(p.c), was, p);
      }
    }
  }

  lemma RestoredPayload(was: Dirs, now: Dirs)
    requires Restored(was, now)
    ensures SamePayload(was, now)
  {
    forall p: Path | !p.Bak? ensures Payload(now, p) == Payload(was, p) {
      PayloadOfAt(now, p, was, p);
    }
  }

  lemma PayloadMatches(env: Env, a: Dirs, p: Path, b: Dirs, q: Path, r: Release, s: Release)
    requires p in a && DirMatches(env, a[p], r) && Payload(a, p) == Payload(b, q) && s.files == r.files
    ensures q in b && DirMatches(env, b[q], s)
  {
  }

  lemma PayloadKeepsValid(env: Env, m: Meta, was: Dirs, now: Dirs)
    requires Backed(env, m, was) && SamePayload(was, now)
    ensures Backed(env, m, now)
  {
    hide DirMatches;
    forall c ensures BackedAt(env, m, now, c) {
      assert BackedAt(env, m, was, c);
      if Present(Get(m, c)) {
        PayloadMatches(env, was, Live(c), now, Live(c), Get(m, c), Get(m, c));
      }
    }
  }

  lemma SwitchedPayload(was: Dirs, switched: Dirs, retagged: Dirs, now: Dirs, paths: set<Channel>, layout: Layout)
    requires Switched(was, switched, paths, layout) && OnlyManifests(switched, retagged)
    requires forall p: Path | !p.Bak? :: At(now, p) == At(retagged, p)
    ensures PayloadsMoved(was, now, paths, layout)
  {
    ManifestsLeavePayload(switched, retagged);
    hide OnlyManifests;
    assert forall p: Path | !p.Bak? :: Payload(now, p) == Payload(switched, p);
    forall p: Path | !p.Bak? && !(p.Live? && p.c in paths) ensures Payload(now, p) == Payload(was, p) {
      PayloadOfAt(switched, p, was, p);
    }
  }

  /** If n's releases are m's, moved as the payloads were, they are still backed. */
  lemma MovedBacked(env: Env, m: Meta, n: Meta, was: Dirs, now: Dirs, paths: set<Channel>, layout: Layout)
    requires Backed(env, m, was) && PayloadsMoved(was, now, paths, layout)
    requires forall c | Present(Get(n, c)) ::
      && (c in paths ==> c in layout)
      && var s := if c in layout then layout[c] else c;
      && Present(Get(m, s)) && Get(n, c).files == Get(m, s).files
    requires layout.Keys <= paths
    ensures Backed(env, n, now)
  {
    hide DirMatches;
    forall c ensures BackedAt(env, n, now, c) {
      if Present(Get(n, c)) {
        var s := if c in layout then layout[c] else c;
        assert BackedAt(env, m, was, s);
        PayloadMatches(env, was, Live(s), now, Live(c), Get(m, s), Get(n, c));
      }
    }
  }

  lemma ReleaseBacked(env: Env, m: Meta, was: Dirs, now: Dirs)
    requires Backed(env, m, was) && PayloadsMoved(was, now, ALL, RELEASE)
    ensures Backed(env, Released(m), now)
  {
    hide Backed, PayloadsMoved;
    forall c | Present(Get(Released(m), c))
      ensures c in RELEASE && Present(Get(m, RELEASE[c])) && Get(Released(m), c).files == Get(m, RELEASE[c]).files
    {
      ReleasedFrom(m, c);
    }
    hide Released, Present, Get;
    MovedBacked(env, m, Released(m), was, now, ALL, RELEASE);
  }

  lemma ReleasedFrom(m: Meta, c: Channel)
    requires Present(Get(Released(m), c))
    ensures c in RELEASE && Present(Get(m, RELEASE[c])) && Get(Released(m), c).files == Get(m, RELEASE[c]).files
  {
  }

  /** If nothing has been moved, a failed backup leaves everything as it was. */
  lemma StrandedNothing(was: Dirs, now: Dirs, paths: set<Channel>, moved: set<Channel>)
    requires Stranded(was, now, paths, moved)
    ensures moved == {} ==> SamePayload(was, now)
  {
    if moved == {} {
      forall p: Path | !p.Bak? ensures Payload(now, p) == Payload(was, p) {
        assert At(now, p) == At(was, p);
      }
    }
  }

  /** One moved channel that is listed, say stable, and the depot is not valid any more. */
  lemma StrandingBreaks(env: Env, m: Meta, was: Dirs, c: Channel)
    requires Backed(env, m, was) && Present(Get(m, c)) && Bak(c) !in was
    ensures Live(c) in was
    ensures var now := Moved(was, Live(c), Bak(c)); Stranded(was, now, ALL, {c}) && !Backed(env, m, now)
  {
    hide DirMatches;
    assert BackedAt(env, m, was, c);
    var now := Moved(was, Live(c), Bak(c));
    StrandedValid(env, m, was, now, ALL, {c});
  }

  lemma StrandedValid(env: Env, m: Meta, was: Dirs, now: Dirs, paths: set<Channel>, moved: set<Channel>)
    requires Backed(env, m, was) && Stranded(was, now, paths, moved)
    ensures Backed(env, m, now) <==> forall c | c in moved :: !Present(Get(m, c))
  {
    hide DirMatches;
    forall c ensures c !in moved ==> At(now, Live(c)) == At(was, Live(c)) {
      assert c in paths || !Switchable(Live(c), paths);
    }
    forall c ensures BackedAt(env, m, now, c) <==> c !in moved || !Present(Get(m, c)) {
      assert BackedAt(env, m, was, c);
      if c in moved {
        assert At(now, Live(c)) == None;
      } else {
        SameAt(now, Live(c), was, Live(c));
      }
    }
  }

  lemma RetaggableMoved(env: Env, was: Dirs, switched: Dirs, paths: set<Channel>, layout: Layout, order: seq<Channel>, required: set<Channel>)
    requires Switched(was, switched, paths, layout) && InjectiveOn(layout, paths) && forall c | c in order :: c in layout
    ensures forall c | c in order ::
      Retaggable(env, switched, Live(c), c in required) <==> Retaggable(env, was, Live(layout[c]), c in required)
  {
    hide ValidRelease;
    forall c | c in order
      ensures Retaggable(env, switched, Live(c), c in required) <==> Retaggable(env, was, Live(layout[c]), c in required)
    {
      SwitchedAt(was, switched, paths, layout, c);
    }
  }

  lemma SwitchedAt(was: Dirs, switched: Dirs, paths: set<Channel>, layout: Layout, c: Channel)
    requires Switched(was, switched, paths, layout) && InjectiveOn(layout, paths) && c in layout
    ensures At(switched, Live(c)) == At(was, Live(layout[c]))
    ensures Live(c) in switched <==> Live(layout[c]) in was
    ensures Live(c) in switched ==> switched[Live(c)] == was[Live(layout[c])]
  {
  }

  lemma ManifestsArrived(env: Env, was: Dirs, switched: Dirs, retagged: Dirs, now: Dirs, paths: set<Channel>, layout: Layout,
                         order: seq<Channel>)
    requires Switched(was, switched, paths, layout) && InjectiveOn(layout, paths) && forall c | c in order :: c in layout
    requires forall c | c in order :: ManifestCarried(env, switched, Live(c), retagged, c)
    requires forall p: Path | !p.Bak? :: At(now, p) == At(retagged, p)
    ensures ManifestsMoved(env, was, now, order, layout)
  {
    hide ValidRelease;
    forall c | c in order ensures ManifestCarried(env, was, Live(layout[c]), now, c) {
      SwitchedAt(was, switched, paths, layout, c);
      assert ManifestCarried(env, switched, Live(c), retagged, c);
      SameAt(now, Live(c), retagged, Live(c));
    }
  }

  /** There is a manifest, and it can be read. */
  ghost predicate Legible(env: Env, dirs: Dirs, p: Path) {
    p in dirs && dirs[p].manifest.Parsed? && ValidRelease(env, dirs[p].manifest.release)
  }

  /** The manifest can be retagged; without one, there is nothing to do unless it is needed. */
  ghost predicate Retaggable(env: Env, dirs: Dirs, p: Path, needed: bool) {
    Legible(env, dirs, p) || (!needed && (p !in dirs || dirs[p].manifest.Missing?))
  }

  /** The manifest that was at p is now in channel c and names it; it says the same otherwise. */
  ghost predicate ManifestCarried(env: Env, was: Dirs, p: Path, now: Dirs, c: Channel) {
    if Legible(env, was, p) then
      Live(c) in now && now[Live(c)].manifest == Parsed(was[p].manifest.release.(channel := Some(c)))
    else
      (p in was ==> was[p].manifest.Missing?) && (Live(c) in now ==> now[Live(c)].manifest.Missing?)
  }

  lemma OnlyManifestsSelf(dirs: Dirs)
    ensures OnlyManifests(dirs, dirs)
  {
  }

  lemma RetagStep(env: Env, was: Dirs, before: Dirs, now: Dirs, channels: seq<Channel>, k: nat, required: set<Channel>, r: IO)
    requires k < |channels| && forall i, j | 0 <= i < j < |channels| :: channels[i] != channels[j]
    requires OnlyManifests(was, before) && OnlyManifest(before, now, Live(channels[k]))
    requires forall j | 0 <= j < k :: ManifestCarried(env, was, Live(channels[j]), before, channels[j])
    requires forall j | k <= j < |channels| :: At(before, Live(channels[j])) == At(was, Live(channels[j]))
    requires var p := Live(channels[k]);
      && (r == NotExist <==> p !in before || before[p].manifest.Missing?)
      && (r == NotExist ==> now == before)
      && (r == Done ==> Legible(env, before, p) && p in now &&
                        now[p].manifest == Parsed(before[p].manifest.release.(channel := Some(channels[k]))))
    ensures OnlyManifests(was, now)
    ensures forall j | 0 <= j < k :: ManifestCarried(env, was, Live(channels[j]), now, channels[j])
    ensures forall j | k < j < |channels| :: At(now, Live(channels[j])) == At(was, Live(channels[j]))
    ensures r != Failed ==> ManifestCarried(env, was, Live(channels[k]), now, channels[k])
    ensures Legible(env, was, Live(channels[k])) <==> Legible(env, before, Live(channels[k]))
    ensures r == NotExist ==> !Legible(env, was, Live(channels[k]))
    ensures Retaggable(env, was, Live(channels[k]), channels[k] in required) <==>
      Legible(env, before, Live(channels[k])) || (r == NotExist && channels[k] !in required)
  {
    hide ValidRelease;
    assert At(before, Live(channels[k])) == At(was, Live(channels[k]));
    forall j | 0 <= j < k ensures ManifestCarried(env, was, Live(channels[j]), now, channels[j]) {
      OtherCarried(env, was, Live(channels[j]), before, now, channels[j], channels[k]);
    }
    forall j | k < j < |channels| ensures At(now, Live(channels[j])) == At(was, Live(channels[j])) {
      assert At(now, Live(channels[j])) == At(before, Live(channels[j]));
    }
  }

  lemma OtherCarried(env: Env, was: Dirs, p: Path, before: Dirs, now: Dirs, c: Channel, d: Channel)
    requires ManifestCarried(env, was, p, before, c) && OnlyManifest(before, now, Live(d)) && c != d
    ensures ManifestCarried(env, was, p, now, c)
  {
  }

  /** A manifest, if there is one, names its channel. */
  predicate Tagged(m: Manifest, c: Channel) {
    m.Missing? || (m.Parsed? && m.release.channel == Some(c))
  }

  /** The directory at p may have another manifest; nothing else has changed. */
  ghost predicate OnlyManifest(was: Dirs, now: Dirs, p: Path) {
    && now.Keys == was.Keys
    && (forall q | q in was && q != p :: now[q] == was[q])
    && (p in was ==> now[p].files == was[p].files)
  }

  /** Channel manifests may have changed; nothing else has. */
  ghost predicate OnlyManifests(was: Dirs, now: Dirs) {
    && now.Keys == was.Keys
    && (forall p | p in was && !p.Live? :: now[p] == was[p])
    && (forall p | p in was :: now[p].files == was[p].files)
  }

  lemma BackUpCleared(was: Dirs, before: Dirs, now: Dirs, paths: set<Channel>, done: set<Channel>, backups: set<Channel>, c: Channel)
    requires BackedUp(was, before, paths, done, backups) && c in paths && c !in done
    requires now == before || now == before - {Bak(c)}
    ensures BackedUp(was, now, paths, done, backups)
  {
    assert forall p | p != Bak(c) :: At(now, p) == At(before, p);
  }

  lemma BackUpSkipped(was: Dirs, now: Dirs, paths: set<Channel>, done: set<Channel>, backups: set<Channel>, c: Channel)
    requires BackedUp(was, now, paths, done, backups) && c in paths && c !in done
    requires Live(c) !in now
    ensures BackedUp(was, now, paths, done + {c}, backups)
  {
  }

  lemma BackUpMoved(was: Dirs, before: Dirs, now: Dirs, paths: set<Channel>, done: set<Channel>, backups: set<Channel>, c: Channel)
    requires BackedUp(was, before, paths, done, backups) && c in paths && c !in done
    requires Live(c) in before && now in {Moved(before, Live(c), Bak(c)), Moved(before - {Bak(c)}, Live(c), Bak(c))}
    ensures BackedUp(was, now, paths, done + {c}, backups + {c})
  {
    assert forall p | p != Bak(c) && p != Live(c) :: At(now, p) == At(before, p);
    assert At(now, Live(c)) == None && At(now, Bak(c)) == At(before, Live(c));
    hide At;
  }

  lemma BackedUpStranded(was: Dirs, now: Dirs, paths: set<Channel>, done: set<Channel>, backups: set<Channel>)
    requires BackedUp(was, now, paths, done, backups)
    ensures Stranded(was, now, paths, backups)
  {
  }

  lemma AppliedInjective(was: Dirs, now: Dirs, paths: set<Channel>, layout: Layout, backups: set<Channel>, applied: Layout)
    requires InjectiveOn(layout, paths) && Filled(was, now, layout, backups, applied)
    ensures InjectiveOn(applied, paths)
  {
    hide At;
  }

  lemma LaidOutRestorable(was: Dirs, now: Dirs, paths: set<Channel>, layout: Layout, backups: set<Channel>, applied: Layout)
    requires InjectiveOn(layout, paths) && LaidOut(was, now, paths, layout, backups, applied)
    ensures Restorable(now, paths, backups, applied)
  {
    AppliedInjective(was, now, paths, layout, backups, applied);
    hide At, Used, InjectiveOn, OutsideSame;
  }

  lemma LaidOutSwitched(was: Dirs, now: Dirs, paths: set<Channel>, layout: Layout, backups: set<Channel>, applied: Layout)
    requires InjectiveOn(layout, paths) && LaidOut(was, now, paths, layout, backups, applied)
    requires forall t | t in layout && layout[t] in backups :: t in applied
    ensures Switched(was, now, paths, layout)
  {
    hide At;
  }

  lemma RestoredAgain(was: Dirs, midway: Dirs, now: Dirs, paths: set<Channel>, layout: Layout, backups: set<Channel>, applied: Layout)
    requires LaidOut(was, midway, paths, layout, backups, applied) && OutsideSame(midway, now, paths)
    requires forall t | t in applied :: At(now, Live(applied[t])) == At(midway, Live(t))
    requires forall c | c in backups && !Used(applied, c) :: At(now, Live(c)) == At(midway, Bak(c))
    requires forall c | c in paths && c !in backups :: At(now, Live(c)) == None
    ensures Restored(was, now)
  {
    hide At;
    forall c | c in paths ensures At(now, Live(c)) == At(was, Live(c)) {
      if Used(applied, c) {
        var t :| t in applied && applied[t] == c;
      }
    }
  }

  ghost predicate Unapplied(was: Dirs, now: Dirs, applied: Layout, done: set<Channel>) {
    && (forall t | t in applied && t !in done :: At(now, Live(t)) == At(was, Live(t)) && At(now, Bak(applied[t])) == At(was, Bak(applied[t])))
    && (forall t | t in applied && t in done :: At(now, Bak(applied[t])) == At(was, Live(t)) && At(now, Live(t)) == None)
    && (forall p | !Touched(p, applied) :: At(now, p) == At(was, p))
  }

  lemma UnapplyReady(was: Dirs, now: Dirs, applied: Layout, done: set<Channel>, t: Channel)
    requires Unapplied(was, now, applied, done) && t in applied && t !in done
    requires At(was, Live(t)).Some? && At(was, Bak(applied[t])) == None
    ensures At(now, Live(t)).Some? && At(now, Bak(applied[t])) == None
  {
    hide At;
  }

  lemma UnapplyStep(was: Dirs, before: Dirs, now: Dirs, applied: Layout, done: set<Channel>, t: Channel)
    requires forall t, u | t in applied && u in applied && applied[t] == applied[u] :: t == u
    requires Unapplied(was, before, applied, done) && t in applied && t !in done
    requires At(now, Live(t)) == None && At(now, Bak(applied[t])) == At(before, Live(t))
    requires forall p | p != Live(t) && p != Bak(applied[t]) :: At(now, p) == At(before, p)
    ensures Unapplied(was, now, applied, done + {t})
  {
    hide At;
  }

  lemma MovedElsewhere(before: Dirs, from: Path, to: Path)
    requires from in before && to !in before && from != to
    ensures At(Moved(before, from, to), from) == None
    ensures At(Moved(before, from, to), to) == At(before, from)
    ensures forall p | p != from && p != to :: At(Moved(before, from, to), p) == At(before, p)
  {
  }

  lemma UsedGrows(applied: Layout, t: Channel, s: Channel)
    requires t !in applied
    ensures forall c :: Used(applied[t := s], c) <==> Used(applied, c) || c == s
  {
    forall c ensures Used(applied[t := s], c) <==> Used(applied, c) || c == s {
      if Used(applied, c) {
        var u :| u in applied && applied[u] == c;
        assert applied[t := s][u] == c;
      }
      assert applied[t := s][t] == s;
    }
  }

  lemma LayOutStep(was: Dirs, before: Dirs, paths: set<Channel>, layout: Layout, backups: set<Channel>,
                   applied: Layout, t: Channel)
    requires InjectiveOn(layout, paths) && LaidOut(was, before, paths, layout, backups, applied)
    requires t in layout && t !in applied && layout[t] in backups
    requires Bak(layout[t]) in before && Live(t) !in before
    ensures LaidOut(was, Moved(before, Bak(layout[t]), Live(t)), paths, layout, backups, applied[t := layout[t]])
  {
    hide Moved, Filled, Waiting, Used, At;
    var now := Moved(before, Bak(layout[t]), Live(t));
    MovedElsewhere(before, Bak(layout[t]), Live(t));
    NotUsedYet(was, before, paths, layout, backups, applied, t);
    FilledStep(was, before, now, layout, backups, applied, t);
    WaitingStep(was, before, now, paths, backups, applied, t, layout[t]);
  }

  lemma TargetFree(was: Dirs, now: Dirs, paths: set<Channel>, layout: Layout, backups: set<Channel>, applied: Layout, t: Channel)
    requires InjectiveOn(layout, paths) && LaidOut(was, now, paths, layout, backups, applied)
    requires t in layout && t !in applied && layout[t] in backups
    ensures Live(t) !in now && Bak(layout[t]) in now
  {
    NotUsedYet(was, now, paths, layout, backups, applied, t);
    hide OutsideSame, Filled, Used;
    assert At(now, Live(t)) == None;
    assert At(was, Live(layout[t])).Some?;
  }

  lemma NotUsedYet(was: Dirs, before: Dirs, paths: set<Channel>, layout: Layout, backups: set<Channel>, applied: Layout, t: Channel)
    requires InjectiveOn(layout, paths) && LaidOut(was, before, paths, layout, backups, applied)
    requires t in layout && t !in applied && layout[t] in backups
    ensures !Used(applied, layout[t]) && At(before, Bak(layout[t])) == At(was, Live(layout[t]))
  {
    hide At, OutsideSame;
  }

  lemma WaitingStep(was: Dirs, before: Dirs, now: Dirs, paths: set<Channel>, backups: set<Channel>, applied: Layout,
                    t: Channel, s: Channel)
    requires Waiting(was, before, paths, backups, applied) && t !in applied && s in backups
    requires forall p | p != Bak(s) && p != Live(t) :: At(now, p) == At(before, p)
    ensures Waiting(was, now, paths, backups, applied[t := s])
  {
    UsedGrows(applied, t, s);
    hide At, Used;
  }

  lemma FilledStep(was: Dirs, before: Dirs, now: Dirs, layout: Layout, backups: set<Channel>, applied: Layout, t: Channel)
    requires forall u, v | u in layout && v in layout && layout[u] == layout[v] :: u == v
    requires Filled(was, before, layout, backups, applied)
    requires t in layout && t !in applied && layout[t] in backups
    requires At(before, Bak(layout[t])) == At(was, Live(layout[t]))
    requires At(now, Live(t)) == At(before, Bak(layout[t])) && At(now, Bak(layout[t])) == None
    requires forall p | p != Bak(layout[t]) && p != Live(t) :: At(now, p) == At(before, p)
    ensures Filled(was, now, layout, backups, applied[t := layout[t]])
  {
    hide At;
  }

  lemma NothingLaidOut(was: Dirs, now: Dirs, paths: set<Channel>, layout: Layout, backups: set<Channel>)
    requires BackedUp(was, now, paths, paths, backups)
    ensures LaidOut(was, now, paths, layout, backups, map[])
  {
  }
}

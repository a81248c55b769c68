/**
  The backup script's effects on the host: the commands sent to the game
  server, the archive written into the backup directory, and the cleanup that
  deletes old archives. The file system is a map from directory path to the
  names in that directory; the commands and file operations are recorded, in
  order, in a trace of effects.
 */
module Backup {
  import opened Strings
  import opened Naming
  import opened Retention

  /** `DEFAULT_BACKUP_DIR`: where archives are written and where the cleanup looks. */
  const DefaultBackupDir: string := "/home/luca/Documents/mc-docker-autobackup/backups/"

  const SaveOff: string := "save-off"
  const SaveAll: string := "save-all"
  const SaveOn: string := "save-on"

  /** One externally visible effect of the script. */
  datatype Effect =
    | Rcon(command: string)         // `docker exec <container> rcon-cli <command>`
    | ArchiveWritten(name: string)  // the archive was written and closed
    | ArchiveAborted(name: string)  // `tar.add` raised; the file `tarfile.open` created is left behind
    | Removed(name: string)         // `os.remove` of a backup

  /** The effects of removing `names`, in that order. */
  function Removals(names: seq<string>): seq<Effect>
  {
    seq(|names|, i requires 0 <= i < |names| => Removed(names[i]))
  }

  /**
    The effects of one `backup_world` call that writes the archive `name`:
    `archived` tells whether the archive step completed, `deleted` is what the
    cleanup removed.
   */
  function CycleEffects(name: string, archived: bool, deleted: seq<string>): seq<Effect>
  {
    if archived then [Rcon(SaveOff), Rcon(SaveAll), ArchiveWritten(name), Rcon(SaveOn)] + Removals(deleted)
    else [Rcon(SaveOff), Rcon(SaveAll), ArchiveAborted(name)]
  }

  /** How often `e` occurs in `t`. */
  function Count(t: seq<Effect>, e: Effect): nat
  {
    multiset(t)[e]
  }

  /** Every occurrence of `e1` in `t` comes before every occurrence of `e2`. */
  predicate Precedes(t: seq<Effect>, e1: Effect, e2: Effect)
  {
    forall i, j :: 0 <= i < |t| && 0 <= j < |t| && t[i] == e1 && t[j] == e2 ==> i < j
  }

  /** The directory `d` of `dirs`, or no names if it does not exist. */
  function Names(dirs: map<string, set<string>>, d: string): set<string>
  {
    if d in dirs then dirs[d] else {}
  }

  // ---------------------------------------------------------------------------
  // The host

  class Host {
    /** Each existing directory, with the names of the entries in it. */
    var dirs: map<string, set<string>>
    /** The effects caused so far, oldest first. */
    var trace: seq<Effect>

    constructor (dirs0: map<string, set<string>>)
      ensures dirs == dirs0 && trace == []
    {
      dirs := dirs0;
      trace := [];
    }

    /** `run_minecraft_command(command)`: the command is sent; its exit status is not looked at. */
    method RunMinecraftCommand(command: string)
      modifies this
      ensures dirs == old(dirs)
      ensures trace == old(trace) + [Rcon(command)]
    {
      trace := trace + [Rcon(command)];
    }

    /** `os.listdir(path)`: every entry once, in an order the model leaves open; `found` is false where it raises. */
    method ListDir(path: string) returns (found: bool, listing: seq<string>)
      ensures found == (path in dirs)
      ensures found ==> Enumerates(listing, dirs[path])
      ensures !found ==> listing == []
    {
      if path !in dirs {
        return false, [];
      }
      found := true;
      listing := [];
      var rest := dirs[path];
      while rest != {}
        invariant Distinct(listing)
        invariant Elements(listing) !! rest
        invariant Elements(listing) + rest == dirs[path]
        decreases |rest|
      {
        var x :| x in rest;
        assert x !in listing;
        assert multiset(listing + [x]) == multiset(listing) + multiset{x};
        assert Elements(listing + [x]) == Elements(listing) + {x};
        listing := listing + [x];
        rest := rest - {x};
      }
    }

    /** `os.makedirs(path, exist_ok=True)`. */
    method MakeDirs(path: string)
      modifies this
      ensures dirs == if path in old(dirs) then old(dirs) else old(dirs)[path := {}]
      ensures trace == old(trace)
    {
      if path !in dirs {
        dirs := dirs[path := {}];
      }
    }

    /** `os.remove` of the entry `name` of directory `path`, which exists here (otherwise the call raises). */
    method RemoveFile(path: string, name: string)
      requires path in dirs && name in dirs[path]
      modifies this
      ensures dirs == old(dirs)[path := old(dirs)[path] - {name}]
      ensures trace == old(trace) + [Removed(name)]
    {
      dirs := dirs[path := dirs[path] - {name}];
      trace := trace + [Removed(name)];
    }

    /** The deletion loop of `cleanup_backups`: `os.remove` of each of `doomed` in `path`, in order. */
    method RemoveAll(path: string, doomed: seq<string>)
      requires path in dirs && Distinct(doomed)
      requires forall k :: 0 <= k < |doomed| ==> doomed[k] in dirs[path]
      modifies this
      ensures dirs == old(dirs)[path := old(dirs)[path] - Elements(doomed)]
      ensures trace == old(trace) + Removals(doomed)
    {
      ghost var names := dirs[path];
      DeletionStart(names, doomed);
      assert dirs == old(dirs)[path := names - Elements(doomed[..0])];
      var i := 0;
      while i < |doomed|
        invariant 0 <= i <= |doomed|
        invariant dirs == old(dirs)[path := names - Elements(doomed[..i])]
        invariant trace == old(trace) + Removals(doomed[..i])
        invariant forall k :: i <= k < |doomed| ==> doomed[k] in dirs[path]
      {
        DeletionStep(names, doomed, i);
        RemoveFile(path, doomed[i]);
        i := i + 1;
      }
      assert doomed[..i] == doomed;
    }

    /**
      `cleanup_backups(backup_dir)`. The argument is not used: the code lists and
      deletes in `DEFAULT_BACKUP_DIR` whatever it is given, so only that
      directory changes. `ok` is false where `os.listdir` raises.
     */
    method CleanupBackups(backupDir: string) returns (ok: bool)
      modifies this
      ensures ok == (DefaultBackupDir in old(dirs))
      ensures !ok ==> dirs == old(dirs) && trace == old(trace)
      ensures ok ==> dirs == old(dirs)[DefaultBackupDir := AfterCleanup(old(dirs)[DefaultBackupDir])]
      ensures ok ==> exists listing :: Enumerates(listing, old(dirs)[DefaultBackupDir])
                                       && trace == old(trace) + Removals(Doomed(listing))
    {
      var found, listing := ListDir(DefaultBackupDir);
      if !found {
        return false;
      }
      ghost var names := dirs[DefaultBackupDir];
      DeletionPlan(listing, names);
      var backups := Ranked(listing);
      if |backups| > MaxBackups {
        RemoveAll(DefaultBackupDir, backups[MaxBackups..]);
      } else {
        assert dirs == old(dirs)[DefaultBackupDir := names];
      }
      ok := true;
    }

    /**
      The archive step (`tarfile.open` and `tar.add` of the world directory):
      opening creates `name` in the backup directory; `succeeds` is whether
      adding the world completes. When it does not, the exception leaves the
      partly written file behind.
     */
    method WriteArchive(name: string, succeeds: bool) returns (ok: bool)
      requires DefaultBackupDir in dirs
      modifies this
      ensures ok == succeeds
      ensures dirs == old(dirs)[DefaultBackupDir := old(dirs)[DefaultBackupDir] + {name}]
      ensures trace == old(trace) + [if ok then ArchiveWritten(name) else ArchiveAborted(name)]
    {
      dirs := dirs[DefaultBackupDir := dirs[DefaultBackupDir] + {name}];
      ok := succeeds;
      trace := trace + [if ok then ArchiveWritten(name) else ArchiveAborted(name)];
    }

    /**
      `backup_world()` with `datetime.now()` read as `now` and the outcome of
      the archive step as `archiveSucceeds`; `ok` is false where the archive step
      raises, which ends the call before `save-on` and the cleanup.
     */
    method BackupWorld(now: Timestamp, archiveSucceeds: bool) returns (ok: bool)
      requires ValidTimestamp(now)
      modifies this
      ensures ok == archiveSucceeds
      ensures !ok ==> dirs == old(dirs)[DefaultBackupDir := Names(old(dirs), DefaultBackupDir) + {BackupFileName(now)}]
      ensures !ok ==> trace == old(trace) + CycleEffects(BackupFileName(now), false, [])
      ensures ok ==> dirs == old(dirs)[DefaultBackupDir := AfterCleanup(Names(old(dirs), DefaultBackupDir) + {BackupFileName(now)})]
      ensures ok ==> exists listing :: Enumerates(listing, Names(old(dirs), DefaultBackupDir) + {BackupFileName(now)})
                                       && trace == old(trace) + CycleEffects(BackupFileName(now), true, Doomed(listing))
    {
      RunMinecraftCommand(SaveOff);
      RunMinecraftCommand(SaveAll);
      var name := BackupFileName(now);
      ghost var before := Names(old(dirs), DefaultBackupDir);
      ghost var written := before + {name};
      MakeDirs(DefaultBackupDir);
      assert dirs == old(dirs)[DefaultBackupDir := before];
      ok := WriteArchive(name, archiveSucceeds);
      assert dirs == old(dirs)[DefaultBackupDir := written];
      if !ok {
        return;
      }
      RunMinecraftCommand(SaveOn);
      var _ := CleanupBackups(DefaultBackupDir);
      assert dirs == old(dirs)[DefaultBackupDir := AfterCleanup(written)];
      ghost var listing :| Enumerates(listing, written)
        && trace == old(trace) + [Rcon(SaveOff)] + [Rcon(SaveAll)] + [ArchiveWritten(name)] + [Rcon(SaveOn)] + Removals(Doomed(listing));
      CompletedTrace(old(trace), name, Doomed(listing));
    }
  }

  // ---------------------------------------------------------------------------
  // Steps of the proofs of the methods

  /** The trace of a completed cycle, effect by effect, is the trace `CycleEffects` describes. */
  lemma CompletedTrace(t0: seq<Effect>, name: string, deleted: seq<string>)
    ensures t0 + [Rcon(SaveOff)] + [Rcon(SaveAll)] + [ArchiveWritten(name)] + [Rcon(SaveOn)] + Removals(deleted)
      == t0 + CycleEffects(name, true, deleted)
  {
  }


  /** What the loop of `cleanup_backups` relies on about the names it will delete. */
  lemma DeletionPlan(listing: seq<string>, names: set<string>)
    requires Enumerates(listing, names)
    ensures Distinct(Doomed(listing))
    ensures forall k :: 0 <= k < |Doomed(listing)| ==> Doomed(listing)[k] in names
    ensures names - Elements(Doomed(listing)) == AfterCleanup(names)
    ensures |Ranked(listing)| <= MaxBackups ==> AfterCleanup(names) == names && Removals(Doomed(listing)) == []
  {
    DoomedIsOutranked(listing, names);
    var d := Doomed(listing);
    forall k | 0 <= k < |d|
      ensures d[k] in names
    {
      assert d[k] in Elements(d);
    }
    if |Ranked(listing)| <= MaxBackups {
      assert d == [] && Elements(d) == {} && names - {} == names;
    }
  }

  /** Before the loop nothing has been deleted. */
  lemma DeletionStart(names: set<string>, doomed: seq<string>)
    ensures Elements(doomed[..0]) == {} && Removals(doomed[..0]) == []
    ensures names - Elements(doomed[..0]) == names
  {
    assert doomed[..0] == [];
  }

  /** One turn of the loop: removing `doomed[i]` moves the loop's bookkeeping on by one. */
  lemma DeletionStep(names: set<string>, doomed: seq<string>, i: int)
    requires Distinct(doomed) && 0 <= i < |doomed|
    ensures forall k :: i < k < |doomed| ==> doomed[k] != doomed[i]
    ensures Elements(doomed[..i + 1]) == Elements(doomed[..i]) + {doomed[i]}
    ensures Removals(doomed[..i + 1]) == Removals(doomed[..i]) + [Removed(doomed[i])]
    ensures (names - Elements(doomed[..i])) - {doomed[i]} == names - Elements(doomed[..i + 1])
  {
    forall k | i < k < |doomed|
      ensures doomed[k] != doomed[i]
    {
      DistinctAt(doomed, i, k);
    }
    assert doomed[..i + 1] == doomed[..i] + [doomed[i]];
  }

  // ---------------------------------------------------------------------------
  // Properties of one cycle

  /** Removing `names` removes each name as often as it is listed, and does nothing else. */
  lemma {:induction false} RemovalsCount(names: seq<string>, e: Effect)
    ensures Count(Removals(names), e) == if e.Removed? then multiset(names)[e.name] else 0
  {
    if names != [] {
      var n := |names| - 1;
      assert names == names[..n] + [names[n]];
      assert Removals(names) == Removals(names[..n]) + [Removed(names[n])];
      RemovalsCount(names[..n], e);
    }
  }

  /**
    When the archive step completes, one cycle sends `save-off`, then
    `save-all`, writes the archive, then sends `save-on`, each exactly once,
    and every deletion of the cleanup comes after all of them; each deleted
    name is removed exactly once.
   */
  lemma CompletedCycle(name: string, deleted: seq<string>)
    requires Distinct(deleted)
    ensures var t := CycleEffects(name, true, deleted);
      && Count(t, Rcon(SaveOff)) == 1 && Count(t, Rcon(SaveAll)) == 1
      && Count(t, ArchiveWritten(name)) == 1 && Count(t, Rcon(SaveOn)) == 1
      && Precedes(t, Rcon(SaveOff), Rcon(SaveAll))
      && Precedes(t, Rcon(SaveAll), ArchiveWritten(name))
      && Precedes(t, ArchiveWritten(name), Rcon(SaveOn))
      && (forall x :: x in deleted ==> Precedes(t, Rcon(SaveOn), Removed(x)) && Count(t, Removed(x)) == 1)
  {
    CycleCounts(name, deleted);
    CycleOrder(name, deleted);
  }

  /** The four commands of a completed cycle. */
  function CycleHead(name: string): seq<Effect>
  {
    [Rcon(SaveOff), Rcon(SaveAll), ArchiveWritten(name), Rcon(SaveOn)]
  }

  /** The four effects before the removals are pairwise different. */
  lemma CycleHeadDistinct(name: string)
    ensures forall i, j :: 0 <= i < j < 4 ==> CycleHead(name)[i] != CycleHead(name)[j]
  {
    assert SaveOff[5] != SaveAll[5] && |SaveOff| != |SaveOn| && SaveAll[5] != SaveOn[5];
  }

  /** How often each effect occurs in a completed cycle. */
  lemma CycleCounts(name: string, deleted: seq<string>)
    requires Distinct(deleted)
    ensures var t := CycleEffects(name, true, deleted);
      && Count(t, Rcon(SaveOff)) == 1 && Count(t, Rcon(SaveAll)) == 1
      && Count(t, ArchiveWritten(name)) == 1 && Count(t, Rcon(SaveOn)) == 1
      && (forall x :: x in deleted ==> Count(t, Removed(x)) == 1)
  {
    var head := CycleHead(name);
    var t := CycleEffects(name, true, deleted);
    CycleHeadDistinct(name);
    assert t == head + Removals(deleted);
    assert multiset(t) == multiset(head) + multiset(Removals(deleted));
    forall x | x in deleted
      ensures Count(t, Removed(x)) == 1
    {
      RemovalsCount(deleted, Removed(x));
    }
    RemovalsCount(deleted, Rcon(SaveOff));
    RemovalsCount(deleted, Rcon(SaveAll));
    RemovalsCount(deleted, Rcon(SaveOn));
    RemovalsCount(deleted, ArchiveWritten(name));
  }

  /** The order of the effects of a completed cycle. */
  lemma CycleOrder(name: string, deleted: seq<string>)
    ensures var t := CycleEffects(name, true, deleted);
      && Precedes(t, Rcon(SaveOff), Rcon(SaveAll))
      && Precedes(t, Rcon(SaveAll), ArchiveWritten(name))
      && Precedes(t, ArchiveWritten(name), Rcon(SaveOn))
      && (forall x :: x in deleted ==> Precedes(t, Rcon(SaveOn), Removed(x)))
  {
    var head := CycleHead(name);
    var t := CycleEffects(name, true, deleted);
    CycleHeadDistinct(name);
    assert t == head + Removals(deleted);
    forall i | 4 <= i < |t|
      ensures t[i].Removed?
    {
      assert t[i] == Removals(deleted)[i - 4];
    }
  }

  /**
    When the archive step raises, the cycle has sent `save-off` and `save-all`
    but never sends `save-on`, and nothing is deleted: the server is left
    with saving turned off.
   */
  lemma AbortedCycle(name: string)
    ensures var t := CycleEffects(name, false, []);
      && Count(t, Rcon(SaveOff)) == 1 && Count(t, Rcon(SaveAll)) == 1
      && Count(t, Rcon(SaveOn)) == 0
      && forall i :: 0 <= i < |t| ==> !t[i].Removed?
  {
  }

  /**
    A backup taken later than every backup already in the directory is a
    candidate, and the cleanup that follows it keeps it.
   */
  lemma NewBackupSurvives(names: set<string>, now: Timestamp)
    requires ValidTimestamp(now) && 1000 <= now.year
    requires forall x :: x in Candidates(names) ==>
      exists t :: ValidTimestamp(t) && 1000 <= t.year && Earlier(t, now) && x == BackupFileName(t)
    ensures IsCandidate(BackupFileName(now))
    ensures BackupFileName(now) in AfterCleanup(names + {BackupFileName(now)})
  {
    var n := BackupFileName(now);
    assert IsCandidate(n);
    forall x | x in Candidates(names) && x != n
      ensures Below(x, n)
    {
      var t :| ValidTimestamp(t) && 1000 <= t.year && Earlier(t, now) && x == BackupFileName(t);
      NameOrderIsChronological(t, now);
    }
    NewestSurvives(names, n);
  }

  // ---------------------------------------------------------------------------
  // Repeated cycles

  /** Readings a `datetime` can hold, each with a four-digit year. */
  predicate FourDigitYears(times: seq<Timestamp>)
  {
    forall i :: 0 <= i < |times| ==> ValidTimestamp(times[i]) && 1000 <= times[i].year
  }

  /** Each reading is later than the ones before it. */
  predicate Chronological(times: seq<Timestamp>)
  {
    forall i, j :: 0 <= i < j < |times| ==> Earlier(times[i], times[j])
  }

  /** The archive names of backups taken at `times`, in order. */
  function ArchiveNames(times: seq<Timestamp>): seq<string>
    requires FourDigitYears(times)
  {
    seq(|times|, i requires 0 <= i < |times| && FourDigitYears(times) => BackupFileName(times[i]))
  }

  /** Candidate names, each sorting above the ones before it. */
  predicate Ascending(ns: seq<string>)
  {
    && (forall i :: 0 <= i < |ns| ==> IsCandidate(ns[i]))
    && (forall i, j :: 0 <= i < j < |ns| ==> Below(ns[i], ns[j]))
  }

  /** The names at positions `lo..hi` of `ns` (positions below 0 left out). */
  function Window(ns: seq<string>, lo: int, hi: int): set<string>
    requires hi <= |ns|
  {
    set i | 0 <= i < |ns| && lo <= i < hi :: ns[i]
  }

  /**
    The backup directory after one completed cycle per name of `ns`, in turn,
    each writing that archive and then cleaning up: the directory that
    successive calls of `Host.BackupWorld` leave when each returns `ok`, by its
    `ok` postcondition, with the archive names of `ns` (`ArchiveNames` of the
    clock readings). A cycle whose archive step raises is not one of these: it
    leaves its partly written archive in the directory as a candidate.
   */
  function AfterRuns(names: set<string>, ns: seq<string>): set<string>
  {
    if ns == [] then names
    else AfterCleanup(AfterRuns(names, ns[..|ns| - 1]) + {ns[|ns| - 1]})
  }

  /** The names of chronological readings with four-digit years ascend. */
  lemma ChronologicalNamesAscend(times: seq<Timestamp>)
    requires FourDigitYears(times) && Chronological(times)
    ensures |ArchiveNames(times)| == |times|
    ensures Ascending(ArchiveNames(times))
  {
    var ns := ArchiveNames(times);
    forall i, j | 0 <= i < j < |ns|
      ensures Below(ns[i], ns[j])
    {
      NameOrderIsChronological(times[i], times[j]);
    }
  }

  /** In an ascending sequence, position order is name order. */
  lemma AscendingOrder(ns: seq<string>, i: int, j: int)
    requires Ascending(ns) && 0 <= i < |ns| && 0 <= j < |ns|
    ensures Below(ns[i], ns[j]) <==> i < j
    ensures ns[i] == ns[j] <==> i == j
  {
    if j < i {
      BelowAsymmetric(ns[j], ns[i]);
    }
    BelowIrreflexive(ns[i]);
  }

  /** A window of an ascending sequence has one name per position. */
  lemma {:induction false} WindowCard(ns: seq<string>, lo: int, hi: int)
    requires Ascending(ns)
    requires 0 <= lo <= hi <= |ns|
    ensures |Window(ns, lo, hi)| == hi - lo
    decreases hi - lo
  {
    if lo < hi {
      WindowCard(ns, lo, hi - 1);
      assert Window(ns, lo, hi) == Window(ns, lo, hi - 1) + {ns[hi - 1]};
      if ns[hi - 1] in Window(ns, lo, hi - 1) {
        var i :| 0 <= i < |ns| && lo <= i < hi - 1 && ns[i] == ns[hi - 1];
        AscendingOrder(ns, i, hi - 1);
      }
    } else {
      assert Window(ns, lo, hi) == {};
    }
  }

  /** The names of a window above position `i` are the window past `i`. */
  lemma WindowNewer(ns: seq<string>, lo: int, hi: int, i: int)
    requires Ascending(ns) && 0 <= lo <= i < hi <= |ns|
    ensures Newer(Window(ns, lo, hi), ns[i]) == Window(ns, i + 1, hi)
  {
    forall y | y in Newer(Window(ns, lo, hi), ns[i])
      ensures y in Window(ns, i + 1, hi)
    {
      var j :| 0 <= j < |ns| && lo <= j < hi && ns[j] == y;
      AscendingOrder(ns, i, j);
    }
    forall y | y in Window(ns, i + 1, hi)
      ensures y in Newer(Window(ns, lo, hi), ns[i])
    {
      var j :| 0 <= j < |ns| && i + 1 <= j < hi && ns[j] == y;
      AscendingOrder(ns, i, j);
    }
  }

  /** When the candidates are a window of an ascending sequence, the cleanup keeps its last `MaxBackups`. */
  lemma WindowCleanup(names: set<string>, ns: seq<string>, lo: int, hi: int)
    requires Ascending(ns) && 0 <= lo <= hi <= |ns|
    requires Candidates(names) == Window(ns, lo, hi)
    ensures Candidates(AfterCleanup(names)) == Window(ns, if hi - MaxBackups < lo then lo else hi - MaxBackups, hi)
  {
    var keep := if hi - MaxBackups < lo then lo else hi - MaxBackups;
    forall i | lo <= i < hi
      ensures ns[i] in Outranked(names) <==> i < hi - MaxBackups
    {
      WindowNewer(ns, lo, hi, i);
      WindowCard(ns, i + 1, hi);
    }
    forall y
      ensures y in Candidates(AfterCleanup(names)) <==> y in Window(ns, keep, hi)
    {
      if y in Candidates(names) {
        var k :| 0 <= k < |ns| && lo <= k < hi && ns[k] == y;
        if y in Window(ns, keep, hi) {
          var j :| 0 <= j < |ns| && keep <= j < hi && ns[j] == y;
          AscendingOrder(ns, j, k);
        }
      }
    }
  }

  /** A window of a prefix of `ns` is the same window of `ns`. */
  lemma PrefixWindow(ns: seq<string>, m: int, lo: int, hi: int)
    requires 0 <= m <= |ns| && hi <= m
    ensures Window(ns[..m], lo, hi) == Window(ns, lo, hi)
  {
    forall i | 0 <= i < m
      ensures ns[..m][i] == ns[i]
    {
    }
  }

  /** Window bounds below 0 all mean 0. */
  lemma WindowFromZero(ns: seq<string>, lo: int, hi: int)
    requires hi <= |ns|
    ensures Window(ns, lo, hi) == Window(ns, if lo < 0 then 0 else lo, hi)
  {
  }

  lemma WindowExtend(ns: seq<string>, lo: int, hi: int)
    requires 0 <= lo < hi <= |ns|
    ensures Window(ns, lo, hi) == Window(ns, lo, hi - 1) + {ns[hi - 1]}
  {
  }

  /** Adding a candidate to a directory adds it to the candidates. */
  lemma CandidatesAdd(names: set<string>, x: string)
    requires IsCandidate(x)
    ensures Candidates(names + {x}) == Candidates(names) + {x}
  {
  }

  /** One more cycle, with a name above all earlier ones, slides the window of kept names by one. */
  lemma RunStep(names: set<string>, ns: seq<string>)
    requires Ascending(ns) && |ns| > 0
    requires Candidates(AfterRuns(names, ns[..|ns| - 1])) == Window(ns, |ns| - 1 - MaxBackups, |ns| - 1)
    ensures Candidates(AfterRuns(names, ns)) == Window(ns, |ns| - MaxBackups, |ns|)
  {
    var n := |ns|;
    var lo := if n - 1 - MaxBackups < 0 then 0 else n - 1 - MaxBackups;
    var before := AfterRuns(names, ns[..n - 1]);
    var d := before + {ns[n - 1]};
    assert AfterRuns(names, ns) == AfterCleanup(d);
    WindowFromZero(ns, n - 1 - MaxBackups, n - 1);
    CandidatesAdd(before, ns[n - 1]);
    WindowExtend(ns, lo, n);
    WindowCleanup(d, ns, lo, n);
    WindowFromZero(ns, n - MaxBackups, n);
  }

  /**
    Starting from a directory without backups, one cycle per ascending name
    leaves exactly the last `MaxBackups` names (all of them while there are
    fewer).
   */
  lemma {:induction false} RepeatedRuns(names: set<string>, ns: seq<string>)
    requires Ascending(ns)
    requires Candidates(names) == {}
    ensures Candidates(AfterRuns(names, ns)) == Window(ns, |ns| - MaxBackups, |ns|)
    ensures |Candidates(AfterRuns(names, ns))| == if |ns| <= MaxBackups then |ns| else MaxBackups
  {
    var n := |ns|;
    if n == 0 {
      assert Window(ns, n - MaxBackups, n) == {};
    } else {
      var prefix := ns[..n - 1];
      assert Ascending(prefix);
      RepeatedRuns(names, prefix);
      PrefixWindow(ns, n - 1, n - 1 - MaxBackups, n - 1);
      RunStep(names, ns);
    }
    var lo := if n - MaxBackups < 0 then 0 else n - MaxBackups;
    assert Window(ns, n - MaxBackups, n) == Window(ns, lo, n);
    WindowCard(ns, lo, n);
  }

  /**
    Starting from a directory without backups, running
    `backup_world` at chronological readings, every archive step completing,
    leaves exactly the archives of the `MaxBackups` most recent readings.
   */
  lemma LatestBackupsRemain(names: set<string>, times: seq<Timestamp>)
    requires FourDigitYears(times) && Chronological(times)
    requires Candidates(names) == {}
    ensures Candidates(AfterRuns(names, ArchiveNames(times))) == Window(ArchiveNames(times), |times| - MaxBackups, |times|)
    ensures |Candidates(AfterRuns(names, ArchiveNames(times)))| == if |times| <= MaxBackups then |times| else MaxBackups
  {
    ChronologicalNamesAscend(times);
    RepeatedRuns(names, ArchiveNames(times));
  }
}

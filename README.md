# mc-dab: a model of the Minecraft backup-and-retention script

`mc-dab.py` is a one-shot script. It tells a Minecraft server running in a Docker
container to stop auto-saving and flush the world. It then writes the world
directory into a timestamped `mc_backup_<YYYY-MM-DD_HH-MM-SS>.tar.gz` archive and
turns auto-saving back on. Finally it prunes the backup directory down to the
`MAX_BACKUPS` (5) greatest `mc_backup_` names.

The model has four modules:

- `Strings`: the parts of Python's `str` the script relies on:
  - `<` (`Below`), proved a strict total order;
  - `startswith`;
  - `sorted(..., reverse=True)` as an insertion sort (`SortDesc`), proved to
    permute its input into descending order.
- `Naming`: the archive name built from `datetime.now()` with
  `strftime("%Y-%m-%d_%H-%M-%S")`. For four-digit years, the string order of
  two archive names is the chronological order of their timestamps, and
  different seconds give different names.
- `Retention`: `cleanup_backups` stated twice:
  - as the code computes it (filter, descending sort, slice past `MAX_BACKUPS`);
  - as an order-independent rule on the set of names in the directory: a
    candidate goes exactly when at least five other candidates sort above it.

  The lemmas connect the two. They show that the listing order of `os.listdir`
  does not matter, that exactly `min(n, 5)` candidates remain, that the
  survivors are the greatest, that a second cleanup removes nothing, and that a
  name above all the others survives.
- `Backup`: a `Host` class. It holds the file system as a map from directory
  path to entry names, plus the trace of effects (rcon commands, archive
  written or aborted, files removed). `BackupWorld` and `CleanupBackups` are
  methods whose postconditions give the new directory contents and the exact
  trace. Around them:
  - lemmas on one cycle's trace: each command once, in order, and `save-on`
    before every removal;
  - lemmas on repeated cycles: starting from a backup directory with no
    `mc_backup_` names, after any number of runs whose clock readings
    increase, and when every archive step completes, the directory holds
    exactly the latest `min(runs, 5)` archives.

Three properties of the code shape the model:

- The code has no `try`/`finally` around the archive step. An exception from
  `tar.add` (mc-dab.py:48) ends the run before `save-on`
  (mc-dab.py:51) and before the cleanup (mc-dab.py:54). The server is left with
  saving off, and the partly written archive stays in the backup directory
  (`Backup.AbortedCycle`, `Backup.Host.BackupWorld`).
- `save-on` is sent before the cleanup, not after it (mc-dab.py:51-54), and the
  retention count is the constant `MAX_BACKUPS = 5` (mc-dab.py:12).
- `cleanup_backups(backup_dir)` ignores its argument. It always lists and
  deletes in `DEFAULT_BACKUP_DIR`. `Backup.Host.CleanupBackups` keeps the
  parameter, and its postcondition says only `DefaultBackupDir` changes.

## Model

| member | source | states |
|---|---|---|
| Strings.BelowTotal | mc-dab.py:59 | Two different strings are ordered one way or the other by Python's `<`, so the descending sort has no ties between distinct names. |
| Strings.BelowTransitive | mc-dab.py:59 | Python's string `<` is transitive. |
| Strings.SortPermutes | mc-dab.py:59 | `sorted(..., reverse=True)` returns the same names, each as often as in its input. |
| Strings.SortDescending | mc-dab.py:59 | In the result of `sorted(..., reverse=True)` no name sorts below a later one. |
| Strings.RankingUnique | mc-dab.py:59 | Two strictly descending sequences of the same names are identical, so the sorted backups depend only on which names are present. |
| Retention.FilterKeepsCandidates | mc-dab.py:59 | The comprehension keeps each `mc_backup_` name as often as it is listed, and drops every other name. |
| Retention.RankedIsRanking | mc-dab.py:59 | For a directory listing, `backups` holds exactly the directory's `mc_backup_` names, once each, strictly descending. |
| Retention.AfterCleanup | mc-dab.py:59-65 | The cleanup only removes names, and never removes a name without the `mc_backup_` prefix. |
| Retention.DoomedIsOutranked | mc-dab.py:59-65 | The names the loop deletes are exactly the candidates with at least 5 other candidates above them, each visited once, greatest first. |
| Retention.DoomedIgnoresListingOrder | mc-dab.py:59-62 | Any two orders `os.listdir` may return give the same deletions and the same survivors. |
| Retention.KeptAndDoomedPartition | mc-dab.py:59-62 | The first 5 sorted backups and the rest partition the candidates, and the first 5 are what remains. |
| Retention.NothingDeletedWhenFew | mc-dab.py:61 | With at most 5 candidates nothing is deleted and the directory is unchanged. |
| Retention.RemainingCount | mc-dab.py:59-65 | After cleanup `min(n, 5)` candidates remain, where `n` were present. |
| Retention.SurvivorsAreNewest | mc-dab.py:59-65 | Every surviving candidate sorts above every deleted one. |
| Retention.CleanupIdempotent | mc-dab.py:59-65 | A second cleanup deletes nothing and leaves the directory as the first one left it. |
| Retention.NewestSurvives | mc-dab.py:59-65 | A candidate that sorts above all others survives the cleanup that follows its addition. |
| Naming.BackupFileName | mc-dab.py:38-39 | The archive name starts with the prefix the cleanup filters on. |
| Naming.YearIsPadded | mc-dab.py:38 | `%Y` of a year 1000 to 9999 is its four digits. |
| Naming.PaddedOrder | mc-dab.py:38 | Zero-padded fields of one width compare as strings as their numbers do, and are equal only for equal numbers. |
| Naming.StampOrder | mc-dab.py:38 | For four-digit years, timestamps are 19 characters long, string order is time order, and equal strings mean equal times. |
| Naming.NameOrderIsChronological | mc-dab.py:38-39 | For four-digit years, archive names are 36 long, sort like their readings, and differ for different seconds. |
| Backup.Host.RunMinecraftCommand | mc-dab.py:26-29 | Sending a command appends it to the trace and changes no file. |
| Backup.Host.ListDir | mc-dab.py:59 | `os.listdir` yields every name of an existing directory exactly once, in an unspecified order, and fails for a missing one. |
| Backup.Host.MakeDirs | mc-dab.py:43 | `makedirs(..., exist_ok=True)` creates the directory empty if it is missing, and otherwise changes nothing. |
| Backup.Host.RemoveFile | mc-dab.py:65 | `os.remove` takes exactly that name out of its directory and records the removal. |
| Backup.Host.RemoveAll | mc-dab.py:62-65 | The deletion loop removes exactly the given names from the directory, changes no other directory, and records one removal per name, in order. |
| Backup.Host.CleanupBackups | mc-dab.py:56-65 | Fails exactly when `DEFAULT_BACKUP_DIR` is missing, and then changes nothing. Otherwise only that directory changes; it becomes the order-independent `AfterCleanup` of its old contents, and the trace grows by the removals for some listing order. |
| Backup.Host.WriteArchive | mc-dab.py:47-48 | Opening the archive creates the name in the backup directory whether or not adding the world completes, and records which happened. |
| Backup.Host.BackupWorld | mc-dab.py:31-54 | A completed run adds the new archive, cleans up, and records save-off, save-all, the archive, save-on and the removals, in that order. A failed archive step leaves the partial file, records save-off, save-all and the abort, and stops there. |
| Backup.RemovalsCount | mc-dab.py:62-65 | The deletion loop's effects are removals only, one per deleted name. |
| Backup.CompletedCycle | mc-dab.py:34-54 | In a completed run each of save-off, save-all, the archive and save-on happens once, in that order, and every deleted backup is removed once, after save-on. |
| Backup.AbortedCycle | mc-dab.py:35-51 | When the archive step raises, save-off and save-all were sent, save-on never is, and nothing is deleted. |
| Backup.NewBackupSurvives | mc-dab.py:38-65 | An archive taken later than every backup already present is a candidate, and the cleanup after it keeps it. |
| Backup.ChronologicalNamesAscend | mc-dab.py:38-39 | Names of backups taken at increasing times, with four-digit years, strictly ascend. |
| Backup.WindowCleanup | mc-dab.py:59-65 | When the candidates are consecutive names of an ascending run, cleanup keeps the last 5 of them. |
| Backup.RunStep | mc-dab.py:54-65 | One more run, with a name above all earlier ones, slides the kept window forward by one. |
| Backup.RepeatedRuns | mc-dab.py:54-65 | Starting with no candidates, after completed runs (every archive step succeeds) with ascending names, exactly the last `min(runs, 5)` of those names remain. |
| Backup.LatestBackupsRemain | mc-dab.py:31-65 | Starting with no candidates, after completed runs (every archive step succeeds) at increasing clock readings, exactly the archives of the last `min(runs, 5)` runs remain. |

## Left out

- Docker and rcon: a command is an opaque `Rcon` effect. The container name, the shell command line and its exit status are not modelled, and the script does not look at the exit status either.
- The archive's contents: the tar/gzip layout, the `arcname="world"` entry and the world directory itself are outside the model. The archive step is one effect plus a success flag.
- Exceptions other than a missing backup directory and a failing archive step are not modelled: `makedirs` failing, `tarfile.open` failing before it creates the file, `os.remove` failing on a directory or a file removed meanwhile. `Backup.Host.RemoveFile`'s precondition holds at its only call site because nothing else changes the directory during the loop.
- Entry types are not modelled: a directory entry is a name, so a subdirectory named `mc_backup_...` is treated like a file.
- Paths: `os.path.join` and `os.path.dirname` are not modelled as strings. The archive is placed directly in `DEFAULT_BACKUP_DIR`, which is what they produce for this constant with its trailing slash. `makedirs` creating missing parent directories is not modelled.
- `datetime.now()` is a parameter of `Backup.Host.BackupWorld`; the clock itself is not modelled. `Host.BackupWorld` accepts any reading.
- Backup.NewBackupSurvives, Backup.ChronologicalNamesAscend, Backup.LatestBackupsRemain: "earlier" and "chronological" (`Earlier`, `Chronological`) are about the naive local wall-clock readings `datetime.now()` returns, not about real time. These readings repeat or step back when daylight saving time ends or the clock is corrected. A reading below an existing name then sorts below it, so the cleanup right after can delete the archive just written. A reading equal to an existing one makes `tarfile.open(..., "w:gz")` overwrite that backup. The lemmas exclude both cases by their preconditions.
- Repeated cycles whose archive step fails are not covered by Backup.RepeatedRuns and Backup.LatestBackupsRemain. `Backup.Host.BackupWorld` states what such a run leaves: a partly written archive that is a candidate and takes one of the five places at the next cleanup.
- Sub-second differences are not modelled: a `Timestamp` holds what `%Y-%m-%d_%H-%M-%S` keeps of a `datetime`, and microseconds are dropped. Two runs within the same second get the same archive name, and `tarfile.open(..., "w:gz")` of the second overwrites the first archive.
- Directory entry names are sequences of Unicode scalar values (Dafny `char`). On POSIX, `os.listdir` can return names with lone surrogates U+DC80 to U+DCFF standing for undecodable bytes; such names are not modelled. The script's own archive names are ASCII.
- Naming.NameOrderIsChronological: stated only for years 1000 to 9999, because how `%Y` pads smaller years depends on the platform's C library. `Decimal` renders them unpadded.
- Logging and printing (`log_and_print`, the log file configuration) have no effect on the model.
- Concurrency: two runs at once, or other processes touching the directory, are not modelled. The script has no locking.
- Scheduling, status reporting and manual backups are not part of this script and are not modelled.
- `DEFAULT_WORLD_PATH` and `CONTAINER_NAME` are only used by the parts left out above.

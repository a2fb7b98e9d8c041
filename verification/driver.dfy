/**
 The decision and write phases of the patcher's entry point, run against a
 game folder `dir`: the missing-file guard, the status pass, check mode,
 restore mode, the unknown-version gate, the all-patched shortcut and the
 skip-then-backup-then-write loop. The interactive "Continue anyway?" answer
 is the boolean `confirm`.
 */
module Driver {
  import opened ByteIO
  import opened Files
  import opened Patch

  /** The outcome of one run: the filesystem it leaves and its exit status. */
  datatype Outcome = Outcome(fs: FileSystem, exitCode: int)

  /** The file a table row patches, inside the game folder. */
  function Target(dir: Path, e: Entry): Path {
    Join(dir, e.fileName)
  }

  /** Every file named by the table exists in the game folder. */
  predicate AllPresent(fs: FileSystem, dir: Path, t: seq<Entry>) {
    forall j :: 0 <= j < |t| ==> Target(dir, t[j]) in fs
  }

  /** `q` is neither the file nor the backup of any row `k` with `m <= k < n`. */
  predicate Untouched(dir: Path, t: seq<Entry>, m: nat, n: nat, q: Path) {
    forall k :: m <= k < n && k < |t| ==> q != Target(dir, t[k]) && q != BackupPath(Target(dir, t[k]))
  }

  /** `q` is not the file of any row `k` with `m <= k < n`. */
  predicate NotTarget(dir: Path, t: seq<Entry>, m: nat, n: nat, q: Path) {
    forall k :: m <= k < n && k < |t| ==> q != Target(dir, t[k])
  }

  /** Every status reads `Patched`. */
  predicate AllPatched(st: seq<Status>) {
    forall j :: 0 <= j < |st| ==> st[j] == Patched
  }

  /**
   The status pass: one status per table row, in table order. A row is
   `Original` iff its file holds the original pattern; for a well-formed
   patch it is `Patched` iff the file holds the patched pattern and not the
   original one; it is `Unknown` iff the file holds neither the original
   pattern nor a window equal to the patched one.
   */
  function Statuses(fs: FileSystem, dir: Path, t: seq<Entry>): (st: seq<Status>)
    requires AllPresent(fs, dir, t)
    ensures |st| == |t|
    ensures forall j :: 0 <= j < |t| ==> st[j] == CheckPatchStatus(fs, Target(dir, t[j]), t[j].info)
    ensures forall j :: 0 <= j < |t| ==>
              (st[j] == Original <==> Matches(fs[Target(dir, t[j])], t[j].info.offset, t[j].info.original))
    ensures forall j :: 0 <= j < |t| && WellFormedInfo(t[j].info) ==>
              (st[j] == Patched <==>
                 && !Matches(fs[Target(dir, t[j])], t[j].info.offset, t[j].info.original)
                 && Matches(fs[Target(dir, t[j])], t[j].info.offset, t[j].info.patched))
    ensures forall j :: 0 <= j < |t| ==>
              (st[j] == Unknown <==>
                 && !Matches(fs[Target(dir, t[j])], t[j].info.offset, t[j].info.original)
                 && ReadAt(fs[Target(dir, t[j])], t[j].info.offset, |t[j].info.original|) != t[j].info.patched)
  {
    seq(|t|, j requires 0 <= j < |t| => CheckPatchStatus(fs, Target(dir, t[j]), t[j].info))
  }

  /**
   One turn of the write loop for row `e`: skipped when its recorded status
   is `Patched`, otherwise its file is backed up and then patched. That
   only the row's file and its backup can change is `StepKeeps`.
   */
  function ApplyStep(fs: FileSystem, dir: Path, e: Entry, status: Status): (r: FileSystem)
    requires Target(dir, e) in fs
    ensures fs.Keys <= r.Keys
    ensures status == Patched ==> r == fs
    ensures status != Patched ==> FileApplied(fs, r, Target(dir, e), e.info)
  {
    if status == Patched then fs
    else
      var p := Target(dir, e);
      BackupPathIsOther(p);
      ApplyPatch(BackupFile(fs, p).fs, p, e.info)
  }

  /**
   The write loop over the first `n` rows, in table order: a row recorded
   as `Patched` is skipped, any other is backed up and then patched. No path
   disappears; what happens to each row is `ApplyUpToEffect`.
   */
  function ApplyUpTo(fs: FileSystem, dir: Path, t: seq<Entry>, st: seq<Status>, n: nat): (r: FileSystem)
    requires |st| == |t| && n <= |t|
    requires AllPresent(fs, dir, t)
    ensures fs.Keys <= r.Keys
  {
    if n == 0 then fs
    else ApplyStep(ApplyUpTo(fs, dir, t, st, n - 1), dir, t[n - 1], st[n - 1])
  }

  /**
   The restore loop over the first `n` rows: each file is restored from its
   backup when it has one. No path disappears; what happens to each row is
   `RestoreUpToEffect`.
   */
  function RestoreUpTo(fs: FileSystem, dir: Path, t: seq<Entry>, n: nat): (r: FileSystem)
    requires n <= |t|
    ensures fs.Keys <= r.Keys
  {
    if n == 0 then fs
    else RestoreFile(RestoreUpTo(fs, dir, t, n - 1), Target(dir, t[n - 1])).fs
  }

  /**
   One run of the patcher on the folder `dir`. `check` and `restore` are the
   command-line switches (check wins when both are given); `confirm` is the
   user's answer to the unknown-version prompt.
   */
  function Run(fs: FileSystem, dir: Path, t: seq<Entry>, check: bool, restore: bool, confirm: bool): (o: Outcome)
    ensures !AllPresent(fs, dir, t) ==> o == Outcome(fs, 1)
    ensures check ==> o.fs == fs
    ensures o.exitCode == 0 || o.fs == fs
    ensures AllPresent(fs, dir, t) && !check && !restore && !confirm && Unknown in Statuses(fs, dir, t) ==>
              o == Outcome(fs, 1)
    ensures AllPresent(fs, dir, t) && !check && !restore && AllPatched(Statuses(fs, dir, t)) ==>
              o == Outcome(fs, 0)
  {
    if !AllPresent(fs, dir, t) then Outcome(fs, 1)
    else
      var st := Statuses(fs, dir, t);
      if check then Outcome(fs, 0)
      else if restore then Outcome(RestoreUpTo(fs, dir, t, |t|), 0)
      else if Unknown in st && !confirm then Outcome(fs, 1)
      else if AllPatched(st) then Outcome(fs, 0)
      else Outcome(ApplyUpTo(fs, dir, t, st, |t|), 0)
  }

  /** What the write loop leaves for a file it patched: the patched bytes, and a backup of the pre-run content unless one already existed. */
  predicate FileApplied(before: FileSystem, after: FileSystem, p: Path, info: PatchInfo)
    requires p in before
  {
    && p in after
    && after[p] == WriteAt(before[p], info.offset, info.patched)
    && BackupPath(p) in after
    && after[BackupPath(p)] == (if BackupPath(p) in before then before[BackupPath(p)] else before[p])
  }

  /** What the write loop leaves for a file it skipped: the file and its backup as they were. */
  predicate FileSkipped(before: FileSystem, after: FileSystem, p: Path) {
    SameAt(before, after, p) && SameAt(before, after, BackupPath(p))
  }

  /** In a well-formed table, the targets and backups of distinct rows are distinct paths. */
  lemma PathsDistinct(dir: Path, t: seq<Entry>, j: nat, k: nat)
    requires WellFormedTable(t)
    requires j < |t| && k < |t|
    ensures Target(dir, t[j]) != BackupPath(Target(dir, t[k]))
    ensures j != k ==> Target(dir, t[j]) != Target(dir, t[k])
    ensures j != k ==> BackupPath(Target(dir, t[j])) != BackupPath(Target(dir, t[k]))
  {
    var nj, nk := t[j].fileName, t[k].fileName;
    BackupOfJoin(dir, nk);
    JoinInjective(dir, nj, BackupPath(nk));
    JoinInjective(dir, nj, nk);
    BackupPathInjective(Target(dir, t[j]), Target(dir, t[k]));
  }

  /** One turn of the write loop leaves alone every path other than the row's file and its backup. */
  lemma StepKeeps(fs: FileSystem, dir: Path, e: Entry, status: Status, q: Path)
    requires Target(dir, e) in fs
    requires q != Target(dir, e) && q != BackupPath(Target(dir, e))
    ensures SameAt(fs, ApplyStep(fs, dir, e, status), q)
  {
  }

  /** Rows `m` to `n - 1` of the write loop leave alone a path that is neither their file nor their backup. */
  lemma {:induction false} ApplyUpToKeeps(fs: FileSystem, dir: Path, t: seq<Entry>, st: seq<Status>, m: nat, n: nat, q: Path)
    requires |st| == |t| && m <= n <= |t|
    requires AllPresent(fs, dir, t)
    requires Untouched(dir, t, m, n, q)
    ensures SameAt(ApplyUpTo(fs, dir, t, st, m), ApplyUpTo(fs, dir, t, st, n), q)
  {
    if m < n {
      assert q != Target(dir, t[n - 1]) && q != BackupPath(Target(dir, t[n - 1]));
      StepKeeps(ApplyUpTo(fs, dir, t, st, n - 1), dir, t[n - 1], st[n - 1], q);
      ApplyUpToKeeps(fs, dir, t, st, m, n - 1, q);
    }
  }

  /** Rows `m` to `n - 1` of the restore loop leave alone a path, backups included, that is not their file. */
  lemma {:induction false} RestoreUpToKeeps(fs: FileSystem, dir: Path, t: seq<Entry>, m: nat, n: nat, q: Path)
    requires m <= n <= |t|
    requires NotTarget(dir, t, m, n, q)
    ensures SameAt(RestoreUpTo(fs, dir, t, m), RestoreUpTo(fs, dir, t, n), q)
  {
    if m < n {
      assert q != Target(dir, t[n - 1]);
      RestoreUpToKeeps(fs, dir, t, m, n - 1, q);
    }
  }

  /**
   The write loop over the first `n` rows patches exactly the rows not
   recorded as `Patched`, backing each up first without refreshing an
   existing backup, and leaves every other path alone.
   */
  lemma ApplyUpToEffect(fs: FileSystem, dir: Path, t: seq<Entry>, st: seq<Status>, n: nat)
    requires WellFormedTable(t)
    requires |st| == |t| && n <= |t|
    requires AllPresent(fs, dir, t)
    ensures var r := ApplyUpTo(fs, dir, t, st, n);
            && (forall j :: 0 <= j < n && st[j] == Patched ==> FileSkipped(fs, r, Target(dir, t[j])))
            && (forall j :: 0 <= j < n && st[j] != Patched ==> FileApplied(fs, r, Target(dir, t[j]), t[j].info))
            && (forall q :: Untouched(dir, t, 0, n, q) ==> SameAt(fs, r, q))
  {
    forall j | 0 <= j < n && st[j] == Patched
      ensures FileSkipped(fs, ApplyUpTo(fs, dir, t, st, n), Target(dir, t[j]))
    {
      ApplyUpToSkips(fs, dir, t, st, n, j);
    }
    forall j | 0 <= j < n && st[j] != Patched
      ensures FileApplied(fs, ApplyUpTo(fs, dir, t, st, n), Target(dir, t[j]), t[j].info)
    {
      ApplyUpToApplies(fs, dir, t, st, n, j);
    }
    forall q | Untouched(dir, t, 0, n, q) ensures SameAt(fs, ApplyUpTo(fs, dir, t, st, n), q) {
      ApplyUpToKeeps(fs, dir, t, st, 0, n, q);
    }
  }

  /** After the first `n` rows, a row `j < n` recorded as `Patched` still has its file and backup as they were. */
  lemma ApplyUpToSkips(fs: FileSystem, dir: Path, t: seq<Entry>, st: seq<Status>, n: nat, j: nat)
    requires WellFormedTable(t)
    requires |st| == |t| && j < n <= |t|
    requires AllPresent(fs, dir, t)
    requires st[j] == Patched
    ensures FileSkipped(fs, ApplyUpTo(fs, dir, t, st, n), Target(dir, t[j]))
  {
    var p := Target(dir, t[j]);
    RowAvoids(dir, t, j, n);
    ApplyUpToKeeps(fs, dir, t, st, 0, j, p);
    ApplyUpToKeeps(fs, dir, t, st, 0, j, BackupPath(p));
    ApplyUpToKeeps(fs, dir, t, st, j + 1, n, p);
    ApplyUpToKeeps(fs, dir, t, st, j + 1, n, BackupPath(p));
  }

  /**
   After the first `n` rows, a row `j < n` not recorded as `Patched` holds
   the patched bytes, and its backup holds its earlier content unless a
   backup already existed.
   */
  lemma ApplyUpToApplies(fs: FileSystem, dir: Path, t: seq<Entry>, st: seq<Status>, n: nat, j: nat)
    requires WellFormedTable(t)
    requires |st| == |t| && j < n <= |t|
    requires AllPresent(fs, dir, t)
    requires st[j] != Patched
    ensures FileApplied(fs, ApplyUpTo(fs, dir, t, st, n), Target(dir, t[j]), t[j].info)
  {
    var p := Target(dir, t[j]);
    var before := ApplyUpTo(fs, dir, t, st, j);
    var after := ApplyUpTo(fs, dir, t, st, j + 1);
    RowAvoids(dir, t, j, n);
    ApplyUpToKeeps(fs, dir, t, st, 0, j, p);
    ApplyUpToKeeps(fs, dir, t, st, 0, j, BackupPath(p));
    ApplyUpToKeeps(fs, dir, t, st, j + 1, n, p);
    ApplyUpToKeeps(fs, dir, t, st, j + 1, n, BackupPath(p));
    SameThenApplied(fs, before, after, p, t[j].info);
    AppliedThenSame(fs, after, ApplyUpTo(fs, dir, t, st, n), p, t[j].info);
  }

  /** A file the loop patched stays patched through a stretch that leaves it and its backup alone. */
  lemma AppliedThenSame(a: FileSystem, b: FileSystem, c: FileSystem, p: Path, info: PatchInfo)
    requires p in a && FileApplied(a, b, p, info)
    requires SameAt(b, c, p) && SameAt(b, c, BackupPath(p))
    ensures FileApplied(a, c, p, info)
  {
  }

  /** A stretch that leaves a file and its backup alone does not change how it is later patched. */
  lemma SameThenApplied(a: FileSystem, b: FileSystem, c: FileSystem, p: Path, info: PatchInfo)
    requires p in a && SameAt(a, b, p) && SameAt(a, b, BackupPath(p))
    requires FileApplied(b, c, p, info)
    ensures FileApplied(a, c, p, info)
  {
  }

  /**
   Row `j`'s file and backup are neither the file nor the backup of any
   other row, and no row's file is row `j`'s backup.
   */
  lemma RowAvoids(dir: Path, t: seq<Entry>, j: nat, n: nat)
    requires WellFormedTable(t)
    requires j < n <= |t|
    ensures Untouched(dir, t, 0, j, Target(dir, t[j]))
    ensures Untouched(dir, t, 0, j, BackupPath(Target(dir, t[j])))
    ensures Untouched(dir, t, j + 1, n, Target(dir, t[j]))
    ensures Untouched(dir, t, j + 1, n, BackupPath(Target(dir, t[j])))
    ensures NotTarget(dir, t, 0, n, BackupPath(Target(dir, t[j])))
  {
    forall k | 0 <= k < n
      ensures && Target(dir, t[k]) != BackupPath(Target(dir, t[j]))
              && (k != j ==> && Target(dir, t[k]) != Target(dir, t[j])
                             && BackupPath(Target(dir, t[k])) != Target(dir, t[j])
                             && BackupPath(Target(dir, t[k])) != BackupPath(Target(dir, t[j])))
    {
      PathsDistinct(dir, t, k, j);
      PathsDistinct(dir, t, j, k);
    }
  }

  /**
   The restore loop over the first `n` rows gives each of their files that
   has a backup that backup's content, and leaves every file without one,
   every backup and every other path alone.
   */
  lemma RestoreUpToEffect(fs: FileSystem, dir: Path, t: seq<Entry>, n: nat)
    requires WellFormedTable(t)
    requires n <= |t|
    ensures var r := RestoreUpTo(fs, dir, t, n);
            && (forall j :: 0 <= j < n && BackupPath(Target(dir, t[j])) in fs ==>
                  Target(dir, t[j]) in r && r[Target(dir, t[j])] == fs[BackupPath(Target(dir, t[j]))])
            && (forall j :: 0 <= j < n && BackupPath(Target(dir, t[j])) !in fs ==>
                  SameAt(fs, r, Target(dir, t[j])))
            && (forall q :: NotTarget(dir, t, 0, n, q) ==> SameAt(fs, r, q))
  {
    forall j | 0 <= j < n
      ensures var r := RestoreUpTo(fs, dir, t, n);
              && (BackupPath(Target(dir, t[j])) in fs ==>
                    Target(dir, t[j]) in r && r[Target(dir, t[j])] == fs[BackupPath(Target(dir, t[j]))])
              && (BackupPath(Target(dir, t[j])) !in fs ==> SameAt(fs, r, Target(dir, t[j])))
    {
      RestoreUpToRow(fs, dir, t, n, j);
    }
    forall q | NotTarget(dir, t, 0, n, q) ensures SameAt(fs, RestoreUpTo(fs, dir, t, n), q) {
      RestoreUpToKeeps(fs, dir, t, 0, n, q);
    }
  }

  /**
   After the restore loop over the first `n` rows, row `j < n`'s file holds
   its backup when it has one and is as it was otherwise.
   */
  lemma RestoreUpToRow(fs: FileSystem, dir: Path, t: seq<Entry>, n: nat, j: nat)
    requires WellFormedTable(t)
    requires j < n <= |t|
    ensures var p := Target(dir, t[j]);
            var r := RestoreUpTo(fs, dir, t, n);
            && (BackupPath(p) in fs ==> p in r && r[p] == fs[BackupPath(p)])
            && (BackupPath(p) !in fs ==> SameAt(fs, r, p))
  {
    var p := Target(dir, t[j]);
    RowAvoids(dir, t, j, n);
    RestoreUpToKeeps(fs, dir, t, 0, j, p);
    RestoreUpToKeeps(fs, dir, t, 0, j, BackupPath(p));
    RestoreUpToKeeps(fs, dir, t, j + 1, n, p);
  }

  /**
   A run in apply mode that gets past both gates backs up and patches every
   file not already reported as patched, and leaves already-patched files,
   their backups and every other path unchanged.
   */
  lemma RunApplyEffect(fs: FileSystem, dir: Path, t: seq<Entry>, confirm: bool)
    requires WellFormedTable(t)
    requires AllPresent(fs, dir, t)
    requires confirm || Unknown !in Statuses(fs, dir, t)
    requires !AllPatched(Statuses(fs, dir, t))
    ensures var st := Statuses(fs, dir, t);
            var r := Run(fs, dir, t, false, false, confirm);
            && r.exitCode == 0
            && (forall j :: 0 <= j < |t| && st[j] == Patched ==> FileSkipped(fs, r.fs, Target(dir, t[j])))
            && (forall j :: 0 <= j < |t| && st[j] != Patched ==> FileApplied(fs, r.fs, Target(dir, t[j]), t[j].info))
            && (forall q :: Untouched(dir, t, 0, |t|, q) ==> SameAt(fs, r.fs, q))
  {
    ApplyUpToEffect(fs, dir, t, Statuses(fs, dir, t), |t|);
  }

  /**
   A run in restore mode copies every existing backup over its file and
   leaves files without a backup, and every other path, unchanged.
   */
  lemma RunRestoreEffect(fs: FileSystem, dir: Path, t: seq<Entry>)
    requires WellFormedTable(t)
    requires AllPresent(fs, dir, t)
    ensures var r := Run(fs, dir, t, false, true, false);
            && r.exitCode == 0
            && (forall j :: 0 <= j < |t| && BackupPath(Target(dir, t[j])) in fs ==>
                  r.fs[Target(dir, t[j])] == fs[BackupPath(Target(dir, t[j]))])
            && (forall j :: 0 <= j < |t| && BackupPath(Target(dir, t[j])) !in fs ==>
                  r.fs[Target(dir, t[j])] == fs[Target(dir, t[j])])
            && (forall q :: NotTarget(dir, t, 0, |t|, q) ==> SameAt(fs, r.fs, q))
  {
    RestoreUpToEffect(fs, dir, t, |t|);
  }

  /**
   A run in apply mode that passes the unknown-version gate exits
   successfully, and afterwards every file classifies as `Patched`, whatever
   it held before.
   */
  lemma RunApplyPatchesAll(fs: FileSystem, dir: Path, t: seq<Entry>, confirm: bool)
    requires WellFormedTable(t)
    requires AllPresent(fs, dir, t)
    requires confirm || Unknown !in Statuses(fs, dir, t)
    ensures Run(fs, dir, t, false, false, confirm).exitCode == 0
    ensures var r := Run(fs, dir, t, false, false, confirm).fs;
            && AllPresent(r, dir, t)
            && AllPatched(Statuses(r, dir, t))
  {
    var st := Statuses(fs, dir, t);
    if !AllPatched(st) {
      var r := Run(fs, dir, t, false, false, confirm).fs;
      RunApplyEffect(fs, dir, t, confirm);
      forall j | 0 <= j < |t| ensures Statuses(r, dir, t)[j] == Patched {
        var p := Target(dir, t[j]);
        if st[j] != Patched {
          ApplyThenCheckIsPatched(fs, p, t[j].info);
          assert r[p] == ApplyPatch(fs, p, t[j].info)[p];
        }
      }
    }
  }

  /**
   Applying twice in a row: once a run in apply mode has passed the
   unknown-version gate, a second run finds every file patched, exits
   successfully and writes nothing.
   */
  lemma RunApplyTwice(fs: FileSystem, dir: Path, t: seq<Entry>, confirm1: bool, confirm2: bool)
    requires WellFormedTable(t)
    requires AllPresent(fs, dir, t)
    requires confirm1 || Unknown !in Statuses(fs, dir, t)
    ensures var first := Run(fs, dir, t, false, false, confirm1);
            Run(first.fs, dir, t, false, false, confirm2) == Outcome(first.fs, 0)
  {
    RunApplyPatchesAll(fs, dir, t, confirm1);
  }

  /**
   Round trip: a run in apply mode (whatever its outcome) followed by a run
   in restore mode gives every file of the table that had no backup before
   the apply run its exact pre-apply content, whatever the other files and
   their backups hold.
   */
  lemma RunApplyThenRestore(fs: FileSystem, dir: Path, t: seq<Entry>, confirm: bool)
    requires WellFormedTable(t)
    requires AllPresent(fs, dir, t)
    ensures var applied := Run(fs, dir, t, false, false, confirm);
            var restored := Run(applied.fs, dir, t, false, true, false);
            && restored.exitCode == 0
            && forall j :: 0 <= j < |t| && BackupPath(Target(dir, t[j])) !in fs ==>
                 restored.fs[Target(dir, t[j])] == fs[Target(dir, t[j])]
  {
    var st := Statuses(fs, dir, t);
    var applied := Run(fs, dir, t, false, false, confirm);
    if applied.fs != fs {
      RunApplyEffect(fs, dir, t, confirm);
    }
    assert AllPresent(applied.fs, dir, t);
    RunRestoreEffect(applied.fs, dir, t);
    forall j | 0 <= j < |t| && BackupPath(Target(dir, t[j])) !in fs
      ensures Run(applied.fs, dir, t, false, true, false).fs[Target(dir, t[j])] == fs[Target(dir, t[j])]
    {
      var p := Target(dir, t[j]);
      if applied.fs != fs {
        if st[j] != Patched {
          assert FileApplied(fs, applied.fs, p, t[j].info);
        } else {
          assert FileSkipped(fs, applied.fs, p);
        }
      }
    }
  }

  /**
   When a file's content is unrecognised and the user confirms, the file is
   still backed up and overwritten: the gate asks, it does not refuse.
   */
  lemma RunConfirmedUnknownIsWritten(fs: FileSystem, dir: Path, t: seq<Entry>, j: nat)
    requires WellFormedTable(t)
    requires AllPresent(fs, dir, t)
    requires j < |t| && Statuses(fs, dir, t)[j] == Unknown
    ensures FileApplied(fs, Run(fs, dir, t, false, false, true).fs, Target(dir, t[j]), t[j].info)
  {
    RunApplyEffect(fs, dir, t, true);
  }
}

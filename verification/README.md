# Space Engineers 2 macOS patch: patch-state model

This project models the patch-state logic of the Space Engineers 2
compatibility patcher (`patches/space-engineers-2/patch.py`). The patcher
overwrites a few bytes in two game assemblies. These are
`VRage.Render.dll` and `VRage.Render12.dll`, and the change bypasses a GPU
compatibility check. Before writing, it backs each file up to
`<file>.backup`. It can also restore files from those backups.

The model treats a file as its byte content (`seq<bv8>`) and the filesystem
as a map from path to bytes. It has four modules:

- `ByteIO` models a seek followed by a read or write on a binary file.
  `ReadAt` returns a short or empty read at the end of the file. `WriteAt`
  overwrites in place. A non-empty write past the end zero-extends the file.
- `Files` defines paths, the `.backup` suffix, and joining a name onto the
  game folder.
- `Patch` holds the patch table `PATCHES`, the three-way classifier
  `CheckPatchStatus`, and the per-file operations `ApplyPatch`, `BackupFile`
  and `RestoreFile`.
- `Driver` models the entry point once the game folder is known. It covers
  the missing-file guard, the status pass, check mode and restore mode. It
  also covers the unknown-version prompt, the all-patched shortcut, and the
  loop that skips patched files and backs up each other file before writing
  it. The result is an `Outcome`: the final filesystem and the exit status.

The model follows the code in these places:

- Patch offsets are fixed constants. No virtual address is translated.
- A file that ends before the patch window gives a short read. It is
  classified `Unknown`; there is no separate truncated-file error.
- Each file has exactly one patch. There is no per-file aggregate status
  such as "mixed".
- The unknown-version gate only asks the user. If the user confirms, an
  unrecognised file is still backed up and overwritten
  (`RunConfirmedUnknownIsWritten`).
- Writes happen in place, with no temporary file and rename.
- Restore mode exits with status 0 even when some file has no backup.

## Model

| member | source | states |
|---|---|---|
| ByteIO.ReadAt | patches/space-engineers-2/patch.py:82-84 | A seek followed by a read of `n` bytes returns at most `n` bytes, each equal to the file byte at the same position. It returns exactly `n` bytes iff the window fits in the file. At or past the end of the file it returns nothing. |
| ByteIO.WriteAt | patches/space-engineers-2/patch.py:114-116 | After a seek and write, the window holds the data. Every byte of the file outside the window is unchanged. A non-empty write that ends past the old end grows the file to the window's end, and any gap reads as zeros. An empty write leaves the file as it was. |
| ByteIO.ReadAtMatches | patches/space-engineers-2/patch.py:84-88 | Reading `len(pattern)` bytes at the offset gives exactly the pattern iff the file holds the pattern there byte for byte. |
| ByteIO.WriteAtThenMatches | patches/space-engineers-2/patch.py:114-116 | Reading back the window just written returns exactly the written bytes. |
| ByteIO.WriteAtIdempotent | patches/space-engineers-2/patch.py:114-116 | Writing the same bytes at the same offset twice leaves the same content as writing them once. |
| ByteIO.WriteAtMatchingIsNoop | patches/space-engineers-2/patch.py:114-116 | Writing bytes the file already holds at that offset leaves the file unchanged. |
| Files.BackupPathIsOther | patches/space-engineers-2/patch.py:94 | The backup path of a file, the file path with `.backup` appended, never names the file itself, so creating the backup cannot overwrite the file. |
| Files.BackupPathInjective | patches/space-engineers-2/patch.py:104 | Two files with the same derived backup path are the same file, so each file is restored from its own backup only. |
| Files.JoinInjective | patches/space-engineers-2/patch.py:181 | Two file names joined onto the same game folder give the same path iff the names are equal. |
| Files.BackupOfJoin | patches/space-engineers-2/patch.py:94 | The backup of `dir/name` is `dir/name.backup`, a file of the same folder. |
| Patch.PatchesWellFormed | patches/space-engineers-2/patch.py:39-52 | The table has two rows. In each row the original and patched patterns have equal length and differ. The file names are distinct, and no name is the backup name of another. |
| Patch.CheckPatchStatus | patches/space-engineers-2/patch.py:81-91 | The result is `Original` iff the file holds the original pattern at the offset. Otherwise it is `Patched` iff the window read equals the patched pattern; when the patterns have equal length, that means the file holds the patched pattern there. In every other case it is `Unknown`. The original pattern is compared first, so it wins if the two patterns are equal. |
| Patch.TruncatedIsUnknown | patches/space-engineers-2/patch.py:82-91 | Take equal-length, non-empty patterns. A file that ends before the end of the window is classified `Unknown`. |
| Patch.ApplyPatch | patches/space-engineers-2/patch.py:113-116 | Only the target file changes, and no path appears or disappears. Afterwards the target holds the patched bytes at the offset. When the window fits in the file, the length is kept and every byte outside the window is unchanged. |
| Patch.ApplyThenCheckIsPatched | patches/space-engineers-2/patch.py:81-116 | Take a patch with equal-length, distinct patterns. After it is applied, classifying the file against it gives `Patched`, whatever the file held before. |
| Patch.ApplyPatchIdempotent | patches/space-engineers-2/patch.py:113-116 | Applying the same patch twice gives the same filesystem as applying it once. |
| Patch.BackupFile | patches/space-engineers-2/patch.py:93-101 | The call always returns true and never changes the target file. If no backup exists, the backup is created with the file's current content and nothing else changes. If a backup exists, nothing changes. |
| Patch.BackupFileIdempotent | patches/space-engineers-2/patch.py:93-101 | A second backup call changes nothing, so the first snapshot is never refreshed. |
| Patch.RestoreFile | patches/space-engineers-2/patch.py:103-111 | The call returns true iff `<path>.backup` exists. On success the file becomes byte-equal to the backup, and every other path, the backup included, is unchanged. On failure nothing changes. |
| Patch.BackupApplyRestore | patches/space-engineers-2/patch.py:93-116 | Start from a file with no backup. Backing it up, patching it and restoring it succeeds. The file gets back its exact original content, and the backup holds that same content. |
| Driver.Statuses | patches/space-engineers-2/patch.py:179-183 | The status pass records exactly one status per table row, in table order, namely the classifier's verdict for that row's own file and patch. Read back against the files: a status is `Original` iff the file holds the original pattern. For a well-formed patch it is `Patched` iff the file holds the patched pattern and not the original one. It is `Unknown` iff the file holds neither the original pattern nor a window equal to the patched one. |
| Driver.PathsDistinct | patches/space-engineers-2/patch.py:162-163 | In a well-formed table, no row's file is the backup of any row. The files of two distinct rows differ, and so do their backups. |
| Driver.ApplyStep | patches/space-engineers-2/patch.py:220-226 | A row recorded as `Patched` is skipped, and the filesystem is unchanged. Any other row's file ends up patched. Its backup holds the pre-write content, unless a backup already existed, and then that backup is kept. No path disappears. |
| Driver.StepKeeps | patches/space-engineers-2/patch.py:220-226 | One turn of the write loop changes no path other than the row's file and its backup. |
| Driver.ApplyUpTo | patches/space-engineers-2/patch.py:217-226 | The write loop over the first `n` rows makes no path disappear. What it does to each row is stated by `Driver.ApplyUpToEffect`. |
| Driver.ApplyUpToKeeps | patches/space-engineers-2/patch.py:217-226 | Rows `m` to `n - 1` of the write loop leave alone every path that is neither their file nor their backup. |
| Driver.ApplyUpToSkips | patches/space-engineers-2/patch.py:220-222 | Over a well-formed table, a row recorded as `Patched` keeps its file and its backup exactly as before the loop, whatever later rows do. |
| Driver.ApplyUpToApplies | patches/space-engineers-2/patch.py:224-226 | Over a well-formed table, a row not recorded as `Patched` ends the loop holding the patched bytes. Its backup holds the pre-loop content, unless a backup already existed, and then that backup is kept. |
| Driver.ApplyUpToEffect | patches/space-engineers-2/patch.py:217-226 | Over a well-formed table, the write loop leaves rows recorded as `Patched` unchanged, file and backup alike. Every other row is patched and backed up as `ApplyStep` states. No path outside the table's files and backups changes. |
| Driver.RestoreUpTo | patches/space-engineers-2/patch.py:196-198 | The restore loop over the first `n` rows makes no path disappear. What it does to each row is stated by `Driver.RestoreUpToEffect`. |
| Driver.RestoreUpToKeeps | patches/space-engineers-2/patch.py:196-198 | Rows `m` to `n - 1` of the restore loop leave alone every path that is not their file, backups included. |
| Driver.RestoreUpToRow | patches/space-engineers-2/patch.py:196-198 | Over a well-formed table, after the restore loop a row's file holds its backup's content when it has a backup, and is unchanged otherwise. |
| Driver.RestoreUpToEffect | patches/space-engineers-2/patch.py:196-198 | Over a well-formed table, the restore loop gives each file that has a backup that backup's content. Files without a backup are unchanged. No path that is not a table file changes, backups included. |
| Driver.Run | patches/space-engineers-2/patch.py:161-226 | If any table file is missing, the run exits 1 and writes nothing. Check mode writes nothing. Any run that does not exit 0 writes nothing. In apply mode, an unknown status the user declines gives exit 1 with nothing written. When every status is `Patched`, the run exits 0 with nothing written. |
| Driver.RunApplyEffect | patches/space-engineers-2/patch.py:202-226 | An apply run that passes both gates exits 0. Files reported `Patched` are skipped, with their backups untouched. Every other file is patched after a backup of its pre-run content, unless a backup already existed. Nothing else changes. |
| Driver.RunRestoreEffect | patches/space-engineers-2/patch.py:194-200 | A restore run exits 0. Each file with a backup becomes equal to the backup. Files without a backup keep their content. Every non-target path is unchanged. |
| Driver.RunApplyPatchesAll | patches/space-engineers-2/patch.py:202-226 | An apply run that passes the unknown-version gate exits 0. Afterwards every table file is present and classifies as `Patched`. This holds on the all-patched shortcut and on the write loop alike. |
| Driver.RunApplyTwice | patches/space-engineers-2/patch.py:202-226 | After an apply run that passes the unknown-version gate, a second apply run, with any answer to the prompt, exits 0 and writes nothing. |
| Driver.RunApplyThenRestore | patches/space-engineers-2/patch.py:194-226 | An apply run, with any outcome, followed by a restore run: the restore run exits 0, and every table file that had no backup before the apply run gets back its exact pre-apply content. Other files and backups may hold anything. |
| Driver.RunConfirmedUnknownIsWritten | patches/space-engineers-2/patch.py:202-226 | When the user confirms past an unknown status, that file is still backed up and overwritten with the patched bytes. |

## Left out

- `find_game_path` is left out. It searches the CrossOver bottle folders and is pure filesystem lookup, so the game folder is a parameter.
- `get_file_hash` is left out. It computes an MD5 in a foreign library, and nothing uses the result.
- Command-line parsing, all printed reporting (including the status-string table) and the `sys.exit` mechanics are left out. The switches are boolean parameters of `Driver.Run`, and the exit status is a field of `Outcome`.
- The `input()` prompt is the boolean `confirm`. The test `response.lower() != 'y'` is not modelled character by character.
- The `game_path.exists()` check on the folder itself is left out, because the filesystem map holds files, not folders. The missing-file check over the table is modelled.
- Path handling is simplified. `dir / name` is plain `dir + "/" + name`, without `pathlib` normalisation.
- File metadata copied by `shutil.copy2` (timestamps, permissions) is left out. Only byte content is modelled.
- OS-level I/O failures are not modelled: permission errors, a full disk, or a file that vanishes mid-run. Preconditions state the existence the code relies on. `CheckPatchStatus` and `ApplyPatch` require the file. `BackupFile` requires the file, or an existing backup in which case it copies nothing.
- The patch `description` is carried in the table but used only for printing.
- Driver.Statuses: the status dictionary keyed by file name is a sequence in table order. The file names are distinct, so the two carry the same information.

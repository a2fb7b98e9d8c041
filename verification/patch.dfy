/**
 The patch table and the four per-file operations of the patcher: classify a
 file against a patch, overwrite the patched window, snapshot the file to its
 backup, and copy the backup back.
 */
module Patch {
  import opened ByteIO
  import opened Files

  /** One fixed-offset, same-length byte substitution. */
  datatype PatchInfo = PatchInfo(
    description: string,
    offset: nat,
    original: Bytes,
    patched: Bytes)

  /** A table row: the file name inside the game folder and its patch. */
  datatype Entry = Entry(fileName: string, info: PatchInfo)

  /** What a file holds at a patch's window. */
  datatype Status = Original | Patched | Unknown

  /** The result of a backup or restore: the new filesystem and the boolean the call returns. */
  datatype Effect = Effect(fs: FileSystem, ok: bool)

  /** The patch table of the tool, in its declaration order. */
  const PATCHES: seq<Entry> := [
    Entry("VRage.Render.dll", PatchInfo(
      "ForceAllAdaptersSupported - always return true",
      0x58588,
      [0x02, 0x7b, 0x58, 0x0d, 0x00, 0x04, 0x2a],
      [0x17, 0x00, 0x00, 0x00, 0x00, 0x00, 0x2a])),
    Entry("VRage.Render12.dll", PatchInfo(
      "IsSupported bypass - skip GPU compatibility check",
      0x81FF2,
      [0x02, 0x28, 0xe4, 0x14, 0x00, 0x06],
      [0x00, 0x17, 0x00, 0x00, 0x00, 0x00]))
  ]

  /** The two patterns have the same length and can be told apart. */
  predicate WellFormedInfo(info: PatchInfo) {
    && |info.original| == |info.patched|
    && info.original != info.patched
  }

  /**
   Every patch is well formed, file names are distinct, and no file name is
   the backup name of another: so the targets and backups of all rows are
   pairwise distinct paths in any folder.
   */
  predicate WellFormedTable(t: seq<Entry>) {
    && (forall j :: 0 <= j < |t| ==> WellFormedInfo(t[j].info))
    && (forall j, k :: 0 <= j < k < |t| ==> t[j].fileName != t[k].fileName)
    && (forall j, k :: 0 <= j < |t| && 0 <= k < |t| ==> t[j].fileName != BackupPath(t[k].fileName))
  }

  /** The tool's own table satisfies every invariant the rest of the model relies on. */
  lemma PatchesWellFormed()
    ensures |PATCHES| == 2
    ensures WellFormedTable(PATCHES)
  {
  }

  /**
   Read `len(original)` bytes at the patch offset and compare them exactly,
   first against the original pattern, then against the patched one.
   */
  function CheckPatchStatus(fs: FileSystem, path: Path, info: PatchInfo): (s: Status)
    requires path in fs
    ensures s == Original <==> Matches(fs[path], info.offset, info.original)
    ensures s == Patched <==>
              && !Matches(fs[path], info.offset, info.original)
              && ReadAt(fs[path], info.offset, |info.original|) == info.patched
    ensures |info.patched| == |info.original| ==>
              (s == Patched <==>
                 !Matches(fs[path], info.offset, info.original) && Matches(fs[path], info.offset, info.patched))
  {
    var current := ReadAt(fs[path], info.offset, |info.original|);
    ReadAtMatches(fs[path], info.offset, info.original);
    ReadAtMatches(fs[path], info.offset, info.patched);
    if current == info.original then Original
    else if current == info.patched then Patched
    else Unknown
  }

  /**
   Seek to the patch offset and write the patched bytes over the file, in
   place. Only the target file changes.
   */
  function ApplyPatch(fs: FileSystem, path: Path, info: PatchInfo): (r: FileSystem)
    requires path in fs
    ensures r.Keys == fs.Keys
    ensures forall q :: q != path ==> SameAt(fs, r, q)
    ensures Matches(r[path], info.offset, info.patched)
    ensures info.offset + |info.patched| <= |fs[path]| ==>
              && |r[path]| == |fs[path]|
              && forall i :: 0 <= i < |fs[path]| && !(info.offset <= i < info.offset + |info.patched|) ==>
                   r[path][i] == fs[path][i]
  {
    WriteAtThenMatches(fs[path], info.offset, info.patched);
    fs[path := WriteAt(fs[path], info.offset, info.patched)]
  }

  /**
   Copy the file to its backup unless a backup is already there. The call
   always reports success and never touches the file itself. The copy needs
   the file only when it actually happens.
   */
  function BackupFile(fs: FileSystem, path: Path): (e: Effect)
    requires path in fs || BackupPath(path) in fs
    ensures e.ok
    ensures SameAt(fs, e.fs, path)
    ensures BackupPath(path) in fs ==> e.fs == fs
    ensures BackupPath(path) !in fs ==>
              && e.fs.Keys == fs.Keys + {BackupPath(path)}
              && e.fs[BackupPath(path)] == fs[path]
              && forall q :: q != BackupPath(path) ==> SameAt(fs, e.fs, q)
  {
    BackupPathIsOther(path);
    if BackupPath(path) !in fs then Effect(fs[BackupPath(path) := fs[path]], true)
    else Effect(fs, true)
  }

  /**
   Copy the backup back over the file and report success, or report failure
   and change nothing when there is no backup. The backup itself is kept.
   */
  function RestoreFile(fs: FileSystem, path: Path): (e: Effect)
    ensures e.ok <==> BackupPath(path) in fs
    ensures !e.ok ==> e.fs == fs
    ensures e.ok ==>
              && e.fs.Keys == fs.Keys + {path}
              && e.fs[path] == fs[BackupPath(path)]
              && forall q :: q != path ==> SameAt(fs, e.fs, q)
  {
    if BackupPath(path) in fs then Effect(fs[path := fs[BackupPath(path)]], true)
    else Effect(fs, false)
  }

  /**
   The window is too short to hold a non-empty pattern once the file ends
   before it: such a file is never classified as original or patched.
   */
  lemma TruncatedIsUnknown(fs: FileSystem, path: Path, info: PatchInfo)
    requires path in fs
    requires 0 < |info.original| == |info.patched|
    requires |fs[path]| < info.offset + |info.original|
    ensures CheckPatchStatus(fs, path, info) == Unknown
  {
  }

  /** After a patch is applied, classifying the file against it yields `Patched`. */
  lemma ApplyThenCheckIsPatched(fs: FileSystem, path: Path, info: PatchInfo)
    requires path in fs
    requires WellFormedInfo(info)
    ensures CheckPatchStatus(ApplyPatch(fs, path, info), path, info) == Patched
  {
  }

  /** Applying a patch a second time leaves the filesystem as the first application did. */
  lemma ApplyPatchIdempotent(fs: FileSystem, path: Path, info: PatchInfo)
    requires path in fs
    ensures ApplyPatch(ApplyPatch(fs, path, info), path, info) == ApplyPatch(fs, path, info)
  {
    WriteAtIdempotent(fs[path], info.offset, info.patched);
  }

  /** A second backup call changes nothing: the first snapshot is never refreshed. */
  lemma BackupFileIdempotent(fs: FileSystem, path: Path)
    requires path in fs || BackupPath(path) in fs
    ensures BackupFile(BackupFile(fs, path).fs, path) == BackupFile(fs, path)
  {
  }

  /**
   Backing up a file that has no backup yet, patching it, then restoring it
   gives back the file's exact content and keeps the snapshot.
   */
  lemma BackupApplyRestore(fs: FileSystem, path: Path, info: PatchInfo)
    requires path in fs
    requires BackupPath(path) !in fs
    ensures var patched := ApplyPatch(BackupFile(fs, path).fs, path, info);
            var restored := RestoreFile(patched, path);
            && restored.ok
            && restored.fs == fs[BackupPath(path) := fs[path]]
  {
  }
}

/**
 The filesystem as the patcher sees it: a map from path to byte content.
 Paths are strings; a file inside the game folder is `dir + "/" + name`, and
 the backup of a file lives beside it under the fixed suffix `.backup`.
 */
module Files {
  import opened ByteIO

  type Path = string
  type FileSystem = map<Path, Bytes>

  const BackupSuffix: string := ".backup"

  /**
   Where the backup of `p` is kept: `p` with `.backup` appended. Its facts
   are the lemmas below, so that they are brought in only where a proof
   needs them.
   */
  function BackupPath(p: Path): Path
  {
    p + BackupSuffix
  }

  /** The path of the file `name` inside the folder `dir`. */
  function Join(dir: Path, name: string): Path
  {
    dir + "/" + name
  }

  /** `q` is present in both filesystems with the same content, or absent from both. */
  predicate SameAt(before: FileSystem, after: FileSystem, q: Path) {
    && (q in after <==> q in before)
    && (q in before ==> after[q] == before[q])
  }

  /** A backup path never names the file it backs up. */
  lemma BackupPathIsOther(p: Path)
    ensures BackupPath(p) != p
  {
  }

  /** Two files share a backup path exactly when they are the same file. */
  lemma BackupPathInjective(p: Path, q: Path)
    ensures BackupPath(p) == BackupPath(q) <==> p == q
  {
    if BackupPath(p) == BackupPath(q) {
      assert |p| == |BackupPath(p)| - |BackupSuffix| == |q|;
      assert p == BackupPath(p)[..|p|] == BackupPath(q)[..|q|] == q;
    }
  }

  /** Two names in one folder give the same path exactly when they are the same name. */
  lemma JoinInjective(dir: Path, a: string, b: string)
    ensures Join(dir, a) == Join(dir, b) <==> a == b
  {
    if Join(dir, a) == Join(dir, b) {
      assert |a| == |Join(dir, a)| - |dir| - 1 == |b|;
      assert a == Join(dir, a)[|dir| + 1..] == Join(dir, b)[|dir| + 1..] == b;
    }
  }

  /** Backing up a file of a folder is the same as naming its backup in that folder. */
  lemma BackupOfJoin(dir: Path, name: string)
    ensures BackupPath(Join(dir, name)) == Join(dir, BackupPath(name))
  {
  }
}

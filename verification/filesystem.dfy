/** An abstract view of the disk and of the few `os` calls the installer
    makes. The disk is the set of paths that exist; `locked` holds the paths
    the operating system refuses to create, rename or delete (permissions, a
    handle held open by a running program); `unstatable` holds paths whose
    `os.Stat` fails with an error other than "does not exist". */
module FileSystem {
  import opened Base

  type Path = string

  datatype FileSystem = FileSystem(paths: set<Path>, locked: set<Path>, unstatable: set<Path>)

  /** A filesystem after an operation that may fail, with whether it succeeded. */
  datatype Outcome = Outcome(fs: FileSystem, ok: bool)

  /** path.Join of a directory and one element, for inputs already in clean form. */
  function Join(dir: Path, name: string): Path {
    if name == "" then dir
    else if dir == "" then name
    else dir + "/" + name
  }

  /** `q` lies strictly inside the directory `p`. */
  predicate IsUnder(q: Path, p: Path) {
    |q| > |p| + 1 && q[..|p|] == p && q[|p|] == '/'
  }

  predicate HasChildren(fs: FileSystem, p: Path) {
    exists q :: q in fs.paths && IsUnder(q, p)
  }

  datatype StatResult = Found | Missing | StatFailed

  /** os.Stat: the empty path never exists. */
  function Stat(fs: FileSystem, p: Path): StatResult {
    if p != "" && p in fs.paths then Found
    else if p != "" && p in fs.unstatable then StatFailed
    else Missing
  }

  /** The disk once the paths `gone` no longer exist: a deleted path is
      reported as absent by a later stat. */
  function Forget(fs: FileSystem, gone: set<Path>): FileSystem {
    fs.(paths := fs.paths - gone, unstatable := fs.unstatable - gone)
  }

  /** os.Remove: deletes one file or one empty directory. */
  function Remove(fs: FileSystem, p: Path): Option<FileSystem> {
    if p != "" && p in fs.paths && p !in fs.locked && !HasChildren(fs, p) then
      Some(Forget(fs, {p}))
    else None
  }

  /** os.Mkdir of a single directory. */
  function Mkdir(fs: FileSystem, p: Path): Option<FileSystem> {
    if p == "" || p in fs.paths || p in fs.locked then None
    else Some(fs.(paths := fs.paths + {p}))
  }

  /** os.Create: creates or truncates a regular file. */
  function Create(fs: FileSystem, p: Path): Option<FileSystem> {
    if p == "" || p in fs.locked || HasChildren(fs, p) then None
    else Some(fs.(paths := fs.paths + {p}))
  }

  /** os.Rename of a file over `to`, replacing whatever file was there. */
  function Rename(fs: FileSystem, from: Path, to: Path): Option<FileSystem> {
    if from !in fs.paths || from in fs.locked || to == "" || to in fs.locked || HasChildren(fs, to) then None
    else Some(fs.(paths := fs.paths - {from} + {to}, unstatable := fs.unstatable - {from}))
  }

  /** The existing paths at or below `p`. */
  function Subtree(fs: FileSystem, p: Path): set<Path> {
    set q | q in fs.paths && (q == p || IsUnder(q, p))
  }

  /** A path that cannot go: it is locked itself or holds a locked path. */
  predicate Pinned(fs: FileSystem, q: Path) {
    q in fs.locked || exists l :: l in fs.paths && l in fs.locked && IsUnder(l, q)
  }

  /** os.RemoveAll: deletes everything at or below `p` that can be deleted and
      reports an error if anything remains. The empty path is a no-op, and a
      path whose stat fails is an error with nothing deleted. It succeeds
      exactly when nothing in the subtree is pinned; every path of the
      subtree that is not pinned goes, every pinned path stays, and nothing
      outside the subtree is touched. */
  function RemoveAll(fs: FileSystem, p: Path): (r: Outcome)
    ensures r.fs.locked == fs.locked
    ensures r.fs.unstatable == fs.unstatable - (fs.paths - r.fs.paths)
    ensures r.fs.paths <= fs.paths
    ensures fs.paths - r.fs.paths <= Subtree(fs, p)
    ensures r.ok <==> p == "" || (Stat(fs, p) != StatFailed && forall q :: q in Subtree(fs, p) ==> !Pinned(fs, q))
    ensures Stat(fs, p) == StatFailed ==> r.fs == fs
    ensures forall q :: q in fs.paths && Pinned(fs, q) ==> q in r.fs.paths
    ensures p != "" && Stat(fs, p) != StatFailed ==>
      forall q :: q in Subtree(fs, p) && !Pinned(fs, q) ==> q !in r.fs.paths
    ensures r.ok && p != "" ==> Stat(r.fs, p) == Missing
    ensures r.ok && p != "" ==> forall q :: q in r.fs.paths ==> !IsUnder(q, p)
  {
    if p == "" then Outcome(fs, true)
    else if p !in fs.paths && p in fs.unstatable then Outcome(fs, false)
    else
      var doomed := Subtree(fs, p);
      var kept := set q | q in doomed && Pinned(fs, q);
      assert p in fs.paths ==> p in doomed;
      assert kept == {} <==> forall q :: q in doomed ==> !Pinned(fs, q) by {
        if kept != {} {
          var q :| q in kept;
          assert q in doomed && Pinned(fs, q);
        }
        forall q | q in doomed && Pinned(fs, q) ensures q in kept {
        }
      }
      Outcome(Forget(fs, doomed - kept), kept == {})
  }

  /** Joining a directory with two different names gives two different paths. */
  lemma JoinInjective(dir: Path, a: string, b: string)
    requires a != "" && b != ""
    requires Join(dir, a) == Join(dir, b)
    ensures a == b
  {
    if dir != "" {
      assert (dir + "/" + a)[|dir| + 1..] == a;
      assert (dir + "/" + b)[|dir| + 1..] == b;
    }
  }

  /** A joined path lies inside its directory. */
  lemma JoinIsUnder(dir: Path, name: string)
    requires dir != "" && name != ""
    ensures IsUnder(Join(dir, name), dir)
  {
    assert (dir + "/" + name)[..|dir|] == dir;
  }

  /** os.Remove as os.Stat sees it: it succeeds exactly on an existing,
      unlocked path with nothing inside; afterwards that path is reported
      absent and every other path is reported as before. */
  lemma RemoveObserved(fs: FileSystem, p: Path)
    ensures Remove(fs, p).Some? <==> Stat(fs, p) == Found && p !in fs.locked && !HasChildren(fs, p)
    ensures Remove(fs, p).Some? ==>
      && Stat(Remove(fs, p).value, p) == Missing
      && Remove(fs, p).value.locked == fs.locked
      && forall q :: q != p ==> Stat(Remove(fs, p).value, q) == Stat(fs, q)
  {
  }

  /** os.Mkdir as os.Stat sees it: it fails on the empty path, an existing
      path or a locked one; afterwards the new directory is reported present
      and every other path as before. */
  lemma MkdirObserved(fs: FileSystem, p: Path)
    ensures Mkdir(fs, p).Some? <==> Stat(fs, p) != Found && p != "" && p !in fs.locked
    ensures Mkdir(fs, p).Some? ==>
      && Stat(Mkdir(fs, p).value, p) == Found
      && forall q :: q != p ==> Stat(Mkdir(fs, p).value, q) == Stat(fs, q)
  {
  }

  /** Removing a directory that was just created restores the disk. */
  lemma RemoveUndoesMkdir(fs: FileSystem, p: Path)
    requires Mkdir(fs, p).Some? && p !in fs.unstatable && !HasChildren(fs, p)
    ensures Remove(Mkdir(fs, p).value, p) == Some(fs)
  {
    var made := Mkdir(fs, p).value;
    assert !HasChildren(made, p) by {
      forall q | q in made.paths ensures !IsUnder(q, p) {
        if q == p {
          assert |q| <= |p| + 1;
        } else {
          assert q in fs.paths;
        }
      }
    }
    assert Forget(made, {p}).paths == fs.paths;
    assert Forget(made, {p}).unstatable == fs.unstatable;
  }

  /** os.Create and os.Rename as os.Stat sees them: a created file is
      reported present; a renamed file is reported at its new name and no
      longer at its old one; nothing else changes. */
  lemma CreateRenameObserved(fs: FileSystem, p: Path, from: Path, to: Path)
    ensures Create(fs, p).Some? ==>
      && Stat(Create(fs, p).value, p) == Found
      && forall q :: q != p ==> Stat(Create(fs, p).value, q) == Stat(fs, q)
    ensures Rename(fs, from, to).Some? && from != to ==>
      Stat(Rename(fs, from, to).value, from) == Missing
    ensures Rename(fs, from, to).Some? ==>
      && Stat(Rename(fs, from, to).value, to) == Found
      && forall q :: q != from && q != to ==> Stat(Rename(fs, from, to).value, q) == Stat(fs, q)
  {
  }
}

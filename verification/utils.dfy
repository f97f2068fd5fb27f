/** The helpers of the install package: existence checks, the removal walks
    used by preparation, clean-up and uninstall, the temp-file-then-rename
    download, the per-OS settings and the paths of the unpacked payload. */
module Utils {
  import opened Base
  import opened FileSystem

  /** fileExists: only a "does not exist" stat error means absent; any other
      stat error counts as present. */
  predicate FileExists(fs: FileSystem, p: Path)
    ensures FileExists(fs, p) <==> p != "" && (p in fs.paths || p in fs.unstatable)
  {
    Stat(fs, p) != Missing
  }

  /** The non-empty entries of a list of paths. */
  function Removable(ps: seq<Path>): set<Path> {
    set p | p in ps && p != ""
  }

  /** The result of a removal walk: the disk afterwards, and the index of the
      entry whose removal failed (the walk stops there), if any. */
  datatype Removal = Removal(fs: FileSystem, failedAt: Option<nat>)

  /** The walk stopped at entry `k`: that entry exists but cannot be removed,
      and exactly the non-empty entries before it are gone. */
  ghost predicate StoppedAt(fs: FileSystem, ps: seq<Path>, r: Removal)
  {
    && r.failedAt.Some?
    && r.failedAt.value < |ps|
    && ps[r.failedAt.value] != ""
    && FileExists(r.fs, ps[r.failedAt.value])
    && Remove(r.fs, ps[r.failedAt.value]).None?
    && r.fs.paths == fs.paths - Removable(ps[..r.failedAt.value])
  }

  /** removeFolders: removes each listed path with os.Remove, in order, skipping
      empty and absent entries, and stops at the first one it cannot remove.
      Nothing is removed recursively and nothing unlisted is touched. */
  function RemoveFolders(fs: FileSystem, ps: seq<Path>): (r: Removal)
    ensures r.fs.locked == fs.locked
    ensures r.fs.unstatable == fs.unstatable - (fs.paths - r.fs.paths)
    ensures r.fs.paths <= fs.paths
    ensures fs.paths - r.fs.paths <= Removable(ps)
    ensures fs.paths * fs.locked <= r.fs.paths
    ensures forall p, q :: p in fs.paths && p !in r.fs.paths && q in r.fs.paths ==> !IsUnder(q, p)
    ensures r.failedAt.None? ==> r.fs.paths == fs.paths - Removable(ps)
    ensures r.failedAt.None? ==> forall p :: p in Removable(ps) ==> !FileExists(r.fs, p)
    ensures r.failedAt.Some? ==> StoppedAt(fs, ps, r)
    decreases |ps|
  {
    if |ps| == 0 then Removal(fs, None)
    else
      var p := ps[0];
      assert forall k :: 0 <= k < |ps| - 1 ==> ps[..k + 1] == [p] + ps[1..][..k];
      assert ps == [p] + ps[1..];
      if FileExists(fs, p) && p != "" then
        match Remove(fs, p)
        case None => Removal(fs, Some(0))
        case Some(fs1) =>
          var rest := RemoveFolders(fs1, ps[1..]);
          Removal(rest.fs, if rest.failedAt.Some? then Some(rest.failedAt.value + 1) else None)
      else
        var rest := RemoveFolders(fs, ps[1..]);
        Removal(rest.fs, if rest.failedAt.Some? then Some(rest.failedAt.value + 1) else None)
  }

  /** Entry `i` of a removal walk can be removed when the walk gets to it:
      it is not locked, its stat does not fail, and everything inside it is
      an entry listed before it. */
  predicate GoesInTurn(fs: FileSystem, ps: seq<Path>, i: nat)
    requires i < |ps|
  {
    ps[i] == "" ||
      (&& ps[i] !in fs.locked
       && (ps[i] in fs.unstatable ==> ps[i] in fs.paths)
       && forall q :: q in fs.paths && IsUnder(q, ps[i]) ==> q in Removable(ps[..i]))
  }

  /** A walk in which every entry can be removed in its turn meets no
      failure. */
  lemma {:induction false} RemoveFoldersSucceeds(fs: FileSystem, ps: seq<Path>)
    requires forall i :: 0 <= i < |ps| ==> GoesInTurn(fs, ps, i)
    ensures RemoveFolders(fs, ps).failedAt.None?
    decreases |ps|
  {
    if |ps| > 0 {
      var p := ps[0];
      assert GoesInTurn(fs, ps, 0);
      var next := if FileExists(fs, p) && p != "" then Forget(fs, {p}) else fs;
      if FileExists(fs, p) && p != "" {
        assert Removable(ps[..0]) == {};
        assert !HasChildren(fs, p);
        assert Remove(fs, p) == Some(next);
      }
      forall i | 0 <= i < |ps| - 1 ensures GoesInTurn(next, ps[1..], i) {
        assert GoesInTurn(fs, ps, i + 1);
        assert ps[..i + 1] == [p] + ps[1..][..i];
        if ps[i + 1] != "" {
          forall q | q in next.paths && IsUnder(q, ps[1..][i]) ensures q in Removable(ps[1..][..i]) {
            assert q in Removable(ps[..i + 1]);
          }
        }
      }
      RemoveFoldersSucceeds(next, ps[1..]);
    }
  }

  /** On a disk with nothing locked or unstatable, a walk over childless
      entries removes each in its turn. */
  lemma ChildlessGoInTurn(fs: FileSystem, ps: seq<Path>)
    requires fs.locked == {} && fs.unstatable == {}
    requires forall p :: p in Removable(ps) ==> !HasChildren(fs, p)
    ensures forall i :: 0 <= i < |ps| ==> GoesInTurn(fs, ps, i)
  {
    forall i | 0 <= i < |ps| ensures GoesInTurn(fs, ps, i) {
      if ps[i] != "" {
        assert ps[i] in Removable(ps);
      }
    }
  }

  /** The path removeFiles looks at for `name` inside `dir`; an empty name
      stands for no path at all. */
  function FileTarget(dir: Path, name: string): Path {
    if name == "" then "" else Join(dir, name)
  }

  function FileTargets(dir: Path, names: seq<string>): (ps: seq<Path>)
    ensures |ps| == |names|
    ensures forall i :: 0 <= i < |names| ==> ps[i] == FileTarget(dir, names[i])
  {
    seq(|names|, i requires 0 <= i < |names| => FileTarget(dir, names[i]))
  }

  /** The paths `dir/name` for the non-empty names of the list. */
  function Targets(dir: Path, names: seq<string>): set<Path> {
    set n | n in names && n != "" :: Join(dir, n)
  }

  lemma FileTargetsAgree(dir: Path, names: seq<string>, k: nat)
    requires k <= |names|
    ensures Removable(FileTargets(dir, names)) == Targets(dir, names)
    ensures FileTargets(dir, names)[..k] == FileTargets(dir, names[..k])
  {
    var ps := FileTargets(dir, names);
    forall p | p in Removable(ps) ensures p in Targets(dir, names) {
      var i :| 0 <= i < |ps| && ps[i] == p;
      assert names[i] in names;
    }
    forall p | p in Targets(dir, names) ensures p in Removable(ps) {
      var n :| n in names && n != "" && Join(dir, n) == p;
      var i :| 0 <= i < |names| && names[i] == n;
      assert ps[i] == p;
    }
  }

  /** removeFiles: removes `dir/name` for each listed name, in order, skipping
      empty names and absent files, and stops at the first failure without
      attempting the names after it. Only listed paths are touched. */
  function RemoveFiles(fs: FileSystem, dir: Path, names: seq<string>): (r: Removal)
    ensures r.fs.locked == fs.locked
    ensures r.fs.unstatable == fs.unstatable - (fs.paths - r.fs.paths)
    ensures r.fs.paths <= fs.paths
    ensures fs.paths - r.fs.paths <= Targets(dir, names)
    ensures fs.paths * fs.locked <= r.fs.paths
    ensures forall p, q :: p in fs.paths && p !in r.fs.paths && q in r.fs.paths ==> !IsUnder(q, p)
    ensures r.failedAt.None? ==> r.fs.paths == fs.paths - Targets(dir, names)
    ensures r.failedAt.None? ==> forall p :: p in Targets(dir, names) ==> !FileExists(r.fs, p)
    ensures r.failedAt.Some? ==>
      && r.failedAt.value < |names|
      && names[r.failedAt.value] != ""
      && FileExists(r.fs, Join(dir, names[r.failedAt.value]))
      && Remove(r.fs, Join(dir, names[r.failedAt.value])).None?
      && r.fs.paths == fs.paths - Targets(dir, names[..r.failedAt.value])
  {
    var r := RemoveFolders(fs, FileTargets(dir, names));
    FileTargetsAgree(dir, names, if r.failedAt.Some? then r.failedAt.value else 0);
    r
  }

  /** removeFile: the single-name case; an empty name or an absent file is a
      successful no-op. */
  function RemoveFile(fs: FileSystem, dir: Path, name: string): (r: Outcome)
    ensures name == "" || !FileExists(fs, Join(dir, name)) ==> r == Outcome(fs, true)
    ensures r.ok <==> name == "" || !FileExists(fs, Join(dir, name)) || Remove(fs, Join(dir, name)).Some?
    ensures r.fs == (if r.ok && name != "" then Forget(fs, {Join(dir, name)}) else fs)
  {
    var p := Join(dir, name);
    if FileExists(fs, p) && name != "" then
      match Remove(fs, p)
      case None => Outcome(fs, false)
      case Some(fs1) => Outcome(fs1, true)
    else Outcome(fs, true)
  }

  /** removeFile agrees with removeFiles on a one-name list. */
  lemma RemoveFileIsSingleRemoveFiles(fs: FileSystem, dir: Path, name: string)
    ensures RemoveFile(fs, dir, name).fs == RemoveFiles(fs, dir, [name]).fs
    ensures RemoveFile(fs, dir, name).ok <==> RemoveFiles(fs, dir, [name]).failedAt.None?
  {
    var ps := FileTargets(dir, [name]);
    assert ps == [FileTarget(dir, name)];
    assert ps[1..] == [];
  }

  /** A second removal pass over the same names, after a pass that met no
      failure, finds nothing to remove and reports no failure. */
  lemma RemoveFilesIdempotent(fs: FileSystem, dir: Path, names: seq<string>)
    requires RemoveFiles(fs, dir, names).failedAt.None?
    ensures var once := RemoveFiles(fs, dir, names).fs;
            RemoveFiles(once, dir, names) == Removal(once, None)
  {
  }

  /** How the HTTP transfer behind a download went. */
  datatype NetOutcome = GetFailed | BodyCopyFailed | Received

  function TmpPath(filePath: Path): Path { filePath + ".tmp" }

  /** downloadFile: creates `filePath.tmp`, streams the response into it and
      renames it over `filePath`. The destination changes only through that
      final rename; any earlier failure leaves it as it was, possibly with the
      temporary file left behind. */
  function DownloadFile(fs: FileSystem, filePath: Path, net: NetOutcome): (r: Outcome)
    ensures r.fs.locked == fs.locked && r.fs.unstatable <= fs.unstatable
    ensures forall p :: p != filePath && p != TmpPath(filePath) ==> (p in r.fs.paths <==> p in fs.paths)
    ensures !r.ok ==> (filePath in r.fs.paths <==> filePath in fs.paths)
    ensures r.ok ==> filePath in r.fs.paths && TmpPath(filePath) !in r.fs.paths
    ensures r.ok <==> (&& net == Received && Create(fs, TmpPath(filePath)).Some?
                       && filePath != "" && filePath !in fs.locked && !HasChildren(fs, filePath))
    ensures !r.ok && Create(fs, TmpPath(filePath)).Some? ==> TmpPath(filePath) in r.fs.paths
  {
    var tmp := TmpPath(filePath);
    assert tmp != filePath by { assert |tmp| == |filePath| + 4; }
    match Create(fs, tmp)
    case None => Outcome(fs, false)
    case Some(fs1) =>
      assert HasChildren(fs1, filePath) <==> HasChildren(fs, filePath) by {
        assert !IsUnder(tmp, filePath) by {
          if |tmp| > |filePath| + 1 { assert tmp[|filePath|] == '.'; }
        }
      }
      if net != Received then Outcome(fs1, false)
      else
        match Rename(fs1, tmp, filePath)
        case None => Outcome(fs1, false)
        case Some(fs2) => Outcome(fs2, true)
  }

  /** getDefaultDagFolderPath: the `.dag` folder in the user's home directory,
      or the empty path when the home directory cannot be determined. A home
      directory, when known, is never empty. */
  function DefaultDagFolderPath(home: Option<string>): (r: Path)
    requires home.Some? ==> home.value != ""
    ensures r == "" <==> home.None?
    ensures home.Some? ==> r == Join(home.value, ".dag")
  {
    match home
    case None => ""
    case Some(h) => h + "/.dag"
  }

  /** The per-OS settings record. */
  datatype Settings = Settings(
    osBuild: string,
    fileExt: string,
    binaryPath: Path,
    startMenuPath: Path,
    desktopPath: Path,
    shortcutPath: Path)

  const ShortcutName: string := "Molly Wallet.lnk"
  const UnixBinaryPath: Path := "usr/local/bin/mollywallet"
  const StartMenuSubpath: Path := "AppData/Roaming/Microsoft/Windows/Start Menu/Programs"

  predicate IsSupported(goos: string) {
    goos == "darwin" || goos == "linux" || goos == "windows"
  }

  /** getOSSpecificSettings: total on every OS name. A failed home lookup is
      only logged; the home directory then counts as the empty path. */
  function OsSettings(goos: string, home: Option<string>): (s: Settings)
    requires home.Some? ==> home.value != ""
    ensures IsSupported(goos) ==> s.osBuild == goos
    ensures !IsSupported(goos) ==> s.osBuild == "unsupported"
    ensures s.fileExt == (if goos == "windows" then ".exe" else "")
    ensures goos == "darwin" || goos == "linux" ==> s.binaryPath == UnixBinaryPath
    ensures goos == "windows" ==> s.binaryPath == Join(DefaultDagFolderPath(home), "mollywallet.exe")
    ensures !IsSupported(goos) ==> s.binaryPath == DefaultDagFolderPath(home)
    ensures s.binaryPath == "" <==> !IsSupported(goos) && home.None?
    ensures s.shortcutPath != "" <==> goos == "windows"
    ensures goos == "windows" ==> s.shortcutPath == DefaultDagFolderPath(home) + "/" + ShortcutName
    ensures goos != "windows" ==> s.startMenuPath == "" && s.desktopPath == ""
    ensures goos == "windows" ==>
      && s.startMenuPath == Join(home.GetOr(""), StartMenuSubpath)
      && s.desktopPath == Join(home.GetOr(""), "Desktop")
  {
    var homeDir := home.GetOr("");
    match goos
    case "darwin" => Settings("darwin", "", UnixBinaryPath, "", "", "")
    case "linux" => Settings("linux", "", UnixBinaryPath, "", "", "")
    case "windows" =>
      Settings("windows", ".exe",
        Join(DefaultDagFolderPath(home), "mollywallet.exe"),
        Join(homeDir, StartMenuSubpath),
        Join(homeDir, "Desktop"),
        DefaultDagFolderPath(home) + "/" + ShortcutName)
    case _ => Settings("unsupported", "", DefaultDagFolderPath(home), "", "", "")
  }

  /** Where the archive's two executables are expected after extraction; the
      macOS application bundle path is never filled in. */
  datatype Contents = Contents(mollyBinaryPath: Path, updateBinaryPath: Path, mollyMacOSApp: Path)

  /** unzipArchive: extracts into `dst/new_build` (the extraction itself is an
      input) and names the main and update executables there, with `.exe`
      exactly on Windows. Whether the files exist is not checked. */
  function UnzipArchive(goos: string, dst: Path, extracted: bool): (r: Result<Contents, string>)
    ensures r.Ok? <==> extracted
    ensures r.Ok? ==>
      var ext := if goos == "windows" then ".exe" else "";
      && r.value.mollyBinaryPath == Join(Join(dst, "new_build"), "mollywallet" + ext)
      && r.value.updateBinaryPath == Join(Join(dst, "new_build"), "update" + ext)
      && r.value.mollyMacOSApp == ""
  {
    if !extracted then Err("unable to extract archive")
    else
      var fileExt := if goos == "windows" then ".exe" else "";
      var buildDir := Join(dst, "new_build");
      Ok(Contents(Join(buildDir, "mollywallet" + fileExt), Join(buildDir, "update" + fileExt), ""))
  }

  /** The payload's executable suffix is the one the settings record for the
      same OS, and the two executables sit side by side under distinct names. */
  lemma UnzipAgreesWithSettings(goos: string, home: Option<string>, dst: Path)
    requires home.Some? ==> home.value != ""
    ensures var c := UnzipArchive(goos, dst, true).value;
            var ext := OsSettings(goos, home).fileExt;
            && c.mollyBinaryPath == Join(Join(dst, "new_build"), "mollywallet" + ext)
            && c.updateBinaryPath == Join(Join(dst, "new_build"), "update" + ext)
            && c.mollyBinaryPath != c.updateBinaryPath
  {
    var c := UnzipArchive(goos, dst, true).value;
    var ext := OsSettings(goos, home).fileExt;
    if c.mollyBinaryPath == c.updateBinaryPath {
      JoinInjective(Join(dst, "new_build"), "mollywallet" + ext, "update" + ext);
    }
  }
}

/** The install steps of the installer: the session built at start-up, the
    download of the release archive and its checksum manifest, the checksum
    comparison, copying the new binaries into place with a countdown retry,
    and preparing and cleaning the filesystem around an install. */
module Install {
  import opened Base
  import opened FileSystem
  import opened Events
  import opened Utils
  import Version
  import Text

  /** The installer's session: where releases are downloaded from, the
      persistent `.dag` folder, the scratch `.tmp` folder and the OS settings. */
  datatype Session = Session(downloadUrl: string, dagFolder: Path, tmpFolder: Path, settings: Settings)

  const ReleaseDownloadUrl: string := "https://github.com/grvlle/constellation_wallet/releases/download"

  datatype InstallError =
    | HomeUnknown
    | LookupFailed(cause: Version.LookupError)
    | UnsupportedOs
    | DownloadFailed
    | ManifestUnreadable
    | ArchiveUnreadable

  /** Init: the session lives in the user's home directory; without a home
      directory there is no session. */
  function Init(goos: string, home: Option<string>): (r: Result<Session, InstallError>)
    requires home.Some? ==> home.value != ""
    ensures r.Ok? <==> home.Some?
    ensures home.None? ==> r == Err(HomeUnknown)
    ensures r.Ok? ==>
      && r.value.dagFolder == Join(home.value, ".dag")
      && r.value.tmpFolder == Join(home.value, ".tmp")
      && r.value.dagFolder != r.value.tmpFolder
      && r.value.dagFolder == DefaultDagFolderPath(home)
      && r.value.settings == OsSettings(goos, home)
  {
    match home
    case None => Err(HomeUnknown)
    case Some(h) =>
      assert Join(h, ".dag")[|h| + 2] == 'd' && Join(h, ".tmp")[|h| + 2] == 't';
      Ok(Session(ReleaseDownloadUrl, Join(h, ".dag"), Join(h, ".tmp"), OsSettings(goos, home)))
  }

  /** The URL of a release artifact: `<base>/v<version>-<osBuild>/<filename>`. */
  function ArtifactUrl(base: string, version: string, osBuild: string, filename: string): string {
    base + "/v" + version + "-" + osBuild + "/" + filename
  }

  /** A URL names one release and one OS: for five-character versions (the
      only kind the version lookup yields), equal URLs from the same base for
      the same file have the same version and the same OS build. */
  lemma ArtifactUrlDeterminesRelease(base: string, v1: string, os1: string, v2: string, os2: string, filename: string)
    requires |v1| == 5 && |v2| == 5
    requires ArtifactUrl(base, v1, os1, filename) == ArtifactUrl(base, v2, os2, filename)
    ensures v1 == v2 && os1 == os2
  {
    var u1 := ArtifactUrl(base, v1, os1, filename);
    var u2 := ArtifactUrl(base, v2, os2, filename);
    assert u1[|base| + 2..|base| + 7] == v1;
    assert u2[|base| + 2..|base| + 7] == v2;
    assert u1[|base| + 8..|u1| - |filename| - 1] == os1;
    assert u2[|base| + 8..|u2| - |filename| - 1] == os2;
  }

  /** The folder of a release on the download server: `<base>/v<version>-<osBuild>/`. */
  function ReleaseFolder(base: string, version: string, osBuild: string): string {
    base + "/v" + version + "-" + osBuild + "/"
  }

  /** The archive and the manifest are located by two separate version
      lookups, one in DownloadAppBinary and one in VerifyChecksum. The
      manifest comes from the archive's release folder exactly when the two
      lookups give the same version; a release published between them
      splits the pair. */
  lemma ManifestBesideArchive(s: Session, first: Version.Reply, second: Version.Reply)
    requires Version.TagUsable(first) && Version.TagUsable(second)
    requires Version.LatestRelease(first).Ok? && Version.LatestRelease(second).Ok?
    ensures var v1 := Version.LatestRelease(first).value;
            var v2 := Version.LatestRelease(second).value;
            var folder := ReleaseFolder(s.downloadUrl, v1, s.settings.osBuild);
            && ArtifactUrl(s.downloadUrl, v1, s.settings.osBuild, ArchiveName) == folder + ArchiveName
            && (ArtifactUrl(s.downloadUrl, v2, s.settings.osBuild, ManifestName) == folder + ManifestName <==> v1 == v2)
  {
    var v1 := Version.LatestRelease(first).value;
    var v2 := Version.LatestRelease(second).value;
    if ArtifactUrl(s.downloadUrl, v2, s.settings.osBuild, ManifestName) == ReleaseFolder(s.downloadUrl, v1, s.settings.osBuild) + ManifestName {
      ArtifactUrlDeterminesRelease(s.downloadUrl, v1, s.settings.osBuild, v2, s.settings.osBuild, ManifestName);
    }
  }

  /** Two lookups that straddle a release disagree, and the manifest then
      comes from a folder other than the archive's. */
  lemma LookupsStraddlingARelease(s: Session)
    ensures var older := Version.ReplyWithTag("v1.1.9");
            var newer := Version.ReplyWithTag("v1.2.0");
            ArtifactUrl(s.downloadUrl, Version.LatestRelease(newer).value, s.settings.osBuild, ManifestName)
              != ReleaseFolder(s.downloadUrl, Version.LatestRelease(older).value, s.settings.osBuild) + ManifestName
  {
    var older := Version.ReplyWithTag("v1.1.9");
    var newer := Version.ReplyWithTag("v1.2.0");
    assert "v1.1.9"[1..6] == "1.1.9";
    assert "v1.2.0"[1..6] == "1.2.0";
    ManifestBesideArchive(s, older, newer);
  }

  const ArchiveName: string := "mollywallet.zip"
  const ManifestName: string := "checksum.sha256"

  /** The disk after a step, the URLs requested during it, and its result. */
  datatype Fetched<T> = Fetched(fs: FileSystem, requested: seq<string>, result: Result<T, InstallError>)

  /** The requests downloadFile sends for `url` into `filePath`: one, once the
      temporary file could be created, and none otherwise, since the request
      follows the creation of the temporary file. */
  function RequestedOnce(fs: FileSystem, filePath: Path, url: string): (r: seq<string>)
    ensures r == [url] <==> Create(fs, TmpPath(filePath)).Some?
    ensures r == [] <==> Create(fs, TmpPath(filePath)).None?
  {
    if Create(fs, TmpPath(filePath)).Some? then [url] else []
  }

  /** DownloadAppBinary: looks up the version first (its failure is returned
      before the OS is checked), refuses an unsupported OS without
      downloading, and otherwise downloads the archive into the `.dag` folder. */
  function DownloadAppBinary(s: Session, reply: Version.Reply, fs: FileSystem, net: NetOutcome): (r: Fetched<Path>)
    requires Version.TagUsable(reply)
    ensures Version.LatestRelease(reply).Err? ==>
      r == Fetched(fs, [], Err(LookupFailed(Version.LatestRelease(reply).error)))
    ensures Version.LatestRelease(reply).Ok? && s.settings.osBuild == "unsupported" ==>
      r == Fetched(fs, [], Err(UnsupportedOs))
    ensures Version.LatestRelease(reply).Ok? && s.settings.osBuild != "unsupported" ==>
      && r.requested == RequestedOnce(fs, Join(s.dagFolder, ArchiveName),
           ArtifactUrl(s.downloadUrl, Version.LatestRelease(reply).value, s.settings.osBuild, ArchiveName))
      && r.fs == DownloadFile(fs, Join(s.dagFolder, ArchiveName), net).fs
      && (r.result.Ok? <==> DownloadFile(fs, Join(s.dagFolder, ArchiveName), net).ok)
    ensures r.result.Ok? ==> r.result.value == Join(s.dagFolder, ArchiveName) && r.result.value in r.fs.paths
  {
    match Version.LatestRelease(reply)
    case Err(e) => Fetched(fs, [], Err(LookupFailed(e)))
    case Ok(version) =>
      if s.settings.osBuild == "unsupported" then Fetched(fs, [], Err(UnsupportedOs))
      else
        var url := ArtifactUrl(s.downloadUrl, version, s.settings.osBuild, ArchiveName);
        var filePath := Join(s.dagFolder, ArchiveName);
        var d := DownloadFile(fs, filePath, net);
        Fetched(d.fs, RequestedOnce(fs, filePath, url), if d.ok then Ok(filePath) else Err(DownloadFailed))
  }

  /** The manifest's expected digest is `digest`: the text before the first
      newline of the manifest is exactly `digest`, with no trimming. */
  predicate ManifestNames(manifest: string, digest: string) {
    && '\n' !in digest
    && (digest == manifest || (|digest| < |manifest| && manifest[..|digest|] == digest && manifest[|digest|] == '\n'))
  }

  /** VerifyChecksum: downloads the manifest of the current release and
      compares its first line with the hex SHA-256 digest of the archive
      (the digest and the manifest's text are inputs; `None` stands for a
      failure to read them). A mismatch is `Ok(false)`, not an error. */
  function VerifyChecksum(s: Session, reply: Version.Reply, fs: FileSystem, net: NetOutcome,
                          manifest: Option<string>, digest: Option<string>): (r: Fetched<bool>)
    requires Version.TagUsable(reply)
    ensures Version.LatestRelease(reply).Err? ==>
      r == Fetched(fs, [], Err(LookupFailed(Version.LatestRelease(reply).error)))
    ensures Version.LatestRelease(reply).Ok? && s.settings.osBuild == "unsupported" ==>
      r == Fetched(fs, [], Err(UnsupportedOs))
    ensures Version.LatestRelease(reply).Ok? && s.settings.osBuild != "unsupported" ==>
      r.requested == RequestedOnce(fs, Join(s.dagFolder, ManifestName),
        ArtifactUrl(s.downloadUrl, Version.LatestRelease(reply).value, s.settings.osBuild, ManifestName))
    ensures r.result.Ok? <==>
      && Version.LatestRelease(reply).Ok? && s.settings.osBuild != "unsupported"
      && DownloadFile(fs, Join(s.dagFolder, ManifestName), net).ok
      && manifest.Some? && digest.Some?
    ensures r.result.Ok? ==> (r.result.value <==> ManifestNames(manifest.value, digest.value))
  {
    match Version.LatestRelease(reply)
    case Err(e) => Fetched(fs, [], Err(LookupFailed(e)))
    case Ok(version) =>
      if s.settings.osBuild == "unsupported" then Fetched(fs, [], Err(UnsupportedOs))
      else
        var url := ArtifactUrl(s.downloadUrl, version, s.settings.osBuild, ManifestName);
        var requested := RequestedOnce(fs, Join(s.dagFolder, ManifestName), url);
        var d := DownloadFile(fs, Join(s.dagFolder, ManifestName), net);
        if !d.ok then Fetched(d.fs, requested, Err(DownloadFailed))
        else if manifest.None? then Fetched(d.fs, requested, Err(ManifestUnreadable))
        else if digest.None? then Fetched(d.fs, requested, Err(ArchiveUnreadable))
        else
          var remote := Text.Split(manifest.value, '\n')[0];
          Text.FirstPiece(manifest.value, '\n', digest.value);
          Fetched(d.fs, requested, Ok(remote == digest.value))
  }

  /** A manifest whose first line carries a trailing carriage return or space
      does not match a digest, which never ends in either. */
  lemma TrailingWhitespaceMismatches(digest: string, trailer: char, rest: string)
    requires trailer == '\r' || trailer == ' '
    requires '\n' !in digest
    ensures !ManifestNames(digest + [trailer] + rest, digest)
  {
    var m := digest + [trailer] + rest;
    assert m[|digest|] == trailer;
    assert |m| > |digest|;
  }

  /** A manifest consisting of the digest on its own line matches it. */
  lemma DigestLineMatches(digest: string, rest: string)
    requires '\n' !in digest
    ensures ManifestNames(digest + "\n" + rest, digest)
  {
    var m := digest + "\n" + rest;
    assert m[..|digest|] == digest;
  }

  // ---- Replacing the installed binaries ----

  /** The main binary is copied once, then retried after sleeps of 5, 4, 3,
      2 and 1 seconds. */
  const Backoff: seq<nat> := [5, 4, 3, 2, 1]
  const MaxCopyAttempts: nat := 6

  /** The outcome of the `i`-th copy of the main binary (counting from 0);
      outcomes not supplied count as failures. */
  predicate AttemptSucceeds(results: seq<bool>, i: nat) {
    i < |results| && results[i]
  }

  /** How copying the main binary went: how many copies were attempted, the
      sleeps taken between them, and whether one succeeded. */
  datatype MainCopy = MainCopy(attempts: nat, delays: seq<nat>, copied: bool)

  /** The retry loop `for n := 5; n > 0; n--`, entered with counter `n`, after
      `6 - n` failed attempts: sleep `n` seconds, retry, leave on success. The
      loop's error return for `n == 0` sits inside the body, where `n > 0`,
      so it can never run and exhausting the retries reports nothing. */
  function RetryLoop(results: seq<bool>, n: nat): (r: MainCopy)
    requires n <= 5
    ensures MaxCopyAttempts - n <= r.attempts <= MaxCopyAttempts
    ensures r.delays == Backoff[5 - n..r.attempts - 1]
    ensures r.copied <==> exists i :: MaxCopyAttempts - n <= i < MaxCopyAttempts && AttemptSucceeds(results, i)
    ensures r.copied ==> AttemptSucceeds(results, r.attempts - 1)
    ensures forall i :: MaxCopyAttempts - n <= i < r.attempts - 1 ==> !AttemptSucceeds(results, i)
    decreases n
  {
    if n == 0 then MainCopy(MaxCopyAttempts, [], false)
    else
      var i := MaxCopyAttempts - n;
      if AttemptSucceeds(results, i) then MainCopy(i + 1, [n], true)
      else
        var rest := RetryLoop(results, n - 1);
        MainCopy(rest.attempts, [n] + rest.delays, rest.copied)
  }

  /** The first part of CopyAppBinaries: one attempt, then the countdown
      retries, stopping at the first success; at most six attempts. */
  function CopyMainBinary(results: seq<bool>): (r: MainCopy)
    ensures 1 <= r.attempts <= MaxCopyAttempts
    ensures r.delays == Backoff[..r.attempts - 1]
    ensures r.copied <==> exists i :: 0 <= i < MaxCopyAttempts && AttemptSucceeds(results, i)
    ensures r.copied ==> AttemptSucceeds(results, r.attempts - 1)
    ensures forall i :: 0 <= i < r.attempts - 1 ==> !AttemptSucceeds(results, i)
  {
    if AttemptSucceeds(results, 0) then MainCopy(1, [], true)
    else RetryLoop(results, 5)
  }

  function Total(delays: seq<nat>): nat
    decreases |delays|
  {
    if |delays| == 0 then 0 else delays[0] + Total(delays[1..])
  }

  /** Four failures then a success: five attempts and 5+4+3+2 = 14 seconds of
      sleep. */
  lemma FourFailuresThenSuccess()
    ensures var r := CopyMainBinary([false, false, false, false, true]);
            r.attempts == 5 && r.copied && Total(r.delays) == 14
  {
    var r := CopyMainBinary([false, false, false, false, true]);
    assert AttemptSucceeds([false, false, false, false, true], 4);
    assert r.delays == [5, 4, 3, 2];
    assert Total([2]) == 2;
    assert Total([3, 2]) == 5 by { assert [3, 2][1..] == [2]; }
    assert Total([4, 3, 2]) == 9 by { assert [4, 3, 2][1..] == [3, 2]; }
    assert Total([5, 4, 3, 2]) == 14 by { assert [5, 4, 3, 2][1..] == [4, 3, 2]; }
  }

  /** Every copy failing: six attempts, 15 seconds of sleep, nothing copied. */
  lemma AllCopiesFail(results: seq<bool>)
    requires forall i :: 0 <= i < |results| ==> !results[i]
    ensures var r := CopyMainBinary(results);
            r.attempts == MaxCopyAttempts && !r.copied && Total(r.delays) == 15
  {
    var r := CopyMainBinary(results);
    assert r.delays == Backoff;
  }

  /** One copy or shortcut operation of CopyAppBinaries. */
  datatype CopyOp = CopyFile(src: Path, dst: Path) | CopyTree(src: Path, dst: Path) | MakeShortcut(target: Path, link: Path)

  datatype CopyFailure = UpdateCopyFailed | BundleCopyFailed | ShortcutFailed | StartMenuCopyFailed | DesktopCopyFailed

  /** An operation, and the error CopyAppBinaries returns if it fails. */
  datatype Planned = Planned(op: CopyOp, failure: CopyFailure)

  /** The outcomes of the copy operations, which are library calls. */
  datatype CopyInputs = CopyInputs(
    mainAttempts: seq<bool>,
    updateCopyOk: bool,
    bundleCopyOk: bool,
    shortcutOk: bool,
    startMenuCopyOk: bool,
    desktopCopyOk: bool)

  predicate StepOk(inputs: CopyInputs, f: CopyFailure) {
    match f
    case UpdateCopyFailed => inputs.updateCopyOk
    case BundleCopyFailed => inputs.bundleCopyOk
    case ShortcutFailed => inputs.shortcutOk
    case StartMenuCopyFailed => inputs.startMenuCopyOk
    case DesktopCopyFailed => inputs.desktopCopyOk
  }

  function UpdateDestination(s: Session): Path {
    s.dagFolder + "/update" + s.settings.fileExt
  }

  /** The operations after the main binary: the update binary only if it is
      in the payload, the application bundle on macOS, and on Windows the
      shortcut followed by its copies to the start menu and the desktop. */
  function Plan(s: Session, goos: string, c: Contents, fs: FileSystem): seq<Planned> {
    (if FileExists(fs, c.updateBinaryPath) then [Planned(CopyFile(c.updateBinaryPath, UpdateDestination(s)), UpdateCopyFailed)] else [])
    + (if goos == "darwin" then [Planned(CopyTree(c.mollyMacOSApp, s.settings.shortcutPath), BundleCopyFailed)] else [])
    + (if goos == "windows" then
         [ Planned(MakeShortcut(s.settings.binaryPath, s.settings.shortcutPath), ShortcutFailed),
           Planned(CopyFile(s.settings.shortcutPath, Join(s.settings.startMenuPath, ShortcutName)), StartMenuCopyFailed),
           Planned(CopyFile(s.settings.shortcutPath, Join(s.settings.desktopPath, ShortcutName)), DesktopCopyFailed) ]
       else [])
  }

  function OpsOf(plan: seq<Planned>): (ops: seq<CopyOp>)
    ensures |ops| == |plan|
    ensures forall i :: 0 <= i < |plan| ==> ops[i] == plan[i].op
  {
    seq(|plan|, i requires 0 <= i < |plan| => plan[i].op)
  }

  datatype PlanRun = PlanRun(ops: seq<CopyOp>, error: Option<CopyFailure>)

  /** The index of the first planned operation from `k` on that fails, or
      the length of the plan when none does. */
  function FirstFailure(plan: seq<Planned>, inputs: CopyInputs, k: nat): (n: nat)
    requires k <= |plan|
    ensures k <= n <= |plan|
    ensures forall i :: k <= i < n ==> StepOk(inputs, plan[i].failure)
    ensures n < |plan| ==> !StepOk(inputs, plan[n].failure)
    decreases |plan| - k
  {
    if k == |plan| || !StepOk(inputs, plan[k].failure) then k
    else FirstFailure(plan, inputs, k + 1)
  }

  /** Operation `j` is the first of the plan that fails, and `error` is the
      error it stands for. */
  predicate StoppedBy(plan: seq<Planned>, inputs: CopyInputs, j: int, error: Option<CopyFailure>) {
    && 0 <= j < |plan|
    && error == Some(plan[j].failure)
    && !StepOk(inputs, plan[j].failure)
    && forall i :: 0 <= i < j ==> StepOk(inputs, plan[i].failure)
  }

  /** `ops` are the planned operations in order, up to and including the
      first that fails; `error` is that operation's error, or none when every
      operation succeeds and all were performed. */
  predicate RunsInOrder(ops: seq<CopyOp>, error: Option<CopyFailure>, plan: seq<Planned>, inputs: CopyInputs) {
    && ops <= OpsOf(plan)
    && (error.None? <==> forall i :: 0 <= i < |plan| ==> StepOk(inputs, plan[i].failure))
    && (error.None? ==> ops == OpsOf(plan))
    && (error.Some? ==> StoppedBy(plan, inputs, |ops| - 1, error))
  }

  /** Performs the planned operations in order, returning at the first one
      that fails; later operations are not performed. */
  function RunPlan(plan: seq<Planned>, inputs: CopyInputs): (r: PlanRun)
    ensures RunsInOrder(r.ops, r.error, plan, inputs)
  {
    var n := FirstFailure(plan, inputs, 0);
    if n == |plan| then PlanRun(OpsOf(plan), None)
    else PlanRun(OpsOf(plan)[..n + 1], Some(plan[n].failure))
  }

  /** What CopyAppBinaries did: the sleeps of the retry loop, the operations
      performed in order, and the error it returned. */
  datatype CopyReport = CopyReport(delays: seq<nat>, ops: seq<CopyOp>, error: Option<CopyFailure>)

  /** What a copy report says about the main-binary attempts `main`, each
      the operation `op`, and the run of `plan`: the sleeps count down from
      five seconds, one copy of the main binary per attempt comes first,
      then the planned operations in order up to the first that fails, and
      the error returned is that operation's, or none when all succeed. */
  predicate Reports(r: CopyReport, main: MainCopy, op: CopyOp, plan: seq<Planned>, inputs: CopyInputs) {
    CopiesMainFirst(r, main, op) && RunsPlanAfter(r, plan, inputs)
  }

  /** The main-binary part of a copy report. */
  predicate CopiesMainFirst(r: CopyReport, main: MainCopy, op: CopyOp) {
    var k := |r.delays| + 1;
    && k == main.attempts && r.delays == main.delays
    && k <= MaxCopyAttempts && k <= |r.ops|
    && (forall i :: 0 <= i < k - 1 ==> r.delays[i] == 5 - i)
    && (forall i :: 0 <= i < k ==> r.ops[i] == op)
  }

  /** The planned part of a copy report, after the main-binary attempts. */
  predicate RunsPlanAfter(r: CopyReport, plan: seq<Planned>, inputs: CopyInputs) {
    |r.delays| + 1 <= |r.ops| && RunsInOrder(r.ops[|r.delays| + 1..], r.error, plan, inputs)
  }

  /** CopyAppBinaries: copies the main binary with retries, then carries out
      the plan up to its first failure, whose error it returns. Whether the
      main binary was copied at all has no bearing on the error returned. */
  function CopyAppBinaries(s: Session, goos: string, c: Contents, fs: FileSystem, inputs: CopyInputs): (r: CopyReport)
    ensures Reports(r, CopyMainBinary(inputs.mainAttempts), CopyFile(c.mollyBinaryPath, s.settings.binaryPath),
      Plan(s, goos, c, fs), inputs)
    ensures forall i :: 0 <= i < |r.delays| ==> !AttemptSucceeds(inputs.mainAttempts, i)
  {
    Assemble(CopyMainBinary(inputs.mainAttempts), CopyFile(c.mollyBinaryPath, s.settings.binaryPath),
      Plan(s, goos, c, fs), inputs)
  }

  /** The first `n` backoff sleeps count down from five seconds. */
  lemma BackoffCountsDown(n: nat)
    requires n <= |Backoff|
    ensures forall i :: 0 <= i < n ==> Backoff[..n][i] == 5 - i
  {
  }

  /** The report of CopyAppBinaries put together from the main-binary
      attempts and the run of `plan`. */
  function Assemble(main: MainCopy, op: CopyOp, plan: seq<Planned>, inputs: CopyInputs): (r: CopyReport)
    requires 1 <= main.attempts <= MaxCopyAttempts && main.delays == Backoff[..main.attempts - 1]
    ensures Reports(r, main, op, plan, inputs)
  {
    var mainOps := seq(main.attempts, _ => op);
    var rest := RunPlan(plan, inputs);
    MainThenPlan(main, op, mainOps, plan, inputs, rest);
    CopyReport(main.delays, mainOps + rest.ops, rest.error)
  }

  /** The main-binary attempts come first in the assembled report. */
  lemma MainThenPlan(main: MainCopy, op: CopyOp, mainOps: seq<CopyOp>, plan: seq<Planned>, inputs: CopyInputs, rest: PlanRun)
    requires 1 <= main.attempts <= MaxCopyAttempts && main.delays == Backoff[..main.attempts - 1]
    requires |mainOps| == main.attempts && forall i :: 0 <= i < |mainOps| ==> mainOps[i] == op
    requires RunsInOrder(rest.ops, rest.error, plan, inputs)
    ensures CopiesMainFirst(CopyReport(main.delays, mainOps + rest.ops, rest.error), main, op)
    ensures RunsPlanAfter(CopyReport(main.delays, mainOps + rest.ops, rest.error), plan, inputs)
  {
    BackoffCountsDown(main.attempts - 1);
    PlanAfterMain(main.delays, mainOps, plan, inputs, rest);
  }

  /** The plan's run follows the main-binary attempts in the assembled
      report. */
  lemma PlanAfterMain(delays: seq<nat>, mainOps: seq<CopyOp>, plan: seq<Planned>, inputs: CopyInputs, rest: PlanRun)
    requires |mainOps| == |delays| + 1
    requires RunsInOrder(rest.ops, rest.error, plan, inputs)
    ensures RunsPlanAfter(CopyReport(delays, mainOps + rest.ops, rest.error), plan, inputs)
  {
    assert (mainOps + rest.ops)[|mainOps|..] == rest.ops;
  }

  /** A main binary that could not be copied in six attempts goes unreported:
      when the later operations succeed, CopyAppBinaries returns no error. */
  lemma FailedMainCopyIsSilent(s: Session, goos: string, c: Contents, fs: FileSystem, inputs: CopyInputs)
    requires !CopyMainBinary(inputs.mainAttempts).copied
    requires inputs.updateCopyOk && inputs.bundleCopyOk && inputs.shortcutOk
    requires inputs.startMenuCopyOk && inputs.desktopCopyOk
    ensures CopyAppBinaries(s, goos, c, fs, inputs).error.None?
    ensures |CopyAppBinaries(s, goos, c, fs, inputs).delays| == 5
  {
    var plan := Plan(s, goos, c, fs);
    forall i | 0 <= i < |plan| ensures StepOk(inputs, plan[i].failure) {
    }
  }

  /** The update binary is copied exactly when it is present in the payload,
      right after the main binary. */
  lemma UpdateCopiedIffPresent(s: Session, goos: string, c: Contents, fs: FileSystem, inputs: CopyInputs)
    ensures var r := CopyAppBinaries(s, goos, c, fs, inputs);
            var k := |r.delays| + 1;
            FileExists(fs, c.updateBinaryPath) <==>
              (k < |r.ops| && r.ops[k] == CopyFile(c.updateBinaryPath, UpdateDestination(s)))
  {
    var r := CopyAppBinaries(s, goos, c, fs, inputs);
    var k := |r.delays| + 1;
    var plan := Plan(s, goos, c, fs);
    if !FileExists(fs, c.updateBinaryPath) && k < |r.ops| {
      assert r.ops[k] == plan[0].op;
    }
  }

  // ---- Preparing the filesystem ----

  /** The file list of PrepareFS: built with `make([]string, 8)` and then
      appended to, so eight empty names come first. */
  const PrepareNames: seq<string> := ["", "", "", "", "", "", "", ""] + [
    "cl-keytool.jar.tmp", "cl-keytool.jar", "cl-wallet.jar", "cl-wallet.jar.tmp",
    "mollywallet.zip", "mollywallet.zip.tmp", ShortcutName, "mollywallet.exe"]

  /** How PrepareFS ended: it returned nil, it returned an error, or it
      terminated the process after failing to create the dag folder. */
  datatype PrepareStatus = Prepared | PrepareFailed | PrepareExited

  /** The disk after PrepareFS, the notifications and sleeps it produced,
      and how it ended. */
  datatype PrepareReport = PrepareReport(fs: FileSystem, events: seq<Event>, status: PrepareStatus)

  const PrepareFailureTitle: string := "Unable to prepare filesystem"

  /** The paths PrepareFS is allowed to delete. */
  function PrepareScope(s: Session, goos: string, fs: FileSystem): set<Path> {
    Targets(s.dagFolder, PrepareNames) + Subtree(fs, s.tmpFolder) + {s.dagFolder} + BundleScope(s, goos, fs)
  }

  /** The macOS application bundle PrepareFS deletes, when there is one. */
  function BundleScope(s: Session, goos: string, fs: FileSystem): set<Path> {
    if goos == "darwin" && s.settings.shortcutPath != "" then Subtree(fs, s.settings.shortcutPath) else {}
  }

  /** The notifications PrepareFS can produce: an "Error:" note, first,
      exactly when the dag folder could not be removed, and the fatal note
      followed by a ten-second pause exactly when the process exits. */
  function PrepareNotes(noted: bool, status: PrepareStatus): (evs: seq<Event>)
    ensures NoProgress(evs)
    ensures noted <==> ErrorNote("Error:") in evs
    ensures noted ==> evs[0] == ErrorNote("Error:")
    ensures status == PrepareExited <==> ErrorNote(PrepareFailureTitle) in evs
    ensures status == PrepareExited <==> |evs| >= 2 && evs[|evs| - 2] == ErrorNote(PrepareFailureTitle) && evs[|evs| - 1] == Slept(10)
  {
    (if noted then [ErrorNote("Error:")] else [])
    + (if status == PrepareExited then [ErrorNote(PrepareFailureTitle), Slept(10)] else [])
  }

  /** `if fileExists(p) { os.RemoveAll(p) }`, the way PrepareFS clears the
      temp folder and, on macOS, the application bundle: an absent folder is
      left alone; an existing one goes with everything in it unless
      something inside is pinned or its stat fails, which is a failure. */
  function ClearFolder(fs: FileSystem, p: Path): (r: Outcome)
    ensures r.fs.locked == fs.locked && r.fs.unstatable <= fs.unstatable
    ensures r.fs.paths <= fs.paths && fs.paths - r.fs.paths <= Subtree(fs, p)
    ensures !FileExists(fs, p) ==> r == Outcome(fs, true)
    ensures r.ok <==> !FileExists(fs, p) || (p in fs.paths && forall q :: q in Subtree(fs, p) ==> !Pinned(fs, q))
    ensures r.ok ==> !FileExists(r.fs, p)
    ensures r.ok && FileExists(fs, p) ==> forall q :: q in Subtree(fs, p) ==> q !in r.fs.paths
    ensures forall q :: q in fs.paths && Pinned(fs, q) ==> q in r.fs.paths
  {
    if FileExists(fs, p) then RemoveAll(fs, p) else Outcome(fs, true)
  }

  /** The tail of PrepareFS, once the dag folder is in place: on macOS the
      application bundle at the shortcut path is cleared, and a failure to
      clear it is returned. */
  function RemoveBundle(s: Session, goos: string, fs: FileSystem, notes: seq<Event>): (r: PrepareReport)
    ensures r.events == notes && r.status != PrepareExited
    ensures r.fs.locked == fs.locked && r.fs.paths <= fs.paths && r.fs.unstatable <= fs.unstatable
    ensures goos != "darwin" || !FileExists(fs, s.settings.shortcutPath) ==> r == PrepareReport(fs, notes, Prepared)
    ensures fs.paths - r.fs.paths <= BundleScope(s, goos, fs)
    ensures r.status == PrepareFailed <==> goos == "darwin" && !ClearFolder(fs, s.settings.shortcutPath).ok
    ensures r.status == Prepared && goos == "darwin" ==> !FileExists(r.fs, s.settings.shortcutPath)
  {
    if goos == "darwin" then
      var gone := ClearFolder(fs, s.settings.shortcutPath);
      PrepareReport(gone.fs, notes, if gone.ok then Prepared else PrepareFailed)
    else PrepareReport(fs, notes, Prepared)
  }

  /** The disk after the dag-folder step of PrepareFS, whether the failed
      removal was notified, and whether the process exited. */
  datatype DagReset = DagReset(fs: FileSystem, noted: bool, exited: bool)

  /** The dag-folder step of PrepareFS: try to remove the dag folder with
      removeFolders (only an empty, unlocked one can go), notify a failure,
      and create the folder if it is missing; failing to create it ends the
      process. The "Error:" note is sent exactly when the folder exists but
      cannot be removed; the process exits exactly when the folder is
      missing and cannot be created. */
  function ResetDagFolder(fs: FileSystem, dag: Path): (r: DagReset)
    ensures r.fs.locked == fs.locked && r.fs.unstatable <= fs.unstatable
    ensures r.noted <==> FileExists(fs, dag) && Remove(fs, dag).None?
    ensures r.exited <==> !FileExists(fs, dag) && (dag == "" || dag in fs.locked)
    ensures r.noted || r.exited ==> r.fs == fs
    ensures !r.exited ==> FileExists(r.fs, dag)
    ensures !r.noted && !r.exited ==> r.fs.paths == fs.paths + {dag}
    ensures !r.noted && !r.exited && FileExists(fs, dag) ==> !HasChildren(r.fs, dag)
  {
    var removal := RemoveFolders(fs, ["", dag]);
    assert Removable(["", dag]) == if dag == "" then {} else {dag};
    assert removal.failedAt.Some? ==> removal.failedAt.value == 1;
    var fs1 := removal.fs;
    if FileExists(fs1, dag) then DagReset(fs1, removal.failedAt.Some?, false)
    else if Mkdir(fs1, dag).None? then DagReset(fs1, removal.failedAt.Some?, true)
    else
      assert removal.failedAt.None?;
      DagReset(Mkdir(fs1, dag).value, false, false)
  }

  /** The part of PrepareFS after the temp folder is gone: the dag-folder
      step, then on macOS the application bundle. */
  function RecreateDagFolder(s: Session, goos: string, fs: FileSystem): (r: PrepareReport)
    ensures r.fs.locked == fs.locked && r.fs.unstatable <= fs.unstatable
    ensures r.fs.paths - fs.paths <= {s.dagFolder}
    ensures fs.paths - r.fs.paths <= {s.dagFolder} + BundleScope(s, goos, fs)
    ensures var d := ResetDagFolder(fs, s.dagFolder);
      && (r.status == PrepareExited <==> d.exited)
      && (r.status == PrepareFailed <==> !d.exited && goos == "darwin" && !ClearFolder(d.fs, s.settings.shortcutPath).ok)
      && r.events == PrepareNotes(d.noted, r.status)
    ensures r.status == Prepared && goos != "darwin" ==> FileExists(r.fs, s.dagFolder)
    ensures r.status == PrepareExited ==> !FileExists(r.fs, s.dagFolder)
  {
    var d := ResetDagFolder(fs, s.dagFolder);
    if d.exited then PrepareReport(d.fs, PrepareNotes(d.noted, PrepareExited), PrepareExited)
    else
      SubtreeGrows(fs, d.fs, s.settings.shortcutPath);
      RemoveBundle(s, goos, d.fs, PrepareNotes(d.noted, Prepared))
  }

  /** Every path of a subtree that has gained at most `extra` was there before. */
  lemma SubtreeGrows(a: FileSystem, b: FileSystem, p: Path)
    ensures Subtree(b, p) <= Subtree(a, p) + (b.paths - a.paths)
  {
  }

  /** PrepareFS: removes leftover artifacts from the dag folder (ignoring
      failures), clears the temp folder (a failure is returned), tries to
      remove the dag folder itself (a failure is only notified as "Error:"),
      recreates it if it is missing (a failure ends the process), and on
      macOS clears the application bundle (a failure is returned). */
  function PrepareFS(s: Session, goos: string, fs: FileSystem): (r: PrepareReport)
    ensures r.fs.locked == fs.locked
    ensures r.fs.paths - fs.paths <= {s.dagFolder}
    ensures fs.paths - r.fs.paths <= PrepareScope(s, goos, fs)
    ensures NoProgress(r.events)
    ensures var fs1 := ClearLeftovers(fs, s.dagFolder);
      var tmp := ClearFolder(fs1, s.tmpFolder);
      var d := ResetDagFolder(tmp.fs, s.dagFolder);
      && (r.status == PrepareFailed <==>
            !tmp.ok || (!d.exited && goos == "darwin" && !ClearFolder(d.fs, s.settings.shortcutPath).ok))
      && (r.status == PrepareExited <==> tmp.ok && d.exited)
      && r.events == PrepareNotes(tmp.ok && d.noted, r.status)
      && (ErrorNote("Error:") in r.events <==> tmp.ok && d.noted)
      && (ErrorNote(PrepareFailureTitle) in r.events <==> r.status == PrepareExited)
    ensures r.status == Prepared && goos != "darwin" ==> FileExists(r.fs, s.dagFolder)
    ensures r.status == Prepared && s.tmpFolder != s.dagFolder ==> !FileExists(r.fs, s.tmpFolder)
    ensures r.status == PrepareExited ==> !FileExists(r.fs, s.dagFolder)
  {
    var fs1 := ClearLeftovers(fs, s.dagFolder);
    var r := PrepareFolders(s, goos, fs1);
    SubtreeGrows(fs, fs1, s.tmpFolder);
    SubtreeGrows(fs, fs1, s.settings.shortcutPath);
    RemovedAcross(fs.paths, fs1.paths, r.fs.paths, r.fs.paths,
      Targets(s.dagFolder, PrepareNames), Subtree(fs1, s.tmpFolder) + {s.dagFolder} + BundleScope(s, goos, fs1), {});
    r
  }

  /** PrepareFS once the leftovers are dealt with: the temp folder is
      cleared (a failure ends PrepareFS), then the dag folder is reset. */
  function PrepareFolders(s: Session, goos: string, fs: FileSystem): (r: PrepareReport)
    ensures r.fs.locked == fs.locked && r.fs.unstatable <= fs.unstatable
    ensures r.fs.paths - fs.paths <= {s.dagFolder}
    ensures fs.paths - r.fs.paths <= Subtree(fs, s.tmpFolder) + {s.dagFolder} + BundleScope(s, goos, fs)
    ensures NoProgress(r.events)
    ensures var tmp := ClearFolder(fs, s.tmpFolder);
      var d := ResetDagFolder(tmp.fs, s.dagFolder);
      && (r.status == PrepareFailed <==>
            !tmp.ok || (!d.exited && goos == "darwin" && !ClearFolder(d.fs, s.settings.shortcutPath).ok))
      && (r.status == PrepareExited <==> tmp.ok && d.exited)
      && r.events == PrepareNotes(tmp.ok && d.noted, r.status)
      && (ErrorNote("Error:") in r.events <==> tmp.ok && d.noted)
      && (ErrorNote(PrepareFailureTitle) in r.events <==> r.status == PrepareExited)
    ensures r.status == Prepared && goos != "darwin" ==> FileExists(r.fs, s.dagFolder)
    ensures r.status == Prepared && s.tmpFolder != s.dagFolder ==> !FileExists(r.fs, s.tmpFolder)
    ensures r.status == PrepareExited ==> !FileExists(r.fs, s.dagFolder)
  {
    var tmp := ClearFolder(fs, s.tmpFolder);
    SubtreeGrows(fs, tmp.fs, s.settings.shortcutPath);
    if !tmp.ok then PrepareReport(tmp.fs, PrepareNotes(false, PrepareFailed), PrepareFailed)
    else
      var r := RecreateDagFolder(s, goos, tmp.fs);
      RemovedAcross(fs.paths, tmp.fs.paths, r.fs.paths, r.fs.paths,
        Subtree(fs, s.tmpFolder), {s.dagFolder} + BundleScope(s, goos, fs), {});
      r
  }

  /** Paths removed over three steps were removed by one of them. */
  lemma RemovedAcross(a: set<Path>, b: set<Path>, c: set<Path>, d: set<Path>, x: set<Path>, y: set<Path>, z: set<Path>)
    requires a - b <= x && b - c <= y && c - d <= z
    ensures a - d <= x + y + z
  {
  }

  /** The first step of PrepareFS: the leftover artifacts in the dag folder
      are removed, in order, until one cannot be; the failure is ignored.
      The disk is the one removeFiles leaves, whether or not it stopped, so
      the leftovers before the stopping point are gone and those after it
      are untouched. Locked leftovers stay, and when every leftover can be
      removed in its turn, all of them go. */
  function ClearLeftovers(fs: FileSystem, dagFolder: Path): (r: FileSystem)
    ensures r == RemoveFiles(fs, dagFolder, PrepareNames).fs
    ensures r.locked == fs.locked && r.unstatable <= fs.unstatable
    ensures r.paths <= fs.paths && fs.paths - r.paths <= Targets(dagFolder, PrepareNames)
    ensures fs.paths * fs.locked <= r.paths
    ensures (forall i :: 0 <= i < |PrepareNames| ==> GoesInTurn(fs, FileTargets(dagFolder, PrepareNames), i)) ==>
      forall p :: p in Targets(dagFolder, PrepareNames) ==> !FileExists(r, p)
  {
    var removal := RemoveFiles(fs, dagFolder, PrepareNames);
    if forall i :: 0 <= i < |PrepareNames| ==> GoesInTurn(fs, FileTargets(dagFolder, PrepareNames), i) then
      RemoveFoldersSucceeds(fs, FileTargets(dagFolder, PrepareNames));
      removal.fs
    else removal.fs
  }

  /** A removal walk over paths none of which exists changes nothing. */
  lemma NothingToRemove(fs: FileSystem, ps: seq<Path>)
    requires forall i :: 0 <= i < |ps| ==> !FileExists(fs, ps[i])
    ensures RemoveFolders(fs, ps) == Removal(fs, None)
  {
    var r := RemoveFolders(fs, ps);
    forall p | p in Removable(ps) ensures p !in fs.paths {
      var i :| 0 <= i < |ps| && ps[i] == p;
    }
    assert r.fs.paths == fs.paths;
  }

  /** With no leftovers, no temp folder and no dag folder, PrepareFS only
      creates the dag folder and notifies nothing. */
  lemma PrepareFromCleanSlate(s: Session, goos: string, fs: FileSystem)
    requires s.dagFolder != "" && s.dagFolder !in fs.locked
    requires !FileExists(fs, s.dagFolder) && !FileExists(fs, s.tmpFolder)
    requires forall p :: p in Targets(s.dagFolder, PrepareNames) ==> !FileExists(fs, p)
    requires goos != "darwin" || s.settings.shortcutPath == ""
    ensures PrepareFS(s, goos, fs) == PrepareReport(fs.(paths := fs.paths + {s.dagFolder}), [], Prepared)
  {
    NothingToRemove(fs, FileTargets(s.dagFolder, PrepareNames));
    NothingToRemove(fs, ["", s.dagFolder]);
  }

  /** On a disk where nothing is locked, no stat fails and no leftover holds
      anything, PrepareFS succeeds: every leftover and everything in the temp
      folder is gone, the dag folder exists, and at most the "Error:" note is
      sent (when the dag folder still holds something). */
  lemma PrepareOnUnobstructedDisk(s: Session, goos: string, fs: FileSystem)
    requires fs.locked == {} && fs.unstatable == {}
    requires s.dagFolder != "" && s.tmpFolder != ""
    requires s.dagFolder != s.tmpFolder && !IsUnder(s.dagFolder, s.tmpFolder)
    requires forall p :: p in Targets(s.dagFolder, PrepareNames) ==> !HasChildren(fs, p)
    requires s.tmpFolder in fs.paths || Subtree(fs, s.tmpFolder) == {}
    requires s.tmpFolder !in Targets(s.dagFolder, PrepareNames)
    requires goos != "darwin"
    ensures var r := PrepareFS(s, goos, fs);
      && r.status == Prepared
      && (forall p :: p in Targets(s.dagFolder, PrepareNames) ==> !FileExists(r.fs, p))
      && (forall p :: p in Subtree(fs, s.tmpFolder) ==> p !in r.fs.paths)
      && s.dagFolder in r.fs.paths
      && (r.events == [] || r.events == [ErrorNote("Error:")])
  {
    var dag := s.dagFolder;
    var ps := FileTargets(dag, PrepareNames);
    forall i | 0 <= i < |PrepareNames| ensures GoesInTurn(fs, ps, i) {
      if PrepareNames[i] != "" {
        assert PrepareNames[i] in PrepareNames;
        assert ps[i] in Targets(dag, PrepareNames);
      }
    }
    var fs1 := ClearLeftovers(fs, dag);
    var tmp := ClearFolder(fs1, s.tmpFolder);
    assert tmp.ok;
    var d := ResetDagFolder(tmp.fs, dag);
    assert !d.exited;
    var r := PrepareFS(s, goos, fs);
    assert r == PrepareFolders(s, goos, fs1) == RecreateDagFolder(s, goos, tmp.fs);
    forall p | p in Targets(dag, PrepareNames) ensures !FileExists(r.fs, p) {
      var n :| n in PrepareNames && n != "" && Join(dag, n) == p;
      JoinIsUnder(dag, n);
    }
    forall p | p in Subtree(fs, s.tmpFolder) ensures p !in r.fs.paths {
      assert p != dag;
      if p in fs1.paths {
        assert s.tmpFolder in fs1.paths;
        assert p in Subtree(fs1, s.tmpFolder);
        assert p !in tmp.fs.paths;
      }
    }
  }

  /** A dag folder that still holds something PrepareFS does not delete
      survives, with that content: the failed removal is only notified as
      "Error:" and the installation goes on. */
  lemma PopulatedDagIsOnlyNotified(s: Session, goos: string, fs: FileSystem, c: Path)
    requires fs.locked == {} && fs.unstatable == {}
    requires s.dagFolder != "" && s.dagFolder in fs.paths && s.dagFolder != s.tmpFolder && !IsUnder(s.dagFolder, s.tmpFolder)
    requires c in fs.paths && IsUnder(c, s.dagFolder)
    requires c !in Targets(s.dagFolder, PrepareNames) && c !in Subtree(fs, s.tmpFolder)
    requires goos != "darwin" || s.settings.shortcutPath == ""
    ensures var r := PrepareFS(s, goos, fs);
            r.status == Prepared && r.events == [ErrorNote("Error:")]
            && s.dagFolder in r.fs.paths && c in r.fs.paths
  {
    var fs1 := ClearLeftovers(fs, s.dagFolder);
    assert c in fs1.paths && s.dagFolder in fs1.paths;
    var tmpGone := RemoveAll(fs1, s.tmpFolder);
    assert tmpGone.ok by {
      if s.tmpFolder != "" {
        assert s.tmpFolder !in fs1.unstatable;
        var doomed := Subtree(fs1, s.tmpFolder);
        assert forall q :: q in doomed ==> !Pinned(fs1, q);
      }
    }
    var fs2 := if FileExists(fs1, s.tmpFolder) then tmpGone.fs else fs1;
    assert s.dagFolder !in Subtree(fs1, s.tmpFolder);
    assert c !in Subtree(fs1, s.tmpFolder);
    assert c in fs2.paths && s.dagFolder in fs2.paths;
    var removal := RemoveFolders(fs2, ["", s.dagFolder]);
    forall p | p in Removable(["", s.dagFolder]) ensures p == s.dagFolder {
    }
    assert c != s.dagFolder && c in removal.fs.paths;
    assert s.dagFolder in Removable(["", s.dagFolder]);
    assert removal.failedAt.Some?;
  }

  /** The macOS bundle removal never runs for a session from Init: the
      shortcut path is empty there, so PrepareFS behaves on macOS exactly
      as it does on Linux. */
  lemma DarwinBundleRemovalIsInert(home: Option<string>, fs: FileSystem)
    requires home.Some? ==> home.value != ""
    requires Init("darwin", home).Ok?
    ensures var s := Init("darwin", home).value;
            PrepareFS(s, "darwin", fs) == PrepareFS(s, "linux", fs)
  {
    var s := Init("darwin", home).value;
    assert s.settings.shortcutPath == "";
    var tmp := ClearFolder(ClearLeftovers(fs, s.dagFolder), s.tmpFolder);
    assert PrepareFolders(s, "darwin", ClearLeftovers(fs, s.dagFolder)) == PrepareFolders(s, "linux", ClearLeftovers(fs, s.dagFolder));
    assert RecreateDagFolder(s, "darwin", tmp.fs) == RecreateDagFolder(s, "linux", tmp.fs);
  }

  // ---- Clean-up ----

  /** The file list of CleanUp, two empty names first. */
  const CleanUpNames: seq<string> := ["", "", ArchiveName, ManifestName]

  /** CleanUp: deletes the downloaded archive and manifest from the dag
      folder with removeFiles, ignoring where that walk stopped, then clears
      the temp folder as ClearFolder does; only the latter can make it fail.
      It fails exactly when the temp folder is still there after the walk
      and it or something inside it cannot go; on success nothing of the
      temp folder is left. */
  function CleanUp(s: Session, fs: FileSystem): (r: Outcome)
    ensures var walk := RemoveFiles(fs, s.dagFolder, CleanUpNames);
            r == ClearFolder(walk.fs, s.tmpFolder)
    ensures r.fs.locked == fs.locked && r.fs.paths <= fs.paths
    ensures fs.paths - r.fs.paths <= Targets(s.dagFolder, CleanUpNames) + Subtree(fs, s.tmpFolder)
    ensures var walked := RemoveFiles(fs, s.dagFolder, CleanUpNames).fs;
            r.ok <==> !FileExists(walked, s.tmpFolder)
                      || (s.tmpFolder in walked.paths && forall q :: q in Subtree(walked, s.tmpFolder) ==> !Pinned(walked, q))
    ensures r.ok ==> !FileExists(r.fs, s.tmpFolder)
    ensures var walked := RemoveFiles(fs, s.dagFolder, CleanUpNames).fs;
            r.ok && FileExists(walked, s.tmpFolder) ==> forall q :: q in Subtree(walked, s.tmpFolder) ==> q !in r.fs.paths
    ensures !r.ok ==> FileExists(fs, s.tmpFolder)
  {
    var walk := RemoveFiles(fs, s.dagFolder, CleanUpNames);
    ClearFolder(walk.fs, s.tmpFolder)
  }

  /** On an unobstructed disk CleanUp succeeds and leaves neither the
      archive, the manifest nor the temp folder, and keeps everything else. */
  lemma CleanUpRemovesArtifacts(s: Session, fs: FileSystem)
    requires fs.locked == {} && fs.unstatable == {}
    requires !HasChildren(fs, Join(s.dagFolder, ArchiveName)) && !HasChildren(fs, Join(s.dagFolder, ManifestName))
    requires s.tmpFolder != "" && (s.tmpFolder in fs.paths || Subtree(fs, s.tmpFolder) == {})
    requires s.tmpFolder !in Targets(s.dagFolder, CleanUpNames)
    ensures var r := CleanUp(s, fs);
            && r.ok
            && !FileExists(r.fs, Join(s.dagFolder, ArchiveName))
            && !FileExists(r.fs, Join(s.dagFolder, ManifestName))
            && !FileExists(r.fs, s.tmpFolder)
            && r.fs.paths == fs.paths - Targets(s.dagFolder, CleanUpNames) - Subtree(fs, s.tmpFolder)
  {
    var rf := RemoveFiles(fs, s.dagFolder, CleanUpNames);
    assert ArchiveName in CleanUpNames && ManifestName in CleanUpNames;
    var fs1 := rf.fs;
    var t := Targets(s.dagFolder, CleanUpNames);
    assert fs1.paths == fs.paths - t;
    assert Subtree(fs1, s.tmpFolder) == Subtree(fs, s.tmpFolder) - t;
    if FileExists(fs1, s.tmpFolder) {
      var doomed := Subtree(fs1, s.tmpFolder);
      assert forall q :: q in doomed ==> !Pinned(fs1, q);
      assert RemoveAll(fs1, s.tmpFolder).fs.paths == fs1.paths - doomed;
    } else {
      assert s.tmpFolder !in fs.paths;
      assert Subtree(fs, s.tmpFolder) == {};
    }
  }

  /** An archive that cannot be deleted goes unreported: CleanUp still
      succeeds and the archive stays on disk. */
  lemma LockedArchiveIsSilent(s: Session, fs: FileSystem)
    requires Join(s.dagFolder, ArchiveName) in fs.paths && Join(s.dagFolder, ArchiveName) in fs.locked
    requires !FileExists(fs, s.tmpFolder)
    ensures CleanUp(s, fs).ok && Join(s.dagFolder, ArchiveName) in CleanUp(s, fs).fs.paths
  {
  }

  // ---- Launching ----

  /** The program LaunchAppBinary starts: the installed binary, or on macOS
      the executable inside the application bundle at the shortcut path. */
  function LaunchTarget(s: Session, goos: string): (p: Path)
    ensures goos != "darwin" ==> p == s.settings.binaryPath
    ensures goos == "darwin" && s.settings.shortcutPath != "" ==> IsUnder(p, s.settings.shortcutPath)
  {
    if goos == "darwin" then
      if s.settings.shortcutPath == "" then BundleExecutable
      else
        JoinIsUnder(s.settings.shortcutPath, BundleExecutable);
        Join(s.settings.shortcutPath, BundleExecutable)
    else s.settings.binaryPath
  }

  const BundleExecutable: Path := "Contents/MacOS/mollywallet"

  /** Since the macOS shortcut path is empty, the program launched on macOS
      is the relative path of the bundle executable, not the installed binary
      `usr/local/bin/mollywallet`. */
  lemma DarwinLaunchesRelativeBundlePath(home: Option<string>)
    requires home.Some? ==> home.value != ""
    requires Init("darwin", home).Ok?
    ensures LaunchTarget(Init("darwin", home).value, "darwin") == "Contents/MacOS/mollywallet"
    ensures LaunchTarget(Init("darwin", home).value, "darwin") != Init("darwin", home).value.settings.binaryPath
  {
  }
}

# Molly Wallet installer: a Dafny model of the install back end

This project models the `install` package of the Molly Wallet installer. The installer:

- downloads the latest Constellation desktop wallet release from GitHub,
- checks the archive against its SHA-256 manifest,
- unpacks the archive and copies the binaries into the user's `.dag` folder,
- creates the Windows shortcuts, launches the wallet and cleans up.

The package can also uninstall the wallet.

The disk is modelled as a set of paths, together with the paths the operating system refuses to touch and the paths whose `stat` fails. Network replies, command output, checksums and the outcome of each copy are inputs. The install run is modelled as a trace of progress updates, notifications and pauses, and the proofs are about that trace.

Modules, one per concern:

- `Base`: `Option` and `Result`.
- `Text`: `strings.Split` on one character and the CR LF replacement.
- `FileSystem`: the disk, `path.Join`, and `os.Stat`, `Remove`, `RemoveAll`, `Mkdir`, `Create` and `Rename`.
- `Events`: the run's trace, with progress percentages and occurrence counts.
- `Version`: the release-tag lookup.
- `Utils`: `fileExists`, `removeFile(s)`, `removeFolders`, `downloadFile`, the per-OS settings and the unzip paths.
- `Windows`: Java detection and installation.
- `Install`: the steps of an install.
- `Orchestrator`: `Run` as a state machine over the step outcomes, with a reference definition of the run it must produce.
- `Uninstall`: the uninstall.

Where the code and its design intent differ, the model follows the code:

- **The retry loop never reports a failure.** The loop that copies the main binary runs `for n := 5; n > 0; n--`, but its error return is guarded by `n == 0`, which cannot hold inside the loop. A main binary that fails all six copies therefore goes unreported (`Install.RetryLoop`, `Install.FailedMainCopyIsSilent`).
- **The macOS shortcut path is empty.** `getOSSpecificSettings` never sets `shortcutPath` on macOS. As a result:
  - PrepareFS never removes the application bundle (`Install.DarwinBundleRemovalIsInert`);
  - the macOS launch runs the relative path `Contents/MacOS/mollywallet` (`Install.DarwinLaunchesRelativeBundlePath`).
- **Success is announced before clean-up, and clean-up can still abort the run.** The wallet-jar download failure sends a notification and pauses for ten seconds, but is not fatal.
- **PrepareFS can end the process itself.** When it cannot recreate the `.dag` folder, it sends the notification, sleeps and exits. This looks the same as the run's own handling of an error returned by PrepareFS.
- **PrepareFS removes only an empty `.dag` folder.** `removeFolders` uses `os.Remove`, so a `.dag` folder with anything left in it survives. The failure is only notified as "Error:" (`Install.PopulatedDagIsOnlyNotified`, `Uninstall.LeftoverKeepsDagFolder`).
- **The macOS bundle path is never set.** `unzipArchive` leaves the bundle path of the unpacked contents empty, so the macOS bundle copy copies from the empty path (`Utils.UnzipArchive`).
- **Two functions are declared twice.** `getLatestRelease` appears in both `utils.go` and `version.go`, with identical bodies. `checkAndFetchWalletCLI` appears in both `install.go` and `cl-files.go`. The model has one definition of the lookup, and treats the jar download's outcome as an input.

## Model

| member | source | states |
|---|---|---|
| Text.Split | backend/install/install.go:314-315 | strings.Split on a one-character separator: at least one piece, no piece contains the separator, and joining the pieces with the separator gives the input back |
| Text.FirstPiece | backend/install/install.go:314-315 | the first piece of a split is `d` exactly when the text is `d`, or starts with `d` followed by the separator, and `d` has no separator |
| Text.SplitAfterPiece | backend/install/windows.go:165-168 | splitting a separator-free piece, a separator and the rest gives that piece followed by the split of the rest |
| Text.ReplaceCrlf | backend/install/windows.go:165 | replacing CR LF by LF never lengthens the text |
| Text.ReplaceCrlfKeepsPlainText | backend/install/windows.go:165 | text without a CR LF pair comes back unchanged, and text with one comes back strictly shorter |
| Text.ReplaceCrlfAppend | backend/install/windows.go:165 | normalising two parts, the first not ending in CR, gives the two parts normalised on their own |
| Text.ReplaceCrlfAtBoundary | backend/install/windows.go:165 | a CR LF pair between two parts becomes one LF, and each part is normalised on its own |
| Text.ReplaceCrlfUndoesToCrlf | backend/install/windows.go:165 | text without CR, written with CR LF line endings and normalised, is returned unchanged |
| FileSystem.RemoveAll | backend/install/install.go:170-175 | os.RemoveAll deletes only paths at or below the target and changes no lock; it succeeds exactly when nothing there is locked or holds a locked path and its stat does not fail; every such path stays and every other one goes; on success the target is absent with nothing under it |
| FileSystem.RemoveObserved | backend/install/utils.go:55-90 | os.Remove succeeds exactly on an existing, unlocked path with nothing inside; afterwards stat reports that path absent and every other path as before |
| FileSystem.MkdirObserved | backend/install/install.go:190-191 | os.Mkdir fails on the empty path, an existing path or a locked one; afterwards stat reports the new directory present and every other path as before |
| FileSystem.RemoveUndoesMkdir | backend/install/install.go:177-191 | removing a directory that was just created restores the disk |
| FileSystem.CreateRenameObserved | backend/install/utils.go:92-116 | os.Create makes the file present; os.Rename makes the new name present and the old one absent; nothing else changes as stat sees it |
| FileSystem.JoinInjective | backend/install/utils.go:56-57 | joining one directory with two different non-empty names gives two different paths |
| Utils.FileExists | backend/install/utils.go:127-133 | a path counts as present unless stat reports "does not exist"; the empty path is absent |
| Utils.RemoveFolders | backend/install/utils.go:78-90 | removes the listed non-empty paths in order and stops at the first that cannot go; exactly the entries before it are removed; nothing unlisted is touched; no folder goes while something under it stays |
| Utils.RemoveFoldersSucceeds | backend/install/utils.go:78-90 | a walk in which every entry can be removed when its turn comes (not locked, and holding only entries listed before it) meets no failure |
| Utils.RemoveFiles | backend/install/utils.go:65-76 | the same walk over `dir/name` for the non-empty names: without a failure every target is absent; a failure names an existing entry that cannot be removed, and only the entries before it are gone |
| Utils.RemoveFilesIdempotent | backend/install/utils.go:65-76 | after a pass that met no failure, a second pass over the same names changes nothing and fails nowhere |
| Utils.RemoveFile | backend/install/utils.go:55-63 | an empty name or an absent file is a successful no-op; otherwise it succeeds exactly when os.Remove does, and then only that path is gone |
| Utils.RemoveFileIsSingleRemoveFiles | backend/install/utils.go:55-76 | removeFile agrees with removeFiles on a one-name list, in both the resulting disk and the success verdict |
| Utils.DownloadFile | backend/install/utils.go:92-116 | writes to `<path>.tmp` and renames it into place; success means the file exists and the temp file does not; on failure the target is untouched; nothing else changes |
| Utils.DefaultDagFolderPath | backend/install/utils.go:118-125 | the empty path when the home directory is unknown, otherwise `<home>/.dag` |
| Utils.OsSettings | backend/install/utils.go:172-217 | per OS: the build name (or "unsupported"), the `.exe` extension on Windows only, and the binary path; start-menu, desktop and shortcut paths are set on Windows only |
| Utils.UnzipArchive | backend/install/utils.go:151-169 | extraction succeeds exactly when the archive unpacks; the binaries sit in `<dst>/new_build`, with the Windows extension on Windows; the macOS bundle path is never set |
| Utils.UnzipAgreesWithSettings | backend/install/utils.go:158-168 | the unpacked binary names carry the same extension as the OS settings, and the main and update binaries are different paths |
| Version.LatestRelease | backend/install/version.go:12-46 | request, read and decode failures are errors; otherwise the version is characters 1 to 5 of the tag |
| Version.ReleaseTagRoundTrip | backend/install/version.go:41-43 | a tag `v` + five-character version + any suffix yields that version |
| Version.LeadingCharacterIgnored | backend/install/version.go:43 | the first character of the tag is dropped unchecked |
| Version.TwoDigitMinorIsTruncated | backend/install/version.go:43 | the tag `v1.10.0` yields `1.10.` |
| Windows.DetectJavaPath | backend/install/windows.go:141-175 | a failed `where java` or empty output is an error; otherwise the chosen line (the second one if it is non-empty, else the first) with its last four characters replaced by `w.exe` |
| Windows.JavaInstalled | backend/install/windows.go:124-139 | true exactly when a path was detected and it ends in `javaw.exe` |
| Windows.SinglePathOutput | backend/install/windows.go:160-170 | one CR LF-terminated path yields that path with its last four characters replaced by `w.exe`, and Java counts as installed exactly when the four characters before those are `java` |
| Windows.TwoPathOutput | backend/install/windows.go:165-170 | with two paths reported, the second one is chosen |
| Windows.RunCommands | backend/install/windows.go:59-120 | the commands run in order up to the first failure; no error exactly when every command succeeded, and then every command ran |
| Windows.InstallJava | backend/install/windows.go:48-122 | nothing runs when PowerShell cannot start; otherwise a prefix of the six commands runs, in order; the result is no error exactly when the shell starts and all six succeed |
| Install.Init | backend/install/install.go:49-65 | a session exists exactly when the home directory is known; `.dag` and `.tmp` sit in the home directory and differ; the settings are the OS settings |
| Install.ArtifactUrlDeterminesRelease | backend/install/install.go:222 | an artifact URL with a five-character version determines the version and the OS build |
| Install.ManifestBesideArchive | backend/install/install.go:214-223 | the archive and the manifest come from two separate version lookups; with both lookups answered, the manifest URL lies in the archive's release folder exactly when the two lookups give the same version |
| Install.LookupsStraddlingARelease | backend/install/install.go:290-299 | lookups answered with `v1.1.9` and then `v1.2.0` put the manifest outside the archive's release folder |
| Install.DownloadAppBinary | backend/install/install.go:211-234 | a lookup failure is returned before the OS check; an unsupported OS is refused without any download; otherwise one request for the archive URL once the `.tmp` file is created and none when it cannot be, and success means the archive is in the `.dag` folder |
| Install.VerifyChecksum | backend/install/install.go:286-333 | the same lookup and OS errors; one request for the manifest URL once the `.tmp` file is created and none when it cannot be; a successful result is true exactly when the manifest's first line equals the digest, with no trimming |
| Install.TrailingWhitespaceMismatches | backend/install/install.go:314-332 | a manifest line ending in CR or a space never matches |
| Install.DigestLineMatches | backend/install/install.go:314-332 | a manifest holding the digest on its own line matches |
| Install.RetryLoop | backend/install/install.go:339-347 | sleeps n, n-1, … seconds between retries and stops at the first success; after the last attempt it reports nothing |
| Install.CopyMainBinary | backend/install/install.go:337-348 | one to six attempts; the sleeps are a prefix of 5, 4, 3, 2, 1; copied exactly when one of the six attempts succeeds; every attempt before the last failed |
| Install.FourFailuresThenSuccess | backend/install/install.go:337-348 | four failures then a success take five attempts and 14 seconds of sleep |
| Install.AllCopiesFail | backend/install/install.go:337-348 | with every copy failing: six attempts, 15 seconds of sleep, nothing copied |
| Install.RunPlan | backend/install/install.go:350-378 | the operations performed are the plan's, in order, up to and including the first that fails; the error is that operation's; there is no error exactly when every operation succeeds, and then all were performed |
| Install.CopyAppBinaries | backend/install/install.go:336-379 | the sleeps count down 5, 4, 3, … and every one follows a failed attempt; one main-binary copy per attempt comes first; then the update, bundle and shortcut operations in order up to the first that fails; the error is that operation's, and there is none exactly when all of them succeed, whether or not the main binary was copied |
| Install.FailedMainCopyIsSilent | backend/install/install.go:337-348 | a main binary never copied, with the later copies succeeding, yields no error after five pauses |
| Install.UpdateCopiedIffPresent | backend/install/install.go:350-355 | the update binary is copied, right after the main binary, exactly when it is present in the payload |
| Install.PrepareNotes | backend/install/install.go:182-196 | PrepareFS shows no progress; it notifies "Error:", first, exactly when the `.dag` removal failed, and ends with the fatal notification and a ten-second pause exactly when it exits |
| Install.ClearLeftovers | backend/install/install.go:163-167 | the disk is the one the removeFiles walk leaves, stopping at the first leftover that cannot go, and the stop is ignored; only the listed leftovers in `.dag` can go, locked ones stay, and when each can be removed in its turn none is left |
| Install.ClearFolder | backend/install/install.go:170-175 | an absent folder is left alone; an existing one goes with everything in it, and the step succeeds, exactly when nothing in it is pinned; pinned paths stay and nothing outside the folder is touched |
| Install.ResetDagFolder | backend/install/install.go:177-196 | "Error:" is notified exactly when `.dag` exists but cannot be removed; the process exits exactly when `.dag` is missing and cannot be created; otherwise `.dag` exists afterwards, recreated empty |
| Install.RemoveBundle | backend/install/install.go:199-205 | off macOS, or with no bundle, nothing changes; on macOS only the bundle's paths can go, the step fails exactly when clearing the bundle fails, and on success the bundle is gone |
| Install.RecreateDagFolder | backend/install/install.go:177-205 | only `.dag` can appear and only `.dag` and the bundle can go; PrepareFS exits exactly when `.dag` cannot be recreated, fails exactly when the macOS bundle removal fails, and its notifications follow; an exit leaves no `.dag` |
| Install.PrepareFolders | backend/install/install.go:169-205 | a temp folder that cannot be cleared ends PrepareFS with an error and no notification; otherwise the dag-folder and bundle steps decide the outcome; a prepared run has no temp folder |
| Install.PrepareFS | backend/install/install.go:162-208 | only `.dag` can be created, and only leftovers, the temp tree, `.dag` and the bundle deleted; it fails exactly when the temp folder or the macOS bundle cannot be cleared, exits exactly when `.dag` cannot be recreated, notifies "Error:" exactly when `.dag` could not be removed; a prepared run has `.dag` and no temp folder; an exit leaves no `.dag` |
| Install.PrepareFromCleanSlate | backend/install/install.go:162-208 | on a disk with no leftovers, PrepareFS only creates the `.dag` folder and notifies nothing |
| Install.PrepareOnUnobstructedDisk | backend/install/install.go:162-208 | with nothing locked and nothing inside the leftovers, PrepareFS succeeds: every leftover and the whole temp tree are gone, `.dag` exists, and at most "Error:" is notified |
| Install.PopulatedDagIsOnlyNotified | backend/install/install.go:177-187 | a `.dag` folder with unlisted content survives with that content; only "Error:" is notified and preparation succeeds |
| Install.DarwinBundleRemovalIsInert | backend/install/install.go:199-205 | for a session built by Init, PrepareFS behaves on macOS exactly as on Linux |
| Install.CleanUp | backend/install/install.go:397-411 | the archive and manifest walk of removeFiles, its stop ignored, followed by the temp-folder step of ClearFolder; deletes only the archive, the manifest and the temp tree; fails exactly when the temp folder is still there after the walk and it or something under it is locked; on success nothing of the temp folder is left |
| Install.CleanUpRemovesArtifacts | backend/install/install.go:397-411 | on an unobstructed disk, CleanUp succeeds and removes exactly the archive, the manifest and the temp tree |
| Install.LockedArchiveIsSilent | backend/install/install.go:399-402 | an archive that cannot be deleted is left in place without any error |
| Install.LaunchTarget | backend/install/install.go:382-394 | the installed binary is launched, or on macOS the executable inside the bundle |
| Install.DarwinLaunchesRelativeBundlePath | backend/install/install.go:385-387 | for a session built by Init, macOS launches `Contents/MacOS/mollywallet`, not the installed binary |
| Orchestrator.Run | backend/install/install.go:68-159 | the run's trace of progress updates, notifications and pauses is the reference trace, and the run ends where the reference run ends |
| Orchestrator.ReferenceRun | backend/install/install.go:68-159 | the reference trace shows the reference percentages, holds the success notification once when the run gets past extraction and never otherwise, and an aborted run ends with the step's notification and a ten-second pause |
| Orchestrator.CheckJava | backend/install/install.go:73-83 | from the Java check on, the trace is the reference trace and the run ends where the reference run ends; a failed Java install is fatal |
| Orchestrator.Prepare | backend/install/install.go:85-92 | the same promise from the preparation step on, including when PrepareFS exits the process itself |
| Orchestrator.Download | backend/install/install.go:94-101 | the same promise from the package download on; a failed download is fatal |
| Orchestrator.Check | backend/install/install.go:103-118 | the same promise from the wallet-jar download on; a checksum error or mismatch is fatal |
| Orchestrator.CheckTrace | backend/install/install.go:103-112 | a failed wallet-jar download adds its notification and a pause but no percentage, the notification is there exactly when the jars failed, and the run continues to 86 |
| Orchestrator.Extract | backend/install/install.go:120-127 | the same promise from extraction on; a failed extraction is fatal |
| Orchestrator.ConcludeTrace | backend/install/install.go:129-147 | copying and finishing add 98 and 100 and exactly one success notification; the copy's and the launch's notifications are there exactly when they failed |
| Orchestrator.Conclude | backend/install/install.go:129-155 | the same promise from the copy on; a failed clean-up is fatal after success was announced |
| Orchestrator.TracePercentages | backend/install/install.go:74-138 | the percentages of the reference trace are the milestones of the steps up to the first that fails |
| Orchestrator.TraceSuccessCount | backend/install/install.go:138-139 | the reference trace holds the success notification once when no step before the copy fails, and never otherwise |
| Orchestrator.TraceEndsFatally | backend/install/install.go:78-155 | an aborted reference run ends with the failed step's notification and a ten-second pause |
| Orchestrator.WalletCliFailureIsReported | backend/install/install.go:103-109 | the wallet-jar failure's notification is in the run exactly when the run gets to the jar download and the download failed |
| Orchestrator.PrepareErrorIsReported | backend/install/install.go:177-187 | the "Error:" notification is in the run exactly when the run gets to PrepareFS and the `.dag` removal failed |
| Orchestrator.CopyFailureIsReported | backend/install/install.go:129-136 | the copy's notification is in the run exactly when the run gets past extraction and the copy returned an error |
| Orchestrator.LaunchFailureIsReported | backend/install/install.go:142-147 | the launch's notification is in the run exactly when the run gets past extraction and the launch failed |
| Orchestrator.WalletCliOrder | backend/install/install.go:103-112 | progress 42 is followed right away by the wallet-jar failure's notification and ten-second pause, if any, then by progress 86 |
| Orchestrator.ConcludingOrder | backend/install/install.go:129-147 | progress 98 is followed right away by the copy's retry pauses and failure notification, then progress 100, the success notification, the five-second pause and the launch's failure notification |
| Orchestrator.SuccessThenPause | backend/install/install.go:138-147 | the success notification is followed right away by the five-second pause, then the launch's failure notification if any |
| Orchestrator.ProgressReaches100 | backend/install/install.go:74-138 | the percentages strictly increase from 8, and end at 100 exactly when the run completes or aborts in clean-up |
| Orchestrator.CompletedRunShowsAllMilestones | backend/install/install.go:74-155 | without failures the run completes and shows 8 (10), 33, 35, 42, 86, 95, 98, 100 |
| Orchestrator.AbortsAtFirstFailure | backend/install/install.go:78-155 | the run aborts at a step exactly when that step fails and no earlier one does |
| Orchestrator.CompletesWithoutFailure | backend/install/install.go:78-155 | the run completes exactly when no fatal step fails |
| Orchestrator.NonFatalOutcomesKeepCourse | backend/install/install.go:103-147 | the wallet-jar download, the copy, the launch and the "Error:" note do not change where the run ends, what it shows, or whether it announces success |
| Orchestrator.SuccessIffNoEarlyFailure | backend/install/install.go:138-139 | success is announced exactly when no step before the copy fails |
| Orchestrator.SuccessOnceReachedCopy | backend/install/install.go:138-155 | once past extraction, success is announced even when clean-up then aborts the run |
| Orchestrator.ChecksumFailureStopsBeforeCopy | backend/install/install.go:112-118 | a checksum error or mismatch stops the run before 98 and 100, and without a success notification |
| Uninstall.RemoveShortcuts | backend/install/uninstall.go:34-45 | off Windows nothing happens; on Windows only the two shortcuts can go; each failure is notified on its own, exactly when that removal failed, the start-menu note before the desktop note, and a notified shortcut is still there; with nothing notified both are gone |
| Uninstall.StartMenuFailureSparesDesktop | backend/install/uninstall.go:34-45 | a start-menu shortcut that cannot be removed does not keep the desktop shortcut from going, and only the start-menu failure is notified |
| Uninstall.UninstallNotes | backend/install/uninstall.go:21-47 | one notification per failed phase, then exactly one success notification, last; success alone exactly when nothing failed |
| Uninstall.UninstallNotesInPhaseOrder | backend/install/uninstall.go:21-47 | the notes come as files note, folders note, the shortcut notes unchanged, then success |
| Uninstall.UninstallWalks | backend/install/uninstall.go:18-32 | the file walk and then the folder walk each remove exactly their entries before the one where they stopped; when neither stops, none of their paths is left |
| Uninstall.Uninstall | backend/install/uninstall.go:16-51 | deletes only the listed files, folders and shortcuts, each walk exactly up to where it stopped; the disk and the shortcut notes are those of RemoveShortcuts run on the disk the two walks left; a failed phase is notified and later phases still run; success is always announced last, exactly once; with no error notified, none of the listed paths is left; no folder goes while something under it stays |
| Uninstall.UninstallNotifiesInPhaseOrder | backend/install/uninstall.go:21-47 | Uninstall notifies files, then folders, then start menu, then desktop, each only on failure, then success |
| Uninstall.CleanInstallRootIsRemoved | backend/install/uninstall.go:16-51 | when `.dag` holds only listed artifacts and empty temp folders, and nothing is locked, Uninstall deletes exactly the listed paths and announces only success |
| Uninstall.NothingToUninstall | backend/install/uninstall.go:16-51 | when nothing listed exists, the disk is unchanged and only success is announced |
| Uninstall.LeftoverKeepsDagFolder | backend/install/uninstall.go:26-32 | anything unlisted in `.dag` keeps the folder and itself on disk, the folder failure is notified, and success is still announced |

## Left out

- HTTP, file reading, SHA-256 hashing, zip extraction, the `otiai10/copy` library and `copyFile` are left out as foreign code. Their outcomes are inputs: a network outcome, the manifest text, the hex digest, an extracted flag and per-copy results.
- Creating the Windows shortcut (`createWindowsShortcuts`, OLE automation) is left out. Only its success or failure is modelled.
- `exec.Command`, PowerShell and `where java` are left out. Their results are inputs.
- Permissions and file modes are left out: a path is either locked or removable.
- The progress goroutine, the Wails front end, the channels and `Window.Close` are left out. Progress updates are entries in the trace.
- Log output is left out: it has no effect on behaviour.
- The wallet-jar download (`checkAndFetchWalletCLI`, `fetchWalletJar`) is not part of this model. Its outcome is the input `walletCliOk`.
- The index panics are not modelled as behaviour: a missing or non-string `tag_name`, a tag shorter than six characters, a `where java` line shorter than four characters, or a detected path shorter than nine characters. They become the preconditions `Version.TagUsable`, `Windows.ProbeParsable` and `Windows.ProbeSafe`.
- `log.Fatal` and the process exit are modelled as the run's end (`Aborted`). Nothing after an exit is modelled.
- Install.DownloadAppBinary: its version lookup and the one in `Install.VerifyChecksum` are separate inputs, as the source looks the release up twice. They can disagree when a release is published between them; `Install.ManifestBesideArchive` states what follows.
- `Orchestrator.Run` takes the step outcomes as inputs. It is connected to the step functions only through the shared outcome types (`PrepareStatus`, `CopyReport`), not by calling them on one disk.
- `Install.PrepareFS`: the `.dag`-exists guarantee excludes macOS with a non-empty shortcut path. The bundle removal could delete `.dag` if it lay under the bundle. Sessions built by Init always have an empty macOS shortcut path.
- `Install.CleanUpRemovesArtifacts`: requires the temp folder to be present, or to have nothing under it. A temp tree whose root is missing while paths under it exist cannot be produced by os calls.
- `Windows.InstallJava`: the stdout of each command is not modelled. Only whether Execute reported an error or printed to stderr is.
- FileSystem.Join: `path.Join` also cleans its result (doubled or trailing `/`, `.` and `..`). The model joins with one `/` and assumes clean inputs.
- Install.Init: the equality of `.dag` with `DefaultDagFolderPath` holds only for a clean home directory. For HOME="/" the source gives "/.dag" for the session but "//.dag" from `getDefaultDagFolderPath`; the model gives "//.dag" for both.
- FileSystem.Mkdir: the parent directory is not required to exist, and neither is it for `Create` or `Rename`. `os.Mkdir` of `.dag` in a missing home directory fails in the source but succeeds in the model.
- Version.LatestRelease: strings are sequences of characters, while Go slices bytes. The two agree on ASCII tags only: for the tag "v1.0é.0" Go yields the five bytes "1.0é" and the model yields "1.0é.". `Version.TagUsable` likewise counts characters, not bytes.
- Windows.DetectJavaPath: the last four characters are cut, where Go cuts four bytes; the two agree on ASCII paths only. `Windows.Parsable` and `Windows.ProbeSafe` count characters, not bytes.
- Text: `Split` and `ReplaceCrlf` work on characters. On valid UTF-8 they agree with Go's byte-wise functions, since neither separator is a multi-byte character.

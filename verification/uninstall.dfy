/** Uninstall: removes the installer's artifacts from the dag folder, then
    the temp and dag folders themselves (non-recursively), then on Windows
    the two shortcuts; every failure is notified and the success
    notification is always sent last. */
module Uninstall {
  import opened Base
  import opened FileSystem
  import opened Events
  import opened Utils
  import opened Install

  /** The file list of Uninstall: twelve empty names, then the artifacts. */
  const UninstallNames: seq<string> := ["", "", "", "", "", "", "", "", "", "", "", ""] + [
    "update.log", "wallet.log", "install.log", "store.db", "cl-keytool.jar.tmp", "cl-keytool.jar",
    "cl-wallet.jar", "cl-wallet.jar.tmp", "mollywallet.zip", "mollywallet.zip.tmp", ShortcutName, "mollywallet.exe"]

  /** The folder list: three empty entries, then `dag/tmp`, the temp folder
      and the dag folder, in that order. */
  function UninstallFolders(s: Session): seq<Path> {
    ["", "", "", Join(s.dagFolder, "tmp"), s.tmpFolder, s.dagFolder]
  }

  const FilesFailedTitle: string := "Unable to remove all files"
  const FoldersFailedTitle: string := "Unable to remove all folders"
  const StartMenuFailedTitle: string := "Unable to remove shortcut from start menu"
  const DesktopFailedTitle: string := "Unable to remove shortcut from desktop"
  const UninstalledTitle: string := "Success!"

  /** The disk after Uninstall, the notifications it sent, in order, and
      the entries at which the file walk and the folder walk stopped. */
  datatype UninstallReport = UninstallReport(
    fs: FileSystem, events: seq<Event>, filesStoppedAt: Option<nat>, foldersStoppedAt: Option<nat>)

  /** The disk after the shortcut removal and its error notifications. */
  datatype ShortcutReport = ShortcutReport(fs: FileSystem, events: seq<Event>)

  /** The Windows shortcuts Uninstall removes. */
  function ShortcutTargets(s: Session, goos: string): set<Path> {
    if goos == "windows" then {Join(s.settings.startMenuPath, ShortcutName), Join(s.settings.desktopPath, ShortcutName)}
    else {}
  }

  /** Everything Uninstall may delete. */
  function UninstallScope(s: Session, goos: string): set<Path> {
    Targets(s.dagFolder, UninstallNames) + Removable(UninstallFolders(s)) + ShortcutTargets(s, goos)
  }

  /** The Windows shortcut removal: each shortcut is removed on its own and
      notified on its own, so a failure with the first does not keep the
      second from being removed. A shortcut whose removal is notified is
      still there; with nothing notified, both are gone. */
  function RemoveShortcuts(s: Session, goos: string, fs: FileSystem): (r: ShortcutReport)
    ensures r.fs.locked == fs.locked && r.fs.paths <= fs.paths && r.fs.unstatable <= fs.unstatable
    ensures fs.paths - r.fs.paths <= ShortcutTargets(s, goos)
    ensures goos != "windows" ==> r == ShortcutReport(fs, [])
    ensures |r.events| <= 2
    ensures forall i :: 0 <= i < |r.events| ==>
      r.events[i] == ErrorNote(StartMenuFailedTitle) || r.events[i] == ErrorNote(DesktopFailedTitle)
    ensures ErrorNote(StartMenuFailedTitle) in r.events <==>
      goos == "windows" && !RemoveFile(fs, s.settings.startMenuPath, ShortcutName).ok
    ensures ErrorNote(DesktopFailedTitle) in r.events <==>
      goos == "windows" &&
      !RemoveFile(RemoveFile(fs, s.settings.startMenuPath, ShortcutName).fs, s.settings.desktopPath, ShortcutName).ok
    ensures |r.events| == 2 ==> r.events == [ErrorNote(StartMenuFailedTitle), ErrorNote(DesktopFailedTitle)]
    ensures ErrorNote(StartMenuFailedTitle) in r.events ==> FileExists(r.fs, Join(s.settings.startMenuPath, ShortcutName))
    ensures ErrorNote(DesktopFailedTitle) in r.events ==> FileExists(r.fs, Join(s.settings.desktopPath, ShortcutName))
    ensures r.events == [] ==> forall p :: p in ShortcutTargets(s, goos) ==> !FileExists(r.fs, p)
    ensures forall p, q :: p in fs.paths && p !in r.fs.paths && q in r.fs.paths ==> !IsUnder(q, p)
  {
    if goos != "windows" then ShortcutReport(fs, [])
    else
      var startMenu := RemoveFile(fs, s.settings.startMenuPath, ShortcutName);
      var desktop := RemoveFile(startMenu.fs, s.settings.desktopPath, ShortcutName);
      ShortcutReport(desktop.fs,
        (if startMenu.ok then [] else [ErrorNote(StartMenuFailedTitle)])
        + (if desktop.ok then [] else [ErrorNote(DesktopFailedTitle)]))
  }

  /** The notes come in the order of the phases: the files note when the
      file walk failed, then the folders note when the folder walk failed,
      then the shortcut notes exactly as given, then one more (the success
      note). */
  predicate InPhaseOrder(evs: seq<Event>, filesFailed: bool, foldersFailed: bool, shortcutNotes: seq<Event>) {
    var lead := (if filesFailed then 1 else 0) + (if foldersFailed then 1 else 0);
    && |evs| == lead + |shortcutNotes| + 1
    && (filesFailed ==> evs[0] == ErrorNote(FilesFailedTitle))
    && (foldersFailed ==> evs[lead - 1] == ErrorNote(FoldersFailedTitle))
    && evs[lead..|evs| - 1] == shortcutNotes
  }

  /** The notifications of Uninstall: one per failed phase, in the order of
      the phases (files, folders, then the shortcut notes as given), then the
      success notification. */
  function UninstallNotes(filesFailed: bool, foldersFailed: bool, shortcutNotes: seq<Event>): (evs: seq<Event>)
    requires forall i :: 0 <= i < |shortcutNotes| ==>
      shortcutNotes[i] == ErrorNote(StartMenuFailedTitle) || shortcutNotes[i] == ErrorNote(DesktopFailedTitle)
    ensures |evs| >= 1 && evs[|evs| - 1] == SuccessNote(UninstalledTitle)
    ensures Occurrences(evs, SuccessNote(UninstalledTitle)) == 1
    ensures NoProgress(evs)
    ensures forall i :: 0 <= i < |evs| - 1 ==> evs[i].ErrorNote?
    ensures ErrorNote(FilesFailedTitle) in evs <==> filesFailed
    ensures ErrorNote(FoldersFailedTitle) in evs <==> foldersFailed
    ensures evs == [SuccessNote(UninstalledTitle)] <==> !filesFailed && !foldersFailed && shortcutNotes == []
  {
    var notes := (if filesFailed then [ErrorNote(FilesFailedTitle)] else [])
      + (if foldersFailed then [ErrorNote(FoldersFailedTitle)] else [])
      + shortcutNotes;
    assert ErrorNote(FilesFailedTitle) !in shortcutNotes && ErrorNote(FoldersFailedTitle) !in shortcutNotes;
    ErrorsThenSuccess(notes);
    notes + [SuccessNote(UninstalledTitle)]
  }

  /** UninstallNotes keeps the phase order: files, folders, the shortcut
      notes as given, success. */
  lemma UninstallNotesInPhaseOrder(filesFailed: bool, foldersFailed: bool, shortcutNotes: seq<Event>)
    requires forall i :: 0 <= i < |shortcutNotes| ==>
      shortcutNotes[i] == ErrorNote(StartMenuFailedTitle) || shortcutNotes[i] == ErrorNote(DesktopFailedTitle)
    ensures InPhaseOrder(UninstallNotes(filesFailed, foldersFailed, shortcutNotes), filesFailed, foldersFailed, shortcutNotes)
  {
  }

  /** Error notifications followed by the success notification: success
      comes once and last, everything before it is an error, and the list is
      the success notification alone exactly when there are no errors. */
  lemma ErrorsThenSuccess(notes: seq<Event>)
    requires forall i :: 0 <= i < |notes| ==> notes[i].ErrorNote?
    ensures var evs := notes + [SuccessNote(UninstalledTitle)];
      && Occurrences(evs, SuccessNote(UninstalledTitle)) == 1
      && NoProgress(evs)
      && (forall i :: 0 <= i < |evs| - 1 ==> evs[i].ErrorNote?)
      && (evs == [SuccessNote(UninstalledTitle)] <==> notes == [])
  {
    var evs := notes + [SuccessNote(UninstalledTitle)];
    assert SuccessNote(UninstalledTitle) !in notes;
    OccurrencesOfAbsent(notes, SuccessNote(UninstalledTitle));
    OccurrencesAppend(notes, [SuccessNote(UninstalledTitle)], SuccessNote(UninstalledTitle));
    if evs == [SuccessNote(UninstalledTitle)] {
      assert |notes| == 0;
    }
  }

  /** How far a walk over `n` entries got: up to the entry where it
      stopped, or through all of them. */
  function Reached(stoppedAt: Option<nat>, n: nat): nat {
    if stoppedAt.Some? && stoppedAt.value < n then stoppedAt.value else n
  }

  /** Uninstall: a failed file removal is notified and the folders are
      still attempted; a failed folder removal is notified and the Windows
      shortcuts are still attempted; success is announced at the end in
      every case. Each walk removes exactly its entries before the one where
      it stopped and does not attempt the entries after it; the shortcuts
      are then removed from the disk the walks left, with their own
      notifications; nothing outside the listed paths is deleted; and when
      no error is notified, none of the listed paths is left. */
  function Uninstall(s: Session, goos: string, fs: FileSystem): (r: UninstallReport)
    ensures r.fs.locked == fs.locked && r.fs.paths <= fs.paths
    ensures fs.paths - r.fs.paths <= UninstallScope(s, goos)
    ensures |r.events| >= 1 && r.events[|r.events| - 1] == SuccessNote(UninstalledTitle)
    ensures Occurrences(r.events, SuccessNote(UninstalledTitle)) == 1
    ensures NoProgress(r.events)
    ensures forall i :: 0 <= i < |r.events| - 1 ==> r.events[i].ErrorNote?
    ensures r.filesStoppedAt == RemoveFiles(fs, s.dagFolder, UninstallNames).failedAt
    ensures r.foldersStoppedAt == RemoveFolders(RemoveFiles(fs, s.dagFolder, UninstallNames).fs, UninstallFolders(s)).failedAt
    ensures var walked := RemoveFolders(RemoveFiles(fs, s.dagFolder, UninstallNames).fs, UninstallFolders(s)).fs;
            var shortcuts := RemoveShortcuts(s, goos, walked);
            && r.fs == shortcuts.fs
            && r.events == UninstallNotes(r.filesStoppedAt.Some?, r.foldersStoppedAt.Some?, shortcuts.events)
    ensures ErrorNote(FilesFailedTitle) in r.events <==> r.filesStoppedAt.Some?
    ensures ErrorNote(FoldersFailedTitle) in r.events <==> r.foldersStoppedAt.Some?
    ensures var files := UninstallNames[..Reached(r.filesStoppedAt, |UninstallNames|)];
      var folders := UninstallFolders(s)[..Reached(r.foldersStoppedAt, |UninstallFolders(s)|)];
      && fs.paths - r.fs.paths <= Targets(s.dagFolder, files) + Removable(folders) + ShortcutTargets(s, goos)
      && (forall p :: p in Targets(s.dagFolder, files) ==> p !in r.fs.paths)
      && (forall p :: p in Removable(folders) ==> p !in r.fs.paths)
    ensures r.events == [SuccessNote(UninstalledTitle)] ==>
      forall p :: p in UninstallScope(s, goos) ==> !FileExists(r.fs, p)
    ensures forall p, q :: p in fs.paths && p !in r.fs.paths && q in r.fs.paths ==> !IsUnder(q, p)
  {
    var files := RemoveFiles(fs, s.dagFolder, UninstallNames);
    var folders := RemoveFolders(files.fs, UninstallFolders(s));
    var shortcuts := RemoveShortcuts(s, goos, folders.fs);
    var notes := UninstallNotes(files.failedAt.Some?, folders.failedAt.Some?, shortcuts.events);
    UninstallWalks(s, fs);
    UninstallReport(shortcuts.fs, notes, files.failedAt, folders.failedAt)
  }

  /** Uninstall notifies in the order of its phases: the files note, the
      folders note, the start-menu note, the desktop note, each only when its
      phase failed, and success last. */
  lemma UninstallNotifiesInPhaseOrder(s: Session, goos: string, fs: FileSystem)
    ensures var r := Uninstall(s, goos, fs);
            var walked := RemoveFolders(RemoveFiles(fs, s.dagFolder, UninstallNames).fs, UninstallFolders(s)).fs;
            InPhaseOrder(r.events, r.filesStoppedAt.Some?, r.foldersStoppedAt.Some?, RemoveShortcuts(s, goos, walked).events)
  {
    var r := Uninstall(s, goos, fs);
    var walked := RemoveFolders(RemoveFiles(fs, s.dagFolder, UninstallNames).fs, UninstallFolders(s)).fs;
    UninstallNotesInPhaseOrder(r.filesStoppedAt.Some?, r.foldersStoppedAt.Some?, RemoveShortcuts(s, goos, walked).events);
  }

  /** The file walk followed by the folder walk: each removes exactly its
      entries before the one where it stopped, and when neither stops, none
      of their paths is left. */
  lemma UninstallWalks(s: Session, fs: FileSystem)
    ensures var files := RemoveFiles(fs, s.dagFolder, UninstallNames);
      var folders := RemoveFolders(files.fs, UninstallFolders(s));
      var fileReach := UninstallNames[..Reached(files.failedAt, |UninstallNames|)];
      var folderReach := UninstallFolders(s)[..Reached(folders.failedAt, |UninstallFolders(s)|)];
      && folders.fs.locked == fs.locked && folders.fs.paths <= fs.paths
      && folders.fs.unstatable <= fs.unstatable
      && fs.paths - folders.fs.paths <= Targets(s.dagFolder, fileReach) + Removable(folderReach)
      && (forall p :: p in Targets(s.dagFolder, fileReach) ==> p !in folders.fs.paths)
      && (forall p :: p in Removable(folderReach) ==> p !in folders.fs.paths)
      && (files.failedAt.None? && folders.failedAt.None? ==>
            forall p :: p in Targets(s.dagFolder, UninstallNames) + Removable(UninstallFolders(s)) ==> !FileExists(folders.fs, p))
      && (forall p, q :: p in fs.paths && p !in folders.fs.paths && q in folders.fs.paths ==> !IsUnder(q, p))
  {
    assert UninstallNames[..|UninstallNames|] == UninstallNames;
    assert UninstallFolders(s)[..|UninstallFolders(s)|] == UninstallFolders(s);
  }

  /** When none of the paths Uninstall targets exists, it leaves the disk as
      it is and only announces success. */
  lemma NothingToUninstall(s: Session, goos: string, fs: FileSystem)
    requires forall p :: p in UninstallScope(s, goos) ==> !FileExists(fs, p)
    ensures Uninstall(s, goos, fs) == UninstallReport(fs, [SuccessNote(UninstalledTitle)], None, None)
  {
    var ps := FileTargets(s.dagFolder, UninstallNames);
    FileTargetsAgree(s.dagFolder, UninstallNames, 0);
    forall i | 0 <= i < |ps| ensures !FileExists(fs, ps[i]) {
      if ps[i] != "" {
        assert ps[i] in Removable(ps);
      }
    }
    NothingToRemove(fs, ps);
    var folders := UninstallFolders(s);
    forall i | 0 <= i < |folders| ensures !FileExists(fs, folders[i]) {
      if folders[i] != "" {
        assert folders[i] in Removable(folders);
      }
    }
    NothingToRemove(fs, folders);
    assert RemoveFiles(fs, s.dagFolder, UninstallNames) == Removal(fs, None);
    assert RemoveShortcuts(s, goos, fs) == ShortcutReport(fs, []) by {
      if goos == "windows" {
        assert Join(s.settings.startMenuPath, ShortcutName) in ShortcutTargets(s, goos);
        assert Join(s.settings.desktopPath, ShortcutName) in ShortcutTargets(s, goos);
      }
    }
    assert UninstallNotes(false, false, []) == [SuccessNote(UninstalledTitle)];
  }

  /** Anything in the dag folder that Uninstall does not list (a wallet
      keystore, say) keeps the dag folder on disk: the folder removal fails
      and is notified, and success is still announced. */
  lemma LeftoverKeepsDagFolder(s: Session, goos: string, fs: FileSystem, q: Path)
    requires s.dagFolder != "" && s.dagFolder in fs.paths
    requires q in fs.paths && IsUnder(q, s.dagFolder) && q !in UninstallScope(s, goos)
    ensures var r := Uninstall(s, goos, fs);
      && s.dagFolder in r.fs.paths && q in r.fs.paths
      && ErrorNote(FoldersFailedTitle) in r.events
      && r.events[|r.events| - 1] == SuccessNote(UninstalledTitle)
  {
    var files := RemoveFiles(fs, s.dagFolder, UninstallNames);
    assert s.dagFolder in files.fs.paths;
    var folders := RemoveFolders(files.fs, UninstallFolders(s));
    assert s.dagFolder in Removable(UninstallFolders(s));
    assert s.dagFolder in folders.fs.paths;
  }

  /** On Windows a start-menu shortcut that cannot be removed does not keep
      the desktop shortcut from being removed: it is gone and only the
      start-menu failure is notified. */
  lemma StartMenuFailureSparesDesktop(s: Session, fs: FileSystem)
    requires !RemoveFile(fs, s.settings.startMenuPath, ShortcutName).ok
    requires Remove(fs, Join(s.settings.desktopPath, ShortcutName)).Some?
    ensures var r := RemoveShortcuts(s, "windows", fs);
      && Join(s.settings.desktopPath, ShortcutName) !in r.fs.paths
      && r.events == [ErrorNote(StartMenuFailedTitle)]
  {
  }

  /** An install root with nothing locked and nothing else in it is removed
      completely: when the dag folder holds only the listed artifacts and
      the two temp folders, the temp folders are empty and nothing under
      the listed files or shortcuts exists, Uninstall deletes exactly the
      listed paths and only announces success. */
  lemma CleanInstallRootIsRemoved(s: Session, goos: string, fs: FileSystem)
    requires fs.locked == {} && fs.unstatable == {}
    requires forall p :: p in Targets(s.dagFolder, UninstallNames) + ShortcutTargets(s, goos) ==> !HasChildren(fs, p)
    requires !HasChildren(fs, Join(s.dagFolder, "tmp")) && !HasChildren(fs, s.tmpFolder)
    requires forall q :: q in fs.paths && IsUnder(q, s.dagFolder) ==>
      q in Targets(s.dagFolder, UninstallNames) || q == Join(s.dagFolder, "tmp") || q == s.tmpFolder
    ensures var r := Uninstall(s, goos, fs);
      && r.events == [SuccessNote(UninstalledTitle)]
      && r.fs.paths == fs.paths - UninstallScope(s, goos)
  {
    CleanWalks(s, goos, fs);
    var walked := RemoveFolders(RemoveFiles(fs, s.dagFolder, UninstallNames).fs, UninstallFolders(s));
    ShortcutsGo(s, goos, walked.fs);
    CleanRootParts(s, goos, fs, walked.fs);
  }

  /** Uninstall's disk and notifications once both walks went through and
      the shortcuts left no notification. */
  lemma CleanRootParts(s: Session, goos: string, fs: FileSystem, walked: FileSystem)
    requires RemoveFiles(fs, s.dagFolder, UninstallNames).failedAt.None?
    requires var files := RemoveFiles(fs, s.dagFolder, UninstallNames);
      var folders := RemoveFolders(files.fs, UninstallFolders(s));
      folders.failedAt.None? && folders.fs == walked
    requires RemoveShortcuts(s, goos, walked).events == []
    ensures Uninstall(s, goos, fs).events == [SuccessNote(UninstalledTitle)]
    ensures Uninstall(s, goos, fs).fs == RemoveShortcuts(s, goos, walked).fs
  {
  }

  /** The two walks over a clean install root: neither stops, the listed
      files and folders are exactly what is gone, and the shortcuts still
      have nothing under them. */
  lemma CleanWalks(s: Session, goos: string, fs: FileSystem)
    requires fs.locked == {} && fs.unstatable == {}
    requires forall p :: p in Targets(s.dagFolder, UninstallNames) + ShortcutTargets(s, goos) ==> !HasChildren(fs, p)
    requires !HasChildren(fs, Join(s.dagFolder, "tmp")) && !HasChildren(fs, s.tmpFolder)
    requires forall q :: q in fs.paths && IsUnder(q, s.dagFolder) ==>
      q in Targets(s.dagFolder, UninstallNames) || q == Join(s.dagFolder, "tmp") || q == s.tmpFolder
    ensures var files := RemoveFiles(fs, s.dagFolder, UninstallNames);
      var walked := RemoveFolders(files.fs, UninstallFolders(s));
      && files.failedAt.None? && walked.failedAt.None?
      && walked.fs.locked == {} && walked.fs.unstatable == {}
      && walked.fs.paths == fs.paths - Targets(s.dagFolder, UninstallNames) - Removable(UninstallFolders(s))
      && forall p :: p in ShortcutTargets(s, goos) ==> !HasChildren(walked.fs, p)
  {
    var names := FileTargets(s.dagFolder, UninstallNames);
    FileTargetsAgree(s.dagFolder, UninstallNames, 0);
    ChildlessGoInTurn(fs, names);
    RemoveFoldersSucceeds(fs, names);
    var files := RemoveFiles(fs, s.dagFolder, UninstallNames);
    DagFolderEmptied(s, fs, files.fs);
    var walked := RemoveFolders(files.fs, UninstallFolders(s));
    forall p | p in ShortcutTargets(s, goos) ensures !HasChildren(walked.fs, p) {
      ChildlessAfterRemoval(fs, walked.fs, p);
    }
  }

  /** Once the listed artifacts are gone from a dag folder that held only
      them and two empty temp folders, the folder walk meets no failure. */
  lemma DagFolderEmptied(s: Session, fs: FileSystem, files: FileSystem)
    requires files.locked == {} && files.unstatable == {}
    requires files.paths == fs.paths - Targets(s.dagFolder, UninstallNames)
    requires !HasChildren(fs, Join(s.dagFolder, "tmp")) && !HasChildren(fs, s.tmpFolder)
    requires forall q :: q in fs.paths && IsUnder(q, s.dagFolder) ==>
      q in Targets(s.dagFolder, UninstallNames) || q == Join(s.dagFolder, "tmp") || q == s.tmpFolder
    ensures RemoveFolders(files, UninstallFolders(s)).failedAt.None?
  {
    var folders := UninstallFolders(s);
    forall i | 0 <= i < |folders| ensures GoesInTurn(files, folders, i) {
      if i == 5 && folders[i] != "" {
        assert folders[..5] == ["", "", "", Join(s.dagFolder, "tmp"), s.tmpFolder];
        forall q | q in files.paths && IsUnder(q, folders[i]) ensures q in Removable(folders[..5]) {
          assert q != "";
        }
      }
    }
    RemoveFoldersSucceeds(files, folders);
  }

  /** Removing paths gives no path new children. */
  lemma ChildlessAfterRemoval(fs: FileSystem, after: FileSystem, p: Path)
    requires after.paths <= fs.paths && !HasChildren(fs, p)
    ensures !HasChildren(after, p)
  {
  }

  /** With nothing locked or unstatable and nothing under either shortcut,
      both shortcuts are removed without a notification. */
  lemma ShortcutsGo(s: Session, goos: string, fs: FileSystem)
    requires fs.locked == {} && fs.unstatable == {}
    requires forall p :: p in ShortcutTargets(s, goos) ==> !HasChildren(fs, p)
    ensures RemoveShortcuts(s, goos, fs).events == []
    ensures RemoveShortcuts(s, goos, fs).fs.paths == fs.paths - ShortcutTargets(s, goos)
  {
    if goos == "windows" {
      var startPath := Join(s.settings.startMenuPath, ShortcutName);
      var deskPath := Join(s.settings.desktopPath, ShortcutName);
      assert startPath in ShortcutTargets(s, goos) && deskPath in ShortcutTargets(s, goos);
      var start := RemoveFile(fs, s.settings.startMenuPath, ShortcutName);
      assert start.ok by {
        if FileExists(fs, startPath) {
          assert Remove(fs, startPath).Some?;
        }
      }
      assert RemoveFile(start.fs, s.settings.desktopPath, ShortcutName).ok by {
        if FileExists(start.fs, deskPath) {
          assert Remove(start.fs, deskPath).Some?;
        }
      }
    }
  }
}

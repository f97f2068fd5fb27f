/** The install run as a state machine: each step's outcome is an input, each
    step either aborts the run (a notification, a ten-second pause, then the
    process exits) or is only reported, and the run leaves a trace of
    progress updates, notifications and pauses. */
module Orchestrator {
  import opened Base
  import opened Events
  import opened Install

  /** The steps whose failure aborts the run. */
  datatype Step = JavaStep | PrepareStep | DownloadStep | ChecksumStep | UnzipStep | CleanUpStep

  datatype Final = Completed | Aborted(at: Step)

  datatype RunResult = RunResult(events: seq<Event>, final: Final)

  /** The outcomes of the steps: whether Java is installed and whether
      installing it worked, how PrepareFS ended and whether it notified a
      failed dag-folder removal, the download and the wallet-jar download,
      the checksum comparison, extraction, the copy report, the launch and
      clean-up. */
  datatype StepOutcomes = StepOutcomes(
    goos: string,
    javaInstalled: bool,
    javaInstallOk: bool,
    prepareNoted: bool,
    prepare: PrepareStatus,
    downloadOk: bool,
    walletCliOk: bool,
    checksum: Result<bool, InstallError>,
    unzipOk: bool,
    copy: CopyReport,
    launchOk: bool,
    cleanUpOk: bool)

  const JavaFailureTitle: string := "Unable to install Java"
  const DownloadFailureTitle: string := "Unable to download Molly Wallet package"
  const WalletCliFailureTitle: string := "Unable to download CL files"
  const ChecksumFailureTitle: string := "Checksum missmatch. Corrupted download"
  const UnzipFailureTitle: string := "Unable to unzip contents"
  const CopyFailureTitle: string := "Unable to overwrite old installation"
  const SuccessTitle: string := "Success!"
  const LaunchFailureTitle: string := "Unable to start up Molly after Install"
  const CleanUpFailureTitle: string := "Unable to clear previous local state"

  /** The Java check runs only on Windows without Java. */
  predicate InstallsJava(o: StepOutcomes) {
    o.goos == "windows" && !o.javaInstalled
  }

  /** The order in which the fatal steps come up in a run. */
  const StepCount: nat := 6

  /** The `i`-th fatal step of a run. */
  function StepAt(i: nat): Step
    requires i < StepCount
  {
    if i == 0 then JavaStep
    else if i == 1 then PrepareStep
    else if i == 2 then DownloadStep
    else if i == 3 then ChecksumStep
    else if i == 4 then UnzipStep
    else CleanUpStep
  }

  /** Whether a fatal step fails, read off the outcomes. The checksum step
      fails on an error as well as on a mismatch. */
  predicate FailsAt(o: StepOutcomes, st: Step) {
    match st
    case JavaStep => InstallsJava(o) && !o.javaInstallOk
    case PrepareStep => o.prepare != Prepared
    case DownloadStep => !o.downloadOk
    case ChecksumStep => o.checksum != Ok(true)
    case UnzipStep => !o.unzipOk
    case CleanUpStep => !o.cleanUpOk
  }

  /** The progress percentages announced from the previous fatal step up to
      the outcome of `st`. */
  function Milestones(o: StepOutcomes, st: Step): seq<int> {
    match st
    case JavaStep => if InstallsJava(o) then [8, 10] else [8]
    case PrepareStep => [33]
    case DownloadStep => [35]
    case ChecksumStep => [42, 86]
    case UnzipStep => [95]
    case CleanUpStep => [98, 100]
  }

  /** The reference trace of percentages from the `i`-th fatal step on: each
      step's milestones, up to and including the first step that fails. */
  function ExpectedFrom(o: StepOutcomes, i: nat): seq<int>
    decreases StepCount - i
  {
    if i >= StepCount then []
    else Milestones(o, StepAt(i)) + (if FailsAt(o, StepAt(i)) then [] else ExpectedFrom(o, i + 1))
  }

  /** The reference end state from the `i`-th fatal step on: aborted at the
      first step that fails, completed if none does. */
  function FinalFrom(o: StepOutcomes, i: nat): Final
    decreases StepCount - i
  {
    if i >= StepCount then Completed
    else if FailsAt(o, StepAt(i)) then Aborted(StepAt(i))
    else FinalFrom(o, i + 1)
  }

  /** No step from the `i`-th up to extraction fails, so the success
      notification is reached. */
  predicate SucceedsFrom(o: StepOutcomes, i: nat)
    decreases StepCount - i
  {
    i >= StepCount - 1 || (!FailsAt(o, StepAt(i)) && SucceedsFrom(o, i + 1))
  }

  function SuccessCount(evs: seq<Event>): nat {
    Occurrences(evs, SuccessNote(SuccessTitle))
  }

  /** The title of the notification sent when a fatal step fails. */
  function FatalTitle(st: Step): string {
    match st
    case JavaStep => JavaFailureTitle
    case PrepareStep => PrepareFailureTitle
    case DownloadStep => DownloadFailureTitle
    case ChecksumStep => ChecksumFailureTitle
    case UnzipStep => UnzipFailureTitle
    case CleanUpStep => CleanUpFailureTitle
  }

  const JavaCheckStatus: string := "Checking Java Installation..."
  const JavaInstallStatus: string := "Java not found. Installing Java (This may take some time)..."
  const PrepareStatusLine: string := "Preparing filesystem..."
  const DownloadStatus: string := "Downloading packages..."
  const WalletCliStatus: string := "Downloading the wallet SDK..."
  const ChecksumStatus: string := "Verifying Checksum..."
  const UnzipStatus: string := "Exctracting contents..."
  const CopyStatus: string := "Copy binaries..."
  const CompleteStatus: string := "Installation Complete! Launching Molly Wallet..."

  /** A failed wallet-jar download is notified and followed by a ten-second
      pause; the run goes on. */
  function WalletCliNotes(o: StepOutcomes): seq<Event> {
    if o.walletCliOk then [] else [ErrorNote(WalletCliFailureTitle), Slept(10)]
  }

  /** The copy's retry pauses, then a notification if it returned an error;
      the run goes on. */
  function CopyNotes(o: StepOutcomes): seq<Event> {
    Sleeps(o.copy.delays) + (if o.copy.error.Some? then [ErrorNote(CopyFailureTitle)] else [])
  }

  /** A failed launch is notified; the run goes on. */
  function LaunchNotes(o: StepOutcomes): seq<Event> {
    if o.launchOk then [] else [ErrorNote(LaunchFailureTitle)]
  }

  /** The Java check: progress 8, and progress 10 when Java is installed. */
  function JavaSegment(o: StepOutcomes): seq<Event> {
    [Progress(8, JavaCheckStatus)] + (if InstallsJava(o) then [Progress(10, JavaInstallStatus)] else [])
  }

  /** Preparing the filesystem: progress 33 and PrepareFS's notifications. */
  function PrepareSegment(o: StepOutcomes): seq<Event> {
    [Progress(33, PrepareStatusLine)] + PrepareNotes(o.prepareNoted, o.prepare)
  }

  /** The wallet-jar download and the checksum comparison, up to its
      outcome. */
  function ChecksumSegment(o: StepOutcomes): seq<Event> {
    [Progress(42, WalletCliStatus)] + WalletCliNotes(o) + [Progress(86, ChecksumStatus)]
  }

  /** The copy, the end of the installation and the launch, up to the
      clean-up's outcome. */
  function ConcludeSegment(o: StepOutcomes): seq<Event> {
    [Progress(98, CopyStatus)] + CopyNotes(o)
    + [Progress(100, CompleteStatus), SuccessNote(SuccessTitle), Slept(5)] + LaunchNotes(o)
  }

  /** The stretch of the reference run that a fatal step contributes, from
      its first progress update up to its outcome. */
  function Segment(o: StepOutcomes, st: Step): seq<Event> {
    match st
    case JavaStep => JavaSegment(o)
    case PrepareStep => PrepareSegment(o)
    case DownloadStep => [Progress(35, DownloadStatus)]
    case ChecksumStep => ChecksumSegment(o)
    case UnzipStep => [Progress(95, UnzipStatus)]
    case CleanUpStep => ConcludeSegment(o)
  }

  /** What a failed step adds after its stretch: its notification and a
      ten-second pause, except that PrepareFS, when it exits the process
      itself, has already sent both. */
  function Ending(o: StepOutcomes, st: Step): seq<Event> {
    if st == PrepareStep && o.prepare == PrepareExited then [] else [ErrorNote(FatalTitle(st)), Slept(10)]
  }

  /** A fatal step as the reference trace sees it: its stretch, whether it
      fails, and what it adds after its stretch when it does. */
  datatype StepView = StepView(stretch: seq<Event>, fails: bool, ending: seq<Event>)

  /** The trace of a run through the steps `vs` from the `i`-th on: each
      step's stretch, up to the first step that fails, which adds its
      ending. */
  function TraceOf(vs: seq<StepView>, i: nat): seq<Event>
    decreases |vs| - i
  {
    if i >= |vs| then [] else vs[i].stretch + (if vs[i].fails then vs[i].ending else TraceOf(vs, i + 1))
  }

  /** The fatal steps of a run with the given outcomes, in order. */
  function Views(o: StepOutcomes): (vs: seq<StepView>)
    ensures |vs| == StepCount
  {
    seq(StepCount, j requires 0 <= j < StepCount =>
      StepView(Segment(o, StepAt(j)), FailsAt(o, StepAt(j)), Ending(o, StepAt(j))))
  }

  /** The reference trace from the `i`-th fatal step on. */
  function TraceFrom(o: StepOutcomes, i: nat): seq<Event> {
    TraceOf(Views(o), i)
  }

  /** What every stage promises about the run from the `i`-th fatal step on,
      given the trace `t` so far: the run's trace is `t` followed by the
      reference trace, and it ends where the reference run ends. */
  predicate Stage(o: StepOutcomes, i: nat, t: seq<Event>, r: RunResult) {
    r.events == t + TraceFrom(o, i) && r.final == FinalFrom(o, i)
  }

  /** A fatal failure: the error notification, the ten-second pause, and the
      process exits. */
  function Fatal(t: seq<Event>, at: Step): (r: RunResult)
    ensures r.final == Aborted(at)
    ensures r.events == t + [ErrorNote(FatalTitle(at)), Slept(10)]
  {
    RunResult(t + [ErrorNote(FatalTitle(at)), Slept(10)], Aborted(at))
  }

  lemma AppendAssoc(a: seq<Event>, b: seq<Event>, c: seq<Event>)
    ensures (a + b) + c == a + (b + c)
  {
  }

  /** A stage that failed at its step `i` after its stretch `seg`, and whose
      trace ends with the step's ending. */
  lemma Stops(o: StepOutcomes, i: nat, t: seq<Event>, seg: seq<Event>, r: RunResult)
    requires i < StepCount && FailsAt(o, StepAt(i)) && seg == Segment(o, StepAt(i))
    requires r.final == Aborted(StepAt(i)) && r.events == t + seg + Ending(o, StepAt(i))
    ensures Stage(o, i, t, r)
  {
    var vs := Views(o);
    assert vs[i] == StepView(seg, true, Ending(o, StepAt(i)));
    StopsOf(vs, i, t);
  }

  /** A stage that passed its step `i` after its stretch `seg` and handed
      the run to the next stage. */
  lemma Continues(o: StepOutcomes, i: nat, t: seq<Event>, seg: seq<Event>, r: RunResult)
    requires i < StepCount - 1 && !FailsAt(o, StepAt(i)) && seg == Segment(o, StepAt(i))
    requires Stage(o, i + 1, t + seg, r)
    ensures Stage(o, i, t, r)
  {
    var vs := Views(o);
    assert vs[i].stretch == seg && !vs[i].fails;
    ContinuesOf(vs, i, t);
  }

  lemma StopsOf(vs: seq<StepView>, i: nat, t: seq<Event>)
    requires i < |vs| && vs[i].fails
    ensures t + TraceOf(vs, i) == t + vs[i].stretch + vs[i].ending
  {
    AppendAssoc(t, vs[i].stretch, vs[i].ending);
  }

  lemma ContinuesOf(vs: seq<StepView>, i: nat, t: seq<Event>)
    requires i < |vs| && !vs[i].fails
    ensures t + TraceOf(vs, i) == t + vs[i].stretch + TraceOf(vs, i + 1)
  {
    AppendAssoc(t, vs[i].stretch, TraceOf(vs, i + 1));
  }

  /** The trace of copying and finishing, before clean-up: progress 98, the
      retry pauses and a notification if the copy returned an error (the run
      goes on), progress 100, the success notification and a five-second
      pause, and a notification if the launch failed (the run goes on). The
      copy's and the launch's notifications are there exactly when they
      failed, and only one success notification is added. */
  method ConcludeTrace(o: StepOutcomes, t: seq<Event>) returns (t2: seq<Event>)
    ensures t2 == t + ConcludeSegment(o)
    ensures Percentages(t2) == Percentages(t) + [98, 100]
    ensures SuccessCount(t2) == SuccessCount(t) + 1
    ensures ErrorNote(CopyFailureTitle) in t2[|t|..] <==> o.copy.error.Some?
    ensures ErrorNote(LaunchFailureTitle) in t2[|t|..] <==> !o.launchOk
  {
    var copied := [Progress(98, CopyStatus)] + CopyNotes(o);
    var finished := [Progress(100, CompleteStatus), SuccessNote(SuccessTitle), Slept(5)] + LaunchNotes(o);
    t2 := t + (copied + finished);
    assert copied + finished == ConcludeSegment(o);
    ConcludeCounts(o);
    ConcludeNotes(o);
    PercentagesAppend(t, ConcludeSegment(o));
    OccurrencesAppend(t, ConcludeSegment(o), SuccessNote(SuccessTitle));
    assert t2[|t|..] == ConcludeSegment(o);
  }

  /** Copying and finishing, then the clean-up, whose failure is fatal. */
  method Conclude(o: StepOutcomes, t: seq<Event>) returns (r: RunResult)
    ensures Stage(o, 5, t, r)
  {
    var t2 := ConcludeTrace(o, t);
    if o.cleanUpOk {
      r := RunResult(t2, Completed);
      assert Views(o)[5] == StepView(ConcludeSegment(o), false, Ending(o, CleanUpStep));
      assert TraceOf(Views(o), 5) == ConcludeSegment(o) + [];
    } else {
      r := Fatal(t2, CleanUpStep);
      Stops(o, 5, t, ConcludeSegment(o), r);
    }
  }

  /** Extraction: progress 95; a failure is fatal. */
  method Extract(o: StepOutcomes, t: seq<Event>) returns (r: RunResult)
    ensures Stage(o, 4, t, r)
  {
    var seg := [Progress(95, UnzipStatus)];
    if o.unzipOk {
      r := Conclude(o, t + seg);
      Continues(o, 4, t, seg, r);
    } else {
      r := Fatal(t + seg, UnzipStep);
      Stops(o, 4, t, seg, r);
    }
  }

  /** The trace up to the checksum comparison: progress 42, a notification
      and a ten-second pause if the wallet jars failed to download (the run
      goes on), then progress 86. The notification is there exactly when the
      jars failed to download, and no success notification is added. */
  method CheckTrace(o: StepOutcomes, t: seq<Event>) returns (t2: seq<Event>)
    ensures t2 == t + ChecksumSegment(o)
    ensures Percentages(t2) == Percentages(t) + [42, 86]
    ensures SuccessCount(t2) == SuccessCount(t)
    ensures ErrorNote(WalletCliFailureTitle) in t2[|t|..] <==> !o.walletCliOk
  {
    var fetched := [Progress(42, WalletCliStatus)] + WalletCliNotes(o);
    t2 := t + (fetched + [Progress(86, ChecksumStatus)]);
    ChecksumCounts(o);
    PercentagesAppend(t, ChecksumSegment(o));
    OccurrencesAppend(t, ChecksumSegment(o), SuccessNote(SuccessTitle));
    assert t2[|t|..] == ChecksumSegment(o);
  }

  /** The wallet-jar download and the checksum comparison; an error or a
      mismatch is fatal. */
  method Check(o: StepOutcomes, t: seq<Event>) returns (r: RunResult)
    ensures Stage(o, 3, t, r)
  {
    var t2 := CheckTrace(o, t);
    if o.checksum == Ok(true) {
      r := Extract(o, t2);
    } else {
      r := Fatal(t2, ChecksumStep);
    }
    CheckStage(o, t, r);
  }

  /** The checksum stage's trace follows the reference trace, whether the
      run went on to extraction or stopped. */
  lemma CheckStage(o: StepOutcomes, t: seq<Event>, r: RunResult)
    requires o.checksum == Ok(true) ==> Stage(o, 4, t + ChecksumSegment(o), r)
    requires o.checksum != Ok(true) ==> r == Fatal(t + ChecksumSegment(o), ChecksumStep)
    ensures Stage(o, 3, t, r)
  {
    if o.checksum == Ok(true) {
      Continues(o, 3, t, ChecksumSegment(o), r);
    } else {
      Stops(o, 3, t, ChecksumSegment(o), r);
    }
  }

  /** The package download: progress 35; a failure is fatal. */
  method Download(o: StepOutcomes, t: seq<Event>) returns (r: RunResult)
    ensures Stage(o, 2, t, r)
  {
    var seg := [Progress(35, DownloadStatus)];
    if o.downloadOk {
      r := Check(o, t + seg);
      Continues(o, 2, t, seg, r);
    } else {
      r := Fatal(t + seg, DownloadStep);
      Stops(o, 2, t, seg, r);
    }
  }

  /** Preparing the filesystem: progress 33 and whatever PrepareFS notified.
      PrepareFS either returned an error, which the run treats as fatal, or
      already sent the same notification, paused and exited itself. */
  method Prepare(o: StepOutcomes, t: seq<Event>) returns (r: RunResult)
    ensures Stage(o, 1, t, r)
  {
    var seg := PrepareSegment(o);
    match o.prepare
    case Prepared =>
      r := Download(o, t + seg);
      Continues(o, 1, t, seg, r);
    case PrepareFailed =>
      r := Fatal(t + seg, PrepareStep);
      Stops(o, 1, t, seg, r);
    case PrepareExited =>
      r := RunResult(t + seg, Aborted(PrepareStep));
      Stops(o, 1, t, seg, r);
  }

  /** The Java check: progress 8; on Windows without Java, progress 10 and
      the Java installation, whose failure is fatal; then the remaining
      stages. */
  method CheckJava(o: StepOutcomes, t: seq<Event>) returns (r: RunResult)
    ensures Stage(o, 0, t, r)
  {
    var seg := JavaSegment(o);
    if FailsAt(o, JavaStep) {
      r := Fatal(t + seg, JavaStep);
      Stops(o, 0, t, seg, r);
    } else {
      r := Prepare(o, t + seg);
      Continues(o, 0, t, seg, r);
    }
  }

  /** Run: the stages from the Java check on, starting from an empty trace.
      The run's trace is the reference trace and it ends where the
      reference run ends. */
  method Run(o: StepOutcomes) returns (r: RunResult)
    ensures r.events == TraceFrom(o, 0) && r.final == FinalFrom(o, 0)
  {
    r := CheckJava(o, []);
    assert [] + TraceFrom(o, 0) == TraceFrom(o, 0);
  }

  /** The reference trace's percentages are the reference ones, it holds
      the success notification once when the run gets past extraction and
      never otherwise, and an aborted run ends with the step's notification
      and a ten-second pause. */
  lemma ReferenceRun(o: StepOutcomes)
    ensures var e := TraceFrom(o, 0);
      && Percentages(e) == ExpectedFrom(o, 0)
      && multiset(e)[SuccessNote(SuccessTitle)] == (if SucceedsFrom(o, 0) then 1 else 0)
      && (FinalFrom(o, 0).Aborted? ==> EndsWith(e, FatalEnding(FinalFrom(o, 0).at)))
  {
    TracePercentages(o, 0);
    TraceSuccessCount(o, 0);
    OccurrencesIsMultiplicity(TraceFrom(o, 0), SuccessNote(SuccessTitle));
    TraceEndsFatally(o, 0);
  }

  // ---- Properties of the reference trace ----

  /** A progress update followed by notes adds its percentage and holds
      the success notification as often as the notes do. */
  lemma ProgressThenNotesCounts(p: int, msg: string, notes: seq<Event>)
    requires NoProgress(notes)
    ensures Percentages([Progress(p, msg)] + notes) == [p]
    ensures SuccessCount([Progress(p, msg)] + notes) == SuccessCount(notes)
  {
    ProgressThenNotes([], p, msg, notes);
    assert [] + [Progress(p, msg)] + notes == [Progress(p, msg)] + notes;
    OccurrencesAppend([Progress(p, msg)], notes, SuccessNote(SuccessTitle));
  }

  lemma NoSuccessIn(evs: seq<Event>)
    requires SuccessNote(SuccessTitle) !in evs
    ensures SuccessCount(evs) == 0
  {
    OccurrencesOfAbsent(evs, SuccessNote(SuccessTitle));
  }

  lemma JavaCounts(o: StepOutcomes)
    ensures Percentages(JavaSegment(o)) == Milestones(o, JavaStep)
    ensures SuccessCount(JavaSegment(o)) == 0
  {
    PercentagesAppend([Progress(8, JavaCheckStatus)], if InstallsJava(o) then [Progress(10, JavaInstallStatus)] else []);
    NoSuccessIn(JavaSegment(o));
  }

  lemma PrepareCounts(o: StepOutcomes)
    ensures Percentages(PrepareSegment(o)) == [33]
    ensures SuccessCount(PrepareSegment(o)) == 0
  {
    ProgressThenNotesCounts(33, PrepareStatusLine, PrepareNotes(o.prepareNoted, o.prepare));
    NoSuccessIn(PrepareNotes(o.prepareNoted, o.prepare));
  }

  lemma ChecksumCounts(o: StepOutcomes)
    ensures Percentages(ChecksumSegment(o)) == [42, 86]
    ensures SuccessCount(ChecksumSegment(o)) == 0
  {
    var fetched := [Progress(42, WalletCliStatus)] + WalletCliNotes(o);
    ProgressThenNotesCounts(42, WalletCliStatus, WalletCliNotes(o));
    PercentagesAppend(fetched, [Progress(86, ChecksumStatus)]);
    NoSuccessIn(ChecksumSegment(o));
  }

  lemma ConcludeCounts(o: StepOutcomes)
    ensures Percentages(ConcludeSegment(o)) == [98, 100]
    ensures SuccessCount(ConcludeSegment(o)) == 1
  {
    var copied := [Progress(98, CopyStatus)] + CopyNotes(o);
    var after := [SuccessNote(SuccessTitle), Slept(5)] + LaunchNotes(o);
    var finished := [Progress(100, CompleteStatus)] + after;
    assert ConcludeSegment(o) == copied + finished;
    ProgressThenNotesCounts(98, CopyStatus, CopyNotes(o));
    ProgressThenNotesCounts(100, CompleteStatus, after);
    PercentagesAppend(copied, finished);
    OccurrencesAppend(copied, finished, SuccessNote(SuccessTitle));
    NoSuccessIn(CopyNotes(o));
    assert after == [SuccessNote(SuccessTitle)] + after[1..];
    OccurrencesAppend([SuccessNote(SuccessTitle)], after[1..], SuccessNote(SuccessTitle));
    NoSuccessIn(after[1..]);
  }

  /** The copy's notification is in the concluding stretch exactly when
      the copy returned an error, and the launch's exactly when the launch
      failed. */
  lemma ConcludeNotes(o: StepOutcomes)
    ensures ErrorNote(CopyFailureTitle) in ConcludeSegment(o) <==> o.copy.error.Some?
    ensures ErrorNote(LaunchFailureTitle) in ConcludeSegment(o) <==> !o.launchOk
  {
    var copied := [Progress(98, CopyStatus)] + CopyNotes(o);
    var finished := [Progress(100, CompleteStatus), SuccessNote(SuccessTitle), Slept(5)] + LaunchNotes(o);
    assert ConcludeSegment(o) == copied + finished;
    assert ErrorNote(CopyFailureTitle) !in Sleeps(o.copy.delays);
    assert ErrorNote(LaunchFailureTitle) !in Sleeps(o.copy.delays);
  }

  /** A step's stretch announces its milestones, and only the clean-up
      step's stretch holds the success notification, once. */
  lemma SegmentCounts(o: StepOutcomes, st: Step)
    ensures Percentages(Segment(o, st)) == Milestones(o, st)
    ensures SuccessCount(Segment(o, st)) == (if st == CleanUpStep then 1 else 0)
  {
    match st
    case JavaStep => JavaCounts(o);
    case PrepareStep => PrepareCounts(o);
    case DownloadStep => ProgressThenNotesCounts(35, DownloadStatus, []);
    case ChecksumStep => ChecksumCounts(o);
    case UnzipStep => ProgressThenNotesCounts(95, UnzipStatus, []);
    case CleanUpStep => ConcludeCounts(o);
  }

  /** The percentages of the reference trace are the reference milestones. */
  lemma {:induction false} TracePercentages(o: StepOutcomes, i: nat)
    ensures Percentages(TraceFrom(o, i)) == ExpectedFrom(o, i)
    decreases StepCount - i
  {
    if i < StepCount {
      var st := StepAt(i);
      var rest := if FailsAt(o, st) then Ending(o, st) else TraceFrom(o, i + 1);
      TraceFromStep(o, i);
      SegmentCounts(o, st);
      PercentagesAppend(Segment(o, st), rest);
      if FailsAt(o, st) {
        PercentagesOfNotes(Ending(o, st));
        assert ExpectedFrom(o, i) == Milestones(o, st) + [];
      } else {
        TracePercentages(o, i + 1);
      }
    }
  }

  /** The reference trace holds the success notification once when the run
      gets past extraction, and not at all otherwise. */
  lemma {:induction false} TraceSuccessCount(o: StepOutcomes, i: nat)
    requires i < StepCount
    ensures SuccessCount(TraceFrom(o, i)) == (if SucceedsFrom(o, i) then 1 else 0)
    decreases StepCount - i
  {
    var st := StepAt(i);
    var rest := if FailsAt(o, st) then Ending(o, st) else TraceFrom(o, i + 1);
    TraceFromStep(o, i);
    SegmentCounts(o, st);
    OccurrencesAppend(Segment(o, st), rest, SuccessNote(SuccessTitle));
    if FailsAt(o, st) || i + 1 == StepCount {
      OccurrencesOfAbsent(rest, SuccessNote(SuccessTitle));
    } else {
      TraceSuccessCount(o, i + 1);
    }
  }

  /** `e` ends with the events `f`. */
  predicate EndsWith(e: seq<Event>, f: seq<Event>) {
    |f| <= |e| && e[|e| - |f|..] == f
  }

  lemma EndsWithAppend(a: seq<Event>, b: seq<Event>, f: seq<Event>)
    requires EndsWith(b, f)
    ensures EndsWith(a + b, f)
  {
    assert (a + b)[|a + b| - |f|..] == b[|b| - |f|..];
  }

  /** The fatal ending of a step. */
  function FatalEnding(st: Step): seq<Event> {
    [ErrorNote(FatalTitle(st)), Slept(10)]
  }

  /** When PrepareFS exits the process itself, its own notifications end
      its stretch with the fatal note and the ten-second pause. */
  lemma PrepareExitEnds(o: StepOutcomes)
    requires o.prepare == PrepareExited
    ensures EndsWith(PrepareSegment(o), FatalEnding(PrepareStep))
  {
    assert FatalEnding(PrepareStep) == [ErrorNote(PrepareFailureTitle), Slept(10)];
    HeadThenLastTwo(Progress(33, PrepareStatusLine), PrepareNotes(o.prepareNoted, o.prepare),
      ErrorNote(PrepareFailureTitle), Slept(10));
  }

  /** Putting an event in front keeps the last two events. */
  lemma HeadThenLastTwo(h: Event, notes: seq<Event>, x: Event, y: Event)
    requires |notes| >= 2 && notes[|notes| - 2] == x && notes[|notes| - 1] == y
    ensures EndsWith([h] + notes, [x, y])
  {
    var e := [h] + notes;
    assert e[|e| - 2] == x && e[|e| - 1] == y;
    EndsWithLastTwo(e, x, y);
  }

  lemma EndsWithLastTwo(e: seq<Event>, x: Event, y: Event)
    requires |e| >= 2 && e[|e| - 2] == x && e[|e| - 1] == y
    ensures EndsWith(e, [x, y])
  {
    assert e[|e| - 2..] == [x, y];
  }

  /** A step that fails ends its part of the trace with its notification
      and a ten-second pause, sent by the run or, when PrepareFS exits the
      process itself, by PrepareFS. */
  lemma StepEndsFatally(o: StepOutcomes, st: Step)
    requires FailsAt(o, st)
    ensures EndsWith(Segment(o, st) + Ending(o, st), FatalEnding(st))
  {
    if st == PrepareStep && o.prepare == PrepareExited {
      PrepareExitEnds(o);
      assert Segment(o, st) + Ending(o, st) == PrepareSegment(o);
    } else {
      EndsWithAppend(Segment(o, st), Ending(o, st), FatalEnding(st));
    }
  }

  /** A reference run that aborts ends with the failed step's notification
      and a ten-second pause. */
  lemma {:induction false} TraceEndsFatally(o: StepOutcomes, i: nat)
    ensures FinalFrom(o, i).Aborted? ==> EndsWith(TraceFrom(o, i), FatalEnding(FinalFrom(o, i).at))
    decreases StepCount - i
  {
    if i < StepCount {
      var vs := Views(o);
      var st := StepAt(i);
      assert vs[i] == StepView(Segment(o, st), FailsAt(o, st), Ending(o, st));
      if FailsAt(o, st) {
        StepEndsFatally(o, st);
      } else {
        TraceEndsFatally(o, i + 1);
        if FinalFrom(o, i + 1).Aborted? {
          EndsWithAppend(vs[i].stretch, TraceOf(vs, i + 1), FatalEnding(FinalFrom(o, i + 1).at));
        }
      }
    }
  }

  /** Every step before the `k`-th passes. */
  predicate Reaches(o: StepOutcomes, k: nat)
    requires k <= StepCount
  {
    forall j :: 0 <= j < k ==> !FailsAt(o, StepAt(j))
  }

  /** Event `x` can only come from the `k`-th step's stretch: no other
      stretch and no ending holds it. */
  predicate OnlyIn(vs: seq<StepView>, k: nat, x: Event) {
    && (forall j :: 0 <= j < |vs| && j != k ==> x !in vs[j].stretch)
    && (forall j :: 0 <= j < |vs| ==> x !in vs[j].ending)
  }

  lemma {:induction false} AbsentFrom(vs: seq<StepView>, i: nat, k: nat, x: Event)
    requires k < i && OnlyIn(vs, k, x)
    ensures x !in TraceOf(vs, i)
    decreases |vs| - i
  {
    if i < |vs| {
      AbsentFrom(vs, i + 1, k, x);
    }
  }

  /** An event that only the `k`-th step's stretch holds is in the trace
      exactly when the run reaches that step and the stretch holds it. */
  lemma {:induction false} InTraceIffReached(vs: seq<StepView>, i: nat, k: nat, x: Event)
    requires i <= k < |vs| && OnlyIn(vs, k, x)
    ensures x in TraceOf(vs, i) <==> (forall j :: i <= j < k ==> !vs[j].fails) && x in vs[k].stretch
    decreases k - i
  {
    if i < k {
      if !vs[i].fails {
        InTraceIffReached(vs, i + 1, k, x);
      }
    } else if !vs[i].fails {
      AbsentFrom(vs, i + 1, k, x);
    }
  }

  /** Every `a` in `e` is followed right away by the events `f`. */
  predicate Followed(e: seq<Event>, a: Event, f: seq<Event>) {
    forall j :: 0 <= j < |e| && e[j] == a ==> j + 1 + |f| <= |e| && e[j + 1..j + 1 + |f|] == f
  }

  lemma FollowedAppend(x: seq<Event>, y: seq<Event>, a: Event, f: seq<Event>)
    requires (Followed(x, a, f) && a !in y) || (Followed(y, a, f) && a !in x)
    ensures Followed(x + y, a, f)
  {
    var e := x + y;
    forall j | 0 <= j < |e| && e[j] == a ensures j + 1 + |f| <= |e| && e[j + 1..j + 1 + |f|] == f {
      if j < |x| {
        assert x[j] == a;
        assert e[j + 1..j + 1 + |f|] == x[j + 1..j + 1 + |f|];
      } else {
        assert y[j - |x|] == a;
        assert e[j + 1..j + 1 + |f|] == y[j - |x| + 1..j - |x| + 1 + |f|];
      }
    }
  }

  /** What the `k`-th step's stretch says about an event only it holds, the
      trace says too. */
  lemma {:induction false} FollowedInTrace(vs: seq<StepView>, i: nat, k: nat, a: Event, f: seq<Event>)
    requires i <= k < |vs| && OnlyIn(vs, k, a) && Followed(vs[k].stretch, a, f)
    ensures Followed(TraceOf(vs, i), a, f)
    decreases k - i
  {
    var rest := if vs[i].fails then vs[i].ending else TraceOf(vs, i + 1);
    if i < k {
      if !vs[i].fails {
        FollowedInTrace(vs, i + 1, k, a, f);
      }
    } else if !vs[i].fails {
      AbsentFrom(vs, i + 1, k, a);
    }
    FollowedAppend(vs[i].stretch, rest, a, f);
  }

  lemma FollowedHead(a: Event, f: seq<Event>)
    requires a !in f
    ensures Followed([a] + f, a, f)
  {
    assert ([a] + f)[1..] == f;
  }

  /** The `i`-th step's entry in the steps of a run. */
  lemma ViewAt(o: StepOutcomes, i: nat)
    requires i < StepCount
    ensures Views(o)[i] == StepView(Segment(o, StepAt(i)), FailsAt(o, StepAt(i)), Ending(o, StepAt(i)))
  {
  }

  /** The reference trace from step `i`: its stretch, then its ending if it
      fails, or the trace from the next step if it passes. */
  lemma TraceFromStep(o: StepOutcomes, i: nat)
    requires i < StepCount
    ensures TraceFrom(o, i) == Segment(o, StepAt(i)) +
      (if FailsAt(o, StepAt(i)) then Ending(o, StepAt(i)) else TraceFrom(o, i + 1))
  {
    ViewAt(o, i);
  }

  lemma StepAtInjective(j: nat, k: nat)
    requires j < StepCount && k < StepCount && j != k
    ensures StepAt(j) != StepAt(k)
  {
  }

  /** An event that no other step's stretch and no ending holds can only
      come from the `k`-th step's stretch. */
  lemma OnlyInRun(o: StepOutcomes, k: nat, x: Event)
    requires k < StepCount
    requires forall st :: st != StepAt(k) ==> x !in Segment(o, st)
    requires forall st :: x !in Ending(o, st)
    ensures OnlyIn(Views(o), k, x)
  {
    var vs := Views(o);
    forall j | 0 <= j < |vs| && j != k ensures x !in vs[j].stretch {
      ViewAt(o, j);
      StepAtInjective(j, k);
    }
    forall j | 0 <= j < |vs| ensures x !in vs[j].ending {
      ViewAt(o, j);
    }
  }

  /** The run passes the steps before the `k`-th exactly when its steps
      say so. */
  lemma ReachesInRun(o: StepOutcomes, k: nat)
    requires k < StepCount
    ensures Reaches(o, k) <==> forall j :: 0 <= j < k ==> !Views(o)[j].fails
  {
    forall j | 0 <= j < k {
      ViewAt(o, j);
    }
  }

  /** An event that only the `k`-th step's stretch holds is in the run's
      trace exactly when the run reaches that step and the stretch holds
      it. */
  lemma InRunIffReached(o: StepOutcomes, k: nat, x: Event)
    requires k < StepCount
    requires forall st :: st != StepAt(k) ==> x !in Segment(o, st)
    requires forall st :: x !in Ending(o, st)
    ensures x in TraceFrom(o, 0) <==> Reaches(o, k) && x in Segment(o, StepAt(k))
  {
    OnlyInRun(o, k, x);
    InTraceIffReached(Views(o), 0, k, x);
    ReachesInRun(o, k);
    ViewAt(o, k);
  }

  lemma FollowedInRun(o: StepOutcomes, k: nat, a: Event, f: seq<Event>)
    requires k < StepCount
    requires forall st :: st != StepAt(k) ==> a !in Segment(o, st)
    requires forall st :: a !in Ending(o, st)
    requires Followed(Segment(o, StepAt(k)), a, f)
    ensures Followed(TraceFrom(o, 0), a, f)
  {
    OnlyInRun(o, k, a);
    ViewAt(o, k);
    FollowedInTrace(Views(o), 0, k, a, f);
  }

  /** A failed wallet-jar download is notified exactly when the run gets
      to it, and the run goes on. */
  lemma WalletCliFailureIsReported(o: StepOutcomes)
    ensures ErrorNote(WalletCliFailureTitle) in TraceFrom(o, 0) <==> Reaches(o, 3) && !o.walletCliOk
  {
    var x := ErrorNote(WalletCliFailureTitle);
    forall st | st != ChecksumStep ensures x !in Segment(o, st) {
      if st == PrepareStep {
        assert x !in PrepareNotes(o.prepareNoted, o.prepare);
      }
    }
    NoEndingHolds(o, x);
    assert StepAt(3) == ChecksumStep;
    InRunIffReached(o, 3, x);
  }

  /** A dag folder that PrepareFS could not remove is notified exactly when
      the run gets to PrepareFS. */
  lemma PrepareErrorIsReported(o: StepOutcomes)
    ensures ErrorNote("Error:") in TraceFrom(o, 0) <==> Reaches(o, 1) && o.prepareNoted
  {
    var x := ErrorNote("Error:");
    forall st | st != PrepareStep ensures x !in Segment(o, st) {
      if st == CleanUpStep {
        assert x !in Sleeps(o.copy.delays);
      }
    }
    NoEndingHolds(o, x);
    assert StepAt(1) == PrepareStep;
    InRunIffReached(o, 1, x);
  }

  /** A copy that returned an error is notified exactly when the run gets
      past extraction. */
  lemma CopyFailureIsReported(o: StepOutcomes)
    ensures ErrorNote(CopyFailureTitle) in TraceFrom(o, 0) <==> Reaches(o, 5) && o.copy.error.Some?
  {
    var x := ErrorNote(CopyFailureTitle);
    InConcludeIffReached(o, x);
    ConcludeNotes(o);
  }

  /** The copy's and the launch's notifications are in the run exactly when
      it reaches the concluding step and that step's stretch holds them. */
  lemma InConcludeIffReached(o: StepOutcomes, x: Event)
    requires x == ErrorNote(CopyFailureTitle) || x == ErrorNote(LaunchFailureTitle)
    ensures x in TraceFrom(o, 0) <==> Reaches(o, 5) && x in ConcludeSegment(o)
  {
    OnlyConcludeNotifies(o, x);
    assert StepAt(5) == CleanUpStep;
    assert Segment(o, CleanUpStep) == ConcludeSegment(o);
    InRunIffReached(o, 5, x);
  }

  /** The copy's and the launch's notifications appear in no stretch but
      the concluding one, and in no fatal ending. */
  lemma OnlyConcludeNotifies(o: StepOutcomes, x: Event)
    requires x == ErrorNote(CopyFailureTitle) || x == ErrorNote(LaunchFailureTitle)
    ensures forall st :: st != CleanUpStep ==> x !in Segment(o, st)
    ensures forall st :: x !in Ending(o, st)
  {
    assert x !in PrepareNotes(o.prepareNoted, o.prepare);
    assert x !in JavaSegment(o) && x !in PrepareSegment(o) && x !in ChecksumSegment(o);
    NoEndingHolds(o, x);
  }

  /** The notifications of failures the run survives. */
  predicate NonFatalNote(x: Event) {
    || x == ErrorNote(CopyFailureTitle) || x == ErrorNote(LaunchFailureTitle)
    || x == ErrorNote(WalletCliFailureTitle) || x == ErrorNote("Error:")
  }

  /** No fatal ending holds the notification of a failure the run survives. */
  lemma NoEndingHolds(o: StepOutcomes, x: Event)
    requires NonFatalNote(x)
    ensures forall st :: x !in Ending(o, st)
  {
    forall st | true
      ensures x !in Ending(o, st)
    {
      NotAFatalTitle(x, st);
    }
  }

  /** No notification of a failure the run survives carries the title of a
      fatal step: the copy's title parts from the clean-up's at its eleventh
      character, and the launch's from the checksum's at its first; all
      other pairs differ in length. */
  lemma NotAFatalTitle(x: Event, st: Step)
    requires NonFatalNote(x)
    ensures x != ErrorNote(FatalTitle(st))
  {
    match st
    case CleanUpStep =>
      assert CopyFailureTitle[10] != CleanUpFailureTitle[10];
      assert |LaunchFailureTitle| != |CleanUpFailureTitle|;
    case ChecksumStep =>
      assert LaunchFailureTitle[0] != ChecksumFailureTitle[0];
      assert |CopyFailureTitle| != |ChecksumFailureTitle|;
    case _ =>
  }

  lemma LaunchFailureIsReported(o: StepOutcomes)
    ensures ErrorNote(LaunchFailureTitle) in TraceFrom(o, 0) <==> Reaches(o, 5) && !o.launchOk
  {
    var x := ErrorNote(LaunchFailureTitle);
    InConcludeIffReached(o, x);
    ConcludeNotes(o);
  }

  /** Progress 42 is followed right away by the wallet-jar failure's
      notification and ten-second pause, if any, then by progress 86. */
  lemma WalletCliOrder(o: StepOutcomes)
    ensures Followed(TraceFrom(o, 0), Progress(42, WalletCliStatus), WalletCliNotes(o) + [Progress(86, ChecksumStatus)])
  {
    var a := Progress(42, WalletCliStatus);
    var f := WalletCliNotes(o) + [Progress(86, ChecksumStatus)];
    forall st | st != ChecksumStep ensures a !in Segment(o, st) {
      if st == PrepareStep {
        assert a !in PrepareNotes(o.prepareNoted, o.prepare);
      } else if st == CleanUpStep {
        assert a !in Sleeps(o.copy.delays);
      }
    }
    assert ChecksumSegment(o) == [a] + f;
    FollowedHead(a, f);
    FollowedInRun(o, 3, a, f);
  }

  /** Progress 98 is followed right away by the copy's retry pauses, its
      notification if it returned an error, progress 100, the success
      notification, the five-second pause and the launch's notification if
      it failed. */
  lemma ConcludingOrder(o: StepOutcomes)
    ensures Followed(TraceFrom(o, 0), Progress(98, CopyStatus),
      CopyNotes(o) + [Progress(100, CompleteStatus), SuccessNote(SuccessTitle), Slept(5)] + LaunchNotes(o))
  {
    var a := Progress(98, CopyStatus);
    var f := CopyNotes(o) + [Progress(100, CompleteStatus), SuccessNote(SuccessTitle), Slept(5)] + LaunchNotes(o);
    forall st | st != CleanUpStep ensures a !in Segment(o, st) {
      if st == PrepareStep {
        assert a !in PrepareNotes(o.prepareNoted, o.prepare);
      }
    }
    assert a !in Sleeps(o.copy.delays);
    assert ConcludeSegment(o) == [a] + f;
    FollowedHead(a, f);
    FollowedInConclude(o, a, f);
  }

  /** The success notification is followed right away by the five-second
      pause, then by the launch's notification if the launch failed. */
  lemma SuccessThenPause(o: StepOutcomes)
    ensures Followed(TraceFrom(o, 0), SuccessNote(SuccessTitle), [Slept(5)] + LaunchNotes(o))
  {
    var sn := SuccessNote(SuccessTitle);
    var before := [Progress(98, CopyStatus)] + CopyNotes(o) + [Progress(100, CompleteStatus)];
    var after := [Slept(5)] + LaunchNotes(o);
    SuccessOnlyConcludes(o);
    ConcludeAroundSuccess(o);
    FollowedHead(sn, after);
    FollowedAppend(before, [sn] + after, sn, after);
    FollowedInConclude(o, sn, after);
  }

  /** The success notification sits in the concluding stretch, between
      progress 100 and the five-second pause, and nowhere else in the run. */
  lemma SuccessOnlyConcludes(o: StepOutcomes)
    ensures forall st :: st != CleanUpStep ==> SuccessNote(SuccessTitle) !in Segment(o, st)
    ensures forall st :: SuccessNote(SuccessTitle) !in Ending(o, st)
  {
    assert SuccessNote(SuccessTitle) !in PrepareNotes(o.prepareNoted, o.prepare);
    ConcludeAroundSuccess(o);
  }

  /** The concluding stretch around its success notification. */
  lemma ConcludeAroundSuccess(o: StepOutcomes)
    ensures SuccessNote(SuccessTitle) !in [Progress(98, CopyStatus)] + CopyNotes(o) + [Progress(100, CompleteStatus)]
    ensures ConcludeSegment(o) == [Progress(98, CopyStatus)] + CopyNotes(o) + [Progress(100, CompleteStatus)]
      + ([SuccessNote(SuccessTitle)] + ([Slept(5)] + LaunchNotes(o)))
  {
    assert SuccessNote(SuccessTitle) !in Sleeps(o.copy.delays);
  }

  /** What the concluding stretch says about an event only it holds, the
      whole run says too. */
  lemma FollowedInConclude(o: StepOutcomes, a: Event, f: seq<Event>)
    requires forall st :: st != CleanUpStep ==> a !in Segment(o, st)
    requires forall st :: a !in Ending(o, st)
    requires Followed(ConcludeSegment(o), a, f)
    ensures Followed(TraceFrom(o, 0), a, f)
  {
    assert StepAt(5) == CleanUpStep;
    assert Segment(o, CleanUpStep) == ConcludeSegment(o);
    FollowedInRun(o, 5, a, f);
  }

  // ---- Properties of the reference run ----

  predicate Increasing(s: seq<int>) {
    forall j, k :: 0 <= j < k < |s| ==> s[j] < s[k]
  }

  /** The first percentage a fatal step's stretch of the run announces. */
  function Floor(st: Step): int {
    match st
    case JavaStep => 8
    case PrepareStep => 33
    case DownloadStep => 35
    case ChecksumStep => 42
    case UnzipStep => 95
    case CleanUpStep => 98
  }

  /** The milestones of a step are increasing, start at its floor and stay
      below the next step's floor. */
  lemma MilestonesBetween(o: StepOutcomes, i: nat)
    requires i < StepCount
    ensures var m := Milestones(o, StepAt(i));
      && |m| > 0 && m[0] == Floor(StepAt(i)) && Increasing(m)
      && (i + 1 < StepCount ==> forall k :: 0 <= k < |m| ==> m[k] < Floor(StepAt(i + 1)))
  {
  }

  /** Two increasing runs of numbers, the second starting where the first
      has ended, make an increasing run. */
  lemma IncreasingConcat(m: seq<int>, rest: seq<int>, b: int)
    requires Increasing(m) && Increasing(rest)
    requires forall k :: 0 <= k < |m| ==> m[k] < b
    requires |rest| > 0 ==> rest[0] >= b
    ensures Increasing(m + rest)
  {
    var e := m + rest;
    forall j, k | 0 <= j < k < |e| ensures e[j] < e[k] {
      if k < |m| {
        assert m[j] < m[k];
      } else if j >= |m| {
        assert rest[j - |m|] < rest[k - |m|];
      } else if k - |m| > 0 {
        assert rest[0] < rest[k - |m|];
      }
    }
  }

  /** The reference percentages from the `i`-th step on are increasing and
      start at that step's floor. */
  lemma {:induction false} ExpectedIncreasing(o: StepOutcomes, i: nat)
    requires i < StepCount
    ensures var e := ExpectedFrom(o, i);
      && |e| > 0 && e[0] == Floor(StepAt(i)) && Increasing(e)
    decreases StepCount - i
  {
    var m := Milestones(o, StepAt(i));
    MilestonesBetween(o, i);
    if !FailsAt(o, StepAt(i)) && i + 1 < StepCount {
      ExpectedIncreasing(o, i + 1);
      IncreasingConcat(m, ExpectedFrom(o, i + 1), Floor(StepAt(i + 1)));
    } else {
      assert ExpectedFrom(o, i) == m + [];
    }
  }

  /** The percentage the run shows last: 100 for a completed run, otherwise
      the last milestone of the step that aborted it. */
  function LastShown(o: StepOutcomes, f: Final): int {
    match f
    case Completed => 100
    case Aborted(st) => var m := Milestones(o, st); if |m| == 0 then 0 else m[|m| - 1]
  }

  /** The reference trace ends at the last percentage of the step where the
      run stops. */
  lemma {:induction false} ExpectedEndsWhereRunStops(o: StepOutcomes, i: nat)
    requires i < StepCount
    ensures var e := ExpectedFrom(o, i);
      |e| > 0 && e[|e| - 1] == LastShown(o, FinalFrom(o, i))
    decreases StepCount - i
  {
    if !FailsAt(o, StepAt(i)) && i + 1 < StepCount {
      ExpectedEndsWhereRunStops(o, i + 1);
    }
  }

  /** The progress bar of a run is increasing, and it reaches 100 exactly
      when the run completes or is aborted by the final clean-up. */
  lemma ProgressReaches100(o: StepOutcomes)
    ensures Increasing(ExpectedFrom(o, 0))
    ensures var e := ExpectedFrom(o, 0);
      |e| > 0 && e[0] == Floor(JavaStep)
      && (e[|e| - 1] == 100 <==> FinalFrom(o, 0) == Completed || FinalFrom(o, 0) == Aborted(CleanUpStep))
  {
    ExpectedIncreasing(o, 0);
    ExpectedEndsWhereRunStops(o, 0);
    LastShownIs100(o, FinalFrom(o, 0));
  }

  /** Only a completed run, or one aborted by the final clean-up, shows 100
      last. */
  lemma LastShownIs100(o: StepOutcomes, f: Final)
    ensures LastShown(o, f) == 100 <==> f == Completed || f == Aborted(CleanUpStep)
  {
    match f
    case Completed =>
    case Aborted(st) =>
      match st
      case CleanUpStep =>
      case _ =>
  }

  /** Without failures the run shows every milestone: 8, 10 only on Windows
      without Java, 33, 35, 42, 86, 95, 98 and 100. */
  lemma CompletedRunShowsAllMilestones(o: StepOutcomes)
    requires forall j :: 0 <= j < StepCount ==> !FailsAt(o, StepAt(j))
    ensures FinalFrom(o, 0) == Completed
    ensures ExpectedFrom(o, 0) == (if InstallsJava(o) then [8, 10] else [8]) + [33, 35, 42, 86, 95, 98, 100]
  {
    CompletesWithoutFailure(o, 0);
    assert !FailsAt(o, StepAt(5));
    assert ExpectedFrom(o, 5) == [98, 100];
    assert !FailsAt(o, StepAt(4));
    assert ExpectedFrom(o, 4) == [95, 98, 100];
    assert !FailsAt(o, StepAt(3));
    assert ExpectedFrom(o, 3) == [42, 86, 95, 98, 100];
    assert !FailsAt(o, StepAt(2));
    assert ExpectedFrom(o, 2) == [35, 42, 86, 95, 98, 100];
    assert !FailsAt(o, StepAt(1));
    assert ExpectedFrom(o, 1) == [33, 35, 42, 86, 95, 98, 100];
    assert !FailsAt(o, StepAt(0));
  }

  /** The run aborts at the `k`-th step exactly when that step fails and no
      earlier one does. */
  lemma {:induction false} AbortsAtFirstFailure(o: StepOutcomes, i: nat, k: nat)
    requires i <= k < StepCount
    ensures FinalFrom(o, i) == Aborted(StepAt(k)) <==>
      (FailsAt(o, StepAt(k)) && forall j :: i <= j < k ==> !FailsAt(o, StepAt(j)))
    decreases k - i
  {
    if i < k {
      AbortsAtFirstFailure(o, i + 1, k);
      if FailsAt(o, StepAt(i)) {
        assert StepAt(i) != StepAt(k);
      }
    }
  }

  /** The run completes exactly when no step fails. */
  lemma {:induction false} CompletesWithoutFailure(o: StepOutcomes, i: nat)
    requires i <= StepCount
    ensures FinalFrom(o, i) == Completed <==> forall j :: i <= j < StepCount ==> !FailsAt(o, StepAt(j))
    decreases StepCount - i
  {
    if i < StepCount {
      CompletesWithoutFailure(o, i + 1);
    }
  }

  /** The outcomes that only lead to a notification: the wallet-jar download,
      the copy, the launch and PrepareFS's "Error:" note. */
  predicate SameFatalOutcomes(o: StepOutcomes, p: StepOutcomes) {
    && o.goos == p.goos && o.javaInstalled == p.javaInstalled && o.javaInstallOk == p.javaInstallOk
    && o.prepare == p.prepare && o.downloadOk == p.downloadOk && o.checksum == p.checksum
    && o.unzipOk == p.unzipOk && o.cleanUpOk == p.cleanUpOk
  }

  lemma SameStepBehaviour(o: StepOutcomes, p: StepOutcomes, st: Step)
    requires SameFatalOutcomes(o, p)
    ensures FailsAt(o, st) == FailsAt(p, st)
    ensures Milestones(o, st) == Milestones(p, st)
  {
  }

  /** Non-fatal failures do not change where the run ends, which
      percentages it shows, or whether it announces success. */
  lemma {:induction false} NonFatalOutcomesKeepCourse(o: StepOutcomes, p: StepOutcomes, i: nat)
    requires SameFatalOutcomes(o, p)
    ensures FinalFrom(o, i) == FinalFrom(p, i)
    ensures ExpectedFrom(o, i) == ExpectedFrom(p, i)
    ensures SucceedsFrom(o, i) == SucceedsFrom(p, i)
    decreases StepCount - i
  {
    if i < StepCount {
      NonFatalOutcomesKeepCourse(o, p, i + 1);
      SameStepBehaviour(o, p, StepAt(i));
    }
  }

  /** Success is announced exactly when no step before the copy fails. */
  lemma {:induction false} SuccessIffNoEarlyFailure(o: StepOutcomes, i: nat)
    requires i <= StepCount - 1
    ensures SucceedsFrom(o, i) <==> forall j :: i <= j < StepCount - 1 ==> !FailsAt(o, StepAt(j))
    decreases StepCount - i
  {
    if i < StepCount - 1 {
      SuccessIffNoEarlyFailure(o, i + 1);
    }
  }

  /** Success is announced whenever the run gets past extraction, even when
      the copy failed, and even when the clean-up afterwards aborts. */
  lemma {:induction false} SuccessOnceReachedCopy(o: StepOutcomes, i: nat)
    requires i < StepCount
    requires forall j :: i <= j < StepCount - 1 ==> !FailsAt(o, StepAt(j))
    ensures SucceedsFrom(o, i)
    ensures FinalFrom(o, i) == (if o.cleanUpOk then Completed else Aborted(CleanUpStep))
    decreases StepCount - i
  {
    if i < StepCount - 1 {
      SuccessOnceReachedCopy(o, i + 1);
    }
  }

  /** A failed checksum (an error or a mismatch) stops the run before the
      copy: neither 98 nor 100 is shown and success is never announced. */
  lemma {:induction false} ChecksumFailureStopsBeforeCopy(o: StepOutcomes, i: nat)
    requires i <= 3 && o.checksum != Ok(true)
    ensures 98 !in ExpectedFrom(o, i) && 100 !in ExpectedFrom(o, i)
    ensures !SucceedsFrom(o, i)
    decreases StepCount - i
  {
    if i < 3 {
      ChecksumFailureStopsBeforeCopy(o, i + 1);
    } else {
      assert ExpectedFrom(o, 3) == [42, 86];
    }
  }
}

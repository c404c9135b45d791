/** The state of the main window that its slots read and change, and what each
    slot does to it (mainwindow.cpp:119-319). The pure functions here say what a
    slot does; class MainWindow at the end does it step by step, as the slots do,
    and each of its methods is proved to agree with its function. */
module Window {
  import opened Options
  import opened QtText
  import opened DeviceList
  import opened Flashing

  /** Status texts the flashing slots write. */
  const ReadyText: string := "就绪"
  const FirmwareChosenText: string := "固件已选择"
  const FlashingText: string := "正在刷机..."
  const CancelledText: string := "刷机已取消"
  const SuccessText: string := "刷机成功！请重启设备"
  const FailedText: string := "刷机失败"

  /** How the flashing process ended (QProcess::ExitStatus). */
  datatype ExitStatus = NormalExit | CrashExit

  /** What a click on "开始刷机" led to: one of the two warning boxes, a "No" in
      the confirmation box, or the command line started under "cmd.exe /c". */
  datatype StartOutcome = NoDeviceWarning | NoFirmwareWarning | Declined | Launched(command: string)

  /** The message box shown when the flashing process ends. */
  datatype Dialog = Information(title: string, text: string) | Critical(title: string, text: string)

  /** Everything the slots read or write: the device table and its selected row,
      the timer's remembered row count (a function-static in the source), the
      chosen firmware, the device id read at the last start, the flashing flag,
      the progress bar's value, whether the flash and stop buttons are enabled,
      and the status line. */
  datatype WindowState = WindowState(
    table: seq<DeviceRow>,
    selection: Option<nat>,
    previousDeviceCount: int,
    firmwarePath: string,
    selectedDevice: string,
    isFlashing: bool,
    progress: int,
    flashEnabled: bool,
    stopEnabled: bool,
    status: string)

  /** The window as the constructor leaves it (mainwindow.cpp:20-22, 78, 85-88, 192). */
  function Initial(): WindowState
  {
    WindowState([], None, -1, [], [], false, 0, true, false, ReadyText)
  }

  /** A selected row is a row of the table. */
  predicate SelectionValid(s: WindowState)
  {
    s.selection.Some? ==> s.selection.value < |s.table|
  }

  /** What holds of every window the slots can reach: the flash button is
      enabled exactly when no flash is running and the stop button exactly when
      one is, the progress bar stays within its 0..100 range, and the timer's
      count is -1 or a row count. */
  predicate Consistent(s: WindowState)
  {
    && SelectionValid(s)
    && s.flashEnabled == !s.isFlashing
    && s.stopEnabled == s.isFlashing
    && 0 <= s.progress <= 100
    && s.previousDeviceCount >= -1
  }

  /** updateDeviceList: the table is rebuilt from the two tools' output (which
      drops the selection) and the status line reports whether any row came of it. */
  function Refreshed(s: WindowState, fastboot: ToolRun, adb: ToolRun): WindowState
  {
    var table := RefreshedTable(fastboot, adb);
    s.(table := table, selection := None, status := RefreshStatus(|table|))
  }

  /** checkDeviceConnection: one timer tick. */
  function Ticked(s: WindowState, fastboot: ToolRun, adb: ToolRun): WindowState
  {
    var current := |s.table|;
    if ShouldRefresh(s.previousDeviceCount, current) then
      Refreshed(s, fastboot, adb).(previousDeviceCount := current)
    else s
  }

  /** The user clicks a row of the table (Qt's own selection handling). */
  function RowSelected(s: WindowState, row: nat): WindowState
  {
    if row < |s.table| then s.(selection := Some(row)) else s
  }

  /** on_browseButton_clicked: the file chosen in the dialog, empty when it was
      cancelled. */
  function Browsed(s: WindowState, chosen: string): WindowState
  {
    if chosen != [] then s.(firmwarePath := chosen, status := FirmwareChosenText) else s
  }

  /** on_flashButton_clicked, given the combo box text and the answer to the
      confirmation box. */
  function FlashRequested(s: WindowState, item: string, confirmed: bool): (WindowState, StartOutcome)
    requires SelectionValid(s)
  {
    if s.selection.None? then (s, NoDeviceWarning)
    else if s.firmwarePath == [] then (s, NoFirmwareWarning)
    else
      var picked := s.(selectedDevice := s.table[s.selection.value].id);
      if !confirmed then (picked, Declined)
      else
        (picked.(isFlashing := true, flashEnabled := false, stopEnabled := true, progress := 0, status := FlashingText),
         Launched(FlashCommand(item, s.firmwarePath)))
  }

  /** on_stopButton_clicked. */
  function Stopped(s: WindowState): WindowState
  {
    s.(isFlashing := false, flashEnabled := true, stopEnabled := false, status := CancelledText)
  }

  /** handleProcessOutput, given the chunk of standard output that arrived. */
  function OutputSeen(s: WindowState, chunk: string): WindowState
  {
    match Milestone(chunk)
    case None => s
    case Some(value) => s.(progress := value)
  }

  /** handleProcessFinished, given the exit code and status, the process's
      standard error, and what the device refresh at its end finds. */
  function ProcessEnded(s: WindowState, exitCode: int, exitStatus: ExitStatus, stderr: string,
                        fastboot: ToolRun, adb: ToolRun): (WindowState, Dialog)
  {
    var idle := s.(isFlashing := false, flashEnabled := true, stopEnabled := false);
    if exitStatus == NormalExit && exitCode == 0 then
      (Refreshed(idle.(progress := 100, status := SuccessText), fastboot, adb),
       Information("成功", "刷机操作已完成"))
    else
      (Refreshed(idle.(status := FailedText), fastboot, adb),
       Critical("错误", "刷机失败: " + stderr))
  }

  /** Everything that can happen to the window: timer ticks, clicks, dialog
      answers, and the flashing process's output and end. */
  datatype Event =
    | Tick(fastboot: ToolRun, adb: ToolRun)
    | RefreshClick(fastboot: ToolRun, adb: ToolRun)
    | RowClick(row: nat)
    | BrowseClick(chosen: string)
    | FlashClick(item: string, confirmed: bool)
    | StopClick
    | Output(chunk: string)
    | Exit(exitCode: int, exitStatus: ExitStatus, stderr: string, endFastboot: ToolRun, endAdb: ToolRun)

  function Step(s: WindowState, e: Event): WindowState
    requires SelectionValid(s)
  {
    match e
    case Tick(fastboot, adb) => Ticked(s, fastboot, adb)
    case RefreshClick(fastboot, adb) => Refreshed(s, fastboot, adb)
    case RowClick(row) => RowSelected(s, row)
    case BrowseClick(chosen) => Browsed(s, chosen)
    case FlashClick(item, confirmed) => FlashRequested(s, item, confirmed).0
    case StopClick => Stopped(s)
    case Output(chunk) => OutputSeen(s, chunk)
    case Exit(code, status, stderr, fastboot, adb) => ProcessEnded(s, code, status, stderr, fastboot, adb).0
  }

  /** Every slot keeps the window consistent. */
  lemma StepKeepsConsistent(s: WindowState, e: Event)
    requires Consistent(s)
    ensures Consistent(Step(s, e))
  {
  }

  /** The window after a run of events, delivered one at a time in order. */
  function Run(s: WindowState, events: seq<Event>): WindowState
    requires Consistent(s)
    decreases |events|
  {
    if |events| == 0 then s
    else
      StepKeepsConsistent(s, events[0]);
      Run(Step(s, events[0]), events[1..])
  }

  /** Whatever happens, a window that started as the constructor left it keeps
      its buttons in step with the flashing flag and its progress in 0..100. */
  lemma {:induction false} RunKeepsConsistent(s: WindowState, events: seq<Event>)
    requires Consistent(s)
    ensures Consistent(Run(s, events))
    decreases |events|
  {
    if |events| > 0 {
      StepKeepsConsistent(s, events[0]);
      RunKeepsConsistent(Step(s, events[0]), events[1..]);
    }
  }

  /** The first tick after start-up always refreshes, since the remembered count
      starts at -1, and then remembers the empty table's count 0. */
  lemma FirstTickRefreshes(fastboot: ToolRun, adb: ToolRun)
    ensures Ticked(Initial(), fastboot, adb) == Refreshed(Initial(), fastboot, adb).(previousDeviceCount := 0)
  {
  }

  /** A tick remembers the row count from BEFORE its refresh, and only when it
      refreshes. */
  lemma TickRemembersCountBefore(s: WindowState, fastboot: ToolRun, adb: ToolRun)
    ensures Ticked(s, fastboot, adb).previousDeviceCount ==
              if ShouldRefresh(s.previousDeviceCount, |s.table|) then |s.table| else s.previousDeviceCount
    ensures Ticked(s, fastboot, adb).table ==
              if ShouldRefresh(s.previousDeviceCount, |s.table|) then RefreshedTable(fastboot, adb) else s.table
  {
  }

  /** An empty table is refreshed on every tick. */
  lemma EmptyTableAlwaysRefreshes(s: WindowState, fastboot: ToolRun, adb: ToolRun)
    requires s.table == []
    ensures Ticked(s, fastboot, adb).table == RefreshedTable(fastboot, adb)
    ensures Ticked(s, fastboot, adb).previousDeviceCount == 0
  {
  }

  /** Once the remembered count equals a non-zero row count, ticks change
      nothing, whatever the tools would now print: a phone swapped for another
      goes unnoticed until the count changes. */
  lemma StableTickChangesNothing(s: WindowState, fastboot: ToolRun, adb: ToolRun)
    requires s.previousDeviceCount == |s.table| > 0
    ensures Ticked(s, fastboot, adb) == s
  {
  }

  /** k ticks in a row while the tools keep printing the same output. */
  function Ticks(s: WindowState, fastboot: ToolRun, adb: ToolRun, k: nat): WindowState
    decreases k
  {
    if k == 0 then s else Ticks(Ticked(s, fastboot, adb), fastboot, adb, k - 1)
  }

  /** From start-up, with the tools printing the same non-empty device list, the
      first two ticks both refresh (the second because the count before it was
      0), and from then on the window stays as it is. */
  lemma TicksSettle(fastboot: ToolRun, adb: ToolRun, k: nat)
    requires |RefreshedTable(fastboot, adb)| > 0
    ensures var table := RefreshedTable(fastboot, adb);
            Ticks(Initial(), fastboot, adb, 2 + k) ==
              Initial().(table := table, status := RefreshStatus(|table|), previousDeviceCount := |table|)
  {
    var settled := TwoTicks(fastboot, adb);
    StaysSettled(settled, fastboot, adb, k);
    TicksSplit(Initial(), fastboot, adb, 2, k);
  }

  /** The two refreshing ticks after start-up. */
  lemma TwoTicks(fastboot: ToolRun, adb: ToolRun) returns (settled: WindowState)
    requires |RefreshedTable(fastboot, adb)| > 0
    ensures var table := RefreshedTable(fastboot, adb);
            settled == Initial().(table := table, status := RefreshStatus(|table|), previousDeviceCount := |table|)
    ensures Ticks(Initial(), fastboot, adb, 2) == settled
    ensures settled.previousDeviceCount == |settled.table| > 0
  {
    var table := RefreshedTable(fastboot, adb);
    settled := Initial().(table := table, status := RefreshStatus(|table|), previousDeviceCount := |table|);
    var once := Ticked(Initial(), fastboot, adb);
    assert once == Initial().(table := table, status := RefreshStatus(|table|), previousDeviceCount := 0);
    assert Ticked(once, fastboot, adb) == settled;
    assert Ticks(once, fastboot, adb, 1) == Ticks(settled, fastboot, adb, 0);
  }

  lemma {:induction false} StaysSettled(s: WindowState, fastboot: ToolRun, adb: ToolRun, k: nat)
    requires s.previousDeviceCount == |s.table| > 0
    ensures Ticks(s, fastboot, adb, k) == s
    decreases k
  {
    if k > 0 {
      StableTickChangesNothing(s, fastboot, adb);
      StaysSettled(s, fastboot, adb, k - 1);
    }
  }

  lemma {:induction false} TicksSplit(s: WindowState, fastboot: ToolRun, adb: ToolRun, j: nat, k: nat)
    ensures Ticks(s, fastboot, adb, j + k) == Ticks(Ticks(s, fastboot, adb, j), fastboot, adb, k)
    decreases j
  {
    if j > 0 {
      TicksSplit(Ticked(s, fastboot, adb), fastboot, adb, j - 1, k);
    }
  }

  /** A click on "开始刷机" starts flashing exactly when a row is selected, a
      firmware file was chosen and the user answered "Yes"; the device check
      comes first; a refused start changes nothing, and a declined one changes
      only the remembered device id; a start that happens runs the chosen partition's
      command on the chosen file, resets the progress bar and swaps the buttons. */
  lemma StartRules(s: WindowState, item: string, confirmed: bool)
    requires SelectionValid(s)
    ensures var (after, outcome) := FlashRequested(s, item, confirmed);
            && (outcome == NoDeviceWarning <==> s.selection.None?)
            && (outcome == NoFirmwareWarning <==> s.selection.Some? && s.firmwarePath == [])
            && (outcome.Launched? <==> s.selection.Some? && s.firmwarePath != [] && confirmed)
            && (outcome == NoDeviceWarning || outcome == NoFirmwareWarning ==> after == s)
            && (!outcome.Launched? ==> after == s.(selectedDevice := after.selectedDevice))
            && (outcome.Launched? ==>
                  && outcome.command == FlashCommand(item, s.firmwarePath)
                  && after.isFlashing && after.progress == 0
                  && !after.flashEnabled && after.stopEnabled
                  && after.status == FlashingText
                  && after.table == s.table && after.firmwarePath == s.firmwarePath)
  {
  }

  /** Answering "No" still records the selected row's id: it is read before the
      confirmation box is shown. */
  lemma DeclineRecordsDevice(s: WindowState, item: string)
    requires SelectionValid(s) && s.selection.Some? && s.firmwarePath != []
    ensures FlashRequested(s, item, false) == (s.(selectedDevice := s.table[s.selection.value].id), Declined)
  {
  }

  /** The command line does not depend on which device is selected: the id read
      at the start is never passed to fastboot. */
  lemma CommandIgnoresSelectedDevice(s1: WindowState, s2: WindowState, item: string)
    requires SelectionValid(s1) && SelectionValid(s2)
    requires s1.selection.Some? && s2.selection.Some?
    requires s1.firmwarePath == s2.firmwarePath
    ensures FlashRequested(s1, item, true).1 == FlashRequested(s2, item, true).1
  {
  }

  /** on_flashButton_clicked never reads isFlashing: only the disabled flash
      button keeps it from running during a flash. Run then, it would put the
      progress bar back to 0 and the status back to "正在刷机..." and hand the
      command to the process object, which does not start a second process while
      the first is running. */
  lemma SecondStartResets(s: WindowState, item: string)
    requires Consistent(s) && s.isFlashing
    requires s.selection.Some? && s.firmwarePath != []
    ensures !s.flashEnabled
    ensures var (after, outcome) := FlashRequested(s, item, true);
            && outcome.Launched?
            && after.isFlashing && after.progress == 0 && after.status == FlashingText
  {
  }

  /** "停止" returns the window to idle and reports a cancellation whether or not a
      flash was running; pressing it again changes nothing more. */
  lemma StopAlwaysCancels(s: WindowState)
    ensures var after := Stopped(s);
            && !after.isFlashing && after.flashEnabled && !after.stopEnabled
            && after.status == CancelledText
            && after.progress == s.progress && after.table == s.table
            && Stopped(after) == after
            && after == Stopped(s.(isFlashing := !s.isFlashing, flashEnabled := !s.flashEnabled, stopEnabled := !s.stopEnabled))
  {
  }

  /** Two events in a row are two steps. */
  lemma TwoEvents(s: WindowState, first: Event, second: Event)
    requires Consistent(s)
    ensures Consistent(Step(s, first))
    ensures Run(s, [first, second]) == Step(Step(s, first), second)
  {
    var events := [first, second];
    StepKeepsConsistent(s, first);
    var s1 := Step(s, first);
    StepKeepsConsistent(s1, second);
    assert events[1..] == [second] && events[1..][1..] == [];
    assert Run(s1, [second]) == Run(Step(s1, second), []);
  }

  /** Pressing "停止" while the flash runs makes the process end, and its end runs
      handleProcessFinished as well. When the process ends within the 3-second
      wait, that handler runs inside the stop slot, before the stop's own writes:
      the table is the one read at the end, and "刷机已取消" stays on the status
      line. */
  lemma StopAfterQuickExit(s: WindowState, exitCode: int, exitStatus: ExitStatus, stderr: string,
                           fastboot: ToolRun, adb: ToolRun)
    requires Consistent(s)
    ensures var after := Run(s, [Exit(exitCode, exitStatus, stderr, fastboot, adb), StopClick]);
            && after.status == CancelledText
            && after.table == RefreshedTable(fastboot, adb) && after.selection.None?
            && !after.isFlashing && after.flashEnabled && !after.stopEnabled
  {
    var exit := Exit(exitCode, exitStatus, stderr, fastboot, adb);
    TwoEvents(s, exit, StopClick);
    var ended := ProcessEnded(s, exitCode, exitStatus, stderr, fastboot, adb).0;
    assert Step(s, exit) == ended;
    EndRules(s, exitCode, exitStatus, stderr, fastboot, adb);
    assert Step(ended, StopClick) == Stopped(ended);
  }

  /** When the process has to be killed, its end is handled after the stop slot
      has returned: the refresh at the end of handleProcessFinished overwrites
      "刷机已取消", and a killed process (a crash exit) gets the error box and
      leaves the progress bar where it was. */
  lemma StopThenKilledExit(s: WindowState, exitCode: int, stderr: string, fastboot: ToolRun, adb: ToolRun)
    requires Consistent(s)
    ensures var after := Run(s, [StopClick, Exit(exitCode, CrashExit, stderr, fastboot, adb)]);
            && after.status == RefreshStatus(|RefreshedTable(fastboot, adb)|)
            && after.status != CancelledText
            && after.table == RefreshedTable(fastboot, adb)
            && after.progress == s.progress
            && !after.isFlashing && after.flashEnabled
    ensures ProcessEnded(Stopped(s), exitCode, CrashExit, stderr, fastboot, adb).1 == Critical("错误", "刷机失败: " + stderr)
  {
    var exit := Exit(exitCode, CrashExit, stderr, fastboot, adb);
    var stopped := Stopped(s);
    var ended := ProcessEnded(stopped, exitCode, CrashExit, stderr, fastboot, adb).0;
    TwoEvents(s, StopClick, exit);
    assert Step(s, StopClick) == stopped;
    assert Step(stopped, exit) == ended;
    EndRules(stopped, exitCode, CrashExit, stderr, fastboot, adb);
    assert stopped.progress == s.progress;
    assert DetectedText[0] != CancelledText[0] && NotDetectedText[0] != CancelledText[0];
  }

  /** A run of output chunks, delivered in order. */
  function Outputs(s: WindowState, chunks: seq<string>): WindowState
    decreases |chunks|
  {
    if |chunks| == 0 then s else Outputs(OutputSeen(s, chunks[0]), chunks[1..])
  }

  /** The milestone of the last chunk that matched any, if one did. */
  function LastMilestone(chunks: seq<string>): Option<int>
    decreases |chunks|
  {
    if |chunks| == 0 then None
    else match Milestone(chunks[|chunks| - 1])
      case Some(value) => Some(value)
      case None => LastMilestone(chunks[..|chunks| - 1])
  }

  lemma {:induction false} OutputsSnoc(s: WindowState, chunks: seq<string>, chunk: string)
    ensures Outputs(s, chunks + [chunk]) == OutputSeen(Outputs(s, chunks), chunk)
    decreases |chunks|
  {
    if |chunks| == 0 {
      assert chunks + [chunk] == [chunk];
    } else {
      assert (chunks + [chunk])[1..] == chunks[1..] + [chunk];
      OutputsSnoc(OutputSeen(s, chunks[0]), chunks[1..], chunk);
    }
  }

  /** After any run of output chunks the progress bar shows the milestone of the
      last chunk that matched one, not the largest: progress follows the output,
      and nothing but progress changes. */
  lemma {:induction false} OutputsShowLastMilestone(s: WindowState, chunks: seq<string>)
    ensures Outputs(s, chunks) ==
              s.(progress := match LastMilestone(chunks) case None => s.progress case Some(value) => value)
    decreases |chunks|
  {
    if |chunks| > 0 {
      var init := chunks[..|chunks| - 1];
      var last := chunks[|chunks| - 1];
      assert chunks == init + [last];
      OutputsSnoc(s, init, last);
      OutputsShowLastMilestone(s, init);
    }
  }

  /** Progress can go back: an erasing line after writing has been reported puts
      the bar back from 60 to 10. */
  lemma ProgressCanGoBack(s: WindowState, tail: string)
    requires 'E' !in tail && 'S' !in tail
    ensures OutputSeen(s, WritingSystem + tail).progress == 60
    ensures OutputSeen(OutputSeen(s, WritingSystem + tail), ErasingSystem + tail).progress == 10
  {
    ExampleChunks(tail);
  }

  /** When the process ends the window is idle again and the table is refreshed
      (which overwrites the success or failure text in the status line); the bar
      shows 100 after a normal exit with code 0 and is left where it was
      otherwise, and a failure shows the process's error output. */
  lemma EndRules(s: WindowState, exitCode: int, exitStatus: ExitStatus, stderr: string,
                 fastboot: ToolRun, adb: ToolRun)
    ensures var (after, dialog) := ProcessEnded(s, exitCode, exitStatus, stderr, fastboot, adb);
            && !after.isFlashing && after.flashEnabled && !after.stopEnabled
            && after.table == RefreshedTable(fastboot, adb)
            && after.status == RefreshStatus(|after.table|)
            && after.firmwarePath == s.firmwarePath
            && (exitStatus == NormalExit && exitCode == 0 ==> after.progress == 100 && dialog.Information?)
            && (!(exitStatus == NormalExit && exitCode == 0) ==>
                  after.progress == s.progress && dialog.Critical? && dialog.text == "刷机失败: " + stderr)
  {
  }

  /** The example session: erasing, then writing, then a clean exit shows 10,
      then 60, then 100, and leaves the window idle. */
  lemma ExampleSession(s: WindowState, tail: string, fastboot: ToolRun, adb: ToolRun)
    requires 'E' !in tail && 'S' !in tail
    ensures var s1 := OutputSeen(s, ErasingSystem + tail);
            var s2 := OutputSeen(s1, WritingSystem + tail);
            var s3 := ProcessEnded(s2, 0, NormalExit, [], fastboot, adb).0;
            s1.progress == 10 && s2.progress == 60 && s3.progress == 100 && !s3.isFlashing
  {
    ExampleChunks(tail);
  }

  /** The main window, holding the state its slots change in place. */
  class MainWindow {
    var deviceTable: seq<DeviceRow>
    var selection: Option<nat>
    var previousDeviceCount: int
    var firmwarePath: string
    var selectedDevice: string
    var isFlashing: bool
    var progress: int
    var flashEnabled: bool
    var stopEnabled: bool
    var status: string

    /** The window's state as a value. */
    function State(): WindowState
      reads this
    {
      WindowState(deviceTable, selection, previousDeviceCount, firmwarePath, selectedDevice,
                  isFlashing, progress, flashEnabled, stopEnabled, status)
    }

    predicate Valid()
      reads this
    {
      Consistent(State())
    }

    constructor ()
      ensures Valid()
      ensures State() == Initial()
    {
      deviceTable := [];
      selection := None;
      previousDeviceCount := -1;
      firmwarePath := [];
      selectedDevice := [];
      isFlashing := false;
      progress := 0;
      flashEnabled := true;
      stopEnabled := false;
      status := ReadyText;
    }

    /** Clears the table, appends a row per accepted fastboot line, then a row per
        accepted adb line after the header, and sets the status line. */
    method UpdateDeviceList(fastboot: ToolRun, adb: ToolRun)
      requires Valid()
      modifies this
      ensures Valid()
      ensures State() == Refreshed(old(State()), fastboot, adb)
    {
      ghost var before := State();
      deviceTable := [];
      selection := None;
      var fastbootRows: seq<DeviceRow> := [];
      match fastboot {
        case Missing =>
          status := FastbootMissingText;
        case Failed =>
        case Finished(output) =>
          var lines := SplitSkipEmpty(output, '\n');
          fastbootRows := ReadRows(lines, 0, FastbootStatus);
          assert lines[0..] == lines;
      }
      assert fastbootRows == ToolRows(fastboot, false);
      var adbRows: seq<DeviceRow> := [];
      match adb {
        case Missing =>
          status := AdbMissingText;
        case Failed =>
        case Finished(output) =>
          var lines := SplitSkipEmpty(output, '\n');
          if |lines| > 1 {
            adbRows := ReadRows(lines, 1, AdbStatus);
          }
      }
      assert adbRows == ToolRows(adb, true);
      deviceTable := fastbootRows + adbRows;
      if |deviceTable| > 0 {
        status := DetectedText;
      } else {
        status := NotDetectedText;
      }
      assert State() == before.(table := RefreshedTable(fastboot, adb), selection := None, status := RefreshStatus(|deviceTable|));
    }

    /** The timer slot: refreshes when the row count changed since the last
        refresh or is zero, and then remembers the count it saw before refreshing. */
    method CheckDeviceConnection(fastboot: ToolRun, adb: ToolRun)
      requires Valid()
      modifies this
      ensures Valid()
      ensures State() == Ticked(old(State()), fastboot, adb)
    {
      var currentDeviceCount := |deviceTable|;
      if previousDeviceCount != currentDeviceCount || currentDeviceCount == 0 {
        UpdateDeviceList(fastboot, adb);
        previousDeviceCount := currentDeviceCount;
      }
    }

    /** The user clicks a row (handled by Qt, not by a slot of the window). */
    method SelectRow(row: nat)
      requires Valid()
      modifies this
      ensures Valid()
      ensures State() == RowSelected(old(State()), row)
    {
      if row < |deviceTable| {
        selection := Some(row);
      }
    }

    method OnBrowseButtonClicked(chosen: string)
      requires Valid()
      modifies this
      ensures Valid()
      ensures State() == Browsed(old(State()), chosen)
    {
      if chosen != [] {
        firmwarePath := chosen;
        status := FirmwareChosenText;
      }
    }

    method OnFlashButtonClicked(item: string, confirmed: bool) returns (outcome: StartOutcome)
      requires Valid()
      modifies this
      ensures Valid()
      ensures (State(), outcome) == FlashRequested(old(State()), item, confirmed)
    {
      if selection.None? {
        outcome := NoDeviceWarning;
        return;
      }
      if firmwarePath == [] {
        outcome := NoFirmwareWarning;
        return;
      }
      selectedDevice := deviceTable[selection.value].id;
      if !confirmed {
        outcome := Declined;
        return;
      }
      isFlashing := true;
      flashEnabled := false;
      stopEnabled := true;
      progress := 0;
      var command := FlashCommand(item, firmwarePath);
      status := FlashingText;
      outcome := Launched(command);
    }

    method OnStopButtonClicked()
      requires Valid()
      modifies this
      ensures Valid()
      ensures State() == Stopped(old(State()))
    {
      isFlashing := false;
      flashEnabled := true;
      stopEnabled := false;
      status := CancelledText;
    }

    method HandleProcessOutput(chunk: string)
      requires Valid()
      modifies this
      ensures Valid()
      ensures State() == OutputSeen(old(State()), chunk)
    {
      var milestone := Milestone(chunk);
      if milestone.Some? {
        progress := milestone.value;
      }
    }

    method HandleProcessFinished(exitCode: int, exitStatus: ExitStatus, stderr: string,
                                 fastboot: ToolRun, adb: ToolRun) returns (dialog: Dialog)
      requires Valid()
      modifies this
      ensures Valid()
      ensures (State(), dialog) == ProcessEnded(old(State()), exitCode, exitStatus, stderr, fastboot, adb)
    {
      isFlashing := false;
      flashEnabled := true;
      stopEnabled := false;
      if exitStatus == NormalExit && exitCode == 0 {
        progress := 100;
        status := SuccessText;
        dialog := Information("成功", "刷机操作已完成");
      } else {
        status := FailedText;
        dialog := Critical("错误", "刷机失败: " + stderr);
      }
      UpdateDeviceList(fastboot, adb);
    }
  }
}

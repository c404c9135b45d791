# OnePlusFlash main window, modelled in Dafny

OnePlusFlash is a Qt desktop tool for flashing OnePlus phones with `fastboot`.
Its logic lives in the slots of `MainWindow` (mainwindow.cpp). This project models
those slots and proves what they do:

- **The device list** (`updateDeviceList`). The output of `fastboot devices` and
  `adb devices` becomes table rows. The output is split on `'\n'` and on `'\t'`,
  with empty parts skipped. A line with at least two fields gives a row keyed by its
  first field. Adb's first line is a header and is skipped. The status line then
  reports whether any row came of the refresh.
- **The 2-second poll** (`checkDeviceConnection`). It decides from the row count and
  a remembered count whether to refresh. The remembered count is a function-static
  in the source and a field of the window here.
- **The flashing session.** This covers:
  - choosing a firmware file;
  - the start guards and the confirmation box;
  - the partition-to-command mapping;
  - progress milestones read from the flashing process's output;
  - the stop button;
  - the end of the process.

Modules:

| file | module | contents |
|---|---|---|
| options.dfy | `Options` | `Option` |
| qt_text.dfy | `QtText` | `QString::split` with and without `Qt::SkipEmptyParts`, `QString::contains`, with round-trip lemmas |
| device_list.dfy | `DeviceList` | row parsing, the refreshed table and status, the poll decision, the loop that reads rows |
| flashing.dfy | `Flashing` | partition to command line, output chunk to progress milestone |
| window.dfy | `Window` | the window state, one pure transition per slot, lemmas about them, and class `MainWindow` |

**Two levels, one proof per slot.** Each slot has two forms:

- a pure transition on the `WindowState` value:
  - `Refreshed` is `updateDeviceList`;
  - `Ticked` is `checkDeviceConnection`;
  - `Browsed`, `FlashRequested`, `Stopped`, `OutputSeen` and `ProcessEnded` are the
    other slots;
- a method of class `MainWindow` that changes its fields step by step, as the slot
  does.

Each method's `ensures` states that the new state is the transition applied to the
old state. The properties of the slots are proved as lemmas about the transitions.

**Inputs.** Whatever the slots get from outside is an input:

- what each tool run gave (`ToolRun`: missing executable, not finished, or its
  standard output);
- the file chosen in the dialog;
- the combo box text;
- the Yes/No answer;
- the exit code and exit status;
- the process's standard error.

**What the slots do not do.** Some things a reader might expect are absent from
the code, and the model keeps them absent:

- **No deduplication.** `updateDeviceList` appends every accepted line it reads
  (mainwindow.cpp:140-176). The same id seen in fastboot and in adb mode is listed
  twice (`OnePhoneInEachMode`).
- **No check of `isFlashing` on start.** `on_flashButton_clicked` never reads
  `isFlashing`. Only the disabled flash button keeps it from running during a flash.
  Run then, it would reset the progress bar and the status line
  (`SecondStartResets`).
- **No check on stop.** `on_stopButton_clicked` writes the idle button state and
  "刷机已取消" unconditionally (mainwindow.cpp:272-276), whether or not anything was
  running (`StopAlwaysCancels`). Its process check at mainwindow.cpp:265 only guards
  the `terminate`/`kill` calls. When a flash is running, the process's end also runs
  `handleProcessFinished`, either inside the stop slot or after it
  (`StopAfterQuickExit`, `StopThenKilledExit`).
- **No ordering of progress.** `handleProcessOutput` sets the value of the first
  text the chunk contains (mainwindow.cpp:286-294). An "Erasing" chunk after a
  "Writing" one sets progress back from 60 to 10 (`ProgressCanGoBack`,
  `OutputsShowLastMilestone`).
- **No existence check of the firmware file.** Only `firmwarePath.isEmpty()` is
  tested (mainwindow.cpp:220).
- **`selectedDevice` is written before the confirmation.** It is written at
  mainwindow.cpp:226, before the box at :229, so answering "No" still changes it
  (`DeclineRecordsDevice`). That id never reaches the command
  (`CommandIgnoresSelectedDevice`).
- **Two status texts are never seen.** The "tool not found" texts written at
  mainwindow.cpp:132 and :157 are always overwritten at :183-187, and nothing
  handles events in between. `MainWindow` keeps those writes, and the final state
  shows the overwrite.
- **The finish texts show only while their box is open.** "刷机成功！请重启设备"
  (mainwindow.cpp:309) or "刷机失败" (:312) is on the status line while the box at
  :310 or :314 is open. The refresh at :318 then replaces it (`EndRules`).

## Model

| member | source | states |
|---|---|---|
| QtText.SplitAt | mainwindow.cpp:138 | splitting gives at least one piece |
| QtText.SplitAtPiecesFree | mainwindow.cpp:138 | no piece of a split contains the separator |
| QtText.SplitAtPieceCount | mainwindow.cpp:138 | there is exactly one more piece than there are separators |
| QtText.JoinSplit | mainwindow.cpp:138 | joining the pieces with the separator gives the original string back |
| QtText.SplitJoin | mainwindow.cpp:141 | splitting a join of separator-free pieces gives the pieces back |
| QtText.SplitAtNoSep | mainwindow.cpp:141 | a string without the separator is a single piece |
| QtText.SplitAtConcat | mainwindow.cpp:138 | a separator between two strings separates their pieces |
| QtText.DropEmpty | mainwindow.cpp:138 | skipping empty parts keeps only non-empty parts, all taken from the input, never more of them |
| QtText.DropEmptyConcat | mainwindow.cpp:138 | skipping empty parts distributes over concatenation (order is kept) |
| QtText.SplitSkipEmpty | mainwindow.cpp:141 | with Qt::SkipEmptyParts every part is non-empty and free of the separator |
| QtText.SplitSkipEmptyNoSep | mainwindow.cpp:141 | a separator-free string is one part, or none when empty |
| QtText.SplitSkipEmptyCons | mainwindow.cpp:163 | a non-empty first line ended by the separator comes out first, the rest is split on its own |
| QtText.ConcatDropEmpty | mainwindow.cpp:138 | dropping empty parts loses no text |
| QtText.ConcatSplitAt | mainwindow.cpp:138 | the pieces laid end to end are the string without its separators |
| QtText.SplitSkipEmptyConcat | mainwindow.cpp:138 | with empty parts skipped, a separator between two strings gives the parts of the first followed by the parts of the second |
| QtText.SplitSkipEmptyOnlySeps | mainwindow.cpp:138 | a string made only of separators has no parts |
| QtText.SplitSkipEmptyTrailingSeps | mainwindow.cpp:163 | trailing line ends add no line: `s + "\n\n"` splits like `s` |
| QtText.SplitSkipEmptyLeadingSeps | mainwindow.cpp:163 | leading line ends add no line: `"\n\n" + s` splits like `s` |
| QtText.SplitSkipEmptyKeepsText | mainwindow.cpp:138 | the skip-empty parts laid end to end are the string without its separators |
| QtText.Contains | mainwindow.cpp:286 | defines `QString::contains`; `ContainsIff` states what it means |
| QtText.ContainsIff | mainwindow.cpp:286 | `contains` holds exactly when the pattern occurs at some position |
| QtText.ContainsNeedsFirstChar | mainwindow.cpp:286-292 | a pattern whose first character is absent is not contained |
| DeviceList.LineRows | mainwindow.cpp:141-148 | defines the rows one line gives; `RowsOfOneLine` states them |
| DeviceList.RowsFrom | mainwindow.cpp:140-148 | at most one row per line; every row has name "一加设备", the mode's status, and a non-empty, tab-free id |
| DeviceList.RowsFromNext | mainwindow.cpp:140-149 | one more line read appends exactly that line's rows |
| DeviceList.RowsFromAppend | mainwindow.cpp:140-149 | rows come out in line order: the rows of a+b are the rows of a then the rows of b |
| DeviceList.RowsOfOneLine | mainwindow.cpp:141-148 | a line gives one row keyed by its first field iff it has at least two tab fields, else none |
| DeviceList.RowsFromEmptyIff | mainwindow.cpp:140-149 | no rows iff no line has two fields |
| DeviceList.ReadRows | mainwindow.cpp:167-176 | the for loop over lines from `start` on returns exactly RowsFrom of those lines |
| DeviceList.FastbootRows | mainwindow.cpp:137-149 | defines the fastboot rows; `OneDeviceLine`, `RowsFromAppend` and `ToolRowsNonEmptyIff` state them |
| DeviceList.AdbRows | mainwindow.cpp:162-177 | defines the adb rows; `AdbSkipsHeader` and `AdbSingleLineGivesNothing` state them |
| DeviceList.AdbSkipsHeader | mainwindow.cpp:163-177 | adb's first non-empty line is dropped whatever it says; the rest gives the rows |
| DeviceList.AdbSkipsHeaderAfterLineEnds | mainwindow.cpp:163-177 | line ends before adb's header change nothing: the first non-empty line is dropped wherever it starts |
| DeviceList.AdbSingleLineGivesNothing | mainwindow.cpp:163-166 | adb output of at most one line, followed by any number of line ends, gives no rows; "List of devices attached\n\n" is such output |
| DeviceList.ToolRows | mainwindow.cpp:130-181 | defines one tool's contribution, none when missing or not finished; `ToolRowsNonEmptyIff` states it |
| DeviceList.RefreshedTable | mainwindow.cpp:121-181 | defines the refreshed table; `RefreshedTableLayout` and `RefreshedRowsTagged` state it |
| DeviceList.RefreshedTableLayout | mainwindow.cpp:121-181 | the refreshed table is exactly the fastboot rows followed by the adb rows; a missing or failed tool adds none and the other is still read |
| DeviceList.RefreshedRowsTagged | mainwindow.cpp:140-176 | every refreshed row is named "一加设备" and has status "Fastboot模式" exactly when it is among the first (fastboot) rows |
| DeviceList.ToolRowsNonEmptyIff | mainwindow.cpp:130-181 | a tool contributes rows iff it finished and printed an accepted line (after the header for adb) |
| DeviceList.RefreshStatus | mainwindow.cpp:183-187 | defines the final status text; `RefreshReportsDevices` states when it reports devices |
| DeviceList.RefreshReportsDevices | mainwindow.cpp:183-187 | the status is "已检测到设备" iff some accepted fastboot line or post-header adb line exists |
| DeviceList.ShouldRefresh | mainwindow.cpp:195 | a tick refreshes on an empty table and on an unset count; it skips iff the count equals a non-zero row count |
| DeviceList.IdStateLine | mainwindow.cpp:141-148 | the line "id\tstate" is accepted and gives exactly the row keyed by id |
| DeviceList.OneDeviceLine | mainwindow.cpp:138-177 | a line "id\tstate" followed by any number of line ends gives exactly one row with that id, in fastboot output or after adb's header |
| DeviceList.OnePhoneInEachMode | mainwindow.cpp:121-181 | a phone in each mode, each line ended by a line end, gives two rows, the fastboot one first, with no deduplication |
| Flashing.PartitionOf | mainwindow.cpp:245-256 | a recognised combo text is the label of the partition it selects |
| Flashing.LabelsRoundTrip | mainwindow.cpp:69 | every combo item selects its own partition, and only the five items select any |
| Flashing.FlashCommand | mainwindow.cpp:242-256 | the command is empty iff the text names no partition; otherwise it starts with the partition's fastboot command and ends with the closing quote |
| Flashing.HeadsDiffer | mainwindow.cpp:245-256 | no partition's command head is a prefix of another's command |
| Flashing.CommandRoundTrip | mainwindow.cpp:245-256 | reading the command back gives the chosen partition and the exact firmware path |
| Flashing.CommandInjective | mainwindow.cpp:245-256 | different choices of partition or path never give the same command |
| Flashing.Milestone | mainwindow.cpp:286-294 | a chunk sets one of 10, 30, 60, 80 or nothing; `MilestoneIsFirstCheckpoint` states which |
| Flashing.FirstCheckpointFirstMatch | mainwindow.cpp:286-294 | the checkpoint rule gives nothing iff no text occurs, else the value of the earliest text that occurs |
| Flashing.MilestoneIsFirstCheckpoint | mainwindow.cpp:286-294 | the if-chain of handleProcessOutput is the first-match rule over the ordered checkpoint table |
| Flashing.ExampleChunks | mainwindow.cpp:286-291 | an "Erasing 'system'" chunk sets 10 and a "Writing 'system'" chunk sets 60 |
| Window.Initial | mainwindow.cpp:20-22 | defines the window after the constructor; `MainWindow.constructor` and `FirstTickRefreshes` use it |
| Window.Refreshed | mainwindow.cpp:119-188 | defines `updateDeviceList` on the window state; `EndRules` and the tick lemmas state its effect |
| Window.Ticked | mainwindow.cpp:190-199 | defines `checkDeviceConnection`; the tick lemmas state it |
| Window.Browsed | mainwindow.cpp:201-212 | defines `on_browseButton_clicked`; `StepKeepsConsistent` covers it |
| Window.FlashRequested | mainwindow.cpp:214-261 | defines `on_flashButton_clicked`; `StartRules` states it |
| Window.Stopped | mainwindow.cpp:263-277 | defines the window writes of `on_stopButton_clicked`; `StopAlwaysCancels` states them |
| Window.OutputSeen | mainwindow.cpp:279-298 | defines `handleProcessOutput`; `OutputsShowLastMilestone` states it |
| Window.ProcessEnded | mainwindow.cpp:300-319 | defines `handleProcessFinished`; `EndRules` states it |
| Window.StepKeepsConsistent | mainwindow.cpp:201-319 | every slot keeps flash-enabled == not flashing, stop-enabled == flashing, progress in 0..100, a valid selection |
| Window.RunKeepsConsistent | mainwindow.cpp:201-319 | any run of events from a consistent window ends consistent |
| Window.FirstTickRefreshes | mainwindow.cpp:192-198 | the first tick after start-up refreshes and remembers 0 |
| Window.TickRemembersCountBefore | mainwindow.cpp:193-198 | a refreshing tick remembers the row count from before its refresh; a non-refreshing one keeps both table and count |
| Window.EmptyTableAlwaysRefreshes | mainwindow.cpp:195 | with an empty table every tick refreshes |
| Window.StableTickChangesNothing | mainwindow.cpp:195 | once the count is stable and non-zero a tick changes nothing |
| Window.TwoTicks | mainwindow.cpp:192-198 | from start-up with the same non-empty output, the first two ticks both refresh and then the count is stable |
| Window.StaysSettled | mainwindow.cpp:195 | any number of ticks leave a settled window unchanged |
| Window.TicksSplit | mainwindow.cpp:190-199 | j+k ticks are j ticks followed by k ticks |
| Window.TicksSettle | mainwindow.cpp:190-199 | from start-up, 2+k ticks with the same non-empty output end with the refreshed table and a stable count |
| Window.StartRules | mainwindow.cpp:216-260 | a refused start (no selection, then no firmware) changes nothing; a declined one changes only the device id; the start happens iff a row is selected, a file was chosen and the user confirms; a start runs the chosen partition's command on the chosen file, resets progress to 0 and swaps the buttons |
| Window.DeclineRecordsDevice | mainwindow.cpp:224-234 | answering "No" leaves the window unchanged except the stored device id |
| Window.CommandIgnoresSelectedDevice | mainwindow.cpp:226-258 | the command does not depend on which row is selected |
| Window.SecondStartResets | mainwindow.cpp:214-259 | while flashing the flash button is disabled; the slot itself has no `isFlashing` check and would reset progress to 0 and the status to "正在刷机..." |
| Window.StopAlwaysCancels | mainwindow.cpp:272-276 | stop always leaves the window idle with "刷机已取消", progress and table untouched, is idempotent, and ignores whether a flash was running |
| Window.TwoEvents | mainwindow.cpp:100-110 | two events delivered in a row are two slot calls in that order |
| Window.StopAfterQuickExit | mainwindow.cpp:263-277 | when the process ends within the stop's 3-second wait, its end is handled first; the window ends idle with the table read then and "刷机已取消" shown |
| Window.StopThenKilledExit | mainwindow.cpp:263-319 | when the process is killed, its end is handled after the stop; the refresh status replaces "刷机已取消", progress is kept, and the error box shows stderr |
| Window.OutputsSnoc | mainwindow.cpp:279-294 | a further chunk acts on the state the earlier chunks left |
| Window.OutputsShowLastMilestone | mainwindow.cpp:286-294 | after any chunks, progress is the milestone of the last matching chunk (not the largest), and nothing else changes |
| Window.ProgressCanGoBack | mainwindow.cpp:286-291 | an "Erasing" chunk after a "Writing" chunk puts progress back from 60 to 10 |
| Window.EndRules | mainwindow.cpp:300-319 | the end of the process always leaves the window idle with a refreshed table and its status; progress is 100 with an information box iff the exit is normal with code 0; otherwise progress is kept and the error box shows the stderr text |
| Window.ExampleSession | mainwindow.cpp:286-319 | erasing, writing, then a clean exit shows 10, 60, 100 and ends idle |
| Window.MainWindow.constructor | mainwindow.cpp:20-22 | the window starts with an empty table, no firmware, idle buttons, progress 0 and "就绪" |
| Window.MainWindow.UpdateDeviceList | mainwindow.cpp:119-188 | the slot leaves the window exactly as `Refreshed` says, and consistent |
| Window.MainWindow.CheckDeviceConnection | mainwindow.cpp:190-199 | the slot leaves the window exactly as `Ticked` says, and consistent |
| Window.MainWindow.SelectRow | mainwindow.cpp:50-51 | a click selects an existing row and nothing else |
| Window.MainWindow.OnBrowseButtonClicked | mainwindow.cpp:201-212 | the slot leaves the window exactly as `Browsed` says |
| Window.MainWindow.OnFlashButtonClicked | mainwindow.cpp:214-261 | the slot's new state and outcome are exactly those of `FlashRequested` |
| Window.MainWindow.OnStopButtonClicked | mainwindow.cpp:263-277 | the slot leaves the window exactly as `Stopped` says |
| Window.MainWindow.HandleProcessOutput | mainwindow.cpp:279-298 | the slot leaves the window exactly as `OutputSeen` says |
| Window.MainWindow.HandleProcessFinished | mainwindow.cpp:300-319 | the slot's new state and dialog are exactly those of `ProcessEnded` |

## Left out

- Widget construction, layout, column widths, the menu bar, the driver and ROM
  actions, and URL opening (mainwindow.cpp:17-117, 329-375). They hold no logic.
- `enableUI` (mainwindow.cpp:321-327): which widgets are greyed out is not modelled.
  Only the flash and stop buttons' enabled flags are state.
- `firmwarePathEdit`'s text. It always mirrors `firmwarePath`.
- Dialogs. Their results are inputs and the boxes shown are outputs: the chosen
  file, the Yes/No answer, `StartOutcome` and `Dialog`. The warning texts of the
  two refusals are not modelled.
- Running the tools: the application directory path, `QFile::exists`, `start`,
  `waitForFinished` and their timeouts. A tool run is an input: missing, not
  finished, or its output. Its exit code is not read by the source either.
- The `qDebug` logging.
- `readAllStandardOutput`/`readAllStandardError` byte decoding. Strings are
  sequences of characters.
- The timer's 2-second cadence and Qt's event delivery. Ticks are calls, in order.
- The modal boxes at mainwindow.cpp:217-233, :310 and :314 run nested event loops.
  A tick or a process event can then be handled while a slot is paused, for
  example between :226 and :259. Each slot is modelled as one uninterrupted step.
- Window.MainWindow.OnStopButtonClicked: does not model `terminate`, the
  3000 ms wait or `kill`. When a flash is running, stopping makes the process end,
  and that end is an `Exit` event running `handleProcessFinished`. When the process
  ends within the 3 s, the `Exit` comes inside the slot, before the stop's own
  writes. When it is killed, the `Exit` comes after them. `StopAfterQuickExit` and
  `StopThenKilledExit` state the window after each order, but the model does not
  decide which order happens.
- Window.MainWindow.OnFlashButtonClicked: does not model starting `cmd.exe /c`. The
  command line is returned in `Launched`. Starting a process object that is still
  running launches nothing, so a second start during a flash starts no second
  process. `selectedItems()` and `currentRow()` are one selected row, cleared by
  every refresh.
- Window.MainWindow.UpdateDeviceList: reads each tool's rows into a local list and
  assigns the table once, as the fastboot rows followed by the adb rows, after both
  tools have been read. The source inserts one row at a time. No other code runs in
  between, so the table that results is the same.
- Window.MainWindow.SelectRow: stands for the user's click. It is Qt's selection
  handling, not a slot of the window.

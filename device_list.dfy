/** The device table: how the text printed by "fastboot devices" and "adb devices"
    becomes table rows, what the status line says after a refresh, and when the
    2-second timer decides to refresh at all (mainwindow.cpp:119-199). */
module DeviceList {
  import opened QtText

  /** One row of the device table: the "设备ID", "设备名称" and "状态" columns. */
  datatype DeviceRow = DeviceRow(id: string, name: string, status: string)

  /** Column 1 of every row: the table does not tell phones apart by model. */
  const DeviceName: string := "一加设备"
  /** Column 2 of rows found by "fastboot devices". */
  const FastbootStatus: string := "Fastboot模式"
  /** Column 2 of rows found by "adb devices". */
  const AdbStatus: string := "ADB模式"

  /** Status texts a refresh writes. */
  const FastbootMissingText: string := "Fastboot工具未找到"
  const AdbMissingText: string := "ADB工具未找到"
  const DetectedText: string := "已检测到设备"
  const NotDetectedText: string := "未检测到设备，请确保设备已进入Fastboot或ADB模式"

  /** What running "<tool> devices" from the application's adb/ directory gave:
      the executable is not there, it did not finish, or it finished with this
      standard output (its exit code is not looked at). */
  datatype ToolRun = Missing | Failed | Finished(stdout: string)

  /** The tab-separated fields of one output line, empty fields dropped. */
  function Fields(line: string): seq<string>
  {
    SplitSkipEmpty(line, '\t')
  }

  /** A line names a device when it has at least two fields. */
  predicate Accepted(line: string)
  {
    |Fields(line)| >= 2
  }

  /** The rows one output line adds to the table: one row, keyed by its first
      field, for an accepted line, none otherwise. */
  function LineRows(line: string, status: string): seq<DeviceRow>
  {
    var parts := Fields(line);
    if |parts| >= 2 then [DeviceRow(parts[0], DeviceName, status)] else []
  }

  /** The rows a run of output lines appends, line after line. */
  function RowsFrom(lines: seq<string>, status: string): (rows: seq<DeviceRow>)
    ensures |rows| <= |lines|
    ensures forall k :: 0 <= k < |rows| ==>
              rows[k].name == DeviceName && rows[k].status == status &&
              rows[k].id != [] && '\t' !in rows[k].id
  {
    if |lines| == 0 then []
    else RowsFrom(lines[..|lines| - 1], status) + LineRows(lines[|lines| - 1], status)
  }

  /** Rows come out in line order: the rows of two runs of lines are the rows of
      the first followed by the rows of the second. With RowsOfOneLine this
      determines RowsFrom completely. */
  lemma {:induction false} RowsFromAppend(a: seq<string>, b: seq<string>, status: string)
    ensures RowsFrom(a + b, status) == RowsFrom(a, status) + RowsFrom(b, status)
    decreases |b|
  {
    if |b| == 0 {
      assert a + b == a;
    } else {
      var b' := b[..|b| - 1];
      assert (a + b)[..|a + b| - 1] == a + b';
      assert (a + b)[|a + b| - 1] == b[|b| - 1];
      RowsFromAppend(a, b', status);
    }
  }

  /** Reading one more line of a run appends that line's rows. */
  lemma RowsFromNext(lines: seq<string>, start: nat, i: nat, status: string)
    requires start <= i < |lines|
    ensures RowsFrom(lines[start..i + 1], status) == RowsFrom(lines[start..i], status) + LineRows(lines[i], status)
  {
    var run := lines[start..i + 1];
    assert run[..|run| - 1] == lines[start..i];
    assert run[|run| - 1] == lines[i];
  }

  /** One line gives one row, keyed by its first field, exactly when it has at
      least two fields, and nothing otherwise. */
  lemma RowsOfOneLine(line: string, status: string)
    ensures Accepted(line) ==> RowsFrom([line], status) == [DeviceRow(Fields(line)[0], DeviceName, status)]
    ensures !Accepted(line) ==> RowsFrom([line], status) == []
  {
    assert [line][..0] == [];
  }

  /** Rows are produced exactly when some line is accepted. */
  lemma {:induction false} RowsFromEmptyIff(lines: seq<string>, status: string)
    ensures RowsFrom(lines, status) == [] <==> forall j :: 0 <= j < |lines| ==> !Accepted(lines[j])
    decreases |lines|
  {
    if |lines| > 0 {
      var init := lines[..|lines| - 1];
      RowsFromEmptyIff(init, status);
      assert forall j :: 0 <= j < |init| ==> init[j] == lines[j];
    }
  }

  /** The for loops of updateDeviceList: from line start on, each line is split
      on tabs and, when it has at least two fields, gives a row keyed by the first. */
  method ReadRows(lines: seq<string>, start: nat, mode: string) returns (rows: seq<DeviceRow>)
    requires start <= |lines|
    ensures rows == RowsFrom(lines[start..], mode)
  {
    rows := [];
    for i := start to |lines|
      invariant rows == RowsFrom(lines[start..i], mode)
    {
      RowsFromNext(lines, start, i, mode);
      var parts := SplitSkipEmpty(lines[i], '\t');
      if |parts| >= 2 {
        rows := rows + [DeviceRow(parts[0], DeviceName, mode)];
      }
    }
    assert lines[start..|lines|] == lines[start..];
  }

  /** The rows "fastboot devices" output gives: one per accepted non-empty line. */
  function FastbootRows(output: string): seq<DeviceRow>
  {
    RowsFrom(SplitSkipEmpty(output, '\n'), FastbootStatus)
  }

  /** The rows "adb devices" output gives: the first non-empty line is its
      "List of devices attached" header and is skipped whatever it says; each
      later accepted line gives one row. */
  function AdbRows(output: string): seq<DeviceRow>
  {
    var lines := SplitSkipEmpty(output, '\n');
    if |lines| > 1 then RowsFrom(lines[1..], AdbStatus) else []
  }

  /** The first line of adb's output is dropped whatever it contains, even a
      line that would be a device; the rest is read line by line. */
  lemma AdbSkipsHeader(header: string, rest: string)
    requires header != [] && '\n' !in header
    ensures AdbRows(header + "\n" + rest) == RowsFrom(SplitSkipEmpty(rest, '\n'), AdbStatus)
  {
    SplitSkipEmptyCons(header, rest, '\n');
    var lines := [header] + SplitSkipEmpty(rest, '\n');
    assert lines[1..] == SplitSkipEmpty(rest, '\n');
  }

  /** Line ends before adb's header change nothing: the header is the first
      non-empty line wherever it starts. */
  lemma AdbSkipsHeaderAfterLineEnds(lead: string, header: string, rest: string)
    requires (forall i :: 0 <= i < |lead| ==> lead[i] == '\n')
    requires header != [] && '\n' !in header
    ensures AdbRows(lead + header + "\n" + rest) == RowsFrom(SplitSkipEmpty(rest, '\n'), AdbStatus)
  {
    assert lead + header + "\n" + rest == lead + (header + "\n" + rest);
    SplitSkipEmptyLeadingSeps(lead, header + "\n" + rest, '\n');
    AdbSkipsHeader(header, rest);
  }

  /** A string of line ends only. */
  predicate OnlyNewlines(t: string)
  {
    forall i :: 0 <= i < |t| ==> t[i] == '\n'
  }

  /** Output of at most one line, however many line ends follow it, gives no adb
      rows: "List of devices attached\n\n", printed when no device is attached,
      is one of them. */
  lemma AdbSingleLineGivesNothing(line: string, trailer: string)
    requires '\n' !in line && OnlyNewlines(trailer)
    ensures AdbRows(line + trailer) == []
  {
    SplitSkipEmptyTrailingSeps(line, trailer, '\n');
    SplitSkipEmptyNoSep(line, '\n');
  }

  /** The rows one tool contributes to a refresh: none when it is missing or
      failed to finish. */
  function ToolRows(run: ToolRun, adb: bool): seq<DeviceRow>
  {
    match run
    case Finished(out) => if adb then AdbRows(out) else FastbootRows(out)
    case _ => []
  }

  /** The table after a refresh: cleared, then the fastboot rows, then the adb
      rows, with no duplicate removed (mainwindow.cpp:121-181). */
  function RefreshedTable(fastboot: ToolRun, adb: ToolRun): seq<DeviceRow>
  {
    ToolRows(fastboot, false) + ToolRows(adb, true)
  }

  /** The refreshed table holds the fastboot rows, then the adb rows, all of
      them; a missing or failed tool adds nothing while the other is still read. */
  lemma RefreshedTableLayout(fastboot: ToolRun, adb: ToolRun)
    ensures var table := RefreshedTable(fastboot, adb);
            var n := |ToolRows(fastboot, false)|;
            && |table| == n + |ToolRows(adb, true)|
            && table[..n] == ToolRows(fastboot, false)
            && table[n..] == ToolRows(adb, true)
            && (fastboot.Missing? || fastboot.Failed? ==> table == ToolRows(adb, true))
            && (adb.Missing? || adb.Failed? ==> table == ToolRows(fastboot, false))
  {
    var table := RefreshedTable(fastboot, adb);
    assert table[..|ToolRows(fastboot, false)|] == ToolRows(fastboot, false);
  }

  /** Every row of a refreshed table carries the device name, and its status
      tells which tool found it: the fastboot rows are exactly the first ones. */
  lemma RefreshedRowsTagged(fastboot: ToolRun, adb: ToolRun, k: nat)
    requires k < |RefreshedTable(fastboot, adb)|
    ensures RefreshedTable(fastboot, adb)[k].name == DeviceName
    ensures RefreshedTable(fastboot, adb)[k].status == FastbootStatus <==> k < |ToolRows(fastboot, false)|
  {
    var fbRows := ToolRows(fastboot, false);
    var adbRows := ToolRows(adb, true);
    if k < |fbRows| {
      assert RefreshedTable(fastboot, adb)[k] == fbRows[k];
      assert fastboot.Finished?;
    } else {
      assert RefreshedTable(fastboot, adb)[k] == adbRows[k - |fbRows|];
      assert adb.Finished?;
      assert adbRows[k - |fbRows|].status == AdbStatus;
      assert AdbStatus[0] != FastbootStatus[0];
    }
  }

  /** The status line a refresh leaves: the "tool not found" texts it may write
      on the way are always overwritten by this one (mainwindow.cpp:183-187). */
  function RefreshStatus(rowCount: nat): string
  {
    if rowCount > 0 then DetectedText else NotDetectedText
  }

  /** Some line of the run, from position start on, is accepted. */
  predicate SomeAccepted(lines: seq<string>, start: nat)
  {
    exists j :: start <= j < |lines| && Accepted(lines[j])
  }

  /** A tool contributes rows exactly when it finished and printed an accepted
      line (for adb, one after its header line). */
  lemma ToolRowsNonEmptyIff(run: ToolRun, adb: bool)
    ensures ToolRows(run, adb) != [] <==>
              run.Finished? && SomeAccepted(SplitSkipEmpty(run.stdout, '\n'), if adb then 1 else 0)
  {
    if run.Finished? {
      var lines := SplitSkipEmpty(run.stdout, '\n');
      if !adb {
        RowsFromEmptyIff(lines, FastbootStatus);
      } else if |lines| > 1 {
        var rest := lines[1..];
        RowsFromEmptyIff(rest, AdbStatus);
        assert forall j :: 1 <= j < |lines| ==> rest[j - 1] == lines[j];
        if SomeAccepted(lines, 1) {
          var j :| 1 <= j < |lines| && Accepted(lines[j]);
          assert Accepted(rest[j - 1]);
        }
      }
    }
  }

  /** After a refresh the status reports devices exactly when fastboot printed
      an accepted line, or adb printed one after its header. */
  lemma RefreshReportsDevices(fastboot: ToolRun, adb: ToolRun)
    ensures RefreshStatus(|RefreshedTable(fastboot, adb)|) == DetectedText <==>
              (fastboot.Finished? && SomeAccepted(SplitSkipEmpty(fastboot.stdout, '\n'), 0)) ||
              (adb.Finished? && SomeAccepted(SplitSkipEmpty(adb.stdout, '\n'), 1))
  {
    assert DetectedText[0] != NotDetectedText[0];
    ToolRowsNonEmptyIff(fastboot, false);
    ToolRowsNonEmptyIff(adb, true);
    assert |RefreshedTable(fastboot, adb)| > 0 <==> ToolRows(fastboot, false) != [] || ToolRows(adb, true) != [];
  }

  /** The timer's decision (mainwindow.cpp:195): refresh when the table's row
      count differs from the count remembered at the last refresh, or is zero. */
  function ShouldRefresh(previousCount: int, currentCount: nat): (refresh: bool)
    ensures currentCount == 0 ==> refresh
    ensures previousCount < 0 ==> refresh
    ensures !refresh <==> previousCount == currentCount > 0
  {
    previousCount != currentCount || currentCount == 0
  }

  /** The line "<id>\t<state>" is accepted and gives the row keyed by id. */
  lemma IdStateLine(id: string, state: string, mode: string)
    requires id != [] && '\t' !in id
    requires state != [] && '\t' !in state
    ensures RowsFrom([id + "\t" + state], mode) == [DeviceRow(id, DeviceName, mode)]
  {
    SplitSkipEmptyCons(id, state, '\t');
    SplitSkipEmptyNoSep(state, '\t');
    RowsOfOneLine(id + "\t" + state, mode);
  }

  /** A single line "<id>\t<state>", ended by line ends, is one device: fastboot
      lists it, and adb lists it when it follows the header line. */
  lemma OneDeviceLine(id: string, state: string, header: string, trailer: string)
    requires id != [] && '\t' !in id && '\n' !in id
    requires state != [] && '\t' !in state && '\n' !in state
    requires header != [] && '\n' !in header
    requires OnlyNewlines(trailer)
    ensures FastbootRows(id + "\t" + state + trailer) == [DeviceRow(id, DeviceName, FastbootStatus)]
    ensures AdbRows(header + "\n" + id + "\t" + state + trailer) == [DeviceRow(id, DeviceName, AdbStatus)]
  {
    var line := id + "\t" + state;
    assert '\n' !in line;
    SplitSkipEmptyTrailingSeps(line, trailer, '\n');
    SplitSkipEmptyNoSep(line, '\n');
    IdStateLine(id, state, FastbootStatus);
    IdStateLine(id, state, AdbStatus);
    assert id + "\t" + state + trailer == line + trailer;
    assert header + "\n" + id + "\t" + state + trailer == header + "\n" + (line + trailer);
    AdbSkipsHeader(header, line + trailer);
  }

  /** A refresh that sees one phone in fastboot mode and another in adb mode
      (behind adb's header line) lists both, the fastboot one first; the same id
      seen in both modes is listed twice. */
  lemma OnePhoneInEachMode(fbId: string, fbState: string, header: string, adbId: string, adbState: string)
    requires fbId != [] && '\t' !in fbId && '\n' !in fbId
    requires fbState != [] && '\t' !in fbState && '\n' !in fbState
    requires header != [] && '\n' !in header
    requires adbId != [] && '\t' !in adbId && '\n' !in adbId
    requires adbState != [] && '\t' !in adbState && '\n' !in adbState
    ensures RefreshedTable(Finished(fbId + "\t" + fbState + "\n"), Finished(header + "\n" + adbId + "\t" + adbState + "\n")) ==
            [DeviceRow(fbId, DeviceName, FastbootStatus), DeviceRow(adbId, DeviceName, AdbStatus)]
  {
    OneDeviceLine(fbId, fbState, header, "\n");
    OneDeviceLine(adbId, adbState, header, "\n");
  }
}

/** The two pure pieces of the flashing slots: the partition choice turned into a
    fastboot command line (mainwindow.cpp:242-256), and a chunk of the flashing
    process's output turned into a progress value (mainwindow.cpp:286-294). */
module Flashing {
  import opened Options
  import opened QtText

  /** The partitions the "刷机分区" combo box offers. */
  datatype Partition = All | System | Boot | Recovery | Radio

  /** The combo box item for each partition, in the order they are added
      (mainwindow.cpp:69). */
  function Label(p: Partition): string
  {
    match p
    case All => "全部分区"
    case System => "系统"
    case Boot => "引导"
    case Recovery => "恢复模式"
    case Radio => "基带"
  }

  /** Which partition the combo box text names, tested in the order of the
      if-chain; any other text names none. */
  function PartitionOf(item: string): (p: Option<Partition>)
    ensures p.Some? ==> Label(p.value) == item
  {
    if item == "全部分区" then Some(All)
    else if item == "系统" then Some(System)
    else if item == "引导" then Some(Boot)
    else if item == "恢复模式" then Some(Recovery)
    else if item == "基带" then Some(Radio)
    else None
  }

  /** Every combo item is recognised as its own partition, and only the five
      combo items are recognised at all. */
  lemma LabelsRoundTrip(p: Partition, item: string)
    ensures PartitionOf(Label(p)) == Some(p)
    ensures PartitionOf(item).Some? <==> item in {Label(All), Label(System), Label(Boot), Label(Recovery), Label(Radio)}
  {
  }

  /** The start of each command line, up to and including the opening quote of
      the firmware path. */
  function CommandHead(p: Partition): string
  {
    match p
    case All => "fastboot flashall -w \""
    case System => "fastboot flash system \""
    case Boot => "fastboot flash boot \""
    case Recovery => "fastboot flash recovery \""
    case Radio => "fastboot flash radio \""
  }

  /** The command handed to "cmd.exe /c": the partition's fastboot command with
      the firmware path in double quotes; empty when the combo text names no
      partition. */
  function FlashCommand(item: string, path: string): (command: string)
    ensures command == [] <==> PartitionOf(item).None?
    ensures PartitionOf(item).Some? ==>
              command[|command| - 1] == '"' && CommandHead(PartitionOf(item).value) <= command
  {
    match PartitionOf(item)
    case None => []
    case Some(p) => CommandHead(p) + path + "\""
  }

  /** Reads a command line back: which partition it flashes and which file. */
  function ParseCommand(command: string): Option<(Partition, string)>
  {
    if |command| == 0 || command[|command| - 1] != '"' then None
    else
      var body := command[..|command| - 1];
      if CommandHead(All) <= body then Some((All, body[|CommandHead(All)|..]))
      else if CommandHead(System) <= body then Some((System, body[|CommandHead(System)|..]))
      else if CommandHead(Boot) <= body then Some((Boot, body[|CommandHead(Boot)|..]))
      else if CommandHead(Recovery) <= body then Some((Recovery, body[|CommandHead(Recovery)|..]))
      else if CommandHead(Radio) <= body then Some((Radio, body[|CommandHead(Radio)|..]))
      else None
  }

  /** No command head is a prefix of another partition's command, whatever the path. */
  lemma HeadsDiffer(p: Partition, q: Partition, path: string)
    requires p != q
    ensures !(CommandHead(q) <= CommandHead(p) + path)
  {
    var c := CommandHead(p) + path;
    var h := CommandHead(q);
    // the heads share "fastboot flash" and part ways at position 14, 15 or 16
    assert c[14] == CommandHead(p)[14] && c[15] == CommandHead(p)[15] && c[16] == CommandHead(p)[16];
    assert h[14] != c[14] || h[15] != c[15] || h[16] != c[16];
  }

  /** The command names its partition and its file unambiguously: reading it back
      gives the partition chosen and the firmware path, for every path. */
  lemma CommandRoundTrip(item: string, path: string)
    requires PartitionOf(item).Some?
    ensures ParseCommand(FlashCommand(item, path)) == Some((PartitionOf(item).value, path))
  {
    var p := PartitionOf(item).value;
    var command := FlashCommand(item, path);
    var body := command[..|command| - 1];
    assert body == CommandHead(p) + path;
    assert body[|CommandHead(p)|..] == path;
    forall q | q != p ensures !(CommandHead(q) <= body) {
      HeadsDiffer(p, q, path);
    }
  }

  /** Two different choices never give the same command line. */
  lemma CommandInjective(item1: string, path1: string, item2: string, path2: string)
    requires PartitionOf(item1).Some? && PartitionOf(item2).Some?
    requires FlashCommand(item1, path1) == FlashCommand(item2, path2)
    ensures PartitionOf(item1) == PartitionOf(item2) && path1 == path2
  {
    CommandRoundTrip(item1, path1);
    CommandRoundTrip(item2, path2);
  }

  /** The output texts the progress bar follows, all about the system partition. */
  const ErasingSystem: string := "Erasing 'system'"
  const SendingSystem: string := "Sending 'system'"
  const WritingSystem: string := "Writing 'system'"
  const FinishedSystem: string := "Finished processing system"

  /** The progress value a chunk of output sets: the first of the four texts it
      contains, tested in this order, decides; a chunk with none sets nothing. */
  function Milestone(chunk: string): (m: Option<int>)
    ensures m.Some? ==> m.value in {10, 30, 60, 80}
  {
    if Contains(chunk, ErasingSystem) then Some(10)
    else if Contains(chunk, SendingSystem) then Some(30)
    else if Contains(chunk, WritingSystem) then Some(60)
    else if Contains(chunk, FinishedSystem) then Some(80)
    else None
  }

  /** The same rule stated as a table: (text, value) checkpoints in order. */
  const Checkpoints: seq<(string, int)> :=
    [(ErasingSystem, 10), (SendingSystem, 30), (WritingSystem, 60), (FinishedSystem, 80)]

  /** The value of the first checkpoint whose text the chunk contains. */
  function FirstCheckpoint(table: seq<(string, int)>, chunk: string): Option<int>
  {
    if |table| == 0 then None
    else if Contains(chunk, table[0].0) then Some(table[0].1)
    else FirstCheckpoint(table[1..], chunk)
  }

  /** FirstCheckpoint is the first-match rule: nothing when no text of the table
      occurs in the chunk, and otherwise the value of the earliest one that does. */
  lemma {:induction false} FirstCheckpointFirstMatch(table: seq<(string, int)>, chunk: string)
    ensures FirstCheckpoint(table, chunk).None? <==> forall k :: 0 <= k < |table| ==> !Contains(chunk, table[k].0)
    ensures FirstCheckpoint(table, chunk).Some? ==>
              exists k :: 0 <= k < |table| && Contains(chunk, table[k].0) &&
                          FirstCheckpoint(table, chunk).value == table[k].1 &&
                          forall j :: 0 <= j < k ==> !Contains(chunk, table[j].0)
    decreases |table|
  {
    if |table| > 0 && !Contains(chunk, table[0].0) {
      var rest := table[1..];
      FirstCheckpointFirstMatch(rest, chunk);
      assert forall k :: 1 <= k < |table| ==> rest[k - 1] == table[k];
      if FirstCheckpoint(rest, chunk).Some? {
        var k :| 0 <= k < |rest| && Contains(chunk, rest[k].0) &&
                 FirstCheckpoint(rest, chunk).value == rest[k].1 &&
                 forall j :: 0 <= j < k ==> !Contains(chunk, rest[j].0);
        assert forall j :: 0 <= j < k + 1 ==> !Contains(chunk, table[j].0) by {
          forall j | 0 <= j < k + 1 ensures !Contains(chunk, table[j].0) {
            if j > 0 { assert table[j] == rest[j - 1]; }
          }
        }
        assert Contains(chunk, table[k + 1].0);
      }
    }
  }

  /** The if-chain is the first-match rule over the checkpoint table: a chunk sets
      the value of the earliest listed text it contains, and a chunk containing
      none of them leaves progress alone. */
  lemma MilestoneIsFirstCheckpoint(chunk: string)
    ensures Milestone(chunk) == FirstCheckpoint(Checkpoints, chunk)
  {
    var t3 := [(FinishedSystem, 80)];
    var t2 := [(WritingSystem, 60)] + t3;
    var t1 := [(SendingSystem, 30)] + t2;
    assert Checkpoints[1..] == t1 && t1[1..] == t2 && t2[1..] == t3 && t3[1..] == [];
    assert FirstCheckpoint(t3, chunk) == if Contains(chunk, FinishedSystem) then Some(80) else None;
    assert FirstCheckpoint(t2, chunk) == if Contains(chunk, WritingSystem) then Some(60) else FirstCheckpoint(t3, chunk);
    assert FirstCheckpoint(t1, chunk) == if Contains(chunk, SendingSystem) then Some(30) else FirstCheckpoint(t2, chunk);
  }

  /** The example chunks: "Erasing 'system'..." sets 10 and "Writing 'system'..."
      sets 60. */
  lemma ExampleChunks(tail: string)
    requires 'E' !in tail && 'S' !in tail
    ensures Milestone(ErasingSystem + tail) == Some(10)
    ensures Milestone(WritingSystem + tail) == Some(60)
  {
    assert ErasingSystem <= ErasingSystem + tail;
    var w := WritingSystem + tail;
    assert WritingSystem <= w;
    assert 'E' !in w && 'S' !in w;
    ContainsNeedsFirstChar(w, ErasingSystem);
    ContainsNeedsFirstChar(w, SendingSystem);
  }
}

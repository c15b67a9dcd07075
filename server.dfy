/** The confirmation bridge (src/rust/mcp/server.rs): tool dispatch, the round trip
    through the UI process, the lookup of the UI executable and the text returned to the
    calling agent. Files, processes and the JSON parser are described by a `Host` record
    of outcomes; the bridge itself is the decision logic over them. */
module Server {
  import opened Wrappers
  import opened Text
  import Paths
  import opened Types
  import opened Requests
  import Commands

  // ===========================================================================
  // Response text (`handle_confirm`)

  const CancelledHeader: string := "用戶取消操作\n"
  const ConfirmedHeader: string := "用戶確認操作\n"
  const ExecuteHeader: string := "⚠️ 用戶已確認並選擇了以下任務，請立即執行（不要再詢問確認）：\n"
  const TaskListHeading: string := "\n📋 需要立即執行的任務：\n"
  const InputHeading: string := "\n\n💬 用戶額外要求：\n"

  /** The first line: cancelled, confirmed with tasks, or plainly confirmed. */
  function Header(resp: UserResponse): string {
    if resp.confirmed then
      if resp.selectedSections != [] then ExecuteHeader else ConfirmedHeader
    else CancelledHeader
  }

  /** The line that echoes the raw index list. */
  function IndexLine(selected: seq<nat>): string {
    "\n選中的段落索引: " + DebugList(selected) + "\n"
  }

  /** The index line echoes the selection list: different lists give different lines. */
  lemma IndexLineInjective(a: seq<nat>, b: seq<nat>)
    requires IndexLine(a) == IndexLine(b)
    ensures a == b
  {
    var lead := "\n選中的段落索引: ";
    var la, lb := IndexLine(a), IndexLine(b);
    assert DebugList(a) == la[|lead|..|la| - 1];
    assert DebugList(b) == lb[|lead|..|lb| - 1];
    DebugListInjective(a, b);
  }

  /** A task block to print: `number` is the 1-based position in the selection list,
      `index` the section it refers to. */
  datatype Task = Task(number: nat, index: nat)

  /** The task blocks the loop emits for `selected`, in order, against `count` sections:
      one per entry that is in range, numbered by its position in the whole list. */
  function Tasks(count: nat, selected: seq<nat>): (ts: seq<Task>)
    ensures |ts| <= |selected|
    ensures forall k :: 0 <= k < |ts| ==>
      && 1 <= ts[k].number <= |selected|
      && selected[ts[k].number - 1] == ts[k].index
      && ts[k].index < count
    ensures forall k, l :: 0 <= k < l < |ts| ==> ts[k].number < ts[l].number
  {
    if selected == [] then []
    else
      var n := |selected|;
      var prev := Tasks(count, selected[..n - 1]);
      assert forall k :: 0 <= k < |prev| ==> selected[..n - 1][prev[k].number - 1] == selected[prev[k].number - 1];
      var idx := selected[n - 1];
      if idx < count then prev + [Task(n, idx)] else prev
  }

  /** The positions of `selected` whose index is in range. */
  ghost function InRangePositions(count: nat, selected: seq<nat>): set<nat> {
    set i: nat | i < |selected| && selected[i] < count
  }

  predicate TaskIndicesBelow(ts: seq<Task>, count: nat) {
    forall k :: 0 <= k < |ts| ==> ts[k].index < count
  }

  /** The three lines pushed for one task. */
  function TaskBlock(s: Section, t: Task): string {
    TaskTitleLine(s, t) + TaskDetailLine(s) + TaskActionLine
  }

  function TaskTitleLine(s: Section, t: Task): string {
    "\n✅ 任務 " + Decimal(t.number) + " (索引 " + Decimal(t.index) + ")：" + s.title + "\n"
  }

  function TaskDetailLine(s: Section): string {
    "   詳細說明：" + s.content + "\n"
  }

  const TaskActionLine: string := "   ⚡ 行動：立即開始實作此任務\n"

  function RenderTasks(sections: seq<Section>, ts: seq<Task>): string
    requires TaskIndicesBelow(ts, |sections|)
  {
    if ts == [] then ""
    else
      var t := ts[|ts| - 1];
      RenderTasks(sections, ts[..|ts| - 1]) + TaskBlock(sections[t.index], t)
  }

  /** Index line, task heading and task blocks; present whenever the selection is non-empty,
      whatever `confirmed` says. */
  function SelectionPart(sections: seq<Section>, selected: seq<nat>): string {
    if selected == [] then ""
    else IndexLine(selected) + TaskListHeading + RenderTasks(sections, Tasks(|sections|, selected))
  }

  function InputPart(input: string): string {
    if input == "" then "" else InputHeading + input
  }

  function ImagePart(images: seq<string>): string {
    if images == [] then "" else "\n\n附加圖片: " + Decimal(|images|) + " 張"
  }

  /** The text `handle_confirm` returns for a response to a request with `sections`. */
  function FormatResponse(sections: seq<Section>, resp: UserResponse): string {
    Header(resp) + SelectionPart(sections, resp.selectedSections)
      + InputPart(resp.userInput) + ImagePart(resp.images)
  }

  /** `handle_confirm`'s string building, step by step as the source pushes onto `content`. */
  method BuildContent(sections: seq<Section>, resp: UserResponse) returns (content: string)
    ensures content == FormatResponse(sections, resp)
  {
    var selected := resp.selectedSections;
    if resp.confirmed {
      if selected != [] {
        content := ExecuteHeader;
      } else {
        content := ConfirmedHeader;
      }
    } else {
      content := CancelledHeader;
    }
    ghost var head := content;

    if selected != [] {
      content := content + IndexLine(selected);
      content := content + TaskListHeading;
      ghost var lead := content;
      content := AppendTasks(content, sections, selected);
      assert content == head + SelectionPart(sections, selected) by {
        var rendered := RenderTasks(sections, Tasks(|sections|, selected));
        AppendAssoc(head, IndexLine(selected), TaskListHeading);
        AppendAssoc(head, IndexLine(selected) + TaskListHeading, rendered);
      }
    } else {
      assert content == head + SelectionPart(sections, selected);
    }
    assert head == Header(resp);

    ghost var afterSelection := content;
    if resp.userInput != "" {
      content := content + InputHeading + resp.userInput;
      AppendAssoc(afterSelection, InputHeading, resp.userInput);
    } else {
      assert content == afterSelection + InputPart(resp.userInput);
    }

    ghost var afterInput := content;
    if resp.images != [] {
      content := content + "\n\n附加圖片: " + Decimal(|resp.images|) + " 張";
      AppendAssoc(afterInput, "\n\n附加圖片: ", Decimal(|resp.images|));
      AppendAssoc(afterInput, "\n\n附加圖片: " + Decimal(|resp.images|), " 張");
    } else {
      assert content == afterInput + ImagePart(resp.images);
    }
  }

  /** The task loop of `handle_confirm`: one block per in-range selected index. */
  method AppendTasks(lead: string, sections: seq<Section>, selected: seq<nat>) returns (content: string)
    ensures content == lead + RenderTasks(sections, Tasks(|sections|, selected))
  {
    content := lead;
    var i := 0;
    while i < |selected|
      invariant 0 <= i <= |selected|
      invariant content == lead + RenderTasks(sections, Tasks(|sections|, selected[..i]))
    {
      var idx := selected[i];
      RenderStep(sections, selected, i);
      if idx < |sections| {
        var t := Task(i + 1, idx);
        ghost var done := content;
        content := content + TaskTitleLine(sections[idx], t);
        content := content + TaskDetailLine(sections[idx]);
        content := content + TaskActionLine;
        PushThree(done, TaskTitleLine(sections[idx], t), TaskDetailLine(sections[idx]), TaskActionLine);
        AppendAssoc(lead, RenderTasks(sections, Tasks(|sections|, selected[..i])), TaskBlock(sections[idx], t));
      }
      i := i + 1;
    }
    assert selected[..|selected|] == selected;
  }

  /** One step of the task loop: position `i` adds its block, or nothing when out of range. */
  lemma RenderStep(sections: seq<Section>, selected: seq<nat>, i: nat)
    requires i < |selected|
    ensures selected[i] < |sections| ==>
      RenderTasks(sections, Tasks(|sections|, selected[..i + 1]))
      == RenderTasks(sections, Tasks(|sections|, selected[..i])) + TaskBlock(sections[selected[i]], Task(i + 1, selected[i]))
    ensures selected[i] >= |sections| ==>
      RenderTasks(sections, Tasks(|sections|, selected[..i + 1])) == RenderTasks(sections, Tasks(|sections|, selected[..i]))
  {
    var idx := selected[i];
    TasksStep(|sections|, selected, i);
    if idx < |sections| {
      RenderTasksSnoc(sections, Tasks(|sections|, selected[..i]), Task(i + 1, idx));
    }
  }

  /** Extending the examined prefix of the selection by one entry. */
  lemma TasksStep(count: nat, selected: seq<nat>, i: nat)
    requires i < |selected|
    ensures Tasks(count, selected[..i + 1])
            == if selected[i] < count then Tasks(count, selected[..i]) + [Task(i + 1, selected[i])] else Tasks(count, selected[..i])
  {
    assert selected[..i + 1] == selected[..i] + [selected[i]];
    TasksSnoc(count, selected[..i], selected[i]);
  }

  lemma TasksSnoc(count: nat, selected: seq<nat>, idx: nat)
    ensures Tasks(count, selected + [idx])
            == if idx < count then Tasks(count, selected) + [Task(|selected| + 1, idx)] else Tasks(count, selected)
  {
    assert (selected + [idx])[..|selected|] == selected;
  }

  lemma RenderTasksSnoc(sections: seq<Section>, ts: seq<Task>, t: Task)
    requires TaskIndicesBelow(ts, |sections|) && t.index < |sections|
    ensures TaskIndicesBelow(ts + [t], |sections|)
    ensures RenderTasks(sections, ts + [t]) == RenderTasks(sections, ts) + TaskBlock(sections[t.index], t)
  {
    assert (ts + [t])[..|ts|] == ts;
  }

  // ---- properties of the response text ----

  /** The text opens with the line that matches the response. */
  lemma FormatStartsWithHeader(sections: seq<Section>, resp: UserResponse)
    ensures !resp.confirmed ==> CancelledHeader <= FormatResponse(sections, resp)
    ensures resp.confirmed && resp.selectedSections != [] ==> ExecuteHeader <= FormatResponse(sections, resp)
    ensures resp.confirmed && resp.selectedSections == [] ==> ConfirmedHeader <= FormatResponse(sections, resp)
  {
    PrefixOfLeftmost(Header(resp), SelectionPart(sections, resp.selectedSections),
                     InputPart(resp.userInput), ImagePart(resp.images));
  }

  /** A cancellation with nothing attached is exactly the cancellation line. */
  lemma FormatCancelledExactly(sections: seq<Section>)
    ensures FormatResponse(sections, Cancelled()) == CancelledHeader
  {}

  /** A confirmation with nothing selected, typed or attached is exactly the confirmation line. */
  lemma FormatConfirmedPlain(sections: seq<Section>)
    ensures FormatResponse(sections, Confirmed([], "", [])) == ConfirmedHeader
  {}

  /** The selection block is not guarded by `confirmed`: a response that is not confirmed
      but still carries selections echoes them after the cancellation line. */
  lemma FormatEchoesSelectionWhenCancelled(sections: seq<Section>, resp: UserResponse)
    requires !resp.confirmed && resp.selectedSections != []
    ensures CancelledHeader + IndexLine(resp.selectedSections) + TaskListHeading
            <= FormatResponse(sections, resp)
  {
    PrefixOfNested(CancelledHeader, IndexLine(resp.selectedSections), TaskListHeading,
                   RenderTasks(sections, Tasks(|sections|, resp.selectedSections)),
                   InputPart(resp.userInput), ImagePart(resp.images));
  }

  /** The selection block appears exactly when the selection is non-empty. */
  lemma SelectionPartIffSelected(sections: seq<Section>, selected: seq<nat>)
    ensures SelectionPart(sections, selected) == "" <==> selected == []
  {
    if selected != [] {
      assert |SelectionPart(sections, selected)| >= |IndexLine(selected)| > 0;
    }
  }

  /** Input block, then image count, close the text. */
  lemma FormatEndsWithInputThenImages(sections: seq<Section>, resp: UserResponse)
    requires resp.userInput != "" && resp.images != []
    ensures EndsWith(FormatResponse(sections, resp),
                     InputHeading + resp.userInput + "\n\n附加圖片: " + Decimal(|resp.images|) + " 張")
  {
    EndsWithNested(Header(resp) + SelectionPart(sections, resp.selectedSections), InputHeading + resp.userInput,
                   "\n\n附加圖片: ", Decimal(|resp.images|), " 張");
  }

  /** Every in-range entry of the selection list gets a task, numbered by its position. */
  lemma {:induction false} TasksCoverInRange(count: nat, selected: seq<nat>, i: nat)
    requires i < |selected| && selected[i] < count
    ensures Task(i + 1, selected[i]) in Tasks(count, selected)
    decreases |selected|
  {
    var n := |selected|;
    if i < n - 1 {
      assert selected[..n - 1][i] == selected[i];
      TasksCoverInRange(count, selected[..n - 1], i);
    }
  }

  /** The number of task blocks is the number of in-range entries, duplicates included. */
  lemma {:induction false} TasksCount(count: nat, selected: seq<nat>)
    ensures |Tasks(count, selected)| == |InRangePositions(count, selected)|
    decreases |selected|
  {
    if selected != [] {
      var n := |selected|;
      var pre := selected[..n - 1];
      TasksCount(count, pre);
      var a := InRangePositions(count, pre);
      var b := InRangePositions(count, selected);
      assert forall i: nat :: i < n - 1 ==> pre[i] == selected[i];
      if selected[n - 1] < count {
        assert b == a + {n - 1};
        assert n - 1 !in a;
      } else {
        assert b == a;
      }
    }
  }

  /** An out-of-range entry adds no task and changes no other task's number. */
  lemma OutOfRangeSkipped(count: nat, selected: seq<nat>, idx: nat)
    requires idx >= count
    ensures Tasks(count, selected + [idx]) == Tasks(count, selected)
  {
    assert (selected + [idx])[..|selected|] == selected;
  }

  /** Each task's block, with its section's title and content, is in the rendered text. */
  lemma {:induction false} TaskBlockRendered(sections: seq<Section>, ts: seq<Task>, k: nat)
    requires TaskIndicesBelow(ts, |sections|) && k < |ts|
    ensures IsInfix(TaskBlock(sections[ts[k].index], ts[k]), RenderTasks(sections, ts))
    decreases |ts|
  {
    var n := |ts|;
    var pre := RenderTasks(sections, ts[..n - 1]);
    var block := TaskBlock(sections[ts[n - 1].index], ts[n - 1]);
    if k == n - 1 {
      InfixOfWhole(block);
      InfixOfRight(block, pre, block);
    } else {
      assert ts[..n - 1][k] == ts[k];
      TaskBlockRendered(sections, ts[..n - 1], k);
      InfixOfLeft(TaskBlock(sections[ts[k].index], ts[k]), pre, block);
    }
  }

  /** A task block shows its section's title and content. */
  lemma TaskBlockShowsSection(s: Section, t: Task)
    ensures IsInfix(s.title, TaskBlock(s, t)) && IsInfix(s.content, TaskBlock(s, t))
  {
    var title, detail := TaskTitleLine(s, t), TaskDetailLine(s);
    var lead := "\n✅ 任務 " + Decimal(t.number) + " (索引 " + Decimal(t.index) + ")：";
    InfixOfWhole(s.title);
    InfixOfRight(s.title, lead, s.title);
    InfixOfLeft(s.title, lead + s.title, "\n");
    InfixOfLeft(s.title, title, detail);
    InfixOfLeft(s.title, title + detail, TaskActionLine);
    InfixOfWhole(s.content);
    InfixOfRight(s.content, "   詳細說明：", s.content);
    InfixOfLeft(s.content, "   詳細說明：" + s.content, "\n");
    InfixOfRight(s.content, title, detail);
    InfixOfLeft(s.content, title + detail, TaskActionLine);
  }

  /** For every in-range selected entry, the returned text holds its task block, and with
      it that section's title and content, whatever else the response says. */
  lemma SelectedSectionShown(sections: seq<Section>, resp: UserResponse, i: nat)
    requires i < |resp.selectedSections| && resp.selectedSections[i] < |sections|
    ensures var s := sections[resp.selectedSections[i]];
      var r := FormatResponse(sections, resp);
      IsInfix(TaskBlock(s, Task(i + 1, resp.selectedSections[i])), r)
      && IsInfix(s.title, r) && IsInfix(s.content, r)
  {
    var selected := resp.selectedSections;
    var ts := Tasks(|sections|, selected);
    TasksCoverInRange(|sections|, selected, i);
    var k :| 0 <= k < |ts| && ts[k] == Task(i + 1, selected[i]);
    var s := sections[selected[i]];
    var block := TaskBlock(s, ts[k]);
    var r := FormatResponse(sections, resp);
    TaskBlockRendered(sections, ts, k);
    InfixOfNested(block, Header(resp), IndexLine(selected), TaskListHeading,
                  RenderTasks(sections, ts), InputPart(resp.userInput), ImagePart(resp.images));
    TaskBlockShowsSection(s, ts[k]);
    InfixTransitive(s.title, block, r);
    InfixTransitive(s.content, block, r);
  }

  /** A section is rendered only if its index occurs in the selection list. */
  lemma OnlySelectedSectionsRendered(count: nat, selected: seq<nat>, j: nat)
    requires j !in selected
    ensures forall k :: 0 <= k < |Tasks(count, selected)| ==> Tasks(count, selected)[k].index != j
  {}

  /** The worked example: two sections, only the first one selected. */
  lemma FormatExample()
    ensures var sections := [Section("Fix bug", "Patch X", true), Section("Add tests", "Cover X", false)];
      var r := FormatResponse(sections, Confirmed([0], "", []));
      && r == ExecuteHeader + "\n選中的段落索引: [0]\n" + TaskListHeading
              + "\n✅ 任務 1 (索引 0)：Fix bug\n" + "   詳細說明：Patch X\n" + TaskActionLine
      && IsInfix("Fix bug", r)
  {
    var sections := [Section("Fix bug", "Patch X", true), Section("Add tests", "Cover X", false)];
    var resp := Confirmed([0], "", []);
    ExampleTasks(sections);
    ExampleIndexLine();
    var front := ExecuteHeader + "\n選中的段落索引: [0]\n" + TaskListHeading;
    var title, detail := "\n✅ 任務 1 (索引 0)：Fix bug\n", "   詳細說明：Patch X\n";
    assert SelectionPart(sections, [0]) == IndexLine([0]) + TaskListHeading + RenderTasks(sections, Tasks(2, [0]));
    assert FormatResponse(sections, resp) == ExecuteHeader + SelectionPart(sections, [0]) + "" + "";
    AppendAssoc(ExecuteHeader, IndexLine([0]), TaskListHeading);
    AppendAssoc(ExecuteHeader, IndexLine([0]) + TaskListHeading, title + detail + TaskActionLine);
    PushThree(front, title, detail, TaskActionLine);
    SelectedSectionShown(sections, resp, 0);
  }

  lemma ExampleIndexLine()
    ensures IndexLine([0]) == "\n選中的段落索引: [0]\n"
  {
    assert Decimal(0) == "0";
    assert DebugList([0]) == "[0]";
  }

  lemma ExampleTasks(sections: seq<Section>)
    requires sections == [Section("Fix bug", "Patch X", true), Section("Add tests", "Cover X", false)]
    ensures RenderTasks(sections, Tasks(2, [0]))
            == "\n✅ 任務 1 (索引 0)：Fix bug\n" + "   詳細說明：Patch X\n" + TaskActionLine
  {
    ExampleTaskList();
    RenderSingle(sections, Task(1, 0));
    ExampleLines(sections[0]);
  }

  lemma ExampleLines(s: Section)
    requires s == Section("Fix bug", "Patch X", true)
    ensures TaskTitleLine(s, Task(1, 0)) == "\n✅ 任務 1 (索引 0)：Fix bug\n"
    ensures TaskDetailLine(s) == "   詳細說明：Patch X\n"
  {
    assert Decimal(0) == "0" && Decimal(1) == "1";
  }

  lemma ExampleTaskList()
    ensures Tasks(2, [0]) == [Task(1, 0)]
  {
    assert [0][..0] == [];
  }

  /** A single task renders as its block. */
  lemma RenderSingle(sections: seq<Section>, t: Task)
    requires t.index < |sections|
    ensures RenderTasks(sections, [t]) == TaskBlock(sections[t.index], t)
  {
    assert [t][..0] == [];
    assert "" + TaskBlock(sections[t.index], t) == TaskBlock(sections[t.index], t);
  }

  // ===========================================================================
  // UI lookup (`find_ui_command`) and the round trip (`create_ui_popup`)

  const UiName: string := "claude-confirm-ui"
  const NotFoundMessage: string := "找不到 UI 程序。請確保 claude-confirm-ui 在同目錄或已安裝到系統"

  /** What the UI process left behind: exit status and its two output streams
      (the bytes are abstracted as text). */
  datatype ChildOutput = ChildOutput(success: bool, stdout: string, stderr: string)

  /** The outcomes the bridge observes from the operating system.
      `exeDir`: the directory of the running executable, if `current_exe` and `parent` give one;
      `existing`: the paths for which `exists()` holds;
      `globalProbeOk`: `claude-confirm-ui --version` ran and exited successfully;
      `writeError`: the error of `fs::write` on the request file, if it failed;
      `launch`: the result of running the UI and collecting its output. */
  datatype Host = Host(
    tempDir: string,
    exeDir: Option<string>,
    existing: set<string>,
    globalProbeOk: bool,
    writeError: Option<string>,
    launch: Result<ChildOutput, string>)

  /** The steps the bridge takes, in order. */
  datatype Action =
    | WriteRequest(path: string, request: PopupRequest)
    | ProbeGlobal
    | Launch(program: string, args: seq<string>)
    | RemoveRequest(path: string)

  datatype Lookup = Lookup(command: Result<string, string>, probed: bool)

  /** The colocated executable, when the running program's directory is known. */
  function LocalCandidate(host: Host): Option<string> {
    match host.exeDir
    case Some(dir) => Some(Paths.Join(dir, UiName))
    case None => None
  }

  /** `find_ui_command`: the colocated UI if it exists, else the global name if its
      version probe succeeds, else an error. The global probe runs only when the
      colocated UI is missing. */
  function FindUiCommand(host: Host): (r: Lookup)
    ensures r.command.Err? ==> r.command.error == NotFoundMessage
    ensures r.probed <==> !(LocalCandidate(host).Some? && LocalCandidate(host).value in host.existing)
  {
    var local := LocalCandidate(host);
    if local.Some? && local.value in host.existing then Lookup(Ok(local.value), false)
    else if host.globalProbeOk then Lookup(Ok(UiName), true)
    else Lookup(Err(NotFoundMessage), true)
  }

  /** Whatever the lookup chooses is an executable named `claude-confirm-ui`. */
  lemma LookupChoosesUi(host: Host)
    requires FindUiCommand(host).command.Ok?
    ensures Paths.FileName(FindUiCommand(host).command.value) == Some(UiName)
  {
    var local := LocalCandidate(host);
    if local.Some? && local.value in host.existing {
      Paths.FileNameOfJoin(host.exeDir.value, UiName);
    } else {
      Paths.FileNameOfJoin("", UiName);
    }
  }

  lemma LookupPrefersLocal(host: Host)
    requires host.exeDir.Some? && Paths.Join(host.exeDir.value, UiName) in host.existing
    ensures FindUiCommand(host) == Lookup(Ok(Paths.Join(host.exeDir.value, UiName)), false)
  {}

  lemma LookupFallsBackToGlobal(host: Host)
    requires LocalCandidate(host).None? || LocalCandidate(host).value !in host.existing
    ensures FindUiCommand(host).command == if host.globalProbeOk then Ok(UiName) else Err(NotFoundMessage)
  {}

  /** The request file's name. */
  function TempFileName(id: string): string {
    "mcp_request_" + id + ".json"
  }

  function TempPath(host: Host, id: string): string {
    Paths.Join(host.tempDir, TempFileName(id))
  }

  /** The id can be read back from the request file's name. */
  lemma TempFileNameInjective(id1: string, id2: string)
    requires TempFileName(id1) == TempFileName(id2)
    ensures id1 == id2
  {
    var pre := "mcp_request_";
    assert id1 == TempFileName(id1)[|pre|..|TempFileName(id1)| - 5];
    assert id2 == TempFileName(id2)[|pre|..|TempFileName(id2)| - 5];
  }

  /** Requests with different ids never share a request file. */
  lemma TempPathsDistinct(host: Host, id1: string, id2: string)
    requires id1 != id2
    ensures TempPath(host, id1) != TempPath(host, id2)
  {
    if TempPath(host, id1) == TempPath(host, id2) {
      Paths.JoinInjective(host.tempDir, TempFileName(id1), TempFileName(id2));
      TempFileNameInjective(id1, id2);
    }
  }

  /** How a successful child's standard output becomes a response: the trimmed text is
      parsed (the JSON syntax is the `parseJson` parameter) and decoded; anything that
      fails becomes the cancellation. */
  function ReadResponse(parseJson: string -> Option<RawUserResponse>, stdout: string): (r: UserResponse)
    ensures parseJson(Trim(stdout)).Some? && DecodeUserResponse(parseJson(Trim(stdout)).value).Ok? ==>
              r == DecodeUserResponse(parseJson(Trim(stdout)).value).value
    ensures !(parseJson(Trim(stdout)).Some? && DecodeUserResponse(parseJson(Trim(stdout)).value).Ok?) ==>
              r == Cancelled()
  {
    match parseJson(Trim(stdout))
    case None => Cancelled()
    case Some(raw) =>
      match DecodeUserResponse(raw)
      case Ok(resp) => resp
      case Err(_) => Cancelled()
  }

  datatype Run = Run(result: Result<UserResponse, string>, actions: seq<Action>)

  /** `create_ui_popup`: write the request file, find the UI, run it, remove the file once
      the UI has produced output, then read the response. */
  function CreateUiPopup(req: PopupRequest, host: Host, parseJson: string -> Option<RawUserResponse>): (run: Run)
    ensures |run.actions| >= 1 && run.actions[0] == WriteRequest(TempPath(host, req.id), req)
    ensures run.result.Ok? <==> host.writeError.None? && FindUiCommand(host).command.Ok?
                                && host.launch.Ok? && host.launch.value.success
    ensures run.result.Ok? ==> run.result.value == ReadResponse(parseJson, host.launch.value.stdout)
  {
    var path := TempPath(host, req.id);
    var written := [WriteRequest(path, req)];
    if host.writeError.Some? then Run(Err(host.writeError.value), written)
    else
      var lookup := FindUiCommand(host);
      var probe := if lookup.probed then [ProbeGlobal] else [];
      match lookup.command
      case Err(e) => Run(Err(e), written + probe)
      case Ok(program) =>
        var launch := Launch(program, ["--mcp-request", path]);
        match host.launch
        case Err(e) => Run(Err(e), written + probe + [launch])
        case Ok(out) =>
          var actions := written + probe + [launch, RemoveRequest(path)];
          if out.success then Run(Ok(ReadResponse(parseJson, out.stdout)), actions)
          else Run(Err("UI 程序失敗: " + out.stderr), actions)
  }

  predicate Launched(actions: seq<Action>) {
    exists k :: 0 <= k < |actions| && actions[k].Launch?
  }

  predicate Removed(actions: seq<Action>) {
    exists k :: 0 <= k < |actions| && actions[k].RemoveRequest?
  }

  /** The first action writes the request to the file named after its id. */
  lemma BridgeWritesFirst(req: PopupRequest, host: Host, parseJson: string -> Option<RawUserResponse>)
    ensures var run := CreateUiPopup(req, host, parseJson);
      |run.actions| >= 1 && run.actions[0] == WriteRequest(TempPath(host, req.id), req)
  {}

  /** A failed write stops the bridge: an error, and no process is started. */
  lemma BridgeWriteFailure(req: PopupRequest, host: Host, parseJson: string -> Option<RawUserResponse>)
    requires host.writeError.Some?
    ensures var run := CreateUiPopup(req, host, parseJson);
      run.result == Err(host.writeError.value) && !Launched(run.actions) && !Removed(run.actions)
  {}

  /** No usable UI: the not-found error, nothing launched, the request file left in place. */
  lemma BridgeNotFound(req: PopupRequest, host: Host, parseJson: string -> Option<RawUserResponse>)
    requires host.writeError.None? && FindUiCommand(host).command.Err?
    ensures var run := CreateUiPopup(req, host, parseJson);
      run.result == Err(NotFoundMessage) && !Launched(run.actions) && !Removed(run.actions)
  {
    var run := CreateUiPopup(req, host, parseJson);
    assert forall k :: 0 <= k < |run.actions| ==> run.actions[k].WriteRequest? || run.actions[k].ProbeGlobal?;
  }

  /** The request file is removed exactly when the UI process ran to completion; a
      failure to write, to find or to start the UI leaves the file in place. */
  lemma BridgeRemovesOnlyAfterChild(req: PopupRequest, host: Host, parseJson: string -> Option<RawUserResponse>)
    ensures Removed(CreateUiPopup(req, host, parseJson).actions)
            <==> host.writeError.None? && FindUiCommand(host).command.Ok? && host.launch.Ok?
  {
    var run := CreateUiPopup(req, host, parseJson);
    if host.writeError.None? && FindUiCommand(host).command.Ok? && host.launch.Ok? {
      BridgeRemovalIsLast(req, host, parseJson);
      assert run.actions[|run.actions| - 1].RemoveRequest?;
    } else {
      assert forall k :: 0 <= k < |run.actions| ==> !run.actions[k].RemoveRequest?;
    }
  }

  /** When the UI ran, the removal of the request file is the last step, right after the
      launch, and happens once. */
  lemma BridgeRemovalIsLast(req: PopupRequest, host: Host, parseJson: string -> Option<RawUserResponse>)
    requires host.writeError.None? && FindUiCommand(host).command.Ok? && host.launch.Ok?
    ensures var actions := CreateUiPopup(req, host, parseJson).actions;
      var n := |actions|;
      && n >= 3
      && actions[n - 1] == RemoveRequest(TempPath(host, req.id))
      && actions[n - 2].Launch?
      && (forall k :: 0 <= k < n - 1 ==> !actions[k].RemoveRequest?)
  {
    var path := TempPath(host, req.id);
    var lookup := FindUiCommand(host);
    var w := [WriteRequest(path, req)] + (if lookup.probed then [ProbeGlobal] else []);
    var launch := Launch(lookup.command.value, ["--mcp-request", path]);
    var actions := CreateUiPopup(req, host, parseJson).actions;
    assert actions == w + [launch, RemoveRequest(path)];
    forall k | 0 <= k < |actions| - 1 ensures !actions[k].RemoveRequest? {
      if k < |w| { assert actions[k] == w[k]; } else { assert actions[k] == launch; }
    }
  }

  /** The UI is started with the flag and the request file's path, which the UI's own
      argument reader hands back as `mcp_request`. */
  lemma LaunchArgumentsReachUi(req: PopupRequest, host: Host, parseJson: string -> Option<RawUserResponse>, k: nat)
    requires var run := CreateUiPopup(req, host, parseJson);
      k < |run.actions| && run.actions[k].Launch?
    ensures var a := CreateUiPopup(req, host, parseJson).actions[k];
      Commands.GetCliArgs([a.program] + a.args) == map["mcp_request" := TempPath(host, req.id)]
  {}

  /** A UI that exits with failure is a bridge error carrying its error stream. */
  lemma BridgeChildFailure(req: PopupRequest, host: Host, parseJson: string -> Option<RawUserResponse>)
    requires host.writeError.None? && FindUiCommand(host).command.Ok?
    requires host.launch.Ok? && !host.launch.value.success
    ensures CreateUiPopup(req, host, parseJson).result == Err("UI 程序失敗: " + host.launch.value.stderr)
  {}

  /** A UI that exits successfully never produces a bridge error. */
  lemma BridgeChildSuccess(req: PopupRequest, host: Host, parseJson: string -> Option<RawUserResponse>)
    requires host.writeError.None? && FindUiCommand(host).command.Ok?
    requires host.launch.Ok? && host.launch.value.success
    ensures CreateUiPopup(req, host, parseJson).result == Ok(ReadResponse(parseJson, host.launch.value.stdout))
  {}

  /** Output that does not parse is read as a cancellation, not as an error. */
  lemma UnparsableOutputIsCancelled(parseJson: string -> Option<RawUserResponse>, stdout: string)
    requires parseJson(Trim(stdout)) == None
    ensures ReadResponse(parseJson, stdout) == Cancelled()
  {}

  /** Empty (or all-whitespace) output is read as a cancellation, for any parser that
      rejects the empty document. */
  lemma EmptyOutputIsCancelled(parseJson: string -> Option<RawUserResponse>, stdout: string)
    requires parseJson("") == None
    requires AllWhitespace(stdout)
    ensures ReadResponse(parseJson, stdout) == Cancelled()
  {
    assert Trim(stdout) == "";
  }

  /** A document without `confirmed` is read as a cancellation too. */
  lemma IncompleteOutputIsCancelled(parseJson: string -> Option<RawUserResponse>, stdout: string)
    requires parseJson(Trim(stdout)).Some? && parseJson(Trim(stdout)).value.confirmed.None?
    ensures ReadResponse(parseJson, stdout) == Cancelled()
  {}

  /** What the UI serialises is what the bridge gets back. */
  lemma ResponseRoundTrip(parseJson: string -> Option<RawUserResponse>, stdout: string, resp: UserResponse)
    requires parseJson(Trim(stdout)) == Some(EncodeUserResponse(resp))
    ensures ReadResponse(parseJson, stdout) == resp
  {
    UserResponseRoundTrip(resp);
  }

  // ===========================================================================
  // Tool dispatch (`call_tool`, `handle_confirm`)

  datatype McpError =
    | InvalidParams(message: string)
    | InvalidRequest(message: string)
    | InternalError(message: string)

  /** `handle_confirm`: convert, run the bridge, and format its answer; a bridge failure
      becomes an internal error. */
  function HandleConfirm(req: ConfirmRequest, id: string, host: Host, parseJson: string -> Option<RawUserResponse>)
    : (r: Result<string, McpError>)
    ensures var run := CreateUiPopup(ToPopupRequest(req, id), host, parseJson).result;
      && (run.Ok? ==> r == Ok(FormatResponse(req.sections, run.value)))
      && (run.Err? ==> r == Err(InternalError("UI 互動失敗: " + run.error)))
  {
    var popup := ToPopupRequest(req, id);
    match CreateUiPopup(popup, host, parseJson).result
    case Ok(resp) => Ok(FormatResponse(popup.sections, resp))
    case Err(e) => Err(InternalError("UI 互動失敗: " + e))
  }

  /** `call_tool`: only `confirm` is known; absent arguments are the empty object. */
  function CallTool(name: string, arguments: Option<RawConfirmRequest>, id: string, host: Host,
                    parseJson: string -> Option<RawUserResponse>): (r: Result<string, McpError>)
    ensures name != "confirm" ==> r == Err(InvalidRequest("未知的工具: " + name))
    ensures var d := DecodeConfirmRequest(arguments.GetOr(EmptyArguments));
      name == "confirm" && d.Err? ==> r == Err(InvalidParams("參數解析失敗: " + ErrorMessage(d.error)))
    ensures var d := DecodeConfirmRequest(arguments.GetOr(EmptyArguments));
      name == "confirm" && d.Ok? ==> r == HandleConfirm(d.value, id, host, parseJson)
  {
    if name == "confirm" then
      match DecodeConfirmRequest(arguments.GetOr(EmptyArguments))
      case Err(e) => Err(InvalidParams("參數解析失敗: " + ErrorMessage(e)))
      case Ok(req) => HandleConfirm(req, id, host, parseJson)
    else Err(InvalidRequest("未知的工具: " + name))
  }

  lemma CallToolUnknownName(name: string, arguments: Option<RawConfirmRequest>, id: string, host: Host,
                            parseJson: string -> Option<RawUserResponse>)
    requires name != "confirm"
    ensures CallTool(name, arguments, id, host, parseJson) == Err(InvalidRequest("未知的工具: " + name))
  {}

  /** No arguments means no message, which is a parameter error. */
  lemma CallToolWithoutArguments(id: string, host: Host, parseJson: string -> Option<RawUserResponse>)
    ensures CallTool("confirm", None, id, host, parseJson)
            == Err(InvalidParams("參數解析失敗: missing field `message`"))
  {
    var e := ErrorMessage(MissingField("message"));
    assert e == "missing field `message`";
    assert "參數解析失敗: " + e == "參數解析失敗: missing field `message`";
  }

  /** A malformed section is the parameter error, even when `message` is missing too. */
  lemma CallToolSectionErrorFirst(id: string, host: Host, parseJson: string -> Option<RawUserResponse>)
    ensures CallTool("confirm", Some(RawConfirmRequest(None, Some([RawSection(None, None, None)]), None)), id, host, parseJson)
            == Err(InvalidParams("參數解析失敗: missing field `title`"))
  {
    SectionErrorBeforeMissingMessage();
    var e := ErrorMessage(MissingField("title"));
    assert e == "missing field `title`";
    assert "參數解析失敗: " + e == "參數解析失敗: missing field `title`";
  }

  /** A valid request reaches the bridge with the request's sections. */
  lemma CallToolHandsOver(req: ConfirmRequest, id: string, host: Host, parseJson: string -> Option<RawUserResponse>)
    ensures CallTool("confirm", Some(EncodeConfirmRequest(req)), id, host, parseJson)
            == HandleConfirm(req, id, host, parseJson)
  {
    ConfirmRequestRoundTrip(req);
  }

  /** A message alone is enough: the request reaches the bridge with no sections and
      markdown on. */
  lemma CallToolMessageOnly(message: string, id: string, host: Host, parseJson: string -> Option<RawUserResponse>)
    ensures CallTool("confirm", Some(RawConfirmRequest(Some(message), None, None)), id, host, parseJson)
            == HandleConfirm(ConfirmRequest(message, [], true), id, host, parseJson)
  {
    MessageOnlyDecodes(message);
  }

  /** The caller can tell a declined confirmation from a broken bridge: a bridge
      failure is an error result, a UI that exits without an answer is the
      cancellation text. */
  lemma HandleConfirmDistinguishesFailure(req: ConfirmRequest, id: string, host: Host,
                                          parseJson: string -> Option<RawUserResponse>)
    requires host.writeError.None? && FindUiCommand(host).command.Ok? && host.launch.Ok?
    requires parseJson("") == None
    ensures host.launch.value.success && AllWhitespace(host.launch.value.stdout) ==>
              HandleConfirm(req, id, host, parseJson) == Ok(CancelledHeader)
    ensures !host.launch.value.success ==>
              HandleConfirm(req, id, host, parseJson)
              == Err(InternalError("UI 互動失敗: UI 程序失敗: " + host.launch.value.stderr))
  {
    if host.launch.value.success && AllWhitespace(host.launch.value.stdout) {
      EmptyOutputIsCancelled(parseJson, host.launch.value.stdout);
      FormatCancelledExactly(req.sections);
    }
    if !host.launch.value.success {
      var err := host.launch.value.stderr;
      assert "UI 互動失敗: " + "UI 程序失敗: " == "UI 互動失敗: UI 程序失敗: ";
      AppendAssoc("UI 互動失敗: ", "UI 程序失敗: ", err);
    }
  }
}

# claude-confirm, modelled in Dafny

claude-confirm is an MCP server with one tool, `confirm`. When an agent calls it, the
server writes the request to a temporary JSON file. It then finds and starts a separate
UI program (`claude-confirm-ui`), passing `--mcp-request <file>`, and waits for the UI to
exit. It reads the user's answer from the UI's standard output and turns it into a
text reply for the agent. The UI side reads its command line and the request file.
It can also list the project's files for the user.

This project models that bridge and its data model. It proves the properties the code
promises.

| module | file | models |
|---|---|---|
| `Wrappers` | wrappers.dfy | `Option` (with `or`/`unwrap_or`) and `Result` |
| `Text` | text.dfy | `str::trim`, `Display` of an unsigned integer, `Debug` of a `Vec<usize>` |
| `Paths` | paths.dfy | `Path::join` of a relative name and `Path::file_name`, on Unix paths |
| `Types` | types.dfy | src/rust/types.rs: the records, serde's default rules, `merge_with`, the project name, the two `UserResponse` constructors |
| `Requests` | requests.dfy | src/rust/mcp/types.rs: `ConfirmRequest` and its conversion to `PopupRequest` |
| `Server` | server.dfy | src/rust/mcp/server.rs: `call_tool`, `handle_confirm`, `create_ui_popup`, `find_ui_command` |
| `Commands` | commands.dfy | src/rust/ui/commands.rs: `get_cli_args`, `read_mcp_request`, `scan_directory`, `get_project_files` |

How the model is built:

- **Deserialisation.** Each record has a `Raw…` counterpart in which every JSON key is
  an `Option` (`None` means the key is absent). A `Decode…` function applies serde's
  defaults and reports a missing required field. An `Encode…` function writes every
  field, and round-trip lemmas tie the two together. The JSON syntax itself is a
  parser parameter (`parseJson`).
- **The response text.** It is specified by `Server.FormatResponse`.
  `Server.BuildContent` builds the same text step by step, as
  `handle_confirm` pushes onto `content`. Its task loop is the method
  `Server.AppendTasks`.
- **The bridge.** `Server.CreateUiPopup` decides over a `Host` record of outcomes:
  - the temp directory;
  - the executable's directory and which paths exist;
  - whether the global `--version` probe succeeds;
  - the write error;
  - the child's exit status, stdout and stderr.

  It returns the result together with the trace of actions it takes: write the
  request file, probe, launch, remove the request file.
- **The directory walk.** `Commands.ScanDirectory` is the loop with recursion. It runs
  over a tree of `Entry` values and is proved equal to the function `Commands.ScanSpec`.

Four behaviours of the code that a reader might not expect; the model keeps each:

- **Cancelled responses still echo selections.** The selection, input and image
  blocks of `handle_confirm` (src/rust/mcp/server.rs:196, 213, 217) are not guarded by
  `confirmed`. A cancelled response that still carries selections therefore echoes
  them after the cancellation line (`Server.FormatEchoesSelectionWhenCancelled`).
- **`env_context` is never set.** The conversion `From<ConfirmRequest> for PopupRequest`
  (src/rust/mcp/types.rs:17-25) never assigns the `env_context` field that
  `PopupRequest` declares (src/rust/types.rs:14). `Requests.ToPopupRequest` leaves it
  absent, and no call to `detect` is invented.
- **Failures leave the request file behind.** The file is removed only after the UI
  process has produced output (src/rust/mcp/server.rs:241-250). When the lookup or the
  launch fails, the `?` returns before the removal and the file stays
  (`Server.BridgeNotFound`, `Server.BridgeRemovesOnlyAfterChild`).
- **An empty message is accepted.** `ConfirmRequest` checks only that `message` is
  present (src/rust/mcp/types.rs:4-11), so an empty string passes
  (`Requests.MessageOnlyDecodes`).

## Model

| member | source | states |
|---|---|---|
| Types.MergeWith | src/rust/types.rs:64-74 | with no override the result is `self`; with an override, each of the four fields is the override's value when present and `self`'s otherwise |
| Types.MergeWithAllAbsent | src/rust/types.rs:66-71 | merging with the all-absent override gives `self` back |
| Types.MergeWithAllPresent | src/rust/types.rs:66-71 | merging with an override whose fields are all present gives the override |
| Types.MergeWithIdempotent | src/rust/types.rs:66-71 | merging twice with the same override equals merging once |
| Types.MergeWithKeepsPresence | src/rust/types.rs:66-71 | a merged field is present exactly when it was present on either side |
| Types.ProjectNameOf | src/rust/types.rs:45-50 | no working directory gives no project name; a project name is always a single plain path component |
| Types.ProjectNameIsLastSegment | src/rust/types.rs:45-50 | for a directory `parent/name`, the project name is `name` |
| Types.Detect | src/rust/types.rs:40-61 | `cwd`, `terminal` and `pid` are the values read; the project name is the last component of `cwd` (`ProjectNameOf`), present only with a `cwd` |
| Types.Cancelled | src/rust/types.rs:99-106 | not confirmed, with no selections, no input and no images |
| Types.Confirmed | src/rust/types.rs:108-115 | confirmed, and carries its three arguments unchanged |
| Types.CancelledIsNotConfirmed | src/rust/types.rs:99-115 | the cancellation differs from every confirmation |
| Types.DecodeSection | src/rust/types.rs:79-84 | `title` and `content` are required, a missing `title` reported before a missing `content`; `selected` defaults to true |
| Types.DecodeSections | src/rust/types.rs:9 | a section list decodes exactly when every element decodes, element by element and in order; otherwise the error is that of the first element that fails |
| Types.DecodePopupRequest | src/rust/types.rs:5-15 | `id` and `message` are required; `sections` defaults to empty, `is_markdown` to true, `env_context` to absent; an error inside `sections` is reported first, then a missing `id`, then a missing `message`; present sections decode element by element |
| Types.DecodeUserResponse | src/rust/types.rs:88-96 | only `confirmed` is required; `selected_sections`, `user_input` and `images` default to empty |
| Types.SectionsRoundTrip | src/rust/types.rs:78-84 | decoding the serialised sections gives them back |
| Types.PopupRequestRoundTrip | src/rust/types.rs:4-15 | the serialised request loses no field: decoding it gives it back |
| Types.UserResponseRoundTrip | src/rust/types.rs:87-96 | decoding a serialised response gives it back, which is how the bridge receives it |
| Types.UserResponseDefaults | src/rust/types.rs:90-95 | a document holding only `confirmed` decodes with every sequence empty |
| Requests.DecodeConfirmRequest | src/rust/mcp/types.rs:4-11 | only `message` is required, and an empty one is accepted; `sections` defaults to empty and `is_markdown` to true; an error inside `sections` is reported before a missing `message`; present sections decode element by element |
| Requests.SectionErrorBeforeMissingMessage | src/rust/mcp/types.rs:4-11 | `{"sections": [{}]}` fails with the section's missing `title`, not with the missing `message` |
| Requests.ConfirmRequestRoundTrip | src/rust/mcp/types.rs:4-11 | decoding a serialised tool input gives it back |
| Requests.MessageOnlyDecodes | src/rust/mcp/types.rs:7-10 | arguments holding only a message, even an empty one, give that message with no sections and markdown on |
| Requests.ToPopupRequest | src/rust/mcp/types.rs:17-25 | the id is the supplied one; `env_context` is absent; the caller's fields are recovered unchanged from the result |
| Requests.ToPopupRequestPreserves | src/rust/mcp/types.rs:21-23 | the message, every section (title, content, `selected`) in order and the markdown flag are copied |
| Requests.ToPopupRequestIdOnly | src/rust/mcp/types.rs:20 | two conversions of one request differ only in the id |
| Server.BuildContent | src/rust/mcp/server.rs:186-219 | the text pushed step by step equals `FormatResponse` of the request's sections and the response |
| Server.AppendTasks | src/rust/mcp/server.rs:201-210 | the loop appends exactly the rendered blocks of `Tasks` for the selection |
| Server.Tasks | src/rust/mcp/server.rs:201-205 | each task's number is its 1-based position in the whole selection list and its index is the entry there, which is in range; numbers increase strictly |
| Server.RenderStep | src/rust/mcp/server.rs:201-210 | one loop step appends the block of an in-range entry and nothing for an out-of-range one |
| Server.IndexLineInjective | src/rust/mcp/server.rs:197 | the index line determines the selection list: it echoes every index, in order |
| Server.FormatResponse | src/rust/mcp/server.rs:186-219 | the reply text: header, selection block, input block, image count, in that order; `BuildContent` is proved equal to it, and the `Format…`, `Tasks…` and `SelectedSectionShown` rows state its properties |
| Server.FormatStartsWithHeader | src/rust/mcp/server.rs:186-194 | not confirmed opens with the cancellation line; confirmed with selections opens with the execute header; confirmed without selections opens with the confirmation line |
| Server.FormatCancelledExactly | src/rust/mcp/server.rs:186-194 | the cancellation response is exactly `用戶取消操作\n` |
| Server.FormatConfirmedPlain | src/rust/mcp/server.rs:186-191 | a confirmation with nothing selected, typed or attached is exactly `用戶確認操作\n` |
| Server.FormatEchoesSelectionWhenCancelled | src/rust/mcp/server.rs:193-200 | a response that is not confirmed but carries selections gives the cancellation line, then the index line and the task heading |
| Server.SelectionPartIffSelected | src/rust/mcp/server.rs:196-200 | the selection block is present exactly when the selection list is non-empty |
| Server.FormatEndsWithInputThenImages | src/rust/mcp/server.rs:213-219 | with input and images, the text ends with the input block followed by the image count |
| Server.TasksCoverInRange | src/rust/mcp/server.rs:201-206 | every in-range entry at position `i` gets the task numbered `i + 1` |
| Server.TasksCount | src/rust/mcp/server.rs:201-202 | the number of blocks is the number of in-range positions, duplicates included |
| Server.OutOfRangeSkipped | src/rust/mcp/server.rs:202 | an out-of-range entry adds no task and renumbers none |
| Server.OnlySelectedSectionsRendered | src/rust/mcp/server.rs:201-202 | a section whose index is not in the selection list gets no block |
| Server.TaskBlockRendered | src/rust/mcp/server.rs:201-210 | each task's block occurs in the rendered task text |
| Server.TaskBlockShowsSection | src/rust/mcp/server.rs:203-208 | a task block contains its section's title and its content |
| Server.SelectedSectionShown | src/rust/mcp/server.rs:196-210 | for each in-range selected entry, the reply contains its block, its section's title and its section's content |
| Server.FormatExample | src/rust/mcp/server.rs:186-210 | two sections with index 0 selected give the execute header, `[0]`, the heading and exactly one block, for "Fix bug" numbered 1 |
| Server.FindUiCommand | src/rust/mcp/server.rs:263-285 | a failed lookup carries the not-found message; the global probe runs exactly when the colocated UI is missing |
| Server.LookupPrefersLocal | src/rust/mcp/server.rs:265-272 | an existing colocated `claude-confirm-ui` is chosen without probing |
| Server.LookupFallsBackToGlobal | src/rust/mcp/server.rs:274-284 | otherwise the global name is chosen iff its probe succeeds, else the not-found error |
| Server.LookupChoosesUi | src/rust/mcp/server.rs:263-285 | whatever is chosen has file name `claude-confirm-ui` |
| Server.TempFileNameInjective | src/rust/mcp/server.rs:235 | the id can be read back from `mcp_request_<id>.json` |
| Server.TempPathsDistinct | src/rust/mcp/server.rs:234-235 | requests with distinct ids get distinct temp-file paths |
| Server.CreateUiPopup | src/rust/mcp/server.rs:232-261 | the first action writes the request file; the result is `Ok` iff the write, the lookup and the launch succeed and the UI exits successfully, and it is then the response read from its stdout; the `Bridge…` rows state the rest of the trace |
| Server.BridgeWritesFirst | src/rust/mcp/server.rs:235-238 | the first step writes the request to the file named after its id |
| Server.BridgeWriteFailure | src/rust/mcp/server.rs:237-238 | a failed write is an error; nothing is launched or removed |
| Server.BridgeNotFound | src/rust/mcp/server.rs:241 | with no usable UI the result is the not-found error; nothing is launched and the file stays |
| Server.BridgeRemovesOnlyAfterChild | src/rust/mcp/server.rs:241-250 | the request file is removed iff the write, the lookup and the launch all succeeded |
| Server.BridgeRemovalIsLast | src/rust/mcp/server.rs:244-250 | when the UI ran, the removal is the last step, right after the launch, and the only one |
| Server.LaunchArgumentsReachUi | src/rust/mcp/server.rs:244-247 | the UI's own argument reader hands back the request file's path as `mcp_request` |
| Server.BridgeChildFailure | src/rust/mcp/server.rs:257-259 | a UI that exits with failure gives an error carrying its stderr |
| Server.BridgeChildSuccess | src/rust/mcp/server.rs:252-256 | a UI that exits successfully never gives an error; its trimmed stdout is read as the response |
| Server.ReadResponse | src/rust/mcp/server.rs:252-256 | the trimmed stdout is the response when it parses and decodes; anything else is the cancellation |
| Server.UnparsableOutputIsCancelled | src/rust/mcp/server.rs:254-255 | stdout that does not parse is the cancellation |
| Server.EmptyOutputIsCancelled | src/rust/mcp/server.rs:253-255 | empty or all-whitespace stdout is the cancellation |
| Server.IncompleteOutputIsCancelled | src/rust/mcp/server.rs:254-255 | a document without `confirmed` is the cancellation |
| Server.ResponseRoundTrip | src/rust/mcp/server.rs:254 | the response the UI serialised is the response the bridge gets |
| Server.HandleConfirm | src/rust/mcp/server.rs:179-230 | a bridge success is the reply text formatted over the request's own sections; a bridge failure is an internal error `UI 互動失敗: ` followed by the bridge's message |
| Server.CallTool | src/rust/mcp/server.rs:151-175 | only `confirm` is known; for it, arguments that fail to decode are the parameter error carrying serde's message, and decoded arguments go to `HandleConfirm` as decoded |
| Server.CallToolUnknownName | src/rust/mcp/server.rs:170-173 | any tool other than `confirm` is an invalid request naming it |
| Server.CallToolWithoutArguments | src/rust/mcp/server.rs:158-166 | absent arguments are the empty object, which fails with the missing-`message` parameter error |
| Server.CallToolSectionErrorFirst | src/rust/mcp/server.rs:163-166 | arguments `{"sections": [{}]}` give the parameter error for the missing `title` |
| Server.CallToolHandsOver | src/rust/mcp/server.rs:157-168 | valid arguments reach `handle_confirm` unchanged |
| Server.CallToolMessageOnly | src/rust/mcp/server.rs:157-168 | arguments holding only a message reach `handle_confirm` with no sections and markdown on |
| Server.HandleConfirmDistinguishesFailure | src/rust/mcp/server.rs:183-228 | a UI that exits successfully with empty output gives the cancellation text; a failing UI gives an internal error carrying its stderr |
| Commands.GetCliArgs | src/rust/ui/commands.rs:22-35 | the map has `mcp_request` iff there are at least three arguments and the second is `--mcp-request`; it then maps to the third; there are no other keys |
| Commands.GetCliArgsIgnoresTail | src/rust/ui/commands.rs:27 | arguments after the path play no part |
| Commands.GetCliArgsFlagOnlyFirst | src/rust/ui/commands.rs:27 | the flag anywhere but first gives the empty map |
| Commands.ReadMcpRequest | src/rust/ui/commands.rs:38-55 | in order: a missing file, a read failure, blank content after trimming, then a parse failure; otherwise the parsed value |
| Commands.BlankFileIgnoresParser | src/rust/ui/commands.rs:45-47 | blank content is rejected before the parser is consulted |
| Commands.ReadMcpRequestSuccess | src/rust/ui/commands.rs:38-55 | success means the file was readable, not blank and parsed to that value |
| Commands.Chain | src/rust/ui/commands.rs:75-98 | the first error wins; otherwise the files of the two parts are concatenated |
| Commands.ScanSpec | src/rust/ui/commands.rs:68-101 | `scan_directory` as a function of the tree; `ScanDirectory` is proved equal to it, and the `Scan…` rows state its properties |
| Commands.ScanDirectory | src/rust/ui/commands.rs:68-101 | the loop with recursion computes `ScanSpec` |
| Commands.GetProjectFiles | src/rust/ui/commands.rs:57-66 | a failed working-directory lookup is the error; otherwise the walk runs three levels below the working directory |
| Commands.ScanAtDepthZero | src/rust/ui/commands.rs:69-71 | depth 0 gives the empty list |
| Commands.IgnoredEntryAddsNothing | src/rust/ui/commands.rs:80-89 | an ignored file or directory adds nothing, whatever it holds |
| Commands.ScanReportsNoIgnoredFile | src/rust/ui/commands.rs:80-96 | no reported path has an ignored file name |
| Commands.ScanDepthBound | src/rust/ui/commands.rs:91-97 | a file alone at the end of a chain of `k` non-ignored directories (each holding only the next) is reported, at its nested path, iff `k < max_depth` |
| Commands.ScanWithinDepth | src/rust/ui/commands.rs:68-101 | in any tree, every reported path is the scanned directory joined with between 1 and `max_depth` plain components, none of them ignored |
| Commands.ScanEntriesAppend | src/rust/ui/commands.rs:75-98 | the results of two runs of entries come in enumeration order; the first error met ends the scan |
| Commands.ScanSplicesSubdirectory | src/rust/ui/commands.rs:95-96 | a subdirectory's files appear at the directory's position |
| Commands.FirstErrorSticks | src/rust/ui/commands.rs:75-76 | once a prefix of the entries fails, the whole scan fails with that error |
| Text.Trim | src/rust/mcp/server.rs:254 | the result is the input with whitespace removed at the two ends only: it sits in the input between two all-whitespace runs, neither starts nor ends with whitespace, and is empty iff the input is all whitespace |
| Text.Decimal | src/rust/mcp/server.rs:204 | a non-empty digit string without a leading zero |
| Text.DecimalRoundTrip | src/rust/mcp/server.rs:204 | the printed number reads back as the number |
| Text.DebugList | src/rust/mcp/server.rs:197 | bracketed, and `[]` exactly for the empty list |
| Text.DebugListInjective | src/rust/mcp/server.rs:197 | the printed list determines the list |
| Paths.FileName | src/rust/types.rs:46-48 | a file name is a single plain component |
| Paths.FileNameOfJoin | src/rust/ui/commands.rs:77-81 | joining a plain name onto a directory and taking the file name gives the name back |
| Paths.JoinInjective | src/rust/mcp/server.rs:235 | distinct names under one directory are distinct paths |

## Left out

- The rmcp transport and server wiring are not modelled: `run_server`, `get_info` with
  its instructions text, and `list_tools` with its schema literal. They are library
  plumbing and constant data.
- Real I/O is replaced by the `Host` record of outcomes: `std::env::temp_dir`,
  `fs::write`, `current_exe`, `exists`, process spawning and `fs::remove_file`.
  The removal's own result is not observed; this matches the code, which ignores it
  (`let _ =`).
- JSON syntax and serde_json are a parser parameter. Only the default rules for missing
  keys are modelled; wrong types and explicit `null` are not distinguished.
- `Types.DecodePopupRequest`, `Requests.DecodeConfirmRequest`: only absent keys and errors
  inside `sections` are modelled. Values of the wrong type, explicit `null`, duplicate
  keys and an `env_context` that fails to decode are not, so the order among several such
  errors (document order in serde) is not modelled.
- `serde_json::to_string_pretty` cannot fail for these records and is not modelled.
- `EnvContext::detect`: its ambient reads are left out. These are `current_dir`,
  `TERM_PROGRAM` and `process::id`. They are parameters of `Types.Detect`.
- UUID generation: the id is a parameter of `Requests.ToPopupRequest`.
- async/await and concurrent tool calls are left out; there is no shared state between
  calls.
- Bytes are treated as text. This covers `String::from_utf8_lossy` on the child's
  streams and the `to_str()`/`to_string_lossy()` calls on paths.
- Paths are Unix paths. Windows prefixes and separators are not modelled.
- `usize` bounds are not modelled: numbers are unbounded, and no overflow is possible
  for the sizes involved.
- The Tauri UI is left out: src/rust/ui/mod.rs, `submit_response`, `cancel_response`,
  `set_always_on_top` and `open_devtools`. Each is a window operation or a print
  followed by `process::exit`.
- The frontend (src/frontend/utils/export.js, src/frontend/utils/markdown.js) is left
  out. It wraps third-party libraries and does floating-point page layout.
- The entry points src/rust/bin/mcp_server.rs and src/rust/main.rs are left out. They
  only call into the modules above.
- `Commands.ScanDirectory`: an entry whose path is not UTF-8 (so `to_str()` gives
  nothing) would be skipped by the code. Names here are always text, so this case does
  not arise.

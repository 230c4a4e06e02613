# DuoMind core in Dafny

DuoMind is a chat application in which several AI agents take turns on a
shared game project. Each conversation carries a set of project files. An
agent writes whole files with `[FILE:name] … [END_FILE]` blocks and patches
them with `[REPLACE:name] SEARCH: … REPLACE: … [END_REPLACE]` blocks. This
project models the core of that loop and proves properties of it:

- `Files` (files.dfy) holds the project files, types.ts's `ProjectFiles`
  record. It is a sequence of (name, content) entries with unique names,
  kept in insertion order. `Set`, `Get`, the spread merge `Merge` and the
  assignment loop `AssignAll` are the JavaScript object operations the
  source uses on it.
- `Types` (types.dfy) has the records of types.ts. `Wrappers` has
  `Option`. `Strings` has `trim` over the full JavaScript `\s` set, and
  models `split`/`join`, `includes`/`indexOf`, first-occurrence `replace`
  and ASCII `toLowerCase`.
- `CodeBlocks` (blocks.dfy) is a matcher for the two regular expressions of
  services/codingPrompts.ts and their `exec` loops. It is proved
  complete: a written-out block is matched. It is also proved sound:
  whatever it matches is a block.
- `CodingPrompts` (coding.dfy) is `parseCodeFromResponse`. A method with
  two loops is proved equal to a specification function. Lemmas over that
  function cover the following:
  - which file ends up with which content;
  - that patches see the FILE writes;
  - that file names are never lost;
  - where the markers go.
- `SystemPrompt` (prompt.dfy) is `getCodingSystemPrompt`. It covers:
  - the image filter;
  - the 8000-character excerpts;
  - the file listing;
  - the identity line.
- `AppState` (app.dfy) is the state of App.tsx, as the class `App` with
  the source's state variables as fields. Its methods are `handleUpdateFiles`,
  `addMessage`, `runTurn`, the form submit, the Run/Stop toggle and
  `onFileUpload`. `runTurn` is split at its `await` into `StartTurn` and
  `FinishTurn`. Pure functions and lemmas state what these do to the
  conversation list: round-robin turn order, and that only the active
  conversation changes.
- `Preview` (preview.dfy) is `PreviewProvider`'s entry-file choice and its
  inlining of `./` scripts and stylesheets.
- `Debrief` (debrief.dfy) is `DebriefPanel`'s scheduling rule and its list
  of insights (the class `DebriefPanel`).

Two behaviours of the code are modelled as written:

- `addMessage` calls `parseCodeFromResponse(text)` with no second
  argument. The parse therefore starts from an empty project
  (`{ ...undefined }`). A REPLACE block in an agent's answer can never
  patch an existing file, and the files that do come back are merged into
  the conversation by `handleUpdateFiles`.
- `filesRef`, which feeds the coding prompt, is refreshed only when the
  active conversation's messages change (App.tsx:41-44). After a file
  upload it still holds the files from before the upload, until the next
  message. `OnFileUpload` leaves it unchanged.

## Model

| member | source | states |
|---|---|---|
| Types.ValuesDistinct | types.ts:2-9 | two senders have the same string value exactly when they are the same sender, so comparing senders by value (`lastMsg.sender !== Sender.User`) is comparing the members |
| Files.Get | types.ts:29-31 | a name is present exactly when some entry has it, and then the lookup yields that entry's content |
| Files.Set | services/codingPrompts.ts:47 | after `files[k] = v`, `k` holds `v` and every other name holds what it held before; a known name keeps the key order, a new one is appended |
| Files.MergeGet | App.tsx:47 | in `{ ...a, ...b }` a name holds `b`'s content when `b` has it and `a`'s otherwise; `a`'s names stay first, in order |
| Files.AssignAllGet | App.tsx:101-105 | after a run of assignments, a name holds the last value assigned to it, or its old content when it was never assigned |
| Files.AssignAllKeys | App.tsx:101-105 | a run of assignments keeps the existing names, in order, in front |
| Files.MergeEmpty | services/codingPrompts.ts:38 | spreading a project into an empty object copies it unchanged |
| Strings.TrimExact | services/codingPrompts.ts:44-45 | `trim` takes away exactly the white space around a text that starts and ends with other characters |
| Strings.TrimDecompose | services/codingPrompts.ts:54-55 | every text is its trimmed form with white space before and after |
| Strings.IndexOfFromExact | services/codingPrompts.ts:56 | the search returns the first position where the pattern occurs |
| Strings.ReplaceFirstAt | services/codingPrompts.ts:48 | a string pattern in `replace` replaces its first occurrence only |
| Strings.JoinSplit | services/codingPrompts.ts:46 | joining the lines of `split('\n')` with `'\n'` gives back the text |
| Strings.SplitJoin | services/codingPrompts.ts:8 | splitting a join of separator-free parts gives back the parts |
| Strings.SplitLength | services/codingPrompts.ts:13 | `split` yields one more part than the separator has occurrences |
| Strings.ToLower | services/codingPrompts.ts:13 | lower-casing keeps the length and lower-cases each ASCII letter |
| Strings.ToLowerIdempotent | services/codingPrompts.ts:13 | lower-casing a lower-cased name changes nothing |
| CodeBlocks.MatchFilePrinted | services/codingPrompts.ts:41 | `fileRegex` matches every well-formed FILE block in full and captures its name and body, whatever follows |
| CodeBlocks.MatchFileSound | services/codingPrompts.ts:41 | whatever `fileRegex` matches is a well-formed FILE block whose body ends at the first `[END_FILE]` |
| CodeBlocks.MatchReplacePrinted | services/codingPrompts.ts:51 | `replaceRegex` matches every well-formed REPLACE block and captures name, search text and replacement |
| CodeBlocks.MatchReplaceSound | services/codingPrompts.ts:51 | whatever `replaceRegex` matches is a well-formed REPLACE block, each part ending at its first delimiter |
| CodeBlocks.FindFirst | services/codingPrompts.ts:43 | `exec` from `lastIndex` finds no match before the one it reports |
| CodeBlocks.FindAt | services/codingPrompts.ts:43 | a match at a position with no earlier match is the one `exec` reports |
| CodeBlocks.FindNone | services/codingPrompts.ts:52 | with no opening tag in the rest of the text, `exec` finds nothing |
| CodeBlocks.FileBlocksStep | services/codingPrompts.ts:43-49 | the FILE loop sees the match `exec` reports, then resumes at its end |
| CodeBlocks.FileBlocksWellFormed | services/codingPrompts.ts:41-43 | every block the FILE loop sees is a well-formed FILE block |
| CodeBlocks.ReplaceBlocksStep | services/codingPrompts.ts:52-60 | the REPLACE loop sees the match `exec` reports, then resumes at its end |
| CodeBlocks.ReplaceBlocksWellFormed | services/codingPrompts.ts:51-52 | every block the REPLACE loop sees is a well-formed REPLACE block |
| CodingPrompts.ParseCodeFromResponse | services/codingPrompts.ts:37-63 | the method's two loops return the files and clean text of the specification `Parse`: FILE blocks over a copy of the files, then REPLACE blocks |
| CodingPrompts.ApplyFileBlocks | services/codingPrompts.ts:41-49 | the FILE loop writes each block's content and puts a marker in the text, block after block in text order |
| CodingPrompts.ApplyReplaceBlocks | services/codingPrompts.ts:51-60 | the REPLACE loop patches and marks each block that applies and skips the others, in text order |
| CodingPrompts.ApplyFilesWrites | services/codingPrompts.ts:43-48 | the files after the FILE loop are the copy with each block's (trimmed name, content) assigned in order |
| CodingPrompts.FileLoopGet | services/codingPrompts.ts:43-47 | after the FILE loop a file holds the content of the last FILE block naming it, or its earlier content when none does |
| CodingPrompts.FileLoopKeys | services/codingPrompts.ts:38-47 | the FILE loop keeps every existing file name, in order, in front |
| CodingPrompts.FileLoopOther | services/codingPrompts.ts:43-47 | a file no FILE block names is untouched by the FILE loop |
| CodingPrompts.PatchLoopKeys | services/codingPrompts.ts:52-60 | the REPLACE loop neither adds nor removes a file |
| CodingPrompts.PatchLoopOther | services/codingPrompts.ts:52-60 | a file no REPLACE block names is untouched by the REPLACE loop |
| CodingPrompts.PatchFirstOccurrence | services/codingPrompts.ts:56-57 | a patch applies to a non-empty target containing the search text and replaces its first occurrence |
| CodingPrompts.PatchSkipped | services/codingPrompts.ts:56 | a REPLACE block whose target is missing, empty or lacks the search text changes neither the files nor the text |
| CodingPrompts.ParseKeys | services/codingPrompts.ts:37-63 | parsing never drops a file, and the existing names keep their order in front |
| CodingPrompts.ParseOther | services/codingPrompts.ts:37-63 | a file named by no block keeps its content |
| CodingPrompts.PatchSeesWrites | services/codingPrompts.ts:41-60 | the REPLACE blocks run after all FILE blocks and patch the content they wrote, wherever they stand in the text |
| CodingPrompts.ParseNoBlocks | services/codingPrompts.ts:37-63 | a text without block openers leaves the files and the text as they are |
| CodingPrompts.OneFileBlock | services/codingPrompts.ts:41-49 | a text with one FILE block gets that file set and the block replaced by the `✨ MAJ` marker |
| CodingPrompts.Unfenced | services/codingPrompts.ts:46 | code in a Markdown fence comes out without the fence lines, exactly as it went in |
| CodingPrompts.UnfencedOneLine | services/codingPrompts.ts:46 | a fenced body on a single line gives an empty file |
| SystemPrompt.ExtensionAfterDot | services/codingPrompts.ts:13 | the extension compared is the lower-cased text after the last dot |
| SystemPrompt.ExtensionNoDot | services/codingPrompts.ts:13 | a name without a dot is its own extension |
| SystemPrompt.ImageIgnoresCase | services/codingPrompts.ts:4-13 | the image test ignores the case of the extension: a name counts as an image exactly when its lower-cased form does |
| SystemPrompt.UpperCaseImage | services/codingPrompts.ts:4-13 | an upper-case `.PNG` extension counts as an image |
| SystemPrompt.BareExtensionImage | services/codingPrompts.ts:4-13 | a bare extension such as `svg` counts as an image name |
| SystemPrompt.Kept | services/codingPrompts.ts:12-13 | the context keeps exactly the files whose extension is not an image extension |
| SystemPrompt.KeptConcat | services/codingPrompts.ts:12-13 | the filter keeps the entries in `Object.entries` order: filtering a concatenation concatenates the filtered parts |
| SystemPrompt.Excerpt | services/codingPrompts.ts:14 | each file contributes a prefix of at most 8000 characters: all of a short file, exactly 8000 of a long one |
| SystemPrompt.ListingLines | services/codingPrompts.ts:7-8 | the project listing has one line per file name, in order |
| SystemPrompt.ListingEmpty | services/codingPrompts.ts:31 | an empty project is listed as `Nouveau projet.` |
| SystemPrompt.AlwaysOmega | services/codingPrompts.ts:16-19 | no sender value contains `Alpha`, so every agent gets the Omega identity |
| SystemPrompt.SameForEveryAgent | services/codingPrompts.ts:6-35 | the coding prompt for a project is the same whichever agent it is for |
| AppState.ActiveAgents | App.tsx:62 | the active agents are exactly the agents marked active |
| AppState.ActiveAgentsConcat | App.tsx:62 | the filter keeps the agents in their declared order: filtering a concatenation concatenates the filtered parts |
| AppState.AuthorIndex | App.tsx:68 | `findIndex` gives the first agent named as the author, or -1 when there is none |
| AppState.NextAgent | App.tsx:65-70 | the next speaker is always one of the active agents |
| AppState.NextAgentRoundRobin | App.tsx:65-69 | after agent i spoke, agent i + 1 (cyclically) speaks next |
| AppState.NextAgentUnknownAuthor | App.tsx:66-69 | after an author no active agent has (no author, the system, an agent switched off), the first active agent speaks |
| AppState.FirstTurn | App.tsx:65-67 | in an empty conversation, or after the user's message, the first active agent speaks |
| AppState.FirstWithId | App.tsx:38 | `find` gives the first conversation with the id, or none |
| AppState.ActiveConversation | App.tsx:38 | the active conversation is in the list and has the active id when one does |
| AppState.WithFilesEffect | App.tsx:46-48 | updating the files changes only the active conversation's files, merged as `{ ...c.files, ...newFiles }` |
| AppState.WithMessageEffect | App.tsx:54-57 | adding a message appends it to the active conversation only |
| AppState.AfterAddActive | App.tsx:50-58 | after `addMessage` the active conversation has the cleaned message appended and the parsed files merged in |
| AppState.AfterAddOthers | App.tsx:50-58 | `addMessage` leaves every other conversation as it was |
| AppState.CallSiteFiles | App.tsx:51-52 | every file `addMessage` merges in comes from a FILE block in the text |
| AppState.PlainText | App.tsx:51-52 | a message without `[` is stored verbatim and changes no file |
| AppState.TurnRequest | App.tsx:72-80 | a turn asks an active agent, with the conversation's messages as history and a coding prompt exactly in code mode |
| AppState.Recorded | App.tsx:82-84 | an answer is recorded with its text, under the agent's sender and name; a failure as the Système interruption from Local; both with the given id and time |
| AppState.InterruptionVerbatim | App.tsx:84 | the interruption notice passes through the parser unchanged |
| AppState.App.constructor | App.tsx:12-39 | one initial conversation is active; the loop is stopped and nothing is processing |
| AppState.App.UpdateFiles | App.tsx:46-48 | `handleUpdateFiles` merges the files into the active conversation |
| AppState.App.AddMessage | App.tsx:41-58 | `addMessage` stores the parsed message and files, and the effect refreshes `filesRef` |
| AppState.App.StartTurn | App.tsx:60-72 | no turn while one is running; no active agent stops the loop; otherwise processing starts with the turn's request |
| AppState.App.FinishTurn | App.tsx:82-88 | the outcome is recorded, a failure stops the loop, and processing ends |
| AppState.App.Send | App.tsx:159 | a non-blank input is added as a user message, refreshes `filesRef` and starts the loop; a blank one changes nothing |
| AppState.App.ToggleAutoLoop | App.tsx:144 | Run/Stop flips the loop flag and nothing else |
| AppState.App.OnFileUpload | App.tsx:98-108 | no selection changes nothing; otherwise the uploads are written over the active files and merged back |
| AppState.WriteUploads | App.tsx:101-105 | the upload loop assigns each uploaded file in order onto a copy of the active files |
| AppState.UploadGet | App.tsx:101-106 | after an upload a file holds the last uploaded content for its name, else its old content |
| Preview.FirstEndingWith | components/PreviewProvider.tsx:14-15 | `find` with `endsWith` gives the first name with the suffix, or none |
| Preview.MainHtmlFile | components/PreviewProvider.tsx:13-17 | the entry file is the first `index.html` file when there is one, else the first `.html` file, and none exactly when no name ends with `.html` |
| Preview.Resolve | components/PreviewProvider.tsx:29 | a tag's file is the first whose name ends with the referenced name; with none, the entry named `''` |
| Preview.GenerateSource | components/PreviewProvider.tsx:19-39 | there is no preview exactly when there is no entry file or it is empty; otherwise it is the entry's content with the scripts inlined first and the stylesheets after, so a stylesheet link inside an inlined script is inlined too |
| Preview.ScriptMatched | components/PreviewProvider.tsx:28 | every well-formed `./` script tag is matched with its file name, whatever follows |
| Preview.ScriptSound | components/PreviewProvider.tsx:28 | only well-formed `./` script tags are matched |
| Preview.LinkMatched | components/PreviewProvider.tsx:33 | every well-formed `./` stylesheet link is matched with its file name |
| Preview.LinkSound | components/PreviewProvider.tsx:33 | only well-formed `./` stylesheet links are matched |
| Preview.NoTagHere | components/PreviewProvider.tsx:28-33 | no tag starts at a character other than `<` |
| Preview.ScriptInlined | components/PreviewProvider.tsx:28-31 | a script tag becomes a `script` element with its file's content, or stays when that is empty, and the pass goes on after it |
| Preview.LinkInlined | components/PreviewProvider.tsx:33-36 | a stylesheet link becomes a `style` element with its file's content, or stays when that is empty |
| Preview.UnknownScriptKept | components/PreviewProvider.tsx:29-30 | a script naming no project file stays as written |
| Preview.UnknownLinkKept | components/PreviewProvider.tsx:34-35 | a link naming no project file stays as written |
| Preview.UnmatchedScripts | components/PreviewProvider.tsx:28-31 | text at none of whose positions a script tag is matched passes the script pass unchanged, whatever `<` it holds |
| Preview.UnmatchedStyles | components/PreviewProvider.tsx:33-36 | text at none of whose positions a stylesheet link is matched passes the stylesheet pass unchanged |
| Preview.NonRelativeScript | components/PreviewProvider.tsx:28 | a script whose `src` does not start with `./` is never matched, so it is never inlined |
| Preview.NonRelativeLink | components/PreviewProvider.tsx:33 | a stylesheet link whose `href` does not start with `./` is never matched, so it is never inlined |
| Preview.PlainScripts | components/PreviewProvider.tsx:28 | text without `<` passes the script pass unchanged |
| Preview.PlainStyles | components/PreviewProvider.tsx:33 | text without `<` passes the stylesheet pass unchanged |
| Debrief.ShouldAnalyzeExactly | components/DebriefPanel.tsx:26-35 | an analysis is due exactly when there are messages and two or more arrived since the last one, or this is the first |
| Debrief.LastAnalyzedAfter | components/DebriefPanel.tsx:30-52 | the last analysed count never exceeds the message count |
| Debrief.AnalysedOnOddCounts | components/DebriefPanel.tsx:24-52 | when messages arrive one at a time and each analysis finishes before the next message, analyses run at the 1st, 3rd, 5th… message |
| Debrief.Record | components/DebriefPanel.tsx:42-48 | a non-empty analysis goes on top of the insights; an empty one adds nothing |
| Debrief.RecordNewestFirst | components/DebriefPanel.tsx:43-48 | insights stay newest first when each new id comes from a clock that does not go back |
| Debrief.DebriefPanel.constructor | components/DebriefPanel.tsx:19-21 | no insights, not analysing, nothing analysed yet |
| Debrief.DebriefPanel.Begin | components/DebriefPanel.tsx:39 | the timer's callback marks the panel as analysing |
| Debrief.DebriefPanel.Complete | components/DebriefPanel.tsx:40-52 | the analysis is recorded, analysing ends, and the count becomes the last analysed one, so no analysis is due for it |

## Left out

- The model services (`generateNativeGeminiResponse`, `generateLocalResponse`, `generateAnalysis`) are not part of this model. Their answers are inputs: an `Outcome` for `FinishTurn` and the analysis text for `Complete`.
- `getDiscussionSystemPrompt`: App.tsx:7 imports it and App.tsx:76 calls it outside code mode, but services/codingPrompts.ts does not define or export it, so its text is unknown here. In discussion mode the model's turn request carries no prompt (`codingPrompt == None`); this is a gap of the model, not what the program sends.
- Timers (`setTimeout`), `async`/`await` and React's effects are not modelled. Each becomes an explicit step for the caller to take: `TurnDue` then `StartTurn` then `FinishTurn`, and `Due` then `Begin` then `Complete`.
- `uuidv4()`, `Date.now()` and `toLocaleTimeString` are parameters: ids, timestamps and the insight's id and time stamp.
- `f.text()` is not modelled, because reading a file is I/O. `OnFileUpload` takes the uploads as (name, content) pairs, or none when nothing was selected.
- Strings.ReplaceFirst: a `$` in the replacement text of `String.replace` (codingPrompts.ts:48, 57) is taken literally, whereas JavaScript would read `$&`-style patterns. The preview uses callbacks, so it has no such gap.
- SystemPrompt.Excerpt: counts characters, not UTF-16 code units, for `substring(0, 8000)`.
- Strings.ToLower: lower-cases ASCII letters only. The image test compares with lower-case ASCII extensions, so letters outside ASCII cannot change its outcome.
- Files: keys are kept in insertion order. JavaScript lists integer-like keys first and can expose prototype keys; the model has neither.
- `hasGDD` (codingPrompts.ts:9) is computed and never used, so it is not modelled.
- The user interface is not modelled: `ChatBubble`, `CodeViewer`, the sidebar, the chat/code view switch, the selected file, the text field's contents, scrolling, and the preview's `isLoading` spinner.
- AppState.App.OnFileUpload: is one atomic step. In the source the copy `{ ...activeConversation.files }` is taken before the `await f.text()` calls (App.tsx:101-106), so files an answer writes while the uploads are read are overwritten when the stale copy is merged back; the model does not capture that lost update.
- AnalysedOnOddCounts: assumes each analysis completes before the next message arrives. In the source a message that arrives within the 1.5 s delay cancels the pending analysis (DebriefPanel.tsx:38, 55), so the analysed counts then differ.
- Debrief.DebriefPanel: the timer and its cancellation are not modelled. A cancelled timer is a `Due` that is never followed by `Begin`; an analysis already started runs to `Complete` with the count it was started for.
- AppState.App: `activeId` is a constant, because nothing in the modelled code changes it.
- AppState.TurnRequest: states the coding prompt's presence, not its text. The text is `SystemPrompt.CodingSystemPrompt` over `filesRef`, and its properties are proved in `SystemPrompt`.
- Debrief.Record: an analysis is a string, and an empty string stands for every falsy result, so `null` and `undefined` are not told apart.
- The white space of `\s` and `trim` is JavaScript's full set, including the Unicode spaces, line terminators and the byte-order mark.

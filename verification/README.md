# oc-vmp core in Dafny

This project models the three deterministic cores of oc-vmp, a small project
dashboard for an agent workspace, and proves properties about them.

- **The aggregator** (`src/aggregator.py`) walks the workspace. A directory
  that holds a marker file (`.git`, `AGENTS.md`, `package.json`,
  `README.md`, `todo.md`) is a project. For each project it records the
  flags and status, the tasks parsed from `todo.md` with their phases, a
  `done/total` progress string, and the previewable files.
- **The web client** (`web/app.js`) turns that snapshot into views:
  - project cards sorted by path depth, each with a rounded progress percent;
  - the active-project count;
  - project selectors that keep the user's choice;
  - the kanban board (todo / in progress / done);
  - the file explorer and its markdown-or-literal preview;
  - the dialogue log and the scheduled-job list, each with fallback labels.
- **The static server** (`server.js`) maps a URL to a file under its base
  directory and picks a Content-Type from the extension. A failed read
  gives 404.

Code that changes things step by step is modelled in imperative Dafny:
- `_parse_tasks`, `_recursive_scan` and `_scan_files` are methods with loops.
- The `projects` dict that `_recursive_scan` fills is the class `ProjectTable`.
- Each DOM container a renderer clears and appends to is a `Dom.Container`.
- Each `<select>` is a `SelectorSync.Selector`.

Every method is proved equal to a specification function. The properties
are proved about those functions.

Dicts and JavaScript objects are sequences of key/value entries
(`Objects.Entries`):
- `Put` has Python's insertion-order semantics.
- `OwnKeys` is the `Object.keys` order: array-index keys ascending, then
  the other keys in insertion order.

File-system access is replaced by an abstract tree (`WorkspaceScan.Node`).
- A directory may refuse to be listed.
- A file has a size and its text, or none when it cannot be read.
- A directory's modification time is given already formatted.

Dates, `toLocale*String` and `marked.parse` are opaque: the model records
which value is formatted, or which fallback label is chosen.

Files: `wrappers`, `text`, `sequences`, `stable_sort`, `objects`,
`js_number` (helpers); `snapshot` (the shared data); `todo_parser`,
`project_info`, `workspace_scan` (aggregator); `dom`, `dashboard`,
`selector_sync`, `kanban`, `explorer`, `dialogue`, `automation` (web
client); `static_server`; `pipeline` (what the client makes of the
aggregator's output).

## Model

| member | source | states |
|---|---|---|
| TodoParser.ParseTasks | src/aggregator.py:104-125 | the line loop computes exactly `Tasks(Classified(lines))`, keeping the current phase and appending one task per checkbox line |
| TodoParser.TasksFromCheckboxLines | src/aggregator.py:109-122 | one task per stripped line starting with "- [" and none for other lines; the k-th task comes from the k-th such line, in file order, none skipped |
| TodoParser.TasksAtPositions | src/aggregator.py:113-122 | the k-th task carries the title and status of the k-th checkbox line and the phase in effect at that line |
| TodoParser.PhaseIsLatestHeading | src/aggregator.py:106-112 | a task's phase is the text of the latest "## " heading above it, or "General" when there is none |
| TodoParser.HeadingTextPlain | src/aggregator.py:111-112 | a heading "## t" (t without another "## ") names the phase t, stripped |
| TodoParser.RemoveAbsent | src/aggregator.py:112 | `replace("## ", "")` leaves text without "## " unchanged |
| TodoParser.StatusDoneIffChecked | src/aggregator.py:114 | only "done" and "todo" are produced; "done" exactly when the line holds "[x]" or "[X]" anywhere |
| TodoParser.CheckboxTitle | src/aggregator.py:117 | a line "- [ ] t" or "- [x] t" with t trimmed has the title t: the six-character box is dropped |
| TodoParser.TitleTrimmed | src/aggregator.py:117 | no title has white space at either end |
| TodoParser.TasksOfPrefix | src/aggregator.py:107-124 | reading stopped early by an error keeps the tasks read so far: a prefix of the lines gives a prefix of the tasks |
| ProjectInfo.StatusAndFlags | src/aggregator.py:52-56 | status is "active" iff todo.md is a found marker, else "stable"; each flag is membership of its marker |
| ProjectInfo.ProgressCounts | src/aggregator.py:62-68 | progress is present iff there are tasks, and is then "d/t" with d the done count, t the task count and d <= t |
| WorkspaceScan.FoundMarkers | src/aggregator.py:28-30 | a marker is found iff it is one of the five marker names and an entry of the directory |
| WorkspaceScan.GetProjectInfo | src/aggregator.py:46-70 | builds exactly the record `ProjectOf`: flags, status, tasks of a readable todo.md (none otherwise), files, progress |
| WorkspaceScan.ProjectNaming | src/aggregator.py:34-35 | a project is keyed by its relative path and named after its directory, or "workspace-root" when that path is "." |
| WorkspaceScan.RecursiveScan | src/aggregator.py:19-44 | adds to the table one assignment per listed directory that holds a marker, in scan order, and nothing else |
| WorkspaceScan.ScanSubdirs | src/aggregator.py:41-44 | the loop over the entries recurses into each non-ignored directory in listing order |
| WorkspaceScan.ScanWorkspace | src/aggregator.py:11-17 | the result is the assignments of all projects the scan lists, made into an empty dict |
| WorkspaceScan.VisitsBounded | src/aggregator.py:20-26 | no listed directory lies deeper than max_depth, none is reached through an ignored name, every one could be listed; the start comes first |
| WorkspaceScan.VisitsClosed | src/aggregator.py:39-44 | the scan is complete: every listable, non-ignored subdirectory of a listed directory within max_depth is listed |
| WorkspaceScan.ProjectsExact | src/aggregator.py:32-36 | there is one entry per listed directory holding a marker, in listing order, keyed by relative path |
| WorkspaceScan.ScanWorkspaceKeys | src/aggregator.py:34-36 | in a tree of plain, sibling-unique names no key is assigned twice, so the dict holds every project in listing order |
| WorkspaceScan.RelPathInjective | src/aggregator.py:34 | different directories get different relative paths |
| WorkspaceScan.Walk | src/aggregator.py:77-101 | the walk returns exactly `WalkFiles`: a directory's files, then those of each subdirectory kept after pruning, top-down |
| WorkspaceScan.ListFiles | src/aggregator.py:81-101 | the loop over a directory's files appends one entry per previewable file, in listing order |
| WorkspaceScan.WalkSubdirs | src/aggregator.py:77-79 | the walk descends only into subdirectories not in the pruning set, in listing order |
| WorkspaceScan.ScanFiles | src/aggregator.py:72-102 | `_scan_files` returns exactly `WalkFiles(project, [])` |
| WorkspaceScan.WalkFilesAllowed | src/aggregator.py:75-83 | every listed file has a lower-cased extension in the allow set and a relative path ending in its name |
| WorkspaceScan.LocalFilesExact | src/aggregator.py:81-101 | exactly the files with an allowed extension are listed, each once, in listing order |
| WorkspaceScan.LocalFilesMember | src/aggregator.py:81-83 | an entry is listed for a directory iff it is the entry of one of its files with an allowed extension |
| WorkspaceScan.WalkFilesMember | src/aggregator.py:75-83 | an entry is listed iff it is the entry of an allowed file in some directory the walk reaches through listable subdirectories whose names are not pruned, under that directory's path |
| WorkspaceScan.ReachesPath | src/aggregator.py:74-79 | a reached directory is listable, and no component of its path below the start is ".git", "node_modules", "venv", "__pycache__" or ".openclaw" |
| WorkspaceScan.ChildEntered | src/aggregator.py:74-79 | a listable subdirectory is entered iff its name is not one of those five; "data" is entered |
| WorkspaceScan.WalkFilesPruned | src/aggregator.py:75-83 | every listed file lies in a reached directory whose path holds no pruned name |
| WorkspaceScan.PreviewContentEmpty | src/aggregator.py:88-94 | content is "" iff the file has at least 50000 bytes or reads as empty |
| WorkspaceScan.SplitExt | src/aggregator.py:82 | `os.path.splitext` gives "" or a suffix of the name that starts at its last '.' |
| Objects.PutLookup | src/aggregator.py:36 | after `d[k] = v`, k maps to v and every other key keeps its value |
| Objects.PutKeys | src/aggregator.py:36 | a new key is appended, an existing key keeps its place; keys stay distinct |
| Objects.PutAllFresh | src/aggregator.py:36 | assigning new, pairwise different keys appends the entries in order |
| Objects.OwnKeysPermutation | web/app.js:51 | `Object.keys` lists every key exactly once |
| Objects.OwnKeysOrder | web/app.js:51 | `Object.keys` lists array-index keys first, ascending, then the other keys in insertion order |
| StableSort.SortByCorrect | web/app.js:91 | the sort returns a permutation, non-decreasing by key, and stable: equal keys keep their relative order |
| Dashboard.DashboardOrderCorrect | web/app.js:91-93 | the dashboard order is a permutation of the project ids, sorted by `id.split('/').length`, stable for equal depths |
| Dashboard.Percent | web/app.js:101 | for total > 0 the percent is the integer nearest to 100*done/total, halves up; otherwise 0 |
| Dashboard.PercentInRange | web/app.js:98-101 | for 0 <= done <= total, total > 0 the percent is in [0, 100]: 0 with nothing done, 100 with everything done |
| Dashboard.PercentNotClamped | web/app.js:101 | there is no clamping: done >= total gives at least 100, and 3/2 gives 150 |
| Dashboard.PercentExamples | web/app.js:101 | 1/8 gives 13, 1/3 gives 33, 2/3 gives 67, 0/0 gives 0 |
| Dashboard.RenderProjects | web/app.js:84-125 | the list is cleared and ends with one card per project in dashboard order; no projects gives no cards |
| Dashboard.AppendCards | web/app.js:93-121 | the loop appends the card of each id in order |
| Dashboard.ProjectCardsExact | web/app.js:91-121 | there is one card per project and the k-th card shows the k-th project in dashboard order |
| Dashboard.CardFallbacks | web/app.js:103-118 | badge "stable", progress text "0/0", percent 0 and "Unknown" date when the project lacks them |
| Dashboard.ActiveCountIsActiveIds | web/app.js:80 | the active count is the number of distinct project ids whose status is exactly "active" |
| Dashboard.Stats | web/app.js:78-82 | the project count is shown as the snapshot writes it; the active count never exceeds the number of projects |
| JsNumber.NaNCases | web/app.js:100 | `parseInt(undefined)` and `parseInt("")` are NaN, so a missing part counts as 0 |
| JsNumber.ReadsLeadingNumeral | web/app.js:99-100 | `parseInt` reads a decimal numeral followed by a non-digit as its value, the follower "x" included except after a lone "0", where it would start a hexadecimal numeral |
| JsNumber.NumeralRoundTrip | web/app.js:99-100 | `parseInt` of a numeral written by Python's `str(n)` gives n back |
| SelectorSync.Selector.Rebuild | web/app.js:49-57 | the options become the projects in key order; a non-empty value whose lookup is truthy is assigned back, so it stays selected when it is a key and nothing is selected when it is only an inherited `Object.prototype` name; otherwise the first option, or "" |
| SelectorSync.Selector.FillOptions | web/app.js:50-56 | emptying and appending one option per id gives those options, the first selected |
| SelectorSync.SelectionRule | web/app.js:57 | the previous value is kept iff non-empty and still a key; an inherited name such as "toString" that is no key selects nothing; anything else gives the first option; a non-empty selection is always an option |
| SelectorSync.OptionFound | web/app.js:51-57 | assigning a value selects an option iff the value names a project |
| SelectorSync.KeptIdempotent | web/app.js:49-57 | rebuilding twice from the same snapshot selects what rebuilding once selects, except after an inherited name that is no key: the first rebuild selects nothing and the second the first project |
| SelectorSync.OptionsRule | web/app.js:51-56 | the option values are exactly the project ids in `Object.keys` order, each labelled with its project's name |
| SelectorSync.SyncSelectors | web/app.js:47-57 | every selector gets the snapshot's options and its own selection by the rule of `Rebuild`, inherited names included |
| Kanban.RenderKanban | web/app.js:127-163 | without a selector nothing changes; otherwise the three columns are cleared and each gets exactly its tasks' cards, in task order |
| Kanban.BucketRules | web/app.js:153-156 | "done" goes to done whatever the title; "todo" goes to in-progress iff the title holds "實作" or "開發"; anything else goes to todo |
| Kanban.ColumnsPartition | web/app.js:145-158 | together the columns hold every task exactly once |
| Kanban.ColumnsCount | web/app.js:145-158 | the columns hold as many cards as there are tasks |
| Kanban.ColumnOrder | web/app.js:145-158 | each column keeps the task order and holds every task of its bucket |
| Kanban.MissingProjectEmpty | web/app.js:141-143 | a missing project or task list leaves every column empty |
| Explorer.RenderExplorer | web/app.js:165-193 | without a selector nothing changes; otherwise the tree shows the relative path of each file of the selected project, in order |
| Explorer.PreviewDispatch | web/app.js:195-211 | a name ending in ".md" is rendered as markdown with content defaulting to ""; any other file is literal, with "[Empty or Binary File]" when content is empty or absent |
| Dialogue.RenderDialogue | web/app.js:213-245 | the chat list is cleared, then gets the placeholder or one item per message, in order |
| Dialogue.DialogueFallback | web/app.js:220-239 | an absent or empty log shows exactly one placeholder and no message; otherwise one item per message, in order |
| Dialogue.SpeakerRule | web/app.js:235 | the speaker is "Sho" iff the role is "user", else "Lumi" |
| Automation.RenderAutomation | web/app.js:247-284 | the list is cleared, then gets the placeholder or one card per job, in order, stopping at a job without a schedule |
| Automation.Scheduled | web/app.js:259-271 | the rendered jobs are the longest prefix whose jobs all have a schedule |
| Automation.AutomationFallback | web/app.js:254-280 | an absent or empty job list shows exactly one placeholder; scheduled jobs give one card each, in order |
| Automation.CardFallbacks | web/app.js:261-277 | error class iff lastStatus is "error"; "IDLE", "Unnamed Job", "N/A", "Never" as fallbacks (0 counts as absent); error line iff lastError is non-empty |
| StaticServer.RequestTarget | server.js:9 | "/" maps to index.html; any other URL to its part before the first '?' |
| StaticServer.Handle | server.js:8-27 | every request is answered 200 or 404 |
| StaticServer.HandleOutcomes | server.js:11-25 | a failed read gives 404 "Not Found" with no Content-Type; a read gives 200, the chosen type and the bytes unchanged |
| StaticServer.ContentTypeRule | server.js:18-22 | only ".js", ".css" and ".json" change the type, matched exactly: ".JS" and no extension give text/html |
| StaticServer.ExtNameOfFile | server.js:18 | `path.extname` of "stem.ext" is ".ext" |
| StaticServer.ExtNameOfDotFile | server.js:18 | a dot file such as ".bashrc" has no extension |
| StaticServer.RootServesIndex | server.js:9-25 | "/" serves base/index.html as text/html |
| StaticServer.QueryIgnored | server.js:9 | the query string does not change the file asked for |
| StaticServer.RootWithQuery | server.js:9 | "/?q" is not matched as "/": it names the base directory, not index.html |
| Pipeline.ProgressRoundTrip | web/app.js:98-100 | the client reads back the done and total counts the aggregator wrote; no tasks reads as 0/0 |
| Pipeline.DerivedPercent | web/app.js:98-101 | an aggregated project's percent is the rounded share of done tasks, in [0, 100] |
| Pipeline.ParsedTaskColumn | web/app.js:153-156 | the k-th parsed task comes from the k-th stripped "- [" line and carries its title; it is in done iff that line holds "[x]" or "[X]" anywhere, in in-progress iff it does not and the title holds one of the two marks, and in todo otherwise |
| Pipeline.TaskStatuses | src/aggregator.py:114-122 | every parsed task has status "done" or "todo" |
| Pipeline.ActiveCountOfScan | web/app.js:80 | the active count of the scanned projects is the number of listed directories holding a todo.md |
| Pipeline.ActiveCountOfWorkspace | web/app.js:80 | in a well-formed tree the active count equals the number of directories within reach that hold a todo.md |
| Pipeline.StatsOfScan | src/aggregator.py:171 | for a snapshot written from a scan, the project count is the number of listed marker directories, the active count the number holding a todo.md, and the second is at most the first |
| Pipeline.UpperCaseMarkdownShownLiterally | web/app.js:199 | "NOTES.MD" is listed with extension ".md" but previewed as literal text, because the test is on the name and is case-sensitive |

## Left out

- DOM manipulation: HTML templating, class toggling and scroll position are not modelled. Containers hold the data of each appended item. No HTML escaping is done in the source, and the model does not claim any.
- `initTabs`, the tab and file click handlers and `selector.onchange` are event wiring and are not modelled.
- The sequencing inside `loadDashboard` is not modelled: the "Last Scan" text, the thinking indicator, and auto-rendering the active tab. Its parts (`updateStats`, `renderProjects`, the selector pass) are.
- Every renderer is modelled with its data present; `window.LUMI_DATA` missing is not modelled.
- A `try`/`catch` that ends a renderer early is modelled only where a well-typed snapshot reaches it: the job without a schedule in `renderAutomation`. Null `jobs`, `tasks` or messages entries are not modelled.
- Date and locale formatting (`toLocaleString`, `toLocaleDateString`, `toLocaleTimeString`) is opaque: a card holds the raw value that is formatted. The "Unknown Time" fallback is not modelled, since `new Date` does not throw on a string.
- `marked.parse` is opaque: the markdown view holds its source text.
- Dashboard.Percent: the source's floating-point `Math.round(done / total * 100)` is computed exactly. Where the double division lands just below a half, the two may differ.
- JsNumber.ParseInt: values are exact integers; precision loss for numerals beyond 2^53 is not modelled.
- Objects.OwnKeys: `Object.keys` lists no inherited or symbol keys, and the model has none. A project keyed "__proto__", which an object literal turns into the prototype instead of an own key, is not modelled. The inherited names a property read still finds are modelled in `SelectorSync.KeptSelection`.
- The file system is an abstract tree:
  - `os.listdir`, `os.walk`, `os.path.isdir`, `getsize` and file reads are replaced by the tree's contents.
  - Text decoding with `errors='ignore'` is replaced by the given text.
  - `getmtime` and its `isoformat` formatting become a given string.
  - Symbolic links are not modelled.
- WorkspaceScan.TodoLines: todo.md is looked up by its exact name, as on a case-sensitive file system. On a case-insensitive one (the macOS default) `os.path.exists` also finds "TODO.md" and the source then reads its tasks, while the marker test stays case-sensitive; the model reads no tasks there.
- WorkspaceScan.GetProjectInfo: inherits the exact-name todo.md lookup of `TodoLines`.
- WorkspaceScan.RecursiveScan: only a refused listing is modelled. Other `os.listdir` errors, which abort the scan in the source, are not.
- WorkspaceScan.FoundMarkers: Python's set order for `list(markers)` is unspecified. The model uses a fixed order of the marker names.
- WorkspaceScan.JoinPath: the root is taken without a trailing separator. `os.path.join` and `os.path.relpath` are not modelled on unnormalised paths.
- Text.Lower: `str.lower` is modelled on ASCII letters only. Every comparison it feeds is against ASCII text.
- `save_global_state`, its JSON and JavaScript file writes and the `openclaw` subprocess are I/O and are not modelled.
- src/decomposer.py is not part of this model: it holds only id generation, clock reads and file writes.
- The code after `return tasks` in `_parse_tasks` (src/aggregator.py:127-138) can never run and is not modelled.
- Server networking is not modelled: `http.createServer`, `listen`, and the asynchronous `fs.readFile`, which is a map from path to bytes.
- StaticServer.FilePath: `path.join` normalisation (collapsing "..", ".", repeated slashes) is not modelled, and nothing is claimed about path traversal.
- SelectorSync.SyncSelectors: the selectors are taken distinct, as `querySelectorAll` lists them.
- Kanban.RenderKanban: the three column elements are taken distinct, as the page defines them.

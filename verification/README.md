# AxeLibrary result processing, modelled in Dafny

AxeLibrary is a Robot Framework library. It runs the axe-core
accessibility engine in the current Selenium page, stores the engine's
result, returns per-category rule counts, and writes a readable issue
table into the Robot log. The keyword that writes the table then fails the
test when the result holds any violation.

This project models the part of `src/AxeLibrary/axe.py` that processes
results:

- the library state: the stored result starts out absent, and every run
  replaces it with the engine's value;
- the statistics dictionary a run returns: one rule count per category;
- the row loop of `accessibility_issues_log`: one row per (rule, node)
  pair of the chosen category, numbered from 1, with stripped locator,
  markup and help cells;
- the violation gate that follows the table.

Files:

- `wrappers.dfy` holds `Option`, used for Python's `None`.
- `pystrings.dfy` models Python's `str.strip()`. Whitespace is exactly the
  set of code points for which Python 3's `str.isspace()` holds. `Strip`
  drops whitespace one character at a time, first from the front, then
  from the back. CPython instead scans for the first and last
  non-whitespace index. Both give the only whitespace trim that leaves no
  whitespace at either edge, and `StripCharacterisation` proves that
  `Strip` returns it.
- `scan_result.dfy` holds the engine's result: `Node`, `Rule`,
  `ScanResult` with its four categories, the key lookup `ParseCategory`,
  and `Summary` / `Summarize`.
- `report.dfy` holds the report rows. `Sites` is the reference order:
  rules in order, then nodes within a rule. `Render` is the nested loop
  with a counter threaded through it. It is proved to produce, at position
  `k`, the row for the `k`-th pair, numbered `id + k`.
- `axe_library.dfy` holds the session (`Session`, an optional result) and
  the two keywords as pure functions. The issues-log keyword returns
  either `Aborted(error)`, meaning it failed before anything was logged,
  or `Logged(table, verdict)`, meaning the table was logged and the gate
  then passed or failed.

Error paths of the issues-log keyword, in the order the code meets them:

- `NoResult`: subscripting `None` before any run;
- `UnknownCategory`: the result has no such key;
- `MissingLocator`: indexing `target[0]` of a node with no selector.

All three happen before the table is logged. The pure `Render` therefore
requires `Locatable`, and the keyword checks it.

The library has no separate summarise or gate keyword. Counts are
computed only inside the run keyword, and the gate runs only after a table
has been logged; it looks at `violations` whatever category was rendered.
An unsupported key is not rejected up front: it fails at the dictionary
lookup (a `KeyError`), which the model represents as `UnknownCategory`.
Every run builds a new engine handle and injects axe-core before scanning.

A run can raise before the result is stored: the driver lookup, building
the engine handle, injecting or running the engine (axe.py:29-39). The
stored result then stays as it was. The result is stored
(axe.py:39) before the result file is written (axe.py:41), so if the write
raises, the keyword returns no summary but the new result is already
stored for the next issues log. `RunAccessibilityTests` takes both facts
as parameters, the engine's outcome and whether the write succeeded, and
returns either `Completed(session, summary)` or `Raised(session)`.

## Model

| member | source | states |
|---|---|---|
| `PyStrings.IsSpaceMatchesTable` | src/AxeLibrary/axe.py:89-106 | the range test `IsSpace` that `strip()` uses accepts a character iff it is one of the 29 code points Python 3's `str.isspace()` accepts, listed one by one in `Whitespace` |
| `PyStrings.Strip` | src/AxeLibrary/axe.py:93-106 | the result is never longer than the input and has no whitespace at either edge |
| `PyStrings.StripIsTrim` | src/AxeLibrary/axe.py:93-106 | the result is a contiguous piece of the input, and everything cut off before and after it is whitespace |
| `PyStrings.StripCharacterisation` | src/AxeLibrary/axe.py:93-106 | any whitespace trim of a string that leaves no edge whitespace is exactly `Strip` of that string (uniqueness) |
| `PyStrings.TrimUnique` | src/AxeLibrary/axe.py:93-106 | two edge-free whitespace trims of the same string are equal |
| `PyStrings.StripFixpoint` | src/AxeLibrary/axe.py:93-106 | a string is unchanged by stripping iff it has no edge whitespace; stripping twice equals stripping once |
| `PyStrings.StripPadding` | src/AxeLibrary/axe.py:93-106 | whitespace padded around an edge-free string is removed again, leaving the string itself |
| `ScanResults.ParseCategory` | src/AxeLibrary/axe.py:66 | a key selects category `c` iff it is `c`'s name; every other key is absent from the result |
| `ScanResults.Summarize` | src/AxeLibrary/axe.py:43-44 | each category's count is the length of that same category's rule list |
| `Report.RowFor` | src/AxeLibrary/axe.py:88-106 | one row carries the given id; its locator, markup and issue cells are each a whitespace trim of the node's first selector, its markup and its rule's help text (a contiguous piece with only whitespace cut from either end) with no edge whitespace left, which `StripCharacterisation` shows is exactly `strip()` of the source; a cell that had no edge whitespace is kept as it is |
| `Report.NodeRows` | src/AxeLibrary/axe.py:87-109 | the inner loop yields one row per node in node order, numbered consecutively from the entry counter, with stripped locator, markup and help cells |
| `Report.Render` | src/AxeLibrary/axe.py:86-109 | the nested loop yields exactly one row per (rule, node) pair; row `k` reports the `k`-th pair in rule-then-node order under number `id + k` |
| `Report.SitesCount` | src/AxeLibrary/axe.py:86-87 | the number of (rule, node) pairs is the sum over the rules of each rule's node count |
| `Report.SitesOrder` | src/AxeLibrary/axe.py:86-87 | node `j` of rule `i` sits at position (nodes of rules before `i`) + `j`: rule order then node order, nothing re-sorted or dropped |
| `AxeLibrary.NewSession` | src/AxeLibrary/axe.py:13-15 | a freshly constructed library holds no result, so every issues-log call on it stops before logging |
| `AxeLibrary.RunAccessibilityTests` | src/AxeLibrary/axe.py:29-47 | a failure before the result is stored (driver lookup, inject or run) raises and leaves the session unchanged; once the engine returns, its value is the stored result even if the file write then raises; counts are returned only when nothing raised, each the length of that category's list in the new result |
| `AxeLibrary.RunReplacesResult` | src/AxeLibrary/axe.py:39 | once the engine returns, what a run leaves behind and returns does not depend on any earlier result |
| `AxeLibrary.EngineFailureKeepsResult` | src/AxeLibrary/axe.py:29-39 | a run whose driver lookup, inject or run step raises raises too, and every later issues log behaves as it did before the run |
| `AxeLibrary.WriteFailureKeepsNewResult` | src/AxeLibrary/axe.py:39-41 | a run whose file write raises returns no summary, yet the next issues log reads the new result exactly as after a successful run |
| `AxeLibrary.AccessibilityIssuesLog` | src/AxeLibrary/axe.py:66-116 | aborts with `NoResult` before any run, with `UnknownCategory` for an unknown key and with `MissingLocator` when a node of the category has no selector; logs a table iff none of these applies; the table has one row per node, ids 1..N in order, and the gate fails iff `violations` is non-empty |
| `AxeLibrary.IssuesLogBeforeRun` | src/AxeLibrary/axe.py:13-15 | on a freshly constructed library, the issues log aborts at the lookup for every key |
| `AxeLibrary.IssuesLogRow` | src/AxeLibrary/axe.py:86-109 | node `j` of rule `i` is reported at position (nodes of earlier rules) + `j` with id one more than that position, its stripped first selector, its stripped markup and its rule's stripped help |
| `AxeLibrary.IssuesLogCellsStripped` | src/AxeLibrary/axe.py:93-106 | no logged cell has edge whitespace, and stripping a cell again changes nothing |
| `AxeLibrary.GateIgnoresCategory` | src/AxeLibrary/axe.py:115-116 | whichever category of a stored result is rendered, its table is logged when every node has a selector, and the gate's verdict is the same |
| `AxeLibrary.IssuesLogReadsOnlyCategory` | src/AxeLibrary/axe.py:66-116 | the outcome depends only on the chosen category's rules and the number of violations |
| `AxeLibrary.RunThenIssuesLog` | src/AxeLibrary/axe.py:39-116 | after a run whose engine returned, whether or not the file write raised, the lookup of every category succeeds; the table counts that category's nodes in the new result and the gate reads the new result's violations |
| `AxeLibrary.SingleViolationScenario` | src/AxeLibrary/axe.py:39-116 | a result whose only rule is one violation with one node, for a help text, locator and markup with no edge whitespace: counts (0, 0, 0, 1), a table of exactly that node's row numbered 1, and a failing gate |
| `AxeLibrary.EmptyScenario` | src/AxeLibrary/axe.py:39-116 | an empty result: all counts zero, every category renders an empty table, and the gate passes |

## Left out

- Getting the webdriver from SeleniumLibrary (axe.py:29-30) is a call into
  the host framework. The model has no driver; a failed lookup (the
  library not imported, no browser open) is represented as
  `EngineRaised`, since it too leaves the stored result unchanged.
- Building the engine handle, injecting axe-core and running it
  (axe.py:32-39) belong to an external engine. What it did is the
  parameter `engine` of `RunAccessibilityTests` (`EngineRaised` or
  `Scanned(scan)`), and the `axe_instance` field is not kept.
- The `context` and `options` arguments only configure the engine and are
  not modelled.
- Writing the result file (axe.py:41) is file I/O inside a third-party
  library. `result_file` and the file's contents are not modelled; only
  whether the write raised is, as the `written` parameter.
- `get_json_accessibility_result` (axe.py:54-56) is a `json.dumps`
  wrapper and is not modelled. On a fresh library it returns the text
  `null` rather than failing.
- The dominate markup is presentation and is not modelled: the table
  element, column group, header row, styles and the `pre`/`code` wrapping
  (axe.py:69-84, 95-104, 111). A row keeps only its four column values.
- The ID# cell is the text `str(id).strip()`. The model keeps the counter
  as a number, because the decimal text of a positive integer never has
  edge whitespace.
- `logger.info` and `BuiltIn().fail` (axe.py:45, 113, 116) are Robot side
  effects. The run keyword's logging of the statistics dictionary
  (axe.py:45) is dropped: only the returned `summary` is modelled. The
  issues log's logging of the table (axe.py:113) is modelled as the
  `Logged` outcome, and its failure (axe.py:116) as the `ViolationsFound`
  verdict.
- The keyword's default `type='violations'` is not modelled: callers pass
  the key explicitly.
- Selectors are modelled as strings, so `str(...)` is the identity. In
  axe-core's `target`, each entry is one iframe level, outermost first, so
  for a node inside a frame `target[0]` is the frame's selector and the
  LOCATOR cell names the frame rather than the node; the model shares this
  behaviour. For a node inside a shadow DOM the entry is itself a list of
  selectors, and the `str()` rendering of that list is not modelled.
- ParseCategory: the engine's real result also carries keys other than the
  four categories (`url`, `timestamp`, `testEngine`, ...). The code does
  not fail at the lookup for these. It fails later while iterating, or
  logs an empty table when the value is empty. The model treats every
  non-category key as absent.

# Creag browser shell — a Dafny model of its navigation, history and tab logic

Creag is a small desktop browser: a tabbed window around an embedded web
engine, an address field, Back/Forward/Reload/Home/New-Tab buttons, a flat
`history.txt` file of visited addresses and a dialog to browse and prune it.
Almost all of it is widget glue. This project models the parts with
sequential logic of their own and proves what they guarantee:

- **Address resolution** (`Address`): how typed text becomes the address a
  tab loads. Text without a `.` becomes a DuckDuckGo query, with no escaping.
  Text with a `.` but without the substring `http` gets `https://` in front.
  Anything else is loaded as typed.
- **History file** (`HistoryStore`, `HistoryDialog`): the file is modelled as
  its text (`None` while it does not exist). Appending writes the address and
  a line break. Reading yields Python's lines, each passed through
  `str.strip()`. The dialog deletes selected rows one at a time from its
  list and then rewrites the file; "Delete All" truncates it.
- **Window and tab strip** (`Browser`): the tabs, the current index, the
  address field and the history file, as one immutable record. It covers
  opening, selecting and closing tabs, typed navigation, Home, and the
  address-change event that every tab sends to the address field and to the
  history.
- **JSON viewer** (`JsonView`): once a page has loaded, an address ending in
  `.json` starts a chain of four script injections, each started from the
  previous one's completion callback. The order is stylesheet, Prism library,
  `<pre><code>` wrap, `Prism.highlightAll()`.

`Results` holds the shared `Option`/`Result` types. `Text` holds the Python
string semantics the code relies on: substring `in`, `endswith`, `strip()`
and line iteration.

Points where the code does something easy to misread:

- The search branch appends the typed text without URL-escaping it.
- A clicked history row goes through `Browser.navigate_to_url`, so the
  heuristic is applied to it again. For a row that `navigate_to_url` wrote,
  `RevisitIsStable` proves that this second pass changes nothing. Rows
  recorded from a tab's address report need not survive it. A row without a
  dot, such as `http://localhost:8000/`, becomes a search query
  (`DotlessRowChanges`, `LocalhostRowBecomesSearch`), and a dotted row
  without `http` gets `https://` in front.
- The JSON check looks at the end of the whole address string, not at its
  path. An address with a query after `.json` does not qualify.
- Opening the history dialog with no `history.txt` raises; it does not read
  as an empty history.
- Closing the last tab does not leave a usable empty window. The tab-change
  handler then calls `url()` on `None` and raises.
- A typed navigation is written to the history twice: once by
  `navigate_to_url` itself, and once more by `add_to_history` when the tab
  reports its new address. The model treats that report as a separate event
  that comes after `navigate_to_url` has returned. The same holds for Home:
  `navigate_home` writes nothing itself, and the home page is recorded once
  the tab reports it.
- The dialog deletes every item `selectedItems()` returns. The code never
  changes the list's selection mode, and clicking a row navigates and closes
  the dialog, so in practice at most one row is selected. The model covers
  any number of selected rows, which includes that case.

## Model

| member | source | states |
|---|---|---|
| Address.Resolve | main.py:226-233 | every resolved address contains a `.` and the substring `http`, and ends with the typed text unchanged (the heuristic only prepends, never escapes) |
| Address.ResolveCases | main.py:229-233 | with Python's substring test as reference: no `.` gives exactly the search prefix plus the text; a `.` without `http` gives exactly `https://` plus the text; a `.` and `http` give the text itself |
| Address.HttpAnywhere | main.py:231-233 | `http` counts anywhere in the text: `myhttp.com` is loaded as typed |
| Address.DottedWithoutH | main.py:231-232 | a dotted input without any `h` (such as `openai.com`) is loaded as `https://` plus the input |
| Address.SearchExample | main.py:229-230 | `weather` is loaded as `https://duckduckgo.com/?q=weather` |
| Address.UnescapedExample | main.py:229-230 | a space in a query reaches the search address unescaped |
| Address.ResolveIdempotent | main.py:229-232 | resolving a resolved address gives it back unchanged |
| Address.SingleLine | main.py:229-235 | resolution adds no line break, so a one-line input is written as one history line |
| Address.RevisitIsStable | main.py:37-39 | re-resolving a history row that typed navigation wrote (a resolved address after `strip()`) yields that row unchanged |
| Address.DotlessRowChanges | main.py:229-230 | a row without a dot is not stable: re-resolving it gives the search prefix plus the row, never the row itself |
| Address.LocalhostRowBecomesSearch | main.py:229-230 | a reported row `http://localhost:8000/` is turned into a search for that text when clicked |
| Text.ContainsMeansOccurs | main.py:231 | the left-to-right substring scan agrees with "some position starts a copy of the word", both ways |
| Text.Strip | main.py:33 | `strip()` returns an infix with non-blank ends, and everything cut off around it is whitespace |
| Text.StripIdempotent | main.py:33 | stripping twice is stripping once |
| Text.StripBreak | main.py:33 | the line break after a row is removed again by `strip()` |
| Text.StripKeepsWord | main.py:33 | a word with non-blank ends that occurs in a line still occurs after `strip()` |
| Text.LinesFlatten | main.py:31-32 | the lines of a file, concatenated, are exactly its text |
| Text.LinesShape | main.py:31-32 | each line is non-empty, has no inner line break, and all but the last end with one |
| Text.LinesAppend | main.py:202-203 | text appended after complete lines reads back as the old lines followed by the new ones |
| HistoryStore.Append | main.py:200-203 | append mode creates a missing file, keeps the old text as a prefix, and leaves a file of complete lines |
| Text.Lines | main.py:31-32 | `for line in file` yields no lines exactly for an empty file, and never more lines than characters; `LinesFlatten` and `LinesShape` pin down the lines themselves |
| HistoryStore.Load | main.py:30-34 | reading fails with a missing-file error exactly when the file does not exist; otherwise row i is line i of the file passed through `strip()`, one row per line, each stripped and on one line |
| HistoryStore.Rewrite | main.py:46-53 | opening in write mode leaves an existing file made of complete lines; `RewriteThenLoad` and `ClearedIsEmpty` give what it reads back as |
| HistoryStore.Render | main.py:46-48 | the rewritten text is empty exactly when no rows are written, and always ends with a complete line |
| HistoryStore.AppendThenLoad | main.py:200-203 | appending a one-line address adds exactly one row, the stripped address, after all earlier rows |
| HistoryStore.AppendLastRow | main.py:200-203 | after appending a clean row, the last row read back is that row |
| HistoryStore.RewriteThenLoad | main.py:46-48 | rows written back by the dialog read back as exactly those rows, in order |
| HistoryStore.ClearedIsEmpty | main.py:52-53 | a truncated file reads back as no rows |
| Browser.CurrentTab | main.py:241 | `currentWidget()` yields a tab of the strip, and in a valid window it yields one exactly when the strip is non-empty |
| Browser.Start | main.py:134-135 | a new window has one tab, on the home page, current, and an empty address field |
| Browser.CreateNewTab | main.py:209-212 | one more tab, appended last on the home page and made current; earlier tabs and the history are unchanged; the address field shows the home page |
| Browser.CloseTab | main.py:252-253 | closing a valid index removes exactly that tab and keeps the rest in order; an invalid index changes nothing; the current index stays valid |
| Browser.CloseTabAnyCurrent | main.py:252-253 | any remaining tab may become current after a close; the model does not fix that choice |
| Browser.CurrentChanged | main.py:240-242 | the address field takes the current tab's address; with no tab the handler fails |
| Browser.SelectTab | main.py:240-242 | clicking another tab makes it current and the tab-change handler shows its address; clicking the current tab changes nothing, since no tab-change event fires; tabs and history are unchanged |
| Browser.LoadInCurrent | main.py:233 | loading changes only the current tab |
| Browser.Navigate | main.py:226-235 | typed navigation fails when there is no current tab; otherwise only the current tab changes, to the resolved address, and exactly that address is appended to the history |
| Browser.Submit | main.py:226-235 | Enter in the address field navigates to the field's text: it fails exactly when there is no current tab; otherwise only the current tab changes, to the resolved text, that address is appended to the history, and the field is left as it is |
| Browser.Home | main.py:194-195 | `navigate_home` loads the home page in the current tab, changes no other tab, keeps the tab count and current index, and itself writes neither the history file nor the address field; the tab's report (`UrlChanged`) then records the home page and shows it |
| Browser.UrlChanged | main.py:63-64 | a tab's address report updates that tab, puts the address in the address field whichever tab sent it, and appends it to the history |
| Browser.NavigateRecordsOne | main.py:233-235 | typed navigation adds exactly one history row, the resolved address, after the earlier rows |
| Browser.NavigateThenReport | main.py:233-235 | when the tab reports its new address after `navigate_to_url` returns, a typed navigation has left two history rows: the resolved address, then the reported one |
| Browser.HomeRecordsNothing | main.py:194-195 | `navigate_home` itself adds no history row; the visit is recorded by the tab's later report |
| Browser.UrlChangeRecordsOne | main.py:200-203 | each address report adds exactly one history row |
| Browser.CloseLastTab | main.py:252-253 | after closing the only tab, the tab-change handler, typed navigation and Home all fail, and navigation works again after a new tab |
| JsonView.JsonAddresses | main.py:78-79 | any address ending in `.json` qualifies; the same address followed by a query does not |
| JsonView.Begin | main.py:77-80 | the first injection happens exactly when the address ends in `.json` and the stylesheet can be read, and it is the stylesheet step |
| JsonView.OnScriptDone | main.py:91-105 | each completion callback injects the step one place further along the pipeline; the chain ends after the highlight step, or after the stylesheet step when prism.js cannot be read |
| JsonView.CallbacksFollowPipeline | main.py:90-117 | each completion callback starts the next step of the fixed order or ends the chain; it ends early only when the library file cannot be read |
| JsonView.Injections | main.py:77-117 | the injections a loaded page receives are a prefix of stylesheet, library, wrap, highlight; they start iff the address ends in `.json` and the stylesheet is readable; all four run iff both assets are readable |
| HistoryDialog.Show | main.py:30-34 | opening the dialog fails exactly when the file is missing; otherwise row i of the list is line i of the file passed through `strip()`, one row per line |
| HistoryDialog.ClickRow | main.py:37-40 | clicking a row navigates the current tab to the row's text after resolution and records that address; the address field, the current index and every other tab stay as they were |
| HistoryDialog.RevisitLastRow | main.py:37-39 | after typed navigation, the dialog's last row is the stripped resolved address, and clicking it loads exactly that row |
| HistoryDialog.TakeOut | main.py:44-45 | taking out the item at a row whose value is listed nowhere else removes that value from the list and nothing else, keeping the order |
| HistoryDialog.KeptPositions | main.py:42-48 | the reference outcome of a deletion: the unselected positions, in increasing order, and only those |
| HistoryDialog.DeleteSelected | main.py:42-48 | removing the selected items one by one, in any order, leaves the original rows minus the selected positions in their original order, one row fewer per selected row; the file is rewritten with exactly those rows and reads back as them |
| HistoryDialog.DeleteMiddle | main.py:42-48 | deleting the middle of three rows leaves the outer two in order |
| HistoryDialog.DeleteAll | main.py:50-53 | after Delete All the list is empty and the file reads back empty, whatever it held |
| HistoryDialog.DeleteAllIdempotent | main.py:50-53 | deleting all twice ends where deleting once does |

## Left out

- Widget construction, styling, icons and layout (main.py:8-27, 119-192) are not modelled. They are user-interface glue.
- The web engine is not modelled: loading, `back`, `forward`, `reload`, and the contents of the injected scripts. A tab is reduced to the address it was last told to load. The engine's own normalisation of addresses (`QUrl`) is not modelled either.
- The Back and Forward buttons are bound at construction to the first tab's widget (main.py:156, 160), so they keep acting on that tab. This is not modelled, because navigation history lives in the engine.
- Tab titles and icons are not modelled. The title and icon handlers (main.py:67-75) update the tab at `currentIndex()`, not the tab that sent the event.
- Which tab becomes current after `removeTab` is the toolkit's rule. `CloseTab` takes it as a parameter, `pick`.
- Whether the toolkit emits a tab-change event after a close is also its own rule. `CurrentChanged` is therefore a separate operation that a caller applies when the event fires.
- Shift-click "open in new tab" (`BrowserTab.createWindow`, main.py:82-88) is not modelled. It depends on global keyboard state.
- `Browser.createWindow` (main.py:244-250) is not modelled. It refers to `self.browser`, which `Browser` does not have.
- Cookie printing (main.py:214-224) is not modelled. It is console output.
- File I/O is reduced to a value. The model has the file's text, or `None` when the file is absent. It has no write failures, no concurrent writers, and no newline translation by text mode (`\r\n` and `\r` read as `\n`). The two asset files are reduced to whether they can be read.
- Browser.NavigateThenReport: the model treats the tab's `urlChanged` report as a separate event that comes after `navigate_to_url` or `navigate_home` returns. The web engine may emit it while `setUrl` (main.py:233, 195) is still running. Then `add_to_history` writes before `navigate_to_url`'s own write, and the two rows come in the other order. The engine's timing is not modelled.
- A pending injection callback that runs after its tab has navigated away is not modelled.
- The model does not say what happens after an unhandled exception in a handler. PyQt may print it or stop the process, depending on version. The model only reports the failure as an `Err`.

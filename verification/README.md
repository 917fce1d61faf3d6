# Cross-page row selection of the artwork catalog browser

This project models the logic of a single-view React application that pages
through the Art Institute of Chicago artwork catalog in a table. The view can
also select the first N catalog rows across page boundaries. The modelled parts:

- the `Artwork` record (`Artworks`);
- the page request `fetchData`, as a fixed catalog snapshot that answers each
  page number with decoded rows or a thrown failure. Every thrown failure
  collapses into an empty page (`Catalog`);
- the `handleSelectRows` loop (`Selection`):
  - as an imperative method with loop invariants;
  - as a fuel-bounded function that makes its non-termination visible;
  - against a reference specification, the first N rows of page 1 ++ page 2 ++ ...;
- the view state and its handlers: mount, page change, count input and
  submission (`App`);
- the inscriptions cell formatter (`Render`).

Behaviour of the code that the model keeps:

- The loop has no exit for an empty page. The counter stays the same and the
  page number keeps advancing. The loop therefore returns exactly when the
  catalog holds at least N rows. If it holds fewer, the loop never returns.
  This includes every positive N while the network is down, because each
  failed request looks like an empty page (see Findings).
- A count of zero or less never enters the loop. No page is requested and the
  selection becomes empty.

## Model

| member | source | states |
|---|---|---|
| Render.InscriptionsBody | src/App.tsx:146 | an absent or empty inscriptions value shows the fixed placeholder and any other text shows verbatim; a cell is never blank |
| Render.PlaceholderShownIff | src/App.tsx:146 | the placeholder appears exactly when the value is absent, empty, or itself the placeholder text |
| Render.NonPlaceholderCellRoundTrip | src/App.tsx:146 | a cell that does not show the placeholder shows the stored value, which can be read back from it |
| Catalog.FetchData | src/App.tsx:29-41 | the page request with failures swallowed; it has no contract of its own and is characterised by `Catalog.EmptyPageIff` |
| Catalog.EmptyPageIff | src/App.tsx:29-41 | a fetched page is empty exactly when the request failed or the page really is empty, so callers cannot tell the two apart; a delivered page comes back unmodified |
| Catalog.ThroughIsPrefix | src/App.tsx:65-72 | reading pages 1..j gives a prefix of reading pages 1..k for j <= k, so accumulating pages in increasing order only ever extends the result |
| Catalog.ThroughSaturates | src/App.tsx:37-39 | reading past the last page adds no rows |
| Catalog.ThroughBounded | src/App.tsx:65-72 | whatever number of pages is read, the rows are a prefix of the whole catalog and never more than its total |
| Catalog.ThroughHasDistinctIds | src/App.tsx:65-72 | if ids are distinct within each page and between pages, pages 1..k read in order contain no repeated id and share no id with any later page |
| Selection.Slice | src/App.tsx:69 | `slice(0, n)` takes exactly min(n, page length) rows, always from the front of the page |
| Selection.SelectRows | src/App.tsx:62-76 | on a catalog with enough rows the loop returns exactly the first `selectCount` rows in page order (none for a count of 0 or less, with no request); it requests pages 1, 2, ..., k once each, and k is the least page count that holds enough rows |
| Selection.RunLoop | src/App.tsx:67-73 | the loop as written, bounded by fuel; whenever it finishes it has only appended to its starting rows and the counter lands exactly on zero, so the result has exactly the rows asked for; `Selection.LoopTerminatesIff` characterises when it finishes |
| Selection.LoopDiverges | src/App.tsx:67-73 | once more rows are wanted than remain in the catalog, every later page is taken whole, the counter never reaches zero and no amount of fuel finishes the loop |
| Selection.LoopFinishes | src/App.tsx:67-73 | while the catalog still has the rows wanted, enough iterations finish the loop with the first wanted rows of the catalog |
| Selection.LoopTerminatesIff | src/App.tsx:62-76 | the loop returns if and only if the catalog holds at least `selectCount` rows; then its result is the reference selection, otherwise it runs forever |
| Selection.FailingNetworkHangs | src/App.tsx:37-39 | with every request failing, any positive count makes the loop request pages forever |
| Selection.SelectRowsStoppingOnEmptyPage | src/App.tsx:67-73 | the loop with an escape at the first empty page always returns a prefix of the catalog no longer than asked for; it requests pages 1, 2, ..., k, none for a count of zero or less and none after the page that completes the count, stopping at the first empty one; a short result is every row of the pages read before it; a full result equals the loop as written, which is always the outcome when the catalog has enough rows and no empty page |
| Selection.SelectionSpansTwoPages | src/App.tsx:67-72 | a count larger than page 1 but within pages 1 and 2 yields page 1 whole and then the front of page 2, e.g. 12 + 3 rows for a count of 15 |
| Selection.SelectionHasDistinctIds | src/App.tsx:65-72 | if catalog ids are distinct within and across pages, the selection holds no duplicate id |
| App.Initial | src/App.tsx:22-26 | before mount no rows are shown or selected and the total, offset and count are all zero |
| App.Mount | src/App.tsx:43-50 | mounting shows page 1 and fixes the paginator's total at 126335 without touching the selection, offset or count |
| App.MountIsPageOneChange | src/App.tsx:43-58 | mounting is the same as a page-change event with no page index that keeps the stored offset, followed by fixing the total at 126335 |
| App.NextPage | src/App.tsx:54 | the page fetched is the widget's zero-based index plus one, or page 1 when no index is given, and is always a valid page number |
| App.OnPageChange | src/App.tsx:53-58 | a page change stores the event's offset (0 if missing) and shows the page it names; selection, count and total stay as they were |
| App.PageChangeForgetsPreviousPage | src/App.tsx:53-58 | the state after a page change does not depend on the offset or rows shown before |
| App.PageFourAtOffsetFortyEight | src/App.tsx:53-58 | example: a move to page index 4 at offset 48 shows page 5 and stores offset 48, whatever was stored before |
| App.OnCountChange | src/App.tsx:85-87 | a cleared count input becomes a count of 0, any other value is stored as typed, and nothing else changes |
| App.HandleSelectRows | src/App.tsx:62-76 | submission makes the selection exactly `max(count, 0)` rows, a prefix of the catalog in page order; nothing else changes |
| App.SubmitReplacesSelection | src/App.tsx:63-75 | the new selection does not depend on the previous one, and submitting twice in a row is the same as submitting once |
| App.ClearedCountSelectsNothing | src/App.tsx:64-67 | a cleared or non-positive count leaves the selection empty, whatever was selected before |

## Left out

- src/main.tsx: React bootstrap only (root creation, providers, style imports); it has no logic.
- The HTTP request and JSON decoding inside `fetchData` (src/App.tsx:31-36): network I/O, modelled only as a catalog snapshot answering each page with rows or a failure. The model assumes the catalog does not change while the loop runs.
- A failed answer that does not throw: `fetch` does not reject on an HTTP error status, and line 36 casts the decoded body without checking it. An error body without a `data` field would make `fetchData` return `undefined`; `slice` at line 69 would then throw, and the selection would stay unchanged. The model has no such answer. Its conclusions that the loop never returns on a short catalog (`Selection.LoopTerminatesIff`, `Selection.LoopDiverges`, `Selection.FailingNetworkHangs`) assume every page past the end answers with an empty `data` array or a thrown error.
- The failure log line (src/App.tsx:38): console output only.
- React hooks, the mount effect's scheduling, async/await suspension, and last-write-wins races between concurrent handlers. These are UI reactivity and event-loop concurrency. Each handler is modelled as one atomic state transition.
- All JSX rendering and the third-party widgets: table, columns, overlay panel, number input, button and icon (src/App.tsx:78-156). The input's `min`/`max` clamping belongs to the widget. A negative count is therefore still accepted by the model and selects nothing.
- The table's own selection-change event (src/App.tsx:104): a direct assignment of whatever the widget supplies, with no logic of its own.
- Selection.Slice: models `slice(0, n)` only for non-negative `n`, which is all the loop passes it; JavaScript's negative-index behaviour is not modelled.
- Selection.SelectRows: requires the catalog to hold at least `selectCount` rows, because the loop as written does not return otherwise. That case is modelled by `Selection.RunLoop` and `Selection.LoopTerminatesIff`.
- App.HandleSelectRows: carries the same requirement as `Selection.SelectRows`, for the same reason.
- Fractional counts and JavaScript number precision: counts are mathematical integers.

## Findings

| source | as written | input that shows it | evidently intended | confidence | as-written member | corrected member |
|---|---|---|---|---|---|---|
| src/App.tsx:67-73 | the loop exits only when the counter reaches zero; an empty page (which is also what every failed request returns) advances the page but leaves the counter unchanged | network down (every request fails) and a count of 1: every page reads as empty and pages 1, 2, 3, ... are requested forever | stop at the first empty page and publish the rows gathered so far | not executed; high | Selection.FailingNetworkHangs | Selection.SelectRowsStoppingOnEmptyPage |

The view-state model (`App.HandleSelectRows`) keeps the behaviour as written.
It applies only to catalogs on which the loop returns. On those catalogs,
when no page before the end is empty, the corrected loop gives the same result.

# Mavanimes watcher — a Dafny model of its polling core

The watcher polls the front page of `mavanimes.co`, extracts the links of
the episodes it lists, compares them with the links it already knows, and
hands every new link to a callback that posts it to a Discord channel. This
project models the two pieces of `src/functions.ts` that carry logic:

- **Link extraction** (`parseAnimes`, module `Extraction`). The anchors of
  the page become a sequence of `Anchor` records: the `href` attribute
  (absent or present), the `className`, the `childElementCount`, and the
  `src` attribute of every `<img>` descendant. `ParseAnimes` keeps the
  source's indexed loop and its `continue` guards. It is proved equal to the
  specification function `Extracted`, a filter-map over the anchors.
  `Positions` is the independent reference for `Extracted`: the strictly
  increasing positions of the qualifying anchors.
  `String.prototype.includes` is the predicate `Strings.Includes`. It is
  proved equal to the positional definition of a substring.
- **The check cycle** (`check`, module `Checking`). The module-level state
  of the source is the class `Checker`. It has two fields:
  - `oldList`: the array imported from `oldAnimeList.json` at start-up, which
    `check` grows with `push`;
  - `persisted`: the contents of the file `check` writes,
    `./src/oldAnimeList.json`, which each cycle overwrites.

  The callback is a ghost log `notified`. The ghost field `loaded` records
  the list read at start-up. `Valid()` states that the in-memory list is
  always `loaded` followed by every link announced since.
  `Checker.Check` takes the fetch result as an `Option<seq<Anchor>>`:
  `None` stands for a fetch that failed. It is proved to leave exactly the
  state described by the pure function `Cycle`. The lemmas about `Cycle`
  state what a cycle does:
  - the new links are the candidates absent from the old list, duplicates
    included, in candidate order;
  - they are announced in reverse order;
  - the in-memory list only grows;
  - the file gets the snapshot of the page;
  - a failed fetch changes nothing.

The two lists are handled differently. Only the file is replaced, with the
candidate list of the page (`src/functions.ts:78`). The in-memory
`oldAnimeList` is only pushed onto (`src/functions.ts:74`), so it grows
across the cycles of one process. The callbacks run before the file is
written. The model keeps this split. The lemma `KnownNeverNotified` shows
that a link is announced in at most one cycle per process. Within that
cycle, a new link listed twice on the page is announced twice
(`CycleNotifiesNewOnly`). `RestartForgetsDelisted` shows that after a
restart a link that left the page and came back is announced again.

Two definitions carry the behaviour that the rows below rely on. They are
plain definitions without contracts of their own:

- `Extraction.Qualifies` is the guard chain of `src/functions.ts:41-51`.
  The `href` is present and non-empty, the class name is empty, there is
  at least one child element, and there is exactly one image. That image's
  `src` is present and contains `mavanimes.co/wp-content/uploads/`, and the
  `href` contains `mavanimes.co`.
- `Checking.Cycle` is the whole of `check` (`src/functions.ts:64-80`). With
  no document, nothing changes and nothing is announced. Otherwise the
  announced links are the reversed filter of the candidates against the
  old list. They are appended to the in-memory list, and the file receives
  the candidate list.

## Model

| member | source | states |
|---|---|---|
| Strings.IncludesIff | src/functions.ts:49-51 | `includes` holds exactly when the needle occurs at some position of the string |
| Strings.IncludesNeedsRoom | src/functions.ts:49 | a string that includes a needle is at least as long as it, so an empty `src` never passes the uploads-path check |
| Extraction.Extracted | src/functions.ts:34-56 | the extracted list is no longer than the anchor list |
| Extraction.ParseAnimes | src/functions.ts:33-57 | the indexed loop with its `continue` guards returns exactly the hrefs of the qualifying anchors, in document order (`Extracted`) |
| Extraction.ExtractedAtPositions | src/functions.ts:34-56 | the output is the sequence of hrefs of the qualifying anchors at strictly increasing positions, with none skipped: an order-preserving subsequence |
| Extraction.ExtractedSound | src/functions.ts:38-53 | every returned link is the href of an anchor with a non-empty href, no class name, at least one child, exactly one image whose src is present and contains the uploads path, and the link contains `mavanimes.co` |
| Extraction.ExtractedComplete | src/functions.ts:38-53 | the href of every qualifying anchor is returned |
| Extraction.ExtractedEmpty | src/functions.ts:34-56 | the result is empty exactly when no anchor qualifies |
| Extraction.ExtractedAppend | src/functions.ts:38-54 | extraction of a page split in two is the extraction of the first part followed by that of the second |
| Extraction.ExcludedAnchor | src/functions.ts:41-53 | an anchor failing any single check contributes no link, whatever else holds of it |
| Checking.IndexOf | src/functions.ts:70 | `indexOf` is negative exactly when the item is absent, and otherwise gives its first position |
| Checking.NewAnimes | src/functions.ts:70 | every new link is a candidate absent from the old list; there are at most as many as candidates |
| Checking.NewAnimesCount | src/functions.ts:70 | a link is new iff it is a candidate missing from the old list, and it is kept once per occurrence among the candidates, so duplicates are kept |
| Checking.NewAnimesAppend | src/functions.ts:70 | the filter keeps candidate order: filtering a split list is filtering each part |
| Checking.Reversed | src/functions.ts:73 | reversal keeps the length |
| Checking.ReversedAt | src/functions.ts:73 | position k of the reversed list holds position n-1-k of the original |
| Checking.ReversedMultiset | src/functions.ts:73 | reversal keeps every link with its multiplicity |
| Checking.DiffExample | src/functions.ts:70-76 | with old list [a,b] and candidates [c,a,d,b] the new links are [c,d], announced d then c |
| Checking.CycleFetchFailed | src/functions.ts:65-66 | without a document the cycle changes neither list and announces nothing |
| Checking.CyclePersistsSnapshot | src/functions.ts:78 | after a successful cycle the persisted list is exactly the candidate list, whatever the state before |
| Checking.CycleAppendsOnly | src/functions.ts:73-74 | the in-memory list after a cycle is the list before it followed by the announced links; nothing is removed or reordered |
| Checking.CycleNotificationOrder | src/functions.ts:73-76 | the callback is called once per new link, in reverse candidate order |
| Checking.CycleNotifiesNewOnly | src/functions.ts:70-76 | a link is announced as many times as it is a candidate when the old list lacks it, and never when the old list holds it |
| Checking.CycleMembership | src/functions.ts:70-74 | after a successful cycle the in-memory list holds exactly its former links and every candidate |
| Checking.KnownNeverNotified | src/functions.ts:70-76 | a link already in the in-memory list is never announced by a cycle and stays in the list |
| Checking.CycleThenQuiet | src/functions.ts:64-80 | a second cycle on the same page right after a successful one announces nothing and changes nothing |
| Checking.RestartForgetsDelisted | src/functions.ts:2 | the file holds only the latest snapshot: after a restart, a link absent from the previous page that reappears is announced again |
| Checking.Checker.constructor | src/functions.ts:2 | at start-up the in-memory list is the persisted list, and nothing has been announced |
| Checking.Checker.Check | src/functions.ts:64-80 | one cycle leaves the in-memory list, the file contents and the announcement log exactly as `Cycle` describes, and keeps the in-memory list equal to the start-up list followed by every announcement |

## Left out

- `fetchPage` (src/functions.ts:12-25): a network `fetch` followed by JSDOM parsing, both foreign code. Its result is the `page` parameter of `Checker.Check`: `None` for a failed fetch, `Some(anchors)` for a document.
- The DOM API (`getElementsByTagName`, `getAttribute`, `className`, `childElementCount`): foreign code, replaced by the `Anchor` record. The model assumes that these calls return what the record holds.
- `crossPost` and `sendMessage` (src/functions.ts:86-135): thin wrappers over the Discord client, with permission checks and `process.exit`. The callback they implement is the ghost log `notified`. A callback that fails or throws is not modelled; in the model every call is recorded.
- `console.log`, `console.error` and the timestamp from `new Date()` (src/functions.ts:72): logging and the clock, with no effect on state.
- `fs.writeFileSync` and `JSON.stringify` (src/functions.ts:78): the write is an assignment to `persisted`. Serialisation, partial writes and file errors are not modelled.
- Checking.Checker.constructor: assumes that the file read at start-up is the file `check` writes. The import of `./oldAnimeList.json` (src/functions.ts:2) resolves relative to the module, while the write to `./src/oldAnimeList.json` (src/functions.ts:78) resolves relative to the working directory. They coincide only when the process runs from the repository root on the uncompiled sources. Otherwise a restart reloads a list that `check` never wrote, and `RestartForgetsDelisted` does not describe the running program.
- Promise sequencing: a cycle is one synchronous method, so overlapping cycles are not modelled.
- Checking.Reversed: `newAnimes.reverse()` reverses the array in place. The model computes the reversed sequence as a value, because nothing reads `newAnimes` afterwards.
- Strings.Includes: JavaScript compares UTF-16 code units. The model compares Dafny characters and does no normalisation.

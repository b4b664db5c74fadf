# DOI Batch Resolver — a verified model of its core

DOI Batch Resolver takes pasted bibliography text, splits it into reference
entries and looks up a DOI for each entry in the Crossref metadata service. It
runs at most three lookups at a time and shows each entry's progress and
result. This project models three parts of it in Dafny and proves what they
promise.

- **The parser** (`parseReferences`, module `Parser`). The text is split on
  `'\n'`. A line whose first visible characters are a bracketed number `[n]`
  opens a new entry. Later lines are continuations of the open entry. Lines
  before the first marker are dropped. The method `ParseReferences` keeps the
  source's loop, with its counter, buffer and output list. It is proved equal
  to `ParseSpec`, an independent definition that takes entries from the
  positions of the marker lines. The properties are then proved about
  `ParseSpec`.
- **The scheduler** (`processQueue`, `next` and `handleProcess`, module
  `Scheduler`). It is the class `BatchRun`, whose fields are the closure
  variables of `processQueue`:
  - the queue snapshot;
  - the displayed `items`;
  - the cursor `index`;
  - the counter `activeRequests`;
  - the list of queries sent, in order;
  - the number of times the run's promise was resolved.

  `HandleProcess` parses, queues and calls `next` for the first time. `Next`
  and `Fill` are `next` and its fill loop. `Complete(i, outcome)` is one lookup
  finishing: its `then` or `catch` update, then the `finally` decrement and
  the call of `next`. The result of the lookup is the parameter `outcome`. The
  invariant `Accounts` states that:
  - the references before the cursor have been admitted;
  - the rest are untouched and QUEUED;
  - the counter equals the number of LOADING items and never exceeds the limit;
  - one query was sent per admitted reference, in queue order.
- **The results panel** (`ResultsList`, module `Results`). This covers the
  "resolved" counter, the condition for showing a DOI link, and the text of
  "Copy Results". That text is proved to read back, line by line, as the
  position and the shown DOI of each item.

Two modules hold what these parts share:
- `Text` models the JavaScript string operations they use: `trim()`,
  `replace(/\s+/g, ' ')`, `split('\n')`, `join`, and number-to-decimal
  formatting. Whitespace is the ECMAScript set that both `\s` and `trim()`
  use.
- `Types` holds the record and status types.

Three points where the model states exactly what the code does:
- An ERROR carries `err.message` as it is. The model does not promise that it
  is non-empty, because the code does not ensure that.
- The query is the entry's text with the label and at most one following space
  removed. The text is normalised first, so no more whitespace can follow the
  label (`Parser.StripNormalized`).
- A line is a marker line by its first visible characters alone. Whatever
  follows the label on that line adds no condition (`Parser.MarkerMatch`).

## Model

| member | source | states |
|---|---|---|
| Text.Trim | utils/parser.ts:47 | `line.trim()` yields a string with no whitespace at either end |
| Text.TrimFacts | utils/parser.ts:47 | trimming keeps every visible character in order, keeps single-space spacing, and leaves trimmed text unchanged |
| Text.CollapseFacts | utils/parser.ts:24 | `replace(/\s+/g, ' ')` leaves no whitespace run longer than one and no whitespace other than a space; it keeps the visible characters, and is empty only for empty input |
| Text.CollapseWords | utils/parser.ts:24 | the collapse keeps the words (the maximal runs of visible characters): no whitespace run between two words disappears, so no two words are run together |
| Text.CollapseEnd | utils/parser.ts:24 | a trailing whitespace run becomes a space as well: the collapse of non-empty text is non-empty and ends with whitespace exactly when the text does |
| Text.CollapseIdentity | utils/parser.ts:24 | collapsing text that already has single spaces only changes nothing |
| Text.Normalize | utils/parser.ts:24 | the collapse-trim pipeline yields normal form (trimmed, single spaces), keeps the visible characters, and is the identity on normal-form text |
| Text.NormalizeWords | utils/parser.ts:24 | `replace(/\s+/g, ' ').trim()` is exactly the words of its input joined by single spaces |
| Text.WordsJoin | utils/parser.ts:24 | words joined by single spaces split back into the same words, so normalising keeps the words |
| Text.SplitLinesFacts | utils/parser.ts:11 | `split('\n')` yields pieces without newline that join back with `'\n'` to the input |
| Text.SplitJoinLines | components/ResultsList.tsx:38 | lines without newline joined with `'\n'` split back into exactly those lines |
| Text.NatToString | utils/parser.ts:30 | decimal formatting gives a non-empty digit string with no leading zero |
| Text.NatToStringRoundTrip | components/ResultsList.tsx:36 | reading the decimal digits of a formatted number gives the number back |
| Text.NatToStringInjective | utils/parser.ts:30 | different numbers format differently |
| Types.WithStatusBounds | components/ResultsList.tsx:28 | the filtered list is no longer than the list; it is empty iff no item has the status, and full iff every item has it |
| Types.WithStatusAll | components/ResultsList.tsx:28 | filtering a list whose items all have the status keeps the list |
| Types.WithStatusUpdate | App.tsx:26-28 | replacing one item changes the count of a status by that item's old and new status only |
| Parser.MarkerMatch | utils/parser.ts:19 | a line is a marker line iff it is some whitespace followed by `[`, one or more digits and `]`; the trailing `\s*(.*)` adds no condition |
| Parser.LabelLenFacts | utils/parser.ts:19 | the length computed for `^\[\d+\]` is either 0 or the length of a bracketed-digits label, and it is the only such length |
| Parser.StripLabelFacts | utils/parser.ts:27 | `replace(/^\[\d+\]\s*/, '')` returns a suffix of its input; without a label it returns the input, and with one it removes the label and whitespace only, leaving no leading whitespace |
| Parser.MakeItem | utils/parser.ts:21-36 | a flushed buffer becomes item `ref-n`, IDLE with no result, whose text is the words of the space-joined lines joined by single spaces; so it is in normal form and keeps the words and the visible characters of the lines |
| Parser.ParseReferences | utils/parser.ts:8-60 | the loop over the lines (flush at each marker line, continuation lines appended only once an entry is open, final flush) returns exactly `ParseSpec(text)`, the entries by marker positions; empty text gives no items |
| Parser.RunIsEntries | utils/parser.ts:38-57 | the line-by-line fold followed by the last flush equals the independent definition by marker positions |
| Parser.RunState | utils/parser.ts:38-54 | after any prefix of the lines: the counter equals the number of marker lines seen, the closed entries have been flushed, and the buffer holds the trimmed lines of the open entry |
| Parser.EntryBounds | utils/parser.ts:39-47 | each entry starts at a marker line and ends where the next entry starts, or at the end of the text |
| Parser.EntryInner | utils/parser.ts:48-52 | no line inside an entry after its first is a marker line, so continuation lines are exactly the non-marker lines that follow it |
| Parser.LeadingLinesDropped | utils/parser.ts:49-52 | a line before the first marker (or any line, when there is none) is not a marker line and lies before the start of every entry, so it belongs to no entry |
| Parser.ParseCount | utils/parser.ts:38-57 | one item per marker line; no item at all exactly when no line is a marker line |
| Parser.EntryItem | utils/parser.ts:29-34 | item `k` has id `ref-(k+1)`, is IDLE with no result, and is made from the trimmed lines of entry `k`, whose first line is its marker line |
| Parser.EntryItemOf | utils/parser.ts:24-27 | the entry's text is the words of its raw lines joined by single spaces, so lines and words stay apart; it is in normal form, holds exactly the visible characters of the raw lines, and starts with the marker's label; the query is that text without the label and at most one following space, with no leading whitespace |
| Parser.MakeItemLabel | utils/parser.ts:47 | the text of an entry starts with the label of its marker line |
| Parser.StripNormalized | utils/parser.ts:27 | on normal-form text, stripping the label removes the label and at most one space |
| Parser.RefIdInjective | utils/parser.ts:30 | `ref-a` equals `ref-b` only when a equals b |
| Parser.MakeItemsFresh | utils/parser.ts:29-34 | items numbered from 1 are IDLE with no result and carry the distinct ids `ref-1`, `ref-2`, ... in order |
| Parser.ParseIds | utils/parser.ts:14-45 | every parsed item is IDLE with no result, and parsed ids are `ref-1`, `ref-2`, ... in order and pairwise distinct |
| Scheduler.FirstTitle | App.tsx:54 | the title stored on success is the first title whenever there is a non-empty one, and the placeholder when the titles are missing or empty or the first is empty; never empty |
| Scheduler.ApplyFields | App.tsx:27 | `{ ...item, ...updates }` replaces each of status, DOI, title, score and error message when the update has it and keeps it otherwise; the id, the text and the query are kept |
| Scheduler.OutcomeResult | App.tsx:49-66 | a lookup outcome turns a LOADING item into a terminal one: a match gives SUCCESS with the work's DOI, first title and score; no match gives NOT_FOUND; an error gives ERROR with its message; other result fields stay empty |
| Scheduler.UpdateItemStatus | App.tsx:26-28 | the update by id keeps length, order and ids and leaves items with another id untouched |
| Scheduler.UpdateAt | App.tsx:26-28 | with distinct ids, updating by the id of item `k` changes item `k` alone |
| Scheduler.InitQueued | App.tsx:86 | queuing maps every parsed item, one for one and in order, to the same item with only its status changed to QUEUED |
| Scheduler.InitQueuedFacts | App.tsx:86 | queuing keeps the ids distinct, and every queued item is QUEUED |
| Scheduler.Start | App.tsx:21-24 | at the start (cursor 0, no request in flight, no query sent) the run's bookkeeping holds |
| Scheduler.AdmitStep | App.tsx:40-48 | admitting the reference at the cursor marks it alone LOADING, sends its query, and keeps the bookkeeping with cursor and counter one higher |
| Scheduler.FillAccounts | App.tsx:39-71 | admitting references `start` to `stop` in order, while slots are free, marks exactly them LOADING, counts them active and sends their queries in order |
| Scheduler.SettleStep | App.tsx:49-68 | settling a LOADING reference changes it alone, makes it terminal and frees its slot, keeping the bookkeeping |
| Scheduler.Pending | App.tsx:33 | the reference at the cursor is still QUEUED, and a positive counter means some reference is LOADING |
| Scheduler.DoneIffAllSettled | App.tsx:33-35 | the done condition (cursor at the end, no request in flight) holds exactly when every reference is terminal |
| Scheduler.BatchRun.HandleProcess | App.tsx:79-93 | the queue is the parsed items made QUEUED; the first `next` admits the first min(3, n) references, marks them LOADING and counts them active; an empty run resolves at once |
| Scheduler.BatchRun.Next | App.tsx:31-72 | when done, resolves the promise once and changes nothing else; otherwise admits references in queue order until the limit or the end of the queue, marking them LOADING and sending their queries in that order |
| Scheduler.BatchRun.Fill | App.tsx:39-71 | the fill loop stops with no free slot or no reference left, admits exactly min(free slots, references left) references in order, and keeps the bookkeeping |
| Scheduler.BatchRun.Settle | App.tsx:49-68 | the outcome's update applies to the finished reference alone, making it terminal, and the counter drops by one |
| Scheduler.BatchRun.Complete | App.tsx:49-70 | a finished lookup settles its reference and admits the next queued one if any (its query sent), so the counter stays at the limit while references remain; every status moves only along QUEUED → LOADING → terminal; the promise resolves exactly once, when every reference is settled |
| Scheduler.SettleAdmitAdvances | App.tsx:45-65 | settling one LOADING reference and admitting one QUEUED reference moves every status along its path and no further |
| Results.SuccessCount | components/ResultsList.tsx:28 | the resolved count is at most the number of items; it is zero iff no item is SUCCESS, and the total iff every item is |
| Results.SettledCounts | components/ResultsList.tsx:28 | once every item is terminal, resolved, not-found and failed items account for the whole list |
| Results.ShownDoi | components/ResultsList.tsx:35 | an item shows a DOI (the same condition as the link at line 67) iff it is SUCCESS with a non-empty DOI, and the shown DOI is the item's |
| Results.CopyLineRoundTrip | components/ResultsList.tsx:33-36 | each copied line reads back as the item's 1-based position and its shown DOI, or "not identified" |
| Results.CopyLineNoNewline | components/ResultsList.tsx:35-36 | a copied line contains a newline only where the DOI it shows does |
| Results.CopyTextRoundTrip | components/ResultsList.tsx:32-38 | the copied text splits back into one line per item, in list order, each reading back as its position and shown DOI |
| Results.CopyTextEmpty | components/ResultsList.tsx:32-38 | the copied text is empty exactly when there are no items |

## Left out

- `fetchDoi` (services/crossrefService.ts): building the request URL, the
  `mailto` parameter and its `@` check, the HTTP call and the JSON decoding are
  not modelled. Their result is the `outcome` parameter of `Complete`:
  - a work (the first of `items`);
  - no match (empty `items`);
  - a failure with its message (`API Error: <status>` for a non-OK response,
    or any thrown error).

  The `console.error` logging is left out too.
- Asynchrony: every lookup's completion is one atomic `Complete`. The order of
  completions is the caller's choice, so every order is covered. The
  microtask interleaving between a `then` handler and its `finally` is not
  modelled. `items` is the state after React applies the queued functional
  `setItems` updates in call order; render timing and batching are left out.
- `isProcessing`, `abortControllerRef` and `resultsMap`: the flag only drives
  the UI, and the ref and the map are never used for the run.
- `currentLabel` (utils/parser.ts:16, 46): it is assigned but never read.
- The components' rendering, icons, the example-data loader
  (components/InputArea.tsx), `navigator.clipboard` and `alert`. `ResultsList`
  returning `null` for an empty list (no panel and no copy button) is not
  modelled.
- `score` is an opaque real that is only copied; the JavaScript number format
  is not modelled.
- The work fields `author`, `container-title` and `published` are not read by
  the core and are not modelled.
- Results.CopyTextRoundTrip: it requires that no shown DOI contains a newline
  and that the list is non-empty. The copy code does neither check; with such
  a DOI the lines do not split back one per item.

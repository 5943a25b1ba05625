# Search history and research response handling, modelled in Dafny

This project models the two service modules of the research assistant UI. Everything else in
the repository is React presentation.

- **Search history store** (`SearchHistoryService`) keeps past searches newest first in one
  `localStorage` slot. `saveSearch` prepends an entry and keeps the first 50.
  `getSearchHistory` reads the slot and degrades to an empty list. `deleteSearchItem` drops
  every entry with a given id. `clearHistory` removes the slot. In `search_history.dfy` the
  slot is the field `stored` of class `SearchHistoryService`, and each static method is a
  method of that class. The class is specified through `History()`, the list the store
  presents, and the pure list operations behind it (`Saved`, `Without`, `Read`).
- **Article search** (`ResearchService.searchArticles`) covers the steps that need no
  network. It checks the stored API key, classifies the upstream response, and extracts the
  `[ ... ]` span from the model's text with `/\[[\s\S]*\]/`. It then normalises every parsed
  article, field by field, with `||` defaults and `Array.isArray` checks. `research_service.dfy`
  models these steps as pure functions. `js_value.dfy` models JavaScript values and their
  truthiness. `decimal.dfy` models `Number#toString` for the clock values and indexes that go
  into ids and messages.

Clocks and I/O are inputs:

- `Date.now()` and `new Date()` in `saveSearch` are two separate clock readings, `clockMs` and
  `nowMs`.
- Inside the `.map`, `Date.now()` and `new Date().getFullYear()` are read again for each
  element, so they are functions of the element index (`clock`, `yearAt`).
- `JSON.parse` on the extracted text is the parameter `parse`, which returns `None` where it
  throws.
- The HTTP exchange is the `Response` it produced: status, status text and message content.
- The persisted history is held as the value that `JSON.parse` would rebuild from the slot. A
  `Date` is stored as the ISO text of its instant, or as `null` when it is invalid. On reading,
  `new Date(...)` rebuilds it, so a valid instant comes back unchanged and `null` becomes the
  epoch.

The model follows what the code does, including where a cleaner design would behave
differently:

- Relevance scores are not clamped. Any truthy score, such as 2.5, passes through, and only a
  falsy one becomes 0.5.
- There is no explanation or follow-up handling. `searchArticles` returns only `Article[]`.
- The defaults are "Untitled Article", "Unknown Journal", "Unknown Author" and
  "No summary available".
- An `authors` value that is an empty array passes through unchanged. Only a value that is
  not an array becomes `["Unknown Author"]`.
- `searchArticles` does no check of its own for an empty query. The query only goes into the
  prompt text, which is not modelled.
- `deleteSearchItem` returns nothing and removes every entry that carries the id.
- Reading the history does not validate or discard individual entries. A slot that cannot be
  read yields an empty list as a whole.
- `ResearchService` does not write to the history itself.

## Model

| member | source | states |
|---|---|---|
| `SearchHistory.SearchHistoryService.SaveSearch` | src/services/SearchHistoryService.ts:14-26 | the new first entry has id = clock rendered in decimal, the query, `new Date()` and the result; the length becomes min(old+1, 50); entries 1.. are the old first min(old, 49) in order; the slot holds the serialised list and stays within capacity |
| `SearchHistory.SearchHistoryService.GetSearchHistory` | src/services/SearchHistoryService.ts:28-41 | returns `History()` and modifies nothing; [] for an absent or unreadable slot; otherwise one entry per stored entry, each with a valid rebuilt timestamp |
| `SearchHistory.SearchHistoryService.DeleteSearchItem` | src/services/SearchHistoryService.ts:43-47 | the slot afterwards holds exactly the old list without the entries carrying `id`; the capacity bound is preserved |
| `SearchHistory.SearchHistoryService.ClearHistory` | src/services/SearchHistoryService.ts:49-51 | the slot is removed whatever it held, so the history reads as [] and a second clear leaves the same state |
| `SearchHistory.Read` | src/services/SearchHistoryService.ts:28-41 | no slot or an unreadable slot reads as []; a readable slot reads as one entry per stored entry; every timestamp read back is a valid instant |
| `SearchHistory.DateToJson` | src/services/SearchHistoryService.ts:25 | `JSON.stringify` writes ISO text for a valid date, carrying its instant, and `null` exactly for an Invalid Date |
| `SearchHistory.ReviveDate` | src/services/SearchHistoryService.ts:36 | `new Date(item.timestamp)` always yields a valid instant: ISO text gives back the instant it denotes, and serialised `null` becomes the epoch |
| `SearchHistory.Serialize` | src/services/SearchHistoryService.ts:25 | stringifying an entry keeps its id, query and result, and serialises its date |
| `SearchHistory.Deserialize` | src/services/SearchHistoryService.ts:34-37 | the spread keeps id, query and result; the timestamp is rebuilt by `new Date(...)` and is always valid |
| `SearchHistory.DateRoundTrip` | src/services/SearchHistoryService.ts:18-36 | a date survives stringify-then-revive exactly when it is a valid instant |
| `SearchHistory.ReadAfterWrite` | src/services/SearchHistoryService.ts:25-37 | writing a list with valid timestamps and reading it back gives the identical list in the same order |
| `SearchHistory.Take` | src/services/SearchHistoryService.ts:23 | `slice(0, n)` keeps min(n, length) elements and they form a prefix |
| `SearchHistory.Saved` | src/services/SearchHistoryService.ts:22-23 | prepend-and-slice puts the new entry first and keeps the previous first min(old, 49) entries after it, with length min(old+1, 50) |
| `SearchHistory.SavedWhenFull` | src/services/SearchHistoryService.ts:23 | on a full list a save evicts exactly the last (oldest) entry |
| `SearchHistory.TakeAfterPrefix` | src/services/SearchHistoryService.ts:23 | slicing before a later prepend-and-slice changes nothing |
| `SearchHistory.SaveAllNewestFirst` | src/services/SearchHistoryService.ts:14-26 | any series of saves onto a list within capacity leaves the newest 50 entries, newest first, followed by the old list |
| `SearchHistory.FirstSavedIsEvicted` | src/services/SearchHistoryService.ts:23 | 51 saves onto an empty list leave 50 entries, and the first one saved is the one evicted |
| `SearchHistory.Without` | src/services/SearchHistoryService.ts:45 | an entry survives exactly when it was in the list and its id differs; the list does not grow |
| `SearchHistory.WithoutConcat` | src/services/SearchHistoryService.ts:45 | filtering distributes over concatenation, so survivors keep their relative order |
| `SearchHistory.WithoutCounts` | src/services/SearchHistoryService.ts:45 | every entry with the id is removed, not just one; every other entry keeps its multiplicity |
| `SearchHistory.WithoutUnknownId` | src/services/SearchHistoryService.ts:45 | an id that no entry carries leaves the list unchanged |
| `Decimal.NatToString` | src/services/SearchHistoryService.ts:16 | `toString()` of a non-negative integer is a non-empty digit string, with a leading zero only for 0 |
| `Decimal.ParseNatToString` | src/services/SearchHistoryService.ts:16 | reading the decimal rendering back gives the number (round trip) |
| `Decimal.NatToStringInjective` | src/services/SearchHistoryService.ts:16 | distinct clock values give distinct id strings |
| `Decimal.SplitAtSeparator` | src/services/ResearchService.ts:97 | a numeral followed by a non-digit separator splits uniquely, so both the number and the rest agree |
| `ResearchService.GetApiKey` | src/services/ResearchService.ts:7-13 | fails with the "key not found" error exactly when no key or an empty key is stored; otherwise returns the stored key |
| `ResearchService.CheckResponse` | src/services/ResearchService.ts:73-85 | non-OK with 401 gives the invalid-key error; any other non-OK status gives a failure carrying that status and text; OK with falsy content gives "No response content"; truthy non-text content fails at `.match`; success exactly for non-empty text content, which it returns |
| `ResearchService.Message` | src/services/ResearchService.ts:10-90 | every error message is non-empty, and a failed request's message starts with "API request failed: " |
| `ResearchService.Response.Ok` | src/services/ResearchService.ts:73 | `response.ok` holds exactly for a 2xx status, so a 401 is never OK |
| `ResearchService.RequestFailedMessageCarriesStatus` | src/services/ResearchService.ts:77 | the "API request failed" message determines the status and status text it was built from |
| `ResearchService.FirstIndexOf` | src/services/ResearchService.ts:88 | the result is the first position of the character, and None means the character does not occur |
| `ResearchService.LastIndexOf` | src/services/ResearchService.ts:88 | the result is the last position of the character, and None means the character does not occur |
| `ResearchService.ExtractJsonArray` | src/services/ResearchService.ts:88-91 | a match is at least two characters long, starts with `[` and ends with `]` |
| `ResearchService.ExtractionIsLeftmostLongest` | src/services/ResearchService.ts:88 | extraction succeeds iff some `[` has a `]` after it; the result is the substring from the leftmost such `[` to the rightmost such `]` |
| `ResearchService.NormalizeArticle` | src/services/ResearchService.ts:96-106 | fails exactly on a null or undefined element; otherwise a truthy id/title/journal/year/summary/relevanceScore/doi is kept unchanged (scores unclamped), a falsy one becomes its default; authors and keyFindings are kept when they are arrays and become ["Unknown Author"] or [] otherwise |
| `ResearchService.NormalizedIsPopulated` | src/services/ResearchService.ts:95-106 | every normalised article has all required fields truthy, both list fields arrays, and `doi` absent or truthy |
| `ResearchService.NormalizeIsIdempotent` | src/services/ResearchService.ts:96-106 | normalising an already populated article gives it back unchanged, at any index and clock |
| `ResearchService.NormalizeAll` | src/services/ResearchService.ts:96 | succeeds iff no element is null or undefined; the output has the input's length, and element i is the callback applied to element i at index i; a failure names the first null element |
| `ResearchService.SynthesisedId` | src/services/ResearchService.ts:97 | a synthesised id is a non-empty string starting with "article-", so it is truthy |
| `ResearchService.SynthesisedIdInjective` | src/services/ResearchService.ts:97 | a synthesised id determines the clock value and the index it was built from |
| `ResearchService.SynthesisedIdsDiffer` | src/services/ResearchService.ts:96-97 | within one call, two elements without a truthy id get different ids, whatever the clock read |
| `ResearchService.SearchArticles` | src/services/ResearchService.ts:15-112 | a missing or empty key fails first, whatever the response; then the status and content checks; then a missing `[...]` span, a parse failure or a parsed non-array each give their own error; otherwise the result is the normalisation of the parsed array, one article per element. A real `JSON.parse` never yields a non-array from a text that starts with `[` and ends with `]`, so the `NotAnArray` error exists only because `parse` is left abstract |

## Left out

- The HTTP request (`fetch`, its headers and body, `response.json()` and the
  `choices[0]?.message?.content` walk) is not modelled. Only its outcome is an input. A
  rejected `fetch` and a `choices` field that is missing altogether, which throws before the
  content check, are not modelled.
- Storage reads and writes are assumed never to throw. The model does not capture
  `localStorage.getItem` failing when storage is blocked (the history read and the API-key
  read), nor `setItem` failing when the quota is exceeded, which would propagate out of
  `saveSearch` and `deleteSearchItem` and leave the slot as it was.
- The prompt wording, the model name, `temperature` and `max_tokens` are left out. They are
  constant request data with no behaviour of their own.
- `JSON.parse` is the parameter `parse`, and its text grammar is not modelled. The history
  slot stores the parsed value, not the text. Every text the read cannot use is one
  `Unreadable` value: text that fails to parse, a value that is not an array, and an array
  with `null` in it.
- `SearchHistory.Read`: non-null entries of the wrong shape (a number, or an object missing
  fields) cannot be represented. JavaScript would hand them back unvalidated.
- `SearchHistory.ReviveDate`: the ISO text of a date is represented by the instant it
  denotes. The range limit of `Date` (±8.64e15 ms) is not modelled.
- The stored `ResearchResult` is kept as a value across serialisation. An absent `doi` is
  dropped by `JSON.stringify` and reads back as absent, so nothing observable is lost.
- `Decimal.NatToString`: it does not model JavaScript's exponent notation for integers of
  10^21 and above, or negative values. Clock readings and indexes are far below that and
  non-negative.
- JavaScript numbers are modelled as reals plus `NaN`. Infinities and the distinction
  between `-0` and `0` are not modelled. Both zeros are falsy, which is the only way the
  code observes them.
- `getFullYear` is not derived from the clock. The year is an input for each element, and
  time zones are not modelled.
- `ResearchService.Message`: the engine's `TypeError` and `SyntaxError` messages are
  represented only by their class name.
- `console.error` and the rethrow in the `catch` at the end of `searchArticles` have no
  effect on the result and are not modelled.
- All React components, pages and hooks are presentation, a credential dialog or a mock
  authentication context, and are not part of this model. The `Article` shape in
  `src/pages/Index.tsx` is the one exception: it is reflected in `ResearchService.Article`.
  Each of its fields holds whatever value the normalisation produced, because the code does
  not check the declared TypeScript types at run time.
- `src/services/SearchHistoryService.ts:2` imports `ResearchResult` from a page that does
  not export it. The stored shape follows the `ResearchResult` declared in
  `src/components/ResearchResponse.tsx`.

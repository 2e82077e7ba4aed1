# Quote generator widget: the list logic, verified

The repository is a browser "quote generator" widget. Its handlers mix a small amount of list
logic with DOM writes, `localStorage` and `fetch`. This project models that list logic in
Dafny, without the DOM, and proves what it does. Two versions of the widget are modelled.

**The full widget (`dom-manipulation/script.js`).** It keeps a store of `{id, text, category}`
records. The model covers:

- adding a quote: the text is trimmed and must not be blank, a blank category becomes
  "Uncategorized", and the new id is the largest id plus one;
- the category list: distinct non-empty categories, in order of first occurrence;
- the restored dropdown selection;
- filtering by category, where "all" (or an empty value) means no filter;
- importing an already parsed JSON array, with a fallback for each field;
- mapping the server's posts to quotes: at most 20, all in category "Server";
- the incoming-change test and `detectConflict`;
- the three ways to resolve a conflict: use the server list, keep the local store, or merge
  (union by text, server records first, ids renumbered 1..n).

**The earlier variant (`dom-manipulation/test.js`).** Its records have no id. An add needs
both fields to be non-empty and does no trimming. The category list keeps an empty
category. An import appends the parsed records verbatim.

Modules:

- `Seqs`: generic filter, insertion-ordered de-duplication, subsequence and first index.
- `JsText`: JavaScript's `trim` and the decimal rendering of a number.
- `Wrappers`: `Option`.
- `Quotes`: the full widget's records and pure rules.
- `Sync`: server mapping, conflict detection and merge.
- `Widget`: class `QuoteStore`. Its `seq<Quote>` field `quotes` is the source's `quotesArray`,
  and its methods are the handlers that change it.
- `Legacy`: the earlier variant, with class `LegacyStore` and its rules.

Conventions:

- Ids are `nat`. The id 0 stands for a missing or falsy JavaScript id, which is when the
  `||` fallbacks apply.
- A string field that is missing or falsy is `""`.
- A `null` element of an imported array is `NullElement`.

Behaviour of the code the model follows:

- The category list is in first-occurrence order. It is not sorted.
- An imported element without a category gets the category "Imported".
- A `null` element is not skipped. Reading its fields throws, so the import fails, but the
  elements appended before it stay in the in-memory store.
- `detectConflict(S, S)` is false whenever the ids in `S` are unique. With duplicate ids it
  can be true, because the id map keeps only the last record with each id
  (`Sync.DuplicateIdsConflictWithThemselves`).
- Records carry no timestamp. A merge never updates a record by id: it keeps one record per
  text.

## Model

| member | source | states |
|---|---|---|
| `JsText.Trim` | dom-manipulation/script.js:92-93 | `trim()` gives the empty string exactly when the input is all whitespace; otherwise the result starts and ends with a non-whitespace character |
| `JsText.TrimIsSlice` | dom-manipulation/script.js:92 | the trimmed text is a contiguous slice of the input, with only whitespace before and after it |
| `JsText.TrimIdempotent` | dom-manipulation/script.js:92-93 | trimming twice gives the same result as trimming once |
| `JsText.DecimalRoundTrip` | dom-manipulation/script.js:159 | reading back the digits that number a placeholder (`Imported quote ${i+1}`) gives the number, so different positions get different placeholders |
| `JsText.DecimalString` | dom-manipulation/script.js:159 | `${n}` is a non-empty string of decimal digits that starts with '0' only for n = 0, so there is no leading zero |
| `Quotes.MaxId` | dom-manipulation/script.js:99 | `Math.max` of the ids is at least every id and equal to one of them |
| `Quotes.NextId` | dom-manipulation/script.js:99 | a new id is greater than every id in the store: exactly max + 1 for a non-empty store, and 1 for an empty one |
| `Quotes.NewQuote` | dom-manipulation/script.js:91-100 | a text that is blank after trimming is rejected. Otherwise the record has the trimmed text, the trimmed category or "Uncategorized" when that is blank, and the id `NextId` of the store, which no record uses |
| `Quotes.AddKeepsIdsUnique` | dom-manipulation/script.js:99-101 | appending the new quote to a store with unique ids keeps ids unique |
| `Seqs.DistinctFirstSeenOrder` | dom-manipulation/script.js:111 | `[...new Set(xs)]` lists elements in the order of their first occurrence |
| `Quotes.Categories` | dom-manipulation/script.js:111 | the category list has no duplicates and lists exactly the non-empty categories of the store, in order of first occurrence |
| `Quotes.CategoriesAfterAdd` | dom-manipulation/script.js:101-111 | after an add, the list is unchanged, or the new non-empty category is appended at its end |
| `Quotes.SelectedFilter` | dom-manipulation/script.js:114-125 | the restored value is always "all" or a listed category. The saved selection wins when it is valid, then the previous value. A saved selection that is no longer listed gives "all" |
| `Quotes.SelectionSurvivesAdd` | dom-manipulation/script.js:123-125 | a listed selection is still restored after a quote is added |
| `Quotes.FilterQuotes` | dom-manipulation/script.js:128-131 | "all" or an empty value shows the whole store. Any other value shows exactly the quotes of that category, as a subsequence of the store |
| `Quotes.FilterAfterAdd` | dom-manipulation/script.js:131 | after an add, the view is the old view, followed by the new quote when it matches |
| `Quotes.FilterQuotesIdempotent` | dom-manipulation/script.js:131 | filtering a filtered list again changes nothing |
| `Quotes.ImportedQuote` | dom-manipulation/script.js:157-161 | element i gets its own id, else nextId + i. Its text is the element's text, else its title, else "Imported quote i+1". Its category is the element's own, else "Imported". The result has a positive id and non-empty fields |
| `Quotes.ReadablePrefix` | dom-manipulation/script.js:156-163 | the import appends elements up to the first `null` element, where reading a field throws |
| `Quotes.ImportFallbackIdsFresh` | dom-manipulation/script.js:155-158 | a fallback id is not used in the store, and no two fallback ids are equal |
| `Widget.QuoteStore.constructor` | dom-manipulation/script.js:34-38 | the store starts as the stored array, or as the three default quotes when nothing is stored |
| `Widget.QuoteStore.AddQuote` | dom-manipulation/script.js:91-101 | a blank text leaves the store unchanged. Otherwise the new quote is appended and the earlier records are untouched. Unique ids stay unique |
| `Widget.QuoteStore.ImportFromJsonFile` | dom-manipulation/script.js:150-172 | a non-array leaves the store unchanged. Otherwise the store becomes the old store followed by one record per readable element (`ImportedQuote`), and success means no element was `null` |
| `Widget.QuoteStore.UseServer` | dom-manipulation/script.js:215-216 | the store becomes the server list |
| `Widget.QuoteStore.KeepLocal` | dom-manipulation/script.js:222-224 | the store is left unchanged |
| `Widget.QuoteStore.Merge` | dom-manipulation/script.js:228-240 | the store becomes the merge of itself with the server list: no text twice, ids 1..n |
| `Sync.ServerQuote` | dom-manipulation/script.js:184-189 | the post's id, else idx+1. The post's title, else "Server quote idx+1". The category is always "Server" |
| `Sync.ServerQuotes` | dom-manipulation/script.js:184-189 | one quote per post for the first min(n, 20) posts, in order: quote i is `ServerQuote(post i, i)`, with its id and title fallbacks, in category "Server" with non-empty text |
| `Sync.ServerQuotesIgnoreTail` | dom-manipulation/script.js:184 | posts after the twentieth do not change the result |
| `Sync.ServerIdsUnique` | dom-manipulation/script.js:186 | posts with distinct non-zero ids give quotes with distinct ids |
| `Sync.ById` | dom-manipulation/script.js:202 | the id map has exactly the local ids as keys, and each maps to a local record with that id |
| `Sync.ByIdFindsEach` | dom-manipulation/script.js:202 | when local ids are unique, every local record is found under its own id |
| `Sync.DetectConflict` | dom-manipulation/script.js:197-209 | the loop with early returns gives exactly `Conflict`: the lengths differ, or some server record has no local record with its id, or differs from it in text or category |
| `Sync.NoConflictIff` | dom-manipulation/script.js:197-209 | when local ids are unique: no conflict exactly when the lengths are equal and every server record occurs locally |
| `Sync.NoConflictWithItself` | dom-manipulation/script.js:197-209 | a snapshot with unique ids does not conflict with itself |
| `Sync.DuplicateIdsConflictWithThemselves` | dom-manipulation/script.js:202-206 | a snapshot with two records under one id conflicts with itself |
| `Sync.IncomingChange` | dom-manipulation/script.js:274 | the fetched list is not an incoming change exactly when a previous snapshot exists and equals it |
| `Sync.FirstByText` | dom-manipulation/script.js:230-237 | the union by text has no text twice, takes its records from the input, covers every input text, and is no longer than the input |
| `Sync.FirstByTextOrder` | dom-manipulation/script.js:230-237 | kept records come in the order their texts first occur in the input |
| `Sync.FirstByTextKeepsFirst` | dom-manipulation/script.js:230-237 | each kept record is the first record in the input with its text |
| `Sync.Renumber` | dom-manipulation/script.js:239 | the record at position i gets id i+1. Its text and category are unchanged |
| `Sync.MergedShape` | dom-manipulation/script.js:228-239 | the merge has no two records with the same text, at most server + local records, and ids 1..n in order |
| `Sync.MergedTexts` | dom-manipulation/script.js:228-237 | every text of either side is in the merge, and no other text is |
| `Sync.MergedServerWins` | dom-manipulation/script.js:232-237 | a text the server has keeps the category of the server's first record with it. A text only the local store has keeps the category of the first local record with it |
| `Sync.MergedServerFirst` | dom-manipulation/script.js:232-237 | every merged record whose text the server has comes before every record whose text only the local store has |
| `Sync.MergeExample` | dom-manipulation/script.js:228-239 | one local and one server record share an id but have different texts: they conflict, and the merge is [server record with id 1, local record with id 2] |
| `Sync.MergeQuotes` | dom-manipulation/script.js:228-239 | `onMerge`'s loops compute `Merged` of the local store and the server list |
| `Sync.UnionByText` | dom-manipulation/script.js:230-237 | the loop over the records, with its set of seen texts, computes `FirstByText` |
| `Sync.RenumberIds` | dom-manipulation/script.js:239 | the renumbering loop computes `Renumber` |
| `Legacy.LegacyStore.constructor` | dom-manipulation/test.js:6-53 | the store starts as the stored array, or as the eleven default quotes |
| `Legacy.LegacyStore.AddQuote` | dom-manipulation/test.js:99-107 | the add is rejected exactly when text or category is the empty string, and then the store is unchanged. Otherwise `{text, category}` is appended as given |
| `Legacy.LegacyStore.ImportFromJsonFile` | dom-manipulation/test.js:147-149 | the parsed records are appended verbatim after the existing ones |
| `Legacy.UniqueCategories` | dom-manipulation/test.js:185 | no duplicates, exactly the categories of the store with the empty one included, in order of first occurrence |
| `Legacy.UniqueCategoriesGrow` | dom-manipulation/test.js:185 | after an add or an import, the old category list is a prefix of the new one |
| `Legacy.RestoredSelection` | dom-manipulation/test.js:202-206 | the result is "all" or a listed category. It equals the current value exactly when that value is listed or is "all" |
| `Legacy.SelectionSurvivesAppend` | dom-manipulation/test.js:202-206 | a listed selection is still restored after an add or an import |
| `Legacy.FilterQuotes` | dom-manipulation/test.js:220-222 | "all" shows every quote. Any other value shows exactly the quotes of that category, as a subsequence of the store |
| `Legacy.FilterAfterAppend` | dom-manipulation/test.js:220-222 | the view of the store with appended records is the old view followed by the view of the new records |
| `Legacy.CategoriesCompared` | dom-manipulation/test.js:185 | for the same categories, the full widget's list is this variant's list with the empty category removed |
| `Legacy.EmptySelectionCompared` | dom-manipulation/test.js:220-222 | under an empty dropdown value, the full widget shows every quote, while this variant shows only quotes with an empty category |

## Left out

- DOM rendering and UI wiring are presentation only: `renderQuotes`, `showStatus`, `showConflictUI` (re-cloning the buttons), `hideConflictUI`, `createAddQuoteForm`, `showLastViewedQuote`, the alerts, and resetting the form inputs.
- `showRandomQuote` in both files depends on `Math.random` and on session storage.
- `localStorage` and `sessionStorage` are I/O. The model takes stored values as parameters (the constructors' `stored`, `SelectedFilter`'s `saved`). Saving after each change is not modelled.
- `exportQuotes` and the legacy export button only serialise the store to a download (`Blob`, object URL).
- `JSON.parse` and `JSON.stringify` are not modelled. Imports take an already parsed value. The snapshot comparison at dom-manipulation/script.js:274 is modelled as sequence equality.
- `fetch` and its error propagation in `fetchServerQuotes` are asynchronous I/O. Only the mapping of an already fetched array is modelled.
- `syncWithServer` after line 274 is cut off in the source. The conflict check that follows it, the updates of `lastServerSnapshot` and any polling timer are not visible, so they are not modelled.
- `restoreCategoryFilter` (dom-manipulation/test.js:246-255) sets a `<select>` to a saved value. What happens then depends on DOM rules for values that are not options.
- Widget.QuoteStore.Merge: the source assigns `m.id = i + 1` in place, which also renumbers the server and local objects the merged array shares. The model builds fresh records, so that aliasing is not captured.
- Quotes.ImportedQuote: non-string `text`, `title` or `category` values (numbers, objects) are not modelled. Fields are strings or absent.
- Quotes.NextId: ids are natural numbers. A non-numeric id (`Math.max` then gives `NaN`) is not modelled.
- Legacy.LegacyStore.ImportFromJsonFile: a parsed value that is not an array is treated as rejected. In the source, a JSON string would be spread into its characters. Imported records are assumed to have both fields.

## Findings

None.

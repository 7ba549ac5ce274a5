# Lumina quote engine, modelled in Dafny

Lumina shows a visitor one quote at a time from a fixed corpus. The visitor
can restrict the quotes to one category (or, in the service, to one author).
A quote is not shown twice until every quote of the current pool has been
shown; the draw that then resets the history may repeat any pool quote, and
does not record it. This project models the two core files of the Angular application:

- `src/app/services/quote.ts` — `QuoteService`: the corpus, the category and
  author filters, the `shownQuoteIds` set, the aggregate views (unique
  categories and authors, per-label counts), the filter setters and
  `getRandomQuote`. It is the class `QuoteServices.QuoteService` in
  `quote.dfy`. The corpus is a constructor argument and the two filters are
  plain `Option<string>` fields; `getQuoteById`, `getActiveCategory` and
  `getActiveAuthor` are functions reading them. The aggregate views are read-only methods
  with the source's `forEach` loops. `getRandomQuote` is a method that is
  proved equal to the pure function `Draw`, and the sampling policy is proved
  about `Draw`.
- `src/app/components/quote-display/quote-display.ts` — the category toggle,
  the filter menu, the first-load decision between a deep-linked quote and a
  random one, and the greedy word wrap `getWrappedLines`. It is the class
  `QuoteDisplay.QuoteDisplayComponent` and the method
  `QuoteDisplay.GetWrappedLines` in `quote_display.dfy`.

`builtins.dfy` (module `Builtins`) states the JavaScript built-ins these
files call: `Array.prototype.filter`, `String.prototype.split(' ')` and the
default string `sort()`. It also holds specification functions that the
source never calls: `Join` (joining with single spaces, the inverse of
`split(' ')` that the word wrap's round trip is stated with), `Flatten`,
and the occurrence count `Occurrences` that the tally maps are checked
against.

Modelling conventions:

- `Math.random()` is replaced by a caller-supplied index `choice`. Each draw
  requires `choice < |Choices(pool, shown)|`: the index must fall inside the
  sequence the source indexes, which is the unshown pool quotes or, after
  exhaustion, the whole pool.
- JavaScript truthiness is kept. `Truthy(s)` is false for `null` and for
  `""`. So `setCategory("")` stores `""`, does not clear the author, and
  does not filter. An `id=` with an empty value makes the first load draw at
  random.
- The thrown `Error('No quotes available')` becomes the result
  `NoQuotesAvailable`.
- A `Record<string, number>` becomes a `map<string, nat>`.
- `ctx.measureText(s).width` becomes a width function `string -> int`
  passed in by the caller.

Four behaviours of the code are worth stating because they are easy to
misread:

- The service has an author filter beside the category filter. The two are
  mutually exclusive only through the truthy branches of the setters.
- A category that matches no quote falls back to the whole corpus. The
  active author is not consulted (`CandidatePoolResolution`).
- With a one-quote corpus, the first draw records the quote and the next one
  resets the set, so the shown-set alternates between `{id}` and `{}`
  (`SingleQuoteAlternates`).
- The draw that resets the shown-set does not record the quote it returns,
  so that quote can come straight back before the rest of the pool is shown
  again: over a pool `[a, b]`, index 0 each time gives a, b, a, a
  (`ResetDrawNotRecorded`). Freshness holds only until the pool is used up
  (`NoRepeatUntilExhausted`, `CycleCompletes`).
- A falsy `""` label is not a filter at all.

## Model

| member | source | states |
|---|---|---|
| Builtins.Filter | src/app/services/quote.ts:134-136 | the result keeps exactly the elements satisfying the predicate, is no longer than the input, is the input itself when every element satisfies it, and is empty when none does |
| Builtins.SortLabels | src/app/services/quote.ts:50 | `Array.from(set).sort()`: the result is strictly ascending in code-point lexicographic order (so it has no duplicates) and holds exactly the elements of the set |
| Builtins.LeastExists | src/app/services/quote.ts:50 | every non-empty set of labels has a least element under the sort order, so sorting always makes progress |
| Builtins.LexLessTransitive | src/app/services/quote.ts:50 | the string order used by `sort()` is transitive |
| Builtins.LexLessTotal | src/app/services/quote.ts:50 | any two distinct strings are ordered one way or the other |
| Builtins.LexLessIrreflexive | src/app/services/quote.ts:50 | no string sorts before itself |
| Builtins.StrictlySortedNoDuplicates | src/app/services/quote.ts:50 | a strictly sorted label list has no label twice |
| Builtins.TalliesSnoc | src/app/services/quote.ts:62 | one `counts[c] = (counts[c] \|\| 0) + 1` step over entry `c` turns a tally of the entries so far into a tally of them plus `c` |
| Builtins.TalliesSum | src/app/services/quote.ts:55-91 | the values of a tally map, summed over its keys in any duplicate-free order, add up to the number of entries tallied |
| Builtins.OccursOnce | src/app/services/quote.ts:55-91 | a label appears exactly once in a duplicate-free key list that contains it |
| Builtins.Occurrences | src/app/services/quote.ts:62 | a label's occurrence count is positive exactly when the label occurs, and never exceeds the length of the list |
| Builtins.Split | src/app/components/quote-display/quote-display.ts:309 | `text.split(' ')` yields at least one piece, and no piece contains a space |
| Builtins.JoinSplit | src/app/components/quote-display/quote-display.ts:309 | joining the pieces of `split(' ')` with single spaces gives back the text |
| Builtins.SplitJoin | src/app/components/quote-display/quote-display.ts:309 | splitting the space-join of one or more space-free words gives back the words |
| Builtins.JoinSnoc | src/app/components/quote-display/quote-display.ts:319 | appending a word to a non-empty list adds a space and the word to its join |
| QuoteServices.FindById | src/app/services/quote.ts:35-39 | returns nothing exactly when no corpus quote has the id; otherwise it returns the first quote in corpus order whose id equals the argument |
| QuoteServices.CandidatePool | src/app/services/quote.ts:130-142 | the pool holds corpus quotes only, and is non-empty whenever the corpus is |
| QuoteServices.CandidatePoolResolution | src/app/services/quote.ts:130-142 | a truthy category that some quote carries selects exactly the quotes carrying it; a truthy category that none carries gives the whole corpus; otherwise a truthy author that some quote has selects exactly that author's quotes; an author with no quote gives the whole corpus; with neither filter the pool is the whole corpus |
| QuoteServices.DrawFrom | src/app/services/quote.ts:144-164 | a draw returns a pool quote. If some pool id is unshown, the returned id was unshown and is the only id added. If every pool id is shown, every pool id is deleted and nothing is re-added. A shown-set within the pool's ids stays within them |
| QuoteServices.Draw | src/app/services/quote.ts:122-125 | a draw fails exactly on an empty corpus, and then leaves the shown-set unchanged |
| QuoteServices.DrawHonoursFilter | src/app/services/quote.ts:130-164 | a draw from a non-empty corpus succeeds and returns a corpus quote carrying the active category, or by the active author, whenever that filter matches some quote |
| QuoteServices.DrawFresh | src/app/services/quote.ts:145-147 | while fewer ids are shown than the pool holds, a draw returns an unshown quote and the shown-set grows by exactly its id |
| QuoteServices.NoRepeatUntilExhausted | src/app/services/quote.ts:145-164 | from a shown-set within the pool, consecutive draws that do not exhaust the pool all succeed. Each returns an id not shown at the start, no id is returned twice, and the shown-set grows by exactly the returned ids |
| QuoteServices.CycleCompletes | src/app/services/quote.ts:149-157 | after as many fresh draws as the pool has unshown ids, the shown-set is exactly the pool's ids; the next draw returns a pool quote and leaves the shown-set empty |
| QuoteServices.SingleQuoteAlternates | src/app/services/quote.ts:145-164 | with a one-quote corpus, the first draw records the quote; the next returns it again and empties the shown-set |
| QuoteServices.ResetDrawNotRecorded | src/app/services/quote.ts:149-157 | the reset draw does not record its quote: over a two-quote pool, index 0 each time returns a, b, a and then a again, leaving the shown-sets {a}, {a, b}, {} and {a} |
| QuoteServices.SubsetCardinality | src/app/services/quote.ts:150 | a subset is no larger than its superset, and equal to it when the sizes match; this is what makes a smaller shown-set leave some pool quote available |
| QuoteServices.PickedIdsInPool | src/app/services/quote.ts:154-164 | every id a run of draws returns belongs to the pool |
| QuoteServices.QuoteService.constructor | src/app/services/quote.ts:19-33 | the service starts with the given corpus, no category, no author and an empty shown-set |
| QuoteServices.QuoteService.GetQuoteById | src/app/services/quote.ts:35-39 | returns nothing exactly when no corpus quote has the id; otherwise a corpus quote with that id (the first one, by FindById) |
| QuoteServices.QuoteService.GetUniqueCategories | src/app/services/quote.ts:41-53 | the result is strictly ascending and holds exactly the labels that occur in some quote's categories |
| QuoteServices.QuoteService.GetCategoryCounts | src/app/services/quote.ts:55-69 | the map has one key per label that occurs, mapped to the number of category entries equal to it across the corpus |
| QuoteServices.CategoryCountsSum | src/app/services/quote.ts:55-69 | the category counts, summed over the unique sorted categories, equal the total number of category entries |
| QuoteServices.CategoryEntriesMembers | src/app/services/quote.ts:45-48 | a label is among the category entries exactly when some quote carries it |
| QuoteServices.QuoteService.GetUniqueAuthors | src/app/services/quote.ts:71-79 | the result is strictly ascending and holds exactly the authors of the corpus |
| QuoteServices.QuoteService.GetAuthorCounts | src/app/services/quote.ts:81-91 | the map has one key per author, mapped to the number of that author's quotes |
| QuoteServices.AuthorCountsSum | src/app/services/quote.ts:81-91 | the author counts, summed over the unique sorted authors, equal the number of quotes |
| QuoteServices.AuthorEntriesMembers | src/app/services/quote.ts:75 | a name is among the author entries exactly when some quote has that author |
| QuoteServices.QuoteService.SetCategory | src/app/services/quote.ts:93-101 | the category becomes the argument. A truthy argument clears the author; a falsy one leaves it. The shown-set is always emptied, even when the value is unchanged |
| QuoteServices.QuoteService.SetAuthor | src/app/services/quote.ts:103-110 | the author becomes the argument. A truthy argument clears the category; a falsy one leaves it. The shown-set is always emptied |
| QuoteServices.QuoteService.GetActiveCategory | src/app/services/quote.ts:112-114 | reads the category filter: what the last SetCategory stored, or None if a later SetAuthor had a truthy argument |
| QuoteServices.QuoteService.GetActiveAuthor | src/app/services/quote.ts:116-118 | reads the author filter: what the last SetAuthor stored, or None if a later SetCategory had a truthy argument |
| QuoteServices.QuoteService.GetRandomQuote | src/app/services/quote.ts:120-167 | the result and the new shown-set are those of `Draw` on the old state; the invariant that the shown-set lies within the current pool's ids is preserved |
| QuoteServices.QuoteService.ForgetAll | src/app/services/quote.ts:152 | the `forEach` delete loop removes exactly the ids of the pool from the shown-set and keeps every other id |
| QuoteDisplay.InitialLoadPlan | src/app/components/quote-display/quote-display.ts:101-119 | the first load shows a quote exactly when the id is truthy and some corpus quote has it; the quote shown is the first such quote; otherwise a random quote is drawn |
| QuoteDisplay.QuoteDisplayComponent.constructor | src/app/components/quote-display/quote-display.ts:47-64 | no quote is shown and the filter menu is closed |
| QuoteDisplay.QuoteDisplayComponent.ToggleFilter | src/app/components/quote-display/quote-display.ts:70-72 | the menu flag is negated, so two toggles restore it |
| QuoteDisplay.QuoteDisplayComponent.CloseFilter | src/app/components/quote-display/quote-display.ts:74-76 | the menu is closed whatever it was |
| QuoteDisplay.QuoteDisplayComponent.LoadNewQuote | src/app/components/quote-display/quote-display.ts:127-132 | the shown quote becomes the drawn quote and the shown-set that of the draw; on an empty corpus the shown quote stays |
| QuoteDisplay.QuoteDisplayComponent.ToggleCategory | src/app/components/quote-display/quote-display.ts:83-94 | clicking the active category clears it, and clicking any other sets it. The author follows `setCategory`. The quote shown is a draw from an emptied history under the new filter |
| QuoteDisplay.QuoteDisplayComponent.SelectCategory | src/app/components/quote-display/quote-display.ts:78-81 | the category is toggled as by ToggleCategory and the menu ends closed |
| QuoteDisplay.QuoteDisplayComponent.HandleInitialLoad | src/app/components/quote-display/quote-display.ts:101-119 | a deep-link hit shows the found quote without drawing and without touching the shown-set; a missing, empty or unknown id draws as LoadNewQuote |
| QuoteDisplay.GetWrappedLines | src/app/components/quote-display/quote-display.ts:304-327 | at least one line comes back, and the lines joined by spaces give back the text. The lines cut `split(' ')` into non-empty runs in order. Every word after the first of a line passed the fit test when it was appended (the line so far, a space and the word measure less than `maxWidth`), and each break happened because the next word did not fit |
| QuoteDisplay.WrapExtend | src/app/components/quote-display/quote-display.ts:318-319 | appending a word that passes the fit test to the last line keeps the wrap greedy and in order, and records that the append fitted |
| QuoteDisplay.WrapBreak | src/app/components/quote-display/quote-display.ts:320-323 | starting a new line with a word that does not fit keeps the wrap greedy and in order |
| QuoteDisplay.AppendsFitSnoc | src/app/components/quote-display/quote-display.ts:318-319 | a run whose appends all fitted, extended by a word that fits after it, is again a run whose appends all fitted |
| QuoteDisplay.WrappedUnique | src/app/components/quote-display/quote-display.ts:313-326 | two greedy wraps of the same words under the same width function and limit are identical, line for line and run for run, so the contract of GetWrappedLines fixes its result |
| QuoteDisplay.JoinSnocLast | src/app/components/quote-display/quote-display.ts:319 | extending the last line by a word extends the join of all lines by that word |

## Left out

- The HTTP fetch of `assets/quotes.json`, `shareReplay` caching and the
  `Observable`/`BehaviorSubject` plumbing (quote.ts:17-33): the corpus is
  a constructor argument and the filters are plain fields. A subscription
  is treated as running synchronously once the corpus is loaded, and a
  failed fetch is not modelled.
- `Math.random()`: it is replaced by the index `choice`; uniformity of the
  draw is not modelled.
- Builtins.SortLabels: JavaScript's `sort()` compares UTF-16 code units. The
  model compares Dafny characters, which are Unicode scalar values. The two
  orders differ only for characters outside the Basic Multilingual Plane.
- QuoteServices.QuoteService.GetCategoryCounts: a plain object literal
  inherits keys from `Object.prototype`. For a label such as `constructor`,
  `counts[c] || 0` reads an inherited function, not 0, and `__proto__` never
  becomes an own key (quote.ts:62). The model's map has no inherited keys.
- QuoteServices.QuoteService.GetAuthorCounts: the same holds for an author
  named `constructor` or `__proto__` in `counts[q.author] = (counts[q.author]
  || 0) + 1` (quote.ts:86); the model counts such an author like any other.
- The `q.categories &&` guards (quote.ts:46, 60, 134) protect against a
  missing array. A `Quote` here always has a `categories` sequence, and a
  missing array corresponds to `[]`.
- The fixed-width `number` arithmetic of JavaScript: counts are unbounded
  naturals, which is exact below 2^53.
- QuoteDisplay.GetWrappedLines: `ctx.measureText` is foreign and
  float-valued; it is an arbitrary integer-valued width function here, and
  `maxWidth` is an integer. It is a module-level method because it uses the
  component only for the canvas context.
- The rest of `downloadWallpaper` (canvas drawing, dimensions, fonts,
  `crypto.randomUUID`, the download link), `updateUrl` and
  `window.location`, the clipboard, the share menu and share links,
  fullscreen handling and the keyboard handler (which only calls
  `loadNewQuote`): browser-bound, with no logic beyond the calls modelled.
- `src/app/services/theme.ts`, the page components, routing and
  configuration: presentation and framework glue outside the engine.

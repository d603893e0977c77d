# Ladderly daily practice: a Dafny model

This project models the selection logic of the Ladderly journal's "Daily Practice" widget
(`PracticeSection`). The widget shows practice items, each tagged with one of six categories
(communication, leadership, ownership, technical, persuasion, personal). It marks the items
already completed today and suggests one item that is not yet done. A select box filters the
items by category.

Everything is modelled as pure functions and lemmas in module `PracticeSection`
(`practice.dfy`). Module `Wrappers` (`wrappers.dfy`) supplies the `Option` type that stands for
the `null` a helper returns.

- `CategoryIcon` is the category-to-emoji switch. It is total over all strings.
- `IsCompletedToday` is the `.some` scan over today's completion records.
- `AvailablePractices` is the `.filter` that drops today's completed practices and keeps the
  original order.
- `RandomPractice` is `getRandomPractice`. The value of `Math.random()` is an input `r`: an exact
  fraction `num / den` with `num < den` (type `UnitDraw`). The drawn index is
  `DrawIndex(r, n) = floor(num * n / den)`.
- `SelectValue` and `OnCategoryChange` are the category select's `value` and `onChange`
  expressions. `None` stands for `undefined`.
- `LogCompletion` gives today's completions as the widget refetches them after it logs a
  practice.

Inputs that come from outside are parameters: the fetched practice items, today's completion
records, and the random draw.

## Model

| member | source | states |
|---|---|---|
| `PracticeSection.CategoryIcon` | ladderly-io/src/app/journal/PracticeSection.tsx:8-25 | The icon is always one of the six category icons or the default, and it is the default exactly when the string is not one of the six categories |
| `PracticeSection.CategoryIconTable` | ladderly-io/src/app/journal/PracticeSection.tsx:8-25 | The category at position i of the switch gets the icon at position i; every other string gets the default icon |
| `PracticeSection.CategoryIconsDistinct` | ladderly-io/src/app/journal/PracticeSection.tsx:10-23 | The six category icons are pairwise distinct, and none of them is the default icon |
| `PracticeSection.CategoryIconInjective` | ladderly-io/src/app/journal/PracticeSection.tsx:10-23 | Two categories with the same icon are the same category |
| `PracticeSection.IsCompletedToday` | ladderly-io/src/app/journal/PracticeSection.tsx:75-79 | A practice counts as completed today exactly when some completion record of today has its id |
| `PracticeSection.IsCompletedTodayById` | ladderly-io/src/app/journal/PracticeSection.tsx:75-79 | Completion status depends only on the set of practice ids in today's records |
| `PracticeSection.AvailablePractices` | ladderly-io/src/app/journal/PracticeSection.tsx:86-88 | Every available item is in the practice list and not completed today; every practice not completed today is available; the list is no longer than the input |
| `PracticeSection.AvailableCounts` | ladderly-io/src/app/journal/PracticeSection.tsx:86-88 | Each practice not completed today is kept exactly as many times as it occurs; each completed one is dropped |
| `PracticeSection.AvailableIsSubsequence` | ladderly-io/src/app/journal/PracticeSection.tsx:86-88 | The available list is a subsequence of the practice list, so the original order is kept |
| `PracticeSection.AvailableOfConcat` | ladderly-io/src/app/journal/PracticeSection.tsx:86-88 | Filtering a concatenation gives the concatenation of the filtered parts, so each item is judged on its own |
| `PracticeSection.NoneAvailableIffAllCompleted` | ladderly-io/src/app/journal/PracticeSection.tsx:86-90 | The available list is empty exactly when every practice has been completed today |
| `PracticeSection.DrawIndex` | ladderly-io/src/app/journal/PracticeSection.tsx:93-95 | For a random value in [0, 1) and a non-empty list of length n, the floor of value times n is a valid index below n |
| `PracticeSection.DrawIndexUniform` | ladderly-io/src/app/journal/PracticeSection.tsx:94 | When the denominator is m times n, numerator num picks index num / m, and index j is picked exactly by the m numerators in [j*m, (j+1)*m); all indices are equally likely |
| `PracticeSection.DrawIndexReachesAll` | ladderly-io/src/app/journal/PracticeSection.tsx:94 | Every index below n is picked by some draw |
| `PracticeSection.RandomPractice` | ladderly-io/src/app/journal/PracticeSection.tsx:82-96 | There is no suggestion for an empty list, and none exactly when every practice has been completed today; any suggestion is in the practice list and not completed today |
| `PracticeSection.RandomPracticeDrawsFromAvailable` | ladderly-io/src/app/journal/PracticeSection.tsx:83-95 | The early return for an empty list agrees with the general case: the result is the drawn element of the available list, or none when that list is empty |
| `PracticeSection.EveryAvailablePracticeCanBeSuggested` | ladderly-io/src/app/journal/PracticeSection.tsx:86-95 | Every practice not completed today is the suggestion for some draw |
| `PracticeSection.LogCompletion` | ladderly-io/src/app/journal/PracticeSection.tsx:61-72 | After a practice is logged and the completions are refetched, that practice is completed today, and the status of every other id is unchanged |
| `PracticeSection.AvailableAfterCompletion` | ladderly-io/src/app/journal/PracticeSection.tsx:61-96 | After a completion is logged, the available list is the previous one with the items of that id removed; the items query itself is not re-run |
| `PracticeSection.SuggestionExample` | ladderly-io/src/app/journal/PracticeSection.tsx:82-96 | With items 1 (technical) and 2 (leadership) and item 1 done, every draw suggests item 2; after item 2 is logged there is no suggestion, which is the "completed all available practices" case |
| `PracticeSection.SelectValue` | ladderly-io/src/app/journal/PracticeSection.tsx:183 | The select shows the empty value exactly for no filter (or an empty category), and shows the category itself otherwise |
| `PracticeSection.OnCategoryChange` | ladderly-io/src/app/journal/PracticeSection.tsx:184-187 | Choosing the empty value clears the filter and nothing else does; the new filter is never the empty category |
| `PracticeSection.FilterRoundTrip` | ladderly-io/src/app/journal/PracticeSection.tsx:183-187 | Choosing the value the select shows gives back the same filter, for no filter and for every non-empty category |
| `PracticeSection.SelectRoundTrip` | ladderly-io/src/app/journal/PracticeSection.tsx:183-187 | After any value is chosen, the select shows that value |
| `PracticeSection.FilterOptionsYieldCategories` | ladderly-io/src/app/journal/PracticeSection.tsx:191-197 | Each option of the select gives either no filter or one of the six categories |

## Left out

- The remote queries and the mutation are not modelled: fetching items by category, fetching today's completions, and logging a completion. Nor are their cache settings (lines 34-67). The fetched lists are inputs.
- `LogCompletion` assumes that the refetched completions are the previous ones plus the new record. That is the effect the server call is meant to have. The server code is not part of this model.
- The start of the local day (`setHours(0, 0, 0, 0)`, lines 47-48) depends on the clock and the time zone. Today's completions are an input instead.
- `DrawIndex`: `Math.random()` and the floating-point multiply (line 94) are replaced by exact rational arithmetic. The model does not capture rounding of the double product. It also does not capture the random source's actual distribution. Uniformity is stated only for draws whose denominator is a multiple of the list length.
- Rendering is left out: the JSX, the CSS classes, the loading message, the completion count display, and the expand/collapse toggle (`isExpanded`). The per-row "Completed" badge and the disabled button use `IsCompletedToday` directly.
- `handleComplete` (lines 70-72) only forwards the id to the mutation. `LogCompletion` stands for its effect.
- The category is a plain string, as `getCategoryIcon` receives it. The unchecked cast `as PracticeCategory` in the select handler is taken at face value.
- The job-tracker page and the flashcards page are not part of this model. They hold only static metadata and wrappers around components whose source is not shown.

# Search-as-you-type user table, modelled in Dafny

The component is a search box over a table of user records. It is fetched
once from a remote endpoint when it mounts. It keeps four pieces of state:
the query text (`inputValue`), the fetched collection (`users`), the rows on
show (`filteredUsers`) and the clicked record (`selectedUser`).

- When the query or the collection changes, an effect re-runs `filterUsers`.
  A query that trims to nothing shows the whole collection. Any other query
  shows the records whose lower-cased first or last name includes the
  lower-cased query, in collection order.
- Typing sets the query and clears the selection.
- Clicking a row selects that record. It writes `"<first> <last>"` into the
  box and narrows the table to that one row.
- The First Name cell of each row shows the query in a highlighted span.
  After it comes the first name with its first `|query|` characters dropped.

The model has four modules, one per concern:

- `JsString` (`js_string.dfy`) covers the JavaScript string operations the
  filter depends on: `toLowerCase`, `trim` with the exact ECMAScript
  whitespace set, and `includes`.
  - `toLowerCase` is stated by its properties (no upper-case letter left,
    each character kept or shifted from A-Z), and is idempotent and
    distributes over concatenation.
  - `trim` is proved to leave nothing exactly for an all-whitespace string.
  - `includes` is proved equivalent to a substring predicate.
- `Search` (`search.dfy`) holds the `User` record, the match callback, the
  order-preserving filter and the view rule. It also proves soundness,
  completeness, order and multiplicity of the filter.
- `Highlight` (`highlight.dfy`) models the First Name cell.
- `Autocomplete` (`autocomplete.dfy`) holds the `Controller` class. Its
  fields are the four state cells plus a `filterStale` flag.
  - Each handler method sets the state the handler sets.
  - `Settle` is the effect pass after a render. It calls `Recompute`
    (`filterUsers`) only when the query or the collection changed, as
    React's dependency check does.
  - So the state right after a click (view `[u]`) and the settled state
    after the effect are both visible.
  - `Valid` is the class invariant that every method keeps.

The click handler narrows the table to the clicked record with
`setFilteredUsers([user])` (src/App.tsx:70). The effect does not keep that
state, though: it ignores the selection and re-filters with the full name.
The model follows the code. The behaviour the handler aims for sits beside
it as `SettleHonouringSelection` (see Findings).

## Model

| member | source | states |
|---|---|---|
| JsString.Lower | src/App.tsx:47-48 | the lower-cased character is never an upper-case ASCII letter, and differs from the input only for A-Z, by the fixed offset 32 |
| JsString.ToLower | src/App.tsx:47-48 | `toLowerCase` keeps the length and leaves no upper-case ASCII letter; each character is either kept or is an A-Z letter shifted by 32 to its lower-case form |
| JsString.ToLowerIdempotent | src/App.tsx:47-48 | lower-casing an already lower-cased string changes nothing |
| JsString.ToLowerAppend | src/App.tsx:47-48 | lower-casing a concatenation is the concatenation of the lower-cased parts |
| JsString.IsWhitespace | src/App.tsx:40 | among ASCII characters, `trim` removes exactly the space and tab through carriage return; beyond ASCII it removes the ECMAScript WhiteSpace and LineTerminator characters |
| JsString.TrimStart | src/App.tsx:40 | no contract of its own; `TrimStartKeepsSuffix` characterises it |
| JsString.TrimEnd | src/App.tsx:40 | no contract of its own; `TrimEndKeepsPrefix` characterises it |
| JsString.Trim | src/App.tsx:40 | the trimmed query is no longer than the query and neither starts nor ends with whitespace |
| JsString.TrimStartKeepsSuffix | src/App.tsx:40 | dropping leading whitespace leaves a suffix of the input; everything dropped is whitespace; the result does not start with whitespace |
| JsString.TrimEndKeepsPrefix | src/App.tsx:40 | dropping trailing whitespace leaves a prefix of the input; everything dropped is whitespace; the result does not end with whitespace |
| JsString.TrimEmptyIff | src/App.tsx:40 | `trim()` gives the empty string exactly when every character of the query is whitespace |
| JsString.Includes | src/App.tsx:47-48 | every string includes the empty string, and a string never includes a longer one |
| JsString.IncludesIff | src/App.tsx:47-48 | the `includes` scan succeeds exactly when the needle occurs at some index of the haystack |
| JsString.MissingFirstCharExcludes | src/App.tsx:47-48 | a haystack that lacks the needle's first character does not include the needle |
| Search.FullName | src/App.tsx:69 | the text a click writes is as long as both names plus one, with a space right after the first name |
| Search.Matches | src/App.tsx:46-49 | the filter callback; no contract of its own, `MatchesMeansNameContains` and `LongQueryMisses` characterise it |
| Search.LongQueryMisses | src/App.tsx:46-49 | a query longer than both names matches neither, however the letters compare |
| Search.MatchesMeansNameContains | src/App.tsx:46-49 | the filter callback accepts a record exactly when the lower-cased query is a substring of its lower-cased first name or of its lower-cased last name |
| Search.Filter | src/App.tsx:46-49 | the filtered list is never longer than the collection and holds only records of the collection |
| Search.FilterSound | src/App.tsx:46-49 | every record the filter keeps satisfies the callback |
| Search.FilterCount | src/App.tsx:46-49 | each matching record occurs in the result exactly as often as in the collection; a non-matching record does not occur |
| Search.FilterIsSubsequence | src/App.tsx:46-49 | the result is an order-preserving subsequence of the collection |
| Search.FilterAppend | src/App.tsx:46-49 | filtering a concatenation is the concatenation of the filtered parts |
| Search.ViewFor | src/App.tsx:38-53 | the view is never longer than the collection and holds only its records, so an empty collection gives an empty view |
| Search.ViewOfBlankQuery | src/App.tsx:40-42 | a query that is all whitespace gives the collection itself, the same records in the same order; any other query gives the filter result |
| Search.ViewSound | src/App.tsx:46-49 | for a query that is not blank, every record in the view is in the collection and its lower-cased first or last name contains the lower-cased query |
| Search.ViewIsMatchingSubsequence | src/App.tsx:46-49 | for a query that is not blank, the view is an order-preserving subsequence of the collection and holds every matching record as often as the collection does, and nothing else |
| Search.ViewComplete | src/App.tsx:46-49 | for a query that is not blank, no matching record of the collection is missing from the view |
| Search.OwnFullNameExcludes | src/App.tsx:69 | a record is never in the view filtered by its own full name, unless that name is all whitespace, because each name is shorter than `first + " " + last` |
| Search.AnnMatches | src/App.tsx:47 | "an" matches a record whose first name is "Ann", although the case differs |
| Search.BobMisses | src/App.tsx:46-49 | "an" matches neither name of Bob Roe |
| Search.AnnMatchesAn | src/App.tsx:46-49 | over Ann Lee and Bob Roe, whatever their ids and e-mail addresses, the query "an" shows Ann only |
| Search.BobLeeFiltersToNothing | src/App.tsx:69 | a click on the Bob Lee row writes "Bob Lee"; filtering the single record Bob Lee with that text leaves an empty view |
| Highlight.PlainPart | src/App.tsx:101 | for a query no longer than the first name, the plain part is what follows the first-name prefix of the query's length; it is empty exactly when the query is at least as long as the name |
| Highlight.FirstNameCell | src/App.tsx:100-101 | the cell is the query text followed by the plain part, and is as long as the longer of the first name and the query |
| Highlight.CellShowsNameIffPrefix | src/App.tsx:100-101 | the cell reads as the first name exactly when the query is a case-exact prefix of it |
| Highlight.CellMisquotesName | src/App.tsx:100-101 | with first name "Bob", the query "ee" makes the cell read "eeb", and the post-click query "Bob Lee" makes it read "Bob Lee" |
| Highlight.IntendedFirstNameCell | src/App.tsx:99-101 | the intended cell is the first name split into a highlighted part of length min(query, name) and a plain remainder |
| Highlight.IntendedAgreesOnPrefix | src/App.tsx:99-101 | where the query is a case-exact prefix of the first name, the intended cell and the written one agree |
| Autocomplete.Controller.Valid | src/App.tsx:14-17 | the class invariant every method keeps: the view holds only records of the collection; a selected record's full name is the query; once the effect has run, the view is the view rule for the current query and collection, or the single clicked record whose full name already was the query |
| Autocomplete.Controller.constructor | src/App.tsx:14-17 | the component mounts with an empty query, collection and view, no selection, and the filter effect up to date |
| Autocomplete.Controller.Initialize | src/App.tsx:27-28 | a successful fetch sets both the collection and the view to the fetched records and leaves the filter due; query and selection are unchanged |
| Autocomplete.Controller.Recompute | src/App.tsx:38-53 | `filterUsers` sets the view to the view rule for the current collection and query, and writes nothing else |
| Autocomplete.Controller.Settle | src/App.tsx:55-58 | the effect pass re-filters exactly when the query or collection changed since the last pass, and otherwise keeps the view; it never touches collection, query or selection |
| Autocomplete.Controller.Type | src/App.tsx:61-64 | typing sets the query to exactly the new text and clears the selection; the collection and the view are unchanged until the effect runs |
| Autocomplete.Controller.Click | src/App.tsx:67-71 | clicking a shown row selects that record, writes its full name into the query and makes the view that single record; the collection is unchanged |
| Autocomplete.Controller.SettleHonouringSelection | src/App.tsx:56-58 | corrected effect pass: with a selection the view is exactly the selected record, without one it is the view rule |
| Autocomplete.ClickThenSettle | src/App.tsx:56-71 | after a click and the effect, the selection is still the clicked record. If the click changed the query (or the filter was already due), the view is the view rule for the full name, which leaves out the clicked record unless its full name is all whitespace. Otherwise the view stays exactly the clicked record |
| Autocomplete.ClickThenSettleHonouringSelection | src/App.tsx:56-71 | with the corrected effect pass, the clicked record stays the only row |
| Autocomplete.TypeThenSettle | src/App.tsx:56-64 | after typing and the effect, the selection is cleared and the view is the view rule for the new text over the whole collection |
| Autocomplete.AnnScenario | src/App.tsx:27-71 | one session through the controller: load Ann Lee and Bob Roe (both shown), type "an" (Ann alone), click Ann's row (Ann alone, selected); after the effect Ann is still selected and the table is empty |

## Left out

- The `fetch`, `response.json()` and the `try`/`catch` around them
  (src/App.tsx:22-34) are network I/O. Only the success outcome is modelled,
  as `Initialize`. On failure nothing changes, which needs no model.
- The `console.log` and `console.error` calls are diagnostics only.
- React itself is not modelled: `useState`, `useEffect`, `useCallback`,
  rendering, batching and the JSX markup.
  - A handler followed by `Settle` stands for one event and the render and
    effect pass after it.
  - `useCallback` compares `users` by reference, and every fetch delivers a
    new array. So `Initialize` always makes the filter due.
- Lower: only ASCII A-Z are lower-cased. JavaScript's `toLowerCase` maps all
  of Unicode, and can change a string's length.
- PlainPart, FirstNameCell: lengths are counted in Unicode characters.
  JavaScript's `length` and `substring` count UTF-16 code units, so the two
  differ on characters outside the Basic Multilingual Plane.
- Controller.Click requires the clicked record to be in the view, because
  rows are rendered only from `filteredUsers`.
- Controller.Type accepts any text. A browser fires `onChange` only when the
  text really changes, and the model marks the filter due only in that case.
- The "Selected User" block (src/App.tsx:111-115) is presentation only. So
  are the other table cells and the styling.
- A fetch that resolves after the component has unmounted is not modelled.
- src/SearchUsers.tsx is an input wrapper without logic, and `App.tsx` does
  not use it. It is not part of this model.

## Findings

| source | as written | input that shows it | evidently intended | confidence | as-written member | corrected member |
|---|---|---|---|---|---|---|
| src/App.tsx:67-71 | the click sets the view to `[user]` and the query to the full name. The changed query re-runs the filter, which ignores the selection and matches the full name against each name on its own | collection `[Bob Lee]`, click the Bob Lee row: the table ends up empty | the click handler's own `setFilteredUsers([user])` (src/App.tsx:70): the table stays narrowed to the clicked record | high, not executed | Autocomplete.ClickThenSettle | Autocomplete.Controller.SettleHonouringSelection |
| src/App.tsx:100-101 | the First Name cell prints the query text and then the name's tail, not the name's own leading characters | first name "Bob", query "ee" (it matches the last name Lee): the cell reads "eeb"; after a click the cell reads "Bob Lee" | the comment at src/App.tsx:99, "highlight the matching part of the text": the cell shows the first name with its leading `|query|` characters highlighted | medium, not executed | Highlight.CellMisquotesName | Highlight.IntendedFirstNameCell |

- The first finding is backed by several members.
  - `Search.OwnFullNameExcludes` proves for all inputs that the clicked
    record cannot survive the re-filter.
  - `Search.BobLeeFiltersToNothing` is the concrete case.
  - `Autocomplete.ClickThenSettleHonouringSelection` proves the corrected
    pass keeps the row.
- The only exception is a click that does not change the query, because the
  box already held the full name. Then the effect does not run and the row
  stays. `ClickThenSettle` states this case too.

# User list view-model

A Dafny model of the `App` component of a small React page that lists
users fetched from a demo API. The page keeps:

- the current user list (`users`);
- the list as it was fetched (`originalUsers`);
- a sort key (`sorting`: none, country, first name or last name);
- a lower-cased country filter text (`filterByCountry`);
- a row-colouring flag (`colorRows`).

It shows the rows obtained by filtering the list on the country and then,
unless the key is none, sorting a copy of the result by the chosen column.

The model is functional. The state is an immutable record and every event
handler is a pure transition. The memoised derivations are pure functions.
The events are: fetch completed, delete by uuid, reset, toggle the
country sort, pick a column, type a filter, and toggle colours. The two
locale-dependent primitives are fields of a `Locale` value passed as a
parameter. `lower` stands for `toLocaleLowerCase` and `compare` for
`localeCompare`. The sort is a stable insertion sort, as
`Array.prototype.sort` must be stable since ECMAScript 2019
(ECMA-262 10th edition, section 22.1.3.27).

Modules:

- `Sequences` (sequences.dfy): `Array.prototype.filter` and the subsequence relation.
- `Ordering` (ordering.dfy): comparators, total preorders, and the stable insertion sort.
- `Text` (text.dfy): `String.prototype.includes` and the `Locale` parameters.
- `Users` (users.dfy): the user record, sort keys, the country filter, the column sort and deletion.
- `App` (app.dfy): the page state, its transitions, the displayed rows, and event sequences.

`App` fetches 100 users once (src/App.tsx:15). The unused
`src/hooks/useUsers.ts` is written to page with react-query, and it has no page cap.

Per-record deletion is reachable only as a transition. `UsersTable` does not
accept the `handleDelete` prop that `App` passes, so no delete control is
rendered.

## Model

| member | source | states |
|---|---|---|
| App.Initial | src/App.tsx:6-11 | the page starts with an empty list and snapshot, no sort, an empty filter and colouring off |
| App.Loaded | src/App.tsx:17-20 | the fetched results become both the list and the reset snapshot; sort, filter and colouring are kept |
| App.ToggleRowsColors | src/App.tsx:25-27 | colouring flips and nothing else in the state changes |
| App.ToggleSortByCountry | src/App.tsx:29-32 | the result is country-sorted exactly when the state was unsorted, and unsorted otherwise; list, snapshot, filter and colouring are kept |
| App.ChangeSort | src/App.tsx:70-72 | the chosen column becomes the sort key and nothing else changes |
| App.ChangeFilterByCountry | src/App.tsx:34-37 | the stored filter is the lower-cased input; everything else is kept |
| App.HandleDelete | src/App.tsx:61-64 | no remaining user has the id; every user without the id stays, as often as before; the list stays an order-preserving subsequence; snapshot and view settings are kept |
| App.HandleReset | src/App.tsx:66-68 | the list becomes the snapshot again; sort, filter and colouring are kept |
| App.FilteredUsers | src/App.tsx:39-43 | with no filter text the current list itself; otherwise each current user appears as often as in the list when its lower-cased country contains the text, and not at all otherwise |
| App.OffersCountrySort | src/App.tsx:83 | when the label offers to stop sorting by country, pressing the button clears the sort; when it offers a country sort, pressing sorts by country only from the unsorted state |
| App.Rows | src/App.tsx:45-59 | the displayed rows are a permutation of the filtered list; with a filter text every row's lower-cased country contains it; every row is a current user, so sorting never brings back a filtered-out user |
| App.CountryButtonFromOtherKey | src/App.tsx:29-32 | while sorted by first or last name, the button label offers a country sort (line 83), yet one press clears the sort and only a second press sorts by country |
| App.RowsIgnoreColoring | src/App.tsx:45-59 | toggling colours leaves the displayed rows and their order unchanged |
| App.RowsUnsorted | src/App.tsx:47 | with no sort key the rows are the filtered list itself, an order-preserving subsequence of the list |
| App.RowsSorted | src/App.tsx:49-58 | with a sort key, the rows are a permutation of the filtered list, ascending under `localeCompare` on the chosen column; users whose column collates equal keep their filtered order |
| App.FilterIsCaseInsensitive | src/App.tsx:34-42 | after typing any value, a current user is shown exactly when its lower-cased country contains the lower-cased value; clearing the box takes the shortcut and shows everyone, which the empty text matches |
| App.InitialValid | src/App.tsx:6-11 | the initial list is a subsequence of the initial snapshot |
| App.StepPreservesValid | src/App.tsx:61-68 | every event keeps the list an order-preserving subsequence of the snapshot |
| App.RunPreservesValid | src/App.tsx:61-68 | any sequence of events keeps the list an order-preserving subsequence of the snapshot |
| App.RunKeepsSnapshot | src/App.tsx:19 | only a completed fetch writes the snapshot, so any other events leave it unchanged |
| App.ResetRestoresSnapshot | src/App.tsx:66-68 | after any deletions, sorts, filters and colour toggles since the load, a reset gives back the loaded list |
| App.ToggleSortTwice | src/App.tsx:29-32 | from the unsorted or the country-sorted state, pressing the country button twice returns the same state |
| App.ToggleColorsTwice | src/App.tsx:25-27 | toggling colours twice returns the same state |
| App.DeletesCommute | src/App.tsx:61-64 | deleting two ids in either order gives the same state |
| Users.FilterByCountry | src/App.tsx:39-43 | an empty filter text returns the list unchanged; otherwise every kept user's lower-cased country contains the text, and every kept user comes from the list |
| Users.FilterByCountryExact | src/App.tsx:41 | a non-empty filter keeps an order-preserving subsequence; each user appears as often as in the list if its lower-cased country contains the text, and not at all otherwise |
| Users.FilterByCountryIdempotent | src/App.tsx:39-43 | filtering the filtered list by the same text changes nothing |
| Users.EmptyFilterKeepsAll | src/App.tsx:40-42 | the empty-text shortcut gives the same list as filtering by the empty text, which every country contains |
| Users.Field | src/App.tsx:49-53 | the country key projects a user onto its country, the first-name key onto its first name, the last-name key onto its last name |
| Users.ByField | src/App.tsx:55-57 | the comparator looks only at the projected column: two users with the same column value compare identically against any third user, on either side |
| Users.SortUsers | src/App.tsx:45-59 | the result is a permutation of its input, and with no sort key it is the input itself |
| Users.SortUsersOrdered | src/App.tsx:49-57 | under a total-preorder collation, the sorted copy is ascending in the chosen column |
| Users.SortUsersStable | src/App.tsx:55-58 | users whose chosen column collates equal keep their relative input order |
| Users.ByFieldPreorder | src/App.tsx:49-57 | comparing users by a projected column is a total preorder whenever the string collation is one |
| Users.DeleteUser | src/App.tsx:62 | no kept user has the id; every user without the id is kept with its multiplicity; every kept user comes from the list |
| Users.DeleteExact | src/App.tsx:62 | deletion keeps an order-preserving subsequence in which each user without the id keeps its multiplicity and users with the id are gone |
| Users.DeleteAbsent | src/App.tsx:62 | deleting an id no user has leaves the list unchanged |
| Users.DeleteIdempotent | src/App.tsx:62 | deleting the same id twice equals deleting it once |
| Users.DeleteCommute | src/App.tsx:62 | deleting two ids in either order gives the same list |
| Ordering.Insert | src/App.tsx:55-58 | inserting one element adds exactly that element to the multiset |
| Ordering.InsertionSort | src/App.tsx:55-58 | the sort returns a permutation of its input |
| Ordering.InsertSorted | src/App.tsx:55-58 | inserting into a sorted sequence under a total preorder keeps it sorted |
| Ordering.InsertionSortSorted | src/App.tsx:55-58 | under a total-preorder comparator, the sort output is ascending |
| Ordering.InsertKeepsRankOrder | src/App.tsx:55-58 | an insertion keeps the relative order of all elements that rank equal to a given one |
| Ordering.InsertionSortStable | src/App.tsx:55-58 | for every rank class, the output lists its elements in input order, so the sort is stable |
| Ordering.InsertionSortOfSorted | src/App.tsx:55-58 | sorting an already sorted sequence returns it unchanged |
| Text.Includes | src/App.tsx:41 | a found needle is no longer than the string, and the empty needle is always found; the exact meaning is in IncludesIffOccurs |
| Text.IncludesIffOccurs | src/App.tsx:41 | `includes` is true exactly when the needle occurs as a contiguous block of the string |
| Sequences.Filter | src/App.tsx:41 | every kept element satisfies the predicate; every element that satisfies it is kept; nothing new appears |
| Sequences.FilterCounts | src/App.tsx:62 | each element keeps its multiplicity if it satisfies the predicate and vanishes otherwise |
| Sequences.FilterIsSubsequence | src/App.tsx:62 | the filtered sequence is an order-preserving subsequence of its input |
| Sequences.FilterIdempotent | src/App.tsx:41 | filtering twice with the same predicate is filtering once |
| Sequences.FilterCommute | src/App.tsx:62 | two filters give the same result in either order |
| Sequences.SubsequenceTransitive | src/App.tsx:62 | a subsequence of a subsequence is a subsequence, so repeated deletions stay within the snapshot |

## Left out

- The fetch in `useEffect` (src/App.tsx:13-23), the `loading` flag and the error logging. These are network I/O and asynchronous plumbing. The completed fetch is the `FetchCompleted` event. A rejected fetch only logs and leaves the state unchanged, so it has no event. `App` does not check `res.ok` (src/App.tsx:16), so an error body without `results` would store `undefined` as list and snapshot, which the model's list type cannot hold.
- JSX rendering and `src/components/UsersTable.tsx`. These are presentation only. Their header clicks are the `SortByColumn` event. The button label's test is kept as `App.OffersCountrySort`.
- `src/hooks/useUsers.ts` and `src/services/users.ts`. The component does not use either of them. Their paging depends on a data-fetching library that is not part of this model.
- The locale behaviour of `toLocaleLowerCase` and `localeCompare`. Both are parameters. `localeCompare` is assumed to order strings as a total preorder (`Text.ConsistentCollation`). The ordering and stability lemmas require that assumption. Without it, ECMAScript leaves the sort order implementation-defined, and the model only promises a permutation.
- Strings are modelled as Dafny strings, which are sequences of Unicode scalar values. A JavaScript string is a sequence of UTF-16 code units and can hold lone surrogates; those cannot be represented here. So `includes` and the inputs to `lower` and `compare` are modelled on well-formed text only, and substring search is by code point. On well-formed text this gives the same answer as a search by code unit.
- React's render closures and update batching. Events are handled one at a time, each on the state the previous one left, as the page's handlers observe them.
- The "input is not mutated" promise of the spread copy holds by construction, because every value in the model is immutable.

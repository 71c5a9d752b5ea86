/**
 The `App` component of src/App.tsx as a state machine: the React state
 (`users`, `sorting`, `filterByCountry`, `colorRows`) and the `originalUsers`
 ref become one immutable record, each event handler a pure transition, and
 the memoised `filteredUsers` / `sortedUsers` a derivation of the rows shown.
 */
module App {
  import opened Sequences
  import opened Ordering
  import opened Text
  import opened Users

  datatype State = State(
    users: seq<User>,
    originalUsers: seq<User>,
    sorting: SortBy,
    filterByCountry: string,
    colorRows: bool)

  /** The state of a freshly mounted page, before the fetch completes. */
  function Initial(): (s: State)
    ensures s.users == s.originalUsers == []
    ensures s.sorting == None && s.filterByCountry == "" && !s.colorRows
  {
    State([], [], None, "", false)
  }

  /** The fetch delivered its results: they become both the list and the reset snapshot. */
  function Loaded(s: State, results: seq<User>): (r: State)
    ensures r.users == r.originalUsers == results
    ensures r.sorting == s.sorting && r.filterByCountry == s.filterByCountry && r.colorRows == s.colorRows
  {
    s.(users := results, originalUsers := results)
  }

  /** `toggleRowsColors`: flips row colouring and nothing else. */
  function ToggleRowsColors(s: State): (r: State)
    ensures r.colorRows != s.colorRows
    ensures r.users == s.users && r.originalUsers == s.originalUsers
    ensures r.sorting == s.sorting && r.filterByCountry == s.filterByCountry
  {
    s.(colorRows := !s.colorRows)
  }

  /** `toggleSortByCountry`: sorts by country when unsorted, and clears any sort otherwise. */
  function ToggleSortByCountry(s: State): (r: State)
    ensures r.sorting == Country || r.sorting == None
    ensures r.sorting == Country <==> s.sorting == None
    ensures r.users == s.users && r.originalUsers == s.originalUsers
    ensures r.filterByCountry == s.filterByCountry && r.colorRows == s.colorRows
  {
    s.(sorting := if s.sorting == None then Country else None)
  }

  /** `handleChangeSort`: a header click selects its column as the sort key. */
  function ChangeSort(s: State, key: SortBy): (r: State)
    ensures r.sorting == key
    ensures r.users == s.users && r.originalUsers == s.originalUsers
    ensures r.filterByCountry == s.filterByCountry && r.colorRows == s.colorRows
  {
    s.(sorting := key)
  }

  /** `handleChangeFilterByCountry`: stores the typed text lower-cased. */
  function ChangeFilterByCountry(loc: Locale, s: State, value: string): (r: State)
    ensures r.filterByCountry == loc.lower(value)
    ensures r.users == s.users && r.originalUsers == s.originalUsers
    ensures r.sorting == s.sorting && r.colorRows == s.colorRows
  {
    s.(filterByCountry := loc.lower(value))
  }

  /** `handleDelete`: drops every user with the given uuid from the list, not from the snapshot. */
  function HandleDelete(s: State, id: string): (r: State)
    ensures forall i :: 0 <= i < |r.users| ==> r.users[i].uuid != id
    ensures forall i :: 0 <= i < |s.users| && s.users[i].uuid != id ==> s.users[i] in r.users
    ensures forall u :: multiset(r.users)[u] == if u.uuid != id then multiset(s.users)[u] else 0
    ensures IsSubsequence(r.users, s.users)
    ensures r.originalUsers == s.originalUsers
    ensures r.sorting == s.sorting && r.filterByCountry == s.filterByCountry && r.colorRows == s.colorRows
  {
    DeleteExact(s.users, id);
    s.(users := DeleteUser(s.users, id))
  }

  /** `handleReset`: restores the list fetched at load, keeping sort, filter and colouring. */
  function HandleReset(s: State): (r: State)
    ensures r.users == s.originalUsers && r.originalUsers == s.originalUsers
    ensures r.sorting == s.sorting && r.filterByCountry == s.filterByCountry && r.colorRows == s.colorRows
  {
    s.(users := s.originalUsers)
  }

  /** `filteredUsers`: the current users whose lower-cased country contains the filter text. */
  function FilteredUsers(loc: Locale, s: State): (r: seq<User>)
    ensures s.filterByCountry == "" ==> r == s.users
    ensures s.filterByCountry != "" ==>
              forall u :: multiset(r)[u] ==
                          if Includes(loc.lower(u.country), s.filterByCountry) then multiset(s.users)[u] else 0
  {
    if s.filterByCountry == "" then s.users
    else
      FilterByCountryExact(loc, s.users, s.filterByCountry);
      FilterByCountry(loc, s.users, s.filterByCountry)
  }

  /** `sortedUsers`: the rows handed to the table, in display order. */
  function Rows(loc: Locale, s: State): (rows: seq<User>)
    ensures multiset(rows) == multiset(FilteredUsers(loc, s))
    ensures s.filterByCountry != "" ==>
              forall i :: 0 <= i < |rows| ==> Includes(loc.lower(rows[i].country), s.filterByCountry)
    ensures forall i :: 0 <= i < |rows| ==> rows[i] in s.users
  {
    var filtered := FilteredUsers(loc, s);
    var rows := SortUsers(loc, filtered, s.sorting);
    assert forall i :: 0 <= i < |rows| ==> rows[i] in multiset(filtered);
    rows
  }

  /** The label of the country button offers sorting by country unless that is the current key. */
  predicate OffersCountrySort(s: State): (offers: bool)
    ensures !offers ==> ToggleSortByCountry(s).sorting == None
    ensures offers ==> (ToggleSortByCountry(s).sorting == Country <==> s.sorting == None)
  {
    s.sorting != Country
  }

  /**
   While sorted by first or last name the button offers sorting by country,
   yet pressing it clears the sort; only from the unsorted state does it sort by country.
   */
  lemma CountryButtonFromOtherKey(s: State)
    requires s.sorting == Name || s.sorting == Last
    ensures OffersCountrySort(s)
    ensures ToggleSortByCountry(s).sorting == None
    ensures ToggleSortByCountry(ToggleSortByCountry(s)).sorting == Country
  {
  }

  /** Row colouring never changes which rows are shown or their order. */
  lemma RowsIgnoreColoring(loc: Locale, s: State)
    ensures Rows(loc, ToggleRowsColors(s)) == Rows(loc, s)
  {
  }

  /** Unsorted, the rows are the filtered list in list order. */
  lemma RowsUnsorted(loc: Locale, s: State)
    requires s.sorting == None
    ensures Rows(loc, s) == FilteredUsers(loc, s)
    ensures IsSubsequence(Rows(loc, s), s.users)
  {
    if s.filterByCountry == "" {
      SubsequenceReflexive(s.users);
    } else {
      FilterByCountryExact(loc, s.users, s.filterByCountry);
    }
  }

  /**
   Sorted by a column, the rows are the filtered list reordered so the column
   collates in ascending order, with equally collating users in list order.
   */
  lemma RowsSorted(loc: Locale, s: State, z: User)
    requires ConsistentCollation(loc) && s.sorting != None
    ensures multiset(Rows(loc, s)) == multiset(FilteredUsers(loc, s))
    ensures forall i, j :: 0 <= i < j < |Rows(loc, s)| ==>
              loc.compare(Field(s.sorting, Rows(loc, s)[i]), Field(s.sorting, Rows(loc, s)[j])) <= 0
    ensures Filter(Rows(loc, s), RankOf(ByField(loc, s.sorting), z)) ==
            Filter(FilteredUsers(loc, s), RankOf(ByField(loc, s.sorting), z))
  {
    SortUsersOrdered(loc, FilteredUsers(loc, s), s.sorting);
    SortUsersStable(loc, FilteredUsers(loc, s), s.sorting, z);
  }

  /**
   The typed text is matched case-insensitively, as both sides go through
   `lower`: a user is shown exactly when its lower-cased country contains the
   lower-cased text.
   */
  lemma FilterIsCaseInsensitive(loc: Locale, s: State, value: string)
    ensures forall i :: 0 <= i < |Rows(loc, ChangeFilterByCountry(loc, s, value))| ==>
              Includes(loc.lower(Rows(loc, ChangeFilterByCountry(loc, s, value))[i].country), loc.lower(value))
    ensures forall i :: 0 <= i < |s.users| && Includes(loc.lower(s.users[i].country), loc.lower(value)) ==>
              s.users[i] in Rows(loc, ChangeFilterByCountry(loc, s, value))
  {
    var t := ChangeFilterByCountry(loc, s, value);
    var rows := Rows(loc, t);
    forall i | 0 <= i < |s.users| && Includes(loc.lower(s.users[i].country), loc.lower(value))
      ensures s.users[i] in rows
    {
      var u := s.users[i];
      assert u in multiset(s.users);
      assert multiset(FilteredUsers(loc, t))[u] == multiset(s.users)[u];
      assert u in multiset(rows);
    }
  }

  /** The user interactions and the completion of the initial fetch. */
  datatype Event =
    | FetchCompleted(results: seq<User>)
    | Delete(id: string)
    | Reset
    | ToggleCountrySort
    | SortByColumn(key: SortBy)
    | FilterInput(value: string)
    | ToggleColors

  function Step(loc: Locale, s: State, e: Event): State {
    match e
    case FetchCompleted(results) => Loaded(s, results)
    case Delete(id) => HandleDelete(s, id)
    case Reset => HandleReset(s)
    case ToggleCountrySort => ToggleSortByCountry(s)
    case SortByColumn(key) => ChangeSort(s, key)
    case FilterInput(value) => ChangeFilterByCountry(loc, s, value)
    case ToggleColors => ToggleRowsColors(s)
  }

  /** Events are handled one at a time, in order, each on the state the previous one left. */
  function Run(loc: Locale, s: State, events: seq<Event>): State
    decreases |events|
  {
    if |events| == 0 then s else Run(loc, Step(loc, s, events[0]), events[1..])
  }

  /** The list only ever holds users of the snapshot, in snapshot order. */
  ghost predicate Valid(s: State) {
    IsSubsequence(s.users, s.originalUsers)
  }

  lemma {:induction false} InitialValid()
    ensures Valid(Initial())
  {
  }

  /** Every event keeps the list a subsequence of the snapshot. */
  lemma StepPreservesValid(loc: Locale, s: State, e: Event)
    requires Valid(s)
    ensures Valid(Step(loc, s, e))
  {
    match e
    case FetchCompleted(results) =>
      SubsequenceReflexive(results);
    case Delete(id) =>
      SubsequenceTransitive(HandleDelete(s, id).users, s.users, s.originalUsers);
    case Reset =>
      SubsequenceReflexive(s.originalUsers);
    case _ =>
  }

  lemma {:induction false} RunPreservesValid(loc: Locale, s: State, events: seq<Event>)
    requires Valid(s)
    ensures Valid(Run(loc, s, events))
    decreases |events|
  {
    if |events| > 0 {
      StepPreservesValid(loc, s, events[0]);
      RunPreservesValid(loc, Step(loc, s, events[0]), events[1..]);
    }
  }

  /** No event other than the fetch completing touches the snapshot. */
  lemma {:induction false} RunKeepsSnapshot(loc: Locale, s: State, events: seq<Event>)
    requires forall i :: 0 <= i < |events| ==> !events[i].FetchCompleted?
    ensures Run(loc, s, events).originalUsers == s.originalUsers
    decreases |events|
  {
    if |events| > 0 {
      RunKeepsSnapshot(loc, Step(loc, s, events[0]), events[1..]);
    }
  }

  /** Whatever was deleted, sorted, filtered or coloured since the load, reset restores the loaded list. */
  lemma ResetRestoresSnapshot(loc: Locale, s: State, events: seq<Event>)
    requires forall i :: 0 <= i < |events| ==> !events[i].FetchCompleted?
    ensures HandleReset(Run(loc, s, events)).users == s.originalUsers
  {
    RunKeepsSnapshot(loc, s, events);
  }

  /** Toggling the country sort twice returns to the start from unsorted or country-sorted. */
  lemma ToggleSortTwice(s: State)
    requires s.sorting == None || s.sorting == Country
    ensures ToggleSortByCountry(ToggleSortByCountry(s)) == s
  {
  }

  /** Toggling colours twice is the identity. */
  lemma ToggleColorsTwice(s: State)
    ensures ToggleRowsColors(ToggleRowsColors(s)) == s
  {
  }

  /** Two deletions commute: the order users are removed in does not matter. */
  lemma DeletesCommute(s: State, a: string, b: string)
    ensures HandleDelete(HandleDelete(s, a), b) == HandleDelete(HandleDelete(s, b), a)
  {
    DeleteCommute(s.users, a, b);
  }
}

/**
 The user records the page lists and the two derivations that turn the
 current list into displayed rows (`filteredUsers` and `sortedUsers` in
 src/App.tsx), plus the per-uuid deletion applied to the list itself.
 */
module Users {
  import opened Sequences
  import opened Ordering
  import opened Text

  /** The fields of a fetched user the page reads; everything else is ignored. */
  datatype User = User(uuid: string, first: string, last: string, country: string, thumbnail: string)

  /** The column the rows are ordered by; `None` keeps the list order. */
  datatype SortBy = None | Country | Name | Last

  /** The string a sort key projects a user onto. */
  function Field(key: SortBy, u: User): (r: string)
    requires key != None
    ensures key == Country ==> r == u.country
    ensures key == Name ==> r == u.first
    ensures key == Last ==> r == u.last
  {
    match key
    case Country => u.country
    case Name => u.first
    case Last => u.last
  }

  /** Orders users by `localeCompare` on the projected field. */
  function ByField(loc: Locale, key: SortBy): (c: Comparator<User>)
    requires key != None
    ensures forall a, b, d :: Field(key, a) == Field(key, b) ==> c(a, d) == c(b, d) && c(d, a) == c(d, b)
  {
    (a: User, b: User) => loc.compare(Field(key, a), Field(key, b))
  }

  /** The country test of the filter; `text` is already lower-cased. */
  function MatchesCountry(loc: Locale, text: string): User -> bool {
    (u: User) => Includes(loc.lower(u.country), text)
  }

  /** Keeps the users whose uuid differs from `id`. */
  function NotId(id: string): User -> bool {
    (u: User) => u.uuid != id
  }

  /** `filteredUsers`: an empty filter text keeps the list as it is. */
  function FilterByCountry(loc: Locale, users: seq<User>, text: string): (r: seq<User>)
    ensures text == "" ==> r == users
    ensures text != "" ==> forall i :: 0 <= i < |r| ==> Includes(loc.lower(r[i].country), text)
    ensures forall i :: 0 <= i < |r| ==> r[i] in users
  {
    if text == "" then users else Filter(users, MatchesCountry(loc, text))
  }

  /** `sortedUsers`: `None` returns the filtered list itself, any other key a sorted copy. */
  function SortUsers(loc: Locale, users: seq<User>, key: SortBy): (r: seq<User>)
    ensures multiset(r) == multiset(users)
    ensures key == None ==> r == users
  {
    if key == None then users else InsertionSort(ByField(loc, key), users)
  }

  /** `handleDelete`: the users whose uuid is not `id`, in list order. */
  function DeleteUser(users: seq<User>, id: string): (r: seq<User>)
    ensures forall i :: 0 <= i < |r| ==> r[i].uuid != id
    ensures forall i :: 0 <= i < |users| && users[i].uuid != id ==> users[i] in r
    ensures forall i :: 0 <= i < |r| ==> r[i] in users
    ensures forall u :: multiset(r)[u] == if u.uuid != id then multiset(users)[u] else 0
  {
    FilterCounts(users, NotId(id));
    Filter(users, NotId(id))
  }

  /** The filter keeps exactly the matching users, with their multiplicity and in their order. */
  lemma FilterByCountryExact(loc: Locale, users: seq<User>, text: string)
    requires text != ""
    ensures IsSubsequence(FilterByCountry(loc, users, text), users)
    ensures forall u :: multiset(FilterByCountry(loc, users, text))[u] ==
                        if Includes(loc.lower(u.country), text) then multiset(users)[u] else 0
  {
    var p := MatchesCountry(loc, text);
    FilterIsSubsequence(users, p);
    FilterCounts(users, p);
    assert forall u :: p(u) == Includes(loc.lower(u.country), text);
  }

  /** Filtering by the same text twice is filtering once. */
  lemma FilterByCountryIdempotent(loc: Locale, users: seq<User>, text: string)
    ensures FilterByCountry(loc, FilterByCountry(loc, users, text), text) == FilterByCountry(loc, users, text)
  {
    if text != "" {
      FilterIdempotent(users, MatchesCountry(loc, text));
    }
  }

  /** The empty-text shortcut agrees with filtering by the empty text, which every country contains. */
  lemma EmptyFilterKeepsAll(loc: Locale, users: seq<User>)
    ensures FilterByCountry(loc, users, "") == Filter(users, MatchesCountry(loc, ""))
  {
    forall i | 0 <= i < |users|
      ensures MatchesCountry(loc, "")(users[i])
    {
      IncludesEmpty(loc.lower(users[i].country));
    }
    FilterAllKept(users, MatchesCountry(loc, ""));
  }

  /** With a collation that is a total preorder, a sorted copy is ordered by the projected field. */
  lemma SortUsersOrdered(loc: Locale, users: seq<User>, key: SortBy)
    requires ConsistentCollation(loc) && key != None
    ensures forall i, j :: 0 <= i < j < |SortUsers(loc, users, key)| ==>
              loc.compare(Field(key, SortUsers(loc, users, key)[i]), Field(key, SortUsers(loc, users, key)[j])) <= 0
  {
    ByFieldPreorder(loc, key);
    InsertionSortSorted(ByField(loc, key), users);
  }

  /** Users whose projected fields collate equal keep their relative order. */
  lemma SortUsersStable(loc: Locale, users: seq<User>, key: SortBy, z: User)
    requires ConsistentCollation(loc) && key != None
    ensures Filter(SortUsers(loc, users, key), RankOf(ByField(loc, key), z)) ==
            Filter(users, RankOf(ByField(loc, key), z))
  {
    ByFieldPreorder(loc, key);
    InsertionSortStable(ByField(loc, key), users, z);
  }

  /** Comparing users through a projection inherits the collation's total preorder. */
  lemma ByFieldPreorder(loc: Locale, key: SortBy)
    requires ConsistentCollation(loc) && key != None
    ensures TotalPreorder(ByField(loc, key))
  {
    var c := ByField(loc, key);
    forall a, b
      ensures NotAfter(c, a, b) || NotAfter(c, b, a)
    {
      assert NotAfter(loc.compare, Field(key, a), Field(key, b)) || NotAfter(loc.compare, Field(key, b), Field(key, a));
    }
    forall a, b, d | NotAfter(c, a, b) && NotAfter(c, b, d)
      ensures NotAfter(c, a, d)
    {
      assert NotAfter(loc.compare, Field(key, a), Field(key, b)) && NotAfter(loc.compare, Field(key, b), Field(key, d));
    }
  }

  /** Deleting an id nobody has leaves the list unchanged. */
  lemma DeleteAbsent(users: seq<User>, id: string)
    requires forall i :: 0 <= i < |users| ==> users[i].uuid != id
    ensures DeleteUser(users, id) == users
  {
    FilterAllKept(users, NotId(id));
  }

  /** Deleting the same id twice is deleting it once. */
  lemma DeleteIdempotent(users: seq<User>, id: string)
    ensures DeleteUser(DeleteUser(users, id), id) == DeleteUser(users, id)
  {
    FilterIdempotent(users, NotId(id));
  }

  /** Deletion keeps the remaining users in order, each with its multiplicity. */
  lemma DeleteExact(users: seq<User>, id: string)
    ensures IsSubsequence(DeleteUser(users, id), users)
    ensures forall u :: multiset(DeleteUser(users, id))[u] == if u.uuid != id then multiset(users)[u] else 0
  {
    FilterIsSubsequence(users, NotId(id));
    FilterCounts(users, NotId(id));
  }

  /** Deleting two ids gives the same list in either order. */
  lemma DeleteCommute(users: seq<User>, a: string, b: string)
    ensures DeleteUser(DeleteUser(users, a), b) == DeleteUser(DeleteUser(users, b), a)
  {
    FilterCommute(users, NotId(a), NotId(b));
  }
}

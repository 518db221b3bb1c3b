/** The user records of the table page and the pure operations over a list of them:
    the search filter, the per-id cell edit and the removal after a delete. */
module Users {
  import opened Text
  import Sequences

  /** A row of the user table. */
  datatype User = User(id: int, name: string, role: string, username: string)

  /** The keys of a `User`, in declaration order. */
  datatype Field = Id | Name | Role | Username

  /** The keys whose values are strings: the ones an input can write. */
  type TextField = f: Field | f != Id witness Name

  /** The value stored under a string key. */
  function Get(u: User, f: TextField): string {
    match f
    case Name => u.name
    case Role => u.role
    case Username => u.username
  }

  /** `{...u, [f]: v}`: the record with the value under `f` replaced by `v`. */
  function With(u: User, f: TextField, v: string): (r: User)
    ensures Get(r, f) == v
    ensures r.id == u.id
    ensures forall g: TextField :: g != f ==> Get(r, g) == Get(u, g)
  {
    match f
    case Name => u.(name := v)
    case Role => u.(role := v)
    case Username => u.(username := v)
  }

  /** Two records that agree on the id and on every string key are the same record. */
  lemma RecordExtensionality(u: User, w: User)
    requires u.id == w.id
    requires forall g: TextField :: Get(u, g) == Get(w, g)
    ensures u == w
  {
    assert Get(u, Name) == Get(w, Name);
    assert Get(u, Role) == Get(w, Role);
    assert Get(u, Username) == Get(w, Username);
  }

  // ---------------------------------------------------------------------------
  // Search
  // ---------------------------------------------------------------------------

  /** `value.toString()` of the value stored under `f`. */
  function FieldText(u: User, f: Field): (r: string)
    ensures f != Id ==> r == Get(u, f)
    ensures f == Id && u.id >= 0 ==> |r| >= 1 && AllDigits(r) && DecimalValue(r) == u.id && (r[0] == '0' ==> u.id == 0)
    ensures f == Id && u.id < 0 ==> |r| >= 2 && r[0] == '-' && AllDigits(r[1..]) && DecimalValue(r[1..]) == -u.id && r[1] != '0'
  {
    match f
    case Id => IntToDecimal(u.id)
    case Name => u.name
    case Role => u.role
    case Username => u.username
  }

  /** The search test of one record: some value, lower-cased, contains the lower-cased term.
      The values are tried in key order and the first hit decides. */
  function MatchesSearch(u: User, term: string): (r: bool)
    ensures r <==> exists f: Field :: IsSubstring(Lower(term), Lower(FieldText(u, f)))
  {
    var t := Lower(term);
    assert FieldText(u, Id) == IntToDecimal(u.id);
    assert FieldText(u, Name) == u.name;
    assert FieldText(u, Role) == u.role;
    assert FieldText(u, Username) == u.username;
    || Includes(Lower(IntToDecimal(u.id)), t)
    || Includes(Lower(u.name), t)
    || Includes(Lower(u.role), t)
    || Includes(Lower(u.username), t)
  }

  /** The displayed rows before sorting: the records the search term matches, in order. */
  function FilterUsers(users: seq<User>, term: string): (r: seq<User>)
    ensures Sequences.IsSubsequence(r, users)
    ensures forall u :: u in r <==> u in users && MatchesSearch(u, term)
    ensures forall u :: multiset(r)[u] == if MatchesSearch(u, term) then multiset(users)[u] else 0
  {
    Sequences.Filter(users, (u: User) => MatchesSearch(u, term))
  }

  /** The empty search term keeps every record, in the original order. */
  lemma EmptySearchKeepsAll(users: seq<User>)
    ensures FilterUsers(users, "") == users
  {
    forall u | u in users
      ensures MatchesSearch(u, "")
    {
      EmptyIsIncluded(Lower(FieldText(u, Name)));
      assert Lower("") == "";
    }
    Sequences.FilterKeepsAll(users, (u: User) => MatchesSearch(u, ""));
  }

  /** A term that occurs in no value of any record leaves nothing to display. */
  lemma UnmatchedSearchKeepsNone(users: seq<User>, term: string)
    requires forall u, f :: u in users ==> !Includes(Lower(FieldText(u, f)), Lower(term))
    ensures FilterUsers(users, term) == []
  {
    Sequences.FilterKeepsNone(users, (u: User) => MatchesSearch(u, term));
  }

  /** The search ignores the case of the term: terms equal after lower-casing select the
      same rows. */
  lemma SearchIgnoresCase(users: seq<User>, a: string, b: string)
    requires Lower(a) == Lower(b)
    ensures FilterUsers(users, a) == FilterUsers(users, b)
  {
    Sequences.FilterCongruence(users, (u: User) => MatchesSearch(u, a), (u: User) => MatchesSearch(u, b));
  }

  // ---------------------------------------------------------------------------
  // Cell edit
  // ---------------------------------------------------------------------------

  /** `users.map(...)` of the cell-edit handler: every record with id `userId` gets `v`
      under `f`; the list keeps its length and order and nothing else changes. */
  function EditCell(users: seq<User>, userId: int, f: TextField, v: string): (r: seq<User>)
    ensures |r| == |users|
    ensures forall i :: 0 <= i < |users| ==> r[i].id == users[i].id
    ensures forall i :: 0 <= i < |users| && users[i].id == userId ==> Get(r[i], f) == v
    ensures forall i, g: TextField :: 0 <= i < |users| && g != f ==> Get(r[i], g) == Get(users[i], g)
    ensures forall i :: 0 <= i < |users| && users[i].id != userId ==> r[i] == users[i]
  {
    seq(|users|, i requires 0 <= i < |users| => if users[i].id == userId then With(users[i], f, v) else users[i])
  }

  /** Editing a cell twice keeps only the second value. */
  lemma EditCellLastWins(users: seq<User>, userId: int, f: TextField, v: string, w: string)
    ensures EditCell(EditCell(users, userId, f, v), userId, f, w) == EditCell(users, userId, f, w)
  {
    var a := EditCell(EditCell(users, userId, f, v), userId, f, w);
    var b := EditCell(users, userId, f, w);
    forall i | 0 <= i < |users|
      ensures a[i] == b[i]
    {
      forall g: TextField
        ensures Get(a[i], g) == Get(b[i], g)
      {
      }
      RecordExtensionality(a[i], b[i]);
    }
  }

  /** Editing with an id no record carries changes nothing. */
  lemma EditCellAbsentId(users: seq<User>, userId: int, f: TextField, v: string)
    requires forall u :: u in users ==> u.id != userId
    ensures EditCell(users, userId, f, v) == users
  {
  }

  /** Edits through the inputs the edit mode offers (name and username; the role input is
      read-only) never change a role. */
  lemma EditCellKeepsRoles(users: seq<User>, userId: int, f: TextField, v: string)
    requires f != Role
    ensures forall i :: 0 <= i < |users| ==> EditCell(users, userId, f, v)[i].role == users[i].role
  {
    var r := EditCell(users, userId, f, v);
    forall i | 0 <= i < |users|
      ensures r[i].role == users[i].role
    {
      assert Get(r[i], Role) == Get(users[i], Role);
    }
  }

  // ---------------------------------------------------------------------------
  // Delete
  // ---------------------------------------------------------------------------

  /** `users.filter((user) => user.id !== userId)`: every record with that id removed, the
      others kept with their multiplicities and their order. */
  function RemoveUser(users: seq<User>, userId: int): (r: seq<User>)
    ensures Sequences.IsSubsequence(r, users)
    ensures forall u :: u in r <==> u in users && u.id != userId
    ensures forall u: User :: u.id != userId ==> multiset(r)[u] == multiset(users)[u]
    ensures |r| <= |users|
  {
    Sequences.Filter(users, (u: User) => u.id != userId)
  }

  /** Removing an id no record carries changes nothing. */
  lemma RemoveAbsentId(users: seq<User>, userId: int)
    requires forall u :: u in users ==> u.id != userId
    ensures RemoveUser(users, userId) == users
  {
    Sequences.FilterKeepsAll(users, (u: User) => u.id != userId);
  }

  /** Removing an id that some record carries shortens the list. */
  lemma RemovePresentId(users: seq<User>, userId: int)
    requires exists u :: u in users && u.id == userId
    ensures |RemoveUser(users, userId)| < |users|
  {
    var u :| u in users && u.id == userId;
    Sequences.FilterDropsRejected(users, (w: User) => w.id != userId, u);
  }
}

/** The user table page as a state machine: its state hooks, the handlers that change them,
    the effects of the replies to its delete, save-all, create and list requests, the derived
    list of displayed rows, and the gating of write controls on the stored role. Replies
    from the server are inputs: an ok flag per request, or the list a fetch returned. */
module Table {
  import opened Common
  import opened Text
  import opened Users
  import opened Sorting
  import Sequences
  import Login

  /** The page's state hooks; `draft` is the record being composed in add mode. */
  datatype TableState = TableState(
    users: seq<User>,
    searchTerm: string,
    sort: SortKey,
    editing: bool,
    adding: bool,
    draft: User)

  /** The draft before add mode was ever entered. */
  const BlankDraft := User(0, "", "", "")

  /** The draft add mode starts from. */
  const FreshDraft := User(0, "", "Editor", "")

  const InitialTable := TableState([], "", InitialSort, false, false, BlankDraft)

  /** The stored role that unlocks the write controls. */
  const EditorRole := "Editor"

  // ---------------------------------------------------------------------------
  // Add mode
  // ---------------------------------------------------------------------------

  /** `handleAddUser`: enters add mode with a fresh draft; nothing else changes. */
  function HandleAddUser(t: TableState): (r: TableState)
    ensures r.adding && r.draft == FreshDraft
    ensures r.(adding := t.adding, draft := t.draft) == t
  {
    t.(adding := true, draft := FreshDraft)
  }

  /** `handleCancelAddUser`: leaves add mode; the draft itself is kept. */
  function HandleCancelAddUser(t: TableState): (r: TableState)
    ensures !r.adding
    ensures r.(adding := t.adding) == t
  {
    t.(adding := false)
  }

  /** The draft a cancel leaves behind is never seen again: entering add mode after a
      cancel is the same as entering it directly. */
  lemma CancelForgetsDraft(t: TableState)
    ensures HandleAddUser(HandleCancelAddUser(t)) == HandleAddUser(t)
  {
  }

  /** `handleNewUserChange`: the draft's value under `f` becomes `v`; the draft's other
      values and the rest of the state are unchanged. */
  function HandleNewUserChange(t: TableState, f: TextField, v: string): (r: TableState)
    ensures Get(r.draft, f) == v
    ensures r.draft.id == t.draft.id
    ensures forall g: TextField :: g != f ==> Get(r.draft, g) == Get(t.draft, g)
    ensures r.(draft := t.draft) == t
  {
    t.(draft := With(t.draft, f, v))
  }

  /** The result of `handleSaveUser`: the state, the draft sent as the request body, and
      whether a reload of the list was started. */
  datatype SaveUserStep = SaveUserStep(table: TableState, request: User, reload: bool)

  /** `handleSaveUser`: posts the draft. When the request completes, whatever its status,
      a reload is started and add mode ends; when it fails, nothing changes. */
  function HandleSaveUser(t: TableState, completed: bool): (r: SaveUserStep)
    ensures r.request == t.draft
    ensures r.reload == completed
    ensures completed ==> r.table == t.(adding := false)
    ensures !completed ==> r.table == t
  {
    if completed then SaveUserStep(t.(adding := false), t.draft, true)
    else SaveUserStep(t, t.draft, false)
  }

  /** The record a save posts is the fresh draft with what was typed into the form: the id
      stays 0 and the role stays "Editor" unless the select changed it. */
  lemma SavedDraft(t: TableState, name: string, username: string, completed: bool)
    ensures var typed := HandleNewUserChange(HandleNewUserChange(HandleAddUser(t), Name, name), Username, username);
      HandleSaveUser(typed, completed).request == User(0, name, "Editor", username)
  {
  }

  /** Typing into one draft input twice keeps only the second value. */
  lemma NewUserChangeLastWins(t: TableState, f: TextField, v: string, w: string)
    ensures HandleNewUserChange(HandleNewUserChange(t, f, v), f, w) == HandleNewUserChange(t, f, w)
  {
    var a := HandleNewUserChange(HandleNewUserChange(t, f, v), f, w).draft;
    var b := HandleNewUserChange(t, f, w).draft;
    forall g: TextField
      ensures Get(a, g) == Get(b, g)
    {
    }
    RecordExtensionality(a, b);
  }

  /** `fetchUsers`: a list that arrived replaces the whole collection; a failed fetch
      changes nothing. */
  function ApplyFetch(t: TableState, fetched: Option<seq<User>>): (r: TableState)
    ensures fetched.Some? ==> r == t.(users := fetched.value)
    ensures fetched.None? ==> r == t
  {
    match fetched
    case Some(list) => t.(users := list)
    case None => t
  }

  // ---------------------------------------------------------------------------
  // Search, sort and edit mode
  // ---------------------------------------------------------------------------

  /** `handleSearch`: only the search term changes. */
  function HandleSearch(t: TableState, term: string): (r: TableState)
    ensures r.searchTerm == term && r.(searchTerm := t.searchTerm) == t
  {
    t.(searchTerm := term)
  }

  /** A header click: the sort changes as `handleSort` says, nothing else does. */
  function HandleHeaderClick(t: TableState, f: Field): (r: TableState)
    ensures r.sort.field == f
    ensures f == t.sort.field ==> r.sort.order != t.sort.order
    ensures f != t.sort.field ==> r.sort.order == Asc
    ensures r.(sort := t.sort) == t
  {
    t.(sort := HandleSort(t.sort, f))
  }

  /** `handleEdit`: toggles edit mode. */
  function HandleEdit(t: TableState): (r: TableState)
    ensures r.editing != t.editing
    ensures r.(editing := t.editing) == t
  {
    t.(editing := !t.editing)
  }

  /** `handleEditCell`: the cell edit applied to the collection; only `users` changes. */
  function HandleEditCell(t: TableState, userId: int, f: TextField, v: string): (r: TableState)
    ensures |r.users| == |t.users|
    ensures forall i :: 0 <= i < |t.users| ==> r.users[i].id == t.users[i].id
    ensures forall i :: 0 <= i < |t.users| && t.users[i].id == userId ==> Get(r.users[i], f) == v
    ensures forall i, g: TextField :: 0 <= i < |t.users| && g != f ==> Get(r.users[i], g) == Get(t.users[i], g)
    ensures forall i :: 0 <= i < |t.users| && t.users[i].id != userId ==> r.users[i] == t.users[i]
    ensures r.(users := t.users) == t
  {
    t.(users := EditCell(t.users, userId, f, v))
  }

  /** Two presses of the edit button leave the page as it was. */
  lemma EditTwice(t: TableState)
    ensures HandleEdit(HandleEdit(t)) == t
  {
  }

  // ---------------------------------------------------------------------------
  // Delete and save-all
  // ---------------------------------------------------------------------------

  /** `handleDelete` once the reply is in: on an ok reply every record with that id is
      removed, the others kept in order; otherwise (a failed status or a failed request)
      nothing changes. */
  function HandleDeleteReply(t: TableState, userId: int, ok: bool): (r: TableState)
    ensures ok ==> forall u :: u in r.users <==> u in t.users && u.id != userId
    ensures ok ==> Sequences.IsSubsequence(r.users, t.users)
    ensures ok ==> forall u: User :: u.id != userId ==> multiset(r.users)[u] == multiset(t.users)[u]
    ensures !ok ==> r == t
    ensures r.(users := t.users) == t
  {
    if ok then t.(users := RemoveUser(t.users, userId)) else t
  }

  /** A delete of an id no record carries leaves the collection as it was, whatever the
      reply. */
  lemma DeleteAbsentId(t: TableState, userId: int, ok: bool)
    requires forall u :: u in t.users ==> u.id != userId
    ensures HandleDeleteReply(t, userId, ok) == t
  {
    if ok {
      RemoveAbsentId(t.users, userId);
    }
  }

  /** Every request before the `n`-th succeeded. */
  ghost predicate SucceededBefore(responses: seq<bool>, n: int)
    requires n <= |responses|
  {
    forall i :: 0 <= i < n ==> responses[i]
  }

  /** How many updates a save-all issues, given the replies: up to and including the first
      failed one, or all of them. */
  function Attempts(responses: seq<bool>): (n: nat)
    ensures n <= |responses|
  {
    if responses == [] then 0
    else if !responses[0] then 1
    else 1 + Attempts(responses[1..])
  }

  /** The `n`-th update is issued iff every earlier one succeeded. */
  lemma {:induction false} AttemptsMeaning(responses: seq<bool>, n: nat)
    requires n < |responses|
    ensures n < Attempts(responses) <==> SucceededBefore(responses, n)
  {
    if n > 0 && responses[0] {
      AttemptsMeaning(responses[1..], n - 1);
      assert SucceededBefore(responses, n) <==> SucceededBefore(responses[1..], n - 1) by {
        assert forall i :: 1 <= i < n ==> responses[i] == responses[1..][i - 1];
      }
    }
  }

  /** `handleSaveChanges`: sends one update per record, in collection order, and stops at
      the first reply that is not ok (`responses[i]` is the outcome of the `i`-th update).
      It returns the new state and the records sent. Edit mode ends only when every update
      succeeded; the collection itself never changes. */
  method HandleSaveChanges(t: TableState, responses: seq<bool>) returns (r: TableState, sent: seq<User>)
    requires |responses| == |t.users|
    ensures |sent| == Attempts(responses) && sent == t.users[..|sent|]
    ensures SucceededBefore(responses, |sent| - 1)
    ensures |sent| < |t.users| ==> |sent| > 0 && !responses[|sent| - 1]
    ensures SucceededBefore(responses, |t.users|) ==> |sent| == |t.users| && !r.editing
    ensures !SucceededBefore(responses, |t.users|) ==> r.editing == t.editing
    ensures r.(editing := t.editing) == t
  {
    sent := [];
    var i := 0;
    while i < |t.users|
      invariant 0 <= i <= |t.users|
      invariant sent == t.users[..i]
      invariant SucceededBefore(responses, i)
      invariant Attempts(responses) == i + Attempts(responses[i..])
    {
      assert responses[i..][1..] == responses[i + 1..];
      sent := sent + [t.users[i]];
      if !responses[i] {
        return t, sent;
      }
      i := i + 1;
    }
    r := t.(editing := false);
  }

  // ---------------------------------------------------------------------------
  // The displayed rows
  // ---------------------------------------------------------------------------

  /** `sortedUsers`: the rows the search term matches, sorted by the active field and
      direction. */
  function View(t: TableState): (rows: seq<User>)
    ensures multiset(rows) == multiset(FilterUsers(t.users, t.searchTerm))
    ensures SortedBy(rows, t.sort)
  {
    SortUsers(FilterUsers(t.users, t.searchTerm), t.sort)
  }

  /** A record is displayed iff it is in the collection and matches the search term; it is
      displayed as often as it occurs in the collection. */
  lemma ViewRows(t: TableState)
    ensures forall u :: u in View(t) <==> u in t.users && MatchesSearch(u, t.searchTerm)
    ensures forall u :: MatchesSearch(u, t.searchTerm) ==> multiset(View(t))[u] == multiset(t.users)[u]
  {
    var rows := View(t);
    forall u
      ensures u in rows <==> u in t.users && MatchesSearch(u, t.searchTerm)
    {
      assert u in rows <==> u in multiset(rows);
    }
  }

  /** With an empty search every record is displayed, just reordered. */
  lemma EmptySearchShowsAll(t: TableState)
    requires t.searchTerm == ""
    ensures multiset(View(t)) == multiset(t.users)
  {
    EmptySearchKeepsAll(t.users);
  }

  /** After a reload with an empty search, exactly the fetched records are displayed. */
  lemma ReloadShowsFetched(t: TableState, list: seq<User>)
    requires t.searchTerm == ""
    ensures multiset(View(ApplyFetch(t, Some(list)))) == multiset(list)
  {
    EmptySearchShowsAll(ApplyFetch(t, Some(list)));
  }

  /** Search terms that differ only in letter case display the same rows. */
  lemma SearchCaseInsensitiveView(t: TableState, a: string, b: string)
    requires Lower(a) == Lower(b)
    ensures View(HandleSearch(t, a)) == View(HandleSearch(t, b))
  {
    SearchIgnoresCase(t.users, a, b);
  }

  /** After an ok delete no displayed row carries the deleted id, and every displayed row
      was displayed before. */
  lemma DeletedRowsNotShown(t: TableState, userId: int)
    ensures forall u :: u in View(HandleDeleteReply(t, userId, true)) ==> u.id != userId && u in View(t)
  {
    ViewRows(t);
    ViewRows(HandleDeleteReply(t, userId, true));
  }

  /** Clicking the id header while sorting by id ascending shows the same rows in exactly
      the reverse order, provided no two records share an id. */
  lemma IdHeaderToggleReverses(t: TableState)
    requires t.sort == SortKey(Id, Asc)
    requires DistinctIds(t.users)
    ensures View(HandleHeaderClick(t, Id)) == Sequences.Reverse(View(t))
  {
    var shown := FilterUsers(t.users, t.searchTerm);
    assert DistinctIds(shown) by {
      forall i, j | 0 <= i < j < |shown|
        ensures shown[i].id != shown[j].id
      {
        assert shown[i] in t.users && shown[j] in t.users;
        if shown[i].id == shown[j].id {
          SameIdSameRecord(t.users, shown[i], shown[j]);
          Sequences.TwoPositionsTwoCopies(shown, i, j);
          DistinctIdsSingleCopies(t.users, shown[i]);
        }
      }
    }
    ToggleReversesIdSort(shown);
  }

  // ---------------------------------------------------------------------------
  // Write controls
  // ---------------------------------------------------------------------------

  /** The "Add New User" button is shown iff the stored role is exactly "Editor" and add
      mode is off. */
  function ShowAddButton(userRole: Option<string>, adding: bool): (shown: bool)
    ensures shown ==> userRole.Some? && userRole.value == EditorRole
    ensures userRole == Some(EditorRole) && !adding ==> shown
    ensures adding ==> !shown
  {
    userRole == Some(EditorRole) && !adding
  }

  /** The Actions column (with the per-row delete button) is rendered iff the stored role
      is exactly "Editor". */
  function ShowActions(userRole: Option<string>): (shown: bool)
    ensures shown <==> userRole.Some? && userRole.value == EditorRole
  {
    userRole == Some(EditorRole)
  }

  /** A session whose role is anything but "Editor", or no session, sees no write control. */
  lemma NonEditorSeesNoWriteControls(userRole: Option<string>, adding: bool)
    requires userRole != Some(EditorRole)
    ensures !ShowActions(userRole) && !ShowAddButton(userRole, adding)
  {
  }

  /** For an editor, a completed save brings the "Add New User" button back. */
  lemma SaveRestoresAddButton(t: TableState)
    ensures ShowAddButton(Some(EditorRole), HandleSaveUser(t, true).table.adding)
    ensures !ShowAddButton(Some(EditorRole), HandleAddUser(t).adding)
  {
  }

  /** After a successful login the write controls follow the role the server sent. */
  lemma LoginRoleGatesWrites(page: Login.LoginPage, storage: Login.Storage, status: string, name: string, role: string)
    requires status != Login.ErrorStatus
    ensures var done := Login.HandleReply(page, storage, Login.Reply(status, Some(Login.ReplyUser(name, role))));
      ShowActions(done.storage.userRole) <==> role == EditorRole
  {
  }

  // ---------------------------------------------------------------------------
  // A worked example
  // ---------------------------------------------------------------------------

  const UserA := User(1, "A", "Editor", "a")
  const UserB := User(2, "B", "Viewer", "b")

  /** A string without `b` or `B` does not contain "b" once lower-cased. */
  lemma NoLetterB(s: string)
    requires forall i :: 0 <= i < |s| ==> s[i] != 'b' && s[i] != 'B'
    ensures !IsSubstring("b", Lower(s))
  {
    forall i | 0 <= i < |s|
      ensures !OccursAt("b", Lower(s), i)
    {
      assert Lower(s)[i..i + 1][0] == LowerChar(s[i]);
    }
  }

  lemma SearchBSelectsB()
    ensures MatchesSearch(UserB, "b") && !MatchesSearch(UserA, "b")
  {
    assert Lower("b") == "b";
    assert OccursAt("b", Lower(FieldText(UserB, Username)), 0);
    forall f: Field
      ensures !IsSubstring("b", Lower(FieldText(UserA, f)))
    {
      NoLetterB(FieldText(UserA, f));
    }
  }

  /** Sorting two records with different ids by id puts the smaller id first when
      ascending and last when descending. */
  lemma SortedPair(a: User, b: User, k: SortKey)
    requires a.id < b.id && k.field == Id
    ensures SortUsers([b, a], k) == (if k.order == Asc then [a, b] else [b, a])
  {
    var r := SortUsers([b, a], k);
    assert multiset(r) == multiset{a, b};
    assert r[0] in multiset(r) && r[1] in multiset(r);
    assert InOrder(r[0], r[1], k);
  }

  /** The term "b" keeps only B, which its name and username contain. */
  lemma SearchBKeepsB()
    ensures FilterUsers([UserB, UserA], "b") == [UserB]
  {
    SearchBSelectsB();
    var found := FilterUsers([UserB, UserA], "b");
    assert multiset(found) == multiset{UserB};
    assert found[0] in multiset(found);
  }

  /** Two records listed as [B, A]: sorting by id ascending shows [A, B]; the term "b" keeps
      only B; a click on the id header while sorting by id ascending shows [B, A]. */
  lemma TwoUserExample()
    ensures View(InitialTable.(users := [UserB, UserA])) == [UserA, UserB]
    ensures View(InitialTable.(users := [UserB, UserA], searchTerm := "b")) == [UserB]
    ensures View(HandleHeaderClick(InitialTable.(users := [UserB, UserA]), Id)) == [UserB, UserA]
  {
    EmptySearchKeepsAll([UserB, UserA]);
    SortedPair(UserA, UserB, SortKey(Id, Asc));
    SortedPair(UserA, UserB, SortKey(Id, Desc));
    SearchBKeepsB();
  }

  /** A save-all whose second of three updates fails issues two updates, and not every
      update succeeds. */
  lemma SaveAllSecondFails()
    ensures Attempts([true, false, true]) == 2
    ensures !SucceededBefore([true, false, true], 3)
  {
    assert [true, false, true][1..] == [false, true];
  }

  /** The same scenario run through the handler: with three records and the second update
      failing, only the first two records are sent, edit mode stays on and the records are
      unchanged. */
  method SaveAllSecondFailsRun(t: TableState) returns (r: TableState, sent: seq<User>)
    requires |t.users| == 3 && t.editing
    ensures sent == t.users[..2]
    ensures r.editing && r.users == t.users
  {
    SaveAllSecondFails();
    r, sent := HandleSaveChanges(t, [true, false, true]);
  }
}

# WES-test: login gate and user table, modelled in Dafny

This project models the client-side logic of the WES-test app's two pages.

- **The login page.** The password validator (`validatePassword`) turns a password into an
  ordered list of literal rule-violation messages. The submit handler (`handleSubmit`) sends
  the credentials only when the stored list is empty. The handling of the authentication
  reply writes the user's name and role to browser storage, or shows the fixed
  bad-credentials message.
- **The user table page.** This covers:
  - the `User` record and the page's state hooks;
  - the add-user draft handlers and the search box;
  - the sort-header toggle and the per-id cell edit;
  - the derived rows: the case-insensitive substring filter followed by the field and
    direction sort;
  - the local effect of a delete reply, the stop-at-first-failure loop of "save all", and
    the effect of creating a user and of reloading the list;
  - the gating of the write controls on the stored role "Editor".

Each page is a pure state machine over immutable records. A handler is a function from
the page state (and the event's value) to the next state. Network replies are inputs:
- an ok flag per request;
- the parsed login reply (`Login.LoginReply`);
- the list a reload returned (`Option<seq<User>>`).

Requests are outputs (`Login.Submission.request`, `Table.SaveUserStep.request`, the
`sent` list of `Table.HandleSaveChanges`).

JavaScript built-ins are modelled explicitly in `Text`:
- `toLowerCase` lowers ASCII letters only;
- `includes` is substring search;
- `Number.prototype.toString` is the canonical decimal form of an integer (no leading
  zeros), for safe integers;
- `<` on strings is lexicographic over characters, with a proper prefix smaller.

`Array.prototype.sort` is modelled as an insertion sort with the page's comparator. What is
stated about it is what the page relies on: the rows are a permutation of the input, and
adjacent rows are in order.

Files:
- `common.dfy`: `Option`.
- `text.dfy`: the string built-ins.
- `sequences.dfy`: filter, subsequence and reverse.
- `password.dfy`: the validator.
- `login.dfy`: the login page.
- `users.dfy`: the record and the list operations.
- `sorting.dfy`: `handleSort` and the sort.
- `table.dfy`: the table page.

Two behaviours of the code are easy to misread; the model follows the code:

- **Save all.** After a failed update, edit mode stays on. The throw skips
  `setEditing(false)` (src/pages/home/index.tsx:150-156).
- **Login reply.** When the login request fails or its reply is not JSON, the loading flag
  stays raised. The promise chain has no rejection handler, and the surrounding `catch`
  only sees synchronous throws (src/pages/Login/index.tsx:62-96). Modelled by
  `Login.LoginReply.Unreadable`.

The edit-mode toggle `handleEdit` is modelled. However, its button is commented out in the
markup (src/pages/home/index.tsx:326-328), so the shipped page never enters edit mode. Likewise no control in the markup calls
`handleSaveChanges` (src/pages/home/index.tsx:136-160): `Table.HandleSaveChanges` models a
handler the shipped page never invokes.

## Model

| member | source | states |
|---|---|---|
| Password.TestClass | src/pages/Login/index.tsx:32-52 | A lookahead test `/(?=.*[X])/` holds exactly when some character of the password is in class X |
| Password.ViolatedRules | src/pages/Login/index.tsx:25-55 | The rules a password breaks: each broken rule exactly once, in the order length, lowercase, uppercase, digit, special |
| Password.ValidatePassword | src/pages/Login/index.tsx:25-55 | The validator's list is the messages of exactly the broken rules, in rule order; it is empty iff the password has at least 8 characters and a lowercase letter, an uppercase letter, a digit and one of `@$!%*?&` |
| Password.MessageInjective | src/pages/Login/index.tsx:28-52 | The five messages are pairwise different, so a message identifies its rule |
| Password.ReadMessages | src/pages/Login/index.tsx:25-55 | For rules in rule order, a rule's message is present iff the rule is, no message repeats, and there are at most five |
| Password.ValidationReport | src/pages/Login/index.tsx:25-55 | Each message is in the validator's list iff the password breaks that rule; no message appears twice; at most five messages |
| Password.LengthMessage | src/pages/Login/index.tsx:28-30 | The length message is present iff the password has fewer than 8 characters |
| Password.ClassMessages | src/pages/Login/index.tsx:32-52 | The lowercase, uppercase, digit and special messages are each present iff no character is in `a-z`, `A-Z`, `0-9`, `@$!%*?&` respectively |
| Login.InitialPage | src/pages/Login/index.tsx:6-11 | The page starts with empty username, password, message and error list, no error shown and not loading |
| Login.HandleUsernameChange | src/pages/Login/index.tsx:15-17 | Only the username changes |
| Login.HandlePasswordChange | src/pages/Login/index.tsx:19-23 | The password is stored and the error list becomes the validator's list for it, the messages of exactly the broken rules in rule order; the list is empty iff the new password is acceptable; nothing else changes |
| Login.HandleSubmit | src/pages/Login/index.tsx:57-98 | A request carrying the form's username and password is sent iff the stored error list is empty; sending raises the loading flag and empties the errors; a blocked submit changes nothing |
| Login.HandleReply | src/pages/Login/index.tsx:73-92 | A reply whose status is not "error" and that has a user stores that user's name and role, navigates away, clears the form and the loading flag. Status "error" clears the loading flag, shows the error and sets the fixed message. A reply without a user, or an unreadable one, changes nothing |
| Login.SubmitGate | src/pages/Login/index.tsx:19-61 | Right after a password is typed, a submit is sent iff that password is acceptable |
| Login.SubmitGateIgnoresUsername | src/pages/Login/index.tsx:15-72 | Typing a username between password and submit does not move the gate; the request carries the latest username |
| Login.SubmitBeforeTyping | src/pages/Login/index.tsx:10-61 | Since the error list starts empty and only a password change recomputes it, a submit before any password input is sent, with the empty password |
| Login.LoadingAfterReply | src/pages/Login/index.tsx:61-92 | After a sent submit, a readable reply with status "error" or with a user lowers the loading flag; an unreadable reply leaves it raised |
| Login.SuccessfulLogin | src/pages/Login/index.tsx:77-84 | A successful login stores exactly the name and role sent by the server, whatever was stored before, and empties the form |
| Text.Lower | src/pages/home/index.tsx:106 | Lower-casing keeps the length and lowers each ASCII capital; no capital remains |
| Text.LowerIdempotent | src/pages/home/index.tsx:106 | Lower-casing twice is lower-casing once |
| Text.Includes | src/pages/home/index.tsx:106 | `hay.includes(needle)` holds iff the needle occurs at some position of the haystack |
| Text.EmptyIsIncluded | src/pages/home/index.tsx:106 | Every string includes the empty string |
| Text.IntToDecimal | src/pages/home/index.tsx:106 | The text form of an id has no capitals; it is the digits of the id without leading zeros (after a minus sign when negative), and reading them back gives the id |
| Text.DecimalRoundTrip | src/pages/home/index.tsx:106 | Reading the decimal form of a natural number gives back the number |
| Text.LexLess | src/pages/home/index.tsx:113-116 | String `<` is irreflexive; its full meaning is stated by `Text.LexLessMeetsSpec` |
| Text.LexLessMeetsSpec | src/pages/home/index.tsx:113-116 | String `<` agrees with the textbook lexicographic order: a proper prefix is smaller, otherwise the first differing character decides |
| Text.LexLessAsymmetric | src/pages/home/index.tsx:113-116 | String `<` never holds both ways |
| Text.LexLessTotal | src/pages/home/index.tsx:113-116 | Of two different strings one is `<` the other |
| Text.LexLessTransitive | src/pages/home/index.tsx:113-116 | String `<` is transitive |
| Sequences.Filter | src/pages/home/index.tsx:104-108 | `Array.prototype.filter` keeps exactly the elements the test accepts, each as often as it occurs, in the original order |
| Users.With | src/pages/home/index.tsx:94-97 | The spread-and-override `{...u, [f]: v}` sets the value under `f` and keeps the id and the other keys |
| Users.RecordExtensionality | src/pages/home/index.tsx:4-9 | A record is determined by its id and its three string values |
| Users.FieldText | src/pages/home/index.tsx:105-106 | `value.toString()` of a string value is the value; of the id it is the canonical decimal digits, read back to the id. How it is searched is stated by `Users.MatchesSearch` |
| Users.MatchesSearch | src/pages/home/index.tsx:105-107 | A record matches iff the lower-cased term occurs in the lower-cased text of one of its four values |
| Users.FilterUsers | src/pages/home/index.tsx:104-108 | The filtered rows are an order-preserving subsequence of the records; a record is kept iff it matches, with its multiplicity |
| Users.EmptySearchKeepsAll | src/pages/home/index.tsx:104-108 | The empty term keeps every record, in order |
| Users.UnmatchedSearchKeepsNone | src/pages/home/index.tsx:104-108 | A term found in no value of any record keeps nothing |
| Users.SearchIgnoresCase | src/pages/home/index.tsx:106 | Terms that agree after lower-casing select the same rows |
| Users.EditCell | src/pages/home/index.tsx:92-100 | Same length and ids, in the same order; every record with the given id gets the value under the field; other keys and other records are unchanged |
| Users.EditCellLastWins | src/pages/home/index.tsx:87-102 | Two edits of the same cell leave only the second value |
| Users.EditCellAbsentId | src/pages/home/index.tsx:92-100 | An edit for an id no record carries changes nothing |
| Users.EditCellKeepsRoles | src/pages/home/index.tsx:284-315 | Edits through the editable inputs (name, username) never change a role; the role input is read-only |
| Users.RemoveUser | src/pages/home/index.tsx:175 | The removal keeps an order-preserving subsequence: exactly the records whose id differs, with their multiplicities |
| Users.RemoveAbsentId | src/pages/home/index.tsx:175 | Removing an id no record carries changes nothing |
| Users.RemovePresentId | src/pages/home/index.tsx:175 | Removing an id some record carries shortens the list |
| Sorting.HandleSort | src/pages/home/index.tsx:74-81 | A click on the active field's header flips the direction; a click on another header selects that field, ascending |
| Sorting.SortClickTwice | src/pages/home/index.tsx:74-81 | Two clicks on the active header restore the sort |
| Sorting.SortNewFieldTwice | src/pages/home/index.tsx:74-81 | Two clicks on another header sort by it, descending |
| Sorting.Compare | src/pages/home/index.tsx:110-120 | The comparator returns -1, 0 or 1 and puts `a` first exactly when `a` may precede `b` in the active direction; `Sorting.CompareMeaning` adds antisymmetry |
| Sorting.CompareMeaning | src/pages/home/index.tsx:110-120 | The comparator is antisymmetric, and it puts `a` first exactly when `a` may precede `b` in the active direction |
| Sorting.Insert | src/pages/home/index.tsx:110-120 | Inserting into sorted rows adds one copy of the row and keeps them sorted |
| Sorting.SortUsers | src/pages/home/index.tsx:110-120 | The sorted rows are a permutation of the input; adjacent rows are non-decreasing in the field ascending and non-increasing descending |
| Sorting.SortKeepsRows | src/pages/home/index.tsx:110-120 | Sorting keeps exactly the rows it is given |
| Sorting.DistinctIdsPermutation | src/pages/home/index.tsx:110-120 | Distinct ids survive any rearrangement |
| Sorting.StrictFromSorted | src/pages/home/index.tsx:110-120 | Rows sorted by distinct ids are strictly increasing (ascending) or strictly decreasing (descending) |
| Sorting.DecreasingUnique | src/pages/home/index.tsx:110-120 | Two rearrangements of the same rows with strictly decreasing ids are equal |
| Sorting.ToggleReversesIdSort | src/pages/home/index.tsx:110-120 | With distinct ids, switching the id sort to descending shows the ascending rows in exact reverse |
| Table.InitialTable | src/pages/home/index.tsx:12-23 | The page starts with no records, an empty search, the sort by id ascending, edit and add mode off, and the all-empty draft with id 0 |
| Table.HandleAddUser | src/pages/home/index.tsx:26-34 | Add mode is on and the draft is `{id: 0, name: "", role: "Editor", username: ""}`; nothing else changes |
| Table.HandleCancelAddUser | src/pages/home/index.tsx:36-38 | Add mode is off; nothing else changes, not even the draft |
| Table.CancelForgetsDraft | src/pages/home/index.tsx:26-38 | The draft a cancel keeps is never seen again: entering add mode after a cancel equals entering it directly |
| Table.HandleNewUserChange | src/pages/home/index.tsx:57-68 | Only the draft's value under the input's name changes |
| Table.NewUserChangeLastWins | src/pages/home/index.tsx:57-68 | Typing into the same draft input twice keeps only the second value |
| Table.HandleSaveUser | src/pages/home/index.tsx:40-55 | The draft is posted; a completed request, whatever its status, starts a reload and ends add mode; a failed request changes nothing |
| Table.SavedDraft | src/pages/home/index.tsx:26-68 | A fresh draft with a name and a username typed posts `{id: 0, name, role: "Editor", username}` |
| Table.ApplyFetch | src/pages/home/index.tsx:122-131 | A list that arrived replaces the records; a failed reload changes nothing |
| Table.HandleSearch | src/pages/home/index.tsx:70-72 | Only the search term changes |
| Table.HandleHeaderClick | src/pages/home/index.tsx:74-81 | A header click changes the sort as `handleSort` says, and nothing else |
| Table.HandleEdit | src/pages/home/index.tsx:83-85 | Edit mode toggles; nothing else changes |
| Table.EditTwice | src/pages/home/index.tsx:83-85 | Two presses of the edit button restore the page |
| Table.HandleEditCell | src/pages/home/index.tsx:87-102 | The cell edit applied to the page's records; nothing else changes |
| Table.HandleDeleteReply | src/pages/home/index.tsx:162-179 | On an ok reply, exactly the records with another id remain, in order and with their multiplicities; on a failed reply or a failed request nothing changes |
| Table.DeleteAbsentId | src/pages/home/index.tsx:162-179 | A delete of an id no record carries leaves the page unchanged, whatever the reply |
| Table.Attempts | src/pages/home/index.tsx:138-153 | The number of updates a save-all issues, at most one per record; its meaning is stated by `Table.AttemptsMeaning` |
| Table.AttemptsMeaning | src/pages/home/index.tsx:138-153 | The `n`-th update is issued iff all earlier updates succeeded |
| Table.HandleSaveChanges | src/pages/home/index.tsx:136-160 | Updates go out in collection order and stop after the first failed one, so the count is that of `Attempts`. Edit mode ends iff every update succeeded, and otherwise keeps its value. The records never change |
| Table.SaveAllSecondFails | src/pages/home/index.tsx:138-153 | For the replies [ok, failed, ok], the loop issues two updates and not every update succeeds |
| Table.SaveAllSecondFailsRun | src/pages/home/index.tsx:136-160 | Running the save-all handler on three records whose second update fails sends only the first two records, leaves edit mode on and the records unchanged |
| Table.View | src/pages/home/index.tsx:104-120 | The displayed rows are a permutation of the matching records, in order under the active sort |
| Table.ViewRows | src/pages/home/index.tsx:104-120 | A record is displayed iff it is stored and matches the term; a matching record is displayed as often as it is stored |
| Table.EmptySearchShowsAll | src/pages/home/index.tsx:104-120 | With an empty term every stored record is displayed, reordered |
| Table.IdHeaderToggleReverses | src/pages/home/index.tsx:74-120 | With distinct ids, a click on the id header while sorting by id ascending shows the same rows in exact reverse order |
| Table.ReloadShowsFetched | src/pages/home/index.tsx:122-131 | After a reload with an empty search term, the displayed rows are exactly the fetched records, reordered |
| Table.SearchCaseInsensitiveView | src/pages/home/index.tsx:104-108 | Search terms that differ only in letter case display the same rows |
| Table.DeletedRowsNotShown | src/pages/home/index.tsx:171-175 | After an ok delete, no displayed row carries the deleted id, and every displayed row was displayed before |
| Table.TwoUserExample | src/pages/home/index.tsx:104-120 | Records [B(id 2), A(id 1)] display as [A, B]; the term "b" leaves [B]; a click on the id header while sorting by id ascending displays [B, A] |
| Table.SearchBKeepsB | src/pages/home/index.tsx:104-108 | The term "b" keeps record B (name "B", username "b") and drops record A |
| Table.ShowAddButton | src/pages/home/index.tsx:193-197 | The add button is shown iff the stored role is exactly "Editor" and add mode is off |
| Table.ShowActions | src/pages/home/index.tsx:317-331 | The Actions column and the delete buttons are rendered iff the stored role is exactly "Editor" |
| Table.NonEditorSeesNoWriteControls | src/pages/home/index.tsx:193-331 | Any other role, or no stored role, sees neither the add button nor the Actions column |
| Table.SaveRestoresAddButton | src/pages/home/index.tsx:26-55 | For an editor, add mode hides the add button and a completed save shows it again |
| Table.LoginRoleGatesWrites | src/pages/Login/index.tsx:77-81 | After a successful login the Actions column is shown iff the role sent by the server is "Editor" |

## Left out

- Network and storage. The `fetch` calls, JSON parsing, `localStorage` and routing are left
  out. Replies are inputs; the stored role is an `Option<string>`.
- src/App.tsx is not part of this model. It only declares the routes.
- Rendering. The JSX, CSS and the button's label and disabled state are left out, and so is
  the "Loadig ..." placeholder shown while the list is empty (src/pages/home/index.tsx:265-268).
  The Editor gating is modelled as predicates over the stored role.
- Concurrency. Each handler runs to completion before the next. Interleaved replies and
  repeated clicks are left out. So is the stale `users` captured by a delete that overlaps
  another change.
- Users.EditCell: edits of the id cell are excluded, because the id input stores a string
  into a numeric field (src/pages/home/index.tsx:96, 277). The field parameter ranges over
  the three string keys only.
- Text.Lower: only ASCII letters are lowered.
- Password.ValidatePassword: `.length` (src/pages/Login/index.tsx:28) is modelled as the
  number of characters, not UTF-16 code units, so `Password.LengthMessage` differs from the
  page for passwords with characters above U+FFFF: "aA1@" followed by two such characters
  has 6 characters in the model and gets the length message, while the page counts 8.
- Text.LexLess: compares Unicode scalar values, whereas JavaScript's `<` compares UTF-16
  code units (src/pages/home/index.tsx:113-116). The two orders differ between characters
  above U+FFFF and those in U+E000–U+FFFF.
- Text.IntToDecimal: ids are safe integers (|id| ≤ 2^53). Above that, `toString` prints
  the shortest digits that round-trip through a double, and from 10^21 on it uses the
  exponent form; both are left out, and so are non-integer ids.
- Users.MatchesSearch: only the four declared keys are searched. Extra keys a server record
  might carry, which `Object.values` would also see, are left out.
- Sorting.SortUsers: stability is not stated. Only the permutation and the adjacent order
  are claimed.
- Login.HandleReply: the reply's user is taken to carry a name and a role. A user object
  without them would store the text "undefined", which is left out.
- Table.ApplyFetch: a reply body whose `data` field is missing would set the records to
  `undefined`. This is left out; a reply is either a list or a failure.
- Table.HandleSaveChanges: the PUT request's URL and headers are left out. The model
  returns the records sent, in order.
- Logging to the console in every `catch` is left out.

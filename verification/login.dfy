/** The login page as a state machine: its state hooks, the input handlers, the submit gate
    (`handleSubmit`) and the handling of the authentication reply. The request itself is
    an output of the submit step and the reply an input of the reply step. */
module Login {
  import opened Common
  import Password

  /** The page's state hooks. */
  datatype LoginPage = LoginPage(
    username: string,
    password: string,
    showError: bool,
    errorMessage: string,
    errors: seq<string>,
    isLoading: bool)

  const InitialPage := LoginPage("", "", false, "", [], false)

  /** The one message shown for a rejected login. */
  const BadCredentialsMessage := "user name or password isn't correct, please try again..."

  /** The `status` value by which the server reports a rejected login. */
  const ErrorStatus := "error"

  /** The JSON body of the login request. */
  datatype Credentials = Credentials(username: string, password: string)

  /** The `user` object of a successful reply. */
  datatype ReplyUser = ReplyUser(username: string, role: string)

  /** How the reply promise ends: the body could not be read as JSON (or the request
      failed), or it was read with a `status` and, possibly, a `user`. */
  datatype LoginReply = Unreadable | Reply(status: string, user: Option<ReplyUser>)

  /** The browser storage entries "userName" and "userRole"; `None` when never written. */
  datatype Storage = Storage(userName: Option<string>, userRole: Option<string>)

  /** `handleUsernameChange`: only the username changes. */
  function HandleUsernameChange(page: LoginPage, value: string): (r: LoginPage)
    ensures r.username == value
    ensures r.(username := page.username) == page
  {
    page.(username := value)
  }

  /** `handlePasswordChange`: stores the password and the validator's messages for it;
      nothing else changes. The stored errors are empty iff the new password is acceptable. */
  function HandlePasswordChange(page: LoginPage, value: string): (r: LoginPage)
    ensures r.password == value
    ensures r.errors == Password.ValidatePassword(value)
    ensures r.errors == [] <==> Password.Acceptable(value)
    ensures r.(password := page.password, errors := page.errors) == page
  {
    page.(password := value, errors := Password.ValidatePassword(value))
  }

  /** The result of a submit: the new page and the request sent, if any. */
  datatype Submission = Submission(page: LoginPage, request: Option<Credentials>)

  /** `handleSubmit`: sends the form's credentials iff the stored error list is empty;
      sending raises the loading flag and resets the errors. A blocked submit changes
      nothing. */
  function HandleSubmit(page: LoginPage): (r: Submission)
    ensures r.request.Some? <==> page.errors == []
    ensures r.request.Some? ==> r.request.value == Credentials(page.username, page.password)
    ensures r.request.Some? ==> r.page.isLoading && r.page.errors == []
    ensures r.page.(isLoading := page.isLoading, errors := page.errors) == page
    ensures r.request.None? ==> r.page == page
  {
    if |page.errors| == 0 then
      Submission(page.(isLoading := true, errors := []), Some(Credentials(page.username, page.password)))
    else
      Submission(page, None)
  }

  /** The result of a reply: the new page, the storage, and whether the app moved on to the
      user table. */
  datatype Completion = Completion(page: LoginPage, storage: Storage, navigated: bool)

  /** The reply handler. A reply whose status is not "error" stores the user's name and role,
      moves to the table, clears the form and the loading flag; one without a `user` object
      fails before any of that and changes nothing. A reply with status "error" clears the
      loading flag and shows the fixed message. An unreadable reply changes nothing: the
      loading flag stays raised. */
  function HandleReply(page: LoginPage, storage: Storage, reply: LoginReply): (r: Completion)
    ensures r.navigated <==> reply.Reply? && reply.status != ErrorStatus && reply.user.Some?
    ensures r.navigated ==>
      && r.storage == Storage(Some(reply.user.value.username), Some(reply.user.value.role))
      && r.page == page.(username := "", password := "", isLoading := false)
    ensures reply.Reply? && reply.status == ErrorStatus ==>
      && r.storage == storage
      && r.page == page.(isLoading := false, showError := true, errorMessage := BadCredentialsMessage)
    ensures !r.navigated && (reply.Unreadable? || reply.status != ErrorStatus) ==>
      r == Completion(page, storage, false)
  {
    match reply
    case Unreadable => Completion(page, storage, false)
    case Reply(status, user) =>
      if status != ErrorStatus then
        match user
        case None => Completion(page, storage, false)
        case Some(u) =>
          Completion(page.(isLoading := false, username := "", password := ""), Storage(Some(u.username), Some(u.role)), true)
      else
        Completion(page.(isLoading := false, showError := true, errorMessage := BadCredentialsMessage), storage, false)
  }

  // ---------------------------------------------------------------------------
  // Properties of the page as a whole
  // ---------------------------------------------------------------------------

  /** A submit right after typing a password is sent iff that password passes every rule. */
  lemma SubmitGate(page: LoginPage, value: string)
    ensures HandleSubmit(HandlePasswordChange(page, value)).request.Some? <==> Password.Acceptable(value)
  {
  }

  /** Typing a username between the password and the submit does not move the gate. */
  lemma SubmitGateIgnoresUsername(page: LoginPage, value: string, name: string)
    ensures HandleSubmit(HandleUsernameChange(HandlePasswordChange(page, value), name)).request
      == if Password.Acceptable(value) then Some(Credentials(name, value)) else None
  {
  }

  /** The error list starts empty and is only recomputed when the password changes, so a
      submit before any password input is sent, with an empty password. */
  lemma SubmitBeforeTyping(name: string)
    ensures HandleSubmit(HandleUsernameChange(InitialPage, name)).request == Some(Credentials(name, ""))
  {
  }

  /** A submit that is sent followed by a readable reply always lowers the loading flag;
      an unreadable reply leaves it raised. */
  lemma LoadingAfterReply(page: LoginPage, storage: Storage, reply: LoginReply)
    requires page.errors == []
    ensures var sent := HandleSubmit(page).page;
      var done := HandleReply(sent, storage, reply);
      && (reply.Reply? && (reply.status == ErrorStatus || reply.user.Some?) ==> !done.page.isLoading)
      && (reply.Unreadable? ==> done.page.isLoading)
  {
  }

  /** A successful login stores exactly the name and role the server sent, whatever was
      stored before, and the form is empty afterwards. */
  lemma SuccessfulLogin(page: LoginPage, storage: Storage, status: string, name: string, role: string)
    requires status != ErrorStatus
    ensures var done := HandleReply(page, storage, Reply(status, Some(ReplyUser(name, role))));
      && done.storage.userName == Some(name) && done.storage.userRole == Some(role)
      && done.page.username == "" && done.page.password == ""
      && done.navigated
  {
  }
}

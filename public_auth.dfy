/** The `PublicAuth` controller: the sign-in page, the sign-in decision and the administrator sign-up through
    the `User` entity. */
module PublicAuth {
  import opened Wrappers
  import opened Tables
  import opened Passwords
  import opened Http
  import Store

  const BAD_CREDENTIALS: string := "auth.signin.error.badcredentials"

  /** `signIn(redirectUrl)`: the sign-in form, filled with the redirect URL only when one is given and it is
      not blank. */
  function SignIn(redirectUrl: Option<string>): (r: Response)
    ensures r.Ok? && r.page.SignInPage?
    ensures r.page.prefill.Some? <==> redirectUrl.Some? && !IsBlank(redirectUrl.value)
    ensures r.page.prefill.Some? ==> r.page.prefill == redirectUrl
  {
    if redirectUrl.Some? && !IsBlank(redirectUrl.value) then Ok(SignInPage(redirectUrl)) else Ok(SignInPage(None))
  }

  /** Where a successful sign-in goes: the index page when the form's redirect URL is null or blank, the URL
      otherwise. */
  function RedirectTarget(redirectUrl: Option<string>): (t: Target)
    ensures t == IndexRoute <==> redirectUrl.None? || IsBlank(redirectUrl.value)
    ensures t.Url? ==> redirectUrl == Some(t.url) && !IsBlank(t.url)
  {
    if redirectUrl.None? || IsBlank(redirectUrl.value) then IndexRoute else Url(redirectUrl.value)
  }

  /** The answer to bad credentials: the submitted form shown again with the bad-credentials global error. */
  function BadCredentials(form: Form<SignInForm>): (r: Response)
    ensures r.BadRequest? && r.page.SignInFormPage?
    ensures r.page.form.data == form.data && r.page.form.HasErrors()
    ensures r.page.form.errors[|r.page.form.errors| - 1] == GlobalError(BAD_CREDENTIALS)
  {
    BadRequest(SignInFormPage(form.WithGlobalError(BAD_CREDENTIALS)))
  }

  /** `doSignIn`: reject a form with errors, look the user up by email, verify the password, and on success
      redirect with a session bound to the user found. */
  function DoSignIn(form: Form<SignInForm>, s: DbState, hasher: Hasher): (r: Response)
    ensures r.BadRequest? || r.Redirect?
    ensures form.HasErrors() ==> r == BadRequest(SignInFormPage(form))
    ensures !form.HasErrors() && r.BadRequest? ==> r == BadCredentials(form)
    ensures r.Redirect? ==>
              && r.target == RedirectTarget(form.data.redirectUrl)
              && exists i :: && 0 <= i < |s.users|
                             && s.users[i].email == form.data.email
                             && hasher.Verify(form.data.password, s.users[i].password)
                             && r.session == Some(Session(s.users[i].id))
  {
    if form.HasErrors() then BadRequest(SignInFormPage(form))
    else
      match FindByEmail(s.users, form.data.email)
      case None => BadCredentials(form)
      case Some(user) =>
        if !hasher.Verify(form.data.password, user.password) then BadCredentials(form)
        else Redirect(RedirectTarget(form.data.redirectUrl), Some(Session(user.id)))
  }

  /** A form with errors is answered before any lookup: neither the database nor the hasher matters. */
  lemma InvalidSignInIgnoresStore(form: Form<SignInForm>, s: DbState, t: DbState, h: Hasher, k: Hasher)
    requires form.HasErrors()
    ensures DoSignIn(form, s, h) == DoSignIn(form, t, k) == BadRequest(SignInFormPage(form))
  {
  }

  /** An unknown email and a wrong password for a known email get the same answer. */
  lemma UnknownEmailLooksLikeWrongPassword(form: Form<SignInForm>, s: DbState, t: DbState, h: Hasher, i: nat)
    requires !form.HasErrors()
    requires forall j :: 0 <= j < |s.users| ==> s.users[j].email != form.data.email
    requires i < |t.users| && t.users[i].email == form.data.email
    requires forall j :: 0 <= j < i ==> t.users[j].email != form.data.email
    requires !h.Verify(form.data.password, t.users[i].password)
    ensures DoSignIn(form, s, h) == DoSignIn(form, t, h) == BadCredentials(form)
  {
    FindByEmailFirst(t.users, form.data.email, i);
  }

  /** With unique emails, sign-in succeeds exactly when a user carries the email and the password verifies
      against that user's stored hash, and the session is bound to that user. */
  lemma SignInSucceedsIff(form: Form<SignInForm>, s: DbState, h: Hasher)
    requires WellFormed(s)
    ensures DoSignIn(form, s, h).Redirect? <==>
            && !form.HasErrors()
            && exists i :: 0 <= i < |s.users| && s.users[i].email == form.data.email
                                               && h.Verify(form.data.password, s.users[i].password)
    ensures forall i :: 0 <= i < |s.users| && s.users[i].email == form.data.email && !form.HasErrors()
                        && h.Verify(form.data.password, s.users[i].password)
                        ==> DoSignIn(form, s, h)
                            == Redirect(RedirectTarget(form.data.redirectUrl), Some(Session(s.users[i].id)))
  {
    forall i | 0 <= i < |s.users| && s.users[i].email == form.data.email
      ensures FindByEmail(s.users, form.data.email) == Some(s.users[i])
    {
      FindByEmailUnique(s.users, i);
    }
  }

  /** The sign-in page prefilled from a redirect URL sends a successful sign-in of that form back to the URL,
      and the page left empty sends it to the index page. */
  lemma PrefillMatchesRedirect(redirectUrl: Option<string>)
    ensures SignIn(redirectUrl).page.prefill.Some? ==> RedirectTarget(redirectUrl) == Url(redirectUrl.value)
    ensures SignIn(redirectUrl).page.prefill.None? ==> RedirectTarget(redirectUrl) == IndexRoute
  {
  }

  /** The controller itself performs no lock check: with the lookup modelled as a plain email match, a locked
      user with the right password gets a session. */
  lemma SignInIgnoresLock(form: Form<SignInForm>, s: DbState, h: Hasher, i: nat)
    requires WellFormed(s) && !form.HasErrors()
    requires i < |s.users| && s.users[i].email == form.data.email
    requires h.Verify(form.data.password, s.users[i].password)
    ensures DoSignIn(form, s.(locked := s.locked + [LockedUserRow(s.users[i].id)]), h).session
            == Some(Session(s.users[i].id))
  {
    FindByEmailUnique(s.users, i);
  }

  // ---------------------------------------------------------------------------------------------------------
  // Administrator sign-up through the `User` entity
  // ---------------------------------------------------------------------------------------------------------

  /** `doAdminSignUp` on a database value. `encode` is what `User.setClearPassword` stores for a clear password
      and `fault` an external failure of the insert. */
  function AdminSignUp(s: DbState, form: Form<AdminSignUpForm>, encode: string -> string, fault: bool)
    : (o: SignUpOutcome)
    ensures form.HasErrors() ==> o == SignUpOutcome(BadRequest(AdminSignUpFormPage(form)), s)
    ensures o.response.Failed? ==> o.state == s
    ensures !o.response.Redirect? ==> o.state == s
    ensures !form.HasErrors() ==> !o.response.BadRequest?
    ensures o.response.Redirect? ==>
              && o.response == Redirect(SignInRoute(None), None)
              && o.state == s.(users := s.users + [UserRow(s.nextId, form.data.name, form.data.email,
                                                           encode(form.data.password), true)],
                               nextId := s.nextId + 1)
    ensures o.response.BadRequest? || o.response.Failed? || o.response.Redirect?
  {
    if form.HasErrors() then SignUpOutcome(BadRequest(AdminSignUpFormPage(form)), s)
    else
      var step := InsertUser(s, form.data.name, form.data.email, encode(form.data.password), true, fault);
      match step.result
      case Failure(e) => SignUpOutcome(Failed(e), s)
      case Success(_) => SignUpOutcome(Redirect(SignInRoute(None), None), step.state)
  }

  /** The entity sign-up succeeds exactly when the form is valid, the email is new and the insert does not
      fail; it keeps the database's constraints. */
  lemma AdminSignUpSucceedsIff(s: DbState, form: Form<AdminSignUpForm>, encode: string -> string, fault: bool)
    requires WellFormed(s)
    ensures AdminSignUp(s, form, encode, fault).response.Redirect? <==>
            && !form.HasErrors() && !fault
            && forall i :: 0 <= i < |s.users| ==> s.users[i].email != form.data.email
    ensures WellFormed(AdminSignUp(s, form, encode, fault).state)
  {
    InsertUserKeepsWellFormed(s, form.data.name, form.data.email, encode(form.data.password), true, fault);
  }

  /** A sign-up with an email already stored fails with the unique-constraint error and persists nothing. */
  lemma AdminSignUpDuplicateEmail(s: DbState, form: Form<AdminSignUpForm>, encode: string -> string, fault: bool,
                                  i: nat)
    requires !form.HasErrors()
    requires i < |s.users| && s.users[i].email == form.data.email
    ensures AdminSignUp(s, form, encode, fault) == SignUpOutcome(Failed(DuplicateEmail), s)
  {
  }

  /** The entity sign-up writes no Admin row, so it never changes whether an active administrator exists. */
  lemma AdminSignUpLeavesGateAlone(s: DbState, form: Form<AdminSignUpForm>, encode: string -> string,
                                   fault: bool)
    ensures AdminSignUp(s, form, encode, fault).state.admins == s.admins
    ensures AdminSignUp(s, form, encode, fault).state.locked == s.locked
  {
  }

  /** `doAdminSignUp`, persisting the new administrator into the database object. */
  method DoAdminSignUp(db: Store.Database, form: Form<AdminSignUpForm>, encode: string -> string, fault: bool)
    returns (r: Response)
    requires db.Valid()
    modifies db
    ensures db.Valid() && db.pending == old(db.pending)
    ensures SignUpOutcome(r, db.State()) == AdminSignUp(old(db.State()), form, encode, fault)
  {
    if form.HasErrors() {
      return BadRequest(AdminSignUpFormPage(form));
    }
    var id := db.StoreUser(form.data.name, form.data.email, encode(form.data.password), true, fault);
    if id.Failure? {
      return Failed(id.error);
    }
    r := Redirect(SignInRoute(None), None);
  }
}

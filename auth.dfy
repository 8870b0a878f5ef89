/** The `Auth` controller's administrator sign-up: hash the password at cost 13, then store a User row and an
    Admin row referencing it, both inside one transaction. */
module Auth {
  import opened Wrappers
  import opened Tables
  import opened Passwords
  import opened Http
  import BriventoryDB
  import PublicAuth
  import Store

  /** The BCrypt cost used for new passwords. */
  const BCRYPT_COST: int := 13

  /** `doAdminSignUp` on a database value. `userFault` and `adminFault` are external failures of the two
      stores; any failure rolls the transaction back. The new User row leaves the administrator column unset:
      `adminColumn` is the value the table gives it then. */
  function AdminSignUp(s: DbState, form: Form<AdminSignUpForm>, hasher: Hasher, adminColumn: bool,
      userFault: bool, adminFault: bool): (o: SignUpOutcome)
    ensures form.HasErrors() ==> o == SignUpOutcome(BadRequest(AdminSignUpFormPage(form)), s)
    ensures o.response.Failed? ==> o.state == s
    ensures !o.response.Redirect? ==> o.state == s
    ensures !form.HasErrors() ==> !o.response.BadRequest?
    ensures o.response.Redirect? ==>
              && o.response == Redirect(AuthSignInRoute, None)
              && o.state == s.(users := s.users + [UserRow(s.nextId, form.data.name, form.data.email,
                                                           hasher.Hash(BCRYPT_COST, form.data.password),
                                                           adminColumn)],
                               admins := s.admins + [AdminRow(s.nextId)],
                               nextId := s.nextId + 1)
    ensures o.response.BadRequest? || o.response.Failed? || o.response.Redirect?
  {
    if form.HasErrors() then SignUpOutcome(BadRequest(AdminSignUpFormPage(form)), s)
    else
      var password := hasher.Hash(BCRYPT_COST, form.data.password);
      var user := InsertUser(s, form.data.name, form.data.email, password, adminColumn, userFault);
      match user.result
      case Failure(e) => SignUpOutcome(Failed(e), s)
      case Success(id) =>
        var admin := InsertAdmin(user.state, id, adminFault);
        match admin.result
        case Fail(e) => SignUpOutcome(Failed(e), s)
        case Pass => SignUpOutcome(Redirect(AuthSignInRoute, None), admin.state)
  }

  /** Both rows or neither: the User table grows exactly when the Admin table does, and only on success. */
  lemma BothOrNeither(s: DbState, form: Form<AdminSignUpForm>, hasher: Hasher, adminColumn: bool,
      userFault: bool, adminFault: bool)
    ensures var o := AdminSignUp(s, form, hasher, adminColumn, userFault, adminFault);
            && (|o.state.users| == |s.users| + 1 <==> o.response.Redirect?)
            && (|o.state.admins| == |s.admins| + 1 <==> o.response.Redirect?)
            && (!o.response.Redirect? ==> o.state == s)
  {
  }

  /** The transactional sign-up succeeds exactly when the form is valid, the email is new and neither store
      fails; on a database that keeps its constraints it keeps them, so no Admin row exists without its User. */
  lemma AdminSignUpSucceedsIff(s: DbState, form: Form<AdminSignUpForm>, hasher: Hasher, adminColumn: bool,
      userFault: bool, adminFault: bool)
    requires WellFormed(s)
    ensures AdminSignUp(s, form, hasher, adminColumn, userFault, adminFault).response.Redirect? <==>
            && !form.HasErrors() && !userFault && !adminFault
            && forall i :: 0 <= i < |s.users| ==> s.users[i].email != form.data.email
    ensures WellFormed(AdminSignUp(s, form, hasher, adminColumn, userFault, adminFault).state)
  {
    if !form.HasErrors() {
      var password := hasher.Hash(BCRYPT_COST, form.data.password);
      var user := InsertUser(s, form.data.name, form.data.email, password, adminColumn, userFault);
      InsertUserKeepsWellFormed(s, form.data.name, form.data.email, password, adminColumn, userFault);
      if user.result.Success? {
        assert HasUser(user.state.users, s.nextId) by {
          assert user.state.users[|s.users|].id == s.nextId;
        }
        InsertAdminKeepsWellFormed(user.state, user.result.value, adminFault);
      }
    }
  }

  /** A second sign-up with an email already stored fails with the unique-constraint error and writes nothing. */
  lemma DuplicateEmailRejected(s: DbState, form: Form<AdminSignUpForm>, hasher: Hasher, adminColumn: bool,
      userFault: bool, adminFault: bool, i: nat)
    requires !form.HasErrors()
    requires i < |s.users| && s.users[i].email == form.data.email
    ensures AdminSignUp(s, form, hasher, adminColumn, userFault, adminFault)
            == SignUpOutcome(Failed(DuplicateEmail), s)
  {
  }

  /** A successful sign-up creates an active administrator: the new Admin row's user cannot be locked yet. */
  lemma AdminSignUpActivatesAdministrator(s: DbState, form: Form<AdminSignUpForm>, hasher: Hasher,
                                          adminColumn: bool, userFault: bool, adminFault: bool)
    requires WellFormed(s)
    requires AdminSignUp(s, form, hasher, adminColumn, userFault, adminFault).response.Redirect?
    ensures BriventoryDB.HasActiveAdministrator(
              AdminSignUp(s, form, hasher, adminColumn, userFault, adminFault).state)
  {
    var t := AdminSignUp(s, form, hasher, adminColumn, userFault, adminFault).state;
    var n := |s.admins|;
    assert t.admins[n].iduser == s.nextId;
    forall k | 0 <= k < |s.locked| ensures s.locked[k].iduser != s.nextId {
      assert HasUser(s.users, s.locked[k].iduser);
      var j :| 0 <= j < |s.users| && s.users[j].id == s.locked[k].iduser;
    }
    assert !IsLocked(t.locked, t.admins[n].iduser);
  }

  /** Signing up and then signing in with the same email and password succeeds with a session for the new
      user, under the explicit assumption that a password verifies against its own cost-13 hash. */
  lemma SignUpThenSignIn(s: DbState, form: Form<AdminSignUpForm>, hasher: Hasher, adminColumn: bool,
      userFault: bool, adminFault: bool, redirectUrl: Option<string>)
    requires WellFormed(s) && VerifiesOwnHash(hasher, BCRYPT_COST)
    requires AdminSignUp(s, form, hasher, adminColumn, userFault, adminFault).response.Redirect?
    ensures var t := AdminSignUp(s, form, hasher, adminColumn, userFault, adminFault).state;
            var signIn := Form(SignInForm(form.data.email, form.data.password, redirectUrl), []);
            PublicAuth.DoSignIn(signIn, t, hasher)
            == Redirect(PublicAuth.RedirectTarget(redirectUrl), Some(Session(s.nextId)))
  {
    var t := AdminSignUp(s, form, hasher, adminColumn, userFault, adminFault).state;
    AdminSignUpSucceedsIff(s, form, hasher, adminColumn, userFault, adminFault);
    var n := |s.users|;
    assert t.users[n].email == form.data.email && t.users[n].id == s.nextId;
    assert hasher.Verify(form.data.password, t.users[n].password);
    FindByEmailUnique(t.users, n);
  }

  /** `doAdminSignUp`, run against the database object inside one transaction. The form is checked before
      the transaction opens; the User row is stored before the Admin row that references its generated id. */
  method DoAdminSignUp(db: Store.Database, form: Form<AdminSignUpForm>, hasher: Hasher, adminColumn: bool,
      userFault: bool, adminFault: bool) returns (r: Response)
    requires db.Valid() && db.pending.None?
    modifies db
    ensures db.Valid() && db.pending.None?
    ensures SignUpOutcome(r, db.State())
            == AdminSignUp(old(db.State()), form, hasher, adminColumn, userFault, adminFault)
  {
    if form.HasErrors() {
      return BadRequest(AdminSignUpFormPage(form));
    }
    db.BeginTransaction();
    var password := hasher.Hash(BCRYPT_COST, form.data.password);
    var id := db.StoreUser(form.data.name, form.data.email, password, adminColumn, userFault);
    if id.Failure? {
      db.Rollback();
      return Failed(id.error);
    }
    var stored := db.StoreAdmin(id.value, adminFault);
    if stored.Fail? {
      db.Rollback();
      return Failed(stored.error);
    }
    db.Commit();
    r := Redirect(AuthSignInRoute, None);
  }
}

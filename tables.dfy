/** The database as an in-memory value: the User, Admin, LockedUser and Revision tables, the user lookup by
    email, the constraints the database enforces, and the two inserts the sign-up paths issue. */
module Tables {
  import opened Wrappers

  type Id = nat

  datatype UserRow = UserRow(id: Id, name: string, email: string, password: string, administrator: bool)
  datatype AdminRow = AdminRow(iduser: Id)
  datatype LockedUserRow = LockedUserRow(iduser: Id)
  /** The single Revision row: the major version of the database schema. */
  datatype RevisionRow = RevisionRow(database: int)

  /** The whole database. `nextId` is the next value of the User id sequence. */
  datatype DbState = DbState(users: seq<UserRow>, admins: seq<AdminRow>, locked: seq<LockedUserRow>,
                             revision: Option<RevisionRow>, nextId: Id)

  /** Why a statement against the database failed. */
  datatype StoreError =
    | DuplicateEmail            // the unique constraint on User.email
    | MissingUser               // the foreign key from Admin.iduser to User.id
    | PersistenceFailure        // any other failure of the database (connection, timeout, ...)

  predicate HasUser(users: seq<UserRow>, id: Id)
  {
    exists j :: 0 <= j < |users| && users[j].id == id
  }

  predicate IsLocked(locked: seq<LockedUserRow>, id: Id)
  {
    exists k :: 0 <= k < |locked| && locked[k].iduser == id
  }

  /** The constraints the database keeps: user ids are distinct and below the sequence, emails are unique, and
      every Admin and LockedUser row references an existing user. */
  ghost predicate WellFormed(s: DbState)
  {
    && (forall i :: 0 <= i < |s.users| ==> s.users[i].id < s.nextId)
    && (forall i, j :: 0 <= i < j < |s.users| ==> s.users[i].id != s.users[j].id)
    && (forall i, j :: 0 <= i < j < |s.users| ==> s.users[i].email != s.users[j].email)
    && (forall i :: 0 <= i < |s.admins| ==> HasUser(s.users, s.admins[i].iduser))
    && (forall i :: 0 <= i < |s.locked| ==> HasUser(s.users, s.locked[i].iduser))
  }

  /** The user lookup by email: the first User row carrying that email, or nothing. */
  function FindByEmail(users: seq<UserRow>, email: string): (r: Option<UserRow>)
    ensures r.None? <==> forall i :: 0 <= i < |users| ==> users[i].email != email
    ensures r.Some? ==> exists i :: 0 <= i < |users| && users[i] == r.value && r.value.email == email
  {
    if |users| == 0 then None
    else if users[0].email == email then Some(users[0])
    else
      var r := FindByEmail(users[1..], email);
      assert r.Some? ==> exists i :: 0 <= i < |users[1..]| && users[1..][i] == r.value;
      assert forall i :: 1 <= i < |users| ==> users[i] == users[1..][i - 1];
      r
  }

  /** The lookup finds the first user that carries the email. */
  lemma {:induction false} FindByEmailFirst(users: seq<UserRow>, email: string, i: nat)
    requires i < |users| && users[i].email == email
    requires forall j :: 0 <= j < i ==> users[j].email != email
    ensures FindByEmail(users, email) == Some(users[i])
  {
    if i > 0 {
      FindByEmailFirst(users[1..], email, i - 1);
    }
  }

  /** With unique emails the lookup finds exactly the user that carries the email. */
  lemma FindByEmailUnique(users: seq<UserRow>, i: nat)
    requires i < |users|
    requires forall j, k :: 0 <= j < k < |users| ==> users[j].email != users[k].email
    ensures FindByEmail(users, users[i].email) == Some(users[i])
  {
    FindByEmailFirst(users, users[i].email, i);
  }

  /** A pure insert result: what the statement answered, and the database afterwards. */
  datatype Step<+R> = Step(result: R, state: DbState)

  /** Insert a User row under the next generated id. It fails, leaving the database as it was, on a duplicate
      email or an external `fault`. */
  function InsertUser(s: DbState, name: string, email: string, password: string, administrator: bool,
                      fault: bool): (r: Step<Result<Id, StoreError>>)
    ensures r.result.Failure? ==> r.state == s
    ensures r.result.Failure? <==> fault || exists i :: 0 <= i < |s.users| && s.users[i].email == email
    ensures (exists i :: 0 <= i < |s.users| && s.users[i].email == email) ==> r.result == Failure(DuplicateEmail)
    ensures r.result.Success? ==>
              && r.result.value == s.nextId
              && r.state == s.(users := s.users + [UserRow(s.nextId, name, email, password, administrator)],
                               nextId := s.nextId + 1)
  {
    if FindByEmail(s.users, email).Some? then Step(Failure(DuplicateEmail), s)
    else if fault then Step(Failure(PersistenceFailure), s)
    else Step(Success(s.nextId),
              s.(users := s.users + [UserRow(s.nextId, name, email, password, administrator)],
                 nextId := s.nextId + 1))
  }

  /** Insert an Admin row. It fails, leaving the database as it was, when no user has the id or on an external
      `fault`. */
  function InsertAdmin(s: DbState, iduser: Id, fault: bool): (r: Step<Outcome<StoreError>>)
    ensures r.result.Fail? ==> r.state == s
    ensures r.result.Fail? <==> fault || !HasUser(s.users, iduser)
    ensures r.result.Pass? ==> r.state == s.(admins := s.admins + [AdminRow(iduser)])
  {
    if !HasUser(s.users, iduser) then Step(Fail(MissingUser), s)
    else if fault then Step(Fail(PersistenceFailure), s)
    else Step(Pass, s.(admins := s.admins + [AdminRow(iduser)]))
  }

  /** Both inserts keep the database's constraints. */
  lemma InsertUserKeepsWellFormed(s: DbState, name: string, email: string, password: string,
                                  administrator: bool, fault: bool)
    requires WellFormed(s)
    ensures WellFormed(InsertUser(s, name, email, password, administrator, fault).state)
  {
    var t := InsertUser(s, name, email, password, administrator, fault).state;
    if t != s {
      forall i | 0 <= i < |s.admins| ensures HasUser(t.users, s.admins[i].iduser) {
        var j :| 0 <= j < |s.users| && s.users[j].id == s.admins[i].iduser;
        assert t.users[j] == s.users[j];
      }
      forall i | 0 <= i < |s.locked| ensures HasUser(t.users, s.locked[i].iduser) {
        var j :| 0 <= j < |s.users| && s.users[j].id == s.locked[i].iduser;
        assert t.users[j] == s.users[j];
      }
    }
  }

  lemma InsertAdminKeepsWellFormed(s: DbState, iduser: Id, fault: bool)
    requires WellFormed(s)
    ensures WellFormed(InsertAdmin(s, iduser, fault).state)
  {
  }
}

/** The database as a mutable object: the four tables as fields that the statements reassign, the id sequence,
    and the snapshot an open transaction rolls back to. */
module Store {
  import opened Wrappers
  import opened Tables

  class Database {
    var users: seq<UserRow>
    var admins: seq<AdminRow>
    var locked: seq<LockedUserRow>
    var revision: Option<RevisionRow>
    var nextId: Id
    /** The state at the start of the open transaction, if one is open. */
    var pending: Option<DbState>

    function State(): DbState
      reads this
    {
      DbState(users, admins, locked, revision, nextId)
    }

    ghost predicate Valid()
      reads this
    {
      WellFormed(State()) && (pending.Some? ==> WellFormed(pending.value))
    }

    /** A database with empty tables and the given Revision row. */
    constructor (revision: Option<RevisionRow>)
      ensures Valid() && pending.None?
      ensures State() == DbState([], [], [], revision, 0)
    {
      users, admins, locked := [], [], [];
      this.revision := revision;
      nextId := 0;
      pending := None;
    }

    method BeginTransaction()
      requires Valid() && pending.None?
      modifies this
      ensures Valid() && pending == Some(old(State())) && State() == old(State())
    {
      pending := Some(State());
    }

    method Commit()
      requires Valid() && pending.Some?
      modifies this
      ensures Valid() && pending.None? && State() == old(State())
    {
      pending := None;
    }

    /** Undo every statement of the open transaction. */
    method Rollback()
      requires Valid() && pending.Some?
      modifies this
      ensures Valid() && pending.None? && State() == old(pending.value)
    {
      var s := pending.value;
      users, admins, locked, revision, nextId := s.users, s.admins, s.locked, s.revision, s.nextId;
      pending := None;
    }

    /** `newUser.store()`: insert a User row under the next generated id, which is returned. */
    method StoreUser(name: string, email: string, password: string, administrator: bool, fault: bool)
      returns (r: Result<Id, StoreError>)
      requires Valid()
      modifies this
      ensures Valid() && pending == old(pending)
      ensures Step(r, State()) == InsertUser(old(State()), name, email, password, administrator, fault)
    {
      InsertUserKeepsWellFormed(State(), name, email, password, administrator, fault);
      if FindByEmail(users, email).Some? {
        return Failure(DuplicateEmail);
      }
      if fault {
        return Failure(PersistenceFailure);
      }
      r := Success(nextId);
      users := users + [UserRow(nextId, name, email, password, administrator)];
      nextId := nextId + 1;
    }

    /** `newAdmin.store()`: insert an Admin row for an existing user. */
    method StoreAdmin(iduser: Id, fault: bool) returns (r: Outcome<StoreError>)
      requires Valid()
      modifies this
      ensures Valid() && pending == old(pending)
      ensures Step(r, State()) == InsertAdmin(old(State()), iduser, fault)
    {
      InsertAdminKeepsWellFormed(State(), iduser, fault);
      if !HasUser(users, iduser) {
        return Fail(MissingUser);
      }
      if fault {
        return Fail(PersistenceFailure);
      }
      admins := admins + [AdminRow(iduser)];
      r := Pass;
    }
  }
}

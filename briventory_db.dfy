/** The maintenance gate of `BriventoryDB`: whether the schema version matches the application, whether an
    unlocked administrator exists, and the maintenance predicate built from the two. Every member is a function
    of a database value, so evaluating one leaves the database as it was. */
module BriventoryDB {
  import opened Wrappers
  import opened Tables

  /** A semantic version; its parts are never negative. */
  datatype Version = Version(major: nat, minor: nat, patch: nat) {
    /** Semantic-version compatibility: the same major version; minor and patch are ignored. */
    predicate IsCompatible(other: Version)
    {
      major == other.major
    }
  }

  /** Compatibility is an equivalence on versions. */
  lemma CompatibilityIsEquivalence(u: Version, v: Version, w: Version)
    ensures u.IsCompatible(u)
    ensures u.IsCompatible(v) ==> v.IsCompatible(u)
    ensures u.IsCompatible(v) && v.IsCompatible(w) ==> u.IsCompatible(w)
  {
  }

  /** What escapes the gate instead of an answer: the Revision table is empty, so the fetched row is null and is
      dereferenced; or the stored version is negative, which the `Version` constructor refuses. */
  datatype GateError = NullRevision | NegativeVersion

  /** The database is initialized when the stored major version, read as `Version(database, 0, 0)`, is
      compatible with the application version `app`. */
  function IsDatabaseInitialized(s: DbState, app: Version): (r: Result<bool, GateError>)
    ensures r == Failure(NullRevision) <==> s.revision.None?
    ensures r == Failure(NegativeVersion) <==> s.revision.Some? && s.revision.value.database < 0
    ensures r.Success? ==> (r.value <==> s.revision.value.database == app.major)
  {
    match s.revision
    case None => Failure(NullRevision)
    case Some(row) =>
      if row.database < 0 then Failure(NegativeVersion)
      else Success(Version(row.database, 0, 0).IsCompatible(app))
  }

  /** The application's minor and patch versions play no part in the answer. */
  lemma InitializedIgnoresMinorAndPatch(s: DbState, app: Version, other: Version)
    requires app.major == other.major
    ensures IsDatabaseInitialized(s, app) == IsDatabaseInitialized(s, other)
  {
  }

  // ---------------------------------------------------------------------------------------------------------
  // Administrators: `SELECT COUNT(*) FROM admin LEFT JOIN lockeduser ON admin.iduser = lockeduser.iduser
  //                  WHERE lockeduser.iduser IS NULL`, evaluated on the in-memory tables.
  // ---------------------------------------------------------------------------------------------------------

  /** A row of the left join: an Admin row with the matching LockedUser row, or with NULL on that side. */
  datatype JoinedRow = JoinedRow(admin: AdminRow, locked: Option<LockedUserRow>)

  /** The LockedUser rows that match an Admin row on `iduser`, in table order. */
  function Matching(a: AdminRow, locked: seq<LockedUserRow>): (m: seq<LockedUserRow>)
    ensures forall k :: 0 <= k < |m| ==> m[k].iduser == a.iduser
    ensures m == [] <==> !IsLocked(locked, a.iduser)
  {
    if |locked| == 0 then []
    else
      var rest := Matching(a, locked[1..]);
      assert IsLocked(locked[1..], a.iduser) ==> IsLocked(locked, a.iduser) by {
        if IsLocked(locked[1..], a.iduser) {
          var k :| 0 <= k < |locked[1..]| && locked[1..][k].iduser == a.iduser;
          assert locked[k + 1].iduser == a.iduser;
        }
      }
      assert IsLocked(locked, a.iduser) && locked[0].iduser != a.iduser ==> IsLocked(locked[1..], a.iduser) by {
        if IsLocked(locked, a.iduser) && locked[0].iduser != a.iduser {
          var k :| 0 <= k < |locked| && locked[k].iduser == a.iduser;
          assert locked[1..][k - 1].iduser == a.iduser;
        }
      }
      if locked[0].iduser == a.iduser then [locked[0]] + rest else rest
  }

  /** One joined row per matching LockedUser row. */
  function Pair(a: AdminRow, m: seq<LockedUserRow>): (rows: seq<JoinedRow>)
    ensures |rows| == |m|
    ensures forall k :: 0 <= k < |rows| ==> rows[k] == JoinedRow(a, Some(m[k]))
  {
    if |m| == 0 then [] else [JoinedRow(a, Some(m[0]))] + Pair(a, m[1..])
  }

  /** The left join of one Admin row: its matches, or a single row with NULL when nothing matches. */
  function JoinOne(a: AdminRow, locked: seq<LockedUserRow>): (rows: seq<JoinedRow>)
    ensures |rows| > 0
    ensures forall k :: 0 <= k < |rows| ==> rows[k].admin == a
    ensures forall k :: 0 <= k < |rows| && rows[k].locked.Some? ==> rows[k].locked.value.iduser == a.iduser
    ensures rows == [JoinedRow(a, None)] <==> !IsLocked(locked, a.iduser)
    ensures IsLocked(locked, a.iduser) ==> forall k :: 0 <= k < |rows| ==> rows[k].locked.Some?
  {
    var m := Matching(a, locked);
    if m == [] then [JoinedRow(a, None)] else Pair(a, m)
  }

  /** Some joined row belongs to admin `a`. */
  predicate RowFor(rows: seq<JoinedRow>, a: AdminRow) {
    exists k :: 0 <= k < |rows| && rows[k].admin == a
  }

  /** `admin LEFT JOIN lockeduser ON admin.iduser = lockeduser.iduser`: every Admin row appears, every row
      comes from an Admin row, and a non-NULL LockedUser side always matches its admin. */
  function LeftJoin(admins: seq<AdminRow>, locked: seq<LockedUserRow>): (rows: seq<JoinedRow>)
    ensures |rows| >= |admins|
    ensures forall i :: 0 <= i < |admins| ==> RowFor(rows, admins[i])
    ensures forall k :: 0 <= k < |rows| ==> rows[k].admin in admins
    ensures forall k :: 0 <= k < |rows| && rows[k].locked.Some? ==>
              rows[k].locked.value.iduser == rows[k].admin.iduser
  {
    if |admins| == 0 then []
    else
      var head, tail := JoinOne(admins[0], locked), LeftJoin(admins[1..], locked);
      JoinConcat(admins, head, tail);
      head + tail
  }

  /** One admin's join rows followed by the join of the remaining admins keep `LeftJoin`'s guarantees. */
  lemma JoinConcat(admins: seq<AdminRow>, head: seq<JoinedRow>, tail: seq<JoinedRow>)
    requires |admins| > 0 && |head| > 0
    requires forall k :: 0 <= k < |head| ==> head[k].admin == admins[0]
    requires forall k :: 0 <= k < |head| && head[k].locked.Some? ==> head[k].locked.value.iduser == admins[0].iduser
    requires |tail| >= |admins| - 1
    requires forall i :: 1 <= i < |admins| ==> RowFor(tail, admins[i])
    requires forall k :: 0 <= k < |tail| ==> tail[k].admin in admins[1..]
    requires forall k :: 0 <= k < |tail| && tail[k].locked.Some? ==> tail[k].locked.value.iduser == tail[k].admin.iduser
    ensures |head + tail| >= |admins|
    ensures forall i :: 0 <= i < |admins| ==> RowFor(head + tail, admins[i])
    ensures forall k :: 0 <= k < |head + tail| ==> (head + tail)[k].admin in admins
    ensures forall k :: 0 <= k < |head + tail| && (head + tail)[k].locked.Some? ==>
              (head + tail)[k].locked.value.iduser == (head + tail)[k].admin.iduser
  {
    var rows := head + tail;
    forall k | |head| <= k < |rows| ensures rows[k] == tail[k - |head|] { }
    forall i | 0 <= i < |admins| ensures RowFor(rows, admins[i]) {
      if i == 0 {
        assert rows[0].admin == admins[0];
      } else {
        assert RowFor(tail, admins[i]);
        var k :| 0 <= k < |tail| && tail[k].admin == admins[i];
        assert rows[|head| + k] == tail[k];
      }
    }
    forall k | 0 <= k < |rows| ensures rows[k].admin in admins {
      if k < |head| {
        assert rows[k] == head[k];
      } else {
        var j :| 0 <= j < |admins[1..]| && admins[1..][j] == tail[k - |head|].admin;
        assert admins[j + 1] == rows[k].admin;
      }
    }
  }

  /** `WHERE lockeduser.iduser IS NULL`. */
  function WhereLockedIsNull(rows: seq<JoinedRow>): (r: seq<JoinedRow>)
    ensures |r| <= |rows|
    ensures forall k :: 0 <= k < |r| ==> r[k].locked.None? && r[k] in rows
    ensures forall k :: 0 <= k < |rows| && rows[k].locked.None? ==> rows[k] in r
  {
    if |rows| == 0 then []
    else if rows[0].locked.None? then [rows[0]] + WhereLockedIsNull(rows[1..])
    else WhereLockedIsNull(rows[1..])
  }

  /** `COUNT(*)` of the filtered join. */
  function CountActiveAdministrators(s: DbState): (n: nat)
    ensures n == |Unlocked(s.admins, s.locked)|
  {
    CountIsUnlockedAdmins(s.admins, s.locked);
    |WhereLockedIsNull(LeftJoin(s.admins, s.locked))|
  }

  /** True when the count of Admin rows without a matching LockedUser row is positive. */
  function HasActiveAdministrator(s: DbState): (r: bool)
    ensures r <==> exists i :: 0 <= i < |s.admins| && !IsLocked(s.locked, s.admins[i].iduser)
  {
    UnlockedNonEmpty(s.admins, s.locked);
    CountActiveAdministrators(s) > 0
  }

  /** Reference definition: the Admin rows whose user is not locked. */
  function Unlocked(admins: seq<AdminRow>, locked: seq<LockedUserRow>): seq<AdminRow>
  {
    if |admins| == 0 then []
    else if IsLocked(locked, admins[0].iduser) then Unlocked(admins[1..], locked)
    else [admins[0]] + Unlocked(admins[1..], locked)
  }

  lemma {:induction false} WhereDistributes(a: seq<JoinedRow>, b: seq<JoinedRow>)
    ensures WhereLockedIsNull(a + b) == WhereLockedIsNull(a) + WhereLockedIsNull(b)
  {
    if |a| > 0 {
      assert (a + b)[1..] == a[1..] + b;
      WhereDistributes(a[1..], b);
    } else {
      assert a + b == b;
    }
  }

  lemma {:induction false} WhereDropsPairs(a: AdminRow, m: seq<LockedUserRow>)
    ensures WhereLockedIsNull(Pair(a, m)) == []
  {
    if |m| > 0 {
      WhereDropsPairs(a, m[1..]);
    }
  }

  /** The filtered join has exactly one row per unlocked Admin row, so the count is the number of Admin rows
      whose user is not locked. */
  lemma {:induction false} CountIsUnlockedAdmins(admins: seq<AdminRow>, locked: seq<LockedUserRow>)
    ensures |WhereLockedIsNull(LeftJoin(admins, locked))| == |Unlocked(admins, locked)|
  {
    if |admins| > 0 {
      var a := admins[0];
      WhereDistributes(JoinOne(a, locked), LeftJoin(admins[1..], locked));
      if Matching(a, locked) != [] {
        WhereDropsPairs(a, Matching(a, locked));
      }
      CountIsUnlockedAdmins(admins[1..], locked);
    }
  }

  lemma {:induction false} UnlockedNonEmpty(admins: seq<AdminRow>, locked: seq<LockedUserRow>)
    ensures |Unlocked(admins, locked)| > 0 <==> exists i :: 0 <= i < |admins| && !IsLocked(locked, admins[i].iduser)
  {
    if |admins| > 0 {
      UnlockedNonEmpty(admins[1..], locked);
      if exists i :: 0 <= i < |admins| && !IsLocked(locked, admins[i].iduser) {
        var i :| 0 <= i < |admins| && !IsLocked(locked, admins[i].iduser);
        if i > 0 {
          assert admins[1..][i - 1] == admins[i];
        }
      }
      if exists i :: 0 <= i < |admins[1..]| && !IsLocked(locked, admins[1..][i].iduser) {
        var i :| 0 <= i < |admins[1..]| && !IsLocked(locked, admins[1..][i].iduser);
        assert admins[i + 1] == admins[1..][i];
      }
    }
  }

  /** With no Admin rows the count is zero: no active administrator, and no error. */
  lemma NoAdminsNoActiveAdministrator(s: DbState)
    requires s.admins == []
    ensures CountActiveAdministrators(s) == 0 && !HasActiveAdministrator(s)
  {
  }

  /** When every administrator is locked there is no active administrator. */
  lemma AllAdminsLocked(s: DbState)
    requires forall i :: 0 <= i < |s.admins| ==> IsLocked(s.locked, s.admins[i].iduser)
    ensures !HasActiveAdministrator(s)
  {
  }

  /** Locking a user who holds no Admin row leaves the answer as it was: the join is on the admin's id. */
  lemma LockingNonAdministrator(s: DbState, id: Id)
    requires forall i :: 0 <= i < |s.admins| ==> s.admins[i].iduser != id
    ensures HasActiveAdministrator(s.(locked := s.locked + [LockedUserRow(id)])) == HasActiveAdministrator(s)
  {
    var t := s.(locked := s.locked + [LockedUserRow(id)]);
    forall i | 0 <= i < |s.admins|
      ensures IsLocked(t.locked, s.admins[i].iduser) == IsLocked(s.locked, s.admins[i].iduser)
    {
      if IsLocked(s.locked, s.admins[i].iduser) {
        var k :| 0 <= k < |s.locked| && s.locked[k].iduser == s.admins[i].iduser;
        assert t.locked[k] == s.locked[k];
      }
      if IsLocked(t.locked, s.admins[i].iduser) {
        var k :| 0 <= k < |t.locked| && t.locked[k].iduser == s.admins[i].iduser;
        assert k < |s.locked| && s.locked[k] == t.locked[k];
      }
    }
  }

  // ---------------------------------------------------------------------------------------------------------
  // Maintenance
  // ---------------------------------------------------------------------------------------------------------

  /** The maintenance predicate as the code combines it: `isDatabaseInitialized() || !hasActiveAdministrator()`,
      with Java's short-circuit `||`; when the first call throws, so does this one. */
  function IsInMaintenance(s: DbState, app: Version): (r: Result<bool, GateError>)
    ensures r.Failure? <==> s.revision.None? || s.revision.value.database < 0
    ensures r.Failure? ==> r == IsDatabaseInitialized(s, app)
    ensures r.Success? ==> (r.value <==> s.revision.value.database == app.major || !HasActiveAdministrator(s))
  {
    match IsDatabaseInitialized(s, app)
    case Failure(e) => Failure(e)
    case Success(initialized) => Success(initialized || !HasActiveAdministrator(s))
  }

  /** The maintenance predicate the documentation describes: on when the database is not initialized, when its
      version does not match the application's major version, or when no unlocked administrator exists. */
  function IsInMaintenanceDocumented(s: DbState, app: Version): (r: bool)
    ensures !r <==> && s.revision.Some?
                    && s.revision.value.database == app.major
                    && exists i :: 0 <= i < |s.admins| && !IsLocked(s.locked, s.admins[i].iduser)
  {
    match IsDatabaseInitialized(s, app)
    case Failure(_) => true
    case Success(initialized) => !initialized || !HasActiveAdministrator(s)
  }

  /** Without an active administrator both readings put the application in maintenance (the coded one whenever
      the Revision row can be read at all). */
  lemma NoActiveAdministratorMeansMaintenance(s: DbState, app: Version)
    requires s.revision.Some? && s.revision.value.database >= 0
    requires !HasActiveAdministrator(s)
    ensures IsInMaintenance(s, app) == Success(true)
    ensures IsInMaintenanceDocumented(s, app)
  {
  }

  /** As coded, a compatible database forces maintenance whatever the administrators are. */
  lemma CodedCompatibleForcesMaintenance(s: DbState, app: Version)
    requires s.revision.Some? && s.revision.value.database == app.major
    ensures IsInMaintenance(s, app) == Success(true)
  {
  }

  /** As documented, a compatible database with an unlocked administrator is out of maintenance. */
  lemma DocumentedCompatibleWithAdministrator(s: DbState, app: Version, i: nat)
    requires s.revision.Some? && s.revision.value.database == app.major
    requires i < |s.admins| && !IsLocked(s.locked, s.admins[i].iduser)
    ensures !IsInMaintenanceDocumented(s, app)
  {
  }

  /** A database on which the two readings disagree: schema version 1 for application 1.2.3, one administrator
      with id 0 and nobody locked. The code reports maintenance; the documentation says the application is
      usable. */
  lemma PolarityDisagreement()
    ensures var s := DbState([UserRow(0, "admin", "admin@example.com", "hash", true)], [AdminRow(0)], [],
                             Some(RevisionRow(1)), 1);
            IsInMaintenance(s, Version(1, 2, 3)) == Success(true) && !IsInMaintenanceDocumented(s, Version(1, 2, 3))
  {
    var s := DbState([UserRow(0, "admin", "admin@example.com", "hash", true)], [AdminRow(0)], [],
                     Some(RevisionRow(1)), 1);
    assert !IsLocked(s.locked, s.admins[0].iduser);
  }

  /** An empty Revision table makes the coded predicate fail instead of reporting maintenance, while the
      documented predicate reports maintenance. */
  lemma MissingRevisionDisagreement(s: DbState, app: Version)
    requires s.revision.None?
    ensures IsInMaintenance(s, app) == Failure(NullRevision)
    ensures IsInMaintenanceDocumented(s, app)
  {
  }
}

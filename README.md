# Briventory authentication core, modelled in Dafny

Briventory is an inventory web application. This project models its authentication and maintenance layer
against an in-memory database instead of a real one. The database has a `User` table (id, name, email,
password hash, administrator flag), an `Admin` table and a `LockedUser` table (both of user ids), and a
single `Revision` row holding the schema's major version. The password hasher is an abstract pair
`Hash(cost, clear)` / `Verify(clear, stored)`: the model makes no assumption about it unless a lemma states
one.

The project has three parts:

- **Maintenance gate** (`BriventoryDB`, file `briventory_db.dfy`): `IsDatabaseInitialized`, the left-join
  count behind `HasActiveAdministrator`, and `IsInMaintenance`. `IsInMaintenance` is modelled as coded. The
  predicate its doc comment describes is stated beside it as `IsInMaintenanceDocumented`. Each of these is a
  function of a database value, so evaluating it cannot change the database.
- **Sign-in** (`PublicAuth`, file `public_auth.dfy`):
  - the sign-in page with its redirect prefill;
  - the credential decision (form errors, then unknown email, then wrong password, then a redirect with a
    session);
  - the choice of redirect target.
- **Administrator sign-up**:
  - `PublicAuth.DoAdminSignUp` persists one `User` entity marked as administrator.
  - `Auth.DoAdminSignUp` hashes the password at cost 13. Inside one transaction it then stores a User row
    and an Admin row that references the new user's generated id.
  - Each method changes a `Store.Database` object. Its `ensures` ties the new state to a pure function of
    the old state (`PublicAuth.AdminSignUp`, `Auth.AdminSignUp`), and the lemmas are about those functions.

Supporting modules:

- `Tables` (`tables.dfy`): the rows and the database value, the lookup by email, the inserts, and the
  constraints the database keeps (`WellFormed`). `WellFormed` says: distinct user ids below the id
  sequence, unique emails, and Admin and LockedUser rows that reference existing users.
- `Store` (`store.dfy`): the database as a class. Its tables are `seq` fields, and it has begin, commit and
  rollback of a transaction.
- `Http` (`http.dfy`): bound forms, pages, redirect targets, sessions, and Java's `String.isBlank` together
  with `Character.isWhitespace`.
- `Passwords` (`passwords.dfy`): the hasher. `Wrappers` (`wrappers.dfy`): Option, Result and Outcome.

Where the code and its documentation or intended design disagree, the model follows the code:

- Maintenance is coded as `isDatabaseInitialized() || !hasActiveAdministrator()`. The doc comment at
  app/database/BriventoryDB.java:106-114 asks for maintenance when the database is not initialized or its
  version does not match (see Findings).
- The same doc comment (line 110) asks for maintenance when the database has not been initialized. The
  code dereferences the null Revision row instead, so the model returns `Failure(NullRevision)`.
- A duplicate email and other database failures during sign-up are not told apart by the controllers: the
  database exception escapes the request. The model's `Failed(error)` response carries the store's error
  kind (`DuplicateEmail`, `MissingUser` or `PersistenceFailure`).
- The controller code of `PublicAuth.doAdminSignUp` sets only the `User` administrator flag and stores no
  Admin record. In the model it therefore never lifts the maintenance gate
  (`PublicAuth.AdminSignUpLeavesGateAlone`); how the `User` entity is mapped is not part of this model.
- Two calls are stale against app/database/BriventoryDB.java:
  - `PublicAuth` calls `briventoryDB.persist`, which that class does not declare.
  - `Auth` passes a lambda to `withTransaction`, whose parameter is an `SQL` value.

  The model gives both calls their evident meaning: a single insert, and a transaction with rollback on any
  failure.

## Model

| member | source | states |
|---|---|---|
| `Tables.FindByEmail` | app/controllers/auth/PublicAuth.java:120 | the lookup returns nothing exactly when no user has the email; what it returns is a stored user with that email |
| `Tables.FindByEmailFirst` | app/controllers/auth/PublicAuth.java:120 | the lookup returns the first user carrying the email |
| `Tables.FindByEmailUnique` | app/controllers/auth/PublicAuth.java:120 | with unique emails the lookup returns exactly the user carrying the email |
| `Tables.InsertUser` | app/controllers/auth/Auth.java:83-87 | a User insert gets the next generated id and appends exactly one row; a duplicate email or a fault fails with the database unchanged, a duplicate email as `DuplicateEmail` |
| `Tables.InsertAdmin` | app/controllers/auth/Auth.java:89-91 | an Admin insert appends exactly one row; a missing user or a fault fails with the database unchanged |
| `Tables.InsertUserKeepsWellFormed` | app/controllers/auth/Auth.java:83-87 | a User insert keeps ids distinct, emails unique and every reference valid |
| `Tables.InsertAdminKeepsWellFormed` | app/controllers/auth/Auth.java:89-91 | an Admin insert keeps the database's constraints |
| `Store.Database.StoreUser` | app/controllers/auth/Auth.java:87 | `newUser.store()` changes the tables as `InsertUser` says and returns the generated id |
| `Store.Database.StoreAdmin` | app/controllers/auth/Auth.java:91 | `newAdmin.store()` changes the tables as `InsertAdmin` says |
| `Store.Database.BeginTransaction` | app/database/BriventoryDB.java:73-79 | opening a transaction records the current state and changes no table |
| `Store.Database.Commit` | app/database/BriventoryDB.java:73-79 | committing keeps every table as it is and closes the transaction |
| `Store.Database.Rollback` | app/database/BriventoryDB.java:73-79 | rolling back restores every table to the state at the start of the transaction |
| `BriventoryDB.CompatibilityIsEquivalence` | app/database/BriventoryDB.java:89 | version compatibility (same major version) is reflexive, symmetric and transitive |
| `BriventoryDB.IsDatabaseInitialized` | app/database/BriventoryDB.java:85-90 | fails with `NullRevision` exactly when the Revision row is missing and with `NegativeVersion` exactly when the stored version is negative; otherwise true iff the stored major version equals the application's major version |
| `BriventoryDB.InitializedIgnoresMinorAndPatch` | app/database/BriventoryDB.java:88-89 | the application's minor and patch versions do not affect the answer |
| `BriventoryDB.Matching` | app/database/BriventoryDB.java:99 | the join condition: the LockedUser rows matched to an Admin row carry its `iduser`, and there are none exactly when that user is not locked |
| `BriventoryDB.JoinOne` | app/database/BriventoryDB.java:99 | the left join of one Admin row: at least one row, all for that admin; a non-NULL LockedUser side matches its id; a single NULL row exactly when the user is not locked, and no NULL row when it is |
| `BriventoryDB.LeftJoin` | app/database/BriventoryDB.java:98-99 | every Admin row appears in the left join, every joined row comes from an Admin row, there are at least as many rows as Admin rows, and every non-NULL LockedUser side matches its admin's id |
| `BriventoryDB.WhereLockedIsNull` | app/database/BriventoryDB.java:100 | the filter keeps exactly the joined rows whose LockedUser side is NULL |
| `BriventoryDB.CountActiveAdministrators` | app/database/BriventoryDB.java:97-101 | the count of the filtered join equals the number of Admin rows whose user is not locked |
| `BriventoryDB.CountIsUnlockedAdmins` | app/database/BriventoryDB.java:96-101 | the count of the left join filtered on a NULL LockedUser side equals the number of Admin rows whose user is not locked |
| `BriventoryDB.HasActiveAdministrator` | app/database/BriventoryDB.java:94-103 | an active administrator exists iff some Admin row's user has no LockedUser row |
| `BriventoryDB.NoAdminsNoActiveAdministrator` | app/database/BriventoryDB.java:97-102 | with no Admin rows the count is 0 and the answer is false, not an error |
| `BriventoryDB.AllAdminsLocked` | app/database/BriventoryDB.java:99-102 | when every administrator is locked there is no active administrator |
| `BriventoryDB.LockingNonAdministrator` | app/database/BriventoryDB.java:99-100 | locking a user who holds no Admin row does not change the answer |
| `BriventoryDB.IsInMaintenance` | app/database/BriventoryDB.java:115-118 | as coded: fails exactly when `IsDatabaseInitialized` fails, with the same error; otherwise true iff the versions are compatible or no active administrator exists |
| `BriventoryDB.IsInMaintenanceDocumented` | app/database/BriventoryDB.java:106-114 | as documented: out of maintenance iff the Revision row exists, its major version matches, and some administrator is unlocked |
| `BriventoryDB.NoActiveAdministratorMeansMaintenance` | app/database/BriventoryDB.java:115-118 | without an active administrator both readings report maintenance, the coded one whenever the Revision row is present and non-negative |
| `BriventoryDB.CodedCompatibleForcesMaintenance` | app/database/BriventoryDB.java:116 | as coded, a compatible database reports maintenance whatever the administrators are |
| `BriventoryDB.DocumentedCompatibleWithAdministrator` | app/database/BriventoryDB.java:106-114 | as documented, a compatible database with an unlocked administrator is not in maintenance |
| `BriventoryDB.PolarityDisagreement` | app/database/BriventoryDB.java:106-118 | a concrete database where the coded predicate says maintenance and the documented one says usable |
| `BriventoryDB.MissingRevisionDisagreement` | app/database/BriventoryDB.java:87-88 | with no Revision row the coded predicate fails while the documented one reports maintenance |
| `PublicAuth.SignIn` | app/controllers/auth/PublicAuth.java:88-97 | the sign-in page is prefilled iff the redirect URL is present and not blank, and then with that URL |
| `PublicAuth.RedirectTarget` | app/controllers/auth/PublicAuth.java:139-142 | the index route iff the redirect URL is null or blank; otherwise that URL |
| `Http.BlankCases` | app/controllers/auth/PublicAuth.java:91 | `isBlank` holds of the empty string and of ASCII and Unicode spacing, not of a non-breaking space or a string with a letter |
| `PublicAuth.BadCredentials` | app/controllers/auth/PublicAuth.java:123-126 | the bad-credentials answer is a bad request showing the submitted fields again, with the `auth.signin.error.badcredentials` global error added |
| `PublicAuth.DoSignIn` | app/controllers/auth/PublicAuth.java:113-144 | a form with errors is returned as a bad request; any other rejection is the bad-credentials bad request; a success redirects to the chosen target with a session for a stored user whose email matches and whose password verifies |
| `PublicAuth.InvalidSignInIgnoresStore` | app/controllers/auth/PublicAuth.java:115-118 | a form with errors gets a bad request that depends neither on the database nor on the hasher (no lookup) |
| `PublicAuth.UnknownEmailLooksLikeWrongPassword` | app/controllers/auth/PublicAuth.java:120-137 | an unknown email and a wrong password produce the identical bad-credentials response |
| `PublicAuth.SignInSucceedsIff` | app/controllers/auth/PublicAuth.java:120-143 | with unique emails, sign-in succeeds iff the form is valid and some user has the email and a verifying password; the session is bound to that user |
| `PublicAuth.PrefillMatchesRedirect` | app/controllers/auth/PublicAuth.java:91-94 | the prefill test and the redirect choice agree: a prefilled URL is where a successful sign-in goes |
| `PublicAuth.SignInIgnoresLock` | app/controllers/auth/PublicAuth.java:120-143 | the controller code does no lock check: with the lookup modelled as a plain email match, a locked user with the right password receives a session |
| `PublicAuth.AdminSignUp` | app/controllers/auth/PublicAuth.java:177-194 | a form with errors gives a bad request with nothing persisted, and a valid form never does; anything but a redirect persists nothing; a success appends exactly one user with the form's name and email and the administrator flag, and redirects to sign-in with a null redirect |
| `PublicAuth.AdminSignUpSucceedsIff` | app/controllers/auth/PublicAuth.java:185-190 | the entity sign-up succeeds iff the form is valid, the email is new and the insert does not fail; it keeps the database's constraints |
| `PublicAuth.AdminSignUpDuplicateEmail` | app/controllers/auth/PublicAuth.java:185-190 | a valid sign-up whose email is already stored fails with the duplicate-email error and leaves the database as it was |
| `PublicAuth.AdminSignUpLeavesGateAlone` | app/controllers/auth/PublicAuth.java:185-190 | the entity sign-up changes neither the Admin nor the LockedUser table |
| `PublicAuth.DoAdminSignUp` | app/controllers/auth/PublicAuth.java:177-194 | the method's response and new database are those of `PublicAuth.AdminSignUp` |
| `Auth.AdminSignUp` | app/controllers/auth/Auth.java:72-97 | a form with errors gives a bad request before any transaction, and a valid form never does; anything but a redirect leaves the database as it was; a success appends a user with the form's name and email, password `Hash(13, password)` and the administrator column's default, appends one Admin row with the new user's id, and redirects to `Auth.signIn` |
| `Auth.BothOrNeither` | app/controllers/auth/Auth.java:81-94 | the User and Admin tables each grow by one row exactly when the sign-up succeeds; otherwise nothing changes |
| `Auth.AdminSignUpSucceedsIff` | app/controllers/auth/Auth.java:81-94 | the transaction commits iff the form is valid, the email is new and neither store fails; the database keeps its constraints, so no Admin row exists without its User |
| `Auth.DuplicateEmailRejected` | app/controllers/auth/Auth.java:83-87 | a sign-up with an email already stored fails with `DuplicateEmail` and writes no row |
| `Auth.AdminSignUpActivatesAdministrator` | app/controllers/auth/Auth.java:89-91 | after a successful sign-up an active administrator exists |
| `Auth.SignUpThenSignIn` | app/controllers/auth/Auth.java:86 | if a password verifies against its own cost-13 hash, signing in with the credentials just registered succeeds with a session for the new user |
| `Auth.DoAdminSignUp` | app/controllers/auth/Auth.java:72-97 | the method's response and new database are those of `Auth.AdminSignUp`; its transaction is closed afterwards |

## Findings

| source | as written | input that shows it | evidently intended | confidence | as-written member | corrected member |
|---|---|---|---|---|---|---|
| app/database/BriventoryDB.java:116 | maintenance is `isDatabaseInitialized() \|\| !hasActiveAdministrator()` | schema version 1, application 1.2.3, one unlocked administrator: maintenance is reported | maintenance when the database is not initialized or incompatible, or has no active administrator, as the doc comment at lines 106-114 says | high, not executed | `BriventoryDB.IsInMaintenance` with `BriventoryDB.PolarityDisagreement` | `BriventoryDB.IsInMaintenanceDocumented` with `BriventoryDB.DocumentedCompatibleWithAdministrator` |
| app/database/BriventoryDB.java:87-88 | `fetchAny()` returns null on an empty Revision table and the row is dereferenced | an empty Revision table: the query throws | an uninitialized database puts the application in maintenance, as the doc comment at line 110 says | medium, not executed | `BriventoryDB.IsDatabaseInitialized` with `BriventoryDB.MissingRevisionDisagreement` | `BriventoryDB.IsInMaintenanceDocumented` with `BriventoryDB.MissingRevisionDisagreement` |

## Left out

- Asynchrony: `CompletableFuture`, `supplyAsync`, the executor and the `.join()` calls are left out. Each
  database call is one synchronous step, and an exception in a future becomes a `Failed` response.
- Concurrency: sign-ups racing on the same email are not modelled. Only the effect of the unique constraint
  on one insert (`DuplicateEmail`) is.
- Play framework glue is left out: template rendering, form binding and validation, i18n messages,
  dependency injection and routing. A form is its bound fields plus the binder's list of errors. The
  validation rules of `SignInForm` and `AdminSignUpForm` are not part of this model.
- The `adminSignUp` GET pages only render templates and are left out. The stubs `Auth.signIn` and
  `Auth.doSignIn` just return literal strings and are left out too.
- jOOQ and SQL are left out. The left-join count is evaluated on sequences of rows.
- BCrypt internals are left out: salt, randomness, constant-time comparison and the meaning of the cost.
  `Hash` and `Verify` are given as uninterpreted function values. That a password verifies against its own
  hash is an explicit requirement of `Auth.SignUpThenSignIn`. That a different password does not verify is
  not modelled.
- Passwords are compared as strings. The `getBytes()` and `toCharArray()` encodings are not modelled.
- `User.setClearPassword` is not part of this model. `PublicAuth.DoAdminSignUp` takes what it stores as a
  function parameter `encode`.
- `SessionHelper.withUser` is not part of this model. A session is an opaque value tagged with the user's id.
- `UsersRepository.findByEmail` is not part of this model. It is modelled as the first User row with an
  equal email.
- `PublicAuth.SignInIgnoresLock`: the controller code does no lock check, but `findByEmail` and
  `SessionHelper.withUser` might exclude locked users. With the lookup modelled as a plain email match, a
  locked user gets a session. A locked user is meant not to count as active (the gate at
  app/database/BriventoryDB.java:93-103); whether the real repository also refuses them sign-in is unknown.
- `org.semver.Version.isCompatible` is not part of this model. It is modelled as "same major version".
- The application version comes from the build information. It is a parameter `app`, and version parsing
  is left out.
- `IsDatabaseInitialized` does not model a null `database` column, on which Integer unboxing throws. A
  negative stored version is modelled as the `Version` constructor's failure.
- `Auth.AdminSignUp` does not set the User table's administrator column. Its default lives in the schema,
  outside this core, so the operations take it as a parameter `adminColumn`.
- Email uniqueness, the Admin foreign key and "other" database failures are conditions checked by the
  inserts. The other failures are given to them as `fault` parameters.
- Read failures are not modelled. The user lookup, the Revision fetch and the administrator count always
  return in the model. In the source, a failed read (connection, timeout) lets an exception escape the
  request or the gate. `PublicAuth.DoSignIn` therefore never answers `Failed`.
- A rollback also restores the user id sequence, whereas a real database sequence would keep advancing.
  Ids are not observable across a rolled-back sign-up in this core.

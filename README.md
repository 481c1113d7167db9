# User management: registration and bulk administration, in Dafny

This project models the request-handling logic of a small ASP.NET Identity
web application that keeps a table of user accounts:

- the **user administration controller** (`Controllers/UserController.cs`):
  the user listing ordered by last login, and the bulk block, unblock and
  delete actions. Each action first re-validates the acting user (the guard),
  and blocking or deleting yourself ends your session;
- the **registration page handler**
  (`Areas/Identity/Pages/Account/Register.cshtml.cs`): validation, the
  duplicate-email check, creation of the user, and then either the
  confirmation redirect or a non-persistent sign-in.

Both work on the users table, modelled in `identity.dfy` as
`map<string, User>` keyed by user id. The table is kept `WellFormed`: every
row is stored under its own id, and no two rows share an email (the unique
index of `Data/ApplicationDbContext.cs`). Every method that changes the table
requires and ensures this invariant.

The framework collaborators become explicit state or parameters:

- The controller (`user_admin.dfy`) is a class. It holds the table, the
  principal's id claim (`principal`) and whether the authentication cookie
  is still issued (`signedIn`). An admin action only reads the id claim
  of a session that already exists and may end it, so a flag is enough.
- The page model (`registration.dfy`) is a class. It holds the table, the
  session, the ModelState error list and the `RequireConfirmedAccount`
  option. Registration issues a new session, whose user id and persistence
  matter, so the session is a `Session` value. `OnPost` proves that a user
  signed in this way passes the controller's guard (`ActorActive`) with that
  session's id as principal, which links the two.
- What `UserManager.CreateAsync` does with a user and a password is an
  `Environment` parameter, together with the new user's id and timestamp and
  whether `SignInAsync` throws. The value says whether create succeeds,
  reports identity errors, or throws.
- Exceptions are the `Threw` case of an `Attempt` result, which `OnPost`
  catches as the source's `catch` block does.

The bulk loops are `for` loops that update the table one id at a time. Each
one is proved against a recursive function that visits the ids in the same
order (`WithBlockFlag`, `WithoutIds`). Lemmas then state what those
functions mean. `Index` is an insertion sort, proved to give a newest-first
permutation of the table's rows. Among equal login times it keeps the
enumeration order, which is the model's own choice.

## Behaviour worth noting

- `BlockUsers` answers success with a message, "Users have been successfully
  blocked.", where unblock and delete answer only `success = true`.
- `DeleteUsers` also signs out and redirects when the actor's id is empty
  (`UserController.cs:142-144`).
- A failed create reports identity errors as form-level (empty-key) errors.
- Create and sign-in run inside one `try`. So when `SignInAsync` throws
  after a successful create, the new row stays in the table while the page
  shows the generic error.

## Model

| member | source | states |
|---|---|---|
| `Identity.NewUser` | Models/User.cs:10-14 | a new user is not blocked and both timestamps are the construction time |
| `Identity.FindById` | Controllers/UserController.cs:85-86 | a lookup finds a user exactly when the id is a key, and then returns that row |
| `Identity.EmailRegistered` | Areas/Identity/Pages/Account/Register.cshtml.cs:106-110 | true exactly when some row carries the email, compared exactly (normalisation under Left out) |
| `Identity.EmailRegisteredAfterInsert` | Areas/Identity/Pages/Account/Register.cshtml.cs:80-84 | after a row is inserted under a fresh id, an email is registered exactly when it is that row's email or was registered before, so the duplicate check refuses a second registration with the same email |
| `Identity.InsertViolatesIndex` | Data/ApplicationDbContext.cs:17-19 | the insert is refused exactly when the id is a key or the email is already stored |
| `Identity.InsertViolatesIndexIff` | Data/ApplicationDbContext.cs:17-19 | on a well-formed table, the insert is refused exactly when inserting would overwrite a row or break the unique email index |
| `Identity.InsertKeepsWellFormed` | Data/ApplicationDbContext.cs:17-19 | inserting a row that breaks neither the primary key nor the unique email index keeps the table well formed and adds exactly one row |
| `UserAdmin.CurrentUser` | Controllers/UserController.cs:75 | the actor resolves exactly when the principal carries an id that is a key, and resolves to that row |
| `UserAdmin.IsCurrentUserBlocked` | Controllers/UserController.cs:21-25 | "blocked or missing" is exactly the negation of the guard's condition, so the re-check after a passed guard (lines 59-64, 115-116) cannot fire |
| `UserAdmin.WithBlockFlag` | Controllers/UserController.cs:81-92 | visiting the ids one at a time keeps the same keys, sets the flag on every resolvable target and leaves every other row as it was |
| `UserAdmin.WithBlockFlagKeepsWellFormed` | Controllers/UserController.cs:88-89 | setting block flags keeps ids and the unique-email invariant |
| `UserAdmin.WithBlockFlagIdempotent` | Controllers/UserController.cs:81-92 | blocking the same ids twice gives the same table as blocking them once |
| `UserAdmin.UnblockAfterBlock` | Controllers/UserController.cs:122-133 | unblocking ids after blocking them gives the same table as only unblocking them |
| `UserAdmin.WithoutIds` | Controllers/UserController.cs:169-180 | a row survives exactly when its id is empty or not a target, and surviving rows are unchanged |
| `UserAdmin.WithoutIdsKeepsWellFormed` | Controllers/UserController.cs:169-180 | deleting rows keeps the table well formed |
| `UserAdmin.WithoutIdsRemovesResolvedTargets` | Controllers/UserController.cs:169-180 | the table shrinks by exactly the number of non-empty target ids that resolve |
| `UserAdmin.InsertByLastLogin` | Controllers/UserController.cs:36 | inserting into a newest-first list keeps it newest first and adds exactly the one user |
| `UserAdmin.InsertByLastLoginStable` | Controllers/UserController.cs:36 | the model's insertion step keeps users with equal last-login time in their relative order; the query fixes no tie order, so this is the model's choice among the orders it allows |
| `UserAdmin.Index` | Controllers/UserController.cs:33-39 | the listing is a permutation of all rows, ordered by LastLoginTime non-increasing |
| `UserAdmin.IndexIsStable` | Controllers/UserController.cs:35-37 | the model's listing keeps, for every login time, the users with that time in enumeration order; ORDER BY leaves ties open, and this is one order it may return |
| `UserAdmin.IndexListsAllUsers` | Controllers/UserController.cs:35-38 | when the rows enumerate the whole table, the listing holds every user exactly once and only users of the table, newest first |
| `UserAdmin.UserController.constructor` | Controllers/UserController.cs:9 | an action runs for an authenticated request over a well-formed table |
| `UserAdmin.UserController.SignOut` | Controllers/UserController.cs:45 | signing out ends the session and changes no row |
| `UserAdmin.UserController.ShouldRedirectToLogin` | Controllers/UserController.cs:41-50 | the guard answers true exactly when the actor is missing or blocked, then signs out; no row changes |
| `UserAdmin.UserController.GetLoginRedirectResponse` | Controllers/UserController.cs:182-186 | signs out and answers with the login URL |
| `UserAdmin.UserController.BlockUsers` | Controllers/UserController.cs:52-73 | stale actor: signed out, login redirect, no row changed. Otherwise every resolvable target is blocked and other rows are unchanged. Self-block: signed out, login redirect with the self-block message, and the actor now fails the guard. Else: session kept, success message, actor still passes the guard |
| `UserAdmin.UserController.BlockSelectedUsers` | Controllers/UserController.cs:81-92 | the loop leaves exactly the table of `WithBlockFlag(…, true)` and keeps the invariant |
| `UserAdmin.UserController.HandleSelfBlocking` | Controllers/UserController.cs:94-101 | signs out and answers with the login URL and the self-block message |
| `UserAdmin.UserController.UnblockUsers` | Controllers/UserController.cs:108-120 | stale actor: signed out, login redirect, no row changed. Otherwise every resolvable target is unblocked, other rows are unchanged, the session is kept and the answer is `success = true` |
| `UserAdmin.UserController.UnblockSelectedUsers` | Controllers/UserController.cs:122-133 | the loop leaves exactly the table of `WithBlockFlag(…, false)` and keeps the invariant |
| `UserAdmin.UserController.DeleteUsers` | Controllers/UserController.cs:135-151 | stale actor or empty actor id: signed out, login redirect, no row changed. Self-delete: only the actor's row is removed, the other targets are untouched, signed out, login redirect. Else: exactly the resolvable non-empty targets are removed, the session is kept, `success = true` |
| `UserAdmin.UserController.HandleSelfDeletion` | Controllers/UserController.cs:159-167 | removes only the given user's row (if present), signs out, answers with the login URL |
| `UserAdmin.UserController.DeleteSelectedUsers` | Controllers/UserController.cs:169-180 | the loop leaves exactly the table of `WithoutIds` and keeps the invariant |
| `Registration.ReturnUrlOrDefault` | Areas/Identity/Pages/Account/Register.cshtml.cs:74 | an absent return URL becomes the application root, a given one is kept |
| `Registration.SetUserCredentials` | Areas/Identity/Pages/Account/Register.cshtml.cs:112-116 | the user gets the posted user name and email and nothing else changes |
| `Registration.NewRegistration` | Areas/Identity/Pages/Account/Register.cshtml.cs:86-87 | the user to be created has the fresh id, the posted credentials, is unblocked and carries the construction time |
| `Registration.IdentityErrorEntries` | Areas/Identity/Pages/Account/Register.cshtml.cs:132-138 | one form-level (empty-key) entry per identity error, in order |
| `Registration.RegisterModel.constructor` | Areas/Identity/Pages/Account/Register.cshtml.cs:37-38 | the page model starts from the table, the session, the errors model validation recorded for the posted form, and the confirmation option; the form itself is OnPost's `input` |
| `Registration.RegisterModel.OnPost` | Areas/Identity/Pages/Account/Register.cshtml.cs:72-99 | invalid form: Page with nothing else changed. Registered email: Page with one Email error, table unchanged. Create throws (or the store refuses the row): Page with exactly the generic error, no row. Identity errors: Page with those errors, no row. Success: exactly the new row is inserted, then either the confirmation redirect (email and return URL, no session), or a non-persistent sign-in with a local redirect, or (sign-in throws) Page with the generic error. Only a local redirect changes the session. A user signed in this way passes the admin guard |
| `Registration.RegisterModel.CreateAsync` | Areas/Identity/Pages/Account/Register.cshtml.cs:120 | validator errors come back as a failed result. An accepted row is inserted unless the key or the email index refuses it, which throws. Nothing is inserted on failure |
| `Registration.RegisterModel.TryRegisterUser` | Areas/Identity/Pages/Account/Register.cshtml.cs:118-130 | a failed create appends the identity errors and answers Page. A thrown create propagates with nothing changed. A successful create hands over to HandleSuccessfulRegistration |
| `Registration.RegisterModel.AddIdentityErrors` | Areas/Identity/Pages/Account/Register.cshtml.cs:132-138 | ModelState grows by exactly the identity error entries, in order |
| `Registration.RegisterModel.HandleSuccessfulRegistration` | Areas/Identity/Pages/Account/Register.cshtml.cs:140-149 | confirmation required: confirmation redirect and no session. Otherwise a non-persistent session and a local redirect, or a throw with no session |
| `Registration.RegisterModel.SignInAsync` | Areas/Identity/Pages/Account/Register.cshtml.cs:147 | issues the session for the user with the given persistence, or throws and leaves the session alone |
| `Registration.RegisterModel.HandleEmailConfirmation` | Areas/Identity/Pages/Account/Register.cshtml.cs:151-155 | redirects to the confirmation page with the user's email and the return URL |

## Left out

- The dead re-checks in `BlockUsers` and `UnblockUsers` (`UserController.cs:59-64`, `115-116`) are not written as statements. They re-read the same actor the guard has just accepted, so they cannot redirect. `IsCurrentUserBlocked`'s contract proves this, and both methods assert it right after the guard.
- `HandleBlockedUser` (`UserController.cs:27-31`) is never called and is not modelled.
- `Index` takes the rows in the order the store enumerates them; that order, and the view rendering, are outside the model. The query runs as `ORDER BY LastLoginTime DESC` and leaves the order of equal login times open, possibly different per request. The model keeps enumeration order among ties, which is one allowed result, so `IndexIsStable` and `InsertByLastLoginStable` describe the model, not a promise of the source. `IndexListsAllUsers` ties the rows to the table.
- `UpdateAsync` and `DeleteAsync` return results the controller ignores. They are modelled as always applying the change.
- Model validation (data annotations, model binding) is not modelled. The page model receives the error list it produced, and `ModelState.IsValid` is modelled as "that list is empty".
- `Identity.FindById`: ids are matched exactly. The database collation is not modelled; under SQL Server's default case-insensitive collation `FindByIdAsync` also finds an id that differs only in letter case.
- `UserAdmin.UserController.BlockUsers` and `UserAdmin.UserController.DeleteUsers`: the self-targeting test (`string[].Contains`) is case-sensitive while the lookups may not be. The model matches ids exactly everywhere, so its ensures hold for targets written with the stored id's exact case. With a case-variant of the actor's id, the source blocks or deletes the actor's row and still answers success; the model does not capture that.
- Email lookups compare emails exactly. The identity store's normalisation (upper-casing) is not modelled.
- The user-name uniqueness check and the password policy belong to `CreateAsync`'s validators. They are folded into the `CreateBehaviour` parameter.
- Password hashing, cookie issuance, `GetExternalAuthenticationSchemesAsync` (the `ExternalLogins` property), logging and `Activator.CreateInstance` are framework internals and are not modelled.
- `OnGetAsync`, `GetEmailStore`'s capability check and `LocalRedirect`'s rejection of non-local URLs when the result runs are not modelled. That rejection happens after the handler returns.
- `Url.Content("~/")` is modelled as `"/"`, which is the application root when the path base is empty.
- Async/await and concurrent requests are not modelled. Each request is one sequential transition, so registrations racing on one email are not modelled either. When the store refuses a row, `CreateAsync` throws, as the database's unique index would.
- The store is total except where the model says otherwise: only `CreateAsync` and `SignInAsync` may throw. In the source, an exception from `FindByEmailAsync` or the setters (`Register.cshtml.cs:80`, `87`, `108`) is raised outside the `try` at lines 89-98 and escapes the handler, and one raised in the middle of a controller loop escapes with the ids already visited changed. Neither is modelled.
- Timestamps are integers chosen by the caller; `DateTime.UtcNow` is not modelled.
- `Program.cs` (startup, migration retries) and `Services/MailKitEmailSender.cs` (SMTP) are not part of this model.
- JSON serialisation of responses is not modelled. Responses are the `JsonResponse` datatype.

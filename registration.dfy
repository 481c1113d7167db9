/** The registration page handler
    (Areas/Identity/Pages/Account/Register.cshtml.cs): validate, refuse a
    registered email, create the user, then either send the user to the
    confirmation page or sign them in. */
module Registration {
  import opened Identity
  import UserAdmin

  /** Url.Content("~/"): the application root, with an empty path base. */
  const DefaultReturnUrl := "/"
  /** nameof(Input.Email): the form field duplicate emails are reported on. */
  const EmailKey := "Email"
  const DuplicateEmailMessage := "This email address is already registered."
  const UnexpectedErrorMessage := "An unexpected error occurred during registration."

  /** The posted form. */
  datatype InputModel = InputModel(
    userName: string,
    email: string,
    password: string,
    confirmPassword: string)

  /** One ModelState entry; the empty key is a form-level error. */
  datatype ModelError = ModelError(key: string, message: string)

  /** What the handler answers with. */
  datatype PageResult =
    | Page
    | RedirectToConfirmation(email: string, returnUrl: string)
    | LocalRedirect(url: string)

  /** The authentication session of the browser making the request. */
  datatype Session = Anonymous | SignedIn(userId: string, isPersistent: bool)

  /** IdentityResult: what UserManager.CreateAsync reports when it returns. */
  datatype CreateResult = Succeeded | Failed(errors: seq<string>)

  /** What UserManager.CreateAsync makes of the new user and the password
      (user and password validators, hashing, the store call): it succeeds,
      reports identity errors, or throws. */
  datatype CreateBehaviour = Succeeds | FailsWith(errors: seq<string>) | Throws

  /** The framework's side of one request: the id and the clock value the new
      User object is constructed with, what CreateAsync does, and whether
      SignInAsync throws. */
  datatype Environment = Environment(
    newId: string,
    now: int,
    create: CreateBehaviour,
    signInThrows: bool)

  /** How a step of the handler ended: it returned a value, or it threw. */
  datatype Attempt<T> = Returned(value: T) | Threw

  /** The return URL the handler works with: the posted one, else the
      application root. */
  function ReturnUrlOrDefault(returnUrl: Option<string>): (url: string)
    ensures returnUrl.Some? ==> url == returnUrl.value
    ensures returnUrl.None? ==> url == DefaultReturnUrl
  {
    match returnUrl
    case Some(given) => given
    case None => DefaultReturnUrl
  }

  /** SetUserCredentials: the store setters give the new user the posted user
      name and email and change nothing else. */
  function SetUserCredentials(u: User, input: InputModel): (r: User)
    ensures r.userName == input.userName && r.email == input.email
    ensures r.id == u.id && r.isBlocked == u.isBlocked
    ensures r.registrationDate == u.registrationDate && r.lastLoginTime == u.lastLoginTime
  {
    u.(userName := input.userName, email := input.email)
  }

  /** The user object the handler tries to create: a default User carrying the
      posted credentials. */
  function NewRegistration(input: InputModel, env: Environment): (u: User)
    ensures u.id == env.newId && u.userName == input.userName && u.email == input.email
    ensures !u.isBlocked && u.registrationDate == env.now && u.lastLoginTime == env.now
  {
    SetUserCredentials(NewUser(env.newId, env.now), input)
  }

  /** The form-level entries AddIdentityErrors appends, one per description,
      in order. */
  function IdentityErrorEntries(errors: seq<string>): (r: seq<ModelError>)
    ensures |r| == |errors|
    ensures forall i | 0 <= i < |errors| :: r[i] == ModelError("", errors[i])
  {
    if errors == [] then []
    else IdentityErrorEntries(errors[..|errors| - 1]) + [ModelError("", errors[|errors| - 1])]
  }

  class RegisterModel {
    /** The rows behind UserManager<User> and the user store. */
    var users: Table
    /** The session SignInManager issues. */
    var session: Session
    /** ModelState's errors, starting with those model validation recorded. */
    var modelState: seq<ModelError>
    /** IdentityOptions.SignIn.RequireConfirmedAccount. */
    const requireConfirmedAccount: bool

    ghost predicate Valid()
      reads this
    {
      WellFormed(users)
    }

    /** A page model bound to a posted form: modelState holds what model
      binding and validation of the form recorded. */
    constructor (users: Table, session: Session, modelState: seq<ModelError>, requireConfirmedAccount: bool)
      requires WellFormed(users)
      ensures Valid()
      ensures this.users == users && this.session == session && this.modelState == modelState
      ensures this.requireConfirmedAccount == requireConfirmedAccount
    {
      this.users := users;
      this.session := session;
      this.modelState := modelState;
      this.requireConfirmedAccount := requireConfirmedAccount;
    }

    /** OnPostAsync. Invalid input re-renders the form with nothing else done.
      A registered email re-renders it with an error on Email. Otherwise the
      new user is created: identity errors are copied to the form in order;
      an exception from create or sign-in becomes the one generic form error;
      on success the result is the confirmation redirect (no session) when
      confirmed accounts are required, else a non-persistent sign-in and a
      local redirect to the return URL. The table stays well formed and gains
      at most the new, unblocked row. */
    method OnPost(input: InputModel, returnUrl: Option<string>, env: Environment) returns (result: PageResult)
      requires Valid()
      modifies this
      ensures Valid()
      ensures old(modelState) != [] ==>
        && result == Page
        && users == old(users) && session == old(session) && modelState == old(modelState)
      ensures old(modelState) == [] && EmailRegistered(old(users), input.email) ==>
        && result == Page
        && users == old(users) && session == old(session)
        && modelState == [ModelError(EmailKey, DuplicateEmailMessage)]
      ensures old(modelState) == [] && !EmailRegistered(old(users), input.email) ==>
        if env.create.Throws? || (env.create.Succeeds? && env.newId in old(users)) then
          && result == Page
          && users == old(users) && session == old(session)
          && modelState == [ModelError("", UnexpectedErrorMessage)]
        else if env.create.FailsWith? then
          && result == Page
          && users == old(users) && session == old(session)
          && modelState == IdentityErrorEntries(env.create.errors)
        else
          && users == old(users)[env.newId := NewRegistration(input, env)]
          && (requireConfirmedAccount ==>
                && result == RedirectToConfirmation(input.email, ReturnUrlOrDefault(returnUrl))
                && session == old(session) && modelState == [])
          && (!requireConfirmedAccount && env.signInThrows ==>
                && result == Page && session == old(session)
                && modelState == [ModelError("", UnexpectedErrorMessage)])
          && (!requireConfirmedAccount && !env.signInThrows ==>
                && result == LocalRedirect(ReturnUrlOrDefault(returnUrl))
                && session == SignedIn(env.newId, false) && modelState == [])
      ensures !result.LocalRedirect? ==> session == old(session)
      ensures users != old(users) ==>
        && users == old(users)[env.newId := users[env.newId]]
        && env.newId !in old(users)
        && users[env.newId].email == input.email
        && !users[env.newId].isBlocked
      ensures result.LocalRedirect? ==> UserAdmin.ActorActive(users, Some(env.newId))
    {
      var url := ReturnUrlOrDefault(returnUrl);
      if modelState != [] {
        return Page;
      }
      if EmailRegistered(users, input.email) {
        modelState := modelState + [ModelError(EmailKey, DuplicateEmailMessage)];
        return Page;
      }
      var user := NewUser(env.newId, env.now);
      user := SetUserCredentials(user, input);
      var attempt := TryRegisterUser(user, url, env);
      match attempt
      case Returned(page) =>
        result := page;
      case Threw =>
        modelState := modelState + [ModelError("", UnexpectedErrorMessage)];
        result := Page;
    }

    /** UserManager.CreateAsync: the validators' errors come back as a failed
      result; an accepted user is inserted, unless the database's primary key
      or unique email index refuses the row, which throws like any other
      failure of the store. */
    method CreateAsync(user: User, behaviour: CreateBehaviour) returns (outcome: Attempt<CreateResult>)
      requires Valid()
      modifies this
      ensures Valid()
      ensures session == old(session) && modelState == old(modelState)
      ensures behaviour.Throws? ==> outcome == Threw && users == old(users)
      ensures behaviour.FailsWith? ==> outcome == Returned(Failed(behaviour.errors)) && users == old(users)
      ensures behaviour.Succeeds? && InsertViolatesIndex(old(users), user) ==>
        outcome == Threw && users == old(users)
      ensures behaviour.Succeeds? && !InsertViolatesIndex(old(users), user) ==>
        outcome == Returned(Succeeded) && users == old(users)[user.id := user]
    {
      match behaviour
      case Throws =>
        return Threw;
      case FailsWith(errors) =>
        return Returned(Failed(errors));
      case Succeeds =>
        if InsertViolatesIndex(users, user) {
          return Threw;
        }
        InsertKeepsWellFormed(users, user);
        users := users[user.id := user];
        return Returned(Succeeded);
    }

    /** TryRegisterUser: create the user; copy identity errors to the form
      on failure, else go on to HandleSuccessfulRegistration. */
    method TryRegisterUser(user: User, returnUrl: string, env: Environment) returns (outcome: Attempt<PageResult>)
      requires Valid()
      modifies this
      ensures Valid()
      ensures env.create.Throws? || (env.create.Succeeds? && InsertViolatesIndex(old(users), user)) ==>
        outcome == Threw && users == old(users) && session == old(session) && modelState == old(modelState)
      ensures env.create.FailsWith? ==>
        && outcome == Returned(Page)
        && users == old(users) && session == old(session)
        && modelState == old(modelState) + IdentityErrorEntries(env.create.errors)
      ensures env.create.Succeeds? && !InsertViolatesIndex(old(users), user) ==>
        && users == old(users)[user.id := user]
        && modelState == old(modelState)
        && (requireConfirmedAccount ==>
              outcome == Returned(RedirectToConfirmation(user.email, returnUrl)) && session == old(session))
        && (!requireConfirmedAccount && env.signInThrows ==>
              outcome == Threw && session == old(session))
        && (!requireConfirmedAccount && !env.signInThrows ==>
              outcome == Returned(LocalRedirect(returnUrl)) && session == SignedIn(user.id, false))
    {
      var created := CreateAsync(user, env.create);
      match created
      case Threw =>
        return Threw;
      case Returned(result) =>
        if result.Failed? {
          AddIdentityErrors(result.errors);
          return Returned(Page);
        }
        outcome := HandleSuccessfulRegistration(user, returnUrl, env.signInThrows);
    }

    /** AddIdentityErrors: appends each error description as a form-level
      error, in order. */
    method AddIdentityErrors(errors: seq<string>)
      modifies this
      ensures modelState == old(modelState) + IdentityErrorEntries(errors)
      ensures users == old(users) && session == old(session)
    {
      for i := 0 to |errors|
        invariant modelState == old(modelState) + IdentityErrorEntries(errors[..i])
        invariant users == old(users) && session == old(session)
      {
        modelState := modelState + [ModelError("", errors[i])];
        assert errors[..i + 1][..i] == errors[..i];
      }
      assert errors[..|errors|] == errors;
    }

    /** HandleSuccessfulRegistration: with confirmed accounts required, the
      confirmation redirect and no session; otherwise a non-persistent
      sign-in, which may throw, and a local redirect. */
    method HandleSuccessfulRegistration(user: User, returnUrl: string, signInThrows: bool)
      returns (outcome: Attempt<PageResult>)
      modifies this
      ensures users == old(users) && modelState == old(modelState)
      ensures requireConfirmedAccount ==>
        outcome == Returned(RedirectToConfirmation(user.email, returnUrl)) && session == old(session)
      ensures !requireConfirmedAccount && signInThrows ==>
        outcome == Threw && session == old(session)
      ensures !requireConfirmedAccount && !signInThrows ==>
        outcome == Returned(LocalRedirect(returnUrl)) && session == SignedIn(user.id, false)
    {
      if requireConfirmedAccount {
        var page := HandleEmailConfirmation(user, returnUrl);
        return Returned(page);
      }
      var signedIn := SignInAsync(user, false, signInThrows);
      if !signedIn {
        return Threw;
      }
      return Returned(LocalRedirect(returnUrl));
    }

    /** SignInManager.SignInAsync: issues the session, or throws and leaves
      it alone. */
    method SignInAsync(user: User, isPersistent: bool, throws: bool) returns (signedIn: bool)
      modifies this
      ensures signedIn == !throws
      ensures users == old(users) && modelState == old(modelState)
      ensures session == if throws then old(session) else SignedIn(user.id, isPersistent)
    {
      if throws {
        return false;
      }
      session := SignedIn(user.id, isPersistent);
      return true;
    }

    /** HandleEmailConfirmation: redirect to RegisterConfirmation with the
      user's stored email and the return URL. */
    method HandleEmailConfirmation(user: User, returnUrl: string) returns (page: PageResult)
      ensures page == RedirectToConfirmation(user.email, returnUrl)
    {
      var email := user.email;
      page := RedirectToConfirmation(email, returnUrl);
    }
  }
}

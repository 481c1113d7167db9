/** The user administration controller (Controllers/UserController.cs): the
    listing ordered by last login, and the bulk block, unblock and delete
    actions with their guard and their self-targeting special cases. */
module UserAdmin {
  import opened Identity

  const LoginUrl := "/Identity/Account/Login"
  const SelfBlockMessage := "You have blocked yourself and have been automatically logged out."
  const BlockSuccessMessage := "Users have been successfully blocked."

  /** The JSON bodies the mutating actions answer with. */
  datatype JsonResponse =
    | Redirect(redirectUrl: string)                              // { redirectUrl }
    | RedirectWithMessage(redirectUrl: string, message: string)  // { redirectUrl, message }
    | Success(note: Option<string>)                              // { success = true [, message] }

  /** GetUserAsync(User): the row of the request's principal, when the
      principal carries an id and that id still resolves. */
  function CurrentUser(t: Table, principal: Option<string>): (r: Option<User>)
    ensures r.Some? <==> principal.Some? && principal.value in t
    ensures r.Some? ==> r.value == t[principal.value]
  {
    if principal.Some? then FindById(t, principal.value) else None
  }

  /** The condition under which the guard lets a mutating action proceed:
      the acting user still exists and is not blocked. */
  predicate ActorActive(t: Table, principal: Option<string>)
  {
    principal.Some? && principal.value in t && !t[principal.value].isBlocked
  }

  /** IsCurrentUserBlocked: a missing user counts as blocked. It is exactly
      the negation of the guard's condition, so once the guard has passed and
      nothing has changed, the re-check cannot fire. */
  function IsCurrentUserBlocked(t: Table, principal: Option<string>): (blocked: bool)
    ensures blocked <==> !ActorActive(t, principal)
  {
    match CurrentUser(t, principal)
    case None => true
    case Some(u) => u.isBlocked
  }

  // ---------------------------------------------------------------------
  // The tables the bulk loops produce, one id at a time

  /** The table after the loop of BlockSelectedUsers (flag true) or
      UnblockSelectedUsers (flag false) has visited every id of ids in order:
      each id that resolves gets the flag, the other ids are skipped. */
  function WithBlockFlag(t: Table, ids: seq<string>, flag: bool): (r: Table)
    ensures r.Keys == t.Keys
    ensures forall k | k in t && k in ids :: r[k] == t[k].(isBlocked := flag)
    ensures forall k | k in t && k !in ids :: r[k] == t[k]
    decreases |ids|
  {
    if ids == [] then t
    else
      var before := WithBlockFlag(t, ids[..|ids| - 1], flag);
      var id := ids[|ids| - 1];
      if id in before then before[id := before[id].(isBlocked := flag)] else before
  }

  /** The table after the loop of DeleteSelectedUsers has visited every id of
      ids in order: empty ids and ids that do not resolve are skipped. */
  function WithoutIds(t: Table, ids: seq<string>): (r: Table)
    ensures forall k :: k in r <==> k in t && (k == "" || k !in ids)
    ensures forall k | k in r :: r[k] == t[k]
    decreases |ids|
  {
    if ids == [] then t
    else
      var before := WithoutIds(t, ids[..|ids| - 1]);
      var id := ids[|ids| - 1];
      if id != "" && id in before then before - {id} else before
  }

  /** Blocking or unblocking touches only the flag, so the table stays well
      formed. */
  lemma WithBlockFlagKeepsWellFormed(t: Table, ids: seq<string>, flag: bool)
    requires WellFormed(t)
    ensures WellFormed(WithBlockFlag(t, ids, flag))
  {
  }

  /** Deleting rows keeps the table well formed. */
  lemma WithoutIdsKeepsWellFormed(t: Table, ids: seq<string>)
    requires WellFormed(t)
    ensures WellFormed(WithoutIds(t, ids))
  {
  }

  /** Blocking the same ids twice is the same as blocking them once. */
  lemma WithBlockFlagIdempotent(t: Table, ids: seq<string>, flag: bool)
    ensures WithBlockFlag(WithBlockFlag(t, ids, flag), ids, flag) == WithBlockFlag(t, ids, flag)
  {
  }

  /** Unblocking a set of ids undoes every block of the same ids: the result
      depends only on the last flag written. */
  lemma UnblockAfterBlock(t: Table, ids: seq<string>)
    ensures WithBlockFlag(WithBlockFlag(t, ids, true), ids, false) == WithBlockFlag(t, ids, false)
  {
  }

  /** Delete removes exactly the rows whose non-empty ids are among the
      targets and resolve. */
  lemma {:induction false} WithoutIdsRemovesResolvedTargets(t: Table, ids: seq<string>)
    ensures |WithoutIds(t, ids)| == |t| - |set k | k in t && k != "" && k in ids|
  {
    var gone := set k | k in t && k != "" && k in ids;
    assert WithoutIds(t, ids).Keys == t.Keys - gone;
    assert gone <= t.Keys;
  }

  // ---------------------------------------------------------------------
  // Index: the listing

  /** Users ordered by LastLoginTime descending, most recently active first. */
  ghost predicate NewestFirst(s: seq<User>)
  {
    forall i, j | 0 <= i < j < |s| :: s[i].lastLoginTime >= s[j].lastLoginTime
  }

  /** The users of s whose last login is at the given time, in the order of s. */
  function LoggedInAt(s: seq<User>, time: int): seq<User>
  {
    if s == [] then []
    else (if s[0].lastLoginTime == time then [s[0]] else []) + LoggedInAt(s[1..], time)
  }

  /** Unfolding LoggedInAt once, at the front of a sequence. */
  lemma LoggedInAtCons(x: User, s: seq<User>, time: int)
    ensures LoggedInAt([x] + s, time) == (if x.lastLoginTime == time then [x] else []) + LoggedInAt(s, time)
  {
  }

  /** A user who logged in no earlier than everyone in a newest-first
      sequence may head it. */
  lemma NewestFirstCons(x: User, s: seq<User>)
    requires NewestFirst(s)
    requires forall y | y in s :: y.lastLoginTime <= x.lastLoginTime
    ensures NewestFirst([x] + s)
  {
  }

  /** Places u before the first user of s who logged in no later than u. */
  function InsertByLastLogin(u: User, s: seq<User>): (r: seq<User>)
    requires NewestFirst(s)
    ensures multiset(r) == multiset(s) + multiset{u}
    ensures NewestFirst(r)
  {
    if s == [] || s[0].lastLoginTime <= u.lastLoginTime then
      assert forall y | y in s :: y.lastLoginTime <= s[0].lastLoginTime;
      NewestFirstCons(u, s);
      [u] + s
    else
      var rest := InsertByLastLogin(u, s[1..]);
      assert s == [s[0]] + s[1..];
      assert forall y | y in rest :: y.lastLoginTime <= s[0].lastLoginTime by {
        forall y | y in rest ensures y.lastLoginTime <= s[0].lastLoginTime {
          assert y in multiset(rest);
          assert y == u || y in s[1..];
        }
      }
      NewestFirstCons(s[0], rest);
      [s[0]] + rest
  }

  /** Index: the rows of the table, as the store enumerates them, sorted by
      LastLoginTime descending. The result is a permutation of the rows and is
      newest first. The database leaves the order of equal login times open;
      this model settles it by keeping the enumeration order (see
      IndexIsStable), which is one of the orders the query may return. */
  function Index(rows: seq<User>): (view: seq<User>)
    ensures multiset(view) == multiset(rows)
    ensures NewestFirst(view)
  {
    if rows == [] then []
    else
      assert rows == [rows[0]] + rows[1..];
      InsertByLastLogin(rows[0], Index(rows[1..]))
  }

  /** Inserting u keeps, for every login time, the users with that time in the
      order they have in [u] + s. This is a choice of the model's insertion
      sort, not a promise of the query it models. */
  lemma {:induction false} InsertByLastLoginStable(u: User, s: seq<User>, time: int)
    requires NewestFirst(s)
    ensures LoggedInAt(InsertByLastLogin(u, s), time) == LoggedInAt([u] + s, time)
  {
    if !(s == [] || s[0].lastLoginTime <= u.lastLoginTime) {
      var rest := InsertByLastLogin(u, s[1..]);
      var head := if s[0].lastLoginTime == time then [s[0]] else [];
      var mine := if u.lastLoginTime == time then [u] else [];
      InsertByLastLoginStable(u, s[1..], time);
      assert s == [s[0]] + s[1..];
      LoggedInAtCons(s[0], rest, time);
      LoggedInAtCons(u, s, time);
      LoggedInAtCons(s[0], s[1..], time);
      LoggedInAtCons(u, s[1..], time);
      // s[0] logged in strictly later than u, so at most one of them is kept
      assert head == [] || mine == [];
      calc {
        LoggedInAt(InsertByLastLogin(u, s), time);
        head + LoggedInAt(rest, time);
        head + (mine + LoggedInAt(s[1..], time));
        mine + (head + LoggedInAt(s[1..], time));
        LoggedInAt([u] + s, time);
      }
    }
  }

  /** The model's Index is stable: users with the same last login keep the
      relative order in which the store enumerated them. The query itself runs
      as ORDER BY LastLoginTime DESC and fixes no order among ties, so this
      describes the one tie order the model picks. */
  lemma {:induction false} IndexIsStable(rows: seq<User>, time: int)
    ensures LoggedInAt(Index(rows), time) == LoggedInAt(rows, time)
  {
    if rows != [] {
      IndexIsStable(rows[1..], time);
      InsertByLastLoginStable(rows[0], Index(rows[1..]), time);
      assert rows == [rows[0]] + rows[1..];
      LoggedInAtCons(rows[0], rows[1..], time);
      LoggedInAtCons(rows[0], Index(rows[1..]), time);
    }
  }

  /** rows enumerates the table: it holds every row of t exactly once and
      nothing else. */
  ghost predicate ListsTable(rows: seq<User>, t: Table)
  {
    multiset(rows) == multiset(t.Values)
  }

  /** When the store enumerates the whole table, the listing shows every user
      exactly once, only users of the table, newest first. */
  lemma IndexListsAllUsers(rows: seq<User>, t: Table)
    requires WellFormed(t)
    requires ListsTable(rows, t)
    ensures ListsTable(Index(rows), t)
    ensures NewestFirst(Index(rows))
    ensures forall id | id in t :: multiset(Index(rows))[t[id]] == 1
    ensures forall i | 0 <= i < |Index(rows)| :: Index(rows)[i].id in t && t[Index(rows)[i].id] == Index(rows)[i]
  {
    var view := Index(rows);
    forall id | id in t ensures multiset(view)[t[id]] == 1 {
      assert t[id] in t.Values;
    }
    forall i | 0 <= i < |view| ensures view[i].id in t && t[view[i].id] == view[i] {
      assert view[i] in multiset(view);
      assert view[i] in t.Values;
      var k :| k in t && t[k] == view[i];
    }
  }

  // ---------------------------------------------------------------------
  // The controller

  class UserController {
    /** The rows behind UserManager<User>. */
    var users: Table
    /** The id claim of the request's principal, if it carries one. */
    const principal: Option<string>
    /** Whether the authentication cookie is still issued. */
    var signedIn: bool

    ghost predicate Valid()
      reads this
    {
      WellFormed(users)
    }

    /** A request reaches an action only with an authenticated session. */
    constructor (users: Table, principal: Option<string>)
      requires WellFormed(users)
      ensures Valid()
      ensures this.users == users && this.principal == principal && signedIn
    {
      this.users := users;
      this.principal := principal;
      signedIn := true;
    }

    /** SignOutAsync: ends the session and leaves the table alone. */
    method SignOut()
      modifies this
      ensures users == old(users) && !signedIn
    {
      signedIn := false;
    }

    /** ShouldRedirectToLogin: when the actor is missing or blocked, signs
      the session out and answers true. */
    method ShouldRedirectToLogin() returns (redirect: bool)
      modifies this
      ensures redirect <==> !ActorActive(old(users), principal)
      ensures users == old(users)
      ensures signedIn == (old(signedIn) && !redirect)
    {
      var user := CurrentUser(users, principal);
      if user.None? || user.value.isBlocked {
        SignOut();
        return true;
      }
      return false;
    }

    /** GetLoginRedirectResponse: signs out and answers with the login URL. */
    method GetLoginRedirectResponse() returns (r: JsonResponse)
      modifies this
      ensures users == old(users) && !signedIn && r == Redirect(LoginUrl)
    {
      SignOut();
      r := Redirect(LoginUrl);
    }

    /** BlockUsers. A stale actor is signed out and redirected with no row
      changed. Otherwise every target that resolves is blocked; when the actor
      is among the targets the session then ends with the self-block message
      (and the actor's next request fails the guard), else the session stays
      and the answer is the success message. */
    method BlockUsers(userIds: seq<string>) returns (r: JsonResponse)
      requires Valid()
      modifies this
      ensures Valid()
      ensures !ActorActive(old(users), principal) ==>
        users == old(users) && !signedIn && r == Redirect(LoginUrl)
      ensures ActorActive(old(users), principal) ==>
        users == WithBlockFlag(old(users), userIds, true)
      ensures ActorActive(old(users), principal) && principal.value in userIds ==>
        && !signedIn
        && r == RedirectWithMessage(LoginUrl, SelfBlockMessage)
        && users[principal.value].isBlocked
        && !ActorActive(users, principal)
      ensures ActorActive(old(users), principal) && principal.value !in userIds ==>
        && signedIn == old(signedIn)
        && r == Success(Some(BlockSuccessMessage))
        && ActorActive(users, principal)
    {
      var redirect := ShouldRedirectToLogin();
      if redirect {
        return Redirect(LoginUrl);
      }
      // The re-checks that follow the guard (IsCurrentUserBlocked, then
      // GetCurrentUser) see the same table and principal as the guard did, so
      // neither of them can redirect.
      assert !IsCurrentUserBlocked(users, principal);
      assert CurrentUser(users, principal).Some?;
      var currentUser := CurrentUser(users, principal).value;
      var blockingSelf := currentUser.id in userIds;
      BlockSelectedUsers(userIds);
      if blockingSelf {
        r := HandleSelfBlocking();
        return;
      }
      r := Success(Some(BlockSuccessMessage));
    }

    /** BlockSelectedUsers: blocks each target that resolves, one at a time. */
    method BlockSelectedUsers(userIds: seq<string>)
      requires Valid()
      modifies this
      ensures Valid()
      ensures users == WithBlockFlag(old(users), userIds, true)
      ensures signedIn == old(signedIn)
    {
      for i := 0 to |userIds|
        invariant users == WithBlockFlag(old(users), userIds[..i], true)
        invariant Valid()
        invariant signedIn == old(signedIn)
      {
        var user := FindById(users, userIds[i]);
        if user.Some? {
          users := users[user.value.id := user.value.(isBlocked := true)];
        }
        assert userIds[..i + 1][..i] == userIds[..i];
        WithBlockFlagKeepsWellFormed(old(users), userIds[..i + 1], true);
      }
      assert userIds[..|userIds|] == userIds;
    }

    /** HandleSelfBlocking: signs out and answers with the self-block message. */
    method HandleSelfBlocking() returns (r: JsonResponse)
      modifies this
      ensures users == old(users) && !signedIn
      ensures r == RedirectWithMessage(LoginUrl, SelfBlockMessage)
    {
      SignOut();
      r := RedirectWithMessage(LoginUrl, SelfBlockMessage);
    }

    /** UnblockUsers. A stale actor is signed out and redirected with no row
      changed; otherwise every target that resolves is unblocked, the session
      stays, and the answer is success. */
    method UnblockUsers(userIds: seq<string>) returns (r: JsonResponse)
      requires Valid()
      modifies this
      ensures Valid()
      ensures !ActorActive(old(users), principal) ==>
        users == old(users) && !signedIn && r == Redirect(LoginUrl)
      ensures ActorActive(old(users), principal) ==>
        && users == WithBlockFlag(old(users), userIds, false)
        && signedIn == old(signedIn)
        && r == Success(None)
        && ActorActive(users, principal)
    {
      var redirect := ShouldRedirectToLogin();
      if redirect {
        return Redirect(LoginUrl);
      }
      // As in BlockUsers, the IsCurrentUserBlocked re-check cannot fire here.
      assert !IsCurrentUserBlocked(users, principal);
      UnblockSelectedUsers(userIds);
      r := Success(None);
    }

    /** UnblockSelectedUsers: unblocks each target that resolves, one at a time. */
    method UnblockSelectedUsers(userIds: seq<string>)
      requires Valid()
      modifies this
      ensures Valid()
      ensures users == WithBlockFlag(old(users), userIds, false)
      ensures signedIn == old(signedIn)
    {
      for i := 0 to |userIds|
        invariant users == WithBlockFlag(old(users), userIds[..i], false)
        invariant Valid()
        invariant signedIn == old(signedIn)
      {
        var user := FindById(users, userIds[i]);
        if user.Some? {
          users := users[user.value.id := user.value.(isBlocked := false)];
        }
        assert userIds[..i + 1][..i] == userIds[..i];
        WithBlockFlagKeepsWellFormed(old(users), userIds[..i + 1], false);
      }
      assert userIds[..|userIds|] == userIds;
    }

    /** DeleteUsers. A stale actor, or an actor whose id is empty, is signed
      out and redirected with no row changed. When the actor is among the
      targets only the actor's row is deleted, the other targets are left
      alone, and the session ends. Otherwise every non-empty target that
      resolves is deleted and the answer is success. */
    method DeleteUsers(userIds: seq<string>) returns (r: JsonResponse)
      requires Valid()
      modifies this
      ensures Valid()
      ensures !ActorActive(old(users), principal) ==>
        users == old(users) && !signedIn && r == Redirect(LoginUrl)
      ensures ActorActive(old(users), principal) && principal.value == "" ==>
        users == old(users) && !signedIn && r == Redirect(LoginUrl)
      ensures ActorActive(old(users), principal) && principal.value != "" && principal.value in userIds ==>
        && users == old(users) - {principal.value}
        && !signedIn
        && r == Redirect(LoginUrl)
        && !ActorActive(users, principal)
      ensures ActorActive(old(users), principal) && principal.value != "" && principal.value !in userIds ==>
        && users == WithoutIds(old(users), userIds)
        && signedIn == old(signedIn)
        && r == Success(None)
        && ActorActive(users, principal)
    {
      var redirect := ShouldRedirectToLogin();
      if redirect {
        return Redirect(LoginUrl);
      }
      var currentUserId := principal;
      if currentUserId.None? || currentUserId.value == "" {
        r := GetLoginRedirectResponse();
        return;
      }
      if currentUserId.value in userIds {
        r := HandleSelfDeletion(currentUserId.value);
        return;
      }
      DeleteSelectedUsers(userIds);
      r := Success(None);
    }

    /** HandleSelfDeletion: deletes the actor's own row, if it resolves, then
      signs out and redirects to the login page. */
    method HandleSelfDeletion(userId: string) returns (r: JsonResponse)
      requires Valid()
      modifies this
      ensures Valid()
      ensures users == old(users) - {userId} && !signedIn && r == Redirect(LoginUrl)
    {
      var user := FindById(users, userId);
      if user.Some? {
        users := users - {user.value.id};
      }
      SignOut();
      r := Redirect(LoginUrl);
    }

    /** DeleteSelectedUsers: deletes each non-empty target that resolves, one
      at a time. */
    method DeleteSelectedUsers(userIds: seq<string>)
      requires Valid()
      modifies this
      ensures Valid()
      ensures users == WithoutIds(old(users), userIds)
      ensures signedIn == old(signedIn)
    {
      for i := 0 to |userIds|
        invariant users == WithoutIds(old(users), userIds[..i])
        invariant Valid()
        invariant signedIn == old(signedIn)
      {
        if userIds[i] != "" {
          var user := FindById(users, userIds[i]);
          if user.Some? {
            users := users - {user.value.id};
          }
        }
        assert userIds[..i + 1][..i] == userIds[..i];
        WithoutIdsKeepsWellFormed(old(users), userIds[..i + 1]);
      }
      assert userIds[..|userIds|] == userIds;
    }
  }
}

/**
 * Properties that relate several flows or several calls: the store
 * invariant, what each flow may change, and round trips between the flows.
 */
module AuthProperties {
  import opened Wrappers
  import opened Crypto
  import opened Models
  import opened Auth

  /** Appending a user whose username, email and id are all new keeps the store valid. */
  lemma AppendKeepsValid(s: Store, u: User)
    requires Valid(s)
    requires !Taken(s.users, ByUsername(u.username))
    requires !Taken(s.users, ByEmail(u.email))
    requires u.id == s.nextId && 1 <= u.id
    requires Fits(u)
    ensures Valid(Store(s.users + [u], s.nextId + 1))
  {
    var users := s.users + [u];
    var n := |s.users|;
    forall i, j | 0 <= i < j < |users|
      ensures users[i].username != users[j].username
      ensures users[i].email != users[j].email
      ensures users[i].id != users[j].id
    {
      if j == n {
        assert !Matches(s.users[i], ByUsername(u.username));
        assert !Matches(s.users[i], ByEmail(u.email));
      }
    }
  }

  /** A registration keeps usernames, emails and ids unique and every row within its bounds. */
  lemma RegisterPreservesValid(s: Store, d: RegisterData, env: Env)
    requires Valid(s)
    ensures Valid(Register(s, d, env).store)
  {
    var o := Register(s, d, env);
    if o.result.Success? {
      var u := o.store.users[|s.users|];
      assert o.store.users == s.users + [u];
      AppendKeepsValid(s, u);
    }
  }

  /** Replacing a user by one with the same account fields and a fitting salt keeps the store valid. */
  lemma ReplaceKeepsValid(s: Store, i: int, u: User)
    requires Valid(s)
    requires 0 <= i < |s.users|
    requires SameAccount(s.users[i], u)
    requires |u.salt| <= SaltMax
    ensures Valid(s.(users := s.users[i := u]))
  {
    var users := s.users[i := u];
    forall j | 0 <= j < |users|
      ensures users[j].username == s.users[j].username
      ensures users[j].email == s.users[j].email
      ensures users[j].id == s.users[j].id
      ensures Fits(users[j])
    {
      if j == i {
        assert Fits(s.users[i]);
      }
    }
  }

  /** A reset completion keeps the store valid. */
  lemma ResetCompletePreservesValid(s: Store, t: Token, d: RegisterData, env: Env)
    requires Valid(s)
    ensures Valid(PasswordResetComplete(s, t, d, env).store)
  {
    var o := PasswordResetComplete(s, t, d, env);
    if o.result.Success? {
      var i := Find(s.users, ByEmail(d.email)).value;
      ReplaceKeepsValid(s, i, o.store.users[i]);
      assert o.store == s.(users := s.users[i := o.store.users[i]]);
    }
  }

  /** Every request keeps the store valid: usernames, emails and ids stay unique, rows stay in bounds. */
  lemma HandlePreservesValid(s: Store, req: Request, env: Env)
    requires Valid(s)
    ensures Valid(Handle(s, req, env).store)
  {
    match req
    case RegisterRequest(d) => RegisterPreservesValid(s, d, env);
    case LoginRequest(_) =>
    case ResetRequest(_) =>
    case ConfirmRequest(_) =>
    case CompleteRequest(t, d) => ResetCompletePreservesValid(s, t, d, env);
  }

  /** Login, reset request and reset confirmation leave the store exactly as it was. */
  lemma ReadOnlyFlows(s: Store, req: Request, env: Env)
    requires req.LoginRequest? || req.ResetRequest? || req.ConfirmRequest?
    ensures Handle(s, req, env).store == s
  {
  }

  /**
   * No request removes, reorders or renames a user: every existing user keeps
   * its id, username, profile, active flag and creation time, and the store
   * only grows at its end, by fresh rows created now.
   */
  lemma HandleKeepsAccounts(s: Store, req: Request, env: Env)
    ensures var s' := Handle(s, req, env).store;
      && |s.users| <= |s'.users| <= |s.users| + 1
      && (forall i :: 0 <= i < |s.users| ==> SameAccount(s.users[i], s'.users[i]))
      && (forall i :: |s.users| <= i < |s'.users| ==>
            s'.users[i].createdAt == env.now && s'.users[i].isActive)
  {
  }

  /**
   * Login on a valid store, stated per user: the only way to a token is the
   * right password of an active user, and the token's subject is that
   * user's id.
   */
  lemma LoginOutcome(s: Store, d: LoginData, i: int)
    requires Valid(s)
    requires 0 <= i < |s.users| && s.users[i].username == d.username
    ensures var u := s.users[i];
      var r := Login(s, d).result;
      && (r.Success? <==> Verify(d.password, u.password, u.salt) && u.isActive)
      && (r == Failure(InvalidCredentials) <==> !Verify(d.password, u.password, u.salt))
      && (r == Failure(InactiveUser) <==> Verify(d.password, u.password, u.salt) && !u.isActive)
      && (r.Success? ==>
            r.value.tokenType == TokenType && Decode(r.value.accessToken) == Some(Claims(Some(u.id))))
  {
  }

  /**
   * An unknown username and a known username with a wrong password give the
   * same error with the same detail, so the reply does not reveal whether
   * the account exists.
   */
  lemma LoginHidesUnknownUsername(s1: Store, d1: LoginData, s2: Store, d2: LoginData, i: int)
    requires !Taken(s1.users, ByUsername(d1.username))
    requires Valid(s2)
    requires 0 <= i < |s2.users| && s2.users[i].username == d2.username
    requires !Verify(d2.password, s2.users[i].password, s2.users[i].salt)
    ensures Login(s1, d1).result == Login(s2, d2).result == Failure(InvalidCredentials)
    ensures Detail(Login(s1, d1).result.error) == "Incorrect username or password"
  {
  }

  /** An inactive user never gets a token: the right password gives the inactive error, a wrong one the credentials error. */
  lemma InactiveUserGetsNoToken(s: Store, d: LoginData, i: int)
    requires Valid(s)
    requires 0 <= i < |s.users| && s.users[i].username == d.username && !s.users[i].isActive
    ensures Login(s, d).result.Failure?
    ensures Login(s, d).result.error ==
      if Verify(d.password, s.users[i].password, s.users[i].salt) then InactiveUser else InvalidCredentials
  {
  }

  /** After a registration, logging in with the same username and password yields a token for the new user's id. */
  lemma RegisterThenLogin(s: Store, d: RegisterData, env: Env)
    requires Register(s, d, env).result.Success?
    ensures var s' := Register(s, d, env).store;
      var r := Login(s', LoginData(d.username, d.password)).result;
      && r.Success?
      && Decode(r.value.accessToken) == Some(Claims(Some(s.nextId)))
  {
  }

  /** Once an email is registered, every later registration with that email fails with the email error, whatever its other fields. */
  lemma RegisterEmailTwiceRejected(s: Store, d: RegisterData, env: Env, d2: RegisterData, env2: Env)
    requires Register(s, d, env).result.Success?
    requires d2.email == d.email
    ensures var s' := Register(s, d, env).store;
      Register(s', d2, env2) == Reject(s', DuplicateEmail)
  {
  }

  /** The reset mail's token passes confirmation on the store it was issued from. */
  lemma ResetRequestThenConfirm(s: Store, email: string)
    requires PasswordReset(s, email).result.Success?
    ensures var m := PasswordReset(s, email).mail;
      && m.Some?
      && m.value.to == email
      && PasswordResetConfirm(s, m.value.token).result == Success(Redirect(ResetPage))
  {
  }

  /** Reset completion never reads the token's claims: any two tokens that decode give the same outcome. */
  lemma ResetIgnoresTokenSubject(s: Store, t1: Token, t2: Token, d: RegisterData, env: Env)
    requires Decode(t1).Some? && Decode(t2).Some?
    ensures PasswordResetComplete(s, t1, d, env) == PasswordResetComplete(s, t2, d, env)
  {
  }

  /**
   * A reset token issued to one user resets the password of another: the
   * account changed is the one named by the submitted email, not the token's
   * subject.
   */
  lemma ForeignTokenResetsAccount(s: Store, a: int, b: int, d: RegisterData, env: Env)
    requires Valid(s)
    requires 0 <= a < |s.users| && 0 <= b < |s.users| && a != b
    requires d.email == s.users[b].email
    ensures var o := PasswordResetComplete(s, Issue(s.users[a].id), d, env);
      && o.result == Success(Message(ResetDoneText))
      && Verify(d.password, o.store.users[b].password, o.store.users[b].salt)
      && o.store.users[a] == s.users[a]
  {
  }

  /**
   * After a reset, the new password logs in (or meets the inactive check)
   * and any other password, the old one included, is refused.
   */
  lemma ResetThenLogin(s: Store, t: Token, d: RegisterData, env: Env, i: int, password: string)
    requires Valid(s)
    requires 0 <= i < |s.users| && s.users[i].email == d.email
    requires PasswordResetComplete(s, t, d, env).result.Success?
    ensures var s' := PasswordResetComplete(s, t, d, env).store;
      var r := Login(s', LoginData(s.users[i].username, password)).result;
      && (password == d.password && s.users[i].isActive ==> r.Success?)
      && (password == d.password && !s.users[i].isActive ==> r == Failure(InactiveUser))
      && (password != d.password ==> r == Failure(InvalidCredentials))
  {
  }

  /**
   * Reset tokens are not single-use: after a completed reset the same token
   * still passes confirmation and completes another reset.
   */
  lemma ResetTokenReusable(s: Store, t: Token, d: RegisterData, env: Env, env2: Env)
    requires Valid(s)
    requires PasswordResetConfirm(s, t).result.Success?
    requires PasswordResetComplete(s, t, d, env).result.Success?
    ensures var s' := PasswordResetComplete(s, t, d, env).store;
      && PasswordResetConfirm(s', t).result.Success?
      && PasswordResetComplete(s', t, d, env2).result.Success?
  {
  }

  /**
   * A session from the empty table: register one user, log in with the right
   * password, a wrong one and an unknown username, then request resets for
   * the registered email and an unknown one.
   */
  lemma SampleSession(env: Env)
    ensures var d := RegisterData("testuser", "Test User", "test@example.com", "1234567890", "password");
      var o := Register(EmptyStore, d, env);
      && o.result.Success?
      && o.result.value.user.id == 1
      && Login(o.store, LoginData("testuser", "password")).result.Success?
      && Login(o.store, LoginData("testuser", "incorrect")).result == Failure(InvalidCredentials)
      && Login(o.store, LoginData("nonexistent", "password")).result == Failure(InvalidCredentials)
      && PasswordReset(o.store, "test@example.com").result == Success(Message(ResetSentText))
      && PasswordReset(o.store, "nonexistent@example.com").result == Failure(EmailNotFound)
  {
  }
}

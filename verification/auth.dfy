/**
 * The authentication flows: registration, login, reset request, reset
 * confirmation and reset completion, each a pure transition from a store
 * and a request to a reply, the next store and any reset mail handed to
 * the mailer.
 */
module Auth {
  import opened Wrappers
  import opened Crypto
  import opened Models

  /** The body of a registration, also the body of a reset completion. */
  datatype RegisterData = RegisterData(
    username: string,
    fullName: string,
    email: string,
    phone: string,
    password: string)

  /** The body of a login. */
  datatype LoginData = LoginData(username: string, password: string)

  /** The failures a flow can end in. */
  datatype AuthError =
    | DuplicateEmail
    | DuplicateUsername
    | InvalidCredentials
    | InactiveUser
    | EmailNotFound
    | InvalidToken
    | UserNotFound
      /** a column bound rejected the row on save (the request fails with a server error) */
    | ValidationFailed
      /** a correctly signed token without a subject claim (the request fails with a server error) */
    | MissingSubject

  /** The client-facing detail of each failure. */
  function Detail(e: AuthError): string
  {
    match e
    case DuplicateEmail => "Email already registered"
    case DuplicateUsername => "Username already registered"
    case InvalidCredentials => "Incorrect username or password"
    case InactiveUser => "User is inactive"
    case EmailNotFound => "Email not found"
    case InvalidToken => "Invalid token"
    case UserNotFound => "User not found"
    case ValidationFailed => "Internal Server Error"
    case MissingSubject => "Internal Server Error"
  }

  const TokenType := "bearer"
  const ResetSentText := "Password reset email sent"
  const ResetDoneText := "Password reset successfully"
  const ResetPage := "/reset_password.html"

  /** What a successful flow answers. */
  datatype Reply =
    | Created(user: User)
    | Bearer(accessToken: Token, tokenType: string)
    | Message(text: string)
    | Redirect(url: string)

  /** A reset mail as handed to the mail sender: recipient and reset token. */
  datatype Mail = ResetMail(to: string, token: Token)

  /** The reply, the store after the flow, and the mail it sent, if any. */
  datatype Outcome = Outcome(result: Result<Reply, AuthError>, store: Store, mail: Option<Mail>)

  /** What a flow draws from outside: a fresh salt from the generator and a clock reading. */
  datatype Env = Env(salt: Salt, now: nat)

  /** A failed flow: the error, the store as it was, no mail. */
  function Reject(s: Store, e: AuthError): Outcome
  {
    Outcome(Failure(e), s, None)
  }

  /**
   * Registration. An existing email fails first, then an existing username;
   * otherwise one new active user is appended with the next id, the request's
   * profile, and the password hashed under the fresh salt. The row must fit
   * its columns, else the save fails.
   */
  function Register(s: Store, d: RegisterData, env: Env): (o: Outcome)
    ensures o.mail == None
    ensures o.result.Failure? ==> o.store == s
    ensures Taken(s.users, ByEmail(d.email)) ==> o.result == Failure(DuplicateEmail)
    ensures !Taken(s.users, ByEmail(d.email)) && Taken(s.users, ByUsername(d.username)) ==>
      o.result == Failure(DuplicateUsername)
    ensures
      && !Taken(s.users, ByEmail(d.email))
      && !Taken(s.users, ByUsername(d.username))
      && !(|d.username| <= UsernameMax && |d.fullName| <= FullNameMax
           && |d.email| <= EmailMax && |d.phone| <= PhoneMax)
      ==> o.result == Failure(ValidationFailed)
    ensures o.result.Success? <==>
      && !Taken(s.users, ByEmail(d.email))
      && !Taken(s.users, ByUsername(d.username))
      && |d.username| <= UsernameMax && |d.fullName| <= FullNameMax
      && |d.email| <= EmailMax && |d.phone| <= PhoneMax
    ensures o.result.Success? ==>
      && |o.store.users| == |s.users| + 1
      && o.store.users[..|s.users|] == s.users
      && o.store.nextId == s.nextId + 1
      && var u := o.store.users[|s.users|];
      && o.result == Success(Created(u))
      && u.id == s.nextId
      && u.username == d.username && u.fullName == d.fullName
      && u.email == d.email && u.phone == d.phone
      && Verify(d.password, u.password, u.salt) && u.salt == env.salt
      && u.isActive
      && u.createdAt == env.now && u.updatedAt == env.now
  {
    if Find(s.users, ByEmail(d.email)).Some? then Reject(s, DuplicateEmail)
    else if Find(s.users, ByUsername(d.username)).Some? then Reject(s, DuplicateUsername)
    else
      var u := User(s.nextId, d.username, d.fullName, d.email, d.phone,
                    Hash(d.password, env.salt), env.salt, true, env.now, env.now);
      if !Fits(u) then Reject(s, ValidationFailed)
      else Outcome(Success(Created(u)), Store(s.users + [u], s.nextId + 1), None)
  }

  /**
   * Login. An unknown username and a wrong password give the same error; the
   * active flag is consulted only once the password verifies; success issues
   * a bearer token for the user's id. The store is never touched.
   */
  function Login(s: Store, d: LoginData): (o: Outcome)
    ensures o.store == s && o.mail == None
    ensures !Taken(s.users, ByUsername(d.username)) ==> o.result == Failure(InvalidCredentials)
    ensures forall i | IsFirst(s.users, i, ByUsername(d.username)) ::
      var u := s.users[i];
      && (!Verify(d.password, u.password, u.salt) ==> o.result == Failure(InvalidCredentials))
      && (Verify(d.password, u.password, u.salt) && !u.isActive ==> o.result == Failure(InactiveUser))
      && (Verify(d.password, u.password, u.salt) && u.isActive ==>
            o.result == Success(Bearer(Issue(u.id), TokenType)))
  {
    match Find(s.users, ByUsername(d.username))
    case None => Reject(s, InvalidCredentials)
    case Some(i) =>
      var u := s.users[i];
      if !Verify(d.password, u.password, u.salt) then Reject(s, InvalidCredentials)
      else if !u.isActive then Reject(s, InactiveUser)
      else Outcome(Success(Bearer(Issue(u.id), TokenType)), s, None)
  }

  /**
   * Reset request. An unknown email fails; otherwise a reset token for the
   * user's id is mailed to the user's address. The store is never touched.
   */
  function PasswordReset(s: Store, email: string): (o: Outcome)
    ensures o.store == s
    ensures !Taken(s.users, ByEmail(email)) ==> o.result == Failure(EmailNotFound) && o.mail == None
    ensures forall i | IsFirst(s.users, i, ByEmail(email)) ::
      && o.result == Success(Message(ResetSentText))
      && o.mail == Some(ResetMail(s.users[i].email, Issue(s.users[i].id)))
  {
    match Find(s.users, ByEmail(email))
    case None => Reject(s, EmailNotFound)
    case Some(i) =>
      var u := s.users[i];
      Outcome(Success(Message(ResetSentText)), s, Some(ResetMail(u.email, Issue(u.id))))
  }

  /**
   * Reset confirmation. The token must decode, must carry a subject, and the
   * subject must name an existing user; the client is then sent to the reset
   * page. The store is never touched.
   */
  function PasswordResetConfirm(s: Store, t: Token): (o: Outcome)
    ensures o.store == s && o.mail == None
    ensures Decode(t).None? ==> o.result == Failure(InvalidToken)
    ensures Decode(t).Some? && Decode(t).value.sub.None? ==> o.result == Failure(MissingSubject)
    ensures Decode(t).Some? && Decode(t).value.sub.Some? ==>
      var id := Decode(t).value.sub.value;
      && (Taken(s.users, ById(id)) ==> o.result == Success(Redirect(ResetPage)))
      && (!Taken(s.users, ById(id)) ==> o.result == Failure(UserNotFound))
  {
    match Decode(t)
    case None => Reject(s, InvalidToken)
    case Some(claims) =>
      match claims.sub
      case None => Reject(s, MissingSubject)
      case Some(id) =>
        if Find(s.users, ById(id)).None? then Reject(s, UserNotFound)
        else Outcome(Success(Redirect(ResetPage)), s, None)
  }

  /**
   * Reset completion. The token must decode, but its claims are never read:
   * the user is the one holding the submitted email. Only that user's digest,
   * salt and update time change; the save re-checks the row's column bounds.
   */
  function PasswordResetComplete(s: Store, t: Token, d: RegisterData, env: Env): (o: Outcome)
    ensures o.mail == None
    ensures o.result.Failure? ==> o.store == s
    ensures Decode(t).None? ==> o.result == Failure(InvalidToken)
    ensures Decode(t).Some? && !Taken(s.users, ByEmail(d.email)) ==> o.result == Failure(EmailNotFound)
    ensures forall i | IsFirst(s.users, i, ByEmail(d.email)) :: Decode(t).Some? ==>
      && (!ProfileFits(s.users[i]) ==> o.result == Failure(ValidationFailed))
      && (ProfileFits(s.users[i]) ==>
            && o.result == Success(Message(ResetDoneText))
            && o.store.nextId == s.nextId
            && |o.store.users| == |s.users|
            && (forall j :: 0 <= j < |s.users| && j != i ==> o.store.users[j] == s.users[j])
            && SameAccount(s.users[i], o.store.users[i])
            && Verify(d.password, o.store.users[i].password, o.store.users[i].salt)
            && o.store.users[i].salt == env.salt
            && o.store.users[i].updatedAt == env.now)
  {
    if Decode(t).None? then Reject(s, InvalidToken)
    else
      match Find(s.users, ByEmail(d.email))
      case None => Reject(s, EmailNotFound)
      case Some(i) =>
        var u := s.users[i].(password := Hash(d.password, env.salt), salt := env.salt, updatedAt := env.now);
        if !Fits(u) then Reject(s, ValidationFailed)
        else Outcome(Success(Message(ResetDoneText)), s.(users := s.users[i := u]), None)
  }

  /** A request to one of the five endpoints. */
  datatype Request =
    | RegisterRequest(data: RegisterData)
    | LoginRequest(login: LoginData)
    | ResetRequest(email: string)
    | ConfirmRequest(token: Token)
    | CompleteRequest(resetToken: Token, form: RegisterData)

  /** Routes a request to its flow. */
  function Handle(s: Store, req: Request, env: Env): (o: Outcome)
  {
    match req
    case RegisterRequest(d) => Register(s, d, env)
    case LoginRequest(d) => Login(s, d)
    case ResetRequest(e) => PasswordReset(s, e)
    case ConfirmRequest(t) => PasswordResetConfirm(s, t)
    case CompleteRequest(t, d) => PasswordResetComplete(s, t, d, env)
  }
}

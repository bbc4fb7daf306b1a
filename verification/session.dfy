/**
 The `/auth/login` handler: look the lowercased username up, compare the
 password with the stored hash, and on success sign a one-hour token for the
 stored identity. It only reads the table.
 */
module Session {
  import opened Casing
  import opened Credentials
  import opened AccountStore
  import opened Jwt
  import opened Http

  /** A present password that verifies against the row stored under `key`. */
  predicate Authenticates(s: Store, h: Hasher, key: string, password: Field) {
    key in s.accounts && password.Given? && h.verify(password.text, s.accounts[key].passwordHash)
  }

  /** The token issued for `a` at `nowMillis`. */
  function TokenFor(a: Account, nowMillis: int): (t: Token)
    ensures t.user == Claims(a.id, a.username, RoleName(a.role))
    ensures t.exp == t.iat + 3600 && t.iat * 1000 <= nowMillis < t.iat * 1000 + 1000
  {
    Sign(Claims(a.id, a.username, RoleName(a.role)), nowMillis)
  }

  /** The handler as written. A missing username makes `toLowerCase` throw
      before any query; a missing password makes bcrypt's compare reject once a
      row was found. Both surface as the generic 500. */
  function Login(s: Store, h: Hasher, ctx: Context, username: Field, password: Field): (out: Outcome)
    requires Valid(s)
    ensures out.store == s
    ensures forall e :: e in out.effects ==> e.SelectRow? || e.ComparePassword?
    ensures out.response.Status() in {200, 401, 500}
    ensures username.Missing? ==> out.response == InternalError && out.effects == []
    ensures out.response.LoggedIn? <==>
              && username.Given? && ctx.backend == Available
              && Authenticates(s, h, ToLower(username.text), password)
    ensures out.response.LoggedIn? ==>
              var a := s.accounts[ToLower(username.text)];
              && out.response.message == LoginOkMessage
              && out.response.token == TokenFor(a, ctx.nowMillis)
              && out.response.token.user.username == ToLower(username.text)
    ensures out.response.Unauthorized? <==>
              && username.Given? && ctx.backend == Available
              && var key := ToLower(username.text);
                 key !in s.accounts || (password.Given? && !h.verify(password.text, s.accounts[key].passwordHash))
    ensures out.response.Unauthorized? ==> out.response == Unauthorized(InvalidCredentialsMessage)
    ensures out.response.ServerError? ==> out.response == InternalError
  {
    match username
    case Missing => Outcome(s, InternalError, [])
    case Given(name) =>
      var key := ToLower(name);
      match ctx.backend
      case Failing => Outcome(s, InternalError, [SelectRow(key)])
      case Available =>
        match Find(s, key)
        case NotFound =>
          Outcome(s, Unauthorized(InvalidCredentialsMessage), [SelectRow(key)])
        case Found(a) =>
          var effects := [SelectRow(key), ComparePassword];
          match password
          case Missing => Outcome(s, InternalError, effects)
          case Given(p) =>
            if !h.verify(p, a.passwordHash) then
              Outcome(s, Unauthorized(InvalidCredentialsMessage), effects)
            else
              Outcome(s, LoggedIn(LoginOkMessage, TokenFor(a, ctx.nowMillis)), effects)
  }

  /** For a present password the two ways to fail, an unknown username and a
      wrong password, give one and the same response. */
  lemma FailuresLookAlike(s: Store, h: Hasher, ctx: Context, unknown: string, known: string, wrong: string)
    requires Valid(s)
    requires ctx.backend == Available
    requires ToLower(unknown) !in s.accounts
    requires ToLower(known) in s.accounts && !h.verify(wrong, s.accounts[ToLower(known)].passwordHash)
    ensures Login(s, h, ctx, Given(unknown), Given(wrong)).response ==
            Login(s, h, ctx, Given(known), Given(wrong)).response
  {
  }

  /** As written, a login without a password tells a registered username from
      an unregistered one: 500 for the first, 401 for the second. */
  lemma MissingPasswordRevealsAccount(s: Store, h: Hasher, ctx: Context, name: string)
    requires Valid(s)
    requires ctx.backend == Available
    ensures Login(s, h, ctx, Given(name), Missing).response.Status() ==
            (if ToLower(name) in s.accounts then 500 else 401)
  {
  }

  /** The handler with the password's absence treated as a credential that
      does not verify, so that it cannot reveal whether the username exists. */
  function LoginUniform(s: Store, h: Hasher, ctx: Context, username: Field, password: Field): (out: Outcome)
    requires Valid(s)
    ensures out.store == s
    ensures forall e :: e in out.effects ==> e.SelectRow? || e.ComparePassword?
    ensures out.response.Status() in {200, 401, 500}
    ensures out.response.LoggedIn? <==>
              && username.Given? && ctx.backend == Available
              && Authenticates(s, h, ToLower(username.text), password)
    ensures out.response.LoggedIn? ==>
              out.response == LoggedIn(LoginOkMessage, TokenFor(s.accounts[ToLower(username.text)], ctx.nowMillis))
    // Every refusal of a named user by a working database is the one 401.
    ensures username.Given? && ctx.backend == Available && !out.response.LoggedIn? ==>
              out.response == Unauthorized(InvalidCredentialsMessage)
    ensures out.response.ServerError? <==> username.Missing? || ctx.backend == Failing
  {
    match password
    case Missing =>
      var out := Login(s, h, ctx, username, password);
      if out.response.ServerError? && username.Given? && ctx.backend == Available then
        Outcome(s, Unauthorized(InvalidCredentialsMessage), out.effects)
      else out
    case Given(_) => Login(s, h, ctx, username, password)
  }

  /** The corrected handler never lets the response depend on whether the
      username is registered unless the password verifies. */
  lemma UniformHidesRegistration(s: Store, t: Store, h: Hasher, ctx: Context, username: Field, password: Field)
    requires Valid(s) && Valid(t)
    requires username.Given? && ctx.backend == Available
    requires !Authenticates(s, h, ToLower(username.text), password)
    requires !Authenticates(t, h, ToLower(username.text), password)
    ensures LoginUniform(s, h, ctx, username, password).response ==
            LoginUniform(t, h, ctx, username, password).response
  {
  }
}

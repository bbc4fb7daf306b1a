/**
 The `/auth/register` and `/auth/register-admin` handlers. Both validate the
 body, hash the password, lowercase the username and insert a row; they differ
 only in the role they write, which the caller cannot choose.
 */
module AccountService {
  import opened Casing
  import Utf16
  import opened Credentials
  import opened AccountStore
  import opened Http

  /** Fewest UTF-16 code units a password may have. */
  const MinPasswordLength: nat := 6

  /** The handlers' guard: a non-empty username and a non-empty password of
      at least six code units. */
  predicate AcceptsInput(username: Field, password: Field) {
    && username.Given? && username.text != []
    && password.Given? && password.text != []
    && Utf16.Length(password.text) >= MinPasswordLength
  }

  /** The guard in terms of characters: six characters always suffice, fewer
      than three never do; for passwords inside the Basic Multilingual Plane
      the bound is exactly six characters, and for passwords made only of
      characters outside it exactly three. */
  lemma AcceptsInputByCharacters(username: string, password: string)
    requires username != []
    ensures |password| >= 6 ==> AcceptsInput(Given(username), Given(password))
    ensures |password| < 3 ==> !AcceptsInput(Given(username), Given(password))
    ensures (forall i :: 0 <= i < |password| ==> Utf16.InBasicPlane(password[i])) ==>
              (AcceptsInput(Given(username), Given(password)) <==> |password| >= 6)
    ensures (forall i :: 0 <= i < |password| ==> !Utf16.InBasicPlane(password[i])) ==>
              (AcceptsInput(Given(username), Given(password)) <==> |password| >= 3)
  {
  }

  /** A password of three emoji (U+1F600) has JavaScript length six and passes
      the guard, and one of five BMP letters does not. */
  lemma AcceptsThreeAstralCharacters()
    ensures AcceptsInput(Given("a"), Given("\U{1F600}\U{1F600}\U{1F600}"))
    ensures !AcceptsInput(Given("a"), Given("abcde"))
  {
  }

  /** The body shared by both handlers, for the role the route fixes. */
  function RegisterAs(role: Role, s: Store, h: Hasher, ctx: Context, username: Field, password: Field): (out: Outcome)
    requires Valid(s)
    ensures Valid(out.store)
    ensures Extends(out.store, s)
    // Validation comes first: a rejected body touches neither bcrypt nor the table.
    ensures !AcceptsInput(username, password) <==> out.response.Status() == 400
    ensures !AcceptsInput(username, password) ==>
              out == Outcome(s, BadRequest(InvalidInputMessage), [])
    ensures AcceptsInput(username, password) ==>
              var key := ToLower(username.text);
              && out.effects == [HashPassword(password.text), InsertRow(key)]
              && out.response.Status() in {201, 409, 500}
              && (out.response.Status() == 500 <==> ctx.backend == Failing)
              && (out.response.Status() == 409 <==> ctx.backend == Available && key in s.accounts)
    ensures out.response.Status() != 201 ==> out.store == s
    ensures out.response.Created? ==>
              var key := ToLower(username.text);
              && key !in s.accounts
              && out.response.username == key
              && out.store.accounts ==
                   s.accounts[key := Account(out.response.id, key, h.hash(password.text, ctx.salt), role)]
    ensures out.response.Conflict? ==> out.response == Conflict(DuplicateMessage)
    ensures out.response.ServerError? ==> out.response == InternalError
  {
    if !AcceptsInput(username, password) then
      Outcome(s, BadRequest(InvalidInputMessage), [])
    else
      var hashed := h.hash(password.text, ctx.salt);
      var key := ToLower(username.text);
      var effects := [HashPassword(password.text), InsertRow(key)];
      match ctx.backend
      case Failing => Outcome(s, InternalError, effects)
      case Available =>
        var (s', inserted) := Insert(s, key, hashed, role);
        match inserted
        case Duplicate => Outcome(s, Conflict(DuplicateMessage), effects)
        case Inserted(a) => Outcome(s', Created(a.id, a.username), effects)
  }

  /** The row a successful registration stores holds a hash of the password,
      not the password, and the password verifies against it. */
  lemma StoredHashVerifies(role: Role, s: Store, h: Hasher, ctx: Context, username: Field, password: Field)
    requires Valid(s) && Sound(h)
    requires RegisterAs(role, s, h, ctx, username, password).response.Created?
    ensures
      var out := RegisterAs(role, s, h, ctx, username, password);
      var row := out.store.accounts[out.response.username];
      && row.passwordHash == h.hash(password.text, ctx.salt)
      && h.verify(password.text, row.passwordHash)
  {
    assert h.verify(password.text, h.hash(password.text, ctx.salt));
  }

  /** `t` is `s` plus at most one row: the one a 201 names, stored under the
      lowercased non-empty username with role `role`. */
  predicate AddsAtMostNamedRow(s: Store, t: Store, username: Field, response: Response, role: Role) {
    && Extends(t, s)
    && |t.accounts| == |s.accounts| + (if response.Created? then 1 else 0)
    && forall k :: k in t.accounts && k !in s.accounts ==>
         && username.Given? && username.text != [] && k == ToLower(username.text)
         && response == Created(t.accounts[k].id, k)
         && t.accounts[k].role == role
  }

  /** `POST /auth/register`: every account it creates has role `user`. */
  function Register(s: Store, h: Hasher, ctx: Context, username: Field, password: Field): (out: Outcome)
    requires Valid(s)
    ensures Valid(out.store)
    ensures AddsAtMostNamedRow(s, out.store, username, out.response, User)
    ensures out.response.Status() in {201, 400, 409, 500}
    ensures out.response.Status() == 400 ==> out.store == s && out.effects == []
  {
    RegisterAs(User, s, h, ctx, username, password)
  }

  /** `POST /auth/register-admin`: the same handler writing role `admin`. No
      check on the caller gates it. */
  function RegisterAdmin(s: Store, h: Hasher, ctx: Context, username: Field, password: Field): (out: Outcome)
    requires Valid(s)
    ensures Valid(out.store)
    ensures AddsAtMostNamedRow(s, out.store, username, out.response, Admin)
    ensures out.response.Status() in {201, 400, 409, 500}
    ensures out.response.Status() == 400 ==> out.store == s && out.effects == []
  {
    RegisterAs(Admin, s, h, ctx, username, password)
  }

  /** The two routes answer alike and store alike, except for the role of the
      account they create. */
  lemma AdminRouteDiffersOnlyInRole(s: Store, h: Hasher, ctx: Context, username: Field, password: Field)
    requires Valid(s)
    ensures Register(s, h, ctx, username, password).response ==
            RegisterAdmin(s, h, ctx, username, password).response
    ensures Register(s, h, ctx, username, password).effects ==
            RegisterAdmin(s, h, ctx, username, password).effects
    ensures Register(s, h, ctx, username, password).store.accounts.Keys ==
            RegisterAdmin(s, h, ctx, username, password).store.accounts.Keys
    ensures forall k :: k in s.accounts ==>
              Register(s, h, ctx, username, password).store.accounts[k] ==
              RegisterAdmin(s, h, ctx, username, password).store.accounts[k]
    ensures
      var a := Register(s, h, ctx, username, password).store.accounts;
      var b := RegisterAdmin(s, h, ctx, username, password).store.accounts;
      forall k :: k in a ==> b[k] == (if k in s.accounts then a[k] else a[k].(role := Admin))
  {
  }
}

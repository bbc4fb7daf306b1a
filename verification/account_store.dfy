/**
 The `users` table: rows keyed by username under a uniqueness constraint,
 each with a store-assigned id. Inserting a username that is already present
 fails as a whole; nothing is ever updated or deleted.
 */
module AccountStore {

  datatype Role = User | Admin

  /** The text stored in the `role` column. */
  function RoleName(r: Role): (name: string)
    ensures name == "user" || name == "admin"
    ensures r == Admin <==> name == "admin"
  {
    match r
    case User => "user"
    case Admin => "admin"
  }

  datatype Account = Account(id: nat, username: string, passwordHash: string, role: Role)

  /** The table, and the next value of its id sequence. */
  datatype Store = Store(accounts: map<string, Account>, nextId: nat)

  /** A fresh table: no rows, ids start at 1. */
  const Empty: Store := Store(map[], 1)

  /** Each row sits under its own username; ids are positive, distinct and
      below the sequence's next value. */
  predicate Valid(s: Store) {
    && 0 < s.nextId
    && (forall k :: k in s.accounts ==>
          s.accounts[k].username == k && 0 < s.accounts[k].id < s.nextId)
    && (forall k1, k2 :: k1 in s.accounts && k2 in s.accounts && k1 != k2 ==>
          s.accounts[k1].id != s.accounts[k2].id)
  }

  /** `s` holds every row of `t`, unchanged. */
  predicate Extends(s: Store, t: Store) {
    forall k :: k in t.accounts ==> k in s.accounts && s.accounts[k] == t.accounts[k]
  }

  datatype InsertResult = Inserted(account: Account) | Duplicate

  /** Atomic insert-if-absent: a username already present is a uniqueness
      violation and leaves the table as it was. */
  function Insert(s: Store, username: string, passwordHash: string, role: Role): (out: (Store, InsertResult))
    requires Valid(s)
    ensures Valid(out.0)
    ensures username in s.accounts <==> out.1.Duplicate?
    ensures out.1.Duplicate? ==> out.0 == s
    ensures out.1.Inserted? ==>
      var a := out.1.account;
      && a.username == username && a.passwordHash == passwordHash && a.role == role
      && (forall k :: k in s.accounts ==> s.accounts[k].id != a.id)
      && out.0.accounts == s.accounts[username := a]
      && |out.0.accounts| == |s.accounts| + 1
  {
    if username in s.accounts then (s, Duplicate)
    else
      var a := Account(s.nextId, username, passwordHash, role);
      var t := Store(s.accounts[username := a], s.nextId + 1);
      (t, Inserted(a))
  }

  datatype Lookup = Found(account: Account) | NotFound

  /** `SELECT * FROM users WHERE username = $1`: the first (only) row, if any. */
  function Find(s: Store, username: string): (r: Lookup)
    requires Valid(s)
    ensures r.NotFound? <==> username !in s.accounts
    ensures r.Found? ==> r.account.username == username && r.account == s.accounts[username]
  {
    if username in s.accounts then Found(s.accounts[username]) else NotFound
  }

  /** An insert extends the table and leaves every other username's lookup as
      it was. */
  lemma InsertKeepsOtherRows(s: Store, username: string, passwordHash: string, role: Role, other: string)
    requires Valid(s)
    requires other != username
    ensures Extends(Insert(s, username, passwordHash, role).0, s)
    ensures Find(Insert(s, username, passwordHash, role).0, other) == Find(s, other)
  {
  }
}

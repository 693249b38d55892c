/**
 * The user record and the in-memory user store the flows read and write.
 * Timestamps are readings of a logical clock; ids come from an
 * auto-increment counter that starts at 1.
 */
module Models {
  import opened Wrappers
  import opened Crypto

  /** Column length bounds of the user table. */
  const UsernameMax := 50
  const FullNameMax := 100
  const EmailMax := 100
  const PhoneMax := 15
  const SaltMax := 32

  /** One registered user. */
  datatype User = User(
    id: nat,
    username: string,
    fullName: string,
    email: string,
    phone: string,
    password: Digest,
    salt: string,
    isActive: bool,
    createdAt: nat,
    updatedAt: nat)

  /** The descriptive and key fields fit their columns. */
  predicate ProfileFits(u: User)
  {
    && |u.username| <= UsernameMax
    && |u.fullName| <= FullNameMax
    && |u.email| <= EmailMax
    && |u.phone| <= PhoneMax
  }

  /** Every bounded string column of `u` fits: what the ORM checks on each save. */
  predicate Fits(u: User)
  {
    ProfileFits(u) && |u.salt| <= SaltMax
  }

  /** The fields no flow may change once a user exists. */
  predicate SameAccount(a: User, b: User)
  {
    && a.id == b.id
    && a.username == b.username
    && a.fullName == b.fullName
    && a.email == b.email
    && a.phone == b.phone
    && a.isActive == b.isActive
    && a.createdAt == b.createdAt
  }

  /** The user table, in insertion order, and the next id to hand out. */
  datatype Store = Store(users: seq<User>, nextId: nat)

  /** The table before anything is registered. */
  const EmptyStore := Store([], 1)

  /** The column a lookup filters on, with the value it looks for. */
  datatype Key = ByEmail(email: string) | ByUsername(username: string) | ById(id: nat)

  predicate Matches(u: User, k: Key)
  {
    match k
    case ByEmail(e) => u.email == e
    case ByUsername(n) => u.username == n
    case ById(id) => u.id == id
  }

  /** Some user matches `k`. */
  predicate Taken(users: seq<User>, k: Key)
  {
    exists i :: 0 <= i < |users| && Matches(users[i], k)
  }

  /** `i` is the earliest user matching `k`. */
  predicate IsFirst(users: seq<User>, i: int, k: Key)
  {
    && 0 <= i < |users|
    && Matches(users[i], k)
    && forall j :: 0 <= j < i ==> !Matches(users[j], k)
  }

  /** The earliest match for `k` at or after `from`, given none comes before it. */
  function FindFrom(users: seq<User>, k: Key, from: nat): (r: Option<nat>)
    requires from <= |users|
    requires forall j :: 0 <= j < from ==> !Matches(users[j], k)
    ensures r.Some? ==> IsFirst(users, r.value, k)
    ensures r.None? <==> !Taken(users, k)
    decreases |users| - from
  {
    if from == |users| then None
    else if Matches(users[from], k) then Some(from)
    else FindFrom(users, k, from + 1)
  }

  /**
   * A filtered lookup returning the first row: the earliest matching user,
   * or nothing exactly when no user matches.
   */
  function Find(users: seq<User>, k: Key): (r: Option<nat>)
    ensures r.Some? ==> IsFirst(users, r.value, k)
    ensures r.None? <==> !Taken(users, k)
  {
    FindFrom(users, k, 0)
  }

  /** No two users share a username. */
  predicate UniqueUsernames(users: seq<User>)
  {
    forall i, j :: 0 <= i < j < |users| ==> users[i].username != users[j].username
  }

  /** No two users share an email. */
  predicate UniqueEmails(users: seq<User>)
  {
    forall i, j :: 0 <= i < j < |users| ==> users[i].email != users[j].email
  }

  /** No two users share an id, and every id lies below the counter. */
  predicate IdsIssued(s: Store)
  {
    && 1 <= s.nextId
    && (forall i, j :: 0 <= i < j < |s.users| ==> s.users[i].id != s.users[j].id)
    && forall i :: 0 <= i < |s.users| ==> 1 <= s.users[i].id < s.nextId
  }

  /** The store invariant: unique usernames, emails and ids, and every row fits its columns. */
  predicate Valid(s: Store)
  {
    && UniqueUsernames(s.users)
    && UniqueEmails(s.users)
    && IdsIssued(s)
    && forall i :: 0 <= i < |s.users| ==> Fits(s.users[i])
  }

  /** In a valid store, a user holding the key's username, email or id is the first and only match. */
  lemma UniqueMatchIsFirst(s: Store, i: int, k: Key)
    requires Valid(s)
    requires 0 <= i < |s.users| && Matches(s.users[i], k)
    ensures IsFirst(s.users, i, k)
    ensures forall j :: 0 <= j < |s.users| && Matches(s.users[j], k) ==> j == i
  {
  }
}

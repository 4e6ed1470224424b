/** The user collection as the controllers query it: `findOne` with one of
    four filters returns the first match in natural (insertion) order. The
    schema declares no unique index, so email uniqueness is an invariant that
    only the registration pre-check maintains, and usernames may repeat. */
module UserStore {
  import opened Base
  import opened Collaborators
  import opened UserModel

  /** The filters the controllers pass to `findOne` / `findById`. */
  datatype Query =
    | ByEmail(email: string)
    | ByUsername(username: string)
    | ById(id: nat)
    | ByEmailOrUsername(key: string)   // `{ $or: [{ email: key }, { username: key }] }`

  predicate Matches(u: User, q: Query)
  {
    match q
    case ByEmail(e) => u.email == e
    case ByUsername(n) => u.username == n
    case ById(id) => u.id == id
    case ByEmailOrUsername(k) => u.email == k || u.username == k
  }

  /** `findOne(q)`: the index of the first user matching `q`. */
  function FindUser(users: seq<User>, q: Query): (r: Option<nat>)
    ensures r.Some? ==> r.value < |users| && Matches(users[r.value], q)
    ensures r.Some? ==> forall j :: 0 <= j < r.value ==> !Matches(users[j], q)
    ensures r.None? <==> forall j :: 0 <= j < |users| ==> !Matches(users[j], q)
  {
    FirstIndex(users, (u: User) => Matches(u, q))
  }

  predicate EmailTaken(users: seq<User>, email: string)
  {
    exists i :: 0 <= i < |users| && users[i].email == email
  }

  /** Every stored user passed validation and has an identifier below the
      next one to be issued; identifiers and emails are pairwise distinct. */
  predicate UsersValid(users: seq<User>, nextId: nat)
  {
    && (forall i :: 0 <= i < |users| ==> users[i].id < nextId && SatisfiesSchema(users[i]))
    && (forall i, j :: 0 <= i < j < |users| ==> users[i].id != users[j].id && users[i].email != users[j].email)
  }

  /** The identifiers of the users whose status is active. */
  function ActiveIds(users: seq<User>): set<nat>
  {
    set i | 0 <= i < |users| && users[i].status == Active :: users[i].id
  }

  /** In a valid store a user is found by its email and by its identifier. */
  lemma FindInValidStore(users: seq<User>, nextId: nat, i: nat)
    requires UsersValid(users, nextId) && i < |users|
    ensures FindUser(users, ByEmail(users[i].email)) == Some(i)
    ensures FindUser(users, ById(users[i].id)) == Some(i)
  {
  }

  /** Two stores that agree, position by position, on which users match a
      query give the same answer to it. */
  lemma FindUserSameKeys(a: seq<User>, b: seq<User>, q: Query)
    requires |a| == |b|
    requires forall j :: 0 <= j < |a| ==> (Matches(a[j], q) <==> Matches(b[j], q))
    ensures FindUser(a, q) == FindUser(b, q)
  {
  }

  /** Appending a fresh user with a new email and the next identifier keeps the store valid. */
  lemma AppendKeepsValid(users: seq<User>, nextId: nat, u: User)
    requires UsersValid(users, nextId)
    requires u.id == nextId && SatisfiesSchema(u) && !EmailTaken(users, u.email)
    ensures UsersValid(users + [u], nextId + 1)
  {
    var t := users + [u];
    forall i, j | 0 <= i < j < |t|
      ensures t[i].id != t[j].id && t[i].email != t[j].email
    {
      if j == |users| {
        assert t[i] == users[i];
      }
    }
  }

  /** Rewriting one user without touching its identifier, email or username keeps the store valid. */
  lemma UpdateKeepsValid(users: seq<User>, nextId: nat, i: nat, u: User)
    requires UsersValid(users, nextId) && i < |users|
    requires u.id == users[i].id && u.email == users[i].email && u.username == users[i].username
    ensures UsersValid(users[i := u], nextId)
  {
  }

  /** Removing one user keeps the store valid. */
  lemma RemoveKeepsValid(users: seq<User>, nextId: nat, i: nat)
    requires UsersValid(users, nextId) && i < |users|
    ensures UsersValid(users[..i] + users[i + 1..], nextId)
  {
    var t := users[..i] + users[i + 1..];
    assert forall k :: 0 <= k < |t| ==> t[k] == users[if k < i then k else k + 1];
  }

  /** Removing one user keeps every other user. */
  lemma RemoveKeepsOthers(users: seq<User>, i: nat)
    requires i < |users|
    ensures forall j :: 0 <= j < |users| && j != i ==> users[j] in users[..i] + users[i + 1..]
  {
    var t := users[..i] + users[i + 1..];
    forall j | 0 <= j < |users| && j != i
      ensures users[j] in t
    {
      if j < i {
        assert t[j] == users[j];
      } else {
        assert t[j - 1] == users[j];
      }
    }
  }

  /** In a valid store, the removed user's identifier is no longer found. */
  lemma RemovedIdGone(users: seq<User>, nextId: nat, i: nat)
    requires UsersValid(users, nextId) && i < |users|
    ensures FindUser(users[..i] + users[i + 1..], ById(users[i].id)).None?
  {
    var t := users[..i] + users[i + 1..];
    forall k | 0 <= k < |t|
      ensures !Matches(t[k], ById(users[i].id))
    {
      var j := if k < i then k else k + 1;
      assert t[k] == users[j];
    }
  }

  /** A pending newcomer adds no active identifier. */
  lemma ActiveIdsAppendPending(users: seq<User>, u: User)
    requires u.status == Pending
    ensures ActiveIds(users + [u]) == ActiveIds(users)
  {
    var t := users + [u];
    assert forall k :: 0 <= k < |users| ==> t[k] == users[k];
  }

  /** Rewriting one user while keeping its identifier and status keeps the active identifiers. */
  lemma ActiveIdsUpdateSameStatus(users: seq<User>, i: nat, u: User)
    requires i < |users| && u.id == users[i].id && u.status == users[i].status
    ensures ActiveIds(users[i := u]) == ActiveIds(users)
  {
    var t := users[i := u];
    assert forall k :: 0 <= k < |users| ==> t[k].id == users[k].id && t[k].status == users[k].status;
  }

  /** Activating one user adds exactly its identifier to the active ones. */
  lemma ActiveIdsActivate(users: seq<User>, i: nat)
    requires i < |users|
    ensures ActiveIds(users[i := users[i].(status := Active)]) == ActiveIds(users) + {users[i].id}
  {
    var t := users[i := users[i].(status := Active)];
    assert forall k :: 0 <= k < |users| && k != i ==> t[k] == users[k];
    assert t[i].id == users[i].id && t[i].status == Active;
  }

  /** Removing a user can only shrink the active identifiers. */
  lemma ActiveIdsRemove(users: seq<User>, i: nat)
    requires i < |users|
    ensures ActiveIds(users[..i] + users[i + 1..]) <= ActiveIds(users)
  {
    var t := users[..i] + users[i + 1..];
    assert forall k :: 0 <= k < |t| ==> t[k] == users[if k < i then k else k + 1];
  }
}

/** The handlers of controllers/adminController.js: admin registration and
    login over the admin store, and three admin operations over the user
    store.

    The module binds only `bcrypt`, `jwt` and `Admin` (adminController.js:1-3)
    but the three user operations name `User` (lines 71, 82, 97). Evaluating
    that name throws inside each handler's `try`, so as written every one of
    them answers 500 and touches nothing. The `...AsWritten` functions model
    that; `GetAllUsers`, `GetUserByUsername` and `DeleteUserByUsername` model
    the evidently intended handlers, with `User` bound to the user model. */
module AdminController {
  import opened Base
  import opened Collaborators
  import opened UserModel
  import opened UserStore
  import opened AdminModel
  import opened Database

  /** Admin tokens are signed with `{ expiresIn: '1h' }`. */
  const AdminTokenTtl: ExpiresIn := Hours(1)

  // --------------------------------------------------------- registerAdmin

  datatype AdminRegisterOutcome =
    | AdminExists        // 400 "Admin already exists"
    | AdminServerError   // 500: the save failed
    | AdminRegistered    // 201 "Admin registered successfully"

  /** Register an admin: refuse a taken email, otherwise store the admin with
      the hashed password. There is no code and no status: the admin can log
      in at once. `saveOk` is the outcome of the save. */
  method RegisterAdmin(db: Db, email: string, username: string, password: string, saveOk: bool)
    returns (outcome: AdminRegisterOutcome)
    requires db.Valid()
    modifies db
    ensures db.Valid()
    ensures db.users == old(db.users) && db.otps == old(db.otps)
    ensures outcome == AdminExists <==> FindAdmin(old(db.admins), email).Some?
    ensures outcome == AdminServerError <==> FindAdmin(old(db.admins), email).None? && !saveOk
    ensures outcome == AdminRegistered ==>
      && db.admins == old(db.admins) + [Admin(old(db.nextId), email, username, Hash(password))]
      && db.nextId == old(db.nextId) + 1
    ensures outcome != AdminRegistered ==> db.admins == old(db.admins) && db.nextId == old(db.nextId)
  {
    if FindAdmin(db.admins, email).Some? {
      return AdminExists;
    }
    var hashed := Hash(password);
    if !saveOk {
      return AdminServerError;
    }
    var admin := Admin(db.nextId, email, username, hashed);
    AdminAppendKeepsValid(db.admins, db.nextId, admin);
    UsersValidLater(db.users, db.nextId);
    db.admins := db.admins + [admin];
    db.nextId := db.nextId + 1;
    return AdminRegistered;
  }

  lemma AdminAppendKeepsValid(admins: seq<Admin>, nextId: nat, a: Admin)
    requires AdminsValid(admins, nextId) && a.id == nextId && FindAdmin(admins, a.email).None?
    ensures AdminsValid(admins + [a], nextId + 1)
  {
    var t := admins + [a];
    forall i, j | 0 <= i < j < |t|
      ensures t[i].id != t[j].id && t[i].email != t[j].email
    {
      if j == |admins| {
        assert t[i] == admins[i];
      }
    }
  }

  lemma UsersValidLater(users: seq<User>, nextId: nat)
    requires UsersValid(users, nextId)
    ensures UsersValid(users, nextId + 1)
  {
  }

  // ------------------------------------------------------------ loginAdmin

  datatype AdminLoginOutcome =
    | AdminInvalidCredentials     // 400 "Invalid credentials"
    | AdminLoggedIn(token: Token)

  /** Log an admin in by email only, check the password, sign a token. There is
      no status check. */
  function LoginAdmin(admins: seq<Admin>, email: string, password: string, nowMs: int): (r: AdminLoginOutcome)
    ensures var k := FindAdmin(admins, email);
      && (r == AdminInvalidCredentials <==> k.None? || !Compare(password, admins[k.value].password))
      && (r.AdminLoggedIn? ==>
            r.token == Sign(AdminClaims(admins[k.value].id, admins[k.value].email), AdminTokenTtl, nowMs))
  {
    match FindAdmin(admins, email)
    case None => AdminInvalidCredentials
    case Some(i) =>
      var admin := admins[i];
      if !Compare(password, admin.password) then AdminInvalidCredentials
      else AdminLoggedIn(Sign(AdminClaims(admin.id, admin.email), AdminTokenTtl, nowMs))
  }

  /** A username never logs an admin in: only the email is looked up. */
  lemma AdminUsernameNeverResolves(admins: seq<Admin>, key: string, password: string, nowMs: int)
    requires forall j :: 0 <= j < |admins| ==> admins[j].email != key
    ensures LoginAdmin(admins, key, password, nowMs) == AdminInvalidCredentials
  {
  }

  // ----------------------------------------- user operations, as intended

  /** `User.find({}, { username: 1 })` mapped to the usernames. */
  function GetAllUsers(users: seq<User>): (names: seq<string>)
    ensures |names| == |users|
    ensures forall i :: 0 <= i < |users| ==> names[i] == users[i].username
  {
    seq(|users|, i requires 0 <= i < |users| => users[i].username)
  }

  datatype LookupOutcome =
    | LookupServerError    // 500
    | LookupNotFound       // 404 "User not found"
    | UserFound(user: User)

  /** `User.findOne({ username })`: the whole stored document, or 404. */
  function GetUserByUsername(users: seq<User>, username: string): (r: LookupOutcome)
    ensures r != LookupServerError
    ensures r == LookupNotFound <==> forall j :: 0 <= j < |users| ==> users[j].username != username
    ensures r.UserFound? ==> r.user.username == username && r.user in users
    ensures r.UserFound? ==> r.user == users[FindUser(users, ByUsername(username)).value]
  {
    match FindUser(users, ByUsername(username))
    case None => LookupNotFound
    case Some(i) => UserFound(users[i])
  }

  datatype DeleteOutcome =
    | DeleteServerError    // 500
    | DeleteNotFound       // 404 "User not found"
    | Deleted              // "User deleted successfully"

  /** The store after deleting the first user named `username`, and the answer. */
  function DeleteByUsername(users: seq<User>, username: string): (r: (DeleteOutcome, seq<User>))
    ensures r.0 != DeleteServerError
    ensures r.0 == DeleteNotFound <==> forall j :: 0 <= j < |users| ==> users[j].username != username
    ensures r.0 == DeleteNotFound ==> r.1 == users
    ensures r.0 == Deleted ==> |r.1| == |users| - 1
  {
    match FindUser(users, ByUsername(username))
    case None => (DeleteNotFound, users)
    case Some(i) => (Deleted, users[..i] + users[i + 1..])
  }

  /** Deleting removes exactly the first user with that name: every other user
      stays, and the removed one's identifier is gone from a valid store. */
  lemma {:induction false} DeleteRemovesExactlyOne(users: seq<User>, nextId: nat, username: string)
    requires UsersValid(users, nextId)
    requires DeleteByUsername(users, username).0 == Deleted
    ensures var i := FindUser(users, ByUsername(username)).value;
      && (forall j :: 0 <= j < |users| && j != i ==> users[j] in DeleteByUsername(users, username).1)
      && FindUser(DeleteByUsername(users, username).1, ById(users[i].id)).None?
      && UsersValid(DeleteByUsername(users, username).1, nextId)
  {
    var i := FindUser(users, ByUsername(username)).value;
    assert DeleteByUsername(users, username).1 == users[..i] + users[i + 1..];
    RemoveKeepsOthers(users, i);
    RemovedIdGone(users, nextId, i);
    RemoveKeepsValid(users, nextId, i);
  }

  /** Delete the first user named `username`; 404 and no change when there is none. */
  method DeleteUserByUsername(db: Db, username: string) returns (outcome: DeleteOutcome)
    requires db.Valid()
    modifies db
    ensures db.Valid()
    ensures db.otps == old(db.otps) && db.admins == old(db.admins) && db.nextId == old(db.nextId)
    ensures (outcome, db.users) == DeleteByUsername(old(db.users), username)
    ensures ActiveIds(db.users) <= ActiveIds(old(db.users))
  {
    var found := FindUser(db.users, ByUsername(username));
    if found.None? {
      return DeleteNotFound;
    }
    var i := found.value;
    RemoveKeepsValid(db.users, db.nextId, i);
    ActiveIdsRemove(db.users, i);
    db.users := db.users[..i] + db.users[i + 1..];
    return Deleted;
  }

  // -------------------------------------------- user operations, as written

  /** The names the module binds at top level. */
  const ControllerBindings: set<string> := {"bcrypt", "jwt", "Admin"}

  datatype ListOutcome =
    | ListServerError               // 500
    | Usernames(names: seq<string>)

  /** `getAllUsers` as written: the `User.find` call runs only if `User` is bound. */
  function GetAllUsersAsWritten(users: seq<User>): ListOutcome
  {
    if "User" in ControllerBindings then Usernames(GetAllUsers(users)) else ListServerError
  }

  /** `getUserByUsername` as written. */
  function GetUserByUsernameAsWritten(users: seq<User>, username: string): LookupOutcome
  {
    if "User" in ControllerBindings then GetUserByUsername(users, username) else LookupServerError
  }

  /** `deleteUserByUsername` as written: the answer and the store afterwards. */
  function DeleteUserByUsernameAsWritten(users: seq<User>, username: string): (DeleteOutcome, seq<User>)
  {
    if "User" in ControllerBindings then DeleteByUsername(users, username) else (DeleteServerError, users)
  }

  /** As written, the three handlers answer 500 whatever the store holds, and delete nothing. */
  lemma UndeclaredUserAlwaysFails(users: seq<User>, username: string)
    ensures GetAllUsersAsWritten(users) == ListServerError
    ensures GetUserByUsernameAsWritten(users, username) == LookupServerError
    ensures DeleteUserByUsernameAsWritten(users, username) == (DeleteServerError, users)
  {
    assert "User" != "Admin" && "User" != "jwt" && "User" != "bcrypt";
  }

  /** One stored user is enough to tell the handlers as written from the intended ones. */
  lemma AsWrittenDiffersFromIntended()
    ensures var alice := NewUser(0, "alice@x.com", "alice", Hash("secret1"));
      && GetAllUsersAsWritten([alice]) == ListServerError
      && GetAllUsers([alice]) == ["alice"]
      && GetUserByUsernameAsWritten([alice], "alice") == LookupServerError
      && GetUserByUsername([alice], "alice") == UserFound(alice)
      && DeleteUserByUsernameAsWritten([alice], "alice") == (DeleteServerError, [alice])
      && DeleteByUsername([alice], "alice") == (Deleted, [])
  {
    var alice := NewUser(0, "alice@x.com", "alice", Hash("secret1"));
    UndeclaredUserAlwaysFails([alice], "alice");
    assert GetAllUsers([alice]) == ["alice"];
  }
}

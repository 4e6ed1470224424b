/** The user handlers of controllers/userController.js. Each handler is one
    atomic step over the stores. Registration, verification and the profile
    update change the stores and are methods that take `db: Db` and modify
    it; login, the listing and the profile read only look, and are functions
    of the user store.

    The mail transport, the Supabase insert's success and the random bytes are
    inputs; the clock is `nowMs`, UTC milliseconds. Token verification in the
    `authenticateToken` middleware (models/auth, not part of this model) is not
    modelled: the profile handlers receive the caller's identifier directly.
    The routes mount that middleware in front of `/login` as well
    (routes/userRoutes.js:8), so a caller needs a token before logging in. */
module UserController {
  import opened Base
  import opened Collaborators
  import opened UserModel
  import opened UserStore
  import opened OtpStore
  import opened Database

  /** User tokens are signed with `{ expiresIn: 3600 }`: a number, so seconds. */
  const UserTokenTtl: ExpiresIn := Seconds(3600)

  // ------------------------------------------------------------ createUser

  datatype RegisterOutcome =
    | UserExists                      // 400 "User already exists"
    | OtpSaveError                    // 400 "Error saving OTP to Supabase"
    | ServerError                     // 500: the user document failed validation on save
    | EmailError                      // 500 "Error sending email"; the user is stored all the same
    | EmailSent(inviteLink: string)   // 201 "Email sent successfully"

  const VerifyLinkPrefix: string := "http://localhost:5001/api/user/verify?otp="

  /** The link mailed to the new user. */
  function InviteLink(otp: string, email: string): string
  {
    VerifyLinkPrefix + otp + "&email=" + email
  }

  /** Registration gets as far as storing the user document. */
  predicate UserStored(users: seq<User>, email: string, username: string, otpInsertOk: bool)
  {
    !EmailTaken(users, email) && otpInsertOk && Required(email) && Required(username)
  }

  /** Register a user: refuse a taken email; otherwise insert the code row,
      then store a pending user with the hashed password, then mail the link.
      A failed insert stops before the user exists; a user that fails
      validation leaves the code row behind; a failed mail leaves both. */
  method CreateUser(db: Db, email: string, password: string, username: string,
                    random: seq<Byte>, nowMs: int, otpInsertOk: bool, mailOk: bool)
    returns (outcome: RegisterOutcome)
    requires db.Valid() && |random| == OtpBytes
    modifies db
    ensures db.Valid()
    ensures db.admins == old(db.admins)
    ensures ActiveIds(db.users) == ActiveIds(old(db.users))
    ensures outcome == UserExists <==> EmailTaken(old(db.users), email)
    ensures outcome == OtpSaveError <==> !EmailTaken(old(db.users), email) && !otpInsertOk
    ensures outcome == ServerError <==>
      !EmailTaken(old(db.users), email) && otpInsertOk && !(Required(email) && Required(username))
    ensures outcome == EmailError <==> UserStored(old(db.users), email, username, otpInsertOk) && !mailOk
    ensures outcome.EmailSent? <==> UserStored(old(db.users), email, username, otpInsertOk) && mailOk
    ensures outcome == UserExists || outcome == OtpSaveError ==>
      db.otps == old(db.otps) && db.users == old(db.users) && db.nextId == old(db.nextId)
    ensures outcome != UserExists && outcome != OtpSaveError ==>
      db.otps == old(db.otps) + [IssueOtp(email, random, nowMs)]
    ensures outcome == ServerError ==> db.users == old(db.users) && db.nextId == old(db.nextId)
    ensures outcome == EmailError || outcome.EmailSent? ==>
      && db.users == old(db.users) + [NewUser(old(db.nextId), email, username, Hash(password))]
      && db.nextId == old(db.nextId) + 1
    ensures outcome.EmailSent? ==> outcome.inviteLink == InviteLink(IssueOtp(email, random, nowMs).otp, email)
  {
    if FindUser(db.users, ByEmail(email)).Some? {
      return UserExists;
    }
    var hashed := Hash(password);
    var row := IssueOtp(email, random, nowMs);
    if !otpInsertOk {
      return OtpSaveError;
    }
    db.otps := db.otps + [row];
    var user := NewUser(db.nextId, email, username, hashed);
    if !SatisfiesSchema(user) {
      return ServerError;
    }
    AppendKeepsValid(db.users, db.nextId, user);
    ActiveIdsAppendPending(db.users, user);
    db.users := db.users + [user];
    db.nextId := db.nextId + 1;
    var link := InviteLink(row.otp, email);
    if !mailOk {
      return EmailError;
    }
    return EmailSent(link);
  }

  // ------------------------------------------------------------- verifyOtp

  datatype VerifyOutcome =
    | InvalidOtp              // 400 "Invalid or expired OTP."
    | OtpExpired              // 400 "OTP has expired."
    | UserNotFound            // 400 "User not found."
    | Verified(token: Token)  // "Email verified successfully."

  /** A row holds this email and code and has not expired at `nowMs`. */
  predicate CodeAccepted(otps: seq<OtpRow>, email: string, otp: string, nowMs: int)
  {
    var k := FindOtp(otps, email, otp);
    k.Some? && !Expired(otps[k.value], nowMs)
  }

  /** Verification succeeds: the code is accepted and a user has the email. */
  predicate Redeemable(users: seq<User>, otps: seq<OtpRow>, email: string, otp: string, nowMs: int)
  {
    CodeAccepted(otps, email, otp, nowMs) && EmailTaken(users, email)
  }

  /** Verify a code: look the row up by email and code, reject it after its
      expiry, find the user by email, make it active, sign a token, and delete
      every code row for the email. Any failure changes no store. */
  method VerifyOtp(db: Db, email: string, otp: string, nowMs: int) returns (outcome: VerifyOutcome)
    requires db.Valid()
    modifies db
    ensures db.Valid()
    ensures db.admins == old(db.admins) && db.nextId == old(db.nextId)
    ensures outcome == InvalidOtp <==> FindOtp(old(db.otps), email, otp).None?
    ensures outcome == OtpExpired <==>
      FindOtp(old(db.otps), email, otp).Some? && !CodeAccepted(old(db.otps), email, otp, nowMs)
    ensures outcome == UserNotFound <==>
      CodeAccepted(old(db.otps), email, otp, nowMs) && !EmailTaken(old(db.users), email)
    ensures outcome.Verified? <==> Redeemable(old(db.users), old(db.otps), email, otp, nowMs)
    ensures !outcome.Verified? ==> db.users == old(db.users) && db.otps == old(db.otps)
    ensures outcome.Verified? ==> db.otps == DeleteFor(old(db.otps), email)
    ensures outcome.Verified? ==>
      && FindUser(old(db.users), ByEmail(email)).Some?
      && var i := FindUser(old(db.users), ByEmail(email)).value;
      && db.users == old(db.users)[i := old(db.users)[i].(status := Active)]
      && outcome.token == Sign(UserClaims(old(db.users)[i].id, email), UserTokenTtl, nowMs)
    ensures outcome.Verified? ==> ActiveIds(db.users) == ActiveIds(old(db.users)) + {outcome.token.claims.id}
    ensures !outcome.Verified? ==> ActiveIds(db.users) == ActiveIds(old(db.users))
  {
    var k := FindOtp(db.otps, email, otp);
    if k.None? {
      return InvalidOtp;
    }
    if Expired(db.otps[k.value], nowMs) {
      return OtpExpired;
    }
    var found := FindUser(db.users, ByEmail(email));
    if found.None? {
      return UserNotFound;
    }
    var i := found.value;
    var user := db.users[i];
    ActiveIdsActivate(db.users, i);
    UpdateKeepsValid(db.users, db.nextId, i, user.(status := Active));
    db.users := db.users[i := user.(status := Active)];
    var token := Sign(UserClaims(user.id, user.email), UserTokenTtl, nowMs);
    db.otps := DeleteFor(db.otps, email);
    return Verified(token);
  }

  // ----------------------------------------------------- updateUserProfile

  /** The profile paths of the request body; `None` is a path the body leaves out. */
  datatype ProfileUpdate = ProfileUpdate(
    name: Option<string>,
    location: Option<string>,
    age: Option<int>,
    work: Option<string>,
    dob: Option<int>,
    description: Option<string>)

  /** A path after the update: the supplied value, or the old one when none was supplied. */
  predicate Written<T(==)>(before: Option<T>, supplied: Option<T>, after: Option<T>)
  {
    (supplied.Some? ==> after == supplied) && (supplied.None? ==> after == before)
  }

  /** `findOneAndUpdate` with the six profile paths. Keys left undefined are
      dropped from the update, so they keep their stored values. */
  function ApplyProfile(u: User, p: ProfileUpdate): (v: User)
    ensures v.id == u.id && v.email == u.email && v.username == u.username
    ensures v.password == u.password && v.status == u.status && v.verified == u.verified
    ensures Written(u.name, p.name, v.name) && Written(u.location, p.location, v.location)
    ensures Written(u.age, p.age, v.age) && Written(u.work, p.work, v.work)
    ensures Written(u.dob, p.dob, v.dob) && Written(u.description, p.description, v.description)
  {
    u.(name := if p.name.Some? then p.name else u.name,
       location := if p.location.Some? then p.location else u.location,
       age := if p.age.Some? then p.age else u.age,
       work := if p.work.Some? then p.work else u.work,
       dob := if p.dob.Some? then p.dob else u.dob,
       description := if p.description.Some? then p.description else u.description)
  }

  datatype ProfileOutcome =
    | ProfileNotFound   // 404 "User not found."
    | ProfileUpdated    // "User profile updated successfully."

  /** Update the caller's profile: 404 for an unknown identifier, otherwise
      write the supplied profile paths of that one user and nothing else. */
  method UpdateUserProfile(db: Db, userId: nat, p: ProfileUpdate) returns (outcome: ProfileOutcome)
    requires db.Valid()
    modifies db
    ensures db.Valid()
    ensures db.otps == old(db.otps) && db.admins == old(db.admins) && db.nextId == old(db.nextId)
    ensures ActiveIds(db.users) == ActiveIds(old(db.users))
    ensures outcome == ProfileNotFound <==> FindUser(old(db.users), ById(userId)).None?
    ensures outcome == ProfileNotFound ==> db.users == old(db.users)
    ensures outcome == ProfileUpdated ==>
      && FindUser(old(db.users), ById(userId)).Some?
      && var i := FindUser(old(db.users), ById(userId)).value;
      && db.users == old(db.users)[i := ApplyProfile(old(db.users)[i], p)]
  {
    var found := FindUser(db.users, ById(userId));
    if found.None? {
      return ProfileNotFound;
    }
    var i := found.value;
    var updated := ApplyProfile(db.users[i], p);
    UpdateKeepsValid(db.users, db.nextId, i, updated);
    ActiveIdsUpdateSameStatus(db.users, i, updated);
    db.users := db.users[i := updated];
    return ProfileUpdated;
  }

  /** Supplying the same paths twice has the effect of supplying them once. */
  lemma ApplyProfileIdempotent(u: User, p: ProfileUpdate)
    ensures ApplyProfile(ApplyProfile(u, p), p) == ApplyProfile(u, p)
  {
  }

  /** A body with only `location` changes only the location. */
  lemma LocationOnlyUpdate(u: User, x: string)
    ensures ApplyProfile(u, ProfileUpdate(None, Some(x), None, None, None, None)) == u.(location := Some(x))
  {
  }

  // ----------------------------------------------------------- getAllUsers

  /** `userModel.find()`: every stored document, digests included. */
  function GetAllUsers(users: seq<User>): (r: seq<User>)
    ensures |r| == |users|
    ensures forall i :: 0 <= i < |r| ==> r[i] == users[i]
  {
    users
  }

  // ------------------------------------------------------------- loginUser

  datatype LoginOutcome =
    | InvalidCredentials      // 400 "Invalid credentials"
    | NotVerified             // 400 "Please verify your email."
    | LoggedIn(token: Token)

  /** Log in by email or username: resolve the first user matching either,
      check the password, then the status, then sign a token. */
  function LoginUser(users: seq<User>, emailOrUsername: string, password: string, nowMs: int): (r: LoginOutcome)
    ensures var k := FindUser(users, ByEmailOrUsername(emailOrUsername));
      && (r == InvalidCredentials <==> k.None? || !Compare(password, users[k.value].password))
      && (r == NotVerified <==>
            k.Some? && Compare(password, users[k.value].password) && users[k.value].status != Active)
      && (r.LoggedIn? <==>
            k.Some? && Compare(password, users[k.value].password) && users[k.value].status == Active)
      && (r.LoggedIn? ==>
            r.token == Sign(UserClaims(users[k.value].id, users[k.value].email), UserTokenTtl, nowMs))
  {
    match FindUser(users, ByEmailOrUsername(emailOrUsername))
    case None => InvalidCredentials
    case Some(i) =>
      var user := users[i];
      if !Compare(password, user.password) then InvalidCredentials
      else if user.status != Active then NotVerified
      else LoggedIn(Sign(UserClaims(user.id, user.email), UserTokenTtl, nowMs))
  }

  // -------------------------------------------------------- getUserDetails

  /** The profile response: every path but the password digest and `verified`. */
  datatype Details = Details(
    id: nat,
    email: string,
    username: string,
    name: Option<string>,
    location: Option<string>,
    age: Option<int>,
    work: Option<string>,
    dob: Option<int>,
    description: Option<string>,
    status: Status)

  datatype DetailsOutcome =
    | DetailsNotFound         // 404 "User not found."
    | Found(details: Details)

  function Project(u: User): (d: Details)
    ensures d.id == u.id && d.email == u.email && d.username == u.username && d.status == u.status
    ensures d.name == u.name && d.location == u.location && d.age == u.age
    ensures d.work == u.work && d.dob == u.dob && d.description == u.description
  {
    Details(u.id, u.email, u.username, u.name, u.location, u.age, u.work, u.dob, u.description, u.status)
  }

  /** The caller's own profile, or 404. */
  function GetUserDetails(users: seq<User>, userId: nat): (r: DetailsOutcome)
    ensures r == DetailsNotFound <==> FindUser(users, ById(userId)).None?
    ensures r.Found? ==>
      FindUser(users, ById(userId)).Some? && r.details == Project(users[FindUser(users, ById(userId)).value])
  {
    match FindUser(users, ById(userId))
    case None => DetailsNotFound
    case Some(i) => Found(Project(users[i]))
  }

  /** The profile response does not depend on the stored password digest. */
  lemma {:induction false} DetailsIgnorePassword(users: seq<User>, i: nat, d: Digest, userId: nat)
    requires i < |users|
    ensures GetUserDetails(users[i := users[i].(password := d)], userId) == GetUserDetails(users, userId)
  {
    var t := users[i := users[i].(password := d)];
    FindUserSameKeys(users, t, ById(userId));
  }
}

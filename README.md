# Email-Authentication: account lifecycle and one-time-passcode verification

This Dafny project models the account core of an Express/Mongoose service.
Users register, verify their email with a one-time passcode (OTP), log in and
manage a profile. Admins register, log in and manage users.

The model has three stores, held as fields of one class, `Database.Db`:

- the user collection, a sequence in natural (insertion) order;
- the `email_otp` table, rows of email, code and expiry;
- the admin collection.

A counter stands in for the generator of document identifiers. Each handler is
one atomic step.

- Handlers that change a store are module-level methods that take the
  database `db: Db` and declare `modifies db`. These are registration,
  verification, profile update, admin registration and user deletion.
- Handlers that only read are functions of the store contents. These are user
  and admin login, the listings and the lookups.

Time is an integer count of UTC milliseconds. Two handlers depend on it: the
code lookup, which rejects a code only when `now > expiry`, and token issue.
Registration sets the expiry to the issue time plus 600 000 ms.

The foreign libraries appear only through what the handlers rely on.

- bcrypt is an injective digest. `Compare(pw, d)` holds exactly when
  `Hash(pw) == d`.
- jsonwebtoken is a `Token(claims, iat, exp)` in seconds. `iat` is the current
  time rounded down to whole seconds, and `exp = iat + ttl`.
- `crypto.randomBytes(4)` is a parameter.
- Buffer's hex rendering is modelled in full, with a proved round trip.

Three collaborator results are boolean inputs:

- whether the Supabase insert succeeds;
- whether the mail is sent;
- whether an admin save succeeds.

A user save fails exactly when the schema's `required` validator rejects an
empty email or username. That failure leaves the inserted code row behind.

Modules, leaves first:

- `Base`: option type, first-match and filter;
- `Collaborators`: bcrypt, jsonwebtoken, hex;
- `UserModel`: the User schema;
- `AdminModel`;
- `UserStore`: `findOne` queries and the store invariant;
- `OtpStore`;
- `Database`;
- `UserController`;
- `AdminController`;
- `Lifecycle`: properties across handlers, and scenarios that run the handlers
  in sequence.

The store invariant `Db.Valid()` requires three things:

- stored users passed validation;
- identifiers are distinct and below the counter;
- emails are distinct within each collection.

Every mutating handler keeps it. Registration pre-checks are the only thing
that keeps emails unique. The schema declares no unique index, and usernames
are never checked.

Every mutating handler also states how the set of active user identifiers
(`ActiveIds`) changes:

- registration, profile update and admin registration leave it unchanged;
- deletion can only shrink it;
- only a successful `VerifyOtp` adds to it, and it adds exactly the verified
  user's identifier.

So no step turns an active user back to pending, and only redeeming a code
activates a pending user.

## Behaviour of the code worth knowing

The model follows the code in each case. Several of these contradict what an
email-verification service would be expected to promise: one uniform answer
for every failed verification, a code that is never redeemable once its
registration failed, and password digests that never leave the server.

- `verifyOtp` gives three different failures. An unknown email/code pair gets
  "Invalid or expired OTP.", an expired code gets "OTP has expired.", and a
  code whose user is gone gets "User not found.". A caller can therefore tell
  these cases apart. (controllers/userController.js:97-115)
- Login resolves the identifier with `$or` over email and username and takes
  the first match. Usernames are not unique, so a user whose username equals
  another user's email shadows that account's email login.
  `Lifecycle.UsernameCanShadowEmail` exhibits it.
- Suppose a registration fails after its code row was written. A later
  registration of the same email then makes that left-over code redeemable.
  `Lifecycle.OrphanedCodeRedeemsLaterAccount` and
  `Lifecycle.OrphanScenario` exhibit it.
- The user listing (`GET /api/user/users`, unauthenticated) and the admin
  lookup by username return whole documents, password digests included.
- Email uniqueness rests on the controller's pre-check alone. The schema has
  no unique index.
- Registration logs the whole request body, plaintext password included
  (controllers/userController.js:21). Logging is outside the model.

## Model

| member | source | states |
|---|---|---|
| `Collaborators.CompareAcceptsOnlyTheHashedPassword` | controllers/userController.js:203 | a stored digest accepts exactly the password it was made from |
| `Collaborators.TtlSeconds` | controllers/adminController.js:60 | a numeric `expiresIn` is seconds; an hour span is 3600 seconds per hour |
| `Collaborators.Sign` | controllers/userController.js:121-127 | a signed token carries the given claims, `iat` is the issue time rounded down to seconds, and `exp - iat` is the TTL in seconds |
| `Collaborators.ToHex` | controllers/userController.js:34 | hex rendering gives two lowercase hex digits per byte |
| `Collaborators.FromHexOfToHex` | controllers/userController.js:34 | reading the hex back gives the original bytes (round trip, by induction) |
| `Collaborators.ToHexInjective` | controllers/userController.js:34 | distinct random bytes give distinct codes |
| `UserModel.NewUser` | controllers/userController.js:47-52 | a new user document has the given email, username and digest, status `pending`, `verified` false and no profile paths |
| `UserModel.NewUserValidation` | models/userModel.js:7-18 | a new document passes the `required` validators exactly when email and username are non-empty |
| `UserStore.FindUser` | controllers/userController.js:194-196 | `findOne` gives the first user matching the filter, and nothing when none matches |
| `UserStore.FindInValidStore` | controllers/userController.js:112 | in a valid store, lookup by email or by identifier finds that very user |
| `UserStore.AppendKeepsValid` | controllers/userController.js:25-28 | a new user with an untaken email and the next identifier keeps emails and identifiers unique |
| `UserStore.RemovedIdGone` | controllers/adminController.js:97-101 | after removing a user from a valid store, its identifier is no longer found |
| `UserStore.ActiveIdsActivate` | controllers/userController.js:117-118 | activating one user adds exactly its identifier to the active set |
| `AdminModel.FindAdmin` | controllers/adminController.js:42 | `Admin.findOne({ email })` gives the first admin with that email, and nothing when none has it |
| `OtpStore.IssueOtp` | controllers/userController.js:34-40 | a new code row holds the email, an 8-character lowercase hex code that decodes to the 4 random bytes, and expiry = issue time + 600000 ms |
| `OtpStore.FindOtp` | controllers/userController.js:90-99 | the row lookup matches email and code together, and finds nothing exactly when no row has both |
| `OtpStore.DeleteFor` | controllers/userController.js:137-140 | deleting by email keeps exactly the rows of other emails, with their multiplicities |
| `OtpStore.IssuedCodeWindow` | controllers/userController.js:107-109 | a code issued at t is accepted exactly while now <= t + 600000; the expiry instant itself is accepted |
| `OtpStore.DeletedCodesNotFound` | controllers/userController.js:137-140 | after deletion no code for that email is found, sibling codes included |
| `UserController.CreateUser` | controllers/userController.js:19-81 | the outcomes come in the source's order (taken email, failed insert, failed validation, failed mail, sent). A taken email or failed insert changes nothing. Otherwise the code row is added first. The pending user with the hashed password is added only after validation, and stays even when the mail fails. The store stays valid and no user becomes active |
| `UserController.VerifyOtp` | controllers/userController.js:84-146 | the outcomes come in the source's order (no row, expired, no user, verified), and every failure changes no store. On success only that user's status becomes active, with no other path (`verified` included) touched. Every code row for the email is deleted, and the token has that user's id and email with a 3600 s TTL |
| `UserController.ApplyProfile` | controllers/userController.js:161-169 | each supplied profile path takes the supplied value, and each omitted path keeps its value. Identifier, email, username, digest, status and `verified` never change |
| `UserController.UpdateUserProfile` | controllers/userController.js:149-178 | an unknown identifier gets 404 and no change; otherwise exactly that user is rewritten by `ApplyProfile`, and nothing else in any store |
| `UserController.ApplyProfileIdempotent` | controllers/userController.js:161-169 | supplying the same profile paths twice is the same as once |
| `UserController.LocationOnlyUpdate` | controllers/userController.js:161-169 | a body with only `location` changes only the location |
| `UserController.GetAllUsers` | controllers/userController.js:180-188 | the user listing is every stored document, in store order, digests included |
| `UserController.LoginUser` | controllers/userController.js:190-228 | a missing identity and a wrong password both give "Invalid credentials". The password is checked before the status. A matched user with the right password who is not active gets "Please verify your email.". Otherwise the token has that user's id and email with a 3600 s TTL |
| `UserController.Project` | controllers/userController.js:244-256 | the profile response carries identifier, email, username, profile paths and status unchanged, and has no password field |
| `UserController.GetUserDetails` | controllers/userController.js:230-261 | an unknown identifier gets 404; otherwise the response is that user's projection |
| `UserController.DetailsIgnorePassword` | controllers/userController.js:244-256 | the profile response does not depend on the stored digest |
| `AdminController.RegisterAdmin` | controllers/adminController.js:6-34 | a taken admin email gets "Admin already exists" and no record. Otherwise a successful save appends an admin with the hashed password and no verification step. A failed save changes nothing. Users and codes are untouched |
| `AdminController.AdminAppendKeepsValid` | controllers/adminController.js:11-14 | the admin pre-check keeps admin emails and identifiers unique |
| `AdminController.LoginAdmin` | controllers/adminController.js:37-68 | a missing admin and a wrong password both give "Invalid credentials", with no status check. The token puts the id and email under the `admin` key, with a '1h' TTL |
| `AdminController.AdminUsernameNeverResolves` | controllers/adminController.js:42 | a key that is no admin's email never logs in, even when it is an admin's username |
| `AdminController.GetAllUsers` | controllers/adminController.js:71-73 | intended listing: exactly the usernames of the stored users, in store order |
| `AdminController.GetUserByUsername` | controllers/adminController.js:79-91 | intended lookup: 404 exactly when no user has the name; otherwise the first such user's whole document |
| `AdminController.DeleteByUsername` | controllers/adminController.js:94-107 | intended delete: 404 and the store unchanged exactly when no user has the name; otherwise one user fewer |
| `AdminController.DeleteRemovesExactlyOne` | controllers/adminController.js:97-101 | the delete removes the first user with the name; every other user stays, the removed identifier is gone, and the store stays valid |
| `AdminController.DeleteUserByUsername` | controllers/adminController.js:94-107 | the handler's answer and new user store are `DeleteByUsername` of the old store. Codes, admins and the counter are untouched, and no user becomes active |
| `AdminController.UndeclaredUserAlwaysFails` | controllers/adminController.js:1-3 | as written, with `User` unbound, the three user handlers answer 500 for every store and input, and delete nothing |
| `AdminController.AsWrittenDiffersFromIntended` | controllers/adminController.js:69-107 | with alice stored, the handlers as written answer 500 where the intended ones list, find and delete her |
| `Lifecycle.TokenLifetimesAgree` | controllers/adminController.js:60 | user tokens (3600 as a number) and admin tokens ('1h') both live 3600 seconds |
| `Lifecycle.PendingUserCannotLogIn` | controllers/userController.js:208-211 | right after registration, logging in by email with the right password gives "Please verify your email.", unless an earlier user has that email as username |
| `Lifecycle.ActivatedUserLogsIn` | controllers/userController.js:213-223 | once activated, logging in by email with the right password gives a token for that user's id and email (same proviso) |
| `Lifecycle.LoginSucceedsOnlyWhenActive` | controllers/userController.js:198-211 | a successful login implies a stored user whose email or username is the key, who is active, and whose digest is that of the password |
| `Lifecycle.UsernameCanShadowEmail` | controllers/userController.js:194-196 | a user whose username is alice's email shadows alice's email login, even with her correct password |
| `Lifecycle.FreshCodeRedeemable` | controllers/userController.js:34-40 | a freshly issued code redeems exactly until issue time + 600000, once its user is stored |
| `Lifecycle.SecondVerificationFails` | controllers/userController.js:137-140 | after a successful verification no code for that email redeems again |
| `Lifecycle.OrphanedCodeRedeemsLaterAccount` | controllers/userController.js:38-53 | a code row left by a failed registration activates the account of a later registration of the same email |

## Findings

| source | as written | input that shows it | evidently intended | confidence | as-written member | corrected member |
|---|---|---|---|---|---|---|
| controllers/adminController.js:71 | `getAllUsers` calls `User.find`, but the module never binds `User` (lines 1-3), so the ReferenceError is caught and every call answers 500 | `GET /api/admin/users` with alice stored | the list of stored usernames, `["alice"]` | high; not executed | `AdminController.GetAllUsersAsWritten` (see `AdminController.AsWrittenDiffersFromIntended`) | `AdminController.GetAllUsers` |
| controllers/adminController.js:82 | `getUserByUsername` calls `User.findOne` with `User` unbound, so it always answers 500 | `GET /api/admin/users/alice` with alice stored | alice's document | high; not executed | `AdminController.GetUserByUsernameAsWritten` (see `AdminController.AsWrittenDiffersFromIntended`) | `AdminController.GetUserByUsername` |
| controllers/adminController.js:97 | `deleteUserByUsername` calls `User.findOne` with `User` unbound, so it always answers 500 and deletes nothing | `DELETE /api/admin/users/alice` with alice stored | alice removed, everyone else kept | high; not executed | `AdminController.DeleteUserByUsernameAsWritten` (see `AdminController.AsWrittenDiffersFromIntended`) | `AdminController.DeleteUserByUsername` |

## Left out

- Process bootstrap, environment loading, the database connection, static
  files, CORS and the logger (index.js) are left out. They are I/O plumbing.
- HTTP route wiring (routes/userRoutes.js, routes/adminRoutes.js) is left out.
  - The routes mount `authenticateToken` in front of `/login` as well
    (routes/userRoutes.js:8), so logging in needs a token first.
  - The mailed verification link is a plain GET link, but `/verify` is
    mounted for POST only (routes/userRoutes.js:10).
  - No admin route checks authentication.
- The `authenticateToken` middleware and token verification are left out.
  models/auth is not part of this model. The profile handlers take the
  caller's identifier as a parameter.
- The Nodemailer transport is left out. It is outbound network I/O. Only the
  success or failure of `sendMail` is modelled, as the input `mailOk`.
- bcrypt's salt, cost factor and 72-byte password truncation are left out. The
  model's hash is injective, so two passwords that differ only after byte 72
  are told apart here, but not by bcrypt.
- JWT signing cryptography and the signing callback's error path
  (`if (err) throw err`, a missing `JWT_SECRET`) are left out. Signing always
  yields the token record.
- `crypto.randomBytes` is left out. Its four bytes are a parameter of
  registration.
- Supabase and Mongoose query mechanics are left out.
  - `.single()`'s error when several rows match is not modelled: the first
    matching row is used.
  - Store errors other than those modelled are not modelled. These are a
    failing `findOne`, a failing save in `verifyOtp`, a failing
    `findOneAndUpdate`, and cast errors such as a non-numeric `age`. In the
    source each of these gives 500.
- `UserController.VerifyOtp` assumes the code deletion succeeds. The source
  never reads the `{ error }` result of the delete
  (controllers/userController.js:137-140). A failed delete is silent: the
  caller still gets "Email verified successfully." and a token, and every
  code row for that email stays redeemable. `Lifecycle.SecondVerificationFails`
  rests on the same assumption.
- `age` (a Mongoose Number, models/userModel.js:26-28) is an integer in the
  model, so a fractional age cannot be represented.
- Timestamps are integers, not ISO strings parsed with `+ 'Z'`. The parsing is
  left out. Suppose the column returned a zone-qualified string. Appending `Z`
  would then give an Invalid Date, and `toISOString()` on it throws a
  `RangeError` inside the `try` (controllers/userController.js:104). The
  catch answers 500 "Server Error" (lines 142-145), so no code would ever
  verify. The model cannot show this.
- The order between the `jwt.sign` callback's response and the code deletion
  is left out. Each handler is one atomic step.
- Concurrency is left out, including two simultaneous registrations of one
  email. Nothing in the source or the schema prevents the duplicate.
- Request bodies with missing (`undefined`) or `null` fields are left out.
  Inputs are strings, and an omitted profile path is `None`.
- `UserController.ApplyProfile` assumes Mongoose 6 or later, which drops
  undefined keys from an update. Under Mongoose 5 an omitted path would be
  cleared instead.
- `AdminController.DeleteUserByUsername` assumes `Document.prototype.remove()`
  exists. Mongoose 7 removed it.
- Document identifiers are a counter in the model, not ObjectIds.
- HTTP status codes and response bodies are left out beyond one outcome
  datatype per handler. The status codes appear only as comments.
- Console logging is left out.

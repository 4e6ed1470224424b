/** The User document (models/userModel.js): three required strings, a
    lifecycle status that defaults to "pending", a `verified` flag that
    defaults to false, and six optional profile fields. */
module UserModel {
  import opened Base
  import opened Collaborators

  /** The only two values the controllers ever store in `status`. */
  datatype Status = Pending | Active

  /** A stored user. `id` is the document's generated identifier; `age` is a
      Number and `dob` a Date, here whole numbers (the date in UTC milliseconds). */
  datatype User = User(
    id: nat,
    email: string,
    username: string,
    password: Digest,
    status: Status,
    name: Option<string>,
    location: Option<string>,
    age: Option<int>,
    work: Option<string>,
    dob: Option<int>,
    description: Option<string>,
    verified: bool)

  const DefaultStatus: Status := Pending
  const DefaultVerified: bool := false

  /** A `required` String path rejects a missing or an empty value. */
  predicate Required(s: string)
  {
    s != ""
  }

  /** What validation on save demands of a user document. The password is a
      digest, which is never empty. */
  predicate SatisfiesSchema(u: User)
  {
    Required(u.email) && Required(u.username)
  }

  /** None of the optional profile paths is set. */
  predicate NoProfile(u: User)
  {
    u.name.None? && u.location.None? && u.age.None? && u.work.None? && u.dob.None? && u.description.None?
  }

  /** `new userModel({ email, password, username, status: 'pending' })` with
      the schema's defaults filled in. */
  function NewUser(id: nat, email: string, username: string, password: Digest): (u: User)
    ensures u.id == id && u.email == email && u.username == username && u.password == password
    ensures u.status == DefaultStatus && u.verified == DefaultVerified
    ensures NoProfile(u)
  {
    User(id, email, username, password, Pending, None, None, None, None, None, None, false)
  }

  /** A new user passes validation exactly when both required strings are non-empty. */
  lemma NewUserValidation(id: nat, email: string, username: string, password: Digest)
    ensures SatisfiesSchema(NewUser(id, email, username, password)) <==> email != "" && username != ""
  {
  }
}

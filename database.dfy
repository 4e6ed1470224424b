/** The three stores the controllers share: the Mongo user collection, the
    Supabase `email_otp` table and the Mongo admin collection, with the
    generator of fresh document identifiers. */
module Database {
  import opened UserModel
  import opened UserStore
  import opened OtpStore
  import opened AdminModel

  class Db {
    var users: seq<User>
    var otps: seq<OtpRow>
    var admins: seq<Admin>
    /** The next document identifier to hand out (an ObjectId generator). */
    var nextId: nat

    ghost predicate Valid()
      reads this
    {
      UsersValid(users, nextId) && AdminsValid(admins, nextId)
    }

    /** Empty stores. */
    constructor ()
      ensures Valid()
      ensures users == [] && otps == [] && admins == [] && nextId == 0
    {
      users := [];
      otps := [];
      admins := [];
      nextId := 0;
    }
  }
}

/** The Admin document. models/adminModel.js is not part of this model; the
    shape below is what adminController.js reads and writes: an email, a
    username and a password digest, and no status or verification path. */
module AdminModel {
  import opened Base
  import opened Collaborators

  datatype Admin = Admin(id: nat, email: string, username: string, password: Digest)

  /** `Admin.findOne({ email })`: the first admin with that email. */
  function FindAdmin(admins: seq<Admin>, email: string): (r: Option<nat>)
    ensures r.Some? ==> r.value < |admins| && admins[r.value].email == email
    ensures r.Some? ==> forall j :: 0 <= j < r.value ==> admins[j].email != email
    ensures r.None? <==> forall j :: 0 <= j < |admins| ==> admins[j].email != email
  {
    FirstIndex(admins, (a: Admin) => a.email == email)
  }

  /** Identifiers are distinct and below the next one to be issued; no two
      admins share an email (the registration pre-check keeps it so). */
  predicate AdminsValid(admins: seq<Admin>, nextId: nat)
  {
    && (forall i :: 0 <= i < |admins| ==> admins[i].id < nextId)
    && (forall i, j :: 0 <= i < j < |admins| ==> admins[i].id != admins[j].id && admins[i].email != admins[j].email)
  }
}

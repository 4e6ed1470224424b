/** The account lifecycle across handlers: a registered user is pending and
    cannot log in; a fresh code redeems within ten minutes and not after; once
    redeemed, no code for that email is left; an activated user logs in with a
    token for its own identifier and email. The scenarios at the end run the
    handlers in sequence on one database. */
module Lifecycle {
  import opened Base
  import opened Collaborators
  import opened UserModel
  import opened UserStore
  import opened OtpStore
  import opened AdminModel
  import opened Database
  import UC = UserController
  import AC = AdminController

  /** Both tenant classes get one-hour tokens: 3600 seconds as a number for
      users, '1h' for admins. */
  lemma TokenLifetimesAgree()
    ensures TtlSeconds(UC.UserTokenTtl) == TtlSeconds(AC.AdminTokenTtl) == 3600
  {
  }

  /** A just-registered user who logs in by email with the right password is
      told to verify first, provided no earlier user has that email as its
      username (login resolves email and username alike). */
  lemma {:induction false} PendingUserCannotLogIn(
    users: seq<User>, nextId: nat, email: string, username: string, password: string, nowMs: int)
    requires UsersValid(users, nextId) && !EmailTaken(users, email)
    requires forall j :: 0 <= j < |users| ==> users[j].username != email
    ensures UC.LoginUser(users + [NewUser(nextId, email, username, Hash(password))], email, password, nowMs)
            == UC.NotVerified
  {
    var u := NewUser(nextId, email, username, Hash(password));
    assert FindUser(users, ByEmailOrUsername(email)).None?;
    FirstIndexAfterNoMatch(users, u, (v: User) => Matches(v, ByEmailOrUsername(email)));
    assert FindUser(users + [u], ByEmailOrUsername(email)) == Some(|users|);
  }

  /** An activated user who logs in by email with the right password receives a
      one-hour token for its own identifier and email, under the same proviso. */
  lemma {:induction false} ActivatedUserLogsIn(users: seq<User>, nextId: nat, i: nat, password: string, nowMs: int)
    requires UsersValid(users, nextId) && i < |users|
    requires Compare(password, users[i].password)
    requires forall j :: 0 <= j < |users| ==> users[j].username != users[i].email
    ensures UC.LoginUser(users[i := users[i].(status := Active)], users[i].email, password, nowMs)
            == UC.LoggedIn(Sign(UserClaims(users[i].id, users[i].email), UC.UserTokenTtl, nowMs))
  {
    var t := users[i := users[i].(status := Active)];
    UpdateKeepsValid(users, nextId, i, t[i]);
    var k := FindUser(t, ByEmailOrUsername(users[i].email));
    assert Matches(t[i], ByEmailOrUsername(users[i].email));
    assert k == Some(i);
  }

  /** The login outcome for a correct password depends only on the status. */
  lemma LoginSucceedsOnlyWhenActive(users: seq<User>, key: string, password: string, nowMs: int)
    requires UC.LoginUser(users, key, password, nowMs).LoggedIn?
    ensures exists i :: 0 <= i < |users| && (users[i].email == key || users[i].username == key)
                        && users[i].status == Active && users[i].password == Hash(password)
  {
    var i := FindUser(users, ByEmailOrUsername(key)).value;
    assert users[i].status == Active;
  }

  /** Usernames are not checked for uniqueness and login matches either path,
      so a username equal to someone's email hides that account's email login:
      here alice's own password fails with her own email. */
  lemma UsernameCanShadowEmail()
    ensures var bob := NewUser(0, "bob@x.com", "alice@x.com", Hash("hunter2"));
            var alice := NewUser(1, "alice@x.com", "alice", Hash("secret1")).(status := Active);
            UC.LoginUser([bob, alice], "alice@x.com", "secret1", 0) == UC.InvalidCredentials
  {
    var bob := NewUser(0, "bob@x.com", "alice@x.com", Hash("hunter2"));
    var alice := NewUser(1, "alice@x.com", "alice", Hash("secret1")).(status := Active);
    assert Matches([bob, alice][0], ByEmailOrUsername("alice@x.com"));
    assert FindUser([bob, alice], ByEmailOrUsername("alice@x.com")) == Some(0);
    assert "hunter2" != "secret1";
  }

  /** A code issued at `issuedAt` is redeemable until `issuedAt + 600000`
      inclusive once its user is stored, unless an earlier row for the same
      email carries the same code. */
  lemma {:induction false} FreshCodeRedeemable(
    users: seq<User>, otps: seq<OtpRow>, email: string, random: seq<Byte>, issuedAt: int, nowMs: int)
    requires |random| == OtpBytes && EmailTaken(users, email)
    requires FindOtp(otps, email, IssueOtp(email, random, issuedAt).otp).None?
    ensures var row := IssueOtp(email, random, issuedAt);
      UC.Redeemable(users, otps + [row], email, row.otp, nowMs) <==> nowMs <= issuedAt + 600000
  {
    var row := IssueOtp(email, random, issuedAt);
    FirstIndexAfterNoMatch(otps, row, (r: OtpRow) => r.email == email && r.otp == row.otp);
    assert FindOtp(otps + [row], email, row.otp) == Some(|otps|);
    assert (otps + [row])[|otps|] == row;
  }

  /** After a successful verification no code for that email redeems again,
      whatever the time and whatever the code. */
  lemma SecondVerificationFails(users: seq<User>, otps: seq<OtpRow>, email: string, otp: string, nowMs: int)
    ensures FindOtp(DeleteFor(otps, email), email, otp).None?
    ensures !UC.Redeemable(users, DeleteFor(otps, email), email, otp, nowMs)
  {
    DeletedCodesNotFound(otps, email, otp);
  }

  /** A code whose user failed validation is left behind, and once the same
      email registers again it activates the new account. The two codes come
      from different random bytes, so they differ and only the old row
      matches the old code. */
  lemma {:induction false} OrphanedCodeRedeemsLaterAccount(
    email: string, username: string, password: string, r1: seq<Byte>, r2: seq<Byte>, t1: int, t2: int, nowMs: int)
    requires |r1| == OtpBytes && |r2| == OtpBytes && r1 != r2
    requires t1 <= nowMs <= t1 + 600000
    ensures IssueOtp(email, r2, t2).otp != IssueOtp(email, r1, t1).otp
    ensures var orphan := IssueOtp(email, r1, t1);
      UC.Redeemable([NewUser(0, email, username, Hash(password))], [orphan, IssueOtp(email, r2, t2)],
                    email, orphan.otp, nowMs)
  {
    var orphan := IssueOtp(email, r1, t1);
    var otps := [orphan, IssueOtp(email, r2, t2)];
    assert FindOtp(otps, email, orphan.otp) == Some(0);
    assert [NewUser(0, email, username, Hash(password))][0].email == email;
  }

  // ------------------------------------------------------------- scenarios

  /** Register alice, fail to log in before verifying, and fail to register
      her email twice; then hand the database to the verification phase. */
  method AliceScenario(random: seq<Byte>, other: seq<Byte>)
    requires |random| == OtpBytes && |other| == OtpBytes
  {
    var db := new Db();
    assert !EmailTaken([], "alice@x.com");
    var registered := UC.CreateUser(db, "alice@x.com", "secret1", "alice", random, 0, true, true);
    assert registered.EmailSent?;
    var alice := NewUser(0, "alice@x.com", "alice", Hash("secret1"));
    assert db.users == [alice];
    assert db.otps == [IssueOtp("alice@x.com", random, 0)];

    assert FindUser(db.users, ByEmailOrUsername("alice@x.com")) == Some(0);
    assert UC.LoginUser(db.users, "alice@x.com", "secret1", 1000) == UC.NotVerified;

    assert db.users[0].email == "alice@x.com";
    var twice := UC.CreateUser(db, "alice@x.com", "other", "alice2", other, 1000, true, true);
    assert twice == UC.UserExists;
    AliceVerifies(db, random);
  }

  /** Fail with a wrong code, verify with the right one before ten minutes
      pass, fail to reuse it, log in, and find alice among the usernames. */
  method AliceVerifies(db: Db, random: seq<Byte>)
    requires |random| == OtpBytes && db.Valid()
    requires db.users == [NewUser(0, "alice@x.com", "alice", Hash("secret1"))]
    requires db.otps == [IssueOtp("alice@x.com", random, 0)]
    modifies db
  {
    var code := IssueOtp("alice@x.com", random, 0).otp;
    assert |code| == 8 && |"not-a-code"| == 10;
    assert FindOtp(db.otps, "alice@x.com", "not-a-code").None?;
    var wrong := UC.VerifyOtp(db, "alice@x.com", "not-a-code", 2000);
    assert wrong == UC.InvalidOtp;

    assert FindOtp(db.otps, "alice@x.com", code) == Some(0);
    assert db.users[0].email == "alice@x.com";
    var verified := UC.VerifyOtp(db, "alice@x.com", code, 300000);
    assert verified.Verified?;
    assert verified.token.claims == UserClaims(0, "alice@x.com");
    assert verified.token.exp - verified.token.iat == 3600;
    assert db.users == [NewUser(0, "alice@x.com", "alice", Hash("secret1")).(status := Active)];

    SecondVerificationFails(db.users, old(db.otps), "alice@x.com", code, 300001);
    var reuse := UC.VerifyOtp(db, "alice@x.com", code, 300001);
    assert reuse == UC.InvalidOtp;

    assert FindUser(db.users, ByEmailOrUsername("alice")) == Some(0);
    var login := UC.LoginUser(db.users, "alice", "secret1", 400000);
    assert login.LoggedIn? && login.token.claims == UserClaims(0, "alice@x.com");
    assert AC.GetAllUsers(db.users) == ["alice"];
  }

  /** The expiry instant itself is accepted; one millisecond later is not. */
  method ExpiryScenario(random: seq<Byte>)
    requires |random| == OtpBytes
  {
    var db := new Db();
    var registered := UC.CreateUser(db, "carol@x.com", "pw", "carol", random, 1000, true, false);
    assert !EmailTaken([], "carol@x.com");
    assert registered == UC.EmailError;
    var code := IssueOtp("carol@x.com", random, 1000).otp;
    assert FindOtp(db.otps, "carol@x.com", code) == Some(0);
    var late := UC.VerifyOtp(db, "carol@x.com", code, 601001);
    assert late == UC.OtpExpired;
    assert db.users[0].email == "carol@x.com";
    var onTime := UC.VerifyOtp(db, "carol@x.com", code, 601000);
    assert onTime.Verified?;
  }

  /** A registration whose username is empty fails after its code row is
      written; registering the same email again succeeds, and the left-over
      code then activates the new account. */
  method OrphanScenario(r1: seq<Byte>, r2: seq<Byte>)
    requires |r1| == OtpBytes && |r2| == OtpBytes && r1 != r2
  {
    var db := new Db();
    var first := UC.CreateUser(db, "dave@x.com", "pw", "", r1, 0, true, true);
    assert !EmailTaken([], "dave@x.com");
    assert first == UC.ServerError;
    assert db.users == [];
    var second := UC.CreateUser(db, "dave@x.com", "pw", "dave", r2, 1000, true, true);
    assert second.EmailSent?;
    var orphan := IssueOtp("dave@x.com", r1, 0);
    assert db.otps[0] == orphan;
    assert FindOtp(db.otps, "dave@x.com", orphan.otp) == Some(0);
    assert db.users[0].email == "dave@x.com";
    var verified := UC.VerifyOtp(db, "dave@x.com", orphan.otp, 2000);
    assert verified.Verified?;
  }

  /** Admins are active from registration: a fresh admin logs in at once, and
      only by email. */
  method AdminScenario()
  {
    var db := new Db();
    var registered := AC.RegisterAdmin(db, "root@x.com", "root", "pw", true);
    assert FindAdmin([], "root@x.com").None?;
    assert registered == AC.AdminRegistered;
    assert FindAdmin(db.admins, "root@x.com") == Some(0);
    var login := AC.LoginAdmin(db.admins, "root@x.com", "pw", 5000);
    assert login.AdminLoggedIn? && login.token.claims == AdminClaims(0, "root@x.com");
    assert login.token.exp - login.token.iat == 3600;
    AC.AdminUsernameNeverResolves(db.admins, "root", "pw", 5000);
    var again := AC.RegisterAdmin(db, "root@x.com", "other", "pw2", true);
    assert again == AC.AdminExists;
  }
}

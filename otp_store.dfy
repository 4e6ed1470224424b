/** The `email_otp` table: rows of (email, otp, otp_expires). Times are UTC
    milliseconds. Several rows may exist for one email; a row is looked up by
    email and code together, and on redemption every row for the email goes. */
module OtpStore {
  import opened Base
  import opened Collaborators

  datatype OtpRow = OtpRow(email: string, otp: string, expires: int)

  /** Ten minutes, in milliseconds. */
  const OtpLifetimeMs: int := 10 * 60 * 1000

  /** The number of random bytes behind a code. */
  const OtpBytes: nat := 4

  /** The row registration inserts for `email` at time `nowMs`, from the
      result of `randomBytes(4)`. */
  function IssueOtp(email: string, random: seq<Byte>, nowMs: int): (row: OtpRow)
    requires |random| == OtpBytes
    ensures row.email == email && row.expires == nowMs + 600000
    ensures |row.otp| == 8 && forall i :: 0 <= i < |row.otp| ==> IsHexDigit(row.otp[i])
    ensures FromHex(row.otp) == random
  {
    FromHexOfToHex(random);
    OtpRow(email, ToHex(random), nowMs + OtpLifetimeMs)
  }

  /** `.eq('email', email).eq('otp', otp)`: the first row with both values. */
  function FindOtp(otps: seq<OtpRow>, email: string, otp: string): (r: Option<nat>)
    ensures r.Some? ==> r.value < |otps| && otps[r.value].email == email && otps[r.value].otp == otp
    ensures r.None? <==> forall j :: 0 <= j < |otps| ==> !(otps[j].email == email && otps[j].otp == otp)
  {
    FirstIndex(otps, (row: OtpRow) => row.email == email && row.otp == otp)
  }

  /** The expiry test `new Date() > otpExpiryDate`: the expiry instant itself is still accepted. */
  predicate Expired(row: OtpRow, nowMs: int)
  {
    nowMs > row.expires
  }

  /** `.delete().eq('email', email)`: the rows for other emails, each as often as before. */
  function DeleteFor(otps: seq<OtpRow>, email: string): (r: seq<OtpRow>)
    ensures forall row :: row in r <==> row in otps && row.email != email
    ensures forall row: OtpRow :: row.email != email ==> multiset(r)[row] == multiset(otps)[row]
  {
    Filter(otps, (row: OtpRow) => row.email != email)
  }

  /** A code issued at `t` is accepted up to and including `t + 600000` and rejected after. */
  lemma IssuedCodeWindow(email: string, random: seq<Byte>, issuedAt: int, nowMs: int)
    requires |random| == OtpBytes
    ensures !Expired(IssueOtp(email, random, issuedAt), nowMs) <==> nowMs <= issuedAt + 600000
  {
  }

  /** After the rows of an email are deleted no code for that email is found,
      whichever code it was. */
  lemma {:induction false} DeletedCodesNotFound(otps: seq<OtpRow>, email: string, otp: string)
    ensures FindOtp(DeleteFor(otps, email), email, otp).None?
  {
    var r := DeleteFor(otps, email);
    forall j | 0 <= j < |r|
      ensures !(r[j].email == email && r[j].otp == otp)
    {
      assert r[j] in r;
    }
  }
}

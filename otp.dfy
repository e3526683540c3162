/** The one-time-password flow of the auth routes: forgot-password issues a
    six-digit code valid for 15 minutes and mails it, verify-otp accepts the
    code once and logs the user in, reset-password accepts the code once and
    replaces the password. The code and its expiry are the user document's
    `otp` and `otpExpiry` (None once cleared). */
module Otp {
  import opened Records
  import opened Storage
  import Text

  /** 15 minutes in milliseconds. */
  const Lifetime: int := 15 * 60 * 1000

  /** 7 days in seconds: the token's lifetime and the cookie's maxAge. */
  const SessionSeconds: nat := 60 * 60 * 24 * 7

  /** `Math.floor(100000 + Math.random() * 900000)`, for a draw in [0, 1). */
  function CodeValue(random: real): (n: nat)
    requires 0.0 <= random < 1.0
    ensures 100000 <= n <= 999999
  {
    (100000.0 + random * 900000.0).Floor as nat
  }

  /** The code as mailed and stored: `.toString()` of the value. */
  function Code(random: real): (code: string)
    requires 0.0 <= random < 1.0
  {
    Text.NatToString(CodeValue(random))
  }

  /** Every issued code is six decimal digits without a leading zero, and
      reads back as its value. */
  lemma CodeIsSixDigits(random: real)
    requires 0.0 <= random < 1.0
    ensures |Code(random)| == 6 && Text.IsDigits(Code(random)) && Code(random)[0] != '0'
    ensures Text.DecimalValue(Code(random)) == CodeValue(random)
  {
    assert Text.Pow10(2) == 100;
    assert Text.Pow10(4) == 10000;
    assert Text.Pow10(6) == 1000000;
    Text.NatToStringLength(CodeValue(random), 6);
    Text.DecimalRoundTrip(CodeValue(random));
  }

  /** The user after a code is issued at `now`: any earlier pair is replaced. */
  function Issued(u: User, code: string, now: Time): (v: User)
    ensures v.otp == Some(code) && v.otpExpiry == Some(now + Lifetime)
    ensures v.(otp := u.otp, otpExpiry := u.otpExpiry) == u
  {
    u.(otp := Some(code), otpExpiry := Some(now + Lifetime))
  }

  /** `user.otpExpiry < Date.now()`: an absent expiry is never "before". */
  predicate Expired(u: User, now: Time)
  {
    u.otpExpiry.Some? && u.otpExpiry.value < now
  }

  /** The verify-otp test, `user.otp !== otp || user.otpExpiry < Date.now()`
      negated: plain equality of the stored and the given code (either may be
      absent), and no expiry strictly before now. */
  predicate VerifyAccepts(u: User, otp: Option<string>, now: Time)
  {
    u.otp == otp && !Expired(u, now)
  }

  /** The reset-password test: a stored code that is present and non-empty
      and equals the given one, then no expiry strictly before now. */
  predicate ResetAccepts(u: User, otp: string, now: Time)
  {
    u.otp.Some? && u.otp.value != "" && u.otp.value == otp && !Expired(u, now)
  }

  /** The user once the code is used: both fields cleared. */
  function Consumed(u: User): (v: User)
    ensures v.otp.None? && v.otpExpiry.None?
    ensures v.(otp := u.otp, otpExpiry := u.otpExpiry) == u
  {
    u.(otp := None, otpExpiry := None)
  }

  /** A freshly issued code passes both tests exactly until its expiry,
      inclusive of the expiry instant itself. */
  lemma IssuedCodeAccepted(u: User, code: string, issuedAt: Time, now: Time)
    requires code != ""
    ensures VerifyAccepts(Issued(u, code, issuedAt), Some(code), now) <==> now <= issuedAt + Lifetime
    ensures ResetAccepts(Issued(u, code, issuedAt), code, now) <==> now <= issuedAt + Lifetime
  {
  }

  /** A different code is refused by both tests. */
  lemma WrongCodeRefused(u: User, code: string, other: string, issuedAt: Time, now: Time)
    requires other != code
    ensures !VerifyAccepts(Issued(u, code, issuedAt), Some(other), now)
    ensures !ResetAccepts(Issued(u, code, issuedAt), other, now)
  {
  }

  /** A used code is refused ever after by reset-password, and by
      verify-otp whenever a code is given. */
  lemma UsedCodeRefused(u: User, code: string, now: Time)
    ensures !ResetAccepts(Consumed(u), code, now)
    ensures !VerifyAccepts(Consumed(u), Some(code), now)
  {
  }

  /** As written, verify-otp has no "a code is outstanding" guard: a request
      without a code passes the test for any user that has no code stored. */
  lemma MissingCodeAcceptedByVerify(u: User, now: Time)
    requires u.otp.None? && u.otpExpiry.None?
    ensures VerifyAccepts(u, None, now)
  {
  }

  /** The reset test is the verify test for a given code, with the extra
      guard that a code is stored. */
  lemma ResetIsStricter(u: User, otp: string, now: Time)
    requires otp != ""
    ensures ResetAccepts(u, otp, now) <==> VerifyAccepts(u, Some(otp), now)
  {
  }

  /** The text of the reset mail. */
  function MailText(code: string): string
  {
    "Your OTP for password reset is: " + code + ". It is valid for 15 minutes."
  }

  /** What the mailer did: delivered, or failed with an error message. */
  datatype MailOutcome = Delivered | Failed(reason: string)

  /** POST /api/auth/forgot-password. `random` is Math.random()'s draw and
      `mail` the mailer's outcome; `sent` is the mail the handler asked the
      mailer to send (to the given email), None when it asked for none. The
      code is stored before the mail goes out, so a mail failure still
      leaves it stored. */
  method ForgotPassword(st: Store, email: string, now: Time, random: real, mail: MailOutcome)
    returns (r: Response, sent: Option<string>)
    requires st.Valid()
    requires 0.0 <= random < 1.0
    modifies st
    ensures st.Valid()
    ensures st.jobs == old(st.jobs) && st.applications == old(st.applications) && st.interests == old(st.interests)
    ensures EmailIndex(old(st.users), email) == -1 ==>
      r == Response(404, Error("User with this email does not exist")) && sent.None? && st.users == old(st.users)
    ensures EmailIndex(old(st.users), email) >= 0 ==>
      var k := EmailIndex(old(st.users), email);
      && st.users == old(st.users)[k := Issued(old(st.users)[k], Code(random), now)]
      && sent == Some(MailText(Code(random)))
      && r == (if mail.Delivered? then Response(200, Message("OTP sent to your email"))
               else Response(500, Error(if mail.reason != "" then mail.reason else "Email could not be sent")))
  {
    var k := EmailIndex(st.users, email);
    if k == -1 {
      return Response(404, Error("User with this email does not exist")), None;
    }
    var code := Code(random);
    st.SetUser(k, Issued(st.users[k], code, now));
    sent := Some(MailText(code));
    if mail.Failed? {
      var reason := if mail.reason != "" then mail.reason else "Email could not be sent";
      return Response(500, Error(reason)), sent;
    }
    r := Response(200, Message("OTP sent to your email"));
  }

  /** POST /api/auth/verify-otp. `otp` is None when the body has none. On
      success the caller is logged in with a 7-day session. */
  method VerifyOtp(st: Store, email: string, otp: Option<string>, now: Time) returns (r: Response)
    requires st.Valid()
    modifies st
    ensures st.Valid()
    ensures st.jobs == old(st.jobs) && st.applications == old(st.applications) && st.interests == old(st.interests)
    ensures EmailIndex(old(st.users), email) == -1 ==>
      r == Response(400, Error("User not found")) && st.users == old(st.users)
    ensures EmailIndex(old(st.users), email) >= 0 ==>
      var k := EmailIndex(old(st.users), email);
      var u := old(st.users)[k];
      if VerifyAccepts(u, otp, now) then
        && st.users == old(st.users)[k := Consumed(u).(isVerified := true)]
        && r == Response(200, LoggedIn(u.role, SessionSeconds))
      else
        r == Response(400, Error("Invalid or expired OTP")) && st.users == old(st.users)
  {
    var k := EmailIndex(st.users, email);
    if k == -1 {
      return Response(400, Error("User not found"));
    }
    var u := st.users[k];
    if !VerifyAccepts(u, otp, now) {
      return Response(400, Error("Invalid or expired OTP"));
    }
    st.SetUser(k, Consumed(u).(isVerified := true));
    r := Response(200, LoggedIn(u.role, SessionSeconds));
  }

  /** POST /api/auth/reset-password. Absent fields are "". The code is
      checked before its expiry; `hash` is bcrypt with cost 10. */
  method ResetPassword(st: Store, email: string, otp: string, newPassword: string, now: Time, hash: string -> string)
    returns (r: Response)
    requires st.Valid()
    modifies st
    ensures st.Valid()
    ensures st.jobs == old(st.jobs) && st.applications == old(st.applications) && st.interests == old(st.interests)
    ensures email == "" || otp == "" || newPassword == "" ==>
      r == Response(400, Error("Email, OTP, and new password are required")) && st.users == old(st.users)
    ensures email != "" && otp != "" && newPassword != "" ==>
      var k := EmailIndex(old(st.users), email);
      if k == -1 then
        r == Response(404, Error("User not found")) && st.users == old(st.users)
      else
        var u := old(st.users)[k];
        if u.otp.None? || u.otp.value == "" || u.otp.value != otp then
          r == Response(400, Error("Invalid or undefined OTP")) && st.users == old(st.users)
        else if Expired(u, now) then
          r == Response(400, Error("OTP has expired")) && st.users == old(st.users)
        else
          && ResetAccepts(u, otp, now)
          && st.users == old(st.users)[k := Consumed(u).(password := hash(newPassword))]
          && r == Response(200, Message("Password reset successfully"))
  {
    if email == "" || otp == "" || newPassword == "" {
      return Response(400, Error("Email, OTP, and new password are required"));
    }
    var k := EmailIndex(st.users, email);
    if k == -1 {
      return Response(404, Error("User not found"));
    }
    var u := st.users[k];
    if u.otp.None? || u.otp.value == "" || u.otp.value != otp {
      return Response(400, Error("Invalid or undefined OTP"));
    }
    if Expired(u, now) {
      return Response(400, Error("OTP has expired"));
    }
    st.SetUser(k, Consumed(u).(password := hash(newPassword)));
    r := Response(200, Message("Password reset successfully"));
  }
}

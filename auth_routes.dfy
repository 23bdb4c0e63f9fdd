/**
 * The route handlers of routes/authentication.js as methods of one object
 * that holds the account collection, the session of one browser, the mails
 * sent and the research submissions. Each method changes those fields step
 * by step as its handler does, and is proved to end in the state and
 * response that the matching transition of `AuthSpec` prescribes, keeping
 * `AuthSpec.Valid` throughout.
 */
module AuthRoutes {
  import opened Options
  import opened UserModel
  import opened CoAuthors
  import opened Registration
  import opened AuthSpec

  class Portal {
    /** `process.env.ADMIN_SECRET_PASSWORD`. */
    const adminSecret: string
    /** The `UserSOBIE` collection, keyed by `_id`. */
    var accounts: map<Id, Account>
    /** `req.session` of the one browser being modelled. */
    var session: Session
    /** Every mail handed to the transporter, oldest first. */
    var outbox: seq<Mail>
    /** The `Research` collection, in insertion order. */
    var submissions: seq<Submission>

    /** The object's fields as a value of the specification's state. */
    function Snapshot(): State
      reads this
    {
      State(accounts, session, outbox, submissions)
    }

    ghost predicate Valid()
      reads this
    {
      AuthSpec.Valid(Snapshot())
    }

    /** A fresh deployment: no accounts, an empty session, nothing sent. */
    constructor (adminSecret: string)
      ensures Valid() && Snapshot() == Initial && this.adminSecret == adminSecret
    {
      this.adminSecret := adminSecret;
      accounts := map[];
      session := EmptySession;
      outbox := [];
      submissions := [];
    }

    /** `findOne(filter)` on the account collection. */
    method FindOne(p: Account -> bool) returns (r: Option<Id>)
      requires AtMostOne(accounts, p)
      ensures r == AuthSpec.FindOne(accounts, p)
      ensures r.Some? ==> r.value in accounts && p(accounts[r.value])
    {
      if exists j :: j in accounts && p(accounts[j]) {
        var j :| j in accounts && p(accounts[j]);
        FindOneIsTheMatch(accounts, p, j);
        r := Some(j);
      } else {
        r := None;
      }
    }

    /** `POST /signup`. */
    method Signup(f: SignupForm, id: Id, token: string) returns (out: Outcome)
      requires Valid() && Fresh(Snapshot(), token)
      modifies this
      ensures Valid()
      ensures Step(Snapshot(), out) == AuthSpec.Signup(old(Snapshot()), f, id, token)
    {
      ghost var r := AuthSpec.Signup(Snapshot(), f, id, token);
      if f.password != f.confirmPassword {
        return SignupPasswordMismatch;
      }
      LookupsAreUnique(Snapshot(), f.email, f.username, token, 0);
      var existingEmail := FindOne(EmailIs(f.email));
      var existingUsername := FindOne(UsernameIs(f.username));
      if existingEmail.Some? || existingUsername.Some? {
        return AccountExists;
      }
      var passwordHash := Hash(f.password);
      var user := WithDefaults(f.username, passwordHash, f.firstName, f.lastName, f.email)
                    .(tokenVerify := Some(token), isVerified := false);
      if !HasRequiredFields(user) || id in accounts {
        return ServerError;
      }
      accounts := accounts[id := user];
      outbox := outbox + [Mail(f.email, VerifySubject, VerifyLink(token))];
      out := RedirectVerify;
      assert Snapshot() == r.st;
    }

    /** `POST /login`. */
    method Login(email: string, password: string, token: string) returns (out: Outcome)
      requires Valid() && Fresh(Snapshot(), token)
      modifies this
      ensures Valid()
      ensures Step(Snapshot(), out) == AuthSpec.Login(old(Snapshot()), adminSecret, email, password, token)
    {
      ghost var r := AuthSpec.Login(Snapshot(), adminSecret, email, password, token);
      if password == adminSecret {
        session := session.(adminLogin := Some(AdminLogin(email, token)));
        outbox := outbox + [Mail(email, AdminLoginSubject, VerifyLoginLink(token))];
        return RedirectVerify;
      }
      LookupsAreUnique(Snapshot(), email, "", token, 0);
      var found := FindOne(EmailIs(email));
      if found.None? {
        return InvalidCredentials;
      }
      var id := found.value;
      var user := accounts[id];
      if !Compare(password, user.passwordHash) {
        return InvalidCredentials;
      }
      user := user.(tokenVerify := Some(token));
      accounts := accounts[id := user];
      outbox := outbox + [Mail(email, LoginSubject, VerifyLoginLink(token))];
      out := RedirectVerify;
      assert Snapshot() == r.st;
    }

    /** `GET /verify`. */
    method FollowVerifyLink(token: string) returns (out: Outcome)
      requires Valid()
      modifies this
      ensures Valid()
      ensures Step(Snapshot(), out) == AuthSpec.FollowVerifyLink(old(Snapshot()), token)
    {
      ghost var r := AuthSpec.FollowVerifyLink(Snapshot(), token);
      if token == "" {
        return VerifyPage;
      }
      LookupsAreUnique(Snapshot(), "", "", token, 0);
      var found := FindOne(TokenVerifyIs(token));
      if found.None? {
        return InvalidVerificationLink;
      }
      var id := found.value;
      if accounts[id].isVerified {
        return AlreadyVerified;
      }
      session := session.(verifiedUserId := Some(id));
      out := FinalVerifyPage;
      assert Snapshot() == r.st;
    }

    /** `POST /finalize-signup`. */
    method FinalizeSignup() returns (out: Outcome)
      requires Valid()
      modifies this
      ensures Valid()
      ensures Step(Snapshot(), out) == AuthSpec.FinalizeSignup(old(Snapshot()))
    {
      ghost var r := AuthSpec.FinalizeSignup(Snapshot());
      if session.verifiedUserId.None? {
        return SessionExpired;
      }
      var id := session.verifiedUserId.value;
      if id !in accounts || accounts[id].isVerified {
        return InvalidOrAlreadyVerified;
      }
      var user := accounts[id];
      user := user.(isVerified := true);
      user := user.(tokenVerify := None);
      accounts := accounts[id := user];
      session := session.(verifiedUserId := None);
      session := session.(userId := Some(id));
      out := if user.role == Admin then RedirectAdminDashboard else RedirectUserDashboard;
      assert Snapshot() == r.st;
    }

    /** `GET /verify-login`. */
    method VerifyLogin(token: string) returns (out: Outcome)
      requires Valid()
      modifies this
      ensures Valid()
      ensures Step(Snapshot(), out) == AuthSpec.VerifyLogin(old(Snapshot()), token)
    {
      ghost var r := AuthSpec.VerifyLogin(Snapshot(), token);
      if session.adminLogin.Some? && session.adminLogin.value.tokenVerify == token {
        session := session.(isAdmin := true);
        session := session.(adminLogin := None);
        return RedirectAdminDashboard;
      }
      LookupsAreUnique(Snapshot(), "", "", token, 0);
      var found := FindOne(TokenVerifyIs(token));
      if found.None? {
        return InvalidLoginLink;
      }
      var id := found.value;
      var user := accounts[id].(tokenVerify := None);
      accounts := accounts[id := user];
      session := session.(userId := Some(id));
      out := RedirectUserDashboard;
      assert Snapshot() == r.st;
    }

    /** `POST /forgot-password`; `origin` is the protocol and host of the request. */
    method ForgotPassword(email: string, origin: string, token: string, now: int) returns (out: Outcome)
      requires Valid() && Fresh(Snapshot(), token)
      modifies this
      ensures Valid()
      ensures Step(Snapshot(), out) == AuthSpec.ForgotPassword(old(Snapshot()), email, origin, token, now)
    {
      ghost var r := AuthSpec.ForgotPassword(Snapshot(), email, origin, token, now);
      LookupsAreUnique(Snapshot(), email, "", token, now);
      var found := FindOne(EmailIs(email));
      if found.None? {
        return NoAccountFound;
      }
      var id := found.value;
      var user := accounts[id];
      user := user.(resetPasswordToken := Some(token));
      user := user.(resetPasswordExpires := Some(now + ResetWindow));
      accounts := accounts[id := user];
      outbox := outbox + [Mail(email, ResetSubject, ResetLink(origin, token))];
      out := ResetEmailSent;
      assert Snapshot() == r.st;
    }

    /** `GET /reset-password/:token`: reads and changes nothing. */
    method ResetPasswordForm(token: string, now: int) returns (out: Outcome)
      requires Valid()
      ensures out == AuthSpec.ResetPasswordForm(Snapshot(), token, now)
    {
      LookupsAreUnique(Snapshot(), "", "", token, now);
      var found := FindOne(LiveResetToken(token, now));
      out := if found.None? then ResetLinkInvalid else ResetFormPage;
    }

    /** `POST /reset-password/:token`. */
    method ResetPassword(token: string, password: string, confirmPassword: string, now: int)
      returns (out: Outcome)
      requires Valid()
      modifies this
      ensures Valid()
      ensures Step(Snapshot(), out) == AuthSpec.ResetPassword(old(Snapshot()), token, password, confirmPassword, now)
    {
      ghost var r := AuthSpec.ResetPassword(Snapshot(), token, password, confirmPassword, now);
      if password != confirmPassword {
        return ResetPasswordMismatch;
      }
      LookupsAreUnique(Snapshot(), "", "", token, now);
      var found := FindOne(LiveResetToken(token, now));
      if found.None? {
        return InvalidOrExpiredToken;
      }
      var id := found.value;
      var user := accounts[id];
      user := user.(passwordHash := Hash(password));
      user := user.(resetPasswordToken := None);
      user := user.(resetPasswordExpires := None);
      accounts := accounts[id := user];
      out := PasswordReset;
      assert Snapshot() == r.st;
    }

    /** `POST /update-password`. */
    method UpdatePassword(currentPassword: string, newPassword: string, confirmNewPassword: string)
      returns (out: Outcome)
      requires Valid()
      modifies this
      ensures Valid()
      ensures Step(Snapshot(), out) ==
                AuthSpec.UpdatePassword(old(Snapshot()), currentPassword, newPassword, confirmNewPassword)
    {
      ghost var r := AuthSpec.UpdatePassword(Snapshot(), currentPassword, newPassword, confirmNewPassword);
      if session.userId.None? {
        return RedirectLogin;
      }
      if newPassword != confirmNewPassword {
        session := session.(successMsg := Some(MsgPasswordsDoNotMatch));
        return RedirectUserDashboard;
      }
      var id := session.userId.value;
      if id !in accounts {
        return ServerError;
      }
      var user := accounts[id];
      if !Compare(currentPassword, user.passwordHash) {
        session := session.(successMsg := Some(MsgCurrentIncorrect));
        return RedirectUserDashboard;
      }
      user := user.(passwordHash := Hash(newPassword));
      accounts := accounts[id := user];
      session := session.(successMsg := Some(MsgPasswordUpdated));
      out := RedirectUserDashboard;
      assert Snapshot() == r.st;
    }

    /** `POST /profile`. */
    method UpdateProfile(f: ProfileForm) returns (out: Outcome)
      requires Valid()
      modifies this
      ensures Valid()
      ensures Step(Snapshot(), out) == AuthSpec.UpdateProfile(old(Snapshot()), f)
    {
      ghost var r := AuthSpec.UpdateProfile(Snapshot(), f);
      if session.userId.None? {
        return RedirectLogin;
      }
      var id := session.userId.value;
      if id !in accounts {
        return UserNotFound;
      }
      var role := ParseRole(f.role);
      if role.None? {
        return ServerError;
      }
      var user := accounts[id];
      var profile := Normalize(f);
      if f.role == "researcher" && f.researchTitle != "" {
        var existing := exists k :: 0 <= k < |submissions| &&
                          submissions[k].userId == id && submissions[k].title == f.researchTitle;
        if !existing {
          submissions := submissions + [Submission(id, f.researchTitle, f.researchAbstract,
                                                   f.sessionPreference, ParseCoAuthors(f.coAuthorsRawInput))];
        }
      }
      accounts := accounts[id := ApplyProfile(user, role.value, profile)];
      outbox := outbox + [Mail(user.email, RegistrationSubject, MapLink)];
      session := session.(successMsg := Some(MsgRegistered));
      out := RedirectUserDashboard;
      assert Snapshot() == r.st;
    }

    /** `GET /user-dashboard`, as far as the one-time notice goes. */
    method ViewDashboard() returns (out: Outcome)
      requires Valid()
      modifies this
      ensures Valid()
      ensures Step(Snapshot(), out) == AuthSpec.ViewDashboard(old(Snapshot()))
    {
      if session.userId.None? {
        return RedirectLogin;
      }
      if session.userId.value !in accounts {
        return ServerError;
      }
      var successMsg := session.successMsg;
      session := session.(successMsg := None);
      out := UserDashboard(successMsg);
    }

    /** `GET /logout`. */
    method Logout() returns (out: Outcome)
      requires Valid()
      modifies this
      ensures Valid()
      ensures Step(Snapshot(), out) == AuthSpec.Logout(old(Snapshot()))
    {
      session := EmptySession;
      out := RedirectLogin;
    }
  }
}

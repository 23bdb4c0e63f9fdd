/**
 * Properties of the credential state machine that relate several requests:
 * how the flows complete, how a newer token supersedes an older one, how
 * long a reset link lives, and what the administrator challenge and the
 * one-time notice do and do not touch.
 */
module AuthProperties {
  import opened Options
  import opened UserModel
  import opened Registration
  import opened AuthSpec

  /** The only account holding `token` as its pending token is `id`. */
  lemma TokenLookup(s: State, token: string, id: Id)
    requires Valid(s) && id in s.accounts && s.accounts[id].tokenVerify == Some(token)
    ensures FindOne(s.accounts, TokenVerifyIs(token)) == Some(id)
  {
    LookupsAreUnique(s, "", "", token, 0);
    FindOneIsTheMatch(s.accounts, TokenVerifyIs(token), id);
  }

  /** The only account with address `email` is `id`. */
  lemma EmailLookup(s: State, email: string, id: Id)
    requires Valid(s) && id in s.accounts && s.accounts[id].email == email
    ensures FindOne(s.accounts, EmailIs(email)) == Some(id)
  {
    LookupsAreUnique(s, email, "", "", 0);
    FindOneIsTheMatch(s.accounts, EmailIs(email), id);
  }

  /**
   * Signup confirmation end to end: the mailed link marks the session, and
   * finalising then verifies the new account, clears its token and logs the
   * session in as that account.
   */
  lemma SignupThenConfirm(s: State, f: SignupForm, id: Id, token: string)
    requires Valid(s) && Fresh(s, token)
    requires Signup(s, f, id, token).out == RedirectVerify
    ensures var s1 := Signup(s, f, id, token).st;
            var r2 := FollowVerifyLink(s1, token);
            var r3 := FinalizeSignup(r2.st);
            && r2.out == FinalVerifyPage && r2.st.session.verifiedUserId == Some(id)
            && r3.out == RedirectUserDashboard
            && r3.st.accounts[id].isVerified && r3.st.accounts[id].tokenVerify == None
            && r3.st.session.userId == Some(id) && r3.st.session.verifiedUserId == None
  {
    var s1 := Signup(s, f, id, token).st;
    assert IsToken(token);
    TokenLookup(s1, token, id);
  }

  /**
   * A successful ordinary login overwrites the account's pending token:
   * the token it held before (a signup link not yet followed, or an earlier
   * login link) no longer opens `GET /verify` or `GET /verify-login`. The
   * verification flag is left as it was.
   */
  lemma LoginSupersedesPendingToken(s: State, adminSecret: string, id: Id, password: string,
                                    earlierToken: string, token: string)
    requires Valid(s) && Fresh(s, token)
    requires id in s.accounts && s.accounts[id].tokenVerify == Some(earlierToken) && earlierToken != ""
    requires password != adminSecret && Compare(password, s.accounts[id].passwordHash)
    ensures var r := Login(s, adminSecret, s.accounts[id].email, password, token);
            && r.out == RedirectVerify
            && r.st.accounts[id].tokenVerify == Some(token)
            && r.st.accounts[id].isVerified == s.accounts[id].isVerified
            && FollowVerifyLink(r.st, earlierToken).out == InvalidVerificationLink
            && VerifyLogin(r.st, earlierToken).out == InvalidLoginLink
  {
    EmailLookup(s, s.accounts[id].email, id);
    var r := Login(s, adminSecret, s.accounts[id].email, password, token);
    forall j | j in r.st.accounts ensures r.st.accounts[j].tokenVerify != Some(earlierToken) {
      if j != id {
        assert r.st.accounts[j] == s.accounts[j];
      }
    }
    assert !AdminChallengeMatches(r.st, earlierToken);
  }

  /**
   * The race of a signup and a login for the same account: once the
   * account has logged in, the link of the signup mail is refused.
   */
  lemma SignupLinkLostAfterLogin(s: State, adminSecret: string, f: SignupForm, id: Id,
                                 token1: string, token2: string)
    requires Valid(s) && Fresh(s, token1)
    requires Signup(s, f, id, token1).out == RedirectVerify
    requires Fresh(Signup(s, f, id, token1).st, token2)
    requires f.password != adminSecret
    ensures var s1 := Signup(s, f, id, token1).st;
            var r2 := Login(s1, adminSecret, f.email, f.password, token2);
            r2.out == RedirectVerify && FollowVerifyLink(r2.st, token1).out == InvalidVerificationLink
  {
    var s1 := Signup(s, f, id, token1).st;
    assert IsToken(token1);
    LoginSupersedesPendingToken(s1, adminSecret, id, f.password, token1, token2);
  }

  /**
   * Login confirmation ignores verification: an account that never followed
   * its signup link still obtains an authenticated session from its login
   * link, and stays unverified.
   */
  lemma UnverifiedLoginAuthenticates(s: State, adminSecret: string, id: Id, password: string, token: string)
    requires Valid(s) && Fresh(s, token)
    requires id in s.accounts && !s.accounts[id].isVerified
    requires password != adminSecret && Compare(password, s.accounts[id].passwordHash)
    ensures var r1 := Login(s, adminSecret, s.accounts[id].email, password, token);
            var r2 := VerifyLogin(r1.st, token);
            && r2.out == RedirectUserDashboard
            && r2.st.session.userId == Some(id)
            && !r2.st.accounts[id].isVerified
  {
    EmailLookup(s, s.accounts[id].email, id);
    var r1 := Login(s, adminSecret, s.accounts[id].email, password, token);
    TokenLookup(r1.st, token, id);
    assert !AdminChallengeMatches(r1.st, token);
  }

  /**
   * A verified account can hold a pending token: after a login it is both
   * verified and awaiting its login link, so "verified implies no pending
   * token" is not an invariant of these handlers.
   */
  lemma VerifiedAccountCanHoldToken(s: State, adminSecret: string, id: Id, password: string, token: string)
    requires Valid(s) && Fresh(s, token)
    requires id in s.accounts && s.accounts[id].isVerified
    requires password != adminSecret && Compare(password, s.accounts[id].passwordHash)
    ensures var r := Login(s, adminSecret, s.accounts[id].email, password, token);
            r.st.accounts[id].isVerified && r.st.accounts[id].tokenVerify.Some?
  {
    EmailLookup(s, s.accounts[id].email, id);
  }

  /**
   * The administrator challenge: it never reads or writes an account, its
   * link grants `isAdmin` and is then used up, and a second challenge makes
   * the first link worthless.
   */
  lemma AdminChallenge(s: State, adminSecret: string, email1: string, email2: string,
                       token1: string, token2: string)
    requires Valid(s) && Fresh(s, token1)
    requires Fresh(Login(s, adminSecret, email1, adminSecret, token1).st, token2)
    ensures var s1 := Login(s, adminSecret, email1, adminSecret, token1).st;
            var r2 := VerifyLogin(s1, token1);
            var s3 := Login(s1, adminSecret, email2, adminSecret, token2).st;
            var r4 := VerifyLogin(s3, token1);
            && s1.accounts == s.accounts
            && r2.out == RedirectAdminDashboard && r2.st.session.isAdmin
            && r2.st.accounts == s.accounts && r2.st.session.adminLogin == None
            && VerifyLogin(r2.st, token1).out == InvalidLoginLink
            && r4.out == InvalidLoginLink && r4.st.session.isAdmin == s.session.isAdmin
  {
    var s1 := Login(s, adminSecret, email1, adminSecret, token1).st;
    var r2 := VerifyLogin(s1, token1);
    assert !AdminChallengeMatches(r2.st, token1);
    assert forall j :: j in r2.st.accounts ==> r2.st.accounts[j].tokenVerify != Some(token1);
    var s3 := Login(s1, adminSecret, email2, adminSecret, token2).st;
    assert s3.session.adminLogin.value.tokenVerify == token2 != token1;
  }

  /** The account `id` holds `token` as a reset token that has not expired at `now`. */
  lemma ResetLookup(s: State, token: string, now: int, id: Id)
    requires Valid(s) && id in s.accounts && LiveResetToken(token, now)(s.accounts[id])
    ensures FindOne(s.accounts, LiveResetToken(token, now)) == Some(id)
  {
    LookupsAreUnique(s, "", "", token, now);
    FindOneIsTheMatch(s.accounts, LiveResetToken(token, now), id);
  }

  /**
   * A reset link lives for one hour: issued at `issuedAt`, both the form and
   * the submission accept it exactly while `now < issuedAt + 3600000`. An
   * accepted submission installs the new password and leaves verification
   * alone; a refused one changes nothing.
   */
  lemma ResetLinkLifetime(s: State, email: string, origin: string, token: string, issuedAt: int,
                          id: Id, password: string, now: int)
    requires Valid(s) && Fresh(s, token)
    requires id in s.accounts && s.accounts[id].email == email
    ensures var s1 := ForgotPassword(s, email, origin, token, issuedAt).st;
            var r := ResetPassword(s1, token, password, password, now);
            && (ResetPasswordForm(s1, token, now) == ResetFormPage <==> now < issuedAt + ResetWindow)
            && (r.out == PasswordReset <==> now < issuedAt + ResetWindow)
            && (r.out == PasswordReset ==>
                  && Compare(password, r.st.accounts[id].passwordHash)
                  && NoResetPending(r.st.accounts[id])
                  && r.st.accounts[id].tokenVerify == s.accounts[id].tokenVerify
                  && r.st.accounts[id].isVerified == s.accounts[id].isVerified)
            && (r.out != PasswordReset ==> r.st == s1)
  {
    EmailLookup(s, email, id);
    var s1 := ForgotPassword(s, email, origin, token, issuedAt).st;
    if now < issuedAt + ResetWindow {
      ResetLookup(s1, token, now, id);
    } else {
      forall j | j in s1.accounts ensures !LiveResetToken(token, now)(s1.accounts[j]) {
        if j != id { assert s1.accounts[j] == s.accounts[j]; }
      }
    }
  }

  /**
   * A second reset request supersedes the first: the earlier link is
   * refused by the form and by the submission, at any time.
   */
  lemma SecondResetSupersedesFirst(s: State, email: string, origin1: string, origin2: string,
                                   token1: string, token2: string, at1: int, at2: int,
                                   id: Id, password: string, now: int)
    requires Valid(s) && Fresh(s, token1)
    requires id in s.accounts && s.accounts[id].email == email
    requires Fresh(ForgotPassword(s, email, origin1, token1, at1).st, token2)
    ensures var s1 := ForgotPassword(s, email, origin1, token1, at1).st;
            var s2 := ForgotPassword(s1, email, origin2, token2, at2).st;
            && ResetPasswordForm(s2, token1, now) == ResetLinkInvalid
            && ResetPassword(s2, token1, password, password, now).out == InvalidOrExpiredToken
  {
    EmailLookup(s, email, id);
    var s1 := ForgotPassword(s, email, origin1, token1, at1).st;
    EmailLookup(s1, email, id);
    var s2 := ForgotPassword(s1, email, origin2, token2, at2).st;
    forall j | j in s2.accounts ensures !LiveResetToken(token1, now)(s2.accounts[j]) {
      if j != id { assert s2.accounts[j] == s.accounts[j]; }
    }
  }

  /** A reset link works once: after a successful reset the same link is refused. */
  lemma ResetLinkSingleUse(s: State, token: string, password: string, now: int, later: int,
                           password2: string)
    requires Valid(s)
    requires ResetPassword(s, token, password, password, now).out == PasswordReset
    ensures var s1 := ResetPassword(s, token, password, password, now).st;
            ResetPassword(s1, token, password2, password2, later).out == InvalidOrExpiredToken &&
            ResetPasswordForm(s1, token, later) == ResetLinkInvalid
  {
    var id := FindOne(s.accounts, LiveResetToken(token, now)).value;
    var s1 := ResetPassword(s, token, password, password, now).st;
    assert s.accounts[id].resetPasswordToken == Some(token);
    forall j | j in s1.accounts ensures !LiveResetToken(token, later)(s1.accounts[j]) {
      if j != id {
        assert s1.accounts[j] == s.accounts[j];
      }
    }
  }

  /**
   * An authenticated password change takes effect at the next login: the
   * new password is accepted and, when it differs and both encode in at
   * most 72 bytes, the old one is refused with the same answer as an
   * unknown address.
   */
  lemma PasswordChangeTakesEffect(s: State, adminSecret: string, current: string, newPassword: string,
                                  token: string)
    requires Valid(s) && Fresh(s, token)
    requires UpdatePassword(s, current, newPassword, newPassword).st.session.successMsg == Some(MsgPasswordUpdated)
    requires UpdatePassword(s, current, newPassword, newPassword).out == RedirectUserDashboard
    requires newPassword != adminSecret && current != adminSecret
    ensures var s1 := UpdatePassword(s, current, newPassword, newPassword).st;
            var email := s.accounts[s.session.userId.value].email;
            && Login(s1, adminSecret, email, newPassword, token).out == RedirectVerify
            && (current != newPassword && |Utf8(current)| <= BcryptMaxBytes && |Utf8(newPassword)| <= BcryptMaxBytes ==>
                  Login(s1, adminSecret, email, current, token).out == InvalidCredentials)
  {
    var id := s.session.userId.value;
    var s1 := UpdatePassword(s, current, newPassword, newPassword).st;
    EmailLookup(s1, s.accounts[id].email, id);
    if |Utf8(current)| <= BcryptMaxBytes && |Utf8(newPassword)| <= BcryptMaxBytes {
      ShortPasswordsDistinct(newPassword, current);
    }
  }

  /** The one-time notice is shown by the first dashboard view and by no later one. */
  lemma NoticeShownOnce(s: State)
    requires ViewDashboard(s).out.UserDashboard?
    ensures ViewDashboard(ViewDashboard(s).st).out == UserDashboard(None)
  {
  }

  /**
   * After logout no earlier session state is usable: finalising fails as
   * expired, the authenticated handlers redirect to login, and no link
   * grants administrator access until a new challenge is issued.
   */
  lemma LogoutForgetsSession(s: State, f: ProfileForm, token: string, p1: string, p2: string, p3: string)
    requires Valid(s)
    ensures var s1 := Logout(s).st;
            && FinalizeSignup(s1).out == SessionExpired
            && UpdatePassword(s1, p1, p2, p3).out == RedirectLogin
            && UpdateProfile(s1, f).out == RedirectLogin
            && ViewDashboard(s1).out == RedirectLogin
            && !VerifyLogin(s1, token).st.session.isAdmin
  {
  }

  /**
   * Submitting a profile form again, either the same form or the form that
   * reproduces the normalised profile stored by the first submission,
   * succeeds, records no further submission and stores nothing new in the
   * accounts; neither submission touches the credential or verification
   * state.
   */
  lemma ProfileResubmission(s: State, f: ProfileForm)
    requires Valid(s)
    requires UpdateProfile(s, f).out == RedirectUserDashboard
    ensures var s1 := UpdateProfile(s, f).st;
            var r2 := UpdateProfile(s1, f);
            var r3 := UpdateProfile(s1, AsForm(Normalize(f)));
            var id := s.session.userId.value;
            && r2.out == RedirectUserDashboard
            && r2.st.submissions == s1.submissions
            && r2.st.accounts == s1.accounts
            && r3.out == RedirectUserDashboard
            && r3.st.submissions == s1.submissions
            && r3.st.accounts == s1.accounts
            && s1.accounts[id].passwordHash == s.accounts[id].passwordHash
            && s1.accounts[id].tokenVerify == s.accounts[id].tokenVerify
            && s1.accounts[id].isVerified == s.accounts[id].isVerified
            && s1.accounts[id].resetPasswordToken == s.accounts[id].resetPasswordToken
  {
    NormalizeIdempotent(f);
  }
}

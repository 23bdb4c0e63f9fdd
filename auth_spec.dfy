/**
 * The account-verification and credential state machine of
 * routes/authentication.js, as pure transitions over the whole state: the
 * account collection, the session of one browser, the mails sent and the
 * research submissions. Each handler is a function from the state before
 * the request to the state after it and the response.
 *
 * External pieces are parameters: a token from `crypto.randomBytes(20)`
 * is a `token` argument, `Date.now()` is `now`, the new document's `_id`
 * is `id`, `ADMIN_SECRET_PASSWORD` is `adminSecret`, and the host of the
 * current request is `origin`.
 */
module AuthSpec {
  import opened Options
  import opened UserModel
  import opened CoAuthors
  import opened Registration

  /** `req.session.adminLogin`: an administrator challenge held only in the session. */
  datatype AdminLogin = AdminLogin(email: string, tokenVerify: string)

  /** The session fields the handlers read and write; an unset key is `None` (or false). */
  datatype Session = Session(
    verifiedUserId: Option<Id>,
    userId: Option<Id>,
    adminLogin: Option<AdminLogin>,
    isAdmin: bool,
    successMsg: Option<string>)

  /** A new session, and the one `req.session.destroy` leaves behind. */
  const EmptySession: Session := Session(None, None, None, false, None)

  /** The link a mail carries. */
  datatype Link =
    | VerifyLink(token: string)              // HOST_IP/verify?token=...
    | VerifyLoginLink(token: string)         // HOST_IP/verify-login?token=...
    | ResetLink(origin: string, token: string) // <protocol>://<host>/reset-password/<token>
    | MapLink                                // the conference map link of the registration mail

  datatype Mail = Mail(to: string, subject: string, link: Link)

  const VerifySubject: string := "SOBIE Email Verification"
  const AdminLoginSubject: string := "SOBIE Admin Login Verification"
  const LoginSubject: string := "SOBIE Login Verification"
  const ResetSubject: string := "SOBIE Password Reset"
  const RegistrationSubject: string := "SOBIE Conference Registration Confirmation"

  const MsgPasswordsDoNotMatch: string := "Passwords do not match."
  const MsgCurrentIncorrect: string := "Current password is incorrect."
  const MsgPasswordUpdated: string := "Password successfully updated."
  const MsgRegistered: string := "Conference registration submitted successfully!"

  /** How long a reset link stays valid: one hour, in milliseconds. */
  const ResetWindow: int := 3600000

  /** One document of the `Research` collection (its timestamp is not modelled). */
  datatype Submission = Submission(userId: Id, title: string, abstractText: string,
                                   session: string, coAuthors: seq<string>)

  datatype State = State(
    accounts: map<Id, Account>,
    session: Session,
    outbox: seq<Mail>,
    submissions: seq<Submission>)

  const Initial: State := State(map[], EmptySession, [], [])

  /** The response of a handler; the comment gives the page or text the source sends. */
  datatype Outcome =
    | RedirectVerify            // redirect to /verify
    | SignupPasswordMismatch    // signup page with "Passwords do not match."
    | AccountExists             // "Account already exists."
    | ServerError               // an exception escapes the handler; nothing after it runs
    | InvalidCredentials        // "Invalid Email or Password"
    | VerifyPage                // the verify page, when no token is given
    | InvalidVerificationLink   // "Invalid or expired verification link."
    | AlreadyVerified           // "User already verified. Please log in."
    | FinalVerifyPage           // the final-verify page
    | SessionExpired            // "Session expired."
    | InvalidOrAlreadyVerified  // "Invalid or already verified."
    | RedirectAdminDashboard    // redirect to /admin-dashboard
    | RedirectUserDashboard     // redirect to /user-dashboard
    | InvalidLoginLink          // "Invalid or expired login link."
    | NoAccountFound            // "No account found."
    | ResetEmailSent            // "Reset email sent."
    | ResetLinkInvalid          // "Password reset link is invalid or expired."
    | ResetFormPage             // the reset-password page
    | ResetPasswordMismatch     // "Passwords do not match."
    | InvalidOrExpiredToken     // "Invalid or expired token."
    | PasswordReset             // "Password successfully updated. You may now log in."
    | RedirectLogin             // redirect to /login
    | UserNotFound              // "User not found"
    | UserDashboard(notice: Option<string>) // the dashboard, showing the one-time notice

  datatype Step = Step(st: State, out: Outcome)

  // ---------------------------------------------------------------- lookups

  /** The query filters the handlers use. */
  function EmailIs(email: string): Account -> bool
  {
    (a: Account) => a.email == email
  }

  function UsernameIs(username: string): Account -> bool
  {
    (a: Account) => a.username == username
  }

  function TokenVerifyIs(token: string): Account -> bool
  {
    (a: Account) => a.tokenVerify == Some(token)
  }

  /** `{resetPasswordToken: token, resetPasswordExpires: {$gt: now}}`. */
  function LiveResetToken(token: string, now: int): Account -> bool
  {
    (a: Account) => a.resetPasswordToken == Some(token) &&
                    a.resetPasswordExpires.Some? && a.resetPasswordExpires.value > now
  }

  /** `findOne(filter)`: some document matching the filter, or none when nothing matches. */
  ghost function FindOne(m: map<Id, Account>, p: Account -> bool): (r: Option<Id>)
    ensures r.Some? ==> r.value in m && p(m[r.value])
    ensures r.None? <==> forall j :: j in m ==> !p(m[j])
  {
    if exists j :: j in m && p(m[j]) then
      var j :| j in m && p(m[j]); Some(j)
    else None
  }

  /** At most one document matches the filter. */
  ghost predicate AtMostOne(m: map<Id, Account>, p: Account -> bool)
  {
    forall i, j :: i in m && j in m && p(m[i]) && p(m[j]) ==> i == j
  }

  /** When the filter matches at most one document, `findOne` returns that one. */
  lemma FindOneIsTheMatch(m: map<Id, Account>, p: Account -> bool, id: Id)
    requires AtMostOne(m, p) && id in m && p(m[id])
    ensures FindOne(m, p) == Some(id)
  {
  }

  // ------------------------------------------------------------- invariant

  /** `crypto.randomBytes(20).toString('hex')` has this shape. */
  predicate IsToken(t: string)
  {
    |t| == 40 && forall i :: 0 <= i < |t| ==> t[i] in "0123456789abcdef"
  }

  /**
   * The random generator's guarantee, taken as given: a token it issues has
   * the hex shape and equals no token currently stored in an account or in
   * the session's administrator challenge.
   */
  ghost predicate Fresh(s: State, t: string)
  {
    && IsToken(t)
    && (forall j :: j in s.accounts ==>
          s.accounts[j].tokenVerify != Some(t) && s.accounts[j].resetPasswordToken != Some(t))
    && (s.session.adminLogin.Some? ==> s.session.adminLogin.value.tokenVerify != t)
  }

  ghost predicate VerifyTokensUnique(m: map<Id, Account>)
  {
    forall i, j :: i in m && j in m && m[i].tokenVerify.Some? && m[i].tokenVerify == m[j].tokenVerify ==> i == j
  }

  ghost predicate ResetTokensUnique(m: map<Id, Account>)
  {
    forall i, j ::
      i in m && j in m && m[i].resetPasswordToken.Some? && m[i].resetPasswordToken == m[j].resetPasswordToken ==> i == j
  }

  /** A submission exists for this user with this title. */
  ghost predicate HasSubmission(subs: seq<Submission>, id: Id, title: string)
  {
    exists k :: 0 <= k < |subs| && subs[k].userId == id && subs[k].title == title
  }

  ghost predicate SubmissionsUnique(subs: seq<Submission>)
  {
    forall i, k :: 0 <= i < k < |subs| ==>
      !(subs[i].userId == subs[k].userId && subs[i].title == subs[k].title)
  }

  /**
   * What every state reachable through the handlers modelled here
   * satisfies: both unique indexes hold, no two
   * accounts share a pending token of either kind, every account has its
   * required fields and its reset token and expiry set or cleared together,
   * the administrator challenge's token is no account's pending token, and
   * no user has two submissions with the same title. (`POST /submit-research`,
   * which is not modelled, inserts without that check.)
   */
  ghost predicate Valid(s: State)
  {
    && EmailsUnique(s.accounts)
    && UsernamesUnique(s.accounts)
    && VerifyTokensUnique(s.accounts)
    && ResetTokensUnique(s.accounts)
    && (forall j :: j in s.accounts ==>
          HasRequiredFields(s.accounts[j]) &&
          (s.accounts[j].resetPasswordToken.Some? <==> s.accounts[j].resetPasswordExpires.Some?))
    && (s.session.adminLogin.Some? ==>
          forall j :: j in s.accounts ==>
            s.accounts[j].tokenVerify != Some(s.session.adminLogin.value.tokenVerify))
    && SubmissionsUnique(s.submissions)
  }

  /** In a valid state every lookup the handlers make matches at most one document. */
  lemma LookupsAreUnique(s: State, email: string, username: string, token: string, now: int)
    requires Valid(s)
    ensures AtMostOne(s.accounts, EmailIs(email))
    ensures AtMostOne(s.accounts, UsernameIs(username))
    ensures AtMostOne(s.accounts, TokenVerifyIs(token))
    ensures AtMostOne(s.accounts, LiveResetToken(token, now))
  {
    var m := s.accounts;
    forall i, j | i in m && j in m && EmailIs(email)(m[i]) && EmailIs(email)(m[j]) ensures i == j {
      assert m[i].email == m[j].email;
    }
    forall i, j | i in m && j in m && UsernameIs(username)(m[i]) && UsernameIs(username)(m[j])
      ensures i == j
    {
      assert m[i].username == m[j].username;
    }
    forall i, j | i in m && j in m && TokenVerifyIs(token)(m[i]) && TokenVerifyIs(token)(m[j])
      ensures i == j
    {
      assert m[i].tokenVerify.Some? && m[i].tokenVerify == m[j].tokenVerify;
    }
    forall i, j | i in m && j in m && LiveResetToken(token, now)(m[i]) && LiveResetToken(token, now)(m[j])
      ensures i == j
    {
      assert m[i].resetPasswordToken.Some? && m[i].resetPasswordToken == m[j].resetPasswordToken;
    }
  }

  // ---------------------------------------------------------------- signup

  /** The body of `POST /signup`. */
  datatype SignupForm = SignupForm(firstName: string, lastName: string, email: string,
                                   username: string, password: string, confirmPassword: string)

  ghost predicate EmailTaken(s: State, email: string)
  {
    exists j :: j in s.accounts && s.accounts[j].email == email
  }

  ghost predicate UsernameTaken(s: State, username: string)
  {
    exists j :: j in s.accounts && s.accounts[j].username == username
  }

  /** The account signup creates: the form's identity, the password's hash, schema defaults, the token pending. */
  function SignupAccount(f: SignupForm, token: string): (a: Account)
    ensures a.email == f.email && a.username == f.username
    ensures a.firstName == f.firstName && a.lastName == f.lastName
    ensures Compare(f.password, a.passwordHash)
    ensures !a.isVerified && a.tokenVerify == Some(token)
    ensures a.role == DefaultRole && NoResetPending(a) && NoResearch(a)
  {
    WithDefaults(f.username, Hash(f.password), f.firstName, f.lastName, f.email)
      .(tokenVerify := Some(token), isVerified := false)
  }

  /**
   * `POST /signup` (lines 193-230). The password confirmation is checked
   * first, then both unique fields; `create` fails (an escaping exception)
   * when a required field is empty or the id is taken. Only a created
   * account is mailed; the session is never touched.
   */
  ghost function Signup(s: State, f: SignupForm, id: Id, token: string): (r: Step)
    ensures f.password != f.confirmPassword ==> r == Step(s, SignupPasswordMismatch)
    ensures f.password == f.confirmPassword && (EmailTaken(s, f.email) || UsernameTaken(s, f.username)) ==>
              r == Step(s, AccountExists)
    ensures r.out == RedirectVerify <==>
              f.password == f.confirmPassword && !EmailTaken(s, f.email) && !UsernameTaken(s, f.username) &&
              HasRequiredFields(SignupAccount(f, token)) && id !in s.accounts
    ensures r.out != RedirectVerify ==> r.st == s
    ensures r.out == RedirectVerify ==>
              && r.st.accounts == s.accounts[id := SignupAccount(f, token)]
              && r.st.session == s.session
              && r.st.outbox == s.outbox + [Mail(f.email, VerifySubject, VerifyLink(token))]
              && r.st.submissions == s.submissions
    ensures Valid(s) && Fresh(s, token) ==> Valid(r.st)
  {
    if f.password != f.confirmPassword then Step(s, SignupPasswordMismatch)
    else if FindOne(s.accounts, EmailIs(f.email)).Some? || FindOne(s.accounts, UsernameIs(f.username)).Some? then
      Step(s, AccountExists)
    else
      var a := SignupAccount(f, token);
      if !HasRequiredFields(a) || id in s.accounts then Step(s, ServerError)
      else
        var r := Step(s.(accounts := s.accounts[id := a],
                         outbox := s.outbox + [Mail(f.email, VerifySubject, VerifyLink(token))]),
                      RedirectVerify);
        SignupKeepsValid(s, f, id, token, r.st);
        r
  }

  lemma SignupKeepsValid(s: State, f: SignupForm, id: Id, token: string, t: State)
    requires id !in s.accounts && !EmailTaken(s, f.email) && !UsernameTaken(s, f.username)
    requires HasRequiredFields(SignupAccount(f, token))
    requires t == s.(accounts := s.accounts[id := SignupAccount(f, token)],
                     outbox := s.outbox + [Mail(f.email, VerifySubject, VerifyLink(token))])
    ensures Valid(s) && Fresh(s, token) ==> Valid(t)
  {
    if Valid(s) && Fresh(s, token) {
      InsertKeepsUnique(s.accounts, id, SignupAccount(f, token));
    }
  }

  // ----------------------------------------------------------------- login

  /**
   * `POST /login` (lines 234-271). A password equal to the administrator
   * secret is answered before any account is looked up: the challenge goes
   * into the session only and is mailed to the given address. Otherwise an
   * unknown address and a wrong password give the same answer and change
   * nothing; a match overwrites the account's pending token, whether or not
   * the account is verified, and mails the login link.
   */
  ghost function Login(s: State, adminSecret: string, email: string, password: string, token: string): (r: Step)
    ensures password == adminSecret ==>
              r == Step(s.(session := s.session.(adminLogin := Some(AdminLogin(email, token))),
                           outbox := s.outbox + [Mail(email, AdminLoginSubject, VerifyLoginLink(token))]),
                        RedirectVerify)
    ensures r.out == RedirectVerify || r.out == InvalidCredentials
    ensures r.out == InvalidCredentials ==> r.st == s
    ensures password != adminSecret ==>
              (r.out == InvalidCredentials <==>
                 FindOne(s.accounts, EmailIs(email)).None? ||
                 !Compare(password, s.accounts[FindOne(s.accounts, EmailIs(email)).value].passwordHash))
    ensures password != adminSecret && r.out == RedirectVerify ==>
              var id := FindOne(s.accounts, EmailIs(email)).value;
              && r.st.accounts == s.accounts[id := s.accounts[id].(tokenVerify := Some(token))]
              && r.st.session == s.session
              && r.st.outbox == s.outbox + [Mail(email, LoginSubject, VerifyLoginLink(token))]
              && r.st.submissions == s.submissions
    ensures Valid(s) && Fresh(s, token) ==> Valid(r.st)
  {
    if password == adminSecret then
      Step(s.(session := s.session.(adminLogin := Some(AdminLogin(email, token))),
              outbox := s.outbox + [Mail(email, AdminLoginSubject, VerifyLoginLink(token))]),
           RedirectVerify)
    else
      match FindOne(s.accounts, EmailIs(email))
      case None => Step(s, InvalidCredentials)
      case Some(id) =>
        if !Compare(password, s.accounts[id].passwordHash) then Step(s, InvalidCredentials)
        else
          var t := s.(accounts := s.accounts[id := s.accounts[id].(tokenVerify := Some(token))],
                      outbox := s.outbox + [Mail(email, LoginSubject, VerifyLoginLink(token))]);
          SetTokenKeepsValid(s, id, token, t);
          Step(t, RedirectVerify)
  }

  lemma SetTokenKeepsValid(s: State, id: Id, token: string, t: State)
    requires id in s.accounts
    requires t.accounts == s.accounts[id := s.accounts[id].(tokenVerify := Some(token))]
    requires t.session == s.session && t.submissions == s.submissions
    ensures Valid(s) && Fresh(s, token) ==> Valid(t)
  {
    if Valid(s) && Fresh(s, token) {
      InsertKeepsUnique(s.accounts, id, t.accounts[id]);
    }
  }

  // ------------------------------------------------------ signup confirmation

  /**
   * `GET /verify` (lines 274-284). Without a token it only shows the page.
   * A token no account holds is invalid; an account already verified is
   * refused; otherwise only `session.verifiedUserId` is set. No account
   * field and no mail changes on any path.
   */
  ghost function FollowVerifyLink(s: State, token: string): (r: Step)
    ensures token == "" ==> r == Step(s, VerifyPage)
    ensures r.out == VerifyPage <==> token == ""
    ensures r.st.accounts == s.accounts && r.st.outbox == s.outbox && r.st.submissions == s.submissions
    ensures r.out == InvalidVerificationLink <==>
              token != "" && forall j :: j in s.accounts ==> s.accounts[j].tokenVerify != Some(token)
    ensures r.out == AlreadyVerified <==>
              token != "" && FindOne(s.accounts, TokenVerifyIs(token)).Some? &&
              s.accounts[FindOne(s.accounts, TokenVerifyIs(token)).value].isVerified
    ensures r.out != FinalVerifyPage ==> r.st == s
    ensures r.out == FinalVerifyPage ==>
              var id := FindOne(s.accounts, TokenVerifyIs(token)).value;
              !s.accounts[id].isVerified && r.st.session == s.session.(verifiedUserId := Some(id))
    ensures r.out in {VerifyPage, InvalidVerificationLink, AlreadyVerified, FinalVerifyPage}
    ensures Valid(s) ==> Valid(r.st)
  {
    if token == "" then Step(s, VerifyPage)
    else
      match FindOne(s.accounts, TokenVerifyIs(token))
      case None => Step(s, InvalidVerificationLink)
      case Some(id) =>
        if s.accounts[id].isVerified then Step(s, AlreadyVerified)
        else Step(s.(session := s.session.(verifiedUserId := Some(id))), FinalVerifyPage)
  }

  /**
   * `POST /finalize-signup` (lines 286-301). Fails without the session
   * marker, and for a missing or already verified account; otherwise marks
   * the account verified, clears its token, moves the marker to `userId`,
   * and routes by the stored role. It never grants administrator access.
   */
  ghost function FinalizeSignup(s: State): (r: Step)
    ensures s.session.verifiedUserId.None? ==> r == Step(s, SessionExpired)
    ensures r.out == SessionExpired <==> s.session.verifiedUserId.None?
    ensures r.out == InvalidOrAlreadyVerified <==>
              s.session.verifiedUserId.Some? &&
              (s.session.verifiedUserId.value !in s.accounts || s.accounts[s.session.verifiedUserId.value].isVerified)
    ensures r.out in {SessionExpired, InvalidOrAlreadyVerified, RedirectAdminDashboard, RedirectUserDashboard}
    ensures r.out in {SessionExpired, InvalidOrAlreadyVerified} ==> r.st == s
    ensures r.out in {RedirectAdminDashboard, RedirectUserDashboard} ==>
              var id := s.session.verifiedUserId.value;
              && id in s.accounts && !s.accounts[id].isVerified
              && r.st.accounts == s.accounts[id := s.accounts[id].(isVerified := true, tokenVerify := None)]
              && r.st.session == s.session.(verifiedUserId := None, userId := Some(id))
              && r.st.outbox == s.outbox && r.st.submissions == s.submissions
              && (r.out == RedirectAdminDashboard <==> s.accounts[id].role == Admin)
    ensures r.st.session.isAdmin == s.session.isAdmin
    ensures Valid(s) ==> Valid(r.st)
  {
    match s.session.verifiedUserId
    case None => Step(s, SessionExpired)
    case Some(id) =>
      if id !in s.accounts || s.accounts[id].isVerified then Step(s, InvalidOrAlreadyVerified)
      else
        var a := s.accounts[id];
        var t := s.(accounts := s.accounts[id := a.(isVerified := true, tokenVerify := None)],
                    session := s.session.(verifiedUserId := None, userId := Some(id)));
        assert Valid(s) ==> Valid(t) by {
          if Valid(s) { ReplaceKeepsValid(s, t, id, t.accounts[id]); }
        }
        Step(t, if a.role == Admin then RedirectAdminDashboard else RedirectUserDashboard)
  }

  // ----------------------------------------------------- login confirmation

  /** The session holds an administrator challenge with this token. */
  predicate AdminChallengeMatches(s: State, token: string)
  {
    s.session.adminLogin.Some? && s.session.adminLogin.value.tokenVerify == token
  }

  /**
   * `GET /verify-login` (lines 304-323). The administrator challenge is
   * tried first: its token sets `isAdmin` and drops the challenge without
   * reading any account. Otherwise the account holding the token has it
   * cleared and the session is authenticated as that account, whatever its
   * `isVerified`; a token nobody holds is refused and changes nothing.
   */
  ghost function VerifyLogin(s: State, token: string): (r: Step)
    ensures AdminChallengeMatches(s, token) ==>
              r == Step(s.(session := s.session.(isAdmin := true, adminLogin := None)), RedirectAdminDashboard)
    ensures r.out == RedirectAdminDashboard <==> AdminChallengeMatches(s, token)
    ensures !AdminChallengeMatches(s, token) ==>
              && r.st.session.isAdmin == s.session.isAdmin
              && r.st.session.adminLogin == s.session.adminLogin
              && (r.out == InvalidLoginLink <==> forall j :: j in s.accounts ==> s.accounts[j].tokenVerify != Some(token))
    ensures r.out in {RedirectAdminDashboard, InvalidLoginLink, RedirectUserDashboard}
    ensures r.out == InvalidLoginLink ==> r.st == s
    ensures r.out == RedirectUserDashboard ==>
              var id := FindOne(s.accounts, TokenVerifyIs(token)).value;
              && r.st.accounts == s.accounts[id := s.accounts[id].(tokenVerify := None)]
              && r.st.session == s.session.(userId := Some(id))
              && r.st.outbox == s.outbox && r.st.submissions == s.submissions
    ensures Valid(s) ==> Valid(r.st)
  {
    if AdminChallengeMatches(s, token) then
      Step(s.(session := s.session.(isAdmin := true, adminLogin := None)), RedirectAdminDashboard)
    else
      match FindOne(s.accounts, TokenVerifyIs(token))
      case None => Step(s, InvalidLoginLink)
      case Some(id) =>
        var t := s.(accounts := s.accounts[id := s.accounts[id].(tokenVerify := None)],
                    session := s.session.(userId := Some(id)));
        assert Valid(s) ==> Valid(t) by {
          if Valid(s) { ReplaceKeepsValid(s, t, id, t.accounts[id]); }
        }
        Step(t, RedirectUserDashboard)
  }

  // --------------------------------------------------------- password reset

  /**
   * `POST /forgot-password` (lines 327-345). An unknown address changes
   * nothing; otherwise the account gets a new reset token valid for one
   * hour from `now`, replacing any earlier pair, and the link (built from
   * the request's own origin) is mailed.
   */
  ghost function ForgotPassword(s: State, email: string, origin: string, token: string, now: int): (r: Step)
    ensures r.out == NoAccountFound <==> forall j :: j in s.accounts ==> s.accounts[j].email != email
    ensures r.out in {NoAccountFound, ResetEmailSent}
    ensures r.out == NoAccountFound ==> r.st == s
    ensures r.out == ResetEmailSent ==>
              var id := FindOne(s.accounts, EmailIs(email)).value;
              && r.st.accounts == s.accounts[id := s.accounts[id].(resetPasswordToken := Some(token),
                                                                     resetPasswordExpires := Some(now + ResetWindow))]
              && r.st.session == s.session
              && r.st.outbox == s.outbox + [Mail(email, ResetSubject, ResetLink(origin, token))]
              && r.st.submissions == s.submissions
    ensures Valid(s) && Fresh(s, token) ==> Valid(r.st)
  {
    match FindOne(s.accounts, EmailIs(email))
    case None => Step(s, NoAccountFound)
    case Some(id) =>
      var t := s.(accounts := s.accounts[id := s.accounts[id].(resetPasswordToken := Some(token),
                                                               resetPasswordExpires := Some(now + ResetWindow))],
                  outbox := s.outbox + [Mail(email, ResetSubject, ResetLink(origin, token))]);
      assert Valid(s) && Fresh(s, token) ==> Valid(t) by {
        if Valid(s) && Fresh(s, token) { InsertKeepsUnique(s.accounts, id, t.accounts[id]); }
      }
      Step(t, ResetEmailSent)
  }

  /**
   * `GET /reset-password/:token` (lines 38-46): the form is shown exactly
   * when some account holds this reset token with an expiry strictly after
   * `now`; the answer does not say which condition failed.
   */
  ghost function ResetPasswordForm(s: State, token: string, now: int): (o: Outcome)
    ensures o == ResetFormPage <==> exists j :: j in s.accounts && LiveResetToken(token, now)(s.accounts[j])
    ensures o != ResetFormPage ==> o == ResetLinkInvalid
  {
    if FindOne(s.accounts, LiveResetToken(token, now)).Some? then ResetFormPage else ResetLinkInvalid
  }

  /**
   * `POST /reset-password/:token` (lines 347-367). Mismatched passwords are
   * refused before the token is looked up; the token is re-checked against
   * `now`; on success the hash is replaced and both reset fields cleared,
   * while the verification fields stay as they are.
   */
  ghost function ResetPassword(s: State, token: string, password: string, confirmPassword: string, now: int): (r: Step)
    ensures password != confirmPassword ==> r == Step(s, ResetPasswordMismatch)
    ensures r.out == ResetPasswordMismatch <==> password != confirmPassword
    ensures password == confirmPassword ==>
              (r.out == InvalidOrExpiredToken <==>
                 forall j :: j in s.accounts ==> !LiveResetToken(token, now)(s.accounts[j]))
    ensures r.out in {ResetPasswordMismatch, InvalidOrExpiredToken, PasswordReset}
    ensures r.out != PasswordReset ==> r.st == s
    ensures r.out == PasswordReset ==>
              var id := FindOne(s.accounts, LiveResetToken(token, now)).value;
              && r.st.accounts == s.accounts[id := s.accounts[id].(passwordHash := Hash(password),
                                                                     resetPasswordToken := None,
                                                                     resetPasswordExpires := None)]
              && r.st.session == s.session && r.st.outbox == s.outbox && r.st.submissions == s.submissions
    ensures Valid(s) ==> Valid(r.st)
  {
    if password != confirmPassword then Step(s, ResetPasswordMismatch)
    else
      match FindOne(s.accounts, LiveResetToken(token, now))
      case None => Step(s, InvalidOrExpiredToken)
      case Some(id) =>
        var t := s.(accounts := s.accounts[id := s.accounts[id].(passwordHash := Hash(password),
                                                                 resetPasswordToken := None,
                                                                 resetPasswordExpires := None)]);
        assert Valid(s) ==> Valid(t) by {
          if Valid(s) { ReplaceKeepsValid(s, t, id, t.accounts[id]); }
        }
        Step(t, PasswordReset)
  }

  /**
   * `POST /update-password` (lines 369-390). Needs a logged-in session; the
   * confirmation is checked before the account is read; a missing account
   * makes reading its hash throw; the outcome of every other path is left
   * as the one-time dashboard notice. Only the hash changes on success.
   */
  ghost function UpdatePassword(s: State, currentPassword: string, newPassword: string, confirmNewPassword: string): (r: Step)
    ensures s.session.userId.None? ==> r == Step(s, RedirectLogin)
    ensures r.out == RedirectLogin <==> s.session.userId.None?
    ensures s.session.userId.Some? && newPassword != confirmNewPassword ==>
              r == Step(s.(session := s.session.(successMsg := Some(MsgPasswordsDoNotMatch))), RedirectUserDashboard)
    ensures r.out == ServerError <==>
              s.session.userId.Some? && newPassword == confirmNewPassword && s.session.userId.value !in s.accounts
    ensures r.out in {RedirectLogin, ServerError, RedirectUserDashboard}
    ensures r.out in {RedirectLogin, ServerError} ==> r.st == s
    ensures r.st.session.successMsg == Some(MsgPasswordUpdated) && r.out == RedirectUserDashboard <==>
              && s.session.userId.Some? && newPassword == confirmNewPassword
              && s.session.userId.value in s.accounts
              && Compare(currentPassword, s.accounts[s.session.userId.value].passwordHash)
    ensures r.out == RedirectUserDashboard && r.st.session.successMsg == Some(MsgCurrentIncorrect) <==>
              && s.session.userId.Some? && newPassword == confirmNewPassword
              && s.session.userId.value in s.accounts
              && !Compare(currentPassword, s.accounts[s.session.userId.value].passwordHash)
    ensures r.out == RedirectUserDashboard && r.st.session.successMsg == Some(MsgPasswordUpdated) ==>
              var id := s.session.userId.value;
              r.st.accounts == s.accounts[id := s.accounts[id].(passwordHash := Hash(newPassword))]
    ensures r.st.session.successMsg != Some(MsgPasswordUpdated) ==> r.st.accounts == s.accounts
    ensures r.out == RedirectUserDashboard ==>
              r.st.session.successMsg in {Some(MsgPasswordsDoNotMatch), Some(MsgCurrentIncorrect), Some(MsgPasswordUpdated)}
    ensures r.st.session == s.session.(successMsg := r.st.session.successMsg)
    ensures r.st.outbox == s.outbox && r.st.submissions == s.submissions
    ensures Valid(s) ==> Valid(r.st)
  {
    match s.session.userId
    case None => Step(s, RedirectLogin)
    case Some(id) =>
      if newPassword != confirmNewPassword then
        Step(s.(session := s.session.(successMsg := Some(MsgPasswordsDoNotMatch))), RedirectUserDashboard)
      else if id !in s.accounts then Step(s, ServerError)
      else if !Compare(currentPassword, s.accounts[id].passwordHash) then
        Step(s.(session := s.session.(successMsg := Some(MsgCurrentIncorrect))), RedirectUserDashboard)
      else
        var b := s.accounts[id].(passwordHash := Hash(newPassword));
        var t := s.(accounts := s.accounts[id := b],
                    session := s.session.(successMsg := Some(MsgPasswordUpdated)));
        assert Valid(s) ==> Valid(t) by {
          if Valid(s) { ReplaceKeepsValid(s, t, id, b); }
        }
        Step(t, RedirectUserDashboard)
  }

  // ---------------------------------------------------------------- profile

  /**
   * The submissions after a profile update: a researcher's non-empty title
   * gets a submission unless the user already has one with that title.
   */
  ghost function SubmissionsAfterProfile(subs: seq<Submission>, id: Id, f: ProfileForm): (r: seq<Submission>)
    ensures f.role == "researcher" && f.researchTitle != "" ==> HasSubmission(r, id, f.researchTitle)
    ensures r == subs ||
              (f.role == "researcher" && f.researchTitle != "" && !HasSubmission(subs, id, f.researchTitle) &&
               r == subs + [Submission(id, f.researchTitle, f.researchAbstract, f.sessionPreference,
                                       ParseCoAuthors(f.coAuthorsRawInput))])
    ensures SubmissionsUnique(subs) ==> SubmissionsUnique(r)
  {
    if f.role == "researcher" && f.researchTitle != "" && !HasSubmission(subs, id, f.researchTitle) then
      var r := subs + [Submission(id, f.researchTitle, f.researchAbstract, f.sessionPreference,
                                  ParseCoAuthors(f.coAuthorsRawInput))];
      assert r[|subs|].userId == id && r[|subs|].title == f.researchTitle;
      assert r[..|subs|] == subs;
      assert SubmissionsUnique(subs) ==> SubmissionsUnique(r) by {
        if SubmissionsUnique(subs) { AppendKeepsSubmissionsUnique(subs, r, id, f.researchTitle); }
      }
      r
    else subs
  }

  /**
   * `POST /profile` (lines 394-491). Needs a logged-in session and an
   * existing account. A role outside the enum makes `save` throw, after
   * which nothing is stored or sent. Otherwise the normalised profile is
   * stored, the submissions are updated, the confirmation mail is sent to
   * the account's address and the one-time notice is set.
   */
  ghost function UpdateProfile(s: State, f: ProfileForm): (r: Step)
    ensures s.session.userId.None? ==> r == Step(s, RedirectLogin)
    ensures r.out == RedirectLogin <==> s.session.userId.None?
    ensures r.out == UserNotFound <==> s.session.userId.Some? && s.session.userId.value !in s.accounts
    ensures r.out == ServerError <==>
              s.session.userId.Some? && s.session.userId.value in s.accounts && ParseRole(f.role).None?
    ensures r.out in {RedirectLogin, UserNotFound, ServerError, RedirectUserDashboard}
    ensures r.out != RedirectUserDashboard ==> r.st == s
    ensures r.out == RedirectUserDashboard ==>
              var id := s.session.userId.value;
              && id in s.accounts && ParseRole(f.role).Some?
              && r.st.accounts == s.accounts[id := ApplyProfile(s.accounts[id], ParseRole(f.role).value, Normalize(f))]
              && r.st.session == s.session.(successMsg := Some(MsgRegistered))
              && r.st.outbox == s.outbox + [Mail(s.accounts[id].email, RegistrationSubject, MapLink)]
              && r.st.submissions == SubmissionsAfterProfile(s.submissions, id, f)
    ensures Valid(s) ==> Valid(r.st)
  {
    match s.session.userId
    case None => Step(s, RedirectLogin)
    case Some(id) =>
      if id !in s.accounts then Step(s, UserNotFound)
      else
        match ParseRole(f.role)
        case None => Step(s, ServerError)
        case Some(role) =>
          var a := s.accounts[id];
          var b := ApplyProfile(a, role, Normalize(f));
          var t := State(s.accounts[id := b],
                         s.session.(successMsg := Some(MsgRegistered)),
                         s.outbox + [Mail(a.email, RegistrationSubject, MapLink)],
                         SubmissionsAfterProfile(s.submissions, id, f));
          assert Valid(s) ==> Valid(t) by {
            if Valid(s) { ReplaceKeepsValid(s, t, id, b); }
          }
          Step(t, RedirectUserDashboard)
  }

  /**
   * Replacing an account by one with the same address and username, the
   * same or cleared tokens, and its required fields keeps a valid state
   * valid, provided the administrator challenge is unchanged and the
   * submissions stay unique.
   */
  lemma ReplaceKeepsValid(s: State, t: State, id: Id, b: Account)
    requires Valid(s) && id in s.accounts
    requires b.email == s.accounts[id].email && b.username == s.accounts[id].username
    requires b.tokenVerify == s.accounts[id].tokenVerify || b.tokenVerify == None
    requires || (b.resetPasswordToken == s.accounts[id].resetPasswordToken &&
                 b.resetPasswordExpires == s.accounts[id].resetPasswordExpires)
             || (b.resetPasswordToken == None && b.resetPasswordExpires == None)
    requires HasRequiredFields(b)
    requires t.accounts == s.accounts[id := b] && t.session.adminLogin == s.session.adminLogin
    requires SubmissionsUnique(t.submissions)
    ensures Valid(t)
  {
    InsertKeepsUnique(s.accounts, id, b);
  }

  lemma AppendKeepsSubmissionsUnique(subs: seq<Submission>, subs': seq<Submission>, id: Id, title: string)
    requires SubmissionsUnique(subs)
    requires subs' == subs || (!HasSubmission(subs, id, title) && |subs'| == |subs| + 1 &&
                                subs'[..|subs|] == subs && subs'[|subs|].userId == id && subs'[|subs|].title == title)
    ensures SubmissionsUnique(subs')
  {
    if subs' != subs {
      forall i, k | 0 <= i < k < |subs'| ensures !(subs'[i].userId == subs'[k].userId && subs'[i].title == subs'[k].title) {
        assert subs'[i] == subs[i];
        if k < |subs| { assert subs'[k] == subs[k]; }
      }
    }
  }

  // ------------------------------------------------- dashboard notice, logout

  /**
   * The part of `GET /user-dashboard` (lines 49-76) that touches the
   * session: the one-time notice is shown once and deleted. Without a
   * session it redirects; for a missing account `user._id` throws before
   * the notice is read.
   */
  ghost function ViewDashboard(s: State): (r: Step)
    ensures s.session.userId.None? ==> r == Step(s, RedirectLogin)
    ensures r.out.UserDashboard? <==> s.session.userId.Some? && s.session.userId.value in s.accounts
    ensures !r.out.UserDashboard? ==> r.st == s
    ensures r.out.UserDashboard? ==>
              r.out.notice == s.session.successMsg &&
              r.st == s.(session := s.session.(successMsg := None))
    ensures Valid(s) ==> Valid(r.st)
  {
    match s.session.userId
    case None => Step(s, RedirectLogin)
    case Some(id) =>
      if id !in s.accounts then Step(s, ServerError)
      else Step(s.(session := s.session.(successMsg := None)), UserDashboard(s.session.successMsg))
  }

  /** `GET /logout` (lines 494-502): every session field is dropped; nothing else changes. */
  ghost function Logout(s: State): (r: Step)
    ensures r.st.session == EmptySession && r.out == RedirectLogin
    ensures r.st.accounts == s.accounts && r.st.outbox == s.outbox && r.st.submissions == s.submissions
    ensures Valid(s) ==> Valid(r.st)
  {
    Step(s.(session := EmptySession), RedirectLogin)
  }
}

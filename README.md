# SOBIE portal: credential and verification state machine in Dafny

This project models the account-verification and credential handlers of the
SOBIE conference portal (`routes/authentication.js`) over the account record
of `models/userModel.js`, and proves properties of them.

The state is the account collection (a map from `_id` to an `Account`), the
session of one browser, the list of mails handed to the mail transporter and
the research submissions. It exists in two forms:

- `AuthSpec` (auth_spec.dfy) gives each route handler as a ghost transition
  from the state before the request to the state after it plus the response
  (an `Outcome` in place of the rendered page or text). Each transition's
  contract states:
  - which checks run and in which order;
  - that every rejected request leaves the state unchanged, apart from the
    one-time dashboard notice that `POST /update-password` sets;
  - exactly which fields a successful request changes;
  - that the invariant `Valid` is kept. `Valid` says both unique indexes hold,
    pending and reset tokens are unique, required fields are present, a reset
    token and its expiry are set and cleared together, the administrator
    challenge's token is no account's pending token, and no user has two submissions with one title.
- `AuthRoutes.Portal` (auth_routes.dfy) is a class with those four fields and
  one method per handler. Each method updates the looked-up account and the
  session step by step, as the handler does. Each is proved to end in the
  state and response of its `AuthSpec` transition, with `Valid()` kept.

`AuthProperties` (auth_properties.dfy) relates several requests. Among
other things it shows that:
- a signup confirms end to end;
- a login overwrites a pending signup token;
- a reset link lives one hour, is superseded by a newer one and works once;
- the administrator challenge never touches an account.

`CoAuthors` gives the JavaScript meaning of
`raw.split(',').map(n => n.trim()).filter(Boolean)`. `Registration` gives the
normalisation of the profile form by role and student status.

How the external pieces are modelled:
- A token from `crypto.randomBytes(20).toString('hex')` is a parameter. The
  requires clause `Fresh` stands for the generator's guarantee: 40 lower-case
  hex digits, equal to no token held by an account or by the session's
  administrator challenge.
- `Date.now()` is a parameter `now` (milliseconds).
- The new document's `_id` is a parameter `id`. An `id` already in the map
  makes the insert fail, like a duplicate key.
- `ADMIN_SECRET_PASSWORD` is the constant field `adminSecret`.
- The host of the current request is a parameter `origin`.
- bcrypt is `Hash` and `Compare` over the first 72 bytes of the password's
  UTF-8 encoding (`UserModel.BcryptKey`). A digest verifies against its own
  password and, among passwords of at most 72 bytes, against no other one.
- Sending a mail appends to `outbox`.
- An exception that escapes a handler (a failing validator, a property read
  on a missing document) is the outcome `ServerError`. Nothing the handler
  would have done after that point happens.

Points where one might expect other behaviour; the model follows the code:
- One might expect "verified implies no pending token" to hold of every
  account. It does not, because a login sets `tokenVerify` on a verified
  account (routes/authentication.js:258-260).
  `AuthProperties.VerifiedAccountCanHoldToken` proves this, and `Valid` does
  not contain that invariant.
- A login looks the account up by `email` only, not by username
  (routes/authentication.js:252).
- A unique-index violation found at write time is not turned into a
  "duplicate account" answer; the code has no handler for it. Because the
  model is sequential, the check before `create` always rules it out.
- The login link does not check `isVerified`, which may or may not be
  intended. `AuthProperties.UnverifiedLoginAuthenticates` proves that an
  unverified account gets an authenticated session.
- `userSchema` declares no path for `isStudent`, the student and faculty
  fields, or `hotelAgree`. Mongoose's strict schema does not save them.
  `Registration.Normalize` computes them, and `Registration.ApplyProfile`
  stores only the schema paths.
- Mongoose's `required` validator rejects an empty string. A signup with an
  empty name, address or username therefore fails in `create`
  (`ServerError`), after the duplicate checks and before any mail is sent.

## Model

| member | source | states |
|---|---|---|
| `UserModel.RoleName` | models/userModel.js:15-19 | each role's stored string is accepted by the enum validator and parses back to that role |
| `UserModel.ParseRole` | models/userModel.js:15-19 | a string is accepted exactly when it is one of 'attendee', 'researcher', 'admin', 'null' |
| `UserModel.Utf8Char` | routes/authentication.js:208 | a character encodes in one to four bytes, continuation bytes are 0x80-0xBF, and the first byte gives the length |
| `UserModel.DecodeUtf8Char` | routes/authentication.js:208 | decoding a character's bytes gives the character back |
| `UserModel.Utf8Injective` | routes/authentication.js:208 | two strings with the same UTF-8 bytes are equal |
| `UserModel.Hash` | routes/authentication.js:208 | the digest of a password verifies against that password |
| `UserModel.ShortPasswordsDistinct` | routes/authentication.js:255 | when both passwords encode in at most 72 bytes, one verifies against the other's digest exactly when they are equal |
| `UserModel.LongPasswordsCollide` | routes/authentication.js:255 | two passwords whose first 72 UTF-8 bytes agree verify against each other's digest |
| `UserModel.WithDefaults` | models/userModel.js:5-60 | a new document has role attendee, is unverified with no pending token, has no reset pending and no research; the required-field check accepts it exactly when username, names and email are non-empty |
| `UserModel.InsertKeepsUnique` | models/userModel.js:6-32 | adding or replacing a document whose email and username no other document has keeps both unique indexes |
| `CoAuthors.TrimStartSpec` | routes/authentication.js:426 | removing leading spaces leaves a suffix of the input that does not start with a space, and everything removed is space |
| `CoAuthors.TrimEndSpec` | routes/authentication.js:426 | removing trailing spaces leaves a prefix of the input that does not end with a space, and everything removed is space |
| `CoAuthors.Trim` | routes/authentication.js:426 | `trim()` leaves no space at either end |
| `CoAuthors.TrimKeepsOnlyInput` | routes/authentication.js:426 | every character `trim()` returns comes from its input |
| `CoAuthors.TrimEmpty` | routes/authentication.js:426 | `trim()` returns the empty string exactly when the input is all space |
| `CoAuthors.TrimTrimmed` | routes/authentication.js:426 | a string with no space at either end is its own trim |
| `CoAuthors.TrimKeepsMiddle` | routes/authentication.js:426 | `trim()` returns a contiguous middle of the input with only spaces before it and only spaces after it |
| `CoAuthors.Split` | routes/authentication.js:426 | `split(',')` yields at least one piece and no piece contains a comma |
| `CoAuthors.JoinSplit` | routes/authentication.js:426 | joining the pieces of a split with commas gives back the original string |
| `CoAuthors.SplitJoin` | routes/authentication.js:426 | splitting comma-free pieces joined with commas gives back the pieces |
| `CoAuthors.DropEmptyMembers` | routes/authentication.js:426 | `filter(Boolean)` keeps a string exactly when it is non-empty and in the input |
| `CoAuthors.DropEmptyAppend` | routes/authentication.js:426 | `filter(Boolean)` of two lists joined end to end is the two filtered lists in the same order |
| `CoAuthors.DropEmptyKeepsAll` | routes/authentication.js:426 | `filter(Boolean)` returns a list with no empty string unchanged |
| `CoAuthors.TrimAndDropEmpty` | routes/authentication.js:426 | trimming and filtering yields at most one entry per piece |
| `CoAuthors.TrimAndDropEmptyAppend` | routes/authentication.js:426 | cleaning two piece lists joined end to end gives the two cleaned lists in the same order |
| `CoAuthors.TrimAndDropEmptyKeeps` | routes/authentication.js:426 | every piece that is not blank is kept, trimmed |
| `CoAuthors.TrimAndDropEmptyOnlyTrims` | routes/authentication.js:426 | everything kept is non-empty and is one of the pieces, trimmed |
| `CoAuthors.TrimAndDropEmptyNames` | routes/authentication.js:426 | pieces without commas, trimmed and filtered, are non-empty, trimmed, comma-free names |
| `CoAuthors.ParseCoAuthors` | routes/authentication.js:425-427 | the parsed list holds only non-empty, trimmed, comma-free names, at most one per comma-separated piece |
| `CoAuthors.NamesSurviveCleaning` | routes/authentication.js:426 | pieces that are already non-empty trimmed names pass through trimming and filtering unchanged |
| `CoAuthors.ParseIsCleanedSplit` | routes/authentication.js:425-427 | the guard for an empty string gives the same list as splitting and cleaning it |
| `CoAuthors.ParseCoAuthorsMembers` | routes/authentication.js:425-427 | a name is in the parsed list exactly when it is non-empty and is the trim of some comma-separated piece |
| `CoAuthors.JoinAppend` | routes/authentication.js:426 | joining two non-empty lists of pieces puts exactly one comma between their joins |
| `CoAuthors.SplitAppend` | routes/authentication.js:426 | splitting two strings joined by a comma gives the pieces of the first followed by the pieces of the second |
| `CoAuthors.ParseCoAuthorsAppend` | routes/authentication.js:425-427 | the parse of `a,b` is the parse of `a` followed by the parse of `b`, so order is kept |
| `CoAuthors.ParseOnePiece` | routes/authentication.js:425-427 | an input without a comma parses to its trimmed self, or to nothing when it is blank; with `ParseCoAuthorsAppend` this fixes the result for every input |
| `CoAuthors.ParseJoinRoundTrip` | routes/authentication.js:425-427 | a list of names written out with commas parses back to the same list |
| `CoAuthors.ParseIdempotent` | routes/authentication.js:425-427 | parsing the comma-joined result of a parse returns the same list |
| `Registration.Normalize` | routes/authentication.js:415-442 | a non-researcher gets hasResearch false and blank research title, abstract, session preference and co-authors; a researcher has research exactly when the title is non-empty and gets the parsed co-authors; student fields are kept only for a student and faculty fields only for a non-student; the result is always consistent |
| `Registration.ConsistentIsFixpoint` | routes/authentication.js:415-442 | every consistent profile, submitted again, normalises to itself |
| `Registration.NormalizeIdempotent` | routes/authentication.js:415-442 | normalising a normalised profile changes nothing |
| `Registration.ApplyProfile` | routes/authentication.js:416-442 | saving a profile sets the role and the research paths and leaves identity, password, verification and reset fields untouched |
| `AuthSpec.FindOne` | routes/authentication.js:252 | `findOne` returns a matching document, and none exactly when no document matches |
| `AuthSpec.FindOneIsTheMatch` | routes/authentication.js:278 | when at most one document matches, `findOne` returns that one |
| `AuthSpec.LookupsAreUnique` | models/userModel.js:6-32 | in a valid state the email, username, pending-token and live-reset-token lookups each match at most one document |
| `AuthSpec.SignupAccount` | routes/authentication.js:208-220 | the created account carries the form's identity and a hash of its password, is unverified with the new token pending, has the default role, no reset and no research |
| `AuthSpec.Signup` | routes/authentication.js:193-230 | mismatched passwords are refused before any lookup; an existing email or username is refused; an account is created exactly when neither exists, required fields are present and the id is free; a refusal changes nothing; success adds only that account, mails its verification link to the form's address, leaves the session alone and keeps Valid |
| `AuthSpec.Login` | routes/authentication.js:234-271 | the administrator secret is handled before any lookup and only stores the challenge in the session and mails it; otherwise an unknown email and a wrong password give the same refusal and change nothing; success overwrites only the account's pending token and mails the login link; Valid is kept |
| `AuthSpec.FollowVerifyLink` | routes/authentication.js:274-284 | no account is ever changed; the page is shown exactly when there is no token; an unknown token is invalid; a verified account is refused; otherwise only `verifiedUserId` is set to the matched account |
| `AuthSpec.FinalizeSignup` | routes/authentication.js:286-301 | the session is expired exactly when it has no marker; a missing or verified account is refused; otherwise the account becomes verified with no token, the marker moves to `userId`, the routing depends only on role 'admin', and `isAdmin` is never set |
| `AuthSpec.VerifyLogin` | routes/authentication.js:304-323 | the administrator dashboard is reached exactly when the session's challenge holds this token, which is tried first and only sets `isAdmin` and drops the challenge; otherwise a token no account holds is refused and changes nothing, and a match clears that token and sets `userId` without reading `isVerified` |
| `AuthSpec.ForgotPassword` | routes/authentication.js:327-345 | an unknown email changes nothing; otherwise the reset token and an expiry of now + 3600000 replace any earlier pair and the link built from the request origin is mailed |
| `AuthSpec.ResetPasswordForm` | routes/authentication.js:38-46 | the form is shown exactly when some account holds the token with an expiry strictly after now |
| `AuthSpec.ResetPassword` | routes/authentication.js:347-367 | the mismatch refusal is given exactly when the passwords differ, before the lookup; the token and expiry are re-checked; success replaces only the hash and clears both reset fields; refusals change nothing |
| `AuthSpec.UpdatePassword` | routes/authentication.js:369-390 | redirects to login exactly when there is no session; the confirmation is checked before the account is read; a missing account fails with nothing changed; the hash changes, to a hash of the new password, exactly when the current password verifies, and the notice is 'Current password is incorrect.' exactly when the confirmation matches, the account exists and the current password does not verify; every other path only sets the one-time notice |
| `AuthSpec.SubmissionsAfterProfile` | routes/authentication.js:444-461 | a researcher's non-empty title ends up with a submission, one is appended only when none with that title exists, and uniqueness of (user, title) is kept |
| `AuthSpec.UpdateProfile` | routes/authentication.js:394-491 | redirects to login exactly when there is no session; a missing account is reported; a role outside the enum fails at save and changes nothing; success stores the normalised profile, updates submissions, mails the confirmation to the account's address, sets the notice and keeps Valid |
| `AuthSpec.ViewDashboard` | routes/authentication.js:49-66 | the notice is shown with the dashboard and deleted; without a session or account nothing changes |
| `AuthSpec.Logout` | routes/authentication.js:494-502 | every session field is dropped and nothing else changes |
| `AuthRoutes.Portal.constructor` | models/userModel.js:67 | the initial state has no accounts, an empty session and no mail, and is valid |
| `AuthRoutes.Portal.FindOne` | routes/authentication.js:252 | returns the document `AuthSpec.FindOne` names |
| `AuthRoutes.Portal.Signup` | routes/authentication.js:193-230 | ends in the state and response of `AuthSpec.Signup` and keeps Valid |
| `AuthRoutes.Portal.Login` | routes/authentication.js:234-271 | ends in the state and response of `AuthSpec.Login` and keeps Valid |
| `AuthRoutes.Portal.FollowVerifyLink` | routes/authentication.js:274-284 | ends in the state and response of `AuthSpec.FollowVerifyLink` and keeps Valid |
| `AuthRoutes.Portal.FinalizeSignup` | routes/authentication.js:286-301 | ends in the state and response of `AuthSpec.FinalizeSignup` and keeps Valid |
| `AuthRoutes.Portal.VerifyLogin` | routes/authentication.js:304-323 | ends in the state and response of `AuthSpec.VerifyLogin` and keeps Valid |
| `AuthRoutes.Portal.ForgotPassword` | routes/authentication.js:327-345 | ends in the state and response of `AuthSpec.ForgotPassword` and keeps Valid |
| `AuthRoutes.Portal.ResetPasswordForm` | routes/authentication.js:38-46 | answers as `AuthSpec.ResetPasswordForm` and changes nothing |
| `AuthRoutes.Portal.ResetPassword` | routes/authentication.js:347-367 | ends in the state and response of `AuthSpec.ResetPassword` and keeps Valid |
| `AuthRoutes.Portal.UpdatePassword` | routes/authentication.js:369-390 | ends in the state and response of `AuthSpec.UpdatePassword` and keeps Valid |
| `AuthRoutes.Portal.UpdateProfile` | routes/authentication.js:394-491 | ends in the state and response of `AuthSpec.UpdateProfile` and keeps Valid |
| `AuthRoutes.Portal.ViewDashboard` | routes/authentication.js:49-66 | ends in the state and response of `AuthSpec.ViewDashboard` and keeps Valid |
| `AuthRoutes.Portal.Logout` | routes/authentication.js:494-502 | ends in the state and response of `AuthSpec.Logout` and keeps Valid |
| `AuthProperties.SignupThenConfirm` | routes/authentication.js:193-301 | after a signup, following the mailed link and finalising verifies the new account, clears its token and logs the session in as it |
| `AuthProperties.LoginSupersedesPendingToken` | routes/authentication.js:252-260 | after a login the token the account held before is refused by both `/verify` and `/verify-login`, and the verification flag is unchanged |
| `AuthProperties.SignupLinkLostAfterLogin` | routes/authentication.js:209-278 | a login between signup and following the signup link makes that link invalid |
| `AuthProperties.UnverifiedLoginAuthenticates` | routes/authentication.js:304-321 | an unverified account's login link authenticates the session and leaves the account unverified |
| `AuthProperties.VerifiedAccountCanHoldToken` | routes/authentication.js:258-260 | a verified account that logs in is verified and has a pending token at the same time |
| `AuthProperties.AdminChallenge` | routes/authentication.js:236-312 | the administrator challenge leaves the accounts alone, its link grants `isAdmin` once and is then refused, and a newer challenge makes the older link worthless |
| `AuthProperties.ResetLinkLifetime` | routes/authentication.js:327-367 | a reset link issued at t opens the form and resets the password exactly while now < t + 3600000; success installs the new password and keeps the verification fields; a refusal changes nothing |
| `AuthProperties.SecondResetSupersedesFirst` | routes/authentication.js:332-358 | after a second reset request the first link is refused by the form and the submission at any time |
| `AuthProperties.ResetLinkSingleUse` | routes/authentication.js:353-363 | after a successful reset the same link is refused by the form and the submission |
| `AuthProperties.PasswordChangeTakesEffect` | routes/authentication.js:369-390 | after a password change the new password logs in, and a different old one is refused when both encode in at most 72 bytes |
| `AuthProperties.NoticeShownOnce` | routes/authentication.js:65-66 | the second dashboard view shows no notice |
| `AuthProperties.LogoutForgetsSession` | routes/authentication.js:494-502 | after logout finalising is expired, the authenticated handlers redirect to login, and no link grants administrator access |
| `AuthProperties.ProfileResubmission` | routes/authentication.js:415-461 | submitting the same profile form again, or the form that reproduces the stored normalised profile, succeeds, adds no submission and changes no account, and the first update leaves the password hash, pending token, verification flag and reset token as they were |

## Left out

- Express, session middleware and database wiring (app.js) carry no logic. Only one browser's session is modelled, and requests run one at a time.
- Rendering and redirects become the `Outcome` values. The exact link text of the mails is reduced to the token, and the reset link also keeps the origin.
- Pagination of the dashboards (routes/authentication.js:53-63, 113-120) is left out. It is JavaScript number parsing and database `skip`/`limit`.
- The CSV exports (routes/authentication.js:79-107, 125-151) are left out: they are file writing and date formatting. The admin export route does no `isAdmin` check, and nothing in the model depends on that route.
- `GET /registration`, `GET /profile` and `GET /submit-research` are not modelled: they only read and render.
- `POST /submit-research` (routes/authentication.js:167-189) is not modelled. It inserts a submission without checking for an existing one with the same user and title (172-178), and it sets `hasResearch: true` on the account whatever its role (180-182). `Valid`'s "no user has two submissions with the same title" therefore holds only for the handlers modelled here. Only its co-author expression (routes/authentication.js:169) is modelled, by `CoAuthors.ParseCoAuthors`.
- The race between the duplicate checks and `create` (routes/authentication.js:202-211) is out of scope because the model is sequential.
- Form fields are strings that are always present. The behaviour of a missing field is left out, for example a MongoDB filter with an `undefined` value, a `/verify-login` without a token, or `password === ADMIN_SECRET_PASSWORD` when both are undefined.
- `Fresh`: the generator's guarantee is assumed, because random tokens cannot be modelled. A collision between two random tokens is left out.
- `UserModel.Hash`: bcrypt's random salt and its cost are left out. The digest depends on the password alone. It is injective only on passwords of at most 72 UTF-8 bytes: longer passwords with the same first 72 bytes share a digest (`UserModel.LongPasswordsCollide`). bcrypt's treatment of a NUL character inside a password is not modelled, so `UserModel.ShortPasswordsDistinct` may claim more than bcrypt gives for passwords containing one. A lone UTF-16 surrogate in a submitted password cannot be a Dafny `char`; how it is encoded before hashing is not modelled.
- `session.tempUserId` (routes/authentication.js:269) is written but never read.
- Mail delivery failures are left out, and so is a failing session destroy on logout (routes/authentication.js:495-499). Both are I/O error paths. A mail is always appended.
- The `submittedAt` timestamp of a submission is left out. Research records hold user, title, abstract, session and co-authors.
- A profile field that the form omits is stored as the empty string in the model. Mongoose would unset the path instead.
- `AuthRoutes.Portal.ViewDashboard`: only the session guard, the missing-account failure and the one-time notice are modelled. The listing of submissions is not.

/**
 * The conference-registration part of `POST /profile`: how the submitted
 * form is normalised by role and student status before it is stored, and
 * which of the normalised values reach the account document.
 */
module Registration {
  import opened Options
  import opened UserModel
  import opened CoAuthors

  /** The fields of the profile form, as submitted (absent fields read as ""). */
  datatype ProfileForm = ProfileForm(
    role: string,
    isStudent: string,
    studentAffiliation: string,
    studentProgram: string,
    studentClass: string,
    facultyAffiliation: string,
    facultyTitle: string,
    researchTitle: string,
    researchAbstract: string,
    coAuthorsRawInput: string,
    sessionPreference: string,
    hotelAgree: string)

  /** The values the handler assigns onto the user document. */
  datatype Profile = Profile(
    role: string,
    hotelAgree: bool,
    hasResearch: bool,
    researchTitle: string,
    researchAbstract: string,
    sessionPreference: string,
    coAuthors: seq<string>,
    isStudent: bool,
    studentAffiliation: string,
    studentProgram: string,
    studentClass: string,
    facultyAffiliation: string,
    facultyTitle: string)

  /**
   * The shape every normalised profile has: research fields are blank unless
   * the role is researcher, a researcher has research exactly when there is
   * a title, co-authors are clean names, and only one of the student and
   * faculty field groups is filled in.
   */
  predicate Consistent(p: Profile)
  {
    && (p.role == "researcher" ==>
          (p.hasResearch <==> p.researchTitle != "") &&
          forall i :: 0 <= i < |p.coAuthors| ==> IsName(p.coAuthors[i]))
    && (p.role != "researcher" ==>
          !p.hasResearch && p.researchTitle == "" && p.researchAbstract == "" &&
          p.sessionPreference == "" && p.coAuthors == [])
    && (p.isStudent ==> p.facultyAffiliation == "" && p.facultyTitle == "")
    && (!p.isStudent ==> p.studentAffiliation == "" && p.studentProgram == "" && p.studentClass == "")
  }

  /** Lines 416-442 of the handler: the form as it is assigned onto the document. */
  function Normalize(f: ProfileForm): (p: Profile)
    ensures Consistent(p)
    ensures p.role == f.role
    ensures p.hotelAgree <==> f.hotelAgree == "on"
    ensures p.isStudent <==> f.isStudent == "yes"
    ensures f.role == "researcher" ==>
              p.researchTitle == f.researchTitle && p.researchAbstract == f.researchAbstract &&
              p.sessionPreference == f.sessionPreference &&
              p.coAuthors == ParseCoAuthors(f.coAuthorsRawInput)
    ensures p.isStudent ==>
              p.studentAffiliation == f.studentAffiliation && p.studentProgram == f.studentProgram &&
              p.studentClass == f.studentClass
    ensures !p.isStudent ==>
              p.facultyAffiliation == f.facultyAffiliation && p.facultyTitle == f.facultyTitle
  {
    var researcher := f.role == "researcher";
    var student := f.isStudent == "yes";
    Profile(
      f.role,
      f.hotelAgree == "on",
      if researcher then f.researchTitle != "" else false,
      if researcher then f.researchTitle else "",
      if researcher then f.researchAbstract else "",
      if researcher then f.sessionPreference else "",
      if researcher then ParseCoAuthors(f.coAuthorsRawInput) else [],
      student,
      if student then f.studentAffiliation else "",
      if student then f.studentProgram else "",
      if student then f.studentClass else "",
      if student then "" else f.facultyAffiliation,
      if student then "" else f.facultyTitle)
  }

  /** The form a client would submit to reproduce a stored profile. */
  function AsForm(p: Profile): ProfileForm
  {
    ProfileForm(
      p.role,
      if p.isStudent then "yes" else "no",
      p.studentAffiliation, p.studentProgram, p.studentClass,
      p.facultyAffiliation, p.facultyTitle,
      p.researchTitle, p.researchAbstract, Join(p.coAuthors), p.sessionPreference,
      if p.hotelAgree then "on" else "")
  }

  /**
   * The consistent profiles are exactly the fixpoints of normalisation:
   * resubmitting a consistent profile stores it unchanged.
   */
  lemma ConsistentIsFixpoint(p: Profile)
    requires Consistent(p)
    ensures Normalize(AsForm(p)) == p
  {
    if p.role == "researcher" {
      ParseJoinRoundTrip(p.coAuthors);
    }
  }

  /** Normalising is idempotent: resubmitting what was stored changes nothing. */
  lemma NormalizeIdempotent(f: ProfileForm)
    ensures Normalize(AsForm(Normalize(f))) == Normalize(f)
  {
    ConsistentIsFixpoint(Normalize(f));
  }

  /**
   * What `user.save()` writes: the schema paths among the assigned values.
   * `isStudent`, the student and faculty fields and `hotelAgree` are not
   * paths of `userSchema`, so the strict schema does not persist them.
   * The credential and verification fields are never touched.
   */
  function ApplyProfile(a: Account, role: Role, p: Profile): (b: Account)
    ensures b.role == role && b.hasResearch == p.hasResearch && b.coAuthors == p.coAuthors
    ensures b.researchTitle == Some(p.researchTitle) && b.researchAbstract == Some(p.researchAbstract)
    ensures b.sessionPreference == Some(p.sessionPreference)
    ensures b.username == a.username && b.email == a.email && b.passwordHash == a.passwordHash
    ensures b.firstName == a.firstName && b.lastName == a.lastName
    ensures b.tokenVerify == a.tokenVerify && b.isVerified == a.isVerified
    ensures b.resetPasswordToken == a.resetPasswordToken && b.resetPasswordExpires == a.resetPasswordExpires
  {
    a.(role := role, hasResearch := p.hasResearch, researchTitle := Some(p.researchTitle),
       researchAbstract := Some(p.researchAbstract), sessionPreference := Some(p.sessionPreference),
       coAuthors := p.coAuthors)
  }
}

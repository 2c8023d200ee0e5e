/**
 * Accounts and profiles (users/models.py): the user record, the student and
 * supervisor profiles, and the derived properties `student_id`, `department`,
 * `school` and `effective_school`.
 */
module Accounts {
  import opened Wrappers
  import opened Text
  import opened Academics

  datatype UserType = StudentUser | SupervisorUser | OtherUser

  datatype User = User(
    email: string,
    fullName: string,
    userType: UserType,
    isActive: bool,
    isStaff: bool,
    isSuperuser: bool)

  /**
   * A student's profile. Topic sets hold standardised topic names; `supervisor`
   * holds the supervisor's user email; `semester` the semester's key.
   */
  datatype StudentProfile = StudentProfile(
    programme: Option<Programme>,
    preferenceText: Option<string>,
    positive: set<string>,
    negative: set<string>,
    supervisor: Option<string>,
    programmeMatchType: Option<int>,
    matching: set<string>,
    conflicting: set<string>,
    semester: Option<int>)

  /** A supervisor's profile; `capacity` is a non-negative integer column. */
  datatype SupervisorProfile = SupervisorProfile(
    department: Option<Department>,
    school: Option<School>,
    expertise: Option<string>,
    firstChoice: Option<PreferenceGroup>,
    secondChoice: Option<PreferenceGroup>,
    capacity: nat,
    accepting: bool,
    standardised: set<string>)

  /** `student_id`: the email up to its first `@`, or None for an empty email. */
  function StudentId(email: string): (r: Option<string>)
    ensures r.Some? <==> email != []
    ensures r.Some? ==> '@' !in r.value && StartsWith(email, r.value)
    ensures r.Some? && |r.value| < |email| ==> email[|r.value|] == '@'
    ensures r.Some? && '@' !in email ==> r.value == email
  {
    if email == [] then None
    else
      SplitHead(email, '@');
      Some(Split(email, '@')[0])
  }

  /**
   * The lookup `email__startswith=f"{sid}@"` that result write-back uses finds
   * exactly the emails whose `student_id` is `sid` and that contain an `@`.
   */
  lemma StudentIdLookup(email: string, sid: string)
    requires '@' !in sid
    ensures StartsWith(email, sid + "@") <==> '@' in email && StudentId(email) == Some(sid)
  {
    if StartsWith(email, sid + "@") {
      assert email[..|sid|] == sid;
      assert email[|sid|] == '@';
      var id := StudentId(email).value;
      assert id == email[..|id|];
    }
    if '@' in email && StudentId(email) == Some(sid) {
      var id := StudentId(email).value;
      assert |id| < |email|;
      assert email[..|sid| + 1] == sid + "@";
    }
  }

  /** The students the lookup `user__email__startswith=f"{sid}@"` finds. */
  function LookupStudents(students: map<string, StudentProfile>, sid: string): set<string>
  {
    set e | e in students && StartsWith(e, sid + "@")
  }

  /** The lookup finds exactly the students whose `student_id` is `sid`. */
  lemma LookupByStudentId(students: map<string, StudentProfile>, sid: string)
    requires '@' !in sid
    ensures LookupStudents(students, sid) == set e | e in students && '@' in e && StudentId(e) == Some(sid)
  {
    forall e | e in students ensures StartsWith(e, sid + "@") <==> '@' in e && StudentId(e) == Some(sid) {
      StudentIdLookup(e, sid);
    }
  }

  /** `StudentProfile.department`. */
  function StudentDepartment(programme: Option<Programme>): (r: Option<Department>)
    ensures r.Some? <==> programme.Some?
    ensures programme.Some? ==> r.value == programme.value.department
  {
    if programme.Some? then Some(programme.value.department) else None
  }

  /** `StudentProfile.school`: the programme's department's school, under the same guard. */
  function StudentSchool(programme: Option<Programme>): (r: Option<School>)
    ensures programme.None? ==> r.None?
  {
    if programme.Some? then programme.value.department.school else None
  }

  /** A student's school is the school of the student's department. */
  lemma SchoolIsDepartmentSchool(programme: Option<Programme>)
    ensures StudentSchool(programme) == if StudentDepartment(programme).Some? then StudentDepartment(programme).value.school else None
  {
  }

  /**
   * `effective_school`: the department's school when a department is set
   * (even when that department has no school), otherwise the direct school.
   */
  function EffectiveSchool(department: Option<Department>, school: Option<School>): (r: Option<School>)
    ensures department.Some? ==> r == department.value.school
    ensures department.None? ==> r == school
  {
    if department.Some? then department.value.school else if school.Some? then school else None
  }

  /** The optional keyword arguments `create_user` and `create_superuser` pass through. */
  datatype UserFields = UserFields(
    fullName: string,
    userType: UserType,
    isActive: Option<bool>,
    isStaff: Option<bool>,
    isSuperuser: Option<bool>)

  datatype AccountError = MissingEmail

  /**
   * `UserManager.create_user`: refuses an empty email; flags the caller passes in
   * `extra_fields` win, unset ones take the model defaults (active, not staff, not superuser).
   */
  function CreateUser(email: string, fields: UserFields): (r: Result<User, AccountError>)
    ensures r.Err? <==> email == []
    ensures r.Ok? ==> r.value.email == email && r.value.fullName == fields.fullName && r.value.userType == fields.userType
    ensures r.Ok? ==> r.value.isActive == (fields.isActive != Some(false))
    ensures r.Ok? ==> r.value.isStaff == (fields.isStaff == Some(true))
    ensures r.Ok? ==> r.value.isSuperuser == (fields.isSuperuser == Some(true))
  {
    if email == [] then Err(MissingEmail)
    else
      Ok(User(email, fields.fullName, fields.userType,
              if fields.isActive.Some? then fields.isActive.value else true,
              if fields.isStaff.Some? then fields.isStaff.value else false,
              if fields.isSuperuser.Some? then fields.isSuperuser.value else false))
  }

  /** `dict.setdefault`: keeps a supplied value, otherwise uses the default. */
  function SetDefault(v: Option<bool>, default: bool): bool
  {
    if v.Some? then v.value else default
  }

  /** `UserManager.create_superuser`: staff and superuser flags default to true, supplied values win. */
  function CreateSuperuser(email: string, fields: UserFields): (r: Result<User, AccountError>)
    ensures r.Err? <==> email == []
    ensures r.Ok? ==> r.value.isStaff == (fields.isStaff != Some(false))
    ensures r.Ok? ==> r.value.isSuperuser == (fields.isSuperuser != Some(false))
  {
    CreateUser(email, fields.(isStaff := Some(SetDefault(fields.isStaff, true)),
                              isSuperuser := Some(SetDefault(fields.isSuperuser, true))))
  }
}

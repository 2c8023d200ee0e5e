/**
 * The two reset tasks (api/tasks.py): clearing one semester's allocations, and
 * deleting the standardised vocabulary together with every link to it.
 */
module Reset {
  import opened Wrappers
  import opened Accounts
  import opened Store

  // ---------------------------------------------------------------------------
  // reset_students_for_semester (lines 659-699)

  /** A profile with its allocation cleared: no supervisor, no match type, no matching or conflicting topics. */
  function Unallocated(p: StudentProfile): StudentProfile
  {
    p.(supervisor := None, programmeMatchType := None, matching := {}, conflicting := {})
  }

  /** The semester's students. */
  function InSemester(students: map<string, StudentProfile>, semester: int): set<string>
  {
    set e | e in students && students[e].semester == Some(semester)
  }

  /** The two bulk writes: the through-table deletes and the `update(supervisor=None, programme_match_type=None)`. */
  function ResetAllocations(students: map<string, StudentProfile>, semester: int): map<string, StudentProfile>
  {
    map e | e in students :: if students[e].semester == Some(semester) then Unallocated(students[e]) else students[e]
  }

  /**
   * The semester's students lose their allocation and keep everything else,
   * their positive and negative preferences included; other students are untouched.
   */
  lemma ResetClearsSemester(students: map<string, StudentProfile>, semester: int)
    ensures ResetAllocations(students, semester).Keys == students.Keys
    ensures forall e | e in students && students[e].semester == Some(semester) ::
      var q := ResetAllocations(students, semester)[e];
      && q.supervisor.None? && q.programmeMatchType.None? && q.matching == {} && q.conflicting == {}
      && q.positive == students[e].positive && q.negative == students[e].negative
      && q.programme == students[e].programme && q.preferenceText == students[e].preferenceText
      && q.semester == students[e].semester
    ensures forall e | e in students && students[e].semester != Some(semester) ::
      ResetAllocations(students, semester)[e] == students[e]
  {
  }

  /** Resetting twice is resetting once. */
  lemma ResetIdempotent(students: map<string, StudentProfile>, semester: int)
    ensures ResetAllocations(ResetAllocations(students, semester), semester) == ResetAllocations(students, semester)
  {
    var once := ResetAllocations(students, semester);
    assert forall e | e in once :: once[e].semester == students[e].semester;
  }

  /** A reset leaves the semester's students eligible for matching again when they have preference text. */
  lemma ResetFreesSemester(students: map<string, StudentProfile>, semester: int)
    ensures forall e | e in InSemester(students, semester) ::
      ResetAllocations(students, semester)[e].supervisor.None? &&
      ResetAllocations(students, semester)[e].semester == Some(semester)
  {
  }

  /** With nobody in the semester, the reset writes nothing. */
  lemma ResetNobody(students: map<string, StudentProfile>, semester: int)
    requires InSemester(students, semester) == {}
    ensures ResetAllocations(students, semester) == students
  {
    forall e | e in students ensures ResetAllocations(students, semester)[e] == students[e] {
      assert e !in InSemester(students, semester);
    }
  }

  datatype ResetError = UnknownSemester

  /**
   * Resets the semester's allocations in one transaction and reports how many
   * students were reset; with no students in the semester nothing is written.
   */
  method ResetStudentsForSemester(db: Database, semester: int) returns (r: Result<nat, ResetError>)
    requires db.Valid()
    modifies db
    ensures db.Valid()
    ensures db.topics == old(db.topics) && db.originals == old(db.originals) && db.users == old(db.users)
    ensures db.supervisors == old(db.supervisors) && db.semesters == old(db.semesters)
    ensures r.Err? <==> semester !in old(db.semesters)
    ensures r.Ok? ==> r.value == |InSemester(old(db.students), semester)|
    ensures r.Ok? && r.value == 0 ==> db.students == old(db.students)
    ensures r.Ok? ==> db.students == ResetAllocations(old(db.students), semester)
    ensures r.Err? ==> db.students == old(db.students)
  {
    if semester !in db.semesters {
      return Err(UnknownSemester);
    }
    var chosen := InSemester(db.students, semester);
    if chosen == {} {
      ResetNobody(db.students, semester);
      return Ok(0);
    }
    ResetKeepsValid(db.topics, db.originals, db.users, db.students, db.supervisors, semester);
    db.students := ResetAllocations(db.students, semester);
    r := Ok(|chosen|);
  }

  lemma ResetKeepsValid(topics: set<string>, originals: map<string, Option<string>>, users: map<string, User>,
                        students: map<string, StudentProfile>, supervisors: map<string, SupervisorProfile>, semester: int)
    requires TopicsClosed(topics, originals, students, supervisors) && ProfilesLinked(users, students, supervisors)
    ensures TopicsClosed(topics, originals, ResetAllocations(students, semester), supervisors)
    ensures ProfilesLinked(users, ResetAllocations(students, semester), supervisors)
  {
  }

  // ---------------------------------------------------------------------------
  // reset_topic_mappings (lines 701-707)

  /** A student's four topic sets once the topics they point to are deleted. */
  function WithoutTopics(p: StudentProfile): StudentProfile
  {
    p.(positive := {}, negative := {}, matching := {}, conflicting := {})
  }

  /**
   * Deletes every standardised topic. Original terms keep their rows with the
   * link set to null (`on_delete=SET_NULL`); the many-to-many links from student
   * and supervisor profiles are deleted with the topics.
   */
  method ResetTopicMappings(db: Database)
    requires db.Valid()
    modifies db
    ensures db.Valid()
    ensures db.topics == {}
    ensures db.originals.Keys == old(db.originals).Keys && forall o | o in db.originals :: db.originals[o].None?
    ensures db.students.Keys == old(db.students).Keys
    ensures forall e | e in db.students :: db.students[e] == WithoutTopics(old(db.students)[e])
    ensures db.supervisors.Keys == old(db.supervisors).Keys
    ensures forall v | v in db.supervisors :: db.supervisors[v] == old(db.supervisors)[v].(standardised := {})
    ensures db.users == old(db.users) && db.semesters == old(db.semesters)
  {
    db.topics := {};
    db.originals := map o | o in db.originals :: None;
    db.students := map e | e in db.students :: WithoutTopics(db.students[e]);
    db.supervisors := map v | v in db.supervisors :: db.supervisors[v].(standardised := {});
  }
}

/**
 * The database the pipeline works on, held as maps in one object: standardised
 * topics (api/models.py, unique by name), original expertise terms with their
 * link to a standardised topic, users keyed by their unique email, student and
 * supervisor profiles keyed by the email of the user they belong to, and the
 * semesters' keys.
 */
module Store {
  import opened Wrappers
  import opened Accounts

  /** Every topic a student's four topic sets name is a standardised topic. */
  predicate StudentTopicsIn(s: StudentProfile, topics: set<string>)
  {
    s.positive <= topics && s.negative <= topics && s.matching <= topics && s.conflicting <= topics
  }

  /** Referential integrity of topic links: no link names a topic that does not exist. */
  ghost predicate TopicsClosed(
    topics: set<string>,
    originals: map<string, Option<string>>,
    students: map<string, StudentProfile>,
    supervisors: map<string, SupervisorProfile>)
  {
    && (forall o | o in originals && originals[o].Some? :: originals[o].value in topics)
    && (forall e | e in students :: StudentTopicsIn(students[e], topics))
    && (forall e | e in supervisors :: supervisors[e].standardised <= topics)
  }

  /** Profiles belong to existing users, and a student's supervisor is an existing supervisor profile. */
  ghost predicate ProfilesLinked(
    users: map<string, User>,
    students: map<string, StudentProfile>,
    supervisors: map<string, SupervisorProfile>)
  {
    && (forall e | e in users :: users[e].email == e)
    && students.Keys <= users.Keys
    && supervisors.Keys <= users.Keys
    && (forall e | e in students && students[e].supervisor.Some? :: students[e].supervisor.value in supervisors)
  }

  class Database {
    var topics: set<string>
    var originals: map<string, Option<string>>
    var users: map<string, User>
    var students: map<string, StudentProfile>
    var supervisors: map<string, SupervisorProfile>
    var semesters: set<int>

    ghost predicate Valid()
      reads this
    {
      TopicsClosed(topics, originals, students, supervisors) && ProfilesLinked(users, students, supervisors)
    }

    constructor ()
      ensures Valid()
      ensures topics == {} && originals == map[] && users == map[]
      ensures students == map[] && supervisors == map[] && semesters == {}
    {
      topics, originals, users := {}, map[], map[];
      students, supervisors, semesters := map[], map[], {};
    }
  }
}

/**
 * Matching (api/tasks.py, `match_students_for_semester` and `optimal_matching`).
 * Eligible students and supervisors with remaining capacity are selected, every
 * (student, supervisor) pair is scored, the solver's 0/1 answer is turned into
 * assignments, and the assignments are written back to the student profiles.
 */
module Matching {
  import opened Wrappers
  import opened Sequences
  import opened Text
  import opened Academics
  import opened Accounts
  import opened Store

  // ---------------------------------------------------------------------------
  // Pair scores (lines 520-561)

  /** The weights of the three score components. */
  datatype Weights = Weights(progFirst: real, progSecond: real, topic: real)

  /**
   * The default `score_weights` of `optimal_matching`, which the task always uses.
   * The `.get` fallbacks (10.0, 5.0, 50.0) are never taken: the dict has all three keys.
   */
  const DefaultWeights: Weights := Weights(20.0, 10.0, 50.0)

  /** The programme tier of a pair: 1 first choice, 2 second choice, 0 neither; an empty list accepts every programme. */
  function ProgrammeTier(programme: string, first: set<string>, second: set<string>): (t: int)
    ensures 0 <= t <= 2
    ensures t == 1 <==> first == {} || programme in first
    ensures t == 2 <==> first != {} && programme !in first && (second == {} || programme in second)
  {
    if first == {} || programme in first then 1
    else if second == {} || programme in second then 2
    else 0
  }

  /** The programme part of the score (lines 536-542). */
  function ProgrammeScore(w: Weights, programme: string, first: set<string>, second: set<string>): real
  {
    if first == {} || programme in first then w.progFirst
    else if second == {} || programme in second then w.progSecond
    else 0.0
  }

  /** The score's programme part follows the same tiers as the reported programme match. */
  lemma ProgrammeScoreFollowsTier(w: Weights, programme: string, first: set<string>, second: set<string>)
    ensures ProgrammeScore(w, programme, first, second) ==
      match ProgrammeTier(programme, first, second)
      case 1 => w.progFirst
      case 2 => w.progSecond
      case _ => 0.0
  {
  }

  /** `|P ∩ E| / |P|`, or 1 when there are no positive preferences. */
  function PositiveRatio(positive: set<string>, expertise: set<string>): real
  {
    if |positive| > 0 then (|positive * expertise| as real) / (|positive| as real) else 1.0
  }

  /** `|N ∩ E| / |N|`, or 0 when there are no negative preferences. */
  function ViolationRate(negative: set<string>, expertise: set<string>): real
  {
    if |negative| > 0 then (|negative * expertise| as real) / (|negative| as real) else 0.0
  }

  /** The weighted topic satisfaction: the average of the positive ratio and the avoidance rate. */
  function TopicScore(w: Weights, positive: set<string>, negative: set<string>, expertise: set<string>): real
  {
    w.topic * ((PositiveRatio(positive, expertise) + (1.0 - ViolationRate(negative, expertise))) / 2.0)
  }

  /** A subset is no larger, and a subset of the same size is the whole set. */
  lemma SubsetSize<T>(a: set<T>, b: set<T>)
    requires a <= b
    ensures |a| <= |b|
    ensures |a| == |b| ==> a == b
  {
    assert b == a + (b - a);
    assert a * (b - a) == {};
    if |a| == |b| {
      assert |b - a| == 0;
    }
  }

  /** The positive ratio lies in [0, 1] and is 1 exactly when every positive preference is in the expertise. */
  lemma PositiveRatioBounds(positive: set<string>, expertise: set<string>)
    ensures 0.0 <= PositiveRatio(positive, expertise) <= 1.0
    ensures PositiveRatio(positive, expertise) == 1.0 <==> positive <= expertise
  {
    SubsetSize(positive * expertise, positive);
    if |positive| > 0 {
      var k, n := |positive * expertise| as real, |positive| as real;
      FractionBounds(k, n);
      assert PositiveRatio(positive, expertise) == k / n;
      assert k == n <==> |positive * expertise| == |positive|;
      assert positive * expertise == positive <==> positive <= expertise;
    }
  }

  /** A fraction of a part over its whole lies in [0, 1] and is 1 exactly when the part is the whole. */
  lemma FractionBounds(k: real, n: real)
    requires 0.0 <= k <= n && n > 0.0
    ensures 0.0 <= k / n <= 1.0
    ensures k / n == 1.0 <==> k == n
  {
    var r := k / n;
    assert r * n == k;
  }

  /** The violation rate lies in [0, 1] and is 0 exactly when no negative preference is in the expertise. */
  lemma ViolationRateBounds(negative: set<string>, expertise: set<string>)
    ensures 0.0 <= ViolationRate(negative, expertise) <= 1.0
    ensures ViolationRate(negative, expertise) == 0.0 <==> negative * expertise == {}
  {
    SubsetSize(negative * expertise, negative);
    if |negative| > 0 {
      var r := ViolationRate(negative, expertise);
      assert r * (|negative| as real) == |negative * expertise| as real;
    }
  }

  /**
   * The topic score lies in [0, W3], and (for W3 > 0) reaches W3 exactly when
   * every positive preference is in the expertise and no negative one is.
   */
  lemma TopicScoreBounds(w: Weights, positive: set<string>, negative: set<string>, expertise: set<string>)
    requires w.topic >= 0.0
    ensures 0.0 <= TopicScore(w, positive, negative, expertise) <= w.topic
    ensures w.topic > 0.0 ==>
      (TopicScore(w, positive, negative, expertise) == w.topic <==> positive <= expertise && negative * expertise == {})
  {
    PositiveRatioBounds(positive, expertise);
    ViolationRateBounds(negative, expertise);
    var m := (PositiveRatio(positive, expertise) + (1.0 - ViolationRate(negative, expertise))) / 2.0;
    assert TopicScore(w, positive, negative, expertise) == w.topic * m;
    assert 0.0 <= m <= 1.0;
    assert w.topic * m <= w.topic * 1.0;
    if w.topic > 0.0 && w.topic * m == w.topic {
      assert w.topic * (m - 1.0) == 0.0;
      assert m == 1.0;
      assert PositiveRatio(positive, expertise) == 1.0 && ViolationRate(negative, expertise) == 0.0;
    }
    if positive <= expertise && negative * expertise == {} {
      assert m == 1.0;
      assert w.topic * m == w.topic;
    }
  }

  // ---------------------------------------------------------------------------
  // Who takes part (lines 417-446)

  /** The students to allocate: in the semester, without a supervisor, with preference text. */
  function Eligible(students: map<string, StudentProfile>, semester: int): set<string>
  {
    set e | e in students && students[e].semester == Some(semester) && students[e].supervisor.None? && students[e].preferenceText.Some?
  }

  /** `Count('students')`: the students of any semester whose supervisor is `v`. */
  function CurrentCount(students: map<string, StudentProfile>, v: string): nat
  {
    |set e | e in students && students[e].supervisor == Some(v)|
  }

  /** `supervision_capacity - Count('students')`; negative when a supervisor is over capacity. */
  function Remaining(students: map<string, StudentProfile>, p: SupervisorProfile, v: string): int
  {
    p.capacity - CurrentCount(students, v)
  }

  /** The supervisors that take part: accepting students and with a slot left. */
  function Participating(students: map<string, StudentProfile>, supervisors: map<string, SupervisorProfile>): set<string>
  {
    set v | v in supervisors && supervisors[v].accepting && Remaining(students, supervisors[v], v) > 0
  }

  // ---------------------------------------------------------------------------
  // The rows handed to the optimiser (lines 448-469)

  datatype StudentRow = StudentRow(id: Option<string>, programme: string, positive: set<string>, negative: set<string>)

  datatype SupervisorRow = SupervisorRow(
    id: string,
    name: string,
    first: set<string>,
    second: set<string>,
    capacity: int,
    count: nat,
    expertise: set<string>)

  /** The programmes of an optional preference group; no group means no preference. */
  function GroupProgrammes(g: Option<PreferenceGroup>): set<string>
  {
    if g.Some? then g.value.programmes else {}
  }

  function StudentRowOf(e: string, p: StudentProfile): StudentRow
    requires p.programme.Some?
  {
    StudentRow(StudentId(e), p.programme.value.name, p.positive, p.negative)
  }

  function SupervisorRowOf(students: map<string, StudentProfile>, p: SupervisorProfile, v: string, name: string): SupervisorRow
  {
    SupervisorRow(v, name, GroupProgrammes(p.firstChoice), GroupProgrammes(p.secondChoice),
                  Remaining(students, p, v), CurrentCount(students, v), p.standardised)
  }

  /**
   * Builds the student rows in query order. A student without a programme makes
   * `student.programme.name` raise, which fails the task.
   */
  method BuildStudentRows(students: map<string, StudentProfile>, order: seq<string>) returns (rows: Option<seq<StudentRow>>)
    requires forall e | e in order :: e in students
    ensures rows.None? <==> exists e | e in order :: students[e].programme.None?
    ensures rows.Some? ==> |rows.value| == |order|
    ensures rows.Some? ==> forall i | 0 <= i < |order| ::
      students[order[i]].programme.Some? && rows.value[i] == StudentRowOf(order[i], students[order[i]])
  {
    var acc: seq<StudentRow> := [];
    var i := 0;
    while i < |order|
      invariant 0 <= i <= |order| && |acc| == i
      invariant forall k | 0 <= k < i :: students[order[k]].programme.Some? && acc[k] == StudentRowOf(order[k], students[order[k]])
    {
      var p := students[order[i]];
      if p.programme.None? {
        return None;
      }
      acc := acc + [StudentRowOf(order[i], p)];
      i := i + 1;
    }
    return Some(acc);
  }

  /** Builds the supervisor rows in query order; the name is the user's full name. */
  method BuildSupervisorRows(students: map<string, StudentProfile>, supervisors: map<string, SupervisorProfile>,
                             users: map<string, User>, order: seq<string>) returns (rows: seq<SupervisorRow>)
    requires forall v | v in order :: v in supervisors && v in users
    ensures |rows| == |order|
    ensures forall j | 0 <= j < |order| :: rows[j] == SupervisorRowOf(students, supervisors[order[j]], order[j], users[order[j]].fullName)
  {
    rows := [];
    var j := 0;
    while j < |order|
      invariant 0 <= j <= |order| && |rows| == j
      invariant forall k | 0 <= k < j :: rows[k] == SupervisorRowOf(students, supervisors[order[k]], order[k], users[order[k]].fullName)
    {
      var v := order[j];
      rows := rows + [SupervisorRowOf(students, supervisors[v], v, users[v].fullName)];
      j := j + 1;
    }
  }

  /** The total remaining capacity, `aggregate(Sum('remaining_capacity')) or 0`. */
  function CapacitySum(rows: seq<SupervisorRow>): int
  {
    if rows == [] then 0 else CapacitySum(rows[..|rows| - 1]) + rows[|rows| - 1].capacity
  }

  function StudentIds(rows: seq<StudentRow>): (ids: seq<Option<string>>)
    ensures |ids| == |rows| && forall i | 0 <= i < |rows| :: ids[i] == rows[i].id
  {
    seq(|rows|, i requires 0 <= i < |rows| => rows[i].id)
  }

  function SupervisorIds(rows: seq<SupervisorRow>): (ids: seq<string>)
    ensures |ids| == |rows| && forall j | 0 <= j < |rows| :: ids[j] == rows[j].id
  {
    seq(|rows|, j requires 0 <= j < |rows| => rows[j].id)
  }

  /** No two student rows share an id (PuLP refuses two constraints `Assign_Student_<id>` of the same name). */
  predicate UniqueStudents(srows: seq<StudentRow>)
  {
    forall a, b | 0 <= a < b < |srows| :: srows[a].id != srows[b].id
  }

  /** No two supervisor rows share an id; they are distinct user emails. */
  predicate UniqueSupervisors(vrows: seq<SupervisorRow>)
  {
    forall a, b | 0 <= a < b < |vrows| :: vrows[a].id != vrows[b].id
  }

  // ---------------------------------------------------------------------------
  // Scoring every pair (lines 520-561)

  /** The unified score of a pair: programme part plus weighted topic satisfaction. */
  function PairScore(w: Weights, s: StudentRow, v: SupervisorRow): real
  {
    ProgrammeScore(w, s.programme, v.first, v.second) + TopicScore(w, s.positive, s.negative, v.expertise)
  }

  /**
   * With the default weights a pair scores between 0 and 70, and scores 70
   * exactly when the programme is a first choice and the topics agree perfectly.
   */
  lemma PairScoreRange(s: StudentRow, v: SupervisorRow)
    ensures 0.0 <= PairScore(DefaultWeights, s, v) <= 70.0
    ensures PairScore(DefaultWeights, s, v) == 70.0 <==>
      ProgrammeTier(s.programme, v.first, v.second) == 1 && s.positive <= v.expertise && s.negative * v.expertise == {}
  {
    TopicScoreBounds(DefaultWeights, s.positive, s.negative, v.expertise);
  }

  /** The inner loop of the scoring: the pairs of one student with every supervisor. */
  method ScoreRow(w: Weights, s: StudentRow, vrows: seq<SupervisorRow>, scores0: map<(Option<string>, string), real>)
    returns (scores: map<(Option<string>, string), real>)
    requires UniqueSupervisors(vrows)
    ensures forall b | 0 <= b < |vrows| ::
      (s.id, vrows[b].id) in scores && scores[(s.id, vrows[b].id)] == PairScore(w, s, vrows[b])
    ensures forall k | k in scores0 && k.0 != s.id :: k in scores && scores[k] == scores0[k]
    ensures forall k | k in scores :: k in scores0 || (k.0 == s.id && exists b | 0 <= b < |vrows| :: k.1 == vrows[b].id)
  {
    scores := scores0;
    var j := 0;
    while j < |vrows|
      invariant 0 <= j <= |vrows|
      invariant forall b | 0 <= b < j ::
        (s.id, vrows[b].id) in scores && scores[(s.id, vrows[b].id)] == PairScore(w, s, vrows[b])
      invariant forall k | k in scores0 && k.0 != s.id :: k in scores && scores[k] == scores0[k]
      invariant forall k | k in scores :: k in scores0 || (k.0 == s.id && exists b | 0 <= b < j :: k.1 == vrows[b].id)
    {
      scores := scores[(s.id, vrows[j].id) := PairScore(w, s, vrows[j])];
      j := j + 1;
    }
  }

  /**
   * The nested loop that fills `all_pair_scores`: one entry per (student, supervisor)
   * pair, holding the pair's score, and no other entries.
   */
  method ScorePairs(w: Weights, srows: seq<StudentRow>, vrows: seq<SupervisorRow>)
    returns (scores: map<(Option<string>, string), real>)
    requires UniqueStudents(srows) && UniqueSupervisors(vrows)
    ensures forall a, b | 0 <= a < |srows| && 0 <= b < |vrows| ::
      (srows[a].id, vrows[b].id) in scores && scores[(srows[a].id, vrows[b].id)] == PairScore(w, srows[a], vrows[b])
    ensures forall k | k in scores :: exists a, b | 0 <= a < |srows| && 0 <= b < |vrows| :: k == (srows[a].id, vrows[b].id)
  {
    scores := map[];
    var i := 0;
    while i < |srows|
      invariant 0 <= i <= |srows|
      invariant forall a, b | 0 <= a < i && 0 <= b < |vrows| ::
        (srows[a].id, vrows[b].id) in scores && scores[(srows[a].id, vrows[b].id)] == PairScore(w, srows[a], vrows[b])
      invariant forall k | k in scores :: exists a, b | 0 <= a < i && 0 <= b < |vrows| :: k == (srows[a].id, vrows[b].id)
    {
      var next := ScoreRow(w, srows[i], vrows, scores);
      forall k | k in next
        ensures exists a, b | 0 <= a < i + 1 && 0 <= b < |vrows| :: k == (srows[a].id, vrows[b].id)
      {
        if k !in scores {
          var b :| 0 <= b < |vrows| && k.1 == vrows[b].id;
          assert k == (srows[i].id, vrows[b].id);
        }
      }
      forall a, b | 0 <= a < i + 1 && 0 <= b < |vrows|
        ensures (srows[a].id, vrows[b].id) in next && next[(srows[a].id, vrows[b].id)] == PairScore(w, srows[a], vrows[b])
      {
        if a < i {
          assert srows[a].id != srows[i].id;
        }
      }
      scores := next;
      i := i + 1;
    }
  }

  // ---------------------------------------------------------------------------
  // The optimiser's answer and the assignments drawn from it (lines 563-636)

  /** `LpStatusOptimal`: the only status for which assignments are extracted. */
  const Optimal: int := 1

  /** A selected pair: the decision variable of `(student id, supervisor id)` whose value exceeds 0.5. */
  type Answer = set<(Option<string>, string)>

  /** How many supervisors the answer gives the student with id `sid`. */
  function PartnersIn(answer: Answer, sid: Option<string>, vrows: seq<SupervisorRow>): nat
  {
    if vrows == [] then 0
    else PartnersIn(answer, sid, vrows[..|vrows| - 1]) + (if (sid, vrows[|vrows| - 1].id) in answer then 1 else 0)
  }

  /** How many students the answer gives the supervisor with id `vid`. */
  function TakersIn(answer: Answer, vid: string, srows: seq<StudentRow>): nat
  {
    if srows == [] then 0
    else TakersIn(answer, vid, srows[..|srows| - 1]) + (if (srows[|srows| - 1].id, vid) in answer then 1 else 0)
  }

  /** The hard constraints: every student exactly one supervisor, no supervisor beyond remaining capacity. */
  predicate Feasible(srows: seq<StudentRow>, vrows: seq<SupervisorRow>, answer: Answer)
  {
    && (forall i | 0 <= i < |srows| :: PartnersIn(answer, srows[i].id, vrows) == 1)
    && (forall j | 0 <= j < |vrows| :: TakersIn(answer, vrows[j].id, srows) <= vrows[j].capacity)
  }

  datatype Assignment = Assignment(
    studentId: Option<string>,
    supervisorId: string,
    supervisorName: string,
    programmeMatch: int,
    matching: set<string>,
    conflicting: set<string>,
    score: real)

  const NoMatches: string := "No Matches"
  const NoConflicts: string := "No Conflicts"

  /** The report's topic list: the topics themselves, or the one-word sentinel when there are none. */
  function OrSentinel(names: set<string>, sentinel: string): (r: set<string>)
    ensures r != {}
    ensures names != {} ==> r == names
  {
    if names == {} then {sentinel} else names
  }

  /** The record reported for a selected pair. */
  function MakeAssignment(w: Weights, s: StudentRow, v: SupervisorRow): Assignment
  {
    Assignment(s.id, v.id, v.name, ProgrammeTier(s.programme, v.first, v.second),
               OrSentinel(s.positive * v.expertise, NoMatches),
               OrSentinel(s.negative * v.expertise, NoConflicts),
               PairScore(w, s, v))
  }

  /** The assignments of one student, in supervisor order. */
  function RowPicks(w: Weights, s: StudentRow, vrows: seq<SupervisorRow>, answer: Answer): seq<Assignment>
  {
    if vrows == [] then []
    else
      var v := vrows[|vrows| - 1];
      RowPicks(w, s, vrows[..|vrows| - 1], answer) + (if (s.id, v.id) in answer then [MakeAssignment(w, s, v)] else [])
  }

  /** The assignments in the order of the decision variables: student-major, then supervisor. */
  function Picks(w: Weights, srows: seq<StudentRow>, vrows: seq<SupervisorRow>, answer: Answer): seq<Assignment>
  {
    if srows == [] then []
    else Picks(w, srows[..|srows| - 1], vrows, answer) + RowPicks(w, srows[|srows| - 1], vrows, answer)
  }

  /** The extraction: nothing unless the solver reports an optimal solution. */
  function Extracted(w: Weights, srows: seq<StudentRow>, vrows: seq<SupervisorRow>, status: int, answer: Answer): seq<Assignment>
  {
    if status == Optimal then Picks(w, srows, vrows, answer) else []
  }

  /** The inner loop of the extraction, for one student. */
  method ExtractRow(w: Weights, s: StudentRow, vrows: seq<SupervisorRow>,
                    scores: map<(Option<string>, string), real>, answer: Answer) returns (out: seq<Assignment>)
    requires forall b | 0 <= b < |vrows| :: (s.id, vrows[b].id) in scores && scores[(s.id, vrows[b].id)] == PairScore(w, s, vrows[b])
    ensures out == RowPicks(w, s, vrows, answer)
  {
    out := [];
    var j := 0;
    while j < |vrows|
      invariant 0 <= j <= |vrows|
      invariant out == RowPicks(w, s, vrows[..j], answer)
    {
      assert vrows[..j + 1][..j] == vrows[..j];
      var v := vrows[j];
      if (s.id, v.id) in answer {
        var a := Assignment(s.id, v.id, v.name, ProgrammeTier(s.programme, v.first, v.second),
                            OrSentinel(s.positive * v.expertise, NoMatches),
                            OrSentinel(s.negative * v.expertise, NoConflicts),
                            scores[(s.id, v.id)]);
        out := out + [a];
      }
      j := j + 1;
    }
    assert vrows[..j] == vrows;
  }

  /**
   * Result extraction: the selected pairs in decision-variable order, each
   * reported with the score the optimiser used; nothing when the status is not optimal.
   */
  method ExtractAssignments(w: Weights, srows: seq<StudentRow>, vrows: seq<SupervisorRow>,
                            scores: map<(Option<string>, string), real>, status: int, answer: Answer)
    returns (out: seq<Assignment>)
    requires forall a, b | 0 <= a < |srows| && 0 <= b < |vrows| ::
      (srows[a].id, vrows[b].id) in scores && scores[(srows[a].id, vrows[b].id)] == PairScore(w, srows[a], vrows[b])
    ensures out == Extracted(w, srows, vrows, status, answer)
  {
    out := [];
    if status != Optimal {
      return;
    }
    var i := 0;
    while i < |srows|
      invariant 0 <= i <= |srows|
      invariant out == Picks(w, srows[..i], vrows, answer)
    {
      assert srows[..i + 1][..i] == srows[..i];
      var row := ExtractRow(w, srows[i], vrows, scores, answer);
      out := out + row;
      i := i + 1;
    }
    assert srows[..i] == srows;
  }

  /** How many assignments name the student id `sid`. */
  function StudentCount(assignments: seq<Assignment>, sid: Option<string>): nat
  {
    if assignments == [] then 0
    else StudentCount(assignments[..|assignments| - 1], sid) + (if assignments[|assignments| - 1].studentId == sid then 1 else 0)
  }

  /** How many assignments name the supervisor id `vid`. */
  function SupervisorCount(assignments: seq<Assignment>, vid: string): nat
  {
    if assignments == [] then 0
    else SupervisorCount(assignments[..|assignments| - 1], vid) + (if assignments[|assignments| - 1].supervisorId == vid then 1 else 0)
  }

  lemma {:induction false} CountsAppend(x: seq<Assignment>, y: seq<Assignment>, sid: Option<string>, vid: string)
    ensures StudentCount(x + y, sid) == StudentCount(x, sid) + StudentCount(y, sid)
    ensures SupervisorCount(x + y, vid) == SupervisorCount(x, vid) + SupervisorCount(y, vid)
  {
    if y == [] {
      assert x + y == x;
    } else {
      assert (x + y)[..|x + y| - 1] == x + y[..|y| - 1];
      CountsAppend(x, y[..|y| - 1], sid, vid);
    }
  }

  /** One student's assignments all name that student, one per supervisor the answer gives them. */
  lemma {:induction false} RowPicksStudentCount(w: Weights, s: StudentRow, vrows: seq<SupervisorRow>, answer: Answer, sid: Option<string>)
    ensures StudentCount(RowPicks(w, s, vrows, answer), sid) == if sid == s.id then PartnersIn(answer, s.id, vrows) else 0
  {
    if vrows != [] {
      var n := |vrows| - 1;
      var v := vrows[n];
      RowPicksStudentCount(w, s, vrows[..n], answer, sid);
      var tail := if (s.id, v.id) in answer then [MakeAssignment(w, s, v)] else [];
      CountsAppend(RowPicks(w, s, vrows[..n], answer), tail, sid, v.id);
      if tail != [] {
        assert tail[..0] == [];
      }
    }
  }

  /** Among one student's assignments each (distinct) supervisor appears at most once, and only when selected. */
  lemma {:induction false} RowPicksSupervisorCount(w: Weights, s: StudentRow, vrows: seq<SupervisorRow>, answer: Answer, vid: string)
    requires UniqueSupervisors(vrows)
    ensures SupervisorCount(RowPicks(w, s, vrows, answer), vid) ==
      if (s.id, vid) in answer && exists b | 0 <= b < |vrows| :: vrows[b].id == vid then 1 else 0
  {
    if vrows != [] {
      var n := |vrows| - 1;
      var init, v := vrows[..n], vrows[n];
      assert UniqueSupervisors(init);
      RowPicksSupervisorCount(w, s, init, answer, vid);
      var tail := if (s.id, v.id) in answer then [MakeAssignment(w, s, v)] else [];
      CountsAppend(RowPicks(w, s, init, answer), tail, s.id, vid);
      if tail != [] {
        assert tail[..0] == [];
      }
      if v.id == vid {
        assert !exists b | 0 <= b < n :: init[b].id == vid;
      } else if exists b | 0 <= b < |vrows| :: vrows[b].id == vid {
        var b :| 0 <= b < |vrows| && vrows[b].id == vid;
        assert init[b].id == vid;
      }
    }
  }

  /** Some row carries the id `sid`. */
  predicate ListsStudent(srows: seq<StudentRow>, sid: Option<string>)
  {
    exists a | 0 <= a < |srows| :: srows[a].id == sid
  }

  /** With distinct ids, the last row's id is listed by no earlier row; any other id is listed as before. */
  lemma ListsStudentSnoc(srows: seq<StudentRow>, sid: Option<string>)
    requires srows != [] && UniqueStudents(srows)
    ensures var n := |srows| - 1;
      if srows[n].id == sid then !ListsStudent(srows[..n], sid) && ListsStudent(srows, sid)
      else ListsStudent(srows, sid) == ListsStudent(srows[..n], sid)
  {
    var n := |srows| - 1;
    var init := srows[..n];
    if ListsStudent(init, sid) {
      var a :| 0 <= a < n && init[a].id == sid;
      assert srows[a].id == sid;
    }
    if srows[n].id != sid && ListsStudent(srows, sid) {
      var a :| 0 <= a < |srows| && srows[a].id == sid;
      assert init[a].id == sid;
    }
  }

  /** With distinct student ids, the assignments name a student as often as the answer gives them partners. */
  lemma {:induction false} PicksStudentCount(w: Weights, srows: seq<StudentRow>, vrows: seq<SupervisorRow>, answer: Answer, sid: Option<string>)
    requires UniqueStudents(srows)
    ensures StudentCount(Picks(w, srows, vrows, answer), sid) ==
      if ListsStudent(srows, sid) then PartnersIn(answer, sid, vrows) else 0
  {
    if srows != [] {
      var n := |srows| - 1;
      var init, s := srows[..n], srows[n];
      assert UniqueStudents(init);
      PicksStudentCount(w, init, vrows, answer, sid);
      CountsAppend(Picks(w, init, vrows, answer), RowPicks(w, s, vrows, answer), sid, "");
      RowPicksStudentCount(w, s, vrows, answer, sid);
      ListsStudentSnoc(srows, sid);
    }
  }

  /** With distinct supervisor ids, the assignments name a supervisor as often as the answer gives them students. */
  lemma {:induction false} PicksSupervisorCount(w: Weights, srows: seq<StudentRow>, vrows: seq<SupervisorRow>, answer: Answer, j: nat)
    requires UniqueSupervisors(vrows) && j < |vrows|
    ensures SupervisorCount(Picks(w, srows, vrows, answer), vrows[j].id) == TakersIn(answer, vrows[j].id, srows)
  {
    if srows != [] {
      var n := |srows| - 1;
      var s := srows[n];
      PicksSupervisorCount(w, srows[..n], vrows, answer, j);
      CountsAppend(Picks(w, srows[..n], vrows, answer), RowPicks(w, s, vrows, answer), None, vrows[j].id);
      RowPicksSupervisorCount(w, s, vrows, answer, vrows[j].id);
    }
  }

  /**
   * When the solver's answer meets the hard constraints, the extracted
   * assignments name every student exactly once and no supervisor beyond the
   * remaining capacity.
   */
  lemma ExtractionMeetsConstraints(w: Weights, srows: seq<StudentRow>, vrows: seq<SupervisorRow>, answer: Answer)
    requires UniqueStudents(srows) && UniqueSupervisors(vrows) && Feasible(srows, vrows, answer)
    ensures forall i | 0 <= i < |srows| :: StudentCount(Picks(w, srows, vrows, answer), srows[i].id) == 1
    ensures forall j | 0 <= j < |vrows| :: SupervisorCount(Picks(w, srows, vrows, answer), vrows[j].id) <= vrows[j].capacity
  {
    forall i | 0 <= i < |srows| ensures StudentCount(Picks(w, srows, vrows, answer), srows[i].id) == 1 {
      PicksStudentCount(w, srows, vrows, answer, srows[i].id);
    }
    forall j | 0 <= j < |vrows| ensures SupervisorCount(Picks(w, srows, vrows, answer), vrows[j].id) <= vrows[j].capacity {
      PicksSupervisorCount(w, srows, vrows, answer, j);
    }
  }

  /** Every extracted assignment is a selected pair of a listed student and a listed supervisor, reported with that pair's details. */
  lemma {:induction false} PicksAreChosen(w: Weights, srows: seq<StudentRow>, vrows: seq<SupervisorRow>, answer: Answer)
    ensures forall x | x in Picks(w, srows, vrows, answer) ::
      (x.studentId, x.supervisorId) in answer &&
      exists a, b | 0 <= a < |srows| && 0 <= b < |vrows| :: x == MakeAssignment(w, srows[a], vrows[b])
  {
    if srows != [] {
      var n := |srows| - 1;
      PicksAreChosen(w, srows[..n], vrows, answer);
      RowPicksAreChosen(w, srows[n], vrows, answer);
      forall x | x in Picks(w, srows, vrows, answer)
        ensures exists a, b | 0 <= a < |srows| && 0 <= b < |vrows| :: x == MakeAssignment(w, srows[a], vrows[b])
      {
        if x in Picks(w, srows[..n], vrows, answer) {
          var a, b :| 0 <= a < n && 0 <= b < |vrows| && x == MakeAssignment(w, srows[..n][a], vrows[b]);
          assert x == MakeAssignment(w, srows[a], vrows[b]);
        } else {
          var b :| 0 <= b < |vrows| && x == MakeAssignment(w, srows[n], vrows[b]);
        }
      }
    }
  }

  lemma {:induction false} RowPicksAreChosen(w: Weights, s: StudentRow, vrows: seq<SupervisorRow>, answer: Answer)
    ensures forall x | x in RowPicks(w, s, vrows, answer) ::
      (x.studentId, x.supervisorId) in answer && exists b | 0 <= b < |vrows| :: x == MakeAssignment(w, s, vrows[b])
  {
    if vrows != [] {
      var n := |vrows| - 1;
      RowPicksAreChosen(w, s, vrows[..n], answer);
      forall x | x in RowPicks(w, s, vrows, answer)
        ensures exists b | 0 <= b < |vrows| :: x == MakeAssignment(w, s, vrows[b])
      {
        if x in RowPicks(w, s, vrows[..n], answer) {
          var b :| 0 <= b < n && x == MakeAssignment(w, s, vrows[..n][b]);
          assert x == MakeAssignment(w, s, vrows[b]);
        } else {
          assert x == MakeAssignment(w, s, vrows[n]);
        }
      }
    }
  }

  // ---------------------------------------------------------------------------
  // The capacity check (lines 443-446) is exactly what makes the hard constraints satisfiable.

  /** The total number of students the answer gives the listed supervisors. */
  function SumTakers(answer: Answer, vrows: seq<SupervisorRow>, srows: seq<StudentRow>): nat
  {
    if vrows == [] then 0
    else SumTakers(answer, vrows[..|vrows| - 1], srows) + TakersIn(answer, vrows[|vrows| - 1].id, srows)
  }

  /** The total number of supervisors the answer gives the listed students. */
  function SumPartners(answer: Answer, srows: seq<StudentRow>, vrows: seq<SupervisorRow>): nat
  {
    if srows == [] then 0
    else SumPartners(answer, srows[..|srows| - 1], vrows) + PartnersIn(answer, srows[|srows| - 1].id, vrows)
  }

  lemma {:induction false} SumTakersSnoc(answer: Answer, vrows: seq<SupervisorRow>, srows: seq<StudentRow>)
    requires srows != []
    ensures SumTakers(answer, vrows, srows) ==
      SumTakers(answer, vrows, srows[..|srows| - 1]) + PartnersIn(answer, srows[|srows| - 1].id, vrows)
  {
    if vrows != [] {
      SumTakersSnoc(answer, vrows[..|vrows| - 1], srows);
    }
  }

  /** Counting the selected pairs by supervisor or by student gives the same total. */
  lemma {:induction false} DoubleCounting(answer: Answer, srows: seq<StudentRow>, vrows: seq<SupervisorRow>)
    ensures SumTakers(answer, vrows, srows) == SumPartners(answer, srows, vrows)
  {
    if srows == [] {
      SumTakersEmpty(answer, vrows);
    } else {
      SumTakersSnoc(answer, vrows, srows);
      DoubleCounting(answer, srows[..|srows| - 1], vrows);
    }
  }

  lemma {:induction false} SumTakersEmpty(answer: Answer, vrows: seq<SupervisorRow>)
    ensures SumTakers(answer, vrows, []) == 0
  {
    if vrows != [] {
      SumTakersEmpty(answer, vrows[..|vrows| - 1]);
    }
  }

  lemma {:induction false} SumPartnersOfFeasible(answer: Answer, srows: seq<StudentRow>, vrows: seq<SupervisorRow>)
    requires forall i | 0 <= i < |srows| :: PartnersIn(answer, srows[i].id, vrows) == 1
    ensures SumPartners(answer, srows, vrows) == |srows|
  {
    if srows != [] {
      SumPartnersOfFeasible(answer, srows[..|srows| - 1], vrows);
    }
  }

  lemma {:induction false} SumTakersWithinCapacity(answer: Answer, srows: seq<StudentRow>, vrows: seq<SupervisorRow>)
    requires forall j | 0 <= j < |vrows| :: TakersIn(answer, vrows[j].id, srows) <= vrows[j].capacity
    ensures SumTakers(answer, vrows, srows) <= CapacitySum(vrows)
  {
    if vrows != [] {
      SumTakersWithinCapacity(answer, srows, vrows[..|vrows| - 1]);
    }
  }

  /** A supervisor with a free slot, when fewer students are placed than the total capacity. */
  lemma {:induction false} SpareSupervisor(answer: Answer, srows: seq<StudentRow>, vrows: seq<SupervisorRow>) returns (j: nat)
    requires SumTakers(answer, vrows, srows) < CapacitySum(vrows)
    ensures j < |vrows| && TakersIn(answer, vrows[j].id, srows) < vrows[j].capacity
  {
    var n := |vrows| - 1;
    if TakersIn(answer, vrows[n].id, srows) < vrows[n].capacity {
      j := n;
    } else {
      j := SpareSupervisor(answer, srows, vrows[..n]);
    }
  }

  lemma {:induction false} PartnersNone(answer: Answer, sid: Option<string>, vrows: seq<SupervisorRow>)
    requires forall b | 0 <= b < |vrows| :: (sid, vrows[b].id) !in answer
    ensures PartnersIn(answer, sid, vrows) == 0
  {
    if vrows != [] {
      PartnersNone(answer, sid, vrows[..|vrows| - 1]);
    }
  }

  lemma {:induction false} PartnersExactlyOne(answer: Answer, sid: Option<string>, vrows: seq<SupervisorRow>, j: nat)
    requires j < |vrows|
    requires forall b | 0 <= b < |vrows| :: (sid, vrows[b].id) in answer <==> b == j
    ensures PartnersIn(answer, sid, vrows) == 1
  {
    var n := |vrows| - 1;
    if j == n {
      PartnersNone(answer, sid, vrows[..n]);
    } else {
      PartnersExactlyOne(answer, sid, vrows[..n], j);
    }
  }

  /** Adding a pair for another student does not change a student's partners. */
  lemma {:induction false} PartnersFrame(answer: Answer, p: (Option<string>, string), sid: Option<string>, vrows: seq<SupervisorRow>)
    requires p.0 != sid
    ensures PartnersIn(answer + {p}, sid, vrows) == PartnersIn(answer, sid, vrows)
  {
    if vrows != [] {
      PartnersFrame(answer, p, sid, vrows[..|vrows| - 1]);
    }
  }

  /** Adding a pair for a student not listed does not change a supervisor's takers. */
  lemma {:induction false} TakersFrame(answer: Answer, p: (Option<string>, string), vid: string, srows: seq<StudentRow>)
    requires forall a | 0 <= a < |srows| :: srows[a].id != p.0
    ensures TakersIn(answer + {p}, vid, srows) == TakersIn(answer, vid, srows)
  {
    if srows != [] {
      TakersFrame(answer, p, vid, srows[..|srows| - 1]);
    }
  }

  /**
   * When every remaining capacity is non-negative and together they cover the
   * students, some answer meets the hard constraints (placing each student in turn
   * with a supervisor that still has a free slot).
   */
  lemma {:induction false} FeasibleWhenCapacitySuffices(srows: seq<StudentRow>, vrows: seq<SupervisorRow>) returns (answer: Answer)
    requires UniqueStudents(srows) && UniqueSupervisors(vrows)
    requires forall j | 0 <= j < |vrows| :: vrows[j].capacity >= 0
    requires CapacitySum(vrows) >= |srows|
    ensures Feasible(srows, vrows, answer)
    ensures forall p | p in answer :: exists a | 0 <= a < |srows| :: srows[a].id == p.0
  {
    if srows == [] {
      answer := {};
      forall j | 0 <= j < |vrows| ensures TakersIn(answer, vrows[j].id, srows) <= vrows[j].capacity {
      }
      return;
    }
    var n := |srows| - 1;
    var init, s := srows[..n], srows[n];
    assert UniqueStudents(init);
    var prev := FeasibleWhenCapacitySuffices(init, vrows);
    DoubleCounting(prev, init, vrows);
    SumPartnersOfFeasible(prev, init, vrows);
    var j := SpareSupervisor(prev, init, vrows);
    var p := (s.id, vrows[j].id);
    answer := prev + {p};
    forall a | 0 <= a < n ensures init[a].id != s.id {
      assert srows[a].id != srows[n].id;
    }
    forall q | q in prev ensures q.0 != s.id {
      var a :| 0 <= a < n && init[a].id == q.0;
    }
    forall i | 0 <= i < |srows| ensures PartnersIn(answer, srows[i].id, vrows) == 1 {
      if i < n {
        PartnersFrame(prev, p, init[i].id, vrows);
      } else {
        forall b | 0 <= b < |vrows| ensures (s.id, vrows[b].id) in answer <==> b == j {
          if b != j {
            assert (if b < j then vrows[b].id != vrows[j].id else vrows[j].id != vrows[b].id);
          }
        }
        PartnersExactlyOne(answer, s.id, vrows, j);
      }
    }
    forall k | 0 <= k < |vrows| ensures TakersIn(answer, vrows[k].id, srows) <= vrows[k].capacity {
      TakersFrame(prev, p, vrows[k].id, init);
      assert srows[..n] == init;
      if k != j {
        assert (if k < j then vrows[k].id != vrows[j].id else vrows[j].id != vrows[k].id);
      }
    }
    forall q | q in answer ensures exists a | 0 <= a < |srows| :: srows[a].id == q.0 {
      if q in prev {
        var a :| 0 <= a < n && init[a].id == q.0;
        assert srows[a].id == q.0;
      } else {
        assert srows[n].id == q.0;
      }
    }
  }

  /** Conversely, an answer that meets the hard constraints needs the total capacity to cover the students. */
  lemma CapacityNeeded(srows: seq<StudentRow>, vrows: seq<SupervisorRow>, answer: Answer)
    requires Feasible(srows, vrows, answer)
    ensures CapacitySum(vrows) >= |srows|
  {
    DoubleCounting(answer, srows, vrows);
    SumPartnersOfFeasible(answer, srows, vrows);
    SumTakersWithinCapacity(answer, srows, vrows);
  }

  // ---------------------------------------------------------------------------
  // Writing the assignments back (lines 481-506)

  /** An assignment the write-back skips for lack of a student or supervisor id. */
  predicate Skipped(x: Assignment)
  {
    x.studentId.None? || x.studentId.value == [] || x.supervisorId == []
  }

  /** The student's profile once the assignment is recorded; topic names that are not standardised topics are dropped. */
  function Assigned(p: StudentProfile, x: Assignment, topics: set<string>): (q: StudentProfile)
    ensures q.supervisor == Some(x.supervisorId) && q.programmeMatchType == Some(x.programmeMatch)
    ensures q.matching <= topics && q.conflicting <= topics
    ensures q == p.(supervisor := q.supervisor, programmeMatchType := q.programmeMatchType, matching := q.matching, conflicting := q.conflicting)
  {
    p.(matching := x.matching * topics, conflicting := x.conflicting * topics,
       supervisor := Some(x.supervisorId), programmeMatchType := Some(x.programmeMatch))
  }

  /** The fields of a profile that the write-back never changes. */
  function Fixed(p: StudentProfile): StudentProfile
  {
    p.(supervisor := None, programmeMatchType := None, matching := {}, conflicting := {})
  }

  /**
   * One assignment: skipped when an id is missing, when no student or no
   * supervisor is found; raises (None) when the student lookup finds several.
   */
  ghost function ApplyAssignment(students: map<string, StudentProfile>, supervisors: map<string, SupervisorProfile>,
                                 topics: set<string>, x: Assignment): (r: Option<map<string, StudentProfile>>)
    ensures r.None? <==> !Skipped(x) && |LookupStudents(students, x.studentId.value)| > 1
    ensures r.Some? ==> r.value.Keys == students.Keys
    ensures r.Some? ==> forall e | e in students ::
      r.value[e] == students[e] ||
      (!Skipped(x) && LookupStudents(students, x.studentId.value) == {e} && x.supervisorId in supervisors &&
       r.value[e] == Assigned(students[e], x, topics))
    ensures r.Some? && !Skipped(x) && x.supervisorId in supervisors ==>
      forall e | e in LookupStudents(students, x.studentId.value) :: r.value[e] == Assigned(students[e], x, topics)
  {
    if Skipped(x) then Some(students)
    else
      var found := LookupStudents(students, x.studentId.value);
      if |found| == 0 then Some(students)
      else if |found| > 1 then None
      else if x.supervisorId !in supervisors then Some(students)
      else
        var e :| e in found;
        assert found == {e} by {
          forall e' | e' in found ensures e' == e {
            SingletonMember(found, e, e');
          }
        }
        Some(students[e := Assigned(students[e], x, topics)])
  }

  /** The write-back over all assignments, in order; nothing if any raises. */
  ghost function ApplyAssignments(students: map<string, StudentProfile>, supervisors: map<string, SupervisorProfile>,
                                  topics: set<string>, xs: seq<Assignment>): Option<map<string, StudentProfile>>
  {
    if xs == [] then Some(students)
    else match ApplyAssignments(students, supervisors, topics, xs[..|xs| - 1])
      case None => None
      case Some(m) => ApplyAssignment(m, supervisors, topics, xs[|xs| - 1])
  }

  /** The body of the write-back loop for one assignment. */
  method CommitOne(students: map<string, StudentProfile>, supervisors: map<string, SupervisorProfile>,
                   topics: set<string>, x: Assignment) returns (r: Option<map<string, StudentProfile>>)
    ensures r == ApplyAssignment(students, supervisors, topics, x)
  {
    if Skipped(x) {
      return Some(students);
    }
    var found := LookupStudents(students, x.studentId.value);
    if |found| == 0 {
      return Some(students);
    } else if |found| > 1 {
      return None;
    } else if x.supervisorId !in supervisors {
      return Some(students);
    }
    var e :| e in found;
    ghost var chosen :| chosen in found && ApplyAssignment(students, supervisors, topics, x) ==
      Some(students[chosen := Assigned(students[chosen], x, topics)]);
    SingletonMember(found, e, chosen);
    r := Some(students[e := Assigned(students[e], x, topics)]);
  }

  /** The write-back loop; `None` when an assignment raises. */
  method CommitAll(students0: map<string, StudentProfile>, supervisors: map<string, SupervisorProfile>,
                   topics: set<string>, xs: seq<Assignment>) returns (r: Option<map<string, StudentProfile>>)
    ensures r == ApplyAssignments(students0, supervisors, topics, xs)
  {
    var students := students0;
    for i := 0 to |xs|
      invariant ApplyAssignments(students0, supervisors, topics, xs[..i]) == Some(students)
    {
      assert xs[..i + 1][..i] == xs[..i];
      var next := CommitOne(students, supervisors, topics, xs[i]);
      if next.None? {
        CommitFailurePersists(students0, supervisors, topics, xs, i + 1);
        return None;
      }
      students := next.value;
    }
    assert xs[..|xs|] == xs;
    r := Some(students);
  }

  /** Once a prefix of the assignments raises, the whole write-back does. */
  lemma {:induction false} CommitFailurePersists(students: map<string, StudentProfile>, supervisors: map<string, SupervisorProfile>,
                                                 topics: set<string>, xs: seq<Assignment>, k: nat)
    requires k <= |xs| && ApplyAssignments(students, supervisors, topics, xs[..k]) == None
    ensures ApplyAssignments(students, supervisors, topics, xs) == None
    decreases |xs| - k
  {
    if k < |xs| {
      assert xs[..k + 1][..k] == xs[..k];
      CommitFailurePersists(students, supervisors, topics, xs, k + 1);
    } else {
      assert xs[..k] == xs;
    }
  }

  /** The lookup depends on the profiles' emails only. */
  lemma LookupSameKeys(m: map<string, StudentProfile>, n: map<string, StudentProfile>, sid: string)
    requires m.Keys == n.Keys
    ensures LookupStudents(m, sid) == LookupStudents(n, sid)
  {
  }

  /** The write-back keeps every profile and changes only the four allocation fields. */
  lemma {:induction false} CommitKeepsProfiles(students: map<string, StudentProfile>, supervisors: map<string, SupervisorProfile>,
                                              topics: set<string>, xs: seq<Assignment>)
    requires ApplyAssignments(students, supervisors, topics, xs).Some?
    ensures ApplyAssignments(students, supervisors, topics, xs).value.Keys == students.Keys
    ensures forall e | e in students :: Fixed(ApplyAssignments(students, supervisors, topics, xs).value[e]) == Fixed(students[e])
  {
    if xs != [] {
      CommitKeepsProfiles(students, supervisors, topics, xs[..|xs| - 1]);
    }
  }

  /** The assignment that would raise: its student id's lookup finds several students. */
  predicate Ambiguous(students: map<string, StudentProfile>, x: Assignment)
  {
    !Skipped(x) && |LookupStudents(students, x.studentId.value)| > 1
  }

  /** The write-back raises, and the transaction rolls back, exactly when some assignment is ambiguous. */
  lemma {:induction false} CommitFailsIffAmbiguous(students: map<string, StudentProfile>, supervisors: map<string, SupervisorProfile>,
                                                  topics: set<string>, xs: seq<Assignment>)
    ensures ApplyAssignments(students, supervisors, topics, xs).None? <==> exists k | 0 <= k < |xs| :: Ambiguous(students, xs[k])
  {
    if xs != [] {
      var n := |xs| - 1;
      var init := xs[..n];
      CommitFailsIffAmbiguous(students, supervisors, topics, init);
      var prev := ApplyAssignments(students, supervisors, topics, init);
      if prev.Some? {
        CommitKeepsProfiles(students, supervisors, topics, init);
        if !Skipped(xs[n]) {
          LookupSameKeys(prev.value, students, xs[n].studentId.value);
        }
        assert ApplyAssignments(students, supervisors, topics, xs) == ApplyAssignment(prev.value, supervisors, topics, xs[n]);
      }
      if exists k | 0 <= k < n :: Ambiguous(students, init[k]) {
        var k :| 0 <= k < n && Ambiguous(students, init[k]);
        assert Ambiguous(students, xs[k]);
      }
      if exists k | 0 <= k < |xs| :: Ambiguous(students, xs[k]) {
        var k :| 0 <= k < |xs| && Ambiguous(students, xs[k]);
        if k < n {
          assert Ambiguous(students, init[k]);
        }
      }
    }
  }

  /** The assignment `x` records its pair on the profile `e`. */
  predicate Finds(students: map<string, StudentProfile>, supervisors: map<string, SupervisorProfile>, x: Assignment, e: string)
  {
    !Skipped(x) && e in LookupStudents(students, x.studentId.value) && x.supervisorId in supervisors
  }

  /** A profile no assignment finds is left exactly as it was. */
  lemma {:induction false} UnfoundUnchanged(students: map<string, StudentProfile>, supervisors: map<string, SupervisorProfile>,
                                           topics: set<string>, xs: seq<Assignment>, e: string)
    requires ApplyAssignments(students, supervisors, topics, xs).Some? && e in students
    requires forall k | 0 <= k < |xs| :: !Finds(students, supervisors, xs[k], e)
    ensures e in ApplyAssignments(students, supervisors, topics, xs).value
    ensures ApplyAssignments(students, supervisors, topics, xs).value[e] == students[e]
  {
    if xs != [] {
      var n := |xs| - 1;
      var init := xs[..n];
      assert forall k | 0 <= k < n :: init[k] == xs[k];
      UnfoundUnchanged(students, supervisors, topics, init, e);
      var prev := ApplyAssignments(students, supervisors, topics, init).value;
      CommitKeepsProfiles(students, supervisors, topics, init);
      if !Skipped(xs[n]) {
        LookupSameKeys(prev, students, xs[n].studentId.value);
      }
    }
  }

  /** The last assignment that finds a profile decides its supervisor, match type and topic sets. */
  lemma {:induction false} LastAssignmentDecides(students: map<string, StudentProfile>, supervisors: map<string, SupervisorProfile>,
                                                topics: set<string>, xs: seq<Assignment>, k: nat, e: string)
    requires ApplyAssignments(students, supervisors, topics, xs).Some? && e in students
    requires k < |xs| && Finds(students, supervisors, xs[k], e)
    requires forall l | k < l < |xs| :: !Finds(students, supervisors, xs[l], e)
    ensures e in ApplyAssignments(students, supervisors, topics, xs).value
    ensures ApplyAssignments(students, supervisors, topics, xs).value[e] == Assigned(students[e], xs[k], topics)
  {
    var n := |xs| - 1;
    var init := xs[..n];
    assert ApplyAssignments(students, supervisors, topics, init).Some?;
    var prev := ApplyAssignments(students, supervisors, topics, init).value;
    CommitKeepsProfiles(students, supervisors, topics, init);
    if !Skipped(xs[n]) {
      LookupSameKeys(prev, students, xs[n].studentId.value);
    }
    if k == n {
      assert Fixed(prev[e]) == Fixed(students[e]);
      assert Assigned(prev[e], xs[k], topics) == Assigned(students[e], xs[k], topics);
    } else {
      assert forall l | k < l < n :: init[l] == xs[l];
      LastAssignmentDecides(students, supervisors, topics, init, k, e);
    }
  }

  /** The write-back keeps the database's topic references and profile links intact. */
  lemma {:induction false} CommitKeepsValid(students: map<string, StudentProfile>, supervisors: map<string, SupervisorProfile>,
                                           topics: set<string>, originals: map<string, Option<string>>,
                                           users: map<string, User>, xs: seq<Assignment>)
    requires TopicsClosed(topics, originals, students, supervisors) && ProfilesLinked(users, students, supervisors)
    requires ApplyAssignments(students, supervisors, topics, xs).Some?
    ensures TopicsClosed(topics, originals, ApplyAssignments(students, supervisors, topics, xs).value, supervisors)
    ensures ProfilesLinked(users, ApplyAssignments(students, supervisors, topics, xs).value, supervisors)
  {
    if xs != [] {
      CommitKeepsValid(students, supervisors, topics, originals, users, xs[..|xs| - 1]);
    }
  }

  // ---------------------------------------------------------------------------
  // The task (lines 413-513)

  datatype MatchError =
    | UnknownSemester                      // `Semester.objects.get` in the opening message raises
    | NoEligibleStudents                   // raises: nobody to allocate
    | Shortfall(capacity: int, needed: nat) // raises: remaining capacity below the number of students
    | MissingProgramme                     // `student.programme.name` on a student without a programme
    | DuplicateStudentId                   // two constraints `Assign_Student_<id>` of the same name
    | AmbiguousStudent                     // the write-back's lookup finds several students; rolled back

  /** The success message's counts: students and supervisors that took part. */
  datatype MatchReport = MatchReport(students: nat, supervisors: nat)

  /** Every listed student has a programme. */
  predicate HasProgrammes(students: map<string, StudentProfile>, order: seq<string>)
  {
    forall e | e in order :: e in students && students[e].programme.Some?
  }

  function StudentRows(students: map<string, StudentProfile>, order: seq<string>): seq<StudentRow>
    requires HasProgrammes(students, order)
  {
    seq(|order|, i requires 0 <= i < |order| => StudentRowOf(order[i], students[order[i]]))
  }

  function SupervisorRows(students: map<string, StudentProfile>, supervisors: map<string, SupervisorProfile>,
                          users: map<string, User>, order: seq<string>): seq<SupervisorRow>
    requires forall v | v in order :: v in supervisors && v in users
  {
    seq(|order|, j requires 0 <= j < |order| => SupervisorRowOf(students, supervisors[order[j]], order[j], users[order[j]].fullName))
  }

  /**
   * `optimal_matching` with the default weights: the pair scores, then the
   * solver's answer read back. Repeated student ids make the optimiser raise.
   */
  method OptimalMatching(srows: seq<StudentRow>, vrows: seq<SupervisorRow>, status: int, answer: Answer)
    returns (r: Result<seq<Assignment>, MatchError>)
    requires UniqueSupervisors(vrows)
    ensures r.Err? <==> !UniqueStudents(srows)
    ensures r.Err? ==> r.error == DuplicateStudentId
    ensures r.Ok? ==> r.value == Extracted(DefaultWeights, srows, vrows, status, answer)
  {
    if !UniqueStudents(srows) {
      return Err(DuplicateStudentId);
    }
    var scores := ScorePairs(DefaultWeights, srows, vrows);
    var out := ExtractAssignments(DefaultWeights, srows, vrows, scores, status, answer);
    return Ok(out);
  }

  /** The rows and the optimiser's result, or the first check that fails before any write. */
  method Allocate(students: map<string, StudentProfile>, vrows: seq<SupervisorRow>,
                  studentOrder: seq<string>, supOrder: seq<string>, status: int, answer: Answer)
    returns (r: Result<seq<Assignment>, MatchError>)
    requires forall e | e in studentOrder :: e in students
    requires |vrows| == |supOrder| && Distinct(supOrder) && forall j | 0 <= j < |vrows| :: vrows[j].id == supOrder[j]
    ensures r == Err(MissingProgramme) <==> !HasProgrammes(students, studentOrder)
    ensures r == Err(DuplicateStudentId) <==> HasProgrammes(students, studentOrder) && !UniqueStudents(StudentRows(students, studentOrder))
    ensures r.Err? ==> r == Err(MissingProgramme) || r == Err(DuplicateStudentId)
    ensures r.Ok? ==> HasProgrammes(students, studentOrder)
    ensures r.Ok? ==> r.value == Extracted(DefaultWeights, StudentRows(students, studentOrder), vrows, status, answer)
  {
    var srows := BuildStudentRows(students, studentOrder);
    if srows.None? {
      return Err(MissingProgramme);
    }
    assert srows.value == StudentRows(students, studentOrder);
    assert UniqueSupervisors(vrows);
    r := OptimalMatching(srows.value, vrows, status, answer);
  }

  /**
   * `match_students_for_semester`. The solver's status and 0/1 answer and the
   * two queries' orders are inputs. The semester is looked up first; on
   * success every assignment is recorded inside one transaction; on any error
   * the profiles are as before.
   */
  method MatchStudentsForSemester(db: Database, semester: int, studentOrder: seq<string>, supOrder: seq<string>,
                                  status: int, answer: Answer)
    returns (r: Result<MatchReport, MatchError>, assignments: seq<Assignment>)
    requires db.Valid()
    requires Enumerates(studentOrder, Eligible(db.students, semester))
    requires Enumerates(supOrder, Participating(db.students, db.supervisors))
    modifies db
    ensures db.Valid()
    ensures db.topics == old(db.topics) && db.originals == old(db.originals) && db.users == old(db.users)
    ensures db.supervisors == old(db.supervisors) && db.semesters == old(db.semesters)
    ensures r.Err? ==> db.students == old(db.students)
    ensures r == Err(UnknownSemester) <==> semester !in old(db.semesters)
    ensures r == Err(NoEligibleStudents) <==> semester in old(db.semesters) && Eligible(old(db.students), semester) == {}
    ensures r.Err? && r.error.Shortfall? <==>
      semester in old(db.semesters) && Eligible(old(db.students), semester) != {} &&
      CapacitySum(SupervisorRows(old(db.students), old(db.supervisors), old(db.users), supOrder)) < |Eligible(old(db.students), semester)|
    ensures r.Ok? || r == Err(MissingProgramme) || r == Err(DuplicateStudentId) || r == Err(AmbiguousStudent) ==>
      semester in old(db.semesters) &&
      CapacitySum(SupervisorRows(old(db.students), old(db.supervisors), old(db.users), supOrder)) >= |Eligible(old(db.students), semester)| > 0
    ensures r == Err(MissingProgramme) ==> !HasProgrammes(old(db.students), studentOrder)
    ensures r == Err(DuplicateStudentId) ==>
      HasProgrammes(old(db.students), studentOrder) && !UniqueStudents(StudentRows(old(db.students), studentOrder))
    ensures r.Ok? || r == Err(AmbiguousStudent) ==>
      HasProgrammes(old(db.students), studentOrder) && UniqueStudents(StudentRows(old(db.students), studentOrder)) &&
      assignments == Extracted(DefaultWeights, StudentRows(old(db.students), studentOrder),
                               SupervisorRows(old(db.students), old(db.supervisors), old(db.users), supOrder), status, answer)
    ensures r == Err(AmbiguousStudent) ==> ApplyAssignments(old(db.students), old(db.supervisors), old(db.topics), assignments).None?
    ensures r.Ok? ==>
      && Some(db.students) == ApplyAssignments(old(db.students), old(db.supervisors), old(db.topics), assignments)
      && r.value == MatchReport(|Eligible(old(db.students), semester)|, |Participating(old(db.students), old(db.supervisors))|)
  {
    assignments := [];
    EnumeratesSize(studentOrder, Eligible(db.students, semester));
    EnumeratesSize(supOrder, Participating(db.students, db.supervisors));
    if semester !in db.semesters {
      // the opening message's `Semester.objects.get` raises before any query
      return Err(UnknownSemester), assignments;
    }
    if studentOrder == [] {
      return Err(NoEligibleStudents), assignments;
    }
    var vrows := BuildSupervisorRows(db.students, db.supervisors, db.users, supOrder);
    assert vrows == SupervisorRows(db.students, db.supervisors, db.users, supOrder);
    var capacity := CapacitySum(vrows);
    if capacity < |studentOrder| {
      return Err(Shortfall(capacity, |studentOrder|)), assignments;
    }
    var outcome := Allocate(db.students, vrows, studentOrder, supOrder, status, answer);
    if outcome.Err? {
      return Err(outcome.error), assignments;
    }
    assignments := outcome.value;
    var committed := CommitAll(db.students, db.supervisors, db.topics, assignments);
    if committed.None? {
      return Err(AmbiguousStudent), assignments;
    }
    CommitKeepsValid(db.students, db.supervisors, db.topics, db.originals, db.users, assignments);
    db.students := committed.value;
    r := Ok(MatchReport(|studentOrder|, |supOrder|));
  }

  /**
   * Once the task's checks pass (enough remaining capacity, every student with a
   * programme, distinct student ids), the optimiser's hard constraints can be met.
   */
  lemma ChecksMakeProblemFeasible(students: map<string, StudentProfile>, supervisors: map<string, SupervisorProfile>,
                                  users: map<string, User>, semester: int, studentOrder: seq<string>, supOrder: seq<string>)
    returns (answer: Answer)
    requires supervisors.Keys <= users.Keys
    requires Enumerates(studentOrder, Eligible(students, semester))
    requires Enumerates(supOrder, Participating(students, supervisors))
    requires HasProgrammes(students, studentOrder) && UniqueStudents(StudentRows(students, studentOrder))
    requires CapacitySum(SupervisorRows(students, supervisors, users, supOrder)) >= |Eligible(students, semester)|
    ensures Feasible(StudentRows(students, studentOrder), SupervisorRows(students, supervisors, users, supOrder), answer)
  {
    var vrows := SupervisorRows(students, supervisors, users, supOrder);
    EnumeratesSize(studentOrder, Eligible(students, semester));
    forall j | 0 <= j < |vrows| ensures vrows[j].capacity >= 0 {
      assert supOrder[j] in Participating(students, supervisors);
    }
    answer := FeasibleWhenCapacitySuffices(StudentRows(students, studentOrder), vrows);
  }
}

/**
 * The student import command (users/management/commands/import_students.py).
 * Each CSV row gives a student's preference sentence and, optionally, an
 * identifier and a name. The command derives an email address from the
 * identifier, makes it unique by appending 1, 2, ... to its local part, creates
 * the student user, draws a programme at random and creates or updates the
 * student profile for the latest semester.
 */
module ImportStudents {
  import opened Wrappers
  import opened Text
  import opened Academics
  import opened Accounts
  import opened Store

  const DefaultEmailDomain: string := "student.example.com"
  const DefaultSentenceColumn: string := "sentence"

  // ---------------------------------------------------------------------------
  // Decimal numerals, as f-strings write non-negative integers

  function DigitChar(d: nat): (c: char)
    requires d < 10
    ensures '0' <= c <= '9'
  {
    ('0' as int + d) as char
  }

  /** The decimal numeral of `n`, without leading zeros. */
  function Digits(n: nat): (s: string)
    ensures |s| >= 1
    ensures n >= 10 ==> |s| >= 2
    ensures forall i | 0 <= i < |s| :: '0' <= s[i] <= '9'
  {
    if n < 10 then [DigitChar(n)] else Digits(n / 10) + [DigitChar(n % 10)]
  }

  /** Different numbers have different numerals. */
  lemma {:induction false} DigitsInjective(a: nat, b: nat)
    requires Digits(a) == Digits(b)
    ensures a == b
  {
    if a >= 10 && b >= 10 {
      var da, db := Digits(a), Digits(b);
      assert da[..|da| - 1] == Digits(a / 10) && db[..|db| - 1] == Digits(b / 10);
      DigitsInjective(a / 10, b / 10);
      assert DigitChar(a % 10) == da[|da| - 1] == db[|db| - 1] == DigitChar(b % 10);
    }
  }

  // ---------------------------------------------------------------------------
  // The unique-email loop (lines 97-107)

  /**
   * The `k`-th address the loop tries: `slug@domain` first, then
   * `slug1@domain`, `slug2@domain`, ...
   */
  function Candidate(slug: string, domain: string, k: nat): string
  {
    if k == 0 then slug + "@" + domain else slug + Digits(k) + "@" + domain
  }

  /** The loop never tries the same address twice. */
  lemma CandidateInjective(slug: string, domain: string, a: nat, b: nat)
    requires a != b
    ensures Candidate(slug, domain, a) != Candidate(slug, domain, b)
  {
    var ca, cb := Candidate(slug, domain, a), Candidate(slug, domain, b);
    if a > 0 && b > 0 && |ca| == |cb| {
      assert ca[|slug|..|slug| + |Digits(a)|] == Digits(a);
      assert cb[|slug|..|slug| + |Digits(b)|] == Digits(b);
      if Digits(a) == Digits(b) {
        DigitsInjective(a, b);
      }
    }
  }

  /** The addresses tried before the `n`-th. */
  function Tried(slug: string, domain: string, n: nat): set<string>
  {
    set k | 0 <= k < n :: Candidate(slug, domain, k)
  }

  lemma {:induction false} TriedSize(slug: string, domain: string, n: nat)
    ensures |Tried(slug, domain, n)| == n
  {
    if n > 0 {
      TriedSize(slug, domain, n - 1);
      assert Tried(slug, domain, n) == Tried(slug, domain, n - 1) + {Candidate(slug, domain, n - 1)};
      forall k | 0 <= k < n - 1 ensures Candidate(slug, domain, k) != Candidate(slug, domain, n - 1) {
        CandidateInjective(slug, domain, k, n - 1);
      }
    }
  }

  /** When every tried address is taken, there are at least as many users as tries. */
  lemma TriedBound(users: set<string>, slug: string, domain: string, n: nat)
    requires Tried(slug, domain, n) <= users
    ensures n <= |users|
  {
    TriedSize(slug, domain, n);
    assert |Tried(slug, domain, n)| <= |users| by {
      SubsetCard(Tried(slug, domain, n), users);
    }
  }

  lemma SubsetCard<T>(a: set<T>, b: set<T>)
    requires a <= b
    ensures |a| <= |b|
  {
    assert b == a + (b - a);
  }

  /** The first free address from the `k`-th try on. */
  function FirstFreeFrom(users: set<string>, slug: string, domain: string, k: nat): (e: string)
    requires Tried(slug, domain, k) <= users
    ensures e !in users
    decreases |users| - k
  {
    TriedBound(users, slug, domain, k);
    if Candidate(slug, domain, k) !in users then Candidate(slug, domain, k)
    else
      assert Tried(slug, domain, k + 1) == Tried(slug, domain, k) + {Candidate(slug, domain, k)};
      TriedBound(users, slug, domain, k + 1);
      FirstFreeFrom(users, slug, domain, k + 1)
  }

  /** The first free address is a tried address, and every address tried before it is taken. */
  lemma {:induction false} FirstFreeFromTried(users: set<string>, slug: string, domain: string, k: nat)
    requires Tried(slug, domain, k) <= users
    ensures exists j | k <= j :: FirstFreeFrom(users, slug, domain, k) == Candidate(slug, domain, j) && Tried(slug, domain, j) <= users
    decreases |users| - k
  {
    TriedBound(users, slug, domain, k);
    if Candidate(slug, domain, k) in users {
      assert Tried(slug, domain, k + 1) == Tried(slug, domain, k) + {Candidate(slug, domain, k)};
      TriedBound(users, slug, domain, k + 1);
      FirstFreeFromTried(users, slug, domain, k + 1);
    } else {
      assert FirstFreeFrom(users, slug, domain, k) == Candidate(slug, domain, k);
    }
  }

  /** The address the loop settles on. */
  function FirstFree(users: set<string>, slug: string, domain: string): (e: string)
    ensures e !in users
    ensures Candidate(slug, domain, 0) !in users ==> e == Candidate(slug, domain, 0)
  {
    FirstFreeFrom(users, slug, domain, 0)
  }

  /**
   * The while loop of lines 102-107: starting from `slug@domain`, it tries
   * `slug1@domain`, `slug2@domain`, ... while the address is taken. It stops
   * because every address it skips is a distinct existing user.
   */
  method UniqueEmail(users: set<string>, slug: string, domain: string) returns (email: string)
    ensures email == FirstFree(users, slug, domain)
    ensures email !in users
  {
    email := slug + "@" + domain;
    var counter: nat := 1;
    while email in users
      invariant counter >= 1
      invariant email == Candidate(slug, domain, counter - 1)
      invariant Tried(slug, domain, counter - 1) <= users
      invariant FirstFreeFrom(users, slug, domain, counter - 1) == FirstFree(users, slug, domain)
      decreases |users| - counter
    {
      assert Tried(slug, domain, counter) == Tried(slug, domain, counter - 1) + {email};
      TriedBound(users, slug, domain, counter);
      email := slug + Digits(counter) + "@" + domain;
      counter := counter + 1;
    }
  }

  // ---------------------------------------------------------------------------
  // One row (lines 76-150)

  /** The command's options; an empty id or name column means the option was not given. */
  datatype Options = Options(emailDomain: string, idColumn: string, nameColumn: string, sentenceColumn: string)

  /**
   * A decoded CSV row: column name to cell. `csv.DictReader` gives every header a
   * key and fills the missing trailing cells of a short row with `None`.
   */
  type CsvRow = map<string, Option<string>>

  /** `row.get(column, "")`. */
  function Cell(row: CsvRow, column: string): Option<string>
  {
    if column in row then row[column] else Some("")
  }

  /**
   * The cells the row reads are not `None`: the sentence cell, and the id and name
   * cells when those columns are given. Otherwise `.strip()` raises `AttributeError`
   * (lines 76, 83 and 91).
   */
  predicate Readable(opts: Options, row: CsvRow)
  {
    && Cell(row, opts.sentenceColumn).Some?
    && (opts.idColumn != [] ==> Cell(row, opts.idColumn).Some?)
    && (opts.nameColumn != [] ==> Cell(row, opts.nameColumn).Some?)
  }

  /** Every row is readable. */
  predicate AllReadable(opts: Options, rows: seq<CsvRow>)
  {
    forall k | 0 <= k < |rows| :: Readable(opts, rows[k])
  }

  lemma AllReadablePrefix(opts: Options, rows: seq<CsvRow>, n: nat)
    requires n <= |rows| && AllReadable(opts, rows)
    ensures AllReadable(opts, rows[..n])
  {
    assert forall k | 0 <= k < n :: rows[..n][k] == rows[k];
  }

  /** A numbered default such as `student7` is non-empty and has no surrounding whitespace. */
  lemma NumberedStripped(prefix: string, n: nat)
    requires prefix != [] && !IsSpace(prefix[0])
    ensures prefix + Digits(n) != [] && IsStripped(prefix + Digits(n))
  {
    var s := prefix + Digits(n);
    assert s[0] == prefix[0] && '0' <= s[|s| - 1] <= '9';
  }

  /**
   * The identifier the email is derived from: the stripped id cell when an id column
   * is given and the cell is not blank, `student<row number>` otherwise. It is
   * never empty and has no surrounding whitespace.
   */
  function Identifier(opts: Options, row: CsvRow, rowNum: nat): (id: string)
    requires Readable(opts, row)
    ensures id != [] && IsStripped(id)
    ensures opts.idColumn != [] && Strip(Cell(row, opts.idColumn).value) != [] ==> id == Strip(Cell(row, opts.idColumn).value)
    ensures opts.idColumn == [] || Strip(Cell(row, opts.idColumn).value) == [] ==> id == "student" + Digits(rowNum)
  {
    NumberedStripped("student", rowNum);
    if opts.idColumn != [] && Strip(Cell(row, opts.idColumn).value) != [] then Strip(Cell(row, opts.idColumn).value) else "student" + Digits(rowNum)
  }

  /**
   * The student's full name: the stripped name cell when a name column is given and
   * the cell is not blank, `Student <row number>` otherwise; never empty.
   */
  function FullName(opts: Options, row: CsvRow, rowNum: nat): (name: string)
    requires Readable(opts, row)
    ensures name != [] && IsStripped(name)
    ensures opts.nameColumn != [] && Strip(Cell(row, opts.nameColumn).value) != [] ==> name == Strip(Cell(row, opts.nameColumn).value)
    ensures opts.nameColumn == [] || Strip(Cell(row, opts.nameColumn).value) == [] ==> name == "Student " + Digits(rowNum)
  {
    NumberedStripped("Student ", rowNum);
    if opts.nameColumn != [] && Strip(Cell(row, opts.nameColumn).value) != [] then Strip(Cell(row, opts.nameColumn).value) else "Student " + Digits(rowNum)
  }

  /** The users, student profiles and counters the row loop builds. */
  datatype Registry = Registry(users: map<string, User>, students: map<string, StudentProfile>, created: nat, updated: nat)

  /**
   * `User.objects.get_or_create(email=...)` with the student defaults; a user found
   * who is not a student becomes one under the row's name.
   */
  function GetOrCreateStudent(users: map<string, User>, email: string, fullName: string): map<string, User>
  {
    if email !in users then users[email := User(email, fullName, StudentUser, true, false, false)]
    else if users[email].userType != StudentUser then users[email := users[email].(userType := StudentUser, fullName := fullName)]
    else users
  }

  /** The profile `update_or_create` leaves: preferences and supervisor cleared. */
  function WrittenStudent(existing: Option<StudentProfile>, programme: Programme, text: string, semester: int): StudentProfile
  {
    match existing
    case Some(s) =>
      s.(programme := Some(programme), preferenceText := Some(text), semester := Some(semester),
         positive := {}, negative := {}, supervisor := None)
    case None =>
      StudentProfile(Some(programme), Some(text), {}, {}, None, None, {}, {}, Some(semester))
  }

  /** `StudentProfile.objects.update_or_create(user=...)` and the counter it moves. */
  function UpdateOrCreateProfile(r: Registry, users: map<string, User>, email: string,
                                 programme: Programme, text: string, semester: int): Registry
  {
    if email in r.students then
      Registry(users, r.students[email := WrittenStudent(Some(r.students[email]), programme, text, semester)], r.created, r.updated + 1)
    else Registry(users, r.students[email := WrittenStudent(None, programme, text, semester)], r.created + 1, r.updated)
  }

  /** The address a row's user gets. */
  function StudentEmail(users: map<string, User>, opts: Options, row: CsvRow, rowNum: nat, slugify: string -> string): string
    requires Readable(opts, row)
  {
    FirstFree(users.Keys, slugify(Identifier(opts, row, rowNum)), opts.emailDomain)
  }

  /**
   * One row: a `None` cell raises as soon as it is read, before anything is written;
   * then `Semester.objects.latest()` raises when no semester exists.
   */
  function ImportRow(r: Registry, row: CsvRow, rowNum: nat, opts: Options, programme: Programme,
                     latest: Option<int>, slugify: string -> string): Result<Registry, ImportError>
  {
    if !Readable(opts, row) then Err(UnreadableRow(rowNum))
    else if latest.None? then Err(NoSemester)
    else
      var email := StudentEmail(r.users, opts, row, rowNum, slugify);
      var users := GetOrCreateStudent(r.users, email, FullName(opts, row, rowNum));
      var text := Strip(Cell(row, opts.sentenceColumn).value);
      Ok(UpdateOrCreateProfile(r, users, email, programme, text, latest.value))
  }

  /** The profile keys are user keys, and every user is stored under its own email. */
  predicate Linked(r: Registry)
  {
    r.students.Keys <= r.users.Keys && forall e | e in r.users :: r.users[e].email == e
  }

  /** A registry with one more student, counted as created. */
  function Added(r: Registry, email: string, user: User, profile: StudentProfile): Registry
  {
    Registry(r.users[email := user], r.students[email := profile], r.created + 1, r.updated)
  }

  /** The user a row creates. */
  function NewStudentUser(email: string, fullName: string): User
  {
    User(email, fullName, StudentUser, true, false, false)
  }

  /**
   * Adding a student under a free address keeps the profiles linked, adds exactly
   * one user and one profile, and changes no existing user or profile.
   */
  lemma AddedSpec(r: Registry, email: string, user: User, profile: StudentProfile)
    requires Linked(r) && email !in r.users && user.email == email
    ensures var q := Added(r, email, user, profile);
      && Linked(q)
      && q.created == r.created + 1 && q.updated == r.updated
      && q.users.Keys == r.users.Keys + {email} && |q.users| == |r.users| + 1
      && q.students.Keys == r.students.Keys + {email}
      && (forall e | e in r.users :: e in q.users && q.users[e] == r.users[e])
      && (forall e | e in r.students :: e in q.students && q.students[e] == r.students[e])
  {
    var q := Added(r, email, user, profile);
    assert email !in r.students;
    assert q.users.Keys == r.users.Keys + {email};
    assert q.students.Keys == r.students.Keys + {email};
    assert Linked(q);
  }

  /**
   * Every row creates a new user and a new profile: the address is free, so
   * `get_or_create` always creates, and no profile can exist for a new user; the
   * "exists but is not a student" branch and the updated counter are never reached.
   */
  lemma ImportRowCreates(r: Registry, row: CsvRow, rowNum: nat, opts: Options, programme: Programme,
                         semester: int, slugify: string -> string)
    requires Linked(r) && Readable(opts, row)
    ensures var email := StudentEmail(r.users, opts, row, rowNum, slugify);
      && email !in r.users && email !in r.students
      && ImportRow(r, row, rowNum, opts, programme, Some(semester), slugify) ==
           Ok(Added(r, email, NewStudentUser(email, FullName(opts, row, rowNum)),
                    WrittenStudent(None, programme, Strip(Cell(row, opts.sentenceColumn).value), semester)))
  {
  }

  /** The row loop over all rows, numbered from 1; `drawn[i]` is the programme `random.choice` draws for row `i`. */
  function ImportRows(r: Registry, rows: seq<CsvRow>, drawn: seq<Programme>, opts: Options,
                      latest: Option<int>, slugify: string -> string): Result<Registry, ImportError>
    requires |drawn| == |rows|
  {
    if rows == [] then Ok(r)
    else
      var n := |rows| - 1;
      match ImportRows(r, rows[..n], drawn[..n], opts, latest, slugify)
      case Err(e) => Err(e)
      case Ok(q) => ImportRow(q, rows[n], n + 1, opts, drawn[n], latest, slugify)
  }

  /**
   * Row `k` (from 0) is where the loop raises: every row before it is readable, and
   * it is unreadable or no semester exists, in which case it is the first row.
   */
  predicate RaisesAt(opts: Options, rows: seq<CsvRow>, latest: Option<int>, k: nat)
    requires k < |rows|
  {
    && (forall j | 0 <= j < k :: Readable(opts, rows[j]))
    && (!Readable(opts, rows[k]) || latest.None?)
    && (latest.None? ==> k == 0)
  }

  /** The error the raising row gives: its unreadable cell, else the missing semester. */
  function RowError(opts: Options, row: CsvRow, rowNum: nat): ImportError
  {
    if Readable(opts, row) then NoSemester else UnreadableRow(rowNum)
  }

  /** At most one row is where the loop raises. */
  lemma RaisesAtUnique(opts: Options, rows: seq<CsvRow>, latest: Option<int>, i: nat, k: nat)
    requires i < |rows| && k < |rows|
    requires RaisesAt(opts, rows, latest, i) && RaisesAt(opts, rows, latest, k)
    ensures i == k
  {
  }

  /**
   * The import raises exactly when some row is where the loop raises, and then with
   * that row's error; when it succeeds every row was readable and, if there were
   * rows, a semester exists.
   */
  lemma {:induction false} ImportRowsFails(r: Registry, rows: seq<CsvRow>, drawn: seq<Programme>,
                                           opts: Options, latest: Option<int>, slugify: string -> string)
    requires |drawn| == |rows|
    ensures ImportRows(r, rows, drawn, opts, latest, slugify).Err? <==>
      exists k | 0 <= k < |rows| :: RaisesAt(opts, rows, latest, k)
    ensures forall k | 0 <= k < |rows| && RaisesAt(opts, rows, latest, k) ::
      ImportRows(r, rows, drawn, opts, latest, slugify) == Err(RowError(opts, rows[k], k + 1))
    ensures ImportRows(r, rows, drawn, opts, latest, slugify).Ok? ==>
      AllReadable(opts, rows) && (rows != [] ==> latest.Some?)
  {
    if rows != [] {
      var n := |rows| - 1;
      ImportRowsFails(r, rows[..n], drawn[..n], opts, latest, slugify);
      var all := ImportRows(r, rows, drawn, opts, latest, slugify);
      match ImportRows(r, rows[..n], drawn[..n], opts, latest, slugify)
      case Err(e) =>
        FailsStepErr(opts, rows, latest, all, e);
      case Ok(q) =>
        ImportRowOutcome(q, rows[n], n + 1, opts, drawn[n], latest, slugify);
        FailsStepOk(opts, rows, latest, all);
    }
  }

  /** The three facts `ImportRowsFails` states about a result of the loop over `rows`. */
  predicate FailsWhereRaises(opts: Options, rows: seq<CsvRow>, latest: Option<int>, result: Result<Registry, ImportError>)
  {
    && (result.Err? <==> exists k | 0 <= k < |rows| :: RaisesAt(opts, rows, latest, k))
    && (forall k | 0 <= k < |rows| && RaisesAt(opts, rows, latest, k) :: result == Err(RowError(opts, rows[k], k + 1)))
    && (result.Ok? ==> AllReadable(opts, rows) && (rows != [] ==> latest.Some?))
  }

  /** A row raises exactly when a cell is `None` or no semester exists, with `RowError`. */
  lemma ImportRowOutcome(q: Registry, row: CsvRow, rowNum: nat, opts: Options, programme: Programme,
                         latest: Option<int>, slugify: string -> string)
    ensures ImportRow(q, row, rowNum, opts, programme, latest, slugify).Err? <==> !Readable(opts, row) || latest.None?
    ensures ImportRow(q, row, rowNum, opts, programme, latest, slugify).Err? ==>
      ImportRow(q, row, rowNum, opts, programme, latest, slugify).error == RowError(opts, row, rowNum)
  {
  }

  /** Once the rows before the last raised, the whole loop raises with the same error. */
  lemma FailsStepErr(opts: Options, rows: seq<CsvRow>, latest: Option<int>, all: Result<Registry, ImportError>, e: ImportError)
    requires rows != [] && all == Err(e)
    requires FailsWhereRaises(opts, rows[..|rows| - 1], latest, Err(e))
    ensures FailsWhereRaises(opts, rows, latest, all)
  {
    var n := |rows| - 1;
    var k :| 0 <= k < n && RaisesAt(opts, rows[..n], latest, k);
    RaisesBefore(opts, rows, latest, n, k);
  }

  /** When the rows before the last passed, the loop's result is the last row's. */
  lemma FailsStepOk(opts: Options, rows: seq<CsvRow>, latest: Option<int>, all: Result<Registry, ImportError>)
    requires rows != []
    requires AllReadable(opts, rows[..|rows| - 1]) && (|rows| > 1 ==> latest.Some?)
    requires all.Err? <==> !Readable(opts, rows[|rows| - 1]) || latest.None?
    requires all.Err? ==> all.error == RowError(opts, rows[|rows| - 1], |rows|)
    ensures FailsWhereRaises(opts, rows, latest, all)
  {
    RaisesAtLast(opts, rows, latest);
  }

  /** Whether a row before `n` is where the loop raises does not depend on the rows after `n`. */
  lemma RaisesAtPrefix(opts: Options, rows: seq<CsvRow>, latest: Option<int>, n: nat, k: nat)
    requires k < n <= |rows|
    ensures RaisesAt(opts, rows[..n], latest, k) <==> RaisesAt(opts, rows, latest, k)
  {
    assert forall j | 0 <= j <= k :: rows[..n][j] == rows[j];
  }

  /** A row where a prefix of the rows raises is the one row where all of them raise. */
  lemma RaisesBefore(opts: Options, rows: seq<CsvRow>, latest: Option<int>, n: nat, k: nat)
    requires k < n <= |rows| && RaisesAt(opts, rows[..n], latest, k)
    ensures rows[..n][k] == rows[k] && RaisesAt(opts, rows, latest, k)
    ensures forall i | 0 <= i < |rows| && RaisesAt(opts, rows, latest, i) :: i == k
  {
    RaisesAtPrefix(opts, rows, latest, n, k);
    forall i | 0 <= i < |rows| && RaisesAt(opts, rows, latest, i)
      ensures i == k
    {
      RaisesAtUnique(opts, rows, latest, i, k);
    }
  }

  /** When every row before the last passed, only the last row can be where the loop raises. */
  lemma RaisesAtLast(opts: Options, rows: seq<CsvRow>, latest: Option<int>)
    requires rows != []
    requires AllReadable(opts, rows[..|rows| - 1]) && (|rows| > 1 ==> latest.Some?)
    ensures forall i | 0 <= i < |rows| - 1 :: !RaisesAt(opts, rows, latest, i)
    ensures RaisesAt(opts, rows, latest, |rows| - 1) <==> !Readable(opts, rows[|rows| - 1]) || latest.None?
    ensures Readable(opts, rows[|rows| - 1]) ==> AllReadable(opts, rows)
  {
    var n := |rows| - 1;
    assert forall j | 0 <= j < n :: rows[..n][j] == rows[j];
  }

  /** The loop over one more row continues from the rows before it. */
  lemma ImportRowsSnoc(start: Registry, rows: seq<CsvRow>, drawn: seq<Programme>, opts: Options,
                       latest: Option<int>, slugify: string -> string, i: nat, reg: Registry)
    requires |drawn| == |rows|
    requires i < |rows| && ImportRows(start, rows[..i], drawn[..i], opts, latest, slugify) == Ok(reg)
    ensures ImportRows(start, rows[..i + 1], drawn[..i + 1], opts, latest, slugify) ==
      ImportRow(reg, rows[i], i + 1, opts, drawn[i], latest, slugify)
  {
    assert rows[..i + 1][..i] == rows[..i] && drawn[..i + 1][..i] == drawn[..i];
    ImportRowsStep(start, rows[..i + 1], drawn[..i + 1], opts, latest, slugify, reg, rows[i], drawn[i]);
  }

  /** A loop whose rows before the last passed ends with the last row. */
  lemma ImportRowsStep(start: Registry, rows: seq<CsvRow>, drawn: seq<Programme>, opts: Options,
                       latest: Option<int>, slugify: string -> string, reg: Registry, row: CsvRow, programme: Programme)
    requires |drawn| == |rows|
    requires rows != [] && rows[|rows| - 1] == row && drawn[|rows| - 1] == programme
    requires ImportRows(start, rows[..|rows| - 1], drawn[..|rows| - 1], opts, latest, slugify) == Ok(reg)
    ensures ImportRows(start, rows, drawn, opts, latest, slugify) ==
      ImportRow(reg, row, |rows|, opts, programme, latest, slugify)
  {
  }

  /** When the rows before row `i` passed and row `i` raises, the import raises with row `i`'s error. */
  lemma RowRaises(start: Registry, rows: seq<CsvRow>, drawn: seq<Programme>, opts: Options,
                  latest: Option<int>, slugify: string -> string, i: nat, reg: Registry)
    requires |drawn| == |rows|
    requires i < |rows| && ImportRows(start, rows[..i], drawn[..i], opts, latest, slugify) == Ok(reg)
    requires !Readable(opts, rows[i]) || latest.None?
    ensures ImportRows(start, rows, drawn, opts, latest, slugify) == Err(RowError(opts, rows[i], i + 1))
  {
    ImportRowsPassed(start, rows[..i], drawn[..i], opts, latest, slugify, reg);
    RaisesAfterPassed(opts, rows, latest, i);
    ImportRowsErrorAt(start, rows, drawn, opts, latest, slugify, i);
  }

  /** A row that raises after readable rows, with a semester when it is not the first, is where the loop raises. */
  lemma RaisesAfterPassed(opts: Options, rows: seq<CsvRow>, latest: Option<int>, i: nat)
    requires i < |rows| && AllReadable(opts, rows[..i]) && (i > 0 ==> latest.Some?)
    requires !Readable(opts, rows[i]) || latest.None?
    ensures RaisesAt(opts, rows, latest, i)
  {
    assert forall j | 0 <= j < i :: rows[..i][j] == rows[j];
  }

  /** `ImportRowsFails` for the row where the loop raises. */
  lemma ImportRowsErrorAt(r: Registry, rows: seq<CsvRow>, drawn: seq<Programme>, opts: Options,
                          latest: Option<int>, slugify: string -> string, k: nat)
    requires |drawn| == |rows|
    requires k < |rows| && RaisesAt(opts, rows, latest, k)
    ensures ImportRows(r, rows, drawn, opts, latest, slugify) == Err(RowError(opts, rows[k], k + 1))
  {
    ImportRowsFails(r, rows, drawn, opts, latest, slugify);
  }

  /** `ImportRowsFails` for a loop that passed. */
  lemma ImportRowsPassed(r: Registry, rows: seq<CsvRow>, drawn: seq<Programme>, opts: Options,
                         latest: Option<int>, slugify: string -> string, q: Registry)
    requires |drawn| == |rows|
    requires ImportRows(r, rows, drawn, opts, latest, slugify) == Ok(q)
    ensures AllReadable(opts, rows) && (rows != [] ==> latest.Some?)
  {
    ImportRowsFails(r, rows, drawn, opts, latest, slugify);
  }

  /** The last row of a non-empty import, when the rows before it built `m`. */
  lemma ImportRowsLast(r: Registry, rows: seq<CsvRow>, drawn: seq<Programme>,
                       opts: Options, semester: int, slugify: string -> string, m: Registry)
    requires |drawn| == |rows|
    requires rows != [] && Linked(m) && Readable(opts, rows[|rows| - 1])
    requires ImportRows(r, rows[..|rows| - 1], drawn[..|rows| - 1], opts, Some(semester), slugify) == Ok(m)
    ensures var row, n := rows[|rows| - 1], |rows|;
      var email := StudentEmail(m.users, opts, row, n, slugify);
      && email !in m.users
      && ImportRows(r, rows, drawn, opts, Some(semester), slugify) ==
           Ok(Added(m, email, NewStudentUser(email, FullName(opts, row, n)),
                    WrittenStudent(None, drawn[n - 1], Strip(Cell(row, opts.sentenceColumn).value), semester)))
  {
    var n := |rows| - 1;
    ImportRowCreates(m, rows[n], n + 1, opts, drawn[n], semester, slugify);
  }

  /**
   * `q` is `r` after `k` rows that each created a student: `created` grew by `k`,
   * `updated` did not move, the user table grew by exactly `k` new addresses, the
   * new profiles are exactly those of the new users, and existing users and profiles
   * are untouched.
   */
  predicate Grown(r: Registry, q: Registry, k: nat)
  {
    && Linked(q)
    && q.created == r.created + k && q.updated == r.updated
    && r.users.Keys <= q.users.Keys && |q.users| == |r.users| + k
    && q.students.Keys == r.students.Keys + (q.users.Keys - r.users.Keys)
    && (forall e | e in r.users :: e in q.users && q.users[e] == r.users[e])
    && (forall e | e in r.students :: e in q.students && q.students[e] == r.students[e])
  }

  lemma GrownStep(r: Registry, m: Registry, k: nat, email: string, user: User, profile: StudentProfile)
    requires Grown(r, m, k) && email !in m.users && user.email == email
    ensures Grown(r, Added(m, email, user, profile), k + 1)
  {
    GrownStepSize(r, m, k, email, user, profile);
    GrownStepKeys(r, m, k, email, user, profile);
    GrownStepFrame(r, m, k, email, user, profile);
  }

  lemma GrownStepSize(r: Registry, m: Registry, k: nat, email: string, user: User, profile: StudentProfile)
    requires Grown(r, m, k) && email !in m.users && user.email == email
    ensures var q := Added(m, email, user, profile);
      Linked(q) && q.created == r.created + k + 1 && q.updated == r.updated &&
      r.users.Keys <= q.users.Keys && |q.users| == |r.users| + k + 1
  {
    AddedSpec(m, email, user, profile);
  }

  lemma GrownStepKeys(r: Registry, m: Registry, k: nat, email: string, user: User, profile: StudentProfile)
    requires Grown(r, m, k) && email !in m.users && user.email == email
    ensures var q := Added(m, email, user, profile);
      q.students.Keys == r.students.Keys + (q.users.Keys - r.users.Keys)
  {
    NewKeysStep(r.students.Keys, r.users.Keys, m.students.Keys, m.users.Keys, email);
    MapAddKeys(m.students, email, profile);
    MapAddKeys(m.users, email, user);
  }

  lemma MapAddKeys<K, V>(t: map<K, V>, key: K, v: V)
    ensures t[key := v].Keys == t.Keys + {key}
  {
  }

  /** Adding one new key to both tables keeps the profile keys equal to the old ones plus the new users. */
  lemma NewKeysStep<K>(oldProfiles: set<K>, oldUsers: set<K>, profiles: set<K>, users: set<K>, key: K)
    requires profiles == oldProfiles + (users - oldUsers) && oldUsers <= users && key !in users
    ensures profiles + {key} == oldProfiles + ((users + {key}) - oldUsers)
  {
  }

  lemma GrownStepFrame(r: Registry, m: Registry, k: nat, email: string, user: User, profile: StudentProfile)
    requires Grown(r, m, k) && email !in m.users && user.email == email
    ensures var q := Added(m, email, user, profile);
      && (forall e | e in r.users :: e in q.users && q.users[e] == r.users[e])
      && (forall e | e in r.students :: e in q.students && q.students[e] == r.students[e])
  {
    AddedSpec(m, email, user, profile);
  }

  /** Every row creates one user and one profile (see `Grown`). */
  lemma {:induction false} ImportRowsCounts(r: Registry, rows: seq<CsvRow>, drawn: seq<Programme>,
                                            opts: Options, semester: int, slugify: string -> string)
    requires |drawn| == |rows|
    requires Linked(r) && AllReadable(opts, rows)
    ensures ImportRows(r, rows, drawn, opts, Some(semester), slugify).Ok?
    ensures Grown(r, ImportRows(r, rows, drawn, opts, Some(semester), slugify).value, |rows|)
  {
    if rows == [] {
      assert r.users.Keys - r.users.Keys == {};
    } else {
      var n := |rows| - 1;
      AllReadablePrefix(opts, rows, n);
      ImportRowsCounts(r, rows[..n], drawn[..n], opts, semester, slugify);
      var m := ImportRows(r, rows[..n], drawn[..n], opts, Some(semester), slugify).value;
      ImportRowsLast(r, rows, drawn, opts, semester, slugify, m);
      var email := StudentEmail(m.users, opts, rows[n], n + 1, slugify);
      GrownStep(r, m, n, email, NewStudentUser(email, FullName(opts, rows[n], n + 1)),
                WrittenStudent(None, drawn[n], Strip(Cell(rows[n], opts.sentenceColumn).value), semester));
    }
  }

  /** With a semester the rows all succeed and the profiles stay linked. */
  lemma {:induction false} ImportRowsLinked(r: Registry, rows: seq<CsvRow>, drawn: seq<Programme>,
                                            opts: Options, semester: int, slugify: string -> string)
    requires |drawn| == |rows|
    requires Linked(r) && AllReadable(opts, rows)
    ensures ImportRows(r, rows, drawn, opts, Some(semester), slugify).Ok?
    ensures Linked(ImportRows(r, rows, drawn, opts, Some(semester), slugify).value)
  {
    if rows != [] {
      var n := |rows| - 1;
      AllReadablePrefix(opts, rows, n);
      ImportRowsLinked(r, rows[..n], drawn[..n], opts, semester, slugify);
      var m := ImportRows(r, rows[..n], drawn[..n], opts, Some(semester), slugify).value;
      ImportRowsLast(r, rows, drawn, opts, semester, slugify, m);
      var email := StudentEmail(m.users, opts, rows[n], n + 1, slugify);
      AddedSpec(m, email, NewStudentUser(email, FullName(opts, rows[n], n + 1)),
                WrittenStudent(None, drawn[n], Strip(Cell(rows[n], opts.sentenceColumn).value), semester));
    }
  }

  /** Every user of `q` not in `r` is an active student user with a profile as the import creates it. */
  predicate NewAreFresh(r: Registry, q: Registry, programmes: seq<Programme>, semester: int)
  {
    forall e | e in q.users && e !in r.users ::
      && q.users[e].userType == StudentUser && q.users[e].isActive
      && !q.users[e].isStaff && !q.users[e].isSuperuser
      && e in q.students && FreshStudent(q.students[e], programmes, semester)
  }

  lemma FreshStep(r: Registry, m: Registry, programmes: seq<Programme>, semester: int,
                  email: string, fullName: string, profile: StudentProfile)
    requires NewAreFresh(r, m, programmes, semester) && FreshStudent(profile, programmes, semester)
    ensures NewAreFresh(r, Added(m, email, NewStudentUser(email, fullName), profile), programmes, semester)
  {
    var q := Added(m, email, NewStudentUser(email, fullName), profile);
    forall e | e in q.users && e !in r.users
      ensures q.users[e].userType == StudentUser && q.users[e].isActive
      ensures !q.users[e].isStaff && !q.users[e].isSuperuser
      ensures e in q.students && FreshStudent(q.students[e], programmes, semester)
    {
      if e != email {
        assert e in m.users;
      }
    }
  }

  /**
   * Every new user is an active student, neither staff nor superuser, whose
   * profile holds the latest semester, a drawn programme, no preferences and no
   * supervisor.
   */
  lemma {:induction false} ImportRowsNewStudents(r: Registry, rows: seq<CsvRow>, drawn: seq<Programme>,
                                                 programmes: seq<Programme>, opts: Options, semester: int,
                                                 slugify: string -> string)
    requires |drawn| == |rows| && forall k | 0 <= k < |drawn| :: drawn[k] in programmes
    requires Linked(r) && AllReadable(opts, rows)
    ensures ImportRows(r, rows, drawn, opts, Some(semester), slugify).Ok?
    ensures NewAreFresh(r, ImportRows(r, rows, drawn, opts, Some(semester), slugify).value, programmes, semester)
  {
    if rows != [] {
      var n := |rows| - 1;
      AllReadablePrefix(opts, rows, n);
      ImportRowsNewStudents(r, rows[..n], drawn[..n], programmes, opts, semester, slugify);
      ImportRowsLinked(r, rows[..n], drawn[..n], opts, semester, slugify);
      var m := ImportRows(r, rows[..n], drawn[..n], opts, Some(semester), slugify).value;
      ImportRowsLast(r, rows, drawn, opts, semester, slugify, m);
      var email := StudentEmail(m.users, opts, rows[n], n + 1, slugify);
      FreshStep(r, m, programmes, semester, email, FullName(opts, rows[n], n + 1),
                WrittenStudent(None, drawn[n], Strip(Cell(rows[n], opts.sentenceColumn).value), semester));
    }
  }

  /** A profile as the import creates it. */
  predicate FreshStudent(s: StudentProfile, programmes: seq<Programme>, semester: int)
  {
    && s.semester == Some(semester) && s.supervisor.None?
    && s.positive == {} && s.negative == {} && s.matching == {} && s.conflicting == {}
    && s.programme.Some? && s.programme.value in programmes
  }

  /** The import keeps every topic reference and profile link valid. */
  lemma ImportKeepsValid(
    topics: set<string>, originals: map<string, Option<string>>, users: map<string, User>,
    students: map<string, StudentProfile>, sups: map<string, SupervisorProfile>,
    rows: seq<CsvRow>, drawn: seq<Programme>, programmes: seq<Programme>, opts: Options, semester: int,
    slugify: string -> string)
    requires TopicsClosed(topics, originals, students, sups) && ProfilesLinked(users, students, sups)
    requires |drawn| == |rows| && forall k | 0 <= k < |drawn| :: drawn[k] in programmes
    requires AllReadable(opts, rows)
    ensures ImportRows(Registry(users, students, 0, 0), rows, drawn, opts, Some(semester), slugify).Ok?
    ensures var q := ImportRows(Registry(users, students, 0, 0), rows, drawn, opts, Some(semester), slugify).value;
      TopicsClosed(topics, originals, q.students, sups) && ProfilesLinked(q.users, q.students, sups)
  {
    var r := Registry(users, students, 0, 0);
    ImportRowsCounts(r, rows, drawn, opts, semester, slugify);
    ImportRowsNewStudents(r, rows, drawn, programmes, opts, semester, slugify);
    var q := ImportRows(r, rows, drawn, opts, Some(semester), slugify).value;
    GrownKeepsValid(topics, originals, sups, r, q, |rows|, programmes, semester);
  }

  /** Grown by fresh students only, a valid store stays valid. */
  lemma GrownKeepsValid(topics: set<string>, originals: map<string, Option<string>>, sups: map<string, SupervisorProfile>,
                        r: Registry, q: Registry, k: nat, programmes: seq<Programme>, semester: int)
    requires TopicsClosed(topics, originals, r.students, sups) && ProfilesLinked(r.users, r.students, sups)
    requires Grown(r, q, k) && NewAreFresh(r, q, programmes, semester)
    ensures TopicsClosed(topics, originals, q.students, sups) && ProfilesLinked(q.users, q.students, sups)
  {
    forall e | e in q.students ensures StudentTopicsIn(q.students[e], topics) {
      GrownProfile(r, q, k, programmes, semester, e);
    }
    forall e | e in q.students && q.students[e].supervisor.Some? ensures q.students[e].supervisor.value in sups {
      GrownProfile(r, q, k, programmes, semester, e);
    }
  }

  /** A profile after the import is an old one, untouched, or a fresh one. */
  lemma GrownProfile(r: Registry, q: Registry, k: nat, programmes: seq<Programme>, semester: int, e: string)
    requires Grown(r, q, k) && NewAreFresh(r, q, programmes, semester) && e in q.students
    ensures (e in r.students && q.students[e] == r.students[e]) || FreshStudent(q.students[e], programmes, semester)
  {
    if e !in r.students {
      assert e in q.users && e !in r.users;
    }
  }

  // ---------------------------------------------------------------------------
  // The command (lines 43-163)

  datatype ImportError =
    | NoProgrammes                           // no programme to draw from
    | MissingSentenceHeader(column: string)
    | MissingIdHeader(column: string)
    | MissingNameHeader(column: string)
    | NoSemester                             // `Semester.objects.latest()` found none
    | UnreadableRow(rowNum: nat)             // a cell the row reads is `None`: `.strip()` raised

  datatype ImportOutcome =
    | NoHeaders                              // an empty file: a warning, nothing written
    | Imported(created: nat, updated: nat)

  /** The headers pass the checks of lines 58-67. */
  predicate HeadersAccepted(opts: Options, fieldnames: seq<string>)
  {
    && fieldnames != [] && opts.sentenceColumn in fieldnames
    && (opts.idColumn == [] || opts.idColumn in fieldnames)
    && (opts.nameColumn == [] || opts.nameColumn in fieldnames)
  }

  /**
   * `Command.handle`. `programmes` is the programme table, `fieldnames` and `rows`
   * the decoded file, `drawn[i]` the programme `random.choice` draws for row `i`,
   * `latest` the latest semester, if any, and `slugify` Django's slugify.
   * Any error leaves the database unchanged.
   */
  method Handle(db: Database, opts: Options, fieldnames: seq<string>, rows: seq<CsvRow>, programmes: seq<Programme>,
                drawn: seq<Programme>, latest: Option<int>, slugify: string -> string)
    returns (r: Result<ImportOutcome, ImportError>)
    requires db.Valid()
    requires |drawn| == |rows| && (programmes != [] ==> forall k | 0 <= k < |drawn| :: drawn[k] in programmes)
    requires latest.Some? ==> latest.value in db.semesters
    modifies db
    ensures db.Valid()
    ensures db.topics == old(db.topics) && db.originals == old(db.originals)
    ensures db.supervisors == old(db.supervisors) && db.semesters == old(db.semesters)
    ensures r == Err(NoProgrammes) <==> programmes == []
    ensures r == Ok(NoHeaders) <==> programmes != [] && fieldnames == []
    ensures r == Err(MissingSentenceHeader(opts.sentenceColumn)) <==>
      programmes != [] && fieldnames != [] && opts.sentenceColumn !in fieldnames
    ensures r == Err(MissingIdHeader(opts.idColumn)) <==>
      programmes != [] && fieldnames != [] && opts.sentenceColumn in fieldnames &&
      opts.idColumn != [] && opts.idColumn !in fieldnames
    ensures r == Err(MissingNameHeader(opts.nameColumn)) <==>
      programmes != [] && fieldnames != [] && opts.sentenceColumn in fieldnames &&
      (opts.idColumn == [] || opts.idColumn in fieldnames) &&
      opts.nameColumn != [] && opts.nameColumn !in fieldnames
    ensures r == Err(NoSemester) <==>
      programmes != [] && HeadersAccepted(opts, fieldnames) && rows != [] && latest.None? && Readable(opts, rows[0])
    ensures forall k | 0 <= k < |rows| ::
      r == Err(UnreadableRow(k + 1)) <==>
        programmes != [] && HeadersAccepted(opts, fieldnames) && RaisesAt(opts, rows, latest, k) && !Readable(opts, rows[k])
    ensures r.Err? || r == Ok(NoHeaders) ==> db.users == old(db.users) && db.students == old(db.students)
    ensures r.Ok? && r.value.Imported? ==>
      && HeadersAccepted(opts, fieldnames) && AllReadable(opts, rows)
      && ImportRows(Registry(old(db.users), old(db.students), 0, 0), rows, drawn, opts, latest, slugify) ==
           Ok(Registry(db.users, db.students, r.value.created, r.value.updated))
      && r.value.created == |rows| && r.value.updated == 0
  {
    if programmes == [] {
      return Err(NoProgrammes);
    }
    if fieldnames == [] {
      return Ok(NoHeaders);
    }
    if opts.sentenceColumn !in fieldnames {
      return Err(MissingSentenceHeader(opts.sentenceColumn));
    }
    if opts.idColumn != [] && opts.idColumn !in fieldnames {
      return Err(MissingIdHeader(opts.idColumn));
    }
    if opts.nameColumn != [] && opts.nameColumn !in fieldnames {
      return Err(MissingNameHeader(opts.nameColumn));
    }
    r := ImportAll(db, opts, rows, programmes, drawn, latest, slugify);
  }

  /**
   * Lines 74-157 once the headers are checked: the rows are written and counted, or
   * nothing is written when a row raises.
   */
  method ImportAll(db: Database, opts: Options, rows: seq<CsvRow>, programmes: seq<Programme>,
                   drawn: seq<Programme>, latest: Option<int>, slugify: string -> string)
    returns (r: Result<ImportOutcome, ImportError>)
    requires db.Valid()
    requires |drawn| == |rows| && forall k | 0 <= k < |drawn| :: drawn[k] in programmes
    requires latest.Some? ==> latest.value in db.semesters
    modifies db
    ensures db.Valid()
    ensures db.topics == old(db.topics) && db.originals == old(db.originals)
    ensures db.supervisors == old(db.supervisors) && db.semesters == old(db.semesters)
    ensures r.Err? <==> rows != [] && (latest.None? || !AllReadable(opts, rows))
    ensures r.Err? <==> exists k | 0 <= k < |rows| :: RaisesAt(opts, rows, latest, k)
    ensures forall k | 0 <= k < |rows| && RaisesAt(opts, rows, latest, k) :: r == Err(RowError(opts, rows[k], k + 1))
    ensures r.Err? ==> db.users == old(db.users) && db.students == old(db.students)
    ensures r.Ok? ==> r.value.Imported? && AllReadable(opts, rows)
    ensures r.Ok? ==>
      && ImportRows(Registry(old(db.users), old(db.students), 0, 0), rows, drawn, opts, latest, slugify) ==
           Ok(Registry(db.users, db.students, r.value.created, r.value.updated))
      && r.value.created == |rows| && r.value.updated == 0
  {
    var reg := RunRows(Registry(db.users, db.students, 0, 0), rows, drawn, opts, latest, slugify);
    ImportRowsFails(Registry(db.users, db.students, 0, 0), rows, drawn, opts, latest, slugify);
    if reg.Err? {
      return Err(reg.error);
    }
    if latest.Some? {
      ImportRowsCounts(Registry(db.users, db.students, 0, 0), rows, drawn, opts, latest.value, slugify);
      ImportKeepsValid(db.topics, db.originals, db.users, db.students, db.supervisors, rows, drawn, programmes, opts, latest.value, slugify);
    }
    db.users, db.students := reg.value.users, reg.value.students;
    r := Ok(Imported(reg.value.created, reg.value.updated));
  }

  /** The body of the row loop (lines 76-150) for a readable row once a semester exists. */
  method RunRow(reg: Registry, row: CsvRow, rowNum: nat, opts: Options, programme: Programme,
                semester: int, slugify: string -> string) returns (next: Registry)
    requires Readable(opts, row)
    ensures ImportRow(reg, row, rowNum, opts, programme, Some(semester), slugify) == Ok(next)
  {
    var text := Strip(Cell(row, opts.sentenceColumn).value);
    var identifier := Identifier(opts, row, rowNum);
    var email := UniqueEmail(reg.users.Keys, slugify(identifier), opts.emailDomain);
    assert email == StudentEmail(reg.users, opts, row, rowNum, slugify);
    var users := GetOrCreateStudent(reg.users, email, FullName(opts, row, rowNum));
    next := UpdateOrCreateProfile(reg, users, email, programme, text, semester);
    ImportRowIs(reg, row, rowNum, opts, programme, semester, slugify, email, users, text);
  }

  /** `ImportRow` of a readable row with a semester, from the values its steps compute. */
  lemma ImportRowIs(reg: Registry, row: CsvRow, rowNum: nat, opts: Options, programme: Programme,
                    semester: int, slugify: string -> string, email: string, users: map<string, User>, text: string)
    requires Readable(opts, row)
    requires email == StudentEmail(reg.users, opts, row, rowNum, slugify)
    requires users == GetOrCreateStudent(reg.users, email, FullName(opts, row, rowNum))
    requires text == Strip(Cell(row, opts.sentenceColumn).value)
    ensures ImportRow(reg, row, rowNum, opts, programme, Some(semester), slugify) ==
      Ok(UpdateOrCreateProfile(reg, users, email, programme, text, semester))
  {
  }

  /** The row loop of lines 74-150; the first row that raises ends it. */
  method RunRows(start: Registry, rows: seq<CsvRow>, drawn: seq<Programme>, opts: Options,
                 latest: Option<int>, slugify: string -> string) returns (result: Result<Registry, ImportError>)
    requires |drawn| == |rows|
    ensures result == ImportRows(start, rows, drawn, opts, latest, slugify)
  {
    var reg := start;
    for i := 0 to |rows|
      invariant ImportRows(start, rows[..i], drawn[..i], opts, latest, slugify) == Ok(reg)
    {
      if !Readable(opts, rows[i]) || latest.None? {
        RowRaises(start, rows, drawn, opts, latest, slugify, i, reg);
        if !Readable(opts, rows[i]) {
          return Err(UnreadableRow(i + 1));
        }
        return Err(NoSemester);
      }
      ImportRowsSnoc(start, rows, drawn, opts, latest, slugify, i, reg);
      reg := RunRow(reg, rows[i], i + 1, opts, drawn[i], latest.value, slugify);
    }
    assert rows[..|rows|] == rows && drawn[..|rows|] == drawn;
    return Ok(reg);
  }
}

/**
 * The supervisor import command (users/management/commands/import_supervisors.py).
 * Each CSV row names a supervisor, a department abbreviation, two preferred
 * programme groups and three lists of expertise areas. The command finds or
 * creates the supervisor's user, resolves the department or school, cleans the
 * expertise entries into the quoted text that topic standardisation parses, and
 * creates or updates the supervisor profile, counting created and updated profiles.
 */
module ImportSupervisors {
  import opened Wrappers
  import opened Text
  import opened Academics
  import opened Accounts
  import opened Store
  import Standardise

  const SchoolOfEngineeringAbbr: string := "SEN"
  const SchoolOfEngineeringName: string := "School of Engineering"
  const EmailSuffix: string := "@supervisor.example.com"

  /** `DEPARTMENT_MAPPING`, in its declared order: abbreviation, department name. */
  const DepartmentMapping: seq<(string, string)> := [
    ("DDSAI", "Department of Data Science and Artificial Intelligence"),
    ("DSCCR", "Department of Smart Computing and Cyber Resilience"),
    ("HUMAC", "Research Centre for Human-Machine Collaboration (HUMAC)")
  ]

  const ExpectedHeaders: seq<string> := [
    "Name", "Department",
    "Preferred Programme for Supervision (1st Choice)",
    "Preferred Programme for Supervision (2nd Choice)",
    "Expertise Area 1", "Expertise Area 2", "Expertise Area 3"
  ]

  /** A new profile's `accepting_students`; the column is not set by the import. */
  const AcceptingDefault: bool := true

  // ---------------------------------------------------------------------------
  // Expertise cleaning and quoting (lines 122-127)

  /** The characters `[^\w\s/-]` does not match: word characters, whitespace, `/` and `-`. */
  predicate Kept(c: char)
  {
    IsWordChar(c) || IsSpace(c) || c == '/' || c == '-'
  }

  /** `re.sub(r"[^\w\s/-]", "", e)`: every character outside the kept class is deleted, the rest keep their order. */
  function RemoveUnkept(s: string): (r: string)
    ensures |r| <= |s|
    ensures forall c :: c in r <==> c in s && Kept(c)
    ensures (forall i | 0 <= i < |s| :: Kept(s[i])) ==> r == s
    ensures |s| == 1 ==> r == (if Kept(s[0]) then s else [])
  {
    if s == [] then []
    else
      assert forall c :: c in s <==> c == s[0] || c in s[1..];
      (if Kept(s[0]) then [s[0]] else []) + RemoveUnkept(s[1..])
  }

  /**
   * Deletion works character by character: the result for a concatenation is the
   * concatenation of the results. With the single-character case above, this pins
   * `RemoveUnkept` down as the kept characters of the input, in their order.
   */
  lemma {:induction false} RemoveUnkeptAppend(a: string, b: string)
    ensures RemoveUnkept(a + b) == RemoveUnkept(a) + RemoveUnkept(b)
  {
    if a != [] {
      assert (a + b)[1..] == a[1..] + b;
      RemoveUnkeptAppend(a[1..], b);
    } else {
      assert a + b == b;
    }
  }

  lemma LowerKeepsStripped(s: string)
    requires IsStripped(s)
    ensures IsStripped(Lower(s))
  {
  }

  /** Lower-casing a kept character keeps it, and never yields a quote or a capital. */
  lemma LowerCharKept(c: char)
    requires Kept(c)
    ensures Kept(LowerChar(c)) && LowerChar(c) != '"' && !('A' <= LowerChar(c) <= 'Z')
  {
  }

  /** Lower-casing maps whitespace to whitespace, so it distributes over concatenation and keeps blank text blank. */
  lemma LowerParts(p: string, m: string, q: string)
    ensures Lower(p + m + q) == Lower(p) + Lower(m) + Lower(q)
    ensures AllSpace(p) ==> AllSpace(Lower(p))
  {
    assert |Lower(p + m + q)| == |Lower(p) + Lower(m) + Lower(q)|;
  }

  /** Stripping and lower-casing commute: the cleaning could strip after lower-casing just as well. */
  lemma StripLowerCommute(s: string)
    ensures Strip(Lower(s)) == Lower(Strip(s))
  {
    var i := StripParts(s);
    var p, m, q := s[..i], Strip(s), s[i + |Strip(s)|..];
    LowerParts(p, m, q);
    LowerParts(q, [], []);
    assert Lower(q + [] + []) == Lower(q) by { assert q + [] + [] == q; }
    LowerKeepsStripped(m);
    StripOf(Lower(p), Lower(m), Lower(q));
  }

  /**
   * One expertise entry: disallowed characters deleted, then stripped and
   * lower-cased. Lower-casing before stripping gives the same text.
   */
  function CleanEntry(e: string): (r: string)
    ensures r == Strip(Lower(RemoveUnkept(e)))
    ensures '"' !in r
    ensures IsStripped(r)
    ensures forall i | 0 <= i < |r| :: Kept(r[i]) && !('A' <= r[i] <= 'Z')
  {
    var stripped := Strip(RemoveUnkept(e));
    StripLowerCommute(RemoveUnkept(e));
    LowerKeepsStripped(stripped);
    var r := Lower(stripped);
    forall i | 0 <= i < |r| ensures Kept(r[i]) && r[i] != '"' && !('A' <= r[i] <= 'Z') {
      assert stripped[i] in stripped;
      LowerCharKept(stripped[i]);
    }
    r
  }

  /** An entry that is stripped, lower-case and made of kept characters is its own cleaning. */
  lemma CleanOfClean(r: string)
    requires IsStripped(r) && forall i | 0 <= i < |r| :: Kept(r[i]) && !('A' <= r[i] <= 'Z')
    ensures CleanEntry(r) == r
  {
    assert RemoveUnkept(r) == r;
    assert Lower(r) == r;
    StripOf([], r, []);
    assert [] + r + [] == r;
  }

  /** Cleaning is idempotent: a cleaned entry cleans to itself. */
  lemma CleanEntryIdempotent(e: string)
    ensures CleanEntry(CleanEntry(e)) == CleanEntry(e)
  {
    CleanOfClean(CleanEntry(e));
  }

  /** `[clean(e) for e in combined_exp if e]`: empty entries are dropped before cleaning. */
  function CleanedEntries(combined: seq<string>): (r: seq<string>)
    ensures |r| <= |combined|
    ensures forall i | 0 <= i < |r| :: '"' !in r[i] && IsStripped(r[i])
  {
    if combined == [] then []
    else
      (if combined[0] != [] then [CleanEntry(combined[0])] else []) + CleanedEntries(combined[1..])
  }

  /** The entries that are not blank once stripped, in order. */
  function NonBlank(xs: seq<string>): (r: seq<string>)
    ensures |r| <= |xs|
  {
    if xs == [] then []
    else (if Strip(xs[0]) != [] then [xs[0]] else []) + NonBlank(xs[1..])
  }

  /** An entry is kept exactly when it is one of the inputs and not blank. */
  lemma {:induction false} NonBlankMember(xs: seq<string>, x: string)
    ensures x in NonBlank(xs) <==> x in xs && Strip(x) != []
  {
    if xs != [] {
      NonBlankMember(xs[1..], x);
      var head := if Strip(xs[0]) != [] then [xs[0]] else [];
      assert NonBlank(xs) == head + NonBlank(xs[1..]);
      assert x in xs <==> x == xs[0] || x in xs[1..] by {
        assert xs == [xs[0]] + xs[1..];
      }
    }
  }

  /** Dropping blank entries keeps every entry's properties. */
  lemma NonBlankFrom(xs: seq<string>)
    requires forall i | 0 <= i < |xs| :: '"' !in xs[i] && IsStripped(xs[i])
    ensures forall i | 0 <= i < |NonBlank(xs)| :: '"' !in NonBlank(xs)[i] && IsStripped(NonBlank(xs)[i]) && NonBlank(xs)[i] != []
  {
    var r := NonBlank(xs);
    forall i | 0 <= i < |r|
      ensures '"' !in r[i] && IsStripped(r[i]) && r[i] != []
    {
      var x := r[i];
      NonBlankMember(xs, x);
      var k :| 0 <= k < |xs| && xs[k] == x;
    }
  }

  /** `', '.join(f'"{e}"' for e in expertise_list if e.strip() != "")`. */
  function ExpertiseText(combined: seq<string>): string
  {
    QuoteAll(NonBlank(CleanedEntries(combined)))
  }

  /** The stripped terms of non-empty stripped strings are those strings. */
  lemma StrippedTermsOfStripped(xs: seq<string>)
    requires forall i | 0 <= i < |xs| :: IsStripped(xs[i]) && xs[i] != []
    ensures Standardise.StrippedTerms(xs) == set x | x in xs
  {
    forall x | x in Standardise.StrippedTerms(xs) ensures x in xs {
      var t :| t in xs && Strip(t) != [] && Strip(t) == x;
    }
    forall x | x in xs ensures x in Standardise.StrippedTerms(xs) {
      assert Strip(x) == x;
    }
  }

  /** Blank entries of stripped strings are exactly the empty ones. */
  lemma NonBlankOfStripped(xs: seq<string>)
    requires forall i | 0 <= i < |xs| :: IsStripped(xs[i])
    ensures (set x | x in NonBlank(xs)) == set x | x in xs && x != []
  {
    forall x | x in xs && x != [] ensures x in NonBlank(xs) {
      NonBlankMember(xs, x);
      assert Strip(x) == x;
    }
    forall x | x in NonBlank(xs) ensures x in xs && x != [] {
      NonBlankMember(xs, x);
      var k :| 0 <= k < |xs| && xs[k] == x;
      assert Strip(x) == x;
    }
  }

  /**
   * The written text is parsed back by topic standardisation: its quoted terms are
   * exactly the non-blank cleaned entries, in order, and its set of stripped
   * terms is exactly the set of non-empty cleaned entries.
   */
  lemma ExpertiseRoundTrip(combined: seq<string>)
    ensures FindQuoted(ExpertiseText(combined)) == NonBlank(CleanedEntries(combined))
    ensures Standardise.TermsOf(Some(ExpertiseText(combined))) == set x | x in CleanedEntries(combined) && x != []
  {
    var cleaned := CleanedEntries(combined);
    var kept := NonBlank(cleaned);
    NonBlankFrom(cleaned);
    FindQuotedOfQuoteAll(kept);
    NonBlankOfStripped(cleaned);
    StrippedTermsOfStripped(kept);
    if kept != [] {
      QuoteAllCons(kept);
      assert ExpertiseText(combined)[0] == '"';
    }
  }

  // ---------------------------------------------------------------------------
  // Lookups prepared before the rows are read (lines 33-48)

  /** The cache maps every abbreviation of the mapping to the department of that name. */
  predicate CachesMapping(cache: map<string, Department>, departments: map<string, Department>)
  {
    && (forall k | 0 <= k < |DepartmentMapping| :: DepartmentMapping[k].0 in cache)
    && (forall a | a in cache :: exists k | 0 <= k < |DepartmentMapping| ::
          DepartmentMapping[k].0 == a && DepartmentMapping[k].1 in departments && cache[a] == departments[DepartmentMapping[k].1])
  }

  /** Every department the mapping names exists. */
  predicate MappedDepartmentsExist(departments: map<string, Department>)
  {
    forall k | 0 <= k < |DepartmentMapping| :: DepartmentMapping[k].1 in departments
  }

  datatype ImportError =
    | MissingSchool                            // the School of Engineering does not exist
    | MissingDepartment(abbr: string, name: string) // a mapped department does not exist
    | MissingHeader(header: string)            // an expected column is absent
    | MalformedExpertise(rowNum: nat)          // an expertise cell is not a Python list of strings

  /**
   * The department prefetch loop: each mapped name is looked up in order; the first
   * that does not exist raises; otherwise every abbreviation is cached.
   */
  method PrefetchDepartments(departments: map<string, Department>) returns (r: Result<map<string, Department>, ImportError>)
    ensures r.Ok? <==> MappedDepartmentsExist(departments)
    ensures r.Ok? ==> CachesMapping(r.value, departments)
    ensures r.Err? ==> exists k | 0 <= k < |DepartmentMapping| ::
      && r.error == MissingDepartment(DepartmentMapping[k].0, DepartmentMapping[k].1)
      && DepartmentMapping[k].1 !in departments
      && forall l | 0 <= l < k :: DepartmentMapping[l].1 in departments
  {
    var cache: map<string, Department> := map[];
    for k := 0 to |DepartmentMapping|
      invariant forall l | 0 <= l < k :: DepartmentMapping[l].1 in departments
      invariant forall l | 0 <= l < k :: DepartmentMapping[l].0 in cache
      invariant forall a | a in cache :: exists l | 0 <= l < k ::
        DepartmentMapping[l].0 == a && DepartmentMapping[l].1 in departments && cache[a] == departments[DepartmentMapping[l].1]
    {
      var (abbr, name) := DepartmentMapping[k];
      if name !in departments {
        return Err(MissingDepartment(abbr, name));
      }
      cache := cache[abbr := departments[name]];
    }
    return Ok(cache);
  }

  /** `{pg.name: pg for pg in ProgrammePreferenceGroup.objects.all()}`: a later group of the same name wins. */
  function GroupCache(groups: seq<PreferenceGroup>): (c: map<string, PreferenceGroup>)
    ensures forall g | g in groups :: g.name in c
    ensures forall n | n in c :: c[n].name == n && c[n] in groups
  {
    if groups == [] then map[]
    else
      var last := groups[|groups| - 1];
      assert forall g :: g in groups <==> g in groups[..|groups| - 1] || g == last;
      GroupCache(groups[..|groups| - 1])[last.name := last]
  }

  /** The dictionary keeps the last group of each name: a group that no later group shares a name with is cached. */
  lemma {:induction false} GroupCacheLastWins(groups: seq<PreferenceGroup>, k: nat)
    requires k < |groups|
    requires forall j | k < j < |groups| :: groups[j].name != groups[k].name
    ensures GroupCache(groups)[groups[k].name] == groups[k]
  {
    var n := |groups| - 1;
    var init := groups[..n];
    var c := GroupCache(init);
    if k < n {
      assert init[k] == groups[k];
      assert c[groups[k].name] == groups[k] by {
        forall j | k < j < |init| ensures init[j].name != init[k].name {
          assert init[j] == groups[j];
        }
        GroupCacheLastWins(init, k);
      }
      assert groups[n].name != groups[k].name;
    }
  }

  /**
   * A preferred-programme cell: a non-empty name found among the groups resolves to
   * the cached group of that name; an empty or unknown name leaves the choice unset.
   */
  function ResolveGroup(raw: string, groups: seq<PreferenceGroup>): (g: Option<PreferenceGroup>)
    ensures g.Some? <==> raw != [] && exists pg | pg in groups :: pg.name == raw
    ensures g.Some? ==> g.value.name == raw && g.value in groups
  {
    var cache := GroupCache(groups);
    if raw != [] && raw in cache then Some(cache[raw]) else None
  }

  /** Among several groups of the cell's name, the last one is chosen. */
  lemma ResolveGroupLast(raw: string, groups: seq<PreferenceGroup>, k: nat)
    requires k < |groups| && raw != [] && groups[k].name == raw
    requires forall j | k < j < |groups| :: groups[j].name != raw
    ensures ResolveGroup(raw, groups) == Some(groups[k])
  {
    GroupCacheLastWins(groups, k);
  }

  // ---------------------------------------------------------------------------
  // Department and school (lines 110-120)

  datatype Placement = Placement(department: Option<Department>, school: Option<School>)

  /** "SEN" sets the school; a cached abbreviation sets the department; anything else sets neither. */
  function Place(abbr: string, cache: map<string, Department>, engineering: School): (p: Placement)
    ensures p.department.None? || p.school.None?
  {
    if abbr == SchoolOfEngineeringAbbr then Placement(None, Some(engineering))
    else if abbr in cache then Placement(Some(cache[abbr]), None)
    else Placement(None, None)
  }

  /**
   * With the prefetched cache: "SEN" places the supervisor in the School of
   * Engineering with no department; a mapped abbreviation gives the department of
   * the mapped name and no school, so the effective school is that department's
   * school; any other abbreviation, empty or not, leaves both unset.
   */
  lemma PlaceSpec(abbr: string, cache: map<string, Department>, departments: map<string, Department>, engineering: School)
    requires CachesMapping(cache, departments)
    ensures abbr == SchoolOfEngineeringAbbr ==>
      Place(abbr, cache, engineering) == Placement(None, Some(engineering)) &&
      EffectiveSchool(None, Some(engineering)) == Some(engineering)
    ensures forall k | 0 <= k < |DepartmentMapping| && DepartmentMapping[k].0 == abbr ::
      DepartmentMapping[k].1 in departments &&
      Place(abbr, cache, engineering) == Placement(Some(departments[DepartmentMapping[k].1]), None) &&
      EffectiveSchool(Some(departments[DepartmentMapping[k].1]), None) == departments[DepartmentMapping[k].1].school
    ensures abbr != SchoolOfEngineeringAbbr && (forall k | 0 <= k < |DepartmentMapping| :: DepartmentMapping[k].0 != abbr) ==>
      Place(abbr, cache, engineering) == Placement(None, None)
  {
    forall k | 0 <= k < |DepartmentMapping| && DepartmentMapping[k].0 == abbr
      ensures DepartmentMapping[k].1 in departments
      ensures Place(abbr, cache, engineering) == Placement(Some(departments[DepartmentMapping[k].1]), None)
    {
      assert abbr in cache;
      var l :| 0 <= l < |DepartmentMapping| && DepartmentMapping[l].0 == abbr &&
        DepartmentMapping[l].1 in departments && cache[abbr] == departments[DepartmentMapping[l].1];
      assert l == k;
    }
  }

  // ---------------------------------------------------------------------------
  // Header validation (lines 54-64)

  /** The first expected header missing from the file, if any. */
  function FirstMissing(expected: seq<string>, fieldnames: seq<string>): (h: Option<string>)
    ensures h.None? <==> forall k | 0 <= k < |expected| :: expected[k] in fieldnames
    ensures h.Some? ==> exists k | 0 <= k < |expected| ::
      expected[k] == h.value && h.value !in fieldnames && forall l | 0 <= l < k :: expected[l] in fieldnames
  {
    if expected == [] then None
    else if expected[0] !in fieldnames then Some(expected[0])
    else
      var rest := FirstMissing(expected[1..], fieldnames);
      if rest.Some? then
        var k :| 0 <= k < |expected| - 1 && expected[1..][k] == rest.value && rest.value !in fieldnames &&
          forall l | 0 <= l < k :: expected[1..][l] in fieldnames;
        assert expected[k + 1] == rest.value;
        rest
      else rest
  }

  // ---------------------------------------------------------------------------
  // One row (lines 70-167)

  /**
   * A data row. `expertise` is the concatenation of the three expertise cells after
   * `ast.literal_eval`, or nothing when a cell does not evaluate to a list of strings.
   */
  datatype CsvRow = CsvRow(
    name: string,
    department: string,
    firstChoice: string,
    secondChoice: string,
    expertise: Option<seq<string>>)

  /** The state the row loop builds: users, supervisor profiles and the two counters. */
  datatype Progress = Progress(users: map<string, User>, supervisors: map<string, SupervisorProfile>, created: nat, updated: nat)

  /** The lookups every row uses. */
  datatype Lookups = Lookups(engineering: School, cache: map<string, Department>, groups: seq<PreferenceGroup>)

  /** The email derived from a supervisor's name. */
  function SupervisorEmail(name: string, slugify: string -> string): string
  {
    slugify(Strip(name)) + EmailSuffix
  }

  /** A row that writes a profile: it has a name, and the user of its email, if any, is a supervisor. */
  predicate Processed(p: Progress, row: CsvRow, slugify: string -> string)
  {
    var email := SupervisorEmail(row.name, slugify);
    Strip(row.name) != [] && (email !in p.users || p.users[email].userType == SupervisorUser)
  }

  /** The profile fields `update_or_create` writes; `standardised_expertise` is reset. */
  function WrittenProfile(existing: Option<SupervisorProfile>, row: CsvRow, capacity: nat, lk: Lookups): SupervisorProfile
    requires row.expertise.Some?
  {
    var place := Place(Strip(row.department), lk.cache, lk.engineering);
    var text := ExpertiseText(row.expertise.value);
    var first := ResolveGroup(Strip(row.firstChoice), lk.groups);
    var second := ResolveGroup(Strip(row.secondChoice), lk.groups);
    match existing
    case Some(q) =>
      q.(department := place.department, school := place.school, expertise := Some(text),
         firstChoice := first, secondChoice := second, capacity := capacity, standardised := {})
    case None =>
      SupervisorProfile(place.department, place.school, Some(text), first, second, capacity, AcceptingDefault, {})
  }

  /**
   * Writing `written` as the profile of `email`: the user is created when missing
   * and the profile is counted as updated when one existed, as created otherwise.
   */
  function Register(p: Progress, email: string, fullName: string, written: SupervisorProfile): Progress
  {
    var users := if email in p.users then p.users
                 else p.users[email := User(email, fullName, SupervisorUser, true, false, false)];
    if email in p.supervisors then Progress(users, p.supervisors[email := written], p.created, p.updated + 1)
    else Progress(users, p.supervisors[email := written], p.created + 1, p.updated)
  }

  /** The write step: one counter moves, the user exists as a supervisor, only `email`'s profile changes. */
  lemma RegisterSpec(p: Progress, email: string, fullName: string, written: SupervisorProfile)
    requires email in p.users ==> p.users[email].userType == SupervisorUser
    ensures var q := Register(p, email, fullName, written);
      && q.created + q.updated == p.created + p.updated + 1
      && (q.created == p.created + 1 <==> email !in p.supervisors)
      && email in q.users && q.users[email].userType == SupervisorUser
      && (email !in p.users ==> q.users[email] == User(email, fullName, SupervisorUser, true, false, false))
      && (forall e | e in p.users :: e in q.users && q.users[e] == p.users[e])
      && q.users.Keys == p.users.Keys + {email}
      && q.supervisors == p.supervisors[email := written]
  {
  }

  /** The fields the import sets, whether or not a profile existed. */
  lemma WrittenProfileSpec(existing: Option<SupervisorProfile>, row: CsvRow, capacity: nat, lk: Lookups)
    requires row.expertise.Some?
    ensures var w := WrittenProfile(existing, row, capacity, lk);
      && w.expertise == Some(ExpertiseText(row.expertise.value))
      && w.capacity == capacity
      && w.standardised == {}
      && w.firstChoice == ResolveGroup(Strip(row.firstChoice), lk.groups)
      && w.secondChoice == ResolveGroup(Strip(row.secondChoice), lk.groups)
      && Placement(w.department, w.school) == Place(Strip(row.department), lk.cache, lk.engineering)
      && w.accepting == (if existing.Some? then existing.value.accepting else AcceptingDefault)
  {
  }

  /**
   * One row: a malformed expertise cell raises (nothing); a row without a name, or
   * whose email belongs to a user who is not a supervisor, is skipped; otherwise the
   * user is found or created and the profile created or updated.
   */
  function ImportRow(p: Progress, row: CsvRow, capacity: nat, lk: Lookups, slugify: string -> string): Option<Progress>
  {
    if row.expertise.None? then None
    else if !Processed(p, row, slugify) then Some(p)
    else
      var email := SupervisorEmail(row.name, slugify);
      var existing := if email in p.supervisors then Some(p.supervisors[email]) else None;
      Some(Register(p, email, Strip(row.name), WrittenProfile(existing, row, capacity, lk)))
  }

  /** A skipped row changes nothing; a row with malformed expertise raises. */
  lemma ImportRowSkips(p: Progress, row: CsvRow, capacity: nat, lk: Lookups, slugify: string -> string)
    ensures row.expertise.None? <==> ImportRow(p, row, capacity, lk, slugify).None?
    ensures row.expertise.Some? && !Processed(p, row, slugify) ==> ImportRow(p, row, capacity, lk, slugify) == Some(p)
  {
  }

  /**
   * A processed row increments exactly one counter, created exactly when the
   * profile is new, and leaves its email with a supervisor user (a new active one,
   * neither staff nor superuser, when none existed), every other user as it was.
   */
  lemma ImportRowCounts(p: Progress, row: CsvRow, capacity: nat, lk: Lookups, slugify: string -> string)
    requires row.expertise.Some? && Processed(p, row, slugify)
    ensures var q := ImportRow(p, row, capacity, lk, slugify).value;
      var email := SupervisorEmail(row.name, slugify);
      && q.created + q.updated == p.created + p.updated + 1
      && (q.created == p.created + 1 <==> email !in p.supervisors)
      && email in q.users && q.users[email].userType == SupervisorUser
      && (email !in p.users ==> q.users[email] == User(email, Strip(row.name), SupervisorUser, true, false, false))
      && (forall e | e in p.users :: e in q.users && q.users[e] == p.users[e])
      && q.users.Keys == p.users.Keys + {email}
  {
    var email := SupervisorEmail(row.name, slugify);
    var existing := if email in p.supervisors then Some(p.supervisors[email]) else None;
    var written := WrittenProfile(existing, row, capacity, lk);
    assert ImportRow(p, row, capacity, lk, slugify) == Some(Register(p, email, Strip(row.name), written));
    RegisterSpec(p, email, Strip(row.name), written);
  }

  /**
   * A processed row writes its supervisor's profile: the expertise is the quoted
   * cleaned entries, the capacity the drawn one, the standardised expertise empty,
   * the choices and placement resolved from the row; no other profile changes.
   */
  lemma ImportRowProfile(p: Progress, row: CsvRow, capacity: nat, lk: Lookups, slugify: string -> string)
    requires row.expertise.Some? && Processed(p, row, slugify)
    ensures var q := ImportRow(p, row, capacity, lk, slugify).value;
      var email := SupervisorEmail(row.name, slugify);
      && email in q.supervisors
      && q.supervisors == p.supervisors[email := q.supervisors[email]]
      && q.supervisors[email].expertise == Some(ExpertiseText(row.expertise.value))
      && q.supervisors[email].capacity == capacity
      && q.supervisors[email].standardised == {}
      && q.supervisors[email].firstChoice == ResolveGroup(Strip(row.firstChoice), lk.groups)
      && q.supervisors[email].secondChoice == ResolveGroup(Strip(row.secondChoice), lk.groups)
      && Placement(q.supervisors[email].department, q.supervisors[email].school) ==
           Place(Strip(row.department), lk.cache, lk.engineering)
  {
    var email := SupervisorEmail(row.name, slugify);
    var existing := if email in p.supervisors then Some(p.supervisors[email]) else None;
    var written := WrittenProfile(existing, row, capacity, lk);
    assert ImportRow(p, row, capacity, lk, slugify) == Some(Register(p, email, Strip(row.name), written));
    RegisterSpec(p, email, Strip(row.name), written);
    WrittenProfileSpec(existing, row, capacity, lk);
  }

  /** The row loop over all rows, numbered from 1; nothing when a row raises. */
  function ImportRows(p: Progress, rows: seq<CsvRow>, capacities: seq<nat>, lk: Lookups, slugify: string -> string): Option<Progress>
    requires |capacities| == |rows|
  {
    if rows == [] then Some(p)
    else
      var n := |rows| - 1;
      match ImportRows(p, rows[..n], capacities[..n], lk, slugify)
      case None => None
      case Some(q) => ImportRow(q, rows[n], capacities[n], lk, slugify)
  }

  /** Every row's expertise cell decodes. */
  predicate AllDecode(rows: seq<CsvRow>)
  {
    forall k | 0 <= k < |rows| :: rows[k].expertise.Some?
  }

  lemma AllDecodeSnoc(rows: seq<CsvRow>)
    requires rows != []
    ensures AllDecode(rows) <==> AllDecode(rows[..|rows| - 1]) && rows[|rows| - 1].expertise.Some?
  {
    assert forall k | 0 <= k < |rows| - 1 :: rows[..|rows| - 1][k] == rows[k];
  }

  /** The import raises, and rolls back, exactly when some row's expertise is malformed. */
  lemma {:induction false} ImportRowsFailsIffMalformed(p: Progress, rows: seq<CsvRow>, capacities: seq<nat>, lk: Lookups, slugify: string -> string)
    requires |capacities| == |rows|
    ensures ImportRows(p, rows, capacities, lk, slugify).None? <==> !AllDecode(rows)
  {
    if rows != [] {
      var n := |rows| - 1;
      ImportRowsFailsIffMalformed(p, rows[..n], capacities[..n], lk, slugify);
      AllDecodeSnoc(rows);
      match ImportRows(p, rows[..n], capacities[..n], lk, slugify)
      case None =>
      case Some(q) => ImportRowSkips(q, rows[n], capacities[n], lk, slugify);
    }
  }

  /**
   * How the loop may change the progress from `p` to `q`: no user or profile is
   * removed, no user changed; a user added is a supervisor under their own email;
   * a profile is either kept or written with a capacity in [3, 10], an empty
   * standardised expertise and a user.
   */
  predicate Grown(p: Progress, q: Progress)
  {
    && q.created >= p.created && q.updated >= p.updated
    && p.users.Keys <= q.users.Keys
    && p.supervisors.Keys <= q.supervisors.Keys
    && q.supervisors.Keys <= p.supervisors.Keys + q.users.Keys
    && (forall e | e in q.users && e !in p.users :: q.users[e].email == e && q.users[e].userType == SupervisorUser)
    && (forall e | e in p.users :: e in q.users && q.users[e] == p.users[e])
    && (forall v | v in q.supervisors ::
          (v in p.supervisors && q.supervisors[v] == p.supervisors[v]) ||
          (3 <= q.supervisors[v].capacity <= 10 && q.supervisors[v].standardised == {} && v in q.users))
  }

  lemma GrownTrans(p: Progress, m: Progress, q: Progress)
    requires Grown(p, m) && Grown(m, q)
    ensures Grown(p, q)
  {
  }

  /** One row grows the progress and moves the counters by at most one. */
  lemma ImportRowGrows(p: Progress, row: CsvRow, capacity: nat, lk: Lookups, slugify: string -> string)
    requires 3 <= capacity <= 10
    requires ImportRow(p, row, capacity, lk, slugify).Some?
    ensures var q := ImportRow(p, row, capacity, lk, slugify).value;
      Grown(p, q) && q.created + q.updated <= p.created + p.updated + 1
  {
    ImportRowSkips(p, row, capacity, lk, slugify);
    if Processed(p, row, slugify) {
      ImportRowCounts(p, row, capacity, lk, slugify);
      ImportRowProfile(p, row, capacity, lk, slugify);
    }
  }

  /**
   * After the loop: no user or profile is removed or changed except by being a row's
   * supervisor; every profile it writes has a capacity drawn in [3, 10] and an empty
   * standardised expertise; the counters grow by at most one per row.
   */
  lemma {:induction false} ImportRowsShape(p: Progress, rows: seq<CsvRow>, capacities: seq<nat>, lk: Lookups, slugify: string -> string)
    requires |capacities| == |rows|
    requires forall k | 0 <= k < |capacities| :: 3 <= capacities[k] <= 10
    requires ImportRows(p, rows, capacities, lk, slugify).Some?
    ensures var q := ImportRows(p, rows, capacities, lk, slugify).value;
      Grown(p, q) && q.created + q.updated <= p.created + p.updated + |rows|
  {
    if rows != [] {
      var n := |rows| - 1;
      ImportRowsShape(p, rows[..n], capacities[..n], lk, slugify);
      var mid := ImportRows(p, rows[..n], capacities[..n], lk, slugify).value;
      ImportRowGrows(mid, rows[n], capacities[n], lk, slugify);
      GrownTrans(p, mid, ImportRows(p, rows, capacities, lk, slugify).value);
    }
  }

  /** The import keeps every topic reference and profile link valid. */
  lemma ImportKeepsValid(
    topics: set<string>, originals: map<string, Option<string>>, users: map<string, User>,
    students: map<string, StudentProfile>, sups: map<string, SupervisorProfile>,
    rows: seq<CsvRow>, capacities: seq<nat>, lk: Lookups, slugify: string -> string)
    requires TopicsClosed(topics, originals, students, sups) && ProfilesLinked(users, students, sups)
    requires |capacities| == |rows|
    requires forall k | 0 <= k < |capacities| :: 3 <= capacities[k] <= 10
    requires ImportRows(Progress(users, sups, 0, 0), rows, capacities, lk, slugify).Some?
    ensures var q := ImportRows(Progress(users, sups, 0, 0), rows, capacities, lk, slugify).value;
      TopicsClosed(topics, originals, students, q.supervisors) && ProfilesLinked(q.users, students, q.supervisors)
  {
    ImportRowsShape(Progress(users, sups, 0, 0), rows, capacities, lk, slugify);
  }

  // ---------------------------------------------------------------------------
  // The command (lines 30-178)

  datatype ImportOutcome =
    | NoHeaders                                   // an empty file: a warning, nothing written
    | Imported(created: nat, updated: nat)

  /** The row loop of lines 69-167; the first row with malformed expertise raises. */
  method RunRows(p: Progress, rows: seq<CsvRow>, capacities: seq<nat>, lk: Lookups, slugify: string -> string)
    returns (r: Result<Progress, ImportError>)
    requires |capacities| == |rows|
    ensures r.Ok? <==> forall k | 0 <= k < |rows| :: rows[k].expertise.Some?
    ensures r.Ok? ==> ImportRows(p, rows, capacities, lk, slugify) == Some(r.value)
    ensures r.Err? ==>
      && r.error.MalformedExpertise?
      && 1 <= r.error.rowNum <= |rows| && rows[r.error.rowNum - 1].expertise.None?
      && forall k | 0 <= k < r.error.rowNum - 1 :: rows[k].expertise.Some?
  {
    var progress := p;
    for i := 0 to |rows|
      invariant ImportRows(p, rows[..i], capacities[..i], lk, slugify) == Some(progress)
    {
      assert rows[..i + 1][..i] == rows[..i] && capacities[..i + 1][..i] == capacities[..i];
      if rows[i].expertise.None? {
        ImportRowsFailsIffMalformed(p, rows[..i], capacities[..i], lk, slugify);
        assert forall k | 0 <= k < i :: rows[..i][k] == rows[k];
        return Err(MalformedExpertise(i + 1));
      }
      ImportRowSkips(progress, rows[i], capacities[i], lk, slugify);
      progress := ImportRow(progress, rows[i], capacities[i], lk, slugify).value;
    }
    assert rows[..|rows|] == rows && capacities[..|rows|] == capacities;
    ImportRowsFailsIffMalformed(p, rows, capacities, lk, slugify);
    return Ok(progress);
  }

  /**
   * `Command.handle`. `schools` and `departments` are the tables keyed by name,
   * `groups` the preference groups, `fieldnames` and `rows` the decoded file,
   * `capacities[i]` the capacity drawn for row `i`, and `slugify` Django's slugify.
   * Any error leaves the database unchanged.
   */
  method Handle(db: Database, schools: map<string, School>, departments: map<string, Department>,
                groups: seq<PreferenceGroup>, fieldnames: seq<string>, rows: seq<CsvRow>,
                capacities: seq<nat>, slugify: string -> string)
    returns (r: Result<ImportOutcome, ImportError>)
    requires db.Valid()
    requires |capacities| == |rows| && forall k | 0 <= k < |capacities| :: 3 <= capacities[k] <= 10
    modifies db
    ensures db.Valid()
    ensures db.topics == old(db.topics) && db.originals == old(db.originals) && db.students == old(db.students)
    ensures db.semesters == old(db.semesters)
    ensures r == Err(MissingSchool) <==> SchoolOfEngineeringName !in schools
    ensures r.Err? && r.error.MissingDepartment? <==>
      SchoolOfEngineeringName in schools && !MappedDepartmentsExist(departments)
    ensures r == Ok(NoHeaders) <==>
      SchoolOfEngineeringName in schools && MappedDepartmentsExist(departments) && fieldnames == []
    ensures r.Err? && r.error.MissingHeader? <==>
      SchoolOfEngineeringName in schools && MappedDepartmentsExist(departments) &&
      fieldnames != [] && FirstMissing(ExpectedHeaders, fieldnames).Some?
    ensures r.Err? && r.error.MissingHeader? ==> FirstMissing(ExpectedHeaders, fieldnames) == Some(r.error.header)
    ensures r.Err? && r.error.MalformedExpertise? ==>
      && 1 <= r.error.rowNum <= |rows| && rows[r.error.rowNum - 1].expertise.None?
      && forall k | 0 <= k < r.error.rowNum - 1 :: rows[k].expertise.Some?
    ensures r.Err? || r == Ok(NoHeaders) ==> db.users == old(db.users) && db.supervisors == old(db.supervisors)
    ensures r.Ok? && r.value.Imported? ==>
      && fieldnames != [] && FirstMissing(ExpectedHeaders, fieldnames).None?
      && SchoolOfEngineeringName in schools
      && (forall k | 0 <= k < |rows| :: rows[k].expertise.Some?)
      && exists cache | CachesMapping(cache, departments) ::
           ImportRows(Progress(old(db.users), old(db.supervisors), 0, 0), rows, capacities,
                      Lookups(schools[SchoolOfEngineeringName], cache, groups), slugify) ==
           Some(Progress(db.users, db.supervisors, r.value.created, r.value.updated))
  {
    if SchoolOfEngineeringName !in schools {
      return Err(MissingSchool);
    }
    var engineering := schools[SchoolOfEngineeringName];
    var cached := PrefetchDepartments(departments);
    if cached.Err? {
      return Err(cached.error);
    }
    if fieldnames == [] {
      return Ok(NoHeaders);
    }
    var missing := FirstMissing(ExpectedHeaders, fieldnames);
    if missing.Some? {
      return Err(MissingHeader(missing.value));
    }
    var lk := Lookups(engineering, cached.value, groups);
    var run := RunRows(Progress(db.users, db.supervisors, 0, 0), rows, capacities, lk, slugify);
    if run.Err? {
      return Err(run.error);
    }
    var progress := run.value;
    ImportKeepsValid(db.topics, db.originals, db.users, db.students, db.supervisors, rows, capacities, lk, slugify);
    db.users, db.supervisors := progress.users, progress.supervisors;
    r := Ok(Imported(progress.created, progress.updated));
  }
}

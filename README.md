# ACPPS allocation pipeline, modelled in Dafny

ACPPS allocates final-year students to project supervisors. Supervisors are
imported from a CSV file; each one has free-text expertise, preferred programmes
and a supervision capacity. Students are imported from another CSV file with a
free-text preference sentence. Four background tasks then do the work:

1. **Topic standardisation.** Collects the quoted expertise terms and asks a
   language-model service to map them onto umbrella topics. It then writes those
   topics and re-links every supervisor's standardised expertise.
2. **Preference labelling.** Sends the semester's students to the service in
   batches of 50, with up to three attempts per batch. It repairs each reply into
   a JSON array and replaces every named student's positive and negative topics
   with the returned names that are standardised topics.
3. **Matching.** Selects the eligible students and the supervisors with spare
   capacity, and scores every (student, supervisor) pair. It reads back the
   optimiser's 0/1 answer as assignments and records them on the student
   profiles in one transaction.
4. **Reset.** Clears a semester's allocations, or deletes the whole topic
   vocabulary.

The database is one object, `Store.Database`. It holds maps keyed by user email
(users, student profiles, supervisor profiles), the set of topic names, the
original terms with their links, and the semester keys. `Database.Valid()` is
referential integrity: every topic link names an existing topic, and every
profile belongs to an existing user.

Each task is a method on the database and is proved against specification
functions. Each `transaction.atomic()` block is computed on local copies and
committed at the end, so an error inside it leaves the database exactly as it
was. The topic and link writes of the standardisation task are not in a
transaction; the model reaches them only with a usable map (see "## Left out"). Some
inputs come from outside the code. The model takes them as parameters:

- the service's replies;
- the solver's status and answer;
- the order in which a query yields its rows;
- `random` draws;
- `slugify`.

The loops of the source are `while`/`for` loops carrying their invariants. The
text rules (`strip`, `split`, `find`/`rfind`, the quoted-term regular
expression, the expertise cleaning) are pure functions.

Behaviour of the code worth noting:

- The labelling sentinel "No Match" is not removed explicitly. It only
  disappears because it is not a standardised topic.
- Students without labels are only warned about during matching. They are not
  excluded.
- Supervisor re-linking matches the unstripped quoted terms. The term collection
  strips them.
- A CSV row shorter than the header has None in its missing cells. In the
  student import `.strip()` on such a cell raises, the handler turns it into a
  `CommandError`, and the import is rolled back; the model reports the row
  number (`ImportStudents.UnreadableRow`).

## Model

| member | source | states |
|---|---|---|
| Accounts.StudentId | ACPPS/users/models.py:68-70 | None exactly for an empty email. Otherwise the email's prefix up to its first `@`, which contains no `@` (the whole email when it has no `@`). |
| Accounts.StudentIdLookup | ACPPS/api/tasks.py:373 | For an `@`-free id, an email starts with `id@` exactly when it contains `@` and its `student_id` is that id. |
| Accounts.LookupByStudentId | ACPPS/api/tasks.py:487 | The write-back lookup `user__email__startswith=f"{sid}@"` finds exactly the students whose `student_id` is `sid`. |
| Accounts.StudentDepartment | ACPPS/users/models.py:60-62 | A department exactly when a programme is set, and then it is the programme's department. |
| Accounts.StudentSchool | ACPPS/users/models.py:64-66 | No school without a programme. |
| Accounts.SchoolIsDepartmentSchool | ACPPS/users/models.py:60-66 | A student's school is the school of the student's department, under the same guard. |
| Accounts.EffectiveSchool | ACPPS/users/models.py:85-87 | The department's school whenever a department is set, even when that is none; otherwise the direct school. |
| Accounts.CreateUser | ACPPS/users/models.py:9-16 | Fails exactly on an empty email. The user keeps the email as given (the domain lower-casing of `normalize_email` is under "## Left out"), the name and the type; it is active unless the caller passes `is_active=False`, and staff or superuser only when asked to be. |
| Accounts.CreateSuperuser | ACPPS/users/models.py:18-21 | Fails exactly on an empty email. Staff and superuser flags are true unless the caller passes false. |
| Store.Database.constructor | ACPPS/api/models.py:5-18 | An empty database is valid. |
| Text.Strip | ACPPS/api/tasks.py:149 | The result is stripped and contains only characters of the input. It is empty exactly for all-whitespace input, and equals an input that is already stripped. |
| Text.StripTrims | ACPPS/api/tasks.py:149 | The result is the input with an all-whitespace prefix and an all-whitespace suffix removed, everything between them kept in order. |
| Text.Lower | ACPPS/users/management/commands/import_supervisors.py:124 | Same length; no upper-case ASCII letter remains, and every character that is not one is kept in place. |
| Text.Find | ACPPS/api/tasks.py:313 | -1 exactly when the character is absent; otherwise the position of its first occurrence. |
| Text.RFind | ACPPS/api/tasks.py:314 | -1 exactly when the character is absent; otherwise the position of its last occurrence. |
| Text.Split | ACPPS/api/tasks.py:172 | At least one piece; no piece contains the separator. |
| Text.JoinOfSplit | ACPPS/api/tasks.py:172 | Re-joining the pieces of a split with the separator gives the original string. |
| Text.SplitOfJoin | ACPPS/api/tasks.py:652 | Splitting a join of separator-free pieces gives the pieces back. |
| Text.CleanNames | ACPPS/api/tasks.py:364-365 | Every name is trimmed and non-empty, and the names are exactly the non-empty trims of the input pieces. |
| Text.FindQuotedHasNoQuotes | ACPPS/api/tasks.py:147 | No term extracted by `"([^"]*)"` contains a double quote. |
| Text.FindQuotedOfQuoteAll | ACPPS/api/tasks.py:147 | Extracting quoted terms from `"a", "b", ...` returns exactly `a, b, ...` when no item contains a quote. |
| Sequences.EnumeratesSize | ACPPS/api/tasks.py:447 | A duplicate-free listing of a query's rows has as many elements as the set it lists (`count()`). |
| Standardise.CollectTermsOf | ACPPS/api/tasks.py:147-151 | The inner loop adds exactly the stripped, non-empty quoted terms of one expertise text. |
| Standardise.CollectTerms | ACPPS/api/tasks.py:141-151 | The term set is exactly the stripped, non-empty quoted terms of all supervisors with expertise. |
| Standardise.CompleteMapSpec | ACPPS/api/tasks.py:24-26 | No terms gives `{}` with no call. Otherwise there is a map exactly for a JSON object reply. Its keys are the reply's keys plus every term, supplied entries are unchanged, and missing terms map to themselves. |
| Standardise.LinkPiecesIsUpdate | ACPPS/api/tasks.py:172-176 | Linking a key's comma pieces sets exactly their stripped, non-empty names to the umbrella and leaves other terms alone. |
| Standardise.WriteLinksFrame | ACPPS/api/tasks.py:163-177 | Terms no key names keep their link; every named term exists afterwards. |
| Standardise.WriteLinksTargets | ACPPS/api/tasks.py:163-177 | Every link points at the umbrella of a map entry, or was already there. |
| Standardise.WriteLinksAgree | ACPPS/api/tasks.py:163-177 | The links written do not depend on the links that existed before. |
| Standardise.WriteLinksIdempotent | ACPPS/api/tasks.py:163-177 | Writing the same map twice leaves the same links as writing it once. |
| Standardise.RelinkIdempotent | ACPPS/api/tasks.py:180-189 | Re-linking a second time against the same links changes no supervisor. |
| Standardise.RerunAddsNothing | ACPPS/api/tasks.py:163-189 | Applying the same map a second time leaves topics, links and supervisors exactly as one run left them: get-or-create finds what the first run created. |
| Standardise.LinkKey | ACPPS/api/tasks.py:172-176 | The inner loop equals the specification of linking one key's pieces. |
| Standardise.UmbrellasAll | ACPPS/api/tasks.py:163-165 | Visiting every key creates exactly the map's umbrella values as topics. |
| Standardise.WriteMap | ACPPS/api/tasks.py:163-177 | The write loop adds exactly the map's values to the topics and writes the specified links. |
| Standardise.RelinkSpec | ACPPS/api/tasks.py:179-189 | Only standardised expertise changes, and only for supervisors with expertise text. The new set is exactly the topics linked from the unstripped quoted terms. |
| Standardise.RelinkClosed | ACPPS/api/tasks.py:186-189 | Re-linked expertise names only existing topics. |
| Standardise.RelinkSupervisors | ACPPS/api/tasks.py:180-189 | The supervisor loop equals the re-link specification. |
| Standardise.StandardiseKeepsClosed | ACPPS/api/tasks.py:163-189 | The writes keep every topic reference pointing at an existing topic. |
| Standardise.RelinkKeepsLinked | ACPPS/api/tasks.py:179-189 | Re-linking keeps every profile, so profile links stay valid. |
| Standardise.ApplyMap | ACPPS/api/tasks.py:163-189 | The writes of a run with a usable map: the map's umbrellas are added, the links are those of `WriteLinks`, and every supervisor is re-linked against them; together, the state `Applied` describes. |
| Standardise.StandardizeAllTopics | ACPPS/api/tasks.py:131-202 | Raises with nothing written exactly when the completed map is missing or empty. Otherwise it adds the umbrellas, writes the links and re-links every supervisor. It returns the map's size and keeps the database valid. |
| Labelling.BatchBounds | ACPPS/api/tasks.py:248-255 | Every visited batch has 1 to 50 students; slices past the end are empty. |
| Labelling.BatchesCover | ACPPS/api/tasks.py:248-255 | The batches, concatenated in order, are exactly the selected students in query order. |
| Labelling.Unfenced | ACPPS/api/tasks.py:303-308 | The de-fenced reply text is stripped. A reply without fence markers becomes just the stripped reply. |
| Labelling.UnfenceFenced | ACPPS/api/tasks.py:303-308 | A reply wrapped in "```json" and "```" becomes its body, stripped, whatever the body holds. |
| Labelling.Cut | ACPPS/api/tasks.py:310-318 | Fails exactly when no `]` follows a `[`; otherwise the cut text is `[...]`-shaped. |
| Labelling.PairGivesSpan | ACPPS/api/tasks.py:313-315 | The guard `rfind(']') > find('[') != -1` holds exactly when some `[` precedes some `]`. |
| Labelling.CutToOuterBrackets | ACPPS/api/tasks.py:312-316 | Text that is not already an array is cut from its first `[` to its last `]`. |
| Labelling.RepairKeepsArray | ACPPS/api/tasks.py:303-316 | A stripped `[...]` reply passes through unchanged. |
| Labelling.RepairRemovesFence | ACPPS/api/tasks.py:303-316 | A reply fenced with "```json" and "```" whose stripped body is `[...]`-shaped repairs to exactly that stripped body. |
| Labelling.FieldNames | ACPPS/api/tasks.py:361-365 | Fails exactly for a malformed field, and a missing field gives no names. |
| Labelling.CleanNamesOfClean | ACPPS/api/tasks.py:364-365 | Names that are already trimmed and non-empty are kept as they are. |
| Labelling.FieldFormsAgree | ACPPS/api/tasks.py:364-365 | A comma-joined string and the list of its names give the same topic names. |
| Labelling.SafeListText | ACPPS/api/tasks.py:644-652 | The comma branch applies exactly to text not shaped `[...]`. Its names are trimmed, non-empty and comma-free. |
| Labelling.SafeListOfJoin | ACPPS/api/tasks.py:652 | `safe_list` undoes a comma join of clean names. |
| Labelling.ProcessBatch | ACPPS/api/tasks.py:281-342 | 1 to 3 attempts, stopping at the first success. All earlier attempts failed. The batch yields that success's results, or nothing after three failures. |
| Labelling.Sentences | ACPPS/api/tasks.py:264-275 | At most one sentence per student; exactly one each when every student has non-empty text. |
| Labelling.SentencesPrefix | ACPPS/api/tasks.py:264-275 | The sentences of the first students of a batch are the start of the batch's sentences. |
| Labelling.SentencesInOrder | ACPPS/api/tasks.py:264-275 | Every batch student with non-empty text gets their own sentence (id and stripped text), right after those of the students before them. |
| Labelling.SentencesOnly | ACPPS/api/tasks.py:264-275 | Every sentence sent is the sentence of some batch student with non-empty text. |
| Labelling.BuildSentences | ACPPS/api/tasks.py:264-275 | The sentence loop equals the sentence specification. |
| Labelling.RunBatch | ACPPS/api/tasks.py:252-342 | One batch sends the prompt of its own slice and yields its first success's results. |
| Labelling.CollectResults | ACPPS/api/tasks.py:252-347 | One prompt per batch, built from that batch. The results of all batches come in order, with a pause between batches but none after the last. |
| Labelling.RetryAsWrittenAgrees | ACPPS/api/tasks.py:281-342 | The loop as written either crashes or agrees with the corrected loop; it never crashes once a response exists. |
| Labelling.FirstCallErrorAborts | ACPPS/api/tasks.py:335-337 | A first call that raises crashes the task as written, although the second attempt succeeds. |
| Labelling.InVocabulary | ACPPS/api/tasks.py:376-377 | A name is kept exactly when the result lists it and it is a standardised topic. |
| Labelling.ApplyItem | ACPPS/api/tasks.py:357-389 | Raises exactly for a non-object result or a malformed topic field. Otherwise keeps every student and updates at most one. |
| Labelling.ApplyOne | ACPPS/api/tasks.py:357-389 | The loop body equals the one-result specification. |
| Labelling.WriteBack | ACPPS/api/tasks.py:354-389 | The write-back loop equals the specification over all results. |
| Labelling.PrefixFailure | ACPPS/api/tasks.py:355-389 | Once a prefix raises, the whole write-back raises and is rolled back. |
| Labelling.WriteBackFailsIffSomeRaises | ACPPS/api/tasks.py:355-389 | The write-back raises exactly when some result raises. |
| Labelling.WriteBackShape | ACPPS/api/tasks.py:376-384 | Every student is kept, and only positive and negative sets change, each replaced by vocabulary topics. At most one update per result. |
| Labelling.WriteBackLeavesUnnamed | ACPPS/api/tasks.py:367-389 | Students that no result names keep their old sets. |
| Labelling.LastResultReplacesSets | ACPPS/api/tasks.py:373-382 | The last result naming exactly one student sets both of that student's sets to exactly its vocabulary names. |
| Labelling.ApplyItemKeeps | ACPPS/api/tasks.py:367-382 | A result whose lookup does not find exactly one given student leaves that student's profile unchanged. |
| Labelling.DecidingResultReplacesSets | ACPPS/api/tasks.py:355-389 | Whichever result last finds exactly a student decides both of that student's sets: they become exactly that result's vocabulary names, whatever the other results say. |
| Labelling.WriteBackKeepsValid | ACPPS/api/tasks.py:355-389 | The write-back keeps topic references and profile links valid. |
| Labelling.LabelStudentPreferences | ACPPS/api/tasks.py:207-401 | Each outcome holds exactly when its condition does (no vocabulary, no students, no key, no results, a raising write-back); nothing is written on any of them. On success the students equal the write-back over all batch results, and the prompts are those of the batches. Each batch runs the corrected retry loop (see "## Findings"). |
| Matching.ProgrammeTier | ACPPS/api/tasks.py:619-623 | The tier is 0, 1 or 2, is 1 exactly when the first-choice list is empty or contains the programme, and is 2 exactly when the first-choice list is non-empty and lacks the programme while the second-choice list is empty or contains it (so 0 otherwise). |
| Matching.ProgrammeScoreFollowsTier | ACPPS/api/tasks.py:530-537 | The programme part is W1, W2 or 0 by the same tier as the reported match type. |
| Matching.PositiveRatioBounds | ACPPS/api/tasks.py:541-544 | The positive ratio is in [0, 1], and is 1 exactly when every positive preference is in the expertise. |
| Matching.ViolationRateBounds | ACPPS/api/tasks.py:547-550 | The violation rate is in [0, 1], and is 0 exactly when no negative preference is in the expertise. |
| Matching.TopicScoreBounds | ACPPS/api/tasks.py:551-557 | The topic part is in [0, W3], and is W3 exactly when all positives and no negatives are in the expertise. |
| Matching.PairScoreRange | ACPPS/api/tasks.py:515-561 | With the default weights a pair scores in [0, 70]. It scores 70 exactly for a first-choice programme with perfect topic agreement. |
| Matching.BuildStudentRows | ACPPS/api/tasks.py:451-458 | Fails exactly when a student has no programme. Otherwise one row per student, in order. |
| Matching.BuildSupervisorRows | ACPPS/api/tasks.py:461-471 | One row per participating supervisor, in order, with the user's full name. |
| Matching.ScoreRow | ACPPS/api/tasks.py:526-561 | The inner loop scores one student with every supervisor. |
| Matching.ScorePairs | ACPPS/api/tasks.py:523-561 | `all_pair_scores` holds exactly one entry per pair, holding that pair's score. |
| Matching.OrSentinel | ACPPS/api/tasks.py:633-634 | Never empty; the topics themselves when there are any. |
| Matching.ExtractRow | ACPPS/api/tasks.py:610-636 | The extraction loop for one student equals its specification. |
| Matching.ExtractAssignments | ACPPS/api/tasks.py:607-637 | The selected pairs in variable order when the status is optimal, and nothing otherwise. |
| Matching.RowPicksStudentCount | ACPPS/api/tasks.py:610-636 | One student's assignments name that student once per supervisor the answer gives them. |
| Matching.RowPicksSupervisorCount | ACPPS/api/tasks.py:610-636 | Within one student's assignments a supervisor appears at most once, and only when selected. |
| Matching.PicksStudentCount | ACPPS/api/tasks.py:595-596 | With distinct ids, a student is named as often as the answer gives them partners. |
| Matching.PicksSupervisorCount | ACPPS/api/tasks.py:599-603 | With distinct ids, a supervisor is named as often as the answer gives them students. |
| Matching.ExtractionMeetsConstraints | ACPPS/api/tasks.py:595-636 | An answer meeting the hard constraints is extracted to assignments naming every student exactly once and no supervisor beyond remaining capacity. |
| Matching.PicksAreChosen | ACPPS/api/tasks.py:610-636 | Every assignment is a selected pair with its tier, its topic lists (or sentinels) and its exact pair score. |
| Matching.DoubleCounting | ACPPS/api/tasks.py:595-603 | Counting selected pairs by supervisor or by student gives the same total. |
| Matching.SpareSupervisor | ACPPS/api/tasks.py:446-448 | When fewer students are placed than the total capacity, some supervisor has a free slot. |
| Matching.PartnersFrame | ACPPS/api/tasks.py:595-596 | Adding a pair for another student does not change a student's partners. |
| Matching.TakersFrame | ACPPS/api/tasks.py:599-603 | Adding a pair for an unlisted student does not change a supervisor's takers. |
| Matching.FeasibleWhenCapacitySuffices | ACPPS/api/tasks.py:595-603 | With non-negative capacities covering the students, some answer meets both hard constraints. |
| Matching.CapacityNeeded | ACPPS/api/tasks.py:595-603 | Conversely, a feasible answer needs the total capacity to cover the students. |
| Matching.Assigned | ACPPS/api/tasks.py:490-500 | Records the supervisor and match type. Topic sets keep only standardised topics. No other field changes. |
| Matching.ApplyAssignment | ACPPS/api/tasks.py:482-507 | Raises exactly when the student lookup finds several students. Skips an assignment with a missing id or a missing student or supervisor. Otherwise records the assignment on the one student found. |
| Matching.CommitOne | ACPPS/api/tasks.py:482-507 | The loop body equals the one-assignment specification. |
| Matching.CommitAll | ACPPS/api/tasks.py:481-507 | The write-back loop equals the specification over all assignments. |
| Matching.CommitFailurePersists | ACPPS/api/tasks.py:481-507 | Once a prefix raises, the whole write-back raises. |
| Matching.CommitKeepsProfiles | ACPPS/api/tasks.py:481-507 | Every profile is kept, and only the four allocation fields change. |
| Matching.CommitFailsIffAmbiguous | ACPPS/api/tasks.py:487 | The write-back raises and rolls back exactly when some assignment's lookup is ambiguous. |
| Matching.UnfoundUnchanged | ACPPS/api/tasks.py:481-507 | A profile no assignment finds is left exactly as it was. |
| Matching.LastAssignmentDecides | ACPPS/api/tasks.py:496-500 | The last assignment that finds a profile decides its supervisor, match type and topic sets. |
| Matching.CommitKeepsValid | ACPPS/api/tasks.py:481-507 | The write-back keeps topic references and profile links valid. |
| Matching.OptimalMatching | ACPPS/api/tasks.py:515-637 | Raises on a repeated student id, and only then (exact repeats; the solver library's renaming of constraint names is under "## Left out"). Otherwise returns the extraction of the solver's answer under the default weights. |
| Matching.Allocate | ACPPS/api/tasks.py:451-473 | Fails on a student without a programme, else on a repeated student id (exact repeats; see "## Left out"). Otherwise returns the extracted assignments. |
| Matching.MatchStudentsForSemester | ACPPS/api/tasks.py:413-513 | Raises for an unknown semester, checked first; then for no eligible students; then on capacity shortfall (each iff). A missing programme, a repeated student id or a raising write-back also raise. Nothing is written on any error. Success implies distinct student ids and records exactly the extracted assignments, and it reports the counts. |
| Matching.ChecksMakeProblemFeasible | ACPPS/api/tasks.py:437-448 | Once the task's checks pass, an answer meeting the hard constraints exists. |
| Reset.ResetClearsSemester | ACPPS/api/tasks.py:673-684 | The semester's students lose supervisor, match type, matching and conflicting topics, and keep the rest. Other students are untouched. |
| Reset.ResetIdempotent | ACPPS/api/tasks.py:673-684 | Resetting twice is resetting once. |
| Reset.ResetFreesSemester | ACPPS/api/tasks.py:673-684 | After a reset every student of the semester has no supervisor and is still in the semester, so the matching filter selects them again when they have preference text. |
| Reset.ResetNobody | ACPPS/api/tasks.py:669-671 | With nobody in the semester, the reset changes nothing. |
| Reset.ResetStudentsForSemester | ACPPS/api/tasks.py:659-699 | Raises exactly for an unknown semester. Otherwise it resets exactly the semester's students, reports their number, and changes nothing else. |
| Reset.ResetKeepsValid | ACPPS/api/tasks.py:673-684 | The reset keeps the database valid. |
| Reset.ResetTopicMappings | ACPPS/api/tasks.py:701-711 | All topics are deleted and every original term keeps its row with a null link. Profiles lose their links to deleted topics and keep everything else. |
| ImportSupervisors.RemoveUnkept | ACPPS/users/management/commands/import_supervisors.py:124 | A character survives exactly when it was present and is a word character, whitespace, `/` or `-`. Text made only of such characters is unchanged; one other character is deleted. |
| ImportSupervisors.RemoveUnkeptAppend | ACPPS/users/management/commands/import_supervisors.py:124 | Deletion works character by character: the result for a concatenation is the concatenation of the results, so the survivors keep their order. |
| ImportSupervisors.CleanEntry | ACPPS/users/management/commands/import_supervisors.py:124 | A cleaned entry has no quote, is stripped, and has only kept, lower-case characters. Cleaning as written (delete, strip, lower-case) equals deleting, lower-casing and then stripping. |
| ImportSupervisors.StripLowerCommute | ACPPS/users/management/commands/import_supervisors.py:124 | Stripping and lower-casing commute. |
| ImportSupervisors.CleanOfClean | ACPPS/users/management/commands/import_supervisors.py:124 | A stripped, lower-case entry of kept characters is its own cleaning. |
| ImportSupervisors.CleanEntryIdempotent | ACPPS/users/management/commands/import_supervisors.py:124 | Cleaning a cleaned entry changes nothing. |
| ImportSupervisors.CleanedEntries | ACPPS/users/management/commands/import_supervisors.py:124 | Every cleaned entry is stripped and quote-free. |
| ImportSupervisors.NonBlankMember | ACPPS/users/management/commands/import_supervisors.py:127 | An entry is kept exactly when it is one of the inputs and is not blank once stripped. |
| ImportSupervisors.ExpertiseRoundTrip | ACPPS/users/management/commands/import_supervisors.py:122-127 | Topic standardisation's quoted-term extraction of the written text gives back exactly the non-blank cleaned entries in order. Its term set is exactly the non-empty cleaned entries. |
| ImportSupervisors.PrefetchDepartments | ACPPS/users/management/commands/import_supervisors.py:39-45 | Succeeds exactly when every mapped department exists, caching each. Otherwise it raises naming the first missing one. |
| ImportSupervisors.GroupCache | ACPPS/users/management/commands/import_supervisors.py:48 | Keys are exactly the group names, and each maps to a group of that name. |
| ImportSupervisors.GroupCacheLastWins | ACPPS/users/management/commands/import_supervisors.py:48 | Among groups sharing a name, the dictionary keeps the last. |
| ImportSupervisors.ResolveGroup | ACPPS/users/management/commands/import_supervisors.py:130-144 | A group exactly when the name is non-empty and known; the group has that name. |
| ImportSupervisors.ResolveGroupLast | ACPPS/users/management/commands/import_supervisors.py:130-144 | A known name resolves to the last group of that name. |
| ImportSupervisors.PlaceSpec | ACPPS/users/management/commands/import_supervisors.py:110-120 | "SEN" gives the School of Engineering and no department. A mapped abbreviation gives its department and no school. Anything else gives neither. |
| ImportSupervisors.FirstMissing | ACPPS/users/management/commands/import_supervisors.py:58-64 | Nothing exactly when every expected header is present; otherwise the first missing one. |
| ImportSupervisors.RegisterSpec | ACPPS/users/management/commands/import_supervisors.py:93-167 | One counter moves, the email has a supervisor user, and only that email's profile changes. |
| ImportSupervisors.WrittenProfileSpec | ACPPS/users/management/commands/import_supervisors.py:151-162 | The written profile carries the row's placement, quoted expertise, groups and drawn capacity, with empty standardised expertise. |
| ImportSupervisors.ImportRowSkips | ACPPS/users/management/commands/import_supervisors.py:78-107 | Malformed expertise raises. An empty name, or an existing non-supervisor user, skips the row with nothing changed. |
| ImportSupervisors.ImportRowCounts | ACPPS/users/management/commands/import_supervisors.py:164-167 | A processed row moves exactly one counter (created exactly when the profile is new) and leaves a supervisor user under its email. |
| ImportSupervisors.ImportRowProfile | ACPPS/users/management/commands/import_supervisors.py:110-162 | A processed row writes its supervisor's profile as the row specifies, and no other profile changes. |
| ImportSupervisors.ImportRowsFailsIffMalformed | ACPPS/users/management/commands/import_supervisors.py:69-81 | The import raises and rolls back exactly when some row's expertise is malformed. |
| ImportSupervisors.ImportRowsShape | ACPPS/users/management/commands/import_supervisors.py:69-167 | Only rows' supervisors are added or changed. Every written profile has capacity in [3, 10] and empty standardised expertise. |
| ImportSupervisors.ImportKeepsValid | ACPPS/users/management/commands/import_supervisors.py:69-167 | The import keeps topic references and profile links valid. |
| ImportSupervisors.RunRows | ACPPS/users/management/commands/import_supervisors.py:69-167 | The row loop succeeds exactly when every row's expertise decodes, and then equals the row fold. Otherwise it raises on the first malformed row. |
| ImportSupervisors.Handle | ACPPS/users/management/commands/import_supervisors.py:30-178 | A missing school, a missing mapped department, no headers and a missing header each occur exactly under their condition, in that order of checks. A malformed row raises. Nothing is written on any of these. Otherwise the database is the row fold's result, with its counters. |
| ImportStudents.Digits | ACPPS/users/management/commands/import_students.py:105 | The numeral is non-empty and all digits, with two or more digits from 10 on. |
| ImportStudents.DigitsInjective | ACPPS/users/management/commands/import_students.py:105 | Different counters give different numerals. |
| ImportStudents.CandidateInjective | ACPPS/users/management/commands/import_students.py:102-106 | The loop never tries the same address twice. |
| ImportStudents.TriedBound | ACPPS/users/management/commands/import_students.py:104-106 | While every tried address is taken there are at least as many users as tries, so the loop ends. |
| ImportStudents.FirstFreeFromTried | ACPPS/users/management/commands/import_students.py:102-107 | The address settled on is one of the tried addresses, and every address tried before it is taken (the function itself ensures it is free). |
| ImportStudents.UniqueEmail | ACPPS/users/management/commands/import_students.py:97-107 | The loop ends with the first free address of `slug@d`, `slug1@d`, `slug2@d`, …, which is not taken. |
| ImportStudents.Identifier | ACPPS/users/management/commands/import_students.py:79-88 | For a readable row (no cell it reads is None): the stripped id cell when the column is given and non-blank, otherwise `student<row>`; never empty and stripped. |
| ImportStudents.FullName | ACPPS/users/management/commands/import_students.py:80-95 | For a readable row: the stripped name cell when the column is given and non-blank, otherwise `Student <row>`; never empty and stripped. |
| ImportStudents.AddedSpec | ACPPS/users/management/commands/import_students.py:110-150 | Adding under a free address adds exactly one user and one profile, keeps links valid, and changes nothing existing. |
| ImportStudents.ImportRowCreates | ACPPS/users/management/commands/import_students.py:102-150 | The chosen address is free, so every row creates a new student user and a new profile. The update branches are never taken. |
| ImportStudents.ImportRowsFails | ACPPS/users/management/commands/import_students.py:74-139 | The import raises exactly when some row is where the loop raises: the first row with a None cell it reads (`.strip()` raises at line 76, 83 or 91), or the first row when no semester exists (line 139, reached only by a readable row). It then raises with that row's error. On success every row was readable and, with rows, a semester exists. |
| ImportStudents.ImportRowsLast | ACPPS/users/management/commands/import_students.py:74-150 | When the rows before it built a linked registry, the last row adds exactly one student under a free address, with a new user and a new profile. |
| ImportStudents.ImportRowsCounts | ACPPS/users/management/commands/import_students.py:147-150 | Created grows by one per row, updated stays 0, and users and profiles grow by the row count. |
| ImportStudents.ImportRowsNewStudents | ACPPS/users/management/commands/import_students.py:110-145 | Every new user is an active student, not staff. Its profile holds the latest semester, a drawn programme, and no preferences or supervisor. |
| ImportStudents.ImportKeepsValid | ACPPS/users/management/commands/import_students.py:74-150 | The import keeps topic references and profile links valid. |
| ImportStudents.Handle | ACPPS/users/management/commands/import_students.py:43-165 | Raises exactly on no programmes, a missing sentence, id or name header, a first row that is readable while no semester exists, or a row with a None cell that is the first to raise (reported with its row number). Nothing is written then. On success every row was readable and is created. A non-empty file with no programmes is allowed and raises. |
| ImportStudents.GrownProfile | ACPPS/users/management/commands/import_students.py:110-145 | After the import each profile is either an old one, unchanged, or a fresh one as the import creates it. |
| ImportStudents.GrownKeepsValid | ACPPS/users/management/commands/import_students.py:74-150 | A store grown only by fresh students keeps its topic references and profile links valid. |
| ImportStudents.ImportAll | ACPPS/users/management/commands/import_students.py:74-165 | The rows are written in one transaction. It fails exactly when there are rows and either no semester exists or some row has a None cell it reads; the error is that of the first row that raises, and nothing is written. Otherwise it stores the row fold, every row counted as created. |
| ImportStudents.RunRows | ACPPS/users/management/commands/import_students.py:74-150 | The row loop equals the row fold, stopping with the error of the first row that raises. |
| ImportStudents.RunRow | ACPPS/users/management/commands/import_students.py:76-150 | The body of the loop for a readable row, once a semester exists, gives the fold's step for that row. |
| ImportStudents.RowRaises | ACPPS/users/management/commands/import_students.py:74-139 | When the rows before row `i` passed and row `i` raises, the whole import raises with row `i`'s error. |

## Left out

- The language-model service: building the prompt and the service-side reasoning are not modelled. `get_standardisation_map_from_gemini`'s call and JSON decoding (`api/tasks.py`:28-83) become a reply value (call failed, not JSON, not an object, an object). The labelling replies become per-attempt values.
- The case where the service model is not initialised (`api/tasks.py`:21-23) is not modelled. The task always builds one.
- `time.sleep` delays are modelled only as the count of pauses between batches.
- The PuLP problem: the workload-balancing deviation variables, the objective and `problem.solve()` are not modelled (`api/tasks.py`:563-605).
  - The solver's status and 0/1 answer are inputs.
  - The model checks the hard constraints and derives the extracted fields.
  - It does not claim optimality.
  - The `weightage` argument only feeds the balancing penalty, so it is not modelled.
- PositiveRatio / ViolationRate / TopicScore / PairScore: the scores are exact reals, not IEEE doubles, so the rounding of Python's float arithmetic at `api/tasks.py`:544-560 is not modelled; the scores are only reported and handed to the solver, whose search is not modelled.
- OptimalMatching: PuLP rewrites the characters `-`, `+`, `[`, `]` and space in a constraint name to `_`, so two distinct student ids that differ only there (`jane-doe` and `jane_doe`) also give the same `Assign_Student_{s_id}` name (`api/tasks.py`:596) and raise PuLP's overlapping-constraint error; the supervisor names `Define_Deviation_{v_id}` and `Capacity_Supervisor_{v_id}` (`api/tasks.py`:584, 603) can collide the same way. The model raises only on ids that are exactly equal and does not check supervisor ids for such collisions.
- Allocate: inherits the constraint-name collisions of the OptimalMatching line above; its DuplicateStudentId outcome covers exact repeats only.
- pandas: `DataFrame` construction, the CSV dump of assignments (`api/tasks.py`:459, 472, 476-479) and the float/NaN and `eval` branches of `safe_list` are not modelled. `safe_list` is not called anywhere.
- Django ORM, Celery and transactions become the maps of `Store.Database`. Each atomic block succeeds fully or leaves the database unchanged. Query orders are inputs.
- LabelStudentPreferences: runs the corrected retry loop (`Labelling.ProcessBatch`). In the source, a first service call that raises crashes the whole task with `UnboundLocalError` (see "## Findings", `Labelling.FirstCallErrorAborts`); the task's contract does not show that crash.
- MatchStudentsForSemester: the `weightage` argument is not modelled, because the workload penalty it weighs is part of the solver, which is not modelled. A value that `float(weightage)` cannot convert raises `ValueError` at `api/tasks.py`:473; this error is not modelled.
- MatchStudentsForSemester: a student whose user email is empty has `student_id` None. In the source, `students_df['student_id'] == None` matches no row, so `.iloc[0]` at `api/tasks.py`:615 raises `IndexError` once the solver assigns that student. The model extracts the assignment instead, and the write-back skips it as an assignment with a missing id.
- StandardizeAllTopics: the umbrella values of the service's map are modelled as strings. A JSON `null` value makes `get_or_create(name=None)` raise inside the loop at `api/tasks.py`:163-177, which is not in a transaction, after the earlier umbrellas and links were written; other non-string values would be stored as their Python `str()`. Neither case is modelled, so the contract's "an error writes nothing" covers only the missing or empty map.
- `Semester.objects.latest()` is an input (the latest semester, or none).
- Password hashing, `set_password` and `normalize_email` are not modelled.
- Accounts.CreateUser: `normalize_email` (`users/models.py`:12) lower-cases the domain part of the email; the model stores the email exactly as given, so addresses that differ only in the case of their domain are different users here.
- File I/O of the import commands is not modelled, and neither is the `FileNotFoundError` path. The decoded field names and rows are inputs.
- `ast.literal_eval` of the expertise cells is not modelled. A cell that decodes is an input list of strings; any other cell is malformed.
- ImportSupervisors.Handle: `csv.DictReader` gives the missing cells of a row shorter than the header the value None, and `.strip()` on a None Name, Department or programme-choice cell (`users/management/commands/import_supervisors.py`:71-74) raises `AttributeError`, which lines 177-178 turn into `CommandError` after the transaction is rolled back. The model's supervisor rows hold strings in those cells, so this error is not shown; a None expertise cell reaches `ast.literal_eval` and counts as malformed, so it raises as in the source. The student import does model None cells (`ImportStudents.Readable`).
- `slugify` is a function parameter. `random.randint(3, 10)` and `random.choice` are input draws, restricted to their ranges by preconditions.
- The `\w` and `\s` classes of the expertise regular expression, `str.strip` and `str.lower` are modelled on ASCII, not on full Unicode.
- `Department.objects.get` and `School.objects.get` returning several rows (`MultipleObjectsReturned`, `users/management/commands/import_supervisors.py`:35 and :43) are not modelled. Department and school names are treated as unique keys. In the source such duplicates abort the supervisor import before any row.
- The supervisor import's `accepting_students` column does not appear in the user models shown. Imported supervisors are assumed to accept students (`ImportSupervisors.AcceptingDefault`).
- The user models shown declare `positive_preferences`, `negative_preferences` and `standardised_expertise` as text fields (`users/models.py`:51-52 and :80). They have no `semester`, `programme_match_type`, `matching_topics`, `conflicting_topics` or `accepting_students` field. The tasks use these as many-to-many relations and plain fields. The model follows the tasks: the relations are sets of topic names, and the fields are optional values.
- The imports write `None` into those relations (`users/management/commands/import_supervisors.py`:160, `users/management/commands/import_students.py`:141-142). The model writes the empty set. On a many-to-many relation, Django refuses `None` in `update_or_create` defaults with `TypeError`, and the model does not show that error.
- Status messages and warnings written to stdout are not modelled.
- The web layer (views, serializers, admin, forms, dashboards, JavaScript), the scraper and training scripts, `test.py` and the migrations are not part of this model.
- ImportSupervisors.CleanedEntries: states only that the entries are stripped and quote-free, not that each is the cleaning of an input entry. The exact correspondence is used through `ExpertiseRoundTrip` instead.

## Findings

| source | as written | input that shows it | evidently intended | confidence | as-written member | corrected member |
|---|---|---|---|---|---|---|
| ACPPS/api/tasks.py:335-337 | If `generate_content` raises on the task's very first call, the generic handler reads `response`, which was never assigned. It raises `UnboundLocalError` and aborts the whole task. | First batch, first attempt raises, second attempt returns `[]`. | Log the error and retry, as for every later call: the batch yields the second attempt's results. | medium, not executed | Labelling.FirstCallErrorAborts | Labelling.ProcessBatch |

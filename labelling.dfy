/**
 * Preference labelling (api/tasks.py, `label_student_preferences_for_semester`).
 * The semester's students with preference text are sent to the labelling service
 * in batches of 50, each batch with up to three attempts; each reply is repaired
 * into a JSON array, and the returned topic names are written back, replacing
 * each found student's positive and negative topic sets.
 */
module Labelling {
  import opened Wrappers
  import opened Sequences
  import opened Text
  import opened Accounts
  import opened Store

  const BatchSize: nat := 50
  const RetryLimit: nat := 3

  // ---------------------------------------------------------------------------
  // Batching (lines 224, 248-255)

  /** `math.ceil(n / BATCH_SIZE)`. */
  function NumBatches(n: nat): nat
  {
    (n + BatchSize - 1) / BatchSize
  }

  function Min(a: nat, b: nat): nat
  {
    if a <= b then a else b
  }

  /** `students[i * 50 : i * 50 + 50]`, clamped to the list as slicing is. */
  function Batch<T>(s: seq<T>, i: nat): seq<T>
  {
    s[Min(i * BatchSize, |s|)..Min(i * BatchSize + BatchSize, |s|)]
  }

  /** The first `k` batches. */
  function Batches<T>(s: seq<T>, k: nat): seq<seq<T>>
  {
    seq(k, i requires 0 <= i < k => Batch(s, i))
  }

  /** Every batch the loop visits is non-empty and at most 50 long; there are none past the end. */
  lemma BatchBounds<T>(s: seq<T>, i: nat)
    ensures i < NumBatches(|s|) ==> 1 <= |Batch(s, i)| <= BatchSize
    ensures i >= NumBatches(|s|) ==> Batch(s, i) == []
  {
  }

  lemma {:induction false} BatchesPrefix<T>(s: seq<T>, k: nat)
    ensures Flatten(Batches(s, k)) == s[..Min(k * BatchSize, |s|)]
  {
    if k > 0 {
      BatchesPrefix(s, k - 1);
      assert Batches(s, k)[..k - 1] == Batches(s, k - 1);
      assert s[..Min(k * BatchSize, |s|)] ==
        s[..Min((k - 1) * BatchSize, |s|)] + s[Min((k - 1) * BatchSize, |s|)..Min(k * BatchSize, |s|)];
    }
  }

  /** The batches, in order, are exactly the selected students: each once, in query order. */
  lemma BatchesCover<T>(s: seq<T>)
    ensures Flatten(Batches(s, NumBatches(|s|))) == s
  {
    BatchesPrefix(s, NumBatches(|s|));
  }

  // ---------------------------------------------------------------------------
  // Reply repair (lines 303-318)

  /** `[...]`-shaped text. */
  predicate Bracketed(s: string)
  {
    |s| > 0 && s[0] == '[' && s[|s| - 1] == ']'
  }

  /** A leading "```json" removed, and what follows stripped. */
  function OpenFence(s0: string): string
  {
    if StartsWith(s0, "```json") then Strip(s0[7..]) else s0
  }

  /** A trailing "```" removed, and what precedes it stripped. */
  function CloseFence(s1: string): string
  {
    if EndsWith(s1, "```") then Strip(s1[..|s1| - 3]) else s1
  }

  /** The reply text, stripped, with a leading "```json" and a trailing "```" removed. */
  function Unfenced(raw: string): (d: string)
    ensures IsStripped(d)
    ensures !StartsWith(Strip(raw), "```json") && !EndsWith(Strip(raw), "```") ==> d == Strip(raw)
  {
    CloseFence(OpenFence(Strip(raw)))
  }

  /** Some `[` comes before some `]`. */
  predicate HasBracketPair(d: string)
  {
    exists i, j | 0 <= i < j < |d| :: d[i] == '[' && d[j] == ']'
  }

  /**
   * The array text cut from unfenced text: the text itself if it is `[...]`-shaped,
   * else its span from the first `[` to the last `]`; nothing when no `]` follows a `[`.
   */
  function Cut(d: string): (r: Option<string>)
    ensures r.None? <==> !HasBracketPair(d)
    ensures r.Some? ==> |r.value| >= 2 && Bracketed(r.value)
  {
    PairGivesSpan(d);
    if Bracketed(d) then
      assert d[0] == '[' && d[|d| - 1] == ']';
      Some(d)
    else
      var a := Find(d, '[');
      var b := RFind(d, ']');
      if a != -1 && b > a then Some(d[a..b + 1]) else None
  }

  /** The text handed to the JSON parser; nothing makes the attempt fail. */
  function Repair(raw: string): Option<string>
  {
    Cut(Unfenced(raw))
  }

  /** A `[` before a `]` means the first `[` comes before the last `]`, and conversely. */
  lemma PairGivesSpan(d: string)
    ensures HasBracketPair(d) <==> Find(d, '[') != -1 && RFind(d, ']') > Find(d, '[')
  {
    if HasBracketPair(d) {
      var i, j :| 0 <= i < j < |d| && d[i] == '[' && d[j] == ']';
      IndexOfIsFirst(d, '[', i);
      LastIndexOfIsLast(d, ']', j);
    }
    if Find(d, '[') != -1 && RFind(d, ']') > Find(d, '[') {
      var a := Find(d, '[');
      var b := RFind(d, ']');
      assert d[a] == '[' && d[b] == ']';
    }
  }

  /** When the text is not already an array, the cut runs from its first `[` to its last `]`. */
  lemma CutToOuterBrackets(d: string)
    requires Cut(d).Some? && !Bracketed(d)
    ensures '[' in d && ']' in d
    ensures Cut(d) == Some(d[IndexOf(d, '[')..LastIndexOf(d, ']') + 1])
    ensures '[' !in d[..IndexOf(d, '[')] && ']' !in d[LastIndexOf(d, ']') + 1..]
  {
    var a := Find(d, '[');
    var b := RFind(d, ']');
    assert Cut(d) == if a != -1 && b > a then Some(d[a..b + 1]) else None;
    assert a != -1 && b > a;
    assert a == IndexOf(d, '[') && b == LastIndexOf(d, ']');
  }

  /** Text already shaped `[...]` passes through unchanged. */
  lemma RepairKeepsArray(s: string)
    requires IsStripped(s) && Bracketed(s)
    ensures Repair(s) == Some(s)
  {
    assert !StartsWith(s, "```json") by { assert s[0] != "```json"[0]; }
    assert !EndsWith(s, "```") by { assert s[|s| - 1] != '`'; }
  }

  /** A reply fenced as "```json" ... "```" unfences to its body, stripped, whatever the body holds. */
  lemma UnfenceFenced(body: string)
    ensures Unfenced("```json" + body + "```") == Strip(body)
  {
    FencedIsStripped(body);
    FencedOpen(body);
    FencedTail(body);
  }

  lemma FencedIsStripped(body: string)
    ensures Strip("```json" + body + "```") == "```json" + body + "```"
  {
    assert IsStripped("```json" + body + "```");
  }

  /** The opening fence goes; the body and the closing fence stay. */
  lemma FencedOpen(body: string)
    ensures OpenFence("```json" + body + "```") == Strip(body + "```")
  {
    var t := "```json" + body + "```";
    assert t[..7] == "```json";
    assert t[7..] == body + "```";
  }

  /** Then the closing fence goes, and what precedes it strips to the body. */
  lemma FencedTail(body: string)
    ensures CloseFence(Strip(body + "```")) == Strip(body)
  {
    var i := StripParts(body);
    var core := Strip(body);
    var p, q := body[..i], body[i + |core|..];
    assert p + core + q + "```" == body + "```";
    FencedTailParts(p, core, q);
  }

  lemma FencedTailParts(p: string, core: string, q: string)
    requires AllSpace(p) && AllSpace(q) && IsStripped(core)
    ensures CloseFence(Strip(p + core + q + "```")) == core
  {
    if core == [] {
      assert p + core + q + "```" == (p + q) + "```";
      FencedTailBlank(p + q);
    } else {
      FencedTailCore(p, core, q);
    }
  }

  lemma FencedTailBlank(blank: string)
    requires AllSpace(blank)
    ensures CloseFence(Strip(blank + "```")) == []
  {
    var tick: string := "```";
    assert blank + tick == blank + tick + [];
    StripOf(blank, tick, []);
    assert tick[..0] == [];
  }

  lemma FencedTailCore(p: string, core: string, q: string)
    requires AllSpace(p) && AllSpace(q) && IsStripped(core) && core != []
    ensures CloseFence(Strip(p + core + q + "```")) == core
  {
    StripBeforeTick(p, core + q);
    assert p + core + q + "```" == p + (core + q) + "```";
    CloseTick(core, q);
  }

  /** Leading whitespace goes; the closing fence protects the trailing whitespace. */
  lemma StripBeforeTick(p: string, rest: string)
    requires AllSpace(p) && rest != [] && !IsSpace(rest[0])
    ensures Strip(p + rest + "```") == rest + "```"
  {
    var m := rest + "```";
    assert m[0] == rest[0] && m[|m| - 1] == '`';
    assert p + rest + "```" == p + m + [];
    StripOf(p, m, []);
  }

  lemma CloseTick(core: string, q: string)
    requires AllSpace(q) && IsStripped(core)
    ensures CloseFence(core + q + "```") == core
  {
    CutTick(core + q);
    assert [] + core + q == core + q;
    StripOf([], core, q);
  }

  lemma CutTick(s: string)
    ensures EndsWith(s + "```", "```") && (s + "```")[..|s|] == s
  {
  }

  /**
   * The usual fenced reply "```json\n[...]\n```" is repaired to the array inside it:
   * the fence and the whitespace around the body go, nothing else.
   */
  lemma RepairRemovesFence(body: string)
    requires Bracketed(Strip(body))
    ensures Repair("```json" + body + "```") == Some(Strip(body))
  {
    UnfenceFenced(body);
  }

  // ---------------------------------------------------------------------------
  // Topic fields (lines 361-365) and `safe_list` (lines 639-655)

  /** A result's topic field as decoded JSON. */
  datatype TopicField =
    | Missing                    // the key is absent: defaults to []
    | Str(s: string)             // a string: comma-separated names
    | Names(items: seq<string>)  // a list of strings (or any iterable of strings)
    | Malformed                  // anything else: iterating or stripping it raises

  /** The cleaned topic names of a field; nothing when the field is malformed. */
  function FieldNames(f: TopicField): (r: Option<seq<string>>)
    ensures r.None? <==> f.Malformed?
    ensures f.Missing? ==> r == Some([])
  {
    match f
    case Missing => Some([])
    case Str(s) => Some(CleanNames(Split(s, ',')))
    case Names(items) => Some(CleanNames(items))
    case Malformed => None
  }

  /** Cleaning names that are already stripped and non-empty changes nothing. */
  lemma {:induction false} CleanNamesOfClean(xs: seq<string>)
    requires forall i | 0 <= i < |xs| :: xs[i] != [] && IsStripped(xs[i])
    ensures CleanNames(xs) == xs
  {
    if xs != [] {
      CleanNamesOfClean(xs[1..]);
    }
  }

  /** A comma-separated string and the list of its names give the same topics. */
  lemma FieldFormsAgree(names: seq<string>)
    requires |names| >= 1
    requires forall i | 0 <= i < |names| :: names[i] != [] && IsStripped(names[i]) && ',' !in names[i]
    ensures FieldNames(Str(Join(names, [',']))) == FieldNames(Names(names)) == Some(names)
  {
    SplitOfJoin(names, ',');
    CleanNamesOfClean(names);
  }

  /**
   * The string branch of `safe_list`: a string not shaped `[...]` is split on
   * commas into cleaned names; the `[...]` branch evaluates the text as Python and
   * is not modelled (nothing).
   */
  function SafeListText(val: string): (r: Option<seq<string>>)
    ensures r.Some? <==> !Bracketed(Strip(val))
    ensures r.Some? ==> forall i | 0 <= i < |r.value| :: r.value[i] != [] && IsStripped(r.value[i]) && ',' !in r.value[i]
  {
    if Bracketed(Strip(val)) then None
    else
      var pieces := Split(val, ',');
      var names := CleanNames(pieces);
      assert forall n | n in names :: ',' !in n by {
        forall n | n in names ensures ',' !in n {
          var x :| x in pieces && Strip(x) == n;
          assert forall c | c in n :: c in x;
        }
      }
      Some(names)
  }

  /** `safe_list` undoes a comma join of clean names. */
  lemma SafeListOfJoin(names: seq<string>)
    requires |names| >= 1
    requires forall i | 0 <= i < |names| :: names[i] != [] && IsStripped(names[i]) && ',' !in names[i] && '[' !in names[i]
    ensures SafeListText(Join(names, [','])) == Some(names)
  {
    SplitOfJoin(names, ',');
    CleanNamesOfClean(names);
    JoinOfCleanNames(names);
  }

  /** A comma join of clean names is stripped and not shaped `[...]`. */
  lemma JoinOfCleanNames(names: seq<string>)
    requires |names| >= 1
    requires forall i | 0 <= i < |names| :: names[i] != [] && IsStripped(names[i]) && '[' !in names[i]
    ensures IsStripped(Join(names, [','])) && !Bracketed(Join(names, [',']))
  {
    var first, last := names[0], names[|names| - 1];
    JoinFirstChar(names, [',']);
    JoinLastChar(names, [',']);
    assert first[0] in first;
  }

  lemma {:induction false} JoinFirstChar(pieces: seq<string>, sep: string)
    requires |pieces| >= 1 && pieces[0] != []
    ensures |Join(pieces, sep)| > 0 && Join(pieces, sep)[0] == pieces[0][0]
  {
    if |pieces| > 1 {
      assert Join(pieces, sep) == pieces[0] + sep + Join(pieces[1..], sep);
    }
  }

  lemma {:induction false} JoinLastChar(pieces: seq<string>, sep: string)
    requires |pieces| >= 1 && pieces[|pieces| - 1] != []
    ensures |Join(pieces, sep)| > 0
    ensures Join(pieces, sep)[|Join(pieces, sep)| - 1] == pieces[|pieces| - 1][|pieces[|pieces| - 1]| - 1]
  {
    if |pieces| > 1 {
      var rest := Join(pieces[1..], sep);
      JoinLastChar(pieces[1..], sep);
      assert pieces[1..][|pieces| - 2] == pieces[|pieces| - 1];
      assert Join(pieces, sep) == pieces[0] + sep + rest;
    }
  }

  // ---------------------------------------------------------------------------
  // Attempts and batches (lines 252-347)

  /** A decoded result entry; `sentenceId` is the text of a truthy SentenceID, nothing when it is missing or falsy. */
  datatype Item =
    | NotAnObject
    | Object(sentenceId: Option<string>, positive: TopicField, negative: TopicField)

  /** What `json.loads` makes of the repaired text. */
  datatype Parsed = ParseError | NotAList | AList(items: seq<Item>)

  /** The service's answer to one attempt. */
  datatype Reply =
    | CallError                          // `generate_content` raised
    | NoParts                            // the response has no parts (a blocked prompt)
    | TextError                          // reading the response text raised
    | Text(raw: string, parse: Parsed)   // `parse` is what the repaired text decodes to

  /** One attempt as the retry loop treats it: the decoded list on success, nothing on any failure. */
  function AttemptResult(reply: Reply): Option<seq<Item>>
  {
    match reply
    case Text(raw, parse) => if Repair(raw).Some? && parse.AList? then Some(parse.items) else None
    case _ => None
  }

  /** The first successful attempt's results. */
  function FirstSuccess(replies: seq<Reply>): Option<seq<Item>>
  {
    if replies == [] then None
    else if AttemptResult(replies[0]).Some? then AttemptResult(replies[0])
    else FirstSuccess(replies[1..])
  }

  /** The results a batch contributes: those of its first successful attempt, none if all fail. */
  function BatchResults(replies: seq<Reply>): seq<Item>
  {
    match FirstSuccess(replies)
    case Some(items) => items
    case None => []
  }

  /** The results of all batches, in batch order. */
  function AllItems(replies: seq<seq<Reply>>): seq<Item>
  {
    if replies == [] then [] else AllItems(replies[..|replies| - 1]) + BatchResults(replies[|replies| - 1])
  }

  /**
   * The retry loop of one batch: attempts stop at the first success, there are
   * at most three, and the batch yields that success's results or nothing.
   */
  method ProcessBatch(replies: seq<Reply>) returns (items: Option<seq<Item>>, attempts: nat)
    requires |replies| == RetryLimit
    ensures items == FirstSuccess(replies)
    ensures 1 <= attempts <= RetryLimit
    ensures forall a | 0 <= a < attempts - 1 :: AttemptResult(replies[a]).None?
    ensures items.Some? ==> AttemptResult(replies[attempts - 1]) == items
    ensures items.None? ==> attempts == RetryLimit && AttemptResult(replies[attempts - 1]).None?
  {
    items, attempts := None, 0;
    var attempt := 0;
    while attempt < RetryLimit
      invariant 0 <= attempt <= RetryLimit
      invariant attempts == attempt
      invariant forall a | 0 <= a < attempt :: AttemptResult(replies[a]).None?
      invariant FirstSuccess(replies) == FirstSuccess(replies[attempt..])
    {
      attempts := attempt + 1;
      var result := AttemptResult(replies[attempt]);
      if result.Some? {
        items := result;
        return;
      }
      assert replies[attempt..][1..] == replies[attempt + 1..];
      attempt := attempt + 1;
    }
  }

  /** A prompt sentence: a student's identifier text and stripped preference text. */
  datatype Sentence = Sentence(id: string, text: string)

  /** `str(student.student_id)`. */
  function IdText(email: string): string
  {
    match StudentId(email)
    case Some(id) => id
    case None => "None"
  }

  /** A student who gets a sentence: one with non-empty preference text. */
  predicate HasText(p: StudentProfile)
  {
    p.preferenceText.Some? && p.preferenceText.value != []
  }

  /** The sentence a student with text gets. */
  function SentenceFor(students: map<string, StudentProfile>, e: string): Sentence
    requires e in students && HasText(students[e])
  {
    Sentence(IdText(e), Strip(students[e].preferenceText.value))
  }

  /**
   * The sentences of a batch: one per student with non-empty preference text, in
   * order. The batch comes from the student query, so every name in it is a
   * student; a name that is not gets no sentence.
   */
  function Sentences(students: map<string, StudentProfile>, batch: seq<string>): (r: seq<Sentence>)
    ensures |r| <= |batch|
    ensures (forall e | e in batch :: e in students && HasText(students[e])) ==> |r| == |batch|
  {
    if batch == [] then []
    else
      var e := batch[|batch| - 1];
      var init := Sentences(students, batch[..|batch| - 1]);
      if e in students && HasText(students[e]) then init + [SentenceFor(students, e)] else init
  }

  /** The sentences of a prefix of the batch start the batch's sentences. */
  lemma {:induction false} SentencesPrefix(students: map<string, StudentProfile>, batch: seq<string>, j: nat)
    requires j <= |batch|
    ensures var pre := Sentences(students, batch[..j]);
      |pre| <= |Sentences(students, batch)| && Sentences(students, batch)[..|pre|] == pre
  {
    if j < |batch| {
      var n := |batch| - 1;
      var init := batch[..n];
      SentencesPrefix(students, init, j);
      assert init[..j] == batch[..j];
      var mid := Sentences(students, init);
      var all := Sentences(students, batch);
      assert all[..|mid|] == mid;
      var pre := Sentences(students, batch[..j]);
      assert all[..|pre|] == all[..|mid|][..|pre|];
    } else {
      assert batch[..j] == batch;
    }
  }

  /**
   * Every student of the batch with text gets their sentence, in batch order: the
   * sentence of `batch[k]` comes right after those of the students before it.
   */
  lemma SentencesInOrder(students: map<string, StudentProfile>, batch: seq<string>, k: nat)
    requires k < |batch| && batch[k] in students && HasText(students[batch[k]])
    ensures var before := Sentences(students, batch[..k]);
      |before| < |Sentences(students, batch)| && Sentences(students, batch)[|before|] == SentenceFor(students, batch[k])
  {
    SentencesStep(students, batch, k);
    SentencesPrefix(students, batch, k + 1);
    var before := Sentences(students, batch[..k]);
    var next := Sentences(students, batch[..k + 1]);
    var all := Sentences(students, batch);
    assert next == before + [SentenceFor(students, batch[k])];
    assert all[|before|] == all[..|next|][|before|] == next[|before|];
  }

  /** Nothing else is sent: each sentence is that of a batch student with text. */
  lemma {:induction false} SentencesOnly(students: map<string, StudentProfile>, batch: seq<string>, i: nat)
    requires i < |Sentences(students, batch)|
    ensures exists k | 0 <= k < |batch| ::
              batch[k] in students && HasText(students[batch[k]]) && Sentences(students, batch)[i] == SentenceFor(students, batch[k])
  {
    var n := |batch| - 1;
    var init := batch[..n];
    var mid := Sentences(students, init);
    var all := Sentences(students, batch);
    if i < |mid| {
      assert all[i] == mid[i];
      SentencesOnly(students, init, i);
      var k :| 0 <= k < |init| && init[k] in students && HasText(students[init[k]]) && mid[i] == SentenceFor(students, init[k]);
      assert init[k] == batch[k];
    } else {
      assert all[i] == SentenceFor(students, batch[n]);
    }
  }

  /** The prompt sentences of batch `i`. */
  function Prompt(students: map<string, StudentProfile>, order: seq<string>, i: nat): seq<Sentence>
    requires forall e | e in order :: e in students
  {
    var batch := Batch(order, i);
    assert forall e | e in batch :: e in order;
    Sentences(students, batch)
  }

  lemma SentencesStep(students: map<string, StudentProfile>, batch: seq<string>, k: nat)
    requires k < |batch|
    ensures Sentences(students, batch[..k + 1]) ==
      Sentences(students, batch[..k]) +
        (if batch[k] in students && HasText(students[batch[k]]) then [SentenceFor(students, batch[k])] else [])
  {
    assert batch[..k + 1][..k] == batch[..k];
  }

  /** The sentence-building loop of one batch. */
  method BuildSentences(students: map<string, StudentProfile>, batch: seq<string>) returns (sentences: seq<Sentence>)
    requires forall e | e in batch :: e in students
    ensures sentences == Sentences(students, batch)
  {
    sentences := [];
    for k := 0 to |batch|
      invariant sentences == Sentences(students, batch[..k])
    {
      var e := batch[k];
      var text := students[e].preferenceText;
      SentencesStep(students, batch, k);
      if text.Some? && text.value != [] {
        sentences := sentences + [Sentence(IdText(e), Strip(text.value))];
      }
    }
    assert batch[..|batch|] == batch;
  }

  /** One batch: its prompt, then its retry loop. */
  method RunBatch(students: map<string, StudentProfile>, order: seq<string>, i: nat, replies: seq<Reply>)
    returns (sentences: seq<Sentence>, items: seq<Item>)
    requires forall e | e in order :: e in students
    requires |replies| == RetryLimit
    ensures sentences == Prompt(students, order, i)
    ensures items == BatchResults(replies)
  {
    var batch := Batch(order, i);
    assert forall e | e in batch :: e in order;
    sentences := BuildSentences(students, batch);
    var outcome, attempts := ProcessBatch(replies);
    items := if outcome.Some? then outcome.value else [];
  }

  /** The prompts of batches 0 to `i - 1`, in order. */
  function Prompts(students: map<string, StudentProfile>, order: seq<string>, i: nat): seq<seq<Sentence>>
    requires forall e | e in order :: e in students
  {
    seq(i, k requires 0 <= k < i => Prompt(students, order, k))
  }

  lemma PromptsSnoc(students: map<string, StudentProfile>, order: seq<string>, i: nat)
    requires forall e | e in order :: e in students
    ensures Prompts(students, order, i + 1) == Prompts(students, order, i) + [Prompt(students, order, i)]
  {
    var a, b := Prompts(students, order, i + 1), Prompts(students, order, i) + [Prompt(students, order, i)];
    assert |a| == |b|;
    forall k | 0 <= k < i + 1 ensures a[k] == b[k] {
      if k < i {
        assert b[k] == Prompts(students, order, i)[k];
      }
    }
  }

  lemma AllItemsStep(replies: seq<seq<Reply>>, i: nat)
    requires i < |replies|
    ensures AllItems(replies[..i + 1]) == AllItems(replies[..i]) + BatchResults(replies[i])
  {
    assert replies[..i + 1][..i] == replies[..i];
  }

  /** Batch `i` of the loop: its prompt and its results are appended. */
  method NextBatch(students: map<string, StudentProfile>, order: seq<string>, replies: seq<seq<Reply>>, i: nat,
                   prompts: seq<seq<Sentence>>, results: seq<Item>)
    returns (prompts': seq<seq<Sentence>>, results': seq<Item>)
    requires forall e | e in order :: e in students
    requires i < |replies| && |replies[i]| == RetryLimit
    requires prompts == Prompts(students, order, i) && results == AllItems(replies[..i])
    ensures prompts' == Prompts(students, order, i + 1) && results' == AllItems(replies[..i + 1])
  {
    var sentences, items := RunBatch(students, order, i, replies[i]);
    PromptsSnoc(students, order, i);
    AllItemsStep(replies, i);
    prompts', results' := prompts + [sentences], results + items;
  }

  /**
   * The batch loop: one prompt per batch, built from that batch's students; the
   * results of every batch in order; and a pause between batches but not after the last.
   */
  method CollectResults(students: map<string, StudentProfile>, order: seq<string>, replies: seq<seq<Reply>>)
    returns (prompts: seq<seq<Sentence>>, results: seq<Item>, pauses: nat)
    requires forall e | e in order :: e in students
    requires |replies| == NumBatches(|order|)
    requires forall i | 0 <= i < |replies| :: |replies[i]| == RetryLimit
    ensures |prompts| == |replies|
    ensures forall i | 0 <= i < |prompts| :: prompts[i] == Prompt(students, order, i)
    ensures results == AllItems(replies)
    ensures pauses == if replies == [] then 0 else |replies| - 1
  {
    prompts, results, pauses := [], [], 0;
    var n := NumBatches(|order|);
    for i := 0 to n
      invariant prompts == Prompts(students, order, i)
      invariant results == AllItems(replies[..i])
      invariant pauses == if i == 0 then 0 else Min(i, n - 1)
    {
      prompts, results := NextBatch(students, order, replies, i, prompts, results);
      if i < n - 1 {
        pauses := pauses + 1;
      }
    }
    assert replies[..n] == replies;
  }

  // ---------------------------------------------------------------------------
  // The retry loop as written (lines 281-342)

  datatype AttemptOutcome = Crashed | Failed | Succeeded(items: seq<Item>)

  /**
   * One attempt as written: when the call raises before any response has been
   * received in this task, the error handler reads the unassigned `response`
   * and itself raises, which aborts the whole task.
   */
  function AttemptAsWritten(reply: Reply, responseBound: bool): AttemptOutcome
  {
    if reply.CallError? && !responseBound then Crashed
    else match AttemptResult(reply)
      case Some(items) => Succeeded(items)
      case None => Failed
  }

  /** The retry loop as written, given whether a response has been received earlier. */
  function RetryAsWritten(replies: seq<Reply>, responseBound: bool): AttemptOutcome
  {
    if replies == [] then Failed
    else match AttemptAsWritten(replies[0], responseBound)
      case Failed => RetryAsWritten(replies[1..], responseBound || !replies[0].CallError?)
      case outcome => outcome
  }

  /** Where the loop as written does not crash, it agrees with the retry loop of the model. */
  lemma {:induction false} RetryAsWrittenAgrees(replies: seq<Reply>, responseBound: bool)
    ensures RetryAsWritten(replies, responseBound) == Crashed ||
      RetryAsWritten(replies, responseBound) == (if FirstSuccess(replies).Some? then Succeeded(FirstSuccess(replies).value) else Failed)
    ensures responseBound ==> RetryAsWritten(replies, responseBound) != Crashed
  {
    if replies != [] {
      RetryAsWrittenAgrees(replies[1..], responseBound || !replies[0].CallError?);
    }
  }

  /** A first call that raises aborts the task as written, although the next attempt would succeed. */
  lemma FirstCallErrorAborts()
    ensures RetryAsWritten([CallError, Text("[]", AList([])), NoParts], false) == Crashed
    ensures FirstSuccess([CallError, Text("[]", AList([])), NoParts]) == Some([])
  {
    RepairKeepsArray("[]");
  }

  // ---------------------------------------------------------------------------
  // Write-back (lines 353-391)

  /** The running state of the write-back loop. */
  datatype Tally = Tally(students: map<string, StudentProfile>, updated: nat)

  /** The names of `names` that are standardised topics (`filter(name__in=...)`). */
  function InVocabulary(names: seq<string>, topics: set<string>): (r: set<string>)
    ensures forall n :: n in r <==> n in names && n in topics
  {
    set n | n in names && n in topics
  }

  /** `.set()` on both topic sets: the old sets are replaced. */
  function Relabel(p: StudentProfile, pos: seq<string>, neg: seq<string>, topics: set<string>): StudentProfile
  {
    p.(positive := InVocabulary(pos, topics), negative := InVocabulary(neg, topics))
  }

  /**
   * One result: a non-object or a malformed topic field raises (the whole write
   * is rolled back); a result without SentenceID, or whose lookup finds no student
   * or several, is skipped; otherwise the one student found is relabelled.
   */
  ghost function ApplyItem(t: Tally, topics: set<string>, item: Item): (r: Option<Tally>)
    ensures r.None? <==> item.NotAnObject? || FieldNames(item.positive).None? || FieldNames(item.negative).None?
    ensures r.Some? ==> r.value.students.Keys == t.students.Keys && t.updated <= r.value.updated <= t.updated + 1
  {
    match item
    case NotAnObject => None
    case Object(sid, positive, negative) =>
      var pos := FieldNames(positive);
      var neg := FieldNames(negative);
      if pos.None? || neg.None? then None
      else if sid.None? then Some(t)
      else
        Some(RelabelFound(t, LookupStudents(t.students, sid.value), pos.value, neg.value, topics))
  }

  /** The students a lookup found: exactly one is relabelled; none or several are skipped. */
  ghost function RelabelFound(t: Tally, hits: set<string>, pos: seq<string>, neg: seq<string>, topics: set<string>): (r: Tally)
    requires hits <= t.students.Keys
    ensures r.students.Keys == t.students.Keys && t.updated <= r.updated <= t.updated + 1
  {
    if |hits| != 1 then t
    else
      var e := Only(hits);
      Tally(t.students[e := Relabel(t.students[e], pos, neg, topics)], t.updated + 1)
  }

  /** A lookup that found one student relabels that student. */
  lemma RelabelFoundOne(t: Tally, hits: set<string>, e: string, pos: seq<string>, neg: seq<string>, topics: set<string>)
    requires hits <= t.students.Keys && |hits| == 1 && e in hits
    ensures RelabelFound(t, hits, pos, neg, topics) == Tally(t.students[e := Relabel(t.students[e], pos, neg, topics)], t.updated + 1)
  {
    OnlyIs(hits, e);
  }

  /** The write-back over all results, in order; nothing if any result raises. */
  ghost function ApplyItems(students: map<string, StudentProfile>, topics: set<string>, items: seq<Item>): Option<Tally>
  {
    if items == [] then Some(Tally(students, 0))
    else match ApplyItems(students, topics, items[..|items| - 1])
      case None => None
      case Some(t) => ApplyItem(t, topics, items[|items| - 1])
  }

  /** The body of the write-back loop for one result. */
  method ApplyOne(t: Tally, topics: set<string>, item: Item) returns (r: Option<Tally>)
    ensures r == ApplyItem(t, topics, item)
  {
    if item.NotAnObject? {
      return None;
    }
    var pos := FieldNames(item.positive);
    var neg := FieldNames(item.negative);
    if pos.None? || neg.None? {
      return None;
    }
    if item.sentenceId.None? {
      return Some(t);
    }
    var hits := LookupStudents(t.students, item.sentenceId.value);
    if |hits| != 1 {
      return Some(t);
    }
    var e :| e in hits;
    RelabelFoundOne(t, hits, e, pos.value, neg.value, topics);
    r := Some(Tally(t.students[e := Relabel(t.students[e], pos.value, neg.value, topics)], t.updated + 1));
  }

  /** The write-back loop, counting the students it updates. */
  method WriteBack(students0: map<string, StudentProfile>, topics: set<string>, items: seq<Item>) returns (r: Option<Tally>)
    ensures r == ApplyItems(students0, topics, items)
  {
    var tally := Tally(students0, 0);
    for i := 0 to |items|
      invariant ApplyItems(students0, topics, items[..i]) == Some(tally)
    {
      assert items[..i + 1][..i] == items[..i];
      var next := ApplyOne(tally, topics, items[i]);
      if next.None? {
        PrefixFailure(students0, topics, items, i + 1);
        return None;
      }
      tally := next.value;
    }
    assert items[..|items|] == items;
    r := Some(tally);
  }

  /** Once a prefix of the results raises, the whole write-back does. */
  lemma {:induction false} PrefixFailure(students: map<string, StudentProfile>, topics: set<string>, items: seq<Item>, k: nat)
    requires k <= |items| && ApplyItems(students, topics, items[..k]) == None
    ensures ApplyItems(students, topics, items) == None
    decreases |items| - k
  {
    if k < |items| {
      assert items[..k + 1][..k] == items[..k];
      PrefixFailure(students, topics, items, k + 1);
    } else {
      assert items[..k] == items;
    }
  }

  /** A result that raises during write-back. */
  predicate Raises(item: Item)
  {
    item.NotAnObject? || FieldNames(item.positive).None? || FieldNames(item.negative).None?
  }

  /** A result whose SentenceID's lookup pattern matches the email `e`. */
  predicate Mentions(item: Item, e: string)
  {
    item.Object? && item.sentenceId.Some? && StartsWith(e, item.sentenceId.value + "@")
  }

  /** `after` is `before` with at most its positive and negative sets replaced by vocabulary topics. */
  predicate RelabelledFrom(before: StudentProfile, after: StudentProfile, topics: set<string>)
  {
    && after == before.(positive := after.positive, negative := after.negative)
    && (after == before || (after.positive <= topics && after.negative <= topics))
  }

  /** Some result raises during write-back. */
  predicate SomeRaises(items: seq<Item>)
  {
    exists k | 0 <= k < |items| :: Raises(items[k])
  }

  lemma SomeRaisesSnoc(items: seq<Item>)
    requires items != []
    ensures SomeRaises(items) <==> SomeRaises(items[..|items| - 1]) || Raises(items[|items| - 1])
  {
    var init := items[..|items| - 1];
    if SomeRaises(init) {
      var k :| 0 <= k < |init| && Raises(init[k]);
      assert items[k] == init[k];
    }
    if SomeRaises(items) {
      var k :| 0 <= k < |items| && Raises(items[k]);
      if k < |init| {
        assert init[k] == items[k];
      }
    }
  }

  /** The write-back raises exactly when one of the results does; then nothing is written. */
  lemma {:induction false} WriteBackFailsIffSomeRaises(students: map<string, StudentProfile>, topics: set<string>, items: seq<Item>)
    ensures ApplyItems(students, topics, items).None? <==> SomeRaises(items)
  {
    if items != [] {
      var init := items[..|items| - 1];
      WriteBackFailsIffSomeRaises(students, topics, init);
      SomeRaisesSnoc(items);
      match ApplyItems(students, topics, init)
      case None =>
      case Some(t) => assert ApplyItem(t, topics, items[|items| - 1]).None? <==> Raises(items[|items| - 1]);
    }
  }

  /**
   * The write-back keeps every student and changes only positive and negative
   * sets, each replaced by vocabulary topics; it updates at most one student per result.
   */
  lemma {:induction false} WriteBackShape(students: map<string, StudentProfile>, topics: set<string>, items: seq<Item>)
    requires ApplyItems(students, topics, items).Some?
    ensures var t := ApplyItems(students, topics, items).value;
      && t.students.Keys == students.Keys
      && t.updated <= |items|
      && forall e | e in students :: RelabelledFrom(students[e], t.students[e], topics)
  {
    if items != [] {
      var init := items[..|items| - 1];
      WriteBackShape(students, topics, init);
    }
  }

  /** Students that no result names keep their old sets. */
  lemma {:induction false} WriteBackLeavesUnnamed(students: map<string, StudentProfile>, topics: set<string>, items: seq<Item>, e: string)
    requires ApplyItems(students, topics, items).Some? && e in students
    requires forall k | 0 <= k < |items| :: !Mentions(items[k], e)
    ensures e in ApplyItems(students, topics, items).value.students
    ensures ApplyItems(students, topics, items).value.students[e] == students[e]
  {
    if items != [] {
      var init := items[..|items| - 1];
      assert forall k | 0 <= k < |init| :: init[k] == items[k];
      WriteBackLeavesUnnamed(students, topics, init, e);
      WriteBackShape(students, topics, init);
      var t := ApplyItems(students, topics, init).value;
      var item := items[|items| - 1];
      if item.Object? && item.sentenceId.Some? {
        assert e !in LookupStudents(t.students, item.sentenceId.value);
      }
    }
  }

  /**
   * The last result naming exactly one student replaces that student's sets by
   * exactly the result's names that are standardised topics.
   */
  lemma LastResultReplacesSets(students: map<string, StudentProfile>, topics: set<string>, items: seq<Item>, e: string)
    requires items != [] && ApplyItems(students, topics, items).Some?
    requires var item := items[|items| - 1];
      item.Object? && item.sentenceId.Some? && LookupStudents(students, item.sentenceId.value) == {e}
    ensures var item := items[|items| - 1];
      && e in ApplyItems(students, topics, items).value.students
      && FieldNames(item.positive).Some? && FieldNames(item.negative).Some?
      && ApplyItems(students, topics, items).value.students[e].positive == InVocabulary(FieldNames(item.positive).value, topics)
      && ApplyItems(students, topics, items).value.students[e].negative == InVocabulary(FieldNames(item.negative).value, topics)
  {
    var init := items[..|items| - 1];
    var item := items[|items| - 1];
    var prev := ApplyItems(students, topics, init);
    assert prev.Some?;
    WriteBackShape(students, topics, init);
    var t := prev.value;
    assert ApplyItems(students, topics, items) == ApplyItem(t, topics, item);
    var hits := LookupStudents(t.students, item.sentenceId.value);
    assert hits == LookupStudents(students, item.sentenceId.value);
    assert hits == {e};
    var pos := FieldNames(item.positive).value;
    var neg := FieldNames(item.negative).value;
    RelabelFoundOne(t, hits, e, pos, neg, topics);
  }

  /** The result's lookup finds exactly the student `e` (who is then relabelled by it). */
  predicate Decides(students: map<string, StudentProfile>, item: Item, e: string)
  {
    item.Object? && item.sentenceId.Some? && LookupStudents(students, item.sentenceId.value) == {e}
  }

  /** A result that does not find exactly `e` leaves `e`'s profile as it was. */
  lemma ApplyItemKeeps(students: map<string, StudentProfile>, t: Tally, topics: set<string>, item: Item, e: string)
    requires t.students.Keys == students.Keys && e in students
    requires ApplyItem(t, topics, item).Some? && !Decides(students, item, e)
    ensures e in ApplyItem(t, topics, item).value.students
    ensures ApplyItem(t, topics, item).value.students[e] == t.students[e]
  {
    if item.Object? && item.sentenceId.Some? {
      var hits := LookupStudents(t.students, item.sentenceId.value);
      assert hits == LookupStudents(students, item.sentenceId.value);
      if |hits| == 1 {
        var x :| x in hits;
        assert hits == {x} by { SingletonMember(hits, x, x); forall y | y in hits ensures y == x { SingletonMember(hits, x, y); } }
        assert x != e;
        RelabelFoundOne(t, hits, x, FieldNames(item.positive).value, FieldNames(item.negative).value, topics);
      }
    }
  }

  /**
   * The result that decides a student: when result `k` finds exactly `e` and no
   * later result does, `e`'s sets end up exactly the names of result `k` that are
   * standardised topics, whatever the other results say.
   */
  lemma {:induction false} DecidingResultReplacesSets(students: map<string, StudentProfile>, topics: set<string>, items: seq<Item>, k: nat, e: string)
    requires k < |items| && ApplyItems(students, topics, items).Some?
    requires Decides(students, items[k], e)
    requires forall j | k < j < |items| :: !Decides(students, items[j], e)
    ensures && e in ApplyItems(students, topics, items).value.students
            && FieldNames(items[k].positive).Some? && FieldNames(items[k].negative).Some?
            && ApplyItems(students, topics, items).value.students[e].positive == InVocabulary(FieldNames(items[k].positive).value, topics)
            && ApplyItems(students, topics, items).value.students[e].negative == InVocabulary(FieldNames(items[k].negative).value, topics)
  {
    var n := |items| - 1;
    if k == n {
      LastResultReplacesSets(students, topics, items, e);
    } else {
      var init := items[..n];
      var prev := ApplyItems(students, topics, init);
      assert prev.Some?;
      assert init[k] == items[k];
      assert forall j | k < j < |init| :: init[j] == items[j];
      DecidingResultReplacesSets(students, topics, init, k, e);
      WriteBackShape(students, topics, init);
      assert ApplyItems(students, topics, items) == ApplyItem(prev.value, topics, items[n]);
      ApplyItemKeeps(students, prev.value, topics, items[n], e);
    }
  }

  /** The write-back keeps topic references and profile links valid. */
  lemma WriteBackKeepsValid(
    topics: set<string>, originals: map<string, Option<string>>, users: map<string, User>,
    students: map<string, StudentProfile>, sups: map<string, SupervisorProfile>, items: seq<Item>)
    requires TopicsClosed(topics, originals, students, sups) && ProfilesLinked(users, students, sups)
    requires ApplyItems(students, topics, items).Some?
    ensures var after := ApplyItems(students, topics, items).value.students;
      TopicsClosed(topics, originals, after, sups) && ProfilesLinked(users, after, sups)
  {
    WriteBackShape(students, topics, items);
    var after := ApplyItems(students, topics, items).value.students;
    forall e | e in after ensures StudentTopicsIn(after[e], topics) {
      assert RelabelledFrom(students[e], after[e], topics);
      assert StudentTopicsIn(students[e], topics);
    }
  }

  // ---------------------------------------------------------------------------
  // The task

  /** The semester's students that have preference text. */
  function Selected(students: map<string, StudentProfile>, semester: int): set<string>
  {
    set e | e in students && students[e].preferenceText.Some? && students[e].semester == Some(semester)
  }

  datatype LabelOutcome =
    | NoVocabulary                          // raises: there are no standardised topics
    | NoStudents                            // returns early: nobody to label
    | MissingApiKey                         // raises: the service key is not configured
    | NoResults                             // `exit()`: no batch produced results
    | WriteFailed                           // a result raised inside the atomic write-back
    | Labelled(updated: nat, selected: nat) // success

  /**
   * `label_student_preferences_for_semester`. `order` is the selected students in
   * `user` order, `replies[i]` the service's answers to batch `i`'s attempts, and
   * `apiKeySet` whether the service key is configured. The prompts sent are returned.
   */
  method LabelStudentPreferences(db: Database, semester: int, apiKeySet: bool, order: seq<string>, replies: seq<seq<Reply>>)
    returns (r: LabelOutcome, prompts: seq<seq<Sentence>>)
    requires db.Valid()
    requires Enumerates(order, Selected(db.students, semester))
    requires |replies| == NumBatches(|order|)
    requires forall i | 0 <= i < |replies| :: |replies[i]| == RetryLimit
    modifies db
    ensures db.Valid()
    ensures db.topics == old(db.topics) && db.originals == old(db.originals) && db.users == old(db.users)
    ensures db.supervisors == old(db.supervisors) && db.semesters == old(db.semesters)
    ensures r.NoVocabulary? <==> old(db.topics) == {}
    ensures r.NoStudents? <==> old(db.topics) != {} && Selected(old(db.students), semester) == {}
    ensures r.MissingApiKey? <==> old(db.topics) != {} && order != [] && !apiKeySet
    ensures r.NoResults? <==> old(db.topics) != {} && order != [] && apiKeySet && AllItems(replies) == []
    ensures r.WriteFailed? <==>
      (old(db.topics) != {} && order != [] && apiKeySet && AllItems(replies) != [] &&
       ApplyItems(old(db.students), old(db.topics), AllItems(replies)).None?)
    ensures !r.Labelled? ==> unchanged(db)
    ensures r.Labelled? ==> ApplyItems(old(db.students), old(db.topics), AllItems(replies)) == Some(Tally(db.students, r.updated))
    ensures r.Labelled? ==> r.selected == |Selected(old(db.students), semester)|
    ensures r.NoResults? || r.WriteFailed? || r.Labelled? ==>
      |prompts| == NumBatches(|order|) && forall i | 0 <= i < |prompts| :: prompts[i] == Prompt(old(db.students), order, i)
  {
    prompts := [];
    if db.topics == {} {
      return NoVocabulary, prompts;
    }
    if order != [] {
      assert order[0] in Selected(db.students, semester);
    }
    if order == [] {
      return NoStudents, prompts;
    }
    if !apiKeySet {
      return MissingApiKey, prompts;
    }
    var results, pauses;
    prompts, results, pauses := CollectResults(db.students, order, replies);
    if results == [] {
      return NoResults, prompts;
    }
    var tally := WriteBack(db.students, db.topics, results);
    if tally.None? {
      return WriteFailed, prompts;
    }
    WriteBackKeepsValid(db.topics, db.originals, db.users, db.students, db.supervisors, results);
    EnumeratesSize(order, Selected(db.students, semester));
    db.students := tally.value.students;
    r := Labelled(tally.value.updated, |order|);
  }
}

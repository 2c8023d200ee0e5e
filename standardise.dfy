/**
 * Topic standardisation (api/tasks.py, `get_standardisation_map_from_gemini` and
 * `standardize_all_topics`). The quoted terms of every supervisor's expertise text
 * are collected; the categorising service answers with a term -> umbrella map,
 * which is completed so that every term has an entry; every umbrella becomes a
 * standardised topic (get-or-create), every original term is linked to its
 * umbrella, and every supervisor's standardised expertise is recomputed.
 */
module Standardise {
  import opened Wrappers
  import opened Sequences
  import opened Text
  import opened Accounts
  import opened Store

  // ---------------------------------------------------------------------------
  // Term extraction (lines 141-153)

  /** The terms of one expertise text: its quoted substrings, stripped, empties dropped. */
  function TermsOf(expertise: Option<string>): set<string>
  {
    if expertise.None? || expertise.value == [] then {} else StrippedTerms(FindQuoted(expertise.value))
  }

  /** The terms of the supervisors whose keys are in `keys`. */
  function TermsOver(sups: map<string, SupervisorProfile>, keys: set<string>): set<string>
  {
    set v, t | v in keys && v in sups && t in TermsOf(sups[v].expertise) :: t
  }

  /** Every term of every supervisor's expertise. */
  function AllTerms(sups: map<string, SupervisorProfile>): set<string>
  {
    TermsOver(sups, sups.Keys)
  }

  lemma TermsOverAdd(sups: map<string, SupervisorProfile>, keys: set<string>, v: string)
    requires v in sups
    ensures TermsOver(sups, keys + {v}) == TermsOver(sups, keys) + TermsOf(sups[v].expertise)
  {
  }

  /** The stripped non-empty pieces of a sequence of found terms. */
  function StrippedTerms(found: seq<string>): set<string>
  {
    set t | t in found && Strip(t) != [] :: Strip(t)
  }

  lemma StrippedTermsSnoc(init: seq<string>, last: string)
    ensures StrippedTerms(init + [last]) == StrippedTerms(init) + (if Strip(last) != [] then {Strip(last)} else {})
  {
    assert forall p :: p in init + [last] <==> p in init || p == last;
  }

  lemma StrippedTermsStep(found: seq<string>, j: nat)
    requires j < |found|
    ensures StrippedTerms(found[..j + 1]) ==
      StrippedTerms(found[..j]) + (if Strip(found[j]) != [] then {Strip(found[j])} else {})
  {
    assert found[..j + 1] == found[..j] + [found[j]];
    StrippedTermsSnoc(found[..j], found[j]);
  }

  /** The inner loop over one supervisor's quoted terms. */
  method CollectTermsOf(expertise: Option<string>) returns (terms: set<string>)
    ensures terms == TermsOf(expertise)
    ensures forall t | t in terms :: t != [] && IsStripped(t)
  {
    terms := {};
    if expertise.Some? && expertise.value != [] {
      var found := FindQuoted(expertise.value);
      var j := 0;
      while j < |found|
        invariant 0 <= j <= |found|
        invariant terms == StrippedTerms(found[..j])
        invariant forall t | t in terms :: t != [] && IsStripped(t)
      {
        var topic := Strip(found[j]);
        if topic != [] {
          terms := terms + {topic};
        }
        StrippedTermsStep(found, j);
        j := j + 1;
      }
      assert found[..j] == found;
    }
  }

  /** The term-set accumulation loop: a set of stripped, non-empty terms, exactly those of all supervisors. */
  method CollectTerms(sups: map<string, SupervisorProfile>) returns (terms: set<string>)
    ensures terms == AllTerms(sups)
    ensures forall t | t in terms :: t != [] && IsStripped(t)
  {
    terms := {};
    var remaining := sups.Keys;
    while remaining != {}
      invariant remaining <= sups.Keys
      invariant terms == TermsOver(sups, sups.Keys - remaining)
      invariant forall t | t in terms :: t != [] && IsStripped(t)
      decreases remaining
    {
      var v :| v in remaining;
      var found := CollectTermsOf(sups[v].expertise);
      TermsOverAdd(sups, sups.Keys - remaining, v);
      terms := terms + found;
      assert sups.Keys - (remaining - {v}) == (sups.Keys - remaining) + {v};
      remaining := remaining - {v};
    }
  }

  // ---------------------------------------------------------------------------
  // The service's map and its completion (lines 16-83)

  /** What the categorising service's reply decodes to. */
  datatype MapReply =
    | CallFailed                                // the call raised
    | NotJson                                   // the text is not valid JSON
    | NotADict                                  // valid JSON, but not an object
    | Dict(entries: map<string, string>)        // a JSON object: term -> umbrella

  /**
   * The standardisation map: `{}` when there are no terms (no call is made),
   * nothing when the reply is not a JSON object, otherwise the reply with every
   * term it omits mapped to itself.
   */
  function CompleteMap(terms: set<string>, reply: MapReply): Option<map<string, string>>
  {
    if terms == {} then Some(map[])
    else match reply
      case Dict(entries) => Some(entries + map t | t in terms && t !in entries :: t)
      case _ => None
  }

  /**
   * Without terms the map is empty and no call is made; otherwise there is a map
   * exactly when the reply is a JSON object, and it keeps every supplied entry and
   * maps every term the reply omits to itself.
   */
  lemma CompleteMapSpec(terms: set<string>, reply: MapReply)
    ensures terms == {} ==> CompleteMap(terms, reply) == Some(map[])
    ensures terms != {} ==> (CompleteMap(terms, reply).Some? <==> reply.Dict?)
    ensures terms != {} && reply.Dict? ==> CompleteMap(terms, reply).value.Keys == reply.entries.Keys + terms
    ensures terms != {} && reply.Dict? ==>
      forall k | k in reply.entries :: CompleteMap(terms, reply).value[k] == reply.entries[k]
    ensures terms != {} && reply.Dict? ==>
      forall t | t in terms && t !in reply.entries :: CompleteMap(terms, reply).value[t] == t
  {
  }

  // ---------------------------------------------------------------------------
  // Writing topics and links (lines 163-177)

  /** The names an original key links: its comma pieces, stripped, empties dropped. */
  function PieceNames(pieces: seq<string>): set<string>
  {
    set p | p in pieces && Strip(p) != [] :: Strip(p)
  }

  function KeyNames(key: string): set<string>
  {
    PieceNames(Split(key, ','))
  }

  /** The inner loop: each non-empty stripped piece is linked (get-or-create, then add) to `umbrella`. */
  function LinkPieces(originals: map<string, Option<string>>, pieces: seq<string>, umbrella: string): map<string, Option<string>>
  {
    if pieces == [] then originals
    else
      var linked := LinkPieces(originals, pieces[..|pieces| - 1], umbrella);
      var name := Strip(pieces[|pieces| - 1]);
      if name != [] then linked[name := Some(umbrella)] else linked
  }

  /** The links written for the map entries listed in `order`, in that order. */
  function WriteLinks(originals: map<string, Option<string>>, m: map<string, string>, order: seq<string>): map<string, Option<string>>
    requires forall k | k in order :: k in m
  {
    if order == [] then originals
    else
      var key := order[|order| - 1];
      LinkPieces(WriteLinks(originals, m, order[..|order| - 1]), Split(key, ','), m[key])
  }

  /** The names linked by the entries listed in `order`. */
  function LinkedNames(order: seq<string>): set<string>
  {
    if order == [] then {} else LinkedNames(order[..|order| - 1]) + KeyNames(order[|order| - 1])
  }

  /** Linking the pieces sets exactly their names to the umbrella and leaves every other entry alone. */
  lemma LinkPiecesIsUpdate(originals: map<string, Option<string>>, pieces: seq<string>, umbrella: string)
    ensures forall n | n in PieceNames(pieces) ::
      n in LinkPieces(originals, pieces, umbrella) && LinkPieces(originals, pieces, umbrella)[n] == Some(umbrella)
    ensures forall n | n !in PieceNames(pieces) :: (n in LinkPieces(originals, pieces, umbrella) <==> n in originals)
    ensures forall n | n !in PieceNames(pieces) && n in originals :: LinkPieces(originals, pieces, umbrella)[n] == originals[n]
  {
    var linked := LinkPieces(originals, pieces, umbrella);
    var names := PieceNames(pieces);
    forall n | n in names ensures n in linked && linked[n] == Some(umbrella) {
      LinkPiecesAt(originals, pieces, umbrella, n);
    }
    forall n | n !in names ensures n in linked <==> n in originals {
      LinkPiecesAt(originals, pieces, umbrella, n);
    }
    forall n | n !in names && n in originals ensures linked[n] == originals[n] {
      LinkPiecesAt(originals, pieces, umbrella, n);
    }
  }

  /** What linking the pieces leaves at the name `n`. */
  predicate LinkedAt(originals: map<string, Option<string>>, pieces: seq<string>, umbrella: string, n: string)
  {
    var linked := LinkPieces(originals, pieces, umbrella);
    if n in PieceNames(pieces) then n in linked && linked[n] == Some(umbrella)
    else (n in linked <==> n in originals) && (n in originals ==> linked[n] == originals[n])
  }

  lemma {:induction false} LinkPiecesAt(originals: map<string, Option<string>>, pieces: seq<string>, umbrella: string, n: string)
    ensures LinkedAt(originals, pieces, umbrella, n)
  {
    if pieces != [] {
      var init := pieces[..|pieces| - 1];
      var last := pieces[|pieces| - 1];
      assert pieces == init + [last];
      LinkPiecesAt(originals, init, umbrella, n);
      PieceNamesSnoc(init, last);
    }
  }

  lemma PieceNamesSnoc(init: seq<string>, last: string)
    ensures PieceNames(init + [last]) == PieceNames(init) + (if Strip(last) != [] then {Strip(last)} else {})
  {
    assert forall p :: p in init + [last] <==> p in init || p == last;
  }

  /** Entries that no listed key names are untouched; every named entry exists afterwards. */
  lemma {:induction false} WriteLinksFrame(originals: map<string, Option<string>>, m: map<string, string>, order: seq<string>)
    requires forall k | k in order :: k in m
    ensures LinkedNames(order) <= WriteLinks(originals, m, order).Keys
    ensures forall n | n !in LinkedNames(order) :: (n in WriteLinks(originals, m, order) <==> n in originals)
    ensures forall n | n !in LinkedNames(order) && n in originals :: WriteLinks(originals, m, order)[n] == originals[n]
  {
    if order != [] {
      var init := order[..|order| - 1];
      var key := order[|order| - 1];
      assert forall k | k in init :: k in order;
      WriteLinksFrame(originals, m, init);
      LinkPiecesIsUpdate(WriteLinks(originals, m, init), Split(key, ','), m[key]);
    }
  }

  /** Every link written points at the umbrella of a listed entry, or was there before. */
  lemma {:induction false} WriteLinksTargets(originals: map<string, Option<string>>, m: map<string, string>, order: seq<string>, topics: set<string>)
    requires forall k | k in order :: k in m
    requires forall n | n in originals && originals[n].Some? :: originals[n].value in topics
    requires m.Values <= topics
    ensures forall n | n in WriteLinks(originals, m, order) && WriteLinks(originals, m, order)[n].Some? ::
      WriteLinks(originals, m, order)[n].value in topics
  {
    if order != [] {
      var init := order[..|order| - 1];
      var key := order[|order| - 1];
      assert forall k | k in init :: k in order;
      WriteLinksTargets(originals, m, init, topics);
      LinkPiecesIsUpdate(WriteLinks(originals, m, init), Split(key, ','), m[key]);
      assert m[key] in m.Values;
    }
  }

  /** The linked entries do not depend on the links that existed before. */
  lemma {:induction false} WriteLinksAgree(o1: map<string, Option<string>>, o2: map<string, Option<string>>, m: map<string, string>, order: seq<string>)
    requires forall k | k in order :: k in m
    ensures forall n | n in LinkedNames(order) ::
      n in WriteLinks(o1, m, order) && n in WriteLinks(o2, m, order) && WriteLinks(o1, m, order)[n] == WriteLinks(o2, m, order)[n]
  {
    if order != [] {
      var init := order[..|order| - 1];
      var key := order[|order| - 1];
      assert forall k | k in init :: k in order;
      WriteLinksAgree(o1, o2, m, init);
      WriteLinksFrame(o1, m, init);
      WriteLinksFrame(o2, m, init);
      LinkPiecesIsUpdate(WriteLinks(o1, m, init), Split(key, ','), m[key]);
      LinkPiecesIsUpdate(WriteLinks(o2, m, init), Split(key, ','), m[key]);
    }
  }

  /** Writing the same map twice leaves the same links as writing it once. */
  lemma WriteLinksIdempotent(originals: map<string, Option<string>>, m: map<string, string>, order: seq<string>)
    requires forall k | k in order :: k in m
    ensures WriteLinks(WriteLinks(originals, m, order), m, order) == WriteLinks(originals, m, order)
  {
    var once := WriteLinks(originals, m, order);
    var twice := WriteLinks(once, m, order);
    WriteLinksFrame(originals, m, order);
    WriteLinksFrame(once, m, order);
    WriteLinksAgree(originals, once, m, order);
    assert twice.Keys == once.Keys;
    assert forall n | n in twice :: twice[n] == once[n];
  }

  /** The inner loop of lines 172-176 for one original key. */
  method LinkKey(originals0: map<string, Option<string>>, pieces: seq<string>, umbrella: string)
    returns (originals: map<string, Option<string>>)
    ensures originals == LinkPieces(originals0, pieces, umbrella)
  {
    originals := originals0;
    var j := 0;
    while j < |pieces|
      invariant 0 <= j <= |pieces|
      invariant originals == LinkPieces(originals0, pieces[..j], umbrella)
    {
      var name := Strip(pieces[j]);
      LinkPiecesStep(originals0, pieces, j, umbrella);
      if name != [] {
        originals := originals[name := Some(umbrella)];
      }
      j := j + 1;
    }
    assert pieces[..j] == pieces;
  }

  lemma LinkPiecesStep(originals: map<string, Option<string>>, pieces: seq<string>, j: nat, umbrella: string)
    requires j < |pieces|
    ensures LinkPieces(originals, pieces[..j + 1], umbrella) ==
      var linked := LinkPieces(originals, pieces[..j], umbrella);
      if Strip(pieces[j]) != [] then linked[Strip(pieces[j]) := Some(umbrella)] else linked
  {
    assert pieces[..j + 1] == pieces[..j] + [pieces[j]];
    LinkPiecesSnoc(originals, pieces[..j], pieces[j], umbrella);
  }

  lemma LinkPiecesSnoc(originals: map<string, Option<string>>, init: seq<string>, last: string, umbrella: string)
    ensures LinkPieces(originals, init + [last], umbrella) ==
      var linked := LinkPieces(originals, init, umbrella);
      if Strip(last) != [] then linked[Strip(last) := Some(umbrella)] else linked
  {
    assert (init + [last])[..|init|] == init;
  }

  /** The umbrellas of the entries listed in `order`. */
  function Umbrellas(m: map<string, string>, order: seq<string>): set<string>
    requires forall k | k in order :: k in m
  {
    set k | k in order :: m[k]
  }

  lemma UmbrellasSnoc(m: map<string, string>, init: seq<string>, key: string)
    requires forall k | k in init + [key] :: k in m
    ensures Umbrellas(m, init + [key]) == Umbrellas(m, init) + {m[key]}
  {
    assert forall k :: k in init + [key] <==> k in init || k == key;
  }

  lemma UmbrellasAll(m: map<string, string>, order: seq<string>)
    requires forall k | k in order :: k in m
    requires forall k | k in m :: k in order
    ensures Umbrellas(m, order) == m.Values
  {
    forall u | u in m.Values ensures u in Umbrellas(m, order) {
      var k :| k in m && m[k] == u;
      assert k in order;
    }
  }

  /** One more entry of `order`: one more umbrella, and its key's pieces linked to it. */
  lemma WriteMapStep(originals: map<string, Option<string>>, m: map<string, string>, order: seq<string>, i: nat)
    requires i < |order|
    requires forall k | k in order :: k in m
    ensures forall k | k in order[..i] :: k in m
    ensures forall k | k in order[..i + 1] :: k in m
    ensures Umbrellas(m, order[..i + 1]) == Umbrellas(m, order[..i]) + {m[order[i]]}
    ensures WriteLinks(originals, m, order[..i + 1]) ==
      LinkPieces(WriteLinks(originals, m, order[..i]), Split(order[i], ','), m[order[i]])
  {
    assert order[..i + 1] == order[..i] + [order[i]];
    UmbrellasSnoc(m, order[..i], order[i]);
    assert order[..i + 1][..i] == order[..i];
  }

  /** The writes of lines 163-177: every umbrella becomes a topic and every original key's names are linked. */
  method WriteMap(topics0: set<string>, originals0: map<string, Option<string>>, m: map<string, string>, order: seq<string>)
    returns (topics: set<string>, originals: map<string, Option<string>>)
    requires forall k | k in order :: k in m
    requires forall k | k in m :: k in order
    ensures topics == topics0 + m.Values
    ensures originals == WriteLinks(originals0, m, order)
  {
    topics, originals := topics0, originals0;
    var i := 0;
    while i < |order|
      invariant 0 <= i <= |order|
      invariant topics == topics0 + Umbrellas(m, order[..i])
      invariant originals == WriteLinks(originals0, m, order[..i])
    {
      var key := order[i];
      var umbrella := m[key];
      WriteMapStep(originals0, m, order, i);
      topics := topics + {umbrella};
      originals := LinkKey(originals, Split(key, ','), umbrella);
      i := i + 1;
    }
    assert order[..i] == order;
    UmbrellasAll(m, order);
  }

  // ---------------------------------------------------------------------------
  // Re-linking supervisors (lines 179-189)

  /** The topics linked from an expertise text's quoted terms, looked up as found (not stripped). */
  function RelinkedTopics(originals: map<string, Option<string>>, expertise: string): set<string>
  {
    set n | n in FindQuoted(expertise) && n in originals && originals[n].Some? :: originals[n].value
  }

  /** A supervisor with expertise text gets its standardised set replaced; one without keeps it. */
  function RelinkProfile(p: SupervisorProfile, originals: map<string, Option<string>>): SupervisorProfile
  {
    if p.expertise.None? || p.expertise.value == [] then p
    else p.(standardised := RelinkedTopics(originals, p.expertise.value))
  }

  function Relink(sups: map<string, SupervisorProfile>, originals: map<string, Option<string>>): map<string, SupervisorProfile>
  {
    map v | v in sups :: RelinkProfile(sups[v], originals)
  }

  /**
   * Re-linking changes only the standardised expertise, and only of supervisors with
   * expertise text, whose new set is exactly the topics linked from their quoted terms.
   */
  lemma RelinkSpec(sups: map<string, SupervisorProfile>, originals: map<string, Option<string>>)
    ensures Relink(sups, originals).Keys == sups.Keys
    ensures forall v | v in sups :: Relink(sups, originals)[v] == sups[v].(standardised := Relink(sups, originals)[v].standardised)
    ensures forall v | v in sups && (sups[v].expertise.None? || sups[v].expertise.value == []) :: Relink(sups, originals)[v] == sups[v]
    ensures forall v, t | v in sups && sups[v].expertise.Some? && sups[v].expertise.value != [] ::
      t in Relink(sups, originals)[v].standardised <==>
        exists n :: n in FindQuoted(sups[v].expertise.value) && n in originals && originals[n] == Some(t)
  {
  }

  /** Re-linked expertise names only topics that the links point at. */
  lemma RelinkClosed(sups: map<string, SupervisorProfile>, originals: map<string, Option<string>>, topics: set<string>)
    requires forall n | n in originals && originals[n].Some? :: originals[n].value in topics
    requires forall v | v in sups :: sups[v].standardised <= topics
    ensures forall v | v in Relink(sups, originals) :: Relink(sups, originals)[v].standardised <= topics
  {
  }

  /** The supervisor loop: every supervisor is re-linked against the current links. */
  method RelinkSupervisors(sups: map<string, SupervisorProfile>, originals: map<string, Option<string>>)
    returns (result: map<string, SupervisorProfile>)
    ensures result == Relink(sups, originals)
  {
    result := sups;
    var remaining := sups.Keys;
    while remaining != {}
      invariant remaining <= sups.Keys
      invariant result.Keys == sups.Keys
      invariant forall v | v in sups :: result[v] == if v in remaining then sups[v] else RelinkProfile(sups[v], originals)
      decreases remaining
    {
      var v :| v in remaining;
      var p := result[v];
      if p.expertise.Some? && p.expertise.value != [] {
        var found := FindQuoted(p.expertise.value);
        var linked := set n | n in found && n in originals && originals[n].Some? :: originals[n].value;
        result := result[v := p.(standardised := linked)];
      }
      remaining := remaining - {v};
    }
  }

  // ---------------------------------------------------------------------------
  // The task

  datatype StandardiseError = NoStandardisationMap

  /** The writes keep every topic reference pointing at an existing topic. */
  lemma StandardiseKeepsClosed(
    topics: set<string>, originals: map<string, Option<string>>,
    students: map<string, StudentProfile>, sups: map<string, SupervisorProfile>,
    m: map<string, string>, order: seq<string>)
    requires TopicsClosed(topics, originals, students, sups)
    requires forall k | k in order :: k in m
    ensures var links := WriteLinks(originals, m, order);
      TopicsClosed(topics + m.Values, links, students, Relink(sups, links))
  {
    var links := WriteLinks(originals, m, order);
    WriteLinksTargets(originals, m, order, topics + m.Values);
    RelinkClosed(sups, links, topics + m.Values);
    forall e | e in students ensures StudentTopicsIn(students[e], topics + m.Values) {
      assert StudentTopicsIn(students[e], topics);
    }
  }

  /** Re-linking keeps every supervisor profile, so every profile reference stays valid. */
  lemma RelinkKeepsLinked(
    users: map<string, User>, students: map<string, StudentProfile>,
    sups: map<string, SupervisorProfile>, links: map<string, Option<string>>)
    requires ProfilesLinked(users, students, sups)
    ensures ProfilesLinked(users, students, Relink(sups, links))
  {
  }

  /** The part of the database a standardisation run writes. */
  datatype Vocabulary = Vocabulary(
    topics: set<string>,
    originals: map<string, Option<string>>,
    supervisors: map<string, SupervisorProfile>)

  /** The state one run with the usable map `m`, visited in `order`, leaves. */
  function Applied(v: Vocabulary, m: map<string, string>, order: seq<string>): Vocabulary
    requires forall k | k in order :: k in m
  {
    var links := WriteLinks(v.originals, m, order);
    Vocabulary(v.topics + m.Values, links, Relink(v.supervisors, links))
  }

  /** Re-linking against the same links a second time changes nothing. */
  lemma RelinkIdempotent(sups: map<string, SupervisorProfile>, links: map<string, Option<string>>)
    ensures Relink(Relink(sups, links), links) == Relink(sups, links)
  {
    var once := Relink(sups, links);
    assert forall v | v in once :: RelinkProfile(once[v], links) == once[v];
  }

  /**
   * A second run with the same map adds no topic, changes no link and re-links
   * no supervisor differently: `get_or_create` finds what the first run created.
   */
  lemma RerunAddsNothing(v: Vocabulary, m: map<string, string>, order: seq<string>)
    requires forall k | k in order :: k in m
    ensures Applied(Applied(v, m, order), m, order) == Applied(v, m, order)
  {
    var once := Applied(v, m, order);
    WriteLinksIdempotent(v.originals, m, order);
    RelinkIdempotent(v.supervisors, once.originals);
  }

  /** The writes of one run with a usable map `m`, visited in `order`. */
  method ApplyMap(db: Database, m: map<string, string>, order: seq<string>)
    requires db.Valid()
    requires forall k | k in order :: k in m
    requires forall k | k in m :: k in order
    modifies db
    ensures db.Valid()
    ensures db.users == old(db.users) && db.students == old(db.students) && db.semesters == old(db.semesters)
    ensures db.topics == old(db.topics) + m.Values
    ensures db.originals == WriteLinks(old(db.originals), m, order)
    ensures db.supervisors == Relink(old(db.supervisors), db.originals)
    ensures Vocabulary(db.topics, db.originals, db.supervisors) ==
      Applied(Vocabulary(old(db.topics), old(db.originals), old(db.supervisors)), m, order)
  {
    var topics, originals := WriteMap(db.topics, db.originals, m, order);
    var sups := RelinkSupervisors(db.supervisors, originals);
    StandardiseKeepsClosed(db.topics, db.originals, db.students, db.supervisors, m, order);
    RelinkKeepsLinked(db.users, db.students, db.supervisors, originals);
    db.topics, db.originals, db.supervisors := topics, originals, sups;
  }

  /**
   * `standardize_all_topics`. `reply` is the service's decoded answer and `order`
   * the completed map's keys in iteration order. Without a usable map nothing is written.
   */
  method StandardizeAllTopics(db: Database, reply: MapReply, order: seq<string>) returns (r: Result<nat, StandardiseError>)
    requires db.Valid()
    requires var m := CompleteMap(AllTerms(db.supervisors), reply);
      m.Some? ==> (forall k | k in order :: k in m.value) && (forall k | k in m.value :: k in order)
    modifies db
    ensures db.Valid()
    ensures db.users == old(db.users) && db.students == old(db.students) && db.semesters == old(db.semesters)
    ensures var m := CompleteMap(AllTerms(old(db.supervisors)), reply);
      r.Err? <==> m.None? || m.value == map[]
    ensures r.Err? ==> unchanged(db)
    ensures r.Ok? ==> CompleteMap(AllTerms(old(db.supervisors)), reply).Some?
    ensures r.Ok? ==> var m := CompleteMap(AllTerms(old(db.supervisors)), reply).value;
      r.value == |m| && db.topics == old(db.topics) + m.Values
    ensures r.Ok? ==> var m := CompleteMap(AllTerms(old(db.supervisors)), reply).value;
      db.originals == WriteLinks(old(db.originals), m, order)
    ensures r.Ok? ==> db.supervisors == Relink(old(db.supervisors), db.originals)
  {
    var terms := CollectTerms(db.supervisors);
    var completed := CompleteMap(terms, reply);
    if completed.None? || completed.value == map[] {
      return Err(NoStandardisationMap);
    }
    ApplyMap(db, completed.value, order);
    r := Ok(|completed.value|);
  }
}

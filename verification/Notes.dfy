/** Notes, their reinforcement, promotion and merging (src/ai.c), as values.  Tables are maps. */
module Notes {
  import opened Basics

  datatype Atomicity = Fine | Thin | NeedsSplit   // "ok", "thin", "needs-split"

  /** What the code makes of a note's trimmed body, which never changes. */
  datatype Body = Body(sha1: string, atomicity: Atomicity, guess: string)   // `guess`: the title guessed from it

  datatype Note = Note(
    tier: int,
    title: string,
    body: Body,
    process: string,
    metadata: string,
    artifact: bool,              // an artifact kind, reference, id or path is given
    artifactStatus: string,
    artifactWeight: real,
    hash: string,
    retrievals: nat,
    heat: real,
    mergedInto: Option<nat>)     // duplicate_of and merged_into are always set together

  /** What ai_note_create is given. */
  datatype Draft = Draft(
    tier: int,
    title: string,
    body: Body,
    sourceType: string,
    process: string,
    metadata: string,
    artifact: bool,
    artifactStatus: string)

  /** A row of ai_review. */
  datatype Verdict = Verdict(
    qid: int,
    nid: nat,
    atomicity: Atomicity,
    peers: nat,                      // "linked-%d"
    duplicateOf: Option<nat>,        // "duplicate-of-%d" or "unique"
    retitled: bool,
    relabelled: bool,
    promotion: Option<(int, int)>)   // "promoted-%d-to-%d" or "unchanged"

  datatype Link = Link(from: nat, to: nat, kind: string)

  const CO_RETRIEVED: string := "co_retrieved"
  const DUPLICATE: string := "duplicate"

  /** A row of ai_retrieval_note is identified by its query and note. */
  datatype Hit = Hit(qid: int, nid: nat)

  datatype Store = Store(
    notes: map<nat, Note>,
    next: nat,                   // the next note id
    hits: set<Hit>,
    links: map<Link, real>,
    verdicts: multiset<Verdict>) // ai_review

  const EMPTY: Store := Store(map[], 1, {}, map[], multiset{})

  // ------------------------------------------------------- pure helpers of the C file

  function ProcessLevel(tier: int): string {
    if tier == 3 then "atomic" else if tier == 2 then "curated" else if tier == 1 then "grouped" else "raw"
  }

  function TierWeight(tier: int): real {
    if tier == 3 then 0.35 else if tier == 2 then 0.20 else if tier == 1 then 0.10 else 0.0
  }

  /** ai_promotion_target_tier */
  function TargetTier(tier: int, retrievals: int, heat: real, isDuplicate: bool, atomicity: Atomicity): int {
    if isDuplicate then tier
    else
      var t1 := if tier < 1 && retrievals >= 2 then 1 else tier;
      var t2 := if t1 < 2 && retrievals >= 4 && heat >= 1.60 && atomicity != NeedsSplit then 2 else t1;
      if t2 < 3 && retrievals >= 7 && heat >= 2.60 && atomicity == Fine then 3 else t2
  }

  function SkipSpace(s: string): string {
    if s != "" && (s[0] == ' ' || '\t' <= s[0] <= '\r') then SkipSpace(s[1..]) else s
  }

  function Lower(s: string): string {
    if s == "" then "" else [if 'A' <= s[0] <= 'Z' then s[0] + ' ' else s[0]] + Lower(s[1..])
  }

  /** ai_title_is_generic */
  predicate IsGeneric(title: string) {
    SkipSpace(title) == "" || Lower(SkipSpace(title)) in ["note", "untitled note", "manual note"]
  }

  /** ai_promoted_artifact_status */
  function PromotedStatus(tier: int, artifact: bool, status: string): string {
    if status != "" then status else if artifact then "materialized" else if tier >= 2 then "draft" else ""
  }

  /** ai_artifact_weight_for_source_type */
  function ArtifactWeight(sourceType: string): real {
    match sourceType
    case "wiki" => 0.30
    case "doc" => 0.28
    case "summary" => 0.24
    case "ticket" => 0.20
    case "commit" => 0.18
    case "checkin" => 0.18
    case "diff" => 0.12
    case "reasoning" => 0.08
    case "manual" => 0.08
    case "th1-pool" => 0.08
    case "prompt" => 0.02
    case "chat" => 0.02
    case _ => 0.05
  }

  // ------------------------------------------------------------------------ links

  function Weight(links: map<Link, real>, k: Link): real {
    if k in links then links[k] else 0.0
  }

  /** Adds 1.0 to every link of the set, creating those that are missing. */
  function BumpAll(links: map<Link, real>, keys: set<Link>): map<Link, real> {
    map k | k in links.Keys + keys :: Weight(links, k) + if k in keys then 1.0 else 0.0
  }

  /** ai_note_link_upsert */
  function Upsert(links: map<Link, real>, from: int, to: int, kind: string, w: real): map<Link, real> {
    if from <= 0 || to <= 0 || from == to then links
    else links[Link(from, to, kind) := Weight(links, Link(from, to, kind)) + w]
  }

  function PairLinks(s: set<nat>): set<Link> {
    set a, b | a in s && b in s && a < b :: Link(a, b, CO_RETRIEVED)
  }

  // ------------------------------------------------------------------- duplicates

  /** c is the smallest note id with the hash h. */
  predicate IsCanonical(notes: map<nat, Note>, h: string, c: nat) {
    c in notes && notes[c].hash == h && forall d | d in notes && notes[d].hash == h :: c <= d
  }

  /** The note has a smaller twin. */
  predicate IsDuplicate(notes: map<nat, Note>, n: nat)
    requires n in notes
  {
    notes[n].hash != "" && exists c | c in notes :: c < n && notes[c].hash == notes[n].hash
  }

  ghost function Canonical(notes: map<nat, Note>, n: nat): (c: nat)
    requires n in notes
    ensures IsCanonical(notes, notes[n].hash, c)
  {
    CanonicalExists(notes, n);
    var c: nat :| IsCanonical(notes, notes[n].hash, c);
    c
  }

  lemma {:induction false} CanonicalExists(notes: map<nat, Note>, n: nat)
    requires n in notes
    ensures exists c: nat :: IsCanonical(notes, notes[n].hash, c)
    decreases |notes|
  {
    if !IsCanonical(notes, notes[n].hash, n) {
      var d :| d in notes && notes[d].hash == notes[n].hash && d < n;
      var rest := notes - {n};
      assert |rest| < |notes| by { assert rest.Keys == notes.Keys - {n}; }
      CanonicalExists(rest, d);
      var c: nat :| IsCanonical(rest, rest[d].hash, c);
      forall e | e in notes && notes[e].hash == notes[n].hash ensures c <= e {
        assert e != n ==> e in rest && rest[e] == notes[e];
        assert c <= d < n;
      }
      assert IsCanonical(notes, notes[n].hash, c);
    }
  }

  lemma CanonicalIs(notes: map<nat, Note>, n: nat, c: nat)
    requires n in notes && IsCanonical(notes, notes[n].hash, c)
    ensures Canonical(notes, n) == c && c <= n
    ensures notes[n].hash != "" ==> (IsDuplicate(notes, n) <==> c != n)
  {
  }

  // ------------------------------------------------------------------- operations

  function Clamp(tier: int): int {
    if tier < 0 then 0 else if tier > 3 then 3 else tier
  }

  function SourceType(given: string): string {
    if given == "" then "manual" else given
  }

  /** The metadata given to a note that is created without any. */
  function DefaultMetadata(process: string, sourceType: string): string {
    "{\"process_level\":\"" + process + "\",\"source_type\":\"" + sourceType + "\"}"
  }

  /** The row ai_note_create inserts. */
  function Created(d: Draft): Note {
    var tier, sourceType := Clamp(d.tier), SourceType(d.sourceType);
    var process := if d.process == "" then ProcessLevel(tier) else d.process;
    Note(tier, if IsGeneric(d.title) then d.body.guess else d.title, d.body, process,
         if d.metadata == "" then DefaultMetadata(process, sourceType) else d.metadata,
         d.artifact, d.artifactStatus, ArtifactWeight(sourceType), d.body.sha1, 0, 1.0, None)
  }

  /** ai_note_create */
  function Create(s: Store, d: Draft): Store {
    s.(notes := s.notes[s.next := Created(d)], next := s.next + 1)
  }

  /** ai_note_record_retrieval */
  function Record(s: Store, qid: int, nid: int, tierWeight: real): Store {
    if qid <= 0 || nid <= 0 then s
    else
      var delta := 0.15 + tierWeight;
      s.(notes :=
           if nid !in s.notes then s.notes
           else
             var n := s.notes[nid];
             s.notes[nid := n.(retrievals := n.retrievals + 1, heat := n.heat + delta)],
         hits := s.hits + {Hit(qid, nid)})
  }

  ghost function Target(notes: map<nat, Note>, nid: nat): int
    requires nid in notes
  {
    var n := notes[nid];
    TargetTier(n.tier, n.retrievals, n.heat, IsDuplicate(notes, nid), n.body.atomicity)
  }

  predicate Retitles(n: Note) {
    IsGeneric(n.title) && n.body.guess != n.title
  }

  predicate Relabels(n: Note) {
    n.process != ProcessLevel(n.tier) || n.metadata == ""
  }

  function ReviewedMetadata(n: Note): string {
    if n.metadata == "" then "{\"process_level\":\"" + ProcessLevel(n.tier) + "\"}" else n.metadata
  }

  function ReviewedStatus(n: Note, target: int): string {
    if target > n.tier then PromotedStatus(target, n.artifact, n.artifactStatus) else n.artifactStatus
  }

  /** What the review makes of one note. */
  ghost function ReviewedNote(notes: map<nat, Note>, nid: nat): Note
    requires nid in notes
  {
    var n, target := notes[nid], Target(notes, nid);
    n.(mergedInto := if IsDuplicate(notes, nid) then Some(Canonical(notes, nid)) else n.mergedInto,
       title := if Retitles(n) then n.body.guess else n.title,
       metadata := ReviewedMetadata(n),
       tier := target,
       process := ProcessLevel(target),
       artifactStatus := ReviewedStatus(n, target))
  }

  /** The row of ai_review the review writes about one note. */
  ghost function VerdictOn(notes: map<nat, Note>, qid: int, nid: nat, peers: nat): Verdict
    requires nid in notes
  {
    var n, target := notes[nid], Target(notes, nid);
    Verdict(qid, nid, n.body.atomicity, peers,
            if IsDuplicate(notes, nid) then Some(Canonical(notes, nid)) else None,
            Retitles(n), Relabels(n),
            if target > n.tier then Some((n.tier, target)) else None)
  }

  ghost function Verdicts(notes: map<nat, Note>, qid: int, which: set<nat>, peers: nat): set<Verdict> {
    set m | m in which && m in notes :: VerdictOn(notes, qid, m, peers)
  }

  /** The number of other notes of a retrieval. */
  function Peers(which: set<nat>): nat {
    if which == {} then 0 else |which| - 1
  }

  function HitNotes(s: Store, qid: int): set<nat> {
    set h | h in s.hits && h.qid == qid :: h.nid
  }

  ghost function ReviewedNotes(notes: map<nat, Note>, which: set<nat>): map<nat, Note> {
    map m | m in notes :: if m in which then ReviewedNote(notes, m) else notes[m]
  }

  ghost function DuplicateLinks(notes: map<nat, Note>, which: set<nat>): set<Link> {
    set m | m in which && m in notes && IsDuplicate(notes, m) :: Link(m, Canonical(notes, m), DUPLICATE)
  }

  /** ai_retrieval_review */
  ghost function Review(s: Store, qid: int): Store {
    if qid <= 0 then s
    else
      var which := HitNotes(s, qid);
      s.(notes := ReviewedNotes(s.notes, which),
         links := BumpAll(BumpAll(s.links, PairLinks(which)), DuplicateLinks(s.notes, which)),
         verdicts := s.verdicts + multiset(Verdicts(s.notes, qid, which, Peers(which))))
  }

  // ------------------------------------------------------------------------- runs

  datatype Op =
    | DoCreate(draft: Draft)
    | DoRecord(qid: int, nid: int, weight: real)
    | DoReview(qid: int)
    | DoLink(from: int, to: int, kind: string, w: real)   // by other code, as pool_link

  ghost function Apply(s: Store, op: Op): Store {
    match op
    case DoCreate(draft) => Create(s, draft)
    case DoRecord(qid, nid, weight) => Record(s, qid, nid, weight)
    case DoReview(qid) => Review(s, qid)
    case DoLink(from, to, kind, w) => s.(links := Upsert(s.links, from, to, kind, w))
  }

  ghost function Run(ops: seq<Op>): Store {
    if ops == [] then EMPTY else Apply(Run(ops[..|ops| - 1]), ops[|ops| - 1])
  }

  // ------------------------------------------------------- which notes a review covers

  /** Some operation recorded a retrieval of note n for query qid. */
  ghost predicate RecordedFor(ops: seq<Op>, qid: int, n: int) {
    qid > 0 && n > 0 && exists i | 0 <= i < |ops| :: ops[i].DoRecord? && ops[i].qid == qid && ops[i].nid == n
  }

  lemma RecordedForSnoc(ops: seq<Op>, qid: int, n: int)
    requires ops != []
    ensures var op := ops[|ops| - 1];
      RecordedFor(ops, qid, n) <==>
        RecordedFor(ops[..|ops| - 1], qid, n) || (qid > 0 && n > 0 && op.DoRecord? && op.qid == qid && op.nid == n)
  {
    assert forall i | 0 <= i < |ops| - 1 :: ops[..|ops| - 1][i] == ops[i];
  }

  lemma HitsStep(s: Store, op: Op, qid: int, n: nat)
    ensures n in HitNotes(Apply(s, op), qid) <==>
      n in HitNotes(s, qid) || (qid > 0 && n > 0 && op.DoRecord? && op.qid == qid && op.nid == n)
  {
    hide Review, ReviewedNotes, Create;
    assert op.DoReview? ==> Apply(s, op).hits == s.hits by { ReviewKeepsHits(s, if op.DoReview? then op.qid else 0); }
    assert op.DoCreate? ==> Apply(s, op).hits == s.hits by { if op.DoCreate? { CreateKeepsHits(s, op.draft); } }
    assert forall h | h in Apply(s, op).hits :: h in s.hits || (op.DoRecord? && h == Hit(op.qid, op.nid));
    assert op.DoRecord? && op.qid > 0 && op.nid > 0 ==> Hit(op.qid, op.nid) in Apply(s, op).hits;
    assert n in HitNotes(s, qid) <==> Hit(qid, n) in s.hits;
    assert n in HitNotes(Apply(s, op), qid) <==> Hit(qid, n) in Apply(s, op).hits;
  }

  lemma ReviewKeepsHits(s: Store, qid: int)
    ensures Review(s, qid).hits == s.hits
  {
  }

  lemma CreateKeepsHits(s: Store, d: Draft)
    ensures Create(s, d).hits == s.hits
  {
  }

  /** In every run a review of a query covers exactly the notes whose retrieval was recorded for that query. */
  lemma {:induction false} CoveredExactly(ops: seq<Op>, qid: int, n: nat)
    ensures n in HitNotes(Run(ops), qid) <==> RecordedFor(ops, qid, n)
  {
    hide Apply;
    if ops != [] {
      CoveredExactly(ops[..|ops| - 1], qid, n);
      RecordedForSnoc(ops, qid, n);
      HitsStep(Run(ops[..|ops| - 1]), ops[|ops| - 1], qid, n);
    }
  }

  // ------------------------------------------------------------ the duplicate forest

  ghost predicate Forest(s: Store) {
    && s.next > 0
    && (forall n | n in s.notes :: 0 < n < s.next)
    && (forall n | n in s.notes && s.notes[n].mergedInto.Some? :: MergedRight(s.notes, n))
  }

  ghost predicate MergedRight(notes: map<nat, Note>, n: nat)
    requires n in notes && notes[n].mergedInto.Some?
  {
    var c := notes[n].mergedInto.value;
    c < n && IsCanonical(notes, notes[n].hash, c) && notes[c].mergedInto == None && notes[n].hash != ""
  }

  lemma CreateKeepsForest(s: Store, op: Op)
    requires Forest(s) && op.DoCreate?
    ensures Forest(Apply(s, op))
  {
    var s' := Apply(s, op);
    forall n | n in s'.notes && s'.notes[n].mergedInto.Some? ensures MergedRight(s'.notes, n) {
      assert n in s.notes && MergedRight(s.notes, n);
    }
  }

  lemma RecordKeepsForest(s: Store, op: Op)
    requires Forest(s) && op.DoRecord?
    ensures Forest(Apply(s, op))
  {
    var s' := Apply(s, op);
    forall n | n in s'.notes && s'.notes[n].mergedInto.Some? ensures MergedRight(s'.notes, n) {
      assert n in s.notes && MergedRight(s.notes, n);
    }
  }

  lemma ReviewKeepsForest(s: Store, qid: int)
    requires Forest(s)
    ensures Forest(Review(s, qid))
  {
    hide ProcessLevel, TargetTier;
    if qid > 0 {
      var s' := Review(s, qid);
      forall n | n in s'.notes ensures s'.notes[n].hash == s.notes[n].hash {}
      forall n | n in s'.notes && s'.notes[n].mergedInto.Some? ensures MergedRight(s'.notes, n) {
        var c := Canonical(s.notes, n);
        CanonicalIs(s.notes, n, c);
        CanonicalIs(s.notes, c, c);
        if s.notes[n].mergedInto.Some? {
          assert MergedRight(s.notes, n);
          CanonicalIs(s.notes, n, s.notes[n].mergedInto.value);
        }
        assert s.notes[c].mergedInto.Some? ==> MergedRight(s.notes, c);
        assert s'.notes[c].mergedInto == None;
        assert IsCanonical(s'.notes, s'.notes[n].hash, c);
      }
    }
  }

  lemma {:induction false} ForestHolds(ops: seq<Op>)
    ensures Forest(Run(ops))
  {
    hide Forest, Apply;
    if ops == [] {
      EmptyForest();
    } else {
      var s, op := Run(ops[..|ops| - 1]), ops[|ops| - 1];
      ForestHolds(ops[..|ops| - 1]);
      ForestStep(s, op);
    }
  }

  lemma EmptyForest()
    ensures Forest(EMPTY)
  {
  }

  lemma ForestStep(s: Store, op: Op)
    requires Forest(s)
    ensures Forest(Apply(s, op))
  {
    hide Create, Record, Review, ReviewedNotes;
    match op
    case DoCreate(_) => CreateKeepsForest(s, op);
    case DoRecord(_, _, _) => RecordKeepsForest(s, op);
    case DoReview(qid) => ReviewKeepsForest(s, qid);
    case DoLink(_, _, _, _) =>
  }

  /** In every run a merged note points to the smallest id with its hash, and that one is not merged: the
      forest has depth one and no cycle. */
  lemma MergeTargetIsRoot(ops: seq<Op>, n: nat)
    requires n in Run(ops).notes && Run(ops).notes[n].mergedInto.Some?
    ensures
      var notes := Run(ops).notes;
      var c := notes[n].mergedInto.value;
      c < n && IsCanonical(notes, notes[n].hash, c) && notes[c].mergedInto == None
  {
    hide Run;
    ForestHolds(ops);
    assert MergedRight(Run(ops).notes, n);
  }

  /** A review marks a note as merged exactly if it has a smaller twin. */
  lemma ReviewMergesDuplicates(ops: seq<Op>, qid: int, n: nat)
    requires qid > 0 && n in HitNotes(Run(ops), qid) && n in Run(ops).notes
    ensures Review(Run(ops), qid).notes[n].mergedInto.Some? <==> IsDuplicate(Run(ops).notes, n)
  {
    hide Run, ProcessLevel, TargetTier;
    ForestHolds(ops);
    assert Run(ops).notes[n].mergedInto.Some? ==> MergedRight(Run(ops).notes, n);
  }
}

/**
  Sending pending alerts (src/alerts.c) from leased backoffice processes (src/backoffice.c).
  Each SQL statement on a shared table is one step; web requests, other processes and crashes may
  come between any two of them.
  */
module Alerts {
  import opened Leases
  import L = LeaseProtocol

  /** An artifact id.  SQLite gives the id of a deleted artifact out again. */
  type Rid = nat
  type Subscriber = nat

  /** The key of pending_alert: a type character and an artifact id, as in "f4413". */
  datatype EventId = EventId(kind: char, rid: Rid)

  /** A row of pending_alert.  `gen` tells a row from a later one for the same event. */
  datatype Row = Row(gen: nat, sentSep: bool, sentDigest: bool, sentMod: bool)

  datatype Kind = Individual | Moderator | Digest

  predicate Sent(r: Row, k: Kind) {
    match k
    case Individual => r.sentSep
    case Moderator => r.sentMod
    case Digest => r.sentDigest
  }

  /** A row of the temporary table wantalert. */
  datatype Want = Want(gen: nat, needMod: bool)

  /** An EmailEvent: whether the event described awaited moderation when it was read, and at which step that was. */
  datatype Text = Text(held: bool, at: nat)

  /** The work of one call of alert_send_alerts: what the snapshot of step `at` wants, and the texts found for it. */
  datatype Round = Round(digest: bool, want: map<EventId, Want>, at: nat, text: map<EventId, Text>) {
    function KindOf(e: EventId): Kind
      requires e in want
    {
      if digest then Digest else if want[e].needMod then Moderator else Individual
    }
  }

  /** One event put into an email for one subscriber. */
  datatype Delivery = Delivery(
    kind: Kind,
    gen: nat,
    event: EventId,
    sub: Subscriber,
    held: bool,        // the event described awaited moderation
    snapshot: nat,     // the step of the snapshot behind it ...
    described: nat     // ... and the step that read the event
  )

  /** How far a process has got in alert_backoffice. */
  datatype Job =
    | Ready(digest: bool)
    | Gathering(r: Round)
    | HalfMarked(r: Round)
    | Sending(r: Round, done: set<(EventId, Subscriber)>)
    | Cleaning(digest: bool)
    | DigestCheck
    | DayRead(day: nat, readAt: nat)     // the clock it was read at
    | DigestDue(day: nat, readAt: nat)
    | Over
  {
    predicate InRound() { Gathering? || HalfMarked? || Sending? }
  }

  /** The start of a digest round: the day recorded for it, and the clock that day was read at. */
  datatype DigestRound = DigestRound(day: nat, readAt: nat)

  datatype Db = Db(
    rows: map<EventId, Row>,
    events: set<Rid>,        // the event table
    held: set<Rid>,          // the private table
    nextGen: nat,
    lastDigest: nat,         // email-last-digest
    log: seq<Delivery>,
    digests: seq<DigestRound>
  )

  datatype State = State(lease: L.State, jobs: map<nat, Job>, db: Db, steps: nat)

  datatype Step =
    | Lease(step: L.Step)
    // web requests
    | Post(e: EventId, hold: bool)   // the trigger on the event table
    | MakePrivate(rid: Rid)          // the private tag, or private content arriving
    | Approve(rid: Rid)
    | Remove(rid: Rid)               // a moderator rejects it, or it is purged; its id is free again
    | Withdraw(e: EventId)           // a forum request deletes the pending row
    // alert_send_alerts by process p
    | Snapshot(p: nat)
    | Skip(p: nat)                   // alerts not configured, or no event to describe
    | Describe(p: nat, found: set<EventId>)   // a query of alert_compute_event_text
    | Mark(p: nat)
    | MarkModerator(p: nat)
    | Send(p: nat, e: EventId, sub: Subscriber)
    | DoneSending(p: nat)
    | Clean(p: nat)
    // alert_backoffice by process p
    | ReadDay(p: nat)
    | CompareDay(p: nat)
    | RecordDay(p: nat)
  {
    predicate Web() { Post? || MakePrivate? || Approve? || Remove? || Withdraw? }
    predicate Work() { !Lease? && !Web() }
  }

  function JulianDay(clock: nat): nat {
    (clock + 43200) / 86400 + 2440587
  }

  // ------------------------------------------------------------------- steps

  function SnapshotRows(db: Db, digest: bool): map<EventId, Want> {
    if digest then
      map e | e in db.rows && !db.rows[e].sentDigest && e.rid !in db.held :: Want(db.rows[e].gen, false)
    else
      map e | e in db.rows && !db.rows[e].sentSep && !(e.rid in db.held && db.rows[e].sentMod) ::
        Want(db.rows[e].gen, e.rid in db.held)
  }

  function MarkRows(rows: map<EventId, Row>, r: Round): map<EventId, Row> {
    if r.digest then
      map e | e in rows :: if e in r.want then rows[e].(sentDigest := true) else rows[e]
    else
      map e | e in rows :: if e in r.want && !r.want[e].needMod then rows[e].(sentSep := true) else rows[e]
  }

  function MarkModRows(rows: map<EventId, Row>, r: Round): map<EventId, Row> {
    map e | e in rows :: if e in r.want && r.want[e].needMod then rows[e].(sentMod := true) else rows[e]
  }

  function CleanRows(rows: map<EventId, Row>): map<EventId, Row> {
    map e | e in rows && !(rows[e].sentDigest && rows[e].sentSep) :: rows[e]
  }

  function DescribeEvents(r: Round, found: set<EventId>, held: set<Rid>, now: nat): Round {
    r.(text := map e | e in r.text.Keys + found :: if e in r.text then r.text[e] else Text(e.rid in held, now))
  }

  function AfterSend(db: Db, r: Round, e: EventId, sub: Subscriber): Db
    requires e in r.want && e in r.text
  {
    db.(log := db.log + [Delivery(r.KindOf(e), r.want[e].gen, e, sub, r.text[e].held, r.at, r.text[e].at)])
  }

  /** Where alert_send_alerts returns to. */
  function AfterRound(digest: bool): Job {
    if digest then Over else DigestCheck
  }

  predicate Enabled(s: State, step: Step) {
    if step.Work() then step.p in s.jobs && WorkEnabled(s.db, s.jobs[step.p], step)
    else match step
      case Lease(l) => L.Enabled(s.lease, l) && (l.Finish? ==> l.p in s.jobs && s.jobs[l.p].Over?)
      case Post(e, hold) => hold ==> e.rid !in s.db.events
      case _ => true
  }

  predicate WorkEnabled(db: Db, j: Job, step: Step) {
    match step
    case Snapshot(_) => j.Ready?
    case Skip(_) => j.Ready? || (j.Gathering? && j.r.text == map[])
    case Describe(_, found) => j.Gathering? && forall e | e in found :: e in j.r.want && e.rid in db.events
    case Mark(_) => j.Gathering? && j.r.text != map[]
    case MarkModerator(_) => j.HalfMarked?
    case Send(_, e, sub) => j.Sending? && e in j.r.want && e in j.r.text && (e, sub) !in j.done
    case DoneSending(_) => j.Sending?
    case Clean(_) => j.Cleaning?
    case ReadDay(_) => j.DigestCheck?
    case CompareDay(_) => j.DayRead?
    case RecordDay(_) => j.DigestDue?
    case _ => false
  }

  /** A process has a job exactly while it works; it starts at the beginning. */
  function JobsOf(l: L.State, jobs: map<nat, Job>): map<nat, Job> {
    map p | p in l.procs && l.procs[p].Working? :: if p in jobs then jobs[p] else Ready(false)
  }

  function WebDb(db: Db, step: Step): Db {
    match step
    case Post(e, hold) =>
      db.(rows := if e in db.rows then db.rows else db.rows[e := Row(db.nextGen, false, false, false)],
          nextGen := db.nextGen + 1,
          events := db.events + {e.rid},
          held := if hold then db.held + {e.rid} else db.held)
    case MakePrivate(rid) => db.(held := db.held + {rid})
    case Approve(rid) => db.(held := db.held - {rid})
    case Remove(rid) => db.(events := db.events - {rid}, held := db.held - {rid})
    case Withdraw(e) => db.(rows := db.rows - {e})
    case _ => db
  }

  /** What a step of a worker's job does to the tables. */
  function WorkDb(db: Db, j: Job, step: Step): Db
    requires WorkEnabled(db, j, step)
  {
    match step
    case Mark(_) => db.(rows := MarkRows(db.rows, j.r))
    case MarkModerator(_) => db.(rows := MarkModRows(db.rows, j.r))
    case Send(_, e, sub) => AfterSend(db, j.r, e, sub)
    case Clean(_) => db.(rows := CleanRows(db.rows))
    case RecordDay(_) => db.(lastDigest := j.day, digests := db.digests + [DigestRound(j.day, j.readAt)])
    case _ => db
  }

  function WorkJob(db: Db, j: Job, clock: nat, now: nat, step: Step): Job
    requires WorkEnabled(db, j, step)
  {
    match step
    case Snapshot(_) => Gathering(Round(j.digest, SnapshotRows(db, j.digest), now, map[]))
    case Skip(_) => AfterRound(if j.Ready? then j.digest else j.r.digest)
    case Describe(_, found) => Gathering(DescribeEvents(j.r, found, db.held, now))
    case Mark(_) => if j.r.digest then Sending(j.r, {}) else HalfMarked(j.r)
    case MarkModerator(_) => Sending(j.r, {})
    case Send(_, e, sub) => j.(done := j.done + {(e, sub)})
    case DoneSending(_) => Cleaning(j.r.digest)
    case Clean(_) => AfterRound(j.digest)
    case ReadDay(_) => DayRead(JulianDay(clock), clock)
    case CompareDay(_) => if j.day > db.lastDigest then DigestDue(j.day, j.readAt) else Over
    case RecordDay(_) => Ready(true)
    case _ => j
  }

  function Apply(s: State, step: Step): State
    requires Enabled(s, step)
  {
    if step.Lease? then
      var after := L.Apply(s.lease, step.step);
      s.(lease := after, jobs := JobsOf(after, s.jobs), steps := s.steps + 1)
    else if step.Web() then
      s.(db := WebDb(s.db, step), steps := s.steps + 1)
    else
      var j := s.jobs[step.p];
      s.(db := WorkDb(s.db, j, step),
         jobs := s.jobs[step.p := WorkJob(s.db, j, s.lease.clock, s.steps, step)],
         steps := s.steps + 1)
  }

  ghost predicate Initial(s: State) {
    && L.Initial(s.lease)
    && s.jobs == map[]
    && s.db == Db(map[], s.db.events, s.db.held, 0, s.db.lastDigest, [], [])
    && s.steps == 0
  }

  ghost predicate Next(s: State, s': State) {
    exists step | Enabled(s, step) :: s' == Apply(s, step)
  }

  ghost predicate IsRun(run: seq<State>) {
    && |run| > 0
    && Initial(run[0])
    && forall i | 0 <= i < |run| - 1 :: Next(run[i], run[i + 1])
  }

  lemma StepAt(run: seq<State>, i: nat) returns (step: Step)
    requires IsRun(run) && i + 1 < |run|
    ensures Enabled(run[i], step) && run[i + 1] == Apply(run[i], step)
  {
    assert Next(run[i], run[i + 1]);
    step :| Enabled(run[i], step) && run[i + 1] == Apply(run[i], step);
  }

  /** A run goes on with any enabled step. */
  lemma Then(run: seq<State>, step: Step) returns (longer: seq<State>)
    requires IsRun(run) && Enabled(run[|run| - 1], step)
    ensures IsRun(longer) && longer == run + [Apply(run[|run| - 1], step)]
  {
    longer := run + [Apply(run[|run| - 1], step)];
    forall i | 0 <= i < |longer| - 1 ensures Next(longer[i], longer[i + 1]) {
      if i < |run| - 1 {
        assert Next(run[i], run[i + 1]);
      }
    }
  }

  // --------------------------------------------------------------- invariants

  /** A subscriber has been told about the row `gen` in this way. */
  ghost predicate Logged(log: seq<Delivery>, k: Kind, gen: nat, sub: Subscriber) {
    exists i | 0 <= i < |log| :: log[i].kind == k && log[i].gen == gen && log[i].sub == sub
  }

  /** Nobody is told the same thing twice about one row of pending_alert. */
  ghost predicate NoneTwice(log: seq<Delivery>) {
    forall i, j | 0 <= i < j < |log| ::
      log[i].kind != log[j].kind || log[i].gen != log[j].gen || log[i].sub != log[j].sub
  }

  ghost predicate DbInv(db: Db) {
    && (forall e | e in db.rows :: db.rows[e].gen < db.nextGen)
    && (forall e, f | e in db.rows && f in db.rows && db.rows[e].gen == db.rows[f].gen :: e == f)
    && (forall i | 0 <= i < |db.log| :: db.log[i].gen < db.nextGen)
    && (forall e, i | e in db.rows && 0 <= i < |db.log| && db.log[i].gen == db.rows[e].gen ::
          Sent(db.rows[e], db.log[i].kind))
    && NoneTwice(db.log)
  }

  ghost predicate RoundInv(db: Db, r: Round) {
    && (forall e | e in r.want :: r.want[e].gen < db.nextGen)
    && (forall e, f | e in r.want && f in r.want && r.want[e].gen == r.want[f].gen :: e == f)
    && (forall e, f | e in r.want && f in db.rows && r.want[e].gen == db.rows[f].gen :: e == f)
  }

  /** Of what the round is to send, only `done` has been sent so far, and all of that has. */
  ghost predicate DoneSoFar(db: Db, r: Round, done: set<(EventId, Subscriber)>) {
    && (forall e, i |
          e in r.want && 0 <= i < |db.log| && db.log[i].gen == r.want[e].gen && db.log[i].kind == r.KindOf(e) ::
          (e, db.log[i].sub) in done)
    && (forall x | x in done :: x.0 in r.want && Logged(db.log, r.KindOf(x.0), r.want[x.0].gen, x.1))
  }

  /** Which of the rows the snapshot came from carry their mark, among those still there. */
  ghost predicate Marks(db: Db, r: Round, plain: bool, mod: bool) {
    forall e | e in r.want && e in db.rows && db.rows[e].gen == r.want[e].gen ::
      Sent(db.rows[e], r.KindOf(e)) == if r.KindOf(e) == Moderator then mod else plain
  }

  ghost predicate JobInv(db: Db, j: Job) {
    match j
    case Gathering(r) => RoundInv(db, r) && DoneSoFar(db, r, {}) && Marks(db, r, false, false)
    case HalfMarked(r) => RoundInv(db, r) && DoneSoFar(db, r, {}) && Marks(db, r, true, false) && !r.digest
    case Sending(r, done) => RoundInv(db, r) && DoneSoFar(db, r, done) && Marks(db, r, true, true)
    case DigestDue(day, _) => day > db.lastDigest
    case _ => true
  }

  ghost predicate Inv(s: State) {
    && L.Inv(s.lease)
    && (forall p :: p in s.jobs <==> p in s.lease.procs && s.lease.procs[p].Working?)
    && DbInv(s.db)
    && (forall p | p in s.jobs :: JobInv(s.db, s.jobs[p]))
  }

  /** Mutual exclusion of the lease: a process with a job is the only one. */
  lemma OneJob(s: State, p: nat, q: nat)
    requires Inv(s) && p in s.jobs && q in s.jobs
    ensures p == q
  {
    assert s.lease.lease.idCurrent == p && s.lease.lease.idCurrent == q;
  }

  /** A row that was there before, with no mark taken back. */
  ghost predicate SameRow(db: Db, db': Db, e: EventId)
    requires e in db'.rows
  {
    && e in db.rows && db.rows[e].gen == db'.rows[e].gen
    && forall k :: Sent(db.rows[e], k) ==> Sent(db'.rows[e], k)
  }

  /** What every step that mails nothing does to the tables: rows keep their identity and their marks or
      vanish, and a new row has a new gen. */
  ghost predicate Evolves(db: Db, db': Db) {
    && db.nextGen <= db'.nextGen && db'.log == db.log
    && (forall e | e in db'.rows :: db'.rows[e].gen < db'.nextGen)
    && (forall e | e in db'.rows && db'.rows[e].gen < db.nextGen :: SameRow(db, db', e))
    && (forall e, f |
          e in db'.rows && f in db'.rows && db'.rows[e].gen >= db.nextGen && db'.rows[f].gen >= db.nextGen :: e == f)
  }

  /** Web requests set no mark. */
  ghost predicate SetsNoMark(db: Db, db': Db) {
    forall e | e in db'.rows && db'.rows[e].gen < db.nextGen :: e in db.rows && db.rows[e] == db'.rows[e]
  }

  lemma EvolvedDb(db: Db, db': Db)
    requires DbInv(db) && Evolves(db, db')
    ensures DbInv(db')
  {
    forall e, f | e in db'.rows && f in db'.rows && db'.rows[e].gen == db'.rows[f].gen ensures e == f {
      if db'.rows[e].gen < db.nextGen {
        assert SameRow(db, db', e) && SameRow(db, db', f);
      }
    }
    forall e, i | e in db'.rows && 0 <= i < |db'.log| && db'.log[i].gen == db'.rows[e].gen
      ensures Sent(db'.rows[e], db'.log[i].kind)
    {
      assert SameRow(db, db', e);
    }
  }

  lemma EvolvedRound(db: Db, db': Db, r: Round)
    requires RoundInv(db, r) && Evolves(db, db')
    ensures RoundInv(db', r)
  {
    forall e, f | e in r.want && f in db'.rows && r.want[e].gen == db'.rows[f].gen ensures e == f {
      assert SameRow(db, db', f);
    }
  }

  lemma EvolvedMarks(db: Db, db': Db, r: Round, plain: bool, mod: bool)
    requires RoundInv(db, r) && SetsNoMark(db, db') && Marks(db, r, plain, mod)
    ensures Marks(db', r, plain, mod)
  {
  }

  lemma EvolvedJob(db: Db, db': Db, j: Job)
    requires JobInv(db, j) && Evolves(db, db') && SetsNoMark(db, db') && db'.lastDigest == db.lastDigest
    ensures JobInv(db', j)
  {
    if j.InRound() {
      assert forall done :: DoneSoFar(db, j.r, done) ==> DoneSoFar(db', j.r, done) by { assert db'.log == db.log; }
      hide RoundInv, Evolves, SetsNoMark, Marks, DoneSoFar;
      EvolvedRound(db, db', j.r);
      EvolvedMarks(db, db', j.r, !j.Gathering?, j.Sending?);
    }
  }

  lemma WebEvolves(db: Db, step: Step)
    requires DbInv(db) && step.Web()
    ensures Evolves(db, WebDb(db, step)) && SetsNoMark(db, WebDb(db, step))
    ensures WebDb(db, step).lastDigest == db.lastDigest && WebDb(db, step).digests == db.digests
  {
  }

  lemma SnapshotKeeps(db: Db, digest: bool, now: nat)
    requires DbInv(db)
    ensures JobInv(db, Gathering(Round(digest, SnapshotRows(db, digest), now, map[])))
  {
    var r := Round(digest, SnapshotRows(db, digest), now, map[]);
    forall e, i | e in r.want && 0 <= i < |db.log| && db.log[i].gen == r.want[e].gen
      ensures db.log[i].kind != r.KindOf(e)
    {
      assert Sent(db.rows[e], db.log[i].kind);
    }
  }

  lemma MarkEvolves(db: Db, r: Round)
    requires DbInv(db)
    ensures Evolves(db, db.(rows := MarkRows(db.rows, r)))
  {
  }

  lemma MarkModEvolves(db: Db, r: Round)
    requires DbInv(db)
    ensures Evolves(db, db.(rows := MarkModRows(db.rows, r)))
  {
  }

  lemma MarkMarks(db: Db, r: Round)
    ensures Marks(db, r, false, false) ==> Marks(db.(rows := MarkRows(db.rows, r)), r, true, r.digest)
    ensures !r.digest && Marks(db, r, true, false) ==> Marks(db.(rows := MarkModRows(db.rows, r)), r, true, true)
  {
  }

  lemma MarkKeeps(db: Db, r: Round)
    requires DbInv(db) && JobInv(db, Gathering(r))
    ensures var db' := db.(rows := MarkRows(db.rows, r));
      DbInv(db') && JobInv(db', if r.digest then Sending(r, {}) else HalfMarked(r))
  {
    hide RoundInv, Evolves, DbInv, Marks, MarkRows;
    var db' := db.(rows := MarkRows(db.rows, r));
    MarkEvolves(db, r);
    EvolvedDb(db, db');
    EvolvedRound(db, db', r);
    MarkMarks(db, r);
  }

  lemma MarkModKeeps(db: Db, r: Round)
    requires DbInv(db) && JobInv(db, HalfMarked(r))
    ensures var db' := db.(rows := MarkModRows(db.rows, r)); DbInv(db') && JobInv(db', Sending(r, {}))
  {
    hide RoundInv, Evolves, DbInv, Marks, MarkModRows;
    var db' := db.(rows := MarkModRows(db.rows, r));
    MarkModEvolves(db, r);
    EvolvedDb(db, db');
    EvolvedRound(db, db', r);
    MarkMarks(db, r);
  }

  lemma SendKeepsDb(db: Db, r: Round, done: set<(EventId, Subscriber)>, e: EventId, sub: Subscriber)
    requires DbInv(db) && JobInv(db, Sending(r, done)) && e in r.want && e in r.text && (e, sub) !in done
    ensures DbInv(AfterSend(db, r, e, sub))
  {
    NewDelivery(db, r, done, e, sub);
    var log, log' := db.log, AfterSend(db, r, e, sub).log;
    assert forall i | 0 <= i < |log| :: log'[i] == log[i];
    forall f, i | f in db.rows && 0 <= i < |log'| && log'[i].gen == db.rows[f].gen
      ensures Sent(db.rows[f], log'[i].kind)
    {
      if i < |log| { assert log[i].gen == db.rows[f].gen; }
    }
  }

  lemma NewDelivery(db: Db, r: Round, done: set<(EventId, Subscriber)>, e: EventId, sub: Subscriber)
    requires DbInv(db) && JobInv(db, Sending(r, done)) && e in r.want && e in r.text && (e, sub) !in done
    ensures
      var d := AfterSend(db, r, e, sub).log[|db.log|];
      && d.gen < db.nextGen
      && (forall f | f in db.rows && d.gen == db.rows[f].gen :: Sent(db.rows[f], d.kind))
      && (forall i | 0 <= i < |db.log| :: db.log[i].kind != d.kind || db.log[i].gen != d.gen || db.log[i].sub != d.sub)
  {
  }

  lemma LoggedGrows(log: seq<Delivery>, d: Delivery, k: Kind, gen: nat, sub: Subscriber)
    ensures Logged(log + [d], k, gen, sub) <==>
      Logged(log, k, gen, sub) || (d.kind == k && d.gen == gen && d.sub == sub)
  {
    var log' := log + [d];
    assert log'[|log|] == d;
    assert forall i | 0 <= i < |log| :: log'[i] == log[i];
  }

  lemma SendKeepsDone(db: Db, r: Round, done: set<(EventId, Subscriber)>, e: EventId, sub: Subscriber)
    requires RoundInv(db, r) && DoneSoFar(db, r, done) && e in r.want && e in r.text
    ensures DoneSoFar(AfterSend(db, r, e, sub), r, done + {(e, sub)})
  {
    hide Logged;
    var db', done' := AfterSend(db, r, e, sub), done + {(e, sub)};
    var d := db'.log[|db.log|];
    forall x | x in done' ensures x.0 in r.want && Logged(db'.log, r.KindOf(x.0), r.want[x.0].gen, x.1) {
      LoggedGrows(db.log, d, r.KindOf(x.0), r.want[x.0].gen, x.1);
    }
    forall f, i | f in r.want && 0 <= i < |db'.log| && db'.log[i].gen == r.want[f].gen && db'.log[i].kind == r.KindOf(f)
      ensures (f, db'.log[i].sub) in done'
    {
      if i < |db.log| { assert db'.log[i] == db.log[i]; }
    }
  }

  lemma CleanKeeps(db: Db)
    requires DbInv(db)
    ensures DbInv(db.(rows := CleanRows(db.rows)))
  {
    assert Evolves(db, db.(rows := CleanRows(db.rows)));
    EvolvedDb(db, db.(rows := CleanRows(db.rows)));
  }

  lemma DescribeKeeps(db: Db, r: Round, found: set<EventId>, now: nat)
    requires JobInv(db, Gathering(r))
    ensures JobInv(db, Gathering(DescribeEvents(r, found, db.held, now)))
  {
    var r' := DescribeEvents(r, found, db.held, now);
    assert r'.want == r.want && forall e | e in r.want :: r'.KindOf(e) == r.KindOf(e);
  }

  lemma InvStep(s: State, step: Step)
    requires Inv(s) && Enabled(s, step)
    ensures Inv(Apply(s, step))
  {
    hide DbInv, JobInv, L.Inv;
    if step.Lease? {
      L.InvStep(s.lease, step.step);
      ReadyIsFine(s.db);
    } else if step.Web() {
      WebStep(s, step);
    } else {
      WorkStep(s, step);
    }
  }

  lemma ReadyIsFine(db: Db)
    ensures JobInv(db, Ready(false))
  {
  }

  lemma WebStep(s: State, step: Step)
    requires Inv(s) && step.Web() && Enabled(s, step)
    ensures Inv(Apply(s, step))
  {
    hide DbInv, JobInv, L.Inv, Evolves, SetsNoMark, WebDb;
    var db' := WebDb(s.db, step);
    WebEvolves(s.db, step);
    EvolvedDb(s.db, db');
    forall p | p in s.jobs ensures JobInv(db', s.jobs[p]) {
      EvolvedJob(s.db, db', s.jobs[p]);
    }
  }

  lemma WorkStep(s: State, step: Step)
    requires Inv(s) && step.Work() && Enabled(s, step)
    ensures Inv(Apply(s, step))
  {
    hide L.Inv, JobInv, DbInv, WorkDb, WorkJob, WorkEnabled;
    var p := step.p;
    forall q | q in s.jobs ensures q == p {
      OneJob(s, p, q);
    }
    WorkKeeps(s.db, s.jobs[p], s.lease.clock, s.steps, step);
  }

  lemma WorkKeeps(db: Db, j: Job, clock: nat, now: nat, step: Step)
    requires DbInv(db) && JobInv(db, j) && step.Work() && WorkEnabled(db, j, step)
    ensures DbInv(WorkDb(db, j, step)) && JobInv(WorkDb(db, j, step), WorkJob(db, j, clock, now, step))
  {
    hide RoundInv, DoneSoFar, Marks, DbInv, MarkRows, MarkModRows, CleanRows, SnapshotRows, AfterSend, DescribeEvents;
    match step {
      case Snapshot(_) => SnapshotKeeps(db, j.digest, now);
      case Describe(_, found) => DescribeKeeps(db, j.r, found, now);
      case Mark(_) => MarkKeeps(db, j.r);
      case MarkModerator(_) => MarkModKeeps(db, j.r);
      case Send(_, e, sub) =>
        SendKeepsDb(db, j.r, j.done, e, sub);
        SendKeepsDone(db, j.r, j.done, e, sub);
        SendKeepsRest(db, j.r, e, sub);
      case Clean(_) => CleanKeeps(db);
      case RecordDay(_) => DigestKeeps(db, j.day, j.readAt);
      case _ =>
    }
  }

  lemma SendKeepsRest(db: Db, r: Round, e: EventId, sub: Subscriber)
    requires e in r.want && e in r.text
    ensures RoundInv(db, r) ==> RoundInv(AfterSend(db, r, e, sub), r)
    ensures Marks(db, r, true, true) ==> Marks(AfterSend(db, r, e, sub), r, true, true)
  {
  }

  lemma DigestKeeps(db: Db, day: nat, readAt: nat)
    requires DbInv(db)
    ensures DbInv(db.(lastDigest := day, digests := db.digests + [DigestRound(day, readAt)]))
  {
  }

  lemma {:induction false} InvHolds(run: seq<State>, i: nat)
    requires IsRun(run) && i < |run|
    ensures Inv(run[i])
  {
    if i > 0 {
      InvHolds(run, i - 1);
      var step := StepAt(run, i - 1);
      InvStep(run[i - 1], step);
    }
  }

  // --------------------------------------------------------------- nothing twice

  /** Over every run, with crashes anywhere: about one row of pending_alert, a subscriber gets at most
      one individual alert, at most one moderator alert and at most one digest entry. */
  lemma NoDoubleAlert(run: seq<State>, i: nat)
    requires IsRun(run) && i < |run|
    ensures NoneTwice(run[i].db.log)
  {
    InvHolds(run, i);
  }
}

/** Which mail can speak of an event that awaits moderation (src/alerts.c, src/moderate.c). */
module AlertModeration {
  import opened Alerts
  import L = LeaseProtocol
  import Leases

  /** The snapshot of step r.at saw the wanted rows and which of them awaited moderation; each text was read later. */
  ghost predicate RoundTraced(run: seq<State>, i: nat, r: Round)
    requires i < |run|
  {
    && r.at < i
    && (forall e | e in r.want :: WantTraced(run, r, e))
    && (forall e | e in r.text :: e in r.want && TextTraced(run, i, r, e))
  }

  ghost predicate WantTraced(run: seq<State>, r: Round, e: EventId)
    requires e in r.want && r.at < |run|
  {
    var was := run[r.at].db;
    && e in was.rows && was.rows[e].gen == r.want[e].gen && !Sent(was.rows[e], r.KindOf(e))
    && (r.KindOf(e) == Moderator <==> e.rid in was.held)
  }

  ghost predicate TextTraced(run: seq<State>, i: nat, r: Round, e: EventId)
    requires e in r.text && i < |run|
  {
    && r.at < r.text[e].at < i
    && e.rid in run[r.text[e].at].db.events
    && (r.text[e].held <==> e.rid in run[r.text[e].at].db.held)
  }

  /** The row behind the delivery was there, not yet marked. */
  predicate WasPending(db: Db, d: Delivery) {
    d.event in db.rows && db.rows[d.event].gen == d.gen && !Sent(db.rows[d.event], d.kind)
  }

  ghost predicate DeliveryTraced(run: seq<State>, i: nat, d: Delivery)
    requires i < |run|
  {
    && d.snapshot < d.described < i
    && WasPending(run[d.snapshot].db, d)
    && (d.kind == Moderator <==> d.event.rid in run[d.snapshot].db.held)
    && d.event.rid in run[d.described].db.events
    && (d.held <==> d.event.rid in run[d.described].db.held)
  }

  ghost predicate Traced(run: seq<State>, i: nat)
    requires i < |run|
  {
    && run[i].steps == i
    && (forall p | p in run[i].jobs && run[i].jobs[p].InRound() :: RoundTraced(run, i, run[i].jobs[p].r))
    && (forall d | 0 <= d < |run[i].db.log| :: DeliveryTraced(run, i, run[i].db.log[d]))
  }

  lemma SnapshotTraced(run: seq<State>, i: nat, digest: bool)
    requires i + 1 < |run|
    ensures RoundTraced(run, i + 1, Round(digest, SnapshotRows(run[i].db, digest), i, map[]))
  {
  }

  lemma DescribeTraced(run: seq<State>, i: nat, r: Round, found: set<EventId>)
    requires i + 1 < |run| && RoundTraced(run, i, r)
    requires forall e | e in found :: e in r.want && e.rid in run[i].db.events
    ensures RoundTraced(run, i + 1, DescribeEvents(r, found, run[i].db.held, i))
  {
    var r' := DescribeEvents(r, found, run[i].db.held, i);
    forall e | e in r'.want ensures WantTraced(run, r', e) {
      assert WantTraced(run, r, e);
    }
    forall e | e in r'.text ensures e in r'.want && TextTraced(run, i + 1, r', e) {
      assert e in r.text ==> TextTraced(run, i, r, e);
    }
  }

  lemma SendTraced(run: seq<State>, i: nat, r: Round, e: EventId, sub: Subscriber)
    requires i + 1 < |run| && RoundTraced(run, i, r) && e in r.want && e in r.text
    ensures DeliveryTraced(run, i + 1, AfterSend(run[i].db, r, e, sub).log[|run[i].db.log|])
  {
    assert WantTraced(run, r, e) && TextTraced(run, i, r, e);
  }

  lemma StaysTraced(run: seq<State>, i: nat)
    requires i + 1 < |run|
    ensures forall r | RoundTraced(run, i, r) :: RoundTraced(run, i + 1, r)
    ensures forall d | DeliveryTraced(run, i, d) :: DeliveryTraced(run, i + 1, d)
  {
    forall r | RoundTraced(run, i, r) ensures RoundTraced(run, i + 1, r) {
      assert forall e | e in r.text :: TextTraced(run, i, r, e) ==> TextTraced(run, i + 1, r, e);
    }
  }

  lemma TracedStep(run: seq<State>, i: nat, step: Step)
    requires i + 1 < |run| && Traced(run, i) && Enabled(run[i], step) && run[i + 1] == Apply(run[i], step)
    ensures Traced(run, i + 1)
  {
    hide RoundTraced, DeliveryTraced, SnapshotRows, DescribeEvents;
    var s, s' := run[i], run[i + 1];
    StaysTraced(run, i);
    forall p | p in s'.jobs && s'.jobs[p].InRound() ensures RoundTraced(run, i + 1, s'.jobs[p].r) {
      if step.Snapshot? && step.p == p {
        SnapshotTraced(run, i, s.jobs[p].digest);
      } else if step.Describe? && step.p == p {
        DescribeTraced(run, i, s.jobs[p].r, step.found);
      }
    }
    if step.Send? {
      SendTraced(run, i, s.jobs[step.p].r, step.e, step.sub);
    }
  }

  lemma {:induction false} TracedHolds(run: seq<State>, i: nat)
    requires IsRun(run) && i < |run|
    ensures Traced(run, i)
  {
    hide Enabled, Apply;
    if i > 0 {
      TracedHolds(run, i - 1);
      var step := StepAt(run, i - 1);
      TracedStep(run, i - 1, step);
    }
  }

  /** At step k the artifact began to await moderation, and it still did at step n. */
  ghost predicate HeldFrom(run: seq<State>, rid: Rid, k: nat, n: nat)
    requires 0 < k <= n < |run|
  {
    rid !in run[k - 1].db.held && forall m | k <= m <= n :: rid in run[m].db.held
  }

  lemma {:induction false} BecameHeld(run: seq<State>, rid: Rid, m: nat, n: nat) returns (k: nat)
    requires m <= n < |run| && rid !in run[m].db.held && rid in run[n].db.held
    ensures m < k <= n && HeldFrom(run, rid, k, n)
    decreases n
  {
    if rid in run[n - 1].db.held {
      k := BecameHeld(run, rid, m, n - 1);
    } else {
      k := n;
    }
  }

  /** Only two requests do that: holding a new post under this id, or making its artifact private. */
  lemma HeldByRequest(run: seq<State>, rid: Rid, k: nat) returns (step: Step)
    requires IsRun(run) && 0 < k < |run| && rid !in run[k - 1].db.held && rid in run[k].db.held
    ensures Enabled(run[k - 1], step) && run[k] == Apply(run[k - 1], step)
    ensures step == MakePrivate(rid) || (step.Post? && step.hold && step.e.rid == rid && rid !in run[k - 1].db.events)
  {
    step := StepAt(run, k - 1);
  }

  /** All mail is about a row that was pending without its mark at the sender's snapshot, and about an event that
      existed when the sender read it later; it is for moderators only, exactly if the artifact was held at the
      snapshot. */
  lemma MailIsAboutPendingRows(run: seq<State>, i: nat, n: nat)
    requires IsRun(run) && i < |run| && n < |run[i].db.log|
    ensures var d := run[i].db.log[n]; d.snapshot < d.described < i
    ensures
      var d := run[i].db.log[n];
      var was, read := run[d.snapshot].db, run[d.described].db;
      && WasPending(was, d) && d.event.rid in read.events
      && (d.kind == Moderator <==> d.event.rid in was.held)
      && (d.held <==> d.event.rid in read.held)
  {
    TracedHolds(run, i);
    assert DeliveryTraced(run, i, run[i].db.log[n]);
  }

  /** Mail to anyone but moderators speaks of an event that awaits moderation exactly if its artifact id was
      not held at the sender's snapshot but was when the sender read the event: it came to be held in between. */
  lemma HeldMailedExactly(run: seq<State>, i: nat, n: nat)
    requires IsRun(run) && i < |run| && n < |run[i].db.log|
    ensures var d := run[i].db.log[n]; d.snapshot < d.described < i
    ensures
      var d := run[i].db.log[n];
      var was, read := run[d.snapshot].db, run[d.described].db;
      && (d.held && d.kind != Moderator <==> d.event.rid !in was.held && d.event.rid in read.held)
      && (d.held && d.kind != Moderator ==>
            exists k | d.snapshot < k <= d.described :: HeldFrom(run, d.event.rid, k, d.described))
  {
    MailIsAboutPendingRows(run, i, n);
    var d := run[i].db.log[n];
    if d.held && d.kind != Moderator {
      var k := BecameHeld(run, d.event.rid, d.snapshot, d.described);
    }
  }

  // ------------------------------------------------------------------ a failing run

  const POST: EventId := EventId('f', 7)

  function LeaseAt(procs: map<nat, L.Phase>): L.State {
    L.State(1000, {1}, procs, Leases.Lease(0, 0, 0, 0), [])
  }

  /** An event is posted. */
  lemma Started(e: EventId, hold: bool) returns (run: seq<State>)
    ensures IsRun(run)
    ensures var db := Db(map[e := Row(0, false, false, false)], {e.rid}, if hold then {e.rid} else {}, 1, 0, [], []);
      run[|run| - 1] == State(LeaseAt(map[]), map[], db, 1)
  {
    run := [State(LeaseAt(map[]), map[], Db(map[], {}, {}, 0, 0, [], []), 0)];
    run := Then(run, Post(e, hold));
  }

  /** The row of a rejected post waits. */
  lemma RejectedPostLeavesRow() returns (run: seq<State>)
    ensures IsRun(run)
    ensures var db := Db(map[POST := Row(0, false, false, false)], {}, {}, 1, 0, [], []);
      run[|run| - 1] == State(LeaseAt(map[]), map[], db, 2)
  {
    run := Started(POST, true);
    run := Then(run, Remove(7));
  }

  /** Process 1 begins to work. */
  lemma WorkerStarts(run: seq<State>) returns (longer: seq<State>)
    requires IsRun(run) && run[|run| - 1].lease == LeaseAt(map[]) && run[|run| - 1].jobs == map[]
    ensures IsRun(longer)
    ensures var s := longer[|longer| - 1]; s.db == run[|run| - 1].db && s.jobs == map[1 := Ready(false)]
  {
    longer := Then(run, Lease(L.Begin(1)));
    assert longer[|longer| - 1].lease == LeaseAt(map[1 := L.Started]);
    longer := Then(longer, Lease(L.ReadClock(1)));
    assert longer[|longer| - 1].lease == LeaseAt(map[1 := L.Pending(1000)]);
    longer := Then(longer, Lease(L.RunTransaction(1, false)));
  }

  /** The next held post gets the id between the snapshot and the reading of the event. */
  lemma HeldPostDescribed(run: seq<State>) returns (longer: seq<State>, r: Round)
    requires IsRun(run)
    requires var s := run[|run| - 1];
      && s.jobs == map[1 := Ready(false)]
      && s.db == Db(map[POST := Row(0, false, false, false)], {}, {}, 1, 0, [], [])
    ensures IsRun(longer)
    ensures longer[|longer| - 1].jobs == map[1 := Gathering(r)] && longer[|longer| - 1].db.log == []
    ensures !r.digest && r.want == map[POST := Want(0, false)] && POST in r.text && r.text[POST].held
  {
    var n := run[|run| - 1].steps;
    assert SnapshotRows(run[|run| - 1].db, false) == map[POST := Want(0, false)];
    longer := Then(run, Snapshot(1));
    assert longer[|longer| - 1].jobs == map[1 := Gathering(Round(false, map[POST := Want(0, false)], n, map[]))];
    longer := Then(longer, Post(POST, true));
    longer := Then(longer, Describe(1, {POST}));
    r := longer[|longer| - 1].jobs[1].r;
  }

  /** Such mail is possible: a held post is rejected and leaves its pending row behind; a process takes its
      snapshot; the next held post gets the same id before the process reads the event. */
  lemma HeldPostMailedToAll() returns (run: seq<State>)
    ensures IsRun(run)
    ensures var log := run[|run| - 1].db.log; |log| == 1 && log[0].held && log[0].kind == Individual
  {
    run := RejectedPostLeavesRow();
    run := WorkerStarts(run);
    var r;
    run, r := HeldPostDescribed(run);
    run := Then(run, Mark(1));
    run := Then(run, MarkModerator(1));
    run := Then(run, Send(1, POST, 1));
  }
}

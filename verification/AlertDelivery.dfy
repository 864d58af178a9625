/** That alerts do get sent: what a snapshot takes up, what a round can mail, what stays pending (src/alerts.c). */
module AlertDelivery {
  import opened Alerts
  import opened AlertLosses
  import AlertDigests
  import AlertModeration
  import L = LeaseProtocol

  /** The way in which a round of this sort tells people about e, as things stand. */
  function KindFor(db: Db, e: EventId, digest: bool): Kind {
    if digest then Digest else if e.rid in db.held then Moderator else Individual
  }

  /** The row of e waits for a round of this sort: it has not been sent in the way that applies, nor, unless this is
      a digest, individually before; and what is held enters no digest. */
  predicate Waits(db: Db, e: EventId, digest: bool) {
    && e in db.rows && !Sent(db.rows[e], KindFor(db, e, digest))
    && if digest then e.rid !in db.held else !db.rows[e].sentSep
  }

  /** A snapshot takes up exactly the rows that wait for the round, for the way that applies. */
  lemma SnapshotExactly(s: State, p: nat)
    requires Enabled(s, Snapshot(p))
    ensures
      var digest, j := s.jobs[p].digest, Apply(s, Snapshot(p)).jobs[p];
      && j.Gathering? && j.r.digest == digest
      && (forall e :: e in j.r.want <==> Waits(s.db, e, digest))
      && (forall e | e in j.r.want :: j.r.KindOf(e) == KindFor(s.db, e, digest) && j.r.want[e].gen == s.db.rows[e].gen)
      && (forall e | e in j.r.want :: j.r.want[e].needMod <==> e.rid in s.db.held)
  {
  }

  /** A round that has found events to describe goes on to mark its rows; one that has not is over without marking
      any. */
  lemma RoundGoesOnExactly(s: State, p: nat)
    requires p in s.jobs && s.jobs[p].Gathering?
    ensures Enabled(s, Mark(p)) <==> s.jobs[p].r.text != map[]
    ensures Enabled(s, Skip(p)) <==> s.jobs[p].r.text == map[]
    ensures Enabled(s, Skip(p)) ==>
      var next := if s.jobs[p].r.digest then Over else DigestCheck;
      Apply(s, Skip(p)) == s.(jobs := s.jobs[p := next], steps := s.steps + 1)
  {
  }

  // ------------------------------------------------------------- a round can mail

  lemma Listing(run: seq<State>, p: nat, e: EventId) returns (longer: seq<State>, r: Round)
    requires IsRun(run)
    requires var s := run[|run| - 1]; p in s.jobs && s.jobs[p].Ready? && e.rid in s.db.events
    requires var s := run[|run| - 1]; Waits(s.db, e, s.jobs[p].digest)
    ensures IsRun(longer) && run <= longer && |longer| == |run| + 2
    ensures
      var s, s' := run[|run| - 1], longer[|longer| - 1];
      && s'.db == s.db && s'.lease == s.lease && s'.jobs == s.jobs[p := Gathering(r)]
      && r.digest == s.jobs[p].digest && e in r.want && e in r.text
      && r.KindOf(e) == KindFor(s.db, e, r.digest) && r.want[e].gen == s.db.rows[e].gen
      && (r.text[e].held <==> e.rid in s.db.held)
  {
    hide SnapshotRows, Waits;
    var s := run[|run| - 1];
    SnapshotExactly(s, p);
    longer := Then(run, Snapshot(p));
    var r0 := longer[|longer| - 1].jobs[p].r;
    r := DescribeEvents(r0, {e}, s.db.held, s.steps + 1);
    longer := Then(longer, Describe(p, {e}));
    assert longer[|longer| - 1].jobs == s.jobs[p := Gathering(r)];
    assert r.want == r0.want && r.digest == r0.digest;
    assert r0.text == map[];
  }

  lemma Marking(run: seq<State>, p: nat, r: Round) returns (longer: seq<State>)
    requires IsRun(run)
    requires var s := run[|run| - 1]; p in s.jobs && s.jobs[p] == Gathering(r) && r.text != map[]
    ensures IsRun(longer) && run <= longer
    ensures
      var s, s' := run[|run| - 1], longer[|longer| - 1];
      s'.lease == s.lease && s'.jobs == s.jobs[p := Sending(r, {})] && s'.db == s.db.(rows := s'.db.rows)
  {
    hide MarkRows, MarkModRows;
    var s := run[|run| - 1];
    longer := Then(run, Mark(p));
    if !r.digest {
      assert longer[|longer| - 1].jobs == s.jobs[p := HalfMarked(r)];
      longer := Then(longer, MarkModerator(p));
    }
    assert longer[|longer| - 1].jobs == s.jobs[p := Sending(r, {})];
  }

  /** From any moment of any run at which a worker is about to take its snapshot: a row that waits for the round,
      and whose event exists, can be mailed to anybody in that round, in the way that applies. */
  lemma RoundMails(run: seq<State>, p: nat, e: EventId, sub: Subscriber) returns (longer: seq<State>)
    requires IsRun(run)
    requires var s := run[|run| - 1]; p in s.jobs && s.jobs[p].Ready? && e.rid in s.db.events
    requires var s := run[|run| - 1]; Waits(s.db, e, s.jobs[p].digest)
    ensures IsRun(longer) && run <= longer
    ensures
      var s, s' := run[|run| - 1], longer[|longer| - 1];
      && s'.lease == s.lease && s'.jobs.Keys == s.jobs.Keys && s'.jobs[p].Sending?
      && |s'.db.log| == |s.db.log| + 1 && s.db.log <= s'.db.log
      && var d := s'.db.log[|s.db.log|];
         && d.event == e && d.sub == sub && d.gen == s.db.rows[e].gen
         && d.kind == KindFor(s.db, e, s.jobs[p].digest) && (d.held <==> e.rid in s.db.held)
  {
    hide Waits, KindFor;
    var r;
    longer, r := Listing(run, p, e);
    longer := Marking(longer, p, r);
    longer := Then(longer, Send(p, e, sub));
  }

  /** When the mail is out, the round ends by the clean-up; then the worker looks at the day, or has finished if this
      was the digest. */
  lemma RoundEnds(run: seq<State>, p: nat) returns (longer: seq<State>)
    requires IsRun(run) && var s := run[|run| - 1]; p in s.jobs && s.jobs[p].Sending?
    ensures IsRun(longer) && run <= longer
    ensures
      var s, s' := run[|run| - 1], longer[|longer| - 1];
      && s'.jobs == s.jobs[p := if s.jobs[p].r.digest then Over else DigestCheck]
      && (forall e :: e in s'.db.rows <==> e in s.db.rows && !BothMarks(s, e))
      && s'.db == s.db.(rows := s'.db.rows) && s'.lease == s.lease
  {
    hide CleanRows;
    var s := run[|run| - 1];
    longer := Then(run, DoneSending(p));
    var s1 := longer[|longer| - 1];
    assert s1.jobs == s.jobs[p := Cleaning(s.jobs[p].r.digest)] && s1.db == s.db;
    CleanExactly(s1, p);
    longer := Then(longer, Clean(p));
    assert longer[|longer| - 1].jobs == s.jobs[p := if s.jobs[p].r.digest then Over else DigestCheck];
  }

  // ---------------------------------------------------------------- examples

  /** A post held for moderation reaches a moderator. */
  lemma HeldPostReachesModerator() returns (run: seq<State>)
    ensures IsRun(run)
    ensures var log := run[|run| - 1].db.log; |log| == 1 && log[0].kind == Moderator && log[0].held
  {
    run := AlertModeration.Started(EventId('f', 7), true);
    run := AlertModeration.WorkerStarts(run);
    run := RoundMails(run, 1, EventId('f', 7), 1);
  }

  /** Once it is approved, it reaches the other subscribers. */
  lemma ApprovedPostReachesAll() returns (run: seq<State>)
    ensures IsRun(run)
    ensures var log := run[|run| - 1].db.log; |log| == 1 && log[0].kind == Individual && !log[0].held
  {
    run := AlertModeration.Started(EventId('f', 7), true);
    run := Then(run, Approve(7));
    run := AlertModeration.WorkerStarts(run);
    run := RoundMails(run, 1, EventId('f', 7), 1);
  }

  /** An event enters the first digest of the day. */
  lemma RowEntersDigest() returns (run: seq<State>)
    ensures IsRun(run)
    ensures var log := run[|run| - 1].db.log; |log| == 1 && log[0].kind == Digest && !log[0].held
  {
    run := AlertModeration.Started(EventId('c', 7), false);
    run := AlertModeration.WorkerStarts(run);
    run := Then(run, Skip(1));
    run := AlertDigests.DigestBeginsWhenDue(run, 1);
    run := RoundMails(run, 1, EventId('c', 7), 1);
  }

  // ------------------------------------------------------------- nothing is forgotten

  /** A new event has a row, without marks unless it had one before. */
  lemma PostQueues(s: State, e: EventId, hold: bool)
    requires Enabled(s, Post(e, hold))
    ensures
      var s' := Apply(s, Post(e, hold));
      && e in s'.db.rows && e.rid in s'.db.events && (hold ==> e.rid in s'.db.held)
      && (if e in s.db.rows then s'.db.rows == s.db.rows
          else s'.db.rows == s.db.rows[e := s'.db.rows[e]] && forall k :: !Sent(s'.db.rows[e], k))
  {
  }

  /** What awaits moderation, and what exists, after each request about an artifact. */
  lemma HeldAfterRequests(s: State, rid: Rid)
    ensures var s' := Apply(s, MakePrivate(rid)).db;
      s'.held == s.db.held + {rid} && s'.events == s.db.events && s'.rows == s.db.rows
    ensures var s' := Apply(s, Approve(rid)).db;
      s'.held == s.db.held - {rid} && s'.events == s.db.events && s'.rows == s.db.rows
    ensures var s' := Apply(s, Remove(rid)).db;
      s'.held == s.db.held - {rid} && s'.events == s.db.events - {rid} && s'.rows == s.db.rows
  {
  }

  /** A row withdrawn before a worker has it on its list is never mailed afterwards. */
  lemma WithdrawnIsNeverMailed(run: seq<State>, i: nat, n: nat, e: EventId, k: Kind, sub: Subscriber)
    requires IsRun(run) && i + 1 <= n < |run| && e in run[i].db.rows && run[i + 1] == Apply(run[i], Withdraw(e))
    requires forall p | p in run[i].jobs :: !Listed(run[i].jobs[p], k, run[i].db.rows[e].gen)
    ensures e !in run[i + 1].db.rows
    ensures var gen := run[i].db.rows[e].gen; Logged(run[n].db.log, k, gen, sub) <==> Logged(run[i].db.log, k, gen, sub)
  {
    hide L.Inv, Listed;
    InvHolds(run, i);
    InvHasDbInv(run[i]);
    assert Settled(run[i + 1], k, run[i].db.rows[e].gen);
    SettledForGood(run, i + 1, n, k, run[i].db.rows[e].gen, sub);
  }

  /** The clean-up removes the rows marked both ways and leaves the others as they are. */
  lemma CleanExactly(s: State, p: nat)
    requires Enabled(s, Clean(p))
    ensures
      var was, now := s.db.rows, Apply(s, Clean(p)).db.rows;
      && (forall e :: e in now <==> e in was && !(was[e].sentSep && was[e].sentDigest))
      && (forall e | e in now :: now[e] == was[e])
  {
  }

  /** Some worker has e on its list, for this way. */
  ghost predicate OnList(s: State, e: EventId, k: Kind) {
    exists p | p in s.jobs && s.jobs[p].InRound() && e in s.jobs[p].r.want :: s.jobs[p].r.KindOf(e) == k
  }

  /** A row is marked only if a worker has it on its list. */
  lemma MarkedOnlyIfListed(s: State, step: Step, e: EventId, gen: nat, k: Kind)
    requires DbInv(s.db) && Enabled(s, step) && Pending(s, e, gen) && Pending(Apply(s, step), e, gen)
    requires !Sent(s.db.rows[e], k) && Sent(Apply(s, step).db.rows[e], k)
    requires forall p | p in s.jobs && s.jobs[p].HalfMarked? :: !s.jobs[p].r.digest
    ensures OnList(s, e, k)
  {
    var p := step.p;
    assert s.jobs[p].InRound() && e in s.jobs[p].r.want && s.jobs[p].r.KindOf(e) == k;
  }

  /** A pending row that has not been sent in some way stays so until a worker lists it for that way, a request
      withdraws it, or, if it was only never shown to moderators, the clean-up finds it sent both other ways. */
  lemma {:induction false} StaysUntilListed(run: seq<State>, i: nat, n: nat, e: EventId, gen: nat, k: Kind)
    requires IsRun(run) && i <= n < |run| && Pending(run[i], e, gen) && !Sent(run[i].db.rows[e], k)
    ensures
      || (Pending(run[n], e, gen) && !Sent(run[n].db.rows[e], k))
      || (exists j | i <= j < n :: OnList(run[j], e, k))
      || (exists j | i <= j < n :: Pending(run[j], e, gen) && run[j + 1] == Apply(run[j], Withdraw(e)))
      || (k == Moderator && exists j | i <= j < n :: Pending(run[j], e, gen) && BothMarks(run[j], e))
    decreases n
  {
    hide Inv, DbInv, Enabled, Apply, BothMarks, OnList;
    if i < n {
      StaysUntilListed(run, i, n - 1, e, gen, k);
      if Pending(run[n - 1], e, gen) && !Sent(run[n - 1].db.rows[e], k) {
        InvHolds(run, n - 1);
        InvHasDbInv(run[n - 1]);
        var step := StepAt(run, n - 1);
        if step != Withdraw(e) {
          RowStep(run[n - 1], step, e, gen);
          BothMarksMeans(run[n - 1], e);
          if Pending(run[n], e, gen) && Sent(run[n].db.rows[e], k) {
            HalfMarkedNoDigest(run[n - 1]);
            MarkedOnlyIfListed(run[n - 1], step, e, gen, k);
          }
        }
      }
    }
  }

  lemma BothMarksMeans(s: State, e: EventId)
    requires e in s.db.rows
    ensures BothMarks(s, e) <==> Sent(s.db.rows[e], Individual) && Sent(s.db.rows[e], Digest)
  {
  }

  lemma HalfMarkedNoDigest(s: State)
    requires Inv(s)
    ensures forall p | p in s.jobs && s.jobs[p].HalfMarked? :: !s.jobs[p].r.digest
  {
    hide L.Inv;
    assert forall p | p in s.jobs :: JobInv(s.db, s.jobs[p]);
  }
}

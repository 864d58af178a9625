/** What can get lost: the price of marking alerts before they are sent (src/alerts.c). */
module AlertLosses {
  import opened Alerts
  import L = LeaseProtocol

  // ------------------------------------------------------------- rows

  /** The row `gen` is pending for e. */
  predicate Pending(s: State, e: EventId, gen: nat) {
    e in s.db.rows && s.db.rows[e].gen == gen
  }

  predicate BothMarks(s: State, e: EventId)
    requires e in s.db.rows
  {
    s.db.rows[e].sentSep && s.db.rows[e].sentDigest
  }

  lemma RowStep(s: State, step: Step, e: EventId, gen: nat)
    requires DbInv(s.db) && Enabled(s, step) && Pending(s, e, gen) && step != Withdraw(e)
    ensures
      var s' := Apply(s, step);
      || (Pending(s', e, gen) && forall k :: Sent(s.db.rows[e], k) ==> Sent(s'.db.rows[e], k))
      || (BothMarks(s, e) && step.Clean?)
  {
  }

  /** Over whole runs: a row leaves pending_alert only by being withdrawn, or by the clean-up when it is
      marked both as sent individually and as sent in a digest. */
  lemma {:induction false} RowsLeaveMarkedOrWithdrawn(run: seq<State>, i: nat, n: nat, e: EventId, gen: nat)
    returns (j: nat, step: Step)
    requires IsRun(run) && i <= n < |run| && Pending(run[i], e, gen) && !Pending(run[n], e, gen)
    ensures i <= j < n && Pending(run[j], e, gen) && !Pending(run[j + 1], e, gen)
    ensures Enabled(run[j], step) && run[j + 1] == Apply(run[j], step)
    ensures step == Withdraw(e) || (step.Clean? && BothMarks(run[j], e))
    decreases n
  {
    hide Inv, DbInv, Enabled, Apply, BothMarks;
    if Pending(run[n - 1], e, gen) {
      j := n - 1;
      step := StepAt(run, j);
      InvHolds(run, j);
      InvHasDbInv(run[j]);
      if step != Withdraw(e) {
        RowStep(run[j], step, e, gen);
      }
    } else {
      j, step := RowsLeaveMarkedOrWithdrawn(run, i, n - 1, e, gen);
    }
  }

  lemma InvHasDbInv(s: State)
    requires Inv(s)
    ensures DbInv(s.db)
  {
  }

  /** No mark is ever taken back. */
  lemma {:induction false} MarksStay(run: seq<State>, i: nat, n: nat, e: EventId, gen: nat, k: Kind)
    requires IsRun(run) && i <= n < |run| && Pending(run[i], e, gen) && Pending(run[n], e, gen)
    requires Sent(run[i].db.rows[e], k)
    ensures Sent(run[n].db.rows[e], k)
    decreases n
  {
    hide Inv, DbInv, Enabled, Apply;
    if i < n {
      InvHolds(run, n - 1);
      InvHasDbInv(run[n - 1]);
      var step := StepAt(run, n - 1);
      RowComesFrom(run[n - 1], step, e);
      if Pending(run[n - 1], e, gen) {
        MarksStay(run, i, n - 1, e, gen, k);
        assert Sent(run[n - 1].db.rows[e], k);
      } else {
        GensGrow(run, i, n - 1);
      }
    }
  }

  /** A row after a step is a row from before, or has a new gen. */
  lemma RowComesFrom(s: State, step: Step, e: EventId)
    requires DbInv(s.db) && Enabled(s, step) && e in Apply(s, step).db.rows
    ensures
      var row := Apply(s, step).db.rows[e];
      if row.gen >= s.db.nextGen then true
      else e in s.db.rows && s.db.rows[e].gen == row.gen && forall k :: Sent(s.db.rows[e], k) ==> Sent(row, k)
  {
  }

  lemma GenStep(s: State, step: Step)
    requires Enabled(s, step)
    ensures s.db.nextGen <= Apply(s, step).db.nextGen
  {
  }

  lemma {:induction false} GensGrow(run: seq<State>, i: nat, n: nat)
    requires IsRun(run) && i <= n < |run|
    ensures run[i].db.nextGen <= run[n].db.nextGen
    ensures forall e | e in run[i].db.rows :: run[i].db.rows[e].gen < run[n].db.nextGen
    decreases n
  {
    hide Inv, Enabled, Apply;
    if i < n {
      GensGrow(run, i, n - 1);
      var step := StepAt(run, n - 1);
      GenStep(run[n - 1], step);
    } else {
      InvHolds(run, n);
      InvHasDbInv(run[n]);
    }
  }

  // ------------------------------------------------------------- alerts

  /** Some process still has the alert on its list. */
  ghost predicate Listed(j: Job, k: Kind, gen: nat) {
    j.InRound() && exists e | e in j.r.want :: j.r.want[e].gen == gen && j.r.KindOf(e) == k
  }

  /** The row `gen` is marked as sent in this way, or gone, and no process has it on its list. */
  ghost predicate Settled(s: State, k: Kind, gen: nat) {
    && gen < s.db.nextGen
    && (forall p | p in s.jobs :: !Listed(s.jobs[p], k, gen))
    && (forall e | e in s.db.rows && s.db.rows[e].gen == gen :: Sent(s.db.rows[e], k))
  }

  lemma SettledRows(s: State, step: Step, k: Kind, gen: nat)
    requires DbInv(s.db) && Settled(s, k, gen) && Enabled(s, step)
    ensures gen < Apply(s, step).db.nextGen
    ensures forall e | e in Apply(s, step).db.rows && Apply(s, step).db.rows[e].gen == gen ::
      Sent(Apply(s, step).db.rows[e], k)
  {
    hide Listed, DbInv;
    forall e | e in Apply(s, step).db.rows && Apply(s, step).db.rows[e].gen == gen
      ensures Sent(Apply(s, step).db.rows[e], k)
    {
      RowComesFrom(s, step, e);
    }
    GenStep(s, step);
  }

  lemma ListKept(db: Db, j: Job, clock: nat, now: nat, step: Step)
    requires step.Work() && WorkEnabled(db, j, step) && !step.Snapshot? && WorkJob(db, j, clock, now, step).InRound()
    ensures j.InRound()
    ensures var r := WorkJob(db, j, clock, now, step).r; r.want == j.r.want && r.digest == j.r.digest
  {
  }

  /** A snapshot lists only rows without the mark, and nothing else lists any. */
  lemma SnapshotUnmarked(db: Db, j: Job, k: Kind, gen: nat, clock: nat, now: nat, step: Step)
    requires step.Work() && WorkEnabled(db, j, step)
    requires forall e | e in db.rows && db.rows[e].gen == gen :: Sent(db.rows[e], k)
    ensures Listed(WorkJob(db, j, clock, now, step), k, gen) ==> Listed(j, k, gen)
  {
    var j' := WorkJob(db, j, clock, now, step);
    if !step.Snapshot? && j'.InRound() {
      ListKept(db, j, clock, now, step);
      assert forall e | e in j.r.want :: j'.r.KindOf(e) == j.r.KindOf(e);
    }
  }

  lemma SettledStep(s: State, step: Step, k: Kind, gen: nat)
    requires DbInv(s.db) && Settled(s, k, gen) && Enabled(s, step)
    ensures Settled(Apply(s, step), k, gen)
    ensures s.db.log <= Apply(s, step).db.log
    ensures forall i | |s.db.log| <= i < |Apply(s, step).db.log| ::
      Apply(s, step).db.log[i].kind != k || Apply(s, step).db.log[i].gen != gen
  {
    var s' := Apply(s, step);
    SettledRows(s, step, k, gen);
    if step.Work() {
      SnapshotUnmarked(s.db, s.jobs[step.p], k, gen, s.lease.clock, s.steps, step);
    }
  }

  /** From then on nobody is told about the row in this way any more. */
  lemma {:induction false} SettledForGood(run: seq<State>, i: nat, n: nat, k: Kind, gen: nat, sub: Subscriber)
    requires IsRun(run) && i <= n < |run| && Settled(run[i], k, gen)
    ensures Settled(run[n], k, gen)
    ensures Logged(run[n].db.log, k, gen, sub) <==> Logged(run[i].db.log, k, gen, sub)
    decreases n
  {
    hide Inv, DbInv, Settled, Enabled, Apply;
    if i < n {
      SettledForGood(run, i, n - 1, k, gen, sub);
      InvHolds(run, n - 1);
      InvHasDbInv(run[n - 1]);
      var step := StepAt(run, n - 1);
      SettledStep(run[n - 1], step, k, gen);
      assert forall d | 0 <= d < |run[n - 1].db.log| :: run[n].db.log[d] == run[n - 1].db.log[d];
    }
  }

  /** The process has recorded this alert of its round as sent. */
  predicate Recorded(j: Job, e: EventId)
    requires j.InRound() && e in j.r.want
  {
    j.Sending? || (j.HalfMarked? && j.r.KindOf(e) != Moderator)
  }

  /** The state a crash leaves: nobody works. */
  lemma AfterCrash(s: State, p: nat)
    requires Inv(s) && p in s.jobs && Enabled(s, Lease(L.Die(p)))
    ensures Apply(s, Lease(L.Die(p))).jobs == map[] && Apply(s, Lease(L.Die(p))).db == s.db
  {
    hide DbInv, JobInv;
    forall q | q in s.jobs ensures q == p {
      OneJob(s, p, q);
    }
  }

  lemma CrashSettles(s: State, p: nat, e: EventId)
    requires Inv(s) && p in s.jobs && Enabled(s, Lease(L.Die(p))) && s.jobs[p].InRound() && e in s.jobs[p].r.want
    requires Recorded(s.jobs[p], e)
    ensures Settled(Apply(s, Lease(L.Die(p))), s.jobs[p].r.KindOf(e), s.jobs[p].r.want[e].gen)
  {
    hide L.Inv;
    AfterCrash(s, p);
    assert JobInv(s.db, s.jobs[p]);
  }

  /** What a crash loses, exactly.  Of the alerts the process had recorded as sent, those it had not yet mailed
      are never mailed; those it had not recorded are still pending without the mark. */
  lemma CrashLosesExactly(run: seq<State>, i: nat, n: nat, p: nat, e: EventId, sub: Subscriber)
    requires IsRun(run) && i + 1 <= n < |run| && p in run[i].jobs && run[i].jobs[p].InRound()
    requires e in run[i].jobs[p].r.want
    requires Enabled(run[i], Lease(L.Die(p))) && run[i + 1] == Apply(run[i], Lease(L.Die(p)))
    ensures
      var j := run[i].jobs[p];
      var k, gen := j.r.KindOf(e), j.r.want[e].gen;
      && (Recorded(j, e) ==> (Logged(run[n].db.log, k, gen, sub) <==> j.Sending? && (e, sub) in j.done))
      && (!Recorded(j, e) && Pending(run[i + 1], e, gen) ==> !Sent(run[i + 1].db.rows[e], k))
  {
    hide L.Inv, Settled;
    InvHolds(run, i);
    var s, j := run[i], run[i].jobs[p];
    assert JobInv(s.db, j);
    AfterCrash(s, p);
    MailedIsDone(s.db, j, e, sub);
    if Recorded(j, e) {
      CrashSettles(s, p, e);
      SettledForGood(run, i + 1, n, j.r.KindOf(e), j.r.want[e].gen, sub);
    }
  }

  lemma MailedIsDone(db: Db, j: Job, e: EventId, sub: Subscriber)
    requires JobInv(db, j) && j.InRound() && e in j.r.want
    ensures Logged(db.log, j.r.KindOf(e), j.r.want[e].gen, sub) <==> j.Sending? && (e, sub) in j.done
  {
  }
}

/** When digests go out (src/alerts.c). */
module AlertDigests {
  import opened Alerts
  import L = LeaseProtocol

  /** The clock falls on the given day of the Julian calendar of days, which run from noon to noon. */
  predicate OnDay(day: int, clock: int) {
    86400 * (day - 2440587) - 43200 <= clock < 86400 * (day - 2440587) + 43200
  }

  ghost predicate DaysInv(s: State) {
    && (forall i, j | 0 <= i < j < |s.db.digests| :: s.db.digests[i].day < s.db.digests[j].day)
    && (forall i | 0 <= i < |s.db.digests| :: s.db.digests[i].day <= s.db.lastDigest)
    && (forall i | 0 <= i < |s.db.digests| :: OnDay(s.db.digests[i].day, s.db.digests[i].readAt))
    && (forall p | p in s.jobs && (s.jobs[p].DayRead? || s.jobs[p].DigestDue?) ::
          OnDay(s.jobs[p].day, s.jobs[p].readAt))
  }

  lemma DayOfClock(clock: nat)
    ensures OnDay(JulianDay(clock), clock)
  {
  }

  lemma DaysStep(s: State, step: Step)
    requires Inv(s) && DaysInv(s) && Enabled(s, step)
    ensures DaysInv(Apply(s, step))
  {
    hide L.Inv, DbInv, RoundInv, DoneSoFar, Marks, JulianDay, OnDay;
    DayOfClock(s.lease.clock);
    if step.RecordDay? {
      // Nobody else can have recorded a day since this process compared.
      assert JobInv(s.db, s.jobs[step.p]);
    }
  }

  lemma {:induction false} DaysHold(run: seq<State>, i: nat)
    requires IsRun(run) && i < |run|
    ensures DaysInv(run[i])
  {
    hide Inv, DaysInv, Enabled, Apply;
    if i > 0 {
      DaysHold(run, i - 1);
      InvHolds(run, i - 1);
      var step := StepAt(run, i - 1);
      DaysStep(run[i - 1], step);
    } else {
      NoDaysYet(run[0]);
    }
  }

  lemma NoDaysYet(s: State)
    requires Initial(s)
    ensures DaysInv(s)
  {
  }

  /** The clocks at which any two digest rounds of all processes together read the day lie on different days,
      noon to noon, in order, although the day is read, compared and recorded by three statements. */
  lemma OneDigestRoundADay(run: seq<State>, i: nat, j: nat, k: nat)
    requires IsRun(run) && i < |run| && j < k < |run[i].db.digests|
    ensures
      var a, b := run[i].db.digests[j], run[i].db.digests[k];
      && OnDay(a.day, a.readAt) && OnDay(b.day, b.readAt) && a.day < b.day
      && (a.readAt + 43200) / 86400 < (b.readAt + 43200) / 86400
  {
    hide Inv;
    DaysHold(run, i);
    var a, b := run[i].db.digests[j], run[i].db.digests[k];
    assert OnDay(a.day, a.readAt) && OnDay(b.day, b.readAt) && a.day < b.day;
    Quotient(a.readAt + 43200, a.day - 2440587);
    Quotient(b.readAt + 43200, b.day - 2440587);
  }

  lemma Quotient(x: int, q: int)
    requires 86400 * q <= x < 86400 * (q + 1)
    ensures x / 86400 == q
  {
  }

  /** A process that gets as far as looking at the day, and is not disturbed, begins a digest round exactly if the
      clock is on a later day than the one recorded last; that day is recorded. */
  lemma DigestBeginsWhenDue(run: seq<State>, p: nat) returns (longer: seq<State>)
    requires IsRun(run) && var s := run[|run| - 1]; p in s.jobs && s.jobs[p].DigestCheck?
    ensures IsRun(longer) && run <= longer
    ensures
      var s, s' := run[|run| - 1], longer[|longer| - 1];
      && s'.lease == s.lease
      && s'.jobs == s.jobs[p :=
           if s.lease.clock >= 86400 * (s.db.lastDigest - 2440587) + 43200 then Ready(true) else Over]
      && (s'.jobs[p].Ready? ==> OnDay(s'.db.lastDigest, s.lease.clock))
      && s'.db == if s'.jobs[p].Over? then s.db
           else s.db.(lastDigest := s'.db.lastDigest,
                      digests := s.db.digests + [DigestRound(s'.db.lastDigest, s.lease.clock)])
  {
    var s := run[|run| - 1];
    var day := JulianDay(s.lease.clock);
    DayOfClock(s.lease.clock);
    longer := Then(run, ReadDay(p));
    assert longer[|longer| - 1].jobs == s.jobs[p := DayRead(day, s.lease.clock)];
    longer := Then(longer, CompareDay(p));
    if day > s.db.lastDigest {
      assert longer[|longer| - 1].jobs == s.jobs[p := DigestDue(day, s.lease.clock)];
      longer := Then(longer, RecordDay(p));
      assert longer[|longer| - 1].jobs == s.jobs[p := Ready(true)];
    } else {
      assert longer[|longer| - 1].jobs == s.jobs[p := Over];
    }
  }
}

/**
  Any number of processes running backoffice_thread against one lease (src/backoffice.c).
  The clock is read before the transaction opens, so the two are separate steps and the
  timestamp may be stale.  A process may die at any step, pids may be reused, and live
  processes that have nothing to do with the backoffice share the pid space.
  */
module LeaseProtocol {
  import opened Basics
  import opened Leases
  import LeaseText

  datatype Phase =
    | Started                         // about to read the clock
    | Pending(tm: nat)                // read it; the transaction comes next
    | Asleep(deadline: nat)           // on deck; deadline is the tmNext it wrote
    | Awake(deadline: nat, tm: nat)   // on deck, read the clock again
    | Working
  {
    predicate Waits() { Asleep? || Awake? }
    predicate InLoop() { Pending? || Awake? }
  }

  datatype Takeover = Takeover(pid: nat, tm: nat)

  datatype State = State(
    clock: nat,
    live: set<nat>,
    procs: map<nat, Phase>,
    lease: Lease,
    takeovers: seq<Takeover>  // in order, with the tmNow each one recorded
  )

  datatype Step =
    | Tick(d: nat)
    | Spawn(p: nat)                   // some process starts; any free pid
    | Begin(p: nat)                   // a live process calls backoffice_thread
    | ReadClock(p: nat)               // on its first pass, or when its sleep ends
    | RunTransaction(p: nat, noDelay: bool)
    | Finish(p: nat)                  // backoffice_work returns
    | Die(p: nat)                     // exit or crash, in any phase

  predicate Enabled(s: State, step: Step) {
    match step
    case Tick(_) => true
    case Spawn(p) => p > 0 && p !in s.live
    case Begin(p) => p in s.live && p !in s.procs
    case ReadClock(p) => p in s.procs && (s.procs[p].Started? || s.procs[p].Asleep?)
    case RunTransaction(p, _) => p in s.procs && s.procs[p].InLoop()
    case Finish(p) => p in s.procs && s.procs[p].Working?
    case Die(p) => p in s.live
  }

  function Apply(s: State, step: Step): State
    requires Enabled(s, step)
  {
    match step
    case Tick(d) => s.(clock := s.clock + d)
    case Spawn(p) => s.(live := s.live + {p})
    case Begin(p) => s.(procs := s.procs[p := Started])
    case ReadClock(p) =>
      s.(procs := s.procs[p :=
        if s.procs[p].Asleep? then Awake(s.procs[p].deadline, s.clock) else Pending(s.clock)])
    case RunTransaction(p, noDelay) =>
      var (x, outcome) := Transact(s.lease, s.procs[p].tm, p, s.live, noDelay);
      match outcome {
        case Work =>
          s.(lease := x, procs := s.procs[p := Working], takeovers := s.takeovers + [Takeover(p, s.procs[p].tm)])
        case OnDeck =>
          s.(lease := x, procs := s.procs[p := Asleep(x.tmNext)])
        case _ =>
          s.(lease := x, procs := s.procs - {p})
      }
    case Finish(p) => s.(procs := s.procs - {p})
    case Die(p) => s.(live := s.live - {p}, procs := s.procs - {p})
  }

  /** Any lease text, any clock, any live processes, but nobody in backoffice_thread yet. */
  ghost predicate Initial(s: State) {
    s.procs == map[] && 0 !in s.live && s.takeovers == []
  }

  ghost predicate Next(s: State, s': State) {
    exists step | Enabled(s, step) :: s' == Apply(s, step)
  }

  ghost predicate IsRun(run: seq<State>) {
    && |run| > 0
    && Initial(run[0])
    && forall i | 0 <= i < |run| - 1 :: Next(run[i], run[i + 1])
  }

  // ------------------------------------------------- safety, with no timing assumption

  ghost predicate Inv(s: State) {
    && s.procs.Keys <= s.live
    && 0 !in s.live
    && (forall p | p in s.procs && s.procs[p].Working? :: s.lease.idCurrent == p)
    && (forall p | p in s.procs && s.procs[p].InLoop() :: s.procs[p].tm <= s.clock)
    && (s.takeovers != [] ==> s.lease.tmCurrent == s.takeovers[|s.takeovers| - 1].tm + LEASE_TIME)
    && (forall i | 0 < i < |s.takeovers| :: s.takeovers[i - 1].tm + LEASE_TIME < s.takeovers[i].tm)
  }

  lemma TakeoverKeepsInv(s: State, p: nat, noDelay: bool)
    requires Inv(s) && Enabled(s, RunTransaction(p, noDelay))
    requires Transact(s.lease, s.procs[p].tm, p, s.live, noDelay).1 == Work
    ensures Inv(Apply(s, RunTransaction(p, noDelay)))
  {
    // The old holder is not live, hence not in backoffice_thread at all.
    assert forall q | q in s.procs && s.procs[q].Working? :: q in s.live;
  }

  lemma TransactionKeepsInv(s: State, p: nat, noDelay: bool)
    requires Inv(s) && Enabled(s, RunTransaction(p, noDelay))
    ensures Inv(Apply(s, RunTransaction(p, noDelay)))
  {
    if Transact(s.lease, s.procs[p].tm, p, s.live, noDelay).1 == Work {
      TakeoverKeepsInv(s, p, noDelay);
    }
  }

  lemma OtherStepsKeepInv(s: State, step: Step)
    requires Inv(s) && Enabled(s, step) && !step.RunTransaction?
    ensures Inv(Apply(s, step))
  {
  }

  lemma InvStep(s: State, step: Step)
    requires Inv(s) && Enabled(s, step)
    ensures Inv(Apply(s, step))
  {
    hide Inv, Apply, Enabled;
    match step
    case RunTransaction(p, noDelay) => TransactionKeepsInv(s, p, noDelay);
    case _ => OtherStepsKeepInv(s, step);
  }

  lemma {:induction false} InvHolds(run: seq<State>, i: nat)
    requires IsRun(run) && i < |run|
    ensures Inv(run[i])
  {
    if i > 0 {
      InvHolds(run, i - 1);
      assert Next(run[i - 1], run[i]);
      var step :| Enabled(run[i - 1], step) && run[i] == Apply(run[i - 1], step);
      InvStep(run[i - 1], step);
    }
  }

  /** At every moment of every run at most one process works; it is live and holds the lease. */
  lemma MutualExclusion(run: seq<State>, i: nat)
    requires IsRun(run) && i < |run|
    ensures forall p | p in run[i].procs && run[i].procs[p].Working? :: p in run[i].live && run[i].lease.idCurrent == p
    ensures forall p, q |
      p in run[i].procs && q in run[i].procs && run[i].procs[p].Working? && run[i].procs[q].Working? :: p == q
  {
    InvHolds(run, i);
  }

  /** The recorded start times of any two takeovers are more than a lease apart, in order. */
  lemma {:induction false} TakeoverSpacing(run: seq<State>, i: nat, j: nat, k: nat)
    requires IsRun(run) && i < |run| && j < k < |run[i].takeovers|
    ensures run[i].takeovers[j].tm + (k - j) * LEASE_TIME < run[i].takeovers[k].tm
    decreases k
  {
    InvHolds(run, i);
    if j < k - 1 {
      TakeoverSpacing(run, i, j, k - 1);
    }
  }

  // ------------------------------------- at most two, and no overtaking, with punctual waiters

  /** The step is a transaction of some process that read a time past a waiter's deadline, and may work or wait. */
  ghost predicate Displaces(s: State, step: Step)
    requires Enabled(s, step)
  {
    && step.RunTransaction?
    && (exists p | p in s.procs && s.procs[p].Waits() :: p != step.p && s.procs[step.p].tm > s.procs[p].deadline)
    && !(step.noDelay && !(s.lease.tmCurrent < s.procs[step.p].tm && ProcessDone(s.live, s.lease.idCurrent)))
  }

  /** A step that displaces no waiter. */
  ghost predicate CalmNext(s: State, s': State) {
    exists step | Enabled(s, step) && !Displaces(s, step) :: s' == Apply(s, step)
  }

  /** No waiter is displaced in the first n steps. */
  ghost predicate Calm(run: seq<State>, n: nat)
    requires n < |run|
  {
    forall i | 0 <= i < n :: CalmNext(run[i], run[i + 1])
  }

  ghost predicate WaitersAreNext(s: State) {
    forall p | p in s.procs && s.procs[p].Waits() :: s.lease.idNext == p && s.lease.tmNext == s.procs[p].deadline
  }

  lemma WaitersStep(s: State, step: Step)
    requires Inv(s) && WaitersAreNext(s) && Enabled(s, step)
    ensures WaitersAreNext(Apply(s, step)) <==> !Displaces(s, step)
  {
    if Displaces(s, step) {
      var p :| p in s.procs && s.procs[p].Waits() && p != step.p && s.procs[step.p].tm > s.procs[p].deadline;
      var s' := Apply(s, step);
      assert p in s'.procs && s'.procs[p].Waits() && s'.lease.idNext != p;
    }
  }

  /** While no waiter is displaced, every waiter is the lease's next process, and only then. */
  lemma {:induction false} CalmExactly(run: seq<State>, n: nat)
    requires IsRun(run) && n < |run|
    ensures Calm(run, n) <==> forall i | 0 <= i <= n :: WaitersAreNext(run[i])
  {
    hide Inv, Apply, Enabled, Displaces, WaitersAreNext;
    NobodyWaits(run[0]);
    if n > 0 {
      CalmExactly(run, n - 1);
      InvHolds(run, n - 1);
      if WaitersAreNext(run[n - 1]) {
        CalmStep(run[n - 1], run[n]);
      }
      assert Next(run[n - 1], run[n]);
    }
  }

  lemma NobodyWaits(s: State)
    requires Initial(s)
    ensures WaitersAreNext(s)
  {
  }

  lemma CalmStep(s: State, s': State)
    requires Inv(s) && WaitersAreNext(s) && Next(s, s')
    ensures CalmNext(s, s') <==> WaitersAreNext(s')
  {
    hide Inv, Apply, Enabled, Displaces, WaitersAreNext;
    if CalmNext(s, s') {
      var step :| Enabled(s, step) && !Displaces(s, step) && s' == Apply(s, step);
      WaitersStep(s, step);
    } else {
      var step :| Enabled(s, step) && s' == Apply(s, step);
      WaitersStep(s, step);
    }
  }

  /** No waiting process has let the clock pass the deadline it wrote.  Its sleep is meant to end
      59 seconds before that. */
  ghost predicate Punctual(s: State) {
    forall p | p in s.procs && s.procs[p].Waits() :: s.clock <= s.procs[p].deadline
  }

  /** Punctual waiters are never displaced. */
  lemma PunctualIsCalm(run: seq<State>, n: nat)
    requires IsRun(run) && n < |run|
    requires forall i | 0 <= i < n :: Punctual(run[i])
    ensures Calm(run, n)
  {
    forall i | 0 <= i < n ensures CalmNext(run[i], run[i + 1]) {
      InvHolds(run, i);
      assert Next(run[i], run[i + 1]);
      var step :| Enabled(run[i], step) && run[i + 1] == Apply(run[i], step);
      assert Punctual(run[i]);
      assert !Displaces(run[i], step);
    }
  }

  /** The processes that have got past their first transaction and not ended. */
  ghost function Engaged(s: State): set<nat> {
    set p | p in s.procs && (s.procs[p].Waits() || s.procs[p].Working?)
  }

  /** While no waiter is displaced there are at most two: the lease's current process and its next one. */
  lemma AtMostTwo(run: seq<State>, i: nat)
    requires IsRun(run) && i < |run| && Calm(run, i)
    ensures Engaged(run[i]) <= {run[i].lease.idCurrent, run[i].lease.idNext}
    ensures |Engaged(run[i])| <= 2
    ensures forall p, q |
      p in run[i].procs && q in run[i].procs && run[i].procs[p].Waits() && run[i].procs[q].Waits() :: p == q
  {
    InvHolds(run, i);
    CalmExactly(run, i);
    var s := run[i];
    var pair := {s.lease.idCurrent, s.lease.idNext};
    SubsetSize(Engaged(s), pair);
    assert |pair| <= 2;
  }

  /** One step cannot change the current process under a waiter that keeps waiting and is not displaced. */
  lemma CurrentStays(s: State, step: Step, p: nat)
    requires Inv(s) && WaitersAreNext(s) && Enabled(s, step) && !Displaces(s, step)
    requires p in s.procs && s.procs[p].Waits()
    requires var s' := Apply(s, step); p in s'.procs && s'.procs[p].Waits()
    ensures Apply(s, step).lease.idCurrent == s.lease.idCurrent
    ensures Apply(s, step).lease.tmCurrent == s.lease.tmCurrent
    ensures Apply(s, step).takeovers == s.takeovers
  {
  }

  /** From the moment a process is on deck until it stops waiting, nobody else takes over. */
  lemma {:induction false} NoOvertaking(run: seq<State>, p: nat, i: nat, j: nat)
    requires IsRun(run) && i <= j < |run| && Calm(run, j)
    requires forall k | i <= k <= j :: p in run[k].procs && run[k].procs[p].Waits()
    ensures run[j].lease.idCurrent == run[i].lease.idCurrent
    ensures run[j].lease.tmCurrent == run[i].lease.tmCurrent
    ensures run[j].takeovers == run[i].takeovers
    ensures run[j].lease.idNext == p
    decreases j
  {
    hide Inv, Apply, Enabled, Displaces;
    CalmExactly(run, j);
    assert WaitersAreNext(run[j]);
    if i < j {
      NoOvertaking(run, p, i, j - 1);
      InvHolds(run, j - 1);
      assert WaitersAreNext(run[j - 1]);
      assert CalmNext(run[j - 1], run[j]);
      var step :| Enabled(run[j - 1], step) && !Displaces(run[j - 1], step) && run[j] == Apply(run[j - 1], step);
      CurrentStays(run[j - 1], step, p);
    }
  }

  /** What a waiter's next transaction does, judged by the lease as it was when it went on deck:
      it takes over exactly when it reads a time past tmCurrent and the process that was current
      then is gone.  (A waiter whose own pid is the dead holder's pid, reused, is never "gone".) */
  lemma TakesOverWhenHolderGone(run: seq<State>, p: nat, i: nat, j: nat, noDelay: bool)
    requires IsRun(run) && i <= j < |run| && Calm(run, j)
    requires forall k | i <= k <= j :: p in run[k].procs && run[k].procs[p].Waits()
    requires run[j].procs[p].Awake?
    ensures
      var was, now := run[i].lease, Apply(run[j], RunTransaction(p, noDelay));
      (p in now.procs && now.procs[p].Working?) <==>
        run[j].procs[p].tm > was.tmCurrent && ProcessDone(run[j].live, was.idCurrent)
  {
    NoOvertaking(run, p, i, j);
  }

  /** Exactly when another process's transaction leaves a waiter alone: that process read a time
      no later than the waiter's deadline, or it may neither work nor wait. */
  lemma DisplacedExactly(s: State, p: nat, q: nat, noDelay: bool)
    requires Inv(s) && WaitersAreNext(s)
    requires p in s.procs && s.procs[p].Waits() && q in s.procs && s.procs[q].InLoop() && p != q
    ensures
      var x, tm := s.lease, s.procs[q].tm;
      Apply(s, RunTransaction(q, noDelay)).lease == x <==>
        || tm <= s.procs[p].deadline
        || (noDelay && !(x.tmCurrent < tm && ProcessDone(s.live, x.idCurrent)))
  {
  }

  // ---------------------------------------------------- when a process is let in

  /** The step as seen in a run: what becomes of process q at its transaction, exactly.  It works if no other live
      process has an unexpired claim and the holder's lease is over and the holder gone; it goes on deck if the
      first holds and the second does not; otherwise it is turned away. */
  lemma LetInExactly(run: seq<State>, i: nat, q: nat, noDelay: bool)
    requires IsRun(run) && i < |run| && Enabled(run[i], RunTransaction(q, noDelay))
    ensures
      var s, s' := run[i], Apply(run[i], RunTransaction(q, noDelay));
      var x, tm := s.lease, s.procs[q].tm;
      var stopped := x.idNext in s.live && x.idNext != q && x.tmNext >= tm;
      var over := tm > x.tmCurrent && x.idCurrent !in s.live;
      && (q in s'.procs && s'.procs[q].Working? <==> !stopped && over)
      && (q in s'.procs && s'.procs[q].Waits() <==> !stopped && !over && !noDelay)
      && (q !in s'.procs <==> stopped || (!over && noDelay))
  {
    InvHolds(run, i);
    TransactExactly(run[i].lease, run[i].procs[q].tm, q, run[i].live, noDelay);
  }

  /** So a crash never stalls the backoffice: if the holder and the process on deck are gone and the lease has run
      out, any live process that starts now gets to work. */
  lemma CrashedOnesGiveWay(run: seq<State>, p: nat, noDelay: bool) returns (longer: seq<State>)
    requires IsRun(run)
    requires var s := run[|run| - 1];
      && p in s.live && p !in s.procs
      && s.clock > s.lease.tmCurrent && s.lease.idCurrent !in s.live && s.lease.idNext !in s.live
    ensures IsRun(longer) && run <= longer && |longer| == |run| + 3
    ensures var s, s' := run[|run| - 1], longer[|longer| - 1];
      && s'.procs == s.procs[p := Working] && s'.live == s.live && s'.clock == s.clock
      && s'.lease.idCurrent == p && s'.lease.tmCurrent == s.clock + 60
      && s'.takeovers == s.takeovers + [Takeover(p, s.clock)]
  {
    longer := FirstPass(run, p, noDelay);
    var s := run[|run| - 1];
    TransactExactly(s.lease, s.clock, p, s.live, noDelay);
    assert s.procs[p := Pending(s.clock)][p := Working] == s.procs[p := Working];
  }

  lemma DiesIfAlive(run: seq<State>, p: nat) returns (longer: seq<State>)
    requires IsRun(run)
    ensures IsRun(longer) && run <= longer
    ensures var s, s' := run[|run| - 1], longer[|longer| - 1];
      s'.live == s.live - {p} && s'.lease == s.lease && s'.clock == s.clock && s'.procs == s.procs - {p}
  {
    var s := run[|run| - 1];
    InvHolds(run, |run| - 1);
    if p in s.live {
      Extend(run, Die(p));
      longer := run + [Apply(s, Die(p))];
    } else {
      longer := run;
      assert s.live - {p} == s.live && s.procs - {p} == s.procs;
    }
  }

  /** There is no state a run can get stuck in: whatever has happened, once the processes named in the lease are gone
      and time has passed, a process that starts anew gets to work. */
  lemma AlwaysRecovers(run: seq<State>, q: nat, noDelay: bool) returns (longer: seq<State>)
    requires IsRun(run)
    requires var s := run[|run| - 1]; q > 0 && q !in s.live && q != s.lease.idCurrent && q != s.lease.idNext
    ensures IsRun(longer) && run <= longer
    ensures var s' := longer[|longer| - 1];
      q in s'.live && q in s'.procs && s'.procs[q].Working? && s'.lease.idCurrent == q
  {
    var x := run[|run| - 1].lease;
    longer := DiesIfAlive(run, x.idCurrent);
    longer := DiesIfAlive(longer, x.idNext);
    var s := longer[|longer| - 1];
    InvHolds(longer, |longer| - 1);
    Extend(longer, Tick(x.tmCurrent + 1));
    var s1 := Apply(s, Tick(x.tmCurrent + 1));
    Extend(longer + [s1], Spawn(q));
    longer := longer + [s1] + [Apply(s1, Spawn(q))];
    longer := CrashedOnesGiveWay(longer, q, noDelay);
  }

  /** And a process on deck that nobody has displaced takes over at its first look after the lease has run out and
      its holder is gone; when it has worked, it can come again. */
  lemma WaiterTakesOver(run: seq<State>, p: nat, noDelay: bool) returns (longer: seq<State>)
    requires IsRun(run) && Calm(run, |run| - 1)
    requires var s := run[|run| - 1];
      && p in s.procs && s.procs[p].Asleep?
      && s.clock > s.lease.tmCurrent && s.lease.idCurrent !in s.live
    ensures IsRun(longer) && run <= longer && |longer| == |run| + 4
    ensures
      var s, now, back := run[|run| - 1], longer[|run| + 1], longer[|run| + 3];
      && now.procs == s.procs[p := Working]
      && now.lease.idCurrent == p && now.lease.tmCurrent == s.clock + 60
      && back.procs == s.procs[p := Started] && back.lease == now.lease
  {
    var s := run[|run| - 1];
    CalmExactly(run, |run| - 1);
    InvHolds(run, |run| - 1);
    assert WaitersAreNext(s);
    Extend(run, ReadClock(p));
    var s1 := Apply(s, ReadClock(p));
    TransactExactly(s1.lease, s.clock, p, s.live, noDelay);
    Extend(run + [s1], RunTransaction(p, noDelay));
    var s2 := Apply(s1, RunTransaction(p, noDelay));
    assert s2.procs == s.procs[p := Working];
    Extend(run + [s1] + [s2], Finish(p));
    var s3 := Apply(s2, Finish(p));
    Extend(run + [s1] + [s2] + [s3], Begin(p));
    longer := run + [s1] + [s2] + [s3] + [Apply(s3, Begin(p))];
    assert longer[|run| + 3].procs == s.procs[p := Started];
  }

  lemma Extend(run: seq<State>, step: Step)
    requires IsRun(run) && Enabled(run[|run| - 1], step)
    ensures IsRun(run + [Apply(run[|run| - 1], step)])
  {
    var longer := run + [Apply(run[|run| - 1], step)];
    forall i | 0 <= i < |longer| - 1 ensures Next(longer[i], longer[i + 1]) {
      if i < |run| - 1 {
        assert Next(run[i], run[i + 1]);
      }
    }
  }

  /** Process p, live and new to the backoffice, runs its first transaction at the current time. */
  lemma FirstPass(run: seq<State>, p: nat, noDelay: bool) returns (longer: seq<State>)
    requires IsRun(run)
    requires var s := run[|run| - 1]; p in s.live && p !in s.procs
    ensures IsRun(longer) && run <= longer && |longer| == |run| + 3
    ensures
      var s := run[|run| - 1];
      var pending := s.(procs := s.procs[p := Pending(s.clock)]);
      longer[|longer| - 1] == Apply(pending, RunTransaction(p, noDelay))
  {
    var s := run[|run| - 1];
    Extend(run, Begin(p));
    var s1 := Apply(s, Begin(p));
    Extend(run + [s1], ReadClock(p));
    var s2 := Apply(s1, ReadClock(p));
    assert s2 == s.(procs := s.procs[p := Pending(s.clock)]);
    Extend(run + [s1] + [s2], RunTransaction(p, noDelay));
    longer := run + [s1] + [s2] + [Apply(s2, RunTransaction(p, noDelay))];
  }

  /** The header comment promises two processes "at any point in time".  If a waiter oversleeps its
      deadline there can be three: one working and two on deck. */
  lemma ThreeWithoutPunctuality() returns (run: seq<State>)
    ensures IsRun(run)
    ensures var s := run[|run| - 1];
      Engaged(s) == {1, 2, 3} && s.procs[1].Working? && s.procs[2].Waits() && s.procs[3].Waits()
  {
    var s := State(1000, {1, 2, 3}, map[], Lease(0, 0, 0, 0), []);
    run := [s];
    run := FirstPass(run, 1, false);
    s := State(1000, {1, 2, 3}, map[1 := Working], Lease(1, 1060, 0, 0), [Takeover(1, 1000)]);
    assert run[|run| - 1] == s;
    run := FirstPass(run, 2, false);
    s := s.(procs := map[1 := Working, 2 := Asleep(1120)], lease := Lease(1, 1060, 2, 1120));
    assert run[|run| - 1] == s;
    Extend(run, Tick(121));
    s := s.(clock := 1121);
    run := run + [s];
    run := FirstPass(run, 3, false);
    s := s.(procs := map[1 := Working, 2 := Asleep(1120), 3 := Asleep(1181)], lease := Lease(1, 1060, 3, 1181));
    assert run[|run| - 1] == s;
    assert Engaged(s) == {1, 2, 3};
  }

  // --------------------------------------------------- the stored text is faithful

  ghost predicate Bounded(s: State) {
    && s.lease.tmCurrent <= s.clock + LEASE_TIME
    && s.lease.tmNext <= s.clock + 2 * LEASE_TIME
  }

  ghost predicate SmallPids(s: State) {
    forall p | p in s.live :: p < LeaseText.TWO63
  }

  lemma {:induction false} BoundedHolds(run: seq<State>, i: nat)
    requires IsRun(run) && i < |run| && run[0].lease == Lease(0, 0, 0, 0)
    requires forall j | 0 <= j < i :: SmallPids(run[j])
    ensures Bounded(run[i]) && run[i].lease.idCurrent < LeaseText.TWO63 && run[i].lease.idNext < LeaseText.TWO63
  {
    if i > 0 {
      BoundedHolds(run, i - 1);
      InvHolds(run, i - 1);
      assert Next(run[i - 1], run[i]);
      var step :| Enabled(run[i - 1], step) && run[i] == Apply(run[i - 1], step);
    }
  }

  /** On a repository whose lease started out empty, the text in the config table always reads back
      as the lease that was written, as long as the clock and the pids stay in 63 bits. */
  lemma TextIsFaithful(run: seq<State>, i: nat)
    requires IsRun(run) && i < |run| && run[0].lease == Lease(0, 0, 0, 0)
    requires forall j | 0 <= j < i :: SmallPids(run[j])
    requires run[i].clock + 2 * LEASE_TIME < LeaseText.TWO63
    ensures LeaseText.Is64Bit(run[i].lease)
    ensures LeaseText.Parsed(Some(LeaseText.Formatted(run[i].lease))) == run[i].lease
  {
    BoundedHolds(run, i);
    LeaseText.LeaseRoundTrip(run[i].lease);
  }
}

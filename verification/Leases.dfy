/** The backoffice lease and the decision taken inside one write transaction (src/backoffice.c). */
module Leases {
  const LEASE_TIME: nat := 60

  datatype Lease = Lease(idCurrent: nat, tmCurrent: nat, idNext: nat, tmNext: nat)

  datatype Outcome = NotNeeded | Work | NoDelayExit | OnDeck

  /** backofficeProcessExists, given the set of live process ids. */
  predicate ProcessExists(live: set<nat>, pid: nat) {
    pid > 0 && pid in live
  }

  /** backofficeProcessDone */
  predicate ProcessDone(live: set<nat>, pid: nat) {
    pid <= 0 || pid !in live
  }

  function Max(a: nat, b: nat): nat {
    if a > b then a else b
  }

  /** One pass through the loop of backoffice_thread by process `self`, which read the clock as
      tmNow: the lease it leaves behind and what it does next.  The lease is written only for
      Work and OnDeck. */
  function Transact(x: Lease, tmNow: nat, self: nat, live: set<nat>, noDelay: bool): (Lease, Outcome) {
    if x.tmNext >= tmNow && x.idNext != self && ProcessExists(live, x.idNext) then
      (x, NotNeeded)
    else if x.tmCurrent < tmNow && ProcessDone(live, x.idCurrent) then
      (Lease(self, tmNow + LEASE_TIME, 0, 0), Work)
    else if noDelay then
      (x, NoDelayExit)
    else
      (x.(idNext := self, tmNext := Max(tmNow, x.tmCurrent) + LEASE_TIME), OnDeck)
  }

  /** backoffice_check_if_needed: whether a process should be started at all. */
  predicate CheckIfNeeded(x: Lease, tmNow: nat, live: set<nat>) {
    !(x.tmNext >= tmNow && ProcessExists(live, x.idNext))
  }

  /** Another live process has claimed the next turn, and its claim has not lapsed at tmNow. */
  ghost predicate Claimed(x: Lease, tmNow: nat, self: nat, live: set<nat>) {
    x.idNext in live && x.idNext > 0 && x.idNext != self && x.tmNext >= tmNow
  }

  /** The current lease has run out at tmNow, and nobody with the pid of its holder lives. */
  ghost predicate Free(x: Lease, tmNow: nat, live: set<nat>) {
    tmNow > x.tmCurrent && !(x.idCurrent in live && x.idCurrent > 0)
  }

  /** What a transaction does, exactly, by which processes live: a dead claimant never stops anybody, a dead holder
      no longer than to the end of its lease, and whoever is not stopped works or goes on deck at once. */
  lemma TransactExactly(x: Lease, tmNow: nat, self: nat, live: set<nat>, noDelay: bool)
    ensures
      var (y, outcome) := Transact(x, tmNow, self, live, noDelay);
      && (outcome == NotNeeded <==> Claimed(x, tmNow, self, live))
      && (outcome == Work <==> !Claimed(x, tmNow, self, live) && Free(x, tmNow, live))
      && (outcome == NoDelayExit || outcome == OnDeck <==> !Claimed(x, tmNow, self, live) && !Free(x, tmNow, live))
      && (outcome == NoDelayExit ==> noDelay) && (outcome == OnDeck ==> !noDelay)
      && (outcome == NotNeeded || outcome == NoDelayExit ==> y == x)
      && (outcome == Work ==> y.idCurrent == self && y.tmCurrent == tmNow + 60 && y.idNext == y.tmNext == 0)
      && (outcome == OnDeck ==> y.idCurrent == x.idCurrent && y.tmCurrent == x.tmCurrent && y.idNext == self)
      && (outcome == OnDeck ==> y.tmNext == (if tmNow > x.tmCurrent then tmNow else x.tmCurrent) + 60)
  {
  }

  /** The check before a process is started says no exactly if a live process has a claim that has not lapsed. */
  lemma CheckExactly(x: Lease, tmNow: nat, live: set<nat>)
    ensures CheckIfNeeded(x, tmNow, live) <==> !(x.idNext in live && x.idNext > 0 && x.tmNext >= tmNow)
  {
  }

  /** The cheap check never turns away a process the transaction would have let work or wait. */
  lemma CheckAgreesWithTransaction(x: Lease, tmNow: nat, self: nat, live: set<nat>, noDelay: bool)
    requires self != x.idNext
    ensures CheckIfNeeded(x, tmNow, live) <==> Transact(x, tmNow, self, live, noDelay).1 != NotNeeded
  {
  }

  /** When a process that has just gone on deck means to look again. */
  function WakeTime(x: Lease, tmNow: nat): nat {
    if x.tmCurrent >= tmNow then x.tmCurrent + 1 else tmNow + 1
  }

  /** A process that goes on deck sleeps past the end of the current lease, and then still has 59 seconds to run
      its transaction before its own claim lapses.  It leaves the current holder as it was. */
  lemma OnDeckHasSlack(x: Lease, tmNow: nat, self: nat, live: set<nat>, noDelay: bool)
    ensures
      var (y, outcome) := Transact(x, tmNow, self, live, noDelay);
      outcome == OnDeck ==>
        && y.idNext == self && y.idCurrent == x.idCurrent && y.tmCurrent == x.tmCurrent
        && WakeTime(y, tmNow) > y.tmCurrent
        && y.tmNext == WakeTime(y, tmNow) + 59
  {
  }
}

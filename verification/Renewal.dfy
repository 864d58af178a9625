/** Renewal warnings at the end of alert_send_alerts (src/alerts.c).  Days count from 1970. */
module Renewal {
  import opened Basics

  const FREQUENCY: int := 7      // ALERT_RENEWAL_MSG_FREQUENCY
  const MIN_INTERVAL: int := 14

  /** email-renew-warning and email-renew-cutoff; 0 when unset. */
  datatype Config = Config(warning: int, cutoff: int)

  /** Subscribers last heard from on a day in (lo, hi] get a warning. */
  datatype Window = Window(lo: int, hi: int) {
    predicate Covers(day: int) { lo < day <= hi }
  }

  /** How far a round gets: warnings go out before anything is recorded, and the two values are
      recorded by two statements. */
  datatype Ending = Complete | CrashBeforeRecording | CrashAfterCutoff

  datatype Round = Round(time: nat, interval: int, ending: Ending) {
    function Today(): int { time / 86400 }
    function NewWarning(): int { Today() - interval + FREQUENCY }
  }

  /** The window a round mails to, if it mails at all. */
  function Due(c: Config, r: Round): Option<Window> {
    if r.interval >= MIN_INTERVAL && r.NewWarning() >= c.warning + FREQUENCY then
      Some(Window(c.warning, r.NewWarning()))
    else
      None
  }

  function Record(c: Config, w: Window, ending: Ending): Config {
    if ending.CrashBeforeRecording? then c
    else
      var d := if c.warning > 0 then c.(cutoff := c.warning) else c;
      if ending.CrashAfterCutoff? then d else d.(warning := w.hi)
  }

  function After(c: Config, r: Round): Config {
    match Due(c, r)
    case None => c
    case Some(w) => Record(c, w, r.ending)
  }

  // ------------------------------------------------------------------ one round

  datatype Subscriber = Subscriber(lastContact: int, doNotCall: bool, digestSet: bool)

  predicate Warns(w: Window, s: Subscriber) {
    w.Covers(s.lastContact) && !s.doNotCall && s.digestSet
  }

  class Settings {
    var warning: int
    var cutoff: int

    ghost function Model(): Config
      reads this
    {
      Config(warning, cutoff)
    }

    /** Returns the positions of the subscribers warned, in table order. */
    method SendWarnings(time: nat, interval: int, subscribers: seq<Subscriber>) returns (sent: seq<nat>)
      modifies this
      ensures Model() == After(old(Model()), Round(time, interval, Complete))
      ensures forall k | k in sent :: k < |subscribers|
      ensures forall i, j | 0 <= i < j < |sent| :: sent[i] < sent[j]
      ensures forall k | 0 <= k < |subscribers| :: k in sent <==>
        var s := subscribers[k];
        && interval >= 14 && time / 86400 - interval >= old(warning)
        && s.lastContact > old(warning) && s.lastContact + interval <= time / 86400 + 7
        && !s.doNotCall && s.digestSet
    {
      sent := [];
      if interval >= MIN_INTERVAL {
        var now := time / 86400;
        var oldWarn := warning;
        var newWarn := now - interval + FREQUENCY;
        if newWarn >= oldWarn + FREQUENCY {
          var i := 0;
          while i < |subscribers|
            invariant 0 <= i <= |subscribers| && unchanged(this)
            invariant forall j | 0 <= j < |sent| :: sent[j] < i
            invariant forall j, k | 0 <= j < k < |sent| :: sent[j] < sent[k]
            invariant forall k | 0 <= k < i :: k in sent <==> Warns(Window(oldWarn, newWarn), subscribers[k])
          {
            var s := subscribers[i];
            if s.lastContact <= newWarn && s.lastContact > oldWarn && !s.doNotCall && s.digestSet {
              sent := sent + [i];
            }
            i := i + 1;
          }
          if oldWarn > 0 {
            cutoff := oldWarn;
          }
          warning := newWarn;
        }
      }
    }
  }

  // --------------------------------------------------------------- whole histories

  /** The settings after the first rounds, starting with nothing recorded. */
  function Run(rounds: seq<Round>): Config {
    if rounds == [] then Config(0, 0) else After(Run(rounds[..|rounds| - 1]), rounds[|rounds| - 1])
  }

  /** The window round i mails to. */
  function Mailed(rounds: seq<Round>, i: nat): Option<Window>
    requires i < |rounds|
  {
    Due(Run(rounds[..i]), rounds[i])
  }

  lemma {:induction false} WarningGrows(rounds: seq<Round>, i: nat)
    requires i <= |rounds|
    ensures Run(rounds[..i]).warning <= Run(rounds).warning
    decreases |rounds|
  {
    if i < |rounds| {
      var pre := rounds[..|rounds| - 1];
      WarningGrows(pre, i);
      assert pre[..i] == rounds[..i];
    } else {
      assert rounds[..i] == rounds;
    }
  }

  /** A later round mails a day again only if the earlier one crashed before recording its window:
      windows of recorded rounds are disjoint and in order, whatever the clock does. */
  lemma RecordedOnce(rounds: seq<Round>, i: nat, j: nat)
    requires i < j < |rounds| && Mailed(rounds, i).Some? && Mailed(rounds, j).Some?
    requires rounds[i].ending == Complete
    ensures Mailed(rounds, i).value.hi <= Mailed(rounds, j).value.lo
    ensures forall day :: !(Mailed(rounds, i).value.Covers(day) && Mailed(rounds, j).value.Covers(day))
  {
    var upto := rounds[..j];
    WarningGrows(upto, i + 1);
    assert upto[..i + 1] == rounds[..i + 1];
    assert rounds[..i + 1][..i] == rounds[..i];
  }

  /** Of two successive mailing rounds, the second starts exactly where the first ended if the first
      was recorded, and otherwise mails its days again. */
  lemma {:induction false} SuccessiveWindows(rounds: seq<Round>, i: nat, j: nat)
    requires i < j < |rounds| && Mailed(rounds, i).Some? && Mailed(rounds, j).Some?
    requires forall k | i < k < j :: Mailed(rounds, k).None?
    ensures
      var first, second := Mailed(rounds, i).value, Mailed(rounds, j).value;
      && second.lo == (if rounds[i].ending == Complete then first.hi else first.lo)
      && ((exists day :: first.Covers(day) && second.Covers(day)) <==> rounds[i].ending != Complete)
  {
    QuietRounds(rounds, i + 1, j);
    assert rounds[..i + 1][..i] == rounds[..i];
    var first, second := Mailed(rounds, i).value, Mailed(rounds, j).value;
    assert first.Covers(first.lo + 1);
  }

  lemma {:induction false} QuietRounds(rounds: seq<Round>, i: nat, j: nat)
    requires i <= j <= |rounds| && forall k | i <= k < j :: Mailed(rounds, k).None?
    ensures Run(rounds[..j]) == Run(rounds[..i])
    decreases j
  {
    if i < j {
      QuietRounds(rounds, i, j - 1);
      assert rounds[..j][..j - 1] == rounds[..j - 1];
      assert Mailed(rounds, j - 1).None?;
    }
  }

  /** A round mails if the interval is two weeks or more and the mark has fallen behind by a week; it then covers the
      days above the mark from which the interval has run out or will within a week, and no others. */
  lemma WindowExactly(rounds: seq<Round>, i: nat)
    requires i < |rounds|
    ensures
      var mark, r := Run(rounds[..i]).warning, rounds[i];
      && (Mailed(rounds, i).Some? <==> r.interval >= 14 && r.time / 86400 - r.interval >= mark)
      && (Mailed(rounds, i).Some? ==> forall day ::
            Mailed(rounds, i).value.Covers(day) <==> mark < day && day + r.interval <= r.time / 86400 + 7)
  {
    hide Run;
  }

  /** Nobody heard from in the last week is warned. */
  lemma WarnedDaysAreOld(rounds: seq<Round>, i: nat, day: int)
    requires i < |rounds| && Mailed(rounds, i).Some? && Mailed(rounds, i).value.Covers(day)
    ensures day + 7 <= rounds[i].Today()
  {
  }

  /** The last round that changed a setting stopped between recording the two. */
  predicate Stopped(rounds: seq<Round>) {
    rounds != [] &&
    var pre, last := rounds[..|rounds| - 1], rounds[|rounds| - 1];
    if Due(Run(pre), last).None? || last.ending.CrashBeforeRecording? then Stopped(pre)
    else last.ending.CrashAfterCutoff? && (Run(pre).warning > 0 || Stopped(pre))
  }

  /** The cutoff never passes the warning mark; once set, it trails it by a week or more, exactly unless the
      last round that changed a setting stopped between recording the two. */
  lemma {:induction false} CutoffTrails(rounds: seq<Round>)
    ensures 0 <= Run(rounds).cutoff <= Run(rounds).warning
    ensures Run(rounds).cutoff == 0 || Run(rounds).cutoff + FREQUENCY <= Run(rounds).warning <==> !Stopped(rounds)
  {
    if rounds != [] {
      CutoffTrails(rounds[..|rounds| - 1]);
    }
  }

  /** A history that stops there: the second round records its cutoff only, and that is the old warning mark. */
  lemma CutoffCatchesUp()
    ensures var rounds := [Round(100 * 86400, 14, Complete), Round(200 * 86400, 14, CrashAfterCutoff)];
      Run(rounds) == Config(93, 93) && Stopped(rounds)
  {
    var r1, r2 := Round(100 * 86400, 14, Complete), Round(200 * 86400, 14, CrashAfterCutoff);
    assert [r1, r2][..1] == [r1] && [r1][..0] == [];
    assert Run([]) == Config(0, 0);
    assert Run([r1]) == Config(93, 0);
  }

  /** Every day up to the warning mark was mailed to by a recorded round ... */
  lemma {:induction false} UpToWarningMailed(rounds: seq<Round>, day: int) returns (i: nat)
    requires 0 < day <= Run(rounds).warning
    ensures i < |rounds| && rounds[i].ending == Complete
    ensures Mailed(rounds, i).Some? && Mailed(rounds, i).value.Covers(day)
    decreases |rounds|
  {
    var n := |rounds| - 1;
    var pre := rounds[..n];
    if day <= Run(pre).warning {
      i := UpToWarningMailed(pre, day);
      assert pre[..i] == rounds[..i];
    } else {
      i := n;
    }
  }

  /** ... and every day up to the cutoff was mailed to before the round that set the cutoff there: nobody
      is cut off without a warning in an earlier round. */
  lemma {:induction false} CutOffDaysWereWarned(rounds: seq<Round>, day: int) returns (i: nat, j: nat)
    requires 0 < day <= Run(rounds).cutoff
    ensures i < j < |rounds| && rounds[i].ending == Complete
    ensures Mailed(rounds, i).Some? && Mailed(rounds, i).value.Covers(day)
    ensures Run(rounds[..j + 1]).cutoff == Run(rounds).cutoff && Run(rounds[..j]).cutoff != Run(rounds).cutoff
    decreases |rounds|
  {
    var n := |rounds| - 1;
    var pre := rounds[..n];
    if Run(pre).cutoff == Run(rounds).cutoff {
      i, j := CutOffDaysWereWarned(pre, day);
      assert pre[..i] == rounds[..i] && pre[..j + 1] == rounds[..j + 1] && pre[..j] == rounds[..j];
    } else {
      j := n;
      assert rounds[..n + 1] == rounds;
      i := UpToWarningMailed(pre, day);
      assert pre[..i] == rounds[..i];
    }
  }

  /** Round i mailed to the day and was recorded. */
  predicate RecordedMail(rounds: seq<Round>, i: nat, day: int)
    requires i < |rounds|
  {
    rounds[i].ending == Complete && Mailed(rounds, i).Some? && Mailed(rounds, i).value.Covers(day)
  }

  /** After a complete round that mailed, once there was a mark before it: the positive days cut off are exactly
      those that recorded rounds before it mailed to. */
  lemma CutOffExactly(rounds: seq<Round>, day: int)
    requires rounds != [] && day > 0
    requires var n := |rounds| - 1;
      rounds[n].ending == Complete && Mailed(rounds, n).Some? && Run(rounds[..n]).warning > 0
    ensures day <= Run(rounds).cutoff <==>
      exists i | 0 <= i < |rounds| - 1 :: RecordedMail(rounds, i, day)
  {
    var n := |rounds| - 1;
    var pre := rounds[..n];
    assert Run(rounds).cutoff == Run(pre).warning;
    if day <= Run(rounds).cutoff {
      var i := UpToWarningMailed(pre, day);
      assert pre[..i] == rounds[..i];
      assert RecordedMail(rounds, i, day);
    }
    if i :| 0 <= i < n && RecordedMail(rounds, i, day) {
      WarningGrows(pre, i + 1);
      assert pre[..i + 1] == rounds[..i + 1] && rounds[..i + 1][..i] == rounds[..i];
    }
  }
}

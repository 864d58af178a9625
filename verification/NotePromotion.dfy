/** How far a note is promoted over a run (src/ai.c). */
module NotePromotion {
  import opened Notes

  // ------------------------------------------------------------- every note, every run

  lemma TargetTierGrows(tier: int, retrievals: int, heat: real, isDuplicate: bool, atomicity: Atomicity)
    ensures TargetTier(tier, retrievals, heat, isDuplicate, atomicity) >= tier
    ensures isDuplicate ==> TargetTier(tier, retrievals, heat, isDuplicate, atomicity) == tier
    ensures atomicity == NeedsSplit && tier <= 1 ==> TargetTier(tier, retrievals, heat, isDuplicate, atomicity) <= 1
  {
  }

  /** No operation lowers a note's tier. */
  lemma TierNeverFalls(ops: seq<Op>, op: Op, n: nat)
    requires n in Run(ops).notes
    ensures n in Apply(Run(ops), op).notes
    ensures Apply(Run(ops), op).notes[n].tier >= Run(ops).notes[n].tier
  {
    hide Run;
    ForestHolds(ops);
    var x := Run(ops).notes[n];
    TargetTierGrows(x.tier, x.retrievals, x.heat, IsDuplicate(Run(ops).notes, n), x.body.atomicity);
  }

  /** In every run tiers stay between 0 and 3. */
  lemma {:induction false} TiersInRange(ops: seq<Op>, n: nat)
    requires n in Run(ops).notes
    ensures 0 <= Run(ops).notes[n].tier <= 3
  {
    hide Apply, TargetTier;
    if ops != [] {
      var pre, op := ops[..|ops| - 1], ops[|ops| - 1];
      if n in Run(pre).notes {
        TiersInRange(pre, n);
      }
      TierInRangeStep(Run(pre), op, n);
    }
  }

  lemma TierInRangeStep(s: Store, op: Op, n: nat)
    requires n in s.notes ==> 0 <= s.notes[n].tier <= 3
    ensures n in Apply(s, op).notes ==> 0 <= Apply(s, op).notes[n].tier <= 3
  {
    hide ProcessLevel, IsGeneric;
  }

  /** The note has a twin that was there before it. */
  ghost predicate HasEarlierTwin(notes: map<nat, Note>, n: nat) {
    exists m | m in notes && n in notes :: m < n && notes[n].hash != "" && notes[m].hash == notes[n].hash
  }

  /** What a review does to the tier of a note, exactly, by its count, its heat, its atomicity and its twins. */
  lemma RaisesExactly(ops: seq<Op>, qid: int, n: nat)
    requires qid > 0 && RecordedFor(ops, qid, n) && n in Run(ops).notes
    ensures
      var notes := Run(ops).notes;
      var x, y, alone := notes[n], Review(Run(ops), qid).notes[n], !HasEarlierTwin(notes, n);
      && 0 <= x.tier <= y.tier <= 3
      && (y.tier >= 1 <==> x.tier >= 1 || (alone && x.retrievals >= 2))
      && (y.tier >= 2 <==>
            x.tier >= 2 || (alone && x.retrievals >= 4 && x.heat >= 1.60 && x.body.atomicity != NeedsSplit))
      && (y.tier >= 3 <==>
            x.tier >= 3 || (alone && x.retrievals >= 7 && x.heat >= 2.60 && x.body.atomicity == Fine))
  {
    hide Run, ProcessLevel, IsGeneric, RecordedFor, HitNotes;
    CoveredExactly(ops, qid, n);
    TiersInRange(ops, n);
    assert IsDuplicate(Run(ops).notes, n) <==> HasEarlierTwin(Run(ops).notes, n);
  }

  /** After a review each note it covers carries the label of its tier, has metadata, and has an artifact status if
      it was promoted and has an artifact or reached tier 2; an existing status stays. */
  lemma LabelMatchesTier(ops: seq<Op>, qid: int, n: nat)
    requires qid > 0 && RecordedFor(ops, qid, n) && n in Run(ops).notes
    ensures
      var x, y := Run(ops).notes[n], Review(Run(ops), qid).notes[n];
      && 0 <= y.tier <= 3 && y.process == ["raw", "grouped", "curated", "atomic"][y.tier] && y.metadata != ""
      && y.artifactStatus ==
           if y.tier == x.tier || x.artifactStatus != "" then x.artifactStatus
           else if x.artifact then "materialized"
           else if y.tier >= 2 then "draft"
           else ""
  {
    hide Run, IsGeneric, RecordedFor, HitNotes;
    CoveredExactly(ops, qid, n);
    RaisesExactly(ops, qid, n);
  }

  // ------------------------------------------------------------- the intended life of a note

  /** The tier that belongs to a retrieval count, by the note's atomicity. */
  function TierFor(k: nat, a: Atomicity): int {
    if k < 2 then 0
    else if k < 4 || a == NeedsSplit then 1
    else if k < 7 || a == Thin then 2
    else 3
  }

  /** The heat a note has after k retrievals recorded with the weight of its tier. */
  function HeatAfter(k: nat, a: Atomicity): real {
    if k == 0 then 1.0 else HeatAfter(k - 1, a) + 0.15 + TierWeight(TierFor(k - 1, a))
  }

  /** A fine note's heat at the counts where it matters, and from then on. */
  lemma {:induction false} HeatAfterMany(k: nat)
    requires k >= 7
    ensures HeatAfter(k, Fine) == 2.85 + 0.5 * (k - 7) as real
  {
    if k == 7 {
      HeatAfterFew(Fine);
    } else {
      HeatAfterMany(k - 1);
      assert ((k - 1) - 7) as real == (k - 7) as real - 1.0;
    }
  }

  lemma HeatAfterFew(a: Atomicity)
    ensures HeatAfter(1, a) == 1.15 && HeatAfter(2, a) == 1.30 && HeatAfter(3, a) == 1.55 && HeatAfter(4, a) == 1.80
    ensures a != NeedsSplit ==> HeatAfter(5, a) == 2.15 && HeatAfter(6, a) == 2.50 && HeatAfter(7, a) == 2.85
  {
    assert HeatAfter(1, a) == 1.15;
    assert HeatAfter(2, a) == 1.30;
    assert HeatAfter(3, a) == 1.55;
    assert HeatAfter(4, a) == 1.80;
    assert a != NeedsSplit ==> HeatAfter(5, a) == 2.15;
    assert a != NeedsSplit ==> HeatAfter(6, a) == 2.50;
  }

  lemma {:induction false} HeatGrows(j: nat, k: nat, a: Atomicity)
    requires j <= k
    ensures HeatAfter(j, a) <= HeatAfter(k, a)
    decreases k
  {
    if j < k {
      HeatGrows(j, k - 1, a);
    }
  }

  /** By the time the counts allow a promotion, the heat does too. */
  lemma HeatIsNeverShort(k: nat, a: Atomicity)
    ensures k >= 4 ==> HeatAfter(k, a) >= 1.60
    ensures k >= 7 && a != NeedsSplit ==> HeatAfter(k, a) >= 2.60
  {
    HeatAfterFew(a);
    if k >= 4 { HeatGrows(4, k, a); }
    if k >= 7 { HeatGrows(7, k, a); }
  }

  lemma ReviewReachesTier(k: nat, tier: int, a: Atomicity)
    requires tier == TierFor(k, a) || (k > 0 && tier == TierFor(k - 1, a))
    ensures TargetTier(tier, k, HeatAfter(k, a), false, a) == TierFor(k, a)
  {
    hide HeatAfter;
    HeatIsNeverShort(k, a);
  }

  /** Note n has not been retrieved since it was last reviewed. */
  ghost predicate Settled(ops: seq<Op>, n: nat) {
    if ops == [] then true
    else
      var pre, op := ops[..|ops| - 1], ops[|ops| - 1];
      match op
      case DoRecord(qid, nid, _) => if qid > 0 && nid == n && n in Run(pre).notes then false else Settled(pre, n)
      case DoReview(qid) => (qid > 0 && n in HitNotes(Run(pre), qid)) || Settled(pre, n)
      case _ => Settled(pre, n)
  }

  /** Note n starts at tier 0 and without a twin, and each of its retrievals is recorded with the weight of
      its tier at the time, the one before having been reviewed.  Everything else is arbitrary. */
  ghost predicate Follows(ops: seq<Op>, n: nat) {
    forall i | 0 <= i < |ops| :: Allowed(ops[..i], ops[i], n)
  }

  ghost predicate Allowed(pre: seq<Op>, op: Op, n: nat) {
    var s := Run(pre);
    && (op.DoRecord? && op.qid > 0 && op.nid == n && n in s.notes ==>
          op.weight == TierWeight(s.notes[n].tier) && Settled(pre, n))
    && (op.DoCreate? && s.next == n ==>
          op.draft.tier <= 0
          && forall m | m in s.notes :: s.notes[m].hash != op.draft.body.sha1)
  }

  ghost predicate OnCourse(s: Store, n: nat, settled: bool)
    requires n in s.notes
  {
    var x := s.notes[n];
    var a := x.body.atomicity;
    && !IsDuplicate(s.notes, n)
    && x.heat == HeatAfter(x.retrievals, a)
    && if settled then x.tier == TierFor(x.retrievals, a)
       else x.retrievals > 0 && x.tier == TierFor(x.retrievals - 1, a)
  }

  lemma CreateOnCourse(pre: seq<Op>, op: Op, n: nat)
    requires op.DoCreate? && Forest(Run(pre)) && Allowed(pre, op, n) && n in Apply(Run(pre), op).notes
    requires n in Run(pre).notes ==> OnCourse(Run(pre), n, Settled(pre, n))
    requires n !in Run(pre).notes ==> Settled(pre, n)
    ensures OnCourse(Apply(Run(pre), op), n, Settled(pre, n))
  {
    hide Run, Settled, HeatAfter;
    HeatAtBirth(op.draft.body.atomicity);
  }

  lemma HeatStep(k: nat, a: Atomicity)
    ensures HeatAfter(k + 1, a) == HeatAfter(k, a) + (0.15 + TierWeight(TierFor(k, a)))
  {
  }

  lemma HeatAtBirth(a: Atomicity)
    ensures HeatAfter(0, a) == 1.0
  {
  }

  lemma {:induction false} UnbornIsSettled(ops: seq<Op>, n: nat)
    requires n !in Run(ops).notes
    ensures Settled(ops, n)
  {
    hide Apply;
    if ops != [] {
      var pre, op := ops[..|ops| - 1], ops[|ops| - 1];
      NotesStay(Run(pre), op, n);
      UnbornIsSettled(pre, n);
    }
  }

  lemma NotesStay(s: Store, op: Op, n: nat)
    ensures n in s.notes ==> n in Apply(s, op).notes
  {
  }

  lemma RecordOnCourse(pre: seq<Op>, op: Op, n: nat)
    requires op.DoRecord? && n > 0 && n in Run(pre).notes && Allowed(pre, op, n)
    requires OnCourse(Run(pre), n, Settled(pre, n))
    ensures n in Apply(Run(pre), op).notes
    ensures OnCourse(Apply(Run(pre), op), n, Settled(pre, n) && !(op.qid > 0 && op.nid == n))
  {
    hide Run, Settled, TierWeight, HeatAfter, TierFor;
    var s, s' := Run(pre), Apply(Run(pre), op);
    HeatStep(s.notes[n].retrievals, s.notes[n].body.atomicity);
    SameHashes(s.notes, s'.notes, n);
    if op.qid > 0 && op.nid == n {
      assert s'.notes[n].retrievals == s.notes[n].retrievals + 1;
      assert s'.notes[n].heat == s.notes[n].heat + (0.15 + op.weight);
    } else {
      assert s'.notes[n] == s.notes[n];
    }
  }

  /** Being a duplicate is a matter of ids and hashes. */
  lemma SameHashes(notes: map<nat, Note>, notes': map<nat, Note>, n: nat)
    requires notes'.Keys == notes.Keys && n in notes
    requires forall m | m in notes :: notes'[m].hash == notes[m].hash
    ensures IsDuplicate(notes', n) == IsDuplicate(notes, n)
  {
  }

  lemma ReviewOnCourse(s: Store, qid: int, n: nat, settled: bool)
    requires n in s.notes && OnCourse(s, n, settled)
    ensures n in Review(s, qid).notes
    ensures OnCourse(Review(s, qid), n, settled || (qid > 0 && n in HitNotes(s, qid)))
  {
    hide HeatAfter, TierFor, TargetTier, ProcessLevel;
    if qid > 0 {
      var x, s' := s.notes[n], Review(s, qid);
      ReviewReachesTier(x.retrievals, x.tier, x.body.atomicity);
      TargetTierGrows(x.tier, x.retrievals, x.heat, false, x.body.atomicity);
      assert forall m | m in s.notes :: m in s'.notes && s'.notes[m].hash == s.notes[m].hash;
      assert s'.notes.Keys == s.notes.Keys;
    }
  }

  lemma FollowsPrefix(ops: seq<Op>, n: nat)
    requires ops != [] && Follows(ops, n)
    ensures Follows(ops[..|ops| - 1], n) && Allowed(ops[..|ops| - 1], ops[|ops| - 1], n)
  {
    hide Allowed;
    var pre := ops[..|ops| - 1];
    forall i | 0 <= i < |pre| ensures Allowed(pre[..i], pre[i], n) {
      assert pre[..i] == ops[..i] && Allowed(ops[..i], ops[i], n);
    }
  }

  lemma OnCourseStep(pre: seq<Op>, op: Op, n: nat)
    requires Forest(Run(pre)) && Allowed(pre, op, n) && n in Apply(Run(pre), op).notes
    requires if n in Run(pre).notes then OnCourse(Run(pre), n, Settled(pre, n)) else Settled(pre, n)
    ensures OnCourse(Run(pre + [op]), n, Settled(pre + [op], n))
  {
    hide OnCourse, Allowed, Create, Record, Review, Forest;
    var ops := pre + [op];
    assert ops[..|ops| - 1] == pre && ops[|ops| - 1] == op;
    match op
    case DoCreate(_) => CreateOnCourse(pre, op, n);
    case DoRecord(qid, nid, _) =>
      RecordKeepsIds(Run(pre), op);
      IdsPositive(Run(pre));
      RecordOnCourse(pre, op, n);
    case DoReview(qid) =>
      ReviewKeepsIds(Run(pre), qid);
      ReviewOnCourse(Run(pre), qid, n, Settled(pre, n));
    case DoLink(_, _, _, _) => LinkOnCourse(Run(pre), op, n, Settled(pre, n));
  }

  lemma IdsPositive(s: Store)
    requires Forest(s)
    ensures forall n | n in s.notes :: n > 0
  {
  }

  lemma RecordKeepsIds(s: Store, op: Op)
    requires op.DoRecord?
    ensures Apply(s, op).notes.Keys == s.notes.Keys
  {
  }

  lemma ReviewKeepsIds(s: Store, qid: int)
    ensures Review(s, qid).notes.Keys == s.notes.Keys
  {
  }

  lemma LinkOnCourse(s: Store, op: Op, n: nat, settled: bool)
    requires op.DoLink? && n in s.notes && OnCourse(s, n, settled)
    ensures OnCourse(Apply(s, op), n, settled)
  {
  }

  lemma {:induction false} StaysOnCourse(ops: seq<Op>, n: nat)
    requires Follows(ops, n) && n in Run(ops).notes
    ensures OnCourse(Run(ops), n, Settled(ops, n))
    decreases |ops|
  {
    hide OnCourse, Allowed, Follows, Apply, Settled;
    if ops != [] {
      var pre, op := ops[..|ops| - 1], ops[|ops| - 1];
      FollowsPrefix(ops, n);
      ForestHolds(pre);
      if n in Run(pre).notes {
        StaysOnCourse(pre, n);
      } else {
        UnbornIsSettled(pre, n);
      }
      OnCourseStep(pre, op, n);
      assert pre + [op] == ops;
    }
  }

  /** Over every run in which note n lives its intended life, whatever happens to other notes: once its last
      retrieval is reviewed, its tier is 0, 1, 2 or 3 exactly as its retrieval count is below 2, 4, 7 or not,
      except that a thin note stops at 2 and one that needs splitting at 1. */
  lemma PromotionClosedForm(ops: seq<Op>, n: nat)
    requires Follows(ops, n) && n in Run(ops).notes && Settled(ops, n)
    ensures
      var x := Run(ops).notes[n];
      var a := x.body.atomicity;
      && (x.tier == 0 <==> x.retrievals < 2)
      && (x.tier == 1 <==> 2 <= x.retrievals && (x.retrievals < 4 || a == NeedsSplit))
      && (x.tier == 2 <==> 4 <= x.retrievals && a != NeedsSplit && (x.retrievals < 7 || a == Thin))
      && (x.tier == 3 <==> 7 <= x.retrievals && a == Fine)
  {
    hide Run, Settled, Follows, HeatAfter;
    StaysOnCourse(ops, n);
  }

  /** Such a note's heat is 1.0 at first; a fine note's is 2.85 after seven retrievals and 0.5 more with each after. */
  lemma HeatClosedForm(ops: seq<Op>, n: nat)
    requires Follows(ops, n) && n in Run(ops).notes
    ensures
      var x := Run(ops).notes[n];
      && (x.retrievals == 0 ==> x.heat == 1.0)
      && (x.retrievals == 4 ==> x.heat == 1.80)
      && (x.retrievals >= 7 && x.body.atomicity == Fine ==> x.heat == 2.85 + 0.5 * (x.retrievals - 7) as real)
  {
    hide Run, Follows;
    StaysOnCourse(ops, n);
    var x := Run(ops).notes[n];
    HeatAfterFew(x.body.atomicity);
    if x.retrievals >= 7 {
      HeatAfterMany(x.retrievals);
    }
  }
}

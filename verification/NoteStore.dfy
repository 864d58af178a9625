/** The note tables of src/ai.c, updated step by step. */
module NoteStores {
  import opened Basics
  import opened Notes

  class NoteStore {
    var notes: map<nat, Note>
    var next: nat
    var hits: set<Hit>
    var links: map<Link, real>
    var verdicts: multiset<Verdict>

    ghost function Model(): Store
      reads this
    {
      Store(notes, next, hits, links, verdicts)
    }

    constructor ()
      ensures Model() == EMPTY
    {
      notes, next, hits, links, verdicts := map[], 1, {}, map[], multiset{};
    }

    /** ai_note_create; returns the new id. */
    method CreateNote(d: Draft) returns (nid: nat)
      modifies this
      ensures nid == old(next) && Model() == Create(old(Model()), d)
    {
      var tier, sourceType, process, title, metadata := d.tier, d.sourceType, d.process, d.title, d.metadata;
      if tier < 0 { tier := 0; }
      if tier > 3 { tier := 3; }
      if sourceType == "" { sourceType := "manual"; }
      var weight := ArtifactWeight(sourceType);
      if process == "" { process := ProcessLevel(tier); }
      if IsGeneric(title) { title := d.body.guess; }
      if metadata == "" { metadata := DefaultMetadata(process, sourceType); }
      nid := next;
      notes := notes[nid := Note(tier, title, d.body, process, metadata, d.artifact, d.artifactStatus, weight,
                                 d.body.sha1, 0, 1.0, None)];
      next := next + 1;
    }

    /** ai_note_record_retrieval; returns the reinforcement applied. */
    method RecordRetrieval(qid: int, nid: int, tierWeight: real) returns (delta: real)
      modifies this
      ensures Model() == Record(old(Model()), qid, nid, tierWeight)
      ensures delta == if qid <= 0 || nid <= 0 then 0.0 else 0.15 + tierWeight
    {
      if qid <= 0 || nid <= 0 { return 0.0; }
      delta := 0.15 + tierWeight;
      if nid in notes {
        var n := notes[nid];
        notes := notes[nid := n.(retrievals := n.retrievals + 1, heat := n.heat + delta)];
      }
      hits := hits + {Hit(qid, nid)};
    }

    /** ai_note_link_upsert */
    method LinkUpsert(from: int, to: int, kind: string, w: real)
      modifies `links
      ensures links == Upsert(old(links), from, to, kind, w)
    {
      if from <= 0 || to <= 0 || from == to { return; }
      var k := Link(from, to, kind);
      links := links[k := (if k in links then links[k] else 0.0) + w];
    }

    /** Looking for a twin: the update and the link of a duplicate. */
    method MarkDuplicate(nid: nat, row: Note) returns (duplicateOf: Option<nat>)
      requires nid in notes && notes[nid] == row && nid > 0
      requires forall m | m in notes :: m > 0
      modifies `notes, `links
      ensures duplicateOf == if IsDuplicate(old(notes), nid) then Some(Canonical(old(notes), nid)) else None
      ensures notes == old(notes)[nid := row.(mergedInto := if duplicateOf.Some? then duplicateOf else row.mergedInto)]
      ensures links == BumpAll(old(links), DuplicateLinks(old(notes), {nid}))
    {
      CanonicalExists(notes, nid);
      var canonical := 0;
      if row.hash != "" {
        var c: nat :| IsCanonical(notes, row.hash, c);
        canonical := c;
        CanonicalIs(notes, nid, c);
      }
      OneDuplicate(notes, nid, links);
      duplicateOf := None;
      if canonical > 0 && canonical != nid {
        notes := notes[nid := notes[nid].(mergedInto := Some(canonical))];
        LinkUpsert(nid, canonical, DUPLICATE, 1.0);
        duplicateOf := Some(canonical);
      }
    }

    /** Gives the note a title guessed from its body if it has none to speak of. */
    method Retitle(nid: nat, row: Note) returns (retitled: bool)
      requires nid in notes && notes[nid].title == row.title
      modifies `notes
      ensures retitled == Retitles(row)
      ensures notes == old(notes)[nid := old(notes)[nid].(title := if retitled then row.body.guess else row.title)]
    {
      retitled := false;
      if IsGeneric(row.title) {
        var title := row.body.guess;
        if title != row.title {
          notes := notes[nid := notes[nid].(title := title)];
          retitled := true;
        }
      }
    }

    /** Sees to the process level of the row's tier, and to metadata. */
    method Relabel(nid: nat, row: Note) returns (relabelled: bool)
      requires nid in notes && notes[nid].process == row.process && notes[nid].metadata == row.metadata
      modifies `notes
      ensures relabelled == Relabels(row)
      ensures notes == old(notes)[nid := old(notes)[nid].(
        process := ProcessLevel(row.tier), metadata := ReviewedMetadata(row))]
    {
      relabelled := false;
      if row.process == "" || row.process != ProcessLevel(row.tier) || row.metadata == "" {
        var n := notes[nid].(process := ProcessLevel(row.tier));
        if row.metadata == "" {
          n := n.(metadata := "{\"process_level\":\"" + ProcessLevel(row.tier) + "\"}");
        }
        notes := notes[nid := n];
        relabelled := true;
      }
    }

    method Promote(nid: nat, row: Note, isDuplicate: bool) returns (promotion: Option<(int, int)>)
      requires nid in notes && notes[nid].process == ProcessLevel(row.tier) && notes[nid].tier == row.tier
      requires notes[nid].artifactStatus == row.artifactStatus
      modifies `notes
      ensures
        var target := TargetTier(row.tier, row.retrievals, row.heat, isDuplicate, row.body.atomicity);
        && promotion == (if target > row.tier then Some((row.tier, target)) else None)
        && notes == old(notes)[nid := old(notes)[nid].(
             tier := target, process := ProcessLevel(target), artifactStatus := ReviewedStatus(row, target))]
    {
      TargetTierNotBelow(row, isDuplicate);
      hide TargetTier, ProcessLevel;
      promotion := None;
      var target := TargetTier(row.tier, row.retrievals, row.heat, isDuplicate, row.body.atomicity);
      if target > row.tier {
        var status := PromotedStatus(target, row.artifact, row.artifactStatus);
        var n := notes[nid].(tier := target, process := ProcessLevel(target));
        if n.artifactStatus == "" && status != "" {
          n := n.(artifactStatus := status);
        }
        notes := notes[nid := n];
        promotion := Some((row.tier, target));
      }
    }

    /** One row of the loop of ai_retrieval_review.  `row` is the note as the query delivered it. */
    method ReviewRow(qid: int, nid: nat, row: Note, peers: nat)
      requires nid in notes && notes[nid] == row && nid > 0
      requires forall m | m in notes :: m > 0
      modifies `notes, `links, `verdicts
      ensures notes == old(notes)[nid := ReviewedNote(old(notes), nid)]
      ensures links == BumpAll(old(links), DuplicateLinks(old(notes), {nid}))
      ensures verdicts == old(verdicts) + multiset{VerdictOn(old(notes), qid, nid, peers)}
    {
      hide BumpAll, DuplicateLinks, IsDuplicate, Canonical, Relabels, Retitles, TargetTier, ProcessLevel,
        ReviewedMetadata, ReviewedStatus;
      ghost var was := notes;
      var duplicateOf := MarkDuplicate(nid, row);
      var retitled := Retitle(nid, row);
      var relabelled := Relabel(nid, row);
      var promotion := Promote(nid, row, duplicateOf.Some?);
      verdicts := verdicts + multiset{
        Verdict(qid, nid, row.body.atomicity, peers, duplicateOf, retitled, relabelled, promotion)};
    }

    /** The loop of ai_retrieval_review.  The query sorts its rows before delivering the first, so each row shows
        its note as it was before the loop; the outcome does not depend on the order of the rows, and the loop here
        takes them in any order. */
    method ReviewRows(qid: int, which: set<nat>, peers: nat)
      requires Forest(Model())
      modifies `notes, `links, `verdicts
      ensures notes == ReviewedNotes(old(notes), which)
      ensures links == BumpAll(old(links), DuplicateLinks(old(notes), which))
      ensures verdicts == old(verdicts) + multiset(Verdicts(old(notes), qid, which, peers))
    {
      hide BumpAll, DuplicateLinks, ReviewedNotes, Forest, ReviewedNote, Verdicts, VerdictOn;
      ghost var s := Model();
      var was := notes;
      var rest := which * was.Keys;
      NoneReviewed(was, links, qid, peers);
      assert which * was.Keys - rest == {};
      while rest != {}
        invariant rest <= which * was.Keys
        invariant notes == ReviewedNotes(was, which * was.Keys - rest)
        invariant links == BumpAll(s.links, DuplicateLinks(was, which * was.Keys - rest))
        invariant verdicts == s.verdicts + multiset(Verdicts(was, qid, which * was.Keys - rest, peers))
        decreases rest
      {
        var nid :| nid in rest;
        ghost var done := which * was.Keys - rest;
        OneMoreReviewed(s, was, s.links, done, nid);
        OneMoreVerdict(was, notes, qid, done, nid, peers);
        ReviewRow(qid, nid, was[nid], peers);
        rest := rest - {nid};
        assert which * was.Keys - rest == done + {nid};
      }
      assert which * was.Keys - rest == which * was.Keys;
      OnlyExisting(was, which, qid, peers);
    }

    /** ai_retrieval_review */
    method ReviewRetrieval(qid: int)
      requires Forest(Model())
      modifies this
      ensures Model() == Review(old(Model()), qid)
    {
      hide BumpAll, DuplicateLinks, ReviewedNotes, PairLinks, ReviewedNote, Verdicts, VerdictOn;
      if qid <= 0 { return; }
      var which := set h | h in hits && h.qid == qid :: h.nid;
      var pairs := PairLinks(which);
      CoRetrievedLinks(links, pairs);
      links := map k | k in links.Keys + pairs ::
        (if k in links then links[k] else 0.0) + if k in pairs then 1.0 else 0.0;
      var peers := |which| - 1;
      if peers < 0 { peers := 0; }
      ReviewRows(qid, which, peers);
    }
  }

  lemma TargetTierNotBelow(n: Note, isDuplicate: bool)
    ensures TargetTier(n.tier, n.retrievals, n.heat, isDuplicate, n.body.atomicity) >= n.tier
  {
  }

  lemma CoRetrievedLinks(links: map<Link, real>, pairs: set<Link>)
    ensures BumpAll(links, pairs) ==
      map k | k in links.Keys + pairs :: (if k in links then links[k] else 0.0) + if k in pairs then 1.0 else 0.0
  {
  }

  lemma NoneReviewed(notes: map<nat, Note>, links: map<Link, real>, qid: int, peers: nat)
    ensures ReviewedNotes(notes, {}) == notes && BumpAll(links, DuplicateLinks(notes, {})) == links
    ensures Verdicts(notes, qid, {}, peers) == {}
  {
    hide ReviewedNote;
  }

  /** Ids of notes that do not exist make no difference. */
  lemma OnlyExisting(notes: map<nat, Note>, which: set<nat>, qid: int, peers: nat)
    ensures ReviewedNotes(notes, which * notes.Keys) == ReviewedNotes(notes, which)
    ensures DuplicateLinks(notes, which * notes.Keys) == DuplicateLinks(notes, which)
    ensures Verdicts(notes, qid, which * notes.Keys, peers) == Verdicts(notes, qid, which, peers)
  {
    hide ReviewedNote, Canonical, VerdictOn;
  }

  lemma OneMoreVerdict(was: map<nat, Note>, now: map<nat, Note>, qid: int, done: set<nat>, nid: nat, peers: nat)
    requires now == ReviewedNotes(was, done) && nid in was && nid !in done
    ensures nid in now
    ensures multiset(Verdicts(was, qid, done + {nid}, peers)) ==
      multiset(Verdicts(was, qid, done, peers)) + multiset{VerdictOn(now, qid, nid, peers)}
  {
    hide TargetTier, Retitles, Relabels, ProcessLevel, PromotedStatus, IsDuplicate, Canonical;
    assert forall m | m in was :: now[m].hash == was[m].hash;
    ReviewIsLocal(was, now, nid);
    var v := VerdictOn(was, qid, nid, peers);
    assert VerdictOn(now, qid, nid, peers) == v;
    assert Verdicts(was, qid, done + {nid}, peers) == Verdicts(was, qid, done, peers) + {v};
    assert v !in Verdicts(was, qid, done, peers);
  }

  lemma OneMoreReviewed(s: Store, was: map<nat, Note>, links: map<Link, real>, done: set<nat>, nid: nat)
    requires Forest(s) && s.notes == was && nid in was && nid !in done
    ensures var now := ReviewedNotes(was, done);
      && now.Keys == was.Keys && now[nid] == was[nid] && nid > 0 && (forall m | m in now :: m > 0)
      && now[nid := ReviewedNote(now, nid)] == ReviewedNotes(was, done + {nid})
      && BumpAll(BumpAll(links, DuplicateLinks(was, done)), DuplicateLinks(now, {nid})) ==
         BumpAll(links, DuplicateLinks(was, done + {nid}))
  {
    hide ProcessLevel, TargetTier, Forest, BumpAll, DuplicateLinks;
    var now := ReviewedNotes(was, done);
    ForestIds(s);
    assert forall m | m in was :: now[m].hash == was[m].hash;
    ReviewIsLocal(was, now, nid);
    DuplicatesSplit(was, now, done, nid, links);
  }

  lemma ForestIds(s: Store)
    requires Forest(s)
    ensures forall m | m in s.notes :: m > 0
  {
  }

  /** What the review makes of a note depends on the other notes' ids and hashes only. */
  lemma ReviewIsLocal(was: map<nat, Note>, now: map<nat, Note>, nid: nat)
    requires nid in was && now.Keys == was.Keys && now[nid] == was[nid]
    requires forall m | m in was :: now[m].hash == was[m].hash
    ensures ReviewedNote(now, nid) == ReviewedNote(was, nid)
    ensures IsDuplicate(now, nid) == IsDuplicate(was, nid) && Canonical(now, nid) == Canonical(was, nid)
  {
    hide ProcessLevel, TargetTier;
    assert IsDuplicate(now, nid) == IsDuplicate(was, nid);
    var c := Canonical(was, nid);
    assert IsCanonical(now, now[nid].hash, c);
    CanonicalIs(now, nid, c);
  }

  lemma DuplicatesSplit(was: map<nat, Note>, now: map<nat, Note>, done: set<nat>, nid: nat, links: map<Link, real>)
    requires nid in was && now.Keys == was.Keys && nid !in done
    requires IsDuplicate(now, nid) == IsDuplicate(was, nid) && Canonical(now, nid) == Canonical(was, nid)
    ensures BumpAll(BumpAll(links, DuplicateLinks(was, done)), DuplicateLinks(now, {nid})) ==
            BumpAll(links, DuplicateLinks(was, done + {nid}))
  {
    hide IsDuplicate, Canonical, BumpAll;
    var a, b := DuplicateLinks(was, done), DuplicateLinks(now, {nid});
    assert DuplicateLinks(was, done + {nid}) == a + b;
    assert a !! b;
    BumpTwice(links, a, b);
  }

  lemma BumpTwice(links: map<Link, real>, a: set<Link>, b: set<Link>)
    requires a !! b
    ensures BumpAll(BumpAll(links, a), b) == BumpAll(links, a + b)
  {
  }

  lemma OneDuplicate(notes: map<nat, Note>, nid: nat, links: map<Link, real>)
    requires nid in notes && nid > 0 && forall m | m in notes :: m > 0
    ensures DuplicateLinks(notes, {nid}) ==
      if IsDuplicate(notes, nid) then {Link(nid, Canonical(notes, nid), DUPLICATE)} else {}
    ensures BumpAll(links, DuplicateLinks(notes, {nid})) ==
      if IsDuplicate(notes, nid) then Upsert(links, nid, Canonical(notes, nid), DUPLICATE, 1.0) else links
  {
    CanonicalIs(notes, nid, Canonical(notes, nid));
  }
}

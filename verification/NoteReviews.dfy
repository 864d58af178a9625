/** What ai_review records, and what reviewing again changes (src/ai.c). */
module NoteReviews {
  import opened Basics
  import opened Notes

  /** The row written about a note that a review covers tells exactly how the note was changed: it names the note it
      was merged into, whether its title and its label changed, from which tier to which it was promoted, and how
      many other notes were retrieved with it. */
  lemma VerdictTellsChange(ops: seq<Op>, qid: int, n: nat)
    requires qid > 0 && RecordedFor(ops, qid, n) && n in Run(ops).notes
    ensures
      var s, s' := Run(ops), Review(Run(ops), qid);
      var before, after := s.notes[n], s'.notes[n];
      var v := Verdict(qid, n, before.body.atomicity, |HitNotes(s, qid) - {n}|, after.mergedInto,
        after.title != before.title,
        before.process != ProcessLevel(before.tier) || after.metadata != before.metadata,
        if after.tier != before.tier then Some((before.tier, after.tier)) else None);
      s'.verdicts[v] == s.verdicts[v] + 1
  {
    hide Run, IsGeneric, PromotedStatus, RecordedFor;
    CoveredExactly(ops, qid, n);
    ForestHolds(ops);
    var s := Run(ops);
    var which := HitNotes(s, qid);
    var v := VerdictOn(s.notes, qid, n, Peers(which));
    assert v in Verdicts(s.notes, qid, which, Peers(which));
    assert |which - {n}| == Peers(which);
    assert s.notes[n].mergedInto.Some? ==> MergedRight(s.notes, n);
    TierGrows(s.notes[n], IsDuplicate(s.notes, n));
  }

  lemma TierGrows(n: Note, isDuplicate: bool)
    ensures TargetTier(n.tier, n.retrievals, n.heat, isDuplicate, n.body.atomicity) >= n.tier
  {
  }

  /** One row is written for each note of the retrieval that exists, and none for anything else. */
  lemma OneVerdictEach(s: Store, qid: int)
    requires qid > 0
    ensures |Review(s, qid).verdicts| == |s.verdicts| + |HitNotes(s, qid) * s.notes.Keys|
  {
    hide VerdictOn, ReviewedNotes;
    var which := HitNotes(s, qid);
    VerdictCount(s.notes, qid, which, Peers(which));
  }

  lemma NoVerdicts(notes: map<nat, Note>, qid: int, which: set<nat>, peers: nat)
    requires which == {}
    ensures Verdicts(notes, qid, which, peers) == {}
  {
    hide VerdictOn;
  }

  lemma VerdictNames(notes: map<nat, Note>, qid: int, n: nat, peers: nat)
    requires n in notes
    ensures VerdictOn(notes, qid, n, peers).nid == n
  {
  }

  lemma VerdictSplit(notes: map<nat, Note>, qid: int, which: set<nat>, m: nat, peers: nat)
    requires m in which
    ensures var rest := Verdicts(notes, qid, which - {m}, peers);
      if m in notes then
        var v := VerdictOn(notes, qid, m, peers);
        Verdicts(notes, qid, which, peers) == rest + {v} && v !in rest
      else
        Verdicts(notes, qid, which, peers) == rest
  {
    hide VerdictOn;
    forall n | n in notes ensures VerdictOn(notes, qid, n, peers).nid == n {
      VerdictNames(notes, qid, n, peers);
    }
  }

  lemma {:induction false} VerdictCount(notes: map<nat, Note>, qid: int, which: set<nat>, peers: nat)
    ensures |Verdicts(notes, qid, which, peers)| == |which * notes.Keys|
  {
    hide VerdictOn, Verdicts;
    if m :| m in which {
      var rest := which - {m};
      VerdictCount(notes, qid, rest, peers);
      VerdictSplit(notes, qid, which, m, peers);
      if m in notes {
        assert which * notes.Keys == (rest * notes.Keys) + {m};
      } else {
        assert which * notes.Keys == rest * notes.Keys;
      }
    } else {
      assert Verdicts(notes, qid, which, peers) == {} by { NoVerdicts(notes, qid, which, peers); }
      assert which * notes.Keys == {};
    }
  }

  lemma TargetIsFinal(n: Note, isDuplicate: bool)
    ensures var t := TargetTier(n.tier, n.retrievals, n.heat, isDuplicate, n.body.atomicity);
      TargetTier(t, n.retrievals, n.heat, isDuplicate, n.body.atomicity) == t
  {
  }

  /** Reviewing a retrieval again, with nothing in between, changes no note. */
  lemma ReviewIsStable(s: Store, qid: int)
    ensures Review(Review(s, qid), qid).notes == Review(s, qid).notes
  {
    hide TargetTier, IsGeneric, ProcessLevel, PromotedStatus, IsDuplicate, Canonical;
    if qid > 0 {
      var s' := Review(s, qid);
      var which := HitNotes(s, qid);
      assert HitNotes(s', qid) == which;
      forall n | n in s.notes && n in which ensures ReviewedNote(s'.notes, n) == s'.notes[n] {
        ReviewedTwice(s.notes, s'.notes, n);
      }
    }
  }

  lemma ReviewedTwice(notes: map<nat, Note>, notes': map<nat, Note>, n: nat)
    requires notes'.Keys == notes.Keys && n in notes && notes'[n] == ReviewedNote(notes, n)
    requires forall m | m in notes :: notes'[m].hash == notes[m].hash
    ensures ReviewedNote(notes', n) == notes'[n]
  {
    hide TargetTier, IsGeneric, ProcessLevel, PromotedStatus;
    assert IsDuplicate(notes', n) == IsDuplicate(notes, n);
    var c := Canonical(notes, n);
    assert IsCanonical(notes', notes'[n].hash, c);
    CanonicalIs(notes', n, c);
    TargetIsFinal(notes[n], IsDuplicate(notes, n));
  }

  // ------------------------------------------------------------ titles and new notes

  /** The same text but for the case of letters. */
  predicate SameButCase(a: string, b: string) {
    && |a| == |b|
    && forall k | 0 <= k < |a| ::
         || a[k] == b[k]
         || ('A' <= a[k] <= 'Z' && b[k] as int == a[k] as int + 32)
  }

  /** A title tells nothing if after white space it is empty, or one of three stock phrases in any case. */
  ghost predicate TellsNothing(title: string) {
    exists n | 0 <= n <= |title| ::
      && (forall k | 0 <= k < n :: title[k] in [' ', '\t', '\n', '\U{0B}', '\U{0C}', '\r'])
      && exists phrase | phrase in ["", "note", "untitled note", "manual note"] :: SameButCase(title[n..], phrase)
  }

  lemma {:induction false} LowerIs(s: string, t: string)
    requires forall k | 0 <= k < |t| :: !('A' <= t[k] <= 'Z')
    ensures Lower(s) == t <==> SameButCase(s, t)
  {
    if s != "" && t != "" {
      LowerIs(s[1..], t[1..]);
      assert Lower(s) == t <==> Lower(s)[0] == t[0] && Lower(s[1..]) == t[1..];
      assert SameButCase(s, t) <==> SameButCase(s[..1], t[..1]) && SameButCase(s[1..], t[1..]) by {
        SameInParts(s, t);
      }
    }
  }

  lemma SameInParts(s: string, t: string)
    requires s != "" && t != ""
    ensures SameButCase(s, t) <==> SameButCase(s[..1], t[..1]) && SameButCase(s[1..], t[1..])
  {
    if SameButCase(s[..1], t[..1]) && SameButCase(s[1..], t[1..]) {
      forall k | 0 <= k < |s| ensures s[k] == t[k] || ('A' <= s[k] <= 'Z' && t[k] as int == s[k] as int + 32) {
        if k == 0 {
          assert s[..1][0] == s[0] && t[..1][0] == t[0];
        } else {
          assert s[1..][k - 1] == s[k] && t[1..][k - 1] == t[k];
        }
      }
    }
  }

  /** Where the first non-blank character is. */
  lemma {:induction false} Blanks(s: string) returns (n: nat)
    ensures n <= |s| && SkipSpace(s) == s[n..]
    ensures forall k | 0 <= k < n :: s[k] in [' ', '\t', '\n', '\U{0B}', '\U{0C}', '\r']
    ensures n < |s| ==> s[n] !in [' ', '\t', '\n', '\U{0B}', '\U{0C}', '\r']
  {
    if s != "" && (s[0] == ' ' || '\t' <= s[0] <= '\r') {
      n := Blanks(s[1..]);
      n := n + 1;
    } else {
      n := 0;
    }
  }

  lemma GenericExactly(title: string)
    ensures IsGeneric(title) <==> TellsNothing(title)
  {
    hide SkipSpace, Lower, SameButCase;
    var n := Blanks(title);
    var core := title[n..];
    LowerOfPhrases(core);
    if TellsNothing(title) {
      var m :| 0 <= m <= |title| &&
        (forall k | 0 <= k < m :: title[k] in [' ', '\t', '\n', '\U{0B}', '\U{0C}', '\r'])
        && exists phrase | phrase in ["", "note", "untitled note", "manual note"] :: SameButCase(title[m..], phrase);
      var phrase :| phrase in ["", "note", "untitled note", "manual note"] && SameButCase(title[m..], phrase);
      PhraseStart(title, m, n, phrase);
    }
  }

  lemma PhraseStart(title: string, m: nat, n: nat, phrase: string)
    requires m <= |title| && n <= |title|
    requires forall k | 0 <= k < n :: title[k] in [' ', '\t', '\n', '\U{0B}', '\U{0C}', '\r']
    requires n < |title| ==> title[n] !in [' ', '\t', '\n', '\U{0B}', '\U{0C}', '\r']
    requires forall k | 0 <= k < m :: title[k] in [' ', '\t', '\n', '\U{0B}', '\U{0C}', '\r']
    requires phrase in ["", "note", "untitled note", "manual note"] && SameButCase(title[m..], phrase)
    ensures title[n..] == "" || m == n
  {
    assert m < |title| ==> title[m..][0] == title[m];
    assert phrase != "" ==> phrase[0] in ['n', 'u', 'm'];
  }

  lemma LowerOfPhrases(core: string)
    ensures core == "" || Lower(core) in ["note", "untitled note", "manual note"] <==>
      exists phrase | phrase in ["", "note", "untitled note", "manual note"] :: SameButCase(core, phrase)
  {
    LowerIs(core, "note");
    LowerIs(core, "untitled note");
    LowerIs(core, "manual note");
    assert core == "" <==> SameButCase(core, "");
  }

  /** A review changes a note's title only if it tells nothing, and then to the one guessed from the body. */
  lemma TitleExactly(s: Store, qid: int, n: nat)
    requires qid > 0 && n in HitNotes(s, qid) && n in s.notes
    ensures Review(s, qid).notes[n].title ==
      if TellsNothing(s.notes[n].title) then s.notes[n].body.guess else s.notes[n].title
  {
    hide IsGeneric, HitNotes, IsDuplicate, Canonical, TargetTier, ProcessLevel;
    GenericExactly(s.notes[n].title);
  }

  /** The note made from a draft: its tier brought into range, what is missing filled in, a weight by its source. */
  lemma CreatedExactly(s: Store, d: Draft)
    ensures
      var x := Create(s, d).notes[s.next];
      var source := if d.sourceType == "" then "manual" else d.sourceType;
      && x.tier == (if d.tier > 3 then 3 else if d.tier > 0 then d.tier else 0)
      && x.title == (if TellsNothing(d.title) then d.body.guess else d.title)
      && x.process == (if d.process != "" then d.process else ["raw", "grouped", "curated", "atomic"][x.tier])
      && x.metadata == (if d.metadata != "" then d.metadata
           else "{\"process_level\":\"" + x.process + "\",\"source_type\":\"" + source + "\"}")
      && x.retrievals == 0 && x.heat == 1.0 && x.mergedInto == None && x.hash == d.body.sha1 && x.body == d.body
      && x.artifact == d.artifact && x.artifactStatus == d.artifactStatus
      && (source in {"prompt", "chat"} <==> x.artifactWeight == 0.02)
      && (source in {"reasoning", "manual", "th1-pool"} <==> x.artifactWeight == 0.08)
      && (source == "diff" <==> x.artifactWeight == 0.12)
      && (source in {"commit", "checkin"} <==> x.artifactWeight == 0.18)
      && (source == "ticket" <==> x.artifactWeight == 0.20)
      && (source == "summary" <==> x.artifactWeight == 0.24)
      && (source == "doc" <==> x.artifactWeight == 0.28)
      && (source == "wiki" <==> x.artifactWeight == 0.30)
      && x.artifactWeight in {0.02, 0.05, 0.08, 0.12, 0.18, 0.20, 0.24, 0.28, 0.30}
    ensures Create(s, d) == s.(notes := s.notes[s.next := Create(s, d).notes[s.next]], next := s.next + 1)
  {
    hide IsGeneric;
    GenericExactly(d.title);
  }
}

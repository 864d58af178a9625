/** The weights of links count what reviews found (src/ai.c). */
module NoteWeights {
  import opened Notes

  /** The weight other code has added to a link. */
  ghost function Added(ops: seq<Op>, k: Link): real {
    if ops == [] then 0.0
    else
      var op := ops[|ops| - 1];
      Added(ops[..|ops| - 1], k) +
        if op.DoLink? && op.from > 0 && op.to > 0 && op.from != op.to && Link(op.from, op.to, op.kind) == k then op.w
        else 0.0
  }

  /** c is the first of the notes with n's body, and n is not. */
  ghost predicate FirstTwin(notes: map<nat, Note>, n: nat, c: nat) {
    && n in notes && c in notes && c < n && notes[n].hash != "" && notes[c].hash == notes[n].hash
    && forall d | d in notes && d < c :: notes[d].hash != notes[n].hash
  }

  /** What a review of this query says about the link: that both notes were retrieved together, or that one repeats
      the other. */
  ghost predicate Finds(ops: seq<Op>, qid: int, k: Link) {
    if k.kind == CO_RETRIEVED then k.from < k.to && RecordedFor(ops, qid, k.from) && RecordedFor(ops, qid, k.to)
    else k.kind == DUPLICATE && RecordedFor(ops, qid, k.from) && FirstTwin(Run(ops).notes, k.from, k.to)
  }

  /** In how many reviews it was found. */
  ghost function TimesFound(ops: seq<Op>, k: Link): nat {
    if ops == [] then 0
    else
      var pre, op := ops[..|ops| - 1], ops[|ops| - 1];
      TimesFound(pre, k) + if op.DoReview? && Finds(pre, op.qid, k) then 1 else 0
  }

  ghost predicate Counts(links: map<Link, real>, ops: seq<Op>) {
    forall k: Link :: Weight(links, k) == TimesFound(ops, k) as real + Added(ops, k)
  }

  lemma TwinIsCanonical(notes: map<nat, Note>, n: nat, c: nat)
    requires n in notes
    ensures FirstTwin(notes, n, c) <==> IsDuplicate(notes, n) && Canonical(notes, n) == c
  {
    CanonicalIs(notes, n, Canonical(notes, n));
    if FirstTwin(notes, n, c) {
      CanonicalIs(notes, n, c);
    }
  }

  lemma ReviewFinds(pre: seq<Op>, qid: int, k: Link)
    requires qid > 0
    ensures
      var s := Run(pre);
      var which := HitNotes(s, qid);
      Finds(pre, qid, k) <==> k in PairLinks(which) || k in DuplicateLinks(s.notes, which)
  {
    hide Run, RecordedFor, HitNotes, FirstTwin, IsDuplicate, Canonical;
    KindsDiffer();
    CoveredExactly(pre, qid, k.from);
    CoveredExactly(pre, qid, k.to);
    if k.from in Run(pre).notes {
      TwinIsCanonical(Run(pre).notes, k.from, k.to);
    } else {
      NoTwinOfNothing(Run(pre).notes, k.from, k.to);
    }
  }

  lemma NoTwinOfNothing(notes: map<nat, Note>, n: nat, c: nat)
    requires n !in notes
    ensures !FirstTwin(notes, n, c)
  {
  }

  lemma FoundSnoc(pre: seq<Op>, op: Op, k: Link)
    ensures TimesFound(pre + [op], k) == TimesFound(pre, k) + if op.DoReview? && Finds(pre, op.qid, k) then 1 else 0
    ensures !op.DoLink? ==> Added(pre + [op], k) == Added(pre, k)
  {
    assert (pre + [op])[..|pre|] == pre;
  }

  lemma ReviewCounts(pre: seq<Op>, qid: int, k: Link)
    requires Counts(Run(pre).links, pre)
    ensures Weight(Review(Run(pre), qid).links, k) ==
      Weight(Run(pre).links, k) + if Finds(pre, qid, k) then 1.0 else 0.0
  {
    hide Run, Finds, ReviewedNotes, Verdicts, PairLinks, DuplicateLinks, HitNotes;
    if qid > 0 {
      var s := Run(pre);
      var which := HitNotes(s, qid);
      ReviewFinds(pre, qid, k);
      BumpWeight(s.links, PairLinks(which), k);
      BumpWeight(BumpAll(s.links, PairLinks(which)), DuplicateLinks(s.notes, which), k);
      NotBoth(s.notes, which, k);
    } else {
      NothingFound(pre, qid, k);
    }
  }

  lemma NotBoth(notes: map<nat, Note>, which: set<nat>, k: Link)
    ensures !(k in PairLinks(which) && k in DuplicateLinks(notes, which))
  {
    KindsDiffer();
  }

  lemma NothingFound(pre: seq<Op>, qid: int, k: Link)
    requires qid <= 0
    ensures !Finds(pre, qid, k)
  {
    hide Run;
  }

  lemma KindsDiffer()
    ensures CO_RETRIEVED != DUPLICATE
  {
    assert |CO_RETRIEVED| != |DUPLICATE|;
  }

  lemma BumpWeight(links: map<Link, real>, keys: set<Link>, k: Link)
    ensures Weight(BumpAll(links, keys), k) == Weight(links, k) + if k in keys then 1.0 else 0.0
  {
  }

  lemma StepCounts(pre: seq<Op>, op: Op)
    requires Counts(Run(pre).links, pre)
    ensures Counts(Run(pre + [op]).links, pre + [op])
  {
    hide Review, Create, Record, Added, TimesFound, Finds, Run;
    var s, ops := Run(pre), pre + [op];
    RunSnoc(pre, op);
    forall k: Link ensures Weight(Run(ops).links, k) == TimesFound(ops, k) as real + Added(ops, k) {
      FoundSnoc(pre, op, k);
      match op
      case DoReview(qid) => ReviewCounts(pre, qid, k);
      case DoCreate(_) => CreateLinks(s, op);
      case DoRecord(qid, nid, w) => RecordLinks(s, qid, nid, w);
      case DoLink(_, _, _, _) => AddedHere(pre, op, k);
    }
  }

  lemma RunSnoc(pre: seq<Op>, op: Op)
    ensures Run(pre + [op]) == Apply(Run(pre), op)
  {
    assert (pre + [op])[..|pre|] == pre;
  }

  lemma AddedHere(pre: seq<Op>, op: Op, k: Link)
    requires op.DoLink?
    ensures Weight(Upsert(Run(pre).links, op.from, op.to, op.kind, op.w), k) - Weight(Run(pre).links, k) ==
            Added(pre + [op], k) - Added(pre, k)
  {
    assert (pre + [op])[..|pre|] == pre;
  }

  lemma CreateLinks(s: Store, op: Op)
    requires op.DoCreate?
    ensures Apply(s, op).links == s.links
  {
  }

  lemma RecordLinks(s: Store, qid: int, nid: int, w: real)
    ensures Record(s, qid, nid, w).links == s.links
  {
  }

  lemma {:induction false} CountsHold(ops: seq<Op>)
    ensures Counts(Run(ops).links, ops)
  {
    hide Apply, Counts;
    if ops == [] {
      NothingCounted();
    } else {
      var pre, op := ops[..|ops| - 1], ops[|ops| - 1];
      CountsHold(pre);
      StepCounts(pre, op);
      assert pre + [op] == ops;
    }
  }

  lemma NothingCounted()
    ensures Counts(EMPTY.links, [])
  {
  }

  /** In every run the weight of every link, of whatever kind, is the number of reviews that found it plus what other
      code added: a co_retrieved link is found by a review of a query for which both notes were recorded, the smaller
      id first, and a duplicate link by one of a query for which a note was recorded whose first twin is the other. */
  lemma WeightIsTogether(ops: seq<Op>, k: Link)
    ensures Weight(Run(ops).links, k) == TimesFound(ops, k) as real + Added(ops, k)
  {
    CountsHold(ops);
  }

  // -------------------------------------------------------------------- the total

  ghost function CoRetrieved(links: map<Link, real>): map<Link, real> {
    map k | k in links && k.kind == CO_RETRIEVED :: links[k]
  }

  ghost function Sum(m: map<Link, real>): real
    decreases |m|
  {
    if m == map[] then 0.0
    else
      var k :| k in m;
      SmallerMap(m, k);
      m[k] + Sum(m - {k})
  }

  lemma SmallerMap(m: map<Link, real>, k: Link)
    requires k in m
    ensures |m - {k}| < |m|
  {
    assert (m - {k}).Keys == m.Keys - {k};
  }

  lemma {:induction false} SumWithout(m: map<Link, real>, k: Link)
    requires k in m
    ensures Sum(m) == m[k] + Sum(m - {k})
    decreases |m|
  {
    SmallerMap(m, k);
    var j :| j in m && Sum(m) == m[j] + Sum(m - {j});
    if j != k {
      SmallerMap(m, j);
      SumWithout(m - {j}, k);
      SumWithout(m - {k}, j);
      assert m - {j} - {k} == m - {k} - {j};
    }
  }

  /** Adding one to one link adds one to the total. */
  lemma SumBumpOne(m: map<Link, real>, k: Link)
    ensures Sum(m[k := Weight(m, k) + 1.0]) == Sum(m) + 1.0
  {
    var u := m[k := Weight(m, k) + 1.0];
    SumWithout(u, k);
    assert u - {k} == m - {k};
    if k in m {
      SumWithout(m, k);
    } else {
      assert m - {k} == m;
    }
  }

  lemma BumpAllSplit(m: map<Link, real>, keys: set<Link>, k: Link)
    requires k in keys
    ensures var u := BumpAll(m, keys - {k}); BumpAll(m, keys) == u[k := Weight(u, k) + 1.0]
  {
  }

  lemma BumpNone(m: map<Link, real>)
    ensures BumpAll(m, {}) == m
  {
  }

  lemma {:induction false} SumBumpAll(m: map<Link, real>, keys: set<Link>)
    ensures Sum(BumpAll(m, keys)) == Sum(m) + |keys| as real
  {
    hide Sum, BumpAll, Weight;
    if k :| k in keys {
      var rest := keys - {k};
      SumBumpAll(m, rest);
      var u := BumpAll(m, rest);
      SumBumpOne(u, k);
      BumpAllSplit(m, keys, k);
    } else {
      assert keys == {} && |keys| == 0;
      BumpNone(m);
    }
  }

  /** The links between x and the notes of s. */
  function LinksOf(s: set<nat>, x: nat): set<Link> {
    set y | y in s :: if x < y then Link(x, y, CO_RETRIEVED) else Link(y, x, CO_RETRIEVED)
  }

  lemma {:induction false} LinksOfCount(s: set<nat>, x: nat)
    requires x !in s
    ensures |LinksOf(s, x)| == |s|
  {
    if s != {} {
      var y :| y in s;
      var l := if x < y then Link(x, y, CO_RETRIEVED) else Link(y, x, CO_RETRIEVED);
      LinksOfCount(s - {y}, x);
      assert LinksOf(s, x) == LinksOf(s - {y}, x) + {l};
      assert l !in LinksOf(s - {y}, x);
    } else {
      assert LinksOf(s, x) == {};
    }
  }

  lemma PairsSplit(s: set<nat>, x: nat)
    requires x in s
    ensures PairLinks(s) == PairLinks(s - {x}) + LinksOf(s - {x}, x)
    ensures PairLinks(s - {x}) !! LinksOf(s - {x}, x)
  {
    forall k | k in PairLinks(s) ensures k in PairLinks(s - {x}) + LinksOf(s - {x}, x) {
      if k.from == x {
        assert k.to in s - {x};
      } else if k.to == x {
        assert k.from in s - {x};
      }
    }
  }

  lemma PairsStep(s: set<nat>, x: nat)
    requires x in s
    ensures |PairLinks(s)| == |PairLinks(s - {x})| + |s - {x}|
  {
    PairsSplit(s, x);
    LinksOfCount(s - {x}, x);
  }

  lemma Triangle(n: nat, p: nat)
    requires 2 * p == n * (n - 1)
    ensures 2 * (p + n) == (n + 1) * n
  {
  }

  /** k notes make k(k-1)/2 pairs. */
  lemma {:induction false} PairCount(s: set<nat>)
    ensures 2 * |PairLinks(s)| == |s| * (|s| - 1)
  {
    hide PairLinks;
    if s != {} {
      var x :| x in s;
      var rest := s - {x};
      PairCount(rest);
      PairsStep(s, x);
      Triangle(|rest|, |PairLinks(rest)|);
      assert |s| == |rest| + 1;
    } else {
      NoPairs();
    }
  }

  lemma NoPairs()
    ensures PairLinks({}) == {}
  {
  }

  /** Reviewing a retrieval of k notes adds k(k-1)/2 to the total weight of co_retrieved links. */
  lemma ReviewAddsPairs(s: Store, qid: int)
    requires qid > 0
    ensures var k := |HitNotes(s, qid)|;
      Sum(CoRetrieved(Review(s, qid).links)) == Sum(CoRetrieved(s.links)) + (k * (k - 1)) as real / 2.0
  {
    var which := HitNotes(s, qid);
    var pairs, dups := PairLinks(which), DuplicateLinks(s.notes, which);
    PairCount(which);
    SumBumpAll(CoRetrieved(s.links), pairs);
    CoRetrievedBump(s.links, pairs, dups);
  }

  lemma CoRetrievedBump(links: map<Link, real>, pairs: set<Link>, dups: set<Link>)
    requires (forall k | k in pairs :: k.kind == CO_RETRIEVED) && forall k | k in dups :: k.kind == DUPLICATE
    ensures CoRetrieved(BumpAll(BumpAll(links, pairs), dups)) == BumpAll(CoRetrieved(links), pairs)
  {
    KindsDiffer();
  }
}

/**
  The hash table of src/bag.c as a value.  Slots hold 0 (never used), a negative
  number (deleted) or a positive element.  Every operation of the C file is a
  function here; the class in Bag.dfy carries them out on an array.
  */
module BagTable {

  /** cnt and used are kept by the code; that they count what they should is part of `Valid`. */
  datatype Table = Table(cnt: int, used: int, a: seq<int>)

  const EMPTY := Table(0, 0, [])

  /** What makes a probe stop: resizing wants a zero, finding a zero or e, inserting any free slot or e. */
  datatype Mode = ForEmpty | ForElement(e: int) | ForFree(e: int) {
    predicate Stops(v: int) {
      match this
      case ForEmpty => v == 0
      case ForElement(e) => v == 0 || v == e
      case ForFree(e) => v <= 0 || v == e
    }
  }

  // ---------------------------------------------------------------- probing

  /** a modulo n, by subtraction: linear terms are easier on the prover than `%` (see `ResidueIsMod`). */
  function Residue(a: int, n: int): (r: int)
    requires 0 <= a && 0 < n
    ensures 0 <= r < n
    decreases a
  {
    if a < n then a else Residue(a - n, n)
  }

  lemma {:induction false} ResidueIsMod(a: int, n: int)
    requires 0 <= a && 0 < n
    ensures Residue(a, n) == a % n
    decreases a
  {
    if a >= n {
      ResidueIsMod(a - n, n);
      assert a % n == (a - n) % n by { ModMinus(a, n); }
    }
  }

  lemma ModMinus(a: int, n: int)
    requires 0 < n <= a
    ensures a % n == (a - n) % n
  {
    var q, r := (a - n) / n, (a - n) % n;
    assert a == (q + 1) * n + r;
    ModUnique(a, n, q + 1, r);
  }

  lemma ModUnique(a: int, n: int, q: int, r: int)
    requires 0 < n && 0 <= r < n && a == q * n + r
    ensures a % n == r
  {
    var d := q - a / n;
    assert d * n == a % n - r;
    assert d >= 1 ==> d * n >= n;
    assert d <= -1 ==> d * n <= -n;
  }

  /** bag_hash(e) % n */
  function Hash(e: int, n: int): (h: int)
    requires e > 0 && n > 0
    ensures 0 <= h < n
  {
    Residue(e * 101, n)
  }

  function Succ(h: int, n: int): int {
    if h + 1 >= n then 0 else h + 1
  }

  /** The slot reached after k steps from slot s. */
  function SlotAt(n: int, s: int, k: int): (i: int)
    requires 0 <= s < n && 0 <= k < n
    ensures 0 <= i < n
  {
    if s + k < n then s + k else s + k - n
  }

  /** How many steps lead from slot s to slot i. */
  function Steps(n: int, s: int, i: int): (k: int)
    requires 0 <= s < n && 0 <= i < n
    ensures 0 <= k < n && SlotAt(n, s, k) == i
  {
    if i >= s then i - s else i + n - s
  }

  /** Number of steps a probe from s takes, having taken k; |t| when it never stops. */
  function Probe(t: seq<int>, m: Mode, s: int, k: int): (r: int)
    requires 0 <= s < |t| && 0 <= k <= |t|
    ensures k <= r <= |t|
    ensures r < |t| ==> m.Stops(t[SlotAt(|t|, s, r)])
    ensures forall j | k <= j < r :: !m.Stops(t[SlotAt(|t|, s, j)])
    decreases |t| - k
  {
    if k == |t| || m.Stops(t[SlotAt(|t|, s, k)]) then k else Probe(t, m, s, k + 1)
  }

  ghost predicate HasZero(t: seq<int>) {
    exists i | 0 <= i < |t| :: t[i] == 0
  }

  /** A table with a zero slot stops every probe. */
  lemma ProbeStops(t: seq<int>, m: Mode, s: int)
    requires 0 <= s < |t| && HasZero(t)
    ensures Probe(t, m, s, 0) < |t|
  {
    var i :| 0 <= i < |t| && t[i] == 0;
    var k := Steps(|t|, s, i);
    assert m.Stops(t[SlotAt(|t|, s, k)]);
  }

  /** The slot where the probe for e stops. */
  function Landing(t: seq<int>, m: Mode, e: int): (i: int)
    requires e > 0 && HasZero(t)
    ensures 0 <= i < |t| && m.Stops(t[i])
  {
    ProbeStops(t, m, Hash(e, |t|));
    SlotAt(|t|, Hash(e, |t|), Probe(t, m, Hash(e, |t|), 0))
  }

  // --------------------------------------------------------------- counting

  function One(v: int): multiset<int> {
    if v > 0 then multiset{v} else multiset{}
  }

  /** The elements in the table, with their multiplicity. */
  function Live(t: seq<int>): multiset<int> {
    if t == [] then multiset{} else Live(t[..|t| - 1]) + One(t[|t| - 1])
  }

  function NonZero(t: seq<int>): nat {
    if t == [] then 0 else NonZero(t[..|t| - 1]) + if t[|t| - 1] == 0 then 0 else 1
  }

  lemma {:induction false} LiveUpdate(t: seq<int>, i: int, v: int)
    requires 0 <= i < |t|
    ensures One(t[i]) <= Live(t)
    ensures Live(t[i := v]) == Live(t) - One(t[i]) + One(v)
  {
    hide One;
    var n := |t| - 1;
    if i == n {
      assert t[i := v][..n] == t[..n];
    } else {
      assert t[i := v][..n] == t[..n][i := v];
      LiveUpdate(t[..n], i, v);
      Exchange(Live(t[..n]), One(t[i]), One(v), One(t[n]));
    }
  }

  lemma Exchange(m: multiset<int>, a: multiset<int>, b: multiset<int>, c: multiset<int>)
    requires a <= m
    ensures a <= m + c && (m - a + b) + c == (m + c) - a + b
  {
  }

  lemma {:induction false} NonZeroUpdate(t: seq<int>, i: int, v: int)
    requires 0 <= i < |t|
    ensures NonZero(t[i := v]) == NonZero(t) - (if t[i] == 0 then 0 else 1) + (if v == 0 then 0 else 1)
  {
    var n := |t| - 1;
    if i == n {
      assert t[i := v][..n] == t[..n];
    } else {
      assert t[i := v][..n] == t[..n][i := v];
      NonZeroUpdate(t[..n], i, v);
    }
  }

  lemma CountsUpdate(t: seq<int>, i: int, v: int)
    requires 0 <= i < |t|
    ensures One(t[i]) <= Live(t)
    ensures Live(t[i := v]) == Live(t) - One(t[i]) + One(v)
    ensures |Live(t[i := v])| == |Live(t)| - |One(t[i])| + |One(v)|
    ensures NonZero(t[i := v]) == NonZero(t) - (if t[i] == 0 then 0 else 1) + (if v == 0 then 0 else 1)
  {
    LiveUpdate(t, i, v);
    NonZeroUpdate(t, i, v);
  }

  lemma {:induction false} LiveMembers(t: seq<int>, e: int)
    ensures e in Live(t) <==> e > 0 && e in t
  {
    if t != [] {
      LiveMembers(t[..|t| - 1], e);
      assert t == t[..|t| - 1] + [t[|t| - 1]];
    }
  }

  lemma {:induction false} NonZeroBound(t: seq<int>)
    ensures |Live(t)| <= NonZero(t) <= |t|
    ensures NonZero(t) < |t| ==> HasZero(t)
    ensures (forall i | 0 <= i < |t| :: t[i] >= 0) ==> NonZero(t) == |Live(t)|
  {
    if t != [] {
      var u := t[..|t| - 1];
      NonZeroBound(u);
      if HasZero(u) {
        var i :| 0 <= i < |u| && u[i] == 0;
        assert t[i] == 0;
      }
      if forall i | 0 <= i < |t| :: t[i] >= 0 {
        assert forall i | 0 <= i < |u| :: u[i] == t[i];
      }
    }
  }

  function Zeros(n: nat): (z: seq<int>)
    ensures |z| == n && forall i | 0 <= i < n :: z[i] == 0
  {
    seq(n, _ => 0)
  }

  lemma {:induction false} ZerosCount(t: seq<int>)
    requires forall i | 0 <= i < |t| :: t[i] == 0
    ensures Live(t) == multiset{} && NonZero(t) == 0
  {
    if t != [] {
      ZerosCount(t[..|t| - 1]);
    }
  }

  // -------------------------------------------------------------- invariant

  /** No zero lies on the probe path of e before slot i. */
  ghost predicate PathClear(t: seq<int>, e: int, i: int)
    requires e > 0 && 0 <= i < |t|
  {
    forall k | 0 <= k < Steps(|t|, Hash(e, |t|), i) :: t[SlotAt(|t|, Hash(e, |t|), k)] != 0
  }

  /** The probe invariant: every element can be reached from its hash slot. */
  ghost predicate Probed(t: seq<int>) {
    forall i | 0 <= i < |t| && t[i] > 0 :: PathClear(t, t[i], i)
  }

  ghost predicate Valid(t: Table) {
    && t.cnt == |Live(t.a)|
    && t.used == NonZero(t.a)
    && (|t.a| > 0 ==> t.used < |t.a| / 2)
    && Probed(t.a)
  }

  predicate NoTombstones(t: seq<int>) {
    forall i | 0 <= i < |t| :: t[i] >= 0
  }

  lemma ValidHasZero(t: Table)
    requires Valid(t) && |t.a| > 0
    ensures HasZero(t.a) && NonZero(t.a) + 1 < |t.a|
  {
    NonZeroBound(t.a);
  }

  // -------------------------------------------------------------- operations

  function Place(t: seq<int>, e: int): seq<int>
    requires e > 0 && HasZero(t)
  {
    t[Landing(t, ForEmpty, e) := e]
  }

  /** Puts the live elements of `src`, left to right, into `dst`. */
  function Rehash(src: seq<int>, dst: seq<int>): (r: seq<int>)
    requires NonZero(dst) + |Live(src)| < |dst|
    ensures |r| == |dst|
    decreases |src|
  {
    if src == [] then dst
    else
      RehashStep(src, dst);
      Rehash(src[1..], if src[0] > 0 then Place(dst, src[0]) else dst)
  }

  lemma {:induction false} LiveHead(t: seq<int>)
    requires t != []
    ensures Live(t) == One(t[0]) + Live(t[1..])
    ensures NonZero(t) == (if t[0] == 0 then 0 else 1) + NonZero(t[1..])
  {
    hide One;
    var n := |t| - 1;
    if n == 0 {
      assert t[..0] == [] && t[1..] == [];
    } else {
      LiveHead(t[..n]);
      assert t[..n][1..] == t[1..][..n - 1];
    }
  }

  lemma RehashStep(src: seq<int>, dst: seq<int>)
    requires src != [] && NonZero(dst) + |Live(src)| < |dst|
    ensures HasZero(dst)
    ensures src[0] > 0 ==> NonZero(Place(dst, src[0])) + |Live(src[1..])| < |dst|
    ensures NonZero(dst) + |Live(src[1..])| < |dst|
  {
    LiveHead(src);
    NonZeroBound(dst);
    if src[0] > 0 {
      CountsUpdate(dst, Landing(dst, ForEmpty, src[0]), src[0]);
    }
  }

  lemma ZerosRehash(src: seq<int>, n: nat)
    requires |Live(src)| < n
    ensures NonZero(Zeros(n)) + |Live(src)| < n
  {
    ZerosCount(Zeros(n));
  }

  function Resize(t: Table, newSize: nat): Table
    requires |Live(t.a)| < newSize
  {
    ZerosRehash(t.a, newSize);
    Table(t.cnt, t.cnt, Rehash(t.a, Zeros(newSize)))
  }

  predicate Full(t: Table) {
    t.used + 1 >= |t.a| / 2
  }

  function Grown(t: Table): Table
    requires Valid(t)
  {
    if Full(t) then
      NonZeroBound(t.a);
      Resize(t, |t.a| * 2 + 20)
    else t
  }

  /** bag_insert: the new table and whether the code says it inserted. */
  function Insert(t: Table, e: int): (Table, bool)
    requires Valid(t) && e > 0
  {
    GrownCorrect(t);
    ValidHasZero(Grown(t));
    var u := Grown(t);
    var h := Landing(u.a, ForFree(e), e);
    if u.a[h] <= 0 then
      (Table(u.cnt + 1, if u.a[h] == 0 then u.used + 1 else u.used, u.a[h := e]), true)
    else
      (u, false)
  }

  predicate Find(t: Table, e: int)
    requires Valid(t) && e > 0
  {
    if |t.a| == 0 then false
    else
      ValidHasZero(t);
      t.a[Landing(t.a, ForElement(e), e)] == e
  }

  /** The slots after the element in slot h was deleted, before any clearing or shrinking. */
  function Vacate(t: Table, h: int): Table
    requires 0 <= h < |t.a|
  {
    if t.a[Succ(h, |t.a|)] == 0 then
      Table(t.cnt - 1, t.used - 1, t.a[h := 0])
    else
      Table(t.cnt - 1, t.used, t.a[h := -1])
  }

  function Remove(t: Table, e: int): Table
    requires Valid(t) && e > 0
  {
    if |t.a| == 0 then t
    else
      ValidHasZero(t);
      var h := Landing(t.a, ForElement(e), e);
      if t.a[h] == 0 then t
      else
        VacateCorrect(t, e, h);
        var u := Vacate(t, h);
        if u.cnt == 0 then Table(0, 0, Zeros(|u.a|))
        else if |u.a| > 40 && u.cnt < |u.a| / 8 then Resize(u, |u.a| / 2)
        else u
  }

  // ------------------------------------------------- the operations are right

  /** Filling a zero slot, or any free slot, at the end of e's own clear path keeps the probe invariant. */
  lemma FillKeepsProbed(t: seq<int>, e: int, h: int)
    requires Probed(t) && e > 0 && 0 <= h < |t| && PathClear(t, e, h)
    ensures Probed(t[h := e])
  {
    var u := t[h := e];
    forall i | 0 <= i < |u| && u[i] > 0 ensures PathClear(u, u[i], i) {
      if i != h {
        assert PathClear(t, t[i], i);
      }
    }
  }

  lemma LandingPathClear(t: seq<int>, m: Mode, e: int)
    requires e > 0 && HasZero(t)
    ensures PathClear(t, e, Landing(t, m, e))
  {
    ProbeStops(t, m, Hash(e, |t|));
    var s, r := Hash(e, |t|), Probe(t, m, Hash(e, |t|), 0);
    assert Steps(|t|, s, SlotAt(|t|, s, r)) == r;
    forall k | 0 <= k < r ensures t[SlotAt(|t|, s, k)] != 0 {
      assert !m.Stops(t[SlotAt(|t|, s, k)]);
    }
  }

  lemma PlaceCorrect(t: seq<int>, e: int)
    requires e > 0 && HasZero(t) && Probed(t) && NoTombstones(t)
    ensures |Place(t, e)| == |t| && Probed(Place(t, e)) && NoTombstones(Place(t, e))
    ensures Live(Place(t, e)) == Live(t) + multiset{e} && NonZero(Place(t, e)) == NonZero(t) + 1
  {
    hide Hash, Probe, Live, NonZero;
    var h := Landing(t, ForEmpty, e);
    LandingPathClear(t, ForEmpty, e);
    FillKeepsProbed(t, e, h);
    CountsUpdate(t, h, e);
  }

  lemma {:induction false} RehashCorrect(src: seq<int>, dst: seq<int>)
    requires NonZero(dst) + |Live(src)| < |dst|
    requires Probed(dst) && NoTombstones(dst)
    ensures Probed(Rehash(src, dst)) && NoTombstones(Rehash(src, dst))
    ensures Live(Rehash(src, dst)) == Live(dst) + Live(src)
    decreases |src|
  {
    hide NonZero, Probed, NoTombstones, HasZero, Place;
    if src != [] {
      RehashStep(src, dst);
      assert Live(src) == One(src[0]) + Live(src[1..]) by { LiveHead(src); }
      if src[0] > 0 {
        PlaceCorrect(dst, src[0]);
        RehashCorrect(src[1..], Place(dst, src[0]));
      } else {
        RehashCorrect(src[1..], dst);
      }
    } else {
      assert Live(src) == multiset{};
    }
  }

  /** Resizing keeps the elements, drops every tombstone and restores used == cnt. */
  lemma ResizeCorrect(t: Table, newSize: nat)
    requires t.cnt == |Live(t.a)| < newSize / 2
    ensures var u := Resize(t, newSize);
      Valid(u) && |u.a| == newSize && Live(u.a) == Live(t.a) && NoTombstones(u.a) && u.used == u.cnt == t.cnt
  {
    ZerosRehash(t.a, newSize);
    ZerosCount(Zeros(newSize));
    RehashCorrect(t.a, Zeros(newSize));
    NonZeroBound(Resize(t, newSize).a);
  }

  lemma GrownCorrect(t: Table)
    requires Valid(t)
    ensures Valid(Grown(t)) && !Full(Grown(t)) && |Grown(t).a| > 0
    ensures Live(Grown(t).a) == Live(t.a) && Grown(t).cnt == t.cnt
    ensures Full(t) || NoTombstones(t.a) ==> NoTombstones(Grown(t).a)
  {
    NonZeroBound(t.a);
    if Full(t) {
      assert t.cnt <= |t.a|;
      ResizeCorrect(t, |t.a| * 2 + 20);
    }
  }

  /** bag_find answers the membership question exactly. */
  lemma FindCorrect(t: Table, e: int)
    requires Valid(t) && e > 0
    ensures Find(t, e) <==> e in Live(t.a)
    ensures Find(t, e) <==> e in t.a
  {
    LiveMembers(t.a, e);
    if |t.a| > 0 {
      ValidHasZero(t);
      LandingFindsElement(t.a, e);
    }
  }

  lemma LandingFindsElement(t: seq<int>, e: int)
    requires e > 0 && HasZero(t) && Probed(t)
    ensures e in t ==> t[Landing(t, ForElement(e), e)] == e
  {
    if e in t {
      var i :| 0 <= i < |t| && t[i] == e;
      assert PathClear(t, e, i);
      ProbeStops(t, ForElement(e), Hash(e, |t|));
      var s, r := Hash(e, |t|), Probe(t, ForElement(e), Hash(e, |t|), 0);
      var k := Steps(|t|, s, i);
      assert ForElement(e).Stops(t[SlotAt(|t|, s, k)]);
      if r < k {
        assert t[SlotAt(|t|, s, r)] != 0;
      } else {
        assert r == k;
      }
    }
  }

  /** e's probe path leads to a copy of e over live elements only. */
  ghost predicate Visible(t: seq<int>, e: int)
    requires e > 0
  {
    exists i | 0 <= i < |t| && t[i] == e ::
      forall k | 0 <= k < Steps(|t|, Hash(e, |t|), i) :: t[SlotAt(|t|, Hash(e, |t|), k)] > 0
  }

  lemma FreeLanding(t: seq<int>, e: int)
    requires e > 0 && HasZero(t)
    ensures t[Landing(t, ForFree(e), e)] > 0 <==> Visible(t, e)
  {
    ProbeStops(t, ForFree(e), Hash(e, |t|));
    var s, r := Hash(e, |t|), Probe(t, ForFree(e), Hash(e, |t|), 0);
    var h := Landing(t, ForFree(e), e);
    assert Steps(|t|, s, h) == r;
    if t[h] > 0 {
      assert t[h] == e;
      forall k | 0 <= k < r ensures t[SlotAt(|t|, s, k)] > 0 {
        assert !ForFree(e).Stops(t[SlotAt(|t|, s, k)]);
      }
    }
    if Visible(t, e) {
      var i :| 0 <= i < |t| && t[i] == e &&
        forall k | 0 <= k < Steps(|t|, s, i) :: t[SlotAt(|t|, s, k)] > 0;
      var k := Steps(|t|, s, i);
      assert ForFree(e).Stops(t[SlotAt(|t|, s, k)]);
      if r < k {
        assert t[SlotAt(|t|, s, r)] > 0;
      } else {
        assert r == k;
      }
    }
  }

  /** Storing e where its probe for a free slot stopped, if that slot is free. */
  lemma FillCorrect(t: Table, e: int)
    requires Valid(t) && e > 0 && HasZero(t.a) && !Full(t)
    ensures var h := Landing(t.a, ForFree(e), e);
      t.a[h] <= 0 ==>
        && Valid(Table(t.cnt + 1, if t.a[h] == 0 then t.used + 1 else t.used, t.a[h := e]))
        && Live(t.a[h := e]) == Live(t.a) + multiset{e}
  {
    hide Hash, Probe, Live, NonZero;
    var h := Landing(t.a, ForFree(e), e);
    if t.a[h] <= 0 {
      LandingPathClear(t.a, ForFree(e), e);
      FillKeepsProbed(t.a, e, h);
      CountsUpdate(t.a, h, e);
    }
  }

  /** bag_insert adds exactly one copy when it answers true and none when it answers false;
      it answers false exactly when a probe over live elements alone reaches e. */
  lemma InsertCorrect(t: Table, e: int)
    requires Valid(t) && e > 0
    ensures var (u, r) := Insert(t, e);
      && Valid(u)
      && Live(u.a) == (if r then Live(t.a) + multiset{e} else Live(t.a))
      && u.cnt == t.cnt + (if r then 1 else 0)
      && (r <==> !Visible(Grown(t).a, e))
      && (NoTombstones(t.a) || Full(t) ==> NoTombstones(u.a))
  {
    hide Hash, Probe, Live, NonZero, Landing, Valid, Grown, Visible, Full;
    GrownCorrect(t);
    ValidHasZero(Grown(t));
    FreeLanding(Grown(t).a, e);
    FillCorrect(Grown(t), e);
  }

  /** Inserting what bag_find does not see adds it. */
  lemma InsertAbsent(t: Table, e: int)
    requires Valid(t) && e > 0 && !Find(t, e)
    ensures Insert(t, e).1 && Live(Insert(t, e).0.a) == Live(t.a) + multiset{e}
  {
    hide Hash, Probe, Live, NonZero, Landing, Valid, Grown, Find, Insert;
    InsertCorrect(t, e);
    FindCorrect(t, e);
    GrownCorrect(t);
    LiveMembers(Grown(t).a, e);
  }

  /** The element sits behind a deleted slot: some negative slot comes before every copy on its path. */
  ghost predicate BehindTombstone(t: seq<int>, e: int)
    requires e > 0 && |t| > 0
  {
    exists k | 0 <= k < |t| ::
      && t[SlotAt(|t|, Hash(e, |t|), k)] < 0
      && forall j | 0 <= j < k :: t[SlotAt(|t|, Hash(e, |t|), j)] != e
  }

  lemma VisibleOrBehind(t: seq<int>, e: int)
    requires e > 0 && HasZero(t) && Probed(t) && e in t
    ensures Visible(t, e) <==> !BehindTombstone(t, e)
  {
    hide Hash;
    LandingFindsElement(t, e);
    ProbeStops(t, ForElement(e), Hash(e, |t|));
    var n, s := |t|, Hash(e, |t|);
    var r := Probe(t, ForElement(e), s, 0);
    var h := Landing(t, ForElement(e), e);
    assert t[h] == e && Steps(n, s, h) == r;
    assert forall j | 0 <= j < r :: !ForElement(e).Stops(t[SlotAt(n, s, j)]);
    if k :| 0 <= k < r && t[SlotAt(n, s, k)] <= 0 {
      assert t[SlotAt(n, s, k)] < 0;
      assert BehindTombstone(t, e);
      forall i | 0 <= i < n && t[i] == e ensures k < Steps(n, s, i) {
        assert t[SlotAt(n, s, Steps(n, s, i))] == e;
      }
    }
  }

  /** The second copy, exactly: inserting an element that is already present adds it again if and
      only if the table is not being resized and a deleted slot precedes the element on its path. */
  lemma SecondCopyExactly(t: Table, e: int)
    requires Valid(t) && e > 0 && Find(t, e)
    ensures Insert(t, e).1 <==> !Full(t) && BehindTombstone(t.a, e)
  {
    hide Hash, Probe, Live, NonZero, Landing, Find, Insert, Visible, BehindTombstone, Full;
    InsertCorrect(t, e);
    FindCorrect(t, e);
    GrownCorrect(t);
    ValidHasZero(Grown(t));
    LiveMembers(Grown(t).a, e);
    VisibleOrBehind(Grown(t).a, e);
    if Full(t) {
      NothingBehind(Grown(t).a, e);
    }
  }

  lemma NothingBehind(t: seq<int>, e: int)
    requires e > 0 && |t| > 0 && NoTombstones(t)
    ensures !BehindTombstone(t, e)
  {
    hide Hash;
  }

  lemma SuccOnPath(n: int, s: int, h: int, i: int)
    requires 0 <= s < n && 0 <= i < n && 0 <= h < n && Steps(n, s, h) < Steps(n, s, i)
    ensures Steps(n, s, h) + 1 < n && SlotAt(n, s, Steps(n, s, h) + 1) == Succ(h, n)
    ensures Succ(h, n) != i ==> Steps(n, s, h) + 1 < Steps(n, s, i)
  {
  }

  lemma VacatePath(t: seq<int>, s: int, i: int, h: int, v: int)
    requires 0 <= s < |t| && 0 <= i < |t| && 0 <= h < |t| && i != h && t[i] != 0
    requires forall k | 0 <= k < Steps(|t|, s, i) :: t[SlotAt(|t|, s, k)] != 0
    requires v != 0 || t[Succ(h, |t|)] == 0
    ensures forall k | 0 <= k < Steps(|t|, s, i) :: t[h := v][SlotAt(|t|, s, k)] != 0
  {
    var n := |t|;
    if v == 0 && Steps(n, s, h) < Steps(n, s, i) {
      SuccOnPath(n, s, h, i);
      assert false;
    }
  }

  /** Writing 0 into a slot whose successor is 0 breaks nobody's path; writing -1 never does. */
  lemma VacateKeepsProbed(t: seq<int>, h: int, v: int)
    requires Probed(t) && 0 <= h < |t| && v <= 0
    requires v != 0 || t[Succ(h, |t|)] == 0
    ensures Probed(t[h := v])
  {
    hide Hash;
    var u := t[h := v];
    forall i | 0 <= i < |u| && u[i] > 0 ensures PathClear(u, u[i], i) {
      assert PathClear(t, t[i], i);
      VacatePath(t, Hash(t[i], |t|), i, h, v);
    }
  }

  lemma VacateCorrect(t: Table, e: int, h: int)
    requires Valid(t) && e > 0 && 0 <= h < |t.a| && t.a[h] == e
    ensures Valid(Vacate(t, h)) && Live(Vacate(t, h).a) == Live(t.a) - multiset{e}
    ensures Vacate(t, h).cnt == t.cnt - 1
    ensures Vacate(t, h).cnt == |Live(Vacate(t, h).a)| < |t.a| / 2
  {
    hide Hash, Live, NonZero, Probed, HasZero;
    ValidHasZero(t);
    NonZeroBound(t.a);
    var v := if t.a[Succ(h, |t.a|)] == 0 then 0 else -1;
    CountsUpdate(t.a, h, v);
    VacateKeepsProbed(t.a, h, v);
  }

  /** bag_remove deletes exactly one copy of e and nothing else, through clearing and shrinking. */
  lemma RemoveCorrect(t: Table, e: int)
    requires Valid(t) && e > 0
    ensures Valid(Remove(t, e)) && Live(Remove(t, e).a) == Live(t.a) - multiset{e}
  {
    hide Hash, Probe, Landing;
    FindCorrect(t, e);
    if |t.a| > 0 {
      ValidHasZero(t);
      var h := Landing(t.a, ForElement(e), e);
      if t.a[h] != 0 {
        VacateCorrect(t, e, h);
        var u := Vacate(t, h);
        if u.cnt == 0 {
          ZerosCount(Zeros(|u.a|));
        } else if |u.a| > 40 && u.cnt < |u.a| / 8 {
          ResizeCorrect(u, |u.a| / 2);
        }
      }
    }
  }
}

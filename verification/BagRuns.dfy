/** Whole runs of bag operations, and iteration over a bag (src/bag.c). */
module BagRuns {
  import opened BagTable

  datatype Op = Ins(e: int) | Rem(e: int)

  ghost predicate Legal(ops: seq<Op>) {
    forall i | 0 <= i < |ops| :: ops[i].e > 0
  }

  function Apply(t: Table, op: Op): (u: Table)
    requires Valid(t) && op.e > 0
    ensures Valid(u)
  {
    InsertCorrect(t, op.e);
    RemoveCorrect(t, op.e);
    match op
    case Ins(e) => Insert(t, e).0
    case Rem(e) => Remove(t, e)
  }

  /** The table after any sequence of operations on an empty bag.  The invariant, and with it
      the count of live and used slots and the load bound, holds in every reachable state. */
  function Run(ops: seq<Op>): (t: Table)
    requires Legal(ops)
    ensures Valid(t)
    ensures |t.a| > 0 ==> HasZero(t.a)
  {
    if ops == [] then
      EMPTY
    else
      var t := Apply(Run(ops[..|ops| - 1]), ops[|ops| - 1]);
      assert |t.a| > 0 ==> HasZero(t.a) by { if |t.a| > 0 { ValidHasZero(t); } }
      t
  }

  /** The same run on a mathematical set. */
  ghost function SetRun(ops: seq<Op>): set<int> {
    if ops == [] then {}
    else
      var s := SetRun(ops[..|ops| - 1]);
      match ops[|ops| - 1]
      case Ins(e) => s + {e}
      case Rem(e) => s - {e}
  }

  /** The bag holds exactly the elements of s, each once, and every query agrees with s. */
  ghost predicate Represents(t: Table, s: set<int>)
    requires Valid(t)
  {
    && Live(t.a) == multiset(s)
    && t.cnt == |s|
    && forall e | e > 0 :: Find(t, e) <==> e in s
  }

  lemma RepresentsFromLive(t: Table, s: set<int>)
    requires Valid(t) && Live(t.a) == multiset(s)
    ensures Represents(t, s)
  {
    hide Find, Valid, Live;
    assert t.cnt == |Live(t.a)| by { assert Valid(t); CountIsLive(t); }
    forall e | e > 0 ensures Find(t, e) <==> e in s {
      FindCorrect(t, e);
    }
  }

  lemma CountIsLive(t: Table)
    requires Valid(t)
    ensures t.cnt == |Live(t.a)|
  {
  }

  /** One operation on a bag that represents a set, when an insertion is either of an
      absent element or into a table without deleted slots. */
  lemma ApplyRefines(t: Table, op: Op, s: set<int>)
    requires Valid(t) && op.e > 0 && Live(t.a) == multiset(s)
    requires op.Ins? ==> !Find(t, op.e) || NoTombstones(t.a)
    ensures Live(Apply(t, op).a) == multiset(if op.Ins? then s + {op.e} else s - {op.e})
    ensures op.Ins? ==> (Insert(t, op.e).1 <==> op.e !in s)
    ensures op.Ins? && NoTombstones(t.a) ==> NoTombstones(Apply(t, op).a)
  {
    hide Find, Valid, Live, Insert, Remove, NoTombstones, Full;
    InsertCorrect(t, op.e);
    RemoveCorrect(t, op.e);
    FindCorrect(t, op.e);
    match op
    case Rem(e) =>
    case Ins(e) =>
      if e in s {
        assert !Insert(t, e).1 by {
          SecondCopyExactly(t, e);
          NoTombstoneMeansNothingBehind(t, e);
        }
        assert multiset(s + {e}) == multiset(s) by { assert s + {e} == s; }
      } else {
        InsertAbsent(t, e);
      }
  }

  lemma NoTombstoneMeansNothingBehind(t: Table, e: int)
    requires Valid(t) && e > 0 && NoTombstones(t.a)
    ensures !Full(t) ==> !BehindTombstone(t.a, e)
  {
    hide Hash;
    if !Full(t) {
      NothingBehind(t.a, e);
    }
  }

  /** bag_insert is only called on elements bag_find reports absent. */
  ghost predicate Disciplined(ops: seq<Op>)
    requires Legal(ops)
  {
    forall i | 0 <= i < |ops| && ops[i].Ins? :: !Find(Run(ops[..i]), ops[i].e)
  }

  /** A disciplined run is a run of a set: same elements, same size, same answers. */
  lemma {:induction false} DisciplinedRunIsSet(ops: seq<Op>)
    requires Legal(ops) && Disciplined(ops)
    ensures Represents(Run(ops), SetRun(ops))
  {
    hide Find, Valid, Live, Apply, Represents;
    if ops == [] {
      assert Live(EMPTY.a) == multiset{} by { ZerosCount(EMPTY.a); }
      RepresentsFromLive(Run(ops), {});
    } else {
      var pre, op := ops[..|ops| - 1], ops[|ops| - 1];
      assert forall i | 0 <= i < |pre| :: ops[..i] == pre[..i];
      DisciplinedRunIsSet(pre);
      LiveOfRepresents(Run(pre), SetRun(pre));
      ApplyRefines(Run(pre), op, SetRun(pre));
      RepresentsFromLive(Run(ops), SetRun(ops));
    }
  }

  lemma LiveOfRepresents(t: Table, s: set<int>)
    requires Valid(t) && Represents(t, s)
    ensures Live(t.a) == multiset(s)
  {
  }

  /** So is a run that never removes, whatever it inserts; there bag_insert's answer is
      exactly "was absent". */
  lemma {:induction false} InsertOnlyRunIsSet(ops: seq<Op>)
    requires Legal(ops) && forall i | 0 <= i < |ops| :: ops[i].Ins?
    ensures Represents(Run(ops), SetRun(ops)) && NoTombstones(Run(ops).a)
    ensures forall e | e > 0 :: Insert(Run(ops), e).1 <==> e !in SetRun(ops)
  {
    hide Find, Valid, Live, Apply, Represents, NoTombstones, Insert;
    var t, s := Run(ops), SetRun(ops);
    if ops == [] {
      assert Live(EMPTY.a) == multiset{} && NoTombstones(EMPTY.a) by { ZerosCount(EMPTY.a); EmptyHasNoTombstones(); }
    } else {
      var pre, op := ops[..|ops| - 1], ops[|ops| - 1];
      InsertOnlyRunIsSet(pre);
      LiveOfRepresents(Run(pre), SetRun(pre));
      ApplyRefines(Run(pre), op, SetRun(pre));
    }
    RepresentsFromLive(t, s);
    forall e | e > 0 ensures Insert(t, e).1 <==> e !in s {
      ApplyRefines(t, Ins(e), s);
    }
  }

  lemma EmptyHasNoTombstones()
    ensures NoTombstones(EMPTY.a)
  {
  }

  /** The header of src/bag.c promises no duplicates for every run; this run breaks it.
      1 and 21 share slot 1 of 20; deleting 1 leaves a deleted slot in front of 21. */
  lemma DuplicateExample()
    ensures var ops := [Ins(1), Ins(21), Rem(1), Ins(21)];
      Legal(ops) && Live(Run(ops).a) == multiset{21, 21} && Run(ops).cnt == 2
  {
    hide Find, Valid, Live, Insert, Run;
    DuplicateTable();
    SecondCopyOfRunning();
    InsertIntoRunning();
    InsertCorrect(RunningTable(), 21);
  }

  function RunningTable(): Table {
    Table(1, 2, Zeros(20)[1 := -1][2 := 21])
  }

  lemma GrownEmpty()
    ensures Valid(EMPTY) && Grown(EMPTY) == Table(0, 0, Zeros(20))
  {
    hide NonZero, Probed;
    assert Valid(EMPTY) by { ZerosCount(EMPTY.a); NothingProbed(); }
    ZerosRehash([], 20);
    assert Rehash([], Zeros(20)) == Zeros(20);
  }

  lemma FirstInsert()
    ensures Valid(EMPTY) && Insert(EMPTY, 1) == (Table(1, 1, Zeros(20)[1 := 1]), true)
    ensures Valid(Table(1, 1, Zeros(20)[1 := 1]))
  {
    hide NonZero, Probed, Valid, Grown, Live;
    GrownEmpty();
    GrownCorrect(EMPTY);
    ValidHasZero(Grown(EMPTY));
    assert Hash(1, 20) == 1 by { ResidueIsMod(101, 20); }
    assert Landing(Zeros(20), ForFree(1), 1) == 1;
    InsertCorrect(EMPTY, 1);
  }

  lemma NothingProbed()
    ensures Probed([])
  {
  }

  lemma SecondInsert()
    ensures Valid(Table(1, 1, Zeros(20)[1 := 1]))
    ensures Insert(Table(1, 1, Zeros(20)[1 := 1]), 21).0 == Table(2, 2, Zeros(20)[1 := 1][2 := 21])
    ensures Valid(Table(2, 2, Zeros(20)[1 := 1][2 := 21]))
  {
    hide Valid, NonZero, Live;
    FirstInsert();
    InsertCorrect(Table(1, 1, Zeros(20)[1 := 1]), 21);
    assert Hash(21, 20) == 1 by { ResidueIsMod(2121, 20); }
    assert Probe(Zeros(20)[1 := 1], ForFree(21), 1, 1) == 1;
  }

  lemma ThirdRemove()
    ensures Valid(Table(2, 2, Zeros(20)[1 := 1][2 := 21]))
    ensures Remove(Table(2, 2, Zeros(20)[1 := 1][2 := 21]), 1) == RunningTable()
  {
    hide Valid, NonZero, Live;
    SecondInsert();
    assert Hash(1, 20) == 1 by { ResidueIsMod(101, 20); }
    assert Zeros(20)[1 := 1][2 := 21][1 := -1] == Zeros(20)[1 := -1][2 := 21];
  }

  lemma SecondCopyOfRunning()
    ensures Valid(RunningTable()) && Live(RunningTable().a) == multiset{21}
  {
    hide Live, NonZero, Valid;
    ThirdRemove();
    RemoveCorrect(Table(2, 2, Zeros(20)[1 := 1][2 := 21]), 1);
    CountsUpdate(Zeros(20), 1, -1);
    CountsUpdate(Zeros(20)[1 := -1], 2, 21);
    ZerosCount(Zeros(20));
  }

  lemma InsertIntoRunning()
    requires Valid(RunningTable())
    ensures Insert(RunningTable(), 21) == (Table(2, 2, Zeros(20)[1 := 21][2 := 21]), true)
  {
    hide Live, NonZero, Valid, Resize;
    var t := RunningTable();
    assert !Full(t);
    GrownCorrect(t);
    ValidHasZero(t);
    assert Hash(21, 20) == 1 by { ResidueIsMod(2121, 20); }
    assert Landing(t.a, ForFree(21), 21) == 1;
    assert t.a[1 := 21] == Zeros(20)[1 := 21][2 := 21];
  }

  lemma DuplicateTable()
    ensures var ops := [Ins(1), Ins(21), Rem(1), Ins(21)];
      Legal(ops) && Run(ops) == Table(2, 2, Zeros(20)[1 := 21][2 := 21])
  {
    hide Find, Valid, Live, Insert, Remove, NonZero, Landing, Full;
    var o1, o2, o3 := [Ins(1)], [Ins(1), Ins(21)], [Ins(1), Ins(21), Rem(1)];
    var o4 := [Ins(1), Ins(21), Rem(1), Ins(21)];
    assert o1[..0] == [] && o2[..1] == o1 && o3[..2] == o2 && o4[..3] == o3;
    FirstInsert();
    SecondInsert();
    ThirdRemove();
    SecondCopyOfRunning();
    InsertIntoRunning();
  }

  // ---------------------------------------------------------- where and when, exactly

  /** Two elements start their probes in the same slot exactly if the table size divides 101 times their difference. */
  lemma SameHomeExactly(e: int, f: int, n: int)
    requires e > 0 && f > 0 && n > 0
    ensures Hash(e, n) == Hash(f, n) <==> 101 * (e - f) % n == 0
  {
    var a, b := e * 101, f * 101;
    ResidueIsMod(a, n);
    ResidueIsMod(b, n);
    SameResidue(a, b, n);
    assert 101 * (e - f) == a - b;
  }

  lemma SameResidue(a: int, b: int, n: int)
    requires n > 0
    ensures a % n == b % n <==> (a - b) % n == 0
  {
    var qa, qb, q := a / n, b / n, (a - b) / n;
    if a % n == b % n {
      assert a - b == (qa - qb) * n;
      ModUnique(a - b, n, qa - qb, 0);
    }
    if (a - b) % n == 0 {
      assert a == (q + qb) * n + b % n;
      ModUnique(a, n, q + qb, b % n);
    }
  }

  /** bag_insert makes room exactly when, with the new element, half of the slots would be used. */
  lemma InsertSizeExactly(t: Table, e: int)
    requires Valid(t) && e > 0
    ensures |Insert(t, e).0.a| == if t.used + 1 >= |t.a| / 2 then 2 * |t.a| + 20 else |t.a|
  {
    hide Live, NonZero, Probed, Landing;
    GrownCorrect(t);
    NonZeroBound(t.a);
    ValidHasZero(Grown(t));
  }

  /** What bag_remove does with a present element, by what is left: nothing left, all slots are zeroed; little left in
      a table of more than 40 slots, it is halved; otherwise one slot changes, to 0 if the next one is 0. */
  lemma RemoveExactly(t: Table, e: int)
    requires Valid(t) && e > 0 && Live(t.a)[e] > 0
    ensures
      var u, left := Remove(t, e), |Live(t.a)| - 1;
      && (left == 0 ==> u.a == seq(|t.a|, _ => 0))
      && (left > 0 && |t.a| > 40 && left < |t.a| / 8 ==> |u.a| == |t.a| / 2 && NoTombstones(u.a))
      && (left > 0 && !(|t.a| > 40 && left < |t.a| / 8) ==>
            exists h | 0 <= h < |t.a| && t.a[h] == e ::
              u.a == t.a[h := if t.a[if h + 1 == |t.a| then 0 else h + 1] == 0 then 0 else -1])
  {
    hide Live, NonZero, Probed, Landing, HasZero, Hash;
    FindCorrect(t, e);
    CountIsLive(t);
    ValidHasZero(t);
    var h := Landing(t.a, ForElement(e), e);
    VacateCorrect(t, e, h);
    var u := Vacate(t, h);
    if u.cnt > 0 && |u.a| > 40 && u.cnt < |u.a| / 8 {
      ResizeCorrect(u, |u.a| / 2);
    }
  }

  /** In every run an empty bag has no deleted slots, and a bag that was ever used has 20 slots or more. */
  lemma {:induction false} RoomInRuns(ops: seq<Op>)
    requires Legal(ops)
    ensures Run(ops).cnt == 0 ==> Run(ops).used == 0
    ensures if ops == [] || Run(ops).a == [] then Run(ops).used == 0 else |Run(ops).a| >= 20
    ensures (exists i | 0 <= i < |ops| :: ops[i].Ins?) ==> |Run(ops).a| >= 20
  {
    hide Valid, Live, Insert, Remove;
    if ops != [] {
      var pre, op := ops[..|ops| - 1], ops[|ops| - 1];
      RoomInRuns(pre);
      assert forall i | 0 <= i < |pre| :: pre[i] == ops[i];
      RoomStep(Run(pre), op);
    }
  }

  lemma RoomStep(t: Table, op: Op)
    requires Valid(t) && op.e > 0 && (t.cnt == 0 ==> t.used == 0) && (|t.a| == 0 || |t.a| >= 20)
    ensures var u := Apply(t, op);
      && (u.cnt == 0 ==> u.used == 0)
      && (op.Ins? || |t.a| > 0 ==> |u.a| >= 20)
      && (op.Rem? && |t.a| == 0 ==> u == t)
  {
    hide Valid, Insert, Remove, Live, Find;
    match op
    case Ins(e) =>
      UsedNotNegative(t);
      InsertSizeExactly(t, e);
      NotEmptyAfterInsert(t, e);
    case Rem(e) => RoomAfterRemove(t, e);
  }

  lemma UsedNotNegative(t: Table)
    requires Valid(t)
    ensures t.used >= 0
  {
  }

  lemma NotEmptyAfterInsert(t: Table, e: int)
    requires Valid(t) && e > 0
    ensures Insert(t, e).0.cnt > 0
  {
    hide Insert, Live, Find, Valid;
    InsertCorrect(t, e);
    FindCorrect(t, e);
    CountIsLive(t);
    if !Find(t, e) {
      InsertAbsent(t, e);
    }
    CountIsLive(Insert(t, e).0);
  }

  lemma RoomAfterRemove(t: Table, e: int)
    requires Valid(t) && e > 0 && (t.cnt == 0 ==> t.used == 0) && (|t.a| == 0 || |t.a| >= 20)
    ensures var u := Remove(t, e); (u.cnt == 0 ==> u.used == 0) && (if |t.a| > 0 then |u.a| >= 20 else u == t)
  {
    hide Live, NonZero, Probed, Landing, HasZero, Hash, Rehash;
    if |t.a| > 0 {
      ValidHasZero(t);
      var h := Landing(t.a, ForElement(e), e);
      if t.a[h] != 0 {
        VacateCorrect(t, e, h);
        var u := Vacate(t, h);
        if u.cnt > 0 && |u.a| > 40 && u.cnt < |u.a| / 8 {
          ResizeCorrect(u, |u.a| / 2);
        }
      }
    }
  }

  // -------------------------------------------------------------- iteration

  /** The live elements in slot order. */
  function Positives(t: seq<int>): seq<int> {
    if t == [] then [] else (if t[0] > 0 then [t[0]] else []) + Positives(t[1..])
  }

  function HeadOrZero(s: seq<int>): int {
    if s == [] then 0 else s[0]
  }

  lemma {:induction false} PositivesAreLive(t: seq<int>)
    ensures multiset(Positives(t)) == Live(t)
  {
    if t != [] {
      PositivesAreLive(t[1..]);
      LiveHead(t);
    }
  }

  lemma {:induction false} PositivesArePositive(t: seq<int>)
    ensures forall k | 0 <= k < |Positives(t)| :: Positives(t)[k] > 0
  {
    if t != [] {
      PositivesArePositive(t[1..]);
    }
  }

  lemma {:induction false} PositivesSplit(t: seq<int>, i: int)
    requires 0 <= i <= |t|
    ensures Positives(t) == Positives(t[..i]) + Positives(t[i..])
  {
    if i > 0 {
      assert t[..i][1..] == t[1..][..i - 1];
      assert t[i..] == t[1..][i - 1..];
      PositivesSplit(t[1..], i - 1);
    }
  }

  /** bag_first */
  function First(t: Table): int {
    HeadOrZero(Positives(t.a))
  }

  /** bag_next: the first live element in a slot after the one where e is found. */
  function Next(t: Table, e: int): int
    requires Valid(t) && e > 0 && |t.a| > 0
  {
    ValidHasZero(t);
    HeadOrZero(Positives(t.a[Landing(t.a, ForElement(e), e) + 1..]))
  }

  ghost predicate Distinct(t: seq<int>) {
    forall i, j | 0 <= i < j < |t| && t[i] > 0 :: t[i] != t[j]
  }

  /** On a bag without repeats, bag_next steps from each live element to the next one in slot order. */
  lemma NextInOrder(t: Table, k: int)
    requires Valid(t) && Distinct(t.a) && 0 <= k < |Positives(t.a)|
    ensures |t.a| > 0 && Positives(t.a)[k] > 0
    ensures Next(t, Positives(t.a)[k]) == (if k + 1 < |Positives(t.a)| then Positives(t.a)[k + 1] else 0)
  {
    hide Hash, Live, NonZero, Probed, Landing;
    var e := Positives(t.a)[k];
    PositivesArePositive(t.a);
    var i := SlotOfPositive(t.a, k);
    ValidHasZero(t);
    LandingFindsElement(t.a, e);
    assert Landing(t.a, ForElement(e), e) == i;
    PositivesSplit(t.a, i + 1);
  }

  /** The slot holding the k-th live element. */
  lemma {:induction false} SlotOfPositive(t: seq<int>, k: int) returns (i: int)
    requires 0 <= k < |Positives(t)|
    ensures 0 <= i < |t| && t[i] == Positives(t)[k] && |Positives(t[..i + 1])| == k + 1
  {
    if t[0] > 0 && k == 0 {
      i := 0;
      assert t[..1][1..] == [];
    } else {
      i := SlotOfPositive(t[1..], if t[0] > 0 then k - 1 else k);
      i := i + 1;
      assert t[..i + 1][1..] == t[1..][..i];
    }
  }

  /** The n-th element of `for(e=bag_first(p); e; e=bag_next(p,e))`; 0 once the loop has ended. */
  function Visited(t: Table, n: nat): (e: int)
    requires Valid(t)
    ensures e > 0 ==> |t.a| > 0
  {
    PositivesArePositive(t.a);
    if n == 0 then First(t)
    else
      var e := Visited(t, n - 1);
      if e <= 0 then 0 else Next(t, e)
  }

  /** What visiting every live element once, in slot order, would visit n-th. */
  function InOrder(t: Table, n: nat): int {
    if n < |Positives(t.a)| then Positives(t.a)[n] else 0
  }

  /** Iteration over a bag without repeats visits every live element exactly once and then stops. */
  lemma {:induction false} IterationVisitsAllOnce(t: Table, n: nat)
    requires Valid(t) && Distinct(t.a)
    ensures Visited(t, n) == InOrder(t, n)
  {
    hide Next, Live, NonZero, Probed, Distinct, Positives;
    PositivesArePositive(t.a);
    if n > 0 {
      IterationVisitsAllOnce(t, n - 1);
      if n - 1 < |Positives(t.a)| {
        NextInOrder(t, n - 1);
      }
    }
  }

  /** Once an element comes up again, so does everything after it. */
  lemma {:induction false} VisitedAgain(t: Table, a: nat, b: nat, m: nat)
    requires Valid(t) && Visited(t, a) == Visited(t, b)
    ensures Visited(t, a + m) == Visited(t, b + m)
  {
    hide Next, Valid;
    if m > 0 {
      VisitedAgain(t, a, b, m - 1);
    }
  }

  /** Where the element of slot i comes in slot order. */
  lemma PositionOf(t: seq<int>, i: int)
    requires 0 <= i < |t| && t[i] > 0
    ensures |Positives(t[..i])| < |Positives(t)| && Positives(t)[|Positives(t[..i])|] == t[i]
  {
    PositivesSplit(t, i);
    assert Positives(t[i..]) == [t[i]] + Positives(t[i..][1..]);
  }

  /** With a repeat, iteration goes wrong somewhere: it would go on after the second copy as after the first. */
  lemma OutOfOrder(t: Table) returns (n: nat)
    requires Valid(t) && !Distinct(t.a)
    ensures Visited(t, n) != InOrder(t, n)
  {
    hide Next, Live, NonZero, Probed, Positives, Visited;
    var i, j :| 0 <= i < j < |t.a| && t.a[i] > 0 && t.a[i] == t.a[j];
    PositionOf(t.a, i);
    PositionOf(t.a, j);
    PositionOf(t.a[..j], i);
    assert t.a[..j][..i] == t.a[..i];
    var a, b, end := |Positives(t.a[..i])|, |Positives(t.a[..j])|, |Positives(t.a)|;
    PositivesArePositive(t.a);
    if Visited(t, a) == InOrder(t, a) && Visited(t, b) == InOrder(t, b) {
      VisitedAgain(t, a, b, end - b);
      n := if Visited(t, end) != 0 then end else a + (end - b);
    } else {
      n := if Visited(t, a) != InOrder(t, a) then a else b;
    }
  }

  /** Iteration visits every live element once and stops, exactly on bags without repeats. */
  lemma IterationRightExactly(t: Table)
    requires Valid(t)
    ensures (forall n :: Visited(t, n) == InOrder(t, n)) <==> Distinct(t.a)
    ensures multiset(Positives(t.a)) == Live(t.a) && |Positives(t.a)| == t.cnt
  {
    hide Next, Live, NonZero, Probed, Positives, Visited;
    PositivesAreLive(t.a);
    assert |Positives(t.a)| == t.cnt;
    if Distinct(t.a) {
      forall n ensures Visited(t, n) == InOrder(t, n) {
        IterationVisitsAllOnce(t, n);
      }
    } else {
      var n := OutOfOrder(t);
    }
  }

  /** A bag that represents a set has no repeats. */
  lemma RepresentsIsDistinct(t: Table, s: set<int>)
    requires Valid(t) && Represents(t, s)
    ensures Distinct(t.a)
  {
    hide NonZero, Probed, Find;
    forall i, j | 0 <= i < j < |t.a| && t.a[i] > 0 ensures t.a[i] != t.a[j] {
      CountsUpdate(t.a, i, 0);
      CountsUpdate(t.a[i := 0], j, 0);
    }
  }

  lemma NoRepeatsIn(p: seq<int>, s: set<int>)
    requires multiset(p) == multiset(s)
    ensures forall i, j | 0 <= i < j < |p| :: p[i] != p[j]
  {
    forall i, j | 0 <= i < j < |p| ensures p[i] != p[j] {
      assert p == p[..i] + [p[i]] + p[i + 1..j] + [p[j]] + p[j + 1..];
      assert multiset(s)[p[i]] <= 1;
    }
  }

  /** Iteration over t visits |s| elements, no two the same, namely those of s, and then ends. */
  ghost predicate Enumerates(t: Table, s: set<int>)
    requires Valid(t)
  {
    && (forall n: nat | n >= |s| :: Visited(t, n) == 0)
    && (forall m: nat, n: nat | m < n < |s| :: Visited(t, m) != Visited(t, n))
    && (forall e :: e in s <==> exists n: nat | n < |s| :: Visited(t, n) == e)
  }

  lemma RepresentsEnumerates(t: Table, s: set<int>)
    requires Valid(t) && Represents(t, s)
    ensures Enumerates(t, s)
  {
    hide Visited, Positives, Distinct, Valid, Live, Find;
    LiveOfRepresents(t, s);
    RepresentsIsDistinct(t, s);
    IterationRightExactly(t);
    var p := Positives(t.a);
    NoRepeatsIn(p, s);
    assert forall n: nat :: Visited(t, n) == InOrder(t, n);
    forall e ensures e in s <==> exists n: nat | n < |s| :: Visited(t, n) == e {
      assert e in s <==> e in multiset(p);
      if e in p {
        var n :| 0 <= n < |p| && p[n] == e;
        assert Visited(t, n) == e;
      }
    }
  }

  /** After a disciplined run, and after one without removals, iteration enumerates the set. */
  lemma IterationEnumeratesSet(ops: seq<Op>)
    requires Legal(ops) && (Disciplined(ops) || forall i | 0 <= i < |ops| :: ops[i].Ins?)
    ensures Enumerates(Run(ops), SetRun(ops))
  {
    hide Visited, Valid, Find, Enumerates, Represents;
    if Disciplined(ops) {
      DisciplinedRunIsSet(ops);
    } else {
      InsertOnlyRunIsSet(ops);
    }
    RepresentsEnumerates(Run(ops), SetRun(ops));
  }

  /** The first live element is that of the first slot with one. */
  lemma {:induction false} FirstPositive(t: seq<int>, i: nat)
    requires i < |t| && t[i] > 0 && forall k | 0 <= k < i :: t[k] <= 0
    ensures HeadOrZero(Positives(t)) == t[i]
  {
    if i > 0 {
      FirstPositive(t[1..], i - 1);
    }
  }

  lemma AfterFirstCopy(t: Table)
    requires Valid(t) && t.a == Zeros(20)[1 := 21][2 := 21]
    ensures First(t) == 21 && Next(t, 21) == 21
  {
    hide Valid, Positives;
    ValidHasZero(t);
    FirstPositive(t.a, 1);
    assert Hash(21, 20) == 1 by { ResidueIsMod(2121, 20); }
    assert Landing(t.a, ForElement(21), 21) == 1;
    FirstPositive(t.a[2..], 0);
  }

  /** On the bag of DuplicateExample the loop never ends: bag_next finds 21 in slot 1, so the element after it is
      always the 21 of slot 2. */
  lemma {:induction false} IterationNeverEnds(n: nat)
    ensures var ops := [Ins(1), Ins(21), Rem(1), Ins(21)]; Legal(ops) && Visited(Run(ops), n) == 21
  {
    hide Run, Next, First, Valid;
    DuplicateTable();
    AfterFirstCopy(Run([Ins(1), Ins(21), Rem(1), Ins(21)]));
    if n > 0 {
      IterationNeverEnds(n - 1);
    }
  }
}

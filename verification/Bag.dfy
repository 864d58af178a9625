/** The Bag of src/bag.c, carried out on its array. */
module Bags {
  import opened BagTable
  import opened BagRuns

  class Bag {
    var cnt: int    // number of elements
    var sz: int     // number of slots in a
    var used: int   // number of elements and deleted slots
    var a: array<int>

    ghost function Model(): Table
      reads this, a
    {
      Table(cnt, used, a[..])
    }

    ghost predicate Ok()
      reads this, a
    {
      sz == a.Length && Valid(Model())
    }

    constructor ()
      ensures Ok() && Model() == EMPTY && fresh(a)
    {
      cnt, sz, used := 0, 0, 0;
      a := new int[0];
      new;
      EmptyIsValid(this);
    }

    method Clear()
      modifies this
      ensures Ok() && Model() == EMPTY && fresh(a)
    {
      cnt, sz, used := 0, 0, 0;
      a := new int[0];
      EmptyIsValid(this);
    }

    /** Both asserts at the end of the C function are asserted here. */
    method Resize(newSize: int)
      requires sz == a.Length && cnt == |Live(a[..])| && used == NonZero(a[..])
      requires newSize > cnt
      modifies this
      ensures sz == a.Length == newSize && fresh(a)
      ensures Model() == BagTable.Resize(old(Model()), newSize)
    {
      hide Hash, Probed, Landing, Live, NonZero, Rehash, HasZero, Probe;
      var was, wasSz := a, sz;
      ghost var t, wasCnt, wasUsed := was[..], cnt, used;
      var data := new int[newSize](_ => 0);
      a, sz := data, newSize;
      assert data[..] == Zeros(newSize);
      ZerosRehash(t, newSize);
      var nDel, nLive, i := 0, 0, 0;
      assert t[0..] == t;
      while i < wasSz
        invariant 0 <= i <= wasSz == |t| && was[..] == t && a == data && sz == newSize
        invariant cnt == wasCnt && used == wasUsed
        invariant NonZero(data[..]) + |Live(t[i..])| < newSize
        invariant Rehash(t[i..], data[..]) == Rehash(t, Zeros(newSize))
        invariant nLive + |Live(t[i..])| == |Live(t)|
        invariant nLive + nDel + NonZero(t[i..]) == NonZero(t)
      {
        var e := was[i];
        ghost var rest, d := t[i..], data[..];
        assert rest[0] == e && rest[1..] == t[i + 1..];
        RehashStep(rest, d);
        LiveHead(rest);
        RehashUnfold(rest, d);
        if e > 0 {
          var h := e * 101 % newSize;
          ghost var s := Hash(e, newSize);
          assert h == s by { HashIs(e, newSize); }
          ghost var k := 0;
          ProbeStops(d, ForEmpty, s);
          while data[h] != 0
            invariant 0 <= k < newSize && h == SlotAt(newSize, s, k)
            invariant data[..] == d && Probe(d, ForEmpty, s, k) == Probe(d, ForEmpty, s, 0) < newSize
            invariant a == data && sz == newSize && cnt == wasCnt && used == wasUsed && was[..] == t
            decreases newSize - k
          {
            ProbeUnfold(d, ForEmpty, s, k);
            h := h + 1;
            if h == newSize { h := 0; }
            k := k + 1;
          }
          ProbeUnfold(d, ForEmpty, s, k);
          LandingIs(d, ForEmpty, e);
          data[h] := e;
          assert data[..] == Place(d, e);
          nLive := nLive + 1;
        } else if e < 0 {
          nDel := nDel + 1;
        }
        i := i + 1;
      }
      RehashUnfold(t[i..], data[..]);
      assert cnt == nLive && used == nLive + nDel by { CountsOfEmpty(t[i..]); }
      used := cnt;
    }

    method Insert(e: int) returns (rc: bool)
      requires Ok() && e > 0
      modifies this, a
      ensures Ok() && (a == old(a) || fresh(a))
      ensures (Model(), rc) == BagTable.Insert(old(Model()), e)
    {
      hide Hash, Landing, Probe, Live, NonZero, Valid, Rehash, BagTable.Insert, Grown, HasZero;
      ghost var t := Model();
      GrownCorrect(t);
      InsertCorrect(t, e);
      GrownIs(t);
      ValidIs(t);
      if used + 1 >= sz / 2 {
        var n := sz * 2;
        Resize(n + 20);
      }
      assert Model() == Grown(t);
      InsertIs(t, e);
      rc := false;
      var h := SearchFree(e);
      if a[h] <= 0 {
        if a[h] == 0 { used := used + 1; }
        a[h] := e;
        cnt := cnt + 1;
        rc := true;
      }
    }

    /** The loop of bag_insert: like SearchFor, but it stops at a deleted slot too. */
    method SearchFree(e: int) returns (h: int)
      requires Ok() && e > 0 && sz > 0
      ensures HasZero(a[..]) && h == Landing(a[..], ForFree(e), e)
    {
      hide Hash, Landing, Probe, Live, NonZero, Probed;
      ghost var t := Model();
      ValidHasZero(t);
      h := e * 101 % sz;
      ghost var s, k := Hash(e, sz), 0;
      assert h == s by { HashIs(e, sz); }
      ProbeStops(t.a, ForFree(e), s);
      while a[h] > 0 && a[h] != e
        invariant 0 <= k < sz && h == SlotAt(sz, s, k)
        invariant Probe(t.a, ForFree(e), s, k) == Probe(t.a, ForFree(e), s, 0) < sz
        decreases sz - k
      {
        ProbeUnfold(t.a, ForFree(e), s, k);
        h := h + 1;
        if h >= sz { h := 0; }
        k := k + 1;
      }
      ProbeUnfold(t.a, ForFree(e), s, k);
      LandingIs(t.a, ForFree(e), e);
    }

    method Find(e: int) returns (r: bool)
      requires Ok() && e > 0
      ensures r == BagTable.Find(Model(), e)
      ensures r <==> e in Live(a[..])
    {
      hide Hash, Landing, Probe, Live, NonZero, Probed;
      ghost var t := Model();
      FindCorrect(t, e);
      if sz == 0 { return false; }
      var h := SearchFor(e);
      r := a[h] == e;
    }

    /** The loop that bag_find, bag_remove and bag_next share. */
    method SearchFor(e: int) returns (h: int)
      requires Ok() && e > 0 && sz > 0
      ensures HasZero(a[..]) && h == Landing(a[..], ForElement(e), e)
    {
      hide Hash, Landing, Probe, Live, NonZero, Probed;
      ghost var t := Model();
      ValidHasZero(t);
      h := e * 101 % sz;
      ghost var s, k := Hash(e, sz), 0;
      assert h == s by { HashIs(e, sz); }
      ProbeStops(t.a, ForElement(e), s);
      while a[h] != 0 && a[h] != e
        invariant 0 <= k < sz && h == SlotAt(sz, s, k)
        invariant Probe(t.a, ForElement(e), s, k) == Probe(t.a, ForElement(e), s, 0) < sz
        decreases sz - k
      {
        ProbeUnfold(t.a, ForElement(e), s, k);
        h := h + 1;
        if h >= sz { h := 0; }
        k := k + 1;
      }
      ProbeUnfold(t.a, ForElement(e), s, k);
      LandingIs(t.a, ForElement(e), e);
    }

    method Remove(e: int)
      requires Ok() && e > 0
      modifies this, a
      ensures Ok() && (a == old(a) || fresh(a))
      ensures Model() == BagTable.Remove(old(Model()), e)
    {
      hide Hash, Landing, Probe, Live, NonZero, Probed, Rehash, HasZero;
      ghost var t := Model();
      RemoveCorrect(t, e);
      if sz == 0 { return; }
      var h := SearchFor(e);
      if a[h] != 0 {
        assert a[h] == e;
        VacateCorrect(t, e, h);
        var nx := h + 1;
        if nx >= sz { nx := 0; }
        if a[nx] == 0 {
          a[h] := 0;
          used := used - 1;
        } else {
          a[h] := -1;
        }
        cnt := cnt - 1;
        ghost var u := Model();
        assert u == Vacate(t, h);
        if cnt == 0 {
          forall i | 0 <= i < a.Length { a[i] := 0; }
          used := 0;
          assert a[..] == Zeros(sz);
        } else if sz > 40 && cnt < sz / 8 {
          Resize(sz / 2);
        }
      }
    }

    method First() returns (e: int)
      requires Ok()
      ensures e == BagRuns.First(Model())
    {
      var i := 0;
      while i < sz && a[i] <= 0
        invariant 0 <= i <= sz
        invariant Positives(a[..]) == Positives(a[i..])
      {
        assert a[i..][1..] == a[i + 1..];
        i := i + 1;
      }
      if i < sz { e := a[i]; } else { e := 0; }
    }

    method Next(e: int) returns (r: int)
      requires Ok() && e > 0 && e in Live(a[..])
      ensures sz > 0 && r == BagRuns.Next(Model(), e)
    {
      hide Hash, Landing, Probe, Live, NonZero, Probed;
      LiveMembers(a[..], e);
      FindCorrect(Model(), e);
      var h := SearchFor(e);
      assert a[h] != 0 by { LandingFindsElement(a[..], e); }
      h := h + 1;
      ghost var from := h;
      while h < sz && a[h] <= 0
        invariant from <= h <= sz
        invariant Positives(a[from..]) == Positives(a[h..])
      {
        assert a[h..][1..] == a[h + 1..];
        h := h + 1;
      }
      r := if h < sz then a[h] else 0;
    }

    method Count() returns (n: int)
      requires Ok()
      ensures n == |Live(a[..])|
    {
      n := cnt;
    }
  }

  lemma EmptyIsValid(b: Bag)
    requires b.cnt == 0 && b.used == 0 && b.sz == 0 && b.a.Length == 0
    ensures b.Ok() && b.Model() == EMPTY
  {
    assert b.a[..] == [];
  }

  // One unfolding of each recursive definition the loops follow.

  lemma HashIs(e: int, n: int)
    requires e > 0 && n > 0
    ensures Hash(e, n) == e * 101 % n
  {
    ResidueIsMod(e * 101, n);
  }

  lemma ProbeUnfold(t: seq<int>, m: Mode, s: int, k: int)
    requires 0 <= s < |t| && 0 <= k < |t|
    ensures Probe(t, m, s, k) == if m.Stops(t[SlotAt(|t|, s, k)]) then k else Probe(t, m, s, k + 1)
  {
  }

  lemma LandingIs(t: seq<int>, m: Mode, e: int)
    requires e > 0 && HasZero(t) && Probe(t, m, Hash(e, |t|), 0) < |t|
    ensures Landing(t, m, e) == SlotAt(|t|, Hash(e, |t|), Probe(t, m, Hash(e, |t|), 0))
  {
  }

  lemma GrownIs(t: Table)
    requires Valid(t)
    ensures Full(t) ==> |Live(t.a)| < |t.a| * 2 + 20 && Grown(t) == Resize(t, |t.a| * 2 + 20)
    ensures !Full(t) ==> Grown(t) == t
  {
    NonZeroBound(t.a);
  }

  lemma ValidIs(t: Table)
    requires Valid(t)
    ensures t.cnt == |Live(t.a)| && t.used == NonZero(t.a)
  {
  }

  lemma InsertIs(t: Table, e: int)
    requires Valid(t) && e > 0
    ensures var g := Grown(t);
      && HasZero(g.a)
      && var h := Landing(g.a, ForFree(e), e);
         Insert(t, e) == if g.a[h] <= 0
           then (Table(g.cnt + 1, if g.a[h] == 0 then g.used + 1 else g.used, g.a[h := e]), true)
           else (g, false)
  {
    hide Hash, Probe, Live, NonZero, Probed, Landing;
    GrownCorrect(t);
    ValidHasZero(Grown(t));
  }

  lemma RehashUnfold(src: seq<int>, dst: seq<int>)
    requires NonZero(dst) + |Live(src)| < |dst|
    ensures src == [] ==> Rehash(src, dst) == dst
    ensures src != [] && src[0] <= 0 ==>
      NonZero(dst) + |Live(src[1..])| < |dst| && Rehash(src, dst) == Rehash(src[1..], dst)
    ensures src != [] && src[0] > 0 ==>
      && HasZero(dst) && NonZero(Place(dst, src[0])) + |Live(src[1..])| < |dst|
      && Rehash(src, dst) == Rehash(src[1..], Place(dst, src[0]))
  {
    hide NonZero, Live, Place, HasZero;
    if src != [] {
      RehashStep(src, dst);
    }
  }

  lemma CountsOfEmpty(t: seq<int>)
    requires t == []
    ensures Live(t) == multiset{} && NonZero(t) == 0
  {
  }
}

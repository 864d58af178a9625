/** The dependency table of the fossil.*.js modules and what a good loading order is (src/builtin.c). */
module JsModules {

  datatype Module = Module(name: string, deps: seq<string>)

  /** The longest module name that fits the buffer its file name is put together in. */
  const MAX_NAME: nat := 38

  /** Any table of modules, with a witness that no module depends on itself through others: every dependency
      that is in the table has a smaller rank. */
  datatype Table = Table(mods: seq<Module>, rank: map<string, nat>) {

    ghost predicate Acyclic() {
      && (forall i, j | 0 <= i < j < |mods| :: mods[i].name != mods[j].name)
      && (forall i | 0 <= i < |mods| :: mods[i].name in rank && mods[i].name != "bootstrap")
      && (forall i | 0 <= i < |mods| :: |mods[i].name| <= MAX_NAME)
      && (forall n | n in rank :: Has(n))
      && (forall i, d | 0 <= i < |mods| && d in mods[i].deps && d in rank :: rank[d] < rank[mods[i].name])
    }

    ghost predicate Has(n: string) {
      exists i | 0 <= i < |mods| :: mods[i].name == n
    }

    /** 0 for names that are not in the table. */
    ghost function Rank(n: string): nat {
      if n in rank then rank[n] + 1 else 0
    }

    ghost function Deps(n: string): (deps: seq<string>)
      requires Acyclic() && n in rank
      ensures forall d | d in deps :: Rank(d) < Rank(n)
    {
      var i :| 0 <= i < |mods| && mods[i].name == n;
      mods[i].deps
    }

    /** The module and everything it needs, directly or not.  A name that is not in the table needs nothing. */
    ghost function Closure(n: string): set<string>
      requires Acyclic()
      decreases Rank(n), 1, 0
    {
      if n in rank then {n} + ClosureOf(Deps(n), Rank(n)) else {}
    }

    /** The same for a list of modules, all of rank below the bound. */
    ghost function ClosureOf(deps: seq<string>, bound: nat): set<string>
      requires Acyclic() && forall d | d in deps :: Rank(d) < bound
      decreases bound, 0, |deps|
    {
      if deps == [] then {} else ClosureOf(deps[..|deps| - 1], bound) + Closure(deps[|deps| - 1])
    }

    lemma DepsAt(i: nat)
      requires Acyclic() && i < |mods|
      ensures mods[i].name in rank && Deps(mods[i].name) == mods[i].deps
    {
    }

    lemma {:induction false} ClosureOfMembers(deps: seq<string>, bound: nat, d: string)
      requires Acyclic() && forall d | d in deps :: Rank(d) < bound
      ensures d in ClosureOf(deps, bound) <==> exists e | e in deps :: d in Closure(e)
      decreases |deps|
    {
      if deps != [] {
        hide Closure, Acyclic, Rank;
        var pre, last := deps[..|deps| - 1], deps[|deps| - 1];
        ClosureOfMembers(pre, bound, d);
        assert forall e | e in deps :: e in pre || e == last;
        assert ClosureOf(deps, bound) == ClosureOf(pre, bound) + Closure(last);
        assert forall e | e in pre :: e in deps;
      }
    }

    /** The closure of a name contains it, and the closure of each of its dependencies, and nothing else. */
    lemma ClosureMembers(n: string, d: string)
      requires Acyclic() && n in rank
      ensures d in Closure(n) <==> d == n || exists e | e in Deps(n) :: d in Closure(e)
    {
      ClosureOfMembers(Deps(n), Rank(n), d);
    }

    lemma ClosureSelf(i: nat)
      requires Acyclic() && i < |mods|
      ensures mods[i].name in rank && mods[i].name in Closure(mods[i].name)
    {
    }

    lemma {:induction false} ClosureInTable(n: string)
      requires Acyclic()
      ensures forall d | d in Closure(n) :: d in rank
      decreases Rank(n)
    {
      if n in rank {
        forall d | d in Closure(n) ensures d in rank {
          ClosureMembers(n, d);
          if d != n {
            var e :| e in Deps(n) && d in Closure(e);
            ClosureInTable(e);
          }
        }
      }
    }
  }

  // ------------------------------------------------------------- the files

  function FileOf(name: string): string {
    "fossil." + name + ".js"
  }

  const BOOTSTRAP: string := FileOf("bootstrap")

  lemma FileOfInjective(a: string, b: string)
    requires FileOf(a) == FileOf(b)
    ensures a == b
  {
    assert FileOf(a)[7..] == a + ".js" && FileOf(b)[7..] == b + ".js";
    assert |a| == |b|;
    assert (a + ".js")[..|a|] == a && (b + ".js")[..|b|] == b;
  }

  ghost predicate NoDuplicates(q: seq<string>) {
    forall i, j | 0 <= i < j < |q| :: q[i] != q[j]
  }

  /** Each module in the queue comes after the bootstrap file and after its direct dependencies. */
  ghost predicate Ordered(t: Table, q: seq<string>)
    requires t.Acyclic()
  {
    forall k, n | 0 <= k < |q| && n in t.rank && q[k] == FileOf(n) :: Preceded(t, q[..k], n)
  }

  ghost predicate Preceded(t: Table, before: seq<string>, n: string)
    requires t.Acyclic() && n in t.rank
  {
    BOOTSTRAP in before && forall d | d in t.Deps(n) && d in t.rank :: FileOf(d) in before
  }

  /** Then it comes after all its dependencies, direct or not. */
  lemma {:induction false} TransitivelyOrdered(t: Table, q: seq<string>, k: nat, n: string, d: string)
    requires t.Acyclic() && Ordered(t, q) && k < |q| && n in t.rank && q[k] == FileOf(n)
    requires d in t.Closure(n) && d != n
    ensures FileOf(d) in q[..k]
    decreases t.Rank(n)
  {
    assert Preceded(t, q[..k], n);
    t.ClosureMembers(n, d);
    var e :| e in t.Deps(n) && d in t.Closure(e);
    if e in t.rank {
      assert FileOf(e) in q[..k];
      if d != e {
        var j :| 0 <= j < k && q[j] == FileOf(e);
        TransitivelyOrdered(t, q, j, e, d);
        assert q[..j] <= q[..k];
      }
    }
  }

  /** What has been delivered so far, a prefix of the queue, is in a good order too. */
  lemma OrderedPrefix(t: Table, q: seq<string>, m: nat)
    requires t.Acyclic() && Ordered(t, q) && m <= |q|
    ensures Ordered(t, q[..m])
  {
    forall k, n | 0 <= k < m && n in t.rank && q[..m][k] == FileOf(n) ensures Preceded(t, q[..m][..k], n) {
      assert q[..m][..k] == q[..k];
    }
  }

  /** Queueing a file at the end keeps the order if it is no module of the table, or all it needs is there. */
  lemma OrderedSnoc(t: Table, q: seq<string>, f: string)
    requires t.Acyclic() && Ordered(t, q)
    requires forall n | n in t.rank && f == FileOf(n) :: Preceded(t, q, n)
    ensures Ordered(t, q + [f])
  {
    var u := q + [f];
    forall k, n | 0 <= k < |u| && n in t.rank && u[k] == FileOf(n) ensures Preceded(t, u[..k], n) {
      assert u[..k] == q[..k];
      assert k == |q| ==> q[..k] == q;
    }
  }

  // --------------------------------------------------- the table in the source

  const FOSSIL: Table := Table(
    [ Module("attach", ["dom"]),
      Module("confirmer", []),
      Module("copybutton", ["dom"]),
      Module("diff", ["dom", "fetch", "storage"]),
      Module("dom", []),
      Module("fetch", []),
      Module("numbered-lines", ["popupwidget", "copybutton"]),
      Module("pikchr", ["dom"]),
      Module("popupwidget", ["dom"]),
      Module("storage", []),
      Module("tabs", ["dom"]) ],
    map["attach" := 1, "confirmer" := 0, "copybutton" := 1, "diff" := 1, "dom" := 0, "fetch" := 0,
        "numbered-lines" := 2, "pikchr" := 1, "popupwidget" := 1, "storage" := 0, "tabs" := 1])

  lemma FossilHas()
    ensures forall n | n in FOSSIL.rank :: FOSSIL.Has(n)
  {
    assert FOSSIL.mods[0].name == "attach";
    assert FOSSIL.mods[1].name == "confirmer";
    assert FOSSIL.mods[2].name == "copybutton";
    assert FOSSIL.mods[3].name == "diff";
    assert FOSSIL.mods[4].name == "dom";
    assert FOSSIL.mods[5].name == "fetch";
    assert FOSSIL.mods[6].name == "numbered-lines";
    assert FOSSIL.mods[7].name == "pikchr";
    assert FOSSIL.mods[8].name == "popupwidget";
    assert FOSSIL.mods[9].name == "storage";
    assert FOSSIL.mods[10].name == "tabs";
  }

  /** Position of a module, told from the first letters of its name. */
  function Position(n: string): nat
  {
    if |n| < 3 then 11
    else if n[0] == 'a' then 0
    else if n[0] == 'c' && n[2] == 'n' then 1
    else if n[0] == 'c' then 2
    else if n[0] == 'd' && n[1] == 'i' then 3
    else if n[0] == 'd' then 4
    else if n[0] == 'f' then 5
    else if n[0] == 'n' then 6
    else if n[0] == 'p' && n[1] == 'i' then 7
    else if n[0] == 'p' then 8
    else if n[0] == 's' then 9
    else if n[0] == 't' then 10
    else 11
  }

  lemma FossilPositions()
    ensures forall i | 0 <= i < |FOSSIL.mods| :: Position(FOSSIL.mods[i].name) == i
  {
  }

  lemma FossilNoBootstrap()
    ensures forall i | 0 <= i < |FOSSIL.mods| :: FOSSIL.mods[i].name != "bootstrap" && |FOSSIL.mods[i].name| <= MAX_NAME
  {
    assert Position("bootstrap") == 11;
    FossilPositions();
  }

  lemma FossilRanks()
    ensures forall i | 0 <= i < |FOSSIL.mods| :: FOSSIL.mods[i].name in FOSSIL.rank
    ensures forall i, d | 0 <= i < |FOSSIL.mods| && d in FOSSIL.mods[i].deps ::
      d in FOSSIL.rank && FOSSIL.rank[d] < FOSSIL.rank[FOSSIL.mods[i].name]
  {
  }

  lemma FossilTableIsAcyclic()
    ensures FOSSIL.Acyclic()
  {
    hide Position;
    FossilPositions();
    FossilHas();
    FossilRanks();
    FossilNoBootstrap();
  }

  lemma ClosureOfDeps(t: Table, i: nat, deps: seq<string>)
    requires t.Acyclic() && i < |t.mods| && t.mods[i].deps == deps
    ensures t.mods[i].name in t.rank
    ensures forall d | d in deps :: t.Closure(d) <= t.Closure(t.mods[i].name)
    ensures forall d | d in t.Closure(t.mods[i].name) ::
      d == t.mods[i].name || exists e | e in deps :: d in t.Closure(e)
  {
    hide Table.Closure, Table.ClosureOf, Table.Acyclic;
    t.DepsAt(i);
    forall d, x | d in deps && x in t.Closure(d) ensures x in t.Closure(t.mods[i].name) {
      t.ClosureMembers(t.mods[i].name, x);
    }
    forall d | d in t.Closure(t.mods[i].name)
      ensures d == t.mods[i].name || exists e | e in deps :: d in t.Closure(e)
    {
      t.ClosureMembers(t.mods[i].name, d);
    }
  }

  lemma LeafClosure(i: nat)
    requires FOSSIL.Acyclic() && i < |FOSSIL.mods| && FOSSIL.mods[i].deps == []
    ensures FOSSIL.Closure(FOSSIL.mods[i].name) == {FOSSIL.mods[i].name}
  {
    hide Table.Closure, Table.ClosureOf, Table.Acyclic;
    ClosureOfDeps(FOSSIL, i, []);
    FOSSIL.ClosureSelf(i);
  }

  lemma OneDepClosure(i: nat, j: nat)
    requires FOSSIL.Acyclic() && i < |FOSSIL.mods| && j < |FOSSIL.mods|
    requires FOSSIL.mods[i].deps == [FOSSIL.mods[j].name] && FOSSIL.mods[j].deps == []
    ensures FOSSIL.Closure(FOSSIL.mods[i].name) == {FOSSIL.mods[i].name, FOSSIL.mods[j].name}
  {
    hide Table.Closure, Table.ClosureOf, Table.Acyclic;
    ClosureOfDeps(FOSSIL, i, FOSSIL.mods[i].deps);
    FOSSIL.ClosureSelf(i);
    LeafClosure(j);
    assert FOSSIL.mods[j].name in FOSSIL.mods[i].deps;
  }

  /** What asking for each module of the source brings in. */
  lemma FossilClosures()
    ensures FOSSIL.Acyclic()
    ensures FOSSIL.Closure("attach") == {"attach", "dom"} && FOSSIL.Closure("confirmer") == {"confirmer"}
    ensures FOSSIL.Closure("copybutton") == {"copybutton", "dom"} && FOSSIL.Closure("dom") == {"dom"}
    ensures FOSSIL.Closure("diff") == {"diff", "dom", "fetch", "storage"}
    ensures FOSSIL.Closure("fetch") == {"fetch"} && FOSSIL.Closure("storage") == {"storage"}
    ensures FOSSIL.Closure("numbered-lines") == {"numbered-lines", "popupwidget", "copybutton", "dom"}
    ensures FOSSIL.Closure("pikchr") == {"pikchr", "dom"} && FOSSIL.Closure("popupwidget") == {"popupwidget", "dom"}
    ensures FOSSIL.Closure("tabs") == {"tabs", "dom"}
  {
    hide Table.Closure, Table.ClosureOf, Table.Acyclic;
    FossilTableIsAcyclic();
    LeafClosure(1); LeafClosure(4); LeafClosure(5); LeafClosure(9);
    OneDepClosure(0, 4); OneDepClosure(2, 4); OneDepClosure(7, 4); OneDepClosure(8, 4); OneDepClosure(10, 4);
    DiffClosure();
    LinesClosure();
  }

  lemma DiffClosure()
    requires FOSSIL.Acyclic()
    ensures FOSSIL.Closure("diff") == {"diff", "dom", "fetch", "storage"}
  {
    hide Table.Closure, Table.ClosureOf, Table.Acyclic;
    ClosureOfDeps(FOSSIL, 3, ["dom", "fetch", "storage"]);
    FOSSIL.ClosureSelf(3);
    LeafClosure(4); LeafClosure(5); LeafClosure(9);
    assert "dom" in ["dom", "fetch", "storage"] && "fetch" in ["dom", "fetch", "storage"];
    assert "storage" in ["dom", "fetch", "storage"];
  }

  lemma LinesClosure()
    requires FOSSIL.Acyclic()
    ensures FOSSIL.Closure("numbered-lines") == {"numbered-lines", "popupwidget", "copybutton", "dom"}
  {
    hide Table.Closure, Table.ClosureOf, Table.Acyclic;
    ClosureOfDeps(FOSSIL, 6, ["popupwidget", "copybutton"]);
    FOSSIL.ClosureSelf(6);
    OneDepClosure(2, 4); OneDepClosure(8, 4);
    assert "popupwidget" in ["popupwidget", "copybutton"] && "copybutton" in ["popupwidget", "copybutton"];
  }

  /** The files asked for. */
  lemma FileNames()
    ensures FileOf("dom") == "fossil.dom.js" && BOOTSTRAP == "fossil.bootstrap.js"
  {
  }
}

/** The queue of requested JavaScript files (src/builtin.c). */
module JsQueues {
  import opened Basics
  import opened JsModules

  /** What builtin_emit_fossil_js_once returns: 0, 1, -1; Panic where the process ends. */
  datatype Rc = NotFound | Queued | Already | Panic

  datatype Delivery = Inline | Separate | Bundled

  /** One script element of the page. */
  datatype Chunk = Chunk(files: seq<string>)

  function Flat(chunks: seq<Chunk>): seq<string> {
    if chunks == [] then [] else Flat(chunks[..|chunks| - 1]) + chunks[|chunks| - 1].files
  }

  ghost function Elements(q: seq<string>): set<string> {
    set f | f in q
  }

  ghost function Files(names: set<string>): set<string> {
    set n | n in names :: FileOf(n)
  }

  lemma {:induction false} DistinctCount(q: seq<string>)
    requires NoDuplicates(q)
    ensures |Elements(q)| == |q|
  {
    if q != [] {
      var pre, last := q[..|q| - 1], q[|q| - 1];
      DistinctCount(pre);
      assert Elements(q) == Elements(pre) + {last};
    }
  }

  lemma ElementsSnoc(q: seq<string>, f: string)
    ensures Elements(q + [f]) == Elements(q) + {f}
  {
  }

  /** The emitted flags tell which modules are queued. */
  ghost predicate Flags(t: Table, emitted: seq<bool>, q: seq<string>) {
    && |emitted| == |t.mods|
    && forall i | 0 <= i < |emitted| :: emitted[i] <==> FileOf(t.mods[i].name) in q
  }

  class JsQueue {
    const table: Table
    const known: set<string>   // names in aBuiltinFiles
    const limit: nat           // slots in aReq
    var aReq: seq<string>
    var nSent: nat
    var emitted: seq<bool>     // one per module of the table
    var once: bool             // of builtin_emit_fossil_js_once
    var bootOnce: bool         // of builtin_emit_script_fossil_bootstrap
    ghost var delivered: seq<string>

    /** What holds of the queue whoever fills it. */
    ghost predicate Queue()
      reads this
    {
      && table.Acyclic() && |emitted| == |table.mods|
      && NoDuplicates(aReq) && |aReq| <= limit
      && nSent <= |aReq| && delivered == aReq[..nSent]
      && Ordered(table, aReq)
      && (bootOnce ==> BOOTSTRAP in aReq)
    }

    ghost predicate Ok()
      reads this
    {
      Queue() && Flags(table, emitted, aReq) && (once ==> bootOnce)
    }

    constructor (table: Table, known: set<string>, limit: nat)
      requires table.Acyclic()
      ensures Ok() && aReq == [] && this.table == table && this.known == known && this.limit == limit
    {
      this.table, this.known, this.limit := table, known, limit;
      aReq, nSent, once, bootOnce, delivered := [], 0, false, false, [];
      emitted := seq(|table.mods|, _ => false);
    }

    /** builtin_request_js; false where it panics. */
    method Request(f: string) returns (ok: bool)
      requires Queue() && forall n | n in table.rank && f == FileOf(n) :: Preceded(table, aReq, n)
      modifies `aReq
      ensures ok <==> f in known && (f in old(aReq) || |old(aReq)| < limit)
      ensures aReq == if ok && f !in old(aReq) then old(aReq) + [f] else old(aReq)
      ensures Queue()
      ensures ok ==> f in aReq && Elements(aReq) == Elements(old(aReq)) + {f}
      ensures f in known && |Elements(old(aReq)) + {f}| <= limit ==> ok
    {
      hide Ordered;
      ElementsSnoc(aReq, f);
      DistinctCount(aReq);
      if f !in known { return false; }
      var j := 0;
      while j < |aReq|
        invariant 0 <= j <= |aReq| && aReq == old(aReq) && forall k | 0 <= k < j :: aReq[k] != f
      {
        if aReq[j] == f {
          assert Elements(aReq) == Elements(aReq) + {f};
          return true;
        }
        j := j + 1;
      }
      assert f !in Elements(aReq);
      if |aReq| >= limit { return false; }
      OrderedSnoc(table, aReq, f);
      aReq := aReq + [f];
      return true;
    }

    /** A page asks for a file that is no module of the table. */
    method RequestOther(f: string) returns (ok: bool)
      requires Ok() && forall n | n in table.rank :: f != FileOf(n)
      modifies `aReq
      ensures ok ==> Ok() && f in aReq && old(aReq) <= aReq
    {
      hide Ordered;
      FlagNames();
      ok := Request(f);
    }

    lemma FlagNames()
      requires table.Acyclic()
      ensures forall i | 0 <= i < |table.mods| :: table.mods[i].name in table.rank
    {
    }

    /** builtin_emit_script_fossil_bootstrap */
    method Bootstrap() returns (ok: bool)
      requires Queue() && Flags(table, emitted, aReq)
      modifies `aReq, `bootOnce
      ensures ok ==> Queue() && Flags(table, emitted, aReq) && bootOnce && BOOTSTRAP in aReq && old(aReq) <= aReq
      ensures ok ==> Elements(aReq) == Elements(old(aReq)) + {BOOTSTRAP}
      ensures BOOTSTRAP in known && |Elements(old(aReq)) + {BOOTSTRAP}| <= limit ==> ok
    {
      hide Ordered, Elements, FileOf, NoDuplicates;
      NotAModule(table);
      FlagNames();
      InElements(aReq, BOOTSTRAP);
      ok := true;
      if !bootOnce {
        ok := Request(BOOTSTRAP);
        bootOnce := true;
      }
    }

    /** Everything that has to be in the queue once the given modules are, on top of what was there. */
    ghost function Target(was: seq<string>, names: set<string>): set<string> {
      Elements(was) + {BOOTSTRAP} + Files(names)
    }

    ghost predicate Fits(target: set<string>) {
      target <= known && |target| <= limit
    }

    /** builtin_emit_fossil_js_once for a module name.  After it the queue has grown by exactly the bootstrap
        file, the module and all it depends on, as far as they were not there already. */
    method EmitOnce(name: string) returns (rc: Rc)
      requires Ok()
      modifies `aReq, `emitted, `once, `bootOnce
      ensures rc != Panic ==> Ok() && once && old(aReq) <= aReq
      ensures rc != Panic ==> Elements(aReq) == Target(old(aReq), table.Closure(name))
      ensures rc != Panic ==> (rc == NotFound <==> name !in table.rank)
      ensures rc == Queued ==> FileOf(name) !in old(aReq)
      ensures rc == Already ==> FileOf(name) in old(aReq)
      ensures Fits(Target(old(aReq), table.Closure(name))) ==> rc != Panic
      decreases table.Rank(name), 1
    {
      hide Ordered, NoDuplicates, Elements, Files, FileOf, Table.Closure, Table.ClosureOf, Fits, Flags;
      ghost var was, closure := aReq, table.Closure(name);
      FitsLess(Elements(was) + {BOOTSTRAP}, Target(was, closure));
      var ok := FirstCall();
      if !ok { return Panic; }
      var i := 0;
      while i < |table.mods| && table.mods[i].name != name
        invariant 0 <= i <= |table.mods| && forall k | 0 <= k < i :: table.mods[k].name != name
      {
        i := i + 1;
      }
      if i == |table.mods| {
        NotInTable(table, name);
        return NotFound;
      }
      table.DepsAt(i);
      MemberOfElements(was, FileOf(name));
      MemberOfElements(aReq, FileOf(name));
      NotAModule(table);
      FlagAt(table, emitted, aReq, i);
      if emitted[i] {
        ClosureIsQueued(table, aReq, name);
        return Already;
      }
      assert Target(aReq, closure) == Target(was, closure);
      ok := EmitModule(i, name);
      return if ok then Queued else Panic;
    }

    /** The very first call of builtin_emit_fossil_js_once brings in the bootstrap file. */
    method FirstCall() returns (ok: bool)
      requires Ok()
      modifies `aReq, `once, `bootOnce
      ensures ok ==> Ok() && once && BOOTSTRAP in aReq && old(aReq) <= aReq
      ensures ok ==> Elements(aReq) == Elements(old(aReq)) + {BOOTSTRAP}
      ensures Fits(Elements(old(aReq)) + {BOOTSTRAP}) ==> ok
    {
      hide Ordered, NoDuplicates, Elements, FileOf, Fits, Flags;
      ok := true;
      InElements(aReq, BOOTSTRAP);
      if !once {
        once := true;
        BootFits(aReq);
        ok := Bootstrap();
      }
    }

    /** builtin_emit_fossil_js_once(0): all modules of the table. */
    method EmitAll() returns (rc: Rc)
      requires Ok()
      modifies `aReq, `emitted, `once, `bootOnce
      ensures rc == Already || rc == Panic
      ensures rc != Panic ==> Ok() && once && old(aReq) <= aReq
      ensures rc != Panic ==> Elements(aReq) == Target(old(aReq), table.rank.Keys)
      ensures Fits(Target(old(aReq), table.rank.Keys)) ==> rc != Panic
    {
      hide Ordered, NoDuplicates, Elements, Files, FileOf, Table.Closure, Table.ClosureOf, Fits, Flags;
      ghost var was, all := aReq, table.rank.Keys;
      FitsLess(Elements(was) + {BOOTSTRAP}, Target(was, all));
      var ok := FirstCall();
      if !ok { return Panic; }
      ghost var names: set<string> := {};
      NoDeps(table, 0);
      var i := 0;
      while i < |table.mods|
        invariant 0 <= i <= |table.mods| && Ok() && once && was <= aReq
        invariant names <= all && Elements(aReq) == Target(was, names)
        invariant forall k | 0 <= k < i :: table.mods[k].name in names
      {
        ghost var c := table.Closure(table.mods[i].name);
        table.ClosureInTable(table.mods[i].name);
        table.ClosureSelf(i);
        FilesUnion(names, c);
        FilesUnion(names + c, all);
        FitsLess(Target(aReq, c), Target(was, all));
        var r := EmitOnce(table.mods[i].name);
        if r == Panic { return Panic; }
        names := names + c;
        i := i + 1;
      }
      AllNames(table, names);
      return Already;
    }

    /** What the function does with a module that has not been emitted. */
    method EmitModule(i: nat, name: string) returns (ok: bool)
      requires Ok() && once && i < |table.mods| && table.mods[i].name == name
      modifies `aReq, `emitted, `once, `bootOnce
      ensures ok ==> Ok() && once && old(aReq) <= aReq
      ensures ok ==> Elements(aReq) == Target(old(aReq), table.Closure(name))
      ensures Fits(Target(old(aReq), table.Closure(name))) ==> ok
      decreases table.Rank(name), 0, 1
    {
      hide Ordered, NoDuplicates, Elements, Files, FileOf, Table.Closure, Table.ClosureOf, Fits, Preceded, Flags;
      table.DepsAt(i);
      ghost var was, full := aReq, Target(aReq, table.Closure(name));
      ghost var needs := table.ClosureOf(table.mods[i].deps, table.Rank(name));
      ClosureParts(table, name);
      FitsLess(Target(was, needs), full);
      ok := EmitDeps(name, table.mods[i].deps);
      if !ok { return; }
      DepsAreQueued(table, aReq, name);
      OnlyName(table, aReq, name);
      assert Elements(aReq) + {FileOf(name)} == full;
      FitsMeans(full);
      ghost var q := aReq;
      ok := Request(FileOf(name));
      if !ok { return; }
      FlagsAfter(table, emitted, q, i, aReq);
      emitted := emitted[i := true];
    }

    lemma FitsMeans(target: set<string>)
      ensures Fits(target) ==> |target| <= limit && forall f | f in target :: f in known
    {
    }

    lemma BootFits(was: seq<string>)
      ensures Fits(Elements(was) + {BOOTSTRAP}) ==> BOOTSTRAP in known && |Elements(was) + {BOOTSTRAP}| <= limit
    {
      assert BOOTSTRAP in Elements(was) + {BOOTSTRAP};
    }

    /** The loop over one module's dependencies. */
    method EmitDeps(ghost name: string, deps: seq<string>) returns (ok: bool)
      requires Ok() && once && name in table.rank && deps == table.Deps(name)
      modifies `aReq, `emitted, `once, `bootOnce
      ensures ok ==> Ok() && once && old(aReq) <= aReq
      ensures ok ==> Elements(aReq) == Target(old(aReq), table.ClosureOf(deps, table.Rank(name)))
      ensures Fits(Target(old(aReq), table.ClosureOf(deps, table.Rank(name)))) ==> ok
      decreases table.Rank(name), 0, 0
    {
      hide Ordered, NoDuplicates, Elements, Files, FileOf, Table.Closure, Table.ClosureOf, Fits, Flags;
      ghost var bound, was := table.Rank(name), aReq;
      ghost var full := Target(was, table.ClosureOf(deps, bound));
      var j := 0;
      NoDeps(table, bound);
      InElements(aReq, BOOTSTRAP);
      assert deps[..0] == [];
      while j < |deps|
        invariant 0 <= j <= |deps| && Ok() && once && was <= aReq
        invariant Elements(aReq) == Target(was, table.ClosureOf(deps[..j], bound))
      {
        OneMoreDep(table, deps, j, bound);
        FilesUnion(table.ClosureOf(deps[..j], bound), table.Closure(deps[j]));
        FilesUnion(table.ClosureOf(deps[..j + 1], bound), table.ClosureOf(deps, bound));
        assert Target(aReq, table.Closure(deps[j])) <= full;
        FitsLess(Target(aReq, table.Closure(deps[j])), full);
        var rc := EmitOnce(deps[j]);
        if rc == Panic { return false; }
        j := j + 1;
      }
      assert deps[..j] == deps;
      return true;
    }

    lemma FitsLess(a: set<string>, b: set<string>)
      requires a <= b
      ensures Fits(b) ==> Fits(a)
    {
      SubsetSize(a, b);
    }

    /** All files not yet sent, in one script element. */
    method TakeAll() returns (files: seq<string>)
      requires nSent < |aReq|
      modifies `nSent
      ensures nSent == |aReq| && files == aReq[old(nSent)..] && files != []
    {
      files := [];
      while nSent < |aReq|
        invariant old(nSent) <= nSent <= |aReq| && files == aReq[old(nSent)..nSent]
      {
        files := files + [aReq[nSent]];
        nSent := nSent + 1;
      }
    }

    /** All files not yet sent, each in a script element of its own. */
    method TakeEach() returns (chunks: seq<Chunk>)
      requires nSent < |aReq|
      modifies `nSent
      ensures nSent == |aReq| && Flat(chunks) == aReq[old(nSent)..]
      ensures forall c | c in chunks :: |c.files| == 1
    {
      hide Flat;
      chunks := [];
      FlatOfNothing();
      while nSent < |aReq|
        invariant old(nSent) <= nSent <= |aReq| && Flat(chunks) == aReq[old(nSent)..nSent]
        invariant forall c | c in chunks :: |c.files| == 1
      {
        FlatSnoc(chunks, Chunk([aReq[nSent]]));
        chunks := chunks + [Chunk([aReq[nSent]])];
        nSent := nSent + 1;
      }
    }

    /** builtin_fulfill_js_requests */
    method Fulfill(mode: Delivery) returns (chunks: seq<Chunk>)
      requires Ok()
      modifies `nSent, `delivered
      ensures Ok() && nSent == |aReq|
      ensures Flat(chunks) == aReq[old(nSent)..]
      ensures delivered == old(delivered) + Flat(chunks)
      ensures mode == Separate ==> forall c | c in chunks :: |c.files| == 1
      ensures mode != Separate ==> |chunks| <= 1
    {
      hide Ordered, NoDuplicates, Flat, Flags, Table.Acyclic;
      chunks := [];
      FlatOfNothing();
      if nSent >= |aReq| {
        return;
      }
      if mode == Inline || (mode == Bundled && nSent + 1 < |aReq|) {
        var files := TakeAll();
        FlatSnoc([], Chunk(files));
        chunks := [] + [Chunk(files)];
      } else {
        chunks := TakeEach();
        if mode == Bundled { FlatCount(chunks); }
      }
      delivered := delivered + Flat(chunks);
    }
  }

  lemma {:induction false} FlatCount(chunks: seq<Chunk>)
    requires forall c | c in chunks :: |c.files| == 1
    ensures |Flat(chunks)| == |chunks|
  {
    if chunks != [] {
      FlatCount(chunks[..|chunks| - 1]);
    }
  }

  lemma FilesUnion(a: set<string>, b: set<string>)
    ensures Files(a + b) == Files(a) + Files(b)
    ensures a <= b ==> Files(a) <= Files(b)
  {
  }

  lemma NoDeps(t: Table, bound: nat)
    requires t.Acyclic()
    ensures t.ClosureOf([], bound) == {} && Files({}) == {}
  {
  }

  lemma MemberOfElements(q: seq<string>, f: string)
    ensures f in q <==> f in Elements(q)
  {
  }

  lemma AllNames(t: Table, names: set<string>)
    requires t.Acyclic() && names <= t.rank.Keys && forall k | 0 <= k < |t.mods| :: t.mods[k].name in names
    ensures names == t.rank.Keys
  {
    forall n | n in t.rank ensures n in names {
      assert t.Has(n);
    }
  }

  lemma NotInTable(t: Table, name: string)
    requires t.Acyclic() && forall k | 0 <= k < |t.mods| :: t.mods[k].name != name
    ensures name !in t.rank && t.Closure(name) == {} && Files({}) == {}
  {
    assert name in t.rank ==> t.Has(name);
  }

  lemma ClosureParts(t: Table, name: string)
    requires t.Acyclic() && name in t.rank
    ensures Files(t.Closure(name)) == {FileOf(name)} + Files(t.ClosureOf(t.Deps(name), t.Rank(name)))
  {
    hide FileOf, Table.ClosureOf;
  }

  lemma ClosureIsQueued(t: Table, q: seq<string>, name: string)
    requires t.Acyclic() && Ordered(t, q) && name in t.rank && FileOf(name) in q
    ensures Files(t.Closure(name)) <= Elements(q)
  {
    hide FileOf, Ordered, Table.Closure;
    var k :| 0 <= k < |q| && q[k] == FileOf(name);
    forall d | d in t.Closure(name) ensures FileOf(d) in q {
      if d != name {
        TransitivelyOrdered(t, q, k, name, d);
      }
    }
  }

  lemma DepsAreQueued(t: Table, q: seq<string>, name: string)
    requires t.Acyclic() && name in t.rank
    requires {BOOTSTRAP} + Files(t.ClosureOf(t.Deps(name), t.Rank(name))) <= Elements(q)
    ensures Preceded(t, q, name)
  {
    hide FileOf, Table.ClosureOf;
    assert BOOTSTRAP in {BOOTSTRAP};
    forall d | d in t.Deps(name) && d in t.rank ensures FileOf(d) in q {
      t.ClosureOfMembers(t.Deps(name), t.Rank(name), d);
      assert d in t.Closure(d);
      assert FileOf(d) in Files(t.ClosureOf(t.Deps(name), t.Rank(name)));
    }
  }

  lemma OnlyName(t: Table, q: seq<string>, name: string)
    requires t.Acyclic() && name in t.rank && Preceded(t, q, name)
    ensures forall n | n in t.rank && FileOf(name) == FileOf(n) :: Preceded(t, q, n)
  {
    hide FileOf, Preceded;
    forall n | n in t.rank && FileOf(name) == FileOf(n) ensures Preceded(t, q, n) {
      FileOfInjective(name, n);
    }
  }

  lemma FlagAt(t: Table, emitted: seq<bool>, q: seq<string>, i: nat)
    requires Flags(t, emitted, q) && i < |t.mods|
    ensures |emitted| == |t.mods| && (emitted[i] <==> FileOf(t.mods[i].name) in q)
  {
  }

  lemma FlagsAfter(t: Table, emitted: seq<bool>, q: seq<string>, i: nat, q': seq<string>)
    requires t.Acyclic() && Flags(t, emitted, q) && i < |emitted|
    requires FileOf(t.mods[i].name) in q' && (q' == q || q' == q + [FileOf(t.mods[i].name)])
    ensures Flags(t, emitted[i := true], q')
  {
    hide FileOf;
    forall k | 0 <= k < |emitted| && k != i ensures FileOf(t.mods[k].name) != FileOf(t.mods[i].name) {
      if FileOf(t.mods[k].name) == FileOf(t.mods[i].name) {
        FileOfInjective(t.mods[k].name, t.mods[i].name);
      }
    }
  }

  lemma OneMoreDep(t: Table, deps: seq<string>, j: nat, bound: nat)
    requires t.Acyclic() && j < |deps| && forall d | d in deps :: t.Rank(d) < bound
    ensures t.ClosureOf(deps[..j + 1], bound) == t.ClosureOf(deps[..j], bound) + t.Closure(deps[j])
    ensures t.ClosureOf(deps[..j + 1], bound) <= t.ClosureOf(deps, bound)
  {
    assert deps[..j + 1][..j] == deps[..j];
    forall d | d in t.ClosureOf(deps[..j + 1], bound) ensures d in t.ClosureOf(deps, bound) {
      t.ClosureOfMembers(deps[..j + 1], bound, d);
      t.ClosureOfMembers(deps, bound, d);
    }
  }

  lemma FlatOfNothing()
    ensures Flat([]) == []
  {
  }

  lemma FlatSnoc(chunks: seq<Chunk>, c: Chunk)
    ensures Flat(chunks + [c]) == Flat(chunks) + c.files
  {
    assert (chunks + [c])[..|chunks|] == chunks;
  }

  lemma InElements(q: seq<string>, f: string)
    ensures f in q ==> Elements(q) + {f} == Elements(q)
  {
  }

  lemma NotAModule(t: Table)
    requires t.Acyclic()
    ensures forall n | n in t.rank :: BOOTSTRAP != FileOf(n)
  {
    forall n | n in t.rank ensures BOOTSTRAP != FileOf(n) {
      assert t.Has(n);
      if BOOTSTRAP == FileOf(n) { FileOfInjective("bootstrap", n); }
    }
  }
}

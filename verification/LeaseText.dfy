/** The lease as it is stored: the text of one row of the config table (src/backoffice.c). */
module LeaseText {
  import opened Basics
  import opened Leases

  const TWO63: nat := 0x8000_0000_0000_0000
  const TWO64: nat := 0x1_0000_0000_0000_0000

  predicate IsSpace(c: char) {
    c == ' ' || '\t' <= c <= '\r'
  }

  predicate IsDigit(c: char) {
    '0' <= c <= '9'
  }

  function DigitValue(c: char): nat
    requires IsDigit(c)
  {
    c as int - '0' as int
  }

  // ---------------------------------------------------------------- parsing

  function SkipSpace(z: string): string {
    if z != [] && IsSpace(z[0]) then SkipSpace(z[1..]) else z
  }

  /** Accumulates digits onto v, in unsigned 64-bit arithmetic. */
  function TakeDigits(z: string, v: nat): (nat, string) {
    if z != [] && IsDigit(z[0]) then TakeDigits(z[1..], (v * 10 + DigitValue(z[0])) % TWO64) else (v, z)
  }

  function ParsedInt(z: string): (nat, string) {
    TakeDigits(SkipSpace(z), 0)
  }

  function Parsed(value: Option<string>): Lease {
    match value
    case None => Lease(0, 0, 0, 0)
    case Some(z) =>
      var (idCurrent, z1) := ParsedInt(z);
      var (tmCurrent, z2) := ParsedInt(z1);
      var (idNext, z3) := ParsedInt(z2);
      var (tmNext, _) := ParsedInt(z3);
      Lease(idCurrent, tmCurrent, idNext, tmNext)
  }

  // -------------------------------------------------------------- formatting

  function Digit(d: nat): (c: char)
    requires d < 10
    ensures IsDigit(c) && DigitValue(c) == d
  {
    '0' + d as char
  }

  function Decimal(n: nat): (s: string)
    ensures s != [] && IsDigit(s[0])
  {
    if n < 10 then [Digit(n)] else Decimal(n / 10) + [Digit(n % 10)]
  }

  /** printf's %lld applied to an unsigned 64-bit value */
  function Lld(v: nat): string
    requires v < TWO64
  {
    if v < TWO63 then Decimal(v) else "-" + Decimal(TWO64 - v)
  }

  ghost predicate Is64Bit(x: Lease) {
    x.idCurrent < TWO64 && x.tmCurrent < TWO64 && x.idNext < TWO64 && x.tmNext < TWO64
  }

  function Formatted(x: Lease): string
    requires Is64Bit(x)
  {
    Lld(x.idCurrent) + " " + Lld(x.tmCurrent) + " " + Lld(x.idNext) + " " + Lld(x.tmNext)
  }

  // --------------------------------------------------------------- round trip

  lemma {:induction false} TakeDecimal(n: nat, rest: string)
    requires n < TWO64
    ensures TakeDigits(Decimal(n) + rest, 0) == TakeDigits(rest, n)
  {
    if n < 10 {
      var z := [Digit(n)] + rest;
      assert z[0] == Digit(n) && z[1..] == rest;
    } else {
      var z := [Digit(n % 10)] + rest;
      assert (n / 10 * 10 + n % 10) % TWO64 == n;
      assert Decimal(n) + rest == Decimal(n / 10) + z;
      TakeDecimal(n / 10, z);
      assert z[0] == Digit(n % 10) && z[1..] == rest;
    }
  }

  /** Reading back one printed number: the value survives exactly below 2^63; a larger one prints
      with a minus sign, at which the parser stops with 0. */
  lemma ParseLld(v: nat, sep: string, rest: string)
    requires v < TWO64 && (sep == "" || sep == " ")
    requires rest == [] || !IsDigit(rest[0])
    ensures v < TWO63 ==> ParsedInt(sep + Lld(v) + rest) == (v, rest)
    ensures v >= TWO63 ==> ParsedInt(sep + Lld(v) + rest).0 == 0
  {
    var body := Lld(v) + rest;
    assert sep + Lld(v) + rest == sep + body;
    assert SkipSpace(sep + body) == body by {
      assert !IsSpace(body[0]);
      if sep == " " {
        assert (sep + body)[1..] == body;
      }
    }
    if v < TWO63 {
      TakeDecimal(v, rest);
    }
  }

  /** Writing a lease and reading it back is the identity exactly when every field is below 2^63. */
  lemma LeaseRoundTrip(x: Lease)
    requires Is64Bit(x)
    ensures Parsed(Some(Formatted(x))) == x <==>
      x.idCurrent < TWO63 && x.tmCurrent < TWO63 && x.idNext < TWO63 && x.tmNext < TWO63
  {
    hide SkipSpace, TakeDigits, Lld, Decimal, ParsedInt;
    var r3 := " " + Lld(x.tmNext);
    var r2 := " " + Lld(x.idNext) + r3;
    var r1 := " " + Lld(x.tmCurrent) + r2;
    assert Formatted(x) == "" + Lld(x.idCurrent) + r1;
    ParseLld(x.idCurrent, "", r1);
    ParseLld(x.tmCurrent, " ", r2);
    ParseLld(x.idNext, " ", r3);
    ParseLld(x.tmNext, " ", "");
    assert r3 + "" == r3;
  }

  // ------------------------------------------------------------ what is read

  predicate AllDigits(ds: string) {
    forall k | 0 <= k < |ds| :: '0' <= ds[k] <= '9'
  }

  /** The number a string of digits stands for. */
  function Value(ds: string): nat
    requires AllDigits(ds)
  {
    if ds == "" then 0 else Value(ds[..|ds| - 1]) * 10 + (ds[|ds| - 1] as int - '0' as int)
  }

  lemma {:induction false} DecimalValue(n: nat)
    ensures AllDigits(Decimal(n)) && Value(Decimal(n)) == n
  {
    var ds := Decimal(n);
    if n >= 10 {
      DecimalValue(n / 10);
      assert ds[..|ds| - 1] == Decimal(n / 10) && ds[|ds| - 1] == Digit(n % 10);
    } else {
      assert ds[..0] == "";
    }
  }

  /** What is printed for a 64-bit value: its digits, or from 2^63 on a minus sign and those of its complement. */
  lemma PrintedExactly(v: nat)
    requires v < 0x1_0000_0000_0000_0000
    ensures v < 0x8000_0000_0000_0000 ==> AllDigits(Lld(v)) && Value(Lld(v)) == v
    ensures v >= 0x8000_0000_0000_0000 ==>
      Lld(v)[..1] == "-" && AllDigits(Lld(v)[1..]) && Value(Lld(v)[1..]) + v == 0x1_0000_0000_0000_0000
  {
    DecimalValue(v);
    DecimalValue(0x1_0000_0000_0000_0000 - v);
    if v >= 0x8000_0000_0000_0000 {
      assert Lld(v)[1..] == Decimal(0x1_0000_0000_0000_0000 - v);
    }
  }

  predicate White(sp: string) {
    forall k | 0 <= k < |sp| :: sp[k] in [' ', '\t', '\n', '\U{0B}', '\U{0C}', '\r']
  }

  lemma {:induction false} SkipsWhite(sp: string, rest: string)
    requires White(sp) && (rest == "" || !White(rest[..1]))
    ensures SkipSpace(sp + rest) == rest
  {
    if sp == "" {
      assert sp + rest == rest;
      assert rest != "" ==> rest[..1][0] == rest[0];
    } else {
      assert (sp + rest)[1..] == sp[1..] + rest;
      SkipsWhite(sp[1..], rest);
    }
  }

  lemma {:induction false} TakesDigits(ds: string, more: string, rest: string)
    requires AllDigits(ds + more) && AllDigits(ds) && (rest == "" || !IsDigit(rest[0]))
    ensures TakeDigits(more + rest, Value(ds) % TWO64) == (Value(ds + more) % TWO64, rest)
    decreases |more|
  {
    if more == "" {
      assert more + rest == rest && ds + more == ds;
    } else {
      assert (ds + more)[|ds|] == more[0];
      var longer := ds + [more[0]];
      assert (more + rest)[1..] == more[1..] + rest && longer + more[1..] == ds + more;
      assert longer[..|ds|] == ds;
      OneDigit(Value(ds), DigitValue(more[0]));
      TakesDigits(longer, more[1..], rest);
    }
  }

  lemma OneDigit(v: nat, d: nat)
    ensures (v % TWO64 * 10 + d) % TWO64 == (v * 10 + d) % TWO64
  {
    var q, r := v / TWO64, v % TWO64;
    assert v * 10 + d == q * 10 * TWO64 + (r * 10 + d);
    Multiples(q * 10, r * 10 + d);
  }

  lemma Multiples(k: nat, b: nat)
    ensures (k * TWO64 + b) % TWO64 == b % TWO64
  {
    if k > 0 {
      Multiples(k - 1, b);
      assert k * TWO64 + b == (k - 1) * TWO64 + b + TWO64;
    }
  }

  /** Reading a number skips white space and takes the digits that follow, as many as there are: their value modulo
      2^64, and 0 where there are none. */
  lemma ParsedIntExactly(sp: string, ds: string, rest: string)
    requires White(sp) && AllDigits(ds) && (rest == "" || !AllDigits(rest[..1]))
    requires ds == "" && rest != "" ==> !White(rest[..1])
    ensures ParsedInt(sp + ds + rest) == (Value(ds) % 0x1_0000_0000_0000_0000, rest)
  {
    hide White, Value, SkipSpace, TakeDigits;
    assert sp + ds + rest == sp + (ds + rest);
    NotWhite(ds, rest);
    SkipsWhite(sp, ds + rest);
    NoDigits();
    assert "" + ds == ds;
    assert rest != "" ==> !IsDigit(rest[0]) by { if rest != "" { FirstDigit(rest); } }
    TakesDigits("", ds, rest);
  }

  lemma FirstDigit(rest: string)
    requires rest != ""
    ensures AllDigits(rest[..1]) <==> IsDigit(rest[0])
  {
    assert rest[..1] == [rest[0]];
  }

  lemma NoDigits()
    ensures AllDigits("") && Value("") == 0
  {
  }

  lemma NotWhite(ds: string, rest: string)
    requires AllDigits(ds) && (ds == "" && rest != "" ==> !White(rest[..1]))
    ensures ds + rest != "" ==> !White((ds + rest)[..1])
  {
    if ds == "" {
      assert ds + rest == rest;
    } else {
      assert (ds + rest)[..1][0] == ds[0];
    }
  }

  // ------------------------------------------------------------- the C routines

  /** backofficeParseInt on the text z from position i: the value, and the position after it. */
  method ParseInt(z: string, i: nat) returns (v: nat, j: nat)
    requires i <= |z|
    ensures i <= j <= |z|
    ensures (v, z[j..]) == ParsedInt(z[i..])
  {
    j := i;
    while j < |z| && IsSpace(z[j])
      invariant i <= j <= |z|
      invariant SkipSpace(z[j..]) == SkipSpace(z[i..])
    {
      assert z[j..][1..] == z[j + 1..];
      j := j + 1;
    }
    ghost var k := j;
    v := 0;
    while j < |z| && IsDigit(z[j])
      invariant k <= j <= |z|
      invariant TakeDigits(z[j..], v) == TakeDigits(z[k..], 0)
    {
      assert z[j..][1..] == z[j + 1..];
      v := (v * 10 + DigitValue(z[j])) % TWO64;
      j := j + 1;
    }
  }

  /** The row of the config table named 'backoffice'. */
  class ConfigTable {
    var value: Option<string>

    constructor ()
      ensures value == None
    {
      value := None;
    }

    method ReadLease() returns (x: Lease)
      ensures x == Parsed(value)
    {
      x := Lease(0, 0, 0, 0);
      if value.Some? {
        var z := value.value;
        assert z[0..] == z;
        var a, i := ParseInt(z, 0);
        var b, j := ParseInt(z, i);
        var c, k := ParseInt(z, j);
        var d, l := ParseInt(z, k);
        x := Lease(a, b, c, d);
      }
    }

    method WriteLease(x: Lease)
      requires Is64Bit(x)
      modifies this
      ensures value == Some(Formatted(x))
    {
      value := Some(Formatted(x));
    }

    /** The body of the loop in backoffice_thread, from the transaction's start to its end.
        All additions are unsigned 64-bit. */
    method RunTransaction(tmNow: nat, idSelf: nat, live: set<nat>, noDelay: bool) returns (r: Outcome)
      requires tmNow < TWO64 && idSelf < TWO64
      modifies this
      ensures r == Transact(old(Parsed(value)), tmNow, idSelf, live, noDelay).1
      ensures r == NotNeeded || r == NoDelayExit ==> value == old(value)
      ensures
        var x := old(Parsed(value));
        tmNow + LEASE_TIME < TWO63 && x.tmCurrent + LEASE_TIME < TWO63 && x.idCurrent < TWO63 && idSelf < TWO63
        ==> Parsed(value) == Transact(x, tmNow, idSelf, live, noDelay).0
    {
      hide Formatted, Parsed, Lld, Decimal;
      var x := ReadLease();
      ParsedIs64Bit(value);
      if x.tmNext >= tmNow && x.idNext != idSelf && ProcessExists(live, x.idNext) {
        return NotNeeded;
      }
      if x.tmCurrent < tmNow && ProcessDone(live, x.idCurrent) {
        x := Lease(idSelf, (tmNow + LEASE_TIME) % TWO64, 0, 0);
        WriteLease(x);
        LeaseRoundTrip(x);
        return Work;
      }
      if noDelay {
        return NoDelayExit;
      }
      x := x.(idNext := idSelf, tmNext := ((if tmNow > x.tmCurrent then tmNow else x.tmCurrent) + LEASE_TIME) % TWO64);
      WriteLease(x);
      LeaseRoundTrip(x);
      return OnDeck;
    }
  }

  lemma {:induction false} TakenBelow(z: string, v: nat)
    requires v < TWO64
    ensures TakeDigits(z, v).0 < TWO64
  {
    if z != [] && IsDigit(z[0]) {
      TakenBelow(z[1..], (v * 10 + DigitValue(z[0])) % TWO64);
    }
  }

  lemma ParsedIs64Bit(value: Option<string>)
    ensures Is64Bit(Parsed(value))
  {
    if value.Some? {
      var z := value.value;
      var z1 := ParsedInt(z).1;
      var z2 := ParsedInt(z1).1;
      var z3 := ParsedInt(z2).1;
      TakenBelow(SkipSpace(z), 0);
      TakenBelow(SkipSpace(z1), 0);
      TakenBelow(SkipSpace(z2), 0);
      TakenBelow(SkipSpace(z3), 0);
    }
  }
}

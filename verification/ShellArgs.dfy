/** blob_append_escaped_arg of src/blob.c (the Unix branch), against the shell's own rules: quoting and
    token recognition, sections 2.2 and 2.3 of POSIX XCU. */
module ShellArgs {
  import opened Basics

  const SPACE: byte := 32
  const TICK: byte := 39        // '
  const DASH: byte := 45
  const DOT: byte := 46
  const SLASH: byte := 47
  const BACKSLASH: byte := 92
  const HASH: byte := 35

  /** aSafeChar: 0 ordinary, 1 needs escaping, 2 illegal on its own, 3 to 5 first byte of a 2- to 4-byte
      UTF-8 character. */
  function SafeChar(b: byte): (x: nat)
    ensures x <= 5
  {
    if b < 0x20 then 2
    else if b <= 0x2A then 1
    else if b <= 0x3A then 0
    else if b < 0x40 then if b == 0x3D then 0 else 1
    else if b == 0x40 || b == 0x60 || 0x5B <= b <= 0x5E || 0x7B <= b <= 0x7D || b == 0x7F then 1
    else if b < 0x80 then 0
    else if b < 0xC0 then 2
    else if b < 0xE0 then 3
    else if b < 0xF0 then 4
    else 5
  }

  predicate IsTail(z: seq<byte>, k: nat) {
    k < |z| && 0x80 <= z[k] < 0xC0
  }

  predicate Whole(z: seq<byte>, x: nat) {
    IsTail(z, 1) && (x >= 4 ==> IsTail(z, 2)) && (x == 5 ==> IsTail(z, 3))
  }

  /** The scan at the start: None if some byte is not allowed, otherwise whether anything needs escaping. */
  function Scan(z: seq<byte>): Option<bool>
    decreases |z|
  {
    if z == [] then Some(false)
    else
      var x := SafeChar(z[0]);
      if x == 0 then Scan(z[1..])
      else if x == 1 then Needs(Scan(z[1..]))
      else if x == 2 || !Whole(z, x) then None
      else Needs(Scan(z[x - 1..]))
  }

  function Needs(rest: Option<bool>): Option<bool> {
    if rest.None? then None else Some(true)
  }

  predicate Legal(z: seq<byte>) {
    Scan(z).Some?
  }

  predicate IsSpace(c: byte) {
    c == 32 || 9 <= c <= 13
  }

  function Backslashed(z: seq<byte>): seq<byte> {
    if z == [] then []
    else (if SafeChar(z[0]) != 0 && SafeChar(z[0]) != 2 then [BACKSLASH, z[0]] else [z[0]]) + Backslashed(z[1..])
  }

  /** "./" before a file name that would look like an option. */
  function Prefix(z: seq<byte>, isFilename: bool): seq<byte> {
    if isFilename && z != [] && z[0] == DASH then [DOT, SLASH] else []
  }

  /** The argument as it appears on the command line. */
  function Written(z: seq<byte>, isFilename: bool): seq<byte>
    requires Legal(z)
  {
    if !Scan(z).value then Prefix(z, isFilename) + z
    else if TICK in z then Prefix(z, isFilename) + Backslashed(z)
    else [TICK] + Prefix(z, isFilename) + z + [TICK]
  }

  /** The command line t with one more argument. */
  function Appended(t: seq<byte>, z: seq<byte>, isFilename: bool): seq<byte>
    requires Legal(z)
  {
    t + (if t != [] && !IsSpace(t[|t| - 1]) then [SPACE] else []) + Written(z, isFilename)
  }

  /** A space goes before the argument exactly if the command line is not empty and does not end in white space. */
  lemma SeparatorExactly(t: seq<byte>, z: seq<byte>, isFilename: bool)
    requires Legal(z)
    ensures Appended(t, z, isFilename) ==
      if t == [] || t[|t| - 1] in [9, 10, 11, 12, 13, 32] then t + Written(z, isFilename)
      else t + [32] + Written(z, isFilename)
  {
    hide Written;
    assert t + [] == t;
  }

  datatype Arg = Arg(z: seq<byte>, isFilename: bool)

  ghost predicate AllLegal(args: seq<Arg>) {
    forall i | 0 <= i < |args| :: Legal(args[i].z)
  }

  /** Successive calls starting from an empty command line. */
  function CommandLine(args: seq<Arg>): seq<byte>
    requires AllLegal(args)
  {
    if args == [] then []
    else Appended(CommandLine(args[..|args| - 1]), args[|args| - 1].z, args[|args| - 1].isFilename)
  }

  // -------------------------------------------------------------- the shell

  type Word = seq<byte>

  datatype Mode = Normal | AfterBackslash | InQuotes

  /** The words so far, and the one being read if any. */
  datatype Shell = Shell(words: seq<Word>, cur: Option<Word>, mode: Mode) | Broken {
    function Open(): Word
      requires Shell?
    {
      if cur.Some? then cur.value else []
    }
  }

  /** Unquoted, these mean something other than themselves: operators, expansions, double quotes, patterns,
      the newline. */
  predicate Special(b: byte) {
    b in [10, 34, 36, 38, 40, 41, 42, 59, 60, 62, 63, 91, 96, 124]
  }

  function Read(s: Shell, b: byte): Shell {
    if s.Broken? then Broken
    else match s.mode
      case InQuotes => if b == TICK then s.(mode := Normal) else s.(cur := Some(s.Open() + [b]))
      case AfterBackslash => if b == 10 then Broken else s.(cur := Some(s.Open() + [b]), mode := Normal)
      case Normal =>
        if b == SPACE || b == 9 then (if s.cur.Some? then Shell(s.words + [s.cur.value], None, Normal) else s)
        else if b == BACKSLASH then s.(cur := Some(s.Open()), mode := AfterBackslash)
        else if b == TICK then s.(cur := Some(s.Open()), mode := InQuotes)
        else if Special(b) || (b == HASH && s.cur.None?) then Broken
        else s.(cur := Some(s.Open() + [b]))
  }

  function Run(s: Shell, t: seq<byte>): Shell
    decreases |t|
  {
    if t == [] then s else Run(Read(s, t[0]), t[1..])
  }

  const START := Shell([], None, Normal)

  function Finish(s: Shell): Option<seq<Word>> {
    if s.Broken? || s.mode != Normal then None
    else Some(if s.cur.Some? then s.words + [s.cur.value] else s.words)
  }

  /** The words of a command line; None if it is not a plain list of words. */
  function Parse(t: seq<byte>): Option<seq<Word>> {
    Finish(Run(START, t))
  }

  lemma {:induction false} RunConcat(s: Shell, t: seq<byte>, u: seq<byte>)
    ensures Run(s, t + u) == Run(Run(s, t), u)
    decreases |t|
  {
    hide Read;
    if t == [] {
      assert t + u == u;
    } else {
      assert (t + u)[1..] == t[1..] + u;
      RunConcat(Read(s, t[0]), t[1..], u);
    }
  }

  // ---------------------------------------------------- which arguments are legal

  /** One character of an argument: a byte from a space to 0x7F, or a lead byte followed by as many bytes from 0x80 to
      0xBF as it announces. */
  ghost predicate IsCharacter(c: seq<byte>) {
    || (|c| == 1 && 0x20 <= c[0] <= 0x7F)
    || (|c| == 2 && 0xC0 <= c[0] < 0xE0 && 0x80 <= c[1] <= 0xBF)
    || (|c| == 3 && 0xE0 <= c[0] < 0xF0 && 0x80 <= c[1] <= 0xBF && 0x80 <= c[2] <= 0xBF)
    || (|c| == 4 && 0xF0 <= c[0] && 0x80 <= c[1] <= 0xBF && 0x80 <= c[2] <= 0xBF && 0x80 <= c[3] <= 0xBF)
  }

  function Concat(cs: seq<seq<byte>>): seq<byte> {
    if cs == [] then [] else cs[0] + Concat(cs[1..])
  }

  ghost predicate Characters(cs: seq<seq<byte>>) {
    forall k | 0 <= k < |cs| :: IsCharacter(cs[k])
  }

  /** Bytes that mean themselves to the shell wherever they stand. */
  ghost predicate Ordinary(b: byte) {
    || 0x30 <= b <= 0x39 || 0x41 <= b <= 0x5A || 0x61 <= b <= 0x7A   // digits and letters
    || b in [0x2B, 0x2C, 0x2D, 0x2E, 0x2F, 0x3A, 0x3D, 0x5F, 0x7E]   // + , - . / : = _ ~
  }

  /** The number of bytes the scan takes at once for a byte of class x. */
  function Width(x: nat): nat {
    if x <= 2 then 1 else x - 1
  }

  lemma ClassOf(b: byte)
    ensures SafeChar(b) == 0 <==> Ordinary(b)
    ensures SafeChar(b) == 1 <==> 0x20 <= b <= 0x7F && !Ordinary(b)
    ensures SafeChar(b) == 2 <==> b < 0x20 || 0x80 <= b < 0xC0
    ensures SafeChar(b) == 3 <==> 0xC0 <= b < 0xE0
    ensures SafeChar(b) == 4 <==> 0xE0 <= b < 0xF0
    ensures Ordinary(b) ==> 0x20 <= b <= 0x7F
  {
  }

  /** Whether the first bytes are a character, told from the class of the first. */
  lemma FirstCharacter(z: seq<byte>)
    requires z != []
    ensures
      var x := SafeChar(z[0]);
      var w := Width(x);
      w <= |z| && IsCharacter(z[..w]) <==> x <= 1 || (x > 2 && Whole(z, x))
  {
    hide SafeChar, Ordinary;
    ClassOf(z[0]);
    var w := Width(SafeChar(z[0]));
    if w <= |z| {
      var c := z[..w];
      assert forall k | 0 <= k < w :: c[k] == z[k];
    }
  }

  lemma ScanOne(z: seq<byte>)
    requires z != []
    ensures
      var w := Width(SafeChar(z[0]));
      if w <= |z| && IsCharacter(z[..w]) then
        && (Legal(z) <==> Legal(z[w..]))
        && (Legal(z) ==> (Scan(z).value <==> !Ordinary(z[0]) || Scan(z[w..]).value))
      else
        !Legal(z)
  {
    hide SafeChar, Ordinary, IsCharacter, Whole;
    ClassOf(z[0]);
    FirstCharacter(z);
  }

  lemma WidthOfCharacter(c: seq<byte>)
    requires IsCharacter(c)
    ensures Width(SafeChar(c[0])) == |c|
    ensures forall k | 0 <= k < |c| :: Ordinary(c[k]) <==> Ordinary(c[0])
  {
  }

  lemma {:induction false} ConcatIsLegal(cs: seq<seq<byte>>)
    requires Characters(cs)
    ensures Legal(Concat(cs))
  {
    hide Scan, SafeChar, IsCharacter;
    if cs == [] {
      EmptyScan();
    } else {
      assert IsCharacter(cs[0]);
      var z := Concat(cs);
      ConcatIsLegal(cs[1..]);
      CharacterNotEmpty(cs[0]);
      WidthOfCharacter(cs[0]);
      ScanOne(z);
      assert z[..|cs[0]|] == cs[0] && z[|cs[0]|..] == Concat(cs[1..]);
    }
  }

  lemma CharacterNotEmpty(c: seq<byte>)
    requires IsCharacter(c)
    ensures c != []
  {
  }

  lemma {:induction false} LegalIsConcat(z: seq<byte>) returns (cs: seq<seq<byte>>)
    requires Legal(z)
    ensures Characters(cs) && Concat(cs) == z
    decreases |z|
  {
    hide Scan, SafeChar, IsCharacter;
    if z == [] {
      cs := [];
    } else {
      var w := Width(SafeChar(z[0]));
      ScanOne(z);
      var rest := LegalIsConcat(z[w..]);
      cs := [z[..w]] + rest;
      assert cs[1..] == rest && z == z[..w] + z[w..];
    }
  }

  /** An argument is legal exactly if it is a sequence of such characters. */
  lemma LegalExactly(z: seq<byte>)
    ensures Legal(z) <==> exists cs :: Characters(cs) && Concat(cs) == z
  {
    hide Scan;
    if Legal(z) {
      var cs := LegalIsConcat(z);
    }
    if cs :| Characters(cs) && Concat(cs) == z {
      ConcatIsLegal(cs);
    }
  }

  /** A legal argument is left as it is exactly if all its bytes are ordinary. */
  lemma {:induction false} PlainExactly(z: seq<byte>)
    requires Legal(z)
    ensures !Scan(z).value <==> forall k | 0 <= k < |z| :: Ordinary(z[k])
    decreases |z|
  {
    hide Scan, SafeChar, IsCharacter, Ordinary;
    if z == [] {
      EmptyScan();
    } else {
      var w := Width(SafeChar(z[0]));
      ScanOne(z);
      WidthOfCharacter(z[..w]);
      PlainExactly(z[w..]);
      assert forall k | 0 <= k < w :: z[..w][k] == z[k];
      assert forall k | w <= k < |z| :: z[w..][k - w] == z[k];
    }
  }

  /** What a backslash goes in front of: all but ordinary bytes and the later bytes of a character. */
  ghost predicate TakesBackslash(b: byte) {
    0x20 <= b && !Ordinary(b) && !(0x80 <= b <= 0xBF)
  }

  lemma BackslashedByte(b: byte)
    requires b >= 0x20
    ensures Backslashed([b]) == if TakesBackslash(b) then [BACKSLASH, b] else [b]
  {
  }

  lemma {:induction false} BackslashedConcat(s: seq<byte>, t: seq<byte>)
    ensures Backslashed(s + t) == Backslashed(s) + Backslashed(t)
  {
    if s == [] {
      assert s + t == t;
    } else {
      assert (s + t)[1..] == s[1..] + t;
      BackslashedConcat(s[1..], t);
    }
  }

  /** The three forms of a written argument: as it is if all its bytes are ordinary; between apostrophes if it has
      none itself; otherwise byte by byte, each with a backslash in front if it needs one. */
  lemma WrittenExactly(z: seq<byte>, isFilename: bool)
    requires Legal(z)
    ensures
      var dotted := if isFilename && z != [] && z[0] == 45 then [46, 47] else [];
      var plain := forall k | 0 <= k < |z| :: Ordinary(z[k]);
      && (plain ==> Written(z, isFilename) == dotted + z)
      && (!plain && 39 !in z ==> Written(z, isFilename) == [39] + dotted + z + [39])
      && (39 in z ==> exists w :: Written(z, isFilename) == dotted + w && EscapedBytes(z, w))
  {
    hide Scan, SafeChar, Ordinary;
    PlainExactly(z);
    if 39 in z {
      NotOrdinaryTick();
      LegalBytes(z);
      BackslashedIs(z);
      assert EscapedBytes(z, Backslashed(z));
    }
  }

  lemma NotOrdinaryTick()
    ensures !Ordinary(39)
  {
  }

  /** w is z with a backslash in front of each byte that takes one. */
  ghost predicate EscapedBytes(z: seq<byte>, w: seq<byte>)
    decreases |z|
  {
    if z == [] then w == []
    else if TakesBackslash(z[0]) then |w| >= 2 && w[0] == 92 && w[1] == z[0] && EscapedBytes(z[1..], w[2..])
    else |w| >= 1 && w[0] == z[0] && EscapedBytes(z[1..], w[1..])
  }

  lemma {:induction false} BackslashedIs(z: seq<byte>)
    requires forall k | 0 <= k < |z| :: z[k] >= 0x20
    ensures EscapedBytes(z, Backslashed(z))
  {
    hide SafeChar, TakesBackslash;
    if z != [] {
      assert z == [z[0]] + z[1..];
      BackslashedByte(z[0]);
      BackslashedConcat([z[0]], z[1..]);
      BackslashedIs(z[1..]);
      var w := Backslashed(z);
      assert TakesBackslash(z[0]) ==> w[2..] == Backslashed(z[1..]);
      assert !TakesBackslash(z[0]) ==> w[1..] == Backslashed(z[1..]);
    }
  }

  // ------------------------------------------------------- one argument at a time

  lemma {:induction false} LegalBytes(z: seq<byte>)
    requires Legal(z)
    ensures forall k | 0 <= k < |z| :: z[k] >= 32
    ensures !Scan(z).value ==> forall k | 0 <= k < |z| :: SafeChar(z[k]) == 0
    decreases |z|
  {
    if z != [] {
      var x := SafeChar(z[0]);
      var skip := if x <= 1 then 1 else x - 1;
      LegalBytes(z[skip..]);
      forall k | 0 <= k < |z| ensures z[k] >= 32 && (!Scan(z).value ==> SafeChar(z[k]) == 0) {
        if k >= skip { assert z[k] == z[skip..][k - skip]; }
      }
    }
  }

  /** The state after reading one more word part w. */
  function With(s: Shell, w: Word): Shell
    requires s.Shell?
  {
    if w == [] then s else s.(cur := Some(s.Open() + w))
  }

  lemma WithTwice(s: Shell, v: Word, w: Word)
    requires s.Shell?
    ensures With(With(s, v), w) == With(s, v + w)
  {
    assert v + w == [] <==> v == [] && w == [];
    assert s.Open() + (v + w) == (s.Open() + v) + w;
    assert v == [] ==> v + w == w;
    assert w == [] ==> v + w == v;
  }

  /** Bytes the shell takes for themselves wherever they stand. */
  predicate Inert(b: byte) {
    b > 32 && b != BACKSLASH && b != TICK && b != HASH && !Special(b)
  }

  lemma {:induction false} RunInert(s: Shell, t: seq<byte>)
    requires s.Shell? && s.mode == Normal && forall k | 0 <= k < |t| :: Inert(t[k])
    ensures Run(s, t) == With(s, t)
    decreases |t|
  {
    if t != [] {
      var s1 := Read(s, t[0]);
      assert s1 == With(s, [t[0]]);
      RunInert(s1, t[1..]);
      WithTwice(s, [t[0]], t[1..]);
      assert t == [t[0]] + t[1..];
    }
  }

  lemma {:induction false} RunInQuotes(s: Shell, t: seq<byte>)
    requires s.Shell? && s.mode == InQuotes && s.cur.Some? && TICK !in t
    ensures Run(s, t) == s.(cur := Some(s.cur.value + t))
    decreases |t|
  {
    if t == [] {
      assert s.cur.value + t == s.cur.value;
    } else {
      assert t[0] in t && forall b | b in t[1..] :: b in t;
      RunInQuotes(Read(s, t[0]), t[1..]);
      assert s.cur.value + t == (s.cur.value + [t[0]]) + t[1..];
    }
  }

  lemma ZeroOrTwoIsInert(b: byte)
    requires b >= 32 && (SafeChar(b) == 0 || SafeChar(b) == 2)
    ensures Inert(b)
  {
  }

  lemma {:induction false} RunBackslashed(s: Shell, z: seq<byte>)
    requires s.Shell? && s.mode == Normal && forall k | 0 <= k < |z| :: z[k] >= 32
    ensures Run(s, Backslashed(z)) == With(s, z)
    decreases |z|
  {
    hide Special, SafeChar, Inert;
    if z != [] {
      var head := if SafeChar(z[0]) != 0 && SafeChar(z[0]) != 2 then [BACKSLASH, z[0]] else [z[0]];
      var s1 := With(s, [z[0]]);
      RunHead(s, z[0]);
      RunConcat(s, head, Backslashed(z[1..]));
      RunBackslashed(s1, z[1..]);
      WithTwice(s, [z[0]], z[1..]);
      assert z == [z[0]] + z[1..];
    }
  }

  lemma RunHead(s: Shell, b: byte)
    requires s.Shell? && s.mode == Normal && b >= 32
    ensures
      var head := if SafeChar(b) != 0 && SafeChar(b) != 2 then [BACKSLASH, b] else [b];
      Run(s, head) == With(s, [b])
  {
    hide Special, SafeChar;
    if SafeChar(b) != 0 && SafeChar(b) != 2 {
      var t := [BACKSLASH, b];
      assert t[1..] == [b] && [b][1..] == [];
      var s1 := Read(s, BACKSLASH);
      assert s1 == s.(cur := Some(s.Open()), mode := AfterBackslash);
      assert Run(s, t) == Run(s1, [b]) == Run(Read(s1, b), []);
    } else {
      ZeroOrTwoIsInert(b);
      RunInert(s, [b]);
    }
  }

  /** What the argument means to the shell. */
  function Expected(z: seq<byte>, isFilename: bool): Word {
    Prefix(z, isFilename) + z
  }

  /** Read from any point between or inside unquoted words, the written argument adds exactly itself. */
  lemma RunWritten(s: Shell, z: seq<byte>, isFilename: bool)
    requires s.Shell? && s.mode == Normal && Legal(z)
    ensures Run(s, Written(z, isFilename)) == With(s, Expected(z, isFilename))
  {
    hide Special, Scan, Read, SafeChar;
    LegalBytes(z);
    var p := Prefix(z, isFilename);
    PrefixIsInert(z, isFilename);
    if !Scan(z).value {
      forall k | 0 <= k < |p + z| ensures Inert((p + z)[k]) {
        if k < |p| { assert (p + z)[k] == p[k]; } else { ZeroOrTwoIsInert(z[k - |p|]); }
      }
      RunInert(s, p + z);
    } else if TICK in z {
      RunConcat(s, p, Backslashed(z));
      RunInert(s, p);
      RunBackslashed(With(s, p), z);
      WithTwice(s, p, z);
    } else {
      RunQuoted(s, p + z);
      assert [TICK] + p + z + [TICK] == [TICK] + (p + z) + [TICK];
      if z == [] { EmptyScan(); }
    }
  }

  lemma EmptyScan()
    ensures Scan([]) == Some(false)
  {
  }

  lemma PrefixIsInert(z: seq<byte>, isFilename: bool)
    ensures var p := Prefix(z, isFilename); TICK !in p && forall k | 0 <= k < |p| :: Inert(p[k])
  {
  }

  lemma RunQuoted(s: Shell, t: seq<byte>)
    requires s.Shell? && s.mode == Normal && TICK !in t
    ensures Run(s, [TICK] + t + [TICK]) == s.(cur := Some(s.Open() + t))
  {
    hide Special;
    var s1 := s.(cur := Some(s.Open()), mode := InQuotes);
    assert [TICK] + t + [TICK] == [TICK] + (t + [TICK]);
    assert ([TICK] + (t + [TICK]))[1..] == t + [TICK];
    RunConcat(s1, t, [TICK]);
    RunInQuotes(s1, t);
    var s2 := s1.(cur := Some(s.Open() + t));
    assert Run(s2, [TICK]) == Run(Read(s2, TICK), []);
  }

  // ----------------------------------------------------------- whole command lines

  /** An argument whose text ends in a space that is escaped by a backslash. */
  predicate EndsInEscapedSpace(z: seq<byte>) {
    z != [] && z[|z| - 1] == SPACE && TICK in z
  }

  /** What the shell has read after some arguments; `glued` if the text ends in an escaped space, which the next
      call takes for a separator. */
  datatype Heard = Heard(words: seq<Word>, cur: Option<Word>, glued: bool) {
    function State(): Shell {
      Shell(words, cur, Normal)
    }
    function Count(): nat {
      |words| + if cur.Some? then 1 else 0
    }
  }

  function Hear(h: Heard, a: Arg): Heard {
    var g := if h.cur.Some? && !h.glued then Heard(h.words + [h.cur.value], None, false) else h;
    if a.z == [] then g
    else
      var before := if g.cur.Some? then g.cur.value else [];
      Heard(g.words, Some(before + Expected(a.z, a.isFilename)), EndsInEscapedSpace(a.z))
  }

  function HearAll(args: seq<Arg>): Heard {
    if args == [] then Heard([], None, false) else Hear(HearAll(args[..|args| - 1]), args[|args| - 1])
  }

  /** Text and shell agree: the shell is between words or inside an unquoted one, and the text ends in something
      other than a space exactly when a word is open and not glued. */
  ghost predicate Agrees(t: seq<byte>, h: Heard) {
    && Run(START, t) == h.State()
    && (t != [] && !IsSpace(t[|t| - 1]) <==> h.cur.Some? && !h.glued)
  }

  lemma {:induction false} LastWritten(z: seq<byte>, isFilename: bool)
    requires Legal(z) && z != []
    ensures var w := Written(z, isFilename); w != [] && (IsSpace(w[|w| - 1]) <==> EndsInEscapedSpace(z))
  {
    hide Scan, SafeChar;
    LegalBytes(z);
    if Scan(z).value && TICK in z {
      LastBackslashed(z);
    } else if !Scan(z).value {
      NotPlainSpace(z[|z| - 1]);
    }
  }

  lemma NotPlainSpace(b: byte)
    requires b >= 32 && SafeChar(b) == 0
    ensures !IsSpace(b)
    ensures b != TICK
  {
  }

  lemma {:induction false} LastBackslashed(z: seq<byte>)
    requires z != []
    ensures var w := Backslashed(z); w != [] && w[|w| - 1] == z[|z| - 1]
  {
    if |z| > 1 {
      LastBackslashed(z[1..]);
    }
  }

  lemma AgreesStep(t: seq<byte>, h: Heard, a: Arg)
    requires Agrees(t, h) && Legal(a.z)
    ensures Agrees(Appended(t, a.z, a.isFilename), Hear(h, a))
  {
    hide Special, Scan, Written, IsSpace, Expected, EndsInEscapedSpace;
    var sep := if t != [] && !IsSpace(t[|t| - 1]) then [SPACE] else [];
    var w := Written(a.z, a.isFilename);
    RunConcat(START, t + sep, w);
    RunConcat(START, t, sep);
    RunSeparator(h);
    RunWritten(Run(START, t + sep), a.z, a.isFilename);
    ExpectedEmpty(a.z, a.isFilename);
    if a.z == [] {
      SpaceIsSpace();
      assert t + sep + w == t + sep;
    } else {
      LastWritten(a.z, a.isFilename);
      assert (t + sep + w)[|t + sep + w| - 1] == w[|w| - 1];
    }
  }

  lemma SpaceIsSpace()
    ensures IsSpace(SPACE)
  {
  }

  lemma ExpectedEmpty(z: seq<byte>, isFilename: bool)
    ensures Expected(z, isFilename) == [] <==> z == []
    ensures z == [] ==> Legal(z) && Written(z, isFilename) == []
  {
    EmptyScan();
  }

  lemma RunSeparator(h: Heard)
    ensures h.cur.Some? ==> Run(h.State(), [SPACE]) == Shell(h.words + [h.cur.value], None, Normal)
  {
    if h.cur.Some? {
      assert Run(h.State(), [SPACE]) == Run(Read(h.State(), SPACE), []);
    }
  }

  lemma {:induction false} CommandLineHeard(args: seq<Arg>)
    requires AllLegal(args)
    ensures Agrees(CommandLine(args), HearAll(args))
  {
    hide Appended, Hear, Legal;
    if args != [] {
      CommandLineHeard(args[..|args| - 1]);
      AgreesStep(CommandLine(args[..|args| - 1]), HearAll(args[..|args| - 1]), args[|args| - 1]);
    }
  }

  function ExpectedWords(args: seq<Arg>): seq<Word> {
    if args == [] then []
    else ExpectedWords(args[..|args| - 1]) + [Expected(args[|args| - 1].z, args[|args| - 1].isFilename)]
  }

  /** Every argument is non-empty, and none but the last ends in an escaped space. */
  ghost predicate Separable(args: seq<Arg>) {
    && (forall i | 0 <= i < |args| :: args[i].z != [])
    && (forall i | 0 <= i < |args| - 1 :: !EndsInEscapedSpace(args[i].z))
  }

  function AllWords(h: Heard): seq<Word> {
    if h.cur.Some? then h.words + [h.cur.value] else h.words
  }

  /** One more argument adds at most one word: none if it is empty or glued to the one before, otherwise itself. */
  lemma HearAdds(h: Heard, a: Arg)
    ensures var g := Hear(h, a);
      && (a.z == [] ==> AllWords(g) == AllWords(h) && !(g.glued && g.cur.None?))
      && (a.z != [] && h.glued && h.cur.Some? ==> |AllWords(g)| == |AllWords(h)|)
      && (a.z != [] && !(h.glued && h.cur.Some?) ==> AllWords(g) == AllWords(h) + [Expected(a.z, a.isFilename)])
      && (a.z != [] ==> g.cur.Some? && (g.glued <==> EndsInEscapedSpace(a.z)))
    requires h.glued ==> h.cur.Some?
  {
    hide Expected, EndsInEscapedSpace;
    assert [] + Expected(a.z, a.isFilename) == Expected(a.z, a.isFilename);
  }

  lemma SeparableLast(args: seq<Arg>)
    requires args != []
    ensures var pre, a := args[..|args| - 1], args[|args| - 1];
      Separable(args) <==> Separable(pre) && a.z != [] && (pre == [] || !EndsInEscapedSpace(pre[|pre| - 1].z))
  {
    hide EndsInEscapedSpace;
    var pre := args[..|args| - 1];
    assert forall i | 0 <= i < |pre| :: pre[i] == args[i];
  }

  lemma {:induction false} WordsHeard(args: seq<Arg>)
    ensures |AllWords(HearAll(args))| <= |args|
    ensures !Separable(args) ==> |AllWords(HearAll(args))| < |args|
    ensures Separable(args) ==> AllWords(HearAll(args)) == ExpectedWords(args)
    ensures HearAll(args).glued ==> args != [] && HearAll(args).cur.Some?
    ensures Separable(args) && args != [] ==>
      (HearAll(args).cur.Some? && (HearAll(args).glued <==> EndsInEscapedSpace(args[|args| - 1].z)))
  {
    if args != [] {
      hide Expected, EndsInEscapedSpace, Separable, AllWords, Hear;
      var pre, a := args[..|args| - 1], args[|args| - 1];
      WordsHeard(pre);
      SeparableLast(args);
      HearAdds(HearAll(pre), a);
    }
  }

  lemma {:induction false} ExpectedCount(args: seq<Arg>)
    ensures |ExpectedWords(args)| == |args|
  {
    if args != [] {
      ExpectedCount(args[..|args| - 1]);
    }
  }

  /** For every list of legal arguments the shell reads some list of words back; it is the list that was given
      (with "./" before option-like file names) exactly when every argument is non-empty and no argument but
      the last contains an apostrophe and ends in a space. */
  lemma CommandLineRoundTrip(args: seq<Arg>)
    requires AllLegal(args)
    ensures Parse(CommandLine(args)).Some?
    ensures Parse(CommandLine(args)) == Some(ExpectedWords(args)) <==> Separable(args)
  {
    hide Run, HearAll, CommandLine, Separable, ExpectedWords, AllLegal;
    CommandLineHeard(args);
    WordsHeard(args);
    ExpectedCount(args);
  }
}

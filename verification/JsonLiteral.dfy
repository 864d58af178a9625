/** blob_append_json_literal of src/blob.c, against section 7 of RFC 8259. */
module JsonLiteral {
  import opened Basics
  import opened Blobs
  import opened Expansion
  import Utf8

  const QUOTE: byte := 34
  const BACKSLASH: byte := 92
  const U000: seq<byte> := [92, 117, 48, 48, 48]
  const U001: seq<byte> := [92, 117, 48, 48, 49]

  /** A hexadecimal digit in lower case. */
  function HexLower(d: nat): byte
    requires d < 16
  {
    if d < 10 then 48 + d else 87 + d
  }

  /** The letter of the two-character escapes; 0 for bytes that have none. */
  function ShortEscape(b: byte): byte {
    if b == 8 then 98          // \b
    else if b == 9 then 116    // \t
    else if b == 10 then 110   // \n
    else if b == 12 then 102   // \f
    else if b == 13 then 114   // \r
    else if b == QUOTE || b == BACKSLASH then b
    else 0
  }

  /** How one byte is written. */
  function JsonOf(b: byte): (e: seq<byte>)
    ensures |e| >= 1
  {
    if ShortEscape(b) != 0 then [BACKSLASH, ShortEscape(b)]
    else if b < 16 then U000 + [HexLower(b)]
    else if b < 32 then U001 + [HexLower(b - 16)]
    else [b]
  }

  function Literal(s: seq<byte>): seq<byte> {
    [QUOTE] + Expanded(JsonOf, s) + [QUOTE]
  }

  // ---------------------------------------------------------------- the decoder

  predicate IsHex(b: byte) {
    48 <= b <= 57 || 65 <= b <= 70 || 97 <= b <= 102
  }

  function HexValue(b: byte): (v: nat)
    requires IsHex(b)
    ensures v < 16
  {
    if b <= 57 then b - 48 else if b <= 70 then b - 55 else b - 87
  }

  function Cons(s: seq<byte>, rest: Option<seq<byte>>): Option<seq<byte>> {
    match rest
    case None => None
    case Some(r) => Some(s + r)
  }

  function Unescaped(c: byte): Option<byte> {
    if c == QUOTE || c == BACKSLASH || c == 47 then Some(c)
    else if c == 98 then Some(8)
    else if c == 102 then Some(12)
    else if c == 110 then Some(10)
    else if c == 114 then Some(13)
    else if c == 116 then Some(9)
    else None
  }

  /** The characters up to the closing quote, which must be the last byte.  A \u escape stands for the UTF-8
      encoding of its code point; surrogates, which need another escape to go with them, are not handled. */
  function Chars(e: seq<byte>): Option<seq<byte>> {
    if e == [] || e[0] < 32 then None
    else if e[0] == QUOTE then if |e| == 1 then Some([]) else None
    else if e[0] != BACKSLASH then Cons([e[0]], Chars(e[1..]))
    else if |e| < 2 then None
    else if e[1] == 117 then
      if |e| >= 6 && IsHex(e[2]) && IsHex(e[3]) && IsHex(e[4]) && IsHex(e[5]) then
        var c := HexValue(e[2]) * 4096 + HexValue(e[3]) * 256 + HexValue(e[4]) * 16 + HexValue(e[5]);
        if 0xD800 <= c < 0xE000 then None else Cons(Utf8.Encode(c), Chars(e[6..]))
      else None
    else if Unescaped(e[1]).Some? then Cons([Unescaped(e[1]).value], Chars(e[2..]))
    else None
  }

  /** The string that a whole JSON text denotes. */
  function Decode(e: seq<byte>): Option<seq<byte>> {
    if e != [] && e[0] == QUOTE then Chars(e[1..]) else None
  }

  // ----------------------------------------------------------------- round trip

  lemma CharsShort(b: byte, rest: seq<byte>)
    requires ShortEscape(b) != 0
    ensures Chars(JsonOf(b) + rest) == Cons([b], Chars(rest))
  {
    var e := JsonOf(b) + rest;
    assert e[2..] == rest;
  }

  lemma CharsControl(b: byte, rest: seq<byte>)
    requires b < 32 && ShortEscape(b) == 0
    ensures Chars(JsonOf(b) + rest) == Cons([b], Chars(rest))
  {
    var e := JsonOf(b) + rest;
    assert e[6..] == rest;
    assert HexValue(e[2]) == 0 && HexValue(e[3]) == 0 && HexValue(e[4]) == b / 16 && HexValue(e[5]) == b % 16;
  }

  lemma CharsOf(b: byte, rest: seq<byte>)
    ensures Chars(JsonOf(b) + rest) == Cons([b], Chars(rest))
  {
    if ShortEscape(b) != 0 {
      CharsShort(b, rest);
    } else if b < 32 {
      CharsControl(b, rest);
    } else {
      assert ([b] + rest)[1..] == rest;
    }
  }

  lemma {:induction false} CharsOfExpanded(s: seq<byte>)
    ensures Chars(Expanded(JsonOf, s) + [QUOTE]) == Some(s)
  {
    hide JsonOf, Chars;
    if s == [] {
      assert Expanded(JsonOf, s) + [QUOTE] == [QUOTE];
      CharsEnd();
    } else {
      var rest := Expanded(JsonOf, s[1..]);
      assert Expanded(JsonOf, s) + [QUOTE] == JsonOf(s[0]) + (rest + [QUOTE]);
      CharsOf(s[0], rest + [QUOTE]);
      CharsOfExpanded(s[1..]);
      assert s == [s[0]] + s[1..];
    }
  }

  lemma CharsEnd()
    ensures Chars([QUOTE]) == Some([])
  {
  }

  /** Every byte string survives being written and read as a JSON string. */
  lemma JsonRoundTrip(s: seq<byte>)
    ensures Decode(Literal(s)) == Some(s)
  {
    hide Chars, Expanded, Literal, JsonOf;
    CharsOfExpanded(s);
    LiteralIs(s);
  }

  lemma LiteralIs(s: seq<byte>)
    ensures Literal(s) != [] && Literal(s)[0] == QUOTE && Literal(s)[1..] == Expanded(JsonOf, s) + [QUOTE]
  {
    hide Expanded, JsonOf;
    var body := Expanded(JsonOf, s) + [QUOTE];
    assert Literal(s) == [QUOTE] + body;
  }

  /** The literal contains no control character, and no interior quote stands without a backslash before it. */
  lemma {:induction false} LiteralIsClean(s: seq<byte>, k: nat)
    requires k < |Expanded(JsonOf, s)|
    ensures Expanded(JsonOf, s)[k] >= 32
    ensures Expanded(JsonOf, s)[k] == QUOTE ==> k > 0 && Expanded(JsonOf, s)[k - 1] == BACKSLASH
  {
    hide JsonOf;
    var code, rest := JsonOf(s[0]), Expanded(JsonOf, s[1..]);
    CodeIsClean(s[0]);
    assert Expanded(JsonOf, s) == code + rest;
    if k >= |code| {
      LiteralIsClean(s[1..], k - |code|);
    }
  }

  lemma CodeIsClean(b: byte)
    ensures forall k | 0 <= k < |JsonOf(b)| :: JsonOf(b)[k] >= 32
    ensures forall k | 0 <= k < |JsonOf(b)| && JsonOf(b)[k] == QUOTE :: k > 0 && JsonOf(b)[k - 1] == BACKSLASH
  {
  }

  // ------------------------------------------------------------------- the shortest

  lemma {:induction false} ExpandedWide(s: seq<byte>, m: nat)
    requires forall k | 0 <= k < |s| :: |JsonOf(s[k])| <= m
    ensures |Expanded(JsonOf, s)| <= m * |s|
  {
    hide JsonOf;
    if s != [] {
      ExpandedWide(s[1..], m);
    }
  }

  lemma JsonWidth(b: byte)
    ensures |JsonOf(b)| <= 6
    ensures b >= 0x80 ==> |JsonOf(b)| == 1
    ensures b >= 32 ==> |JsonOf(b)| <= 2
    ensures b >= 32 && b != QUOTE && b != BACKSLASH ==> |JsonOf(b)| == 1
    ensures b in [8, 9, 10, 12, 13] ==> |JsonOf(b)| == 2
  {
  }

  lemma EscapedCodePoint(c: nat)
    requires c < 0x10000
    ensures |Expanded(JsonOf, Utf8.Encode(c))| <= 6
  {
    hide JsonOf;
    var s := Utf8.Encode(c);
    forall k | 0 <= k < |s| ensures |JsonOf(s[k])| <= 6 && (s[k] >= 0x80 ==> |JsonOf(s[k])| == 1) {
      JsonWidth(s[k]);
    }
    ExpandedWide(s, if c < 0x80 then 6 else 1);
  }

  lemma ExpandedByte(b: byte)
    ensures Expanded(JsonOf, [b]) == JsonOf(b)
  {
    hide JsonOf;
    assert Expanded(JsonOf, [b][1..]) == [];
  }

  lemma PieceFits(piece: seq<byte>, rest: seq<byte>, width: nat, more: nat)
    requires |Expanded(JsonOf, piece)| <= width && |Expanded(JsonOf, rest)| <= more
    ensures |Expanded(JsonOf, piece + rest)| <= width + more
  {
    hide JsonOf, Expanded;
    ExpandedConcat(JsonOf, piece, rest);
    assert |Expanded(JsonOf, piece + rest)| == |Expanded(JsonOf, piece)| + |Expanded(JsonOf, rest)|;
  }

  lemma {:induction false} CharsNotShorter(e: seq<byte>)
    requires Chars(e).Some?
    ensures |Expanded(JsonOf, Chars(e).value)| + 1 <= |e|
    decreases |e|
  {
    hide JsonOf, Expanded;
    if e[0] == QUOTE {
      NothingExpanded();
    } else if e[0] != BACKSLASH {
      CharsNotShorter(e[1..]);
      JsonWidth(e[0]);
      ExpandedByte(e[0]);
      PieceFits([e[0]], Chars(e[1..]).value, 1, |e| - 2);
    } else if e[1] == 117 {
      var c := HexValue(e[2]) * 4096 + HexValue(e[3]) * 256 + HexValue(e[4]) * 16 + HexValue(e[5]);
      CharsNotShorter(e[6..]);
      EscapedCodePoint(c);
      PieceFits(Utf8.Encode(c), Chars(e[6..]).value, 6, |e| - 7);
    } else {
      var b := Unescaped(e[1]).value;
      CharsNotShorter(e[2..]);
      JsonWidth(b);
      ExpandedByte(b);
      PieceFits([b], Chars(e[2..]).value, 2, |e| - 3);
    }
  }

  lemma NothingExpanded()
    ensures Expanded(JsonOf, []) == []
  {
  }

  /** No JSON string that means the same is shorter. */
  lemma LiteralIsShortest(s: seq<byte>, e: seq<byte>)
    requires Decode(e) == Some(s)
    ensures |Literal(s)| <= |e|
  {
    hide Chars, Expanded;
    CharsNotShorter(e[1..]);
  }

  ghost predicate NoCapital(s: seq<byte>) {
    forall k | 0 <= k < |s| :: !(65 <= s[k] <= 90)
  }

  lemma CodeNoCapital(b: byte)
    requires !(65 <= b <= 90)
    ensures NoCapital(JsonOf(b))
  {
  }

  lemma {:induction false} ExpandedNoCapital(s: seq<byte>)
    requires NoCapital(s)
    ensures NoCapital(Expanded(JsonOf, s))
  {
    hide JsonOf;
    if s != [] {
      CodeNoCapital(s[0]);
      ExpandedNoCapital(s[1..]);
    }
  }

  /** Hexadecimal digits are in lower case: a text without capital letters is written without any. */
  lemma NoCapitals(s: seq<byte>)
    requires NoCapital(s)
    ensures NoCapital(Literal(s))
  {
    ExpandedNoCapital(s);
  }

  // --------------------------------------------------------------- the C function

  lemma ExpandedSnoc(s: seq<byte>, i: nat)
    requires i < |s|
    ensures Expanded(JsonOf, s[..i + 1]) == Expanded(JsonOf, s[..i]) + JsonOf(s[i])
  {
    hide JsonOf;
    assert s[..i + 1] == s[..i] + [s[i]];
    ExpandedConcat(JsonOf, s[..i], [s[i]]);
    assert Expanded(JsonOf, [s[i]]) == JsonOf(s[i]) + Expanded(JsonOf, []);
  }

  /** What the switch statement does with one character: the text appended first, and the character that
      follows it. */
  method Switch(b: byte) returns (before: seq<byte>, c: byte)
    ensures before + [c] == JsonOf(b)
  {
    before, c := [], b;
    if b <= 7 {
      c := b + 48; before := U000;
    } else if b == 0x0b || b == 0x0e || b == 0x0f {
      c := b + (97 - 0x0a); before := U000;
    } else if 0x10 <= b <= 0x19 {
      c := b + 48 - 0x10; before := U001;
    } else if 0x1a <= b <= 0x1f {
      c := b + 97 - 0x1a; before := U001;
    } else if b == 8 {
      c := 98; before := [BACKSLASH];
    } else if b == 9 {
      c := 116; before := [BACKSLASH];
    } else if b == 13 {
      c := 114; before := [BACKSLASH];
    } else if b == 10 {
      c := 110; before := [BACKSLASH];
    } else if b == 12 {
      c := 102; before := [BACKSLASH];
    } else if b == QUOTE {
      before := [BACKSLASH];
    } else if b == BACKSLASH {
      before := [BACKSLASH];
    }
  }

  /** The body of the loop. */
  method AppendCode(pOut: Blob, b: byte)
    requires pOut.Ok()
    modifies pOut, pOut.data
    ensures pOut.Ok() && pOut.Text() == old(pOut.Text()) + JsonOf(b)
    ensures pOut.data == old(pOut.data) || fresh(pOut.data)
  {
    hide JsonOf;
    var before, c := Switch(b);
    pOut.Append(before);
    pOut.AppendChar(c);
    assert old(pOut.Text()) + before + [c] == old(pOut.Text()) + (before + [c]);
  }

  method AppendJsonLiteral(pOut: Blob, z: seq<byte>)
    requires pOut.Ok()
    modifies pOut, pOut.data
    ensures pOut.Ok() && pOut.Text() == old(pOut.Text()) + Literal(z)
    ensures pOut.data == old(pOut.data) || fresh(pOut.data)
  {
    hide Expanded, JsonOf;
    ghost var was := pOut.Text();
    pOut.AppendChar(QUOTE);
    OfNothing(JsonOf);
    for i := 0 to |z|
      invariant pOut.Ok() && (pOut.data == old(pOut.data) || fresh(pOut.data))
      invariant pOut.Text() == was + ([QUOTE] + Expanded(JsonOf, z[..i]))
    {
      AppendCode(pOut, z[i]);
      ExpandedSnoc(z, i);
      Regroup(was, Expanded(JsonOf, z[..i]), JsonOf(z[i]));
    }
    assert z[..|z|] == z;
    pOut.AppendChar(QUOTE);
    Regroup(was, Expanded(JsonOf, z), [QUOTE]);
  }

  lemma Regroup(was: seq<byte>, done: seq<byte>, more: seq<byte>)
    ensures was + ([QUOTE] + done) + more == was + ([QUOTE] + (done + more)) == was + ([QUOTE] + done + more)
  {
  }
}

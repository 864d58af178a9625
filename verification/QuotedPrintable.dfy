/** append_quoted of src/alerts.c, against section 6.7 of RFC 2045. */
module QuotedPrintable {
  import opened Basics
  import opened Blobs

  const TAB: byte := 9
  const LF: byte := 10
  const CR: byte := 13
  const SPACE: byte := 32
  const EQUALS: byte := 61
  const COLON: byte := 58

  /** The character after the first one of a zero-terminated text. */
  function Second(t: seq<byte>): byte {
    if |t| > 1 then t[1] else 0
  }

  /** Characters sent as themselves. */
  predicate Plain(c: byte, next: byte) {
    || (33 <= c <= 126 && c != EQUALS && c != COLON)
    || (c == SPACE && next != CR && next != LF)
  }

  function HexDigit(d: nat): byte
    requires d < 16
  {
    if d < 10 then 48 + d else 55 + d
  }

  function Escape(c: byte): seq<byte> {
    [EQUALS, HexDigit(c / 16), HexDigit(c % 16)]
  }

  const SOFT_BREAK: seq<byte> := [EQUALS, CR, LF]
  const NEWLINE: seq<byte> := [CR, LF]

  /** What append_quoted adds for the text t when `col` columns of the line are used. */
  function Quoted(t: seq<byte>, col: nat): seq<byte>
    decreases |t|
  {
    if t == [] || t[0] == 0 then []
    else if Plain(t[0], Second(t)) then
      if col + 1 >= 70 then [t[0]] + SOFT_BREAK + Quoted(t[1..], 0) else [t[0]] + Quoted(t[1..], col + 1)
    else if t[0] == CR && Second(t) == LF then NEWLINE + Quoted(t[2..], 0)
    else if t[0] == LF then NEWLINE + Quoted(t[1..], 0)
    else Escape(t[0]) + Quoted(t[1..], col + 3)
  }

  /** The column it ends in. */
  function EndColumn(t: seq<byte>, col: nat): nat
    decreases |t|
  {
    if t == [] || t[0] == 0 then col
    else if Plain(t[0], Second(t)) then EndColumn(t[1..], if col + 1 >= 70 then 0 else col + 1)
    else if t[0] == CR && Second(t) == LF then EndColumn(t[2..], 0)
    else if t[0] == LF then EndColumn(t[1..], 0)
    else EndColumn(t[1..], col + 3)
  }

  /** The text as mail carries it: every bare LF turned into CR LF, nothing else changed. */
  function Canonical(t: seq<byte>): seq<byte>
    decreases |t|
  {
    if t == [] then []
    else if t[0] == CR && Second(t) == LF then NEWLINE + Canonical(t[2..])
    else if t[0] == LF then NEWLINE + Canonical(t[1..])
    else [t[0]] + Canonical(t[1..])
  }

  // -------------------------------------------------------------- the decoder

  predicate IsBlank(b: byte) {
    b == SPACE || b == TAB
  }

  /** Only blanks up to the end of the line or of the data. */
  predicate LineEnds(e: seq<byte>) {
    if e == [] then true
    else if IsBlank(e[0]) then LineEnds(e[1..])
    else |e| >= 2 && e[0] == CR && e[1] == LF
  }

  function NextLine(e: seq<byte>): (r: seq<byte>)
    requires LineEnds(e)
    ensures |r| <= |e|
  {
    if e == [] then [] else if IsBlank(e[0]) then NextLine(e[1..]) else e[2..]
  }

  predicate IsHex(b: byte) {
    48 <= b <= 57 || 65 <= b <= 70
  }

  function HexValue(b: byte): (v: nat)
    requires IsHex(b)
    ensures v < 16
  {
    if b <= 57 then b - 48 else b - 55
  }

  function Cons(s: seq<byte>, rest: Option<seq<byte>>): Option<seq<byte>> {
    match rest
    case None => None
    case Some(r) => Some(s + r)
  }

  /** Rules 1 to 5 of section 6.7: =XX is a byte; 33 to 126 stand for themselves; blanks at the end of a line
      are dropped; CR LF is a line break; = at the end of a line is a soft one. */
  function Decode(e: seq<byte>): Option<seq<byte>>
    decreases |e|
  {
    if e == [] then Some([])
    else if e[0] == EQUALS then
      if LineEnds(e[1..]) then Decode(NextLine(e[1..]))
      else if |e| >= 3 && IsHex(e[1]) && IsHex(e[2]) then Cons([HexValue(e[1]) * 16 + HexValue(e[2])], Decode(e[3..]))
      else None
    else if e[0] == CR then
      if |e| >= 2 && e[1] == LF then Cons(NEWLINE, Decode(e[2..])) else None
    else if IsBlank(e[0]) then
      if LineEnds(e) then Decode(e[1..]) else Cons([e[0]], Decode(e[1..]))
    else if 33 <= e[0] <= 126 then Cons([e[0]], Decode(e[1..]))
    else None
  }

  // --------------------------------------------------------------- round trip

  lemma DecodeEscape(c: byte, rest: seq<byte>)
    ensures Decode(Escape(c) + rest) == Cons([c], Decode(rest))
  {
    var e := Escape(c) + rest;
    assert e[3..] == rest;
    assert IsHex(e[1]) && IsHex(e[2]) && HexValue(e[1]) * 16 + HexValue(e[2]) == c;
    assert e[1..][0] == e[1] && !IsBlank(e[1]);
  }

  lemma DecodeSoftBreak(rest: seq<byte>)
    ensures Decode(SOFT_BREAK + rest) == Decode(rest)
  {
    var e := SOFT_BREAK + rest;
    assert e[1..][0] == CR && e[1..][1] == LF && e[1..][2..] == rest;
  }

  lemma DecodeNewline(rest: seq<byte>)
    ensures Decode(NEWLINE + rest) == Cons(NEWLINE, Decode(rest))
  {
    var e := NEWLINE + rest;
    assert e[2..] == rest;
  }

  lemma DecodePlain(c: byte, rest: seq<byte>)
    requires 33 <= c <= 126 && c != EQUALS
    ensures Decode([c] + rest) == Cons([c], Decode(rest))
  {
    assert ([c] + rest)[1..] == rest;
  }

  lemma DecodeSpace(rest: seq<byte>)
    ensures LineEnds([SPACE] + rest) == LineEnds(rest)
    ensures Decode([SPACE] + rest) == if LineEnds(rest) then Decode(rest) else Cons([SPACE], Decode(rest))
  {
    assert ([SPACE] + rest)[1..] == rest;
  }

  predicate EndsInSpace(e: seq<byte>) {
    e != [] && e[|e| - 1] == SPACE
  }

  /** After a literal space no line break follows directly, so blanks that run to the end of an encoded line
      run to the end of the data. */
  lemma {:induction false} TrailingBlanks(t: seq<byte>, col: nat)
    requires 0 !in t && (t != [] ==> t[0] != LF && !(t[0] == CR && Second(t) == LF))
    ensures LineEnds(Quoted(t, col)) ==> Quoted(t, col) == [] || EndsInSpace(Quoted(t, col))
    decreases |t|
  {
    if t != [] && t[0] == SPACE && Plain(t[0], Second(t)) {
      hide Escape;
      assert forall b | b in t[1..] :: b in t;
      if col + 1 >= 70 {
        var rest := SOFT_BREAK + Quoted(t[1..], 0);
        assert Quoted(t, col) == [SPACE] + rest;
        DecodeSpace(rest);
      } else {
        var rest := Quoted(t[1..], col + 1);
        DecodeSpace(rest);
        TrailingBlanks(t[1..], col + 1);
      }
    }
  }

  /** Decoding gives back the canonical text if the encoding does not end in a literal space, and a shorter
      text if it does. */
  ghost predicate Recovers(e: seq<byte>, t: seq<byte>) {
    && Decode(e).Some?
    && |Decode(e).value| <= |Canonical(t)|
    && (if EndsInSpace(e) then |Decode(e).value| < |Canonical(t)| else Decode(e).value == Canonical(t))
  }

  lemma EndsInSpaceConcat(piece: seq<byte>, rest: seq<byte>)
    requires piece != []
    ensures EndsInSpace(piece + rest) <==> if rest == [] then piece[|piece| - 1] == SPACE else EndsInSpace(rest)
  {
  }

  lemma EscapeEnds(c: byte)
    ensures |Escape(c)| == 3 && Escape(c)[2] != SPACE
  {
  }

  lemma RecoversSpace(t: seq<byte>, rest: seq<byte>)
    requires t != [] && t[0] == SPACE && Recovers(rest, t[1..])
    requires LineEnds(rest) ==> rest == [] || EndsInSpace(rest)
    ensures Recovers([SPACE] + rest, t)
  {
    hide Decode;
    DecodeSpace(rest);
    assert rest == [] ==> [SPACE] + rest == [SPACE];
    assert Canonical(t) == [t[0]] + Canonical(t[1..]);
    assert rest != [] ==> ([SPACE] + rest)[|rest|] == rest[|rest| - 1];
  }

  lemma RecoversPlain(t: seq<byte>, rest: seq<byte>)
    requires t != [] && 33 <= t[0] <= 126 && t[0] != EQUALS && Recovers(rest, t[1..])
    ensures Recovers([t[0]] + rest, t)
  {
    hide Decode, EndsInSpace;
    DecodePlain(t[0], rest);
    NothingEndsInSpace();
    EndsInSpaceConcat([t[0]], rest);
    assert Canonical(t) == [t[0]] + Canonical(t[1..]);
  }

  lemma RecoversSoftBreak(t: seq<byte>, rest: seq<byte>)
    requires Recovers(rest, t)
    ensures Recovers(SOFT_BREAK + rest, t) && !LineEnds(SOFT_BREAK + rest)
  {
    hide Decode;
    DecodeSoftBreak(rest);
    EndsInSpaceConcat(SOFT_BREAK, rest);
  }

  lemma RecoversNewline(t: seq<byte>, t': seq<byte>, rest: seq<byte>)
    requires Canonical(t) == NEWLINE + Canonical(t') && Recovers(rest, t')
    ensures Recovers(NEWLINE + rest, t)
  {
    hide Decode, Canonical, EndsInSpace;
    DecodeNewline(rest);
    NothingEndsInSpace();
    EndsInSpaceConcat(NEWLINE, rest);
  }

  lemma RecoversEscape(t: seq<byte>, rest: seq<byte>)
    requires t != [] && t[0] != LF && !(t[0] == CR && Second(t) == LF) && Recovers(rest, t[1..])
    ensures Recovers(Escape(t[0]) + rest, t)
  {
    hide Decode, Escape, EndsInSpace;
    DecodeEscape(t[0], rest);
    EscapeEnds(t[0]);
    NothingEndsInSpace();
    EndsInSpaceConcat(Escape(t[0]), rest);
    assert Canonical(t) == [t[0]] + Canonical(t[1..]);
  }

  lemma {:induction false} QuotedRecovers(t: seq<byte>, col: nat)
    requires 0 !in t
    ensures Recovers(Quoted(t, col), t)
    decreases |t|
  {
    hide Decode, Recovers, LineEnds, Escape, EndsInSpace;
    if t == [] {
      RecoversNothing();
    } else {
      assert t[0] in t && forall b | b in t[1..] :: b in t;
      if Plain(t[0], Second(t)) {
        var rest;
        if col + 1 >= 70 {
          QuotedRecovers(t[1..], 0);
          RecoversSoftBreak(t[1..], Quoted(t[1..], 0));
          rest := SOFT_BREAK + Quoted(t[1..], 0);
          assert Quoted(t, col) == [t[0]] + rest;
        } else {
          QuotedRecovers(t[1..], col + 1);
          rest := Quoted(t[1..], col + 1);
          if t[0] == SPACE { TrailingBlanks(t[1..], col + 1); }
        }
        if t[0] == SPACE { RecoversSpace(t, rest); } else { RecoversPlain(t, rest); }
      } else if t[0] == CR && Second(t) == LF {
        assert forall b | b in t[2..] :: b in t;
        QuotedRecovers(t[2..], 0);
        RecoversNewline(t, t[2..], Quoted(t[2..], 0));
      } else if t[0] == LF {
        QuotedRecovers(t[1..], 0);
        RecoversNewline(t, t[1..], Quoted(t[1..], 0));
      } else {
        QuotedRecovers(t[1..], col + 3);
        RecoversEscape(t, Quoted(t[1..], col + 3));
      }
    }
  }

  lemma RecoversNothing()
    ensures Recovers([], [])
  {
  }

  lemma EndsInSpaceTail(t: seq<byte>)
    requires t != []
    ensures EndsInSpace(t) <==> if |t| == 1 then t[0] == SPACE else EndsInSpace(t[1..])
  {
  }

  /** The encoding ends in a literal space exactly when the text does and no soft break came after it. */
  lemma {:induction false} EndsInSpaceWhen(t: seq<byte>, col: nat)
    requires 0 !in t
    ensures EndsInSpace(Quoted(t, col)) <==> EndsInSpace(t) && EndColumn(t, col) != 0
    ensures t != [] ==> Quoted(t, col) != []
    decreases |t|
  {
    hide EndsInSpace, Escape;
    if t != [] {
      assert t[0] in t && forall b | b in t[1..] :: b in t;
      EndsInSpaceTail(t);
      EscapeEnds(t[0]);
      if Plain(t[0], Second(t)) {
        var rest := Quoted(t[1..], if col + 1 >= 70 then 0 else col + 1);
        EndsInSpaceWhen(t[1..], if col + 1 >= 70 then 0 else col + 1);
        EndsInSpaceConcat([t[0]] + SOFT_BREAK, rest);
        EndsInSpaceConcat([t[0]], rest);
      } else if t[0] == CR && Second(t) == LF {
        assert forall b | b in t[2..] :: b in t;
        EndsInSpaceWhen(t[2..], 0);
        EndsInSpaceTail(t[1..]);
        assert t[1..][1..] == t[2..];
        EndsInSpaceConcat(NEWLINE, Quoted(t[2..], 0));
      } else if t[0] == LF {
        EndsInSpaceWhen(t[1..], 0);
        EndsInSpaceConcat(NEWLINE, Quoted(t[1..], 0));
      } else {
        EndsInSpaceWhen(t[1..], col + 3);
        EndsInSpaceConcat(Escape(t[0]), Quoted(t[1..], col + 3));
      }
    } else {
      NothingEndsInSpace();
    }
  }

  lemma NothingEndsInSpace()
    ensures !EndsInSpace([])
  {
  }

  /** For every text without a zero byte, decoding the encoding gives the canonical text exactly when the text
      does not end in a space, or a soft break happens to follow that space. */
  lemma RoundTripExactly(t: seq<byte>)
    requires 0 !in t
    ensures Decode(Quoted(t, 0)) == Some(Canonical(t)) <==> !(EndsInSpace(t) && EndColumn(t, 0) != 0)
  {
    hide Decode, Quoted, EndsInSpace, Canonical;
    QuotedRecovers(t, 0);
    EndsInSpaceWhen(t, 0);
  }

  /** In particular for every text that ends in a newline, as alert_send makes sure of. */
  lemma RoundTrip(t: seq<byte>)
    requires 0 !in t && t != [] && t[|t| - 1] == LF
    ensures Decode(Quoted(t, 0)) == Some(Canonical(t))
  {
    hide Decode, Quoted, EndColumn, Canonical;
    RoundTripExactly(t);
  }

  // -------------------------------------------------------- what the encoding looks like

  /** Every character from 33 to 126 but the equals sign and the colon. */
  ghost predicate Visible(t: seq<byte>) {
    forall k | 0 <= k < |t| :: 33 <= t[k] <= 126 && t[k] != 61 && t[k] != 58
  }

  /** Visible characters stay as they are while the line has room: 69 columns. */
  lemma {:induction false} VisibleStays(t: seq<byte>, u: seq<byte>, col: nat)
    requires Visible(t) && col + |t| < 70
    ensures Quoted(t + u, col) == t + Quoted(u, col + |t|)
    decreases |t|
  {
    if t == [] {
      assert t + u == u;
    } else {
      VisibleStays(t[1..], u, col + 1);
      assert (t + u)[1..] == t[1..] + u;
      assert t == [t[0]] + t[1..];
    }
  }

  /** The visible character that fills column 70, or comes later, is followed by a soft break. */
  lemma SoftBreakAt70(t: seq<byte>, u: seq<byte>, col: nat)
    requires Visible(t) && t != [] && col + |t| >= 70 && (|t| == 1 || col + |t| == 70)
    ensures Quoted(t + u, col) == t + [61, 13, 10] + Quoted(u, 0)
  {
    var pre, c := t[..|t| - 1], t[|t| - 1];
    assert t + u == pre + ([c] + u);
    if |t| > 1 {
      VisibleStays(pre, [c] + u, col);
    } else {
      assert pre + ([c] + u) == [c] + u;
    }
    assert ([c] + u)[1..] == u;
    assert t == pre + [c];
  }

  /** A space is treated like a visible character unless a line ends there; then, and like all other characters
      but line ends, it is written as an equals sign and two hexadecimal digits, whatever the column. */
  lemma OthersEscaped(c: byte, u: seq<byte>, col: nat)
    requires c != 0 && c != 10 && !(c == 13 && u != [] && u[0] == 10)
    ensures c == 32 && !(u != [] && (u[0] == 13 || u[0] == 10)) ==>
      Quoted([c] + u, col) == if col < 69 then [32] + Quoted(u, col + 1) else [32, 61, 13, 10] + Quoted(u, 0)
    ensures c == 32 && u != [] && (u[0] == 13 || u[0] == 10) ==>
      Quoted([c] + u, col) == [61, 50, 48] + Quoted(u, col + 3)
    ensures c < 32 || c > 126 || c == 61 || c == 58 ==>
      exists h, l :: Quoted([c] + u, col) == [61, h, l] + Quoted(u, col + 3)
        && IsHex(h) && IsHex(l) && HexValue(h) * 16 + HexValue(l) == c
  {
    assert ([c] + u)[1..] == u;
    if c < 32 || c > 126 || c == 61 || c == 58 {
      var h, l := HexDigit(c / 16), HexDigit(c % 16);
      assert Quoted([c] + u, col) == [61, h, l] + Quoted(u, col + 3);
      assert HexValue(h) == c / 16 && HexValue(l) == c % 16;
    }
  }

  /** A line end, either way, is written as CR LF and starts a new line. */
  lemma LineEndsStartAfresh(u: seq<byte>, col: nat)
    ensures Quoted([10] + u, col) == [13, 10] + Quoted(u, 0)
    ensures Quoted([13, 10] + u, col) == [13, 10] + Quoted(u, 0)
  {
    assert ([10] + u)[1..] == u && ([13, 10] + u)[2..] == u;
  }

  // --------------------------------------------------------------- the C function

  lemma QuotedUnfold(t: seq<byte>, i: nat, col: nat)
    requires i < |t| && t[i] != 0
    ensures var next := if i + 1 < |t| then t[i + 1] else 0;
      Quoted(t[i..], col) ==
        if Plain(t[i], next) then
          if col + 1 >= 70 then [t[i]] + SOFT_BREAK + Quoted(t[i + 1..], 0) else [t[i]] + Quoted(t[i + 1..], col + 1)
        else if t[i] == CR && next == LF then NEWLINE + Quoted(t[i + 2..], 0)
        else if t[i] == LF then NEWLINE + Quoted(t[i + 1..], 0)
        else Escape(t[i]) + Quoted(t[i + 1..], col + 3)
  {
    assert t[i..][1..] == t[i + 1..];
    if i + 1 < |t| { assert t[i..][2..] == t[i + 2..]; }
  }

  /** The loop of append_quoted stands before t[i]: `out` is what it has produced. */
  ghost predicate Produced(t: seq<byte>, i: nat, col: nat, out: seq<byte>) {
    i <= |t| && out + Quoted(t[i..], col) == Quoted(t, 0)
  }

  lemma ProducedNothing(t: seq<byte>)
    ensures Produced(t, 0, 0, [])
  {
    assert t[0..] == t && [] + Quoted(t, 0) == Quoted(t, 0);
  }

  lemma ProducedMore(t: seq<byte>, i: nat, col: nat, out: seq<byte>, piece: seq<byte>, i': nat, col': nat)
    requires Produced(t, i, col, out) && i' <= |t| && Quoted(t[i..], col) == piece + Quoted(t[i'..], col')
    ensures Produced(t, i', col', out + piece)
  {
    hide Quoted;
    assert out + (piece + Quoted(t[i'..], col')) == (out + piece) + Quoted(t[i'..], col');
  }

  lemma ProducedAll(t: seq<byte>, i: nat, col: nat, out: seq<byte>)
    requires Produced(t, i, col, out) && (i == |t| || t[i] == 0)
    ensures out == Quoted(t, 0)
  {
    assert Quoted(t[i..], col) == [];
  }

  /** One turn of the loop on the character c = t[i]: what it appends, how far it moves, where the column is. */
  lemma Turn(t: seq<byte>, i: nat, col: nat, out: seq<byte>)
    requires Produced(t, i, col, out) && i < |t| && t[i] != 0
    ensures var next := if i + 1 < |t| then t[i + 1] else 0;
      if Plain(t[i], next) then
        if col + 1 >= 70 then Produced(t, i + 1, 0, out + ([t[i]] + SOFT_BREAK))
        else Produced(t, i + 1, col + 1, out + [t[i]])
      else if t[i] == CR && next == LF then Produced(t, i + 2, 0, out + NEWLINE)
      else if t[i] == LF then Produced(t, i + 1, 0, out + NEWLINE)
      else Produced(t, i + 1, col + 3, out + Escape(t[i]))
  {
    hide Quoted, Plain, Escape, Produced;
    var next := if i + 1 < |t| then t[i + 1] else 0;
    QuotedUnfold(t, i, col);
    if Plain(t[i], next) {
      if col + 1 >= 70 {
        ProducedMore(t, i, col, out, [t[i]] + SOFT_BREAK, i + 1, 0);
      } else {
        ProducedMore(t, i, col, out, [t[i]], i + 1, col + 1);
      }
    } else if t[i] == CR && next == LF {
      ProducedMore(t, i, col, out, NEWLINE, i + 2, 0);
    } else if t[i] == LF {
      ProducedMore(t, i, col, out, NEWLINE, i + 1, 0);
    } else {
      ProducedMore(t, i, col, out, Escape(t[i]), i + 1, col + 3);
    }
  }

  /** The body of the loop on c, followed by `next`: what it appends, whether it takes `next` too, and the new
      column. */
  method AppendTurn(pOut: Blob, c: byte, next: byte, iCol: nat) returns (pair: bool, col: nat, ghost piece: seq<byte>)
    requires pOut.Ok()
    modifies pOut, pOut.data
    ensures pOut.Ok() && pOut.Text() == old(pOut.Text()) + piece
    ensures pOut.data == old(pOut.data) || fresh(pOut.data)
    ensures
      if Plain(c, next) then
        !pair && if iCol + 1 >= 70 then piece == [c] + SOFT_BREAK && col == 0 else piece == [c] && col == iCol + 1
      else if c == CR && next == LF then pair && piece == NEWLINE && col == 0
      else if c == LF then !pair && piece == NEWLINE && col == 0
      else !pair && piece == Escape(c) && col == iCol + 3
  {
    hide Plain, Escape;
    pair, col := false, iCol;
    if Plain(c, next) {
      pOut.AppendChar(c);
      piece := [c];
      col := col + 1;
      if col >= 70 {
        pOut.Append(SOFT_BREAK);
        piece := [c] + SOFT_BREAK;
        col := 0;
      }
    } else if c == CR && next == LF {
      pair := true;
      pOut.Append(NEWLINE);
      piece := NEWLINE;
      col := 0;
    } else if c == LF {
      pOut.Append(NEWLINE);
      piece := NEWLINE;
      col := 0;
    } else {
      pOut.Append(Escape(c));
      piece := Escape(c);
      col := col + 3;
    }
  }

  method AppendQuoted(pOut: Blob, pMsg: Blob)
    requires pOut.Ok() && pMsg.Ok() && pOut != pMsg && pOut.data != pMsg.data
    modifies pOut, pOut.data, pMsg, pMsg.data
    ensures pOut.Ok() && pOut.Text() == old(pOut.Text()) + Quoted(old(pMsg.Text()), 0)
    ensures pMsg.Ok() && pMsg.Text() == old(pMsg.Text())
    ensures pOut.data == old(pOut.data) || fresh(pOut.data)
  {
    hide Quoted, Produced, Plain, Escape;
    ghost var t, was, out := pMsg.Text(), pOut.Text(), [];
    pMsg.Str();
    var zIn, i, iCol := pMsg.data, 0, 0;
    ghost var n := pMsg.nUsed;
    ProducedNothing(t);
    while zIn[i] != 0
      invariant 0 <= i <= n == |t| < zIn.Length && zIn[n] == 0 && zIn[..n] == t
      invariant pMsg.Ok() && pMsg.data == zIn && pMsg.nUsed == n
      invariant pOut.Ok() && pOut.data != zIn && (pOut.data == old(pOut.data) || fresh(pOut.data))
      invariant pOut.Text() == was + out && Produced(t, i, iCol, out)
      decreases n - i
    {
      assert zIn[i] == t[i] && (i + 1 < n ==> zIn[i + 1] == t[i + 1]);
      Turn(t, i, iCol, out);
      var pair, col;
      ghost var piece;
      pair, col, piece := AppendTurn(pOut, zIn[i], zIn[i + 1], iCol);
      out, iCol := out + piece, col;
      i := i + if pair then 2 else 1;
    }
    assert i < n ==> t[i] == zIn[i];
    ProducedAll(t, i, iCol, out);
  }
}

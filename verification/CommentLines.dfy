/** blob_strip_comment_lines of src/blob.c. */
module CommentLines {
  import opened Basics
  import opened Blobs

  const LF: byte := 10
  const HASH: byte := 35
  const BACKSLASH: byte := 92

  // ------------------------------------------------------------ the per-line filter

  /** Length of the first line, its LF included. */
  function LineLength(s: seq<byte>): (n: nat)
    ensures n <= |s| && (s != [] ==> n > 0)
    ensures forall k | 0 <= k < n - 1 :: s[k] != LF
    ensures n < |s| ==> s[n - 1] == LF
  {
    if s == [] then 0 else if s[0] == LF then 1 else 1 + LineLength(s[1..])
  }

  predicate IsComment(line: seq<byte>) {
    line != [] && line[0] == HASH
  }

  predicate IsEscaped(line: seq<byte>) {
    |line| >= 2 && line[0] == BACKSLASH && line[1] == HASH
  }

  /** What is kept of one line. */
  function Kept(line: seq<byte>): seq<byte> {
    if IsComment(line) then [] else if IsEscaped(line) then line[1..] else line
  }

  function Stripped(s: seq<byte>): seq<byte>
    decreases |s|
  {
    if s == [] then [] else Kept(s[..LineLength(s)]) + Stripped(s[LineLength(s)..])
  }

  // ------------------------------------------------------------------ escaping

  /** Protects every line that would be taken for a comment. */
  function Escaped(s: seq<byte>): seq<byte>
    decreases |s|
  {
    if s == [] then []
    else
      var line := s[..LineLength(s)];
      (if IsComment(line) then [BACKSLASH] + line else line) + Escaped(s[LineLength(s)..])
  }

  /** Some line of s starts with a backslash and a hash. */
  predicate HasEscapedLine(s: seq<byte>)
    decreases |s|
  {
    s != [] && (IsEscaped(s[..LineLength(s)]) || HasEscapedLine(s[LineLength(s)..]))
  }

  /** A line followed by other text is found as the first line again. */
  lemma {:induction false} LineOfConcat(line: seq<byte>, rest: seq<byte>)
    requires line != [] && LineLength(line) == |line|
    requires line[|line| - 1] == LF || rest == []
    ensures LineLength(line + rest) == |line|
  {
    var s := line + rest;
    if |line| > 1 {
      assert s[1..] == line[1..] + rest;
      assert LineLength(line) == 1 + LineLength(line[1..]);
      LineOfConcat(line[1..], rest);
    } else if rest == [] {
      assert s == line;
    }
  }

  lemma FirstLine(s: seq<byte>)
    requires s != []
    ensures var n := LineLength(s); LineLength(s[..n]) == n && (s[n - 1] == LF || n == |s|)
  {
  }

  lemma {:induction false} LongerLine(c: byte, line: seq<byte>)
    requires line != [] && LineLength(line) == |line| && c != LF
    ensures LineLength([c] + line) == |line| + 1
  {
    assert ([c] + line)[1..] == line;
  }

  lemma StrippedConcat(line: seq<byte>, rest: seq<byte>)
    requires line != [] && LineLength(line) == |line| && (line[|line| - 1] == LF || rest == [])
    ensures Stripped(line + rest) == Kept(line) + Stripped(rest)
  {
    LineOfConcat(line, rest);
    var s := line + rest;
    assert s[..|line|] == line && s[|line|..] == rest;
  }

  /** Text can be stripped in pieces that end where a line does. */
  lemma {:induction false} StrippedPieces(pre: seq<byte>, rest: seq<byte>)
    requires pre == [] || pre[|pre| - 1] == LF
    ensures Stripped(pre + rest) == Stripped(pre) + Stripped(rest)
    decreases |pre|
  {
    hide LineLength, Kept, Stripped;
    NothingEscaped();
    if pre == [] {
      assert pre + rest == rest && [] + Stripped(rest) == Stripped(rest);
    } else {
      var n := LineLength(pre);
      var line, more := pre[..n], pre[n..];
      FirstLine(pre);
      assert line[n - 1] == LF && (more == [] || more[|more| - 1] == LF);
      StrippedConcat(line, more);
      StrippedPieces(more, rest);
      StrippedConcat(line, more + rest);
      assert pre == line + more && pre + rest == line + (more + rest);
    }
  }

  lemma {:induction false} EscapedNonEmpty(s: seq<byte>)
    ensures Escaped(s) == [] <==> s == []
  {
  }

  /** One line, protected if need be, and what stripping leaves of it. */
  function EscapedLine(line: seq<byte>): seq<byte> {
    if IsComment(line) then [BACKSLASH] + line else line
  }

  lemma EscapedLineIsLine(line: seq<byte>)
    requires line != [] && LineLength(line) == |line|
    ensures var out := EscapedLine(line);
      && out != [] && LineLength(out) == |out| && out[|out| - 1] == line[|line| - 1]
      && Kept(out) == if IsEscaped(line) then line[1..] else line
  {
    if IsComment(line) {
      LongerLine(BACKSLASH, line);
    }
  }

  lemma EscapedUnfold(s: seq<byte>)
    requires s != []
    ensures var n := LineLength(s);
      && Escaped(s) == EscapedLine(s[..n]) + Escaped(s[n..])
      && (HasEscapedLine(s) <==> IsEscaped(s[..n]) || HasEscapedLine(s[n..]))
  {
  }

  lemma NothingEscaped()
    ensures Escaped([]) == [] && Stripped([]) == [] && !HasEscapedLine([])
  {
  }

  lemma {:induction false} StripOfEscaped(s: seq<byte>)
    ensures !HasEscapedLine(s) ==> Stripped(Escaped(s)) == s
    ensures |Stripped(Escaped(s))| <= |s|
    ensures HasEscapedLine(s) ==> |Stripped(Escaped(s))| < |s|
    decreases |s|
  {
    hide Stripped, Escaped, HasEscapedLine, Kept, EscapedLine, IsEscaped, LineLength;
    if s == [] {
      NothingEscaped();
    } else {
      var n := LineLength(s);
      var line, rest := s[..n], s[n..];
      StripOfEscaped(rest);
      FirstLine(s);
      EscapedUnfold(s);
      EscapedLineIsLine(line);
      EscapedNonEmpty(rest);
      StrippedConcat(EscapedLine(line), Escaped(rest));
      assert s == line + rest;
    }
  }

  /** Escaping a text and stripping it gives the text back exactly when no line of it already starts with
      an escaped hash. */
  lemma StripUndoesEscape(s: seq<byte>)
    ensures Stripped(Escaped(s)) == s <==> !HasEscapedLine(s)
  {
    StripOfEscaped(s);
  }

  // ------------------------------------------------------ what becomes of each line

  /** A line in the middle of a text, its LF included. */
  ghost predicate IsLine(line: seq<byte>) {
    line != [] && line[|line| - 1] == 10 && forall k | 0 <= k < |line| - 1 :: line[k] != 10
  }

  lemma {:induction false} LineIsAll(line: seq<byte>)
    requires IsLine(line)
    ensures LineLength(line) == |line|
  {
    if |line| > 1 {
      assert line[1..][|line| - 2] == line[|line| - 1];
      assert forall k | 0 <= k < |line| - 2 :: line[1..][k] == line[k + 1];
      LineIsAll(line[1..]);
    }
  }

  /** Between texts that end where lines do, a line that starts with a hash vanishes, one that starts with a backslash
      and a hash loses the backslash, and any other line stays. */
  lemma LinesKeptExactly(pre: seq<byte>, line: seq<byte>, rest: seq<byte>)
    requires IsLine(line) && (pre == [] || pre[|pre| - 1] == 10)
    ensures Stripped(pre + line + rest) == Stripped(pre) +
      (if line[0] == 35 then []
       else if line[0] == 92 && |line| > 1 && line[1] == 35 then line[1..]
       else line) + Stripped(rest)
  {
    hide LineLength, Stripped;
    LineIsAll(line);
    StrippedConcat(line, rest);
    assert pre + line + rest == pre + (line + rest);
    StrippedPieces(pre, line + rest);
  }

  // -------------------------------------------------------------- the C function

  lemma {:induction false} LineSoFar(s: seq<byte>, start: nat, i: nat)
    requires start <= i < |s| && s[i] == LF && forall k | start <= k < i :: s[k] != LF
    ensures LineLength(s[start..]) == i + 1 - start
    decreases i - start
  {
    assert s[start..][0] == s[start] && s[start..][1..] == s[start + 1..];
    if start < i {
      LineSoFar(s, start + 1, i);
    }
  }

  lemma {:induction false} LastLine(s: seq<byte>, start: nat)
    requires start <= |s| && forall k | start <= k < |s| :: s[k] != LF
    ensures LineLength(s[start..]) == |s| - start
    decreases |s| - start
  {
    if start < |s| {
      assert s[start..][0] == s[start] && s[start..][1..] == s[start + 1..];
      LastLine(s, start + 1);
    }
  }

  /** Where copying starts and whether there is any, once a line's first byte has been looked at. */
  predicate Decided(s: seq<byte>, lineStart: nat, copyStart: nat, doCopy: bool)
    requires lineStart < |s|
  {
    && doCopy == (s[lineStart] != HASH)
    && copyStart == lineStart + (if IsEscaped(s[lineStart..]) then 1 else 0)
  }

  lemma KeptIs(s: seq<byte>, lineStart: nat, end: nat, copyStart: nat, doCopy: bool)
    requires lineStart < end <= |s| && Decided(s, lineStart, copyStart, doCopy)
    requires end == |s| || s[end - 1] == LF
    ensures copyStart <= end && Kept(s[lineStart..end]) == if doCopy then s[copyStart..end] else []
  {
    var line := s[lineStart..end];
    assert IsEscaped(s[lineStart..]) <==> IsEscaped(line);
  }

  lemma EscapedHere(s: seq<byte>, i: nat)
    requires i < |s|
    ensures IsEscaped(s[i..]) <==> s[i] == BACKSLASH && i + 1 < |s| && s[i + 1] == HASH
  {
  }

  lemma StrippedUnfold(s: seq<byte>, i: nat)
    requires i < |s|
    ensures var end := i + LineLength(s[i..]);
      end <= |s| && Stripped(s[i..]) == Kept(s[i..end]) + Stripped(s[end..])
  {
    var n := LineLength(s[i..]);
    assert s[i..][..n] == s[i..i + n] && s[i..][n..] == s[i + n..];
  }

  /** Where the loop stands at byte i: `out` is what the lines before lineStart leave. */
  ghost predicate Standing(s: seq<byte>, lineStart: nat, i: nat, copyStart: nat, doCopy: bool, out: seq<byte>) {
    && lineStart <= i <= |s|
    && Stripped(s) == out + Stripped(s[lineStart..])
    && (forall k | lineStart <= k < i :: s[k] != LF)
    && if i == lineStart then copyStart == i && doCopy else Decided(s, lineStart, copyStart, doCopy)
  }

  lemma StandingIs(s: seq<byte>, lineStart: nat, i: nat, copyStart: nat, doCopy: bool, out: seq<byte>)
    requires Standing(s, lineStart, i, copyStart, doCopy, out)
    ensures lineStart <= i && (i == lineStart ==> copyStart == i && doCopy)
    ensures Stripped(s) == out + Stripped(s[lineStart..]) && forall k | lineStart <= k < i :: s[k] != LF
  {
    hide Stripped;
  }

  lemma StandingStart(s: seq<byte>)
    ensures Standing(s, 0, 0, 0, true, [])
  {
    assert s[0..] == s && [] + Stripped(s) == Stripped(s);
  }

  lemma StandingInLine(
    s: seq<byte>, lineStart: nat, i: nat, copyStart: nat, doCopy: bool, c2: nat, d2: bool, out: seq<byte>)
    requires Standing(s, lineStart, i, copyStart, doCopy, out) && i < |s|
    requires if i != lineStart then c2 == copyStart && d2 == doCopy else Decided(s, i, c2, d2)
    ensures Decided(s, lineStart, c2, d2)
    ensures s[i] != LF ==> Standing(s, lineStart, i + 1, c2, d2, out)
  {
    hide Decided, Stripped;
  }

  lemma StandingAtLf(s: seq<byte>, lineStart: nat, i: nat, copyStart: nat, doCopy: bool, out: seq<byte>)
    requires lineStart <= i < |s| && s[i] == LF && Decided(s, lineStart, copyStart, doCopy)
    requires Stripped(s) == out + Stripped(s[lineStart..]) && forall k | lineStart <= k < i :: s[k] != LF
    ensures copyStart <= i + 1
    ensures Standing(s, i + 1, i + 1, i + 1, true, out + if doCopy then s[copyStart..i + 1] else [])
  {
    hide Decided, Stripped, Kept, IsEscaped, LineLength;
    LinePiece(s, lineStart, i, copyStart, doCopy);
    var piece, rest := if doCopy then s[copyStart..i + 1] else [], Stripped(s[i + 1..]);
    assert out + (piece + rest) == (out + piece) + rest;
  }

  lemma LinePiece(s: seq<byte>, lineStart: nat, i: nat, copyStart: nat, doCopy: bool)
    requires lineStart <= i < |s| && s[i] == LF && Decided(s, lineStart, copyStart, doCopy)
    requires forall k | lineStart <= k < i :: s[k] != LF
    ensures copyStart <= i + 1
    ensures Stripped(s[lineStart..]) == (if doCopy then s[copyStart..i + 1] else []) + Stripped(s[i + 1..])
  {
    hide Decided, Stripped, Kept, IsEscaped, LineLength;
    KeptIs(s, lineStart, i + 1, copyStart, doCopy);
    LineSoFar(s, lineStart, i);
    StrippedUnfold(s, lineStart);
  }

  lemma StandingEnd(s: seq<byte>, lineStart: nat, copyStart: nat, doCopy: bool, out: seq<byte>)
    requires Standing(s, lineStart, |s|, copyStart, doCopy, out)
    ensures copyStart <= |s| && Stripped(s) == out + if doCopy then s[copyStart..] else []
  {
    hide Stripped, Kept, Decided, IsEscaped, LineLength;
    StrippedOfNothing();
    if lineStart < |s| {
      LastPiece(s, lineStart, copyStart, doCopy);
    } else {
      assert s[lineStart..] == [] && s[copyStart..] == [];
    }
  }

  lemma LastPiece(s: seq<byte>, lineStart: nat, copyStart: nat, doCopy: bool)
    requires lineStart < |s| && Decided(s, lineStart, copyStart, doCopy)
    requires forall k | lineStart <= k < |s| :: s[k] != LF
    ensures copyStart <= |s| && Stripped(s[lineStart..]) == if doCopy then s[copyStart..] else []
  {
    hide Stripped, Kept, Decided, IsEscaped, LineLength;
    StrippedOfNothing();
    LastLine(s, lineStart);
    StrippedUnfold(s, lineStart);
    KeptIs(s, lineStart, |s|, copyStart, doCopy);
    assert s[|s|..] == [] && s[copyStart..|s|] == s[copyStart..];
  }

  lemma StrippedOfNothing()
    ensures Stripped([]) == []
  {
  }

  /** The last line is a backslash and nothing else. */
  predicate LoneBackslash(s: seq<byte>) {
    s != [] && s[|s| - 1] == BACKSLASH && (|s| == 1 || s[|s| - 2] == LF)
  }

  /** Such a backslash is kept. */
  lemma LoneBackslashKept(s: seq<byte>)
    requires LoneBackslash(s)
    ensures Stripped(s) == Stripped(s[..|s| - 1]) + [BACKSLASH] && Stripped(s[|s| - 1..]) == [BACKSLASH]
  {
    hide Stripped;
    var pre := s[..|s| - 1];
    assert s == pre + [BACKSLASH] && s[|s| - 1..] == [BACKSLASH];
    assert pre == [] || pre[|pre| - 1] == LF;
    StrippedPieces(pre, [BACKSLASH]);
    BackslashKept();
  }

  lemma BackslashKept()
    ensures Stripped([BACKSLASH]) == [BACKSLASH]
  {
    var line := [BACKSLASH];
    assert line[1..] == [] && LineLength(line) == 1;
    StrippedConcat(line, []);
    assert line + [] == line;
  }

  /** Having read all but a lone last backslash, the loop has copied all that is kept of the text before it. */
  lemma StandingBeforeLast(s: seq<byte>, lineStart: nat, copyStart: nat, doCopy: bool, out: seq<byte>)
    requires LoneBackslash(s) && Standing(s, lineStart, |s| - 1, copyStart, doCopy, out)
    ensures lineStart == |s| - 1 && doCopy && out == Stripped(s[..|s| - 1])
  {
    hide Stripped, Decided;
    LoneBackslashKept(s);
    assert out + [BACKSLASH] == Stripped(s[..|s| - 1]) + [BACKSLASH];
    assert (out + [BACKSLASH])[..|out|] == out;
  }

  /** Where the loop stands at byte i, if `peeks` says that it will drop a lone last backslash. */
  ghost predicate Progress(
    s: seq<byte>, peeks: bool, lineStart: nat, i: nat, copyStart: nat, doCopy: bool, out: seq<byte>)
  {
    && lineStart <= i <= |s| && (lineStart == 0 || s[lineStart - 1] == LF)
    && if peeks && i == |s| then s != [] && copyStart == |s| && doCopy && out == Stripped(s[..|s| - 1])
       else Standing(s, lineStart, i, copyStart, doCopy, out)
  }

  lemma LastByteIs(s: seq<byte>)
    ensures LoneBackslash(s) ==> s != []
    ensures s != [] && (|s| == 1 || s[|s| - 2] == LF) && s[|s| - 1] == BACKSLASH ==> LoneBackslash(s)
  {
  }

  lemma ProgressStart(s: seq<byte>, peeks: bool)
    requires peeks ==> s != []
    ensures Progress(s, peeks, 0, 0, 0, true, [])
  {
    hide Stripped, Standing;
    StandingStart(s);
  }

  /** One turn of the loop: c2 and d2 are what a look at the byte makes of copyStart and doCopy; `sees` is whether
      a backslash at the start of a line has a hash behind it. */
  lemma ProgressStep(s: seq<byte>, peeks: bool, lineStart: nat, i: nat, c1: nat, d1: bool, c2: nat, d2: bool,
                     sees: bool, out: seq<byte>)
    requires Progress(s, peeks, lineStart, i, c1, d1, out) && i < |s| && (peeks ==> LoneBackslash(s))
    requires i == lineStart && s[i] == BACKSLASH ==> (sees <==> if i + 1 < |s| then s[i + 1] == HASH else peeks)
    requires
      if i == lineStart && s[i] == HASH then c2 == i && !d2
      else if i == lineStart && s[i] == BACKSLASH && sees then c2 == i + 1 && d2 == d1
      else c2 == c1 && d2 == d1
    ensures s[i] != LF ==> Progress(s, peeks, lineStart, i + 1, c2, d2, out)
    ensures s[i] == LF ==> c2 <= i + 1
    ensures s[i] == LF ==> Progress(s, peeks, i + 1, i + 1, i + 1, true, out + if d2 then s[c2..i + 1] else [])
  {
    hide Stripped, Standing, Kept;
    if peeks && i == |s| - 1 {
      StandingBeforeLast(s, lineStart, c1, d1, out);
    } else {
      EscapedHere(s, i);
      StandingIs(s, lineStart, i, c1, d1, out);
      StandingInLine(s, lineStart, i, c1, d1, c2, d2, out);
      if s[i] == LF {
        StandingAtLf(s, lineStart, i, c2, d2, out);
        assert peeks ==> i + 1 < |s|;
      }
    }
  }

  lemma ProgressEnd(s: seq<byte>, peeks: bool, lineStart: nat, copyStart: nat, doCopy: bool, out: seq<byte>)
    requires Progress(s, peeks, lineStart, |s|, copyStart, doCopy, out) && (peeks ==> LoneBackslash(s))
    ensures copyStart <= |s|
    ensures out + (if doCopy then s[copyStart..|s|] else []) == Stripped(if peeks then s[..|s| - 1] else s)
    ensures peeks ==> Stripped(s[..|s| - 1]) != Stripped(s)
  {
    hide Stripped, Standing, Decided;
    if peeks {
      LoneBackslashKept(s);
    } else {
      StandingEnd(s, lineStart, copyStart, doCopy, out);
      assert s[copyStart..|s|] == s[copyStart..];
    }
  }

  /** The look at the byte at i. */
  method Look(z: array<byte>, ghost s: seq<byte>, ghost peeks: bool, lineStart: nat, i: nat, c1: nat, d1: bool,
              ghost out: seq<byte>)
    returns (copyStart: nat, doCopy: bool)
    requires i < |s| <= z.Length && z[..|s|] == s && (LoneBackslash(s) ==> |s| < z.Length)
    requires peeks <==> LoneBackslash(s) && z[|s|] == HASH
    requires Progress(s, peeks, lineStart, i, c1, d1, out)
    ensures s[i] != LF ==> Progress(s, peeks, lineStart, i + 1, copyStart, doCopy, out)
    ensures s[i] == LF ==> copyStart <= i + 1
    ensures s[i] == LF ==>
      Progress(s, peeks, i + 1, i + 1, i + 1, true, out + if doCopy then s[copyStart..i + 1] else [])
  {
    hide Standing;
    copyStart, doCopy := c1, d1;
    assert z[i] == s[i] && (i + 1 < |s| ==> z[i + 1] == s[i + 1]);
    ghost var sees := i == lineStart && z[i] == BACKSLASH && z[i + 1] == HASH;
    if i == lineStart && z[i] == HASH {
      copyStart := i;
      doCopy := false;
    } else if i == lineStart && z[i] == BACKSLASH && z[i + 1] == HASH {
      copyStart := i + 1;
    }
    hide Progress;
    ProgressStep(s, peeks, lineStart, i, c1, d1, copyStart, doCopy, sees, out);
  }

  /** What is done at the end of a line and at the end of the text. */
  method Flush(temp: Blob, z: array<byte>, from: nat, upTo: nat, doCopy: bool)
    requires temp.Ok() && z != temp.data && from <= upTo <= z.Length
    modifies temp, temp.data
    ensures temp.Ok() && (temp.data == old(temp.data) || fresh(temp.data))
    ensures temp.Text() == old(temp.Text()) + if doCopy then z[from..upTo] else []
  {
    if doCopy {
      temp.Append(z[from..upTo]);
    }
  }

  /** The byte after the text is looked at when the last line is a lone backslash.  If that byte is a hash, the
      backslash is dropped, which the filter would not do; in all other cases the code is the filter. */
  method Strip(pIn: Blob) returns (temp: Blob)
    requires pIn.Ok() && (LoneBackslash(pIn.Text()) ==> pIn.nUsed < pIn.data.Length)
    ensures fresh(temp) && temp.Ok() && fresh(temp.data)
    ensures
      var s := pIn.Text();
      var peeks := LoneBackslash(s) && pIn.data[pIn.nUsed] == HASH;
      && temp.Text() == Stripped(if peeks then s[..|s| - 1] else s)
      && (temp.Text() == Stripped(s) <==> !peeks)
  {
    hide Stripped, Progress, LoneBackslash;
    ghost var s, out := pIn.Text(), [];
    LastByteIs(s);
    var z, i, n := pIn.data, 0, pIn.nUsed;
    ghost var peeks := LoneBackslash(s) && z[n] == HASH;
    var lineStart, copyStart, doCopy := 0, 0, true;
    var nul := new byte[1];
    temp := new Blob.Zero(nul);
    ProgressStart(s, peeks);
    while i < n
      invariant 0 <= i <= n && 0 <= lineStart && 0 <= copyStart
      invariant fresh(temp) && temp.Ok() && fresh(temp.data) && temp.Text() == out
      invariant Progress(s, peeks, lineStart, i, copyStart, doCopy, out)
    {
      copyStart, doCopy := Look(z, s, peeks, lineStart, i, copyStart, doCopy, out);
      if z[i] == LF {
        Flush(temp, z, copyStart, i + 1, doCopy);
        assert z[..n] == s;
        out := out + if doCopy then s[copyStart..i + 1] else [];
        lineStart, copyStart := i + 1, i + 1;
        doCopy := true;
      }
      i := i + 1;
    }
    ProgressEnd(s, peeks, lineStart, copyStart, doCopy, out);
    Flush(temp, z, copyStart, i, doCopy);
  }
}

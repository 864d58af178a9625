/** The C function blob_append_escaped_arg, carried out on a Blob. */
module ShellArgsCode {
  import opened Basics
  import opened Blobs
  import opened ShellArgs

  lemma ScanUnfold(z: seq<byte>, i: nat)
    requires i < |z|
    ensures var x := SafeChar(z[i]);
      Scan(z[i..]) ==
        if x == 0 then Scan(z[i + 1..])
        else if x == 1 then Needs(Scan(z[i + 1..]))
        else if x == 2 || !Whole(z[i..], x) then None
        else Needs(Scan(z[i + x - 1..]))
  {
    var x := SafeChar(z[i]);
    assert z[i..][1..] == z[i + 1..];
    if x > 2 && Whole(z[i..], x) {
      assert z[i..][x - 1..] == z[i + x - 1..];
    }
  }

  /** The first loop.  The C code looks at the bytes after the current one only as far as the terminating zero. */
  method CheckArg(zIn: seq<byte>) returns (ok: bool, needEscape: bool)
    ensures ok <==> Legal(zIn)
    ensures ok ==> needEscape == Scan(zIn).value
  {
    hide Scan, SafeChar;
    needEscape := false;
    var i := 0;
    assert zIn[0..] == zIn;
    while i < |zIn|
      invariant 0 <= i <= |zIn|
      invariant Scan(zIn).None? <==> Scan(zIn[i..]).None?
      invariant Scan(zIn).Some? ==> Scan(zIn).value == (needEscape || Scan(zIn[i..]).value)
    {
      ScanUnfold(zIn, i);
      var x := SafeChar(zIn[i]);
      if x != 0 {
        needEscape := true;
        if x == 2 {
          return false, needEscape;
        } else if x > 2 {
          if !IsTail(zIn[i..], 1) || (x >= 4 && !IsTail(zIn[i..], 2)) || (x == 5 && !IsTail(zIn[i..], 3)) {
            return false, needEscape;
          }
          i := i + (x - 2);
        }
      }
      i := i + 1;
    }
    ok := true;
    assert zIn[i..] == [];
    EmptyScan();
  }

  lemma {:induction false} BackslashedSnoc(z: seq<byte>, i: nat)
    requires i < |z|
    ensures Backslashed(z[..i + 1]) == Backslashed(z[..i]) + Backslashed([z[i]])
  {
    BackslashedConcat(z[..i], [z[i]]);
    assert z[..i + 1] == z[..i] + [z[i]];
  }

  lemma OneBackslashed(b: byte)
    ensures Backslashed([b]) == if SafeChar(b) != 0 && SafeChar(b) != 2 then [BACKSLASH, b] else [b]
  {
  }

  /** The body of the last loop: a backslash before a special character. */
  method AppendOne(pBlob: Blob, c: byte)
    requires pBlob.Ok()
    modifies pBlob, pBlob.data
    ensures pBlob.Ok() && pBlob.Text() == old(pBlob.Text()) + Backslashed([c])
    ensures pBlob.data == old(pBlob.data) || fresh(pBlob.data)
  {
    hide SafeChar, Backslashed;
    OneBackslashed(c);
    if SafeChar(c) != 0 && SafeChar(c) != 2 { pBlob.AppendChar(BACKSLASH); }
    pBlob.AppendChar(c);
  }

  method AppendBackslashed(pBlob: Blob, zIn: seq<byte>)
    requires pBlob.Ok()
    modifies pBlob, pBlob.data
    ensures pBlob.Ok() && pBlob.Text() == old(pBlob.Text()) + Backslashed(zIn)
    ensures pBlob.data == old(pBlob.data) || fresh(pBlob.data)
  {
    hide SafeChar, Backslashed;
    ghost var was := pBlob.Text();
    NothingBackslashed();
    for i := 0 to |zIn|
      invariant pBlob.Ok() && (pBlob.data == old(pBlob.data) || fresh(pBlob.data))
      invariant pBlob.Text() == was + Backslashed(zIn[..i])
    {
      AppendOne(pBlob, zIn[i]);
      BackslashedSnoc(zIn, i);
      Regroup(was, Backslashed(zIn[..i]), Backslashed([zIn[i]]));
    }
    assert zIn[..|zIn|] == zIn;
  }

  lemma NothingBackslashed()
    ensures Backslashed([]) == []
  {
  }

  lemma Regroup(a: seq<byte>, b: seq<byte>, c: seq<byte>)
    ensures a + b + c == a + (b + c)
  {
  }

  method AppendPrefix(pBlob: Blob, zIn: seq<byte>, isFilename: bool)
    requires pBlob.Ok()
    modifies pBlob, pBlob.data
    ensures pBlob.Ok() && pBlob.Text() == old(pBlob.Text()) + Prefix(zIn, isFilename)
    ensures pBlob.data == old(pBlob.data) || fresh(pBlob.data)
  {
    if isFilename && zIn != [] && zIn[0] == DASH {
      pBlob.AppendChar(DOT);
      pBlob.AppendChar(SLASH);
    }
  }

  /** The quoting strategies. */
  method AppendWritten(pBlob: Blob, zIn: seq<byte>, isFilename: bool, needEscape: bool)
    requires pBlob.Ok() && Legal(zIn) && needEscape == Scan(zIn).value
    modifies pBlob, pBlob.data
    ensures pBlob.Ok() && pBlob.Text() == old(pBlob.Text()) + Written(zIn, isFilename)
    ensures pBlob.data == old(pBlob.data) || fresh(pBlob.data)
  {
    hide Scan, SafeChar, Prefix, Backslashed;
    ghost var t, p := pBlob.Text(), Prefix(zIn, isFilename);
    if !needEscape {
      AppendPrefix(pBlob, zIn, isFilename);
      pBlob.Append(zIn);
      Regroup(t, p, zIn);
    } else if TICK in zIn {
      AppendPrefix(pBlob, zIn, isFilename);
      AppendBackslashed(pBlob, zIn);
      Regroup(t, p, Backslashed(zIn));
    } else {
      pBlob.AppendChar(TICK);
      AppendPrefix(pBlob, zIn, isFilename);
      pBlob.Append(zIn);
      pBlob.AppendChar(TICK);
      Regroup(t, [TICK], p);
      Regroup(t, [TICK] + p, zIn);
      Regroup(t, [TICK] + p + zIn, [TICK]);
    }
  }

  /** ok is false where the C function ends the process; nothing has been appended then. */
  method AppendEscapedArg(pBlob: Blob, zIn: seq<byte>, isFilename: bool) returns (ok: bool)
    requires pBlob.Ok()
    modifies pBlob, pBlob.data
    ensures pBlob.Ok() && (pBlob.data == old(pBlob.data) || fresh(pBlob.data))
    ensures ok <==> Legal(zIn)
    ensures ok ==> pBlob.Text() == Appended(old(pBlob.Text()), zIn, isFilename)
    ensures !ok ==> pBlob.Text() == old(pBlob.Text())
  {
    hide Scan, SafeChar, Written, IsSpace;
    var n := pBlob.nUsed;
    ghost var t := pBlob.Text();
    var needEscape;
    ok, needEscape := CheckArg(zIn);
    if !ok { return; }
    if n > 0 && !IsSpace(pBlob.data[n - 1]) {
      pBlob.AppendChar(SPACE);
    } else {
      assert t + [] == t;
    }
    AppendWritten(pBlob, zIn, isFilename, needEscape);
  }
}

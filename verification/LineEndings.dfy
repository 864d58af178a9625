/** blob_add_cr and blob_to_lf_only of src/blob.c. */
module LineEndings {
  import opened Basics
  import opened Blobs
  import opened Expansion

  const LF: byte := 10
  const CR: byte := 13

  function CrlfOf(b: byte): (e: seq<byte>)
    ensures |e| == if b == LF then 2 else 1
    ensures |e| == 1 ==> e == [b]
  {
    if b == LF then [CR, LF] else [b]
  }

  /** Every LF replaced by CR LF. */
  function WithCr(s: seq<byte>): seq<byte> {
    Expanded(CrlfOf, s)
  }

  /** CR LF and CR become LF; the text ends at its first zero byte. */
  function LfOnly(s: seq<byte>): seq<byte> {
    if s == [] || s[0] == 0 then []
    else if s[0] != CR then [s[0]] + LfOnly(s[1..])
    else if |s| > 1 && s[1] == LF then LfOnly(s[1..])
    else [LF] + LfOnly(s[1..])
  }

  // ------------------------------------------------------------------ properties

  ghost predicate Clean(s: seq<byte>) {
    0 !in s && CR !in s
  }

  lemma {:induction false} LfOnlyIsClean(s: seq<byte>)
    ensures Clean(LfOnly(s))
  {
    if s != [] && s[0] != 0 {
      LfOnlyIsClean(s[1..]);
    }
  }

  lemma {:induction false} LfOnlyKeepsClean(s: seq<byte>)
    requires Clean(s)
    ensures LfOnly(s) == s
  {
    if s != [] {
      assert s[0] in s && forall b | b in s[1..] :: b in s;
      LfOnlyKeepsClean(s[1..]);
      assert s == [s[0]] + s[1..];
    }
  }

  /** Once is enough. */
  lemma LfOnlyIdempotent(s: seq<byte>)
    ensures LfOnly(LfOnly(s)) == LfOnly(s)
  {
    LfOnlyIsClean(s);
    LfOnlyKeepsClean(LfOnly(s));
  }

  lemma {:induction false} LfOnlyOfWithCr(s: seq<byte>)
    requires Clean(s)
    ensures LfOnly(WithCr(s)) == s
  {
    if s != [] {
      assert s[0] in s && forall b | b in s[1..] :: b in s;
      LfOnlyOfWithCr(s[1..]);
      var w, rest := WithCr(s), WithCr(s[1..]);
      assert w == CrlfOf(s[0]) + rest;
      if s[0] == LF {
        assert w[1..] == [LF] + rest && w[1..][1..] == rest;
      } else {
        assert w[1..] == rest;
      }
      assert s == [s[0]] + s[1..];
    }
  }

  /** blob_to_lf_only undoes blob_add_cr exactly on texts with neither a zero byte nor a CR. */
  lemma ToLfInvertsAddCr(s: seq<byte>)
    ensures LfOnly(WithCr(s)) == s <==> 0 !in s && CR !in s
  {
    LfOnlyIsClean(WithCr(s));
    if Clean(s) {
      LfOnlyOfWithCr(s);
    }
  }

  lemma LfOnlyUnfold(s: seq<byte>, i: nat)
    requires i <= |s|
    ensures LfOnly(s[i..]) ==
      if i == |s| || s[i] == 0 then []
      else if s[i] != CR then [s[i]] + LfOnly(s[i + 1..])
      else if i + 1 < |s| && s[i + 1] == LF then LfOnly(s[i + 1..])
      else [LF] + LfOnly(s[i + 1..])
  {
    if i < |s| {
      assert s[i..][1..] == s[i + 1..];
    }
  }

  /** Text can be converted in pieces, unless a CR LF is torn apart. */
  lemma {:induction false} LfOnlyPieces(s: seq<byte>, t: seq<byte>)
    requires 0 !in s && (s == [] || s[|s| - 1] != CR || t == [] || t[0] != LF)
    ensures LfOnly(s + t) == LfOnly(s) + LfOnly(t)
  {
    hide LfOnly;
    if s == [] {
      assert s + t == t;
      LfOnlyUnfold(s, 0);
      assert s[0..] == s && [] + LfOnly(t) == LfOnly(t);
    } else {
      assert s[0] in s && forall b | b in s[1..] :: b in s;
      LfOnlyPieces(s[1..], t);
      assert (s + t)[1..] == s[1..] + t && (s + t)[0..] == s + t && s[0..] == s;
      assert |s| > 1 ==> (s + t)[1] == s[1];
      LfOnlyUnfold(s, 0);
      LfOnlyUnfold(s + t, 0);
      assert forall x: seq<byte> :: (x + LfOnly(s[1..])) + LfOnly(t) == x + (LfOnly(s[1..]) + LfOnly(t));
    }
  }

  lemma LfOnlyHeads(b: byte, t: seq<byte>)
    ensures LfOnly([CR, LF] + t) == [LF] + LfOnly(t)
    ensures t == [] || t[0] != LF ==> LfOnly([CR] + t) == [LF] + LfOnly(t)
    ensures b != 0 && b != CR ==> LfOnly([b] + t) == [b] + LfOnly(t)
    ensures LfOnly([0] + t) == []
  {
    assert ([CR, LF] + t)[1..] == [LF] + t && ([LF] + t)[1..] == t && ([CR] + t)[1..] == t && ([b] + t)[1..] == t;
  }

  /** Wherever they stand, CR LF, CR and LF all become one LF, and other bytes stay as they are, up to a zero. */
  lemma LineEndsAlike(s: seq<byte>, b: byte, t: seq<byte>)
    requires 0 !in s && (s == [] || s[|s| - 1] != 13) && b != 0
    ensures LfOnly(s + ([13, 10] + t)) == LfOnly(s) + ([10] + LfOnly(t))
    ensures t == [] || t[0] != 10 ==> LfOnly(s + ([13] + t)) == LfOnly(s) + ([10] + LfOnly(t))
    ensures b != 13 ==> LfOnly(s + ([b] + t)) == LfOnly(s) + ([b] + LfOnly(t))
    ensures LfOnly(s + ([0] + t)) == LfOnly(s)
  {
    hide LfOnly;
    LfOnlyHeads(b, t);
    LfOnlyPieces(s, [13, 10] + t);
    LfOnlyPieces(s, [13] + t);
    LfOnlyPieces(s, [b] + t);
    LfOnlyPieces(s, [0] + t);
    assert LfOnly(s) + [] == LfOnly(s);
  }

  // ---------------------------------------------------------------- the C functions

  /** The first loop of blob_add_cr. */
  method CountLf(z: array<byte>, k: nat) returns (n: nat)
    requires k <= z.Length
    ensures n == Growth(CrlfOf, z[..k])
  {
    hide Growth, CrlfOf;
    ghost var s := z[..k];
    n := 0;
    OfNothing(CrlfOf);
    for i := 0 to k
      invariant n == Growth(CrlfOf, s[..i])
    {
      GrowthUnfold(CrlfOf, s, i + 1);
      if z[i] == LF { n := n + 1; }
    }
    assert s[..k] == s;
  }

  /** The C function.  It moves borrowed bytes to memory of its own before it writes, with one exception: on the
      blob of blob_zero it writes a zero over the terminator of the constant "". */
  method AddCr(p: Blob)
    requires p.Ok()
    modifies p, p.data
    ensures p.Ok() && p.Text() == WithCr(old(p.Text()))
    ensures p.data == old(p.data) || fresh(p.data)
    ensures p.nUsed < p.nAlloc && p.data[p.nUsed] == 0
    ensures !old(p.managed) ==> (p.data == old(p.data) <==> old(p.nUsed) < old(p.nAlloc))
    ensures !old(p.managed) ==>
      old(p.data)[..] == if p.data == old(p.data) then old(p.data[..])[0 := 0] else old(p.data[..])
  {
    hide Expanded, Growth, CrlfOf;
    OfNothing(CrlfOf);
    var i := p.nUsed;
    var n := CountLf(p.data, i);
    var j := i + n;
    if j >= p.nAlloc {
      p.Resize(j);
    }
    p.nUsed := j;
    p.data[j] := 0;
    assert p.data[..i] == old(p.Text());
    InsertCrs(p.data, old(p.Text()), i, j);
  }

  /** The body of the backward loop of blob_add_cr: the byte at i goes just below j0, a CR before it
      if it is an LF. */
  method CopyDown(z: array<byte>, i: nat, j0: nat) returns (j: nat)
    requires i < j0 <= z.Length && i + |CrlfOf(z[i])| <= j0
    modifies z
    ensures j + |CrlfOf(old(z[i]))| == j0
    ensures z[j..j0] == CrlfOf(old(z[i]))
    ensures z[..j] == old(z[..j]) && z[j0..] == old(z[j0..])
  {
    j := j0 - 1;
    z[j] := z[i];
    if z[j] == LF {
      j := j - 1;
      z[j] := CR;
    }
  }

  /** The backward loop of blob_add_cr, from s at the front of the array to its expansion, in place. */
  method InsertCrs(z: array<byte>, ghost s: seq<byte>, i0: nat, j0: nat)
    requires i0 == |s| <= j0 < z.Length && j0 == |s| + Growth(CrlfOf, s) && z[..i0] == s
    modifies z
    ensures z[..j0] == WithCr(s) && z[j0] == old(z[j0])
    ensures i0 == j0 ==> z[..] == old(z[..])
  {
    hide Midway, Expanded, Growth, CrlfOf;
    var i, j := i0, j0;
    MidwayStart(CrlfOf, s, z[..], j0);
    while j > i
      invariant Midway(CrlfOf, s, z[..], i, j, j0) && i <= j <= j0
      invariant z[j0] == old(z[j0])
      invariant i0 == j0 ==> i == j && z[..] == old(z[..])
      decreases i
    {
      ghost var w, k := z[..], j;
      MidwayNext(CrlfOf, s, w, i, j, j0);
      i := i - 1;
      j := CopyDown(z, i, j);
      MidwayStep(CrlfOf, s, w, z[..], i + 1, k, j, j0);
    }
    MidwayEnd(CrlfOf, s, z[..], i, j, j0);
  }

  method ToLfOnly(p: Blob)
    requires p.Ok()
    modifies p, p.data
    ensures p.Ok() && p.Text() == LfOnly(old(p.Text()))
    ensures p.data == old(p.data) || fresh(p.data)
    ensures !old(p.managed) ==> p.data != old(p.data) && old(p.data)[..] == old(p.data[..])
    ensures p.nUsed < p.nAlloc && p.data[p.nUsed] == 0
  {
    hide LfOnly;
    p.Materialize();
    var j := RemoveCrs(p.data, p.nUsed);
    p.data[j] := 0;
    p.nUsed := j;
  }

  /** What the byte at i leaves. */
  function KeptAt(s: seq<byte>, i: nat): seq<byte>
    requires i < |s|
  {
    if s[i] != CR then [s[i]] else if i + 1 < |s| && s[i + 1] == LF then [] else [LF]
  }

  lemma LfOnlyStep(s: seq<byte>, i: nat, front: seq<byte>)
    requires i < |s| && s[i] != 0 && front + LfOnly(s[i..]) == LfOnly(s)
    ensures (front + KeptAt(s, i)) + LfOnly(s[i + 1..]) == LfOnly(s)
  {
    hide LfOnly;
    LfOnlyUnfold(s, i);
    assert LfOnly(s[i..]) == KeptAt(s, i) + LfOnly(s[i + 1..]);
    assert (front + KeptAt(s, i)) + LfOnly(s[i + 1..]) == front + (KeptAt(s, i) + LfOnly(s[i + 1..]));
  }

  /** The loop of blob_to_lf_only: compaction in place up to the first zero byte. */
  method RemoveCrs(z: array<byte>, ghost n: nat) returns (j: nat)
    requires n < z.Length && z[n] == 0
    modifies z
    ensures j <= n && z[..j] == LfOnly(old(z[..n]))
  {
    hide LfOnly;
    ghost var s, front := z[..n], [];
    var i := 0;
    j := 0;
    assert s[0..] == s && [] + LfOnly(s) == LfOnly(s);
    LfOnlyUnfold(s, 0);
    while z[i] != 0
      invariant j <= i <= n && z[n] == 0
      invariant z[i..n] == s[i..] && z[..j] == front
      invariant front + LfOnly(s[i..]) == LfOnly(s)
      decreases n - i
    {
      assert z[i] == s[i] && z[i + 1..n] == s[i + 1..];
      LfOnlyStep(s, i, front);
      assert z[i + 1] == LF <==> i + 1 < n && s[i + 1] == LF;
      front := front + KeptAt(s, i);
      if z[i] != CR {
        z[j] := z[i];
        j := j + 1;
      } else if z[i + 1] != LF {
        z[j] := LF;
        j := j + 1;
      }
      i := i + 1;
      assert z[i..n] == s[i..];
    }
    LfOnlyUnfold(s, i);
    assert i < n ==> s[i] == 0;
  }
}

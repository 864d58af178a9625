/** Replacing every byte of a text by a short code, the theory behind the right-to-left in-place loops
    of src/blob.c. */
module Expansion {
  import opened Basics

  /** A code that never deletes a byte. */
  type Code = code: byte -> seq<byte> | forall b :: |code(b)| >= 1
    witness (b => [b])

  function Expanded(code: Code, s: seq<byte>): seq<byte> {
    if s == [] then [] else code(s[0]) + Expanded(code, s[1..])
  }

  /** By how much s grows. */
  function Growth(code: Code, s: seq<byte>): nat {
    if s == [] then 0 else Growth(code, s[..|s| - 1]) + (|code(s[|s| - 1])| - 1)
  }

  lemma OfNothing(code: Code)
    ensures Expanded(code, []) == [] && Growth(code, []) == 0
  {
  }

  lemma GrowthUnfold(code: Code, s: seq<byte>, i: nat)
    requires 0 < i <= |s|
    ensures Growth(code, s[..i]) == Growth(code, s[..i - 1]) + (|code(s[i - 1])| - 1)
  {
    assert s[..i][..i - 1] == s[..i - 1];
  }

  lemma ExpandedUnfold(code: Code, s: seq<byte>, i: nat)
    requires i < |s|
    ensures Expanded(code, s[i..]) == code(s[i]) + Expanded(code, s[i + 1..])
  {
    assert s[i..][1..] == s[i + 1..];
  }

  lemma {:induction false} ExpandedConcat(code: Code, s: seq<byte>, t: seq<byte>)
    ensures Expanded(code, s + t) == Expanded(code, s) + Expanded(code, t)
  {
    if s == [] {
      assert s + t == t;
    } else {
      assert (s + t)[1..] == s[1..] + t;
      ExpandedConcat(code, s[1..], t);
    }
  }

  /** Where nothing grows and one-byte codes stand for themselves, nothing changes. */
  lemma {:induction false} NoGrowth(code: Code, s: seq<byte>)
    requires Growth(code, s) == 0 && forall b: byte | |code(b)| == 1 :: code(b) == [b]
    ensures Expanded(code, s) == s
  {
    if s != [] {
      var pre, b := s[..|s| - 1], s[|s| - 1];
      NoGrowth(code, pre);
      assert s == pre + [b];
      ExpandedConcat(code, pre, [b]);
      assert Expanded(code, [b]) == code(b) + Expanded(code, []);
    }
  }

  /** Where a right-to-left loop stands: w holds s before i, still to be read, and the expansion of the
      rest of s from j to j0.  The gap between the cursors is exactly what is still to grow. */
  ghost predicate Midway(code: Code, s: seq<byte>, w: seq<byte>, i: int, j: int, j0: int) {
    && 0 <= i <= |s| && i <= j <= j0 <= |w|
    && j - i == Growth(code, s[..i])
    && w[..i] == s[..i]
    && w[j..j0] == Expanded(code, s[i..])
  }

  lemma MidwayStart(code: Code, s: seq<byte>, w: seq<byte>, j0: nat)
    requires j0 <= |w| && j0 == |s| + Growth(code, s) && w[..|s|] == s
    ensures Midway(code, s, w, |s|, j0, j0)
  {
    assert s[..|s|] == s && s[|s|..] == [];
  }

  /** While the cursors differ there is a byte to read, and its code fits between them. */
  lemma MidwayNext(code: Code, s: seq<byte>, w: seq<byte>, i: int, j: int, j0: int)
    requires Midway(code, s, w, i, j, j0) && i < j
    ensures i > 0 && w[i - 1] == s[i - 1] && i - 1 + |code(s[i - 1])| <= j
  {
    assert s[..0] == [];
    GrowthUnfold(code, s, i);
    assert w[..i][i - 1] == s[..i][i - 1];
  }

  lemma SamePrefix(u: seq<byte>, v: seq<byte>, n: int, m: int)
    requires 0 <= m <= n <= |u| && n <= |v| && v[..n] == u[..n]
    ensures v[..m] == u[..m]
  {
    assert v[..m] == v[..n][..m];
    assert u[..m] == u[..n][..m];
  }

  lemma SameMiddle(w: seq<byte>, w': seq<byte>, j: int, j0: int)
    requires 0 <= j <= j0 <= |w| == |w'| && w'[j..] == w[j..]
    ensures w'[j..j0] == w[j..j0]
  {
    assert w'[j..j0] == w'[j..][..j0 - j];
    assert w[j..j0] == w[j..][..j0 - j];
  }

  /** Writing the code of the byte just before i directly below j, and nothing else, keeps the loop on course. */
  lemma MidwayStep(code: Code, s: seq<byte>, w: seq<byte>, w': seq<byte>, i: int, j: int, j': int, j0: int)
    requires Midway(code, s, w, i, j, j0) && i < j
    requires |w'| == |w| && i > 0 && j' == j - |code(s[i - 1])| && 0 <= j'
    requires w'[..j'] == w[..j'] && w'[j'..j] == code(s[i - 1]) && w'[j..] == w[j..]
    ensures Midway(code, s, w', i - 1, j', j0) && i - 1 <= j'
  {
    MidwayNext(code, s, w, i, j, j0);
    GrowthUnfold(code, s, i);
    ExpandedUnfold(code, s, i - 1);
    SamePrefix(w, w', j', i - 1);
    SamePrefix(s, w, i, i - 1);
    assert w'[..i - 1] == s[..i - 1];
    assert w'[j'..j0] == w'[j'..j] + w'[j..j0];
    SameMiddle(w, w', j, j0);
  }

  /** The read and write cursors have met: what lies before them is already final. */
  lemma MidwayEnd(code: Code, s: seq<byte>, w: seq<byte>, i: int, j: int, j0: int)
    requires Midway(code, s, w, i, j, j0) && i == j && forall b: byte | |code(b)| == 1 :: code(b) == [b]
    ensures w[..j0] == Expanded(code, s)
  {
    NoGrowth(code, s[..i]);
    assert s == s[..i] + s[i..];
    ExpandedConcat(code, s[..i], s[i..]);
    assert w[..j0] == w[..i] + w[j..j0];
  }
}

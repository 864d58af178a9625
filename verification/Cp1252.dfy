/** blob_cp1252_to_utf8 of src/blob.c. */
module Cp1252 {
  import opened Basics
  import opened Blobs
  import opened Expansion
  import Utf8

  /** Translations of the bytes 0x80 through 0x9f. */
  const TABLE: seq<nat> := [
    0x20AC,   0x81, 0x201A, 0x0192, 0x201E, 0x2026, 0x2020, 0x2021,
    0x02C6, 0x2030, 0x0160, 0x2039, 0x0152,   0x8D, 0x017D,   0x8F,
      0x90, 0x2018, 0x2019, 0x201C, 0x201D, 0x2022, 0x2013, 0x2014,
     0x2DC, 0x2122, 0x0161, 0x203A, 0x0153,   0x9D, 0x017E, 0x0178
  ]

  /** The code point a byte stands for. */
  function CodePoint(b: byte): (c: nat)
    ensures c < 0xD800
    ensures b < 0x80 ==> c == b
    ensures b >= 0x80 ==> c >= 0x80
    ensures b >= 0xA0 ==> c == b
  {
    if 0x80 <= b < 0xA0 then TABLE[b - 0x80] else b
  }

  /** What a byte is replaced by: the UTF-8 encoding of its code point. */
  function Utf8Of(b: byte): (e: seq<byte>)
    ensures 1 <= |e| <= 3
    ensures |e| == 1 <==> b < 0x80
    ensures |e| == 1 ==> e == [b]
  {
    Utf8.Encode(CodePoint(b))
  }

  function Converted(s: seq<byte>): seq<byte> {
    Expanded(Utf8Of, s)
  }

  function CodePoints(s: seq<byte>): seq<nat> {
    if s == [] then [] else [CodePoint(s[0])] + CodePoints(s[1..])
  }

  // ------------------------------------------------------------------ meaning

  /** Decoding the result as UTF-8 gives the code points the bytes stood for. */
  lemma {:induction false} ConvertedDecodes(s: seq<byte>)
    ensures Utf8.Decode(Converted(s)) == Some(CodePoints(s))
  {
    hide CodePoint, Utf8.Encode;
    if s != [] {
      assert Converted(s) == Utf8Of(s[0]) + Converted(s[1..]);
      Utf8.EncodeDecode(CodePoint(s[0]), Converted(s[1..]));
      ConvertedDecodes(s[1..]);
    }
  }

  /** The cp1252 byte for a code point. */
  function ByteOf(c: nat): byte {
    match c
    case 0x20AC => 0x80
    case 0x201A => 0x82
    case 0x0192 => 0x83
    case 0x201E => 0x84
    case 0x2026 => 0x85
    case 0x2020 => 0x86
    case 0x2021 => 0x87
    case 0x02C6 => 0x88
    case 0x2030 => 0x89
    case 0x0160 => 0x8A
    case 0x2039 => 0x8B
    case 0x0152 => 0x8C
    case 0x017D => 0x8E
    case 0x2018 => 0x91
    case 0x2019 => 0x92
    case 0x201C => 0x93
    case 0x201D => 0x94
    case 0x2022 => 0x95
    case 0x2013 => 0x96
    case 0x2014 => 0x97
    case 0x2DC => 0x98
    case 0x2122 => 0x99
    case 0x0161 => 0x9A
    case 0x203A => 0x9B
    case 0x0153 => 0x9C
    case 0x017E => 0x9E
    case 0x0178 => 0x9F
    case _ => if c < 0x100 then c else 0
  }

  lemma ByteOfCodePoint(b: byte)
    ensures ByteOf(CodePoint(b)) == b
  {
  }

  /** Only the five bytes that Windows-1252 leaves unassigned stand for control characters from 0x80 to 0x9F. */
  lemma ControlsExactly(b: byte)
    ensures 0x80 <= CodePoint(b) < 0xA0 <==> b in {0x81, 0x8D, 0x8F, 0x90, 0x9D}
    ensures b in {0x81, 0x8D, 0x8F, 0x90, 0x9D} ==> CodePoint(b) == b
  {
  }

  function BytesOf(cs: seq<nat>): seq<byte> {
    if cs == [] then [] else [ByteOf(cs[0])] + BytesOf(cs[1..])
  }

  lemma {:induction false} BytesOfCodePoints(s: seq<byte>)
    ensures BytesOf(CodePoints(s)) == s
  {
    hide ByteOf, CodePoint;
    if s != [] {
      ByteOfCodePoint(s[0]);
      BytesOfCodePoints(s[1..]);
      assert s == [s[0]] + s[1..];
    }
  }

  /** The original bytes can be recovered from the UTF-8 text ... */
  lemma ConversionRecoverable(s: seq<byte>)
    ensures Utf8.Decode(Converted(s)).Some?
    ensures BytesOf(Utf8.Decode(Converted(s)).value) == s
  {
    ConvertedDecodes(s);
    BytesOfCodePoints(s);
  }

  /** ... so no two inputs convert to the same text. */
  lemma ConversionInjective(s: seq<byte>, t: seq<byte>)
    requires Converted(s) == Converted(t)
    ensures s == t
  {
    ConversionRecoverable(s);
    ConversionRecoverable(t);
  }

  // ------------------------------------------------------------- the in-place loop

  lemma TableEntry(b: byte)
    requires 0x80 <= b < 0xA0
    ensures CodePoint(b) == TABLE[b % 0x20] && 0x80 <= CodePoint(b) < 0xD800
  {
    assert b % 0x20 == b - 0x80;
  }

  lemma Encoded(b: byte)
    ensures b >= 0xA0 ==> Utf8Of(b) == [0xC0 + b / 0x40, 0x80 + b % 0x40]
    ensures 0x80 <= b < 0xA0 ==>
      var sym := TABLE[b % 0x20];
      && 0x80 <= sym < 0x10000
      && (sym < 0x800 ==> Utf8Of(b) == [0xC0 + sym / 0x40, 0x80 + sym % 0x40])
      && (sym >= 0x800 ==> Utf8Of(b) == [0xE0 + sym / 0x1000, 0x80 + sym / 0x40 % 0x40, 0x80 + sym % 0x40])
  {
    hide CodePoint;
    if 0x80 <= b < 0xA0 {
      TableEntry(b);
    }
  }

  /** The first loop: how much longer the text will get. */
  method CountGrowth(z: array<byte>, k: nat) returns (n: nat)
    requires k <= z.Length
    ensures n == Growth(Utf8Of, z[..k])
  {
    hide Growth, Utf8Of;
    ghost var s := z[..k];
    n := 0;
    OfNothing(Utf8Of);
    for i := 0 to k
      invariant n == Growth(Utf8Of, s[..i])
    {
      GrowthUnfold(Utf8Of, s, i + 1);
      Encoded(s[i]);
      if z[i] >= 0x80 {
        if z[i] < 0xA0 && TABLE[z[i] % 0x20] >= 0x800 { n := n + 1; }
        n := n + 1;
      }
    }
    assert s[..k] == s;
  }

  /** The C function.  The second loop runs from the right with the read cursor i below the write
      cursor j; it stops as soon as they meet, everything before that point being ASCII.  Borrowed bytes
      are moved before anything is written, except that on the blob of blob_zero a zero is written over the
      terminator of the constant "". */
  method ToUtf8(p: Blob)
    requires p.Ok()
    modifies p, p.data
    ensures p.Ok() && p.Text() == Converted(old(p.Text()))
    ensures p.data == old(p.data) || fresh(p.data)
    ensures p.nUsed < p.nAlloc && p.data[p.nUsed] == 0
    ensures !old(p.managed) ==> (p.data == old(p.data) <==> old(p.nUsed) < old(p.nAlloc))
    ensures !old(p.managed) ==>
      old(p.data)[..] == if p.data == old(p.data) then old(p.data[..])[0 := 0] else old(p.data[..])
  {
    hide Expanded, Growth, Utf8Of;
    OfNothing(Utf8Of);
    var i := p.nUsed;
    var n := CountGrowth(p.data, i);
    var j := i + n;
    if j >= p.nAlloc {
      p.Resize(j);
    }
    p.nUsed := j;
    p.data[j] := 0;
    assert p.data[..i] == old(p.Text());
    Expand(p.data, old(p.Text()), i, j);
  }

  /** The body of the backward loop: the byte at i, encoded, ends up just below j0.  Between its first
      and its last write the code reads z[i] again; it has not been overwritten by then. */
  method ExpandByte(z: array<byte>, i: nat, j0: nat) returns (j: nat)
    requires i < j0 <= z.Length && i + |Utf8Of(z[i])| <= j0
    modifies z
    ensures j + |Utf8Of(old(z[i]))| == j0
    ensures z[j..j0] == Utf8Of(old(z[i]))
    ensures z[..j] == old(z[..j]) && z[j0..] == old(z[j0..])
  {
    hide Utf8Of;
    Encoded(z[i]);
    j := j0;
    if z[i] >= 0x80 {
      if z[i] < 0xA0 {
        var sym := TABLE[z[i] % 0x20];
        if sym >= 0x800 {
          j := j - 1; z[j] := 0x80 + sym % 0x40;
          j := j - 1; z[j] := 0x80 + sym / 0x40 % 0x40;
          j := j - 1; z[j] := 0xE0 + sym / 0x1000;
        } else {
          j := j - 1; z[j] := 0x80 + sym % 0x40;
          j := j - 1; z[j] := 0xC0 + sym / 0x40;
        }
      } else {
        j := j - 1; z[j] := 0x80 + z[i] % 0x40;
        j := j - 1; z[j] := 0xC0 + z[i] / 0x40;
      }
    } else {
      j := j - 1; z[j] := z[i];
    }
  }

  /** The backward loop: from s at the front of the array to its conversion, in place. */
  method Expand(z: array<byte>, ghost s: seq<byte>, i0: nat, j0: nat)
    requires i0 == |s| <= j0 < z.Length && j0 == |s| + Growth(Utf8Of, s) && z[..i0] == s
    modifies z
    ensures z[..j0] == Converted(s) && z[j0] == old(z[j0])
    ensures i0 == j0 ==> z[..] == old(z[..])
  {
    hide Midway, Expanded, Growth, Utf8Of;
    var i, j := i0, j0;
    MidwayStart(Utf8Of, s, z[..], j0);
    while j > i
      invariant Midway(Utf8Of, s, z[..], i, j, j0) && i <= j <= j0
      invariant z[j0] == old(z[j0])
      invariant i0 == j0 ==> i == j && z[..] == old(z[..])
      decreases i
    {
      ghost var w, k := z[..], j;
      MidwayNext(Utf8Of, s, w, i, j, j0);
      i := i - 1;
      j := ExpandByte(z, i, j);
      MidwayStep(Utf8Of, s, w, z[..], i + 1, k, j, j0);
    }
    MidwayEnd(Utf8Of, s, z[..], i, j, j0);
  }
}

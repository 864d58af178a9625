/** A decoder and an encoder for UTF-8, from section 3 of RFC 3629; used as an independent reference. */
module Utf8 {
  import opened Basics

  predicate IsTail(b: byte) {
    0x80 <= b < 0xC0
  }

  /** The low bits of a byte, below m. */
  function Bits(b: byte, m: nat): nat
    requires m > 0
  {
    b as nat % m
  }

  /** The code points of a well-formed byte string. */
  function Decode(s: seq<byte>): Option<seq<nat>> {
    if s == [] then Some([])
    else if s[0] < 0x80 then
      Cons(s[0], Decode(s[1..]))
    else if 0xC0 <= s[0] < 0xE0 && |s| >= 2 && IsTail(s[1]) then
      Cons2(0x80, Bits(s[0], 0x20) * 0x40 + Bits(s[1], 0x40), Decode(s[2..]))
    else if 0xE0 <= s[0] < 0xF0 && |s| >= 3 && IsTail(s[1]) && IsTail(s[2]) then
      Cons3(Bits(s[0], 0x10) * 0x1000 + Bits(s[1], 0x40) * 0x40 + Bits(s[2], 0x40), Decode(s[3..]))
    else if 0xF0 <= s[0] < 0xF8 && |s| >= 4 && IsTail(s[1]) && IsTail(s[2]) && IsTail(s[3]) then
      Cons4(Bits(s[0], 0x08) * 0x40000 + Bits(s[1], 0x40) * 0x1000 + Bits(s[2], 0x40) * 0x40 + Bits(s[3], 0x40),
            Decode(s[4..]))
    else None
  }

  function Cons(c: nat, rest: Option<seq<nat>>): Option<seq<nat>> {
    match rest
    case None => None
    case Some(cs) => Some([c] + cs)
  }

  /** Sequences longer than necessary are not well-formed. */
  function Cons2(least: nat, c: nat, rest: Option<seq<nat>>): Option<seq<nat>> {
    if c < least then None else Cons(c, rest)
  }

  /** Neither are surrogates. */
  function Cons3(c: nat, rest: Option<seq<nat>>): Option<seq<nat>> {
    if 0xD800 <= c < 0xE000 then None else Cons2(0x800, c, rest)
  }

  function Cons4(c: nat, rest: Option<seq<nat>>): Option<seq<nat>> {
    if c > 0x10FFFF then None else Cons2(0x10000, c, rest)
  }

  /** The encoding of one code point of the Basic Multilingual Plane. */
  function Encode(c: nat): seq<byte>
    requires c < 0x10000
  {
    if c < 0x80 then [c]
    else if c < 0x800 then [0xC0 + c / 0x40, 0x80 + c % 0x40]
    else [0xE0 + c / 0x1000, 0x80 + c / 0x40 % 0x40, 0x80 + c % 0x40]
  }

  lemma EncodeDecode2(c: nat, rest: seq<byte>)
    requires 0x80 <= c < 0x800
    ensures Decode(Encode(c) + rest) == Cons(c, Decode(rest))
  {
    var s := Encode(c) + rest;
    assert s[2..] == rest;
    assert Bits(s[0], 0x20) == c / 0x40 && Bits(s[1], 0x40) == c % 0x40;
  }

  lemma EncodeDecode3(c: nat, rest: seq<byte>)
    requires 0x800 <= c < 0xD800
    ensures Decode(Encode(c) + rest) == Cons(c, Decode(rest))
  {
    var s := Encode(c) + rest;
    assert s[3..] == rest;
    assert Bits(s[0], 0x10) == c / 0x1000 && Bits(s[1], 0x40) == c / 0x40 % 0x40 && Bits(s[2], 0x40) == c % 0x40;
    assert c / 0x1000 * 0x1000 + c / 0x40 % 0x40 * 0x40 + c % 0x40 == c;
  }

  /** The decoder undoes the encoder below the surrogates. */
  lemma EncodeDecode(c: nat, rest: seq<byte>)
    requires c < 0xD800
    ensures Decode(Encode(c) + rest) == Cons(c, Decode(rest))
  {
    if c < 0x80 {
      var s := Encode(c) + rest;
      assert s[1..] == rest;
    } else if c < 0x800 {
      EncodeDecode2(c, rest);
    } else {
      EncodeDecode3(c, rest);
    }
  }
}

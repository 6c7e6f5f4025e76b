/**
  UTF-8 (RFC 3629), which names and link targets of an archive must be to be extracted.

  The byte table of section 4 of the standard accepts exactly the encodings of sequences of Unicode
  scalar values by the bit distribution of section 3.
 */
module Utf8 {
  import opened Bytes

  predicate Continuation(s: Text, i: nat) {
    i < |s| && 0x80 <= s[i] <= 0xBF
  }

  /** Well-formed UTF-8, by the table of section 4. */
  predicate IsUtf8(s: Text)
    decreases |s|
  {
    if s == [] then true
    else if 0 <= s[0] <= 0x7F then IsUtf8(s[1..])
    else if 0xC2 <= s[0] <= 0xDF then Continuation(s, 1) && IsUtf8(s[2..])
    else if 0xE0 <= s[0] <= 0xEF then
      && Continuation(s, 1) && Continuation(s, 2)
      && (s[0] == 0xE0 ==> s[1] >= 0xA0) && (s[0] == 0xED ==> s[1] <= 0x9F)
      && IsUtf8(s[3..])
    else if 0xF0 <= s[0] <= 0xF4 then
      && Continuation(s, 1) && Continuation(s, 2) && Continuation(s, 3)
      && (s[0] == 0xF0 ==> s[1] >= 0x90) && (s[0] == 0xF4 ==> s[1] <= 0x8F)
      && IsUtf8(s[4..])
    else false
  }

  /** A Unicode scalar value: a code point that is no surrogate. */
  predicate IsScalar(c: int) {
    0 <= c < 0xD800 || 0xE000 <= c < 0x110000
  }

  /** One code point, six bits to a continuation byte (section 3). */
  function Encoded(c: nat): Text {
    if c < 0x80 then [c]
    else if c < 0x800 then [0xC0 + c / 64, 0x80 + c % 64]
    else if c < 0x10000 then [0xE0 + c / 4096, 0x80 + c / 64 % 64, 0x80 + c % 64]
    else [0xF0 + c / 262144, 0x80 + c / 4096 % 64, 0x80 + c / 64 % 64, 0x80 + c % 64]
  }

  predicate AllScalar(cs: seq<nat>) {
    forall i :: 0 <= i < |cs| ==> IsScalar(cs[i])
  }

  function EncodedAll(cs: seq<nat>): Text {
    if cs == [] then [] else Encoded(cs[0]) + EncodedAll(cs[1..])
  }

  lemma Tail(a: Text, rest: Text)
    ensures (a + rest)[|a|..] == rest
  {
  }

  lemma EncodedAccepted(c: nat, rest: Text)
    requires IsScalar(c) && IsUtf8(rest)
    ensures IsUtf8(Encoded(c) + rest)
  {
    var s := Encoded(c) + rest;
    Tail(Encoded(c), rest);
    if c < 0x80 {
      assert s[0] == c && s[1..] == rest;
    } else if c < 0x800 {
      assert s[0] == 0xC0 + c / 64 && s[1] == 0x80 + c % 64 && s[2..] == rest;
    } else if c < 0x10000 {
      assert s[0] == 0xE0 + c / 4096 && s[1] == 0x80 + c / 64 % 64 && s[2] == 0x80 + c % 64 && s[3..] == rest;
      ThreeBytes(c);
    } else {
      assert s[0] == 0xF0 + c / 262144 && s[1] == 0x80 + c / 4096 % 64 && s[2] == 0x80 + c / 64 % 64;
      assert s[3] == 0x80 + c % 64 && s[4..] == rest;
      FourBytes(c);
    }
  }

  lemma ThreeBytes(c: nat)
    requires 0x800 <= c < 0x10000 && IsScalar(c)
    ensures 0 <= c / 4096 <= 15 && (c / 4096 == 0 ==> c / 64 % 64 >= 0x20) && (c / 4096 == 13 ==> c / 64 % 64 <= 0x1F)
  {
    assert c / 64 / 64 == c / 4096;
  }

  lemma FourBytes(c: nat)
    requires 0x10000 <= c < 0x110000
    ensures 0 <= c / 262144 <= 4
    ensures (c / 262144 == 0 ==> c / 4096 % 64 >= 0x10) && (c / 262144 == 4 ==> c / 4096 % 64 <= 0x0F)
  {
    assert c / 4096 / 64 == c / 262144;
  }

  /** The first code point of accepted text. */
  lemma FirstCode(s: Text) returns (c: nat, rest: Text)
    requires s != [] && IsUtf8(s)
    ensures IsScalar(c) && s == Encoded(c) + rest && IsUtf8(rest) && |rest| < |s|
  {
    if s[0] <= 0x7F {
      c, rest := s[0], s[1..];
    } else if s[0] <= 0xDF {
      c, rest := (s[0] - 0xC0) * 64 + (s[1] - 0x80), s[2..];
    } else if s[0] <= 0xEF {
      c, rest := (s[0] - 0xE0) * 4096 + (s[1] - 0x80) * 64 + (s[2] - 0x80), s[3..];
      SplitThree(s[0] - 0xE0, s[1] - 0x80, s[2] - 0x80);
    } else {
      c, rest := (s[0] - 0xF0) * 262144 + (s[1] - 0x80) * 4096 + (s[2] - 0x80) * 64 + (s[3] - 0x80), s[4..];
      SplitFour(s[0] - 0xF0, s[1] - 0x80, s[2] - 0x80, s[3] - 0x80);
    }
  }

  lemma SplitThree(x: nat, y: nat, z: nat)
    requires y < 64 && z < 64
    ensures var c := x * 4096 + y * 64 + z; c / 4096 == x && c / 64 % 64 == y && c % 64 == z
  {
    var c := x * 4096 + y * 64 + z;
    assert c / 64 == x * 64 + y;
  }

  lemma SplitFour(w: nat, x: nat, y: nat, z: nat)
    requires x < 64 && y < 64 && z < 64
    ensures var c := w * 262144 + x * 4096 + y * 64 + z;
            c / 262144 == w && c / 4096 % 64 == x && c / 64 % 64 == y && c % 64 == z
  {
    var c := w * 262144 + x * 4096 + y * 64 + z;
    SplitThree(w * 64 + x, y, z);
    assert c == (w * 64 + x) * 4096 + y * 64 + z;
    assert c / 4096 == w * 64 + x;
  }

  lemma {:induction false} Decodes(s: Text) returns (cs: seq<nat>)
    requires IsUtf8(s)
    ensures AllScalar(cs) && EncodedAll(cs) == s
    decreases |s|
  {
    if s == [] {
      cs := [];
    } else {
      var c, rest := FirstCode(s);
      var more := Decodes(rest);
      cs := [c] + more;
    }
  }

  lemma {:induction false} EncodedIsUtf8(cs: seq<nat>)
    requires AllScalar(cs)
    ensures IsUtf8(EncodedAll(cs))
  {
    if cs != [] {
      EncodedIsUtf8(cs[1..]);
      EncodedAccepted(cs[0], EncodedAll(cs[1..]));
    }
  }

  /** Accepted text is exactly the encoding of scalar values. */
  lemma Utf8Exact(s: Text)
    ensures IsUtf8(s) <==> exists cs :: AllScalar(cs) && EncodedAll(cs) == s
  {
    if IsUtf8(s) {
      var cs := Decodes(s);
    }
    if cs :| AllScalar(cs) && EncodedAll(cs) == s {
      EncodedIsUtf8(cs);
    }
  }
}

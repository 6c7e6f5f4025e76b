/**
  The nixbase32 encoder (`nixbase32_encode` in nix/lib/build-binary-cache.py).

  The encoder takes every character from one byte or from two adjacent ones by shifting and
  masking. The lemmas read a window of bits as a digit of the little-endian integer that the bytes
  stand for: dropping digits slides the window over the bytes, and a digit that straddles two
  bytes is the sum of its two parts.
 */
module Nixbase32 {
  import opened Bytes

  const NIX_CHARS := "0123456789abcdfghijklmnpqrsvwxyz"

  predicate IsDigitChar(c: char) {
    ('0' <= c <= '9' || 'a' <= c <= 'z') && c != 'e' && c != 'o' && c != 't' && c != 'u'
  }

  /** The digits and the lower-case letters without e, o, t and u, in ascending order; there are 32 of them. */
  lemma Alphabet(i: nat)
    requires i < 32
    ensures |NIX_CHARS| == 32 && IsDigitChar(NIX_CHARS[i]) && (i < 31 ==> NIX_CHARS[i] < NIX_CHARS[i + 1])
  {
  }

  // ----- Bit operations on naturals -----

  function Pow2(k: nat): (p: nat)
    ensures p > 0
  {
    if k == 0 then 1 else 2 * Pow2(k - 1)
  }

  function ShiftRight(x: nat, k: nat): nat {
    if k == 0 then x else ShiftRight(x / 2, k - 1)
  }

  function ShiftLeft(x: nat, k: nat): nat
    decreases k
  {
    if k == 0 then x else ShiftLeft(2 * x, k - 1)
  }

  /** Keep the five lowest bits. */
  function Mask5(x: nat): nat {
    x % 32
  }

  function BitOr(x: nat, y: nat): nat
    decreases x + y
  {
    if x == 0 then y
    else if y == 0 then x
    else (if x % 2 == 1 || y % 2 == 1 then 1 else 0) + 2 * BitOr(x / 2, y / 2)
  }

  /** Joining bits that do not overlap is addition. */
  lemma {:induction false} OrDisjoint(x: nat, y: nat, k: nat)
    requires x < Pow2(k)
    ensures BitOr(x, y * Pow2(k)) == x + y * Pow2(k)
    decreases k
  {
    if x > 0 && y > 0 {
      var high := y * Pow2(k - 1);
      assert y * Pow2(k) == 2 * high;
      OrDisjoint(x / 2, y, k - 1);
    }
  }

  // ----- The little-endian integer and its base-32 digits -----

  function Value(data: seq<byte>): nat
    requires IsBytes(data)
  {
    if data == [] then 0 else data[0] + 256 * Value(data[1..])
  }

  /** The integer with its `i` lowest base-32 digits dropped. */
  function Drop5(n: nat, i: nat): nat {
    if i == 0 then n else Drop5(n, i - 1) / 32
  }

  function Digit(n: nat, i: nat): nat {
    Drop5(n, i) % 32
  }

  function CharCount(len: nat): nat {
    (len * 8 + 4) / 5
  }

  lemma {:induction false} ShiftTwice(x: nat, j: nat, k: nat)
    ensures ShiftRight(ShiftRight(x, j), k) == ShiftRight(x, j + k)
    decreases j
  {
    if j > 0 { ShiftTwice(x / 2, j - 1, k); }
  }

  lemma Shift5(x: nat)
    ensures ShiftRight(x, 5) == x / 32
  {
    var y := x / 2 / 2;
    assert ShiftRight(x, 5) == ShiftRight(x / 2, 4) == ShiftRight(y, 3);
    assert ShiftRight(y, 3) == ShiftRight(y / 2, 2) == ShiftRight(y / 2 / 2, 1) == y / 2 / 2 / 2;
    assert y == x / 4 && y / 2 / 2 == y / 4 && x / 4 / 4 == x / 16 && x / 16 / 2 == x / 32;
  }

  lemma Shift8(x: nat)
    ensures ShiftRight(x, 8) == x / 256
  {
    ShiftTwice(x, 5, 3);
    Shift5(x);
    var y := x / 32;
    assert ShiftRight(y, 3) == ShiftRight(y / 2, 2) == ShiftRight(y / 2 / 2, 1) == ShiftRight(y / 2 / 2 / 2, 0);
    assert y / 2 / 2 == y / 4 && y / 4 / 2 == y / 8 && x / 32 / 8 == x / 256;
  }

  lemma SlideInByte(v: nat, k: nat)
    requires k >= 5
    ensures ShiftRight(v, k - 5) / 32 == ShiftRight(v, k)
  {
    ShiftTwice(v, k - 5, 5);
    Shift5(ShiftRight(v, k - 5));
  }

  lemma SlideToNext(v: nat, k: nat)
    ensures ShiftRight(v, k + 3) / 32 == ShiftRight(v / 256, k)
  {
    ShiftTwice(v, k + 3, 5);
    Shift5(ShiftRight(v, k + 3));
    ShiftTwice(v, 8, k);
    Shift8(v);
  }

  /** Dropping digits slides a window over the bytes. */
  lemma {:induction false} Window(data: seq<byte>, i: nat, b: nat, k: nat)
    requires IsBytes(data) && i * 5 == 8 * b + k && k < 8 && b <= |data|
    ensures Drop5(Value(data), i) == ShiftRight(Value(data[b..]), k)
    decreases i
  {
    if i == 0 {
      assert data[0..] == data;
    } else if k >= 5 {
      Window(data, i - 1, b, k - 5);
      SlideInByte(Value(data[b..]), k);
    } else {
      Window(data, i - 1, b - 1, k + 3);
      SlideToNext(Value(data[b - 1..]), k);
    }
  }

  /** The digit that the encoder takes from one byte and, when it straddles, the next. */
  function DigitFrom(b: nat, next: nat, k: nat): nat
    requires k <= 7
  {
    var low := Mask5(ShiftRight(b, k));
    if k > 3 then BitOr(low, Mask5(ShiftLeft(next, 8 - k))) else low
  }

  lemma ShiftTable(x: nat)
    ensures ShiftRight(x, 0) == x && ShiftRight(x, 1) == x / 2 && ShiftRight(x, 2) == x / 4 && ShiftRight(x, 3) == x / 8
    ensures ShiftRight(x, 4) == x / 16 && ShiftRight(x, 5) == x / 32 && ShiftRight(x, 6) == x / 64
    ensures ShiftRight(x, 7) == x / 128
  {
    ShiftTwice(x, 1, 1);
    ShiftTwice(x, 2, 1);
    ShiftTwice(x, 3, 1);
    Shift5(x);
    ShiftTwice(x, 5, 1);
    ShiftTwice(x, 6, 1);
    assert ShiftRight(x / 2, 1) == x / 2 / 2;
  }

  lemma Mod32(y: nat, z: nat)
    ensures (y + 32 * z) % 32 == y % 32
  {
  }

  lemma LowDigit1(b: nat, w: nat)
    ensures (b + 256 * w) / 2 % 32 == b / 2 % 32
  {
    assert (b + 256 * w) / 2 == b / 2 + 128 * w;
    Mod32(b / 2, 4 * w);
  }

  lemma LowDigit2(b: nat, w: nat)
    ensures (b + 256 * w) / 4 % 32 == b / 4 % 32
  {
    assert (b + 256 * w) / 4 == b / 4 + 64 * w;
    Mod32(b / 4, 2 * w);
  }

  lemma LowDigit3(b: nat, w: nat)
    ensures (b + 256 * w) / 8 % 32 == b / 8 % 32
  {
    assert (b + 256 * w) / 8 == b / 8 + 32 * w;
    Mod32(b / 8, w);
  }

  lemma LowDigit(b: nat, w: nat, k: nat)
    requires k <= 3
    ensures ShiftRight(b, k) % 32 == ShiftRight(b + 256 * w, k) % 32
  {
    ShiftTable(b);
    ShiftTable(b + 256 * w);
    if k == 0 { Mod32(b, 8 * w); }
    else if k == 1 { LowDigit1(b, w); }
    else if k == 2 { LowDigit2(b, w); }
    else { LowDigit3(b, w); }
  }

  lemma HighDigit4(b: nat, w: nat)
    requires b < 256
    ensures (b + 256 * w) / 16 % 32 == b / 16 + w % 2 * 16
  {
    assert (b + 256 * w) / 16 == b / 16 + 16 * w;
    assert w == w / 2 * 2 + w % 2;
    Mod32(b / 16 + w % 2 * 16, w / 2);
  }

  lemma HighDigit5(b: nat, w: nat)
    requires b < 256
    ensures (b + 256 * w) / 32 % 32 == b / 32 + w % 4 * 8
  {
    assert (b + 256 * w) / 32 == b / 32 + 8 * w;
    assert w == w / 4 * 4 + w % 4;
    Mod32(b / 32 + w % 4 * 8, w / 4);
  }

  lemma HighDigit6(b: nat, w: nat)
    requires b < 256
    ensures (b + 256 * w) / 64 % 32 == b / 64 + w % 8 * 4
  {
    assert (b + 256 * w) / 64 == b / 64 + 4 * w;
    assert w == w / 8 * 8 + w % 8;
    Mod32(b / 64 + w % 8 * 4, w / 8);
  }

  lemma HighDigit7(b: nat, w: nat)
    requires b < 256
    ensures (b + 256 * w) / 128 % 32 == b / 128 + w % 16 * 2
  {
    assert (b + 256 * w) / 128 == b / 128 + 2 * w;
    assert w == w / 16 * 16 + w % 16;
    Mod32(b / 128 + w % 16 * 2, w / 16);
  }

  lemma LeftTable(x: nat)
    ensures Mask5(ShiftLeft(x, 4)) == x % 2 * 16 && Mask5(ShiftLeft(x, 3)) == x % 4 * 8
    ensures Mask5(ShiftLeft(x, 2)) == x % 8 * 4 && Mask5(ShiftLeft(x, 1)) == x % 16 * 2
  {
    Masked(x / 2, x % 2 * 16, 16 * x);
    Masked(x / 4, x % 4 * 8, 8 * x);
    Masked(x / 8, x % 8 * 4, 4 * x);
    Masked(x / 16, x % 16 * 2, 2 * x);
  }

  lemma Masked(q: nat, r: nat, x: nat)
    requires r < 32 && x == 32 * q + r
    ensures x % 32 == r
  {
  }

  lemma SameLowBits(next: nat, rest: nat)
    ensures var w := next + 256 * rest;
            w % 2 == next % 2 && w % 4 == next % 4 && w % 8 == next % 8 && w % 16 == next % 16
  {
    Mod2(next, 128 * rest);
    Mod4(next, 64 * rest);
    Mod8(next, 32 * rest);
    Mod16(next, 16 * rest);
  }

  lemma Mod2(x: nat, z: nat)
    ensures (x + 2 * z) % 2 == x % 2
  {
  }

  lemma Mod4(x: nat, z: nat)
    ensures (x + 4 * z) % 4 == x % 4
  {
  }

  lemma Mod8(x: nat, z: nat)
    ensures (x + 8 * z) % 8 == x % 8
  {
  }

  lemma Mod16(x: nat, z: nat)
    ensures (x + 16 * z) % 16 == x % 16
  {
  }

  lemma DigitFromValue(b: nat, next: nat, rest: nat, k: nat)
    requires b < 256 && k <= 7
    ensures DigitFrom(b, next, k) == ShiftRight(b + 256 * (next + 256 * rest), k) % 32
  {
    var w := next + 256 * rest;
    if k <= 3 {
      LowDigit(b, w, k);
    } else {
      SameLowBits(next, rest);
      if k == 4 { Straddle4(b, next, w, k); }
      else if k == 5 { Straddle5(b, next, w, k); }
      else if k == 6 { Straddle6(b, next, w, k); }
      else { Straddle7(b, next, w, k); }
    }
  }

  lemma OrSum(low: nat, high: nat, y: nat, j: nat, p: nat)
    requires 1 <= j <= 4 && p == [2, 4, 8, 16][j - 1] && low < p && high == y * p
    ensures BitOr(low, high) == low + high
  {
    Powers();
    OrDisjoint(low, y, j);
  }

  /** The upper bits of one byte. */
  lemma LowParts(b: nat)
    requires b < 256
    ensures Mask5(ShiftRight(b, 4)) == b / 16 < 16 && Mask5(ShiftRight(b, 5)) == b / 32 < 8
    ensures Mask5(ShiftRight(b, 6)) == b / 64 < 4 && Mask5(ShiftRight(b, 7)) == b / 128 < 2
  {
    ShiftTable(b);
    SmallMask(b / 16);
    SmallMask(b / 32);
    SmallMask(b / 64);
    SmallMask(b / 128);
  }

  lemma SmallMask(x: nat)
    ensures x < 32 ==> Mask5(x) == x
  {
  }

  lemma Straddle4(b: nat, next: nat, w: nat, k: nat)
    requires k == 4 && b < 256 && next % 2 == w % 2
    ensures DigitFrom(b, next, k) == ShiftRight(b + 256 * w, k) % 32
  {
    LowParts(b);
    LeftTable(next);
    OrSum(b / 16, next % 2 * 16, next % 2, 8 - k, 16);
    Shifted(b + 256 * w, k, 16);
    HighDigit4(b, w);
  }

  lemma Straddle5(b: nat, next: nat, w: nat, k: nat)
    requires k == 5 && b < 256 && next % 4 == w % 4
    ensures DigitFrom(b, next, k) == ShiftRight(b + 256 * w, k) % 32
  {
    LowParts(b);
    LeftTable(next);
    OrSum(b / 32, next % 4 * 8, next % 4, 8 - k, 8);
    Shifted(b + 256 * w, k, 32);
    HighDigit5(b, w);
  }

  lemma Straddle6(b: nat, next: nat, w: nat, k: nat)
    requires k == 6 && b < 256 && next % 8 == w % 8
    ensures DigitFrom(b, next, k) == ShiftRight(b + 256 * w, k) % 32
  {
    LowParts(b);
    LeftTable(next);
    OrSum(b / 64, next % 8 * 4, next % 8, 8 - k, 4);
    Shifted(b + 256 * w, k, 64);
    HighDigit6(b, w);
  }

  lemma Straddle7(b: nat, next: nat, w: nat, k: nat)
    requires k == 7 && b < 256 && next % 16 == w % 16
    ensures DigitFrom(b, next, k) == ShiftRight(b + 256 * w, k) % 32
  {
    LowParts(b);
    LeftTable(next);
    OrSum(b / 128, next % 16 * 2, next % 16, 8 - k, 2);
    Shifted(b + 256 * w, k, 128);
    HighDigit7(b, w);
  }

  lemma Shifted(x: nat, k: nat, d: nat)
    requires 4 <= k <= 7 && d == [16, 32, 64, 128][k - 4]
    ensures ShiftRight(x, k) == x / d
  {
    ShiftTable(x);
  }

  lemma Powers()
    ensures Pow2(1) == 2 && Pow2(2) == 4 && Pow2(3) == 8 && Pow2(4) == 16
  {
  }

  // ----- Encoding -----

  /** The digits of the little-endian integer, most significant first. */
  function Encoding(data: seq<byte>): string
    requires IsBytes(data)
  {
    var n := CharCount(|data|);
    seq(n, j requires 0 <= j < n => NIX_CHARS[Digit(Value(data), n - 1 - j)])
  }

  /** The value of one character, taken from one byte or two adjacent ones. */
  /** As few characters as hold all bits; 52 for a SHA-256 digest. */
  lemma EncodingLength(data: seq<byte>)
    requires IsBytes(data)
    ensures 8 * |data| <= 5 * |Encoding(data)| < 8 * |data| + 5
    ensures |data| == 32 ==> |Encoding(data)| == 52
  {
  }

  method TakeDigit(data: seq<byte>, i: nat) returns (val: nat)
    requires IsBytes(data) && i < CharCount(|data|)
    ensures val == Digit(Value(data), i)
  {
    var byteIdx, bitIdx := i * 5 / 8, i * 5 % 8;
    DigitTaken(data, i, byteIdx, bitIdx);
    val := Mask5(ShiftRight(data[byteIdx], bitIdx));
    if bitIdx > 3 && byteIdx + 1 < |data| {
      val := BitOr(val, Mask5(ShiftLeft(data[byteIdx + 1], 8 - bitIdx)));
    }
  }

  method Encode(data: seq<byte>) returns (result: string)
    requires IsBytes(data)
    ensures result == Encoding(data)
  {
    var n := CharCount(|data|);
    result := "";
    for i := n downto 0
      invariant result == Encoding(data)[..n - i]
    {
      var val := TakeDigit(data, i);
      result := result + [NIX_CHARS[val]];
    }
  }

  lemma {:induction false} ShiftZero(k: nat)
    ensures ShiftLeft(0, k) == 0
  {
    if k > 0 { ShiftZero(k - 1); }
  }

  lemma LastIndex(len: nat, i: nat, b: nat, k: nat)
    requires i < CharCount(len) && i * 5 == 8 * b + k && k < 8
    ensures b < len
  {
  }

  /** The byte index is in bounds and the value taken is the digit. */
  lemma DigitTaken(data: seq<byte>, i: nat, b: nat, k: nat)
    requires IsBytes(data) && i < CharCount(|data|) && i * 5 == 8 * b + k && k < 8
    ensures b < |data| && i * 5 / 8 == b && i * 5 % 8 == k
    ensures k > 3 && b + 1 < |data| ==>
              BitOr(Mask5(ShiftRight(data[b], k)), Mask5(ShiftLeft(data[b + 1], 8 - k))) == Digit(Value(data), i)
    ensures !(k > 3 && b + 1 < |data|) ==> Mask5(ShiftRight(data[b], k)) == Digit(Value(data), i)
  {
    LastIndex(|data|, i, b, k);
    Window(data, i, b, k);
    var tail := data[b..];
    assert tail[1..] == data[b + 1..];
    if b + 1 < |data| {
      assert tail[1..][1..] == data[b + 2..];
      DigitFromValue(data[b], data[b + 1], Value(data[b + 2..]), k);
    } else {
      DigitFromValue(data[b], 0, 0, k);
      ShiftZero(8 - k);
    }
  }

  // ----- Decoding -----

  /** Position of a character in the alphabet. */
  function CharValue(c: char): nat {
    FindChar(c, 0)
  }

  function FindChar(c: char, from: nat): nat
    decreases 32 - from
  {
    if from >= 32 || NIX_CHARS[from] == c then from else FindChar(c, from + 1)
  }

  lemma {:induction false} AlphabetOrder(i: nat, j: nat)
    requires i < j < 32
    ensures NIX_CHARS[i] < NIX_CHARS[j]
    decreases j
  {
    Alphabet(j - 1);
    if i < j - 1 { AlphabetOrder(i, j - 1); }
  }

  lemma {:induction false} FindAt(d: nat, from: nat)
    requires from <= d < 32
    ensures FindChar(NIX_CHARS[d], from) == d
    decreases d - from
  {
    if from < d {
      AlphabetOrder(from, d);
      FindAt(d, from + 1);
    }
  }

  /** Read the digits back, most significant first. */
  function Horner(s: string): nat {
    if s == [] then 0 else 32 * Horner(s[..|s| - 1]) + CharValue(s[|s| - 1])
  }

  function ToBytes(v: nat, len: nat): seq<byte>
    decreases len
  {
    if len == 0 then [] else [v % 256] + ToBytes(v / 256, len - 1)
  }

  function Decode(s: string, len: nat): seq<byte> {
    ToBytes(Horner(s), len)
  }

  lemma SplitByte(b: nat, rest: nat)
    requires b < 256
    ensures (b + 256 * rest) / 256 == rest && (b + 256 * rest) % 256 == b
  {
  }

  lemma {:induction false} ToBytesInverse(data: seq<byte>)
    requires IsBytes(data)
    ensures ToBytes(Value(data), |data|) == data
  {
    if data != [] {
      ToBytesInverse(data[1..]);
      SplitByte(data[0], Value(data[1..]));
      assert data == [data[0]] + data[1..];
    }
  }

  /** No digit is left above the ones that are emitted. */
  lemma AllDigitsEmitted(data: seq<byte>)
    requires IsBytes(data)
    ensures Drop5(Value(data), CharCount(|data|)) == 0
  {
    var n, len := CharCount(|data|), |data|;
    var k := n * 5 - 8 * len;
    assert 0 <= k < 5;
    Window(data, n, len, k);
    assert data[len..] == [];
    ShiftRightZero(k);
  }

  lemma {:induction false} ShiftRightZero(k: nat)
    ensures ShiftRight(0, k) == 0
  {
    if k > 0 { ShiftRightZero(k - 1); }
  }

  lemma {:induction false} HornerPrefix(data: seq<byte>, j: nat)
    requires IsBytes(data) && j <= CharCount(|data|)
    ensures Horner(Encoding(data)[..j]) == Drop5(Value(data), CharCount(|data|) - j)
    decreases j
  {
    var n, s := CharCount(|data|), Encoding(data);
    if j == 0 {
      AllDigitsEmitted(data);
    } else {
      HornerPrefix(data, j - 1);
      assert s[..j][..j - 1] == s[..j - 1];
      FindAt(Digit(Value(data), n - j), 0);
      var above := Drop5(Value(data), n - j);
      assert Drop5(Value(data), n - j + 1) == above / 32;
    }
  }

  /** For byte strings of every length the encoding can be undone once the length is known. */
  lemma DecodeEncoding(data: seq<byte>)
    requires IsBytes(data)
    ensures Decode(Encoding(data), |data|) == data
  {
    var s := Encoding(data);
    HornerPrefix(data, |s|);
    assert s[..|s|] == s;
    ToBytesInverse(data);
  }

  /** At fixed length different byte strings have different encodings, all of the same length. */
  lemma EncodingInjective(a: seq<byte>, b: seq<byte>)
    requires IsBytes(a) && IsBytes(b) && |a| == |b|
    ensures |Encoding(a)| == |Encoding(b)| && (Encoding(a) == Encoding(b) <==> a == b)
  {
    DecodeEncoding(a);
    DecodeEncoding(b);
  }
}

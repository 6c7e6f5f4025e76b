/**
  File modes in manifests: reading (`parse_mode_string` in snix-redox/src/activate.rs) and
  normalising (`normalize_managed_file_mode` in snix-redox/src/rebuild.rs).

  A string is a list of code points. Both functions trim white space, drop an octal prefix and accept
  one to four octal digits; normalising prints four digits, which reading accepts again.
 */
module ManagedMode {
  import opened Results
  import opened Bytes

  /** The Unicode white space that trimming removes. */
  predicate IsSpace(c: int) {
    || 9 <= c <= 13 || c == 0x20 || c == 0x85 || c == 0xA0 || c == 0x1680 || 0x2000 <= c <= 0x200A
    || c == 0x2028 || c == 0x2029 || c == 0x202F || c == 0x205F || c == 0x3000
  }

  function TrimStart(s: Text): Text {
    if s != [] && IsSpace(s[0]) then TrimStart(s[1..]) else s
  }

  function TrimEnd(s: Text): Text {
    if s != [] && IsSpace(s[|s| - 1]) then TrimEnd(s[..|s| - 1]) else s
  }

  const ZERO: int := '0' as int
  const LETTER_O: int := 'o' as int

  /** Drop an `0o` prefix, then one zero unless nothing would be left. */
  function Bare(s: Text): Text {
    var t := if |s| >= 2 && s[0] == ZERO && s[1] == LETTER_O then s[2..] else s;
    if |t| > 1 && t[0] == ZERO then t[1..] else t
  }

  predicate IsOctal(s: Text) {
    forall i :: 0 <= i < |s| ==> ZERO <= s[i] <= ZERO + 7
  }

  function OctalValue(s: Text): nat
    requires IsOctal(s)
  {
    if s == [] then 0 else 8 * OctalValue(s[..|s| - 1]) + (s[|s| - 1] - ZERO)
  }

  /** Between one and four octal digits, after trimming and dropping the prefix. */
  function ParseMode(s: Text): Option<nat> {
    var t := Bare(TrimStart(TrimEnd(s)));
    if t == [] || |t| > 4 || !IsOctal(t) || OctalValue(t) > 0xFFF then None else Some(OctalValue(t))
  }

  /** At least four octal digits. */
  function Digits(n: nat, width: nat): Text
    decreases width
  {
    if width == 0 then [] else Digits(n / 8, width - 1) + [ZERO + n % 8]
  }

  function FormatMode(n: nat): Text {
    Digits(n, 4)
  }

  function NormalizeMode(s: Text): Option<Text> {
    match ParseMode(s)
    case None => None
    case Some(n) => Some(FormatMode(n))
  }

  function Pow8(k: nat): nat {
    if k == 0 then 1 else 8 * Pow8(k - 1)
  }

  lemma {:induction false} OctalBound(s: Text)
    requires IsOctal(s)
    ensures OctalValue(s) < Pow8(|s|)
  {
    if s != [] {
      OctalBound(s[..|s| - 1]);
    }
  }

  lemma {:induction false} Pow8Grows(i: nat, j: nat)
    requires i <= j
    ensures Pow8(i) <= Pow8(j)
    decreases j
  {
    if i < j { Pow8Grows(i, j - 1); }
  }

  /** The upper limit of 0o7777 never refuses anything: four octal digits cannot exceed it. */
  lemma LimitIsIdle(s: Text)
    requires IsOctal(s) && |s| <= 4
    ensures OctalValue(s) <= 0xFFF
  {
    OctalBound(s);
    Pow8Grows(|s|, 4);
    assert Pow8(1) == 8 && Pow8(2) == 64 && Pow8(3) == 512 && Pow8(4) == 4096;
  }

  lemma {:induction false} DigitsValue(n: nat, width: nat)
    requires n < Pow8(width)
    ensures |Digits(n, width)| == width && IsOctal(Digits(n, width)) && OctalValue(Digits(n, width)) == n
    decreases width
  {
    if width > 0 {
      DigitsValue(n / 8, width - 1);
      var d := Digits(n, width);
      assert d[..width - 1] == Digits(n / 8, width - 1);
    }
  }

  lemma {:induction false} LeadingZero(s: Text)
    requires s != [] && IsOctal(s) && s[0] == ZERO
    ensures OctalValue(s[1..]) == OctalValue(s)
  {
    if |s| > 1 {
      var init := s[..|s| - 1];
      LeadingZero(init);
      assert s[1..][..|s| - 2] == init[1..];
    }
  }

  /** What normalising prints is read back as the same mode. */
  lemma FormattedModeParses(n: nat)
    requires n <= 0xFFF
    ensures ParseMode(FormatMode(n)) == Some(n)
  {
    assert Pow8(1) == 8 && Pow8(2) == 64 && Pow8(3) == 512 && Pow8(4) == 4096;
    DigitsValue(n, 4);
    var s := FormatMode(n);
    if s[0] == ZERO {
      LeadingZero(s);
    }
  }

  /** Normalising keeps the mode, refuses exactly what reading refuses, and changes nothing the second time. */
  lemma NormalizeKeepsMode(s: Text)
    ensures NormalizeMode(s).Some? <==> ParseMode(s).Some?
    ensures NormalizeMode(s).Some? ==> ParseMode(NormalizeMode(s).value) == ParseMode(s)
    ensures NormalizeMode(s).Some? ==> NormalizeMode(NormalizeMode(s).value) == NormalizeMode(s)
    ensures NormalizeMode(s).Some? ==> |NormalizeMode(s).value| == 4 && IsOctal(NormalizeMode(s).value)
  {
    if ParseMode(s).Some? {
      assert Pow8(1) == 8 && Pow8(2) == 64 && Pow8(3) == 512 && Pow8(4) == 4096;
      DigitsValue(ParseMode(s).value, 4);
      FormattedModeParses(ParseMode(s).value);
    }
  }

  // ----- What is read as a mode -----

  predicate AllSpace(s: Text) {
    forall i :: 0 <= i < |s| ==> IsSpace(s[i])
  }

  /** The prefixes of an octal number that reading drops. */
  predicate IsPrefix(s: Text) {
    s == [] || s == [ZERO] || s == [ZERO, LETTER_O] || s == [ZERO, LETTER_O, ZERO]
  }

  /** White space, a prefix, one to four octal digits, white space. */
  predicate Spelt(s: Text, a: Text, prefix: Text, digits: Text, b: Text) {
    && s == a + prefix + digits + b && AllSpace(a) && AllSpace(b) && IsPrefix(prefix)
    && 1 <= |digits| <= 4 && IsOctal(digits)
  }

  lemma {:induction false} TrimStartDrops(a: Text, x: Text)
    requires AllSpace(a) && (x == [] || !IsSpace(x[0]))
    ensures TrimStart(a + x) == x
  {
    if a == [] {
      assert a + x == x;
    } else {
      assert (a + x)[1..] == a[1..] + x;
      TrimStartDrops(a[1..], x);
    }
  }

  lemma {:induction false} TrimEndDrops(x: Text, b: Text)
    requires AllSpace(b) && (x == [] || !IsSpace(x[|x| - 1]))
    ensures TrimEnd(x + b) == x
  {
    if b == [] {
      assert x + b == x;
    } else {
      assert (x + b)[..|x + b| - 1] == x + b[..|b| - 1];
      TrimEndDrops(x, b[..|b| - 1]);
    }
  }

  lemma {:induction false} TrimStartLeft(s: Text) returns (a: Text)
    ensures AllSpace(a) && s == a + TrimStart(s)
  {
    if s != [] && IsSpace(s[0]) {
      var rest := TrimStartLeft(s[1..]);
      a := [s[0]] + rest;
      assert s == [s[0]] + s[1..];
    } else {
      a := [];
    }
  }

  lemma {:induction false} TrimEndLeft(s: Text) returns (b: Text)
    ensures AllSpace(b) && s == TrimEnd(s) + b
  {
    if s != [] && IsSpace(s[|s| - 1]) {
      var rest := TrimEndLeft(s[..|s| - 1]);
      b := rest + [s[|s| - 1]];
      assert s == s[..|s| - 1] + [s[|s| - 1]];
    } else {
      b := [];
    }
  }

  /** Dropping the prefix keeps the value. */
  lemma BareDrops(prefix: Text, digits: Text)
    requires IsPrefix(prefix) && 1 <= |digits| <= 4 && IsOctal(digits)
    ensures var t := Bare(prefix + digits);
            t != [] && |t| <= 4 && IsOctal(t) && OctalValue(t) == OctalValue(digits)
  {
    var t := prefix + digits;
    if digits[0] == ZERO {
      LeadingZero(digits);
    }
    if prefix == [ZERO] {
      assert t[1..] == digits;
    } else if prefix == [ZERO, LETTER_O] {
      assert t[2..] == digits;
    } else if prefix == [ZERO, LETTER_O, ZERO] {
      assert t[2..] == [ZERO] + digits && t[2..][1..] == digits;
    } else {
      assert t == digits;
    }
  }

  lemma SpeltIsRead(s: Text, a: Text, prefix: Text, digits: Text, b: Text)
    requires Spelt(s, a, prefix, digits, b)
    ensures ParseMode(s) == Some(OctalValue(digits))
  {
    var x := prefix + digits;
    assert x[|x| - 1] == digits[|digits| - 1] && !IsSpace(x[0]);
    assert s == a + x + b;
    assert prefix == [] ==> x == digits;
    TrimEndDrops(a + x, b);
    TrimStartDrops(a, x);
    BareDrops(prefix, digits);
    LimitIsIdle(digits);
  }

  lemma ReadIsSpelt(s: Text) returns (a: Text, prefix: Text, digits: Text, b: Text)
    requires ParseMode(s).Some?
    ensures Spelt(s, a, prefix, digits, b)
  {
    b := TrimEndLeft(s);
    a := TrimStartLeft(TrimEnd(s));
    var t := TrimStart(TrimEnd(s));
    digits := Bare(t);
    prefix := BareLeft(t);
    assert a + (prefix + digits) == a + prefix + digits;
  }

  lemma BareLeft(t: Text) returns (prefix: Text)
    ensures IsPrefix(prefix) && t == prefix + Bare(t)
  {
    prefix := t[..|t| - |Bare(t)|];
  }

  /** A mode is read exactly from white space around an optional prefix and one to four octal digits,
      and its value is that of the digits. */
  lemma ModeSpelling(s: Text, n: nat)
    ensures ParseMode(s) == Some(n)
            <==> exists a, prefix, digits, b :: Spelt(s, a, prefix, digits, b) && OctalValue(digits) == n
  {
    if ParseMode(s) == Some(n) {
      var a, prefix, digits, b := ReadIsSpelt(s);
      SpeltIsRead(s, a, prefix, digits, b);
    }
    if a, prefix, digits, b :| Spelt(s, a, prefix, digits, b) && OctalValue(digits) == n {
      SpeltIsRead(s, a, prefix, digits, b);
    }
  }
}

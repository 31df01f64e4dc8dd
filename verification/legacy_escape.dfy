/**
 The legacy global `unescape` of section B.2.1.2 of ECMA-262, which the
 parser applies to every key and value, and its inverse `escape` of section
 B.2.1.1, kept as the partner that `unescape` undoes.
 */
module LegacyEscape {
  import opened JsText

  predicate IsHexDigit(c: CodeUnit) {
    (0x30 <= c <= 0x39) || (0x41 <= c <= 0x46) || (0x61 <= c <= 0x66)
  }

  function DigitValue(c: CodeUnit): (n: nat)
    requires IsHexDigit(c)
    ensures n < 16
  {
    if c <= 0x39 then (c - 0x30) as nat
    else if c <= 0x46 then (c - 0x41 + 10) as nat
    else (c - 0x61 + 10) as nat
  }

  predicate AllHex(s: JsString) {
    forall i :: 0 <= i < |s| ==> IsHexDigit(s[i])
  }

  /** The number a two- or four-digit `HexDigits` sequence denotes; it is
      always one code unit. */
  function HexValue(s: JsString): (c: CodeUnit)
    requires AllHex(s) && (|s| == 2 || |s| == 4)
  {
    if |s| == 2 then (16 * DigitValue(s[0]) + DigitValue(s[1])) as CodeUnit
    else (4096 * DigitValue(s[0]) + 256 * DigitValue(s[1]) + 16 * DigitValue(s[2]) + DigitValue(s[3])) as CodeUnit
  }

  /** One step of the algorithm at the head of `s`: the code unit it emits
      and how many further units it consumes (5 for `%uXXXX`, 2 for `%XX`,
      0 otherwise). */
  function DecodeHead(s: JsString): (d: (CodeUnit, nat))
    requires |s| > 0
    ensures 1 + d.1 <= |s|
    ensures d.1 == 0 || d.1 == 2 || d.1 == 5
    ensures s[0] != PERCENT ==> d == (s[0], 0)
  {
    if s[0] != PERCENT then (s[0], 0)
    else if 6 <= |s| && s[1] == LOWER_U then
      (if AllHex(s[2..6]) then (HexValue(s[2..6]), 5) else (s[0], 0))
    else if 3 <= |s| then
      (if AllHex(s[1..3]) then (HexValue(s[1..3]), 2) else (s[0], 0))
    else (s[0], 0)
  }

  /** `unescape(s)` on a string argument. */
  function Unescape(s: JsString): (r: JsString)
    ensures |r| <= |s| <= 6 * |r|
    decreases |s|
  {
    if |s| == 0 then []
    else
      var d := DecodeHead(s);
      [d.0] + Unescape(s[1 + d.1..])
  }

  /** Text without '%' is left as it is. */
  lemma {:induction false} UnescapeWithoutPercent(s: JsString)
    requires PERCENT !in s
    ensures Unescape(s) == s
    decreases |s|
  {
    if |s| > 0 {
      UnescapeWithoutPercent(s[1..]);
      assert [s[0]] + s[1..] == s;
    }
  }

  /** `unescape(v)` on any primitive: the argument is first converted with
      `ToString`, so `unescape(true)` is the string "true". */
  function UnescapeValue(v: Value): (r: JsString)
    requires v.IsPrimitive()
    ensures v.Str? ==> r == Unescape(v.s)
    ensures v == Bool(true) ==> r == TRUE_TEXT
    ensures v == Undefined ==> r == UNDEFINED_TEXT
  {
    LiteralsHaveNoPercent();
    UnescapeWithoutPercent(TRUE_TEXT);
    UnescapeWithoutPercent(UNDEFINED_TEXT);
    Unescape(ToString(v))
  }

  lemma LiteralsHaveNoPercent()
    ensures PERCENT !in TRUE_TEXT
    ensures PERCENT !in UNDEFINED_TEXT
  {
    var t := TRUE_TEXT;
    var u := UNDEFINED_TEXT;
    assert forall i :: 0 <= i < |t| ==> t[i] != PERCENT;
    assert forall i :: 0 <= i < |u| ==> u[i] != PERCENT;
  }

  /** The algorithm as section B.2.1.2 writes it: an index `k` walks the
      string and an accumulator `R` collects the emitted code units. */
  method UnescapeSteps(s: JsString) returns (r: JsString)
    ensures r == Unescape(s)
  {
    r := [];
    var k := 0;
    assert s[k..] == s;
    while k != |s|
      invariant 0 <= k <= |s|
      invariant r + Unescape(s[k..]) == Unescape(s)
      decreases |s| - k
    {
      var c, skip := StepAt(s, k);
      UnescapeAt(s, k, c, skip);
      assert (r + [c]) + Unescape(s[k + 1 + skip..]) == r + ([c] + Unescape(s[k + 1 + skip..]));
      r := r + [c];
      k := k + 1 + skip;
    }
    assert s[k..] == [];
  }

  /** Steps 5.a-5.b of section B.2.1.2 at index `k`: the code unit to emit
      and how far beyond it `k` moves. */
  method StepAt(s: JsString, k: nat) returns (c: CodeUnit, skip: nat)
    requires k < |s|
    ensures (c, skip) == DecodeHead(s[k..])
  {
    c, skip := s[k], 0;
    DecodeHeadAt(s, k);
    if c == PERCENT {
      if k + 6 <= |s| && s[k + 1] == LOWER_U {
        var hexEscape := s[k + 2..k + 6];
        if AllHex(hexEscape) {
          c, skip := HexValue(hexEscape), 5;
        }
      } else if k + 3 <= |s| {
        var hexEscape := s[k + 1..k + 3];
        if AllHex(hexEscape) {
          c, skip := HexValue(hexEscape), 2;
        }
      }
    }
  }

  /** `DecodeHead` on a suffix, read off the indices of the whole string. */
  lemma DecodeHeadAt(s: JsString, k: nat)
    requires k < |s|
    ensures DecodeHead(s[k..]) ==
      if s[k] != PERCENT then (s[k], 0)
      else if k + 6 <= |s| && s[k + 1] == LOWER_U then
        (if AllHex(s[k + 2..k + 6]) then (HexValue(s[k + 2..k + 6]), 5) else (s[k], 0))
      else if k + 3 <= |s| then
        (if AllHex(s[k + 1..k + 3]) then (HexValue(s[k + 1..k + 3]), 2) else (s[k], 0))
      else (s[k], 0)
  {
    var t := s[k..];
    if k + 6 <= |s| {
      assert t[2..6] == s[k + 2..k + 6];
    }
    if k + 3 <= |s| {
      assert t[1..3] == s[k + 1..k + 3];
    }
  }

  /** One unfolding of `Unescape` on the suffix starting at `k`. */
  lemma UnescapeAt(s: JsString, k: nat, c: CodeUnit, skip: nat)
    requires k < |s| && (c, skip) == DecodeHead(s[k..])
    ensures k + 1 + skip <= |s|
    ensures Unescape(s[k..]) == [c] + Unescape(s[k + 1 + skip..])
  {
    var t := s[k..];
    assert t[1 + skip..] == s[k + 1 + skip..];
  }

  // ---- escape (section B.2.1.1), the inverse partner ----

  /** The units `escape` leaves alone: A-Z a-z 0-9 @ * _ + - . / */
  predicate IsUnescaped(c: CodeUnit) {
    (0x41 <= c <= 0x5A) || (0x61 <= c <= 0x7A) || (0x30 <= c <= 0x39)
    || c == 0x40 || c == 0x2A || c == 0x5F || c == 0x2B || c == 0x2D || c == 0x2E || c == 0x2F
  }

  /** The upper-case hexadecimal digit for `n`. */
  function HexDigit(n: nat): (c: CodeUnit)
    requires n < 16
    ensures IsHexDigit(c) && DigitValue(c) == n
    ensures c != LOWER_U
  {
    if n < 10 then (0x30 + n) as CodeUnit else (0x41 + n - 10) as CodeUnit
  }

  function EscapeUnit(c: CodeUnit): (r: JsString)
    ensures IsUnescaped(c) ==> r == [c]
    ensures !IsUnescaped(c) ==> (|r| == 3 || |r| == 6) && r[0] == PERCENT && (|r| == 6 ==> r[1] == LOWER_U)
  {
    var n := c as nat;
    if IsUnescaped(c) then [c]
    else if n < 256 then [PERCENT, HexDigit(n / 16), HexDigit(n % 16)]
    else [PERCENT, LOWER_U, HexDigit(n / 4096), HexDigit(n / 256 % 16), HexDigit(n / 16 % 16), HexDigit(n % 16)]
  }

  /** `escape(s)`. */
  function Escape(s: JsString): (r: JsString)
    ensures |r| >= |s|
    decreases |s|
  {
    if |s| == 0 then [] else EscapeUnit(s[0]) + Escape(s[1..])
  }

  lemma UnescapeKeptUnit(c: CodeUnit, rest: JsString)
    requires IsUnescaped(c)
    ensures Unescape([c] + rest) == [c] + Unescape(rest)
  {
    var s := [c] + rest;
    assert s[0] == c && c != PERCENT && s[1..] == rest;
  }

  lemma UnescapeTwoDigits(c: CodeUnit, rest: JsString)
    requires c < 256
    ensures var e := [PERCENT, HexDigit(c as nat / 16), HexDigit(c as nat % 16)];
      Unescape(e + rest) == [c] + Unescape(rest)
  {
    var e := [PERCENT, HexDigit(c as nat / 16), HexDigit(c as nat % 16)];
    var s := e + rest;
    assert s[0] == PERCENT && s[1] != LOWER_U;
    assert s[1..3] == e[1..3];
    assert HexValue(s[1..3]) == c;
    assert DecodeHead(s) == (c, 2);
    assert s[3..] == rest;
  }

  lemma UnescapeFourDigits(c: CodeUnit, rest: JsString)
    ensures var n := c as nat;
      var e := [PERCENT, LOWER_U, HexDigit(n / 4096), HexDigit(n / 256 % 16), HexDigit(n / 16 % 16), HexDigit(n % 16)];
      Unescape(e + rest) == [c] + Unescape(rest)
  {
    var n := c as nat;
    var e := [PERCENT, LOWER_U, HexDigit(n / 4096), HexDigit(n / 256 % 16), HexDigit(n / 16 % 16), HexDigit(n % 16)];
    var s := e + rest;
    FourDigits(n);
    assert s[0] == PERCENT && s[1] == LOWER_U;
    assert s[2..6] == e[2..6];
    assert HexValue(s[2..6]) == c;
    assert DecodeHead(s) == (c, 5);
    assert s[6..] == rest;
  }

  lemma FourDigits(n: nat)
    requires n < 0x1_0000
    ensures 4096 * (n / 4096) + 256 * (n / 256 % 16) + 16 * (n / 16 % 16) + n % 16 == n
  {
    var a := n / 16;
    var b := a / 16;
    assert n == 16 * a + n % 16;
    assert a == 16 * b + a % 16;
    assert b == 16 * (b / 16) + b % 16;
    assert b == n / 256 && b / 16 == n / 4096 && b % 16 == n / 256 % 16;
  }

  /** Decoding the escape of one unit yields that unit, whatever follows. */
  lemma UnescapeEscapeUnit(c: CodeUnit, rest: JsString)
    ensures Unescape(EscapeUnit(c) + rest) == [c] + Unescape(rest)
  {
    if IsUnescaped(c) {
      UnescapeKeptUnit(c, rest);
    } else if c < 256 {
      UnescapeTwoDigits(c, rest);
    } else {
      UnescapeFourDigits(c, rest);
    }
  }

  /** `unescape(escape(s)) == s` for every string. */
  lemma {:induction false} UnescapeEscape(s: JsString)
    ensures Unescape(Escape(s)) == s
    decreases |s|
  {
    if |s| > 0 {
      UnescapeEscape(s[1..]);
      UnescapeEscapeUnit(s[0], Escape(s[1..]));
      assert [s[0]] + s[1..] == s;
    }
  }
}

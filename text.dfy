/** The string primitives the two schemas rely on: ECMAScript white space
    (what `String.prototype.trim` removes and what the regular-expression
    class `\s` matches), `trim`, lower-casing restricted to ASCII, the
    regular-expression word class `\w`, and decimal digits. */
module Text {

  /** ECMAScript WhiteSpace and LineTerminator code points (sections 12.2
      and 12.3 of ECMA-262): tab, line feed, vertical tab, form feed,
      carriage return, space, no-break space, the Zs space separators,
      line and paragraph separator, and the byte order mark. */
  predicate IsJsWhitespace(c: char) {
    var n := c as int;
    || (0x9 <= n <= 0xD) || n == 0x20 || n == 0xA0 || n == 0x1680
    || (0x2000 <= n <= 0x200A) || n == 0x2028 || n == 0x2029 || n == 0x202F
    || n == 0x205F || n == 0x3000 || n == 0xFEFF
  }

  // Character classes are written on code points: comparisons of `char`
  // values directly make the solver's work grow sharply.

  predicate IsUpperAscii(c: char) { var n := c as int; 0x41 <= n <= 0x5A }

  /** The regular-expression word class `\w`, that is `[A-Za-z0-9_]`;
      everything else, including every non-ASCII character, is `\W`. */
  predicate IsWordChar(c: char) {
    var n := c as int;
    (0x61 <= n <= 0x7A) || (0x41 <= n <= 0x5A) || (0x30 <= n <= 0x39) || n == 0x5F
  }

  predicate IsDigit(c: char) { var n := c as int; 0x30 <= n <= 0x39 }

  predicate NoWhitespace(s: string) {
    forall i :: 0 <= i < |s| ==> !IsJsWhitespace(s[i])
  }

  /** Neither end of `s` is white space: what `trim` leaves behind. */
  predicate IsTrimmed(s: string) {
    s == [] || (!IsJsWhitespace(s[0]) && !IsJsWhitespace(s[|s| - 1]))
  }

  // ---------------------------------------------------------------------
  // trim

  // The facts about `TrimStart`, `TrimEnd` and `Trim` are lemmas rather
  // than postconditions: as postconditions they would come along with every
  // trimmed field of a document, whether a proof needs them or not.

  /** `s` without its leading white space. */
  function TrimStart(s: string): string {
    if s != [] && IsJsWhitespace(s[0]) then TrimStart(s[1..]) else s
  }

  /** `TrimStart` removes a run of white space from the front, and no more. */
  lemma {:induction false} TrimStartSpec(s: string)
    ensures var r := TrimStart(s);
      && |r| <= |s| && r == s[|s| - |r|..]
      && (forall k :: 0 <= k < |s| - |r| ==> IsJsWhitespace(s[k]))
      && (r != [] ==> !IsJsWhitespace(r[0]))
    decreases |s|
  {
    if s != [] && IsJsWhitespace(s[0]) {
      TrimStartSpec(s[1..]);
    }
  }

  /** `s` without its trailing white space. */
  function TrimEnd(s: string): string {
    if s != [] && IsJsWhitespace(s[|s| - 1]) then TrimEnd(s[..|s| - 1]) else s
  }

  /** `TrimEnd` removes a run of white space from the back, and no more. */
  lemma {:induction false} TrimEndSpec(s: string)
    ensures var r := TrimEnd(s);
      && |r| <= |s| && r == s[..|r|]
      && (forall k :: |r| <= k < |s| ==> IsJsWhitespace(s[k]))
      && (r != [] ==> !IsJsWhitespace(r[|r| - 1]))
    decreases |s|
  {
    if s != [] && IsJsWhitespace(s[|s| - 1]) {
      TrimEndSpec(s[..|s| - 1]);
    }
  }

  /** `r` is the part of `s` that starts at `i`, and everything of `s`
      before and after that part is white space. */
  predicate WhitespaceAround(s: string, i: int, r: string) {
    && 0 <= i <= |s| - |r| && r == s[i..i + |r|]
    && (forall k :: 0 <= k < i ==> IsJsWhitespace(s[k]))
    && (forall k :: i + |r| <= k < |s| ==> IsJsWhitespace(s[k]))
  }

  /** `String.prototype.trim`. */
  function Trim(s: string): string {
    TrimEnd(TrimStart(s))
  }

  /** `Trim(s)` neither starts nor ends with white space and is surrounded
      in `s` only by white space. */
  lemma TrimSpec(s: string)
    ensures IsTrimmed(Trim(s))
    ensures exists i :: WhitespaceAround(s, i, Trim(s))
  {
    var t := TrimStart(s);
    TrimStartSpec(s);
    TrimEndSpec(t);
    var r := TrimEnd(t);
    if r != [] {
      assert r[0] == t[0];
    }
    TrimSurroundings(s, t, r);
  }

  lemma TrimSurroundings(s: string, t: string, r: string)
    requires |t| <= |s| && t == s[|s| - |t|..]
    requires forall k :: 0 <= k < |s| - |t| ==> IsJsWhitespace(s[k])
    requires |r| <= |t| && r == t[..|r|]
    requires forall k :: |r| <= k < |t| ==> IsJsWhitespace(t[k])
    ensures WhitespaceAround(s, |s| - |t|, r)
  {
    var i := |s| - |t|;
    assert forall k :: 0 <= k < |r| ==> r[k] == s[i + k];
    assert forall k :: i + |r| <= k < |s| ==> s[k] == t[k - i];
  }

  /** A string that is already trimmed is left alone. */
  lemma {:induction false} TrimOfTrimmed(s: string)
    requires IsTrimmed(s)
    ensures Trim(s) == s
  {
    assert TrimStart(s) == s;
    assert TrimEnd(s) == s;
  }

  /** Trimming twice is trimming once. */
  lemma TrimIdempotent(s: string)
    ensures Trim(Trim(s)) == Trim(s)
  {
    TrimSpec(s);
    TrimOfTrimmed(Trim(s));
  }

  // ---------------------------------------------------------------------
  // ASCII lower case

  function LowerChar(c: char): (d: char)
    ensures IsUpperAscii(c) ==> d as int == c as int + 32
    ensures !IsUpperAscii(c) ==> d == c
  {
    if IsUpperAscii(c) then (c as int + 32) as char else c
  }

  /** `String.prototype.toLowerCase`, restricted to ASCII: every letter
      `A`..`Z` becomes its lower-case form, every other character stays. */
  function LowerAscii(s: string): (r: string)
    ensures |r| == |s|
    ensures forall i :: 0 <= i < |s| ==> r[i] == LowerChar(s[i])
  {
    seq(|s|, i requires 0 <= i < |s| => LowerChar(s[i]))
  }

  predicate NoUpperAscii(s: string) {
    forall i :: 0 <= i < |s| ==> !IsUpperAscii(s[i])
  }

  /** The result of `LowerAscii` has no upper-case ASCII letter, and a string
      without one is its own lower-case form. */
  lemma LowerAsciiNormalises(s: string)
    ensures NoUpperAscii(LowerAscii(s))
    ensures NoUpperAscii(s) ==> LowerAscii(s) == s
  {
  }

  /** Lower-casing changes no character's class: white space stays white
      space and word characters stay word characters. */
  lemma LowerCharKeepsClasses(c: char)
    ensures IsJsWhitespace(LowerChar(c)) == IsJsWhitespace(c)
    ensures IsWordChar(LowerChar(c)) == IsWordChar(c)
  {
  }

  lemma {:induction false} TrimStartLower(s: string)
    ensures TrimStart(LowerAscii(s)) == LowerAscii(TrimStart(s))
    decreases |s|
  {
    if s != [] {
      LowerCharKeepsClasses(s[0]);
      if IsJsWhitespace(s[0]) {
        assert LowerAscii(s)[1..] == LowerAscii(s[1..]);
        TrimStartLower(s[1..]);
      }
    }
  }

  lemma {:induction false} TrimEndLower(s: string)
    ensures TrimEnd(LowerAscii(s)) == LowerAscii(TrimEnd(s))
    decreases |s|
  {
    if s != [] {
      LowerCharKeepsClasses(s[|s| - 1]);
      if IsJsWhitespace(s[|s| - 1]) {
        assert LowerAscii(s)[..|s| - 1] == LowerAscii(s[..|s| - 1]);
        TrimEndLower(s[..|s| - 1]);
      }
    }
  }

  /** Trimming and lower-casing commute, so the order in which a schema
      applies its `trim` and `lowercase` setters does not matter. */
  lemma TrimLowerCommute(s: string)
    ensures Trim(LowerAscii(s)) == LowerAscii(Trim(s))
  {
    TrimStartLower(s);
    TrimEndLower(TrimStart(s));
  }

  // ---------------------------------------------------------------------
  // decimal digits

  function DigitChar(d: nat): (c: char)
    requires d < 10
    ensures IsDigit(c) && DigitValue(c) == d
  {
    ('0' as int + d) as char
  }

  function DigitValue(c: char): nat
    requires IsDigit(c)
  {
    c as int - '0' as int
  }

  predicate AllDigits(s: string) {
    forall i :: 0 <= i < |s| ==> IsDigit(s[i])
  }

  /** The number a string of decimal digits denotes. */
  function DigitsValue(s: string): nat
    requires AllDigits(s)
  {
    if s == [] then 0 else 10 * DigitsValue(s[..|s| - 1]) + DigitValue(s[|s| - 1])
  }

  /** A string of `k` digits denotes a number below `10^k`. */
  lemma {:induction false} DigitsBelow(s: string)
    requires AllDigits(s)
    ensures DigitsValue(s) < Pow10(|s|)
    decreases |s|
  {
    if s != [] {
      DigitsBelow(s[..|s| - 1]);
    }
  }

  function Pow10(k: nat): (p: nat)
    ensures p >= 1
  {
    if k == 0 then 1 else 10 * Pow10(k - 1)
  }

  /** `String(n)` for a non-negative integer: its decimal digits with no
      leading zero (a single `0` for zero). */
  function DecimalString(n: nat): (r: string)
    ensures |r| >= 1 && AllDigits(r) && DigitsValue(r) == n
    decreases n
  {
    var last := DigitChar(n % 10);
    if n < 10 then [last]
    else
      var r := DecimalString(n / 10) + [last];
      assert r[..|r| - 1] == DecimalString(n / 10);
      r
  }

  /** The decimal form of a number below `10^k` has at most `k` digits. */
  lemma {:induction false} DecimalStringLength(n: nat, k: nat)
    requires 1 <= k && n < Pow10(k)
    ensures |DecimalString(n)| <= k
    decreases k
  {
    if n >= 10 {
      DecimalStringLength(n / 10, k - 1);
    }
  }

  /** `String.prototype.padStart(width, '0')`: `s` unchanged when it is at
      least `width` long, otherwise `s` after enough zeros to reach `width`. */
  function PadStartZeros(s: string, width: nat): (r: string)
    ensures |r| == if |s| >= width then |s| else width
    ensures r[|r| - |s|..] == s
    ensures forall i :: 0 <= i < |r| - |s| ==> r[i] == '0'
  {
    if |s| >= width then s else "0" + PadStartZeros(s, width - 1)
  }

  /** Leading zeros do not change the value of a digit string. */
  lemma {:induction false} LeadingZerosValue(z: string, s: string)
    requires forall i :: 0 <= i < |z| ==> z[i] == '0'
    requires AllDigits(s)
    ensures AllDigits(z + s) && DigitsValue(z + s) == DigitsValue(s)
    decreases |s|
  {
    if s == [] {
      ZerosValue(z);
      assert z + s == z;
    } else {
      var u := (z + s)[..|z + s| - 1];
      assert u == z + s[..|s| - 1];
      LeadingZerosValue(z, s[..|s| - 1]);
    }
  }

  lemma {:induction false} ZerosValue(z: string)
    requires forall i :: 0 <= i < |z| ==> z[i] == '0'
    ensures AllDigits(z) && DigitsValue(z) == 0
    decreases |z|
  {
    if z != [] {
      ZerosValue(z[..|z| - 1]);
    }
  }

  /** Zero-padding a number below `10^width` gives exactly `width` digits
      that still denote that number. */
  lemma PaddedDecimal(n: nat, width: nat)
    requires 1 <= width && n < Pow10(width)
    ensures |PadStartZeros(DecimalString(n), width)| == width
    ensures AllDigits(PadStartZeros(DecimalString(n), width))
    ensures DigitsValue(PadStartZeros(DecimalString(n), width)) == n
  {
    var s := DecimalString(n);
    DecimalStringLength(n, width);
    var r := PadStartZeros(s, width);
    var z := r[..|r| - |s|];
    assert r == z + s;
    LeadingZerosValue(z, s);
  }
}

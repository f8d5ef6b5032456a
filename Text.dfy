/** The JavaScript string operations the components rely on: `trim`, the
    regular-expression class `\s`, `toLowerCase`, `includes` and `parseInt`. */
module Text {
  import opened Types

  /** ECMAScript line terminators (what `.` in a regular expression does not match). */
  predicate IsLineTerminator(c: char) {
    c == '\n' || c == '\r' || c == '\U{2028}' || c == '\U{2029}'
  }

  /** ECMAScript white space and line terminators: the class `\s`, and what
      `trim` strips. */
  predicate IsWhitespace(c: char) {
    || IsLineTerminator(c)
    || c == '\t' || c == '\U{B}' || c == '\U{C}' || c == ' ' || c == '\U{A0}'
    || c == '\U{1680}' || ('\U{2000}' <= c <= '\U{200A}')
    || c == '\U{202F}' || c == '\U{205F}' || c == '\U{3000}' || c == '\U{FEFF}'
  }

  // ---------------------------------------------------------------------
  // UTF-16 code units

  /** A character outside the Basic Multilingual Plane, which a JavaScript
      string holds as two code units (a surrogate pair). */
  predicate IsAstral(c: char) {
    c as int > 0xFFFF
  }

  /** The UTF-16 code units of one character: itself, or a high then a low surrogate. */
  function Utf16(c: char): (u: seq<int>)
    ensures !IsAstral(c) ==> u == [c as int]
    ensures IsAstral(c) ==> |u| == 2 && 0xD800 <= u[0] < 0xDC00 && 0xDC00 <= u[1] < 0xE000
  {
    if c as int <= 0xFFFF then [c as int]
    else
      var v := c as int - 0x10000;
      [0xD800 + v / 0x400, 0xDC00 + v % 0x400]
  }

  /** The string as JavaScript sees it: its UTF-16 code units. */
  function CodeUnits(s: string): seq<int> {
    if s == [] then [] else Utf16(s[0]) + CodeUnits(s[1..])
  }

  /** A code unit that is a character by itself, not half of a surrogate pair. */
  predicate IsBmpScalar(u: int) {
    0 <= u < 0xD800 || 0xE000 <= u < 0x10000
  }

  /** `\s` on a code unit; a surrogate half is never white space. */
  predicate IsWhitespaceUnit(u: int) {
    IsBmpScalar(u) && IsWhitespace(u as char)
  }

  /** A code unit that `.` does not match. */
  predicate IsLineTerminatorUnit(u: int) {
    IsBmpScalar(u) && IsLineTerminator(u as char)
  }

  /** `[^\s]*` over the whole string, character by character. */
  predicate NoWhitespace(s: string) {
    forall k :: 0 <= k < |s| ==> !IsWhitespace(s[k])
  }

  /** `[^\s]*` over the whole string, code unit by code unit. */
  predicate NoWhitespaceUnit(u: seq<int>) {
    forall k :: 0 <= k < |u| ==> !IsWhitespaceUnit(u[k])
  }

  /** One character's code units hold white space exactly when the character is white space. */
  lemma Utf16Whitespace(c: char)
    ensures NoWhitespaceUnit(Utf16(c)) <==> !IsWhitespace(c)
  {
    if !IsAstral(c) {
      assert (c as int) as char == c;
      assert Utf16(c)[0] == c as int;
    }
  }

  /** A run of code units is free of white space exactly when both of its parts are. */
  lemma NoWhitespaceUnitConcat(u: seq<int>, us: seq<int>)
    ensures NoWhitespaceUnit(u + us) <==> NoWhitespaceUnit(u) && NoWhitespaceUnit(us)
  {
    if NoWhitespaceUnit(u + us) {
      forall k | 0 <= k < |u| ensures !IsWhitespaceUnit(u[k]) {
        assert (u + us)[k] == u[k];
      }
      forall k | 0 <= k < |us| ensures !IsWhitespaceUnit(us[k]) {
        assert (u + us)[|u| + k] == us[k];
      }
    }
    if NoWhitespaceUnit(u) && NoWhitespaceUnit(us) {
      forall k | 0 <= k < |u + us| ensures !IsWhitespaceUnit((u + us)[k]) {
        if k >= |u| {
          assert (u + us)[k] == us[k - |u|];
        }
      }
    }
  }

  /** A string is free of white space exactly when its first character and the rest are. */
  lemma NoWhitespaceCons(s: string)
    requires s != []
    ensures NoWhitespace(s) <==> !IsWhitespace(s[0]) && NoWhitespace(s[1..])
  {
    if !IsWhitespace(s[0]) && NoWhitespace(s[1..]) {
      forall k | 1 <= k < |s| ensures !IsWhitespace(s[k]) {
        assert s[k] == s[1..][k - 1];
      }
    }
  }

  /** A string has no white-space code unit exactly when it has no white-space character. */
  lemma {:induction false} NoWhitespaceUnits(s: string)
    ensures NoWhitespaceUnit(CodeUnits(s)) <==> NoWhitespace(s)
  {
    if s != [] {
      NoWhitespaceUnits(s[1..]);
      assert CodeUnits(s) == Utf16(s[0]) + CodeUnits(s[1..]);
      Utf16Whitespace(s[0]);
      NoWhitespaceUnitConcat(Utf16(s[0]), CodeUnits(s[1..]));
      NoWhitespaceCons(s);
    }
  }

  /** Every character is white space (so `!s.trim()` holds). */
  predicate IsBlank(s: string) {
    forall i :: 0 <= i < |s| ==> IsWhitespace(s[i])
  }

  /** `String.prototype.trimStart`: the longest suffix that does not start with white space. */
  function TrimStart(s: string): (r: string)
    ensures |r| <= |s| && r == s[|s| - |r|..]
    ensures IsBlank(s[..|s| - |r|])
    ensures r == [] || !IsWhitespace(r[0])
  {
    if s == [] || !IsWhitespace(s[0]) then s
    else
      var r := TrimStart(s[1..]);
      assert s[1..][..|s| - 1 - |r|] == s[1..|s| - |r|];
      r
  }

  /** `String.prototype.trimEnd`: the longest prefix that does not end with white space. */
  function TrimEnd(s: string): (r: string)
    ensures |r| <= |s| && r == s[..|r|]
    ensures IsBlank(s[|r|..])
    ensures r == [] || !IsWhitespace(r[|r| - 1])
  {
    if s == [] || !IsWhitespace(s[|s| - 1]) then s
    else
      var r := TrimEnd(s[..|s| - 1]);
      assert s[..|s| - 1][..|r|] == s[..|r|];
      assert s[|r|..] == s[..|s| - 1][|r|..] + [s[|s| - 1]];
      r
  }

  /** `String.prototype.trim`. */
  function Trim(s: string): string {
    TrimEnd(TrimStart(s))
  }

  /** `s.trim()` is the empty (falsy) string exactly when `s` is blank. */
  lemma TrimEmptyIffBlank(s: string)
    ensures Trim(s) == "" <==> IsBlank(s)
  {
    var t := TrimStart(s);
    if Trim(s) == "" {
      assert IsBlank(t[0..]);
      assert s == s[..|s| - |t|] + t;
    } else {
      var u := Trim(s);
      assert !IsWhitespace(u[0]);
      assert u[0] == s[|s| - |t|];
    }
  }

  /** `toLowerCase` on the ASCII letters; every other character is kept. */
  function LowerChar(c: char): char {
    if 'A' <= c <= 'Z' then (c as int + 32) as char else c
  }

  function Lower(s: string): (r: string)
    ensures |r| == |s|
    ensures forall i :: 0 <= i < |s| ==> r[i] == LowerChar(s[i])
  {
    if s == [] then [] else [LowerChar(s[0])] + Lower(s[1..])
  }

  /** A possibly missing string is truthy: present and not empty. */
  predicate Truthy(a: Option<string>) {
    a.Some? && a.value != ""
  }

  /** `a || b` on possibly missing strings: `a` when truthy, otherwise `b`. */
  function Or(a: Option<string>, b: Option<string>): (r: Option<string>)
    ensures Truthy(a) ==> r == a
    ensures !Truthy(a) ==> r == b
  {
    if Truthy(a) then a else b
  }

  /** `p` occurs in `s` starting at offset `i`. */
  predicate OccursAt(s: string, p: string, i: int) {
    0 <= i <= |s| - |p| && s[i..i + |p|] == p
  }

  /** `s.includes(p)`: `p` occurs in `s` at some offset. */
  predicate Contains(s: string, p: string) {
    exists i :: 0 <= i <= |s| - |p| && OccursAt(s, p, i)
  }

  /** Every string includes the empty string. */
  lemma ContainsEmpty(s: string)
    ensures Contains(s, "")
  {
    assert OccursAt(s, "", 0);
  }

  /** A string includes itself. */
  lemma ContainsSelf(s: string)
    ensures Contains(s, s)
  {
    assert OccursAt(s, s, 0);
  }

  /** The search test of the list pages: the lower-cased query is included in
      the lower-cased form of at least one of the record's fields. */
  predicate MatchesAny(fields: seq<string>, query: string) {
    exists i :: 0 <= i < |fields| && Contains(Lower(fields[i]), Lower(query))
  }

  /** The empty query matches every record that has a field to search. */
  lemma EmptyQueryMatches(fields: seq<string>)
    requires |fields| > 0
    ensures MatchesAny(fields, "")
  {
    ContainsEmpty(Lower(fields[0]));
    assert Lower("") == "";
  }

  // ---------------------------------------------------------------------
  // parseInt

  predicate IsDecimalDigit(c: char) {
    '0' <= c <= '9'
  }

  /** Value of `c` as a digit in base 16, if it is one. */
  function HexDigitValue(c: char): Option<int> {
    if '0' <= c <= '9' then Some(c as int - '0' as int)
    else if 'a' <= c <= 'f' then Some(c as int - 'a' as int + 10)
    else if 'A' <= c <= 'F' then Some(c as int - 'A' as int + 10)
    else None
  }

  /** Value of `c` as a digit in `radix` (10 or 16), if it is one. */
  function DigitValue(c: char, radix: int): Option<int>
    requires radix == 10 || radix == 16
  {
    if radix == 10 then (if IsDecimalDigit(c) then Some(c as int - '0' as int) else None)
    else HexDigitValue(c)
  }

  /** Number of leading characters of `s` that are digits in `radix`. */
  function DigitRun(s: string, radix: int): (n: nat)
    requires radix == 10 || radix == 16
    ensures n <= |s|
    ensures forall i :: 0 <= i < n ==> DigitValue(s[i], radix).Some?
    ensures n < |s| ==> DigitValue(s[n], radix).None?
  {
    if s == [] || DigitValue(s[0], radix).None? then 0 else 1 + DigitRun(s[1..], radix)
  }

  /** Positional value of a run of digits, most significant first. */
  function DigitsValue(ds: string, radix: int): (v: nat)
    requires radix == 10 || radix == 16
    requires forall i :: 0 <= i < |ds| ==> DigitValue(ds[i], radix).Some?
  {
    if ds == [] then 0
    else
      var d := DigitValue(ds[|ds| - 1], radix).value;
      assert 0 <= d;
      DigitsValue(ds[..|ds| - 1], radix) * radix + d
  }

  /** `parseInt(s)` with no radix: skip leading white space, read an optional
      sign, read base 16 after a `0x`/`0X` prefix and base 10 otherwise, and stop
      at the first non-digit. `None` stands for NaN (no digit at all). */
  function ParseInt(s: string): Option<int> {
    var t := TrimStart(s);
    var negative := |t| > 0 && t[0] == '-';
    var u := if |t| > 0 && (t[0] == '-' || t[0] == '+') then t[1..] else t;
    var hex := |u| >= 2 && u[0] == '0' && (u[1] == 'x' || u[1] == 'X');
    var radix := if hex then 16 else 10;
    var body := if hex then u[2..] else u;
    match ReadDigits(body, radix)
    case None => None
    case Some(v) => var w: int := v; Some(if negative then -w else w)
  }

  /** The value of the leading digits of `body`, or `None` when it does not
      start with a digit. */
  function ReadDigits(body: string, radix: int): Option<nat>
    requires radix == 10 || radix == 16
  {
    var n := DigitRun(body, radix);
    if n == 0 then None
    else
      assert forall i :: 0 <= i < n ==> DigitValue(body[..n][i], radix).Some?;
      Some(DigitsValue(body[..n], radix))
  }

  /** `parseInt(s) || 0`: NaN (and 0) become 0. */
  function IntOrZero(s: string): (n: int)
    ensures ParseInt(s).None? ==> n == 0
    ensures ParseInt(s).Some? ==> n == ParseInt(s).value
  {
    match ParseInt(s)
    case None => 0
    case Some(v) => v
  }

  /** The decimal digits of a natural number, as a number input displays it. */
  function DecimalDigits(n: nat): (s: string)
    ensures |s| > 0
    ensures forall i :: 0 <= i < |s| ==> IsDecimalDigit(s[i])
    ensures |s| > 1 ==> s[0] != '0'
    decreases n
  {
    if n < 10 then [('0' as int + n) as char]
    else DecimalDigits(n / 10) + [('0' as int + n % 10) as char]
  }

  /** How an integer is written out: a minus sign before the digits of its magnitude. */
  function DecimalString(n: int): string {
    if n < 0 then "-" + DecimalDigits(-n) else DecimalDigits(n)
  }

  lemma {:induction false} DecimalDigitsValue(n: nat)
    ensures DigitsValue(DecimalDigits(n), 10) == n
    decreases n
  {
    var s := DecimalDigits(n);
    if n >= 10 {
      DecimalDigitsValue(n / 10);
      assert s[..|s| - 1] == DecimalDigits(n / 10);
    }
  }

  lemma DigitRunAll(s: string, radix: int)
    requires radix == 10 || radix == 16
    requires forall i :: 0 <= i < |s| ==> DigitValue(s[i], radix).Some?
    ensures DigitRun(s, radix) == |s|
  {
    if s != [] {
      DigitRunAll(s[1..], radix);
    }
  }

  /** Round trip: `parseInt` reads back exactly the integer a number field displays. */
  lemma ParseIntDecimalString(n: int)
    ensures ParseInt(DecimalString(n)) == Some(n)
  {
    var m := if n < 0 then -n else n;
    var ds := DecimalDigits(m);
    var s := DecimalString(n);
    assert !IsWhitespace(s[0]);
    assert TrimStart(s) == s;
    var u := if n < 0 then s[1..] else s;
    assert u == ds;
    assert !(|ds| >= 2 && ds[0] == '0');
    DigitRunAll(ds, 10);
    assert ds[..|ds|] == ds;
    DecimalDigitsValue(m);
  }

  /** Input that does not start (after white space and a sign) with a digit is NaN. */
  lemma ParseIntNoDigit(s: string)
    requires var t := TrimStart(s);
             var u := if |t| > 0 && (t[0] == '-' || t[0] == '+') then t[1..] else t;
             u == [] || !IsDecimalDigit(u[0])
    ensures ParseInt(s) == None
  {
  }
}

/**
 * The pieces of JavaScript's string semantics the script relies on: the set of
 * characters `\s` and `String.prototype.trim` treat as white space,
 * `trim` itself, and the global `parseInt` called without a radix.
 * A JavaScript string is modelled as a sequence of Unicode scalar values.
 */
module JsText {
  import opened Wrappers

  /**
   * ECMAScript WhiteSpace and LineTerminator code points (section 12.2 and
   * 12.3 of ECMA-262): TAB, VT, FF, ZWNBSP, the space separators (category Zs)
   * and LF, CR, LS, PS. This is the class `\s` matches, the set `trim` removes
   * and the leading white space `parseInt` skips.
   */
  predicate IsJsSpace(c: char) {
    c == '\t' || c == '\n' || c == '\U{000B}' || c == '\U{000C}' || c == '\r' ||
    c == ' ' || c == '\U{00A0}' || c == '\U{1680}' ||
    ('\U{2000}' <= c <= '\U{200A}') ||
    c == '\U{2028}' || c == '\U{2029}' || c == '\U{202F}' || c == '\U{205F}' ||
    c == '\U{3000}' || c == '\U{FEFF}'
  }

  /** Every character of `s` is JavaScript white space. */
  predicate AllSpace(s: string) {
    forall k :: 0 <= k < |s| ==> IsJsSpace(s[k])
  }

  /** The first index from `i` on that is not white space (or `|s|`). */
  function TextStart(s: string, i: nat): (j: nat)
    requires i <= |s|
    ensures i <= j <= |s|
    ensures forall k :: i <= k < j ==> IsJsSpace(s[k])
    ensures j < |s| ==> !IsJsSpace(s[j])
    decreases |s| - i
  {
    if i < |s| && IsJsSpace(s[i]) then TextStart(s, i + 1) else i
  }

  /** The end of the text in `s[lo..j]`: the index just after its last character that is not white space (or `lo`). */
  function TextEnd(s: string, lo: nat, j: nat): (e: nat)
    requires lo <= j <= |s|
    ensures lo <= e <= j
    ensures forall k :: e <= k < j ==> IsJsSpace(s[k])
    ensures e > lo ==> !IsJsSpace(s[e - 1])
    decreases j - lo
  {
    if j > lo && IsJsSpace(s[j - 1]) then TextEnd(s, lo, j - 1) else j
  }

  /** `s` with its leading white space removed, as `parseInt` reads it. */
  function TrimStart(s: string): string {
    s[TextStart(s, 0)..]
  }

  /** `String.prototype.trim`: white space removed from both ends. */
  function Trim(s: string): string {
    var i := TextStart(s, 0);
    s[i..TextEnd(s, i, |s|)]
  }

  /**
   * What `trim` promises: the result is a contiguous slice `s[i..j]` of the
   * input, everything cut away is white space, and the result neither starts
   * nor ends with white space (so nothing more could have been cut).
   */
  lemma TrimIsMaximalSlice(s: string)
    ensures var r := Trim(s);
      exists i, j :: 0 <= i <= j <= |s| && r == s[i..j] && AllSpace(s[..i]) && AllSpace(s[j..])
    ensures Trim(s) != [] ==> !IsJsSpace(Trim(s)[0]) && !IsJsSpace(Trim(s)[|Trim(s)| - 1])
  {
    var i := TextStart(s, 0);
    var j := TextEnd(s, i, |s|);
    assert AllSpace(s[..i]) by {
      forall k | 0 <= k < i ensures IsJsSpace(s[..i][k]) {
        assert s[..i][k] == s[k];
      }
    }
    assert AllSpace(s[j..]) by {
      forall k | 0 <= k < |s| - j ensures IsJsSpace(s[j..][k]) {
        assert s[j..][k] == s[j + k];
      }
    }
    assert Trim(s) == s[i..j];
  }

  /** A string trims to the empty string exactly when it is all white space. */
  lemma TrimEmptyIffAllSpace(s: string)
    ensures Trim(s) == [] <==> AllSpace(s)
  {
    var i := TextStart(s, 0);
    if i < |s| {
      assert !IsJsSpace(s[i]);
      assert TextEnd(s, i, |s|) > i;
    }
  }

  /** Text that neither starts nor ends with white space is its own trim. */
  lemma TrimUntouched(s: string)
    requires s != [] && !IsJsSpace(s[0]) && !IsJsSpace(s[|s| - 1])
    ensures Trim(s) == s
  {
    assert TextStart(s, 0) == 0;
    assert TextEnd(s, 0, |s|) == |s|;
  }

  /** Trimming twice is trimming once. */
  lemma TrimIdempotent(s: string)
    ensures Trim(Trim(s)) == Trim(s)
  {
    TrimIsMaximalSlice(s);
    if Trim(s) != [] {
      TrimUntouched(Trim(s));
    }
  }

  /** Leading white space is skipped up to the first other character. */
  lemma TrimStartSkipsSpace(ws: string, x: string)
    requires AllSpace(ws)
    requires x != [] && !IsJsSpace(x[0])
    ensures TrimStart(ws + x) == x
  {
    var s := ws + x;
    assert forall k :: 0 <= k < |ws| ==> IsJsSpace(s[k]);
    assert s[|ws|] == x[0];
    assert TextStart(s, 0) == |ws|;
    assert s[|ws|..] == x;
  }

  // ----- parseInt -----

  /** The value of `c` as a digit in bases up to 16, or 36 when it is no such digit. */
  function DigitValue(c: char): nat {
    if '0' <= c <= '9' then (c as int - '0' as int)
    else if 'a' <= c <= 'f' then (c as int - 'a' as int + 10)
    else if 'A' <= c <= 'F' then (c as int - 'A' as int + 10)
    else 36
  }

  predicate IsDigit(c: char, radix: nat) {
    DigitValue(c) < radix
  }

  /** The longest prefix of `s` made of digits of `radix`. */
  function DigitPrefix(s: string, radix: nat): (d: string)
    ensures d <= s
    ensures forall k :: 0 <= k < |d| ==> IsDigit(d[k], radix)
    ensures |d| < |s| ==> !IsDigit(s[|d|], radix)
  {
    if s != [] && IsDigit(s[0], radix) then [s[0]] + DigitPrefix(s[1..], radix) else []
  }

  /** The number a digit string denotes, most significant digit first. */
  function DigitsValue(d: string, radix: nat): nat
  {
    if d == [] then 0 else radix * DigitsValue(d[..|d| - 1], radix) + DigitValue(d[|d| - 1])
  }

  /**
   * The global `parseInt(s)` with no radix argument, on integers: leading
   * white space is skipped and the rest is read by `ParseNumeral`. No digits
   * gives NaN, here `None`.
   */
  function ParseInt(s: string): Option<int> {
    ParseNumeral(TrimStart(s))
  }

  /**
   * One `-` or `+` sign is taken, a `0x`/`0X` prefix selects base 16 and
   * otherwise base 10, and the longest run of digits that follows is read;
   * anything after it is ignored. (`-0` is the integer 0.)
   */
  function ParseNumeral(t: string): Option<int> {
    var u := Unsigned(t);
    var magnitude := if HasHexPrefix(u) then ReadDigits(u[2..], 16) else ReadDigits(u, 10);
    match magnitude
    case None => None
    case Some(m) =>
      var v: int := if t != [] && t[0] == '-' then -(m as int) else m;
      Some(v)
  }

  /** The value of the digits `s` starts with, or NaN when it starts with none. */
  function ReadDigits(s: string, radix: nat): Option<nat> {
    var d := DigitPrefix(s, radix);
    if d == [] then None else Some(DigitsValue(d, radix))
  }

  /** A numeral without its sign. */
  function Unsigned(t: string): string {
    if t != [] && (t[0] == '-' || t[0] == '+') then t[1..] else t
  }

  predicate HasHexPrefix(u: string) {
    |u| >= 2 && u[0] == '0' && (u[1] == 'x' || u[1] == 'X')
  }

  // ----- the decimal numerals a template literal `${n}` produces -----

  function DecimalDigit(d: nat): char
    requires d < 10
  {
    ('0' as int + d) as char
  }

  /** The decimal numeral of `n`, without leading zeros: what `${n}` yields for a non-negative integer. */
  function Decimal(n: nat): (s: string)
    ensures s != []
    ensures forall k :: 0 <= k < |s| ==> IsDigit(s[k], 10)
    ensures |s| > 1 ==> s[0] != '0'
    decreases n
  {
    if n < 10 then [DecimalDigit(n)] else Decimal(n / 10) + [DecimalDigit(n % 10)]
  }

  lemma {:induction false} DecimalValue(n: nat)
    ensures DigitsValue(Decimal(n), 10) == n
    decreases n
  {
    var s := Decimal(n);
    if n >= 10 {
      DecimalValue(n / 10);
      assert s[..|s| - 1] == Decimal(n / 10);
    }
  }

  lemma {:induction false} DigitPrefixOfDigits(s: string, radix: nat)
    requires forall k :: 0 <= k < |s| ==> IsDigit(s[k], radix)
    ensures DigitPrefix(s, radix) == s
    decreases |s|
  {
    if s != [] {
      DigitPrefixOfDigits(s[1..], radix);
    }
  }

  lemma {:induction false} DigitPrefixStopsAt(d: string, tail: string, radix: nat)
    requires forall k :: 0 <= k < |d| ==> IsDigit(d[k], radix)
    requires tail == [] || !IsDigit(tail[0], radix)
    ensures DigitPrefix(d + tail, radix) == d
    decreases |d|
  {
    if d != [] {
      assert (d + tail)[1..] == d[1..] + tail;
      DigitPrefixStopsAt(d[1..], tail, radix);
    }
  }

  /**
   * `parseInt` on a decimal numeral written with optional leading white
   * space, an optional minus sign and any trailing text that does not
   * continue the number: the white space is skipped, the sign applied and
   * the trailing text ignored.
   */
  lemma ParseIntSignedNumeral(ws: string, negative: bool, n: nat, tail: string)
    requires AllSpace(ws)
    requires tail == [] || (!IsDigit(tail[0], 10) && tail[0] != 'x' && tail[0] != 'X')
    ensures ParseInt(ws + ((if negative then "-" else "") + (Decimal(n) + tail))) == Some((if negative then -1 else 1) * n)
  {
    var signed := (if negative then "-" else "") + (Decimal(n) + tail);
    NumeralStart(negative, n, tail);
    TrimStartSkipsSpace(ws, signed);
    ParseNumeralDecimal(negative, n, tail);
  }

  lemma ParseNumeralDecimal(negative: bool, n: nat, tail: string)
    requires tail == [] || (!IsDigit(tail[0], 10) && tail[0] != 'x' && tail[0] != 'X')
    ensures ParseNumeral((if negative then "-" else "") + (Decimal(n) + tail)) == Some((if negative then -1 else 1) * n)
  {
    var num := Decimal(n) + tail;
    var signed := (if negative then "-" else "") + num;
    NumeralStart(negative, n, tail);
    assert Unsigned(signed) == num by {
      if negative { assert signed[1..] == num; }
    }
    DigitPrefixStopsAt(Decimal(n), tail, 10);
    DecimalValue(n);
  }

  /** A numeral followed by text that does not continue it: its first character and its base. */
  lemma NumeralStart(negative: bool, n: nat, tail: string)
    requires tail == [] || (!IsDigit(tail[0], 10) && tail[0] != 'x' && tail[0] != 'X')
    ensures var num := Decimal(n) + tail;
      num[0] == Decimal(n)[0] && '0' <= num[0] <= '9' && !HasHexPrefix(num)
    ensures var signed := (if negative then "-" else "") + (Decimal(n) + tail);
      signed != [] && !IsJsSpace(signed[0])
  {
    var num := Decimal(n) + tail;
    assert IsDigit(Decimal(n)[0], 10);
    if |Decimal(n)| >= 2 {
      assert IsDigit(num[1], 10);
    } else if |num| >= 2 {
      assert num[1] == tail[0];
    }
  }

  /** `parseInt` reads back the numeral `${n}`: the round trip of a rendered index. */
  lemma ParseIntDecimal(n: nat)
    ensures ParseInt(Decimal(n)) == Some(n)
  {
    ParseIntSignedNumeral([], false, n, []);
    assert [] + ("" + (Decimal(n) + [])) == Decimal(n);
  }

  /** Text with no digit where the number should start is NaN. */
  lemma ParseIntNaN(s: string)
    requires var u := Unsigned(TrimStart(s)); u == [] || !IsDigit(u[0], 10)
    ensures ParseInt(s) == None
  {
  }
}

/**
 * The part of JavaScript's number semantics the loader relies on: the global
 * `parseFloat` and the `isNaN` test applied to its result.
 *
 * A finite value is kept exactly, as the decimal significand × 10^exponent
 * that the text spells out (so "1.50" is 150 × 10^-2), with no IEEE-754
 * rounding, no overflow to Infinity and no negative zero. NaN has no constructor: a
 * parse that yields NaN is `None`, so "`!isNaN(parseFloat(s))`" is
 * `ParseFloat(s).Some?`.
 */
module JsNumber {
  import opened Wrappers

  /** A JavaScript number that is not NaN. */
  datatype Num = Finite(significand: int, exponent: int) | PositiveInfinity | NegativeInfinity

  predicate IsDigit(c: char) { '0' <= c <= '9' }

  predicate AllDigits(s: string) { forall i :: 0 <= i < |s| ==> IsDigit(s[i]) }

  /** StrWhiteSpaceChar of ECMA-262: the WhiteSpace and LineTerminator code points. */
  predicate IsStrWhiteSpace(c: char) {
    || c == '\t' || c == '\U{B}' || c == '\U{C}' || c == ' ' || c == '\U{A0}' || c == '\U{FEFF}'
    || c == '\n' || c == '\r' || c == '\U{2028}' || c == '\U{2029}'
    || c == '\U{1680}' || ('\U{2000}' <= c <= '\U{200A}') || c == '\U{202F}' || c == '\U{205F}'
    || c == '\U{3000}'
  }

  /** Drops the leading white space, as `parseFloat` does before it parses. */
  function TrimStart(s: string): (r: string)
    ensures |r| <= |s| && r == s[|s| - |r|..]
    ensures r == [] || !IsStrWhiteSpace(r[0])
  {
    if |s| > 0 && IsStrWhiteSpace(s[0]) then TrimStart(s[1..]) else s
  }

  /** The length of the run of decimal digits at the front of `s`. */
  function DigitRun(s: string): (n: nat)
    ensures n <= |s|
    ensures n == |s| || !IsDigit(s[n])
  {
    if |s| > 0 && IsDigit(s[0]) then 1 + DigitRun(s[1..]) else 0
  }

  function DigitValue(c: char): nat
  {
    if IsDigit(c) then c as int - '0' as int else 0
  }

  /** The value of a string of decimal digits, most significant first. */
  function DigitsValue(s: string): nat
  {
    if s == [] then 0 else 10 * DigitsValue(s[..|s| - 1]) + DigitValue(s[|s| - 1])
  }

  /**
   * The exponent written by an ExponentPart (`e` or `E`, an optional sign,
   * digits) at the front of `w`; 0 when `w` does not start with one, since
   * the longest numeric prefix then ends before the `e`.
   */
  function ExponentValue(w: string): int
  {
    if |w| >= 1 && (w[0] == 'e' || w[0] == 'E') then
      var signed := |w| >= 2 && (w[1] == '-' || w[1] == '+');
      var d := if signed then w[2..] else w[1..];
      var n := DigitRun(d);
      if n == 0 then 0
      else if signed && w[1] == '-' then -(DigitsValue(d[..n]) as int)
      else DigitsValue(d[..n])
    else 0
  }

  /**
   * The longest StrUnsignedDecimalLiteral of ECMA-262 other than `Infinity`
   * at the front of `u`: digits, an optional `.` with digits, an optional
   * exponent, with at least one digit before or after the point.
   */
  function ParseDecimal(u: string): Option<Num>
  {
    var i := DigitRun(u);
    DecimalAfterWhole(u[..i], u[i..])
  }

  /** The rest of a decimal literal once its integer digits `whole` are read. */
  function DecimalAfterWhole(whole: string, tail: string): Option<Num>
  {
    if |tail| > 0 && tail[0] == '.' then
      var f := DigitRun(tail[1..]);
      DecimalLiteral(whole, tail[1..][..f], tail[1..][f..])
    else DecimalLiteral(whole, [], tail)
  }

  /** The number with digits `whole`, fraction digits `fraction` and the exponent `tail` starts with. */
  function DecimalLiteral(whole: string, fraction: string, tail: string): Option<Num>
  {
    if whole == [] && fraction == [] then None
    else Some(Finite(DigitsValue(whole + fraction), ExponentValue(tail) - |fraction|))
  }

  /** The unsigned number at the front of `u`: `Infinity` or a decimal literal. */
  function ParseUnsigned(u: string): Option<Num>
  {
    if |u| >= 8 && u[..8] == "Infinity" then Some(PositiveInfinity)
    else ParseDecimal(u)
  }

  /** An optional sign, then the unsigned number. */
  function ParseSigned(t: string): Option<Num>
  {
    if |t| > 0 && t[0] == '-' then
      match ParseUnsigned(t[1..])
      case None => None
      case Some(x) => Some(Negate(x))
    else if |t| > 0 && t[0] == '+' then ParseUnsigned(t[1..])
    else ParseUnsigned(t)
  }

  /**
   * `parseFloat(s)`: skip leading white space, read an optional sign, then
   * the longest prefix that is `Infinity` or a decimal literal; NaN (None)
   * when there is none. Whatever follows that prefix is ignored.
   */
  function ParseFloat(s: string): Option<Num>
  {
    ParseSigned(TrimStart(s))
  }

  /** The decimal rendering of a natural number, as `String(n)` gives it. */
  function NatToString(n: nat): (s: string)
    ensures |s| > 0 && AllDigits(s)
  {
    var d := ['0' + (n % 10) as char];
    if n < 10 then d else NatToString(n / 10) + d
  }

  /** The negation JavaScript's unary minus performs on a non-NaN number. */
  function Negate(x: Num): Num
  {
    match x
    case Finite(m, e) => Finite(-m, e)
    case PositiveInfinity => NegativeInfinity
    case NegativeInfinity => PositiveInfinity
  }

  lemma {:induction false} DigitsValueOfNatToString(n: nat)
    ensures DigitsValue(NatToString(n)) == n
  {
    var s := NatToString(n);
    if n >= 10 {
      DigitsValueOfNatToString(n / 10);
      assert s[..|s| - 1] == NatToString(n / 10);
    }
  }

  lemma {:induction false} DigitRunOfDigits(s: string, rest: string)
    requires AllDigits(s)
    requires rest == [] || !IsDigit(rest[0])
    ensures DigitRun(s + rest) == |s|
  {
    if s != [] {
      assert (s + rest)[1..] == s[1..] + rest;
      DigitRunOfDigits(s[1..], rest);
    }
  }

  lemma {:induction false} TrimStartSkipsWhiteSpace(ws: string, s: string)
    requires forall i :: 0 <= i < |ws| ==> IsStrWhiteSpace(ws[i])
    ensures TrimStart(ws + s) == TrimStart(s)
  {
    if ws != [] {
      assert (ws + s)[0] == ws[0];
      assert (ws + s)[1..] == ws[1..] + s;
      TrimStartSkipsWhiteSpace(ws[1..], s);
    } else {
      assert ws + s == s;
    }
  }

  /**
   * A cell that starts with an unsigned integer parses to that integer,
   * whatever text follows it, as long as that text cannot extend the number
   * (it does not start with a digit, a decimal point or an exponent mark).
   */
  lemma ParseFloatIntegerPrefix(s: string, rest: string)
    requires |s| > 0 && AllDigits(s)
    requires rest == [] || !(IsDigit(rest[0]) || rest[0] == '.' || rest[0] == 'e' || rest[0] == 'E')
    ensures ParseFloat(s + rest) == Some(Finite(DigitsValue(s), 0))
  {
    var u := s + rest;
    assert u[0] == s[0];
    TrimStartOfNonWhiteSpace(u);
    assert ParseSigned(u) == ParseUnsigned(u);
    assert |u| >= 8 ==> u[..8] != "Infinity" by { if |u| >= 8 { assert u[..8][0] == s[0]; } }
    ParseDecimalInteger(s, rest);
  }

  lemma {:induction false} ParseDecimalInteger(s: string, rest: string)
    requires |s| > 0 && AllDigits(s)
    requires rest == [] || !(IsDigit(rest[0]) || rest[0] == '.' || rest[0] == 'e' || rest[0] == 'E')
    ensures ParseDecimal(s + rest) == Some(Finite(DigitsValue(s), 0))
  {
    var u := s + rest;
    DigitRunOfDigits(s, rest);
    assert u[..|s|] == s;
    assert u[|s|..] == rest;
    assert ExponentValue(rest) == 0;
    assert s + [] == s;
    assert DecimalAfterWhole(s, rest) == DecimalLiteral(s, [], rest);
    assert DecimalLiteral(s, [], rest) == Some(Finite(DigitsValue(s), 0));
    assert ParseDecimal(u) == DecimalAfterWhole(s, rest);
  }

  /** `parseFloat(String(n)) == n` for every natural number n. */
  lemma ParseFloatRendersNat(n: nat)
    ensures ParseFloat(NatToString(n)) == Some(Finite(n, 0))
  {
    var s := NatToString(n);
    assert s + [] == s;
    ParseFloatIntegerPrefix(s, []);
    DigitsValueOfNatToString(n);
  }

  /** Leading white space never changes what `parseFloat` reads. */
  lemma ParseFloatIgnoresLeadingWhiteSpace(ws: string, s: string)
    requires forall i :: 0 <= i < |ws| ==> IsStrWhiteSpace(ws[i])
    ensures ParseFloat(ws + s) == ParseFloat(s)
  {
    TrimStartSkipsWhiteSpace(ws, s);
  }

  /**
   * A leading minus sign before a text that does not itself start with white
   * space or a sign negates its parse, and NaN stays NaN.
   */
  lemma ParseFloatMinus(s: string)
    requires s == [] || !(IsStrWhiteSpace(s[0]) || s[0] == '-' || s[0] == '+')
    ensures ParseFloat("-" + s) == (match ParseFloat(s) case None => None case Some(x) => Some(Negate(x)))
  {
    var t := "-" + s;
    TrimStartOfNonWhiteSpace(t);
    assert t[1..] == s;
    TrimStartOfNonWhiteSpace(s);
    assert ParseSigned(s) == ParseUnsigned(s);
  }

  /** A text with no digit (and no `Infinity`) is NaN: empty cells, "NA", "-". */
  lemma {:induction false} ParseFloatWithoutDigitsIsNaN(s: string)
    requires forall i :: 0 <= i < |s| ==> !IsDigit(s[i]) && s[i] != 'I'
    ensures ParseFloat(s) == None
  {
    var t := TrimStart(s);
    assert forall i :: 0 <= i < |t| ==> t[i] == s[|s| - |t| + i];
    var u := if |t| > 0 && (t[0] == '-' || t[0] == '+') then t[1..] else t;
    assert forall i :: 0 <= i < |u| ==> !IsDigit(u[i]) && u[i] != 'I';
    NoDigitsNoDecimal(u);
    if |u| >= 8 {
      assert u[..8][0] == u[0];
    }
    assert ParseUnsigned(u) == None;
  }

  lemma NoDigitsNoDecimal(u: string)
    requires forall i :: 0 <= i < |u| ==> !IsDigit(u[i])
    ensures ParseDecimal(u) == None
  {
    assert DigitRun(u) == 0;
    assert u[..0] == [];
    if |u| > 1 && u[0] == '.' {
      assert u[1..][0] == u[1];
      assert u[0..][1..][..0] == [];
    }
  }

  lemma TrimStartOfNonWhiteSpace(s: string)
    requires s == [] || !IsStrWhiteSpace(s[0])
    ensures TrimStart(s) == s
  {
  }

  /**
   * `isNaN` is false for a cell that reads `Infinity` (with or without a
   * sign, whatever follows): an infinite cell counts as a number.
   */
  lemma ParseFloatInfinity(rest: string)
    ensures ParseFloat("Infinity" + rest) == Some(PositiveInfinity)
    ensures ParseFloat("-Infinity" + rest) == Some(NegativeInfinity)
  {
    var u := "Infinity" + rest;
    assert u[0] == 'I' && u[..8] == "Infinity";
    TrimStartOfNonWhiteSpace(u);
    assert ParseSigned(u) == ParseUnsigned(u);
    var t := "-Infinity" + rest;
    assert t[0] == '-' && t[1..] == u;
    TrimStartOfNonWhiteSpace(t);
  }
}

/**
 * Python's `str(n)` and `int(s)` for integers and decimal strings, restricted
 * to ASCII. `str` is what `str(guild.id)` produces for a settings key; `int`
 * is what `load_settings` applies to a string value read from the file.
 */
module PyInt {
  import opened Wrappers

  predicate IsDigit(c: char) { '0' <= c <= '9' }

  /** The ASCII whitespace `int()` strips: space, tab, newline, vertical tab, form feed, carriage return. */
  predicate IsSpace(c: char) {
    c == ' ' || 9 <= c as int <= 13
  }

  /** Python's default limit on the number of digits `int()` accepts in a decimal string (and `str()` writes). */
  const MaxStrDigits: nat := 4300

  function DigitChar(d: nat): (c: char)
    requires d < 10
    ensures IsDigit(c)
  {
    ['0', '1', '2', '3', '4', '5', '6', '7', '8', '9'][d]
  }

  function DigitValue(c: char): (d: nat)
    requires IsDigit(c)
    ensures d < 10 && DigitChar(d) == c
  {
    (c as int - '0' as int) as nat
  }

  /** `str(n)` for a non-negative integer: decimal, no leading zeros, no separators. */
  function ShowNat(n: nat): (s: string)
    decreases n
  {
    if n < 10 then [DigitChar(n)] else ShowNat(n / 10) + [DigitChar(n % 10)]
  }

  /** `str(i)` for any integer. */
  function ShowInt(i: int): string {
    if i < 0 then "-" + ShowNat(-i) else ShowNat(i)
  }

  /** Leading whitespace removed, as `int()` does before parsing. */
  function TrimStart(s: string): (r: string)
    ensures |r| <= |s| && r == s[|s| - |r|..]
    ensures r == [] || !IsSpace(r[0])
  {
    if s != [] && IsSpace(s[0]) then TrimStart(s[1..]) else s
  }

  /** Trailing whitespace removed. */
  function TrimEnd(s: string): (r: string)
    ensures |r| <= |s| && r == s[..|r|]
    ensures r == [] || !IsSpace(r[|r| - 1])
  {
    if s != [] && IsSpace(s[|s| - 1]) then TrimEnd(s[..|s| - 1]) else s
  }

  /**
   * The digit part of a base-10 literal, Python's `digit (["_"] digit)*`: it
   * ends in a digit, and before that digit comes nothing, a well-formed digit
   * part, or a well-formed digit part and a single underscore. Leading,
   * trailing and doubled underscores are therefore refused, as Python refuses
   * them.
   */
  predicate WellFormedDigits(s: string)
    decreases |s|
  {
    && |s| > 0
    && IsDigit(s[|s| - 1])
    && (|| |s| == 1
        || WellFormedDigits(s[..|s| - 1])
        || (|s| > 2 && s[|s| - 2] == '_' && WellFormedDigits(s[..|s| - 2])))
  }

  /** The value of the digits of `s`; every other character (an underscore, in a well-formed literal) is skipped. */
  function DigitsValue(s: string): nat {
    if s == [] then 0
    else if IsDigit(s[|s| - 1]) then 10 * DigitsValue(s[..|s| - 1]) + DigitValue(s[|s| - 1])
    else DigitsValue(s[..|s| - 1])
  }

  /** The number of digits in `s`; underscores do not count toward the limit. */
  function DigitCount(s: string): nat {
    if s == [] then 0
    else DigitCount(s[..|s| - 1]) + (if IsDigit(s[|s| - 1]) then 1 else 0)
  }

  lemma {:induction false} DigitCountAllDigits(d: string)
    requires forall i :: 0 <= i < |d| ==> IsDigit(d[i])
    ensures DigitCount(d) == |d|
  {
    if d != [] {
      DigitCountAllDigits(d[..|d| - 1]);
    }
  }

  /** Whitespace removed from both ends. */
  function Trim(s: string): string {
    TrimEnd(TrimStart(s))
  }

  /** A literal with its optional leading sign removed. */
  function Unsigned(t: string): string {
    if |t| > 0 && (t[0] == '-' || t[0] == '+') then t[1..] else t
  }

  /**
   * A trimmed, optionally signed literal: `Some` of its value, or `None` where
   * Python raises `ValueError` (malformed, or more than MaxStrDigits digits).
   */
  function ParseSigned(t: string): Option<int> {
    var body := Unsigned(t);
    if WellFormedDigits(body) && DigitCount(body) <= MaxStrDigits then
      var v: int := DigitsValue(body);
      Some(if |t| > 0 && t[0] == '-' then -v else v)
    else
      None
  }

  /**
   * `int(s)` for a string: accepted exactly when, after trimming and an optional
   * sign, it is a well-formed digit string within the digit limit; the result is
   * the value of those digits, negated after a minus sign.
   */
  function ParseInt(s: string): (r: Option<int>)
    ensures r.Some? <==> WellFormedDigits(Unsigned(Trim(s))) && DigitCount(Unsigned(Trim(s))) <= MaxStrDigits
    ensures r.Some? ==> (if r.value < 0 then -r.value else r.value) == DigitsValue(Unsigned(Trim(s)))
    ensures r.Some? && r.value < 0 ==> Trim(s)[0] == '-'
    ensures r.Some? ==> r.value == if Trim(s)[0] == '-' then -(DigitsValue(Unsigned(Trim(s))) as int)
                                   else DigitsValue(Unsigned(Trim(s))) as int
  {
    ParseSigned(Trim(s))
  }

  /** `str(n)` is a non-empty run of digits whose value is `n`. */
  lemma ShowNatDigits(n: nat)
    ensures |ShowNat(n)| > 0
    ensures forall i :: 0 <= i < |ShowNat(n)| ==> IsDigit(ShowNat(n)[i])
    ensures DigitsValue(ShowNat(n)) == n
  {
    ShowNatChars(n);
    ShowNatValue(n);
  }

  lemma {:induction false} ShowNatChars(n: nat)
    ensures |ShowNat(n)| > 0
    ensures forall i :: 0 <= i < |ShowNat(n)| ==> IsDigit(ShowNat(n)[i])
    decreases n
  {
    if n >= 10 {
      ShowNatChars(n / 10);
    }
  }

  lemma {:induction false} ShowNatValue(n: nat)
    ensures DigitsValue(ShowNat(n)) == n
    decreases n
  {
    if n >= 10 {
      ShowNatValue(n / 10);
      var s := ShowNat(n);
      assert s[..|s| - 1] == ShowNat(n / 10);
    }
  }

  /** `str(n)` has no leading zero: only `"0"` itself starts with `'0'`, and it is one digit exactly below ten. */
  lemma {:induction false} ShowNatNoLeadingZero(n: nat)
    ensures |ShowNat(n)| == 1 || ShowNat(n)[0] != '0'
    ensures |ShowNat(n)| == 1 <==> n < 10
    decreases n
  {
    if n >= 10 {
      ShowNatNoLeadingZero(n / 10);
      ShowNatChars(n / 10);
      assert ShowNat(n)[0] == ShowNat(n / 10)[0];
    }
  }

  /** A string that neither starts nor ends with whitespace is left alone by the trimming. */
  lemma TrimNothing(s: string)
    requires |s| > 0 && !IsSpace(s[0]) && !IsSpace(s[|s| - 1])
    ensures Trim(s) == s
  {
    assert TrimStart(s) == s;
  }

  /** A non-empty run of plain digits is a well-formed digit part. */
  lemma {:induction false} AllDigitsWellFormed(d: string)
    requires |d| > 0 && forall i :: 0 <= i < |d| ==> IsDigit(d[i])
    ensures WellFormedDigits(d)
  {
    if |d| > 1 {
      AllDigitsWellFormed(d[..|d| - 1]);
    }
  }

  /** A non-empty run of at most MaxStrDigits plain digits is an accepted digit part. */
  lemma DigitsLiteral(d: string)
    requires 0 < |d| <= MaxStrDigits && forall i :: 0 <= i < |d| ==> IsDigit(d[i])
    ensures WellFormedDigits(d) && DigitCount(d) <= MaxStrDigits && IsDigit(d[0])
  {
    DigitCountAllDigits(d);
    AllDigitsWellFormed(d);
  }

  /**
   * A literal with no whitespace at either end parses as its signed reading.
   * The lemmas below reach `ParseInt` only through this one, and none of them
   * holds a quantifier over the literal's characters: with one, the sequence
   * axioms for the sign and the trimming send the solver into a loop.
   */
  lemma ParseUntrimmed(t: string, v: int)
    requires |t| > 0 && !IsSpace(t[0]) && !IsSpace(t[|t| - 1])
    requires ParseSigned(t) == Some(v)
    ensures ParseInt(t) == Some(v)
  {
    TrimNothing(t);
  }

  /** An accepted digit part that starts with a digit parses to its value. */
  lemma ParsePosLiteral(d: string)
    requires WellFormedDigits(d) && DigitCount(d) <= MaxStrDigits && IsDigit(d[0])
    ensures ParseInt(d) == Some(DigitsValue(d) as int)
  {
    assert Unsigned(d) == d;
    ParseUntrimmed(d, DigitsValue(d) as int);
  }

  /** A minus sign followed by an accepted digit part parses to the negated value. */
  lemma ParseNegLiteral(d: string)
    requires WellFormedDigits(d) && DigitCount(d) <= MaxStrDigits
    ensures ParseInt("-" + d) == Some(-(DigitsValue(d) as int))
  {
    NegLiteralEnds(d);
    assert ("-" + d)[1..] == d;
    ParseNegated("-" + d, d);
  }

  /** A minus sign, then an accepted digit part `d`, and no trailing whitespace parses to minus the value of `d`. */
  lemma ParseNegated(t: string, d: string)
    requires |t| > 1 && t[0] == '-' && t[1..] == d && !IsSpace(t[|t| - 1])
    requires WellFormedDigits(d) && DigitCount(d) <= MaxStrDigits
    ensures ParseInt(t) == Some(-(DigitsValue(d) as int))
  {
    assert ParseSigned(t) == Some(-(DigitsValue(d) as int));
    ParseUntrimmed(t, -(DigitsValue(d) as int));
  }

  /** `"-" + d` starts with the sign and ends with the last digit, so neither end is whitespace. */
  lemma NegLiteralEnds(d: string)
    requires WellFormedDigits(d)
    ensures !IsSpace(("-" + d)[0]) && !IsSpace(("-" + d)[|"-" + d| - 1])
  {
    assert ("-" + d)[|"-" + d| - 1] == d[|d| - 1];
  }

  /** Reading back what `str` wrote gives the same integer, for every integer within the digit limit. */
  lemma ParseShowInt(i: int)
    requires |ShowNat(if i < 0 then -i else i)| <= MaxStrDigits
    ensures ParseInt(ShowInt(i)) == Some(i)
  {
    var n: nat := if i < 0 then -i else i;
    ShowNatDigits(n);
    DigitsLiteral(ShowNat(n));
    if i < 0 {
      ParseNegLiteral(ShowNat(n));
    } else {
      ParsePosLiteral(ShowNat(n));
    }
  }

  /** Distinct integers have distinct decimal strings, so `str(guild.id)` keys never collide. */
  lemma ShowNatInjective(a: nat, b: nat)
    requires ShowNat(a) == ShowNat(b)
    ensures a == b
  {
    ShowNatDigits(a);
    ShowNatDigits(b);
  }
}

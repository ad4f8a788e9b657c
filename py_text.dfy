/**
 * The parts of Python's `str` and `int` that the folder conversion relies on:
 * `str.lower`, `str.endswith`, `str.rfind`, `int(str)` and `str(int)`.
 */
module PyText {
  import opened Wrappers

  // ---------------------------------------------------------------- lower

  predicate IsAsciiUpper(c: char) { 'A' <= c <= 'Z' }

  function LowerChar(c: char): char
  {
    if IsAsciiUpper(c) then (c as int + 32) as char else c
  }

  /** `s.lower()`, restricted to the ASCII letters. */
  function Lower(s: string): (r: string)
    ensures |r| == |s|
    ensures forall i :: 0 <= i < |s| ==> r[i] == LowerChar(s[i])
  {
    if s == [] then [] else [LowerChar(s[0])] + Lower(s[1..])
  }

  /** `s.endswith(suffix)`. */
  predicate EndsWith(s: string, suffix: string)
  {
    |suffix| <= |s| && s[|s| - |suffix|..] == suffix
  }

  // ---------------------------------------------------------------- rfind

  /** `s.rfind(c)`: the index of the last occurrence of `c`, or -1. */
  function RFind(s: string, c: char): (r: int)
    ensures -1 <= r < |s|
    ensures r >= 0 ==> s[r] == c
    ensures forall j :: r < j < |s| ==> s[j] != c
  {
    if s == [] then -1
    else if s[|s| - 1] == c then |s| - 1
    else RFind(s[..|s| - 1], c)
  }

  /** `rfind` of a character that does not occur. */
  lemma RFindAbsent(s: string, c: char)
    requires c !in s
    ensures RFind(s, c) == -1
  {
  }

  /** `rfind` of a character at `k` and nowhere after it. */
  lemma RFindAt(s: string, c: char, k: nat)
    requires k < |s| && s[k] == c && c !in s[k + 1..]
    ensures RFind(s, c) == k
  {
    assert forall j :: k < j < |s| ==> s[j] == s[k + 1..][j - k - 1];
  }

  // ---------------------------------------------------------------- digits

  predicate IsDigit(c: char) { '0' <= c <= '9' }

  predicate AllDigits(s: string)
  {
    forall i :: 0 <= i < |s| ==> IsDigit(s[i])
  }

  function DigitValue(c: char): nat
    requires IsDigit(c)
  {
    c as int - '0' as int
  }

  function DigitChar(d: nat): (c: char)
    requires d < 10
    ensures IsDigit(c) && DigitValue(c) == d
  {
    ('0' as int + d) as char
  }

  /** The value of a string of decimal digits, read most significant first. */
  function DigitsValue(s: string): nat
    requires AllDigits(s)
  {
    if s == [] then 0 else 10 * DigitsValue(s[..|s| - 1]) + DigitValue(s[|s| - 1])
  }

  // ---------------------------------------------------------------- int(s)

  predicate IsSign(c: char) { c == '+' || c == '-' }

  /**
   * `int(s)` in base 10: an optional sign followed by at least one ASCII digit.
   * None stands for the ValueError Python raises on anything else.
   */
  function ParseInt(s: string): (r: Option<int>)
    ensures r.Some? ==> s != [] && AllDigits(if IsSign(s[0]) then s[1..] else s)
    ensures r.Some? && s[0] == '-' ==> r.value <= 0
    ensures r.Some? && s[0] != '-' ==> r.value >= 0
  {
    if s == [] then None
    else if IsSign(s[0]) then
      if |s| >= 2 && AllDigits(s[1..]) then
        var v: int := DigitsValue(s[1..]);
        Some(if s[0] == '-' then -v else v)
      else None
    else if AllDigits(s) then Some(DigitsValue(s))
    else None
  }

  /** The strings `int` accepts: a sign ("", "+" or "-") and a non-empty run of digits. */
  ghost predicate IsIntLiteral(s: string)
  {
    exists sign: string, digits: string ::
      (sign == "" || sign == "+" || sign == "-") && digits != [] && AllDigits(digits) && s == sign + digits
  }

  /** `int` accepts exactly the integer literals, and gives them their decimal value. */
  lemma ParseIntLiteral(sign: string, digits: string)
    requires sign == "" || sign == "+" || sign == "-"
    requires digits != [] && AllDigits(digits)
    ensures var v: int := DigitsValue(digits);
      ParseInt(sign + digits) == Some(if sign == "-" then -v else v)
  {
    var s := sign + digits;
    if sign == "" {
      assert s == digits;
    } else {
      assert s[0] == sign[0];
      assert s[1..] == digits;
    }
  }

  lemma ParseIntOnlyLiterals(s: string)
    ensures ParseInt(s).Some? <==> IsIntLiteral(s)
  {
    if ParseInt(s).Some? {
      if IsSign(s[0]) {
        assert s == s[..1] + s[1..];
        assert s[..1] == "+" || s[..1] == "-";
      } else {
        assert s == "" + s;
      }
    }
    if IsIntLiteral(s) {
      var sign: string, digits: string :|
        (sign == "" || sign == "+" || sign == "-") && digits != [] && AllDigits(digits) && s == sign + digits;
      ParseIntLiteral(sign, digits);
    }
  }

  /** A leading zero does not change the value: "01" and "1" are the same number. */
  lemma {:induction false} LeadingZero(s: string)
    requires AllDigits(s)
    ensures AllDigits("0" + s) && DigitsValue("0" + s) == DigitsValue(s)
  {
    if s != [] {
      var t := "0" + s;
      assert t[..|t| - 1] == "0" + s[..|s| - 1];
      LeadingZero(s[..|s| - 1]);
    }
  }

  // ---------------------------------------------------------------- str(n)

  /** `str(n)` for a natural number: decimal digits, no leading zero. */
  function NatToString(n: nat): (s: string)
    ensures s != [] && AllDigits(s)
    ensures s[0] == '0' ==> s == "0"
  {
    if n < 10 then [DigitChar(n)] else NatToString(n / 10) + [DigitChar(n % 10)]
  }

  /** Reading back what `str` wrote gives the number again. */
  lemma {:induction false} NatToStringValue(n: nat)
    ensures DigitsValue(NatToString(n)) == n
  {
    var s := NatToString(n);
    if n >= 10 {
      assert s[..|s| - 1] == NatToString(n / 10);
      NatToStringValue(n / 10);
    } else {
      assert s[..|s| - 1] == [];
    }
  }

  lemma ParseNatToString(n: nat)
    ensures ParseInt(NatToString(n)) == Some(n)
  {
    NatToStringValue(n);
    ParseIntLiteral("", NatToString(n));
    assert "" + NatToString(n) == NatToString(n);
  }
}

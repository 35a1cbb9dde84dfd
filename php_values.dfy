/** Values as the generator sees them: optional spreadsheet cells, PHP's
    notion of an "empty" string, and decimal digit strings (year keys and
    month numbers). */
module PhpValues {

  /** A cell or result that may be PHP `null`. */
  datatype Option<+T> = None | Some(value: T)

  /** PHP's `empty()` on a string: true exactly for "" and "0". */
  predicate IsEmptyString(s: string) {
    s == "" || s == "0"
  }

  /** PHP's `empty()` on a value that is either `null` or a string; its
      negation is PHP truthiness of such a value. */
  predicate IsBlank(v: Option<string>) {
    v.None? || IsEmptyString(v.value)
  }

  predicate IsDigit(c: char) {
    '0' <= c <= '9'
  }

  /** `preg_match("/\d/", $s)`: without the `u` flag, `\d` is an ASCII digit. */
  predicate HasDigit(s: string) {
    exists i :: 0 <= i < |s| && IsDigit(s[i])
  }

  predicate AllDigits(s: string) {
    forall i :: 0 <= i < |s| ==> IsDigit(s[i])
  }

  function DigitChar(d: nat): (c: char)
    requires d < 10
    ensures IsDigit(c)
  {
    ('0' as int + d) as char
  }

  /** The number a string of decimal digits denotes (leading zeros allowed,
      as in PHP's numeric-string conversion). */
  function DigitsValue(s: string): nat
    requires AllDigits(s)
    decreases |s|
  {
    if s == [] then 0 else 10 * DigitsValue(s[..|s| - 1]) + (s[|s| - 1] as int - '0' as int)
  }

  /** How PHP writes a non-negative integer (a year) as a string: canonical
      decimal, no sign, no leading zero. */
  function DecimalString(n: nat): (s: string)
    ensures |s| > 0 && AllDigits(s)
    ensures s[0] == '0' ==> n == 0
    decreases n
  {
    if n < 10 then [DigitChar(n)] else DecimalString(n / 10) + [DigitChar(n % 10)]
  }

  /** Reading back the decimal string of a number gives the number. */
  lemma {:induction false} DecimalStringRoundTrip(n: nat)
    ensures DigitsValue(DecimalString(n)) == n
  {
    if n >= 10 {
      var s := DecimalString(n / 10);
      DecimalStringRoundTrip(n / 10);
      assert (s + [DigitChar(n % 10)])[..|s|] == s;
    }
  }

  /** Different years give different keys. */
  lemma DecimalStringInjective(a: nat, b: nat)
    ensures DecimalString(a) == DecimalString(b) ==> a == b
  {
    DecimalStringRoundTrip(a);
    DecimalStringRoundTrip(b);
  }

  /** A digit string without a leading zero denotes a positive number. */
  lemma {:induction false} DigitsValuePositive(s: string)
    requires s != [] && AllDigits(s) && s[0] != '0'
    ensures DigitsValue(s) >= 1
    decreases |s|
  {
    if |s| > 1 {
      var prefix := s[..|s| - 1];
      assert prefix[0] == s[0];
      DigitsValuePositive(prefix);
    }
  }

  /** The other direction of the round trip: a digit string in canonical
      form (no leading zero, unless it is "0") is the decimal string of the
      number it denotes. */
  lemma {:induction false} DigitsValueRoundTrip(s: string)
    requires s != [] && AllDigits(s) && (s[0] == '0' ==> |s| == 1)
    ensures DecimalString(DigitsValue(s)) == s
    decreases |s|
  {
    var last := s[|s| - 1] as int - '0' as int;
    if |s| == 1 {
      assert DigitChar(last) == s[0];
    } else {
      var prefix := s[..|s| - 1];
      assert prefix[0] == s[0] && AllDigits(prefix);
      DigitsValuePositive(prefix);
      DigitsValueRoundTrip(prefix);
      var n := DigitsValue(s);
      assert n / 10 == DigitsValue(prefix) && n % 10 == last;
      assert DigitChar(last) == s[|s| - 1];
      assert s == prefix + [s[|s| - 1]];
    }
  }

  /** A leading zero does not change the number a digit string denotes. */
  lemma {:induction false} LeadingZeroValue(t: string)
    requires AllDigits(t)
    ensures AllDigits("0" + t) && DigitsValue("0" + t) == DigitsValue(t)
    decreases |t|
  {
    var s := "0" + t;
    forall i | 0 <= i < |s| ensures IsDigit(s[i]) {
      if i > 0 {
        assert s[i] == t[i - 1];
      }
    }
    if t == [] {
      assert s[..|s| - 1] == [];
    } else {
      var prefix := t[..|t| - 1];
      assert s[..|s| - 1] == "0" + prefix;
      LeadingZeroValue(prefix);
    }
  }

  /** A digit string denoting a positive number is zeros followed by the
      decimal string of that number. */
  lemma {:induction false} CanonicalSuffix(s: string)
    requires AllDigits(s) && DigitsValue(s) >= 1
    ensures exists z :: 0 <= z < |s| && (forall i :: 0 <= i < z ==> s[i] == '0') && s[z..] == DecimalString(DigitsValue(s))
    decreases |s|
  {
    if s[0] != '0' {
      DigitsValueRoundTrip(s);
      assert s[0..] == s;
    } else {
      var t := s[1..];
      assert s == "0" + t;
      LeadingZeroValue(t);
      CanonicalSuffix(t);
      var z :| 0 <= z < |t| && (forall i :: 0 <= i < z ==> t[i] == '0') && t[z..] == DecimalString(DigitsValue(t));
      assert s[z + 1..] == t[z..];
      forall i | 0 <= i < z + 1 ensures s[i] == '0' {
        if i > 0 {
          assert s[i] == t[i - 1];
        }
      }
    }
  }

  /** A month cell the `int $monthNumber` parameter receives as 1..12. */
  predicate IsMonthCell(s: string) {
    s != [] && AllDigits(s) && 1 <= DigitsValue(s) <= 12
  }
}

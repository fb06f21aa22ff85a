/** Python's `int(s)` on a string in base 10, and its inverse `str(n)`. */
module IntParse {
  import opened Wrappers
  import opened Text

  predicate IsDigit(c: char)
  {
    '0' <= c <= '9'
  }

  predicate AllDigits(s: string)
  {
    forall i :: 0 <= i < |s| ==> IsDigit(s[i])
  }

  function Pow10(n: nat): (p: nat)
    ensures p >= 1
  {
    if n == 0 then 1 else 10 * Pow10(n - 1)
  }

  /** The number a string of decimal digits denotes (leading zeros allowed). */
  function DigitsValue(s: string): (v: nat)
    requires AllDigits(s)
    ensures v < Pow10(|s|)
  {
    if s == [] then 0
    else 10 * DigitsValue(s[..|s| - 1]) + (s[|s| - 1] as int - '0' as int)
  }

  /** A run of digits in which every underscore stands between two digits
      (the grammar `int()` accepts since Python 3.6): a digit, followed by
      nothing, by another run, or by an underscore and another run. */
  predicate IsDigitRun(s: string)
    decreases |s|
  {
    && |s| > 0 && IsDigit(s[0])
    && (|s| == 1 || IsDigitRun(s[1..]) || (s[1] == '_' && IsDigitRun(s[2..])))
  }

  /** The characters of a digit run, read one by one: it starts with a digit,
      holds only digits and underscores, and each underscore is followed by a
      digit. */
  predicate DigitRunChars(s: string)
  {
    && |s| > 0 && IsDigit(s[0])
    && (forall i :: 0 <= i < |s| ==> IsDigit(s[i]) || s[i] == '_')
    && (forall i :: 0 <= i < |s| && s[i] == '_' ==> i + 1 < |s| && IsDigit(s[i + 1]))
  }

  /** The grammar and the character-wise reading agree. */
  lemma {:induction false} DigitRunMeaning(s: string)
    ensures IsDigitRun(s) <==> DigitRunChars(s)
    decreases |s|
  {
    if |s| > 1 {
      DigitRunMeaning(s[1..]);
      DigitRunMeaning(s[2..]);
      if IsDigitRun(s) {
        var rest := if IsDigitRun(s[1..]) then 1 else 2;
        assert forall i :: rest <= i < |s| ==> s[i] == s[rest..][i - rest];
      }
      if DigitRunChars(s) {
        assert forall i :: 1 <= i < |s| ==> s[i] == s[1..][i - 1];
        if s[1] == '_' {
          assert forall i :: 2 <= i < |s| ==> s[i] == s[2..][i - 2];
          assert DigitRunChars(s[2..]);
        } else {
          assert DigitRunChars(s[1..]);
        }
      }
    }
  }

  function RemoveUnderscores(s: string): (r: string)
    ensures |r| <= |s|
    ensures (forall i :: 0 <= i < |s| ==> IsDigit(s[i]) || s[i] == '_') ==> AllDigits(r)
  {
    if s == [] then []
    else (if s[0] == '_' then [] else [s[0]]) + RemoveUnderscores(s[1..])
  }

  /** The whitespace `int()` skips around a number. Non-ASCII characters are
      first turned into a space when Python counts them as whitespace; among
      ASCII characters only tab, line feed, vertical tab, form feed, carriage
      return and space are skipped, so the separators U+001C to U+001F that
      `strip()` removes are refused here. */
  predicate IsIntSpace(c: char)
  {
    ('\t' <= c <= '\r') || c == ' ' || (c >= '\U{80}' && IsSpace(c))
  }

  /** The input after the whitespace `int()` skips at its start. */
  function SkipLeading(s: string): (r: string)
    ensures |r| <= |s| && r == s[|s| - |r|..]
    ensures r == [] || !IsIntSpace(r[0])
  {
    if s != [] && IsIntSpace(s[0]) then SkipLeading(s[1..]) else s
  }

  /** The input without the whitespace `int()` skips at its end. */
  function SkipTrailing(s: string): (r: string)
    ensures |r| <= |s| && r == s[..|r|]
    ensures r == [] || !IsIntSpace(r[|r| - 1])
  {
    if s != [] && IsIntSpace(s[|s| - 1]) then SkipTrailing(s[..|s| - 1]) else s
  }

  /** What `int()` reads between the whitespace it skips at both ends. */
  function Trimmed(s: string): string
  {
    SkipTrailing(SkipLeading(s))
  }

  /** `int(s)`: surrounding whitespace is ignored, one optional sign is read,
      then a digit run must make up the rest; anything else is a ValueError. */
  function ParseInt(s: string): Result<int>
  {
    ReadNumber(Trimmed(s))
  }

  /** What `int()` makes of the text between the whitespace it skips. */
  function ReadNumber(t: string): Result<int>
  {
    var signed := |t| > 0 && (t[0] == '+' || t[0] == '-');
    var body := if signed then t[1..] else t;
    if !IsDigitRun(body) then Err(ValueError)
    else
      DigitRunMeaning(body);
      var magnitude: int := DigitsValue(RemoveUnderscores(body));
      Ok(if |t| > 0 && t[0] == '-' then -magnitude else magnitude)
  }

  /** A string with nothing for `int()` to skip at its ends is read whole. */
  lemma TrimmedUnpadded(s: string)
    requires s != [] && !IsIntSpace(s[0]) && !IsIntSpace(s[|s| - 1])
    ensures Trimmed(s) == s
  {
    assert SkipLeading(s) == s;
  }

  /** The text `int()` reads is a contiguous piece of its input starting at
      `TrimStart(s)`, and everything around it is whitespace `int()` skips. */
  function TrimStart(s: string): nat
  {
    |s| - |SkipLeading(s)|
  }

  lemma {:induction false} TrimmedMeaning(s: string)
    ensures TrimStart(s) + |Trimmed(s)| <= |s|
    ensures Trimmed(s) == s[TrimStart(s)..TrimStart(s) + |Trimmed(s)|]
    ensures forall k :: 0 <= k < TrimStart(s) ==> IsIntSpace(s[k])
    ensures forall k :: TrimStart(s) + |Trimmed(s)| <= k < |s| ==> IsIntSpace(s[k])
  {
    var l := SkipLeading(s);
    var i := |s| - |l|;
    SkipLeadingCuts(s);
    var r := SkipTrailing(l);
    SkipTrailingCuts(l);
    assert l == s[i..];
    assert r == l[..|r|];
    assert s[i..i + |r|] == l[..|r|];
    forall k | i + |r| <= k < |s| ensures IsIntSpace(s[k]) {
      assert s[k] == l[k - i];
    }
  }

  lemma {:induction false} SkipLeadingCuts(s: string)
    ensures forall k :: 0 <= k < |s| - |SkipLeading(s)| ==> IsIntSpace(s[k])
  {
    if s != [] && IsIntSpace(s[0]) {
      SkipLeadingCuts(s[1..]);
      forall k | 0 <= k < |s| - |SkipLeading(s)| ensures IsIntSpace(s[k]) {
        if k > 0 { assert s[k] == s[1..][k - 1]; }
      }
    }
  }

  lemma {:induction false} SkipTrailingCuts(s: string)
    ensures forall k :: |SkipTrailing(s)| <= k < |s| ==> IsIntSpace(s[k])
  {
    if s != [] && IsIntSpace(s[|s| - 1]) {
      var t := s[..|s| - 1];
      SkipTrailingCuts(t);
      forall k | |SkipTrailing(s)| <= k < |s| ensures IsIntSpace(s[k]) {
        if k < |s| - 1 { assert s[k] == t[k]; }
      }
    }
  }

  /** `str(n)` for a non-negative integer. */
  function DecimalString(n: nat): (s: string)
    ensures |s| > 0 && AllDigits(s)
  {
    if n < 10 then [('0' as int + n) as char]
    else DecimalString(n / 10) + [('0' as int + n % 10) as char]
  }

  lemma {:induction false} DecimalStringValue(n: nat)
    ensures DigitsValue(DecimalString(n)) == n
  {
    if n >= 10 {
      DecimalStringValue(n / 10);
      var s := DecimalString(n);
      assert s[..|s| - 1] == DecimalString(n / 10);
    }
  }

  /** Leading zeros do not change the value of a digit string. */
  lemma {:induction false} LeadingZerosValue(k: nat, s: string)
    requires AllDigits(s)
    ensures AllDigits(Zeros(k) + s) && DigitsValue(Zeros(k) + s) == DigitsValue(s)
    decreases |s|
  {
    var z := Zeros(k);
    assert AllDigits(z + s) by {
      forall i | 0 <= i < |z + s| ensures IsDigit((z + s)[i]) {
        if i >= k { assert (z + s)[i] == s[i - k]; }
      }
    }
    if s == [] {
      assert z + s == z;
      ZerosValue(k);
    } else {
      var s' := s[..|s| - 1];
      assert (z + s)[..|z + s| - 1] == z + s';
      LeadingZerosValue(k, s');
    }
  }

  function Zeros(k: nat): (z: string)
    ensures |z| == k && forall i :: 0 <= i < k ==> z[i] == '0'
  {
    if k == 0 then [] else Zeros(k - 1) + ['0']
  }

  lemma {:induction false} ZerosValue(k: nat)
    ensures AllDigits(Zeros(k)) && DigitsValue(Zeros(k)) == 0
  {
    if k > 0 {
      ZerosValue(k - 1);
      assert Zeros(k)[..k - 1] == Zeros(k - 1);
    }
  }

  lemma {:induction false} RemoveUnderscoresOfDigits(s: string)
    requires AllDigits(s)
    ensures RemoveUnderscores(s) == s
  {
    if s != [] {
      RemoveUnderscoresOfDigits(s[1..]);
    }
  }

  /** `int()` reads back every zero-padded `str(n)`: with no padding this is
      the round trip `int(str(n)) == n`, and with padding it is how the
      zero-padded sequence numbers of file names are read. */
  lemma {:induction false} ParseZeroPadded(k: nat, n: nat)
    ensures ParseInt(Zeros(k) + DecimalString(n)) == Ok(n)
  {
    var d := DecimalString(n);
    var s := Zeros(k) + d;
    LeadingZerosValue(k, d);
    DecimalStringValue(n);
    ParseDigits(s);
  }

  /** On a non-empty string of plain digits `int()` gives its decimal value. */
  lemma {:induction false} ParseDigits(s: string)
    requires |s| > 0 && AllDigits(s)
    ensures ParseInt(s) == Ok(DigitsValue(s))
  {
    assert IsDigit(s[0]) && IsDigit(s[|s| - 1]);
    TrimmedUnpadded(s);
    DigitRunMeaning(s);
    RemoveUnderscoresOfDigits(s);
    assert ReadNumber(s) == Ok(DigitsValue(s));
  }

  /** `int()` refuses a blank string: one made only of characters
      `str.isspace()` accepts. */
  lemma ParseBlank(s: string)
    requires forall k :: 0 <= k < |s| ==> IsSpace(s[k])
    ensures ParseInt(s) == Err(ValueError)
  {
    TrimmedMeaning(s);
    var t := Trimmed(s);
    if t != [] {
      assert t[0] == s[TrimStart(s)];
    }
  }

  /** `int()` refuses a string holding a character that is neither
      whitespace it skips, a sign, a digit nor an underscore. */
  lemma ParseRejectsChar(s: string, k: nat)
    requires k < |s| && !IsIntSpace(s[k]) && !IsDigit(s[k]) && s[k] != '_' && s[k] != '+' && s[k] != '-'
    ensures ParseInt(s) == Err(ValueError)
  {
    TrimmedMeaning(s);
    var t := Trimmed(s);
    var j := k - TrimStart(s);
    assert s[k] == t[j];
    ReadNumberRejectsChar(t, j);
  }

  lemma ReadNumberRejectsChar(t: string, j: nat)
    requires j < |t| && !IsDigit(t[j]) && t[j] != '_' && t[j] != '+' && t[j] != '-'
    ensures ReadNumber(t) == Err(ValueError)
  {
    var signed := |t| > 0 && (t[0] == '+' || t[0] == '-');
    var body := if signed then t[1..] else t;
    DigitRunMeaning(body);
    if signed {
      assert t[j] == body[j - 1];
    } else {
      assert t[j] == body[j];
    }
  }

  /** A value `int()` reads from a string without a minus sign is a
      non-negative number with at most as many digits as the string has
      characters. */
  lemma ParseBound(s: string)
    requires ParseInt(s).Ok? && '-' !in s
    ensures 0 <= ParseInt(s).value < Pow10(|s|)
  {
    var t := Trimmed(s);
    TrimmedMeaning(s);
    ReadNumberBound(t);
    Pow10Monotone(|t|, |s|);
  }

  lemma ReadNumberBound(t: string)
    requires ReadNumber(t).Ok? && '-' !in t
    ensures 0 <= ReadNumber(t).value < Pow10(|t|)
  {
    var signed := |t| > 0 && t[0] == '+';
    var body := if signed then t[1..] else t;
    DigitRunMeaning(body);
    var digits := RemoveUnderscores(body);
    assert ReadNumber(t) == Ok(DigitsValue(digits));
    Pow10Monotone(|digits|, |t|);
  }

  /** The file, group, record and unit separators U+001C to U+001F are
      whitespace to `strip()` but not to `int()`: a number next to one is
      refused. */
  lemma ParseRefusesSeparator(s: string, k: nat)
    requires k < |s| && '\U{1C}' <= s[k] <= '\U{1F}'
    ensures IsSpace(s[k]) && ParseInt(s) == Err(ValueError)
  {
    ParseRejectsChar(s, k);
  }

  lemma {:induction false} Pow10Monotone(m: nat, n: nat)
    requires m <= n
    ensures Pow10(m) <= Pow10(n)
  {
    if m < n {
      Pow10Monotone(m, n - 1);
    }
  }
}

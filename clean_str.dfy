/** `clean_str`: the file-name sanitiser, which keeps only the characters of
    its input that may appear in a file name, in their original order. */
module CleanStr {

  /** The characters from `lo` to `hi`, in order. */
  function CharRange(lo: char, hi: char): (r: string)
    requires hi < '\U{80}'
    ensures forall c :: c in r <==> lo <= c <= hi
    decreases hi as int - lo as int
  {
    if lo > hi then []
    else if lo == hi then [lo]
    else [lo] + CharRange((lo as int + 1) as char, hi)
  }

  /** `string.ascii_letters` and `string.digits` */
  const AsciiLetters: string := CharRange('a', 'z') + CharRange('A', 'Z')
  const Digits: string := CharRange('0', '9')

  /** `valid_chars`: dash, underscore, dot, both parentheses, space, the ASCII
      letters and the decimal digits. Spaces are kept, not replaced. */
  const ValidChars: string := "-_.() " + AsciiLetters + Digits

  /** Membership in `valid_chars`, by ranges (ValidCharsExactly ties the two). */
  predicate IsValidChar(c: char)
  {
    c == '-' || c == '_' || c == '.' || c == '(' || c == ')' || c == ' '
    || 'a' <= c <= 'z' || 'A' <= c <= 'Z' || '0' <= c <= '9'
  }

  /** `c in valid_chars` holds exactly for the characters IsValidChar accepts. */
  lemma ValidCharsExactly(c: char)
    ensures c in ValidChars <==> IsValidChar(c)
  {
  }

  predicate AllValid(s: string)
  {
    forall i :: 0 <= i < |s| ==> IsValidChar(s[i])
  }

  /** `clean_str(s)`: the characters of `s` that are in `valid_chars`, in order. */
  function Clean(s: string): (r: string)
    ensures |r| <= |s|
    ensures AllValid(r)
  {
    if s == [] then []
    else (if IsValidChar(s[0]) then [s[0]] else []) + Clean(s[1..])
  }

  /** `sub` can be obtained from `s` by deleting characters (matched greedily
      from the left). */
  predicate IsSubsequence(sub: string, s: string)
    decreases |s|
  {
    sub == [] ||
      (s != [] &&
        if sub[0] == s[0] then IsSubsequence(sub[1..], s[1..]) else IsSubsequence(sub, s[1..]))
  }

  /** Order is preserved: the cleaned string is a subsequence of the input. */
  lemma {:induction false} CleanIsSubsequence(s: string)
    ensures IsSubsequence(Clean(s), s)
  {
    if s != [] {
      CleanIsSubsequence(s[1..]);
      var rest := Clean(s[1..]);
      if IsValidChar(s[0]) {
        assert Clean(s) == [s[0]] + rest;
        assert Clean(s)[1..] == rest;
      } else {
        assert Clean(s) == rest;
        assert rest != [] ==> rest[0] != s[0];
      }
    }
  }

  /** Nothing valid is lost and nothing invalid is kept: every valid
      character occurs in the result exactly as often as in the input, and an
      invalid one not at all. Together with CleanIsSubsequence this pins the
      result down: it is `s` with exactly its invalid characters deleted. */
  lemma {:induction false} CleanCounts(s: string)
    ensures forall c :: multiset(Clean(s))[c] == if IsValidChar(c) then multiset(s)[c] else 0
  {
    if s != [] {
      CleanCounts(s[1..]);
      assert s == [s[0]] + s[1..];
      assert multiset(s) == multiset([s[0]]) + multiset(s[1..]);
    }
  }

  /** A character occurs in `clean_str(s)` if and only if it occurs in `s`
      and is valid. */
  lemma CleanMembership(s: string, c: char)
    ensures c in Clean(s) <==> c in s && IsValidChar(c)
  {
    CleanCounts(s);
    assert c in Clean(s) <==> multiset(Clean(s))[c] > 0;
    assert c in s <==> multiset(s)[c] > 0;
  }

  /** `clean_str` leaves a string alone exactly when it is already made of
      valid characters. */
  lemma {:induction false} CleanFixpoint(s: string)
    ensures Clean(s) == s <==> AllValid(s)
  {
    if s != [] {
      CleanFixpoint(s[1..]);
      if !IsValidChar(s[0]) {
        assert |Clean(s)| <= |s[1..]| < |s|;
      } else {
        assert AllValid(s) <==> AllValid(s[1..]);
      }
    }
  }

  /** Idempotence: `clean_str(clean_str(s)) == clean_str(s)`. */
  lemma CleanIdempotent(s: string)
    ensures Clean(Clean(s)) == Clean(s)
  {
    CleanFixpoint(Clean(s));
  }

  /** Cleaning works character by character, so it distributes over
      concatenation. */
  lemma {:induction false} CleanConcat(a: string, b: string)
    ensures Clean(a + b) == Clean(a) + Clean(b)
  {
    if a == [] {
      assert a + b == b;
    } else {
      var ab := a + b;
      assert ab[0] == a[0];
      assert ab[1..] == a[1..] + b;
      var head := if IsValidChar(a[0]) then [a[0]] else [];
      assert Clean(ab) == head + Clean(a[1..] + b);
      CleanConcat(a[1..], b);
      assert Clean(a) == head + Clean(a[1..]);
    }
  }
}

/** The Python `str` builtins the core relies on, on `seq<char>`. */
module Text {

  /** `str.isspace()` for one character: the characters Python 3 treats as
      whitespace, which `str.strip()` removes. */
  predicate IsSpace(c: char)
  {
    || ('\t' <= c <= '\r')              // \t \n \v \f \r
    || ('\U{1C}' <= c <= '\U{1F}')      // file, group, record and unit separators
    || c == ' ' || c == '\U{85}' || c == '\U{A0}' || c == '\U{1680}'
    || ('\U{2000}' <= c <= '\U{200A}')
    || c == '\U{2028}' || c == '\U{2029}' || c == '\U{202F}' || c == '\U{205F}' || c == '\U{3000}'
  }

  /** `s.startswith(p)` */
  predicate StartsWith(s: string, p: string)
  {
    |p| <= |s| && s[..|p|] == p
  }

  /** `s.lstrip()` */
  function StripLeft(s: string): (r: string)
    ensures |r| <= |s| && r == s[|s| - |r|..]
    ensures r == [] || !IsSpace(r[0])
  {
    if s != [] && IsSpace(s[0]) then StripLeft(s[1..]) else s
  }

  /** `s.rstrip()` */
  function StripRight(s: string): (r: string)
    ensures |r| <= |s| && r == s[..|r|]
    ensures r == [] || !IsSpace(r[|r| - 1])
  {
    if s != [] && IsSpace(s[|s| - 1]) then StripRight(s[..|s| - 1]) else s
  }

  /** `s.strip()` */
  function Strip(s: string): string
  {
    StripRight(StripLeft(s))
  }

  /** A string that `strip()` leaves alone: no whitespace at either end. */
  predicate Unpadded(s: string)
  {
    s == [] || (!IsSpace(s[0]) && !IsSpace(s[|s| - 1]))
  }

  /** Where the text kept by `strip()` begins in its input. */
  function StripStart(s: string): nat
  {
    |s| - |StripLeft(s)|
  }

  /** `strip()` removes exactly the whitespace at both ends: its result is a
      contiguous piece of the input with no whitespace at either end, and
      everything cut off before and after it is whitespace. */
  lemma {:induction false} StripMeaning(s: string)
    ensures StripStart(s) + |Strip(s)| <= |s|
    ensures Strip(s) == s[StripStart(s)..StripStart(s) + |Strip(s)|]
    ensures Unpadded(Strip(s))
    ensures forall k :: 0 <= k < StripStart(s) ==> IsSpace(s[k])
    ensures forall k :: StripStart(s) + |Strip(s)| <= k < |s| ==> IsSpace(s[k])
  {
    var l := StripLeft(s);
    var i := |s| - |l|;
    StripLeftCuts(s);
    var r := StripRight(l);
    StripRightCuts(l);
    assert l == s[i..];
    assert r == l[..|r|];
    assert s[i..i + |r|] == l[..|r|];
    forall k | i + |r| <= k < |s| ensures IsSpace(s[k]) {
      assert s[k] == l[k - i];
    }
  }

  lemma {:induction false} StripLeftCuts(s: string)
    ensures forall k :: 0 <= k < |s| - |StripLeft(s)| ==> IsSpace(s[k])
  {
    if s != [] && IsSpace(s[0]) {
      StripLeftCuts(s[1..]);
      forall k | 0 <= k < |s| - |StripLeft(s)| ensures IsSpace(s[k]) {
        if k > 0 { assert s[k] == s[1..][k - 1]; }
      }
    }
  }

  lemma {:induction false} StripRightCuts(s: string)
    ensures forall k :: |StripRight(s)| <= k < |s| ==> IsSpace(s[k])
  {
    if s != [] && IsSpace(s[|s| - 1]) {
      var t := s[..|s| - 1];
      StripRightCuts(t);
      forall k | |StripRight(s)| <= k < |s| ensures IsSpace(s[k]) {
        if k < |s| - 1 { assert s[k] == t[k]; }
      }
    }
  }

  /** A string with no whitespace at its ends survives `strip()` unchanged,
      also when a run of trailing whitespace (a line terminator) follows it. */
  lemma {:induction false} StripTrailing(s: string, w: string)
    requires Unpadded(s)
    requires forall k :: 0 <= k < |w| ==> IsSpace(w[k])
    ensures Strip(s + w) == s
  {
    if s == [] {
      StripAllSpace(w);
    } else {
      assert StripLeft(s + w) == s + w;
      StripRightSuffix(s, w);
    }
  }

  lemma {:induction false} StripAllSpace(w: string)
    requires forall k :: 0 <= k < |w| ==> IsSpace(w[k])
    ensures StripLeft(w) == []
  {
    if w != [] {
      StripAllSpace(w[1..]);
    }
  }

  lemma {:induction false} StripRightSuffix(s: string, w: string)
    requires s != [] && !IsSpace(s[|s| - 1])
    requires forall k :: 0 <= k < |w| ==> IsSpace(w[k])
    ensures StripRight(s + w) == s
    decreases |w|
  {
    if w == [] {
      assert s + w == s;
    } else {
      var w' := w[..|w| - 1];
      assert (s + w)[..|s + w| - 1] == s + w';
      StripRightSuffix(s, w');
    }
  }

  /** The pieces of `s.split(sep)`: never an empty list; the empty string
      splits into one empty piece. */
  function Split(s: string, sep: char): (parts: seq<string>)
    ensures |parts| >= 1
  {
    if s == [] then [[]]
    else
      var rest := Split(s[1..], sep);
      if s[0] == sep then [[]] + rest else [[s[0]] + rest[0]] + rest[1..]
  }

  /** `sep.join(parts)` */
  function Join(parts: seq<string>, sep: char): string
    requires |parts| >= 1
  {
    if |parts| == 1 then parts[0] else parts[0] + [sep] + Join(parts[1..], sep)
  }

  /** Round trip: joining the pieces with the separator gives back `s`, and
      no piece contains the separator. */
  lemma {:induction false} SplitJoin(s: string, sep: char)
    ensures Join(Split(s, sep), sep) == s
    ensures forall i :: 0 <= i < |Split(s, sep)| ==> sep !in Split(s, sep)[i]
  {
    if s != [] {
      var rest := Split(s[1..], sep);
      SplitJoin(s[1..], sep);
      if s[0] == sep {
        assert Split(s, sep)[1..] == rest;
      } else {
        var parts := Split(s, sep);
        assert parts[1..] == rest[1..];
        if |rest| == 1 {
          assert Join(parts, sep) == [s[0]] + rest[0];
        } else {
          assert Join(rest, sep) == rest[0] + [sep] + Join(rest[1..], sep);
        }
        forall i | 0 <= i < |parts| ensures sep !in parts[i] {
          if i > 0 { assert parts[i] == rest[i]; }
        }
      }
    }
  }

  /** The text of `s` before the first `sep` (all of `s` if there is none). */
  function TakeUntil(s: string, sep: char): (r: string)
    ensures r <= s && sep !in r
  {
    if s == [] || s[0] == sep then [] else [s[0]] + TakeUntil(s[1..], sep)
  }

  /** The first element of `s.split(sep)` is the text before the first
      `sep`, and there is an element at index 1 exactly when `sep` occurs in `s`. */
  lemma {:induction false} SplitFirst(s: string, sep: char)
    ensures Split(s, sep)[0] == TakeUntil(s, sep)
    ensures |Split(s, sep)| >= 2 <==> sep in s
  {
    if s != [] {
      SplitFirst(s[1..], sep);
    }
  }

  /** When `s` is `a`, then the first `sep`, then `b`, the element at index 1
      of `s.split(sep)` is the text of `b` before its first `sep`. */
  lemma {:induction false} SplitSecond(s: string, sep: char, a: string, b: string)
    requires s == a + [sep] + b && sep !in a
    ensures |Split(s, sep)| >= 2 && Split(s, sep)[1] == TakeUntil(b, sep)
  {
    if s[0] == sep {
      assert a == [] && b == s[1..];
      SplitFirst(b, sep);
    } else {
      assert a != [] && s[1..] == a[1..] + [sep] + b;
      SplitSecond(s[1..], sep, a[1..], b);
    }
  }

  /** `s[:n]`, with Python's meaning of a negative or too large bound. */
  function SliceTo(s: string, n: int): (r: string)
    ensures r <= s
    ensures |r| == if n >= |s| then |s| else if n >= 0 then n else if |s| + n >= 0 then |s| + n else 0
  {
    if n >= |s| then s
    else if n >= 0 then s[..n]
    else if |s| + n >= 0 then s[..|s| + n]
    else []
  }

  /** `s.rfind(c)`: the index of the last `c` in `s`, or -1. */
  function RFind(s: string, c: char): (i: int)
    ensures -1 <= i < |s|
    ensures i >= 0 ==> s[i] == c
    ensures forall k :: i < k < |s| ==> s[k] != c
  {
    if s == [] then -1
    else if s[|s| - 1] == c then |s| - 1
    else RFind(s[..|s| - 1], c)
  }
}

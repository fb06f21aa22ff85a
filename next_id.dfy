/** `get_next_id`: the next sequence number for a prefix, derived from the
    names already in a folder. */
module NextId {
  import opened Wrappers
  import opened Text
  import opened IntParse

  /** `PurePath.stem`: the name without its last suffix. A suffix starts at
      the last dot, provided that dot is neither the first nor the last
      character of the name. */
  function Stem(name: string): (stem: string)
    ensures stem <= name
  {
    var i := RFind(name, '.');
    if 0 < i < |name| - 1 then name[..i] else name
  }

  /** The stem is the name cut at its last dot when that dot is neither the
      first nor the last character, and the whole name otherwise. */
  lemma StemMeaning(name: string)
    ensures var stem := Stem(name);
      stem == name ||
      (0 < |stem| < |name| - 1 && name[|stem|] == '.' && forall k :: |stem| < k < |name| ==> name[k] != '.')
    ensures forall j :: 0 < j < |name| - 1 && name[j] == '.' && (forall k :: j < k < |name| ==> name[k] != '.') ==>
      Stem(name) == name[..j]
  {
  }

  /** The glob `prefix + '*'`: the names that begin with `prefix`. */
  predicate Matches(name: string, prefix: string)
  {
    StartsWith(name, prefix)
  }

  /** `int(f.stem.split('-')[1][:n_digits])` for one matching name: an
      IndexError when the stem holds no dash, a ValueError when the digits
      do not parse. */
  function IdOf(name: string, nDigits: int): Result<int>
  {
    var parts := Split(Stem(name), '-');
    if |parts| < 2 then Err(IndexError)
    else ParseInt(SliceTo(parts[1], nDigits))
  }

  /** What IdOf reads: a stem without a dash raises IndexError; otherwise
      the id is `int()` of the first `n_digits` characters of the text between
      the first dash and the next one (or the end of the stem). */
  lemma IdOfSegment(name: string, nDigits: int, a: string, b: string)
    ensures '-' !in Stem(name) ==> IdOf(name, nDigits) == Err(IndexError)
    ensures Stem(name) == a + "-" + b && '-' !in a ==>
      IdOf(name, nDigits) == ParseInt(SliceTo(TakeUntil(b, '-'), nDigits))
  {
    SplitFirst(Stem(name), '-');
    if Stem(name) == a + "-" + b && '-' !in a {
      SplitSecond(Stem(name), '-', a, b);
    }
  }

  /** How the loop reads one matching name: its id, or the exception
      reading it raises. The scan below is stated for any reader;
      `get_next_id` uses `IdReader(n_digits)`. */
  type Reader = string -> Result<int>

  /** The reader of `get_next_id`: IdOf with a fixed `n_digits`. */
  function IdReader(nDigits: int): Reader
  {
    name => IdOf(name, nDigits)
  }

  /** The value of `max_idx` once the loop has visited `names` in order, or
      the exception that ended the loop. */
  function MaxId(names: seq<string>, prefix: string, read: Reader): Result<int>
  {
    if names == [] then Ok(0)
    else
      var last := names[|names| - 1];
      match MaxId(names[..|names| - 1], prefix, read)
      case Err(e) => Err(e)
      case Ok(m) =>
        if !Matches(last, prefix) then Ok(m)
        else match read(last)
          case Err(e) => Err(e)
          case Ok(i) => Ok(if i > m then i else m)
  }

  /** The value `get_next_id` returns, or the exception it raises. */
  function NextIdOf(names: seq<string>, prefix: string, read: Reader): Result<int>
  {
    match MaxId(names, prefix, read)
    case Err(e) => Err(e)
    case Ok(m) => Ok(m + 1)
  }

  /** `get_next_id(path, prefix, n_digits)`, where `names` are the names of
      the entries of `path` in the order the listing yields them. */
  method GetNextId(names: seq<string>, prefix: string, nDigits: int) returns (r: Result<int>)
    ensures r == NextIdOf(names, prefix, IdReader(nDigits))
  {
    r := Scan(names, prefix, IdReader(nDigits));
  }

  /** The loop of `get_next_id` (lines 72-81), reading each matching name
      with `read`: it keeps the largest id in `maxIdx` and stops at the
      first name that raises. */
  method Scan(names: seq<string>, prefix: string, read: Reader) returns (r: Result<int>)
    ensures r == NextIdOf(names, prefix, read)
  {
    var maxIdx := 0;
    var k := 0;
    while k < |names|
      invariant 0 <= k <= |names|
      invariant MaxId(names[..k], prefix, read) == Ok(maxIdx)
    {
      var name := names[k];
      ScanStep(names, k, prefix, read);
      if Matches(name, prefix) {
        var parsed := read(name);
        if parsed.Err? {
          ErrorPersists(names, k + 1, prefix, read);
          return Err(parsed.error);
        }
        if parsed.value > maxIdx {
          maxIdx := parsed.value;
        }
      }
      k := k + 1;
    }
    assert names[..k] == names;
    return Ok(maxIdx + 1);
  }

  /** One turn of the loop: visiting `names[k]` after a scan that has not
      raised. */
  lemma ScanStep(names: seq<string>, k: nat, prefix: string, read: Reader)
    requires k < |names| && MaxId(names[..k], prefix, read).Ok?
    ensures var m := MaxId(names[..k], prefix, read).value;
      !Matches(names[k], prefix) ==> MaxId(names[..k + 1], prefix, read) == Ok(m)
    ensures Matches(names[k], prefix) && read(names[k]).Err? ==>
      MaxId(names[..k + 1], prefix, read) == Err(read(names[k]).error)
    ensures var m := MaxId(names[..k], prefix, read).value;
      Matches(names[k], prefix) && read(names[k]).Ok? ==>
      MaxId(names[..k + 1], prefix, read) == Ok(if read(names[k]).value > m then read(names[k]).value else m)
  {
    assert names[..k + 1][..k] == names[..k];
  }

  /** Once a name raises, the whole scan raises the same exception. */
  lemma {:induction false} ErrorPersists(names: seq<string>, k: nat, prefix: string, read: Reader)
    requires k <= |names| && MaxId(names[..k], prefix, read).Err?
    ensures MaxId(names, prefix, read) == MaxId(names[..k], prefix, read)
    decreases |names| - k
  {
    if k < |names| {
      assert names[..k + 1][..k] == names[..k];
      ErrorPersists(names, k + 1, prefix, read);
    } else {
      assert names[..k] == names;
    }
  }

  /** The next id is at least 1 and strictly greater than the id of every
      matching name, and every matching name has an id. */
  lemma {:induction false} NextIdAboveAll(names: seq<string>, prefix: string, read: Reader)
    requires NextIdOf(names, prefix, read).Ok?
    ensures NextIdOf(names, prefix, read).value >= 1
    ensures forall k :: 0 <= k < |names| && Matches(names[k], prefix) ==>
      read(names[k]).Ok? && read(names[k]).value < NextIdOf(names, prefix, read).value
  {
    if names != [] {
      var init := names[..|names| - 1];
      NextIdAboveAll(init, prefix, read);
      forall k | 0 <= k < |init| ensures names[k] == init[k] { }
    }
  }

  /** The next id is one more than the largest id of a matching name, or 1
      when there is none. */
  lemma {:induction false} NextIdAttained(names: seq<string>, prefix: string, read: Reader)
    requires NextIdOf(names, prefix, read).Ok?
    ensures var n := NextIdOf(names, prefix, read).value;
      n == 1 || exists k :: 0 <= k < |names| && Matches(names[k], prefix) && read(names[k]) == Ok(n - 1)
  {
    if names != [] {
      var init := names[..|names| - 1];
      var last := names[|names| - 1];
      NextIdAttained(init, prefix, read);
      var m := MaxId(init, prefix, read).value;
      if !(Matches(last, prefix) && read(last).value > m) && m != 0 {
        var k :| 0 <= k < |init| && Matches(init[k], prefix) && read(init[k]) == Ok(m);
        assert names[k] == init[k];
      }
    }
  }

  /** With no matching name the next id is 1. */
  lemma {:induction false} NextIdNoMatch(names: seq<string>, prefix: string, read: Reader)
    requires forall k :: 0 <= k < |names| ==> !Matches(names[k], prefix)
    ensures NextIdOf(names, prefix, read) == Ok(1)
  {
    if names != [] {
      var init := names[..|names| - 1];
      NextIdNoMatch(init, prefix, read);
    }
  }

  /** The call fails exactly when some matching name has no id, and then with
      the exception of the first such name in listing order: a bad name is
      never skipped. */
  lemma {:induction false} NextIdFailure(names: seq<string>, prefix: string, read: Reader)
    ensures NextIdOf(names, prefix, read).Err? <==>
      exists k :: 0 <= k < |names| && Matches(names[k], prefix) && read(names[k]).Err?
    ensures NextIdOf(names, prefix, read).Err? ==>
      exists k :: 0 <= k < |names| && Matches(names[k], prefix)
        && read(names[k]) == Err(NextIdOf(names, prefix, read).error)
        && forall j :: 0 <= j < k && Matches(names[j], prefix) ==> read(names[j]).Ok?
  {
    if names != [] {
      var init := names[..|names| - 1];
      NextIdFailure(init, prefix, read);
      forall k | 0 <= k < |init| ensures names[k] == init[k] { }
      if NextIdOf(init, prefix, read).Ok? {
        NextIdAboveAll(init, prefix, read);
      }
    }
  }

  /** Numbering moves on by one: after a name carrying the returned id is
      added to the folder, wherever the listing places it, the next call
      returns the following id. */
  lemma NextIdAfterAdding(names: seq<string>, prefix: string, read: Reader, added: string, i: nat)
    requires i <= |names| && NextIdOf(names, prefix, read).Ok?
    requires Matches(added, prefix) && read(added) == Ok(NextIdOf(names, prefix, read).value)
    ensures NextIdOf(names[..i] + [added] + names[i..], prefix, read) == Ok(NextIdOf(names, prefix, read).value + 1)
  {
    var n := NextIdOf(names, prefix, read).value;
    var ins := names[..i] + [added] + names[i..];
    assert |ins| == |names| + 1 && ins[i] == added;
    assert forall j :: 0 <= j < i ==> ins[j] == names[j];
    assert forall j :: i < j < |ins| ==> ins[j] == names[j - 1];
    NextIdAboveAll(names, prefix, read);
    NextIdFailure(ins, prefix, read);
    NextIdAboveAll(ins, prefix, read);
    NextIdAttained(ins, prefix, read);
  }

  /** A name that does not begin with the prefix changes nothing, wherever
      the listing places it. */
  lemma NextIdIgnoresOthers(names: seq<string>, prefix: string, read: Reader, other: string, i: nat)
    requires i <= |names| && !Matches(other, prefix)
    ensures NextIdOf(names[..i] + [other] + names[i..], prefix, read) == NextIdOf(names, prefix, read)
  {
    MaxIdIgnoresOthers(names, prefix, read, other, i);
  }

  lemma {:induction false} MaxIdIgnoresOthers(names: seq<string>, prefix: string, read: Reader, other: string, i: nat)
    requires i <= |names| && !Matches(other, prefix)
    ensures MaxId(names[..i] + [other] + names[i..], prefix, read) == MaxId(names, prefix, read)
    decreases |names|
  {
    var ins := names[..i] + [other] + names[i..];
    if i == |names| {
      assert ins[..|ins| - 1] == names;
    } else {
      var init := names[..|names| - 1];
      MaxIdIgnoresOthers(init, prefix, read, other, i);
      assert ins[..|ins| - 1] == init[..i] + [other] + init[i..];
      assert ins[|ins| - 1] == names[|names| - 1];
    }
  }

  /** The first matching name that has no id decides the outcome: its
      exception is the exception of the call, whatever follows it. */
  lemma FirstErrorDecides(names: seq<string>, prefix: string, read: Reader, k: nat)
    requires k < |names| && Matches(names[k], prefix) && read(names[k]).Err?
    requires forall j :: 0 <= j < k && Matches(names[j], prefix) ==> read(names[j]).Ok?
    ensures NextIdOf(names, prefix, read) == Err(read(names[k]).error)
  {
    var init := names[..k];
    NextIdFailure(init, prefix, read);
    assert forall j :: 0 <= j < k ==> init[j] == names[j];
    assert names[..k + 1][..k] == init;
    ErrorPersists(names, k + 1, prefix, read);
  }

  /** A matching name whose stem has no dash aborts the scan with
      IndexError unless an earlier matching name already did. With an empty
      prefix every entry matches, so a single such name in the folder makes
      every call fail. */
  lemma DashlessNameAborts(names: seq<string>, prefix: string, nDigits: int, k: nat)
    requires k < |names| && Matches(names[k], prefix) && '-' !in Stem(names[k])
    requires forall j :: 0 <= j < k && Matches(names[j], prefix) ==> IdOf(names[j], nDigits).Ok?
    ensures NextIdOf(names, prefix, IdReader(nDigits)) == Err(IndexError)
  {
    IdOfSegment(names[k], nDigits, "", "");
    FirstErrorDecides(names, prefix, IdReader(nDigits), k);
  }

  /** The id of a name is read from at most `n_digits` characters, so with no
      minus sign in use it is non-negative and below 10 to the `n_digits`. */
  lemma IdOfBound(name: string, nDigits: nat)
    requires IdOf(name, nDigits).Ok?
    ensures 0 <= IdOf(name, nDigits).value < Pow10(nDigits)
  {
    var parts := Split(Stem(name), '-');
    SplitJoin(Stem(name), '-');
    var seg := SliceTo(parts[1], nDigits);
    assert '-' !in parts[1];
    assert '-' !in seg by {
      forall i | 0 <= i < |seg| ensures seg[i] != '-' { assert seg[i] == parts[1][i]; }
    }
    ParseBound(seg);
    Pow10Monotone(|seg|, nDigits);
  }
}

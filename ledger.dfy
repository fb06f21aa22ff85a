/** `Hasher`: the per-folder ledger of content hashes, kept both in memory
    and in the folder's `.hashes` file, one hash per line. */
module Ledger {
  import opened Wrappers
  import opened Text
  import opened Hashing

  /** `[l.strip() for l in lines]` */
  function StripAll(lines: seq<string>): seq<string>
  {
    seq(|lines|, i requires 0 <= i < |lines| => Strip(lines[i]))
  }

  /** The lines `f.write(l + '\n')` appends for each of `hashes`, as
      `readlines()` returns them. */
  function AsLines(hashes: seq<string>): seq<string>
  {
    seq(|hashes|, i requires 0 <= i < |hashes| => hashes[i] + "\n")
  }

  /** The lines of the ledger file; a missing file reads as no lines. */
  function LinesOf(file: Option<seq<string>>): seq<string>
  {
    match file
    case None => []
    case Some(lines) => lines
  }

  /** Write then read: appending hashes as lines and reading the file back
      (stripping each line) yields what was there plus exactly those hashes. */
  lemma ReadBack(lines: seq<string>, hs: seq<HexDigest>)
    ensures StripAll(lines + AsLines(hs)) == StripAll(lines) + hs
  {
    var all := lines + AsLines(hs);
    forall i | 0 <= i < |hs| ensures Strip(all[|lines| + i]) == hs[i] {
      HexIsUnpadded(hs[i]);
      StripTrailing(hs[i], "\n");
    }
    assert StripAll(all)[..|lines|] == StripAll(lines);
  }

  lemma HexIsUnpadded(h: HexDigest)
    ensures Unpadded(h)
  {
    assert '0' <= h[0] <= 'f' && '0' <= h[|h| - 1] <= 'f';
  }

  /** `is_present(path)` as a function of the hashes held: the first hash
      `md5` gives for `path`, looked up among them. */
  function PresentIn(hashes: seq<string>, fs: FileSystem, p: Path, digest: Digest): Result<bool>
  {
    match Md5Of(fs, p, digest)
    case Err(e) => Err(e)
    case Ok(hs) => if hs == [] then Err(IndexError) else Ok(hs[0] in hashes)
  }

  class Hasher {
    /** `self.hashes` */
    var hashes: seq<string>
    /** The `.hashes` file of the folder: `None` while it does not exist,
        otherwise its lines as `readlines()` returns them. */
    ghost var ledger: Option<seq<string>>

    /** Memory and file agree: the list is what reading the file would give. */
    ghost predicate Valid()
      reads this
    {
      hashes == StripAll(LinesOf(ledger))
    }

    /** `Hasher(path)`, where `existing` is the folder's `.hashes` file as
        found: the list is its stripped lines, or empty when it is absent. */
    constructor (existing: Option<seq<string>>)
      ensures Valid()
      ensures ledger == existing
      ensures existing.Some? ==> hashes == StripAll(existing.value)
      ensures existing.None? ==> hashes == []
    {
      ledger := existing;
      if existing.Some? {
        hashes := StripAll(existing.value);
      } else {
        hashes := [];
      }
    }

    /** `add(path)`: the hashes of `path` are appended, in order, both to the
        list and as lines to the file. When `md5` raises, nothing changes;
        otherwise the file exists afterwards, even when there was nothing to
        append. Nothing already in either is rewritten. */
    method Add(fs: FileSystem, p: Path, digest: Digest) returns (r: Result<()>)
      requires Valid()
      modifies this
      ensures Valid()
      ensures r.Err? <==> Md5Of(fs, p, digest).Err?
      ensures r.Err? ==> r.error == ValueError && hashes == old(hashes) && ledger == old(ledger)
      ensures r.Ok? ==> hashes == old(hashes) + Md5Of(fs, p, digest).value
      ensures r.Ok? ==> ledger == Some(LinesOf(old(ledger)) + AsLines(Md5Of(fs, p, digest).value))
      ensures old(hashes) <= hashes && LinesOf(old(ledger)) <= LinesOf(ledger)
    {
      var hs := Md5(fs, p, digest);
      if hs.Err? {
        Md5Fails(fs, p, digest);
        return Err(hs.error);
      }
      ledger := Some(LinesOf(ledger));
      var k := 0;
      assert AsLines(hs.value[..0]) == [];
      assert ledger.value + [] == ledger.value;
      while k < |hs.value|
        invariant 0 <= k <= |hs.value|
        invariant hashes == old(hashes) + hs.value[..k]
        invariant ledger == Some(LinesOf(old(ledger)) + AsLines(hs.value[..k]))
      {
        var l := hs.value[k];
        assert AsLines(hs.value[..k + 1]) == AsLines(hs.value[..k]) + [l + "\n"];
        assert hs.value[..k + 1] == hs.value[..k] + [l];
        assert ledger.value + [l + "\n"] == LinesOf(old(ledger)) + AsLines(hs.value[..k + 1]);
        ledger := Some(ledger.value + [l + "\n"]);
        hashes := hashes + [l];
        k := k + 1;
      }
      assert hs.value[..k] == hs.value;
      ReadBack(LinesOf(old(ledger)), hs.value);
      return Ok(());
    }

    /** `delete_hashes()`: the list is emptied and the file removed. */
    method DeleteHashes()
      modifies this
      ensures Valid()
      ensures hashes == [] && ledger == None
    {
      hashes := [];
      if ledger.Some? {
        ledger := None;
      }
    }

    /** `is_present(path)`: whether the first hash of `path` is held; `md5`'s
        ValueError passes through, and a path with no hash at all (a directory
        with no regular file in it) raises IndexError. */
    method IsPresent(fs: FileSystem, p: Path, digest: Digest) returns (r: Result<bool>)
      ensures r == PresentIn(hashes, fs, p, digest)
    {
      var hs := Md5(fs, p, digest);
      if hs.Err? {
        return Err(hs.error);
      }
      if |hs.value| == 0 {
        return Err(IndexError);
      }
      return Ok(hs.value[0] in hashes);
    }
  }

  /** Right after `add(f)` for a regular file `f`, `is_present(f)` is true. */
  lemma PresentAfterAddFile(before: seq<string>, fs: FileSystem, f: Path, digest: Digest)
    requires IsFile(fs, f)
    ensures PresentIn(before + Md5Of(fs, f, digest).value, fs, f, digest) == Ok(true)
  {
    assert digest(fs[f].content) in Md5Of(fs, f, digest).value;
  }

  /** Right after `add(d)` for a directory `d`, every regular file directly
      inside `d` is present. */
  lemma PresentAfterAddDir(before: seq<string>, fs: FileSystem, d: Path, i: nat, digest: Digest)
    requires IsDir(fs, d) && i < |fs[d].entries| && IsFile(fs, Child(d, fs[d].entries[i]))
    ensures PresentIn(before + Md5Of(fs, d, digest).value, fs, Child(d, fs[d].entries[i]), digest) == Ok(true)
  {
    Md5Dir(fs, d, digest);
  }

  /** After `delete_hashes()` nothing is present: a regular file is reported
      absent, and no path is reported present. */
  lemma AbsentAfterReset(fs: FileSystem, p: Path, digest: Digest)
    ensures PresentIn([], fs, p, digest) != Ok(true)
    ensures IsFile(fs, p) ==> PresentIn([], fs, p, digest) == Ok(false)
  {
  }

  /** `is_present` answers for a regular file whether its digest is held, and
      raises ValueError for a path that is neither a file nor a directory. */
  lemma PresentOfFile(hashes: seq<string>, fs: FileSystem, p: Path, digest: Digest)
    ensures IsFile(fs, p) ==> PresentIn(hashes, fs, p, digest) == Ok(digest(fs[p].content) in hashes)
    ensures !IsFile(fs, p) && !IsDir(fs, p) ==> PresentIn(hashes, fs, p, digest) == Err(ValueError)
  {
  }

  /** `is_present` on a directory with no regular file directly inside it
      raises IndexError (`md5` gives an empty list and `[0]` fails). */
  lemma PresentOfEmptyDir(hashes: seq<string>, fs: FileSystem, d: Path, digest: Digest)
    requires IsDir(fs, d)
    requires forall i :: 0 <= i < |fs[d].entries| ==> !IsFile(fs, Child(d, fs[d].entries[i]))
    ensures PresentIn(hashes, fs, d, digest) == Err(IndexError)
  {
    var entries := fs[d].entries;
    ChildHashesMeaning(fs, d, entries, digest);
  }
}

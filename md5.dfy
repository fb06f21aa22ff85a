/** `md5`: content hashes of a file, or of the regular files directly inside
    a directory, over an abstract file system. */
module Hashing {
  import opened Wrappers

  newtype Byte = b: int | 0 <= b < 256
  type Bytes = seq<Byte>

  /** What `hexdigest()` of an MD5 hasher yields: 32 lower-case hex digits. */
  predicate IsHexDigest(h: string)
  {
    |h| == 32 && forall i :: 0 <= i < |h| ==> ('0' <= h[i] <= '9' || 'a' <= h[i] <= 'f')
  }

  type HexDigest = h: string | IsHexDigest(h) witness "00000000000000000000000000000000"

  /** The MD5 digest itself is not modelled: every operation that hashes
      takes it as a parameter mapping a file's bytes to its hex digest. */
  type Digest = Bytes -> HexDigest

  /** A path as its sequence of components; `p / name` is `Child(p, name)`. */
  type Path = seq<string>

  function Child(p: Path, name: string): Path
  {
    p + [name]
  }

  /** What a path names. A directory lists its entries in the order the
      listing yields them; `Special` is anything else that exists (a socket,
      a device); a path absent from the map does not exist. */
  datatype Node = File(content: Bytes) | Dir(entries: seq<string>) | Special

  type FileSystem = map<Path, Node>

  /** `p.is_file()` */
  predicate IsFile(fs: FileSystem, p: Path)
  {
    p in fs && fs[p].File?
  }

  /** `p.is_dir()` */
  predicate IsDir(fs: FileSystem, p: Path)
  {
    p in fs && fs[p].Dir?
  }

  /** The hashes the directory loop has appended after visiting `entries`. */
  function ChildHashes(fs: FileSystem, dir: Path, entries: seq<string>, digest: Digest): seq<HexDigest>
  {
    if entries == [] then []
    else
      var init := ChildHashes(fs, dir, entries[..|entries| - 1], digest);
      var c := Child(dir, entries[|entries| - 1]);
      if IsFile(fs, c) then init + [digest(fs[c].content)] else init
  }

  /** The value `md5(p)` returns, or the exception it raises. */
  function Md5Of(fs: FileSystem, p: Path, digest: Digest): Result<seq<HexDigest>>
  {
    if IsDir(fs, p) then Ok(ChildHashes(fs, p, fs[p].entries, digest))
    else if IsFile(fs, p) then Ok([digest(fs[p].content)])
    else Err(ValueError)
  }

  /** `md5(path)` */
  method Md5(fs: FileSystem, p: Path, digest: Digest) returns (r: Result<seq<HexDigest>>)
    ensures r == Md5Of(fs, p, digest)
  {
    if IsDir(fs, p) {
      var entries := fs[p].entries;
      var hashes: seq<HexDigest> := [];
      var k := 0;
      while k < |entries|
        invariant 0 <= k <= |entries|
        invariant hashes == ChildHashes(fs, p, entries[..k], digest)
      {
        assert entries[..k + 1][..k] == entries[..k];
        var f := Child(p, entries[k]);
        if IsFile(fs, f) {
          hashes := hashes + [digest(fs[f].content)];
        }
        k := k + 1;
      }
      assert entries[..k] == entries;
      return Ok(hashes);
    } else if IsFile(fs, p) {
      return Ok([digest(fs[p].content)]);
    } else {
      return Err(ValueError);
    }
  }

  /** The regular files directly inside `dir` among `entries`, in listing
      order. */
  function FileChildren(fs: FileSystem, dir: Path, entries: seq<string>): (cs: seq<Path>)
    ensures forall c :: c in cs <==> IsFile(fs, c) && exists i :: 0 <= i < |entries| && c == Child(dir, entries[i])
  {
    if entries == [] then []
    else
      var init := FileChildren(fs, dir, entries[..|entries| - 1]);
      var c := Child(dir, entries[|entries| - 1]);
      assert forall i :: 0 <= i < |entries| - 1 ==> entries[..|entries| - 1][i] == entries[i];
      if IsFile(fs, c) then init + [c] else init
  }

  /** A directory yields one hash per regular file directly inside it, in
      listing order: the k-th hash is the digest of the k-th such file, and
      subdirectories and other entries contribute nothing. */
  lemma {:induction false} ChildHashesMeaning(fs: FileSystem, dir: Path, entries: seq<string>, digest: Digest)
    ensures var hs := ChildHashes(fs, dir, entries, digest); var cs := FileChildren(fs, dir, entries);
      |hs| == |cs| && forall k :: 0 <= k < |cs| ==> IsFile(fs, cs[k]) && hs[k] == digest(fs[cs[k]].content)
  {
    if entries != [] {
      ChildHashesMeaning(fs, dir, entries[..|entries| - 1], digest);
    }
  }

  /** `md5` on a regular file: exactly one hash, that of its content. */
  lemma Md5File(fs: FileSystem, p: Path, digest: Digest)
    requires IsFile(fs, p)
    ensures Md5Of(fs, p, digest) == Ok([digest(fs[p].content)])
  {
  }

  /** `h` is the digest of a regular file directly inside directory `p`. */
  predicate HashOfChildFile(fs: FileSystem, p: Path, h: HexDigest, digest: Digest)
    requires IsDir(fs, p)
  {
    exists i :: 0 <= i < |fs[p].entries| && IsFile(fs, Child(p, fs[p].entries[i]))
      && h == digest(fs[Child(p, fs[p].entries[i])].content)
  }

  /** `md5` on a directory never fails, and hashes exactly the regular files
      directly inside it: each hash belongs to such a file and each such file
      has its hash in the list. */
  lemma Md5Dir(fs: FileSystem, p: Path, digest: Digest)
    requires IsDir(fs, p)
    ensures Md5Of(fs, p, digest).Ok?
    ensures forall k :: 0 <= k < |Md5Of(fs, p, digest).value| ==>
      HashOfChildFile(fs, p, Md5Of(fs, p, digest).value[k], digest)
    ensures forall i :: 0 <= i < |fs[p].entries| && IsFile(fs, Child(p, fs[p].entries[i])) ==>
      digest(fs[Child(p, fs[p].entries[i])].content) in Md5Of(fs, p, digest).value
  {
    var entries := fs[p].entries;
    var hs := Md5Of(fs, p, digest).value;
    var cs := FileChildren(fs, p, entries);
    ChildHashesMeaning(fs, p, entries, digest);
    forall k | 0 <= k < |hs| ensures HashOfChildFile(fs, p, hs[k], digest) {
      assert cs[k] in cs;
      var i :| 0 <= i < |entries| && cs[k] == Child(p, entries[i]);
      assert hs[k] == digest(fs[Child(p, entries[i])].content);
    }
    forall i | 0 <= i < |entries| && IsFile(fs, Child(p, entries[i]))
      ensures digest(fs[Child(p, entries[i])].content) in hs
    {
      var c := Child(p, entries[i]);
      assert c in cs;
      var k :| 0 <= k < |cs| && cs[k] == c;
      assert hs[k] == digest(fs[c].content);
    }
  }

  /** `md5` raises ValueError exactly when the path is neither a regular file
      nor a directory: it does not exist, or it is something else. */
  lemma Md5Fails(fs: FileSystem, p: Path, digest: Digest)
    ensures Md5Of(fs, p, digest).Err? <==> !IsFile(fs, p) && !IsDir(fs, p)
    ensures Md5Of(fs, p, digest).Err? ==> Md5Of(fs, p, digest).error == ValueError
  {
  }
}

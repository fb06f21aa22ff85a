# kif ingestion core in Dafny

kif copies files into numbered destination folders. It keeps a per-folder ledger of content hashes so the same content is not ingested twice. This project models the logic of `kif/utils.py` and proves properties of that model. It covers four parts:

- **`clean_str`**, the file-name sanitiser (module `CleanStr`). It keeps only the characters of `valid_chars` (`- _ . ( )`, space, ASCII letters, digits), in their original order. Spaces are kept: nothing in this code replaces them with underscores. For example, `My Report #1 (final)` becomes `My Report 1 (final)`, not `My_Report_1_(final)`.
- **`get_next_id`**, the sequence-number rule (module `NextId`). The folder listing is given as the entry names, in listing order. A name matches when it begins with the prefix; this is the glob `prefix + '*'`. For each matching name, the model takes the stem (the `PurePath.stem` rule), splits it on `-`, takes element 1, cuts that to its first `n_digits` characters and parses it with `int()`. The loop keeps the largest id, and the call returns that plus one (1 when nothing matches). The loop (`NextId.Scan`) and the scan lemmas are stated for any reader of one name (`NextId.Reader`); `get_next_id` uses `IdReader(n_digits)`, the rule just described, and the lemmas about that rule apply through it. A stem without a dash raises IndexError. A segment `int()` refuses raises ValueError. Either one ends the whole call; the name is never skipped. With an empty prefix every entry matches, so any stem without a dash in the folder makes every call fail. That includes a name such as `0001_scan.pdf`, which has no dash (`DashlessNameAborts`).
- **`md5`** over an abstract file system (module `Hashing`). A path maps to a regular file (its bytes), a directory (its entry names in listing order) or something else. A missing path has no entry in the map. A regular file gives one hash. A directory gives one hash per regular file directly inside it, in listing order. Anything else raises ValueError; this includes a path that does not exist, where the code raises ValueError rather than a not-found error. The MD5 digest itself is a parameter. Its only known property is that it yields 32 lower-case hex digits.
- **`Hasher`**, the hash ledger (module `Ledger`). It is a class with the in-memory list `hashes` and a ghost field for the `.hashes` file: absent, or its lines as `readlines()` returns them. The invariant `Valid()` says the list is exactly what stripping the file's lines gives. This is what a new `Hasher` on the same folder would load. `Add` appends the same hashes, in the same order, to both and rewrites nothing. `DeleteHashes` empties the list and removes the file. `IsPresent` looks up the first hash `md5` gives for a path.

Python builtins the core relies on are modelled in `Text` (`split`, `strip`, `startswith`, `s[:n]`, `rfind`) and `IntParse` (`int()` on a string, and `str()` for its round trip). `Wrappers` holds the two exception kinds the model produces, IndexError and ValueError; the operating-system errors of file access are not modelled (see below).

## Model

| member | source | states |
|---|---|---|
| `CleanStr.Clean` | kif/utils.py:12-16 | `clean_str(s)` holds only characters of `valid_chars` and is never longer than `s` |
| `CleanStr.ValidCharsExactly` | kif/utils.py:15 | a character is in `valid_chars` if and only if it is a dash, underscore, dot, parenthesis, space, `a`-`z`, `A`-`Z` or `0`-`9` |
| `CleanStr.CleanIsSubsequence` | kif/utils.py:16 | the kept characters keep their original order: the result is a subsequence of the input |
| `CleanStr.CleanCounts` | kif/utils.py:16 | each valid character occurs in the result as often as in the input, and an invalid one never; with the subsequence lemma, the result is exactly the input minus its invalid characters |
| `CleanStr.CleanMembership` | kif/utils.py:16 | a character is in the result if and only if it is in the input and valid |
| `CleanStr.CleanFixpoint` | kif/utils.py:16 | the sanitiser leaves a string unchanged if and only if all its characters are valid |
| `CleanStr.CleanIdempotent` | kif/utils.py:16 | `clean_str(clean_str(s)) == clean_str(s)` |
| `CleanStr.CleanConcat` | kif/utils.py:16 | sanitising a concatenation is the concatenation of the sanitised parts |
| `Text.IsSpace` | kif/utils.py:124 | `str.isspace()` for one character, the set `l.strip()` removes; no contract of its own, used by `Text.StripMeaning` |
| `Text.Strip` | kif/utils.py:124 | `l.strip()`; no contract of its own, characterised by `Text.StripMeaning` |
| `Text.StripMeaning` | kif/utils.py:124 | `strip()` returns a contiguous piece of its input with no whitespace at either end, and all it cuts off is whitespace |
| `Text.StripTrailing` | kif/utils.py:124 | a string without edge whitespace survives `strip()` even with a trailing line terminator |
| `Text.Split` | kif/utils.py:76 | `split('-')`; its contract says only that the list is never empty; characterised by `Text.SplitJoin`, `Text.SplitFirst` and `Text.SplitSecond` |
| `Text.SplitJoin` | kif/utils.py:76 | joining the pieces of `split('-')` with `-` gives back the stem, and no piece contains `-` |
| `Text.SplitFirst` | kif/utils.py:76 | `split('-')` has an element at index 1 if and only if the stem contains a dash; element 0 is the text before the first dash |
| `Text.SplitSecond` | kif/utils.py:76 | element 1 of `split('-')` is the text between the first dash and the next one (or the end) |
| `Text.SliceTo` | kif/utils.py:76 | `s[:n_digits]` is a prefix of `s` whose length is Python's for any bound, including negative ones |
| `Text.StartsWith` | kif/utils.py:70 | `name.startswith(prefix)`; no contract of its own |
| `NextId.Matches` | kif/utils.py:70 | the glob `prefix + '*'` as a literal prefix test; no contract of its own, used by `NextId.NextIdIgnoresOthers` and `NextId.NextIdNoMatch` |
| `NextId.Stem` | kif/utils.py:76 | `f.stem` is a prefix of the name |
| `NextId.StemMeaning` | kif/utils.py:76 | `f.stem` is the name cut at its last dot whenever that dot is neither the first nor the last character, and otherwise the whole name |
| `IntParse.ParseInt` | kif/utils.py:77 | `int(s)`; no contract of its own, characterised by the `IntParse` lemmas below |
| `IntParse.IsIntSpace` | kif/utils.py:77 | the whitespace `int()` skips: tab to carriage return, space, and non-ASCII whitespace; no contract of its own |
| `IntParse.ReadNumber` | kif/utils.py:77 | what `int()` makes of the text between the whitespace it skips: an optional sign, then a digit run; no contract of its own, characterised by `IntParse.ReadNumberRejectsChar` and `IntParse.ReadNumberBound` |
| `IntParse.DigitRunMeaning` | kif/utils.py:77 | the digit-run grammar agrees with the character-wise reading: it starts with a digit, holds only digits and underscores, and each underscore is followed by a digit |
| `IntParse.ReadNumberRejectsChar` | kif/utils.py:77 | a character other than a sign, a digit or an underscore in the trimmed text makes `int()` raise ValueError |
| `IntParse.ReadNumberBound` | kif/utils.py:77 | a value read from trimmed text without a minus sign is non-negative and below 10 to its length |
| `IntParse.Trimmed` | kif/utils.py:77 | the text `int()` reads once the whitespace at both ends is skipped; no contract of its own, characterised by `IntParse.TrimmedMeaning` |
| `IntParse.TrimmedMeaning` | kif/utils.py:77 | `int()` reads a contiguous piece of its input, and all it skips around that piece is whitespace of its own set |
| `IntParse.ParseDigits` | kif/utils.py:77 | `int()` of a non-empty string of ASCII digits is its decimal value |
| `IntParse.ParseZeroPadded` | kif/utils.py:77 | `int()` reads back `str(n)` with any number of leading zeros as `n` |
| `IntParse.ParseBlank` | kif/utils.py:77 | `int()` of an empty string, or of one made only of characters `str.isspace()` accepts, raises ValueError |
| `IntParse.ParseRejectsChar` | kif/utils.py:77 | `int()` raises ValueError on a string holding a character that is not whitespace `int()` skips, a sign, a digit or an underscore |
| `IntParse.ParseRefusesSeparator` | kif/utils.py:77 | a string holding one of U+001C to U+001F, which `strip()` counts as whitespace, is refused by `int()` with ValueError |
| `IntParse.ParseBound` | kif/utils.py:76-77 | a value `int()` reads from a string without a minus sign is non-negative and below 10 to the string's length |
| `NextId.IdOf` | kif/utils.py:76-77 | the id one matching name yields, or the exception; no contract of its own, characterised by `NextId.IdOfSegment` and `NextId.IdOfBound` |
| `NextId.IdOfSegment` | kif/utils.py:76-77 | the id of a name is an IndexError when its stem has no dash, and otherwise `int()` of the first `n_digits` characters of the text after the first dash, up to the next dash |
| `NextId.IdOfBound` | kif/utils.py:76-77 | every id read is non-negative and below 10 to the `n_digits` |
| `NextId.MaxId` | kif/utils.py:72-79 | `max_idx` after the loop over a listing, or the exception that ended it; no contract of its own, the specification `NextId.Scan` is proved against |
| `NextId.NextIdOf` | kif/utils.py:72-81 | `max_idx + 1`, or the exception; no contract of its own, characterised by `NextId.NextIdAboveAll`, `NextId.NextIdAttained` and `NextId.NextIdFailure` |
| `NextId.GetNextId` | kif/utils.py:53-81 | `get_next_id` runs the loop with the reader of lines 76-77 and returns what the scan specification gives: `max_idx + 1` over the matching names in listing order, or the first exception |
| `NextId.Scan` | kif/utils.py:72-81 | the loop, proved against the scan specification for any reader: `maxIdx` tracks the largest id, and the first exception ends it |
| `NextId.ErrorPersists` | kif/utils.py:74-77 | once a name raises, the rest of the listing cannot change the outcome |
| `NextId.NextIdAboveAll` | kif/utils.py:72-81 | a returned id is at least 1 and strictly greater than the id of every matching name |
| `NextId.NextIdAttained` | kif/utils.py:72-81 | a returned id is 1 or exactly one more than the id of some matching name, so it is the maximum plus one |
| `NextId.NextIdNoMatch` | kif/utils.py:70-81 | with no name matching the prefix the result is 1 |
| `NextId.NextIdFailure` | kif/utils.py:74-77 | the call fails if and only if some matching name has no id, and then with the exception of the first such name: nothing is skipped |
| `NextId.FirstErrorDecides` | kif/utils.py:74-77 | the first matching name in listing order that has no id decides the call: its exception is the call's exception |
| `NextId.NextIdAfterAdding` | kif/utils.py:70-81 | after a name carrying the returned id joins the folder, at any position of the listing, the next call returns the following id |
| `NextId.NextIdIgnoresOthers` | kif/utils.py:70 | a name that does not begin with the prefix, inserted at any position of the listing, does not change the result |
| `NextId.MaxIdIgnoresOthers` | kif/utils.py:70-79 | the same for `max_idx`: the loop's value is unchanged by a non-matching name anywhere in the listing |
| `NextId.DashlessNameAborts` | kif/utils.py:76 | a matching name whose stem has no dash makes the call raise IndexError unless an earlier matching name already raised |
| `Hashing.IsHexDigest` | kif/utils.py:92 | the shape of `hexdigest()`: 32 lower-case hex digits; no contract of its own, the constraint of `Hashing.HexDigest` that `Ledger.HexIsUnpadded` relies on |
| `Hashing.IsFile` | kif/utils.py:99 | `is_file()`, here and on line 103: the path is a regular file in the snapshot; no contract of its own, used by `Hashing.FileChildren` and `Hashing.Md5File` |
| `Hashing.IsDir` | kif/utils.py:96 | `is_dir()`: the path is a directory in the snapshot; no contract of its own, used by `Hashing.Md5Dir` and `Hashing.Md5Fails` |
| `Hashing.Md5Of` | kif/utils.py:96-107 | what `md5(path)` returns or raises; no contract of its own, characterised by `Hashing.Md5File`, `Hashing.Md5Dir` and `Hashing.Md5Fails` |
| `Hashing.ChildHashes` | kif/utils.py:97-101 | the hashes of the regular files among a directory's entries, in listing order; no contract of its own, characterised by `Hashing.ChildHashesMeaning` |
| `Hashing.Md5` | kif/utils.py:84-107 | the loop over the directory's entries returns what the `md5` specification gives for the path |
| `Hashing.FileChildren` | kif/utils.py:96-100 | a path is among the files visited if and only if it is a regular file directly inside the directory |
| `Hashing.ChildHashesMeaning` | kif/utils.py:96-101 | a directory yields one hash per regular file directly inside it, in listing order, the k-th being the digest of the k-th such file |
| `Hashing.Md5Dir` | kif/utils.py:96-101 | on a directory `md5` succeeds; every hash belongs to a regular file directly inside, and every such file's hash is in the list |
| `Hashing.Md5File` | kif/utils.py:103-104 | on a regular file `md5` returns exactly one hash, that of its content |
| `Hashing.Md5Fails` | kif/utils.py:96-107 | `md5` raises, and always ValueError, if and only if the path is neither a regular file nor a directory |
| `Ledger.StripAll` | kif/utils.py:124 | `[l.strip() for l in lines]`; no contract of its own, characterised by `Ledger.ReadBack` |
| `Ledger.AsLines` | kif/utils.py:133-134 | the lines `add` writes, one `h + '\n'` per hash; no contract of its own, characterised by `Ledger.ReadBack` |
| `Ledger.Hasher.Valid` | kif/utils.py:120-126 | the list is what a new `Hasher` would load from the file; no contract of its own, established by the constructor and kept by every method |
| `Ledger.ReadBack` | kif/utils.py:122-134 | appending hashes as lines and reading the file back with `strip()` gives the old entries followed by exactly those hashes |
| `Ledger.Hasher.constructor` | kif/utils.py:116-126 | the list is the stripped lines of `.hashes` when the file exists and empty otherwise, and it agrees with the file |
| `Ledger.Hasher.Add` | kif/utils.py:128-135 | the list becomes the old list plus the `md5` hashes; the same hashes are appended as lines to the file, which exists afterwards; nothing is rewritten; list and file still agree; when `md5` raises, nothing changes |
| `Ledger.Hasher.DeleteHashes` | kif/utils.py:137-141 | the list is empty, the file is absent, and they agree |
| `Ledger.Hasher.IsPresent` | kif/utils.py:143-146 | returns whether the first hash of the path is held; ValueError from `md5` passes through, and a path with no hash raises IndexError |
| `Ledger.PresentIn` | kif/utils.py:145-146 | `md5(path)[0] in hashes`, with the exceptions; no contract of its own, characterised by the lemmas below |
| `Ledger.PresentAfterAddFile` | kif/utils.py:128-146 | right after `add(f)` on a regular file, `is_present(f)` is true |
| `Ledger.PresentAfterAddDir` | kif/utils.py:128-146 | right after `add(d)` on a directory, every regular file directly inside it is present |
| `Ledger.AbsentAfterReset` | kif/utils.py:137-146 | after `delete_hashes()` no path is reported present, and a regular file is reported absent |
| `Ledger.PresentOfFile` | kif/utils.py:143-146 | for a regular file `is_present` says whether its digest is held; for a path that is neither file nor directory it raises ValueError |
| `Ledger.PresentOfEmptyDir` | kif/utils.py:145 | `is_present` on a directory with no regular file directly inside it raises IndexError |

## Left out

- `configLogging` and the `logging.debug` calls: they configure and write to process-wide logging and have no other effect.
- The MD5 computation and the reading of file bytes: the digest is a parameter `Bytes -> HexDigest`. Read errors while hashing (permissions, I/O) are not modelled.
- Reading and writing the `.hashes` file: the constructor takes the file's lines as found. The ledger file is a ghost sequence of lines, not the file's text. A pre-existing file whose last line lacks a newline would have the next appended hash joined onto that line; the model does not capture this. Durability and atomicity of the append are not modelled either.
- The file-system snapshot given to `md5` is separate from the ledger's ghost file. In the code, `md5` of the destination folder also hashes `.hashes` itself when it exists at that moment.
- Globbing: the folder listing is given as entry names in listing order; its order and contents are not derived from a real file system. The prefix is matched literally, so glob metacharacters in it (`*`, `?`, `[`) are not interpreted. Symbolic links are not modelled.
- `IntParse.ParseInt`: digits are the ASCII digits only. Python's `int()` also accepts other Unicode decimal digits, and the model reports ValueError for those. Whitespace is the set `int()` skips (`IntParse.IsIntSpace`), which differs from the set `strip()` removes. One sign and single underscores between digits are read as Python reads them.
- `IntParse.ParseInt`: does not model the limit on the number of digits of Python 3.11 and later (4300 by default, configurable with `sys.set_int_max_str_digits`), above which `int()` raises ValueError. The limit depends on the interpreter version and its configuration. When `n_digits >= 0`, the segments line 76 reads are at most `n_digits` characters long.
- kif/cli.py (command-line dispatch, console output, configuration), setup.py and the tests: they are outside this core. The `add_file` ingestion routine and the configuration helpers that cli.py calls are not part of this model. Their source is not among the files modelled, so the ingest-level naming rule and duplicate rejection are not stated here.
- `Ledger.Hasher.Add`, `Ledger.Hasher.constructor`, `Ledger.Hasher.DeleteHashes`: their operating-system errors are abstracted away. The model has no folder that can be missing and no `.hashes` that can be a directory or unreadable. So `open('a')` on a missing folder (FileNotFoundError in `add`), `open('r')` in the constructor and `unlink()` in `delete_hashes` always succeed in the model.
- Concurrency: the code is single-threaded and does no locking; the model has one caller.

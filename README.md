# dirsum manifest handling, modelled in Dafny

`dirsum` records the MD5 checksums of the files under a directory in a
manifest file, one line `hash *path` per file, and later checks or updates
that manifest. This project models the manifest logic of `dirsum.go`:

- reading a manifest (`readFile`, `readFileToMap`): CR LF becomes LF, only lines
  of the form `32 hex digits, " *", path` count, and a relative path is
  joined onto the manifest's directory;
- the entry type (`Checksum.String`, `Checksum.Verify`) and the sort order
  of `Checksums` (`Less`, `Swap`), with the in-place sort `writeFile` runs;
- writing a manifest (`writeFile`): one line per entry in sorted order, with
  the path relative to the manifest, or absolute when it cannot be made relative;
- the walks of the `new` and `update` commands. A walk skips
  directories and the output manifest itself. `new` hashes each file it
  keeps. `update` collects the kept paths as its source set;
- the reconciliation of `update`:
  - with `--delete`, it prunes entries that are not in the source set;
  - it hashes and inserts the source files that have no entry;
  - it flattens the map into a slice;
- `verifyFile`: an `OK` line, or an `ER` header followed by one `Error` or
  `Invalid` line per failing entry;
- `ellipsize`, which shortens a string to a number of runes and ends it with `…`.

The model has one module per part:

| Module | File | Contents |
|---|---|---|
| `Wrappers` | wrappers.dfy | Option and Result |
| `Platform` | platform.dfy | the abstract collaborators |
| `GoStrings` | go_strings.dfy | the parts of Go's `strings` package and string order that are used |
| `Checksums` | checksums.dfy | entries, `Verify`, `Less`, `Swap` and the sort |
| `Manifest` | manifest.dfy | reading, writing and the round trip |
| `Scan` | scan.dfy | the walk callbacks |
| `Update` | update.dfy | reconciliation |
| `Verification` | verification.dfy | `verifyFile` |
| `Display` | display.dfy | `ellipsize` |

Collaborators the model does not look into are parameters, so every
property holds whatever they do:

- the `path/filepath` functions (`PathOps`: `Dir`, `Base`, `Join`, `IsAbs`,
  `Rel`, `Abs`; the last two may fail);
- reading and hashing a file (`Hasher`: a path to a digest or an error);
- the contents of the manifest file read (`Result<string, Error>`);
- the outcome of writing it (`Option<Error>`);
- the entries a `filepath.Walk` visits (`seq<WalkEntry>`, in visiting order).

Go's map iteration order is an arbitrary choice (`:|`) in each loop over a map, and the
contracts hold for every order.

Code that updates state is imperative here:
- `readFile`, `readFileToMap`, `writeFile`, `verifyFile`, the sort, the walk
  callbacks and the three reconciliation loops are methods with loops.
- `ReadFile`, `ReadFileToMap`, `VerifyFile`, `VerifyEntries`, `ScanSources`,
  `ScanNew` and `Prune` are each proved equal to a specification function of
  their inputs: `ParseManifest`, `ToMap`, `Report`, `EntriesReport`,
  `Sources`, `Hashed` and `Pruned`.
- The other methods are tied to a specification by a relation, not an equality:
  - `Sort` is proved to leave the array sorted under `Less` and a permutation
    of its input. No function gives the resulting arrangement.
  - `WriteFile` returns `Render` of the array as `Sort` left it. That
    arrangement is not a function of the input.
  - `Insert` equals `Inserted` when it succeeds. When it fails, it returns the
    error of some source path that has no entry.
  - `Flatten` is related to its map by `Flattens`: the entries along some
    order of the keys.
- The properties are proved as lemmas about those functions.
- `Swap` and the sort work in place on an `array`.
- `targetMap` is a `map` value that the reconciliation loops reassign.

## Model

| member | source | states |
|---|---|---|
| Checksums.Checksum.ToString | dirsum.go:97-99 | `Checksum.String` is the line layout the parser expects: a 32-character hash fills the first 32 characters, then " *", then the path, nothing else |
| Checksums.Less | dirsum.go:107-116 | `Less(a, b)` holds exactly when a's key (lower-case directory, lower-case path) is lexicographically below b's: directory first, path to break a tie |
| Checksums.Checksum.Verify | dirsum.go:84-95 | an error exactly when hashing fails, with that error; valid exactly when the fresh hash equals the recorded one; valid implies no error |
| Checksums.VerifyOutcomes | dirsum.go:84-95 | `Verify` has exactly three outcomes: (false, err) on a hashing error, (false, nil) on a different hash, (true, nil) on the same hash |
| Checksums.UpperCaseHashNeverValid | dirsum.go:90 | with a hasher that writes lower-case hex, a recorded hash holding an upper-case digit never verifies |
| Manifest.StringReadsBack | dirsum.go:97-99 | the line `Checksum.String` gives for an entry with a digest hash and an absolute, single-line path parses back to that entry |
| Checksums.LessIsStrictWeakOrder | dirsum.go:107-116 | `Less` is irreflexive, asymmetric and transitive; two entries are unordered exactly when their (lower-case dir, lower-case path) keys are equal |
| Checksums.NotLessTransitive | dirsum.go:107-116 | "not after" under `Less` is transitive |
| Checksums.Swap | dirsum.go:118-120 | the two positions are exchanged and nothing else changes; the entries are the same multiset |
| Checksums.Sort | dirsum.go:201 | after the in-place sort by `Less` and `Swap` the array is sorted under `Less` and is a permutation of the input |
| Checksums.SortedArrangementUnique | dirsum.go:201 | two sorted arrangements of the same entries with pairwise distinct keys are equal, so the sorted order is unique up to paths equal ignoring case |
| GoStrings.IndexSpec | dirsum.go:145 | `strings.Index` returns an occurrence with none to its left, and returns none exactly when the separator does not occur |
| GoStrings.SplitJoin | dirsum.go:137 | joining the pieces of `strings.Split` with the separator gives the string back |
| GoStrings.SplitPiecesFree | dirsum.go:137 | no piece of `strings.Split` contains the separator |
| Manifest.LinesAreRawLinesWithoutCR | dirsum.go:137 | the lines read are the LF-separated pieces of the raw text, each piece that an LF ends losing one CR before it |
| Manifest.SplitEntryLine | dirsum.go:145-155 | for a matching line, `split[0]` is the 32 hash characters as written and `split[1]` is the text after the first " *" up to the next " *" |
| Manifest.ParseLinesExact | dirsum.go:138-156 | an entry is read exactly when some line matches the pattern and yields it |
| Manifest.OnlyMatchingLineCounts | dirsum.go:138-156 | lines that do not match are skipped silently: one matching line among non-matching ones gives exactly its entry |
| Manifest.ParseLinesAppend | dirsum.go:138-156 | entries are read in file order: the entries of two runs of lines are those of the first followed by those of the second |
| Manifest.ReadFile | dirsum.go:125-160 | a read error is returned as is; otherwise the result is the parsed entries of the text, duplicates kept, in file order |
| Manifest.ToMapFromEntries | dirsum.go:190 | every value of the map is one of the entries read |
| Manifest.ToMapLastWins | dirsum.go:190 | when several entries share a path, the map holds the last of them |
| Manifest.ReadFileToMap | dirsum.go:162-195 | a read error is returned as is; otherwise the result is the map of the parsed entries keyed by path, the last line winning |
| Manifest.RenderFailure | dirsum.go:202-211 | writing fails exactly when some entry's path can be made neither relative nor absolute, with the error of the first such entry |
| Manifest.RenderIsTerminated | dirsum.go:202-214 | when every path can be written, the text is exactly one `hash *path` line per entry, in order, each ended by LF |
| Manifest.WriteFile | dirsum.go:197-217 | the entries end sorted and permuted in place; the result is the first path error, else the write error, else the rendered text |
| Manifest.SerializationDeterministic | dirsum.go:197-217 | two sorted arrangements of the same entries with distinct keys are written as the same text |
| Manifest.RoundTrip | dirsum.go:197-217 | reading back the text written to a manifest gives the entries written, in order, when hashes are digests and paths read back |
| Scan.AdmitExact | dirsum.go:336-360 | the walk callback keeps an entry exactly when there is no walk error, it is not a directory, and it is not the output manifest |
| Scan.OutputNotAdmitted | dirsum.go:345-360 | an entry ending in the output's base name whose absolute path is the output's is never kept |
| Scan.HashedAgreesWithSources | dirsum.go:336-369 | when the `new` walk succeeds, the `update` walk over the same entries keeps exactly the collected paths, and every collected hash is its path's hash |
| Scan.OutputNotHashed | dirsum.go:345-360 | the output manifest is never among the entries the `new` walk collects, the same exclusion as for the `update` walk |
| Scan.ScanNew | dirsum.go:336-369 | the `new` walk's callback over the walk yields `Hashed`: kept files hashed in walk order, or the first error |
| Scan.SourcesExact | dirsum.go:400-428 | a path is in the source set exactly when some walked entry with that path is kept |
| Scan.SourcesFailure | dirsum.go:400-428 | the walk fails exactly when the callback fails on some entry, and then with the first such error |
| Scan.OutputNotASource | dirsum.go:409-424 | the target manifest is never in the source set |
| Scan.ScanSources | dirsum.go:400-428 | the `update` walk's callback over the walk yields `Sources` |
| Update.Prune | dirsum.go:443-450 | the pruning loop leaves exactly the entries whose path is a source |
| Update.PrunedKeys | dirsum.go:443-450 | with delete the keys left are the target keys that are sources; without it nothing is removed; no entry changes |
| Update.Insert | dirsum.go:452-463 | fails exactly when hashing some source path without an entry fails, with such an error; otherwise adds an entry per missing path, keeping existing ones |
| Update.UpdatedEntries | dirsum.go:443-463 | every source has an entry; with delete the keys are the sources, without it no key is lost; existing entries are never recomputed; each new entry is (hash(key), key) |
| Update.UpdateIdempotent | dirsum.go:443-463 | reconciling the updated map against the same sources prunes nothing, hashes nothing and changes nothing |
| Update.Flatten | dirsum.go:465-469 | the slice holds the entries of the map, one per key, in some key order |
| Update.OneEntryPerKey | dirsum.go:465-469 | the slice has exactly one entry per map key; for a map keyed by path, the paths are distinct and are the keys |
| Update.Reconcile | dirsum.go:443-469 | the error of some failing new source path, or the flattened updated map |
| Update.UpdateEntries | dirsum.go:400-469 | a walk error first, then a manifest read error, otherwise the reconciliation of the manifest's map with the source set |
| Verification.VerifyFile | dirsum.go:253-281 | a read error gives the error line alone; otherwise the report of the entries read |
| Verification.VerifyEntries | dirsum.go:260-280 | the verification loop with its `hasErrors` flag prints exactly `EntriesReport` |
| Verification.FindingsExact | dirsum.go:264-275 | an entry line is printed exactly for each entry that is not valid: `Error` when hashing failed, `Invalid` otherwise |
| Verification.NoFindingsIffAllValid | dirsum.go:260-280 | there are no entry lines exactly when every entry is valid |
| Verification.ReportOutcome | dirsum.go:260-280 | the report is `OK` exactly when every entry is valid; otherwise the `ER` header comes first and only once |
| Display.Ellipsize | dirsum.go:286-298 | a string of at most `maxLength` runes (or empty) is kept; a longer one becomes its first `maxLength - 1` runes and `…`, `max(maxLength, 1)` runes in all |

## Left out

- `Checksums.Len` (dirsum.go:103-105) is the length of the slice, `|s|` in Dafny; it has no member of its own.
- The MD5 computation, the streaming copy and the progress display of `generateMd5` (dirsum.go:219-251) are not modelled. A hash is an abstract `Hasher` that may fail. The model assumes the digest is lower-case hex only where a lemma names that assumption.
- `ProgressReader` (dirsum.go:50-77), `printColored`, `sprintfHeader` and terminal detection are not modelled. They are wall-clock time, floating point and terminal output. Printed lines are modelled as `ReportLine` values without colour or layout.
- The command-line wiring, argument checks, help text, `os.Exit`, and the `basic` flag (declared but never read) are not modelled.
- The real semantics of `filepath.Dir`, `Base`, `Join`, `IsAbs`, `Rel` and `Abs` are not modelled; they are abstract functions. `Manifest.RoundTrip` assumes, through `ReadsBack`, that a written path resolves back to the entry's path, rather than proving it.
- The reading of the file in `ioutil.ReadFile`, the writing in `ioutil.WriteFile`, and `filepath.Walk` itself are not modelled. Their outcomes are parameters.
- The directory mode of `verifyCommand`, which walks for manifests and calls `verifyFile` on each, is not modelled: it is file-system plumbing around `verifyFile`.
- The calls of `writeFile` after the `new` and `update` walks are not composed with them. `ScanNew` and `UpdateEntries` end where the slice is handed to `writeFile`, which is modelled on its own.
- Go strings are UTF-8 bytes, and a string is modelled as a sequence of characters. `len` and slicing by byte offset are therefore modelled as counting characters. This is exact for ASCII manifests, and for `ellipsize` on valid UTF-8, where a character is a rune. A Go string may hold invalid UTF-8, such as a file name passed to `ellipsize`. There `RuneCountInString` and `range` count each bad byte as one rune, and `seq<char>` cannot represent such a string.
- `strings.ToLower` is modelled for the ASCII letters only. Other letters are compared as written.
- Checksums.Sort: `sort.Sort` is modelled by an insertion sort built from `Less` and `Swap`. The contract promises only what `sort.Sort` does (sorted, a permutation), not the stability of insertion sort. So the order of paths equal ignoring case is left open.
- Update.Reconcile: when several new source paths fail to hash, the contract says only that the error is one of theirs, because which one is reached first depends on Go's map order.

## Notes on the source

- The path read from a manifest line is `split[1]` of `strings.Split(line, " *")`. It therefore stops at the next " *" when the path itself contains one, rather than running to the end of the line. The model follows the code (`Manifest.SplitEntryLine`). `Manifest.RoundTrip` requires written paths without " *".
- Only a CR directly before an LF is dropped. A CR at the very end of a manifest without a final LF stays in the last line (`Manifest.LinesAreRawLinesWithoutCR`). In that case the pattern `.*$` still matches and the CR becomes part of the path.

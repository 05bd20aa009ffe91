# envmerger in Dafny

A verified model of `envmerger`, a small command-line tool that merges
several env files (`KEY=VALUE` lines, `#` comments, blank lines) into one.
Later files override earlier ones.

The model follows the Go program function by function:

- `go_strings.dfy` (module `GoStrings`): the parts of Go's `strings` package
  that the parser calls. These are `TrimSpace`, `HasPrefix`, `Index` and
  `SplitN(s, "=", 2)`. Whitespace is the fixed set of code points that Go's
  `unicode.IsSpace` accepts.
- `env_file.dfy` (module `EnvFile`): `ReadEnv`. `ParseLine` says what one
  line contributes. `ParseLines` is the fold of the lines into a map.
  `ReadEnv` is the Go loop, a method whose result is proved equal to that
  fold, or to the open or scan error.
- `env_merger.dfy` (module `EnvMerger`): `MergeEnvFiles`. `ReadAll` and
  `Overlay` specify the outer loop: read in order, stop at the first error,
  later maps override earlier ones. `CopyEntries` is the inner
  `for key, value := range env` loop, which may visit keys in any order.
  `ReadAndOverlay` is the outer loop. `WriteEnv` is the output loop.
  `MergeEnvFiles` composes them.

The Go program does I/O; the model takes the I/O as parameters:

- The file system is a `FileSystem`, a map from path to `Readout`. A file
  yields all of its lines, an open error, or a scan error after some lines.
  A path that is not in the map cannot be opened.
- The output side is a `Sink`. Creating the file can fail. The write of
  line number `n` can fail.
- Go map iteration order is random. The write loop picks any remaining key
  (`:|`), and its contract holds for every order. The out-parameter
  `keys` records the order that was used.

The main results are these:

- Skipped lines (blank, comment, no `=`) never change the map.
- Stored keys and values are trimmed. Keys hold no `=` and do not start with `#`.
- Within one file, the last line that defines a key wins.
- The merged key set is the union of the files' key sets. Each value comes
  from the last file that defines the key.
- Merging `A, A` equals merging `A`, including the error.
- The first read error aborts the merge, and the output file is never created.
- The written output, in any order, parses back to the merged map.

## Model

| member | source | states |
|---|---|---|
| GoStrings.IsSpace | envmerger/main.go:22 | the whitespace that trimming removes never includes the separator `=` or the comment mark `#` |
| GoStrings.IsSpaceLatin1 | envmerger/main.go:22 | within Latin-1, whitespace is exactly tab, line feed, vertical tab, form feed, carriage return, space, NEL and NBSP, as in Go's `unicode.IsSpace` |
| GoStrings.TrimSpace | envmerger/main.go:22 | the result has no whitespace at either end |
| GoStrings.TrimSpaceSlice | envmerger/main.go:22 | `TrimSpace` returns exactly the slice between the leading and the trailing whitespace, and everything cut away is whitespace |
| GoStrings.TrimSpaceOfPadded | envmerger/main.go:22 | whitespace added at either end of a non-empty trimmed string is cut away again, and nothing else is |
| GoStrings.TrimSpaceOfSpace | envmerger/main.go:22-25 | a line of whitespace only trims to the empty line, which is then skipped |
| GoStrings.TrimSpaceOfTrimmed | envmerger/main.go:22 | a string with no whitespace at either end is left unchanged |
| GoStrings.TrimSpaceIdempotent | envmerger/main.go:22 | trimming twice gives the same string as trimming once |
| GoStrings.TrimSpaceDropsTrailing | envmerger/main.go:22 | one whitespace character appended to a string, such as a line break, is trimmed away again |
| GoStrings.HasPrefix | envmerger/main.go:25 | holds exactly when the prefix is no longer than the string and matches its first characters one by one |
| GoStrings.Index | envmerger/main.go:30 | -1 exactly when the character is absent; otherwise the position of its first occurrence |
| GoStrings.SplitN2 | envmerger/main.go:30-33 | one part (the whole line) when there is no `=`; otherwise two parts that join back to the line around the first `=`, the first part holding no `=` |
| EnvFile.Open | envmerger/main.go:14-17 | a path the file system holds yields that file; any other path fails to open, with an error naming that path |
| EnvFile.ParseLine | envmerger/main.go:22-37 | a line contributes nothing exactly when it is blank or a comment after trimming, or holds no `=`; otherwise its key and value are trimmed, the key holds no `=` and does not start with `#` |
| EnvFile.ParseLineSplits | envmerger/main.go:30-37 | a line whose trimmed text is `before=after`, with no `=` in `before` and no leading `#`, stores the trimmed `after` under the trimmed `before` |
| EnvFile.Step | envmerger/main.go:22-37 | one line's step keeps every stored entry trimmed, with no `=` or leading `#` in its key |
| EnvFile.ReadResult | envmerger/main.go:14-44 | reading gives a map exactly when the file opens and scans without error, and that map's entries are trimmed; after a scan error the lines read before it are discarded and the scan error is returned |
| EnvFile.ParseLines | envmerger/main.go:21-38 | every key and value stored from a file is trimmed, and no key holds `=` |
| EnvFile.ReadEnv | envmerger/main.go:12-45 | the loop over the lines returns the fold of `ParseLine` over the file's lines, or the open error, or the scan error |
| EnvFile.SkippedLineChangesNothing | envmerger/main.go:24-33 | a blank line, a comment or a line without `=` leaves the map unchanged |
| EnvFile.ParseLinesKeys | envmerger/main.go:21-38 | a key is stored exactly when some line of the file defines it |
| EnvFile.ParseLinesLastWins | envmerger/main.go:37 | a stored key has the value of the last line that defines it |
| EnvFile.ParseLinesAlike | envmerger/main.go:21-38 | lines that parse alike, one for one, give the same map |
| EnvFile.ValueMayHoldEquals | envmerger/main.go:30 | the split is at the first `=` only: `U=a=b` stores `a=b` under `U` |
| EnvMerger.Overlay | envmerger/main.go:57-60 | the overlay holds every key of every map, and the last map's entries unchanged |
| EnvMerger.Merge | envmerger/main.go:49-61 | every entry of a merged map is trimmed, and no merged key holds `=` or starts with `#` |
| EnvMerger.ReadAll | envmerger/main.go:51-56 | reading in order yields one map per input file |
| EnvMerger.ReadAllReadsEach | envmerger/main.go:51-56 | reading succeeds exactly when every file can be read, and then the maps are the files' own, in order |
| EnvMerger.ReadAllFirstError | envmerger/main.go:52-55 | when a file cannot be read, the merge fails with the error of the first such file |
| EnvMerger.ReadAllAppend | envmerger/main.go:51-56 | reading `p + q` reads `p` and then `q`; an error in `p` wins |
| EnvMerger.CopyEntries | envmerger/main.go:58-60 | copying the entries of a map over the merged map, in any key order, lays that map over it |
| EnvMerger.ReadAndOverlay | envmerger/main.go:49-61 | the read-and-overlay loop returns the overlay of the files' maps, or the first read error |
| EnvMerger.WriteEnv | envmerger/main.go:63-77 | a creation error leaves no file; otherwise the written lines are the `key=value` lines of distinct entries, in visiting order, stopping at the failing write or covering every entry |
| EnvMerger.MergeEnvFiles | envmerger/main.go:48-78 | a read error is returned and no output file is created; otherwise the merged map is written as `WriteEnv` states |
| EnvMerger.OverlayKeys | envmerger/main.go:57-60 | a key is in the overlay exactly when some map holds it |
| EnvMerger.OverlayLastWins | envmerger/main.go:57-60 | an overlaid key has the value of the last map that holds it |
| EnvMerger.OverlayAppend | envmerger/main.go:51-60 | overlaying `a + b` lays the overlay of `b` over that of `a` |
| EnvMerger.OverlayTwice | envmerger/main.go:57-60 | overlaying the same maps twice in a row equals overlaying them once |
| EnvMerger.MergeTwice | envmerger/main.go:51-60 | merging the file list `A, A` gives the same map, or the same error, as merging `A` |
| EnvMerger.MergedKeys | envmerger/main.go:51-60 | the merged key set is the union of the key sets of the input files |
| EnvMerger.MergeLastFileWins | envmerger/main.go:51-60 | a merged key has the value from the last file that defines it |
| EnvMerger.MergeTwoFiles | envmerger/main.go:51-60 | merging two readable files gives the second file's map laid over the first's |
| EnvMerger.OverlayValid | envmerger/main.go:57-60 | overlaying maps of trimmed entries keeps every entry trimmed |
| EnvMerger.RecordSplits | envmerger/main.go:71 | the `key=value` text of an entry whose key holds no `=` splits at its first `=` back into that key and value |
| EnvMerger.FormatLineParses | envmerger/main.go:71 | the line break ending a written line does not change what the line parses to |
| EnvMerger.ParseRecord | envmerger/main.go:71 | the `key=value` text written for a stored entry parses back to that same entry |
| EnvMerger.ReadBack | envmerger/main.go:70-75 | parsing the written records for some keys, in any order, gives exactly those keys with their values |
| EnvMerger.ReadBackAll | envmerger/main.go:70-75 | parsing the records of all keys, in any order, gives the map back |
| EnvMerger.OutputReadsBack | envmerger/main.go:70-75 | after a complete write, each written line is a record plus a line break, and the written lines, in the order written, parse back to the merged map |
| EnvMerger.OverrideFirstFile | envmerger/main.go:21-38 | a file of two `key=value` lines stores both entries |
| EnvMerger.OverrideSecondFile | envmerger/main.go:21-38 | a file of two `key=value` lines with a comment between them stores both entries and skips the comment |
| EnvMerger.MergeOverride | envmerger/main.go:48-61 | a second file that redefines one key, adds another and holds a comment gives the union, with the second file's value on the shared key |
| EnvMerger.MergeExample | envmerger/main.go:48-61 | `FOO=1`, `BAR=2` merged with `BAR=3`, `#comment`, `BAZ=4` gives `FOO=1`, `BAR=3`, `BAZ=4` |

## Left out

- Opening, closing and scanning files (envmerger/main.go:14-20, 40-42): these are OS and library I/O. A file is modelled as its `Readout`: its lines, an open error, or a scan error after some lines. The scanner's line splitting is not modelled. That covers dropping a trailing `\r` and its 64 KiB token limit.
- Creating and writing the output (envmerger/main.go:64-75): only the format of each line and the order of the calls are modelled. A failing `Fprintf` writes nothing of its line; partial writes are not modelled. Errors from the deferred `Close` are ignored, as in the Go code.
- Go map iteration order: modelled as an arbitrary choice among the keys not yet visited. Go's randomisation is not modelled.
- `main` and flag parsing (envmerger/main.go:80-98): this is command-line glue. That includes the usage message for an empty file list.
- Strings are sequences of Unicode code points. Bytes that are not valid UTF-8 are not modelled. Go's `TrimSpace` would leave such bytes untouched.
- EnvMerger.OutputReadsBack: states read-back of the written lines one by one. It does not model joining them into one file and scanning that file again. That scan gives back the same lines only when no key or value contains a line break. A real scanner never yields a line holding one, but the model does not restrict the lines of a `Readout` that way.

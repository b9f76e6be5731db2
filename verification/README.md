# files-utils fingerprint and match engine, modelled in Dafny

files-utils has two command-line tools that share one engine:

- `secure-remove` finds the files under a source folder that already exist
  under a target folder.
- `find-duplicates` groups the files under one folder that look identical.

The engine is the same in both tools:

- It walks a directory tree depth-first and stops at the first error.
- It gives every regular file a *fingerprint*: its path, the size the
  directory listing reports, and the lower-case hex MD5 of its first
  `min(bytesForHash, size)` bytes.
- Two fingerprints are "the same file" exactly when their hashes and sizes
  agree.

This project models that engine, proves what each operation computes, and
relates each one to an independent reference definition.

Modules, one file each:

- `Wrappers`: `Option` and `Result`. A `Result` can be propagated with `:-`.
- `Bytes`: the byte type of file contents and digests.
- `Hex`: Go's `%x` rendering of a byte slice, its decoder, and the round trip.
- `FileTree`: the abstract file system. A node is a regular file or a
  directory. A file carries its listed size, its bytes, whether it opens,
  and whether reading it works once it is open.
  A directory carries whether it can be listed, and its children in listing
  order.
- `Comparisons`: the `Fingerprint` record, `FilesAreTheSame`, and `Min`.
- `Hashes`: `FileHash`. MD5 is a parameter, a function from byte sequences to
  16-byte digests.
- `Walker`: `listPathFiles` and `fileExistInList`. The walk is related
  to a flat list of steps (list this directory, hash this file) and a
  fail-fast run of those steps.
- `Sums`: sums over a key order. They are used to reason about iteration in
  Go's map order, which is left unspecified.
- `Seqs`: small facts about splitting sequences.
- `Grouping`: the hash-to-bucket map of `find-duplicates`, plus reference
  definitions of its two statistics.
- `HumanSize`: the unit choice of `humanReadableSize` and its `"%d bytes"`
  case.
- `SecureRemove`: the match loop, the summary, the `rm` command list, and the
  whole run of `secure-remove` after flag parsing.
- `FindDuplicates`: the statistics, the group listing, and the whole run of
  `find-duplicates` after flag parsing.

Output lines are modelled as datatype values, not formatted text. Every place
where Go iterates over a map takes the iteration order as a parameter. The
only requirement on that order is that it lists each key exactly once.

Where the usage text and the code disagree, the model follows the code:

- `-b 0` is documented as "0 for all". In the code it hashes the empty
  prefix. Every hash is then the MD5 of nothing, so two files count as the
  same whenever their sizes agree (`Hashes.ZeroBytesSameSizeIsSame`).
- `find-duplicates` groups on the hash alone. It does not use
  `FilesAreTheSame`, so files of different sizes whose headers agree share a
  group (`FindDuplicates.HashOnlyGroupingMixesSizes`).
- The `rm '<path>'` lines are quoted correctly only for paths without a
  single quote (`SecureRemove.RmCommand`). A path holding one closes the
  quoted word at its first quote (`SecureRemove.RmCommandBreaksOutAtFirstQuote`).
- The target list is searched linearly in target walk order, and the first
  match wins. There is no index by digest.

## Model

| member | source | states |
|---|---|---|
| Comparisons.FilesAreTheSame | utils/comparisons.go:6-16 | two fingerprints are the same file exactly when they agree once both paths are blanked out |
| Comparisons.SameIsEqualityUpToPath | utils/comparisons.go:6-16 | two fingerprints are the same file exactly when they are equal once the path is ignored: hash and size both agree |
| Comparisons.PathIrrelevant | cmd/secure-remove/main.go:35-45 | changing either fingerprint's path never changes whether the two are the same file |
| Comparisons.SameIsEquivalence | cmd/find-duplicates/find-duplicates.go:34-44 | "same file" is reflexive, symmetric and transitive |
| Comparisons.Min | utils/comparisons.go:18-23 | the result is at most each argument and equals one of them |
| Hashes.HeaderSize | utils/hashes.go:14 | the header length is at most bytesForHash, at most the listed size, and equals one of them |
| Hashes.FileHash | utils/hashes.go:12-35 | hashing succeeds exactly when the file opens, can be read (or the header is empty, so nothing is read), and holds at least the header's bytes. Otherwise it fails with an open error naming the joined path, with a read error naming the joined path, or with a short-read error that names no file: end of file when no byte could be read, unexpected end of file when some could. On success the hash is 32 lower-case hex characters that decode to the MD5 of exactly the first HeaderSize bytes |
| Hashes.HashDependsOnlyOnHeader | cmd/secure-remove/main.go:47-70 | two successful hashes are equal exactly when the MD5s of the two headers are equal. Nothing else about the file matters |
| Hashes.ZeroBytesHashEmptyPrefix | cmd/find-duplicates/find-duplicates.go:46-69 | with bytesForHash 0, every openable file hashes to the hex MD5 of the empty sequence |
| Hashes.AgreeingHeadersAreTheSame | cmd/secure-remove/main.go:35-70 | two files whose first bytesForHash bytes and listed sizes agree get fingerprints that are the same file, whatever their later bytes |
| Hashes.ZeroBytesSameSizeIsSame | utils/hashes.go:14-32 | with bytesForHash 0, any two openable files of equal listed size are the same file |
| Hex.DecodeEncode | utils/hashes.go:32 | decoding the `%x` rendering of a byte sequence gives back that sequence |
| Hex.EncodeInjective | utils/hashes.go:32 | two byte sequences have the same `%x` rendering exactly when they are equal |
| Walker.ListPathFiles | cmd/secure-remove/main.go:72-104 | a successful walk returns only files below the walked folder, each with a 32-digit lowercase hex hash |
| Walker.ListEntries | cmd/secure-remove/main.go:81-101 | a successful pass over one listing returns only files below that folder, each with a 32-digit lowercase hex hash |
| Walker.ListEntry | cmd/secure-remove/main.go:82-100 | a listed entry, whether a file or a sub-directory, contributes only files below the folder, each with a 32-digit lowercase hex hash |
| Walker.RunSteps | cmd/find-duplicates/main.go:23-55 | running a step list succeeds exactly when every step succeeds. A failure returns the error of the first failing step, and every step before it succeeded |
| Walker.WalkRunsSteps | cmd/find-duplicates/find-duplicates.go:71-103 | the recursive walk returns exactly what running its flat step list (directory listings and file hashes in depth-first listing order) returns |
| Walker.RunEmitsOnePerFile | cmd/find-duplicates/main.go:32-51 | a successful run emits one fingerprint per file step, in order. Each has the joined path, the listed size and that file's hash |
| Walker.WalkIsFailFast | cmd/secure-remove/main.go:72-104 | the walk succeeds exactly when every directory lists and every file hashes. On failure it returns the first failing step's error. On success it returns one fingerprint per regular file, in depth-first order, with path folder + "/" + name, the listed size, and FileHash's result |
| Walker.FileExistInList | cmd/secure-remove/main.go:106-114 | returns no match exactly when no list entry is the same file as the query. Otherwise the result is a list entry that is the same file |
| Walker.FileExistInListIsFirst | cmd/find-duplicates/main.go:57-65 | the entry returned is the first same-file entry in list order: every earlier entry is not the same file |
| Grouping.Bucket | cmd/find-duplicates/find-duplicates.go:173 | a bucket is no longer than the file list, and each of its entries carries the bucket's hash |
| Grouping.BucketMembers | cmd/find-duplicates/main.go:125 | a file is in the bucket for h exactly when it is in the list and its hash is h |
| Grouping.BucketAppend | cmd/find-duplicates/main.go:121-126 | the bucket of a concatenation is the concatenation of the buckets, so walk order is kept within a bucket |
| Grouping.GroupByHash | cmd/find-duplicates/find-duplicates.go:167-174 | the map's keys are exactly the hashes that occur, and the entry for each hash is the walk-ordered list of files with that hash |
| Grouping.BucketsPartition | cmd/find-duplicates/main.go:119-126 | over any enumeration of the keys, the bucket lengths add up to the number of files, so every file lands in exactly one bucket |
| Grouping.DuplicatedFilesCountsSharedHashes | cmd/find-duplicates/find-duplicates.go:180-186 | summing the length of every bucket with more than one entry, in any key order, counts the files whose hash is shared with another file |
| Grouping.WastedSpaceChargesRepeats | cmd/find-duplicates/main.go:130-138 | summing bucket[0].size × (len − 1), in any key order, equals one walk over the files that charges each repeat of a hash the size of that hash's first file |
| FindDuplicates.DuplicateStats | cmd/find-duplicates/find-duplicates.go:176-189 | the map-order loop computes the shared-hash file count and the repeat-charged wasted size, for every iteration order |
| FindDuplicates.GroupLines | cmd/find-duplicates/find-duplicates.go:191-198 | the listing holds only group headers and member paths, and when not empty it opens with a header, so no path is printed outside a group |
| FindDuplicates.Summary | cmd/find-duplicates/find-duplicates.go:176-189 | the summary holds only the three statistics lines and is printed exactly at verbosity 2, including its "Viewed files" and "Duplicated files" lines |
| FindDuplicates.PrintedHeaders | cmd/find-duplicates/find-duplicates.go:191-198 | a hash heads a group in the listing exactly when its bucket has more than one file |
| FindDuplicates.HeaderFollowedByMembers | cmd/find-duplicates/main.go:143-150 | each printed hash is immediately followed by its bucket's paths, in walk order |
| FindDuplicates.PrintedMembersMatchSummary | cmd/find-duplicates/main.go:128-150 | the number of paths in the group listing equals the "Duplicated files" count |
| FindDuplicates.Report | cmd/find-duplicates/main.go:119-150 | the printed lines are the summary (at verbosity 2 only) followed by the group listing in the given print order |
| FindDuplicates.SummaryOnlyAtTwo | cmd/find-duplicates/find-duplicates.go:176-189 | the "Viewed files" summary line appears in the output exactly at verbosity 2 (not at 3, unlike secure-remove) |
| FindDuplicates.FindDuplicates | cmd/find-duplicates/main.go:113-150 | the run fails with the walk's error when the walk fails. Otherwise it prints the report of the walked files |
| FindDuplicates.ZeroBytesOneBucket | cmd/find-duplicates/main.go:40 | with bytesForHash 0, every fingerprint carries the MD5 of nothing, so there is at most one bucket |
| FindDuplicates.HashOnlyGroupingMixesSizes | cmd/find-duplicates/find-duplicates.go:169-183 | two files of sizes 10 and 3 with equal hashes form one group. They are counted as 2 duplicates with 10 bytes wasted |
| SecureRemove.Removable | cmd/secure-remove/main.go:190-205 | every removable file has a same-file match on the target, and there are no more removable files than source files |
| SecureRemove.RemovableMembers | cmd/secure-remove/main.go:191-193 | a source file is removable exactly when it has a same-file match on the target |
| SecureRemove.RemovableAppend | cmd/secure-remove/main.go:204 | the removable files of a concatenation are the concatenation, so source order is kept |
| SecureRemove.MatchedSizesAgree | cmd/secure-remove/main.go:202 | the freed-space total over the removable source files equals the total over their target matches |
| SecureRemove.FindRemovable | cmd/secure-remove/main.go:187-206 | the loop returns the removable files in source order, their count and the sum of their sizes, plus the verbosity-dependent report lines |
| SecureRemove.MatchLines | cmd/secure-remove/main.go:194-201 | a matched file prints two lines at verbosity 2, one at 0 or 1, and none otherwise. Each line names the file, except the "duplicate on" line, which names the target match |
| SecureRemove.ReportLinesAtZero | cmd/secure-remove/main.go:194-195 | at verbosity 0, the report is exactly one bare path per removable file |
| SecureRemove.ReportLinesAtOne | cmd/secure-remove/main.go:196-197 | at verbosity 1, the report is exactly one "You can delete" line per removable file |
| SecureRemove.ReportLinesAtTwo | cmd/secure-remove/main.go:198-200 | at verbosity 2, each removable file gets a "You can delete" line followed by a "duplicate on" line naming its first target match |
| SecureRemove.ReportLinesSilent | cmd/secure-remove/main.go:193-201 | at any other verbosity the loop prints nothing |
| SecureRemove.Summary | cmd/secure-remove/main.go:208-213 | the summary holds only count and size lines and is printed exactly above verbosity 1, including the removable count and the human size of the freed space |
| SecureRemove.OutputSummary | cmd/secure-remove/main.go:208-213 | the "You can remove" and "You can free" lines appear exactly when verbosity > 1, with the removable count and the human size of the freed space |
| SecureRemove.OutputCommands | cmd/secure-remove/main.go:215-220 | with -g, the output holds exactly one rm command per removable file, in order. Without -g it holds none |
| SecureRemove.DeleteCommands | cmd/secure-remove/main.go:215-220 | the block is printed exactly with -g. It opens with the header line, and its command texts are one rm command per removable file, in order |
| SecureRemove.RmCommand | cmd/secure-remove/main.go:218 | the command is `rm ` followed by one single-quoted shell word holding the path exactly when the path contains no single quote |
| SecureRemove.QuotedWordOf | cmd/secure-remove/main.go:218 | wrapping a text in single quotes gives one quoted shell word holding it exactly when the text contains no single quote |
| SecureRemove.RmCommandBreaksOutAtFirstQuote | cmd/secure-remove/main.go:218 | for a path containing a single quote, the word opened after `rm ` closes at the path's first quote, before the end of the line |
| SecureRemove.Output | cmd/secure-remove/main.go:187-220 | rm commands appear only with -g, and once one is printed every later line is a command too |
| SecureRemove.SecureRemove | cmd/secure-remove/main.go:175-220 | the run fails when either walk fails, and a source error takes precedence. Otherwise it prints the report, the summary and the commands |
| SecureRemove.RedundancyIsDirectional | cmd/secure-remove/main.go:190-205 | a source file matched by two target files is one removable file, while in the reverse direction both target files are removable |
| HumanSize.UnitFor | cmd/secure-remove/main.go:116-133 | the chosen unit's scale is at most the size, and the size is below 1024 of that unit unless the unit is GB |
| HumanSize.UnitForIsUnique | cmd/find-duplicates/main.go:67-84 | the unit with that bracketing property is unique |
| HumanSize.DecimalRoundTrip | cmd/secure-remove/main.go:118 | the `%d` rendering of any integer parses back to that integer |
| HumanSize.HumanReadableSize | cmd/find-duplicates/find-duplicates.go:115-132 | the size is printed as an exact "<n> bytes" text exactly when it is below 1024, and that text parses back to the size. Otherwise it is scaled in the unit UnitFor picks |

## Left out

- Flag parsing, `filepath.Abs`, usage text and `os.Exit` are left out. The
  model starts from the parsed configuration. `bytesForHash` is a natural
  number, because `main` rejects negative values before any walk.
- Real file-system I/O is replaced by an explicit tree. `ioutil.ReadDir`
  sorts entries by name; the tree gives children in listing order and does
  not check that they are sorted. Symbolic links are regular entries,
  because `IsDir` reports on the link itself. A link to a directory opens
  but cannot be read, so it fails the walk with a read error unless the
  header is empty.
- MD5 is a parameter. Its internals, and collisions, are not modelled.
  Properties that need distinct contents to hash apart are stated in terms of
  the MD5 values.
- The `%f` rendering of the KB, MB and GB sizes is left out, because it uses
  floating point. The scaled case carries the unit and the exact size.
- Escape codes, tabs and `printf` spacing are left out. Each output line is a
  datatype value carrying the data it prints.
- Go's map iteration order is randomised. It is a parameter here, constrained
  only to list each key once.
- FindDuplicates.DuplicateStats: does not model int64 wrap-around of the two
  sums, because sums are unbounded integers.
- SecureRemove.FindRemovable: does not model int64 wrap-around of the freed
  space total, because sums are unbounded integers.
- The error values are modelled by kind. An open, listing or read error
  carries its path, as Go's path errors do. A read error (`EISDIR`, `EIO`)
  is `ReadFailed` whether it strikes before or after some bytes arrived,
  since `io.ReadFull` returns it unchanged in both cases. A read that runs
  out of bytes becomes `Eof` or `UnexpectedEof`, with no path. The message
  text of each error is left out. The later `n < headerSize` check is not
  modelled, because it cannot fire once `ReadFull` has succeeded.
- `cmd/find-duplicates` declares its helpers twice, once in each of its two
  files, so the package does not build as shipped. The model has one copy of
  each helper, and both files cite it.
- The `-g` flag of `find-duplicates` is parsed but never used, and it has no
  effect in the model either.
- The record type in the repository root package is not part of this model.
  `Comparisons.Fingerprint` stands for it, with the same three fields.

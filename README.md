# GRFMerge in Dafny

A model of GRFMerge (`src/grfmerge.cpp` of grfcodec), the tool that applies a
GRD patch stream, written by GRFDiff, to a GRF sprite file. Each patch set in
the stream names the file it was made from and carries a list of
(sprite index, sprite) entries. The entries replace the sprites at those
indices in the target. The merged file is written to a temporary file, which
is then installed under the target's name, with the old file kept as a `.bak`
backup.

The model is split into one Dafny module per part of the program:

- `Bytes`: bytes, U16 with wrap-around, little-endian fields, and the fatal errors (`die`).
- `Streams`: an input file as content plus cursor (`Reader`), an output file (`Writer`), `copy` and `copyblock`.
- `RecordCodec`: `copysprite` and `skipsprite`.
  - `Measure` is a function stating where a sprite ends, or why the run dies.
  - The methods are proved to consume exactly that and to mirror every byte read.
- `SpriteFormat`: sprites as values (verbatim, stored, and compressed into runs) and their encoding.
  - The codec accepts exactly these encodings (`MeasureOfEncoding`, `Parse`).
  - The encoding is unambiguous (`EncodeInjective`, `ParseOfEncoding`).
- `Merge`: the entry loop of `mergeset` in merge mode, and the draining loop of the other modes.
  - Both are stated as functions on the streams' contents, with the stateful loops proved against them.
- `MergeCorrectness`: the merge on records. For a target made of encoded sprites and entries with ascending indices, the output is the target with exactly those sprites replaced, the terminator, and a zero checksum.
- `Listing`: the `-l` listing as the state machine over `lastfrom`/`lastto`, proved to print the maximal runs of the indices.
- `Names`: the name check against the embedded name, the default target, and the backup name.
- `Install`: the rename/remove sequence as a function over a map of files, plus its safety properties, and the stateful file system and console it runs on.
- `Wrapper`: `checkisselfextr`, the self-extracting executable check.
- `PatchSet`: `mergeset` as a whole.
- `Driver`: the `domerge` loop over patch sets.

Modelling choices:

- Files are byte sequences.
- Paths and names are byte strings: each character below 256 stands for one byte.
- The file system is a map from names to contents, plus the set of names the host refuses to rename, remove or create.
- The user's answers to `[Y/N]` prompts are a sequence of booleans. Under `-y` every answer is yes, and an exhausted input answers no.
- Every `die` is a `Failure` with its cause. A short read dies before anything is consumed, since the run ends there.
- Indices are 0-based, as the code treats them. The entry with index `s` replaces the sprite preceded by `s` sprites, because `curno` starts at 0 and is incremented before the comparison.

The wrapper check (`checkisselfextr`) does not reset the patch offset:

- For a file that is not an executable (src/grfmerge.cpp:83-84), or an executable without the `JD` stamp, the global `grdofs` keeps its previous value.
- That value can be one set by the earlier check of the program itself (476-486).
- `Wrapper.CheckWrapper` keeps the previous offset in both cases.

## Model

| member | source | states |
|---|---|---|
| Streams.Reader.constructor | src/grfmerge.cpp:440 | an opened file is read from its start |
| Streams.Reader.Seek | src/grfmerge.cpp:451 | `fseek` places the cursor at the given offset |
| Streams.Writer.Write | src/grfmerge.cpp:165-169 | a write appends exactly the bytes given |
| Streams.Copy | src/grfmerge.cpp:157-170 | succeeds exactly when `n` bytes remain; consumes exactly `n` bytes and mirrors exactly those to a real sink |
| Streams.CopyBlock | src/grfmerge.cpp:138-154 | however the 8192-byte pieces fall, succeeds exactly when `size` bytes remain, consumes exactly `size` bytes, and the sink receives exactly the bytes consumed, in order |
| Streams.ReadBytes | src/grfmerge.cpp:278 | reading the name: the next `n` bytes, or a fatal short read consuming nothing |
| Streams.ReadByte | src/grfmerge.cpp:273 | reading the name length: the next byte, or a fatal short read |
| Streams.ReadU16 | src/grfmerge.cpp:268-272 | the little-endian U16 at the cursor, or a fatal short read |
| Streams.ReadU32 | src/grfmerge.cpp:452 | the little-endian U32 at the cursor (the magic), or a fatal short read |
| RecordCodec.RunLength | src/grfmerge.cpp:222-227 | the decoded bytes of a run: `-(code >> 3)` (1..16) for a negative signed code, 128 for code 0, `code` otherwise |
| RecordCodec.RunSize | src/grfmerge.cpp:220-228 | a run occupies its code byte plus one offset byte or its literal bytes: 2..129 bytes |
| RecordCodec.RunsEnd | src/grfmerge.cpp:219-235 | the run loop ends inside the stream, strictly after its start when anything remains to account for |
| RecordCodec.PayloadEnd | src/grfmerge.cpp:205-236 | the payload after `info` ends inside the stream |
| RecordCodec.Measure | src/grfmerge.cpp:197-236 | a sprite consumes at least its 2-byte size field, and at least 3 bytes when present |
| RecordCodec.CopySprite | src/grfmerge.cpp:183-237 | reports presence as `Measure` says, leaves the cursor where `Measure` says the sprite ends, and the sink receives exactly the bytes read, also on a fatal path |
| RecordCodec.CopyPayload | src/grfmerge.cpp:205-236 | transfers exactly the payload `PayloadEnd` delimits: `size` bytes for info 0xFF, `size - 1` for info & 2, sub-header and runs otherwise |
| RecordCodec.CopyRuns | src/grfmerge.cpp:217-235 | the run loop consumes exactly what `RunsEnd` says, dies on an overrun, and mirrors every byte |
| RecordCodec.CopyRun | src/grfmerge.cpp:220-228 | one run: succeeds exactly when the whole run is there, consumes `RunSize` bytes and reports `RunLength` |
| RecordCodec.SkipSprite | src/grfmerge.cpp:239-242 | skipping consumes exactly the bytes copying consumes and reports the same |
| SpriteFormat.Encode | src/grfmerge.cpp:199-236 | an encoded sprite has a non-zero size field and is at least 3 bytes long |
| SpriteFormat.RunsEndOfEncoding | src/grfmerge.cpp:219-235 | with exactly their decoded length to account for, encoded runs are walked to their end, whatever follows |
| SpriteFormat.EncodedSpriteSplit | src/grfmerge.cpp:199-203 | the size field, `info` and payload of an encoded sprite are read back in place |
| SpriteFormat.WrapBack | src/grfmerge.cpp:218 | `size -= 8` on a U16 size field that stores `8 + d` gives `d` back |
| SpriteFormat.WrapForth | src/grfmerge.cpp:218 | storing `8 + (size - 8)` in a U16 gives back any size field, including sizes below 8 |
| SpriteFormat.MeasureOfEncoding | src/grfmerge.cpp:197-236 | the codec measures every encoded sprite as present and ending exactly at its end, whatever surrounds it |
| SpriteFormat.MeasureOfCompressed | src/grfmerge.cpp:215-236 | the same for a sprite whose size is the decoded length |
| SpriteFormat.MeasureOfRuns | src/grfmerge.cpp:215-236 | a sprite with a decoded-length size ends where its runs end |
| SpriteFormat.MeasureAbsent | src/grfmerge.cpp:199-201 | a sprite is absent exactly when its size field is zero, and then only the size field is consumed |
| SpriteFormat.RunAt | src/grfmerge.cpp:220-228 | the run the loop reads at a position is a well-formed run whose encoding is the bytes it consumed |
| SpriteFormat.ParseRuns | src/grfmerge.cpp:219-235 | the runs the loop walked are well-formed runs whose decoded length is exactly the count and whose encoding is the bytes consumed |
| SpriteFormat.Parse | src/grfmerge.cpp:197-236 | every sprite the codec measures as present is the encoding of a well-formed sprite: the codec accepts exactly the encodings |
| SpriteFormat.ParseCompressed | src/grfmerge.cpp:215-236 | the same for sprites whose size is the decoded length |
| SpriteFormat.EncodingInPlace | src/grfmerge.cpp:199-203 | fields found in place make up the sprite's encoding |
| SpriteFormat.EncodeRunSize | src/grfmerge.cpp:220-228 | a run's encoding starts with its code and is as long as the code announces |
| SpriteFormat.EncodeRunInjective | src/grfmerge.cpp:220-228 | a run is determined by its encoding |
| SpriteFormat.EncodeRunsInjective | src/grfmerge.cpp:219-235 | runs are prefix-free: equal encodings are equal run sequences |
| SpriteFormat.EncodeInjective | src/grfmerge.cpp:197-236 | equal encodings are equal sprites |
| SpriteFormat.ParseOfEncoding | src/grfmerge.cpp:197-236 | reading back an encoded sprite gives the sprite itself (round trip) |
| Merge.Inc16 | src/grfmerge.cpp:357 | `++curno` on a U16 wraps 0xFFFF to 0 |
| Merge.CatchUpFrom | src/grfmerge.cpp:357-360 | the catch-up loop ends inside the target with the counter above the entry's index |
| Merge.EntryStep | src/grfmerge.cpp:341-364 | one entry turn stays inside the streams and consumes the index and a record from the patch stream |
| Merge.EntryStepOf | src/grfmerge.cpp:341-364 | an entry turn writes the target records it caught up over, then the patch record, and skips the replaced target record |
| Merge.MergeEntries | src/grfmerge.cpp:340-366 | the entry loop stays inside the streams and never moves the patch cursor back |
| Merge.MergeEntriesUnroll | src/grfmerge.cpp:340-366 | the entry loop is its first turn followed by the rest |
| Merge.CopyRest | src/grfmerge.cpp:376-377 | the tail copy runs through at least the 2-byte terminator |
| Merge.FinalOutput | src/grfmerge.cpp:374-383 | the merged output holds the output so far, at least a terminator and the 4-byte checksum |
| Merge.FinalOutputOf | src/grfmerge.cpp:374-383 | the merged output is the output so far, the rest of the target through its terminator, and the zero checksum |
| Merge.MergeAfterTurn | src/grfmerge.cpp:340-383 | a merge is known from its first turn and the merge after it |
| Merge.DrainFrom | src/grfmerge.cpp:299-303 | draining `n` entries reads exactly `n` indices and stays inside the stream |
| Merge.Drain | src/grfmerge.cpp:299-303 | draining `n` entries from `p` reads `n` indices and ends inside the stream, past at least one index and one size field when `n > 0` |
| Merge.MergeConsumesLikeDrain | src/grfmerge.cpp:340-366 | merging consumes the patch stream exactly as listing or skipping does, so the next set is found at the same place in every mode |
| Merge.CatchUp | src/grfmerge.cpp:357-360 | the catch-up loop computes `CatchUpFrom` and copies exactly the target bytes it consumes |
| Merge.MergeEntry | src/grfmerge.cpp:341-364 | one stateful entry turn computes `EntryStep` on all three streams |
| Merge.MergeAll | src/grfmerge.cpp:339-366 | the stateful entry loop computes `MergeEntries` from `curno = 0` |
| Merge.Finish | src/grfmerge.cpp:374-383 | the stateful finish computes `FinalOutput`: rest of the target, then the zero checksum |
| Merge.DrainEntries | src/grfmerge.cpp:299-303 | the draining loop computes `Drain` |
| MergeCorrectness.SplicedReplaces | src/grfmerge.cpp:339-366 | the spliced records are the target's records with exactly the indexed ones replaced by the entries' records |
| MergeCorrectness.NoReplacementBelow | src/grfmerge.cpp:357-364 | no entry replaces a record below its index |
| MergeCorrectness.EncodeStreamAppend | src/grfmerge.cpp:376-377 | records are laid out one after another |
| MergeCorrectness.TargetLaid | src/grfmerge.cpp:376-383 | a target is its records, its terminator, then anything (the checksum) |
| MergeCorrectness.StreamSlice | src/grfmerge.cpp:357-360 | the bytes between two record offsets are those records' encodings |
| MergeCorrectness.MeasureRecord | src/grfmerge.cpp:362 | each record of a target is measured as present, ending where the next starts |
| MergeCorrectness.CatchUpOfStream | src/grfmerge.cpp:357-360 | catching up from record `j` to index `s` stops at record `s` with the counter at `s + 1` |
| MergeCorrectness.CopyRestOfStream | src/grfmerge.cpp:376-377 | copying the rest of a target runs exactly through its terminator, leaving its checksum |
| MergeCorrectness.RestOfTarget | src/grfmerge.cpp:376-377 | the rest from record `k` is the remaining records and the terminator |
| MergeCorrectness.EntryFields | src/grfmerge.cpp:341-363 | an entry is its index followed by its record |
| MergeCorrectness.EntryAt | src/grfmerge.cpp:341-363 | the first encoded entry is read back: its index and a record measured exactly |
| MergeCorrectness.EntriesAfter | src/grfmerge.cpp:340-366 | the following entries come right after the first |
| MergeCorrectness.TargetTurn | src/grfmerge.cpp:357-362 | the target side of a turn copies the records before the index and stops at the replaced one |
| MergeCorrectness.EntryOverTarget | src/grfmerge.cpp:341-364 | one turn copies the records before the index, drops the replaced record and writes the patch record |
| MergeCorrectness.EntryStepOfStream | src/grfmerge.cpp:341-364 | the same for the first of ascending encoded entries |
| MergeCorrectness.FinishOfStream | src/grfmerge.cpp:374-383 | the finish writes the remaining records, the terminator and the zero checksum |
| MergeCorrectness.SplicedStep | src/grfmerge.cpp:357-364 | the spliced records are the ones before the first index, the entry's record, then the spliced rest |
| MergeCorrectness.AscendingTail | src/grfmerge.cpp:340-366 | after the first entry the rest ascend from its index plus one |
| MergeCorrectness.MergeOfStream | src/grfmerge.cpp:339-383 | merging ascending entries from any record on writes the spliced records, the terminator and the zero checksum, and consumes exactly the entries |
| MergeCorrectness.MergeOfStreamStep | src/grfmerge.cpp:339-383 | the inductive step of the merge theorem |
| MergeCorrectness.MergeTarget | src/grfmerge.cpp:339-383 | the merge of a whole patch set: untouched records copied byte for byte and in order, each indexed record replaced, then the terminator and a zero checksum instead of the target's own |
| MergeCorrectness.MergeNoEntries | src/grfmerge.cpp:374-383 | a set without entries copies the target and replaces its checksum by zeros |
| Listing.Decimal | src/grfmerge.cpp:349 | `%d` prints at least one digit and only digits |
| Listing.DecimalRoundTrip | src/grfmerge.cpp:349 | the printed digits read back as the number |
| Listing.Coalesce | src/grfmerge.cpp:345-351 | there are runs exactly when there are indices, and the last run ends at the last index |
| Listing.CoalesceMaximal | src/grfmerge.cpp:345-351 | the runs are non-empty and maximal: no run continues the previous one |
| Listing.CoalesceExpands | src/grfmerge.cpp:345-351 | the runs stand for exactly the indices, in order |
| Listing.CoalesceSnoc | src/grfmerge.cpp:345-351 | an index one above the last extends the last run; any other starts a new run |
| Listing.SpanSnoc | src/grfmerge.cpp:345-351 | a run grown by one stands for one more index |
| Listing.MaximalExtended | src/grfmerge.cpp:345-351 | extending the last run keeps the runs maximal |
| Listing.ExpandExtended | src/grfmerge.cpp:345-351 | extending the last run adds exactly the next index |
| Listing.ExpandAppended | src/grfmerge.cpp:345-351 | a new single run adds exactly its index |
| Listing.StatePrints | src/grfmerge.cpp:263-352 | after any indices `lastfrom`/`lastto` are the bounds of the last maximal run, and the text printed is every earlier run and the start of the last |
| Listing.FirstPrinted | src/grfmerge.cpp:345-351 | the first index opens the first run and prints just itself |
| Listing.StepPrints | src/grfmerge.cpp:345-351 | one more index keeps the state in step with the runs, whether it extends the last run or opens a new one |
| Listing.Step | src/grfmerge.cpp:345-351 | one index becomes `lastto`; `lastfrom` stays or restarts at it; printing only appends |
| Listing.StateAfter | src/grfmerge.cpp:344-352 | before any index `lastfrom` and `lastto` are -2 and nothing is printed; afterwards `lastto` is the last index and `lastfrom` an index not above it |
| Listing.ClosedIsSummary | src/grfmerge.cpp:368-373 | what the listing prints in the end is the rendering of the maximal runs, or `No sprites.` |
| Listing.Closed | src/grfmerge.cpp:368-373 | the end of the listing keeps what was printed and ends in a newline; with no index seen it adds `No sprites.` |
| Listing.Summary | src/grfmerge.cpp:368-373 | the listing is one line: `No sprites.` when there are no entries, and otherwise starting with a digit |
| Listing.RenderStarts | src/grfmerge.cpp:346-349 | printed runs start with a digit |
| Listing.PrintedExtended | src/grfmerge.cpp:345-351 | extending the last run prints nothing new |
| Listing.PrintedAppended | src/grfmerge.cpp:346-349 | a new run closes the last one, then prints `, ` and the new index |
| Listing.RenderOfPrinted | src/grfmerge.cpp:368-373 | a run is closed by `-last` only when it holds more than one index |
| Listing.Lister.constructor | src/grfmerge.cpp:263 | `lastfrom = lastto = -2`, nothing printed |
| Listing.Lister.Add | src/grfmerge.cpp:344-352 | one index keeps the listing state equal to the state after all indices seen |
| Listing.Lister.Finish | src/grfmerge.cpp:368-373 | the text printed is the summary of the indices seen |
| Listing.ListingExample | src/grfmerge.cpp:343-373 | `5, 6, 7, 12, 20` lists as `5-7, 12, 20`; no entries list as `No sprites.` |
| Listing.CoalesceExample | src/grfmerge.cpp:345-351 | `5, 6, 7, 12, 20` form the runs 5-7, 12, 20 |
| Listing.RenderExample | src/grfmerge.cpp:343-373 | the runs 5-7, 12, 20 print as `5-7, 12, 20` |
| Names.LastIndex | src/grfmerge.cpp:284-291 | `strrchr`: the position of the last occurrence, or none |
| Names.FirstIndex | src/grfmerge.cpp:285 | `strchr`: the position of the first occurrence, or none |
| Names.BaseStart | src/grfmerge.cpp:284-289 | the file name part starts inside the path |
| Names.StemLength | src/grfmerge.cpp:291-294 | `j` lies inside the file name part |
| Names.Lower | src/grfmerge.cpp:296 | `tolower` maps NUL and only NUL to NUL |
| Names.AgreeFrom | src/grfmerge.cpp:296 | `strnicmp` on NUL-free strings: equal on the first `n` characters ignoring case, and the name at least that long |
| Names.NameMatches | src/grfmerge.cpp:283-296 | for names without NUL, the check passes exactly when the name is at least `j` long and its first `j` characters equal the file name part up to its last `.`, ignoring case |
| Names.NameCheckExamples | src/grfmerge.cpp:283-296 | `C:\games\Foo.GRF` passes for `foo`, `bar.grf` does not |
| Names.CString | src/grfmerge.cpp:308 | a buffer read as a C string: its NUL-free prefix, the whole buffer when it holds no NUL |
| Names.CStringUpTo | src/grfmerge.cpp:308 | a C string ends at its first NUL |
| Names.DefaultTarget | src/grfmerge.cpp:307-309 | the default target is a NUL-free prefix of the embedded name, then `.grf`; for a name without NUL, the name itself then `.grf` |
| Names.DefaultTargetMatches | src/grfmerge.cpp:307-309 | the default target passes the name check for its own name |
| Names.LastIndexAt | src/grfmerge.cpp:395 | `strrchr` finds the last occurrence |
| Names.BackupName | src/grfmerge.cpp:393-397 | the backup name is the target up to its last `.`, or all of it when it has none, then `.bak` |
| Names.BackupNameShape | src/grfmerge.cpp:393-397 | the backup name ends in `.bak`, and equals the target exactly when the target already ends in `.bak` |
| Names.NameCheckReadsPastName | src/grfmerge.cpp:275-296 | as written, `foo` passes the check for `foo2.grf` when the heap after the name holds `2` |
| Names.DefaultTargetReadsPastName | src/grfmerge.cpp:275-309 | as written, the default target of `foo` is `foox.grf` when the heap after the name holds `x` |
| Names.NameMatchesAsWritten | src/grfmerge.cpp:275-296 | as written, the check reads the heap after the name; the heap cannot change the verdict when the name is at least as long as the part of the file name compared, or when a NUL follows the name, and then the verdict is that of `NameMatches` |
| Names.AgreeUpTo | src/grfmerge.cpp:296 | `strnicmp` reads no further than `j` characters and no further than the first NUL of the name |
| Names.DefaultTargetAsWritten | src/grfmerge.cpp:275-309 | as written, the default target ends in `.grf` and extends the whole name; it equals `DefaultTarget` exactly when a NUL follows the name on the heap |
| Names.CStringCovers | src/grfmerge.cpp:308 | a buffer with no NUL in its first `i` bytes reads as a C string of at least `i` characters |
| Wrapper.Pow2 | src/grfmerge.cpp:94 | `1L << e` is at least 1 |
| Wrapper.StreamOffset | src/grfmerge.cpp:94 | `r * (1L << e)` is zero only for a zero mantissa, and otherwise at least `r` and at least `2^e` |
| Wrapper.CheckWrapper | src/grfmerge.cpp:63-102 | recognised exactly when the file starts `MZ`, is stamped `JD` at 0x1c and has the magic at `r * 2^e`, with `grdofs` then that offset; the run dies, always with a short read, exactly when the file ends before the two-byte signature, the stamp, `r`/`e` or the magic it reaches; an unopenable file, one that is not an executable, and a carrying file are read without dying, and the first two leave both globals unchanged |
| Wrapper.Header | src/grfmerge.cpp:82-92 | the wrapper header is 32 bytes |
| Wrapper.BuiltWrapperRecognised | src/grfmerge.cpp:82-101 | a wrapper built with its stream at `r * 2^e` is recognised and its stream is found there |
| Install.Renamed | src/grfmerge.cpp:404-424 | `rename` moves the content to the new name, replacing what was there, and touches no other name |
| Install.Install | src/grfmerge.cpp:393-424 | the installation starts from the given file system |
| Install.Delete | src/grfmerge.cpp:415-419 | deleting only extends the steps so far |
| Install.Replace | src/grfmerge.cpp:421-424 | the final rename only extends the steps so far |
| Install.InstallSucceeds | src/grfmerge.cpp:393-424 | a successful installation leaves the merged content under the target's name and no temporary file; an existing backup is kept; otherwise the old target became the backup, or, when the merger had to ask, it was deleted |
| Install.InstallReplaces | src/grfmerge.cpp:421-424 | a successful installation leaves the merged content under the target's name and no temporary file |
| Install.InstallKeepsBackup | src/grfmerge.cpp:399-419 | an existing backup is never changed at any step |
| Install.InstallKeepsOutput | src/grfmerge.cpp:393-424 | at every step the merged content is under the temporary name or the target's, and a failed installation leaves the temporary file in place |
| Install.InstallKeepsOldTarget | src/grfmerge.cpp:399-414 | unless the failed rename to the backup made the merger ask to delete the target, the old target is at every step under its own name or the backup's |
| Install.InstallTouchesOnlyItsFiles | src/grfmerge.cpp:393-424 | no file other than the target, the temporary file and the backup is touched |
| Install.FileSystem.constructor | src/grfmerge.cpp:312 | the file system holds the given files |
| Install.FileSystem.Exists | src/grfmerge.cpp:312-316 | `fopen(name, "rb")` succeeds exactly when the file exists |
| Install.FileSystem.Rename | src/grfmerge.cpp:404-424 | `rename` succeeds as the host allows and then moves the file |
| Install.FileSystem.Remove | src/grfmerge.cpp:417 | `remove` succeeds as the host allows and then removes only that file |
| Install.FileSystem.Store | src/grfmerge.cpp:333-334 | creating the temporary file succeeds unless the host refuses, and stores the content |
| Install.Console.constructor | src/grfmerge.cpp:36 | the console holds `-y` and the answers to come |
| Install.Console.YesNo | src/grfmerge.cpp:115-134 | yes under `-y`, otherwise the next answer, which is consumed; an exhausted input answers no |
| Install.Answered | src/grfmerge.cpp:115-134 | the answers left after a prompt are the end of those before it |
| Install.Reply | src/grfmerge.cpp:115-134 | `yesno` answers yes under `-y` and no on an exhausted input; otherwise it answers the next reply, the one it consumes |
| Install.InstallMerged | src/grfmerge.cpp:388-427 | the stateful sequence computes `Install` with the user's next answer and consumes it only when asked |
| PatchSet.HeaderAt | src/grfmerge.cpp:268-278 | a header read has version at most 1, a name shorter than 128 bytes, and the entries start right after the name |
| PatchSet.SetAt | src/grfmerge.cpp:268-303 | a set spans from its header to the end of its entries and has `numsprites` indices |
| PatchSet.NameText | src/grfmerge.cpp:278 | the name's bytes as characters |
| PatchSet.TargetName | src/grfmerge.cpp:283-309 | the file named on the command line, or else a `.grf` name whose stem is a prefix of the embedded name |
| PatchSet.MergedOutputSplices | src/grfmerge.cpp:339-383 | the output of a set over a target of records is the spliced records, the terminator and the zero checksum |
| PatchSet.MergedOutput | src/grfmerge.cpp:339-383 | a merge that dies on an entry yields no output; a successful merge ends with the zero checksum |
| PatchSet.AfterDrain | src/grfmerge.cpp:299-303 | an outcome reached by draining the set stands exactly when its entries can be drained |
| PatchSet.Applied | src/grfmerge.cpp:283-431 | a failed name check asks; a refusal declines and a missing target skips, both after draining; otherwise the set is merged into the temporary file and installed, which may ask again; any outcome implies the entries can be drained |
| PatchSet.SetOutcome | src/grfmerge.cpp:255-432 | a set dealt with is well-formed; in listing mode it is dealt with exactly when it is well-formed, and then no file changes, no answer is consumed and the report is the summary of its indices |
| PatchSet.ReadHeader | src/grfmerge.cpp:268-278 | reads exactly the header `HeaderAt` describes, refusing a version above 1 |
| PatchSet.ListEntries | src/grfmerge.cpp:340-373 | listing succeeds exactly when draining does, fails with draining's fault, consumes the same bytes, and prints the summary of the indices |
| PatchSet.DrainStops | src/grfmerge.cpp:301-302 | draining dies with a short read at an index cut short, and with the record's own fault at a record that cannot be read |
| PatchSet.DrainStep | src/grfmerge.cpp:301-302 | one drained entry: its index is recorded and its record skipped |
| PatchSet.MergeInto | src/grfmerge.cpp:318-383 | the temporary file receives the merged output of the set, nothing else changes, and the patch stream is consumed as draining would |
| PatchSet.MergeSet | src/grfmerge.cpp:255-432 | fails exactly when `SetOutcome` does, with its fault; otherwise the report, the files afterwards and the answers left are `SetOutcome`'s, and the whole set is consumed |
| PatchSet.ApplySet | src/grfmerge.cpp:283-431 | fails exactly when `Applied` does, with its fault; otherwise the report, the files afterwards and the answers left are `Applied`'s, and the entries are consumed as draining would |
| PatchSet.TempIsNotTarget | src/grfmerge.cpp:323-331 | a `.tmp` temporary file is neither the target nor its backup |
| Driver.Prepend | src/grfmerge.cpp:461-465 | offsets found so far followed by those still to find |
| Driver.Walk | src/grfmerge.cpp:447-467 | every offset a walk collects lies between its start and the end of the stream |
| Driver.WalkEnds | src/grfmerge.cpp:447-467 | a walk starts at its first offset and stops where nothing more is found, right after its last item; the first time, finding nothing fails |
| Driver.WalkLinked | src/grfmerge.cpp:461-465 | each item of a walk is found, and the next starts where it ends |
| Driver.FindSet | src/grfmerge.cpp:451-459 | a set found ends after its magic and inside the stream |
| Driver.SetsFrom | src/grfmerge.cpp:447-467 | every patch set found lies in the stream, from the start offset on |
| Driver.Finder | src/grfmerge.cpp:451-459 | the set finder moves strictly forward through the stream |
| Driver.SetsStep | src/grfmerge.cpp:447-467 | one pass: a fault ends the run, a mismatch is fatal first and the end afterwards, a set moves on to its end |
| Driver.FoundSet | src/grfmerge.cpp:451-463 | a set is found only at a magic followed by a well-formed set, and ends where that set ends |
| Driver.FoundNone | src/grfmerge.cpp:452-458 | nothing is found only at four bytes that are not the magic |
| Driver.SetsStart | src/grfmerge.cpp:454-456 | the first set found is at the start offset, and at least one is found |
| Driver.SetsStop | src/grfmerge.cpp:454-458 | the run stops at the first mismatching magic after the last set |
| Driver.SetsLinked | src/grfmerge.cpp:463-465 | each set's successor starts where the set ends |
| Driver.Pass | src/grfmerge.cpp:448-465 | a pass succeeds only where `FindSet` does, and finds a set exactly when `FindSet` finds one; in listing mode it fails only where `FindSet` does, and changes no file |
| Driver.Joined | src/grfmerge.cpp:461-465 | the sets and reports so far, followed by the run after them; a failure passes through unchanged |
| Driver.RunFrom | src/grfmerge.cpp:447-467 | a run that completes has dealt with exactly the sets `SetsFrom` finds, one report each; a first magic that mismatches fails as no patch file; in listing mode the run completes exactly when the sets can be read, and changes no file |
| Driver.RunAdvance | src/grfmerge.cpp:447-467 | one turn of the run: a failed pass ends it with its fault, a mismatching magic ends it (fatally the first time), and a set dealt with is followed by the run from its end |
| Driver.NextSet | src/grfmerge.cpp:448-465 | fails exactly when `Pass` does, with its fault; otherwise finds a set exactly when `Pass` does, and the report, the files afterwards and the answers left are `Pass`'s; leaves `grdofs` at the set's end; a mismatch and listing mode change no file |
| Driver.DoMerge | src/grfmerge.cpp:434-474 | fails exactly when `RunFrom` from the start offset does, with its fault; otherwise the offsets, the reports, the files afterwards and the answers left are `RunFrom`'s, the offsets being exactly the sets of the stream; a first magic that mismatches is not a patch file; listing mode changes no file |

## Left out

- `main`, `getopt` and `usage` (src/grfmerge.cpp:41-61, 476-526) are command-line plumbing. `Driver.DoMerge` takes the start offset, the target names and the listing flag as parameters.
- `printf` output, the `DEBUG` traces and `showpct` are user interface only. The listing's text is modelled; the other messages are not.
- How `yesno` reads stdin: the answers are a sequence of booleans. An exhausted input answers no.
- The `.exe` retry on opening the wrapper (src/grfmerge.cpp:72-79) is host I/O. An unopenable file is `None`.
- `errno` values other than the outcome of each call are not modelled. A backup that exists but cannot be opened is treated as existing.
- Temporary-name construction in a 16-byte buffer (src/grfmerge.cpp:323-331) is drive-letter plumbing with silent truncation. The temporary name is a parameter that ends in `.tmp` and differs from every target named on the command line.
- `rename` follows POSIX and replaces an existing target. Hosts that refuse are modelled by the set of names they refuse.
- `feof` (src/grfmerge.cpp:197, 448): every read that falls short dies first. `feof` is never true in a run that is still going, so those checks are not modelled.
- `cfread` is not part of this model. It is taken to die on a short read, as `copy` does. So a patch stream that ends right after its last set dies on the next magic read instead of ending normally.
- `malloc` failures, the 8192-byte `block` buffer as memory, and `fclose` are left out.
- Wrapper.StreamOffset: computes `r * 2^e` exactly. In the code `r * (1L << e)` overflows whenever the product lies outside the range of `long`. With a 64-bit `long` that is, for example, `r = 128, e = 56`. With a 32-bit `long`, `1L << e` already overflows from `e = 31`, and the product from `r * 2^e >= 2^31`.
- Out-of-order or out-of-range indices have no well-defined result. The code reads past the terminator. The record-level theorems of `MergeCorrectness` take ascending in-range indices below 0xFFFF as a precondition. `Merge` and `PatchSet` state the behaviour for any input.
- The `strcat` of `.grf` overflowing the name buffer, and any other undefined heap read beyond the finding below, are left out.
- A name-length byte of 128 or more is negative as a `char`. The model ends the run there (`BadNameLength`) rather than modelling the negative `cfread` count.
- PatchSet.MergeSet: on a fatal path only the fault is stated, not the files. The temporary file then holds what was written (`PatchSet.MergeInto`).
- Driver.DoMerge: on a fatal path only the fault is stated, not the files.
- Writes never fail in the model. In the code `copy` dies on a short `fwrite` (src/grfmerge.cpp:166-169), and `cfwrite` of the checksum and the terminator is fatal too (150, 382).
- Install.FileSystem.Exists: a target that exists but cannot be opened for reading is skipped by the code (src/grfmerge.cpp:313-316). The model has no unreadable files, so every existing target is merged.
- PatchSet.TargetName: the embedded name is read as a terminated C string, up to its first NUL or its stated length. This is the intended reading. The code's read past an unterminated name is the finding below, exhibited by `Names.DefaultTargetReadsPastName`. `PatchSet.Applied` uses the same reading for the name check.
- Install.Install: on a fatal path the model states the file system at every step, not which message was printed.

## Findings

| source | as written | input that shows it | evidently intended | confidence | as-written member | corrected member |
|---|---|---|---|---|---|---|
| src/grfmerge.cpp:275-296 | the embedded name is read into a buffer without a terminating NUL, so `strnicmp` compares the heap bytes after it as part of the name | a set made from `foo` applied to `foo2.grf` while the heap after the name holds `2`: the check passes | the check compares the name as a C string ending after its last byte, and `foo2.grf` fails it | not executed | Names.NameCheckReadsPastName | Names.NameMatches |
| src/grfmerge.cpp:275-309 | `strcat(grfname, ".grf")` appends after the first NUL it finds past the unterminated name | a set made from `foo` with `x` and a NUL on the heap after the name: the default target is `foox.grf` | the default target is the name followed by `.grf` (`foo.grf`) | not executed | Names.DefaultTargetReadsPastName | Names.DefaultTargetMatches |

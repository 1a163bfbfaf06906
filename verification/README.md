# Proofs about the update, package and flash code of the recovery

A Dafny 4.11 model of the hard parts of an Android recovery: delta patches and their installation (`applypatch/`), the
package reader (`minzip/`, `verifier.c`) and the NAND code (`mtdutils/`).  `dafny verify dfyconfig.toml` checks all of
it.

## What is modelled

* **bsdiff and bspatch.**  The suffix sort (`SuffixOrder`, `SuffixSplit`, `Buckets`, `Passes`, `QSufSort`) works in
  place on the two arrays, with negative run lengths in the array being sorted.  `SuffixSearch`, `Scan` and `BsDiff`
  are the scan and emit loops, `Rounds` is what they must write, `BsPatch` is the replay, `Triples` the invariant that
  joins them.
* **imgdiff and imgpatch, image mode.**  `ReadImage` and `Chunks` cut images into chunks, retype and merge them in
  place; `ImgDiff` keeps the two lists parallel and writes the container that `ImgFile` describes; `ImgPatch` parses
  it.  `GzipImages` is about images as gzip lays them out, `Unchanged` about an image diffed with itself.
* **applypatch.**  `Digests`, `FreeCache`, `ApplyPatch`, `PartitionTarget`, `LoadPartition` and `PartitionNames` are
  the program; `Disk` is the file system: a map from paths to contents, the set of files whose contents are not
  synced, and the list of all states passed through. An operation may fail at any time, unless the file systems are
  `working`.  Power may be lost in any state, and then unsynced contents become anything. `Lives` says what a history
  of runs is, each cut off anywhere or not at all, and what trace it leaves; `Updates` and `PartitionTarget` prove
  what holds for all such histories.
* **minzip and verifier.**  `HashSlots` and `Hash` show that the open-addressing table is a map.  `Eocd`, `ZipNames`,
  `ZipIndex` and `ZipArchive` read the central directory into a sorted array with an index; `ZipLayout` is about
  archives as the format lays them out.
* **NAND.**  `Flash` is the device: blocks, those that are reported bad, those that never take data, and the list of
  all its states.  `Mtd`, `NandStream`, `RestoreRaw`, `Bml` and `BmlTable` are the streams, the header-last flashing
  and the remapping.

`Common`, `LittleEndian`, `Division` and `Posix` are shared.  Where the source updates something in place the model is
a method or a class whose contract ties it to a function or a predicate; the lemmas are about those.

## What is taken for granted

* bzip2 and zlib are parameters.  A compressed bzip2 stream delimits itself, decompresses to what was compressed, and
  is at most twice as long and 600 bytes (`BsDiff.Bzip2`); a raw deflate stream delimits itself
  (`ReadImage.SelfDelimiting`).  SHA-1 is any function, and where hashing in pieces matters, any function with that
  property (`LoadPartition.Hasher`).  Where a hash must tell files apart this is a premise (`Updates.Unmistakable`).
  Checking an RSA block with a key is a parameter of `Eocd.VerifyFile`.
* New data are shorter than 2^31 bytes, because bsdiff passes lengths to bzip2 as ints; old data are shorter than
  2^63. An imgdiff file is shorter than 2^31 bytes: its 4-byte fields wrap beyond that.
* applypatch: source and target are not below `/cache`, and the `.patch` file of a target that is an ordinary file is
  not the source (`ApplyPatch.WellPlaced`, `PartitionTarget.OnPartition`).  What is found in a partition for a name is
  a parameter (`ApplyPatch.Libraries.search`; `PartitionNames.SearchPartition` is the search itself); the name of a
  target that is a partition lets it be found (`PartitionTarget.Recognises`, which `PartitionNames.RecognisesExact`
  spells out).  Patches do not run into undefined behaviour on the sources they are listed for (`ApplyPatch.Defined`),
  and no result with chunks missing has the digest of the target (`ApplyPatch.Tells`).  Creating, deleting and
  renaming last once done; fsync, whose result the code ignores, works, and so does closing a partition that was
  written. How much room is free is any function of the directory and the files that are there
  (`Disk.FileSystem.freeSpace`); that deleting files never makes less of it (`FreeCache.DeletingFrees`) is a premise
  only where failure is claimed.
* NAND: a block that is not reported bad can be read.  A write that fails on a block that is not worn succeeds when it
  is repeated.  A block takes data only when it is erased; erasing may fail on any set of blocks
  (`Flash.Device.fickle`).  Header-last flashing and the round trip need that worn blocks are reported bad;
  `NandStream.SameBlocksOnlyIfReported` says why.
* A patch is `Undefined` where the C code would read outside the patch or pass on a length that is negative or no int,
  and `Short` where a stream holds less than is asked for: FillBuffer then fails, or, if the stream was cut off, where
  bzip2 reports neither progress nor an error, loops for ever (`applypatch/bspatch.c:84-98`).

## Where the code may surprise

* `applypatch/applypatch.c:421-425` says that a digest may be followed by a colon and more; the code refuses that, and
  so does `Digests.ParseSha1`.
* `applypatch/applypatch.c:581-582` says that the source is not deleted on success; when room is short it is (line
  754). `ApplyPatch.ApplyPatch` says exactly when, and `Updates.SourceGone` is such a run.
* `applypatch/applypatch.c:567-573` says that an interrupted run can be restarted.  It can, without harm, but if power
  is lost between saving the copy and deleting the source (lines 748-754), and `/cache` has room for one copy only,
  then every further run asks for room for a second copy and gives up: `Updates.StuckBetweenCopies`.
* With a partition as target it is worse: a run that finds the source bad and the saved copy good writes what is left
  of the bad source over the copy before it has written anything else (`applypatch/applypatch.c:702-714`).  If the
  source is the partition itself, patched in place and cut off half written, nothing listed is found in it, so there
  are no data but there is a size (lines 228-234 and 275-282): the next run truncates the copy, fails to write, and
  returns 1.  One loss of power is enough, and no later run ever succeeds: `PartitionTarget.LostWithFirstRun`,
  `PartitionTarget.LostForGood`. Where the source is not the target nothing is lost:
  `PartitionTarget.LifeOnPartition`.
* The smallest size that matches counts (`applypatch/applypatch.c:105-107`): if an old version that a name lists is
  the front of the new one, a partition that holds the new one reads as the old: `PartitionNames.FrontHidesTarget`.
* `applypatch/imgpatch.c:80` does not look at the result of writing a normal chunk.  The digest leaves the chunk out,
  and so the run fails in the end (`ApplyPatch.WholeIfWanted`), unless the digests agree.
* `applypatch/bsdiff.c:188` compares over the shorter length and so takes a suffix that is a proper prefix of the new
  data for one that comes behind it.  `SuffixSearch.SearchIsLongest` says when the longest match is missed for that,
  and `SuffixSearch.NotLongest` is an example.
* `applypatch/imgdiff.c:398-506` never ends on an image whose last three bytes are 1f 8b 08 (if the scan gets there),
  nor on a gzip member that does not inflate: `ReadImage.VerdictExact`.
* `verifier.c:77` makes sure of `signature_start` and not of `comment_size`, from which the place of the RSA block is
  computed (line 174): `Eocd.BlockPlace`.
* `mtdutils/mtdutils.c:411-412` lets a writer do without MEMGETBADBLOCK; line 307 does not let a reader, so that what
  was written cannot be read: `NandStream.RoundTrip`.
* `mtdutils/mtdutils.c:667-686` refuses a file that ends in the last block of its header when everything but the
  header has been written: `RestoreRaw.RestoreRaw`.
* `applypatch/bsdiff.c:136` leaves a bucket of byte 0 with one member unmarked; the first pass handles it like any
  group.

## Model

| member | source | states |
|---|---|---|
| `SuffixOrder.LessIsLexicographic` | applypatch/bsdiff.c:121-157 | the order of the suffix array is the lexicographic order of the suffixes as strings, a proper prefix coming first |
| `SuffixSplit.CountSides` | applypatch/bsdiff.c:83-89 | the two counts are the numbers of keys less than and equal to the pivot |
| `SuffixSplit.SweepLess` | applypatch/bsdiff.c:91-102 | the first loop only permutes, stays inside the stretch because there are as many misplaced entries as free places, ends although its index may stall, and leaves only smaller keys in front |
| `SuffixSplit.SweepEqual` | applypatch/bsdiff.c:104-111 | the second loop fills the middle with exactly the keys equal to the pivot |
| `SuffixSplit.Partition` | applypatch/bsdiff.c:83-111 | after both loops the less, equal and greater entries lie in [start,jj), [jj,kk), [kk,start+len), nothing outside moved, the middle is not empty, and the order by the first h bytes is kept |
| `SuffixSplit.SelectLeast` | applypatch/bsdiff.c:65-76 | one round of the short sort moves exactly the entries with the least key to the front |
| `SuffixSplit.SplitShort` | applypatch/bsdiff.c:64-81 | the selection sort for short groups makes the same progress as a partition |
| `SuffixSplit.SetGroup` | applypatch/bsdiff.c:115-116 | renumbering a group keeps the ranks a correct refinement of the order by h bytes, and marks a group of one as done |
| `SuffixSplit.Split` | applypatch/bsdiff.c:60-119 | one call orders its group by 2h bytes and gives each member its final group end; updates made on the way only refine the order; reads at I[k]+h stay in bounds; the recursion ends |
| `Buckets.CountBytes` | applypatch/bsdiff.c:126-127 | the buckets count the occurrences of every byte |
| `Buckets.BucketStarts` | applypatch/bsdiff.c:126-130 | after the shifts a bucket holds the number of smaller bytes |
| `Buckets.Fill` | applypatch/bsdiff.c:132-133 | every position lands at its place in its bucket, the empty suffix in front, and the buckets end at their last places |
| `Buckets.MarkSingles` | applypatch/bsdiff.c:136-137 | only groups of one are marked |
| `Buckets.BucketsRanked` | applypatch/bsdiff.c:132-135 | bucket sorting orders the suffixes by their first byte |
| `QSufSort.BucketSort` | applypatch/bsdiff.c:123-137 | the state before the first pass: ordered by one byte, ranks in V, marks as negative run lengths |
| `Passes.Pass` | applypatch/bsdiff.c:140-153 | one pass over I goes from order by h bytes to order by 2h bytes, merges marked runs into negative lengths, and leaves less to do |
| `QSufSort.Invert` | applypatch/bsdiff.c:156 | the last loop turns ranks into the suffix array |
| `QSufSort.QSufSort` | applypatch/bsdiff.c:121-157 | for every old data I ends as its suffix array: a permutation of 0..oldsize with strictly increasing suffixes |
| `SuffixSearch.MatchLen` | applypatch/bsdiff.c:159-167 | the length of the longest common prefix |
| `SuffixSearch.Search` | applypatch/bsdiff.c:169-193 | the bisection ends where Found says, at a true match of that length |
| `SuffixSearch.SearchIsLongest` | applypatch/bsdiff.c:187-192 | looked for in the whole array, the match is a longest one exactly if no probed suffix is a proper prefix of the new data, or just one is and it occurs nowhere with the next byte behind it |
| `SuffixSearch.LongestWithoutBorder` | applypatch/bsdiff.c:187-192 | so it is always a longest one if no non-empty suffix of the old data is a proper prefix of the new |
| `SuffixSearch.NotLongest` | applypatch/bsdiff.c:188 | with old and new data both two equal bytes a match of one byte is found, where two match |
| `SuffixSearch.OccursIsFound` | applypatch/bsdiff.c:287-288 | and it is never empty if the first byte occurs in the old data |
| `Scan.CountHits` | applypatch/bsdiff.c:290-293 | the running score counts the bytes the current alignment gets right |
| `Scan.FindMatch` | applypatch/bsdiff.c:286-301 | the loop ends at the first position whose match continues the alignment exactly or is better by more than 8, with oldscore the number of bytes that the alignment gets right from there to where the matches found so far reach; or at the end, with the last match |
| `Scan.ExtendForward` | applypatch/bsdiff.c:304-309 | lenf is the first of the lengths that maximise twice the matches minus the length |
| `Scan.ExtendBackward` | applypatch/bsdiff.c:311-318 | lenb is the first such length backwards |
| `Scan.SplitOverlap` | applypatch/bsdiff.c:320-329 | the cut of the overlap is the first of the best ones |
| `BsDiff.Extents` | applypatch/bsdiff.c:304-333 | the two extensions are the best ones, less the overlap as it is best cut; they are not negative, do not overlap and stay inside old and new |
| `BsDiff.Append` | applypatch/bsdiff.c:335-338 | the diff buffer gains exactly the bytes that, added to old, give new; the extra buffer gains the bytes between |
| `Triples.EmitTriple` | applypatch/bsdiff.c:343-360 | if what was emitted rebuilds new up to lastscan, then with one more triple it rebuilds new up to the new lastscan, whatever follows in the streams |
| `BsDiff.Emit` | applypatch/bsdiff.c:303-361 | one round of emission writes the triple, the differences and the extra bytes of the best extensions, keeps the round-trip invariant and moves the reference points |
| `BsDiff.Differ` | applypatch/bsdiff.c:281-362 | the loop ends; its three streams are those of the whole run of rounds that there is for these data; replaying them gives exactly new and uses up all three; diff and extra bytes together are newsize |
| `Rounds.RunOnce` | applypatch/bsdiff.c:281-362 | for given old and new data there is one whole run: every round takes the first match that ends the search, and the best extensions; so the streams are determined |
| `Rounds.UnchangedData` | applypatch/bsdiff.c:281-362 | if new and old data are the same, there is one triple, nothing in the extra stream, and only zeros in the diff stream |
| `BsDiff.BsDiff` | applypatch/bsdiff.c:224-404 | for every old, and every new below 2 GiB, the patch holds the streams of that run; applying it to old gives new, also where it lies inside a larger file; the suffix array is kept for the next call |
| `Rounds.OrderOnce` | applypatch/bsdiff.c:121-157 | data have one suffix array |
| `BsDiff.DiffOnce` | applypatch/bsdiff.c:224-404 | so old data, new data and compressor leave bsdiff one patch to write |
| `BsDiff.UnchangedIsDiff` | applypatch/bsdiff.c:224-404 | so the patch for unchanged data holds one triple, zeros and no extra bytes |
| `LittleEndian.OffTOut` | applypatch/bsdiff.c:195-211 | sign and magnitude in eight bytes; offtin reads back what offtout wrote |
| `BsPatch.AddOld` | applypatch/bspatch.c:220-225 | old bytes are added modulo 256 where they exist, and nothing else changes |
| `BsPatch.PlayTriple` | applypatch/bspatch.c:199-245 | one control triple appends the sum and the extra bytes and moves both positions |
| `BsPatch.BlockedFacts` | applypatch/bspatch.c:200-241 | a triple that passes the tests finds all its bytes in the diff and extra streams and stays inside the new data |
| `BsPatch.ReplaySize` | applypatch/bspatch.c:198-246 | a replay that succeeds has produced exactly the announced number of bytes |
| `BsPatch.ApplyBSDiffPatchMem` | applypatch/bspatch.c:123-252 | the in-place loop computes the recursive replay for every patch, telling errors from streams that are too short (where FillBuffer may never return) and lengths that are negative or no int |
| `LittleEndian.Write4` | applypatch/utils.c:22-27 | Read4 reads back every int |
| `LittleEndian.Write8` | applypatch/utils.c:30-39 | Read8 reads back every non-negative value that fits |
| `Chunks.FindRunEnd` | applypatch/imgdiff.c:714-720 | a run of normal chunks ends before the next deflate chunk: inside a tiling the contiguity tests never stop it earlier |
| `Chunks.MergeAdjacentNormalChunks` | applypatch/imgdiff.c:704-752 | in-place compaction keeps the chunks a tiling of the same image with their contents, keeps every deflate chunk in order, and its list of types is the compressed one |
| `Chunks.CompressedHasNoRuns` | applypatch/imgdiff.c:699-703 | no two adjacent normal chunks are left |
| `Chunks.ChangeDeflateChunkToNormal` | applypatch/imgdiff.c:670-676 | only that chunk changes, to its raw bytes |
| `ReadImage.ScanNormal` | applypatch/imgdiff.c:498-505 | the scan stops at the first gzip magic |
| `ReadImage.ReadMember` | applypatch/imgdiff.c:402-483 | a gzip member becomes three chunks, the middle one deflated, that continue the tiling; how it ends is what FateAt says of its header |
| `ReadImage.ReadImage` | applypatch/imgdiff.c:368-511 | how it ends is decided by the last gzip member met; if the image is read, the chunks tile it, the deflate chunks are the inflated streams behind the headers of the gzip members, in order, no gzip header begins between members, and the kinds, once merged, alternate with one deflate chunk for each member |
| `ReadImage.VerdictExact` | applypatch/imgdiff.c:395-507 | the image is read exactly if every member is complete; the loop never ends exactly if the stream of a member does not inflate or its header is cut off by the end; NULL comes back exactly if a footer gives the wrong size |
| `ReadImage.HalfHeaderExact` | applypatch/imgdiff.c:398-401 | a header is cut off exactly if it begins three bytes before the end, where the zeros appended to the image complete it |
| `ReadImage.NoMagicMissed` | applypatch/imgdiff.c:395-507 | every gzip magic in the image begins a member, lies inside a complete one, or behind the one that ended the loop |
| `ReadImage.StuckOnHalfHeader` | applypatch/imgdiff.c:398-506 | on the image 1f 8b 08 the loop never ends |
| `ReadImage.StuckOnBadStream` | applypatch/imgdiff.c:444-452 | nor does it on any gzip header with bytes behind it that do not inflate |
| `GzipImages.MemberFate` | applypatch/imgdiff.c:402-483 | a gzip member as RFC 1952 lays it out, ten header bytes, the stream, four bytes of check sum and the size, is complete and ends there if the size is that of the data, and has a bad footer if not |
| `GzipImages.MembersFound` | applypatch/imgdiff.c:395-507 | in an image of such members and bytes in which none begins, exactly these members are found |
| `GzipImages.WellMadeIsRead` | applypatch/imgdiff.c:395-510 | so such an image is read |
| `GzipImages.WrongSizeIsRefused` | applypatch/imgdiff.c:472-483 | an image whose first member gives another size is refused |
| `GzipImages.CutFooterIsOverrun` | applypatch/imgdiff.c:454-476 | of a member with fewer than eight bytes behind its stream the code reads on past the end |
| `ImgDiff.ReconstructDeflateChunk` | applypatch/imgdiff.c:521-591 | success exactly if level 6 or level 9 compresses the data to the very bytes of the image, and then the recorded parameters do |
| `ImgDiff.SameStructure` | applypatch/imgdiff.c:826-844 | whether the two lists have the same types in the same order |
| `ImgDiff.ReadBoth` | applypatch/imgdiff.c:774-844 | both images are read if their verdicts say so, and the structures agree exactly if the images have as many gzip members (and, if they have none, both are empty or neither) |
| `ImgDiff.PairChunk` | applypatch/imgdiff.c:848-887 | one pair is converted to normal chunks unless the target's can be reproduced and differs from the source's; the lists stay parallel, and nothing else of the chunks changes but the recorded parameters |
| `ImgDiff.PairChunks` | applypatch/imgdiff.c:847-888 | converting chunks in pairs keeps both lists tilings with equal types, and leaves as deflate chunks exactly those that recompress exactly and differ; the others hold their raw bytes or are as they were |
| `ImgDiff.MergeBoth` | applypatch/imgdiff.c:890-907 | merging both lists leaves them equally long and parallel, so the "went awry" test cannot fire; each list covers its image as before with its runs of normal chunks joined and its deflate chunks kept |
| `ImgDiff.MakePatch` | applypatch/imgdiff.c:599-661 | the patch made for a chunk, with the fields set for it, rebuilds that chunk of the target; a normal chunk becomes raw exactly if it has at most 160 bytes or is no longer than the patch of the whole bsdiff run, and every other chunk keeps that patch and is told where its source chunk lies |
| `ImgDiff.MakePatches` | applypatch/imgdiff.c:913-930 | so it is for all chunks |
| `ImgDiff.TotalHeaderSize` | applypatch/imgdiff.c:936-950 | the computed size is the sum of the record sizes as they are written |
| `ImgDiff.WriteRecords` | applypatch/imgdiff.c:956-997 | the header and the records, each with the offset that its patch will have |
| `ImgDiff.WritePatches` | applypatch/imgdiff.c:999-1005 | the patches of all chunks that are not raw, in order |
| `ImgFile.RecordInFile` | applypatch/imgdiff.c:936-997 | the i-th record lies where the parser's cursor will be, and records the true offset of its patch |
| `ImgFile.PatchInFile` | applypatch/imgdiff.c:999-1005 | at the recorded offset the file holds exactly the chunk's patch |
| `ImgFile.ReadRecord` | applypatch/imgpatch.c:59-215 | the parser decodes each written record to the chunk it was made for, and moves by its size |
| `ImgFile.FileRebuilds` | applypatch/imgpatch.c:38-219 | applying a file whose records rebuild the chunks of a tiling gives the whole target image |
| `ImgPatch.SinkPieces` | applypatch/imgpatch.c:193-207 | the compressed data reaches the sink whole, whatever the pieces |
| `ImgPatch.ApplyImagePatch` | applypatch/imgpatch.c:38-219 | the loop with its cursor computes the specified image or error, and what it hands to the sink, chunk by chunk, makes up the image |
| `ImgDiff.ImgDiff` | applypatch/imgdiff.c:774-1010 | end to end: a file is written exactly if both images can be read and have as many gzip members, and applying it, if below 2 GiB, to the source image gives exactly the target image; it is the one that the stages give: the chunks as read, the pairs that are equal or cannot be reproduced made normal, runs of normal chunks joined, and each chunk raw or with the bsdiff patch, as the code chooses |
| `GzipImages.DiffWellMade` | applypatch/imgdiff.c:774-1010 | for two such images a file is written exactly if they have as many members (and, if none, both are empty or neither), and it turns the one into the other |
| `Unchanged.UnchangedImage` | applypatch/imgdiff.c:774-1010 | of an image and itself, whatever gzip members it has, imgdiff makes one chunk for the whole image: raw if it is short or no longer than the patch of bsdiff for unchanged data, and otherwise with that patch |
| `Digests.ParseSha1` | applypatch/applypatch.c:426-450 | success exactly for forty hexadecimal digits and nothing behind them, with the digest they spell |
| `Digests.HexDigitExact` | applypatch/applypatch.c:431-441 | a character counts n exactly if it is the n-th of 0 to f, in small or capital letters |
| `Digests.SpelledAlike` | applypatch/applypatch.c:426-450 | two spellings of one digest differ at most in the case of letters |
| `Digests.PrintedSpells` | applypatch/applypatch.c:421-425 | a printed digest parses back to itself |
| `Digests.FindMatchingPatch` | applypatch/applypatch.c:455-466 | the first string that spells the digest, or -1 if none does |
| `LoadPartition.SortIndex` | applypatch/applypatch.c:83-95 | the index lists all pairs by ascending size |
| `LoadPartition.Extend` | applypatch/applypatch.c:207-238 | reading on and hashing on keeps the running hash that of all bytes read |
| `LoadPartition.LoadPartitionContents` | applypatch/applypatch.c:119-301 | the prefix of the smallest listed size whose hash is listed with it; with well-formed digests success exactly if some pair fits; and how many bytes had been read, which are none only if all sizes are too large |
| `FreeCache.EliminateOpenFiles` | applypatch/freecache.c:14-72 | exactly the entries for open files below /cache are cleared |
| `FreeCache.ListDir` | applypatch/freecache.c:91-118 | lists only expendable files, never the saved source, and misses none when the file system works |
| `FreeCache.ExpendableExact` | applypatch/freecache.c:85-104 | what may be deleted is what lies directly in /cache, but for saved.file, or in /cache/recovery/otatest |
| `FreeCache.FindExpendableFiles` | applypatch/freecache.c:74-126 | all expendable files that are not open, and no other |
| `FreeCache.MakeFreeSpaceOnCache` | applypatch/freecache.c:128-172 | nothing but expendable unopened files is ever deleted, and each only while there is too little room; on a working system 0 comes back if the room is there once all of them are gone, and, if deleting files never makes less room, only then; -1 means that they are all gone |
| `ApplyPatch.LoadFileContents` | applypatch/applypatch.c:42-80 | the contents with their hash; of a partition what is found in it, or none, and then the size is what had been read |
| `ApplyPatch.FileSink` | applypatch/applypatch.c:515-528 | as much of the data as could be written is appended, and no other file changes in any state |
| `ApplyPatch.SaveFileContents` | applypatch/applypatch.c:306-335 | success means that the file holds the data, synced |
| `ApplyPatch.SinkAll` | applypatch/imgpatch.c:67-115 | the digest is that of the pieces written whole; a piece that was not, in a normal chunk, is passed over, and then the digest covers less than the patch makes |
| `ApplyPatch.WriteOutput` | applypatch/applypatch.c:781-831 | success means that the output file is synced and, unless normal chunks are missing from the reported digest, holds what the patch makes of the source; on a working system none is missing |
| `ApplyPatch.WholeIfWanted` | applypatch/applypatch.c:849-853 | output with the wanted digest is all that the patch makes, although failures to write are passed over |
| `ApplyPatch.CopySource` | applypatch/applypatch.c:744-752 | after it source and synced copy are both there; it succeeds if room can be made on /cache for another copy of the source, and only then |
| `ApplyPatch.EnoughExact` | applypatch/applypatch.c:677-720 | there is enough room, for a size that does not wrap, exactly if the directory of the root that the target is below has more than 256k free and half as much again as the target needs |
| `ApplyPatch.BackUp` | applypatch/applypatch.c:729-758 | the source is deleted, but only after a synced copy is in the cache; it succeeds if room for the copy can be made, and otherwise nothing that matters changes; every state on the way is safe |
| `ApplyPatch.PrepareSpace` | applypatch/applypatch.c:690-760 | when the source is moved out of the way, when not, and exactly when that fails for want of room; in a first try it is moved exactly if the file system of the target has 256k or less free, or not half as much again as the target needs |
| `ApplyPatch.Try` | applypatch/applypatch.c:690-847 | one round of the loop: safe throughout; a second round only after a failure with the source still in place; on a working system a patch that fits fails only for want of room, and then nothing that matters changes |
| `ApplyPatch.PatchLoop` | applypatch/applypatch.c:668-847 | at most two rounds; success means that the output is what the patch makes of the source; on a working system a patch that fits succeeds if there is room, and only then |
| `ApplyPatch.ChooseSource` | applypatch/applypatch.c:627-666 | the source if it has a listed digest, else the saved copy if that has one, with the first matching patch; and what the source file object is left with |
| `ApplyPatch.Finish` | applypatch/applypatch.c:849-888 | the target is replaced only by output with the wanted hash; the copy is deleted only after that, and only if this run made it |
| `ApplyPatch.PatchAndFinish` | applypatch/applypatch.c:668-889 | the rounds and the replacement of the target together: success for want of nothing but room, and whether the source is still there |
| `ApplyPatch.SafeAfterCrash` | applypatch/applypatch.c:567-573 | whatever becomes of unsynced contents when power is lost, a safe state stays safe |
| `ApplyPatch.ApplyPatch` | applypatch/applypatch.c:593-889 | every state passed through is safe, on every path of failure; 0 means that the target has the wanted hash for good and comes from a listed patch; on working file systems with patches that fit, 0 comes back if the target is there, or room for it or for a copy of the source is; if neither, 1, with source, target and copy untouched; on 0 a source that is not the target is gone exactly if it was used without enough room, that is, without more than 256k and half as much again as the target needs on the file system of the target |
| `ApplyPatch.ApplyPatchCheck` | applypatch/applypatch.c:468-508 | 0 exactly if the file or else the saved copy has a listed digest |
| `ApplyPatch.CheckExact` | applypatch/applypatch.c:471-508 | with no digests listed a file that can be read will do; else the file or the copy must have a digest that one of the strings spells |
| `ApplyPatch.CheckHoldsWhenSafe` | applypatch/applypatch.c:488-492 | what an interrupted run leaves passes the check, unless the target is already there |
| `PartitionTarget.WriteToPartition` | applypatch/applypatch.c:340-418 | the partition passes through any contents; success means that it begins with the data |
| `PartitionTarget.SinkToMemory` | applypatch/applypatch.c:530-544 | the memory holds the pieces that fit, and all of them if together they do |
| `PartitionTarget.SaveFirst` | applypatch/applypatch.c:704-714 | from the source: a synced copy in the cache, with the target to be had in every state, if room can be made; from the copy: that very copy is written over, and if the source could not be read the write fails and leaves it empty |
| `PartitionTarget.SaveStale` | applypatch/applypatch.c:306-335 | with no data to write, but a size, the copy is truncated and the write fails |
| `PartitionTarget.Replace` | applypatch/applypatch.c:855-885 | the partition is half written in some state while the copy is good; the copy is deleted only when the target is there |
| `PartitionTarget.PatchAndWrite` | applypatch/applypatch.c:761-889 | the partition is written only with what has the wanted hash; while the copy is good the target can be had from every state |
| `PartitionTarget.ApplyToPartition` | applypatch/applypatch.c:593-889 | with a partition as target: a run on working file systems that begins where the target can be had passes only through such states exactly if the target or the source is good, or there is no room to begin with; with only the copy good it writes over that, and if the source cannot be read it returns 1 and leaves the copy empty; with nothing good, or no room, 1 and nothing that matters changed; with a good source, room, and patches that fit, 0 |
| `PartitionTarget.LifeOnPartition` | applypatch/applypatch.c:567-573 | however runs follow one another and are cut off: if the source is not the target it is good in every state, so that the target can always be had, and a run on working file systems returns 0 exactly if the target or the room is there |
| `PartitionTarget.LostWithFirstRun` | applypatch/applypatch.c:702-714 | with only the copy good, a source that cannot be read, and room: the first run that goes to its end destroys the copy, and it and all further ones return 1 |
| `PartitionTarget.LostForGood` | applypatch/applypatch.c:567-573 | a partition patched in place: one loss of power, in the state of a first run in which the partition is half written; every later run returns 1, and after the first of them nothing is left to get the target from |
| `PartitionNames.SearchPartition` | applypatch/applypatch.c:119-301 | so the search that applypatch relies on is the search by the sizes and digests in the name |
| `PartitionNames.NamesOfPartitions` | applypatch/applypatch.c:45-50 | names that begin with MTD: or EMMC: are those of partitions, paths are not |
| `PartitionNames.RecognisesExact` | applypatch/applypatch.c:102-117 | a partition that was written is found to hold the target exactly if its name lists the target and no shorter version listed there is the front of it |
| `PartitionNames.FrontHidesTarget` | applypatch/applypatch.c:102-117 | a shorter version that is the front of the target hides it: no partition is ever found to hold it |
| `PartitionNames.UnreadExact` | applypatch/applypatch.c:224-282 | a source that is a partition is left without data, but with a size, exactly if no listed pair fits and the least listed size does |
| `Updates.Install` | applypatch/applypatch.c:567-573 | any number of runs, each cut off in any state: the trace is made up of them, each is a run of applypatch, all states are safe, and a last run on working file systems returns 0 if it begins with the target in place or with room, and, if deleting files never makes less room, only then |
| `Updates.LifeIsSafe` | applypatch/applypatch.c:567-573 | for any history of runs, each cut off anywhere or not at all: from a safe state on every state is safe, also what is left by each loss of power |
| `Updates.Live` | applypatch/applypatch.c:567-573 | such histories are what runs and losses of power make |
| `Updates.MadeForDelivers` | applypatch/applypatch.c:575-591 | jobs made of patches that bsdiff or imgdiff wrote for the listed old versions can be carried out |
| `Updates.MadeForTells` | applypatch/applypatch.c:849-853 | the digest of a new version that no other data has tells it from what is left when chunks are missing |
| `Updates.DiffAndInstall` | applypatch/applypatch.c:567-591 | from bsdiff on two versions, by a job with their digests and that patch, to exactly the new version in place, through any interruptions, under the same exact condition on the last run |
| `Updates.MakesDecodes` | applypatch/applypatch.c:813-826 | a patch that bsdiff or imgdiff wrote is recognised by its magic number and decodes to the new version |
| `Updates.NoRoomForSecondCopy` | applypatch/applypatch.c:744-747 | with the source and its copy both there, and room on /cache for one copy only, there is no room |
| `Updates.StuckForGood` | applypatch/applypatch.c:715-754 | for any history of runs, cut off or not, that begins in such a state on working file systems: each returns 1, and both are still there at its end |
| `Updates.Rerun` | applypatch/applypatch.c:715-754 | so any further runs return 1 and leave both |
| `Updates.StuckBetweenCopies` | applypatch/applypatch.c:744-754 | a run that could finish, cut off in the state in which the copy is saved and the source not yet deleted, ends there: no later run ever succeeds |
| `Updates.SourceGone` | applypatch/applypatch.c:581-582 | a run that begins with the source alone, succeeds, and has deleted the source although it is not the target |
| `Hash.HashSize` | minzip/Hash.c:26-28 | a table of that size takes that many entries within the load limit |
| `Hash.RoundUpIsPowerAtLeast` | minzip/Hash.c:35-46 | up to 2^31 the bit trick gives the least power of two that is not smaller, read as numbers |
| `Hash.RoundUpOverflows` | minzip/Hash.c:35-46 | for 0 and beyond 2^31 it gives 0 |
| `Hash.MaskIsRemainder` | minzip/Hash.c:191 | masking with the size less one is the remainder, for a power of two |
| `HashSlots.PathHasEmpty` | minzip/Hash.c:193-211 | a probe that met no empty slot has not gone round: below the load limit every probe loop ends, and the single-slot case cannot occur |
| `HashSlots.FoundOnPath` | minzip/Hash.c:190-202 | every live key is met before an empty slot |
| `HashSlots.Insert` | minzip/Hash.c:213-217 | an entry put into the first empty slot of its path keeps all entries reachable |
| `HashSlots.Remove` | minzip/Hash.c:266-271 | a tombstone keeps all other entries reachable |
| `Hash.HashTable.constructor` | minzip/Hash.c:51-72 | an empty map, in a table of the least power of two that is not smaller; for sizes beyond 2^31 a table without slots |
| `Hash.HashTable.FindItem` | minzip/Hash.c:190-211 | the probe stops at the entry of the key exactly if there is one, else at an empty slot of its path |
| `Hash.HashTable.Lookup` | minzip/Hash.c:179-248 | answers as the map does, adds only a missing key, keeps the counts exact and the load within 5/8: the table stays as it is while the load allows, and is doubled, without its tombstones, when it does not |
| `Hash.HashTable.FindSame` | minzip/Hash.c:262-282 | finds the slot of that very item exactly if it is in the table |
| `Hash.HashTable.Remove` | minzip/Hash.c:255-285 | removes exactly that item from the map, counting one tombstone |
| `Hash.HashTable.Clear` | minzip/Hash.c:77-97 | an empty map in the same table, without tombstones |
| `Hash.Rehash` | minzip/Hash.c:145-163 | the new array holds the same map without tombstones |
| `Hash.HashTable.Resize` | minzip/Hash.c:137-172 | the same map in a table of the new size |
| `Eocd.FindEocd` | minzip/Zip.c:212-222 | the last end-of-central-directory marker, or none if there is none |
| `Eocd.VerifyFile` | verifier.c:34-184 | success exactly if the footer is well formed, the record holds the RSA block, and one of the keys verifies that block against the hash of the signed prefix; a record too short for the block is read before its beginning |
| `Eocd.BlockPlace` | verifier.c:168-176 | the RSA block lies in the record exactly if the comment has 240 bytes, and clear of the signed part exactly if it has 260 |
| `Eocd.SignedLayout` | verifier.c:60-180 | of a package laid out as signed part, comment length, and comment that ends with RSA block and footer, exactly the signed part is hashed and the block is the one given to the keys |
| `Eocd.ChecksLetShortCommentPass` | verifier.c:72-82 | a file that passes all checks although its record does not hold the block |
| `Eocd.ReadersAgree` | verifier.c:67-135 | if the footer checks pass, the backward scan stops at exactly length - comment_size - 22, and the entry count and directory offset lie in the signed prefix |
| `ZipNames.CompareOpposite` | minzip/Zip.c:293-302 | the comparison is antisymmetric and 0 only for equal names |
| `ZipNames.LeqTransitive` | minzip/Zip.c:293-302 | and transitive |
| `ZipNames.PrefixInterval` | minzip/Zip.c:996-1003 | names with a common prefix are neighbours in sorted order |
| `ZipIndex.FindTarget` | minzip/Zip.c:281-313 | the binary search finds a place that keeps the order |
| `ZipIndex.InsertEntry` | minzip/Zip.c:313-353 | making room and filling inserts the entry at its place |
| `ZipIndex.AddEntry` | minzip/Zip.c:278-353 | the entries stay sorted, with one more |
| `ZipIndex.ReadEntries` | minzip/Zip.c:248-392 | success exactly if all central directory headers pass the checks; then a sorted permutation of them |
| `ZipLayout.EntryReadBack` | minzip/Zip.c:264-391 | a header laid out as APPNOTE.TXT section 4.3.12 says, with a local header where it points, is read back as exactly its fields, if its name, origin and data are acceptable, and else refused |
| `ZipLayout.DirectoryReadBack` | minzip/Zip.c:248-392 | so are any number of headers, one behind the other |
| `ZipLayout.DirectoryRefused` | minzip/Zip.c:248-392 | one entry that is not acceptable makes the whole directory be refused |
| `ZipIndex.ComputeHash` | minzip/Zip.c:136-144 | the hash in 32-bit arithmetic |
| `ZipIndex.AddToIndex` | minzip/Zip.c:146-158 | a name that is not there yet is added, and nothing else changes |
| `ZipIndex.BuildIndex` | minzip/Zip.c:399-403 | the index finds, under each name, the first entry that has it, and nothing else |
| `ZipArchive.OpenArchive` | minzip/Zip.c:187-415 | opens exactly the archives whose last marker describes a readable directory; entries and index agree with it |
| `ZipLayout.OpenLaidOut` | minzip/Zip.c:187-414 | an archive laid out by the sections 4.3.7, 4.3.12 and 4.3.16 of APPNOTE.TXT is opened exactly if all its entries are acceptable, and then holds exactly these |
| `ZipArchive.ZipArchive.Find` | minzip/Zip.c:505-512 | an entry of that name exactly when one exists |
| `ZipArchive.ZipArchive.Select` | minzip/Zip.c:984-1022 | although the loop stops at the first mismatch behind a match, it selects exactly the entries with the prefix, in order |
| `ZipArchive.ListTargets` | minzip/Zip.c:865-908 | the target path of every selected entry |
| `ZipArchive.TargetsAreBelow` | minzip/Zip.c:865-968 | what is below zipDir in the archive comes to the same place below targetDir, with one slash between |
| `ZipArchive.ZipArchive.DryRun` | minzip/Zip.c:930-1026 | refused exactly for an absolute zipDir or a relative targetDir; else the target paths of exactly the entries below zipDir |
| `Mtd.Attempt` | mtdutils/mtdutils.c:431-456 | success means that the block reads back as the data |
| `Mtd.TryBlock` | mtdutils/mtdutils.c:429-462 | two attempts succeed exactly on blocks that are not worn |
| `Mtd.WriteBlock` | mtdutils/mtdutils.c:400-467 | the data goes to the first block that can be written; blocks before and behind it, and bad blocks, stay; blocks on which writing is given up are erased, if that does not fail; skipped positions are recorded in ascending order |
| `Mtd.Writer.Coalesce` | mtdutils/mtdutils.c:473-480 | the buffer takes as much as fits |
| `Mtd.Writer.PutBlocks` | mtdutils/mtdutils.c:488-492 | complete blocks go straight to the device |
| `Mtd.Writer.WriteData` | mtdutils/mtdutils.c:469-496 | blocks written and buffer make up all data given so far, whatever the pieces; -1 exactly if the device has no room for another complete block |
| `Mtd.Writer.Flush` | mtdutils/mtdutils.c:500-507 | pending data is padded with zeros to a block |
| `Mtd.Writer.EraseBlocks` | mtdutils/mtdutils.c:498-537 | flushes, then erases blocks from there on: each is erased, if it is not bad and erasing does not fail there, and else as it was; bad blocks and those behind are untouched; -1 if there are not so many |
| `Mtd.Writer.FindWriteStart` | mtdutils/mtdutils.c:554-564 | the first position from there on at which writing was not given up |
| `Mtd.Writer.Close` | mtdutils/mtdutils.c:539-549 | 0 exactly if everything fits; then the blocks hold it, padded with zeros |
| `Mtd.ReadBlock` | mtdutils/mtdutils.c:281-320 | the next block that is readable and for which MEMGETBADBLOCK returns 0, or none; none too if ECCGETSTATS fails |
| `Mtd.Reader.ReadData` | mtdutils/mtdutils.c:322-353 | exactly the next bytes of those blocks, for any chunk sizes; -1 if there are not so many or ECCGETSTATS fails, and only then |
| `NandStream.WriteAll` | mtdutils/mtdutils.c:469-549 | any sequence of writes and a close leave the padded concatenation in the writable blocks |
| `NandStream.EraseImage` | flashutils/erase_image.c:58-78 | erases every block of the partition that is not bad and on which erasing does not fail, and leaves the others as they were |
| `NandStream.ReadAll` | mtdutils/mtdutils.c:322-353 | any sequence of reads gives the front of the stream of those blocks |
| `NandStream.RoundTrip` | mtdutils/mtdutils.c:322-549 | reading back in any pieces gives the concatenation of the writes, zero-padded to a block, for any set of bad blocks; on a device without MEMGETBADBLOCK the writes succeed and nothing can be read back |
| `NandStream.SameBlocksOnlyIfReported` | mtdutils/mtdutils.c:408-419 | where MEMGETBADBLOCK is supported, writer and reader pass over the same blocks exactly if every block that does not take data is reported bad |
| `RestoreRaw.Left` | mtdutils/mtdutils.c:667-668 | the rest of the last block of the header, for any block size |
| `RestoreRaw.FirstPass` | mtdutils/mtdutils.c:613-646 | zeros for the header, then the file; in every state either only the first good block differs from before or it begins with zeros |
| `RestoreRaw.SecondPass` | mtdutils/mtdutils.c:648-695 | in every state everything behind the header's blocks is in place; on success so is the header |
| `RestoreRaw.RestoreRaw` | mtdutils/mtdutils.c:570-697 | on success the good blocks hold the zero-padded file; on every path the header is last; if nothing fails in reading, 0 comes back exactly if the file is not empty, fits, and fills the blocks of its header, which is the first 2048 bytes, or the whole file, if the first read is full; a file shorter than a block never succeeds; one that ends in the last block of its header leaves what CutShort says |
| `RestoreRaw.ShortFileIsCutShort` | mtdutils/mtdutils.c:667-686 | for a file shorter than a block that is the whole file with zeros for its header, although -1 is returned |
| `RestoreRaw.HeaderMeansTail` | mtdutils/mtdutils.c:613-648 | a header that is not all zeros is seen in the first good block only before the rest was touched, or with all that follows complete |
| `Bml.ParseTable` | mtdutils/bml_over_mtd.c:252-306 | the loop over the table computes the mapping it lists, later entries replacing earlier ones, or refuses it |
| `BmlTable.TableReadBack` | mtdutils/bml_over_mtd.c:245-306 | a block with the mark in front and, at 0x1000, a dummy pair and up to 49 pairs of bad block and spare block is found to hold a table, and read as the mapping of each bad block to the last spare block listed for it; refused exactly if a spare block lies outside the reservoir or behind the table |
| `BmlTable.HasTableExact` | mtdutils/bml_over_mtd.c:248-258 | a block holds a table exactly if it begins with UPCH and has 00 00 ff ff at 0x1000 |
| `Bml.SearchTable` | mtdutils/bml_over_mtd.c:229-320 | the table nearest to the end of the reservoir, in a good block |
| `Bml.CreateBlockMapping` | mtdutils/bml_over_mtd.c:174-391 | given out exactly if the reservoir has the block and page size of the source and a size that fits an int, and holds a table that maps exactly the bad blocks, to good reservoir blocks |
| `Bml.WriteBlock` | mtdutils/bml_over_mtd.c:501-557 | stores the block exactly if it is neither bad nor worn |
| `Bml.FillBlock` | mtdutils/bml_over_mtd.c:613-636 | the next block of the image, filled up with 0xff; fails only if reading does |
| `Bml.FlashPartition` | mtdutils/bml_over_mtd.c:559-700 | success means that all blocks of the image are stored in order, each in its place; if the image can be read, 0 comes back exactly if it fits and all the places it needs are neither bad nor worn; an image that is too large changes nothing |
| `Bml.CutCount` | mtdutils/bml_over_mtd.c:609 | the number of blocks the code computes is the number of pieces of the image |
| `Bml.FlashedView` | mtdutils/bml_over_mtd.c:638-687 | what a logical block reads as afterwards: the last block stored in its place, or what it was |
| `Bml.FlashedIsImage` | mtdutils/bml_over_mtd.c:638-687 | the image is there after flashing if and only if no two different blocks of it share a place |
| `Bml.TableStays` | mtdutils/bml_over_mtd.c:252-306 | flashing never reaches the block with the table, so the mapping read after it is the same |
| `Bml.MakeMapping` | mtdutils/bml_over_mtd.c:702-777 | the mapping of the table; if that is not given out, the empty one for a partition without bad blocks, and else none |
| `Bml.MappingIsReadable` | mtdutils/bml_over_mtd.c:336-391 | a mapping the program works with leads to blocks that are there, of the right size, and not reported bad |
| `Bml.MappingStays` | mtdutils/bml_over_mtd.c:762-770 | so the program makes the same mapping when it is run again |
| `Bml.DumpPartition` | mtdutils/bml_over_mtd.c:398-499 | the logical blocks one after the other, if none of them is bad and the file can be written |
| `Bml.FlashThenDump` | mtdutils/bml_over_mtd.c:735-797 | the program run twice, each time making its mapping: flashing leaves the table as it was; the dump begins with the image unless blocks that share a place differ, and, if none share a place, goes on with the old remaining blocks; it all succeeds exactly if there is a mapping, the image fits and its places can be written |

## Left out

- ApplyPatch.LoadFileContents: a partition is read in one step; the size after a stat that fails is any number.
- PartitionTarget.ApplyToPartition: failing malloc; two names that stand for the same partition are two places.
- PartitionTarget.SaveStale: which bytes the data hold that were freed when the source was read but not good; any bytes may be written, and it may fail.
- LoadPartition.LoadPartitionContents: the splitting of the file name at its colons; a name without any pair, for which the code reads outside its array.
- ReadImage.ReadImage: what the C code does after it has run over the end of the image, or while its loop does not end; the model stops there with `OutOfImage` and `Stuck`.
- ImgDiff.ImgDiff: the zip mode (ReadZip and matching chunks by name).
- Mtd.WriteBlock: positions are block numbers; byte offsets and their overflow are not modelled.
- Bml.CreateBlockMapping: 32-bit wrap-around of block number times block size, because partitions lie below 4 GiB; devices whose reservoir has 65536 blocks or more.
- RestoreRaw.RestoreRaw: failures of opening the file and the partition.
- Bml.DumpPartition: short reads and writes inside a block, other than failures.
- Hash.HashTable.Lookup: tables of 2^31 slots and more; the free function; failing allocation.
- ZipIndex.BuildIndex: pointers to entries are indexes into the array; where a name occurs twice the first one in sorted order is found.
- ZipIndex.ReadEntries: overflow of 32-bit addresses, which safe_add refuses.
- ZipArchive.ZipArchive.DryRun: the extraction itself; its result, which a shadowed `ok` (minzip/Zip.c:1124) spoils.
- ZipArchive.OpenArchive: reads a file of fewer than 22 bytes as no archive.
- Eocd.VerifyFile: the RSA and SHA internals, and I/O errors; reading before the record ends the model with `Undefined`.
- mmap, ioctl errors, errno and failing malloc, the edify language, user interface, mounts, backups and the shell utilities.

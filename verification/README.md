# SlimNode, verified

SlimNode is a FUSE file system that lets a Bitcoin node keep only the block files it is writing: finished blk and rev
files move to an archive server and are fetched back, as whole files or block by block, when they are read. This
project models the parts of it in which a mistake loses or corrupts data, and proves what they promise.

- **Rev files** (`Bytes`, `Streams`, `VarInt`, `Amount`, `AmountOverflow`, `CompactSize`, `Script`, `Undo`, `Record`,
  `Reprint`): the byte formats of Bitcoin Core's undo data, with 64-bit wrap-around, truncating casts, Go's end-of-file
  errors and its panics on absurd lengths written out. `Formats` says byte by byte what these files and blockmaps hold.
- **Blockmaps** (`Blockmap`, `BlockScan`, `BlockmapCodec`, `BlockRead`): an index of a blk file is scanned, sorted,
  written, read back, searched and used to assemble reads from separately cached blocks.
- **The file system** (`Store`, `World`, `FuseFs`, `Steps`, `Answers`, `Lifecycle`, `Serving`, `FetchPolicy`): `World`
  has one function per atomic step on the metadata, the directories, the caches and the open handles; the class
  `FuseFs.FS` has the methods of the program and is proved to take exactly these steps; `Steps` and `Answers` say what
  each step does to every byte, row and handle and when it succeeds; `Lifecycle` and `Serving` prove what holds in every
  run. `Startup` is the reconciliation that hands a run its first state.
- **The daemons** (`Compaction`, `Heights`, `Eviction`, `FinalizedScan`, `Sync`) and the in-place XOR stripper
  (`XorStrip`).

Code that changes things in place is a class or a method with loops, proved equal to a function on values; the theorems
are about these functions and about runs of them. SHA-256 is a parameter `sha`, the clock a parameter `now`. Failures
are parameters of the step that meets them: a metadata lookup or update that fails while mounted or while mounting, a
download that fails or brings the wrong bytes, a disk that fails at once or after some bytes, a cached block that is not
seen or not readable, a file that cannot be removed. A theorem about a step, a start or a run covers every combination
of them, those that the program passes over in silence included; where it then breaks its promise, the theorem says
exactly when. "Left out" names the failures that are not modelled.

What the proofs turned up about the program:

- An amount survives the 64-bit code exactly when its last digit d is 0 or 9n + d - 9 fits 64 bits; the others come back
  as something else, always (`AmountOverflow.RoundTripIff`).
- A body that announces more transactions than a slice can hold crashes the parser (`HugeCountCrashes`); one that ends
  early ends the whole file without an error, although intact records may follow (`ShortBodyDropsTheRest`).
- A record that parses prints to its own bytes exactly when its block was in the writer's form, its body had no unread
  rest and its checksum is the one for the given hash (`ReprintRecordIff`).
- `blockmap.Read` checks the order of offsets only. On the maps it accepts `FindBlock` is right exactly when no two
  different entries overlap and no end wraps around int64 (`FoundIffDisjoint`, `WrappedEndNotFound`); maps that the
  scanner made are tilings, and on those it is right (`FoundInTiling`).
- A blockmap survives writing and reading exactly when it has fewer than a million entries (`MapRoundTripIff`).
- `--repair` damages healthy files: a raw blk file survives it exactly when each of its chunks contains the mainnet
  magic. A mainnet file one byte longer than a chunk does not, and files of the other networks only by chance
  (`RawFileSurvivesIff`, `RepairDamagesShortTail`, `RepairDamagesTestnet`). A strip that is killed inside a chunk cannot
  be repaired, and one killed at a border can be exactly when the magic tells its chunks apart (`RepairIff`).
- Running the tool again after an interruption is not safe: without `--repair` a half-done file is left as it is and the
  key is zeroed (`RerunLosesKey`). A read error ends a strip like the end of the file does, with the same effect
  (`KeyGivenUpIff`). The key is also lost when zeroing it fails halfway, and kept without a word when it cannot be read
  (`KeyKeptIff`).
- The hint of a successful promotion is lost when a query with a later clock deletes it (`WholeFileIff`,
  `BackwardClockForgets`).
- Create takes a metadata lookup that failed for a missing row, and then turns an archived or finalized file into a new
  one (internal/fusefs/create.go:20). No other step of a run leaves the state machine (`NextKeepsIff`).
- Mounting does the same: a failed lookup makes it overwrite the row of a local file, and later writes to that file are
  dropped (`ClobberedFileDropsWrites`). The next mount without failures heals this for local block files
  (`StartHealsIff`).
- Compaction never does anything: it goes by the last block height of a row, and nothing in the program sets one, so
  finalized files stay for good (`RunsNeverCompact`, `FinalizedForGood`). If it did, one that cannot store a row would
  have deleted its file already (internal/daemon/compaction.go:152-154), and the next compaction would heal the row
  (`PresentKeptIff`, `CompactionHeals`).
- A disk error after the first byte turns a local read into a short one that reports success
  (internal/fusefs/handle.go:201-208, `PreadIsPrefix`).
- The cache reaches its limit exactly when the files that the eviction does not know, such as the manifest, fit into it
  (`LimitReachedIff`).
- After a manifest upload fails, the files of that cycle stay unlisted until another file is finalized
  (`LostManifest`), and an undo file that grew after its upload is listed at its new size and served at its old one
  (`GrownFileStaysShort`). A blockmap whose upload failed is never tried again, but listed (`MissingMapStays`,
  `ListedMapIsStoredIff`).
- Startup without failures yields a consistent state exactly when no finalized row has lost its local file
  (`StartsARunIff`, `SoundWithoutFaultsIff`), and cached files that agree with the server exactly when no listing of a
  cached file has changed; a stale copy is served under its new hash (`StartsInAgreementIffUnchanged`,
  `StaleCopyServed`). Polling can send a file that is being written straight to REMOTE, which no transition allows
  (`PollLeavesTheStateMachine`).

## Model

| member | source | states |
|---|---|---|
| `VarInt.VarIntRoundTrip` | internal/revfile/varint.go:11-44 | decoding the encoding of any uint64 gives it back and leaves the following bytes unread |
| `VarInt.EncodeThenValue` | internal/revfile/varint.go:11-27 | the encoder's bytes are a complete VARINT that denotes the number, in the bijective base-128 reading |
| `VarInt.ValueThenEncode` | internal/revfile/varint.go:11-27 | every complete VARINT is the encoding of the number it denotes: no redundant forms |
| `VarInt.ReencodeIffFits` | internal/revfile/varint.go:11-44 | a terminated byte string re-encodes to itself iff its value fits uint64; the decoder wraps otherwise |
| `VarInt.DecodeTerminated` | internal/revfile/varint.go:31-44 | any terminated string decodes to its value modulo 2^64 and the decoder stops right behind it |
| `VarInt.DecodeUnterminated` | internal/revfile/varint.go:31-44 | without a terminating byte the result is a plain end of file |
| `VarInt.WriteVarInt` | internal/revfile/varint.go:11-27 | the loop over the 10-byte buffer writes the encoding and never leaves the buffer |
| `VarInt.ReadVarInt` | internal/revfile/varint.go:31-44 | the accumulating loop with wrap-around is the decoder of the theorems |
| `Amount.CompressThenDecompress` | internal/revfile/amount.go:5-44 | decompression undoes compression on every natural number |
| `Amount.DecompressThenCompress` | internal/revfile/amount.go:5-44 | compression undoes decompression on every natural number, so both are bijections |
| `Amount.CompressBound` | internal/revfile/amount.go:5-22 | a compressed amount is at most nine times the amount |
| `Amount.CompressFitsIff` | internal/revfile/amount.go:5-22 | exactly which 64-bit amounts compress without overflow |
| `Amount.SafeAmounts` | internal/revfile/amount.go:5-22 | every amount up to (2^64 - 1) / 9 does |
| `Formats.CompressedForm` | internal/revfile/amount.go:5-22 | what m times 10^e is packed into, for every mantissa and number of zeros |
| `Formats.KnownAmounts` | internal/revfile/amount.go:5-22 | 0, 1 satoshi, 1 coin, 50 coins and all coins compress to 0, 1, 9, 50 and 21000000 |
| `AmountOverflow.RoundTripIff` | internal/revfile/amount.go:5-44 | the 64-bit code gives an amount n with last digit d back iff d = 0 or 9n + d - 9 fits 64 bits, which is when its compression fits |
| `Amount.LargestInt64Lost` | internal/revfile/amount.go:5-44 | the largest int64 is an amount that does not come back |
| `AmountOverflow.OverflowIsLost` | internal/revfile/amount.go:5-44 | an amount whose compression loses bits never comes back |
| `AmountOverflow.ReprintIff` | internal/revfile/amount.go:5-44 | a compressed amount that is read is written back unchanged iff its amount fits 64 bits |
| `Amount.CompressAmount` | internal/revfile/amount.go:5-22 | the loop on 64-bit words computes the compressed amount modulo 2^64 |
| `Amount.DecompressAmount` | internal/revfile/amount.go:25-44 | the loop on 64-bit words computes the decompressed amount modulo 2^64 |
| `CompactSize.CompactSizeRoundTrip` | internal/revfile/compactsize.go:15-82 | round trip for every uint64, with the following bytes unread |
| `CompactSize.ReencodeIffShortest` | internal/revfile/compactsize.go:15-82 | longer forms decode too; a size re-encodes to its own bytes iff it was in the shortest form |
| `CompactSize.WriteCompactSize` | internal/revfile/compactsize.go:15-48 | the four widths by size |
| `CompactSize.ReadCompactSize` | internal/revfile/compactsize.go:51-82 | the reader behind the theorems, with its end-of-file errors |
| `Script.ScriptRoundTrip` | internal/revfile/script.go:33-168 | reading a compressed script gives its normal form and consumes exactly what was written |
| `Script.NormalScript` | internal/revfile/script.go:86-92 | only uncompressed P2PK scripts differ from their normal form, which is stable and compresses alike |
| `Script.WriteReadWrite` | internal/revfile/script.go:33-168 | for every script write-read-write produces the bytes of write |
| `Script.ParsedScript` | internal/revfile/script.go:107-168 | whatever bytes parse as a script begin with a complete VARINT and the payload it announces, and those are what was consumed |
| `Script.ReprintScriptIff` | internal/revfile/script.go:33-168 | a parsed script is written back as the bytes consumed iff its size fits 64 bits and no special script was spelled out as plain bytes |
| `Script.WriteCompressedScript` | internal/revfile/script.go:33-100 | the writer's branches are the encoder of the theorems |
| `Script.ReadCompressedScript` | internal/revfile/script.go:107-168 | the reader's branches are the decoder of the theorems, with a panic on a length that no slice can have |
| `Undo.CoinRoundTrip` | internal/revfile/coin.go:9-58 | every coin the writer takes parses back, with the rest unread; it is the coin with its script in normal form iff its amount compresses within 64 bits |
| `Undo.TxUndoRoundTrip` | internal/revfile/coin.go:61-87 | the same for a transaction's list of coins, iff all its amounts do |
| `Undo.BlockUndoRoundTrip` | internal/revfile/coin.go:90-116 | the same for a whole block, with trailing bytes unread |
| `Undo.NormalBlockEncodesAlike` | internal/revfile/coin.go:90-116 | a block and its normal form print to the same bytes |
| `Undo.ParsedCoin` | internal/revfile/coin.go:32-58 | whatever bytes parse as a coin are three complete VARINTs, a dummy byte above height zero and the announced payload, and those are what was consumed |
| `Undo.ReprintCoinIff` | internal/revfile/coin.go:9-58 | a parsed coin prints to the bytes consumed iff height, amount and script size were read without wrapping, and no special script was spelled out as plain bytes |
| `Reprint.ParsedBlock` | internal/revfile/coin.go:61-116 | whatever bytes parse as a block are a count and lists of coins, each in some form, and those are what was consumed |
| `Reprint.ReprintTxIff` | internal/revfile/coin.go:61-87 | a parsed list of coins prints to the bytes consumed iff its count was in the shortest form and each coin in the form that the writer uses |
| `Reprint.ReprintBlockIff` | internal/revfile/coin.go:90-116 | the same for a whole block |
| `Reprint.ReprintRecordIff` | internal/revfile/record.go:19-86 | a parsed record, printed with a previous hash, gives the bytes consumed iff its block does, its body had no unread rest and its checksum is the one for that hash |
| `Undo.SerializeBlockUndo` | internal/revfile/coin.go:90-100 | the writing loops are the encoder of the theorems |
| `Undo.DeserializeBlockUndo` | internal/revfile/coin.go:103-116 | the reading loops are the decoder of the theorems, errors and panics on impossible counts included |
| `Record.RecordRoundTrip` | internal/revfile/record.go:19-86 | a printed record parses to the value read back, with the body as RawUndo and the rest unread; the value is the normal form of the one written iff its amounts fit |
| `Record.ParsedChecksumVerifies` | internal/revfile/record.go:63-93 | the parsed record's checksum verifies against the previous hash it was written with |
| `Record.BodyComesBackIffUnder4GiB` | internal/revfile/record.go:19-86 | the body survives the 32-bit length field iff it is shorter than 4 GiB |
| `Record.TruncatedRecord` | internal/revfile/record.go:19-45 | no proper prefix of a record parses, and each fails with an end of file |
| `Record.CutFileParses` | internal/revfile/record.go:48-60 | a file of records cut anywhere parses without error to exactly the records wholly before the cut |
| `Record.ShortBodyDropsTheRest` | internal/revfile/record.go:48-60 | a complete record whose body ends early silently drops everything behind it; a body that is bad otherwise is reported, and one with an impossible length crashes the program |
| `Record.HugeCountCrashes` | internal/revfile/coin.go:103-108 | a body that announces 2^64 - 1 transactions is one of those |
| `Record.VerifyChecksum` | internal/revfile/record.go:89-93 | true iff the stored checksum is the double hash of previous hash and body |
| `Record.ParseRecord` | internal/revfile/record.go:19-45 | the parser's steps and errors are the decoder of the theorems |
| `Record.ParseAllRecords` | internal/revfile/record.go:48-60 | the loop collects records until an error and swallows the two end-of-file errors; a panic takes the records with it |
| `Record.SerializeRecord` | internal/revfile/record.go:63-86 | magic, length, body and checksum in this order |
| `Formats.RecordLayout` | internal/revfile/record.go:63-86 | a printed record is the magic, the length of the body modulo 2^32 lowest byte first, the body, and SHA-256 of SHA-256 of previous hash and body |
| `Formats.CoinLayout` | internal/revfile/coin.go:9-29 | a printed coin starts with the VARINT of twice its height plus the coinbase bit, and has one zero byte behind it iff its height is not 0 |
| `Formats.DummyByteMatters` | internal/revfile/coin.go:38-46 | a coin above height zero whose next byte is not 0 is malformed |
| `Formats.ScriptLayout` | internal/revfile/script.go:33-100 | the special scripts are one byte and 20 or 32 bytes of theirs, any other is its length plus six and itself |
| `Blockmap.FoundInTiling` | internal/blockmap/types.go:32-55 | on a tiling the binary search finds the one entry that covers the offset, and none exactly outside the file |
| `Blockmap.FoundIffDisjoint` | internal/blockmap/types.go:32-55 | on every map that reading accepts the search finds whatever covers an offset iff no two different entries overlap and no end is behind the largest int64 |
| `Blockmap.WrappedEndNotFound` | internal/blockmap/types.go:40-48 | an entry whose end wraps is accepted by reading and never found |
| `Blockmap.FoundIffScanned` | internal/blockmap/types.go:32-55 | with starts and computed ends in order the search agrees with a linear scan |
| `Blockmap.FoundIffCovered` | internal/blockmap/types.go:32-55 | which is a scan for a covering entry where no end wraps |
| `Blockmap.SortedOffsetsAreNotEnough` | internal/blockmap/reader.go:58-63 | order of offsets alone, which is what reading checks, lets the search miss a covering entry |
| `Blockmap.FindBlock` | internal/blockmap/types.go:32-55 | the search loop, with the ends computed in int64, is the search of the theorems |
| `Blockmap.OverlappingIff` | internal/blockmap/types.go:59-78 | on a range within int64 the overlap scan keeps an entry iff it overlaps the range and its end does not wrap |
| `Blockmap.WrappedRangeIsEmpty` | internal/blockmap/types.go:59-78 | on a range that leaves int64 it keeps none of the entries of a file |
| `Blockmap.FindBlocks` | internal/blockmap/types.go:59-78 | the loop over the entries, with both ends computed in int64, is the filter of the theorems |
| `Blockmap.TilingCovers` | internal/blockmap/scanner.go:42-84 | in a tiling every byte of the file has exactly one covering entry, and no other offset has one |
| `BlockScan.ScanIffDescribes` | internal/blockmap/scanner.go:42-86 | the scanner returns a map iff that map starts at 0, abuts, ends at the file size and lists the file's blocks and header hashes |
| `BlockScan.EntriesSpanAtLeast88` | internal/blockmap/scanner.go:42-84 | every entry spans at least 88 bytes, which bounds their number and makes the scan end |
| `BlockScan.ScanBlkFile` | internal/blockmap/scanner.go:21-87 | the offset-driven loop, with its rejections, is the scan of the theorems |
| `BlockmapCodec.MapRoundTripIff` | internal/blockmap/reader.go:16-68 | a sorted map survives writing and reading iff it has fewer than a million entries |
| `BlockmapCodec.AcceptedIff` | internal/blockmap/reader.go:16-68 | the reader accepts exactly what the writer writes for a sorted map of fewer than a million entries, whatever the six reserved bytes are and whatever follows |
| `BlockmapCodec.DecodeEncodedMap` | internal/blockmap/reader.go:30-63 | what larger maps turn into: the count is taken modulo 2^32 and then held against the limit |
| `BlockmapCodec.SortedUnique` | internal/blockmap/writer.go:22-27 | an unstable sort has no choice on distinct offsets that already ascend |
| `BlockmapCodec.WriteMap` | internal/blockmap/writer.go:17-53 | what is written is the encoding of a permutation of the entries sorted by offset |
| `Formats.BlockmapLayout` | internal/blockmap/writer.go:29-53 | a written blockmap is 16 + 44 n bytes: magic, version 1, n modulo 2^32 and six zeros, then hash, offset and size of each entry in order, numbers lowest byte first |
| `BlockmapCodec.ReadMap` | internal/blockmap/reader.go:16-68 | header, entries and order check are the decoder of the theorems |
| `BlockRead.ScanWriteReadServe` | internal/fusefs/handle.go:211-238 | scan, sort, write, read, fetch and assemble together equal one read of the plain file; ENODATA iff the offset is at or behind its end or the range leaves int64, EIO iff a block that the read overlaps is not to be had or not readable in the cache |
| `BlockRead.ViaBlockmapIsPread` | internal/fusefs/handle.go:211-238 | from any cache that agrees with the file: the exact slice iff every wanted block is seen in the cache or can be fetched and stored, and can be read from there; the cache keeps agreeing |
| `BlockRead.FetchAllExact` | internal/fusefs/handle.go:315-348 | fetching the wanted blocks succeeds iff each is available, then all are cached, and other files' blocks stay |
| `BlockRead.AssembleIsPread` | internal/fusefs/handle.go:350-383 | clipping and copying the blocks of a tiling fills the buffer with the clipped slice |
| `BlockRead.OverlapIffInside` | internal/blockmap/types.go:59-78 | blocks are found for a nonempty range iff it starts inside the file and does not leave int64 |
| `BlockRead.ReadViaBlockmap` | internal/fusefs/handle.go:211-238 | the method on cache and buffer takes the branches of the theorems, with a cache that fails to show or to deliver blocks |
| `BlockRead.FetchBlock` | internal/fusefs/handle.go:315-348 | seen in the cache, fetched and hash-checked, or failed |
| `BlockRead.ReadCachesCheckedBlocks` | internal/fusefs/handle.go:315-348 | whatever the server sends and through whatever map, a block that a read puts into the cache is complete and has the header hash of an entry of the map; nothing in the cache is lost |
| `BlockRead.AssembleRead` | internal/fusefs/handle.go:350-383 | the copying loop writes exactly the assembled bytes into the caller's array, or fails at a block that is missing or unreadable |
| `BlockRead.DiskBlockCache.StoreBlock` | internal/blockcache/cache.go:28-71 | a stored block is what a lookup of its file and offset yields from then on; every other lookup yields what it did |
| `BlockRead.DiskBlockCache.RemoveFile` | internal/blockcache/cache.go:61-90 | after it no lookup of that file yields a block, and lookups of other files yield what they did |
| `FetchPolicy.WholeFileIff` | internal/fusefs/fetch_policy.go:126-171 | over every history and clock a blk file is fetched whole iff its latest mark is an unexpired success and no later query came after the deadline of that success |
| `FetchPolicy.FixedAnswers` | internal/fusefs/fetch_policy.go:126-133 | in a fixed mode every file is read in that mode, and in the adaptive one other than blk files by ranges; asking leaves no trace |
| `FetchPolicy.LastEventWins` | internal/fusefs/fetch_policy.go:126-171 | as long as no event is later than now, it is fetched whole iff its latest mark is an unexpired success |
| `FetchPolicy.NeverInBothMaps` | internal/fusefs/fetch_policy.go:159-171 | over every history no name is hinted and cooling down at once |
| `FetchPolicy.PromotionRespectsCooldown` | internal/fusefs/fetch_policy.go:173-207 | over every history promotion is held back exactly during the cooldown after a latest failure |
| `FetchPolicy.BackwardClockForgets` | internal/fusefs/fetch_policy.go:126-157 | a late query deletes a hint that an earlier time still needs |
| `FetchPolicy.TrackBounds` | internal/fusefs/fetch_policy.go:209-232 | over every run of reads the sequential bytes are part of the total and seeks part of the requests |
| `FetchPolicy.TrackCounts` | internal/fusefs/fetch_policy.go:209-232 | after any run of reads the tracker holds the number of nonempty reads, their bytes, the bytes of the first and of those that follow within the tolerance, and the number of those that start in front of the end of the one before |
| `FetchPolicy.PromotesIff` | internal/fusefs/fetch_policy.go:173-207 | over any run of reads a file is promoted iff the mode is adaptive, it is a blk file, these numbers meet the five thresholds, and no cooldown runs |
| `FetchPolicy.GaplessScanPromotes` | internal/fusefs/fetch_policy.go:173-232 | a gapless scan is promoted iff it is long enough and no cooldown runs |
| `FetchPolicy.Policy.ResolveMode` | internal/fusefs/fetch_policy.go:126-157 | answer and expiry of both maps |
| `FetchPolicy.Policy.MarkPromotionFailure` | internal/fusefs/fetch_policy.go:166-171 | moves the name from the hints to the cooldowns |
| `FetchPolicy.Policy.ShouldPromoteToFile` | internal/fusefs/fetch_policy.go:173-207 | all thresholds met and no cooldown |
| `XorStrip.RestoredIff` | tools/xorstrip/main.go:84-252 | for every file, key, killing point and mode: the next run restores the file iff the key is zero on all bytes between the killing point and the place where that run starts |
| `XorStrip.RepairAtBorder` | tools/xorstrip/main.go:105-131 | after a strip killed between two chunks, or a completed one, a repair run leaves exactly the raw file if the magic tells its chunks apart |
| `XorStrip.RepairIff` | tools/xorstrip/main.go:374-429 | for every key, a repair run restores a strip killed after p bytes iff the key is zero between p and the place where the repair starts; with key bytes there that are not zero: at the end, iff every chunk has the mainnet magic; before, iff p is a chunk border and the magic tells the chunks apart, or nothing was done and that is seen |
| `XorStrip.NoRepairInsideChunk` | tools/xorstrip/main.go:374-402 | killed inside a chunk, no run restores the file, unless the key is zero on one whole part of that chunk |
| `XorStrip.RawFileSurvivesIff` | tools/xorstrip/main.go:105-131 | a repair run leaves a raw blk file alone iff the key is zero from the first chunk without the mainnet magic on, if there is one; with a key that does not start with zero, iff each of its chunks contains the magic |
| `XorStrip.HasRawMagicIff` | tools/xorstrip/main.go:406-429 | a chunk counts as raw iff the four bytes of the mainnet magic stand anywhere in it, all four within the chunk |
| `XorStrip.OneMagicSurvivesIff` | tools/xorstrip/main.go:105-117 | a raw mainnet blk file with the magic at its start only survives --repair iff it has at most 8 MiB |
| `XorStrip.NetworkFileRestoredIff` | tools/xorstrip/main.go:37-43 | a file of one of the five networks, by its first four bytes, is restored by a run with its key unless its obfuscated form passes for raw and is not |
| `XorStrip.RepairDamagesShortTail` | tools/xorstrip/main.go:404-429 | it damages every raw mainnet file one byte longer than a chunk |
| `XorStrip.RepairDamagesTestnet` | tools/xorstrip/main.go:404-429 | it damages a raw testnet3 file |
| `XorStrip.NothingToDoIff` | tools/xorstrip/main.go:84-252 | a run without repair leaves a directory alone iff it has no block file, or no obfuscated one and no key |
| `XorStrip.RunStripsByName` | tools/xorstrip/main.go:352-368 | without failures a run makes of every blk and rev .dat file, whatever stands between, what stripping makes of it, and leaves all other files but the key alone |
| `XorStrip.RunSucceedsIff` | tools/xorstrip/main.go:100-252 | whatever fails, a run succeeds iff there are no block files, or no failing write is reported on a file it converts or repairs and xor.dat is missing, zero, unreadable or zeroed; it comes to xor.dat iff there are block files and no such write |
| `XorStrip.RunLeaves` | tools/xorstrip/main.go:100-252 | whatever fails, each block file is stripped from where its state says to where its strip stops, but nothing is repaired once a conversion has failed |
| `XorStrip.AllConverted` | tools/xorstrip/main.go:352-368 | so every obfuscated blk file and every obfuscated rev file is raw behind it |
| `XorStrip.OthersUntouched` | tools/xorstrip/main.go:352-368 | whatever fails, no other file than these and the key is ever touched |
| `XorStrip.OnlyBlkRepaired` | tools/xorstrip/main.go:105-117 | --repair makes a difference to blk files only |
| `XorStrip.RunTwiceIff` | tools/xorstrip/main.go:84-252 | after a successful run that got past every magic, whatever else failed in it, another one with the same key changes nothing iff the first could read xor.dat where it came to one that was not zero |
| `XorStrip.RerunLosesKey` | tools/xorstrip/main.go:1-14 | run again without --repair, a file that was killed behind its magic stays as it is, and a run that succeeds and can read the key zeroes it |
| `XorStrip.KeyGivenUpIff` | tools/xorstrip/main.go:212-252 | a run without a reported failure leaves a zero key iff it was zero or could be read; the obfuscated files are raw by then iff each could be looked at and was read to its end |
| `XorStrip.KeyKeptIff` | tools/xorstrip/main.go:325-350 | the key is kept iff the run does not come to it, it cannot be read or not be opened, or was zero already; it is zeroed iff it was, or the run comes to it and writes all of it |
| `XorStrip.FailureKeepsKeyIff` | tools/xorstrip/main.go:180-350 | a reported failure keeps the key iff it is not the key file itself that was cut off |
| `XorStrip.BlocksDir.ZeroXorDat` | tools/xorstrip/main.go:325-350 | zeroing of the key file, with a failure to read, open or write it |
| `XorStrip.XorFileFromOffset` | tools/xorstrip/main.go:374-402 | the chunk loop XORs the file from the offset on, aligned to file positions, however many writes it lives for and wherever reading ends |
| `XorStrip.FindConversionBoundary` | tools/xorstrip/main.go:406-429 | the first chunk without the raw magic |
| `XorStrip.BlocksDir.Run` | tools/xorstrip/main.go:84-252 | classification, conversion, repair and zeroing of the key, with unreadable files, reads and writes that fail anywhere and the early returns, as one function of the directory |
| `Store.RulesMatchMachine` | internal/state/rules.go:6-27 | writable is what the machine finalizes, evictable what it evicts, local what it finalizes or compacts, and no transition turns a served file into a local one |
| `Store.AllowedRaisesRank` | internal/state/machine.go:23-43 | the edges of the state machine, and that they lead towards the archive only |
| `Store.BlkNameParses` | internal/fusefs/local.go:83-96 | printing and parsing blk file names agree on every 64-bit number |
| `Store.BlkNameHasFiveDigits` | internal/fusefs/write.go:244-252 | the first hundred thousand blk files have names of five digits |
| `Store.IsBlockOrUndoIff` | internal/fusefs/local.go:27-96 | block and undo files are those named blk or rev, a number, .dat, and no others |
| `Store.UndoFilesAreNumbered` | internal/fusefs/local.go:83-96 | every blk file and the undo file of its number are among them |
| `FuseFs.FS.Open` | internal/fusefs/node.go:73-113 | which handle and which error each state and access mode gets, as the Open step |
| `Steps.OpenLeaves` | internal/fusefs/node.go:73-113 | opening changes no row and no byte: an active file that is opened for writing keeps its bytes or is made empty if missing; any other is opened for discarding |
| `FuseFs.FS.Create` | internal/fusefs/create.go:19-70 | the Create step, with the failures of the lookup, of the local file and of the row |
| `Steps.CreateLeaves` | internal/fusefs/create.go:19-70 | for a name that is new, active, or not found by a failed lookup: the file is kept, or emptied if asked for or missing, its row starts over and a write handle is opened; nothing happens if the file cannot be opened, and the row stays if it cannot be stored; any other name is opened for discarding |
| `FuseFs.FS.MarkClosed` | internal/fusefs/write.go:40-51 | the write-handle count after a release |
| `FuseFs.FS.Write` | internal/fusefs/write.go:53-100 | the Write step and the error it returns |
| `Steps.WriteLeaves` | internal/fusefs/write.go:53-100 | a write goes through iff the row is found and active, the file is there and a byte reaches the disk; then the length is the larger of the old one and the end of the range, the range holds the data, everything outside it the old bytes, a gap zeros, and nothing else changes |
| `Steps.WrittenIsRead` | internal/fusefs/write.go:53-100 | what was written is what the write handle and every reader of the active file read there |
| `FuseFs.FS.Finalize` | internal/fusefs/write.go:125-172 | a finalized row records hash and size of the local bytes |
| `FuseFs.FS.Allocate` | internal/fusefs/write.go:188-201 | the Allocate step |
| `Steps.AllocateLeaves` | internal/fusefs/write.go:188-201 | preallocation adds zeros behind the end as far as asked for, and changes no byte |
| `FuseFs.FS.Release` | internal/fusefs/write.go:203-260 | the Release step: the last writer of a blk file whose successor exists finalizes it |
| `Steps.ReleaseFinalizesIff` | internal/fusefs/write.go:203-260 | a row becomes LOCAL_FINALIZED iff the released handle was the only live writer of the file, the row was active, the file is a blk file of some number whose successor is in the local directory, it is there itself, and nothing fails; every other row stays as it is |
| `Steps.SuccessorDecides` | internal/fusefs/write.go:237-252 | when its last writer leaves, blk file k is finalized iff blk file k + 1 is there |
| `Steps.UndoFilesStayActive` | internal/fusefs/write.go:237-260 | no release finalizes an undo file |
| `FuseFs.FS.Read` | internal/fusefs/handle.go:41-117 | the Read step of every handle type, with disk errors after any number of bytes and in cached blocks |
| `Answers.HandleDecides` | internal/fusefs/handle.go:41-66 | a handle opened on a local file reads the local file, one on a cached file the cached copy, recording the access, and a write handle the local file or nothing; each succeeds iff the file is there and the disk gives a first byte |
| `Answers.RemoteReadAnswers` | internal/fusefs/handle.go:60-143 | the answer of a read through a handle on a remote file, completely: the slice by blocks, by a range request, from the kept or arriving copy, or by the last range request, in this order, or the error |
| `Answers.RemoteReadSucceedsIff` | internal/fusefs/handle.go:60-143 | such a read of an archived file succeeds iff the blocks of its map can be had where the map decides; and else iff the range request works, or the copy that is kept or arrives can be read, or, without a copy, the second range request works |
| `Answers.RemoteReadLeaves` | internal/fusefs/handle.go:60-189 | what such a read leaves: access time, counted bytes and hint behind a range or block read; the cached file, its row, the handle turned to it and the hint behind a download; the cooldown behind a failed one |
| `FuseFs.FS.ReadRemoteFileMode` | internal/fusefs/handle.go:119-143 | whole-file mode with its fall-back to a range request |
| `FuseFs.FS.FetchAndCache` | internal/fusefs/handle.go:145-189 | download, hash check, cache file and row, with a failure at each point |
| `FuseFs.FS.GetOrLoadBlockmap` | internal/fusefs/handle.go:240-313 | the blockmap in memory, or a fetched one that matches its hash and parses, or none |
| `Answers.MapLoading` | internal/fusefs/handle.go:240-313 | a name is remembered to have no map iff it is not listed with one, the server does not have it, its hash is wrong or it does not parse, never because the server cannot be reached; a map is remembered iff it was fetched with the listed hash and parses |
| `Answers.LoadedIffAtHand` | internal/fusefs/handle.go:240-313 | against a faithful archive the map is there iff it is in memory or delivered as published, and then it is the published one |
| `FuseFs.FS.ReadNull` | internal/fusefs/nullwrite.go:48-97 | local copy, cached copy, server, in this order |
| `Answers.DiscardingHandleReads` | internal/fusefs/nullwrite.go:48-97 | a discarding handle answers from the local copy iff its row is local or not found and the copy can be read, else from the cached copy iff that can be read, else from the server iff it answers, and fails iff none does |
| `FuseFs.FS.StoreInCache` | internal/cache/cache.go:52-100 | nothing is cached unless its hash is the expected one |
| `FuseFs.FS.ForceEvict` | internal/daemon/cachemgr.go:77-92 | evicts the least recently used cached files and reports exactly those whose removal worked |
| `FuseFs.FS.ListCachedByLRU` | internal/store/store.go:224-240 | as many cached rows as the limit allows, none more recent than one left out |
| `Steps.VictimsAreOldest` | internal/store/store.go:224-240 | the victims of an eviction are different cached files, as many as asked for or all, and no spared one was used less recently |
| `Steps.EvictionTakesIff` | internal/daemon/cachemgr.go:77-92 | an eviction removes the cached files of its victims and turns their rows remote, each except where that fails, and leaves everything else |
| `Lifecycle.NextKeepsIff` | internal/fusefs/write.go:34-260 | a step keeps the counts, the rows and what open handles rely on and moves each file by a stutter or one edge, iff it is not a Create that a failed lookup misleads into harm |
| `Lifecycle.PresentKeptIff` | internal/daemon/compaction.go:142-157 | of the steps that keep the invariant, one leaves every finalized file in place iff it is not a compaction that deletes a file whose row it fails to store |
| `Lifecycle.CompactionHeals` | internal/daemon/compaction.go:87-157 | another compaction ends where one that stored every row would have |
| `Lifecycle.RunKeeps` | internal/state/machine.go:23-43 | in every run without a misled Create every change of a stored state is a stutter or an edge of Transition |
| `Lifecycle.RunKeepsIff` | internal/fusefs/create.go:19-70 | in a run every step keeps the invariant and the state machine iff no step is a misled Create |
| `Lifecycle.CountsAndFinalizedFiles` | internal/fusefs/write.go:34-172 | in these runs the handle count is the number of live write handles; a finalized file has none, is there unless a compaction failed to store a row, and then its row has the hash and size of its bytes; Source follows State |
| `Lifecycle.OnlyTowardsTheArchive` | internal/state/rules.go:22-27 | in these runs rows stay, only move towards the archive, and archived names never become local again |
| `Lifecycle.FinalizedFilesAreImmutable` | internal/fusefs/write.go:53-172 | as long as a file is finalized its hash and size do not change, nor do its bytes while it is there, and once lost it does not come back as something else |
| `Serving.EveryReadIsARangeOfTheServedFile` | internal/fusefs/handle.go:41-209 | in every run cached copies equal the server's files and every successful read of an archived file, by whatever path, is its clipped slice, or the part of it in front of a disk error in the cached copy |
| `Serving.PreadIsPrefix` | internal/fusefs/handle.go:191-209 | a local read succeeds iff the disk gives a first byte, or no error; its reply is a prefix of the clipped slice, and all of it iff no error comes within |
| `Serving.ArchivedReadServes` | internal/fusefs/nullwrite.go:36-97 | the same for one read by a reading or a discarding handle, with the caches left in agreement |
| `Serving.FetchAndCacheServes` | internal/cache/cache.go:52-111 | what a download leaves in the cache is the server's file |
| `Serving.ReadRemoteServes` | internal/fusefs/handle.go:41-117 | blockmap, range and whole-file mode all answer with the clipped slice, or its part in front of a disk error in the cached copy, or an error |
| `Serving.RunAgrees` | internal/cache/cache.go:52-111 | rows, cached block files, blockmaps and cached blocks agree with the server after every run; other files in the cache directory do not matter |
| `Compaction.CrashRecoverCompact` | internal/daemon/compaction.go:87-193 | killed any number of times, anywhere between removing files and updating rows and with updates that fail, recovery and a last undisturbed compaction end where a single undisturbed one ends |
| `Compaction.CompactionOutcome` | internal/daemon/compaction.go:122-157 | the outcome, failed removals and updates included, does not depend on the order in which the covered files are listed |
| `Compaction.UncoveredUntouched` | internal/daemon/compaction.go:122-157 | files that the snapshot height does not cover keep row and bytes in every intermediate state |
| `Compaction.CompactionIsOneStep` | internal/daemon/compaction.go:142-157 | a completed compaction is the one step of the file system's runs |
| `Steps.CompactionTakesIff` | internal/daemon/compaction.go:122-157 | a file is taken iff its row is finalized, its last block is within the snapshot, and it is gone or can be removed; its row goes to the server unless it cannot be stored, and all else stays |
| `Compaction.CompactionManager.Compact` | internal/daemon/compaction.go:87-120 | what is done, and what the marker file says, after any number of removals and updates, some of which fail |
| `Compaction.CompactionManager.ReplaceFiles` | internal/daemon/compaction.go:142-157 | per file removal, then row; files that cannot be removed are skipped, rows that cannot be stored passed over |
| `Compaction.CompactionManager.RecoverFromCrash` | internal/daemon/compaction.go:168-193 | removes the marker and changes neither rows nor files |
| `Heights.RunsNeverCompact` | internal/daemon/compaction.go:122-140 | in every run that starts from rows without heights no row ever gets one, and no compaction changes anything |
| `Heights.StartAndPollKeepHeights` | internal/cmd/mount.go:77-136 | mounting and polling, whatever fails, give no row a height either |
| `Heights.FinalizedForGood` | internal/daemon/compaction.go:142-157 | so in these runs a finalized file stays finalized, with its bytes, for good |
| `Heights.OnlyCompactionHandsOver` | internal/state/machine.go:23-43 | no step but a compaction takes a finalized file out of that state |
| `Eviction.TickMakesProgress` | internal/daemon/cachemgr.go:56-92 | a tick over the limit strictly reduces the cached files as long as there are some |
| `Eviction.TickFrees` | internal/daemon/cachemgr.go:56-92 | a tick frees exactly the bytes of its victims |
| `Eviction.TickShrinksExcess` | internal/daemon/cachemgr.go:56-74 | one tick whose victims are full files, as many as asked for, brings an excess with q = excess / 128 MiB below (q + 1) * 4 MiB, whatever else is cached |
| `Eviction.TicksReachTheLimit` | internal/daemon/cachemgr.go:56-92 | after as many ticks as there were cached files the limit is reached or nothing is left to evict |
| `Eviction.LimitReachedIff` | internal/daemon/cachemgr.go:56-92 | after as many ticks as there were cached files the cache is within its limit iff the other files in its directory are |
| `Eviction.TicksSuffice` | internal/daemon/cachemgr.go:56-74 | where the other files fit and no cached file is smaller than `size`, k ticks reach the limit when excess * (128 MiB - size)^k < (128 MiB)^k |
| `Eviction.FullFilesTicks` | internal/daemon/cachemgr.go:56-74 | on a cache of full files only, each tick divides the excess by 32: one below 32^j * 128 MiB is gone after j + 2 ticks |
| `Eviction.EvictedRows` | internal/daemon/cachemgr.go:77-92 | an eviction turns its victims, and only them, remote: as many as asked for, or all there are |
| `Eviction.CacheManager.EvictIfNeeded` | internal/daemon/cachemgr.go:56-74 | within the limit nothing changes; beyond it the LRU prefix of the computed length is evicted |
| `Eviction.CacheManager.CacheUsage` | internal/cache/cache.go:114-131 | the sum of the sizes of the cached files |
| `Startup.LocalFilesActiveIff` | internal/fusefs/local.go:27-78 | a local block file ends up active with its size on disk and no hash iff the scan reaches its row, or it was so before, and no failed lookup makes the manifest loop overwrite it |
| `Startup.ScanDeletesIff` | internal/fusefs/local.go:27-78 | the scan deletes exactly the empty files whose names are not blk or rev, a number, .dat, unless looking at them or deleting them fails, and leaves the rest of the directory alone |
| `Startup.RescannedRow` | internal/cmd/mount.go:233-249 | a rescanned row takes its creation time from the file and keeps its heights iff it was found |
| `Startup.ClobberedFileDropsWrites` | internal/cmd/mount.go:110-122 | a local file whose row was overwritten is REMOTE, is opened for writing with a discarding handle, and keeps its bytes whatever is written |
| `Startup.OrphansLeftIff` | internal/cmd/mount.go:94-108 | an active row but the lock is left without anything behind it in the local directory iff it was active, its removal failed and it was not overwritten |
| `Startup.ManifestRowsRegistered` | internal/cmd/mount.go:110-136 | every manifest name whose update does not fail has a row, and archived rows carry the manifest's size and non-empty hash; where the update fails the row stays |
| `Startup.NewlyListed` | internal/cmd/mount.go:110-123 | a listed name without row and local file becomes remote, from the server, with the listed size and hash |
| `Startup.ListedArchivedRow` | internal/cmd/mount.go:126-134 | a listed archived row keeps everything but size, hash and access time |
| `Startup.OtherRowsStay` | internal/cmd/mount.go:77-136 | a row that belongs to no local block file, no orphan and no listing is left as it is, whatever fails |
| `Startup.StartTwice` | internal/cmd/mount.go:77-136 | mounting again with the same directory and manifest, without failures, changes access times only |
| `Startup.StartHealsIff` | internal/cmd/mount.go:77-136 | whatever failed in one start, another one without failures leaves every name as a single one without failures would have, but for times and heights, iff no row that was no local block file was overwritten and said more than its listing |
| `Startup.StartsARunIff` | internal/cmd/mount.go:77-136 | whatever failed, the result is a proper first state of a run iff every local block file stays or becomes active and no finalized row without one is left |
| `Startup.SoundWithoutFaultsIff` | internal/cmd/mount.go:77-136 | when nothing fails, iff no finalized row has lost its local file |
| `Startup.StartsInAgreementIff` | internal/cmd/mount.go:110-136 | whatever failed, rows and cache agree with the server at the start iff every cached copy of a listed file has the listed hash, and no archived row kept an old hash because its update failed |
| `Startup.StartsInAgreementIffUnchanged` | internal/cmd/mount.go:126-134 | where nothing fails and the rows recorded the hashes of their copies, iff no listing of a cached file has changed |
| `Startup.StaleCopyServed` | internal/cmd/mount.go:126-134 | a cached file whose listing changed gets the new size and hash and keeps serving its old bytes |
| `Startup.SourcesSurviveStartAndPoll` | internal/daemon/poller.go:68-86 | Source follows State across mounting and polling too, whatever fails |
| `Startup.PollLeavesTheStateMachine` | internal/daemon/poller.go:68-81 | re-registering a name is a legal transition iff its file was not active or the update fails |
| `Startup.PollLeaves` | internal/daemon/poller.go:68-86 | an added file is remote with the listed size and hash, a removed one has no row, and where the update fails, and everywhere else, the row stays |
| `Startup.Mounter.ScanLocalFiles` | internal/fusefs/local.go:27-78 | finds the block files that can be looked at and deletes stale empty files of other names |
| `Startup.Mounter.RegisterManifest` | internal/cmd/mount.go:110-136 | the third loop, with failing lookups and updates, is the function of the theorems |
| `Startup.Mounter.Execute` | internal/cmd/mount.go:77-136 | the three loops in this order, every discarded error included |
| `FinalizedScan.ScanIsTheOnlyOne` | internal/server/scanner.go:36-75 | the scan is the one ascending list of the finalized files: blk files of at least 124 MiB and the undo files of the same numbers |
| `FinalizedScan.ScanFindsFinalized` | internal/server/scanner.go:36-70 | a file is listed iff it is finalized |
| `FinalizedScan.ScanFinalizedFiles` | internal/server/scanner.go:22-78 | the two passes are the scan of the theorems |
| `Sync.GeneratedIffHitsFresh` | internal/server/manifestgen.go:122-160 | reusing hashes lists the files as hashed from scratch iff every reused hash is still the file's own |
| `Sync.EveryPublishedManifest` | internal/daemon/syncer.go:94-203 | in every run of cycles, whatever fails, a published manifest lists the files as hashed from scratch, and only names that are in the bucket then and from then on |
| `Sync.PublishesIff` | internal/daemon/syncer.go:94-139 | a cycle publishes iff something new is finalized, no upload of a new file or of a new blk file's blockmap fails, neither listing nor scan fails, every file and every seen blockmap that is not remembered can be hashed, and the manifest goes up |
| `Sync.LostManifest` | internal/daemon/syncer.go:115-117 | after good file uploads a failed manifest is not tried again while no new name is finalized |
| `Sync.FailedManifestIsRemembered` | internal/daemon/syncer.go:183-205 | a cycle whose manifest upload fails stores and remembers the same as one whose upload works, and leaves the published manifest |
| `Sync.StoredFilesStay` | internal/daemon/syncer.go:109-114 | a block file in the bucket is never uploaded again |
| `Sync.CycleStores` | internal/daemon/syncer.go:94-168 | in one cycle, whatever fails, a new finalized file that goes up is stored with its bytes, the blockmap of a blk file with those of the blockmap, and every other object stays as it is |
| `Sync.ObjectIsListedIff` | internal/daemon/syncer.go:170-203 | the bucket holds the bytes that the manifest lists iff the object has the listed size |
| `Sync.GrownFileStaysShort` | internal/daemon/syncer.go:109-114 | a file that grew after its upload is listed at its new size and stored at its old one for good |
| `Sync.MissingMapStays` | internal/daemon/syncer.go:109-131 | a blockmap that is missing behind a stored block file is never uploaded |
| `Sync.ListedMapIsStoredIff` | internal/server/manifestgen.go:162-190 | a published manifest lists the blockmap of a file it had to hash iff it sees one; the bucket has it, then and for good, iff it had before or the blockmap went up with the file as a new blk file |
| `Sync.MapHashRemembered` | internal/server/manifestgen.go:122-160 | as long as the syncer runs and a file keeps its size it is listed with the blockmap hash that it was first listed with, or with none, whatever becomes of the blockmap |
| `Sync.PublishedNamesDistinct` | internal/server/manifestgen.go:74-229 | a published manifest lists no name twice, as mounting needs |
| `Sync.GenerateManifest` | internal/server/manifestgen.go:74-229 | the hash cache and the slots filled per file, blockmap hashes included, are the function of the theorems; no manifest iff the scan fails or a file or blockmap that is not in the cache cannot be hashed |
| `Sync.Syncer.Sync` | internal/daemon/syncer.go:94-139 | one cycle, with its early returns and partial failures, is the function of the theorems |

## Left out

- Release: `FuseFs.FS.Release` is one atomic step, while the program drops a lock between the count and finalization (internal/fusefs/write.go:214-242); finer interleavings are not modelled, nor are singleflight, the download semaphore and the hashing workers.
- EveryReadIsARangeOfTheServedFile: assumes that the manifest's hashes are those of the server's files, that no download collides with them under SHA-256, that a compacted file has the hash of the server's, and that no Create is misled by a failed lookup (`Lifecycle.AllSafe`).
- FetchAndCacheServes: the same assumptions, for one download.
- RunKeeps: runs in which a failed lookup misleads a Create into harm are excluded; `Lifecycle.RunKeepsIff` proves that these are exactly the runs that break the invariant or the state machine.
- StartsInAgreementIff: archived rows and cached block files that the manifest does not list, and a manifest entry without a hash, are not covered.
- StartsARunIff: prior rows whose source does not follow their state, archived or finalized rows of other than block files, and a manifest that lists a name twice are not covered. Opening the store, loading the manifest and reading the local directory end a mount when they fail.
- LimitReachedIff: the ticks have no I/O failures; evictions with failures are steps of the runs in `Lifecycle`.
- Poll and mount are no steps of the runs in `Lifecycle`: both may overwrite rows without regard to the state machine.
- RecoverFromCrash: the backup directory is only looked at to log that it exists, and is not modelled.
- Compact: failures to list the rows or to write the marker file, which end it before or after its work, are not modelled; the process can die there instead.
- FindConversionBoundary: fails as a whole or not at all; a read error in the middle of a chunk, which hides a magic behind it from the search, is not modelled.
- ShouldPromoteToFile: the sequential share is a real number, without floating-point rounding.
- ResolveMode: modes are the three that NewFetchPolicy lets through; its defaults are not modelled.
- GenerateManifest: snapshots, chain and base URL are not part of the model, and the directory is stable within a cycle.
- Sync: uploads either take effect or fail; the bucket's manifest is kept apart from its other objects, and the local copy of the manifest is left out.
- ScanFinalizedFiles: the final sort by path is the identity by `FinalizedScan.ScanAscending` and is not carried out; every directory entry is a regular file.
- SortSlice and the LRU query are any order that sorting or the query allows, not the algorithms of Go and SQLite.
- ShortBodyDropsTheRest: a panic is an allocation of more than 2^48 bytes, which Go refuses on 64-bit Linux; that a smaller one may exceed the memory of the machine, and crash the program too, is not modelled. The same goes for ReadCompressedScript and DeserializeBlockUndo.
- Writers and in-memory buffers do not fail.
- Offsets given to reads are natural numbers, as FUSE passes them, and buffers shorter than 2^63 bytes; HTTP status codes appear as found, absent or failed.
- Files are written atomically where the program renames a temporary file over them.
- The key file, its hex form, the dry run and the worker pool of the XOR tool appear only as far as they decide which bytes change.
- Getattr, directory listings, inode numbers, the lock node, the index loopback and xor.dat: visible metadata without state of its own.
- HTTP clients and server, retry and backoff, SQLite, the S3 SDK, configuration, logging, PID files and the other commands: plumbing whose outcomes are parameters here.
- SHA-256, JSON, hex, tar and zstd: functions of libraries; secp256k1 point decompression is avoided by the program itself.

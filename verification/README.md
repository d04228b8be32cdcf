# Disc images and their controller: a verified model

The repository is an Amstrad CPC emulator with the libraries it reads discs through: LIBDSK for the
disc images and LIB765 for the floppy controller. This project models the parts of it that carry real
invariants and proves what they promise. Every file below is a Dafny module of the same name;
`dafny verify dfyconfig.toml` checks them all.

The code that changes fields, arrays and positions step by step is modelled by classes and methods with
loops; each is proved equal to a function on values, and the properties are lemmas about those functions.

## The parts

**LZHUF decoder of TeleDisk images** (`Tlzh*`). `TlzhTree` holds the adaptive Huffman tree in its three
arrays and what `update` does in a round; `TlzhReconst` the rebuilding, the start tree and whole runs;
`TlzhCodes` the codes; `TlzhStream` reading symbols and positions from the bits of a file; `TlzhTokens`
the LZSS layer against an unbounded history; `TlzhReader` and `TlzhDecoder` the bit buffer, the arrays
and the ring buffer as they are changed in place.

**Squeeze** (`Sq*`, `Squeeze`). Run-length layer, tree, codes, file format with the round trip, the
exchange argument for optimality, and the fields of the C structure as a class.

**CP/M directory over a host directory** (`Rcpm*`). Parameters and entries, allocation with rollback,
the translation from sectors back to files, and the buffer chain.

**uPD765A** (`Fdc*`). The registers as a value with one function for each C function, what the status
bytes tell, complete exchanges over an abstract drive, the registers as fields of a class, and a host that
runs whole exchanges on it.

**DSK sectors** (`Dsk*`). Offsets with and without the current-sector hint, reading and writing, and the
file with its position.

**Run-length image codecs** (`Qm`, `Cfi`) **and the settings file** (`Settings`).

`Bits` and `Sums` hold bit strings, sequence slices and sums used by all.

## Where the code decides against its own description

* The LZHUF bit reader refuses every request once all bytes of the file have been loaded, also when bits
  are still waiting in its word. A token comes out exactly if 15 more bits of the file follow its code, or
  8 after a match of distance at most 64, and otherwise the output ends before it
  (`TlzhTokens.StreamDecodes`, `TlzhTokens.DecodesContent`); `TlzhTokens.CodeStarves` shows a file that
  holds a whole code and delivers nothing. A file whose first block is a single byte is excluded: the
  reader would take a second byte that was never read.
* The CP/M allocator treats a disc as full as soon as the block number reaches the number of blocks, so
  the last block is never given out (`RcpmLookup.BlocksDistinct`), and a file that would exactly fill the
  disc is taken back (`RcpmLookup.FileGranted`, `RcpmLookup.LastBlockUnused`).
* The extent counter of a CP/M entry has thirteen bits. A file with more extents than they can count is
  built without an error, and its later blocks translate to wrong offsets; the translation is right
  exactly below that bound (`RcpmLookup.TranslationInverts`). `RcpmLookup.CounterOverflows` shows a disc
  and a file that reach it.
* On an EXTENDED DSK image the current-sector path of `sector_offset` leaves the length of the record
  before the one it finds, so a weak sector can lose its copies (`Dsk.ExtendedHint`).
* Before every command the controller clears bit 6 of ST0, which is also where a failed SEEK reports its
  failure, so SENSE INTERRUPT STATUS never shows it (`FdcWrite.SeekAndSense`).
* `squeeze` does not pass on an error of `compress`, and `unsqueeze` ignores an error on reading the
  checksum; both are modelled as they are.

## Conventions

* Errors of the C code are results of datatypes; reading past the end of a table in a malformed file,
  where the C code has no defined behaviour, is an outcome of its own (`OffTable`, `Overrun`) or a
  condition on the caller.
* What memory held before initialisation is a parameter or left open, and so are random numbers, the
  CRC table, the contents of time stamps and whatever a drive answers.
* Numbers are unbounded except where width matters: weights and counts are proved to fit theirs, words
  and bytes are reduced explicitly.

## Model

| member | source | states |
|---|---|---|
| TlzhTree.EqualRun | lib/libdsk/comptlzh.c:371-403 | In a tree that is one short at node c, the scan to the last lighter slot stops before the sentinel, on a slot that is not an ancestor of c, with every slot passed over of the same weight. |
| TlzhTree.RaiseSettled | lib/libdsk/comptlzh.c:371-403 | One round of the loop of `update`, with or without the swap, keeps links, order and sums, and moves the missing unit of weight to the parent of the node raised. |
| TlzhTree.RaiseWeight | lib/libdsk/comptlzh.c:371-403 | A round changes the weight of no symbol but the one whose leaf was raised, wherever the swap moves the leaves. |
| TlzhTree.RootHasParentZero | lib/libdsk/comptlzh.c:402 | A climb from a settled node ends exactly at the root: only the root has parent 0. |
| TlzhTree.ClimbWeight | lib/libdsk/comptlzh.c:371-403 | The whole climb from the leaf of a symbol ends in a valid tree in which that symbol weighs one more and no other symbol weighs anything else. |
| TlzhReconst.RootIsSum | lib/libdsk/comptlzh.c:319 | In a valid tree the root weighs the sum of the symbol weights. |
| TlzhReconst.JoinGrove | lib/libdsk/comptlzh.c:341-357 | Joining two slots in `reconst` inserts the new node above both of them and keeps the slots ordered, each node over two distinct lighter slots. |
| TlzhReconst.JoinKeepsLeaves | lib/libdsk/comptlzh.c:341-357 | The insertions shift but never lose or change a leaf. |
| TlzhReconst.ReconstCorrect | lib/libdsk/comptlzh.c:326-366 | `reconst` makes of any valid tree a valid tree over the same symbols, each weight w replaced by (w + 1) / 2. |
| TlzhReconst.StartCorrect | lib/libdsk/comptlzh.c:303-321 | `StartHuff` builds a valid tree in which every symbol weighs 1. |
| TlzhReconst.UpdateWeight | lib/libdsk/comptlzh.c:371-403 | `update` keeps every valid tree valid and raises exactly the given symbol by one, after halving all weights when the root has reached the limit. |
| TlzhReconst.RunBounded | lib/libdsk/comptlzh.c:371-403 | Over every run of symbols the root is the sum of the weights and at most 0x8000, so the equality test for rebuilding cannot be jumped over, no 16-bit weight wraps, and the sentinel exceeds every weight. |
| TlzhCodes.CodeDecodes | lib/libdsk/comptlzh.c:406-427 | `DecodeChar` on the code of a symbol, read off the parent links, finds that symbol and uses exactly those bits. |
| TlzhCodes.DescendUses | lib/libdsk/comptlzh.c:406-427 | Whatever bits `DecodeChar` uses up are the code of the symbol it answers. |
| TlzhCodes.DescendStarves | lib/libdsk/comptlzh.c:406-427 | When the bits run out on the way down, they are a proper start of the code of some symbol. |
| TlzhCodes.PrefixCode | lib/libdsk/comptlzh.c:406-427 | The codes of a valid tree are prefix free and complete. |
| TlzhStream.ReadCharDescends | lib/libdsk/comptlzh.c:406-427 | Reading a symbol through the bit reader is the descent on the bits of the file, and succeeds exactly when that finds a leaf and the reader can still load a byte for its last bit. |
| TlzhStream.TablesInvert | lib/libdsk/comptlzh.c:176-244 | The two position tables, indexed by any byte, invert the position code: value, length and index determine each other. |
| TlzhStream.ReadPosCode | lib/libdsk/comptlzh.c:429-449 | A position that `DecodePosition` answers is coded by exactly the bits it used. |
| TlzhStream.PosReads | lib/libdsk/comptlzh.c:429-449 | On the code of any position below 4096 `DecodePosition` answers that position, exactly when 15 more bits of the file follow, or 8 for a position below 64. |
| TlzhTokens.DeliverSplit | lib/libdsk/comptlzh.c:472-510 | Asking for a + b bytes is asking for a and then for b, wherever a match is cut. |
| TlzhTokens.DeliverExpands | lib/libdsk/comptlzh.c:472-510 | Requests are met with the next bytes of the expansion of the coded tokens against the unbounded history, overlapping copies and distance 4096 included, up to the first token that is not followed by bits enough, where the output ends. |
| TlzhTokens.DeliverSound | lib/libdsk/comptlzh.c:472-510 | On any input, the bytes delivered are the expansion of tokens the bits used up really code. |
| TlzhTokens.StreamDecodes | lib/libdsk/comptlzh.c:457-510 | A file that starts with the code of a token list delivers the expansion in order for every list of request lengths, and all of it exactly when 15 bits follow the last code, or 8 after a match of distance at most 64. |
| TlzhTokens.CodeStarves | lib/libdsk/comptlzh.c:256-297 | A file of two bytes that holds the whole code of a literal delivers nothing; with one more byte it delivers the literal. |
| TlzhTokens.UniqueTokens | lib/libdsk/comptlzh.c:406-449 | Although the tree changes with every symbol, no bit string starts with the codes of two token lists unless one list starts with the other. |
| TlzhTokens.DecodesContent | lib/libdsk/comptlzh.c:472-510 | Decoding any file to its end delivers the expansion of one token list: the longest that the file codes with bits enough after its last code. |
| TlzhTokens.RequestsTotal | lib/libdsk/comptlzh.c:559-567 | Consecutive requests deliver what one request of their total length delivers. |
| TlzhTokens.NextByteFuel | lib/libdsk/comptlzh.c:472-510 | Every byte delivered uses up input or the current match: decoding ends. |
| TlzhReader.PushByte | lib/libdsk/comptlzh.c:264-268 | Or-ing in a byte shifted by 8 - getlen appends its bits to those waiting in the word. |
| TlzhReader.DropBits | lib/libdsk/comptlzh.c:273-297 | Shifting the word left takes the next bits of the file off its front. |
| TlzhReader.BitReader.NextWord | lib/libdsk/comptlzh.c:256-270 | After success 9 to 16 bits are waiting, refilled from the file without reading past the buffered count; failure exactly when all bytes have been loaded. |
| TlzhReader.BitReader.GetBit | lib/libdsk/comptlzh.c:273-285 | Delivers the next bit of the file, most significant first, or fails as the cursor says. |
| TlzhReader.BitReader.GetByte | lib/libdsk/comptlzh.c:287-297 | Delivers the next eight bits of the file as a number, or fails as the cursor says. |
| TlzhDecoder.HuffTree.StartHuff | lib/libdsk/comptlzh.c:303-321 | The three arrays become the start tree. |
| TlzhDecoder.HuffTree.Compact | lib/libdsk/comptlzh.c:332-339 | The leaves are collected in order in the first half, halved, rounding up, with the sentinel in place. |
| TlzhDecoder.HuffTree.FindSlot | lib/libdsk/comptlzh.c:344-345 | The scan down finds the slot the new node goes into. |
| TlzhDecoder.HuffTree.Join | lib/libdsk/comptlzh.c:341-357 | The loop over pairs turns the leaves into all the slots of the rebuilt tree. |
| TlzhDecoder.HuffTree.Relink | lib/libdsk/comptlzh.c:359-365 | The parent links are set from the son links. |
| TlzhDecoder.HuffTree.Reconstruct | lib/libdsk/comptlzh.c:326-366 | In place, `reconst` computes the rebuilt tree. |
| TlzhDecoder.HuffTree.RaiseNode | lib/libdsk/comptlzh.c:379-402 | In place, one round of the loop of `update`. |
| TlzhDecoder.HuffTree.Update | lib/libdsk/comptlzh.c:371-403 | In place, `update` computes the updated tree, and the arrays again hold a valid tree. |
| TlzhDecoder.RingPush | lib/libdsk/comptlzh.c:483-484 | Writing a byte at r and advancing r modulo 4096 appends it to the history the ring buffer holds. |
| TlzhDecoder.RingBack | lib/libdsk/comptlzh.c:490-497 | Counting back through the ring buffer reads the history at that distance. |
| TlzhDecoder.Decoder.InitDecode | lib/libdsk/comptlzh.c:456-469 | The start tree, and the window of spaces behind what the end of the string buffer held. |
| TlzhDecoder.Decoder.DecodeChar | lib/libdsk/comptlzh.c:406-427 | Reads the next symbol and updates the tree, as the token model says. |
| TlzhDecoder.Decoder.DecodePosition | lib/libdsk/comptlzh.c:429-449 | Reads the next position, as the position code says. |
| TlzhDecoder.Decoder.NextToken | lib/libdsk/comptlzh.c:478-494 | Takes a literal into the ring buffer, or remembers a match to be copied. |
| TlzhDecoder.Decoder.CopyBytes | lib/libdsk/comptlzh.c:495-507 | Copies from the ring buffer until the match or the request is used up. |
| TlzhDecoder.Decoder.Decode | lib/libdsk/comptlzh.c:472-510 | One call delivers into the caller's buffer exactly what the token model delivers for that many bytes, and leaves the decoder where the next call goes on. |
| TlzhDecoder.Decoder.ExpandAll | lib/libdsk/comptlzh.c:559-567 | Requests of 512 bytes until a short one write everything the token model delivers before it ends. |
| TlzhDecoder.Uncompress | lib/libdsk/comptlzh.c:529-575 | Behind the header, any file is expanded to the tokens it stands for, and tokens coded at its start with bits enough after them come out in full and first. |
| SqRle.StreamExpands | lib/libdsk/compsq.c:62-128 | The symbols `rle_stream` hands on are bytes that `wrbyte` expands to exactly the input, then the end-of-file symbol: for escapes of 0x90, runs beyond 255 and the empty input. |
| SqTree.BestIsSmallest | lib/libdsk/compsq.c:151-166 | `huf_smallest` answers a slot with the smallest positive count, and finds one whenever there is one. |
| SqTree.TwoSmallest | lib/libdsk/compsq.c:226-227 | While two counts are left, the two picks of `analyze` are distinct slots with the two smallest counts. |
| SqTree.MergeGrows | lib/libdsk/compsq.c:170-190 | A merge keeps every used slot either waiting or hanging from a lower-numbered node whose child it is, and every node over two merged slots. |
| SqTree.MergeCounts | lib/libdsk/compsq.c:231-234 | A merge takes the two counts out of the waiting ones and puts their sum in. |
| SqTree.BuildFinished | lib/libdsk/compsq.c:224-238 | The loop ends with one tree: every counted symbol and every node but the root hangs from a lower-numbered node, and the root is the node made last. |
| SqTree.AnalyzeFinished | lib/libdsk/compsq.c:195-240 | Whatever symbols occur, one alone included, `analyze` ends with a finished tree. |
| SqCodes.Code | lib/libdsk/compsq.c:297-322 | Every code has 1 to 256 bits, so the guard in `pushbit` never fires. |
| SqCodes.ChainLeads | lib/libdsk/compsq.c:524-545 | The reversed climb from any slot, followed from node 0 of the dictionary, leads to that slot and not past an earlier leaf. |
| SqCodes.CodeLeads | lib/libdsk/compsq.c:524-545 | The code of a symbol makes the decoder deliver that symbol. |
| SqCodes.CodesDecode | lib/libdsk/compsq.c:524-545 | The codes of a byte list and the end-of-file symbol decode to what `wrbyte` makes of the bytes, whatever bits follow. |
| SqFormat.PackKeeps | lib/libdsk/compsq.c:261-280 | The bits packed lowest first into bytes are read back in order, before the padding. |
| SqFormat.TallyCounts | lib/libdsk/compsq.c:141-147 | Every symbol that occurs is counted. |
| SqFormat.DictTakes | lib/libdsk/compsq.c:342-356 | The dictionary read back holds the tree with its root moved to node 0, whatever the table held before. |
| SqFormat.RoundTrip | lib/libdsk/compsq.c:326-372 | `unsqueeze` gives back every input from what `squeeze` writes, with the checksum modulo 2^16 accepted, for every name without a zero byte. |
| SqOptimal.Exchange | lib/libdsk/compsq.c:195-240 | In any full binary tree with two smallest leaves x and y, some tree with x + y in their place costs at least x + y less. |
| SqOptimal.GreedyIsLeast | lib/libdsk/compsq.c:224-237 | No full binary tree over the waiting counts costs less than the merges of `analyze`. |
| SqOptimal.GreedyIsAttained | lib/libdsk/compsq.c:224-237 | Some full binary tree costs exactly as much. |
| SqOptimal.MergeTops | lib/libdsk/compsq.c:170-190 | A merge puts everything below the two slots one level lower and below the new node, and moves nothing else. |
| SqOptimal.BuildSpends | lib/libdsk/compsq.c:224-237 | Over the whole loop, occurrences times code length, summed, grow by exactly the counts given to new nodes. |
| SqOptimal.CodesLength | lib/libdsk/compsq.c:297-322 | The length of the output bits is the sum over the symbols of occurrences times code length. |
| SqOptimal.CodesAreLeast | lib/libdsk/compsq.c:195-240 | When two symbols occur, the output has as few bits as any full binary tree over the symbol counts allows, and one allows as few. |
| Squeeze.StreamShort | lib/libdsk/compsq.c:89-128 | Run-length coding at most doubles the input and adds one symbol, so no count reaches the largest unsigned long. |
| Squeeze.SqData.HufCounter | lib/libdsk/compsq.c:141-147 | Adds one to the count of the symbol, and no count wraps. |
| Squeeze.SqData.PushBit | lib/libdsk/compsq.c:284-294 | Appends a bit to the bit buffer unless it is full. |
| Squeeze.SqData.FlipBits | lib/libdsk/compsq.c:261-280 | Appends the bit buffer to the output bits in reverse, whole bytes going to the file. |
| Squeeze.SqData.HufEncode | lib/libdsk/compsq.c:297-322 | Appends exactly the code of the symbol to the output bits; the error branches are not taken. |
| Squeeze.SqData.RleFlush | lib/libdsk/compsq.c:62-84 | Hands the writer the symbols of the run, and clears it. |
| Squeeze.SqData.RleStream | lib/libdsk/compsq.c:89-128 | Hands either writer the whole symbol stream, adds the bytes to the checksum and rewinds. |
| Squeeze.SqData.HufSmallest | lib/libdsk/compsq.c:151-166 | Finds the smallest positive count, the first of equals. |
| Squeeze.SqData.HufAddNode | lib/libdsk/compsq.c:170-190 | Makes the node and hangs the two slots from it. |
| Squeeze.SqData.CountNodes | lib/libdsk/compsq.c:210-212 | Counts the nonzero counts. |
| Squeeze.SqData.BuildTree | lib/libdsk/compsq.c:224-237 | The loop computes the tree of the merges. |
| Squeeze.SqData.Analyse | lib/libdsk/compsq.c:195-240 | Counts the symbols and computes the tree and the checksum of the input. |
| Squeeze.SqData.WriteDict | lib/libdsk/compsq.c:342-356 | Writes the dictionary with node numbers relative to the root. |
| Squeeze.SqData.Squash | lib/libdsk/compsq.c:326-372 | Writes header, dictionary and packed codes. |
| Squeeze.SqData.SqueezeAll | lib/libdsk/compsq.c:381-390 | Writes the squeezed file of the input. |
| Squeeze.SqData.ReadU | lib/libdsk/compsq.c:404-414 | Takes a word off the input, low byte first. |
| Squeeze.SqData.ReadS | lib/libdsk/compsq.c:418-428 | Takes a signed word off the input. |
| Squeeze.SqData.ExpandByte | lib/libdsk/compsq.c:437-481 | Steps the expander by one byte, keeping the checksum that of the bytes written. |
| Squeeze.SqData.DecodeData | lib/libdsk/compsq.c:524-545 | Decodes to the end-of-file symbol as the walk over the dictionary says, with its error cases. |
| Squeeze.SqData.Unsqueeze | lib/libdsk/compsq.c:485-553 | Delivers what the file format says for any input, or the error it says. |
| Squeeze.SqData.OpenFile | lib/libdsk/compsq.c:572-607 | Refuses a file without the mark of a squeezed one, and rewinds and expands any other. |
| Squeeze.RoundTripFile | lib/libdsk/compsq.c:326-607 | Squeezing a file and opening the result gives the file back, for every input and every name without a zero byte. |
| Rcpm.EntryPointer | lib/libdsk/drvrcpm.c:1151-1167 | The pointers of an entry, 8 or 16 bits wide, read back as the consecutive blocks written, and zero beyond them. |
| Rcpm.EntryExtent | lib/libdsk/drvrcpm.c:1168-1176 | The extent number read from EX and S2 is the one written, as far as thirteen counter bits go, whatever the bits below the mask hold. |
| Rcpm.ExtentReadBack | lib/libdsk/drvrcpm.c:1465-1466 | The extent number reads back exactly while extent times (mask + 1) is below 8192. |
| RcpmAlloc.AddDirentSlot | lib/libdsk/drvrcpm.c:847-888 | An added entry takes a free slot behind those used and changes no other slot but a time stamp entry. |
| RcpmAlloc.ExtentGood | lib/libdsk/drvrcpm.c:1144-1190 | An extent that fits keeps the directory an exact record of the blocks given out, in increasing order. |
| RcpmAlloc.AddExtentsGood | lib/libdsk/drvrcpm.c:1144-1191 | The loop over the extents of a file keeps that, also when the directory fills up; when the disc fills up, nothing before the file has changed. |
| RcpmAlloc.RollBackSettled | lib/libdsk/drvrcpm.c:1192-1212 | After a rollback the live entries are those of the files before, and record exactly their blocks. |
| RcpmAlloc.ReadDirSettled | lib/libdsk/drvrcpm.c:1043-1230 | Whatever host files there are, the finished directory records exactly the blocks given out. |
| RcpmLookup.BlocksDistinct | lib/libdsk/drvrcpm.c:1043-1230 | In the directory built from any list of files no block is owned twice, and every owned block lies behind the directory and before the last block of the disc, which is never used. |
| RcpmLookup.TranslationInverts | lib/libdsk/drvrcpm.c:1434-1472 | A sector of the block given to a file as its block i is found in that file at offset i * blocksize plus the offset in the block, exactly while the extent counter does not overflow. |
| RcpmLookup.OnlyGranted | lib/libdsk/drvrcpm.c:891-937 | A sector behind block 0 has an owner exactly if its block was given out. |
| RcpmLookup.FileKept | lib/libdsk/drvrcpm.c:1131-1213 | In any state of the disc, a file is kept exactly when the blocks of the extents that are tried end before the last block of the disc; a live one is then granted the blocks of the extents the directory had room for, in order. |
| RcpmLookup.FileGranted | lib/libdsk/drvrcpm.c:1131-1213 | A file that the directory has room for is kept exactly when it leaves the last block of the disc free, and then owns all its blocks. |
| RcpmLookup.AddDirentRoom | lib/libdsk/drvrcpm.c:847-888 | An entry is added exactly when a free slot is left in a whole group of four, and takes one such slot. |
| RcpmLookup.LastBlockUnused | lib/libdsk/drvrcpm.c:1183-1187 | On an empty disc a file of all the blocks behind the directory is taken back; one of a block less is kept. |
| RcpmLookup.CounterOverflows | lib/libdsk/drvrcpm.c:1168-1172 | On a disc of 4096-byte blocks, the last sector of a file of 128 megabytes and a byte translates to the start of the file. |
| RcpmDriver.Driver.ReadDirent | lib/libdsk/drvrcpm.c:730-783 | Reads an entry and its name from the buffer chain, blank where there is no buffer. |
| RcpmDriver.Driver.WriteBuffer | lib/libdsk/drvrcpm.c:519-568 | Replaces the buffer of one sector or adds one, and changes the contents of no other sector. |
| RcpmDriver.Driver.WriteDirent | lib/libdsk/drvrcpm.c:788-844 | Changes one entry and its name and no other. |
| RcpmDriver.Driver.AddEntry | lib/libdsk/drvrcpm.c:847-888 | Adds the entry, and its stamps, as the allocation model says, with the overrun cases. |
| RcpmDriver.Driver.InitDir | lib/libdsk/drvrcpm.c:967-1035 | Makes the empty directory, with label and stamp entries for version 3. |
| RcpmDriver.Driver.NumberBlocks | lib/libdsk/drvrcpm.c:1151-1165 | Numbers the blocks of an extent, stopping when the disc is full. |
| RcpmDriver.Driver.AddExtent | lib/libdsk/drvrcpm.c:1146-1186 | Numbers the blocks, completes the entry and adds it. |
| RcpmDriver.Driver.AddHostExtents | lib/libdsk/drvrcpm.c:1131-1191 | The loop over the extents computes what the allocation model says. |
| RcpmDriver.Driver.RollBackFile | lib/libdsk/drvrcpm.c:1192-1212 | Frees the live entries of the file. |
| RcpmDriver.Driver.ReadHostDir | lib/libdsk/drvrcpm.c:1043-1230 | Builds the directory the allocation model says. |
| RcpmDriver.Driver.LookupBlock | lib/libdsk/drvrcpm.c:891-937 | Finds the first live entry with the block, its name and the offset in the extent. |
| RcpmDriver.Driver.FindSector | lib/libdsk/drvrcpm.c:1434-1472 | Finds file and offset of a sector as the translation says. |
| FdcExchange.TicksKeep | lib/lib765/765fdc.c:999-1007 | Any run of ticks changes nothing but the interrupt countdown. |
| FdcExchange.SendCommand | lib/lib765/765fdc.c:810-875 | From idle the controller takes exactly nine command bytes, whatever ticks come between, and then executes the command they spell. |
| FdcExchange.ReceiveResults | lib/lib765/765fdc.c:879-920 | Seven result bytes follow in order, and then the controller is idle. |
| FdcExchange.ReadSectorsData | lib/lib765/765fdc.c:434-471 | The read loop puts the sectors into the buffer one after the other and stops at the first that fails for good. |
| FdcExchange.ReadExchange | lib/lib765/765fdc.c:418-483 | A complete READ DATA exchange: nine bytes in; exactly the bytes of sectors R to EOT out, or none after a hard error; seven result bytes, all given, with the status of every answer of the drive and the sector it stopped at; idle. |
| FdcWrite.EndOfWrite | lib/lib765/765fdc.c:271-293 | The end of a write hands the drive the bytes in the buffer and nothing else. |
| FdcWrite.WriteExchange | lib/lib765/765fdc.c:491-528 | A complete WRITE DATA exchange: nine bytes and the data in; the drive is handed exactly those bytes; seven result bytes, all given, with what the disc said; idle. |
| FdcWrite.WriteRefused | lib/lib765/765fdc.c:509-521 | On a drive that is not ready or read-only the results follow at once and tell which, and no drive is handed anything. |
| FdcWrite.SeekAndSense | lib/lib765/765fdc.c:563-595 | SEEK and SENSE INTERRUPT STATUS: two result bytes, the cylinder and an ST0 whose abnormal-end bit is never set. |
| FdcWrite.SenseDriveExchange | lib/lib765/765fdc.c:403-411 | SENSE DRIVE STATUS: two bytes in, one out, with the unit and head asked for and the upper five bits of the status of the drive; the drives stay as they are. |
| FdcController.Controller.IsReady | lib/lib765/765fdc.c:138-145 | Answers whether the drive is ready and keeps it in ST3. |
| FdcController.Controller.EndWrite | lib/lib765/765fdc.c:271-293 | Hands the buffer to the drive and fills in the results. |
| FdcController.Controller.EndExecution | lib/lib765/765fdc.c:319-348 | Switches to the result phase as the chip model says. |
| FdcController.Controller.ReadCommand | lib/lib765/765fdc.c:418-483 | READ DATA on the registers is READ DATA on the chip model. |
| FdcController.Controller.ReadLoop | lib/lib765/765fdc.c:434-471 | The loop over the sectors computes what the chip model says. |
| FdcController.Controller.WriteCommand | lib/lib765/765fdc.c:491-528 | WRITE DATA up to the transfer, with its refusals. |
| FdcController.Controller.SeekCommand | lib/lib765/765fdc.c:674-701 | SEEK, and RECALIBRATE for cylinder 0. |
| FdcController.Controller.SenseInterrupt | lib/lib765/765fdc.c:563-595 | SENSE INTERRUPT STATUS, with and without a pending seek. |
| FdcController.Controller.ExecuteCommand | lib/lib765/765fdc.c:751-792 | Dispatches the command. |
| FdcController.Controller.PutData | lib/lib765/765fdc.c:810-875 | A byte written to the data register does what the chip model says. |
| FdcController.Controller.GetData | lib/lib765/765fdc.c:879-920 | A byte read from the data register is what the chip model says, and so is what it changes. |
| FdcController.Controller.Clock | lib/lib765/765fdc.c:999-1007 | A tick. |
| FdcController.Controller.constructor | lib/lib765/765fdc.c:62-105 | A reset controller is idle, with all registers and buffers cleared. |
| FdcStatus.ErrorsApart | lib/lib765/765fdc.c:149-173 | Every error of a drive shows in the status bytes as itself, and abnormal end exactly when the command failed. |
| FdcStatus.ErrorShown | lib/lib765/765fdc.c:149-173 | An error noted adds its bits to those of the errors before it. |
| FdcStatus.ReadSectorsTold | lib/lib765/765fdc.c:434-471 | The read loop leaves the status of all the answers together, and R at the sector that failed or behind the last. |
| FdcHost.ReadSectorsOfDisc | lib/lib765/765fdc.c:810-920 | A host that writes the nine bytes, reads data while asked to and then seven results, with any ticks between, gets exactly what READ DATA promises. |
| FdcHost.WriteSectorOfDisc | lib/lib765/765fdc.c:810-920 | A host that writes the nine bytes and, if asked to, the data, and reads seven results, has handed the drive exactly its data or learns why not. |
| Dsk.ScanFirst | lib/libdsk/drvcpcem.c:502-516 | The scan finds the first record with the ID, and misses none. |
| Dsk.HintAgrees | lib/libdsk/drvcpcem.c:494-516 | On an image that is not EXTENDED, offset and record are those of the linear scan, whatever the current-sector hint is. |
| Dsk.ExtendedHint | lib/libdsk/drvcpcem.c:462-493 | On an EXTENDED image too; but the length in the file is that of the scan exactly when the hint is not taken or the record before has the same length. |
| Dsk.ExtendedHintDiffers | lib/libdsk/drvcpcem.c:469-479 | A track of two sectors on which the hint halves the length of a weak sector. |
| DskRoundTrip.SeekFinds | lib/libdsk/drvcpcem.c:550-599 | On a track with unique IDs and uniform sizes, seeking lands on the record of the scan for every hint and every random number. |
| DskRoundTrip.WriteEffect | lib/libdsk/drvcpcem.c:725-788 | Writing a sector that is there succeeds and changes its data and the two status bytes of its record, and no other byte of the file. |
| DskRoundTrip.WriteThenRead | lib/libdsk/drvcpcem.c:613-788 | Reading a sector just written gives the bytes back, for every hint at either time; the only error is a data error, exactly for a wrong length or a record marked bad. |
| DskRoundTrip.WriteKeepsOthers | lib/libdsk/drvcpcem.c:725-788 | A write changes the data of no other sector on any good track. |
| DskDriver.Driver.FindTrack | lib/libdsk/drvcpcem.c:228-273 | Computes the offset of a track on an image that is not EXTENDED. |
| DskDriver.Driver.LoadTrack | lib/libdsk/drvcpcem.c:300-380 | Loads and checks a track header. |
| DskDriver.Driver.CountMatches | lib/libdsk/drvcpcem.c:455-458 | Counts the records with the ID. |
| DskDriver.Driver.FindSector | lib/libdsk/drvcpcem.c:434-517 | Offset and record by the hinted path, then by the scan, on an image that is not EXTENDED. |
| DskDriver.Driver.FirstRecord | lib/libdsk/drvcpcem.c:520-531 | Finds the first record with the ID. |
| DskDriver.Driver.SeekSector | lib/libdsk/drvcpcem.c:550-599 | Finds the sector, its lengths and the place of its data. |
| DskDriver.Driver.MarkRecord | lib/libdsk/drvcpcem.c:765-773 | Sets the status bytes of the record and tells whether they changed. |
| DskDriver.Driver.Write | lib/libdsk/drvcpcem.c:725-788 | Writes a sector as the image model says. |
| DskDriver.Driver.Read | lib/libdsk/drvcpcem.c:613-711 | Reads a sector as the image model says, with the skips over sectors of the other kind. |
| Qm.WordReads | lib/libdsk/drvqm.c:99-126 | A signed length written as a word reads back. |
| Qm.CrcConcat | lib/libdsk/drvqm.c:140-148 | The checksum of a concatenation goes on from that of the first part. |
| Qm.DumpLoads | lib/libdsk/drvqm.c:291-443 | Loading what was dumped for a block restores the block and goes on behind it with the saver's checksum. |
| Qm.ImageRoundTrip | lib/libdsk/drvqm.c:291-443 | For every image of tracks of 1 to 32767 bytes, loading restores it byte for byte and computes the saver's checksum. |
| Qm.FeedCrc | lib/libdsk/drvqm.c:401-402 | The loop computes the checksum. |
| Qm.MeasureRun | lib/libdsk/drvqm.c:417-422 | The loop finds the true length of a run. |
| Qm.DumpCompressed | lib/libdsk/drvqm.c:394-443 | The loop writes the blocks and updates the checksum. |
| Qm.LoadImage | lib/libdsk/drvqm.c:291-358 | The loop restores the image, or reports the error. |
| Qm.LoadFile | lib/libdsk/drvqm.c:291-379 | A loaded image is refused exactly if the header has a checksum and it is another. |
| Qm.DumpImage | lib/libdsk/drvqm.c:679-699 | The loops over cylinders and heads dump every track once, in order. |
| Qm.SaveAndLoad | lib/libdsk/drvqm.c:582-728 | Saving an image and loading it gives it back, and the checksum saved with it is accepted. |
| Cfi.EncodeFits | lib/libdsk/drvcfi.c:215-279 | The blocks take at most two bytes more than the track. |
| Cfi.EncodeTight | lib/libdsk/drvcfi.c:215-279 | A track of one byte takes those two bytes. |
| Cfi.PassesAgree | lib/libdsk/drvcfi.c:103-155 | The second pass writes exactly as many bytes as the first counted, and refuses exactly what the first refuses. |
| Cfi.EncodeDecodes | lib/libdsk/drvcfi.c:103-279 | Decoding the blocks of a track gives the track. |
| Cfi.TrackRoundTrip | lib/libdsk/drvcfi.c:157-287 | A track of 1 to 32767 bytes is loaded from what was saved for it, and loading goes on behind it. |
| Cfi.NumberSame | lib/libdsk/drvcfi.c:197-212 | Counts the run, up to 0x7FFF. |
| Cfi.Track.Save | lib/libdsk/drvcfi.c:215-287 | Writes the coded track, every write within a buffer of length plus four. |
| Cfi.WriteRun | lib/libdsk/drvcfi.c:237-259 | Writes the pending bytes and the run, within the buffer. |
| Cfi.Track.Size | lib/libdsk/drvcfi.c:103-155 | First pass: the length; second pass: the data, within a buffer of that length. |
| Cfi.Track.Load | lib/libdsk/drvcfi.c:157-195 | Loads the next track of a file, or tells why not. |
| Settings.NameLine | src/xcpc-settings.cc:396-406 | A printed table line makes its table current. |
| Settings.EntryTrims | src/xcpc-settings.cc:70-79 | Trimming a printed entry line leaves key, sign and value, an empty value included. |
| Settings.EntryLine | src/xcpc-settings.cc:407-422 | A printed entry line sets its entry in the current table. |
| Settings.TablesParse | src/xcpc-settings.cc:379-454 | Parsing everything printed, table after table, adds each table with its valued entries. |
| Settings.SettingsRoundTrip | src/xcpc-settings.cc:379-454 | Loading what was saved into a fresh file restores every table and every entry with a value, in whatever order they are printed. |
| Settings.SettingsFile.UseTable | src/xcpc-settings.cc:456-464 | Makes a table when it is first asked for, and keeps it otherwise. |
| Settings.SettingsFile.SetString | src/xcpc-settings.cc:294-331 | Sets an entry, made if need be, and no other. |
| Settings.SettingsFile.LoadLine | src/xcpc-settings.cc:388-425 | One line of the file. |
| Settings.SettingsFile.Load | src/xcpc-settings.cc:379-432 | Reads the text line by line, at most 1023 characters a line. |
| Settings.SettingsFile.Save | src/xcpc-settings.cc:434-454 | Prints every table once and each of its entries once. |
| Settings.SaveAndLoad | src/xcpc-settings.cc:379-454 | Saving and loading into a fresh file restores tables and valued entries. |

## Left out

- TlzhDecoder.Uncompress: the 12-byte header and its CRC, and failing output. The encoder half of the C
  file is not compiled there and not modelled. The one C structure is split into a tree, a bit reader and
  a decoder. The 16-bit word is a sequence of bits.
- Squeeze.RoundTripFile: opening, creating and naming files on the host, and failing output. The
  bytes of `huf_bits` are a buffer of bits, and or-ing in a bit that is clear is addition. Inputs are
  shorter than half the largest 64-bit unsigned long. The final seek of `compress` has no effect on the
  bytes.
- CP/M directory: `rcpmfs_83name` and `stat` (a host file is given with its 8.3 name, size and stamps),
  the reduced size of the last sector (`extent_bytes`), the boot file, writing through to host files,
  renaming and `rcpmfs_chgdir`. Block counts of a file are not cut to 32 bits. The chain of buffers is a
  sequence, searched and extended as the list is.
- Floppy controller: READ TRACK, READ ID, FORMAT and SCAN, terminal count, motor changes, writes to the
  output register, the interrupt routine, and transfers of no bytes. The host keeps to the protocol.
- FdcExchange.ReadExchange: for transfers of 1 to 16384 bytes with R not above EOT, since a longer one
  overruns the buffer and an empty one never ends.
- DskDriver.Driver.FindTrack: the track table of EXTENDED images.
- DskDriver.Driver.FindSector: the branch for EXTENDED images, of which `Dsk.ExtendedOffset` is the function.
- DSK sectors: reading and writing EXTENDED images, formatting, READ ID and reading whole tracks. A header
  is taken to have at most the 29 records it has room for. The random choice among copies is a parameter.
- DskRoundTrip.WriteThenRead: for tracks with unique IDs and sectors of the size the track header gives,
  which fit the track; the sector must be on the track with the ID expected.
- CopyQM: the header but for the checksum of the data, the comment and the geometry. Blocks beyond the
  image are reported where the program writes past its buffer. CFI: the table of tracks and gaps between tracks.
- Cfi.TrackRoundTrip: tracks longer than 32767 bytes, which the 15-bit block length cannot hold.
- Settings: numbers and booleans, the locale, the directory and the log. Tables and entries are values
  in a map, so references to them that a caller keeps are not modelled.

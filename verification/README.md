# Verified model of the tdc compression library

This project models the parts of tdc whose correctness does not show from reading one function, and proves
what they are for. It is written in Dafny 4.11; `dafny verify dfyconfig.toml` checks all of it.

* **Containers** (`ContainerFormat`, `ContainerGrowth`, `ContainerEntries`, `ContainerIo`, `ContainerEncoder`,
  `ContainerHeader`, `ContainerTable`, `ContainerPasses`). A container file is 64 header bytes, blocks, a
  schema and a trailing row-group index. It can be grown in place, by columns or by row groups, writing over
  its own superseded index. The disk is a byte string; every write records all files a crash could leave, torn
  at any byte except for the one-step header write; the stream decoder's open function, on any file contents,
  says what an image means. The main theorem is about whole passes and sequences of them: every image of a
  widen or extend pass is a container that reads as the old one or, after the last header write, as the calls
  applied to it, and however often passes are cut off and resumed, each came through whole or not at all.
  Faults of the disk are counted, so that what fails without one has a reason the caller can check.
* **Huffman** (`BitString`, `BitIO`, `HuffmanHeap`, `HuffmanTree`, `HuffmanOptimal`, `HuffmanLengths`,
  `HuffmanBound`, `HuffmanCode`, `HuffmanTables`, `HuffmanStream`, `HuffmanDecode`, `Huffman`, `Huffman4`,
  `HuffmanSound`). From heap and tree, shown optimal among all lengths that fit the code space, over length
  limiting and canonical codes to the bit writer, the 64-bit register reader, the window tables and the
  interleaved four-stream decoder. The reference decoder is a canonical bit walk over the stream's bits.
* **rANS** (`FseTable`, `Fse`, `FseSound`, `FseLimit`). Normalisation, slot tables, and a decoder that runs
  the encoder backwards, both ways round.
* **LZ77** (`LzFormat`, `LzCopy`, `LzMatch`, `LzRun`, `LzParse`, `LzDecode`, `LzTrouble`, `Lz`, `LzSound`,
  `LzWrap`). Packed sequences, overlapping copies by wide blocks and by doubling, the hash-chain finder as a
  set of positions entered, both parsers as runs of longest matches, and a decoder whose fast path hands over
  to a safe one. The reference is a byte-by-byte decoding defined on any input; a scan of the headers says
  exactly on which inputs the 32-bit sums of the two paths let them leave it.
* **Push/pull streams** (`PushPullRecord`, `PushPullEncode`, `PushPullDecode`, `PushPull`). The encoder's
  meaning is given one byte at a time and the decoder's as the one reading of a byte string; the two are then
  run against each other in any interleaving.
* **Side metadata** (`SidePack`, `EntropyChain`, `EntropyCoders`). The two dictionary forms and the chain of
  entropy coders, in general and for the coders modelled here.

`Base` holds bytes, integers and sequence facts. Code that updates state is a class or a method with loops,
proved equal to a function on values; what the library promises is then proved about those functions, for all
inputs. Machine integers are unbounded unless a wrap-around is reachable, in which case the 16-, 32- or 64-bit
value is written out.

Where code and comments disagree, the code is followed:

* `huffman_decode` rounds the payload bit count up in 32 bits (src/entropy/huffman.c:463). From 2^32 - 7 bits
  on it reads no payload; `Huffman.RoundTrip` says exactly which inputs still come back, and
  `Huffman.NearLimitFails` names one that does not.
* The encoder's buffer comment (src/entropy/huffman.c:298-300) counts 15 bits a symbol, more than the 1.5
  bytes reserved; `Huffman.StaysInBuffer` shows that 12 bits are the most.
* `fse_encode` stores the payload size in 32 bits; `Fse.RoundTrip` is exact in the same way, and
  `FseLimit.NearFlatRefused` names an input.
* A row group of 65536 blocks or more keeps only as many as its 16-bit column count says, and if that is 0 the
  file cannot be read; `ContainerPasses.BuildPass` and `ContainerTable.EveryBlockKept` are exact about it, and
  `ContainerTable.BlocksLost` names an input.
* The LZ decoder's bound checks and its doubling copy add in 32 bits (src/entropy/lz.c:854, :859, :976).
  `LzDecode.Decode` says exactly on which inputs it still returns what the reference returns;
  `LzTrouble.WrappedSumOverruns`, `LzTrouble.WrappedOffsetNeverEnds` and `Lz.LongRunOverruns` name others, and
  `LzTrouble.WrappedYetReturns` one on which a sum wraps and it still does.
* The LZ serializer's totals are 32-bit too (src/entropy/lz.c:207-223); `Lz.Encode` says exactly when that
  shows, and for which sizes it cannot; `LzWrap.FarParseWraps` names a tiling for which it does.
* The lazy LZ parser inserts the position of a match it settles on twice (src/entropy/lz.c:628, :653), so that
  position links to itself and the older ones of its chain are out of reach; `LzMatch.TwiceCutsOff` shows it,
  and the runs of `LzRun` keep account of it.
* The LZ parser tests only the longest match for its gain; `LzRun.MissedNothing` says exactly what that can
  pass up, `LzRun.GainPassedUp` names a state in which it does.
* The size of the last of four Huffman streams is not stored, and bits past its end read as zeros:
  `HuffmanSound.TruncatedExactly` says exactly which cut blocks are refused. The rANS decoder does not ask in
  which state its encoder began (`FseSound.Accepted`).
* The header validator (src/format/header.c:77) takes a relocated schema to stand past the blocks; containers
  that were only extended keep theirs before them, and `ContainerHeader.ExtendedRefused` shows that it refuses
  them all.
* A capped `find_best` extends fully only past its best length, so optimality is claimed uncapped.
* A push/pull block that does not encode stays in the encoder and blocks further pushes; the model keeps that
  state, and chunking is shown not to matter even then.

## Model

| member | source | states |
|---|---|---|
| ContainerPasses.GrowPass | src/api/stream_encode.c:527-1007 | A whole widen or extend pass over any file that reopening refuses or finds with its index at or past its live data; closed, aborted or cut off, whatever I/O fails and whatever the relocation hook does. The file left and every file a crash could have left (writes torn anywhere) is a container that reads exactly as before, or as the calls applied to the old row groups with every block kept; after abort only as before; after a successful close only as the calls applied, its index right after the live data unless blocks of a row group never ended lie between, and the header written k+1 times only if more than 2^(k-1) old index sizes were added. A pass that can be opened, whose calls the encoder takes and whose writes stay within what the disk accepts is closed unless some read, write, seek or hook call failed; and only such a pass is closed |
| ContainerPasses.BuildPass | src/api/stream_encode.c:287-609 | Building a container from nothing: the closed file reads as the caller meant if and only if every row group had fewer than 65536 blocks; it is unreadable exactly when some row group lost all its blocks to the 16-bit column count; otherwise it reads as the calls with that count; with every group ended and small enough, the index of a heterogeneous container stands right after its live data. Acceptable calls whose output fits the disk give a closed file unless some I/O failed |
| ContainerTable.EveryBlockKept | src/api/stream_encode.c:441-500 | Calls with 16-bit column counts give the row groups the caller meant if and only if every one had fewer than 65536 blocks |
| ContainerTable.BlocksLost | src/api/stream_encode.c:441-475 | A concrete input: a row group of 65537 blocks reads back as one block, while the header counts 65537 |
| ContainerTable.CountedIsMeant | src/api/stream_encode.c:364-500 | While each row group ends small enough to be counted, the calls do what was meant |
| ContainerTable.AddedStats | src/api/stream_encode.c:936-957 | A column added to a row group leaves the statistics a reader sees for the columns before it as they were, and has its own |
| ContainerPasses.RunPass | src/api/stream_encode.c:655-794 | Any pass and a restart from any crash image of it: what grew a container with a row group left a container, with the old contents or with all of the pass added, the latter never for a pass that ends in abort |
| ContainerPasses.RunPasses | src/api/stream_encode.c:763-788 | Any sequence of passes, cut off anywhere and resumed from any crash image: growing passes leave a proper container that holds the original with the calls of some of the passes added in order, each as a whole or not at all, an aborted one never; with files created in between, each reopening finds the index at or past all live bytes or refuses the file |
| ContainerPasses.RunCalls | src/api/stream_encode.c:364-500 | Calls go through exactly when the encoder takes them all, unless I/O fails or the disk ends; they change the described row groups as the call-by-call table says, column counts included. A failed call leaves a state from which only the old container can be read; a record after the statistics of its row group is refused |
| ContainerPasses.Call | src/api/stream_encode.c:364-525 | One call: taken exactly under the rules of its kind, written in full, or blamed on a fault or on the end of the disk |
| ContainerPasses.Commit | src/api/stream_encode.c:527-609 | Close of a grown container: old container or new one in every crash image, new one when it reports success, its index right after the live data when all row groups were ended; k index moves only for more than 2^(k-1) old index sizes written |
| ContainerPasses.GiveUp | src/api/stream_encode.c:971-1007 | Giving up at any point, even after failed calls: the file and every crash image read as before the pass |
| ContainerEncoder.Encoder.MakeRoom | src/api/stream_encode.c:181-210 | On success the next write of the needed size ends before the index the header names; the index moves at most once, and the free space before it doubles. It fails only when an I/O or hook call of its own failed or the copy would lie past what the disk accepts; crash images stay recoverable in every outcome |
| ContainerEncoder.Encoder.NextCopyFar | src/api/stream_encode.c:181-203 | The place of the next copy is past the write, past the named index, past the original index, and leaves at least 2^(k+1) index sizes of free space |
| ContainerEncoder.Encoder.MovesAreLogarithmic | include/tdc/stream.h:273-279 | At any point of a pass in which the header has been written k >= 2 times, more than 2^(k-1) index sizes of blocks have been written since the live data, so k is logarithmic in them; and the copy now named leaves at least 2^k index sizes of free space |
| ContainerEncoder.Encoder.AppendRecord | src/api/stream_encode.c:364-396 | The record is added to the open row group and its entry; everything else described stays; it fails only on failed I/O or at the end of the disk; crash safety holds in every outcome |
| ContainerEncoder.Encoder.EndRowgroup | src/api/stream_encode.c:441-500 | When it is accepted, and the row group it closes, with the block count cut to 16 bits and the offset of its first block |
| ContainerEncoder.Encoder.SetStats | src/api/stream_encode.c:502-525 | Accepted exactly for a non-empty open group without statistics and the right column count; nothing changes otherwise |
| ContainerEncoder.Encoder.WidenBlock | src/api/stream_encode.c:905-969 | The record becomes the last column of the chosen row group; a bad group number or a full column count changes nothing; any other call fails only on failed I/O or at the end of the disk |
| ContainerEncoder.Encoder.WriteTail | src/api/stream_encode.c:535-578 | The replacement schema and the rebuilt index stand complete in free space while everything still reads as the original; fails only on failed I/O or at the end of the disk |
| ContainerEncoder.Encoder.CloseGrown | src/api/stream_encode.c:527-609 | The header patch is the only write that shows: before it the original is read, after it the complete rebuilt container; without failed I/O, and with room on the disk, it always gets there |
| ContainerEncoder.Encoder.PatchOutcome | src/api/stream_encode.c:580-594 | The final header over a complete tail shows the old container or the finished one, never anything else |
| ContainerEncoder.Encoder.CloseNew | src/api/stream_encode.c:527-609 | A new container reads back as the records written exactly when every row group kept a column; until the header names the index the file is refused or sound; it fails only on failed I/O or at the end of the disk |
| ContainerEncoder.Encoder.Abort | src/api/stream_encode.c:971-1007 | After any calls: without a move nothing is written; with one, header, live data and index are back at their own places; every crash image in between reads as the original; it fails only when I/O of its own fails, also after a pass that failed |
| ContainerEncoder.Reopen | src/api/stream_encode.c:715-794 | Of files whose index, if reopening accepts it, lies at or past their live data, accepts only those that hold a proper container, with the cursor left at the end of the live data; each refusal is the one the checks give; an I/O error is reported only for a failed call or an index past what the disk accepts |
| ContainerEncoder.OpenWiden | src/api/stream_encode.c:796-836 | On such a file, and with a replacement schema a reader can read: opens a fresh widening pass, or gives the exact reason not to; nothing is written |
| ContainerEncoder.OpenExtend | src/api/stream_encode.c:862-903 | On such a file: opens a fresh extending pass whose row groups must have as many columns as the schema declares, or gives the exact reason not to |
| ContainerEncoder.OpenCreate | src/api/stream_encode.c:287-362 | Starts a container whose header names no index yet; a failed start leaves a file every reader refuses or finds empty |
| ContainerEncoder.ReadSchemaColumns | src/api/stream_encode.c:838-860 | The column count read for extending is the one of the schema section the decoder reads |
| ContainerEncoder.EndOfLive | src/api/stream_encode.c:763-786 | The walk over all index entries finds the end of the live data |
| ContainerGrowth.IntactReads | src/api/stream_decode.c:300-453 | Every file a pass can leave before its last header write reads, through the decoder, as the original container with all block bytes |
| ContainerGrowth.TornIntact | src/api/stream_encode.c:181-203 | A write in the free space, torn at any byte, leaves the container intact |
| ContainerGrowth.SwitchIntact | src/api/stream_encode.c:196-204 | Naming a complete copy of the index keeps the container intact |
| ContainerGrowth.FinishedReads | src/api/stream_decode.c:300-453 | A file with a complete index behind its header reads as the groups and blocks it holds |
| ContainerGrowth.PatchedReads | src/api/stream_encode.c:580-594 | With the header patched over schema, blocks and index the file reads as the finished container, its index at the end of live data |
| ContainerGrowth.ContainerReopens | src/api/stream_encode.c:715-794 | A proper container passes every check of a reopening |
| ContainerGrowth.OutcomeSound | src/api/stream_encode.c:527-609 | Whatever a close can leave is a container with the index at or past its live data, or reopening refuses it |
| ContainerEntries.AppendDescribes | src/api/stream_encode.c:364-396 | Entries extended by one written record still describe the file |
| ContainerEntries.EndDescribes | src/api/stream_encode.c:441-500 | Closing a row group keeps the description, with the count kept in 16 bits |
| ContainerEntries.WidenDescribes | src/api/stream_encode.c:905-969 | A column added to any row group keeps the description of all the others |
| ContainerEntries.WiderStats | src/api/stream_encode.c:936-957 | A column added to a row group leaves the statistics entry of every column before it as it was, absent ones reading as absent, and has its own entry |
| ContainerEntries.FinalReads | src/api/stream_encode.c:580-594 | The final header over schema, blocks and rebuilt index reads as every record, old and new |
| ContainerEntries.FinalRefused | src/format/rowgroup.c:106-220 | A row group whose column count wrapped to zero makes the whole file unreadable |
| ContainerFormat.HeaderRoundTrip | include/tdc/format.h:109-155 | Every header whose fields fit is read back from its 64 bytes |
| ContainerFormat.HeaderRewrite | src/api/stream_encode.c:971-1007 | A header read and written again gives the same 64 bytes |
| ContainerFormat.IndexReadsBack | src/format/rowgroup.c:37-220 | A serialized row-group index parses back to itself exactly when each of its groups has a column |
| ContainerFormat.IndexRoundTrip | src/format/rowgroup.c:55-220 | Any index of fitting groups, with or without statistics, parses back whatever follows it |
| ContainerFormat.EmptyGroupRefused | src/format/rowgroup.c:106-220 | An index holding a group without columns is refused wherever the group stands |
| ContainerFormat.ParsedIndexFits | src/format/rowgroup.c:106-220 | Every parsed index fits the index format again |
| ContainerFormat.IndexRewritten | src/format/rowgroup.c:37-220 | An index parsed and serialized again gives back the bytes it was read from, up to where the last group ends |
| ContainerFormat.WidenedSet | src/format/header.c:148-153 | Setting the grown-in-place flag changes that bit and no other of the sixteen |
| ContainerFormat.SchemaCounts | src/format/schema.c:54-176 | A written schema gives its column count back, readers accept it whatever follows, and the strict parser refuses it with bytes after it |
| ContainerFormat.CountedSchema | src/format/schema.c:80-176 | Conversely, a section that counts as n columns is the schema of n named, typed columns |
| ContainerHeader.ShapeKept | src/api/stream_encode.c:234-242 | A homogeneous header holds element type, layout, rank, and the dimensions the rank counts, in order, zeros after them |
| ContainerHeader.NewHeaderValid | src/format/header.c:47-128 | Which headers of the encoder the header validator accepts: an index exactly when there are blocks, a valid shape, and a relocated schema past the start of the blocks |
| ContainerHeader.ExtendedRefused | src/format/header.c:69-79 | Every header that only moves the index of a container never widened, or adds row groups to one, is refused by the validator, though the decoder opens the file |
| ContainerIo.Io.Write | src/api/stream_encode.c:143-147 | Every file a crash during the write could leave is recorded; a whole write puts the bytes at the cursor; a write that fails within the limit of the disk counts as a fault |
| HuffmanHeap.Heap.Push | src/entropy/huffman.c:91-101 | The heap order is kept and exactly the item is added |
| HuffmanHeap.Heap.Pop | src/entropy/huffman.c:103-122 | A least item is taken out, the order and all other items are kept |
| HuffmanTree.MergeAll | src/entropy/huffman.c:160-170 | Merging the two lightest roots until one is left gives one tree over the leaves |
| HuffmanTree.KraftExact | src/entropy/huffman.c:160-184 | The leaves of such a tree fill the code space exactly: Kraft sum 1 |
| HuffmanTree.LeafWeight | src/entropy/huffman.c:201-212 | A leaf at depth d forces a total weight of at least the (d+2)nd Fibonacci number |
| HuffmanOptimal.TreeOptimal | src/entropy/huffman.c:124-186 | No lengths whose Kraft sum is at most 1 have a smaller weighted sum than the depths of the merged tree |
| HuffmanOptimal.DepthsCheapest | src/entropy/huffman.c:160-170 | The same from any stage of the merging on, for lengths given to the roots of that stage |
| HuffmanOptimal.Paired | src/entropy/huffman.c:160-170 | Any lengths that fit can be rearranged, at no cost, so that the two nodes joined next are equally deep |
| HuffmanLengths.ComputeLengths | src/entropy/huffman.c:132-186 | The lengths are optimal: no code for the used symbols spends fewer bits. For two or more used symbols they are the tree depths with Kraft sum exactly 1; one used symbol gets one bit |
| HuffmanLengths.HalvedBound | src/entropy/huffman.c:209-211 | After k halvings a 32-bit count is below 2^(32-k) or at most one, and no used symbol vanishes |
| HuffmanLengths.OnesAreShallow | src/entropy/huffman.c:201-212 | With every count at most one no code of 256 symbols is longer than 11 bits |
| HuffmanLengths.ComputeLengthsLimited | src/entropy/huffman.c:195-215 | The halving loop always stops inside its 64 rounds with every length at most 15, and never gives up; the lengths are optimal for the counts after at most 31 halvings, each of them made because a tree was deeper than 15; for the counts themselves unless a tree for them is |
| HuffmanLengths.AcceptedCompete | src/entropy/huffman.c:474-523 | Optimal lengths spend no more bits than any table the decoder accepts that has a code for every used symbol |
| HuffmanLengths.LimitedAreCodes | src/entropy/huffman.c:481-494 | Limited lengths always pass the decoder's Kraft check |
| HuffmanCode.CodeFits | src/entropy/huffman.c:230-251 | Canonical codes fit their lengths |
| HuffmanCode.PrefixFree | src/entropy/huffman.c:230-251 | No canonical code is a prefix of another, for every table passing the Kraft check |
| HuffmanCode.WalkFinds | src/entropy/huffman.c:614-631 | The bit walk stops at the length whose range holds the bits, testing only the upper bound |
| HuffmanCode.WalkExact | src/entropy/huffman.c:614-631 | The walk reads s exactly when the bits start with the code of s |
| HuffmanTables.BuildCanonical | src/entropy/huffman.c:230-251 | Codes assigned by running counters are the canonical codes of section 3.2.2 of RFC 1951; no 16-bit wrap |
| HuffmanTables.KraftSum | src/entropy/huffman.c:488-494 | The decoder's sum is the code space used by the lengths |
| HuffmanTables.BuildTables | src/entropy/huffman.c:496-517 | First codes, offsets and sorted symbols of the decoder are those of the lengths |
| HuffmanTables.BuildFast | src/entropy/huffman.c:525-548 | Every 11-bit window of the one-symbol table holds what the bit walk finds there, or sends the decoder to the walk |
| HuffmanTables.BuildPairs | src/entropy/huffman.c:550-578 | Every window of the two-symbol table holds one walk, or two in a row, with the right bit counts |
| BitString.StreamOfPack | src/entropy/huffman_internal.h:59-87 | Packed bits are the bits again, followed by zero padding |
| BitString.PackWholeBytes | src/entropy/huffman_internal.h:59-87 | Whole bytes pack to themselves |
| BitIO.BitWriter.Write | src/entropy/huffman_internal.h:59-74 | The written bits grow by exactly the code, most significant bit first |
| BitIO.BitWriter.Flush | src/entropy/huffman_internal.h:75-87 | The bytes out are the MSB-first concatenation of everything written, zero padded |
| BitIO.RefillShows | src/entropy/huffman_internal.h:111-142 | ORing stream bits over a register whose lower bits are already right is harmless |
| BitIO.BitReader.RefillFast | src/entropy/huffman_internal.h:121-131 | An 8-byte refill keeps the next unread bit where it was and leaves at least 57 right bits |
| BitIO.BitReader.RefillSafe | src/entropy/huffman_internal.h:132-138 | A byte-wise refill keeps the position and leaves 57 bits or the whole rest of the stream |
| BitIO.BitReader.Consume | src/entropy/huffman_internal.h:111-142 | Dropping bits moves the position by as many and keeps every lower bit right |
| HuffmanStream.StreamReads | src/entropy/huffman.c:441-663 | A concatenation of codes reads back as the symbols it was made from, wherever it stands |
| HuffmanSound.StreamExact | src/entropy/huffman.c:614-631 | What n walks read off any bits, zeros after them, is s if and only if the bits begin with the codes of s |
| HuffmanStream.FastHit | src/entropy/huffman.c:634-645 | A non-empty one-symbol entry is the walk's hit at that bit of the stream |
| HuffmanStream.PairHit | src/entropy/huffman.c:594-613 | A non-empty two-symbol entry is one walk's hit or two walks' hits in a row |
| HuffmanDecode.SlowWalk | src/entropy/huffman.c:614-631 | The bit-by-bit loop computes the walk, failing when no code fits in 15 bits |
| HuffmanDecode.PairStep | src/entropy/huffman.c:594-613 | One table step stores one or two symbols and stays on the reference run |
| Huffman.CountFreq | src/entropy/huffman.c:263-295 | The four-table histogram is the byte histogram |
| Huffman.RoundTrip | src/entropy/huffman.c:303-663 | Decoding undoes encoding if and only if the payload is below 2^32 - 7 bits or all bytes are equal: the decoder rounds the bit count up in 32 bits |
| HuffmanSound.Accepted | src/entropy/huffman.c:441-663 | The decoder accepts a block and returns s exactly when its sizes hold, its lengths pass and its payload begins with the codes of s |
| HuffmanSound.TruncatedRefused | src/entropy/huffman.c:441-472 | A block of the encoder cut short anywhere is refused |
| HuffmanSound.OneSize | src/entropy/huffman.c:441-472 | A block decodes at one size only, with one stream or four |
| Huffman.NearLimitFails | src/entropy/huffman.c:463-464 | A concrete input of 2^32 - 1 bytes that is encoded but does not come back |
| HuffmanBound.TwelveBits | src/entropy/huffman.c:195-215 | Whatever halving the counts loses, the lengths spend at most 12 bits for each unit of the original counts |
| HuffmanBound.StreamSpends | src/entropy/huffman.c:351-368 | The code stream has exactly the bits the lengths spend on the histogram |
| Huffman.StaysInBuffer | src/entropy/huffman.c:297-315 | Header and payload stay inside the buffer of 282 bytes and 1.5 bytes a symbol reserved up front, also for an input then refused |
| Huffman4.StaysInBuffer | src/entropy/huffman4.c:40-60 | So do the four streams, padding included |
| Huffman.ModestReturns | src/entropy/huffman.c:303-376 | Up to 341 MiB every input is encoded and comes back |
| Huffman.CodeStreamBound | src/entropy/huffman.c:230-251 | Every symbol takes between one and fifteen bits |
| Huffman.EmptyRoundTrip | src/entropy/huffman.c:303-376 | The empty input round-trips |
| Huffman.Encode | src/entropy/huffman.c:303-376 | The block written is header, lengths up to the last used symbol, and the packed code stream; refused exactly when a size does not fit 32 bits; never longer than the buffer reserved |
| Huffman.Decode | src/entropy/huffman.c:441-663 | On every input, valid or not, the two-symbol, one-symbol and bit-walk paths and the tail together return what the reference decoding returns |
| Huffman.CheckLengths | src/entropy/huffman.c:474-523 | Stored lengths are accepted exactly when short enough, not over-full and not all zero |
| Huffman4.RoundTrip | src/entropy/huffman4.c:40-498 | Every input below 2^32 bytes comes back from four interleaved streams, or one for small inputs |
| HuffmanSound.TruncatedExactly | src/entropy/huffman4.c:160-285 | A four-stream block of the encoder cut short is refused if and only if it is cut before its last stream; cut inside it, it decodes to an output whose first three parts are right |
| Huffman4.SizesAreCuts | src/entropy/huffman4.c:267-277 | Decoder and encoder cut the input in the same places |
| Huffman4.Encode | src/entropy/huffman4.c:40-135 | The block holds the four streams of the four parts, stays inside the buffer reserved, and nothing else is refused than an input too large for 32 bits |
| Huffman4.OthersKeep | src/entropy/huffman4.c:335-404 | A write inside one stream's area leaves the decoding of the others as it was |
| Huffman4.PairRound | src/entropy/huffman4.c:335-360 | A two-symbol round advances all four streams on their own runs, or none; each loses at most 11 bits |
| Huffman4.FastRound | src/entropy/huffman4.c:387-404 | The same for a one-symbol round |
| Huffman4.HotLoop | src/entropy/huffman4.c:286-413 | Whichever round it breaks in, every stream is on its own run; three rounds use at most 33 of the bits one refill supplies |
| Huffman4.Finish | src/entropy/huffman4.c:415-498 | The rest of one stream is decoded without touching the others |
| Huffman4.FinishAll | src/entropy/huffman4.c:415-498 | The output is the concatenation of the four streams decoded alone, or the decoder fails exactly when one of them does |
| Huffman4.Decode | src/entropy/huffman4.c:160-498 | On every input the interleaved decoder returns what decoding the four streams one after another returns |
| FseTable.PickTableLog | src/entropy/fse.c:108-122 | At least four slots for each active symbol, never fewer for more symbols, and above 64 slots at most sixteen for each |
| FseTable.TableLogMonotone | src/entropy/fse.c:108-122 | More active symbols never get a smaller table |
| FseTable.Normalize | src/entropy/fse.c:136-177 | For every histogram the counts sum exactly to the table size, positive exactly on used symbols |
| FseTable.PullBack | src/entropy/fse.c:164-176 | The pull-back loop ends with the excess removed and no used symbol lost; its give-up branch is never taken |
| FseTable.BuildFatTable | src/entropy/fse.c:213-239 | Slot by slot the symbol that owns the slot; corrupt exactly when the counts do not sum to the table size |
| Fse.StepRoundTrip | src/entropy/fse.c:413-431 | The state stays in [2^16, 2^24); one decode step restores the old state and pulls back exactly the bytes emitted |
| Fse.StreamRoundTrip | src/entropy/fse.c:413-431 | Decoding runs the encoder backwards, ending in its start state with nothing of the payload left over |
| Fse.RoundTrip | src/entropy/fse.c:278-431 | A block decodes to its input when the payload size fits its 32-bit field, and is refused as corrupt when it does not |
| FseSound.Accepted | src/entropy/fse.c:413-431 | On any state and payload: decoded to s in full if and only if an encoder run over s, begun in some state, ends in that state and lays down that payload |
| FseSound.StepBack | src/entropy/fse.c:413-431 | Encoding the symbol just decoded, from the state it left, gives back the state and the bytes pulled |
| FseSound.OneLength | src/entropy/fse.c:364-432 | A block of the encoder with bytes missing at its end, or with more after it, is refused |
| FseLimit.NearFlatRefused | src/entropy/fse.c:340-356 | A concrete input of 2^32 - 1 bytes: every table the encoder can build for it gives a payload past 32 bits, and the block is refused |
| FseLimit.FlatTable | src/entropy/fse.c:108-177 | For that input every byte but one gets 7 of the 2048 slots |
| Fse.PayloadBound | src/entropy/fse.c:243-246 | No symbol emits more than two bytes, so inputs below 2 GiB always fit |
| Fse.EmptyRoundTrip | src/entropy/fse.c:394-399 | The empty input round-trips |
| Fse.EncodeStream | src/entropy/fse.c:248-276 | The loop from the end of the input computes the encoder's run |
| Fse.Encode | src/entropy/fse.c:278-360 | Fails only on inputs too large for 32 bits; the block is made from a table covering every byte, with at least four slots for each distinct byte of the input |
| Fse.Decode | src/entropy/fse.c:364-432 | On every input the table-driven loop returns what the reference decoding returns |
| LzFormat.LebReads | src/entropy/lz_internal.h:58-84 | A LEB128 number as in section 7.6 of DWARF 5 is read back, whatever follows it |
| LzFormat.OffsetReads | src/entropy/lz_internal.h:103-169 | Two-byte offsets and their escape are read back |
| LzFormat.SizeIsExact | src/entropy/lz_internal.h:183-195 | The cost model's size is exactly the number of bytes written |
| LzFormat.SeqReads | src/entropy/lz.c:236-268 | A written sequence is read back, whatever follows it |
| LzCopy.ExtendedUnique | src/core/simd.h:121-160 | Only one byte string satisfies the byte-by-byte overlapping copy |
| LzCopy.WildCopy | src/core/simd.h:75-103 | A blockwise copy from far enough back is the overlapping copy, and ends with the last whole block |
| LzCopy.MatchCopy | src/core/simd.h:106-160 | For every offset and length the copied bytes are the overlapping copy and the last block ends exactly where Reach says, within the slack; a length of 0 still writes one block |
| LzCopy.SafeCopy | src/entropy/lz.c:962-981 | The doubling copy is the overlapping copy, exactly as long as the match, except that offset 0 never ends and a 32-bit sum past 2^31 bytes passes the end; it says which of these, exactly |
| LzDecode.ParseSeq | src/entropy/lz.c:911-942 | A bounded, 32-bit parse of one sequence on any bytes |
| LzDecode.FastDecode | src/entropy/lz.c:792-900 | With every bound sum in 32 bits: stops in exactly the trouble the bytes about to be copied mean, literals first, then the match, or where what is left to decode ends in the same result |
| LzDecode.SafeDecode | src/entropy/lz.c:902-1000 | From any point the clamped path finishes the reference decoding, or ends in exactly the trouble the header scan foresees |
| LzDecode.Decode | src/entropy/lz.c:1002-1043 | On every input: the decoder returns what the reference decoding returns if and only if a scan of the sequence headers meets no 32-bit wrap that lets a copy pass the output or never end; otherwise it does not return properly, in exactly the way the scan names |
| LzSound.DecodedFront | src/entropy/lz.c:902-1000 | What decodes to some size decodes to every smaller one, as the front of the same output |
| LzSound.SizesDecoded | src/entropy/lz.c:203-286 | What the serializer writes for a tiling decodes to every size up to the input's and to no larger one |
| LzSound.TruncatedRefused | src/entropy/lz.c:792-1000 | Cut short anywhere, it is refused at the input's size |
| LzTrouble.WrappedSumOverruns | src/entropy/lz.c:854-857 | A 17-byte input whose bound check wraps to a small number: the copy passes a 100-byte output by far |
| LzTrouble.WrappedOffsetNeverEnds | src/entropy/lz.c:962-981 | An input whose offset wraps to 0: the copy never ends |
| LzTrouble.WrappedBothNeverEnds | src/entropy/lz.c:854-885 | An input that wraps the bound check and the offset: the copy never ends, and never passes the output |
| LzTrouble.WrappedYetReturns | src/entropy/lz.c:854-885 | A wrapped bound check 40 bytes before the end of the largest output is no trouble: the blocks fit, and the decoder returns what it should |
| LzTrouble.OverrunPassesTheEnd | src/entropy/lz.c:854-885 | An overrun foreseen is one, for every output size: literals that are not there, or a block that ends past the output; and a bound sum wrapped, or the match wrapped to no bytes |
| LzTrouble.ModestInput | src/entropy/lz.c:1002-1043 | A check before the call, header by header, that suffices: offsets and lengths at least 1 and short of the wrap, output up to 2 GiB |
| LzMatch.Extend | src/entropy/mf_hashchain.c:64-90 | The 8-byte compare finds the byte-wise common prefix |
| LzMatch.HashChain.Insert | src/entropy/mf_hashchain.c:147-152 | Heads hold the last position entered under their hash, links the last one before a position under its hash, or the position itself once it was entered twice |
| LzMatch.TwiceCutsOff | src/entropy/mf_hashchain.c:147-152 | A walk from a position entered twice sees nothing but that position: what was entered before it is out of reach |
| LzMatch.NewestIsOffered | src/entropy/mf_hashchain.c:156-221 | The last earlier position with the hash of the one looked up is the first tried, if the window reaches it |
| LzMatch.HashChain.FindBest | src/entropy/mf_hashchain.c:156-221 | A real match or none; uncapped, it is the longest at any offset the walk tries, the nearest of them on a tie |
| LzMatch.LongestUnique | src/entropy/mf_hashchain.c:156-221 | The offsets tried and their order determine the longest match |
| LzMatch.HashChain.TryCandidate | src/entropy/mf_hashchain.c:184-205 | The one-byte reject never discards a longer match or reads out of bounds |
| LzMatch.RepProbe | src/entropy/lz.c:321-381 | The longest match at a remembered offset, the first of them on a tie |
| LzParse.ParseFast | src/entropy/lz.c:400-506 | The sequences are those of the flat-hash run over the input: one candidate a position, the last one entered under the hash, a match taken whenever there is one |
| LzParse.BestAt | src/entropy/lz.c:598-608 | The longest match at any remembered offset or chain candidate; on a tie the remembered offset, then the nearer candidate |
| LzParse.Lazy | src/entropy/lz.c:610-651 | Each position moved on to has a strictly longer match than the one before; it stops at the depth, or where the next has none |
| LzMatch.SameBucketSameFourth | src/entropy/lz.c:118-125 | Positions with the same 18-bit hash and the same three bytes have the same fourth, as the multiplier is odd |
| LzParse.ParseGreedy | src/entropy/lz.c:535-703 | The sequences are those of the run over the input: the longest match at each position looked at, the lazy moves, and every match that gains enough taken |
| LzRun.MissedNothing | src/entropy/lz.c:598-695 | Where no match is taken, no offset tried gives a match that gains enough, but for one with a shorter offset than the longest match found, which alone is tested |
| LzRun.GainPassedUp | src/entropy/lz.c:655-658 | A concrete state: a match of four bytes that gains one is given up, because the longest match has an offset that takes four bytes |
| LzRun.Remembers | src/entropy/lz.c:598-695 | Every position a run has looked at is among those its later searches can find |
| LzRun.EveryFourth | src/entropy/lz.c:685-690 | Of the positions inside a match every fourth is entered, from the second on, and no other |
| LzRun.ParsedOnce | src/entropy/lz.c:535-703 | Input, depths and minimum gain determine the parse |
| LzRun.ParsedTiles | src/entropy/lz.c:400-703 | Every parse cuts the input into literals and true matches inside the window, each worth its cost, or of four bytes and more |
| LzRun.EqualBytes | src/entropy/lz.c:400-703 | Equal bytes, five or more, parse into one literal and one match of the rest at offset 1, with either parser |
| Lz.TilesDecode | src/entropy/lz.c:792-1000 | Decoding resumed before any sequence of a tiling ends with the whole input |
| Lz.RoundTrip | src/entropy/lz.c:203-286 | Decoding the serialized form of any tiling gives back the input |
| Lz.TotalBound | src/entropy/lz.c:207-223 | Besides the header, a tiling takes at most 7/3 bytes for each byte covered, 7/4 when no match is of three bytes, and 256/255 when every match gains a byte |
| Lz.Serialize | src/entropy/lz.c:203-286 | Writes exactly the predicted stream, plain literals when nothing is gained, refuses sequences that do not fit the input, and, with its totals in 32 bits, runs past what it reserved exactly when they wrap |
| Lz.Encode | src/entropy/lz.c:746-790 | At every level the result is the serialized parse of the level's search, decodes to the input and is at most eight bytes longer, 17 bytes for equal bytes however many; up to 2 GiB it is always made and the decoder has no trouble with it; it fails to write one exactly when the 32-bit totals of its parse wrap, which the stated sizes rule out |
| LzParse.LevelsLookFurther | src/entropy/lz.c:712-743 | Higher levels search at least as far, level 1 alone takes the flat-hash parser, the default is level 3 |
| Lz.SizeNeverWraps | src/entropy/lz.c:207-223 | Below these input sizes, 2 GiB and more at every level, no parse of the level can wrap the totals |
| LzWrap.FarParseWraps | src/entropy/lz.c:207-223 | A concrete tiling of 1.84 GB whose size is 2^32 + 1: the total wraps to 1, and the serializer runs past what it reserved |
| Lz.TilesScan | src/entropy/lz.c:792-1000 | From before any sequence of a tiling on, neither path of the decoder meets trouble |
| Lz.StreamNoTrouble | src/entropy/lz.c:792-1000 | The decoder has no trouble with the stream of any tiling of an input up to 2 GiB |
| Lz.LongRunOverruns | src/entropy/lz.c:970-979 | A concrete stream of the encoder's own form, 2^31 + 2 zeros in one match: the reference decodes it, the doubling copy passes the end of the output |
| PushPullEncode.FeedSplit | src/api/pushpull_encode.c:230-262 | Pushing in two pieces is pushing at once, also when blocks fail to encode |
| PushPullEncode.FeedCuts | src/api/pushpull_encode.c:230-262 | Unless a full block failed to encode and blocks the stream, a segment becomes its pieces of the target size and its rest stays pending |
| PushPullEncode.ChunkingIrrelevant | src/api/pushpull_encode.c:230-323 | Runs that differ only in how pushes are split and when output is pulled reach the same state |
| PushPullEncode.NothingLost | src/api/pushpull_encode.c:133-164 | When no call of the run failed, the blocks followed by the pending bytes are the accepted bytes; after finish nothing is pending |
| PushPullEncode.FeedOk | src/api/pushpull_encode.c:133-164 | Emitted blocks stay, are whole elements within the target, and all encode |
| PushPullEncode.Encoder.EmitBlock | src/api/pushpull_encode.c:133-164 | The record is queued and the block leaves the input; a block that fails to encode changes nothing |
| PushPullEncode.Encoder.Push | src/api/pushpull_encode.c:230-262 | The chunk-wise loop is the byte-by-byte meaning, with its exact status |
| PushPullEncode.PushStatusTells | src/api/pushpull_encode.c:230-262 | A push that is no whole number of elements, comes after finish or meets a blocked queue is refused, and no other |
| PushPullEncode.Encoder.Pull | src/api/pushpull_encode.c:264-300 | The next bytes of the queue, never lost or repeated by the trimming, and whether more are left |
| PushPullEncode.Encoder.Compact | src/api/pushpull_encode.c:100-112 | Trimming keeps exactly the unpulled bytes |
| PushPullEncode.Encoder.Flush | src/api/pushpull_encode.c:302-307 | Ends the block; a no-op on empty input |
| PushPullEncode.FlushEnds | src/api/pushpull_encode.c:302-307 | After a flush that succeeds nothing is pending |
| PushPullEncode.Encoder.Finish | src/api/pushpull_encode.c:309-315 | Ends block and stream, unless the last block does not encode |
| PushPullEncode.Encoder.Reset | src/api/pushpull_encode.c:208-218 | Back to the state after opening |
| PushPullEncode.Encoder.Mark | src/api/pushpull_encode.c:317-323 | The checkpoint counts the blocks emitted and the bytes in them |
| PushPullEncode.PerformAll | src/api/pushpull_encode.c:230-315 | Bytes pulled and bytes still queued are the records of the run's blocks |
| PushPullEncode.SameBytes | include/tdc/pushpull.h:139-185 | Two runs with the same flush points, pulled to the end, gave the same bytes |
| PushPullDecode.FrontStable | src/api/pushpull_decode.c:108-140 | More bytes never change a record or a fault already decided |
| PushPullDecode.ReadSplit | src/api/pushpull_decode.c:108-201 | Reading a byte string in two pieces is reading it at once |
| PushPullDecode.RunInStep | src/api/pushpull_decode.c:253-319 | In every run the blocks given and the reading of what is left make up the reading of all bytes |
| PushPullDecode.SplitIrrelevant | src/api/pushpull_decode.c:253-319 | On any bytes, valid or not, the blocks given depend on the bytes only, not on chunks or on when blocks are asked for |
| PushPullDecode.AskingExhausts | src/api/pushpull_decode.c:284-319 | Asking once per buffered record hands out all of them without failing |
| PushPullDecode.Decoder.TryParse | src/api/pushpull_decode.c:108-140 | The phase reached tells exactly what the unread bytes hold |
| PushPullDecode.Decoder.DecodeReady | src/api/pushpull_decode.c:145-201 | One block out, its record dropped, or the failure latched |
| PushPullDecode.Decoder.Push | src/api/pushpull_decode.c:253-275 | Everything is accepted and appended, or refused after finish or failure |
| PushPullDecode.Decoder.Next | src/api/pushpull_decode.c:284-319 | Block, starved, done or failure, as the reference step says; starved only before finish, done only when every byte given has been read as blocks |
| PushPullDecode.NextAnswers | src/api/pushpull_decode.c:284-319 | What a reader may answer, from the bytes it has been given alone: a block that is next, starved while bytes may follow, done when finished with nothing left, failure otherwise; exactly one of them holds |
| PushPullDecode.RunAnswers | src/api/pushpull_decode.c:253-319 | Every answer of every run is that one |
| PushPullDecode.Decoder.Compact | src/api/pushpull_decode.c:91-102 | Dropping consumed bytes keeps the unread ones |
| PushPullDecode.Decoder.Mark | src/api/pushpull_decode.c:321-327 | The checkpoint counts the blocks handed out and their bytes |
| PushPull.RecordsRead | include/tdc/pushpull.h:17-29 | The records of some blocks read back as exactly those blocks |
| PushPull.PrefixReads | src/api/pushpull_decode.c:108-201 | A cut-off stream reads as its first blocks and never as a fault |
| PushPull.TruncatedIsRefused | src/api/pushpull_decode.c:304-313 | A finished reader whose bytes end inside a record of the stream answers with a latched failure once its whole blocks are out, never with done |
| PushPull.Relay | include/tdc/pushpull.h:139-270 | Any event keeps encoder and decoder linked: the decoder has what was pulled, has given the encoder's first blocks, and has not failed |
| PushPull.RelayAll | include/tdc/pushpull.h:139-270 | Any interleaving of pushes, flushes, moves and requests: the blocks received are the first blocks emitted; when no call failed and the encoder finished and was asked and moved empty, their bytes are the bytes pushed |
| PushPull.AllArrived | include/tdc/pushpull.h:139-270 | With the queue empty and nothing left to ask for, every block has arrived |
| PushPull.CheckpointsAgree | include/tdc/pushpull.h:55-66 | Encoder and decoder checkpoints after the same number of blocks are equal |
| PushPull.PushedArrives | include/tdc/pushpull.h:139-270 | For a finished run in which no call failed, any splitting of its records gives blocks whose bytes are the bytes pushed |
| PushPull.StoredFits | include/tdc/pushpull.h:17-29 | A concrete block layer meets everything asked of one and encodes every block of a run |
| SidePack.PackRoundTrip | src/api/side_pack.c:59-138 | Unpacking undoes packing; packing accepts exactly the well-formed dictionaries, and everything that unpacks |
| SidePack.GetLeb | src/api/side_pack.c:41-57 | A LEB128 length is read back within five bytes, nothing above 32 bits accepted |
| SidePack.MemoryReads | src/api/side_pack.c:63-90 | The form in memory is read as the dictionary it was made from |
| SidePack.PackedReads | src/api/side_pack.c:98-130 | So is the packed form |
| SidePack.LebGet | src/api/side_pack.c:47-57 | The bounded loop reads what the reference reads, or nothing |
| SidePack.Pack | src/api/side_pack.c:59-92 | On any bytes: the packed dictionary, or corrupt |
| SidePack.Unpack | src/api/side_pack.c:94-138 | On any bytes: the form in memory, or corrupt |
| EntropyChain.ChainRoundTrip | src/api/entropy_chain.c:35-157 | Any chain of coders is undone on an input when each coder inverts the bytes that reach it |
| EntropyChain.UnchainedFills | src/api/entropy_chain.c:105-157 | On any payload a chain gives exactly the size asked for, or nothing |
| EntropyCoders.CodersRoundTrip | src/api/entropy_chain.c:35-157 | The section round trip for any chain of the Huffman, four-stream Huffman, rANS and LZ coders modelled here, whenever the sizes in the section's own table are safe for their coders: 341 MiB for one-stream Huffman, 2 GiB for rANS and LZ, any for four streams |
| EntropyCoders.CodersAccept | src/api/entropy_chain.c:35-157 | Up to four of the coders, in any order, take side metadata of up to 16 MiB and give it back: nothing is refused, whatever the coders choose |
| EntropyCoders.CoderInverts | src/api/entropy_chain.c:35-157 | Which inputs each of the four coders inverts; exact for all but LZ |
| EntropyCoders.CodersFill | src/api/entropy_chain.c:105-157 | On any bytes each of the four decoders fills its output or fails, as the decoding loop needs |
| EntropyChain.EncodeInto | src/api/entropy_chain.c:62-79 | A stage never writes the buffer it reads: the other buffer is untouched |
| EntropyChain.Encode | src/api/entropy_chain.c:35-103 | The ping-pong loop writes the size table and the composed coders' output, with the first stage error |
| EntropyChain.Decode | src/api/entropy_chain.c:105-157 | The reverse loop computes the composed decoders on any payload, checking the size table |
| EntropyChain.SectionRoundTrip | src/api/decode_impl.c:136-155 | The side metadata section gives back the side metadata, packed or not, through any chain whose coders invert the bytes that reach them |
| EntropyChain.LegacyRoundTrip | src/api/decode_impl.c:136-155 | For every chain and model a legacy section is loaded as it is, and reads as the dictionary it was made from |
| EntropyChain.WriteSection | src/api/encode.c:253-279 | Packing, chain and size prefix in that order, with each error |
| EntropyChain.LoadSection | src/api/decode_impl.c:136-155 | Chain, then unpacking; a legacy section exactly as it stands, a short one refused, and no result of another size or form than recorded |

## Left out

- Lz.Encode: leaves out inputs within 64 bytes of 2^32, on which the parsers' 32-bit positions themselves wrap; what happens after a wrapped total has run past the reserved buffer is not modelled either, only that it does. That a parser of the library itself, and not only some tiling, wraps the totals is not shown.
- Lz.Serialize: asks that the bytes the sequences cover stay below 2^32, as those of any parse do; the totals may wrap.
- LzParse.ParseGreedy: together with `ParseFast` asks for the same 64 bytes of room below 2^32.
- LzDecode.Decode: says that a decoder in trouble does not return properly, and in which of two ways, but not what it has written by then.
- EntropyCoders.CoderInverts: for LZ claims only inputs up to 2 GiB, where no trouble can arise; for the other coders it is exact.
- LzMatch.HashChain.FindBest: claims nothing about how long a capped match is, as the code does not extend every candidate fully then.
- ContainerEncoder.Reopen: together with the rest of the container model takes the disk to refuse file offsets above 2^62, so that no 64-bit offset sum wraps; what ends there is not counted as a fault.
- ContainerPasses.GrowPass: with `Reopen`, `OpenWiden` and `OpenExtend` asks that the index of a file reopening accepts lies at or past its live data, as it does in every file any pass leaves (`ContainerPasses.RunPasses`); what a pass does to a file of other origin that breaks it, say one with its index before its blocks, is not modelled.
- ContainerEncoder.OpenWiden: asks that the replacement schema, serialized by the library itself, can be read back.
- ContainerPasses.RunCalls: refuses a record after the statistics of its own row group, as `AppendRecord` does by asking for none; the original accepts it against its documented order of calls (include/tdc/stream.h), and then serializes more statistics entries than were given, from past the end of their array.
- ContainerPasses.Finish: after a failed call only abort is made; the hook writes only at or past the end it is given.
- PushPullEncode.Encoder.constructor: asks that the target block size in bytes stays below 2^63; open does not check the product.
- Table entries are datatypes, not packed integers, and the heap holds items instead of two parallel arrays.
- Logical OR of disjoint bit fields in LEB128 reading is addition; the bit reader's count is an unbounded integer.
- Allocation failures, buffer growth, output capacities and NULL checks; memory is unbounded and buffers are sequences. A C pointer pair that could alias is modelled only where the code relies on it (match copies, the two chain buffers).
- How far the lengths of halved counts are from the best lengths of at most 15 bits.
- The column schema is a byte section with a readability test; statistics are opaque 41-byte entries.
- The block layer below the push/pull streams is a parameter, whose decoder is asked to invert what its encoder accepts; 64-bit block counters do not wrap.
- What the entropy coders of a chain choose (code lengths, tables, parses) is a parameter within what their encoders guarantee.
- Record validation when a pre-encoded record is appended, and homogeneous or sequential reading of containers.
- Models, transforms, the optimal LZ parsers, the split-stream and lane coders, `find_multi` and the binary-tree match finder, which no caller selects.
- Floating-point choices, zlib, plugins, timers, logging, SIMD beyond its effect on bytes, prefetch.

# Verified models of six FFmpeg components

A Dafny 4.11 project that models six self-contained pieces of FFmpeg and proves what they promise. `dafny verify
dfyconfig.toml` checks all of it. Code that works by changing fields and arrays is modelled by classes and methods on
arrays, each proved against a specification function; the properties are then lemmas about those functions. The threads of
ffplay are a machine whose steps are single reads, writes and lock operations.

**4XM decoder** (`libavcodec/4xm.c`)
- `HuffmanTree`, `HuffmanCodes`, `HuffmanOptimal`, `FourXmHuffman`: the code table builder. No code is longer than 22 bits,
  which answers the source's own comment "can this happen at all ?"; the code is optimal among all prefix codes; it is
  prefix-free and complete exactly when some byte has frequency zero. With all 256 frequencies non-zero the loop runs out of
  internal nodes and two trees are left.
- `VlcTable`, `FourXmTables`: which code tables `init_vlc` turns down, and what that makes of the builder. The tables are taken
  exactly when some byte has frequency zero or a symbol was left unmerged, and they decode every stream exactly when some
  frequency is zero and some is not: with all zero no symbol has a code at all, not even the end symbol.
- `FourXmBlocks`, `FourXmPFrame`: the recursive P-block splitter. Its leaves tile the frame, no assertion fails, accepted
  reads stay inside the previous frame, and the decoded frame is what the leaves say.
- `FourXmRoundTrip`: P frames written down as trees of blocks are read back, and every pixel is what its tree means.
- `FourXmChunks`: the 100-slot reassembler of chunked frames refines a map from frame id to bytes, over whole streams.

**ffplay queues** (`fftools/ffplay.c`)
- `FfplayRing`: the frame queue between one writer, one reader and an aborting thread, at the granularity of field updates.
- `FfplayDecoder`: the packet queue with its serials and the decoder thread around an abstract codec.
- `FfplaySystem`: both together, end to end: shown frames are fresh, no wakeup is lost, an aborted decoder ends.
- `FfplayQueues`: `PacketQueue` and `FrameQueue` as classes, tied to the machines.

**ffmpeg output side** (`fftools/ffmpeg.c`)
- `FfmpegRate`, `FfmpegVideoOut`: the duplicate and drop engine of `do_video_out`, with reals for the doubles and rounding of
  halves to even for `lrint`, `lrintf` and `llrint`: drift bound, frame accounting, timestamps.
- `FfmpegMux`, `FfmpegMuxFile`: `write_packet` and `check_init_output_file`: the queue of packets before the header and the
  repair of decoding timestamps.

**Command-line splitter** (`fftools/cmdutils.c`): `CmdSplit`, `CmdRoundTrip`, `CmdContext`.

**C64 charset renderer** (`libavcodec/a64multienc.c`): `A64Charset`.

**8BPS decoder** (`libavcodec/8bps.c`): `EightBps`, `EightBpsImage`.

`Basics` and `SeqSums` hold shared vocabulary.

Where the code does less than one might expect, the condition is proved to be exact, and a lemma gives an input:
`FourXmTables.DecodableIff`, with `AllZeroHasNoCodes`, `EvenTableRefused` and `DominatedAccepted` for tables that do not
decode; `FfmpegRate.ReportMeans`, with `LateFirstPictureMiscounted` for the pending drop of a picture that was shown;
`FfmpegRate.StepKeepsBalance` for the calls that unbalance the counters; `FfmpegRate.PassThroughAscends`, with
`PassThroughUnordered`, for the modes that do not order timestamps; `FfmpegMux.OrderKeptIff` for packets without a dts;
`FfplayRing.DeadlocksIff` for the sizes of the frame queue; `FourXmChunks.RoomIff`, with `HundredFramesBegun` for the
101st frame; `CmdRoundTrip.LineRoundTripIff`, with `ExitOptionTakesFile`, for the lines that do not come back.

## Model

| member | source | states |
|---|---|---|
| HuffmanTree.ScanSelects | libavcodec/4xm.c:662-681 | the one-pass scan with two running minima finds the two lightest live nodes, and the 256*256 sentinel is left exactly when fewer than two nodes are live |
| HuffmanTree.ScanTakesFirst | libavcodec/4xm.c:662-679 | among equal weights the scan takes the nodes in the order of their index |
| HuffmanTree.MergeConserves | libavcodec/4xm.c:683-688 | a merge keeps the total live weight |
| HuffmanTree.MergeKeepsOk | libavcodec/4xm.c:683-688 | a merge of the two lightest live nodes keeps the forest invariant: links climb, weights add up, no live node is lighter than a merged one, a node outweighs child plus grandchild |
| HuffmanTree.BuildKeeps | libavcodec/4xm.c:661-689 | the whole merge loop keeps the invariant and the live weight and never rewrites a link |
| HuffmanTree.BuildInOrder | libavcodec/4xm.c:661-689 | in the finished forest every merge took the first two of the nodes there, by weight and index, and gave the first of them flag 0 |
| HuffmanTree.MergeCountsDown | libavcodec/4xm.c:683-688 | every merge leaves one live node less |
| HuffmanTree.TreesLeft | libavcodec/4xm.c:661-689 | the loop ends with one tree, or with what 255 internal nodes could not join |
| HuffmanCodes.HighNodesAreHeavy | libavcodec/4xm.c:661-689 | a node d levels above another weighs at least Fib(d + 2) |
| HuffmanCodes.DepthBound | libavcodec/4xm.c:691-705 | with a total weight below Fib(25) no node is deeper than 22 |
| HuffmanCodes.CodeIdentifies | libavcodec/4xm.c:691-705 | in one tree the flags on the way to the root identify the node |
| HuffmanCodes.NoPrefixInTree | libavcodec/4xm.c:691-705 | in one tree no symbol's code begins another's |
| HuffmanCodes.PrefixFreeIffOneTree | libavcodec/4xm.c:661-705 | the codes of all live symbols are prefix-free if and only if one tree is left |
| HuffmanCodes.Decodes | libavcodec/4xm.c:691-705 | with one tree, any 22 bits begin with the code of exactly one live symbol |
| HuffmanOptimal.BuildCosts | libavcodec/4xm.c:661-689 | the final depths cost exactly the sum of all merged weights and fill one code space per tree |
| HuffmanOptimal.KraftLowerBound | libavcodec/4xm.c:661-689 | no lengths within Kraft's bound cost less than the merges |
| HuffmanOptimal.KraftInequality | libavcodec/4xm.c:707-709 | every prefix code is within Kraft's bound |
| FourXmHuffman.RunsRoundTrip | libavcodec/4xm.c:633-650 | frequency runs laid down in any split are read back as the table they describe, later runs winning |
| FourXmHuffman.TableRoundTrip | libavcodec/4xm.c:633-659 | so the whole table is, and what follows begins at the next place divisible by four, unless that lies behind the end |
| FourXmHuffman.FinishedFacts | libavcodec/4xm.c:621-689 | for every byte table the total weight is at most 65281, and one tree is left for at most 256 live symbols, two for 257 |
| FourXmHuffman.NoLongCodes | libavcodec/4xm.c:694-701 | for every table no code is longer than 22 bits, so the overflow message cannot appear and no code is too long for init_vlc |
| FourXmHuffman.PrefixFreeIff | libavcodec/4xm.c:661-705 | the codes of the live symbols form a prefix code if and only if some byte frequency is zero |
| FourXmHuffman.KraftEquality | libavcodec/4xm.c:661-705 | Kraft's sum is exactly one if and only if some byte frequency is zero |
| FourXmHuffman.TableCosts | libavcodec/4xm.c:661-705 | the total weighted length is the cost of the merges, Kraft's sum the number of trees |
| FourXmHuffman.Optimal | libavcodec/4xm.c:651-705 | no prefix code on the live symbols has a smaller total weighted length |
| FourXmHuffman.SiblingCodes | libavcodec/4xm.c:662-705 | of two symbols whose codes differ in the last bit only, the lighter, or of equals the first, has the 0 |
| FourXmHuffman.OneByteCodes | libavcodec/4xm.c:651-705 | a byte value alone with the end symbol: the lighter has code 0, and the byte if both weigh 1 |
| VlcTable.ApartAccepted | libavcodec/bitstream.c:189-268 | codes at most three tables long of which none begins another are accepted |
| VlcTable.ShortCollisionRefused | libavcodec/bitstream.c:206-229 | a code that fits the first table and begins another, or is begun by it, makes init_vlc fail |
| FourXmTables.InitVerdict | libavcodec/4xm.c:708-710 | for every table, init_vlc accepts the codes if and only if some byte frequency is zero or some symbol that occurs was left unmerged |
| FourXmTables.TablesDecode | libavcodec/4xm.c:703-709 | with a zero and a non-zero frequency, every 22 bits begin with exactly one code among those init_vlc enters, and its symbol occurs |
| FourXmTables.DecodableIff | libavcodec/4xm.c:661-710 | the table is taken, gives every symbol that occurs a code and decodes every stream, if and only if some frequency is zero and some is not |
| FourXmTables.AllZeroHasNoCodes | libavcodec/4xm.c:651-709 | with all frequencies zero every stored length is 0, so no lookup finds anything |
| FourXmTables.EvenTableRefused | libavcodec/4xm.c:661-710 | a full table whose byte frequencies are all at most twice the least leaves two inner trees and is refused |
| FourXmTables.EqualFrequenciesRefused | libavcodec/4xm.c:661-710 | so are 256 equal frequencies |
| FourXmTables.DominatedAccepted | libavcodec/4xm.c:661-710 | a full table of frequencies 1 and 2 but for one byte, which weighs more than two thirds of all others, is accepted, and that byte is left without a code |
| FourXmTables.HeaviestAccepted | libavcodec/4xm.c:661-710 | so is one whose heaviest byte weighs as much as all other bytes, which only 255 against 255 ones does |
| FourXmHuffman.FindSmallest | libavcodec/4xm.c:662-679 | the scan as a loop computes the specified minima |
| FourXmHuffman.Join | libavcodec/4xm.c:683-688 | one merge in place on the three arrays |
| FourXmHuffman.Round | libavcodec/4xm.c:661-689 | one round in place follows the specified merge loop, or ends it |
| FourXmHuffman.BuildTree | libavcodec/4xm.c:661-689 | the merge loop in place leaves the arrays of the specified forest |
| FourXmHuffman.ReadCode | libavcodec/4xm.c:692-704 | the climb from a symbol yields the length and value of its code word and never reports an overflow |
| FourXmHuffman.ReadCodes | libavcodec/4xm.c:691-705 | the code tables hold the length and value of every symbol's code word |
| FourXmHuffman.MakeTables | libavcodec/4xm.c:651-705 | from a frequency array to the code tables, whatever the uninitialised flag array held |
| FourXmHuffman.ReadRun | libavcodec/4xm.c:643-644 | one run overwrites exactly its symbols |
| FourXmHuffman.ReadRuns | libavcodec/4xm.c:633-659 | the run loop, alignment and bounds checks fail exactly when the specified parse does, and otherwise read its table |
| FourXmTables.InitVlcIsVerdict | libavcodec/bitstream.c:323-378 | the code words are recovered from the stored lengths and values, which always fit |
| FourXmTables.ReadHuffmanTables | libavcodec/4xm.c:617-713 | the whole function: tables exactly when the runs parse and some frequency is zero or some symbol was left unmerged, then with position, lengths and values of the codes, and no overflow |
| FourXmBlocks.TypesComplete | libavcodec/4xm.c:46-70 | in each of the eight tables every five bits begin with the code of exactly one block type, 0 to 6 |
| FourXmBlocks.AllowedTypes | libavcodec/4xm.c:352-360 | the tables allow a split only of a side that can be halved and raw pixels only in two-pixel blocks, so 1x1 is never reached |
| FourXmBlocks.CopyStaysInside | libavcodec/4xm.c:362-363 | a source accepted by the bounds check is read only inside the previous frame |
| FourXmBlocks.LastStartExact | libavcodec/4xm.c:362-363 | the bounds check accepts exactly the sources whose first and last pixel are in the previous frame |
| FourXmBlocks.OwnOffsetFits | libavcodec/4xm.c:415-415 | a block's own offset is a valid source, which is the assertion for type 5 |
| FourXmBlocks.BlockTiles | libavcodec/4xm.c:343-428 | from any valid block the recursion meets valid shapes only, no assertion fails, reads stay inside, and on success every pixel is covered exactly once |
| FourXmBlocks.HalfOffsets | libavcodec/4xm.c:369-378 | halving keeps the source offset equal to the destination's |
| FourXmBlocks.FrameTiles | libavcodec/4xm.c:483-489 | the leaves of a whole frame cover each pixel at most once, and exactly once on success |
| FourXmBlocks.CopyAndFill | libavcodec/4xm.c:288-341 | the pair arithmetic reproduces the source pixel when nothing is added, and the constant when the scale is 0 |
| FourXmBlocks.CopyPlusConstant | libavcodec/4xm.c:288-292 | with a constant both pixels of a pair gain it, and the carry of the first reaches the second |
| FourXmBlocks.ApplyAt | libavcodec/4xm.c:295-341 | an uncovered pixel keeps its value, one covered once has the value its leaf gives |
| FourXmBlocks.FrameMeaning | libavcodec/4xm.c:430-492 | after a P frame every pixel has the value one leaf computes from the previous frame and the streams |
| FourXmPFrame.Decoder.PairMul | libavcodec/4xm.c:288-292 | two pixels through one wrapping 32-bit step |
| FourXmPFrame.Decoder.OneMul | libavcodec/4xm.c:303-308 | one pixel of the narrowest blocks, wrapping at 16 bits |
| FourXmPFrame.Decoder.McRow | libavcodec/4xm.c:302-341 | one row of a copy writes its pixels and nothing else |
| FourXmPFrame.Decoder.Mcdc | libavcodec/4xm.c:295-341 | a copy leaves the frame as the leaf specifies; scale 0 keeps re-reading the first row |
| FourXmPFrame.Decoder.RawPixels | libavcodec/4xm.c:384-390 | two raw pixels, side by side or one below the other |
| FourXmPFrame.Decoder.CopyBlock | libavcodec/4xm.c:420-427 | the bounds check and the copy |
| FourXmPFrame.Decoder.DecodeLeaf | libavcodec/4xm.c:379-427 | the types that end a block, in place |
| FourXmPFrame.Decoder.DecodePBlock | libavcodec/4xm.c:343-428 | the recursive block decoder in place reads, fails and writes as specified |
| FourXmPFrame.Decoder.DecodeDown | libavcodec/4xm.c:365-371 | the upper and the lower half |
| FourXmPFrame.Decoder.DecodeAcross | libavcodec/4xm.c:372-378 | the left and the right half |
| FourXmPFrame.Decoder.DecodePFrame | libavcodec/4xm.c:483-491 | the loops over the 8x8 blocks in place decode the specified frame |
| FourXmRoundTrip.TypeReadsBack | libavcodec/4xm.c:353-360 | a block type written with its code from the tables is read back as itself, whatever follows, and is as long as its code |
| FourXmRoundTrip.LeafReadsBack | libavcodec/4xm.c:379-427 | motion, motion with a constant, fill, keep, plain copy and raw pixels are read back from their motion byte and words |
| FourXmRoundTrip.BlockReadsBack | libavcodec/4xm.c:343-428 | a block written as a tree of splits and leaves is read back as the leaves of that tree, to the last bit, byte and word |
| FourXmRoundTrip.FrameReadsBack | libavcodec/4xm.c:483-491 | so is a frame of such blocks in raster order |
| FourXmRoundTrip.TreeShows | libavcodec/4xm.c:365-427 | its leaves draw what the tree means: a moved pixel of the previous frame, with a constant and carry, a colour, the pixel itself, or raw ones |
| FourXmRoundTrip.PFrameRoundTrip | libavcodec/4xm.c:430-492 | a written P frame decodes to the end of its streams, and every pixel is what its tree means |
| FourXmChunks.Interleaving | libavcodec/4xm.c:857-922 | however chunks of different frames interleave, each id gets the frames its own chunks alone would give |
| FourXmChunks.NothingLost | libavcodec/4xm.c:905-919 | the completed frames of an id and what is still held are the bytes received, in order |
| FourXmChunks.HeldIsShort | libavcodec/4xm.c:905-919 | what is held after a chunk never reaches the size the chunk announces |
| FourXmChunks.SizeEdges | libavcodec/4xm.c:866-869 | a negative size changes nothing, and size 0 hands out what there is at once |
| FourXmChunks.FrameWhenReached | libavcodec/4xm.c:905-919 | chunks whose bytes reach their announced size with the last of them give exactly that frame, once, and short of it stay held |
| FourXmChunks.InterleavedFrame | libavcodec/4xm.c:857-922 | also with the chunks of other frames in between |
| FourXmChunks.PutSlot | libavcodec/4xm.c:888-919 | writing one slot changes what is held for its id and for no other; each non-zero id keeps at most one slot |
| FourXmChunks.RoomIff | libavcodec/4xm.c:881-891 | there is a slot for a frame if and only if fewer than 100 are pending or it is one of them |
| FourXmChunks.FewIdsFewPending | libavcodec/4xm.c:881-891 | chunks of at most 100 different frames never run out of slots |
| FourXmChunks.Reassembler.FindSlot | libavcodec/4xm.c:881-886 | the search finds the slot of the id, else a free one, else none |
| FourXmChunks.Reassembler.AddChunk | libavcodec/4xm.c:857-922 | one chunk in place does what the map says: payload appended, frame handed out when complete, other frames untouched, and no bytes are kept under id 0 |
| FourXmChunks.Reassembler.AddAll | libavcodec/4xm.c:857-922 | over a whole stream of chunks that does not begin a 101st frame, the frames handed out are the completed frames of the map, in order |
| FourXmChunks.HundredFramesBegun | libavcodec/4xm.c:881-891 | after one chunk each of 100 frames the search for a slot for another frame finds none |
| FourXmChunks.Reassembler.Append | libavcodec/4xm.c:892-922 | the append with its wrap-around check and the completion |
| FfplayRing.InitInv | fftools/ffplay.c:691-710 | an initialised queue satisfies the ring invariant |
| FfplayRing.RingInvKept | fftools/ffplay.c:731-807 | every step of writer, reader and aborting thread keeps the invariant on locks, counts, indices, contents and waits |
| FfplayRing.PeekIndex | fftools/ffplay.c:731-739 | (rindex + k) % max_size is the slot of the k-th frame after the one at rindex |
| FfplayRing.WriterAlone | fftools/ffplay.c:746-801 | in no interleaving is the slot being filled one the reader may look at |
| FfplayRing.ReadsInOrder | fftools/ffplay.c:731-744 | what the reader sees is frame number Taken of those pushed, after it Taken + 1, intact |
| FfplayRing.PushesOne | fftools/ffplay.c:778-786 | only frame_queue_push adds a frame, one at a time |
| FfplayRing.DequeuesOne | fftools/ffplay.c:788-801 | each frame_queue_next dequeues exactly one frame and nothing else does |
| FfplayRing.PushedGrows | fftools/ffplay.c:778-801 | along a run pushed frames are only appended and the number dequeued never falls |
| FfplayRing.KeptUntilFollowingNext | fftools/ffplay.c:788-801 | with keep_last a frame peeked at before frame_queue_next stays untouched until the following frame_queue_next releases it |
| FfplayRing.NeverBothAsleep | fftools/ffplay.c:746-776 | writer and reader never sleep together on the shared condition, and a sleeper's condition holds up to the very next signal |
| FfplayRing.AbortWakesAll | fftools/ffplay.c:724-729 | after the abort flag and the one signal nobody sleeps on the queue or is about to |
| FfplayRing.DeadlocksIff | fftools/ffplay.c:691-801 | from an initialised queue some interleaving puts writer and reader to sleep together if and only if it has one slot and keep_last, so the sizes in use, at least 2, are safe |
| FfplayDecoder.DecNextInv | fftools/ffplay.c:591-678 | every step of the video or audio decoder thread keeps the serial invariant |
| FfplayDecoder.OffersExactly | fftools/ffplay.c:591-678 | exactly the packets with the queue's serial are offered to the codec, and frames are asked of it exactly while it holds that serial |
| FfplayDecoder.PutsInv | fftools/ffplay.c:426-448 | a put keeps it, and stamps the serial of the moment or is refused |
| FfplayDecoder.FlushesInv | fftools/ffplay.c:499-513 | so does a flush |
| FfplayDecoder.OpensInv | fftools/ffplay.c:534-540 | so do decoder_init and packet_queue_start |
| FfplayDecoder.ResetsMonotone | fftools/ffplay.c:499-540 | equal serials at two moments mean no flush or start in between |
| FfplaySystem.SysInvKept | fftools/ffplay.c:426-826 | every step of any thread keeps the joint invariant |
| FfplaySystem.CodecHoldsOneSerial | fftools/ffplay.c:640-650 | the codec only holds packets of one serial, pkt_serial but for the moment before the flush a get calls for; queued packets carry the queue's serial |
| FfplaySystem.ShownFramesAreFresh | fftools/ffplay.c:1603-1609 | a frame whose serial passes the comparison was built only from packets put after the latest flush or start of its queue |
| FfplaySystem.FinishedIsCurrent | fftools/ffplay.c:628-632 | finished equal to the queue's serial means the end of stream came after the latest flush or start |
| FfplaySystem.FinishedIff | fftools/ffplay.c:613-650 | finished equals the queue's serial if and only if the codec reported the end of the stream with that serial, in any run |
| FfplaySystem.EndStaysNoted | fftools/ffplay.c:613-650 | and it stays so until the queue is flushed or started |
| FfplaySystem.NoLostWakeup | fftools/ffplay.c:819-826 | past the abort and the signal the decoder sleeps neither on packets nor on room for a frame |
| FfplaySystem.SleepsOnlyWhenEmpty | fftools/ffplay.c:543-576 | a decoder asleep on packets has none to take |
| FfplaySystem.DecoderEndsSoon | fftools/ffplay.c:819-826 | past the two signals the decoder thread takes at most 40 more steps in any interleaving |
| FfplaySystem.DecoderCanMove | fftools/ffplay.c:819-826 | until then it can always step, or waits for a lock whose holder can |
| FfplayQueues.PacketQueue.Put | fftools/ffplay.c:426-470 | appends the packet with the serial, keeps the three counters, or refuses after an abort |
| FfplayQueues.PacketQueue.FlushAll | fftools/ffplay.c:499-513 | empties the list, zeroes the counters, raises the serial |
| FfplayQueues.PacketQueue.Abort | fftools/ffplay.c:523-532 | sets the flag and wakes the decoder |
| FfplayQueues.PacketQueue.Open | fftools/ffplay.c:534-540 | clears the flag and raises the serial |
| FfplayQueues.PacketQueue.Get | fftools/ffplay.c:543-576 | takes the oldest packet with its serial, or says why not; the machine's step |
| FfplayQueues.PushInOneGo | fftools/ffplay.c:778-786 | the writer's steps, uninterrupted, are the whole push |
| FfplayQueues.NextInOneGo | fftools/ffplay.c:788-801 | the reader's steps, uninterrupted, are the whole next |
| FfplayQueues.FrameQueue.Peek | fftools/ffplay.c:731-734 | the oldest frame not yet dequeued |
| FfplayQueues.FrameQueue.PeekNext | fftools/ffplay.c:736-739 | the one after it |
| FfplayQueues.FrameQueue.PeekLast | fftools/ffplay.c:741-744 | the frame at rindex |
| FfplayQueues.FrameQueue.PeekWritable | fftools/ffplay.c:746-760 | a slot that holds no frame of the queue, or none |
| FfplayQueues.FrameQueue.PushFrame | fftools/ffplay.c:778-786 | appends the filled slot to the frames |
| FfplayQueues.FrameQueue.NextFrame | fftools/ffplay.c:788-801 | drops the first frame, which with keep_last stays at rindex |
| FfplayQueues.FrameQueue.NbRemaining | fftools/ffplay.c:804-807 | the number of frames not yet dequeued |
| FfmpegRate.StepOnTime | fftools/ffmpeg.c:1189-1246 | in constant rate mode one picture brings the counter to within 2.1 ticks ahead and 0.5 behind its end, from any counter at most 2.1 ahead |
| FfmpegRate.DriftBound | fftools/ffmpeg.c:1189-1246 | both bounds hold after the last picture of every run with non-decreasing end times within the duplicate limit |
| FfmpegRate.SmallGapsDrift | fftools/ffmpeg.c:1189-1275 | they hold for all pictures whose end times do not decrease and are at most the duplicate limit less one tick apart |
| FfmpegRate.FirstShownInTime | fftools/ffmpeg.c:1235-1246 | in constant rate mode a picture that is not early is first shown at most 1.1 ticks before its time and never after it |
| FfmpegRate.ConstantRateCount | fftools/ffmpeg.c:1235-1246 | which pictures constant rate mode drops, shows once and repeats, by how far they end from the counter and the drop threshold |
| FfmpegRate.LateStartSetsCounter | fftools/ffmpeg.c:1228-1234 | a stream that may start late starts at its first picture's time and fills no gap; all later pictures are treated as in constant rate mode |
| FfmpegRate.VariableRateTime | fftools/ffmpeg.c:1247-1252 | in variable rate mode such a picture gets its own time, rounded, or the counter within 0.6 |
| FfmpegRate.VariableRateInTime | fftools/ffmpeg.c:1214-1252 | variable rate mode drops exactly the pictures that end 0.6 ticks or more before the counter, and gives the others a pts between their start and end, give or take 0.6 |
| FfmpegRate.VariableRateStep | fftools/ffmpeg.c:1214-1308 | so does one call, for the frame it sends |
| FfmpegRate.VariableRateRun | fftools/ffmpeg.c:1214-1308 | and so is every frame of any run, whatever the limits |
| FfmpegRate.PictureSends | fftools/ffmpeg.c:1262-1308 | without a time limit a call sends all frames decided on, up to the frame limit, or none past the duplicate limit |
| FfmpegRate.DuplicatesBounded | fftools/ffmpeg.c:1276-1285 | no call that adds duplicates decides on more frames than the duplicate limit |
| FfmpegRate.FlushRepeatsMedian | fftools/ffmpeg.c:1183-1187 | at the end the number of repeats is the median of the last three |
| FfmpegRate.SendCounts | fftools/ffmpeg.c:1292-1419 | the loop sends at most what was decided, counts what it sends, and leaves the other counters and the frames sent before alone |
| FfmpegRate.SendPts | fftools/ffmpeg.c:1292-1419 | the frames it sends are one tick apart, from the counter on |
| FfmpegRate.SendOwes | fftools/ffmpeg.c:1299-1308 | it sends all frames up to the time limit, and none when there is neither a picture nor a previous one |
| FfmpegRate.StepRange | fftools/ffmpeg.c:1262-1268 | the frame limit is never passed and the history never negative |
| FfmpegRate.StepBalance | fftools/ffmpeg.c:1262-1308 | one call changes sent + dropped + pending - received - duplicated by exactly the stated defect, a closed form of limit, counter and previous frame |
| FfmpegRate.StepKeepsBalance | fftools/ffmpeg.c:1262-1308 | one call keeps that sum if and only if it sends all it decided on or, past the duplicate limit, drops one picture only |
| FfmpegRate.BalanceOfRun | fftools/ffmpeg.c:1262-1308 | after any run at all the sum is what its calls added |
| FfmpegRate.Conservation | fftools/ffmpeg.c:1262-1289 | over any run of calls that neither hit the duplicate limit nor leave the loop early the sum stays zero |
| FfmpegRate.UntimedRunsComplete | fftools/ffmpeg.c:1267-1308 | without a time limit all calls within the duplicate limit are such calls, the one at the end of the stream included |
| FfmpegRate.FinalReport | fftools/ffmpeg.c:1823-1824 | at any call boundary of such a run sent = received + dup - drop, with the pending drop counted as the report does |
| FfmpegRate.StepMeaning | fftools/ffmpeg.c:1270-1300 | a picture keeps every counter counting what its name says if and only if it does not only repeat with nothing to repeat |
| FfmpegRate.FirstOnlyRepeats | fftools/ffmpeg.c:1235-1268 | which a first picture does exactly in constant rate mode, more than 1.1 ticks late, with an end that rounds to no more than its repeats |
| FfmpegRate.CountersMean | fftools/ffmpeg.c:1270-1300 | over any run of complete calls, none past the duplicate limit or left early, drop counts pictures never sent, dup frames beyond a picture's first, and last_dropped is the newest picture unseen, if and only if the first picture does not only repeat or the second one repeats it |
| FfmpegRate.ReportMeans | fftools/ffmpeg.c:1183-1300 | the same, over any run of complete calls, for the counters after the call at the end of the stream, which are the ones reported |
| FfmpegRate.LateFirstPictureMiscounted | fftools/ffmpeg.c:1243-1300 | a first picture late by 1.15 ticks is sent and still marked as dropped |
| FfmpegRate.PtsAscend | fftools/ffmpeg.c:1214-1256 | for any timestamps, limits and early returns pts strictly increase in CFR, VSCFR and VFR, are consecutive in CFR and VSCFR, and start at 0 in CFR |
| FfmpegRate.PassesThrough | fftools/ffmpeg.c:1253-1256 | in the other two modes every picture is sent once, in order, at its own time, rounded |
| FfmpegRate.PassThroughAscends | fftools/ffmpeg.c:1253-1256 | there, without a frame or time limit, pts strictly increase if and only if the rounded input times do |
| FfmpegRate.PassThroughUnordered | fftools/ffmpeg.c:1253-1256 | two pictures at 5 and 3 come out in that order |
| FfmpegVideoOut.OutputStream.RateControl | fftools/ffmpeg.c:1189-1260 | the rate decision in place |
| FfmpegVideoOut.OutputStream.Count | fftools/ffmpeg.c:1265-1289 | history, drop and dup counters in place, and the early return |
| FfmpegVideoOut.OutputStream.Encode | fftools/ffmpeg.c:1292-1419 | the frame loop in place, and its early returns |
| FfmpegVideoOut.OutputStream.DoVideoOut | fftools/ffmpeg.c:1183-1428 | a call, given the input time, the duration and the sync method, takes the stream to the specified state |
| FfmpegMux.RepairedIsFine | fftools/ffmpeg.c:784-849 | a repaired packet keeps the muxer's rules and its contents, and the repair changes a packet exactly if it breaks a rule |
| FfmpegMux.RepairIsLeast | fftools/ffmpeg.c:824-846 | a packet in order is moved to the least times the rules allow |
| FfmpegMux.OutOfOrderIsClamped | fftools/ffmpeg.c:812-823 | a dts after its pts is replaced by the time after the last dts, kept between the two |
| FfmpegMux.RepairAllFine | fftools/ffmpeg.c:784-849 | over a stream nothing is lost, repeated or reordered, and every packet keeps the rules |
| FfmpegMux.UnchangedIffFine | fftools/ffmpeg.c:812-849 | a stream is unchanged if and only if it already keeps the rules |
| FfmpegMux.RepairTwice | fftools/ffmpeg.c:812-849 | repairing a repaired stream changes nothing |
| FfmpegMux.DtsAscend | fftools/ffmpeg.c:824-849 | between packets with a dts all the way, dts strictly ascend, or do not fall for non-strict muxers |
| FfmpegMux.WhichStreamsAscend | fftools/ffmpeg.c:812-847 | that is so for audio, video and subtitles, but for muxers without timestamps and copied VP9, where packets in order pass as they are |
| FfmpegMux.TimesDropped | fftools/ffmpeg.c:784-786 | video without a sync method and audio not kept in time reach the muxer without times |
| FfmpegMux.MissingDtsForgets | fftools/ffmpeg.c:824-849 | wherever a packet between two others has no dts, some times pass the repair unchanged and fall back |
| FfmpegMux.OrderKeptIff | fftools/ffmpeg.c:824-849 | the order of two packets is kept for all times if and only if every packet between them has a dts |
| FfmpegMux.FlushMuxes | fftools/ffmpeg.c:3065-3071 | flushing the queue muxes what writing it directly would have |
| FfmpegMux.WriteAccounts | fftools/ffmpeg.c:730-782 | a submitted packet is counted, queued or muxed, and the byte counter stays the sum of queued sizes |
| FfmpegMux.RunAccounts | fftools/ffmpeg.c:730-782 | in every reachable state each stream's queue or muxed packets account for all it was sent |
| FfmpegMux.HeaderIffAllInit | fftools/ffmpeg.c:3028-3074 | in any run the header is written if and only if every stream was initialised |
| FfmpegMux.MuxedOfRun | fftools/ffmpeg.c:730-849 | in a fixed time base, a run that initialises all streams muxes of each the packets sent, all of an encoded video stream and the first max_frames of any other, in order and each once, repaired, and leaves none queued |
| FfmpegMux.QueuedBeforeHeader | fftools/ffmpeg.c:743-782 | before that nothing is muxed and what was taken waits in the queue |
| FfmpegMux.HeaderTimeIndependence | fftools/ffmpeg.c:743-782 | so it does not matter when the streams were initialised |
| FfmpegMux.RoomDoubles | fftools/ffmpeg.c:748-767 | a full queue doubles, or is cut to max_muxing_queue_size once the data threshold would be passed |
| FfmpegMux.RefusedExactly | fftools/ffmpeg.c:754-767 | the program ends exactly when the queue is full, holds max_muxing_queue_size packets and would pass the data threshold |
| FfmpegMux.SmallRunsFinish | fftools/ffmpeg.c:754-767 | streams within the data threshold never end the program |
| FfmpegMuxFile.OutputStream.RepairTimes | fftools/ffmpeg.c:784-849 | the timestamp repair as the source computes it |
| FfmpegMuxFile.OutputStream.WritePacket | fftools/ffmpeg.c:730-849 | the frame limit, the queue with its exit, and the repair in place |
| FfmpegMuxFile.OutputStream.FlushQueue | fftools/ffmpeg.c:3065-3071 | the flush loop in place |
| FfmpegMuxFile.OutputFile.Submit | fftools/ffmpeg.c:730-872 | a packet for one stream changes that stream only |
| FfmpegMuxFile.OutputFile.InitStream | fftools/ffmpeg.c:3028-3074 | the last stream to become ready writes the header and flushes every queue |
| CmdSplit.Find | fftools/cmdutils.c:216-225 | the first option whose name is the token's, alone or before a colon, or that there is none |
| CmdSplit.Match | fftools/cmdutils.c:638-650 | the group whose separator is the token, or that there is none |
| CmdRoundTrip.SplitPlaces | fftools/cmdutils.c:762-844 | splitting is reading the items of the line and putting each in its place |
| CmdRoundTrip.SplitLands | fftools/cmdutils.c:658-699 | global options in order; each group has the options since the terminator before, in order; groups of a kind in order; the rest is trailing |
| CmdRoundTrip.EachOnce | fftools/cmdutils.c:689-699 | every item of an accepted line is in the result as often as it was said, and nothing else |
| CmdRoundTrip.FlagsDecide | fftools/cmdutils.c:689-699 | an option is global if and only if its table entry is neither per file nor with a specifier nor an offset |
| CmdRoundTrip.RejectedExactly | fftools/cmdutils.c:790-843 | which tokens are rejected, and with which error |
| CmdRoundTrip.NextSayable | fftools/cmdutils.c:762-844 | what a token can be read as |
| CmdRoundTrip.RenderedReads | fftools/cmdutils.c:762-840 | a rendered item reads back as itself, file names that look like options with the help of "--" |
| CmdRoundTrip.ReadsBackIffSteady | fftools/cmdutils.c:799-840 | a rendered option with more tokens behind it reads back as itself if and only if it has its argument and its -nofoo name is no AVOption |
| CmdRoundTrip.PlaceItemsOf | fftools/cmdutils.c:658-699 | reading the items of a result puts them back |
| CmdRoundTrip.ReadBackIff | fftools/cmdutils.c:762-844 | rendered items read back as themselves if and only if every one with another behind it has its argument and no -nofoo name that is an AVOption |
| CmdRoundTrip.RoundTrip | fftools/cmdutils.c:749-853 | the result of an accepted line, rendered and split again, is the same result, if in its rendering only the last option may lack its argument or have a -nofoo name that is an AVOption |
| CmdRoundTrip.SteadyLineRenders | fftools/cmdutils.c:749-853 | that is so if nothing said in the line lacks its argument or has such a name |
| CmdRoundTrip.RoundTripIff | fftools/cmdutils.c:749-853 | with global exit options and no -nofoo among the AVOptions a line comes back if and only if it is so |
| CmdRoundTrip.LineRoundTripIff | fftools/cmdutils.c:749-853 | in terms of the line: it comes back unless it ends with an exit option without its argument and has anything that is not a global option |
| CmdRoundTrip.ExitOptionTakesFile | fftools/cmdutils.c:802-806 | such a line, with any table: a file and a global exit option, which rendered takes the file's name as its argument |
| CmdRoundTrip.UnsteadyLineRoundTrips | fftools/cmdutils.c:807-840 | with a -nofoo that is an AVOption too, a line may come back although its rendering reads as something else on the way |
| CmdContext.FindOption | fftools/cmdutils.c:216-225 | the search loop |
| CmdContext.MatchGroupSeparator | fftools/cmdutils.c:638-650 | the search loop, -1 for none |
| CmdContext.OptionParseContext.FinishGroup | fftools/cmdutils.c:658-684 | the current group is closed and a new one begun |
| CmdContext.OptionParseContext.AddOpt | fftools/cmdutils.c:689-699 | the option goes to the global or the current list |
| CmdContext.OptionParseContext.ReadDashed | fftools/cmdutils.c:790-843 | a token with a dash: separator, option, AVOption, negated boolean or an error |
| CmdContext.OptionParseContext.SplitCommandline | fftools/cmdutils.c:749-853 | the loop over argv in place splits as specified, with the same error |
| A64Charset.GradientReady | libavcodec/a64multienc.c:224-229 | the encoder's own gray gradient, taken over reals, meets what the table construction relies on |
| A64Charset.LevelIs | libavcodec/a64multienc.c:120-132 | the level is the only i with luma[i] <= a < luma[i + 1] |
| A64Charset.RampRange | libavcodec/a64multienc.c:124-129 | the ramp stays below DITHERSTEPS and is 0 at every luma value |
| A64Charset.BuildTables | libavcodec/a64multienc.c:120-132 | the one-pass tables equal the closed forms for every a |
| A64Charset.FillRamp | libavcodec/a64multienc.c:123-126 | one segment of the ramp |
| A64Charset.AboveSign | libavcodec/a64multienc.c:144-145 | the sum for bright pixels is zero exactly when none is brighter than colour 3 |
| A64Charset.BelowSign | libavcodec/a64multienc.c:146-147 | the sum for dark pixels is zero exactly when none is darker than colour 1 |
| A64Charset.EvenArea | libavcodec/a64multienc.c:120-171 | an even area is shown, over two lines and both fields, no brighter on average than it is and darker by less than a quarter of the step between two colours |
| A64Charset.AdjustedLeast | libavcodec/a64multienc.c:174-182 | the adjustment changes a character by the lesser of its two excesses |
| A64Charset.BitsReadBack | libavcodec/a64multienc.c:149-168 | the codes of a row can be read off its byte, leftmost pixel first |
| A64Charset.OneRedo | libavcodec/a64multienc.c:174-182 | an adjusted character never needs a second adjustment |
| A64Charset.ShowsWhatWasPicked | libavcodec/a64multienc.c:141-190 | although indices 0 and 4 share a two-bit code, code and colour RAM bit give back the index picked for every pixel |
| A64Charset.FinishedShows | libavcodec/a64multienc.c:134-191 | two bits of a charset byte in either field, with the colour RAM bit, give back the index picked for the adjusted pixel at that place |
| A64Charset.RenderPixel | libavcodec/a64multienc.c:141-162 | one pixel's bits in both fields and its share of the sums |
| A64Charset.RenderRow | libavcodec/a64multienc.c:139-171 | one row of both fields |
| A64Charset.RenderChar | libavcodec/a64multienc.c:136-172 | one character is drawn into its rows only |
| A64Charset.Adjust | libavcodec/a64multienc.c:175-181 | the adjustment in place |
| A64Charset.Round | libavcodec/a64multienc.c:136-191 | a round finishes the character or leaves it adjusted and clash-free |
| A64Charset.RenderCharset | libavcodec/a64multienc.c:134-192 | the rewinding loop ends with every character adjusted, drawn from its adjustment, its colour bit set, and draws once more exactly the characters of the code book that clash |
| EightBps.InitSound | libavcodec/8bps.c:154-183 | every layout decode_init chooses on a little-endian machine keeps planes apart and inside the pixel step |
| EightBps.Write | libavcodec/8bps.c:108-119 | bytes written px_inc apart |
| EightBps.ReadRow | libavcodec/8bps.c:98-123 | the packet loop of a row in place, with its wrapping budget, breaks and errors |
| EightBps.ReadPlane | libavcodec/8bps.c:91-124 | the rows of a plane in place |
| EightBps.DecodeFrame | libavcodec/8bps.c:73-125 | the planes of a frame in place, with their errors |
| EightBpsImage.RowRoundTrip | libavcodec/8bps.c:98-123 | a valid row is read back as its pixels and uses exactly its byte budget |
| EightBpsImage.RowsRoundTrip | libavcodec/8bps.c:91-124 | so are the rows of a plane, with their lengths found in the header |
| EightBpsImage.DecodesWhatWasEncoded | libavcodec/8bps.c:73-125 | so is an image, to the last byte of the data |
| EightBpsImage.EveryPixelInPlace | libavcodec/8bps.c:86-125 | pixel x of row r of plane p is decoded to its own place, whatever the other planes are |
| EightBpsImage.ColorsInPlace | libavcodec/8bps.c:86-183 | the planes of an encoded image are red, green, blue and alpha: the bytes of a decoded pixel are those of 0xAARRGGBB, low byte first |
| EightBpsImage.LengthOverrun | libavcodec/8bps.c:98-119 | a packet longer than the rest of its row's length makes the length wrap around, and the row goes on |
| EightBpsImage.TooWideEndsRow | libavcodec/8bps.c:105-115 | a packet too wide for the rest of the row ends it, behind its first byte |
| EightBpsImage.CutShortIsInvalid | libavcodec/8bps.c:73-104 | an encoded image cut short anywhere is an error |
| EightBpsImage.CellIs | libavcodec/8bps.c:92-110 | that place is row * linesize + planemap[p] + x * px_inc |
| EightBpsImage.RowWritesItsPlaces | libavcodec/8bps.c:98-123 | whatever the data, a row writes only its own places |
| EightBpsImage.PlanesApart | libavcodec/8bps.c:86-125 | whatever the data, decoding one plane leaves every pixel of another as it was |

## Left out

- 4XM: I frames, IDCT and colour conversion, the bit reader, the filling of the motion table, which is a parameter, the parsing of a P frame's stream sizes; the word and byte streams are separate sequences.
- VlcTable.ApartAccepted: models the verdict of init_vlc by the regions of the table its entries cover; the entries themselves, the limit on the table's index range and running out of memory are left out, and codes that sort equal keep their order. Codes that overlap only inside a subtable may pass, as the source overwrites entries there; no table of the builder gets that far.
- FourXmTables.TablesDecode: get_vlc2 is taken to find the code that begins the stream among those of the table.
- FourXmChunks.Reassembler.AddChunk: requires a slot that is free or has the id; the source does not check, and HundredFramesBegun reaches a state where there is none. For id 0, which also marks a free slot, it says only that no other frame is touched; AddAll is about chunks of other ids.
- FourXmBlocks.FrameTiles: stated for the frame's own stride, and for the dimensions the decoder requires.
- ffplay: SDL rendering and audio devices, clocks, filters, the read thread's waiting for a full queue, and the redisplay of the last picture, which makes no serial comparison. A section under the packet queue's mutex is one step; serial and packet numbers are unbounded.
- FfplayDecoder.DecNextInv: models the video and audio path; the subtitle decoder, which fills its slot before it decodes, is covered by the frame queue machine only.
- FfplayRing.RingInvKept: a restart waits until no thread is inside a blocking peek, as closing the audio device before reopening it ensures; a queue of one slot has no keep_last, as DeadlocksIff explains.
- FfplaySystem.DecoderEndsSoon: fairness of the scheduler and of SDL mutexes is not modelled.
- The decoder thread is not given as a method: it blocks in the middle of its loop, so only the machine models it.
- do_video_out: the choice of the sync method for VSYNC_AUTO, the computation of the input times and durations, forced key frames and the encoder; counters are those of one stream, where the source shares dup and drop among streams. Doubles are reals.
- FfmpegRate.DriftBound: excludes the frame drop threshold, a frame or time limit and runs that hit the duplicate limit, each of which cuts frames off by design.
- FfmpegRate.Conservation: excludes the two early returns, whose exact effect StepBalance and BalanceOfRun state.
- FfmpegRate.CountersMean: is about runs without the two early returns too; ReportMeans is about one end-of-stream call, after the pictures.
- FfmpegRate.PassThroughAscends: is about runs without a frame or time limit, which drop pictures in these modes.
- write_packet: rescaling to the stream's time base, side data and durations, failing writes, exit_on_error; queue lengths count packets where the source counts bytes of pointers.
- FfmpegMux.DtsAscend: needs a dts on every packet in between, which OrderKeptIff shows to be exact.
- FfmpegMux.HeaderTimeIndependence: is about runs that no full queue ended; encoded video is not counted there, so all its packets are muxed. For a stream whose queue is empty when the header is written the source switches to the stream's own time base; times are taken after that.
- Command line: the platform's conversion of arguments; AVOption lookup is a parameter, and the dictionaries it fills are lists.
- CmdRoundTrip.RoundTrip: needs file groups without a named separator, as in ffmpeg.
- CmdRoundTrip.RoundTripIff: is about option tables whose exit options are global, as all those of the programs are, and in which no -nofoo is an AVOption; UnsteadyLineRoundTrips is why. With other tables RoundTrip still holds, and ReadBackIff for the items.
- A64Charset.GradientReady: takes the gradient over exact reals, where the source truncates a sum of doubles.
- A64Charset.RenderCharset: requires strictly increasing luma values from 0 to at most 255, which the source's comment asks for, and a code book of bytes; the code book search, the frame buffering and the unused non-interlaced drawing are left out.
- EightBpsImage.DecodesWhatWasEncoded: is about rows that fit the line size and whose packets use up their length; for all other data RowWritesItsPlaces and PlanesApart hold.
- 8BPS: the palette, the layouts for big-endian machines, and planes * height * 2 is not taken modulo 2^32.
- 64-bit timestamp overflow, out-of-memory paths and exit_program paths other than the full muxing queue.

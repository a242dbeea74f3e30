# A Dafny model of netc

netc compresses small network packets losslessly. Its encoder and decoder keep state across packets
(a ring of history, the last two packets, adaptive frequency tables, an adaptive LZP table) and never
exchange a synchronisation message, so every part has to be undone exactly and both sides have to
move in lockstep. This project models that core and proves it.

`dafny verify dfyconfig.toml` checks everything.

| module | models |
|---|---|
| `Machine` | bytes, shifts, OR and XOR, little-endian numbers, sums |
| `Bitstream` | the forward bit writer and backward bit reader, as a stack of bits |
| `TansTable`, `TansCoder`, `TansX2` | tANS table construction; the single, per-position, bigram and ten-bit coders; the dual-state coder |
| `Lz77`, `RingHistory` | both LZ77 token formats, their match finders and decoders; the history ring |
| `Filters`, `Simd` | delta of order 1 and 2, the LZP XOR filter; the AVX2 block loops |
| `Contexts` | what bytes are grouped by: LZP slot, previous byte, bucket, bucket and class |
| `Frequencies`, `Adaptive` | exact-sum normalisation, rescaling to ten bits; counters, table rebuild and LZP learning |
| `Voting`, `ClassMap`, `Training`, `Dictionary` | the passes of dictionary training; save and load |
| `Header`, `Connection`, `Competition`, `Context` | packet headers; state and meaning of packets; the codec competition; the context object |
| `History`, `Session` | what a run leaves in a context; two contexts over whole runs |

How it is built. What a coder, a token stream, a packet or a blob means is a function; the loops of the
source are methods over arrays and objects proved equal to it; the theorems are about the functions.
`TansTable` and `TansCoder` are stated once for every table size and odd spread step and used at
(12, 2563) and (10, 643); a `Selector` says which table a coder uses at a position, so one round trip
covers four coders. `Session.Exchange` is the statement over whole runs, `Session.Deploy` the one from
training to delivery.

Where the code does less than its documentation says, the code is modelled and the exact limit proved:

- The dual-state coder. The comment at src/algo/netc_tans.c:235 gives the odd byte as the first one; the
  encoder takes the last one and the decoder the first one. It is lossless on exactly the even lengths
  (`TansX2.LosslessExactlyWhenEven`).
- Compact headers. The type byte keeps the order-2 mark on exactly the PCTX packets
  (`Header.CompactTypeExact`). A lost mark would be harmless exactly when the two previous packets are equal
  (`Filters.MixedOrders`), and then order 2 is not chosen, so such a packet is always decoded to other bytes
  (`Context.Order2Lost`). Without a dictionary the encoder is shown to send such packets: `Session.Lose`.
- Rescaling to ten bits reports success with a sum other than 1024 on some tables; `Frequencies.RescaleExact`
  says on which. The table builder then refuses them, so the encoder falls back to twelve bits.
- Normalisation. The comment at src/core/netc_dict.c:106 gives the rounding to the most frequent symbol; the code
  gives it to the first one with the largest share, which differs when shares tie
  (`Frequencies.NormalizeShape`, `Frequencies.RemainderCanMissMostFrequent`).
- LZP training. The majority and 40% promises hold up to 65536 and 65535 hits per slot, and no further
  (`Training.TrainedMajority`, `Training.TrainingLosesMajority`, `Training.TrainedShare`,
  `Training.TrainingMissesShare`).
- A dictionary blob with a shortened LZP section loads, but what is saved from it is another blob under the
  old checksum (`Dictionary.LoadSave`, `Dictionary.ReloadExact`).

A packet is faithful when it meets the first two limits, and a packet that is not dual state of odd length is
received as sent if and only if it is faithful. `Context.SafeToSend` is what a caller can check beforehand, from
the options and the sizes of a packet and the two before it: it follows the guards of the encoder
(`Competition.X2Possible`, `Competition.Order2Possible`). Safe packets are always faithful. Without a dictionary
the converse holds too: any sizes that are not safe lose a packet (`Session.Lose`), and for a given packet the
exact condition is `Competition.SendsOrder2`. With a dictionary it stays one way, because whether a risky form
wins depends on the trained tables. With a trained dictionary and an arena as large as the packets, what is not
safe is an odd packet of 256 bytes or more after one of the same size with delta, legacy headers and no bigram
mode, and an 8-byte packet after two others with compact headers, delta and adaptive mode. Capacity is at least
the packet plus 8 bytes, as the API documents.

## Model

| member | source | states |
|---|---|---|
| `Session.Exchange` | src/core/netc_compress.c:842-1602 | Two context objects in equal states run the encoder and the decoder on any packets: as long as what was sent is faithful, every packet arrives and the contexts stay equal in ring, prev, prev2, sequence number, counters, tables and LZP model; the first unfaithful packet decodes to other bytes unless it is dual state of odd length; packets that are safe to send are faithful |
| `Session.Deliver` | src/core/netc_decompress.c:456-770 | Any sequence of packets that are safe to send, given the sizes of the two before each, arrives unchanged, and both contexts end in the state computed from the original bytes alone |
| `Session.Deploy` | src/core/netc_dict.c:169-780 | Train, save, load on the other side with anything after the blob, create two contexts, transmit: with a trained dictionary everything arrives except where an odd packet of 256 bytes or more meets no LZP filter first, or compact order-2 residuals of exactly 8 bytes |
| `Session.TrainedSafety` | src/core/netc_compress.c:931-959 | What safe to send comes to with a trained dictionary, as an equivalence |
| `Session.Lose` | src/core/netc_compress.c:886-924 | Without a dictionary safe to send is exact: for every configuration and every three sizes that are not safe, two contexts exchange packets of these sizes, the first two arrive and the third is decoded to other bytes |
| `Session.RampSendsOrder2` | src/core/netc_compress.c:903-923 | On a ramp of any length from 8 on, order 2 has strictly more zeros and its residuals shrink |
| `History.Remembered` | src/core/netc_compress.c:59-71 | After any run, prev and prev2 are the last two packets, in the modes that keep them |
| `History.RingRemembers` | src/core/netc_compress.c:76-98 | After any run from the created state the ring holds the recent part of everything sent, zeros before it |
| `History.RunSequence` | src/core/netc_compress.c:863-863 | After k packets the sequence number is k modulo 256, in every mode |
| `History.RunCounters` | src/algo/netc_adaptive.h:49-71 | After k packets in adaptive mode the rebuild counter is k modulo 128, and every counter is the number of occurrences of its byte in its bucket over all k packets, modulo 2^32 |
| `History.RunTables` | src/algo/netc_adaptive.c:87-137 | After k packets the tables in use are those of the dictionary for k below 128, and then in every bucket the normalised blend of the dictionary with the counts after the first k - k mod 128 packets |
| `History.RunPredictions` | src/algo/netc_lzp.h:262-298 | After any run every slot of the LZP table in use has observed, from the prediction of the dictionary with confidence 4, exactly the bytes of the run that fall in it |
| `Context.Endpoint.constructor` | src/core/netc_ctx.c:28-133 | A created context is valid and in the initial state of its configuration |
| `Context.Endpoint.Reset` | src/core/netc_ctx.c:159-199 | A reset context, whatever it went through, is in exactly the created state |
| `Context.Endpoint.Remember` | src/core/netc_compress.c:59-98 | Ring append, prev/prev2 rotation, sequence number, counters, rebuild and LZP update together are the transition Advance, a function of the original bytes |
| `Context.Endpoint.Compress` | src/core/netc_compress.c:842-1602 | Refuses exactly packets over 65535 bytes, without a state change; otherwise never expands beyond the header (8, or 2 or 4 compact bytes) and advances the state; a receiver in the old state decodes the packet, and to the source if and only if it is faithful; an odd dual-state packet is received as sent only if two coded bytes are equal; without a dictionary the packet is determined byte for byte; with one it is no larger than header and PCTX payload (single table up to 8 bytes) of the filtered source if that is smaller than the source, a tANS packet above half of the source is no larger than LZ77, and the source is sent as it is only if no tANS payload and no LZ77 stream is smaller |
| `Context.Endpoint.Decompress` | src/core/netc_decompress.c:456-770 | Returns what the packet stands for in the receiver's state, never more than the room given; a refused packet changes nothing, an accepted one advances the state from the packet's sequence number |
| `Context.CandidateSent` | src/core/netc_internal.h:595-605 | A candidate behind its header is received exactly as its flags survive the header; no guard lets an unfaithful one through when the packet is safe to send |
| `Context.CandidateReceived` | src/core/netc_decompress.c:456-512 | What Received returns for every candidate, faithful or not |
| `Context.Order2Lost` | src/core/netc_decompress.c:28-46 | An order-2 packet outside PCTX that lost its mark always decodes to bytes other than the packet |
| `Context.DecodePayload` | src/core/netc_decompress.c:501-770 | The algorithm switch agrees with the meaning of a payload on every terminated stream, and yields exactly the announced number of bytes on any stream |
| `Context.DecodeTansPayload` | src/core/netc_decompress.c:313-450 | Single-region decoding, single or dual state: reads the state words and decodes the rest |
| `Context.DecodePctxPayload` | src/core/netc_decompress.c:580-615 | Per-position decoding with the bigram selector exactly when flag and trained tables ask for it |
| `Context.DecodeTenPayload` | src/core/netc_decompress.c:708-743 | Ten-bit decoding rescales and rebuilds the bucket's table and refuses when the rescaled sum misses 1024 |
| `Context.PostPass` | src/core/netc_decompress.c:28-46 | In-place LZP inverse filter followed by in-place delta of the signalled order, through the dispatch table for order 1 |
| `Context.AdaptToPacket` | src/algo/netc_adaptive.h:49-71 | Counting, rebuild at every 128th packet and LZP learning, as one function of the previous models and the bytes |
| `Connection.Advance` | src/core/netc_compress.c:59-98 | Every transition keeps the state invariant: ring size and position, predictors only in the modes that have them, full tables in every bucket |
| `Connection.AdaptNext` | src/algo/netc_adaptive.c:87-137 | Adaptive models stay valid: counters in 32 bits, packet count below 128, every table full |
| `Connection.SelectTableFull` | src/core/netc_compress.c:607-677 | Table selection for a bucket, with the unigram fallback for an untrained bigram table, always gives a table that can code every byte |
| `Connection.SelectIsPick` | src/core/netc_compress.c:607-677 | The single-region coder uses the table the per-position coder would use in that bucket after byte 0 |
| `Connection.TenBitRoundTrip` | src/algo/netc_tans.c:629-868 | A 12-bit table whose rescaling reaches 1024 codes every packet over its symbols in ten bits; any other is refused by builder and decoder |
| `Connection.Refused` | src/core/netc_decompress.c:456-499 | Truncated headers and payloads, packets beyond the room, foreign models, entropy coding without a dictionary and history references without history are refused |
| `Competition.Choose` | src/core/netc_compress.c:842-1602 | On every branch of the codec competition the chosen candidate is the packet itself or strictly smaller, and carries the packet; dual state, and order-2 residuals outside PCTX, occur only under the guards named in X2Possible and Order2Possible; without a dictionary the winner is named; with one the winner is at most the tANS payload of the filtered packet, and passthrough wins only over an incompressible packet |
| `Competition.TansStages` | src/core/netc_compress.c:941-1500 | Both tANS stages fail only when neither the filtered nor the raw or LZP-filtered packet has a smaller tANS payload; residuals survive for the last stage only if no LZP filter replaced them |
| `Competition.PlainChoiceExact` | src/core/netc_compress.c:1502-1583 | Without a dictionary order-2 residuals are sent outside PCTX if and only if they win the trial and shrink under LZ77 |
| `Competition.TansAttempt` | src/core/netc_compress.c:941-1019 | The tANS result on filtered bytes, or the LZP result that replaces delta when smaller: at most either payload, and it carries the packet; from residuals a single table is used only at 8 bytes |
| `Competition.OddCandidate` | src/algo/netc_tans.c:265-324 | If an odd dual-state packet is received as sent, the second and third coded bytes are equal |
| `Competition.X2Payload` | src/core/netc_compress.c:495-556 | The two state words and the stream are read back, so the receiver runs the dual-state decoder on the encoder's result |
| `Competition.FirstAttempt` | src/core/netc_compress.c:941-1316 | tANS on the filtered bytes, delta against LZP, LZ77, cross-packet LZ77 and the ten-bit coder: any winner is smaller than the packet, at most the tANS payload, at most half of the packet or no larger than LZ77, and carries it, although competitors overwrite the arena |
| `Competition.RawAttempt` | src/core/netc_compress.c:1321-1486 | The retry on the packet itself or its LZP-filtered form: a winner at most as large as that tANS payload whenever it is smaller than the packet, carrying the packet |
| `Competition.LzAttempt` | src/core/netc_compress.c:1506-1583 | LZ77 of the packet or its residuals exactly when shorter than the packet, otherwise LZ77 over the history exactly when that is; the winner carries the packet |
| `Competition.Prepare` | src/core/netc_compress.c:886-938 | Delta, order 2 or LZP if and only if the guards of the source and the count of zeros say so; the arena holds the output; order 2 is never chosen when the two previous packets are equal |
| `Competition.DispatchDelta` | src/core/netc_compress.c:896-899 | Whichever implementation the dispatch table holds, the residuals are the same |
| `Competition.MoreZeros` | src/core/netc_compress.c:912-918 | The trial compares the numbers of zero residuals |
| `Competition.UndoFilter` | src/core/netc_decompress.c:28-46 | What the receiver does after decoding undoes whichever pre-filter the flags announce |
| `Competition.TansCandidateCarries` | src/core/netc_compress.c:1276-1303 | Flags and algorithm byte written for a tANS result make the receiver pick the same tables and undo the same filter |
| `Competition.LzCandidateCarries` | src/core/netc_compress.c:1046-1058 | LZ77 of raw bytes or order-1 residuals, sent as flagged passthrough, is received as the packet |
| `Competition.TryTans` | src/core/netc_compress.c:691-836 | Whichever of single table, PCTX and bigram PCTX wins decodes to the input in the mode it reports and is no larger than the per-position payloads that fit; dual state is never used when suppressed |
| `Competition.TrySingleRegion` | src/core/netc_compress.c:607-677 | Exactly the payload of the best bucket, or of bucket 0; it decodes with the table of the reported bucket |
| `Competition.TrySingle` | src/core/netc_compress.c:495-556 | Computes the specified payload: dual state from 256 bytes on when allowed and fitting; it decodes to the input unless it is dual state of odd length |
| `Competition.DualStateFrom256` | src/core/netc_compress.c:495-556 | Dual state is used whenever it is allowed, the packet has 256 bytes and the payload fits |
| `Competition.BestBucket` | src/core/netc_compress.c:607-677 | The first bucket whose trial payload is smallest, or none when no trial fits |
| `Competition.TryPctx` | src/core/netc_compress.c:738-786 | Returns the per-position payload exactly when it fits; it decodes to the input with the same selector |
| `Competition.TryTen` | src/core/netc_compress.c:566-591 | Exactly the ten-bit payload, which exists when the table is rescalable and the stream fits; it decodes on a receiver that rescales the same 12-bit table |
| `Competition.TryTenCandidate` | src/core/netc_compress.c:1243-1268 | The ten-bit payload wins exactly when it exists and is smaller than the 12-bit one, and carries the packet |
| `Competition.PreferLzp` | src/core/netc_compress.c:983-1019 | An LZP encoding replaces a delta encoding when smaller, always up to 256 bytes, and decodes to the LZP-filtered packet |
| `Competition.TryLz` | src/core/netc_compress.c:1036-1146 | Above half of the packet and without delta, LZ77 wins exactly when smaller; a winner carries the packet; order-2 residuals are never sent this way |
| `Competition.TryCross` | src/core/netc_compress.c:1158-1229 | Above half of the packet and with history, cross-packet LZ77 wins exactly when smaller; a winner carries the packet given the same ring |
| `Header.LegacyRoundTrip` | src/core/netc_internal.h:156-175 | Reading a written eight-byte header in front of any payload gives back every field |
| `Header.FlagsRoundTrip` | src/core/netc_internal.h:156-175 | Unpacking the flags byte gives back all eight flags |
| `Header.FlagBits` | include/netc.h:77-111 | The value of every flag bit |
| `Header.CompactTypeExact` | src/core/netc_internal.h:478-544 | Of everything the encoder emits, the compact type byte returns flags and algorithm exactly when the order-2 mark is absent or on a PCTX packet |
| `Header.Order2LostOutsidePctx` | src/core/netc_internal.h:515-541 | Every order-2 packet outside PCTX arrives marked as order 1 and otherwise unchanged |
| `Header.HeaderRoundTrip` | src/core/netc_internal.h:547-605 | Either header form in front of a payload is read back with the right sizes, on both sides of the 127-byte split, and with every flag but an order mark the compact form cannot hold |
| `TansTable.SpreadIsPermutation` | src/algo/netc_tans.c:105-116 | For every odd step the spread visits every slot exactly once: an explicit inverse undoes it on both sides |
| `TansTable.InverseCorrect` | src/algo/netc_tans.c:90-94 | The bit-by-bit inverse of an odd step modulo a power of two is one |
| `TansTable.SlotClosedForm` | src/algo/netc_tans.c:105-116 | After t placements the spread stands at t times the step, modulo the table size |
| `TansTable.EntriesFit` | src/algo/netc_tans.c:131-147 | Every decode entry keeps the next state in [size, 2 size) whatever bits follow, names a symbol of positive frequency and fits 16 bits |
| `TansTable.StepInverse` | src/algo/netc_tans.c:78-147 | The slot an encode step reaches has a decode entry with the same symbol, the same bit count, and a base that rebuilds the old state from the flushed bits |
| `TansTable.ReducedRange` | src/algo/netc_tans.c:78-88 | Removing the chosen number of bits leaves a state in [f, 2f) whose own bit count is that number |
| `TansTable.SymbolAtUnique` | src/algo/netc_tans.c:106-116 | A placement belongs to the one symbol whose cumulative block contains it |
| `TansTable.Build` | src/algo/netc_tans.c:50-151 | Accepts exactly the frequency tables that sum to the table size and fills the tables the frequencies determine, 12-bit and 10-bit alike |
| `TansTable.TableSpread` | src/algo/netc_tans.c:105-147 | The k-th occurrence of a symbol sits at its cumulative place times the step, modulo the table size, with the entry that brings freq + k into the state range |
| `TansTable.SpreadSteps` | src/algo/netc_tans.c:90-94 | 2563 and 643 are five eighths of the table sizes plus three |
| `TansTable.BuildDecode` | src/algo/netc_tans.c:127-147 | The second spread pass writes, in every slot, the entry of the placement that reaches it |
| `TansTable.BuildEncodeStates` | src/algo/netc_tans.c:105-116 | The first spread pass stores the slot of every placement in rank order |
| `TansTable.BuildEncodeEntries` | src/algo/netc_tans.c:78-88 | Encode entries per symbol, with zeros for absent symbols |
| `Machine.FloorLog2Loop` | src/algo/netc_tans.c:37-41 | The shift loop computes the position of the highest set bit |
| `Machine.FnvVectors` | src/algo/netc_lzp.h:62-69 | Three published FNV-1a values |
| `TansCoder.UnstepStep` | src/algo/netc_tans.c:186-201 | One decode step undoes one encode step on state and bits together |
| `TansCoder.RoundTripFrom` | src/algo/netc_tans.c:515-617 | From any position on, the decoder, which picks each table from the byte it just decoded, picks the tables the backward encoder picked from the source, and returns the source |
| `TansCoder.RoundTrip` | src/algo/netc_tans.c:166-617 | Every encodable packet decodes from its state and flushed bytes to itself, for single table, PCTX, bigram PCTX with fallback, and ten bits |
| `TansCoder.RoundTripEnds` | src/algo/netc_tans.c:166-204 | Decoding ends in the lowest state with no bits left |
| `TansCoder.EncodedSize` | src/algo/netc_tans.c:166-204 | A stream has at most the sum of the rounded-up logarithms of table size over frequency, in bytes, plus one, and at least one bit per symbol less |
| `TansCoder.Encode` | src/algo/netc_tans.c:419-561 | The backward loop over the writer computes the encoding; it stops at absent symbols and on a full buffer only |
| `TansCoder.EncodeSymbol` | src/algo/netc_tans.c:210-225 | One step through the stored entries equals the specified step, with the failure condition of the writer |
| `TansCoder.Decode` | src/algo/netc_tans.c:365-500 | After one range check every later state stays in [size, 2 size) on any stream and any table switching; on a terminated stream the result is the specified decoding |
| `TansCoder.DecodeSymbol` | src/algo/netc_tans.c:376-404 | One decode step from the stored entries, reading only when bits are asked for |
| `TansCoder.EncodeStream` | src/algo/netc_tans.c:166-204 | Encode and flush succeed exactly when the packet is non-empty, encodable and its stream fits |
| `TansCoder.DecodeStream` | src/algo/netc_tans.c:833-868 | Decoding a byte string: exact on terminated streams, refused for empty packets and states out of range |
| `TansX2.EvenRoundTrip` | src/algo/netc_tans.c:249-350 | Two interleaved states decode every even packet |
| `TansX2.PairsRoundTrip` | src/algo/netc_tans.c:249-350 | Pairs pushed as state 1 then state 0 are popped as state 0 then state 1 |
| `TansX2.OddDecodesThirdByte` | src/algo/netc_tans.c:265-324 | On an odd packet the second decoded byte is the third source byte |
| `TansX2.LosslessExactlyWhenEven` | src/algo/netc_tans.c:249-350 | With two symbols present, all packets of a length from 2 on round-trip if and only if the length is even |
| `TansX2.EncodeX2Stream` | src/algo/netc_tans.c:249-281 | Succeeds exactly from two bytes on and when the stream fits; states and bytes are the specified ones |
| `TansX2.DecodeX2Stream` | src/algo/netc_tans.c:292-350 | Both states checked once, output of the announced length, exact on terminated streams |
| `Bitstream.StackLaw` | src/util/netc_bitstream.h:61-228 | For any writes of values within their widths, flushing and reading the widths in reverse returns the values in reverse, and one more read fails |
| `Bitstream.WriteFlushRead` | src/util/netc_bitstream.h:44-228 | The stack law of a writer and a reader object: succeeds exactly when the bytes fit, gives back every value in reverse order of reading, and one more read fails |
| `Bitstream.PopPush` | src/util/netc_bitstream.h:61-74 | What is pushed last is on top and popping it restores the stack |
| `Bitstream.OfBytesToBytes` | src/util/netc_bitstream.h:86-192 | The sentinel makes the flushed bytes decode to exactly the bits written, at every width |
| `Bitstream.BitWriter.Write` | src/util/netc_bitstream.h:61-74 | The accumulator write pushes the value and fails exactly when a full word no longer fits |
| `Bitstream.BitWriter.Flush` | src/util/netc_bitstream.h:86-98 | Leaves the specified bytes, and fails exactly when they do not fit |
| `Bitstream.BitReader.constructor` | src/util/netc_bitstream.h:141-192 | Loading the tail and dropping padding and sentinel leaves exactly the stack the bytes stand for |
| `Bitstream.BitReader.Read` | src/util/netc_bitstream.h:199-228 | The window read pops the stack, fails exactly on underflow, and always returns a value below 2^nb |
| `Bitstream.HighestBitOfByte` | src/util/netc_bitstream.h:126-132 | The byte lookup is the floor of log2 |
| `Lz77.Encode` | src/core/netc_compress.c:215-290 | The hash-table encoder returns the greedy parse with the most recent position of the same hash, exactly when that stream is shorter than the packet and fits; the stream expands to the packet |
| `Lz77.EncodeCross` | src/core/netc_compress.c:334-465 | The same for every packet and every ring, with ring matches when strictly longer: exactly when shorter and fitting, and expanding to the packet with the same ring and position, wrapped and overlapping matches included |
| `Lz77.RunShrinks` | src/core/netc_compress.c:215-290 | The greedy parse of any run of six bytes or more is shorter than the run |
| `Lz77.RunBytes` | src/core/netc_compress.c:215-290 | The four bytes of any run of 4 to 131: a literal and a reference one byte back |
| `Lz77.FindsInRing` | src/core/netc_compress.c:413-433 | The match is at least as long as any agreement with the most recent hashed ring position of the same hash, at offsets up to 65536 |
| `Lz77.FindsInPacket` | src/core/netc_compress.c:400-411 | The match is at least as long as any agreement with the most recent position of the same hash up to 256 bytes back, and longer than that when it is in the ring |
| `Lz77.FoundIsReal` | src/core/netc_compress.c:396-433 | Every match found names bytes equal to those at the position, within the limits of its token |
| `Lz77.RepeatShrinks` | src/core/netc_compress.c:334-465 | A packet of 3 to 66 bytes that repeats the last one, with its first hash unique in it, becomes exactly one three-byte reference |
| `Lz77.Hash3Vector` | src/core/netc_compress.c:206-213 | The published FNV-1a value of "foo", folded to both table sizes |
| `Lz77.Decode` | src/core/netc_decompress.c:142-248 | On any byte string the token loops return exactly what it stands for, and nothing for malformed streams or another size |
| `Lz77.DecodeToken` | src/core/netc_decompress.c:142-248 | One token in place: literals, overlapping copy, wrapped ring copy, and each rejection |
| `Lz77.CopyWithin` | src/core/netc_decompress.c:156-160 | The in-place byte copy repeats its own output when it overlaps |
| `Lz77.CopyBackMatch` | src/core/netc_compress.c:215-290 | A match of the source against itself, even an overlapping one, is reproduced by copying back |
| `Lz77.BestMatch` | src/core/netc_compress.c:396-433 | The longest agreement with each candidate within offset and length limits, the ring only when strictly longer; a reported match is real |
| `Lz77.HashSkipped` | src/core/netc_compress.c:268-270 | After a match the table again finds the most recent position of every hash |
| `Lz77.EmitMatch` | src/core/netc_compress.c:435-448 | Literals and reference are appended and stand for the matched bytes; it gives up only when the stream is too long |
| `Lz77.HashRing` | src/core/netc_compress.c:347-365 | Every slot holds the most recent of the hashed ring positions with its hash |
| `Lz77.FlushLiterals` | src/core/netc_compress.c:228-237 | Pending literals leave as runs of at most 128, or the encoder gives up |
| `Lz77.ParseExtend` | src/core/netc_decompress.c:142-173 | A stream extended by further tokens is parsed from where it stopped |
| `RingHistory.RingIsRecentHistory` | src/core/netc_compress.c:76-98 | After any sequence of appends, longer ones than the ring included, the byte k back is the k-th most recent byte of the whole history, zeros before it |
| `RingHistory.AppendHolds` | src/core/netc_decompress.c:111-130 | One append keeps the ring equal to the recent history |
| `RingHistory.RingBuffer.AppendBytes` | src/core/netc_compress.c:76-98 | The two copies and the position update, in place, are the specified append |
| `RingHistory.RingBuffer.Reset` | src/core/netc_ctx.c:163-166 | Zeros and position 0 |
| `Filters.DeltaRoundTrip` | src/algo/netc_delta.h:68-168 | Delta of either order is undone for every packet and history, in all four field regions |
| `Filters.ZeroResidual` | src/algo/netc_delta.h:68-143 | A residual is zero exactly where the byte repeats the previous packet, or for order 2 continues its last step |
| `Filters.MixedOrders` | src/algo/netc_delta.h:127-168 | Residuals decode alike under both orders if and only if the two packets before are equal |
| `Filters.RegionLaw` | src/algo/netc_delta.h:68-143 | XOR below 16 and from 64 to 255, wrapping subtraction elsewhere |
| `Filters.EncodeDelta` | src/algo/netc_delta.h:68-143 | The residual loops of both orders compute the specified residuals at every length |
| `Filters.DecodeDeltaInPlace` | src/algo/netc_delta.h:99-168 | Decoding over its own residuals gives the specified packet |
| `Filters.LzpRoundTrip` | src/algo/netc_lzp.h:208-247 | The XOR filter is undone for every packet and every table |
| `Filters.UnfilterInjective` | src/algo/netc_lzp.h:234-247 | Different filtered packets stand for different packets |
| `Filters.SameResiduals` | src/algo/netc_delta.h:68-143 | With equal packets before it a packet has the same residuals in both orders |
| `Filters.ZeroFiltered` | src/algo/netc_lzp.h:208-220 | A filtered byte is zero exactly when the slot of previous byte and offset predicted it |
| `Filters.LzpSlotVector` | src/algo/netc_lzp.h:62-69 | The slot of byte 102 at offset 111, from a published FNV-1a value |
| `Filters.FilterLzp` | src/algo/netc_lzp.h:208-220 | The filter loop computes the specified bytes for every table |
| `Filters.UnfilterLzpInPlace` | src/algo/netc_lzp.h:234-247 | Unfiltering source and destination in one buffer gives the specified packet |
| `Adaptive.ObserveRun` | src/algo/netc_lzp.h:262-298 | A prediction of confidence k survives exactly k - 1 misses in a row, then the slot predicts the new byte |
| `Adaptive.ObserveVote` | src/algo/netc_lzp.h:262-298 | Every occurrence of a byte moves a slot one step towards it, every other byte at most one step away, until the counter saturates |
| `Adaptive.ObserveMajority` | src/algo/netc_lzp.h:262-298 | A slot that starts empty predicts the strict majority of up to 255 hits; a prediction of confidence k takes a majority of k more to replace |
| `Adaptive.LearnLzp` | src/algo/netc_lzp.h:262-298 | Every slot has observed exactly the bytes of the packet that fall in it, in order |
| `Frequencies.NormalizeExact` | src/core/netc_dict.c:110-163 | For every histogram every symbol gets at least 1, a seen symbol at least its share, and the sum is exactly 4096 |
| `Frequencies.NormalizeShape` | src/core/netc_dict.c:126-152 | Every symbol but one gets exactly 1 and its share, an unseen one exactly 1, and the first symbol with the largest share takes the remainder |
| `Frequencies.LargestShareExists` | src/core/netc_dict.c:143-148 | There always is a first symbol with the largest share |
| `Frequencies.NormalizeEmpty` | src/core/netc_dict.c:119-124 | Without counts every symbol gets 16 |
| `Frequencies.RemainderToFrequent` | src/core/netc_dict.c:143-152 | The symbol that takes the remainder is within total/3840 of the most frequent one, and is the most frequent up to 3840 counted bytes |
| `Frequencies.RemainderCanMissMostFrequent` | src/core/netc_dict.c:143-152 | 41000 counted bytes where the remainder goes to a symbol that is not the most frequent |
| `Frequencies.BonusProportional` | src/core/netc_dict.c:135-139 | Up to totals whose product with 3840 fits 64 bits a share is the proportional one |
| `Frequencies.NormalizeCounts` | src/algo/netc_adaptive.c:28-81 | The two normalisers compute it, 64-bit products included; the branch for a sum above 4096 is dead |
| `Frequencies.RescaleExact` | src/algo/netc_tans.c:629-694 | Absent symbols stay at 0, present ones at 1 or more, and the sum is 1024 if and only if the largest symbol absorbs the error or enough others exceed 1 |
| `Frequencies.RescaleShape` | src/algo/netc_tans.c:665-691 | When the first most frequent symbol absorbs the error no other moves; otherwise it keeps 1, others lose at most one slot, and earlier ones first |
| `Frequencies.ScaleNearest` | src/algo/netc_tans.c:645-664 | A quarter of the frequency, rounded to nearest with halves up, at least 1 |
| `Frequencies.RescaleCanMiss` | src/algo/netc_tans.c:679-688 | 245 symbols at 1, ten at 350 and one at 351: reported as success with another sum than 1024 |
| `Frequencies.RescaleTable` | src/algo/netc_tans.c:629-694 | The scaling and trimming loops compute the specified table and refuse only a wrong input sum |
| `Frequencies.TrimLoop` | src/algo/netc_tans.c:679-688 | The reduction pass takes the excess from the first reducible symbols |
| `Adaptive.RebuiltTableFull` | src/algo/netc_adaptive.c:87-137 | Whatever the counters hold, every rebuilt table is valid for every byte value |
| `Adaptive.Rebuild` | src/algo/netc_adaptive.c:87-137 | Blend, normalise and build for all buckets; the fallback to the dictionary table is never taken |
| `Adaptive.BlendWeights` | src/algo/netc_adaptive.c:105-125 | Three parts count to one part dictionary frequency scaled to the bucket, up to one rounding |
| `Adaptive.BlendUnseen` | src/algo/netc_adaptive.c:116-119 | A bucket without counts keeps the dictionary frequencies |
| `Adaptive.BlendFits` | src/algo/netc_adaptive.c:28-137 | Blended counts times the budget stay below 64 bits |
| `Adaptive.Count` | src/algo/netc_adaptive.h:49-71 | Every counter advances by the occurrences of its byte among the bytes of its bucket, every total by the size of the bucket, modulo 2^32 |
| `Voting.MajorityLearned` | src/core/netc_dict.c:366-452 | Up to 65536 hits a strict majority byte of a slot with two or more hits becomes its valid prediction, saturating counters included |
| `Voting.TallyBounds` | src/core/netc_dict.c:390-397 | The invariant of the saturating vote up to 65536 hits |
| `Training.TrainingLosesMajority` | src/core/netc_dict.c:380-446 | 65537 one-byte training packets, most of them 7, after which the slot predicts 9: the bound is sharp |
| `Voting.ValidShare` | src/core/netc_dict.c:416-446 | A slot is valid if and only if it was hit twice and the winner of the vote has 40% of the hits, counting at most 65535 of them |
| `Training.TrainingMissesShare` | src/core/netc_dict.c:416-446 | 65536 one-byte training packets that leave a valid prediction below 40%: the bound is sharp |
| `Training.TrainedMajority` | src/core/netc_dict.c:380-446 | The majority law for every slot of a table trained on any packets |
| `Training.TrainedShare` | src/core/netc_dict.c:416-446 | The 40% law for every slot of a table trained on any packets |
| `Training.TrainLzp` | src/core/netc_dict.c:366-452 | Two passes over cut packets and the validity test give every slot what the bytes that fall in it determine |
| `Training.VotePass` | src/core/netc_dict.c:380-399 | After pass 1 every slot holds the vote over exactly its own hits, in order |
| `Training.VerifyPass` | src/core/netc_dict.c:416-429 | After pass 2 the saturating counters hold each slot's hits and those of its candidate |
| `Training.CountGroups` | src/core/netc_dict.c:484-504 | Byte counts and totals of every bucket, bucket and class, or previous byte |
| `Training.CountSegments` | src/core/netc_dict.c:200-241 | The histogram by contiguous segments through the dispatched counter equals the byte-by-byte one |
| `Training.SegmentsAreBuckets` | src/core/netc_dict.c:206-211 | The segment table cuts packets exactly where the bucket of the coders changes |
| `Training.TrainSegments` | src/core/netc_dict.c:331-341 | First-pass tables: the build never fails |
| `Training.TrainClassMap` | src/core/netc_dict.c:243-302 | Peaks, sort and cut give the class map the packets determine |
| `Training.PeakFollowsMost` | src/core/netc_dict.c:257-278 | The peak of a byte is the one that follows it most often in the cut packets, the lowest among equals, 0 when nothing follows it |
| `Training.TrainTables` | src/core/netc_dict.c:507-521 | Histogram, normalise, build for every group; the build never fails |
| `Training.TrainedTableFull` | src/core/netc_dict.c:507-521 | A trained table can code every byte, seen in training or not |
| `ClassMap.SortByPeak` | src/core/netc_dict.c:280-293 | The in-place insertion sort lists every byte value once, by peak and stably |
| `ClassMap.Divide` | src/core/netc_dict.c:295-301 | Eight classes of exactly 32 values, in the order of the peaks |
| `ClassMap.ClassMapUnique` | src/core/netc_dict.c:280-301 | Class sizes and order leave only one possible map |
| `Dictionary.SaveLoad` | src/core/netc_dict.c:590-780 | Load of a saved dictionary gives back an equal one, rebuilt tables included, if and only if its checksum is that of its body; bytes after the blob are ignored |
| `Dictionary.LoadSave` | src/core/netc_dict.c:657-780 | Saving a loaded dictionary gives back the loaded bytes if and only if the blob has no LZP section or a full one |
| `Dictionary.ReloadExact` | src/core/netc_dict.c:657-780 | When a loaded dictionary survives another save and load |
| `Dictionary.Save` | src/core/netc_dict.c:590-651 | Walking the offset through the buffer writes the specified blob, for versions 3 to 5 |
| `Dictionary.BlobSizes` | src/core/netc_dict.c:40-76 | Blob sizes and section offsets of versions 3 to 5 |
| `Dictionary.LoadBlob` | src/core/netc_dict.c:657-780 | On any byte string: the two error kinds in the order of the checks, or the dictionary the blob describes |
| `Dictionary.Train` | src/core/netc_dict.c:169-584 | Refuses exactly the reserved model ids; otherwise a dictionary fit for both sides, with the tables of the filtered packets and the checksum of its own blob |
| `Dictionary.TrainedOk` | src/core/netc_dict.c:454-523 | Every trained dictionary meets what compression and saving need |
| `Dictionary.TrainedInContext` | src/core/netc_dict.c:454-523 | At every offset and after every byte, the coder uses the normalised counts of exactly that context in the filtered, cut packets, and the LZP filter the entry learned from it |
| `Dictionary.TrainingDetermined` | src/core/netc_dict.c:169-584 | Training is a function of the packets |
| `Simd.EncodeAvx2` | src/simd/netc_simd_avx2.c:47-118 | The 32- and 16-byte block loops with scalar tails equal the per-byte delta for every length |
| `Simd.DecodeAvx2InPlace` | src/simd/netc_simd_avx2.c:120-189 | The same in place for decoding |
| `Simd.CountAvx2` | src/simd/netc_simd_avx2.c:197-224 | Four partial histograms merge to the plain byte count, modulo 2^32 |
| `Simd.CountGeneric` | src/simd/netc_simd_generic.c:207-212 | The scalar histogram counts occurrences, modulo 2^32 |
| `Simd.CountsTotal` | src/simd/netc_simd_avx2.c:197-224 | The counts of all byte values total the length |

## Left out

- Context.Endpoint.Compress: with a dictionary the packet is bounded but not determined, so safe to send is enough but not needed there; for a dual-state packet of odd length only one direction is stated, that delivery needs two equal coded bytes; what else it needs depends on every later state of both coders.
- Context.Endpoint.Decompress: RLE passthrough and MREG packets, which no encoder in the repository produces, are refused instead of decoded; error codes are merged into one refusal.
- Context.DecodePayload: the same packets are refused, and on a stream without a sentinel only the length of the output is stated.
- Context.DecodeTansPayload: only the length of the output on a stream without a sentinel, as explained for Bitstream.BitReader.constructor.
- Context.DecodePctxPayload: the same.
- Context.DecodeTenPayload: the same.
- Bitstream.BitReader.constructor: on a stream without a sentinel the refill of the source shifts by 64 bits or more, which C leaves undefined; the model truncates, and states only memory safety and value ranges there.
- TansCoder.Decode: on such a stream only the length and the state range.
- TansCoder.DecodeSymbol: on such a stream only the state range.
- TansCoder.DecodeStream: on such a stream only the length.
- TansX2.DecodeX2Stream: on such a stream only the length.
- TansCoder.Encode: the 12-bit single-table encoder has no test for absent symbols and would read outside its table, so they are excluded by its precondition; every table of a trained dictionary contains all symbols.
- TansCoder.EncodeStream: the same precondition.
- Competition.Choose: with a dictionary the winner is bounded but not named; two ratio heuristics (symbol diversity, prefix similarity) are arbitrary choices, so the contract holds for any of them; payloads are values, not regions of one output buffer.
- Lz77.FlushLiterals: encoder output is a growing sequence with the source's capacity checks, not a preallocated buffer.
- Lz77.HashRing: positions are unbounded integers; rings of 2 GiB and more, where 32-bit positions wrap, are not captured.
- Simd.EncodeAvx2: a vector operation is the byte-wise map over its block.
- Frequencies.NormalizeCounts: totals are below 2^64, the range of the counter.
- Training.TrainTables: at most 2^48 training packets, so that the 64-bit byte counters cannot wrap.
- Dictionary.Train: the same bound.
- Dictionary.Save: the CRC is any function of the bytes; its polynomial is not modelled.
- The stateless API (netc_compress_stateless, netc_decompress_stateless): other entry points to the same coders.
- rle_encode, netc_lzp_predict and netc_lzp_reconstruct: not used by the compression pipeline.
- The SSE4.2 and NEON files and CPU detection: the same region loops over other intrinsics.
- Statistics, NULL arguments, allocation failure, undersized output buffers, version and error strings: single-branch facts.
- Hosts that are not little-endian.
- bench/, sdk/ and tests/.

# Verified model of the RTSP demo's own algorithms

The repository is an RTSP/RTP demo. This project models the parts of it that compute something:
the JRTPLIB hash tables with their double linking and cursor, the image kernels of `GdImageLib`,
the RTCP source-description reader and the size accounting of the compound packet builder, the
frame queue `CCycleQueue`, the time arithmetic of `RTPTime`, the RTSP line splitter and the report
block accessors. `dafny verify dfyconfig.toml` checks the whole project.

| file | modules | what it models |
|---|---|---|
| `Bytes.dfy` | `Bytes` | the unsigned machine integers, and how words stand in a byte buffer |
| `Sequences.dfy` | `Sequences` | subsequences and prefixes |
| `KeyHashTable.dfy` | `TableSpec`, `KeyHashTable` | `RTPKeyHashTable`: heap nodes in a bucket chain and in a global list, a cursor, and the insertion-ordered map they stand for |
| `HashTable.dfy` | `HashTable` | `RTPHashTable`, the same structure with elements as keys and its own error codes |
| `ImageFlip.dfy` | `Blocks`, `ImageFlip` | `Flip`, `Mirror`, `FlipAndMirror` on a flat buffer |
| `ToneMap.dfy` | `OrderStatistics`, `ToneMap` | the two 16-to-8-bit tone maps |
| `Sdes.dfy` | `SdesFormat`, `SdesReader` | section 6.5 of RFC 3550 and `RTCPSDESPacket` |
| `CompoundBuilder.dfy` | `Packets`, `CompoundBuilder` | `Report`, `SDESSource` and `SDES` of the compound packet builder |
| `CycleQueue.dfy` | `Rings`, `CycleQueue`, `QueueInterleaving` | the ring, the class, and its critical sections under interleaving |
| `RtpTime.dfy` | `RtpTime` | `RTPTime`, `RTPNTPTime`, the performance-counter clock |
| `LineSplitter.dfy` | `LineSplitter` | `getLineData` |
| `ReportPackets.dfy` | `ReportPackets` | the getters of `RTCPRRPacket` and `RTCPSRPacket` |

Conventions. Integers are unbounded; where the width of a machine integer matters it is written out
(`Wrap32`, `Wrap64`, byte and word types). `GetIndex` of the tables is an arbitrary function into the
naturals, so the error return for an index that is too large is modelled; the instance in
`rtpsources.h` is `ssrc % 8317`. The table's constructor and `Clear` do not set `curhashelem`; the
ghost cursor is `Unset` after them and the cursor operations ask for a cursor that a `Goto` call has
set. The tone map computes with real numbers in place of `float`; the conversions between
microseconds and NTP fractions use exact real arithmetic and the floor. The double arithmetic of the
source gives the same results: a fraction is either whole or at least 1/15625 away from a whole
number, and the way back is exact in a double. In the interleaved queue a critical section is one
step, and the queue was initialised before the run starts.

Six promises do not hold on all inputs. For each the exact condition is proved:

- the divisor of the tone map is positive for every image of n samples if and only if n < 2304 or
  n >= 4607; in between, zeros followed by 2303 ones make it 0 (`DivisorPositiveIff`);
- the signed and the unsigned tone map are defined and agree on every image of n > 0 samples if and
  only if n is one of those sizes and brightness is at most 0, or n >= 4607 and contrast is at least
  100 (`SignedAgreesIff`);
- `NeededBytesWithExtraSource` is exact if and only if the builder already has a source; for the first
  source it answers 0 where 12 bytes are needed (`ExtraSourceExactIff`);
- `GetFront` reads a queued frame in every interleaving of pushes, checks and reads if and only if
  there is at most one consumer. That stays so when `Clear` is called only while no consumer is between
  its check and its read; when it may be called at any time, every interleaving is safe if and only if
  there is no consumer at all (`SafeIff`);
- the conversion to NTP keeps the order of two times if and only if both are in the same NTP era
  (`ToNtpMonotoneIff`); the conversion back keeps it always (`FromNtpMonotone`);
- the split form in `CalculateMicroseconds` is exact for every count whose result fits 64 bits if and
  only if (f - 1) * 1000000 fits 64 bits (`SplitExactIff`).

## Model

| member | source | states |
|---|---|---|
| KeyHashTable.ChainSplit | RTSP_Demo/include/rtpkeyhashtable.h:125-141 | taking an element out of the list takes exactly that element out of its own bucket chain and leaves every other chain as it was |
| KeyHashTable.ChainSnoc | RTSP_Demo/include/rtpkeyhashtable.h:282-286 | a new list element becomes the head of its own bucket and enters no other |
| KeyHashTable.ChainInjective | RTSP_Demo/include/rtpkeyhashtable.h:98-101 | no element occurs twice in a bucket |
| KeyHashTable.ChainsDisjoint | RTSP_Demo/include/rtpkeyhashtable.h:98-101 | no element is in two buckets |
| KeyHashTable.KeyHashTable.constructor | RTSP_Demo/include/rtpkeyhashtable.h:105-115 | an empty table that satisfies the invariant, cursor unset |
| KeyHashTable.KeyHashTable.GotoFirstElement | RTSP_Demo/include/rtpkeyhashtable.h:59 | cursor on the oldest entry, off the list when there is none; entries unchanged |
| KeyHashTable.KeyHashTable.GotoLastElement | RTSP_Demo/include/rtpkeyhashtable.h:60 | cursor on the newest entry, off the list when there is none; entries unchanged |
| KeyHashTable.KeyHashTable.HasCurrentElement | RTSP_Demo/include/rtpkeyhashtable.h:61 | true exactly when the cursor is on an entry |
| KeyHashTable.KeyHashTable.GetCurrentElement | RTSP_Demo/include/rtpkeyhashtable.h:63 | the element of the entry under the cursor |
| KeyHashTable.KeyHashTable.GetCurrentKey | RTSP_Demo/include/rtpkeyhashtable.h:64 | the key of the entry under the cursor |
| KeyHashTable.KeyHashTable.GotoNextElement | RTSP_Demo/include/rtpkeyhashtable.h:220-225 | cursor on the next entry in insertion order, off the list after the last |
| KeyHashTable.KeyHashTable.GotoPreviousElement | RTSP_Demo/include/rtpkeyhashtable.h:227-232 | cursor on the previous entry, off the list before the first |
| KeyHashTable.KeyHashTable.FindInBucket | RTSP_Demo/include/rtpkeyhashtable.h:183-191 | the walk of one bucket ends, and it finds an element exactly when the whole table has the key |
| KeyHashTable.KeyHashTable.HasElement | RTSP_Demo/include/rtpkeyhashtable.h:197-218 | true exactly for keys in the table whose index is in range |
| KeyHashTable.KeyHashTable.GotoElement | RTSP_Demo/include/rtpkeyhashtable.h:173-195 | each error code exactly in its case; on success the cursor is on the entry with the key, on a missing key it is off the list; entries unchanged |
| KeyHashTable.KeyHashTable.AddElement | RTSP_Demo/include/rtpkeyhashtable.h:253-302 | appends the entry exactly when the key is absent and its index valid; otherwise the right error code and nothing changes; the invariant is kept |
| KeyHashTable.KeyHashTable.LinkBucket | RTSP_Demo/include/rtpkeyhashtable.h:282-286 | the node is relinked at the head of its chain, all other buckets keep their heads |
| KeyHashTable.KeyHashTable.LinkList | RTSP_Demo/include/rtpkeyhashtable.h:290-300 | the node is linked at the end of the list, first and last pointers are right |
| KeyHashTable.KeyHashTable.UnlinkBucket | RTSP_Demo/include/rtpkeyhashtable.h:125-141 | the chain around the element is closed again |
| KeyHashTable.KeyHashTable.UnlinkNode | RTSP_Demo/include/rtpkeyhashtable.h:145-162 | the list around the element is closed again, first and last pointers are right, the successor is returned |
| KeyHashTable.KeyHashTable.DeleteCurrentElement | RTSP_Demo/include/rtpkeyhashtable.h:117-171 | removes exactly the entry under the cursor and moves the cursor to its successor; with no current element an error and no change; the invariant is kept |
| KeyHashTable.KeyHashTable.DeleteElement | RTSP_Demo/include/rtpkeyhashtable.h:304-313 | removes exactly the entry with the key; each error code exactly in its case, entries unchanged then |
| KeyHashTable.KeyHashTable.Clear | RTSP_Demo/include/rtpkeyhashtable.h:234-251 | an empty table that satisfies the invariant; the walk over the list ends |
| KeyHashTable.KeyHashTable.ValidMeansConsistent | RTSP_Demo/include/rtpkeyhashtable.h:97-103 | every table that satisfies the invariant has distinct keys and a cursor in range |
| KeyHashTable.KeyHashTable.BucketsPartition | RTSP_Demo/include/rtpkeyhashtable.h:97-103 | each element is once in the bucket its key hashes to and in no other bucket |
| TableSpec.FindAt | RTSP_Demo/include/rtpkeyhashtable.h:173-195 | with distinct keys a lookup finds the one entry with the key |
| TableSpec.FindAbsent | RTSP_Demo/include/rtpkeyhashtable.h:197-218 | a failed lookup means no entry has the key |
| TableSpec.ToMapKeys | RTSP_Demo/include/rtpkeyhashtable.h:173-218 | a lookup in the list answers as the finite map does, for presence and for the element |
| TableSpec.AppendIsInsert | RTSP_Demo/include/rtpkeyhashtable.h:253-302 | appending an absent key is insertion into the finite map the table stands for |
| TableSpec.RemoveIsDelete | RTSP_Demo/include/rtpkeyhashtable.h:304-313 | removing the entry of a key is removal from that map and keeps the keys distinct |
| TableSpec.SweepTheorem | RTSP_Demo/include/rtpkeyhashtable.h:117-232 | after n rounds of a sweep the survivors of the first n entries are followed by the untouched rest, with the cursor on its first entry |
| TableSpec.SurvivorsAreTheKept | RTSP_Demo/include/rtpkeyhashtable.h:117-232 | the survivors are a subsequence, and an entry survives exactly when it was not deleted |
| KeyHashTable.Sweep | RTSP_Demo/include/rtpkeyhashtable.h:117-232 | a sweep on the heap structure ends, visits every entry once in insertion order, and leaves exactly the survivors |
| HashTable.HashTable.HasElement | RTSP_Demo/include/rtphashtable.h:194-215 | true exactly for elements in the table whose index is in range |
| HashTable.HashTable.GotoElement | RTSP_Demo/include/rtphashtable.h:170-192 | each error code exactly in its case; on success the cursor is on the element |
| HashTable.HashTable.AddElement | RTSP_Demo/include/rtphashtable.h:250-299 | appends the element exactly when it is absent and its index valid |
| HashTable.HashTable.DeleteCurrentElement | RTSP_Demo/include/rtphashtable.h:114-168 | removes exactly the element under the cursor and moves on to its successor |
| HashTable.HashTable.DeleteElement | RTSP_Demo/include/rtphashtable.h:301-310 | removes exactly that element and leaves the cursor on its successor; each error code exactly in its case, with the cursor off the list for a missing element and unchanged for a bad index |
| ImageFlip.Memcpy | RTSP_Demo/GdImageLib.cpp:205-207 | copies between regions that do not overlap and changes nothing else |
| ImageFlip.ReverseInPlace | RTSP_Demo/GdImageLib.cpp:203-208 | swapping blocks from both ends reverses their order in place, and every copy is between disjoint regions |
| ImageFlip.Flip | RTSP_Demo/GdImageLib.cpp:197-211 | the rows come out in reverse order; bytes behind the image are untouched |
| ImageFlip.Mirror | RTSP_Demo/GdImageLib.cpp:213-232 | the pixels of each row come out in reverse order; bytes behind the image are untouched |
| ImageFlip.FlipAndMirror | RTSP_Demo/GdImageLib.cpp:234-241 | the flat sequence of all pixels is reversed, bytes within a pixel kept in order |
| Blocks.ReverseBlockAt | RTSP_Demo/GdImageLib.cpp:203-208 | block p of a reversed buffer is block n-1-p of the buffer |
| Blocks.MirrorRowAt | RTSP_Demo/GdImageLib.cpp:219-229 | row i of a mirrored image is row i of the image with its pixels reversed |
| Blocks.ReverseInvolution | RTSP_Demo/GdImageLib.cpp:197-241 | flipping twice, or half a turn twice, gives the image back |
| Blocks.MirrorInvolution | RTSP_Demo/GdImageLib.cpp:213-232 | mirroring twice gives the image back |
| Blocks.FlipThenMirror | RTSP_Demo/GdImageLib.cpp:234-241 | flip then mirror is the reversal of all pixels, for every width, height and pixel size |
| Blocks.MirrorThenFlip | RTSP_Demo/GdImageLib.cpp:234-241 | mirror then flip is the same reversal |
| Blocks.HalfTurn | RTSP_Demo/GdImageLib.cpp:234-241 | the two orders commute |
| OrderStatistics.SortCorrect | RTSP_Demo/GdImageLib.cpp:16-52 | the reference order is sorted and a permutation of the samples |
| OrderStatistics.RankIsSorted | RTSP_Demo/GdImageLib.cpp:33-52 | a value is the k-th of the sorted samples exactly when fewer than k samples are below it and at least k are below the next value |
| ToneMap.BuildHistogram | RTSP_Demo/GdImageLib.cpp:16-24 | each bin counts the samples of its value |
| ToneMap.ScanUp | RTSP_Demo/GdImageLib.cpp:33-41 | the scan stops at the 2304th smallest sample of the sorted image; 0 when there are fewer |
| ToneMap.ScanDown | RTSP_Demo/GdImageLib.cpp:43-52 | the scan stops at the 2304th largest sample; 0 when there are fewer |
| ToneMap.ApplyMap | RTSP_Demo/GdImageLib.cpp:65-80 | every output byte is the clamped, truncated affine value of its sample; bytes behind are untouched |
| ToneMap.Map16BitTo8BitUnsigned | RTSP_Demo/GdImageLib.cpp:9-81 | the whole unsigned map: early return without effect, otherwise each byte is the truncated and clamped quotient of integers that brightness, contrast and the two order statistics of the input give |
| ToneMap.ToneExact | RTSP_Demo/GdImageLib.cpp:61-67 | for settings of 0 to 100 the value before the cast is 256 b (100 v - c lo) / (10000 (hi - lo + 1)) |
| ToneMap.ToneSaturates | RTSP_Demo/GdImageLib.cpp:54-58 | a setting above 100 acts as 100, one below 0 as 0 |
| ToneMap.ToneIsExactByte | RTSP_Demo/GdImageLib.cpp:54-80 | a byte is the output for a sample exactly when it is that quotient, cut to 0..255 and rounded down, also for a negative divisor |
| ToneMap.Map16BitTo8Bit | RTSP_Demo/GdImageLib.cpp:86-158 | the whole signed map, with the same bytes stated for samples of -32768 to 32767 |
| ToneMap.ThresholdsOrdered | RTSP_Demo/GdImageLib.cpp:28-52 | with fewer than 2304 or at least 4607 samples the lower threshold does not exceed the upper |
| ToneMap.DivisorCanVanish | RTSP_Demo/GdImageLib.cpp:61 | for every other sample count an image on which the divisor is 0 |
| ToneMap.DivisorPositiveIff | RTSP_Demo/GdImageLib.cpp:26-61 | the divisor is positive for all images of n samples exactly when n < 2304 or n >= 4607 |
| ToneMap.CastFits | RTSP_Demo/GdImageLib.cpp:67 | the value cast to int is at most 2^25 in size, for every brightness, contrast and nonzero divisor |
| ToneMap.ToneMonotone | RTSP_Demo/GdImageLib.cpp:54-80 | brighter samples never give darker bytes, for every brightness and contrast |
| ToneMap.MapAllMonotone | RTSP_Demo/GdImageLib.cpp:9-81 | over a whole image of a safe size the map keeps the order of the samples, for every brightness and contrast |
| ToneMap.BlackBelowLo | RTSP_Demo/GdImageLib.cpp:61-72 | at full contrast samples up to the lower threshold are black, whatever the brightness |
| ToneMap.WhiteAboveHiIff | RTSP_Demo/GdImageLib.cpp:61-75 | at 100/100 all samples from the upper threshold on are white exactly when the thresholds are at least 255 apart |
| ToneMap.SortShift | RTSP_Demo/GdImageLib.cpp:97-129 | sorting commutes with moving all samples by a constant, so the thresholds move with the samples |
| ToneMap.ToneShift | RTSP_Demo/GdImageLib.cpp:138-144 | at full contrast the tone depends only on distances |
| ToneMap.SignedAgreesIff | RTSP_Demo/GdImageLib.cpp:86-158 | exactly when the two variants are defined and agree on all images of n samples |
| Bytes.FromBigEndian | RTSP_Demo/include/rtcpsdespacket.h:202-210 | the first of the four bytes counts most |
| Bytes.BigEndianRoundTrip | RTSP_Demo/include/rtcpsdespacket.h:202-210 | network byte order of a 32-bit word is undone by reading it back |
| SdesFormat.ChunkLayout | RTSP_Demo/include/rtcpsdespacket.h:184-210 | a chunk is its SSRC, its items and then zeros only |
| SdesFormat.ParseItems | RTSP_Demo/include/rtcpsdespacket.h:225-244 | serialised items parse to exactly the items written, ending at the zero |
| SdesFormat.ParseChunks | RTSP_Demo/include/rtcpsdespacket.h:162-200 | serialised chunks parse to exactly the chunks written, wherever they stand |
| SdesFormat.ChunkSize | RTSP_Demo/include/rtcpsdespacket.h:184-196 | in any well-formed buffer the step to the next chunk is the serialised size of the chunk's content |
| SdesReader.ChunkLength | RTSP_Demo/include/rtcpsdespacket.h:184-195 | the item walk ends, stays inside the buffer and yields the padded size of the chunk |
| SdesReader.SDESPacket.GetChunkCount | RTSP_Demo/include/rtcpsdespacket.h:154-160 | the number of chunks of the packet, which is the low five bits of the first byte; 0 for an unknown format |
| SdesReader.CountField | RTSP_Demo/include/rtcpsdespacket.h:154-160 | a first byte of 64 version + 32 padding + count announces count chunks |
| SdesReader.SDESPacket.GotoFirstChunk | RTSP_Demo/include/rtcpsdespacket.h:162-173 | true exactly when there is a chunk, which is then current with its first item |
| SdesReader.SDESPacket.GotoNextChunk | RTSP_Demo/include/rtcpsdespacket.h:175-200 | true exactly when there is a next chunk, which is then current; otherwise nothing changes |
| SdesReader.SDESPacket.CurrentIsChunk | RTSP_Demo/include/rtcpsdespacket.h:175-210 | the bytes at the chunk cursor are chunk number curchunknum of the packet |
| SdesReader.SDESPacket.GetChunkSSRC | RTSP_Demo/include/rtcpsdespacket.h:202-210 | the SSRC of the current chunk, 0 without one |
| SdesReader.SDESPacket.GotoFirstItem | RTSP_Demo/include/rtcpsdespacket.h:212-223 | true exactly when the current chunk has items; the first is then current |
| SdesReader.SDESPacket.GotoNextItem | RTSP_Demo/include/rtcpsdespacket.h:225-244 | true exactly when there is a next item, which is then current; otherwise nothing changes |
| SdesReader.SDESPacket.GetItemType | RTSP_Demo/include/rtcpsdespacket.h:246-277 | each of the types CNAME to PRIV exactly for the identifiers 1 to 8, Unknown exactly above 8, None exactly without an item |
| SdesReader.SDESPacket.GetItemLength | RTSP_Demo/include/rtcpsdespacket.h:279-289 | the length of the current item's data, 0 without an item |
| SdesReader.SDESPacket.GetItemData | RTSP_Demo/include/rtcpsdespacket.h:291-301 | points at exactly the current item's data, null without an item |
| SdesReader.PrivSplit | RTSP_Demo/include/rtcpsdespacket.h:304-379 | a consistent PRIV item is its prefix length, prefix and value: 1 + prefix + value = length |
| SdesReader.SDESPacket.GetPRIVPrefixLength | RTSP_Demo/include/rtcpsdespacket.h:304-320 | the first data byte of an item with identifier 8 if it fits the item, otherwise 0 |
| SdesReader.SDESPacket.GetPRIVPrefixData | RTSP_Demo/include/rtcpsdespacket.h:322-340 | points at exactly the prefix, null when there is none |
| SdesReader.SDESPacket.GetPRIVValueLength | RTSP_Demo/include/rtcpsdespacket.h:342-358 | what is left of such an item after its prefix, otherwise 0 |
| SdesReader.SDESPacket.GetPRIVValueData | RTSP_Demo/include/rtcpsdespacket.h:360-379 | points at exactly the value, null when there is none |
| SdesReader.ReadItems | RTSP_Demo/include/rtcpsdespacket.h:212-301 | the walk over the items of a chunk ends and yields all of them in order |
| SdesReader.ReadAll | RTSP_Demo/include/rtcpsdespacket.h:162-301 | the walk over a packet ends and yields every SSRC, the type that belongs to every identifier, and all item data, in order |
| SdesReader.RoundTrip | RTSP_Demo/include/rtcpsdespacket.h:154-379 | a packet whose header bits announce the chunks written after it is well formed, and its chunks are those |
| SdesReader.ReadWritten | RTSP_Demo/include/rtcpsdespacket.h:154-301 | a client that walks over a written packet sees exactly the chunks written |
| SdesReader.ChunkAdvance | RTSP_Demo/include/rtcpsdespacket.h:184-196 | the distance between chunk k and its successor is the serialised size of chunk k |
| Packets.SplitCorrect | RTSP_Demo/include/rtcpcompoundpacketbuilder.h:316-321 | the greedy split loses nothing, fills no packet beyond 31 and makes as many packets as the arithmetic counts |
| Packets.SplitMinimal | RTSP_Demo/include/rtcpcompoundpacketbuilder.h:316-321 | no split into packets of at most 31 needs fewer packets |
| CompoundBuilder.ReportNeedIsPackets | RTSP_Demo/include/rtcpcompoundpacketbuilder.h:186-194 | the arithmetic for a list of blocks is the size of the packets they are greedily split into, and no other split is smaller |
| CompoundBuilder.Report.NeededIsPackets | RTSP_Demo/include/rtcpcompoundpacketbuilder.h:174-196 | a started report needs exactly the bytes of its greedily split packets, a multiple of 4, and no other distribution of its blocks needs fewer |
| CompoundBuilder.Report.ExtraBlockExact | RTSP_Demo/include/rtcpcompoundpacketbuilder.h:198-211 | the prediction is the size of the packets of the list with one more block, and more than a started report needs now |
| CompoundBuilder.Report.Clear | RTSP_Demo/include/rtcpcompoundpacketbuilder.h:161-172 | an unstarted report without blocks, which needs no bytes |
| CompoundBuilder.SourceSize | RTSP_Demo/include/rtcpcompoundpacketbuilder.h:236-245 | SDESSource::NeededBytes is the length of the chunk written for the source |
| CompoundBuilder.SDESSource.AddItem | RTSP_Demo/include/rtcpcompoundpacketbuilder.h:258-263 | appends the item and keeps totalitemsize equal to the total length |
| CompoundBuilder.SourceIsChunk | RTSP_Demo/include/rtcpcompoundpacketbuilder.h:236-245 | a source with encoded items is written as the chunk of section 6.5 of RFC 3550 |
| CompoundBuilder.ReaderAgreesWithBuilder | RTSP_Demo/include/rtcpcompoundpacketbuilder.h:236-263 | the reader's step over a chunk is the builder's need for the same items, a multiple of 4 |
| CompoundBuilder.SDES.AddSSRC | RTSP_Demo/include/rtcpcompoundpacketbuilder.h:286-295 | appends an empty source, which becomes the current one |
| CompoundBuilder.SDES.AddItem | RTSP_Demo/include/rtcpcompoundpacketbuilder.h:297-303 | adds the item to the last source; an error and no change without sources |
| CompoundBuilder.SDES.Clear | RTSP_Demo/include/rtcpcompoundpacketbuilder.h:277-284 | no sources, although the source iterator is left where it was |
| CompoundBuilder.SDES.NeededBytes | RTSP_Demo/include/rtcpcompoundpacketbuilder.h:305-323 | the loop sums the chunks of all sources and adds a header for each packet; 0 without sources |
| CompoundBuilder.SdesNeedIsPackets | RTSP_Demo/include/rtcpcompoundpacketbuilder.h:305-323 | that need is the size of the greedily split packets, and no other split is smaller |
| CompoundBuilder.SDES.NeededBytesWithExtraItem | RTSP_Demo/include/rtcpcompoundpacketbuilder.h:325-344 | 0 without sources; otherwise the loop up to the current source computes the need after adding any item of that length |
| CompoundBuilder.ExtraItemExact | RTSP_Demo/include/rtcpcompoundpacketbuilder.h:325-344 | on a non-empty builder the prediction is the need after adding an item of that length with its 2-byte header |
| CompoundBuilder.SDES.NeededBytesWithExtraSource | RTSP_Demo/include/rtcpcompoundpacketbuilder.h:346-368 | 0 without sources; otherwise the loop computes the need after adding any source |
| CompoundBuilder.ExtraSourceExactIff | RTSP_Demo/include/rtcpcompoundpacketbuilder.h:346-368 | the prediction is the need after AddSSRC exactly when the builder is not empty |
| CompoundBuilder.ReportOnTheWire | RTSP_Demo/include/rtcpcompoundpacketbuilder.h:174-196 | the size counted for a report packet is the length of such a packet, and the packet reader gets sender, count and blocks back from it |
| CompoundBuilder.SdesOnTheWire | RTSP_Demo/include/rtcpcompoundpacketbuilder.h:305-323 | the size counted for a source description packet is the length of such a packet, and the reader gets the chunks back from it |
| Rings.PushRefines | RTSP_Demo/CycleQueue.cpp:59-71 | a push appends to the queue; the ring is full exactly at its capacity and then drops its oldest value |
| Rings.PopRefines | RTSP_Demo/CycleQueue.cpp:90-95 | a pop of a non-empty ring delivers and removes the oldest value |
| Rings.PopOfEmpty | RTSP_Demo/CycleQueue.cpp:90-95 | a pop of an empty ring makes it look full |
| CycleQueue.CycleQueue.InitQueue | RTSP_Demo/CycleQueue.cpp:22-44 | an empty queue of the requested capacity, or of 8, or failure for frames of more than 8818688 bytes |
| CycleQueue.CycleQueue.DestroyQueue | RTSP_Demo/CycleQueue.cpp:148-160 | a queue without storage |
| CycleQueue.CycleQueue.PushBack | RTSP_Demo/CycleQueue.cpp:49-76 | rejects a wrong frame size without effect; otherwise appends, and drops the oldest frame with nRs = 1 exactly at capacity; the new state is the step used in the interleaved model |
| CycleQueue.CycleQueue.GetFront | RTSP_Demo/CycleQueue.cpp:81-98 | delivers and removes the oldest frame exactly when there is one |
| CycleQueue.CycleQueue.IsEmpty | RTSP_Demo/CycleQueue.cpp:103-106 | true exactly when no frame is queued |
| CycleQueue.CycleQueue.Size | RTSP_Demo/CycleQueue.cpp:122-143 | the number of queued frames |
| CycleQueue.CycleQueue.Clear | RTSP_Demo/CycleQueue.cpp:111-117 | no queued frames; the new state is the step used in the interleaved model |
| QueueInterleaving.PushStep | RTSP_Demo/CycleQueue.cpp:49-76 | a push keeps the history law: contents are a suffix of the accepted frames, accepted = delivered + dropped + cleared + queued, delivered frames are a subsequence of the accepted ones |
| QueueInterleaving.ClearStep | RTSP_Demo/CycleQueue.cpp:111-117 | a clear keeps the history law |
| QueueInterleaving.ReadStep | RTSP_Demo/CycleQueue.cpp:88-97 | a read of a non-empty ring delivers the oldest frame and keeps the history law |
| QueueInterleaving.SingleConsumerStep | RTSP_Demo/CycleQueue.cpp:81-117 | with at most one consumer a successful check stays valid until the read, whatever is pushed in between, unless a clear comes in between |
| QueueInterleaving.SingleConsumerRun | RTSP_Demo/CycleQueue.cpp:49-143 | every run of any length of pushes, checks, reads and clears with one consumer and any producers is safe and keeps the history law, when no clear comes between a check and its read |
| QueueInterleaving.RaceIsUnsafe | RTSP_Demo/CycleQueue.cpp:81-98 | with two consumers a run without a clear leads to a read of an empty ring, after which Size() answers the capacity |
| QueueInterleaving.ClearRaceIsUnsafe | RTSP_Demo/CycleQueue.cpp:81-117 | with one consumer a clear between its check and its read leads to the same |
| QueueInterleaving.SafeIff | RTSP_Demo/CycleQueue.cpp:81-117 | all runs without a clear, and all runs whose clears come while no consumer is between check and read, are safe exactly when there is at most one consumer; all runs with clears at any time exactly when there is none |
| RtpTime.MicrosThroughNtp | RTSP_Demo/include/rtptimeutilities.h:151-154 | microseconds come back from NTP unchanged when 15625 divides them, one less otherwise |
| RtpTime.EpochOffsets | RTSP_Demo/include/rtptimeutilities.h:52 | by the Gregorian calendar the NTP offset is the time from 1900 to 1970 and the file-time offset that from 1601 to 1970 |
| RtpTime.DaysBetweenIs | RTSP_Demo/include/rtptimeutilities.h:52 | days counted year by year with the leap rule are the closed form |
| RtpTime.NtpSeconds | RTSP_Demo/include/rtptimeutilities.h:140-156 | both conversions move the seconds by 70 years of which 17 are leap years, modulo 2^32 one way and cut at 0 the other |
| RtpTime.NtpRoundTrip | RTSP_Demo/include/rtptimeutilities.h:140-156 | what every normalised time becomes through NTP, and exactly which times are restored |
| RtpTime.FractionThroughMicros | RTSP_Demo/include/rtptimeutilities.h:265-276 | an NTP fraction loses at most 4295 units through microseconds and never gains |
| RtpTime.ToNtpMonotoneIff | RTSP_Demo/include/rtptimeutilities.h:265-276 | the conversion to NTP keeps the order of two normalised times exactly when both are in the same NTP era |
| RtpTime.FromNtpMonotone | RTSP_Demo/include/rtptimeutilities.h:140-156 | the conversion from NTP keeps the order of any two NTP times |
| RtpTime.RTPTime.AddAssign | RTSP_Demo/include/rtptimeutilities.h:253-263 | the new value with all 32-bit wrap-arounds, also when the operand is the object itself |
| RtpTime.RTPTime.SubtractAssign | RTSP_Demo/include/rtptimeutilities.h:241-251 | the new value with all 32-bit wrap-arounds, also when the operand is the object itself |
| RtpTime.PlusFields | RTSP_Demo/include/rtptimeutilities.h:253-263 | both fields of the sum of any two times, normalised or not |
| RtpTime.MinusFields | RTSP_Demo/include/rtptimeutilities.h:241-251 | both fields of the difference of any two times, normalised or not |
| RtpTime.PlusMeaning | RTSP_Demo/include/rtptimeutilities.h:253-263 | += adds microseconds modulo 2^32 seconds and keeps times normalised |
| RtpTime.MinusMeaning | RTSP_Demo/include/rtptimeutilities.h:241-251 | -= subtracts microseconds modulo 2^32 seconds and keeps times normalised |
| RtpTime.PlusMinusInverse | RTSP_Demo/include/rtptimeutilities.h:241-263 | += and -= undo each other |
| RtpTime.ComparisonMeaning | RTSP_Demo/include/rtptimeutilities.h:278-309 | the comparisons compare whole microseconds |
| RtpTime.SplitIdentity | RTSP_Demo/include/rtptimeutilities.h:160-168 | quotient and remainder give the floor of a * 1000000 / f |
| RtpTime.SplitIsExact | RTSP_Demo/include/rtptimeutilities.h:160-168 | no 64-bit operation overflows for a safe frequency and a result that fits |
| RtpTime.SplitExactIff | RTSP_Demo/include/rtptimeutilities.h:160-168 | the frequencies for which that is so, exactly |
| RtpTime.MicrosMonotone | RTSP_Demo/include/rtptimeutilities.h:160-168 | more counts never give fewer microseconds |
| RtpTime.EmulatedClock.CurrentTime | RTSP_Demo/include/rtptimeutilities.h:170-199 | the first call fixes frequency, wall time and start count; every call returns the reading they give, which is not before the previous one when the emulated microseconds advance |
| RtpTime.EmulatedClock.CounterAdvances | RTSP_Demo/include/rtptimeutilities.h:160-199 | they advance when the counter does not go back and nothing overflows |
| RtpTime.ClockNeverGoesBack | RTSP_Demo/include/rtptimeutilities.h:170-199 | readings are normalised, are the start time plus the elapsed microseconds, and never go back |
| LineSplitter.Locate | RTSP_Demo/RTSPProtocol.cpp:245-266 | the scan finds the row between its line ends; the copy size is non-negative exactly when the row exists or there is no line end |
| LineSplitter.GetLineData | RTSP_Demo/RTSPProtocol.cpp:243-269 | copies exactly the row and changes nothing else |
| LineSplitter.EndsApart | RTSP_Demo/RTSPProtocol.cpp:251-266 | line ends do not overlap |
| LineSplitter.RowCount | RTSP_Demo/RTSPProtocol.cpp:251-266 | rendered lines have one line end each |
| LineSplitter.RowsAreLines | RTSP_Demo/RTSPProtocol.cpp:243-269 | for lines without CRLF, row k of the rendered text is line k with its CRLF, and there are as many rows as lines |
| LineSplitter.RowsRebuild | RTSP_Demo/RTSPProtocol.cpp:243-269 | for any buffer, its rows together are the buffer up to its last line end |
| ReportPackets.SignExtend | RTSP_Demo/include/rtcprrpacket.h:164-168 | the three bytes, the first one counting most, read as a signed 24-bit number |
| ReportPackets.ReportPacket.GetSenderSSRC | RTSP_Demo/include/rtcprrpacket.h:121-128 | the word at offset 4, 0 for an unknown format |
| ReportPackets.ReportPacket.GetReceptionReportCount | RTSP_Demo/include/rtcprrpacket.h:129-135 | the low five bits of the first byte, 0 for an unknown format |
| ReportPackets.ReportPacket.GetSSRC | RTSP_Demo/include/rtcprrpacket.h:143-149 | the word at the start of the block, 0 for an unknown format |
| ReportPackets.ReportPacket.GetFractionLost | RTSP_Demo/include/rtcprrpacket.h:151-157 | byte 4 of the block, 0 for an unknown format |
| ReportPackets.ReportPacket.GetLostPacketCount | RTSP_Demo/include/rtcprrpacket.h:159-169 | bytes 5 to 7 of the block as a signed 24-bit number, 0 for an unknown format |
| ReportPackets.ReportPacket.GetExtendedHighestSequenceNumber | RTSP_Demo/include/rtcprrpacket.h:171-177 | the word at byte 8 of the block, 0 for an unknown format |
| ReportPackets.ReportPacket.GetJitter | RTSP_Demo/include/rtcprrpacket.h:179-185 | the word at byte 12 of the block, 0 for an unknown format |
| ReportPackets.ReportPacket.GetLSR | RTSP_Demo/include/rtcprrpacket.h:187-193 | the word at byte 16 of the block, 0 for an unknown format |
| ReportPackets.ReportPacket.GetDLSR | RTSP_Demo/include/rtcprrpacket.h:195-201 | the word at byte 20 of the block, 0 for an unknown format |
| ReportPackets.LostRoundTrip | RTSP_Demo/include/rtcprrpacket.h:159-169 | every 24-bit signed loss count survives its encoding |
| ReportPackets.ReportRoundTrip | RTSP_Demo/include/rtcprrpacket.h:137-201 | for every index the seven getters return the fields of the block written there |
| ReportPackets.PacketRoundTrip | RTSP_Demo/include/rtcprrpacket.h:120-201 | in a whole packet of either kind the getters return the sender, the number of blocks and every block that was written |
| ReportPackets.SenderReportIsShiftedReceiverReport | RTSP_Demo/include/rtcpsrpacket.h:183-247 | a sender report shows the blocks of the receiver report left when its sender info is cut out |

## Left out

- KeyHashTable.KeyHashTable.GetCurrentElement: returns the value; changing the element or key through the returned reference is not modelled, a changed key would break the table.
- KeyHashTable.KeyHashTable.Clear: the freeing of nodes is not modelled, only that the walk that frees them ends; out-of-memory returns are not modelled.
- HashTable.HashTable.AddElement: the class is modelled on top of the keyed table with the element as key and no second component, because the two headers have the same statements; its cursor moves and Clear are those of the keyed table.
- ToneMap.Map16BitTo8Bit: computes with real numbers; rounding of `float` is not modelled. A divisor of 0, which leads to an undefined cast, is excluded by the precondition of both variants.
- ToneMap.Map16BitTo8BitUnsigned: the same two restrictions as for Map16BitTo8Bit.
- ToneMap.ApplyMap: multiplies and adds real numbers in place of `float`; a product that rounds across a whole number can give a neighbouring byte.
- ToneMap.WhiteAboveHiIff: exact in real numbers; `float` rounding next to the value 255 is not covered.
- ToneMap.ToneShift: exact in real numbers; in `float` the two products round differently for different samples.
- ToneMap.SignedAgreesIff: exact in real numbers, so agreement means agreement before `float` rounding.
- CycleQueue.CycleQueue.PushBack: a slot holds the frame's bytes as one value; the unused rest of a slot is not modelled.
- QueueInterleaving.SafeIff: the public InitQueue, which replaces the storage, and the destruction of the queue are not steps of a run.
- CycleQueue.CycleQueue.GetFront: the frame is returned as a value instead of being copied into the caller's buffer.
- ImageFlip.Flip: negative widths and heights and 32-bit overflow of the image size are not modelled.
- SdesReader.SDESPacket.GetChunkCount: the parser that decides whether a format is known has no body in the repository; a known format is taken to mean that all announced chunks are complete.
- CompoundBuilder.Report.NeededIsPackets: the code that starts a report and pushes blocks has no body in the repository; a started report is one whose header length is that of an SSRC, with sender info for a sender report, and every block has the 24 bytes of a report block.
- `RTPTime(double)`, `GetDouble`, `Wait` and the mirrored operators `>` and `>=`: conversions of no further interest, sleeping, and repetitions.
- The sender-info getters of `RTCPSRPacket`: four more words at fixed offsets.
- `RTCPCompoundPacket` parsing, `EndBuild`, sessions, transmitters, sources and schedulers: declared in the headers, bodies not part of the repository.
- FFmpeg wrappers, sockets, threads, mutex internals and system clocks: outside calls; a lock is one step, a clock value is an input.
- `sscanf` and `sprintf` use in the request analysers and the fixed response texts.
- Palettes, bitmap headers, parameter holders, address classes and debug dumps: data or trivial getters.

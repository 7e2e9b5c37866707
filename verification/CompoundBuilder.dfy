// The size accounting of RTCPCompoundPacketBuilder: what Report, SDESSource and SDES say they
// need, against the packets that have to be written (sections 6.4 and 6.5 of RFC 3550).

/** Splitting a list into packets of at most 31 entries. */
module Packets {

  const MAX_PER_PACKET: nat := 31

  /** The packet count as the source computes it: n / 31, one more for a remainder. */
  function PacketCount(n: nat): (d: nat) {
    n / 31 + if n % 31 != 0 then 1 else 0
  }

  /** Greedy split: full packets first, the rest in the last one. */
  function Split<T>(s: seq<T>): (groups: seq<seq<T>>)
    decreases |s|
  {
    if |s| == 0 then []
    else if |s| <= MAX_PER_PACKET then [s]
    else [s[..MAX_PER_PACKET]] + Split(s[MAX_PER_PACKET..])
  }

  ghost function Join<T>(groups: seq<seq<T>>): (s: seq<T>) {
    if groups == [] then [] else groups[0] + Join(groups[1..])
  }

  /** A way to distribute s over packets. */
  ghost predicate IsSplit<T>(groups: seq<seq<T>>, s: seq<T>) {
    Join(groups) == s && forall i :: 0 <= i < |groups| ==> |groups[i]| <= MAX_PER_PACKET
  }

  lemma {:induction false} SplitCorrect<T>(s: seq<T>)
    ensures IsSplit(Split(s), s)
    ensures |Split(s)| == PacketCount(|s|) == (|s| + 30) / 31
    decreases |s|
  {
    if 0 < |s| <= MAX_PER_PACKET {
      assert Join([s]) == s + Join([]);
    } else if |s| > MAX_PER_PACKET {
      var rest := s[MAX_PER_PACKET..];
      SplitCorrect(rest);
      assert Split(s)[1..] == Split(rest);
      assert s == s[..MAX_PER_PACKET] + rest;
    }
  }

  lemma {:induction false} JoinBound<T>(groups: seq<seq<T>>)
    requires forall i :: 0 <= i < |groups| ==> |groups[i]| <= MAX_PER_PACKET
    ensures |Join(groups)| <= MAX_PER_PACKET * |groups|
  {
    if groups != [] {
      JoinBound(groups[1..]);
    }
  }

  /** No distribution over packets of at most 31 entries needs fewer packets. */
  lemma SplitMinimal<T>(groups: seq<seq<T>>, s: seq<T>)
    requires IsSplit(groups, s)
    ensures |groups| >= |Split(s)|
  {
    JoinBound(groups);
    SplitCorrect(s);
  }
}

module CompoundBuilder {
  import opened Bytes
  import opened SdesFormat
  import opened Packets
  import opened Sequences
  import ReportPackets
  import SdesReader

  const NO_CURRENT_SOURCE: int := -40
  const COMMON_HEADER: nat := 4
  const SENDER_INFO: nat := 20
  const REPORT_BLOCK: nat := 24

  function SumLengths(buffers: seq<seq<byte>>): (n: nat) {
    if buffers == [] then 0 else SumLengths(buffers[..|buffers| - 1]) + |buffers[|buffers| - 1]|
  }

  // ----- sender and receiver reports -----

  /** The bytes in front of a packet's report blocks: header and SSRC, sender info in the first
      packet of a sender report. */
  function ReportHead(isSR: bool): nat {
    COMMON_HEADER + 4 + if isSR then SENDER_INFO else 0
  }

  /** The bytes of the report packets that hold the groups of blocks: only the first packet can be a
      sender report. */
  ghost function ReportBytes(isSR: bool, groups: seq<seq<seq<byte>>>): nat {
    if groups == [] then 0
    else ReportHead(isSR) + SumLengths(groups[0]) + ReportBytes(false, groups[1..])
  }

  /** The greedy distribution of report blocks; a report without blocks is one packet too. */
  ghost function ReportSplit(blocks: seq<seq<byte>>): seq<seq<seq<byte>>> {
    if blocks == [] then [[]] else Split(blocks)
  }

  ghost predicate AreBlocks(blocks: seq<seq<byte>>) {
    forall i :: 0 <= i < |blocks| ==> |blocks[i]| == REPORT_BLOCK
  }

  lemma {:induction false} BlockLengths(blocks: seq<seq<byte>>)
    requires AreBlocks(blocks)
    ensures SumLengths(blocks) == |blocks| * REPORT_BLOCK
  {
    if blocks != [] {
      BlockLengths(blocks[..|blocks| - 1]);
    }
  }

  lemma SumLengthsSnoc(items: seq<seq<byte>>, buf: seq<byte>)
    ensures SumLengths(items + [buf]) == SumLengths(items) + |buf|
  {
    assert (items + [buf])[..|items|] == items;
  }

  lemma {:induction false} SumLengthsConcat(s: seq<seq<byte>>, t: seq<seq<byte>>)
    ensures SumLengths(s + t) == SumLengths(s) + SumLengths(t)
  {
    if t == [] {
      assert s + t == s;
    } else {
      var front, last := t[..|t| - 1], t[|t| - 1];
      assert t == front + [last] && s + t == (s + front) + [last];
      SumLengthsSnoc(front, last);
      SumLengthsSnoc(s + front, last);
      SumLengthsConcat(s, front);
    }
  }

  /** However the blocks are distributed, the packets take the blocks, a head each, and the sender
      info once. */
  lemma {:induction false} ReportBytesOfSplit(isSR: bool, groups: seq<seq<seq<byte>>>)
    requires groups != []
    ensures ReportBytes(isSR, groups)
            == SumLengths(Join(groups)) + |groups| * (COMMON_HEADER + 4) + if isSR then SENDER_INFO else 0
  {
    var rest := groups[1..];
    SumLengthsConcat(groups[0], Join(rest));
    if rest != [] {
      ReportBytesOfSplit(false, rest);
    }
  }

  /** The arithmetic of Report: the bytes for n > 0 blocks. */
  function BlocksNeed(isSR: bool, n: nat): nat {
    n * REPORT_BLOCK + PacketCount(n) * (COMMON_HEADER + 4) + if isSR then SENDER_INFO else 0
  }

  lemma BlocksNeedAligned(isSR: bool, n: nat)
    ensures BlocksNeed(isSR, n) % 4 == 0
  {
    assert BlocksNeed(isSR, n) == 4 * (6 * n + 2 * PacketCount(n) + if isSR then 5 else 0);
  }

  /** It counts the bytes of the greedily split packets, and no other way to distribute the blocks
      over packets of at most 31 takes fewer. */
  lemma ReportNeedIsPackets(isSR: bool, blocks: seq<seq<byte>>, groups: seq<seq<seq<byte>>>)
    requires blocks != [] && AreBlocks(blocks) && IsSplit(groups, blocks)
    ensures BlocksNeed(isSR, |blocks|) == ReportBytes(isSR, Split(blocks))
    ensures ReportBytes(isSR, Split(blocks)) <= ReportBytes(isSR, groups)
  {
    SplitCorrect(blocks);
    SplitMinimal(groups, blocks);
    BlockLengths(blocks);
    ReportBytesOfSplit(isSR, Split(blocks));
    ReportBytesOfSplit(isSR, groups);
  }

  /** A report that has no blocks yet. */
  lemma EmptyReport(isSR: bool, groups: seq<seq<seq<byte>>>)
    requires groups != [] && Join(groups) == []
    ensures ReportBytes(isSR, [[]]) == ReportHead(isSR) <= ReportBytes(isSR, groups)
  {
    ReportBytesOfSplit(isSR, [[]]);
    ReportBytesOfSplit(isSR, groups);
  }

  class Report {
    var isSR: bool
    var headerlength: nat
    var reportblocks: seq<seq<byte>>

    /** A report has been started: its header holds the SSRC, and the sender info for an SR. */
    predicate Started()
      reads this
    {
      headerlength == 4 + if isSR then SENDER_INFO else 0
    }

    constructor ()
      ensures !isSR && headerlength == 0 && reportblocks == []
    {
      isSR := false;
      headerlength := 0;
      reportblocks := [];
    }

    method Clear()
      modifies this
      ensures !isSR && headerlength == 0 && reportblocks == [] && NeededBytes() == 0
    {
      reportblocks := [];
      isSR := false;
      headerlength := 0;
    }

    function NeededBytes(): (x: nat)
      reads this
    {
      var n := |reportblocks|;
      if n == 0 then
        if headerlength == 0 then 0 else COMMON_HEADER + headerlength
      else BlocksNeed(isSR, n)
    }

    function NeededBytesWithExtraReportBlock(): (x: nat)
      reads this
    {
      BlocksNeed(isSR, |reportblocks| + 1)
    }

    /** A started report needs exactly the bytes of its greedily split packets, a multiple of four,
        and any other distribution of its blocks over at least one packet needs no fewer. */
    lemma NeededIsPackets(groups: seq<seq<seq<byte>>>)
      requires Started() && AreBlocks(reportblocks)
      requires groups != [] && IsSplit(groups, reportblocks)
      ensures NeededBytes() == ReportBytes(isSR, ReportSplit(reportblocks))
      ensures NeededBytes() <= ReportBytes(isSR, groups)
      ensures NeededBytes() % 4 == 0
    {
      if reportblocks == [] {
        EmptyReport(isSR, groups);
      } else {
        ReportNeedIsPackets(isSR, reportblocks, groups);
        BlocksNeedAligned(isSR, |reportblocks|);
      }
    }

    /** The prediction for one more block is the exact size of the packets with that block, and
        more than a started report needs now. */
    lemma ExtraBlockExact(block: seq<byte>)
      requires AreBlocks(reportblocks + [block])
      ensures NeededBytesWithExtraReportBlock() == ReportBytes(isSR, ReportSplit(reportblocks + [block]))
      ensures Started() ==> NeededBytes() < NeededBytesWithExtraReportBlock()
    {
      var more := reportblocks + [block];
      SplitCorrect(more);
      ReportNeedIsPackets(isSR, more, Split(more));
      CountGrows(|reportblocks|);
    }
  }

  lemma CountGrows(n: nat)
    ensures PacketCount(n) <= PacketCount(n + 1) <= PacketCount(n) + 1
    ensures n > 0 ==> PacketCount(n) >= 1
  {
  }

  // ----- source descriptions -----

  function RoundUp4(x: nat): (y: nat)
    ensures y == x + Padding(x)
  {
    var r := x % 4;
    if r != 0 then x + (4 - r) else x
  }

  /** A chunk with so many bytes of items: the terminating zero, the padding and the SSRC. */
  function ChunkNeed(total: nat): nat {
    RoundUp4(total + 1) + 4
  }

  class SDESSource {
    const ssrc: uint32
    var items: seq<seq<byte>>
    var totalitemsize: nat

    ghost predicate Valid()
      reads this
    {
      totalitemsize == SumLengths(items)
    }

    constructor (s: uint32)
      ensures Valid() && ssrc == s && items == []
    {
      ssrc := s;
      items := [];
      totalitemsize := 0;
    }

    function NeededBytes(): (x: nat)
      reads this
    {
      ChunkNeed(totalitemsize)
    }

    function NeededBytesWithExtraItem(itemdatalength: nat): (x: nat)
      requires itemdatalength <= 255
      reads this
    {
      ChunkNeed(totalitemsize + 2 + itemdatalength)
    }

    method AddItem(buf: seq<byte>)
      requires Valid()
      modifies this
      ensures Valid()
      ensures items == old(items) + [buf]
    {
      totalitemsize := totalitemsize + |buf|;
      items := items + [buf];
    }
  }

  /** What a source stands for: its identifier and its encoded items. */
  datatype Source = Source(ssrc: uint32, items: seq<seq<byte>>) {
    /** The chunk it is written as. */
    function Bytes(): seq<byte> {
      ChunkBytes(ssrc, Concat(items))
    }
  }

  function Concat(buffers: seq<seq<byte>>): (r: seq<byte>)
    ensures |r| == SumLengths(buffers)
  {
    if buffers == [] then [] else Concat(buffers[..|buffers| - 1]) + buffers[|buffers| - 1]
  }

  function SourceBytes(sources: seq<Source>): (n: nat) {
    if sources == [] then 0 else SourceBytes(sources[..|sources| - 1]) + |sources[|sources| - 1].Bytes()|
  }

  /** The size of the packets that hold the groups of chunks: a common header in front of each. */
  function PacketBytes(groups: seq<seq<Source>>): (n: nat) {
    if groups == [] then 0 else COMMON_HEADER + SourceBytes(groups[0]) + PacketBytes(groups[1..])
  }

  lemma {:induction false} SourceBytesConcat(s: seq<Source>, t: seq<Source>)
    ensures SourceBytes(s + t) == SourceBytes(s) + SourceBytes(t)
  {
    if t == [] {
      assert s + t == s;
    } else {
      var front, last := t[..|t| - 1], t[|t| - 1];
      assert t == front + [last] && s + t == (s + front) + [last];
      SourceBytesSnoc(front, last);
      SourceBytesSnoc(s + front, last);
      SourceBytesConcat(s, front);
    }
  }

  /** However the sources are split, the packets take their chunks and one header each. */
  lemma {:induction false} PacketBytesOfSplit(groups: seq<seq<Source>>)
    ensures PacketBytes(groups) == SourceBytes(Join(groups)) + |groups| * COMMON_HEADER
  {
    if groups != [] {
      PacketBytesOfSplit(groups[1..]);
      SourceBytesConcat(groups[0], Join(groups[1..]));
    }
  }

  /** The accounting of SDES over sources that need `chunks` bytes in all. */
  function WithHeaders(chunks: nat, n: nat): nat {
    chunks + PacketCount(n) * COMMON_HEADER
  }

  /** The bytes SDES::NeededBytes promises are those of the greedily split packets, and no split
      into packets of at most 31 chunks is smaller. */
  lemma SdesNeedIsPackets(sources: seq<Source>, groups: seq<seq<Source>>)
    requires IsSplit(groups, sources)
    ensures WithHeaders(SourceBytes(sources), |sources|) == PacketBytes(Split(sources))
    ensures PacketBytes(Split(sources)) <= PacketBytes(groups)
  {
    SplitCorrect(sources);
    PacketBytesOfSplit(Split(sources));
    PacketBytesOfSplit(groups);
    SplitMinimal(groups, sources);
  }

  /** A source whose items are encoded items is written as the chunk with those items. */
  lemma {:induction false} SourceIsChunk(ssrc: uint32, items: seq<Item>)
    requires ValidItems(items)
    ensures Source(ssrc, EncodeEach(items)).Bytes() == EncodeChunk(Chunk(ssrc, items))
  {
    ConcatEncoded(items);
  }

  function EncodeEach(items: seq<Item>): (r: seq<seq<byte>>)
    requires forall i :: 0 <= i < |items| ==> items[i].Valid()
    ensures |r| == |items|
  {
    seq(|items|, i requires 0 <= i < |items| => EncodeItem(items[i]))
  }

  lemma {:induction false} ConcatEncoded(items: seq<Item>)
    requires ValidItems(items)
    ensures Concat(EncodeEach(items)) == EncodeItems(items)
  {
    if items != [] {
      var last := |items| - 1;
      ConcatEncoded(items[..last]);
      assert EncodeEach(items)[..last] == EncodeEach(items[..last]);
      EncodeItemsSnoc(items[..last], items[last]);
      assert items == items[..last] + [items[last]];
    }
  }

  lemma {:induction false} EncodeItemsSnoc(items: seq<Item>, item: Item)
    requires ValidItems(items) && item.Valid()
    ensures ValidItems(items + [item])
    ensures EncodeItems(items + [item]) == EncodeItems(items) + EncodeItem(item)
  {
    if items == [] {
      assert EncodeItems([item]) == EncodeItem(item) + EncodeItems([]);
    } else {
      EncodeItemsSnoc(items[1..], item);
      assert (items + [item])[1..] == items[1..] + [item];
      Reassociate(EncodeItem(items[0]), EncodeItems(items[1..]), EncodeItem(item));
    }
  }

  lemma Reassociate(a: seq<byte>, b: seq<byte>, c: seq<byte>)
    ensures a + (b + c) == (a + b) + c
  {
  }

  class SDES {
    var sdessources: seq<SDESSource>
    // The position of the current source; Clear leaves it where it was.
    var sdesit: nat

    ghost predicate Valid()
      reads this, sdessources
    {
      && (forall i :: 0 <= i < |sdessources| ==> sdessources[i].Valid())
      && (forall i, j :: 0 <= i < j < |sdessources| ==> sdessources[i] != sdessources[j])
      && (|sdessources| > 0 ==> sdesit == |sdessources| - 1)
    }

    ghost function Sources(): (r: seq<Source>)
      reads this, sdessources
      ensures |r| == |sdessources|
    {
      SourcesOf(sdessources)
    }

    ghost function Repr(): set<object>
      reads this
    {
      {this} + set s: object | s in sdessources
    }

    constructor ()
      ensures Valid() && fresh(Repr()) && Sources() == []
    {
      sdessources := [];
      sdesit := 0;
    }

    method Clear()
      requires Valid()
      modifies this
      ensures Valid() && Sources() == []
    {
      sdessources := [];
    }

    method AddSSRC(ssrc: uint32) returns (status: int)
      requires Valid()
      modifies this
      ensures Valid() && fresh(Repr() - old(Repr()))
      ensures status == 0
      ensures Sources() == old(Sources()) + [Source(ssrc, [])]
    {
      var s := new SDESSource(ssrc);
      sdessources := sdessources + [s];
      sdesit := |sdessources|;
      sdesit := sdesit - 1;
      return 0;
    }

    method AddItem(buf: seq<byte>) returns (status: int)
      requires Valid()
      modifies Repr()
      ensures Valid() && Repr() == old(Repr())
      ensures status == if old(Sources()) == [] then -40 else 0
      ensures status != 0 ==> Sources() == old(Sources())
      ensures status == 0 ==> && |old(Sources())| > 0
                              && Sources() == AppendItem(old(Sources()), buf)
    {
      if |sdessources| == 0 {
        return NO_CURRENT_SOURCE;
      }
      sdessources[sdesit].AddItem(buf);
      return 0;
    }

    method NeededBytes() returns (x: nat)
      requires Valid()
      ensures x == SdesNeed(Sources())
      ensures Sources() == [] ==> x == 0
    {
      if |sdessources| == 0 {
        return 0;
      }
      x := SumNeeded(sdessources, |sdessources|);
      assert Sources()[..|sdessources|] == Sources();
      x := x + PacketCount(|sdessources|) * COMMON_HEADER;
    }

    method NeededBytesWithExtraItem(itemdatalength: nat) returns (x: nat)
      requires Valid() && itemdatalength <= 255
      ensures x == PredictedWithExtraItem(Sources(), itemdatalength)
      ensures Sources() == [] ==> x == 0
      ensures Sources() != [] ==>
                forall buf: seq<byte> :: |buf| == 2 + itemdatalength ==> x == SdesNeed(AppendItem(Sources(), buf))
    {
      if |sdessources| == 0 {
        return 0;
      }
      ghost var last := Sources()[sdesit];
      x := SumNeeded(sdessources, sdesit);
      assert sdessources[sdesit].totalitemsize == SumLengths(last.items);
      x := x + sdessources[sdesit].NeededBytesWithExtraItem(itemdatalength);
      assert x == SourceBytes(Sources()[..sdesit]) + ChunkNeed(SumLengths(last.items) + (2 + itemdatalength));
      x := x + PacketCount(|sdessources|) * COMMON_HEADER;
      assert x == PredictedWithExtraItem(Sources(), itemdatalength);
      forall buf: seq<byte> | |buf| == 2 + itemdatalength
        ensures x == SdesNeed(AppendItem(Sources(), buf))
      {
        ExtraItemExact(Sources(), itemdatalength, buf);
      }
    }

    method NeededBytesWithExtraSource() returns (x: nat)
      requires Valid()
      ensures x == PredictedWithExtraSource(Sources())
      ensures Sources() == [] ==> x == 0
      ensures Sources() != [] ==> forall ssrc :: x == SdesNeed(Sources() + [Source(ssrc, [])])
    {
      if |sdessources| == 0 {
        return 0;
      }
      x := SumNeeded(sdessources, |sdessources|);
      assert Sources()[..|sdessources|] == Sources();
      x := x + 4 * 2;
      x := x + PacketCount(|sdessources| + 1) * COMMON_HEADER;
      forall ssrc
        ensures x == SdesNeed(Sources() + [Source(ssrc, [])])
      {
        ExtraSourceExactIff(Sources(), ssrc);
      }
    }
  }

  /** What NeededBytesWithExtraItem answers. */
  ghost function PredictedWithExtraItem(sources: seq<Source>, datalength: nat): nat {
    if |sources| == 0 then 0
    else
      var last := |sources| - 1;
      WithHeaders(SourceBytes(sources[..last]) + ChunkNeed(SumLengths(sources[last].items) + (2 + datalength)),
                  |sources|)
  }

  /** The prediction is what AddItem leads to for an item of that length and its header. */
  lemma ExtraItemExact(sources: seq<Source>, datalength: nat, buf: seq<byte>)
    requires |sources| > 0 && |buf| == 2 + datalength
    ensures PredictedWithExtraItem(sources, datalength) == SdesNeed(AppendItem(sources, buf))
  {
    var n, after := |sources|, AppendItem(sources, buf);
    var chunks := SourceBytes(sources[..n - 1]) + ChunkNeed(SumLengths(sources[n - 1].items) + |buf|);
    calc {
      SdesNeed(after);
      WithHeaders(SourceBytes(after), n);
      { AppendItemBytes(sources, n - 1, buf); }
      WithHeaders(chunks, n);
      PredictedWithExtraItem(sources, datalength);
    }
  }

  /** What NeededBytesWithExtraSource answers. */
  ghost function PredictedWithExtraSource(sources: seq<Source>): nat {
    if |sources| == 0 then 0 else WithHeaders(SourceBytes(sources) + 8, |sources| + 1)
  }

  /** The prediction is what AddSSRC leads to exactly when the builder is not empty: for the first
      source it is 0, while that source needs 12 bytes. */
  lemma ExtraSourceExactIff(sources: seq<Source>, ssrc: uint32)
    ensures PredictedWithExtraSource(sources) == SdesNeed(sources + [Source(ssrc, [])]) <==> |sources| > 0
  {
    EmptySourceBytes(sources, ssrc);
  }

  ghost function SourcesOf(s: seq<SDESSource>): (r: seq<Source>)
    reads s
    ensures |r| == |s|
    ensures forall i :: 0 <= i < |s| ==> r[i] == Source(s[i].ssrc, s[i].items)
  {
    seq(|s|, i requires 0 <= i < |s| reads s => Source(s[i].ssrc, s[i].items))
  }

  /** The bytes a builder with these sources needs. */
  ghost function SdesNeed(sources: seq<Source>): nat {
    WithHeaders(SourceBytes(sources), |sources|)
  }

  /** The sources after an item has been added to the last of them. */
  ghost function AppendItem(sources: seq<Source>, buf: seq<byte>): (r: seq<Source>)
    requires |sources| > 0
    ensures |r| == |sources|
  {
    var last := |sources| - 1;
    sources[last := Source(sources[last].ssrc, sources[last].items + [buf])]
  }

  /** The summing loop: the bytes of the first n sources. */
  method SumNeeded(s: seq<SDESSource>, n: nat) returns (x: nat)
    requires n <= |s| && forall i :: 0 <= i < |s| ==> s[i].Valid()
    ensures x == SourceBytes(SourcesOf(s)[..n])
  {
    ghost var sources := SourcesOf(s);
    x := 0;
    var i := 0;
    while i < n
      invariant 0 <= i <= n
      invariant x == SourceBytes(sources[..i])
    {
      x := x + s[i].NeededBytes();
      SourceSize(s[i].ssrc, s[i].items);
      PrefixSnoc(sources, i, sources[i]);
      SourceBytesSnoc(sources[..i], sources[i]);
      i := i + 1;
    }
  }

  lemma SourceBytesSnoc(s: seq<Source>, x: Source)
    ensures SourceBytes(s + [x]) == SourceBytes(s) + |x.Bytes()|
  {
    assert (s + [x])[..|s|] == s;
  }

  lemma SourceSize(ssrc: uint32, items: seq<seq<byte>>)
    ensures |Source(ssrc, items).Bytes()| == ChunkNeed(SumLengths(items))
  {
  }

  /** Adding an item to the last source changes only that source's chunk. */
  lemma AppendItemBytes(all: seq<Source>, last: nat, buf: seq<byte>)
    requires last + 1 == |all|
    ensures SourceBytes(AppendItem(all, buf))
            == SourceBytes(all[..last]) + ChunkNeed(SumLengths(all[last].items) + |buf|)
  {
    var x, y := all[last], Source(all[last].ssrc, all[last].items + [buf]);
    assert AppendItem(all, buf) == all[..last] + [y];
    SourceBytesSnoc(all[..last], y);
    SourceSize(y.ssrc, y.items);
    SumLengthsSnoc(x.items, buf);
  }

  lemma EmptySourceBytes(sources: seq<Source>, ssrc: uint32)
    ensures SourceBytes(sources + [Source(ssrc, [])]) == SourceBytes(sources) + 8
  {
    SourceBytesSnoc(sources, Source(ssrc, []));
    SourceSize(ssrc, []);
  }

  /** The reader moves over a chunk by exactly the bytes the builder counts for the same items. */
  lemma ReaderAgreesWithBuilder(data: seq<byte>, k: nat)
    requires SdesReader.WellFormed(data) && k + 1 < SdesReader.HeaderCount(data)
    ensures var n := SdesReader.HeaderCount(data);
            var chunk := ChunksAt(data, 4, n)[k];
            && ValidItems(chunk.items)
            && ChunkPos(data, 4, n, k + 1) - ChunkPos(data, 4, n, k) == ChunkNeed(SumLengths(EncodeEach(chunk.items)))
            && ChunkNeed(SumLengths(EncodeEach(chunk.items))) % 4 == 0
  {
    SdesReader.ChunkAdvance(data, k);
    var chunk := ChunksAt(data, 4, SdesReader.HeaderCount(data))[k];
    SourceIsChunk(chunk.ssrc, chunk.items);
    SourceSize(chunk.ssrc, EncodeEach(chunk.items));
  }

  // ----- what the sizes mean on the wire -----

  function EncodeEachBlock(blocks: seq<ReportPackets.Block>): (r: seq<seq<byte>>)
    ensures |r| == |blocks| && AreBlocks(r)
  {
    seq(|blocks|, i requires 0 <= i < |blocks| => ReportPackets.EncodeBlock(blocks[i]))
  }

  lemma {:induction false} EncodedBlocksLength(blocks: seq<ReportPackets.Block>)
    ensures |ReportPackets.EncodeBlocks(blocks)| == |blocks| * REPORT_BLOCK
  {
    if blocks != [] {
      EncodedBlocksLength(blocks[1..]);
    }
  }

  /** The size counted for one report packet is the length of such a packet: a header of four bytes,
      the SSRC, twenty bytes of sender info for a sender report, and the blocks; and a reader gets
      everything back from it. */
  lemma ReportOnTheWire(isSR: bool, header: seq<byte>, ssrc: uint32, info: seq<byte>, blocks: seq<ReportPackets.Block>)
    requires |header| == 4 && header[0] as int % 32 == |blocks|
    requires |info| == if isSR then 20 else 0
    ensures var data := header + (BigEndian(ssrc) + (info + ReportPackets.EncodeBlocks(blocks)));
            var first := if isSR then ReportPackets.SR_BLOCKS else ReportPackets.RR_BLOCKS;
            var p := ReportPackets.ReportPacket(data, true, first);
            && |data| == ReportBytes(isSR, [EncodeEachBlock(blocks)])
            && p.GetSenderSSRC() == ssrc
            && p.GetReceptionReportCount() == |blocks|
            && forall i :: 0 <= i < |blocks| ==> p.HasReport(i) && ReportPackets.Shows(p, i, blocks[i])
  {
    var data := header + (BigEndian(ssrc) + (info + ReportPackets.EncodeBlocks(blocks)));
    var first := if isSR then ReportPackets.SR_BLOCKS else ReportPackets.RR_BLOCKS;
    EncodedBlocksLength(blocks);
    BlockLengths(EncodeEachBlock(blocks));
    assert ReportBytes(isSR, [EncodeEachBlock(blocks)]) == ReportHead(isSR) + SumLengths(EncodeEachBlock(blocks));
    ReportPackets.PacketRoundTrip(ReportPackets.ReportPacket(data, true, first), header, ssrc, info, blocks);
  }

  /** The sources that stand for some chunks. */
  ghost function SourcesFor(chunks: seq<Chunk>): (r: seq<Source>)
    requires ValidChunks(chunks)
    ensures |r| == |chunks|
  {
    seq(|chunks|, i requires 0 <= i < |chunks| => Source(chunks[i].ssrc, EncodeEach(chunks[i].items)))
  }

  lemma SourcesCons(chunks: seq<Chunk>)
    requires chunks != [] && ValidChunks(chunks)
    ensures SourcesFor(chunks) == [Source(chunks[0].ssrc, EncodeEach(chunks[0].items))] + SourcesFor(chunks[1..])
  {
  }

  lemma {:induction false} ChunksLength(chunks: seq<Chunk>)
    requires ValidChunks(chunks)
    ensures SourceBytes(SourcesFor(chunks)) == |EncodeChunks(chunks)|
  {
    if chunks != [] {
      var first, rest := chunks[0], chunks[1..];
      ChunksLength(rest);
      SourceIsChunk(first.ssrc, first.items);
      var s := [Source(first.ssrc, EncodeEach(first.items))];
      SourcesCons(chunks);
      SourceBytesConcat(s, SourcesFor(rest));
      SourceBytesSnoc([], s[0]);
      assert [] + s == s;
    }
  }

  /** The size counted for one source description packet is the length of such a packet, a header of
      four bytes and the chunks; and a reader gets the chunks back from it. */
  lemma SdesOnTheWire(header: seq<byte>, version: nat, padding: nat, chunks: seq<Chunk>)
    requires |header| == 4 && ValidChunks(chunks)
    requires SdesReader.HasHeader(header, version, padding, |chunks|)
    ensures var data := header + EncodeChunks(chunks);
            && |data| == PacketBytes([SourcesFor(chunks)])
            && SdesReader.WellFormed(data)
            && SdesReader.HeaderCount(data) == |chunks|
            && ChunksAt(data, 4, |chunks|) == chunks
  {
    var data := header + EncodeChunks(chunks);
    ChunksLength(chunks);
    assert PacketBytes([SourcesFor(chunks)]) == COMMON_HEADER + SourceBytes(SourcesFor(chunks));
    assert data[0] == header[0];
    assert data[4..4 + |EncodeChunks(chunks)|] == EncodeChunks(chunks);
    HoldsSlice(data, 4, EncodeChunks(chunks));
    SdesReader.RoundTrip(data, version, padding, chunks);
  }
}

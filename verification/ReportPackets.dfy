// RTCP receiver and sender report packets (sections 6.4.1 and 6.4.2 of RFC 3550): the accessors of
// their report blocks. A sender report has 20 bytes of sender info in front of the blocks.

module ReportPackets {
  import opened Bytes

  const RR_BLOCKS: nat := 8
  const SR_BLOCKS: nat := 28
  const BLOCK_SIZE: nat := 24

  type int24 = x: int | -0x80_0000 <= x < 0x80_0000

  datatype Block = Block(ssrc: uint32, fractionlost: byte, lost: int24, exthighseqnr: uint32,
                         jitter: uint32, lsr: uint32, dlsr: uint32)

  // ----- writing, as the format lays a block out -----

  /** The cumulative loss in 24-bit two's complement, most significant byte first. */
  function EncodeLost(lost: int24): (r: seq<byte>)
    ensures |r| == 3
  {
    var y := if lost < 0 then lost + 0x100_0000 else lost;
    var h, l := y / 256, y % 256;
    [(h / 256) as byte, (h % 256) as byte, l as byte]
  }

  function EncodeBlock(b: Block): (r: seq<byte>)
    ensures |r| == BLOCK_SIZE
  {
    BigEndian(b.ssrc) + ([b.fractionlost] + (EncodeLost(b.lost) + (BigEndian(b.exthighseqnr)
      + (BigEndian(b.jitter) + (BigEndian(b.lsr) + BigEndian(b.dlsr))))))
  }

  function EncodeBlocks(blocks: seq<Block>): seq<byte> {
    if blocks == [] then [] else EncodeBlock(blocks[0]) + EncodeBlocks(blocks[1..])
  }

  // ----- the accessors -----

  /** x is the value of the four bytes at off, the first one counting most. */
  predicate IsWord(x: uint32, data: seq<byte>, off: nat)
    requires off + 4 <= |data|
  {
    x == data[off] as int * 0x100_0000 + data[off + 1] as int * 0x1_0000 + data[off + 2] as int * 0x100
         + data[off + 3] as int
  }

  /** ntohl of the four bytes at off. */
  function Word(data: seq<byte>, off: nat): (x: uint32)
    requires off + 4 <= |data|
    ensures IsWord(x, data, off)
  {
    FromBigEndian(data[off..off + 4])
  }

  /** The 24-bit count with its sign extended. The bytes are or-ed into disjoint bits, so the or is
      a sum; setting the top byte of a count with bit 23 set adds 0xFF000000; the last step reads
      the word as a signed one. */
  function SignExtend(b0: byte, b1: byte, b2: byte): (r: int)
    ensures -0x80_0000 <= r < 0x80_0000
    ensures r == b0 as int * 65536 + b1 as int * 256 + b2 as int - if b0 >= 128 then 0x100_0000 else 0
  {
    var count := b2 as int + b1 as int * 256 + b0 as int * 0x1_0000;
    var extended := if count >= 0x80_0000 then count + 0xFF00_0000 else count;
    if extended >= 0x8000_0000 then extended - 0x1_0000_0000 else extended
  }

  /** A report packet: its bytes, whether its format was recognised, and where its blocks start. */
  datatype ReportPacket = ReportPacket(data: seq<byte>, knownformat: bool, blocks: nat) {

    /** The documented condition of the getters: the block is in the packet. */
    predicate HasReport(index: nat) {
      knownformat ==> GotoReport(index) + BLOCK_SIZE <= |data|
    }

    function GotoReport(index: nat): nat {
      blocks + index * BLOCK_SIZE
    }

    function GetSenderSSRC(): (ssrc: uint32)
      requires knownformat ==> |data| >= 8
      ensures if knownformat then IsWord(ssrc, data, 4) else ssrc == 0
    {
      if !knownformat then 0 else Word(data, 4)
    }

    function GetReceptionReportCount(): (n: nat)
      requires knownformat ==> |data| >= 4
      ensures if knownformat then n < 32 && (data[0] as int - n) % 32 == 0 else n == 0
    {
      if !knownformat then 0 else data[0] as nat % 32
    }

    function GetSSRC(index: nat): (ssrc: uint32)
      requires HasReport(index)
      ensures if knownformat then IsWord(ssrc, data, blocks + index * 24) else ssrc == 0
    {
      if !knownformat then 0 else Word(data, GotoReport(index))
    }

    function GetFractionLost(index: nat): (fraction: byte)
      requires HasReport(index)
      ensures fraction == if knownformat then data[blocks + index * 24 + 4] else 0
    {
      if !knownformat then 0 else data[GotoReport(index) + 4]
    }

    function GetLostPacketCount(index: nat): (lost: int)
      requires HasReport(index)
      ensures !knownformat ==> lost == 0
      ensures knownformat ==>
                var at := blocks + index * 24 + 5;
                lost == data[at] as int * 65536 + data[at + 1] as int * 256 + data[at + 2] as int
                        - if data[at] >= 128 then 0x100_0000 else 0
    {
      if !knownformat then 0
      else
        var r := GotoReport(index);
        SignExtend(data[r + 5], data[r + 6], data[r + 7])
    }

    function GetExtendedHighestSequenceNumber(index: nat): (seqnr: uint32)
      requires HasReport(index)
      ensures if knownformat then IsWord(seqnr, data, blocks + index * 24 + 8) else seqnr == 0
    {
      if !knownformat then 0 else Word(data, GotoReport(index) + 8)
    }

    function GetJitter(index: nat): (jitter: uint32)
      requires HasReport(index)
      ensures if knownformat then IsWord(jitter, data, blocks + index * 24 + 12) else jitter == 0
    {
      if !knownformat then 0 else Word(data, GotoReport(index) + 12)
    }

    function GetLSR(index: nat): (lsr: uint32)
      requires HasReport(index)
      ensures if knownformat then IsWord(lsr, data, blocks + index * 24 + 16) else lsr == 0
    {
      if !knownformat then 0 else Word(data, GotoReport(index) + 16)
    }

    function GetDLSR(index: nat): (dlsr: uint32)
      requires HasReport(index)
      ensures if knownformat then IsWord(dlsr, data, blocks + index * 24 + 20) else dlsr == 0
    {
      if !knownformat then 0 else Word(data, GotoReport(index) + 20)
    }
  }

  /** What the getters say about one block. */
  ghost predicate Shows(p: ReportPacket, index: nat, b: Block)
    requires p.HasReport(index)
  {
    && p.GetSSRC(index) == b.ssrc
    && p.GetFractionLost(index) == b.fractionlost
    && p.GetLostPacketCount(index) == b.lost
    && p.GetExtendedHighestSequenceNumber(index) == b.exthighseqnr
    && p.GetJitter(index) == b.jitter
    && p.GetLSR(index) == b.lsr
    && p.GetDLSR(index) == b.dlsr
  }

  // ----- reading back what was written -----

  /** Every 24-bit signed count survives its encoding, negative ones included. */
  lemma LostRoundTrip(lost: int24)
    ensures var r := EncodeLost(lost); SignExtend(r[0], r[1], r[2]) == lost
  {
    var y := if lost < 0 then lost + 0x100_0000 else lost;
    var h, l := y / 256, y % 256;
    assert y == h * 256 + l && h == h / 256 * 256 + h % 256;
  }

  lemma WordRoundTrip(data: seq<byte>, off: nat, x: uint32)
    requires Holds(data, off, BigEndian(x))
    ensures Word(data, off) == x
  {
    HoldsSlice(data, off, BigEndian(x));
    BigEndianRoundTrip(x);
  }

  /** The parts of an encoded block, at their offsets. */
  lemma BlockParts(data: seq<byte>, off: nat, b: Block)
    requires Holds(data, off, EncodeBlock(b))
    ensures Holds(data, off, BigEndian(b.ssrc))
    ensures Holds(data, off + 4, [b.fractionlost])
    ensures Holds(data, off + 5, EncodeLost(b.lost))
    ensures Holds(data, off + 8, BigEndian(b.exthighseqnr))
    ensures Holds(data, off + 12, BigEndian(b.jitter))
    ensures Holds(data, off + 16, BigEndian(b.lsr))
    ensures Holds(data, off + 20, BigEndian(b.dlsr))
  {
    var t6 := BigEndian(b.dlsr);
    var t5 := BigEndian(b.lsr) + t6;
    var t4 := BigEndian(b.jitter) + t5;
    var t3 := BigEndian(b.exthighseqnr) + t4;
    var t2 := EncodeLost(b.lost) + t3;
    var t1 := [b.fractionlost] + t2;
    HoldsSplit(data, off, BigEndian(b.ssrc), t1);
    HoldsSplit(data, off + 4, [b.fractionlost], t2);
    HoldsSplit(data, off + 5, EncodeLost(b.lost), t3);
    HoldsSplit(data, off + 8, BigEndian(b.exthighseqnr), t4);
    HoldsSplit(data, off + 12, BigEndian(b.jitter), t5);
    HoldsSplit(data, off + 16, BigEndian(b.lsr), t6);
  }

  lemma ShowsBlock(p: ReportPacket, index: nat, r: nat, b: Block)
    requires p.knownformat && r == p.GotoReport(index) && Holds(p.data, r, EncodeBlock(b))
    ensures p.HasReport(index) && Shows(p, index, b)
  {
    BlockParts(p.data, r, b);
    WordRoundTrip(p.data, r, b.ssrc);
    WordRoundTrip(p.data, r + 8, b.exthighseqnr);
    WordRoundTrip(p.data, r + 12, b.jitter);
    WordRoundTrip(p.data, r + 16, b.lsr);
    WordRoundTrip(p.data, r + 20, b.dlsr);
    assert p.data[r + 4] == [b.fractionlost][0];
    var lost := EncodeLost(b.lost);
    assert p.data[r + 5] == lost[0] && p.data[r + 5 + 1] == lost[1] && p.data[r + 5 + 2] == lost[2];
    LostRoundTrip(b.lost);
  }

  /** Each of the blocks written stands at its place. */
  lemma {:induction false} BlockStands(data: seq<byte>, off: nat, written: seq<Block>, index: nat, r: nat)
    requires index < |written| && Holds(data, off, EncodeBlocks(written)) && r == off + index * BLOCK_SIZE
    ensures Holds(data, r, EncodeBlock(written[index]))
    decreases index
  {
    var first, rest := EncodeBlock(written[0]), written[1..];
    HoldsSplit(data, off, first, EncodeBlocks(rest));
    if index > 0 {
      BlockStands(data, off + BLOCK_SIZE, rest, index - 1, r);
    }
  }

  /** For both kinds of report: the getters return exactly the blocks written into the packet. */
  lemma ReportRoundTrip(p: ReportPacket, written: seq<Block>, index: nat)
    requires p.knownformat && index < |written| && Holds(p.data, p.blocks, EncodeBlocks(written))
    ensures p.HasReport(index) && Shows(p, index, written[index])
  {
    var r := p.GotoReport(index);
    BlockStands(p.data, p.blocks, written, index, r);
    ShowsBlock(p, index, r, written[index]);
  }

  lemma PacketParts(data: seq<byte>, header: seq<byte>, ssrc: uint32, info: seq<byte>, blocks: seq<byte>)
    requires |header| == 4 && Holds(data, 0, header + (BigEndian(ssrc) + (info + blocks)))
    ensures |data| >= 8 && data[0] == header[0]
    ensures Holds(data, 4, BigEndian(ssrc)) && Holds(data, RR_BLOCKS + |info|, blocks)
  {
    HoldsSplit(data, 0, header, BigEndian(ssrc) + (info + blocks));
    HoldsSplit(data, 4, BigEndian(ssrc), info + blocks);
    HoldsSplit(data, 8, info, blocks);
    assert data[0 + 0] == header[0];
  }

  /** The whole packet, of either kind: the header, the sender, the sender info of a sender report,
      and the blocks. A client that asks for the count and then for every block sees what was sent. */
  lemma PacketRoundTrip(p: ReportPacket, header: seq<byte>, ssrc: uint32, info: seq<byte>, written: seq<Block>)
    requires p.knownformat && p.blocks == RR_BLOCKS + |info|
    requires |header| == 4 && header[0] as int % 32 == |written|
    requires Holds(p.data, 0, header + (BigEndian(ssrc) + (info + EncodeBlocks(written))))
    ensures |p.data| >= 8 && p.GetSenderSSRC() == ssrc
    ensures p.GetReceptionReportCount() == |written|
    ensures forall i :: 0 <= i < |written| ==> p.HasReport(i) && Shows(p, i, written[i])
  {
    PacketParts(p.data, header, ssrc, info, EncodeBlocks(written));
    WordRoundTrip(p.data, 4, ssrc);
    forall i | 0 <= i < |written|
      ensures p.HasReport(i) && Shows(p, i, written[i])
    {
      ReportRoundTrip(p, written, i);
    }
  }

  /** A sender report shows the blocks of the receiver report that is left when its sender info is
      cut out. */
  lemma SenderReportIsShiftedReceiverReport(data: seq<byte>, index: nat, b: Block)
    requires |data| >= SR_BLOCKS + (index + 1) * BLOCK_SIZE
    ensures var sr := ReportPacket(data, true, SR_BLOCKS);
            var rr := ReportPacket(data[..RR_BLOCKS] + data[SR_BLOCKS..], true, RR_BLOCKS);
            && sr.HasReport(index) && rr.HasReport(index)
            && (Shows(sr, index, b) <==> Shows(rr, index, b))
  {
    var cut := data[..RR_BLOCKS] + data[SR_BLOCKS..];
    var sr, rr := ReportPacket(data, true, SR_BLOCKS), ReportPacket(cut, true, RR_BLOCKS);
    var r := rr.GotoReport(index);
    assert Cut(data, cut);
    SameBlock(data, cut, r);
    ShowsBlockAt(sr, index, r + 20, b);
    ShowsBlockAt(rr, index, r, b);
  }

  /** From the blocks on, cut is data without its 20 bytes of sender info. */
  ghost predicate Cut(data: seq<byte>, cut: seq<byte>) {
    && |cut| + 20 == |data|
    && forall i {:trigger cut[i]} :: RR_BLOCKS <= i < |cut| ==> cut[i] == data[i + 20]
  }

  lemma SameWord(data: seq<byte>, cut: seq<byte>, off: nat)
    requires Cut(data, cut) && RR_BLOCKS <= off && off + 4 <= |cut|
    ensures Word(cut, off) == Word(data, off + 20)
  {
    assert cut[off..off + 4] == data[off + 20..off + 24];
  }

  /** The block whose 24 bytes start at r. */
  function BlockAt(data: seq<byte>, r: nat): Block
    requires r + BLOCK_SIZE <= |data|
  {
    Block(Word(data, r), data[r + 4], SignExtend(data[r + 5], data[r + 6], data[r + 7]), Word(data, r + 8),
          Word(data, r + 12), Word(data, r + 16), Word(data, r + 20))
  }

  lemma ShowsBlockAt(p: ReportPacket, index: nat, r: nat, b: Block)
    requires p.knownformat && r == p.GotoReport(index) && r + BLOCK_SIZE <= |p.data|
    ensures p.HasReport(index) && (Shows(p, index, b) <==> BlockAt(p.data, r) == b)
  {
  }

  lemma SameBlock(data: seq<byte>, cut: seq<byte>, r: nat)
    requires Cut(data, cut) && RR_BLOCKS <= r && r + BLOCK_SIZE <= |cut|
    ensures BlockAt(cut, r) == BlockAt(data, r + 20)
  {
    SameWord(data, cut, r);
    SameWord(data, cut, r + 8);
    SameWord(data, cut, r + 12);
    SameWord(data, cut, r + 16);
    SameWord(data, cut, r + 20);
    assert cut[r + 4] == data[r + 24] && cut[r + 5] == data[r + 25];
    assert cut[r + 6] == data[r + 26] && cut[r + 7] == data[r + 27];
  }
}

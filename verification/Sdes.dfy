// RTCP source description packets (section 6.5 of RFC 3550): the byte format, and the cursor-based
// reader that walks over its chunks and items.

module SdesFormat {
  import opened Bytes

  /** An item as the format allows it: a non-zero identifier and at most 255 bytes of data. */
  datatype Item = Item(id: byte, data: seq<byte>) {
    predicate Valid() {
      id != 0 && |data| <= 255
    }
  }

  datatype Chunk = Chunk(ssrc: uint32, items: seq<Item>)

  ghost predicate ValidItems(items: seq<Item>) {
    forall i :: 0 <= i < |items| ==> items[i].Valid()
  }

  ghost predicate ValidChunks(chunks: seq<Chunk>) {
    forall i :: 0 <= i < |chunks| ==> ValidItems(chunks[i].items)
  }

  // ----- writing -----

  function Zeros(n: nat): (r: seq<byte>)
    ensures |r| == n && forall i :: 0 <= i < n ==> r[i] == 0
  {
    seq(n, _ => 0)
  }

  /** How many bytes take n to a multiple of four. */
  function Padding(n: nat): (r: nat)
    ensures r < 4 && (n + r) % 4 == 0
  {
    if n % 4 != 0 then 4 - n % 4 else 0
  }

  lemma PaddingShift(n: nat)
    ensures Padding(n + 4) == Padding(n)
  {
  }

  /** Identifier, length, data. */
  function EncodeItem(item: Item): (r: seq<byte>)
    requires item.Valid()
    ensures |r| == 2 + |item.data|
    ensures r[0] == item.id && r[1] as int == |item.data| && r[2..] == item.data
  {
    [item.id, |item.data| as byte] + item.data
  }

  function EncodeItems(items: seq<Item>): seq<byte>
    requires forall i :: 0 <= i < |items| ==> items[i].Valid()
  {
    if items == [] then [] else EncodeItem(items[0]) + EncodeItems(items[1..])
  }

  /** A chunk around already encoded items: SSRC, items, the zero that ends the list, padding. */
  function ChunkBytes(ssrc: uint32, items: seq<byte>): (r: seq<byte>)
    ensures |r| % 4 == 0
    ensures |r| == 4 + |items| + 1 + Padding(|items| + 1)
  {
    BigEndian(ssrc) + items + Zeros(1 + Padding(|items| + 1))
  }

  lemma ChunkLayout(ssrc: uint32, items: seq<byte>)
    ensures var r := ChunkBytes(ssrc, items);
            && r[..4] == BigEndian(ssrc)
            && r[4..4 + |items|] == items
            && forall i :: 4 + |items| <= i < |r| ==> r[i] == 0
  {
  }

  function EncodeChunk(chunk: Chunk): seq<byte>
    requires forall i :: 0 <= i < |chunk.items| ==> chunk.items[i].Valid()
  {
    ChunkBytes(chunk.ssrc, EncodeItems(chunk.items))
  }

  ghost function EncodeChunks(chunks: seq<Chunk>): seq<byte>
    requires ValidChunks(chunks)
  {
    if chunks == [] then [] else EncodeChunk(chunks[0]) + EncodeChunks(chunks[1..])
  }

  // ----- the grammar of a buffer -----

  /** From `off` on the buffer holds complete items up to a zero identifier. */
  ghost predicate ItemsOk(data: seq<byte>, off: nat)
    decreases |data| - off
  {
    && off < |data|
    && (data[off] != 0 ==>
          && off + 1 < |data|
          && ItemsOk(data, off + 2 + data[off + 1] as nat))
  }

  ghost function ItemsAt(data: seq<byte>, off: nat): (items: seq<Item>)
    requires ItemsOk(data, off)
    decreases |data| - off
  {
    if data[off] == 0 then []
    else
      var next := off + 2 + data[off + 1] as nat;
      assert ItemsOk(data, next);
      [Item(data[off], data[off + 2..next])] + ItemsAt(data, next)
  }

  /** Where the zero is that ends the items. */
  ghost function ItemsEnd(data: seq<byte>, off: nat): (z: nat)
    requires ItemsOk(data, off)
    ensures off <= z < |data| && data[z] == 0
    decreases |data| - off
  {
    if data[off] == 0 then off else ItemsEnd(data, off + 2 + data[off + 1] as nat)
  }

  /** Where the next chunk starts: past the zero, on a multiple of four from the chunk's start. */
  ghost function NextChunk(data: seq<byte>, p: nat): (q: nat)
    requires ItemsOk(data, p + 4)
    ensures q > p + 4
  {
    var size := ItemsEnd(data, p + 4) + 1 - p;
    p + size + Padding(size)
  }

  ghost function ChunkAt(data: seq<byte>, p: nat): Chunk
    requires p + 4 <= |data| && ItemsOk(data, p + 4)
  {
    Chunk(FromBigEndian(data[p..p + 4]), ItemsAt(data, p + 4))
  }

  ghost predicate ChunksOk(data: seq<byte>, p: nat, n: nat)
    decreases n
  {
    n > 0 ==> ItemsOk(data, p + 4) && ChunksOk(data, NextChunk(data, p), n - 1)
  }

  ghost function ChunksAt(data: seq<byte>, p: nat, n: nat): (chunks: seq<Chunk>)
    requires ChunksOk(data, p, n)
    ensures |chunks| == n
    decreases n
  {
    if n == 0 then []
    else [ChunkAt(data, p)] + ChunksAt(data, NextChunk(data, p), n - 1)
  }

  /** Where chunk k starts. */
  ghost function ChunkPos(data: seq<byte>, p: nat, n: nat, k: nat): nat
    requires ChunksOk(data, p, n) && k < n
    decreases k
  {
    if k == 0 then p else ChunkPos(data, NextChunk(data, p), n - 1, k - 1)
  }

  /** Where item k starts; past the last one, where the terminating zero is. */
  ghost function ItemPos(data: seq<byte>, off: nat, k: nat): nat
    requires ItemsOk(data, off) && k <= |ItemsAt(data, off)|
    decreases k
  {
    if k == 0 then off else ItemPos(data, off + 2 + data[off + 1] as nat, k - 1)
  }

  lemma {:induction false} ChunkPosFacts(data: seq<byte>, p: nat, n: nat, k: nat, q: nat)
    requires ChunksOk(data, p, n) && k < n && q == ChunkPos(data, p, n, k)
    ensures q + 4 <= |data| && ItemsOk(data, q + 4)
    ensures k + 1 < n ==> ChunkPos(data, p, n, k + 1) == NextChunk(data, q)
    decreases k
  {
    if k > 0 {
      ChunkPosFacts(data, NextChunk(data, p), n - 1, k - 1, q);
    }
  }

  lemma LaterChunk(data: seq<byte>, p: nat, n: nat, k: nat)
    requires ChunksOk(data, p, n) && 0 < k < n
    ensures ChunksAt(data, p, n)[k] == ChunksAt(data, NextChunk(data, p), n - 1)[k - 1]
  {
    var c, rest := ChunkAt(data, p), ChunksAt(data, NextChunk(data, p), n - 1);
    assert ([c] + rest)[k] == rest[k - 1];
  }

  lemma {:induction false} ChunkPosData(data: seq<byte>, p: nat, n: nat, k: nat, q: nat)
    requires ChunksOk(data, p, n) && k < n && q == ChunkPos(data, p, n, k)
    ensures q + 4 <= |data| && ItemsOk(data, q + 4)
    ensures ChunkAt(data, q) == ChunksAt(data, p, n)[k]
    decreases k
  {
    ChunkPosFacts(data, p, n, k, q);
    if k > 0 {
      ChunkPosData(data, NextChunk(data, p), n - 1, k - 1, q);
      LaterChunk(data, p, n, k);
    }
  }

  lemma {:induction false} ItemPosFacts(data: seq<byte>, off: nat, k: nat, at: nat)
    requires ItemsOk(data, off) && k <= |ItemsAt(data, off)| && at == ItemPos(data, off, k)
    ensures at < |data| && (k < |ItemsAt(data, off)| <==> data[at] != 0)
    ensures data[at] != 0 ==> at + 1 < |data| && ItemPos(data, off, k + 1) == at + 2 + data[at + 1] as nat
    decreases k
  {
    if k > 0 {
      ItemPosFacts(data, off + 2 + data[off + 1] as nat, k - 1, at);
    }
  }

  /** Item k + 1, or the zero that ends the items, comes right after item k. */
  lemma NextItemPos(data: seq<byte>, off: nat, k: nat, at: nat)
    requires ItemsOk(data, off) && k < |ItemsAt(data, off)| && at == ItemPos(data, off, k)
    ensures at + 1 < |data|
    ensures var next := at + 2 + data[at + 1] as nat;
            && next == ItemPos(data, off, k + 1)
            && next < |data|
            && (k + 1 < |ItemsAt(data, off)| <==> data[next] != 0)
  {
    ItemPosFacts(data, off, k, at);
    ItemPosFacts(data, off, k + 1, at + 2 + data[at + 1] as nat);
  }

  /** The item stands in the buffer at `at`, and something follows it. */
  ghost predicate ItemStands(data: seq<byte>, at: nat, item: Item) {
    && at + 2 + |item.data| < |data|
    && item.id == data[at]
    && |item.data| == data[at + 1] as nat
    && Holds(data, at + 2, item.data)
  }

  lemma {:induction false} ItemPosData(data: seq<byte>, off: nat, k: nat, at: nat, item: Item)
    requires ItemsOk(data, off) && k < |ItemsAt(data, off)|
    requires at == ItemPos(data, off, k) && item == ItemsAt(data, off)[k]
    ensures ItemStands(data, at, item)
    decreases k
  {
    var next := off + 2 + data[off + 1] as nat;
    assert ItemsOk(data, next);
    if k > 0 {
      ItemPosData(data, next, k - 1, at, item);
    }
  }

  // ----- reading back what was written -----

  lemma ParseItem(data: seq<byte>, off: nat, item: Item)
    requires item.Valid() && Holds(data, off, EncodeItem(item))
    ensures data[off] == item.id && data[off + 1] as int == |item.data|
    ensures data[off + 2..off + 2 + |item.data|] == item.data
  {
    var head := [item.id, |item.data| as byte];
    HoldsSplit(data, off, head, item.data);
    assert data[off] == head[0] && data[off + 1] == head[1];
    HoldsSlice(data, off + 2, item.data);
  }

  lemma ItemsCons(data: seq<byte>, off: nat, item: Item, next: nat)
    requires item.Valid() && Holds(data, off, EncodeItem(item))
    requires next == off + |EncodeItem(item)| && ItemsOk(data, next)
    ensures ItemsOk(data, off) && ItemsAt(data, off) == [item] + ItemsAt(data, next)
    ensures ItemsEnd(data, off) == ItemsEnd(data, next)
  {
    ParseItem(data, off, item);
  }

  lemma {:induction false} ParseItems(data: seq<byte>, off: nat, items: seq<Item>)
    requires ValidItems(items)
    requires Holds(data, off, EncodeItems(items) + [0])
    ensures ItemsOk(data, off) && ItemsAt(data, off) == items
    ensures ItemsEnd(data, off) == off + |EncodeItems(items)|
    decreases items
  {
    if items == [] {
      assert data[off] == (EncodeItems(items) + [0])[0];
    } else {
      var first, rest := EncodeItem(items[0]), EncodeItems(items[1..]);
      assert first + (rest + [0]) == EncodeItems(items) + [0];
      HoldsSplit(data, off, first, rest + [0]);
      var next := off + |first|;
      ParseItems(data, next, items[1..]);
      ItemsCons(data, off, items[0], next);
    }
  }

  lemma ChunkParts(data: seq<byte>, p: nat, c: Chunk)
    requires ValidItems(c.items) && Holds(data, p, EncodeChunk(c))
    ensures Holds(data, p, BigEndian(c.ssrc))
    ensures Holds(data, p + 4, EncodeItems(c.items) + [0])
  {
    var items := EncodeItems(c.items);
    var head, pad := BigEndian(c.ssrc), Zeros(Padding(|items| + 1));
    assert Zeros(1 + Padding(|items| + 1)) == [0] + pad;
    assert EncodeChunk(c) == head + ((items + [0]) + pad);
    HoldsSplit(data, p, head, (items + [0]) + pad);
    HoldsSplit(data, p + 4, items + [0], pad);
  }

  lemma NextChunkAt(data: seq<byte>, p: nat, e: nat)
    requires ItemsOk(data, p + 4) && ItemsEnd(data, p + 4) == p + 4 + e
    ensures NextChunk(data, p) == p + 4 + e + 1 + Padding(e + 1)
  {
    PaddingShift(e + 1);
  }

  lemma ParseOneChunk(data: seq<byte>, p: nat, c: Chunk)
    requires ValidItems(c.items) && Holds(data, p, EncodeChunk(c))
    ensures p + 4 <= |data| && ItemsOk(data, p + 4)
    ensures ChunkAt(data, p) == c
    ensures NextChunk(data, p) == p + |EncodeChunk(c)|
  {
    ChunkParts(data, p, c);
    ParseItems(data, p + 4, c.items);
    HoldsSlice(data, p, BigEndian(c.ssrc));
    BigEndianRoundTrip(c.ssrc);
    NextChunkAt(data, p, |EncodeItems(c.items)|);
  }

  lemma ParseFirst(data: seq<byte>, p: nat, chunks: seq<Chunk>)
    requires chunks != [] && ValidChunks(chunks) && Holds(data, p, EncodeChunks(chunks))
    ensures p + 4 <= |data| && ItemsOk(data, p + 4)
    ensures ChunkAt(data, p) == chunks[0]
    ensures ValidChunks(chunks[1..]) && Holds(data, NextChunk(data, p), EncodeChunks(chunks[1..]))
  {
    var bytes, rest := EncodeChunk(chunks[0]), EncodeChunks(chunks[1..]);
    assert EncodeChunks(chunks) == bytes + rest;
    HoldsSplit(data, p, bytes, rest);
    ParseOneChunk(data, p, chunks[0]);
  }

  lemma ParseCons(data: seq<byte>, p: nat, next: nat, chunks: seq<Chunk>)
    requires chunks != [] && p + 4 <= |data| && ItemsOk(data, p + 4)
    requires ChunkAt(data, p) == chunks[0] && NextChunk(data, p) == next
    requires ChunksOk(data, next, |chunks| - 1) && ChunksAt(data, next, |chunks| - 1) == chunks[1..]
    ensures ChunksOk(data, p, |chunks|) && ChunksAt(data, p, |chunks|) == chunks
  {
    assert chunks == [chunks[0]] + chunks[1..];
  }

  /** Wherever they stand in a buffer, serialised chunks parse to exactly the chunks written. */
  lemma {:induction false} ParseChunks(data: seq<byte>, p: nat, chunks: seq<Chunk>)
    requires ValidChunks(chunks) && Holds(data, p, EncodeChunks(chunks))
    ensures ChunksOk(data, p, |chunks|) && ChunksAt(data, p, |chunks|) == chunks
    decreases chunks
  {
    if chunks != [] {
      ParseFirst(data, p, chunks);
      var next := NextChunk(data, p);
      ParseChunks(data, next, chunks[1..]);
      ParseCons(data, p, next, chunks);
    }
  }

  /** For any well-formed buffer, a chunk takes exactly as many bytes as its content serialises to. */
  lemma ChunkSize(data: seq<byte>, p: nat)
    requires p + 4 <= |data| && ItemsOk(data, p + 4)
    ensures ValidItems(ChunkAt(data, p).items)
    ensures NextChunk(data, p) - p == |EncodeChunk(ChunkAt(data, p))|
  {
    ItemsSize(data, p + 4);
    NextChunkAt(data, p, ItemsEnd(data, p + 4) - (p + 4));
  }

  lemma {:induction false} ItemsSize(data: seq<byte>, off: nat)
    requires ItemsOk(data, off)
    ensures ValidItems(ItemsAt(data, off))
    ensures ItemsEnd(data, off) - off == |EncodeItems(ItemsAt(data, off))|
    decreases |data| - off
  {
    if data[off] != 0 {
      var next := off + 2 + data[off + 1] as nat;
      ItemsSize(data, next);
      var items := ItemsAt(data, off);
      assert items[1..] == ItemsAt(data, next);
    }
  }
}

module SdesReader {
  import opened Bytes
  import opened SdesFormat

  datatype Pointer = Null | To(offset: nat)

  datatype ItemType = None | CNAME | NAME | EMAIL | PHONE | LOC | TOOL | NOTE | PRIV | Unknown

  const PRIV_ID: byte := 8

  function TypeOf(id: byte): (t: ItemType)
    ensures TypeMatches(t, id)
  {
    match id
    case 0 => None
    case 1 => CNAME
    case 2 => NAME
    case 3 => EMAIL
    case 4 => PHONE
    case 5 => LOC
    case 6 => TOOL
    case 7 => NOTE
    case 8 => PRIV
    case _ => Unknown
  }

  /** The identifiers of section 6.5 of RFC 3550. */
  ghost predicate TypeMatches(t: ItemType, id: byte) {
    && (t == None <==> id == 0)
    && (t == CNAME <==> id == 1)
    && (t == NAME <==> id == 2)
    && (t == EMAIL <==> id == 3)
    && (t == PHONE <==> id == 4)
    && (t == LOC <==> id == 5)
    && (t == TOOL <==> id == 6)
    && (t == NOTE <==> id == 7)
    && (t == PRIV <==> id == 8)
    && (t == Unknown <==> id > 8)
  }

  /** The number of chunks the common header announces: the low five bits of its first byte. */
  function HeaderCount(data: seq<byte>): (n: nat)
    requires |data| > 0
    ensures n < 32 && (data[0] as int - n) % 32 == 0
  {
    data[0] as nat % 32
  }

  /** The first byte of a packet: two bits of version, one of padding, five of count. */
  ghost predicate HasHeader(data: seq<byte>, version: nat, padding: nat, count: nat) {
    && |data| >= 4 && version < 4 && padding < 2 && count < 32
    && data[0] as int == 64 * version + 32 * padding + count
  }

  lemma CountField(data: seq<byte>, version: nat, padding: nat, count: nat)
    requires HasHeader(data, version, padding, count)
    ensures HeaderCount(data) == count
  {
  }

  /** What the packet parser checks before it calls the format known: every chunk is complete. */
  ghost predicate WellFormed(data: seq<byte>) {
    |data| >= 4 && ChunksOk(data, 4, HeaderCount(data))
  }

  /** A PRIV item whose data is the length of its prefix, the prefix and the value. */
  ghost predicate PrivOk(item: Item) {
    item.id == PRIV_ID && |item.data| > 0 && item.data[0] as int <= |item.data| - 1
  }

  ghost function PrivPrefix(item: Item): seq<byte> {
    if PrivOk(item) then item.data[1..1 + item.data[0] as int] else []
  }

  ghost function PrivValue(item: Item): seq<byte> {
    if PrivOk(item) then item.data[1 + item.data[0] as int..] else []
  }

  /** A consistent PRIV item is nothing but its prefix length, prefix and value. */
  lemma PrivSplit(item: Item)
    requires PrivOk(item)
    ensures item.data == [|PrivPrefix(item)| as byte] + PrivPrefix(item) + PrivValue(item)
    ensures |item.data| == 1 + |PrivPrefix(item)| + |PrivValue(item)|
  {
  }

  /** The PRIV item stands at `at`: its prefix after three bytes, and then its value. */
  ghost predicate PrivStands(data: seq<byte>, at: nat, item: Item) {
    && at + 1 < |data|
    && data[at + 1] as int == 1 + |PrivPrefix(item)| + |PrivValue(item)|
    && Holds(data, at + 3, PrivPrefix(item))
    && Holds(data, at + 3 + |PrivPrefix(item)|, PrivValue(item))
  }

  lemma PrivParts(data: seq<byte>, at: nat, item: Item)
    requires ItemStands(data, at, item) && PrivOk(item)
    ensures PrivStands(data, at, item)
  {
    var n := item.data[0] as int;
    HoldsPart(data, at + 2, item.data, 1, 1 + n);
    HoldsPart(data, at + 2, item.data, 1 + n, |item.data|);
  }

  /** Whether the PRIV item at `at` has consistent lengths, and the length of its prefix. */
  function PrivAt(data: seq<byte>, at: nat, ghost item: Item): (r: (bool, nat))
    requires ItemStands(data, at, item) && item.id == PRIV_ID
    ensures r.0 <==> PrivOk(item)
    ensures r.0 ==> r.1 == |PrivPrefix(item)|
  {
    if data[at + 1] == 0 then (false, 0)
    else
      HoldsPart(data, at + 2, item.data, 0, 1);
      var prefixlength := data[at + 2] as nat;
      if prefixlength > data[at + 1] as int - 1 then (false, 0) else (true, prefixlength)
  }

  /** The walk of GotoNextChunk over the items of the chunk at p: the size of the whole chunk. */
  method ChunkLength(data: seq<byte>, p: nat) returns (offset: nat)
    requires ItemsOk(data, p + 4)
    ensures p + offset == NextChunk(data, p)
  {
    offset := 4;
    while data[p + offset] != 0
      invariant 4 <= offset && ItemsOk(data, p + offset)
      invariant ItemsEnd(data, p + offset) == ItemsEnd(data, p + 4)
      decreases |data| - offset
    {
      offset := offset + 2 + data[p + offset + 1] as nat;
    }
    offset := offset + 1;
    if offset % 4 != 0 {
      offset := offset + (4 - offset % 4);
    }
  }

  class SDESPacket {
    const data: seq<byte>
    const knownformat: bool
    var currentchunk: Pointer
    var curchunknum: nat
    var itemoffset: nat
    // The position of the current item among the items of the current chunk.
    ghost var itemindex: nat

    ghost predicate Valid()
      reads this
    {
      && (knownformat ==> WellFormed(data))
      && (currentchunk.To? ==>
            && knownformat
            && 1 <= curchunknum <= HeaderCount(data)
            && currentchunk.offset == ChunkPos(data, 4, HeaderCount(data), curchunknum - 1)
            && ItemCursorOk())
    }

    ghost predicate ItemCursorOk()
      reads this
      requires currentchunk.To?
    {
      && currentchunk.offset + 4 <= |data|
      && ItemsOk(data, currentchunk.offset + 4)
      && var n := |ItemsAt(data, currentchunk.offset + 4)|;
      && (itemindex < n || (n == 0 && itemindex == 0))
      && currentchunk.offset + itemoffset == ItemPos(data, currentchunk.offset + 4, itemindex)
    }

    /** The chunks of the packet; none when the format is not known. */
    ghost function Chunks(): (r: seq<Chunk>)
      requires knownformat ==> WellFormed(data)
    {
      if knownformat then ChunksAt(data, 4, HeaderCount(data)) else []
    }

    /** The current chunk. */
    ghost function Current(): Chunk
      requires Valid() && currentchunk.To?
      reads this
    {
      ChunkAt(data, currentchunk.offset)
    }

    /** The reader's current chunk is chunk number `curchunknum` of the packet. */
    lemma CurrentIsChunk()
      requires Valid() && currentchunk.To?
      ensures curchunknum <= |Chunks()| && Current() == Chunks()[curchunknum - 1]
    {
      ChunkPosData(data, 4, HeaderCount(data), curchunknum - 1, currentchunk.offset);
    }

    ghost predicate HasItem()
      requires Valid()
      reads this
    {
      currentchunk.To? && |Current().items| > 0
    }

    /** The current item. */
    ghost function CurrentItem(): Item
      requires Valid() && HasItem()
      reads this
    {
      Current().items[itemindex]
    }

    /** There is a current item exactly when the byte at the item cursor is not zero. */
    lemma ItemZero()
      requires Valid() && currentchunk.To?
      ensures var at := currentchunk.offset + itemoffset;
              at < |data| && (HasItem() <==> data[at] != 0)
    {
      ItemPosFacts(data, currentchunk.offset + 4, itemindex, currentchunk.offset + itemoffset);
    }

    /** The current item stands at the item cursor. */
    lemma ItemFacts()
      requires Valid() && currentchunk.To?
      ensures currentchunk.offset + itemoffset < |data|
      ensures HasItem() <==> data[currentchunk.offset + itemoffset] != 0
      ensures HasItem() ==> ItemStands(data, currentchunk.offset + itemoffset, CurrentItem())
    {
      ItemZero();
      if HasItem() {
        ItemPosData(data, currentchunk.offset + 4, itemindex, currentchunk.offset + itemoffset, CurrentItem());
      }
    }

    /** Where the current item ends: the next one, or the terminating zero, starts there. */
    function ItemEnd(): (offset: nat)
      requires Valid() && HasItem()
      reads this
      ensures currentchunk.offset + offset < |data|
      ensures itemindex + 1 < |Current().items| <==> data[currentchunk.offset + offset] != 0
      ensures currentchunk.offset + offset == ItemPos(data, currentchunk.offset + 4, itemindex + 1)
    {
      var at := currentchunk.offset + itemoffset;
      assert Current().items == ItemsAt(data, currentchunk.offset + 4);
      NextItemPos(data, currentchunk.offset + 4, itemindex, at);
      itemoffset + 2 + data[at + 1] as nat
    }

    constructor (data: seq<byte>, known: bool)
      requires known ==> WellFormed(data)
      ensures Valid() && this.data == data && knownformat == known && currentchunk == Null
    {
      this.data := data;
      knownformat := known;
      currentchunk := Null;
      curchunknum := 0;
      itemoffset := 0;
      itemindex := 0;
    }

    function GetChunkCount(): (n: nat)
      requires Valid()
      reads this
      ensures n == |Chunks()|
      ensures !knownformat ==> n == 0
      ensures knownformat ==> n < 32 && (data[0] as int - n) % 32 == 0
    {
      if !knownformat then 0 else HeaderCount(data)
    }

    lemma NextStart()
      requires Valid() && currentchunk.To? && curchunknum < HeaderCount(data)
      ensures ItemsOk(data, currentchunk.offset + 4)
      ensures NextChunk(data, currentchunk.offset) == ChunkPos(data, 4, HeaderCount(data), curchunknum)
    {
      ChunkPosFacts(data, 4, HeaderCount(data), curchunknum - 1, currentchunk.offset);
    }

    /** Makes chunk k, counted from 0, which starts at p, the current chunk. */
    method EnterChunk(p: nat, k: nat)
      requires Valid() && knownformat
      requires k < HeaderCount(data) && p == ChunkPos(data, 4, HeaderCount(data), k)
      modifies this
      ensures Valid()
      ensures currentchunk == To(p) && curchunknum == k + 1 && itemindex == 0
    {
      currentchunk := To(p);
      curchunknum := k + 1;
      itemoffset := 4;
      itemindex := 0;
      ChunkPosFacts(data, 4, HeaderCount(data), k, p);
    }

    method GotoFirstChunk() returns (r: bool)
      requires Valid()
      modifies this
      ensures Valid()
      ensures r <==> |Chunks()| > 0
      ensures if r then currentchunk.To? && curchunknum == 1 && itemindex == 0 else currentchunk == Null
    {
      if GetChunkCount() == 0 {
        currentchunk := Null;
        return false;
      }
      EnterChunk(4, 0);
      return true;
    }

    method GotoNextChunk() returns (r: bool)
      requires Valid()
      modifies this
      ensures Valid()
      ensures r <==> old(currentchunk).To? && old(curchunknum) < HeaderCount(data)
      ensures r ==> currentchunk.To? && curchunknum == old(curchunknum) + 1 && itemindex == 0
      ensures !r ==> unchanged(this)
    {
      if !knownformat {
        return false;
      }
      if currentchunk == Null {
        return false;
      }
      if curchunknum == GetChunkCount() {
        return false;
      }
      var offset := ChunkLength(data, currentchunk.offset);
      NextStart();
      EnterChunk(currentchunk.offset + offset, curchunknum);
      return true;
    }

    function GetChunkSSRC(): (ssrc: uint32)
      requires Valid()
      reads this
      ensures currentchunk.To? ==> ssrc == Current().ssrc
      ensures currentchunk == Null ==> ssrc == 0
    {
      if !knownformat then 0
      else if currentchunk == Null then 0
      else
        FromBigEndian(data[currentchunk.offset..currentchunk.offset + 4])
    }

    method GotoFirstItem() returns (r: bool)
      requires Valid()
      modifies this`itemoffset, this`itemindex
      ensures Valid()
      ensures r <==> HasItem()
      ensures currentchunk.To? ==> itemindex == 0
    {
      if !knownformat {
        return false;
      }
      if currentchunk == Null {
        return false;
      }
      itemoffset := 4;
      itemindex := 0;
      ItemZero();
      if data[currentchunk.offset + itemoffset] == 0 {
        return false;
      }
      return true;
    }

    method GotoNextItem() returns (r: bool)
      requires Valid()
      modifies this`itemoffset, this`itemindex
      ensures Valid()
      ensures r <==> old(currentchunk.To? && itemindex + 1 < |Current().items|)
      ensures r ==> itemindex == old(itemindex) + 1
      ensures !r ==> unchanged(this)
    {
      if !knownformat {
        return false;
      }
      if currentchunk == Null {
        return false;
      }
      ItemZero();
      if data[currentchunk.offset + itemoffset] == 0 {
        return false;
      }
      r := Advance();
    }

    /** From a current item to the next one, if there is one. */
    method Advance() returns (r: bool)
      requires Valid() && HasItem()
      modifies this`itemoffset, this`itemindex
      ensures Valid()
      ensures r <==> old(itemindex + 1 < |Current().items|)
      ensures r ==> itemindex == old(itemindex) + 1
      ensures !r ==> unchanged(this)
    {
      var offset := ItemEnd();
      if data[currentchunk.offset + offset] == 0 {
        return false;
      }
      EnterItem(offset);
      return true;
    }

    /** Makes the item after the current one the current item. */
    method EnterItem(offset: nat)
      requires Valid() && HasItem() && itemindex + 1 < |Current().items| && offset == ItemEnd()
      modifies this`itemoffset, this`itemindex
      ensures Valid() && itemindex == old(itemindex) + 1
    {
      itemoffset := offset;
      itemindex := itemindex + 1;
    }

    function GetItemType(): (t: ItemType)
      requires Valid()
      reads this
      ensures HasItem() ==> t == TypeOf(CurrentItem().id)
      ensures t == None <==> !HasItem()
      ensures t == CNAME <==> HasItem() && CurrentItem().id == 1
      ensures t == NAME <==> HasItem() && CurrentItem().id == 2
      ensures t == EMAIL <==> HasItem() && CurrentItem().id == 3
      ensures t == PHONE <==> HasItem() && CurrentItem().id == 4
      ensures t == LOC <==> HasItem() && CurrentItem().id == 5
      ensures t == TOOL <==> HasItem() && CurrentItem().id == 6
      ensures t == NOTE <==> HasItem() && CurrentItem().id == 7
      ensures t == PRIV <==> HasItem() && CurrentItem().id == 8
      ensures t == Unknown <==> HasItem() && CurrentItem().id > 8
    {
      if !knownformat then None
      else if currentchunk == Null then None
      else
        ItemFacts();
        TypeOf(data[currentchunk.offset + itemoffset])
    }

    function GetItemLength(): (n: nat)
      requires Valid()
      reads this
      ensures n == if HasItem() then |CurrentItem().data| else 0
    {
      if !knownformat then 0
      else if currentchunk == Null then 0
      else
        ItemFacts();
        var at := currentchunk.offset + itemoffset;
        if data[at] == 0 then 0 else data[at + 1] as nat
    }

    function GetItemData(): (d: Pointer)
      requires Valid()
      reads this
      ensures HasItem() ==> d.To? && Holds(data, d.offset, CurrentItem().data)
      ensures !HasItem() ==> d == Null
    {
      if !knownformat then Null
      else if currentchunk == Null then Null
      else
        ItemFacts();
        var at := currentchunk.offset + itemoffset;
        if data[at] == 0 then Null else To(at + 2)
    }

    /** Whether the current item is a PRIV item with consistent lengths, and its prefix length. */
    function PrivCheck(): (r: (bool, nat))
      requires Valid()
      reads this
      ensures r.0 <==> HasItem() && PrivOk(CurrentItem())
      ensures r.0 ==> r.1 == |PrivPrefix(CurrentItem())|
    {
      if !knownformat then (false, 0)
      else if currentchunk == Null then (false, 0)
      else
        ItemFacts();
        var at := currentchunk.offset + itemoffset;
        if data[at] != PRIV_ID then (false, 0)
        else
          PrivAt(data, at, CurrentItem())
    }

    lemma PrivFacts()
      requires Valid() && HasItem() && PrivOk(CurrentItem())
      ensures PrivStands(data, currentchunk.offset + itemoffset, CurrentItem())
    {
      ItemFacts();
      PrivParts(data, currentchunk.offset + itemoffset, CurrentItem());
    }

    function GetPRIVPrefixLength(): (n: nat)
      requires Valid()
      reads this
      ensures n == if HasItem() then |PrivPrefix(CurrentItem())| else 0
      ensures HasItem() ==>
                var item := CurrentItem();
                n == if item.id == 8 && |item.data| > 0 && item.data[0] as int <= |item.data| - 1
                     then item.data[0] as int else 0
    {
      var (ok, prefixlength) := PrivCheck();
      if ok then prefixlength else 0
    }

    function GetPRIVPrefixData(): (d: Pointer)
      requires Valid()
      reads this
      ensures d.To? <==> HasItem() && |PrivPrefix(CurrentItem())| > 0
      ensures d.To? ==> Holds(data, d.offset, PrivPrefix(CurrentItem()))
    {
      var (ok, prefixlength) := PrivCheck();
      if !ok || prefixlength == 0 then Null
      else
        PrivFacts();
        To(currentchunk.offset + itemoffset + 2 + 1)
    }

    function GetPRIVValueLength(): (n: nat)
      requires Valid()
      reads this
      ensures n == if HasItem() then |PrivValue(CurrentItem())| else 0
      ensures HasItem() ==>
                var item := CurrentItem();
                n == if item.id == 8 && |item.data| > 0 && item.data[0] as int <= |item.data| - 1
                     then |item.data| - 1 - item.data[0] as int else 0
    {
      var (ok, prefixlength) := PrivCheck();
      if !ok then 0
      else
        PrivFacts();
        data[currentchunk.offset + itemoffset + 1] as nat - prefixlength - 1
    }

    function GetPRIVValueData(): (d: Pointer)
      requires Valid()
      reads this
      ensures d.To? <==> HasItem() && |PrivValue(CurrentItem())| > 0
      ensures d.To? ==> Holds(data, d.offset, PrivValue(CurrentItem()))
    {
      var (ok, prefixlength) := PrivCheck();
      if !ok then Null
      else
        PrivFacts();
        var valuelen := GetPRIVValueLength();
        if valuelen == 0 then Null
        else To(currentchunk.offset + itemoffset + 2 + 1 + prefixlength)
    }
  }

  lemma SliceIs(data: seq<byte>, off: nat, n: nat, part: seq<byte>)
    requires Holds(data, off, part) && n == |part|
    ensures off + n <= |data| && data[off..off + n] == part
  {
    HoldsSlice(data, off, part);
  }

  function ReadData(r: SDESPacket): (bytes: seq<byte>)
    requires r.Valid() && r.HasItem()
    reads r
    ensures bytes == r.CurrentItem().data
  {
    var d, n := r.GetItemData(), r.GetItemLength();
    SliceIs(r.data, d.offset, n, r.CurrentItem().data);
    r.data[d.offset..d.offset + n]
  }

  function ReadItem(r: SDESPacket): (entry: (ItemType, seq<byte>))
    requires r.Valid() && r.HasItem()
    reads r
    ensures entry == (TypeOf(r.CurrentItem().id), r.CurrentItem().data)
  {
    (r.GetItemType(), ReadData(r))
  }

  /** A client's walk over the items of the current chunk. */
  method ReadItems(r: SDESPacket) returns (items: seq<(ItemType, seq<byte>)>)
    requires r.Valid() && r.currentchunk.To?
    modifies r`itemoffset, r`itemindex
    ensures r.Valid()
    ensures items == Typed(r.Current().items)
  {
    items := [];
    var more := r.GotoFirstItem();
    ghost var all := r.Current().items;
    while more
      invariant r.Valid() && r.Current().items == all
      invariant |items| <= |all| && items == Typed(all[..|items|])
      invariant more ==> |items| == r.itemindex < |all|
      invariant !more ==> |items| == |all|
      decreases |all| - |items|, more
    {
      var entry := ReadItem(r);
      TypedSnoc(all, |items|);
      items := items + [entry];
      more := r.GotoNextItem();
    }
    assert all[..|all|] == all;
  }

  /** What a reader of an item list sees: the type and the data of each. */
  ghost function Typed(items: seq<Item>): (r: seq<(ItemType, seq<byte>)>)
    ensures |r| == |items|
    ensures forall i :: 0 <= i < |r| ==> TypeMatches(r[i].0, items[i].id) && r[i].1 == items[i].data
  {
    seq(|items|, i requires 0 <= i < |items| => (TypeOf(items[i].id), items[i].data))
  }

  lemma TypedSnoc(items: seq<Item>, n: nat)
    requires n < |items|
    ensures Typed(items[..n + 1]) == Typed(items[..n]) + [(TypeOf(items[n].id), items[n].data)]
  {
  }

  /** What a reader of a packet sees. */
  ghost function View(chunks: seq<Chunk>): (r: seq<(uint32, seq<(ItemType, seq<byte>)>)>)
    ensures |r| == |chunks|
  {
    seq(|chunks|, i requires 0 <= i < |chunks| => (chunks[i].ssrc, Typed(chunks[i].items)))
  }

  lemma ViewSnoc(chunks: seq<Chunk>, n: nat)
    requires n < |chunks|
    ensures View(chunks[..n + 1]) == View(chunks[..n]) + [(chunks[n].ssrc, Typed(chunks[n].items))]
  {
  }

  /** A client's walk over a whole packet: it ends, and it sees every chunk and item in order. */
  method ReadAll(r: SDESPacket) returns (chunks: seq<(uint32, seq<(ItemType, seq<byte>)>)>)
    requires r.Valid()
    modifies r
    ensures r.Valid() && chunks == View(r.Chunks())
    ensures Sees(chunks, r.Chunks())
  {
    chunks := [];
    ghost var all := r.Chunks();
    var more := r.GotoFirstChunk();
    while more
      invariant r.Valid()
      invariant |chunks| <= |all| && chunks == View(all[..|chunks|])
      invariant more ==> r.currentchunk.To? && |chunks| == r.curchunknum - 1 < |all|
      invariant !more ==> |chunks| == |all|
      decreases |all| - |chunks|, more
    {
      r.CurrentIsChunk();
      var ssrc := r.GetChunkSSRC();
      var items := ReadItems(r);
      ViewSnoc(all, |chunks|);
      chunks := chunks + [(ssrc, items)];
      more := r.GotoNextChunk();
    }
    assert all[..|all|] == all;
    ViewSees(all);
  }

  /** Chunk by chunk and item by item: the same SSRC, the type that belongs to the identifier, and
      the same data. */
  ghost predicate Sees(view: seq<(uint32, seq<(ItemType, seq<byte>)>)>, chunks: seq<Chunk>) {
    && |view| == |chunks|
    && forall k :: 0 <= k < |chunks| ==>
         view[k].0 == chunks[k].ssrc && SeesItems(view[k].1, chunks[k].items)
  }

  ghost predicate SeesItems(view: seq<(ItemType, seq<byte>)>, items: seq<Item>) {
    && |view| == |items|
    && forall i :: 0 <= i < |items| ==> TypeMatches(view[i].0, items[i].id) && view[i].1 == items[i].data
  }

  lemma ViewSees(chunks: seq<Chunk>)
    ensures Sees(View(chunks), chunks)
  {
    forall k | 0 <= k < |chunks|
      ensures View(chunks)[k].0 == chunks[k].ssrc && SeesItems(View(chunks)[k].1, chunks[k].items)
    {
      assert View(chunks)[k] == (chunks[k].ssrc, Typed(chunks[k].items));
    }
  }

  /** A packet: its header announces the chunks that follow it; anything may follow them. */
  ghost predicate IsPacketFor(data: seq<byte>, version: nat, padding: nat, chunks: seq<Chunk>) {
    && ValidChunks(chunks)
    && HasHeader(data, version, padding, |chunks|)
    && Holds(data, 4, EncodeChunks(chunks))
  }

  /** The round trip: a packet written for some chunks is well formed, and its chunks are those. */
  lemma RoundTrip(data: seq<byte>, version: nat, padding: nat, chunks: seq<Chunk>)
    requires IsPacketFor(data, version, padding, chunks)
    ensures WellFormed(data) && HeaderCount(data) == |chunks|
    ensures ChunksAt(data, 4, |chunks|) == chunks
  {
    CountField(data, version, padding, |chunks|);
    ParseChunks(data, 4, chunks);
  }

  /** From the written packet to what a client sees of it. */
  method ReadWritten(data: seq<byte>, ghost version: nat, ghost padding: nat, ghost chunks: seq<Chunk>)
    returns (view: seq<(uint32, seq<(ItemType, seq<byte>)>)>)
    requires IsPacketFor(data, version, padding, chunks)
    ensures Sees(view, chunks)
  {
    RoundTrip(data, version, padding, chunks);
    var r := new SDESPacket(data, true);
    view := ReadAll(r);
  }

  /** The distance GotoNextChunk moves over chunk k is the size its content serialises to. */
  lemma ChunkAdvance(data: seq<byte>, k: nat)
    requires WellFormed(data) && k + 1 < HeaderCount(data)
    ensures var chunk := ChunksAt(data, 4, HeaderCount(data))[k];
            && ValidItems(chunk.items)
            && ChunkPos(data, 4, HeaderCount(data), k + 1) - ChunkPos(data, 4, HeaderCount(data), k)
               == |EncodeChunk(chunk)|
  {
    var n := HeaderCount(data);
    var p := ChunkPos(data, 4, n, k);
    ChunkPosFacts(data, 4, n, k, p);
    ChunkPosData(data, 4, n, k, p);
    ChunkSize(data, p);
  }
}

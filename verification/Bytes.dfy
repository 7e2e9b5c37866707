/** The unsigned machine integers of the sources, and how words stand in a byte buffer. */
module Bytes {
  newtype byte = x: int | 0 <= x < 256
  type uint32 = x: int | 0 <= x < 0x1_0000_0000
  type uint64 = x: int | 0 <= x < 0x1_0000_0000_0000_0000

  /** The four base-256 digits of x, most significant first. */
  function BigEndian(x: uint32): (r: seq<byte>)
    ensures |r| == 4
    ensures r[0] as int * 0x100_0000 + r[1] as int * 0x1_0000 + r[2] as int * 0x100 + r[3] as int == x
  {
    var h, l := x / 0x1_0000, x % 0x1_0000;
    [(h / 256) as byte, (h % 256) as byte, (l / 256) as byte, (l % 256) as byte]
  }

  /** ntohl of four bytes: the first one counts most. */
  function FromBigEndian(s: seq<byte>): (x: uint32)
    requires |s| == 4
    ensures x == s[0] as int * 0x100_0000 + s[1] as int * 0x1_0000 + s[2] as int * 0x100 + s[3] as int
  {
    (s[0] as int * 256 + s[1] as int) * 0x1_0000 + (s[2] as int * 256 + s[3] as int)
  }

  lemma BigEndianRoundTrip(x: uint32)
    ensures FromBigEndian(BigEndian(x)) == x
  {
    var h, l := x / 0x1_0000, x % 0x1_0000;
    assert x == h * 0x1_0000 + l;
    assert h == h / 256 * 256 + h % 256 && l == l / 256 * 256 + l % 256;
  }

  /** The bytes stand in the buffer at off. */
  ghost predicate Holds(data: seq<byte>, off: nat, bytes: seq<byte>) {
    && off + |bytes| <= |data|
    && forall i {:trigger bytes[i]} :: 0 <= i < |bytes| ==> data[off + i] == bytes[i]
  }

  lemma HoldsSlice(data: seq<byte>, off: nat, bytes: seq<byte>)
    requires off + |bytes| <= |data|
    ensures Holds(data, off, bytes) <==> data[off..off + |bytes|] == bytes
  {
    if data[off..off + |bytes|] == bytes {
      forall i | 0 <= i < |bytes|
        ensures data[off + i] == bytes[i]
      {
        assert data[off..off + |bytes|][i] == data[off + i];
      }
    }
  }

  lemma HoldsSplit(data: seq<byte>, off: nat, a: seq<byte>, b: seq<byte>)
    requires Holds(data, off, a + b)
    ensures Holds(data, off, a) && Holds(data, off + |a|, b)
  {
    forall i | 0 <= i < |a|
      ensures data[off + i] == a[i]
    {
      assert (a + b)[i] == a[i];
    }
    forall i | 0 <= i < |b|
      ensures data[off + |a| + i] == b[i]
    {
      assert (a + b)[|a| + i] == b[i];
    }
  }

  lemma HoldsPart(data: seq<byte>, off: nat, bytes: seq<byte>, i: nat, j: nat)
    requires Holds(data, off, bytes) && i <= j <= |bytes|
    ensures Holds(data, off + i, bytes[i..j])
    ensures i < j ==> data[off + i] == bytes[i]
  {
    forall k | 0 <= k < j - i
      ensures data[off + i + k] == bytes[i..j][k]
    {
      assert bytes[i..j][k] == bytes[i + k];
    }
    assert i < j ==> bytes[i..j][0] == bytes[i];
  }
}

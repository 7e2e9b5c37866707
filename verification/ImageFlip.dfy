// In-place image flips on a flat byte buffer: Flip swaps rows, Mirror swaps the pixels of each
// row, FlipAndMirror does one after the other.

/** Block reversal on byte sequences: what the flips mean. */
module Blocks {

  /** The n blocks of s, last block first; bytes keep their order inside a block of `size` bytes. */
  function ReverseBlocks<T>(s: seq<T>, n: nat, size: nat): (r: seq<T>)
    ensures |r| == |s|
    decreases n
  {
    if n == 0 || |s| < size then s
    else
      ReverseBlocks(s[size..], n - 1, size) + s[..size]
  }

  /** Each of the h rows of w pixels has its pixels reversed; rows stay where they are. */
  function MirrorRows<T>(s: seq<T>, w: nat, h: nat, size: nat): (r: seq<T>)
    ensures |r| == |s|
    decreases h
  {
    var row: int := w * size;
    if h == 0 || !(0 <= row <= |s|) then s
    else
      ReverseBlocks(s[..row], w, size) + MirrorRows(s[row..], w, h - 1, size)
  }

  /** Block b of s. */
  function Block<T>(s: seq<T>, b: nat, size: nat): (r: seq<T>)
    requires (b + 1) * size <= |s|
  {
    BlockStart(b, size);
    s[b * size..b * size + size]
  }

  lemma BlockLength(n: nat, size: nat)
    requires n > 0
    ensures n * size == (n - 1) * size + size
    ensures n * size >= size && (n - 1) * size >= 0
  {
  }

  lemma BlockStart(b: nat, size: nat)
    ensures 0 <= b * size && (b + 1) * size == b * size + size
  {
  }

  lemma BlockFits(b: nat, n: nat, size: nat)
    requires b < n
    ensures 0 <= b * size && b * size + size == (b + 1) * size <= n * size
  {
    BlockStart(b, size);
    Distribute(b + 1, n - b - 1, size);
  }

  lemma Distribute(m: nat, n: nat, size: nat)
    ensures (m + n) * size == m * size + n * size
    ensures m * size >= 0 && n * size >= 0
  {
  }

  lemma {:induction false} ReverseConcat<T>(s: seq<T>, t: seq<T>, m: nat, n: nat, size: nat)
    requires |s| == m * size && |t| == n * size
    ensures |s + t| == (m + n) * size
    ensures ReverseBlocks(s + t, m + n, size) == ReverseBlocks(t, n, size) + ReverseBlocks(s, m, size)
    decreases m
  {
    if m == 0 {
      assert s + t == t;
    } else {
      BlockLength(m, size);
      Distribute(m, n, size);
      var rest := s[size..];
      assert (s + t)[size..] == rest + t && (s + t)[..size] == s[..size];
      calc {
        ReverseBlocks(s + t, m + n, size);
        ReverseBlocks(rest + t, m + n - 1, size) + s[..size];
        { ReverseConcat(rest, t, m - 1, n, size); }
        ReverseBlocks(t, n, size) + ReverseBlocks(rest, m - 1, size) + s[..size];
        ReverseBlocks(t, n, size) + ReverseBlocks(s, m, size);
      }
    }
  }

  lemma ReverseOne<T>(s: seq<T>, size: nat)
    requires |s| == size
    ensures ReverseBlocks(s, 1, size) == s
  {
    assert ReverseBlocks<T>(s[size..], 0, size) == [];
    assert s[..size] == s;
  }

  /** Reversing blocks twice gives the buffer back. */
  lemma {:induction false} ReverseInvolution<T>(s: seq<T>, n: nat, size: nat)
    requires |s| == n * size
    ensures ReverseBlocks(ReverseBlocks(s, n, size), n, size) == s
    decreases n
  {
    if n > 0 {
      BlockLength(n, size);
      ReverseConcat(ReverseBlocks(s[size..], n - 1, size), s[..size], n - 1, 1, size);
      ReverseOne(s[..size], size);
      ReverseInvolution(s[size..], n - 1, size);
    }
  }

  lemma Slices<T>(a: seq<T>, b: seq<T>, o: nat, size: nat)
    ensures o + size <= |a| ==> (a + b)[o..o + size] == a[o..o + size]
    ensures (a + b)[|a|..|a| + |b|] == b
  {
  }

  lemma SliceOfDrop<T>(s: seq<T>, d: nat, o: nat, size: nat)
    requires d + o + size <= |s|
    ensures s[d..][o..o + size] == s[d + o..d + o + size]
  {
  }

  /** Where each block goes: block b of the result is block n-1-b of the input. */
  lemma {:induction false} ReverseBlockAt<T>(s: seq<T>, n: nat, size: nat, b: nat)
    requires |s| == n * size && b < n
    ensures (b + 1) * size <= n * size && (n - b) * size <= n * size
    ensures Block(ReverseBlocks(s, n, size), b, size) == Block(s, n - 1 - b, size)
    decreases n
  {
    BlockLength(n, size);
    BlockFits(b, n, size);
    BlockFits(n - 1 - b, n, size);
    var rest, at := ReverseBlocks(s[size..], n - 1, size), b * size;
    var rev := rest + s[..size];
    assert Block(rev, b, size) == rev[at..at + size];
    Slices(rest, s[..size], at, size);
    if b == n - 1 {
      assert Block(rev, b, size) == s[..size];
      FirstBlock(s, size);
    } else {
      BlockFits(b, n - 1, size);
      BlockLength(n - 1 - b, size);
      BlockFits(n - 2 - b, n - 1, size);
      ReverseBlockAt(s[size..], n - 1, size, b);
      SliceOfDrop(s, size, (n - 2 - b) * size, size);
    }
  }

  lemma {:induction false} MirrorConcat<T>(s: seq<T>, t: seq<T>, w: nat, m: nat, n: nat, size: nat)
    requires |s| == m * (w * size) && |t| == n * (w * size)
    ensures |s + t| == (m + n) * (w * size)
    ensures MirrorRows(s + t, w, m + n, size) == MirrorRows(s, w, m, size) + MirrorRows(t, w, n, size)
    decreases m
  {
    var row := w * size;
    Distribute(m, n, row);
    if m == 0 {
      assert s + t == t;
    } else {
      BlockLength(m, row);
      var first, rest := ReverseBlocks(s[..row], w, size), s[row..];
      assert (s + t)[row..] == rest + t && (s + t)[..row] == s[..row];
      calc {
        MirrorRows(s + t, w, m + n, size);
        first + MirrorRows(rest + t, w, m + n - 1, size);
        { MirrorConcat(rest, t, w, m - 1, n, size); }
        first + (MirrorRows(rest, w, m - 1, size) + MirrorRows(t, w, n, size));
        MirrorRows(s, w, m, size) + MirrorRows(t, w, n, size);
      }
    }
  }

  lemma MirrorOne<T>(s: seq<T>, w: nat, size: nat)
    requires |s| == w * size
    ensures MirrorRows(s, w, 1, size) == ReverseBlocks(s, w, size)
  {
    var row := w * size;
    assert s[..row] == s && MirrorRows<T>(s[row..], w, 0, size) == [];
  }

  lemma {:induction false} MirrorInvolution<T>(s: seq<T>, w: nat, h: nat, size: nat)
    requires |s| == h * (w * size)
    ensures MirrorRows(MirrorRows(s, w, h, size), w, h, size) == s
    decreases h
  {
    var row := w * size;
    if h > 0 {
      BlockLength(h, row);
      var first := ReverseBlocks(s[..row], w, size);
      MirrorConcat(first, MirrorRows(s[row..], w, h - 1, size), w, 1, h - 1, size);
      MirrorOne(first, w, size);
      ReverseInvolution(s[..row], w, size);
      MirrorInvolution(s[row..], w, h - 1, size);
    }
  }

  /** Row i of the mirrored image is row i of the image with its pixels reversed. */
  lemma {:induction false} MirrorRowAt<T>(s: seq<T>, w: nat, h: nat, size: nat, row: nat, i: nat)
    requires row == w * size && |s| == h * row && i < h
    ensures (i + 1) * row <= |s|
    ensures Block(MirrorRows(s, w, h, size), i, row) == ReverseBlocks(Block(s, i, row), w, size)
    decreases h
  {
    BlockLength(h, row);
    BlockFits(i, h, row);
    var first, rest := ReverseBlocks(s[..row], w, size), MirrorRows(s[row..], w, h - 1, size);
    assert MirrorRows(s, w, h, size) == first + rest;
    if i == 0 {
      FirstBlock(s, row);
      FirstBlock(first + rest, row);
      assert (first + rest)[..row] == first;
    } else {
      BlockFits(i - 1, h - 1, row);
      MirrorRowAt(s[row..], w, h - 1, size, row, i - 1);
      assert (first + rest)[row..] == rest;
      BlockOfDrop(first + rest, row, i);
      BlockOfDrop(s, row, i);
    }
  }

  lemma FirstBlock<T>(s: seq<T>, size: nat)
    requires size <= |s|
    ensures Block(s, 0, size) == s[..size]
  {
  }

  lemma BlockOfDrop<T>(s: seq<T>, size: nat, b: nat)
    requires b > 0 && 0 <= b * size && (b + 1) * size <= |s| && size <= |s|
    ensures b * size <= |s| - size
    ensures Block(s, b, size) == Block(s[size..], b - 1, size)
  {
    BlockLength(b, size);
    BlockLength(b + 1, size);
    SliceOfDrop(s, size, (b - 1) * size, size);
  }

  /** Mirroring the rows of a flipped image reverses its whole sequence of pixels. */
  lemma {:induction false} FlipThenMirror<T>(s: seq<T>, w: nat, h: nat, size: nat, row: nat, pixels: nat)
    requires row == w * size && pixels == h * w
    requires |s| == h * row == pixels * size
    ensures MirrorRows(ReverseBlocks(s, h, row), w, h, size) == ReverseBlocks(s, pixels, size)
    decreases h
  {
    if h > 0 {
      RowOff(w, h, size, row, pixels);
      FlipThenMirror(s[row..], w, h - 1, size, row, pixels - w);
      MirrorSnoc(ReverseBlocks(s[row..], h - 1, row), s[..row], w, h - 1, size, row);
      ReverseSplit(s, w, size, row, pixels);
    }
  }

  /** Flipping the mirrored image gives the same: the two commute. */
  lemma {:induction false} MirrorThenFlip<T>(s: seq<T>, w: nat, h: nat, size: nat, row: nat, pixels: nat)
    requires row == w * size && pixels == h * w
    requires |s| == h * row == pixels * size
    ensures ReverseBlocks(MirrorRows(s, w, h, size), h, row) == ReverseBlocks(s, pixels, size)
    decreases h
  {
    if h > 0 {
      RowOff(w, h, size, row, pixels);
      MirrorThenFlip(s[row..], w, h - 1, size, row, pixels - w);
      var first := ReverseBlocks(s[..row], w, size);
      var rest := MirrorRows(s[row..], w, h - 1, size);
      assert (first + rest)[row..] == rest && (first + rest)[..row] == first;
      ReverseSplit(s, w, size, row, pixels);
    }
  }

  lemma MirrorSnoc<T>(s: seq<T>, t: seq<T>, w: nat, m: nat, size: nat, row: nat)
    requires row == w * size && |s| == m * row && |t| == row
    ensures |s + t| == (m + 1) * row
    ensures MirrorRows(s + t, w, m + 1, size) == MirrorRows(s, w, m, size) + ReverseBlocks(t, w, size)
  {
    MirrorConcat(s, t, w, m, 1, size);
    MirrorOne(t, w, size);
  }

  lemma ReverseSplit<T>(s: seq<T>, w: nat, size: nat, row: nat, pixels: nat)
    requires row == w * size <= |s| == pixels * size && pixels >= w
    requires |s| - row == (pixels - w) * size
    ensures ReverseBlocks(s, pixels, size)
            == ReverseBlocks(s[row..], pixels - w, size) + ReverseBlocks(s[..row], w, size)
  {
    ReverseConcat(s[..row], s[row..], w, pixels - w, size);
    assert s == s[..row] + s[row..];
  }

  lemma RowOff(w: nat, h: nat, size: nat, row: nat, pixels: nat)
    requires h > 0 && row == w * size && pixels == h * w && h * row == pixels * size
    ensures pixels - w == (h - 1) * w && pixels >= w
    ensures h * row == (h - 1) * row + row
    ensures (h - 1) * row == (pixels - w) * size
    ensures (h - 1) * row >= 0
  {
    BlockLength(h, row);
    BlockLength(h, w);
    Distribute(w, pixels - w, size);
  }

  /** Both orders of flipping and mirroring turn the image by half a turn. */
  lemma HalfTurn<T>(s: seq<T>, w: nat, h: nat, size: nat, row: nat, pixels: nat)
    requires row == w * size && pixels == h * w && |s| == h * row
    ensures MirrorRows(ReverseBlocks(s, h, row), w, h, size) == ReverseBlocks(s, pixels, size)
    ensures ReverseBlocks(MirrorRows(s, w, h, size), h, row) == ReverseBlocks(s, pixels, size)
  {
    Associative(h, w, size);
    FlipThenMirror(s, w, h, size, row, pixels);
    MirrorThenFlip(s, w, h, size, row, pixels);
  }

  lemma Associative(a: nat, b: nat, c: nat)
    ensures a * (b * c) == (a * b) * c
  {
  }
}

module ImageFlip {
  import opened Blocks
  import opened Bytes

  /** Copies n bytes; the two regions may share a buffer but must not overlap. */
  method Memcpy(dst: array<byte>, d: nat, src: array<byte>, s: nat, n: nat)
    requires d + n <= dst.Length && s + n <= src.Length
    requires dst != src || d + n <= s || s + n <= d
    modifies dst
    ensures dst[..] == old(dst[..d]) + old(src[s..s + n]) + old(dst[d + n..])
  {
    forall i | 0 <= i < n {
      dst[d + i] := src[s + i];
    }
  }

  lemma Cut<T>(a: seq<T>, b: seq<T>, c: seq<T>)
    ensures (a + b + c)[..|a|] == a
    ensures (a + b + c)[|a|..|a| + |b|] == b
    ensures (a + b + c)[|a| + |b|..] == c
  {
  }

  /** Overwrites the n bytes y of a buffer f + y + b with the n bytes x of another place. */
  method Overwrite(dst: array<byte>, d: nat, src: array<byte>, s: nat, n: nat,
                   ghost f: seq<byte>, ghost y: seq<byte>, ghost b: seq<byte>, ghost x: seq<byte>)
    requires d + n <= dst.Length && s + n <= src.Length
    requires dst != src || d + n <= s || s + n <= d
    requires dst[..] == f + y + b && |f| == d && |y| == n && src[s..s + n] == x
    modifies dst
    ensures dst[..] == f + x + b
  {
    Cut(f, y, b);
    assert dst[..d] == dst[..][..d] && dst[d + n..] == dst[..][d + n..];
    Memcpy(dst, d, src, s, n);
  }

  /** The three copies through the temporary buffer: the regions x and y change places. */
  method SwapRegions(img: array<byte>, temp: array<byte>, o: nat, q: nat, size: nat,
                     ghost f: seq<byte>, ghost x: seq<byte>, ghost m: seq<byte>, ghost y: seq<byte>,
                     ghost b: seq<byte>)
    requires img[..] == f + x + m + y + b && |x| == |y| == size && |f| == o && |f + x + m| == q
    requires temp != img && temp.Length == size
    modifies img, temp
    ensures img[..] == f + y + m + x + b
  {
    assert temp[..] == [] + temp[..] + [];
    Cut(f, x, m + y + b);
    assert img[..] == f + x + (m + y + b);
    assert img[o..o + size] == img[..][o..o + size];
    Overwrite(temp, 0, img, o, size, [], temp[..], [], x);
    Cut(f + x + m, y, b);
    assert img[q..q + size] == img[..][q..q + size];
    Overwrite(img, o, img, q, size, f, x, m + y + b, y);
    assert img[..] == (f + y + m) + y + b;
    assert temp[0..size] == temp[..] == x;
    Overwrite(img, q, temp, 0, size, f + y + m, y, b, x);
  }

  /** Half-way state of a reversal of s: j blocks at each end, originally a and z, are exchanged. */
  ghost predicate Halfway(s: seq<byte>, a: seq<byte>, mid: seq<byte>, z: seq<byte>, n: nat, size: nat, j: nat) {
    && 2 * j <= n
    && s == a + mid + z
    && |a| == |z| == j * size
    && |mid| == (n - 2 * j) * size
  }

  /** One more block at each end: x joins a and y joins z. */
  lemma HalfwayStep(s: seq<byte>, a: seq<byte>, x: seq<byte>, m: seq<byte>, y: seq<byte>, z: seq<byte>,
                    n: nat, size: nat, j: nat)
    requires Halfway(s, a, x + m + y, z, n, size, j) && 2 * (j + 1) <= n && |x| == |y| == size
    ensures Halfway(s, a + x, m, y + z, n, size, j + 1)
    ensures ReverseBlocks(a + x, j + 1, size) == x + ReverseBlocks(a, j, size)
    ensures ReverseBlocks(y + z, j + 1, size) == ReverseBlocks(z, j, size) + y
    ensures (n - j - 1) * size == j * size + size + |m|
  {
    Distribute(j, 1, size);
    Distribute(n - 2 * j - 2, 2, size);
    Distribute(j + 1, n - 2 * j - 2, size);
    assert s == (a + x) + m + (y + z);
    ReverseConcat(a, x, j, 1, size);
    ReverseOne(x, size);
    ReverseConcat(y, z, 1, j, size);
    ReverseOne(y, size);
  }

  /** When at most the centre block is left, the reversal is complete. */
  lemma HalfwayEnd(s: seq<byte>, a: seq<byte>, mid: seq<byte>, z: seq<byte>, size: nat, j: nat, c: nat)
    requires s == a + mid + z && |a| == |z| == j * size && |mid| == c * size && c <= 1
    ensures ReverseBlocks(s, j + (c + j), size)
            == ReverseBlocks(z, j, size) + mid + ReverseBlocks(a, j, size)
  {
    assert s == a + (mid + z);
    Distribute(c, j, size);
    ReverseConcat(mid, z, c, j, size);
    ReverseConcat(a, mid + z, j, c + j, size);
    CentreFixed(mid, c, size);
  }

  lemma CentreFixed(mid: seq<byte>, c: nat, size: nat)
    requires c <= 1 && |mid| == c * size
    ensures ReverseBlocks(mid, c, size) == mid
  {
    if c == 1 {
      ReverseOne(mid, size);
    }
  }

  /** A block of the middle at each end. */
  lemma Middle(mid: seq<byte>, n: nat, size: nat, j: nat) returns (x: seq<byte>, m: seq<byte>, y: seq<byte>)
    requires 2 * (j + 1) <= n && |mid| == (n - 2 * j) * size
    ensures mid == x + m + y && |x| == |y| == size
  {
    Distribute(n - 2 * j - 2, 2, size);
    x, m, y := mid[..size], mid[size..|mid| - size], mid[|mid| - size..];
  }

  /** Exchanges the outer blocks x and y of a partly reversed buffer. */
  method ExchangeEnds(img: array<byte>, temp: array<byte>, o: nat, q: nat, size: nat,
                      ghost front: seq<byte>, ghost l: seq<byte>, ghost x: seq<byte>, ghost m: seq<byte>,
                      ghost y: seq<byte>, ghost r: seq<byte>, ghost back: seq<byte>)
    requires img[..] == front + l + (x + m + y) + r + back
    requires |x| == |y| == size && o == |front| + |l| && q == o + size + |m|
    requires temp != img && temp.Length == size
    modifies img, temp
    ensures img[..] == front + (l + y) + m + (x + r) + back
  {
    Regroup(front, l, x, m, y, r, back);
    SwapRegions(img, temp, o, q, size, front + l, x, m, y, r + back);
    Regroup(front, l, y, m, x, r, back);
  }

  lemma Regroup(front: seq<byte>, l: seq<byte>, x: seq<byte>, m: seq<byte>, y: seq<byte>, r: seq<byte>,
                back: seq<byte>)
    ensures front + l + (x + m + y) + r + back == (front + l) + x + m + y + (r + back)
    ensures front + (l + x) + m + (y + r) + back == (front + l) + x + m + y + (r + back)
  {
  }

  lemma Regroup3(front: seq<byte>, l: seq<byte>, m: seq<byte>, r: seq<byte>, back: seq<byte>)
    ensures front + l + m + r + back == front + (l + m + r) + back
  {
  }

  /** The buffer while s is being reversed in it, between front and back. */
  ghost predicate Reversing(buf: seq<byte>, front: seq<byte>, s: seq<byte>, back: seq<byte>,
                            a: seq<byte>, mid: seq<byte>, z: seq<byte>, n: nat, size: nat, j: nat) {
    && Halfway(s, a, mid, z, n, size, j)
    && buf == front + ReverseBlocks(z, j, size) + mid + ReverseBlocks(a, j, size) + back
  }

  lemma ReversingStart(buf: seq<byte>, front: seq<byte>, s: seq<byte>, back: seq<byte>, n: nat, size: nat)
    requires buf == front + s + back && |s| == n * size
    ensures Reversing(buf, front, s, back, [], s, [], n, size, 0)
  {
    assert ReverseBlocks<byte>([], 0, size) == [];
    assert s == [] + s + [];
    assert front + [] + s + [] == front + s;
  }

  lemma ReversingEnd(buf: seq<byte>, front: seq<byte>, s: seq<byte>, back: seq<byte>,
                     a: seq<byte>, mid: seq<byte>, z: seq<byte>, n: nat, size: nat, j: nat)
    requires Reversing(buf, front, s, back, a, mid, z, n, size, j) && n <= 2 * j + 1
    ensures buf == front + ReverseBlocks(s, n, size) + back
  {
    var c := n - 2 * j;
    HalfwayEnd(s, a, mid, z, size, j, c);
    assert n == j + (c + j);
    Regroup3(front, ReverseBlocks(z, j, size), mid, ReverseBlocks(a, j, size), back);
  }

  /** One round of the swap loop: blocks j and n - 1 - j change places. */
  method ReverseStep(img: array<byte>, temp: array<byte>, off: nat, n: nat, size: nat, j: nat,
                     ghost front: seq<byte>, ghost s: seq<byte>, ghost back: seq<byte>,
                     ghost a: seq<byte>, ghost mid: seq<byte>, ghost z: seq<byte>)
    returns (ghost a': seq<byte>, ghost mid': seq<byte>, ghost z': seq<byte>)
    requires Reversing(img[..], front, s, back, a, mid, z, n, size, j) && |front| == off && 2 * (j + 1) <= n
    requires temp != img && temp.Length == size
    modifies img, temp
    ensures Reversing(img[..], front, s, back, a', mid', z', n, size, j + 1)
  {
    ghost var l, r := ReverseBlocks(z, j, size), ReverseBlocks(a, j, size);
    ghost var x, m, y := Middle(mid, n, size, j);
    HalfwayStep(s, a, x, m, y, z, n, size, j);
    ExchangeEnds(img, temp, off + j * size, off + (n - j - 1) * size, size, front, l, x, m, y, r, back);
    a', mid', z' := a + x, m, y + z;
  }

  /** Reverses in place the n blocks s that stand between front and back, swapping from both ends. */
  method ReverseInPlace(img: array<byte>, temp: array<byte>, off: nat, n: nat, size: nat,
                        ghost front: seq<byte>, ghost s: seq<byte>, ghost back: seq<byte>)
    requires img[..] == front + s + back && |front| == off && |s| == n * size
    requires temp != img && temp.Length == size
    modifies img, temp
    ensures img[..] == front + ReverseBlocks(s, n, size) + back
  {
    ghost var a, mid, z := [], s, [];
    ReversingStart(img[..], front, s, back, n, size);
    var j := 0;
    while j < n / 2
      invariant 0 <= j <= n / 2
      invariant Reversing(img[..], front, s, back, a, mid, z, n, size, j)
    {
      a, mid, z := ReverseStep(img, temp, off, n, size, j, front, s, back, a, mid, z);
      j := j + 1;
    }
    ReversingEnd(img[..], front, s, back, a, mid, z, n, size, j);
  }

  /** The bytes of an image. */
  function Area(width: nat, height: nat, pixelBytes: nat): (n: nat)
    ensures n == height * (width * pixelBytes)
  {
    ProductSign(width, pixelBytes);
    ProductSign(height, width * pixelBytes);
    height * (width * pixelBytes)
  }

  lemma ProductSign(a: nat, b: nat)
    ensures a * b >= 0
  {
  }

  lemma NoFront(a: seq<byte>, b: seq<byte>)
    ensures [] + a + b == a + b
  {
  }

  method Flip(img: array<byte>, width: nat, height: nat, pixelBytes: nat)
    requires Area(width, height, pixelBytes) <= img.Length
    modifies img
    ensures var n := Area(width, height, pixelBytes);
            img[..] == ReverseBlocks(old(img[..n]), height, width * pixelBytes) + old(img[n..])
  {
    var rowBytes := width * pixelBytes;
    var temp := new byte[rowBytes];
    ghost var n := Area(width, height, pixelBytes);
    ghost var image, back := img[..n], img[n..];
    assert img[..] == image + back;
    NoFront(image, back);
    ReverseInPlace(img, temp, 0, height, rowBytes, [], image, back);
    NoFront(ReverseBlocks(image, height, rowBytes), back);
  }

  /** Mirrors row i, the first row of rest, below the rows `mirrored` already done. */
  method MirrorRow(img: array<byte>, temp: array<byte>, width: nat, i: nat, pixelBytes: nat, rowBytes: nat,
                   ghost done: seq<byte>, ghost rest: seq<byte>)
    returns (ghost done': seq<byte>, ghost rest': seq<byte>)
    requires rowBytes == width * pixelBytes && |done| == i * rowBytes && |rest| >= rowBytes
    requires img[..] == MirrorRows(done, width, i, pixelBytes) + rest
    requires temp != img && temp.Length == pixelBytes
    modifies img, temp
    ensures done' + rest' == done + rest && |done'| == (i + 1) * rowBytes
    ensures img[..] == MirrorRows(done', width, i + 1, pixelBytes) + rest'
  {
    ghost var row, below := rest[..rowBytes], rest[rowBytes..];
    ghost var mirrored := MirrorRows(done, width, i, pixelBytes);
    assert img[..] == mirrored + row + below;
    ReverseInPlace(img, temp, i * rowBytes, width, pixelBytes, mirrored, row, below);
    MirrorSnoc(done, row, width, i, pixelBytes, rowBytes);
    done', rest' := done + row, below;
  }

  /** The loop over the rows. */
  method MirrorAll(img: array<byte>, temp: array<byte>, width: nat, height: nat, pixelBytes: nat, rowBytes: nat,
                   ghost image: seq<byte>, ghost back: seq<byte>)
    requires rowBytes == width * pixelBytes && |image| == height * rowBytes && img[..] == image + back
    requires temp != img && temp.Length == pixelBytes
    modifies img, temp
    ensures img[..] == MirrorRows(image, width, height, pixelBytes) + back
  {
    ghost var done, rest := [], image + back;
    var i := 0;
    while i < height
      invariant 0 <= i <= height
      invariant done + rest == image + back && |done| == i * rowBytes
      invariant img[..] == MirrorRows(done, width, i, pixelBytes) + rest
    {
      BlockFits(i, height, rowBytes);
      done, rest := MirrorRow(img, temp, width, i, pixelBytes, rowBytes, done, rest);
      i := i + 1;
    }
    Prefix(done + rest, done, rest);
    Prefix(done + rest, image, back);
  }

  method Mirror(img: array<byte>, width: nat, height: nat, pixelBytes: nat)
    requires Area(width, height, pixelBytes) <= img.Length
    modifies img
    ensures var n := Area(width, height, pixelBytes);
            img[..] == MirrorRows(old(img[..n]), width, height, pixelBytes) + old(img[n..])
  {
    var rowBytes := width * pixelBytes;
    var temp := new byte[pixelBytes];
    ghost var n := Area(width, height, pixelBytes);
    ghost var image, back := img[..n], img[n..];
    assert img[..] == image + back;
    MirrorAll(img, temp, width, height, pixelBytes, rowBytes, image, back);
  }

  /** Rotates the image by half a turn: the flat sequence of its pixels is reversed. */
  method FlipAndMirror(img: array<byte>, width: nat, height: nat, pixelBytes: nat)
    requires Area(width, height, pixelBytes) <= img.Length
    modifies img
    ensures var n := Area(width, height, pixelBytes);
            img[..] == ReverseBlocks(old(img[..n]), height * width, pixelBytes) + old(img[n..])
  {
    ghost var n, rowBytes, pixels := Area(width, height, pixelBytes), width * pixelBytes, height * width;
    ghost var image, back := img[..n], img[n..];
    HalfTurn(image, width, height, pixelBytes, rowBytes, pixels);
    Flip(img, width, height, pixelBytes);
    ghost var flipped := ReverseBlocks(image, height, rowBytes);
    Prefix(img[..], flipped, back);
    Mirror(img, width, height, pixelBytes);
  }

  lemma Prefix(s: seq<byte>, a: seq<byte>, b: seq<byte>)
    requires s == a + b
    ensures s[..|a|] == a && s[|a|..] == b
  {
  }
}

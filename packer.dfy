/**
 * The bitmask packer behind the hex-dump output: every pixel of the finished
 * atlas becomes one bit (1 = ink, 0 = background), each scanline is padded
 * with background bits to a multiple of 32, and every 32 bits become one
 * 32-bit word whose bit `i` is the `i`-th pixel of the chunk.
 *
 * The surface is its raw bytes plus `pitch` (bytes per scanline) and
 * `bpp` (bytes per pixel); the first three bytes of a pixel are read as red,
 * green and blue.
 */
module Packer {
  import opened Base

  /** A pixel is ink when its mean channel value is below this. */
  const Threshold: nat := 128

  /** Words per scanline: the width rounded up to whole 32-bit words. */
  function WordsPerRow(width: nat): nat
  {
    (width + 31) / 32
  }

  /** Scanline width in bits after padding to a 32-bit boundary. */
  function PaddedWidth(width: nat): (p: nat)
    ensures p % 32 == 0
    ensures width <= p < width + 32
    ensures p == width <==> width % 32 == 0
  {
    WordsPerRow(width) * 32
  }

  /** Byte offset of pixel `(x, y)` in the surface's buffer. */
  function PixelOffset(x: nat, y: nat, pitch: nat, bpp: nat): nat
  {
    y * pitch + x * bpp
  }

  /**
   * Whether the pixel whose bytes start at `offset` is ink: its three
   * colour bytes must lie inside the buffer (a pixel that does not is
   * background) and their truncated mean must be below the threshold.
   */
  predicate IsFilled(pixels: seq<byte>, offset: nat)
  {
    offset + 2 < |pixels|
    && (pixels[offset] + pixels[offset + 1] + pixels[offset + 2]) / 3 < Threshold
  }

  /** Bit `i` of the word `w`. */
  predicate Bit(w: bv32, i: nat)
    requires i < 32
  {
    w & (1 << i) != 0
  }

  /** The `bits` of scanline `y`: one per pixel, then background padding. */
  function ScanlineBits(pixels: seq<byte>, width: nat, y: nat, pitch: nat, bpp: nat): seq<bool>
  {
    seq(PaddedWidth(width), x => 0 <= x < width && IsFilled(pixels, PixelOffset(x, y, pitch, bpp)))
  }

  /** `Bit` with a bit-vector index, the form the solver reasons about cheaply. */
  predicate BitAt(w: bv32, i: bv32)
    requires i < 32
  {
    w & (1 << i) != 0
  }

  /** OR-ing `1 << n` sets bit `n` and keeps the others, with bit-vector indices. */
  lemma OrBitAtBv(v: bv32, n: bv32, i: bv32)
    requires n < 32 && i < 32
    ensures BitAt(v | (1 << n), i) <==> (BitAt(v, i) || i == n)
  {
  }

  /** A bit index below 32 survives the conversion to `bv32` and back. */
  lemma SmallIndexRoundTrip(i: nat)
    requires i < 32
    ensures (i as bv32) as int == i
  {
  }

  /** Distinct bit indices below 32 stay distinct as `bv32` values. */
  lemma SmallIndexInjective(i: nat, n: nat)
    requires i < 32 && n < 32
    ensures (i as bv32 == n as bv32) == (i == n)
  {
    SmallIndexRoundTrip(i);
    SmallIndexRoundTrip(n);
  }

  /** Shifting by an integer index is shifting by the same index as a `bv32`. */
  lemma ShiftByIndex(n: nat)
    requires n < 32
    ensures (1 as bv32) << n == (1 as bv32) << (n as bv32)
  {
  }

  /** `Bit` and `BitAt` agree on the same index. */
  lemma BitIsBitAt(w: bv32, i: nat)
    requires i < 32
    ensures Bit(w, i) == BitAt(w, i as bv32)
  {
    assert (1 as bv32) << i == (1 as bv32) << (i as bv32);
  }

  /** OR-ing `1 << n` into a word sets bit `n` and leaves every other bit as it was. */
  lemma OrBitAt(v: bv32, n: nat, i: nat)
    requires n < 32 && i < 32
    ensures Bit(v | (1 << n), i) == (Bit(v, i) || i == n)
  {
    SmallIndexInjective(i, n);
    OrBitAtBv(v, n as bv32, i as bv32);
    ShiftByIndex(n);
    BitIsBitAt(v | (1 << n), i);
    BitIsBitAt(v, i);
  }

  /** The zero word has no bit set. */
  lemma ZeroHasNoBits()
    ensures forall i | 0 <= i < 32 :: !Bit(0, i)
  {
  }

  /** OR-ing the last set bit of a chunk into its prefix's word gives the chunk's bits. */
  lemma OrBitKeeps(v: bv32, n: nat, chunk: seq<bool>)
    requires n < 32 && |chunk| == n + 1 && chunk[n]
    requires forall i | 0 <= i < 32 :: Bit(v, i) == (i < n && chunk[i])
    ensures forall i | 0 <= i < 32 :: Bit(v | (1 << n), i) == (i < |chunk| && chunk[i])
  {
    forall i | 0 <= i < 32
      ensures Bit(v | (1 << n), i) == (i < |chunk| && chunk[i])
    {
      OrBitAt(v, n, i);
    }
  }

  /** The word packed from a chunk of at most 32 bits by OR-ing `1 << i` for every set bit `i`. */
  function Word(chunk: seq<bool>): bv32
    requires |chunk| <= 32
  {
    if chunk == [] then 0
    else
      var n := |chunk| - 1;
      var v := Word(chunk[..n]);
      if chunk[n] then v | (1 << n) else v
  }

  /**
   * Bit `i` of a packed word is the chunk's `i`-th bit, and the bits past
   * the end of the chunk are clear.
   */
  lemma {:induction false} WordBits(chunk: seq<bool>)
    requires |chunk| <= 32
    ensures forall i | 0 <= i < 32 :: Bit(Word(chunk), i) == (i < |chunk| && chunk[i])
  {
    if chunk == [] {
      ZeroHasNoBits();
    } else {
      var n := |chunk| - 1;
      var v := Word(chunk[..n]);
      WordBits(chunk[..n]);
      assert forall i | 0 <= i < n :: chunk[..n][i] == chunk[i];
      if chunk[n] {
        var w := v | (1 << n);
        assert Word(chunk) == w;
        OrBitKeeps(v, n, chunk);
      } else {
        assert Word(chunk) == v;
      }
    }
  }

  /** Packing one more bit ORs it in at its own position. */
  lemma WordStep(chunk: seq<bool>, i: nat)
    requires i < |chunk| <= 32
    ensures Word(chunk[..i + 1]) == if chunk[i] then Word(chunk[..i]) | (1 << i) else Word(chunk[..i])
  {
    assert chunk[..i + 1][..i] == chunk[..i];
  }

  /**
   * The words of a bit sequence whose length is a multiple of 32, one per
   * chunk of 32 consecutive bits.
   */
  function PackBits(bits: seq<bool>): (words: seq<bv32>)
    requires |bits| % 32 == 0
    ensures |words| * 32 == |bits|
    decreases |bits|
  {
    if bits == [] then []
    else
      var n := |bits| - 32;
      PackBits(bits[..n]) + [Word(bits[n..])]
  }

  /** Word `k` of a packed bit sequence is packed from its `k`-th chunk of 32 bits. */
  lemma {:induction false} PackBitsWord(bits: seq<bool>, k: nat)
    requires |bits| % 32 == 0 && k < |bits| / 32
    ensures k < |PackBits(bits)|
    ensures PackBits(bits)[k] == Word(bits[32 * k..32 * k + 32])
  {
    var n := |bits| - 32;
    var front := PackBits(bits[..n]);
    assert PackBits(bits) == front + [Word(bits[n..])];
    if k < n / 32 {
      PackBitsWord(bits[..n], k);
      assert bits[..n][32 * k..32 * k + 32] == bits[32 * k..32 * k + 32];
    } else {
      assert 32 * k == n && bits[n..] == bits[32 * k..32 * k + 32];
    }
  }

  /** Bit `i` of word `k` of a packed bit sequence is bit `32 * k + i` of the sequence. */
  lemma PackBitsBit(bits: seq<bool>, k: nat, i: nat)
    requires |bits| % 32 == 0 && k < |bits| / 32 && i < 32
    ensures k < |PackBits(bits)|
    ensures Bit(PackBits(bits)[k], i) == bits[32 * k + i]
  {
    var chunk := bits[32 * k..32 * k + 32];
    PackBitsWord(bits, k);
    WordBits(chunk);
    assert chunk[i] == bits[32 * k + i];
  }

  /** The words of the first `height` scanlines, top to bottom. */
  function Packed(pixels: seq<byte>, width: nat, height: nat, pitch: nat, bpp: nat): seq<bv32>
  {
    if height == 0 then []
    else Packed(pixels, width, height - 1, pitch, bpp) + PackBits(ScanlineBits(pixels, width, height - 1, pitch, bpp))
  }

  /**
   * How a consumer of the mask reads pixel `(x, y)` back without knowing
   * row boundaries: word `(y * paddedWidth + x) / 32`, bit `x % 32`.
   */
  predicate ReadPixel(words: seq<bv32>, paddedWidth: nat, x: nat, y: nat)
    requires (y * paddedWidth + x) / 32 < |words|
  {
    Bit(words[(y * paddedWidth + x) / 32], x % 32)
  }

  /**
   * The pixel-processing part of `dump_surface_as_hex`: the scanlines are
   * packed top to bottom and their words appended to `allValues`.
   */
  method PackSurface(pixels: seq<byte>, width: nat, height: nat, pitch: nat, bpp: nat)
    returns (allValues: seq<bv32>)
    ensures allValues == Packed(pixels, width, height, pitch, bpp)
  {
    allValues := [];
    for y := 0 to height
      invariant allValues == Packed(pixels, width, y, pitch, bpp)
    {
      var words := PackScanline(pixels, width, y, pitch, bpp);
      allValues := allValues + words;
    }
  }

  /**
   * One scanline of `dump_surface_as_hex`: collect one bit per pixel, pad
   * with `false` up to `PaddedWidth(width)`, then pack every 32 bits into a
   * word.
   */
  method PackScanline(pixels: seq<byte>, width: nat, y: nat, pitch: nat, bpp: nat)
    returns (words: seq<bv32>)
    ensures words == PackBits(ScanlineBits(pixels, width, y, pitch, bpp))
  {
    var bits := ScanlineBitsOf(pixels, width, y, pitch, bpp);
    words := PackRow(bits);
  }

  /** The bit collection and padding loops of one scanline. */
  method ScanlineBitsOf(pixels: seq<byte>, width: nat, y: nat, pitch: nat, bpp: nat)
    returns (bits: seq<bool>)
    ensures bits == ScanlineBits(pixels, width, y, pitch, bpp)
  {
    var paddedWidth := ((width + 31) / 32) * 32;
    assert paddedWidth == PaddedWidth(width);
    ghost var line := ScanlineBits(pixels, width, y, pitch, bpp);
    bits := [];
    for x := 0 to width
      invariant bits == line[..x]
    {
      var pixelOffset := y * pitch + x * bpp;
      assert pixelOffset == PixelOffset(x, y, pitch, bpp);
      var isFilled := if pixelOffset + 2 < |pixels| then
          var r: int, g: int, b: int := pixels[pixelOffset], pixels[pixelOffset + 1], pixels[pixelOffset + 2];
          var brightness := (r + g + b) / 3;
          brightness < 128
        else
          false;
      assert isFilled == line[x];
      bits := bits + [isFilled];
    }
    while |bits| < paddedWidth
      invariant width <= |bits| <= paddedWidth
      invariant bits == line[..|bits|]
    {
      bits := bits + [false];
    }
  }

  /** The packing loop of one scanline: one word per 32 consecutive bits. */
  method PackRow(bits: seq<bool>) returns (words: seq<bv32>)
    requires |bits| % 32 == 0
    ensures words == PackBits(bits)
  {
    words := [];
    var wordsPerRow := |bits| / 32;
    for c := 0 to wordsPerRow
      invariant words == PackBits(bits[..32 * c])
    {
      var start := 32 * c;
      var value := PackChunk(bits[start..start + 32]);
      assert bits[..start + 32][..start] == bits[..start];
      assert bits[..start + 32][start..] == bits[start..start + 32];
      words := words + [value];
    }
    assert bits[..32 * wordsPerRow] == bits;
  }

  /** OR the chunk's set bits into a zero word, bit `i` at `1 << i`. */
  method PackChunk(chunk: seq<bool>) returns (value: bv32)
    requires |chunk| <= 32
    ensures value == Word(chunk)
  {
    value := 0;
    for i := 0 to |chunk|
      invariant value == Word(chunk[..i])
    {
      WordStep(chunk, i);
      if chunk[i] {
        value := value | (1 << i);
      }
    }
    assert chunk[..|chunk|] == chunk;
  }

  /**
   * Every scanline contributes `WordsPerRow(width)` words, so the whole
   * mask holds `height * WordsPerRow(width)` of them.
   */
  lemma {:induction false} PackedLength(pixels: seq<byte>, width: nat, height: nat, pitch: nat, bpp: nat)
    ensures |Packed(pixels, width, height, pitch, bpp)| == height * WordsPerRow(width)
  {
    if height > 0 {
      PackedLength(pixels, width, height - 1, pitch, bpp);
      ScanlineWordCount(pixels, width, height - 1, pitch, bpp);
      OneMoreRow(height, WordsPerRow(width));
    }
  }

  /** A scanline packs to `WordsPerRow(width)` words. */
  lemma ScanlineWordCount(pixels: seq<byte>, width: nat, y: nat, pitch: nat, bpp: nat)
    ensures |PackBits(ScanlineBits(pixels, width, y, pitch, bpp))| == WordsPerRow(width)
  {
  }

  /** One more row of `wordsPerRow` words. */
  lemma OneMoreRow(height: nat, wordsPerRow: nat)
    requires height > 0
    ensures (height - 1) * wordsPerRow + wordsPerRow == height * wordsPerRow
  {
  }

  /** Pixel `x` of row `y` falls in word `x / 32` of that row's words. */
  lemma RowAddress(y: nat, x: nat, wordsPerRow: nat, paddedWidth: nat)
    requires paddedWidth == wordsPerRow * 32 && x < paddedWidth
    ensures (y * paddedWidth + x) / 32 == y * wordsPerRow + x / 32
    ensures x / 32 < wordsPerRow
  {
    assert y * paddedWidth + x == 32 * (y * wordsPerRow) + x;
  }

  /** The words of scanlines above `height` are unchanged by appending more scanlines. */
  lemma {:induction false} PackedRowStart(pixels: seq<byte>, width: nat, height: nat, pitch: nat, bpp: nat)
    requires height > 0
    ensures var front := Packed(pixels, width, height - 1, pitch, bpp);
      && |front| == (height - 1) * WordsPerRow(width)
      && Packed(pixels, width, height, pitch, bpp) == front + PackBits(ScanlineBits(pixels, width, height - 1, pitch, bpp))
  {
    PackedLength(pixels, width, height - 1, pitch, bpp);
  }

  /** Word `c` of scanline `y` sits at index `y * wordsPerRow + c` of the mask. */
  lemma {:induction false} PackedWordAt(pixels: seq<byte>, width: nat, height: nat, pitch: nat, bpp: nat, y: nat, c: nat)
    requires y < height && c < WordsPerRow(width)
    ensures y * WordsPerRow(width) + c < |Packed(pixels, width, height, pitch, bpp)|
    ensures Packed(pixels, width, height, pitch, bpp)[y * WordsPerRow(width) + c]
         == PackBits(ScanlineBits(pixels, width, y, pitch, bpp))[c]
  {
    var wpr := WordsPerRow(width);
    var front := Packed(pixels, width, height - 1, pitch, bpp);
    PackedRowStart(pixels, width, height, pitch, bpp);
    ScanlineWordCount(pixels, width, y, pitch, bpp);
    if y < height - 1 {
      PackedWordAt(pixels, width, height - 1, pitch, bpp, y, c);
      MulMonotone(y + 1, height - 1, wpr);
      assert (y + 1) * wpr == y * wpr + wpr;
    } else {
      assert y * wpr + c == |front| + c;
    }
  }

  /**
   * Unpacking the mask with the consumer's addressing gives back exactly
   * the classification the packer made: pixel `(x, y)` reads as ink iff it
   * lies inside the image width, its bytes lie inside the buffer and its
   * mean brightness is below 128.
   */
  lemma PackedBitIsInk(pixels: seq<byte>, width: nat, height: nat, pitch: nat, bpp: nat, x: nat, y: nat)
    requires y < height && x < PaddedWidth(width)
    ensures (y * PaddedWidth(width) + x) / 32 < |Packed(pixels, width, height, pitch, bpp)|
    ensures ReadPixel(Packed(pixels, width, height, pitch, bpp), PaddedWidth(width), x, y)
        <==> x < width && IsFilled(pixels, PixelOffset(x, y, pitch, bpp))
  {
    var wpr := WordsPerRow(width);
    RowAddress(y, x, wpr, PaddedWidth(width));
    PackedWordAt(pixels, width, height, pitch, bpp, y, x / 32);
    var line := ScanlineBits(pixels, width, y, pitch, bpp);
    PackBitsBit(line, x / 32, x % 32);
    assert 32 * (x / 32) + x % 32 == x;
  }

  /**
   * The padding bits at the end of every scanline, and every pixel whose
   * bytes fall outside the buffer, read as background.
   */
  lemma PaddingAndOffBufferBitsClear(pixels: seq<byte>, width: nat, height: nat, pitch: nat, bpp: nat, x: nat, y: nat)
    requires y < height && x < PaddedWidth(width)
    requires x >= width || PixelOffset(x, y, pitch, bpp) + 2 >= |pixels|
    ensures (y * PaddedWidth(width) + x) / 32 < |Packed(pixels, width, height, pitch, bpp)|
    ensures !ReadPixel(Packed(pixels, width, height, pitch, bpp), PaddedWidth(width), x, y)
  {
    PackedBitIsInk(pixels, width, height, pitch, bpp, x, y);
  }

  /** A chunk without set bits packs to the zero word. */
  lemma {:induction false} ClearChunkIsZero(chunk: seq<bool>)
    requires |chunk| <= 32
    requires forall i | 0 <= i < |chunk| :: !chunk[i]
    ensures Word(chunk) == 0
  {
    if chunk != [] {
      ClearChunkIsZero(chunk[..|chunk| - 1]);
    }
  }

  /** A bit sequence without set bits packs to zero words only. */
  lemma {:induction false} ClearBitsAreZero(bits: seq<bool>)
    requires |bits| % 32 == 0
    requires forall i | 0 <= i < |bits| :: !bits[i]
    ensures forall k | 0 <= k < |PackBits(bits)| :: PackBits(bits)[k] == 0
  {
    if bits != [] {
      var n := |bits| - 32;
      ClearBitsAreZero(bits[..n]);
      ClearChunkIsZero(bits[n..]);
    }
  }

  /**
   * A surface all of whose bytes are at least 128 (an all-background
   * atlas) packs to words that are all zero.
   */
  lemma {:induction false} BlankSurfacePacksToZero(pixels: seq<byte>, width: nat, height: nat, pitch: nat, bpp: nat)
    requires forall j | 0 <= j < |pixels| :: pixels[j] >= Threshold
    ensures forall k | 0 <= k < |Packed(pixels, width, height, pitch, bpp)| :: Packed(pixels, width, height, pitch, bpp)[k] == 0
  {
    if height > 0 {
      BlankSurfacePacksToZero(pixels, width, height - 1, pitch, bpp);
      var line := ScanlineBits(pixels, width, height - 1, pitch, bpp);
      forall x | 0 <= x < |line|
        ensures !line[x]
      {
        var o := PixelOffset(x, height - 1, pitch, bpp);
        if o + 2 < |pixels| {
          assert pixels[o] + pixels[o + 1] + pixels[o + 2] >= 3 * Threshold;
        }
      }
      ClearBitsAreZero(line);
    }
  }
}

/** The pixel codec: an NV21 buffer (a full Y plane followed by interleaved
    V/U pairs, one pair per 2x2 block) converted to interleaved R,G,B bytes.
    Both the Kotlin and the C++ processor compute exactly this function; the
    colour coefficients are taken as the exact decimals written in the code. */
module Codec {
  import opened Base

  /** One output pixel. */
  datatype Rgb = Rgb(r: Byte, g: Byte, b: Byte)

  /** Channel c (0 = R, 1 = G, 2 = B) of a pixel, in output byte order. */
  function Channel(px: Rgb, c: nat): Byte
    requires c < 3
  {
    if c == 0 then px.r else if c == 1 then px.g else px.b
  }

  /** `(int)(n / d)` for a positive d: integer division truncating toward zero. */
  function TruncDiv(n: int, d: nat): (q: int)
    requires 0 < d
    ensures 0 <= n ==> q * d <= n < q * d + d
    ensures n < 0 ==> q * d - d < n <= q * d
  {
    if 0 <= n then n / d else -((-n) / d)
  }

  /** `max(0, min(255, x))`. */
  function Clamp(x: int): Byte
  {
    if x < 0 then 0 else if 255 < x then 255 else x
  }

  /** The per-pixel conversion. The coefficients 1.370705, 0.698001, 0.337633
      and 1.732446 have six decimals, so each channel is an exact integer
      numerator over 1000000, truncated toward zero and then clamped. */
  function ConvertPixel(y: Byte, u: Byte, v: Byte): Rgb
  {
    Rgb(Clamp(TruncDiv(1000000 * y + 1370705 * (v - 128), 1000000)),
        Clamp(TruncDiv(1000000 * y - 698001 * (v - 128) - 337633 * (u - 128), 1000000)),
        Clamp(TruncDiv(1000000 * y + 1732446 * (u - 128), 1000000)))
  }

  /** q is the real x with its fraction dropped (Kotlin's `.toInt()`, C++'s
      `(int)` cast): rounded toward zero. */
  predicate TruncOf(q: int, x: real)
  {
    if 0.0 <= x then q as real <= x < q as real + 1.0 else q as real - 1.0 < x <= q as real
  }

  /** Over the coefficients' common denominator 10^6, TruncDiv is the
      truncation of the real quotient. */
  lemma MillionthsTrunc(n: int)
    ensures TruncOf(TruncDiv(n, 1000000), n as real / 1000000.0)
  {
  }

  /** Truncation has one result. */
  lemma TruncUnique(q1: int, q2: int, x: real)
    requires TruncOf(q1, x) && TruncOf(q2, x)
    ensures q1 == q2
  {
  }

  /** Each channel of ConvertPixel is the clamped truncation of the code's
      decimal formula evaluated exactly: R = y + 1.370705(v-128),
      G = y - 0.698001(v-128) - 0.337633(u-128), B = y + 1.732446(u-128). */
  lemma {:induction false} ConvertPixelIsDecimalFormula(y: Byte, u: Byte, v: Byte)
    ensures forall q :: TruncOf(q, y as real + 1.370705 * (v - 128) as real) ==>
      ConvertPixel(y, u, v).r == Clamp(q)
    ensures forall q :: TruncOf(q, y as real - 0.698001 * (v - 128) as real - 0.337633 * (u - 128) as real) ==>
      ConvertPixel(y, u, v).g == Clamp(q)
    ensures forall q :: TruncOf(q, y as real + 1.732446 * (u - 128) as real) ==>
      ConvertPixel(y, u, v).b == Clamp(q)
  {
    var nr := 1000000 * y + 1370705 * (v - 128);
    var ng := 1000000 * y - 698001 * (v - 128) - 337633 * (u - 128);
    var nb := 1000000 * y + 1732446 * (u - 128);
    MillionthsTrunc(nr);
    MillionthsTrunc(ng);
    MillionthsTrunc(nb);
    assert nr as real / 1000000.0 == y as real + 1.370705 * (v - 128) as real;
    assert ng as real / 1000000.0 == y as real - 0.698001 * (v - 128) as real - 0.337633 * (u - 128) as real;
    assert nb as real / 1000000.0 == y as real + 1.732446 * (u - 128) as real;
    forall q | TruncOf(q, y as real + 1.370705 * (v - 128) as real)
      ensures ConvertPixel(y, u, v).r == Clamp(q)
    {
      TruncUnique(q, TruncDiv(nr, 1000000), nr as real / 1000000.0);
    }
    forall q | TruncOf(q, y as real - 0.698001 * (v - 128) as real - 0.337633 * (u - 128) as real)
      ensures ConvertPixel(y, u, v).g == Clamp(q)
    {
      TruncUnique(q, TruncDiv(ng, 1000000), ng as real / 1000000.0);
    }
    forall q | TruncOf(q, y as real + 1.732446 * (u - 128) as real)
      ensures ConvertPixel(y, u, v).b == Clamp(q)
    {
      TruncUnique(q, TruncDiv(nb, 1000000), nb as real / 1000000.0);
    }
  }

  /** `i & ~1`: the column rounded down to an even one. */
  function EvenFloor(i: nat): (e: nat)
    ensures e <= i && e % 2 == 0 && i - e < 2
  {
    i - i % 2
  }

  /** Offset, inside the chroma area, of the V byte read for pixel (i, j);
      the U byte follows it. */
  function ChromaOffset(w: nat, i: nat, j: nat): nat
  {
    (j / 2) * w + EvenFloor(i)
  }

  /** The pixel at row-major index p (column p % w, row p / w) can be
      converted: it lies in the frame and both bytes of its chroma pair lie
      inside a buffer of length len. */
  predicate Readable(len: nat, w: nat, h: nat, p: nat)
  {
    p < w * h && w * h + ChromaOffset(w, p % w, p / w) + 1 < len
  }

  /** A buffer of length len holds every byte the conversion reads: the
      U byte of the last pixel is the furthest read. */
  predicate Covers(len: nat, w: nat, h: nat)
  {
    w == 0 || h == 0 || w * h + ChromaOffset(w, w - 1, h - 1) + 1 < len
  }

  /** Pixel p = j*w + i: luma at p, V at w*h + (j/2)*w + (i & ~1), U right after. */
  function Pixel(yuv: seq<Byte>, w: nat, h: nat, p: nat): Rgb
    requires Readable(|yuv|, w, h, p)
  {
    var c := w * h + ChromaOffset(w, p % w, p / w);
    ConvertPixel(yuv[p], yuv[c + 1], yuv[c])
  }

  /** The converted frame: 3*w*h bytes, R,G,B per pixel in row-major order. */
  function Nv21ToRgb(yuv: seq<Byte>, w: nat, h: nat): (rgb: seq<Byte>)
    requires Covers(|yuv|, w, h)
    ensures |rgb| == 3 * (w * h)
  {
    seq(3 * (w * h), k requires 0 <= k < 3 * (w * h) =>
      CoveredPixel(|yuv|, w, h, k / 3);
      Channel(Pixel(yuv, w, h, k / 3), k % 3))
  }

  /** No pixel reads a chroma byte beyond the last pixel's. */
  lemma ChromaMax(w: nat, h: nat, i: nat, j: nat)
    requires i < w && j < h
    ensures ChromaOffset(w, i, j) <= ChromaOffset(w, w - 1, h - 1)
  {
    MulLe(j / 2, (h - 1) / 2, w);
  }

  /** A pixel whose chroma pair runs past the end of the buffer shows that
      the buffer does not cover the frame. */
  lemma UncoveredCell(len: nat, w: nat, h: nat, i: nat, j: nat)
    requires i < w && j < h && len <= w * h + ChromaOffset(w, i, j) + 1
    ensures !Covers(len, w, h)
  {
    ChromaMax(w, h, i, j);
  }

  /** In a covered frame both chroma bytes of every pixel (i, j) exist. */
  lemma CoveredCell(len: nat, w: nat, h: nat, i: nat, j: nat)
    requires Covers(len, w, h) && i < w && j < h
    ensures w * h + ChromaOffset(w, i, j) + 1 < len
  {
    ChromaMax(w, h, i, j);
  }

  /** Every pixel of a covered frame is readable. */
  lemma CoveredPixel(len: nat, w: nat, h: nat, p: nat)
    requires Covers(len, w, h) && p < w * h
    ensures Readable(len, w, h, p)
  {
    RowBound(w, h, p);
    ChromaMax(w, h, p % w, p / w);
  }

  /** A frame is covered exactly when its last pixel is readable. */
  lemma CoversIffLastReadable(len: nat, w: nat, h: nat)
    requires 0 < w && 0 < h
    ensures Covers(len, w, h) <==> Readable(len, w, h, w * h - 1)
  {
    assert w * h - 1 == (h - 1) * w + (w - 1);
    RowCol(w, w - 1, h - 1);
  }

  /** Byte k of the converted frame is channel k % 3 of pixel k / 3. */
  lemma FrameByte(yuv: seq<Byte>, w: nat, h: nat, k: nat)
    requires Covers(|yuv|, w, h) && k < 3 * (w * h)
    ensures Readable(|yuv|, w, h, k / 3)
    ensures Nv21ToRgb(yuv, w, h)[k] == Channel(Pixel(yuv, w, h, k / 3), k % 3)
  {
    CoveredPixel(|yuv|, w, h, k / 3);
  }

  /** Pixel q's R, G, B bytes are in place in rgb, and the pixel is readable. */
  ghost predicate PixelWritten(rgb: seq<Byte>, yuv: seq<Byte>, w: nat, h: nat, q: nat)
  {
    Readable(|yuv|, w, h, q) && 3 * q + 2 < |rgb| &&
    rgb[3 * q] == Pixel(yuv, w, h, q).r &&
    rgb[3 * q + 1] == Pixel(yuv, w, h, q).g &&
    rgb[3 * q + 2] == Pixel(yuv, w, h, q).b
  }

  /** The state of the conversion loops once every pixel before row-major
      index c has been converted: each of them was readable and its three
      bytes are in place. */
  ghost predicate ConvertedBefore(rgb: seq<Byte>, yuv: seq<Byte>, w: nat, h: nat, c: nat)
  {
    |rgb| == 3 * (w * h) && c <= w * h &&
    forall q :: 0 <= q < c ==> PixelWritten(rgb, yuv, w, h, q)
  }

  /** An output buffer with the three bytes of pixel c set to px. */
  function SetPixel(rgb: seq<Byte>, c: nat, px: Rgb): (out: seq<Byte>)
    requires 3 * c + 2 < |rgb|
    ensures |out| == |rgb|
  {
    rgb[3 * c := px.r][3 * c + 1 := px.g][3 * c + 2 := px.b]
  }

  /** The three stores of one converted pixel: R, G and B at 3c, 3c+1 and
      3c+2 of the output array. */
  method StorePixel(rgb: array<Byte>, c: nat, px: Rgb)
    requires 3 * c + 2 < rgb.Length
    modifies rgb
    ensures rgb[..] == SetPixel(old(rgb[..]), c, px)
  {
    var rgbIndex := c * 3;
    rgb[rgbIndex] := px.r;
    rgb[rgbIndex + 1] := px.g;
    rgb[rgbIndex + 2] := px.b;
  }

  /** Before the first pixel nothing has been converted. */
  lemma ConvertedNone(rgb: seq<Byte>, yuv: seq<Byte>, w: nat, h: nat)
    requires |rgb| == 3 * (w * h)
    ensures ConvertedBefore(rgb, yuv, w, h, 0)
  {
  }

  /** Converting the next readable pixel extends the loop state by one. */
  lemma ConvertedStep(rgb: seq<Byte>, yuv: seq<Byte>, w: nat, h: nat, c: nat)
    requires ConvertedBefore(rgb, yuv, w, h, c) && Readable(|yuv|, w, h, c)
    ensures 3 * c + 2 < |rgb|
    ensures ConvertedBefore(SetPixel(rgb, c, Pixel(yuv, w, h, c)), yuv, w, h, c + 1)
  {
    var out := SetPixel(rgb, c, Pixel(yuv, w, h, c));
    forall q | 0 <= q < c + 1
      ensures PixelWritten(out, yuv, w, h, q)
    {
      if q < c {
        assert PixelWritten(rgb, yuv, w, h, q);
      }
    }
  }

  /** The step the loops take at column i of row j: pixel j*w + i, whose
      luma is at j*w + i and whose V and U bytes are at w*h + (j/2)*w +
      (i & ~1) and the byte after, extends the loop state once its colour
      px is stored. */
  lemma ConvertedCell(rgb: seq<Byte>, yuv: seq<Byte>, w: nat, h: nat, i: nat, j: nat, px: Rgb)
    requires ConvertedBefore(rgb, yuv, w, h, j * w + i) && i < w && j < h
    requires j * w + i < w * h && w * h + ChromaOffset(w, i, j) + 1 < |yuv|
    requires px == ConvertPixel(yuv[j * w + i], yuv[w * h + ChromaOffset(w, i, j) + 1], yuv[w * h + ChromaOffset(w, i, j)])
    ensures 3 * (j * w + i) + 2 < |rgb|
    ensures ConvertedBefore(SetPixel(rgb, j * w + i, px), yuv, w, h, j * w + i + 1)
  {
    RowCol(w, i, j);
    ConvertedStep(rgb, yuv, w, h, j * w + i);
  }

  /** Loops that converted all w*h pixels read only inside the buffer, so
      the buffer covers the frame, and they produced the converted frame. */
  lemma ConvertedAll(rgb: seq<Byte>, yuv: seq<Byte>, w: nat, h: nat)
    requires ConvertedBefore(rgb, yuv, w, h, w * h)
    ensures Covers(|yuv|, w, h) && rgb == Nv21ToRgb(yuv, w, h)
  {
    if 0 < w && 0 < h {
      assert PixelWritten(rgb, yuv, w, h, w * h - 1);
      CoversIffLastReadable(|yuv|, w, h);
    }
    ConvertedFrame(rgb, yuv, w, h);
  }

  /** Loops that converted all w*h pixels of a covered frame produced the
      converted frame. */
  lemma ConvertedFrame(rgb: seq<Byte>, yuv: seq<Byte>, w: nat, h: nat)
    requires ConvertedBefore(rgb, yuv, w, h, w * h) && Covers(|yuv|, w, h)
    ensures rgb == Nv21ToRgb(yuv, w, h)
  {
    forall k | 0 <= k < 3 * (w * h)
      ensures rgb[k] == Nv21ToRgb(yuv, w, h)[k]
    {
      ConvertedWritten(rgb, yuv, w, h, k);
      ConvertedByte(rgb, yuv, w, h, k);
    }
  }

  /** In a fully converted frame the pixel of every byte has been written. */
  lemma ConvertedWritten(rgb: seq<Byte>, yuv: seq<Byte>, w: nat, h: nat, k: nat)
    requires ConvertedBefore(rgb, yuv, w, h, w * h) && k < 3 * (w * h)
    ensures PixelWritten(rgb, yuv, w, h, k / 3)
  {
    assert k / 3 < w * h;
  }

  /** Once its pixel has been written, a byte of the output equals the
      same byte of the converted frame. */
  lemma ConvertedByte(rgb: seq<Byte>, yuv: seq<Byte>, w: nat, h: nat, k: nat)
    requires Covers(|yuv|, w, h) && k < 3 * (w * h) && PixelWritten(rgb, yuv, w, h, k / 3)
    ensures rgb[k] == Nv21ToRgb(yuv, w, h)[k]
  {
    FrameByte(yuv, w, h, k);
    assert k == 3 * (k / 3) + k % 3;
  }

  /** For even dimensions the bytes read are exactly the standard NV21 size
      w*h*3/2: a shorter buffer is rejected, a buffer of that size suffices. */
  lemma CoversEvenDims(len: nat, w: nat, h: nat)
    requires 0 < w && 0 < h && w % 2 == 0 && h % 2 == 0
    ensures Covers(len, w, h) <==> w * h * 3 / 2 <= len
  {
    var m := h / 2;
    assert (h - 1) / 2 == m - 1;
    assert EvenFloor(w - 1) == w - 2;
    assert w * h == 2 * (m * w) by {
      assert h == 2 * m;
    }
    assert ChromaOffset(w, w - 1, h - 1) == m * w - 2 by {
      assert (m - 1) * w == m * w - w;
    }
  }

  /** With an odd width and an even height the last pixel's U byte is
      byte w*h*3/2, one past the standard size: the reads stay in bounds
      exactly when the buffer is longer than that. */
  lemma OddWidthEvenHeight(len: nat, w: nat, h: nat)
    requires 0 < w && 0 < h && w % 2 == 1 && h % 2 == 0
    ensures Covers(len, w, h) <==> w * h * 3 / 2 < len
  {
    var m := h / 2;
    assert (h - 1) / 2 == m - 1;
    assert EvenFloor(w - 1) == w - 1;
    assert w * h == 2 * (m * w) by {
      assert h == 2 * m;
    }
    assert ChromaOffset(w, w - 1, h - 1) == m * w - 1 by {
      assert (m - 1) * w == m * w - w;
    }
    DivUnique(w * h * 3, 2, 3 * (m * w));
  }

  /** With an odd height the last pair of rows has no chroma row of its
      own but still reads one: a buffer must be longer than w*h*3/2, and
      by at least w/2 more bytes. */
  lemma OddHeightNeedsMore(len: nat, w: nat, h: nat)
    requires 0 < w && h % 2 == 1 && Covers(len, w, h)
    ensures w * h * 3 / 2 < len && w * h * 3 / 2 + w / 2 <= len
  {
    var m := h / 2;
    var k := w / 2;
    assert (h - 1) / 2 == m;
    assert w * h == 2 * (m * w) + w by {
      assert h == 2 * m + 1;
    }
    assert ChromaOffset(w, w - 1, h - 1) == m * w + EvenFloor(w - 1);
    if w % 2 == 0 {
      assert w == 2 * k && EvenFloor(w - 1) == w - 2;
      DivUnique(w * h * 3, 2, 3 * (m * w) + 3 * k);
    } else {
      assert w == 2 * k + 1 && EvenFloor(w - 1) == w - 1;
      DivUnique(w * h * 3, 2, 3 * (m * w) + 3 * k + 1);
    }
  }

  /** For an odd width the last pixel's U byte lies one past w*h*3/2, so a
      buffer of exactly that size is not enough (a 3x2 frame needs 10 bytes). */
  lemma OddWidthReadsPastStandardSize()
    ensures 3 * 2 * 3 / 2 == 9 && !Covers(9, 3, 2) && Covers(10, 3, 2)
  {
  }

  /** Neutral chroma (U = V = 128) adds nothing: the pixel is gray with value Y. */
  lemma NeutralChroma(y: Byte)
    ensures ConvertPixel(y, 128, 128) == Rgb(y, y, y)
  {
  }

  /** A frame whose chroma bytes are all 128 converts to R = G = B = Y at every pixel. */
  lemma NeutralFrameIsGray(yuv: seq<Byte>, w: nat, h: nat, k: nat)
    requires Covers(|yuv|, w, h) && k < 3 * (w * h)
    requires forall q :: w * h <= q < |yuv| ==> yuv[q] == 128
    ensures k / 3 < w * h
    ensures Nv21ToRgb(yuv, w, h)[k] == yuv[k / 3]
  {
    FrameByte(yuv, w, h, k);
    NeutralPixel(yuv, w, h, k / 3);
  }

  /** A pixel whose V/U pair is (128, 128) is gray with its own luma. */
  lemma NeutralPixel(yuv: seq<Byte>, w: nat, h: nat, p: nat)
    requires Readable(|yuv|, w, h, p)
    requires forall k :: w * h <= k < |yuv| ==> yuv[k] == 128
    ensures Pixel(yuv, w, h, p) == Rgb(yuv[p], yuv[p], yuv[p])
  {
    var c := w * h + ChromaOffset(w, p % w, p / w);
    assert yuv[c] == 128 && yuv[c + 1] == 128;
    NeutralChroma(yuv[p]);
  }

  /** Two pixels in the same pair of rows (row / 2) and the same pair of
      columns (column & ~1) read the same V/U pair, so equal luma gives
      equal colours: chroma is shared by each 2x2 block. */
  lemma BlockSharesChroma(yuv: seq<Byte>, w: nat, h: nat, p1: nat, p2: nat)
    requires Readable(|yuv|, w, h, p1) && Readable(|yuv|, w, h, p2)
    requires (p1 / w) / 2 == (p2 / w) / 2 && EvenFloor(p1 % w) == EvenFloor(p2 % w)
    requires yuv[p1] == yuv[p2]
    ensures Pixel(yuv, w, h, p1) == Pixel(yuv, w, h, p2)
  {
  }

  /** Clamping hides the direction of rounding: truncating toward zero and
      rounding down agree once the result is clamped to [0, 255]. */
  lemma ClampHidesRounding(n: int, d: nat)
    requires 0 < d
    ensures Clamp(TruncDiv(n, d)) == Clamp(n / d)
  {
    if n < 0 {
      assert n / d < 0;
    }
  }
}

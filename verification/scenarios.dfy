/** Worked frames: one 2×2 NV21 frame followed through the codec, both
    dispatchers, the ARGB packing and a short buffer. */
module Scenarios {
  import opened Base
  import opened Codec
  import opened Filters
  import Dispatcher
  import KotlinProcessor
  import NativeCpp

  /** A 2×2 frame: four luma bytes of 100, then one V/U pair (V = 120,
      U = 140) shared by the whole 2×2 block. */
  const FRAME: seq<Byte> := [100, 100, 100, 100, 120, 140]

  /** The pixel of the frame: R = trunc(100 - 8*1.370705) = 89,
      G = trunc(100 + 8*0.698001 - 12*0.337633) = 101,
      B = trunc(100 + 12*1.732446) = 120. */
  lemma WarmPixel()
    ensures ConvertPixel(100, 140, 120) == Rgb(89, 101, 120)
  {
    assert TruncDiv(1000000 * 100 + 1370705 * (120 - 128), 1000000) == 89;
    assert TruncDiv(1000000 * 100 - 698001 * (120 - 128) - 337633 * (140 - 128), 1000000) == 101;
    assert TruncDiv(1000000 * 100 + 1732446 * (140 - 128), 1000000) == 120;
  }

  /** The shape of FRAME, stated without the literal so that the proofs
      below reason about its bytes rather than unfold it. */
  predicate WarmShape(yuv: seq<Byte>)
  {
    |yuv| == 6 && yuv[0] == 100 && yuv[1] == 100 && yuv[2] == 100 && yuv[3] == 100 &&
    yuv[4] == 120 && yuv[5] == 140
  }

  /** Each of the four pixels reads luma 100 and the single V/U pair. */
  lemma WarmPixelAt(yuv: seq<Byte>, p: nat)
    requires WarmShape(yuv) && p < 4
    ensures Readable(|yuv|, 2, 2, p) && Pixel(yuv, 2, 2, p) == Rgb(89, 101, 120)
  {
    var x, y := Coords(2, 2, p);
    assert ChromaOffset(2, x, y) == 0;
    WarmPixel();
  }

  /** n copies of one pixel, as an interleaved RGB frame. */
  function Tile(px: Rgb, n: nat): (rgb: seq<Byte>)
    ensures |rgb| == 3 * n
  {
    seq(3 * n, k requires 0 <= k < 3 * n => Channel(px, k % 3))
  }

  /** A frame of that shape covers 2×2 pixels, and every pixel reads the
      single V/U pair, so the RGB frame repeats (89, 101, 120) four times. */
  lemma {:induction false} WarmFrameOf(yuv: seq<Byte>)
    requires WarmShape(yuv)
    ensures Covers(|yuv|, 2, 2)
    ensures Nv21ToRgb(yuv, 2, 2) == Tile(Rgb(89, 101, 120), 4)
  {
    assert Covers(|yuv|, 2, 2) by {
      assert ChromaOffset(2, 1, 1) == 0;
    }
    var rgb := Nv21ToRgb(yuv, 2, 2);
    forall k | 0 <= k < 12
      ensures rgb[k] == Channel(Rgb(89, 101, 120), k % 3)
    {
      FrameByte(yuv, 2, 2, k);
      WarmPixelAt(yuv, k / 3);
    }
  }

  lemma WarmFrame()
    ensures Covers(|FRAME|, 2, 2)
    ensures Nv21ToRgb(FRAME, 2, 2) == Tile(Rgb(89, 101, 120), 4)
  {
    WarmFrameOf(FRAME);
  }

  /** Edge detection on any 2×2 RGB frame gives four black pixels: the
      plane has no interior. */
  lemma SmallFrameEdgesAreZero(rgb: seq<Byte>)
    requires |rgb| == 12
    ensures Apply(Edges, rgb, 2, 2) == Tile(Rgb(0, 0, 0), 4)
  {
    var plane := EdgePlane(LumaPlane(rgb), 2, 2);
    EdgeSmallPlaneIsZero(LumaPlane(rgb), 2, 2);
    var out := Apply(Edges, rgb, 2, 2);
    forall k | 0 <= k < 12
      ensures out[k] == 0
    {
      var p := k / 3;
      ReplicateAt(plane, p);
    }
  }

  /** Its luma is (299*89 + 587*101 + 114*120) / 1000 = 99. */
  lemma WarmLuma()
    ensures Luma(89, 101, 120) == 99
  {
  }

  /** Kotlin falls back to Raw for mode 7 and returns the RGB frame; C++
      runs edge detection, and a 2×2 plane has no interior, so it returns
      four black pixels. */
  method ModeSevenDiverges() returns (kotlin: Option<seq<Byte>>, native: Option<seq<Byte>>)
    ensures kotlin == Some(Tile(Rgb(89, 101, 120), 4))
    ensures native == Some(Tile(Rgb(0, 0, 0), 4))
  {
    WarmFrame();
    kotlin := KotlinProcessor.ProcessFrame(FRAME, 2, 2, 7);
    var processor := new NativeCpp.NativeProcessor();
    var ready := processor.InitOpenCV();
    native := processor.ProcessFrame(FRAME, 2, 2, 7);
    SmallFrameEdgesAreZero(Nv21ToRgb(FRAME, 2, 2));
  }

  /** Dropping the last byte of the frame (the U of its only pair) leaves
      a buffer Kotlin cannot read to the end: processFrame returns null. */
  method ShortBufferIsNull() returns (out: Option<seq<Byte>>)
    ensures out.None?
  {
    assert ChromaOffset(2, 1, 1) == 0;
    out := KotlinProcessor.ProcessFrame(FRAME[..5], 2, 2, MODE_GRAYSCALE);
  }

  /** The pixel packs to 0xFF596578, which a Kotlin `Int` holds as
      -10918536, and unpacks to its channels. */
  lemma WarmArgb()
    ensures Dispatcher.Pack(89, 101, 120) == 0xFF59_6578
    ensures Dispatcher.AsInt(Dispatcher.Pack(89, 101, 120)) == -10918536
    ensures Dispatcher.Red(Dispatcher.Pack(89, 101, 120)) == 89
  {
    Dispatcher.UnpackPack(89, 101, 120);
  }
}

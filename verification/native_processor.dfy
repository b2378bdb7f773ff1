/** The C++ frame processor (native_processor.cpp): hand-written loops over
    raw byte buffers behind a JNI entry point that refuses to work until a
    process-wide flag has been set by `initOpenCV`. The flag is a field of
    the `NativeProcessor` object; the JNI environment is left out. */
module NativeCpp {
  import opened Base
  import opened Codec
  import opened Filters

  /** `yuvToRgb`: the same index arithmetic and coefficients as the Kotlin
      loop, with no bounds checks at all, so the caller must supply a buffer
      that covers every byte read. */
  method YuvToRgb(yuv: seq<Byte>, rgb: array<Byte>, w: nat, h: nat)
    requires Covers(|yuv|, w, h)
    requires rgb.Length == 3 * (w * h)
    modifies rgb
    ensures rgb[..] == Nv21ToRgb(yuv, w, h)
  {
    ConvertedNone(rgb[..], yuv, w, h);
    var j := 0;
    while j < h
      invariant 0 <= j <= h
      invariant ConvertedBefore(rgb[..], yuv, w, h, j * w)
    {
      var i := 0;
      while i < w
        invariant 0 <= i <= w
        invariant ConvertedBefore(rgb[..], yuv, w, h, j * w + i)
      {
        ConvertCell(yuv, rgb, w, h, i, j);
        i := i + 1;
      }
      assert j * w + w == (j + 1) * w;
      j := j + 1;
    }
    assert j * w == w * h;
    ConvertedAll(rgb[..], yuv, w, h);
  }

  /** The body of the loops of `yuvToRgb` for column i of row j: reads the
      luma and the V/U pair and stores the pixel's R, G and B. */
  method ConvertCell(yuv: seq<Byte>, rgb: array<Byte>, w: nat, h: nat, i: nat, j: nat)
    requires Covers(|yuv|, w, h) && i < w && j < h
    requires ConvertedBefore(rgb[..], yuv, w, h, j * w + i)
    modifies rgb
    ensures ConvertedBefore(rgb[..], yuv, w, h, j * w + i + 1)
  {
    var yIndex := j * w + i;
    var uvIndex := ChromaOffset(w, i, j);
    CellBound(w, h, i, j);
    CoveredCell(|yuv|, w, h, i, j);
    var y := yuv[yIndex];
    var v := yuv[w * h + uvIndex];
    var u := yuv[w * h + uvIndex + 1];
    var px := ConvertPixel(y, u, v);
    ghost var before := rgb[..];
    ConvertedCell(before, yuv, w, h, i, j, px);
    StorePixel(rgb, yIndex, px);
  }

  /** `convertToGrayscale`: exactly w*h single-channel values, one per pixel. */
  method ConvertToGrayscale(rgb: seq<Byte>, gray: array<Byte>, w: nat, h: nat)
    requires |rgb| == 3 * (w * h) && gray.Length == w * h
    modifies gray
    ensures gray[..] == LumaPlane(rgb)
  {
    assert |rgb| / 3 == w * h;
    var i := 0;
    while i < w * h
      invariant 0 <= i <= w * h
      invariant forall k :: 0 <= k < i ==> gray[k] == LumaPlane(rgb)[k]
    {
      var idx := i * 3;
      gray[i] := Luma(rgb[idx], rgb[idx + 1], rgb[idx + 2]);
      i := i + 1;
    }
  }

  /** `detectEdges`: `memset` the whole plane to 0, then visit the interior
      row by row; the result is the edge plane, border included. */
  method DetectEdges(gray: seq<Byte>, edges: array<Byte>, w: nat, h: nat)
    requires |gray| == w * h && edges.Length == w * h
    modifies edges
    ensures edges[..] == EdgePlane(gray, w, h)
  {
    forall k | 0 <= k < edges.Length {
      edges[k] := 0;
    }
    EdgesStart(gray, w, h);
    assert edges[..] == EdgesBefore(gray, w, h, w);
    var y := 1;
    while y < h - 1
      invariant 1 <= y <= if h <= 1 then 1 else h - 1
      invariant edges[..] == EdgesBefore(gray, w, h, y * w)
    {
      EdgesRowStart(gray, w, h, y);
      var x := 1;
      while x < w - 1
        invariant 1 <= x <= if w <= 1 then 1 else w - 1
        invariant edges[..] == EdgesBefore(gray, w, h, y * w + x)
      {
        var idx := y * w + x;
        EdgesCell(gray, w, h, x, y);
        var gx := SobelX(gray, w, h, x, y);
        var gy := SobelY(gray, w, h, x, y);
        edges[idx] := Magnitude(gx, gy);
        x := x + 1;
      }
      EdgesRowEnd(gray, w, h, x, y);
      y := y + 1;
    }
    EdgesDone(gray, w, h, y);
  }

  /** The loop that both the grayscale and the edge branch of `processFrame`
      run on their single-channel plane: a new 3*n array with each value
      written to R, G and B. */
  method ExpandToRgb(plane: array<Byte>) returns (out: array<Byte>)
    ensures fresh(out)
    ensures out[..] == Replicate(plane[..])
  {
    out := new Byte[plane.Length * 3];
    var i := 0;
    while i < plane.Length
      invariant 0 <= i <= plane.Length
      invariant forall q :: 0 <= q < i ==>
                  out[3 * q] == plane[q] && out[3 * q + 1] == plane[q] && out[3 * q + 2] == plane[q]
    {
      out[i * 3] := plane[i];
      out[i * 3 + 1] := plane[i];
      out[i * 3 + 2] := plane[i];
      i := i + 1;
    }
    ReplicateByPixel(out[..], plane[..]);
  }

  /** The grayscale branch of `processFrame`: a w*h luma plane, expanded
      back to RGB for display. */
  method GrayscaleBranch(rgbData: seq<Byte>, w: nat, h: nat) returns (grayRgb: array<Byte>)
    requires |rgbData| == 3 * (w * h)
    ensures grayRgb[..] == Apply(Grayscale, rgbData, w, h)
  {
    var grayData := new Byte[w * h];
    ConvertToGrayscale(rgbData, grayData, w, h);
    // Convert back to RGB for display
    grayRgb := ExpandToRgb(grayData);
  }

  /** The edge branch of `processFrame`: a w*h luma plane, its edge plane,
      and the edges expanded to RGB (white edges on black). */
  method EdgesBranch(rgbData: seq<Byte>, w: nat, h: nat) returns (edgeRgb: array<Byte>)
    requires |rgbData| == 3 * (w * h)
    ensures edgeRgb[..] == Apply(Edges, rgbData, w, h)
  {
    var grayData := new Byte[w * h];
    var edgeData := new Byte[w * h];
    ConvertToGrayscale(rgbData, grayData, w, h);
    DetectEdges(grayData[..], edgeData, w, h);
    // Convert edges to RGB (white edges on black background)
    edgeRgb := ExpandToRgb(edgeData);
  }

  /** The process-wide state of the native library. */
  class NativeProcessor {
    /** `isOpenCVInitialized`. */
    var initialized: bool

    /** The library as loaded: not yet initialised. */
    constructor ()
      ensures !initialized
    {
      initialized := false;
    }

    /** `initOpenCV`: sets the flag and reports success. */
    method InitOpenCV() returns (ok: bool)
      modifies this
      ensures initialized && ok
    {
      initialized := true;
      ok := true;
    }

    /** `processFrame`: null before initialisation; afterwards the converted
        frame, filtered by mode, where mode 0 is raw, mode 1 grayscale and any
        other number edge detection. The length of the input is never
        consulted, so an initialised caller must pass a covering buffer. */
    method ProcessFrame(frameData: seq<Byte>, w: nat, h: nat, mode: int) returns (result: Option<seq<Byte>>)
      requires initialized ==> Covers(|frameData|, w, h)
      ensures !initialized ==> result == None
      ensures initialized ==> result.Some? && |result.value| == 3 * (w * h)
      ensures initialized ==> result == Some(Apply(NativeDispatch(mode), Nv21ToRgb(frameData, w, h), w, h))
    {
      if !initialized {
        return None;
      }
      var pixelCount := w * h;
      var rgbSize := pixelCount * 3;
      var rgbData := new Byte[rgbSize];
      YuvToRgb(frameData, rgbData, w, h);
      if mode == MODE_RAW {
        result := Some(rgbData[..]);
      } else if mode == MODE_GRAYSCALE {
        var grayRgb := GrayscaleBranch(rgbData[..], w, h);
        result := Some(grayRgb[..]);
      } else {
        var edgeRgb := EdgesBranch(rgbData[..], w, h);
        result := Some(edgeRgb[..]);
      }
    }
  }
}

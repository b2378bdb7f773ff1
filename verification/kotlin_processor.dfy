/** The Kotlin frame processor (NativeProcessor.kt): a `when` dispatch over
    three procedures, each of which allocates zero-filled byte arrays and
    fills them with nested index loops. An out-of-range read throws; the
    dispatch catches every exception and returns null. Here a thrown
    exception is the out-parameter `ok == false`, and null is `None`. */
module KotlinProcessor {
  import opened Base
  import opened Codec
  import opened Filters

  /** `yuvToRgb`: converts pixel (i, j) for j in 0..h-1, i in 0..w-1, reading
      luma at j*w + i and the V/U pair at w*h + (j/2)*w + (i & ~1). The first
      read past the end of `yuv` throws (`ok == false`), which happens exactly
      when the buffer does not cover the frame. */
  method YuvToRgb(yuv: seq<Byte>, rgb: array<Byte>, w: nat, h: nat) returns (ok: bool)
    requires rgb.Length == 3 * (w * h)
    modifies rgb
    ensures ok == Covers(|yuv|, w, h)
    ensures ok ==> rgb[..] == Nv21ToRgb(yuv, w, h)
  {
    ConvertedNone(rgb[..], yuv, w, h);
    var j := 0;
    while j < h
      invariant 0 <= j <= h
      invariant ConvertedBefore(rgb[..], yuv, w, h, j * w)
    {
      var i := 0;
      while i < w
        invariant 0 <= i <= w
        invariant ConvertedBefore(rgb[..], yuv, w, h, j * w + i)
      {
        var read := ConvertCell(yuv, rgb, w, h, i, j);
        if !read {
          // ArrayIndexOutOfBoundsException: it leaves both loops
          return false;
        }
        i := i + 1;
      }
      assert j * w + w == (j + 1) * w;
      j := j + 1;
    }
    assert j * w == w * h;
    ConvertedAll(rgb[..], yuv, w, h);
    return true;
  }

  /** The body of the loops of `yuvToRgb` for column i of row j: reads the
      luma and the V/U pair and stores the pixel's R, G and B; a read past
      the end of `yuv` throws (`read == false`) before anything is stored,
      and shows that the buffer does not cover the frame. */
  method ConvertCell(yuv: seq<Byte>, rgb: array<Byte>, w: nat, h: nat, i: nat, j: nat) returns (read: bool)
    requires i < w && j < h
    requires ConvertedBefore(rgb[..], yuv, w, h, j * w + i)
    modifies rgb
    ensures read ==> ConvertedBefore(rgb[..], yuv, w, h, j * w + i + 1)
    ensures !read ==> !Covers(|yuv|, w, h) && rgb[..] == old(rgb[..])
  {
    var yIndex := j * w + i;
    var uvIndex := ChromaOffset(w, i, j);
    CellBound(w, h, i, j);
    if |yuv| <= yIndex || |yuv| <= w * h + uvIndex || |yuv| <= w * h + uvIndex + 1 {
      UncoveredCell(|yuv|, w, h, i, j);
      return false;
    }
    var y := yuv[yIndex];
    var v := yuv[w * h + uvIndex];
    var u := yuv[w * h + uvIndex + 1];
    var px := ConvertPixel(y, u, v);
    ghost var before := rgb[..];
    ConvertedCell(before, yuv, w, h, i, j, px);
    StorePixel(rgb, yIndex, px);
    return true;
  }

  /** `processRaw`: a zero-filled 3*w*h array, converted in place. */
  method ProcessRaw(yuv: seq<Byte>, w: nat, h: nat) returns (rgb: array<Byte>, ok: bool)
    ensures ok == Covers(|yuv|, w, h)
    ensures ok ==> rgb[..] == Apply(Raw, Nv21ToRgb(yuv, w, h), w, h)
  {
    rgb := new Byte[w * h * 3](_ => 0);
    ok := YuvToRgb(yuv, rgb, w, h);
  }

  /** `processGrayscale`: converts, then overwrites each pixel's three bytes
      with its luma, in place. */
  method ProcessGrayscale(yuv: seq<Byte>, w: nat, h: nat) returns (rgb: array<Byte>, ok: bool)
    ensures ok == Covers(|yuv|, w, h)
    ensures ok ==> rgb[..] == Apply(Grayscale, Nv21ToRgb(yuv, w, h), w, h)
  {
    rgb := new Byte[w * h * 3](_ => 0);
    ok := YuvToRgb(yuv, rgb, w, h);
    if !ok {
      return;
    }
    GrayInPlace(rgb);
  }

  /** The luma loop of `processGrayscale`: pixel i's R, G and B all become
      its luma; bytes of later pixels are untouched until their turn. */
  method GrayInPlace(rgb: array<Byte>)
    requires rgb.Length % 3 == 0
    modifies rgb
    ensures rgb[..] == Replicate(LumaPlane(old(rgb[..])))
  {
    ghost var orig := rgb[..];
    var i := 0;
    while i < rgb.Length / 3
      invariant 0 <= i <= rgb.Length / 3
      invariant rgb[..] == GrayedBefore(orig, i)
    {
      var idx := i * 3;
      GrayedStep(orig, i);
      var gray := Luma(rgb[idx], rgb[idx + 1], rgb[idx + 2]);
      StorePixel(rgb, i, Rgb(gray, gray, gray));
      i := i + 1;
    }
    GrayedAll(orig);
  }

  /** `processCanny`: converts, reduces to a luma plane, runs the Sobel loop
      over the interior of a zero-filled edge plane (the zero fill is the
      border policy), then writes each edge value into R, G and B. */
  method ProcessCanny(yuv: seq<Byte>, w: nat, h: nat) returns (rgb: array<Byte>, ok: bool)
    ensures ok == Covers(|yuv|, w, h)
    ensures ok ==> rgb[..] == Apply(Edges, Nv21ToRgb(yuv, w, h), w, h)
  {
    rgb := new Byte[w * h * 3](_ => 0);
    ok := YuvToRgb(yuv, rgb, w, h);
    if !ok {
      return;
    }
    // Convert to grayscale first
    var gray := GrayPlane(rgb);
    // Sobel over the interior; the border keeps the zero fill
    var edges := SobelPlane(gray[..], w, h);
    // Convert back to RGB
    Spread(edges, rgb);
  }

  /** The first loop of `processCanny`: a fresh w*h array holding each
      pixel's luma. */
  method GrayPlane(rgb: array<Byte>) returns (gray: array<Byte>)
    requires rgb.Length % 3 == 0
    ensures fresh(gray)
    ensures gray[..] == LumaPlane(rgb[..])
  {
    gray := new Byte[rgb.Length / 3](_ => 0);
    ghost var lp := LumaPlane(rgb[..]);
    var i := 0;
    while i < rgb.Length / 3
      invariant 0 <= i <= rgb.Length / 3
      invariant forall k :: 0 <= k < i ==> gray[k] == lp[k]
    {
      var idx := i * 3;
      gray[i] := Luma(rgb[idx], rgb[idx + 1], rgb[idx + 2]);
      i := i + 1;
    }
    assert gray[..] == lp;
  }

  /** The Sobel loop of `processCanny`: a fresh zero-filled w*h array whose
      interior cells, visited row by row, receive the gradient magnitude. */
  method SobelPlane(gray: seq<Byte>, w: nat, h: nat) returns (edges: array<Byte>)
    requires |gray| == w * h
    ensures fresh(edges)
    ensures edges[..] == EdgePlane(gray, w, h)
  {
    edges := new Byte[w * h](_ => 0);
    EdgesStart(gray, w, h);
    assert edges[..] == EdgesBefore(gray, w, h, w);
    var y := 1;
    while y < h - 1
      invariant 1 <= y <= if h <= 1 then 1 else h - 1
      invariant edges[..] == EdgesBefore(gray, w, h, y * w)
    {
      EdgesRowStart(gray, w, h, y);
      var x := 1;
      while x < w - 1
        invariant 1 <= x <= if w <= 1 then 1 else w - 1
        invariant edges[..] == EdgesBefore(gray, w, h, y * w + x)
      {
        var idx := y * w + x;
        EdgesCell(gray, w, h, x, y);
        var gx := SobelX(gray, w, h, x, y);
        var gy := SobelY(gray, w, h, x, y);
        edges[idx] := Magnitude(gx, gy);
        x := x + 1;
      }
      EdgesRowEnd(gray, w, h, x, y);
      y := y + 1;
    }
    EdgesDone(gray, w, h, y);
  }

  /** The last loop of `processCanny`: each plane value is written to the
      three bytes of its pixel. */
  method Spread(plane: array<Byte>, rgb: array<Byte>)
    requires rgb.Length == 3 * plane.Length && plane != rgb
    modifies rgb
    ensures rgb[..] == Replicate(plane[..])
  {
    var i := 0;
    while i < plane.Length
      invariant 0 <= i <= plane.Length
      invariant forall q :: 0 <= q < i ==> rgb[3 * q] == plane[q] && rgb[3 * q + 1] == plane[q] && rgb[3 * q + 2] == plane[q]
    {
      rgb[i * 3] := plane[i];
      rgb[i * 3 + 1] := plane[i];
      rgb[i * 3 + 2] := plane[i];
      i := i + 1;
    }
    ReplicateByPixel(rgb[..], plane[..]);
  }

  /** `processFrame`: dispatches on the mode (every number other than 0, 1
      and 2 takes the Raw branch) and turns any exception into null. A
      non-null result always holds 3*w*h bytes. */
  method ProcessFrame(inputFrame: seq<Byte>, w: nat, h: nat, mode: int) returns (out: Option<seq<Byte>>)
    ensures out.Some? <==> Covers(|inputFrame|, w, h)
    ensures out.Some? ==> |out.value| == 3 * (w * h)
    ensures out.Some? ==> out.value == Apply(KotlinDispatch(mode), Nv21ToRgb(inputFrame, w, h), w, h)
  {
    var rgb: array<Byte>;
    var ok: bool;
    if mode == MODE_RAW {
      rgb, ok := ProcessRaw(inputFrame, w, h);
    } else if mode == MODE_GRAYSCALE {
      rgb, ok := ProcessGrayscale(inputFrame, w, h);
    } else if mode == MODE_CANNY {
      rgb, ok := ProcessCanny(inputFrame, w, h);
    } else {
      rgb, ok := ProcessRaw(inputFrame, w, h);
    }
    out := if ok then Some(rgb[..]) else None;
  }
}

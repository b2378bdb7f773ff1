/** The per-frame bookkeeping of MainActivity.processFrame: the processed RGB
    frame is packed into one 32-bit ARGB int per pixel, and a windowed
    frame counter turns frame arrivals into a frames-per-second figure.
    Time is a parameter (milliseconds); fps is a real. */
module Dispatcher {
  import opened Base
  import opened Filters

  /** The shift-and-or expression of the packing loop on 8-bit channels,
      as a 32-bit pattern. */
  function PackBits(r: bv8, g: bv8, b: bv8): bv32
  {
    (0xFF << 24) | ((r as bv32) << 16) | ((g as bv32) << 8) | (b as bv32)
  }

  /** The four fields do not overlap, so the `or` of the shifted channels
      is their weighted sum, and each byte of the pattern is one field. */
  lemma OrIsSum(r: bv8, g: bv8, b: bv8)
    ensures PackBits(r, g, b) == 0xFF00_0000 + (r as bv32) * 0x1_0000 + (g as bv32) * 0x100 + (b as bv32)
    ensures (PackBits(r, g, b) >> 24) & 0xFF == 0xFF && (PackBits(r, g, b) >> 16) & 0xFF == r as bv32
    ensures (PackBits(r, g, b) >> 8) & 0xFF == g as bv32 && PackBits(r, g, b) & 0xFF == b as bv32
  {
  }

  /** One ARGB_8888 pixel as an unsigned 32-bit number: alpha 0xFF in the
      top byte, then r, g and b (`PackIsBits` shows it is the number the
      shift-and-or produces). */
  function Pack(r: Byte, g: Byte, b: Byte): (p: nat)
    ensures 0x8000_0000 <= p < 0x1_0000_0000
  {
    0xFF00_0000 + r * 0x1_0000 + g * 0x100 + b
  }

  // The bit pattern read as a number. Each step converts one bounded
  // 32-bit sum, which keeps every conversion small.

  lemma WidenByte(x: bv8)
    ensures (x as bv32) as int == x as int
  {
  }

  lemma LowBytesAsInt(y: bv32, z: bv32)
    requires y < 0x100 && z < 0x100
    ensures y * 0x100 + z < 0x1_0000
    ensures (y * 0x100 + z) as int == y as int * 0x100 + z as int
  {
  }

  lemma ThirdByteAsInt(x: bv32, lo: bv32)
    requires x < 0x100 && lo < 0x1_0000
    ensures x * 0x1_0000 + lo < 0x100_0000
    ensures (x * 0x1_0000 + lo) as int == x as int * 0x1_0000 + lo as int
  {
  }

  lemma AlphaAsInt(x: bv32)
    requires x < 0x100_0000
    ensures (0xFF00_0000 + x) as int == 0xFF00_0000 + x as int
  {
  }

  lemma RgbAsInt(x: bv32, y: bv32, z: bv32)
    requires x < 0x100 && y < 0x100 && z < 0x100
    ensures x * 0x1_0000 + (y * 0x100 + z) < 0x100_0000
    ensures (x * 0x1_0000 + (y * 0x100 + z)) as int == x as int * 0x1_0000 + y as int * 0x100 + z as int
  {
    LowBytesAsInt(y, z);
    ThirdByteAsInt(x, y * 0x100 + z);
  }

  lemma ArgbAsInt(x: bv32, y: bv32, z: bv32)
    requires x < 0x100 && y < 0x100 && z < 0x100
    ensures (0xFF00_0000 + (x * 0x1_0000 + (y * 0x100 + z))) as int ==
      0xFF00_0000 + x as int * 0x1_0000 + y as int * 0x100 + z as int
  {
    RgbAsInt(x, y, z);
    AlphaAsInt(x * 0x1_0000 + (y * 0x100 + z));
  }

  lemma PackBitsNested(r: bv8, g: bv8, b: bv8)
    ensures PackBits(r, g, b) == 0xFF00_0000 + ((r as bv32) * 0x1_0000 + ((g as bv32) * 0x100 + (b as bv32)))
  {
    OrIsSum(r, g, b);
  }

  /** The shift-and-or of the packing loop, read as an unsigned number, is
      Pack of the same channels. */
  lemma PackIsBits(r: bv8, g: bv8, b: bv8)
    ensures PackBits(r, g, b) as int == Pack(r as int, g as int, b as int)
  {
    PackBitsNested(r, g, b);
    ArgbAsInt(r as bv32, g as bv32, b as bv32);
    WidenByte(r);
    WidenByte(g);
    WidenByte(b);
  }

  /** Byte k of a packed pixel, `(p shr 8k) and 0xFF`. */
  function Field(p: nat, shift: nat): (f: Byte)
    requires shift == 0x1 || shift == 0x100 || shift == 0x1_0000 || shift == 0x100_0000
  {
    (p / shift) % 0x100
  }

  function Alpha(p: nat): Byte { Field(p, 0x100_0000) }
  function Red(p: nat): Byte { Field(p, 0x1_0000) }
  function Green(p: nat): Byte { Field(p, 0x100) }
  function Blue(p: nat): Byte { Field(p, 0x1) }

  /** The value Kotlin's signed 32-bit `Int` holds for the unsigned pattern `p`. */
  function AsInt(p: nat): (v: int)
    requires p < 0x1_0000_0000
    ensures -0x8000_0000 <= v < 0x8000_0000
    ensures v % 0x1_0000_0000 == p
  {
    if p < 0x8000_0000 then p else p - 0x1_0000_0000
  }

  /** Unpacking a packed pixel gives back its three channels, and its
      alpha byte is opaque; as a Kotlin `Int` it is negative, because the
      alpha byte sets the sign bit. */
  lemma {:induction false} UnpackPack(r: Byte, g: Byte, b: Byte)
    ensures Alpha(Pack(r, g, b)) == 0xFF
    ensures Red(Pack(r, g, b)) == r && Green(Pack(r, g, b)) == g && Blue(Pack(r, g, b)) == b
    ensures AsInt(Pack(r, g, b)) < 0
  {
    var p := Pack(r, g, b);
    DivUnique(p, 0x100_0000, 0xFF);
    DivUnique(0xFF, 0x100, 0);
    DivUnique(p, 0x1_0000, 0xFF00 + r);
    DivUnique(0xFF00 + r, 0x100, 0xFF);
    DivUnique(p, 0x100, 0xFF_0000 + r * 0x100 + g);
    DivUnique(0xFF_0000 + r * 0x100 + g, 0x100, 0xFF00 + r);
    assert p / 0x1 == p;
  }

  /** The pixel array handed to the bitmap: pixel i packs bytes 3i, 3i+1
      and 3i+2 of the processed frame. */
  function PackedFrame(frame: seq<Byte>, n: nat): (pixels: seq<nat>)
    requires 3 * n <= |frame|
    ensures |pixels| == n
  {
    seq(n, i requires 0 <= i < n => Pack(frame[3 * i], frame[3 * i + 1], frame[3 * i + 2]))
  }

  /** Every packed pixel unpacks to its own three bytes of the frame. */
  lemma UnpackFrame(frame: seq<Byte>, n: nat, i: nat)
    requires 3 * n <= |frame| && i < n
    ensures Alpha(PackedFrame(frame, n)[i]) == 0xFF
    ensures Red(PackedFrame(frame, n)[i]) == frame[3 * i]
    ensures Green(PackedFrame(frame, n)[i]) == frame[3 * i + 1]
    ensures Blue(PackedFrame(frame, n)[i]) == frame[3 * i + 2]
  {
    var r, g, b := frame[3 * i], frame[3 * i + 1], frame[3 * i + 2];
    assert PackedFrame(frame, n)[i] == Pack(r, g, b);
    UnpackPack(r, g, b);
  }

  /** The packing reads only the first 3n bytes of the frame. */
  lemma PackedFrameReadsPrefix(frame: seq<Byte>, n: nat)
    requires 3 * n <= |frame|
    ensures PackedFrame(frame, n) == PackedFrame(frame[..3 * n], n)
  {
    var pre := frame[..3 * n];
    forall i | 0 <= i < n
      ensures PackedFrame(frame, n)[i] == PackedFrame(pre, n)[i]
    {
      assert pre[3 * i] == frame[3 * i] && pre[3 * i + 1] == frame[3 * i + 1] && pre[3 * i + 2] == frame[3 * i + 2];
    }
  }

  /** The packing loop over a zero-filled IntArray of n pixels. Reading past
      the end of the frame throws (`ok == false`), which happens exactly
      when the frame holds fewer than 3n bytes. */
  method PackPixels(frame: seq<Byte>, n: nat) returns (pixels: array<nat>, ok: bool)
    ensures ok == (3 * n <= |frame|)
    ensures ok ==> pixels[..] == PackedFrame(frame, n)
  {
    pixels := new nat[n](_ => 0);
    var i := 0;
    while i < n
      invariant 0 <= i <= n && 3 * i <= |frame|
      invariant forall k :: 0 <= k < i ==> pixels[k] == Pack(frame[3 * k], frame[3 * k + 1], frame[3 * k + 2])
    {
      if |frame| <= i * 3 + 2 {
        // ArrayIndexOutOfBoundsException
        return pixels, false;
      }
      var r := frame[i * 3];
      var g := frame[i * 3 + 1];
      var b := frame[i * 3 + 2];
      pixels[i] := Pack(r, g, b);
      i := i + 1;
    }
    return pixels, true;
  }

  /** The FPS fields of the activity: frames seen in the current window,
      the window's start time and the last published rate. */
  datatype FpsWindow = FpsWindow(frameCount: int, lastFpsTime: int, currentFps: real)

  /** One frame's FPS update at time `now`: the frame is counted; once at
      least 1000 ms have passed since the window opened, the rate is
      frames * 1000 / elapsed and a new window opens at `now`. */
  function Tick(s: FpsWindow, now: int): (r: FpsWindow)
    ensures now - s.lastFpsTime >= 1000 ==>
      r.frameCount == 0 && r.lastFpsTime == now &&
      r.currentFps * (now - s.lastFpsTime) as real == ((s.frameCount + 1) * 1000) as real
    ensures now - s.lastFpsTime < 1000 ==> r == s.(frameCount := s.frameCount + 1)
  {
    var count := s.frameCount + 1;
    var elapsed := now - s.lastFpsTime;
    if elapsed >= 1000 then
      FpsWindow(0, now, (count * 1000) as real / elapsed as real)
    else
      s.(frameCount := count)
  }

  /** A window that closes always divides by a positive time and a positive
      count: the published rate is positive and at most the number of
      frames counted (the window lasted at least one second). */
  lemma FpsBounds(s: FpsWindow, now: int)
    requires s.frameCount >= 0 && now - s.lastFpsTime >= 1000
    ensures 0.0 < Tick(s, now).currentFps <= (s.frameCount + 1) as real
  {
    var e := (now - s.lastFpsTime) as real;
    var f := Tick(s, now).currentFps;
    var c := (s.frameCount + 1) as real;
    assert f * e == c * 1000.0;
    assert f > 0.0;
    assert f * e >= f * 1000.0;
  }

  /** The FPS updates of a run of frames arriving at the given times. */
  function Run(s: FpsWindow, times: seq<int>): (r: FpsWindow)
    decreases |times|
  {
    if |times| == 0 then s else Run(Tick(s, times[0]), times[1..])
  }

  /** Frames arriving before the window's first second is over are only
      counted: the window start and the published rate stay as they are. */
  lemma {:induction false} QuietRun(s: FpsWindow, times: seq<int>)
    requires forall k :: 0 <= k < |times| ==> times[k] - s.lastFpsTime < 1000
    ensures Run(s, times) == s.(frameCount := s.frameCount + |times|)
    decreases |times|
  {
    if |times| > 0 {
      var s' := Tick(s, times[0]);
      assert s' == s.(frameCount := s.frameCount + 1);
      forall k | 0 <= k < |times[1..]|
        ensures times[1..][k] - s'.lastFpsTime < 1000
      {
        assert times[1..][k] == times[k + 1];
      }
      QuietRun(s', times[1..]);
    }
  }

  /** Thirty frames in a fresh window, the last exactly one second after it
      opened, publish 30 fps and open the next window at that instant. */
  lemma ThirtyFramesInOneSecond(t0: int, fps: real, times: seq<int>)
    requires |times| == 30 && times[29] == t0 + 1000
    requires forall k :: 0 <= k < 29 ==> times[k] < t0 + 1000
    ensures Run(FpsWindow(0, t0, fps), times) == FpsWindow(0, t0 + 1000, 30.0)
  {
    var s := FpsWindow(0, t0, fps);
    QuietRun(s, times[..29]);
    RunSplit(s, times[..29], times[29..]);
    assert times[..29] + times[29..] == times;
    assert times[29..] == [t0 + 1000];
    var m := Run(s, times[..29]);
    assert m == FpsWindow(29, t0, fps);
    assert Run(m, [t0 + 1000]) == Tick(m, t0 + 1000);
  }

  /** Running two batches of frames one after the other is running their
      concatenation. */
  lemma {:induction false} RunSplit(s: FpsWindow, a: seq<int>, b: seq<int>)
    ensures Run(s, a + b) == Run(Run(s, a), b)
    decreases |a|
  {
    if |a| > 0 {
      assert (a + b)[1..] == a[1..] + b;
      RunSplit(Tick(s, a[0]), a[1..], b);
    } else {
      assert a + b == b;
    }
  }

  /** The spinner's positions 0, 1, 2 are the mode numbers of Raw,
      Grayscale and Canny, and both processors read them alike. */
  lemma SpinnerSelectsModes(position: nat)
    requires position < 3
    ensures position == MODE_RAW ==> KotlinDispatch(position) == Raw
    ensures position == MODE_GRAYSCALE ==> KotlinDispatch(position) == Grayscale
    ensures position == MODE_CANNY ==> KotlinDispatch(position) == Edges
    ensures KotlinDispatch(position) == NativeDispatch(position)
  {
  }

  /** The activity's mutable per-frame state. */
  class MainActivity {
    var currentMode: int
    var frameCount: int
    var lastFpsTime: int
    var currentFps: real

    function Window(): FpsWindow
      reads this
    {
      FpsWindow(frameCount, lastFpsTime, currentFps)
    }

    /** Field initialisers: Raw mode, an empty window opened at `startTime`. */
    constructor(startTime: int)
      ensures currentMode == MODE_RAW
      ensures Window() == FpsWindow(0, startTime, 0.0)
    {
      currentMode := MODE_RAW;
      frameCount := 0;
      lastFpsTime := startTime;
      currentFps := 0.0;
    }

    /** The spinner listener: the mode becomes the selected position of the
        three-entry list; the FPS window is untouched. */
    method OnItemSelected(position: nat)
      requires position < 3
      modifies this
      ensures currentMode == position
      ensures Window() == old(Window())
    {
      currentMode := position;
    }

    /** `processFrame` after the processor has returned `processed` for
        the current mode, at time `now`. A non-null frame goes through a
        w×h bitmap (a zero dimension throws) and the packing loop; any
        exception skips the rest of the block, FPS update included.
        Otherwise the frame is counted whether or not it was null. */
    method ProcessFrame(processed: Option<seq<Byte>>, w: nat, h: nat, now: int) returns (shown: Option<seq<nat>>)
      modifies this
      ensures currentMode == old(currentMode)
      ensures processed.Some? && (w == 0 || h == 0 || |processed.value| < 3 * (w * h)) ==>
        shown.None? && Window() == old(Window())
      ensures processed.None? ==> shown.None? && Window() == Tick(old(Window()), now)
      ensures processed.Some? && w > 0 && h > 0 && 3 * (w * h) <= |processed.value| ==>
        shown == Some(PackedFrame(processed.value, w * h)) && Window() == Tick(old(Window()), now)
    {
      shown := None;
      if processed.Some? {
        if w == 0 || h == 0 {
          // Bitmap.createBitmap rejects a zero dimension
          return;
        }
        var pixels, ok := PackPixels(processed.value, w * h);
        if !ok {
          return;
        }
        shown := Some(pixels[..]);
      }
      UpdateFps(now);
    }

    /** The FPS block of `processFrame`. */
    method UpdateFps(now: int)
      modifies this
      ensures currentMode == old(currentMode)
      ensures Window() == Tick(old(Window()), now)
    {
      frameCount := frameCount + 1;
      var elapsedTime := now - lastFpsTime;
      if elapsedTime >= 1000 {
        currentFps := (frameCount * 1000) as real / elapsedTime as real;
        frameCount := 0;
        lastFpsTime := now;
      }
    }
  }
}

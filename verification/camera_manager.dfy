/** The capture side (CameraManager): the loop that assembles an NV21 buffer
    from the three planes of a camera image, the first-match choice of the
    rear camera, and the nullable handle fields that the lifecycle methods
    and the device callbacks reassign. Camera2 objects (devices, sessions,
    readers, threads, handlers) are opaque tokens; `released` records, in
    order, every token whose `close()` the manager has called. */
module Capture {
  import opened Base

  // ---------------------------------------------------------------------
  // NV21 assembly

  /** The number of iterations of `for (i in 0 until n step s)`: the k with
      k*s < n. */
  function Steps(n: nat, s: nat): nat
    requires s > 0
  {
    (n + s - 1) / s
  }

  /** Iteration k of the strided loop runs exactly when k*s < n. */
  lemma StepsCount(n: nat, s: nat, k: nat)
    requires s > 0
    ensures k < Steps(n, s) <==> k * s < n
  {
    var c := Steps(n, s);
    DivUnique(n + s - 1, s, c);
    if k < c {
      MulLe(k + 1, c, s);
    } else {
      MulLe(c, k, s);
    }
  }

  /** The first c iterations read U and V inside both buffers. */
  predicate PairsReadable(u: seq<Byte>, v: seq<Byte>, s: nat, c: nat)
  {
    forall k :: 0 <= k < c ==> k * s < |u| && k * s < |v|
  }

  /** Byte m of the interleaved chroma: V of pair m/2 when m is even, U
      when m is odd, both sampled at offset (m/2)*s. */
  function PairByte(u: seq<Byte>, v: seq<Byte>, s: nat, m: nat, c: nat): Byte
    requires PairsReadable(u, v, s, c) && m < 2 * c
  {
    var k := m / 2;
    assert k < c;
    if m % 2 == 0 then v[k * s] else u[k * s]
  }

  /** The NV21 buffer after c chroma pairs: the Y plane, then c V/U pairs,
      then the zero fill of the rest of the ySize+uSize+vSize array. */
  function Nv21(y: seq<Byte>, u: seq<Byte>, v: seq<Byte>, s: nat, c: nat): (nv: seq<Byte>)
    requires PairsReadable(u, v, s, c) && 2 * c <= |u| + |v|
    ensures |nv| == |y| + |u| + |v|
  {
    seq(|y| + |u| + |v|, idx requires 0 <= idx < |y| + |u| + |v| => Nv21At(y, u, v, s, c, idx))
  }

  /** Byte idx of `Nv21`. */
  function Nv21At(y: seq<Byte>, u: seq<Byte>, v: seq<Byte>, s: nat, c: nat, idx: nat): Byte
    requires PairsReadable(u, v, s, c) && 2 * c <= |u| + |v| && idx < |y| + |u| + |v|
  {
    if idx < |y| then y[idx]
    else if idx < |y| + 2 * c then PairByte(u, v, s, idx - |y|, c)
    else 0
  }

  /** The loop finishes without an exception: the stride is positive,
      every V (and U) read is inside its buffer, and every write inside
      the array. */
  predicate Assemblable(y: seq<Byte>, u: seq<Byte>, v: seq<Byte>, stride: int)
  {
    stride > 0 && PairsReadable(u, v, stride, Steps(|u|, stride)) && 2 * Steps(|u|, stride) <= |u| + |v|
  }

  /** The layout of an assembled buffer: its first ySize bytes are the Y
      plane, pair k holds V then U sampled at k*stride, and every byte
      after the last pair keeps its zero fill. */
  lemma Nv21Layout(y: seq<Byte>, u: seq<Byte>, v: seq<Byte>, stride: int)
    requires Assemblable(y, u, v, stride)
    ensures var nv := Nv21(y, u, v, stride, Steps(|u|, stride));
      |nv| == |y| + |u| + |v| &&
      nv[..|y|] == y &&
      (forall k :: 0 <= k < Steps(|u|, stride) ==>
        nv[|y| + 2 * k] == v[k * stride] && nv[|y| + 2 * k + 1] == u[k * stride]) &&
      (forall idx :: |y| + 2 * Steps(|u|, stride) <= idx < |nv| ==> nv[idx] == 0)
  {
    var c := Steps(|u|, stride);
    var nv := Nv21(y, u, v, stride, c);
    forall k | 0 <= k < c
      ensures nv[|y| + 2 * k] == v[k * stride] && nv[|y| + 2 * k + 1] == u[k * stride]
    {
      DivUnique(2 * k, 2, k);
      DivUnique(2 * k + 1, 2, k);
      assert nv[|y| + 2 * k] == PairByte(u, v, stride, 2 * k, c) == v[k * stride];
      assert nv[|y| + 2 * k + 1] == PairByte(u, v, stride, 2 * k + 1, c) == u[k * stride];
    }
  }

  /** For the usual two-byte stride and equal chroma planes of 2n-1 bytes
      (the layout a 2x2-subsampled image commonly reports), the loop runs
      n times and every read and write is in range. */
  lemma StrideTwoPairs(y: seq<Byte>, u: seq<Byte>, v: seq<Byte>, n: nat)
    requires n > 0 && |u| == 2 * n - 1 && |v| == 2 * n - 1
    ensures Steps(|u|, 2) == n
    ensures Assemblable(y, u, v, 2)
  {
    DivUnique(2 * n, 2, n);
    forall k | 0 <= k < n
      ensures k * 2 < |u| && k * 2 < |v|
    {
    }
  }

  /** The Y copy, then the strided V/U loop of `imageReaderListener`, into
      a zero-filled ySize+uSize+vSize array. A non-positive stride, a read
      past a chroma buffer or a write past the array throws (`ok ==
      false`). */
  method AssembleNv21(y: seq<Byte>, u: seq<Byte>, v: seq<Byte>, stride: int) returns (nv21: array<Byte>, ok: bool)
    ensures ok == Assemblable(y, u, v, stride)
    ensures ok ==> nv21[..] == Nv21(y, u, v, stride, Steps(|u|, stride))
  {
    nv21 := new Byte[|y| + |u| + |v|](_ => 0);
    forall idx | 0 <= idx < |y| {
      nv21[idx] := y[idx];
    }
    if stride <= 0 {
      // `step` rejects a non-positive stride
      return nv21, false;
    }
    var pos := |y|;
    var i := 0;
    ghost var k: nat := 0;
    assert nv21[..] == Nv21(y, u, v, stride, 0);
    while i < |u|
      invariant i == k * stride && pos == |y| + 2 * k
      invariant k * stride < |u| + stride && k <= Steps(|u|, stride)
      invariant PairsReadable(u, v, stride, k) && 2 * k <= |u| + |v|
      invariant nv21[..] == Nv21(y, u, v, stride, k)
    {
      StepsCount(|u|, stride, k);
      if |v| <= i || nv21.Length <= pos + 1 {
        // IndexOutOfBoundsException from vBuffer.get or the array store
        StuckPair(y, u, v, stride, k);
        return nv21, false;
      }
      PairStep(y, u, v, stride, k);
      nv21[pos] := v[i];
      nv21[pos + 1] := u[i];
      pos := pos + 2;
      i := i + stride;
      k := k + 1;
    }
    StepsCount(|u|, stride, k);
    return nv21, true;
  }

  /** One pair of the loop: writing V and U of pair k extends the buffer
      after k pairs to the buffer after k+1. */
  lemma PairStep(y: seq<Byte>, u: seq<Byte>, v: seq<Byte>, s: nat, k: nat)
    requires PairsReadable(u, v, s, k) && k * s < |u| && k * s < |v| && 2 * k + 2 <= |u| + |v|
    ensures PairsReadable(u, v, s, k + 1)
    ensures Nv21(y, u, v, s, k)[|y| + 2 * k := v[k * s]][|y| + 2 * k + 1 := u[k * s]] == Nv21(y, u, v, s, k + 1)
  {
    var before := Nv21(y, u, v, s, k);
    var after := Nv21(y, u, v, s, k + 1);
    var got := before[|y| + 2 * k := v[k * s]][|y| + 2 * k + 1 := u[k * s]];
    forall idx | 0 <= idx < |after|
      ensures got[idx] == after[idx]
    {
      if idx == |y| + 2 * k {
        DivUnique(2 * k, 2, k);
        assert after[idx] == PairByte(u, v, s, 2 * k, k + 1) == v[k * s];
      } else if idx == |y| + 2 * k + 1 {
        DivUnique(2 * k + 1, 2, k);
        assert after[idx] == PairByte(u, v, s, 2 * k + 1, k + 1) == u[k * s];
      } else if |y| <= idx < |y| + 2 * k {
        assert after[idx] == PairByte(u, v, s, idx - |y|, k + 1) == PairByte(u, v, s, idx - |y|, k) == before[idx];
      }
    }
  }

  /** An iteration that cannot read V or cannot store U means the whole
      loop cannot finish. */
  lemma StuckPair(y: seq<Byte>, u: seq<Byte>, v: seq<Byte>, s: nat, k: nat)
    requires s > 0 && k < Steps(|u|, s) && k * s < |u|
    requires |v| <= k * s || |y| + |u| + |v| <= |y| + 2 * k + 1
    ensures !Assemblable(y, u, v, s)
  {
  }

  /** A camera image: its three planes' remaining bytes, the U plane's
      pixel stride and the dimensions. Only `close()` changes it. */
  class Image {
    const yPlane: seq<Byte>
    const uPlane: seq<Byte>
    const vPlane: seq<Byte>
    const pixelStride: int
    const width: int
    const height: int
    var closed: bool

    constructor(y: seq<Byte>, u: seq<Byte>, v: seq<Byte>, stride: int, w: int, h: int)
      ensures yPlane == y && uPlane == u && vPlane == v && pixelStride == stride
      ensures width == w && height == h && !closed
    {
      yPlane, uPlane, vPlane, pixelStride := y, u, v, stride;
      width, height := w, h;
      closed := false;
    }

    method Close()
      modifies this
      ensures closed
    {
      closed := true;
    }
  }

  /** What the listener hands to the frame callback. */
  datatype Frame = Frame(data: seq<Byte>, width: int, height: int)

  /** `imageReaderListener`: no image, nothing happens; otherwise the NV21
      buffer is assembled and delivered with the image's dimensions unless
      the assembly throws, and the image is closed on both paths. */
  method OnImageAvailable(image: Image?) returns (delivered: Option<Frame>)
    modifies image
    ensures image != null ==> image.closed
    ensures delivered.Some? <==> image != null && Assemblable(image.yPlane, image.uPlane, image.vPlane, image.pixelStride)
    ensures delivered.Some? ==> (delivered.value ==
      Frame(Nv21(image.yPlane, image.uPlane, image.vPlane, image.pixelStride, Steps(|image.uPlane|, image.pixelStride)),
            image.width, image.height))
  {
    delivered := None;
    if image == null {
      return;
    }
    var nv21, ok := AssembleNv21(image.yPlane, image.uPlane, image.vPlane, image.pixelStride);
    if ok {
      delivered := Some(Frame(nv21[..], image.width, image.height));
    }
    // finally
    image.Close();
  }

  // ---------------------------------------------------------------------
  // Rear camera selection

  const LENS_FACING_FRONT: int := 0
  const LENS_FACING_BACK: int := 1

  /** A camera id with its LENS_FACING characteristic (absent when the
      characteristic is not reported). */
  datatype Lens = Lens(id: string, facing: Option<int>)

  predicate IsBack(cam: Lens)
  {
    cam.facing == Some(LENS_FACING_BACK)
  }

  /** `getBackCameraId`: the first id, in list order, whose lens faces
      back; null when there is none. */
  function BackCameraId(cams: seq<Lens>): (r: Option<string>)
    ensures r.None? <==> forall k :: 0 <= k < |cams| ==> !IsBack(cams[k])
    ensures r.Some? ==> exists k :: (0 <= k < |cams| && IsBack(cams[k]) && cams[k].id == r.value &&
      forall j :: 0 <= j < k ==> !IsBack(cams[j]))
  {
    if |cams| == 0 then None
    else if IsBack(cams[0]) then
      Some(cams[0].id)
    else
      var r := BackCameraId(cams[1..]);
      assert forall k :: 1 <= k < |cams| ==> cams[k] == cams[1..][k - 1];
      if r.Some? then
        var k' :| 0 <= k' < |cams[1..]| && IsBack(cams[1..][k']) && cams[1..][k'].id == r.value &&
          forall j :: 0 <= j < k' ==> !IsBack(cams[1..][j]);
        assert IsBack(cams[k' + 1]) && cams[k' + 1].id == r.value;
        assert forall j :: 0 <= j < k' + 1 ==> !IsBack(cams[j]);
        r
      else
        r
  }

  // ---------------------------------------------------------------------
  // Handle lifecycle

  /** An opaque Camera2 or threading object. */
  datatype Token = Token(id: nat)

  /** The manager's nullable handle fields and the record of released
      tokens: camera objects closed and background threads quit, in
      order. */
  datatype Handles = Handles(
    cameraDevice: Option<Token>,
    captureSession: Option<Token>,
    imageReader: Option<Token>,
    backgroundThread: Option<Token>,
    backgroundHandler: Option<Token>,
    released: seq<Token>)

  /** The tokens of a nullable field: `x?.close()` closes nothing or one. */
  function Held(x: Option<Token>): seq<Token>
  {
    if x.Some? then [x.value] else []
  }

  /** `closeCamera`: closes the session, then the device, then the reader
      (each only if present) and nulls all three. */
  function Closed(s: Handles): Handles
  {
    s.(captureSession := None, cameraDevice := None, imageReader := None,
       released := s.released + Held(s.captureSession) + Held(s.cameraDevice) + Held(s.imageReader))
  }

  /** After closeCamera no camera handle is held, the thread fields are
      untouched, the earlier record is kept as it was, and a token is
      released exactly when it was released before or was one of the
      three camera handles. */
  lemma ClosedReleasesCameraHandles(s: Handles)
    ensures var r := Closed(s);
      r.cameraDevice.None? && r.captureSession.None? && r.imageReader.None? &&
      r.backgroundThread == s.backgroundThread && r.backgroundHandler == s.backgroundHandler
    ensures |s.released| <= |Closed(s).released| && Closed(s).released[..|s.released|] == s.released
    ensures forall t :: t in Closed(s).released <==>
      t in s.released || s.captureSession == Some(t) || s.cameraDevice == Some(t) || s.imageReader == Some(t)
  {
    var r := Closed(s);
    assert r.released[..|s.released|] == s.released;
  }

  /** Closing twice closes nothing more. */
  lemma CloseCameraIdempotent(s: Handles)
    ensures Closed(Closed(s)) == Closed(s)
  {
    assert Closed(s).released + [] + [] + [] == Closed(s).released;
  }

  /** `stopBackgroundThread`: the thread is quit (when there is one)
      before `join`; after `join` returns the thread and handler are
      nulled, and when `join` is interrupted both stay set. */
  function ThreadStopped(s: Handles, interrupted: bool): (r: Handles)
  {
    var quit := s.(released := s.released + Held(s.backgroundThread));
    if interrupted then quit else quit.(backgroundThread := None, backgroundHandler := None)
  }

  /** `stop`: closeCamera, then stopBackgroundThread. */
  function Stopped(s: Handles, interrupted: bool): (r: Handles)
  {
    ThreadStopped(Closed(s), interrupted)
  }

  /** After stop the camera handles are null, and they and the thread are
      released in that order, whether or not `join` was interrupted; the
      thread and handler fields are null unless it was, and then they stay
      as they were. */
  lemma StopNullsHandles(s: Handles, interrupted: bool)
    ensures var r := Stopped(s, interrupted);
      r.cameraDevice.None? && r.captureSession.None? && r.imageReader.None? &&
      r.released == s.released + Held(s.captureSession) + Held(s.cameraDevice) + Held(s.imageReader) +
        Held(s.backgroundThread) &&
      (!interrupted ==> r.backgroundThread.None? && r.backgroundHandler.None?) &&
      (interrupted ==> r.backgroundThread == s.backgroundThread && r.backgroundHandler == s.backgroundHandler)
  {
  }

  /** `startBackgroundThread`: a new thread and its handler replace the old
      ones, which are not quit. */
  function ThreadStarted(s: Handles, thread: Token, handler: Token): (r: Handles)
  {
    s.(backgroundThread := Some(thread), backgroundHandler := Some(handler))
  }

  /** t is a token the manager has never seen: not released and not held. */
  predicate Unused(s: Handles, t: Token)
  {
    t !in s.released && s.cameraDevice != Some(t) && s.captureSession != Some(t) &&
    s.imageReader != Some(t) && s.backgroundThread != Some(t) && s.backgroundHandler != Some(t)
  }

  /** Starting twice is not starting once. A start followed by stop quits
      the thread; two starts followed by stop quit only the second thread,
      and the first is never quit. */
  lemma StartIsNotIdempotent(s: Handles, t1: Token, h1: Token, t2: Token, h2: Token, interrupted: bool)
    requires t1 != t2 && Unused(s, t1)
    ensures t1 in Stopped(ThreadStarted(s, t1, h1), interrupted).released
    ensures var r := Stopped(ThreadStarted(ThreadStarted(s, t1, h1), t2, h2), interrupted);
      t2 in r.released && t1 !in r.released
  {
    var once := Closed(ThreadStarted(s, t1, h1));
    assert Stopped(ThreadStarted(s, t1, h1), interrupted).released == once.released + [t1];
    var twice := Closed(ThreadStarted(ThreadStarted(s, t1, h1), t2, h2));
    ClosedReleasesCameraHandles(ThreadStarted(ThreadStarted(s, t1, h1), t2, h2));
    assert Stopped(ThreadStarted(ThreadStarted(s, t1, h1), t2, h2), interrupted).released == twice.released + [t2];
  }

  /** `onOpened` followed by the session setup: the device is stored and,
      when the preview surface exists, a new image reader replaces the
      field. */
  function Opened(s: Handles, camera: Token, surfaceReady: bool, reader: Token): (r: Handles)
  {
    var d := s.(cameraDevice := Some(camera));
    if surfaceReady then d.(imageReader := Some(reader)) else d
  }

  /** `onDisconnected` and `onError`: the callback's device is closed and
      the field is nulled. */
  function Lost(s: Handles, camera: Token): (r: Handles)
  {
    s.(cameraDevice := None, released := s.released + [camera])
  }

  /** `onConfigured`: the session is stored only while a device is open. */
  function Configured(s: Handles, session: Token): (r: Handles)
  {
    if s.cameraDevice.None? then s else s.(captureSession := Some(session))
  }

  /** A session configured after the device was lost is not stored; one
      configured while the device is open is. */
  lemma ConfiguredNeedsDevice(s: Handles, camera: Token, session: Token)
    ensures Configured(Lost(s, camera), session) == Lost(s, camera)
    ensures s.cameraDevice.Some? ==> Configured(s, session).captureSession == Some(session)
    ensures Lost(s, camera).released == s.released + [camera]
  {
  }

  /** The camera manager's handle fields. */
  class CameraManager {
    var cameraDevice: Option<Token>
    var captureSession: Option<Token>
    var imageReader: Option<Token>
    var backgroundThread: Option<Token>
    var backgroundHandler: Option<Token>
    var released: seq<Token>

    function State(): Handles
      reads this
    {
      Handles(cameraDevice, captureSession, imageReader, backgroundThread, backgroundHandler, released)
    }

    /** All handles start null. */
    constructor()
      ensures State() == Handles(None, None, None, None, None, [])
    {
      cameraDevice, captureSession, imageReader := None, None, None;
      backgroundThread, backgroundHandler := None, None;
      released := [];
    }

    method CloseCamera()
      modifies this
      ensures State() == Closed(old(State()))
    {
      released := released + Held(captureSession);
      captureSession := None;
      released := released + Held(cameraDevice);
      cameraDevice := None;
      released := released + Held(imageReader);
      imageReader := None;
    }

    /** `interrupted` says whether `join` throws InterruptedException. */
    method StopBackgroundThread(interrupted: bool)
      modifies this
      ensures State() == ThreadStopped(old(State()), interrupted)
    {
      released := released + Held(backgroundThread);
      if !interrupted {
        backgroundThread := None;
        backgroundHandler := None;
      }
    }

    method Stop(interrupted: bool)
      modifies this
      ensures State() == Stopped(old(State()), interrupted)
    {
      CloseCamera();
      StopBackgroundThread(interrupted);
    }

    /** `start`: a new background thread, then `openCamera` when the
        preview surface is already available (otherwise the surface
        listener opens it later). `requested` is the camera id handed to
        the system's `openCamera`, if any. */
    method Start(thread: Token, handler: Token, surfaceAvailable: bool, permitted: bool, cams: seq<Lens>)
      returns (requested: Option<string>)
      modifies this
      ensures State() == ThreadStarted(old(State()), thread, handler)
      ensures requested == (if surfaceAvailable && permitted then BackCameraId(cams) else None)
    {
      backgroundThread := Some(thread);
      backgroundHandler := Some(handler);
      requested := None;
      if surfaceAvailable {
        requested := OpenCamera(permitted, cams);
      }
    }

    /** `openCamera`: without the camera permission, or without a rear
        camera, nothing is opened; otherwise the rear camera's id is
        requested. The handle fields change only in the callbacks. */
    method OpenCamera(permitted: bool, cams: seq<Lens>) returns (requested: Option<string>)
      ensures requested == (if permitted then BackCameraId(cams) else None)
    {
      if !permitted {
        return None;
      }
      var cameraId := BackCameraId(cams);
      if cameraId.None? {
        return None;
      }
      return cameraId;
    }

    method OnOpened(camera: Token, surfaceReady: bool, reader: Token)
      modifies this
      ensures State() == Opened(old(State()), camera, surfaceReady, reader)
    {
      cameraDevice := Some(camera);
      if surfaceReady {
        imageReader := Some(reader);
      }
    }

    method OnDisconnected(camera: Token)
      modifies this
      ensures State() == Lost(old(State()), camera)
    {
      released := released + [camera];
      cameraDevice := None;
    }

    method OnError(camera: Token, error: int)
      modifies this
      ensures State() == Lost(old(State()), camera)
    {
      released := released + [camera];
      cameraDevice := None;
    }

    method OnConfigured(session: Token)
      modifies this
      ensures State() == Configured(old(State()), session)
    {
      if cameraDevice.None? {
        return;
      }
      captureSession := Some(session);
    }
  }
}

# Camera frame pipeline, modelled in Dafny

The app captures YUV_420_888 images from the rear camera. The listener in
`CameraManager` packs each image into one NV21 buffer: the Y plane, then
V/U pairs. The buffer goes to a frame processor, which converts it to
interleaved RGB bytes. Depending on the mode, the processor then leaves the
frame as it is (Raw), replaces each pixel by its luma (Grayscale), or
replaces each pixel by a clamped Sobel gradient magnitude (Canny mode). Two
processors exist: a Kotlin one and a C++ one. `MainActivity` packs the
processed RGB bytes into ARGB pixels and keeps a one-second FPS window.
`GLRenderer` keeps the latest frame in a slot and draws it on a full-screen
quad.

The project models each of these pieces.

- `base.dfy` (`Base`): `Option`, `Byte`, and the division facts used for
  row/column arithmetic.
- `codec.dfy` (`Codec`): the NV21 to RGB conversion as one specification
  function, `Nv21ToRgb`. It is built on `ConvertPixel` and on the chroma
  index `ChromaOffset`, `Covers` says exactly when every read byte exists,
  and the loop-state predicates and lemmas below it are shared by both
  processors.
- `filters.dfy` (`Filters`): the post-conversion filters as functions on
  sequences:
  - the luma plane;
  - replication of a plane back to RGB;
  - the Sobel plane, including its zero border;
  - integer square root.

  It also holds the two mode dispatches, Kotlin's `when` and the C++
  `if`/`else if`/`else`.
- `kotlin_processor.dfy` (`KotlinProcessor`): `NativeProcessor.kt` as
  methods over arrays. Each method's loops are proved against the
  functions above. An index out of bounds is modelled as the method's `ok`
  result being false, which `processFrame` turns into `null`.
- `native_processor.dfy` (`NativeCpp`): `native_processor.cpp`, with the
  `isOpenCVInitialized` flag as a field of a `NativeProcessor` class.
- `main_activity.dfy` (`Dispatcher`): the bit layout of the ARGB packing,
  the pixel loop, the FPS window and the spinner-selected mode.
- `camera_manager.dfy` (`Capture`): the NV21 assembly loop, the image
  listener, the rear-camera choice, and the lifecycle of the nullable
  Camera2 and thread handles.
- `gl_renderer.dfy` (`Display`): the frame slot, the draw guard, and the
  vertex layout of the quad.
- `scenarios.dfy` (`Scenarios`): one 2x2 frame followed through all of the
  above.

Bytes are the unsigned values 0..255. This matches `toInt() and 0xFF` in
Kotlin and `uint8_t` in C++. The colour coefficients 1.370705, 0.698001,
0.337633 and 1.732446 are exact decimals, so each channel is an integer
numerator over 10^6, truncated toward zero (`Codec.TruncDiv`). Lemma
`Codec.ConvertPixelIsDecimalFormula` shows that this is the truncation of
the decimal formula evaluated exactly over the reals. Luma is
`(299 r + 587 g + 114 b) / 1000`. The gradient magnitude is the integer
square root, capped at 255. This matches the source's single-precision
`sqrt` exactly: a Sobel sum `gx*gx + gy*gy` is at most 2 * 1020^2 =
2,080,800 < 2^24, so it converts to `float` exactly, and the correctly
rounded float root truncates to the floor square root on that whole range.

Where the code and its design notes disagree, the model follows the code:
- The standard NV21 size `w*h*3/2` is enough only for even dimensions
  (`Codec.CoversEvenDims`). In general the reads stay in bounds exactly
  when the buffer is longer than the index of the last pixel's U byte,
  `w*h + ((h-1)/2)*w + (w-1 rounded down to even) + 1` (`Codec.Covers`).
  - Any odd dimension needs more than `w*h*3/2`.
  - With an odd width and an even height the U byte is exactly one past
    that size (`Codec.OddWidthEvenHeight`).
  - With an odd height the buffer needs at least `w/2` more bytes
    (`Codec.OddHeightNeedsMore`); a 2x3 frame needs 10 bytes and a 3x1
    frame needs 7.
- `start` is not idempotent (`Capture.StartIsNotIdempotent`).
- Neither processor checks the frame length before reading it. The Kotlin
  one relies on the bounds exception; the C++ one reads blindly.
- Kotlin falls back to Raw for an unknown mode, while C++ falls back to
  edge detection (`Filters.DispatchAgreesOnlyOnKnownModes`).

One disagreement goes the other way, and there the model follows the
design: grayscale uses exact luma weights, so `Filters.GrayscaleIdempotent`
holds. The source sums the weights in single precision, and 13 gray levels
lose one per pass; (37, 37, 37) becomes 36 (see "## Left out").

## Model

| member | source | states |
|---|---|---|
| Codec.TruncDiv | app/app/src/main/java/com/example/myapplication/NativeProcessor.kt:135-137 | the quotient is rounded toward zero: for n >= 0, q*d <= n < q*d+d; for n < 0, q*d-d < n <= q*d (what `.toInt()` on a double does) |
| Codec.ConvertPixelIsDecimalFormula | app/app/src/main/cpp/native_processor.cpp:38-45 | each channel is the clamp to [0,255] of the truncation toward zero of y + 1.370705(v-128), y - 0.698001(v-128) - 0.337633(u-128) and y + 1.732446(u-128), evaluated exactly |
| Codec.EvenFloor | app/app/src/main/java/com/example/myapplication/NativeProcessor.kt:129 | `i and 1.inv()` is the largest even column that is not above i |
| Codec.Nv21ToRgb | app/app/src/main/java/com/example/myapplication/NativeProcessor.kt:125-149 | the RGB frame produced by the conversion has exactly 3*w*h bytes |
| Codec.FrameByte | app/app/src/main/java/com/example/myapplication/NativeProcessor.kt:128-146 | byte k of the RGB frame is channel k%3 of the converted pixel k/3, which reads luma k/3 and the V/U pair at the block's chroma offset |
| Codec.CoveredPixel | app/app/src/main/java/com/example/myapplication/NativeProcessor.kt:128-133 | when the buffer covers the frame, every pixel's luma byte and both chroma bytes lie inside the buffer |
| Codec.CoversIffLastReadable | app/app/src/main/java/com/example/myapplication/NativeProcessor.kt:126-133 | for a non-empty frame, all reads are in bounds exactly when the last pixel's reads are |
| Codec.UncoveredCell | app/app/src/main/java/com/example/myapplication/NativeProcessor.kt:132-133 | a pixel whose U byte is past the end of the buffer means the buffer does not cover the frame |
| Codec.CoversEvenDims | app/app/src/main/java/com/example/myapplication/NativeProcessor.kt:129-133 | for even width and height, the reads stay in bounds exactly when the buffer holds at least w*h*3/2 bytes |
| Codec.OddWidthEvenHeight | app/app/src/main/java/com/example/myapplication/NativeProcessor.kt:129-133 | for an odd width and an even height, the reads stay in bounds exactly when the buffer is longer than w*h*3/2: the last U byte is byte w*h*3/2 |
| Codec.OddHeightNeedsMore | app/app/src/main/java/com/example/myapplication/NativeProcessor.kt:129-133 | for an odd height, a buffer that covers the frame is longer than w*h*3/2 and holds at least w*h*3/2 + w/2 bytes |
| Codec.OddWidthReadsPastStandardSize | app/app/src/main/java/com/example/myapplication/NativeProcessor.kt:129-133 | a 3x2 frame of the standard 9 bytes is not enough: the last U byte is byte 9 |
| Codec.StorePixel | app/app/src/main/java/com/example/myapplication/NativeProcessor.kt:143-146 | the three bytes of pixel c become R, G, B, and no other byte changes |
| Codec.ConvertedStep | app/app/src/main/java/com/example/myapplication/NativeProcessor.kt:126-147 | storing pixel c's conversion extends "pixels before c are converted" to c+1 |
| Codec.ConvertedAll | app/app/src/main/java/com/example/myapplication/NativeProcessor.kt:126-148 | once every pixel is written, the buffer covers the frame and the array equals the RGB frame |
| Codec.NeutralChroma | app/app/src/main/cpp/native_processor.cpp:38-45 | V = U = 128 gives R = G = B = Y |
| Codec.NeutralFrameIsGray | app/app/src/main/cpp/native_processor.cpp:28-52 | a frame whose chroma bytes are all 128 converts to R = G = B = Y at every pixel |
| Codec.NeutralPixel | app/app/src/main/cpp/native_processor.cpp:30-45 | a pixel reading a (128, 128) pair is gray with its own luma |
| Codec.BlockSharesChroma | app/app/src/main/cpp/native_processor.cpp:30-35 | two pixels in the same 2x2 block read the same V/U pair, so equal luma gives equal colour |
| Codec.ClampHidesRounding | app/app/src/main/cpp/native_processor.cpp:38-45 | once clamped to [0,255], truncation toward zero and floor division agree |
| Filters.LumaPlane | app/app/src/main/cpp/native_processor.cpp:56-61 | the gray plane has one byte per RGB pixel |
| Filters.Replicate | app/app/src/main/cpp/native_processor.cpp:133-137 | the expanded frame has three bytes per plane byte |
| Filters.ReplicateAt | app/app/src/main/cpp/native_processor.cpp:155-159 | pixel p of the expanded frame is (e, e, e) for plane byte e |
| Filters.LumaOfReplicate | app/app/src/main/cpp/native_processor.cpp:133-137 | the luma of an expanded plane is the plane again (pure luma weights sum to 1000) |
| Filters.LumaOfGray | app/app/src/main/java/com/example/myapplication/NativeProcessor.kt:65-67 | the luma of (c, c, c) is c, with exact weights |
| Filters.GrayscaleIdempotent | app/app/src/main/java/com/example/myapplication/NativeProcessor.kt:63-71 | grayscaling a grayscaled frame changes nothing, with exact weights |
| Filters.Isqrt | app/app/src/main/cpp/native_processor.cpp:80 | r is the floor square root: r*r <= n < (r+1)*(r+1) |
| Filters.IsqrtStep | app/app/src/main/cpp/native_processor.cpp:80 | the floor root of n/4, doubled, is within one step of the floor root of n |
| Filters.Magnitude | app/app/src/main/java/com/example/myapplication/NativeProcessor.kt:110-111 | below 255 the result is the floor square root of gx*gx+gy*gy; 255 means the root is at least 255 |
| Filters.EdgePlane | app/app/src/main/cpp/native_processor.cpp:64-84 | the edge plane has w*h bytes |
| Filters.EdgePlaneAt | app/app/src/main/cpp/native_processor.cpp:69-81 | the byte at (x, y) is the edge value for that cell |
| Filters.EdgePlaneAtIndex | app/app/src/main/cpp/native_processor.cpp:65-81 | byte p is the edge value of column p%w, row p/w, and is 0 off the interior |
| Filters.EdgeBorderIsZero | app/app/src/main/cpp/native_processor.cpp:65-68 | the first and last row and column stay 0 |
| Filters.EdgeSmallPlaneIsZero | app/app/src/main/java/com/example/myapplication/NativeProcessor.kt:89-91 | a plane narrower or shorter than 3 has no interior: every edge byte is 0 |
| Filters.EdgeInteriorIsClampedMagnitude | app/app/src/main/java/com/example/myapplication/NativeProcessor.kt:94-111 | an interior byte e satisfies e*e <= gx*gx+gy*gy < (e+1)*(e+1) below 255, and is 255 only when the root is at least 255 |
| Filters.EdgeOfConstantPlaneIsZero | app/app/src/main/cpp/native_processor.cpp:72-81 | a plane of one constant value has no edges |
| Filters.FlatGradients | app/app/src/main/cpp/native_processor.cpp:72-77 | both Sobel kernels sum to zero on a constant neighbourhood |
| Filters.FlatEdge | app/app/src/main/cpp/native_processor.cpp:72-81 | every cell of a constant plane has edge value 0 |
| Filters.Apply | app/app/src/main/cpp/native_processor.cpp:121-167 | every filter keeps the 3*w*h frame size |
| Filters.KotlinDispatch | app/app/src/main/java/com/example/myapplication/NativeProcessor.kt:40-45 | Grayscale exactly for mode 1, Edges exactly for mode 2, Raw otherwise |
| Filters.NativeDispatch | app/app/src/main/cpp/native_processor.cpp:121-167 | Raw exactly for mode 0, Grayscale exactly for mode 1, edge detection for every other mode |
| Filters.DispatchAgreesOnlyOnKnownModes | app/app/src/main/cpp/native_processor.h:13-17 | the two processors choose the same filter if and only if the mode is 0, 1 or 2; otherwise Kotlin shows Raw and C++ shows edges |
| Filters.ReplicateByPixel | app/app/src/main/java/com/example/myapplication/NativeProcessor.kt:116-120 | writing (e, e, e) at every pixel produces the expanded frame |
| Filters.GrayedStep | app/app/src/main/java/com/example/myapplication/NativeProcessor.kt:63-71 | one in-place luma step reads the pixel before it is overwritten and advances the loop state |
| Filters.GrayedAll | app/app/src/main/java/com/example/myapplication/NativeProcessor.kt:63-72 | after the in-place loop the frame is the expanded luma plane |
| Filters.EdgesDone | app/app/src/main/cpp/native_processor.cpp:67-84 | when the row loop ends, the zeroed array has become the edge plane |
| KotlinProcessor.YuvToRgb | app/app/src/main/java/com/example/myapplication/NativeProcessor.kt:125-149 | completes without an index exception exactly when the buffer covers the frame; then the array is the RGB frame |
| KotlinProcessor.ConvertCell | app/app/src/main/java/com/example/myapplication/NativeProcessor.kt:128-146 | either converts pixel (i, j) or throws because the buffer does not cover the frame, leaving the array unchanged |
| KotlinProcessor.ProcessRaw | app/app/src/main/java/com/example/myapplication/NativeProcessor.kt:52-56 | succeeds exactly when the buffer covers the frame; returns the RGB frame |
| KotlinProcessor.ProcessGrayscale | app/app/src/main/java/com/example/myapplication/NativeProcessor.kt:58-73 | succeeds exactly when the buffer covers the frame; returns the grayscale filter of the RGB frame |
| KotlinProcessor.GrayInPlace | app/app/src/main/java/com/example/myapplication/NativeProcessor.kt:63-71 | the array becomes the expanded luma plane of its old contents |
| KotlinProcessor.ProcessCanny | app/app/src/main/java/com/example/myapplication/NativeProcessor.kt:75-123 | succeeds exactly when the buffer covers the frame; returns the edge filter of the RGB frame |
| KotlinProcessor.GrayPlane | app/app/src/main/java/com/example/myapplication/NativeProcessor.kt:80-86 | a new array holding the luma plane |
| KotlinProcessor.SobelPlane | app/app/src/main/java/com/example/myapplication/NativeProcessor.kt:89-113 | a new array holding the edge plane, with zeros on the border |
| KotlinProcessor.Spread | app/app/src/main/java/com/example/myapplication/NativeProcessor.kt:116-120 | the frame becomes the expansion of the edge plane |
| KotlinProcessor.ProcessFrame | app/app/src/main/java/com/example/myapplication/NativeProcessor.kt:33-50 | non-null exactly when the buffer covers the frame; then 3*w*h bytes, equal to the Kotlin-dispatched filter applied to the RGB frame |
| NativeCpp.YuvToRgb | app/app/src/main/cpp/native_processor.cpp:24-53 | the output array is the RGB frame |
| NativeCpp.ConvertCell | app/app/src/main/cpp/native_processor.cpp:30-50 | converts pixel (i, j) and advances the loop state |
| NativeCpp.ConvertToGrayscale | app/app/src/main/cpp/native_processor.cpp:56-61 | the gray array is the luma plane |
| NativeCpp.DetectEdges | app/app/src/main/cpp/native_processor.cpp:64-84 | the edge array is the edge plane: zero border, clamped magnitude inside |
| NativeCpp.ExpandToRgb | app/app/src/main/cpp/native_processor.cpp:132-137 | a new array holding the expanded plane |
| NativeCpp.GrayscaleBranch | app/app/src/main/cpp/native_processor.cpp:126-144 | the result is the grayscale filter of the RGB frame |
| NativeCpp.EdgesBranch | app/app/src/main/cpp/native_processor.cpp:145-167 | the result is the edge filter of the RGB frame |
| NativeCpp.NativeProcessor.constructor | app/app/src/main/cpp/native_processor.cpp:8 | the flag starts false |
| NativeCpp.NativeProcessor.InitOpenCV | app/app/src/main/cpp/native_processor.cpp:10-21 | sets the flag and reports success |
| NativeCpp.NativeProcessor.ProcessFrame | app/app/src/main/cpp/native_processor.cpp:86-183 | null before initialisation; afterwards 3*w*h bytes, equal to the C++-dispatched filter applied to the RGB frame |
| Dispatcher.OrIsSum | app/src/main/java/com/example/myapplication/MainActivity.kt:155 | the shifted fields do not overlap, so the `or` is the sum 0xFF000000 + r*2^16 + g*2^8 + b, and masking each field gives back its channel |
| Dispatcher.PackIsBits | app/src/main/java/com/example/myapplication/MainActivity.kt:151-155 | the 32-bit result of the shift-and-or, read as an unsigned number, is the packed pixel Pack of the same three channels |
| Dispatcher.Pack | app/src/main/java/com/example/myapplication/MainActivity.kt:155 | the packed pixel is a 32-bit pattern with the top bit set |
| Dispatcher.AsInt | app/src/main/java/com/example/myapplication/MainActivity.kt:155 | the signed Int holding a 32-bit pattern lies in the Int range and agrees with the pattern modulo 2^32 |
| Dispatcher.UnpackPack | app/src/main/java/com/example/myapplication/MainActivity.kt:151-156 | the pixel is opaque (alpha 0xFF), R, G and B come back unchanged, and as an Int it is negative |
| Dispatcher.PackedFrame | app/src/main/java/com/example/myapplication/MainActivity.kt:149-156 | the pixel array has w*h entries |
| Dispatcher.UnpackFrame | app/src/main/java/com/example/myapplication/MainActivity.kt:151-156 | pixel i is opaque and carries bytes 3i, 3i+1, 3i+2 as R, G, B |
| Dispatcher.PackedFrameReadsPrefix | app/src/main/java/com/example/myapplication/MainActivity.kt:151-156 | bytes beyond 3*w*h do not affect the pixels |
| Dispatcher.PackPixels | app/src/main/java/com/example/myapplication/MainActivity.kt:149-156 | the loop finishes exactly when the frame holds 3*w*h bytes, and then fills the array with the packed frame |
| Dispatcher.Tick | app/src/main/java/com/example/myapplication/MainActivity.kt:187-193 | with 1000 ms or more elapsed, the counted frames over the elapsed time give fps*elapsed == frames*1000, and the window restarts at now; otherwise only the count grows |
| Dispatcher.FpsBounds | app/src/main/java/com/example/myapplication/MainActivity.kt:189-191 | a closed window reports a positive rate of at most the number of frames counted in it |
| Dispatcher.QuietRun | app/src/main/java/com/example/myapplication/MainActivity.kt:187-190 | frames inside one second only add to the count |
| Dispatcher.RunSplit | app/src/main/java/com/example/myapplication/MainActivity.kt:187-193 | the window over a run of frames is the window over its halves in order |
| Dispatcher.ThirtyFramesInOneSecond | app/src/main/java/com/example/myapplication/MainActivity.kt:187-193 | thirty frames, the last exactly one second after the window opened, report 30.0 fps and restart the window |
| Dispatcher.SpinnerSelectsModes | app/src/main/java/com/example/myapplication/MainActivity.kt:86-95 | spinner positions 0, 1, 2 select Raw, Grayscale and Canny, and both processors agree on them |
| Dispatcher.MainActivity.constructor | app/src/main/java/com/example/myapplication/MainActivity.kt:43-46 | mode Raw, zero frames, window opened at the start time, 0 fps |
| Dispatcher.MainActivity.OnItemSelected | app/src/main/java/com/example/myapplication/MainActivity.kt:92-95 | the mode becomes the selected position and the FPS window is untouched |
| Dispatcher.MainActivity.ProcessFrame | app/src/main/java/com/example/myapplication/MainActivity.kt:130-208 | a null result shows nothing and ticks the window; a zero dimension or a short frame throws before the tick and leaves the window; otherwise the packed frame is shown and the window ticks |
| Dispatcher.MainActivity.UpdateFps | app/src/main/java/com/example/myapplication/MainActivity.kt:187-193 | the fields move exactly as one tick of the window |
| Capture.StepsCount | app/src/main/java/com/example/myapplication/camera/CameraManager.kt:107 | `0 until n step s` visits k*s exactly for the k with k*s < n |
| Capture.Nv21 | app/src/main/java/com/example/myapplication/camera/CameraManager.kt:101-110 | the buffer is ySize + uSize + vSize bytes long |
| Capture.Nv21Layout | app/src/main/java/com/example/myapplication/camera/CameraManager.kt:101-110 | the buffer starts with the Y plane; pair k is V then U sampled at k*stride; every byte after the pairs stays 0 |
| Capture.StrideTwoPairs | app/src/main/java/com/example/myapplication/camera/CameraManager.kt:105-110 | with pixel stride 2 and chroma planes of 2n-1 bytes, n pairs are written and all fit |
| Capture.AssembleNv21 | app/src/main/java/com/example/myapplication/camera/CameraManager.kt:96-110 | completes exactly when every read and write is in bounds, and then yields the NV21 layout above |
| Capture.StuckPair | app/src/main/java/com/example/myapplication/camera/CameraManager.kt:107-109 | a pair whose V read or whose writes fall out of bounds makes the assembly throw |
| Capture.Image.constructor | app/src/main/java/com/example/myapplication/camera/CameraManager.kt:87-98 | the image holds its planes, stride and size, and is open |
| Capture.Image.Close | app/src/main/java/com/example/myapplication/camera/CameraManager.kt:118 | the image is closed |
| Capture.OnImageAvailable | app/src/main/java/com/example/myapplication/camera/CameraManager.kt:82-120 | an acquired image is always closed; a frame is delivered exactly when the assembly succeeds, and it is the NV21 buffer with the image's width and height |
| Capture.BackCameraId | app/src/main/java/com/example/myapplication/camera/CameraManager.kt:197-202 | null exactly when no camera faces back; otherwise the id of the first back-facing camera in list order |
| Capture.ClosedReleasesCameraHandles | app/src/main/java/com/example/myapplication/camera/CameraManager.kt:184-195 | after closeCamera no camera handle is held and the thread fields are untouched; the earlier release record is kept as a prefix, and a token is released exactly when it was released before or was the session, device or reader |
| Capture.CloseCameraIdempotent | app/src/main/java/com/example/myapplication/camera/CameraManager.kt:184-195 | closing twice closes nothing more than closing once |
| Capture.StopNullsHandles | app/src/main/java/com/example/myapplication/camera/CameraManager.kt:139-161 | after stop the camera handles are null; session, device, reader and background thread are released in that order, the thread being quit even when the join is interrupted; the thread and handler fields are null unless the join was interrupted, in which case they are kept |
| Capture.StartIsNotIdempotent | app/src/main/java/com/example/myapplication/camera/CameraManager.kt:144-150 | a start followed by stop quits the started thread; two starts followed by stop quit the second thread and never the first, which leaks |
| Capture.ConfiguredNeedsDevice | app/src/main/java/com/example/myapplication/camera/CameraManager.kt:236-239 | a session configured after the device was lost is dropped; one configured while the device is open is stored |
| Capture.CameraManager.constructor | app/src/main/java/com/example/myapplication/camera/CameraManager.kt:31-35 | every handle starts null and nothing has been closed |
| Capture.CameraManager.CloseCamera | app/src/main/java/com/example/myapplication/camera/CameraManager.kt:184-195 | the three camera handles are closed in session, device, reader order and nulled, as `ClosedReleasesCameraHandles` characterises |
| Capture.CameraManager.StopBackgroundThread | app/src/main/java/com/example/myapplication/camera/CameraManager.kt:152-161 | the thread, if any, is quit; thread and handler become null unless the join is interrupted |
| Capture.CameraManager.Stop | app/src/main/java/com/example/myapplication/camera/CameraManager.kt:139-142 | closeCamera followed by stopBackgroundThread: the new state is the one `StopNullsHandles` describes |
| Capture.CameraManager.Start | app/src/main/java/com/example/myapplication/camera/CameraManager.kt:122-137 | a new thread and handler are installed; the rear camera is requested only when the surface is available and permission is granted |
| Capture.CameraManager.OpenCamera | app/src/main/java/com/example/myapplication/camera/CameraManager.kt:163-182 | without permission nothing is requested; otherwise the first back-facing camera is requested, or nothing when there is none |
| Capture.CameraManager.OnOpened | app/src/main/java/com/example/myapplication/camera/CameraManager.kt:62-66 | the device is stored and, when the preview surface exists, a new image reader replaces the old one |
| Capture.CameraManager.OnDisconnected | app/src/main/java/com/example/myapplication/camera/CameraManager.kt:68-72 | the callback's device is closed and the field is nulled |
| Capture.CameraManager.OnError | app/src/main/java/com/example/myapplication/camera/CameraManager.kt:74-78 | the callback's device is closed and the field is nulled, whatever the error code |
| Capture.CameraManager.OnConfigured | app/src/main/java/com/example/myapplication/camera/CameraManager.kt:236-239 | the session is stored only while a device is open |
| Display.AttribsInQuad | app/app/src/main/java/com/example/myapplication/gl/GLRenderer.kt:144-150 | the 64-byte buffer is four 16-byte strides; position reads floats 0-1 and texcoord floats 2-3 of each vertex, all inside the buffer |
| Display.TexCoordFlipsRows | app/app/src/main/java/com/example/myapplication/gl/GLRenderer.kt:41-47 | u is x mapped to [0,1] and v is y mapped to [0,1] upside down, so the first byte row is drawn at the top |
| Display.FanMatchesIndices | app/app/src/main/java/com/example/myapplication/gl/GLRenderer.kt:49-52 | the triangle fan of four vertices draws exactly the two triangles the index list declares |
| Display.LastWriteWins | app/app/src/main/java/com/example/myapplication/gl/GLRenderer.kt:166-172 | two updates leave what the second update alone would |
| Display.ZeroDimensionNeverDrawn | app/app/src/main/java/com/example/myapplication/gl/GLRenderer.kt:115-117 | after an update the slot is drawable exactly when neither dimension is zero |
| Display.GLRenderer.constructor | app/app/src/main/java/com/example/myapplication/gl/GLRenderer.kt:55-66 | all names zero and an empty slot, so nothing is drawn before the first update |
| Display.GLRenderer.OnSurfaceCreated | app/app/src/main/java/com/example/myapplication/gl/GLRenderer.kt:78-103 | the program is stored; when it is 0 nothing else changes, otherwise the locations and texture are stored; the slot is untouched |
| Display.GLRenderer.UpdateTexture | app/app/src/main/java/com/example/myapplication/gl/GLRenderer.kt:166-172 | only the slot changes |
| Display.GLRenderer.OnDrawFrame | app/app/src/main/java/com/example/myapplication/gl/GLRenderer.kt:110-161 | draws exactly when a frame is held and neither dimension is zero; the draw uploads the held frame with its dimensions and points both attributes inside the quad |
| Scenarios.WarmPixel | app/app/src/main/java/com/example/myapplication/NativeProcessor.kt:135-141 | Y=100, U=140, V=120 converts to (89, 101, 120) |
| Scenarios.WarmFrameOf | app/app/src/main/java/com/example/myapplication/NativeProcessor.kt:125-149 | a 2x2 frame with one V/U pair converts to four copies of that pixel |
| Scenarios.SmallFrameEdgesAreZero | app/app/src/main/cpp/native_processor.cpp:145-167 | edge detection on a 2x2 frame gives four black pixels |
| Scenarios.WarmLuma | app/app/src/main/cpp/native_processor.cpp:59 | the luma of (89, 101, 120) is 99 |
| Scenarios.ModeSevenDiverges | app/app/src/main/cpp/native_processor.cpp:145 | for mode 7 the Kotlin processor shows the colour frame and the C++ one shows black edges |
| Scenarios.ShortBufferIsNull | app/app/src/main/java/com/example/myapplication/NativeProcessor.kt:46-49 | a frame missing its last U byte makes Kotlin's processFrame return null |
| Scenarios.WarmArgb | app/src/main/java/com/example/myapplication/MainActivity.kt:155 | (89, 101, 120) packs to 0xFF596578, held in an Int as -10918536 |

## Left out

- Negative widths and heights. Width and height are `nat`. Kotlin would
  throw `NegativeArraySizeException` or return an empty frame, and C++
  would allocate with a negative size.
- 32-bit overflow of `width * height` and of the index arithmetic. Integers
  are unbounded, because frames are far below 2^31 bytes.
- Floating-point rounding of the colour formula. The model evaluates it
  as exact decimals. The source's double evaluation agrees with this after
  the clamp to [0,255] for every combination of 8-bit Y, U and V.
- Filters.Luma: uses the exact weights 0.299/0.587/0.114 as `/1000`, not
  the single-precision sum `0.299f*r + 0.587f*g + 0.114f*b`
  (NativeProcessor.kt:65-67, native_processor.cpp:57). For a gray pixel
  (c, c, c) that float sum lands just below c and truncates to c - 1 for
  the 13 levels c = 37, 61, 74, 93, 111, 122, 148, 186, 215, 222, 233, 244
  and 253; for example (37, 37, 37) becomes 36. The source's grayscale is
  therefore not idempotent.
- Filters.LumaOfGray: holds for the exact-weight model only; in the
  source the 13 gray levels above map to c - 1.
- Filters.LumaOfReplicate: holds for the exact-weight model only, for the
  same 13 levels.
- Filters.GrayscaleIdempotent: holds for the exact-weight model only; in
  the source a second grayscale pass lowers those 13 levels by one.
- NativeCpp.NativeProcessor.ProcessFrame: requires that the buffer covers
  the frame once initialised, because the C++ code reads without checking
  `frameSize` and an out-of-bounds read has no defined result.
- The C++ `GetByteArrayElements` null check (line 105), the JNI array
  creation and `delete[]`, and the `std::exception` catch. These are JNI
  and allocator failures that cannot be expressed over values.
- `processFrameToTexture` in both processors. The Kotlin one is empty and
  the C++ one only logs.
- Logging, timing (`startTime`, `processingTime`) and the UI text. The
  clock is the `now` parameter of the FPS model.
- Dispatcher.MainActivity.ProcessFrame:
  - It takes the processor's result as a parameter, not calling a
    processor. `MainActivity` can be bound to either processor, and each
    is specified on its own.
  - The coroutine launch, the Bitmap, its rotation and the `ImageView` are
    left out. A zero dimension is modelled as the exception
    `Bitmap.createBitmap` throws.
- Concurrency: the coroutine dispatchers, the background handler thread
  and the `textureLock` monitor. Every method is modelled as one atomic
  step.
- Display.GLRenderer.OnDrawFrame:
  - The GL calls are opaque. The draw is the record of what it binds,
    uploads and points at.
  - Shader compilation (`createProgram`, `loadShader`), texture
    parameters, `glViewport` and `checkGLError` are not modelled.
  - The default `GL_UNPACK_ALIGNMENT` of 4, which pads RGB rows whose
    width is not a multiple of 4, is not modelled. The precondition
    requires 3*w*h bytes.
- `updateTexture` keeps a reference to the caller's `ByteArray`, so a later
  write by the caller would show through. The slot holds a value copy
  instead.
- Camera2 session configuration:
  - `createCaptureRequest`, `setRepeatingRequest`,
    `onConfigureFailed`, `SessionConfiguration` and the API-level branch
    are not modelled.
  - The `CameraAccessException` catches are left out.
  - The session and reader creation are reduced to storing a fresh
    token.
- `acquireLatestImage` dropping older images. The listener is given the
  acquired image or null.
- Capture.OnImageAvailable: the plane buffers are modelled by their
  remaining bytes. The row stride, and planes whose buffers alias one
  another, are not modelled.
- The OpenCV variant `app/src/main/cpp/native_processor.cpp`, the JNI
  binding `app/src/main/java/com/example/myapplication/NativeProcessor.kt`,
  the GL texture uploader in C++ and Kotlin, and the web viewer
  `app/web/src/app.ts` are not part of this model.

/** The display side (GLRenderer): one slot holding the latest RGB frame
    and its dimensions, written by `updateTexture` and read under a guard
    by `onDrawFrame`, and the constant full-screen quad the draw reads its
    vertex attributes from. Every GL call is an opaque effect: a draw is
    described by the record of what it uploads and how it points the
    vertex attributes into the quad. */
module Display {
  import opened Base

  // ---------------------------------------------------------------------
  // The quad

  /** Four vertices of four floats: clip-space x, y, then texture u, v
      (top-left, bottom-left, bottom-right, top-right). */
  const VERTICES: seq<real> := [
    -1.0,  1.0,   0.0, 0.0,
    -1.0, -1.0,   0.0, 1.0,
     1.0, -1.0,   1.0, 1.0,
     1.0,  1.0,   1.0, 0.0]

  /** The two triangles of the quad as an index list (declared, never drawn). */
  const INDICES: seq<int> := [0, 1, 2, 0, 2, 3]

  const FLOAT_BYTES: nat := 4
  const VERTEX_COUNT: nat := 4
  /** Byte stride and float offsets given for each vertex attribute. */
  const STRIDE_BYTES: nat := 16
  const POSITION_OFFSET: nat := 0
  const TEXCOORD_OFFSET: nat := 2
  const COMPONENTS: nat := 2

  /** One vertex-attribute binding: the attribute location, the floats
      per vertex, the byte stride and the float offset of the buffer. */
  datatype Attrib = Attrib(handle: int, size: nat, strideBytes: nat, offset: nat)

  /** The float that attribute `a` reads as component c of vertex k. */
  function AttribFloat(a: Attrib, k: nat, c: nat): nat
    requires a.strideBytes % FLOAT_BYTES == 0
  {
    a.offset + k * (a.strideBytes / FLOAT_BYTES) + c
  }

  /** The attribute reads every component of every drawn vertex inside
      VERTICES and inside that vertex's own four floats. */
  predicate InQuad(a: Attrib)
  {
    a.strideBytes == STRIDE_BYTES &&
    forall k, c :: 0 <= k < VERTEX_COUNT && 0 <= c < a.size ==>
      AttribFloat(a, k, c) < |VERTICES| && AttribFloat(a, k, c) / 4 == k
  }

  function Position(handle: int): Attrib { Attrib(handle, COMPONENTS, STRIDE_BYTES, POSITION_OFFSET) }
  function TexCoord(handle: int): Attrib { Attrib(handle, COMPONENTS, STRIDE_BYTES, TEXCOORD_OFFSET) }

  /** The quad holds exactly VERTEX_COUNT strides of floats (the direct
      buffer is |VERTICES| * 4 = 64 bytes), and both attribute bindings
      stay inside it: position reads floats 0 and 1 of each vertex,
      texcoord floats 2 and 3. */
  lemma {:induction false} AttribsInQuad(ph: int, th: int)
    ensures |VERTICES| * FLOAT_BYTES == VERTEX_COUNT * STRIDE_BYTES
    ensures InQuad(Position(ph)) && InQuad(TexCoord(th))
    ensures forall k :: 0 <= k < VERTEX_COUNT ==>
      AttribFloat(Position(ph), k, 0) == 4 * k && AttribFloat(TexCoord(th), k, 0) == 4 * k + 2
  {
    forall k, c | 0 <= k < VERTEX_COUNT && 0 <= c < COMPONENTS
      ensures AttribFloat(Position(ph), k, c) / 4 == k && AttribFloat(TexCoord(th), k, c) / 4 == k
    {
      DivUnique(4 * k + c, 4, k);
      DivUnique(4 * k + 2 + c, 4, k);
    }
  }

  /** Texture coordinates are the clip-space positions mapped to [0,1]
      with v flipped: the first byte row of the frame lands at the top of
      the screen. */
  lemma TexCoordFlipsRows(k: nat)
    requires k < VERTEX_COUNT
    ensures VERTICES[4 * k + 2] == (VERTICES[4 * k] + 1.0) / 2.0
    ensures VERTICES[4 * k + 3] == (1.0 - VERTICES[4 * k + 1]) / 2.0
  {
  }

  /** Drawing the four vertices as a triangle fan gives the triangles
      (0, k, k+1), which are the ones INDICES lists. */
  lemma FanMatchesIndices()
    ensures forall t :: 0 <= t < VERTEX_COUNT - 2 ==>
      INDICES[3 * t] == 0 && INDICES[3 * t + 1] == t + 1 && INDICES[3 * t + 2] == t + 2
    ensures |INDICES| == 3 * (VERTEX_COUNT - 2)
  {
  }

  // ---------------------------------------------------------------------
  // The frame slot

  /** `frameData`, `frameWidth`, `frameHeight`. */
  datatype Slot = Slot(data: Option<seq<Byte>>, width: int, height: int)

  /** The guard of `onDrawFrame`: a frame is present and neither dimension
      is zero. */
  predicate Drawable(s: Slot)
  {
    s.data.Some? && s.width != 0 && s.height != 0
  }

  /** `updateTexture`: the three slot fields are replaced together. */
  function Updated(s: Slot, data: seq<Byte>, w: int, h: int): Slot
  {
    Slot(Some(data), w, h)
  }

  /** The slot keeps nothing of earlier frames: the last update wins. */
  lemma LastWriteWins(s: Slot, d1: seq<Byte>, w1: int, h1: int, d2: seq<Byte>, w2: int, h2: int)
    ensures Updated(Updated(s, d1, w1, h1), d2, w2, h2) == Updated(s, d2, w2, h2)
  {
  }

  /** A frame with a zero dimension is never drawn, whatever came before;
      any other frame is. */
  lemma ZeroDimensionNeverDrawn(s: Slot, data: seq<Byte>, w: int, h: int)
    ensures Drawable(Updated(s, data, w, h)) <==> w != 0 && h != 0
  {
  }

  /** What one draw does: the program and texture it binds, the RGB bytes
      and dimensions it uploads, the two attribute bindings and the vertex
      count of the triangle fan. */
  datatype Draw = Draw(program: int, textureId: int, data: seq<Byte>, width: int, height: int,
                       position: Attrib, texCoord: Attrib, vertices: nat)

  /** The renderer's fields. The quad is the constant above. */
  class GLRenderer {
    var program: int
    var textureId: int
    var positionHandle: int
    var texCoordHandle: int
    var textureHandle: int
    var frameWidth: int
    var frameHeight: int
    var frameData: Option<seq<Byte>>

    function FrameSlot(): Slot
      reads this
    {
      Slot(frameData, frameWidth, frameHeight)
    }

    /** The GL names the draw uses. */
    function Names(): (int, int, int, int, int)
      reads this
    {
      (program, textureId, positionHandle, texCoordHandle, textureHandle)
    }

    /** Every field starts at zero and the slot is empty, so nothing is
        drawn before the first update. */
    constructor()
      ensures FrameSlot() == Slot(None, 0, 0) && !Drawable(FrameSlot())
      ensures Names() == (0, 0, 0, 0, 0)
    {
      program, textureId := 0, 0;
      positionHandle, texCoordHandle, textureHandle := 0, 0, 0;
      frameWidth, frameHeight, frameData := 0, 0, None;
    }

    /** `onSurfaceCreated` with the names GL returned: the program; when it
        is not 0, the attribute and uniform locations and the texture. */
    method OnSurfaceCreated(prog: int, posLoc: int, texLoc: int, texUniform: int, tex: int)
      modifies this
      ensures FrameSlot() == old(FrameSlot())
      ensures prog == 0 ==> Names() == old(Names()).(0 := 0)
      ensures prog != 0 ==> Names() == (prog, tex, posLoc, texLoc, texUniform)
    {
      program := prog;
      if program == 0 {
        return;
      }
      positionHandle := posLoc;
      texCoordHandle := texLoc;
      textureHandle := texUniform;
      textureId := tex;
    }

    /** `updateTexture`: only the slot changes. */
    method UpdateTexture(data: seq<Byte>, width: int, height: int)
      modifies this
      ensures FrameSlot() == Updated(old(FrameSlot()), data, width, height)
      ensures Names() == old(Names())
    {
      frameData := Some(data);
      frameWidth := width;
      frameHeight := height;
    }

    /** `onDrawFrame`: nothing when the guard fails; otherwise the held
        frame is uploaded as a width×height RGB texture and the quad is
        drawn. Nothing is written, so drawing again without an update
        repeats the same draw. The upload reads 3*width*height bytes,
        which nothing checks: that is this method's precondition. */
    method OnDrawFrame() returns (draw: Option<Draw>)
      requires Drawable(FrameSlot()) && frameWidth > 0 && frameHeight > 0 ==>
        3 * (frameWidth * frameHeight) <= |frameData.value|
      ensures draw.Some? <==> Drawable(FrameSlot())
      ensures draw.Some? ==> draw.value == Draw(program, textureId, frameData.value, frameWidth, frameHeight,
        Position(positionHandle), TexCoord(texCoordHandle), VERTEX_COUNT)
      ensures draw.Some? ==> InQuad(draw.value.position) && InQuad(draw.value.texCoord)
    {
      if frameData.None? || frameWidth == 0 || frameHeight == 0 {
        return None;
      }
      var position := Attrib(positionHandle, 2, 16, 0);
      var texCoord := Attrib(texCoordHandle, 2, 16, 2);
      AttribsInQuad(positionHandle, texCoordHandle);
      draw := Some(Draw(program, textureId, frameData.value, frameWidth, frameHeight, position, texCoord, 4));
    }
  }
}

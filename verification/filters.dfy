/** The filter bank: luma reduction, the 3x3 Sobel gradient with a zero
    border, and the mode dispatch that picks one of them. Both processors
    compute these functions; they differ only in how a mode number selects
    a filter. */
module Filters {
  import opened Base
  import opened Codec

  /** Processing modes, numbered as in both processors. */
  const MODE_RAW: int := 0
  const MODE_GRAYSCALE: int := 1
  const MODE_CANNY: int := 2

  /** `0.299*R + 0.587*G + 0.114*B`, truncated; the weights are taken in
      thousandths and the sum is never negative, so truncation is a floor. */
  function Luma(r: Byte, g: Byte, b: Byte): Byte
  {
    (299 * r + 587 * g + 114 * b) / 1000
  }

  /** One luma byte per pixel of an interleaved RGB frame. */
  function LumaPlane(rgb: seq<Byte>): (gray: seq<Byte>)
    requires |rgb| % 3 == 0
    ensures |gray| == |rgb| / 3
  {
    seq(|rgb| / 3, i requires 0 <= i < |rgb| / 3 => Luma(rgb[3 * i], rgb[3 * i + 1], rgb[3 * i + 2]))
  }

  /** A single-channel plane written into R, G and B of every pixel. */
  function Replicate(plane: seq<Byte>): (rgb: seq<Byte>)
    ensures |rgb| == 3 * |plane|
  {
    seq(3 * |plane|, k requires 0 <= k < 3 * |plane| => plane[k / 3])
  }

  /** Integer floor square root. */
  function Isqrt(n: nat): (r: nat)
    ensures r * r <= n < (r + 1) * (r + 1)
  {
    if n < 4 then
      (if n == 0 then 0 else 1)
    else
      var t := Isqrt(n / 4);
      IsqrtStep(n, t);
      if (2 * t + 1) * (2 * t + 1) <= n then 2 * t + 1 else 2 * t
  }

  /** The square root of n lies between twice the square root of n / 4 and
      two more than that. */
  lemma IsqrtStep(n: nat, t: nat)
    requires t * t <= n / 4 < (t + 1) * (t + 1)
    ensures (2 * t) * (2 * t) <= n < (2 * t + 2) * (2 * t + 2)
  {
    assert (2 * t) * (2 * t) == 4 * (t * t);
    assert (2 * t + 2) * (2 * t + 2) == 4 * ((t + 1) * (t + 1));
    assert 4 * (n / 4) <= n < 4 * (n / 4) + 4;
  }

  /** `min(255, (int)sqrt(gx*gx + gy*gy))`: the floor square root of the
      squared gradient, clamped to 255. */
  function Magnitude(gx: int, gy: int): (m: Byte)
    ensures m < 255 ==> m * m <= gx * gx + gy * gy < (m + 1) * (m + 1)
    ensures m == 255 ==> 255 * 255 <= gx * gx + gy * gy
  {
    var r := Isqrt(gx * gx + gy * gy);
    if r < 255 then r else 255
  }

  /** Luma of cell (x, y) of a w-by-h row-major plane. */
  function Cell(g: seq<Byte>, w: nat, h: nat, x: nat, y: nat): Byte
    requires |g| == w * h && x < w && y < h
  {
    CellBound(w, h, x, y);
    g[y * w + x]
  }

  /** A cell with all eight neighbours inside the plane. */
  predicate Interior(w: nat, h: nat, x: nat, y: nat)
  {
    1 <= x < w - 1 && 1 <= y < h - 1
  }

  /** Horizontal gradient, kernel [-1 0 1; -2 0 2; -1 0 1]. */
  function SobelX(g: seq<Byte>, w: nat, h: nat, x: nat, y: nat): int
    requires |g| == w * h && Interior(w, h, x, y)
  {
    var left: int := Cell(g, w, h, x - 1, y - 1) + 2 * Cell(g, w, h, x - 1, y) + Cell(g, w, h, x - 1, y + 1);
    var right: int := Cell(g, w, h, x + 1, y - 1) + 2 * Cell(g, w, h, x + 1, y) + Cell(g, w, h, x + 1, y + 1);
    right - left
  }

  /** Vertical gradient, kernel [-1 -2 -1; 0 0 0; 1 2 1]. */
  function SobelY(g: seq<Byte>, w: nat, h: nat, x: nat, y: nat): int
    requires |g| == w * h && Interior(w, h, x, y)
  {
    var above: int := Cell(g, w, h, x - 1, y - 1) + 2 * Cell(g, w, h, x, y - 1) + Cell(g, w, h, x + 1, y - 1);
    var below: int := Cell(g, w, h, x - 1, y + 1) + 2 * Cell(g, w, h, x, y + 1) + Cell(g, w, h, x + 1, y + 1);
    below - above
  }

  /** Edge value of cell (x, y): the gradient magnitude inside, 0 on the border. */
  function EdgeAt(g: seq<Byte>, w: nat, h: nat, x: nat, y: nat): Byte
    requires |g| == w * h && x < w && y < h
  {
    if Interior(w, h, x, y) then Magnitude(SobelX(g, w, h, x, y), SobelY(g, w, h, x, y)) else 0
  }

  /** The edge plane of a luma plane, in row-major order. */
  function EdgePlane(g: seq<Byte>, w: nat, h: nat): (e: seq<Byte>)
    requires |g| == w * h
    ensures |e| == w * h
  {
    seq(w * h, p requires 0 <= p < w * h =>
      RowBound(w, h, p);
      EdgeAt(g, w, h, p % w, p / w))
  }

  /** The three filters a mode number can select. */
  datatype Filter = Raw | Grayscale | Edges

  /** The output frame of a filter applied to a converted RGB frame. */
  function Apply(f: Filter, rgb: seq<Byte>, w: nat, h: nat): (out: seq<Byte>)
    requires |rgb| == 3 * (w * h)
    ensures |out| == 3 * (w * h)
  {
    match f
    case Raw => rgb
    case Grayscale => Replicate(LumaPlane(rgb))
    case Edges => Replicate(EdgePlane(LumaPlane(rgb), w, h))
  }

  /** Kotlin's `when (mode)`: 1 and 2 select their filters, every other
      number, 0 included, selects Raw. */
  function KotlinDispatch(mode: int): (f: Filter)
    ensures f == Grayscale <==> mode == MODE_GRAYSCALE
    ensures f == Edges <==> mode == MODE_CANNY
  {
    if mode == MODE_RAW then Raw
    else if mode == MODE_GRAYSCALE then Grayscale
    else if mode == MODE_CANNY then Edges
    else Raw
  }

  /** The C++ if/else chain: 0 and 1 select their filters, every other
      number, 2 included, selects Edges. */
  function NativeDispatch(mode: int): (f: Filter)
    ensures f == Raw <==> mode == MODE_RAW
    ensures f == Grayscale <==> mode == MODE_GRAYSCALE
  {
    if mode == MODE_RAW then Raw
    else if mode == MODE_GRAYSCALE then Grayscale
    else Edges
  }

  /** The processors agree on the three numbered modes and disagree on every
      other number: Kotlin falls back to Raw, C++ runs edge detection. */
  lemma DispatchAgreesOnlyOnKnownModes(mode: int)
    ensures KotlinDispatch(mode) == NativeDispatch(mode) <==> MODE_RAW <= mode <= MODE_CANNY
    ensures !(MODE_RAW <= mode <= MODE_CANNY) ==> KotlinDispatch(mode) == Raw && NativeDispatch(mode) == Edges
  {
  }

  /** The luma weights sum to one, so a gray pixel keeps its value. */
  lemma LumaOfGray(c: Byte)
    ensures Luma(c, c, c) == c
  {
    assert 299 * c + 587 * c + 114 * c == 1000 * c;
  }

  /** Bytes 3p, 3p+1 and 3p+2 of a replicated plane all hold plane[p]. */
  lemma ReplicateAt(plane: seq<Byte>, p: nat)
    requires p < |plane|
    ensures 3 * p + 2 < |Replicate(plane)|
    ensures Replicate(plane)[3 * p] == plane[p]
    ensures Replicate(plane)[3 * p + 1] == plane[p]
    ensures Replicate(plane)[3 * p + 2] == plane[p]
  {
    assert (3 * p) / 3 == p && (3 * p + 1) / 3 == p && (3 * p + 2) / 3 == p;
  }

  /** Reducing a replicated plane to luma gives the plane back. */
  lemma LumaOfReplicate(plane: seq<Byte>)
    ensures LumaPlane(Replicate(plane)) == plane
  {
    var rgb := Replicate(plane);
    assert |rgb| / 3 == |plane|;
    forall i | 0 <= i < |plane|
      ensures LumaPlane(rgb)[i] == plane[i]
    {
      ReplicateAt(plane, i);
      LumaOfGray(plane[i]);
    }
  }

  /** A sequence whose three bytes at every pixel q hold plane[q] is the
      replicated plane. */
  lemma ReplicateByPixel(out: seq<Byte>, plane: seq<Byte>)
    requires |out| == 3 * |plane|
    requires forall q :: 0 <= q < |plane| ==>
               out[3 * q] == plane[q] && out[3 * q + 1] == plane[q] && out[3 * q + 2] == plane[q]
    ensures out == Replicate(plane)
  {
    forall k | 0 <= k < |out|
      ensures out[k] == Replicate(plane)[k]
    {
      var q := k / 3;
      assert k == 3 * q || k == 3 * q + 1 || k == 3 * q + 2;
    }
  }

  /** The array of the in-place grayscale loop once the pixels before i have
      been overwritten with their luma; later bytes are still the original. */
  ghost function GrayedBefore(rgb: seq<Byte>, i: nat): (out: seq<Byte>)
    requires |rgb| % 3 == 0
    ensures |out| == |rgb|
  {
    seq(|rgb|, k requires 0 <= k < |rgb| => if k < 3 * i then LumaPlane(rgb)[k / 3] else rgb[k])
  }

  /** One step of the in-place grayscale loop: pixel i still holds its
      original bytes, and writing its luma to all three advances the state. */
  lemma GrayedStep(rgb: seq<Byte>, i: nat)
    requires |rgb| % 3 == 0 && i < |rgb| / 3
    ensures 3 * i + 2 < |rgb|
    ensures GrayedBefore(rgb, i)[3 * i] == rgb[3 * i]
    ensures GrayedBefore(rgb, i)[3 * i + 1] == rgb[3 * i + 1]
    ensures GrayedBefore(rgb, i)[3 * i + 2] == rgb[3 * i + 2]
    ensures var l := Luma(rgb[3 * i], rgb[3 * i + 1], rgb[3 * i + 2]);
            SetPixel(GrayedBefore(rgb, i), i, Rgb(l, l, l)) == GrayedBefore(rgb, i + 1)
  {
    var l := Luma(rgb[3 * i], rgb[3 * i + 1], rgb[3 * i + 2]);
    var next := SetPixel(GrayedBefore(rgb, i), i, Rgb(l, l, l));
    forall k | 0 <= k < |rgb|
      ensures next[k] == GrayedBefore(rgb, i + 1)[k]
    {
      if 3 * i <= k < 3 * i + 3 {
        assert k / 3 == i;
        assert LumaPlane(rgb)[i] == l;
      } else {
        assert next[k] == GrayedBefore(rgb, i)[k];
      }
    }
  }

  /** Once every pixel has been visited, the array is the replicated luma plane. */
  lemma GrayedAll(rgb: seq<Byte>)
    requires |rgb| % 3 == 0
    ensures GrayedBefore(rgb, |rgb| / 3) == Replicate(LumaPlane(rgb))
  {
    assert 3 * (|rgb| / 3) == |rgb|;
  }

  /** Grayscale applied twice equals grayscale applied once. */
  lemma GrayscaleIdempotent(rgb: seq<Byte>, w: nat, h: nat)
    requires |rgb| == 3 * (w * h)
    ensures Apply(Grayscale, Apply(Grayscale, rgb, w, h), w, h) == Apply(Grayscale, rgb, w, h)
  {
    LumaOfReplicate(LumaPlane(rgb));
  }

  /** The edge value of cell (x, y) sits at index y*w + x of the edge plane. */
  lemma EdgePlaneAt(g: seq<Byte>, w: nat, h: nat, x: nat, y: nat)
    requires |g| == w * h && x < w && y < h
    ensures y * w + x < w * h && EdgePlane(g, w, h)[y * w + x] == EdgeAt(g, w, h, x, y)
  {
    CellBound(w, h, x, y);
    RowCol(w, x, y);
  }

  /** Index p of the edge plane holds the edge value of its cell (p % w, p / w);
      a cell off the interior holds 0. */
  lemma EdgePlaneAtIndex(g: seq<Byte>, w: nat, h: nat, p: nat)
    requires |g| == w * h && p < w * h
    ensures 0 < w && p / w < h && p % w < w
    ensures EdgePlane(g, w, h)[p] == EdgeAt(g, w, h, p % w, p / w)
    ensures !Interior(w, h, p % w, p / w) ==> EdgePlane(g, w, h)[p] == 0
  {
    RowBound(w, h, p);
  }

  /** The Sobel loop's output once it has visited every cell before index c:
      those cells hold the edge plane, the others still hold the zero fill. */
  ghost function EdgesBefore(g: seq<Byte>, w: nat, h: nat, c: int): (e: seq<Byte>)
    requires |g| == w * h
    ensures |e| == w * h
  {
    seq(w * h, p requires 0 <= p < w * h => if p < c then EdgePlane(g, w, h)[p] else 0)
  }

  /** Before the first interior row, nothing but the zero fill is expected. */
  lemma EdgesStart(g: seq<Byte>, w: nat, h: nat)
    requires |g| == w * h
    ensures EdgesBefore(g, w, h, w) == seq(w * h, _ => 0)
  {
    forall p | 0 <= p < w * h && p < w
      ensures EdgePlane(g, w, h)[p] == 0
    {
      DivUnique(p, w, 0);
      EdgePlaneAtIndex(g, w, h, p);
    }
  }

  /** Passing over a cell whose edge value is 0 (a border cell) changes nothing. */
  lemma EdgesSkip(g: seq<Byte>, w: nat, h: nat, c: int)
    requires |g| == w * h
    requires 0 <= c < w * h ==> EdgePlane(g, w, h)[c] == 0
    ensures EdgesBefore(g, w, h, c + 1) == EdgesBefore(g, w, h, c)
  {
  }

  /** Writing a cell's edge value advances the loop state by one cell. */
  lemma EdgesWrite(g: seq<Byte>, w: nat, h: nat, c: nat)
    requires |g| == w * h && c < w * h
    ensures EdgesBefore(g, w, h, c)[c := EdgePlane(g, w, h)[c]] == EdgesBefore(g, w, h, c + 1)
  {
  }

  /** The Sobel loop at the start of interior row y: the first cell is
      border, so passing over it changes nothing. */
  lemma EdgesRowStart(g: seq<Byte>, w: nat, h: nat, y: nat)
    requires |g| == w * h && 1 <= y < h - 1
    ensures EdgesBefore(g, w, h, y * w + 1) == EdgesBefore(g, w, h, y * w)
  {
    if 0 < w {
      EdgeBorderIsZero(g, w, h, 0, y);
    }
    EdgesSkip(g, w, h, y * w);
  }

  /** The Sobel loop at interior cell (x, y): storing the clamped magnitude
      of the two gradients advances the loop state by one cell. */
  lemma EdgesCell(g: seq<Byte>, w: nat, h: nat, x: nat, y: nat)
    requires |g| == w * h && Interior(w, h, x, y)
    ensures y * w + x < w * h
    ensures EdgesBefore(g, w, h, y * w + x)[y * w + x := Magnitude(SobelX(g, w, h, x, y), SobelY(g, w, h, x, y))]
            == EdgesBefore(g, w, h, y * w + x + 1)
  {
    EdgePlaneAt(g, w, h, x, y);
    EdgesWrite(g, w, h, y * w + x);
  }

  /** The Sobel loop at the end of interior row y, column x = max(1, w - 1):
      the last cell is border, so the state is that of the next row's start. */
  lemma EdgesRowEnd(g: seq<Byte>, w: nat, h: nat, x: nat, y: nat)
    requires |g| == w * h && 1 <= y < h - 1
    requires x == if w <= 1 then 1 else w - 1
    ensures EdgesBefore(g, w, h, y * w + x) == EdgesBefore(g, w, h, (y + 1) * w)
  {
    assert y * w + w == (y + 1) * w;
    if 1 < w {
      EdgeBorderIsZero(g, w, h, w - 1, y);
      EdgesSkip(g, w, h, y * w + x);
    } else if w == 0 {
      assert EdgesBefore(g, w, h, y * w + x) == EdgesBefore(g, w, h, (y + 1) * w);
    }
  }

  /** Once every row up to the last has been visited, the rest of the plane
      is border, so the loop output is the whole edge plane. */
  lemma EdgesDone(g: seq<Byte>, w: nat, h: nat, y: nat)
    requires |g| == w * h
    requires 1 <= y && (h <= 1 || h - 1 <= y)
    ensures EdgesBefore(g, w, h, y * w) == EdgePlane(g, w, h)
  {
    forall p | 0 <= p < w * h
      ensures EdgesBefore(g, w, h, y * w)[p] == EdgePlane(g, w, h)[p]
    {
      RowBound(w, h, p);
      BeforeRow(w, p, y);
      EdgePlaneAtIndex(g, w, h, p);
    }
  }

  /** Border cells (first or last row or column) of the edge plane are 0. */
  lemma EdgeBorderIsZero(g: seq<Byte>, w: nat, h: nat, x: nat, y: nat)
    requires |g| == w * h && x < w && y < h
    requires x == 0 || x == w - 1 || y == 0 || y == h - 1
    ensures y * w + x < w * h && EdgePlane(g, w, h)[y * w + x] == 0
  {
    EdgePlaneAt(g, w, h, x, y);
  }

  /** A plane narrower or lower than 3 has no interior: its edge plane is all 0. */
  lemma EdgeSmallPlaneIsZero(g: seq<Byte>, w: nat, h: nat)
    requires |g| == w * h && (w < 3 || h < 3)
    ensures EdgePlane(g, w, h) == seq(w * h, _ => 0)
  {
    forall p | 0 <= p < w * h
      ensures EdgePlane(g, w, h)[p] == 0
    {
      RowBound(w, h, p);
    }
  }

  /** An interior cell holds the floor square root of gx^2 + gy^2, clamped
      to 255, for the two Sobel gradients at that cell. */
  lemma EdgeInteriorIsClampedMagnitude(g: seq<Byte>, w: nat, h: nat, x: nat, y: nat)
    requires |g| == w * h && Interior(w, h, x, y)
    ensures y * w + x < w * h
    ensures var e := EdgePlane(g, w, h)[y * w + x];
            var s := SobelX(g, w, h, x, y) * SobelX(g, w, h, x, y) + SobelY(g, w, h, x, y) * SobelY(g, w, h, x, y);
            (e < 255 ==> e * e <= s < (e + 1) * (e + 1)) && (e == 255 ==> 255 * 255 <= s)
  {
    EdgePlaneAt(g, w, h, x, y);
  }

  /** Every value of the plane is c. */
  predicate Flat(g: seq<Byte>, c: Byte)
  {
    forall k :: 0 <= k < |g| ==> g[k] == c
  }

  /** A flat luma plane has no edges anywhere. */
  lemma EdgeOfConstantPlaneIsZero(g: seq<Byte>, w: nat, h: nat, c: Byte)
    requires |g| == w * h && Flat(g, c)
    ensures EdgePlane(g, w, h) == seq(w * h, _ => 0)
  {
    forall p | 0 <= p < w * h
      ensures EdgePlane(g, w, h)[p] == 0
    {
      var x, y := Coords(w, h, p);
      EdgePlaneAt(g, w, h, x, y);
      FlatEdge(g, w, h, x, y, c);
    }
  }

  /** The edge value of any cell of a flat plane is 0. */
  lemma FlatEdge(g: seq<Byte>, w: nat, h: nat, x: nat, y: nat, c: Byte)
    requires |g| == w * h && x < w && y < h
    requires Flat(g, c)
    ensures EdgeAt(g, w, h, x, y) == 0
  {
    if Interior(w, h, x, y) {
      FlatGradients(g, w, h, x, y, c);
    }
  }

  /** On a flat plane both Sobel gradients vanish. */
  lemma FlatGradients(g: seq<Byte>, w: nat, h: nat, x: nat, y: nat, c: Byte)
    requires |g| == w * h && Interior(w, h, x, y)
    requires Flat(g, c)
    ensures SobelX(g, w, h, x, y) == 0 && SobelY(g, w, h, x, y) == 0
  {
    forall dx: nat, dy: nat | x - 1 <= dx <= x + 1 && y - 1 <= dy <= y + 1
      ensures Cell(g, w, h, dx, dy) == c
    {
      CellBound(w, h, dx, dy);
    }
  }
}

/** Shared vocabulary of the frame pipeline: optional values, unsigned bytes,
    and the row-major index arithmetic that every pixel loop relies on. */
module Base {

  /** A value that may be absent: Kotlin's nullable `T?`, C++'s `nullptr`. */
  datatype Option<+T> = None | Some(value: T)

  /** An unsigned byte as the pixel code reads it (`b.toInt() and 0xFF`, `uint8_t`). */
  type Byte = x: int | 0 <= x < 256

  /** Multiplying both sides of an inequality by a non-negative factor. */
  lemma MulLe(x: int, y: int, d: int)
    requires x <= y && 0 <= d
    ensures x * d <= y * d
  {
    assert y * d - x * d == (y - x) * d;
  }

  /** Euclidean division is unique: any q with q*d <= a < q*d + d is a / d. */
  lemma DivUnique(a: int, d: int, q: int)
    requires 0 < d && q * d <= a < q * d + d
    ensures a / d == q && a % d == a - q * d
  {
    var q0 := a / d;
    if q0 < q {
      MulLe(q0 + 1, q, d);
    } else if q < q0 {
      MulLe(q + 1, q0, d);
    }
  }

  /** Column and row of the row-major index j*w + i. */
  lemma RowCol(w: nat, i: nat, j: nat)
    requires i < w
    ensures (j * w + i) / w == j && (j * w + i) % w == i
  {
    DivUnique(j * w + i, w, j);
  }

  /** A cell (x, y) of a w-by-h plane has a row-major index inside the plane. */
  lemma CellBound(w: nat, h: nat, x: nat, y: nat)
    requires x < w && y < h
    ensures y * w + x < w * h
  {
    MulLe(y + 1, h, w);
  }

  /** The row and column of an index inside a w-by-h plane are a row and a
      column of the plane. */
  lemma RowBound(w: nat, h: nat, p: nat)
    requires p < w * h
    ensures 0 < w && p / w < h && p % w < w
  {
    if h <= p / w {
      MulLe(h, p / w, w);
    }
  }

  /** The column x and row y of an index inside a w-by-h plane. */
  lemma Coords(w: nat, h: nat, p: nat) returns (x: nat, y: nat)
    requires p < w * h
    ensures x < w && y < h && p == y * w + x
    ensures x == p % w && y == p / w
  {
    RowBound(w, h, p);
    x, y := p % w, p / w;
  }

  /** An index lies before row y exactly when its row is above y. */
  lemma BeforeRow(w: nat, p: nat, y: nat)
    requires 0 < w
    ensures p < y * w <==> p / w < y
  {
    if p / w < y {
      MulLe(p / w + 1, y, w);
    } else {
      MulLe(y, p / w, w);
    }
  }
}

/**
 * Cell arithmetic of the local costmap: the row-major layout of the flattened
 * occupancy array, and the conversion of a point in costmap-local
 * coordinates into a (row, column) cell with its bounds test.
 */
module CostmapCells {
  import opened TopoNavTypes

  /** A grid cell: row i (from y) and column j (from x); may lie outside the grid. */
  datatype Cell = Cell(i: int, j: int)

  /** Euclidean division is determined by any quotient/remainder pair with the remainder in [0, w). */
  lemma DivModUnique(k: int, w: int, q: int, r: int)
    requires w > 0 && 0 <= r < w && k == q * w + r
    ensures k / w == q && k % w == r
  {
    var q', r' := k / w, k % w;
    assert (q - q') * w == r' - r;
    MulLessCancel(q - q', 1, w);
    MulLessCancel(q' - q, 1, w);
  }

  lemma MulLessCancel(a: int, b: int, w: int)
    requires w > 0 && a * w < b * w
    ensures a < b
  {
    assert (b - a) * w > 0;
  }

  /**
   * The position of matrix entry (i, j) in the flattened data of a grid
   * `width` cells wide and `height` cells high: always inside the array, and
   * the row and column are recovered from it by division and remainder.
   */
  function RowMajorIndex(i: nat, j: nat, width: nat, height: nat): (k: nat)
    requires i < height && j < width
    ensures k < width * height
    ensures k / width == i && k % width == j
  {
    assert i * width + j < width * height by {
      assert i * width <= (height - 1) * width;
    }
    DivModUnique(i * width + j, width, i, j);
    i * width + j
  }

  /** Every position of the flattened data is the row-major index of exactly one in-range entry. */
  lemma RowMajorCovers(k: nat, width: nat, height: nat)
    requires k < width * height
    ensures width > 0 && k / width < height
    ensures RowMajorIndex(k / width, k % width, width, height) == k
  {
    assert width > 0;
    var q := k / width;
    assert q * width <= k < height * width;
    MulLessCancel(q, height, width);
  }

  /** mapPoint2costmapCell: floor of the local coordinates divided by the resolution. */
  function MapPoint2CostmapCell(p: Point, resolution: real): (c: Cell)
    requires resolution > 0.0
    ensures c.i as real * resolution <= p.y < (c.i + 1) as real * resolution
    ensures c.j as real * resolution <= p.x < (c.j + 1) as real * resolution
  {
    FloorScaled(p.y, resolution);
    FloorScaled(p.x, resolution);
    Cell((p.y / resolution).Floor, (p.x / resolution).Floor)
  }

  lemma FloorScaled(v: real, res: real)
    requires res > 0.0
    ensures (v / res).Floor as real * res <= v < ((v / res).Floor + 1) as real * res
  {
    var f := (v / res).Floor;
    var g := f + 1;
    assert f as real <= v / res < g as real;
    calc {
      v;
    ==
      (v / res) * res;
    <
      { ScaleLess(v / res, g as real, res); }
      g as real * res;
    }
    calc {
      f as real * res;
    <=
      { ScaleLeq(f as real, v / res, res); }
      (v / res) * res;
    ==
      v;
    }
  }

  lemma ScaleLess(x: real, y: real, res: real)
    requires res > 0.0 && x < y
    ensures x * res < y * res
  {
    assert (y - x) * res > 0.0;
  }

  lemma ScaleLeq(x: real, y: real, res: real)
    requires res > 0.0 && x <= y
    ensures x * res <= y * res
  {
    assert (y - x) * res >= 0.0;
  }

  /** The cell found is the only cell whose extent contains the point. */
  lemma {:induction false} CellIsUnique(p: Point, resolution: real, c: Cell)
    requires resolution > 0.0
    requires c.i as real * resolution <= p.y < (c.i + 1) as real * resolution
    requires c.j as real * resolution <= p.x < (c.j + 1) as real * resolution
    ensures c == MapPoint2CostmapCell(p, resolution)
  {
    var d := MapPoint2CostmapCell(p, resolution);
    FloorUnique(p.y, resolution, c.i, d.i);
    FloorUnique(p.x, resolution, c.j, d.j);
  }

  lemma FloorUnique(v: real, res: real, a: int, b: int)
    requires res > 0.0
    requires a as real * res <= v < (a + 1) as real * res
    requires b as real * res <= v < (b + 1) as real * res
    ensures a == b
  {
    if a < b {
      ScaleLeqInt(a + 1, b, res);
    } else if b < a {
      ScaleLeqInt(b + 1, a, res);
    }
  }

  lemma ScaleLeqInt(x: int, y: int, res: real)
    requires res > 0.0 && x <= y
    ensures x as real * res <= y as real * res
  {
    ScaleLeq(x as real, y as real, res);
  }

  /**
   * The bounds test of mapPoint2costmapCell. A cell that passes it is a real
   * entry of the matrix: its row-major position lies inside the flattened data.
   */
  predicate OutOfBounds(c: Cell, width: nat, height: nat): (r: bool)
    ensures !r ==> 0 <= c.i < height && 0 <= c.j < width && RowMajorIndex(c.i as nat, c.j as nat, width, height) < width * height
    ensures !r ==> width * height > 0
  {
    c.i < 0 || c.j < 0 || c.i >= height || c.j >= width
  }

  /**
   * directNavigable reads the matrix at the cell of the point whatever the
   * bounds test said. Until a costmap message with a sequence number above 0
   * arrives the snapshot is the 0 x 0 matrix, and a message numbered 0 is
   * never copied; with such a message in hand (resolution above 0) the cell
   * read lies outside the matrix for every point.
   */
  lemma UncheckedReadOutsideEmptyMatrix(p: Point, resolution: real)
    requires resolution > 0.0
    ensures OutOfBounds(MapPoint2CostmapCell(p, resolution), 0, 0)
  {
  }

  /**
   * A point lands on a cell inside the grid exactly when it lies inside the
   * rectangle the grid covers, [0, width*res) x [0, height*res).
   */
  lemma InBoundsIffInsideGrid(p: Point, resolution: real, width: nat, height: nat)
    requires resolution > 0.0
    ensures !OutOfBounds(MapPoint2CostmapCell(p, resolution), width, height)
        <==> 0.0 <= p.x < width as real * resolution && 0.0 <= p.y < height as real * resolution
  {
    var c := MapPoint2CostmapCell(p, resolution);
    ScaledBounds(p.y, resolution, c.i, height);
    ScaledBounds(p.x, resolution, c.j, width);
  }

  lemma ScaledBounds(v: real, res: real, a: int, n: nat)
    requires res > 0.0
    requires a as real * res <= v < (a + 1) as real * res
    ensures 0 <= a <==> 0.0 <= v
    ensures a < n <==> v < n as real * res
  {
    assert 0 as real * res == 0.0;
    if 0 <= a {
      ScaleLeqInt(0, a, res);
    } else {
      ScaleLeqInt(a + 1, 0, res);
    }
    if a < n {
      ScaleLeqInt(a + 1, n, res);
    } else {
      ScaleLeqInt(n, a, res);
    }
  }


}

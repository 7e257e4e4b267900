/** The bitmap that the renderers paint, and the sequential renderer. */
module Bitmaps {
  import opened Bands

  type Color = bv32

  /** Colour of column `i`, row `j`. */
  type Pixels = (int, int) -> Color

  type Rows = seq<seq<Color>>

  function RowOf(width: nat, j: int, f: Pixels): (row: seq<Color>)
    ensures |row| == width && forall i :: 0 <= i < width ==> row[i] == f(i, j)
  {
    seq(width, i => f(i, j))
  }

  /** The whole image painted with `f`. */
  function Sequential(width: nat, height: nat, f: Pixels): (rows: Rows)
    ensures |rows| == height && forall j :: 0 <= j < height ==> rows[j] == RowOf(width, j, f)
  {
    seq(height, j => RowOf(width, j, f))
  }

  // ---- Coordinates ----

  lemma TimesAtLeast(d: int, n: int)
    requires n > 0
    ensures (d > 0 ==> d * n >= n) && (d < 0 ==> d * n <= -n)
  {
  }

  lemma ModUnique(x: int, n: int, q: int, r: int)
    requires n > 0 && x == q * n + r && 0 <= r < n
    ensures x % n == r
  {
    var d := q - x / n;
    assert x == (x / n) * n + x % n;
    assert d * n == x % n - r;
    TimesAtLeast(d, n);
  }

  /** Stepping by a whole width does not change the remainder. */
  lemma ModStep(x: int, n: int)
    requires n > 0
    ensures (x - n) % n == x % n && (x + n) % n == x % n
  {
    var q, r := x / n, x % n;
    assert (q - 1) * n == q * n - n && (q + 1) * n == q * n + n;
    ModUnique(x - n, n, q - 1, r);
    ModUnique(x + n, n, q + 1, r);
  }

  /** Row `j` of a row-major buffer lies inside it, before the next one. */
  lemma RowFits(j: nat, width: nat, height: nat)
    requires j < height
    ensures 0 <= j * width <= (j + 1) * width <= height * width
    ensures (j + 1) * width == j * width + width
  {
    MulOrder(j + 1, height, width);
  }

  /** Different rows do not overlap. */
  lemma RowsApart(j: nat, k: nat, width: nat)
    requires j != k
    ensures (j + 1) * width <= k * width || (k + 1) * width <= j * width
  {
    if j < k { MulOrder(j + 1, k, width); } else { MulOrder(k + 1, j, width); }
  }

  /** Row `j` of a row-major buffer. */
  function RowAt(data: seq<Color>, width: nat, height: nat, j: nat): (row: seq<Color>)
    requires |data| == height * width && j < height
    ensures |row| == width
  {
    RowFits(j, width, height);
    data[j * width..(j + 1) * width]
  }

  function RowsOf(data: seq<Color>, width: nat, height: nat): (rows: Rows)
    requires |data| == height * width
    ensures |rows| == height
  {
    seq(height, j requires 0 <= j < height => RowAt(data, width, height, j))
  }

  /** Writing one cell of the buffer writes one pixel of the image. */
  lemma RowsUpdate(data: seq<Color>, width: nat, height: nat, x: nat, y: nat, v: Color)
    requires |data| == height * width && x < width && y < height
    ensures 0 <= y * width + x < |data|
    ensures RowsOf(data, width, height)[y][x] == data[y * width + x]
    ensures RowsOf(data[y * width + x := v], width, height)
            == var rows := RowsOf(data, width, height); rows[y := rows[y][x := v]]
  {
    RowFits(y, width, height);
    var next := data[y * width + x := v];
    var rows := RowsOf(data, width, height);
    forall j | 0 <= j < height ensures RowsOf(next, width, height)[j] == rows[y := rows[y][x := v]][j] {
      RowFits(j, width, height);
      if j != y { RowsApart(j, y, width); }
    }
  }

  class Bitmap {
    const width: nat
    const height: nat
    const data: array<Color>

    ghost predicate Valid() {
      data.Length == height * width
    }

    ghost function Image(): (rows: Rows)
      reads data
      requires Valid()
      ensures |rows| == height && forall j :: 0 <= j < height ==> |rows[j]| == width
    {
      RowsOf(data[..], width, height)
    }

    constructor (w: nat, h: nat)
      ensures width == w && height == h && Valid() && fresh(data)
    {
      width, height := w, h;
      data := new Color[h * w];
    }

    method Reset(value: Color)
      requires Valid()
      modifies data
      ensures forall k :: 0 <= k < data.Length ==> data[k] == value
    {
      var i := 0;
      while i < data.Length
        invariant 0 <= i <= data.Length
        invariant forall k :: 0 <= k < i ==> data[k] == value
      {
        data[i] := value;
        i := i + 1;
      }
    }

    /** Takes both coordinates modulo the size, whatever their sign. */
    method Wrap(x: int, y: int) returns (x': nat, y': nat)
      requires width > 0 && height > 0
      ensures x' == x % width && y' == y % height
    {
      var i, j := x, y;
      while i >= width
        invariant i % width == x % width
      {
        ModStep(i, width);
        i := i - width;
      }
      while j >= height
        invariant j % height == y % height
      {
        ModStep(j, height);
        j := j - height;
      }
      while i < 0
        invariant i < width && i % width == x % width
        decreases -i
      {
        ModStep(i, width);
        i := i + width;
      }
      while j < 0
        invariant j < height && j % height == y % height
        decreases -j
      {
        ModStep(j, height);
        j := j + height;
      }
      ModUnique(i, width, 0, i);
      ModUnique(j, height, 0, j);
      return i, j;
    }

    method Get(x: int, y: int) returns (c: Color)
      requires Valid() && width > 0 && height > 0
      ensures c == Image()[y % height][x % width]
    {
      var i, j := Wrap(x, y);
      RowsUpdate(data[..], width, height, i, j, 0);
      return data[j * width + i];
    }

    method Set(x: int, y: int, value: Color)
      requires Valid() && width > 0 && height > 0
      modifies data
      ensures Image() == old(Image())[y % height := old(Image())[y % height][x % width := value]]
    {
      var i, j := Wrap(x, y);
      ghost var was := data[..];
      RowsUpdate(was, width, height, i, j, value);
      data[j * width + i] := value;
      assert data[..] == was[j * width + i := value];
    }
  }

  // ---- Painting ----

  method PaintRow(bm: Bitmap, j: nat, f: Pixels)
    requires bm.Valid() && j < bm.height
    modifies bm.data
    ensures bm.Image() == old(bm.Image())[j := RowOf(bm.width, j, f)]
  {
    hide RowsOf;
    ghost var was := bm.Image();
    var i := 0;
    while i < bm.width
      invariant 0 <= i <= bm.width
      invariant forall y :: 0 <= y < bm.height && y != j ==> bm.Image()[y] == was[y]
      invariant forall x :: 0 <= x < i ==> bm.Image()[j][x] == f(x, j)
    {
      ModUnique(i, bm.width, 0, i);
      ModUnique(j, bm.height, 0, j);
      bm.Set(i, j, f(i, j));
      i := i + 1;
    }
    assert bm.Image()[j] == RowOf(bm.width, j, f);
  }

  /** What a worker does with its band, pixel by pixel from the left. */
  method PaintRows(bm: Bitmap, start: int, end: int, f: Pixels)
    requires bm.Valid() && 0 <= start <= end <= bm.height
    modifies bm.data
    ensures forall j :: 0 <= j < bm.height ==>
              bm.Image()[j] == if start <= j < end then RowOf(bm.width, j, f) else old(bm.Image())[j]
  {
    hide RowsOf, RowOf;
    var j := start;
    while j < end
      invariant start <= j <= end
      invariant forall y :: 0 <= y < bm.height ==>
                  bm.Image()[y] == if start <= y < j then RowOf(bm.width, y, f) else old(bm.Image())[y]
    {
      PaintRow(bm, j, f);
      j := j + 1;
    }
  }

  /** The sequential renderer. */
  method ComputeImage(bm: Bitmap, f: Pixels)
    requires bm.Valid()
    modifies bm.data
    ensures bm.Image() == Sequential(bm.width, bm.height, f)
  {
    PaintRows(bm, 0, bm.height, f);
  }
}

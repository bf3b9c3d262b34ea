/** The two rasterisers of a QR symbol: one walks the pixels, the other the modules. */
module QrRaster {
  import opened Arithmetic

  /** A symbol of size * size modules, and how it is drawn. */
  datatype Drawing = Drawing(size: nat, dark: (int, int) -> bool, scale: int, border: int) {
    /** The side of the image in pixels. */
    function Side(): int {
      size * scale + 2 * border
    }

    ghost predicate Valid() {
      scale >= 1 && border >= 0
    }
  }

  const BLACK := 0
  const WHITE := 255

  /** The grey value of the pixel in column px and row py: black exactly when the module it
      lies in exists and is dark. */
  function Pixel(d: Drawing, px: int, py: int): int
    requires d.Valid()
  {
    var x, y := px - d.border, py - d.border;
    if 0 <= x && 0 <= y && x / d.scale < d.size && y / d.scale < d.size && d.dark(x / d.scale, y / d.scale)
    then BLACK else WHITE
  }

  function PixelRow(d: Drawing, py: int): (row: seq<int>)
    requires d.Valid()
  {
    seq(d.Side(), px => Pixel(d, px, py))
  }

  /** The place (px, py) lies in the square of some dark module. */
  ghost predicate DarkAt(d: Drawing, px: int, py: int) {
    exists x, y :: 0 <= x < d.size && 0 <= y < d.size && d.dark(x, y)
                   && d.border + x * d.scale <= px < d.border + x * d.scale + d.scale
                   && d.border + y * d.scale <= py < d.border + y * d.scale + d.scale
  }

  /** A place lies in the span of one module only. */
  lemma SpanOf(d: Drawing, q: int, p: int)
    requires d.Valid()
    ensures d.border + q * d.scale <= p < d.border + q * d.scale + d.scale <==> q == (p - d.border) / d.scale
  {
    var a := p - d.border;
    DivisionSign(a, d.scale);
    assert a == a / d.scale * d.scale + a % d.scale;
    if d.border + q * d.scale <= p < d.border + q * d.scale + d.scale {
      DivModUnique(q, d.scale, a - q * d.scale);
    }
  }

  /** A pixel is 0 in the square of a dark module, and 255 everywhere else. */
  lemma PixelExactly(d: Drawing, px: int, py: int)
    requires d.Valid()
    ensures Pixel(d, px, py) == if DarkAt(d, px, py) then 0 else 255
  {
    var x, y := (px - d.border) / d.scale, (py - d.border) / d.scale;
    DivisionSign(px - d.border, d.scale);
    DivisionSign(py - d.border, d.scale);
    SpanOf(d, x, px);
    SpanOf(d, y, py);
    if DarkAt(d, px, py) {
      var x', y' :| 0 <= x' < d.size && 0 <= y' < d.size && d.dark(x', y')
                    && d.border + x' * d.scale <= px < d.border + x' * d.scale + d.scale
                    && d.border + y' * d.scale <= py < d.border + y' * d.scale + d.scale;
      SpanOf(d, x', px);
      SpanOf(d, y', py);
    }
  }

  /** A square image of grey values, row by row: 0 on the dark modules, 255 elsewhere. */
  ghost predicate Drawn(d: Drawing, rows: seq<seq<int>>) {
    && |rows| == d.size * d.scale + 2 * d.border
    && (forall py | 0 <= py < |rows| :: |rows[py]| == d.size * d.scale + 2 * d.border)
    && forall py, px | 0 <= py < |rows| && 0 <= px < |rows[py]| :: rows[py][px] == if DarkAt(d, px, py) then 0 else 255
  }

  // ---------------------------------------------------------------- pixel by pixel

  ghost predicate IsPng(d: Drawing, rows: seq<seq<int>>)
    requires d.Valid()
  {
    |rows| == d.Side() && forall py | 0 <= py < |rows| :: rows[py] == PixelRow(d, py)
  }

  /** Rows of pixels show 0 on the dark modules and 255 elsewhere. */
  lemma RowsAreDrawn(d: Drawing, rows: seq<seq<int>>)
    requires d.Valid() && |rows| == d.Side() && forall py | 0 <= py < |rows| :: rows[py] == PixelRow(d, py)
    ensures IsPng(d, rows) && Drawn(d, rows)
  {
    forall py, px | 0 <= py < |rows| && 0 <= px < |rows[py]|
      ensures rows[py][px] == if DarkAt(d, px, py) then 0 else 255
    {
      PixelExactly(d, px, py);
    }
  }

  method DrawRow(d: Drawing, y: int, row: array<int>)
    requires d.Valid() && row.Length == d.Side()
    modifies row
    ensures row[..] == PixelRow(d, y + d.border)
  {
    for i := 0 to row.Length
      invariant forall px | 0 <= px < i :: row[px] == WHITE
    {
      row[i] := WHITE;
    }
    var x := -d.border;
    var end := d.size * d.scale + d.border;
    assert row.Length == end + d.border;
    hide Drawing.Side;
    while x < end
      invariant -d.border <= x <= end
      invariant forall px | 0 <= px < x + d.border :: row[px] == Pixel(d, px, y + d.border)
      invariant forall px | x + d.border <= px < row.Length :: row[px] == WHITE
    {
      if y >= 0 && y / d.scale < d.size && x >= 0 && x / d.scale < d.size {
        if d.dark(x / d.scale, y / d.scale) {
          row[x + d.border] := BLACK;
        }
      }
      x := x + 1;
    }
  }

  /** The rows handed to the PNG writer; one row buffer is refilled for each. */
  method WritePng(d: Drawing) returns (rows: seq<seq<int>>)
    requires d.Valid()
    ensures IsPng(d, rows) && Drawn(d, rows)
  {
    var imageSize := d.Side();
    var row := new int[imageSize];
    rows := [];
    var y := -d.border;
    hide PixelRow, Drawn, IsPng;
    while y < d.size * d.scale + d.border
      invariant -d.border <= y <= d.size * d.scale + d.border
      invariant |rows| == y + d.border
      invariant forall py | 0 <= py < |rows| :: rows[py] == PixelRow(d, py)
    {
      DrawRow(d, y, row);
      rows := rows + [row[..]];
      y := y + 1;
    }
    RowsAreDrawn(d, rows);
  }

  // ---------------------------------------------------------------- cells

  /** One pixel of the symbol, named by its module and its place in the module. */
  datatype Cell = Cell(y: int, x: int, dy: int, dx: int)

  ghost predicate InSymbol(d: Drawing, c: Cell) {
    0 <= c.y < d.size && 0 <= c.x < d.size && 0 <= c.dy < d.scale && 0 <= c.dx < d.scale
  }

  /** The index that the module-driven loops compute. */
  function IndexOf(d: Drawing, c: Cell): int {
    (c.y * d.scale + c.dy + d.border) * d.Side() + (c.x * d.scale + c.dx + d.border)
  }

  /** The cell drawn at an index of the flat image. */
  function CellAt(d: Drawing, k: int): Cell
    requires d.Valid() && d.Side() > 0
  {
    var x, y := k % d.Side() - d.border, k / d.Side() - d.border;
    Cell(y / d.scale, x / d.scale, y % d.scale, x % d.scale)
  }

  lemma ProductBound(q: int, n: int, m: int)
    requires 0 <= q < m && 0 < n
    ensures 0 <= q * n && q * n + n <= m * n
  {
    assert (q + 1) * n <= m * n;
  }

  /** A coordinate of the symbol lies inside the image, off the border. */
  lemma CoordinateBound(d: Drawing, q: int, r: int)
    requires d.Valid() && 0 <= q < d.size && 0 <= r < d.scale
    ensures d.border <= q * d.scale + r + d.border < d.Side() - d.border
  {
    ProductBound(q, d.scale, d.size);
  }

  lemma PlaceInSquare(n: int, row: int, column: int)
    requires 0 <= row < n && 0 <= column < n
    ensures 0 <= row * n + column < n * n
    ensures (row * n + column) / n == row && (row * n + column) % n == column
  {
    DivModUnique(row, n, column);
    ProductBound(row, n, n);
  }

  lemma CellFrom(d: Drawing, k: int, c: Cell, x: int, y: int)
    requires d.Valid() && d.Side() > 0 && k % d.Side() == x + d.border && k / d.Side() == y + d.border
    requires x / d.scale == c.x && x % d.scale == c.dx && y / d.scale == c.y && y % d.scale == c.dy
    ensures CellAt(d, k) == c
  {
    hide Drawing.Side;
  }

  /** Every computed index lies inside the image and names its own cell again, so distinct
      cells have distinct indices. */
  lemma CellOfIndex(d: Drawing, c: Cell)
    requires d.Valid() && InSymbol(d, c)
    ensures d.Side() > 0 && 0 <= IndexOf(d, c) < d.Side() * d.Side()
    ensures CellAt(d, IndexOf(d, c)) == c
  {
    CoordinateBound(d, c.y, c.dy);
    CoordinateBound(d, c.x, c.dx);
    var n, y, x := d.Side(), c.y * d.scale + c.dy, c.x * d.scale + c.dx;
    DivModUnique(c.y, d.scale, c.dy);
    DivModUnique(c.x, d.scale, c.dx);
    hide Drawing.Side, CellAt;
    PlaceInSquare(n, y + d.border, x + d.border);
    assert IndexOf(d, c) == (y + d.border) * n + (x + d.border);
    CellFrom(d, IndexOf(d, c), c, x, y);
  }

  lemma IndexOfCell(d: Drawing, k: int)
    requires d.Valid() && d.Side() > 0
    ensures IndexOf(d, CellAt(d, k)) == k
    ensures InSymbol(d, CellAt(d, k)) ==> d.border <= k % d.Side() && d.border <= k / d.Side()
  {
    var x, y := k % d.Side() - d.border, k / d.Side() - d.border;
    assert y / d.scale * d.scale + y % d.scale == y;
    assert x / d.scale * d.scale + x % d.scale == x;
    assert k / d.Side() * d.Side() + k % d.Side() == k;
  }

  // ---------------------------------------------------------------- module by module

  /** The order in which the nested loops reach the cells. */
  predicate Before(a: Cell, b: Cell) {
    a.y < b.y || (a.y == b.y && (a.x < b.x || (a.x == b.x && (a.dy < b.dy || (a.dy == b.dy && a.dx < b.dx)))))
  }

  /** The pixel at index k once all cells before `upto` have been visited. */
  ghost function Painted(d: Drawing, k: int, upto: Cell): int
    requires d.Valid() && d.Side() > 0
  {
    var c := CellAt(d, k);
    if InSymbol(d, c) && d.dark(c.x, c.y) && Before(c, upto) then BLACK else WHITE
  }

  ghost predicate PaintedUpTo(d: Drawing, image: seq<int>, upto: Cell)
    requires d.Valid()
  {
    && |image| == d.Side() * d.Side()
    && forall k | 0 <= k < |image| :: d.Side() > 0 && image[k] == Painted(d, k, upto)
  }

  lemma BlankImage(d: Drawing, image: seq<int>)
    requires d.Valid() && |image| == d.Side() * d.Side() && forall k | 0 <= k < |image| :: image[k] == WHITE
    ensures PaintedUpTo(d, image, Cell(0, 0, 0, 0))
  {
  }

  lemma NextCell(d: Drawing, image: seq<int>, a: Cell, b: Cell)
    requires d.Valid() && PaintedUpTo(d, image, a)
    requires forall c :: InSymbol(d, c) && d.dark(c.x, c.y) ==> (Before(c, a) <==> Before(c, b))
    ensures PaintedUpTo(d, image, b)
  {
  }

  lemma PaintCell(d: Drawing, image: seq<int>, c: Cell)
    requires d.Valid() && InSymbol(d, c) && d.dark(c.x, c.y) && PaintedUpTo(d, image, c)
    ensures 0 <= IndexOf(d, c) < |image|
    ensures PaintedUpTo(d, image[IndexOf(d, c) := BLACK], c.(dx := c.dx + 1))
  {
    CellOfIndex(d, c);
    var next := image[IndexOf(d, c) := BLACK];
    forall k | 0 <= k < |image|
      ensures next[k] == Painted(d, k, c.(dx := c.dx + 1))
    {
      IndexOfCell(d, k);
    }
  }

  /** The flat image that the module-driven loops fill. */
  method EncodeImage(d: Drawing) returns (image: array<int>)
    requires d.Valid()
    ensures image.Length == d.Side() * d.Side() && fresh(image)
    ensures PaintedUpTo(d, image[..], Cell(d.size, 0, 0, 0))
  {
    var imageSize := d.Side();
    assert imageSize * imageSize >= 0;
    image := new int[imageSize * imageSize](_ => WHITE);
    BlankImage(d, image[..]);
    hide PaintedUpTo, Drawing.Side;
    for y := 0 to d.size
      invariant PaintedUpTo(d, image[..], Cell(y, 0, 0, 0))
    {
      for x := 0 to d.size
        invariant PaintedUpTo(d, image[..], Cell(y, x, 0, 0))
      {
        if d.dark(x, y) {
          for dy := 0 to d.scale
            invariant PaintedUpTo(d, image[..], Cell(y, x, dy, 0))
          {
            for dx := 0 to d.scale
              invariant PaintedUpTo(d, image[..], Cell(y, x, dy, dx))
            {
              ghost var was := image[..];
              PaintCell(d, was, Cell(y, x, dy, dx));
              assert IndexOf(d, Cell(y, x, dy, dx)) == ((y * d.scale + dy + d.border) * imageSize) + (x * d.scale + dx + d.border);
              var index := ((y * d.scale + dy + d.border) * imageSize) + (x * d.scale + dx + d.border);
              image[index] := BLACK;
              assert image[..] == was[index := BLACK];
            }
            NextCell(d, image[..], Cell(y, x, dy, d.scale), Cell(y, x, dy + 1, 0));
          }
          NextCell(d, image[..], Cell(y, x, d.scale, 0), Cell(y, x + 1, 0, 0));
        } else {
          NextCell(d, image[..], Cell(y, x, 0, 0), Cell(y, x + 1, 0, 0));
        }
      }
      NextCell(d, image[..], Cell(y, d.size, 0, 0), Cell(y + 1, 0, 0, 0));
    }
  }

  // ---------------------------------------------------------------- the two agree

  lemma PaintedIsPixel(d: Drawing, px: int, py: int)
    requires d.Valid() && 0 <= px < d.Side() && 0 <= py < d.Side()
    ensures 0 <= py * d.Side() + px < d.Side() * d.Side()
    ensures Painted(d, py * d.Side() + px, Cell(d.size, 0, 0, 0)) == Pixel(d, px, py)
  {
    PlaceInSquare(d.Side(), py, px);
    var x, y := px - d.border, py - d.border;
    DivisionSign(x, d.scale);
    DivisionSign(y, d.scale);
  }

  /** Row by row the flat image holds exactly the pixels: black exactly where a dark module is. */
  lemma ImageRow(d: Drawing, image: seq<int>, py: int)
    requires d.Valid() && PaintedUpTo(d, image, Cell(d.size, 0, 0, 0)) && 0 <= py < d.Side()
    ensures 0 <= py * d.Side() && py * d.Side() + d.Side() <= |image|
    ensures image[py * d.Side()..py * d.Side() + d.Side()] == PixelRow(d, py)
  {
    ProductBound(py, d.Side(), d.Side());
    var start := py * d.Side();
    forall px | 0 <= px < d.Side()
      ensures image[start + px] == Pixel(d, px, py)
    {
      PaintedIsPixel(d, px, py);
    }
  }

  /** The flat image holds 0 on the dark modules and 255 elsewhere. */
  lemma ImageExactly(d: Drawing, image: seq<int>, px: int, py: int)
    requires d.Valid() && PaintedUpTo(d, image, Cell(d.size, 0, 0, 0)) && 0 <= px < d.Side() && 0 <= py < d.Side()
    ensures 0 <= py * d.Side() + px < |image|
    ensures image[py * d.Side() + px] == if DarkAt(d, px, py) then 0 else 255
  {
    PaintedIsPixel(d, px, py);
    PixelExactly(d, px, py);
  }

  /** Both rasterisers draw the same image: each row the pixel-driven loops emit is the row
      the other writer hands to the PNG library from the flat image. */
  lemma RasterisersAgree(d: Drawing, rows: seq<seq<int>>, image: seq<int>)
    requires d.Valid() && IsPng(d, rows) && PaintedUpTo(d, image, Cell(d.size, 0, 0, 0))
    ensures |rows| == d.Side()
    ensures forall py | 0 <= py < |rows| ::
              0 <= py * |rows| && py * |rows| + |rows| <= |image| && rows[py] == image[py * |rows|..py * |rows| + |rows|]
  {
    forall py | 0 <= py < |rows|
      ensures 0 <= py * |rows| && py * |rows| + |rows| <= |image| && rows[py] == image[py * |rows|..py * |rows| + |rows|]
    {
      ImageRow(d, image, py);
    }
  }

  /** The rows the module-driven writer hands over: each a slice of its flat image. */
  method EncodeBase64Rows(d: Drawing) returns (rows: seq<seq<int>>)
    requires d.Valid()
    ensures IsPng(d, rows) && Drawn(d, rows)
  {
    var imageSize := d.Side();
    assert imageSize >= 0;
    hide PixelRow, PaintedUpTo, Drawing.Side, IsPng, Drawn;
    var image := EncodeImage(d);
    ghost var flat := image[..];
    rows := [];
    for y := 0 to imageSize
      invariant image[..] == flat && |rows| == y
      invariant forall py | 0 <= py < |rows| :: rows[py] == PixelRow(d, py)
    {
      var start := y * imageSize;
      ImageRow(d, flat, y);
      var row := image[start..start + imageSize];
      assert row == flat[start..start + imageSize];
      rows := rows + [row];
    }
    RowsAreDrawn(d, rows);
  }

  // ---------------------------------------------------------------- how many pixels are black

  datatype Module = Module(y: int, x: int)

  ghost function DarkModules(d: Drawing): set<Module> {
    set y, x | 0 <= y < d.size && 0 <= x < d.size && d.dark(x, y) :: Module(y, x)
  }

  ghost function BlackPixels(image: seq<int>): set<int> {
    set k | 0 <= k < |image| && image[k] == BLACK
  }

  /** The cells of one module in its first n rows and k columns of row n. */
  ghost function Block(d: Drawing, m: Module, n: int, k: int): set<Cell> {
    set dy, dx | 0 <= dy <= n && 0 <= dx < d.scale && (dy < n || dx < k) :: Cell(m.y, m.x, dy, dx)
  }

  lemma {:induction false} BlockSize(d: Drawing, m: Module, n: int, k: int)
    requires d.Valid() && 0 <= n <= d.scale && 0 <= k <= d.scale
    ensures |Block(d, m, n, k)| == n * d.scale + k
    decreases n, k
  {
    if k > 0 {
      BlockSize(d, m, n, k - 1);
      var c := Cell(m.y, m.x, n, k - 1);
      assert Block(d, m, n, k) == Block(d, m, n, k - 1) + {c};
      assert c !in Block(d, m, n, k - 1);
    } else if n > 0 {
      BlockSize(d, m, n - 1, d.scale);
      assert Block(d, m, n, 0) == Block(d, m, n - 1, d.scale);
    } else {
      assert Block(d, m, 0, 0) == {};
    }
  }

  ghost function CellsOf(d: Drawing, modules: set<Module>): set<Cell> {
    set m, dy, dx | m in modules && 0 <= dy < d.scale && 0 <= dx < d.scale :: Cell(m.y, m.x, dy, dx)
  }

  lemma OneMore(n: int, s: int)
    ensures (n + 1) * s == n * s + s
  {
  }

  lemma {:induction false} CellsCount(d: Drawing, modules: set<Module>)
    requires d.Valid()
    ensures |CellsOf(d, modules)| == |modules| * (d.scale * d.scale)
    decreases |modules|
  {
    if modules == {} {
      assert CellsOf(d, modules) == {};
    } else {
      var m :| m in modules;
      var rest := modules - {m};
      CellsCount(d, rest);
      BlockSize(d, m, d.scale, 0);
      var block := Block(d, m, d.scale, 0);
      assert CellsOf(d, modules) == CellsOf(d, rest) + block;
      assert CellsOf(d, rest) !! block;
      assert |modules| == |rest| + 1;
      OneMore(|rest|, d.scale * d.scale);
    }
  }

  ghost function IndicesOf(d: Drawing, cells: set<Cell>): set<int> {
    set c | c in cells :: IndexOf(d, c)
  }

  lemma {:induction false} IndicesCount(d: Drawing, cells: set<Cell>)
    requires d.Valid() && forall c | c in cells :: InSymbol(d, c)
    ensures |IndicesOf(d, cells)| == |cells|
    decreases |cells|
  {
    if cells == {} {
      assert IndicesOf(d, cells) == {};
    } else {
      var c :| c in cells;
      var rest := cells - {c};
      IndicesCount(d, rest);
      assert IndicesOf(d, cells) == IndicesOf(d, rest) + {IndexOf(d, c)};
      CellOfIndex(d, c);
      forall c' | c' in rest
        ensures IndexOf(d, c') != IndexOf(d, c)
      {
        CellOfIndex(d, c');
      }
    }
  }

  /** The number of black pixels is scale * scale times the number of dark modules. */
  lemma BlackPixelCount(d: Drawing, image: seq<int>)
    requires d.Valid() && PaintedUpTo(d, image, Cell(d.size, 0, 0, 0))
    ensures |BlackPixels(image)| == |DarkModules(d)| * (d.scale * d.scale)
  {
    var cells := CellsOf(d, DarkModules(d));
    CellsCount(d, DarkModules(d));
    IndicesCount(d, cells);
    forall k | k in IndicesOf(d, cells)
      ensures k in BlackPixels(image)
    {
      var c :| c in cells && IndexOf(d, c) == k;
      CellOfIndex(d, c);
    }
    forall k | k in BlackPixels(image)
      ensures k in IndicesOf(d, cells)
    {
      var c := CellAt(d, k);
      IndexOfCell(d, k);
      assert Module(c.y, c.x) in DarkModules(d);
      assert c in cells;
    }
    assert BlackPixels(image) == IndicesOf(d, cells);
  }

  /** Both writers draw the same image: the rows that reach the PNG library are the same, and
      they are the slices of the flat image. */
  method DrawBoth(d: Drawing) returns (pixelRows: seq<seq<int>>, moduleRows: seq<seq<int>>, image: array<int>)
    requires d.Valid()
    ensures Drawn(d, pixelRows) && pixelRows == moduleRows && |pixelRows| == d.Side() && image.Length == d.Side() * d.Side()
    ensures forall py | 0 <= py < |pixelRows| ::
              && 0 <= py * |pixelRows| && py * |pixelRows| + |pixelRows| <= image.Length
              && pixelRows[py] == image[py * |pixelRows|..py * |pixelRows| + |pixelRows|]
    ensures |BlackPixels(image[..])| == |DarkModules(d)| * (d.scale * d.scale)
  {
    hide PixelRow, PaintedUpTo, Drawing.Side, Drawn;
    pixelRows := WritePng(d);
    moduleRows := EncodeBase64Rows(d);
    image := EncodeImage(d);
    RasterisersAgree(d, pixelRows, image[..]);
    BlackPixelCount(d, image[..]);
  }
}

/** The readout loops: raw little-endian camera bytes to the pixels of a FITS file, with or
    without binning on the way. */
module Readout {
  import opened Pixels

  type Byte = b: int | 0 <= b < 256

  const UINT32: int := 0x1_0000_0000
  const NEARLY_SATURATED: int := 65530
  const SATURATED: int := 65535
  /** Elements of the row buffer the loops fill. */
  const FRAMEBUFFER: nat := 6280

  /** Pixel (x, y) of a frame that is width pixels wide: byte pairs, low byte first. */
  function Raw(buffer: seq<Byte>, width: nat, x: int, y: int): (v: int)
    ensures 0 <= v <= 65535
  {
    var i := 2 * (y * width + x);
    if 0 <= i && i + 1 < |buffer| then 256 * (buffer[i + 1] as int) + buffer[i] as int else 0
  }

  predicate Fits(buffer: seq<Byte>, width: nat, height: nat) { |buffer| >= 2 * (height * width) }

  /** The raw frame as a grid of pixels. */
  function RawGrid(buffer: seq<Byte>, width: nat, height: nat): (g: Grid)
    ensures Valid(g) && g.height == height && g.width == width
  {
    Tabulate(height, width, (x: nat, y: nat) => Raw(buffer, width, x, y) as real)
  }

  /** n raw pixels of row y from column x on: their sum, and how many are nearly saturated. */
  function RawRow(buffer: seq<Byte>, width: nat, x: int, y: int, n: nat): (r: (int, nat))
    ensures 0 <= r.0 <= n * SATURATED && r.1 <= n
  {
    if n == 0 then (0, 0)
    else
      var (sum, over) := RawRow(buffer, width, x, y, n - 1);
      var v := Raw(buffer, width, x + n - 1, y);
      (sum + v, if v > NEARLY_SATURATED then over + 1 else over)
  }

  /** The same over a block of n by m pixels. */
  function RawBlock(buffer: seq<Byte>, width: nat, x: int, y: int, n: nat, m: nat): (r: (int, nat))
    ensures 0 <= r.0 <= m * (n * SATURATED) && r.1 <= m * n
  {
    if m == 0 then (0, 0)
    else
      var (sum, over) := RawBlock(buffer, width, x, y, n, m - 1);
      var (rowSum, rowOver) := RawRow(buffer, width, x, y + m - 1, n);
      Distribute(m - 1, 1, n * SATURATED);
      Distribute(m - 1, 1, n);
      (sum + rowSum, over + rowOver)
  }

  function Block(buffer: seq<Byte>, bin: nat, width: nat, row: nat, col: nat): (int, nat)
  {
    RawBlock(buffer, width, col * bin, row * bin, bin, bin)
  }

  /** A sum kept in 32 bits. */
  function Wrap(a: int): (r: int)
    ensures 0 <= r < UINT32 && (r == a <==> 0 <= a < UINT32)
  {
    a % UINT32
  }

  /** What ReadoutBinTo32 stores for an output pixel. */
  function Pixel32(buffer: seq<Byte>, bin: nat, width: nat, row: nat, col: nat): int
  {
    var (sum, over) := Block(buffer, bin, width, row, col);
    if over > 0 then SATURATED * bin * bin else Wrap(sum)
  }

  /** What ReadoutBinTo16 stores for an output pixel. */
  function Pixel16(buffer: seq<Byte>, bin: nat, width: nat, row: nat, col: nat): int
  {
    var (sum, over) := Block(buffer, bin, width, row, col);
    if over > 0 || Wrap(sum) > SATURATED then SATURATED else Wrap(sum)
  }

  /** The largest binning factor whose sums can never wrap around. */
  const SAFE_BIN: nat := 256

  lemma LimitFits(b: nat, bin: nat, limit: nat)
    requires b <= bin <= limit
    ensures b * (bin * SATURATED) <= limit * (limit * SATURATED)
  {
    MulMono(b, limit, bin * SATURATED);
    MulMono(bin, limit, SATURATED);
    MulMono(bin * SATURATED, limit * SATURATED, limit);
  }

  /** Up to it every sum fits 32 bits, whatever the frame. */
  lemma BlockFits(buffer: seq<Byte>, bin: nat, width: nat, row: nat, col: nat)
    requires bin <= SAFE_BIN
    ensures 0 <= Block(buffer, bin, width, row, col).0 < UINT32
  {
    LimitFits(bin, bin, SAFE_BIN);
  }

  // ---------------------------------------------------------------- against Image::bin

  lemma {:induction false} RawRowSum(buffer: seq<Byte>, width: nat, height: nat, x: nat, y: nat, n: nat)
    requires x + n <= width && y < height
    ensures RowSum(RawGrid(buffer, width, height), x, y, n) == RawRow(buffer, width, x, y, n).0 as real
    decreases n
  {
    if n > 0 {
      RawRowSum(buffer, width, height, x, y, n - 1);
      assert At(RawGrid(buffer, width, height), x + n - 1, y) == Raw(buffer, width, x + n - 1, y) as real;
    }
  }

  lemma {:induction false} RawBlockSum(buffer: seq<Byte>, width: nat, height: nat, x: nat, y: nat, n: nat, m: nat)
    requires x + n <= width && y + m <= height
    ensures BlockSum(RawGrid(buffer, width, height), x, y, n, m) == RawBlock(buffer, width, x, y, n, m).0 as real
    decreases m
  {
    hide RowSum, RawGrid;
    if m > 0 {
      RawBlockSum(buffer, width, height, x, y, n, m - 1);
      RawRowSum(buffer, width, height, x, y + m - 1, n);
    }
  }

  /** No pixel of the frame is nearly saturated. */
  ghost predicate Unsaturated(buffer: seq<Byte>, width: nat, height: nat)
  {
    forall x, y :: 0 <= x < width && 0 <= y < height ==> Raw(buffer, width, x, y) <= NEARLY_SATURATED
  }

  lemma {:induction false} RowUnsaturated(buffer: seq<Byte>, width: nat, height: nat, x: nat, y: nat, n: nat)
    requires Unsaturated(buffer, width, height) && x + n <= width && y < height
    ensures RawRow(buffer, width, x, y, n).1 == 0
    decreases n
  {
    if n > 0 {
      RowUnsaturated(buffer, width, height, x, y, n - 1);
    }
  }

  lemma {:induction false} BlockUnsaturated(buffer: seq<Byte>, width: nat, height: nat, x: nat, y: nat, n: nat, m: nat)
    requires Unsaturated(buffer, width, height) && x + n <= width && y + m <= height
    ensures RawBlock(buffer, width, x, y, n, m).1 == 0
    decreases m
  {
    if m > 0 {
      BlockUnsaturated(buffer, width, height, x, y, n, m - 1);
      RowUnsaturated(buffer, width, height, x, y + m - 1, n);
    }
  }

  /** The two stored pixels against the binned pixel: the wide one is the pixel exactly if it fits 32
      bits, the narrow one is then cut off at 65535, and up to SAFE_BIN every pixel fits. */
  predicate Agree(wide: int, narrow: int, pixel: real, bin: nat)
  {
    && (bin <= SAFE_BIN ==> pixel < UINT32 as real)
    && (wide as real == pixel <==> pixel < UINT32 as real)
    && (pixel < UINT32 as real ==> narrow as real == if pixel > 65535.0 then 65535.0 else pixel)
  }

  /** On a frame without nearly saturated pixels the binned readouts are Image::bin of the
      unbinned frame, the 16-bit one cut off at 65535. */
  lemma BinnedReadout(buffer: seq<Byte>, bin: nat, width: nat, height: nat, row: nat, col: nat)
    requires bin >= 1 && row < height / bin && col < width / bin
    requires Unsaturated(buffer, width, height)
    ensures var pixel := Bin(RawGrid(buffer, width, height), bin).rows[row][col];
            Agree(Pixel32(buffer, bin, width, row, col), Pixel16(buffer, bin, width, row, col), pixel, bin)
  {
    hide Bin, BlockSum, RawBlock, RawGrid, Wrap;
    if bin <= SAFE_BIN {
      BlockFits(buffer, bin, width, row, col);
    }
    DivBounds(width, bin);
    DivBounds(height, bin);
    MulMono(col + 1, width / bin, bin);
    MulMono(row + 1, height / bin, bin);
    Distribute(col, 1, bin);
    Distribute(row, 1, bin);
    BinAt(RawGrid(buffer, width, height), bin, col, row);
    RawBlockSum(buffer, width, height, col * bin, row * bin, bin, bin);
    BlockUnsaturated(buffer, width, height, col * bin, row * bin, bin, bin);
  }

  // ---------------------------------------------------------------- the loops

  /** The image of an open FITS file, row after row. */
  class FitsImage {
    var pixels: seq<int>

    constructor ()
      ensures pixels == []
    {
      pixels := [];
    }

    /** fits_write_img: n elements from the given one on, counted from 1. */
    method WriteImage(firstElement: nat, row: seq<int>)
      requires 1 <= firstElement <= |pixels| + 1
      modifies this
      ensures pixels == old(pixels)[..firstElement - 1] + row
                        + (if firstElement - 1 + |row| <= |old(pixels)|
                           then old(pixels)[firstElement - 1 + |row|..] else [])
    {
      pixels := pixels[..firstElement - 1] + row
                + (if firstElement - 1 + |row| <= |pixels| then pixels[firstElement - 1 + |row|..] else []);
    }
  }

  /** The three integer readouts. */
  datatype Depth = Plain | Bits16 | Bits32

  function Pixel(depth: Depth, buffer: seq<Byte>, bin: nat, width: nat, row: nat, col: nat): int
  {
    match depth
    case Plain => Raw(buffer, width, col, row)
    case Bits16 => Pixel16(buffer, bin, width, row, col)
    case Bits32 => Pixel32(buffer, bin, width, row, col)
  }

  function RowPixels(depth: Depth, buffer: seq<Byte>, bin: nat, width: nat, row: nat, w: nat): (s: seq<int>)
    ensures |s| == w
  {
    seq(w, col requires 0 <= col < w => Pixel(depth, buffer, bin, width, row, col))
  }

  /** The first h rows of w output pixels each, one after the other. */
  function Rows(depth: Depth, buffer: seq<Byte>, bin: nat, width: nat, h: nat, w: nat): (s: seq<int>)
    ensures |s| == h * w
    decreases h
  {
    if h == 0 then []
    else
      Distribute(h - 1, 1, w);
      Rows(depth, buffer, bin, width, h - 1, w) + RowPixels(depth, buffer, bin, width, h - 1, w)
  }

  /** Where output pixel (row, col) stands in the file. */
  lemma {:induction false} RowsAt(depth: Depth, buffer: seq<Byte>, bin: nat, width: nat, h: nat, w: nat,
                                  row: nat, col: nat)
    requires row < h && col < w
    ensures row * w + col < h * w
    ensures Rows(depth, buffer, bin, width, h, w)[row * w + col] == Pixel(depth, buffer, bin, width, row, col)
    decreases h
  {
    hide Pixel;
    Distribute(h - 1, 1, w);
    if row < h - 1 {
      RowsAt(depth, buffer, bin, width, h - 1, w, row, col);
    }
  }

  function Element(pixels: seq<int>, i: int): int { if 0 <= i < |pixels| then pixels[i] else 0 }

  /** A file of one pixel per element, as the image that is loaded from it. */
  function FileGrid(pixels: seq<int>, height: nat, width: nat): (g: Grid)
    ensures Valid(g) && g.height == height && g.width == width
  {
    Tabulate(height, width, (x: nat, y: nat) => Element(pixels, y * width + x) as real)
  }

  lemma PlainFile(buffer: seq<Byte>, width: nat, height: nat)
    ensures FileGrid(Rows(Plain, buffer, 1, width, height, width), height, width) == RawGrid(buffer, width, height)
  {
    hide Rows, Raw;
    var frame := FileGrid(Rows(Plain, buffer, 1, width, height, width), height, width);
    forall y: nat, x: nat | y < height && x < width
      ensures frame.rows[y][x] == RawGrid(buffer, width, height).rows[y][x]
    {
      RowsAt(Plain, buffer, 1, width, height, width, y, x);
    }
    SameGrid(frame, RawGrid(buffer, width, height));
  }

  /** The files: output pixel (row, col) of a binned readout of an unsaturated frame is the
      binned pixel of the image that the unbinned readout would have written. */
  lemma FilesAgree(buffer: seq<Byte>, bin: nat, width: nat, height: nat, row: nat, col: nat)
    requires bin >= 1 && row < height / bin && col < width / bin
    requires Unsaturated(buffer, width, height)
    ensures var (h, w) := (height / bin, width / bin);
            var i := row * w + col;
            var frame := FileGrid(Rows(Plain, buffer, 1, width, height, width), height, width);
            var pixel := Bin(frame, bin).rows[row][col];
            Agree(Element(Rows(Bits32, buffer, bin, width, h, w), i),
                  Element(Rows(Bits16, buffer, bin, width, h, w), i), pixel, bin)
  {
    hide Bin, Rows, Pixel16, Pixel32, FileGrid, Agree;
    PlainFile(buffer, width, height);
    BinnedReadout(buffer, bin, width, height, row, col);
    RowsAt(Bits32, buffer, bin, width, height / bin, width / bin, row, col);
    RowsAt(Bits16, buffer, bin, width, height / bin, width / bin, row, col);
  }

  /** The bytes a camera sends for its pixels: two for each, the low one first. */
  function Sent(values: seq<int>): (buffer: seq<Byte>)
    requires forall i :: 0 <= i < |values| ==> 0 <= values[i] <= 65535
    ensures |buffer| == 2 * |values|
  {
    if values == [] then []
    else [values[0] % 256, values[0] / 256] + Sent(values[1..])
  }

  lemma {:induction false} SentAt(values: seq<int>, i: nat)
    requires (forall j :: 0 <= j < |values| ==> 0 <= values[j] <= 65535) && i < |values|
    ensures Sent(values)[2 * i] == values[i] % 256 && Sent(values)[2 * i + 1] == values[i] / 256
    decreases values
  {
    if i > 0 {
      SentAt(values[1..], i - 1);
      assert Sent(values)[2..] == Sent(values[1..]);
    }
  }

  /** An unbinned readout writes into the file exactly the pixels the camera sent. */
  lemma PlainRoundTrip(values: seq<int>, width: nat, height: nat)
    requires (forall j :: 0 <= j < |values| ==> 0 <= values[j] <= 65535) && |values| == height * width
    ensures Rows(Plain, Sent(values), 1, width, height, width) == values
  {
    hide Rows, Raw, Sent;
    forall i | 0 <= i < |values| ensures Rows(Plain, Sent(values), 1, width, height, width)[i] == values[i] {
      RowAndColumn(i, width, height);
      RowsAt(Plain, Sent(values), 1, width, height, width, i / width, i % width);
      RawSent(values, width, i % width, i / width);
    }
  }

  lemma RowAndColumn(i: nat, width: nat, height: nat)
    requires i < height * width
    ensures width > 0 && i / width < height && i % width < width && i == (i / width) * width + i % width
  {
    DivBounds(i, width);
    if i / width >= height {
      MulMono(height, i / width, width);
    }
  }

  lemma RawSent(values: seq<int>, width: nat, x: nat, y: nat)
    requires (forall j :: 0 <= j < |values| ==> 0 <= values[j] <= 65535) && y * width + x < |values|
    ensures Raw(Sent(values), width, x, y) == values[y * width + x]
  {
    hide Sent;
    SentAt(values, y * width + x);
  }

  lemma {:induction false} RowOver(buffer: seq<Byte>, width: nat, x: int, y: int, n: nat, i: nat)
    requires i < n && Raw(buffer, width, x + i, y) > 65530
    ensures RawRow(buffer, width, x, y, n).1 > 0
    decreases n
  {
    if i < n - 1 {
      RowOver(buffer, width, x, y, n - 1, i);
    }
  }

  lemma {:induction false} BlockOver(buffer: seq<Byte>, width: nat, x: int, y: int, n: nat, m: nat, i: nat, j: nat)
    requires i < n && j < m && Raw(buffer, width, x + i, y + j) > 65530
    ensures RawBlock(buffer, width, x, y, n, m).1 > 0
    decreases m
  {
    if j < m - 1 {
      BlockOver(buffer, width, x, y, n, m - 1, i, j);
    } else {
      RowOver(buffer, width, x, y + j, n, i);
    }
  }

  /** One nearly saturated pixel saturates the binned pixel it falls into. */
  lemma SaturatedPixel(buffer: seq<Byte>, bin: nat, width: nat, row: nat, col: nat, i: nat, j: nat)
    requires i < bin && j < bin && Raw(buffer, width, col * bin + i, row * bin + j) > 65530
    ensures Pixel32(buffer, bin, width, row, col) == 65535 * bin * bin
    ensures Pixel16(buffer, bin, width, row, col) == 65535
  {
    BlockOver(buffer, width, col * bin, row * bin, bin, bin, i, j);
  }

  /** Every byte pair the loops touch lies inside the frame. */
  lemma InBuffer(buffer: seq<Byte>, width: nat, height: nat, x: nat, y: nat)
    requires Fits(buffer, width, height) && x < width && y < height
    ensures 0 <= 2 * (y * width + x) && 2 * (y * width + x) + 1 < |buffer|
  {
    MulMono(y + 1, height, width);
    Distribute(y, 1, width);
  }

  lemma BlockInside(n: nat, b: nat, t: nat)
    requires b >= 1 && t < n / b
    ensures 0 <= t * b && t * b + b <= n
  {
    DivBounds(n, b);
    MulMono(t + 1, n / b, b);
    Distribute(t, 1, b);
  }

  /** The products for saturated blocks fit an int up to this factor. */
  const WIDEST_BIN: nat := 181

  lemma WrapAdd(a: int, v: int)
    ensures Wrap(Wrap(a) + v) == Wrap(a + v)
  {
    var q := a / UINT32;
    assert a + v == UINT32 * q + (a % UINT32 + v);
  }

  method SumRow(buffer: seq<Byte>, bin: nat, width: nat, height: nat, x: nat, y: nat, start: int, startOver: nat)
    returns (tgt: int, overflow: nat)
    requires Fits(buffer, width, height) && x + bin <= width && y < height && 0 <= start < UINT32
    ensures tgt == Wrap(start + RawRow(buffer, width, x, y, bin).0)
    ensures overflow == startOver + RawRow(buffer, width, x, y, bin).1
  {
    hide Wrap;
    tgt, overflow := start, startOver;
    for bb := 0 to bin
      invariant tgt == Wrap(start + RawRow(buffer, width, x, y, bb).0)
      invariant overflow == startOver + RawRow(buffer, width, x, y, bb).1
    {
      InBuffer(buffer, width, height, x + bb, y);
      var s := 2 * (y * width + x);
      var v := (buffer[s + bb * 2 + 1] as int) * 256 + buffer[s + bb * 2] as int;
      if v > NEARLY_SATURATED {
        overflow := overflow + 1;
      }
      WrapAdd(start + RawRow(buffer, width, x, y, bb).0, v);
      tgt := Wrap(tgt + v);
    }
  }

  /** The two inner loops: a block's sum in 32-bit arithmetic. */
  method SumBlock(buffer: seq<Byte>, bin: nat, width: nat, height: nat, row: nat, col: nat)
    returns (tgt: int, overflow: nat)
    requires 1 <= bin && Fits(buffer, width, height)
    requires row < height / bin && col < width / bin
    ensures tgt == Wrap(Block(buffer, bin, width, row, col).0) && overflow == Block(buffer, bin, width, row, col).1
    ensures bin <= SAFE_BIN ==> tgt == Block(buffer, bin, width, row, col).0
  {
    hide RawRow, RawBlock, Wrap;
    tgt, overflow := 0, 0;
    var x, y := col * bin, row * bin;
    BlockStep(buffer, width, x, y, bin, 0);
    BlockInside(width, bin, col);
    BlockInside(height, bin, row);
    for b := 0 to bin
      invariant tgt == Wrap(RawBlock(buffer, width, x, y, bin, b).0)
      invariant overflow == RawBlock(buffer, width, x, y, bin, b).1
    {
      BlockStep(buffer, width, x, y, bin, b);
      WrapAdd(RawBlock(buffer, width, x, y, bin, b).0, RawRow(buffer, width, x, y + b, bin).0);
      tgt, overflow := SumRow(buffer, bin, width, height, x, y + b, tgt, overflow);
    }
    if bin <= SAFE_BIN {
      BlockFits(buffer, bin, width, row, col);
    }
  }

  lemma BlockStep(buffer: seq<Byte>, width: nat, x: int, y: int, n: nat, m: nat)
    ensures var (block, row, next) := (RawBlock(buffer, width, x, y, n, m), RawRow(buffer, width, x, y + m, n),
                                       RawBlock(buffer, width, x, y, n, m + 1));
            next.0 == block.0 + row.0 && next.1 == block.1 + row.1
    ensures RawBlock(buffer, width, x, y, n, 0) == (0, 0)
  {
  }

  /** The rows come one after the other, so each write extends the file. */
  method AppendRow(fits: FitsImage, firstElement: nat, row: seq<int>)
    requires firstElement == |fits.pixels| + 1
    modifies fits
    ensures fits.pixels == old(fits.pixels) + row
  {
    fits.WriteImage(firstElement, row);
  }

  method FillRow16(buffer: seq<Byte>, bin: nat, width: nat, height: nat, row: nat, framebuffer: array<int>)
    requires 1 <= bin && Fits(buffer, width, height) && width / bin <= framebuffer.Length
    requires row < height / bin
    modifies framebuffer
    ensures framebuffer[..width / bin] == RowPixels(Bits16, buffer, bin, width, row, width / bin)
  {
    hide Block;
    var tgtW := width / bin;
    for col := 0 to tgtW
      invariant forall c :: 0 <= c < col ==> framebuffer[c] == Pixel(Bits16, buffer, bin, width, row, c)
    {
      var tgt, overflow := SumBlock(buffer, bin, width, height, row, col);
      if overflow > 0 || tgt > SATURATED {
        tgt := SATURATED;
      }
      framebuffer[col] := tgt;
    }
  }

  method ReadoutBinTo16(buffer: seq<Byte>, bin: nat, width: nat, height: nat, fits: FitsImage)
    requires 1 <= bin && Fits(buffer, width, height) && width / bin <= FRAMEBUFFER
    requires fits.pixels == []
    modifies fits
    ensures fits.pixels == Rows(Bits16, buffer, bin, width, height / bin, width / bin)
  {
    hide RowPixels;
    var framebuffer := new int[FRAMEBUFFER];
    var tgtW, tgtH := width / bin, height / bin;
    for row := 0 to tgtH
      invariant fits.pixels == Rows(Bits16, buffer, bin, width, row, tgtW)
    {
      FillRow16(buffer, bin, width, height, row, framebuffer);
      AppendRow(fits, 1 + row * tgtW, framebuffer[..tgtW]);
    }
  }

  method FillRow32(buffer: seq<Byte>, bin: nat, width: nat, height: nat, row: nat, framebuffer: array<int>)
    requires 1 <= bin <= WIDEST_BIN && Fits(buffer, width, height) && width / bin <= framebuffer.Length
    requires row < height / bin
    modifies framebuffer
    ensures framebuffer[..width / bin] == RowPixels(Bits32, buffer, bin, width, row, width / bin)
  {
    hide Block;
    var tgtW := width / bin;
    for col := 0 to tgtW
      invariant forall c :: 0 <= c < col ==> framebuffer[c] == Pixel(Bits32, buffer, bin, width, row, c)
    {
      var tgt, overflow := SumBlock(buffer, bin, width, height, row, col);
      if overflow > 0 {
        tgt := SATURATED * bin * bin;
      }
      framebuffer[col] := tgt;
    }
  }

  method ReadoutBinTo32(buffer: seq<Byte>, bin: nat, width: nat, height: nat, fits: FitsImage)
    requires 1 <= bin <= WIDEST_BIN && Fits(buffer, width, height) && width / bin <= FRAMEBUFFER
    requires fits.pixels == []
    modifies fits
    ensures fits.pixels == Rows(Bits32, buffer, bin, width, height / bin, width / bin)
  {
    hide RowPixels;
    var framebuffer := new int[FRAMEBUFFER];
    var tgtW, tgtH := width / bin, height / bin;
    for row := 0 to tgtH
      invariant fits.pixels == Rows(Bits32, buffer, bin, width, row, tgtW)
    {
      FillRow32(buffer, bin, width, height, row, framebuffer);
      AppendRow(fits, 1 + row * tgtW, framebuffer[..tgtW]);
    }
  }

  method FillRowPlain(buffer: seq<Byte>, width: nat, height: nat, row: nat, framebuffer: array<int>)
    requires Fits(buffer, width, height) && width <= framebuffer.Length && row < height
    modifies framebuffer
    ensures framebuffer[..width] == RowPixels(Plain, buffer, 1, width, row, width)
  {
    for d := 0 to width
      invariant forall c :: 0 <= c < d ==> framebuffer[c] == Pixel(Plain, buffer, 1, width, row, c)
    {
      InBuffer(buffer, width, height, d, row);
      var s := 2 * (row * width + d);
      framebuffer[d] := (buffer[s + 1] as int) * 256 + buffer[s] as int;
    }
  }

  method Readout16to16(buffer: seq<Byte>, width: nat, height: nat, fits: FitsImage)
    requires Fits(buffer, width, height) && width <= FRAMEBUFFER && fits.pixels == []
    modifies fits
    ensures fits.pixels == Rows(Plain, buffer, 1, width, height, width)
  {
    hide RowPixels;
    var framebuffer := new int[FRAMEBUFFER];
    for row := 0 to height
      invariant fits.pixels == Rows(Plain, buffer, 1, width, row, width)
    {
      FillRowPlain(buffer, width, height, row, framebuffer);
      AppendRow(fits, 1 + row * width, framebuffer[..width]);
    }
  }

  /** What no frame makes the 32-bit readout exceed. */
  lemma Pixel32Fits(buffer: seq<Byte>, bin: nat, width: nat, row: nat, col: nat)
    requires bin <= WIDEST_BIN
    ensures 0 <= Pixel32(buffer, bin, width, row, col) < UINT32
  {
    hide Block, Wrap;
    Products(bin);
  }

  lemma Products(bin: nat)
    requires bin <= WIDEST_BIN
    ensures 0 <= SATURATED * bin * bin < UINT32 / 2
  {
    LimitFits(bin, bin, WIDEST_BIN);
    MulAssoc(SATURATED, bin, bin);
    MulAssoc(bin, bin, SATURATED);
  }
}

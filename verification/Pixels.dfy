/** Rectangles of pixels and what binning, cropping and subtracting do to them. */
module Pixels {

  /** rows[y][x]; pixel values are exact numbers. */
  datatype Grid = Grid(height: nat, width: nat, rows: seq<seq<real>>)

  predicate Valid(g: Grid)
  {
    |g.rows| == g.height && forall y :: 0 <= y < g.height ==> |g.rows[y]| == g.width
  }

  /** A grid from its pixels. */
  function Tabulate(height: nat, width: nat, f: (nat, nat) -> real): (g: Grid)
    ensures Valid(g) && g.height == height && g.width == width
    ensures forall y, x :: 0 <= y < height && 0 <= x < width ==> g.rows[y][x] == f(x, y)
  {
    Grid(height, width, seq(height, y requires 0 <= y < height => seq(width, x requires 0 <= x < width => f(x, y))))
  }

  lemma SameGrid(a: Grid, b: Grid)
    requires Valid(a) && Valid(b) && a.height == b.height && a.width == b.width
    requires forall y, x :: 0 <= y < a.height && 0 <= x < a.width ==> a.rows[y][x] == b.rows[y][x]
    ensures a == b
  {
    forall y | 0 <= y < a.height ensures a.rows[y] == b.rows[y] {
    }
  }

  /** A pixel, 0 outside the grid. */
  function At(g: Grid, x: int, y: int): real
  {
    if 0 <= y < |g.rows| && 0 <= x < |g.rows[y]| then g.rows[y][x] else 0.0
  }

  /** n pixels of row y from column x on. */
  function RowSum(g: Grid, x: int, y: int, n: nat): real
  {
    if n == 0 then 0.0 else RowSum(g, x, y, n - 1) + At(g, x + n - 1, y)
  }

  /** The block of w columns and h rows whose first pixel is (x, y). */
  function BlockSum(g: Grid, x: int, y: int, w: nat, h: nat): real
  {
    if h == 0 then 0.0 else BlockSum(g, x, y, w, h - 1) + RowSum(g, x, y + h - 1, w)
  }

  function Bin(g: Grid, b: nat): (r: Grid)
    requires b >= 1
    ensures Valid(r) && r.height == g.height / b && r.width == g.width / b
  {
    Tabulate(g.height / b, g.width / b, (tx: nat, ty: nat) => BlockSum(g, tx * b, ty * b, b, b))
  }

  function Crop(g: Grid, x: nat, y: nat, height: nat, width: nat): (r: Grid)
    ensures Valid(r) && r.height == height && r.width == width
  {
    Tabulate(height, width, (c: nat, r: nat) => At(g, c + x, r + y))
  }

  function Minus(a: Grid, b: Grid): (r: Grid)
    ensures Valid(r) && r.height == a.height && r.width == a.width
  {
    Tabulate(a.height, a.width, (x: nat, y: nat) => At(a, x, y) - At(b, x, y))
  }

  // ---------------------------------------------------------------- sums over blocks

  lemma {:induction false} RowSplit(g: Grid, x: int, y: int, m: nat, n: nat)
    ensures RowSum(g, x, y, m + n) == RowSum(g, x, y, m) + RowSum(g, x + m, y, n)
    decreases n
  {
    if n > 0 {
      RowSplit(g, x, y, m, n - 1);
    }
  }

  /** Blocks side by side. */
  lemma {:induction false} BlockBeside(g: Grid, x: int, y: int, m: nat, n: nat, h: nat)
    ensures BlockSum(g, x, y, m + n, h) == BlockSum(g, x, y, m, h) + BlockSum(g, x + m, y, n, h)
    decreases h
  {
    if h > 0 {
      BlockBeside(g, x, y, m, n, h - 1);
      RowSplit(g, x, y + h - 1, m, n);
    }
  }

  /** Blocks one below the other. */
  lemma {:induction false} BlockBelow(g: Grid, x: int, y: int, w: nat, m: nat, n: nat)
    ensures BlockSum(g, x, y, w, m + n) == BlockSum(g, x, y, w, m) + BlockSum(g, x, y + m, w, n)
    decreases n
  {
    if n > 0 {
      BlockBelow(g, x, y, w, m, n - 1);
    }
  }

  lemma {:induction false} BlockEmpty(g: Grid, x: int, y: int, h: nat)
    ensures BlockSum(g, x, y, 0, h) == 0.0
    decreases h
  {
    if h > 0 {
      BlockEmpty(g, x, y, h - 1);
    }
  }

  lemma Distribute(a: int, b: int, c: int)
    ensures (a + b) * c == a * c + b * c
  {
  }

  /** A row of binned pixels sums the block they came from. */
  lemma {:induction false} RowOfBins(g: Grid, b: nat, tx: nat, ty: nat, n: nat)
    requires b >= 1 && tx + n <= g.width / b && ty < g.height / b
    ensures RowSum(Bin(g, b), tx, ty, n) == BlockSum(g, tx * b, ty * b, n * b, b)
    decreases n
  {
    if n == 0 {
      BlockEmpty(g, tx * b, ty * b, b);
    } else {
      RowOfBins(g, b, tx, ty, n - 1);
      Distribute(n - 1, 1, b);
      Distribute(tx, n - 1, b);
      BlockBeside(g, tx * b, ty * b, (n - 1) * b, b, b);
    }
  }

  /** A block of binned pixels sums the block they came from. */
  lemma {:induction false} BlockOfBins(g: Grid, b: nat, tx: nat, ty: nat, n: nat, m: nat)
    requires b >= 1 && tx + n <= g.width / b && ty + m <= g.height / b
    ensures BlockSum(Bin(g, b), tx, ty, n, m) == BlockSum(g, tx * b, ty * b, n * b, m * b)
    decreases m
  {
    hide Bin, RowSum;
    if m > 0 {
      BlockOfBins(g, b, tx, ty, n, m - 1);
      RowOfBins(g, b, tx, ty + m - 1, n);
      Distribute(m - 1, 1, b);
      Distribute(ty, m - 1, b);
      BlockBelow(g, tx * b, ty * b, n * b, (m - 1) * b, b);
    }
  }

  function Total(g: Grid): real { BlockSum(g, 0, 0, g.width, g.height) }

  /** Binning conserves the pixel total of the usable area. */
  lemma BinConserves(g: Grid, b: nat)
    requires b >= 1
    ensures Total(Bin(g, b)) == BlockSum(g, 0, 0, (g.width / b) * b, (g.height / b) * b)
  {
    BlockOfBins(g, b, 0, 0, g.width / b, g.height / b);
  }

  // ---------------------------------------------------------------- binning twice

  lemma DivBounds(n: nat, b: nat)
    requires b >= 1
    ensures (n / b) * b <= n < (n / b) * b + b
  {
  }

  lemma MulMono(a: nat, c: nat, b: nat)
    requires a <= c
    ensures a * b <= c * b
  {
  }

  /** The quotient is the only number between these bounds. */
  lemma DivUnique(n: nat, b: nat, q: nat)
    requires b >= 1 && q * b <= n < q * b + b
    ensures n / b == q
  {
    DivBounds(n, b);
    if n / b < q {
      MulMono(n / b + 1, q, b);
      Distribute(n / b, 1, b);
    } else if q < n / b {
      MulMono(q + 1, n / b, b);
      Distribute(q, 1, b);
    }
  }

  lemma MulAssoc(a: nat, b: nat, c: nat)
    ensures a * b * c == a * (b * c) && a * b * c == (a * c) * b
  {
  }

  lemma NestedBounds(n: nat, a: nat, b: nat, p: nat, q: nat)
    requires p * a <= n < p * a + a && q * b <= p < q * b + b
    ensures q * (a * b) <= n < q * (a * b) + a * b
  {
    MulMono(q * b, p, a);
    MulAssoc(q, b, a);
    MulMono(p + 1, q * b + b, a);
    Distribute(p, 1, a);
    Distribute(q * b, b, a);
  }

  lemma DivDiv(n: nat, a: nat, b: nat)
    requires a >= 1 && b >= 1
    ensures a * b >= 1 && n / a / b == n / (a * b)
  {
    DivBounds(n, a);
    DivBounds(n / a, b);
    MulMono(1, b, a);
    NestedBounds(n, a, b, n / a, n / a / b);
    DivUnique(n, a * b, n / a / b);
  }

  lemma BinBinPixel(g: Grid, a: nat, b: nat, tx: nat, ty: nat)
    requires a >= 1 && b >= 1 && tx < g.width / a / b && ty < g.height / a / b
    ensures BlockSum(Bin(g, a), tx * b, ty * b, b, b) == BlockSum(g, tx * (a * b), ty * (a * b), a * b, a * b)
  {
    DivBounds(g.width / a, b);
    DivBounds(g.height / a, b);
    MulMono(tx + 1, g.width / a / b, b);
    MulMono(ty + 1, g.height / a / b, b);
    Distribute(tx, 1, b);
    Distribute(ty, 1, b);
    BlockOfBins(g, a, tx * b, ty * b, b, b);
    MulAssoc(tx, b, a);
    MulAssoc(ty, b, a);
  }

  /** Binning by a and then by b is binning by a times b. */
  lemma BinBin(g: Grid, a: nat, b: nat)
    requires a >= 1 && b >= 1
    ensures a * b >= 1 && Bin(Bin(g, a), b) == Bin(g, a * b)
  {
    DivDiv(g.height, a, b);
    DivDiv(g.width, a, b);
    forall tx: nat, ty: nat | tx < g.width / a / b && ty < g.height / a / b
      ensures Bin(Bin(g, a), b).rows[ty][tx] == Bin(g, a * b).rows[ty][tx]
    {
      BinBinPixel(g, a, b, tx, ty);
    }
    SameGrid(Bin(Bin(g, a), b), Bin(g, a * b));
  }

  lemma BinByOne(g: Grid)
    requires Valid(g)
    ensures Bin(g, 1) == g
  {
    forall tx: nat, ty: nat | tx < g.width && ty < g.height ensures Bin(g, 1).rows[ty][tx] == g.rows[ty][tx] {
      assert RowSum(g, tx, ty, 1) == RowSum(g, tx, ty, 0) + At(g, tx, ty);
      assert BlockSum(g, tx, ty, 1, 1) == BlockSum(g, tx, ty, 1, 0) + RowSum(g, tx, ty, 1);
    }
    SameGrid(Bin(g, 1), g);
  }

  // ---------------------------------------------------------------- binning and subtracting

  lemma {:induction false} RowMinusCrop(light: Grid, ref: Grid, dx: nat, dy: nat, x: nat, y: nat, n: nat)
    requires Valid(light) && x + n <= light.width && y < light.height
    ensures RowSum(Minus(light, Crop(ref, dx, dy, light.height, light.width)), x, y, n)
         == RowSum(light, x, y, n) - RowSum(ref, x + dx, y + dy, n)
    decreases n
  {
    if n > 0 {
      RowMinusCrop(light, ref, dx, dy, x, y, n - 1);
    }
  }

  lemma {:induction false} BlockMinusCrop(light: Grid, ref: Grid, dx: nat, dy: nat, x: nat, y: nat, n: nat, m: nat)
    requires Valid(light) && x + n <= light.width && y + m <= light.height
    ensures BlockSum(Minus(light, Crop(ref, dx, dy, light.height, light.width)), x, y, n, m)
         == BlockSum(light, x, y, n, m) - BlockSum(ref, x + dx, y + dy, n, m)
    decreases m
  {
    hide Minus, Crop, RowSum;
    if m > 0 {
      BlockMinusCrop(light, ref, dx, dy, x, y, n, m - 1);
      RowMinusCrop(light, ref, dx, dy, x, y + m - 1, n);
    }
  }

  /** Subtracting a cropped reference commutes with binning when the crop starts at a multiple
      of the binning factor and lies inside the reference. */
  lemma BinMinusCrop(light: Grid, ref: Grid, i: nat, j: nat, b: nat)
    requires b >= 1 && Valid(light) && Valid(ref)
    requires i * b + light.width <= ref.width && j * b + light.height <= ref.height
    ensures Bin(Minus(light, Crop(ref, i * b, j * b, light.height, light.width)), b)
         == Minus(Bin(light, b), Crop(Bin(ref, b), i, j, light.height / b, light.width / b))
  {
    hide Minus, Crop, Bin;
    var left := Minus(light, Crop(ref, i * b, j * b, light.height, light.width));
    var right := Minus(Bin(light, b), Crop(Bin(ref, b), i, j, light.height / b, light.width / b));
    forall tx: nat, ty: nat | tx < light.width / b && ty < light.height / b
      ensures Bin(left, b).rows[ty][tx] == right.rows[ty][tx]
    {
      BinMinusCropPixel(light, ref, i, j, b, tx, ty);
    }
    SameGrid(Bin(left, b), right);
  }

  lemma BinAt(g: Grid, b: nat, tx: nat, ty: nat)
    requires b >= 1 && tx < g.width / b && ty < g.height / b
    ensures At(Bin(g, b), tx, ty) == Bin(g, b).rows[ty][tx] == BlockSum(g, tx * b, ty * b, b, b)
  {
  }

  lemma MinusCropAt(a: Grid, r: Grid, x: nat, y: nat, tx: nat, ty: nat)
    requires Valid(a) && tx < a.width && ty < a.height
    ensures Minus(a, Crop(r, x, y, a.height, a.width)).rows[ty][tx] == At(a, tx, ty) - At(r, tx + x, ty + y)
  {
  }

  lemma BinMinusCropPixel(light: Grid, ref: Grid, i: nat, j: nat, b: nat, tx: nat, ty: nat)
    requires b >= 1 && Valid(light) && Valid(ref)
    requires i * b + light.width <= ref.width && j * b + light.height <= ref.height
    requires tx < light.width / b && ty < light.height / b
    ensures Bin(Minus(light, Crop(ref, i * b, j * b, light.height, light.width)), b).rows[ty][tx]
         == Minus(Bin(light, b), Crop(Bin(ref, b), i, j, light.height / b, light.width / b)).rows[ty][tx]
  {
    hide Minus, Crop, Bin, BlockSum;
    Inside(light.width, ref.width, i, b, tx);
    Inside(light.height, ref.height, j, b, ty);
    BinAt(Minus(light, Crop(ref, i * b, j * b, light.height, light.width)), b, tx, ty);
    BlockMinusCrop(light, ref, i * b, j * b, tx * b, ty * b, b, b);
    MinusCropAt(Bin(light, b), Bin(ref, b), i, j, tx, ty);
    BinAt(light, b, tx, ty);
    BinAt(ref, b, tx + i, ty + j);
    Distribute(tx, i, b);
    Distribute(ty, j, b);
  }

  lemma Inside(n: nat, refN: nat, i: nat, b: nat, t: nat)
    requires b >= 1 && t < n / b && i * b + n <= refN
    ensures 0 <= t * b && t * b + b <= n && t + i < refN / b
  {
    DivBounds(n, b);
    MulMono(t + 1, n / b, b);
    Distribute(t, 1, b);
    DivBounds(refN, b);
    if refN / b <= t + i {
      MulMono(refN / b, t + i, b);
      Distribute(t, i, b);
    }
  }
}

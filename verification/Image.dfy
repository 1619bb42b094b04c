/** Image: a pixel buffer with the header keywords that steer binning and subtraction. */
module Images {
  import opened Pixels
  import opened Wrappers

  type Positive = b: int | b >= 1 witness 1

  /** The BINNING keyword, and FRAMEX with FRAMEY, where the header has them. */
  datatype Info = Info(binning: Option<Positive>, origin: Option<(nat, nat)>)

  datatype Frame = Frame(grid: Grid, info: Option<Info>)

  function BinningOf(f: Frame): Positive
  {
    if f.info.Some? && f.info.value.binning.Some? then f.info.value.binning.value else 1
  }

  predicate HasOrigin(f: Frame) { f.info.Some? && f.info.value.origin.Some? }

  /** Image::bin; None is the null pointer it returns for a bad factor or a missing header. */
  function Binned(f: Frame, b: int): Option<Frame>
  {
    if b < 1 || b > 8 || f.info.None? then None
    else Some(Frame(Bin(f.grid, b), Some(f.info.value.(binning := Some(Times(BinningOf(f), b))))))
  }

  function Times(a: Positive, b: Positive): Positive
  {
    assert a * b >= 1 by { MulMono(1, a, b); }
    a * b
  }

  /** Mismatch leaves the image as it was; Crash is a use of bin's null pointer. */
  datatype Subtraction = Subtracted(grid: Grid) | Mismatch | Crash

  /** Image::subtract */
  function Subtract(f: Frame, ref: Frame): Subtraction
  {
    var b := BinningOf(f);
    if BinningOf(ref) == b then SubtractAligned(f, ref)
    else if BinningOf(ref) == 1 then
      match Binned(ref, b)
      case None => Crash
      case Some(binned) => SubtractAligned(f, binned)
    else Mismatch
  }

  /** Subtraction once both have the binning of f; the source may be larger and is then cropped. */
  function SubtractAligned(f: Frame, source: Frame): Subtraction
  {
    if source.grid.height == f.grid.height && source.grid.width == f.grid.width then
      Subtracted(Minus(f.grid, source.grid))
    else if HasOrigin(f) && HasOrigin(source) && Covers(source, f, BinningOf(f)) then
      var (dx, dy) := Offset(source, f, BinningOf(f));
      Subtracted(Minus(f.grid, Crop(source.grid, dx, dy, f.grid.height, f.grid.width)))
    else Mismatch
  }

  function Scaled(f: Frame, b: Positive): (nat, nat)
    requires HasOrigin(f)
  {
    (f.info.value.origin.value.0 / b, f.info.value.origin.value.1 / b)
  }

  predicate Covers(source: Frame, f: Frame, b: Positive)
    requires HasOrigin(f) && HasOrigin(source)
  {
    var (x, y) := Scaled(f, b);
    var (sx, sy) := Scaled(source, b);
    sx <= x && sy <= y && sx + source.grid.width >= x + f.grid.width && sy + source.grid.height >= y + f.grid.height
  }

  function Offset(source: Frame, f: Frame, b: Positive): (nat, nat)
    requires HasOrigin(f) && HasOrigin(source) && Covers(source, f, b)
  {
    (Scaled(f, b).0 - Scaled(source, b).0, Scaled(f, b).1 - Scaled(source, b).1)
  }

  // ---------------------------------------------------------------- calibration and binning

  /** An unbinned frame that knows where on the sensor it lies. */
  predicate Unbinned(f: Frame) { Valid(f.grid) && HasOrigin(f) && BinningOf(f) == 1 }

  /** The two origins leave the same remainders, so blocks of b line up on the sensor. */
  predicate LinedUp(f: Frame, ref: Frame, b: Positive)
    requires HasOrigin(f) && HasOrigin(ref)
  {
    && f.info.value.origin.value.0 % b == ref.info.value.origin.value.0 % b
    && f.info.value.origin.value.1 % b == ref.info.value.origin.value.1 % b
  }

  lemma OffsetInBlocks(x: nat, rx: nat, b: nat, n: nat, refN: nat)
    requires b >= 1 && rx <= x && x % b == rx % b && rx + refN >= x + n
    ensures x / b >= rx / b && x - rx == (x / b - rx / b) * b
    ensures rx / b + refN / b >= x / b + n / b
  {
    var i := x / b - rx / b;
    assert x == (x / b) * b + x % b && rx == (rx / b) * b + rx % b;
    Distribute(x / b - rx / b, rx / b, b);
    if n / b > 0 {
      DivBounds(n, b);
      Inside(n, refN, i, b, n / b - 1);
    } else {
      DivBounds(refN, b);
      if refN / b < i {
        MulMono(refN / b + 1, i, b);
        Distribute(refN / b, 1, b);
      }
    }
  }

  /** The subtraction that subtract works out, in terms of the offset on the sensor. */
  lemma AlignedCrop(f: Frame, source: Frame, b: Positive)
    requires Valid(f.grid) && Valid(source.grid) && HasOrigin(f) && HasOrigin(source)
    requires BinningOf(f) == b && Covers(source, f, b)
    ensures var (dx, dy) := Offset(source, f, b);
            SubtractAligned(f, source)
            == Subtracted(Minus(f.grid, Crop(source.grid, dx, dy, f.grid.height, f.grid.width)))
  {
    if source.grid.height == f.grid.height && source.grid.width == f.grid.width {
      SameGrid(Minus(f.grid, source.grid), Minus(f.grid, Crop(source.grid, 0, 0, f.grid.height, f.grid.width)));
    }
  }

  /** Calibrating and binning commute: the binned difference is the difference subtract works
      out from the binned light frame, for which it bins and crops the reference itself. */
  lemma CalibrationCommutes(light: Frame, ref: Frame, b: int)
    requires 1 <= b <= 8 && Unbinned(light) && Unbinned(ref)
    requires Covers(ref, light, 1) && LinedUp(light, ref, b)
    ensures Subtract(light, ref).Subtracted?
    ensures var difference := light.(grid := Subtract(light, ref).grid);
            && Binned(difference, b).Some? && Binned(light, b).Some?
            && Subtract(Binned(light, b).value, ref) == Subtracted(Binned(difference, b).value.grid)
  {
    hide Minus, Crop, Bin;
    var (x, y) := light.info.value.origin.value;
    var (rx, ry) := ref.info.value.origin.value;
    OffsetInBlocks(x, rx, b, light.grid.width, ref.grid.width);
    OffsetInBlocks(y, ry, b, light.grid.height, ref.grid.height);
    AlignedCrop(light, ref, 1);
    BinMinusCrop(light.grid, ref.grid, x / b - rx / b, y / b - ry / b, b);
    var binned := Binned(light, b).value;
    var source := Binned(ref, b).value;
    assert BinningOf(binned) == b;
    AlignedCrop(binned, source, b);
    BinByOne(ref.grid);
    if b == 1 {
      AlignedCrop(binned, ref, 1);
    }
  }

  // ---------------------------------------------------------------- when images are subtracted

  /** The reference has the frame's binning, or none yet and can be given it. */
  predicate Matchable(f: Frame, ref: Frame)
  {
    BinningOf(ref) == BinningOf(f) || (BinningOf(ref) == 1 && ref.info.Some? && BinningOf(f) <= 8)
  }

  /** The reference should be binned but cannot be. */
  predicate Unbinnable(f: Frame, ref: Frame)
  {
    BinningOf(ref) == 1 && BinningOf(f) != 1 && (ref.info.None? || BinningOf(f) > 8)
  }

  /** How many pixels of the reference, along each side, meet one pixel of the frame. */
  function Share(f: Frame, ref: Frame): Positive
  {
    if BinningOf(ref) == BinningOf(f) then 1 else BinningOf(f)
  }

  predicate SameSize(f: Frame, ref: Frame)
  {
    var k := Share(f, ref);
    ref.grid.height / k == f.grid.height && ref.grid.width / k == f.grid.width
  }

  /** On the sensor, in pixels of the frame's binning, the frame lies within the reference. */
  predicate Within(f: Frame, ref: Frame)
  {
    f.info.Some? && ref.info.Some? &&
    match (f.info.value.origin, ref.info.value.origin)
    case (Some((x, y)), Some((rx, ry))) =>
      var b, k := BinningOf(f), Share(f, ref);
      && rx / b <= x / b && x / b + f.grid.width <= rx / b + ref.grid.width / k
      && ry / b <= y / b && y / b + f.grid.height <= ry / b + ref.grid.height / k
    case _ => false
  }

  /** Where the frame's first pixel lies on the reference, in the same pixels. */
  function Place(f: Frame, ref: Frame): (nat, nat)
    requires SameSize(f, ref) || Within(f, ref)
  {
    if SameSize(f, ref) then (0, 0)
    else
      var (x, y), (rx, ry) := f.info.value.origin.value, ref.info.value.origin.value;
      var b := BinningOf(f);
      (x / b - rx / b, y / b - ry / b)
  }

  /** The frame after the subtraction: every pixel loses the block of the reference it lies on. */
  ghost predicate Darkened(g: Grid, f: Frame, ref: Frame)
    requires Pixels.Valid(f.grid) && (SameSize(f, ref) || Within(f, ref))
  {
    var (dx, dy) := Place(f, ref);
    var k := Share(f, ref);
    && Pixels.Valid(g) && g.height == f.grid.height && g.width == f.grid.width
    && forall y: nat, x: nat :: y < g.height && x < g.width ==>
         g.rows[y][x] == f.grid.rows[y][x] - BlockSum(ref.grid, (x + dx) * k, (y + dy) * k, k, k)
  }

  lemma PixelBlock(g: Grid, x: nat, y: nat)
    ensures BlockSum(g, x * 1, y * 1, 1, 1) == At(g, x, y)
  {
    assert RowSum(g, x, y, 1) == RowSum(g, x, y, 0) + At(g, x, y);
    assert BlockSum(g, x, y, 1, 1) == BlockSum(g, x, y, 1, 0) + RowSum(g, x, y, 1);
  }

  /** The reference itself, or binned as the frame is. */
  predicate Brought(f: Frame, ref: Frame, source: Frame)
  {
    if BinningOf(ref) == BinningOf(f) then source == ref else Some(source) == Binned(ref, BinningOf(f))
  }

  /** The reference at the frame's binning, pixel by pixel. */
  lemma BroughtPixel(f: Frame, ref: Frame, source: Frame, x: nat, y: nat)
    requires Pixels.Valid(ref.grid)
    requires Brought(f, ref, source)
    requires x < source.grid.width && y < source.grid.height
    ensures At(source.grid, x, y)
         == BlockSum(ref.grid, x * Share(f, ref), y * Share(f, ref), Share(f, ref), Share(f, ref))
  {
    hide BlockSum, RowSum;
    if BinningOf(ref) == BinningOf(f) {
      PixelBlock(ref.grid, x, y);
    } else {
      BinAt(ref.grid, BinningOf(f), x, y);
    }
  }

  lemma AlignedPlace(f: Frame, ref: Frame, source: Frame)
    requires Brought(f, ref, source)
    ensures match SubtractAligned(f, source)
            case Subtracted(g) =>
              && (SameSize(f, ref) || Within(f, ref))
              && var (dx, dy) := Place(f, ref);
                 g == if SameSize(f, ref) then Minus(f.grid, source.grid)
                      else Minus(f.grid, Crop(source.grid, dx, dy, f.grid.height, f.grid.width))
            case Mismatch => !SameSize(f, ref) && !Within(f, ref)
            case Crash => false
  {
    hide Minus, Crop, Bin;
  }

  /** One pixel of the difference. */
  lemma AlignedPixel(f: Frame, ref: Frame, source: Frame, x: nat, y: nat)
    requires Pixels.Valid(f.grid) && Pixels.Valid(ref.grid) && Brought(f, ref, source)
    requires SameSize(f, ref) || Within(f, ref)
    requires x < f.grid.width && y < f.grid.height
    ensures var (dx, dy), k := Place(f, ref), Share(f, ref);
            && SubtractAligned(f, source).Subtracted?
            && SubtractAligned(f, source).grid.rows[y][x]
               == f.grid.rows[y][x] - BlockSum(ref.grid, (x + dx) * k, (y + dy) * k, k, k)
  {
    hide BlockSum, Bin, SubtractAligned, Place, SameSize, Within, Share;
    AlignedPlace(f, ref, source);
    var (dx, dy) := Place(f, ref);
    PlaceInside(f, ref, source, x, y);
    BroughtPixel(f, ref, source, x + dx, y + dy);
  }

  lemma AlignedDarkened(f: Frame, ref: Frame, source: Frame)
    requires Pixels.Valid(f.grid) && Pixels.Valid(ref.grid) && Brought(f, ref, source)
    ensures match SubtractAligned(f, source)
            case Subtracted(g) => (SameSize(f, ref) || Within(f, ref)) && Darkened(g, f, ref)
            case Mismatch => !SameSize(f, ref) && !Within(f, ref)
            case Crash => false
  {
    hide BlockSum, Bin, SubtractAligned, Place, SameSize, Within, Share, Minus, Crop, Brought;
    AlignedPlace(f, ref, source);
    if SameSize(f, ref) || Within(f, ref) {
      var g := SubtractAligned(f, source).grid;
      var (dx, dy) := Place(f, ref);
      var k := Share(f, ref);
      forall y: nat, x: nat | y < g.height && x < g.width
        ensures g.rows[y][x] == f.grid.rows[y][x] - BlockSum(ref.grid, (x + dx) * k, (y + dy) * k, k, k)
      {
        AlignedPixel(f, ref, source, x, y);
      }
    }
  }

  lemma PlaceInside(f: Frame, ref: Frame, source: Frame, x: nat, y: nat)
    requires Brought(f, ref, source) && (SameSize(f, ref) || Within(f, ref))
    requires x < f.grid.width && y < f.grid.height
    ensures var (dx, dy) := Place(f, ref); x + dx < source.grid.width && y + dy < source.grid.height
    ensures SameSize(f, ref) ==> Place(f, ref) == (0, 0)
  {
  }

  /** For any two frames: the subtraction happens if and only if the reference has the frame's
      binning or can be given it, and then has its size or surrounds it on the sensor; every
      pixel then loses what the reference has in its place. */
  lemma SubtractExact(f: Frame, ref: Frame)
    requires Pixels.Valid(f.grid) && Pixels.Valid(ref.grid)
    ensures Subtract(f, ref).Crash? <==> Unbinnable(f, ref)
    ensures Subtract(f, ref).Subtracted? <==> Matchable(f, ref) && (SameSize(f, ref) || Within(f, ref))
    ensures Subtract(f, ref).Subtracted? ==> Darkened(Subtract(f, ref).grid, f, ref)
  {
    hide Darkened, SubtractAligned, Bin;
    if BinningOf(ref) == BinningOf(f) {
      AlignedDarkened(f, ref, ref);
    } else if Matchable(f, ref) {
      AlignedDarkened(f, ref, Binned(ref, BinningOf(f)).value);
    }
  }

  /** An image without the keyword counts as unbinned: binning it sets the keyword to the factor,
      and as a reference it serves frames of any binning it can be given. */
  lemma BinnedFirst(f: Frame, b: int)
    requires 1 <= b <= 8 && f.info.Some? && f.info.value.binning.None?
    ensures Binned(f, b).Some? && Binned(f, b).value.info == Some(f.info.value.(binning := Some(b)))
    ensures forall light: Frame :: BinningOf(light) == b ==> Matchable(light, f) && Share(light, f) == b
    ensures forall bare: Frame :: bare.info.None? ==> (Matchable(bare, f) && Share(bare, f) == 1)
  {
  }

  /** Binning twice is binning once by the product, header included. */
  lemma BinnedTwice(f: Frame, a: int, b: int)
    requires 1 <= a && 1 <= b && a * b <= 8 && f.info.Some?
    ensures Binned(f, a).Some? && Binned(Binned(f, a).value, b) == Binned(f, a * b)
  {
    MulMono(1, b, a);
    MulMono(1, a, b);
    BinBin(f.grid, a, b);
    MulAssoc(BinningOf(f), a, b);
  }

  // ---------------------------------------------------------------- the buffer

  class Image {
    var pixels: array2<real>
    var info: Option<Info>
    ghost var grid: Grid

    ghost predicate Valid()
      reads this, pixels
    {
      && Pixels.Valid(grid) && pixels.Length0 == grid.height && pixels.Length1 == grid.width
      && forall y, x :: 0 <= y < grid.height && 0 <= x < grid.width ==> pixels[y, x] == grid.rows[y][x]
    }

    ghost function View(): Frame
      reads this
    {
      Frame(grid, info)
    }

    constructor (height: nat, width: nat)
      ensures Valid() && fresh(pixels) && info == None
      ensures grid == Tabulate(height, width, (x: nat, y: nat) => 0.0)
    {
      pixels := new real[height, width]((y, x) => 0.0);
      info := None;
      grid := Tabulate(height, width, (x: nat, y: nat) => 0.0);
    }

    /** Adds row y to the row of blocks it belongs to. */
    method BinRow(target: Image, y: nat, binning: nat)
      requires Valid() && target.pixels != pixels && binning >= 1
      requires target.pixels.Length1 == grid.width / binning
      requires y < (grid.height / binning) * binning && target.pixels.Length0 == grid.height / binning
      modifies target.pixels
      ensures forall ty, tx :: 0 <= ty < target.pixels.Length0 && 0 <= tx < target.pixels.Length1 ==>
                target.pixels[ty, tx] == old(target.pixels[ty, tx])
                  + (if ty == y / binning then RowSum(grid, tx * binning, y, binning) else 0.0)
    {
      hide Partial, RowSum, At;
      var tgtY := y / binning;
      RowInside(y, grid.height, binning);
      var usableWidth := (pixels.Length1 / binning) * binning;
      DivBounds(grid.width, binning);
      PartialNone(grid, y, binning);
      for x := 0 to usableWidth
        invariant forall ty, tx :: 0 <= ty < target.pixels.Length0 && 0 <= tx < target.pixels.Length1 && ty != tgtY ==>
                    target.pixels[ty, tx] == old(target.pixels[ty, tx])
        invariant forall tx :: 0 <= tx < target.pixels.Length1 ==>
                    target.pixels[tgtY, tx] == old(target.pixels[tgtY, tx]) + Partial(grid, tx, x, y, binning)
      {
        var tgtX := x / binning;
        RowInside(x, grid.width, binning);
        PartialStep(grid, x, y, binning);
        AtPixel(grid, x, y);
        target.pixels[tgtY, tgtX] := target.pixels[tgtY, tgtX] + pixels[y, x];
      }
      PartialAll(grid, y, binning, usableWidth);
    }

    /** The pixel loop of bin, into an image of zeros. */
    method BinPixels(target: Image, binning: nat)
      requires Valid() && target.pixels != pixels && binning >= 1
      requires target.pixels.Length0 == grid.height / binning && target.pixels.Length1 == grid.width / binning
      requires forall ty, tx :: 0 <= ty < target.pixels.Length0 && 0 <= tx < target.pixels.Length1 ==>
                 target.pixels[ty, tx] == 0.0
      modifies target.pixels
      ensures forall ty, tx :: 0 <= ty < target.pixels.Length0 && 0 <= tx < target.pixels.Length1 ==>
                target.pixels[ty, tx] == BlockSum(grid, tx * binning, ty * binning, binning, binning)
    {
      hide Pixels.Bin, BlockSum, RowSum, Done;
      var tgtHeight := pixels.Length0 / binning;
      var usableHeight := tgtHeight * binning;
      forall ty: nat, tx: nat ensures BlockSum(grid, tx * binning, ty * binning, binning, Done(ty, 0, binning)) == 0.0 {
        BlockDoneNone(grid, tx, ty, binning);
      }
      for y := 0 to usableHeight
        invariant forall ty, tx :: 0 <= ty < target.pixels.Length0 && 0 <= tx < target.pixels.Length1 ==>
                    target.pixels[ty, tx] == BlockSum(grid, tx * binning, ty * binning, binning, Done(ty, y, binning))
      {
        BinRow(target, y, binning);
        forall ty, tx | 0 <= ty < target.pixels.Length0 && 0 <= tx < target.pixels.Length1
          ensures target.pixels[ty, tx]
               == BlockSum(grid, tx * binning, ty * binning, binning, Done(ty, y + 1, binning))
        {
          BlockDoneStep(grid, tx, ty, y, binning);
        }
      }
      forall ty: nat | ty < tgtHeight ensures Done(ty, usableHeight, binning) == binning {
        DoneAll(ty, tgtHeight, binning);
      }
    }

    /** Image::bin */
    method Bin(binning: int) returns (r: Image?)
      requires Valid()
      ensures r == null <==> Binned(View(), binning).None?
      ensures r != null ==> fresh(r) && fresh(r.pixels) && r.Valid() && r.View() == Binned(View(), binning).value
    {
      hide Pixels.Bin, BlockSum;
      if binning < 1 || binning > 8 {
        return null;
      }
      var i := new Image(pixels.Length0 / binning, pixels.Length1 / binning);
      if info.None? {
        return null;
      }
      BinPixels(i, binning);
      ghost var goal := Pixels.Bin(grid, binning);
      forall ty: nat, tx: nat | ty < goal.height && tx < goal.width
        ensures goal.rows[ty][tx] == BlockSum(grid, tx * binning, ty * binning, binning, binning)
      {
        BinAt(grid, binning, tx, ty);
      }
      var oldBinning := if info.value.binning.Some? then info.value.binning.value else 1;
      i.info := Some(info.value.(binning := Some(Times(oldBinning, binning))));
      i.grid := goal;
      r := i;
    }

    method CreateSubImage(boxBottomY: nat, boxLeftX: nat, boxHeight: nat, boxWidth: nat) returns (r: Image)
      requires Valid()
      requires boxLeftX + boxWidth <= grid.width && boxBottomY + boxHeight <= grid.height
      ensures fresh(r) && fresh(r.pixels) && r.Valid()
      ensures r.View() == Frame(Crop(grid, boxLeftX, boxBottomY, boxHeight, boxWidth), None)
    {
      hide Crop, At;
      r := new Image(boxHeight, boxWidth);
      ghost var goal := Crop(grid, boxLeftX, boxBottomY, boxHeight, boxWidth);
      var px := r.pixels;
      for row := 0 to boxHeight
        invariant r.pixels == px && forall y, x :: 0 <= y < row && 0 <= x < boxWidth ==> px[y, x] == goal.rows[y][x]
      {
        for col := 0 to boxWidth
          invariant r.pixels == px && forall y, x :: 0 <= y < row && 0 <= x < boxWidth ==> px[y, x] == goal.rows[y][x]
          invariant forall x :: 0 <= x < col ==> px[row, x] == goal.rows[row][x]
        {
          CropPixel(grid, boxLeftX, boxBottomY, boxHeight, boxWidth, col, row);
          px[row, col] := pixels[row + boxBottomY, col + boxLeftX];
        }
      }
      r.grid := goal;
      r.info := None;
    }

    /** The pixel loop of subtract; the source may be this very image. */
    method SubtractPixels(source: Image)
      requires Valid() && source.Valid()
      requires source.grid.height == grid.height && source.grid.width == grid.width
      modifies this`grid, pixels
      ensures Valid() && View() == old(View()).(grid := Minus(old(grid), old(source.grid)))
    {
      hide Minus, At;
      ghost var a, b := grid, source.grid;
      ghost var goal := Minus(a, b);
      MinusPixels(a, b);
      var height, width := pixels.Length0, pixels.Length1;
      for row := 0 to height
        invariant forall y, x :: 0 <= y < row && 0 <= x < width ==> pixels[y, x] == goal.rows[y][x]
        invariant forall y, x :: row <= y < height && 0 <= x < width ==>
                    pixels[y, x] == a.rows[y][x] && source.pixels[y, x] == b.rows[y][x]
      {
        for col := 0 to width
          invariant forall y, x :: 0 <= y < row && 0 <= x < width ==> pixels[y, x] == goal.rows[y][x]
          invariant forall y, x :: row < y < height && 0 <= x < width ==>
                      pixels[y, x] == a.rows[y][x] && source.pixels[y, x] == b.rows[y][x]
          invariant forall x :: 0 <= x < col ==> pixels[row, x] == goal.rows[row][x]
          invariant forall x :: col <= x < width ==>
                      pixels[row, x] == a.rows[row][x] && source.pixels[row, x] == b.rows[row][x]
        {
          pixels[row, col] := pixels[row, col] - source.pixels[row, col];
        }
      }
      grid := goal;
    }

    /** The part of the source that subtract uses, or null when the two do not match. */
    method Aligned(source: Image, binning: Positive) returns (r: Image?)
      requires Valid() && source.Valid() && binning == BinningOf(View())
      ensures r == null <==> SubtractAligned(View(), source.View()).Mismatch?
      ensures r != null ==> r.Valid() && r.grid.height == grid.height && r.grid.width == grid.width
                            && SubtractAligned(View(), source.View()) == Subtracted(Minus(grid, r.grid))
    {
      hide Minus, Crop, Pixels.Bin;
      if source.pixels.Length0 == pixels.Length0 && source.pixels.Length1 == pixels.Length1 {
        return source;
      }
      if info.None? || info.value.origin.None? || source.info.None? || source.info.value.origin.None? {
        return null;
      }
      var thisX0, thisY0 := info.value.origin.value.0 / binning, info.value.origin.value.1 / binning;
      var iX0, iY0 := source.info.value.origin.value.0 / binning, source.info.value.origin.value.1 / binning;
      if iX0 <= thisX0 && iY0 <= thisY0 && iX0 + source.pixels.Length1 >= thisX0 + pixels.Length1
         && iY0 + source.pixels.Length0 >= thisY0 + pixels.Length0 {
        r := source.CreateSubImage(thisY0 - iY0, thisX0 - iX0, pixels.Length0, pixels.Length1);
      } else {
        r := null;
      }
    }

    /** Image::subtract; the image is left as it was when the two cannot be matched, and when the
        program ends on the null pointer of an image that could not be binned. */
    method SubtractImage(i: Image) returns (crashed: bool)
      requires Valid() && i.Valid()
      modifies this`grid, pixels
      ensures Valid() && crashed == Unbinnable(old(View()), old(i.View()))
      ensures var f, ref := old(View()), old(i.View());
              if Matchable(f, ref) && (SameSize(f, ref) || Within(f, ref))
              then info == f.info && Darkened(grid, f, ref)
              else View() == f
    {
      hide Minus, Crop, Pixels.Bin, SubtractAligned, Darkened;
      SubtractExact(View(), i.View());
      var thisBinning := if info.Some? && info.value.binning.Some? then info.value.binning.value else 1;
      var iBinning := if i.info.Some? && i.info.value.binning.Some? then i.info.value.binning.value else 1;
      var source := i;
      if iBinning != thisBinning {
        if iBinning != 1 {
          return false;
        }
        var binned := i.Bin(thisBinning);
        if binned == null {
          return true;
        }
        source := binned;
      }
      crashed := false;
      var aligned := Aligned(source, thisBinning);
      if aligned != null {
        SubtractPixels(aligned);
      }
    }
  }

  lemma CropPixel(g: Grid, x0: nat, y0: nat, height: nat, width: nat, x: nat, y: nat)
    requires Pixels.Valid(g) && x0 + width <= g.width && y0 + height <= g.height && x < width && y < height
    ensures Crop(g, x0, y0, height, width).rows[y][x] == g.rows[y + y0][x + x0]
  {
    assert Crop(g, x0, y0, height, width).rows[y][x] == At(g, x + x0, y + y0);
  }

  lemma MinusPixels(a: Grid, b: Grid)
    requires Pixels.Valid(a) && Pixels.Valid(b) && a.height == b.height && a.width == b.width
    ensures var r := Minus(a, b);
            forall y, x :: 0 <= y < a.height && 0 <= x < a.width ==> r.rows[y][x] == a.rows[y][x] - b.rows[y][x]
  {
  }

  /** What block tx of row y holds once the columns before x have been added. */
  ghost function Partial(g: Grid, tx: nat, x: nat, y: nat, b: nat): real { RowSum(g, tx * b, y, Done(tx, x, b)) }

  lemma PartialNone(g: Grid, y: nat, b: nat)
    ensures forall tx: nat :: Partial(g, tx, 0, y, b) == 0.0
  {
    forall tx: nat ensures Partial(g, tx, 0, y, b) == 0.0 {
      RowDoneNone(g, tx, y, b);
    }
  }

  lemma PartialStep(g: Grid, x: nat, y: nat, b: nat)
    requires b >= 1
    ensures forall tx: nat ::
              Partial(g, tx, x + 1, y, b) == Partial(g, tx, x, y, b) + if tx == x / b then At(g, x, y) else 0.0
  {
    forall tx: nat
      ensures Partial(g, tx, x + 1, y, b) == Partial(g, tx, x, y, b) + if tx == x / b then At(g, x, y) else 0.0
    {
      RowDoneStep(g, tx, x, y, b);
    }
  }

  lemma PartialAll(g: Grid, y: nat, b: nat, width: nat)
    requires b >= 1 && width == (g.width / b) * b
    ensures forall tx: nat :: tx < g.width / b ==> Partial(g, tx, width, y, b) == RowSum(g, tx * b, y, b)
  {
    forall tx: nat | tx < g.width / b ensures Partial(g, tx, width, y, b) == RowSum(g, tx * b, y, b) {
      DoneAll(tx, g.width / b, b);
    }
  }

  lemma BlockDoneNone(g: Grid, tx: nat, ty: nat, b: nat)
    ensures BlockSum(g, tx * b, ty * b, b, Done(ty, 0, b)) == 0.0
  {
  }

  lemma BlockDoneStep(g: Grid, tx: nat, ty: nat, y: nat, b: nat)
    requires b >= 1
    ensures BlockSum(g, tx * b, ty * b, b, Done(ty, y + 1, b))
         == BlockSum(g, tx * b, ty * b, b, Done(ty, y, b)) + (if ty == y / b then RowSum(g, tx * b, y, b) else 0.0)
  {
    hide Done;
    DoneStep(ty, y, b);
  }

  /** How many columns of block tx lie before column x. */
  function Done(tx: nat, x: nat, b: nat): nat
  {
    if x <= tx * b then 0 else if x >= tx * b + b then b else x - tx * b
  }

  lemma DoneStep(tx: nat, x: nat, b: nat)
    requires b >= 1
    ensures Done(tx, x + 1, b) == Done(tx, x, b) + (if tx == x / b then 1 else 0)
    ensures tx == x / b ==> Done(tx, x, b) == x - tx * b
  {
    DivBounds(x, b);
    if tx < x / b {
      MulMono(tx + 1, x / b, b);
      Distribute(tx, 1, b);
    } else if tx > x / b {
      MulMono(x / b + 1, tx, b);
      Distribute(x / b, 1, b);
    }
  }

  lemma RowDoneStep(g: Grid, tx: nat, x: nat, y: nat, b: nat)
    requires b >= 1
    ensures RowSum(g, tx * b, y, Done(tx, x + 1, b))
         == RowSum(g, tx * b, y, Done(tx, x, b)) + (if tx == x / b then At(g, x, y) else 0.0)
  {
    hide Done;
    DoneStep(tx, x, b);
  }

  lemma RowDoneNone(g: Grid, tx: nat, y: nat, b: nat)
    ensures RowSum(g, tx * b, y, Done(tx, 0, b)) == 0.0
  {
  }

  lemma DoneAll(tx: nat, n: nat, b: nat)
    requires tx < n
    ensures Done(tx, n * b, b) == b
  {
    MulMono(tx + 1, n, b);
    Distribute(tx, 1, b);
  }

  lemma AtPixel(g: Grid, x: nat, y: nat)
    requires Pixels.Valid(g) && x < g.width && y < g.height
    ensures At(g, x, y) == g.rows[y][x]
  {
  }

  lemma RowInside(y: nat, n: nat, b: nat)
    requires b >= 1 && y < (n / b) * b
    ensures y / b < n / b && y < n
  {
  }
}

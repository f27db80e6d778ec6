/** Where an image placement lands in its pane: `clipped_placement` and `scale_pixels` of
    `src/kitty_graphics.rs`, in 32-bit arithmetic. */
module Clipping {
  import opened Bytes

  const U32_MAX := 0xffff_ffff
  const U16_MAX := 0xffff

  type u16 = n: int | 0 <= n <= U16_MAX
  type u32 = n: int | 0 <= n <= U32_MAX
  type i32 = n: int | -0x8000_0000 <= n <= 0x7fff_ffff

  function Min(a: int, b: int): int { if a <= b then a else b }
  function Max(a: int, b: int): int { if a >= b then a else b }

  function SaturatingMul(a: u32, b: u32): u32 {
    Product(a, b);
    Min(a * b, U32_MAX)
  }

  lemma Product(a: nat, b: nat)
    ensures 0 <= a * b
  {
  }

  function SaturatingSub(a: u32, b: u32): u32 { Max(a - b, 0) }
  function WrappingAdd(a: u32, b: u32): u32 { (a + b) % (U32_MAX + 1) }

  /** `saturating_neg` of a negative `i32`, and 0 for the others: cells clipped on the near side. */
  function ClippedCells(viewport: i32): u32 {
    if viewport < 0 then Min(-(viewport as int), 0x7fff_ffff) else 0
  }

  /** `scale_pixels` */
  function ScalePixels(value: u32, source: u32, dest: u32): u32 {
    Product(value, source);
    Min(value * source / Max(dest, 1), U32_MAX)
  }

  // --- One axis ---

  /** What `clipped_placement` reads about one axis. `sourceLen` is the requested window, 0 for the whole image. */
  datatype Axis = Axis(areaStart: u16, areaLen: u16, viewport: i32, grid: u32, cell: u32,
                       pixels: u32, sourceStart: u32, sourceLen: u32, imageLen: u32)
  {
    function Requested(): u32 { if sourceLen == 0 then imageLen else sourceLen }

    /** Pixels the whole grid stands for. */
    function Extent(): u32 { Max(Max(pixels, SaturatingMul(grid, cell)), 1) }

    function Offset(): u32 { Max(viewport, 0) }

    function VisibleCells(): u32 {
      if Offset() >= areaLen then 0 else Min(SaturatingSub(grid, ClippedCells(viewport)), areaLen - Offset())
    }

    function SourceStart(): u32 {
      WrappingAdd(sourceStart, ScalePixels(SaturatingMul(ClippedCells(viewport), cell), Requested(), Extent()))
    }

    function SourceLen(): u32 {
      Min(Max(ScalePixels(SaturatingMul(VisibleCells(), cell), Requested(), Extent()), 1),
          SaturatingSub(imageLen, SourceStart()))
    }

    predicate Visible() {
      areaLen > 0 && grid > 0 && VisibleCells() > 0 && SourceLen() > 0
    }

    function Start(): u16 { (areaStart + Offset()) % (U16_MAX + 1) }
  }

  datatype CellSize = CellSize(widthPx: u32, heightPx: u32)
  datatype Rect = Rect(x: u16, y: u16, width: u16, height: u16)

  datatype Render = Render(pixelWidth: u32, pixelHeight: u32, gridCols: u32, gridRows: u32,
                           viewportCol: i32, viewportRow: i32,
                           sourceX: u32, sourceY: u32, sourceWidth: u32, sourceHeight: u32)

  datatype Clipped = Clipped(x: u16, y: u16, cols: u32, rows: u32,
                             sourceX: u32, sourceY: u32, sourceWidth: u32, sourceHeight: u32,
                             xOffset: u32, yOffset: u32)

  function Horizontal(area: Rect, cell: CellSize, r: Render, imageWidth: u32): Axis {
    Axis(area.x, area.width, r.viewportCol, r.gridCols, cell.widthPx, r.pixelWidth, r.sourceX, r.sourceWidth,
         imageWidth)
  }

  function Vertical(area: Rect, cell: CellSize, r: Render, imageHeight: u32): Axis {
    Axis(area.y, area.height, r.viewportRow, r.gridRows, cell.heightPx, r.pixelHeight, r.sourceY,
         r.sourceHeight, imageHeight)
  }

  /** `clipped_placement`, the format code aside */
  function Clip(area: Rect, cell: CellSize, r: Render, imageWidth: u32, imageHeight: u32, xOffset: u32,
                yOffset: u32): Option<Clipped> {
    var h, v := Horizontal(area, cell, r, imageWidth), Vertical(area, cell, r, imageHeight);
    if !h.Visible() || !v.Visible() then None
    else Some(Clipped(h.Start(), v.Start(), h.VisibleCells(), v.VisibleCells(),
                      h.SourceStart(), v.SourceStart(), h.SourceLen(), v.SourceLen(),
                      if ClippedCells(r.viewportCol) == 0 then xOffset else 0,
                      if ClippedCells(r.viewportRow) == 0 then yOffset else 0))
  }

  // --- Division facts ---

  lemma DivBelow(a: nat, s: nat, p: nat)
    requires 0 < p
    ensures a <= p ==> a * s / p <= s
    ensures a < p && 0 < s ==> a * s / p < s
  {
    assert a * s / p * p <= a * s;
    assert a <= p ==> a * s <= p * s;
    assert a < p && 0 < s ==> a * s < p * s;
  }

  lemma DivSum(x: nat, y: nat, p: nat)
    requires 0 < p
    ensures x / p + y / p <= (x + y) / p
  {
    var q := x / p + y / p;
    assert q * p == x / p * p + y / p * p;
    AtMostQuotient(q, x + y, p);
  }

  lemma AtMostQuotient(q: nat, n: nat, p: nat)
    requires 0 < p && q * p <= n
    ensures q <= n / p
  {
    assert n < (n / p + 1) * p;
    if n / p + 1 <= q { MulMonotone(n / p + 1, q, p); }
  }

  lemma MulMonotone(a: nat, b: nat, c: nat)
    requires a <= b
    ensures a * c <= b * c
  {
  }

  /** Two scaled stretches that together fit the extent fit the source, a zero-width one counting as 1. */
  lemma ScaledFits(crop: nat, shown: nat, source: nat, extent: nat)
    requires 0 < extent && 0 < shown && 0 < source && crop + shown <= extent
    ensures crop * source / extent + Max(shown * source / extent, 1) <= source
  {
    DivSum(crop * source, shown * source, extent);
    assert crop * source + shown * source == (crop + shown) * source;
    DivBelow(crop + shown, source, extent);
    DivBelow(crop, source, extent);
  }

  // --- Clipping on one axis ---

  /** The sums and products that the source leaves unchecked, or saturates, stay in range. */
  predicate Fits(a: Axis) {
    && a.cell > 0
    && a.grid * a.cell <= U32_MAX
    && a.sourceStart + a.Requested() <= U32_MAX
    && a.areaStart + a.areaLen <= U16_MAX
  }

  /** Cells of the placement that fall inside the pane, over the unbounded integers. */
  function CellsInPane(a: Axis): nat {
    Max(Min(a.viewport + a.grid, a.areaLen) - Max(a.viewport, 0), 0)
  }

  /** Cells on screen are exactly those, but for the least `i32`, whose negation saturates one short: there a
      grid that ends inside the pane shows one cell too many. */
  lemma CellsShown(a: Axis)
    ensures a.VisibleCells() == CellsInPane(a) <==>
            a.viewport > -0x8000_0000 || a.grid <= 0x7fff_ffff || a.grid - 0x8000_0000 >= a.areaLen
    ensures a.VisibleCells() != CellsInPane(a) ==> a.VisibleCells() == CellsInPane(a) + 1
  {
  }

  /** Such a case: a grid that ends where the pane begins has no cell in it, yet one is shown. */
  lemma OneCellTooMany()
    ensures var a := Axis(0, 80, -0x8000_0000, 0x8000_0000, 1, 1, 0, 1, 1);
            a.VisibleCells() == 1 && CellsInPane(a) == 0
  {
  }

  lemma CellProducts(a: Axis)
    requires Fits(a) && a.VisibleCells() > 0
    ensures ClippedCells(a.viewport) + a.VisibleCells() <= a.grid
    ensures SaturatingMul(ClippedCells(a.viewport), a.cell) == ClippedCells(a.viewport) * a.cell
    ensures SaturatingMul(a.VisibleCells(), a.cell) == a.VisibleCells() * a.cell
    ensures a.VisibleCells() * a.cell > 0
    ensures ClippedCells(a.viewport) * a.cell + a.VisibleCells() * a.cell <= a.Extent()
  {
    var c, v := ClippedCells(a.viewport), a.VisibleCells();
    MulMonotone(c, a.grid, a.cell);
    MulMonotone(v, a.grid, a.cell);
    MulMonotone(c + v, a.grid, a.cell);
    MulMonotone(1, v, a.cell);
    assert (c + v) * a.cell == c * a.cell + v * a.cell;
    assert SaturatingMul(a.grid, a.cell) == a.grid * a.cell;
  }

  /** The extent of the picture in pixels, never nothing: the larger of its own and its grid's. */
  function PixelExtent(a: Axis): nat { Max(Max(a.pixels, a.grid * a.cell), 1) }

  /** The window that is asked for, or the whole image. */
  function Asked(a: Axis): nat { if a.sourceLen == 0 then a.imageLen else a.sourceLen }

  /** Source pixels that a number of cells stands for, rounded down. */
  function Scaled(a: Axis, cells: nat): nat {
    Product(cells, a.cell);
    Product(cells * a.cell, Asked(a));
    cells * a.cell * Asked(a) / PixelExtent(a)
  }

  lemma ExtentIs(a: Axis)
    requires Fits(a)
    ensures a.Extent() == PixelExtent(a) && a.Requested() == Asked(a)
  {
    Product(a.grid, a.cell);
  }

  /** Without overflow, where the source window starts and how long it is. */
  lemma SourceWindow(a: Axis)
    requires Fits(a) && a.VisibleCells() > 0 && Asked(a) > 0
    ensures a.SourceStart() == a.sourceStart + Scaled(a, ClippedCells(a.viewport))
    ensures a.SourceLen() == Min(Max(Scaled(a, a.VisibleCells()), 1), Max(a.imageLen - a.SourceStart(), 0))
    ensures Scaled(a, ClippedCells(a.viewport)) + Max(Scaled(a, a.VisibleCells()), 1) <= Asked(a)
  {
    CellProducts(a);
    ExtentIs(a);
    hide PixelExtent, Axis.Extent;
    var crop, shown := ClippedCells(a.viewport) * a.cell, a.VisibleCells() * a.cell;
    ScaledFits(crop, shown, a.Requested(), a.Extent());
    DivBelow(crop, a.Requested(), a.Extent());
    DivBelow(shown, a.Requested(), a.Extent());
    assert ScalePixels(crop, a.Requested(), a.Extent()) == Scaled(a, ClippedCells(a.viewport));
    assert ScalePixels(shown, a.Requested(), a.Extent()) == Scaled(a, a.VisibleCells());
  }

  /** The same over the unbounded integers: the window starts behind the pixels of the cells that are clipped on
      the near side and takes those of the cells in the pane, each rounded down, at least one and no more than
      the image has. */
  lemma WindowOf(a: Axis)
    requires Fits(a) && a.viewport > -0x8000_0000 && CellsInPane(a) > 0 && Asked(a) > 0
    ensures a.SourceStart() == a.sourceStart + Scaled(a, Max(-(a.viewport as int), 0))
    ensures a.SourceLen() == Min(Max(Scaled(a, CellsInPane(a)), 1), Max(a.imageLen - a.SourceStart(), 0))
  {
    hide Scaled, Axis.SourceStart, Axis.SourceLen, Fits;
    CellsShown(a);
    SourceWindow(a);
  }

  /** A picture that lies in its pane, on a grid that holds its pixels, shows exactly the window asked for. */
  lemma WholeWindowShown(a: Axis)
    requires Fits(a) && a.viewport >= 0 && a.grid > 0 && a.viewport + a.grid <= a.areaLen
    requires a.pixels <= a.grid * a.cell && 0 < Asked(a) && a.sourceStart + Asked(a) <= a.imageLen
    ensures a.Visible() && a.VisibleCells() == a.grid && a.SourceStart() == a.sourceStart && a.SourceLen() == Asked(a)
  {
    hide Axis.SourceStart, Axis.SourceLen, Axis.VisibleCells;
    CellsShown(a);
    WindowOf(a);
    ScaledNothing(a);
    WholeScale(a.grid * a.cell, Asked(a));
    MulMonotone(1, a.grid, a.cell);
  }

  lemma WholeScale(extent: nat, source: nat)
    requires extent > 0
    ensures extent * source / extent == source
  {
    DivBelow(extent, source, extent);
    assert source * extent == extent * source;
    AtMostQuotient(source, extent * source, extent);
  }

  lemma ScaledNothing(a: Axis)
    ensures Scaled(a, 0) == 0
  {
    assert 0 * a.cell * Asked(a) == 0;
  }

  /** A visible axis shows at least one cell inside the pane, from at least one pixel that lies both in the
      image and in the requested source window. */
  lemma AxisFits(a: Axis)
    requires Fits(a) && a.Visible()
    ensures 1 <= a.VisibleCells() && a.Start() == a.areaStart + Max(a.viewport, 0)
    ensures a.Start() + a.VisibleCells() <= a.areaStart + a.areaLen
    ensures 1 <= a.SourceLen() && a.SourceStart() + a.SourceLen() <= a.imageLen
    ensures a.sourceStart <= a.SourceStart()
    ensures a.SourceStart() + a.SourceLen() <= a.sourceStart + a.Requested()
  {
    SourceWindow(a);
  }

  /** The axis is visible exactly when some cell falls inside the pane and the source starts inside the image. */
  lemma AxisVisibleIff(a: Axis)
    ensures a.Visible() <==> a.VisibleCells() > 0 && a.SourceStart() < a.imageLen
  {
  }

  /** Scrolled off by `k` cells, the picture continues exactly where its first `k` cells end. */
  lemma AxisContinues(first: Axis, rest: Axis, k: nat)
    requires Fits(first) && Fits(rest) && first.Visible() && rest.Visible()
    requires first == rest.(viewport := first.viewport, areaStart := first.areaStart, areaLen := first.areaLen)
    requires first.viewport >= 0 && first.VisibleCells() == k
    requires rest.viewport + k == 0
    requires Scaled(first, k) >= 1
    requires first.sourceStart + Scaled(first, k) <= first.imageLen
    ensures first.SourceStart() == first.sourceStart
    ensures first.SourceStart() + first.SourceLen() == rest.SourceStart()
  {
    hide Axis.Visible, Axis.SourceLen, Axis.SourceStart, Axis.VisibleCells, Axis.Extent, Fits, Scaled;
    AxisVisible(first);
    AxisVisible(rest);
    SourceWindow(first);
    SourceWindow(rest);
    SameScale(first, rest, k);
    ScaledNothing(first);
  }

  lemma AxisVisible(a: Axis)
    requires a.Visible()
    ensures 0 < a.VisibleCells() <= U16_MAX && a.Requested() > 0
  {
  }

  lemma SameScale(a: Axis, b: Axis, cells: nat)
    requires a == b.(viewport := a.viewport, areaStart := a.areaStart, areaLen := a.areaLen)
    ensures Scaled(a, cells) == Scaled(b, cells)
  {
  }

  // --- Both axes ---

  /** A visible placement lies in its pane, and what it shows lies in the image and in the requested window. */
  lemma ClipFits(area: Rect, cell: CellSize, r: Render, imageWidth: u32, imageHeight: u32, xOffset: u32, yOffset: u32)
    requires Fits(Horizontal(area, cell, r, imageWidth)) && Fits(Vertical(area, cell, r, imageHeight))
    requires Clip(area, cell, r, imageWidth, imageHeight, xOffset, yOffset).Some?
    ensures var c := Clip(area, cell, r, imageWidth, imageHeight, xOffset, yOffset).value;
            && 1 <= c.cols && c.x == area.x + Max(r.viewportCol, 0) && c.x + c.cols <= area.x + area.width
            && 1 <= c.rows && c.y == area.y + Max(r.viewportRow, 0) && c.y + c.rows <= area.y + area.height
            && c.xOffset == (if r.viewportCol < 0 then 0 else xOffset) &&
               c.yOffset == (if r.viewportRow < 0 then 0 else yOffset)
    ensures var c := Clip(area, cell, r, imageWidth, imageHeight, xOffset, yOffset).value;
            var w := if r.sourceWidth == 0 then imageWidth else r.sourceWidth;
            var h := if r.sourceHeight == 0 then imageHeight else r.sourceHeight;
            && 1 <= c.sourceWidth && r.sourceX <= c.sourceX
            && c.sourceX + c.sourceWidth <= Min(imageWidth, r.sourceX + w)
            && 1 <= c.sourceHeight && r.sourceY <= c.sourceY
            && c.sourceY + c.sourceHeight <= Min(imageHeight, r.sourceY + h)
  {
    hide Axis.Visible, Axis.SourceLen, Axis.SourceStart, Axis.VisibleCells, Axis.Extent, Fits;
    AxisFits(Horizontal(area, cell, r, imageWidth));
    AxisFits(Vertical(area, cell, r, imageHeight));
  }

  /** What a visible placement shows, axis by axis over the unbounded integers. */
  lemma ClipWindow(area: Rect, cell: CellSize, r: Render, imageWidth: u32, imageHeight: u32, xOffset: u32, yOffset: u32)
    requires var h := Axis(area.x, area.width, r.viewportCol, r.gridCols, cell.widthPx, r.pixelWidth, r.sourceX,
                           r.sourceWidth, imageWidth);
             Fits(h) && h.viewport > -0x8000_0000
    requires var v := Axis(area.y, area.height, r.viewportRow, r.gridRows, cell.heightPx, r.pixelHeight, r.sourceY,
                           r.sourceHeight, imageHeight);
             Fits(v) && v.viewport > -0x8000_0000
    requires Clip(area, cell, r, imageWidth, imageHeight, xOffset, yOffset).Some?
    ensures var c := Clip(area, cell, r, imageWidth, imageHeight, xOffset, yOffset).value;
            var h := Axis(area.x, area.width, r.viewportCol, r.gridCols, cell.widthPx, r.pixelWidth, r.sourceX,
                          r.sourceWidth, imageWidth);
            && c.x == area.x + Max(r.viewportCol, 0) && c.cols == CellsInPane(h)
            && c.sourceX == r.sourceX + Scaled(h, Max(-(r.viewportCol as int), 0))
            && c.sourceWidth == Min(Max(Scaled(h, CellsInPane(h)), 1), imageWidth - c.sourceX)
            && c.xOffset == if r.viewportCol < 0 then 0 else xOffset
    ensures var c := Clip(area, cell, r, imageWidth, imageHeight, xOffset, yOffset).value;
            var v := Axis(area.y, area.height, r.viewportRow, r.gridRows, cell.heightPx, r.pixelHeight, r.sourceY,
                          r.sourceHeight, imageHeight);
            && c.y == area.y + Max(r.viewportRow, 0) && c.rows == CellsInPane(v)
            && c.sourceY == r.sourceY + Scaled(v, Max(-(r.viewportRow as int), 0))
            && c.sourceHeight == Min(Max(Scaled(v, CellsInPane(v)), 1), imageHeight - c.sourceY)
            && c.yOffset == if r.viewportRow < 0 then 0 else yOffset
  {
    hide Axis.Visible, Axis.SourceLen, Axis.SourceStart, Axis.VisibleCells, Fits, Scaled, CellsInPane;
    AxisWindow(Horizontal(area, cell, r, imageWidth));
    AxisWindow(Vertical(area, cell, r, imageHeight));
  }

  lemma AxisWindow(a: Axis)
    requires Fits(a) && a.viewport > -0x8000_0000 && a.Visible()
    ensures a.Start() == a.areaStart + Max(a.viewport, 0) && a.VisibleCells() == CellsInPane(a)
    ensures a.SourceStart() == a.sourceStart + Scaled(a, Max(-(a.viewport as int), 0))
    ensures a.SourceLen() == Min(Max(Scaled(a, CellsInPane(a)), 1), a.imageLen - a.SourceStart())
  {
    hide Scaled, Axis.SourceStart;
    CellsShown(a);
    AxisVisible(a);
    AxisFits(a);
    WindowOf(a);
  }

  /** A picture that lies in its pane, on a grid that holds its pixels, is placed cell for cell where it is asked
      for and shows exactly the window asked for. */
  lemma WholePictureShown(area: Rect, cell: CellSize, r: Render, imageWidth: u32, imageHeight: u32, xOffset: u32,
                          yOffset: u32)
    requires Fits(Horizontal(area, cell, r, imageWidth)) && Fits(Vertical(area, cell, r, imageHeight))
    requires 0 <= r.viewportCol && 0 < r.gridCols && r.viewportCol + r.gridCols <= area.width
    requires 0 <= r.viewportRow && 0 < r.gridRows && r.viewportRow + r.gridRows <= area.height
    requires r.pixelWidth <= r.gridCols * cell.widthPx && r.pixelHeight <= r.gridRows * cell.heightPx
    requires var w := if r.sourceWidth == 0 then imageWidth else r.sourceWidth; 0 < w && r.sourceX + w <= imageWidth
    requires var h := if r.sourceHeight == 0 then imageHeight else r.sourceHeight; 0 < h && r.sourceY + h <= imageHeight
    ensures var w := if r.sourceWidth == 0 then imageWidth else r.sourceWidth;
            var h := if r.sourceHeight == 0 then imageHeight else r.sourceHeight;
            Clip(area, cell, r, imageWidth, imageHeight, xOffset, yOffset) ==
            Some(Clipped(area.x + r.viewportCol, area.y + r.viewportRow, r.gridCols, r.gridRows,
                         r.sourceX, r.sourceY, w, h, xOffset, yOffset))
  {
    hide Axis.SourceLen, Axis.SourceStart, Axis.VisibleCells, Axis.Extent, Axis.Visible;
    WholeWindowShown(Horizontal(area, cell, r, imageWidth));
    WholeWindowShown(Vertical(area, cell, r, imageHeight));
  }

  /** In a pane whose far edges have coordinates, a visible placement stays inside the pane, whatever overflows
      in its source window. */
  lemma ClipStaysInside(area: Rect, cell: CellSize, r: Render, imageWidth: u32, imageHeight: u32, xOffset: u32,
                        yOffset: u32)
    requires area.x + area.width <= U16_MAX && area.y + area.height <= U16_MAX
    requires Clip(area, cell, r, imageWidth, imageHeight, xOffset, yOffset).Some?
    ensures var c := Clip(area, cell, r, imageWidth, imageHeight, xOffset, yOffset).value;
            && 1 <= c.cols && area.x <= c.x && c.x + c.cols <= area.x + area.width
            && 1 <= c.rows && area.y <= c.y && c.y + c.rows <= area.y + area.height
  {
    hide Axis.SourceLen, Axis.VisibleCells, Axis.Start;
    AxisStaysInside(Horizontal(area, cell, r, imageWidth));
    AxisStaysInside(Vertical(area, cell, r, imageHeight));
  }

  lemma AxisStaysInside(a: Axis)
    requires a.areaStart + a.areaLen <= U16_MAX && a.Visible()
    ensures a.areaStart <= a.Start() && 1 <= a.VisibleCells() && a.Start() + a.VisibleCells() <= a.areaStart + a.areaLen
  {
    hide Axis.SourceLen;
  }
}

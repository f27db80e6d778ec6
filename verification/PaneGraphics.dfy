/** Graphics and layout together: what a pane shows never reaches into another pane. */
module PaneGraphics {
  import Clipping
  import LayoutTree
  import LayoutTiling

  /** The part of a pane that pictures are clipped to: the pane less its borders and scrollbar. */
  predicate InnerOf(inner: Clipping.Rect, pane: LayoutTree.Rect) {
    && pane.x <= inner.x && inner.x + inner.width <= pane.x + pane.width
    && pane.y <= inner.y && inner.y + inner.height <= pane.y + pane.height
  }

  /** On a screen whose edges have coordinates, so do those of every pane: the sums of `Clipping.Fits` that
      concern the pane hold for every layout. */
  lemma PanesFit(node: LayoutTree.Node, area: LayoutTree.Rect, focus: nat, i: nat, inner: Clipping.Rect)
    requires LayoutTree.RatiosWithin(node, 0.0, 1.0) && LayoutTiling.OnScreen(area)
    requires i < |LayoutTree.Panes(node, area, focus)| && InnerOf(inner, LayoutTree.Panes(node, area, focus)[i].rect)
    ensures inner.x + inner.width <= Clipping.U16_MAX && inner.y + inner.height <= Clipping.U16_MAX
  {
    LayoutTiling.TilesExactly(node, area, focus, 0, 0);
  }

  /** Every cell that a visible placement covers belongs to the placement's own pane and to no other. */
  lemma PlacementsStayInTheirPanes(node: LayoutTree.Node, area: LayoutTree.Rect, focus: nat, i: nat,
                                   inner: Clipping.Rect, cell: Clipping.CellSize, r: Clipping.Render,
                                   imageWidth: Clipping.u32, imageHeight: Clipping.u32, xOffset: Clipping.u32,
                                   yOffset: Clipping.u32, x: int, y: int)
    requires LayoutTree.RatiosWithin(node, 0.0, 1.0) && LayoutTiling.OnScreen(area)
    requires i < |LayoutTree.Panes(node, area, focus)| && InnerOf(inner, LayoutTree.Panes(node, area, focus)[i].rect)
    requires Clipping.Clip(inner, cell, r, imageWidth, imageHeight, xOffset, yOffset).Some?
    requires var c := Clipping.Clip(inner, cell, r, imageWidth, imageHeight, xOffset, yOffset).value;
             c.x <= x < c.x + c.cols && c.y <= y < c.y + c.rows
    ensures LayoutTiling.Inside(area, x, y) && LayoutTiling.Owner(node, area, x, y) == i
    ensures forall j :: 0 <= j < |LayoutTree.Panes(node, area, focus)| ==>
              (LayoutTiling.Inside(LayoutTree.Panes(node, area, focus)[j].rect, x, y) <==> j == i)
  {
    hide Clipping.Clip, LayoutTree.Panes, LayoutTiling.Owner;
    PanesFit(node, area, focus, i, inner);
    Clipping.ClipStaysInside(inner, cell, r, imageWidth, imageHeight, xOffset, yOffset);
    LayoutTiling.TilesExactly(node, area, focus, x, y);
  }
}

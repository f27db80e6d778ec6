/** The panes tile the area: every cell belongs to exactly one of them. */
module LayoutTiling {
  import opened LayoutTree

  predicate Inside(r: Rect, x: int, y: int) {
    r.x <= x < r.x + r.width && r.y <= y < r.y + r.height
  }

  predicate Within(inner: Rect, outer: Rect) {
    && outer.x <= inner.x && inner.x + inner.width <= outer.x + outer.width
    && outer.y <= inner.y && inner.y + inner.height <= outer.y + outer.height
  }

  /** An area whose far edges have coordinates. */
  predicate OnScreen(r: Rect) { r.x + r.width <= U16_MAX && r.y + r.height <= U16_MAX }

  /** The share of a split never exceeds the whole. */
  lemma RoundWithin(total: nat, ratio: real)
    requires 0.0 <= ratio <= 1.0
    ensures Share(total, ratio) <= total
  {
    hide Scaled;
    ScaledWithin(total as real, ratio);
    FloorBelow(Scaled(total as real, ratio) + 0.5, total);
  }

  lemma ScaledWithin(total: real, ratio: real)
    requires 0.0 <= total && 0.0 <= ratio <= 1.0
    ensures 0.0 <= Scaled(total, ratio) <= total
  {
    ShareWithin(total, ratio);
  }

  lemma FloorBelow(v: real, n: int)
    requires 0.0 <= v < n as real + 1.0
    ensures 0 <= v.Floor <= n
  {
  }

  lemma ShareWithin(total: real, ratio: real)
    requires 0.0 <= total && 0.0 <= ratio <= 1.0
    ensures 0.0 <= total * ratio <= total
  {
    assert total * (1.0 - ratio) >= 0.0;
  }

  /** The two shares of a split cut the area in two: a near part and a far part, with nothing between. */
  lemma SplitRectCuts(area: Rect, direction: Direction, ratio: real)
    requires 0.0 <= ratio <= 1.0
    ensures var (a, b) := SplitRect(area, direction, ratio);
            && Within(a, area) && Within(b, area)
            && a.x == area.x && a.y == area.y
            && b.x + b.width == area.x + area.width && b.y + b.height == area.y + area.height
            && match direction
               case Horizontal => a.x + a.width == b.x && a.height == b.height == area.height && b.y == area.y
               case Vertical => a.y + a.height == b.y && a.width == b.width == area.width && b.x == area.x
  {
    RoundWithin(area.width, ratio);
    RoundWithin(area.height, ratio);
  }

  lemma {:induction false} PanesFollowIds(node: Node, area: Rect, focus: nat)
    ensures |Panes(node, area, focus)| == |Ids(node)| == CountPanes(node)
    ensures forall i :: 0 <= i < |Ids(node)| ==>
              Panes(node, area, focus)[i].id == Ids(node)[i] &&
                Panes(node, area, focus)[i].focused == (Ids(node)[i] == focus)
    decreases node
  {
    if node.Split? {
      var (a, b) := SplitRect(area, node.direction, node.ratio);
      PanesFollowIds(node.first, a, focus);
      PanesFollowIds(node.second, b, focus);
    }
  }

  /** The leaf whose pane a cell of the area falls in, found by descending the tree. */
  function Owner(node: Node, area: Rect, x: int, y: int): nat {
    match node
    case Pane(_) => 0
    case Split(direction, ratio, first, second) =>
      var (a, b) := SplitRect(area, direction, ratio);
      if Inside(a, x, y) then Owner(first, a, x, y) else |Ids(first)| + Owner(second, b, x, y)
  }

  /** Exact tiling: a cell lies in the `i`-th pane if and only if it lies in the area and descending the tree
      leads to leaf `i`; every pane lies in the area. */
  lemma {:induction false} TilesExactly(node: Node, area: Rect, focus: nat, x: int, y: int)
    requires RatiosWithin(node, 0.0, 1.0)
    ensures |Panes(node, area, focus)| == |Ids(node)|
    ensures Inside(area, x, y) ==> Owner(node, area, x, y) < |Ids(node)|
    ensures forall i :: 0 <= i < |Ids(node)| ==>
              && Within(Panes(node, area, focus)[i].rect, area)
              && (Inside(Panes(node, area, focus)[i].rect, x, y) <==>
                  Inside(area, x, y) && i == Owner(node, area, x, y))
    decreases node
  {
    if node.Split? {
      var (a, b) := SplitRect(area, node.direction, node.ratio);
      SplitRectCuts(area, node.direction, node.ratio);
      TilesExactly(node.first, a, focus, x, y);
      TilesExactly(node.second, b, focus, x, y);
      var n, panes := |Ids(node.first)|, Panes(node, area, focus);
      forall i | 0 <= i < |Ids(node)|
        ensures Within(panes[i].rect, area)
             && (Inside(panes[i].rect, x, y) <==> Inside(area, x, y) && i == Owner(node, area, x, y))
      {
        if i < n {
          assert panes[i] == Panes(node.first, a, focus)[i];
        } else {
          assert panes[i] == Panes(node.second, b, focus)[i - n];
        }
      }
    }
  }

  function TotalCells(panes: seq<PaneInfo>): nat {
    if panes == [] then 0 else panes[0].rect.width * panes[0].rect.height + TotalCells(panes[1..])
  }

  lemma {:induction false} TotalCellsConcat(a: seq<PaneInfo>, b: seq<PaneInfo>)
    ensures TotalCells(a + b) == TotalCells(a) + TotalCells(b)
  {
    if a == [] {
      assert a + b == b;
    } else {
      TotalCellsConcat(a[1..], b);
      assert (a + b)[1..] == a[1..] + b;
    }
  }

  /** No cell is lost or counted twice. */
  lemma {:induction false} CellsAddUp(node: Node, area: Rect, focus: nat)
    requires RatiosWithin(node, 0.0, 1.0)
    ensures TotalCells(Panes(node, area, focus)) == area.width * area.height
    decreases node
  {
    hide SplitRect;
    match node
    case Pane(id) =>
      assert Panes(node, area, focus)[1..] == [];
    case Split(direction, ratio, first, second) =>
      var (a, b) := SplitRect(area, direction, ratio);
      AreasAddUp(area, direction, ratio);
      CellsAddUp(first, a, focus);
      CellsAddUp(second, b, focus);
      TotalCellsConcat(Panes(first, a, focus), Panes(second, b, focus));
  }

  lemma AreasAddUp(area: Rect, direction: Direction, ratio: real)
    requires 0.0 <= ratio <= 1.0
    ensures var (a, b) := SplitRect(area, direction, ratio);
            a.width * a.height + b.width * b.height == area.width * area.height
  {
    hide SplitRect;
    SplitRectCuts(area, direction, ratio);
    var (a, b) := SplitRect(area, direction, ratio);
    match direction
    case Horizontal => assert (a.width + b.width) * area.height == a.width * area.height + b.width * area.height;
    case Vertical => assert area.width * (a.height + b.height) == area.width * a.height + area.width * b.height;
  }

  lemma {:induction false} WiderRatios(node: Node, low: real, high: real, low': real, high': real)
    requires RatiosWithin(node, low, high) && low' <= low && high <= high'
    ensures RatiosWithin(node, low', high')
    decreases node
  {
    if node.Split? {
      WiderRatios(node.first, low, high, low', high');
      WiderRatios(node.second, low, high, low', high');
    }
  }
}

/** Which way a resize goes: the side of a split whose share is raised grows, the other side shrinks, and the
    focused pane goes along with the side of the moved divider that it lies on. */
module LayoutGrowth {
  import opened LayoutTree
  import opened LayoutTiling
  import opened LayoutEditing
  import opened LayoutResize

  function Length(r: Rect, axis: Direction): nat {
    if axis.Horizontal? then r.width else r.height
  }

  function Across(axis: Direction): Direction {
    if axis.Horizontal? then Vertical else Horizontal
  }

  // --- Shares ---

  lemma FloorGrows(v: real, w: real)
    requires v <= w
    ensures v.Floor <= w.Floor
  {
  }

  lemma FloorGrowsBy(v: real, w: real, n: nat)
    requires w <= v + n as real
    ensures w.Floor <= v.Floor + n
  {
    assert (v + n as real).Floor == v.Floor + n;
  }

  lemma ShareGrowsWithRatio(total: nat, low: real, high: real)
    requires 0.0 <= low <= high
    ensures Share(total, low) <= Share(total, high)
  {
    assert total as real * (high - low) >= 0.0;
    FloorGrows(Scaled(total as real, low) + 0.5, Scaled(total as real, high) + 0.5);
  }

  /** With a larger whole, neither share gets smaller. */
  lemma SharesGrowWithTotal(small: nat, large: nat, ratio: real)
    requires small <= large && 0.0 <= ratio <= 1.0
    ensures Share(small, ratio) <= small && Share(large, ratio) <= large
    ensures Share(small, ratio) <= Share(large, ratio) && small - Share(small, ratio) <= large - Share(large, ratio)
  {
    RoundWithin(small, ratio);
    RoundWithin(large, ratio);
    hide Scaled, RoundToU16;
    GrowsByLess(small, large, ratio);
    RoundsApart(Scaled(small as real, ratio), Scaled(large as real, ratio), large - small);
  }

  lemma GrowsByLess(small: nat, large: nat, ratio: real)
    requires small <= large && 0.0 <= ratio <= 1.0
    ensures 0.0 <= Scaled(small as real, ratio) <= Scaled(large as real, ratio)
    ensures Scaled(large as real, ratio) <= Scaled(small as real, ratio) + (large - small) as real
  {
    hide Scaled;
    ScaledBounds(small as real, (large - small) as real, ratio);
    assert small as real + (large - small) as real == large as real;
  }

  lemma ScaledBounds(total: real, more: real, ratio: real)
    requires 0.0 <= total && 0.0 <= more && 0.0 <= ratio <= 1.0
    ensures 0.0 <= Scaled(total, ratio) <= Scaled(total + more, ratio) <= Scaled(total, ratio) + more
  {
    ShareWithin(total, ratio);
    ShareWithin(more, ratio);
    assert (total + more) * ratio == total * ratio + more * ratio;
  }

  lemma RoundsApart(v: real, w: real, n: nat)
    requires 0.0 <= v <= w <= v + n as real
    ensures RoundToU16(v) <= RoundToU16(w) <= RoundToU16(v) + n
  {
    FloorGrows(v + 0.5, w + 0.5);
    FloorGrowsBy(v + 0.5, w + 0.5, n);
  }

  /** One rect is no shorter than the other on the axis, and as long across it. */
  predicate NoShorter(small: Rect, large: Rect, axis: Direction) {
    Length(small, axis) <= Length(large, axis) && Length(small, Across(axis)) == Length(large, Across(axis))
  }

  lemma SplitLengths(area: Rect, direction: Direction, ratio: real)
    ensures var (a, b) := SplitRect(area, direction, ratio);
            var share := Share(Length(area, direction), ratio);
            && Length(a, direction) == share && Length(b, direction) == SaturatingSub(Length(area, direction), share)
            && Length(a, Across(direction)) == Length(b, Across(direction)) == Length(area, Across(direction))
  {
    hide Share, SplitRect;
    SplitShares(area, direction, ratio);
  }

  lemma SplitShares(area: Rect, direction: Direction, ratio: real)
    ensures var (a, b) := SplitRect(area, direction, ratio);
            match direction
            case Horizontal =>
              && a.width == Share(area.width, ratio) && b.width == SaturatingSub(area.width, Share(area.width, ratio))
              && a.height == b.height == area.height
            case Vertical =>
              && a.height == Share(area.height, ratio) &&
                 b.height == SaturatingSub(area.height, Share(area.height, ratio))
              && a.width == b.width == area.width
  {
    hide Share;
  }

  lemma PartsNoShorter(small: Rect, large: Rect, axis: Direction, direction: Direction, ratio: real)
    requires NoShorter(small, large, axis) && 0.0 <= ratio <= 1.0
    ensures var (a, b) := SplitRect(small, direction, ratio);
            var (c, d) := SplitRect(large, direction, ratio);
            NoShorter(a, c, axis) && NoShorter(b, d, axis)
  {
    hide Share, SplitRect, Length;
    SplitLengths(small, direction, ratio);
    SplitLengths(large, direction, ratio);
    if axis != direction { assert Across(direction) == axis && Across(axis) == direction; }
    SharesGrowWithTotal(Length(small, direction), Length(large, direction), ratio);
  }

  /** In a longer area no pane is shorter. */
  lemma {:induction false} PanesNoShorter(node: Node, small: Rect, large: Rect, axis: Direction, focus: nat)
    requires RatiosWithin(node, 0.0, 1.0) && NoShorter(small, large, axis)
    ensures |Panes(node, small, focus)| == |Panes(node, large, focus)| == |Ids(node)|
    ensures forall i :: 0 <= i < |Ids(node)| ==>
              NoShorter(Panes(node, small, focus)[i].rect, Panes(node, large, focus)[i].rect, axis)
    decreases node
  {
    hide SplitRect, NoShorter;
    PanesFollowIds(node, small, focus);
    PanesFollowIds(node, large, focus);
    if node.Split? {
      var (a, b) := SplitRect(small, node.direction, node.ratio);
      var (c, d) := SplitRect(large, node.direction, node.ratio);
      PartsNoShorter(small, large, axis, node.direction, node.ratio);
      PanesNoShorter(node.first, a, c, axis, focus);
      PanesNoShorter(node.second, b, d, axis, focus);
    }
  }

  // --- Raising a ratio ---

  /** Pane `i` of the two trees compared, by the side of the split at path `at` that it lies on. */
  predicate Ordered(leaf: seq<bool>, at: seq<bool>, low: Rect, high: Rect, axis: Direction) {
    && (at + [false] <= leaf ==> NoShorter(low, high, axis))
    && (at + [true] <= leaf ==> NoShorter(high, low, axis))
  }

  lemma RaisedShares(area: Rect, axis: Direction, low: real, high: real)
    requires 0.0 <= low <= high <= 1.0
    ensures var (a, b) := SplitRect(area, axis, low);
            var (c, d) := SplitRect(area, axis, high);
            NoShorter(a, c, axis) && NoShorter(d, b, axis)
  {
    hide Share, SplitRect, Length;
    SplitLengths(area, axis, low);
    SplitLengths(area, axis, high);
    ShareGrowsWithRatio(Length(area, axis), low, high);
    SharesGrowWithTotal(Length(area, axis), Length(area, axis), high);
  }

  lemma OtherSide(pre: seq<bool>, leaf: seq<bool>, side: bool, rest: seq<bool>)
    requires pre + [side] <= leaf
    ensures !(pre + [!side] + rest <= leaf) && !(pre + [!side] <= leaf)
  {
    assert leaf[|pre|] == side;
    assert (pre + [!side] + rest)[|pre|] == !side;
  }

  /** Raising the ratio of a split makes no pane of its first side shorter on its axis and no pane of its second
      side longer; across the axis nothing changes. */
  lemma {:induction false} RatioOrders(node: Node, area: Rect, pre: seq<bool>, q: seq<bool>, low: real, high: real,
                                       focus: nat, i: nat)
    requires RatiosWithin(node, 0.0, 1.0) && 0.0 <= low <= high <= 1.0 && DirectionAt(node, q).Some?
    requires i < |Ids(node)| == |LeafPaths(node, pre)|
    requires |Panes(SetRatioAt(node, q, low), area, focus)| ==
             |Panes(SetRatioAt(node, q, high), area, focus)| == |Ids(node)|
    ensures Ordered(LeafPaths(node, pre)[i], pre + q, Panes(SetRatioAt(node, q, low), area, focus)[i].rect,
                    Panes(SetRatioAt(node, q, high), area, focus)[i].rect, DirectionAt(node, q).value)
    decreases node
  {
    hide SplitRect, NoShorter, Panes, LeafPaths, RatiosWithin;
    var t, u, n := SetRatioAt(node, q, low), SetRatioAt(node, q, high), |Ids(node.first)|;
    var fp, sp := pre + [false], pre + [true];
    Halves(node, area, pre, focus);
    Halves(t, area, pre, focus);
    Halves(u, area, pre, focus);
    LeafPathsExtend(node.first, fp);
    LeafPathsExtend(node.second, sp);
    SideOfLeaf(node, pre, i);
    var leaf := LeafPaths(node, pre)[i];
    if q == [] {
      assert pre + q == pre;
      RaisedShares(area, node.direction, low, high);
      var (a, b) := SplitRect(area, node.direction, low);
      var (c, d) := SplitRect(area, node.direction, high);
      if i < n {
        OtherSide(pre, leaf, false, []);
        PanesNoShorter(node.first, a, c, node.direction, focus);
      } else {
        OtherSide(pre, leaf, true, []);
        PanesNoShorter(node.second, d, b, node.direction, focus);
      }
    } else {
      var (a, b) := SplitRect(area, node.direction, node.ratio);
      assert pre + [q[0]] + q[1..] == pre + q;
      assert forall side :: pre + q + [side] == pre + [q[0]] + (q[1..] + [side]);
      SetRatioKeepsIds(node.first, q[1..], low);
      SetRatioKeepsIds(node.first, q[1..], high);
      if i < n && !q[0] {
        RatioOrders(node.first, a, fp, q[1..], low, high, focus, i);
      } else if i >= n && q[0] {
        RatioOrders(node.second, b, sp, q[1..], low, high, focus, i - n);
      } else {
        OtherSide(pre, leaf, !q[0], q[1..] + [false]);
        OtherSide(pre, leaf, !q[0], q[1..] + [true]);
      }
    }
  }

  /** The leaves of the first side come first. */
  lemma SideOfLeaf(node: Node, pre: seq<bool>, i: nat)
    requires node.Split? && i < |Ids(node)| == |LeafPaths(node, pre)|
    ensures pre + [i >= |Ids(node.first)|] <= LeafPaths(node, pre)[i]
  {
    LeafPathsExtend(node.first, pre + [false]);
    LeafPathsExtend(node.second, pre + [true]);
  }

  // --- The side of the divider that a pane lies on ---

  /** Where the edges of a pane lie on an axis. */
  function Near(r: Rect, axis: Direction): nat { if axis.Horizontal? then r.x else r.y }
  function Far(r: Rect, axis: Direction): nat { Near(r, axis) + Length(r, axis) }

  /** A pane of the split lies before the divider, on the first side, or behind it, on the second. */
  predicate Sided(s: SplitBorder, leaf: seq<bool>, me: Rect) {
    || (s.path + [false] <= leaf && Far(me, s.direction) <= s.pos)
    || (s.path + [true] <= leaf && s.pos <= Near(me, s.direction))
  }

  lemma {:induction false} PanesAreSided(node: Node, area: Rect, pre: seq<bool>, focus: nat, f: nat, j: nat)
    requires RatiosWithin(node, 0.0, 1.0)
    requires f < |Ids(node)| == |LeafPaths(node, pre)| == |Panes(node, area, focus)| && j < |Splits(node, area, pre)|
    requires Splits(node, area, pre)[j].path <= LeafPaths(node, pre)[f]
    ensures Sided(Splits(node, area, pre)[j], LeafPaths(node, pre)[f], Panes(node, area, focus)[f].rect)
    decreases node
  {
    hide SplitRect, Sided, RatiosWithin, Panes, LeafPaths, Splits;
    if node.Pane? { NoSplits(node, area, pre); }
    var (a, b) := SplitRect(area, node.direction, node.ratio);
    var fp, sp := pre + [false], pre + [true];
    var splits, leaf := Splits(node, area, pre), LeafPaths(node, pre)[f];
    var sa, sb, n := Splits(node.first, a, fp), Splits(node.second, b, sp), |Ids(node.first)|;
    Halves(node, area, pre, focus);
    SplitsInHalves(node, area, pre);
    SideOfLeaf(node, pre, f);
    if j == 0 {
      OwnSides(node, area, pre, focus, f);
    } else if j <= |sa| {
      assert splits[j - 1 + 1] == sa[j - 1];
      SplitsLead(node.first, a, fp, j - 1);
      if f >= n { SidesDiffer(pre, leaf, sa[j - 1].path, false); }
      PanesAreSided(node.first, a, fp, focus, f, j - 1);
    } else {
      assert splits[j - 1 - |sa| + (1 + |sa|)] == sb[j - 1 - |sa|];
      SplitsLead(node.second, b, sp, j - 1 - |sa|);
      if f < n { SidesDiffer(pre, leaf, sb[j - 1 - |sa|].path, true); }
      PanesAreSided(node.second, b, sp, focus, f - n, j - 1 - |sa|);
    }
  }

  lemma SidesDiffer(pre: seq<bool>, leaf: seq<bool>, path: seq<bool>, side: bool)
    requires pre + [side] <= path && pre + [!side] <= leaf
    ensures !(path <= leaf)
  {
    assert path[|pre|] == (pre + [side])[|pre|];
    assert leaf[|pre|] == (pre + [!side])[|pre|];
  }

  lemma OwnSides(node: Node, area: Rect, pre: seq<bool>, focus: nat, f: nat)
    requires RatiosWithin(node, 0.0, 1.0) && node.Split?
    requires f < |Ids(node)| == |LeafPaths(node, pre)| == |Panes(node, area, focus)| && |Splits(node, area, pre)| > 0
    ensures Sided(Splits(node, area, pre)[0], LeafPaths(node, pre)[f], Panes(node, area, focus)[f].rect)
  {
    hide SplitRect, LeafPaths;
    var (a, b) := SplitRect(area, node.direction, node.ratio);
    PaneWithin(node.first, a, focus);
    PaneWithin(node.second, b, focus);
    SplitRectCuts(area, node.direction, node.ratio);
    SideOfLeaf(node, pre, f);
  }

  // --- Resizing ---

  /** How long the focused pane is on the axis of a resize. */
  function LengthOnAxis(l: Layout, area: Rect, nav: NavDirection): nat
    requires l.focus in Ids(l.root)
  {
    Length(FocusedRect(l, area), AxisOf(nav))
  }

  /** Whether there is a divider on the requested side; otherwise the opposite one is moved. */
  predicate MovesNearDivider(l: Layout, nav: NavDirection, area: Rect)
    requires l.focus in Ids(l.root)
  {
    NearestFrom(Splits(l.root, area, []), FocusedRect(l, area), nav, 0).Some?
  }

  lemma NearestSide(s: SplitBorder, leaf: seq<bool>, me: Rect, nav: NavDirection)
    requires Eligible(s, me, nav) && Sided(s, leaf, me) && Length(me, AxisOf(nav)) >= 2
    ensures s.path + [!Grows(nav)] <= leaf
  {
  }

  lemma {:induction false} RatioInRange(node: Node, q: seq<bool>, low: real, high: real)
    requires RatiosWithin(node, low, high) && GetRatioAt(node, q).Some?
    ensures low <= GetRatioAt(node, q).value <= high
    ensures SetRatioAt(node, q, GetRatioAt(node, q).value) == node
    decreases node
  {
    if q != [] { RatioInRange(if q[0] then node.second else node.first, q[1..], low, high); }
  }

  /** Moving the divider at `path` from ratio to ratio, for the pane on one side of it. */
  lemma MovedDivider(l: Layout, path: seq<bool>, ratio: real, area: Rect, first: bool)
    requires Valid(l) && GetRatioAt(l.root, path).Some? && DirectionAt(l.root, path).Some? && 0.0 <= ratio <= 1.0
    requires PositionOf(Ids(l.root), l.focus) < |LeafPaths(l.root, [])|
    requires path + [!first] <= LeafPaths(l.root, [])[PositionOf(Ids(l.root), l.focus)]
    ensures var m, r := Layout(SetRatioAt(l.root, path, ratio), l.focus), GetRatioAt(l.root, path).value;
            && l.focus in Ids(m.root)
            && (first == (r <= ratio) ==> NoShorter(FocusedRect(l, area), FocusedRect(m, area),
                                                    DirectionAt(l.root, path).value))
            && (first == (ratio <= r) ==> NoShorter(FocusedRect(m, area), FocusedRect(l, area),
                                                    DirectionAt(l.root, path).value))
  {
    hide SplitRect, Panes, LeafPaths, NoShorter, Distinct;
    var r, f, t := GetRatioAt(l.root, path).value, PositionOf(Ids(l.root), l.focus), SetRatioAt(l.root, path, ratio);
    WiderRatios(l.root, 0.1, 0.9, 0.0, 1.0);
    RatioInRange(l.root, path, 0.0, 1.0);
    SetRatioKeepsIds(l.root, path, ratio);
    LeafPathsExtend(l.root, []);
    PanesFollowIds(l.root, area, l.focus);
    PanesFollowIds(t, area, l.focus);
    assert [] + path == path;
    if r <= ratio { RatioOrders(l.root, area, [], path, r, ratio, l.focus, f); }
    if ratio <= r { RatioOrders(l.root, area, [], path, ratio, r, l.focus, f); }
  }

  /** A positive delta makes the focused pane no shorter, as promised, when there is a divider on the requested
      side, and no longer when the opposite one is moved instead. A negative delta does the reverse. Across the
      axis the pane stays as it is. */
  lemma ResizeDirection(l: Layout, nav: NavDirection, delta: real, area: Rect)
    requires Valid(l) && LengthOnAxis(l, area, nav) >= 2
    ensures var m := ResizeFocused(l, nav, delta, area);
            && m.focus == l.focus && l.focus in Ids(m.root)
            && (MovesNearDivider(l, nav, area) == (delta >= 0.0) ==>
                  NoShorter(FocusedRect(l, area), FocusedRect(m, area), AxisOf(nav)))
            && (MovesNearDivider(l, nav, area) == (delta <= 0.0) ==>
                  NoShorter(FocusedRect(m, area), FocusedRect(l, area), AxisOf(nav)))
  {
    hide Splits, Panes, LeafPaths, Eligible, SplitEdgeDistance, Distinct, Sided, NoShorter, RatiosWithin;
    var f, me, splits := PositionOf(Ids(l.root), l.focus), FocusedRect(l, area), Splits(l.root, area, []);
    var best := ChosenSplit(splits, me, nav);
    WiderRatios(l.root, 0.1, 0.9, 0.0, 1.0);
    PanesFollowIds(l.root, area, l.focus);
    LeafPathsExtend(l.root, []);
    NearestIsAncestor(l.root, area, l.focus, f, nav);
    NearestIsAncestor(l.root, area, l.focus, f, Opposite(nav));
    SameRect(me, AxisOf(nav));
    if best.Some? {
      var s := splits[best.value];
      var near := MovesNearDivider(l, nav, area);
      ChosenLeads(l.root, area, me, nav);
      PanesAreSided(l.root, area, [], l.focus, f, best.value);
      NearestSide(s, LeafPaths(l.root, [])[f], me, if near then nav else Opposite(nav));
      RatioInRange(l.root, s.path, 0.1, 0.9);
      var r := GetRatioAt(l.root, s.path).value;
      MovedDivider(l, s.path, Clamp(r + if Grows(nav) then delta else -delta), area, near == Grows(nav));
    }
  }

  lemma SameRect(r: Rect, axis: Direction)
    ensures NoShorter(r, r, axis)
  {
  }

  /** Such a pane: the right one of two, asked to grow to the right, gets shorter. */
  lemma RightmostPaneShrinks()
    ensures var l, area := Layout(Split(Horizontal, 0.5, Pane(1), Pane(2)), 2), Rect(0, 0, 10, 1);
            && Valid(l) && LengthOnAxis(l, area, Right) == 5
            && var m := ResizeFocused(l, Right, 0.1, area);
               l.focus in Ids(m.root) && LengthOnAxis(m, area, Right) == 4
  {
    var l, area := Layout(Split(Horizontal, 0.5, Pane(1), Pane(2)), 2), Rect(0, 0, 10, 1);
    assert Share(10, 0.5) == 5 && Share(10, 0.6) == 6;
    assert Ids(l.root) == [1, 2];
    var s := SplitBorder(5, Horizontal, 0.5, area, []);
    assert Splits(l.root, area, []) == [s];
    assert FocusedRect(l, area) == Rect(5, 0, 5, 1);
  }
}

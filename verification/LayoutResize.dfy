/** Resizing the focused pane moves a divider of that pane and nothing outside the split it divides. */
module LayoutResize {
  import opened Bytes
  import opened LayoutTree
  import opened LayoutTiling
  import opened LayoutNavigation
  import opened LayoutEditing

  function AxisOf(nav: NavDirection): Direction {
    match nav
    case Left | Right => Horizontal
    case Up | Down => Vertical
  }

  function Opposite(nav: NavDirection): NavDirection {
    match nav
    case Left => Right
    case Right => Left
    case Up => Down
    case Down => Up
  }

  /** Where the edge of the pane lies that faces `nav`. */
  function Edge(r: Rect, nav: NavDirection): nat {
    match nav
    case Left => r.x
    case Right => r.x + r.width
    case Up => r.y
    case Down => r.y + r.height
  }

  /** `split_edge_distance` */
  function SplitEdgeDistance(split: SplitBorder, focused: Rect, nav: NavDirection): nat {
    if split.pos >= Edge(focused, nav) then split.pos - Edge(focused, nav) else Edge(focused, nav) - split.pos
  }

  /** The filters of `nearest_resize_split`. */
  predicate Eligible(split: SplitBorder, focused: Rect, nav: NavDirection) {
    && split.direction == AxisOf(nav)
    && CrossOverlap(split.area, focused, nav)
    && SplitEdgeDistance(split, focused, nav) <= 1
  }

  /** `nearest_resize_split`: the first eligible divider of least distance. */
  function NearestFrom(splits: seq<SplitBorder>, focused: Rect, nav: NavDirection, from: nat): (best: Option<nat>)
    ensures best.Some? ==>
              && from <= best.value < |splits| && Eligible(splits[best.value], focused, nav)
              && forall j :: from <= j < |splits| && Eligible(splits[j], focused, nav) ==>
                   var d := SplitEdgeDistance(splits[best.value], focused, nav);
                   var e := SplitEdgeDistance(splits[j], focused, nav);
                   d <= e && (j < best.value ==> d < e)
    ensures best.None? ==> forall j :: from <= j < |splits| ==> !Eligible(splits[j], focused, nav)
    decreases |splits| - from
  {
    if from >= |splits| then None
    else
      var rest := NearestFrom(splits, focused, nav, from + 1);
      if Eligible(splits[from], focused, nav)
         && (rest.None? ||
             SplitEdgeDistance(splits[from], focused, nav) <= SplitEdgeDistance(splits[rest.value], focused, nav))
      then Some(from)
      else rest
  }

  /** The divider that a resize moves: the nearest on the requested side, else on the opposite side. */
  function ChosenSplit(splits: seq<SplitBorder>, focused: Rect, nav: NavDirection): Option<nat> {
    var near := NearestFrom(splits, focused, nav, 0);
    if near.Some? then near else NearestFrom(splits, focused, Opposite(nav), 0)
  }

  function FocusedRect(l: Layout, area: Rect): Rect
    requires l.focus in Ids(l.root)
  {
    PanesFollowIds(l.root, area, l.focus);
    Panes(l.root, area, l.focus)[PositionOf(Ids(l.root), l.focus)].rect
  }

  function GetOr(ratio: Option<real>, default: real): real { if ratio.Some? then ratio.value else default }

  predicate Grows(nav: NavDirection) { nav.Right? || nav.Down? }

  /** `resize_focused` */
  function ResizeFocused(l: Layout, nav: NavDirection, delta: real, area: Rect): Layout {
    if l.focus !in Ids(l.root) then l
    else
      var splits := Splits(l.root, area, []);
      var best := ChosenSplit(splits, FocusedRect(l, area), nav);
      if best.None? then l
      else
        var path := splits[best.value].path;
        var current := GetOr(GetRatioAt(l.root, path), 0.5);
        SetRatio(l, path, current + if Grows(nav) then delta else -delta)
  }

  // --- Dividers lie in their splits, and their paths lead to them ---

  function DirectionAt(node: Node, path: seq<bool>): Option<Direction> {
    match node
    case Pane(_) => None
    case Split(direction, _, first, second) =>
      if path == [] then Some(direction) else DirectionAt(if path[0] then second else first, path[1..])
  }

  predicate Leads(node: Node, pre: seq<bool>, s: SplitBorder) {
    && pre <= s.path
    && GetRatioAt(node, s.path[|pre|..]) == Some(s.ratio)
    && DirectionAt(node, s.path[|pre|..]) == Some(s.direction)
  }

  predicate Lies(s: SplitBorder, area: Rect) {
    && Within(s.area, area)
    && match s.direction
       case Horizontal => s.area.x <= s.pos <= s.area.x + s.area.width
       case Vertical => s.area.y <= s.pos <= s.area.y + s.area.height
  }

  lemma {:induction false} SplitsLead(node: Node, area: Rect, pre: seq<bool>, j: nat)
    requires j < |Splits(node, area, pre)|
    ensures Leads(node, pre, Splits(node, area, pre)[j])
    decreases node
  {
    hide SplitRect;
    var (a, b) := SplitRect(area, node.direction, node.ratio);
    var sa, sb := Splits(node.first, a, pre + [false]), Splits(node.second, b, pre + [true]);
    var s := Splits(node, area, pre)[j];
    if j == 0 {
      assert s.path[|pre|..] == [];
    } else if j <= |sa| {
      SplitsLead(node.first, a, pre + [false], j - 1);
      assert s == sa[j - 1];
      assert s.path[|pre|..][0] == false && s.path[|pre|..][1..] == s.path[|pre + [false]|..];
    } else {
      SplitsLead(node.second, b, pre + [true], j - 1 - |sa|);
      assert s == sb[j - 1 - |sa|];
      assert s.path[|pre|..][0] == true && s.path[|pre|..][1..] == s.path[|pre + [true]|..];
    }
  }

  lemma {:induction false} SplitsLie(node: Node, area: Rect, pre: seq<bool>)
    requires RatiosWithin(node, 0.0, 1.0)
    ensures forall j :: 0 <= j < |Splits(node, area, pre)| ==> Lies(Splits(node, area, pre)[j], area)
    decreases node
  {
    if node.Split? {
      hide SplitRect;
      var (a, b) := SplitRect(area, node.direction, node.ratio);
      SplitRectCuts(area, node.direction, node.ratio);
      SplitsLie(node.first, a, pre + [false]);
      SplitsLie(node.second, b, pre + [true]);
    }
  }

  lemma {:induction false} LeafPathsExtend(node: Node, pre: seq<bool>)
    ensures |LeafPaths(node, pre)| == |Ids(node)|
    ensures forall i :: 0 <= i < |Ids(node)| ==> pre <= LeafPaths(node, pre)[i]
    decreases node
  {
    if node.Split? {
      LeafPathsExtend(node.first, pre + [false]);
      LeafPathsExtend(node.second, pre + [true]);
      var n := |Ids(node.first)|;
      forall i | 0 <= i < |Ids(node)| ensures pre <= LeafPaths(node, pre)[i] {
        assert pre <= pre + [false] && pre <= pre + [true];
        if i < n { assert LeafPaths(node, pre)[i] == LeafPaths(node.first, pre + [false])[i]; }
        else { assert LeafPaths(node, pre)[i] == LeafPaths(node.second, pre + [true])[i - n]; }
      }
    }
  }

  // --- A divider of an ancestor is always met first ---

  /** An eligible divider on the other side of a split is no nearer than that split's own divider. */
  lemma ParentIsNearer(area: Rect, direction: Direction, ratio: real, path: seq<bool>, me: Rect, s: SplitBorder,
                       nav: NavDirection)
    requires 0.0 <= ratio <= 1.0
    requires var (a, b) := SplitRect(area, direction, ratio);
             (Within(me, a) && Lies(s, b)) || (Within(me, b) && Lies(s, a))
    requires Eligible(s, me, nav)
    ensures var (a, b) := SplitRect(area, direction, ratio);
            var parent := SplitBorder(Divider(direction, a), direction, ratio, area, path);
            Eligible(parent, me, nav) && SplitEdgeDistance(parent, me, nav) <= SplitEdgeDistance(s, me, nav)
  {
    hide SplitRect;
    SplitRectCuts(area, direction, ratio);
  }

  /** The `j`-th divider is an ancestor's, or an ancestor's comes before it and is as near. */
  predicate AncestorFirst(splits: seq<SplitBorder>, j: nat, leaf: seq<bool>, me: Rect, nav: NavDirection)
    requires j < |splits|
  {
    splits[j].path <= leaf ||
    exists k: nat :: k < j && splits[k].path <= leaf && Eligible(splits[k], me, nav)
      && SplitEdgeDistance(splits[k], me, nav) <= SplitEdgeDistance(splits[j], me, nav)
  }

  lemma {:induction false} AncestorsComeFirst(node: Node, area: Rect, pre: seq<bool>, focus: nat, f: nat,
                                              nav: NavDirection, j: nat)
    requires RatiosWithin(node, 0.0, 1.0)
    requires f < |Ids(node)| == |LeafPaths(node, pre)| == |Panes(node, area, focus)|
    requires j < |Splits(node, area, pre)|
    requires Eligible(Splits(node, area, pre)[j], Panes(node, area, focus)[f].rect, nav)
    ensures AncestorFirst(Splits(node, area, pre), j, LeafPaths(node, pre)[f], Panes(node, area, focus)[f].rect, nav)
    decreases node
  {
    hide SplitRect, Eligible, SplitEdgeDistance, AncestorFirst, RatiosWithin, Panes, LeafPaths, Splits;
    if node.Pane? { NoSplits(node, area, pre); }
    var (a, b) := SplitRect(area, node.direction, node.ratio);
    var fp, sp := pre + [false], pre + [true];
    var splits, leaf, me := Splits(node, area, pre), LeafPaths(node, pre)[f], Panes(node, area, focus)[f].rect;
    var sa, sb := Splits(node.first, a, fp), Splits(node.second, b, sp);
    var n := |Ids(node.first)|;
    Halves(node, area, pre, focus);
    SplitsInHalves(node, area, pre);
    if 1 <= j <= |sa| && f < n {
      AncestorsComeFirst(node.first, a, fp, focus, f, nav, j - 1);
      ShiftAncestors(sa, splits, j - 1, 1, leaf, me, nav);
    } else if j > |sa| && f >= n {
      AncestorsComeFirst(node.second, b, sp, focus, f - n, nav, j - 1 - |sa|);
      ShiftAncestors(sb, splits, j - 1 - |sa|, 1 + |sa|, leaf, me, nav);
    } else {
      AcrossSplit(node, area, pre, focus, f, nav, j);
    }
  }

  lemma NoSplits(node: Node, area: Rect, pre: seq<bool>)
    requires node.Pane?
    ensures Splits(node, area, pre) == []
  {
  }

  /** `whole` holds `part`, `shift` places on. */
  predicate Shifted<T(==)>(part: seq<T>, whole: seq<T>, shift: nat) {
    shift + |part| <= |whole| && forall k :: 0 <= k < |part| ==> whole[k + shift] == part[k]
  }

  lemma SplitsInHalves(node: Node, area: Rect, pre: seq<bool>)
    requires node.Split?
    ensures var (a, b) := SplitRect(area, node.direction, node.ratio);
            var splits := Splits(node, area, pre);
            var sa, sb := Splits(node.first, a, pre + [false]), Splits(node.second, b, pre + [true]);
            |splits| == 1 + |sa| + |sb| && Shifted(sa, splits, 1) && Shifted(sb, splits, 1 + |sa|)
  {
    hide SplitRect, Divider, Splits, Shifted;
    var (a, b) := SplitRect(area, node.direction, node.ratio);
    SplitsUnfold(node, area, pre);
    Thirds(SplitBorder(Divider(node.direction, a), node.direction, node.ratio, area, pre),
           Splits(node.first, a, pre + [false]), Splits(node.second, b, pre + [true]));
  }

  lemma SplitsUnfold(node: Node, area: Rect, pre: seq<bool>)
    requires node.Split?
    ensures var (a, b) := SplitRect(area, node.direction, node.ratio);
            Splits(node, area, pre) ==
            [SplitBorder(Divider(node.direction, a), node.direction, node.ratio, area, pre)] +
            Splits(node.first, a, pre + [false]) + Splits(node.second, b, pre + [true])
  {
    hide SplitRect, Divider;
  }

  lemma Thirds<T>(own: T, first: seq<T>, second: seq<T>)
    ensures var all := [own] + first + second;
            Shifted(first, all, 1) && Shifted(second, all, 1 + |first|)
  {
  }

  /** The leaves of a split are those of its two sides, in order. */
  lemma Halves(node: Node, area: Rect, pre: seq<bool>, focus: nat)
    requires node.Split?
    ensures var (a, b) := SplitRect(area, node.direction, node.ratio);
            && (forall low, high :: RatiosWithin(node, low, high) ==>
                RatiosWithin(node.first, low, high) && RatiosWithin(node.second, low, high))
            && Panes(node, area, focus) == Panes(node.first, a, focus) + Panes(node.second, b, focus)
            && LeafPaths(node, pre) == LeafPaths(node.first, pre + [false]) + LeafPaths(node.second, pre + [true])
            && |Ids(node.first)| == |Panes(node.first, a, focus)| == |LeafPaths(node.first, pre + [false])|
            && |Ids(node.second)| == |Panes(node.second, b, focus)| == |LeafPaths(node.second, pre + [true])|
  {
    hide SplitRect;
    var (a, b) := SplitRect(area, node.direction, node.ratio);
    LeafPathsExtend(node.first, pre + [false]);
    LeafPathsExtend(node.second, pre + [true]);
    PanesFollowIds(node.first, a, focus);
    PanesFollowIds(node.second, b, focus);
  }

  /** The case of a divider that is the split's own, or lies on the other side of it than the pane. */
  lemma AcrossSplit(node: Node, area: Rect, pre: seq<bool>, focus: nat, f: nat, nav: NavDirection, j: nat)
    requires RatiosWithin(node, 0.0, 1.0) && node.Split?
    requires f < |Ids(node)| == |LeafPaths(node, pre)| == |Panes(node, area, focus)|
    requires j < |Splits(node, area, pre)|
    requires var (a, _) := SplitRect(area, node.direction, node.ratio);
             j == 0 || (f < |Ids(node.first)| <==> j > |Splits(node.first, a, pre + [false])|)
    requires Eligible(Splits(node, area, pre)[j], Panes(node, area, focus)[f].rect, nav)
    ensures AncestorFirst(Splits(node, area, pre), j, LeafPaths(node, pre)[f], Panes(node, area, focus)[f].rect, nav)
  {
    hide SplitRect, Eligible, SplitEdgeDistance, Within, Lies, LeafPaths;
    var (a, b) := SplitRect(area, node.direction, node.ratio);
    var fp, sp := pre + [false], pre + [true];
    LeafPathsExtend(node, pre);
    PaneWithin(node.first, a, focus);
    PaneWithin(node.second, b, focus);
    SplitsLie(node.first, a, fp);
    SplitsLie(node.second, b, sp);
    var splits, me := Splits(node, area, pre), Panes(node, area, focus)[f].rect;
    var k: nat := 0;
    assert splits[k] == SplitBorder(Divider(node.direction, a), node.direction, node.ratio, area, pre);
    if j > 0 {
      ParentIsNearer(area, node.direction, node.ratio, pre, me, splits[j], nav);
      assert k < j && splits[k].path <= LeafPaths(node, pre)[f] && Eligible(splits[k], me, nav);
    }
  }

  lemma PaneWithin(node: Node, area: Rect, focus: nat)
    requires RatiosWithin(node, 0.0, 1.0)
    ensures |Panes(node, area, focus)| == |Ids(node)|
    ensures forall i :: 0 <= i < |Ids(node)| ==> Within(Panes(node, area, focus)[i].rect, area)
  {
    TilesExactly(node, area, focus, 0, 0);
  }

  lemma ShiftAncestors(part: seq<SplitBorder>, splits: seq<SplitBorder>, j: nat, shift: nat, leaf: seq<bool>,
                       me: Rect, nav: NavDirection)
    requires j < |part| && Shifted(part, splits, shift)
    requires AncestorFirst(part, j, leaf, me, nav)
    ensures AncestorFirst(splits, j + shift, leaf, me, nav)
  {
    hide Eligible, SplitEdgeDistance;
    if !(part[j].path <= leaf) {
      var k: nat :| k < j && part[k].path <= leaf && Eligible(part[k], me, nav)
        && SplitEdgeDistance(part[k], me, nav) <= SplitEdgeDistance(part[j], me, nav);
      assert splits[k + shift] == part[k];
    }
  }

  /** The nearest eligible divider always belongs to a split that holds the focused pane. */
  lemma NearestIsAncestor(node: Node, area: Rect, focus: nat, f: nat, nav: NavDirection)
    requires RatiosWithin(node, 0.0, 1.0)
    requires f < |Ids(node)| == |LeafPaths(node, [])| == |Panes(node, area, focus)|
    ensures var splits := Splits(node, area, []);
            var best := NearestFrom(splits, Panes(node, area, focus)[f].rect, nav, 0);
            best.Some? ==> splits[best.value].path <= LeafPaths(node, [])[f]
  {
    hide Eligible, SplitEdgeDistance, Splits, Panes, LeafPaths, RatiosWithin;
    var splits := Splits(node, area, []);
    var best := NearestFrom(splits, Panes(node, area, focus)[f].rect, nav, 0);
    if best.Some? {
      AncestorsComeFirst(node, area, [], focus, f, nav, best.value);
    }
  }

  // --- Panes outside the split keep their rects ---

  lemma {:induction false} SetRatioIsLocal(node: Node, area: Rect, pre: seq<bool>, q: seq<bool>, ratio: real,
                                           focus: nat)
    ensures var t := SetRatioAt(node, q, ratio);
            && |Panes(t, area, focus)| == |Panes(node, area, focus)| == |LeafPaths(node, pre)|
            && forall i :: 0 <= i < |LeafPaths(node, pre)| && !(pre + q <= LeafPaths(node, pre)[i]) ==>
                 Panes(t, area, focus)[i] == Panes(node, area, focus)[i]
    decreases node
  {
    hide SplitRect;
    LeafPathsExtend(node, pre);
    PanesFollowIds(node, area, focus);
    SetRatioKeepsIds(node, q, ratio);
    PanesFollowIds(SetRatioAt(node, q, ratio), area, focus);
    if q == [] {
      assert pre + [] == pre;
    } else if node.Split? {
      var (a, b) := SplitRect(area, node.direction, node.ratio);
      var fp, sp := pre + [false], pre + [true];
      SetRatioIsLocal(node.first, a, fp, q[1..], ratio, focus);
      SetRatioIsLocal(node.second, b, sp, q[1..], ratio, focus);
      assert pre + q == (if q[0] then sp else fp) + q[1..];
    }
  }

  lemma SetRatioKeepsIds(node: Node, q: seq<bool>, ratio: real)
    ensures Ids(SetRatioAt(node, q, ratio)) == Ids(node)
    decreases node
  {
    if node.Split? && q != [] { SetRatioKeepsIds(if q[0] then node.second else node.first, q[1..], ratio); }
  }

  // --- The law of resizing ---

  /** `m` is `l` with at most one ratio changed: that of a split of the right axis around the focused pane,
      moved by delta towards the requested side and kept in [0.1, 0.9]; panes outside it stay put. */
  ghost predicate MovesOneDivider(l: Layout, m: Layout, nav: NavDirection, delta: real, area: Rect, path: seq<bool>) {
    && m.focus == l.focus
    && DirectionAt(l.root, path) == Some(AxisOf(nav)) && GetRatioAt(l.root, path).Some?
    && m.root == SetRatioAt(l.root, path, Clamp(GetRatioAt(l.root, path).value + if Grows(nav) then delta else -delta))
    && (forall other :: GetRatioAt(m.root, other) ==
          if other == path then GetRatioAt(m.root, path) else GetRatioAt(l.root, other))
    && 0.1 <= GetOr(GetRatioAt(m.root, path), 0.0) <= 0.9
    && |Panes(m.root, area, l.focus)| == |Panes(l.root, area, l.focus)| == |LeafPaths(l.root, [])|
    && (forall i :: 0 <= i < |LeafPaths(l.root, [])| && !(path <= LeafPaths(l.root, [])[i]) ==>
          Panes(m.root, area, l.focus)[i] == Panes(l.root, area, l.focus)[i])
  }

  lemma MovesOne(l: Layout, nav: NavDirection, delta: real, area: Rect, path: seq<bool>)
    requires DirectionAt(l.root, path) == Some(AxisOf(nav)) && GetRatioAt(l.root, path).Some?
    ensures MovesOneDivider(l, SetRatio(l, path, GetRatioAt(l.root, path).value + if Grows(nav) then delta else -delta),
                            nav, delta, area, path)
  {
    hide SplitRect, Panes, LeafPaths;
    var ratio := Clamp(GetRatioAt(l.root, path).value + if Grows(nav) then delta else -delta);
    forall other ensures GetRatioAt(SetRatioAt(l.root, path, ratio), other) ==
                         if other == path then Some(ratio) else GetRatioAt(l.root, other) {
      SetRatioChangesOne(l.root, path, ratio, other);
    }
    SetRatioIsLocal(l.root, area, [], path, ratio, l.focus);
    assert [] + path == path;
  }

  /** Locality: resizing the focused pane changes nothing, or moves one divider of a split around it. */
  lemma ResizeIsLocal(l: Layout, nav: NavDirection, delta: real, area: Rect)
    requires Valid(l)
    ensures var m := ResizeFocused(l, nav, delta, area);
            var f := PositionOf(Ids(l.root), l.focus);
            || m == l
            || exists path :: f < |LeafPaths(l.root, [])| && path <= LeafPaths(l.root, [])[f]
                              && MovesOneDivider(l, m, nav, delta, area, path)
  {
    hide Splits, Panes, LeafPaths, MovesOneDivider, Leads, SetRatio, Eligible, SplitEdgeDistance, Distinct;
    var f := PositionOf(Ids(l.root), l.focus);
    var splits := Splits(l.root, area, []);
    var best := ChosenSplit(splits, FocusedRect(l, area), nav);
    WiderRatios(l.root, 0.1, 0.9, 0.0, 1.0);
    PanesFollowIds(l.root, area, l.focus);
    LeafPathsExtend(l.root, []);
    NearestIsAncestor(l.root, area, l.focus, f, nav);
    NearestIsAncestor(l.root, area, l.focus, f, Opposite(nav));
    if best.Some? {
      var path := splits[best.value].path;
      ChosenLeads(l.root, area, FocusedRect(l, area), nav);
      MovesOne(l, nav, delta, area, path);
    }
  }

  lemma ChosenLeads(node: Node, area: Rect, me: Rect, nav: NavDirection)
    requires ChosenSplit(Splits(node, area, []), me, nav).Some?
    ensures var path := Splits(node, area, [])[ChosenSplit(Splits(node, area, []), me, nav).value].path;
            DirectionAt(node, path) == Some(AxisOf(nav)) && GetRatioAt(node, path).Some?
  {
    hide Splits;
    var splits := Splits(node, area, []);
    var best := ChosenSplit(splits, me, nav).value;
    SplitsLead(node, area, [], best);
    assert splits[best].path[0..] == splits[best].path;
  }

  // --- A pane that does not fill the area has a divider to move ---

  lemma {:induction false} EdgeHasDivider(node: Node, area: Rect, pre: seq<bool>, focus: nat, f: nat,
                                          nav: NavDirection) returns (j: nat)
    requires RatiosWithin(node, 0.0, 1.0)
    requires f < |Ids(node)| == |Panes(node, area, focus)|
    requires var r := Panes(node, area, focus)[f].rect; r.width > 0 && r.height > 0 && HasRoom(r, area, nav)
    ensures j < |Splits(node, area, pre)|
    ensures var me := Panes(node, area, focus)[f].rect;
            Eligible(Splits(node, area, pre)[j], me, nav) && SplitEdgeDistance(Splits(node, area, pre)[j], me, nav) == 0
    decreases node
  {
    hide SplitRect, LeafPaths, Panes, Owner, Eligible;
    PaneWithin(node, area, focus);
    AloneHasNoRoom(node, area, focus);
    var (a, b) := SplitRect(area, node.direction, node.ratio);
    Halves(node, area, pre, focus);
    var n, me := |Ids(node.first)|, Panes(node, area, focus)[f].rect;
    var side := if f < n then a else b;
    PaneWithin(node.first, a, focus);
    PaneWithin(node.second, b, focus);
    if HasRoom(me, side, nav) {
      if f < n {
        var k := EdgeHasDivider(node.first, a, pre + [false], focus, f, nav);
        j := k + 1;
      } else {
        var k := EdgeHasDivider(node.second, b, pre + [true], focus, f - n, nav);
        j := k + 1 + |Splits(node.first, a, pre + [false])|;
      }
    } else {
      j := 0;
      OwnDivider(area, node.direction, node.ratio, pre, me, f < n, nav);
    }
  }

  lemma AloneHasNoRoom(node: Node, area: Rect, focus: nat)
    ensures node.Pane? ==> Panes(node, area, focus) == [PaneInfo(node.id, area, node.id == focus)]
  {
  }

  /** A pane that fills its side of a split but not the area on that edge lies at the split's own divider. */
  lemma OwnDivider(area: Rect, direction: Direction, ratio: real, path: seq<bool>, me: Rect, inFirst: bool,
                   nav: NavDirection)
    requires 0.0 <= ratio <= 1.0 && me.width > 0 && me.height > 0
    requires var (a, b) := SplitRect(area, direction, ratio);
             Within(me, if inFirst then a else b) && !HasRoom(me, if inFirst then a else b, nav) &&
               HasRoom(me, area, nav)
    ensures var (a, b) := SplitRect(area, direction, ratio);
            var own := SplitBorder(Divider(direction, a), direction, ratio, area, path);
            Eligible(own, me, nav) && SplitEdgeDistance(own, me, nav) == 0
  {
    hide SplitRect;
    SplitRectCuts(area, direction, ratio);
  }

  /** A non-empty pane with room on the requested side or the opposite one does have its divider moved. */
  lemma ResizeFindsDivider(l: Layout, nav: NavDirection, delta: real, area: Rect)
    requires Valid(l) && FocusedRect(l, area).width > 0 && FocusedRect(l, area).height > 0
    requires HasRoom(FocusedRect(l, area), area, nav) || HasRoom(FocusedRect(l, area), area, Opposite(nav))
    ensures exists path :: MovesOneDivider(l, ResizeFocused(l, nav, delta, area), nav, delta, area, path)
  {
    hide Splits, Panes, LeafPaths, MovesOneDivider, SetRatio, Eligible, SplitEdgeDistance, Distinct, HasRoom;
    var f := PositionOf(Ids(l.root), l.focus);
    var splits, me := Splits(l.root, area, []), FocusedRect(l, area);
    WiderRatios(l.root, 0.1, 0.9, 0.0, 1.0);
    PanesFollowIds(l.root, area, l.focus);
    if HasRoom(me, area, nav) {
      var j := EdgeHasDivider(l.root, area, [], l.focus, f, nav);
    } else {
      var j := EdgeHasDivider(l.root, area, [], l.focus, f, Opposite(nav));
    }
    assert ChosenSplit(splits, me, nav).Some?;
    ChosenLeads(l.root, area, me, nav);
    var path := splits[ChosenSplit(splits, me, nav).value].path;
    MovesOne(l, nav, delta, area, path);
    assert MovesOneDivider(l, ResizeFocused(l, nav, delta, area), nav, delta, area, path);
  }

  lemma ResizeKeepsValid(l: Layout, nav: NavDirection, delta: real, area: Rect)
    requires Valid(l)
    ensures Valid(ResizeFocused(l, nav, delta, area)) && Ids(ResizeFocused(l, nav, delta, area).root) == Ids(l.root)
  {
    hide Splits, Valid, FocusedRect;
    if l.focus in Ids(l.root) {
      var splits := Splits(l.root, area, []);
      var best := ChosenSplit(splits, FocusedRect(l, area), nav);
      if best.Some? {
        var path := splits[best.value].path;
        SetRatioKeepsValid(l, path, GetOr(GetRatioAt(l.root, path), 0.5) + if Grows(nav) then delta else -delta);
      }
    }
  }
}

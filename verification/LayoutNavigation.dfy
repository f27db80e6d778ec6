/** Moving the focus by direction: `find_in_direction` of `src/layout.rs` picks the best-ranked pane on the
    requested side, and in a tiling there always is one that touches. */
module LayoutNavigation {
  import opened Bytes
  import opened LayoutTree
  import opened LayoutTiling

  predicate RangesOverlap(aStart: nat, aLen: nat, bStart: nat, bLen: nat) {
    aStart < bStart + bLen && aStart + aLen > bStart
  }

  function RangeOverlapAmount(aStart: nat, aLen: nat, bStart: nat, bLen: nat): nat {
    SaturatingSub(Min(Min(aStart + aLen, U16_MAX), Min(bStart + bLen, U16_MAX)), Max(aStart, bStart))
  }

  function RangeCenterDistance(aStart: nat, aLen: nat, bStart: nat, bLen: nat): nat {
    var a := Min(Min(aStart * 2, U16_MAX) + aLen, U16_MAX);
    var b := Min(Min(bStart * 2, U16_MAX) + bLen, U16_MAX);
    if a >= b then a - b else b - a
  }

  predicate OnSide(r: Rect, focused: Rect, direction: NavDirection) {
    match direction
    case Left => r.x + r.width <= focused.x
    case Right => r.x >= focused.x + focused.width
    case Up => r.y + r.height <= focused.y
    case Down => r.y >= focused.y + focused.height
  }

  predicate CrossOverlap(r: Rect, focused: Rect, direction: NavDirection) {
    match direction
    case Left | Right => RangesOverlap(r.y, r.height, focused.y, focused.height)
    case Up | Down => RangesOverlap(r.x, r.width, focused.x, focused.width)
  }

  predicate Candidate(p: PaneInfo, focused: PaneInfo, direction: NavDirection) {
    p.id != focused.id && OnSide(p.rect, focused.rect, direction) && CrossOverlap(p.rect, focused.rect, direction)
  }

  function EdgeDistance(r: Rect, focused: Rect, direction: NavDirection): nat {
    match direction
    case Left => SaturatingSub(focused.x, r.x + r.width)
    case Right => SaturatingSub(r.x, focused.x + focused.width)
    case Up => SaturatingSub(focused.y, r.y + r.height)
    case Down => SaturatingSub(r.y, focused.y + focused.height)
  }

  function Overlap(r: Rect, focused: Rect, direction: NavDirection): nat {
    match direction
    case Left | Right => RangeOverlapAmount(r.y, r.height, focused.y, focused.height)
    case Up | Down => RangeOverlapAmount(r.x, r.width, focused.x, focused.width)
  }

  function CenterDistance(r: Rect, focused: Rect, direction: NavDirection): nat {
    match direction
    case Left | Right => RangeCenterDistance(r.y, r.height, focused.y, focused.height)
    case Up | Down => RangeCenterDistance(r.x, r.width, focused.x, focused.width)
  }

  datatype Rank = Rank(distance: nat, overlap: nat, center: nat, index: nat)

  /** Nearer first, then the larger overlap, then the nearer centre, then the earlier pane. */
  predicate Precedes(a: Rank, b: Rank) {
    if a.distance != b.distance then a.distance < b.distance
    else if a.overlap != b.overlap then a.overlap > b.overlap
    else if a.center != b.center then a.center < b.center
    else a.index < b.index
  }

  function RankOf(panes: seq<PaneInfo>, focused: PaneInfo, direction: NavDirection, i: nat): Rank
    requires i < |panes|
  {
    var r := panes[i].rect;
    Rank(EdgeDistance(r, focused.rect, direction), Overlap(r, focused.rect, direction),
         CenterDistance(r, focused.rect, direction), i)
  }

  /** A candidate that ranks before every other one from index `from` on. */
  predicate LeadsFrom(panes: seq<PaneInfo>, focused: PaneInfo, direction: NavDirection, from: nat, i: nat)
    requires i < |panes|
  {
    && from <= i && Candidate(panes[i], focused, direction)
    && forall j :: from <= j < |panes| && j != i && Candidate(panes[j], focused, direction) ==>
         Precedes(RankOf(panes, focused, direction, i), RankOf(panes, focused, direction, j))
  }

  /** The least-ranked candidate from index `from` on (`filter`, then `min_by_key`). */
  function BestFrom(panes: seq<PaneInfo>, focused: PaneInfo, direction: NavDirection, from: nat): (best: Option<nat>)
    ensures best.Some? ==> best.value < |panes| && LeadsFrom(panes, focused, direction, from, best.value)
    ensures best.None? ==> forall j :: from <= j < |panes| ==> !Candidate(panes[j], focused, direction)
    decreases |panes| - from
  {
    if from >= |panes| then None
    else
      var rest := BestFrom(panes, focused, direction, from + 1);
      if Candidate(panes[from], focused, direction)
         && (rest.None? || Precedes(RankOf(panes, focused, direction, from),
                                    RankOf(panes, focused, direction, rest.value)))
      then Some(from)
      else rest
  }

  /** `find_in_direction` */
  function FindInDirection(focused: PaneInfo, direction: NavDirection, panes: seq<PaneInfo>): Option<nat> {
    var best := BestFrom(panes, focused, direction, 0);
    if best.Some? then Some(panes[best.value].id) else None
  }

  /** The pane does not touch the edge of the area on that side. */
  predicate HasRoom(r: Rect, area: Rect, direction: NavDirection) {
    match direction
    case Left => area.x < r.x
    case Right => r.x + r.width < area.x + area.width
    case Up => area.y < r.y
    case Down => r.y + r.height < area.y + area.height
  }

  /** A cell just beyond the pane on that side, in line with its near corner. */
  function Neighbour(r: Rect, direction: NavDirection): (int, int) {
    match direction
    case Left => (r.x - 1, r.y)
    case Right => (r.x + r.width, r.y)
    case Up => (r.x, r.y - 1)
    case Down => (r.x, r.y + r.height)
  }

  /** The cell of the pane next to that one. */
  function Facing(r: Rect, direction: NavDirection): (int, int) {
    match direction
    case Left => (r.x, r.y)
    case Right => (r.x + r.width - 1, r.y)
    case Up => (r.x, r.y)
    case Down => (r.x, r.y + r.height - 1)
  }

  /** A rect that holds the cell beyond the pane but not the pane's own cell before it touches the pane. */
  lemma NeighbourTouches(r: Rect, focused: Rect, direction: NavDirection)
    requires focused.width > 0 && focused.height > 0
    requires var (x, y) := Neighbour(focused, direction); Inside(r, x, y)
    requires var (x, y) := Facing(focused, direction); !Inside(r, x, y)
    ensures OnSide(r, focused, direction) && CrossOverlap(r, focused, direction)
    ensures EdgeDistance(r, focused, direction) == 0
  {
  }

  /** Navigation is complete: in a layout's own panes, a non-empty pane that does not touch the area's edge has
      a pane next to it there, and the one found touches it, overlaps it and ranks before every other. */
  lemma NavigationReachesNeighbour(node: Node, area: Rect, focus: nat, f: nat, direction: NavDirection)
    requires RatiosWithin(node, 0.0, 1.0) && Distinct(Ids(node))
    requires f < |Panes(node, area, focus)|
    requires var r := Panes(node, area, focus)[f].rect; r.width > 0 && r.height > 0 && HasRoom(r, area, direction)
    ensures var panes := Panes(node, area, focus);
            var best := BestFrom(panes, panes[f], direction, 0);
            && best.Some? && best.value != f && FindInDirection(panes[f], direction, panes) ==
               Some(panes[best.value].id)
            && OnSide(panes[best.value].rect, panes[f].rect, direction)
            && CrossOverlap(panes[best.value].rect, panes[f].rect, direction)
            && EdgeDistance(panes[best.value].rect, panes[f].rect, direction) == 0
            && LeadsFrom(panes, panes[f], direction, 0, best.value)
  {
    hide Panes, Ids, Owner, Overlap, CenterDistance, RatiosWithin;
    var panes := Panes(node, area, focus);
    var me := panes[f].rect;
    var (x, y) := Neighbour(me, direction);
    var (u, v) := Facing(me, direction);
    PanesFollowIds(node, area, focus);
    TilesExactly(node, area, focus, x, y);
    TilesExactly(node, area, focus, u, v);
    var i := Owner(node, area, x, y);
    assert Inside(me, u, v) && !Inside(me, x, y);
    assert Within(me, area) && Inside(area, x, y);
    assert Inside(panes[i].rect, x, y) && i != f && !Inside(panes[i].rect, u, v);
    NeighbourTouches(panes[i].rect, me, direction);
    assert Candidate(panes[i], panes[f], direction);
  }
}

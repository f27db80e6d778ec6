/** Navigation said once for all four directions: every rect is turned so that the way to go is up the axis. */
module LayoutHeading {
  import opened Bytes
  import opened LayoutTree
  import opened LayoutNavigation
  import opened LayoutEditing
  import opened LayoutResize

  /** From where to where a rect reaches on the way, and across it. */
  datatype Span = Span(near: int, far: int, low: int, high: int)

  function Turned(r: Rect, direction: NavDirection): Span {
    match direction
    case Right => Span(r.x, r.x + r.width, r.y, r.y + r.height)
    case Left => Span(-(r.x + r.width), -(r.x as int), r.y, r.y + r.height)
    case Down => Span(r.y, r.y + r.height, r.x, r.x + r.width)
    case Up => Span(-(r.y + r.height), -(r.y as int), r.x, r.x + r.width)
  }

  /** Wholly further on, and at one height with the other rect somewhere. */
  predicate Ahead(r: Span, from: Span) {
    from.far <= r.near && r.low < from.high && from.low < r.high
  }

  function Gap(r: Span, from: Span): int { r.near - from.far }

  /** How much of their heights the two share. */
  function Common(r: Span, from: Span): int {
    (if r.high <= from.high then r.high else from.high) - (if r.low >= from.low then r.low else from.low)
  }

  /** Twice the distance of their middles. */
  function Skew(r: Span, from: Span): int {
    var d := (r.low + r.high) - (from.low + from.high);
    if d >= 0 then d else -d
  }

  /** Twice every coordinate is a 16-bit number. */
  predicate Small(r: Rect) {
    2 * (r.x + r.width) <= U16_MAX && 2 * (r.y + r.height) <= U16_MAX
  }

  lemma PlacesTurn(r: Rect, focused: Rect, direction: NavDirection)
    ensures var a, b := Turned(r, direction), Turned(focused, direction);
            && (OnSide(r, focused, direction) && CrossOverlap(r, focused, direction) <==> Ahead(a, b))
            && (Ahead(a, b) ==> EdgeDistance(r, focused, direction) == Gap(a, b))
  {
  }

  lemma MeasuresTurn(r: Rect, focused: Rect, direction: NavDirection)
    requires Small(r) && Small(focused) && Ahead(Turned(r, direction), Turned(focused, direction))
    ensures var a, b := Turned(r, direction), Turned(focused, direction);
            Overlap(r, focused, direction) == Common(a, b) && CenterDistance(r, focused, direction) == Skew(a, b)
  {
    hide RangeOverlapAmount, RangeCenterDistance;
    RangesTurn(r.x, r.width, focused.x, focused.width);
    RangesTurn(r.y, r.height, focused.y, focused.height);
  }

  lemma RangesTurn(aStart: nat, aLen: nat, bStart: nat, bLen: nat)
    requires 2 * (aStart + aLen) <= U16_MAX && 2 * (bStart + bLen) <= U16_MAX
    ensures var a, b := Span(0, 0, aStart, aStart + aLen), Span(0, 0, bStart, bStart + bLen);
            && (a.low < b.high && b.low < a.high ==> RangeOverlapAmount(aStart, aLen, bStart, bLen) == Common(a, b))
            && RangeCenterDistance(aStart, aLen, bStart, bLen) == Skew(a, b)
  {
  }

  /** Pane `i` is a place to go. */
  predicate Goal(panes: seq<PaneInfo>, focused: PaneInfo, direction: NavDirection, i: nat)
    requires i < |panes|
  {
    panes[i].id != focused.id && Ahead(Turned(panes[i].rect, direction), Turned(focused.rect, direction))
  }

  /** Pane `i` is the better one: a smaller gap, else more height in common, else the nearer middle, else earlier. */
  predicate Better(panes: seq<PaneInfo>, focused: PaneInfo, direction: NavDirection, i: nat, j: nat)
    requires i < |panes| && j < |panes|
  {
    var from := Turned(focused.rect, direction);
    var a, b := Turned(panes[i].rect, direction), Turned(panes[j].rect, direction);
    || Gap(a, from) < Gap(b, from)
    || (Gap(a, from) == Gap(b, from) && Common(a, from) > Common(b, from))
    || (Gap(a, from) == Gap(b, from) && Common(a, from) == Common(b, from) && Skew(a, from) < Skew(b, from))
    || (Gap(a, from) == Gap(b, from) && Common(a, from) == Common(b, from) && Skew(a, from) == Skew(b, from) && i < j)
  }

  /** Navigation finds the pane that is better than every other place to go, and nothing only if there is none. */
  lemma NavigationIsOptimal(panes: seq<PaneInfo>, focused: PaneInfo, direction: NavDirection)
    requires Small(focused.rect) && forall i :: 0 <= i < |panes| ==> Small(panes[i].rect)
    ensures var best := BestFrom(panes, focused, direction, 0);
            match best
            case None =>
              && FindInDirection(focused, direction, panes) == None
              && forall j :: 0 <= j < |panes| ==> !Goal(panes, focused, direction, j)
            case Some(i) =>
              && FindInDirection(focused, direction, panes) == Some(panes[i].id)
              && Goal(panes, focused, direction, i)
              && forall j :: 0 <= j < |panes| && j != i && Goal(panes, focused, direction, j) ==>
                   Better(panes, focused, direction, i, j)
  {
    hide OnSide, CrossOverlap, EdgeDistance, Overlap, CenterDistance, Turned, Gap, Common, Skew, Ahead, Small;
    forall i | 0 <= i < |panes|
      ensures Candidate(panes[i], focused, direction) <==> Goal(panes, focused, direction, i)
    {
      PlacesTurn(panes[i].rect, focused.rect, direction);
    }
    var best := BestFrom(panes, focused, direction, 0);
    if best.Some? {
      PlacesTurn(panes[best.value].rect, focused.rect, direction);
      MeasuresTurn(panes[best.value].rect, focused.rect, direction);
      forall j | 0 <= j < |panes| && j != best.value && Goal(panes, focused, direction, j)
        ensures Better(panes, focused, direction, best.value, j)
      {
        PlacesTurn(panes[j].rect, focused.rect, direction);
        MeasuresTurn(panes[j].rect, focused.rect, direction);
        assert Candidate(panes[j], focused, direction);
      }
    }
  }

  // --- The divider that a resize moves ---

  function TurnedPosition(pos: nat, nav: NavDirection): int {
    match nav
    case Right | Down => pos
    case Left | Up => -(pos as int)
  }

  /** How far a divider is from the edge of the pane in that direction. */
  function Offset(s: SplitBorder, me: Rect, nav: NavDirection): int {
    var d := TurnedPosition(s.pos, nav) - Turned(me, nav).far;
    if d >= 0 then d else -d
  }

  /** A divider across the way, of a split at one height with the pane somewhere, at most one cell from its edge. */
  predicate AtEdge(s: SplitBorder, me: Rect, nav: NavDirection) {
    var a, b := Turned(s.area, nav), Turned(me, nav);
    && s.direction == (if nav.Left? || nav.Right? then Horizontal else Vertical)
    && a.low < b.high && b.low < a.high && Offset(s, me, nav) <= 1
  }

  /** The first of the nearest dividers at the edge. */
  ghost predicate IsNearest(splits: seq<SplitBorder>, me: Rect, nav: NavDirection, i: nat) {
    && i < |splits| && AtEdge(splits[i], me, nav)
    && forall j :: 0 <= j < |splits| && AtEdge(splits[j], me, nav) ==>
         Offset(splits[i], me, nav) <= Offset(splits[j], me, nav) &&
         (j < i ==> Offset(splits[i], me, nav) < Offset(splits[j], me, nav))
  }

  lemma EligibleTurns(s: SplitBorder, me: Rect, nav: NavDirection)
    ensures Eligible(s, me, nav) <==> AtEdge(s, me, nav)
    ensures SplitEdgeDistance(s, me, nav) == Offset(s, me, nav)
  {
  }

  lemma NearestIs(splits: seq<SplitBorder>, me: Rect, nav: NavDirection)
    ensures match NearestFrom(splits, me, nav, 0)
            case None => forall j :: 0 <= j < |splits| ==> !AtEdge(splits[j], me, nav)
            case Some(i) => IsNearest(splits, me, nav, i)
  {
    hide Eligible, AtEdge, SplitEdgeDistance, Offset;
    forall s ensures Eligible(s, me, nav) <==> AtEdge(s, me, nav)
             ensures SplitEdgeDistance(s, me, nav) == Offset(s, me, nav)
    {
      EligibleTurns(s, me, nav);
    }
  }

  /** `m` is `l` with the nearest divider at the edge moved by that much. */
  ghost predicate MovesNearest(l: Layout, m: Layout, splits: seq<SplitBorder>, me: Rect, nav: NavDirection,
                               change: real) {
    exists i: nat :: IsNearest(splits, me, nav, i) && m == SetRatio(l, splits[i].path, splits[i].ratio + change)
  }

  ghost predicate NoneAtEdge(splits: seq<SplitBorder>, me: Rect, nav: NavDirection) {
    forall j :: 0 <= j < |splits| ==> !AtEdge(splits[j], me, nav)
  }

  function Back(nav: NavDirection): NavDirection {
    match nav case Left => Right case Right => Left case Up => Down case Down => Up
  }

  /** A resize moves the nearest divider at the edge of the focused pane on the requested side, else the nearest one
      on the other side, and adds the delta to its ratio when going right or down and takes it off otherwise; with no
      such divider it does nothing. */
  lemma ResizeMovesNearest(l: Layout, nav: NavDirection, delta: real, area: Rect)
    requires l.focus in Ids(l.root)
    ensures var splits, me, m := Splits(l.root, area, []), FocusedRect(l, area), ResizeFocused(l, nav, delta, area);
            var change := if nav.Right? || nav.Down? then delta else -delta;
            || MovesNearest(l, m, splits, me, nav, change)
            || (NoneAtEdge(splits, me, nav) && MovesNearest(l, m, splits, me, Back(nav), change))
            || (NoneAtEdge(splits, me, nav) && NoneAtEdge(splits, me, Back(nav)) && m == l)
  {
    hide Splits, FocusedRect, SetRatio, AtEdge, IsNearest, NearestFrom, GetRatioAt, DirectionAt, Ids;
    var splits, me := Splits(l.root, area, []), FocusedRect(l, area);
    NearestIs(splits, me, nav);
    NearestIs(splits, me, Opposite(nav));
    var best := ChosenSplit(splits, me, nav);
    if best.Some? {
      NearestInRange(splits, me, nav);
      SplitsLead(l.root, area, [], best.value);
      assert splits[best.value].path[0..] == splits[best.value].path;
    }
  }

  lemma NearestInRange(splits: seq<SplitBorder>, me: Rect, nav: NavDirection)
    ensures ChosenSplit(splits, me, nav).Some? ==> ChosenSplit(splits, me, nav).value < |splits|
  {
  }
}

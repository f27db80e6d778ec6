/** The split tree of `src/layout.rs`: leaves, geometry and editing, as functions on an owned tree. Ratios
    are real numbers; a ratio that is not finite is `None` where the source checks for it. */
module LayoutTree {
  import opened Bytes

  datatype Direction = Horizontal | Vertical

  datatype NavDirection = Left | Right | Up | Down

  datatype Node =
    | Pane(id: nat)
    | Split(direction: Direction, ratio: real, first: Node, second: Node)

  datatype Rect = Rect(x: nat, y: nat, width: nat, height: nat)

  datatype PaneInfo = PaneInfo(id: nat, rect: Rect, focused: bool)

  /** A divider: where it lies, and the path to its split (false for first, true for second). */
  datatype SplitBorder = SplitBorder(pos: nat, direction: Direction, ratio: real, area: Rect, path: seq<bool>)

  const U16_MAX: nat := 0xffff

  function Min(a: nat, b: nat): nat { if a <= b then a else b }
  function Max(a: nat, b: nat): nat { if a >= b then a else b }
  function SaturatingSub(a: nat, b: nat): nat { if a >= b then a - b else 0 }

  // --- Geometry ---

  /** `f32::round() as u16`: half away from zero, clamped to the target type. */
  function RoundToU16(v: real): nat {
    if v < 0.0 then 0 else Min((v + 0.5).Floor, U16_MAX)
  }

  function Scaled(total: real, ratio: real): real { total * ratio }

  /** The first share of a length. */
  function Share(total: nat, ratio: real): nat { RoundToU16(Scaled(total as real, ratio)) }

  /** `split_rect` */
  function SplitRect(area: Rect, direction: Direction, ratio: real): (Rect, Rect) {
    match direction
    case Horizontal =>
      var firstWidth := Share(area.width, ratio);
      (area.(width := firstWidth),
       Rect(area.x + firstWidth, area.y, SaturatingSub(area.width, firstWidth), area.height))
    case Vertical =>
      var firstHeight := Share(area.height, ratio);
      (area.(height := firstHeight),
       Rect(area.x, area.y + firstHeight, area.width, SaturatingSub(area.height, firstHeight)))
  }

  /** `collect_panes` */
  function Panes(node: Node, area: Rect, focus: nat): seq<PaneInfo> {
    match node
    case Pane(id) => [PaneInfo(id, area, id == focus)]
    case Split(direction, ratio, first, second) =>
      var (a, b) := SplitRect(area, direction, ratio);
      Panes(first, a, focus) + Panes(second, b, focus)
  }

  function Divider(direction: Direction, first: Rect): nat {
    match direction
    case Horizontal => first.x + first.width
    case Vertical => first.y + first.height
  }

  /** `collect_splits` */
  function Splits(node: Node, area: Rect, path: seq<bool>): seq<SplitBorder> {
    match node
    case Pane(_) => []
    case Split(direction, ratio, first, second) =>
      var (a, b) := SplitRect(area, direction, ratio);
      [SplitBorder(Divider(direction, a), direction, ratio, area, path)] +
      Splits(first, a, path + [false]) + Splits(second, b, path + [true])
  }

  // --- Leaves ---

  /** `collect_ids` */
  function Ids(node: Node): (ids: seq<nat>)
    ensures ids != []
  {
    match node
    case Pane(id) => [id]
    case Split(_, _, first, second) => Ids(first) + Ids(second)
  }

  /** `count_panes` */
  function CountPanes(node: Node): nat {
    match node
    case Pane(_) => 1
    case Split(_, _, first, second) => CountPanes(first) + CountPanes(second)
  }

  /** Path from the root to each leaf, in leaf order. */
  function LeafPaths(node: Node, path: seq<bool>): seq<seq<bool>> {
    match node
    case Pane(_) => [path]
    case Split(_, _, first, second) => LeafPaths(first, path + [false]) + LeafPaths(second, path + [true])
  }

  predicate Distinct<T(==)>(s: seq<T>) {
    forall i, j :: 0 <= i < j < |s| ==> s[i] != s[j]
  }

  predicate RatiosWithin(node: Node, low: real, high: real) {
    match node
    case Pane(_) => true
    case Split(_, ratio, first, second) =>
      low <= ratio <= high && RatiosWithin(first, low, high) && RatiosWithin(second, low, high)
  }

  // --- Editing ---

  function Clamp(ratio: real): real {
    if ratio < 0.1 then 0.1 else if ratio > 0.9 then 0.9 else ratio
  }

  /** `valid_split_ratio` */
  function ValidSplitRatio(ratio: Option<real>): real {
    if ratio.Some? then Clamp(ratio.value) else 0.5
  }

  /** `split_at` */
  function SplitAt(node: Node, target: nat, direction: Direction, newId: nat, ratio: real): Node {
    match node
    case Pane(id) => if id == target then Split(direction, ratio, Pane(id), Pane(newId)) else node
    case Split(d, r, first, second) =>
      Split(d, r, SplitAt(first, target, direction, newId, ratio), SplitAt(second, target, direction, newId, ratio))
  }

  /** `remove_pane` */
  function RemovePane(node: Node, target: nat): Option<Node> {
    match node
    case Pane(id) => if id == target then None else Some(node)
    case Split(direction, ratio, first, second) =>
      match (RemovePane(first, target), RemovePane(second, target))
      case (None, s) => s
      case (Some(f), None) => Some(f)
      case (Some(f), Some(s)) => Some(Split(direction, ratio, f, s))
  }

  function SwapId(id: nat, a: nat, b: nat): nat {
    if id == a then b else if id == b then a else id
  }

  /** `swap_pane_ids` */
  function SwapIds(node: Node, a: nat, b: nat): Node {
    match node
    case Pane(id) => Pane(SwapId(id, a, b))
    case Split(direction, ratio, first, second) => Split(direction, ratio, SwapIds(first, a, b), SwapIds(second, a, b))
  }

  /** `get_ratio_at` */
  function GetRatioAt(node: Node, path: seq<bool>): Option<real> {
    match node
    case Pane(_) => None
    case Split(_, ratio, first, second) =>
      if path == [] then Some(ratio)
      else GetRatioAt(if path[0] then second else first, path[1..])
  }

  /** `set_ratio_at`; the source also says whether the path leads to a split. */
  function SetRatioAt(node: Node, path: seq<bool>, ratio: real): Node {
    match node
    case Pane(_) => node
    case Split(direction, r, first, second) =>
      if path == [] then Split(direction, ratio, first, second)
      else if path[0] then Split(direction, r, first, SetRatioAt(second, path[1..], ratio))
      else Split(direction, r, SetRatioAt(first, path[1..], ratio), second)
  }

  /** `split_ratios` */
  function SplitRatios(node: Node, path: seq<bool>): seq<(seq<bool>, real)> {
    match node
    case Pane(_) => []
    case Split(_, ratio, first, second) =>
      [(path, ratio)] + SplitRatios(first, path + [false]) + SplitRatios(second, path + [true])
  }
}

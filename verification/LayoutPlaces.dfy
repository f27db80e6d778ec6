/** Where each edit puts things: the one subtree it replaces, and the rects of the panes concerned. */
module LayoutPlaces {
  import opened Bytes
  import opened LayoutTree
  import opened LayoutTiling
  import opened LayoutEditing
  import opened LayoutResize

  // --- Subtrees by path ---

  function NodeAt(t: Node, path: seq<bool>): Option<Node> {
    if path == [] then Some(t)
    else match t
      case Pane(_) => None
      case Split(_, _, first, second) => NodeAt(if path[0] then second else first, path[1..])
  }

  /** The tree with another subtree at a path. */
  function Replaced(t: Node, path: seq<bool>, u: Node): Node {
    if path == [] then u
    else match t
      case Pane(_) => t
      case Split(direction, ratio, first, second) =>
        if path[0] then Split(direction, ratio, first, Replaced(second, path[1..], u))
        else Split(direction, ratio, Replaced(first, path[1..], u), second)
  }

  // --- Splitting ---

  lemma {:induction false} SplitAbsent(t: Node, target: nat, direction: Direction, newId: nat, ratio: real)
    requires target !in Ids(t)
    ensures SplitAt(t, target, direction, newId, ratio) == t
    decreases t
  {
    if t.Split? {
      SplitAbsent(t.first, target, direction, newId, ratio);
      SplitAbsent(t.second, target, direction, newId, ratio);
    }
  }

  lemma DistinctConcat(a: seq<nat>, b: seq<nat>)
    requires Distinct(a + b)
    ensures Distinct(a) && Distinct(b) && forall x :: !(x in a && x in b)
  {
    var all := a + b;
    assert forall i :: 0 <= i < |a| ==> a[i] == all[i];
    assert forall i :: 0 <= i < |b| ==> b[i] == all[|a| + i];
  }

  lemma DistinctSides(t: Node, k: nat)
    requires t.Split? && Distinct(Ids(t)) && k < |Ids(t)|
    ensures Distinct(Ids(t.first)) && Distinct(Ids(t.second)) && |Ids(t)| == |Ids(t.first)| + |Ids(t.second)|
    ensures var n := |Ids(t.first)|;
            if k < n then Ids(t)[k] == Ids(t.first)[k] && Ids(t)[k] !in Ids(t.second)
            else Ids(t)[k] == Ids(t.second)[k - n] && Ids(t)[k] !in Ids(t.first)
  {
    hide Distinct;
    IdsOfSplit(t);
    DistinctConcat(Ids(t.first), Ids(t.second));
  }

  lemma IdsOfSplit(t: Node)
    requires t.Split?
    ensures Ids(t) == Ids(t.first) + Ids(t.second)
  {
  }

  lemma SideOfPath(t: Node, pre: seq<bool>, k: nat)
    requires t.Split? && k < |Ids(t)| == |LeafPaths(t, pre)|
    ensures |LeafPaths(t.first, pre + [false])| == |Ids(t.first)|
    ensures |LeafPaths(t.second, pre + [true])| == |Ids(t.second)| == |Ids(t)| - |Ids(t.first)|
    ensures var leaf, n := LeafPaths(t, pre)[k], |Ids(t.first)|;
            && |leaf| > |pre| && leaf[|pre|] == (k >= n) && pre + [k >= n] <= leaf
            && leaf == if k < n then LeafPaths(t.first, pre + [false])[k] else LeafPaths(t.second, pre + [true])[k - n]
  {
    LeafPathsExtend(t.first, pre + [false]);
    LeafPathsExtend(t.second, pre + [true]);
  }

  /** Splitting replaces the leaf of the target by a split of the target and the new pane, in that order, with the
      direction and the ratio asked for; nothing else changes. */
  lemma {:induction false} SplitReplacesLeaf(t: Node, pre: seq<bool>, k: nat, direction: Direction, newId: nat,
                                             ratio: real)
    requires Distinct(Ids(t)) && k < |Ids(t)| == |LeafPaths(t, pre)|
    ensures pre <= LeafPaths(t, pre)[k]
    ensures var target := Ids(t)[k];
            SplitAt(t, target, direction, newId, ratio) ==
            Replaced(t, LeafPaths(t, pre)[k][|pre|..], Split(direction, ratio, Pane(target), Pane(newId)))
    decreases t
  {
    hide Distinct, LeafPaths;
    LeafPathsExtend(t, pre);
    var leaf, target := LeafPaths(t, pre)[k], Ids(t)[k];
    if t.Split? {
      var n := |Ids(t.first)|;
      DistinctSides(t, k);
      SideOfPath(t, pre, k);
      assert leaf[|pre|..][0] == (k >= n) && leaf[|pre|..][1..] == leaf[|pre| + 1..];
      if k < n {
        SplitReplacesLeaf(t.first, pre + [false], k, direction, newId, ratio);
        SplitAbsent(t.second, target, direction, newId, ratio);
      } else {
        SplitReplacesLeaf(t.second, pre + [true], k - n, direction, newId, ratio);
        SplitAbsent(t.first, target, direction, newId, ratio);
      }
    } else {
      LeafOfPane(t, pre);
    }
  }

  lemma LeafOfPane(t: Node, pre: seq<bool>)
    requires t.Pane?
    ensures LeafPaths(t, pre) == [pre] && Ids(t) == [t.id] && pre[|pre|..] == []
  {
  }

  /** The rect of the target is cut in two, the near part for it and the far part for the new pane; the other panes
      keep theirs. */
  lemma {:induction false} SplitCutsRect(t: Node, area: Rect, focus: nat, newFocus: nat, k: nat, direction: Direction,
                                         newId: nat, ratio: real)
    requires Distinct(Ids(t)) && k < |Ids(t)| == |Panes(t, area, focus)|
    ensures var old', new' := Panes(t, area, focus), Panes(SplitAt(t, Ids(t)[k], direction, newId, ratio),
                                                           area, newFocus);
            var (near, far) := SplitRect(old'[k].rect, direction, ratio);
            && |new'| == |old'| + 1 && new'[k].rect == near && new'[k + 1].rect == far
            && new'[k].id == Ids(t)[k] && new'[k + 1].id == newId
            && (forall i :: 0 <= i < k ==> new'[i].rect == old'[i].rect && new'[i].id == old'[i].id)
            && (forall i :: k < i < |old'| ==> new'[i + 1].rect == old'[i].rect && new'[i + 1].id == old'[i].id)
    decreases t
  {
    hide SplitRect, Distinct;
    if t.Split? {
      var (a, b) := SplitRect(area, t.direction, t.ratio);
      var target, n := Ids(t)[k], |Ids(t.first)|;
      DistinctSides(t, k);
      PanesFollowIds(t.first, a, focus);
      PanesFollowIds(t.second, b, focus);
      SameRects(t.first, a, focus, newFocus);
      SameRects(t.second, b, focus, newFocus);
      if k < n {
        SplitAbsent(t.second, target, direction, newId, ratio);
        SplitCutsRect(t.first, a, focus, newFocus, k, direction, newId, ratio);
      } else {
        SplitAbsent(t.first, target, direction, newId, ratio);
        SplitCutsRect(t.second, b, focus, newFocus, k - n, direction, newId, ratio);
      }
    }
  }

  lemma {:induction false} SameRects(t: Node, area: Rect, focus: nat, newFocus: nat)
    ensures |Panes(t, area, focus)| == |Panes(t, area, newFocus)|
    ensures forall i :: 0 <= i < |Panes(t, area, focus)| ==>
              Panes(t, area, focus)[i].rect == Panes(t, area, newFocus)[i].rect &&
              Panes(t, area, focus)[i].id == Panes(t, area, newFocus)[i].id
    decreases t
  {
    if t.Split? {
      hide SplitRect;
      var (a, b) := SplitRect(area, t.direction, t.ratio);
      SameRects(t.first, a, focus, newFocus);
      SameRects(t.second, b, focus, newFocus);
    }
  }

  /** The ratio that is asked for, kept in [0.1, 0.9], or a half where it is no number. */
  function AskedRatio(ratio: Option<real>): real {
    match ratio
    case None => 0.5
    case Some(r) => if 0.1 <= r <= 0.9 then r else if r < 0.1 then 0.1 else 0.9
  }

  /** Splitting the focused pane, and inserting a pane next to another one, as edits of the tree. */
  lemma SplitAndInsertPlace(l: Layout, target: nat, direction: Direction, ratio: Option<real>, newId: nat)
    requires Valid(l) && target in Ids(l.root)
    ensures PositionOf(Ids(l.root), target) < |LeafPaths(l.root, [])|
    ensures var leaf := LeafPaths(l.root, [])[PositionOf(Ids(l.root), target)];
            var m := Layout(Replaced(l.root, leaf, Split(direction, AskedRatio(ratio), Pane(target),
                                                         Pane(newId))), newId);
            && (target == l.focus ==> SplitFocused(l, direction, ratio, newId) == m)
            && InsertPaneNear(l, target, newId, direction, ratio) == if newId in Ids(l.root) then l else m
  {
    hide LeafPaths, Ids, SplitAt, Replaced, Distinct, RatiosWithin;
    var k := PositionOf(Ids(l.root), target);
    LeafPathsExtend(l.root, []);
    SplitReplacesLeaf(l.root, [], k, direction, newId, AskedRatio(ratio));
    assert LeafPaths(l.root, [])[k][0..] == LeafPaths(l.root, [])[k];
  }

  // --- Removing ---

  /** Where a pane is one side of a split, removing it puts the other side in the place of the split, and nothing
      else changes. */
  lemma {:induction false} RemoveReplacesSplit(t: Node, path: seq<bool>, id: nat)
    requires Distinct(Ids(t)) && NodeAt(t, path).Some? && NodeAt(t, path).value.Split?
    requires var split := NodeAt(t, path).value; split.first == Pane(id) || split.second == Pane(id)
    ensures var split := NodeAt(t, path).value;
            RemovePane(t, id) == Some(Replaced(t, path, if split.first == Pane(id) then split.second else split.first))
    ensures id in Ids(t)
    decreases t
  {
    hide Distinct;
    DistinctParts(t);
    if path == [] {
      if t.first == Pane(id) { RemoveAbsent(t.second, id); } else { RemoveAbsent(t.first, id); }
    } else if path[0] {
      RemoveReplacesSplit(t.second, path[1..], id);
      RemoveAbsent(t.first, id);
    } else {
      RemoveReplacesSplit(t.first, path[1..], id);
      RemoveAbsent(t.second, id);
    }
  }

  lemma DistinctParts(t: Node)
    requires t.Split? && Distinct(Ids(t))
    ensures Distinct(Ids(t.first)) && Distinct(Ids(t.second))
    ensures forall x :: !(x in Ids(t.first) && x in Ids(t.second))
  {
    hide Ids, Distinct;
    IdsOfSplit(t);
    DistinctConcat(Ids(t.first), Ids(t.second));
  }

  // --- Swapping ---

  /** Swapping gives each of the two leaves the id of the other, and leaves every other id. */
  lemma SwapRenames(t: Node, a: nat, b: nat)
    ensures |Ids(SwapIds(t, a, b))| == |Ids(t)|
    ensures forall i :: 0 <= i < |Ids(t)| ==>
              && (Ids(t)[i] == a ==> Ids(SwapIds(t, a, b))[i] == b)
              && (Ids(t)[i] == b ==> Ids(SwapIds(t, a, b))[i] == a)
              && (Ids(t)[i] != a && Ids(t)[i] != b ==> Ids(SwapIds(t, a, b))[i] == Ids(t)[i])
  {
    SwapMovesNothing(t, a, b, Rect(0, 0, 0, 0), 0, []);
  }

  /** The rect of a pane. */
  function PaneRect(t: Node, area: Rect, id: nat): Rect
    requires id in Ids(t)
  {
    PanesFollowIds(t, area, id);
    Panes(t, area, id)[PositionOf(Ids(t), id)].rect
  }

  /** Two panes that are swapped exchange their rects; the other panes keep theirs, and the focus stays on its pane. */
  lemma SwapExchangesRects(l: Layout, a: nat, b: nat, area: Rect)
    requires Valid(l) && a != b && a in Ids(l.root) && b in Ids(l.root)
    ensures var m := SwapPanes(l, a, b);
            && m.focus == l.focus && (forall x :: x in Ids(m.root) <==> x in Ids(l.root))
            && PaneRect(m.root, area, a) == PaneRect(l.root, area, b)
            && PaneRect(m.root, area, b) == PaneRect(l.root, area, a)
            && forall x :: x in Ids(l.root) && x != a && x != b ==>
               PaneRect(m.root, area, x) == PaneRect(l.root, area, x)
  {
    hide Ids, SwapIds, Panes, RatiosWithin;
    var m := SwapPanes(l, a, b);
    SwapRenames(l.root, a, b);
    SwapMovesNothing(l.root, a, b, area, 0, []);
    SwapKeepsDistinct(l.root, a, b);
    SwappedIdsKeep(Ids(l.root), Ids(m.root), a, b);
    SwapTwice(l.root, a, b);
    SwapRenames(m.root, a, b);
    SwappedIdsKeep(Ids(m.root), Ids(l.root), a, b);
    MovedRect(l.root, m.root, area, b, a);
    MovedRect(l.root, m.root, area, a, b);
    forall x | x in Ids(l.root) && x != a && x != b ensures PaneRect(m.root, area, x) == PaneRect(l.root, area, x) {
      MovedRect(l.root, m.root, area, x, x);
    }
  }

  /** Pane `y` has come into the place of pane `x`. */
  lemma MovedRect(t: Node, u: Node, area: Rect, x: nat, y: nat)
    requires x in Ids(t) && y in Ids(u) && Distinct(Ids(t)) && Distinct(Ids(u)) && |Ids(t)| == |Ids(u)|
    requires Ids(u)[PositionOf(Ids(t), x)] == y
    requires |Panes(t, area, 0)| == |Ids(t)| == |Panes(u, area, 0)|
    requires forall i :: 0 <= i < |Ids(t)| ==> Panes(u, area, 0)[i].rect == Panes(t, area, 0)[i].rect
    ensures PaneRect(u, area, y) == PaneRect(t, area, x)
  {
    hide Ids, Panes, Distinct;
    PositionIs(Ids(u), y, PositionOf(Ids(t), x));
    PanesFollowIds(t, area, x);
    PanesFollowIds(u, area, y);
    SameRects(t, area, 0, x);
    SameRects(u, area, 0, y);
  }

  // --- Ratios and shares ---

  /** A ratio that is set is the one asked for, kept in [0.1, 0.9]. */
  lemma SetRatioStores(l: Layout, path: seq<bool>, ratio: real)
    requires GetRatioAt(l.root, path).Some?
    ensures GetRatioAt(SetRatio(l, path, ratio).root, path) ==
            Some(if 0.1 <= ratio <= 0.9 then ratio else if ratio < 0.1 then 0.1 else 0.9)
    ensures SetRatio(l, path, ratio).focus == l.focus
  {
    hide SetRatioAt, GetRatioAt;
    SetRatioChangesOne(l.root, path, Clamp(ratio), path);
  }

  /** The near part of a split is the share of its length nearest to the ratio, the larger of two that are. */
  lemma NearestShare(area: Rect, direction: Direction, ratio: real)
    requires OnScreen(area) && 0.0 <= ratio <= 1.0
    ensures var (near, far) := SplitRect(area, direction, ratio);
            var (share, total) := if direction.Horizontal? then (near.width, area.width)
                else (near.height, area.height);
            share as real - 0.5 <= total as real * ratio < share as real + 0.5
  {
    NearestRound(area.width, ratio);
    NearestRound(area.height, ratio);
  }

  lemma NearestRound(total: nat, ratio: real)
    requires total <= U16_MAX && 0.0 <= ratio <= 1.0
    ensures var share := Share(total, ratio) as real; share - 0.5 <= total as real * ratio < share + 0.5
  {
    hide RoundToU16;
    ScaledWithin(total as real, ratio);
    FloorBelow(Scaled(total as real, ratio) + 0.5, total);
    RoundNear(Scaled(total as real, ratio));
  }

  lemma RoundNear(v: real)
    requires 0.0 <= v && (v + 0.5).Floor <= U16_MAX
    ensures RoundToU16(v) as real - 0.5 <= v < RoundToU16(v) as real + 0.5
  {
  }
}

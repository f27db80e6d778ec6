/** What each editing operation does to the leaves, the shape and the ratios of the tree. */
module LayoutEditing {
  import opened Bytes
  import opened LayoutTree

  // --- Leaf lists ---

  function Without(ids: seq<nat>, x: nat): seq<nat> {
    if ids == [] then [] else if ids[0] == x then Without(ids[1..], x) else [ids[0]] + Without(ids[1..], x)
  }

  function WithAfter(ids: seq<nat>, x: nat, new': nat): seq<nat> {
    if ids == [] then []
    else (if ids[0] == x then [x, new'] else [ids[0]]) + WithAfter(ids[1..], x, new')
  }

  lemma {:induction false} WithoutConcat(a: seq<nat>, b: seq<nat>, x: nat)
    ensures Without(a + b, x) == Without(a, x) + Without(b, x)
  {
    if a == [] {
      assert a + b == b;
    } else {
      WithoutConcat(a[1..], b, x);
      assert (a + b)[1..] == a[1..] + b;
    }
  }

  lemma {:induction false} WithAfterConcat(a: seq<nat>, b: seq<nat>, x: nat, new': nat)
    ensures WithAfter(a + b, x, new') == WithAfter(a, x, new') + WithAfter(b, x, new')
  {
    if a == [] {
      assert a + b == b;
    } else {
      WithAfterConcat(a[1..], b, x, new');
      assert (a + b)[1..] == a[1..] + b;
      var head := if a[0] == x then [x, new'] else [a[0]];
      assert head + (WithAfter(a[1..], x, new') + WithAfter(b, x, new')) ==
             head + WithAfter(a[1..], x, new') + WithAfter(b, x, new');
    }
  }

  lemma {:induction false} WithoutAbsent(ids: seq<nat>, x: nat)
    requires x !in ids
    ensures Without(ids, x) == ids
  {
    if ids != [] { WithoutAbsent(ids[1..], x); }
  }

  lemma Around(ids: seq<nat>, k: nat)
    requires Distinct(ids) && k < |ids|
    ensures ids == ids[..k] + ([ids[k]] + ids[k + 1..])
    ensures ids[k] !in ids[..k] && ids[k] !in ids[k + 1..]
  {
  }

  /** In a list without repeats, taking out the `k`-th entry closes the gap. */
  lemma {:induction false} WithoutAt(ids: seq<nat>, k: nat)
    requires Distinct(ids) && k < |ids|
    ensures Without(ids, ids[k]) == ids[..k] + ids[k + 1..]
  {
    hide Without, Distinct;
    var a, x, b := ids[..k], ids[k], ids[k + 1..];
    Around(ids, k);
    WithoutConcat(a, [x] + b, x);
    WithoutConcat([x], b, x);
    WithoutAbsent(a, x);
    WithoutAbsent(b, x);
    WithoutOne(x);
    assert [] + b == b;
  }

  lemma WithoutOne(x: nat)
    ensures Without([x], x) == []
  {
    assert [x][1..] == [];
  }

  lemma {:induction false} WithAfterAbsent(ids: seq<nat>, x: nat, new': nat)
    requires x !in ids
    ensures WithAfter(ids, x, new') == ids
  {
    if ids != [] { WithAfterAbsent(ids[1..], x, new'); }
  }

  lemma {:induction false} WithAfterAt(ids: seq<nat>, k: nat, new': nat)
    requires Distinct(ids) && k < |ids|
    ensures WithAfter(ids, ids[k], new') == ids[..k] + ([ids[k], new'] + ids[k + 1..])
  {
    hide WithAfter, Distinct;
    var a, x, b := ids[..k], ids[k], ids[k + 1..];
    Around(ids, k);
    WithAfterConcat(a, [x] + b, x, new');
    WithAfterConcat([x], b, x, new');
    WithAfterAbsent(a, x, new');
    WithAfterAbsent(b, x, new');
    WithAfterOne(x, new');
  }

  lemma WithAfterOne(x: nat, new': nat)
    ensures WithAfter([x], x, new') == [x, new']
  {
    assert [x][1..] == [];
    assert [x, new'] + [] == [x, new'];
  }

  // --- Splitting ---

  lemma {:induction false} SplitIds(t: Node, target: nat, direction: Direction, newId: nat, ratio: real)
    ensures Ids(SplitAt(t, target, direction, newId, ratio)) == WithAfter(Ids(t), target, newId)
    decreases t
  {
    match t
    case Pane(id) => assert [id][1..] == [];
    case Split(_, _, first, second) =>
      SplitIds(first, target, direction, newId, ratio);
      SplitIds(second, target, direction, newId, ratio);
      WithAfterConcat(Ids(first), Ids(second), target, newId);
  }

  lemma {:induction false} SplitKeepsRatios(t: Node, target: nat, direction: Direction, newId: nat, ratio: real,
                                            low: real, high: real)
    requires RatiosWithin(t, low, high) && low <= ratio <= high
    ensures RatiosWithin(SplitAt(t, target, direction, newId, ratio), low, high)
    decreases t
  {
    if t.Split? {
      SplitKeepsRatios(t.first, target, direction, newId, ratio, low, high);
      SplitKeepsRatios(t.second, target, direction, newId, ratio, low, high);
    }
  }

  // --- Removing ---

  /** Removing keeps the order of the other leaves; nothing is left exactly when every leaf was the target. */
  lemma {:induction false} RemoveIds(t: Node, target: nat)
    ensures match RemovePane(t, target)
            case None => Without(Ids(t), target) == []
            case Some(u) => Ids(u) == Without(Ids(t), target)
    decreases t
  {
    match t
    case Pane(id) => assert [id][1..] == [];
    case Split(_, _, first, second) =>
      RemoveIds(first, target);
      RemoveIds(second, target);
      WithoutConcat(Ids(first), Ids(second), target);
  }

  lemma {:induction false} RemoveKeepsRatios(t: Node, target: nat, low: real, high: real)
    requires RatiosWithin(t, low, high)
    ensures RemovePane(t, target).Some? ==> RatiosWithin(RemovePane(t, target).value, low, high)
    decreases t
  {
    if t.Split? {
      RemoveKeepsRatios(t.first, target, low, high);
      RemoveKeepsRatios(t.second, target, low, high);
    }
  }

  lemma {:induction false} RemoveAbsent(t: Node, target: nat)
    requires target !in Ids(t)
    ensures RemovePane(t, target) == Some(t)
    decreases t
  {
    if t.Split? {
      RemoveAbsent(t.first, target);
      RemoveAbsent(t.second, target);
    }
  }

  /** Removing a freshly split-in pane gives the tree back, node for node. */
  lemma {:induction false} RemoveUndoesSplit(t: Node, target: nat, direction: Direction, newId: nat, ratio: real)
    requires newId !in Ids(t)
    ensures RemovePane(SplitAt(t, target, direction, newId, ratio), newId) == Some(t)
    decreases t
  {
    if t.Split? {
      RemoveUndoesSplit(t.first, target, direction, newId, ratio);
      RemoveUndoesSplit(t.second, target, direction, newId, ratio);
    }
  }

  // --- Swapping ---

  lemma {:induction false} SwapTwice(t: Node, a: nat, b: nat)
    ensures SwapIds(SwapIds(t, a, b), a, b) == t
    decreases t
  {
    if t.Split? {
      SwapTwice(t.first, a, b);
      SwapTwice(t.second, a, b);
    }
  }

  /** Swapping renames the two leaves and moves no pane: the `i`-th rect and every divider stay. */
  lemma {:induction false} SwapMovesNothing(t: Node, a: nat, b: nat, area: Rect, focus: nat, path: seq<bool>)
    ensures |Ids(SwapIds(t, a, b))| == |Ids(t)| == |Panes(t, area, focus)| == |Panes(SwapIds(t, a, b), area, focus)|
    ensures forall i :: 0 <= i < |Ids(t)| ==>
              && Ids(SwapIds(t, a, b))[i] == SwapId(Ids(t)[i], a, b)
              && Panes(SwapIds(t, a, b), area, focus)[i].rect == Panes(t, area, focus)[i].rect
    ensures Splits(SwapIds(t, a, b), area, path) == Splits(t, area, path)
    decreases t
  {
    if t.Split? {
      hide SplitRect;
      var (r, s) := SplitRect(area, t.direction, t.ratio);
      SwapMovesNothing(t.first, a, b, r, focus, path + [false]);
      SwapMovesNothing(t.second, a, b, s, focus, path + [true]);
    }
  }

  lemma {:induction false} SwapKeepsRatios(t: Node, a: nat, b: nat, low: real, high: real)
    requires RatiosWithin(t, low, high)
    ensures RatiosWithin(SwapIds(t, a, b), low, high)
    decreases t
  {
    if t.Split? {
      SwapKeepsRatios(t.first, a, b, low, high);
      SwapKeepsRatios(t.second, a, b, low, high);
    }
  }

  lemma SwapKeepsDistinct(t: Node, a: nat, b: nat)
    requires Distinct(Ids(t))
    ensures Distinct(Ids(SwapIds(t, a, b)))
  {
    SwapMovesNothing(t, a, b, Rect(0, 0, 0, 0), 0, []);
  }

  // --- Ratios ---

  lemma {:induction false} SetRatioKeeps(t: Node, path: seq<bool>, ratio: real, low: real, high: real)
    requires RatiosWithin(t, low, high) && low <= ratio <= high
    ensures RatiosWithin(SetRatioAt(t, path, ratio), low, high)
    ensures Ids(SetRatioAt(t, path, ratio)) == Ids(t)
    ensures forall p :: LeafPaths(SetRatioAt(t, path, ratio), p) == LeafPaths(t, p)
    decreases t
  {
    if t.Split? && path != [] {
      SetRatioKeeps(if path[0] then t.second else t.first, path[1..], ratio, low, high);
    }
  }

  /** Setting a ratio changes that ratio and no other. */
  lemma {:induction false} SetRatioChangesOne(t: Node, path: seq<bool>, ratio: real, other: seq<bool>)
    ensures GetRatioAt(SetRatioAt(t, path, ratio), other) ==
            if other == path && GetRatioAt(t, path).Some? then Some(ratio) else GetRatioAt(t, other)
    decreases t
  {
    if t.Split? && path != [] && other != [] {
      SetRatioChangesOne(if path[0] then t.second else t.first, path[1..], ratio, other[1..]);
      assert path == [path[0]] + path[1..] && other == [other[0]] + other[1..];
    }
  }

  // --- The layout ---

  datatype Layout = Layout(root: Node, focus: nat)

  /** Ids are distinct, focus is a leaf and every ratio lies in [0.1, 0.9]. */
  predicate Valid(l: Layout) {
    Distinct(Ids(l.root)) && l.focus in Ids(l.root) && RatiosWithin(l.root, 0.1, 0.9)
  }

  function Initial(id: nat): Layout { Layout(Pane(id), id) }

  function SplitFocused(l: Layout, direction: Direction, ratio: Option<real>, newId: nat): Layout {
    Layout(SplitAt(l.root, l.focus, direction, newId, ValidSplitRatio(ratio)), newId)
  }

  predicate CanInsert(l: Layout, target: nat, moved: nat) {
    target != moved && target in Ids(l.root) && moved !in Ids(l.root)
  }

  function InsertPaneNear(l: Layout, target: nat, moved: nat, direction: Direction, ratio: Option<real>): Layout {
    if !CanInsert(l, target, moved) then l
    else Layout(SplitAt(l.root, target, direction, moved, ValidSplitRatio(ratio)), moved)
  }

  function PositionOf(ids: seq<nat>, x: nat): (k: nat)
    requires x in ids
    ensures k < |ids| && ids[k] == x && forall j :: 0 <= j < k ==> ids[j] != x
  {
    if ids[0] == x then 0 else 1 + PositionOf(ids[1..], x)
  }

  /** The pane that takes the focus when the focused one closes: the next in leaf order, else the previous. */
  function FocusAfterClose(ids: seq<nat>, x: nat): nat
    requires x in ids && |ids| > 1
  {
    var k := PositionOf(ids, x);
    if k + 1 < |ids| then ids[k + 1] else ids[k - 1]
  }

  function CloseFocused(l: Layout): Layout
    requires l.focus in Ids(l.root)
  {
    if |Ids(l.root)| <= 1 then l
    else
      var rest := RemovePane(l.root, l.focus);
      if rest.None? then l else Layout(rest.value, FocusAfterClose(Ids(l.root), l.focus))
  }

  function FocusPane(l: Layout, id: nat): Layout {
    if id in Ids(l.root) then l.(focus := id) else l
  }

  predicate CanSwap(l: Layout, a: nat, b: nat) {
    a != b && a in Ids(l.root) && b in Ids(l.root)
  }

  function SwapPanes(l: Layout, a: nat, b: nat): Layout {
    if CanSwap(l, a, b) then l.(root := SwapIds(l.root, a, b)) else l
  }

  function SetRatio(l: Layout, path: seq<bool>, ratio: real): Layout {
    l.(root := SetRatioAt(l.root, path, Clamp(ratio)))
  }

  lemma AddedBehind(ids: seq<nat>, k: nat, new': nat)
    requires Distinct(ids) && k < |ids| && new' !in ids
    ensures var more := ids[..k] + ([ids[k], new'] + ids[k + 1..]);
            && Distinct(more) && |more| == |ids| + 1 && more[k + 1] == new' && more[..k + 1] == ids[..k + 1]
            && more[k + 2..] == ids[k + 1..]
  {
    var more := ids[..k] + ([ids[k], new'] + ids[k + 1..]);
    assert forall i :: 0 <= i < |more| ==>
      more[i] == if i <= k then ids[i] else if i == k + 1 then new' else ids[i - 1];
  }

  /** Splitting puts the new pane right behind the target and focuses it. */
  lemma SplitAdds(l: Layout, target: nat, direction: Direction, ratio: Option<real>, newId: nat)
    requires Valid(l) && target in Ids(l.root) && newId !in Ids(l.root)
    ensures var m := Layout(SplitAt(l.root, target, direction, newId, ValidSplitRatio(ratio)), newId);
            var ids, k := Ids(l.root), PositionOf(Ids(l.root), target);
            Valid(m) && Ids(m.root) == ids[..k] + ([target, newId] + ids[k + 1..])
  {
    hide Distinct, SplitAt, Ids, RatiosWithin, WithAfter;
    var ids, k := Ids(l.root), PositionOf(Ids(l.root), target);
    SplitIds(l.root, target, direction, newId, ValidSplitRatio(ratio));
    WithAfterAt(ids, k, newId);
    SplitKeepsRatios(l.root, target, direction, newId, ValidSplitRatio(ratio), 0.1, 0.9);
    AddedBehind(ids, k, newId);
  }

  lemma TakenOut(ids: seq<nat>, k: nat)
    requires Distinct(ids) && k < |ids| && |ids| > 1
    ensures var rest := ids[..k] + ids[k + 1..];
            && Distinct(rest) && |rest| == |ids| - 1
            && (if k + 1 < |ids| then ids[k + 1] in rest else ids[k - 1] in rest)
  {
    var rest := ids[..k] + ids[k + 1..];
    assert forall i :: 0 <= i < |rest| ==> rest[i] == if i < k then ids[i] else ids[i + 1];
    if k + 1 < |ids| { assert rest[k] == ids[k + 1]; } else { assert rest[k - 1] == ids[k - 1]; }
  }

  /** Closing drops the focused leaf, keeps the order of the others and focuses the next, else the previous. */
  lemma CloseDrops(l: Layout)
    requires Valid(l) && |Ids(l.root)| > 1
    ensures var ids, k := Ids(l.root), PositionOf(Ids(l.root), l.focus);
            var m := CloseFocused(l);
            && Valid(m) && Ids(m.root) == ids[..k] + ids[k + 1..]
            && m.focus == (if k + 1 < |ids| then ids[k + 1] else ids[k - 1])
  {
    hide Distinct, RemovePane, Ids, RatiosWithin, Without;
    var ids, k := Ids(l.root), PositionOf(Ids(l.root), l.focus);
    RemoveIds(l.root, l.focus);
    WithoutAt(ids, k);
    RemoveKeepsRatios(l.root, l.focus, 0.1, 0.9);
    TakenOut(ids, k);
  }

  /** Splitting and closing right away gives back the tree; the focus falls on the leaf behind the split one. */
  lemma CloseUndoesSplit(l: Layout, direction: Direction, ratio: Option<real>, newId: nat)
    requires Valid(l) && newId !in Ids(l.root)
    ensures newId in Ids(SplitFocused(l, direction, ratio, newId).root)
    ensures var m := CloseFocused(SplitFocused(l, direction, ratio, newId));
            var ids, k := Ids(l.root), PositionOf(Ids(l.root), l.focus);
            m.root == l.root && m.focus == if k + 1 < |ids| then ids[k + 1] else l.focus
  {
    hide Distinct, SplitAt, RemovePane, Ids, RatiosWithin;
    SplitAdds(l, l.focus, direction, ratio, newId);
    RemoveUndoesSplit(l.root, l.focus, direction, newId, ValidSplitRatio(ratio));
    var s := SplitFocused(l, direction, ratio, newId);
    CloseDrops(s);
    var ids, k := Ids(l.root), PositionOf(Ids(l.root), l.focus);
    AddedBehind(ids, k, newId);
    PositionIs(Ids(s.root), newId, k + 1);
  }

  lemma PositionIs(ids: seq<nat>, x: nat, k: nat)
    requires Distinct(ids) && k < |ids| && ids[k] == x
    ensures PositionOf(ids, x) == k
  {
    hide PositionOf;
  }

  lemma SwapKeepsValid(l: Layout, a: nat, b: nat)
    requires Valid(l)
    ensures Valid(SwapPanes(l, a, b)) && SwapPanes(SwapPanes(l, a, b), a, b) == l
  {
    hide Ids, SwapIds, Panes, Distinct, RatiosWithin;
    SwapMovesNothing(l.root, a, b, Rect(0, 0, 0, 0), 0, []);
    SwapKeepsDistinct(l.root, a, b);
    SwapKeepsRatios(l.root, a, b, 0.1, 0.9);
    SwapTwice(l.root, a, b);
    if CanSwap(l, a, b) {
      SwappedIdsKeep(Ids(l.root), Ids(SwapIds(l.root, a, b)), a, b);
    }
  }

  /** Swapping two members of a list of ids leaves its members. */
  lemma SwappedIdsKeep(ids: seq<nat>, swapped: seq<nat>, a: nat, b: nat)
    requires |swapped| == |ids| && forall i :: 0 <= i < |ids| ==> swapped[i] == SwapId(ids[i], a, b)
    requires a in ids && b in ids
    ensures forall x :: x in ids ==> x in swapped
  {
    var i, j := PositionOf(ids, a), PositionOf(ids, b);
    assert swapped[i] == b && swapped[j] == a;
    forall x | x in ids ensures x in swapped {
      var k := PositionOf(ids, x);
      assert x == a || x == b || swapped[k] == x;
    }
  }

  lemma SetRatioKeepsValid(l: Layout, path: seq<bool>, ratio: real)
    requires Valid(l)
    ensures Valid(SetRatio(l, path, ratio)) && Ids(SetRatio(l, path, ratio).root) == Ids(l.root)
  {
    SetRatioKeeps(l.root, path, Clamp(ratio), 0.1, 0.9);
  }
}

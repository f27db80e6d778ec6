/** `TileLayout` of `src/layout.rs`: the tree and the focus, changed by every operation. Freshly allocated
    pane ids are parameters. */
module TileLayouts {
  import opened Bytes
  import opened LayoutTree
  import opened LayoutTiling
  import opened LayoutEditing
  import opened LayoutResize

  // --- Ratios tell trees of one shape apart ---

  predicate SameShape(t: Node, u: Node) {
    match (t, u)
    case (Pane(a), Pane(b)) => a == b
    case (Split(d, _, a, b), Split(e, _, c, f)) => d == e && SameShape(a, c) && SameShape(b, f)
    case _ => false
  }

  lemma {:induction false} ShapeSurvives(t: Node, path: seq<bool>, ratio: real)
    ensures SameShape(t, SetRatioAt(t, path, ratio)) && SameShape(t, t)
    decreases t
  {
    if t.Split? {
      ShapeSurvives(t.first, if path == [] then [] else path[1..], ratio);
      ShapeSurvives(t.second, if path == [] then [] else path[1..], ratio);
    }
  }

  lemma {:induction false} RatiosCount(t: Node, u: Node, path: seq<bool>)
    requires SameShape(t, u)
    ensures |SplitRatios(t, path)| == |SplitRatios(u, path)|
    decreases t
  {
    if t.Split? {
      RatiosCount(t.first, u.first, path + [false]);
      RatiosCount(t.second, u.second, path + [true]);
    }
  }

  lemma {:induction false} RatiosTellApart(t: Node, u: Node, path: seq<bool>)
    requires SameShape(t, u) && SplitRatios(t, path) == SplitRatios(u, path)
    ensures t == u
    decreases t
  {
    if t.Split? {
      var a, b := SplitRatios(t.first, path + [false]), SplitRatios(t.second, path + [true]);
      var c, d := SplitRatios(u.first, path + [false]), SplitRatios(u.second, path + [true]);
      RatiosCount(t.first, u.first, path + [false]);
      assert SplitRatios(t, path)[0] == (path, t.ratio) && SplitRatios(u, path)[0] == (path, u.ratio);
      assert a == SplitRatios(t, path)[1..][..|a|] && c == SplitRatios(u, path)[1..][..|c|];
      assert b == SplitRatios(t, path)[1..][|a|..] && d == SplitRatios(u, path)[1..][|c|..];
      RatiosTellApart(t.first, u.first, path + [false]);
      RatiosTellApart(t.second, u.second, path + [true]);
    }
  }

  lemma ResizeShape(l: Layout, nav: NavDirection, delta: real, area: Rect)
    ensures SameShape(l.root, ResizeFocused(l, nav, delta, area).root)
  {
    hide Splits, FocusedRect, ChosenSplit;
    ShapeSurvives(l.root, [], 0.5);
    if l.focus in Ids(l.root) && ChosenSplit(Splits(l.root, area, []), FocusedRect(l, area), nav).Some? {
      ChosenInRange(l, nav, area);
      var path := Splits(l.root, area, [])[ChosenSplit(Splits(l.root, area, []), FocusedRect(l, area), nav).value].path;
      ShapeSurvives(l.root, path, Clamp(GetOr(GetRatioAt(l.root, path), 0.5) + if Grows(nav) then delta else -delta));
    }
  }

  lemma ChosenInRange(l: Layout, nav: NavDirection, area: Rect)
    requires l.focus in Ids(l.root) && ChosenSplit(Splits(l.root, area, []), FocusedRect(l, area), nav).Some?
    ensures ChosenSplit(Splits(l.root, area, []), FocusedRect(l, area), nav).value < |Splits(l.root, area, [])|
  {
    hide Splits, FocusedRect;
  }

  /** Resizing another pane: the focus is lent to it and given back. */
  function ResizedPane(l: Layout, pane: nat, nav: NavDirection, delta: real, area: Rect): Layout {
    if pane !in Ids(l.root) then l else ResizeFocused(l.(focus := pane), nav, delta, area).(focus := l.focus)
  }

  /** Another pane is resized as if it had the focus, and the focus stays where it is; an unknown one is not. */
  lemma ResizedPaneMoves(l: Layout, pane: nat, nav: NavDirection, delta: real, area: Rect)
    ensures ResizedPane(l, pane, nav, delta, area).focus == l.focus
    ensures ResizedPane(l, pane, nav, delta, area).root ==
            if pane in Ids(l.root) then ResizeFocused(Layout(l.root, pane), nav, delta, area).root else l.root
  {
    hide ResizeFocused;
  }

  // --- Runs of edits ---

  datatype Edit =
    | SplitEdit(direction: Direction, ratio: Option<real>, newId: nat)
    | InsertEdit(target: nat, moved: nat, direction: Direction, ratio: Option<real>)
    | CloseEdit
    | FocusEdit(id: nat)
    | SwapEdit(a: nat, b: nat)
    | RatioEdit(path: seq<bool>, newRatio: real)
    | ResizeEdit(nav: NavDirection, delta: real, area: Rect)
    | ResizePaneEdit(pane: nat, nav: NavDirection, delta: real, area: Rect)

  function Edited(l: Layout, e: Edit): Layout {
    match e
    case SplitEdit(direction, ratio, newId) => SplitFocused(l, direction, ratio, newId)
    case InsertEdit(target, moved, direction, ratio) => InsertPaneNear(l, target, moved, direction, ratio)
    case CloseEdit => if l.focus in Ids(l.root) then CloseFocused(l) else l
    case FocusEdit(id) => FocusPane(l, id)
    case SwapEdit(a, b) => SwapPanes(l, a, b)
    case RatioEdit(path, ratio) => SetRatio(l, path, ratio)
    case ResizeEdit(nav, delta, area) => ResizeFocused(l, nav, delta, area)
    case ResizePaneEdit(pane, nav, delta, area) => ResizedPane(l, pane, nav, delta, area)
  }

  function EditedAll(l: Layout, edits: seq<Edit>): Layout
    decreases |edits|
  {
    if edits == [] then l else EditedAll(Edited(l, edits[0]), edits[1..])
  }

  /** The allocator never hands out an id that the tree holds. */
  predicate FreshIds(l: Layout, edits: seq<Edit>)
    decreases |edits|
  {
    edits == [] ||
    (&& (edits[0].SplitEdit? ==> edits[0].newId !in Ids(l.root))
     && FreshIds(Edited(l, edits[0]), edits[1..]))
  }

  lemma EditKeepsValid(l: Layout, e: Edit)
    requires Valid(l) && (e.SplitEdit? ==> e.newId !in Ids(l.root))
    ensures Valid(Edited(l, e))
  {
    hide ResizeFocused, SplitAt, RemovePane, SwapIds, SetRatioAt, CloseFocused, Distinct;
    match e
    case SplitEdit(direction, ratio, newId) => SplitAdds(l, l.focus, direction, ratio, newId);
    case InsertEdit(target, moved, direction, ratio) =>
      if CanInsert(l, target, moved) { SplitAdds(l, target, direction, ratio, moved); }
    case CloseEdit =>
      if |Ids(l.root)| > 1 { CloseDrops(l); } else { LastPaneStays(l); }
    case FocusEdit(_) =>
    case SwapEdit(a, b) => SwapKeepsValid(l, a, b);
    case RatioEdit(path, ratio) => SetRatioKeepsValid(l, path, ratio);
    case ResizeEdit(nav, delta, area) => ResizeKeepsValid(l, nav, delta, area);
    case ResizePaneEdit(pane, nav, delta, area) =>
      if pane in Ids(l.root) {
        ResizeKeepsValid(l.(focus := pane), nav, delta, area);
      }
  }

  lemma LastPaneStays(l: Layout)
    requires l.focus in Ids(l.root) && |Ids(l.root)| <= 1
    ensures CloseFocused(l) == l
  {
  }

  /** Over every run of edits ids stay distinct, the focus stays a leaf and ratios stay in [0.1, 0.9]. */
  lemma {:induction false} RunKeepsValid(l: Layout, edits: seq<Edit>)
    requires Valid(l) && FreshIds(l, edits)
    ensures Valid(EditedAll(l, edits))
    decreases |edits|
  {
    hide Edited, Valid;
    if edits != [] {
      EditKeepsValid(l, edits[0]);
      RunKeepsValid(Edited(l, edits[0]), edits[1..]);
    }
  }

  class TileLayout {
    var root: Node
    var focus: nat

    function Contents(): Layout
      reads this
    {
      Layout(root, focus)
    }

    constructor (rootId: nat)
      ensures Contents() == Initial(rootId) && Valid(Contents())
    {
      root := Pane(rootId);
      focus := rootId;
    }

    constructor FromSaved(root: Node, focus: nat)
      ensures Contents() == Layout(root, focus)
    {
      this.root := root;
      this.focus := focus;
    }

    method SplitFocusedWithRatio(direction: Direction, ratio: Option<real>, newId: nat)
      modifies this
      ensures Contents() == SplitFocused(old(Contents()), direction, ratio, newId)
    {
      root := SplitAt(root, focus, direction, newId, ValidSplitRatio(ratio));
      focus := newId;
    }

    method InsertPaneNear(target: nat, moved: nat, direction: Direction, ratio: Option<real>) returns (inserted: bool)
      modifies this
      ensures inserted == CanInsert(old(Contents()), target, moved)
      ensures Contents() == LayoutEditing.InsertPaneNear(old(Contents()), target, moved, direction, ratio)
    {
      if target == moved {
        return false;
      }
      var ids := Ids(root);
      if target !in ids || moved in ids {
        return false;
      }
      root := SplitAt(root, target, direction, moved, ValidSplitRatio(ratio));
      focus := moved;
      return true;
    }

    /** The source unwraps the position of the focus, so the focus must be a leaf. */
    method CloseFocused() returns (closed: bool)
      requires focus in Ids(root)
      modifies this
      ensures Contents() == LayoutEditing.CloseFocused(old(Contents()))
      ensures Valid(old(Contents())) ==> closed == (|Ids(old(root))| > 1)
    {
      PanesFollowIds(root, Rect(0, 0, 0, 0), focus);
      if Valid(Contents()) && |Ids(root)| > 1 { CloseDrops(Contents()); }
      if CountPanes(root) <= 1 {
        return false;
      }
      var newFocus := FocusAfterClose(Ids(root), focus);
      var rest := RemovePane(root, focus);
      if rest.None? {
        return false;
      }
      root := rest.value;
      focus := newFocus;
      return true;
    }

    method FocusPane(id: nat)
      modifies this`focus
      ensures Contents() == LayoutEditing.FocusPane(old(Contents()), id)
      ensures root == old(root) && focus == if id in Ids(root) then id else old(focus)
    {
      if id in Ids(root) {
        focus := id;
      }
    }

    method SwapPanes(first: nat, second: nat) returns (swapped: bool)
      modifies this`root
      ensures swapped == CanSwap(old(Contents()), first, second)
      ensures Contents() == LayoutEditing.SwapPanes(old(Contents()), first, second)
    {
      if first == second {
        return false;
      }
      var ids := Ids(root);
      if first !in ids || second !in ids {
        return false;
      }
      root := SwapIds(root, first, second);
      return true;
    }

    method SetRatioAt(path: seq<bool>, ratio: real) returns (found: bool)
      modifies this`root
      ensures found == GetRatioAt(old(root), path).Some?
      ensures Contents() == SetRatio(old(Contents()), path, ratio)
    {
      found := GetRatioAt(root, path).Some?;
      root := LayoutTree.SetRatioAt(root, path, Clamp(ratio));
    }

    method ResizeFocused(nav: NavDirection, delta: real, area: Rect)
      modifies this`root
      ensures Contents() == LayoutResize.ResizeFocused(old(Contents()), nav, delta, area)
    {
      hide Splits, Panes;
      if focus !in Ids(root) {
        return;
      }
      var focusedRect := FocusedRect(Contents(), area);
      var splits := Splits(root, area, []);
      var best := NearestFrom(splits, focusedRect, nav, 0);
      if best.None? {
        best := NearestFrom(splits, focusedRect, Opposite(nav), 0);
      }
      if best.Some? {
        var path := splits[best.value].path;
        var currentRatio := GetOr(GetRatioAt(root, path), 0.5);
        var adj := if Grows(nav) then delta else -delta;
        var _ := SetRatioAt(path, currentRatio + adj);
      }
    }

    /** Reports whether any ratio changed, which is whether the layout changed at all. */
    method ResizePane(pane: nat, nav: NavDirection, delta: real, area: Rect) returns (changed: bool)
      modifies this
      ensures Contents() == ResizedPane(old(Contents()), pane, nav, delta, area)
      ensures changed == (Contents() != old(Contents()))
    {
      hide LayoutResize.ResizeFocused;
      if pane !in Ids(root) {
        return false;
      }
      ghost var before := Contents();
      var ratios := SplitRatios(root, []);
      var previousFocus := focus;
      focus := pane;
      ResizeFocused(nav, delta, area);
      focus := previousFocus;
      ResizeShape(before.(focus := pane), nav, delta, area);
      if SplitRatios(root, []) == ratios { RatiosTellApart(before.root, root, []); }
      return SplitRatios(root, []) != ratios;
    }
  }
}

/** Which placements an update draws: all of a changed view, and otherwise those the host does not show already. */
module KittyRedisplay {
  import opened Bytes
  import opened Clipping
  import opened KittyHost
  import opened KittyCache
  import opened KittyCoherence
  import opened KittyConvergence

  /** The command that draws a placement: the image and placement ids that the hashes give, the screen cell, which
      is counted from 1, the size in cells, the source window and offsets where they are not 0, and the order. */
  predicate Draws(hashes: Hashes, c: Command, p: HostPlacement)
    requires Visible(p)
  {
    var g := ClippedOf(p).value;
    && c.DisplayPlacement?
    && c.id == hashes.image(p.pane, SignatureOf(p)) &&
       c.placement == hashes.placement(p.source, p.imageId, p.placementId)
    && c.row == g.y + 1 && c.column == g.x + 1 && c.cols == g.cols && c.rows == g.rows && c.z == p.z
    && c.x == Unless0(g.sourceX) && c.y == Unless0(g.sourceY)
    && c.w == Unless0(g.sourceWidth) && c.h == Unless0(g.sourceHeight)
    && c.xOffset == Unless0(g.xOffset) && c.yOffset == Unless0(g.yOffset)
  }

  function Unless0(value: nat): Option<nat> { if value == 0 then None else Some(value) }

  lemma DisplayDraws(hashes: Hashes, p: HostPlacement)
    requires Visible(p)
    ensures Draws(hashes, DisplayOf(hashes, p), p)
  {
    hide Clip, ClippedOf;
  }

  // --- Images that stay through the batch ---

  /** A source that holds the image has not been taken over before the `n`-th placement. */
  ghost predicate HeldStill(hashes: Hashes, d: Cache, ps: seq<HostPlacement>, n: nat, id: nat)
    requires n <= |ps|
  {
    exists s :: s in d.sources && d.sources[s] == id && !Moved(hashes, d, ps, n, s)
  }

  /** The image is cached and is not released up to the turn of the `n`-th placement: at every turn before the first
      placement that has it, some source that holds it is left, unless none held it to begin with. */
  ghost predicate Uninterrupted(hashes: Hashes, d: Cache, ps: seq<HostPlacement>, n: nat, id: nat)
    requires n <= |ps|
  {
    && id in d.images
    && forall j: nat :: j <= n ==>
         Reached(hashes, d, ps, j, id) || (id in d.sources.Values ==> HeldStill(hashes, d, ps, j, id))
  }

  /** The placement is on screen from before, just as it is wanted, and its image stays. */
  ghost predicate StillShown(hashes: Hashes, d: Cache, ps: seq<HostPlacement>, i: nat)
    requires i < |ps| && Visible(ps[i])
  {
    var p, key := ps[i], KeyOf(hashes, ps[i]);
    && key in d.placements && Uninterrupted(hashes, d, ps, i, key.0)
    && d.placements[key].geometry == ClippedOf(p).value && d.placements[key].z == p.z
    && d.placements[key].scrollbackOffset == p.scrollbackOffset
  }

  /** Entries that no placement walked so far has are left as long as their image stays. */
  ghost predicate EntriesKept(hashes: Hashes, d: Cache, w: Walk, ps: seq<HostPlacement>, n: nat)
    requires n <= |ps|
  {
    forall key :: (forall i: nat :: i < n && Visible(ps[i]) ==> KeyOf(hashes, ps[i]) != key) ==>
      (key in w.cache.placements <==> key in d.placements && Uninterrupted(hashes, d, ps, n, key.0)) &&
      (key in w.cache.placements ==> w.cache.placements[key] == d.placements[key])
  }

  // --- One turn ---

  /** What the turn of a placement whose image can be had does to the entries: its own is as wanted, those of the
      image its source gives up go with it, and the others stay. */
  lemma WalkOneEntries(hashes: Hashes, w: Walk, p: HostPlacement, viewChanged: bool, key: (nat, nat))
    requires Visible(p) && Intact(w.cache) && key != KeyOf(hashes, p)
    requires HostId(hashes, p) in w.cache.images ==> w.cache.images[HostId(hashes, p)] == SignatureOf(p)
    requires p.data != [] || HostId(hashes, p) in w.cache.images
    ensures var v := WalkOne(hashes, w, p, viewChanged).walk.cache;
            && (key in v.placements <==> key in w.cache.placements && key.0 in v.images)
            && (key in v.placements ==> v.placements[key] == w.cache.placements[key])
  {
    hide Clip, ClippedOf, Visible, DisplayOf;
  }

  /** The turn draws the placement, unless the view is the same and the entry is there as wanted. */
  lemma WalkOneDraws(hashes: Hashes, w: Walk, p: HostPlacement, viewChanged: bool)
    requires Visible(p) && Intact(w.cache)
    requires HostId(hashes, p) in w.cache.images ==> w.cache.images[HostId(hashes, p)] == SignatureOf(p)
    requires p.data != [] || HostId(hashes, p) in w.cache.images
    ensures var commands, key := WalkOne(hashes, w, p, viewChanged).commands, KeyOf(hashes, p);
            && (forall c :: c in commands && c.DisplayPlacement? ==> c == DisplayOf(hashes, p))
            && (DisplayOf(hashes, p) in commands <==>
                viewChanged || !(key in w.cache.placements && w.cache.placements[key] == PlacementOf(p)))
  {
    hide Clip, ClippedOf, Visible;
  }

  // --- The walk ---

  lemma UninterruptedNext(hashes: Hashes, d: Cache, w: Walk, ps: seq<HostPlacement>, n: nat, id: nat)
    requires n < |ps| && Midway(hashes, d, w, ps, n + 1)
    ensures Uninterrupted(hashes, d, ps, n + 1, id) <==> Uninterrupted(hashes, d, ps, n, id) && id in w.cache.images
  {
    hide Reached, Moved, Outcomes, SourcesKept, Intact, Consistent, KeysAmong, CurrentSources;
    if Reached(hashes, d, ps, n + 1, id) {
      ReachedIsCached(hashes, d, w, ps, n + 1, id);
    } else {
      StillHeld(hashes, d, w, ps, n + 1, id);
    }
  }

  lemma UninterruptedSame(hashes: Hashes, d: Cache, ps: seq<HostPlacement>, n: nat, id: nat)
    requires n < |ps| && !Available(hashes, d, ps, n)
    ensures Uninterrupted(hashes, d, ps, n + 1, id) <==> Uninterrupted(hashes, d, ps, n, id)
  {
    hide Reached, Moved, Available;
    ReachedNext(hashes, d, ps, n, id);
    forall s ensures Moved(hashes, d, ps, n + 1, s) == Moved(hashes, d, ps, n, s) { MovedNext(hashes, d, ps, n, s); }
  }

  lemma EntriesAfterMiss(hashes: Hashes, d: Cache, w: Walk, v: Walk, ps: seq<HostPlacement>, n: nat)
    requires n < |ps| && !Available(hashes, d, ps, n) && v.cache == w.cache && EntriesKept(hashes, d, w, ps, n)
    requires Visible(ps[n]) ==> KeyOf(hashes, ps[n]) !in w.cache.placements
    ensures EntriesKept(hashes, d, v, ps, n + 1)
  {
    hide Available, Uninterrupted, Visible, KeyOf;
    forall id ensures Uninterrupted(hashes, d, ps, n + 1, id) <==> Uninterrupted(hashes, d, ps, n, id) {
      UninterruptedSame(hashes, d, ps, n, id);
    }
  }

  lemma EntriesAfterTurn(hashes: Hashes, d: Cache, w: Walk, ps: seq<HostPlacement>, n: nat, viewChanged: bool)
    requires n < |ps| && Visible(ps[n]) && EntriesKept(hashes, d, w, ps, n) && Midway(hashes, d, w, ps, n)
    requires ps[n].data != [] || HostId(hashes, ps[n]) in w.cache.images
    requires Midway(hashes, d, WalkOne(hashes, w, ps[n], viewChanged).walk, ps, n + 1)
    ensures EntriesKept(hashes, d, WalkOne(hashes, w, ps[n], viewChanged).walk, ps, n + 1)
  {
    hide Available, Uninterrupted, Visible, KeyOf, HostId, WalkOne, Outcomes, SourcesKept, ImagesKept, KeysAmong,
         CurrentSources, Reached, Moved, SignatureOf, Intact;
    var v := WalkOne(hashes, w, ps[n], viewChanged).walk;
    forall key | forall i: nat :: i < n + 1 && Visible(ps[i]) ==> KeyOf(hashes, ps[i]) != key
      ensures key in v.cache.placements <==> key in d.placements && Uninterrupted(hashes, d, ps, n + 1, key.0)
      ensures key in v.cache.placements ==> v.cache.placements[key] == d.placements[key]
    {
      WalkOneEntries(hashes, w, ps[n], viewChanged, key);
      UninterruptedNext(hashes, d, v, ps, n, key.0);
    }
  }

  /** The drawn placements of the walk from the `n`-th one on. */
  ghost predicate DrawnFrom(hashes: Hashes, d: Cache, ps: seq<HostPlacement>, n: nat, viewChanged: bool,
                            commands: seq<Command>)
    requires n <= |ps|
  {
    && (forall c :: c in commands && c.DisplayPlacement? ==>
          exists i: nat :: n <= i < |ps| && Available(hashes, d, ps, i) && Visible(ps[i]) &&
            c == DisplayOf(hashes, ps[i]))
    && (forall i: nat :: n <= i < |ps| && Visible(ps[i]) && Available(hashes, d, ps, i) ==>
          (DisplayOf(hashes, ps[i]) in commands <==> viewChanged || !StillShown(hashes, d, ps, i)))
  }

  lemma DrawnAfterMiss(hashes: Hashes, d: Cache, ps: seq<HostPlacement>, n: nat, viewChanged: bool,
                       commands: seq<Command>)
    requires n < |ps| && !Available(hashes, d, ps, n) && DrawnFrom(hashes, d, ps, n + 1, viewChanged, commands)
    ensures DrawnFrom(hashes, d, ps, n, viewChanged, commands)
  {
    hide Available, StillShown, Visible, DisplayOf;
  }

  lemma DisplayKeys(hashes: Hashes, p: HostPlacement)
    requires Visible(p)
    ensures var c := DisplayOf(hashes, p); c.DisplayPlacement? && (c.id, c.placement) == KeyOf(hashes, p)
  {
    hide Clip, ClippedOf;
  }

  lemma DrawnAfterTurn(hashes: Hashes, d: Cache, ps: seq<HostPlacement>, n: nat, viewChanged: bool,
                       first: seq<Command>, rest: seq<Command>)
    requires n < |ps| && Available(hashes, d, ps, n) && Visible(ps[n]) && DistinctKeys(hashes, ps)
    requires DrawnFrom(hashes, d, ps, n + 1, viewChanged, rest)
    requires forall c :: c in first && c.DisplayPlacement? ==> c == DisplayOf(hashes, ps[n])
    requires DisplayOf(hashes, ps[n]) in first <==> viewChanged || !StillShown(hashes, d, ps, n)
    ensures DrawnFrom(hashes, d, ps, n, viewChanged, first + rest)
  {
    hide Available, StillShown, Visible, DisplayOf, KeyOf;
    forall i: nat | i < |ps| && Visible(ps[i])
      ensures DisplayOf(hashes, ps[i]).DisplayPlacement?
      ensures var c := DisplayOf(hashes, ps[i]); (c.id, c.placement) == KeyOf(hashes, ps[i])
    {
      DisplayKeys(hashes, ps[i]);
    }
    assert forall c :: c in first + rest <==> c in first || c in rest;
  }

  lemma AvailableDraws(hashes: Hashes, d: Cache, w: Walk, ps: seq<HostPlacement>, n: nat, viewChanged: bool)
    requires n < |ps| && Midway(hashes, d, w, ps, n) && EntriesKept(hashes, d, w, ps, n)
    requires Available(hashes, d, ps, n) && Visible(ps[n])
    ensures ps[n].data != [] || HostId(hashes, ps[n]) in w.cache.images
    ensures var commands := WalkOne(hashes, w, ps[n], viewChanged).commands;
            && (forall c :: c in commands && c.DisplayPlacement? ==> c == DisplayOf(hashes, ps[n]))
            && (DisplayOf(hashes, ps[n]) in commands <==> viewChanged || !StillShown(hashes, d, ps, n))
  {
    hide Available, Uninterrupted, Visible, KeyOf, HostId, WalkOne, Outcomes, SourcesKept, ImagesKept, KeysAmong,
         CurrentSources, Reached, Moved, SignatureOf, Intact, ClippedOf, DisplayOf;
    AvailableAtTurn(hashes, d, w, ps, n);
    WalkOneDraws(hashes, w, ps[n], viewChanged);
    assert forall i: nat :: i < n && Visible(ps[i]) ==> KeyOf(hashes, ps[i]) != KeyOf(hashes, ps[n]);
    KeyHasId(hashes, ps[n]);
  }

  lemma KeyHasId(hashes: Hashes, p: HostPlacement)
    ensures KeyOf(hashes, p).0 == HostId(hashes, p)
  {
  }

  lemma {:induction false} WalkDraws(hashes: Hashes, d: Cache, w: Walk, h: Host, ps: seq<HostPlacement>, n: nat,
                                     viewChanged: bool)
    requires n <= |ps| && Midway(hashes, d, w, ps, n) && EntriesKept(hashes, d, w, ps, n) &&
             Coherent(hashes, w.cache, h)
    ensures DrawnFrom(hashes, d, ps, n, viewChanged, WalkAll(hashes, w, ps[n..], viewChanged).commands)
    decreases |ps| - n
  {
    hide Midway, WalkOne, Available, Coherent, Execute, EntriesKept, DrawnFrom, Visible, StillShown;
    if n < |ps| {
      var o := WalkOne(hashes, w, ps[n], viewChanged);
      assert ps[n..][0] == ps[n] && ps[n..][1..] == ps[n + 1..];
      if Available(hashes, d, ps, n) {
        AvailableIsVisible(hashes, d, ps, n);
        StepTaken(hashes, d, w, h, ps, n, viewChanged);
        AvailableDraws(hashes, d, w, ps, n, viewChanged);
        EntriesAfterTurn(hashes, d, w, ps, n, viewChanged);
        WalkDraws(hashes, d, o.walk, ExecuteAll(h, o.commands), ps, n + 1, viewChanged);
        MidwayDistinct(hashes, d, w, ps, n);
        DrawnAfterTurn(hashes, d, ps, n, viewChanged, o.commands,
                       WalkAll(hashes, o.walk, ps[n + 1..], viewChanged).commands);
      } else {
        StepMissed(hashes, d, w, ps, n, viewChanged);
        MissedHasNoEntry(hashes, d, w, ps, n, viewChanged);
        EntriesAfterMiss(hashes, d, w, o.walk, ps, n);
        WalkDraws(hashes, d, o.walk, h, ps, n + 1, viewChanged);
        var rest := WalkAll(hashes, o.walk, ps[n + 1..], viewChanged).commands;
        assert [] + rest == rest;
        DrawnAfterMiss(hashes, d, ps, n, viewChanged, rest);
      }
    } else {
      NothingDrawn(hashes, d, ps, viewChanged);
    }
  }

  lemma MidwayDistinct(hashes: Hashes, d: Cache, w: Walk, ps: seq<HostPlacement>, n: nat)
    requires n <= |ps| && Midway(hashes, d, w, ps, n)
    ensures DistinctKeys(hashes, ps)
  {
    hide DistinctKeys;
  }

  lemma MissedHasNoEntry(hashes: Hashes, d: Cache, w: Walk, ps: seq<HostPlacement>, n: nat, viewChanged: bool)
    requires n < |ps| && Midway(hashes, d, w, ps, n) && !Available(hashes, d, ps, n)
    ensures Visible(ps[n]) ==> KeyOf(hashes, ps[n]) !in w.cache.placements
  {
    hide Clip, ClippedOf, Visible, Available, Reached, Moved, Consistent, SignatureOf, CurrentSources, Outcomes,
         SourcesKept, ImagesKept, KeysAmong;
    if Visible(ps[n]) { AvailableAtTurn(hashes, d, w, ps, n); }
  }

  lemma NothingDrawn(hashes: Hashes, d: Cache, ps: seq<HostPlacement>, viewChanged: bool)
    ensures DrawnFrom(hashes, d, ps, |ps|, viewChanged, [])
  {
  }

  // --- The update ---

  lemma StartsWithEntries(hashes: Hashes, d: Cache, ps: seq<HostPlacement>)
    requires Intact(d)
    ensures EntriesKept(hashes, d, Walk(d, {}), ps, 0)
  {
    hide Visible, KeyOf;
    forall id | id in d.images ensures Uninterrupted(hashes, d, ps, 0, id) {
      if id in d.sources.Values {
        var s :| s in d.sources && d.sources[s] == id;
        assert !Moved(hashes, d, ps, 0, s);
        assert HeldStill(hashes, d, ps, 0, id);
      }
    }
  }

  lemma PrunedSources(c: Cache, ps: seq<HostPlacement>)
    ensures Prune(c, ps).sources.Keys <= CurrentSources(ps)
  {
    hide CurrentSources, PrunedImages;
  }

  lemma DistinctOf(hashes: Hashes, c: Cache, ps: seq<HostPlacement>)
    requires Consistent(hashes, c, ps)
    ensures DistinctKeys(hashes, ps)
  {
    hide DistinctKeys;
  }

  lemma OnlyTheMiddleDraws(pre: seq<Command>, middle: seq<Command>, post: seq<Command>, images: set<nat>,
                           keys: set<(nat, nat)>)
    requires DeletesImages(pre, images) && DeletesPlacements(post, keys)
    ensures forall c :: c in pre + middle + post && c.DisplayPlacement? <==> c in middle && c.DisplayPlacement?
  {
    var all := pre + middle + post;
    forall c | c in all && c.DisplayPlacement? ensures c in middle {
      var k :| 0 <= k < |all| && all[k] == c;
      assert forall i :: 0 <= i < |pre| ==> all[i] == pre[i];
      assert forall i :: 0 <= i < |post| ==> all[|pre| + |middle| + i] == post[i];
      assert |pre| <= k < |pre| + |middle|;
      assert middle[k - |pre|] == c;
    }
    forall c | c in middle ensures c in all {
      var k :| 0 <= k < |middle| && middle[k] == c;
      assert all[|pre| + k] == c;
    }
  }

  /** A drawing command names its placement, so only its own turn can have emitted it. */
  lemma DrawnIff(hashes: Hashes, d: Cache, ps: seq<HostPlacement>, viewChanged: bool, commands: seq<Command>, i: nat)
    requires i < |ps| && Visible(ps[i]) && DistinctKeys(hashes, ps)
    requires DrawnFrom(hashes, d, ps, 0, viewChanged, commands)
    ensures (exists c :: c in commands && Draws(hashes, c, ps[i])) <==>
            Available(hashes, d, ps, i) && (viewChanged || !StillShown(hashes, d, ps, i))
  {
    hide Available, StillShown, Visible, DisplayOf, KeyOf, Draws;
    DisplayDraws(hashes, ps[i]);
    forall c | c in commands && Draws(hashes, c, ps[i])
      ensures Available(hashes, d, ps, i) && c == DisplayOf(hashes, ps[i])
    {
      DrawsKey(hashes, c, ps[i]);
      var j: nat :| j < |ps| && Available(hashes, d, ps, j) && Visible(ps[j]) && c == DisplayOf(hashes, ps[j]);
      DisplayKeys(hashes, ps[j]);
      assert i == j;
    }
  }

  lemma AmongCommands(hashes: Hashes, commands: seq<Command>, middle: seq<Command>, p: HostPlacement)
    requires Visible(p) && forall c :: c in commands && c.DisplayPlacement? <==> c in middle && c.DisplayPlacement?
    ensures (exists k :: 0 <= k < |commands| && Draws(hashes, commands[k], p)) <==>
            (exists c :: c in middle && Draws(hashes, c, p))
  {
    hide Draws, Visible;
    if k :| 0 <= k < |commands| && Draws(hashes, commands[k], p) {
      DrawsKey(hashes, commands[k], p);
      assert commands[k] in middle;
    }
    if c :| c in middle && Draws(hashes, c, p) {
      DrawsKey(hashes, c, p);
      assert c in commands;
      var k :| 0 <= k < |commands| && commands[k] == c;
    }
  }

  lemma DrawsKey(hashes: Hashes, c: Command, p: HostPlacement)
    requires Visible(p) && Draws(hashes, c, p)
    ensures c.DisplayPlacement? && (c.id, c.placement) == KeyOf(hashes, p)
  {
    hide ClippedOf;
  }

  /** An update draws a visible placement exactly when its image is available and the view changed or the placement
      was not shown already as it is wanted; and it draws nothing else. */
  lemma UpdateDraws(hashes: Hashes, c: Cache, h: Host, ps: seq<HostPlacement>, viewChanged: bool,
                    commands: seq<Command>)
    requires Coherent(hashes, c, h) && Intact(c) && Consistent(hashes, c, ps)
    requires EmitsUpdate(hashes, c, ps, viewChanged, commands)
    ensures forall i: nat :: i < |ps| && Visible(ps[i]) ==>
              ((exists k :: 0 <= k < |commands| && Draws(hashes, commands[k], ps[i])) <==>
               Available(hashes, Prune(c, ps), ps, i) && (viewChanged || !StillShown(hashes, Prune(c, ps), ps, i)))
    ensures forall k :: 0 <= k < |commands| && commands[k].DisplayPlacement? ==>
              exists i: nat :: i < |ps| && Visible(ps[i]) && Draws(hashes, commands[k], ps[i])
  {
    hide Consistent, Visible, Coherent, Intact, Execute, PrunedImages, Prune, Stale, WalkAll, Available, StillShown,
         EntriesKept, Midway, CurrentSources, Draws, DisplayOf;
    var d := Prune(c, ps);
    var pre, post :| DeletesImages(pre, PrunedImages(c, ps))
                     && DeletesPlacements(post, Stale(Middle(hashes, c, ps, viewChanged).walk))
                     && commands == pre + Middle(hashes, c, ps, viewChanged).commands + post;
    PruneAgrees(hashes, c, h, ps, pre);
    PruneKeepsConsistent(hashes, c, ps);
    PrunedSources(c, ps);
    PruneKeepsIntact(c, ps);
    StartsMidway(hashes, d, ps);
    StartsWithEntries(hashes, d, ps);
    assert ps[0..] == ps;
    WalkDraws(hashes, d, Walk(d, {}), ExecuteAll(h, pre), ps, 0, viewChanged);
    var middle := Middle(hashes, c, ps, viewChanged).commands;
    DistinctOf(hashes, c, ps);
    OnlyTheMiddleDraws(pre, middle, post, PrunedImages(c, ps), Stale(Middle(hashes, c, ps, viewChanged).walk));
    forall i: nat | i < |ps| && Visible(ps[i])
      ensures (exists k :: 0 <= k < |commands| && Draws(hashes, commands[k], ps[i])) <==>
              Available(hashes, d, ps, i) && (viewChanged || !StillShown(hashes, d, ps, i))
    {
      DrawnIff(hashes, d, ps, viewChanged, middle, i);
      AmongCommands(hashes, commands, middle, ps[i]);
    }
    forall k | 0 <= k < |commands| && commands[k].DisplayPlacement?
      ensures exists i: nat :: i < |ps| && Visible(ps[i]) && Draws(hashes, commands[k], ps[i])
    {
      assert commands[k] in middle;
      var i: nat :| i < |ps| && Available(hashes, d, ps, i) && Visible(ps[i]) &&
          commands[k] == DisplayOf(hashes, ps[i]);
      DisplayDraws(hashes, ps[i]);
    }
  }
}

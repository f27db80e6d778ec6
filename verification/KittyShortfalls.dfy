/** Where an update falls short of the batch it is given, one placement at a time: ids that clash, and images
    that change hands. */
module KittyShortfalls {
  import opened Clipping
  import opened KittyHost
  import opened KittyCache
  import opened KittyCoherence
  import opened KittyConvergence

  /** The image is cached as it should be, or can be uploaded without displacing a placement already cached. */
  predicate CanSettle(hashes: Hashes, c: Cache, p: HostPlacement) {
    || (HostId(hashes, p) in c.images && c.images[HostId(hashes, p)] == SignatureOf(p))
    || (p.data != [] && KeyOf(hashes, p) !in c.placements)
  }

  /** Exactly when a visible placement is settled by its turn, and counted as met. */
  lemma SettlesIff(hashes: Hashes, w: Walk, p: HostPlacement, viewChanged: bool)
    requires Intact(w.cache) && Visible(p)
    ensures var v := WalkOne(hashes, w, p, viewChanged).walk;
            Settled(hashes, v.cache, p) && KeyOf(hashes, p) in v.current <==> CanSettle(hashes, w.cache, p)
  {
    hide Clip, ClippedOf, Visible;
    var id, key := HostId(hashes, p), KeyOf(hashes, p);
    var met := w.(current := w.current + {key});
    var image := EnsureImage(hashes, met, p);
    if !image.stop {
      var released := Release(image.walk, p.source, id);
      assert id in released.walk.cache.images && released.walk.cache.images[id] == SignatureOf(p);
      assert key in released.walk.current <==> key in image.walk.current;
    }
  }

  /** One that is not settled, and does not leave a stale entry, ends up not cached or not met. */
  lemma UnsettledIsGone(hashes: Hashes, w: Walk, p: HostPlacement, viewChanged: bool)
    requires Intact(w.cache) && Visible(p) && !CanSettle(hashes, w.cache, p) && !LeavesStale(hashes, w.cache, p)
    ensures var v := WalkOne(hashes, w, p, viewChanged).walk;
            KeyOf(hashes, p) in v.cache.placements ==> KeyOf(hashes, p) !in v.current
  {
    hide Clip, ClippedOf, Visible, DisplayOf;
  }

  lemma WalkSingle(hashes: Hashes, w: Walk, p: HostPlacement, viewChanged: bool)
    ensures WalkAll(hashes, w, [p], viewChanged) == WalkOne(hashes, w, p, viewChanged)
  {
    hide WalkOne;
    assert [p][1..] == [];
    var o := WalkOne(hashes, w, p, viewChanged);
    assert o.commands + [] == o.commands;
  }

  /** The stages of an update of one placement, on the host. */
  lemma StagesOfOne(hashes: Hashes, c: Cache, h: Host, p: HostPlacement, viewChanged: bool, commands: seq<Command>)
    returns (h1: Host, post: seq<Command>)
    requires Coherent(hashes, c, h) && Intact(c) && EmitsUpdate(hashes, c, [p], viewChanged, commands)
    ensures Coherent(hashes, Prune(c, [p]), h1) && Intact(Prune(c, [p]))
    ensures var o := WalkOne(hashes, Walk(Prune(c, [p]), {}), p, viewChanged);
            && DeletesPlacements(post, Stale(o.walk))
            && ExecuteAll(h, commands) == ExecuteAll(ExecuteAll(h1, o.commands), post)
            && Update(hashes, c, [p], viewChanged) ==
               o.walk.cache.(placements := o.walk.cache.placements - Stale(o.walk))
  {
    hide Coherent, Intact, Prune, PrunedImages, Execute, WalkOne, WalkAll, Stale;
    var m := Middle(hashes, c, [p], viewChanged);
    WalkSingle(hashes, Walk(Prune(c, [p]), {}), p, viewChanged);
    var pre;
    pre, post :| DeletesImages(pre, PrunedImages(c, [p])) && DeletesPlacements(post, Stale(m.walk))
                 && commands == pre + m.commands + post;
    h1 := ExecuteAll(h, pre);
    PruneAgrees(hashes, c, h, [p], pre);
    ExecuteConcat(h, pre + m.commands, post);
    ExecuteConcat(h, pre, m.commands);
  }

  /** The stale branch: the host has lost the image that the cache goes on listing, so they disagree. */
  lemma StaleEntryRemains(hashes: Hashes, c: Cache, h: Host, p: HostPlacement, viewChanged: bool,
                          commands: seq<Command>)
    requires Coherent(hashes, c, h) && Intact(c) && EmitsUpdate(hashes, c, [p], viewChanged, commands)
    requires LeavesStale(hashes, Prune(c, [p]), p)
    ensures HostId(hashes, p) in Update(hashes, c, [p], viewChanged).images
    ensures HostId(hashes, p) !in ExecuteAll(h, commands).images
  {
    hide Clip, ClippedOf, Visible, Coherent, Intact, Prune, Update, EmitsUpdate, HostId;
    var h1, post := StagesOfOne(hashes, c, h, p, viewChanged, commands);
    var o := WalkOne(hashes, Walk(Prune(c, [p]), {}), p, viewChanged);
    assert o.commands == [DeleteImage(HostId(hashes, p))];
    ExecuteOne(h1, DeleteImage(HostId(hashes, p)));
    ExecutePlacementDeletes(ExecuteAll(h1, o.commands), post, Stale(o.walk));
  }

  /** A batch of one, whatever the cache holds: the placement ends up on screen as it should be unless its
      image is missing with no data to upload, or is cached under another signature while the placement is
      cached, or while there is no data. With data the last case is repaired on the host but not on the
      screen: replacing an image forgets that the placement was met, so the update that draws it deletes it
      again at its end. */
  lemma OneIsShownIff(hashes: Hashes, c: Cache, h: Host, p: HostPlacement, viewChanged: bool, commands: seq<Command>)
    requires Coherent(hashes, c, h) && Intact(c) && Visible(p) && Honest(hashes, p)
    requires EmitsUpdate(hashes, c, [p], viewChanged, commands)
    ensures OnHost(hashes, ExecuteAll(h, commands), p) <==> CanSettle(hashes, Prune(c, [p]), p)
  {
    hide Clip, ClippedOf, Visible, Coherent, Intact, Prune, WalkOne, Execute, EmitsUpdate, CanSettle, Honest,
         LeavesStale, Update, SignatureOf;
    var d := Prune(c, [p]);
    if LeavesStale(hashes, d, p) {
      StaleEntryRemains(hashes, c, h, p, viewChanged, commands);
      StaleCannotSettle(hashes, d, p);
    } else {
      var h1, post := StagesOfOne(hashes, c, h, p, viewChanged, commands);
      var o := WalkOne(hashes, Walk(d, {}), p, viewChanged);
      WalkOneAgrees(hashes, Walk(d, {}), h1, p, viewChanged);
      StaleAgrees(hashes, o.walk, ExecuteAll(h1, o.commands), post);
      SettlesIff(hashes, Walk(d, {}), p, viewChanged);
      SettledIsOnHost(hashes, Update(hashes, c, [p], viewChanged), ExecuteAll(h, commands), p);
      if !CanSettle(hashes, d, p) { UnsettledIsGone(hashes, Walk(d, {}), p, viewChanged); }
    }
  }

  lemma StaleCannotSettle(hashes: Hashes, d: Cache, p: HostPlacement)
    requires LeavesStale(hashes, d, p)
    ensures !CanSettle(hashes, d, p)
  {
  }

  /** An image replaced under a used id: deleted, uploaded again, drawn, and then deleted as not met. */
  lemma ReplacedImageIsNotShown(hashes: Hashes, c: Cache, p: HostPlacement, viewChanged: bool)
    requires Visible(p) && p.data != [] && HostId(hashes, p) in c.images &&
             c.images[HostId(hashes, p)] != SignatureOf(p)
    requires KeyOf(hashes, p) in c.placements && c.sources == map[p.source := HostId(hashes, p)]
    ensures Middle(hashes, c, [p], viewChanged).commands
         == [DeleteImage(HostId(hashes, p)), UploadOf(hashes, p), DisplayOf(hashes, p)]
    ensures KeyOf(hashes, p) in Stale(Middle(hashes, c, [p], viewChanged).walk)
    ensures KeyOf(hashes, p) !in Update(hashes, c, [p], viewChanged).placements
  {
    hide Clip, ClippedOf, Visible, DisplayOf;
    assert [p][0] == p && p.source in CurrentSources([p]);
    assert Retained(c, [p]) == c.sources;
    assert PrunedImages(c, [p]) == {};
    WalkSingle(hashes, Walk(Prune(c, [p]), {}), p, viewChanged);
  }

  lemma WalkTwo(hashes: Hashes, w: Walk, p: HostPlacement, q: HostPlacement, viewChanged: bool)
    ensures var first := WalkOne(hashes, w, p, viewChanged);
            var second := WalkOne(hashes, first.walk, q, viewChanged);
            WalkAll(hashes, w, [p, q], viewChanged) == Walked(second.walk, first.commands + second.commands)
  {
    hide WalkOne;
    assert [p, q][1..] == [q];
    WalkSingle(hashes, WalkOne(hashes, w, p, viewChanged).walk, q, viewChanged);
  }

  /** An image that another source hands over within the batch is deleted before the placement that relies on
      it, without data, is reached; that placement is passed over. */
  lemma HandedOverImageIsLost(hashes: Hashes, c: Cache, p: HostPlacement, q: HostPlacement, viewChanged: bool)
    requires Visible(p) && p.data != [] && Visible(q) && q.data == [] && p.source != q.source && Intact(c)
    requires HostId(hashes, p) !in c.images && HostId(hashes, q) != HostId(hashes, p)
    requires HostId(hashes, q) in c.images && c.images[HostId(hashes, q)] == SignatureOf(q)
    requires c.sources == map[p.source := HostId(hashes, q)]
    ensures Middle(hashes, c, [p, q], viewChanged).commands
         == [UploadOf(hashes, p), DeleteImage(HostId(hashes, q)), DisplayOf(hashes, p)]
    ensures HostId(hashes, q) !in Update(hashes, c, [p, q], viewChanged).images
    ensures KeyOf(hashes, q) !in Update(hashes, c, [p, q], viewChanged).placements
  {
    hide Clip, ClippedOf, Visible, DisplayOf, WalkOne;
    var ps := [p, q];
    assert ps[0] == p && p.source in CurrentSources(ps);
    assert Retained(c, ps) == c.sources;
    assert PrunedImages(c, ps) == {};
    var w := Walk(Prune(c, ps), {});
    HandsOver(hashes, w, p, HostId(hashes, q), viewChanged);
    var o := WalkOne(hashes, w, p, viewChanged);
    WalkOneMisses(hashes, o.walk, q, viewChanged);
    WalkTwo(hashes, w, p, q, viewChanged);
  }

  lemma HandsOver(hashes: Hashes, w: Walk, p: HostPlacement, previous: nat, viewChanged: bool)
    requires Visible(p) && p.data != [] && Intact(w.cache)
    requires HostId(hashes, p) !in w.cache.images && previous != HostId(hashes, p)
    requires w.cache.sources == map[p.source := previous]
    ensures var o := WalkOne(hashes, w, p, viewChanged);
            && o.commands == [UploadOf(hashes, p), DeleteImage(previous), DisplayOf(hashes, p)]
            && previous !in o.walk.cache.images
            && forall key :: key in o.walk.cache.placements ==> key.0 != previous
  {
    hide Clip, ClippedOf, Visible, DisplayOf;
    assert w.cache.sources[p.source := HostId(hashes, p)] == map[p.source := HostId(hashes, p)];
  }
}

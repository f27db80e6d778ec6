/** Which images an update leaves on the host. */
module KittyImages {
  import opened KittyHost
  import opened KittyCache
  import opened KittyCoherence
  import opened KittyConvergence

  /** The batch has the source: a terminal picture even where it cannot be seen, a pane layer only where it can. */
  predicate InBatch(ps: seq<HostPlacement>, s: SourceKey) {
    exists i :: 0 <= i < |ps| && ps[i].source == s && (s.Terminal? || Visible(ps[i]))
  }

  /** A pane layer that has gone away held the image, and no source of the batch holds it. */
  ghost predicate GivenUp(c: Cache, ps: seq<HostPlacement>, id: nat) {
    && (exists s :: s in c.sources && c.sources[s] == id && s.PaneLayer? && !InBatch(ps, s))
    && (forall s :: s in c.sources && c.sources[s] == id ==> !InBatch(ps, s))
  }

  lemma CurrentIs(ps: seq<HostPlacement>, s: SourceKey)
    ensures s in CurrentSources(ps) <==> InBatch(ps, s)
  {
    hide Visible;
  }

  /** Before anything is drawn, sources that are not in the batch are forgotten, and images given up are deleted with
      their placements; images of terminal pictures that have gone away are kept. */
  lemma PruneIs(c: Cache, ps: seq<HostPlacement>)
    ensures forall s :: s in Prune(c, ps).sources <==> s in c.sources && InBatch(ps, s)
    ensures forall s :: s in Prune(c, ps).sources ==> Prune(c, ps).sources[s] == c.sources[s]
    ensures forall id :: id in Prune(c, ps).images <==> id in c.images && !GivenUp(c, ps, id)
    ensures forall id :: id in Prune(c, ps).images ==> Prune(c, ps).images[id] == c.images[id]
    ensures forall key :: key in Prune(c, ps).placements <==> key in c.placements && !GivenUp(c, ps, key.0)
    ensures forall key :: key in Prune(c, ps).placements ==> Prune(c, ps).placements[key] == c.placements[key]
  {
    hide CurrentSources, InBatch, PrunedImages, GivenUp;
    forall s ensures s in CurrentSources(ps) <==> InBatch(ps, s) { CurrentIs(ps, s); }
    forall id ensures id in PrunedImages(c, ps) <==> GivenUp(c, ps, id) { PrunedIs(c, ps, id); }
  }

  lemma PrunedIs(c: Cache, ps: seq<HostPlacement>, id: nat)
    ensures id in PrunedImages(c, ps) <==> GivenUp(c, ps, id)
  {
    hide CurrentSources, InBatch;
    forall s ensures s in CurrentSources(ps) <==> InBatch(ps, s) { CurrentIs(ps, s); }
    var kept := Retained(c, ps);
    assert forall s :: s in kept <==> s in c.sources && s in CurrentSources(ps);
    if id in kept.Values {
      var s :| s in kept && kept[s] == id;
      assert s in c.sources && c.sources[s] == id && InBatch(ps, s);
    }
    if s :| s in c.sources && c.sources[s] == id && InBatch(ps, s) { assert kept[s] == id; }
  }

  /** After an update the host has exactly the images of the placements it shows, and of the images from before those
      that are not given up and that no placement's new picture replaced as the last one of their sources. */
  lemma ImagesAfterUpdate(hashes: Hashes, c: Cache, h: Host, ps: seq<HostPlacement>, viewChanged: bool,
                          commands: seq<Command>, id: nat)
    requires Coherent(hashes, c, h) && Intact(c) && Consistent(hashes, c, ps)
    requires EmitsUpdate(hashes, c, ps, viewChanged, commands)
    ensures var d := Prune(c, ps);
            id in ExecuteAll(h, commands).images <==>
            || (exists i: nat :: i < |ps| && Available(hashes, d, ps, i) && HostId(hashes, ps[i]) == id)
            || (id in d.images && (id in d.sources.Values ==>
                  exists s :: s in d.sources && d.sources[s] == id &&
                    !(exists i: nat :: i < |ps| && Available(hashes, d, ps, i) && ps[i].source == s)))
  {
    hide Consistent, Visible, Coherent, Intact, Execute, PrunedImages, Prune, Stale, WalkAll, Available, Midway,
         CurrentSources, HostId, Update;
    var d := Prune(c, ps);
    var pre, post :| DeletesImages(pre, PrunedImages(c, ps))
                     && DeletesPlacements(post, Stale(Middle(hashes, c, ps, viewChanged).walk))
                     && commands == pre + Middle(hashes, c, ps, viewChanged).commands + post;
    PruneAgrees(hashes, c, h, ps, pre);
    PruneKeepsConsistent(hashes, c, ps);
    PrunedSourcesAreCurrent(c, ps);
    StartsMidway(hashes, d, ps);
    assert ps[0..] == ps;
    WalkReaches(hashes, d, Walk(d, {}), ExecuteAll(h, pre), ps, 0, viewChanged);
    ImagesAtEnd(hashes, d, Middle(hashes, c, ps, viewChanged).walk, ps, id);
    ConsistentIsSupplied(hashes, c, ps);
    AllHonest(hashes, c, ps);
    UpdateAgrees(hashes, c, h, ps, viewChanged, commands);
    SameImages(hashes, Update(hashes, c, ps, viewChanged), ExecuteAll(h, commands));
    UpdatedImages(hashes, c, ps, viewChanged);
  }

  lemma UpdatedImages(hashes: Hashes, c: Cache, ps: seq<HostPlacement>, viewChanged: bool)
    ensures Update(hashes, c, ps, viewChanged).images == Middle(hashes, c, ps, viewChanged).walk.cache.images
  {
    hide WalkAll, Prune, Stale;
  }

  lemma SameImages(hashes: Hashes, c: Cache, h: Host)
    requires Coherent(hashes, c, h)
    ensures h.images.Keys == c.images.Keys
  {
  }

  lemma PrunedSourcesAreCurrent(c: Cache, ps: seq<HostPlacement>)
    ensures Prune(c, ps).sources.Keys <= CurrentSources(ps)
  {
    hide CurrentSources, PrunedImages;
  }

  lemma ImagesAtEnd(hashes: Hashes, d: Cache, w: Walk, ps: seq<HostPlacement>, id: nat)
    requires Midway(hashes, d, w, ps, |ps|)
    ensures id in w.cache.images <==>
            || (exists i: nat :: i < |ps| && Available(hashes, d, ps, i) && HostId(hashes, ps[i]) == id)
            || (id in d.images && (id in d.sources.Values ==>
                  exists s :: s in d.sources && d.sources[s] == id &&
                    !(exists i: nat :: i < |ps| && Available(hashes, d, ps, i) && ps[i].source == s)))
  {
    hide Available, HostId, Outcomes, SourcesKept, Intact, Consistent, KeysAmong, CurrentSources;
    if Reached(hashes, d, ps, |ps|, id) {
      ReachedIsCached(hashes, d, w, ps, |ps|, id);
    } else {
      StillHeld(hashes, d, w, ps, |ps|, id);
    }
  }
}

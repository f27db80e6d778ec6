/** What the screen shows after an update: exactly the visible placements whose image could be had. */
module KittyConvergence {
  import opened Clipping
  import opened KittyHost
  import opened KittyCache
  import opened KittyCoherence

  /** No two visible placements of the batch share a host placement. */
  predicate DistinctKeys(hashes: Hashes, ps: seq<HostPlacement>) {
    forall i, j :: 0 <= i < j < |ps| && Visible(ps[i]) && Visible(ps[j]) ==>
        KeyOf(hashes, ps[i]) != KeyOf(hashes, ps[j])
  }

  /** A source shows one picture at a time. */
  predicate OneIdPerSource(hashes: Hashes, ps: seq<HostPlacement>) {
    forall i, j ::
      0 <= i < |ps| && 0 <= j < |ps| && Visible(ps[i]) && Visible(ps[j]) && ps[i].source == ps[j].source ==>
      HostId(hashes, ps[i]) == HostId(hashes, ps[j])
  }

  predicate NoClash(hashes: Hashes, images: map<nat, ImageSignature>, ps: seq<HostPlacement>) {
    && (forall i :: 0 <= i < |ps| && Visible(ps[i]) && HostId(hashes, ps[i]) in images ==>
          images[HostId(hashes, ps[i])] == SignatureOf(ps[i]))
    && (forall i, j :: 0 <= i < |ps| && 0 <= j < |ps| && Visible(ps[i]) && Visible(ps[j]) ==>
          (HostId(hashes, ps[i]) == HostId(hashes, ps[j]) ==> SignatureOf(ps[i]) == SignatureOf(ps[j])))
  }

  /** The source already stands for this image. */
  predicate Sourced(hashes: Hashes, c: Cache, p: HostPlacement) {
    p.source in c.sources && c.sources[p.source] == HostId(hashes, p)
  }

  /** Every visible placement carries its data, unless its own source already holds the image. */
  predicate Backed(hashes: Hashes, c: Cache, ps: seq<HostPlacement>) {
    forall i :: 0 <= i < |ps| && Visible(ps[i]) ==> ps[i].data != [] || Sourced(hashes, c, ps[i])
  }

  predicate Consistent(hashes: Hashes, c: Cache, ps: seq<HostPlacement>) {
    && DistinctKeys(hashes, ps) && OneIdPerSource(hashes, ps) && NoClash(hashes, c.images, ps)
    && forall i :: 0 <= i < |ps| ==> Honest(hashes, ps[i])
  }

  /** The cache has the placement, its image and its source, all as the placement says. */
  predicate Settled(hashes: Hashes, c: Cache, p: HostPlacement)
    requires Visible(p)
  {
    var id, key := HostId(hashes, p), KeyOf(hashes, p);
    && key in c.placements && c.placements[key] == PlacementOf(p)
    && id in c.images && c.images[id] == SignatureOf(p)
    && Sourced(hashes, c, p)
  }

  // --- One placement ---

  /** A visible placement whose id is free or its own, and which has data or a cached image, is settled by its turn. */
  lemma WalkOneSettles(hashes: Hashes, w: Walk, p: HostPlacement, viewChanged: bool)
    requires Intact(w.cache) && Visible(p)
    requires HostId(hashes, p) in w.cache.images ==> w.cache.images[HostId(hashes, p)] == SignatureOf(p)
    requires p.data != [] || HostId(hashes, p) in w.cache.images
    ensures var v := WalkOne(hashes, w, p, viewChanged).walk;
            && Settled(hashes, v.cache, p) && KeyOf(hashes, p) in v.current
            && v.current <= w.current + {KeyOf(hashes, p)}
            && v.cache.sources == w.cache.sources[p.source := HostId(hashes, p)]
  {
    hide Clip, ClippedOf, Visible;
  }

  /** And it leaves settled what was, for placements with another key and no other picture of its source. */
  lemma WalkOneKeepsSettled(hashes: Hashes, w: Walk, p: HostPlacement, viewChanged: bool, q: HostPlacement)
    requires Intact(w.cache) && Visible(p) && Visible(q)
    requires HostId(hashes, p) in w.cache.images ==> w.cache.images[HostId(hashes, p)] == SignatureOf(p)
    requires p.data != [] || HostId(hashes, p) in w.cache.images
    requires Settled(hashes, w.cache, q) && KeyOf(hashes, q) in w.current
    requires KeyOf(hashes, q) != KeyOf(hashes, p) && (q.source == p.source ==> HostId(hashes, q) == HostId(hashes, p))
    ensures var v := WalkOne(hashes, w, p, viewChanged).walk;
            Settled(hashes, v.cache, q) && KeyOf(hashes, q) in v.current
  {
    hide Clip, ClippedOf, Visible;
    var id := HostId(hashes, p);
    var met := w.(current := w.current + {KeyOf(hashes, p)});
    var image := EnsureImage(hashes, met, p);
    assert !image.stop && Settled(hashes, image.walk.cache, q) && image.walk.current == met.current;
    var sources := w.cache.sources[p.source := id];
    assert q.source in sources && sources[q.source] == HostId(hashes, q);
    assert HostId(hashes, q) in sources.Values;
    var released := Release(image.walk, p.source, id);
    assert Settled(hashes, released.walk.cache, q) && KeyOf(hashes, q) in released.walk.current;
  }

  lemma WalkOnePlacements(hashes: Hashes, w: Walk, p: HostPlacement, viewChanged: bool)
    requires Visible(p)
    ensures var v := WalkOne(hashes, w, p, viewChanged).walk;
            v.cache.placements.Keys <= w.cache.placements.Keys + {KeyOf(hashes, p)}
  {
    hide Clip, ClippedOf, Visible, DisplayOf;
  }

  /** Of the other images, only the one its source held before can go, and only if no source holds it now. */
  lemma WalkOneOtherImages(hashes: Hashes, w: Walk, p: HostPlacement, viewChanged: bool, id: nat)
    requires Visible(p) && id != HostId(hashes, p)
    requires HostId(hashes, p) in w.cache.images ==> w.cache.images[HostId(hashes, p)] == SignatureOf(p)
    requires p.data != [] || HostId(hashes, p) in w.cache.images
    ensures var v := WalkOne(hashes, w, p, viewChanged).walk.cache;
            id in v.images <==>
            && id in w.cache.images
            && (p.source in w.cache.sources && w.cache.sources[p.source] == id ==> id in v.sources.Values)
  {
    hide Clip, ClippedOf, Visible, DisplayOf;
  }

  /** Without its image and without data, a placement is passed over. */
  lemma WalkOneMisses(hashes: Hashes, w: Walk, p: HostPlacement, viewChanged: bool)
    requires Visible(p) ==> p.data == [] && HostId(hashes, p) !in w.cache.images
    ensures WalkOne(hashes, w, p, viewChanged) ==
            Walked(if Visible(p) then w.(current := w.current + {KeyOf(hashes, p)}) else w, [])
  {
    hide Clip, ClippedOf, Visible, DisplayOf;
  }

  // --- Whose image can be had ---

  /** A placement before the `n`-th one brought this image, or found it. */
  ghost predicate Reached(hashes: Hashes, d: Cache, ps: seq<HostPlacement>, n: nat, id: nat)
    requires n <= |ps|
    decreases n, 0
  {
    exists j: nat :: j < n && Available(hashes, d, ps, j) && HostId(hashes, ps[j]) == id
  }

  /** A placement before the `n`-th one took the source over. */
  ghost predicate Moved(hashes: Hashes, d: Cache, ps: seq<HostPlacement>, n: nat, source: SourceKey)
    requires n <= |ps|
    decreases n, 0
  {
    exists j: nat :: j < n && Available(hashes, d, ps, j) && ps[j].source == source
  }

  /** The `i`-th placement can get its image from the pruned cache `d`: it carries the data, or an earlier
      placement had the same image, or the image is cached and not released before its turn, which is when
      every source that holds it has been taken over. */
  ghost predicate Available(hashes: Hashes, d: Cache, ps: seq<HostPlacement>, i: nat)
    requires i < |ps|
    decreases i, 1
  {
    var id := HostId(hashes, ps[i]);
    && Visible(ps[i])
    && (|| ps[i].data != []
        || Reached(hashes, d, ps, i, id)
        || (id in d.images &&
            (id in d.sources.Values ==>
               exists s :: s in d.sources && d.sources[s] == id && !Moved(hashes, d, ps, i, s))))
  }

  /** The same, as it reads when every earlier visible placement is available. */
  predicate Obtainable(hashes: Hashes, d: Cache, ps: seq<HostPlacement>, i: nat)
    requires i < |ps|
  {
    var id := HostId(hashes, ps[i]);
    || ps[i].data != []
    || (exists j: nat :: j < i && Visible(ps[j]) && HostId(hashes, ps[j]) == id)
    || (id in d.images &&
        (id in d.sources.Values ==>
           exists s :: s in d.sources && d.sources[s] == id &&
                       forall j: nat :: j < i && Visible(ps[j]) ==> ps[j].source != s))
  }

  lemma ReachedNext(hashes: Hashes, d: Cache, ps: seq<HostPlacement>, n: nat, id: nat)
    requires n < |ps|
    ensures Reached(hashes, d, ps, n + 1, id) <==>
            Reached(hashes, d, ps, n, id) || (Available(hashes, d, ps, n) && HostId(hashes, ps[n]) == id)
  {
    hide Available, HostId;
  }

  lemma MovedNext(hashes: Hashes, d: Cache, ps: seq<HostPlacement>, n: nat, source: SourceKey)
    requires n < |ps|
    ensures Moved(hashes, d, ps, n + 1, source) <==>
            Moved(hashes, d, ps, n, source) || (Available(hashes, d, ps, n) && ps[n].source == source)
  {
    hide Available;
  }

  // --- The walk ---

  predicate KeysAmong(hashes: Hashes, keys: set<(nat, nat)>, ps: seq<HostPlacement>) {
    forall key :: key in keys ==> exists i :: 0 <= i < |ps| && Visible(ps[i]) && KeyOf(hashes, ps[i]) == key
  }

  /** The first `n` placements: the available ones are cached and met, the others are not cached. */
  ghost predicate Outcomes(hashes: Hashes, d: Cache, w: Walk, ps: seq<HostPlacement>, n: nat)
    requires n <= |ps|
  {
    forall i: nat :: i < n && Visible(ps[i]) ==>
      if Available(hashes, d, ps, i) then Settled(hashes, w.cache, ps[i]) && KeyOf(hashes, ps[i]) in w.current
      else KeyOf(hashes, ps[i]) !in w.cache.placements
  }

  /** Sources that no available placement took over are as they were. */
  ghost predicate SourcesKept(hashes: Hashes, d: Cache, w: Walk, ps: seq<HostPlacement>, n: nat)
    requires n <= |ps|
  {
    forall s :: !Moved(hashes, d, ps, n, s) ==>
      (s in w.cache.sources <==> s in d.sources) && (s in d.sources ==> w.cache.sources[s] == d.sources[s])
  }

  /** Of the images no available placement had, those are left that no source held or some source holds. */
  ghost predicate ImagesKept(hashes: Hashes, d: Cache, w: Walk, ps: seq<HostPlacement>, n: nat)
    requires n <= |ps|
  {
    forall id :: !Reached(hashes, d, ps, n, id) ==>
      (id in w.cache.images <==> id in d.images && (id in d.sources.Values ==> id in w.cache.sources.Values))
  }

  /** What holds when `n` placements have been walked. */
  ghost predicate Midway(hashes: Hashes, d: Cache, w: Walk, ps: seq<HostPlacement>, n: nat)
    requires n <= |ps|
  {
    && Intact(w.cache) && Consistent(hashes, w.cache, ps)
    && Outcomes(hashes, d, w, ps, n) && SourcesKept(hashes, d, w, ps, n) && ImagesKept(hashes, d, w, ps, n)
    && KeysAmong(hashes, w.current, ps)
    && w.cache.sources.Keys <= CurrentSources(ps)
  }

  /** A source that was taken over stands for a reached image. */
  lemma MovedHolds(hashes: Hashes, d: Cache, w: Walk, ps: seq<HostPlacement>, n: nat, s: SourceKey)
    requires n <= |ps| && Outcomes(hashes, d, w, ps, n) && Moved(hashes, d, ps, n, s)
    ensures s in w.cache.sources && Reached(hashes, d, ps, n, w.cache.sources[s])
  {
    hide Clip, ClippedOf, Visible, SignatureOf, HostId, KeyOf;
    var j: nat :| j < n && Available(hashes, d, ps, j) && ps[j].source == s;
    assert Settled(hashes, w.cache, ps[j]);
  }

  lemma ReachedIsCached(hashes: Hashes, d: Cache, w: Walk, ps: seq<HostPlacement>, n: nat, id: nat)
    requires n <= |ps| && Outcomes(hashes, d, w, ps, n) && Reached(hashes, d, ps, n, id)
    ensures id in w.cache.images
  {
    hide Clip, ClippedOf, Visible, SignatureOf, HostId, KeyOf;
    var j: nat :| j < n && Available(hashes, d, ps, j) && HostId(hashes, ps[j]) == id;
    assert Settled(hashes, w.cache, ps[j]);
  }

  /** An image not reached is held by a source now exactly when one that held it was not taken over. */
  lemma StillHeld(hashes: Hashes, d: Cache, w: Walk, ps: seq<HostPlacement>, n: nat, id: nat)
    requires n <= |ps| && Outcomes(hashes, d, w, ps, n) && SourcesKept(hashes, d, w, ps, n)
    requires !Reached(hashes, d, ps, n, id)
    ensures id in w.cache.sources.Values <==>
            exists s :: s in d.sources && d.sources[s] == id && !Moved(hashes, d, ps, n, s)
  {
    hide Reached, Moved, Outcomes;
    if id in w.cache.sources.Values {
      var s :| s in w.cache.sources && w.cache.sources[s] == id;
      if Moved(hashes, d, ps, n, s) { MovedHolds(hashes, d, w, ps, n, s); }
      assert s in d.sources && d.sources[s] == id && !Moved(hashes, d, ps, n, s);
    }
  }

  /** The turn of the `n`-th placement finds out whether it is available. */
  lemma AvailableAtTurn(hashes: Hashes, d: Cache, w: Walk, ps: seq<HostPlacement>, n: nat)
    requires n < |ps| && Visible(ps[n]) && Midway(hashes, d, w, ps, n)
    ensures Available(hashes, d, ps, n) <==> ps[n].data != [] || HostId(hashes, ps[n]) in w.cache.images
  {
    hide Clip, ClippedOf, Visible, Reached, Moved, Outcomes, SourcesKept, HostId, Intact, Consistent, KeysAmong,
         CurrentSources;
    var id := HostId(hashes, ps[n]);
    if Reached(hashes, d, ps, n, id) {
      ReachedIsCached(hashes, d, w, ps, n, id);
    } else {
      StillHeld(hashes, d, w, ps, n, id);
    }
  }

  // --- One step of the walk ---

  /** A placement that is not available leaves everything as it was. */
  lemma StepMissed(hashes: Hashes, d: Cache, w: Walk, ps: seq<HostPlacement>, n: nat, viewChanged: bool)
    requires n < |ps| && Midway(hashes, d, w, ps, n) && !Available(hashes, d, ps, n)
    ensures var o := WalkOne(hashes, w, ps[n], viewChanged);
            Midway(hashes, d, o.walk, ps, n + 1) && o.commands == [] && o.walk.cache == w.cache
  {
    hide Clip, ClippedOf, Visible, Available, Reached, Moved, WalkOne, Settled, Consistent, SignatureOf, CurrentSources;
    var p := ps[n];
    var v := WalkOne(hashes, w, p, viewChanged).walk;
    if Visible(p) { AvailableAtTurn(hashes, d, w, ps, n); }
    WalkOneMisses(hashes, w, p, viewChanged);
    forall id ensures Reached(hashes, d, ps, n + 1, id) == Reached(hashes, d, ps, n, id) {
      ReachedNext(hashes, d, ps, n, id);
    }
    forall s ensures Moved(hashes, d, ps, n + 1, s) == Moved(hashes, d, ps, n, s) { MovedNext(hashes, d, ps, n, s); }
    if Visible(p) { assert KeyOf(hashes, p).0 !in w.cache.images; }
  }

  lemma TakenOutcomes(hashes: Hashes, d: Cache, w: Walk, ps: seq<HostPlacement>, n: nat, viewChanged: bool)
    requires n < |ps| && Midway(hashes, d, w, ps, n) && Available(hashes, d, ps, n) && Visible(ps[n])
    requires ps[n].data != [] || HostId(hashes, ps[n]) in w.cache.images
    ensures var v := WalkOne(hashes, w, ps[n], viewChanged).walk;
            Outcomes(hashes, d, v, ps, n + 1) && KeysAmong(hashes, v.current, ps)
  {
    hide Clip, ClippedOf, Visible, Available, Intact, Settled, KeyOf, HostId, WalkOne, SourcesKept, ImagesKept,
         CurrentSources;
    var p := ps[n];
    var v := WalkOne(hashes, w, p, viewChanged).walk;
    WalkOneSettles(hashes, w, p, viewChanged);
    WalkOnePlacements(hashes, w, p, viewChanged);
    forall i: nat | i < n && Visible(ps[i]) && Available(hashes, d, ps, i)
      ensures Settled(hashes, v.cache, ps[i]) && KeyOf(hashes, ps[i]) in v.current
    {
      WalkOneKeepsSettled(hashes, w, p, viewChanged, ps[i]);
    }
  }

  lemma TakenSources(hashes: Hashes, d: Cache, w: Walk, v: Walk, ps: seq<HostPlacement>, n: nat)
    requires n < |ps| && Available(hashes, d, ps, n) && SourcesKept(hashes, d, w, ps, n)
    requires v.cache.sources == w.cache.sources[ps[n].source := HostId(hashes, ps[n])]
    ensures SourcesKept(hashes, d, v, ps, n + 1)
  {
    hide Available, Moved, HostId;
    forall s | !Moved(hashes, d, ps, n + 1, s)
      ensures (s in v.cache.sources <==> s in d.sources) && (s in d.sources ==> v.cache.sources[s] == d.sources[s])
    {
      MovedNext(hashes, d, ps, n, s);
      assert s in v.cache.sources <==> s in w.cache.sources;
    }
  }

  lemma TakenImages(hashes: Hashes, d: Cache, w: Walk, ps: seq<HostPlacement>, n: nat, viewChanged: bool, id: nat)
    requires n < |ps| && Midway(hashes, d, w, ps, n) && Available(hashes, d, ps, n) && Visible(ps[n])
    requires ps[n].data != [] || HostId(hashes, ps[n]) in w.cache.images
    requires !Reached(hashes, d, ps, n + 1, id)
    ensures var v := WalkOne(hashes, w, ps[n], viewChanged).walk;
            id in v.cache.images <==> id in d.images && (id in d.sources.Values ==> id in v.cache.sources.Values)
  {
    hide Clip, ClippedOf, Visible, Available, Reached, Moved, Settled, KeyOf, HostId, WalkOne, Outcomes, KeysAmong,
         CurrentSources;
    var p := ps[n];
    var v := WalkOne(hashes, w, p, viewChanged).walk;
    ReachedNext(hashes, d, ps, n, id);
    WalkOneSettles(hashes, w, p, viewChanged);
    WalkOneOtherImages(hashes, w, p, viewChanged, id);
    if p.source in w.cache.sources && w.cache.sources[p.source] == id {
      if Moved(hashes, d, ps, n, p.source) { MovedHolds(hashes, d, w, ps, n, p.source); }
      assert d.sources[p.source] == id;
    } else {
      StaysHeld(w.cache.sources, p.source, HostId(hashes, p), id);
    }
  }

  lemma StaysHeld(sources: map<SourceKey, nat>, source: SourceKey, new': nat, id: nat)
    requires id != new' && !(source in sources && sources[source] == id)
    ensures id in sources[source := new'].Values <==> id in sources.Values
  {
    var more := sources[source := new'];
    if id in sources.Values {
      var s :| s in sources && sources[s] == id;
      assert more[s] == id;
    }
  }

  lemma StepTaken(hashes: Hashes, d: Cache, w: Walk, h: Host, ps: seq<HostPlacement>, n: nat, viewChanged: bool)
    requires n < |ps| && Midway(hashes, d, w, ps, n) && Available(hashes, d, ps, n) && Coherent(hashes, w.cache, h)
    ensures var o := WalkOne(hashes, w, ps[n], viewChanged);
            Midway(hashes, d, o.walk, ps, n + 1) && Coherent(hashes, o.walk.cache, ExecuteAll(h, o.commands))
  {
    hide Clip, ClippedOf, Visible, Reached, Moved, Coherent, Intact, Settled, KeyOf, HostId, WalkOne, Outcomes,
         SourcesKept, KeysAmong, Execute, Available, SignatureOf;
    assert Visible(ps[n]) by { AvailableIsVisible(hashes, d, ps, n); }
    var o := WalkOne(hashes, w, ps[n], viewChanged);
    AvailableAtTurn(hashes, d, w, ps, n);
    WalkOneSettles(hashes, w, ps[n], viewChanged);
    WalkOneAgrees(hashes, w, h, ps[n], viewChanged);
    WalkOneImages(hashes, w, ps[n], viewChanged);
    TakenOutcomes(hashes, d, w, ps, n, viewChanged);
    TakenSources(hashes, d, w, o.walk, ps, n);
    forall id | !Reached(hashes, d, ps, n + 1, id)
      ensures id in o.walk.cache.images <==>
              id in d.images && (id in d.sources.Values ==> id in o.walk.cache.sources.Values)
    {
      TakenImages(hashes, d, w, ps, n, viewChanged, id);
    }
  }

  lemma AvailableIsVisible(hashes: Hashes, d: Cache, ps: seq<HostPlacement>, i: nat)
    requires i < |ps| && Available(hashes, d, ps, i)
    ensures Visible(ps[i])
  {
  }

  lemma {:induction false} WalkReaches(hashes: Hashes, d: Cache, w: Walk, h: Host, ps: seq<HostPlacement>, n: nat,
                                       viewChanged: bool)
    requires n <= |ps| && Midway(hashes, d, w, ps, n) && Coherent(hashes, w.cache, h)
    ensures Midway(hashes, d, WalkAll(hashes, w, ps[n..], viewChanged).walk, ps, |ps|)
    decreases |ps| - n
  {
    hide Midway, WalkOne, Available, Coherent, Execute;
    if n < |ps| {
      var o := WalkOne(hashes, w, ps[n], viewChanged);
      assert ps[n..][0] == ps[n] && ps[n..][1..] == ps[n + 1..];
      if Available(hashes, d, ps, n) {
        StepTaken(hashes, d, w, h, ps, n, viewChanged);
        WalkReaches(hashes, d, o.walk, ExecuteAll(h, o.commands), ps, n + 1, viewChanged);
      } else {
        StepMissed(hashes, d, w, ps, n, viewChanged);
        WalkReaches(hashes, d, o.walk, h, ps, n + 1, viewChanged);
      }
    }
  }

  // --- The update ---

  /** On screen as it should be: under the ids that the hashes give, its geometry and stacking order, of an image
      of its size, format and data. */
  predicate OnHost(hashes: Hashes, h: Host, p: HostPlacement)
    requires Visible(p)
  {
    var id := hashes.image(p.pane, SignatureOf(p));
    var key := (id, hashes.placement(p.source, p.imageId, p.placementId));
    && key in h.placements && h.placements[key].geometry == ClippedOf(p).value && h.placements[key].z == p.z
    && id in h.images
    && h.images[id].width == p.imageWidth && h.images[id].height == p.imageHeight
    && h.images[id].format == (match p.format case Rgb => 24 case Rgba => 32 case Png => 100)
    && |h.images[id].data| == p.dataLen && hashes.fingerprint(h.images[id].data) == p.fingerprint
  }

  /** The screen: one host placement per visible placement, and no other. */
  predicate Exactly(hashes: Hashes, h: Host, ps: seq<HostPlacement>) {
    && (forall i :: 0 <= i < |ps| && Visible(ps[i]) ==> OnHost(hashes, h, ps[i]))
    && KeysAmong(hashes, h.placements.Keys, ps)
  }

  /** What an update leaves in the cache when every visible placement is available. */
  predicate Rested(hashes: Hashes, c: Cache, ps: seq<HostPlacement>) {
    && (forall i :: 0 <= i < |ps| && Visible(ps[i]) ==> Settled(hashes, c, ps[i]))
    && KeysAmong(hashes, c.placements.Keys, ps)
    && c.sources.Keys <= CurrentSources(ps)
  }

  lemma PruneKeepsConsistent(hashes: Hashes, c: Cache, ps: seq<HostPlacement>)
    requires Consistent(hashes, c, ps)
    ensures Consistent(hashes, Prune(c, ps), ps)
  {
    hide Clip, ClippedOf, Visible, HostId, KeyOf, SignatureOf, PrunedImages, Honest;
  }

  lemma PruneKeepsIntact(c: Cache, ps: seq<HostPlacement>)
    requires Intact(c)
    ensures Intact(Prune(c, ps))
  {
    hide CurrentSources, PrunedImages, Retained;
    PrunedUnused(c, ps);
  }

  lemma StartsMidway(hashes: Hashes, d: Cache, ps: seq<HostPlacement>)
    requires Intact(d) && Consistent(hashes, d, ps) && d.sources.Keys <= CurrentSources(ps)
    ensures Midway(hashes, d, Walk(d, {}), ps, 0)
  {
    hide Intact, Consistent, CurrentSources;
    forall id | id in d.images && id in d.sources.Values ensures id in Walk(d, {}).cache.sources.Values {}
    IntactImages(d);
  }

  lemma IntactImages(d: Cache)
    requires Intact(d)
    ensures d.sources.Values <= d.images.Keys
  {
  }

  lemma ConsistentIsSupplied(hashes: Hashes, c: Cache, ps: seq<HostPlacement>)
    requires Consistent(hashes, c, ps)
    ensures Supplied(hashes, c.images, ps)
  {
    hide Visible, HostId;
  }

  /** The cache after an update: an available placement is settled, another one has no entry. */
  lemma UpdateOutcomes(hashes: Hashes, c: Cache, h: Host, ps: seq<HostPlacement>, viewChanged: bool)
    requires Coherent(hashes, Prune(c, ps), h) && Intact(c) && Consistent(hashes, c, ps)
    ensures var d, u := Prune(c, ps), Update(hashes, c, ps, viewChanged);
            && (forall i: nat :: i < |ps| && Visible(ps[i]) ==>
                  if Available(hashes, d, ps, i) then Settled(hashes, u, ps[i])
                  else KeyOf(hashes, ps[i]) !in u.placements)
            && KeysAmong(hashes, u.placements.Keys, ps)
            && u.sources.Keys <= CurrentSources(ps)
  {
    hide Coherent, Intact, Consistent, Visible, Available, KeyOf, HostId, WalkAll, SourcesKept, ImagesKept,
         CurrentSources, SignatureOf, ClippedOf;
    var d := Prune(c, ps);
    PruneKeepsConsistent(hashes, c, ps);
    PruneKeepsIntact(c, ps);
    StartsMidway(hashes, d, ps);
    assert ps[0..] == ps;
    WalkReaches(hashes, d, Walk(d, {}), h, ps, 0, viewChanged);
  }

  /** What a coherent host shows of a placement is what the cache has of it. */
  lemma SettledIsOnHost(hashes: Hashes, c: Cache, h: Host, p: HostPlacement)
    requires Coherent(hashes, c, h) && Visible(p)
    ensures Settled(hashes, c, p) ==> OnHost(hashes, h, p)
    ensures OnHost(hashes, h, p) ==> KeyOf(hashes, p) in h.placements
    ensures KeyOf(hashes, p) !in c.placements ==> KeyOf(hashes, p) !in h.placements
    ensures c.placements.Keys == h.placements.Keys
  {
    hide Clip, ClippedOf, Visible;
  }

  /** Convergence, placement by placement: from any cache in step with the host, a visible placement of the
      batch ends up on screen as it should be exactly when its image is available, and not at all otherwise;
      nothing else is on screen. */
  lemma UpdateShows(hashes: Hashes, c: Cache, h: Host, ps: seq<HostPlacement>, viewChanged: bool,
                    commands: seq<Command>)
    requires Coherent(hashes, c, h) && Intact(c) && Consistent(hashes, c, ps)
    requires EmitsUpdate(hashes, c, ps, viewChanged, commands)
    ensures var after := ExecuteAll(h, commands);
            && (forall i: nat :: i < |ps| && Visible(ps[i]) ==>
                  (OnHost(hashes, after, ps[i]) <==> Available(hashes, Prune(c, ps), ps, i)) &&
                  (KeyOf(hashes, ps[i]) in after.placements <==> Available(hashes, Prune(c, ps), ps, i)))
            && KeysAmong(hashes, after.placements.Keys, ps)
    ensures (forall i: nat :: i < |ps| && Visible(ps[i]) ==> Available(hashes, Prune(c, ps), ps, i)) ==>
              Rested(hashes, Update(hashes, c, ps, viewChanged), ps)
  {
    hide OnHost, Consistent, Honest, Supplied, Visible, Coherent, Intact, Execute, KeysAmong, PrunedImages, Prune,
         Stale, WalkAll, Update, CurrentSources, Available, Settled, KeyOf;
    var u, after := Update(hashes, c, ps, viewChanged), ExecuteAll(h, commands);
    ConsistentIsSupplied(hashes, c, ps);
    assert forall i :: 0 <= i < |ps| ==> Honest(hashes, ps[i]) by { AllHonest(hashes, c, ps); }
    UpdateAgrees(hashes, c, h, ps, viewChanged, commands);
    var pre, post :| DeletesImages(pre, PrunedImages(c, ps))
                     && DeletesPlacements(post, Stale(Middle(hashes, c, ps, viewChanged).walk))
                     && commands == pre + Middle(hashes, c, ps, viewChanged).commands + post;
    PruneAgrees(hashes, c, h, ps, pre);
    UpdateOutcomes(hashes, c, ExecuteAll(h, pre), ps, viewChanged);
    forall i: nat | i < |ps| && Visible(ps[i])
      ensures (OnHost(hashes, after, ps[i]) <==> Available(hashes, Prune(c, ps), ps, i)) &&
              (KeyOf(hashes, ps[i]) in after.placements <==> Available(hashes, Prune(c, ps), ps, i))
    {
      SettledIsOnHost(hashes, u, after, ps[i]);
    }
    SameKeys(hashes, u, after);
  }

  lemma SameKeys(hashes: Hashes, c: Cache, h: Host)
    requires Coherent(hashes, c, h)
    ensures h.placements.Keys == c.placements.Keys
  {
  }

  lemma AllHonest(hashes: Hashes, c: Cache, ps: seq<HostPlacement>)
    requires Consistent(hashes, c, ps)
    ensures forall i :: 0 <= i < |ps| ==> Honest(hashes, ps[i])
  {
  }

  // --- The whole batch ---

  /** With every placement before it available, the condition no longer depends on theirs. */
  lemma AvailableIsObtainable(hashes: Hashes, d: Cache, ps: seq<HostPlacement>, i: nat)
    requires i < |ps| && Visible(ps[i])
    requires forall j: nat :: j < i && Visible(ps[j]) ==> Available(hashes, d, ps, j)
    ensures Available(hashes, d, ps, i) <==> Obtainable(hashes, d, ps, i)
  {
    hide Clip, ClippedOf, Visible, HostId;
    forall j: nat | j < i ensures Available(hashes, d, ps, j) == Visible(ps[j]) {
      if Available(hashes, d, ps, j) { AvailableIsVisible(hashes, d, ps, j); }
    }
  }

  lemma {:induction false} AllAvailable(hashes: Hashes, d: Cache, ps: seq<HostPlacement>, n: nat)
    requires n <= |ps|
    ensures (forall i: nat :: i < n && Visible(ps[i]) ==> Available(hashes, d, ps, i)) <==>
            (forall i: nat :: i < n && Visible(ps[i]) ==> Obtainable(hashes, d, ps, i))
  {
    hide Clip, ClippedOf, Visible, HostId, Available, Obtainable;
    if n > 0 {
      AllAvailable(hashes, d, ps, n - 1);
      if Visible(ps[n - 1]) && forall i: nat :: i < n - 1 && Visible(ps[i]) ==> Available(hashes, d, ps, i) {
        AvailableIsObtainable(hashes, d, ps, n - 1);
      }
    }
  }

  /** Convergence: the host ends up showing exactly the visible placements of the batch if and only if each
      of them carries its data, or follows one with the same image, or finds its image cached and not yet
      released by a placement before it. */
  lemma ConvergesIff(hashes: Hashes, c: Cache, h: Host, ps: seq<HostPlacement>, viewChanged: bool,
                     commands: seq<Command>)
    requires Coherent(hashes, c, h) && Intact(c) && Consistent(hashes, c, ps)
    requires EmitsUpdate(hashes, c, ps, viewChanged, commands)
    ensures Exactly(hashes, ExecuteAll(h, commands), ps) <==>
            forall i: nat :: i < |ps| && Visible(ps[i]) ==> Obtainable(hashes, Prune(c, ps), ps, i)
  {
    hide Coherent, Intact, Consistent, EmitsUpdate, Visible, Available, Obtainable, Prune, KeysAmong, OnHost, Execute,
         KeyOf, Rested;
    UpdateShows(hashes, c, h, ps, viewChanged, commands);
    AllAvailable(hashes, Prune(c, ps), ps, |ps|);
  }

  lemma BackedIsObtainable(hashes: Hashes, c: Cache, ps: seq<HostPlacement>, i: nat)
    requires i < |ps| && Visible(ps[i]) && Intact(c) && OneIdPerSource(hashes, ps) && Backed(hashes, c, ps)
    ensures Obtainable(hashes, Prune(c, ps), ps, i)
  {
    hide Clip, ClippedOf, Visible, HostId, PrunedImages;
    PruneKeepsIntact(c, ps);
    assert ps[i].source in CurrentSources(ps);
    var earlier := exists j: nat :: j < i && Visible(ps[j]) && HostId(hashes, ps[j]) == HostId(hashes, ps[i]);
    if ps[i].data == [] && !earlier {
      var s, d := ps[i].source, Prune(c, ps);
      assert s in d.sources && d.sources[s] == HostId(hashes, ps[i]);
      forall j: nat | j < i && Visible(ps[j]) ensures ps[j].source != s {}
    }
  }

  /** In particular, it does when every visible placement carries its data unless its own source already
      holds its image; and then the cache is at rest. */
  lemma UpdateConverges(hashes: Hashes, c: Cache, h: Host, ps: seq<HostPlacement>, viewChanged: bool,
                        commands: seq<Command>)
    requires Coherent(hashes, c, h) && Intact(c) && Consistent(hashes, c, ps) && Backed(hashes, c, ps)
    requires EmitsUpdate(hashes, c, ps, viewChanged, commands)
    ensures Exactly(hashes, ExecuteAll(h, commands), ps)
    ensures Rested(hashes, Update(hashes, c, ps, viewChanged), ps)
  {
    hide Coherent, Intact, EmitsUpdate, Visible, Available, Obtainable, Prune, KeysAmong, OnHost, Execute, Rested,
         Backed, DistinctKeys, OneIdPerSource, NoClash, Honest, KeyOf, Update;
    forall i: nat | i < |ps| && Visible(ps[i]) ensures Obtainable(hashes, Prune(c, ps), ps, i) {
      BackedIsObtainable(hashes, c, ps, i);
    }
    ConvergesIff(hashes, c, h, ps, viewChanged, commands);
    AllAvailable(hashes, Prune(c, ps), ps, |ps|);
    UpdateShows(hashes, c, h, ps, viewChanged, commands);
  }
}

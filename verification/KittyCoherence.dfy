/** The cache mirrors the host: over every run of updates and clears, what the commands make of the host is
    what the cache says of it. */
module KittyCoherence {
  import opened Clipping
  import opened KittyHost
  import opened KittyCache

  /** The signature the cache would hold for an image the host stores. */
  function Described(hashes: Hashes, image: Image): ImageSignature {
    ImageSignature(image.width, image.height, image.format, |image.data|, hashes.fingerprint(image.data))
  }

  predicate ImagesAgree(hashes: Hashes, c: Cache, h: Host) {
    && h.images.Keys == c.images.Keys
    && forall id :: id in c.images ==> Described(hashes, h.images[id]) == c.images[id]
  }

  predicate PlacementsAgree(c: Cache, h: Host) {
    && h.placements.Keys == c.placements.Keys
    && forall key :: key in c.placements ==> h.placements[key] == View(c.placements[key].geometry, c.placements[key].z)
  }

  predicate Coherent(hashes: Hashes, c: Cache, h: Host) {
    ImagesAgree(hashes, c, h) && PlacementsAgree(c, h)
  }

  /** Every cached placement and every live source names a cached image. */
  predicate Intact(c: Cache) {
    && (forall key :: key in c.placements ==> key.0 in c.images)
    && (forall s :: s in c.sources ==> c.sources[s] in c.images)
  }

  /** Data, when carried, is the data that the length and the fingerprint describe. */
  predicate Honest(hashes: Hashes, p: HostPlacement) {
    p.data != [] ==> |p.data| == p.dataLen && hashes.fingerprint(p.data) == p.fingerprint
  }

  /** The one branch that leaves the cache wrong: the id is cached with another signature, so the host image
      is deleted, and there is no data to replace it with, so the entry stays. */
  predicate LeavesStale(hashes: Hashes, c: Cache, p: HostPlacement) {
    var id := HostId(hashes, p);
    Visible(p) && id in c.images && c.images[id] != SignatureOf(p) && p.data == []
  }

  /** No two pictures share a host id, as far as this batch and this cache can tell: a visible placement
      without data meets only its own signature under its id. */
  predicate Supplied(hashes: Hashes, images: map<nat, ImageSignature>, ps: seq<HostPlacement>) {
    forall i :: 0 <= i < |ps| && Visible(ps[i]) && ps[i].data == [] ==>
      && (HostId(hashes, ps[i]) in images ==> images[HostId(hashes, ps[i])] == SignatureOf(ps[i]))
      && forall j :: 0 <= j < |ps| && Visible(ps[j]) && HostId(hashes, ps[j]) == HostId(hashes, ps[i]) ==>
           SignatureOf(ps[j]) == SignatureOf(ps[i])
  }

  // --- The pieces of one turn ---

  lemma DisplayShows(hashes: Hashes, p: HostPlacement)
    requires Visible(p)
    ensures Representable(DisplayOf(hashes, p))
    ensures Shown(DisplayOf(hashes, p)) == View(PlacementOf(p).geometry, p.z)
  {
    hide Clip;
  }

  lemma ExecuteOne(h: Host, c: Command)
    ensures ExecuteAll(h, [c]) == Execute(h, c)
  {
    hide Execute;
    assert [c][1..] == [];
  }

  lemma ForgetAgrees(hashes: Hashes, w: Walk, h: Host, id: nat)
    requires Coherent(hashes, w.cache, h) && Intact(w.cache)
    ensures var v, g := ForgetPlacements(w, id).cache, Execute(h, DeleteImage(id));
            && PlacementsAgree(v, g)
            && ImagesAgree(hashes, v.(images := v.images - {id}), g)
            && (forall key :: key in v.placements ==> key.0 in v.images && key.0 != id)
  {
  }

  lemma EnsureAgrees(hashes: Hashes, w: Walk, h: Host, p: HostPlacement)
    requires Coherent(hashes, w.cache, h) && Intact(w.cache) && Visible(p) && Honest(hashes, p)
    ensures var e := EnsureImage(hashes, w, p);
            && (Coherent(hashes, e.walk.cache, ExecuteAll(h, e.commands)) <==> !LeavesStale(hashes, w.cache, p))
            && (!LeavesStale(hashes, w.cache, p) ==> Intact(e.walk.cache))
            && (!e.stop ==> HostId(hashes, p) in e.walk.cache.images)
            && e.walk.cache.sources == w.cache.sources
  {
    hide Visible, ForgetPlacements, Coherent, Intact;
    var id := HostId(hashes, p);
    var e := EnsureImage(hashes, w, p);
    if id in w.cache.images && w.cache.images[id] == SignatureOf(p) {
    } else if id !in w.cache.images {
      if p.data != [] {
        ExecuteOne(h, UploadOf(hashes, p));
        UploadAgrees(hashes, w.cache, h, p);
        assert [] + [UploadOf(hashes, p)] == [UploadOf(hashes, p)];
      }
    } else {
      ExecuteOne(h, DeleteImage(id));
      ReplaceAgrees(hashes, w, h, p);
      ExecuteConcat(h, [DeleteImage(id)], [UploadOf(hashes, p)]);
      ExecuteOne(Execute(h, DeleteImage(id)), UploadOf(hashes, p));
    }
  }

  lemma UploadAgrees(hashes: Hashes, c: Cache, h: Host, p: HostPlacement)
    requires Coherent(hashes, c, h) && Intact(c) && Honest(hashes, p) && p.data != []
    requires HostId(hashes, p) !in c.images
    ensures var d := c.(images := c.images[HostId(hashes, p) := SignatureOf(p)]);
            Coherent(hashes, d, Execute(h, UploadOf(hashes, p))) && Intact(d)
  {
  }

  lemma ReplaceAgrees(hashes: Hashes, w: Walk, h: Host, p: HostPlacement)
    requires Coherent(hashes, w.cache, h) && Intact(w.cache) && Honest(hashes, p)
    requires HostId(hashes, p) in w.cache.images
    ensures var id := HostId(hashes, p);
            var v, g := ForgetPlacements(w, id).cache, Execute(h, DeleteImage(id));
            && v.sources == w.cache.sources && v.images == w.cache.images
            && !Coherent(hashes, v, g)
            && var d := v.(images := v.images[id := SignatureOf(p)]);
               p.data != [] ==> Coherent(hashes, d, Execute(g, UploadOf(hashes, p))) && Intact(d)
  {
    var id := HostId(hashes, p);
    var v, g := ForgetPlacements(w, id).cache, Execute(h, DeleteImage(id));
    assert id in v.images && id !in g.images;
    ForgetAgrees(hashes, w, h, id);
    if p.data != [] { ReplacementAgrees(hashes, v, g, p); }
  }

  lemma ReplacementAgrees(hashes: Hashes, v: Cache, g: Host, p: HostPlacement)
    requires Honest(hashes, p) && p.data != [] && HostId(hashes, p) in v.images
    requires PlacementsAgree(v, g) && ImagesAgree(hashes, v.(images := v.images - {HostId(hashes, p)}), g)
    requires (forall key :: key in v.placements ==> key.0 in v.images && key.0 != HostId(hashes, p))
    requires (forall s :: s in v.sources ==> v.sources[s] in v.images)
    ensures var d := v.(images := v.images[HostId(hashes, p) := SignatureOf(p)]);
            Coherent(hashes, d, Execute(g, UploadOf(hashes, p))) && Intact(d)
  {
  }

  lemma ReleaseAgrees(hashes: Hashes, w: Walk, h: Host, source: SourceKey, id: nat)
    requires Coherent(hashes, w.cache, h) && Intact(w.cache) && id in w.cache.images
    ensures var r := Release(w, source, id);
            && Coherent(hashes, r.walk.cache, ExecuteAll(h, r.commands)) && Intact(r.walk.cache)
            && id in r.walk.cache.images
  {
    var sources := w.cache.sources[source := id];
    var v := w.(cache := w.cache.(sources := sources));
    assert Intact(v.cache);
    if source in w.cache.sources {
      var previous := w.cache.sources[source];
      if previous != id && previous !in sources.Values {
        ExecuteOne(h, DeleteImage(previous));
        ForgetAgrees(hashes, v, h, previous);
        assert forall s :: s in sources ==> sources[s] != previous;
      }
    }
  }

  lemma ShowAgrees(hashes: Hashes, w: Walk, h: Host, p: HostPlacement, viewChanged: bool)
    requires Coherent(hashes, w.cache, h) && Intact(w.cache) && Visible(p) && HostId(hashes, p) in w.cache.images
    ensures var s := ShowPlacement(hashes, w, p, viewChanged);
            Coherent(hashes, s.walk.cache, ExecuteAll(h, s.commands)) && Intact(s.walk.cache)
  {
    hide Clip, Visible, ClippedOf;
    DisplayShows(hashes, p);
    ExecuteOne(h, DisplayOf(hashes, p));
  }

  /** One placement keeps cache and host in step exactly when it does not take the stale branch. */
  lemma WalkOneAgrees(hashes: Hashes, w: Walk, h: Host, p: HostPlacement, viewChanged: bool)
    requires Coherent(hashes, w.cache, h) && Intact(w.cache) && Honest(hashes, p)
    ensures var o := WalkOne(hashes, w, p, viewChanged);
            && (Coherent(hashes, o.walk.cache, ExecuteAll(h, o.commands)) <==> !LeavesStale(hashes, w.cache, p))
            && (!LeavesStale(hashes, w.cache, p) ==> Intact(o.walk.cache))
  {
    hide Visible, EnsureImage, Release, ShowPlacement, Coherent, Intact, Execute;
    if Visible(p) {
      var met := w.(current := w.current + {KeyOf(hashes, p)});
      EnsureAgrees(hashes, met, h, p);
      EnsureStops(hashes, met, p);
      var image := EnsureImage(hashes, met, p);
      if !image.stop {
        var id := HostId(hashes, p);
        var h1 := ExecuteAll(h, image.commands);
        ReleaseAgrees(hashes, image.walk, h1, p.source, id);
        var released := Release(image.walk, p.source, id);
        var h2 := ExecuteAll(h1, released.commands);
        ShowAgrees(hashes, released.walk, h2, p, viewChanged);
        var shown := ShowPlacement(hashes, released.walk, p, viewChanged);
        ExecuteConcat(h, image.commands, released.commands);
        ExecuteConcat(h, image.commands + released.commands, shown.commands);
      }
    }
  }

  lemma EnsureStops(hashes: Hashes, w: Walk, p: HostPlacement)
    ensures LeavesStale(hashes, w.cache, p) ==> EnsureImage(hashes, w, p).stop
  {
  }

  /** Images after one placement: cached before, or its own. */
  lemma WalkOneImages(hashes: Hashes, w: Walk, p: HostPlacement, viewChanged: bool)
    ensures var images := WalkOne(hashes, w, p, viewChanged).walk.cache.images;
            forall id :: id in images ==>
              || (id in w.cache.images && images[id] == w.cache.images[id])
              || (Visible(p) && id == HostId(hashes, p) && images[id] == SignatureOf(p))
  {
    hide Clip;
  }

  lemma {:induction false} WalkAllAgrees(hashes: Hashes, w: Walk, h: Host, ps: seq<HostPlacement>, viewChanged: bool)
    requires Coherent(hashes, w.cache, h) && Intact(w.cache)
    requires forall i :: 0 <= i < |ps| ==> Honest(hashes, ps[i])
    requires Supplied(hashes, w.cache.images, ps)
    ensures var o := WalkAll(hashes, w, ps, viewChanged);
            Coherent(hashes, o.walk.cache, ExecuteAll(h, o.commands)) && Intact(o.walk.cache)
    decreases |ps|
  {
    hide Coherent, Intact, WalkOne, Visible, Execute;
    if ps != [] {
      var first := WalkOne(hashes, w, ps[0], viewChanged);
      WalkOneAgrees(hashes, w, h, ps[0], viewChanged);
      assert !LeavesStale(hashes, w.cache, ps[0]);
      WalkOneImages(hashes, w, ps[0], viewChanged);
      assert Supplied(hashes, first.walk.cache.images, ps[1..]) by {
        assert forall i :: 0 <= i < |ps| - 1 ==> ps[1..][i] == ps[i + 1];
      }
      var h1 := ExecuteAll(h, first.commands);
      WalkAllAgrees(hashes, first.walk, h1, ps[1..], viewChanged);
      ExecuteConcat(h, first.commands, WalkAll(hashes, first.walk, ps[1..], viewChanged).commands);
    }
  }

  // --- Whole updates ---

  lemma PruneAgrees(hashes: Hashes, c: Cache, h: Host, ps: seq<HostPlacement>, pre: seq<Command>)
    requires Coherent(hashes, c, h) && Intact(c) && DeletesImages(pre, PrunedImages(c, ps))
    ensures Coherent(hashes, Prune(c, ps), ExecuteAll(h, pre)) && Intact(Prune(c, ps))
  {
    hide CurrentSources, PrunedImages, Retained;
    ExecuteImageDeletes(h, pre, PrunedImages(c, ps));
    PrunedUnused(c, ps);
  }

  lemma PrunedUnused(c: Cache, ps: seq<HostPlacement>)
    ensures forall s :: s in Retained(c, ps) ==>
              s in c.sources && Retained(c, ps)[s] == c.sources[s] && c.sources[s] !in PrunedImages(c, ps)
  {
    hide CurrentSources;
    forall s | s in Retained(c, ps) ensures c.sources[s] !in PrunedImages(c, ps) {
      assert Retained(c, ps)[s] in Retained(c, ps).Values;
    }
  }

  /** Cache and host stay in step over one whole update, and the cache stays intact. */
  lemma UpdateAgrees(hashes: Hashes, c: Cache, h: Host, ps: seq<HostPlacement>, viewChanged: bool,
                     commands: seq<Command>)
    requires Coherent(hashes, c, h) && Intact(c)
    requires (forall i :: 0 <= i < |ps| ==> Honest(hashes, ps[i])) && Supplied(hashes, c.images, ps)
    requires EmitsUpdate(hashes, c, ps, viewChanged, commands)
    ensures Coherent(hashes, Update(hashes, c, ps, viewChanged), ExecuteAll(h, commands))
    ensures Intact(Update(hashes, c, ps, viewChanged))
  {
    hide CurrentSources, PrunedImages, Retained, Honest, WalkAll, Visible, Coherent, Intact, Execute;
    var m := Middle(hashes, c, ps, viewChanged);
    var pre, post :| DeletesImages(pre, PrunedImages(c, ps)) && DeletesPlacements(post, Stale(m.walk))
                     && commands == pre + m.commands + post;
    PruneAgrees(hashes, c, h, ps, pre);
    var h1 := ExecuteAll(h, pre);
    assert Supplied(hashes, Prune(c, ps).images, ps);
    WalkAllAgrees(hashes, Walk(Prune(c, ps), {}), h1, ps, viewChanged);
    var h2 := ExecuteAll(h1, m.commands);
    StaleAgrees(hashes, m.walk, h2, post);
    ExecuteConcat(h, pre, m.commands);
    ExecuteConcat(h, pre + m.commands, post);
  }

  lemma StaleAgrees(hashes: Hashes, w: Walk, h: Host, post: seq<Command>)
    requires Coherent(hashes, w.cache, h) && Intact(w.cache) && DeletesPlacements(post, Stale(w))
    ensures var c := w.cache.(placements := w.cache.placements - Stale(w));
            Coherent(hashes, c, ExecuteAll(h, post)) && Intact(c)
  {
    ExecutePlacementDeletes(h, post, Stale(w));
  }

  /** `clear_pane_bytes` deletes every cached image; an intact cache has no placement elsewhere, so nothing of
      what the cache knew is left on the host. */
  lemma ClearEmptiesHost(hashes: Hashes, c: Cache, h: Host, commands: seq<Command>)
    requires Coherent(hashes, c, h) && Intact(c) && DeletesImages(commands, c.images.Keys)
    ensures ExecuteAll(h, commands) == EMPTY && Coherent(hashes, NO_GRAPHICS, EMPTY) && Intact(NO_GRAPHICS)
  {
    ExecuteImageDeletes(h, commands, c.images.Keys);
    var g := ExecuteAll(h, commands);
    assert g.images == map[] && g.placements == map[];
  }

  // --- Runs ---

  datatype Call = UpdateCall(ps: seq<HostPlacement>, viewChanged: bool) | ClearCall

  datatype Snapshot = Snapshot(cache: Cache, host: Host)

  ghost predicate Called(hashes: Hashes, before: Snapshot, call: Call, after: Snapshot) {
    exists commands ::
      && after.host == ExecuteAll(before.host, commands)
      && match call
         case UpdateCall(ps, viewChanged) =>
           EmitsUpdate(hashes, before.cache, ps, viewChanged, commands) &&
             after.cache == Update(hashes, before.cache, ps, viewChanged)
         case ClearCall =>
           DeletesImages(commands, before.cache.images.Keys) && after.cache == NO_GRAPHICS
  }

  predicate CallSupplied(hashes: Hashes, c: Cache, call: Call) {
    call.UpdateCall? ==>
      && (forall i :: 0 <= i < |call.ps| ==> Honest(hashes, call.ps[i]))
      && Supplied(hashes, c.images, call.ps)
  }

  /** A run from nothing cached and nothing shown, in which no batch meets a foreign signature without data. */
  ghost predicate Run(hashes: Hashes, states: seq<Snapshot>, calls: seq<Call>) {
    && |states| == |calls| + 1
    && states[0] == Snapshot(NO_GRAPHICS, EMPTY)
    && forall i :: 0 <= i < |calls| ==>
         CallSupplied(hashes, states[i].cache, calls[i]) && Called(hashes, states[i], calls[i], states[i + 1])
  }

  /** Coherence and integrity at every point of every run. */
  lemma {:induction false} RunAgrees(hashes: Hashes, states: seq<Snapshot>, calls: seq<Call>, n: nat)
    requires Run(hashes, states, calls) && n < |states|
    ensures Coherent(hashes, states[n].cache, states[n].host) && Intact(states[n].cache)
    decreases n
  {
    if n > 0 {
      RunAgrees(hashes, states, calls, n - 1);
      CallAgrees(hashes, states[n - 1], calls[n - 1], states[n]);
    }
  }

  lemma CallAgrees(hashes: Hashes, before: Snapshot, call: Call, after: Snapshot)
    requires Coherent(hashes, before.cache, before.host) && Intact(before.cache)
    requires CallSupplied(hashes, before.cache, call) && Called(hashes, before, call, after)
    ensures Coherent(hashes, after.cache, after.host) && Intact(after.cache)
  {
    hide Update, EmitsUpdate, Execute, DeletesImages, Coherent, Intact;
    match call
    case UpdateCall(ps, viewChanged) =>
      var commands :| after.host == ExecuteAll(before.host, commands) &&
          EmitsUpdate(hashes, before.cache, ps, viewChanged, commands);
      UpdateAgrees(hashes, before.cache, before.host, ps, viewChanged, commands);
    case ClearCall =>
      var commands :| after.host == ExecuteAll(before.host, commands) &&
          DeletesImages(commands, before.cache.images.Keys);
      ClearEmptiesHost(hashes, before.cache, before.host, commands);
  }
}

/** Updating again says nothing. */
module KittyRepeat {
  import opened Clipping
  import opened KittyHost
  import opened KittyCache
  import opened KittyCoherence
  import opened KittyConvergence

  /** The same placement, with or without its data. */
  predicate SameBut(p: HostPlacement, q: HostPlacement) { p == q.(data := p.data) }

  predicate SameView(ps: seq<HostPlacement>, qs: seq<HostPlacement>) {
    |ps| == |qs| && forall i :: 0 <= i < |ps| ==> SameBut(ps[i], qs[i])
  }

  lemma SettledWalkOne(hashes: Hashes, w: Walk, p: HostPlacement)
    requires Visible(p) ==> Settled(hashes, w.cache, p)
    ensures WalkOne(hashes, w, p, false) ==
            Walked(if Visible(p) then w.(current := w.current + {KeyOf(hashes, p)}) else w, [])
  {
    hide Clip, ClippedOf, Visible;
    if Visible(p) {
      var met := w.(current := w.current + {KeyOf(hashes, p)});
      assert w.cache.sources[p.source := HostId(hashes, p)] == w.cache.sources;
      assert Release(met, p.source, HostId(hashes, p)) == Walked(met, []);
    }
  }

  lemma {:induction false} SettledWalk(hashes: Hashes, w: Walk, ps: seq<HostPlacement>)
    requires forall i :: 0 <= i < |ps| && Visible(ps[i]) ==> Settled(hashes, w.cache, ps[i])
    ensures var o := WalkAll(hashes, w, ps, false);
            && o.commands == [] && o.walk.cache == w.cache && w.current <= o.walk.current
            && forall i :: 0 <= i < |ps| && Visible(ps[i]) ==> KeyOf(hashes, ps[i]) in o.walk.current
    decreases |ps|
  {
    hide WalkOne, Settled, Visible, KeyOf;
    if ps != [] {
      SettledWalkOne(hashes, w, ps[0]);
      var v := WalkOne(hashes, w, ps[0], false).walk;
      assert forall i :: 0 <= i < |ps| - 1 ==> ps[1..][i] == ps[i + 1];
      SettledWalk(hashes, v, ps[1..]);
      forall i | 0 <= i < |ps| && Visible(ps[i])
        ensures KeyOf(hashes, ps[i]) in WalkAll(hashes, w, ps, false).walk.current
      {
        if i > 0 { assert ps[i] == ps[1..][i - 1]; }
      }
    }
  }

  lemma RestedPrune(hashes: Hashes, c: Cache, ps: seq<HostPlacement>)
    requires Rested(hashes, c, ps)
    ensures PrunedImages(c, ps) == {} && Prune(c, ps) == c
  {
    hide Clip, ClippedOf, Visible, CurrentSources, Settled, KeysAmong;
    assert Retained(c, ps) == c.sources;
    assert PrunedImages(c, ps) == {};
    assert Prune(c, ps).images == c.images && Prune(c, ps).placements == c.placements;
  }

  /** A rested cache emits nothing, and stays. */
  lemma RestedIsSilent(hashes: Hashes, c: Cache, ps: seq<HostPlacement>, commands: seq<Command>)
    requires Rested(hashes, c, ps) && EmitsUpdate(hashes, c, ps, false, commands)
    ensures commands == [] && Update(hashes, c, ps, false) == c
  {
    hide Clip, ClippedOf, Visible, CurrentSources, Settled, KeyOf, WalkAll, PrunedImages, Prune;
    RestedPrune(hashes, c, ps);
    var w := Walk(c, {});
    SettledWalk(hashes, w, ps);
    var m := Middle(hashes, c, ps, false);
    forall key | key in c.placements ensures key in m.walk.current {
      var i :| 0 <= i < |ps| && Visible(ps[i]) && KeyOf(hashes, ps[i]) == key;
    }
    assert Stale(m.walk) == {};
    var pre, post :| DeletesImages(pre, PrunedImages(c, ps)) && DeletesPlacements(post, Stale(m.walk))
                     && commands == pre + m.commands + post;
    assert c.placements - {} == c.placements;
  }

  lemma SameVisible(p: HostPlacement, q: HostPlacement)
    requires SameBut(p, q)
    ensures Visible(p) == Visible(q) && ClippedOf(p) == ClippedOf(q) && p.source == q.source &&
            SignatureOf(p) == SignatureOf(q)
  {
  }

  lemma SameRested(hashes: Hashes, c: Cache, ps: seq<HostPlacement>, qs: seq<HostPlacement>)
    requires Rested(hashes, c, ps) && SameView(ps, qs)
    ensures Rested(hashes, c, qs)
  {
    hide Clip, ClippedOf, Visible;
    forall i | 0 <= i < |ps| ensures Visible(ps[i]) == Visible(qs[i]) && ClippedOf(ps[i]) == ClippedOf(qs[i]) {
      SameVisible(ps[i], qs[i]);
    }
    forall key | key in c.placements
      ensures exists i :: 0 <= i < |qs| && Visible(qs[i]) && KeyOf(hashes, qs[i]) == key
    {
      var i :| 0 <= i < |ps| && Visible(ps[i]) && KeyOf(hashes, ps[i]) == key;
      assert KeyOf(hashes, qs[i]) == key;
    }
    forall s | s in CurrentSources(ps) ensures s in CurrentSources(qs) {
      var i :| 0 <= i < |ps| && (ps[i].source.Terminal? || Visible(ps[i])) && ps[i].source == s;
      assert qs[i].source == s;
    }
  }

  /** Idempotence: after an update that shows the whole batch, the same placements again, in an unchanged
      view, with or without their data, emit nothing. */
  lemma RepeatIsSilent(hashes: Hashes, c: Cache, h: Host, ps: seq<HostPlacement>, viewChanged: bool,
                       first: seq<Command>, qs: seq<HostPlacement>, second: seq<Command>)
    requires Coherent(hashes, c, h) && Intact(c) && Consistent(hashes, c, ps)
    requires forall i: nat :: i < |ps| && Visible(ps[i]) ==> Obtainable(hashes, Prune(c, ps), ps, i)
    requires EmitsUpdate(hashes, c, ps, viewChanged, first) && SameView(ps, qs)
    requires EmitsUpdate(hashes, Update(hashes, c, ps, viewChanged), qs, false, second)
    ensures second == [] && Update(hashes, Update(hashes, c, ps, viewChanged), qs, false) ==
            Update(hashes, c, ps, viewChanged)
  {
    hide Update, EmitsUpdate, Coherent, Intact, Consistent, SameView, Rested, Execute, Available, Obtainable, Prune,
         Visible, OnHost, KeyOf, KeysAmong;
    AllAvailable(hashes, Prune(c, ps), ps, |ps|);
    UpdateShows(hashes, c, h, ps, viewChanged, first);
    SameRested(hashes, Update(hashes, c, ps, viewChanged), ps, qs);
    RestedIsSilent(hashes, Update(hashes, c, ps, viewChanged), qs, second);
  }
}

/** `HostGraphicsCache` of `src/kitty_graphics.rs`, whose tables every update and clear changes in place.
    Hash tables are walked in no fixed order, as in the source. */
module KittyGraphics {
  import opened Bytes
  import opened Clipping
  import opened KittyHost
  import opened KittyCache

  datatype ViewKey = ViewKey(workspace: nat, tab: nat)

  ghost function Outside<V>(placements: map<(nat, nat), V>, ids: set<nat>): map<(nat, nat), V> {
    map key | key in placements && key.0 !in ids :: placements[key]
  }

  lemma OneMoreOutside<V>(images: map<nat, ImageSignature>, placements: map<(nat, nat), V>, gone: set<nat>, id: nat)
    ensures images - gone - {id} == images - (gone + {id})
    ensures WithoutImage(Outside(placements, gone), id) == Outside(placements, gone + {id})
    ensures images - {} == images && Outside(placements, {}) == placements
  {
  }

  lemma OneLessToDo(all: set<nat>, todo: set<nat>, id: nat)
    requires id in todo
    ensures all - (todo - {id}) == if id in all then (all - todo) + {id} else all - todo
  {
  }

  lemma DeletesNothing()
    ensures DeletesImages([], {}) && DeletesPlacements([], {})
  {
  }

  lemma DeletesOneMore(commands: seq<Command>, ids: set<nat>, id: nat)
    requires DeletesImages(commands, ids) && id !in ids
    ensures DeletesImages(commands + [DeleteImage(id)], ids + {id})
  {
    var more := commands + [DeleteImage(id)];
    forall i | i in ids + {id} ensures DeleteImage(i) in more {
      if i == id { assert more[|commands|] == DeleteImage(id); }
    }
  }

  lemma DeletesOneMorePlacement(commands: seq<Command>, keys: set<(nat, nat)>, key: (nat, nat))
    requires DeletesPlacements(commands, keys) && key !in keys
    ensures DeletesPlacements(commands + [DeletePlacement(key.0, key.1)], keys + {key})
  {
    var more := commands + [DeletePlacement(key.0, key.1)];
    forall k | k in keys + {key} ensures DeletePlacement(k.0, k.1) in more {
      if k == key { assert more[|commands|] == DeletePlacement(key.0, key.1); }
    }
  }

  /** The tables and the commands when exactly the images `gone` have been deleted. */
  ghost predicate Deleted<V>(images0: map<nat, ImageSignature>, placements0: map<(nat, nat), V>, gone: set<nat>,
                             images: map<nat, ImageSignature>, placements: map<(nat, nat), V>, commands: seq<Command>) {
    images == images0 - gone && placements == Outside(placements0, gone) && DeletesImages(commands, gone)
  }

  lemma DeletedNone<V>(images: map<nat, ImageSignature>, placements: map<(nat, nat), V>)
    ensures Deleted(images, placements, {}, images, placements, [])
  {
    DeletesNothing();
    OneMoreOutside(images, placements, {}, 0);
  }

  lemma DeletedOneMore<V>(images0: map<nat, ImageSignature>, placements0: map<(nat, nat), V>, gone: set<nat>,
                          images: map<nat, ImageSignature>, placements: map<(nat, nat), V>, commands: seq<Command>,
                          id: nat)
    requires Deleted(images0, placements0, gone, images, placements, commands) && id !in gone
    ensures Deleted(images0, placements0, gone + {id}, images - {id}, WithoutImage(placements, id),
                    commands + [DeleteImage(id)])
  {
    hide DeletesImages, Outside, WithoutImage;
    DeletesOneMore(commands, gone, id);
    OneMoreOutside(images0, placements0, gone, id);
  }

  lemma AllDeleted<V>(images0: map<nat, ImageSignature>, placements0: map<(nat, nat), V>, gone: set<nat>,
                      images: map<nat, ImageSignature>, placements: map<(nat, nat), V>, commands: seq<Command>)
    requires Deleted(images0, placements0, gone, images, placements, commands)
    ensures images == images0 - gone && placements == Outside(placements0, gone) && DeletesImages(commands, gone)
  {
    hide DeletesImages, Outside;
  }

  lemma OneMoreDropped<V>(placements: map<(nat, nat), V>, stale: set<(nat, nat)>, todo: set<(nat, nat)>,
                          key: (nat, nat))
    requires key in todo && todo <= stale
    ensures stale - (todo - {key}) == (stale - todo) + {key}
    ensures placements - (stale - (todo - {key})) == placements - (stale - todo) - {key}
  {
  }

  /** What is left to walk, with the commands so far in front. */
  ghost function After(walked: seq<Command>, rest: Walked): Walked {
    rest.(commands := walked + rest.commands)
  }

  lemma NothingWalked(rest: Walked)
    ensures After([], rest) == rest
  {
    assert [] + rest.commands == rest.commands;
  }

  lemma OneMoreWalked(hashes: Hashes, w: Walk, ps: seq<HostPlacement>, i: nat, viewChanged: bool, walked: seq<Command>)
    requires i < |ps|
    ensures var o := WalkOne(hashes, w, ps[i], viewChanged);
            After(walked, WalkAll(hashes, w, ps[i..], viewChanged)) ==
            After(walked + o.commands, WalkAll(hashes, o.walk, ps[i + 1..], viewChanged))
  {
    hide WalkOne;
    assert ps[i..][0] == ps[i] && ps[i..][1..] == ps[i + 1..];
  }

  lemma AllWalked(hashes: Hashes, w: Walk, ps: seq<HostPlacement>, viewChanged: bool, walked: seq<Command>)
    ensures After(walked, WalkAll(hashes, w, ps[|ps|..], viewChanged)) == Walked(w, walked)
  {
  }

  class HostGraphicsCache {
    const hashes: Hashes
    var images: map<nat, ImageSignature>
    var placements: map<(nat, nat), PlacementSignature>
    var sources: map<SourceKey, nat>
    var view: Option<ViewKey>

    function Contents(): Cache
      reads this
    {
      Cache(images, placements, sources)
    }

    constructor (hashes: Hashes)
      ensures this.hashes == hashes && Contents() == NO_GRAPHICS && view == None
    {
      this.hashes := hashes;
      images, placements, sources, view := map[], map[], map[], None;
    }

    method UpdateView(key: Option<ViewKey>) returns (changed: bool)
      modifies this`view
      ensures view == key && changed == (old(view) != key)
    {
      if view == key {
        return false;
      }
      view := key;
      return true;
    }

    /** Delete, of the given images, those that no source uses any more. */
    method DeleteUnreferenced(removed: set<nat>) returns (commands: seq<Command>)
      modifies this`images, this`placements
      ensures var gone := removed - sources.Values;
              && images == old(images) - gone
              && placements == Outside(old(placements), gone)
              && DeletesImages(commands, gone)
    {
      hide Deleted, DeletesImages, Outside, WithoutImage;
      var used := sources.Values;
      commands := [];
      ghost var gone: set<nat> := {};
      DeletedNone(images, placements);
      var todo := removed;
      while todo != {}
        invariant todo <= removed && gone == removed - used - todo
        invariant Deleted(old(images), old(placements), gone, images, placements, commands)
        decreases todo
      {
        var id :| id in todo;
        OneLessToDo(removed - used, todo, id);
        todo := todo - {id};
        if id !in used {
          DeletedOneMore(old(images), old(placements), gone, images, placements, commands, id);
          gone := gone + {id};
          commands := commands + [DeleteImage(id)];
          images := images - {id};
          placements := WithoutImage(placements, id);
        }
      }
      AllDeleted(old(images), old(placements), gone, images, placements, commands);
      assert gone == removed - used;
    }

    /** Forget sources that are gone and delete images that only gone pane layers used. */
    method PruneSources(ps: seq<HostPlacement>) returns (commands: seq<Command>)
      modifies this`images, this`placements, this`sources
      ensures Contents() == Prune(old(Contents()), ps)
      ensures DeletesImages(commands, PrunedImages(old(Contents()), ps))
    {
      hide CurrentSources, DeletesImages, Visible;
      var current := CurrentSources(ps);
      var removed := set s | s in sources && s !in current && s.PaneLayer? :: sources[s];
      sources := map s | s in sources && s in current :: sources[s];
      commands := DeleteUnreferenced(removed);
      assert removed - sources.Values == PrunedImages(old(Contents()), ps);
    }

    method ReleaseSupersededSourceImage(source: SourceKey, id: nat, current: set<(nat, nat)>)
      returns (left: set<(nat, nat)>, commands: seq<Command>)
      modifies this`images, this`placements, this`sources
      ensures Walked(Walk(Contents(), left), commands) == Release(Walk(old(Contents()), current), source, id)
    {
      left, commands := current, [];
      var known := source in sources;
      var previous := if known then sources[source] else id;
      sources := sources[source := id];
      if !known || previous == id || previous in sources.Values {
        return;
      }
      commands := [DeleteImage(previous)];
      images := images - {previous};
      left := current - KeysOfImage(Contents(), previous);
      placements := WithoutImage(placements, previous);
    }

    /** The body of the loop over placements. */
    method EncodePlacement(p: HostPlacement, viewChanged: bool, before: set<(nat, nat)>)
      returns (current: set<(nat, nat)>, commands: seq<Command>)
      modifies this`images, this`placements, this`sources
      ensures Walked(Walk(Contents(), current), commands) ==
              WalkOne(hashes, Walk(old(Contents()), before), p, viewChanged)
    {
      hide Clip, Release;
      current, commands := before, [];
      if !Visible(p) {
        return;
      }
      var id, key, signature := HostId(hashes, p), KeyOf(hashes, p), SignatureOf(p);
      current := current + {key};
      if !(id in images && images[id] == signature) {
        if id in images {
          commands := [DeleteImage(id)];
          current := current - KeysOfImage(Contents(), id);
          placements := WithoutImage(placements, id);
        }
        if p.data == [] {
          return;
        }
        commands := commands + [UploadOf(hashes, p)];
        images := images[id := signature];
      }
      var released;
      current, released := ReleaseSupersededSourceImage(p.source, id, current);
      commands := commands + released;
      if key in placements && !viewChanged && placements[key] == PlacementOf(p) {
        assert commands + [] == commands;
        return;
      }
      commands := commands + [DisplayOf(hashes, p)];
      placements := placements[key := PlacementOf(p)];
    }

    /** Delete the placements that no placement of the batch met. */
    method DeleteStale(current: set<(nat, nat)>) returns (commands: seq<Command>)
      modifies this`placements
      ensures var stale := Stale(Walk(old(Contents()), current));
              placements == old(placements) - stale && DeletesPlacements(commands, stale)
    {
      hide DeletesPlacements;
      DeletesNothing();
      var stale := set key | key in placements && key !in current;
      commands := [];
      assert stale - stale == {};
      var todo := stale;
      while todo != {}
        invariant todo <= stale
        invariant DeletesPlacements(commands, stale - todo)
        invariant placements == old(placements) - (stale - todo)
        decreases todo
      {
        var key :| key in todo;
        DeletesOneMorePlacement(commands, stale - todo, key);
        OneMoreDropped(old(placements), stale, todo, key);
        commands := commands + [DeletePlacement(key.0, key.1)];
        placements := placements - {key};
        todo := todo - {key};
      }
      assert stale - {} == stale;
    }

    method EncodeGraphicsUpdate(ps: seq<HostPlacement>, viewChanged: bool) returns (commands: seq<Command>)
      modifies this`images, this`placements, this`sources
      ensures Contents() == Update(hashes, old(Contents()), ps, viewChanged)
      ensures EmitsUpdate(hashes, old(Contents()), ps, viewChanged, commands)
    {
      hide WalkOne, WalkAll, Prune, PrunedImages, Stale, DeletesImages, DeletesPlacements, Visible;
      ghost var before := Contents();
      var pre := PruneSources(ps);
      var current: set<(nat, nat)> := {};
      var walked: seq<Command> := [];
      assert ps[0..] == ps;
      NothingWalked(Middle(hashes, before, ps, viewChanged));
      for i := 0 to |ps|
        invariant Middle(hashes, before, ps, viewChanged) ==
                  After(walked, WalkAll(hashes, Walk(Contents(), current), ps[i..], viewChanged))
      {
        ghost var w := Walk(Contents(), current);
        var emitted;
        current, emitted := EncodePlacement(ps[i], viewChanged, current);
        OneMoreWalked(hashes, w, ps, i, viewChanged, walked);
        walked := walked + emitted;
      }
      AllWalked(hashes, Walk(Contents(), current), ps, viewChanged, walked);
      var post := DeleteStale(current);
      commands := pre + walked + post;
    }

    method ClearPaneBytes() returns (commands: seq<Command>)
      modifies this
      ensures Contents() == NO_GRAPHICS && view == None
      ensures DeletesImages(commands, old(images.Keys))
    {
      hide DeletesImages;
      DeletesNothing();
      commands := [];
      var todo := images.Keys;
      assert images.Keys - todo == {};
      while todo != {}
        invariant todo <= images.Keys && unchanged(this)
        invariant DeletesImages(commands, images.Keys - todo)
        decreases todo
      {
        var id :| id in todo;
        DeletesOneMore(commands, images.Keys - todo, id);
        assert images.Keys - (todo - {id}) == (images.Keys - todo) + {id};
        commands := commands + [DeleteImage(id)];
        todo := todo - {id};
      }
      assert images.Keys - {} == images.Keys;
      images, placements, sources, view := map[], map[], map[], None;
    }
  }
}

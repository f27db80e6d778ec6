/** One graphics update as a function of the cache: what `encode_graphics_update` of `src/kitty_graphics.rs`
    leaves in it and the commands it emits. Host ids come from an unseen hash and are parameters. */
module KittyCache {
  import opened Bytes
  import opened Clipping
  import opened KittyHost

  datatype Format = Rgb | Rgba | Png

  datatype SourceKey = Terminal(pane: nat, image: nat) | PaneLayer(pane: nat)

  datatype ImageSignature = ImageSignature(width: nat, height: nat, format: nat, dataLen: nat, fingerprint: nat)

  datatype PlacementSignature = PlacementSignature(geometry: Clipped, z: int, scrollbackOffset: u32)

  datatype HostPlacement = HostPlacement(
    pane: nat, area: Rect, cell: CellSize, source: SourceKey, scrollbackOffset: u32,
    imageId: nat, placementId: nat, z: int, xOffset: u32, yOffset: u32,
    imageWidth: u32, imageHeight: u32, format: Format, dataLen: nat, fingerprint: nat,
    data: seq<byte>, render: Render)

  /** The hashes of the source: host image id of a pane's image, host placement id, and fingerprint of data. */
  datatype Hashes = Hashes(
    image: (nat, ImageSignature) -> nat,
    placement: (SourceKey, nat, nat) -> nat,
    fingerprint: seq<byte> -> nat)

  datatype Cache = Cache(
    images: map<nat, ImageSignature>,
    placements: map<(nat, nat), PlacementSignature>,
    sources: map<SourceKey, nat>)

  const NO_GRAPHICS := Cache(map[], map[], map[])

  function FormatCode(format: Format): nat {
    match format case Rgb => 24 case Rgba => 32 case Png => 100
  }

  /** `clipped_placement` */
  function ClippedOf(p: HostPlacement): Option<Clipped> {
    Clip(p.area, p.cell, p.render, p.imageWidth, p.imageHeight, p.xOffset, p.yOffset)
  }

  predicate Visible(p: HostPlacement) { ClippedOf(p).Some? }

  function SignatureOf(p: HostPlacement): ImageSignature {
    ImageSignature(p.imageWidth, p.imageHeight, FormatCode(p.format), p.dataLen, p.fingerprint)
  }

  function HostId(hashes: Hashes, p: HostPlacement): nat { hashes.image(p.pane, SignatureOf(p)) }

  function KeyOf(hashes: Hashes, p: HostPlacement): (nat, nat) {
    (HostId(hashes, p), hashes.placement(p.source, p.imageId, p.placementId))
  }

  function PlacementOf(p: HostPlacement): PlacementSignature
    requires Visible(p)
  {
    PlacementSignature(ClippedOf(p).value, p.z, p.scrollbackOffset)
  }

  // --- Commands ---

  /** A key is written only when positive. */
  function Key(value: nat): Option<nat> { if value > 0 then Some(value) else None }

  function DisplayOf(hashes: Hashes, p: HostPlacement): Command
    requires Visible(p)
  {
    var c, key := ClippedOf(p).value, KeyOf(hashes, p);
    DisplayPlacement(c.y + 1, c.x + 1, key.0, key.1, c.cols, c.rows, p.z, Key(c.sourceX), Key(c.sourceY),
                     Key(c.sourceWidth), Key(c.sourceHeight), Key(c.xOffset), Key(c.yOffset))
  }

  function UploadOf(hashes: Hashes, p: HostPlacement): Command {
    UploadImage(HostId(hashes, p), p.imageWidth, p.imageHeight, FormatCode(p.format), p.data)
  }

  // --- Sources that went away ---

  function CurrentSources(ps: seq<HostPlacement>): set<SourceKey> {
    set i | 0 <= i < |ps| && (ps[i].source.Terminal? || Visible(ps[i])) :: ps[i].source
  }

  function Retained(c: Cache, ps: seq<HostPlacement>): map<SourceKey, nat> {
    map s | s in c.sources && s in CurrentSources(ps) :: c.sources[s]
  }

  /** Images of pane layers that went away and that no retained source uses. */
  function PrunedImages(c: Cache, ps: seq<HostPlacement>): set<nat> {
    set s | s in c.sources && s !in CurrentSources(ps) && s.PaneLayer? &&
      c.sources[s] !in Retained(c, ps).Values :: c.sources[s]
  }

  function Prune(c: Cache, ps: seq<HostPlacement>): Cache {
    var gone := PrunedImages(c, ps);
    Cache(c.images - gone, map key | key in c.placements && key.0 !in gone :: c.placements[key], Retained(c, ps))
  }

  // --- One placement ---

  /** The cache while placements are walked, with the keys met so far. */
  datatype Walk = Walk(cache: Cache, current: set<(nat, nat)>)

  datatype Walked = Walked(walk: Walk, commands: seq<Command>)

  function KeysOfImage(c: Cache, id: nat): set<(nat, nat)> {
    set key | key in c.placements && key.0 == id
  }

  /** Drop the cached placements of an image, and forget having met their keys. */
  function ForgetPlacements(w: Walk, id: nat): Walk {
    Walk(w.cache.(placements := WithoutImage(w.cache.placements, id)), w.current - KeysOfImage(w.cache, id))
  }

  /** Make the image available on the host: nothing to do, a first upload, or a replacement. `stop` says
      that there was no data to upload, which ends the placement. */
  datatype Ensured = Ensured(walk: Walk, commands: seq<Command>, stop: bool)

  function EnsureImage(hashes: Hashes, w: Walk, p: HostPlacement): Ensured {
    var id, signature := HostId(hashes, p), SignatureOf(p);
    if id in w.cache.images && w.cache.images[id] == signature then Ensured(w, [], false)
    else
      var replaced := id in w.cache.images;
      var deletes := if replaced then [DeleteImage(id)] else [];
      var v := if replaced then ForgetPlacements(w, id) else w;
      if p.data == [] then Ensured(v, deletes, true)
      else Ensured(v.(cache := v.cache.(images := v.cache.images[id := signature])),
                   deletes + [UploadOf(hashes, p)], false)
  }

  /** `release_superseded_source_image` */
  function Release(w: Walk, source: SourceKey, id: nat): Walked {
    var sources := w.cache.sources[source := id];
    var v := w.(cache := w.cache.(sources := sources));
    if source !in w.cache.sources then Walked(v, [])
    else
      var previous := w.cache.sources[source];
      if previous == id || previous in sources.Values then Walked(v, [])
      else
        var u := ForgetPlacements(v, previous);
        Walked(u.(cache := u.cache.(images := u.cache.images - {previous})), [DeleteImage(previous)])
  }

  function ShowPlacement(hashes: Hashes, w: Walk, p: HostPlacement, viewChanged: bool): Walked
    requires Visible(p)
  {
    var key := KeyOf(hashes, p);
    if key in w.cache.placements && !viewChanged && w.cache.placements[key] == PlacementOf(p) then Walked(w, [])
    else Walked(w.(cache := w.cache.(placements := w.cache.placements[key := PlacementOf(p)])), [DisplayOf(hashes, p)])
  }

  /** One turn of the loop over placements. */
  function WalkOne(hashes: Hashes, w: Walk, p: HostPlacement, viewChanged: bool): Walked {
    if !Visible(p) then Walked(w, [])
    else
      var met := w.(current := w.current + {KeyOf(hashes, p)});
      var image := EnsureImage(hashes, met, p);
      if image.stop then Walked(image.walk, image.commands)
      else
        var released := Release(image.walk, p.source, HostId(hashes, p));
        var shown := ShowPlacement(hashes, released.walk, p, viewChanged);
        Walked(shown.walk, image.commands + released.commands + shown.commands)
  }

  function WalkAll(hashes: Hashes, w: Walk, ps: seq<HostPlacement>, viewChanged: bool): Walked
    decreases |ps|
  {
    if ps == [] then Walked(w, [])
    else
      var first := WalkOne(hashes, w, ps[0], viewChanged);
      var rest := WalkAll(hashes, first.walk, ps[1..], viewChanged);
      Walked(rest.walk, first.commands + rest.commands)
  }

  // --- The whole update ---

  function Middle(hashes: Hashes, c: Cache, ps: seq<HostPlacement>, viewChanged: bool): Walked {
    WalkAll(hashes, Walk(Prune(c, ps), {}), ps, viewChanged)
  }

  function Stale(w: Walk): set<(nat, nat)> {
    set key | key in w.cache.placements && key !in w.current
  }

  function Update(hashes: Hashes, c: Cache, ps: seq<HostPlacement>, viewChanged: bool): Cache {
    var w := Middle(hashes, c, ps, viewChanged).walk;
    w.cache.(placements := w.cache.placements - Stale(w))
  }

  /** The commands name exactly these images, each once, in some order: hash tables fix none. */
  ghost predicate DeletesImages(commands: seq<Command>, ids: set<nat>) {
    && |commands| == |ids|
    && (forall i :: 0 <= i < |commands| ==> commands[i].DeleteImage?)
    && (forall id :: id in ids <==> DeleteImage(id) in commands)
  }

  ghost predicate DeletesPlacements(commands: seq<Command>, keys: set<(nat, nat)>) {
    && |commands| == |keys|
    && (forall i :: 0 <= i < |commands| ==> commands[i].DeletePlacement?)
    && (forall key :: key in keys <==> DeletePlacement(key.0, key.1) in commands)
  }

  /** The commands of an update: deletes of pruned images, the walk, deletes of stale placements. */
  ghost predicate EmitsUpdate(hashes: Hashes, c: Cache, ps: seq<HostPlacement>, viewChanged: bool,
                              commands: seq<Command>) {
    exists pre, post ::
      && DeletesImages(pre, PrunedImages(c, ps))
      && DeletesPlacements(post, Stale(Middle(hashes, c, ps, viewChanged).walk))
      && commands == pre + Middle(hashes, c, ps, viewChanged).commands + post
  }
}

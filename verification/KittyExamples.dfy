/** Concrete batches: one that an update shows as it should, and three on which it falls short. */
module KittyExamples {
  import opened Bytes
  import opened Clipping
  import opened KittyHost
  import opened KittyCache
  import opened KittyCoherence
  import opened KittyConvergence
  import opened KittyShortfalls

  const ONE_CELL := Clipping.Rect(0, 0, 1, 1)

  /** A one-pixel picture in a one-cell pane; its fingerprint tells pictures apart. */
  function Picture(source: SourceKey, fingerprint: nat, data: seq<byte>): HostPlacement {
    HostPlacement(1, ONE_CELL, CellSize(1, 1), source, 0, 1, 1, 0, 0, 0, 1, 1, Rgb, 1, fingerprint, data,
                  Render(1, 1, 1, 1, 0, 0, 0, 0, 1, 1))
  }

  /** Host ids that follow the fingerprint, and host ids that always clash. */
  const BY_CONTENT := Hashes((pane, signature: ImageSignature) => signature.fingerprint,
                             (source, image, placement) => placement,
                             data => if data == [] then 0 else data[0] as nat)
  const CLASHING := BY_CONTENT.(image := (pane, signature) => 7)

  const FIRST := Terminal(1, 1)
  const SECOND := Terminal(1, 2)

  lemma PictureIsVisible(source: SourceKey, fingerprint: nat, data: seq<byte>)
    ensures Visible(Picture(source, fingerprint, data))
  {
    var p := Picture(source, fingerprint, data);
    var h := Horizontal(p.area, p.cell, p.render, 1);
    assert h == Vertical(p.area, p.cell, p.render, 1);
    assert h.Requested() == 1 && h.Extent() == 1 && h.VisibleCells() == 1;
    assert SaturatingMul(1, 1) == 1 && ScalePixels(1, 1, 1) == 1;
    assert SaturatingMul(0, 1) == 0 && ScalePixels(0, 1, 1) == 0;
    assert h.SourceStart() == 0 && h.SourceLen() == 1;
  }

  /** From nothing, one picture with its data ends up on screen. */
  lemma ShownFromNothing(viewChanged: bool, commands: seq<Command>)
    requires EmitsUpdate(BY_CONTENT, NO_GRAPHICS, [Picture(FIRST, 1, [1])], viewChanged, commands)
    ensures Visible(Picture(FIRST, 1, [1]))
    ensures OnHost(BY_CONTENT, ExecuteAll(EMPTY, commands), Picture(FIRST, 1, [1]))
  {
    hide Visible, EmitsUpdate, OnHost;
    PictureIsVisible(FIRST, 1, [1]);
    OneIsShownIff(BY_CONTENT, NO_GRAPHICS, EMPTY, Picture(FIRST, 1, [1]), viewChanged, commands);
  }

  /** The cache after a picture was shown. */
  function Holding(hashes: Hashes, p: HostPlacement): Cache
    requires Visible(p)
  {
    Cache(map[HostId(hashes, p) := SignatureOf(p)], map[KeyOf(hashes, p) := PlacementOf(p)],
          map[p.source := HostId(hashes, p)])
  }

  /** The host after a picture was shown. */
  function Showing(hashes: Hashes, p: HostPlacement): Host
    requires Visible(p)
  {
    Host(map[HostId(hashes, p) := Image(p.imageWidth, p.imageHeight, FormatCode(p.format), p.data)],
         map[KeyOf(hashes, p) := View(ClippedOf(p).value, p.z)])
  }

  /** A new picture of the same source whose id clashes with the old one and which comes with its data: it is
      uploaded and drawn, and its placement deleted. */
  lemma ClashingPictureIsDropped(viewChanged: bool)
    ensures Visible(Picture(FIRST, 1, [1])) && Visible(Picture(FIRST, 2, [2]))
    ensures var c, p := Holding(CLASHING, Picture(FIRST, 1, [1])), Picture(FIRST, 2, [2]);
            && Middle(CLASHING, c, [p], viewChanged).commands ==
               [DeleteImage(7), UploadOf(CLASHING, p), DisplayOf(CLASHING, p)]
            && KeyOf(CLASHING, p) !in Update(CLASHING, c, [p], viewChanged).placements
  {
    hide Visible, Update, Middle;
    PictureIsVisible(FIRST, 1, [1]);
    PictureIsVisible(FIRST, 2, [2]);
    ReplacedImageIsNotShown(CLASHING, Holding(CLASHING, Picture(FIRST, 1, [1])), Picture(FIRST, 2, [2]), viewChanged);
  }

  /** The same picture without its data: the cache goes on listing an image that the host has lost. */
  lemma ClashingPictureLeavesStaleEntry(viewChanged: bool, commands: seq<Command>)
    requires Visible(Picture(FIRST, 1, [1]))
    requires EmitsUpdate(CLASHING, Holding(CLASHING, Picture(FIRST, 1, [1])), [Picture(FIRST, 2, [])],
                         viewChanged, commands)
    ensures var c, h := Holding(CLASHING, Picture(FIRST, 1, [1])), Showing(CLASHING, Picture(FIRST, 1, [1]));
            && Coherent(CLASHING, c, h) && Intact(c)
            && 7 in Update(CLASHING, c, [Picture(FIRST, 2, [])], viewChanged).images
            && 7 !in ExecuteAll(h, commands).images
  {
    hide Visible, ClippedOf, Update, EmitsUpdate;
    var c, p := Holding(CLASHING, Picture(FIRST, 1, [1])), Picture(FIRST, 2, []);
    PictureIsVisible(FIRST, 2, []);
    assert [p][0] == p && p.source in CurrentSources([p]);
    assert Retained(c, [p]) == c.sources;
    assert PrunedImages(c, [p]) == {};
    StaleEntryRemains(CLASHING, c, Showing(CLASHING, Picture(FIRST, 1, [1])), p, viewChanged, commands);
  }

  /** The first source moves on to another picture, and the second one takes over the old one, which the host
      still has, without sending it again: it is deleted and not shown. */
  lemma HandedOverPicture(viewChanged: bool)
    ensures Visible(Picture(FIRST, 1, [1]))
    ensures var p, q := Picture(FIRST, 1, [1]), Picture(SECOND, 2, []);
            var c := Cache(map[2 := SignatureOf(q)], map[], map[FIRST := 2]);
            && Intact(c) && Consistent(BY_CONTENT, c, [p, q])
            && Middle(BY_CONTENT, c, [p, q], viewChanged).commands ==
               [UploadOf(BY_CONTENT, p), DeleteImage(2), DisplayOf(BY_CONTENT, p)]
            && KeyOf(BY_CONTENT, q) !in Update(BY_CONTENT, c, [p, q], viewChanged).placements
  {
    hide Visible, Update, Middle;
    var p, q := Picture(FIRST, 1, [1]), Picture(SECOND, 2, []);
    PictureIsVisible(FIRST, 1, [1]);
    PictureIsVisible(SECOND, 2, []);
    HandedOverImageIsLost(BY_CONTENT, Cache(map[2 := SignatureOf(q)], map[], map[FIRST := 2]), p, q, viewChanged);
  }
}

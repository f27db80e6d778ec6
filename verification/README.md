# Model of the terminal multiplexer's state machines

Four parts of the program, each as a model with proofs:

- **Input framer** (`src/raw_input.rs`). Bytes from the outer terminal arrive cut anywhere and are separated by idle
  timeouts; the framer turns them into complete input chunks. `Framer` is the object with its fields and in-place
  updates, `FramerSpec` the same calls as functions of the state, `InputEvents` the recogniser of one event, `Utf8`
  the text encoding (section 4 of RFC 3629). The other `Framer*` modules prove what holds over runs of reads and
  idle flushes; `InputGrammar`, `InputKeys` and `InputColors` say on literal bytes what the recogniser accepts (control
  sequences and strings as in sections 5.4 and 5.6 of ECMA-48).
- **Host graphics** (`src/kitty_graphics.rs`). A cache of images, placements and sources is compared with the wanted
  placements and commands go to the host terminal. `KittyGraphics` is the object, `KittyCache` one update as a function,
  `KittyHost` the host terminal as the Kitty graphics protocol describes it ("Deleting images"). `KittyCoherence` and
  `KittyConvergence` relate the two, `KittyRedisplay` says what is drawn, `KittyImages` which images stay, `KittyRepeat` adds idempotence, and `KittyShortfalls` and `KittyExamples` say where an
  update falls short; `Clipping` is the placement arithmetic; `KittyUpload` and `Base64` the upload.
- **Tiling layout** (`src/layout.rs`). `TileLayouts` is the object, `LayoutTree` the tree with its geometry;
  `LayoutTiling`, `LayoutEditing`, `LayoutNavigation`, `LayoutResize`, `LayoutGrowth`, `LayoutPlaces` and `LayoutHeading` hold the
  proofs. `PaneGraphics` joins layout and
  graphics: pictures stay in their panes.
- **Probe scheduling** (`src/pane.rs`). `AgentProbing`: when a pane looks for an agent process.

Methods of the classes are proved equal to the functions; the lemmas are about the functions, so they hold of the
methods. What the key decoder accepts, the hashes behind host ids and newly allocated pane ids are parameters, and
every statement holds for all values of them.

Where the code does not do what its own comments or tests promise in general, the exact condition is proved:

- Frames depend on how reads were cut in two modes (`FramerSplit.SplitInvariance`, with two concrete inputs).
- The rest of a colour reply that was timed out before its command was complete leaks into the pane when a later idle
  flush finds more than 128 bytes counted, or any byte outside the short list of plausible ones, which leaves out the hex
  digits a, c, d, e and f (`FramerOsc.TimedOutColorReplyIff`, `FramerOsc.HexReplyLeaks`).
- The rest of a mouse report whose ESC was flushed leaks when the parser does not know the report, such as one of the side
  buttons 8 to 11 (`FramerMouse.OrphanedReportIsDroppedIff`, `FramerMouse.SideButtonLeaks`).
- A key other than a lone ESC that only an idle flush completes, such as Alt and `[`, is framed but lost when chunks are
  turned into events (`InputGrammar.FlushedChunkReadsBack`).
- A cached image whose signature changed, with no data at hand, is deleted on the host but stays in the cache
  (`KittyCoherence.WalkOneAgrees`).
- An image replaced under a used host id is drawn and deleted again in the same update
  (`KittyShortfalls.OneIsShownIff`).
- An image that one source gives up and another takes over within a batch is deleted before its turn, and as data is only
  sent for images that are not cached, the placement is not shown (`KittyConvergence.ConvergesIff`,
  `KittyExamples.HandedOverPicture`).
- A positive resize makes the focused pane shorter when there is only a divider on the opposite side, although a positive
  delta is to grow it (`LayoutGrowth.ResizeDirection`, `LayoutGrowth.RightmostPaneShrinks`).
- A placement at the least `i32` offset can show one cell too many (`Clipping.CellsShown`).

`dafny verify dfyconfig.toml` checks the whole project.

## Model

| member | source | states |
|---|---|---|
| InputEvents.ExtractExtends | src/raw_input.rs:626-674 | prefix stability: an event recognised at the front of a buffer, and its length, are the same whatever bytes follow |
| InputEvents.EscapeLenExtends | src/raw_input.rs:764-809 | the length of a complete escape sequence is not changed by later bytes, stacked escapes and escaped mouse reports included |
| InputEvents.Terminator | src/raw_input.rs:892-927 | the terminator found is the first one of its family: BEL or ST for OSC, ST for the other strings, and none is found only when there is none |
| InputEvents.TerminatorExtends | src/raw_input.rs:892-927 | a found terminator stays put, and one that appears later ends beyond the bytes held before |
| Utf8.EncodeThenDecode | src/raw_input.rs:732-762 | every scalar value, encoded, is read back as itself and with its own length whatever follows |
| Utf8.DecodeThenEncode | src/raw_input.rs:732-762 | what is read as one scalar is the encoding of that scalar and of nothing else |
| Utf8.ValidIffEncoded | src/raw_input.rs:732-741 | a byte string is accepted as text if and only if it is a concatenation of encoded scalar values |
| Utf8.IncompleteIffStrictPrefix | src/raw_input.rs:743-762 | a partial character that waits for more is exactly a non-empty strict prefix of an encoded scalar |
| InputGrammar.ControlSequenceLen | src/raw_input.rs:764-809 | a control sequence ends at its first final byte |
| InputGrammar.ControlStringLen | src/raw_input.rs:719-730 | a control string ends at its first terminator |
| InputGrammar.MouseReportReadsBack | src/raw_input.rs:944-973 | a mouse report of any known button at any 16-bit cell, pressed or released, is parsed as that button at that cell, and no other report is parsed |
| InputGrammar.MouseReportWithMore | src/raw_input.rs:944-973 | the same with any fields behind the row, which are not read |
| InputGrammar.MouseReportFramed | src/raw_input.rs:626-674 | with any bytes behind it, that report is framed whole and as that mouse event |
| InputGrammar.ReportsFramed | src/raw_input.rs:640-701 | focus and colour-scheme reports are framed whole and as themselves, whatever follows |
| InputGrammar.ColorReplyFramed | src/terminal_theme.rs:55-67 | a default-colour reply with either terminator is framed whole and as that colour, whatever follows |
| InputColors.ColorForms | src/terminal_theme.rs:86-120 | a colour value is accepted if and only if it is `rgb:` with three components of one to four hex digits between slashes, or `#` with three such of equal length |
| InputKeys.Ss3Framed | src/raw_input.rs:799-801 | ESC, `O` and any ASCII byte take exactly their three bytes, as a key or as nothing known, whatever follows; with a byte above ASCII, or without a third byte, nothing is framed |
| InputKeys.AltFramed | src/raw_input.rs:803-809 | ESC and any character that opens no other sequence take exactly their bytes, whatever follows, and no part of them is framed |
| InputKeys.ControlSequenceFramed | src/raw_input.rs:785-793 | any control sequence that is no report takes exactly the bytes up to its first final byte, as a key or as nothing known |
| InputKeys.ControlStringFramed | src/raw_input.rs:719-730 | any control string takes exactly the bytes up to its first end: BEL or ST behind `]`, ST behind `P`, `_`, `^` and `X` |
| InputKeys.UnknownReportFramed | src/raw_input.rs:785-788 | a mouse report that the parser does not take is framed whole all the same |
| InputKeys.StackedFramed | src/raw_input.rs:781-783 | one more ESC in front of a sequence is framed with it |
| InputKeys.EscapeBeforeReport | src/raw_input.rs:769-783 | an ESC in front of a mouse report stands alone if and only if the parser takes the report |
| InputGrammar.ChunkReadsBack | src/raw_input.rs:160-177 | a chunk cut for an event is recognised again as the same whole event, unless it is escapes only |
| InputGrammar.DrainedChunksReadBack | src/raw_input.rs:160-177 | over a whole drain, reading the chunks again gives the recognised events in order, one each, escapes-only chunks apart |
| InputGrammar.FlushedChunkReadsBack | src/raw_input.rs:156-177 | a chunk emitted by an idle flush becomes an event if and only if it is the lone ESC or follows one: other keys are lost |
| InputGrammar.AltBracketIsLost | src/raw_input.rs:160-177 | the run that reads Alt and `[` and goes idle emits that key as a chunk, which becomes no event |
| Framer.RawInputByteFramer.constructor | src/raw_input.rs:179-188 | a new framer holds nothing, discards nothing and awaits nothing |
| Framer.RawInputByteFramer.Push | src/raw_input.rs:194-197 | the in-place call gives the chunks and the state of the specification |
| Framer.RawInputByteFramer.HostColorQuerySent | src/raw_input.rs:201-204 | two replies are awaited and no ESC has been held for them; nothing else changes |
| Framer.RawInputByteFramer.DrainAvailableChunks | src/raw_input.rs:369-424 | the loop ends, by the lexicographic measure on buffer length, discard and lone-ESC flag, with the chunks and state of the specification |
| Framer.RawInputByteFramer.DiscardOrphanedTail | src/raw_input.rs:864-890 | the byte loop stops at the first byte that is no parameter of a mouse report, within the budget, and drops the final byte with the report |
| Framer.RawInputByteFramer.DiscardOrBufferOrphanedTail | src/raw_input.rs:829-862 | a complete tail is cut off; otherwise the buffer is dropped and, within the budget, the rest is to be discarded |
| Framer.RawInputByteFramer.FlushTimeout | src/raw_input.rs:229-367 | the in-place idle flush, every branch of it, gives the chunks and the state of the specification |
| Framer.RawInputByteFramer.EnableHostColorSchemeChangeTracking | src/raw_input.rs:206-208 | tracking is on and nothing else changes |
| Framer.RawInputByteFramer.DrainTurn | src/raw_input.rs:371-421 | one turn of the loop, with its early exits, is one step of the specification |
| Framer.RawInputByteFramer.FlushDiscardedTail | src/raw_input.rs:232-253 | the flush of a discarding framer goes on within the budget and gives up beyond it |
| Framer.RawInputByteFramer.FlushPending | src/raw_input.rs:255-366 | the flush of a framer that is not discarding, branch by branch in order |
| FramerSpec.TurnShrinks | src/raw_input.rs:369-424 | every turn of the drain loop shrinks the buffer, or ends a discard, or clears the lone-ESC flag |
| FramerSplit.DrainConserves | src/raw_input.rs:369-424 | outside the swallowing modes the drained chunks and then the buffer are the buffered bytes |
| FramerSplit.PushesConserve | src/raw_input.rs:194-197 | over any series of pushes, chunks and then buffer are exactly the input |
| FramerSplit.SplitInvariance | src/raw_input.rs:194-197 | two pushes give the chunks and state of one push of both if and only if the cut does not split a report of the two orphaned-mouse modes, for every reachable state |
| FramerSplit.PlusSignBreaksSplit | src/raw_input.rs:818-849 | a concrete cut, in the state a run reaches when an ESC is flushed, that changes the frames: a plus sign in a mouse number |
| FramerSplit.OverrunBreaksSplit | src/raw_input.rs:864-890 | in the state a run reaches when a mouse report times out behind `ESC[<`, for every byte behind 126 digits, a cut before it changes the frames |
| FramerRuns.RunKeepsInvariant | src/raw_input.rs:229-424 | over every run of pushes, idle flushes and queries an active discard has counted at most 128 bytes and excludes the lone-ESC flag |
| FramerRuns.RunEmitsInOrder | src/raw_input.rs:229-424 | over every run the emitted bytes and then the held ones are an in-order subsequence of the input: nothing is invented or moved |
| FramerRuns.SurvivesTimeout | src/raw_input.rs:229-367 | after an idle flush the buffer is empty, a lone ESC, an open paste, an open colour reply or a partial character, with or without ESC; while discarding, at most an ESC |
| FramerKeys.FlushKeepsIff | src/raw_input.rs:264-361 | the converse: an idle flush leaves a framer that discards nothing as it is if and only if it holds nothing, an open paste, a colour reply without its end, or part of a character with or without ESC in front |
| FramerKeys.FlushOfControlString | src/raw_input.rs:315-325 | a control string without its end starts a discard of its family and emits nothing |
| FramerKeys.FlushOfLeftover | src/raw_input.rs:348-366 | what else is left is emitted whole if it is a key, and dropped otherwise |
| FramerKeys.AltArrivesWholeIff | src/raw_input.rs:357-361 | ESC and a character, cut anywhere by reads and flushed anywhere, come out as one chunk if and only if no idle flush finds the ESC alone, but for one while a colour reply is awaited |
| FramerRuns.LoneEscapeIsEmitted | src/raw_input.rs:327-341 | a lone ESC comes out exactly once in two idle flushes, and is held by the first exactly while a colour reply is awaited |
| FramerText.TextSurvivesFlushes | src/raw_input.rs:229-367 | any text, cut into any bytes with idle flushes anywhere, yields exactly one chunk per character in order |
| FramerPaste.PasteIsAtomic | src/raw_input.rs:285-293 | once its introducer is buffered, any valid body without the closing marker, cut anywhere with idle flushes anywhere, yields exactly one chunk that reads as exactly that paste |
| FramerPaste.EndOccursLast | src/raw_input.rs:626-638 | the closing marker cannot begin inside the body or the introducer |
| FramerUnits.UnitArrivesWhole | src/raw_input.rs:285-313 | any one event whose prefixes an idle flush leaves alone comes out as one chunk, however cut and flushed |
| FramerReplies.ReplyArrivesWholeIff | src/raw_input.rs:199-204 | a colour reply, cut anywhere by reads and flushed anywhere, comes out as one chunk and is that colour if and only if no idle flush falls within its command and at most one behind its ESC alone, and that only while a reply is awaited; one reply less is awaited then |
| FramerReplies.SplitReplyIsStitched | src/raw_input.rs:199-204 | while a reply is awaited, one flushed behind its ESC, whose command then comes by any reads and whose rest by any reads and flushes, comes out whole |
| FramerReplies.QueryAwaitsTwoReplies | src/raw_input.rs:190-204 | after a query an ESC may wait for each of exactly two replies |
| FramerReplies.SchemeReportReopensWindow | src/raw_input.rs:409-417 | a colour-scheme report makes two replies awaited again with tracking on, and changes nothing of the window with tracking off |
| FramerMouse.OrphanedReportIsDropped | src/raw_input.rs:818-890 | after its ESC was flushed as a key, the rest of a mouse report of any button and cell, cut anywhere by reads and by idle flushes that fit, is dropped and the framer is back to normal |
| FramerMouse.InputAfterOrphanIsFramed | src/raw_input.rs:829-849 | input read together with the end of a known report behind a flushed ESC is framed as if the report had not been there |
| FramerMouse.OrphanedReportIsDroppedIff | src/raw_input.rs:818-890 | where its characters are keys, nothing of a report of any button and cell is emitted if and only if the parser takes the report or a flush that found two bytes or more started a discard, no flush found just `[` or ended the discard, and the 32 and 128 byte limits were kept |
| FramerMouse.SideButtonLeaks | src/raw_input.rs:829-849 | the run in which a report of a side button comes behind its flushed ESC emits more than the ESC |
| FramerMouse.TimedOutReportIsDroppedIff | src/raw_input.rs:232-282 | a report of any button and cell that timed out anywhere behind `ESC[<`: the rest emits nothing, and leaves the normal state, if and only if no further idle flush comes before its end and the 128 byte budget is kept |
| FramerMouse.InputAfterReportIsFramed | src/raw_input.rs:864-890 | input read together with the end of a report that is dropped is framed as if nothing had been dropped, and a byte that cuts the report off is framed with it |
| FramerDiscards.TimedOutSchemeReportIsSwallowed | src/raw_input.rs:303-311 | the rest of a colour-scheme report that timed out anywhere behind `ESC[?`, cut and flushed anywhere, emits nothing and leaves the normal state |
| FramerTyped.RunTypes | src/raw_input.rs:369-424 | a framer that discards nothing and is fed key presses, or an ESC and a backslash, emits something, however they are cut and flushed |
| FramerDiscards.LateTailIsSwallowed | src/raw_input.rs:232-253 | the rest of a control string of any family, whatever its bytes, cut anywhere by reads and by idle flushes that fit, emits nothing and leaves the state from before the discard |
| FramerDiscards.LateTailIsSwallowedIff | src/raw_input.rs:232-253 | where its characters are keys, nothing is emitted if and only if every idle flush before the end finds only plausible bytes since the flush before it, in a DCS, APC, PM or SOS string an ESC at their end, and at most 128 counted |
| FramerDiscards.PlausibleIs | src/raw_input.rs:429-460 | the plausible bytes of each family, character by character |
| FramerDiscards.ReadsFit | src/raw_input.rs:384-406 | without idle flushes the rest of any string fits |
| FramerOsc.TimedOutColorReplyIff | src/raw_input.rs:303-320 | a colour reply, of any colour, that timed out before its command was complete: the rest emits nothing, and leaves the normal state, if and only if the idle flushes before its end fit |
| FramerOsc.PlausibleTailIsSwallowed | src/raw_input.rs:232-253 | late OSC tails never leak: plausible bytes and a BEL or ST, cut anywhere by reads and idle flushes, emit nothing and leave the state from before the discard, if the bytes already discarded, the tail and the flushes that split the ST come to at most 128 |
| FramerOsc.PlausibleTailIsSwallowedIff | src/raw_input.rs:232-253 | where its characters are keys and some flush splits the ST, that bound is exact |
| FramerOsc.PlausibleReplyIsSwallowed | src/raw_input.rs:232-253 | a colour reply without the hex letters a, c, d, e and f that timed out before its command was complete does not leak within that bound |
| FramerOsc.HexReplyLeaks | src/raw_input.rs:427-449 | a run from the start over a real colour reply with a hex letter, 12 bytes counted, that leaks |
| FramerDiscards.InputAfterTailIsFramed | src/raw_input.rs:384-406 | input read together with the end of a late string of any family is framed as from a framer that never discarded |
| FramerOsc.LongTailLeaks | src/raw_input.rs:427-449 | a run from the start over a plausible tail of more than 128 bytes that leaks |
| KittyGraphics.HostGraphicsCache.EncodeGraphicsUpdate | src/kitty_graphics.rs:301-435 | the in-place update leaves the cache of the specification and emits its commands: deletes of pruned images, the walk in order, deletes of stale placements |
| KittyGraphics.HostGraphicsCache.PruneSources | src/kitty_graphics.rs:311-334 | sources that went away are forgotten and exactly the images only gone pane layers used are deleted, each once |
| KittyGraphics.HostGraphicsCache.EncodePlacement | src/kitty_graphics.rs:336-419 | the turn for one placement changes the tables and emits the commands of the specification |
| KittyGraphics.HostGraphicsCache.ReleaseSupersededSourceImage | src/kitty_graphics.rs:439-465 | the image a source used before is deleted, with its placements, unless another source still uses it |
| KittyGraphics.HostGraphicsCache.DeleteStale | src/kitty_graphics.rs:421-435 | exactly the cached placements that were not met are deleted, each once |
| KittyGraphics.HostGraphicsCache.ClearPaneBytes | src/kitty_graphics.rs:514-524 | the cache ends empty and exactly the cached images are deleted, each once |
| KittyGraphics.HostGraphicsCache.UpdateView | src/kitty_graphics.rs:526-532 | reports whether the view changed and remembers the new one, leaving the tables alone |
| KittyHost.ExecuteImageDeletes | src/kitty_graphics.rs:740-742 | deleting a set of images, in any order, leaves exactly the other images and their placements on the host |
| KittyCoherence.WalkOneAgrees | src/kitty_graphics.rs:349-419 | one placement keeps cache and host in step if and only if its id is not cached under another signature with no data to upload; then every placement and source still names a cached image |
| KittyCoherence.UpdateAgrees | src/kitty_graphics.rs:301-435 | a host that equals the cache and is sent the commands of an update equals the new cache: image signatures, geometry, z order |
| KittyCoherence.ClearEmptiesHost | src/kitty_graphics.rs:514-524 | the clear commands leave no image and no placement on the host |
| KittyCoherence.RunAgrees | src/kitty_graphics.rs:301-524 | coherence and referential integrity at every point of every run of updates and clears |
| KittyShortfalls.SettlesIff | src/kitty_graphics.rs:349-419 | the turn of a visible placement leaves it, its image and its source cached and counted as met if and only if its image was cached as wanted, or has data and displaces no cached placement |
| KittyConvergence.UpdateShows | src/kitty_graphics.rs:301-435 | convergence placement by placement: in a batch with distinct keys, one id per source and no clash of ids, each visible placement ends up on the host with its geometry, z order and image if and only if its image is available at its turn, has no host placement otherwise, and nothing else is on the host |
| KittyConvergence.ConvergesIff | src/kitty_graphics.rs:301-465 | convergence of the batch: the host shows exactly the visible placements if and only if each carries its data, follows one with the same image, or finds it cached, gone pane layers pruned, with no earlier placement having taken over every source that holds it |
| KittyRedisplay.UpdateDraws | src/kitty_graphics.rs:396-420 | a visible placement has its display command, with its ids, cell, size, source window and order, among the commands if and only if its image is available and the view changed or the placement was not on screen already as wanted with its image staying; nothing else is drawn |
| KittyImages.PruneIs | src/kitty_graphics.rs:311-334 | which sources are forgotten and which images deleted before the walk: those of pane layers that went away and that no source of the batch holds; images of terminal pictures stay |
| KittyImages.ImagesAfterUpdate | src/kitty_graphics.rs:311-465 | exactly which images the host has after an update |
| KittyConvergence.AvailableAtTurn | src/kitty_graphics.rs:361-394 | over the walk, the cache has the image of a placement at its turn, or data, exactly when the condition on the batch and the first cache says so |
| KittyConvergence.UpdateConverges | src/kitty_graphics.rs:336-435 | the special case of a batch in which every visible placement carries its data unless its own source holds the image |
| KittyRepeat.RepeatIsSilent | src/kitty_graphics.rs:396-419 | after an update that shows the whole batch, the same placements again in an unchanged view, with or without their data, emit no command and leave the cache as it is |
| KittyShortfalls.OneIsShownIff | src/kitty_graphics.rs:361-394 | for a batch of one and any coherent cache, clashes of ids included, exactly when the host shows the placement after the update |
| KittyShortfalls.StaleEntryRemains | src/kitty_graphics.rs:363-376 | after the stale branch the cache lists an image that the host no longer has |
| KittyShortfalls.ReplacedImageIsNotShown | src/kitty_graphics.rs:361-394 | an image replaced under a used id: the commands delete, upload and display it, and its placement is then stale and dropped |
| KittyShortfalls.HandedOverImageIsLost | src/kitty_graphics.rs:439-465 | an image one source hands to another within a batch: the commands upload the new picture, delete the old one and display the new one, and the placement that relied on the old one is not cached |
| KittyExamples.ShownFromNothing | src/kitty_graphics.rs:361-419 | a concrete picture with its data, on the host after an update from nothing |
| KittyExamples.ClashingPictureIsDropped | src/kitty_graphics.rs:361-394 | concrete pictures whose ids clash: the new one is uploaded and displayed, and has no entry after the update |
| KittyExamples.ClashingPictureLeavesStaleEntry | src/kitty_graphics.rs:363-376 | the same without data, from a coherent cache and host: the cache lists an image that the host has lost |
| KittyExamples.HandedOverPicture | src/kitty_graphics.rs:439-465 | a concrete batch without clashes in which the picture handed over is deleted by the commands and its placement has no entry |
| Clipping.CellsShown | src/kitty_graphics.rs:803-873 | the cells shown are those of the placement inside the pane, if and only if the offset is not the least `i32` with a grid that ends inside the pane; else one too many |
| Clipping.OneCellTooMany | src/kitty_graphics.rs:815-861 | a concrete grid that ends where the pane begins and still shows a cell |
| Clipping.AxisFits | src/kitty_graphics.rs:874-947 | on one axis, without overflow, at least one cell inside the pane, from at least one pixel inside both image and requested window, despite rounding |
| Clipping.WindowOf | src/kitty_graphics.rs:876-915 | without overflow, the source window starts behind the pixels of the cells clipped on the near side and takes those of the cells in the pane, each a floor over the larger of the picture's and its grid's extent, at least one |
| Clipping.WholePictureShown | src/kitty_graphics.rs:803-945 | a picture that lies in its pane, on a grid that holds its pixels, is placed where it is asked for and shows exactly the window asked for |
| Clipping.AxisVisibleIff | src/kitty_graphics.rs:803-915 | the placement is visible exactly when a cell falls inside the pane and the source starts inside the image |
| Clipping.AxisContinues | src/kitty_graphics.rs:874-947 | scrolled off by k cells, the picture starts at the pixel where its first k cells end |
| Clipping.ClipFits | src/kitty_graphics.rs:803-945 | both axes together: the placement lies in its pane and its source window in the image and in the requested window |
| Clipping.ClipWindow | src/kitty_graphics.rs:803-945 | without overflow, cell, size, source window and offsets of a visible placement on both axes, each from its own pane edge, cell size, extent and image |
| Clipping.ClipStaysInside | src/kitty_graphics.rs:803-945 | in a pane whose far edges have 16-bit coordinates a visible placement lies inside the pane, whatever overflows in its source window |
| PaneGraphics.PanesFit | src/layout.rs:413-437 | in a layout of a screen with 16-bit edges, the part of every pane that pictures are clipped to has 16-bit edges |
| PaneGraphics.PlacementsStayInTheirPanes | src/kitty_graphics.rs:803-945 | in such a layout every cell a visible placement covers belongs to its own pane and to no other |
| KittyUpload.EncodeKittyData | src/kitty_graphics.rs:1003-1017 | the payloads spell the Base64 of the whole data and decode to it, each but the last is exactly 4096 characters and the last at most that, only the last says there are no more, only the first carries the control keys, and no data sends nothing |
| Base64.DecodeOfEncode | src/kitty_graphics.rs:1003-1017 | the encoding of section 4 of RFC 4648 is read back by a strict decoder |
| Base64.EncodeInPieces | src/kitty_graphics.rs:22 | pieces of a length divisible by three can be encoded apart |
| Base64.LettersAreTheAlphabet | src/kitty_graphics.rs:1003-1017 | the letters are those of Table 1 of RFC 4648 |
| Base64.GroupIsNumber | src/kitty_graphics.rs:1003-1017 | three bytes are the same 24-bit number as their four sextets |
| Base64.RestIsPadded | src/kitty_graphics.rs:1003-1017 | one or two bytes at the end are padded as if with zero bytes |
| LayoutTiling.SplitRectCuts | src/layout.rs:621-640 | the two parts of a split lie in the area, meet, and leave nothing between or beside them |
| LayoutPlaces.NearestShare | src/layout.rs:621-640 | the near part of a split is the whole number nearest to its share, the larger of two |
| LayoutTiling.TilesExactly | src/layout.rs:413-437 | every cell of the area lies in exactly one pane, every pane lies in the area, and no cell outside it is covered |
| LayoutTiling.CellsAddUp | src/layout.rs:413-437 | the pane areas sum to the area |
| LayoutTiling.PanesFollowIds | src/layout.rs:406-476 | rects come in leaf order, one per leaf, and only the focused leaf is marked |
| LayoutEditing.RemoveUndoesSplit | src/layout.rs:520-578 | removing a freshly split-in pane gives the tree back, node for node |
| LayoutEditing.RemoveIds | src/layout.rs:557-578 | removing keeps the other leaves in order, and nothing is left exactly when every leaf was the target |
| LayoutEditing.SplitAdds | src/layout.rs:131-163 | splitting puts the new pane right behind the target, focuses it and keeps the tree valid |
| LayoutPlaces.SplitAndInsertPlace | src/layout.rs:131-163 | splitting and inserting replace the leaf of the target by a split of the target and the new pane, with the direction asked for and the ratio asked for kept in [0.1, 0.9], or a half; nothing else changes |
| LayoutPlaces.SplitCutsRect | src/layout.rs:520-547 | the rect of the target is cut, the near part for it and the far part for the new pane; the others stay |
| LayoutPlaces.RemoveReplacesSplit | src/layout.rs:557-578 | removing one side of a split puts the other side in its place, and nothing else changes |
| LayoutEditing.CloseDrops | src/layout.rs:165-186 | closing drops the focused leaf, keeps the order of the others and focuses the next, else the previous |
| LayoutEditing.CloseUndoesSplit | src/layout.rs:131-186 | splitting and closing gives the tree back with the focus on the leaf behind the split one |
| LayoutEditing.SwapTwice | src/layout.rs:504-518 | swapping twice is the identity |
| LayoutEditing.SwapMovesNothing | src/layout.rs:504-518 | swapping renames the two leaves; the i-th rect and every divider stay |
| LayoutPlaces.SwapRenames | src/layout.rs:504-518 | each of the two leaves has the id of the other, and every other leaf its own |
| LayoutPlaces.SwapExchangesRects | src/layout.rs:196-207 | the two panes exchange their rects, the others keep theirs and the focus stays on its pane |
| LayoutEditing.SwapKeepsValid | src/layout.rs:196-207 | the swap operation keeps ids distinct, focus a leaf and ratios in range, and undoes itself |
| LayoutEditing.SetRatioChangesOne | src/layout.rs:580-619 | setting a ratio is seen at its path and at no other |
| LayoutPlaces.SetRatioStores | src/layout.rs:209-211 | the ratio stored is the one asked for, kept in [0.1, 0.9] |
| LayoutNavigation.BestFrom | src/layout.rs:280-335 | the pane found ranks before every other candidate by distance, larger overlap, centre distance, index; none is found only when there is no candidate |
| LayoutHeading.NavigationIsOptimal | src/layout.rs:280-404 | with all rects turned so that the way to go is up one axis, the pane found is wholly ahead and shares height, and has the smaller gap, else more in common, else the nearer middle, else the earlier place than every other; none is found only if there is none |
| LayoutNavigation.NavigationReachesNeighbour | src/layout.rs:280-339 | in a layout's own panes, a non-empty pane off the area's edge has a neighbour there, and the one found touches it and overlaps it |
| LayoutResize.NearestIsAncestor | src/layout.rs:341-390 | the nearest eligible divider always belongs to a split that holds the focused pane |
| LayoutResize.SetRatioIsLocal | src/layout.rs:580-599 | panes outside the split whose ratio is set keep their rects |
| LayoutResize.ResizeIsLocal | src/layout.rs:215-239 | a resize changes nothing, or one ratio of the right axis around the focused pane, by delta and within [0.1, 0.9]; panes outside that split keep their rects, whatever the pane's size |
| LayoutHeading.ResizeMovesNearest | src/layout.rs:215-239 | the divider moved is the first of the nearest at most one cell from the edge on the requested side, else on the other side, and its ratio changes by delta; without one nothing changes |
| LayoutResize.ResizeFindsDivider | src/layout.rs:215-239 | a non-empty pane with room on the requested or the opposite side does have a divider moved |
| LayoutGrowth.PanesNoShorter | src/layout.rs:413-437 | in a longer area no pane is shorter, and across the axis none changes |
| LayoutGrowth.RatioOrders | src/layout.rs:580-599 | raising the ratio of a split makes no pane of its first side shorter on its axis and none of its second side longer |
| LayoutGrowth.ResizeDirection | src/layout.rs:213-239 | for a focused pane at least 2 long, a positive delta makes it no shorter if there is a divider on the requested side and no longer if the opposite one is moved, and a negative delta the reverse |
| LayoutGrowth.RightmostPaneShrinks | src/layout.rs:213-239 | a concrete pane that gets shorter by a positive resize |
| TileLayouts.TileLayout.constructor | src/layout.rs:92-101 | a new layout is one focused pane and valid |
| TileLayouts.TileLayout.FromSaved | src/layout.rs:272-274 | a saved tree and focus are taken as they are |
| TileLayouts.TileLayout.FocusPane | src/layout.rs:188-194 | the focus moves exactly to leaves of the tree |
| TileLayouts.TileLayout.SplitFocusedWithRatio | src/layout.rs:131-140 | the in-place split leaves the layout of the specification |
| TileLayouts.TileLayout.InsertPaneNear | src/layout.rs:142-163 | inserts exactly when the target is a leaf and the moved pane is not, and says so |
| TileLayouts.TileLayout.CloseFocused | src/layout.rs:165-186 | the in-place close; it reports failure exactly for the last pane |
| TileLayouts.TileLayout.SwapPanes | src/layout.rs:196-207 | swaps exactly when both are different leaves, and says so |
| TileLayouts.TileLayout.SetRatioAt | src/layout.rs:209-211 | sets the clamped ratio and reports whether the path leads to a split |
| TileLayouts.TileLayout.ResizeFocused | src/layout.rs:215-239 | the in-place resize leaves the layout of the specification |
| TileLayouts.TileLayout.ResizePane | src/layout.rs:241-257 | the focus is lent and given back, and the report is true exactly when the layout changed |
| TileLayouts.ResizedPaneMoves | src/layout.rs:241-257 | another pane is resized as if it had the focus, and the focus stays; an unknown pane is not |
| TileLayouts.RatiosTellApart | src/layout.rs:478-502 | comparing the ratio lists of trees of one shape compares the trees |
| TileLayouts.RunKeepsValid | src/layout.rs:92-277 | over every run of edits ids stay distinct, the focus stays a leaf and ratios stay in [0.1, 0.9] |
| AgentProbing.Acquisition.Sync | src/pane.rs:427-467 | the in-place call leaves the window of the specification |
| AgentProbing.WindowStays | src/pane.rs:427-467 | content changes less than two seconds apart never restart a running window, and turns that do not read the screen leave it alone |
| AgentProbing.BurstIsBounded | src/pane.rs:392-467 | whatever came before, one burst of content changes of any length, with turns that end before the window is updated or that may not probe, causes at most seven probes of the acquisition window |
| AgentProbing.SevenIsReached | src/pane.rs:289-296 | the bound is met: four probes half a second apart, then three two seconds apart |
| AgentProbing.AcquisitionPace | src/pane.rs:404-416 | the window asks for a probe every half second for a second and a half, then every two seconds up to eight |
| AgentProbing.ChangesAreProbed | src/pane.rs:392-402 | pending work and a change of the foreground group ask for a probe at once |
| AgentProbing.FirstProbe | src/pane.rs:398-425 | without an earlier probe one comes at once unless an agent is known |
| AgentProbing.ProbesKeepPace | src/pane.rs:392-425 | over any looks at a calm pane, probes come every five seconds with a known agent, every thirty without agent and process group, and never otherwise, no faster and none overdue |
| AgentProbing.WindowReopensIff | src/pane.rs:427-467 | a content change opens the window anew, and a quiet look closes it, exactly when it is more than eight seconds old and nothing changed for two |
| AgentProbing.WindowLeftAlone | src/pane.rs:435-437 | with an agent known or suppressed, or another process group, the window is left alone |
| AgentProbing.AgentDetectionPresence.FromAgent | src/pane.rs:913-919 | presence starts with the given agent and no misses |
| AgentProbing.AgentDetectionPresence.ObserveProcessProbe | src/pane.rs:934-957 | the in-place call leaves the presence of the specification and reports exactly whether the agent changed |
| AgentProbing.AgentDetectionPresence.ClearCurrentAgent | src/pane.rs:924-932 | no agent and no misses remain, and the report says whether there was an agent |
| AgentProbing.PresenceIsLastNamed | src/pane.rs:913-957 | over every history of probes the agent is the one last named, until six probes in a row have missed it |

## Left out

- `parse_terminal_key_sequence` is a parameter that says which texts are keys; which key each one is does not matter to framing.
- KittyConvergence.ConvergesIff: assumes that no two ids of the batch and the cache clash, as the hashes promise; with clashes the exact condition is proved for a batch of one (`KittyShortfalls.OneIsShownIff`).
- FramerDiscards.LateTailIsSwallowedIff: asks that the characters of the rest are ASCII keys, since a byte that is no key is neither typed nor kept, and that the rest holds no ESC but that of its end; swallowing itself is proved of every byte string (`LateTailIsSwallowed`).
- FramerMouse.OrphanedReportIsDroppedIff: asks that the characters of the report are keys, as does the statement on timed-out reports.
- A control string that times out between the ESC and the backslash of its end loses that ESC, so that its backslash no longer ends it; statements on timed-out strings begin behind the bytes that were dropped.
- KittyCoherence.RunAgrees: the commands are data, not escape bytes; command keys with value 0 are modelled as absent, as they are encoded.
- Hex colour values are kept as text, and of the mouse buttons only which numbers are known: tables.
- A colour value of `#` and text that is not ASCII, such as `#éa`, makes the source slice inside a character and panic (src/terminal_theme.rs:96-108); the model takes it for no colour.
- Layout ratios are real numbers, so 32-bit rounding inside a product is not modelled; a ratio that is not finite occurs only where the source tests for it.
- The tree is owned by its layout, so in-place tree changes are modelled as a new tree in the same field; aliasing cannot occur in the source.
- Sums of 16-bit coordinates that the layout code leaves unchecked are unbounded in the layout model; `Clipping` models wrap-around.
- In the drain loop, clearing the lone-ESC flag is a turn of its own.
- The hashes behind host image ids, placement ids and data fingerprints are parameters; the high-bit id range of pane layers is not modelled, and coherence assumes only what a clash would break.
- Collecting placements from panes, the brand cache, the host surface view key beyond `update_view`, and the writing of bytes.
- Async detection loops, process and PTY handling, the acquisition windows that the loop opens for other reasons, and `foreground_shell_agent_action`: they depend on code outside these files' logic or on the operating system.
- How borders and the scrollbar reduce a pane's rect (src/ui/panes.rs:34-53): `PaneGraphics` takes any part of the pane.
- Reading of stdin, polling, threads and channels.

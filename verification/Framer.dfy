/** `RawInputByteFramer` of `src/raw_input.rs`, an object whose calls update its fields in place. */
module Framer {
  import opened Bytes
  import opened Utf8
  import opened InputEvents
  import opened FramerSpec

  class RawInputByteFramer {
    const keys: KeyDecoder
    var buffer: seq<byte>
    var discardUntil: Option<Family>
    var discardedTailBytes: nat
    var loneEscapeRecentlyFlushed: bool
    var hostColorRepliesAwaited: nat
    var heldPendingColorEsc: bool
    var hostColorSchemeChangeTracking: bool

    function Contents(): State
      reads this
    {
      State(buffer, discardUntil, discardedTailBytes, loneEscapeRecentlyFlushed,
            hostColorRepliesAwaited, heldPendingColorEsc, hostColorSchemeChangeTracking)
    }

    constructor (keys: KeyDecoder)
      ensures this.keys == keys && Contents() == INITIAL
      ensures buffer == [] && discardUntil == None && discardedTailBytes == 0 && !loneEscapeRecentlyFlushed
      ensures hostColorRepliesAwaited == 0 && !heldPendingColorEsc && !hostColorSchemeChangeTracking
    {
      this.keys := keys;
      buffer, discardUntil, discardedTailBytes := [], None, 0;
      loneEscapeRecentlyFlushed, hostColorRepliesAwaited := false, 0;
      heldPendingColorEsc, hostColorSchemeChangeTracking := false, false;
    }

    method Push(data: seq<byte>) returns (chunks: seq<seq<byte>>)
      modifies this
      ensures Outcome(Contents(), chunks) == FramerSpec.Push(keys, old(Contents()), data)
    {
      buffer := buffer + data;
      chunks := DrainAvailableChunks();
    }

    method HostColorQuerySent()
      modifies this`hostColorRepliesAwaited, this`heldPendingColorEsc
      ensures Contents() == QuerySent(old(Contents()))
    {
      hostColorRepliesAwaited := HOST_COLOR_QUERY_REPLIES;
      heldPendingColorEsc := false;
    }

    method EnableHostColorSchemeChangeTracking()
      modifies this`hostColorSchemeChangeTracking
      ensures Contents() == old(Contents()).(hostColorSchemeChangeTracking := true)
    {
      hostColorSchemeChangeTracking := true;
    }

    method DiscardCompleteOrphanedTail() returns (done: bool)
      modifies this`buffer
      ensures done == CompleteOrphanedTail(old(buffer)).Some?
      ensures buffer == if done then old(buffer)[CompleteOrphanedTail(old(buffer)).value..] else old(buffer)
    {
      var terminatorLen := Terminator(buffer, OrphanedSgrMouseTail);
      if terminatorLen.None? || terminatorLen.value > MAX_ORPHANED_SGR_MOUSE_TAIL_BYTES {
        return false;
      }
      var sequence := [ESC];
      sequence := sequence + buffer[..terminatorLen.value];
      if !Valid(sequence) || ParseSgrMouse(sequence).None? {
        return false;
      }
      buffer := buffer[terminatorLen.value..];
      return true;
    }

    method DiscardOrBufferOrphanedTail()
      modifies this`buffer, this`discardUntil, this`discardedTailBytes
      ensures Contents() ==
              var tail := CompleteOrphanedTail(old(buffer));
              if tail.Some? then old(Contents()).(buffer := old(buffer)[tail.value..])
              else DropMouseTail(old(Contents()))
    {
      var done := DiscardCompleteOrphanedTail();
      if !done {
        discardedTailBytes := |buffer|;
        discardUntil := if discardedTailBytes <= MAX_DISCARDED_CONTROL_TAIL_BYTES
                        then Some(OrphanedSgrMouseTail) else None;
        buffer := [];
      }
    }

    method DiscardOrphanedTail() returns (ended: bool)
      modifies this`buffer, this`discardedTailBytes
      ensures TailScan(buffer, discardedTailBytes, ended) ==
              ScanOrphanedTail(old(buffer), old(discardedTailBytes))
    {
      var inspected := Min(|buffer|, Remaining(discardedTailBytes));
      ghost var window := buffer[..inspected];
      for index := 0 to inspected
        invariant unchanged(this)
        invariant FirstIndexFrom(window, IsNotTailParameter, 0) == FirstIndexFrom(window, IsNotTailParameter, index)
      {
        assert window[index] == buffer[index];
        if IsMouseFinal(buffer[index]) {
          buffer := buffer[index + 1..];
          return true;
        } else if !IsTailParameter(buffer[index]) {
          buffer := buffer[index..];
          return true;
        }
      }
      discardedTailBytes := discardedTailBytes + inspected;
      ended := |buffer| > inspected;
      buffer := [];
    }

    /** One turn of the drain loop: `more` is false where the source breaks out of the loop. */
    method DrainTurn() returns (more: bool, chunks: seq<seq<byte>>)
      modifies this
      ensures Turned(keys, old(Contents())) == if more then Next(Contents(), chunks) else Halt(Contents())
      ensures !more ==> chunks == []
    {
      chunks := [];
      if loneEscapeRecentlyFlushed {
        if IncompleteOrphanedTail(buffer) {
          return false, [];
        }
        var done := DiscardCompleteOrphanedTail();
        loneEscapeRecentlyFlushed := false;
        return true, [];
      }

      if discardUntil.Some? {
        if discardUntil == Some(OrphanedSgrMouseTail) {
          more := DiscardOrphanedTail();
          if more {
            discardUntil := None;
            discardedTailBytes := 0;
          }
          return;
        }
        var terminatorLen := Terminator(buffer, discardUntil.value);
        if terminatorLen.None? {
          return false, [];
        }
        buffer := buffer[terminatorLen.value..];
        discardUntil := None;
        discardedTailBytes := 0;
        return true, [];
      }

      var frame := ExtractOneEvent(keys, buffer);
      if frame.None? {
        return false, [];
      }
      more := true;
      var event, consumed := frame.value.event, frame.value.len;
      if event.HostDefaultColor? {
        hostColorRepliesAwaited := if hostColorRepliesAwaited == 0 then 0 else hostColorRepliesAwaited - 1;
      } else if hostColorSchemeChangeTracking && event.HostColorSchemeChanged? {
        HostColorQuerySent();
      }
      heldPendingColorEsc := false;
      chunks := [buffer[..consumed]];
      buffer := buffer[consumed..];
    }

    method DrainAvailableChunks() returns (chunks: seq<seq<byte>>)
      modifies this
      ensures Outcome(Contents(), chunks) == Drain(keys, old(Contents()))
    {
      chunks := [];
      var more := true;
      while more
        invariant Drain(keys, old(Contents())) ==
                  if more then Prepend(chunks, Drain(keys, Contents())) else Outcome(Contents(), chunks)
        decreases more, |buffer|, discardUntil.Some?, loneEscapeRecentlyFlushed
      {
        ghost var before := Contents();
        DrainUnfold(keys, before);
        var taken;
        more, taken := DrainTurn();
        if more {
          TurnShrinks(keys, before);
          PrependTwice(chunks, taken, Drain(keys, Contents()));
        }
        chunks := chunks + taken;
      }
    }

    method FlushTimeout() returns (chunks: seq<seq<byte>>)
      modifies this
      ensures Outcome(Contents(), chunks) == FramerSpec.FlushTimeout(keys, old(Contents()))
    {
      chunks := DrainAvailableChunks();
      if discardUntil.Some? {
        FlushDiscardedTail();
      } else {
        var flushed := FlushPending();
        chunks := chunks + flushed;
      }
    }

    method FlushDiscardedTail()
      requires discardUntil.Some?
      modifies this`buffer, this`discardUntil, this`discardedTailBytes
      ensures Contents() == FlushDiscarding(old(Contents()))
    {
      if discardUntil == Some(OrphanedSgrMouseTail) {
        buffer := [];
        discardUntil := None;
        discardedTailBytes := 0;
        return;
      }
      var keepSplitSt := buffer != [] && buffer[|buffer| - 1] == ESC;
      var keepDiscarding := PlausibleTail(discardUntil.value, buffer);
      discardedTailBytes := discardedTailBytes + |buffer|;
      buffer := [];
      if keepDiscarding && discardedTailBytes <= MAX_DISCARDED_CONTROL_TAIL_BYTES {
        if keepSplitSt {
          buffer := buffer + [ESC];
        }
      } else {
        discardUntil := None;
        discardedTailBytes := 0;
      }
    }

    /** The part of `flush_timeout` for a framer that is not discarding. */
    method FlushPending() returns (chunks: seq<seq<byte>>)
      requires discardUntil.None?
      modifies this
      ensures Outcome(Contents(), chunks) == FlushDrained(keys, old(Contents()))
    {
      chunks := [];
      if buffer == [] {
        return;
      }

      if loneEscapeRecentlyFlushed && [0x5b, 0x3c] <= buffer {
        DiscardOrBufferOrphanedTail();
        loneEscapeRecentlyFlushed := false;
        return;
      }

      if IncompleteSgrMouse(buffer) {
        discardedTailBytes := |buffer|;
        discardUntil := if discardedTailBytes <= MAX_DISCARDED_CONTROL_TAIL_BYTES
                        then Some(OrphanedSgrMouseTail) else None;
        buffer := [];
        return;
      }

      if UnterminatedPaste(buffer) {
        return;
      }

      if IncompleteColorReply(buffer) {
        return;
      }

      if IncompleteColorSchemeReport(buffer) {
        discardUntil := Some(HostColorSchemeCsi);
        discardedTailBytes := 0;
        buffer := [];
        return;
      }

      var control := ControlStringOf(buffer);
      if control.Some? && control.value.Incomplete? {
        discardUntil := Some(control.value.family);
        discardedTailBytes := 0;
        buffer := [];
        return;
      }

      if buffer == [ESC] {
        if hostColorRepliesAwaited > 0 && !heldPendingColorEsc {
          heldPendingColorEsc := true;
          return;
        }
        hostColorRepliesAwaited := 0;
        heldPendingColorEsc := false;
        loneEscapeRecentlyFlushed := true;
        chunks := [buffer];
        buffer := [];
        return;
      }

      if Valid(buffer) && keys(buffer) {
        chunks := [buffer];
        buffer := [];
        return;
      }

      if IncompleteScalar(buffer) {
        return;
      }

      if buffer[0] == ESC && IncompleteScalar(buffer[1..]) {
        return;
      }

      loneEscapeRecentlyFlushed := false;
      buffer := [];
    }
  }
}

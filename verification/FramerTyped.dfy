/** Bytes that a framer which discards nothing is bound to emit. */
module FramerTyped {
  import opened Bytes
  import opened Utf8
  import opened InputEvents
  import opened FramerSpec
  import opened FramerSplit
  import opened FramerRuns

  /** With `held` in the buffer, what comes next is a key press, or an ESC and a backslash. */
  predicate Pending(held: seq<byte>, rest: seq<byte>) {
    || (held == [] && rest != [] && (rest[0] != ESC || (|rest| >= 2 && rest[1] == 0x5c)))
    || (held == [ESC] && rest != [] && rest[0] == 0x5c)
  }

  /** Plain ASCII whose characters, ESC apart, are keys. */
  predicate Typable(keys: KeyDecoder, s: seq<byte>) {
    forall i :: 0 <= i < |s| ==> s[i] < 0x80 && (s[i] != ESC ==> keys([s[i]]))
  }

  lemma TypedIsFramed(keys: KeyDecoder, b: seq<byte>)
    requires Typable(keys, b) && Pending([], b)
    ensures ExtractOneEvent(keys, b).Some?
  {
    hide Terminator, ParseSgrMouse, FindSubsequence;
    if b[0] == ESC {
      assert b[1..2] == [0x5c] && b[..2] == [ESC, 0x5c];
      AsciiIsValid([0x5c]);
      AsciiIsValid([ESC, 0x5c]);
    } else {
      assert b[..1] == [b[0]];
      AsciiIsValid([b[0]]);
    }
  }

  lemma PushOf(keys: KeyDecoder, s: State, data: seq<byte>)
    requires Framing(s)
    ensures if ExtractOneEvent(keys, s.buffer + data).Some? then Push(keys, s, data).chunks != []
            else Push(keys, s, data) == Outcome(Append(s, data), [])
  {
    hide Drain, ExtractOneEvent, Terminator;
    DrainUnfold(keys, Append(s, data));
  }

  lemma PendingGoesOn(keys: KeyDecoder, held: seq<byte>, data: seq<byte>, later: seq<byte>)
    requires Pending(held, data + later) && Typable(keys, data + later)
    ensures Typable(keys, later)
    ensures if held + data == [] || held + data == [ESC] then Pending(held + data, later)
            else Pending([], held + data) && Typable(keys, held + data)
  {
    var rest, b := data + later, held + data;
    assert forall i :: 0 <= i < |data| ==> data[i] == rest[i];
    assert forall i :: 0 <= i < |later| ==> later[i] == rest[|data| + i];
    if b == [ESC] {
      if data == [] { assert later == rest; } else { assert data == [ESC]; }
    }
  }

  lemma NothingOrEscapeWaits(keys: KeyDecoder)
    ensures ExtractOneEvent(keys, []).None? && ExtractOneEvent(keys, [ESC]).None?
  {
  }

  /** Such input always comes out as at least one chunk. */
  lemma {:induction false} RunTypes(keys: KeyDecoder, s: State, inputs: seq<Input>)
    requires Framing(s) && ReadsAndFlushes(inputs)
    requires Pending(s.buffer, Fed(inputs)) && Typable(keys, Fed(inputs))
    ensures Run(keys, s, inputs).chunks != []
    decreases |inputs|
  {
    hide Run, Fed, ReadsAndFlushes, Push, FlushTimeout, ExtractOneEvent, Typable;
    RunOfNothing(keys, s);
    if !inputs[0].Bytes? {
      RunFlush(keys, s, inputs);
      if s.buffer == [] { FlushOfNothing(keys, s); } else { FlushOfLoneEscape(keys, s); }
      if FlushTimeout(keys, s).chunks == [] { RunTypes(keys, FlushTimeout(keys, s).state, inputs[1..]); }
    } else {
      RunRead(keys, s, inputs);
      var data, later := inputs[0].data, Fed(inputs[1..]);
      var b := s.buffer + data;
      PendingGoesOn(keys, s.buffer, data, later);
      PushOf(keys, s, data);
      NothingOrEscapeWaits(keys);
      if b == [] || b == [ESC] {
        RunTypes(keys, Append(s, data), inputs[1..]);
      } else {
        TypedIsFramed(keys, b);
      }
    }
  }
}

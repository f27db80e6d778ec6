/** Units that begin with an ESC: which idle flushes they survive. */
module FramerEscaped {
  import opened Bytes
  import opened InputEvents
  import opened FramerSpec
  import opened FramerSplit
  import opened FramerRuns
  import opened FramerUnits
  import opened FramerTyped

  /** Of the unit, of length `total`, `read` bytes have been read. A flush may come before the first byte and from
      the `m`-th on; behind the ESC alone one may, if `mayHold`; in between none may. */
  predicate EscapedFlushesFit(inputs: seq<Input>, read: nat, mayHold: bool, m: nat, total: nat)
    decreases |inputs|
  {
    inputs == [] || read >= total ||
    match inputs[0]
    case Bytes(data) => EscapedFlushesFit(inputs[1..], read + |data|, mayHold, m, total)
    case Idle => (read == 0 || (read == 1 && mayHold) || read >= m) &&
                 EscapedFlushesFit(inputs[1..], read, mayHold && read != 1, m, total)
    case _ => EscapedFlushesFit(inputs[1..], read, mayHold, m, total)
  }

  lemma EscapedFlushesFitStep(inputs: seq<Input>, read: nat, mayHold: bool, m: nat, total: nat)
    requires inputs != [] && read < total && (inputs[0].Bytes? || inputs[0].Idle?)
    ensures EscapedFlushesFit(inputs, read, mayHold, m, total) ==
            if inputs[0].Bytes? then EscapedFlushesFit(inputs[1..], read + |inputs[0].data|, mayHold, m, total)
            else (read == 0 || (read == 1 && mayHold) || read >= m) &&
                 EscapedFlushesFit(inputs[1..], read, mayHold && read != 1, m, total)
  {
  }

  lemma NothingLeftToFit(inputs: seq<Input>, read: nat, mayHold: bool, m: nat, total: nat)
    requires inputs == [] || read >= total
    ensures EscapedFlushesFit(inputs, read, mayHold, m, total)
  {
  }

  /** A flush between the ESC and the `m`-th byte drops what was read. */
  ghost predicate LostBefore(keys: KeyDecoder, w: seq<byte>, m: nat) {
    forall t: State, n: nat :: 2 <= n < m && n <= |w| && Framing(t) && t.buffer == w[..n] ==>
      FlushTimeout(keys, t).chunks == [] && FlushTimeout(keys, t).state.buffer == []
  }

  /** No event is recognised in part of one. */
  lemma PartIsNoEvent(keys: KeyDecoder, w: seq<byte>, event: Event, n: nat)
    requires ExtractOneEvent(keys, w) == Some(Frame(event, |w|)) && n < |w|
    ensures ExtractOneEvent(keys, w[..n]).None?
  {
    hide ExtractOneEvent;
    assert w[..n] + w[n..] == w;
    if ExtractOneEvent(keys, w[..n]).Some? { ExtractExtends(keys, w[..n], w[n..]); }
  }

  lemma {:induction false} SubsequenceLength(x: seq<byte>, y: seq<byte>)
    requires Subsequence(x, y)
    ensures |x| <= |y|
    decreases |y|
  {
    if x != [] { SubsequenceLength(if x[0] == y[0] then x[1..] else x, y[1..]); }
  }

  /** A run cannot emit more than it is given. */
  lemma TooFewBytes(keys: KeyDecoder, s: State, inputs: seq<Input>, w: seq<byte>)
    requires s.buffer == [] && |Fed(inputs)| < |w|
    ensures Run(keys, s, inputs).chunks != [w]
  {
    hide Run, Subsequence;
    var o := Run(keys, s, inputs);
    RunEmitsInOrder(keys, s, inputs);
    SubsequenceLength(Flatten(o.chunks) + o.state.buffer, s.buffer + Fed(inputs));
    if o.chunks == [w] { FlattenFirst(o.chunks); }
  }

  /** The ESC of a reply may wait for the rest. */
  predicate MayHold(s: State) { s.hostColorRepliesAwaited > 0 && !s.heldPendingColorEsc }

  /** Cut anywhere by reads and flushed anywhere, the unit comes out as one chunk if and only if the flushes fit. */
  lemma {:induction false} RunEscaped(keys: KeyDecoder, s: State, w: seq<byte>, m: nat, event: Event,
                                      inputs: seq<Input>)
    requires HeldFrom(keys, w, m, event) && LostBefore(keys, w, m) && |w| >= 2 && w[0] == ESC && m >= 2
    requires Framing(s) && |s.buffer| < |w| && ReadsAndFlushes(inputs) && s.buffer + Fed(inputs) == w
    ensures if EscapedFlushesFit(inputs, |s.buffer|, MayHold(s), m, |w|)
            then Run(keys, s, inputs) == Outcome(NoteEvent(s, event).(buffer := []), [w])
            else Run(keys, s, inputs).chunks != [w]
    decreases |inputs|, 1
  {
    hide Held, ExtractOneEvent, Run, FlushTimeout, Push, ReadsAndFlushes, Fed, EscapedFlushesFit;
    var n := |s.buffer|;
    assert s.buffer == w[..n];
    if inputs == [] {
      RunOfNothing(keys, s);
    } else if !inputs[0].Bytes? {
      RunFlush(keys, s, inputs);
      EscapedFlushesFitStep(inputs, n, MayHold(s), m, |w|);
      if n == 0 {
        FlushOfNothing(keys, s);
        RunEscaped(keys, s, w, m, event, inputs[1..]);
      } else if n == 1 {
        assert s.buffer == [ESC];
        FlushOfLoneEscape(keys, s);
        if MayHold(s) {
          RunEscaped(keys, FlushTimeout(keys, s).state, w, m, event, inputs[1..]);
        } else {
          assert Run(keys, s, inputs).chunks[0] == [ESC] && |w| >= 2;
        }
      } else if n < m {
        TooFewBytes(keys, FlushTimeout(keys, s).state, inputs[1..], w);
      } else {
        FlushHolds(keys, s);
        RunEscaped(keys, s, w, m, event, inputs[1..]);
      }
    } else {
      RunEscapedRead(keys, s, w, m, event, inputs);
    }
  }

  lemma {:induction false} RunEscapedRead(keys: KeyDecoder, s: State, w: seq<byte>, m: nat, event: Event,
                                          inputs: seq<Input>)
    requires HeldFrom(keys, w, m, event) && LostBefore(keys, w, m) && |w| >= 2 && w[0] == ESC && m >= 2
    requires Framing(s) && |s.buffer| < |w| && ReadsAndFlushes(inputs) && s.buffer + Fed(inputs) == w
    requires inputs != [] && inputs[0].Bytes?
    ensures if EscapedFlushesFit(inputs, |s.buffer|, MayHold(s), m, |w|)
            then Run(keys, s, inputs) == Outcome(NoteEvent(s, event).(buffer := []), [w])
            else Run(keys, s, inputs).chunks != [w]
    decreases |inputs|, 0
  {
    hide Held, ExtractOneEvent, Run, FlushTimeout, Push, ReadsAndFlushes, Fed, EscapedFlushesFit, LostBefore;
    RunRead(keys, s, inputs);
    EscapedFlushesFitStep(inputs, |s.buffer|, MayHold(s), m, |w|);
    var data := inputs[0].data;
    var b := s.buffer + data;
    assert b + Fed(inputs[1..]) == w;
    assert b == w[..|b|];
    if |b| < |w| {
      PartIsNoEvent(keys, w, event, |b|);
      PushOf(keys, s, data);
      RunEscaped(keys, Append(s, data), w, m, event, inputs[1..]);
    } else {
      assert b == w && |Fed(inputs[1..])| == 0;
      NothingLeftToFit(inputs[1..], |b|, MayHold(s), m, |w|);
      PushCompletes(keys, s, data, event);
      RunNothing(keys, NoteEvent(s, event).(buffer := []), inputs[1..]);
    }
  }
}

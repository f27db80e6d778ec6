/** A unit that the framer holds across reads and idle flushes arrives whole or not at all. */
module FramerUnits {
  import opened Bytes
  import opened Utf8
  import opened InputEvents
  import opened FramerSpec
  import opened FramerSplit

  /** Not complete yet, and of a kind that an idle flush leaves alone. */
  predicate Held(keys: KeyDecoder, b: seq<byte>) {
    && ExtractOneEvent(keys, b).None?
    && (|| UnterminatedPaste(b) || IncompleteColorReply(b) || IncompleteScalar(b)
        || (b != [] && b[0] == ESC && IncompleteScalar(b[1..])))
  }

  /** `w` is one event, and from its first `m` bytes on every strict prefix of it is held. */
  ghost predicate HeldFrom(keys: KeyDecoder, w: seq<byte>, m: nat, event: Event) {
    && ExtractOneEvent(keys, w) == Some(Frame(event, |w|))
    && forall n :: m <= n < |w| ==> Held(keys, w[..n])
  }

  lemma FlushHolds(keys: KeyDecoder, s: State)
    requires Framing(s) && Held(keys, s.buffer)
    ensures FlushTimeout(keys, s) == Outcome(s, [])
  {
    hide Drain, ExtractOneEvent, FindSubsequence, Terminator, IncompleteScalar, Valid, UnterminatedPaste,
         IncompleteColorReply, IncompleteSgrMouse, IncompleteColorSchemeReport, ControlStringOf;
    DrainUnfold(keys, s);
    if UnterminatedPaste(s.buffer) {
      PasteIsNoMouse(s.buffer);
    } else if IncompleteColorReply(s.buffer) {
      ReplyIsNoMouse(s.buffer);
    } else {
      PartIsNothingElse(s.buffer);
    }
  }

  lemma PasteIsNoMouse(b: seq<byte>)
    requires UnterminatedPaste(b)
    ensures !IncompleteSgrMouse(b) && b != []
  {
    assert b[2] == BRACKETED_PASTE_START[2];
  }

  lemma ReplyIsNoMouse(b: seq<byte>)
    requires IncompleteColorReply(b)
    ensures !IncompleteSgrMouse(b) && b != []
  {
    hide Terminator;
  }

  /** Part of a character, with or without an ESC in front, is the start of no sequence, and no text. */
  lemma PartIsNothingElse(b: seq<byte>)
    requires IncompleteScalar(b) || (b != [] && b[0] == ESC && IncompleteScalar(b[1..]))
    ensures b != [] && b != [ESC] && !Valid(b)
    ensures !IncompleteSgrMouse(b) && !IncompleteColorSchemeReport(b) && ControlStringOf(b).None?
  {
    hide Terminator;
    if b[0] == ESC && IncompleteScalar(b[1..]) {
      assert b[1] == b[1..][0];
      PartIsNoText(b[1..]);
    } else {
      PartIsNoText(b);
    }
  }

  lemma PartIsNoText(b: seq<byte>)
    requires IncompleteScalar(b)
    ensures !Valid(b) && b[0] >= 0xc2 && ScalarLen(b) == 0
  {
  }

  lemma DrainOfNothing(keys: KeyDecoder, s: State)
    requires Framing(s) && s.buffer == []
    ensures Drain(keys, s) == Outcome(s, [])
  {
  }

  lemma {:induction false} RunNothing(keys: KeyDecoder, s: State, inputs: seq<Input>)
    requires Framing(s) && s.buffer == [] && ReadsAndFlushes(inputs) && Fed(inputs) == []
    ensures Run(keys, s, inputs) == Outcome(s, [])
    decreases |inputs|
  {
    hide Drain, ReadsAndFlushes;
    DrainOfNothing(keys, s);
    if inputs == [] {
    } else if inputs[0].Bytes? {
      RunRead(keys, s, inputs);
      assert inputs[0].data == [] && Append(s, []) == s;
      RunNothing(keys, s, inputs[1..]);
    } else {
      RunFlush(keys, s, inputs);
      RunNothing(keys, s, inputs[1..]);
    }
  }

  lemma {:induction false} RunConcat(keys: KeyDecoder, s: State, a: seq<Input>, b: seq<Input>)
    ensures Run(keys, s, a + b) == Prepend(Run(keys, s, a).chunks, Run(keys, Run(keys, s, a).state, b))
    decreases |a|
  {
    hide Apply;
    if a == [] {
      assert a + b == b;
      PrependNothing(Run(keys, s, b));
    } else {
      var first := Apply(keys, s, a[0]);
      assert (a + b)[0] == a[0] && (a + b)[1..] == a[1..] + b;
      RunConcat(keys, first.state, a[1..], b);
      var rest := Run(keys, first.state, a[1..]);
      PrependTwice(first.chunks, rest.chunks, Run(keys, rest.state, b));
    }
  }

  lemma {:induction false} FedConcat(a: seq<Input>, b: seq<Input>)
    ensures Fed(a + b) == Fed(a) + Fed(b)
  {
    if a == [] {
      assert a + b == b && Fed(a) == [] && [] + Fed(b) == Fed(b);
    } else {
      FedConcat(a[1..], b);
      assert (a + b)[1..] == a[1..] + b && (a + b)[0] == a[0];
      var data := if a[0].Bytes? then a[0].data else [];
      assert data + (Fed(a[1..]) + Fed(b)) == data + Fed(a[1..]) + Fed(b);
    }
  }

  lemma RunOfOnePush(keys: KeyDecoder, s: State, data: seq<byte>)
    ensures Run(keys, s, [Bytes(data)]) == Push(keys, s, data)
  {
    var o := Push(keys, s, data);
    assert Run(keys, o.state, []) == Outcome(o.state, []);
    assert o.chunks + [] == o.chunks;
  }

  lemma PushHolds(keys: KeyDecoder, s: State, data: seq<byte>)
    requires Framing(s) && Held(keys, s.buffer + data)
    ensures Push(keys, s, data) == Outcome(Append(s, data), [])
  {
    hide Drain, ExtractOneEvent, UnterminatedPaste, IncompleteColorReply;
    DrainUnfold(keys, Append(s, data));
  }

  lemma PushCompletes(keys: KeyDecoder, s: State, data: seq<byte>, event: Event)
    requires Framing(s) && ExtractOneEvent(keys, s.buffer + data) == Some(Frame(event, |s.buffer + data|))
    ensures Push(keys, s, data) == Outcome(NoteEvent(s, event).(buffer := []), [s.buffer + data])
  {
    hide Drain, ExtractOneEvent;
    var x, w := Append(s, data), s.buffer + data;
    DrainUnfold(keys, x);
    assert w[..|w|] == w && w[|w|..] == [];
    var t := NoteEvent(x, event).(buffer := []);
    assert Turned(keys, x) == Next(t, [w]);
    DrainOfNothing(keys, t);
  }

  /** Cut anywhere past its first `m` bytes, with idle flushes anywhere, the unit comes out as one chunk. */
  lemma {:induction false} UnitArrivesWhole(keys: KeyDecoder, s: State, w: seq<byte>, m: nat, event: Event,
                                            inputs: seq<Input>)
    requires HeldFrom(keys, w, m, event) && Framing(s) && m <= |s.buffer| < |w|
    requires ReadsAndFlushes(inputs) && s.buffer + Fed(inputs) == w
    ensures Run(keys, s, inputs) == Outcome(NoteEvent(s, event).(buffer := []), [w])
    decreases |inputs|
  {
    hide Held, ExtractOneEvent, ReadsAndFlushes, Push, FlushTimeout, Fed, Run;
    if inputs == [] {
      RunOfNothing(keys, s);
    } else if !inputs[0].Bytes? {
      RunFlush(keys, s, inputs);
      assert s.buffer == w[..|s.buffer|];
      FlushHolds(keys, s);
      UnitArrivesWhole(keys, s, w, m, event, inputs[1..]);
    } else {
      RunRead(keys, s, inputs);
      var b := s.buffer + inputs[0].data;
      assert b + Fed(inputs[1..]) == w;
      assert b == w[..|b|];
      if |b| < |w| {
        PushHolds(keys, s, inputs[0].data);
        UnitArrivesWhole(keys, Append(s, inputs[0].data), w, m, event, inputs[1..]);
      } else {
        assert b == w && |Fed(inputs[1..])| == 0;
        PushCompletes(keys, s, inputs[0].data, event);
        RunNothing(keys, NoteEvent(s, event).(buffer := []), inputs[1..]);
      }
    }
  }
}

/** What every run of pushes, idle flushes and colour queries keeps. */
module FramerRuns {
  import opened Bytes
  import opened Utf8
  import opened InputEvents
  import opened FramerSpec

  /** An active discard has counted at most 128 bytes and excludes the lone-ESC flag. */
  predicate Invariant(s: State) {
    s.discardUntil.Some? ==> s.discardedTailBytes <= 128 && !s.loneEscapeRecentlyFlushed
  }

  // --- Drains ---

  lemma TurnKeeps(keys: KeyDecoder, s: State)
    requires Invariant(s)
    ensures Invariant(Turned(keys, s).state)
    ensures Turned(keys, s).Halt? ==> Turned(keys, Turned(keys, s).state) == Turned(keys, s)
  {
    hide ExtractOneEvent, Terminator, IncompleteOrphanedTail, CompleteOrphanedTail;
  }

  /** A drain ends where draining again would do nothing. */
  lemma {:induction false} DrainKeeps(keys: KeyDecoder, s: State)
    requires Invariant(s)
    ensures Invariant(Drain(keys, s).state)
    ensures Turned(keys, Drain(keys, s).state) == Halt(Drain(keys, s).state)
    decreases |s.buffer|, s.discardUntil.Some?, s.loneEscapeRecentlyFlushed
  {
    hide Turned, Drain;
    DrainUnfold(keys, s);
    TurnKeeps(keys, s);
    if Turned(keys, s).Next? {
      TurnShrinks(keys, s);
      DrainKeeps(keys, Turned(keys, s).state);
    }
  }

  lemma TurnEmitsInOrder(keys: KeyDecoder, s: State)
    ensures Turned(keys, s).Next? ==>
              Subsequence(Flatten(Turned(keys, s).chunks) + Turned(keys, s).state.buffer, s.buffer)
    ensures Turned(keys, s).Halt? ==> Subsequence(Turned(keys, s).state.buffer, s.buffer)
  {
    hide ExtractOneEvent, Terminator, IncompleteOrphanedTail, CompleteOrphanedTail, Subsequence;
    forall n: nat | n <= |s.buffer| ensures Subsequence(s.buffer[n..], s.buffer) { SubsequenceSuffix(s.buffer, n); }
    assert s.buffer[|s.buffer|..] == [] && s.buffer[0..] == s.buffer;
    SubsequenceRefl(s.buffer);
    if Turned(keys, s).Next? {
      var t, chunks := Turned(keys, s).state, Turned(keys, s).chunks;
      if chunks == [] {
        assert Flatten(chunks) + t.buffer == t.buffer;
      } else {
        assert chunks[1..] == [] && Flatten(chunks) == chunks[0];
        assert chunks[0] + t.buffer == s.buffer;
      }
    }
  }

  lemma {:induction false} DrainEmitsInOrder(keys: KeyDecoder, s: State)
    ensures Subsequence(Flatten(Drain(keys, s).chunks) + Drain(keys, s).state.buffer, s.buffer)
    decreases |s.buffer|, s.discardUntil.Some?, s.loneEscapeRecentlyFlushed
  {
    hide Turned, Drain, Subsequence;
    DrainUnfold(keys, s);
    TurnEmitsInOrder(keys, s);
    var t := Turned(keys, s).state;
    if Turned(keys, s).Halt? {
      assert Flatten([]) + t.buffer == t.buffer;
    } else {
      TurnShrinks(keys, s);
      var chunks, rest := Turned(keys, s).chunks, Drain(keys, t);
      DrainEmitsInOrder(keys, t);
      assert t.buffer + [] == t.buffer && s.buffer + [] == s.buffer;
      EmitsAfter(chunks, t.buffer, rest.chunks, rest.state.buffer, [], s.buffer);
    }
  }

  /** Emission in order composes: what the first step leaves, with new bytes, feeds the second. */
  lemma EmitsAfter(first: seq<seq<byte>>, held: seq<byte>, second: seq<seq<byte>>, left: seq<byte>, more: seq<byte>,
                   from: seq<byte>)
    requires Subsequence(Flatten(first) + held, from)
    requires Subsequence(Flatten(second) + left, held + more)
    ensures Subsequence(Flatten(first + second) + left, from + more)
  {
    FlattenConcat(first, second);
    BytesAfter(Flatten(first), held, Flatten(second) + left, more, from);
    Associate(Flatten(first), Flatten(second), left);
  }

  lemma BytesAfter(first: seq<byte>, held: seq<byte>, later: seq<byte>, more: seq<byte>, from: seq<byte>)
    requires Subsequence(first + held, from)
    requires Subsequence(later, held + more)
    ensures Subsequence(first + later, from + more)
  {
    hide *;
    SubsequenceRefl(first);
    SubsequenceRefl(more);
    SubsequenceConcat(first, first, later, held + more);
    SubsequenceConcat(first + held, from, more, more);
    Associate(first, held, more);
    SubsequenceTrans(first + later, first + held + more, from + more);
  }

  lemma Associate(a: seq<byte>, b: seq<byte>, c: seq<byte>)
    ensures (a + b) + c == a + (b + c)
  {
  }

  // --- Idle flushes ---

  /** What a flush may leave in the buffer when nothing is being discarded. */
  predicate MayWait(b: seq<byte>) {
    || b == [] || b == [ESC]
    || UnterminatedPaste(b)
    || IncompleteColorReply(b)
    || IncompleteScalar(b)
    || (b[0] == ESC && IncompleteScalar(b[1..]))
  }

  lemma HaltedWithFlag(keys: KeyDecoder, s: State)
    requires s.loneEscapeRecentlyFlushed && Turned(keys, s).Halt?
    ensures IncompleteOrphanedTail(s.buffer) && CompleteOrphanedTail(s.buffer).None?
    ensures s.buffer == [] || s.buffer[0] == 0x5b
  {
    var end := Terminator(s.buffer, OrphanedSgrMouseTail);
    if end.Some? {
      assert TerminatedAt(s.buffer, OrphanedSgrMouseTail, end.value);
    }
  }

  lemma FlushKeeps(keys: KeyDecoder, s: State)
    requires Invariant(s) && Turned(keys, s) == Halt(s)
    ensures Invariant(FlushDrained(keys, s).state)
    ensures var t := FlushDrained(keys, s).state;
            if t.discardUntil.Some? then t.buffer == [] || t.buffer == [ESC] else MayWait(t.buffer)
  {
    if s.loneEscapeRecentlyFlushed { HaltedWithFlag(keys, s); }
    hide Turned, Terminator, PlausibleTail, CompleteOrphanedTail, IncompleteOrphanedTail;
  }

  lemma FlushEmitsInOrder(keys: KeyDecoder, s: State)
    ensures Subsequence(Flatten(FlushDrained(keys, s).chunks) + FlushDrained(keys, s).state.buffer, s.buffer)
  {
    FlushHoldsOrEmits(keys, s);
    hide FlushDrained, Subsequence;
    var o, b := FlushDrained(keys, s), s.buffer;
    SubsequenceRefl(b);
    if o.chunks == [b] {
      assert Flatten([b]) == b + Flatten([b][1..]);
      assert b + [] == b;
    } else {
      assert Flatten(o.chunks) + o.state.buffer == o.state.buffer;
      if o.state.buffer != b {
        var n := |b| - |o.state.buffer|;
        assert o.state.buffer == b[n..];
        SubsequenceSuffix(b, n);
      }
    }
  }

  predicate TailOf(t: seq<byte>, b: seq<byte>) {
    |t| <= |b| && t == b[|b| - |t|..]
  }

  lemma Tails(b: seq<byte>)
    ensures TailOf([], b) && TailOf(b, b)
    ensures b != [] ==> TailOf([b[|b| - 1]], b)
    ensures forall n :: 0 <= n <= |b| ==> TailOf(b[n..], b)
  {
    assert b[|b|..] == [] && b[0..] == b;
    if b != [] { assert b[|b| - 1..] == [b[|b| - 1]]; }
  }

  /** A flush emits all it holds or nothing, and keeps all, nothing, or a tail of it. */
  lemma FlushHoldsOrEmits(keys: KeyDecoder, s: State)
    ensures var o, b := FlushDrained(keys, s), s.buffer;
            (o.chunks == [b] && o.state.buffer == []) || (o.chunks == [] && TailOf(o.state.buffer, b))
  {
    hide Terminator, PlausibleTail, IncompleteOrphanedTail, UnterminatedPaste, IncompleteColorReply, TailOf,
         IncompleteColorSchemeReport, ControlStringOf, IncompleteSgrMouse, Valid, IncompleteScalar,
         CompleteOrphanedTail;
    Tails(s.buffer);
  }

  // --- Calls and runs ---

  lemma ApplyKeepsInvariant(keys: KeyDecoder, s: State, input: Input)
    requires Invariant(s)
    ensures Invariant(Apply(keys, s, input).state)
  {
    hide Drain, FlushDrained, Turned;
    match input
    case Bytes(data) => DrainKeeps(keys, Append(s, data));
    case Idle =>
      DrainKeeps(keys, s);
      FlushKeeps(keys, Drain(keys, s).state);
    case _ =>
  }

  lemma {:induction false} RunKeepsInvariant(keys: KeyDecoder, s: State, inputs: seq<Input>)
    requires Invariant(s)
    ensures Invariant(Run(keys, s, inputs).state)
    decreases |inputs|
  {
    hide Apply;
    if inputs != [] {
      ApplyKeepsInvariant(keys, s, inputs[0]);
      RunKeepsInvariant(keys, Apply(keys, s, inputs[0]).state, inputs[1..]);
    }
  }

  lemma ApplyEmitsInOrder(keys: KeyDecoder, s: State, input: Input)
    ensures var o := Apply(keys, s, input);
            Subsequence(Flatten(o.chunks) + o.state.buffer, s.buffer + (if input.Bytes? then input.data else []))
  {
    hide Drain, FlushDrained, Turned, Subsequence;
    assert s.buffer + [] == s.buffer;
    match input
    case Bytes(data) => DrainEmitsInOrder(keys, Append(s, data));
    case Idle =>
      DrainEmitsInOrder(keys, s);
      var d := Drain(keys, s);
      FlushEmitsInOrder(keys, d.state);
      var f := FlushDrained(keys, d.state);
      assert d.state.buffer + [] == d.state.buffer;
      EmitsAfter(d.chunks, d.state.buffer, f.chunks, f.state.buffer, [], s.buffer);
    case _ =>
      SubsequenceRefl(s.buffer);
      assert Flatten([]) + s.buffer == s.buffer;
  }

  /** Over every run, the emitted bytes and then the held ones are an in-order part of what was read. */
  lemma {:induction false} RunEmitsInOrder(keys: KeyDecoder, s: State, inputs: seq<Input>)
    ensures Subsequence(Flatten(Run(keys, s, inputs).chunks) + Run(keys, s, inputs).state.buffer,
                        s.buffer + Fed(inputs))
    decreases |inputs|
  {
    hide Apply, Subsequence;
    if inputs == [] {
      SubsequenceRefl(s.buffer);
      assert Flatten([]) + s.buffer == s.buffer && s.buffer + [] == s.buffer;
    } else {
      var first := Apply(keys, s, inputs[0]);
      var rest := Run(keys, first.state, inputs[1..]);
      var data := if inputs[0].Bytes? then inputs[0].data else [];
      ApplyEmitsInOrder(keys, s, inputs[0]);
      RunEmitsInOrder(keys, first.state, inputs[1..]);
      EmitsAfter(first.chunks, first.state.buffer, rest.chunks, rest.state.buffer, Fed(inputs[1..]), s.buffer + data);
      Associate(s.buffer, data, Fed(inputs[1..]));
    }
  }

  /** After an idle flush nothing is held but what is known to be waiting for more. */
  lemma SurvivesTimeout(keys: KeyDecoder, s: State)
    requires Invariant(s)
    ensures var t := FlushTimeout(keys, s).state;
            if t.discardUntil.Some? then t.buffer == [] || t.buffer == [ESC] else MayWait(t.buffer)
  {
    hide Drain, FlushDrained, Turned, MayWait;
    DrainKeeps(keys, s);
    FlushKeeps(keys, Drain(keys, s).state);
  }

  /** Escape alone is a key press: it is emitted once, by the first or the second of two idle flushes;
      the first holds it only while a colour reply is awaited and none was held before. */
  lemma LoneEscapeIsEmitted(keys: KeyDecoder, s: State)
    requires s.buffer == [ESC] && s.discardUntil.None? && !s.loneEscapeRecentlyFlushed
    ensures var first := FlushTimeout(keys, s);
            var second := FlushTimeout(keys, first.state);
            && first.chunks + second.chunks == [[ESC]]
            && second.state.buffer == []
            && (first.chunks == [] <==> s.hostColorRepliesAwaited > 0 && !s.heldPendingColorEsc)
  {
    FlushOfLoneEscape(keys, s);
    var first := FlushTimeout(keys, s);
    hide FlushTimeout;
    if first.chunks == [] {
      FlushOfLoneEscape(keys, first.state);
    } else {
      FlushOfNothing(keys, first.state);
    }
  }

  lemma FlushOfLoneEscape(keys: KeyDecoder, s: State)
    requires s.buffer == [ESC] && s.discardUntil.None? && !s.loneEscapeRecentlyFlushed
    ensures FlushTimeout(keys, s) ==
            if s.hostColorRepliesAwaited > 0 && !s.heldPendingColorEsc then Outcome(s.(heldPendingColorEsc := true), [])
            else Outcome(s.(buffer := [], hostColorRepliesAwaited := 0, heldPendingColorEsc := false,
                            loneEscapeRecentlyFlushed := true), [[ESC]])
  {
    hide Drain, Terminator;
    assert ExtractOneEvent(keys, [ESC]).None?;
    DrainUnfold(keys, s);
  }

  lemma FlushOfNothing(keys: KeyDecoder, s: State)
    requires s.buffer == [] && s.discardUntil.None?
    ensures FlushTimeout(keys, s) == Outcome(s, [])
  {
    hide Drain;
    DrainUnfold(keys, s);
  }
}

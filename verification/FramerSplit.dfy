/** Frames do not depend on how the byte stream was cut into reads. */
module FramerSplit {
  import opened Bytes
  import opened InputEvents
  import opened Utf8
  import opened FramerSpec

  /** Neither of the two modes that swallow an orphaned mouse tail. */
  predicate Plain(s: State) {
    !s.loneEscapeRecentlyFlushed && s.discardUntil != Some(OrphanedSgrMouseTail)
  }

  /** No discard and no lone-ESC flag: every byte read is framed. */
  predicate Framing(s: State) {
    !s.loneEscapeRecentlyFlushed && s.discardUntil.None?
  }

  // --- Nothing is lost or moved while framing ---

  lemma FramingTurn(keys: KeyDecoder, s: State)
    requires Framing(s)
    ensures Turned(keys, s).Halt? ==> Turned(keys, s).state == s
    ensures Turned(keys, s).Next? ==>
              && Framing(Turned(keys, s).state) && |Turned(keys, s).state.buffer| < |s.buffer|
              && Flatten(Turned(keys, s).chunks) + Turned(keys, s).state.buffer == s.buffer
  {
    if Turned(keys, s).Next? {
      var n := ExtractOneEvent(keys, s.buffer).value.len;
      assert Flatten([s.buffer[..n]]) == s.buffer[..n];
    }
  }

  lemma {:induction false} DrainConserves(keys: KeyDecoder, s: State)
    requires Framing(s)
    ensures Framing(Drain(keys, s).state)
    ensures Flatten(Drain(keys, s).chunks) + Drain(keys, s).state.buffer == s.buffer
    decreases |s.buffer|
  {
    hide Turned, Drain;
    DrainUnfold(keys, s);
    FramingTurn(keys, s);
    if Turned(keys, s).Next? {
      var t, chunks := Turned(keys, s).state, Turned(keys, s).chunks;
      DrainConserves(keys, t);
      FlattenConcat(chunks, Drain(keys, t).chunks);
    }
  }

  /** From a framing state, the chunks of any series of pushes, then the buffer, spell out the input. */
  lemma {:induction false} PushesConserve(keys: KeyDecoder, s: State, inputs: seq<Input>)
    requires Framing(s) && ReadsAndFlushes(inputs) && Idle !in inputs
    ensures Framing(Run(keys, s, inputs).state)
    ensures Flatten(Run(keys, s, inputs).chunks) + Run(keys, s, inputs).state.buffer == s.buffer + Fed(inputs)
    decreases |inputs|
  {
    hide Drain, Run, Fed, ReadsAndFlushes;
    if inputs == [] {
      RunOfNothing(keys, s);
      assert Flatten([]) + s.buffer == s.buffer + [];
    } else {
      if !inputs[0].Bytes? { RunFlush(keys, s, inputs); }
      RunRead(keys, s, inputs);
      var data := inputs[0].data;
      var first := Push(keys, s, data);
      var rest := Run(keys, first.state, inputs[1..]);
      DrainConserves(keys, Append(s, data));
      PushesConserve(keys, first.state, inputs[1..]);
      FlattenConcat(first.chunks, rest.chunks);
      Reassociate(Flatten(first.chunks), Flatten(rest.chunks), rest.state.buffer,
                  first.state.buffer, Fed(inputs[1..]), s.buffer, data);
    }
  }

  lemma Reassociate(a: seq<byte>, b: seq<byte>, c: seq<byte>, held: seq<byte>, fed: seq<byte>, start: seq<byte>,
                    data: seq<byte>)
    requires b + c == held + fed && a + held == start + data
    ensures (a + b) + c == start + (data + fed)
  {
    assert (a + b) + c == a + (b + c);
    assert a + (held + fed) == (a + held) + fed;
    assert (start + data) + fed == start + (data + fed);
  }

  // --- Appending bytes after a drain ---

  lemma TurnedExtends(keys: KeyDecoder, s: State, e: seq<byte>)
    requires Plain(s) && Turned(keys, s).Next?
    ensures Plain(Turned(keys, s).state)
    ensures Turned(keys, Append(s, e)) == Next(Append(Turned(keys, s).state, e), Turned(keys, s).chunks)
  {
    hide ExtractOneEvent, Terminator, ScanOrphanedTail, IncompleteOrphanedTail, ClearFlag;
    var b := s.buffer;
    if s.discardUntil.Some? {
      TerminatorExtends(b, e, s.discardUntil.value);
      var n := Terminator(b, s.discardUntil.value).value;
      assert (b + e)[n..] == b[n..] + e;
    } else {
      ExtractExtends(keys, b, e);
      var n := ExtractOneEvent(keys, b).value.len;
      assert (b + e)[n..] == b[n..] + e && (b + e)[..n] == b[..n];
    }
  }

  lemma {:induction false} DrainAppend(keys: KeyDecoder, s: State, e: seq<byte>)
    requires Plain(s)
    ensures Plain(Drain(keys, s).state)
    ensures Drain(keys, Append(s, e)) ==
            Prepend(Drain(keys, s).chunks, Drain(keys, Append(Drain(keys, s).state, e)))
    decreases |s.buffer|, s.discardUntil.Some?
  {
    DrainUnfold(keys, s);
    if Turned(keys, s).Next? {
      var t, chunks := Turned(keys, s).state, Turned(keys, s).chunks;
      TurnShrinks(keys, s);
      TurnedExtends(keys, s, e);
      DrainUnfold(keys, Append(s, e));
      DrainAppend(keys, t, e);
      var rest := Drain(keys, t);
      PrependTwice(chunks, rest.chunks, Drain(keys, Append(rest.state, e)));
    }
  }

  // --- Orphaned mouse tails under a cut ---

  lemma IncompleteTailShortens(x: seq<byte>, e: seq<byte>)
    requires IncompleteOrphanedTail(x + e)
    ensures IncompleteOrphanedTail(x)
  {
    PrefixExtends([0x5b, 0x3c], x, e);
    assert forall i :: 0 <= i < |x| ==> (x + e)[i] == x[i];
  }

  lemma CompleteTailExtends(x: seq<byte>, e: seq<byte>)
    ensures CompleteOrphanedTail(x).Some? ==> CompleteOrphanedTail(x + e) == CompleteOrphanedTail(x)
    ensures CompleteOrphanedTail(x).None? && CompleteOrphanedTail(x + e).Some? ==>
              CompleteOrphanedTail(x + e).value > |x|
  {
    TerminatorExtends(x, e, OrphanedSgrMouseTail);
    var end := Terminator(x, OrphanedSgrMouseTail);
    if end.Some? {
      assert (x + e)[..end.value] == x[..end.value];
    }
  }

  /** The budget is spent on parameter bytes before the report ends. */
  predicate Overruns(x: seq<byte>, discarded: nat) {
    |x| > Remaining(discarded) && forall i :: 0 <= i < Remaining(discarded) ==> IsTailParameter(x[i])
  }

  lemma UnendedScan(x: seq<byte>, d: nat)
    requires !ScanOrphanedTail(x, d).ended
    ensures |x| <= Remaining(d) && ScanOrphanedTail(x, d) == TailScan([], d + |x|, false)
    ensures forall i :: 0 <= i < |x| ==> !IsNotTailParameter(x[i])
  {
    hide FirstIndexFrom;
    assert x[..|x|] == x;
  }

  /** A scan that ran out of bytes resumes on the next bytes where one scan of both would be. */
  lemma ScanResumes(x: seq<byte>, e: seq<byte>, d: nat)
    requires !ScanOrphanedTail(x, d).ended
    ensures ScanOrphanedTail(x, d) == TailScan([], d + |x|, false)
    ensures var whole, later := ScanOrphanedTail(x + e, d), ScanOrphanedTail(e, d + |x|);
            whole.ended == later.ended && whole.buffer == later.buffer && (!whole.ended ==> whole == later)
  {
    hide FirstIndexFrom;
    UnendedScan(x, d);
    var v := e[..Min(|e|, Remaining(d + |x|))];
    assert (x + e)[..Min(|x + e|, Remaining(d))] == x + v;
    FirstIndexSkips(x, v, IsNotTailParameter);
    var j := FirstIndexFrom(v, IsNotTailParameter, 0);
    if j.Some? {
      assert (x + e)[|x| + j.value] == e[j.value];
      assert (x + e)[|x| + j.value..] == e[j.value..] && (x + e)[|x| + j.value + 1..] == e[j.value + 1..];
    }
  }

  /** A scan that met the end of the report inside the budget is not changed by later bytes. */
  lemma ScanExtends(x: seq<byte>, e: seq<byte>, d: nat)
    requires ScanOrphanedTail(x, d).ended
    ensures Overruns(x, d) ==> ScanOrphanedTail(x, d).buffer == [] && ScanOrphanedTail(x + e, d).buffer == []
    ensures !Overruns(x, d) ==> ScanOrphanedTail(x + e, d).buffer == ScanOrphanedTail(x, d).buffer + e
    ensures ScanOrphanedTail(x + e, d).ended
  {
    hide FirstIndexFrom;
    var w, v := x[..Min(|x|, Remaining(d))], (x + e)[..Min(|x + e|, Remaining(d))];
    var i, j := FirstIndexFrom(w, IsNotTailParameter, 0), FirstIndexFrom(v, IsNotTailParameter, 0);
    assert forall k :: 0 <= k < |w| ==> v[k] == w[k] == x[k];
    if i.Some? {
      assert IsNotTailParameter(v[i.value]);
      FirstIndexIs(v, IsNotTailParameter, i.value);
      assert (x + e)[i.value..] == x[i.value..] + e && (x + e)[i.value + 1..] == x[i.value + 1..] + e;
    } else {
      assert w == v;
    }
  }

  // --- The law and its exact exception ---

  predicate SplitAgrees(keys: KeyDecoder, s: State, a: seq<byte>, b: seq<byte>) {
    var first := Push(keys, s, a);
    Push(keys, s, a + b) == Prepend(first.chunks, Push(keys, first.state, b))
  }

  /** The cuts that change the frames: with the lone-ESC flag set, what came before the cut can no longer
      start an orphaned mouse tail although the whole is one; while swallowing the rest of a mouse report,
      the budget overruns before the cut. */
  predicate SplitBreaks(s: State, a: seq<byte>, b: seq<byte>) {
    var x := s.buffer + a;
    if s.loneEscapeRecentlyFlushed then
      && !IncompleteOrphanedTail(x)
      && CompleteOrphanedTail(x).None? && CompleteOrphanedTail(x + b).Some?
    else
      s.discardUntil == Some(OrphanedSgrMouseTail) && Overruns(x, s.discardedTailBytes) && b != []
  }

  lemma DrainsDiffer(keys: KeyDecoder, s: State, t: State)
    requires Framing(s) && Framing(t) && |s.buffer| != |t.buffer|
    ensures Drain(keys, s) != Drain(keys, t)
  {
    DrainConserves(keys, s);
    DrainConserves(keys, t);
  }

  /** What draining `x`, then appending and draining again, comes to. */
  function InTwo(keys: KeyDecoder, x: State, b: seq<byte>): Outcome {
    Prepend(Drain(keys, x).chunks, Drain(keys, Append(Drain(keys, x).state, b)))
  }

  /** When the first turn leaves a plain state and no chunk, the rest of the drain splits cleanly. */
  lemma InTwoAfterTurn(keys: KeyDecoder, x: State, t: State, b: seq<byte>)
    requires Turned(keys, x) == Next(t, []) && Plain(t)
    ensures InTwo(keys, x, b) == Drain(keys, Append(t, b))
  {
    hide Drain, Turned;
    DrainUnfold(keys, x);
    PrependNothing(Drain(keys, t));
    DrainAppend(keys, t, b);
  }

  lemma ClearFlagExtends(x: State, b: seq<byte>)
    requires CompleteOrphanedTail(x.buffer).Some? || CompleteOrphanedTail(x.buffer + b).None?
    ensures ClearFlag(Append(x, b)) == Append(ClearFlag(x), b)
  {
    hide CompleteOrphanedTail;
    CompleteTailExtends(x.buffer, b);
    var tail := CompleteOrphanedTail(x.buffer);
    if tail.Some? {
      assert (x.buffer + b)[tail.value..] == x.buffer[tail.value..] + b;
    }
  }

  lemma SplitAfterLoneEscape(keys: KeyDecoder, x: State, b: seq<byte>)
    requires x.loneEscapeRecentlyFlushed && x.discardUntil.None?
    ensures Drain(keys, Append(x, b)) == InTwo(keys, x, b) <==> !SplitBreaks(x, [], b)
  {
    hide Drain, ExtractOneEvent, IncompleteOrphanedTail, CompleteOrphanedTail;
    assert x.buffer + [] == x.buffer;
    DrainUnfold(keys, x);
    DrainUnfold(keys, Append(x, b));
    if IncompleteOrphanedTail(x.buffer) {
      PrependNothing(Drain(keys, Append(x, b)));
    } else {
      if IncompleteOrphanedTail(x.buffer + b) { IncompleteTailShortens(x.buffer, b); }
      var t, u := ClearFlag(x), ClearFlag(Append(x, b));
      InTwoAfterTurn(keys, x, t, b);
      PrependNothing(Drain(keys, u));
      if SplitBreaks(x, [], b) {
        DrainsDiffer(keys, u, Append(t, b));
      } else {
        ClearFlagExtends(x, b);
      }
    }
  }

  lemma SplitInMouseTail(keys: KeyDecoder, x: State, b: seq<byte>)
    requires !x.loneEscapeRecentlyFlushed && x.discardUntil == Some(OrphanedSgrMouseTail)
    ensures Drain(keys, Append(x, b)) == InTwo(keys, x, b) <==> !SplitBreaks(x, [], b)
  {
    hide Drain, ExtractOneEvent, ScanOrphanedTail, Overruns;
    assert x.buffer + [] == x.buffer;
    DrainUnfold(keys, x);
    DrainUnfold(keys, Append(x, b));
    var t := Turned(keys, x).state;
    if !ScanOrphanedTail(x.buffer, x.discardedTailBytes).ended {
      ScanResumes(x.buffer, b, x.discardedTailBytes);
      DrainUnfold(keys, Append(t, b));
      PrependNothing(Drain(keys, Append(t, b)));
      assert [] + b == b;
      assert !Overruns(x.buffer, x.discardedTailBytes) by { NoOverrun(x.buffer, x.discardedTailBytes); }
    } else {
      ScanExtends(x.buffer, b, x.discardedTailBytes);
      InTwoAfterTurn(keys, x, t, b);
      var u := Turned(keys, Append(x, b)).state;
      PrependNothing(Drain(keys, u));
      if SplitBreaks(x, [], b) {
        DrainsDiffer(keys, u, Append(t, b));
      } else if Overruns(x.buffer, x.discardedTailBytes) {
        assert Append(t, b) == u;
      }
    }
  }

  lemma NoOverrun(x: seq<byte>, d: nat)
    requires !ScanOrphanedTail(x, d).ended
    ensures !Overruns(x, d)
  {
  }

  /** Split invariance, exactly: two pushes give the chunks and the state of one push of both, if and
      only if the cut is not one of the two that break it. An active discard excludes the lone-ESC flag
      in every reachable state (`FramerRuns.RunKeepsInvariant`). */
  lemma SplitInvariance(keys: KeyDecoder, s: State, a: seq<byte>, b: seq<byte>)
    requires s.discardUntil.Some? ==> !s.loneEscapeRecentlyFlushed
    ensures SplitAgrees(keys, s, a, b) <==> !SplitBreaks(s, a, b)
  {
    hide Drain, CompleteOrphanedTail, IncompleteOrphanedTail, Overruns;
    var x := Append(s, a);
    assert s.buffer + (a + b) == (s.buffer + a) + b;
    assert x.buffer + [] == x.buffer;
    if s.loneEscapeRecentlyFlushed {
      SplitAfterLoneEscape(keys, x, b);
    } else if s.discardUntil == Some(OrphanedSgrMouseTail) {
      SplitInMouseTail(keys, x, b);
    } else {
      DrainAppend(keys, x, b);
    }
  }

  // --- Both exceptions happen ---

  /** After a flushed ESC, `[<+` and `1;1;1M` read together are a mouse report tail, because a number may
      carry a plus sign; read apart they are typed text. */
  lemma PlusSignBreaksSplit(keys: KeyDecoder)
    ensures var s := Run(keys, INITIAL, [Bytes([ESC]), Idle]).state;
            !SplitAgrees(keys, s, [0x5b, 0x3c, PLUS], [0x31, SEMICOLON, 0x31, SEMICOLON, 0x31, 0x4d])
  {
    hide Drain, Run;
    var s := INITIAL.(loneEscapeRecentlyFlushed := true);
    EscapeFlushed(keys);
    var a: seq<byte> := [0x5b, 0x3c, PLUS];
    var b: seq<byte> := [0x31, SEMICOLON, 0x31, SEMICOLON, 0x31, 0x4d];
    PlusSignReport();
    assert s.buffer + a == a;
    assert !IsTailParameter(a[2]);
    assert forall i :: 0 <= i < 3 ==> !IsMouseFinal(a[i]);
    SplitInvariance(keys, s, a, b);
  }

  lemma PlusSignReport()
    ensures CompleteOrphanedTail([0x5b, 0x3c, PLUS] + [0x31, SEMICOLON, 0x31, SEMICOLON, 0x31, 0x4d]) == Some(9)
  {
    hide ParseSgrMouse, Valid, Terminator;
    var x: seq<byte> := [0x5b, 0x3c, PLUS] + [0x31, SEMICOLON, 0x31, SEMICOLON, 0x31, 0x4d];
    assert TerminatedAt(x, OrphanedSgrMouseTail, 9);
    assert forall j :: 0 <= j < 9 ==> !TerminatedAt(x, OrphanedSgrMouseTail, j);
    assert Terminator(x, OrphanedSgrMouseTail) == Some(9);
    assert [ESC] + x[..9] == [ESC, 0x5b, 0x3c, PLUS, 0x31, SEMICOLON, 0x31, SEMICOLON, 0x31, 0x4d];
    AsciiIsValid([ESC, 0x5b, 0x3c, PLUS, 0x31, SEMICOLON, 0x31, SEMICOLON, 0x31, 0x4d]);
    PlusSignParses();
  }

  lemma PlusSignParses()
    ensures ParseSgrMouse([ESC, 0x5b, 0x3c, PLUS, 0x31, SEMICOLON, 0x31, SEMICOLON, 0x31, 0x4d]).Some?
  {
    hide SplitOn, ParseUnsigned;
    var report: seq<byte> := [ESC, 0x5b, 0x3c, PLUS, 0x31, SEMICOLON, 0x31, SEMICOLON, 0x31, 0x4d];
    var fields: seq<byte> := [PLUS, 0x31, SEMICOLON, 0x31, SEMICOLON, 0x31];
    assert report[3..9] == fields;
    SplitOnStep(fields, SEMICOLON, 2);
    SplitOnStep([0x31, SEMICOLON, 0x31], SEMICOLON, 1);
    SplitOnNone([0x31], SEMICOLON);
    assert fields[3..] == [0x31, SEMICOLON, 0x31] && fields[..2] == [PLUS, 0x31];
    assert [0x31, SEMICOLON, 0x31][..1] == [0x31] && [0x31, SEMICOLON, 0x31][2..] == [0x31];
    OneParses(255);
    OneParses(65535);
  }

  lemma OneParses(max: nat)
    requires max >= 1
    ensures ParseUnsigned([0x31], max) == Some(1)
    ensures ParseUnsigned([PLUS, 0x31], max) == Some(1)
  {
    assert [PLUS, 0x31][1..] == [0x31];
    assert IsDigit([0x31][0]);
    assert DigitsValue([0x31]) == 1;
  }

  /** A mouse report that timed out behind `ESC[<` and then overruns the 128-byte budget takes along whatever
      was read with it. */
  lemma OverrunBreaksSplit(keys: KeyDecoder, c: byte)
    ensures var s := Run(keys, INITIAL, [Bytes([ESC, 0x5b, 0x3c]), Idle]).state;
            !SplitAgrees(keys, s, seq(126, _ => 0x30), [c])
  {
    hide Drain, Run;
    var s := INITIAL.(discardUntil := Some(OrphanedSgrMouseTail), discardedTailBytes := 3);
    TimedOutMouseStart(keys);
    var a: seq<byte> := seq(126, _ => 0x30);
    assert s.buffer + a == a;
    SplitInvariance(keys, s, a, [c]);
  }

  lemma EscapeFlushed(keys: KeyDecoder)
    ensures Run(keys, INITIAL, [Bytes([ESC]), Idle]) == Outcome(INITIAL.(loneEscapeRecentlyFlushed := true), [[ESC]])
  {
    hide Run, Terminator;
    assert ExtractOneEvent(keys, [ESC]).None?;
    ReadThenIdle(keys, [ESC]);
  }

  lemma TimedOutMouseStart(keys: KeyDecoder)
    ensures Run(keys, INITIAL, [Bytes([ESC, 0x5b, 0x3c]), Idle]).state
         == INITIAL.(discardUntil := Some(OrphanedSgrMouseTail), discardedTailBytes := 3)
  {
    hide Run, Terminator, Valid;
    assert CompleteEscapeSequenceLen([ESC, 0x5b, 0x3c]).None?;
    ReadThenIdle(keys, [ESC, 0x5b, 0x3c]);
  }
}

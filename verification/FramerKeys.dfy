/** Alt keys, and what else an idle flush keeps or emits. */
module FramerKeys {
  import opened Bytes
  import opened Utf8
  import opened InputEvents
  import opened InputKeys
  import opened FramerSpec
  import opened FramerSplit
  import opened FramerRuns
  import opened FramerUnits
  import opened FramerPaste
  import opened FramerDiscards
  import opened FramerEscaped

  // --- Alt and a character ---

  lemma AltIsHeld(keys: KeyDecoder, cp: int)
    requires IsScalar(cp) && !Opens(Encode(cp)[0])
    ensures HeldFrom(keys, [ESC] + Encode(cp), 2, KeyOr(keys, [ESC] + Encode(cp)))
  {
    hide ExtractOneEvent, Encode, IncompleteScalar;
    var w := [ESC] + Encode(cp);
    AltFramed(keys, cp, []);
    assert w + [] == w;
    forall n | 2 <= n < |w| ensures Held(keys, w[..n]) {
      StrictPrefixIncomplete(cp, n - 1);
      assert w[..n][0] == ESC && w[..n][1..] == Encode(cp)[..n - 1];
    }
  }

  /** An ESC and a character, cut anywhere by reads and flushed anywhere, come out as one chunk if and only if no
      idle flush finds the ESC alone, but for one while a colour reply is awaited. */
  lemma AltArrivesWholeIff(keys: KeyDecoder, s: State, cp: int, inputs: seq<Input>)
    requires IsScalar(cp) && !Opens(Encode(cp)[0]) && Framing(s) && s.buffer == []
    requires ReadsAndFlushes(inputs) && Fed(inputs) == [ESC] + Encode(cp)
    ensures var w := [ESC] + Encode(cp);
            var o, fits := Run(keys, s, inputs), EscapedFlushesFit(inputs, 0, MayHold(s), 2, |w|);
            && (o.chunks == [w] <==> fits)
            && (fits ==> o.state == s.(heldPendingColorEsc := false))
  {
    hide Run, Encode, EscapedFlushesFit, ExtractOneEvent, Held;
    var w := [ESC] + Encode(cp);
    AltIsHeld(keys, cp);
    assert LostBefore(keys, w, 2);
    assert [] + Fed(inputs) == Fed(inputs);
    RunEscaped(keys, s, w, 2, KeyOr(keys, w), inputs);
  }

  // --- What an idle flush keeps ---

  /** An open paste; a colour reply with its command and without its end; part of a character, with or without an
      ESC in front. */
  ghost predicate Waits(b: seq<byte>) {
    || (BRACKETED_PASTE_START <= b && !Contains(b, BRACKETED_PASTE_END))
    || (|b| >= 5 && b[..3] == [ESC, 0x5d, 0x31] && (b[3] == 0x30 || b[3] == 0x31) && b[4] == 0x3b &&
        forall n :: 0 <= n <= |b| ==> !StringEnds(b, n, true))
    || (exists cp, n :: IsScalar(cp) && 0 < n < |Encode(cp)| && (b == Encode(cp)[..n] || b == [ESC] + Encode(cp)[..n]))
  }

  lemma WaitsIff(b: seq<byte>)
    requires b != []
    ensures Waits(b) <==>
            || UnterminatedPaste(b) || IncompleteColorReply(b) || IncompleteScalar(b)
            || (b[0] == ESC && IncompleteScalar(b[1..]))
  {
    hide Terminator, FindSubsequence, Contains, StringEnds, TerminatedAt, IncompleteScalar, Encode, ControlStringOf;
    OpenPasteIff(b);
    OpenReplyIff(b);
    IncompleteIffStrictPrefix(b);
    IncompleteIffStrictPrefix(b[1..]);
    if b[0] == ESC && IncompleteScalar(b[1..]) {
      var cp :| IsScalar(cp) && 0 < |b[1..]| < |Encode(cp)| && Encode(cp)[..|b[1..]|] == b[1..];
      assert b == [ESC] + Encode(cp)[..|b[1..]|];
    }
    if cp, n :| IsScalar(cp) && 0 < n < |Encode(cp)| && b == [ESC] + Encode(cp)[..n] {
      assert b[1..] == Encode(cp)[..n];
    }
  }

  lemma OpenPasteIff(b: seq<byte>)
    ensures UnterminatedPaste(b) <==> BRACKETED_PASTE_START <= b && !Contains(b, BRACKETED_PASTE_END)
  {
  }

  lemma OpenReplyIff(b: seq<byte>)
    ensures IncompleteColorReply(b) <==>
            && |b| >= 5 && b[..3] == [ESC, 0x5d, 0x31] && (b[3] == 0x30 || b[3] == 0x31) && b[4] == 0x3b
            && forall n :: 0 <= n <= |b| ==> !StringEnds(b, n, true)
  {
    hide Terminator;
    assert forall n :: 0 <= n <= |b| ==> TerminatedAt(b, Osc, n) == StringEnds(b, n, true);
    if |b| >= 5 { assert b[..3] == [b[0], b[1], b[2]]; }
  }

  /** An idle flush leaves a framer as it is exactly when it holds nothing, or something that waits. */
  lemma FlushKeepsIff(keys: KeyDecoder, s: State)
    requires Framing(s)
    ensures FlushTimeout(keys, s) == Outcome(s, []) <==> s.buffer == [] || Waits(s.buffer)
  {
    hide Drain, Waits, FlushDrained, ExtractOneEvent, UnterminatedPaste, IncompleteColorReply, IncompleteScalar;
    if s.buffer == [] {
      FlushOfNothing(keys, s);
    } else {
      WaitsIff(s.buffer);
      DrainUnfold(keys, s);
      if ExtractOneEvent(keys, s.buffer).Some? {
        WaitingIsNoEvent(keys, s.buffer);
      } else {
        PrependNothing(FlushDrained(keys, s));
        if FlushDrained(keys, s) == Outcome(s, []) { FlushChanges(keys, s); }
        if Waits(s.buffer) { FlushHolds(keys, s); }
      }
    }
  }

  lemma WaitingIsNoEvent(keys: KeyDecoder, b: seq<byte>)
    requires b != [] && ExtractOneEvent(keys, b).Some?
    ensures !Waits(b)
  {
    hide ExtractOneEvent, Waits, UnterminatedPaste, IncompleteColorReply, IncompleteScalar;
    WaitsIff(b);
    if UnterminatedPaste(b) { OpenPasteIsNoEvent(keys, b); }
    if IncompleteColorReply(b) { OpenReplyIsNoEvent(keys, b); }
    if IncompleteScalar(b) { PartIsNoEventYet(keys, b); }
    if b[0] == ESC && IncompleteScalar(b[1..]) { AltPartIsNoEventYet(keys, b); }
  }

  lemma OpenPasteIsNoEvent(keys: KeyDecoder, b: seq<byte>)
    requires UnterminatedPaste(b)
    ensures ExtractOneEvent(keys, b).None?
  {
  }

  lemma OpenReplyIsNoEvent(keys: KeyDecoder, b: seq<byte>)
    requires IncompleteColorReply(b)
    ensures ExtractOneEvent(keys, b).None?
  {
    hide Terminator, Valid, ParseSgrMouse, EventOfSequence;
    assert b[1] == 0x5d && b[1] != BRACKETED_PASTE_START[1];
  }

  lemma PartIsNoEventYet(keys: KeyDecoder, b: seq<byte>)
    requires IncompleteScalar(b)
    ensures ExtractOneEvent(keys, b).None?
  {
    IncompleteIffStrictPrefix(b);
    var cp :| IsScalar(cp) && 0 < |b| < |Encode(cp)| && Encode(cp)[..|b|] == b;
    StrictPrefixIncomplete(cp, |b|);
    PartIsNoText(b);
  }

  lemma AltPartIsNoEventYet(keys: KeyDecoder, b: seq<byte>)
    requires b != [] && b[0] == ESC && IncompleteScalar(b[1..])
    ensures ExtractOneEvent(keys, b).None?
  {
    hide ExtractOneEvent, Encode, IncompleteScalar;
    IncompleteIffStrictPrefix(b[1..]);
    var n := |b| - 1;
    var cp :| IsScalar(cp) && 0 < n < |Encode(cp)| && Encode(cp)[..n] == b[1..];
    LongLead(cp);
    AltFramed(keys, cp, []);
    assert ([ESC] + Encode(cp))[..|b|] == b;
  }

  lemma LongLead(cp: int)
    requires IsScalar(cp) && |Encode(cp)| > 1
    ensures !Opens(Encode(cp)[0])
  {
  }

  lemma FlushChanges(keys: KeyDecoder, s: State)
    requires Framing(s) && s.buffer != [] && FlushDrained(keys, s) == Outcome(s, [])
    ensures UnterminatedPaste(s.buffer) || IncompleteColorReply(s.buffer) || IncompleteScalar(s.buffer) ||
            (s.buffer[0] == ESC && IncompleteScalar(s.buffer[1..]))
  {
    hide Terminator, UnterminatedPaste, IncompleteColorReply, IncompleteScalar, Valid, IncompleteSgrMouse,
         IncompleteColorSchemeReport, ControlStringOf;
  }

  // --- What an idle flush starts to discard, and what it emits ---

  /** A control string without its end, colour replies aside, is discarded up to it. */
  lemma FlushOfControlString(keys: KeyDecoder, s: State)
    requires Framing(s) && |s.buffer| >= 2 && s.buffer[0] == ESC && s.buffer[1] in {0x5d, 0x50, 0x5f, 0x5e, 0x58}
    requires var bel := s.buffer[1] == 0x5d; forall n :: 0 <= n <= |s.buffer| ==> !StringEnds(s.buffer, n, bel)
    requires !Waits(s.buffer)
    ensures FlushTimeout(keys, s) ==
            Outcome(s.(buffer := [], discardUntil := Some(if s.buffer[1] == 0x5d then Osc else StTerminated),
                       discardedTailBytes := 0), [])
  {
    hide Drain, Terminator, Valid, Waits, UnterminatedPaste, IncompleteColorReply, IncompleteScalar, ParseSgrMouse;
    var b, family := s.buffer, ControlStringFamily(s.buffer).value;
    var bel := b[1] == 0x5d;
    assert forall n :: 0 <= n <= |b| ==> TerminatedAt(b, family, n) == StringEnds(b, n, bel);
    WaitsIff(b);
    assert b[1] != BRACKETED_PASTE_START[1] && b[1] != SGR_MOUSE[1];
    assert CompleteEscapeSequenceLen(b).None? && ControlStringOf(b) == Some(Incomplete(family));
    DrainUnfold(keys, s);
  }

  /** Bytes that a flush finds, that are no event and do not wait, and begin no control string, mouse report or
      colour-scheme report. */
  predicate Leftover(b: seq<byte>) {
    && b != [] && b != [ESC]
    && !(|b| >= 2 && b[0] == ESC && b[1] in {0x5d, 0x50, 0x5f, 0x5e, 0x58})
    && !([ESC, 0x5b, 0x3c] <= b && forall i :: 3 <= i < |b| ==> b[i] as char in "0123456789;")
    && !(3 <= |b| < 9 && (b == SchemeReport(true)[..|b|] || b == SchemeReport(false)[..|b|]))
  }

  lemma ParameterBytes(b: byte)
    ensures IsTailParameter(b) <==> b as char in "0123456789;"
  {
    if IsDigit(b) { assert "0123456789;"[b - 0x30] == b as char; }
  }

  lemma LeftoverStartsNothing(b: seq<byte>)
    requires Leftover(b)
    ensures !IncompleteSgrMouse(b) && !IncompleteColorSchemeReport(b) && ControlStringOf(b).None?
  {
    hide Terminator, IsTailParameter;
    forall i | 0 <= i < |b| ensures IsTailParameter(b[i]) <==> b[i] as char in "0123456789;" { ParameterBytes(b[i]); }
    assert SchemeReport(true) == COLOR_SCHEME_DARK_REPORT && SchemeReport(false) == COLOR_SCHEME_LIGHT_REPORT;
    assert b <= COLOR_SCHEME_DARK_REPORT ==> b == COLOR_SCHEME_DARK_REPORT[..|b|];
    assert b <= COLOR_SCHEME_LIGHT_REPORT ==> b == COLOR_SCHEME_LIGHT_REPORT[..|b|];
  }

  /** Such bytes are emitted whole if they are a key, and dropped otherwise. */
  lemma FlushOfLeftover(keys: KeyDecoder, s: State)
    requires Framing(s) && Leftover(s.buffer) && !Waits(s.buffer) && ExtractOneEvent(keys, s.buffer).None?
    ensures FlushTimeout(keys, s) ==
            Outcome(s.(buffer := []), if Valid(s.buffer) && keys(s.buffer) then [s.buffer] else [])
  {
    hide Drain, Terminator, Valid, Waits, UnterminatedPaste, IncompleteColorReply, IncompleteScalar, ExtractOneEvent,
         Leftover, IncompleteSgrMouse, IncompleteColorSchemeReport, ControlStringOf;
    LeftoverIsMore(s.buffer);
    WaitsIff(s.buffer);
    LeftoverStartsNothing(s.buffer);
    DrainUnfold(keys, s);
  }

  lemma LeftoverIsMore(b: seq<byte>)
    requires Leftover(b)
    ensures b != [] && b != [ESC]
  {
  }
}

/** A host colour reply that is cut at its ESC, or behind its command, is put together again. */
module FramerReplies {
  import opened Bytes
  import opened Utf8
  import opened InputEvents
  import opened InputGrammar
  import opened FramerSpec
  import opened FramerSplit
  import opened FramerUnits
  import opened FramerEscaped
  import opened FramerDiscards
  import opened FramerOsc

  lemma ReplyPrefixWaits(keys: KeyDecoder, kind: ColorKind, color: seq<byte>, term: seq<byte>, n: nat)
    requires IsColorReply(color, term) && 5 <= n < |ColorReply(kind, color, term)|
    ensures Held(keys, ColorReply(kind, color, term)[..n])
  {
    hide IsColorReply, Terminator, Valid, FindSubsequence, CompleteEscapeSequenceLen;
    var w := ColorReply(kind, color, term);
    var b := w[..n];
    ColorReplyShape(kind, color, term);
    PrefixUnterminated(w, n);
    assert b[1] == w[1] && b[1] != BRACKETED_PASTE_START[1];
    UnfinishedControlString(b);
  }

  lemma PrefixUnterminated(w: seq<byte>, n: nat)
    requires n <= |w| && forall j :: 0 <= j <= n ==> !TerminatedAt(w, Osc, j)
    ensures Terminator(w[..n], Osc).None?
  {
    hide Terminator;
    assert forall j :: 0 <= j <= n ==> TerminatedAt(w[..n], Osc, j) == TerminatedAt(w, Osc, j);
  }

  lemma UnfinishedControlString(b: seq<byte>)
    requires |b| >= 2 && b[0] == ESC && b[1] == 0x5d && Terminator(b, Osc).None?
    ensures CompleteEscapeSequenceLen(b).None? && ControlStringOf(b) == Some(Incomplete(Osc))
  {
    hide Terminator, Valid, ParseSgrMouse;
  }

  lemma ReplyIsHeld(keys: KeyDecoder, kind: ColorKind, color: seq<byte>, term: seq<byte>)
    requires IsColorReply(color, term)
    ensures HeldFrom(keys, ColorReply(kind, color, term), 5, HostDefaultColor(kind, color))
  {
    hide IsRgbColor, Held, ExtractOneEvent;
    var w := ColorReply(kind, color, term);
    ColorReplyFramed(keys, kind, color, term, []);
    assert w + [] == w;
    forall n | 5 <= n < |w| ensures Held(keys, w[..n]) {
      ReplyPrefixWaits(keys, kind, color, term, n);
    }
  }

  /** A flush within the command loses what was read. */
  lemma CommandIsLost(keys: KeyDecoder, kind: ColorKind, color: seq<byte>, term: seq<byte>)
    requires IsColorReply(color, term)
    ensures LostBefore(keys, ColorReply(kind, color, term), 5)
  {
    hide FlushTimeout, IsColorReply, ColorReply, Terminator, PlainString;
    var w := ColorReply(kind, color, term);
    forall t: State, n: nat | 2 <= n < 5 && n <= |w| && Framing(t) && t.buffer == w[..n]
      ensures FlushTimeout(keys, t).chunks == [] && FlushTimeout(keys, t).state.buffer == []
    {
      ReplyStart(kind, color, term, n);
      FlushStartsOsc(keys, t, n);
    }
  }

  lemma ReplyBegins(kind: ColorKind, color: seq<byte>, term: seq<byte>)
    ensures |ColorReply(kind, color, term)| >= 5 && ColorReply(kind, color, term)[0] == ESC
  {
  }

  /** A colour reply, cut anywhere by reads and flushed anywhere, comes out as one chunk if and only if no idle
      flush falls within its command and at most one right behind its ESC, and that only while a reply is
      awaited. The chunk is that colour, and one reply less is awaited. */
  lemma ReplyArrivesWholeIff(keys: KeyDecoder, s: State, kind: ColorKind, color: seq<byte>, term: seq<byte>,
                             inputs: seq<Input>)
    requires IsColorReply(color, term) && Framing(s) && s.buffer == []
    requires ReadsAndFlushes(inputs) && Fed(inputs) == ColorReply(kind, color, term)
    ensures var w, awaited := ColorReply(kind, color, term), s.hostColorRepliesAwaited;
            var o, fits := Run(keys, s, inputs), EscapedFlushesFit(inputs, 0, MayHold(s), 5, |w|);
            && (o.chunks == [w] <==> fits)
            && (fits ==> o.state == s.(hostColorRepliesAwaited := if awaited > 0 then awaited - 1 else 0,
                                       heldPendingColorEsc := false))
            && ExtractOneEvent(keys, w) == Some(Frame(HostDefaultColor(kind, color), |w|))
  {
    hide IsColorReply, Run, ColorReply, EscapedFlushesFit, ExtractOneEvent, Held, LostBefore;
    ReplyBegins(kind, color, term);
    ReplyIsHeld(keys, kind, color, term);
    CommandIsLost(keys, kind, color, term);
    assert [] + Fed(inputs) == Fed(inputs);
    RunEscaped(keys, s, ColorReply(kind, color, term), 5, HostDefaultColor(kind, color), inputs);
  }

  // --- The window in which replies are awaited ---

  /** A query makes the framer await exactly two replies: its ESC may wait for the first, with that one come for
      the second, and with both come no more. */
  lemma QueryAwaitsTwoReplies(keys: KeyDecoder, s: State, first: ColorKind, second: ColorKind, color: seq<byte>,
                              term: seq<byte>)
    requires IsColorReply(color, term) && Framing(s) && s.buffer == []
    ensures var one, two := ColorReply(first, color, term), ColorReply(second, color, term);
            var asked := Run(keys, s, [ColorQuery]).state;
            var once := Run(keys, asked, [Bytes(one)]);
            var twice := Run(keys, once.state, [Bytes(two)]);
            && MayHold(asked) && asked.buffer == [] && Framing(asked)
            && once.chunks == [one] && MayHold(once.state) && once.state.buffer == [] && Framing(once.state)
            && twice.chunks == [two] && !MayHold(twice.state)
  {
    hide IsColorReply, Run, ColorReply, EscapedFlushesFit, ExtractOneEvent;
    var one, two := ColorReply(first, color, term), ColorReply(second, color, term);
    var asked := Run(keys, s, [ColorQuery]).state;
    RunOfQuery(keys, s);
    ReadFits(one);
    ReadFits(two);
    ReplyArrivesWholeIff(keys, asked, first, color, term, [Bytes(one)]);
    ReplyArrivesWholeIff(keys, Run(keys, asked, [Bytes(one)]).state, second, color, term, [Bytes(two)]);
  }

  lemma RunOfQuery(keys: KeyDecoder, s: State)
    ensures Run(keys, s, [ColorQuery])
         == Outcome(s.(hostColorRepliesAwaited := 2, heldPendingColorEsc := false), [])
  {
    assert [ColorQuery][1..] == [];
    var t := s.(hostColorRepliesAwaited := 2, heldPendingColorEsc := false);
    assert Run(keys, t, []) == Outcome(t, []);
  }

  lemma ReadFits(w: seq<byte>)
    ensures ReadsAndFlushes([Bytes(w)]) && Fed([Bytes(w)]) == w
    ensures forall mayHold, m, total :: EscapedFlushesFit([Bytes(w)], 0, mayHold, m, total)
  {
    assert [Bytes(w)][1..] == [] && Fed([]) == [] && w + [] == w;
  }

  /** With tracking on, a report that the colour scheme changed reopens the window; with tracking off, it does
      not touch it. */
  lemma SchemeReportReopensWindow(keys: KeyDecoder, s: State, dark: bool)
    requires Framing(s) && s.buffer == []
    ensures Run(keys, s, [Bytes(SchemeReport(dark))]) ==
            Outcome(if s.hostColorSchemeChangeTracking
                    then s.(hostColorRepliesAwaited := 2, heldPendingColorEsc := false)
                    else s.(heldPendingColorEsc := false), [SchemeReport(dark)])
    ensures Run(keys, s, [TrackColorScheme]) == Outcome(s.(hostColorSchemeChangeTracking := true), [])
  {
    hide Run, Drain, ExtractOneEvent, Push;
    var w := SchemeReport(dark);
    ReportsFramed(keys, []);
    assert w + [] == w && [] + w == w;
    PushCompletes(keys, s, w, HostColorSchemeChanged(dark));
    RunOfOnePush(keys, s, w);
    RunOfTracking(keys, s);
  }

  lemma RunOfTracking(keys: KeyDecoder, s: State)
    ensures Run(keys, s, [TrackColorScheme]) == Outcome(s.(hostColorSchemeChangeTracking := true), [])
  {
    assert [TrackColorScheme][1..] == [];
    var t := s.(hostColorSchemeChangeTracking := true);
    assert Run(keys, t, []) == Outcome(t, []);
  }

  /** In particular, while a reply is awaited its ESC alone survives one idle flush: reads that bring the rest
      of the command, and then any reads and flushes, complete it. */
  lemma SplitReplyIsStitched(keys: KeyDecoder, s: State, kind: ColorKind, color: seq<byte>, term: seq<byte>,
                             opening: seq<Input>, inputs: seq<Input>)
    requires IsColorReply(color, term) && Framing(s) && s.buffer == [] && MayHold(s)
    requires ReadsAndFlushes(opening) && ReadsAndFlushes(inputs) && Idle !in opening && |Fed(opening)| >= 4
    requires [ESC] + (Fed(opening) + Fed(inputs)) == ColorReply(kind, color, term)
    ensures Run(keys, s, [Bytes([ESC]), Idle] + (opening + inputs)).chunks == [ColorReply(kind, color, term)]
  {
    hide IsColorReply, Run, ColorReply, EscapedFlushesFit, ExtractOneEvent, Fed, NoteEvent;
    var rest, w := opening + inputs, ColorReply(kind, color, term);
    var all := [Bytes([ESC]), Idle] + rest;
    FedConcat(opening, inputs);
    assert all[1..] == [Idle] + rest && all[1..][1..] == rest;
    RunRead(keys, s, all);
    RunFlush(keys, s, all[1..]);
    ReadsThenAnyFit(opening, inputs, 1, |w|);
    EscapedFlushesFitStep(all, 0, true, 5, |w|);
    EscapedFlushesFitStep(all[1..], 1, true, 5, |w|);
    ReplyArrivesWholeIff(keys, s, kind, color, term, all);
  }

  lemma {:induction false} ReadsThenAnyFit(opening: seq<Input>, inputs: seq<Input>, read: nat, total: nat)
    requires ReadsAndFlushes(opening) && ReadsAndFlushes(inputs) && Idle !in opening && read + |Fed(opening)| >= 5
    ensures EscapedFlushesFit(opening + inputs, read, false, 5, total)
    decreases |opening| + |inputs|
  {
    var all := opening + inputs;
    if opening != [] {
      assert opening[0] in opening && all[0] == opening[0] && all[1..] == opening[1..] + inputs;
      ReadsThenAnyFit(opening[1..], inputs, read + |opening[0].data|, total);
    } else if inputs != [] {
      assert all == inputs && all[1..] == [] + inputs[1..] && Fed([]) == [];
      ReadsThenAnyFit([], inputs[1..], read + if inputs[0].Bytes? then |inputs[0].data| else 0, total);
    }
  }
}

/** What the recogniser accepts, said without its own case analysis, and what becomes of framed chunks. */
module InputGrammar {
  import opened Bytes
  import opened Utf8
  import opened InputEvents
  import opened FramerSpec

  // --- Whole sequences, with anything behind them ---

  /** An ordinary control sequence ends at its first final byte (ECMA-48, section 5.4). */
  lemma ControlSequenceLen(s: seq<byte>, n: nat)
    requires CSI <= s && !(SGR_MOUSE <= s)
    requires 3 <= n <= |s| && IsCsiFinal(s[n - 1]) && forall i :: 2 <= i < n - 1 ==> !IsCsiFinal(s[i])
    ensures CompleteEscapeSequenceLen(s) == Some(n)
  {
    var r := FirstIndexFrom(s, IsCsiFinal, 2);
    assert r == Some(n - 1);
  }

  /** A control string ends at its first terminator: BEL or ST after OSC, ST after DCS, APC, PM and SOS. */
  lemma ControlStringLen(s: seq<byte>, n: nat)
    requires ControlStringFamily(s).Some? && TerminatedAt(s, ControlStringFamily(s).value, n)
    requires forall j :: 0 <= j < n ==> !TerminatedAt(s, ControlStringFamily(s).value, j)
    ensures CompleteEscapeSequenceLen(s) == Some(n)
  {
    TerminatorIs(s, ControlStringFamily(s).value, n);
  }

  // --- Mouse reports ---

  function Decimal(n: nat): (s: seq<byte>)
    ensures s != [] && forall i :: 0 <= i < |s| ==> IsDigit(s[i])
  {
    if n < 10 then [0x30 + n] else Decimal(n / 10) + [0x30 + n % 10]
  }

  lemma {:induction false} DecimalValue(n: nat)
    ensures DigitsValue(Decimal(n)) == n
  {
    var s := Decimal(n);
    if n >= 10 {
      assert s[..|s| - 1] == Decimal(n / 10);
      DecimalValue(n / 10);
    }
  }

  lemma DecimalParses(n: nat, max: nat)
    ensures ParseUnsigned(Decimal(n), max) == if n <= max then Some(n) else None
  {
    DecimalValue(n);
    assert IsDigit(Decimal(n)[0]);
  }

  function SgrReport(button: nat, column: nat, row: nat, release: bool): seq<byte> {
    [ESC, 0x5b, 0x3c] + Decimal(button) + [0x3b] + Decimal(column) + [0x3b] + Decimal(row) +
    [if release then 0x6d else 0x4d]
  }

  /** What the parser takes: 16-bit cells counted from 1, and buttons it knows. Those are the three mouse buttons
      and the release, the four wheel directions, and drags and moves, with any modifiers; the side buttons 8 to
      11, which are reported as 128 to 131, are not. */
  predicate KnownReport(button: nat, column: nat, row: nat) {
    button < 128 && (button < 96 || button % 4 < 2) && 1 <= column <= 65535 && 1 <= row <= 65535
  }

  lemma ButtonsKnown(button: nat)
    requires button <= 255
    ensures MouseButtonKnown(button) <==> button < 128 && (button < 96 || button % 4 < 2)
  {
  }

  /** A mouse report of any known button at any cell reads back as that button at that cell, and no other
      mouse report is read. */
  lemma MouseReportReadsBack(button: nat, column: nat, row: nat, release: bool)
    ensures ParseSgrMouse(SgrReport(button, column, row, release)) ==
            if KnownReport(button, column, row) then Some(Mouse(button, column - 1, row - 1, release)) else None
  {
    assert [] + Decimal(row) == Decimal(row);
    MouseReportWithMore(button, column, row, release, []);
    assert MoreSgrReport(button, column, row, release, []) == SgrReport(button, column, row, release);
  }

  /** A report with more fields behind the row. */
  function MoreSgrReport(button: nat, column: nat, row: nat, release: bool, more: seq<byte>): seq<byte> {
    [ESC, 0x5b, 0x3c] + Decimal(button) + [0x3b] + Decimal(column) + [0x3b] + (Decimal(row) + more) +
    [if release then 0x6d else 0x4d]
  }

  /** Fields behind the row are not read. */
  lemma MouseReportWithMore(button: nat, column: nat, row: nat, release: bool, more: seq<byte>)
    requires more == [] || more[0] == SEMICOLON
    ensures ParseSgrMouse(MoreSgrReport(button, column, row, release, more)) ==
            if KnownReport(button, column, row) then Some(Mouse(button, column - 1, row - 1, release)) else None
  {
    hide SplitOn, ParseUnsigned, MouseButtonKnown, Decimal;
    var s := MoreSgrReport(button, column, row, release, more);
    var b, c, r := Decimal(button), Decimal(column), Decimal(row);
    assert SEMICOLON !in b && SEMICOLON !in c && SEMICOLON !in r;
    SplitOnFirst(b, SEMICOLON, c + [SEMICOLON] + (r + more));
    SplitOnFirst(c, SEMICOLON, r + more);
    if more == [] {
      assert r + more == r;
      SplitOnNone(r, SEMICOLON);
    } else {
      assert r + more == r + [SEMICOLON] + more[1..];
      SplitOnFirst(r, SEMICOLON, more[1..]);
    }
    DecimalParses(button, 255);
    DecimalParses(column, 65535);
    DecimalParses(row, 65535);
    if button <= 255 { ButtonsKnown(button); }
    assert s[3..|s| - 1] == b + [SEMICOLON] + (c + [SEMICOLON] + (r + more));
    assert SGR_MOUSE <= s;
  }

  lemma SgrReportShape(button: nat, column: nat, row: nat, release: bool)
    ensures var s := SgrReport(button, column, row, release);
            && SGR_MOUSE <= s && |s| >= 7 && IsMouseFinal(s[|s| - 1])
            && (forall i :: 3 <= i < |s| - 1 ==> IsTailParameter(s[i]))
            && Valid(s)
  {
    hide Decimal;
    AsciiIsValid(SgrReport(button, column, row, release));
  }

  /** With anything behind it, a mouse report is framed whole and as that mouse event. */
  lemma MouseReportFramed(keys: KeyDecoder, button: nat, column: nat, row: nat, release: bool, rest: seq<byte>)
    requires KnownReport(button, column, row)
    ensures var s := SgrReport(button, column, row, release);
            ExtractOneEvent(keys, s + rest) == Some(Frame(Mouse(button, column - 1, row - 1, release), |s|))
  {
    hide SgrReport, ParseSgrMouse, Valid, MouseButtonKnown;
    var s := SgrReport(button, column, row, release);
    SgrReportShape(button, column, row, release);
    MouseReportReadsBack(button, column, row, release);
    assert s[..|s|] == s;
    assert FirstIndexFrom(s, IsMouseFinal, 2) == Some(|s| - 1);
    assert CompleteEscapeSequenceLen(s) == Some(|s|);
    assert s[2] == 0x3c && s[1] == 0x5b;
    ExtractExtends(keys, s, rest);
  }

  /** Focus and colour-scheme reports are framed whole, with anything behind them. */
  lemma ReportsFramed(keys: KeyDecoder, rest: seq<byte>)
    ensures ExtractOneEvent(keys, [ESC, 0x5b, 0x49] + rest) == Some(Frame(OuterFocusGained, 3))
    ensures ExtractOneEvent(keys, [ESC, 0x5b, 0x4f] + rest) == Some(Frame(OuterFocusLost, 3))
    ensures ExtractOneEvent(keys, COLOR_SCHEME_DARK_REPORT + rest) == Some(Frame(HostColorSchemeChanged(true), 9))
    ensures ExtractOneEvent(keys, COLOR_SCHEME_LIGHT_REPORT + rest) == Some(Frame(HostColorSchemeChanged(false), 9))
  {
    hide ExtractOneEvent, EventOfSequence;
    ReportFramed(keys, [ESC, 0x5b, 0x49], rest);
    ReportFramed(keys, [ESC, 0x5b, 0x4f], rest);
    ReportFramed(keys, COLOR_SCHEME_DARK_REPORT, rest);
    ReportFramed(keys, COLOR_SCHEME_LIGHT_REPORT, rest);
    ReportEvents(keys);
  }

  lemma ReportEvents(keys: KeyDecoder)
    ensures EventOfSequence(keys, [ESC, 0x5b, 0x49]) == OuterFocusGained
    ensures EventOfSequence(keys, [ESC, 0x5b, 0x4f]) == OuterFocusLost
    ensures EventOfSequence(keys, COLOR_SCHEME_DARK_REPORT) == HostColorSchemeChanged(true)
    ensures EventOfSequence(keys, COLOR_SCHEME_LIGHT_REPORT) == HostColorSchemeChanged(false)
  {
    hide ParseSgrMouse, IsRgbColor;
  }

  lemma ReportFramed(keys: KeyDecoder, s: seq<byte>, rest: seq<byte>)
    requires CSI <= s && |s| >= 3 && s[2] != 0x3c && s[2] != 0x32
    requires IsCsiFinal(s[|s| - 1]) && forall i :: 2 <= i < |s| - 1 ==> !IsCsiFinal(s[i])
    requires forall i :: 0 <= i < |s| ==> s[i] < 0x80
    ensures ExtractOneEvent(keys, s + rest) == Some(Frame(EventOfSequence(keys, s), |s|))
  {
    hide EventOfSequence, Valid, CompleteEscapeSequenceLen;
    ControlSequenceLen(s, |s|);
    AsciiIsValid(s);
    assert s[..|s|] == s;
    assert s[2] != BRACKETED_PASTE_START[2];
    ExtractExtends(keys, s, rest);
  }

  /** The reply of a host terminal to a question for a default colour. */
  function ColorReply(kind: ColorKind, color: seq<byte>, term: seq<byte>): seq<byte> {
    [ESC, 0x5d, 0x31, if kind.Foreground? then 0x30 else 0x31, SEMICOLON] + color + term
  }

  predicate IsColorReply(color: seq<byte>, term: seq<byte>) {
    && IsRgbColor(color) && (term == [BEL] || term == STRING_TERMINATOR)
    && forall i :: 0 <= i < |color| ==> 0x20 <= color[i] < 0x7f
  }

  lemma ColorReplyShape(kind: ColorKind, color: seq<byte>, term: seq<byte>)
    requires IsColorReply(color, term)
    ensures var s := ColorReply(kind, color, term);
            && |s| == 5 + |color| + |term| && s[0] == ESC && s[1] == 0x5d
            && (forall i :: 0 <= i < |s| ==> s[i] < 0x80)
            && TerminatedAt(s, Osc, |s|) && (forall j :: 0 <= j < |s| ==> !TerminatedAt(s, Osc, j))
  {
    hide IsRgbColor;
    var s, n := ColorReply(kind, color, term), 5 + |color|;
    assert forall i :: 5 <= i < n ==> s[i] == color[i - 5];
    assert forall i :: 0 <= i < |term| ==> s[n + i] == term[i];
  }

  /** A default-colour reply, with either terminator and anything behind it, is framed whole as that colour. */
  lemma ColorReplyFramed(keys: KeyDecoder, kind: ColorKind, color: seq<byte>, term: seq<byte>, rest: seq<byte>)
    requires IsColorReply(color, term)
    ensures var s := ColorReply(kind, color, term);
            ExtractOneEvent(keys, s + rest) == Some(Frame(HostDefaultColor(kind, color), |s|))
  {
    hide IsColorReply, Valid, Terminator, CompleteEscapeSequenceLen, ParseSgrMouse, ParseDefaultColorResponse,
         FindSubsequence, ColorReply, TerminatedAt;
    var s := ColorReply(kind, color, term);
    ColorReplyShape(kind, color, term);
    ControlStringLen(s, |s|);
    AsciiIsValid(s);
    ColorReplyParses(kind, color, term);
    assert s[..|s|] == s && s[1] != BRACKETED_PASTE_START[1];
    ExtractExtends(keys, s, rest);
  }

  lemma ColorReplyParses(kind: ColorKind, color: seq<byte>, term: seq<byte>)
    requires IsColorReply(color, term)
    ensures ParseDefaultColorResponse(ColorReply(kind, color, term)) == Some(HostDefaultColor(kind, color))
  {
    hide IsRgbColor, ColorReplyEvent;
    var text := [0x31, if kind.Foreground? then 0x30 else 0x31, SEMICOLON] + color;
    var s := ColorReply(kind, color, term);
    var body := s[2..];
    assert body == text + term;
    assert |term| == 1 ==> body[..|body| - 1] == text && body[|body| - 2..][1] == BEL;
    assert |term| == 2 ==> body[..|body| - 2] == text && body[|body| - 2..] == STRING_TERMINATOR;
    ColorTextParses(kind, color);
  }

  lemma ColorTextParses(kind: ColorKind, color: seq<byte>)
    requires IsRgbColor(color)
    ensures ColorReplyEvent([0x31, if kind.Foreground? then 0x30 else 0x31, SEMICOLON] + color)
         == Some(HostDefaultColor(kind, color))
  {
    hide IsRgbColor;
    var text := [0x31, if kind.Foreground? then 0x30 else 0x31, SEMICOLON] + color;
    assert text[3..] == color && text[1] == if kind.Foreground? then 0x30 else 0x31;
  }

  // --- From chunks to events (`RawInputFramer::events_from_chunks`) ---

  function EventOfChunk(keys: KeyDecoder, chunk: seq<byte>): Option<Event> {
    if chunk == [ESC] then Some(Key([ESC]))
    else
      var frame := ExtractOneEvent(keys, chunk);
      if frame.Some? then Some(frame.value.event) else None
  }

  predicate OnlyEscapes(s: seq<byte>) {
    forall i :: 0 <= i < |s| ==> s[i] == ESC
  }

  lemma FirstIndexShrinks(s: seq<byte>, p: byte -> bool, from: nat, n: nat)
    requires FirstIndexFrom(s, p, from).Some? && FirstIndexFrom(s, p, from).value < n <= |s|
    ensures FirstIndexFrom(s[..n], p, from) == FirstIndexFrom(s, p, from)
  {
    FirstIndexExtends(s[..n], s[n..], p, from);
    assert s[..n] + s[n..] == s;
  }

  lemma {:induction false} EscapesAloneAreIncomplete(s: seq<byte>)
    requires s != [] && OnlyEscapes(s)
    ensures CompleteEscapeSequenceLen(s).None?
    decreases |s|
  {
    if |s| > 1 { EscapesAloneAreIncomplete(s[1..]); }
  }

  /** A framed escape sequence is complete on its own, unless it is nothing but escapes. */
  lemma {:induction false} EscapeLenShrinks(s: seq<byte>, n: nat)
    requires s != [] && s[0] == ESC && CompleteEscapeSequenceLen(s) == Some(n)
    requires !OnlyEscapes(s[..n])
    ensures CompleteEscapeSequenceLen(s[..n]) == Some(n)
    decreases |s|
  {
    hide Valid, ParseSgrMouse;
    var c := s[..n];
    assert n >= 2 && c[0] == ESC && c[1] == s[1];
    if s[1] == ESC {
      assert c[1..] == s[1..][..n - 1];
      assert !OnlyEscapes(c[1..]);
      EscapeLenShrinks(s[1..], n - 1);
      EscEscLenShrinks(s, n);
    } else if s[1] == 0x5b {
      if SGR_MOUSE <= s { FirstIndexShrinks(s, IsMouseFinal, 2, n); } else { FirstIndexShrinks(s, IsCsiFinal, 2, n); }
    } else if ControlStringFamily(s).Some? {
      ControlStringShrinks(s, n);
    } else if s[1] != 0x4f {
      assert c[1..n] == s[1..n];
    }
  }

  lemma ControlStringShrinks(s: seq<byte>, n: nat)
    requires ControlStringFamily(s).Some? && ControlStringOf(s) == Some(Complete(n, ControlStringFamily(s).value))
    requires n <= |s|
    ensures ControlStringFamily(s[..n]) == ControlStringFamily(s) && ControlStringOf(s[..n]) == ControlStringOf(s)
  {
    hide Terminator;
    var c, family := s[..n], ControlStringFamily(s).value;
    assert forall j :: 0 <= j <= n ==> TerminatedAt(c, family, j) == TerminatedAt(s, family, j);
    TerminatorIs(c, family, n);
  }

  lemma EscEscLenShrinks(s: seq<byte>, n: nat)
    requires |s| >= 2 && s[0] == ESC && s[1] == ESC && CompleteEscapeSequenceLen(s) == Some(n) && n >= 2
    requires CompleteEscapeSequenceLen(s[1..]) == Some(n - 1)
    requires CompleteEscapeSequenceLen(s[1..][..n - 1]) == Some(n - 1)
    ensures CompleteEscapeSequenceLen(s[..n]) == Some(n)
  {
    hide Valid, ParseSgrMouse, ControlStringOf, Width, EscapedMouse;
    var c := s[..n];
    assert c[1..] == s[1..][..n - 1];
    EscapedMouseShrinks(s, n);
  }

  lemma EscapedMouseShrinks(s: seq<byte>, n: nat)
    requires 2 <= n <= |s| && s[0] == ESC && s[1] == ESC
    requires CompleteEscapeSequenceLen(s[1..]) == Some(n - 1)
    ensures EscapedMouse(s[..n]) == EscapedMouse(s)
  {
    hide Valid, ParseSgrMouse, ControlStringOf, Width;
    var c := s[..n];
    assert c + s[n..] == s && c[1..] == s[1..][..n - 1];
    PrefixExtends(ESC_SGR_MOUSE, c, s[n..]);
    if ESC_SGR_MOUSE <= s {
      FirstIndexShrinks(s[1..], IsMouseFinal, 2, n - 1);
      assert c[1..n] == s[1..n];
    }
  }

  lemma PasteReadsBack(keys: KeyDecoder, s: seq<byte>)
    requires BRACKETED_PASTE_START <= s && ExtractOneEvent(keys, s).Some?
    ensures var frame := ExtractOneEvent(keys, s).value;
            ExtractOneEvent(keys, s[..frame.len]) == Some(frame) && !OnlyEscapes(s[..frame.len])
  {
    hide Valid, CompleteEscapeSequenceLen, FirstCompleteCharLen, FindSubsequence;
    var n := ExtractOneEvent(keys, s).value.len;
    var c := s[..n];
    FindExtends(c, s[n..], BRACKETED_PASTE_END);
    assert c + s[n..] == s;
    PasteEnds(s);
    assert forall i :: 0 <= i < 6 ==> c[i] == s[i] == BRACKETED_PASTE_START[i];
    assert BRACKETED_PASTE_START <= c && c[1] == BRACKETED_PASTE_START[1];
    PasteEnds(c);
    assert s[n - 6..n] == c[n - 6..n];
    assert c[6..n - 6] == s[6..n - 6];
  }

  /** Where the closing marker is found, and that it stays found in any prefix that holds it. */
  lemma PasteEnds(s: seq<byte>)
    requires BRACKETED_PASTE_START <= s
    ensures var end := FindSubsequence(s, BRACKETED_PASTE_END);
            end.Some? ==> 6 <= end.value <= |s| - 6 && FindSubsequence(s[..end.value + 6], BRACKETED_PASTE_END) == end
  {
    var end := FindSubsequence(s, BRACKETED_PASTE_END);
    if end.Some? {
      PasteEndFollowsStart(s, end.value);
      var c, e := s[..end.value + 6], s[end.value + 6..];
      assert c + e == s;
      forall j: nat | j <= end.value
        ensures OccursAt(c, BRACKETED_PASTE_END, j) == OccursAt(s, BRACKETED_PASTE_END, j)
      {
        OccursAtExtends(c, e, BRACKETED_PASTE_END, j);
      }
      FindIs(c, BRACKETED_PASTE_END, end.value);
    }
  }

  /** The chunk of a framed event reads back as the same event, whole; a chunk of escapes only does not. */
  lemma ChunkReadsBack(keys: KeyDecoder, s: seq<byte>)
    requires ExtractOneEvent(keys, s).Some?
    ensures var frame := ExtractOneEvent(keys, s).value;
            ExtractOneEvent(keys, s[..frame.len]) == if OnlyEscapes(s[..frame.len]) then None else Some(frame)
  {
    hide Valid, CompleteEscapeSequenceLen, EventOfSequence, FindSubsequence;
    var n := ExtractOneEvent(keys, s).value.len;
    var c := s[..n];
    assert c[..n] == c && c + s[n..] == s && c[0] == s[0];
    if BRACKETED_PASTE_START <= s {
      PasteReadsBack(keys, s);
    } else if s[0] == ESC {
      PrefixExtends(BRACKETED_PASTE_START, c, s[n..]);
      if OnlyEscapes(c) { EscapesAloneAreIncomplete(c); } else { EscapeLenShrinks(s, n); }
    }
  }

  /** The events a drain recognises, one per chunk. */
  function DrainEvents(keys: KeyDecoder, s: State): seq<Event>
    decreases |s.buffer|, s.discardUntil.Some?, s.loneEscapeRecentlyFlushed
  {
    match Turned(keys, s)
    case Halt(_) => []
    case Next(t, chunks) =>
      TurnShrinks(keys, s);
      (if chunks == [] then [] else [ExtractOneEvent(keys, s.buffer).value.event]) + DrainEvents(keys, t)
  }

  lemma DrainEventsUnfold(keys: KeyDecoder, s: State)
    ensures Turned(keys, s).Halt? ==> DrainEvents(keys, s) == []
    ensures Turned(keys, s).Next? ==>
              DrainEvents(keys, s) ==
              (if Turned(keys, s).chunks == [] then [] else [ExtractOneEvent(keys, s.buffer).value.event]) +
              DrainEvents(keys, Turned(keys, s).state)
  {
  }

  /** What reading chunk `i` again makes of the event it was cut for. */
  predicate Reread(keys: KeyDecoder, chunk: seq<byte>, event: Event) {
    EventOfChunk(keys, chunk) ==
      if chunk == [ESC] then Some(Key([ESC])) else if OnlyEscapes(chunk) then None else Some(event)
  }

  /** Reading drained chunks again gives the events they were cut for, except that two or more escapes in
      one chunk, cut off in front of a mouse report, give none. */
  lemma {:induction false} DrainedChunksReadBack(keys: KeyDecoder, s: State)
    ensures |DrainEvents(keys, s)| == |Drain(keys, s).chunks|
    ensures forall i :: 0 <= i < |DrainEvents(keys, s)| ==>
            Reread(keys, Drain(keys, s).chunks[i], DrainEvents(keys, s)[i])
    decreases |s.buffer|, s.discardUntil.Some?, s.loneEscapeRecentlyFlushed
  {
    hide Turned, Drain, DrainEvents, Reread;
    DrainUnfold(keys, s);
    DrainEventsUnfold(keys, s);
    if Turned(keys, s).Next? {
      TurnShrinks(keys, s);
      if Turned(keys, s).chunks != [] { TurnReadsBack(keys, s); }
      DrainedChunksReadBack(keys, Turned(keys, s).state);
    }
  }

  lemma TurnReadsBack(keys: KeyDecoder, s: State)
    requires Turned(keys, s).Next? && Turned(keys, s).chunks != []
    ensures ExtractOneEvent(keys, s.buffer).Some? && |Turned(keys, s).chunks| == 1
    ensures Reread(keys, Turned(keys, s).chunks[0], ExtractOneEvent(keys, s.buffer).value.event)
  {
    hide ExtractOneEvent, Terminator, CompleteOrphanedTail, IncompleteOrphanedTail, ScanOrphanedTail, NoteEvent;
    ChunkReadsBack(keys, s.buffer);
  }

  /** A chunk that an idle flush itself emits reads back as an event exactly when it is the lone ESC, or
      when a lone ESC was flushed just before: any other key, such as Alt+[, is lost on the way to events. */
  lemma FlushedChunkReadsBack(keys: KeyDecoder, s: State)
    requires FlushDrained(keys, s).chunks != [] && Turned(keys, s).Halt?
    ensures |FlushDrained(keys, s).chunks| == 1
    ensures var chunk := FlushDrained(keys, s).chunks[0];
            EventOfChunk(keys, chunk).Some? <==> chunk == [ESC] || s.loneEscapeRecentlyFlushed
  {
    hide ExtractOneEvent, Terminator, CompleteOrphanedTail, ScanOrphanedTail, NoteEvent, UnterminatedPaste,
         IncompleteColorReply, IncompleteColorSchemeReport, ControlStringOf, IncompleteSgrMouse, IncompleteScalar;
    if s.loneEscapeRecentlyFlushed {
      assert s.buffer == [0x5b];
      BracketTyped(keys);
    }
  }

  /** Such a key: Alt and `[`, an ESC and a bracket that nothing follows. */
  lemma AltBracketIsLost(keys: KeyDecoder)
    requires keys([ESC, 0x5b])
    ensures Run(keys, INITIAL, [Bytes([ESC, 0x5b]), Idle]).chunks == [[ESC, 0x5b]]
    ensures EventOfChunk(keys, [ESC, 0x5b]).None?
  {
    hide Terminator, Run;
    AsciiIsValid([ESC, 0x5b]);
    assert CompleteEscapeSequenceLen([ESC, 0x5b]).None?;
    ReadThenIdle(keys, [ESC, 0x5b]);
  }

  lemma BracketTyped(keys: KeyDecoder)
    requires keys([0x5b])
    ensures ExtractOneEvent(keys, [0x5b]).Some?
  {
    AsciiIsValid([0x5b]);
    assert [0x5b][..1] == [0x5b];
  }
}

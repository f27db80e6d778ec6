/** When a mouse report that was cut by an idle flush leaks its tail as typed text, and when it does not. */
module FramerMouse {
  import opened Bytes
  import opened Utf8
  import opened InputEvents
  import opened InputGrammar
  import opened FramerSpec
  import opened FramerSplit
  import opened FramerUnits
  import opened FramerTyped

  /** The state right after a lone ESC was flushed. */
  predicate AfterEscape(s: State) {
    s.loneEscapeRecentlyFlushed && s.discardUntil.None?
  }

  lemma {:induction false} DecimalLength(n: nat, digits: nat, bound: nat)
    requires digits >= 1 && n < bound && bound == Pow10(digits)
    ensures |Decimal(n)| <= digits
    decreases digits
  {
    if n >= 10 { DecimalLength(n / 10, digits - 1, Pow10(digits - 1)); }
  }

  function Pow10(n: nat): nat { if n == 0 then 1 else 10 * Pow10(n - 1) }

  lemma ReportTailFits(button: nat, column: nat, row: nat, release: bool)
    requires button <= 255 && column <= 65535 && row <= 65535
    ensures |SgrReport(button, column, row, release)| <= 1 + 32
  {
    assert Pow10(3) == 1000 && Pow10(5) == 100000;
    hide Decimal, Pow10;
    DecimalLength(button, 3, 1000);
    DecimalLength(column, 5, 100000);
    DecimalLength(row, 5, 100000);
  }

  // --- The tail of a report ---

  /** `[<`, parameters and a final byte. */
  predicate IsReportTail(w: seq<byte>) {
    && 3 <= |w| && [0x5b, 0x3c] <= w && IsMouseFinal(w[|w| - 1])
    && forall i :: 2 <= i < |w| - 1 ==> IsTailParameter(w[i])
  }

  lemma TailStarts(w: seq<byte>)
    requires IsReportTail(w)
    ensures w != [] && w[0] == 0x5b
  {
  }

  lemma TailShape(button: nat, column: nat, row: nat, release: bool)
    ensures IsReportTail(SgrReport(button, column, row, release)[1..])
    ensures [ESC] + SgrReport(button, column, row, release)[1..] == SgrReport(button, column, row, release)
  {
    hide SgrReport;
    var report := SgrReport(button, column, row, release);
    SgrReportShape(button, column, row, release);
    assert forall i :: 0 <= i < |report[1..]| ==> report[1..][i] == report[i + 1];
  }

  /** A strict prefix of the tail is kept waiting if it is short enough, and is never complete. */
  lemma PrefixOfTail(w: seq<byte>, n: nat)
    requires IsReportTail(w) && n < |w|
    ensures IncompleteOrphanedTail(w[..n]) <==> n <= 32
    ensures CompleteOrphanedTail(w[..n]).None?
  {
    hide Terminator, Valid;
    if n < 3 { assert w[..n] <= [0x5b, 0x3c]; }
    assert forall j :: 0 <= j <= n ==> !TerminatedAt(w[..n], OrphanedSgrMouseTail, j);
  }

  /** The whole tail is complete if the parser takes the report. */
  lemma WholeTail(button: nat, column: nat, row: nat, release: bool)
    ensures var w := SgrReport(button, column, row, release)[1..];
            && !IncompleteOrphanedTail(w)
            && CompleteOrphanedTail(w) == if KnownReport(button, column, row) then Some(|w|) else None
  {
    hide SgrReport, Valid, ParseSgrMouse, Terminator, MouseButtonKnown;
    var report := SgrReport(button, column, row, release);
    SgrReportShape(button, column, row, release);
    var w := report[1..];
    TailShape(button, column, row, release);
    MouseReportReadsBack(button, column, row, release);
    if KnownReport(button, column, row) { ReportTailFits(button, column, row, release); }
    assert !IsTailParameter(w[|w| - 1]);
    TerminatorIs(w, OrphanedSgrMouseTail, |w|);
    assert w[..|w|] == w;
  }

  // --- Which cuts let nothing leak ---

  /** Of the tail of length `total`, `read` bytes have been read. While it is held behind its ESC, no more than
      32 bytes of it wait, a flush may find none or at least two, which starts dropping, and at its end it is
      taken for a report only if it is a known one. While it is dropped no flush comes, and a read past the
      budget of 128 is the last one. */
  predicate MouseTailFits(inputs: seq<Input>, read: nat, dropping: bool, total: nat, known: bool)
    decreases |inputs|
  {
    inputs == [] || read >= total ||
    match inputs[0]
    case Bytes(data) =>
      var next := read + |data|;
      && (if dropping then next <= 128 || next >= total
          else if next < total then next <= 32
          else known)
      && MouseTailFits(inputs[1..], next, dropping, total, known)
    case Idle => !dropping && read != 1 && MouseTailFits(inputs[1..], read, read >= 2, total, known)
    case _ => MouseTailFits(inputs[1..], read, dropping, total, known)
  }

  lemma MouseTailFitsStep(inputs: seq<Input>, read: nat, dropping: bool, total: nat, known: bool)
    requires inputs != [] && read < total && (inputs[0].Bytes? || inputs[0].Idle?)
    ensures MouseTailFits(inputs, read, dropping, total, known) ==
            match inputs[0]
            case Bytes(data) =>
              var next := read + |data|;
              && (if dropping then next <= 128 || next >= total
                  else if next < total then next <= 32
                  else known)
              && MouseTailFits(inputs[1..], next, dropping, total, known)
            case _ => !dropping && read != 1 && MouseTailFits(inputs[1..], read, read >= 2, total, known)
  {
  }

  lemma NothingLeftToFit(inputs: seq<Input>, read: nat, dropping: bool, total: nat, known: bool)
    requires inputs == [] || read >= total
    ensures MouseTailFits(inputs, read, dropping, total, known)
  {
  }

  /** A known report that is not flushed fits. */
  lemma {:induction false} ReadsOfKnownFit(inputs: seq<Input>, read: nat, total: nat)
    requires Idle !in inputs && total <= 32
    ensures MouseTailFits(inputs, read, false, total, true)
    decreases |inputs|
  {
    if inputs != [] && read < total {
      if inputs[0].Bytes? {
        ReadsOfKnownFit(inputs[1..], read + |inputs[0].data|, total);
      } else {
        ReadsOfKnownFit(inputs[1..], read, total);
      }
    }
  }

  // --- The rest of a report that is being dropped ---

  /** Dropping a mouse tail, with nothing held. */
  predicate Dropping(s: State) {
    && !s.loneEscapeRecentlyFlushed && s.discardUntil == Some(OrphanedSgrMouseTail) && s.buffer == []
    && s.discardedTailBytes <= 128
  }

  /** What is left of a report: parameters, then its final byte. */
  predicate ReportRest(rest: seq<byte>) {
    rest != [] && IsMouseFinal(rest[|rest| - 1]) && forall i :: 0 <= i < |rest| - 1 ==> IsTailParameter(rest[i])
  }

  lemma RestOfRest(data: seq<byte>, later: seq<byte>)
    requires ReportRest(data + later) && later != []
    ensures ReportRest(later) && forall i :: 0 <= i < |data| ==> IsTailParameter(data[i])
  {
    var rest := data + later;
    assert forall i :: 0 <= i < |data| ==> data[i] == rest[i];
    assert forall i :: 0 <= i < |later| ==> later[i] == rest[|data| + i];
  }

  /** A read within the budget is dropped; one past it is dropped too, and ends the discard. */
  lemma PushDrops(keys: KeyDecoder, s: State, data: seq<byte>)
    requires Dropping(s) && forall i :: 0 <= i < |data| ==> IsTailParameter(data[i])
    ensures var next := s.discardedTailBytes + |data|;
            Push(keys, s, data) == Outcome(if next <= 128
                                           then s.(discardedTailBytes := next)
                                           else Resumed(s), [])
  {
    hide Drain, FirstIndexFrom, ExtractOneEvent, Terminator;
    var x := Append(s, data);
    assert x.buffer == data;
    DrainUnfold(keys, x);
    DrainOfNothing(keys, Resumed(s));
  }

  lemma PushEndsReport(keys: KeyDecoder, s: State, data: seq<byte>)
    requires Dropping(s) && ReportRest(data)
    ensures Push(keys, s, data) == Outcome(Resumed(s), [])
  {
    hide Drain, ExtractOneEvent, Terminator, ScanOrphanedTail;
    var x := Append(s, data);
    assert x.buffer == data;
    ScanEndsReport(data, s.discardedTailBytes);
    DrainUnfold(keys, x);
    DrainOfNothing(keys, Resumed(s));
  }

  lemma ScanEndsReport(data: seq<byte>, discarded: nat)
    requires ReportRest(data) && discarded <= 128
    ensures ScanOrphanedTail(data, discarded).ended && ScanOrphanedTail(data, discarded).buffer == []
  {
    hide FirstIndexFrom;
    if |data| <= Remaining(discarded) {
      assert data[..|data|] == data;
      FirstIndexIs(data, IsNotTailParameter, |data| - 1);
      assert data[|data|..] == [];
    }
  }

  lemma FlushEndsDiscard(keys: KeyDecoder, s: State)
    requires Dropping(s)
    ensures FlushTimeout(keys, s) == Outcome(Resumed(s), [])
  {
    hide Drain;
    DrainUnfold(keys, s);
  }

  lemma RestIsTyped(rest: seq<byte>)
    requires ReportRest(rest)
    ensures Pending([], rest)
  {
  }

  /** Reads within the budget finish the discard; an idle flush before the end gives it up, and a read past
      the budget too, and what follows is typed. */
  lemma {:induction false} RunDropped(keys: KeyDecoder, s: State, rest: seq<byte>, inputs: seq<Input>, known: bool)
    requires Dropping(s) && ReportRest(rest) && ReadsAndFlushes(inputs) && Fed(inputs) == rest
    ensures var fits := MouseTailFits(inputs, s.discardedTailBytes, true, s.discardedTailBytes + |rest|, known);
            && (fits ==> Run(keys, s, inputs) == Outcome(Resumed(s), []))
            && (!fits && Typable(keys, rest) ==> Run(keys, s, inputs).chunks != [])
    decreases |inputs|
  {
    hide Push, FlushTimeout, Fed, Run, ReadsAndFlushes, Pending, Typable, MouseTailFits, ReportRest;
    var read := s.discardedTailBytes;
    RestNotEmpty(rest);
    if inputs == [] {
      RunOfNothing(keys, s);
    } else {
      if !inputs[0].Bytes? {
        RunFlush(keys, s, inputs);
        MouseTailFitsStep(inputs, read, true, read + |rest|, known);
        FlushEndsDiscard(keys, s);
        RestIsTyped(rest);
        if Typable(keys, rest) { RunTypes(keys, Resumed(s), inputs[1..]); }
      } else {
        RunRead(keys, s, inputs);
        MouseTailFitsStep(inputs, read, true, read + |rest|, known);
        var data, later := inputs[0].data, Fed(inputs[1..]);
        assert data + later == rest;
        if later == [] {
          assert data == rest;
          NothingLeftToFit(inputs[1..], read + |data|, true, read + |rest|, known);
          PushEndsReport(keys, s, data);
          RunNothing(keys, Resumed(s), inputs[1..]);
        } else {
          RestOfRest(data, later);
          PushDrops(keys, s, data);
          TypableTail(keys, data, later);
          if read + |data| <= 128 {
            RunDropped(keys, s.(discardedTailBytes := read + |data|), later, inputs[1..], known);
          } else {
            RestIsTyped(later);
            if Typable(keys, rest) { RunTypes(keys, Resumed(s), inputs[1..]); }
          }
        }
      }
    }
  }

  lemma RestNotEmpty(rest: seq<byte>)
    requires ReportRest(rest)
    ensures rest != [] && !ReportRest([])
  {
  }

  lemma TypableTail(keys: KeyDecoder, data: seq<byte>, later: seq<byte>)
    ensures Typable(keys, data + later) ==> Typable(keys, later)
  {
    assert forall i :: 0 <= i < |later| ==> later[i] == (data + later)[|data| + i];
  }

  /** Input read together with the end of a report that is being dropped is framed as if nothing had been dropped:
      what follows its final byte, or, where the report is cut off by a byte that is no part of one, that byte and
      what follows it. */
  lemma InputAfterReportIsFramed(keys: KeyDecoder, s: State, parameters: seq<byte>, end: byte, later: seq<byte>)
    requires Dropping(s) && !IsTailParameter(end)
    requires forall i :: 0 <= i < |parameters| ==> IsTailParameter(parameters[i])
    requires s.discardedTailBytes + |parameters| + 1 <= 128
    ensures Push(keys, s, parameters + [end] + later) ==
            Push(keys, Resumed(s), if end == 0x4d || end == 0x6d then later else [end] + later)
  {
    hide Drain, ExtractOneEvent, Terminator, ScanOrphanedTail;
    var data := parameters + [end] + later;
    var rest := if IsMouseFinal(end) then later else [end] + later;
    var x := Append(s, data);
    assert x.buffer == data && [] + rest == rest;
    ScanStopsAt(parameters, end, later, s.discardedTailBytes);
    DrainUnfold(keys, x);
    PrependNothing(Drain(keys, Resumed(s).(buffer := rest)));
  }

  lemma ScanStopsAt(parameters: seq<byte>, end: byte, later: seq<byte>, discarded: nat)
    requires (forall i :: 0 <= i < |parameters| ==> IsTailParameter(parameters[i])) && !IsTailParameter(end)
    requires discarded + |parameters| + 1 <= 128
    ensures var scan := ScanOrphanedTail(parameters + [end] + later, discarded);
            scan.ended && scan.buffer == if IsMouseFinal(end) then later else [end] + later
  {
    hide FirstIndexFrom;
    var data, n := parameters + [end] + later, |parameters|;
    var window := data[..Min(|data|, Remaining(discarded))];
    assert forall i :: 0 <= i < n ==> window[i] == parameters[i];
    assert window[n] == end;
    FirstIndexIs(window, IsNotTailParameter, n);
    assert data[n + 1..] == later && data[n..] == [end] + later;
  }

  // --- A report behind a flushed ESC ---

  lemma PushKeepsTail(keys: KeyDecoder, s: State, data: seq<byte>)
    requires AfterEscape(s) && IncompleteOrphanedTail(s.buffer + data)
    ensures Push(keys, s, data) == Outcome(Append(s, data), [])
  {
    hide Drain, IncompleteOrphanedTail, ExtractOneEvent;
    DrainUnfold(keys, Append(s, data));
  }

  lemma PushDropsTail(keys: KeyDecoder, s: State, data: seq<byte>)
    requires AfterEscape(s) && !IncompleteOrphanedTail(s.buffer + data)
    requires CompleteOrphanedTail(s.buffer + data) == Some(|s.buffer + data|)
    ensures Push(keys, s, data) == Outcome(s.(buffer := [], loneEscapeRecentlyFlushed := false), [])
  {
    hide Drain, IncompleteOrphanedTail, CompleteOrphanedTail, ExtractOneEvent;
    var x := Append(s, data);
    DrainUnfold(keys, x);
    assert x.buffer[|x.buffer|..] == [];
    DrainOfNothing(keys, ClearFlag(x));
  }

  /** Held bytes that neither wait nor are a report are typed. */
  lemma PushTypesTail(keys: KeyDecoder, s: State, data: seq<byte>)
    requires AfterEscape(s) && !IncompleteOrphanedTail(s.buffer + data) && CompleteOrphanedTail(s.buffer + data).None?
    requires s.buffer + data != [] && (s.buffer + data)[0] == 0x5b && keys([0x5b])
    ensures Push(keys, s, data).chunks != []
  {
    hide Drain, IncompleteOrphanedTail, CompleteOrphanedTail, Terminator, FindSubsequence;
    var x := Append(s, data);
    var b := x.buffer;
    DrainUnfold(keys, x);
    assert b[..1] == [0x5b];
    AsciiIsValid([0x5b]);
    assert ExtractOneEvent(keys, b).Some?;
    DrainUnfold(keys, ClearFlag(x));
  }

  lemma FlushFindsTail(keys: KeyDecoder, s: State, w: seq<byte>, n: nat)
    requires AfterEscape(s) && IsReportTail(w) && n < |w| && s.buffer == w[..n] &&
             n <= 32
    ensures n == 0 ==> FlushTimeout(keys, s) == Outcome(s, [])
    ensures n == 1 ==>
              FlushTimeout(keys, s) ==
              if keys([0x5b]) then Outcome(s.(buffer := []), [[0x5b]])
              else Outcome(s.(buffer := [], loneEscapeRecentlyFlushed := false), [])
    ensures n >= 2 ==> FlushTimeout(keys, s) == Outcome(DropMouseTail(s).(loneEscapeRecentlyFlushed := false), [])
    ensures n >= 2 ==> Dropping(FlushTimeout(keys, s).state) && ReportRest(w[n..])
  {
    hide Drain, ExtractOneEvent, Terminator, Valid;
    PrefixOfTail(w, n);
    DrainUnfold(keys, s);
    if n == 1 {
      assert s.buffer == [0x5b];
      AsciiIsValid([0x5b]);
    }
    assert n >= 2 ==> forall i :: 0 <= i < |w[n..]| ==> w[n..][i] == w[n + i];
  }

  lemma FirstIsKey(keys: KeyDecoder, w: seq<byte>)
    requires w != [] && w[0] == 0x5b
    ensures Typable(keys, w) ==> keys([0x5b])
  {
  }

  /** How a run over the tail of a report ends: without a trace, or with part of it typed. */
  ghost predicate EndsAsFits(keys: KeyDecoder, s: State, w: seq<byte>, inputs: seq<Input>, fits: bool) {
    var o := Run(keys, s, inputs);
    && (fits ==> o.chunks == [] &&
                 o.state == Resumed(s).(loneEscapeRecentlyFlushed := false,
                                        discardedTailBytes := o.state.discardedTailBytes))
    && (!fits && Typable(keys, w) ==> o.chunks != [])
  }

  lemma {:induction false} RunReport(keys: KeyDecoder, s: State, button: nat, column: nat, row: nat, release: bool,
                                     inputs: seq<Input>)
    requires AfterEscape(s) && ReadsAndFlushes(inputs) && |s.buffer| <= 32
    requires s.buffer + Fed(inputs) == SgrReport(button, column, row, release)[1..]
    requires |s.buffer| < |SgrReport(button, column, row, release)| - 1
    ensures var w := SgrReport(button, column, row, release)[1..];
            EndsAsFits(keys, s, w, inputs, MouseTailFits(inputs, |s.buffer|, false, |w|,
                                                         KnownReport(button, column, row)))
    decreases |inputs|, 1
  {
    hide SgrReport, KnownReport, IncompleteOrphanedTail, CompleteOrphanedTail, Push, FlushTimeout, Fed, Run,
         ReadsAndFlushes, MouseTailFits, Typable, IsReportTail, Dropping, ReportRest;
    var w, n, known := SgrReport(button, column, row, release)[1..], |s.buffer|, KnownReport(button, column, row);
    assert s.buffer == w[..n] && Fed(inputs) == w[n..];
    if inputs == [] {
      RunOfNothing(keys, s);
    } else if !inputs[0].Bytes? {
      RunFlush(keys, s, inputs);
      MouseTailFitsStep(inputs, n, false, |w|, known);
      TailShape(button, column, row, release);
      TailStarts(w);
      FirstIsKey(keys, w);
      FlushFindsTail(keys, s, w, n);
      if n == 0 {
        RunReport(keys, s, button, column, row, release, inputs[1..]);
      } else if n >= 2 {
        assert w[..n] + w[n..] == w;
        TypableTail(keys, w[..n], w[n..]);
        RunDropped(keys, FlushTimeout(keys, s).state, w[n..], inputs[1..], known);
      }
    } else {
      RunReportRead(keys, s, button, column, row, release, inputs);
    }
  }

  lemma {:induction false} RunReportRead(keys: KeyDecoder, s: State, button: nat, column: nat, row: nat,
                                         release: bool, inputs: seq<Input>)
    requires AfterEscape(s) && ReadsAndFlushes(inputs) && |s.buffer| <= 32
    requires inputs != [] && inputs[0].Bytes?
    requires s.buffer + Fed(inputs) == SgrReport(button, column, row, release)[1..]
    requires |s.buffer| < |SgrReport(button, column, row, release)| - 1
    ensures var w := SgrReport(button, column, row, release)[1..];
            EndsAsFits(keys, s, w, inputs, MouseTailFits(inputs, |s.buffer|, false, |w|,
                                                         KnownReport(button, column, row)))
    decreases |inputs|, 0
  {
    hide SgrReport, KnownReport, IncompleteOrphanedTail, CompleteOrphanedTail, Push, FlushTimeout, Fed, Run,
         ReadsAndFlushes, MouseTailFits, Typable, IsReportTail;
    var w, known := SgrReport(button, column, row, release)[1..], KnownReport(button, column, row);
    RunRead(keys, s, inputs);
    var data := inputs[0].data;
    var b := s.buffer + data;
    assert b + Fed(inputs[1..]) == w;
    assert b == w[..|b|];
    MouseTailFitsStep(inputs, |s.buffer|, false, |w|, known);
    TailShape(button, column, row, release);
    TailStarts(w);
    FirstIsKey(keys, w);
    if |b| < |w| {
      PrefixOfTail(w, |b|);
      if |b| <= 32 {
        PushKeepsTail(keys, s, data);
        RunReport(keys, Append(s, data), button, column, row, release, inputs[1..]);
      } else if keys([0x5b]) {
        PushTypesTail(keys, s, data);
      }
    } else {
      assert b == w && |Fed(inputs[1..])| == 0;
      NothingLeftToFit(inputs[1..], |b|, false, |w|, known);
      WholeTail(button, column, row, release);
      if known {
        PushDropsTail(keys, s, data);
        RunNothing(keys, s.(buffer := [], loneEscapeRecentlyFlushed := false), inputs[1..]);
      } else if keys([0x5b]) {
        PushTypesTail(keys, s, data);
      }
    }
  }

  /** After a flushed ESC, the rest of a mouse report of any button at any cell, cut anywhere by reads and by
      idle flushes that fit, is dropped without a trace. */
  lemma OrphanedReportIsDropped(keys: KeyDecoder, s: State, button: nat, column: nat, row: nat, release: bool,
                                inputs: seq<Input>)
    requires AfterEscape(s) && s.buffer == [] && ReadsAndFlushes(inputs)
    requires [ESC] + Fed(inputs) == SgrReport(button, column, row, release)
    requires MouseTailFits(inputs, 0, false, |Fed(inputs)|, KnownReport(button, column, row))
    ensures var o := Run(keys, s, inputs);
            && o.chunks == []
            && o.state == Resumed(s).(loneEscapeRecentlyFlushed := false,
                                      discardedTailBytes := o.state.discardedTailBytes)
  {
    hide Run, SgrReport, KnownReport, MouseTailFits;
    SgrReportShape(button, column, row, release);
    assert ([ESC] + Fed(inputs))[1..] == Fed(inputs) && [] + Fed(inputs) == Fed(inputs);
    RunReport(keys, s, button, column, row, release, inputs);
  }

  /** Input read together with the end of a known report behind a flushed ESC is framed as if there had been none. */
  lemma InputAfterOrphanIsFramed(keys: KeyDecoder, s: State, button: nat, column: nat, row: nat, release: bool,
                                 later: seq<byte>)
    requires AfterEscape(s) && s.buffer == [] && KnownReport(button, column, row)
    ensures var w := SgrReport(button, column, row, release)[1..];
            Push(keys, s, w + later) == Push(keys, s.(loneEscapeRecentlyFlushed := false), later)
  {
    hide SgrReport, KnownReport, Drain, ExtractOneEvent, CompleteOrphanedTail, IncompleteOrphanedTail;
    SgrReportShape(button, column, row, release);
    var w := SgrReport(button, column, row, release)[1..];
    var x := Append(s, w + later);
    TailShape(button, column, row, release);
    WholeTail(button, column, row, release);
    CompleteTailExtends(w, later);
    FollowedTail(w, later);
    assert x.buffer == w + later && (w + later)[|w|..] == later && [] + later == later;
    DrainUnfold(keys, x);
    PrependNothing(Drain(keys, s.(buffer := later, loneEscapeRecentlyFlushed := false)));
  }

  lemma FollowedTail(w: seq<byte>, later: seq<byte>)
    requires IsReportTail(w)
    ensures !IncompleteOrphanedTail(w + later)
  {
    assert (w + later)[|w| - 1] == w[|w| - 1];
  }

  /** And where its characters are keys, the cuts and flushes that fit are exactly those that let nothing leak. */
  lemma OrphanedReportIsDroppedIff(keys: KeyDecoder, s: State, button: nat, column: nat, row: nat, release: bool,
                                   inputs: seq<Input>)
    requires AfterEscape(s) && s.buffer == [] && ReadsAndFlushes(inputs)
    requires [ESC] + Fed(inputs) == SgrReport(button, column, row, release) && Typable(keys, Fed(inputs))
    ensures Run(keys, s, inputs).chunks == [] <==>
            MouseTailFits(inputs, 0, false, |Fed(inputs)|, KnownReport(button, column, row))
  {
    hide Run, SgrReport, KnownReport, MouseTailFits, Typable;
    SgrReportShape(button, column, row, release);
    assert ([ESC] + Fed(inputs))[1..] == Fed(inputs) && [] + Fed(inputs) == Fed(inputs);
    RunReport(keys, s, button, column, row, release, inputs);
  }

  /** Read in one piece behind a flushed ESC, a report of a side button at the first cell leaks. */
  lemma SideButtonLeaks(keys: KeyDecoder)
    requires Typable(keys, SgrReport(128, 1, 1, false)[1..])
    ensures |Run(keys, INITIAL, [Bytes([ESC]), Idle, Bytes(SgrReport(128, 1, 1, false)[1..])]).chunks| > 1
  {
    hide Run, Typable, SgrReport, Push;
    SgrReportShape(128, 1, 1, false);
    TailShape(128, 1, 1, false);
    var w, s := SgrReport(128, 1, 1, false)[1..], INITIAL.(loneEscapeRecentlyFlushed := true);
    assert [Bytes([ESC]), Idle] + [Bytes(w)] == [Bytes([ESC]), Idle, Bytes(w)];
    EscapeFlushed(keys);
    RunConcat(keys, INITIAL, [Bytes([ESC]), Idle], [Bytes(w)]);
    SideButtonTail(keys, w, s);
  }

  lemma SideButtonTail(keys: KeyDecoder, w: seq<byte>, s: State)
    requires AfterEscape(s) && s.buffer == []
    requires [ESC] + w == SgrReport(128, 1, 1, false) && Typable(keys, w)
    ensures Run(keys, s, [Bytes(w)]).chunks != []
  {
    hide Run, Typable, SgrReport, Push, MouseTailFits;
    SgrReportShape(128, 1, 1, false);
    FedOne(w);
    MouseTailFitsStep([Bytes(w)], 0, false, |w|, false);
    SideButtonUnknown();
    OrphanedReportIsDroppedIff(keys, s, 128, 1, 1, false, [Bytes(w)]);
  }

  lemma SideButtonUnknown()
    ensures !KnownReport(128, 1, 1)
  {
  }

  lemma FedOne(data: seq<byte>)
    ensures ReadsAndFlushes([Bytes(data)]) && Fed([Bytes(data)]) == data
  {
    assert [Bytes(data)][1..] == [] && Fed([]) == [] && data + [] == data;
  }

  // --- A report that timed out behind its introducer ---

  lemma FlushDropsStart(keys: KeyDecoder, s: State, report: seq<byte>, n: nat)
    requires Framing(s) && 3 <= n < |report| && s.buffer == report[..n]
    requires SGR_MOUSE <= report && IsMouseFinal(report[|report| - 1])
    requires forall i :: 3 <= i < |report| - 1 ==> IsTailParameter(report[i])
    ensures FlushTimeout(keys, s) == Outcome(DropMouseTail(s), [])
    ensures ReportRest(report[n..])
  {
    hide Drain, Terminator, Valid, FirstIndexFrom;
    assert SGR_MOUSE <= s.buffer && forall i :: 2 <= i < n ==> !IsMouseFinal(s.buffer[i]);
    assert s.buffer[2] == 0x3c;
    assert CompleteEscapeSequenceLen(s.buffer).None?;
    assert ExtractOneEvent(keys, s.buffer).None?;
    DrainUnfold(keys, s);
    assert forall i :: 0 <= i < |report[n..]| ==> report[n..][i] == report[n + i];
  }

  /** A report cut by a timeout anywhere behind `ESC[<`: the rest is dropped if and only if at most 128 bytes
      were held, no other idle flush comes before its last byte, and reads keep to the budget. */
  lemma TimedOutReportIsDroppedIff(keys: KeyDecoder, s: State, button: nat, column: nat, row: nat, release: bool,
                                   inputs: seq<Input>)
    requires Framing(s) && 3 <= |s.buffer| && Fed(inputs) != [] && ReadsAndFlushes(inputs)
    requires s.buffer + Fed(inputs) == SgrReport(button, column, row, release) && Typable(keys, Fed(inputs))
    ensures var o, n := Run(keys, s, [Idle] + inputs), |s.buffer|;
            var fits := n <= 128 &&
                        MouseTailFits(inputs, n, true, n + |Fed(inputs)|, KnownReport(button, column, row));
            (o.chunks == [] <==> fits) && (fits ==> o.state == Resumed(s))
  {
    hide Run, SgrReport, MouseTailFits, Typable, FlushTimeout, Fed, ReportRest, Pending, KnownReport;
    var report, n, all := SgrReport(button, column, row, release), |s.buffer|, [Idle] + inputs;
    SgrReportShape(button, column, row, release);
    assert s.buffer == report[..n] && Fed(inputs) == report[n..];
    assert all[1..] == inputs;
    RunFlush(keys, s, all);
    FlushDropsStart(keys, s, report, n);
    if n <= 128 {
      RunDropped(keys, DropMouseTail(s), report[n..], inputs, KnownReport(button, column, row));
    } else {
      RestIsTyped(report[n..]);
      RunTypes(keys, DropMouseTail(s), inputs);
    }
  }
}

/** The rest of a control string or colour-scheme report whose head was timed out. */
module FramerDiscards {
  import opened Bytes
  import opened Utf8
  import opened InputEvents
  import opened FramerSpec
  import opened FramerSplit
  import opened FramerUnits
  import opened FramerTyped

  /** Discarding up to the terminator of a family other than the mouse tail. */
  predicate Discarding(s: State, family: Family) {
    s.discardUntil == Some(family) && family != OrphanedSgrMouseTail && !s.loneEscapeRecentlyFlushed
  }

  /** `w` ends in its first terminator. */
  ghost predicate EndsString(w: seq<byte>, family: Family) {
    TerminatedAt(w, family, |w|) && forall j :: 0 <= j < |w| ==> !TerminatedAt(w, family, j)
  }

  // --- Idle flushes that keep the discard going ---

  predicate EndsInEscape(s: seq<byte>) { s != [] && s[|s| - 1] == ESC }

  /** A flush goes on with the ESC that may begin a terminator. */
  function Carried(s: seq<byte>): seq<byte> {
    if EndsInEscape(s) then [ESC] else []
  }

  /** Every flush before the string ends finds only plausible bytes read since the flush before it, and at
      most 128 bytes counted in all; an ESC that a flush finds last is read again by the next. `since` is
      what was read since the last flush, `missing` how much of the string is still to come. */
  predicate FlushesFit(inputs: seq<Input>, family: Family, since: seq<byte>, counted: nat, missing: nat)
    decreases |inputs|
  {
    inputs == [] || missing == 0 ||
    match inputs[0]
    case Bytes(data) =>
      FlushesFit(inputs[1..], family, since + data, counted, if |data| <= missing then missing - |data| else 0)
    case Idle =>
      && PlausibleTail(family, since) && counted + |since| <= 128
      && FlushesFit(inputs[1..], family, Carried(since), counted + |since|, missing)
    case _ => FlushesFit(inputs[1..], family, since, counted, missing)
  }

  /** What an idle flush takes for more of the same string: after an OSC, bytes of colour replies other than most
      hex letters; after a colour-scheme report, bytes of those; after any other string, only an ESC at the end. */
  lemma PlausibleIs(s: seq<byte>)
    ensures PlausibleTail(Osc, s) <==>
            forall i :: 0 <= i < |s| ==> s[i] as char in "0123456789;:/#?._-+rgbRGB" || s[i] == ESC
    ensures PlausibleTail(HostColorSchemeCsi, s) <==> forall i :: 0 <= i < |s| ==> s[i] as char in "0123456789;?n"
    ensures PlausibleTail(StTerminated, s) <==> s != [] && s[|s| - 1] == ESC
  {
    forall i | 0 <= i < |s|
      ensures IsOscTailByte(s[i]) <==> s[i] as char in "0123456789;:/#?._-+rgbRGB" || s[i] == ESC
      ensures (IsDigit(s[i]) || s[i] in [0x3b, 0x3f, 0x6e]) <==> s[i] as char in "0123456789;?n"
    {
      OscTailByte(s[i]);
      SchemeTailByte(s[i]);
    }
  }

  lemma Digits(b: byte, text: string)
    requires "0123456789" <= text && IsDigit(b)
    ensures b as char in text
  {
    assert "0123456789"[b - 0x30] == b as char == text[b - 0x30];
  }

  lemma OscTailByte(b: byte)
    ensures IsOscTailByte(b) <==> b as char in "0123456789;:/#?._-+rgbRGB" || b == ESC
  {
    var text := "0123456789;:/#?._-+rgbRGB";
    if IsDigit(b) { Digits(b, text); }
    assert text[10..] == [';', ':', '/', '#', '?', '.', '_', '-', '+', 'r', 'g', 'b', 'R', 'G', 'B'];
    assert text[..10] == "0123456789" && text == text[..10] + text[10..];
  }

  lemma SchemeTailByte(b: byte)
    ensures (IsDigit(b) || b in [0x3b, 0x3f, 0x6e]) <==> b as char in "0123456789;?n"
  {
    var text := "0123456789;?n";
    if IsDigit(b) { Digits(b, text); }
    assert text[10..] == [';', '?', 'n'];
    assert text[..10] == "0123456789" && text == text[..10] + text[10..];
  }

  lemma FlushesFitStep(inputs: seq<Input>, family: Family, since: seq<byte>, counted: nat, missing: nat)
    requires inputs != [] && missing > 0
    ensures inputs[0].Bytes? && |inputs[0].data| <= missing ==>
              FlushesFit(inputs, family, since, counted, missing) ==
              FlushesFit(inputs[1..], family, since + inputs[0].data, counted, missing - |inputs[0].data|)
    ensures inputs[0].Idle? ==>
              FlushesFit(inputs, family, since, counted, missing) ==
              (&& PlausibleTail(family, since) && counted + |since| <= 128
               && FlushesFit(inputs[1..], family, Carried(since), counted + |since|, missing))
  {
    hide PlausibleTail, Carried;
  }

  lemma NothingToFit(inputs: seq<Input>, family: Family, since: seq<byte>, counted: nat, missing: nat)
    requires inputs == [] || missing == 0
    ensures FlushesFit(inputs, family, since, counted, missing)
  {
  }

  /** Without flushes there is nothing to fit. */
  lemma {:induction false} ReadsFit(inputs: seq<Input>, family: Family, since: seq<byte>, counted: nat, missing: nat)
    requires Idle !in inputs
    ensures FlushesFit(inputs, family, since, counted, missing)
    decreases |inputs|
  {
    if inputs != [] && missing > 0 {
      if inputs[0].Bytes? {
        var data := inputs[0].data;
        ReadsFit(inputs[1..], family, since + data, counted, if |data| <= missing then missing - |data| else 0);
      } else {
        ReadsFit(inputs[1..], family, since, counted, missing);
      }
    }
  }

  lemma {:induction false} FlushesFitPrefix(a: seq<Input>, b: seq<Input>, family: Family, since: seq<byte>,
                                            counted: nat, missing: nat)
    requires FlushesFit(a + b, family, since, counted, missing)
    ensures FlushesFit(a, family, since, counted, missing)
    decreases |a|
  {
    hide PlausibleTail, Carried;
    if a != [] && missing > 0 {
      assert (a + b)[0] == a[0] && (a + b)[1..] == a[1..] + b;
      match a[0]
      case Bytes(data) =>
        FlushesFitPrefix(a[1..], b, family, since + data, counted, if |data| <= missing then missing - |data| else 0);
      case Idle => FlushesFitPrefix(a[1..], b, family, Carried(since), counted + |since|, missing);
      case _ => FlushesFitPrefix(a[1..], b, family, since, counted, missing);
    }
  }

  // --- What the buffer holds ---

  /** `b` is what the buffer may hold when `n` bytes of `w` have been read: the last of them, and the very
      last at least if it is an ESC. */
  predicate Window(w: seq<byte>, n: nat, b: seq<byte>) {
    n < |w| && |b| <= n && b == w[n - |b|..n] && (n > 0 && w[n - 1] == ESC ==> b != [])
  }

  lemma WindowLength(w: seq<byte>, n: nat, b: seq<byte>)
    requires Window(w, n, b)
    ensures n < |w|
  {
  }

  lemma WindowUnended(w: seq<byte>, family: Family, n: nat, b: seq<byte>)
    requires EndsString(w, family) && Window(w, n, b) && family != OrphanedSgrMouseTail
    ensures Terminator(b, family).None?
  {
    hide Terminator;
    assert forall i :: 0 <= i < |b| ==> b[i] == w[n - |b| + i];
    assert forall j :: 0 <= j <= |b| && TerminatedAt(b, family, j) ==> TerminatedAt(w, family, n - |b| + j);
  }

  lemma WindowEnds(w: seq<byte>, family: Family, n: nat, b: seq<byte>, data: seq<byte>)
    requires EndsString(w, family) && Window(w, n, b) && data == w[n..] && family != OrphanedSgrMouseTail
    ensures Terminator(b + data, family) == Some(|b + data|)
  {
    hide Terminator;
    var x := b + data;
    assert forall i :: 0 <= i < |x| ==> x[i] == w[n - |b| + i];
    assert forall j :: 0 <= j < |x| && TerminatedAt(x, family, j) ==> TerminatedAt(w, family, n - |b| + j);
    TerminatorIs(x, family, |x|);
  }

  lemma WindowCarries(w: seq<byte>, n: nat, b: seq<byte>)
    requires Window(w, n, b)
    ensures Window(w, n, Carried(b))
  {
    if EndsInEscape(b) { assert w[n - 1..n] == [w[n - 1]]; }
  }

  lemma WindowGrows(w: seq<byte>, n: nat, b: seq<byte>, data: seq<byte>)
    requires Window(w, n, b) && n + |data| < |w| && data == w[n..n + |data|]
    ensures Window(w, n + |data|, b + data)
  {
    assert b + data == w[n - |b|..n + |data|];
  }

  lemma SliceNext(w: seq<byte>, n: nat, data: seq<byte>, later: seq<byte>)
    requires n <= |w| && data + later == w[n..]
    ensures n + |data| <= |w| && data == w[n..n + |data|] && later == w[n + |data|..]
  {
    assert w[n..][..|data|] == w[n..n + |data|] && w[n..][|data|..] == w[n + |data|..];
  }

  // --- Calls while discarding ---

  lemma PushWaits(keys: KeyDecoder, s: State, family: Family, data: seq<byte>)
    requires Discarding(s, family) && Terminator(s.buffer + data, family).None?
    ensures Push(keys, s, data) == Outcome(Append(s, data), [])
  {
    hide Drain, Terminator, ExtractOneEvent, ScanOrphanedTail;
    DrainUnfold(keys, Append(s, data));
  }

  lemma PushEnds(keys: KeyDecoder, s: State, family: Family, data: seq<byte>)
    requires Discarding(s, family) && Terminator(s.buffer + data, family) == Some(|s.buffer + data|)
    ensures Push(keys, s, data) == Outcome(Resumed(s), [])
  {
    hide Drain, Terminator, ExtractOneEvent, ScanOrphanedTail;
    var x := Append(s, data);
    assert x.buffer[|x.buffer|..] == [];
    DrainUnfold(keys, x);
    DrainOfNothing(keys, Resumed(s));
  }

  lemma FlushWhileDiscarding(keys: KeyDecoder, s: State, family: Family)
    requires Discarding(s, family) && Terminator(s.buffer, family).None?
    ensures FlushTimeout(keys, s) ==
            var counted := s.discardedTailBytes + |s.buffer|;
            if PlausibleTail(family, s.buffer) && counted <= 128
            then Outcome(s.(buffer := Carried(s.buffer), discardedTailBytes := counted), [])
            else Outcome(Resumed(s), [])
  {
    hide Drain, Terminator, PlausibleTail, ExtractOneEvent, ScanOrphanedTail;
    DrainUnfold(keys, s);
  }

  // --- Runs ---

  /** Until the string ends, the framer goes on discarding; when it ends, the discard is over. */
  lemma {:induction false} RunDiscards(keys: KeyDecoder, s: State, family: Family, w: seq<byte>, n: nat,
                                       inputs: seq<Input>, missing: seq<byte>)
    requires Discarding(s, family) && EndsString(w, family) && Window(w, n, s.buffer)
    requires ReadsAndFlushes(inputs) && Fed(inputs) + missing == w[n..]
    requires FlushesFit(inputs, family, s.buffer, s.discardedTailBytes, |w| - n)
    ensures Run(keys, s, inputs).chunks == []
    ensures if missing == [] then Run(keys, s, inputs).state == Resumed(s)
            else Discarding(Run(keys, s, inputs).state, family)
    decreases |inputs|
  {
    hide EndsString, Window, Push, FlushTimeout, Run, Fed, ReadsAndFlushes, FlushesFit, PlausibleTail, Carried;
    WindowLength(w, n, s.buffer);
    if inputs == [] {
      RunOfNothing(keys, s);
      assert |[] + missing| == |missing|;
    } else {
      FlushesFitStep(inputs, family, s.buffer, s.discardedTailBytes, |w| - n);
      if !inputs[0].Bytes? {
        RunFlush(keys, s, inputs);
        WindowUnended(w, family, n, s.buffer);
        FlushWhileDiscarding(keys, s, family);
        WindowCarries(w, n, s.buffer);
        RunDiscards(keys, FlushTimeout(keys, s).state, family, w, n, inputs[1..], missing);
      } else {
        RunRead(keys, s, inputs);
        var data, later := inputs[0].data, Fed(inputs[1..]) + missing;
        assert data + later == Fed(inputs) + missing;
        SliceNext(w, n, data, later);
        if n + |data| < |w| {
          WindowGrows(w, n, s.buffer, data);
          WindowUnended(w, family, n + |data|, s.buffer + data);
          PushWaits(keys, s, family, data);
          RunDiscards(keys, Append(s, data), family, w, n + |data|, inputs[1..], missing);
        } else {
          assert |later| == 0 && data == w[n..];
          WindowEnds(w, family, n, s.buffer, data);
          PushEnds(keys, s, family, data);
          RunNothing(keys, Resumed(s), inputs[1..]);
        }
      }
    }
  }

  /** The rest of a string of any family, whatever its bytes, cut anywhere by reads and by idle flushes that
      fit, emits nothing and leaves the framer as before the discard began. */
  lemma LateTailIsSwallowed(keys: KeyDecoder, s: State, family: Family, w: seq<byte>, inputs: seq<Input>)
    requires Discarding(s, family) && EndsString(w, family) && s.buffer == []
    requires ReadsAndFlushes(inputs) && Fed(inputs) == w
    requires FlushesFit(inputs, family, [], s.discardedTailBytes, |w|)
    ensures Run(keys, s, inputs) == Outcome(Resumed(s), [])
  {
    hide Run, FlushesFit, EndsString;
    assert w[0..] == w && w[0..0] == [] && Fed(inputs) + [] == Fed(inputs);
    EndsSomewhere(w, family);
    RunDiscards(keys, s, family, w, 0, inputs, []);
  }

  lemma EndsSomewhere(w: seq<byte>, family: Family)
    requires EndsString(w, family)
    ensures w != []
  {
  }

  // --- A discard that is given up ---

  /** A terminator of the family, and bytes that cannot begin or be one. */
  predicate IsTerminator(family: Family, t: seq<byte>) {
    match family
    case Osc => t == [BEL] || t == STRING_TERMINATOR
    case StTerminated => t == STRING_TERMINATOR
    case HostColorSchemeCsi => t == [0x6e]
    case OrphanedSgrMouseTail => false
  }

  predicate PlainText(family: Family, tail: seq<byte>) {
    forall i :: 0 <= i < |tail| ==>
      tail[i] != ESC && (family == Osc ==> tail[i] != BEL) && (family == HostColorSchemeCsi ==> tail[i] != 0x6e)
  }

  /** Plain bytes, `t` of them, and a terminator. */
  predicate PlainString(family: Family, w: seq<byte>, t: nat) {
    t <= |w| && PlainText(family, w[..t]) && IsTerminator(family, w[t..])
  }

  lemma PlainStringShape(family: Family, w: seq<byte>, t: nat)
    requires PlainString(family, w, t)
    ensures |w| == t + 1 || (|w| == t + 2 && w[t] == ESC && w[t + 1] == 0x5c)
    ensures |w| == t + 1 ==> w[t] != ESC
    ensures forall i :: 0 <= i < t ==> w[i] != ESC
    ensures EndsString(w, family)
  {
    assert forall i :: 0 <= i < t ==> w[..t][i] == w[i];
    assert forall i :: 0 <= i < |w[t..]| ==> w[t..][i] == w[t + i];
    if |w| == t + 2 { assert w[t + 1] == STRING_TERMINATOR[1]; }
  }

  lemma PlainStringOf(family: Family, tail: seq<byte>, term: seq<byte>)
    requires PlainText(family, tail) && IsTerminator(family, term)
    ensures PlainString(family, tail + term, |tail|)
  {
    assert (tail + term)[..|tail|] == tail && (tail + term)[|tail|..] == term;
  }

  /** Wherever a discard is given up, the next byte is typed. */
  lemma RestIsPending(family: Family, w: seq<byte>, t: nat, n: nat)
    requires PlainString(family, w, t) && n < |w|
    ensures Pending([], w[n..])
  {
    hide PlainString;
    PlainStringShape(family, w, t);
    assert w[n..][0] == w[n];
    if n == t && |w| == t + 2 { assert w[n..][1] == w[n + 1]; }
  }

  lemma TypableRest(keys: KeyDecoder, w: seq<byte>, n: nat)
    requires Typable(keys, w) && n <= |w|
    ensures Typable(keys, w[n..])
  {
    assert forall i :: 0 <= i < |w[n..]| ==> w[n..][i] == w[n + i];
  }

  lemma {:induction false} RunGivesUp(keys: KeyDecoder, s: State, family: Family, w: seq<byte>, t: nat, n: nat,
                                      inputs: seq<Input>)
    requires Discarding(s, family) && PlainString(family, w, t) && Window(w, n, s.buffer) && Typable(keys, w)
    requires ReadsAndFlushes(inputs) && Fed(inputs) == w[n..]
    requires !FlushesFit(inputs, family, s.buffer, s.discardedTailBytes, |w| - n)
    ensures Run(keys, s, inputs).chunks != []
    decreases |inputs|
  {
    hide EndsString, Window, Push, FlushTimeout, Run, Fed, ReadsAndFlushes, FlushesFit, PlausibleTail, Carried,
         PlainString, Pending, Typable;
    WindowLength(w, n, s.buffer);
    PlainStringShape(family, w, t);
    if inputs == [] {
      NothingToFit(inputs, family, s.buffer, s.discardedTailBytes, |w| - n);
    } else {
      FlushesFitStep(inputs, family, s.buffer, s.discardedTailBytes, |w| - n);
      if !inputs[0].Bytes? {
        RunFlush(keys, s, inputs);
        WindowUnended(w, family, n, s.buffer);
        FlushWhileDiscarding(keys, s, family);
        if FlushTimeout(keys, s).state == Resumed(s) {
          RestIsPending(family, w, t, n);
          TypableRest(keys, w, n);
          RunTypes(keys, Resumed(s), inputs[1..]);
        } else {
          WindowCarries(w, n, s.buffer);
          RunGivesUp(keys, FlushTimeout(keys, s).state, family, w, t, n, inputs[1..]);
        }
      } else {
        RunRead(keys, s, inputs);
        var data := inputs[0].data;
        SliceNext(w, n, data, Fed(inputs[1..]));
        if n + |data| < |w| {
          WindowGrows(w, n, s.buffer, data);
          WindowUnended(w, family, n + |data|, s.buffer + data);
          PushWaits(keys, s, family, data);
          RunGivesUp(keys, Append(s, data), family, w, t, n + |data|, inputs[1..]);
        } else {
          NothingToFit(inputs[1..], family, s.buffer + data, s.discardedTailBytes, |w| - n - |data|);
        }
      }
    }
  }

  /** Where its characters are keys, the rest of a string is swallowed exactly when every idle flush before its
      end fits: one that does not, and what follows is typed into the pane. */
  lemma LateTailIsSwallowedIff(keys: KeyDecoder, s: State, family: Family, tail: seq<byte>, term: seq<byte>,
                               inputs: seq<Input>)
    requires PlainText(family, tail) && IsTerminator(family, term) && Discarding(s, family) && s.buffer == []
    requires Typable(keys, tail + term)
    requires ReadsAndFlushes(inputs) && Fed(inputs) == tail + term
    ensures Run(keys, s, inputs).chunks == [] <==>
            FlushesFit(inputs, family, [], s.discardedTailBytes, |tail + term|)
  {
    hide Run, FlushesFit, Typable, PlainText, EndsString, PlainString;
    var w := tail + term;
    PlainStringOf(family, tail, term);
    PlainStringShape(family, w, |tail|);
    if FlushesFit(inputs, family, [], s.discardedTailBytes, |w|) {
      LateTailIsSwallowed(keys, s, family, w, inputs);
    } else {
      assert w[0..] == w && w[0..0] == [];
      RunGivesUp(keys, s, family, w, |tail|, 0, inputs);
    }
  }

  // --- Input behind the string ---

  /** Input read together with the end of the string is framed as if nothing had been discarded. */
  lemma InputAfterTailIsFramed(keys: KeyDecoder, s: State, family: Family, w: seq<byte>, inputs: seq<Input>,
                               last: seq<byte>, later: seq<byte>)
    requires Discarding(s, family) && EndsString(w, family) && s.buffer == []
    requires ReadsAndFlushes(inputs)
    requires last != [] && Fed(inputs) + last == w
    requires FlushesFit(inputs + [Bytes(last)], family, [], s.discardedTailBytes, |w|)
    ensures Run(keys, s, inputs + [Bytes(last + later)]) == Push(keys, Resumed(s), later)
  {
    hide Drain, FlushesFit, EndsString;
    var before := Run(keys, s, inputs);
    assert w[0..] == w && w[0..0] == [];
    EndsSomewhere(w, family);
    FlushesFitPrefix(inputs, [Bytes(last)], family, [], s.discardedTailBytes, |w|);
    RunDiscards(keys, s, family, w, 0, inputs, last);
    FedConcat(inputs, [Bytes(last)]);
    assert [Bytes(last)][1..] == [] && last + [] == last;
    LateTailIsSwallowed(keys, s, family, w, inputs + [Bytes(last)]);
    RunConcat(keys, s, inputs, [Bytes(last)]);
    RunConcat(keys, s, inputs, [Bytes(last + later)]);
    RunOfOnePush(keys, before.state, last);
    RunOfOnePush(keys, before.state, last + later);
    SplitInvariance(keys, before.state, last, later);
    PrependNothing(Push(keys, Resumed(s), later));
    PrependNothing(Push(keys, before.state, last + later));
  }

  // --- The colour-scheme report ---

  function SchemeReport(dark: bool): (report: seq<byte>)
    ensures |report| == 9
  {
    [ESC, 0x5b, 0x3f, 0x39, 0x39, 0x37, 0x3b, if dark then 0x31 else 0x32, 0x6e]
  }

  lemma FlushStartsScheme(keys: KeyDecoder, s: State, dark: bool, n: nat)
    requires Framing(s) && 3 <= n < 9 && s.buffer == SchemeReport(dark)[..n]
    ensures FlushTimeout(keys, s) == Outcome(StartDiscard(s, HostColorSchemeCsi), [])
  {
    hide Drain, Terminator, Valid, FirstIndexFrom;
    var b := s.buffer;
    assert b[0] == ESC && b[1] == 0x5b && b[2] == 0x3f && forall i :: 2 <= i < n ==> !IsCsiFinal(b[i]);
    assert CompleteEscapeSequenceLen(b).None?;
    assert ExtractOneEvent(keys, b).None?;
    DrainUnfold(keys, s);
  }

  lemma SchemeRest(dark: bool, n: nat)
    requires 3 <= n < 9
    ensures PlausibleTail(HostColorSchemeCsi, SchemeReport(dark)[n..]) &&
            EndsString(SchemeReport(dark)[n..], HostColorSchemeCsi)
  {
    var w := SchemeReport(dark)[n..];
    assert forall i :: 0 <= i < |w| ==> w[i] == SchemeReport(dark)[n + i];
  }

  /** A colour-scheme report that timed out anywhere behind `ESC[?`: the rest of it, cut anywhere by reads and
      idle flushes, emits nothing, and the framer is back to normal. */
  lemma TimedOutSchemeReportIsSwallowed(keys: KeyDecoder, s: State, dark: bool, n: nat, inputs: seq<Input>)
    requires Framing(s) && 3 <= n < 9 && s.buffer == SchemeReport(dark)[..n]
    requires ReadsAndFlushes(inputs) && Fed(inputs) == SchemeReport(dark)[n..]
    ensures Run(keys, s, [Idle] + inputs) == Outcome(Resumed(s), [])
  {
    hide Run, Fed, FlushTimeout, SchemeReport, PlausibleTail, EndsString, FlushesFit;
    var all, w := [Idle] + inputs, SchemeReport(dark)[n..];
    assert all[1..] == inputs && [] + w == w;
    RunFlush(keys, s, all);
    FlushStartsScheme(keys, s, dark, n);
    SchemeRest(dark, n);
    DigitsFit(inputs, [], 0, |w|);
    LateTailIsSwallowed(keys, StartDiscard(s, HostColorSchemeCsi), HostColorSchemeCsi, w, inputs);
  }

  /** No flush count matters where no byte is an ESC. */
  lemma {:induction false} DigitsFit(inputs: seq<Input>, since: seq<byte>, counted: nat, missing: nat)
    requires ReadsAndFlushes(inputs) && PlausibleTail(HostColorSchemeCsi, since + Fed(inputs))
    requires counted + |since| + |Fed(inputs)| <= 128
    ensures FlushesFit(inputs, HostColorSchemeCsi, since, counted, missing)
    decreases |inputs|
  {
    hide PlausibleTail;
    if inputs != [] && missing > 0 {
      var later := Fed(inputs[1..]);
      if inputs[0].Bytes? {
        var data := inputs[0].data;
        assert since + data + later == since + Fed(inputs);
        DigitsFit(inputs[1..], since + data, counted, if |data| <= missing then missing - |data| else 0);
      } else {
        assert since + Fed(inputs) == since + later;
        DigitsDoNotEscape(since, later);
        DigitsFit(inputs[1..], Carried(since), counted + |since|, missing);
      }
    }
  }

  lemma DigitsDoNotEscape(since: seq<byte>, later: seq<byte>)
    requires PlausibleTail(HostColorSchemeCsi, since + later)
    ensures PlausibleTail(HostColorSchemeCsi, since) && PlausibleTail(HostColorSchemeCsi, later) && Carried(since) == []
    ensures Carried(since) + later == later
  {
    var all := since + later;
    assert forall i :: 0 <= i < |since| ==> since[i] == all[i];
    assert forall i :: 0 <= i < |later| ==> later[i] == all[|since| + i];
  }
}

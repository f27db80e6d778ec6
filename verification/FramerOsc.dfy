/** Colour replies whose first bytes were timed out before their command was complete. */
module FramerOsc {
  import opened Bytes
  import opened Utf8
  import opened InputEvents
  import opened InputGrammar
  import opened FramerSpec
  import opened FramerSplit
  import opened FramerUnits
  import opened FramerTyped
  import opened FramerDiscards

  /** The start of an OSC, too short to be known as a colour reply, becomes a discard. */
  lemma FlushStartsOsc(keys: KeyDecoder, s: State, n: nat)
    requires Framing(s) && 2 <= n <= 4 && |s.buffer| == n && s.buffer[0] == ESC && s.buffer[1] == 0x5d
    requires Terminator(s.buffer, Osc).None?
    ensures FlushTimeout(keys, s) == Outcome(StartDiscard(s, Osc), [])
  {
    hide Drain, Terminator, Valid;
    var b := s.buffer;
    assert CompleteEscapeSequenceLen(b).None? && ControlStringOf(b) == Some(Incomplete(Osc));
    assert ExtractOneEvent(keys, b).None?;
    DrainUnfold(keys, s);
  }

  lemma ReplyStart(kind: ColorKind, color: seq<byte>, term: seq<byte>, n: nat)
    requires IsColorReply(color, term) && 2 <= n <= 4
    ensures var w := ColorReply(kind, color, term);
            && |w| == 5 + |color| + |term| && w[..n][0] == ESC && w[..n][1] == 0x5d && Terminator(w[..n], Osc).None?
            && PlainString(Osc, w[n..], 5 - n + |color|)
  {
    hide IsRgbColor, Terminator;
    var w, t := ColorReply(kind, color, term), 5 - n + |color|;
    ColorReplyShape(kind, color, term);
    assert forall j :: 0 <= j <= n ==> TerminatedAt(w[..n], Osc, j) == TerminatedAt(w, Osc, j);
    assert w[n..][t..] == term;
    assert forall i :: 0 <= i < t ==> w[n..][..t][i] == w[n + i];
  }

  /** A colour reply that timed out behind `ESC]` and before its command was complete: the rest emits nothing,
      and leaves the normal state, if and only if every idle flush before its end fits. One that finds a hex
      letter other than `b` does not. */
  lemma TimedOutColorReplyIff(keys: KeyDecoder, s: State, kind: ColorKind, color: seq<byte>, term: seq<byte>, n: nat,
                              inputs: seq<Input>)
    requires IsColorReply(color, term) && Framing(s) && 2 <= n <= 4 && s.buffer == ColorReply(kind, color, term)[..n]
    requires ReadsAndFlushes(inputs) && Fed(inputs) == ColorReply(kind, color, term)[n..] && Typable(keys, Fed(inputs))
    ensures var o, fits := Run(keys, s, [Idle] + inputs), FlushesFit(inputs, Osc, [], 0, |Fed(inputs)|);
            (o.chunks == [] <==> fits) && (fits ==> o.state == Resumed(s))
  {
    hide Run, Fed, FlushTimeout, ColorReply, IsColorReply, FlushesFit, Typable, EndsString, Terminator, PlainText;
    var all, w, t := [Idle] + inputs, Fed(inputs), 5 - n + |color|;
    assert all[1..] == inputs;
    ReplyStart(kind, color, term, n);
    PlainStringShape(Osc, w, t);
    RunFlush(keys, s, all);
    FlushStartsOsc(keys, s, n);
    assert w[..t] + w[t..] == w;
    LateTailIsSwallowedIff(keys, StartDiscard(s, Osc), Osc, w[..t], w[t..], inputs);
    if FlushesFit(inputs, Osc, [], 0, |w|) {
      LateTailIsSwallowed(keys, StartDiscard(s, Osc), Osc, w, inputs);
    }
  }

  // --- Plausible tails and their budget ---

  /** How many idle flushes fall between the ESC and the backslash of an ST that ends the string: `missing`
      bytes of it are still to come. Each of them has that ESC counted once more. */
  function SplitFlushes(inputs: seq<Input>, st: bool, missing: nat): nat
    decreases |inputs|
  {
    if inputs == [] || missing == 0 then 0
    else match inputs[0]
      case Bytes(data) => SplitFlushes(inputs[1..], st, if |data| <= missing then missing - |data| else 0)
      case Idle => (if st && missing == 1 then 1 else 0) + SplitFlushes(inputs[1..], st, missing)
      case _ => SplitFlushes(inputs[1..], st, missing)
  }

  lemma SplitFlushesStep(inputs: seq<Input>, st: bool, missing: nat)
    requires inputs != [] && missing > 0
    ensures inputs[0].Bytes? && |inputs[0].data| <= missing ==>
              SplitFlushes(inputs, st, missing) == SplitFlushes(inputs[1..], st, missing - |inputs[0].data|)
    ensures inputs[0].Idle? ==>
              SplitFlushes(inputs, st, missing) ==
              (if st && missing == 1 then 1 else 0) + SplitFlushes(inputs[1..], st, missing)
  {
  }

  lemma NoSplitFlushes(inputs: seq<Input>, st: bool, missing: nat)
    requires inputs == [] || missing == 0 || !st
    ensures SplitFlushes(inputs, st, missing) == 0
    decreases |inputs|
  {
  }

  /** `t` plausible bytes other than ESC, then BEL or ST. */
  predicate PlausibleString(w: seq<byte>, t: nat) {
    PlainString(Osc, w, t) && forall i :: 0 <= i < t ==> IsOscTailByte(w[i])
  }

  lemma PlausibleShape(w: seq<byte>, t: nat)
    requires PlausibleString(w, t)
    ensures |w| == t + 1 || |w| == t + 2
    ensures EndsString(w, Osc)
  {
    hide PlainString, EndsString;
    PlainStringShape(Osc, w, t);
  }

  /** What the buffer holds of such a string is plausible, and ends in an ESC only inside the ST. */
  lemma PlausibleWindow(w: seq<byte>, t: nat, n: nat, since: seq<byte>)
    requires PlausibleString(w, t) && Window(w, n, since)
    ensures PlausibleTail(Osc, since) && n <= t + 1
    ensures Carried(since) == if n == t + 1 then [ESC] else []
  {
    hide PlainString, EndsString;
    PlainStringShape(Osc, w, t);
    assert forall i :: 0 <= i < |since| ==> since[i] == w[n - |since| + i];
  }

  /** Bytes counted, bytes of the tail still to come, and split flushes to come, within the budget; the ESC of
      an ST that has been read counts once more. */
  predicate WithinBudget(counted: nat, t: nat, n: nat, splits: nat) {
    counted + (if n <= t then t - n else 0) + splits <= 128 + if n > t then 1 else 0
  }

  lemma BudgetOfRead(counted: nat, t: nat, n: nat, read: nat, splits: nat)
    requires n + read <= t + 1
    ensures WithinBudget(counted, t, n, splits) == WithinBudget(counted + read, t, n + read, splits)
  {
  }

  lemma BudgetOfFlush(counted: nat, t: nat, n: nat, later: nat)
    requires n <= t + 1
    ensures var again := if n == t + 1 then 1 else 0;
            var now, next := WithinBudget(counted, t, n, again + later), WithinBudget(counted + again, t, n, later);
            && (now ==> counted <= 128 && next)
            && (counted <= 128 && (later > 0 ==> next) && again + later > 0 ==> now)
  {
  }

  lemma FedFirst(inputs: seq<Input>)
    requires ReadsAndFlushes(inputs) && inputs != []
    ensures ReadsAndFlushes(inputs[1..]) && (inputs[0].Bytes? || inputs[0].Idle?)
    ensures Fed(inputs) == (if inputs[0].Bytes? then inputs[0].data else []) + Fed(inputs[1..])
  {
  }

  /** Flushes fit a plausible string that keeps to the budget, and if one of them splits the ST, no other. */
  predicate FitsBudget(inputs: seq<Input>, w: seq<byte>, t: nat, n: nat, since: seq<byte>, counted: nat)
    requires n < |w|
  {
    var splits := SplitFlushes(inputs, |w| == t + 2, |w| - n);
    var fits := FlushesFit(inputs, Osc, since, counted, |w| - n);
    && (WithinBudget(counted + |since|, t, n, splits) ==> fits)
    && (fits && splits > 0 ==> WithinBudget(counted + |since|, t, n, splits))
  }

  lemma FitsBudgetAfterRead(inputs: seq<Input>, w: seq<byte>, t: nat, n: nat, since: seq<byte>, counted: nat)
    requires n < |w| && inputs != [] && inputs[0].Bytes? && n + |inputs[0].data| < |w| <= t + 2
    requires FitsBudget(inputs[1..], w, t, n + |inputs[0].data|, since + inputs[0].data, counted)
    ensures FitsBudget(inputs, w, t, n, since, counted)
  {
    hide FlushesFit, SplitFlushes, WithinBudget;
    var data, st := inputs[0].data, |w| == t + 2;
    FlushesFitStep(inputs, Osc, since, counted, |w| - n);
    SplitFlushesStep(inputs, st, |w| - n);
    assert |w| - n - |data| == |w| - (n + |data|) && |since + data| == |since| + |data|;
    BudgetOfRead(counted + |since|, t, n, |data|, SplitFlushes(inputs, st, |w| - n));
    assert counted + |since| + |data| == counted + |since + data|;
  }

  lemma FitsBudgetAfterFlush(inputs: seq<Input>, w: seq<byte>, t: nat, n: nat, since: seq<byte>, counted: nat)
    requires t < |w| <= t + 2 && n < |w| && inputs != [] && inputs[0].Idle?
    requires PlausibleTail(Osc, since) && Carried(since) == if n == t + 1 then [ESC] else []
    requires FitsBudget(inputs[1..], w, t, n, Carried(since), counted + |since|)
    ensures FitsBudget(inputs, w, t, n, since, counted)
  {
    hide FlushesFit, SplitFlushes, WithinBudget, PlausibleTail, Carried;
    var st := |w| == t + 2;
    FlushesFitStep(inputs, Osc, since, counted, |w| - n);
    SplitFlushesStep(inputs, st, |w| - n);
    BudgetOfFlush(counted + |since|, t, n, SplitFlushes(inputs[1..], st, |w| - n));
  }

  lemma {:induction false} PlausibleTailsFit(inputs: seq<Input>, w: seq<byte>, t: nat, n: nat, since: seq<byte>,
                                             counted: nat)
    requires PlausibleString(w, t) && Window(w, n, since) && ReadsAndFlushes(inputs) && Fed(inputs) == w[n..]
    ensures FitsBudget(inputs, w, t, n, since, counted)
    decreases |inputs|
  {
    hide PlausibleString, PlausibleTail, Carried, Window, FlushesFit, SplitFlushes, Fed, ReadsAndFlushes, FitsBudget;
    WindowLength(w, n, since);
    PlausibleShape(w, t);
    if inputs == [] {
      NothingFitsBudget(inputs, w, t, n, since, counted);
    } else {
      FedFirst(inputs);
      PlausibleWindow(w, t, n, since);
      if inputs[0].Bytes? {
        var data := inputs[0].data;
        SliceNext(w, n, data, Fed(inputs[1..]));
        if n + |data| < |w| {
          WindowGrows(w, n, since, data);
          PlausibleTailsFit(inputs[1..], w, t, n + |data|, since + data, counted);
          FitsBudgetAfterRead(inputs, w, t, n, since, counted);
        } else {
          NothingFitsBudget(inputs, w, t, n, since, counted);
        }
      } else {
        WindowCarries(w, n, since);
        PlausibleTailsFit(inputs[1..], w, t, n, Carried(since), counted + |since|);
        FitsBudgetAfterFlush(inputs, w, t, n, since, counted);
      }
    }
  }

  lemma NothingFitsBudget(inputs: seq<Input>, w: seq<byte>, t: nat, n: nat, since: seq<byte>, counted: nat)
    requires n < |w| && (inputs == [] || (inputs[0].Bytes? && n + |inputs[0].data| == |w|))
    ensures FitsBudget(inputs, w, t, n, since, counted)
  {
    hide FlushesFit, SplitFlushes, WithinBudget;
    var st := |w| == t + 2;
    if inputs == [] {
      NothingToFit(inputs, Osc, since, counted, |w| - n);
      NoSplitFlushes(inputs, st, |w| - n);
    } else {
      FlushesFitStep(inputs, Osc, since, counted, |w| - n);
      SplitFlushesStep(inputs, st, |w| - n);
      NothingToFit(inputs[1..], Osc, since + inputs[0].data, counted, 0);
      NoSplitFlushes(inputs[1..], st, 0);
    }
  }

  /** Late tails never leak: the rest of an OSC string, of plausible bytes and a BEL or ST, cut anywhere by reads
      and idle flushes, emits nothing and leaves the framer as before the discard began, if the bytes already
      discarded, those of the tail and the flushes that split the ST come to at most 128. */
  lemma PlausibleTailIsSwallowed(keys: KeyDecoder, s: State, w: seq<byte>, t: nat, inputs: seq<Input>)
    requires Discarding(s, Osc) && s.buffer == [] && PlausibleString(w, t)
    requires ReadsAndFlushes(inputs) && Fed(inputs) == w
    requires s.discardedTailBytes + t + SplitFlushes(inputs, |w| == t + 2, |w|) <= 128
    ensures Run(keys, s, inputs) == Outcome(Resumed(s), [])
  {
    hide Run, Fed, FlushesFit, EndsString, SplitFlushes, PlausibleString;
    assert w[0..] == w && w[0..0] == [];
    PlausibleShape(w, t);
    PlausibleTailsFit(inputs, w, t, 0, [], s.discardedTailBytes);
    LateTailIsSwallowed(keys, s, Osc, w, inputs);
  }

  /** Where its characters are keys and some flush does split the ST, the bound is exact. */
  lemma PlausibleTailIsSwallowedIff(keys: KeyDecoder, s: State, w: seq<byte>, t: nat, inputs: seq<Input>)
    requires Discarding(s, Osc) && s.buffer == [] && PlausibleString(w, t) && Typable(keys, w)
    requires ReadsAndFlushes(inputs) && Fed(inputs) == w && SplitFlushes(inputs, |w| == t + 2, |w|) > 0
    ensures Run(keys, s, inputs).chunks == [] <==>
            s.discardedTailBytes + t + SplitFlushes(inputs, |w| == t + 2, |w|) <= 128
  {
    hide Run, Fed, FlushesFit, EndsString, SplitFlushes, Typable, PlainText;
    assert w[0..] == w && w[0..0] == [] && w[..t] + w[t..] == w;
    PlausibleShape(w, t);
    PlausibleTailsFit(inputs, w, t, 0, [], s.discardedTailBytes);
    LateTailIsSwallowedIff(keys, s, Osc, w[..t], w[t..], inputs);
  }

  /** In particular, a colour reply without the other hex letters that timed out before its command was complete
      does not leak while the flushes that split its ST leave room in the budget. */
  lemma PlausibleReplyIsSwallowed(keys: KeyDecoder, s: State, kind: ColorKind, color: seq<byte>, term: seq<byte>,
                                  n: nat, inputs: seq<Input>)
    requires IsColorReply(color, term) && Framing(s) && 2 <= n <= 4 && s.buffer == ColorReply(kind, color, term)[..n]
    requires forall i :: 0 <= i < |color| ==> IsOscTailByte(color[i])
    requires ReadsAndFlushes(inputs) && Fed(inputs) == ColorReply(kind, color, term)[n..]
    requires 5 - n + |color| + SplitFlushes(inputs, |term| == 2, |Fed(inputs)|) <= 128
    ensures Run(keys, s, [Idle] + inputs) == Outcome(Resumed(s), [])
  {
    hide Run, Fed, FlushTimeout, IsRgbColor, EndsString, Terminator, PlainText, SplitFlushes;
    var all, w, t := [Idle] + inputs, Fed(inputs), 5 - n + |color|;
    assert all[1..] == inputs;
    ReplyStart(kind, color, term, n);
    assert forall i :: 0 <= i < t ==> w[i] == ColorReply(kind, color, term)[n + i];
    RunFlush(keys, s, all);
    FlushStartsOsc(keys, s, n);
    PlausibleTailIsSwallowed(keys, StartDiscard(s, Osc), w, t, inputs);
  }

  // --- Two leaks ---

  lemma TimedOutOscStart(keys: KeyDecoder)
    ensures Run(keys, INITIAL, [Bytes([ESC, 0x5d]), Idle]) == Outcome(INITIAL.(discardUntil := Some(Osc)), [])
  {
    hide Run, Terminator, Valid;
    assert Terminator([ESC, 0x5d], Osc).None?;
    assert CompleteEscapeSequenceLen([ESC, 0x5d]).None? && ControlStringOf([ESC, 0x5d]) == Some(Incomplete(Osc));
    ReadThenIdle(keys, [ESC, 0x5d]);
  }

  lemma RunAfterStart(keys: KeyDecoder, inputs: seq<Input>)
    ensures Run(keys, INITIAL, [Bytes([ESC, 0x5d]), Idle] + inputs)
         == Run(keys, INITIAL.(discardUntil := Some(Osc)), inputs)
  {
    hide Run;
    TimedOutOscStart(keys);
    RunConcat(keys, INITIAL, [Bytes([ESC, 0x5d]), Idle], inputs);
    PrependNothing(Run(keys, INITIAL.(discardUntil := Some(Osc)), inputs));
  }

  /** `11;rgb:28/2a` and `/36` with its BEL: the rest of a reply with an `a` in it. */
  const HEX_HEAD: seq<byte> := [0x31, 0x31, 0x3b, 0x72, 0x67, 0x62, 0x3a, 0x32, 0x38, 0x2f, 0x32, 0x61]
  const HEX_END: seq<byte> := [0x2f, 0x33, 0x36, BEL]

  /** `rgb:28/2a/36` */
  const HEX_COLOR: seq<byte> := [0x72, 0x67, 0x62, 0x3a, 0x32, 0x38, 0x2f, 0x32, 0x61, 0x2f, 0x33, 0x36]

  lemma HexColorIsColor()
    ensures IsRgbColor(HEX_COLOR)
  {
    hide SplitOn;
    var parts: seq<byte> := [0x32, 0x38, 0x2f, 0x32, 0x61, 0x2f, 0x33, 0x36];
    assert HEX_COLOR[4..] == parts;
    SplitOnStep(parts, 0x2f, 2);
    assert parts[..2] == [0x32, 0x38] && parts[3..] == [0x32, 0x61, 0x2f, 0x33, 0x36];
    SplitOnStep(parts[3..], 0x2f, 2);
    assert parts[3..][..2] == [0x32, 0x61] && parts[3..][3..] == [0x33, 0x36];
    SplitOnNone([0x33, 0x36], 0x2f);
  }

  lemma HexReplyIsReply()
    ensures [ESC, 0x5d] + HEX_HEAD + HEX_END == ColorReply(Background, HEX_COLOR, [BEL])
    ensures IsColorReply(HEX_COLOR, [BEL])
  {
    hide IsRgbColor;
    HexColorIsColor();
  }

  /** A reply far below the budget leaks too, when a second idle flush finds a hex letter. */
  lemma HexReplyLeaks(keys: KeyDecoder)
    requires Typable(keys, HEX_HEAD + HEX_END)
    ensures [ESC, 0x5d] + HEX_HEAD + HEX_END == ColorReply(Background, HEX_COLOR, [BEL]) &&
            IsColorReply(HEX_COLOR, [BEL])
    ensures Run(keys, INITIAL, [Bytes([ESC, 0x5d]), Idle, Bytes(HEX_HEAD), Idle, Bytes(HEX_END)]).chunks != []
  {
    hide Run, Typable, IsRgbColor, ColorReply, IsColorReply;
    HexReplyIsReply();
    var inputs := [Bytes(HEX_HEAD), Idle, Bytes(HEX_END)];
    var s := INITIAL.(discardUntil := Some(Osc));
    assert [Bytes([ESC, 0x5d]), Idle] + inputs == [Bytes([ESC, 0x5d]), Idle, Bytes(HEX_HEAD), Idle, Bytes(HEX_END)];
    RunAfterStart(keys, inputs);
    FedThree(HEX_HEAD, HEX_END);
    var tail := HEX_HEAD + HEX_END[..3];
    assert tail + [BEL] == HEX_HEAD + HEX_END;
    assert !PlausibleTail(Osc, HEX_HEAD) by { assert HEX_HEAD[11] == 0x61; }
    NeedsPlausible(HEX_HEAD, HEX_END, 0);
    LateTailIsSwallowedIff(keys, s, Osc, tail, [BEL], inputs);
  }

  lemma FedThree(first: seq<byte>, second: seq<byte>)
    ensures var inputs := [Bytes(first), Idle, Bytes(second)];
            ReadsAndFlushes(inputs) && Fed(inputs) == first + second
  {
    var inputs := [Bytes(first), Idle, Bytes(second)];
    assert inputs[1..] == [Idle, Bytes(second)] && inputs[1..][1..] == [Bytes(second)];
    assert [Bytes(second)][1..] == [] && Fed([]) == [];
    assert Fed([Bytes(second)]) == second + [] == second;
    assert Fed(inputs[1..]) == [] + second == second;
  }

  lemma NeedsPlausible(first: seq<byte>, second: seq<byte>, counted: nat)
    requires second != []
    ensures var inputs := [Bytes(first), Idle, Bytes(second)];
            FlushesFit(inputs, Osc, [], counted, |first + second|) ==>
              PlausibleTail(Osc, first) && counted + |first| <= 128
  {
    hide PlausibleTail;
    var inputs := [Bytes(first), Idle, Bytes(second)];
    assert inputs[1..] == [Idle, Bytes(second)] && [] + first == first;
    FlushesFitStep(inputs, Osc, [], counted, |first + second|);
    FlushesFitStep(inputs[1..], Osc, first, counted, |second|);
  }

  /** And so does a plausible tail over the budget: a flush that finds 129 bytes counted gives the discard up. */
  lemma LongTailLeaks(keys: KeyDecoder)
    requires Typable(keys, seq(129, _ => 0x30) + [BEL])
    ensures Run(keys, INITIAL, [Bytes([ESC, 0x5d]), Idle, Bytes(seq(129, _ => 0x30)), Idle, Bytes([BEL])]).chunks != []
  {
    hide Run, Typable, PlausibleTail;
    var digits: seq<byte> := seq(129, _ => 0x30);
    var inputs := [Bytes(digits), Idle, Bytes([BEL])];
    var s := INITIAL.(discardUntil := Some(Osc));
    assert [Bytes([ESC, 0x5d]), Idle] + inputs == [Bytes([ESC, 0x5d]), Idle, Bytes(digits), Idle, Bytes([BEL])];
    RunAfterStart(keys, inputs);
    FedThree(digits, [BEL]);
    NeedsPlausible(digits, [BEL], 0);
    LateTailIsSwallowedIff(keys, s, Osc, digits, [BEL], inputs);
  }
}

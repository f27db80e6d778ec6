/** What one call of the byte framer does, as functions on its state. `Framer.RawInputByteFramer`
    is proved against these; the theorems about runs are proved of them. */
module FramerSpec {
  import opened Bytes
  import opened Utf8
  import opened InputEvents

  const HOST_COLOR_QUERY_REPLIES: nat := 2
  const MAX_ORPHANED_SGR_MOUSE_TAIL_BYTES: nat := 32
  const MAX_DISCARDED_CONTROL_TAIL_BYTES: nat := 128

  datatype State = State(
    buffer: seq<byte>,
    discardUntil: Option<Family>,
    discardedTailBytes: nat,
    loneEscapeRecentlyFlushed: bool,
    hostColorRepliesAwaited: nat,
    heldPendingColorEsc: bool,
    hostColorSchemeChangeTracking: bool)

  const INITIAL := State([], None, 0, false, 0, false, false)

  /** The state a call leaves and the chunks it returns. */
  datatype Outcome = Outcome(state: State, chunks: seq<seq<byte>>)

  // --- Orphaned mouse tails ---

  predicate IsTailParameter(b: byte) { IsDigit(b) || b == SEMICOLON }
  predicate IsNotTailParameter(b: byte) { !IsTailParameter(b) }

  /** `starts_with_incomplete_sgr_mouse_sequence` */
  predicate IncompleteSgrMouse(s: seq<byte>) {
    SGR_MOUSE <= s && forall i :: 3 <= i < |s| ==> IsTailParameter(s[i])
  }

  /** `starts_with_incomplete_orphaned_sgr_mouse_tail` */
  predicate IncompleteOrphanedTail(s: seq<byte>) {
    && |s| <= MAX_ORPHANED_SGR_MOUSE_TAIL_BYTES
    && (|| (|s| < 3 && s <= [0x5b, 0x3c])
        || ([0x5b, 0x3c] <= s && forall i :: 2 <= i < |s| ==> IsTailParameter(s[i])))
  }

  /** Length of the mouse report tail at the front of `s` that `discard_complete_orphaned_sgr_mouse_tail` drops. */
  function CompleteOrphanedTail(s: seq<byte>): (r: Option<nat>)
    ensures r.Some? ==> 1 <= r.value <= |s| && r.value <= MAX_ORPHANED_SGR_MOUSE_TAIL_BYTES
  {
    var end := Terminator(s, OrphanedSgrMouseTail);
    if end.None? || end.value > MAX_ORPHANED_SGR_MOUSE_TAIL_BYTES then None
    else
      var report := [ESC] + s[..end.value];
      if Valid(report) && ParseSgrMouse(report).Some? then end else None
  }

  datatype TailScan = TailScan(buffer: seq<byte>, discarded: nat, ended: bool)

  function Remaining(discarded: nat): nat {
    if discarded <= MAX_DISCARDED_CONTROL_TAIL_BYTES then MAX_DISCARDED_CONTROL_TAIL_BYTES - discarded else 0
  }

  function Min(a: nat, b: nat): nat { if a <= b then a else b }

  /** `discard_orphaned_sgr_mouse_tail` */
  function ScanOrphanedTail(s: seq<byte>, discarded: nat): TailScan {
    var inspected := Min(|s|, Remaining(discarded));
    var stop := FirstIndexFrom(s[..inspected], IsNotTailParameter, 0);
    if stop.Some? then
      TailScan(if IsMouseFinal(s[stop.value]) then s[stop.value + 1..] else s[stop.value..], discarded, true)
    else
      TailScan([], discarded + inspected, |s| > inspected)
  }

  // --- Draining ---

  datatype Turn = Halt(state: State) | Next(state: State, chunks: seq<seq<byte>>)

  function QuerySent(s: State): State {
    s.(hostColorRepliesAwaited := HOST_COLOR_QUERY_REPLIES, heldPendingColorEsc := false)
  }

  /** The bookkeeping of the colour-reply window when an event leaves the buffer. */
  function NoteEvent(s: State, event: Event): State {
    var noted :=
      if event.HostDefaultColor? then
        s.(hostColorRepliesAwaited := if s.hostColorRepliesAwaited == 0 then 0 else s.hostColorRepliesAwaited - 1)
      else if s.hostColorSchemeChangeTracking && event.HostColorSchemeChanged? then QuerySent(s)
      else s;
    noted.(heldPendingColorEsc := false)
  }

  /** The lone-ESC flag goes, and with it a complete mouse report tail. */
  function ClearFlag(s: State): State {
    var tail := CompleteOrphanedTail(s.buffer);
    s.(buffer := if tail.Some? then s.buffer[tail.value..] else s.buffer, loneEscapeRecentlyFlushed := false)
  }

  /** One turn of the loop in `drain_available_chunks`; clearing the lone-ESC flag is a turn of its own. */
  function Turned(keys: KeyDecoder, s: State): Turn {
    if s.loneEscapeRecentlyFlushed then
      if IncompleteOrphanedTail(s.buffer) then Halt(s)
      else Next(ClearFlag(s), [])
    else if s.discardUntil == Some(OrphanedSgrMouseTail) then
      var scan := ScanOrphanedTail(s.buffer, s.discardedTailBytes);
      if scan.ended then Next(s.(buffer := scan.buffer, discardUntil := None, discardedTailBytes := 0), [])
      else Halt(s.(buffer := scan.buffer, discardedTailBytes := scan.discarded))
    else if s.discardUntil.Some? then
      var end := Terminator(s.buffer, s.discardUntil.value);
      if end.None? then Halt(s)
      else Next(s.(buffer := s.buffer[end.value..], discardUntil := None, discardedTailBytes := 0), [])
    else
      var frame := ExtractOneEvent(keys, s.buffer);
      if frame.None? then Halt(s)
      else
        var n := frame.value.len;
        Next(NoteEvent(s, frame.value.event).(buffer := s.buffer[n..]), [s.buffer[..n]])
  }

  /** What every turn of the loop makes smaller, lexicographically. */
  function Measure(s: State): (nat, bool, bool) {
    (|s.buffer|, s.discardUntil.Some?, s.loneEscapeRecentlyFlushed)
  }

  ghost predicate Smaller(t: State, s: State) {
    || |t.buffer| < |s.buffer|
    || (|t.buffer| == |s.buffer| && s.discardUntil.Some? && t.discardUntil.None?)
    || (|t.buffer| == |s.buffer| && s.discardUntil.Some? == t.discardUntil.Some? &&
        s.loneEscapeRecentlyFlushed && !t.loneEscapeRecentlyFlushed)
  }

  lemma TurnShrinks(keys: KeyDecoder, s: State)
    requires Turned(keys, s).Next?
    ensures Smaller(Turned(keys, s).state, s)
  {
  }

  /** `drain_available_chunks` */
  function Drain(keys: KeyDecoder, s: State): Outcome
    decreases Measure(s).0, Measure(s).1, Measure(s).2
  {
    match Turned(keys, s)
    case Halt(t) => Outcome(t, [])
    case Next(t, chunks) =>
      TurnShrinks(keys, s);
      Prepend(chunks, Drain(keys, t))
  }

  function Prepend(chunks: seq<seq<byte>>, o: Outcome): Outcome {
    Outcome(o.state, chunks + o.chunks)
  }

  lemma PrependTwice(a: seq<seq<byte>>, b: seq<seq<byte>>, o: Outcome)
    ensures Prepend(a, Prepend(b, o)) == Prepend(a + b, o)
  {
    assert a + (b + o.chunks) == (a + b) + o.chunks;
  }

  lemma PrependNothing(o: Outcome)
    ensures Prepend([], o) == o
  {
    assert [] + o.chunks == o.chunks;
  }

  /** One turn of a drain, unfolded. */
  lemma DrainUnfold(keys: KeyDecoder, s: State)
    ensures Turned(keys, s).Halt? ==> Drain(keys, s) == Outcome(Turned(keys, s).state, [])
    ensures Turned(keys, s).Next? ==>
              Drain(keys, s) == Prepend(Turned(keys, s).chunks, Drain(keys, Turned(keys, s).state))
  {
  }

  function Append(s: State, data: seq<byte>): State {
    s.(buffer := s.buffer + data)
  }

  function Push(keys: KeyDecoder, s: State, data: seq<byte>): Outcome {
    Drain(keys, Append(s, data))
  }

  // --- Idle flush ---

  predicate IsOscTailByte(b: byte) {
    IsDigit(b) || b in [0x3b, 0x3a, 0x2f, 0x23, 0x3f, 0x2e, 0x5f, 0x2d, 0x2b, 0x72, 0x67, 0x62, 0x52, 0x47, 0x42, ESC]
  }

  /** `plausible_control_string_tail` */
  predicate PlausibleTail(family: Family, s: seq<byte>) {
    match family
    case Osc => forall i :: 0 <= i < |s| ==> IsOscTailByte(s[i])
    case StTerminated => s != [] && s[|s| - 1] == ESC
    case HostColorSchemeCsi => forall i :: 0 <= i < |s| ==> IsDigit(s[i]) || s[i] in [0x3b, 0x3f, 0x6e]
    case OrphanedSgrMouseTail => forall i :: 0 <= i < |s| ==> IsTailParameter(s[i]) || IsMouseFinal(s[i])
  }

  predicate UnterminatedPaste(s: seq<byte>) {
    BRACKETED_PASTE_START <= s && FindSubsequence(s, BRACKETED_PASTE_END).None?
  }

  /** `starts_with_incomplete_default_color_response` */
  predicate IncompleteColorReply(s: seq<byte>) {
    && ControlStringOf(s) == Some(Incomplete(Osc))
    && ([ESC, 0x5d, 0x31, 0x30, SEMICOLON] <= s || [ESC, 0x5d, 0x31, 0x31, SEMICOLON] <= s)
  }

  /** `starts_with_incomplete_host_color_scheme_report` */
  predicate IncompleteColorSchemeReport(s: seq<byte>) {
    [ESC, 0x5b, 0x3f] <= s && |s| < 9 && (s <= COLOR_SCHEME_DARK_REPORT || s <= COLOR_SCHEME_LIGHT_REPORT)
  }

  function StartDiscard(s: State, family: Family): State {
    s.(buffer := [], discardUntil := Some(family), discardedTailBytes := 0)
  }

  /** Drop the whole buffer and, within the budget, what follows of the same mouse report. */
  function DropMouseTail(s: State): State {
    s.(buffer := [],
       discardUntil := if |s.buffer| <= MAX_DISCARDED_CONTROL_TAIL_BYTES then Some(OrphanedSgrMouseTail) else None,
       discardedTailBytes := |s.buffer|)
  }

  /** The state a finished discard returns to. */
  function Resumed(s: State): State {
    s.(buffer := [], discardUntil := None, discardedTailBytes := 0)
  }

  function FlushDiscarding(s: State): State
    requires s.discardUntil.Some?
  {
    if s.discardUntil == Some(OrphanedSgrMouseTail) then
      s.(buffer := [], discardUntil := None, discardedTailBytes := 0)
    else
      var discarded := s.discardedTailBytes + |s.buffer|;
      if PlausibleTail(s.discardUntil.value, s.buffer) && discarded <= MAX_DISCARDED_CONTROL_TAIL_BYTES then
        s.(buffer := if s.buffer != [] && s.buffer[|s.buffer| - 1] == ESC then [ESC] else [],
           discardedTailBytes := discarded)
      else
        s.(buffer := [], discardUntil := None, discardedTailBytes := 0)
  }

  /** `flush_timeout` after its opening drain. */
  function FlushDrained(keys: KeyDecoder, s: State): Outcome {
    if s.discardUntil.Some? then Outcome(FlushDiscarding(s), [])
    else if s.buffer == [] then Outcome(s, [])
    else if s.loneEscapeRecentlyFlushed && [0x5b, 0x3c] <= s.buffer then
      var tail := CompleteOrphanedTail(s.buffer);
      var t := if tail.Some? then s.(buffer := s.buffer[tail.value..]) else DropMouseTail(s);
      Outcome(t.(loneEscapeRecentlyFlushed := false), [])
    else if IncompleteSgrMouse(s.buffer) then Outcome(DropMouseTail(s), [])
    else if UnterminatedPaste(s.buffer) then Outcome(s, [])
    else if IncompleteColorReply(s.buffer) then Outcome(s, [])
    else if IncompleteColorSchemeReport(s.buffer) then Outcome(StartDiscard(s, HostColorSchemeCsi), [])
    else if ControlStringOf(s.buffer).Some? && ControlStringOf(s.buffer).value.Incomplete? then
      Outcome(StartDiscard(s, ControlStringOf(s.buffer).value.family), [])
    else if s.buffer == [ESC] then
      if s.hostColorRepliesAwaited > 0 && !s.heldPendingColorEsc then Outcome(s.(heldPendingColorEsc := true), [])
      else
        Outcome(s.(buffer := [], hostColorRepliesAwaited := 0, heldPendingColorEsc := false,
                   loneEscapeRecentlyFlushed := true), [[ESC]])
    else if Valid(s.buffer) && keys(s.buffer) then Outcome(s.(buffer := []), [s.buffer])
    else if IncompleteScalar(s.buffer) then Outcome(s, [])
    else if s.buffer[0] == ESC && IncompleteScalar(s.buffer[1..]) then Outcome(s, [])
    else Outcome(s.(buffer := [], loneEscapeRecentlyFlushed := false), [])
  }

  /** `flush_timeout` */
  function FlushTimeout(keys: KeyDecoder, s: State): Outcome {
    var drained := Drain(keys, s);
    Prepend(drained.chunks, FlushDrained(keys, drained.state))
  }

  // --- Runs ---

  datatype Input = Bytes(data: seq<byte>) | Idle | ColorQuery | TrackColorScheme

  function Apply(keys: KeyDecoder, s: State, input: Input): Outcome {
    match input
    case Bytes(data) => Push(keys, s, data)
    case Idle => FlushTimeout(keys, s)
    case ColorQuery => Outcome(QuerySent(s), [])
    case TrackColorScheme => Outcome(s.(hostColorSchemeChangeTracking := true), [])
  }

  function Run(keys: KeyDecoder, s: State, inputs: seq<Input>): Outcome
    decreases |inputs|
  {
    if inputs == [] then Outcome(s, [])
    else
      var first := Apply(keys, s, inputs[0]);
      Prepend(first.chunks, Run(keys, first.state, inputs[1..]))
  }

  /** All bytes a run is fed. */
  function Fed(inputs: seq<Input>): seq<byte> {
    if inputs == [] then [] else (if inputs[0].Bytes? then inputs[0].data else []) + Fed(inputs[1..])
  }

  /** A run of reads and idle flushes only. */
  predicate ReadsAndFlushes(inputs: seq<Input>) {
    forall i :: 0 <= i < |inputs| ==> inputs[i].Bytes? || inputs[i].Idle?
  }

  lemma RunOfNothing(keys: KeyDecoder, s: State)
    ensures Run(keys, s, []) == Outcome(s, []) && Fed([]) == []
  {
  }

  lemma RunRead(keys: KeyDecoder, s: State, inputs: seq<Input>)
    requires ReadsAndFlushes(inputs) && inputs != [] && inputs[0].Bytes?
    ensures ReadsAndFlushes(inputs[1..])
    ensures Fed(inputs) == inputs[0].data + Fed(inputs[1..])
    ensures var o := Push(keys, s, inputs[0].data);
            Run(keys, s, inputs) == Prepend(o.chunks, Run(keys, o.state, inputs[1..]))
  {
  }

  lemma RunFlush(keys: KeyDecoder, s: State, inputs: seq<Input>)
    requires ReadsAndFlushes(inputs) && inputs != [] && !inputs[0].Bytes?
    ensures inputs[0].Idle? && ReadsAndFlushes(inputs[1..])
    ensures Fed(inputs) == Fed(inputs[1..])
    ensures var o := FlushTimeout(keys, s);
            Run(keys, s, inputs) == Prepend(o.chunks, Run(keys, o.state, inputs[1..]))
  {
    hide Drain;
  }

  /** A run from the start that reads bytes which are no event yet and goes idle. */
  lemma ReadThenIdle(keys: KeyDecoder, start: seq<byte>)
    requires ExtractOneEvent(keys, start).None?
    ensures Run(keys, INITIAL, [Bytes(start), Idle]) == FlushDrained(keys, INITIAL.(buffer := start))
  {
    hide Drain, Run, FlushDrained, ExtractOneEvent;
    var inputs, held := [Bytes(start), Idle], INITIAL.(buffer := start);
    assert INITIAL.buffer + start == start;
    DrainUnfold(keys, held);
    RunRead(keys, INITIAL, inputs);
    assert inputs[1..] == [Idle] && inputs[1..][1..] == [];
    RunFlush(keys, held, inputs[1..]);
    var o := FlushDrained(keys, held);
    RunOfNothing(keys, o.state);
    assert [] + (o.chunks + []) == o.chunks && [] + o.chunks == o.chunks;
  }
}

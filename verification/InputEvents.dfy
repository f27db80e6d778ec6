/** Recognition of one input event at the front of a byte buffer: the pure half of `src/raw_input.rs`.
    The key decoder is a parameter: `keys(text)` says whether it maps `text` to a key. */
module InputEvents {
  import opened Bytes
  import opened Utf8

  type KeyDecoder = seq<byte> -> bool

  const BRACKETED_PASTE_START: seq<byte> := [ESC, 0x5b, 0x32, 0x30, 0x30, 0x7e]
  const BRACKETED_PASTE_END: seq<byte> := [ESC, 0x5b, 0x32, 0x30, 0x31, 0x7e]
  const COLOR_SCHEME_DARK_REPORT: seq<byte> := [ESC, 0x5b, 0x3f, 0x39, 0x39, 0x37, 0x3b, 0x31, 0x6e]
  const COLOR_SCHEME_LIGHT_REPORT: seq<byte> := [ESC, 0x5b, 0x3f, 0x39, 0x39, 0x37, 0x3b, 0x32, 0x6e]
  const CSI: seq<byte> := [ESC, 0x5b]
  const SGR_MOUSE: seq<byte> := [ESC, 0x5b, 0x3c]
  const ESC_SGR_MOUSE: seq<byte> := [ESC, ESC, 0x5b, 0x3c]
  const STRING_TERMINATOR: seq<byte> := [ESC, 0x5c]

  datatype ColorKind = Foreground | Background

  datatype Event =
    | Key(text: seq<byte>)
    | Paste(content: seq<byte>)
    | Mouse(button: nat, column: nat, row: nat, release: bool)
    | OuterFocusGained
    | OuterFocusLost
    | HostDefaultColor(kind: ColorKind, color: seq<byte>)
    | HostColorSchemeChanged(dark: bool)
    | Unsupported

  /** An event and the number of bytes it took. */
  datatype Frame = Frame(event: Event, len: nat)

  datatype Family = Osc | StTerminated | HostColorSchemeCsi | OrphanedSgrMouseTail

  // --- Terminators ---

  predicate IsBel(b: byte) { b == BEL }
  predicate IsN(b: byte) { b == 0x6e }
  predicate IsMouseFinal(b: byte) { b == 0x4d || b == 0x6d }
  /** The final bytes of a control sequence, columns 4 to 7 (ECMA-48, section 5.4). */
  predicate IsCsiFinal(b: byte) { 0x40 <= b <= 0x7e }

  predicate StEndsAt(s: seq<byte>, k: int) {
    2 <= k <= |s| && s[k - 2] == ESC && s[k - 1] == 0x5c
  }

  /** The first `k` bytes of `s` end in a terminator of the family. */
  predicate TerminatedAt(s: seq<byte>, family: Family, k: nat) {
    && 1 <= k <= |s|
    && match family
       case Osc => s[k - 1] == BEL || StEndsAt(s, k)
       case StTerminated => StEndsAt(s, k)
       case HostColorSchemeCsi => s[k - 1] == 0x6e
       case OrphanedSgrMouseTail => IsMouseFinal(s[k - 1])
  }

  function Shift(r: Option<nat>, n: nat): Option<nat> {
    if r.Some? then Some(r.value + n) else None
  }

  function OscStringTerminator(s: seq<byte>): Option<nat> {
    var st := Shift(FindSubsequence(s, STRING_TERMINATOR), 2);
    var bel := Shift(FirstIndexFrom(s, IsBel, 0), 1);
    if st.Some? && bel.Some? then (if st.value <= bel.value then st else bel)
    else if st.Some? then st
    else bel
  }

  function TerminatorByFamily(s: seq<byte>, family: Family): Option<nat> {
    match family
    case Osc => OscStringTerminator(s)
    case StTerminated => Shift(FindSubsequence(s, STRING_TERMINATOR), 2)
    case HostColorSchemeCsi => Shift(FirstIndexFrom(s, IsN, 0), 1)
    case OrphanedSgrMouseTail => Shift(FirstIndexFrom(s, IsMouseFinal, 0), 1)
  }

  lemma StOccurrence(s: seq<byte>, k: nat)
    requires 2 <= k
    ensures OccursAt(s, STRING_TERMINATOR, k - 2) <==> StEndsAt(s, k)
  {
    if k <= |s| {
      assert s[k - 2..k] == [s[k - 2], s[k - 1]];
    }
  }

  /** `control_string_terminator_for_family`: the end of the first terminator of the family. */
  function Terminator(s: seq<byte>, family: Family): (r: Option<nat>)
    ensures r.Some? ==> TerminatedAt(s, family, r.value) && forall j :: 0 <= j < r.value ==> !TerminatedAt(s, family, j)
    ensures r.None? ==> forall j :: 0 <= j <= |s| ==> !TerminatedAt(s, family, j)
  {
    var r := TerminatorByFamily(s, family);
    assert (r.Some? ==>
              TerminatedAt(s, family, r.value) && forall j :: 0 <= j < r.value ==> !TerminatedAt(s, family, j))
        && (r.None? ==> forall j :: 0 <= j <= |s| ==> !TerminatedAt(s, family, j)) by {
      forall i: nat ensures OccursAt(s, STRING_TERMINATOR, i) <==> StEndsAt(s, i + 2) { StOccurrence(s, i + 2); }
      forall k | StEndsAt(s, k) ensures OccursAt(s, STRING_TERMINATOR, k - 2) { StOccurrence(s, k); }
    }
    r
  }

  lemma TerminatorIs(s: seq<byte>, family: Family, k: nat)
    requires TerminatedAt(s, family, k) && forall j :: 0 <= j < k ==> !TerminatedAt(s, family, j)
    ensures Terminator(s, family) == Some(k)
  {
    hide Terminator;
  }

  lemma TerminatorExtends(s: seq<byte>, e: seq<byte>, family: Family)
    ensures Terminator(s, family).Some? ==> Terminator(s + e, family) == Terminator(s, family)
    ensures Terminator(s, family).None? && Terminator(s + e, family).Some? ==>
              Terminator(s + e, family).value > |s|
  {
    assert forall j :: 0 <= j <= |s| ==> TerminatedAt(s + e, family, j) == TerminatedAt(s, family, j);
    var r, q := Terminator(s, family), Terminator(s + e, family);
    if r.Some? {
      assert TerminatedAt(s + e, family, r.value);
    }
  }

  datatype ControlString = Complete(len: nat, family: Family) | Incomplete(family: Family)

  function ControlStringFamily(s: seq<byte>): Option<Family> {
    if |s| < 2 || s[0] != ESC then None
    else if s[1] == 0x5d then Some(Osc)
    else if s[1] == 0x50 || s[1] == 0x5f || s[1] == 0x5e || s[1] == 0x58 then Some(StTerminated)
    else None
  }

  /** `control_string` (ECMA-48, section 5.6) */
  function ControlStringOf(s: seq<byte>): Option<ControlString> {
    var family := ControlStringFamily(s);
    if family.None? then None
    else match Terminator(s, family.value)
      case Some(len) => Some(Complete(len, family.value))
      case None => Some(Incomplete(family.value))
  }

  // --- Number fields, mouse reports and colour replies ---

  function SplitOn(s: seq<byte>, separator: byte): (parts: seq<seq<byte>>)
    ensures |parts| >= 1
    decreases |s|
  {
    var i := FirstIndexFrom(s, b => b == separator, 0);
    if i.None? then [s] else [s[..i.value]] + SplitOn(s[i.value + 1..], separator)
  }

  lemma SplitOnStep(s: seq<byte>, separator: byte, i: nat)
    requires i < |s| && s[i] == separator && forall j :: 0 <= j < i ==> s[j] != separator
    ensures SplitOn(s, separator) == [s[..i]] + SplitOn(s[i + 1..], separator)
  {
  }

  lemma SplitOnNone(s: seq<byte>, separator: byte)
    requires forall j :: 0 <= j < |s| ==> s[j] != separator
    ensures SplitOn(s, separator) == [s]
  {
  }

  lemma SplitOnFirst(a: seq<byte>, separator: byte, rest: seq<byte>)
    requires separator !in a
    ensures SplitOn(a + [separator] + rest, separator) == [a] + SplitOn(rest, separator)
  {
    hide SplitOn;
    var s := a + [separator] + rest;
    assert s[|a|] == separator && forall j :: 0 <= j < |a| ==> s[j] == a[j];
    SplitOnStep(s, separator, |a|);
    assert s[..|a|] == a && s[|a| + 1..] == rest;
  }

  function DigitsValue(s: seq<byte>): nat
    requires forall i :: 0 <= i < |s| ==> IsDigit(s[i])
  {
    if s == [] then 0
    else
      assert IsDigit(s[|s| - 1]);
      DigitsValue(s[..|s| - 1]) * 10 + (s[|s| - 1] as int - 0x30)
  }

  /** Rust's `str::parse` for an unsigned type with largest value `max`: one leading plus is accepted. */
  function ParseUnsigned(s: seq<byte>, max: nat): (r: Option<nat>)
    ensures r.Some? ==> r.value <= max
  {
    var digits := if s != [] && s[0] == PLUS then s[1..] else s;
    if digits != [] && (forall i :: 0 <= i < |digits| ==> IsDigit(digits[i])) && DigitsValue(digits) <= max
    then Some(DigitsValue(digits))
    else None
  }

  /** Whether `parse_mouse_cb` knows the button: two low bits, two high bits, and the drag bit. */
  predicate MouseButtonKnown(cb: nat) {
    var number := cb % 4 + cb / 64 % 4 * 4;
    var dragging := cb / 32 % 2 == 1;
    number <= 5 || (number <= 7 && !dragging)
  }

  function ParseSgrMouse(s: seq<byte>): (r: Option<Event>)
    ensures r.Some? ==> r.value.Mouse?
  {
    if !(SGR_MOUSE <= s) || |s| < 4 || !IsMouseFinal(s[|s| - 1]) then None
    else
      var parts := SplitOn(s[3..|s| - 1], SEMICOLON);
      if |parts| < 3 then None
      else
        var cb := ParseUnsigned(parts[0], 255);
        var column, row := ParseUnsigned(parts[1], 65535), ParseUnsigned(parts[2], 65535);
        if cb.None? || column.None? || row.None? || column.value == 0 || row.value == 0 || !MouseButtonKnown(cb.value)
        then None
        else Some(Mouse(cb.value, column.value - 1, row.value - 1, s[|s| - 1] == 0x6d))
  }

  predicate IsHexDigit(b: byte) { IsDigit(b) || 0x41 <= b <= 0x46 || 0x61 <= b <= 0x66 }

  predicate IsHexComponent(s: seq<byte>) {
    1 <= |s| <= 4 && forall i :: 0 <= i < |s| ==> IsHexDigit(s[i])
  }

  predicate IsRgbColor(v: seq<byte>) {
    if [0x72, 0x67, 0x62, 0x3a] <= v then
      var parts := SplitOn(v[4..], 0x2f);
      |parts| == 3 && IsHexComponent(parts[0]) && IsHexComponent(parts[1]) && IsHexComponent(parts[2])
    else
      && [0x23] <= v && |v| > 3 && (|v| - 1) % 3 == 0 && (|v| - 1) / 3 <= 4
      && forall i :: 1 <= i < |v| ==> IsHexDigit(v[i])
  }

  /** The event of a reply between its introducer and its terminator. */
  function ColorReplyEvent(text: seq<byte>): (r: Option<Event>)
    ensures r.Some? ==> r.value.HostDefaultColor?
  {
    if [0x31, 0x30, SEMICOLON] <= text && IsRgbColor(text[3..]) then Some(HostDefaultColor(Foreground, text[3..]))
    else if [0x31, 0x31, SEMICOLON] <= text && IsRgbColor(text[3..]) then Some(HostDefaultColor(Background, text[3..]))
    else None
  }

  function ParseDefaultColorResponse(s: seq<byte>): (r: Option<Event>)
    ensures r.Some? ==> r.value.HostDefaultColor?
  {
    if !([ESC, 0x5d] <= s) then None
    else
      var body := s[2..];
      if |body| >= 2 && body[|body| - 2..] == STRING_TERMINATOR then ColorReplyEvent(body[..|body| - 2])
      else if |body| >= 1 && body[|body| - 1] == BEL then ColorReplyEvent(body[..|body| - 1])
      else None
  }

  // --- Framing of one event ---

  function CsiFinal(s: seq<byte>, final: byte -> bool): (r: Option<nat>)
    ensures r.Some? ==> 3 <= r.value <= |s|
  {
    Shift(FirstIndexFrom(s, final, 2), 1)
  }

  /** What follows an ESC that may stand alone in front of a mouse report. */
  datatype Ahead = MouseReport | NotText | Other

  function EscapedMouse(s: seq<byte>): Ahead {
    if !(ESC_SGR_MOUSE <= s) then Other
    else
      var mouseLen := CsiFinal(s[1..], IsMouseFinal);
      if mouseLen.None? then Other
      else if !Valid(s[1..1 + mouseLen.value]) then NotText
      else if ParseSgrMouse(s[1..1 + mouseLen.value]).Some? then MouseReport
      else Other
  }

  /** `complete_escape_sequence_len` */
  function CompleteEscapeSequenceLen(s: seq<byte>): (r: Option<nat>)
    requires s != [] && s[0] == ESC
    ensures r.Some? ==> 1 <= r.value <= |s|
    decreases |s|
  {
    if |s| == 1 then None
    else
      var ahead := EscapedMouse(s);
      if ahead.NotText? then None
      else if ahead.MouseReport? then Some(1)
      else if s[1] == ESC then Shift(CompleteEscapeSequenceLen(s[1..]), 1)
      else if CSI <= s then
        if SGR_MOUSE <= s then CsiFinal(s, IsMouseFinal) else CsiFinal(s, IsCsiFinal)
      else if ControlStringOf(s).Some? then
        if ControlStringOf(s).value.Complete? then Some(ControlStringOf(s).value.len) else None
      else if s[1] == 0x4f then
        if |s| >= 3 then Some(3) else None
      else match Width(s[1])
        case None => None
        case Some(w) => if |s| < 1 + w || !Valid(s[1..1 + w]) then None else Some(1 + w)
  }

  function EventOfSequence(keys: KeyDecoder, s: seq<byte>): Event {
    var color := ParseDefaultColorResponse(s);
    if color.Some? then color.value
    else if s == [ESC, 0x5b, 0x49] then OuterFocusGained
    else if s == [ESC, 0x5b, 0x4f] then OuterFocusLost
    else if s == COLOR_SCHEME_DARK_REPORT then HostColorSchemeChanged(true)
    else if s == COLOR_SCHEME_LIGHT_REPORT then HostColorSchemeChanged(false)
    else
      var mouse := ParseSgrMouse(s);
      if mouse.Some? then mouse.value
      else if keys(s) then Key(s)
      else Unsupported
  }

  lemma PasteEndFollowsStart(s: seq<byte>, i: nat)
    requires BRACKETED_PASTE_START <= s && OccursAt(s, BRACKETED_PASTE_END, i)
    ensures i >= 6
  {
    assert s[i..i + 6][0] == s[i] && s[i..i + 6][4] == s[i + 4];
    assert forall j :: 0 <= j < 6 ==> s[j] == BRACKETED_PASTE_START[j];
  }

  /** `extract_one_event` */
  function ExtractOneEvent(keys: KeyDecoder, s: seq<byte>): (r: Option<Frame>)
    ensures r.Some? ==> 1 <= r.value.len <= |s|
  {
    if s == [] then None
    else if BRACKETED_PASTE_START <= s then
      var end := FindSubsequence(s, BRACKETED_PASTE_END);
      if end.None? then None
      else
        assert end.value >= 6 by { PasteEndFollowsStart(s, end.value); }
        if !Valid(s[6..end.value]) then None
        else Some(Frame(Paste(s[6..end.value]), end.value + 6))
    else if s[0] == ESC then
      var len := CompleteEscapeSequenceLen(s);
      if len.None? || !Valid(s[..len.value]) then None
      else Some(Frame(EventOfSequence(keys, s[..len.value]), len.value))
    else
      var len := FirstCompleteCharLen(s);
      if len.None? || !keys(s[..len.value]) then None
      else Some(Frame(Key(s[..len.value]), len.value))
  }

  // --- Prefix stability: a recognised event does not depend on what follows it ---

  lemma CsiFinalExtends(s: seq<byte>, e: seq<byte>, final: byte -> bool)
    ensures CsiFinal(s, final).Some? ==> CsiFinal(s + e, final) == CsiFinal(s, final)
  {
    FirstIndexExtends(s, e, final, 2);
  }

  lemma {:induction false} EscapeLenExtends(s: seq<byte>, e: seq<byte>)
    requires s != [] && s[0] == ESC
    requires CompleteEscapeSequenceLen(s).Some?
    ensures CompleteEscapeSequenceLen(s + e) == CompleteEscapeSequenceLen(s)
    decreases |s|, 1
  {
    hide Valid, ParseSgrMouse, Terminator;
    var t := s + e;
    assert t[1] == s[1];
    if s[1] == ESC {
      EscEscLenExtends(s, e);
    } else if s[1] == 0x5b {
      PrefixExtends(SGR_MOUSE, s, e);
      CsiFinalExtends(s, e, IsMouseFinal);
      CsiFinalExtends(s, e, IsCsiFinal);
    } else if ControlStringFamily(s).Some? {
      TerminatorExtends(s, e, ControlStringFamily(s).value);
      assert ControlStringFamily(t) == ControlStringFamily(s);
    } else if s[1] != 0x4f {
      assert t[1..1 + Width(s[1]).value] == s[1..1 + Width(s[1]).value];
    }
  }

  lemma EscapedMouseExtends(s: seq<byte>, e: seq<byte>)
    requires |s| >= 2 && s[0] == ESC && s[1] == ESC
    ensures || EscapedMouse(s + e) == EscapedMouse(s)
            || (EscapedMouse(s).Other? && CompleteEscapeSequenceLen(s[1..]).None?)
  {
    hide Valid, ParseSgrMouse, ControlStringOf, Width;
    var t := s + e;
    assert t[1..] == s[1..] + e;
    PrefixExtends(ESC_SGR_MOUSE, s, e);
    CsiFinalExtends(s[1..], e, IsMouseFinal);
    var m := CsiFinal(s[1..], IsMouseFinal);
    if m.Some? { assert t[1..1 + m.value] == s[1..1 + m.value]; }
    if ESC_SGR_MOUSE <= t && m.None? {
      assert forall i :: 0 <= i < |s| && i < 4 ==> s[i] == ESC_SGR_MOUSE[i];
      MouseReportUnfinished(s[1..]);
    }
  }

  lemma MouseReportUnfinished(s: seq<byte>)
    requires s != [] && s[0] == ESC && (|s| > 1 ==> s[1] == 0x5b) && (|s| > 2 ==> s[2] == 0x3c)
    requires CsiFinal(s, IsMouseFinal).None?
    ensures CompleteEscapeSequenceLen(s).None?
  {
    hide Valid, ParseSgrMouse, ControlStringOf, Width;
  }

  lemma {:induction false} EscEscLenExtends(s: seq<byte>, e: seq<byte>)
    requires |s| >= 2 && s[0] == ESC && s[1] == ESC
    requires CompleteEscapeSequenceLen(s).Some?
    ensures CompleteEscapeSequenceLen(s + e) == CompleteEscapeSequenceLen(s)
    decreases |s|, 0
  {
    hide Valid, ParseSgrMouse, ControlStringOf, Width, EscapedMouse;
    var t := s + e;
    assert t[1..] == s[1..] + e && t[1] == ESC;
    EscapedMouseExtends(s, e);
    if EscapedMouse(s).Other? { EscapeLenExtends(s[1..], e); }
  }

  /** Once an event is recognised, every extension of the buffer gives the same event and length. */
  lemma ExtractExtends(keys: KeyDecoder, s: seq<byte>, e: seq<byte>)
    requires ExtractOneEvent(keys, s).Some?
    ensures ExtractOneEvent(keys, s + e) == ExtractOneEvent(keys, s)
  {
    var t := s + e;
    PrefixExtends(BRACKETED_PASTE_START, s, e);
    var n := ExtractOneEvent(keys, s).value.len;
    assert t[..n] == s[..n];
    if BRACKETED_PASTE_START <= s {
      FindExtends(s, e, BRACKETED_PASTE_END);
      PasteEndFollowsStart(s, n - 6);
      assert t[6..n - 6] == s[6..n - 6];
    } else if s[0] == ESC {
      if BRACKETED_PASTE_START <= t {
        PasteStartPrefixHasNoEvent(s);
        assert false;
      }
      EscapeLenExtends(s, e);
    } else {
      FirstCompleteCharLenExtends(s, e);
    }
  }

  lemma PasteStartPrefixHasNoEvent(s: seq<byte>)
    requires s != [] && |s| < 6 && s == BRACKETED_PASTE_START[..|s|]
    ensures s[0] == ESC && CompleteEscapeSequenceLen(s).None?
  {
    hide FirstIndexFrom, CompleteEscapeSequenceLen;
    assert forall i :: 0 <= i < |s| ==> s[i] == BRACKETED_PASTE_START[i];
    if |s| == 1 { LoneEscapeIsIncomplete(s); } else { UnfinishedControlSequence(s); }
  }

  lemma LoneEscapeIsIncomplete(s: seq<byte>)
    requires |s| == 1 && s[0] == ESC
    ensures CompleteEscapeSequenceLen(s).None?
  {
  }

  lemma UnfinishedControlSequence(s: seq<byte>)
    requires |s| >= 2 && s[0] == ESC && s[1] == 0x5b && (|s| > 2 ==> s[2] != 0x3c)
    requires forall i :: 2 <= i < |s| ==> !IsCsiFinal(s[i])
    ensures CompleteEscapeSequenceLen(s).None?
  {
    hide Valid, ParseSgrMouse, ControlStringOf, Width;
    assert FirstIndexFrom(s, IsCsiFinal, 2).None?;
  }
}

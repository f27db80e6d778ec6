/** How keys behind an ESC are framed: each kind of sequence, given byte by byte, takes exactly its own bytes. */
module InputKeys {
  import opened Bytes
  import opened Utf8
  import opened InputEvents
  import opened InputGrammar

  /** A sequence that is no report of the terminal is a key if the decoder knows it. */
  function KeyOr(keys: KeyDecoder, s: seq<byte>): Event {
    if keys(s) then Key(s) else Unsupported
  }

  lemma NoReport(keys: KeyDecoder, s: seq<byte>)
    requires |s| >= 2 && s[0] == ESC && s[1] != 0x5b && s[1] != 0x5d
    ensures EventOfSequence(keys, s) == KeyOr(keys, s)
  {
    hide ColorReplyEvent, SplitOn;
  }

  // --- SS3: ESC, `O` and one byte ---

  /** The third byte ends the sequence; above ASCII it makes it no text, which is never framed. */
  lemma Ss3Framed(keys: KeyDecoder, c: byte, rest: seq<byte>)
    ensures ExtractOneEvent(keys, [ESC, 0x4f, c] + rest) ==
            if c < 0x80 then Some(Frame(if keys([ESC, 0x4f, c]) then Key([ESC, 0x4f, c]) else Unsupported, 3)) else None
    ensures ExtractOneEvent(keys, [ESC, 0x4f]).None? && ExtractOneEvent(keys, [ESC]).None?
  {
    hide Terminator, ParseSgrMouse, Valid, EventOfSequence, FindSubsequence;
    var u, s := [ESC, 0x4f, c], [ESC, 0x4f, c] + rest;
    assert s[1] == 0x4f && s[1] != BRACKETED_PASTE_START[1];
    assert s[..3] == u;
    NoReport(keys, u);
    Ss3IsText(c);
  }

  lemma Ss3IsText(c: byte)
    ensures Valid([ESC, 0x4f, c]) <==> c < 0x80
  {
    var u: seq<byte> := [ESC, 0x4f, c];
    assert u[1..] == [0x4f, c] && u[1..][1..] == [c] && [c][1..] == [];
    assert ScalarLen(u) == 1 && ScalarLen([0x4f, c]) == 1;
    assert Valid([c]) <==> c < 0x80;
  }

  // --- Alt: ESC and a character ---

  /** Bytes that open another sequence behind an ESC: `[`, `]`, `P`, `_`, `^`, `X`, `O`, and ESC itself. */
  predicate Opens(b: byte) {
    b in {0x5b, 0x5d, 0x50, 0x5f, 0x5e, 0x58, 0x4f, ESC}
  }

  /** A character behind an ESC is framed with it, whatever follows, and with any part of it missing is not. */
  lemma AltFramed(keys: KeyDecoder, cp: int, rest: seq<byte>)
    requires IsScalar(cp) && !Opens(Encode(cp)[0])
    ensures var w := [ESC] + Encode(cp);
            && ExtractOneEvent(keys, w + rest) == Some(Frame(if keys(w) then Key(w) else Unsupported, 1 + |Encode(cp)|))
            && forall n :: 0 <= n < |w| ==> ExtractOneEvent(keys, w[..n]).None?
  {
    hide ExtractOneEvent, Encode;
    var w := [ESC] + Encode(cp);
    AltIsComplete(keys, cp);
    ExtractExtends(keys, w, rest);
    forall n | 0 <= n < |w| ensures ExtractOneEvent(keys, w[..n]).None? {
      assert w[..n] + w[n..] == w;
      if ExtractOneEvent(keys, w[..n]).Some? { ExtractExtends(keys, w[..n], w[n..]); }
    }
  }

  lemma AltIsComplete(keys: KeyDecoder, cp: int)
    requires IsScalar(cp) && !Opens(Encode(cp)[0])
    ensures var w := [ESC] + Encode(cp);
            ExtractOneEvent(keys, w) == Some(Frame(KeyOr(keys, w), |w|))
  {
    hide Terminator, ParseSgrMouse, Valid, EventOfSequence, FindSubsequence, Encode;
    var c, w := Encode(cp), [ESC] + Encode(cp);
    assert w[1] == c[0] && w[1..1 + |c|] == c && w[..|w|] == w;
    assert w[1] != BRACKETED_PASTE_START[1];
    WidthOfEncoded(cp);
    EncodeIsValid(cp);
    AsciiIsValid([ESC]);
    ValidConcat([ESC], c);
    NoReport(keys, w);
  }

  /** The lead byte announces the length of the character. */
  lemma WidthOfEncoded(cp: int)
    requires IsScalar(cp)
    ensures Width(Encode(cp)[0]) == Some(|Encode(cp)|)
  {
  }

  // --- Control sequences and strings ---

  /** A control sequence that is no report is framed up to its first final byte. */
  lemma ControlSequenceFramed(keys: KeyDecoder, s: seq<byte>, rest: seq<byte>)
    requires [ESC, 0x5b] <= s && |s| >= 3 && s[2] != 0x3c
    requires 0x40 <= s[|s| - 1] <= 0x7e && forall i :: 2 <= i < |s| - 1 ==> s[i] < 0x40 || s[i] == 0x7f
    requires s !in {[ESC, 0x5b, 0x49], [ESC, 0x5b, 0x4f], COLOR_SCHEME_DARK_REPORT, COLOR_SCHEME_LIGHT_REPORT}
    requires s != BRACKETED_PASTE_START
    ensures ExtractOneEvent(keys, s + rest) == Some(Frame(if keys(s) then Key(s) else Unsupported, |s|))
  {
    hide EventOfSequence, Valid, CompleteEscapeSequenceLen, FindSubsequence;
    ControlSequenceLen(s, |s|);
    AsciiIsValid(s);
    NoPlainReport(keys, s);
    assert s[..|s|] == s;
    NotPaste(s);
    ExtractExtends(keys, s, rest);
  }

  lemma NotPaste(s: seq<byte>)
    requires |s| >= 3 && s != BRACKETED_PASTE_START && forall i :: 2 <= i < |s| - 1 ==> s[i] < 0x40 || s[i] == 0x7f
    ensures !(BRACKETED_PASTE_START <= s)
  {
    if |s| > 6 { assert s[5] != BRACKETED_PASTE_START[5]; }
    if |s| == 6 { assert s[..6] == s; }
  }

  lemma NoPlainReport(keys: KeyDecoder, s: seq<byte>)
    requires [ESC, 0x5b] <= s && |s| >= 3 && s[2] != 0x3c
    requires s !in {[ESC, 0x5b, 0x49], [ESC, 0x5b, 0x4f], COLOR_SCHEME_DARK_REPORT, COLOR_SCHEME_LIGHT_REPORT}
    ensures EventOfSequence(keys, s) == KeyOr(keys, s)
  {
    hide ColorReplyEvent, SplitOn;
    assert s[1] == 0x5b;
    assert !(SGR_MOUSE <= s) && !([ESC, 0x5d] <= s);
  }

  /** The first `n` bytes of `s` end in BEL, where that ends a string, or in ST. */
  predicate StringEnds(s: seq<byte>, n: nat, bel: bool) {
    || (bel && 1 <= n <= |s| && s[n - 1] == BEL)
    || (2 <= n <= |s| && s[n - 2] == ESC && s[n - 1] == 0x5c)
  }

  /** A control string is framed up to its first end: BEL or ST behind `]`, ST behind `P`, `_`, `^` and `X`. */
  lemma ControlStringFramed(keys: KeyDecoder, s: seq<byte>, rest: seq<byte>)
    requires |s| >= 2 && s[0] == ESC && s[1] in {0x5d, 0x50, 0x5f, 0x5e, 0x58}
    requires forall i :: 0 <= i < |s| ==> s[i] < 0x80
    requires var bel := s[1] == 0x5d; StringEnds(s, |s|, bel) && forall n :: 0 <= n < |s| ==> !StringEnds(s, n, bel)
    ensures var frame := ExtractOneEvent(keys, s + rest);
            && frame.Some? && frame.value.len == |s|
            && (s[1] != 0x5d ==> frame.value.event == if keys(s) then Key(s) else Unsupported)
  {
    hide EventOfSequence, Valid, CompleteEscapeSequenceLen, FindSubsequence;
    var family := ControlStringFamily(s).value;
    var bel := s[1] == 0x5d;
    assert forall n :: 0 <= n <= |s| ==> TerminatedAt(s, family, n) == StringEnds(s, n, bel);
    ControlStringLen(s, |s|);
    AsciiIsValid(s);
    if s[1] != 0x5d { NoReport(keys, s); }
    assert s[..|s|] == s && s[1] != BRACKETED_PASTE_START[1];
    ExtractExtends(keys, s, rest);
  }

  // --- Mouse reports and stacked escapes ---

  /** A report that the parser does not take is framed all the same. */
  lemma UnknownReportFramed(keys: KeyDecoder, button: nat, column: nat, row: nat, release: bool, rest: seq<byte>)
    requires !KnownReport(button, column, row)
    ensures var s := SgrReport(button, column, row, release);
            ExtractOneEvent(keys, s + rest) == Some(Frame(if keys(s) then Key(s) else Unsupported, |s|))
  {
    hide SgrReport, Valid, ParseSgrMouse, KnownReport;
    var s := SgrReport(button, column, row, release);
    SgrReportShape(button, column, row, release);
    MouseReportReadsBack(button, column, row, release);
    MouseLen(s);
    assert s[..|s|] == s && s[2] == 0x3c && s[1] == 0x5b;
    ExtractExtends(keys, s, rest);
  }

  lemma MouseLen(s: seq<byte>)
    requires SGR_MOUSE <= s && |s| >= 4 && IsMouseFinal(s[|s| - 1])
    requires forall i :: 3 <= i < |s| - 1 ==> IsDigit(s[i]) || s[i] == SEMICOLON
    ensures CompleteEscapeSequenceLen(s) == Some(|s|) && CsiFinal(s, IsMouseFinal) == Some(|s|)
  {
    assert s[2] == 0x3c && s[1] == 0x5b;
    assert FirstIndexFrom(s, IsMouseFinal, 2) == Some(|s| - 1);
  }

  /** One more ESC in front of a sequence is framed with it. */
  lemma StackedFramed(keys: KeyDecoder, s: seq<byte>, rest: seq<byte>)
    requires s != [] && s[0] == ESC && !(SGR_MOUSE <= s) && Valid(s) && CompleteEscapeSequenceLen(s) == Some(|s|)
    ensures var w := [ESC] + s;
            ExtractOneEvent(keys, w + rest) == Some(Frame(if keys(w) then Key(w) else Unsupported, 1 + |s|))
  {
    hide Valid, ParseSgrMouse, EventOfSequence, CompleteEscapeSequenceLen;
    var w := [ESC] + s;
    assert w[1..] == s && w[..|w|] == w && w[1] == ESC;
    StackedLen(s);
    AsciiIsValid([ESC]);
    ValidConcat([ESC], s);
    NoReport(keys, w);
    ExtractExtends(keys, w, rest);
  }

  lemma StackedLen(s: seq<byte>)
    requires s != [] && s[0] == ESC && !(SGR_MOUSE <= s) && CompleteEscapeSequenceLen(s) == Some(|s|)
    ensures CompleteEscapeSequenceLen([ESC] + s) == Some(1 + |s|)
  {
    hide Terminator, ParseSgrMouse, Valid, CsiFinal;
    var w := [ESC] + s;
    assert w[1..] == s;
    if |s| >= 3 { assert w[1] == s[0] && w[2] == s[1] && w[3] == s[2]; }
    assert EscapedMouse(w) == Other;
  }

  /** An ESC in front of a mouse report that the parser takes stands alone, and the report follows; in front of
      one that it does not take, it is framed with it. */
  lemma EscapeBeforeReport(keys: KeyDecoder, button: nat, column: nat, row: nat, release: bool, rest: seq<byte>)
    ensures var s := SgrReport(button, column, row, release);
            var w := if KnownReport(button, column, row) then [ESC] else [ESC] + s;
            ExtractOneEvent(keys, [ESC] + s + rest) == Some(Frame(if keys(w) then Key(w) else Unsupported, |w|))
  {
    hide SgrReport, Valid, ParseSgrMouse, KnownReport, EventOfSequence, CompleteEscapeSequenceLen;
    var s, known := SgrReport(button, column, row, release), KnownReport(button, column, row);
    var all := [ESC] + s;
    var w := if known then [ESC] else all;
    SgrReportShape(button, column, row, release);
    MouseReportReadsBack(button, column, row, release);
    EscapeBeforeReportLen(s, known);
    assert all[..|w|] == w && all[1] == ESC;
    AsciiIsValid([ESC]);
    ValidConcat([ESC], s);
    if known { LoneEscapeEvent(keys); } else { NoReport(keys, w); }
    ExtractExtends(keys, all, rest);
  }

  lemma LoneEscapeEvent(keys: KeyDecoder)
    ensures EventOfSequence(keys, [ESC]) == KeyOr(keys, [ESC])
  {
  }

  lemma EscapeBeforeReportLen(s: seq<byte>, known: bool)
    requires SGR_MOUSE <= s && |s| >= 4 && IsMouseFinal(s[|s| - 1]) && Valid(s)
    requires forall i :: 3 <= i < |s| - 1 ==> IsDigit(s[i]) || s[i] == SEMICOLON
    requires ParseSgrMouse(s).Some? == known
    ensures CompleteEscapeSequenceLen([ESC] + s) == Some(if known then 1 else 1 + |s|)
  {
    hide Valid, ParseSgrMouse, CsiFinal, ControlStringOf, EscapedMouse;
    MouseLen(s);
    MouseAhead(s, known);
    LenBehindEscape(s);
  }

  lemma MouseAhead(s: seq<byte>, known: bool)
    requires SGR_MOUSE <= s && Valid(s) && ParseSgrMouse(s).Some? == known && CsiFinal(s, IsMouseFinal) == Some(|s|)
    ensures EscapedMouse([ESC] + s) == if known then MouseReport else Other
  {
    hide Valid, ParseSgrMouse, CsiFinal;
    var w := [ESC] + s;
    assert w[1..] == s && w[1..1 + |s|] == s;
    assert ESC_SGR_MOUSE <= w;
  }

  lemma LenBehindEscape(s: seq<byte>)
    requires s != [] && s[0] == ESC && CompleteEscapeSequenceLen(s) == Some(|s|) && !EscapedMouse([ESC] + s).NotText?
    ensures CompleteEscapeSequenceLen([ESC] + s) == Some(if EscapedMouse([ESC] + s).MouseReport? then 1 else 1 + |s|)
  {
    hide Valid, ParseSgrMouse, CsiFinal, ControlStringOf, EscapedMouse;
    assert ([ESC] + s)[1..] == s;
  }
}

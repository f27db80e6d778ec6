/** A bracketed paste is one event, whatever it holds and however it arrives. */
module FramerPaste {
  import opened Bytes
  import opened Utf8
  import opened InputEvents
  import opened FramerSpec
  import opened FramerSplit
  import opened FramerUnits

  ghost predicate Contains(s: seq<byte>, needle: seq<byte>) {
    exists i: nat :: OccursAt(s, needle, i)
  }

  function PasteBytes(body: seq<byte>): seq<byte> {
    [ESC, 0x5b, 0x32, 0x30, 0x30, 0x7e] + body + [ESC, 0x5b, 0x32, 0x30, 0x31, 0x7e]
  }

  /** The closing marker first occurs right behind the body: it cannot straddle either end of it. */
  lemma EndOccursLast(body: seq<byte>, i: nat)
    requires !Contains(body, BRACKETED_PASTE_END)
    requires OccursAt(PasteBytes(body), BRACKETED_PASTE_END, i)
    ensures i >= 6 + |body|
  {
    var s := PasteBytes(body);
    PasteEndFollowsStart(s, i);
    assert forall k :: i <= k < i + 6 ==> s[i..i + 6][k - i] == s[k];
    assert s[6 + |body|] == ESC;
    if i < 6 + |body| {
      if i <= |body| {
        assert s[i..i + 6] == body[i - 6..i];
        assert OccursAt(body, BRACKETED_PASTE_END, i - 6);
      }
    }
  }

  lemma PastePrefix(body: seq<byte>, n: nat)
    requires !Contains(body, BRACKETED_PASTE_END) && 6 <= n <= 12 + |body|
    ensures BRACKETED_PASTE_START <= PasteBytes(body)[..n]
    ensures FindSubsequence(PasteBytes(body)[..n], BRACKETED_PASTE_END) ==
            if n == 12 + |body| then Some(6 + |body|) else None
  {
    hide FindSubsequence, Contains;
    var s, x := PasteBytes(body), PasteBytes(body)[..n];
    assert forall k :: 0 <= k < 6 ==> x[k] == s[k] == BRACKETED_PASTE_START[k];
    assert x + s[n..] == s;
    forall i: nat | OccursAt(x, BRACKETED_PASTE_END, i) ensures i >= 6 + |body| {
      OccursAtExtends(x, s[n..], BRACKETED_PASTE_END, i);
      EndOccursLast(body, i);
    }
    if n == 12 + |body| {
      assert x == s && s[6 + |body|..12 + |body|] == BRACKETED_PASTE_END;
      FindIs(s, BRACKETED_PASTE_END, 6 + |body|);
    } else {
      FindsNothing(x, BRACKETED_PASTE_END);
    }
  }

  lemma FindsNothing(s: seq<byte>, needle: seq<byte>)
    requires forall i: nat :: !OccursAt(s, needle, i)
    ensures FindSubsequence(s, needle) == None
  {
  }

  /** Before its last byte arrives the paste has no event and waits. */
  lemma PasteWaits(keys: KeyDecoder, body: seq<byte>, n: nat)
    requires !Contains(body, BRACKETED_PASTE_END) && 6 <= n < 12 + |body|
    ensures Held(keys, PasteBytes(body)[..n])
  {
    hide FindSubsequence, Contains, CompleteEscapeSequenceLen, PasteBytes, IncompleteColorReply;
    PasteLength(body);
    PastePrefix(body, n);
  }

  lemma PasteLength(body: seq<byte>)
    ensures |PasteBytes(body)| == 12 + |body| && PasteBytes(body)[6..6 + |body|] == body
  {
  }

  /** With its last byte, the event is the body. */
  lemma PasteEnds(keys: KeyDecoder, body: seq<byte>)
    requires Valid(body) && !Contains(body, BRACKETED_PASTE_END)
    ensures ExtractOneEvent(keys, PasteBytes(body)) == Some(Frame(Paste(body), |PasteBytes(body)|))
  {
    hide Valid, FindSubsequence, Contains, CompleteEscapeSequenceLen, PasteBytes;
    PasteLength(body);
    var w := PasteBytes(body);
    assert w[..|w|] == w;
    PastePrefix(body, |w|);
  }

  /** Once the introducer is buffered, any valid body without the closing marker, cut anywhere, with idle
      flushes anywhere and escapes inside, yields exactly one chunk, which reads as exactly that paste. */
  lemma PasteIsAtomic(keys: KeyDecoder, s: State, body: seq<byte>, inputs: seq<Input>)
    requires Valid(body) && !Contains(body, BRACKETED_PASTE_END)
    requires Framing(s) && 6 <= |s.buffer| < |PasteBytes(body)|
    requires ReadsAndFlushes(inputs) && s.buffer + Fed(inputs) == PasteBytes(body)
    ensures Run(keys, s, inputs) == Outcome(s.(buffer := [], heldPendingColorEsc := false), [PasteBytes(body)])
    ensures ExtractOneEvent(keys, PasteBytes(body)) == Some(Frame(Paste(body), |PasteBytes(body)|))
  {
    hide ExtractOneEvent, Valid, Contains, Run, Held, PasteBytes;
    var w := PasteBytes(body);
    PasteLength(body);
    PasteEnds(keys, body);
    forall n | 6 <= n < |w| ensures Held(keys, w[..n]) {
      PasteWaits(keys, body, n);
    }
    UnitArrivesWhole(keys, s, w, 6, Paste(body), inputs);
  }
}

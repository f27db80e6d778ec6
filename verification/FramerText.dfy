/** Idle flushes never disturb typed text, however its bytes are cut. */
module FramerText {
  import opened Bytes
  import opened Utf8
  import opened InputEvents
  import opened FramerSpec
  import opened FramerSplit

  /** Scalar values other than ESC that each decode to a key. */
  predicate Typed(keys: KeyDecoder, cps: seq<int>) {
    forall i :: 0 <= i < |cps| ==> IsScalar(cps[i]) && cps[i] != 0x1b && keys(Encode(cps[i]))
  }

  /** One chunk per character. */
  function Characters(cps: seq<int>): (r: seq<seq<byte>>)
    requires forall i :: 0 <= i < |cps| ==> IsScalar(cps[i])
    ensures |r| == |cps|
  {
    if cps == [] then [] else [Encode(cps[0])] + Characters(cps[1..])
  }

  lemma {:induction false} CharactersConcat(a: seq<int>, b: seq<int>)
    requires forall i :: 0 <= i < |a| ==> IsScalar(a[i])
    requires forall i :: 0 <= i < |b| ==> IsScalar(b[i])
    ensures Characters(a + b) == Characters(a) + Characters(b)
  {
    if a == [] {
      assert a + b == b;
    } else {
      CharactersConcat(a[1..], b);
      assert (a + b)[1..] == a[1..] + b;
    }
  }

  predicate HeldPart(cps: seq<int>, held: seq<byte>)
    requires forall i :: 0 <= i < |cps| ==> IsScalar(cps[i])
  {
    held == [] || (cps != [] && |held| < |Encode(cps[0])| && held == Encode(cps[0])[..|held|])
  }

  lemma CharacterTaken(keys: KeyDecoder, cp: int, rest: seq<byte>)
    requires IsScalar(cp) && cp != 0x1b && keys(Encode(cp))
    ensures ExtractOneEvent(keys, Encode(cp) + rest) == Some(Frame(Key(Encode(cp)), |Encode(cp)|))
  {
    EncodeIsValid(cp);
    FirstCompleteCharLenExtends(Encode(cp), rest);
    var s := Encode(cp) + rest;
    assert s[..|Encode(cp)|] == Encode(cp);
    assert s[0] == Encode(cp)[0] != ESC;
  }

  lemma PartHeld(keys: KeyDecoder, cp: int, held: seq<byte>)
    requires IsScalar(cp) && cp != 0x1b && 0 < |held| < |Encode(cp)| && held == Encode(cp)[..|held|]
    ensures held[0] >= 0xc2 && IncompleteScalar(held) && !Valid(held)
    ensures ExtractOneEvent(keys, held).None?
  {
    StrictPrefixIncomplete(cp, |held|);
    assert held[0] == Encode(cp)[0];
  }

  lemma NothingToExtract(keys: KeyDecoder)
    ensures ExtractOneEvent(keys, []).None?
  {
  }

  lemma FlushHoldsPart(keys: KeyDecoder, s: State, cps: seq<int>)
    requires Typed(keys, cps) && Framing(s) && HeldPart(cps, s.buffer)
    ensures FlushTimeout(keys, s) == Outcome(s, [])
  {
    hide ExtractOneEvent, IncompleteScalar, Valid, Drain, Terminator, Encode;
    if s.buffer != [] { PartHeld(keys, cps[0], s.buffer); } else { NothingToExtract(keys); }
    DrainUnfold(keys, s);
  }

  /** Draining a cut of the text takes its whole characters and keeps the part of the next one. */
  lemma {:induction false} DrainText(keys: KeyDecoder, s: State, cps: seq<int>, later: seq<byte>) returns (k: nat)
    requires Typed(keys, cps) && Framing(s) && s.buffer + later == EncodeAll(cps)
    ensures k <= |cps|
    ensures Drain(keys, s).chunks == Characters(cps[..k])
    ensures Framing(Drain(keys, s).state) && HeldPart(cps[k..], Drain(keys, s).state.buffer)
    ensures Drain(keys, s).state.buffer + later == EncodeAll(cps[k..])
    decreases |cps|
  {
    hide ExtractOneEvent, IncompleteScalar, Valid, Encode, Drain;
    DrainUnfold(keys, s);
    NothingToExtract(keys);
    if cps == [] || |s.buffer| < |Encode(cps[0])| {
      k := 0;
      assert cps[0..] == cps;
      if s.buffer != [] {
        assert s.buffer == EncodeAll(cps)[..|s.buffer|] == Encode(cps[0])[..|s.buffer|];
        PartHeld(keys, cps[0], s.buffer);
      }
    } else {
      var n := |Encode(cps[0])|;
      assert s.buffer[..n] == EncodeAll(cps)[..n] == Encode(cps[0]);
      assert s.buffer[..n] + s.buffer[n..] == s.buffer;
      CharacterTaken(keys, cps[0], s.buffer[n..]);
      var t := Turned(keys, s).state;
      assert t.buffer + later == EncodeAll(cps)[n..] == EncodeAll(cps[1..]);
      var j := DrainText(keys, t, cps[1..], later);
      k := j + 1;
      assert cps[1..][..j] == cps[..k][1..] && cps[1..][j..] == cps[k..];
    }
  }

  lemma {:induction false} RunText(keys: KeyDecoder, s: State, cps: seq<int>, inputs: seq<Input>)
    requires Typed(keys, cps) && Framing(s) && HeldPart(cps, s.buffer)
    requires ReadsAndFlushes(inputs)
    requires s.buffer + Fed(inputs) == EncodeAll(cps)
    ensures Run(keys, s, inputs).chunks == Characters(cps)
    ensures Run(keys, s, inputs).state.buffer == [] && Framing(Run(keys, s, inputs).state)
    decreases |inputs|
  {
    hide Drain, FlushTimeout, Encode, Run, Fed, ReadsAndFlushes;
    if inputs == [] {
      RunOfNothing(keys, s);
      assert s.buffer + [] == s.buffer;
    } else if !inputs[0].Bytes? {
      RunFlush(keys, s, inputs);
      FlushHoldsPart(keys, s, cps);
      RunText(keys, s, cps, inputs[1..]);
    } else {
      RunRead(keys, s, inputs);
      var x, later := Append(s, inputs[0].data), Fed(inputs[1..]);
      assert x.buffer + later == s.buffer + Fed(inputs);
      var k := DrainText(keys, x, cps, later);
      RunText(keys, Drain(keys, x).state, cps[k..], inputs[1..]);
      CharactersConcat(cps[..k], cps[k..]);
      assert cps[..k] + cps[k..] == cps;
    }
  }

  /** Any text, its bytes cut anywhere and idle flushes inserted anywhere, comes out as exactly one chunk
      per character, in order. */
  lemma TextSurvivesFlushes(keys: KeyDecoder, s: State, cps: seq<int>, inputs: seq<Input>)
    requires Typed(keys, cps)
    requires Framing(s) && s.buffer == []
    requires ReadsAndFlushes(inputs)
    requires Fed(inputs) == EncodeAll(cps)
    ensures Run(keys, s, inputs).chunks == Characters(cps)
    ensures Run(keys, s, inputs).state.buffer == [] && Framing(Run(keys, s, inputs).state)
  {
    assert [] + Fed(inputs) == Fed(inputs);
    RunText(keys, s, cps, inputs);
  }
}

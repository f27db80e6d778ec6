/** UTF-8 as the framer reads it: Rust's `std::str::from_utf8`, which accepts exactly the
    syntax of section 4 of RFC 3629, beside the independent definition by encoding scalar values. */
module Utf8 {
  import opened Bytes

  predicate IsContinuation(b: byte) { 0x80 <= b <= 0xbf }

  /** The bytes that may follow a three- or four-byte lead. */
  predicate SecondFits(first: byte, second: byte) {
    if first == 0xe0 then 0xa0 <= second <= 0xbf
    else if first == 0xed then 0x80 <= second <= 0x9f
    else if first == 0xf0 then 0x90 <= second <= 0xbf
    else if first == 0xf4 then 0x80 <= second <= 0x8f
    else IsContinuation(second)
  }

  /** Length of the well-formed scalar at the front of `s`, or 0 when there is none. */
  function ScalarLen(s: seq<byte>): (n: nat)
    ensures n <= |s| && n <= 4
  {
    if s == [] then 0
    else if s[0] < 0x80 then 1
    else if 0xc2 <= s[0] <= 0xdf then
      if |s| >= 2 && IsContinuation(s[1]) then 2 else 0
    else if 0xe0 <= s[0] <= 0xef then
      if |s| >= 3 && SecondFits(s[0], s[1]) && IsContinuation(s[2]) then 3 else 0
    else if 0xf0 <= s[0] <= 0xf4 then
      if |s| >= 4 && SecondFits(s[0], s[1]) && IsContinuation(s[2]) && IsContinuation(s[3]) then 4 else 0
    else 0
  }

  /** `std::str::from_utf8(s).is_ok()` */
  predicate Valid(s: seq<byte>) {
    s == [] || (ScalarLen(s) > 0 && Valid(s[ScalarLen(s)..]))
  }

  /** `starts_with_incomplete_utf8_char`: the error sits at offset 0 and more bytes could repair it. */
  predicate IncompleteScalar(s: seq<byte>) {
    && s != []
    && (|| (0xc2 <= s[0] <= 0xdf && |s| == 1)
        || (0xe0 <= s[0] <= 0xef && (|s| == 1 || (|s| == 2 && SecondFits(s[0], s[1]))))
        || (0xf0 <= s[0] <= 0xf4 &&
            (|| |s| == 1
             || (|s| == 2 && SecondFits(s[0], s[1]))
             || (|s| == 3 && SecondFits(s[0], s[1]) && IsContinuation(s[2])))))
  }

  /** `utf8_char_width`: the width a lead byte announces, ill-formed leads such as C0 included. */
  function Width(first: byte): (w: Option<nat>)
    ensures w.Some? ==> 1 <= w.value <= 4
  {
    if first < 0x80 then Some(1)
    else if 0xc0 <= first < 0xe0 then Some(2)
    else if 0xe0 <= first < 0xf0 then Some(3)
    else if 0xf0 <= first < 0xf8 then Some(4)
    else None
  }

  /** `first_complete_utf8_char_len` */
  function FirstCompleteCharLen(s: seq<byte>): (r: Option<nat>)
    ensures r.Some? ==> 1 <= r.value <= |s|
  {
    if s == [] then None
    else match Width(s[0])
      case None => None
      case Some(w) => if |s| < w || !Valid(s[..w]) then None else Some(w)
  }

  // --- The reference: encoding of scalar values ---

  predicate IsScalar(cp: int) { 0 <= cp <= 0xd7ff || 0xe000 <= cp <= 0x10ffff }

  function Encode(cp: int): (s: seq<byte>)
    requires IsScalar(cp)
    ensures 1 <= |s| <= 4
  {
    if cp < 0x80 then [cp]
    else if cp < 0x800 then [0xc0 + cp / 64, 0x80 + cp % 64]
    else if cp < 0x10000 then [0xe0 + cp / 64 / 64, 0x80 + cp / 64 % 64, 0x80 + cp % 64]
    else [0xf0 + cp / 64 / 64 / 64, 0x80 + cp / 64 / 64 % 64, 0x80 + cp / 64 % 64, 0x80 + cp % 64]
  }

  function EncodeAll(cps: seq<int>): seq<byte>
    requires forall i :: 0 <= i < |cps| ==> IsScalar(cps[i])
  {
    if cps == [] then [] else Encode(cps[0]) + EncodeAll(cps[1..])
  }

  function Decode(s: seq<byte>): int
    requires ScalarLen(s) > 0
  {
    match ScalarLen(s)
    case 1 => s[0]
    case 2 => Append6(s[0] - 0xc0, s[1])
    case 3 => Append6(Append6(s[0] - 0xe0, s[1]), s[2])
    case _ => Append6(Append6(Append6(s[0] - 0xf0, s[1]), s[2]), s[3])
  }

  /** `high` with the six payload bits of a continuation byte appended. */
  function Append6(high: int, low: byte): (r: int)
    requires IsContinuation(low)
    ensures r / 64 == high && 0x80 + r % 64 == low
  {
    high * 64 + (low - 0x80)
  }

  /** Encoding then reading back gives the same scalar value, whatever follows. */
  lemma EncodeThenDecode(cp: int, rest: seq<byte>)
    requires IsScalar(cp)
    ensures ScalarLen(Encode(cp) + rest) == |Encode(cp)|
    ensures Decode(Encode(cp) + rest) == cp
  {
    var e := Encode(cp);
    var s := e + rest;
    assert forall i :: 0 <= i < |e| ==> s[i] == e[i];
    assert ScalarLen(s) == |e|;
    assert cp == cp / 64 * 64 + cp % 64;
    assert cp / 64 == cp / 64 / 64 * 64 + cp / 64 % 64;
  }

  /** Every byte string the reader takes for a scalar is the encoding of one. */
  lemma DecodeThenEncode(s: seq<byte>)
    requires ScalarLen(s) > 0
    ensures IsScalar(Decode(s)) && Encode(Decode(s)) == s[..ScalarLen(s)]
  {
    if ScalarLen(s) <= 2 { ShortDecodes(s); } else { LongDecodes(s); }
  }

  lemma ShortDecodes(s: seq<byte>)
    requires 0 < ScalarLen(s) <= 2
    ensures IsScalar(Decode(s)) && Encode(Decode(s)) == s[..ScalarLen(s)]
  {
  }

  lemma LongDecodes(s: seq<byte>)
    requires ScalarLen(s) > 2
    ensures IsScalar(Decode(s)) && Encode(Decode(s)) == s[..ScalarLen(s)]
  {
    if ScalarLen(s) == 3 {
      var high := Append6(s[0] - 0xe0, s[1]);
      assert Decode(s) == Append6(high, s[2]);
    } else {
      var high := Append6(s[0] - 0xf0, s[1]);
      var mid := Append6(high, s[2]);
      assert Decode(s) == Append6(mid, s[3]);
    }
  }

  /** Bytes that complete a held partial character. */
  function Completed(s: seq<byte>): seq<byte>
    requires IncompleteScalar(s)
  {
    var second := if s[0] == 0xe0 then 0xa0 else if s[0] == 0xf0 then 0x90 else 0x80;
    if |s| == 1 then
      if s[0] <= 0xdf then [s[0], 0x80]
      else if s[0] <= 0xef then [s[0], second, 0x80]
      else [s[0], second, 0x80, 0x80]
    else if s[0] <= 0xef then [s[0], s[1], 0x80]
    else if |s| == 2 then [s[0], s[1], 0x80, 0x80]
    else [s[0], s[1], s[2], 0x80]
  }

  lemma CompletedIsScalar(s: seq<byte>)
    requires IncompleteScalar(s)
    ensures var full := Completed(s); |s| < |full| == ScalarLen(full) && full[..|s|] == s
  {
  }

  lemma StrictPrefixOfScalar(cp: int, s: seq<byte>)
    requires IsScalar(cp) && s != [] && |s| < |Encode(cp)| && Encode(cp)[..|s|] == s
    ensures IncompleteScalar(s)
  {
    EncodeThenDecode(cp, []);
    assert Encode(cp) + [] == Encode(cp);
    assert forall i :: 0 <= i < |s| ==> s[i] == Encode(cp)[i];
  }

  /** A held partial character is exactly a non-empty strict prefix of some encoded scalar value. */
  lemma IncompleteIffStrictPrefix(s: seq<byte>)
    ensures IncompleteScalar(s) <==>
            s != [] && exists cp :: IsScalar(cp) && |s| < |Encode(cp)| && Encode(cp)[..|s|] == s
  {
    hide IncompleteScalar, Encode, Decode, ScalarLen, IsScalar, Completed;
    if IncompleteScalar(s) {
      CompletedIsScalar(s);
      var full := Completed(s);
      DecodeThenEncode(full);
      assert full[..|full|] == full;
      assert Encode(Decode(full)) == full;
      IncompleteNonEmpty(s);
    }
    if cp :| IsScalar(cp) && s != [] && |s| < |Encode(cp)| && Encode(cp)[..|s|] == s {
      StrictPrefixOfScalar(cp, s);
    }
  }

  lemma IncompleteNonEmpty(s: seq<byte>)
    requires IncompleteScalar(s)
    ensures s != []
  {
  }

  lemma {:induction false} ValidConcat(a: seq<byte>, b: seq<byte>)
    requires Valid(a) && Valid(b)
    ensures Valid(a + b)
    decreases |a|
  {
    if a == [] {
      assert a + b == b;
    } else {
      var n := ScalarLen(a);
      assert (a + b)[n..] == a[n..] + b;
      ValidConcat(a[n..], b);
    }
  }

  lemma {:induction false} AsciiIsValid(s: seq<byte>)
    requires forall i :: 0 <= i < |s| ==> s[i] < 0x80
    ensures Valid(s)
  {
    if s != [] { AsciiIsValid(s[1..]); }
  }

  lemma EncodeIsValid(cp: int)
    requires IsScalar(cp)
    ensures Valid(Encode(cp))
    ensures FirstCompleteCharLen(Encode(cp)) == Some(|Encode(cp)|)
  {
    EncodeThenDecode(cp, []);
    var e := Encode(cp);
    assert e + [] == e && e[..|e|] == e && e[|e|..] == [];
  }

  /** `Valid` accepts exactly the concatenations of encoded scalar values. */
  lemma {:induction false} ValidIffEncoded(s: seq<byte>)
    ensures Valid(s) <==>
            exists cps: seq<int> :: (forall i :: 0 <= i < |cps| ==> IsScalar(cps[i])) && EncodeAll(cps) == s
  {
    if Valid(s) {
      var cps := ValidDecodes(s);
    }
    if cps: seq<int> :| (forall i :: 0 <= i < |cps| ==> IsScalar(cps[i])) && EncodeAll(cps) == s {
      EncodeAllIsValid(cps);
    }
  }

  lemma {:induction false} ValidDecodes(s: seq<byte>) returns (cps: seq<int>)
    requires Valid(s)
    ensures (forall i :: 0 <= i < |cps| ==> IsScalar(cps[i])) && EncodeAll(cps) == s
    decreases |s|
  {
    hide Decode, Encode, ScalarLen, IsScalar;
    if s == [] {
      cps := [];
    } else {
      DecodeThenEncode(s);
      var rest := ValidDecodes(s[ScalarLen(s)..]);
      cps := [Decode(s)] + rest;
      assert cps[1..] == rest;
      assert s[..ScalarLen(s)] + s[ScalarLen(s)..] == s;
    }
  }

  lemma {:induction false} EncodeAllIsValid(cps: seq<int>)
    requires forall i :: 0 <= i < |cps| ==> IsScalar(cps[i])
    ensures Valid(EncodeAll(cps))
  {
    if cps != [] {
      EncodeIsValid(cps[0]);
      EncodeAllIsValid(cps[1..]);
      ValidConcat(Encode(cps[0]), EncodeAll(cps[1..]));
    }
  }

  /** A strict prefix of an encoded scalar has no complete character yet, and is not valid text. */
  lemma StrictPrefixIncomplete(cp: int, n: nat)
    requires IsScalar(cp) && 0 < n < |Encode(cp)|
    ensures IncompleteScalar(Encode(cp)[..n])
    ensures !Valid(Encode(cp)[..n])
    ensures FirstCompleteCharLen(Encode(cp)[..n]).None?
  {
    var s := Encode(cp)[..n];
    IncompleteIffStrictPrefix(s);
    assert ScalarLen(s) == 0;
  }

  lemma FirstCompleteCharLenExtends(s: seq<byte>, e: seq<byte>)
    requires FirstCompleteCharLen(s).Some?
    ensures FirstCompleteCharLen(s + e) == FirstCompleteCharLen(s)
  {
    var w := FirstCompleteCharLen(s).value;
    assert (s + e)[..w] == s[..w];
  }
}

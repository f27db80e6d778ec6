/** The standard Base64 encoding (section 4 of RFC 4648) and its reader. */
module Base64 {
  import opened Bytes

  type sextet = n: int | 0 <= n < 64

  const PAD: byte := 0x3d

  function Letter(n: sextet): byte {
    if n < 26 then 0x41 + n
    else if n < 52 then 0x61 + (n - 26)
    else if n < 62 then 0x30 + (n - 52)
    else if n == 62 then 0x2b
    else 0x2f
  }

  function Index(b: byte): Option<sextet> {
    if 0x41 <= b <= 0x5a then Some(b - 0x41)
    else if 0x61 <= b <= 0x7a then Some(b as int - 0x61 + 26)
    else if 0x30 <= b <= 0x39 then Some(b as int - 0x30 + 52)
    else if b == 0x2b then Some(62)
    else if b == 0x2f then Some(63)
    else None
  }

  function Quad(a: byte, b: byte, c: byte): (q: seq<byte>)
    ensures |q| == 4
  {
    [Letter(a / 4), Letter(a % 4 * 16 + b / 16), Letter(b % 16 * 4 + c / 64), Letter(c % 64)]
  }

  function Encode(data: seq<byte>): (text: seq<byte>)
    ensures |text| == (|data| + 2) / 3 * 4
  {
    if data == [] then []
    else if |data| == 1 then [Letter(data[0] / 4), Letter(data[0] % 4 * 16), PAD, PAD]
    else if |data| == 2 then [Letter(data[0] / 4), Letter(data[0] % 4 * 16 + data[1] / 16),
                              Letter(data[1] % 16 * 4), PAD]
    else Quad(data[0], data[1], data[2]) + Encode(data[3..])
  }

  function Joined(m: sextet, n: sextet, o: sextet, p: sextet): seq<byte> {
    [m * 4 + n / 16, n % 16 * 16 + o / 4, o % 4 * 64 + p]
  }

  /** Strict reading: groups of four, padding only in the last one, unused bits zero. */
  function Decode(text: seq<byte>): Option<seq<byte>> {
    if text == [] then Some([])
    else if |text| < 4 then None
    else
      var i, j, k, l := Index(text[0]), Index(text[1]), Index(text[2]), Index(text[3]);
      if i.None? || j.None? then None
      else if |text| == 4 && text[2] == PAD && text[3] == PAD then
        if j.value % 16 == 0 then Some([i.value * 4 + j.value / 16]) else None
      else if k.None? then None
      else if |text| == 4 && text[3] == PAD then
        if k.value % 4 == 0 then Some([i.value * 4 + j.value / 16, j.value % 16 * 16 + k.value / 4]) else None
      else if l.None? then None
      else
        var rest := Decode(text[4..]);
        if rest.None? then None
        else Some(Joined(i.value, j.value, k.value, l.value) + rest.value)
  }

  lemma IndexOfLetter(n: sextet)
    ensures Index(Letter(n)) == Some(n) && Letter(n) != PAD
  {
  }

  /** Four sextets hold three bytes. */
  lemma Regroup(a: byte, b: byte, c: byte)
    ensures a / 4 * 4 + (a % 4 * 16 + b / 16) / 16 == a
    ensures (a % 4 * 16 + b / 16) % 16 * 16 + (b % 16 * 4 + c / 64) / 4 == b
    ensures (b % 16 * 4 + c / 64) % 4 * 64 + c % 64 == c
  {
  }

  lemma LettersOfGroup(a: byte, b: byte, c: byte)
    ensures Index(Letter(a / 4)) == Some(a / 4)
    ensures Index(Letter(a % 4 * 16 + b / 16)) == Some(a % 4 * 16 + b / 16)
    ensures Index(Letter(b % 16 * 4 + c / 64)) == Some(b % 16 * 4 + c / 64) && Letter(b % 16 * 4 + c / 64) != PAD
    ensures Index(Letter(c % 64)) == Some(c % 64) && Letter(c % 64) != PAD
  {
    hide Letter, Index;
    IndexOfLetter(a / 4);
    IndexOfLetter(a % 4 * 16 + b / 16);
    IndexOfLetter(b % 16 * 4 + c / 64);
    IndexOfLetter(c % 64);
  }

  /** What is encoded decodes to itself. */
  lemma {:induction false} DecodeOfEncode(data: seq<byte>)
    ensures Decode(Encode(data)) == Some(data)
  {
    hide Letter, Index, Decode, Quad;
    if data == [] {
      DecodeOfNone();
    } else if |data| == 1 {
      assert data == [data[0]];
      DecodeOfOne(data[0]);
    } else if |data| == 2 {
      assert data == [data[0], data[1]];
      DecodeOfTwo(data[0], data[1]);
    } else if |data| > 2 {
      DecodeOfEncode(data[3..]);
      DecodeOfGroup(data[0], data[1], data[2], Encode(data[3..]));
      assert [data[0], data[1], data[2]] + data[3..] == data;
    }
  }

  lemma DecodeOfNone()
    ensures Decode(Encode([])) == Some([])
  {
  }

  lemma DecodeOfGroup(a: byte, b: byte, c: byte, text: seq<byte>)
    requires Decode(text).Some?
    ensures Decode(Quad(a, b, c) + text) == Some([a, b, c] + Decode(text).value)
  {
    hide Letter, Index, Decode;
    LettersOfGroup(a, b, c);
    Regroup(a, b, c);
    DecodeOfLetters(a / 4, a % 4 * 16 + b / 16, b % 16 * 4 + c / 64, c % 64, text);
  }

  lemma DecodeOfLetters(m: sextet, n: sextet, o: sextet, p: sextet, text: seq<byte>)
    requires Index(Letter(m)) == Some(m) && Index(Letter(n)) == Some(n)
    requires Index(Letter(o)) == Some(o) && Index(Letter(p)) == Some(p)
    requires Letter(o) != PAD && Letter(p) != PAD
    requires Decode(text).Some?
    ensures Decode([Letter(m), Letter(n), Letter(o), Letter(p)] + text)
         == Some(Joined(m, n, o, p) + Decode(text).value)
  {
    hide Letter, Index, Joined;
    var whole := [Letter(m), Letter(n), Letter(o), Letter(p)] + text;
    assert whole[4..] == text;
  }

  lemma DecodeOfOne(a: byte)
    ensures Decode(Encode([a])) == Some([a])
  {
    hide Letter, Index;
    LettersOfGroup(a, 0, 0);
    Regroup(a, 0, 0);
    assert Encode([a]) == [Letter(a / 4), Letter(a % 4 * 16), PAD, PAD];
  }

  lemma DecodeOfTwo(a: byte, b: byte)
    ensures Decode(Encode([a, b])) == Some([a, b])
  {
    hide Letter, Index;
    LettersOfGroup(a, b, 0);
    Regroup(a, b, 0);
    assert Encode([a, b]) == [Letter(a / 4), Letter(a % 4 * 16 + b / 16), Letter(b % 16 * 4), PAD];
  }

  /** Pieces of a length divisible by three can be encoded apart. */
  lemma {:induction false} EncodeInPieces(a: seq<byte>, b: seq<byte>)
    requires |a| % 3 == 0
    ensures Encode(a + b) == Encode(a) + Encode(b)
  {
    hide Encode, Quad;
    if a == [] {
      assert a + b == b;
      EncodeOfNothing(b);
    } else {
      EncodeInPieces(a[3..], b);
      EncodeStep(a);
      EncodeStep(a + b);
      assert (a + b)[3..] == a[3..] + b;
    }
  }

  lemma EncodeOfNothing(b: seq<byte>)
    ensures Encode([]) + Encode(b) == Encode(b)
  {
  }

  lemma EncodeStep(a: seq<byte>)
    requires |a| >= 3
    ensures Encode(a) == Quad(a[0], a[1], a[2]) + Encode(a[3..])
  {
    hide Quad;
  }

  // --- The encoding itself (sections 4 and 10 of RFC 4648) ---

  const ALPHABET := "ABCDEFGHIJ" + "KLMNOPQRST" + "UVWXYZ" + "abcdefghij" + "klmnopqrst" + "uvwxyz" +
                    "0123456789" + "+/"

  /** The letters are those of Table 1, in its order, and `=` is the padding. */
  lemma LettersAreTheAlphabet(n: sextet)
    ensures |ALPHABET| == 64 && Letter(n) as char == ALPHABET[n] && PAD as char == '='
  {
    if n < 10 { assert ALPHABET[n] == "ABCDEFGHIJ"[n] == (0x41 + n) as char; }
    else if n < 20 { assert ALPHABET[n] == "KLMNOPQRST"[n - 10] == (0x41 + n) as char; }
    else if n < 26 { assert ALPHABET[n] == "UVWXYZ"[n - 20] == (0x41 + n) as char; }
    else if n < 36 { assert ALPHABET[n] == "abcdefghij"[n - 26] == (0x61 + n - 26) as char; }
    else if n < 46 { assert ALPHABET[n] == "klmnopqrst"[n - 36] == (0x61 + n - 26) as char; }
    else if n < 52 { assert ALPHABET[n] == "uvwxyz"[n - 46] == (0x61 + n - 26) as char; }
    else if n < 62 { assert ALPHABET[n] == "0123456789"[n - 52] == (0x30 + n - 52) as char; }
    else { assert ALPHABET[n] == "+/"[n - 62]; }
  }

  /** Three bytes are the same 24-bit number, the first byte highest, as the four sextets they become. */
  lemma GroupIsNumber(data: seq<byte>) returns (i: sextet, j: sextet, k: sextet, l: sextet)
    requires |data| >= 3
    ensures Encode(data) == [Letter(i), Letter(j), Letter(k), Letter(l)] + Encode(data[3..])
    ensures ((i * 64 + j) * 64 + k) * 64 + l == (data[0] as int * 256 + data[1]) * 256 + data[2]
  {
    hide Letter, Encode;
    var a, b, c := data[0], data[1], data[2];
    i, j, k, l := a / 4, a % 4 * 16 + b / 16, b % 16 * 4 + c / 64, c % 64;
    EncodeStep(data);
    Digits(a / 4, a % 4, b / 16, b % 16, c / 64, c % 64);
    DivMod(a, b, c);
  }

  lemma Digits(i: nat, r: nat, q: nat, s: nat, t: nat, l: nat)
    ensures ((i * 64 + (r * 16 + q)) * 64 + (s * 4 + t)) * 64 + l
         == ((i * 4 + r) * 256 + (q * 16 + s)) * 256 + (t * 64 + l)
  {
  }

  lemma DivMod(a: byte, b: byte, c: byte)
    ensures a == a / 4 * 4 + a % 4 && b == b / 16 * 16 + b % 16 && c == c / 64 * 64 + c % 64
  {
  }

  /** One or two bytes at the end are padded as if with zero bytes. */
  lemma RestIsPadded(a: byte, b: byte)
    ensures Encode([a]) == Encode([a, 0, 0])[..2] + [PAD, PAD]
    ensures Encode([a, b]) == Encode([a, b, 0])[..3] + [PAD]
  {
    hide Letter;
    assert [a, 0, 0][3..] == [] && [a, b, 0][3..] == [];
  }
}

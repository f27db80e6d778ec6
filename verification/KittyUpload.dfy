/** `encode_kitty_data` of `src/kitty_graphics.rs`: image data sent in Base64 pieces of bounded size. */
module KittyUpload {
  import opened Bytes
  import Base64

  const KITTY_CHUNK_BYTES: nat := 3072

  /** One escape sequence of an upload: the control keys it opens with, its `m` key and its payload. */
  datatype Packet = Packet(control: Option<string>, more: bool, payload: seq<byte>)

  function Payload(packets: seq<Packet>): seq<byte> {
    if packets == [] then [] else packets[0].payload + Payload(packets[1..])
  }

  lemma {:induction false} PayloadOfAppend(packets: seq<Packet>, last: Packet)
    ensures Payload(packets + [last]) == Payload(packets) + last.payload
  {
    if packets == [] {
      assert (packets + [last])[1..] == [];
      assert last.payload + [] == last.payload && [] + last.payload == last.payload;
    } else {
      PayloadOfAppend(packets[1..], last);
      assert (packets + [last])[1..] == packets[1..] + [last];
    }
  }

  lemma PayloadOfNothing(control: string)
    ensures Payload([]) == [] && Base64.Encode([]) == []
    ensures WellChunked([], control, true) && WellChunked([], control, false)
  {
  }

  lemma EncodeSplit(data: seq<byte>, n: nat)
    requires n == |data| || (n <= |data| && n == KITTY_CHUNK_BYTES)
    ensures Base64.Encode(data) == Base64.Encode(data[..n]) + Base64.Encode(data[n..])
  {
    hide Base64.Encode;
    if n == KITTY_CHUNK_BYTES { FullPiece(data); } else { NothingLeft(data); }
  }

  lemma FullPiece(data: seq<byte>)
    requires KITTY_CHUNK_BYTES <= |data|
    ensures Base64.Encode(data) == Base64.Encode(data[..KITTY_CHUNK_BYTES]) + Base64.Encode(data[KITTY_CHUNK_BYTES..])
  {
    hide Base64.Encode;
    var first, rest := data[..KITTY_CHUNK_BYTES], data[KITTY_CHUNK_BYTES..];
    assert first + rest == data;
    Base64.EncodeInPieces(first, rest);
  }

  lemma NothingLeft(data: seq<byte>)
    ensures data[..|data|] == data && Base64.Encode(data) == Base64.Encode(data) + Base64.Encode(data[|data|..])
  {
    assert data[|data|..] == [] && data[..|data|] == data;
  }

  /** Every packet but the last carries exactly 4096 characters, and the last at most that many; the control keys
      come on the first packet only; every packet but the last says that more follow, and `open` makes the last
      one say so too. */
  predicate WellChunked(packets: seq<Packet>, control: string, open: bool) {
    forall i :: 0 <= i < |packets| ==>
      && 0 < |packets[i].payload| <= 4096
      && (packets[i].more ==> |packets[i].payload| == 4096)
      && packets[i].more == (i < |packets| - 1 || open)
      && packets[i].control == if i == 0 then Some(control) else None
  }

  lemma WellChunkedAppend(packets: seq<Packet>, control: string, packet: Packet)
    requires WellChunked(packets, control, true)
    requires 0 < |packet.payload| <= 4096 && (packet.more ==> |packet.payload| == 4096)
    requires packet.control == if packets == [] then Some(control) else None
    ensures WellChunked(packets + [packet], control, packet.more)
  {
  }

  /** The payloads spell the Base64 of the whole data and read back as it; no data sends nothing. */
  method EncodeKittyData(control: string, data: seq<byte>) returns (packets: seq<Packet>)
    ensures data == [] <==> packets == []
    ensures Payload(packets) == Base64.Encode(data) && Base64.Decode(Payload(packets)) == Some(data)
    ensures WellChunked(packets, control, false)
  {
    hide Base64.Encode, Base64.Decode, Payload, WellChunked;
    packets := [];
    PayloadOfNothing(control);
    var rest := data;
    while rest != []
      invariant Payload(packets) + Base64.Encode(rest) == Base64.Encode(data)
      invariant data == [] <==> packets == [] && rest == []
      invariant WellChunked(packets, control, rest != [])
      decreases |rest|
    {
      var n := if |rest| < KITTY_CHUNK_BYTES then |rest| else KITTY_CHUNK_BYTES;
      var encoded := Base64.Encode(rest[..n]);
      var packet := Packet(if packets == [] then Some(control) else None, |rest| > n, encoded);
      EncodeSplit(rest, n);
      PayloadOfAppend(packets, packet);
      WellChunkedAppend(packets, control, packet);
      assert Payload(packets) + encoded + Base64.Encode(rest[n..]) ==
             Payload(packets) + (encoded + Base64.Encode(rest[n..]));
      packets := packets + [packet];
      rest := rest[n..];
    }
    Base64.DecodeOfEncode(data);
    assert Payload(packets) + [] == Payload(packets);
  }
}

/** internal/mtproto/auth.go, lines 362-405: messages sent before there is a key. */
module Plaintext {
  import opened Bytes
  import opened Wrappers
  import opened Tl

  /** A zero key id, the message id, the length and the body. */
  function Envelope(msgId: nat, body: Bytes): (m: Bytes)
    ensures |m| == 20 + |body|
  {
    Zeros(8) + Le(msgId, 8) + Le(|body|, 4) + body
  }

  function Unwrapped(packet: Bytes): Result<Bytes> {
    if |packet| < 20 then Err(TooShort)
    else if packet[..8] != Zeros(8) then Err(WrongAuthKey)
    else
      var length := LeNat(packet[16..20]);
      if length < 4 || 20 + length > |packet| then Err(BadLength) else Ok(packet[20..20 + length])
  }

  /** Lines 362-369: the message is laid out in one allocated buffer. */
  method SendUnencrypted(msgId: nat, body: Bytes) returns (message: Bytes)
    ensures message == Envelope(msgId, body)
  {
    var out := new byte[20 + |body|](_ => 0);
    var id, length := Le(msgId, 8), Le(|body|, 4);
    forall i | 0 <= i < 8 { out[8 + i] := id[i]; }
    forall i | 0 <= i < 4 { out[16 + i] := length[i]; }
    forall i | 0 <= i < |body| { out[20 + i] := body[i]; }
    message := out[..];
    assert message == message[..8] + message[8..16] + message[16..20] + message[20..];
    assert message[..8] == Zeros(8) && message[8..16] == id && message[16..20] == length && message[20..] == body;
  }

  /** A body comes back exactly when it has at least four bytes and its length fits a word. */
  lemma UnwrapsExactly(msgId: nat, body: Bytes)
    ensures Unwrapped(Envelope(msgId, body)) == Ok(body) <==> 4 <= |body| < 0x1_0000_0000
    ensures |Envelope(msgId, body)| % 4 == |body| % 4
  {
    hide Le, LeNat;
    var m := Envelope(msgId, body);
    assert m[..8] == Zeros(8) && m[16..20] == Le(|body|, 4) && m[20..] == body;
    assert m[20..20 + |body|] == body;
    Widths();
    LeNatRoundTrip(m[16..20]);
    if |body| < 0x1_0000_0000 { LeRoundTrip(|body|, 4); }
  }

  /** Nothing else is taken for a message: a zero key id, some message id, the body's length, the body. */
  lemma UnwrapsOnly(packet: Bytes, body: Bytes)
    ensures
      Unwrapped(packet) == Ok(body) <==>
      exists id: Bytes, tail: Bytes :: |id| == 8 && Composed(packet, id, body, tail)
  {
    hide Le, LeNat;
    Widths();
    if Unwrapped(packet) == Ok(body) {
      LeNatRoundTrip(packet[16..20]);
      assert packet == packet[..8] + packet[8..16] + packet[16..20] + body + packet[20 + |body|..];
      assert Composed(packet, packet[8..16], body, packet[20 + |body|..]);
    }
    if id: Bytes, tail: Bytes :| |id| == 8 && Composed(packet, id, body, tail) {
      LeRoundTrip(|body|, 4);
      assert packet[..8] == Zeros(8) && packet[16..20] == Le(|body|, 4) && packet[20..20 + |body|] == body;
    }
  }

  ghost predicate Composed(packet: Bytes, id: Bytes, body: Bytes, tail: Bytes) {
    4 <= |body| < 0x1_0000_0000 && packet == Zeros(8) + id + Le(|body|, 4) + body + tail
  }
}

/** internal/mtproto/session.go: the encrypted message layer. */
module Session {
  import opened Bytes
  import opened Crypto
  import opened Wrappers
  import Ige

  const WORD := 0x1_0000_0000

  type Key = b: Bytes | |b| == 256 witness seq(256, _ => 0)
  type Eight = b: Bytes | |b| == 8 witness seq(8, _ => 0)

  datatype Auth = Auth(key: Key, keyId: Eight)

  /** The direction offset into the key: 0 towards the server, 8 back. */
  type Side = x: nat | x == 0 || x == 8

  // ---- keys and packets

  function MessageKey(s: Suite, key: Key, plain: Bytes, x: Side): Block {
    s.sha256(key[88 + x..88 + x + 32] + plain)[8..24]
  }

  function MessageKeys(s: Suite, key: Key, msgKey: Block, x: Side): (r: (Bytes, Bytes))
    ensures |r.0| == 32 && |r.1| == 32
  {
    var a := s.sha256(msgKey + key[x..x + 36]);
    var b := s.sha256(key[40 + x..40 + x + 36] + msgKey);
    (a[0..8] + b[8..24] + a[24..32], b[0..8] + a[8..24] + b[24..32])
  }

  function PaddingFor(n: nat): (k: nat)
    ensures 12 <= k <= 27 && (n + k) % 16 == 0
  {
    12 + (16 - (n + 12) % 16) % 16
  }

  const HEADER := 32

  /** salt | session id | message id | sequence number | length | body | filler. */
  function Plain(salt: Eight, id: Eight, msgId: nat, seqNo: nat, body: Bytes, filler: Bytes): (p: Bytes)
    ensures |p| == HEADER + |body| + |filler|
  {
    salt + id + Le(msgId, 8) + Le(seqNo, 4) + Le(|body|, 4) + body + filler
  }

  function Seal(s: Suite, auth: Auth, x: Side, plain: Bytes): (packet: Bytes)
    requires |plain| % 16 == 0
    ensures |packet| == 24 + |plain|
  {
    var msgKey := MessageKey(s, auth.key, plain, x);
    var (key, iv) := MessageKeys(s, auth.key, msgKey, x);
    auth.keyId + msgKey + Ige.Enc(s, key, iv[..16], iv[16..], plain)
  }

  /** Lines 129-145: the checks up to the message key. */
  function Unseal(s: Suite, auth: Auth, x: Side, packet: Bytes): Result<Bytes> {
    if |packet| < 40 then Err(TooShort)
    else if packet[..8] != auth.keyId then Err(WrongAuthKey)
    else
      var msgKey := packet[8..24];
      var (key, iv) := MessageKeys(s, auth.key, msgKey, x);
      var plain :- Ige.Decrypted(s, packet[24..], key, iv);
      if MessageKey(s, auth.key, plain, x) != msgKey then Err(MsgKeyMismatch) else Ok(plain)
  }

  /** Lines 147-154: the declared length selects the body. */
  function Body(plain: Bytes): Result<Bytes> {
    if |plain| < HEADER then Err(TooShort)
    else
      var length := LeNat(plain[28..32]);
      if length < 4 || HEADER + length > |plain| then Err(BadLength) else Ok(plain[HEADER..HEADER + length])
  }

  function Opened(s: Suite, auth: Auth, x: Side, packet: Bytes): Result<Bytes> {
    var plain :- Unseal(s, auth, x, packet);
    Body(plain)
  }

  class Session {
    const suite: Suite
    const auth: Auth
    const id: Eight
    var seqNo: nat
    var salt: Eight
    ghost var packets: nat  // how many packets were encrypted

    ghost predicate Valid()
      reads this
    {
      seqNo == packets % WORD
    }

    constructor (suite: Suite, auth: Auth, id: Eight, salt: Eight)
      ensures Valid() && packets == 0
      ensures this.suite == suite && this.auth == auth && this.id == id && this.salt == salt
    {
      this.suite, this.auth, this.id, this.salt := suite, auth, id, salt;
      seqNo, packets := 0, 0;
    }

    /** Lines 100-127. The clock supplies `msgId`, the random source `filler`. */
    method Encrypt(body: Bytes, msgId: nat, filler: Bytes) returns (packet: Bytes)
      requires Valid() && |filler| == PaddingFor(HEADER + |body|)
      modifies this
      ensures Valid() && packets == old(packets) + 1 && salt == old(salt)
      ensures packet == Seal(suite, auth, 0, Plain(salt, id, msgId, (2 * old(packets) + 1) % WORD, body, filler))
    {
      hide Seal, Ige.Enc, MessageKey, MessageKeys;
      var number := (seqNo * 2 + 1) % WORD;
      SequenceNumber(packets);
      seqNo := (seqNo + 1) % WORD;
      packets := packets + 1;
      var plain := salt;
      plain := plain + id;
      plain := plain + Le(msgId, 8);
      plain := plain + Le(number, 4);
      plain := plain + Le(|body|, 4);
      plain := plain + body;
      plain := plain + filler;
      assert plain == Plain(salt, id, msgId, number, body, filler);
      var msgKey := MessageKey(suite, auth.key, plain, 0);
      var (key, iv) := MessageKeys(suite, auth.key, msgKey, 0);
      var encrypted := Ige.IgeEncrypt(suite, plain, key, iv);
      SealIs(suite, auth, 0, plain);
      packet := auth.keyId + msgKey + encrypted.value;
    }

    /** Lines 129-155: replies come from the other side. */
    function Decrypt(packet: Bytes): Result<Bytes> { Opened(suite, auth, 8, packet) }
  }

  lemma SealIs(s: Suite, auth: Auth, x: Side, plain: Bytes)
    requires |plain| % 16 == 0
    ensures
      var msgKey := MessageKey(s, auth.key, plain, x);
      var (key, iv) := MessageKeys(s, auth.key, msgKey, x);
      var e := Ige.Encrypted(s, plain, key, iv);
      e.Ok? && Seal(s, auth, x, plain) == auth.keyId + msgKey + e.value
  {}

  /** Doubling the wrapped counter gives the wrapped double of the count. */
  lemma SequenceNumber(n: nat)
    ensures ((n % WORD) * 2 + 1) % WORD == (2 * n + 1) % WORD
    ensures (n % WORD + 1) % WORD == (n + 1) % WORD
  {
    var q, m := n / WORD, n % WORD;
    assert n == WORD * q + m;
    var r := if 2 * m + 1 < WORD then 2 * m + 1 else 2 * m + 1 - WORD;
    var k := if 2 * m + 1 < WORD then 0 else 1;
    Remainder(2 * m + 1, k, r);
    Remainder(2 * n + 1, 2 * q + k, r);
    var t := if m + 1 < WORD then m + 1 else 0;
    var l := if m + 1 < WORD then 0 else 1;
    Remainder(m + 1, l, t);
    Remainder(n + 1, q + l, t);
  }

  lemma Remainder(v: nat, k: nat, r: nat)
    requires v == WORD * k + r && r < WORD
    ensures v % WORD == r
  {}

  // ---- round trips

  /** The mirrored peer, on either side, recovers every sealed plaintext. */
  lemma UnsealSeal(s: Suite, auth: Auth, x: Side, plain: Bytes)
    requires s.Lawful() && |plain| % 16 == 0 && |plain| >= 16
    ensures Unseal(s, auth, x, Seal(s, auth, x, plain)) == Ok(plain)
  {
    hide MessageKey, MessageKeys, Ige.Enc, Ige.Dec;
    var msgKey := MessageKey(s, auth.key, plain, x);
    var (key, iv) := MessageKeys(s, auth.key, msgKey, x);
    var packet := Seal(s, auth, x, plain);
    var encrypted := Ige.Enc(s, key, iv[..16], iv[16..], plain);
    assert packet[..8] == auth.keyId && packet[8..24] == msgKey && packet[24..] == encrypted;
    Ige.IgeInverse(s, plain, key, iv);
  }

  /** A plaintext from which a reader takes exactly these fields. */
  ghost predicate Carries(p: Bytes, salt: Eight, id: Eight, msgId: nat, seqNo: nat, body: Bytes) {
    && |p| >= HEADER + |body|
    && p[..8] == salt && p[8..16] == id && LeNat(p[16..24]) == msgId && LeNat(p[24..28]) == seqNo
    && p[HEADER..HEADER + |body|] == body
  }

  lemma PlainFields(salt: Eight, id: Eight, msgId: nat, seqNo: nat, body: Bytes, filler: Bytes)
    ensures
      var p := Plain(salt, id, msgId, seqNo, body, filler);
      && p[..8] == salt && p[8..16] == id && p[16..24] == Le(msgId, 8) && p[24..28] == Le(seqNo, 4)
      && p[28..32] == Le(|body|, 4) && p[HEADER..HEADER + |body|] == body
  {
    hide Le;
  }

  lemma PlainCarries(salt: Eight, id: Eight, msgId: nat, seqNo: nat, body: Bytes, filler: Bytes)
    requires msgId < 0x1_0000_0000_0000_0000 && seqNo < WORD
    ensures Carries(Plain(salt, id, msgId, seqNo, body, filler), salt, id, msgId, seqNo, body)
  {
    hide Le, LeNat, Plain;
    PlainFields(salt, id, msgId, seqNo, body, filler);
    Widths();
    LeRoundTrip(msgId, 8);
    LeRoundTrip(seqNo, 4);
  }

  /**
   * What the server learns from an encrypted packet: salt, session id, message id,
   * sequence number and body, whatever the body. Packets are whole words.
   */
  lemma ServerReads(s: Suite, auth: Auth, salt: Eight, id: Eight, msgId: nat, seqNo: nat, body: Bytes, filler: Bytes)
    requires s.Lawful() && |filler| == PaddingFor(HEADER + |body|)
    requires msgId < 0x1_0000_0000_0000_0000 && seqNo < WORD
    ensures
      var plain := Plain(salt, id, msgId, seqNo, body, filler);
      && |Seal(s, auth, 0, plain)| % 4 == 0
      && Unseal(s, auth, 0, Seal(s, auth, 0, plain)) == Ok(plain)
      && Carries(plain, salt, id, msgId, seqNo, body)
  {
    hide Seal, Unseal, Plain, Carries, PaddingFor, Suite.Lawful;
    var plain := Plain(salt, id, msgId, seqNo, body, filler);
    WholeBlocks(|body|, |plain|);
    UnsealSeal(s, auth, 0, plain);
    PlainCarries(salt, id, msgId, seqNo, body, filler);
  }

  lemma WholeBlocks(n: nat, total: nat)
    requires total == HEADER + n + PaddingFor(HEADER + n)
    ensures total % 16 == 0 && total >= 16 && (24 + total) % 4 == 0
  {
    hide PaddingFor;
    assert total == 16 * (total / 16);
  }

  /**
   * A reply is decrypted to its own body exactly when the body has at least four bytes
   * and its length fits the length word.
   */
  lemma ReplyReadExactly(s: Suite, auth: Auth, x: Side, salt: Eight, id: Eight, msgId: nat, seqNo: nat, body: Bytes, filler: Bytes)
    requires s.Lawful() && |filler| == PaddingFor(HEADER + |body|)
    ensures
      Opened(s, auth, x, Seal(s, auth, x, Plain(salt, id, msgId, seqNo, body, filler))) == Ok(body)
      <==> 4 <= |body| < WORD
  {
    hide Seal, Unseal, Le, LeNat, Plain;
    var plain := Plain(salt, id, msgId, seqNo, body, filler);
    UnsealSeal(s, auth, x, plain);
    PlainFields(salt, id, msgId, seqNo, body, filler);
    Widths();
    LeNatRoundTrip(plain[28..32]);
    if |body| < WORD { LeRoundTrip(|body|, 4); }
  }

  // ---- layout, and what is accepted at all

  /** Which bytes of the key make the message key of a direction, and which bytes of the digest it is. */
  lemma MessageKeyLayout(s: Suite, key: Key, plain: Bytes, x: Side)
    ensures
      var digest := s.sha256(seq(32, i requires 0 <= i < 32 => key[88 + x + i]) + plain);
      forall i :: 0 <= i < 16 ==> MessageKey(s, key, plain, x)[i] == digest[8 + i]
  {
    assert key[88 + x..88 + x + 32] == seq(32, i requires 0 <= i < 32 => key[88 + x + i]);
  }

  /** The key and the IV are the two digests with their middle sixteen bytes exchanged. */
  lemma MessageKeysLayout(s: Suite, key: Key, msgKey: Block, x: Side)
    ensures
      var a := s.sha256(msgKey + seq(36, i requires 0 <= i < 36 => key[x + i]));
      var b := s.sha256(seq(36, i requires 0 <= i < 36 => key[40 + x + i]) + msgKey);
      var (k, iv) := MessageKeys(s, key, msgKey, x);
      forall i :: 0 <= i < 32 ==> if 8 <= i < 24 then k[i] == b[i] && iv[i] == a[i] else k[i] == a[i] && iv[i] == b[i]
  {
    assert key[x..x + 36] == seq(36, i requires 0 <= i < 36 => key[x + i]);
    assert key[40 + x..40 + x + 36] == seq(36, i requires 0 <= i < 36 => key[40 + x + i]);
  }

  /** Nothing is opened but what was sealed with the same key in the same direction. */
  lemma UnsealExactly(s: Suite, auth: Auth, x: Side, packet: Bytes, plain: Bytes)
    requires s.Lawful()
    ensures Unseal(s, auth, x, packet) == Ok(plain) <==>
            |plain| % 16 == 0 && |plain| >= 16 && packet == Seal(s, auth, x, plain)
  {
    hide MessageKey, MessageKeys, Ige.Enc, Ige.Dec;
    if |plain| % 16 == 0 && |plain| >= 16 && packet == Seal(s, auth, x, plain) {
      UnsealSeal(s, auth, x, plain);
    }
    if Unseal(s, auth, x, packet) == Ok(plain) {
      var (key, iv) := MessageKeys(s, auth.key, packet[8..24], x);
      Ige.IgeInverse(s, packet[24..], key, iv);
      assert packet == packet[..8] + packet[8..24] + packet[24..];
    }
  }

  /** The plaintext of a body, whatever stands before its length and behind it. */
  ghost predicate Holds(plain: Bytes, head: Bytes, body: Bytes, tail: Bytes) {
    |head| == 28 && 4 <= |body| < WORD && plain == head + Le(|body|, 4) + body + tail
  }

  lemma BodyExactly(plain: Bytes, body: Bytes)
    ensures Body(plain) == Ok(body) <==> exists head, tail :: Holds(plain, head, body, tail)
  {
    hide Le, LeNat;
    Widths();
    if Body(plain) == Ok(body) {
      LeNatRoundTrip(plain[28..32]);
      assert plain == plain[..28] + plain[28..32] + body + plain[HEADER + |body|..];
      assert Holds(plain, plain[..28], body, plain[HEADER + |body|..]);
    }
    if head, tail :| Holds(plain, head, body, tail) {
      LeRoundTrip(|body|, 4);
      assert plain[28..32] == Le(|body|, 4) && plain[HEADER..HEADER + |body|] == body;
    }
  }

  /** A body is taken from a packet exactly when the packet is the seal of whole blocks that hold it. */
  lemma OpenedExactly(s: Suite, auth: Auth, x: Side, packet: Bytes, body: Bytes)
    requires s.Lawful()
    ensures
      Opened(s, auth, x, packet) == Ok(body) <==>
      exists plain, head, tail ::
        Holds(plain, head, body, tail) && |plain| % 16 == 0 && |plain| >= 16 && packet == Seal(s, auth, x, plain)
  {
    hide Unseal, Body, Seal, Holds;
    if Opened(s, auth, x, packet) == Ok(body) {
      var plain := Unseal(s, auth, x, packet).value;
      UnsealExactly(s, auth, x, packet, plain);
      BodyExactly(plain, body);
    }
    if plain, head, tail :|
        Holds(plain, head, body, tail) && |plain| % 16 == 0 && |plain| >= 16 && packet == Seal(s, auth, x, plain) {
      UnsealExactly(s, auth, x, packet, plain);
      BodyExactly(plain, body);
    }
  }
}

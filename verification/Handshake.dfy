/**
 * The auth-key exchange against an honest server: an independent server side, and the
 * theorem that both sides end with the same key.
 */
module Handshake {
  import opened Bytes
  import opened Crypto
  import opened Wrappers
  import opened Tl
  import opened Words
  import opened ModExp
  import opened Plaintext
  import opened AuthKey
  import Factorize
  import Ige
  import RsaPad

  // ---- the server

  type Prime = p: nat | 0 < p < Pow256(KEY_BYTES) ghost witness FitWitness().prime

  /** A number of at most 64 bits, in as many bytes as its sender likes. */
  type Short = b: Bytes | 1 <= |b| <= 8 witness [0]

  datatype Server = Server(
    keys: seq<RsaPad.RsaKey>, serverNonce: Int128, pqBytes: Short, fingerprints: seq<nat>, g: nat, prime: Prime, a: nat,
    primeBytes: Bytes, gABytes: Bytes, time: nat, filler: Source, msgId1: nat, msgId2: nat, msgId3: nat)

  function Blank(n: nat): Field { FRaw(Zeros(n)) }

  /** Reads the fields of the given kinds off the front of some bytes. */
  function Heard(body: Bytes, shape: seq<Field>): (r: Result<seq<Field>>)
    ensures r.Ok? ==> AllAlike(r.value, shape)
  {
    var (c, fs) := TakeFields(Start(body), shape);
    if c.err.Some? then Err(c.err.value) else Ok(fs)
  }

  const REQ_PQ_SHAPE := [FU32(0), Blank(16)]
  const REQ_DH_SHAPE := [FU32(0), Blank(16), Blank(16), FStr([]), FStr([]), FU64(0), FStr([])]
  const INNER_SHAPE := [FU32(0), FStr([]), FStr([]), FStr([]), Blank(16), Blank(16), Blank(32), FU32(0)]
  const SET_SHAPE := [FU32(0), Blank(16), Blank(16), FStr([])]
  const CLIENT_SHAPE := [FU32(0), Blank(16), Blank(16), FU64(0), FStr([])]

  lemma ReqDHKinds(fs: seq<Field>)
    requires AllAlike(fs, REQ_DH_SHAPE)
    ensures |fs| == 7 && fs[0].FU32? && fs[1].FRaw? && fs[2].FRaw? && fs[3].FStr? && fs[4].FStr? && fs[5].FU64? && fs[6].FStr?
  {
    assert forall i :: 0 <= i < 7 ==> Alike(fs[i], REQ_DH_SHAPE[i]);
  }

  lemma InnerKinds(fs: seq<Field>)
    requires AllAlike(fs, INNER_SHAPE)
    ensures |fs| == 8 && fs[0].FU32? && fs[1].FStr? && fs[2].FStr? && fs[3].FStr? && fs[4].FRaw? && fs[5].FRaw? && fs[6].FRaw? && |fs[6].p| == 32
  {
    assert forall i :: 0 <= i < 8 ==> Alike(fs[i], INNER_SHAPE[i]);
  }

  /** The nonce of the opening message. */
  function HeardNonce(packet: Bytes): Result<Int128> {
    hide Unwrapped, Heard;
    var body :- Unwrapped(packet);
    var fs :- Heard(body, REQ_PQ_SHAPE);
    if fs[0].v != REQ_PQ then Err(UnexpectedConstructor) else Ok(fs[1].p)
  }

  /** The client's new nonce: the envelope is opened and everything echoed is compared. */
  function HeardNewNonce(s: Suite, srv: Server, nonce: Int128, packet: Bytes): Result<Int256> {
    hide Unwrapped, Heard, Lookup, OpenedInner, BeNat, AllAlike;
    var body :- Unwrapped(packet);
    var fs :- Heard(body, REQ_DH_SHAPE);
    ReqDHKinds(fs);
    if fs[0].v != REQ_DH then Err(UnexpectedConstructor)
    else if fs[1].p != nonce then Err(NonceMismatch)
    else if fs[2].p != srv.serverNonce then Err(ServerNonceMismatch)
    else if BeNat(fs[3].p) * BeNat(fs[4].p) != BeNat(srv.pqBytes) then Err(NoFactor)
    else
      match Lookup(srv.keys, fs[5].v)
      case None => Err(UnknownKey)
      case Some(key) => OpenedInner(s, srv, nonce, key, fs[6].p)
  }

  function OpenedInner(s: Suite, srv: Server, nonce: Int128, key: RsaPad.RsaKey, wire: Bytes): Result<Int256> {
    hide RsaPad.Unpad, Heard, AllAlike;
    var padded :- RsaPad.Unpad(s, key, wire);
    var inner :- Heard(padded, INNER_SHAPE);
    InnerKinds(inner);
    if inner[0].v != PQ_INNER then Err(UnexpectedConstructor)
    else if inner[4].p != nonce then Err(NonceMismatch)
    else if inner[5].p != srv.serverNonce then Err(ServerNonceMismatch)
    else if BeNat(inner[1].p) != BeNat(srv.pqBytes) || BeNat(inner[2].p) * BeNat(inner[3].p) != BeNat(srv.pqBytes) then Err(NoFactor)
    else Ok(inner[6].p)
  }

  /** g_b: the inner data is decrypted with the temporary keys and its hash compared. */
  function HeardHalf(s: Suite, srv: Server, nonce: Int128, newNonce: Int256, packet: Bytes): Result<nat> {
    hide Unwrapped, Heard, TempKeys, Ige.Decrypted, OpenedHalf;
    var body :- Unwrapped(packet);
    var fs :- Heard(body, SET_SHAPE);
    if fs[0].v != SET_CLIENT_DH then Err(UnexpectedConstructor)
    else if fs[1].p != nonce then Err(NonceMismatch)
    else if fs[2].p != srv.serverNonce then Err(ServerNonceMismatch)
    else
      var (key, iv) := TempKeys(s, newNonce, srv.serverNonce);
      var decrypted :- Ige.Decrypted(s, fs[3].p, key, iv);
      OpenedHalf(s, srv, nonce, decrypted)
  }

  function OpenedHalf(s: Suite, srv: Server, nonce: Int128, decrypted: Bytes): Result<nat> {
    hide Heard, FieldsAt, BeNat;
    if |decrypted| < 20 then Err(TooShort)
    else
      var inner :- Heard(decrypted[20..], CLIENT_SHAPE);
      var length := |FieldsAt(0, inner)|;
      if 20 + length > |decrypted| || s.sha1(decrypted[20..20 + length]) != decrypted[..20] then Err(HashMismatch)
      else if inner[0].v != CLIENT_INNER then Err(UnexpectedConstructor)
      else if inner[1].p != nonce then Err(NonceMismatch)
      else if inner[2].p != srv.serverNonce then Err(ServerNonceMismatch)
      else if inner[3].v != 0 then Err(NoReply)
      else Ok(BeNat(inner[4].p))
  }

  function ResPQFields(srv: Server, nonce: Int128): seq<Field> {
    [FU32(RES_PQ), FRaw(nonce), FRaw(srv.serverNonce), FStr(srv.pqBytes)]
      + ([FU32(VECTOR), FU32(|srv.fingerprints|)] + Longs(srv.fingerprints))
  }

  function ServerInner(srv: Server, nonce: Int128): seq<Field> {
    [FU32(SERVER_INNER), FRaw(nonce), FRaw(srv.serverNonce), FU32(srv.g), FStr(srv.primeBytes), FStr(srv.gABytes), FU32(srv.time)]
  }

  function ServerAnswer(s: Suite, srv: Server, nonce: Int128, newNonce: Int256): Result<Bytes> {
    var (key, iv) := TempKeys(s, newNonce, srv.serverNonce);
    SealedInner(s, FieldsAt(0, ServerInner(srv, nonce)), key, iv, srv.filler)
  }

  function ParamsFields(srv: Server, nonce: Int128, answer: Bytes): seq<Field> {
    [FU32(DH_PARAMS_OK), FRaw(nonce), FRaw(srv.serverNonce), FStr(answer)]
  }

  function GenFields(s: Suite, srv: Server, nonce: Int128, newNonce: Int256, shared: Bytes): seq<Field> {
    [FU32(DH_GEN_OK), FRaw(nonce), FRaw(srv.serverNonce), FRaw(NewNonceHash(s, newNonce, shared))]
  }

  /** The server's key: g_b raised to its own exponent. */
  function ServerShared(srv: Server, gB: nat): Bytes
  {
    PadTo(Exp(gB, srv.a, srv.prime), KEY_BYTES)
  }

  /** What the server answers to the packets it has received. */
  function Answer(s: Suite, srv: Server, packets: seq<Bytes>): Result<Bytes>
  {
    if packets == [] then Err(NoReply)
    else
      var nonce :- HeardNonce(packets[0]);
      if |packets| == 1 then Ok(Envelope(srv.msgId1, FieldsAt(0, ResPQFields(srv, nonce))))
      else
        var newNonce :- HeardNewNonce(s, srv, nonce, packets[1]);
        if |packets| == 2 then
          var answer :- ServerAnswer(s, srv, nonce, newNonce);
          Ok(Envelope(srv.msgId2, FieldsAt(0, ParamsFields(srv, nonce, answer))))
        else
          var gB :- HeardHalf(s, srv, nonce, newNonce, packets[2]);
          Ok(Envelope(srv.msgId3, FieldsAt(0, GenFields(s, srv, nonce, newNonce, ServerShared(srv, gB)))))
  }

  datatype Held = Held(key: Bytes, keyId: Bytes, salt: Bytes)

  function HeldFrom(s: Suite, srv: Server, newNonce: Int256, shared: Bytes): Held {
    Held(shared, s.sha1(shared)[12..20], Xor(newNonce[..8], srv.serverNonce[..8]))
  }

  /** The key, key id and salt the server holds after three packets. */
  function ServerHolds(s: Suite, srv: Server, packets: seq<Bytes>): Result<Held>
    requires |packets| == 3
  {
    var nonce :- HeardNonce(packets[0]);
    var newNonce :- HeardNewNonce(s, srv, nonce, packets[1]);
    var gB :- HeardHalf(s, srv, nonce, newNonce, packets[2]);
    Ok(HeldFrom(s, srv, newNonce, ServerShared(srv, gB)))
  }

  /** What the first answer offers. */
  function Offer(srv: Server): ResPQ {
    ShortValue(srv.pqBytes);
    ResPQ(BeNat(srv.pqBytes), srv.serverNonce, srv.fingerprints)
  }

  function OwnHalf(srv: Server): nat
  {
    Exp(srv.g, srv.a, srv.prime)
  }

  /** A server that follows the protocol, with a safe prime of 2048 bits, a small generator and a proper half. */
  ghost predicate Honest(s: Suite, srv: Server, primality: Primality) {
    && s.Lawful()
    && (forall i :: 0 <= i < |srv.keys| ==> srv.keys[i].Lawful() && srv.keys[i].fingerprint < TWO_64)
    && |srv.fingerprints| <= 64 && AllLongs(srv.fingerprints)
    && |srv.primeBytes| <= 0x1000 && |srv.gABytes| <= 0x1000 && srv.time < 0x1_0000_0000
    && BeNat(srv.primeBytes) == srv.prime && BeNat(srv.gABytes) == OwnHalf(srv)
    && Admissible(s, DHParams(srv.g, srv.prime, OwnHalf(srv), srv.time), primality)
  }

  /** Of the keys the client knows, the server holds those it offers. */
  ghost predicate Serves(srv: Server, keys: seq<RsaPad.RsaKey>) {
    forall k :: k in keys && k.fingerprint in srv.fingerprints ==> Lookup(srv.keys, k.fingerprint) == Some(k) && k in srv.keys
  }

  // ---- both sides read what the other writes

  /** Fields of the sizes this protocol sends. */
  ghost predicate AllFit(fs: seq<Field>) {
    forall i :: 0 <= i < |fs| ==> Fits(fs[i]) && (fs[i].FRaw? ==> |fs[i].p| <= 32)
  }

  lemma HeardFields(fs: seq<Field>, rest: Bytes, shape: seq<Field>)
    requires AllFit(fs) && AllAlike(fs, shape)
    ensures Heard(FieldsAt(0, fs) + rest, shape) == Ok(fs)
  {
    hide FieldsAt, TakeFields, Fits, Alike;
    FieldsRoundTrip(fs, rest);
    TakeAlike(Start(FieldsAt(0, fs) + rest), fs, shape);
  }

  /** A message of fitting fields survives its envelope. */
  lemma FieldsUnwrap(msgId: nat, fs: seq<Field>)
    requires AllFit(fs) && 1 <= |fs| <= 100 && fs[0].FU32?
    ensures Unwrapped(Envelope(msgId, FieldsAt(0, fs))) == Ok(FieldsAt(0, fs))
  {
    hide Unwrapped, Envelope, Sizes;
    FieldsSize(0, fs);
    SizesBound(fs, 0x100_0100);
    UnwrapsExactly(msgId, FieldsAt(0, fs));
  }

  lemma HeardMessage(msgId: nat, fs: seq<Field>, shape: seq<Field>)
    requires AllFit(fs) && 1 <= |fs| <= 100 && fs[0].FU32? && AllAlike(fs, shape)
    ensures
      var body := Unwrapped(Envelope(msgId, FieldsAt(0, fs)));
      body.Ok? && Heard(body.value, shape) == Ok(fs)
  {
    hide Unwrapped, Envelope, FieldsAt, Heard;
    FieldsUnwrap(msgId, fs);
    HeardFields(fs, [], shape);
    assert FieldsAt(0, fs) + [] == FieldsAt(0, fs);
  }

  lemma AheadAtStart(b: Bytes, rest: Bytes)
    ensures Ahead(Start(b + rest), b)
  {}

  /** The server hears the client's nonce. */
  lemma OpeningHeard(d: Draws)
    ensures HeardNonce(First(d)) == Ok(d.nonce)
  {
    hide Unwrapped, Envelope, FieldsAt, Heard;
    HeardMessage(d.msgId1, ReqPQ(d.nonce), REQ_PQ_SHAPE);
  }

  /** The position behind a constructor and the two nonces. */
  ghost function AfterHeader(c: Cur, ctor: nat): Cur {
    Take(Take(TakeExpected(c, ctor), 16).0, 16).0
  }

  /** Every server message starts with its constructor and the two nonces. */
  lemma HeaderAhead(c: Cur, ctor: nat, nonce: Int128, serverNonce: Int128, rest: seq<Field>)
    requires ctor < 0x1_0000_0000
    requires Ahead(c, FieldsAt(c.i, [FU32(ctor), FRaw(nonce), FRaw(serverNonce)] + rest))
    ensures
      var c1 := TakeExpected(c, ctor);
      var c2 := Take(c1, 16).0;
      var c3 := AfterHeader(c, ctor);
      && c1.err.None? && c2.err.None? && Take(c1, 16).1 == nonce && Take(c2, 16).1 == serverNonce
      && Ahead(c3, FieldsAt(c3.i, rest))
      && c.i + |FieldsAt(c.i, [FU32(ctor), FRaw(nonce), FRaw(serverNonce)] + rest)| == c3.i + |FieldsAt(c3.i, rest)|
  {
    hide FieldsAt, FieldAt, Ahead, Fits;
    var f2 := [FRaw(serverNonce)] + rest;
    var f1 := [FRaw(nonce)] + f2;
    assert [FU32(ctor), FRaw(nonce), FRaw(serverNonce)] + rest == [FU32(ctor)] + f1;
    FitsHere(FU32(ctor));
    FitsHere(FRaw(nonce));
    FitsHere(FRaw(serverNonce));
    StepField(c, FU32(ctor), f1);
    var c1 := TakeField(c, FU32(ctor)).0;
    AheadNoError(c, FieldsAt(c.i, [FU32(ctor)] + f1));
    StepField(c1, FRaw(nonce), f2);
    StepField(TakeField(c1, FRaw(nonce)).0, FRaw(serverNonce), rest);
  }

  /** The client reads the server's first answer. */
  lemma ResPQRead(srv: Server, nonce: Int128)
    requires |srv.fingerprints| <= 64 && AllLongs(srv.fingerprints)
    ensures ParsedResPQ(FieldsAt(0, ResPQFields(srv, nonce)), nonce) == Ok(Offer(srv))
  {
    hide FieldsAt, FieldAt, Ahead, Fits, TakeExpected, TakeVector, TakeString, Take, BeNat;
    var vector := [FU32(VECTOR), FU32(|srv.fingerprints|)] + Longs(srv.fingerprints);
    var rest := [FStr(srv.pqBytes)] + vector;
    assert ResPQFields(srv, nonce) == [FU32(RES_PQ), FRaw(nonce), FRaw(srv.serverNonce)] + rest;
    var b := FieldsAt(0, ResPQFields(srv, nonce));
    AheadAtStart(b, []);
    assert b + [] == b;
    HeaderAhead(Start(b), RES_PQ, nonce, srv.serverNonce, rest);
    var c3 := AfterHeader(Start(b), RES_PQ);
    FitsHere(FStr(srv.pqBytes));
    StepField(c3, FStr(srv.pqBytes), vector);
    VectorAhead(TakeField(c3, FStr(srv.pqBytes)).0, srv.fingerprints);
  }

  lemma FitsHere(f: Field)
    requires f.FU32? ==> f.v < 0x1_0000_0000
    requires f.FU64? ==> f.v < 0x1_0000_0000_0000_0000
    requires f.FStr? ==> |f.p| < 0x100_0000
    ensures Fits(f)
  {}

  // ---- the encrypted parts

  /** Inner data is decrypted to its hash, itself and the filler. */
  lemma SealedOpens(s: Suite, data: Bytes, key: Bytes, iv: Bytes, filler: Source)
    requires s.Lawful() && |key| == 32 && |iv| == 32
    ensures
      var sealed := SealedInner(s, data, key, iv, filler);
      && sealed.Ok? && |sealed.value| <= |data| + 36
      && exists tail :: Ige.Decrypted(s, sealed.value, key, iv) == Ok(s.sha1(data) + data + tail)
  {
    hide Ige.Enc, Ige.Dec;
    var payload := s.sha1(data) + data;
    var tail := filler((16 - |payload| % 16) % 16);
    Ige.IgeInverse(s, payload + tail, key, iv);
    assert Ige.Decrypted(s, SealedInner(s, data, key, iv, filler).value, key, iv) == Ok(s.sha1(data) + data + tail);
  }

  /** The steps through the inner data: the values, and a reader exactly behind it. */
  lemma InnerSteps(srv: Server, nonce: Int128, tail: Bytes)
    requires AllFit(ServerInner(srv, nonce))
    ensures
      var data := FieldsAt(0, ServerInner(srv, nonce));
      var b := data + tail;
      var c1 := TakeExpected(Start(b), SERVER_INNER);
      var c2 := Take(c1, 16).0;
      var (c4, g) := TakeNat(AfterHeader(Start(b), SERVER_INNER), 4);
      var (c5, prime) := TakeString(c4);
      var (c6, gA) := TakeString(c5);
      && c1.err.None? && c2.err.None? && Take(c1, 16).1 == nonce && Take(c2, 16).1 == srv.serverNonce
      && g == srv.g && prime == srv.primeBytes && gA == srv.gABytes
      && TakeNat(c6, 4) == (Cur(b, |data|, None), srv.time)
  {
    hide FieldsAt, FieldAt, Ahead, Fits, TakeExpected, TakeString, Take, TakeNat, AfterHeader;
    var f6 := [FU32(srv.time)] + [];
    var f5 := [FStr(srv.gABytes)] + f6;
    var f4 := [FStr(srv.primeBytes)] + f5;
    var f3 := [FU32(srv.g)] + f4;
    InnerOrder(srv, nonce);
    var b := FieldsAt(0, ServerInner(srv, nonce)) + tail;
    AheadAtStart(FieldsAt(0, ServerInner(srv, nonce)), tail);
    HeaderAhead(Start(b), SERVER_INNER, nonce, srv.serverNonce, f3);
    var c3 := AfterHeader(Start(b), SERVER_INNER);
    StepField(c3, FU32(srv.g), f4);
    var c4 := TakeField(c3, FU32(srv.g)).0;
    StepField(c4, FStr(srv.primeBytes), f5);
    var c5 := TakeField(c4, FStr(srv.primeBytes)).0;
    StepField(c5, FStr(srv.gABytes), f6);
    var c6 := TakeField(c5, FStr(srv.gABytes)).0;
    StepField(c6, FU32(srv.time), []);
    NoFields(TakeField(c6, FU32(srv.time)).0);
    SameBuffer(Start(b), SERVER_INNER, srv);
  }

  lemma InnerOrder(srv: Server, nonce: Int128)
    requires AllFit(ServerInner(srv, nonce))
    ensures ServerInner(srv, nonce) == [FU32(SERVER_INNER), FRaw(nonce), FRaw(srv.serverNonce)]
      + ([FU32(srv.g)] + ([FStr(srv.primeBytes)] + ([FStr(srv.gABytes)] + ([FU32(srv.time)] + []))))
    ensures Fits(FU32(srv.g)) && Fits(FStr(srv.primeBytes)) && Fits(FStr(srv.gABytes)) && Fits(FU32(srv.time))
  {
    hide Fits;
    var fs := ServerInner(srv, nonce);
    assert Fits(fs[3]) && Fits(fs[4]) && Fits(fs[5]) && Fits(fs[6]);
  }

  /** Reading moves on in one and the same buffer. */
  lemma SameBuffer(c: Cur, ctor: nat, srv: Server)
    ensures
      var c4 := TakeNat(AfterHeader(c, ctor), 4).0;
      TakeNat(TakeString(TakeString(c4).0).0, 4).0.b == c.b
  {
    hide Take, TakeString, TakeNat, TakeExpected;
  }

  /** The client reads the decrypted inner data, and consumes exactly what was hashed. */
  lemma InnerRead(s: Suite, srv: Server, nonce: Int128, tail: Bytes)
    requires AllFit(ServerInner(srv, nonce))
    ensures
      var data := FieldsAt(0, ServerInner(srv, nonce));
      ParsedInner(s, s.sha1(data) + data + tail, nonce, srv.serverNonce)
      == Ok(DHParams(srv.g, BeNat(srv.primeBytes), BeNat(srv.gABytes), srv.time))
  {
    hide FieldsAt, TakeExpected, TakeString, Take, TakeNat, BeNat, ServerInner;
    var data := FieldsAt(0, ServerInner(srv, nonce));
    var decrypted := s.sha1(data) + data + tail;
    InnerSteps(srv, nonce, tail);
    assert decrypted[20..] == data + tail && decrypted[..20] == s.sha1(data) && decrypted[20..20 + |data|] == data;
  }

  lemma NoFields(c: Cur)
    requires Ahead(c, FieldsAt(c.i, []))
    ensures FieldsAt(c.i, []) == [] && c.err.None?
  {}

  /** The client reads the answer that carries the encrypted inner data. */
  lemma ParamsRead(s: Suite, srv: Server, nonce: Int128, newNonce: Int256, answer: Bytes)
    requires s.Lawful() && AllFit(ServerInner(srv, nonce)) && |answer| < 0x100_0000
    requires ServerAnswer(s, srv, nonce, newNonce) == Ok(answer)
    ensures
      var (key, iv) := TempKeys(s, newNonce, srv.serverNonce);
      ParsedDHParams(s, FieldsAt(0, ParamsFields(srv, nonce, answer)), nonce, srv.serverNonce, key, iv)
      == Ok(DHParams(srv.g, BeNat(srv.primeBytes), BeNat(srv.gABytes), srv.time))
  {
    hide FieldsAt, FieldAt, Ahead, Fits, TakeExpected, TakeString, Take, BeNat, TempKeys, SealedInner, ParsedInner, Ige.Decrypted, ServerInner;
    var (key, iv) := TempKeys(s, newNonce, srv.serverNonce);
    var fs := ParamsFields(srv, nonce, answer);
    assert fs == [FU32(DH_PARAMS_OK), FRaw(nonce), FRaw(srv.serverNonce)] + ([FStr(answer)] + []);
    var b := FieldsAt(0, fs);
    AheadAtStart(b, []);
    assert b + [] == b;
    HeaderAhead(Start(b), DH_PARAMS_OK, nonce, srv.serverNonce, [FStr(answer)] + []);
    var c3 := AfterHeader(Start(b), DH_PARAMS_OK);
    FitsHere(FStr(answer));
    StepField(c3, FStr(answer), []);
    NoFields(TakeField(c3, FStr(answer)).0);
    var data := FieldsAt(0, ServerInner(srv, nonce));
    SealedOpens(s, data, key, iv, srv.filler);
    var tail :| Ige.Decrypted(s, answer, key, iv) == Ok(s.sha1(data) + data + tail);
    InnerRead(s, srv, nonce, tail);
  }

  /** The client accepts the hash that closes the exchange. */
  lemma GenRead(s: Suite, srv: Server, nonce: Int128, newNonce: Int256, shared: Bytes)
    ensures CheckedGen(s, FieldsAt(0, GenFields(s, srv, nonce, newNonce, shared)), nonce, srv.serverNonce, newNonce, shared).None?
  {
    hide FieldsAt, FieldAt, Ahead, Fits, TakeExpected, Take, NewNonceHash;
    var hash := NewNonceHash(s, newNonce, shared);
    var fs := GenFields(s, srv, nonce, newNonce, shared);
    assert fs == [FU32(DH_GEN_OK), FRaw(nonce), FRaw(srv.serverNonce)] + ([FRaw(hash)] + []);
    var b := FieldsAt(0, fs);
    AheadAtStart(b, []);
    assert b + [] == b;
    HeaderAhead(Start(b), DH_GEN_OK, nonce, srv.serverNonce, [FRaw(hash)] + []);
    var c3 := AfterHeader(Start(b), DH_GEN_OK);
    FitsHere(FRaw(hash));
    StepField(c3, FRaw(hash), []);
    NoFields(TakeField(c3, FRaw(hash)).0);
  }

  lemma {:induction false} SelectedLookup(keys: seq<RsaPad.RsaKey>, fingerprints: seq<nat>, key: RsaPad.RsaKey)
    requires Selected(keys, fingerprints) == Ok(key)
    ensures key in keys && key.fingerprint in fingerprints
    decreases |fingerprints|
  {
    match Lookup(keys, fingerprints[0])
    case Some(_) => LookupFound(keys, fingerprints[0]);
    case None => SelectedLookup(keys, fingerprints[1..], key);
  }

  lemma {:induction false} LookupFound(keys: seq<RsaPad.RsaKey>, fingerprint: nat)
    ensures
      var found := Lookup(keys, fingerprint);
      found.Some? ==> found.value.fingerprint == fingerprint && found.value in keys
    decreases |keys|
  {
    if keys != [] && keys[0].fingerprint != fingerprint {
      LookupFound(keys[1..], fingerprint);
    }
  }

  /** The server opens the envelope and reads the client's new nonce. */
  lemma InnerHeard(s: Suite, srv: Server, d: Draws, res: ResPQ, f: Factorize.Factors, dc: int, key: RsaPad.RsaKey, wire: Bytes)
    requires s.Lawful() && key.Lawful() && res == Offer(srv) && f.p * f.q == res.pq
    requires Padded(s, FieldsAt(0, InnerData(d, res, f, dc)), key, d) == Ok(wire)
    ensures |wire| == 256 && OpenedInner(s, srv, d.nonce, key, wire) == Ok(d.newNonce)
  {
    hide FieldsAt, RsaPad.FirstFit, RsaPad.Unpad, BigEndian, Heard, BeNat;
    var fs := InnerData(d, res, f, dc);
    var data := FieldsAt(0, fs);
    var padding := d.padding(RsaPad.PADDED - |data|);
    InnerDataFits(d, res, f, dc);
    RsaPad.UnpadFirstFit(s, data + padding, key, d.tempKeys, wire);
    HeardFields(fs, padding, INNER_SHAPE);
    BigEndianValue(res.pq);
    BigEndianValue(f.p);
    BigEndianValue(f.q);
  }

  /** The request names the key, and its factors multiply to the offered pq. */
  lemma ReqDHHeard(s: Suite, srv: Server, d: Draws, f: Factorize.Factors, key: RsaPad.RsaKey, wire: Bytes)
    requires f.p * f.q == Offer(srv).pq && key.fingerprint < TWO_64 && |wire| == 256
    requires Lookup(srv.keys, key.fingerprint) == Some(key)
    ensures
      HeardNewNonce(s, srv, d.nonce, Envelope(d.msgId2, FieldsAt(0, ReqDH(d, Offer(srv), f, key.fingerprint, wire))))
      == OpenedInner(s, srv, d.nonce, key, wire)
  {
    hide FieldsAt, BigEndian, Envelope, Unwrapped, Heard, Lookup, OpenedInner, BeNat;
    HeardMessage(d.msgId2, ReqDH(d, Offer(srv), f, key.fingerprint, wire), REQ_DH_SHAPE);
    BigEndianValue(f.p);
    BigEndianValue(f.q);
  }

  lemma RequestHeard(s: Suite, srv: Server, keys: seq<RsaPad.RsaKey>, primality: Primality, dc: int, d: Draws, packet: Bytes)
    requires Honest(s, srv, primality)
    requires Serves(srv, keys) && Second(s, keys, dc, d, Offer(srv)) == Ok(packet)
    ensures HeardNewNonce(s, srv, d.nonce, packet) == Ok(d.newNonce)
  {
    hide FieldsAt, Envelope, HeardNewNonce, OpenedInner, Selected, Lookup, Padded, InnerData, ReqDH, Factorize.Factored, Factorize.Attempts, Admissible, CheckedParams;
    var res := Offer(srv);
    var f := Factorize.Factored(res.pq, Factorize.Attempts(res.pq, d.words), 0).value;
    var key := Selected(keys, res.fingerprints).value;
    var wire := Padded(s, FieldsAt(0, InnerData(d, res, f, dc)), key, d).value;
    SelectedLookup(keys, res.fingerprints, key);
    Factorize.FactorizeSound(res.pq, d.words, f);
    InnerHeard(s, srv, d, res, f, dc, key, wire);
    ReqDHHeard(s, srv, d, f, key, wire);
  }

  /** The server decrypts the client's half of the exchange. */
  lemma HalfHeard(s: Suite, srv: Server, d: Draws, res: ResPQ, p: FitParams, packet: Bytes)
    requires s.Lawful() && res.serverNonce == srv.serverNonce
    requires Third(s, d, res, p) == Ok(packet)
    ensures HeardHalf(s, srv, d.nonce, d.newNonce, packet) == Ok(Exp(p.g, d.exponent, p.prime))
  {
    hide FieldsAt, Envelope, Unwrapped, Heard, TempKeys, SealedInner, Ige.Decrypted, BeNat, OpenedHalf, Exp, ClientInner, AllFit, AllAlike, AuthKey.Half;
    var (key, iv) := TempKeys(s, d.newNonce, res.serverNonce);
    var inner := ClientInner(d, res, AuthKey.Half(d, p));
    var data := FieldsAt(0, inner);
    ClientInnerSize(d, res, p);
    SealedOpens(s, data, key, iv, d.filler);
    var sealed := SealedInner(s, data, key, iv, d.filler).value;
    var tail :| Ige.Decrypted(s, sealed, key, iv) == Ok(s.sha1(data) + data + tail);
    SetClientShape(d, res, sealed);
    HeardMessage(d.msgId3, SetClientDH(d, res, sealed), SET_SHAPE);
    HalfOpened(s, srv, d, res, p, tail);
  }

  lemma SetClientShape(d: Draws, res: ResPQ, sealed: Bytes)
    requires |sealed| < 0x100_0000
    ensures
      var fs := SetClientDH(d, res, sealed);
      AllFit(fs) && AllAlike(fs, SET_SHAPE)
  {
    hide Fits;
    var fs := SetClientDH(d, res, sealed);
    FitsHere(fs[0]);
    FitsHere(fs[1]);
    FitsHere(fs[2]);
    FitsHere(fs[3]);
  }

  lemma ClientInnerSize(d: Draws, res: ResPQ, p: FitParams)
    ensures |FieldsAt(0, ClientInner(d, res, AuthKey.Half(d, p)))| <= 5000
  {
    hide FieldsAt, Sizes, AuthKey.Half;
    FieldsSize(0, ClientInner(d, res, AuthKey.Half(d, p)));
    SizesBound(ClientInner(d, res, AuthKey.Half(d, p)), 1000);
  }

  lemma ClientInnerShape(d: Draws, res: ResPQ, gB: Bytes)
    requires |gB| == AuthKey.KEY_BYTES
    ensures
      var inner := ClientInner(d, res, gB);
      AllFit(inner) && AllAlike(inner, CLIENT_SHAPE)
  {
    hide Fits;
    var inner := ClientInner(d, res, gB);
    FitsHere(inner[0]);
    FitsHere(inner[1]);
    FitsHere(inner[2]);
    FitsHere(inner[3]);
    FitsHere(inner[4]);
  }

  lemma HashedSlices(hash: Bytes, data: Bytes, tail: Bytes)
    requires |hash| == 20
    ensures
      var b := hash + data + tail;
      b[20..] == data + tail && b[..20] == hash && b[20..20 + |data|] == data
  {}

  lemma HalfOpened(s: Suite, srv: Server, d: Draws, res: ResPQ, p: FitParams, tail: Bytes)
    requires res.serverNonce == srv.serverNonce
    ensures
      var data := FieldsAt(0, ClientInner(d, res, AuthKey.Half(d, p)));
      OpenedHalf(s, srv, d.nonce, s.sha1(data) + data + tail) == Ok(Exp(p.g, d.exponent, p.prime))
  {
    hide FieldsAt, Heard, BeNat, Exp, AuthKey.Half, AllFit, AllAlike;
    var inner := ClientInner(d, res, AuthKey.Half(d, p));
    var data := FieldsAt(0, inner);
    HashedSlices(s.sha1(data), data, tail);
    ClientInnerShape(d, res, AuthKey.Half(d, p));
    HeardFields(inner, tail, CLIENT_SHAPE);
  }

  // ---- agreement

  lemma ServerInnerFits(s: Suite, srv: Server, primality: Primality, d: Draws)
    requires Honest(s, srv, primality)
    ensures AllFit(ServerInner(srv, d.nonce))
    ensures
      var answer := ServerAnswer(s, srv, d.nonce, d.newNonce);
      answer.Ok? && |answer.value| < 0x100_0000
  {
    hide FieldsAt, Sizes, SealedInner, Admissible, CheckedParams, OwnHalf, BeNat, TempKeys, AllFit, ServerInner;
    Admitted(s, DHParams(srv.g, srv.prime, OwnHalf(srv), srv.time), primality);
    InnerShort(srv, d.nonce);
    var (key, iv) := TempKeys(s, d.newNonce, srv.serverNonce);
    FieldsSize(0, ServerInner(srv, d.nonce));
    SizesBound(ServerInner(srv, d.nonce), 0x2000);
    SealedOpens(s, FieldsAt(0, ServerInner(srv, d.nonce)), key, iv, srv.filler);
  }

  lemma InnerShort(srv: Server, nonce: Int128)
    requires srv.g <= 7 && |srv.primeBytes| <= 0x1000 && |srv.gABytes| <= 0x1000 && srv.time < 0x1_0000_0000
    ensures AllFit(ServerInner(srv, nonce)) && |ServerInner(srv, nonce)| == 7
    ensures forall i :: 0 <= i < |ServerInner(srv, nonce)| ==> Size(ServerInner(srv, nonce)[i]) <= 0x2000
  {}

  lemma ResPQFits(srv: Server, nonce: Int128)
    requires |srv.fingerprints| <= 64 && AllLongs(srv.fingerprints)
    ensures AllFit(ResPQFields(srv, nonce)) && |ResPQFields(srv, nonce)| <= 100
  {}

  /** First round: the client learns the offer. */
  lemma FirstRound(s: Suite, srv: Server, primality: Primality, d: Draws)
    requires Honest(s, srv, primality)
    ensures Opening(d, packets => Answer(s, srv, packets)) == Ok(Offer(srv))
  {
    hide HeardNonce, HeardNewNonce, HeardHalf, ServerAnswer, FieldsAt, Envelope, Unwrapped, ParsedResPQ, First, Admissible, CheckedParams, AllFit, Longs;
    OpeningHeard(d);
    ResPQRead(srv, d.nonce);
    ResPQFits(srv, d.nonce);
    FieldsUnwrap(srv.msgId1, ResPQFields(srv, d.nonce));
  }

  /** What the client agrees to. */
  function Terms(srv: Server): FitParams { DHParams(srv.g, srv.prime, OwnHalf(srv), srv.time) }

  /** Second round: the client learns the server's half. */
  lemma SecondRound(s: Suite, srv: Server, keys: seq<RsaPad.RsaKey>, primality: Primality, dc: int, d: Draws, second: Bytes)
    requires Honest(s, srv, primality)
    requires Serves(srv, keys) && Second(s, keys, dc, d, Offer(srv)) == Ok(second)
    ensures
      var answer := Answer(s, srv, [First(d), second]);
      answer.Ok? && Agreed(s, primality, d, Offer(srv), answer.value) == Ok(Terms(srv))
  {
    hide HeardNonce, HeardNewNonce, FieldsAt, Envelope, Unwrapped, ParsedDHParams, First, Second, Admissible, CheckedParams, TempKeys, ServerAnswer, OwnHalf;
    OpeningHeard(d);
    RequestHeard(s, srv, keys, primality, dc, d, second);
    ServerInnerFits(s, srv, primality, d);
    Admitted(s, Terms(srv), primality);
    var answer := ServerAnswer(s, srv, d.nonce, d.newNonce).value;
    ParamsRead(s, srv, d.nonce, d.newNonce, answer);
    FieldsUnwrap(srv.msgId2, ParamsFields(srv, d.nonce, answer));
  }

  /** Both exponents applied in either order give the same padded key. */
  lemma SharedAgrees(srv: Server, d: Draws, p: FitParams)
    requires p.prime == srv.prime && p.g == srv.g && p.gA == OwnHalf(srv)
    ensures ServerShared(srv, Exp(p.g, d.exponent, p.prime)) == Shared(d, p)
  {
    hide Be;
    Agreement(srv.g, srv.a, d.exponent, srv.prime);
  }

  /** Third round: the server learns the client's half, and the client accepts the hash. */
  lemma ThirdRound(s: Suite, srv: Server, keys: seq<RsaPad.RsaKey>, primality: Primality, dc: int, d: Draws, second: Bytes, third: Bytes, p: FitParams)
    requires Honest(s, srv, primality)
    requires Serves(srv, keys) && Second(s, keys, dc, d, Offer(srv)) == Ok(second)
    requires p == Terms(srv) && Third(s, d, Offer(srv), p) == Ok(third)
    ensures
      var answer := Answer(s, srv, [First(d), second, third]);
      && answer.Ok?
      && Finished(s, d, Offer(srv), p, answer.value) == Ok(Keyed(s, d, srv.serverNonce, Shared(d, p), srv.time))
    ensures ServerHolds(s, srv, [First(d), second, third]) == Ok(HeldFrom(s, srv, d.newNonce, Shared(d, p)))
  {
    hide HeardNonce, HeardNewNonce, HeardHalf, FieldsAt, Envelope, Unwrapped, First, Second, Third, Admissible, CheckedParams, CheckedGen, Shared, ServerShared, Exp, NewNonceHash, Keyed, HeldFrom;
    OpeningHeard(d);
    RequestHeard(s, srv, keys, primality, dc, d, second);
    HalfHeard(s, srv, d, Offer(srv), p, third);
    SharedAgrees(srv, d, p);
    GenRead(s, srv, d.nonce, d.newNonce, Shared(d, p));
    FieldsUnwrap(srv.msgId3, GenFields(s, srv, d.nonce, d.newNonce, Shared(d, p)));
  }

  lemma ThirdOk(s: Suite, d: Draws, res: ResPQ, p: FitParams)
    requires s.Lawful()
    ensures Third(s, d, res, p).Ok?
  {
    hide FieldsAt, SealedInner, Envelope;
    var (key, iv) := TempKeys(s, d.newNonce, res.serverNonce);
    SealedOpens(s, FieldsAt(0, ClientInner(d, res, AuthKey.Half(d, p))), key, iv, d.filler);
  }

  /**
   * Against an honest server the exchange succeeds exactly when the client can produce
   * its second packet, that is when the factorisation, the choice of key and RSA_PAD
   * succeed; and then the server holds the same key, key id and salt.
   */
  lemma KeyAgreement(s: Suite, srv: Server, keys: seq<RsaPad.RsaKey>, primality: Primality, dc: int, d: Draws)
    requires Honest(s, srv, primality) && Serves(srv, keys)
    ensures
      var r := Created(s, keys, primality, dc, d, packets => Answer(s, srv, packets));
      var second := Second(s, keys, dc, d, Offer(srv));
      && (second.Err? ==> r == Err(second.error))
      && (second.Ok? ==>
            && r.Ok? && |r.value.key| == KEY_BYTES && r.value.timeOffset == srv.time - d.now
            && var third := Third(s, d, Offer(srv), Terms(srv));
            && third.Ok?
            && ServerHolds(s, srv, [First(d), second.value, third.value]) == Ok(Held(r.value.key, r.value.keyId, r.value.salt)))
  {
    hide Opening, Second, Third, Agreed, Finished, Answer, ServerHolds, First, Admissible, CheckedParams, Shared, Xor;
    FirstRound(s, srv, primality, d);
    var second := Second(s, keys, dc, d, Offer(srv));
    if second.Ok? {
      SecondRound(s, srv, keys, primality, dc, d, second.value);
      var answer := Answer(s, srv, [First(d), second.value]).value;
      var p := Terms(srv);
      ThirdOk(s, d, Offer(srv), p);
      var third := Third(s, d, Offer(srv), p).value;
      ThirdRound(s, srv, keys, primality, dc, d, second.value, third, p);
      var e := Keyed(s, d, srv.serverNonce, Shared(d, p), srv.time);
      assert Created(s, keys, primality, dc, d, packets => Answer(s, srv, packets)) == Ok(e);
      assert ServerHolds(s, srv, [First(d), second.value, third]) == Ok(Held(e.key, e.keyId, e.salt));
    }
  }

  /**
   * When there is a second packet: the number was factored, an offered key is known, and
   * one of the drawn temporary keys makes an envelope below that key's modulus. The
   * length guard plays no part.
   */
  lemma SecondExactly(s: Suite, keys: seq<RsaPad.RsaKey>, dc: int, d: Draws, res: ResPQ)
    ensures
      var factors := Factorize.Factored(res.pq, Factorize.Attempts(res.pq, d.words), 0);
      var key := Selected(keys, res.fingerprints);
      && (factors.Ok? <==> Factorize.Factorable(res.pq, Factorize.Attempts(res.pq, d.words)))
      && (factors.Ok? ==> |FieldsAt(0, InnerData(d, res, factors.value, dc))| <= 108)
      && (Second(s, keys, dc, d, res).Ok? <==>
            && Factorize.Factorable(res.pq, Factorize.Attempts(res.pq, d.words)) && key.Ok?
            && var data := FieldsAt(0, InnerData(d, res, factors.value, dc));
            && var padded := data + d.padding(RsaPad.PADDED - |data|);
            && exists i :: 0 <= i < |d.tempKeys| && BeNat(RsaPad.Envelope(s, padded, d.tempKeys[i])) < key.value.n)
  {
    hide FieldsAt, InnerData, ReqDH, Selected, RsaPad.FirstFit, RsaPad.Envelope, BeNat, Factorize.Factored, Factorize.Attempts,
      Factorize.Factorable;
    Factorize.FactoredExactly(res.pq, Factorize.Attempts(res.pq, d.words));
    var factors := Factorize.Factored(res.pq, Factorize.Attempts(res.pq, d.words), 0);
    var key := Selected(keys, res.fingerprints);
    if factors.Ok? {
      InnerDataFits(d, res, factors.value, dc);
      var data := FieldsAt(0, InnerData(d, res, factors.value, dc));
      if key.Ok? {
        RsaPad.FirstFitFails(s, data + d.padding(RsaPad.PADDED - |data|), key.value, d.tempKeys);
      }
    }
  }

  /** The exchange with an honest server succeeds exactly under that condition, known before it starts. */
  lemma AgreementExactly(s: Suite, srv: Server, keys: seq<RsaPad.RsaKey>, primality: Primality, dc: int, d: Draws)
    requires Honest(s, srv, primality) && Serves(srv, keys)
    ensures
      var res := Offer(srv);
      var factors := Factorize.Factored(res.pq, Factorize.Attempts(res.pq, d.words), 0);
      var key := Selected(keys, res.fingerprints);
      && (factors.Ok? <==> Factorize.Factorable(res.pq, Factorize.Attempts(res.pq, d.words)))
      && (factors.Ok? ==> |FieldsAt(0, InnerData(d, res, factors.value, dc))| <= 108)
      && (Created(s, keys, primality, dc, d, packets => Answer(s, srv, packets)).Ok? <==>
            && Factorize.Factorable(res.pq, Factorize.Attempts(res.pq, d.words)) && key.Ok?
            && var data := FieldsAt(0, InnerData(d, res, factors.value, dc));
            && var padded := data + d.padding(RsaPad.PADDED - |data|);
            && exists i :: 0 <= i < |d.tempKeys| && BeNat(RsaPad.Envelope(s, padded, d.tempKeys[i])) < key.value.n)
  {
    hide FieldsAt, Created, Honest, Serves, Answer, InnerData, Selected, Second, RsaPad.Envelope, BeNat, Factorize.Factored, Factorize.Attempts,
      Factorize.Factorable;
    KeyAgreement(s, srv, keys, primality, dc, d);
    SecondExactly(s, keys, dc, d, Offer(srv));
  }

  /** Everything the client puts into its second packet's inner data, as the key holder reads it. */
  lemma InnerDataHeard(d: Draws, res: ResPQ, f: Factorize.Factors, dc: int, padding: Bytes)
    ensures
      Heard(FieldsAt(0, InnerData(d, res, f, dc)) + padding, INNER_SHAPE) ==
      Ok([FU32(0xA9F55F95), FStr(BigEndian(res.pq)), FStr(BigEndian(f.p)), FStr(BigEndian(f.q)),
          FRaw(d.nonce), FRaw(res.serverNonce), FRaw(d.newNonce), FU32(dc % 0x1_0000_0000)])
    ensures BeNat(BigEndian(res.pq)) == res.pq && BeNat(BigEndian(f.p)) == f.p && BeNat(BigEndian(f.q)) == f.q
  {
    hide FieldsAt, BigEndian, Heard, BeNat;
    HeardFields(InnerData(d, res, f, dc), padding, INNER_SHAPE);
    BigEndianValue(res.pq);
    BigEndianValue(f.p);
    BigEndianValue(f.q);
  }
}

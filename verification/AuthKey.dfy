/** internal/mtproto/auth.go: the client's side of the auth-key exchange. */
module AuthKey {
  import opened Bytes
  import opened Crypto
  import opened Wrappers
  import opened Tl
  import opened Words
  import opened ModExp
  import opened Plaintext
  import Factorize
  import Ige
  import RsaPad

  const REQ_PQ := 0xBE7E8EF1
  const RES_PQ := 0x05162463
  const PQ_INNER := 0xA9F55F95
  const REQ_DH := 0xD712E4BE
  const DH_PARAMS_OK := 0xD0E8075C
  const SERVER_INNER := 0xB5890DBA
  const CLIENT_INNER := 0x6643B654
  const SET_CLIENT_DH := 0xF5045F1F
  const DH_GEN_OK := 0x3BCBF734
  const KEY_BYTES := 256

  type Int128 = b: Bytes | |b| == 16 witness seq(16, _ => 0)
  type Int256 = b: Bytes | |b| == 32 witness seq(32, _ => 0)

  /** A source of any number of random bytes. */
  type Source = f: nat -> Bytes | forall n: nat :: |f(n)| == n witness (n: nat) => Zeros(n)

  // ---- big-endian numbers

  /** The shortest big-endian form, at least one byte. */
  function BigEndian(v: u64): (b: Bytes)
    ensures 1 <= |b| <= 8
  {
    Strip(Be(v, 8))
  }

  function Strip(b: Bytes): (r: Bytes)
    requires |b| >= 1
    ensures 1 <= |r| <= |b|
  {
    if |b| > 1 && b[0] == 0 then Strip(b[1..]) else b
  }

  /** Lines 315-321. */
  method BigEndianBytes(v: u64) returns (full: Bytes)
    ensures full == BigEndian(v)
  {
    full := Be(v, 8);
    while |full| > 1 && full[0] == 0
      invariant |full| >= 1 && Strip(full) == BigEndian(v)
      decreases |full|
    {
      full := full[1..];
    }
  }

  lemma {:induction false} StripValue(b: Bytes)
    requires |b| >= 1
    ensures BeNat(Strip(b)) == BeNat(b)
    decreases |b|
  {
    if |b| > 1 && b[0] == 0 {
      LeadingZero(b);
      StripValue(b[1..]);
    }
  }

  lemma {:induction false} LeadingZero(b: Bytes)
    requires |b| >= 1 && b[0] == 0
    ensures BeNat(b) == BeNat(b[1..])
    decreases |b|
  {
    if |b| > 1 {
      var front := b[..|b| - 1];
      LeadingZero(front);
      assert front[1..] == b[1..][..|b| - 2];
    }
  }

  /** No value is lost, and no other byte string of the value is shorter. */
  lemma BigEndianValue(v: u64)
    ensures BeNat(BigEndian(v)) == v
    ensures |BigEndian(v)| > 1 ==> BigEndian(v)[0] != 0
  {
    Widths();
    BeRoundTrip(v, 8);
    StripValue(Be(v, 8));
    StripLeads(Be(v, 8));
  }

  lemma {:induction false} StripLeads(b: Bytes)
    requires |b| >= 1
    ensures |Strip(b)| > 1 ==> Strip(b)[0] != 0
    decreases |b|
  {
    if |b| > 1 && b[0] == 0 { StripLeads(b[1..]); }
  }

  // ---- the parsers

  datatype ResPQ = ResPQ(pq: u64, serverNonce: Int128, fingerprints: seq<nat>)

  /** Lines 162-178. */
  function ParsedResPQ(payload: Bytes, nonce: Int128): Result<ResPQ> {
    var c := TakeExpected(Start(payload), RES_PQ);
    var (c1, echoed) := Take(c, 16);
    if echoed != nonce && c1.err.None? then Err(NonceMismatch)
    else
      var (c2, serverNonce) := Take(c1, 16);
      var (c3, pqBytes) := TakeString(c2);
      var (c4, fingerprints) := TakeVector(c3);
      if c4.err.Some? then Err(c4.err.value)
      else if |pqBytes| == 0 || |pqBytes| > 8 then Err(ImplausiblePQ)
      else
        ShortValue(pqBytes);
        Ok(ResPQ(BeNat(pqBytes), serverNonce, fingerprints))
  }

  lemma ShortValue(b: Bytes)
    requires |b| <= 8
    ensures BeNat(b) < TWO_64
  {
    BeNatRoundTrip(b);
    PowGrows(|b|, 8);
    Widths();
  }

  lemma {:induction false} PowGrows(m: nat, n: nat)
    requires m <= n
    ensures Pow256(m) <= Pow256(n)
    decreases n - m
  {
    if m < n { PowGrows(m + 1, n); }
  }

  method ParseResPQ(payload: Bytes, nonce: Int128) returns (r: Result<ResPQ>)
    ensures r == ParsedResPQ(payload, nonce)
  {
    hide TakeVector, TakeString, TakeExpected;
    var c := new Cursor(payload);
    c.Expect(RES_PQ);
    var echoed := c.Next(16);
    if echoed != nonce && c.err.None? {
      return Err(NonceMismatch);
    }
    var serverNonce := c.Next(16);
    var pqBytes := c.Str();
    var fingerprints := c.VectorLong();
    if c.err.Some? {
      return Err(c.err.value);
    }
    if |pqBytes| == 0 || |pqBytes| > 8 {
      return Err(ImplausiblePQ);
    }
    ShortValue(pqBytes);
    return Ok(ResPQ(BeNat(pqBytes), serverNonce, fingerprints));
  }

  /** Lines 180-189. */
  function TempKeys(s: Suite, newNonce: Int256, serverNonce: Int128): (r: (Bytes, Bytes))
    ensures |r.0| == 32 && |r.1| == 32
  {
    var newServer := s.sha1(newNonce + serverNonce);
    var serverNew := s.sha1(serverNonce + newNonce);
    var newNew := s.sha1(newNonce + newNonce);
    (newServer + serverNew[..12], serverNew[12..20] + newNew + newNonce[..4])
  }

  datatype DHParams = DHParams(g: nat, prime: nat, gA: nat, time: nat)

  /** Lines 191-234. */
  function ParsedDHParams(s: Suite, payload: Bytes, nonce: Int128, serverNonce: Int128, key: Bytes, iv: Bytes): Result<DHParams> {
    var c := TakeExpected(Start(payload), DH_PARAMS_OK);
    var (c1, echoed) := Take(c, 16);
    if echoed != nonce && c1.err.None? then Err(NonceMismatch)
    else
      var (c2, echoedServer) := Take(c1, 16);
      if echoedServer != serverNonce && c2.err.None? then Err(ServerNonceMismatch)
      else
        var (c3, answer) := TakeString(c2);
        if c3.err.Some? then Err(c3.err.value)
        else
          var decrypted :- Ige.Decrypted(s, answer, key, iv);
          if |decrypted| < 20 then Err(TooShort) else ParsedInner(s, decrypted, nonce, serverNonce)
  }

  function ParsedInner(s: Suite, decrypted: Bytes, nonce: Int128, serverNonce: Int128): Result<DHParams>
    requires |decrypted| >= 20
  {
    var c := TakeExpected(Start(decrypted[20..]), SERVER_INNER);
    var (c1, echoed) := Take(c, 16);
    if echoed != nonce && c1.err.None? then Err(NonceMismatch)
    else
      var (c2, echoedServer) := Take(c1, 16);
      if echoedServer != serverNonce && c2.err.None? then Err(ServerNonceMismatch)
      else
        var (c3, g) := TakeNat(c2, 4);
        var (c4, prime) := TakeString(c3);
        var (c5, gA) := TakeString(c4);
        var (c6, time) := TakeNat(c5, 4);
        if c6.err.Some? then Err(c6.err.value)
        else if s.sha1(decrypted[20..20 + c6.i]) != decrypted[..20] then Err(HashMismatch)
        else Ok(DHParams(g, BeNat(prime), BeNat(gA), time))
  }

  method ParseServerDHParams(s: Suite, payload: Bytes, nonce: Int128, serverNonce: Int128, key: Bytes, iv: Bytes)
    returns (r: Result<DHParams>)
    ensures r == ParsedDHParams(s, payload, nonce, serverNonce, key, iv)
  {
    hide TakeString, TakeExpected, ParsedInner, Ige.Decrypted;
    var c := new Cursor(payload);
    c.Expect(DH_PARAMS_OK);
    var echoed := c.Next(16);
    if echoed != nonce && c.err.None? {
      return Err(NonceMismatch);
    }
    var echoedServer := c.Next(16);
    if echoedServer != serverNonce && c.err.None? {
      return Err(ServerNonceMismatch);
    }
    var answer := c.Str();
    if c.err.Some? {
      return Err(c.err.value);
    }
    var decrypted := Ige.IgeDecrypt(s, answer, key, iv);
    if decrypted.Err? {
      return Err(decrypted.error);
    }
    if |decrypted.value| < 20 {
      return Err(TooShort);
    }
    r := ParseInner(s, decrypted.value, nonce, serverNonce);
  }

  /** Lines 213-233. */
  method ParseInner(s: Suite, decrypted: Bytes, nonce: Int128, serverNonce: Int128) returns (r: Result<DHParams>)
    requires |decrypted| >= 20
    ensures r == ParsedInner(s, decrypted, nonce, serverNonce)
  {
    hide TakeString, TakeExpected, TakeNat;
    var inner := new Cursor(decrypted[20..]);
    inner.Expect(SERVER_INNER);
    var echoed := inner.Next(16);
    if echoed != nonce && inner.err.None? {
      return Err(NonceMismatch);
    }
    var echoedServer := inner.Next(16);
    if echoedServer != serverNonce && inner.err.None? {
      return Err(ServerNonceMismatch);
    }
    var g := inner.U32();
    var prime := inner.Str();
    var gA := inner.Str();
    var time := inner.U32();
    if inner.err.Some? {
      return Err(inner.err.value);
    }
    var consumed := decrypted[20..20 + inner.i];
    if s.sha1(consumed) != decrypted[..20] {
      return Err(HashMismatch);
    }
    return Ok(DHParams(g, BeNat(prime), BeNat(gA), time));
  }

  /** Parameters whose prime fills at most the key's bytes, so that no padding can overflow. */
  type FitParams = p: DHParams | 0 < p.prime < Pow256(KEY_BYTES) ghost witness FitWitness()

  ghost function FitWitness(): (p: DHParams)
    ensures 0 < p.prime < Pow256(KEY_BYTES)
  {
    PowGrows(1, KEY_BYTES);
    DHParams(0, 1, 0, 0)
  }

  /** Lines 236-247: hash, data, and filler up to whole blocks. */
  function SealedInner(s: Suite, data: Bytes, key: Bytes, iv: Bytes, filler: Source): Result<Bytes> {
    var payload := s.sha1(data) + data;
    Ige.Encrypted(s, payload + filler((16 - |payload| % 16) % 16), key, iv)
  }

  /** Lines 249-269. */
  function CheckedGen(s: Suite, payload: Bytes, nonce: Int128, serverNonce: Int128, newNonce: Int256, shared: Bytes): Option<Error> {
    var c := TakeExpected(Start(payload), DH_GEN_OK);
    var (c1, echoed) := Take(c, 16);
    if echoed != nonce && c1.err.None? then Some(NonceMismatch)
    else
      var (c2, echoedServer) := Take(c1, 16);
      if echoedServer != serverNonce && c2.err.None? then Some(ServerNonceMismatch)
      else
        var (c3, got) := Take(c2, 16);
        if c3.err.Some? then c3.err
        else if got != NewNonceHash(s, newNonce, shared) then Some(DigestMismatch)
        else None
  }

  function NewNonceHash(s: Suite, newNonce: Int256, shared: Bytes): Int128 {
    s.sha1(newNonce + [1] + s.sha1(shared)[..8])[4..20]
  }

  /** How the client judges primes: the probabilistic test and the cache of earlier verdicts. */
  datatype Primality = Primality(probablyPrime: nat -> bool, cached: set<Digest32>)

  /** Lines 273-300. A number has 2048 bits when it needs all 256 bytes and their top bit. */
  function CheckedParams(s: Suite, p: DHParams, primality: Primality): Option<Error> {
    if p.g < 2 || p.g > 7 then Some(BadGenerator)
    else if !(Pow256(KEY_BYTES) <= 2 * p.prime && p.prime < Pow256(KEY_BYTES)) then Some(BadPrimeSize)
    else if p.gA <= 1 || p.gA >= p.prime - 1 then Some(BadGA)
    else if s.sha256(Be(p.prime, KEY_BYTES)) in primality.cached then None
    else if !primality.probablyPrime(p.prime) then Some(NotPrime)
    else if !primality.probablyPrime((p.prime - 1) / 2) then Some(NotSafePrime)
    else None
  }

  /** What the client demands of the parameters, in order; a number of 2048 bits lies between powers of two. */
  ghost predicate GoodGenerator(p: DHParams) { 2 <= p.g <= 7 }

  ghost predicate GoodSize(p: DHParams) { Pow2(2047) <= p.prime < Pow2(2048) }

  ghost predicate GoodHalf(p: DHParams) { 1 < p.gA < p.prime - 1 }

  ghost predicate SeenBefore(s: Suite, p: DHParams, primality: Primality) {
    s.sha256(Be(p.prime, KEY_BYTES)) in primality.cached
  }

  ghost predicate Admissible(s: Suite, p: DHParams, primality: Primality) {
    && GoodGenerator(p) && GoodSize(p) && GoodHalf(p)
    && (SeenBefore(s, p, primality) || (primality.probablyPrime(p.prime) && primality.probablyPrime((p.prime - 1) / 2)))
  }

  lemma TopBit(prime: nat)
    ensures Pow2(2047) <= prime < Pow2(2048) <==> Pow256(KEY_BYTES) <= 2 * prime && prime < Pow256(KEY_BYTES)
  {
    hide Pow256;
    Pow256Bits(KEY_BYTES);
    Doubles(2047);
  }

  lemma Doubles(n: nat)
    ensures Pow2(n + 1) == 2 * Pow2(n)
  {}

  /** The check refuses exactly the inadmissible parameters, and each error says which demand failed first. */
  lemma CheckedExactly(s: Suite, p: DHParams, primality: Primality)
    ensures
      var refused := CheckedParams(s, p, primality);
      && (refused.None? <==> Admissible(s, p, primality))
      && (refused == Some(BadGenerator) <==> !GoodGenerator(p))
      && (refused == Some(BadPrimeSize) <==> GoodGenerator(p) && !GoodSize(p))
      && (refused == Some(BadGA) <==> GoodGenerator(p) && GoodSize(p) && !GoodHalf(p))
      && (refused == Some(NotPrime) <==>
            && GoodGenerator(p) && GoodSize(p) && GoodHalf(p) && !SeenBefore(s, p, primality)
            && !primality.probablyPrime(p.prime))
      && (refused == Some(NotSafePrime) <==>
            && GoodGenerator(p) && GoodSize(p) && GoodHalf(p) && !SeenBefore(s, p, primality)
            && primality.probablyPrime(p.prime) && !primality.probablyPrime((p.prime - 1) / 2))
  {
    hide Pow256, Pow2, Be;
    TopBit(p.prime);
  }

  lemma Admitted(s: Suite, p: DHParams, primality: Primality)
    requires Admissible(s, p, primality)
    ensures CheckedParams(s, p, primality).None? && 2 <= p.g <= 7
  {
    hide CheckedParams, GoodSize, SeenBefore;
    CheckedExactly(s, p, primality);
  }

  /** Filling a fixed buffer panics when the value does not fit. */
  function PadTo(v: nat, size: nat): (b: Bytes)
    requires v < Pow256(size)
    ensures |b| == size && BeNat(b) == v
  {
    BeRoundTrip(v, size);
    Be(v, size)
  }

  // ---- the exchange

  /** Everything random or clock-given that one exchange draws. */
  datatype Draws = Draws(
    nonce: Int128, newNonce: Int256, words: seq<(u64, u64)>, padding: Source, tempKeys: seq<RsaPad.Key32>,
    exponent: nat, filler: Source, msgId1: nat, msgId2: nat, msgId3: nat, now: int)
  {
    predicate Valid() { |words| == 8 && |tempKeys| == 64 }
  }

  datatype Established = Established(key: Bytes, keyId: Bytes, salt: Bytes, timeOffset: int)

  /** The peer: what it answers to the packets sent so far, or how reading fails. */
  type Peer = seq<Bytes> -> Result<Bytes>

  function Lookup(keys: seq<RsaPad.RsaKey>, fingerprint: nat): Option<RsaPad.RsaKey> {
    if keys == [] then None
    else if keys[0].fingerprint == fingerprint then Some(keys[0])
    else Lookup(keys[1..], fingerprint)
  }

  /** internal/mtproto/rsa.go, lines 78-91: the first offered fingerprint that is known. */
  function Selected(keys: seq<RsaPad.RsaKey>, fingerprints: seq<nat>): Result<RsaPad.RsaKey> {
    if fingerprints == [] then Err(UnknownKey)
    else
      match Lookup(keys, fingerprints[0])
      case Some(key) => Ok(key)
      case None => Selected(keys, fingerprints[1..])
  }

  function ReqPQ(nonce: Int128): seq<Field> { [FU32(REQ_PQ), FRaw(nonce)] }

  function InnerData(d: Draws, res: ResPQ, f: Factorize.Factors, dc: int): seq<Field> {
    [FU32(PQ_INNER), FStr(BigEndian(res.pq)), FStr(BigEndian(f.p)), FStr(BigEndian(f.q)),
     FRaw(d.nonce), FRaw(res.serverNonce), FRaw(d.newNonce), FU32(dc % 0x1_0000_0000)]
  }

  function ReqDH(d: Draws, res: ResPQ, f: Factorize.Factors, fingerprint: nat, encrypted: Bytes): seq<Field> {
    [FU32(REQ_DH), FRaw(d.nonce), FRaw(res.serverNonce), FStr(BigEndian(f.p)), FStr(BigEndian(f.q)),
     FU64(fingerprint), FStr(encrypted)]
  }

  function ClientInner(d: Draws, res: ResPQ, gB: Bytes): seq<Field> {
    [FU32(CLIENT_INNER), FRaw(d.nonce), FRaw(res.serverNonce), FU64(0), FStr(gB)]
  }

  function SetClientDH(d: Draws, res: ResPQ, encrypted: Bytes): seq<Field> {
    [FU32(SET_CLIENT_DH), FRaw(d.nonce), FRaw(res.serverNonce), FStr(encrypted)]
  }

  function Padded(s: Suite, data: Bytes, key: RsaPad.RsaKey, d: Draws): Result<Bytes> {
    if |data| > RsaPad.LIMIT then Err(PayloadTooLong)
    else RsaPad.FirstFit(s, data + d.padding(RsaPad.PADDED - |data|), key, d.tempKeys)
  }

  /** Lines 38-72: up to the first reply. */
  function Opening(d: Draws, peer: Peer): Result<ResPQ> {
    var packet :- peer([First(d)]);
    var reply :- Unwrapped(packet);
    ParsedResPQ(reply, d.nonce)
  }

  function First(d: Draws): Bytes { Envelope(d.msgId1, FieldsAt(0, ReqPQ(d.nonce))) }

  /** Lines 56-92: the second packet, from the factorisation to the envelope. */
  ghost function Second(s: Suite, keys: seq<RsaPad.RsaKey>, dc: int, d: Draws, res: ResPQ): Result<Bytes> {
    var f :- Factorize.Factored(res.pq, Factorize.Attempts(res.pq, d.words), 0);
    var key :- Selected(keys, res.fingerprints);
    var encrypted :- Padded(s, FieldsAt(0, InnerData(d, res, f, dc)), key, d);
    Ok(Envelope(d.msgId2, FieldsAt(0, ReqDH(d, res, f, key.fingerprint, encrypted))))
  }

  /** Lines 96-107: the second reply, decrypted and checked. */
  function Agreed(s: Suite, primality: Primality, d: Draws, res: ResPQ, packet: Bytes): Result<FitParams> {
    var reply :- Unwrapped(packet);
    var (key, iv) := TempKeys(s, d.newNonce, res.serverNonce);
    var params :- ParsedDHParams(s, reply, d.nonce, res.serverNonce, key, iv);
    match CheckedParams(s, params, primality)
    case Some(e) => Err(e)
    case None =>
      ParamsFit(s, params, primality);
      Ok(params)
  }

  /** Line 113. */
  function Half(d: Draws, p: FitParams): (gB: Bytes)
    ensures |gB| == KEY_BYTES && BeNat(gB) == Exp(p.g, d.exponent, p.prime)
  {
    PadTo(Exp(p.g, d.exponent, p.prime), KEY_BYTES)
  }

  /** Lines 109-132: the third packet. */
  function Third(s: Suite, d: Draws, res: ResPQ, p: FitParams): Result<Bytes> {
    var (key, iv) := TempKeys(s, d.newNonce, res.serverNonce);
    var encrypted :- SealedInner(s, FieldsAt(0, ClientInner(d, res, Half(d, p))), key, iv, d.filler);
    Ok(Envelope(d.msgId3, FieldsAt(0, SetClientDH(d, res, encrypted))))
  }

  /** Line 141. */
  function Shared(d: Draws, p: FitParams): (shared: Bytes)
    ensures |shared| == KEY_BYTES
  {
    PadTo(Exp(p.gA, d.exponent, p.prime), KEY_BYTES)
  }

  /** Lines 146-152. */
  function Keyed(s: Suite, d: Draws, serverNonce: Int128, shared: Bytes, time: nat): Established {
    Established(shared, s.sha1(shared)[12..20], Xor(d.newNonce[..8], serverNonce[..8]), time - d.now)
  }

  /** Lines 136-152. */
  function Finished(s: Suite, d: Draws, res: ResPQ, p: FitParams, packet: Bytes): Result<Established> {
    var reply :- Unwrapped(packet);
    match CheckedGen(s, reply, d.nonce, res.serverNonce, d.newNonce, Shared(d, p))
    case Some(e) => Err(e)
    case None => Ok(Keyed(s, d, res.serverNonce, Shared(d, p), p.time))
  }

  lemma ParamsFit(s: Suite, p: DHParams, primality: Primality)
    requires CheckedParams(s, p, primality).None?
    ensures 0 < p.prime < Pow256(KEY_BYTES)
  {}

  /** The whole exchange, against any peer. */
  ghost function Created(s: Suite, keys: seq<RsaPad.RsaKey>, primality: Primality, dc: int, d: Draws, peer: Peer): Result<Established> {
    var res :- Opening(d, peer);
    var second :- Second(s, keys, dc, d, res);
    var packet2 :- peer([First(d), second]);
    var params :- Agreed(s, primality, d, res, packet2);
    var third :- Third(s, d, res, params);
    var packet3 :- peer([First(d), second, third]);
    Finished(s, d, res, params, packet3)
  }

  // ---- the same exchange, as it is carried out

  /** internal/mtproto/rsa.go, lines 78-91. */
  method SelectKey(keys: seq<RsaPad.RsaKey>, fingerprints: seq<nat>) returns (r: Result<RsaPad.RsaKey>)
    ensures r == Selected(keys, fingerprints)
  {
    var i := 0;
    assert fingerprints[0..] == fingerprints;
    while i < |fingerprints|
      invariant 0 <= i <= |fingerprints| && Selected(keys, fingerprints) == Selected(keys, fingerprints[i..])
    {
      assert fingerprints[i..][0] == fingerprints[i] && fingerprints[i..][1..] == fingerprints[i + 1..];
      var k := 0;
      assert keys[0..] == keys;
      while k < |keys|
        invariant 0 <= k <= |keys| && Lookup(keys, fingerprints[i]) == Lookup(keys[k..], fingerprints[i])
      {
        assert keys[k..][0] == keys[k] && keys[k..][1..] == keys[k + 1..];
        if keys[k].fingerprint == fingerprints[i] {
          return Ok(keys[k]);
        }
        k := k + 1;
      }
      assert keys[k..] == [];
      i := i + 1;
    }
    assert fingerprints[i..] == [];
    return Err(UnknownKey);
  }

  method WriteInnerData(d: Draws, res: ResPQ, f: Factorize.Factors, dc: int) returns (b: Bytes)
    ensures b == FieldsAt(0, InnerData(d, res, f, dc))
  {
    hide FieldsAt;
    var pq := BigEndianBytes(res.pq);
    var p := BigEndianBytes(f.p);
    var q := BigEndianBytes(f.q);
    var inner := new Buf();
    inner.U32(PQ_INNER);
    inner.Str(pq);
    inner.Str(p);
    inner.Str(q);
    inner.Raw(d.nonce);
    inner.Raw(res.serverNonce);
    inner.Raw(d.newNonce);
    inner.U32(dc % 0x1_0000_0000);
    assert inner.fields == InnerData(d, res, f, dc);
    b := inner.b;
  }

  method WriteReqDH(d: Draws, res: ResPQ, f: Factorize.Factors, fingerprint: nat, encrypted: Bytes) returns (b: Bytes)
    ensures b == FieldsAt(0, ReqDH(d, res, f, fingerprint, encrypted))
  {
    hide FieldsAt;
    var p := BigEndianBytes(f.p);
    var q := BigEndianBytes(f.q);
    var req := new Buf();
    req.U32(REQ_DH);
    req.Raw(d.nonce);
    req.Raw(res.serverNonce);
    req.Str(p);
    req.Str(q);
    req.U64(fingerprint);
    req.Str(encrypted);
    assert req.fields == ReqDH(d, res, f, fingerprint, encrypted);
    b := req.b;
  }

  method WriteClientInner(d: Draws, res: ResPQ, gB: Bytes) returns (b: Bytes)
    ensures b == FieldsAt(0, ClientInner(d, res, gB))
  {
    hide FieldsAt;
    var inner := new Buf();
    inner.U32(CLIENT_INNER);
    inner.Raw(d.nonce);
    inner.Raw(res.serverNonce);
    inner.U64(0);
    inner.Str(gB);
    assert inner.fields == ClientInner(d, res, gB);
    b := inner.b;
  }

  method WriteSetClientDH(d: Draws, res: ResPQ, encrypted: Bytes) returns (b: Bytes)
    ensures b == FieldsAt(0, SetClientDH(d, res, encrypted))
  {
    hide FieldsAt;
    var request := new Buf();
    request.U32(SET_CLIENT_DH);
    request.Raw(d.nonce);
    request.Raw(res.serverNonce);
    request.Str(encrypted);
    assert request.fields == SetClientDH(d, res, encrypted);
    b := request.b;
  }

  /** Lines 69-92. */
  method SecondPacket(s: Suite, keys: seq<RsaPad.RsaKey>, dc: int, d: Draws, res: ResPQ) returns (r: Result<Bytes>)
    requires d.Valid()
    ensures r == Second(s, keys, dc, d, res)
  {
    hide FieldsAt, Factorize.Factored, Factorize.Attempts, Selected, RsaPad.FirstFit, Envelope, InnerData, ReqDH;
    var f := Factorize.FactorizePQ(res.pq, d.words);
    if f.Err? {
      return Err(f.error);
    }
    var key := SelectKey(keys, res.fingerprints);
    if key.Err? {
      return Err(key.error);
    }
    var inner := WriteInnerData(d, res, f.value, dc);
    var padding := if |inner| <= RsaPad.LIMIT then d.padding(RsaPad.PADDED - |inner|) else [];
    var encrypted := RsaPad.RsaPad(s, inner, key.value, padding, d.tempKeys);
    if encrypted.Err? {
      return Err(encrypted.error);
    }
    var req := WriteReqDH(d, res, f.value, key.value.fingerprint, encrypted.value);
    var message := SendUnencrypted(d.msgId2, req);
    return Ok(message);
  }

  /** Lines 236-247. */
  method EncryptDHInner(s: Suite, data: Bytes, key: Bytes, iv: Bytes, filler: Source) returns (r: Result<Bytes>)
    ensures r == SealedInner(s, data, key, iv, filler)
  {
    hide Ige.Encrypted;
    var payload := s.sha1(data) + data;
    var pad := (16 - |payload| % 16) % 16;
    r := Ige.IgeEncrypt(s, payload + filler(pad), key, iv);
  }

  /** Lines 113-132. */
  method ThirdPacket(s: Suite, d: Draws, res: ResPQ, p: FitParams, key: Bytes, iv: Bytes) returns (r: Result<Bytes>)
    requires (key, iv) == TempKeys(s, d.newNonce, res.serverNonce)
    ensures r == Third(s, d, res, p)
  {
    hide FieldsAt, TempKeys, Half, SealedInner, Envelope, ClientInner, SetClientDH;
    var inner := WriteClientInner(d, res, Half(d, p));
    var encrypted := EncryptDHInner(s, inner, key, iv, d.filler);
    if encrypted.Err? {
      return Err(encrypted.error);
    }
    var request := WriteSetClientDH(d, res, encrypted.value);
    var message := SendUnencrypted(d.msgId3, request);
    return Ok(message);
  }

  /** Lines 38-153. */
  method CreateAuthKey(s: Suite, keys: seq<RsaPad.RsaKey>, primality: Primality, dc: int, d: Draws, peer: Peer)
    returns (r: Result<Established>)
    requires d.Valid()
    ensures r == Created(s, keys, primality, dc, d, peer)
  {
    hide FieldsAt, Second, Third, TempKeys, ParsedResPQ, ParsedDHParams, CheckedParams, CheckedGen, Shared, Unwrapped, Envelope;
    var first := SendUnencrypted(d.msgId1, FieldsAt(0, ReqPQ(d.nonce)));
    var packet := peer([first]);
    if packet.Err? { return Err(packet.error); }
    var reply := Unwrapped(packet.value);
    if reply.Err? { return Err(reply.error); }
    var res := ParseResPQ(reply.value, d.nonce);
    if res.Err? { return Err(res.error); }

    var second := SecondPacket(s, keys, dc, d, res.value);
    if second.Err? { return Err(second.error); }
    packet := peer([first, second.value]);
    if packet.Err? { return Err(packet.error); }
    reply := Unwrapped(packet.value);
    if reply.Err? { return Err(reply.error); }
    var (key, iv) := TempKeys(s, d.newNonce, res.value.serverNonce);
    var params := ParseServerDHParams(s, reply.value, d.nonce, res.value.serverNonce, key, iv);
    if params.Err? { return Err(params.error); }
    var refused := CheckedParams(s, params.value, primality);
    if refused.Some? { return Err(refused.value); }
    ParamsFit(s, params.value, primality);

    var third := ThirdPacket(s, d, res.value, params.value, key, iv);
    if third.Err? { return Err(third.error); }
    packet := peer([first, second.value, third.value]);
    if packet.Err? { return Err(packet.error); }
    reply := Unwrapped(packet.value);
    if reply.Err? { return Err(reply.error); }
    var shared := Shared(d, params.value);
    var wrong := CheckedGen(s, reply.value, d.nonce, res.value.serverNonce, d.newNonce, shared);
    if wrong.Some? { return Err(wrong.value); }
    return Ok(Keyed(s, d, res.value.serverNonce, shared, params.value.time));
  }

  // ---- the guards that never trip

  /** An upper bound for the size of a field, wherever it is written. */
  function Size(f: Field): nat {
    match f
    case FU32(_) => 4
    case FU64(_) => 8
    case FRaw(p) => |p|
    case FStr(p) => |p| + (if |p| <= 253 then 1 else 4) + 3
  }

  function Sizes(fs: seq<Field>): nat { if fs == [] then 0 else Size(fs[0]) + Sizes(fs[1..]) }

  lemma {:induction false} FieldsSize(at: nat, fs: seq<Field>)
    ensures |FieldsAt(at, fs)| <= Sizes(fs)
    decreases |fs|
  {
    hide Padding;
    if fs != [] {
      FieldsSize(at + |FieldAt(at, fs[0])|, fs[1..]);
    }
  }

  lemma SizesCons(f: Field, rest: seq<Field>)
    ensures Sizes([f] + rest) == Size(f) + Sizes(rest)
  {
    assert ([f] + rest)[1..] == rest;
  }

  lemma {:induction false} SizesBound(fs: seq<Field>, m: nat)
    requires forall i :: 0 <= i < |fs| ==> Size(fs[i]) <= m
    ensures Sizes(fs) <= |fs| * m
    decreases |fs|
  {
    hide Size;
    if fs != [] {
      SizesBound(fs[1..], m);
      assert |fs| * m == (|fs| - 1) * m + m;
    }
  }

  /** The inner data is at most 108 bytes, so the 144-byte limit refuses none of it. */
  lemma InnerDataFits(d: Draws, res: ResPQ, f: Factorize.Factors, dc: int)
    ensures |FieldsAt(0, InnerData(d, res, f, dc))| <= 108
  {
    hide BigEndian, FieldsAt, Sizes;
    var fs := InnerData(d, res, f, dc);
    FieldsSize(0, fs);
    var f4 := fs[4..];
    assert f4 == [fs[4]] + ([fs[5]] + ([fs[6]] + ([fs[7]] + [])));
    SizesCons(fs[4], [fs[5]] + ([fs[6]] + ([fs[7]] + [])));
    SizesCons(fs[5], [fs[6]] + ([fs[7]] + []));
    SizesCons(fs[6], [fs[7]] + []);
    SizesCons(fs[7], []);
    assert fs == [fs[0]] + ([fs[1]] + ([fs[2]] + ([fs[3]] + f4)));
    SizesCons(fs[0], [fs[1]] + ([fs[2]] + ([fs[3]] + f4)));
    SizesCons(fs[1], [fs[2]] + ([fs[3]] + f4));
    SizesCons(fs[2], [fs[3]] + f4);
    SizesCons(fs[3], f4);
    SizesNil();
  }

  lemma SizesNil()
    ensures Sizes([]) == 0
  {}

  // ---- layouts, and what is accepted at all

  /** Which bytes of which digests make the temporary key and IV. */
  lemma TempKeysLayout(s: Suite, newNonce: Int256, serverNonce: Int128)
    ensures
      var a, b, c := s.sha1(newNonce + serverNonce), s.sha1(serverNonce + newNonce), s.sha1(newNonce + newNonce);
      var (key, iv) := TempKeys(s, newNonce, serverNonce);
      && |key| == |iv| == 32
      && (forall i :: 0 <= i < 32 ==> key[i] == if i < 20 then a[i] else b[i - 20])
      && (forall i :: 0 <= i < 32 ==> iv[i] == if i < 8 then b[i + 12] else if i < 28 then c[i - 8] else newNonce[i - 28])
  {}

  /** The confirmation: the last sixteen bytes of a digest over the new nonce, a one, and eight bytes of the key's digest. */
  lemma NewNonceHashLayout(s: Suite, newNonce: Int256, shared: Bytes)
    ensures
      var aux := seq(8, i requires 0 <= i < 8 => s.sha1(shared)[i]);
      var digest := s.sha1(newNonce + [0x01] + aux);
      forall i :: 0 <= i < 16 ==> NewNonceHash(s, newNonce, shared)[i] == digest[4 + i]
  {
    assert s.sha1(shared)[..8] == seq(8, i requires 0 <= i < 8 => s.sha1(shared)[i]);
  }

  /** A message that starts with a constructor and a nonce, and then 16 more bytes. */
  ghost predicate StartsWith(payload: Bytes, ctor: nat, nonce: Int128, second: Bytes) {
    |payload| >= 36 && LeNat(payload[..4]) == ctor && payload[4..20] == nonce && payload[20..36] == second
  }

  lemma HeadRead(payload: Bytes, ctor: nat)
    ensures
      var c := TakeExpected(Start(payload), ctor);
      var (c1, first) := Take(c, 16);
      var (c2, second) := Take(c1, 16);
      && (c2.err.None? <==> |payload| >= 36 && LeNat(payload[..4]) == ctor)
      && (c2.err.None? ==> c2.i == 36 && first == payload[4..20] && second == payload[20..36] && c1.err.None?)
      && c2.b == payload
  {
    hide LeNat;
  }

  /** The first reply is accepted only with our nonce; and it offers its own second nonce. */
  lemma ResPQEchoes(payload: Bytes, nonce: Int128)
    ensures
      var r := ParsedResPQ(payload, nonce);
      r.Ok? ==> StartsWith(payload, RES_PQ, nonce, r.value.serverNonce) && |r.value.fingerprints| <= 64
  {
    hide LeNat, TakeExpected, TakeString, BeNat, Take;
    HeadRead(payload, RES_PQ);
    var c := TakeExpected(Start(payload), RES_PQ);
    var c2 := Take(Take(c, 16).0, 16).0;
    if c2.err.Some? { StringSticks(c2); VectorSticks(TakeString(c2).0); }
    VectorShort(TakeString(c2).0);
  }

  lemma StringSticks(c: Cur)
    requires c.err.Some?
    ensures TakeString(c).0 == c
  {}

  lemma VectorSticks(c: Cur)
    requires c.err.Some?
    ensures TakeVector(c).0.err.Some?
  {
    if TakeNat(TakeNat(c, 4).0, 4).1 <= 64 { LongsStick(c, TakeNat(TakeNat(c, 4).0, 4).1); }
  }

  lemma {:induction false} LongsStick(c: Cur, count: nat)
    requires c.err.Some?
    ensures TakeLongs(c, count).0 == c
    decreases count
  {
    if count > 0 { LongsStick(c, count - 1); }
  }

  lemma VectorShort(c: Cur)
    ensures |TakeVector(c).1| <= 64
  {
    LongsCount(TakeNat(TakeNat(c, 4).0, 4).0, TakeNat(TakeNat(c, 4).0, 4).1);
  }

  lemma {:induction false} LongsCount(c: Cur, count: nat)
    ensures |TakeLongs(c, count).1| == count
    decreases count
  {
    if count > 0 { LongsCount(TakeNat(c, 8).0, count - 1); }
  }

  /**
   * The parameters are accepted only if both layers echo both nonces and the hash in front
   * is that of some front part of the decrypted data behind it.
   */
  lemma ParamsEcho(s: Suite, payload: Bytes, nonce: Int128, serverNonce: Int128, key: Bytes, iv: Bytes)
    returns (answer: Bytes, decrypted: Bytes, n: nat)
    requires ParsedDHParams(s, payload, nonce, serverNonce, key, iv).Ok?
    ensures StartsWith(payload, DH_PARAMS_OK, nonce, serverNonce)
    ensures Ige.Decrypted(s, answer, key, iv) == Ok(decrypted) && 20 + n <= |decrypted| && n >= 36
    ensures StartsWith(decrypted[20..], SERVER_INNER, nonce, serverNonce)
    ensures s.sha1(decrypted[20..20 + n]) == decrypted[..20]
  {
    hide LeNat, TakeExpected, TakeString, BeNat, Take, ParsedInner, Ige.Decrypted;
    HeadRead(payload, DH_PARAMS_OK);
    var c2 := Take(Take(TakeExpected(Start(payload), DH_PARAMS_OK), 16).0, 16).0;
    if c2.err.Some? { StringSticks(c2); }
    answer := TakeString(c2).1;
    decrypted := Ige.Decrypted(s, answer, key, iv).value;
    n := InnerEcho(s, decrypted, nonce, serverNonce);
  }

  lemma InnerEcho(s: Suite, decrypted: Bytes, nonce: Int128, serverNonce: Int128) returns (n: nat)
    requires |decrypted| >= 20 && ParsedInner(s, decrypted, nonce, serverNonce).Ok?
    ensures 36 <= n && 20 + n <= |decrypted| && StartsWith(decrypted[20..], SERVER_INNER, nonce, serverNonce)
    ensures s.sha1(decrypted[20..20 + n]) == decrypted[..20]
  {
    hide LeNat, TakeExpected, BeNat;
    var b := decrypted[20..];
    HeadRead(b, SERVER_INNER);
    var c2 := Take(Take(TakeExpected(Start(b), SERVER_INNER), 16).0, 16).0;
    n := RestRead(c2);
  }

  /** Behind the head the reader moves on within its buffer, and keeps an error. */
  lemma RestRead(c2: Cur) returns (n: nat)
    ensures
      var c3 := TakeNat(c2, 4).0;
      var c6 := TakeNat(TakeString(TakeString(c3).0).0, 4).0;
      && n == c6.i && (c2.i <= |c2.b| ==> n <= |c2.b|) && n >= c2.i && (c6.err.None? ==> c2.err.None?)
  {
    hide LeNat, TakeLength, Align;
    var c3 := TakeNat(c2, 4).0;
    StringMoves(c3);
    StringMoves(TakeString(c3).0);
    n := TakeNat(TakeString(TakeString(c3).0).0, 4).0.i;
  }

  lemma StringMoves(c: Cur)
    ensures TakeString(c).0.i >= c.i && (TakeString(c).0.err.None? ==> c.err.None?)
  {
    hide LeNat;
    var c2 := Take(TakeLength(c).0, TakeLength(c).1).0;
    AlignMoves(c2);
  }

  lemma {:induction false} AlignMoves(c: Cur)
    ensures Align(c).i >= c.i && (Align(c).err.None? ==> c.err.None?)
    decreases if c.err.None? then Padding(c.i) + 1 else 0
  {
    if c.i % 4 != 0 && c.err.None? { AlignMoves(Take(c, 1).0); }
  }

  /** The closing message is accepted exactly if it echoes both nonces and carries the hash of the new nonce and our key. */
  lemma GenExactly(s: Suite, payload: Bytes, nonce: Int128, serverNonce: Int128, newNonce: Int256, shared: Bytes)
    ensures
      CheckedGen(s, payload, nonce, serverNonce, newNonce, shared).None? <==>
      && StartsWith(payload, DH_GEN_OK, nonce, serverNonce)
      && |payload| >= 52 && payload[36..52] == NewNonceHash(s, newNonce, shared)
  {
    hide LeNat, TakeExpected, NewNonceHash;
    HeadRead(payload, DH_GEN_OK);
  }

  ghost predicate Knows(keys: seq<RsaPad.RsaKey>, fingerprint: nat) { exists k :: k in keys && k.fingerprint == fingerprint }

  lemma {:induction false} LookupExactly(keys: seq<RsaPad.RsaKey>, fingerprint: nat)
    ensures
      match Lookup(keys, fingerprint)
      case None => !Knows(keys, fingerprint)
      case Some(key) => key in keys && key.fingerprint == fingerprint
  {
    if keys != [] && keys[0].fingerprint != fingerprint {
      LookupExactly(keys[1..], fingerprint);
    }
  }

  /** The key is one with the first offered fingerprint that is known; it fails exactly when none is. */
  lemma {:induction false} SelectedExactly(keys: seq<RsaPad.RsaKey>, fingerprints: seq<nat>)
    ensures
      match Selected(keys, fingerprints)
      case Err(e) => e == UnknownKey && forall i :: 0 <= i < |fingerprints| ==> !Knows(keys, fingerprints[i])
      case Ok(key) =>
        && key in keys
        && exists i :: 0 <= i < |fingerprints| && key.fingerprint == fingerprints[i]
                       && forall j :: 0 <= j < i ==> !Knows(keys, fingerprints[j])
    decreases |fingerprints|
  {
    hide Knows, Lookup;
    if fingerprints != [] {
      LookupExactly(keys, fingerprints[0]);
      if Lookup(keys, fingerprints[0]).None? {
        SelectedExactly(keys, fingerprints[1..]);
        assert forall i :: 1 <= i < |fingerprints| ==> fingerprints[i] == fingerprints[1..][i - 1];
      }
    }
  }

  /**
   * Against any peer at all: a key is established only with admissible parameters whose
   * half makes the key, and only if the last reply echoes both nonces and carries the hash
   * that needs that key.
   */
  lemma EstablishedOnly(s: Suite, keys: seq<RsaPad.RsaKey>, primality: Primality, dc: int, d: Draws, peer: Peer, e: Established)
    returns (p: FitParams, serverNonce: Int128, last: Bytes)
    requires Created(s, keys, primality, dc, d, peer) == Ok(e)
    ensures Admissible(s, p, primality) && |e.key| == KEY_BYTES && BeNat(e.key) == Exp(p.gA, d.exponent, p.prime)
    ensures exists packets :: peer(packets) == Ok(last)
    ensures |last| >= 72 && StartsWith(last[20..], DH_GEN_OK, d.nonce, serverNonce)
    ensures last[56..72] == NewNonceHash(s, d.newNonce, e.key)
    ensures e.salt == Xor(d.newNonce[..8], serverNonce[..8]) && e.timeOffset == p.time - d.now
  {
    hide Opening, Second, Third, First, CheckedParams, CheckedGen, Shared, NewNonceHash, Xor, Unwrapped, Exp, BeNat, StartsWith, Admissible,
      ParsedDHParams, TempKeys;
    var res := Opening(d, peer).value;
    var second := Second(s, keys, dc, d, res).value;
    var packet2 := peer([First(d), second]).value;
    p := Agreed(s, primality, d, res, packet2).value;
    CheckedExactly(s, p, primality);
    var third := Third(s, d, res, p).value;
    last := peer([First(d), second, third]).value;
    serverNonce := res.serverNonce;
    var body := Unwrapped(last).value;
    GenExactly(s, body, d.nonce, serverNonce, d.newNonce, e.key);
    BodyPlace(last, body);
    KeyValue(d, p);
    InFront(body, last, DH_GEN_OK, d.nonce, serverNonce);
  }

  lemma KeyValue(d: Draws, p: FitParams)
    ensures |Shared(d, p)| == KEY_BYTES && BeNat(Shared(d, p)) == Exp(p.gA, d.exponent, p.prime)
  {
    hide BeNat, Be;
  }

  lemma BodyPlace(packet: Bytes, body: Bytes)
    requires Unwrapped(packet) == Ok(body)
    ensures 20 + |body| <= |packet| && body == packet[20..20 + |body|]
  {
    hide LeNat;
  }

  lemma InFront(body: Bytes, packet: Bytes, ctor: nat, nonce: Int128, second: Bytes)
    requires 20 + |body| <= |packet| && body == packet[20..20 + |body|] && |body| >= 52
    ensures StartsWith(body, ctor, nonce, second) ==> StartsWith(packet[20..], ctor, nonce, second)
    ensures body[36..52] == packet[56..72]
  {
    hide LeNat;
    assert body[..4] == body[0..4] && packet[20..][..4] == packet[20..][0..4];
    FrontSlice(packet, body, 0, 4);
    FrontSlice(packet, body, 4, 20);
    FrontSlice(packet, body, 20, 36);
    FrontSlice(packet, body, 36, 52);
  }

  lemma FrontSlice(packet: Bytes, body: Bytes, a: nat, b: nat)
    requires 20 + |body| <= |packet| && body == packet[20..20 + |body|] && a <= b <= |body|
    ensures body[a..b] == packet[20..][a..b] == packet[20 + a..20 + b]
  {
    var t := packet[20..];
    SliceOfDrop(packet, 20, 0, |body|);
    assert body == t[..|body|] && t[..|body|][a..b] == t[a..b];
    SliceOfDrop(packet, 20, a, b);
  }
}

/** internal/mtproto/rsa.go: the RSA_PAD envelope. */
module RsaPad {
  import opened Bytes
  import opened Crypto
  import opened Wrappers
  import Ige

  const LIMIT := 144
  const PADDED := 192
  const MODULUS := 256

  type Key32 = b: Bytes | |b| == 32 witness seq(32, _ => 0)

  /** A public key: raising to the exponent is a permutation of the residues below n. */
  datatype RsaKey = RsaKey(n: nat, enc: nat -> nat, dec: nat -> nat, fingerprint: nat) {
    ghost predicate Lawful() {
      && n <= Pow256(MODULUS)
      && forall v: nat :: v < n ==> enc(v) < n && dec(enc(v)) == v
    }
  }

  function Reverse(b: Bytes): (r: Bytes)
    ensures |r| == |b|
    ensures forall i :: 0 <= i < |b| ==> r[i] == b[|b| - 1 - i]
  {
    seq(|b|, i requires 0 <= i < |b| => b[|b| - 1 - i])
  }

  /** internal/mtproto/obfuscate.go, lines 118-124. */
  method ReverseBytes(b: Bytes) returns (r: Bytes)
    ensures r == Reverse(b)
  {
    var out := new byte[|b|](_ => 0);
    for i := 0 to |b|
      invariant forall k :: 0 <= k < i ==> out[|b| - 1 - k] == b[k]
    {
      out[|b| - 1 - i] := b[i];
    }
    r := out[..];
    forall i | 0 <= i < |b|
      ensures r[i] == Reverse(b)[i]
    {
      assert out[|b| - 1 - (|b| - 1 - i)] == b[|b| - 1 - i];
    }
  }

  const ZERO_IV: Bytes := seq(32, _ => 0)

  /** One attempt: the 256 bytes whose value must stay below the modulus. */
  function Envelope(s: Suite, padded: Bytes, tempKey: Key32): (e: Bytes)
    requires |padded| == PADDED
    ensures |e| == MODULUS
  {
    var hash := s.sha256(tempKey + padded);
    var encrypted := Ige.Enc(s, tempKey, ZERO_IV[..16], ZERO_IV[16..], Reverse(padded) + hash);
    Xor(tempKey, s.sha256(encrypted)) + encrypted
  }

  /** The first temporary key whose envelope is below the modulus decides. */
  function FirstFit(s: Suite, padded: Bytes, key: RsaKey, tempKeys: seq<Key32>): Result<Bytes>
    requires |padded| == PADDED
  {
    if tempKeys == [] then Err(AboveModulus)
    else
      var value := BeNat(Envelope(s, padded, tempKeys[0]));
      if value >= key.n then FirstFit(s, padded, key, tempKeys[1..]) else Ok(Be(key.enc(value), MODULUS))
  }

  /** Lines 93-129. The random source supplies the padding and up to 64 temporary keys. */
  method RsaPad(s: Suite, data: Bytes, key: RsaKey, padding: Bytes, tempKeys: seq<Key32>) returns (r: Result<Bytes>)
    requires |tempKeys| == 64 && (|data| <= LIMIT ==> |padding| == PADDED - |data|)
    ensures |data| > LIMIT ==> r == Err(PayloadTooLong)
    ensures |data| <= LIMIT ==> r == FirstFit(s, data + padding, key, tempKeys)
  {
    if |data| > LIMIT {
      return Err(PayloadTooLong);
    }
    hide Ige.Enc, Reverse, Xor, BeNat, Be;
    var padded := data + padding;
    var reversed := ReverseBytes(padded);
    var i := 0;
    assert tempKeys[0..] == tempKeys;
    while i < 64
      invariant 0 <= i <= 64
      invariant FirstFit(s, padded, key, tempKeys) == FirstFit(s, padded, key, tempKeys[i..])
    {
      var tempKey := tempKeys[i];
      assert tempKeys[i..][0] == tempKey && tempKeys[i..][1..] == tempKeys[i + 1..];
      var hash := s.sha256(tempKey + padded);
      var encrypted := Ige.IgeEncrypt(s, reversed + hash, tempKey, ZERO_IV);
      var keyHash := s.sha256(encrypted.value);
      var masked := Ige.XorBytes(tempKey, keyHash);
      var value := BeNat(masked + encrypted.value);
      assert masked + encrypted.value == Envelope(s, padded, tempKey);
      if value < key.n {
        return Ok(Be(key.enc(value), MODULUS));
      }
      i := i + 1;
    }
    assert tempKeys[i..] == [];
    return Err(AboveModulus);
  }

  /** What the key holder does: undo the permutation, the mask, the cipher and the reversal. */
  function Unpad(s: Suite, key: RsaKey, wire: Bytes): Result<Bytes> {
    var e := Be(key.dec(BeNat(wire)), MODULUS);
    var encrypted := e[32..];
    var tempKey := Xor(e[..32], s.sha256(encrypted));
    var plain := Ige.Dec(s, tempKey, ZERO_IV[..16], ZERO_IV[16..], encrypted);
    var padded := Reverse(plain[..PADDED]);
    if plain[PADDED..] == s.sha256(tempKey + padded) then Ok(padded) else Err(HashMismatch)
  }

  lemma ReverseTwice(b: Bytes)
    ensures Reverse(Reverse(b)) == b
  {
    forall i | 0 <= i < |b|
      ensures Reverse(Reverse(b))[i] == b[i]
    {
      assert Reverse(Reverse(b))[i] == Reverse(b)[|b| - 1 - i] == b[|b| - 1 - (|b| - 1 - i)];
    }
  }

  lemma OpenEnvelope(s: Suite, padded: Bytes, tempKey: Key32)
    requires s.Lawful() && |padded| == PADDED
    ensures
      var e := Envelope(s, padded, tempKey);
      && Xor(e[..32], s.sha256(e[32..])) == tempKey
      && Ige.Dec(s, tempKey, ZERO_IV[..16], ZERO_IV[16..], e[32..]) == Reverse(padded) + s.sha256(tempKey + padded)
  {
    hide Ige.Enc, Ige.Dec, Reverse, Xor;
    var hash := s.sha256(tempKey + padded);
    var encrypted := Ige.Enc(s, tempKey, ZERO_IV[..16], ZERO_IV[16..], Reverse(padded) + hash);
    var e := Envelope(s, padded, tempKey);
    assert e[..32] == Xor(tempKey, s.sha256(encrypted)) && e[32..] == encrypted;
    XorInvolutive(tempKey, s.sha256(encrypted));
    Ige.DecEnc(s, tempKey, ZERO_IV[..16], ZERO_IV[16..], Reverse(padded) + hash);
  }

  /** Every envelope the client sends is opened by the key holder to the padded data. */
  lemma {:induction false} UnpadFirstFit(s: Suite, padded: Bytes, key: RsaKey, tempKeys: seq<Key32>, wire: Bytes)
    requires s.Lawful() && key.Lawful() && |padded| == PADDED
    requires FirstFit(s, padded, key, tempKeys) == Ok(wire)
    ensures |wire| == MODULUS && Unpad(s, key, wire) == Ok(padded)
    decreases |tempKeys|
  {
    hide Ige.Dec, Reverse, Xor, Envelope;
    var e := Envelope(s, padded, tempKeys[0]);
    var value := BeNat(e);
    if value >= key.n {
      UnpadFirstFit(s, padded, key, tempKeys[1..], wire);
    } else {
      BeNatRoundTrip(e);
      BeRoundTrip(key.enc(value), MODULUS);
      OpenEnvelope(s, padded, tempKeys[0]);
      ReverseTwice(padded);
      var hash := s.sha256(tempKeys[0] + padded);
      assert (Reverse(padded) + hash)[..PADDED] == Reverse(padded);
      assert (Reverse(padded) + hash)[PADDED..] == hash;
    }
  }

  /** The only failure for admissible data is that every envelope reaches the modulus. */
  lemma {:induction false} FirstFitFails(s: Suite, padded: Bytes, key: RsaKey, tempKeys: seq<Key32>)
    requires |padded| == PADDED
    ensures FirstFit(s, padded, key, tempKeys).Err? <==>
              forall i :: 0 <= i < |tempKeys| ==> BeNat(Envelope(s, padded, tempKeys[i])) >= key.n
    decreases |tempKeys|
  {
    hide Envelope, BeNat, Be;
    if tempKeys != [] {
      FirstFitFails(s, padded, key, tempKeys[1..]);
      forall i | 1 <= i < |tempKeys|
        ensures tempKeys[i] == tempKeys[1..][i - 1]
      {}
    }
  }
}

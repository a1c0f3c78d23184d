/** internal/mtproto/ige.go: AES in infinite garble extension mode. */
module Ige {
  import opened Bytes
  import opened Crypto
  import opened Wrappers

  const BLOCK := 16

  /** Each block is masked with the previous ciphertext before, the previous plaintext after. */
  function Enc(s: Suite, key: Bytes, prevCipher: Block, prevPlain: Block, data: Bytes): (out: Bytes)
    requires |data| % BLOCK == 0
    ensures |out| == |data|
    decreases |data|
  {
    if data == [] then []
    else
      var plain := data[..BLOCK];
      var cipher := Xor(s.enc(key, Xor(plain, prevCipher)), prevPlain);
      cipher + Enc(s, key, cipher, plain, data[BLOCK..])
  }

  function Dec(s: Suite, key: Bytes, prevCipher: Block, prevPlain: Block, data: Bytes): (out: Bytes)
    requires |data| % BLOCK == 0
    ensures |out| == |data|
    decreases |data|
  {
    if data == [] then []
    else
      var cipher := data[..BLOCK];
      var plain := Xor(s.dec(key, Xor(cipher, prevPlain)), prevCipher);
      plain + Dec(s, key, cipher, plain, data[BLOCK..])
  }

  function Refusal(data: Bytes, key: Bytes, iv: Bytes): Option<Error> {
    if !AesKey(key) then Some(BadKey)
    else if |data| % BLOCK != 0 then Some(BadBlockLength)
    else if |iv| != 2 * BLOCK then Some(BadIV)
    else None
  }

  function Encrypted(s: Suite, data: Bytes, key: Bytes, iv: Bytes): (r: Result<Bytes>)
    ensures r.Ok? ==> |r.value| == |data|
  {
    match Refusal(data, key, iv)
    case Some(e) => Err(e)
    case None => Ok(Enc(s, key, iv[..BLOCK], iv[BLOCK..], data))
  }

  function Decrypted(s: Suite, data: Bytes, key: Bytes, iv: Bytes): (r: Result<Bytes>)
    ensures r.Ok? ==> |r.value| == |data|
  {
    match Refusal(data, key, iv)
    case Some(e) => Err(e)
    case None => Ok(Dec(s, key, iv[..BLOCK], iv[BLOCK..], data))
  }

  // ---- the loops

  /** Lines 62-68. */
  method XorBytes(a: Bytes, b: Bytes) returns (c: Bytes)
    requires |a| <= |b|
    ensures c == Xor(a, b)
  {
    var out := new byte[|a|](_ => 0);
    for i := 0 to |a|
      invariant forall k :: 0 <= k < i ==> out[k] == XorByte(a[k], b[k])
    {
      out[i] := XorByte(a[i], b[i]);
    }
    c := out[..];
  }

  /** The copy of one block into the output. */
  method PutBlock(out: array<byte>, i: nat, block: Block)
    requires i + BLOCK <= out.Length
    modifies out
    ensures out[..i + BLOCK] == old(out[..i]) + block
  {
    forall k | 0 <= k < BLOCK { out[i + k] := block[k]; }
    assert out[..i] == old(out[..i]) && out[i..i + BLOCK] == block;
  }

  lemma EncFront(s: Suite, key: Bytes, prevCipher: Block, prevPlain: Block, data: Bytes, i: nat)
    requires i < |data| && |data| % BLOCK == 0 && i % BLOCK == 0
    ensures
      var plain := data[i..i + BLOCK];
      var cipher := Xor(s.enc(key, Xor(plain, prevCipher)), prevPlain);
      Enc(s, key, prevCipher, prevPlain, data[i..]) == cipher + Enc(s, key, cipher, plain, data[i + BLOCK..])
  {
    SliceOfDrop(data, i, 0, BLOCK);
  }

  lemma DecFront(s: Suite, key: Bytes, prevCipher: Block, prevPlain: Block, data: Bytes, i: nat)
    requires i < |data| && |data| % BLOCK == 0 && i % BLOCK == 0
    ensures
      var cipher := data[i..i + BLOCK];
      var plain := Xor(s.dec(key, Xor(cipher, prevPlain)), prevCipher);
      Dec(s, key, prevCipher, prevPlain, data[i..]) == plain + Dec(s, key, cipher, plain, data[i + BLOCK..])
  {
    SliceOfDrop(data, i, 0, BLOCK);
  }

  /** Lines 8-33. */
  method IgeEncrypt(s: Suite, data: Bytes, key: Bytes, iv: Bytes) returns (r: Result<Bytes>)
    ensures r == Encrypted(s, data, key, iv)
  {
    hide Enc, Xor;
    if !AesKey(key) {
      return Err(BadKey);
    }
    if |data| % BLOCK != 0 {
      return Err(BadBlockLength);
    }
    if |iv| != 2 * BLOCK {
      return Err(BadIV);
    }
    var prevCipher: Block, prevPlain: Block := iv[..BLOCK], iv[BLOCK..];
    var out := new byte[|data|](_ => 0);
    var i := 0;
    ghost var all := Enc(s, key, prevCipher, prevPlain, data);
    assert data[0..] == data && out[..0] + all == all;
    while i < |data|
      invariant 0 <= i <= |data| && i % BLOCK == 0
      invariant out[..i] + Enc(s, key, prevCipher, prevPlain, data[i..]) == all
    {
      EncFront(s, key, prevCipher, prevPlain, data, i);
      var plain := data[i..i + BLOCK];
      var chunk := XorBytes(plain, prevCipher);
      chunk := s.enc(key, chunk);
      var cipher := XorBytes(chunk, prevPlain);
      PutBlock(out, i, cipher);
      prevCipher, prevPlain := cipher, plain;
      i := i + BLOCK;
    }
    EncEnd(s, key, prevCipher, prevPlain, data[i..]);
    assert out[..i] == out[..] && out[..] + [] == out[..];
    return Ok(out[..]);
  }

  lemma EncEnd(s: Suite, key: Bytes, prevCipher: Block, prevPlain: Block, data: Bytes)
    requires data == []
    ensures Enc(s, key, prevCipher, prevPlain, data) == [] && Dec(s, key, prevCipher, prevPlain, data) == []
  {}

  /** Lines 35-60. */
  method IgeDecrypt(s: Suite, data: Bytes, key: Bytes, iv: Bytes) returns (r: Result<Bytes>)
    ensures r == Decrypted(s, data, key, iv)
  {
    hide Dec, Xor;
    if !AesKey(key) {
      return Err(BadKey);
    }
    if |data| % BLOCK != 0 {
      return Err(BadBlockLength);
    }
    if |iv| != 2 * BLOCK {
      return Err(BadIV);
    }
    var prevCipher: Block, prevPlain: Block := iv[..BLOCK], iv[BLOCK..];
    var out := new byte[|data|](_ => 0);
    var i := 0;
    ghost var all := Dec(s, key, prevCipher, prevPlain, data);
    assert data[0..] == data && out[..0] + all == all;
    while i < |data|
      invariant 0 <= i <= |data| && i % BLOCK == 0
      invariant out[..i] + Dec(s, key, prevCipher, prevPlain, data[i..]) == all
    {
      DecFront(s, key, prevCipher, prevPlain, data, i);
      var cipher := data[i..i + BLOCK];
      var chunk := XorBytes(cipher, prevPlain);
      chunk := s.dec(key, chunk);
      var plain := XorBytes(chunk, prevCipher);
      PutBlock(out, i, plain);
      prevCipher, prevPlain := cipher, plain;
      i := i + BLOCK;
    }
    EncEnd(s, key, prevCipher, prevPlain, data[i..]);
    assert out[..i] == out[..] && out[..] + [] == out[..];
    return Ok(out[..]);
  }

  // ---- mutual inverses

  lemma {:induction false} DecEnc(s: Suite, key: Bytes, prevCipher: Block, prevPlain: Block, data: Bytes)
    requires s.Lawful() && |data| % BLOCK == 0
    ensures Dec(s, key, prevCipher, prevPlain, Enc(s, key, prevCipher, prevPlain, data)) == data
    decreases |data|
  {
    hide Xor;
    if data != [] {
      var plain: Block := data[..BLOCK];
      var mixed: Block := Xor(plain, prevCipher);
      var cipher: Block := Xor(s.enc(key, mixed), prevPlain);
      var rest := Enc(s, key, cipher, plain, data[BLOCK..]);
      XorInvolutive(s.enc(key, mixed), prevPlain);
      XorInvolutive(plain, prevCipher);
      DecEnc(s, key, cipher, plain, data[BLOCK..]);
      assert (cipher + rest)[..BLOCK] == cipher && (cipher + rest)[BLOCK..] == rest;
      assert data == plain + data[BLOCK..];
    }
  }

  lemma {:induction false} EncDec(s: Suite, key: Bytes, prevCipher: Block, prevPlain: Block, data: Bytes)
    requires s.Lawful() && |data| % BLOCK == 0
    ensures Enc(s, key, prevCipher, prevPlain, Dec(s, key, prevCipher, prevPlain, data)) == data
    decreases |data|
  {
    hide Xor;
    if data != [] {
      var cipher: Block := data[..BLOCK];
      var mixed: Block := Xor(cipher, prevPlain);
      var plain: Block := Xor(s.dec(key, mixed), prevCipher);
      var rest := Dec(s, key, cipher, plain, data[BLOCK..]);
      XorInvolutive(s.dec(key, mixed), prevCipher);
      XorInvolutive(cipher, prevPlain);
      EncDec(s, key, cipher, plain, data[BLOCK..]);
      assert (plain + rest)[..BLOCK] == plain && (plain + rest)[BLOCK..] == rest;
      assert data == cipher + data[BLOCK..];
    }
  }

  /** Whatever encryption accepts, decryption gives back, and the other way round. */
  lemma IgeInverse(s: Suite, data: Bytes, key: Bytes, iv: Bytes)
    requires s.Lawful() && Refusal(data, key, iv).None?
    ensures Encrypted(s, data, key, iv).Ok? && Decrypted(s, Encrypted(s, data, key, iv).value, key, iv) == Ok(data)
    ensures Decrypted(s, data, key, iv).Ok? && Encrypted(s, Decrypted(s, data, key, iv).value, key, iv) == Ok(data)
  {
    DecEnc(s, key, iv[..BLOCK], iv[BLOCK..], data);
    EncDec(s, key, iv[..BLOCK], iv[BLOCK..], data);
  }

  // ---- the mode, block by block

  function BlockAt(data: Bytes, k: nat): Block
    requires BLOCK * (k + 1) <= |data|
  {
    data[BLOCK * k..BLOCK * (k + 1)]
  }

  /**
   * Block k of the ciphertext: the plaintext block is combined with the ciphertext block
   * before it, encrypted, and combined with the plaintext block before it; the halves of
   * the IV stand before the first.
   */
  lemma {:induction false} EncBlock(s: Suite, key: Bytes, prevCipher: Block, prevPlain: Block, data: Bytes, k: nat)
    requires |data| % BLOCK == 0 && BLOCK * (k + 1) <= |data|
    ensures
      var out := Enc(s, key, prevCipher, prevPlain, data);
      var c := if k == 0 then prevCipher else BlockAt(out, k - 1);
      var p := if k == 0 then prevPlain else BlockAt(data, k - 1);
      BlockAt(out, k) == Xor(s.enc(key, Xor(BlockAt(data, k), c)), p)
    decreases k
  {
    hide Xor, Enc, BlockAt;
    var plain: Block := data[..BLOCK];
    var rest := data[BLOCK..];
    var cipher: Block := Xor(s.enc(key, Xor(plain, prevCipher)), prevPlain);
    var later := Enc(s, key, cipher, plain, rest);
    EncUnfold(s, key, prevCipher, prevPlain, data);
    FirstBlock(cipher, later);
    FirstBlock(plain, rest);
    if k > 0 {
      EncBlock(s, key, cipher, plain, rest, k - 1);
      ShiftBlock(cipher, later, k - 1);
      ShiftBlock(plain, rest, k - 1);
      if k > 1 {
        ShiftBlock(cipher, later, k - 2);
        ShiftBlock(plain, rest, k - 2);
      }
    }
  }

  lemma EncUnfold(s: Suite, key: Bytes, prevCipher: Block, prevPlain: Block, data: Bytes)
    requires |data| % BLOCK == 0 && data != []
    ensures
      var plain: Block := data[..BLOCK];
      var cipher: Block := Xor(s.enc(key, Xor(plain, prevCipher)), prevPlain);
      && Enc(s, key, prevCipher, prevPlain, data) == cipher + Enc(s, key, cipher, plain, data[BLOCK..])
      && data == plain + data[BLOCK..]
  {
    hide Xor;
  }

  lemma FirstBlock(first: Block, rest: Bytes)
    ensures BlockAt(first + rest, 0) == first
  {}

  lemma ShiftBlock(first: Block, rest: Bytes, k: nat)
    requires BLOCK * (k + 1) <= |rest|
    ensures BlockAt(first + rest, k + 1) == BlockAt(rest, k)
  {}

  /** Encryption and decryption refuse exactly keys, lengths and IVs of the wrong size, in this order. */
  lemma RefusesExactly(s: Suite, data: Bytes, key: Bytes, iv: Bytes)
    ensures
      var e, d := Encrypted(s, data, key, iv), Decrypted(s, data, key, iv);
      && (e.Ok? <==> |key| in {16, 24, 32} && |data| % 16 == 0 && |iv| == 32) && (d.Ok? <==> e.Ok?)
      && (|key| !in {16, 24, 32} ==> e == d == Err(BadKey))
      && (|key| in {16, 24, 32} && |data| % 16 != 0 ==> e == d == Err(BadBlockLength))
  {}
}

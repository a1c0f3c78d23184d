/** internal/mtproto/obfuscate.go: the obfuscated stream and its header. */
module Obfuscate {
  import opened Bytes
  import opened Crypto
  import opened Wrappers
  import opened Records
  import Reversal = RsaPad

  const COUNTERS := 0x1_0000_0000_0000_0000 * 0x1_0000_0000_0000_0000

  type Header = b: Bytes | |b| == 64 witness seq(64, _ => 0)

  /** A cipher stream: its key and initial counter. */
  datatype Cipher = Cipher(key: Bytes, iv: Block)

  /** Byte `pos` of the CTR keystream: counter blocks are the initial value plus the block index. */
  function Keystream(s: Suite, c: Cipher, pos: nat): byte {
    s.enc(c.key, Be((BeNat(c.iv) + pos / 16) % COUNTERS, 16))[pos % 16]
  }

  /** The stream applied to data that stands at an offset. */
  function Ctr(s: Suite, c: Cipher, pos: nat, data: Bytes): (out: Bytes)
    ensures |out| == |data|
  {
    seq(|data|, i requires 0 <= i < |data| => XorByte(data[i], Keystream(s, c, pos + i)))
  }

  /** Segmentation does not matter. */
  lemma CtrAppend(s: Suite, c: Cipher, pos: nat, a: Bytes, b: Bytes)
    ensures Ctr(s, c, pos, a + b) == Ctr(s, c, pos, a) + Ctr(s, c, pos + |a|, b)
  {
    hide XorByte, Keystream;
    forall i | 0 <= i < |a + b|
      ensures Ctr(s, c, pos, a + b)[i] == (Ctr(s, c, pos, a) + Ctr(s, c, pos + |a|, b))[i]
    {
      if i >= |a| { assert pos + i == pos + |a| + (i - |a|); }
    }
  }

  lemma CtrInvolutive(s: Suite, c: Cipher, pos: nat, data: Bytes)
    ensures Ctr(s, c, pos, Ctr(s, c, pos, data)) == data
  {
    hide XorByte, Keystream;
    forall i | 0 <= i < |data|
      ensures Ctr(s, c, pos, Ctr(s, c, pos, data))[i] == data[i]
    {
      XorByteInvolutive(data[i], Keystream(s, c, pos + i));
    }
  }

  // ---- the counter blocks (NIST SP 800-38A, section 6.5)

  /** The cipher applied to the first n counter values: the initial value, and one more for each block. */
  function KeyBlocks(s: Suite, c: Cipher, n: nat): (b: Bytes)
    ensures |b| == 16 * n
  {
    if n == 0 then [] else KeyBlocks(s, c, n - 1) + s.enc(c.key, Be((BeNat(c.iv) + (n - 1)) % COUNTERS, 16))
  }

  lemma {:induction false} KeyByte(s: Suite, c: Cipher, n: nat, pos: nat)
    requires pos < 16 * n
    ensures KeyBlocks(s, c, n)[pos] == Keystream(s, c, pos)
    decreases n
  {
    hide Be, BeNat;
    if pos < 16 * (n - 1) {
      KeyByte(s, c, n - 1, pos);
    } else {
      assert pos / 16 == n - 1 && pos % 16 == pos - 16 * (n - 1);
    }
  }

  /** Data at an offset is combined with the counter blocks cut at that offset. */
  lemma CtrCuts(s: Suite, c: Cipher, pos: nat, data: Bytes, n: nat)
    requires pos + |data| <= 16 * n
    ensures Ctr(s, c, pos, data) == Xor(data, KeyBlocks(s, c, n)[pos..pos + |data|])
  {
    hide KeyBlocks, Keystream, XorByte;
    forall i | 0 <= i < |data|
      ensures Ctr(s, c, pos, data)[i] == Xor(data, KeyBlocks(s, c, n)[pos..pos + |data|])[i]
    {
      KeyByte(s, c, n, pos + i);
    }
  }

  /** A whole block at the k-th place is combined with the k-th counter block, counting on from the initial value. */
  lemma CtrBlock(s: Suite, c: Cipher, k: nat, b: Block)
    ensures Ctr(s, c, 16 * k, b)
         == Xor(b, s.enc(c.key, Be((BeNat(c.iv) + k) % 0x1_0000_0000_0000_0000_0000_0000_0000_0000, 16)))
  {
    hide Be, BeNat, Xor;
    CtrCuts(s, c, 16 * k, b, k + 1);
    assert KeyBlocks(s, c, k + 1)[16 * k..16 * k + 16] == s.enc(c.key, Be((BeNat(c.iv) + k) % COUNTERS, 16));
  }

  // ---- the header

  const FORBIDDEN: seq<Bytes> := [
    [0xDD, 0xDD, 0xDD, 0xDD], [0xEE, 0xEE, 0xEE, 0xEE], [0x50, 0x4F, 0x53, 0x54],
    [0x47, 0x45, 0x54, 0x20], [0x48, 0x45, 0x41, 0x44], [0x16, 0x03, 0x01, 0x02]]

  /** What a random header must avoid to look like nothing in particular. */
  predicate Inconspicuous(h: Header) {
    h[0] != 0xEF && LeNat(h[4..8]) != 0 && h[..4] !in FORBIDDEN
  }

  type Tag = b: Bytes | |b| == 4 witness [0, 0, 0, 0]

  /** The tag and the data-centre number, as a 16-bit word, go into bytes 56 to 61. */
  function Marked(h: Header, tag: Tag, dc: int): (m: Header) {
    h[..56] + tag + Le(dc % 0x1_0000, 2) + h[62..]
  }

  /** The first admissible draw; `draws` is what the random source would deliver. */
  function HeaderFrom(tag: Tag, dc: int, draws: seq<Header>): Result<Header> {
    if draws == [] then Err(NoRandomness)
    else if Inconspicuous(draws[0]) then Ok(Marked(draws[0], tag, dc))
    else HeaderFrom(tag, dc, draws[1..])
  }

  /** Lines 109-116. */
  method MatchesAny(prefix: Bytes, list: seq<Bytes>) returns (found: bool)
    ensures found <==> prefix in list
  {
    for i := 0 to |list|
      invariant prefix !in list[..i]
    {
      if prefix == list[i] {
        return true;
      }
    }
    return false;
  }

  /** Lines 77-107: the header array is filled, refilled while conspicuous, then marked in place. */
  method ObfuscationHeader(tag: Tag, dc: int, draws: seq<Header>) returns (r: Result<Header>)
    ensures r == HeaderFrom(tag, dc, draws)
  {
    hide Inconspicuous, Marked;
    var k := 0;
    assert draws[0..] == draws;
    while k < |draws|
      invariant 0 <= k <= |draws| && HeaderFrom(tag, dc, draws) == HeaderFrom(tag, dc, draws[k..])
    {
      assert draws[k..][0] == draws[k] && draws[k..][1..] == draws[k + 1..];
      var ok := Acceptable(draws[k]);
      if ok {
        var marked := Mark(draws[k], tag, dc);
        return Ok(marked);
      }
      k := k + 1;
    }
    assert draws[k..] == [];
    return Err(NoRandomness);
  }

  method Acceptable(h: Header) returns (ok: bool)
    ensures ok <==> Inconspicuous(h)
  {
    if h[0] == 0xEF {
      return false;
    }
    if LeNat(h[4..8]) == 0 {
      return false;
    }
    var found := MatchesAny(h[..4], FORBIDDEN);
    return !found;
  }

  /** Lines 104-105. */
  method Mark(h: Header, tag: Tag, dc: int) returns (m: Header)
    ensures m == Marked(h, tag, dc)
  {
    var header := new byte[64](i requires 0 <= i < 64 => h[i]);
    forall i | 0 <= i < 4 { header[56 + i] := tag[i]; }
    var word := Le(dc % 0x1_0000, 2);
    forall i | 0 <= i < 2 { header[60 + i] := word[i]; }
    m := header[..];
    assert m == m[..56] + m[56..60] + m[60..62] + m[62..];
    assert m[..56] == h[..56] && m[56..60] == tag && m[60..62] == word && m[62..] == h[62..];
  }

  /** How a header must not begin: the tags of open transports, the first bytes of three HTTP methods and a TLS hello. */
  ghost predicate LooksLike(h: Header, text: string)
    requires |text| == 4
  {
    forall i :: 0 <= i < 4 ==> h[i] == text[i] as int
  }

  ghost predicate Conspicuous(h: Header) {
    || h[0] == 0xEF || (h[0] == h[1] == h[2] == h[3] == 0xEE) || (h[0] == h[1] == h[2] == h[3] == 0xDD)
    || LooksLike(h, "POST") || LooksLike(h, "GET ") || LooksLike(h, "HEAD")
    || (h[0] == 0x16 && h[1] == 0x03 && h[2] == 0x01 && h[3] == 0x02)
    || (h[4] == h[5] == h[6] == h[7] == 0)
  }

  lemma ConspicuousExactly(h: Header)
    ensures Inconspicuous(h) <==> !Conspicuous(h)
  {
    var p := h[..4];
    assert p in FORBIDDEN <==>
      || p == FORBIDDEN[0] || p == FORBIDDEN[1] || p == FORBIDDEN[2] || p == FORBIDDEN[3] || p == FORBIDDEN[4] || p == FORBIDDEN[5];
    ZeroWord(h[4], h[5], h[6], h[7]);
    assert h[4..8] == [h[4], h[5], h[6], h[7]];
  }

  lemma ZeroWord(a: byte, b: byte, c: byte, d: byte)
    ensures LeNat([a, b, c, d]) == 0 <==> a == b == c == d == 0
  {
    assert LeNat([d]) == d + 256 * LeNat([d][1..]);
    assert LeNat([c, d]) == c + 256 * LeNat([d]) by { assert [c, d][1..] == [d]; }
    assert LeNat([b, c, d]) == b + 256 * LeNat([c, d]) by { assert [b, c, d][1..] == [c, d]; }
    assert LeNat([a, b, c, d]) == a + 256 * LeNat([b, c, d]) by { assert [a, b, c, d][1..] == [b, c, d]; }
  }

  /** The header is the first draw that does not stand out, but for the six marked bytes; it fails only without one. */
  lemma {:induction false} HeaderExactly(tag: Tag, dc: int, draws: seq<Header>)
    ensures
      match HeaderFrom(tag, dc, draws)
      case Err(e) => e == NoRandomness && forall k :: 0 <= k < |draws| ==> Conspicuous(draws[k])
      case Ok(h) =>
        exists k :: 0 <= k < |draws| && !Conspicuous(draws[k]) && (forall j :: 0 <= j < k ==> Conspicuous(draws[j]))
                    && (forall i :: 0 <= i < 64 && !(56 <= i < 62) ==> h[i] == draws[k][i])
    decreases |draws|
  {
    hide Inconspicuous, Conspicuous, Le;
    if draws != [] {
      ConspicuousExactly(draws[0]);
      if Inconspicuous(draws[0]) {
        var h := Marked(draws[0], tag, dc);
        assert forall i :: 0 <= i < 64 && !(56 <= i < 62) ==> h[i] == draws[0][i];
      } else {
        HeaderExactly(tag, dc, draws[1..]);
        assert forall k :: 1 <= k < |draws| ==> draws[k] == draws[1..][k - 1];
      }
    }
  }

  // ---- keys

  function UpCipher(s: Suite, h: Header, secret: Bytes): Cipher {
    Cipher(s.sha256(h[8..40] + secret), h[40..56])
  }

  function DownCipher(s: Suite, h: Header, secret: Bytes): Cipher {
    var r: Header := Reversal.Reverse(h);
    Cipher(s.sha256(r[8..40] + secret), r[40..56])
  }

  /**
   * Which bytes make the keys: upwards the header's 8 to 39 with the secret and 40 to 55 as
   * counter; downwards the same places counted from the other end.
   */
  lemma CipherLayout(s: Suite, h: Header, secret: Bytes)
    ensures
      var up, down := UpCipher(s, h, secret), DownCipher(s, h, secret);
      && up.key == s.sha256(seq(32, i requires 0 <= i < 32 => h[8 + i]) + secret)
      && down.key == s.sha256(seq(32, i requires 0 <= i < 32 => h[55 - i]) + secret)
      && forall i :: 0 <= i < 16 ==> up.iv[i] == h[40 + i] && down.iv[i] == h[23 - i]
  {
    var r: Header := Reversal.Reverse(h);
    assert h[8..40] == seq(32, i requires 0 <= i < 32 => h[8 + i]);
    assert r[8..40] == seq(32, i requires 0 <= i < 32 => h[55 - i]);
  }

  /** The header as it goes on the wire: its last eight bytes are replaced by ciphertext. */
  function WireHeader(s: Suite, h: Header, secret: Bytes): (w: Header) {
    h[..56] + Ctr(s, UpCipher(s, h, secret), 0, h)[56..]
  }

  /**
   * A peer that sees only the wire header derives both of the client's ciphers, since
   * bytes 8 to 55 are untouched in either direction, and recovers the marked bytes.
   */
  lemma PeerDerives(s: Suite, h: Header, secret: Bytes)
    ensures
      var w := WireHeader(s, h, secret);
      && UpCipher(s, w, secret) == UpCipher(s, h, secret)
      && DownCipher(s, w, secret) == DownCipher(s, h, secret)
      && Ctr(s, UpCipher(s, w, secret), 0, w)[56..] == h[56..]
  {
    hide Keystream, XorByte;
    var w := WireHeader(s, h, secret);
    var c := UpCipher(s, h, secret);
    assert w[8..40] == h[8..40] && w[40..56] == h[40..56];
    var r, q := Reversal.Reverse(h), Reversal.Reverse(w);
    forall i | 8 <= i < 56
      ensures r[i] == q[i]
    {}
    assert r[8..40] == q[8..40] && r[40..56] == q[40..56];
    forall i | 56 <= i < 64
      ensures Ctr(s, c, 0, w)[i] == h[i]
    {
      assert w[i] == Ctr(s, c, 0, h)[i];
      XorByteInvolutive(h[i], Keystream(s, c, i));
    }
    assert Ctr(s, c, 0, w)[56..] == h[56..];
  }

  /** From a marked header the peer reads back the tag and the data-centre number. */
  lemma MarkRecovered(h: Header, tag: Tag, dc: int)
    requires -0x8000 <= dc < 0x8000
    ensures
      var m := Marked(h, tag, dc);
      var word := LeNat(m[60..62]);
      m[56..60] == tag && dc == (if word < 0x8000 then word else word - 0x1_0000)
  {
    hide Le, LeNat;
    var m := Marked(h, tag, dc);
    assert m[56..60] == tag && m[60..62] == Le(dc % 0x1_0000, 2);
    Widths();
    LeRoundTrip(dc % 0x1_0000, 2);
  }

  /** The writes that a connection makes after its header, for the given pieces. */
  function Obfuscated(s: Suite, c: Cipher, pos: nat, pieces: seq<Bytes>): (out: seq<Bytes>)
    ensures |out| == |pieces|
  {
    if pieces == [] then []
    else
      var init := pieces[..|pieces| - 1];
      Obfuscated(s, c, pos, init) + [Ctr(s, c, pos + |Joined(init)|, pieces[|pieces| - 1])]
  }

  /** However the stream is cut into writes, it is one application of the keystream. */
  lemma {:induction false} ObfuscatedJoined(s: Suite, c: Cipher, pos: nat, pieces: seq<Bytes>)
    ensures Joined(Obfuscated(s, c, pos, pieces)) == Ctr(s, c, pos, Joined(pieces))
    decreases |pieces|
  {
    hide Ctr;
    if pieces != [] {
      var init, last := pieces[..|pieces| - 1], pieces[|pieces| - 1];
      ObfuscatedJoined(s, c, pos, init);
      CtrAppend(s, c, pos, Joined(init), last);
      var out := Obfuscated(s, c, pos, pieces);
      assert out[..|out| - 1] == Obfuscated(s, c, pos, init);
    }
  }

  lemma ObfuscatedSnoc(s: Suite, c: Cipher, pos: nat, pieces: seq<Bytes>, p: Bytes)
    ensures Obfuscated(s, c, pos, pieces + [p]) == Obfuscated(s, c, pos, pieces) + [Ctr(s, c, pos + |Joined(pieces)|, p)]
    ensures Joined(pieces + [p]) == Joined(pieces) + p
  {
    hide Ctr;
    JoinedSnoc(pieces, p);
    assert (pieces + [p])[..|pieces + [p]| - 1] == pieces;
  }

  // ---- the connection

  /**
   * One end of the obfuscated stream. The client's end has written the header and starts
   * at offset 64 upwards and 0 downwards; the peer's end, which the repository does not
   * have, mirrors it.
   */
  class ObfConn {
    const suite: Suite
    const carrier: Carrier
    const up: Cipher
    const down: Cipher
    var sentBytes: nat
    var readBytes: nat
    ghost const origin: nat
    ghost const head: seq<Bytes>
    ghost var pieces: seq<Bytes>  // what the caller wrote

    /** The carrier got the header, if this end sends one, and the keystream applied piece by piece. */
    ghost predicate Valid()
      reads this, carrier.Parts()
    {
      && carrier.Valid() && sentBytes == origin + |Joined(pieces)|
      && carrier.Log() == head + Obfuscated(suite, up, origin, pieces)
    }

    /** An end whose header, if it sends one, has just been written; both positions are given. */
    constructor (suite: Suite, carrier: Carrier, up: Cipher, down: Cipher, sentBytes: nat, readBytes: nat)
      requires carrier.Valid()
      ensures Valid() && pieces == [] && this.readBytes == readBytes && origin == sentBytes && head == carrier.Log()
      ensures this.suite == suite && this.carrier == carrier && this.up == up && this.down == down
    {
      this.suite, this.carrier, this.up, this.down := suite, carrier, up, down;
      this.sentBytes, this.readBytes, origin, head, pieces := sentBytes, readBytes, sentBytes, carrier.Log(), [];
      new;
      hide Ctr, Carrier.Valid, Carrier.Log;
      NothingObfuscated(suite, up, sentBytes, head);
    }

    /** Lines 62-66: every write continues the stream where the last one ended. */
    method Write(p: Bytes)
      requires Valid()
      modifies this`sentBytes, this`pieces, carrier.Parts()
      ensures Valid() && pieces == old(pieces) + [p] && Pending() == old(Pending())
      ensures
        var from, to := old(sentBytes), old(sentBytes) + |p|;
        && sentBytes == to
        && carrier.Log() == old(carrier.Log()) + [Xor(p, KeyBlocks(suite, up, to / 16 + 1)[from..to])]
      ensures carrier.Socket().input == old(carrier.Socket().input) && carrier.Buffered() == old(carrier.Buffered())
    {
      hide Ctr, Xor, KeyBlocks, Obfuscated, Joined, Carrier.Valid, Carrier.Pending, Carrier.Log, Carrier.Buffered;
      CtrCuts(suite, up, sentBytes, p, (sentBytes + |p|) / 16 + 1);
      carrier.Write(Ctr(suite, up, sentBytes, p));
      ObfuscatedSnoc(suite, up, origin, pieces, p);
      sentBytes := sentBytes + |p|;
      pieces := pieces + [p];
    }

    /** What can still be read, decrypted. */
    function Pending(): Bytes
      reads this, carrier.Parts()
    {
      Ctr(suite, down, readBytes, carrier.Pending())
    }

    /** Lines 68-75: the carrier's bytes are decrypted at the reading position. */
    method ReadFull(n: nat) returns (r: Result<Bytes>)
      requires Valid()
      modifies this`readBytes, carrier.Parts()
      ensures Valid() && carrier.Socket().writes == old(carrier.Socket().writes)
      ensures
        r.Ok? ==>
          var from, to := old(readBytes), old(readBytes) + n;
          && readBytes == to && n <= |old(carrier.Pending())|
          && r.value == Xor(old(carrier.Pending())[..n], KeyBlocks(suite, down, to / 16 + 1)[from..to])
      ensures r.Ok? <==> n <= |old(Pending())|
      ensures r.Ok? ==> r.value == old(Pending())[..n] && Pending() == old(Pending())[n..]
      ensures r.Err? ==> r.error in {UnexpectedEof, BadRecordType}
    {
      hide Ctr, Xor, KeyBlocks, Obfuscated;
      ghost var before := carrier.Pending();
      var bytes := carrier.ReadFull(n);
      if bytes.Err? { return bytes; }
      CtrSplit(suite, down, readBytes, before, n);
      CtrCuts(suite, down, readBytes, bytes.value, (readBytes + n) / 16 + 1);
      r := Ok(Ctr(suite, down, readBytes, bytes.value));
      readBytes := readBytes + n;
    }
  }

  /** Lines 24-60, from the header that was drawn; nothing was written to the carrier before. */
  method NewObfConn(suite: Suite, h: Header, secret: Bytes, carrier: Carrier) returns (c: ObfConn)
    requires carrier.Valid() && carrier.Log() == []
    modifies carrier.Parts()
    ensures c.Valid() && fresh(c) && c.suite == suite && c.carrier == carrier
    ensures c.up == UpCipher(suite, h, secret) && c.down == DownCipher(suite, h, secret)
    ensures c.pieces == [] && c.readBytes == 0 && c.origin == 64 && c.head == [WireHeader(suite, h, secret)]
    ensures carrier.Socket().input == old(carrier.Socket().input) && carrier.Buffered() == old(carrier.Buffered())
    ensures carrier.Pending() == old(carrier.Pending())
  {
    hide Ctr, Obfuscated, WireHeader, UpCipher, DownCipher, ObfConn.Valid, Carrier.Valid, Carrier.Pending, Carrier.Log, Carrier.Buffered;
    var up, down := UpCipher(suite, h, secret), DownCipher(suite, h, secret);
    var encrypted := Ctr(suite, up, 0, h);
    WireIs(suite, h, secret);
    carrier.Write(h[..56] + encrypted[56..64]);
    c := new ObfConn(suite, carrier, up, down, 64, 0);
  }

  lemma WireIs(s: Suite, h: Header, secret: Bytes)
    ensures WireHeader(s, h, secret) == h[..56] + Ctr(s, UpCipher(s, h, secret), 0, h)[56..64]
  {
    hide Ctr;
  }

  lemma NothingObfuscated(s: Suite, c: Cipher, pos: nat, head: seq<Bytes>)
    ensures head + Obfuscated(s, c, pos, []) == head && Joined([]) == [] && [] + head == head
  {}

  lemma CtrSplit(s: Suite, c: Cipher, pos: nat, data: Bytes, n: nat)
    requires n <= |data|
    ensures Ctr(s, c, pos, data)[..n] == Ctr(s, c, pos, data[..n])
    ensures Ctr(s, c, pos, data)[n..] == Ctr(s, c, pos + n, data[n..])
  {
    hide Ctr;
    CtrAppend(s, c, pos, data[..n], data[n..]);
    assert data[..n] + data[n..] == data;
  }
}

/**
 * The whole sending path: framed packets, obfuscated, in TLS records; and an honest peer
 * that undoes it.
 */
module Stack {
  import opened Bytes
  import opened Conns
  import opened Crypto
  import opened Wrappers
  import opened Transport
  import opened Obfuscate
  import opened Records
  import AuthKey
  import Factorize
  import Plaintext
  import RsaPad
  import Session
  import Tl

  /** The packet bytes of each message, one write per message. */
  function Packets(kind: Kind, ms: seq<Sent>): (ps: seq<Bytes>)
    ensures |ps| == |ms|
  {
    seq(|ms|, i requires 0 <= i < |ms| =>
      match Encode(kind, ms[i].payload, ms[i].padding) case Ok(p) => p case Err(_) => [])
  }

  /** The tag of a direct connection goes in front of the first packet. */
  function Tagged(tag: Option<Bytes>, ps: seq<Bytes>): seq<Bytes> {
    if tag.None? || ps == [] then ps else [tag.value + ps[0]] + ps[1..]
  }

  /** internal/mtproto/transport.go, lines 35-55: the tags of direct connections. */
  function DirectTag(kind: Kind): Bytes {
    match kind
    case Intermediate => [0xEE, 0xEE, 0xEE, 0xEE]
    case Abridged => [0xEF]
    case PaddedIntermediate => [0xDD, 0xDD, 0xDD, 0xDD]
  }

  // ---- streams

  /** internal/mtproto/auth.go, lines 323-416: messages sent and received over a link. */
  class Stream {
    const link: Link
    const kind: Kind
    var tagFirst: Option<Bytes>
    ghost const tag: Option<Bytes>
    ghost var accepted: seq<Sent>  // the messages that were not refused

    /** The link was given one packet per accepted message, the first behind the tag. */
    ghost predicate Valid()
      reads this, link.Parts()
    {
      && link.Valid() && tagFirst == (if accepted == [] then tag else None)
      && link.Log() == Tagged(tag, Packets(kind, accepted))
    }

    constructor (link: Link, kind: Kind, tagFirst: Option<Bytes>)
      requires link.Valid() && link.Log() == []
      ensures Valid() && accepted == [] && this.link == link && this.kind == kind && tag == tagFirst
    {
      this.link, this.kind, this.tagFirst, tag, accepted := link, kind, tagFirst, tagFirst, [];
    }

    /** Lines 371-387. */
    method SendRaw(message: Bytes, padding: Bytes) returns (refused: Option<Error>)
      requires Valid()
      modifies this`tagFirst, this`accepted, link.Parts()
      ensures Valid() && link.Pending() == old(link.Pending()) && link.ReadState() == old(link.ReadState())
      ensures refused.Some? <==> Encode(kind, message, padding).Err?
      ensures accepted == if refused.Some? then old(accepted) else old(accepted) + [Sent(message, padding)]
    {
      hide Encode, Link.Valid, Link.Pending, Link.ReadState, Link.Log;
      var packet := Encode(kind, message, padding);
      if packet.Err? {
        return Some(packet.error);
      }
      PacketsSnoc(kind, accepted, Sent(message, padding));
      TaggedSnoc(tag, Packets(kind, accepted), packet.value);
      var bytes := packet.value;
      if tagFirst.Some? {
        bytes := tagFirst.value + bytes;
        tagFirst := None;
      }
      link.Write(bytes);
      accepted := accepted + [Sent(message, padding)];
      return None;
    }

    /** Lines 407-416. */
    method RecvRaw() returns (p: Result<Bytes>)
      requires Valid()
      modifies link.Parts()
      ensures Valid() && Reads(Decode(kind, old(link.Pending())), p, link.Pending())
    {
      hide DecodePrefixed, DecodeWords, Packets, Link.Valid, Link.Pending, Link.Log;
      match kind
      case Intermediate => p := DecodeIntermediate(link);
      case Abridged => p := DecodeAbridged(link);
      case PaddedIntermediate => p := DecodePadded(link);
    }
  }

  lemma PacketsSnoc(kind: Kind, ms: seq<Sent>, m: Sent)
    requires Encode(kind, m.payload, m.padding).Ok?
    ensures Packets(kind, ms + [m]) == Packets(kind, ms) + [Encode(kind, m.payload, m.padding).value]
  {
    hide Encode;
  }

  lemma TaggedSnoc(tag: Option<Bytes>, ps: seq<Bytes>, p: Bytes)
    ensures Tagged(tag, ps + [p]) == Tagged(tag, ps) + [if ps == [] && tag.Some? then tag.value + p else p]
  {
    if ps != [] { assert (ps + [p])[1..] == ps[1..] + [p]; }
  }

  /** A series of sends: none of these messages is refused. */
  method SendAll(st: Stream, ms: seq<Sent>)
    requires st.Valid() && AllCarried(st.kind, ms)
    modifies st`tagFirst, st`accepted, st.link.Parts()
    ensures st.Valid() && st.accepted == old(st.accepted) + ms
    ensures st.link.Pending() == old(st.link.Pending()) && st.link.ReadState() == old(st.link.ReadState())
  {
    hide Encode, Carries, Stream.Valid, Link.Pending, Link.ReadState;
    for i := 0 to |ms|
      invariant st.Valid() && st.accepted == old(st.accepted) + ms[..i]
      invariant st.link.Pending() == old(st.link.Pending()) && st.link.ReadState() == old(st.link.ReadState())
    {
      CarriedEncodes(st.kind, ms[i]);
      var refused := st.SendRaw(ms[i].payload, ms[i].padding);
    }
  }

  lemma CarriedEncodes(kind: Kind, m: Sent)
    requires Carries(kind, m.payload, m.padding)
    ensures Encode(kind, m.payload, m.padding).Ok?
  {}

  /** A series of receives, over reads of whatever sizes, yields the messages that were packed. */
  method ReceiveAll(st: Stream, n: nat, ghost ms: seq<Sent>, ghost rest: Bytes) returns (got: seq<Bytes>)
    requires st.Valid() && AllCarried(st.kind, ms) && |ms| == n
    requires st.link.Pending() == EncodeAll(st.kind, ms) + rest
    modifies st.link.Parts()
    ensures st.Valid() && st.accepted == old(st.accepted)
    ensures got == PayloadsOf(ms) && st.link.Pending() == rest
  {
    hide Encode, Decode, Carries, EncodeAll, Stream.Valid, Link.Pending;
    got := [];
    for i := 0 to n
      invariant st.Valid() && got == PayloadsOf(ms[..i])
      invariant st.link.Pending() == EncodeAll(st.kind, ms[i..]) + rest
    {
      NextDecodes(st.kind, ms[i..], rest);
      var p := st.RecvRaw();
      assert ms[i..][0] == ms[i] && ms[i..][1..] == ms[i + 1..];
      got := got + [p.value];
    }
    NothingEncoded(st.kind, rest);
    assert ms[n..] == [] && ms[..n] == ms;
  }

  lemma NothingEncoded(kind: Kind, rest: Bytes)
    ensures EncodeAll(kind, []) + rest == rest
  {}

  lemma NextDecodes(kind: Kind, ms: seq<Sent>, rest: Bytes)
    requires AllCarried(kind, ms) && ms != []
    ensures Decode(kind, EncodeAll(kind, ms) + rest) == Ok(Packet(ms[0].payload, EncodeAll(kind, ms[1..]) + rest))
  {
    hide Encode, Decode, Carries;
    var later := EncodeAll(kind, ms[1..]) + rest;
    DecodesExactly(kind, ms[0].payload, ms[0].padding, later);
    assert EncodeAll(kind, ms) + rest == Encode(kind, ms[0].payload, ms[0].padding).value + later;
  }

  // ---- what arrives at the other end

  lemma {:induction false} PacketsJoined(kind: Kind, ms: seq<Sent>)
    ensures Joined(Packets(kind, ms)) == EncodeAll(kind, ms)
    decreases |ms|
  {
    hide Encode;
    if ms != [] {
      var ps := Packets(kind, ms);
      assert ps == [ps[0]] + Packets(kind, ms[1..]);
      JoinedFront(ps[0], Packets(kind, ms[1..]));
      PacketsJoined(kind, ms[1..]);
    }
  }

  /** What a carrier has put on the wire since it was opened. */
  ghost function Wire(c: Carrier): Bytes
    requires c.Valid()
    reads c.Parts()
  {
    TlsBase(c);
    if c.Raw? then Joined(c.conn.writes) else Joined(c.tls.conn.writes)[|c.tls.base|..]
  }

  lemma TlsBase(c: Carrier)
    requires c.Valid()
    ensures c.Tls? ==> |c.tls.base| <= |Joined(c.tls.conn.writes)|
  {}

  /** What a carrier of the same kind reads from such a wire. */
  function Delivered(tls: bool, wire: Bytes): Bytes { if tls then Carried(wire) else wire }

  /** A carrier delivers exactly what was written to its other end, through records or not. */
  lemma CarrierDelivers(c: Carrier)
    requires c.Valid()
    ensures Delivered(c.Tls?, Wire(c)) == Joined(c.Log())
  {
    hide Carried, Joined, WrittenAll;
    if c.Tls? {
      var ws := c.tls.writes;
      assert Joined(c.tls.conn.writes)[|c.tls.base|..] == WrittenAll(ws);
      WritesCarried(ws, []);
      NothingCarried();
      assert WrittenAll(ws) + [] == WrittenAll(ws) && Joined(ws) + [] == Joined(ws);
    }
  }

  lemma NothingCarried()
    ensures Carried([]) == []
  {}

  /**
   * In every state of a client's stream, whatever was sent and received so far: its
   * carrier's other end gets the header and one keystream over the accepted packets.
   */
  lemma ClientDelivers(st: Stream, h: Header, secret: Bytes)
    requires st.Valid() && st.link.Hidden? && st.tag == None
    requires st.link.obf.head == [WireHeader(st.link.obf.suite, h, secret)] && st.link.obf.origin == 64
    ensures
      var obf := st.link.obf;
      && obf.Valid() && obf.pieces == Packets(st.kind, st.accepted)
      && Delivered(obf.carrier.Tls?, Wire(obf.carrier))
         == WireHeader(obf.suite, h, secret) + Ctr(obf.suite, obf.up, 64, EncodeAll(st.kind, st.accepted))
  {
    hide Ctr, WireHeader, EncodeAll, Packets, Joined, Carried, WrittenAll, Obfuscated, Wire, Delivered;
    var obf := st.link.obf;
    CarrierDelivers(obf.carrier);
    JoinedFront(WireHeader(obf.suite, h, secret), Obfuscated(obf.suite, obf.up, 64, obf.pieces));
    ObfuscatedJoined(obf.suite, obf.up, 64, obf.pieces);
    PacketsJoined(st.kind, st.accepted);
  }

  /** The same for the peer's end, which sends no header. */
  lemma PeerDelivers(st: Stream)
    requires st.Valid() && st.link.Hidden? && st.tag == None
    requires st.link.obf.head == [] && st.link.obf.origin == 0
    ensures
      var obf := st.link.obf;
      && obf.Valid() && obf.pieces == Packets(st.kind, st.accepted)
      && Delivered(obf.carrier.Tls?, Wire(obf.carrier)) == Ctr(obf.suite, obf.up, 0, EncodeAll(st.kind, st.accepted))
  {
    hide Ctr, EncodeAll, Packets, Joined, Carried, WrittenAll, Obfuscated, Wire, Delivered;
    var obf := st.link.obf;
    CarrierDelivers(obf.carrier);
    assert [] + Obfuscated(obf.suite, obf.up, 0, obf.pieces) == Obfuscated(obf.suite, obf.up, 0, obf.pieces);
    ObfuscatedJoined(obf.suite, obf.up, 0, obf.pieces);
    PacketsJoined(st.kind, st.accepted);
  }

  /** A direct connection: behind its tag the socket carries the bare packets. */
  lemma DirectDelivers(st: Stream)
    requires st.Valid() && st.link.Plain? && st.tag == Some(DirectTag(st.kind)) && st.accepted != []
    ensures Joined(st.link.conn.writes) == DirectTag(st.kind) + EncodeAll(st.kind, st.accepted)
    ensures AllCarried(st.kind, st.accepted) ==>
      DecodeAll(st.kind, Joined(st.link.conn.writes)[|DirectTag(st.kind)|..]) == PayloadsOf(st.accepted)
  {
    hide EncodeAll, DecodeAll, Packets, Joined, Carries;
    var tag := DirectTag(st.kind);
    var ps := Packets(st.kind, st.accepted);
    assert ps == [ps[0]] + ps[1..];
    JoinedFront(tag + ps[0], ps[1..]);
    JoinedFront(ps[0], ps[1..]);
    PacketsJoined(st.kind, st.accepted);
    assert (tag + ps[0]) + Joined(ps[1..]) == tag + (ps[0] + Joined(ps[1..]));
    if AllCarried(st.kind, st.accepted) {
      DecodeAllEncoded(st.kind, st.accepted);
      assert (tag + EncodeAll(st.kind, st.accepted))[|tag|..] == EncodeAll(st.kind, st.accepted);
    }
  }

  /** A carrier on a socket; TLS starts behind whatever the handshake has written. */
  method OpenCarrier(conn: Conn, tls: bool) returns (c: Carrier)
    requires tls || conn.writes == []
    ensures c.Valid() && c.Log() == [] && c.Socket() == conn && c.Tls? == tls && c.Buffered() == []
    ensures c.Pending() == Delivered(tls, conn.input)
    ensures c.Tls? ==> fresh(c.tls) && c.tls.base == Joined(conn.writes)
  {
    if tls {
      var t := new TlsConn(conn);
      assert [] + Carried(conn.input) == Carried(conn.input);
      return Tls(t);
    }
    return Raw(conn);
  }

  /** The peer accepts: it reads the header off its carrier and derives both ciphers from it. */
  method AcceptPeer(s: Suite, secret: Bytes, carrier: Carrier, ghost h: Header, ghost plain: Bytes) returns (obf: ObfConn)
    requires carrier.Valid() && carrier.Log() == []
    requires carrier.Pending() == WireHeader(s, h, secret) + Ctr(s, UpCipher(s, h, secret), 64, plain)
    modifies carrier.Parts()
    ensures obf.Valid() && fresh(obf) && obf.carrier == carrier && obf.suite == s
    ensures obf.pieces == [] && obf.head == [] && obf.origin == 0
    ensures obf.up == DownCipher(s, h, secret) && obf.Pending() == plain
  {
    hide Ctr, WireHeader, UpCipher, DownCipher, Carrier.Valid, Carrier.Pending, Carrier.Log, ObfConn.Valid;
    ghost var all := carrier.Pending();
    ghost var w: Header := WireHeader(s, h, secret);
    HeaderFirst(w, Ctr(s, UpCipher(s, h, secret), 64, plain));
    var header := carrier.ReadFull(64);
    obf := new ObfConn(s, carrier, DownCipher(s, header.value, secret), UpCipher(s, header.value, secret), 0, 64);
    PeerDerives(s, h, secret);
    CtrInvolutive(s, UpCipher(s, h, secret), 64, plain);
  }

  lemma HeaderFirst(w: Header, body: Bytes)
    ensures |w + body| >= 64 && (w + body)[..64] == w && (w + body)[64..] == body
  {}

  lemma JoinedFew(p: Bytes)
    ensures Joined([]) == [] && Joined([p]) == p && [] + [p] == [p]
  {
    assert [p][..0] == [];
  }

  lemma WireBehind(c: Carrier, written: Bytes, base: Bytes)
    requires c.Valid() && written == Joined(c.Socket().writes) && (if c.Tls? then c.tls.base else []) == base
    ensures |base| <= |written| && written[|base|..] == Wire(c)
    ensures base == [] ==> written == Wire(c)
  {
    hide Joined;
    TlsBase(c);
  }

  /** A client's stream over an obfuscated connection, with what is fixed when it is dialled. */
  ghost predicate Dialled(st: Stream, s: Suite, h: Header, secret: Bytes, kind: Kind, tls: bool, hello: Bytes) {
    && st.kind == kind && st.tag == None && st.link.Hidden?
    && var obf := st.link.obf;
    && obf.suite == s && obf.origin == 64 && obf.head == [WireHeader(s, h, secret)]
    && obf.up == UpCipher(s, h, secret) && obf.down == DownCipher(s, h, secret)
    && obf.carrier.Tls? == tls && (tls ==> obf.carrier.tls.base == hello)
  }

  /** The stream at the peer's end. */
  ghost predicate Accepted(st: Stream, s: Suite, h: Header, secret: Bytes, kind: Kind, tls: bool) {
    && st.kind == kind && st.tag == None && st.link.Hidden?
    && var obf := st.link.obf;
    && obf.suite == s && obf.origin == 0 && obf.head == [] && obf.up == DownCipher(s, h, secret)
    && obf.carrier.Tls? == tls && (tls ==> obf.carrier.tls.base == [])
  }

  /** internal/mtproto/probe.go, lines 340-453: socket, TLS carrier behind the hello, obfuscation, stream. */
  method DialStream(s: Suite, h: Header, secret: Bytes, kind: Kind, tls: bool, hello: Bytes) returns (st: Stream, near: Conn)
    ensures Dialled(st, s, h, secret, kind, tls, hello) && fresh(st) && fresh(st.link.Parts())
    ensures st.Valid() && st.accepted == [] && st.link.ReadState() == (0, [], [])
    ensures near == st.link.obf.carrier.Socket()
  {
    hide Ctr, WireHeader, UpCipher, DownCipher, Carried, Packets, Obfuscated, Joined, Delivered;
    JoinedFew(hello);
    near := new Conn([]);
    if tls { near.Write(hello); }
    var carrier := OpenCarrier(near, tls);
    var obf := NewObfConn(s, h, secret, carrier);
    st := new Stream(Hidden(obf), kind, None);
  }

  method AcceptStream(s: Suite, secret: Bytes, kind: Kind, tls: bool, wire: Bytes, ghost h: Header, ghost plain: Bytes)
    returns (st: Stream, far: Conn)
    requires Delivered(tls, wire) == WireHeader(s, h, secret) + Ctr(s, UpCipher(s, h, secret), 64, plain)
    ensures Accepted(st, s, h, secret, kind, tls) && fresh(st) && fresh(st.link.Parts())
    ensures st.Valid() && st.accepted == [] && st.link.Pending() == plain
    ensures far == st.link.obf.carrier.Socket()
  {
    hide Ctr, WireHeader, UpCipher, DownCipher, Carried, Packets, Obfuscated, Joined, Delivered;
    JoinedFew([]);
    far := new Conn(wire);
    var carrier := OpenCarrier(far, tls);
    var obf := AcceptPeer(s, secret, carrier, h, plain);
    st := new Stream(Hidden(obf), kind, None);
  }

  /** The network brings the client some bytes, before it has read any. */
  method Arrive(st: Stream, near: Conn, bytes: Bytes)
    requires st.Valid() && st.link.Hidden? && near == st.link.obf.carrier.Socket()
    requires st.link.ReadState().0 == 0 && st.link.ReadState().1 == []
    modifies near`input
    ensures st.Valid() && st.accepted == old(st.accepted)
    ensures
      var obf := st.link.obf;
      st.link.Pending() == Ctr(obf.suite, obf.down, 0, Delivered(obf.carrier.Tls?, bytes))
  {
    hide Ctr, Carried, Packets, Obfuscated, Joined, WrittenAll;
    near.input := bytes;
    assert [] + Carried(bytes) == Carried(bytes);
  }

  /** Cut off the handshake, the wire of a client's stream is what a peer can accept. */
  lemma DialledDelivers(st: Stream, s: Suite, h: Header, secret: Bytes, kind: Kind, tls: bool, hello: Bytes)
    requires Dialled(st, s, h, secret, kind, tls, hello) && st.Valid()
    ensures
      var wire := Joined(st.link.obf.carrier.Socket().writes);
      var base := if tls then |hello| else 0;
      && base <= |wire|
      && Delivered(tls, wire[base..])
         == WireHeader(s, h, secret) + Ctr(s, UpCipher(s, h, secret), 64, EncodeAll(kind, st.accepted))
  {
    hide Ctr, WireHeader, UpCipher, DownCipher, EncodeAll, Joined, Delivered, Wire, Packets;
    ClientDelivers(st, h, secret);
    WireBehind(st.link.obf.carrier, Joined(st.link.obf.carrier.Socket().writes), if tls then hello else []);
  }

  lemma AcceptedDelivers(st: Stream, s: Suite, h: Header, secret: Bytes, kind: Kind, tls: bool)
    requires Accepted(st, s, h, secret, kind, tls) && st.Valid()
    ensures
      Delivered(tls, Joined(st.link.obf.carrier.Socket().writes))
      == Ctr(s, DownCipher(s, h, secret), 0, EncodeAll(kind, st.accepted))
  {
    hide Ctr, WireHeader, UpCipher, DownCipher, EncodeAll, Joined, Delivered, Wire, Packets;
    PeerDelivers(st);
    WireBehind(st.link.obf.carrier, Joined(st.link.obf.carrier.Socket().writes), []);
  }

  /**
   * In every state of a client's stream, after whatever sends and receives: who sees only
   * the bytes its carrier delivers, and knows the secret, derives the cipher from the first
   * 64 of them and decodes from the rest exactly the messages accepted so far.
   */
  lemma MessagesRecovered(st: Stream, s: Suite, h: Header, secret: Bytes, kind: Kind, tls: bool, hello: Bytes)
    requires Dialled(st, s, h, secret, kind, tls, hello) && st.Valid() && AllCarried(kind, st.accepted)
    ensures
      var wire := Joined(st.link.obf.carrier.Socket().writes);
      var base := if tls then |hello| else 0;
      && base <= |wire|
      && var seen := Delivered(tls, wire[base..]);
      && |seen| >= 64
      && DecodeAll(kind, Ctr(s, UpCipher(s, seen[..64], secret), 64, seen[64..])) == PayloadsOf(st.accepted)
  {
    hide Ctr, WireHeader, UpCipher, EncodeAll, DecodeAll, Joined, Delivered, Carries, Stream.Valid;
    DialledDelivers(st, s, h, secret, kind, tls, hello);
    HeaderFirst(WireHeader(s, h, secret), Ctr(s, UpCipher(s, h, secret), 64, EncodeAll(kind, st.accepted)));
    PeerDerives(s, h, secret);
    CtrInvolutive(s, UpCipher(s, h, secret), 64, EncodeAll(kind, st.accepted));
    DecodeAllEncoded(kind, st.accepted);
  }

  lemma Sides(kind: Kind, ms: seq<Sent>)
    ensures [] + ms == ms && EncodeAll(kind, ms) + [] == EncodeAll(kind, ms)
  {
    hide EncodeAll;
  }

  /**
   * A whole conversation of objects. The client sends a series of messages; the peer, on
   * another socket to which the network brings what was written, recovers exactly those
   * messages in order through reads of arbitrary sizes and answers with a series of its
   * own; the client recovers exactly that. This holds in every framing, over a bare socket
   * and through TLS records.
   */
  method Converse(s: Suite, h: Header, secret: Bytes, kind: Kind, tls: bool, hello: Bytes, ms: seq<Sent>, rs: seq<Sent>)
    returns (requests: seq<Bytes>, replies: seq<Bytes>)
    requires AllCarried(kind, ms) && AllCarried(kind, rs)
    ensures requests == PayloadsOf(ms) && replies == PayloadsOf(rs)
  {
    hide Ctr, WireHeader, UpCipher, DownCipher, EncodeAll, AllCarried, PayloadsOf, Delivered, Joined,
      Stream.Valid, Link.Pending, Link.ReadState;
    Sides(kind, ms);
    Sides(kind, rs);
    var client, near := DialStream(s, h, secret, kind, tls, hello);
    SendAll(client, ms);
    DialledDelivers(client, s, h, secret, kind, tls, hello);
    var wire := Joined(near.writes);

    var server, far := AcceptStream(s, secret, kind, tls, wire[if tls then |hello| else 0..], h, EncodeAll(kind, ms));
    requests := ReceiveAll(server, |ms|, ms, []);
    SendAll(server, rs);
    AcceptedDelivers(server, s, h, secret, kind, tls);

    Arrive(client, near, Joined(far.writes));
    CtrInvolutive(s, DownCipher(s, h, secret), 0, EncodeAll(kind, rs));
    replies := ReceiveAll(client, |rs|, rs, []);
  }

  lemma AbridgedAccepts(p: Bytes)
    requires |p| % 4 == 0
    ensures Encode(Abridged, p, []).Ok?
  {}

  /** Every packet of the key exchange is whole words, so the abridged framing refuses none. */
  lemma FirstWords(d: AuthKey.Draws)
    ensures Encode(Abridged, AuthKey.First(d), []).Ok?
  {
    hide Encode, Tl.FieldsAt, Plaintext.Envelope;
    MessageWords(d.msgId1, AuthKey.ReqPQ(d.nonce));
  }

  lemma SecondWords(s: Suite, keys: seq<RsaPad.RsaKey>, dc: int, d: AuthKey.Draws, res: AuthKey.ResPQ)
    requires AuthKey.Second(s, keys, dc, d, res).Ok?
    ensures Encode(Abridged, AuthKey.Second(s, keys, dc, d, res).value, []).Ok?
  {
    hide Encode, Tl.FieldsAt, Plaintext.Envelope, AuthKey.Padded, AuthKey.Selected, AuthKey.InnerData, AuthKey.BigEndian,
      Factorize.Factored, Factorize.Attempts;
    var f := Factorize.Factored(res.pq, Factorize.Attempts(res.pq, d.words), 0).value;
    var key := AuthKey.Selected(keys, res.fingerprints).value;
    var wire := AuthKey.Padded(s, Tl.FieldsAt(0, AuthKey.InnerData(d, res, f, dc)), key, d).value;
    MessageWords(d.msgId2, AuthKey.ReqDH(d, res, f, key.fingerprint, wire));
  }

  lemma ThirdWords(s: Suite, d: AuthKey.Draws, res: AuthKey.ResPQ, p: AuthKey.FitParams)
    requires AuthKey.Third(s, d, res, p).Ok?
    ensures Encode(Abridged, AuthKey.Third(s, d, res, p).value, []).Ok?
  {
    hide Encode, Tl.FieldsAt, Plaintext.Envelope, AuthKey.SealedInner, AuthKey.ClientInner, AuthKey.Half, AuthKey.TempKeys;
    var (key, iv) := AuthKey.TempKeys(s, d.newNonce, res.serverNonce);
    var data := Tl.FieldsAt(0, AuthKey.ClientInner(d, res, AuthKey.Half(d, p)));
    MessageWords(d.msgId3, AuthKey.SetClientDH(d, res, AuthKey.SealedInner(s, data, key, iv, d.filler).value));
  }

  lemma MessageWords(msgId: nat, fs: seq<Tl.Field>)
    requires forall i :: 0 <= i < |fs| && fs[i].FRaw? ==> |fs[i].p| % 4 == 0
    ensures Encode(Abridged, Plaintext.Envelope(msgId, Tl.FieldsAt(0, fs)), []).Ok?
  {
    hide Encode, Plaintext.Envelope, Tl.FieldsAt;
    Tl.FieldsAligned(0, fs);
    Plaintext.UnwrapsExactly(msgId, Tl.FieldsAt(0, fs));
    AbridgedAccepts(Plaintext.Envelope(msgId, Tl.FieldsAt(0, fs)));
  }

  /** So is every session packet, whatever its body. */
  lemma SessionWords(s: Suite, auth: Session.Auth, x: Session.Side, plain: Bytes)
    requires |plain| % 16 == 0
    ensures Encode(Abridged, Session.Seal(s, auth, x, plain), []).Ok?
  {
    hide Encode, Session.Seal;
    assert (24 + |plain|) % 4 == 0;
    AbridgedAccepts(Session.Seal(s, auth, x, plain));
  }
}

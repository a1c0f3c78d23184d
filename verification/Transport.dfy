/** internal/mtproto/transport.go: the three packet framings. */
module Transport {
  import opened Bytes
  import opened Wrappers
  import opened Conns
  import opened Obfuscate
  import opened Records

  const MAX_PACKET := 0x10_0000
  const WORD := 0x1_0000_0000

  datatype Kind = Intermediate | Abridged | PaddedIntermediate

  /** What a stream reads from and writes to: the bare socket, or the obfuscated connection. */
  datatype Link = Plain(conn: Conn) | Hidden(obf: ObfConn) {
    ghost function Parts(): set<object> { if Plain? then {conn} else {obf} + obf.carrier.Parts() }

    ghost predicate Valid()
      reads Parts()
    {
      Hidden? ==> obf.Valid()
    }

    /** What was written to the link, write by write. */
    ghost function Log(): seq<Bytes>
      reads Parts()
    {
      if Plain? then conn.writes else obf.pieces
    }

    /** What can still be read from it. */
    function Pending(): Bytes
      reads Parts()
    {
      if Plain? then conn.input else obf.Pending()
    }

    /** All that reading depends on. */
    ghost function ReadState(): (nat, Bytes, Bytes)
      reads Parts()
    {
      if Plain? then (0, [], conn.input) else (obf.readBytes, obf.carrier.Buffered(), obf.carrier.Socket().input)
    }

    method Write(p: Bytes)
      requires Valid()
      modifies Parts()
      ensures Valid() && Log() == old(Log()) + [p] && Pending() == old(Pending()) && ReadState() == old(ReadState())
    {
      hide Ctr, ObfConn.Valid, ObfConn.Pending, Carrier.Buffered;
      if Plain? { conn.Write(p); } else { obf.Write(p); }
    }

    method ReadFull(n: nat) returns (r: Result<Bytes>)
      requires Valid()
      modifies Parts()
      ensures Valid() && Log() == old(Log())
      ensures r.Ok? <==> n <= |old(Pending())|
      ensures r.Ok? ==> r.value == old(Pending())[..n] && Pending() == old(Pending())[n..]
      ensures r.Err? ==> r.error in {UnexpectedEof, BadRecordType}
    {
      hide Ctr, ObfConn.Valid, ObfConn.Pending, Carrier.Buffered;
      if Plain? { r := conn.ReadFull(n); } else { r := obf.ReadFull(n); }
    }
  }

  // ---- encoding

  function Prefixed(payload: Bytes): Bytes { Le(|payload|, 4) + payload }

  function WordPrefix(words: nat): Bytes {
    if words < 127 then [words] else [0x7F] + Le(words, 3)
  }

  /** `padding` is the zero to three bytes the random source adds. */
  function Encode(kind: Kind, payload: Bytes, padding: Bytes): Result<Bytes> {
    match kind
    case Intermediate => Ok(Prefixed(payload))
    case PaddedIntermediate => Ok(Prefixed(payload + padding))
    case Abridged => if |payload| % 4 != 0 then Err(Misaligned) else Ok(WordPrefix(|payload| / 4) + payload)
  }

  // ---- decoding

  /** A packet and what is left of the input behind it. */
  datatype Packet = Packet(payload: Bytes, rest: Bytes)

  function Payload(length: nat, input: Bytes): Result<Packet> {
    if length == 0 || length > MAX_PACKET then Err(BadLength)
    else if length > |input| then Err(UnexpectedEof)
    else Ok(Packet(input[..length], input[length..]))
  }

  function DecodePrefixed(input: Bytes): Result<Packet> {
    if |input| < 4 then Err(UnexpectedEof) else Payload(LeNat(input[..4]), input[4..])
  }

  function DecodeWords(input: Bytes): Result<Packet> {
    if |input| < 1 then Err(UnexpectedEof)
    else if input[0] != 0x7F then Payload(4 * input[0] as int, input[1..])
    else if |input| < 4 then Err(UnexpectedEof)
    else Payload(4 * LeNat(input[1..4]), input[4..])
  }

  function Decode(kind: Kind, input: Bytes): Result<Packet> {
    match kind
    case Intermediate => DecodePrefixed(input)
    case Abridged => DecodeWords(input)
    case PaddedIntermediate =>
      var p :- DecodePrefixed(input);
      Ok(Packet(p.payload[..|p.payload| - |p.payload| % 4], p.rest))
  }

  /** Lines 65-75. */
  method DecodeIntermediate(r: Link) returns (p: Result<Bytes>)
    requires r.Valid()
    modifies r.Parts()
    ensures r.Valid() && r.Log() == old(r.Log()) && Reads(DecodePrefixed(old(r.Pending())), p, r.Pending())
  {
    hide LeNat, Link.Valid, Link.Pending, Link.Log, Link.Parts;
    var head := r.ReadFull(4);
    if head.Err? { return head; }
    var length := LeNat(head.value);
    if length <= 0 || length > MAX_PACKET {
      return Err(BadLength);
    }
    p := r.ReadFull(length);
  }

  /** Lines 112-130. */
  method DecodeAbridged(r: Link) returns (p: Result<Bytes>)
    requires r.Valid()
    modifies r.Parts()
    ensures r.Valid() && r.Log() == old(r.Log()) && Reads(DecodeWords(old(r.Pending())), p, r.Pending())
  {
    hide LeNat, Link.Valid, Link.Pending, Link.Log, Link.Parts;
    ghost var input := r.Pending();
    var first := r.ReadFull(1);
    if first.Err? { return first; }
    var words: nat := first.value[0];
    if words == 0x7F {
      var ext := r.ReadFull(3);
      if ext.Err? { return ext; }
      assert ext.value == input[1..4] && r.Pending() == input[4..];
      words := LeNat(ext.value);
    }
    var length := words * 4;
    if length <= 0 || length > MAX_PACKET {
      return Err(BadLength);
    }
    p := r.ReadFull(length);
  }

  /** Lines 89-98. */
  method DecodePadded(r: Link) returns (p: Result<Bytes>)
    requires r.Valid()
    modifies r.Parts()
    ensures r.Valid() && r.Log() == old(r.Log()) && Reads(Decode(PaddedIntermediate, old(r.Pending())), p, r.Pending())
  {
    hide LeNat, DecodePrefixed, Link.Valid, Link.Pending, Link.Log, Link.Parts;
    p := DecodeIntermediate(r);
    if p.Ok? {
      assert p.value[..|p.value|] == p.value;
      var extra := |p.value| % 4;
      if extra != 0 {
        p := Ok(p.value[..|p.value| - extra]);
      }
    }
  }

  /**
   * A decoder returned what the specification says and left the rest of the input, or
   * failed with it; what ends the input early may be a foreign record.
   */
  predicate Reads(spec: Result<Packet>, got: Result<Bytes>, left: Bytes) {
    match spec
    case Ok(packet) => got == Ok(packet.payload) && left == packet.rest
    case Err(e) => got == Err(e) || (e == UnexpectedEof && got == Err(BadRecordType))
  }

  // ---- round trips

  /** The messages each framing carries. */
  predicate Carries(kind: Kind, payload: Bytes, padding: Bytes) {
    match kind
    case Intermediate => 0 < |payload| <= MAX_PACKET
    case Abridged => 0 < |payload| <= MAX_PACKET && |payload| % 4 == 0
    case PaddedIntermediate => 0 < |payload| + |padding| <= MAX_PACKET && |payload| % 4 == 0
  }

  lemma PrefixedDecodes(payload: Bytes, rest: Bytes)
    ensures 0 < |payload| <= MAX_PACKET ==> DecodePrefixed(Prefixed(payload) + rest) == Ok(Packet(payload, rest))
    ensures
      var p := DecodePrefixed(Prefixed(payload) + rest);
      p.Ok? && |p.value.payload| == |payload| ==> 0 < |payload| <= MAX_PACKET
  {
    hide Le, LeNat;
    var input := Prefixed(payload) + rest;
    assert input[..4] == Le(|payload|, 4) && input[4..] == payload + rest;
    Widths();
    if |payload| < WORD { LeRoundTrip(|payload|, 4); }
  }

  lemma WordsDecode(payload: Bytes, rest: Bytes)
    requires |payload| % 4 == 0
    ensures
      DecodeWords(WordPrefix(|payload| / 4) + payload + rest) == Ok(Packet(payload, rest)) <==> 0 < |payload| <= MAX_PACKET
  {
    hide Le, LeNat;
    var words := |payload| / 4;
    var input := WordPrefix(words) + payload + rest;
    if words < 127 {
      assert input[0] == words && input[1..] == payload + rest;
    } else {
      assert input[0] == 0x7F && input[1..4] == Le(words, 3) && input[4..] == payload + rest;
      Widths();
      LeNatRoundTrip(input[1..4]);
      if words < 0x100_0000 { LeRoundTrip(words, 3); }
    }
  }

  /** A packet, whatever follows it, is decoded to the message sent exactly when the framing carries it. */
  lemma DecodesExactly(kind: Kind, payload: Bytes, padding: Bytes, rest: Bytes)
    requires |padding| < 4
    ensures
      var packet := Encode(kind, payload, padding);
      packet.Ok? && Decode(kind, packet.value + rest) == Ok(Packet(payload, rest)) <==> Carries(kind, payload, padding)
  {
    hide DecodePrefixed, DecodeWords, Prefixed, WordPrefix;
    match kind
    case Intermediate =>
      PrefixedDecodes(payload, rest);
    case Abridged =>
      if |payload| % 4 == 0 { WordsDecode(payload, rest); }
    case PaddedIntermediate =>
      PrefixedDecodes(payload + padding, rest);
      var p := DecodePrefixed(Prefixed(payload + padding) + rest);
      PaddedTrim(payload, padding);
      if Decode(kind, Prefixed(payload + padding) + rest) == Ok(Packet(payload, rest)) {
        PaddedLength(payload, padding, rest);
      }
  }

  lemma PaddedTrim(payload: Bytes, padding: Bytes)
    requires |padding| < 4
    ensures
      var both := payload + padding;
      |payload| % 4 == 0 ==> both[..|both| - |both| % 4] == payload
  {}

  /** What padding hides: the decoder can only see a payload of whole words. */
  lemma PaddedLength(payload: Bytes, padding: Bytes, rest: Bytes)
    requires |padding| < 4
    requires Decode(PaddedIntermediate, Prefixed(payload + padding) + rest) == Ok(Packet(payload, rest))
    ensures |payload| % 4 == 0 && 0 < |payload| + |padding| <= MAX_PACKET
  {
    hide Le, LeNat;
    var both := payload + padding;
    var input := Prefixed(both) + rest;
    assert input[..4] == Le(|both|, 4) && input[4..] == both + rest;
    var p := DecodePrefixed(input).value;
    assert |input[4..]| == |p.payload| + |rest|;
    assert |p.payload| == |both|;
  }

  // ---- streams of packets

  datatype Sent = Sent(payload: Bytes, padding: Bytes)

  ghost predicate AllCarried(kind: Kind, ms: seq<Sent>) {
    forall i :: 0 <= i < |ms| ==> |ms[i].padding| < 4 && Carries(kind, ms[i].payload, ms[i].padding)
  }

  function EncodeAll(kind: Kind, ms: seq<Sent>): Bytes {
    if ms == [] then []
    else
      (match Encode(kind, ms[0].payload, ms[0].padding) case Ok(p) => p case Err(_) => []) + EncodeAll(kind, ms[1..])
  }

  /** Decodes packets until the input ends or one is refused. */
  function DecodeAll(kind: Kind, input: Bytes): seq<Bytes>
    decreases |input|
  {
    if input == [] then []
    else
      match Decode(kind, input)
      case Err(_) => []
      case Ok(p) => if |p.rest| < |input| then [p.payload] + DecodeAll(kind, p.rest) else []
  }

  function PayloadsOf(ms: seq<Sent>): seq<Bytes> {
    seq(|ms|, i requires 0 <= i < |ms| => ms[i].payload)
  }

  /** A stream of carried messages is decoded to those messages, in order. */
  lemma {:induction false} DecodeAllEncoded(kind: Kind, ms: seq<Sent>)
    requires AllCarried(kind, ms)
    ensures DecodeAll(kind, EncodeAll(kind, ms)) == PayloadsOf(ms)
    decreases |ms|
  {
    hide Decode, Encode, Carries;
    if ms != [] {
      var m, rest := ms[0], EncodeAll(kind, ms[1..]);
      DecodesExactly(kind, m.payload, m.padding, rest);
      var packet := Encode(kind, m.payload, m.padding).value;
      PacketNonEmpty(kind, m.payload, m.padding);
      DecodeAllEncoded(kind, ms[1..]);
      assert PayloadsOf(ms) == [m.payload] + PayloadsOf(ms[1..]);
    }
  }

  lemma PacketNonEmpty(kind: Kind, payload: Bytes, padding: Bytes)
    requires Encode(kind, payload, padding).Ok?
    ensures |Encode(kind, payload, padding).value| > 0
  {}

  // ---- nothing else is accepted

  /** Each decoder takes exactly the wire forms of packets of 1 byte to 1 MiB; the abridged one also an unneeded long length. */
  lemma DecodesOnly(kind: Kind, input: Bytes, payload: Bytes, rest: Bytes)
    ensures
      Decode(kind, input) == Ok(Packet(payload, rest)) <==>
      match kind
      case Intermediate => 0 < |payload| <= 0x10_0000 && input == Le(|payload|, 4) + payload + rest
      case Abridged =>
        && 0 < |payload| <= 0x10_0000 && |payload| % 4 == 0
        && ((|payload| / 4 != 127 && |payload| / 4 < 256 && input == [|payload| / 4] + payload + rest)
            || input == [0x7F] + Le(|payload| / 4, 3) + payload + rest)
      case PaddedIntermediate =>
        && |payload| % 4 == 0
        && exists padding: Bytes ::
             |padding| < 4 && 0 < |payload + padding| <= 0x10_0000
             && input == Le(|payload + padding|, 4) + (payload + padding) + rest
  {
    hide DecodePrefixed, DecodeWords, Le;
    match kind
    case Intermediate => PrefixedOnly(input, payload, rest);
    case Abridged => WordsOnly(input, payload, rest);
    case PaddedIntermediate =>
      if Decode(kind, input) == Ok(Packet(payload, rest)) {
        var whole := DecodePrefixed(input).value.payload;
        PrefixedOnly(input, whole, rest);
        assert whole == payload + whole[|payload|..];
      }
      if padding: Bytes :|
          |payload| % 4 == 0 && |padding| < 4 && 0 < |payload + padding| <= 0x10_0000
          && input == Le(|payload + padding|, 4) + (payload + padding) + rest {
        PrefixedOnly(input, payload + padding, rest);
        PaddedTrim(payload, padding);
      }
  }

  lemma PrefixedOnly(input: Bytes, payload: Bytes, rest: Bytes)
    ensures DecodePrefixed(input) == Ok(Packet(payload, rest)) <==>
            0 < |payload| <= 0x10_0000 && input == Le(|payload|, 4) + payload + rest
  {
    hide Le, DecodePrefixed;
    if DecodePrefixed(input) == Ok(Packet(payload, rest)) { PrefixedTaken(input, payload, rest); }
    if 0 < |payload| <= 0x10_0000 && input == Le(|payload|, 4) + payload + rest {
      assert Prefixed(payload) + rest == input;
      PrefixedDecodes(payload, rest);
    }
  }

  lemma PrefixedTaken(input: Bytes, payload: Bytes, rest: Bytes)
    requires DecodePrefixed(input) == Ok(Packet(payload, rest))
    ensures 0 < |payload| <= 0x10_0000 && input == Le(|payload|, 4) + payload + rest
  {
    hide Le, LeNat;
    LeNatRoundTrip(input[..4]);
    assert |payload| == LeNat(input[..4]);
    Cut(input, 4, payload, rest);
  }

  ghost predicate ShortForm(input: Bytes, payload: Bytes, rest: Bytes) {
    |payload| / 4 != 127 && |payload| / 4 < 256 && input == [|payload| / 4] + payload + rest
  }

  ghost predicate LongForm(input: Bytes, payload: Bytes, rest: Bytes) {
    input == [0x7F] + Le(|payload| / 4, 3) + payload + rest
  }

  lemma WordsTaken(input: Bytes, payload: Bytes, rest: Bytes)
    requires DecodeWords(input) == Ok(Packet(payload, rest))
    ensures 0 < |payload| <= 0x10_0000 && |payload| % 4 == 0
    ensures ShortForm(input, payload, rest) || LongForm(input, payload, rest)
  {
    hide Le, LeNat;
    Widths();
    if input[0] != 0x7F {
      var w := input[0];
      assert |payload| / 4 == w;
      Cut(input, 1, payload, rest);
      assert input[..1] == [w];
    } else {
      var words := input[1..4];
      LeNatRoundTrip(words);
      assert |payload| / 4 == LeNat(words);
      Cut(input, 4, payload, rest);
      assert input[..4] == [0x7F] + words;
    }
  }

  lemma Cut(input: Bytes, n: nat, payload: Bytes, rest: Bytes)
    requires n <= |input| && |payload| <= |input| - n
    requires payload == input[n..][..|payload|] && rest == input[n..][|payload|..]
    ensures input == input[..n] + payload + rest
  {
    var tail := input[n..];
    assert tail == payload + rest && input == input[..n] + tail;
  }

  lemma ShortTaken(input: Bytes, payload: Bytes, rest: Bytes)
    requires 0 < |payload| <= 0x10_0000 && |payload| % 4 == 0 && ShortForm(input, payload, rest)
    ensures DecodeWords(input) == Ok(Packet(payload, rest))
  {
    hide Le, LeNat;
    assert input[0] == |payload| / 4 && input[1..] == payload + rest;
  }

  lemma LongTaken(input: Bytes, payload: Bytes, rest: Bytes)
    requires 0 < |payload| <= 0x10_0000 && |payload| % 4 == 0 && LongForm(input, payload, rest)
    ensures DecodeWords(input) == Ok(Packet(payload, rest))
  {
    hide Le, LeNat;
    Widths();
    LeRoundTrip(|payload| / 4, 3);
    assert input[0] == 0x7F && input[1..4] == Le(|payload| / 4, 3) && input[4..] == payload + rest;
  }

  lemma WordsOnly(input: Bytes, payload: Bytes, rest: Bytes)
    ensures
      DecodeWords(input) == Ok(Packet(payload, rest)) <==>
      && 0 < |payload| <= 0x10_0000 && |payload| % 4 == 0
      && (ShortForm(input, payload, rest) || LongForm(input, payload, rest))
  {
    hide DecodeWords, ShortForm, LongForm;
    if DecodeWords(input) == Ok(Packet(payload, rest)) { WordsTaken(input, payload, rest); }
    if 0 < |payload| <= 0x10_0000 && |payload| % 4 == 0 {
      if ShortForm(input, payload, rest) { ShortTaken(input, payload, rest); }
      if LongForm(input, payload, rest) { LongTaken(input, payload, rest); }
    }
  }
}

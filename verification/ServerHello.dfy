/**
 * internal/mtproto/faketls.go, lines 161-246: collecting the answer to the camouflage
 * hello, cutting it into TLS records and checking its digest.
 */
module ServerHello {
  import opened Bytes
  import opened Wrappers
  import opened Crypto
  import Conns

  const HANDSHAKE := 0x16
  const CHANGE_CIPHER := 0x14
  const APPLICATION := 0x17

  // ---- records

  /** A record with its header, exactly as long as the header says. */
  predicate Whole(r: Bytes) { |r| >= 5 && |r| == 5 + BeNat(r[3..5]) }

  type Record = r: Bytes | Whole(r) witness [0, 0, 0, 0, 0]

  function Join(rs: seq<Record>): Bytes {
    if rs == [] then [] else rs[0] + Join(rs[1..])
  }

  function Split(data: Bytes): Result<seq<Record>> {
    if data == [] then Ok([])
    else if |data| < 5 then Err(Truncated)
    else
      var end := 5 + BeNat(data[3..5]);
      if end > |data| then Err(Truncated)
      else
        FrontWhole(data, end);
        var rest :- Split(data[end..]);
        Ok([data[..end]] + rest)
  }

  lemma FrontWhole(data: Bytes, end: nat)
    requires 5 <= end <= |data| && end == 5 + BeNat(data[3..5])
    ensures Whole(data[..end])
  {
    assert data[..end][3..5] == data[3..5];
  }

  lemma RecordAhead(r: Record, rest: Bytes)
    ensures
      var data := r + rest;
      && |data| >= 5 && data[..5] == r[..5] && data[3..5] == r[3..5]
      && data[..|r|] == r && data[|r|..] == rest && data[5..|r|] == r[5..] && data[5..][|r| - 5..] == rest
  {}

  lemma {:induction false} SplitJoin(rs: seq<Record>)
    ensures Split(Join(rs)) == Ok(rs)
  {
    hide BeNat;
    if rs != [] {
      RecordAhead(rs[0], Join(rs[1..]));
      SplitJoin(rs[1..]);
      assert [rs[0]] + rs[1..] == rs;
    }
  }

  lemma JoinFirst(r: Record, rs: seq<Record>)
    ensures Join([r] + rs) == r + Join(rs)
  {
    assert ([r] + rs)[1..] == rs;
  }

  function Behind(done: seq<Record>, rest: Result<seq<Record>>): Result<seq<Record>> {
    match rest case Ok(rs) => Ok(done + rs) case Err(e) => Err(e)
  }

  /** One record off the front. */
  lemma SplitStep(data: Bytes, end: nat)
    requires |data| >= 5 && end == 5 + BeNat(data[3..5]) && end <= |data|
    ensures Whole(data[..end])
    ensures Split(data) == Behind([data[..end]], Split(data[end..]))
  {
    hide Whole, BeNat;
    FrontWhole(data, end);
  }

  lemma SplitFront(data: Bytes) returns (end: nat)
    requires Split(data).Ok? && data != []
    ensures |data| >= 5 && end == 5 + BeNat(data[3..5]) && end <= |data|
  {
    hide Whole, BeNat;
    end := 5 + BeNat(data[3..5]);
  }

  lemma {:induction false} JoinSplit(data: Bytes)
    requires Split(data).Ok?
    ensures Join(Split(data).value) == data
    decreases |data|
  {
    if data == [] {
      assert Split(data) == Ok([]);
    } else {
      hide Split, Join, BeNat, Whole;
      var end := SplitFront(data);
      SplitStep(data, end);
      JoinSplit(data[end..]);
      JoinFirst(data[..end], Split(data[end..]).value);
      assert data[..end] + data[end..] == data;
    }
  }

  /** The cut is right exactly when it joins back; so at most one cut exists. */
  lemma SplitExactly(data: Bytes, rs: seq<Record>)
    ensures Split(data) == Ok(rs) <==> Join(rs) == data
  {
    SplitJoin(rs);
    if Split(data) == Ok(rs) { JoinSplit(data); }
  }

  lemma SplitEnds(data: Bytes, done: seq<Record>)
    ensures Behind([], Split(data)) == Split(data) && Behind(done, Split([])) == Ok(done)
  {
    hide Whole, BeNat;
    assert forall rs: seq<Record> :: [] + rs == rs;
    assert done + [] == done;
    assert Split([]) == Ok([]);
  }

  lemma SplitAt(data: Bytes, offset: nat, done: seq<Record>)
    requires offset < |data|
    ensures
      if |data| - offset < 5 then Split(data[offset..]) == Err(Truncated)
      else
        var end := offset + 5 + BeNat(data[offset + 3..offset + 5]);
        if end > |data| then
          Split(data[offset..]) == Err(Truncated)
        else
          && Whole(data[offset..end])
          && Behind(done, Split(data[offset..])) == Behind(done + [data[offset..end]], Split(data[end..]))
  {
    hide Whole, BeNat;
    var here := data[offset..];
    if |here| >= 5 {
      SliceOfDrop(data, offset, 3, 5);
      var end := 5 + BeNat(here[3..5]);
      if end <= |here| {
        SliceOfDrop(data, offset, 0, end);
        SliceOfDrop(data, offset, end, |here|);
        SplitStep(here, end);
        var r: Record := here[..end];
        BehindOne(done, r, Split(here[end..]));
      }
    }
  }

  lemma BehindOne(done: seq<Record>, r: Record, rest: Result<seq<Record>>)
    ensures Behind(done, Behind([r], rest)) == Behind(done + [r], rest)
  {
    hide Whole;
    if rest.Ok? { assert done + ([r] + rest.value) == done + [r] + rest.value; }
  }

  /** Lines 232-246. */
  method SplitTLSRecords(data: Bytes) returns (r: Result<seq<Record>>)
    ensures r == Split(data)
  {
    hide BeNat, Split, Whole, Behind;
    var records: seq<Record> := [];
    var offset := 0;
    SplitEnds(data, []);
    assert data[0..] == data;
    while offset < |data|
      invariant 0 <= offset <= |data| && Split(data) == Behind(records, Split(data[offset..]))
      decreases |data| - offset
    {
      SplitAt(data, offset, records);
      BehindError(records);
      if |data| - offset < 5 { return Err(Truncated); }
      var end := offset + 5 + BeNat(data[offset + 3..offset + 5]);
      if end > |data| { return Err(Truncated); }
      records := records + [data[offset..end]];
      offset := end;
    }
    assert data[offset..] == [];
    SplitEnds(data, records);
    r := Ok(records);
  }

  lemma BehindError(done: seq<Record>)
    ensures Behind(done, Err(Truncated)) == Err(Truncated)
  {}

  // ---- reading up to the handoff record

  datatype Got = Got(response: Bytes, rest: Bytes)

  function ReadHello(out: Bytes, input: Bytes): Result<Got>
    decreases |input|
  {
    if |input| < 5 then Err(UnexpectedEof)
    else if out == [] && input[0] != HANDSHAKE then Err(BadRecordType)
    else
      var end := 5 + BeNat(input[3..5]);
      if end > |input| then Err(UnexpectedEof)
      else if input[0] == APPLICATION then Ok(Got(out + input[..end], input[end..]))
      else if input[0] == HANDSHAKE || input[0] == CHANGE_CIPHER then ReadHello(out + input[..end], input[end..])
      else Err(BadRecordType)
  }

  lemma HeaderSlices(input: Bytes, end: nat)
    requires 5 <= end <= |input|
    ensures
      var h := input[..5];
      && h[0] == input[0] && h[3..5] == input[3..5]
      && h + input[5..][..end - 5] == input[..end] && input[5..][end - 5..] == input[end..]
  {}

  /** Lines 206-230. */
  method ReadServerHello(r: Conns.Conn) returns (res: Result<Bytes>)
    modifies r`input
    ensures
      match ReadHello([], old(r.input))
      case Ok(g) => res == Ok(g.response) && r.input == g.rest
      case Err(e) => res == Err(e)
  {
    hide BeNat;
    var out: Bytes := [];
    while true
      invariant ReadHello([], old(r.input)) == ReadHello(out, r.input)
      decreases |r.input|
    {
      ghost var before := r.input;
      var header := r.ReadFull(5);
      if header.Err? { return Err(header.error); }
      var h := header.value;
      HeaderSlices(before, 5);
      if |out| == 0 && h[0] != HANDSHAKE { return Err(BadRecordType); }
      var size := BeNat(h[3..5]);
      var payload := r.ReadFull(size);
      if payload.Err? { return Err(payload.error); }
      HeaderSlices(before, 5 + size);
      out := out + (h + payload.value);
      if h[0] == APPLICATION { return Ok(out); }
      if h[0] != HANDSHAKE && h[0] != CHANGE_CIPHER { return Err(BadRecordType); }
    }
  }

  /** A handshake record first, and an application record for the first time at the end. */
  ghost predicate Handoff(rs: seq<Record>) {
    && |rs| >= 2 && rs[0][0] == HANDSHAKE && rs[|rs| - 1][0] == APPLICATION
    && forall k :: 0 <= k < |rs| - 1 ==> rs[k][0] in {HANDSHAKE, CHANGE_CIPHER}
  }

  /** The same behind records already read. */
  ghost predicate Continues(out: Bytes, rs: seq<Record>) {
    && rs != [] && rs[|rs| - 1][0] == APPLICATION
    && (out == [] ==> rs[0][0] == HANDSHAKE)
    && forall k :: 0 <= k < |rs| - 1 ==> rs[k][0] in {HANDSHAKE, CHANGE_CIPHER}
  }

  lemma {:induction false} ReadJoin(out: Bytes, rs: seq<Record>, tail: Bytes)
    requires Continues(out, rs)
    ensures ReadHello(out, Join(rs) + tail) == Ok(Got(out + Join(rs), tail))
    decreases |rs|
  {
    hide BeNat;
    var r, rest := rs[0], rs[1..];
    assert Join(rs) + tail == r + (Join(rest) + tail);
    RecordAhead(r, Join(rest) + tail);
    assert (out + r) + Join(rest) == out + Join(rs);
    if rest != [] {
      assert rs[|rs| - 1] == rest[|rest| - 1];
      assert forall k :: 0 <= k < |rest| ==> rest[k] == rs[k + 1];
      ReadJoin(out + r, rest, tail);
    }
  }

  /** The record a successful read takes first. */
  lemma ReadFront(out: Bytes, input: Bytes) returns (r: Record)
    requires ReadHello(out, input).Ok?
    ensures
      && |r| <= |input| && input == r + input[|r|..] && (out == [] ==> r[0] == HANDSHAKE)
      && if r[0] == APPLICATION then ReadHello(out, input) == Ok(Got(out + r, input[|r|..]))
         else r[0] in {HANDSHAKE, CHANGE_CIPHER} && ReadHello(out, input) == ReadHello(out + r, input[|r|..])
  {
    hide BeNat, Whole;
    var end := 5 + BeNat(input[3..5]);
    FrontWhole(input, end);
    r := input[..end];
  }

  lemma ContinuesCons(out: Bytes, r: Record, rest: seq<Record>)
    requires r[0] in {HANDSHAKE, CHANGE_CIPHER} && (out == [] ==> r[0] == HANDSHAKE) && Continues(out + r, rest)
    ensures Continues(out, [r] + rest)
  {
    hide BeNat;
    var rs := [r] + rest;
    assert forall k :: 1 <= k < |rs| ==> rs[k] == rest[k - 1];
  }

  lemma {:induction false} JoinRead(out: Bytes, input: Bytes) returns (rs: seq<Record>)
    requires ReadHello(out, input).Ok?
    ensures
      var g := ReadHello(out, input).value;
      Continues(out, rs) && g.response == out + Join(rs) && input == Join(rs) + g.rest
    decreases |input|
  {
    hide Join, ReadHello;
    var r := ReadFront(out, input);
    if r[0] == APPLICATION {
      rs := [r];
      JoinOne(r);
    } else {
      var rest := JoinRead(out + r, input[|r|..]);
      ContinuesCons(out, r, rest);
      rs := [r] + rest;
      JoinFirst(r, rest);
      Rejoin(out, r, Join(rest), ReadHello(out, input).value.rest);
    }
  }

  lemma Rejoin(a: Bytes, b: Bytes, c: Bytes, d: Bytes)
    ensures (a + b) + c == a + (b + c) && b + (c + d) == (b + c) + d
  {}

  lemma JoinOne(r: Record)
    ensures Join([r]) == r
  {
    JoinFirst(r, []);
    assert [r] + [] == [r] && r + [] == r;
  }

  /**
   * What is read, exactly: the response cuts into whole records that join back to it, the
   * first a handshake, the last the only application record, and nothing behind that
   * record has been consumed.
   */
  lemma ReadExactly(input: Bytes, response: Bytes, rest: Bytes)
    ensures ReadHello([], input) == Ok(Got(response, rest)) <==>
            input == response + rest && Split(response).Ok? && Handoff(Split(response).value)
  {
    hide ReadHello, Split;
    if ReadHello([], input) == Ok(Got(response, rest)) {
      var rs := JoinRead([], input);
      assert [] + Join(rs) == Join(rs);
      SplitJoin(rs);
      assert rs[0][0] == HANDSHAKE;
    }
    if input == response + rest && Split(response).Ok? && Handoff(Split(response).value) {
      var rs := Split(response).value;
      JoinSplit(response);
      ReadJoin([], rs, rest);
      assert [] + Join(rs) == Join(rs);
    }
  }

  // ---- the check

  predicate Opens(rs: seq<Record>) { |rs| >= 2 && rs[0][..3] == [0x16, 0x03, 0x03] }

  predicate Closes(rs: seq<Record>) { |rs| >= 2 && rs[|rs| - 1][0] == APPLICATION }

  predicate Shape(rs: seq<Record>) {
    && Opens(rs) && Closes(rs)
    && forall k :: 1 <= k < |rs| ==> rs[k][0] in {CHANGE_CIPHER, APPLICATION}
  }

  predicate Announces(handshake: Bytes) { |handshake| >= 39 && handshake[0] == 0x02 }

  predicate IsServerHello(handshake: Bytes) {
    Announces(handshake) && 39 + handshake[38] as int <= |handshake|
  }

  function EchoedId(handshake: Bytes): Bytes
    requires IsServerHello(handshake)
  {
    handshake[39..39 + handshake[38] as int]
  }

  function Zeroed(response: Bytes): Bytes
    requires |response| >= 43
  {
    response[..11] + seq(32, _ => 0) + response[43..]
  }

  /** The response carries the digest of itself, with the digest zeroed, behind the client random. */
  predicate Authentic(suite: Suite, response: Bytes, secret: Bytes, clientRandom: Bytes) {
    |response| >= 43 && response[11..43] == suite.hmac(secret, clientRandom + Zeroed(response))
  }

  /** A response that is a ServerHello flight with a handoff record. */
  predicate Complete(response: Bytes) {
    match Split(response)
    case Err(_) => false
    case Ok(rs) => Shape(rs) && IsServerHello(rs[0][5..])
  }

  function IdOf(response: Bytes): Bytes
    requires Complete(response)
  {
    EchoedId(Split(response).value[0][5..])
  }

  lemma FirstIsPrefix(response: Bytes)
    requires Split(response).Ok? && Split(response).value != []
    ensures |Split(response).value[0]| <= |response|
  {
    hide BeNat;
  }

  /** Lines 161-204: accepted are exactly the complete responses that echo the id and are authentic. */
  method VerifyServerHello(suite: Suite, response: Bytes, secret: Bytes, sessionId: Bytes, clientRandom: Bytes)
    returns (failed: Option<Error>)
    ensures failed.None? <==>
            Complete(response) && IdOf(response) == sessionId && Authentic(suite, response, secret, clientRandom)
    ensures failed == Some(DigestMismatch) <==>
            Complete(response) && IdOf(response) == sessionId && !Authentic(suite, response, secret, clientRandom)
    ensures failed == Some(SessionIdMismatch) <==> Complete(response) && IdOf(response) != sessionId
    ensures failed == Some(NoHandoff) <==>
            Split(response).Ok? && Opens(Split(response).value) && !Closes(Split(response).value)
    ensures failed == Some(BadRecordType) <==>
            && Split(response).Ok? && Opens(Split(response).value) && Closes(Split(response).value)
            && !Shape(Split(response).value)
    ensures failed == Some(NoServerHello) <==>
            && Split(response).Ok?
            && (!Opens(Split(response).value) || (Shape(Split(response).value) && !Announces(Split(response).value[0][5..])))
    ensures failed == Some(Truncated) <==>
            || Split(response).Err?
            || (&& Shape(Split(response).value) && Announces(Split(response).value[0][5..])
                && !IsServerHello(Split(response).value[0][5..]))
  {
    hide Split, BeNat;
    var split := SplitTLSRecords(response);
    if split.Err? { SplitErrors(response); return Some(split.error); }
    var records := split.value;
    if |records| < 2 { return Some(NoServerHello); }
    if records[0][..3] != [0x16, 0x03, 0x03] { return Some(NoServerHello); }
    if records[|records| - 1][0] != APPLICATION { return Some(NoHandoff); }
    for k := 1 to |records|
      invariant forall j :: 1 <= j < k ==> records[j][0] in {CHANGE_CIPHER, APPLICATION}
    {
      if records[k][0] != CHANGE_CIPHER && records[k][0] != APPLICATION { return Some(BadRecordType); }
    }
    FirstIsPrefix(response);
    var handshake := records[0][5..];
    if |handshake| < 39 || handshake[0] != 0x02 { return Some(NoServerHello); }
    var idLen := handshake[38] as int;
    if 39 + idLen > |handshake| { return Some(Truncated); }
    if handshake[39..39 + idLen] != sessionId { return Some(SessionIdMismatch); }
    var got := response[11..43];
    var zeroed := response[..11] + seq(32, _ => 0) + response[43..];
    var want := suite.hmac(secret, clientRandom + zeroed);
    failed := if got == want then None else Some(DigestMismatch);
  }

  lemma SplitErrors(data: Bytes)
    requires Split(data).Err?
    ensures Split(data).error == Truncated
  {}

  // ---- an honest proxy

  function RecordOf(kind: byte, payload: Bytes): Record
    requires |payload| < 0x1_0000
  {
    hide Be, BeNat;
    Widths();
    BeRoundTrip(|payload|, 2);
    assert ([kind, 0x03, 0x03] + Be(|payload|, 2) + payload)[3..5] == Be(|payload|, 2);
    [kind, 0x03, 0x03] + Be(|payload|, 2) + payload
  }

  /** A handshake message with room for the digest, echoing an id. */
  ghost predicate Echoes(handshake: Bytes, sessionId: Bytes) {
    && 39 + |sessionId| <= |handshake| < 0x1_0000 && |sessionId| < 0x100
    && handshake[0] == 0x02 && handshake[38] == |sessionId| && handshake[39..39 + |sessionId|] == sessionId
  }

  function Flight(handshake: Bytes, specs: seq<Bytes>, app: Bytes): seq<Record>
    requires |handshake| < 0x1_0000 && |app| < 0x1_0000 && forall p :: p in specs ==> |p| < 0x1_0000
  {
    [RecordOf(HANDSHAKE, handshake)] + Specs(specs) + [RecordOf(APPLICATION, app)]
  }

  function Specs(specs: seq<Bytes>): (rs: seq<Record>)
    requires forall p :: p in specs ==> |p| < 0x1_0000
    ensures forall k :: 0 <= k < |rs| ==> rs[k][0] == CHANGE_CIPHER
  {
    if specs == [] then [] else [RecordOf(CHANGE_CIPHER, specs[0])] + Specs(specs[1..])
  }

  /** The random of the message is the digest over the flight with the random zeroed. */
  function Random(suite: Suite, secret: Bytes, clientRandom: Bytes, handshake: Bytes, behind: Bytes): Digest32
    requires 39 <= |handshake| < 0x1_0000
  {
    var zeroed := handshake[..6] + seq(32, _ => 0) + handshake[38..];
    suite.hmac(secret, clientRandom + (RecordOf(HANDSHAKE, zeroed) + behind))
  }

  function Stamped(handshake: Bytes, random: Digest32): (h: Bytes)
    requires |handshake| >= 39
    ensures |h| == |handshake|
  {
    handshake[..6] + random + handshake[38..]
  }

  /** The digest lies at bytes 11 to 43 of a response that starts with the stamped message. */
  lemma StampPlace(handshake: Bytes, random: Digest32, behind: Bytes)
    requires 39 <= |handshake| < 0x1_0000
    ensures
      var response := RecordOf(HANDSHAKE, Stamped(handshake, random)) + behind;
      && |response| >= 43 && response[11..43] == random
      && Zeroed(response) == RecordOf(HANDSHAKE, Stamped(handshake, seq(32, _ => 0))) + behind
  {
    hide Be, Whole;
    var n := |handshake|;
    var head := [HANDSHAKE, 0x03, 0x03] + Be(n, 2) + handshake[..6];
    var response := RecordOf(HANDSHAKE, Stamped(handshake, random)) + behind;
    assert response == head + random + (handshake[38..] + behind);
    var zero: Digest32 := seq(32, _ => 0);
    assert RecordOf(HANDSHAKE, Stamped(handshake, zero)) + behind == head + zero + (handshake[38..] + behind);
  }

  lemma StampKeepsEcho(handshake: Bytes, random: Digest32, sessionId: Bytes)
    requires Echoes(handshake, sessionId)
    ensures Echoes(Stamped(handshake, random), sessionId)
  {
    var h := Stamped(handshake, random);
    assert h[39..39 + |sessionId|] == handshake[39..39 + |sessionId|];
  }

  lemma FlightShape(handshake: Bytes, specs: seq<Bytes>, app: Bytes, sessionId: Bytes)
    requires Echoes(handshake, sessionId) && |app| < 0x1_0000 && forall p :: p in specs ==> |p| < 0x1_0000
    ensures
      var rs := Flight(handshake, specs, app);
      && Handoff(rs) && Shape(rs) && rs[0][5..] == handshake
      && IsServerHello(handshake) && EchoedId(handshake) == sessionId
  {
    hide Be, Whole, Specs;
    var rs := Flight(handshake, specs, app);
    assert rs[0] == RecordOf(HANDSHAKE, handshake) && rs[|rs| - 1] == RecordOf(APPLICATION, app);
    assert forall k :: 1 <= k < |rs| - 1 ==> rs[k] == Specs(specs)[k - 1];
  }

  /**
   * Whatever an honest proxy answers (a ServerHello that echoes the session id, any number
   * of change-cipher records and a handoff record, stamped with the digest under the
   * shared secret) is read in full, with nothing behind it, and accepted.
   */
  lemma HonestAccepted(suite: Suite, secret: Bytes, sessionId: Bytes, clientRandom: Bytes, handshake: Bytes, specs: seq<Bytes>, app: Bytes, tail: Bytes)
    requires Echoes(handshake, sessionId) && |app| < 0x1_0000 && forall p :: p in specs ==> |p| < 0x1_0000
    ensures
      var behind := Join(Specs(specs) + [RecordOf(APPLICATION, app)]);
      var stamped := Stamped(handshake, Random(suite, secret, clientRandom, handshake, behind));
      var response := Join(Flight(stamped, specs, app));
      && ReadHello([], response + tail) == Ok(Got(response, tail))
      && Complete(response) && IdOf(response) == sessionId && Authentic(suite, response, secret, clientRandom)
  {
    hide ReadHello, Split, Whole, RecordOf, Specs, Zeroed, Stamped, IsServerHello, EchoedId, Handoff, Echoes;
    var last := Specs(specs) + [RecordOf(APPLICATION, app)];
    var behind := Join(last);
    EchoSize(handshake, sessionId);
    var random := Random(suite, secret, clientRandom, handshake, behind);
    var stamped := Stamped(handshake, random);
    StampKeepsEcho(handshake, random, sessionId);
    FlightShape(stamped, specs, app, sessionId);
    var rs := Flight(stamped, specs, app);
    var response := Join(rs);
    assert rs == [RecordOf(HANDSHAKE, stamped)] + last;
    JoinFirst(RecordOf(HANDSHAKE, stamped), last);
    SplitJoin(rs);
    ReadExactly(response + tail, response, tail);
    StampPlace(handshake, random, behind);
    ZeroStamp(handshake);
  }

  lemma EchoSize(handshake: Bytes, sessionId: Bytes)
    requires Echoes(handshake, sessionId)
    ensures 39 <= |handshake| < 0x1_0000
  {}

  lemma ZeroStamp(handshake: Bytes)
    requires |handshake| >= 39
    ensures Stamped(handshake, seq(32, _ => 0)) == handshake[..6] + seq(32, _ => 0) + handshake[38..]
  {}

  /**
   * Reading is laxer than checking: a flight with a second handshake record is collected,
   * and then always refused.
   */
  lemma SecondHandshakeRefused(input: Bytes, k: nat)
    requires ReadHello([], input).Ok?
    requires
      var response := ReadHello([], input).value.response;
      Split(response).Ok? && 1 <= k < |Split(response).value| && Split(response).value[k][0] == HANDSHAKE
    ensures !Complete(ReadHello([], input).value.response)
  {
    hide ReadHello, Split;
  }

  /** Of all 32 bytes in the digest's place, only the digest under the shared secret is accepted. */
  lemma DigestExactly(suite: Suite, secret: Bytes, clientRandom: Bytes, handshake: Bytes, digest: Digest32, behind: Bytes)
    requires 39 <= |handshake| < 0x1_0000
    ensures
      Authentic(suite, RecordOf(HANDSHAKE, Stamped(handshake, digest)) + behind, secret, clientRandom)
      <==> digest == Random(suite, secret, clientRandom, handshake, behind)
  {
    hide RecordOf, Zeroed, Stamped, Whole;
    StampPlace(handshake, digest, behind);
    ZeroStamp(handshake);
  }
}

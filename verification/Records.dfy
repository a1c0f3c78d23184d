/** internal/mtproto/faketls.go, lines 248-297: the TLS record layer of a FakeTLS connection. */
module Records {
  import opened Bytes
  import opened Wrappers
  import opened Conns

  const LIMIT := 16384
  const CHANGE_CIPHER := 0x14
  const APPLICATION := 0x17

  // ---- writing

  const CHANGE_CIPHER_SPEC: Bytes := [0x14, 0x03, 0x03, 0x00, 0x01, 0x01]

  function RecordBytes(kind: byte, payload: Bytes): (r: Bytes)
    ensures |r| == 5 + |payload|
  {
    [kind, 0x03, 0x03] + Be(|payload|, 2) + payload
  }

  /** One application record per 16384 bytes. */
  function DataRecords(p: Bytes): Bytes {
    if p == [] then []
    else if |p| <= LIMIT then RecordBytes(APPLICATION, p)
    else RecordBytes(APPLICATION, p[..LIMIT]) + DataRecords(p[LIMIT..])
  }

  function Written(first: bool, p: Bytes): Bytes {
    (if first then CHANGE_CIPHER_SPEC else []) + DataRecords(p)
  }

  /** Everything a connection sends for a series of writes. */
  function WrittenAll(ws: seq<Bytes>): Bytes {
    if ws == [] then [] else WrittenAll(ws[..|ws| - 1]) + Written(|ws| == 1, ws[|ws| - 1])
  }

  // ---- reading

  datatype Record = Record(kind: byte, payload: Bytes, rest: Bytes)

  /** The record at the front, if it has arrived whole. */
  function Front(input: Bytes): (r: Option<Record>)
    ensures r.Some? ==> |r.value.rest| + 5 + |r.value.payload| == |input|
  {
    if |input| < 5 then None
    else
      var length := BeNat(input[3..5]);
      if 5 + length > |input| then None else Some(Record(input[0], input[5..5 + length], input[5 + length..]))
  }

  /** The application data that can be read before the input ends or a foreign record comes. */
  function Carried(input: Bytes): Bytes
    decreases |input|
  {
    match Front(input)
    case None => []
    case Some(r) =>
      if r.kind == APPLICATION then r.payload + Carried(r.rest)
      else if r.kind == CHANGE_CIPHER then Carried(r.rest)
      else []
  }

  /** A TLS connection over a socket on which the handshake has already been exchanged. */
  class TlsConn {
    const conn: Conn
    var buf: Bytes
    var first: bool
    ghost const base: Bytes       // what the handshake had written
    ghost var writes: seq<Bytes>  // what the caller wrote

    ghost predicate Valid()
      reads this, conn
    {
      Joined(conn.writes) == base + WrittenAll(writes) && first == (writes == [])
    }

    constructor (conn: Conn)
      ensures Valid() && this.conn == conn && base == Joined(conn.writes) && writes == [] && buf == []
    {
      this.conn, buf, first := conn, [], true;
      base, writes := Joined(conn.writes), [];
    }

    /** Lines 258-274. */
    method Write(p: Bytes)
      requires Valid()
      modifies this`first, this`writes, conn`writes
      ensures Valid() && writes == old(writes) + [p] && conn.writes == old(conn.writes) + [Written(old(first), p)]
    {
      hide DataRecords, WrittenAll, Joined;
      var out: Bytes := [];
      if first {
        out := CHANGE_CIPHER_SPEC;
        first := false;
      }
      DataRecordsEnd(p[|p|..]);
      ghost var head := out;
      var start := 0;
      assert p[0..] == p && out + DataRecords(p) == head + DataRecords(p);
      while start < |p|
        invariant 0 <= start && !first && writes == old(writes) && conn.writes == old(conn.writes)
        invariant head + DataRecords(p) == out + if start <= |p| then DataRecords(p[start..]) else []
        decreases |p| - start
      {
        var end := if start + LIMIT < |p| then start + LIMIT else |p|;
        var chunk := p[start..end];
        DataRecordsStep(head + DataRecords(p), out, p, start, end);
        out := out + [0x17, 0x03, 0x03, |chunk| / 256 % 256, |chunk| % 256];
        out := out + chunk;
        start := start + LIMIT;
      }
      assert out + [] == out;
      assert out == Written(old(first), p);
      conn.Write(out);
      RecordsSnoc(old(conn.writes), base, writes, p);
      writes := writes + [p];
    }

    /** What is still to be delivered. */
    function Pending(): Bytes
      reads this, conn
    {
      buf + Carried(conn.input)
    }

    /** Lines 276-297: hands out at most `size` bytes; records are taken in as needed. */
    method Read(size: nat) returns (r: Result<Bytes>)
      modifies this`buf, conn`input
      ensures r.Ok? ==> old(Pending()) == r.value + Pending() && |r.value| <= size
      ensures r.Ok? && size > 0 ==> |r.value| > 0
      ensures r.Err? ==> old(Pending()) == [] && r.error in {UnexpectedEof, BadRecordType}
    {
      while |buf| == 0
        invariant Pending() == old(Pending())
        decreases |buf| == 0, |conn.input|
      {
        ghost var here := conn.input;
        var header := conn.ReadFull(5);
        if header.Err? {
          assert Front(here).None?;
          return Err(UnexpectedEof);
        }
        var length := BeNat(header.value[3..5]);
        assert header.value[3..5] == here[3..5];
        var payload := conn.ReadFull(length);
        if payload.Err? {
          assert Front(here).None?;
          return Err(UnexpectedEof);
        }
        FrontTaken(here, length, payload.value, conn.input);
        if header.value[0] == APPLICATION {
          buf := payload.value;
        } else if header.value[0] != CHANGE_CIPHER {
          return Err(BadRecordType);
        }
      }
      var n := if size < |buf| then size else |buf|;
      r := Ok(buf[..n]);
      assert buf == buf[..n] + buf[n..];
      buf := buf[n..];
    }

    /** Reads exactly n bytes, through as many reads as the records take. */
    method ReadFull(n: nat) returns (r: Result<Bytes>)
      modifies this`buf, conn`input
      ensures r.Ok? <==> n <= |old(Pending())|
      ensures r.Ok? ==> r.value == old(Pending())[..n] && Pending() == old(Pending())[n..]
      ensures r.Err? ==> r.error in {UnexpectedEof, BadRecordType}
    {
      var out: Bytes := [];
      while |out| < n
        invariant |out| <= n && old(Pending()) == out + Pending()
      {
        var piece := Read(n - |out|);
        if piece.Err? {
          return Err(piece.error);
        }
        out := out + piece.value;
      }
      r := Ok(out);
    }
  }

  lemma FrontTaken(input: Bytes, length: nat, payload: Bytes, rest: Bytes)
    requires |input| >= 5 + length && length == BeNat(input[3..5])
    requires payload == input[5..][..length] && rest == input[5..][length..]
    ensures Front(input) == Some(Record(input[0], payload, rest))
  {
    SliceOfDrop(input, 5, 0, length);
    SliceOfDrop(input, 5, length, |input| - 5);
  }

  lemma WrittenSnoc(writes: seq<Bytes>, p: Bytes)
    ensures WrittenAll(writes + [p]) == WrittenAll(writes) + Written(writes == [], p)
  {
    hide Written;
    assert (writes + [p])[..|writes + [p]| - 1] == writes;
  }

  /** One more write behind the records already written. */
  lemma RecordsSnoc(sent: seq<Bytes>, base: Bytes, writes: seq<Bytes>, p: Bytes)
    requires Joined(sent) == base + WrittenAll(writes)
    ensures Joined(sent + [Written(writes == [], p)]) == base + WrittenAll(writes + [p])
  {
    hide Written, Joined, WrittenAll;
    JoinedSnoc(sent, Written(writes == [], p));
    WrittenSnoc(writes, p);
    assert base + (WrittenAll(writes) + Written(writes == [], p)) == base + WrittenAll(writes) + Written(writes == [], p);
  }

  // ---- the carrier of an obfuscated stream

  /** Either the socket itself or TLS records on it. */
  datatype Carrier = Raw(conn: Conn) | Tls(tls: TlsConn) {
    function Socket(): Conn { if Raw? then conn else tls.conn }

    ghost function Parts(): set<object> { if Raw? then {conn} else {tls, tls.conn} }

    ghost predicate Valid()
      reads Parts()
    {
      Tls? ==> tls.Valid()
    }

    /** What was written to the carrier. */
    ghost function Log(): seq<Bytes>
      reads Parts()
    {
      if Raw? then conn.writes else tls.writes
    }

    /** What has arrived and was not handed out. */
    ghost function Buffered(): Bytes
      reads Parts()
    {
      if Raw? then [] else tls.buf
    }

    /** What the carrier can still deliver. */
    function Pending(): Bytes
      reads Parts()
    {
      if Raw? then conn.input else tls.Pending()
    }

    method Write(p: Bytes)
      requires Valid()
      modifies Parts()
      ensures Valid() && Log() == old(Log()) + [p] && Pending() == old(Pending())
      ensures Socket().input == old(Socket().input) && Buffered() == old(Buffered())
    {
      if Raw? { conn.Write(p); } else { tls.Write(p); }
    }

    method ReadFull(n: nat) returns (r: Result<Bytes>)
      requires Valid()
      modifies Parts()
      ensures Valid() && Log() == old(Log()) && Socket().writes == old(Socket().writes)
      ensures r.Ok? <==> n <= |old(Pending())|
      ensures r.Ok? ==> r.value == old(Pending())[..n] && Pending() == old(Pending())[n..]
      ensures r.Err? ==> r.error in {UnexpectedEof, BadRecordType}
    {
      if Raw? { r := conn.ReadFull(n); } else { r := tls.ReadFull(n); }
    }
  }

  /** One record of `whole` moves from what is to come to what is written. */
  lemma DataRecordsStep(whole: Bytes, out: Bytes, p: Bytes, start: nat, end: nat)
    requires start < |p| && end == if start + LIMIT < |p| then start + LIMIT else |p|
    requires whole == out + DataRecords(p[start..])
    ensures
      var chunk := p[start..end];
      whole == out + [0x17, 0x03, 0x03, |chunk| / 256 % 256, |chunk| % 256] + chunk +
               if start + LIMIT <= |p| then DataRecords(p[start + LIMIT..]) else []
  {
    hide DataRecords;
    DataRecordsFront(p, start, end);
    var chunk := p[start..end];
    var rest := if start + LIMIT <= |p| then DataRecords(p[start + LIMIT..]) else [];
    var header := [0x17, 0x03, 0x03, |chunk| / 256 % 256, |chunk| % 256];
    assert out + (header + chunk + rest) == out + header + chunk + rest;
  }

  lemma DataRecordsEnd(p: Bytes)
    requires p == []
    ensures DataRecords(p) == []
  {}

  lemma DataRecordsFront(p: Bytes, start: nat, end: nat)
    requires start < |p| && end == if start + LIMIT < |p| then start + LIMIT else |p|
    ensures
      var chunk := p[start..end];
      DataRecords(p[start..]) == [0x17, 0x03, 0x03, |chunk| / 256 % 256, |chunk| % 256] + chunk +
                                 if start + LIMIT <= |p| then DataRecords(p[start + LIMIT..]) else []
  {
    hide Be;
    var chunk := p[start..end];
    TwoBytes(|chunk|);
    SliceOfDrop(p, start, 0, end - start);
  }

  // ---- what is written is carried

  lemma FrontOfRecord(kind: byte, payload: Bytes, rest: Bytes)
    requires |payload| <= LIMIT
    ensures Front(RecordBytes(kind, payload) + rest) == Some(Record(kind, payload, rest))
  {
    hide Be, BeNat;
    var input := RecordBytes(kind, payload) + rest;
    assert input[3..5] == Be(|payload|, 2);
    Widths();
    BeRoundTrip(|payload|, 2);
  }

  lemma {:induction false} DataCarried(p: Bytes, rest: Bytes)
    ensures Carried(DataRecords(p) + rest) == p + Carried(rest)
    decreases |p|
  {
    hide RecordBytes, Front;
    if p == [] {
      assert DataRecords(p) + rest == rest && p + Carried(rest) == Carried(rest);
    } else if |p| <= LIMIT {
      FrontOfRecord(APPLICATION, p, rest);
    } else {
      var later := DataRecords(p[LIMIT..]) + rest;
      assert DataRecords(p) + rest == RecordBytes(APPLICATION, p[..LIMIT]) + later;
      FrontOfRecord(APPLICATION, p[..LIMIT], later);
      DataCarried(p[LIMIT..], rest);
      assert p == p[..LIMIT] + p[LIMIT..];
      assert p[..LIMIT] + (p[LIMIT..] + Carried(rest)) == p + Carried(rest);
    }
  }

  lemma WrittenCarried(first: bool, p: Bytes, rest: Bytes)
    ensures Carried(Written(first, p) + rest) == p + Carried(rest)
  {
    hide Carried, RecordBytes, DataRecords;
    DataCarried(p, rest);
    if first {
      var later := DataRecords(p) + rest;
      assert Written(first, p) + rest == CHANGE_CIPHER_SPEC + later;
      SpecSkipped(later);
    } else {
      assert Written(first, p) == DataRecords(p);
    }
  }

  lemma SpecSkipped(rest: Bytes)
    ensures Carried(CHANGE_CIPHER_SPEC + rest) == Carried(rest)
  {
    hide Be;
    TwoBytes(1);
    assert CHANGE_CIPHER_SPEC == RecordBytes(CHANGE_CIPHER, [0x01]);
    FrontOfRecord(CHANGE_CIPHER, [0x01], rest);
  }

  /** A series of writes of any sizes is carried as their concatenation. */
  lemma {:induction false} WritesCarried(ws: seq<Bytes>, rest: Bytes)
    ensures Carried(WrittenAll(ws) + rest) == Joined(ws) + Carried(rest)
    decreases |ws|
  {
    hide Carried, Written;
    if ws == [] {
      assert WrittenAll(ws) + rest == rest && Joined(ws) + Carried(rest) == Carried(rest);
    } else {
      var init, last := ws[..|ws| - 1], ws[|ws| - 1];
      var tail := Written(|ws| == 1, last) + rest;
      assert WrittenAll(ws) + rest == WrittenAll(init) + tail;
      WritesCarried(init, tail);
      WrittenCarried(|ws| == 1, last, rest);
      assert Joined(ws) + Carried(rest) == Joined(init) + (last + Carried(rest));
    }
  }

  /** Every record on the wire is application data of TLS 1.2's version, neither empty nor over 2^14 bytes. */
  ghost predicate WithinLimit(input: Bytes)
    decreases |input|
  {
    input == [] ||
    (&& Front(input).Some? && 0 < |Front(input).value.payload| <= 0x4000 && input[..3] == [0x17, 0x03, 0x03]
     && WithinLimit(Front(input).value.rest))
  }

  lemma RecordHead(kind: byte, payload: Bytes, rest: Bytes)
    ensures (RecordBytes(kind, payload) + rest)[..3] == [kind, 0x03, 0x03]
  {}

  lemma {:induction false} DataWithinLimit(p: Bytes)
    ensures WithinLimit(DataRecords(p))
    decreases |p|
  {
    hide RecordBytes, Front;
    if p != [] {
      if |p| <= LIMIT {
        FrontOfRecord(APPLICATION, p, []);
        RecordHead(APPLICATION, p, []);
        assert RecordBytes(APPLICATION, p) + [] == RecordBytes(APPLICATION, p);
      } else {
        FrontOfRecord(APPLICATION, p[..LIMIT], DataRecords(p[LIMIT..]));
        RecordHead(APPLICATION, p[..LIMIT], DataRecords(p[LIMIT..]));
        DataWithinLimit(p[LIMIT..]);
      }
    }
  }
}

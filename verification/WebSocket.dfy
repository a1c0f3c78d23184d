/** internal/webproxy/websocket.go: WebSocket framing, masking and reassembly (RFC 6455, section 5). */
module WebSocket {
  import opened Bytes
  import opened Wrappers
  import Frame

  const MAX_BODY := 0x80_0000
  const TEXT := 0x1
  const BINARY := 0x2
  const CLOSE := 0x8
  const PING := 0x9
  const PONG := 0xA

  type Opcode = k: nat | k < 16
  type Mask = b: Bytes | |b| == 4 witness [0, 0, 0, 0]

  datatype Piece = Piece(final: bool, op: Opcode, payload: Bytes)

  // ---- the wire form

  datatype Form = Short | Medium | Long

  /** What a sender is free to choose: reserved bits, a mask, and a wider length than needed. */
  datatype Shape = Shape(reserved: nat, mask: Option<Mask>, form: Form)

  function Masked(p: Bytes, mask: Mask): (r: Bytes)
    ensures |r| == |p|
  {
    seq(|p|, i requires 0 <= i < |p| => XorByte(p[i], mask[i % 4]))
  }

  lemma MaskedTwice(p: Bytes, mask: Mask)
    ensures Masked(Masked(p, mask), mask) == p
  {
    forall i | 0 <= i < |p| ensures Masked(Masked(p, mask), mask)[i] == p[i] {
      XorByteInvolutive(p[i], mask[i % 4]);
    }
  }

  function LengthCode(n: nat, form: Form): nat {
    match form case Short => n case Medium => 126 case Long => 127
  }

  function Extension(n: nat, form: Form): Bytes {
    match form case Short => [] case Medium => Be(n, 2) case Long => Be(n, 8)
  }

  predicate Fits(n: nat, form: Form) {
    match form case Short => n < 126 case Medium => n < 0x1_0000 case Long => n < 0x1_0000_0000_0000_0000
  }

  predicate Legal(p: Piece, s: Shape) {
    Fits(|p.payload|, s.form) && s.reserved < 8
  }

  function FirstByte(p: Piece, s: Shape): byte
    requires Legal(p, s)
  {
    (if p.final then 128 else 0) + 16 * s.reserved + p.op
  }

  function SecondByte(p: Piece, s: Shape): byte
    requires Legal(p, s)
  {
    (if s.mask.Some? then 128 else 0) + LengthCode(|p.payload|, s.form)
  }

  function Tail(p: Piece, mask: Option<Mask>): Bytes {
    match mask case None => p.payload case Some(m) => m + Masked(p.payload, m)
  }

  function Wire(p: Piece, s: Shape): (b: Bytes)
    requires Legal(p, s)
    ensures |b| >= 2
  {
    [FirstByte(p, s), SecondByte(p, s)] + Extension(|p.payload|, s.form) + Tail(p, s.mask)
  }

  /** The shape of every frame the client sends: masked, and with the shortest length. */
  function ClientShape(n: nat, mask: Mask): (s: Shape)
    ensures n < 0x1_0000_0000_0000_0000 ==> Fits(n, s.form)
  {
    Shape(0, Some(mask), if n < 126 then Short else if n <= 0xFFFF then Medium else Long)
  }

  // ---- reading

  /** io.ReadFull: end of file only before the first byte; the rest is gone either way. */
  function Front(input: Bytes, n: nat): (r: (Result<Bytes>, Bytes))
    ensures r.0.Ok? ==> |r.0.value| == n && input == r.0.value + r.1
    ensures |r.1| <= |input|
  {
    if n <= |input| then (Ok(input[..n]), input[n..])
    else (Err(if input == [] then EndOfFile else UnexpectedEof), [])
  }

  function ExtensionSize(code: nat): nat { if code == 126 then 2 else if code == 127 then 8 else 0 }

  /** The payload behind the length, with its mask if it has one. */
  function ReadTail(input: Bytes, masked: bool, length: nat): (r: (Result<Bytes>, Bytes))
    ensures |r.1| <= |input|
  {
    var (mask, rest) := Front(input, if masked then 4 else 0);
    if mask.Err? then (mask, rest)
    else
      var (payload, rest') := Front(rest, length);
      if payload.Err? then (payload, rest')
      else (Ok(if masked then Masked(payload.value, mask.value) else payload.value), rest')
  }

  function DeclaredLength(code: nat, ext: Bytes): nat { if code >= 126 then BeNat(ext) else code }

  function ReadPiece(input: Bytes): (r: (Result<Piece>, Bytes))
    ensures r.0.Ok? ==> |r.1| + 2 <= |input|
  {
    var (head, rest) := Front(input, 2);
    if head.Err? then (Err(head.error), rest)
    else
      var first, second := head.value[0], head.value[1];
      var (ext, rest') := Front(rest, ExtensionSize(second % 128));
      if ext.Err? then (Err(ext.error), rest')
      else
        var length := DeclaredLength(second % 128, ext.value);
        if length > MAX_BODY then (Err(FrameTooLarge), rest')
        else
          var (payload, rest'') := ReadTail(rest', second >= 128, length);
          if payload.Err? then (Err(payload.error), rest'')
          else (Ok(Piece(first >= 128, first % 16, payload.value)), rest'')
  }

  // ---- reading inverts writing, and nothing else is accepted

  lemma FrontAppend(x: Bytes, rest: Bytes)
    ensures Front(x + rest, |x|) == (Ok(x), rest)
  {}

  lemma TailRoundTrip(p: Piece, mask: Option<Mask>, rest: Bytes)
    ensures ReadTail(Tail(p, mask) + rest, mask.Some?, |p.payload|) == (Ok(p.payload), rest)
  {
    match mask
    case None =>
      FrontAppend([], p.payload + rest);
      assert [] + (p.payload + rest) == p.payload + rest;
      FrontAppend(p.payload, rest);
    case Some(m) =>
      var data := Masked(p.payload, m);
      assert Tail(p, mask) + rest == m + (data + rest);
      FrontAppend(m, data + rest);
      FrontAppend(data, rest);
      MaskedTwice(p.payload, m);
  }

  lemma LengthRoundTrip(n: nat, form: Form)
    requires Fits(n, form)
    ensures
      var code, ext := LengthCode(n, form), Extension(n, form);
      code < 128 && |ext| == ExtensionSize(code) && DeclaredLength(code, ext) == n
  {
    Widths();
    match form
    case Short =>
    case Medium => BeRoundTrip(n, 2);
    case Long => BeRoundTrip(n, 8);
  }

  /** Any legal frame up to the limit is read back; a longer one is refused at its length. */
  lemma WireReads(p: Piece, s: Shape, rest: Bytes)
    requires Legal(p, s)
    ensures |p.payload| <= MAX_BODY ==> ReadPiece(Wire(p, s) + rest) == (Ok(p), rest)
    ensures |p.payload| > MAX_BODY ==>
      ReadPiece(Wire(p, s) + rest) == (Err(FrameTooLarge), Tail(p, s.mask) + rest)
  {
    hide Front, LengthCode, Extension, ExtensionSize, DeclaredLength, ReadTail, Tail;
    var head := [FirstByte(p, s), SecondByte(p, s)];
    var ext := Extension(|p.payload|, s.form);
    LengthRoundTrip(|p.payload|, s.form);
    var behind := Tail(p, s.mask) + rest;
    assert Wire(p, s) + rest == head + (ext + behind);
    FrontAppend(head, ext + behind);
    FrontAppend(ext, behind);
    TailRoundTrip(p, s.mask, rest);
    FirstByteParts(p, s);
  }

  lemma FirstByteParts(p: Piece, s: Shape)
    requires Legal(p, s)
    ensures FirstByte(p, s) >= 128 <==> p.final
    ensures FirstByte(p, s) % 16 == p.op
  {}

  lemma TailShape(input: Bytes, masked: bool, length: nat) returns (mask: Option<Mask>)
    requires ReadTail(input, masked, length).0.Ok?
    ensures
      var (payload, rest) := ReadTail(input, masked, length);
      && |payload.value| == length && mask.Some? == masked
      && forall final, op :: input == Tail(Piece(final, op, payload.value), mask) + rest
  {
    var (m, behind) := Front(input, if masked then 4 else 0);
    var (data, rest) := Front(behind, length);
    if masked {
      MaskedTwice(data.value, m.value);
      assert input == m.value + data.value + rest;
      return Some(m.value);
    } else {
      assert input == data.value + rest;
      return None;
    }
  }

  lemma LengthForm(code: nat, ext: Bytes) returns (form: Form)
    requires code < 128 && |ext| == ExtensionSize(code)
    ensures
      var n := DeclaredLength(code, ext);
      Fits(n, form) && LengthCode(n, form) == code && Extension(n, form) == ext
  {
    Widths();
    if code == 126 {
      BeNatRoundTrip(ext);
      return Medium;
    } else if code == 127 {
      BeNatRoundTrip(ext);
      return Long;
    } else {
      return Short;
    }
  }

  /** What a successful read has consumed is some wire form of the frame it returns. */
  lemma ReadsWire(input: Bytes) returns (s: Shape)
    requires ReadPiece(input).0.Ok?
    ensures
      var (p, rest) := ReadPiece(input);
      Legal(p.value, s) && |p.value.payload| <= MAX_BODY && input == Wire(p.value, s) + rest
  {
    hide Front, LengthCode, Extension, ExtensionSize, DeclaredLength, ReadTail, Tail, Fits;
    var (head, behind) := Front(input, 2);
    var first, second := head.value[0], head.value[1];
    var (ext, behind') := Front(behind, ExtensionSize(second % 128));
    var length := DeclaredLength(second % 128, ext.value);
    var (payload, rest) := ReadTail(behind', second >= 128, length);
    var mask := TailShape(behind', second >= 128, length);
    var form := LengthForm(second % 128, ext.value);
    s := Shape(first / 16 % 8, mask, form);
    var p := Piece(first >= 128, first % 16, payload.value);
    assert FirstByte(p, s) == first;
    assert SecondByte(p, s) == second;
    assert head.value == [first, second];
    assert input == [first, second] + ext.value + (Tail(p, mask) + rest);
  }

  /** Reading accepts exactly the wire forms of frames up to 8 MiB. */
  lemma ReadsExactly(input: Bytes, p: Piece, rest: Bytes)
    ensures ReadPiece(input) == (Ok(p), rest) <==>
            exists s: Shape :: Legal(p, s) && |p.payload| <= MAX_BODY && input == Wire(p, s) + rest
  {
    hide ReadPiece, Wire, Legal;
    if ReadPiece(input) == (Ok(p), rest) {
      var s := ReadsWire(input);
    }
    if s: Shape :| Legal(p, s) && |p.payload| <= MAX_BODY && input == Wire(p, s) + rest {
      WireReads(p, s, rest);
    }
  }

  // ---- reassembly

  /** The random source and the socket: the mask and the fate of the k-th write. */
  datatype Env = Env(mask: nat -> Mask, fails: nat -> bool)

  /** `replies` are the pongs written meanwhile, `writes` counts the attempts. */
  datatype Rx = Rx(result: Result<Bytes>, rest: Bytes, replies: seq<Bytes>, writes: nat)

  /** A client frame; lengths are those of byte slices, far below 2^64. */
  function ClientWire(op: Opcode, payload: Bytes, mask: Mask): Bytes
    requires |payload| < 0x1_0000_0000_0000_0000
  {
    Wire(Piece(true, op, payload), ClientShape(|payload|, mask))
  }

  function ClientHead(op: Opcode, n: nat): Bytes
    requires n < 0x1_0000_0000_0000_0000
  {
    [0x80 + op] + (if n < 126 then [0x80 + n] else if n <= 0xFFFF then [0x80 + 126, n / 0x100, n % 0x100] else [0x80 + 127] + Be(n, 8))
  }

  lemma ClientWireIs(op: Opcode, payload: Bytes, mask: Mask)
    requires |payload| < 0x1_0000_0000_0000_0000
    ensures ClientWire(op, payload, mask) == ClientHead(op, |payload|) + mask + Masked(payload, mask)
  {
    hide Masked, Be;
    var n := |payload|;
    if 126 <= n <= 0xFFFF { TwoBytes(n); }
  }

  lemma PieceLimit(input: Bytes)
    requires ReadPiece(input).0.Ok?
    ensures |ReadPiece(input).0.value.payload| <= MAX_BODY
  {
    hide ReadPiece, Wire;
    var s := ReadsWire(input);
  }

  function Receive(env: Env, writes: nat, input: Bytes, message: Bytes): Rx
    decreases |input|
  {
    var (got, rest) := ReadPiece(input);
    if got.Err? then Rx(Err(got.error), rest, [], writes)
    else
      var p := got.value;
      if p.op == PING then
        if env.fails(writes) then Rx(Err(TransportFailed), rest, [], writes + 1)
        else
          PieceLimit(input);
          var later := Receive(env, writes + 1, rest, message);
          later.(replies := [ClientWire(PONG, p.payload, env.mask(writes))] + later.replies)
      else if p.op == PONG then Receive(env, writes, rest, message)
      else if p.op == CLOSE then Rx(Err(EndOfFile), rest, [], writes)
      else if p.op == TEXT then Rx(Err(TextMessage), rest, [], writes)
      else if p.final then Rx(Ok(message + p.payload), rest, [], writes)
      else Receive(env, writes, rest, message + p.payload)
  }

  // ---- the socket

  class Socket {
    const env: Env
    var unread: Bytes
    var sent: seq<Bytes>
    var writes: nat

    constructor (env: Env, unread: Bytes)
      ensures this.env == env && this.unread == unread && sent == [] && writes == 0
    {
      this.env, this.unread, sent, writes := env, unread, [], 0;
    }

    method ReadFull(n: nat) returns (r: Result<Bytes>)
      modifies this`unread
      ensures (r, unread) == Front(old(unread), n)
    {
      if n <= |unread| {
        r := Ok(unread[..n]);
        unread := unread[n..];
      } else {
        r := Err(if unread == [] then EndOfFile else UnexpectedEof);
        unread := [];
      }
    }

    /** Lines 197-243. */
    method ReadFrame() returns (r: Result<Piece>)
      modifies this`unread
      ensures (r, unread) == ReadPiece(old(unread))
    {
      hide Front, BeNat, Masked;
      var header := ReadFull(2);
      if header.Err? { return Err(header.error); }
      var first, second := header.value[0], header.value[1];
      var length: nat := second % 128;
      if length == 126 {
        var extended := ReadFull(2);
        if extended.Err? { return Err(extended.error); }
        length := BeNat(extended.value);
      } else if length == 127 {
        var extended := ReadFull(8);
        if extended.Err? { return Err(extended.error); }
        length := BeNat(extended.value);
      } else {
        NoExtension(unread);
      }
      if length > MAX_BODY { return Err(FrameTooLarge); }
      var payload := ReadPayload(second >= 128, length);
      if payload.Err? { return Err(payload.error); }
      r := Ok(Piece(first >= 128, first % 16, payload.value));
    }

    /** Lines 226-242, with the payload unmasked byte by byte. */
    method ReadPayload(masked: bool, length: nat) returns (r: Result<Bytes>)
      modifies this`unread
      ensures (r, unread) == ReadTail(old(unread), masked, length)
    {
      hide Front;
      NoExtension(unread);
      var mask: Mask := [0, 0, 0, 0];
      if masked {
        var m := ReadFull(4);
        if m.Err? { return m; }
        mask := m.value;
      }
      r := ReadFull(length);
      if r.Err? || !masked { return; }
      var payload := r.value;
      ghost var sealed := payload;
      for i := 0 to |payload|
        invariant |payload| == |sealed|
        invariant forall j :: 0 <= j < |payload| ==>
          payload[j] == if j < i then XorByte(sealed[j], mask[j % 4]) else sealed[j]
      {
        payload := payload[i := XorByte(payload[i], mask[i % 4])];
      }
      assert payload == Masked(sealed, mask);
      r := Ok(payload);
    }

    /** Lines 168-195. */
    method WriteMessage(op: Opcode, payload: Bytes) returns (failed: Option<Error>)
      requires |payload| < 0x1_0000_0000_0000_0000
      modifies this`sent, this`writes
      ensures writes == old(writes) + 1
      ensures failed == if env.fails(old(writes)) then Some(TransportFailed) else None
      ensures sent == if failed.Some? then old(sent) else old(sent) + [ClientWire(op, payload, env.mask(old(writes)))]
    {
      hide XorByte, Be, ClientWire;
      var header: Bytes := [0x80 + op];
      var length := |payload|;
      if length < 126 {
        header := header + [0x80 + length];
      } else if length <= 0xFFFF {
        header := header + [0x80 + 126, length / 0x100, length % 0x100];
      } else {
        header := header + [0x80 + 127];
        header := header + Be(length, 8);
      }
      assert header == ClientHead(op, length);
      var mask := env.mask(writes);
      header := header + mask;
      var masked := seq(length, _ => 0);
      for i := 0 to length
        invariant |masked| == length
        invariant forall j :: 0 <= j < i ==> masked[j] == XorByte(payload[j], mask[j % 4])
      {
        masked := masked[i := XorByte(payload[i], mask[i % 4])];
      }
      assert masked == Masked(payload, mask);
      ClientWireIs(op, payload, mask);
      writes := writes + 1;
      if env.fails(writes - 1) { return Some(TransportFailed); }
      sent := sent + [header + masked];
      failed := None;
    }

    /** Lines 115-121: an empty body is not sent at all. */
    method Send(frames: Bytes) returns (failed: Option<Error>)
      requires |frames| < 0x1_0000_0000_0000_0000
      modifies this`sent, this`writes
      ensures frames == [] ==> failed == None && sent == old(sent) && writes == old(writes)
      ensures frames != [] ==>
        && writes == old(writes) + 1 && (failed.Some? <==> env.fails(old(writes)))
        && sent == if failed.Some? then old(sent) else old(sent) + [ClientWire(BINARY, frames, env.mask(old(writes)))]
    {
      if |frames| == 0 { return None; }
      failed := WriteMessage(BINARY, frames);
    }

    /** Lines 123-152. */
    method ReceiveMessage() returns (r: Result<Bytes>)
      modifies this`unread, this`sent, this`writes
      ensures
        var rx := Receive(env, old(writes), old(unread), []);
        && r == rx.result && unread == rx.rest && sent == old(sent) + rx.replies && writes == rx.writes
    {
      hide ReadPiece, ClientWire;
      ghost var whole := Receive(env, writes, unread, []);
      var message := [];
      while true
        invariant
          var rx := Receive(env, writes, unread, message);
          && whole.result == rx.result && whole.rest == rx.rest && whole.writes == rx.writes
          && old(sent) + whole.replies == sent + rx.replies
        decreases |unread|
      {
        ghost var before := unread;
        var got := ReadFrame();
        if got.Err? { return Err(got.error); }
        var p := got.value;
        if p.op == PING {
          PieceLimit(before);
          var failed := WriteMessage(PONG, p.payload);
          if failed.Some? { return Err(failed.value); }
          continue;
        } else if p.op == PONG {
          continue;
        } else if p.op == CLOSE {
          return Err(EndOfFile);
        } else if p.op == TEXT {
          return Err(TextMessage);
        }
        message := message + p.payload;
        if p.final { return Ok(message); }
      }
    }

    /** Lines 154-157: a close with status 1000. */
    method Close()
      modifies this`sent, this`writes
      ensures writes == old(writes) + 1
      ensures sent == if env.fails(old(writes)) then old(sent)
                      else old(sent) + [ClientWire(CLOSE, [0x03, 0xE8], env.mask(old(writes)))]
    {
      var ignored := WriteMessage(CLOSE, [0x03, 0xE8]);
    }
  }

  lemma NoExtension(input: Bytes)
    ensures Front(input, 0) == (Ok([]), input)
  {}

  // ---- whole messages

  datatype Shaped = Shaped(piece: Piece, shape: Shape)

  /** One frame a relay sends, in whatever shape, up to the size the client takes. */
  type Sent = x: Shaped | Legal(x.piece, x.shape) && |x.piece.payload| <= MAX_BODY
    witness Shaped(Piece(true, 0, []), Shape(0, None, Short))

  type Payload = b: Bytes | |b| <= MAX_BODY

  /** Frames that neither end a message nor the connection: parts of a message, pings and pongs. */
  ghost predicate Quiet(x: Sent) {
    x.piece.op in {PING, PONG} || (x.piece.op !in {CLOSE, TEXT} && !x.piece.final)
  }

  function Stream(xs: seq<Sent>): Bytes {
    if xs == [] then [] else Wire(xs[0].piece, xs[0].shape) + Stream(xs[1..])
  }

  function Content(xs: seq<Sent>): Bytes {
    if xs == [] then []
    else (if xs[0].piece.op in {PING, PONG} then [] else xs[0].piece.payload) + Content(xs[1..])
  }

  function Pings(xs: seq<Sent>): seq<Payload> {
    if xs == [] then []
    else (if xs[0].piece.op == PING then [xs[0].piece.payload] else []) + Pings(xs[1..])
  }

  function Pongs(env: Env, writes: nat, pings: seq<Payload>): (r: seq<Bytes>)
    ensures |r| == |pings|
    decreases |pings|
  {
    if pings == [] then []
    else [ClientWire(PONG, pings[0], env.mask(writes))] + Pongs(env, writes + 1, pings[1..])
  }

  ghost predicate NoFailure(env: Env, writes: nat, n: nat) {
    forall k :: writes <= k < writes + n ==> !env.fails(k)
  }

  lemma ReceiveOne(env: Env, writes: nat, x: Sent, tail: Bytes, message: Bytes)
    requires Quiet(x) && (x.piece.op == PING ==> !env.fails(writes))
    ensures
      var r := Receive(env, writes, Wire(x.piece, x.shape) + tail, message);
      if x.piece.op == PING then
        var later := Receive(env, writes + 1, tail, message);
        r == later.(replies := [ClientWire(PONG, x.piece.payload, env.mask(writes))] + later.replies)
      else if x.piece.op == PONG then r == Receive(env, writes, tail, message)
      else r == Receive(env, writes, tail, message + x.piece.payload)
  {
    hide ReadPiece, Wire, ClientWire, Legal;
    WireReads(x.piece, x.shape, tail);
  }

  lemma UnfoldStream(xs: seq<Sent>, tail: Bytes)
    requires xs != []
    ensures Stream(xs) + tail == Wire(xs[0].piece, xs[0].shape) + (Stream(xs[1..]) + tail)
  {
    hide Wire;
    var a, b := Wire(xs[0].piece, xs[0].shape), Stream(xs[1..]);
    assert (a + b) + tail == a + (b + tail);
  }

  lemma UnfoldContent(xs: seq<Sent>, message: Bytes)
    requires xs != []
    ensures
      var p := xs[0].piece;
      message + Content(xs) == (if p.op in {PING, PONG} then message else message + p.payload) + Content(xs[1..])
  {
    var p := xs[0].piece;
    var rest := Content(xs[1..]);
    if p.op in {PING, PONG} {
      assert Content(xs) == [] + rest == rest;
    } else {
      assert Content(xs) == p.payload + rest;
      assert message + (p.payload + rest) == (message + p.payload) + rest;
    }
  }

  lemma UnfoldPings(xs: seq<Sent>)
    requires xs != []
    ensures Pings(xs) == (if xs[0].piece.op == PING then [xs[0].piece.payload] else []) + Pings(xs[1..])
  {}

  lemma PongFirst(env: Env, writes: nat, p: Payload, ps: seq<Payload>, later: seq<Bytes>)
    ensures Pongs(env, writes, [p] + ps) + later
         == [ClientWire(PONG, p, env.mask(writes))] + (Pongs(env, writes + 1, ps) + later)
  {
    hide ClientWire;
    assert ([p] + ps)[1..] == ps;
  }

  /** Quiet frames leave nothing behind but their content and one pong for each ping, in order. */
  lemma {:induction false} ReceiveQuiet(env: Env, writes: nat, xs: seq<Sent>, tail: Bytes, message: Bytes)
    requires forall x :: x in xs ==> Quiet(x)
    requires NoFailure(env, writes, |Pings(xs)|)
    ensures
      var later := Receive(env, writes + |Pings(xs)|, tail, message + Content(xs));
      Receive(env, writes, Stream(xs) + tail, message) ==
        later.(replies := Pongs(env, writes, Pings(xs)) + later.replies)
    decreases |xs|
  {
    hide ReadPiece, Receive, Wire, ClientWire, Legal, Stream, Pings, Content, Pongs, Quiet;
    if xs == [] {
      ReceiveNothing(env, writes, tail, message);
    } else {
      var x, rest := xs[0], xs[1..];
      var op := x.piece.op;
      UnfoldStream(xs, tail);
      UnfoldContent(xs, message);
      UnfoldPings(xs);
      ReceiveOne(env, writes, x, Stream(rest) + tail, message);
      if op == PING {
        ReceiveQuiet(env, writes + 1, rest, tail, message);
        PongFirst(env, writes, x.piece.payload, Pings(rest),
                  Receive(env, writes + |Pings(xs)|, tail, message + Content(xs)).replies);
      } else {
        assert Pings(xs) == Pings(rest);
        ReceiveQuiet(env, writes, rest, tail, if op == PONG then message else message + x.piece.payload);
      }
    }
  }

  lemma ReceiveNothing(env: Env, writes: nat, tail: Bytes, message: Bytes)
    ensures Stream([]) + tail == tail && message + Content([]) == message && Pings([]) == []
    ensures forall r: Rx :: r.(replies := Pongs(env, writes, []) + r.replies) == r
  {}

  /**
   * A binary message in any fragmentation, with pings and pongs between its parts: the
   * parts joined come out, every ping is answered with its own payload in order, and
   * nothing behind the last part is touched.
   */
  lemma MessageReceived(env: Env, writes: nat, xs: seq<Sent>, last: Sent, tail: Bytes)
    requires forall x :: x in xs ==> Quiet(x)
    requires last.piece.final && last.piece.op !in {PING, PONG, CLOSE, TEXT}
    requires NoFailure(env, writes, |Pings(xs)|)
    ensures
      Receive(env, writes, Stream(xs) + Wire(last.piece, last.shape) + tail, []) ==
      Rx(Ok(Content(xs) + last.piece.payload), tail, Pongs(env, writes, Pings(xs)), writes + |Pings(xs)|)
  {
    hide ReadPiece, Wire, ClientWire, Legal, Pongs, Pings, Content, Stream;
    var end := Wire(last.piece, last.shape);
    assert Stream(xs) + end + tail == Stream(xs) + (end + tail);
    ReceiveQuiet(env, writes, xs, end + tail, []);
    WireReads(last.piece, last.shape, tail);
    assert [] + Content(xs) == Content(xs);
  }

  /** A close ends the connection and a text frame is an error, wherever in a message they come. */
  lemma MessageCutOff(env: Env, writes: nat, xs: seq<Sent>, last: Sent, tail: Bytes)
    requires forall x :: x in xs ==> Quiet(x)
    requires last.piece.op in {CLOSE, TEXT}
    requires NoFailure(env, writes, |Pings(xs)|)
    ensures
      var r := Receive(env, writes, Stream(xs) + Wire(last.piece, last.shape) + tail, []);
      && r.result == Err(if last.piece.op == CLOSE then EndOfFile else TextMessage)
      && r.rest == tail && |r.replies| == |Pings(xs)|
  {
    hide ReadPiece, Wire, ClientWire, Legal, Pongs, Pings, Content, Stream;
    var end := Wire(last.piece, last.shape);
    assert Stream(xs) + end + tail == Stream(xs) + (end + tail);
    ReceiveQuiet(env, writes, xs, end + tail, []);
    WireReads(last.piece, last.shape, tail);
  }

  /**
   * A body of relay frames handed to the socket comes out of the peer's receive as the
   * same frames, for every mask, as long as the body fits one message.
   */
  lemma BodyCarried(env: Env, frames: seq<Frame.Frame>, mask: Mask, tail: Bytes)
    requires Frame.AllLegal(frames) && frames != [] && |Frame.Wire(frames)| <= MAX_BODY
    ensures
      var r := Receive(env, 0, ClientWire(BINARY, Frame.Wire(frames), mask) + tail, []);
      r.result.Ok? && Frame.Parse(r.result.value) == Ok(frames) && r.rest == tail && r.replies == []
  {
    hide Receive, Frame.Wire, Frame.Parse, Wire;
    var body := Frame.Wire(frames);
    var x: Sent := Shaped(Piece(true, BINARY, body), ClientShape(|body|, mask));
    assert Stream([]) + Wire(x.piece, x.shape) + tail == ClientWire(BINARY, body, mask) + tail;
    MessageReceived(env, 0, [], x, tail);
    assert Content([]) + body == body;
    Frame.ParseWire(frames);
  }

  // ---- masks, and messages that break off

  /** The mask repeats every four bytes. */
  lemma MaskBlocks(mask: Mask, word: Bytes, rest: Bytes)
    requires |word| == 4
    ensures Masked(word + rest, mask) == Xor(word, mask) + Masked(rest, mask)
  {
    hide XorByte;
    var a, b := Masked(word + rest, mask), Xor(word, mask) + Masked(rest, mask);
    forall i | 0 <= i < |a|
      ensures a[i] == b[i]
    {
      if i >= 4 { assert (i - 4) % 4 == i % 4; }
    }
  }

  /** What cannot be read in the middle of a message is reported as it is; a failing pong ends the message too. */
  lemma MessageBroken(env: Env, writes: nat, xs: seq<Sent>, tail: Bytes)
    requires forall x :: x in xs ==> Quiet(x)
    requires NoFailure(env, writes, |Pings(xs)|) && ReadPiece(tail).0.Err?
    ensures
      Receive(env, writes, Stream(xs) + tail, []) ==
      Rx(Err(ReadPiece(tail).0.error), ReadPiece(tail).1, Pongs(env, writes, Pings(xs)), writes + |Pings(xs)|)
  {
    hide ReadPiece, Pongs, Pings, Content, Stream;
    ReceiveQuiet(env, writes, xs, tail, []);
  }

  lemma PongFails(env: Env, writes: nat, xs: seq<Sent>, ping: Sent, tail: Bytes)
    requires forall x :: x in xs ==> Quiet(x)
    requires ping.piece.op == PING && NoFailure(env, writes, |Pings(xs)|) && env.fails(writes + |Pings(xs)|)
    ensures
      var r := Receive(env, writes, Stream(xs) + Wire(ping.piece, ping.shape) + tail, []);
      r.result == Err(TransportFailed) && r.replies == Pongs(env, writes, Pings(xs)) && r.rest == tail
  {
    hide ReadPiece, Wire, ClientWire, Legal, Pongs, Pings, Content, Stream;
    var frame := Wire(ping.piece, ping.shape);
    assert Stream(xs) + frame + tail == Stream(xs) + (frame + tail);
    ReceiveQuiet(env, writes, xs, frame + tail, []);
    WireReads(ping.piece, ping.shape, tail);
  }

  /** The end of the input: clean between frames, unexpected within one. */
  lemma CutShort(input: Bytes)
    ensures input == [] ==> ReadPiece(input).0 == Err(EndOfFile)
    ensures |input| == 1 ==> ReadPiece(input).0 == Err(UnexpectedEof)
  {}
}

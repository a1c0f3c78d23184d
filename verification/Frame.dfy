/** internal/webproxy/frame.go: the multiplexed frame codec. */
module Frame {
  import opened Bytes
  import opened Wrappers

  const OPEN := 0x01
  const DATA := 0x02
  const CLOSE := 0x03
  const WINDOW := 0x04
  const PING := 0x05
  const PONG := 0x06
  const BYE := 0x1F

  const HEADER := 8
  const MAX_PAYLOAD := 0x10_0000

  datatype Frame = Frame(kind: byte, stream: nat, payload: Bytes)

  /** Frames that the header can describe and the decoder admits. */
  predicate Legal(f: Frame) {
    f.stream < 0x100_0000 && |f.payload| <= MAX_PAYLOAD
  }

  predicate AllLegal(fs: seq<Frame>) {
    forall i :: 0 <= i < |fs| ==> Legal(fs[i])
  }

  /** type:u8 | stream:u24 | length:u32 | payload; the integer fields keep their low bytes. */
  function FrameBytes(f: Frame): (b: Bytes)
    ensures |b| == HEADER + |f.payload|
  {
    [f.kind] + Be(f.stream, 3) + Be(|f.payload|, 4) + f.payload
  }

  function Wire(fs: seq<Frame>): Bytes {
    if fs == [] then [] else FrameBytes(fs[0]) + Wire(fs[1..])
  }

  /** The frame at the front of a body, if there is a whole admissible one. */
  function Head(body: Bytes): (r: Result<Frame>)
    ensures r.Ok? ==> HEADER + |r.value.payload| <= |body|
  {
    if |body| < HEADER then Err(Truncated)
    else
      var length := BeNat(body[4..8]);
      if length > MAX_PAYLOAD then Err(FrameTooLarge)
      else if HEADER + length > |body| then Err(Truncated)
      else Ok(Frame(body[0], BeNat(body[1..4]), body[HEADER..HEADER + length]))
  }

  function Parse(body: Bytes): Result<seq<Frame>>
    decreases |body|
  {
    if body == [] then Ok([])
    else
      var f :- Head(body);
      var rest :- Parse(body[HEADER + |f.payload|..]);
      Ok([f] + rest)
  }

  lemma HeadOfFrame(f: Frame, rest: Bytes)
    requires Legal(f)
    ensures Head(FrameBytes(f) + rest) == Ok(f)
    ensures (FrameBytes(f) + rest)[HEADER + |f.payload|..] == rest
  {
    var body := FrameBytes(f) + rest;
    Widths();
    BeRoundTrip(f.stream, 3);
    BeRoundTrip(|f.payload|, 4);
    assert body[1..4] == Be(f.stream, 3);
    assert body[4..8] == Be(|f.payload|, 4);
    assert body[HEADER..HEADER + |f.payload|] == f.payload;
  }

  lemma FrameOfHead(body: Bytes)
    requires Head(body).Ok?
    ensures Legal(Head(body).value)
    ensures FrameBytes(Head(body).value) == body[..HEADER + |Head(body).value.payload|]
  {
    var f := Head(body).value;
    Widths();
    BeNatRoundTrip(body[1..4]);
    BeNatRoundTrip(body[4..8]);
    assert body[..HEADER + |f.payload|] == [body[0]] + body[1..4] + body[4..8] + f.payload;
  }

  /** A frame survives the wire exactly when its stream id and payload fit the limits. */
  lemma FrameRoundTripExactly(f: Frame)
    ensures Head(FrameBytes(f)) == Ok(f) <==> Legal(f)
  {
    assert FrameBytes(f) + [] == FrameBytes(f);
    if Legal(f) { HeadOfFrame(f, []); }
    if Head(FrameBytes(f)) == Ok(f) { FrameOfHead(FrameBytes(f)); }
  }

  /** Decoding undoes encoding, frame list by frame list. */
  lemma {:induction false} ParseWire(fs: seq<Frame>)
    requires AllLegal(fs)
    ensures Parse(Wire(fs)) == Ok(fs)
  {
    hide FrameBytes, Head;
    if fs != [] {
      HeadOfFrame(fs[0], Wire(fs[1..]));
      ParseWire(fs[1..]);
      assert fs == [fs[0]] + fs[1..];
    }
  }

  /** Encoding undoes decoding on every accepted body. */
  lemma {:induction false} WireParse(body: Bytes, fs: seq<Frame>)
    requires Parse(body) == Ok(fs)
    ensures AllLegal(fs) && Wire(fs) == body
    decreases |body|
  {
    if body != [] {
      var f := Head(body).value;
      var n := HEADER + |f.payload|;
      FrameOfHead(body);
      WireParse(body[n..], Parse(body[n..]).value);
      assert fs[0] == f && fs[1..] == Parse(body[n..]).value;
      assert body == body[..n] + body[n..];
    }
  }

  lemma {:induction false} WireAppend(a: seq<Frame>, b: seq<Frame>)
    ensures Wire(a + b) == Wire(a) + Wire(b)
  {
    if a == [] {
      assert a + b == b;
    } else {
      assert (a + b)[1..] == a[1..] + b;
      WireAppend(a[1..], b);
    }
  }

  /** Lines 33-42: the frame is written into one allocated buffer. */
  method EncodeFrame(kind: byte, stream: nat, payload: Bytes) returns (b: Bytes)
    ensures b == FrameBytes(Frame(kind, stream, payload))
  {
    hide Be;
    var out := new byte[HEADER + |payload|](_ => 0);
    out[0] := kind;
    out[1] := stream / 0x1_0000 % 256;
    out[2] := stream / 0x100 % 256;
    out[3] := stream % 256;
    var length := Be(|payload|, 4);
    forall i | 0 <= i < 4 { out[4 + i] := length[i]; }
    forall i | 0 <= i < |payload| { out[HEADER + i] := payload[i]; }
    b := out[..];
    ThreeBytes(stream);
    assert b == out[..1] + out[1..4] + out[4..8] + out[HEADER..];
    assert out[1..4] == Be(stream, 3);
    assert out[4..8] == length;
    assert out[HEADER..] == payload;
  }

  lemma ThreeBytes(v: nat)
    ensures Be(v, 3) == [v / 0x1_0000 % 256, v / 0x100 % 256, v % 256]
  {
    assert Be(v, 3) == Be(v / 256, 2) + [v % 256];
    assert Be(v / 256, 2) == Be(v / 256 / 256, 1) + [v / 256 % 256];
    assert Be(v / 256 / 256, 1) == Be(v / 256 / 256 / 256, 0) + [v / 256 / 256 % 256];
  }

  /** Frames already decoded, followed by the decoding of the rest. */
  function Continue(done: seq<Frame>, rest: Result<seq<Frame>>): Result<seq<Frame>> {
    match rest
    case Ok(fs) => Ok(done + fs)
    case Err(e) => Err(e)
  }

  /** The frame at an offset, in terms of the whole body. */
  lemma HeadAt(body: Bytes, o: nat)
    requires o <= |body|
    ensures |body| - o < HEADER ==> Head(body[o..]) == Err(Truncated)
    ensures
      |body| - o >= HEADER ==>
        var length := BeNat(body[o + 4..o + 8]);
        Head(body[o..]) ==
          if length > MAX_PAYLOAD then Err(FrameTooLarge)
          else if o + HEADER + length > |body| then Err(Truncated)
          else Ok(Frame(body[o], BeNat(body[o + 1..o + 4]), body[o + HEADER..o + HEADER + length]))
  {
    if |body| - o >= HEADER {
      SliceOfDrop(body, o, 4, 8);
      SliceOfDrop(body, o, 1, 4);
      var length := BeNat(body[o + 4..o + 8]);
      if length <= |body| - o - HEADER {
        SliceOfDrop(body, o, HEADER, HEADER + length);
      }
    }
  }

  lemma ParseStep(done: seq<Frame>, body: Bytes, o: nat)
    requires o < |body|
    ensures
      match Head(body[o..])
      case Err(e) => Continue(done, Parse(body[o..])) == Err(e)
      case Ok(f) => o + HEADER + |f.payload| <= |body| &&
                    Continue(done, Parse(body[o..])) == Continue(done + [f], Parse(body[o + HEADER + |f.payload|..]))
  {
    hide Head;
    if Head(body[o..]).Ok? {
      var f := Head(body[o..]).value;
      SliceOfDrop(body, o, 0, HEADER + |f.payload|);
      var later := Parse(body[o + HEADER + |f.payload|..]);
      if later.Ok? {
        assert done + ([f] + later.value) == (done + [f]) + later.value;
      }
    }
  }

  lemma ParseEnds(body: Bytes, done: seq<Frame>)
    ensures Continue([], Parse(body)) == Parse(body)
    ensures Continue(done, Parse([])) == Ok(done)
  {
    assert done + [] == done;
    assert Parse(body).Ok? ==> [] + Parse(body).value == Parse(body).value;
  }

  /** Lines 44-67. */
  method DecodeFrames(body: Bytes) returns (r: Result<seq<Frame>>)
    ensures r == Parse(body)
  {
    hide Parse, Head, Continue;
    var frames: seq<Frame> := [];
    var offset := 0;
    ParseEnds(body, []);
    assert body[0..] == body;
    while offset < |body|
      invariant 0 <= offset <= |body|
      invariant Parse(body) == Continue(frames, Parse(body[offset..]))
      decreases |body| - offset
    {
      HeadAt(body, offset);
      ParseStep(frames, body, offset);
      if |body| - offset < HEADER {
        return Err(Truncated);
      }
      var head := body[offset..offset + HEADER];
      assert head[4..8] == body[offset + 4..offset + 8] && head[1..4] == body[offset + 1..offset + 4];
      var length := BeNat(head[4..8]);
      if length > MAX_PAYLOAD {
        return Err(FrameTooLarge);
      }
      var end := offset + HEADER + length;
      if end > |body| {
        return Err(Truncated);
      }
      frames := frames + [Frame(head[0], BeNat(head[1..4]), body[offset + HEADER..end])];
      offset := end;
    }
    assert body[offset..] == [];
    ParseEnds([], frames);
    return Ok(frames);
  }

  /** Where each field stands: kind, stream and length in the header, most significant byte first. */
  lemma FrameLayout(f: Frame)
    requires Legal(f)
    ensures
      var b := FrameBytes(f);
      && |b| == 8 + |f.payload| && b[0] == f.kind
      && b[1] == f.stream / 0x1_0000 && b[2] == f.stream / 0x100 % 0x100 && b[3] == f.stream % 0x100
      && b[4] == 0 && b[5] == |f.payload| / 0x1_0000 && b[6] == |f.payload| / 0x100 % 0x100 && b[7] == |f.payload| % 0x100
      && b[8..] == f.payload
  {
    hide Be;
    ThreeBytes(f.stream);
    ThreeBytes(|f.payload|);
    LengthBytes(|f.payload|);
    assert f.stream / 0x1_0000 % 256 == f.stream / 0x1_0000 && |f.payload| / 0x1_0000 % 256 == |f.payload| / 0x1_0000;
  }

  lemma LengthBytes(n: nat)
    requires n < 0x100_0000
    ensures Be(n, 4) == [0] + Be(n, 3)
  {
    var q := n / 256;
    assert Be(n, 4) == Be(q, 3) + [n % 256] && Be(n, 3) == Be(q, 2) + [n % 256];
    assert Be(q, 3) == Be(q / 256, 2) + [q % 256] && Be(q, 2) == Be(q / 256, 1) + [q % 256];
    assert Be(q / 256, 2) == Be(q / 256 / 256, 1) + [q / 256 % 256];
    assert q / 256 / 256 == 0 && Be(0, 1) == [0];
    assert Be(q / 256, 1) == [q / 256 % 256];
  }
}

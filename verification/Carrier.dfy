/** internal/webproxy/carrier.go: the carrier object, proved to take the steps of Relay. */
module Carrier {
  import opened Bytes
  import opened Wrappers
  import opened Frame
  import opened Relay
  import RelayRuns

  class Carrier {
    var isOpen: bool
    var isClosed: bool
    var eof: bool
    var readBuf: Bytes
    var windowDebt: nat
    var sent: Bytes  // everything handed to the transport so far
    ghost var state: State

    ghost predicate Valid()
      reads this
    {
      && state.isOpen == isOpen && state.isClosed == isClosed && state.eof == eof
      && state.readBuf == readBuf && state.debt == windowDebt < WORD
      && sent == Wire(state.log)
    }

    constructor ()
      ensures Valid() && state == INITIAL
    {
      isOpen, isClosed, eof, readBuf, windowDebt, sent := false, false, false, [], 0, [];
      state := INITIAL;
    }

    /** Lines 366-377: encode the credit owed, unless it is at most `minimum`. */
    method TakeWindowGrant(minimum: nat) returns (batch: Bytes)
      requires windowDebt < WORD
      modifies `windowDebt
      ensures old(windowDebt) <= minimum ==> batch == [] && windowDebt == old(windowDebt)
      ensures old(windowDebt) > minimum ==> batch == FrameBytes(WindowFrame(old(windowDebt))) && windowDebt == 0
    {
      if windowDebt <= minimum {
        return [];
      }
      var delta := [windowDebt / 0x100_0000 % 256, windowDebt / 0x1_0000 % 256, windowDebt / 0x100 % 256, windowDebt % 256];
      FourBytes(windowDebt);
      windowDebt := 0;
      batch := EncodeFrame(WINDOW, STREAM, delta);
    }

    /** Lines 381-388: failures of the transport are ignored here. */
    method SendControl(batch: Bytes, ghost f: Frame)
      requires Valid() && batch == FrameBytes(f)
      modifies `sent, `state
      ensures Valid() && state == Control(old(state), f)
    {
      if |batch| == 0 || isClosed {
        return;
      }
      WireOne(state.log, f);
      sent := sent + batch;
      state := Control(state, f);
    }

    /** Lines 284-287: one DATA frame per 64 KiB. */
    static method AppendChunks(head: Bytes, p: Bytes) returns (batch: Bytes)
      ensures batch == head + Wire(Chunks(p))
    {
      hide FrameBytes, Chunks, Wire;
      batch := head;
      var offset := 0;
      assert p[0..] == p;
      ChunksEnd(p[|p|..]);
      while offset < |p|
        invariant 0 <= offset
        invariant head + Wire(Chunks(p)) == batch + if offset <= |p| then Wire(Chunks(p[offset..])) else []
        decreases |p| - offset
      {
        var end := if offset + CHUNK < |p| then offset + CHUNK else |p|;
        var f := EncodeFrame(DATA, STREAM, p[offset..end]);
        WireChunk(p, offset, end);
        batch := batch + f;
        offset := offset + CHUNK;
      }
      assert batch + [] == batch;
    }

    /** Lines 272-295. The transport's verdict does not undo what was handed to it. */
    method Write(p: Bytes, accepted: bool) returns (r: Result<nat>)
      requires Valid()
      modifies this
      ensures Valid() && state == Relay.Write(old(state), p)
      ensures r == if old(isClosed) then Err(Error.Closed) else if accepted then Ok(|p|) else Err(TransportFailed)
    {
      hide FrameBytes, Chunks, Wire;
      if isClosed {
        return Err(Error.Closed);
      }
      var batch: Bytes := [];
      ghost var head := (if isOpen then [] else [Frame(OPEN, STREAM, [])]) + GrantFrames(windowDebt);
      WireHead(isOpen, windowDebt);
      if !isOpen {
        batch := EncodeFrame(OPEN, STREAM, []);
        isOpen := true;
      }
      var grant := TakeWindowGrant(0);
      batch := batch + grant;
      assert batch == Wire(head);

      batch := AppendChunks(batch, p);
      WireAppend(head, Chunks(p));
      WireAppend(state.log, head + Chunks(p));
      sent := sent + batch;
      assert WriteFrames(state, p) == head + Chunks(p);
      state := Relay.Write(state, p);
      r := if accepted then Ok(|p|) else Err(TransportFailed);
    }

    /** Lines 323-357. */
    method Pump(rec: Reception) returns (failed: Option<Error>)
      requires Valid() && !isClosed
      modifies this
      ensures Valid() && (state, failed) == Relay.Pump(old(state), rec)
    {
      if rec.laneClosed {
        eof := true;
        state := state.(eof := true, laneClosed := true);
      }
      if rec.body.Err? {
        return Some(rec.body.error);
      }
      var body := rec.body.value;
      state := state.(bodies := state.bodies + [body]);
      if |body| == 0 {
        assert Parse(body) == Ok([]);
        return None;
      }
      var frames := DecodeFrames(body);
      if frames.Err? {
        return Some(frames.error);
      }
      failed := HandleFrames(frames.value);
    }

    /** Lines 339-356: file away the frames of one body. */
    method HandleFrames(frames: seq<Frame>) returns (failed: Option<Error>)
      requires Valid() && !isClosed
      modifies this
      ensures Valid() && (state, failed) == HandleAll(old(state), frames)
    {
      var i := 0;
      assert frames[0..] == frames;
      while i < |frames|
        invariant 0 <= i <= |frames| && Valid() && !isClosed
        invariant HandleAll(old(state), frames) == HandleAll(state, frames[i..])
      {
        var f := frames[i];
        HandleFront(state, frames, i);
        if f.kind == DATA {
          if f.stream == STREAM {
            readBuf := readBuf + f.payload;
            state := Handle(state, f);
          }
        } else if f.kind == CLOSE {
          if f.stream == STREAM {
            eof := true;
            state := Handle(state, f);
          }
        } else if f.kind == PING {
          var pong := EncodeFrame(PONG, 0, f.payload);
          SendControl(pong, Frame(PONG, 0, f.payload));
        } else if f.kind == BYE {
          eof := true;
          state := Handle(state, f);
          return Some(RelayClosed);
        }
        i := i + 1;
      }
      assert frames[i..] == [];
      return None;
    }

    /** Lines 360-364. */
    method GrantWindow()
      requires Valid()
      modifies this
      ensures Valid() && state == Grant(old(state))
    {
      ghost var debt := windowDebt;
      var grant := TakeWindowGrant(0);
      state := state.(debt := 0);
      if |grant| > 0 {
        SendControl(grant, WindowFrame(debt));
        if isClosed {
          state := state.(dropped := state.dropped + debt);
        }
      }
    }

    /** Lines 300-320: polls until there are bytes, then hands out at most `size` of them. */
    method Read(size: nat, script: seq<Reception>) returns (r: Result<Bytes>)
      requires Valid()
      modifies this
      ensures Valid() && (state, r) == Relay.Read(old(state), size, script)
      ensures r.Ok? ==> state.delivered == old(state.delivered) + r.value && |r.value| <= size && (size > 0 ==> r.value != [])
      ensures r.Err? ==> state.delivered == old(state.delivered)
    {
      hide Relay.Pump, Deliver;
      RelayRuns.ReadReturns(state, size, script);
      var at := 0;
      assert script[0..] == script;
      while |readBuf| == 0
        invariant 0 <= at <= |script| && Valid()
        invariant Relay.Read(old(state), size, script) == Relay.Read(state, size, script[at..])
        decreases |script| - at
      {
        if eof {
          return Err(EndOfFile);
        }
        if isClosed {
          return Err(Error.Closed);
        }
        if at == |script| {
          return Err(TransportFailed);
        }
        var failed := Pump(script[at]);
        assert script[at..][0] == script[at] && script[at..][1..] == script[at + 1..];
        if failed.Some? {
          return Err(failed.value);
        }
        at := at + 1;
      }
      var n := if size < |readBuf| then size else |readBuf|;
      r := Ok(readBuf[..n]);
      DeliverFront(n);
    }

    /** Lines 313-319. */
    method DeliverFront(n: nat)
      requires Valid() && n <= |readBuf|
      modifies this
      ensures Valid() && state == Deliver(old(state), n)
    {
      hide Grant;
      ghost var s := state;
      state := s.(readBuf := s.readBuf[n..], delivered := s.delivered + s.readBuf[..n],
                  debt := (s.debt + n) % WORD, wraps := s.wraps + (s.debt + n) / WORD);
      readBuf := readBuf[n..];
      windowDebt := (windowDebt + n) % WORD;
      if windowDebt >= GRANT_MIN {
        GrantWindow();
      }
    }

    /** Lines 391-402. */
    method Close()
      requires Valid()
      modifies this
      ensures Valid() && state == Relay.Close(old(state))
    {
      if isClosed {
        return;
      }
      if isOpen {
        var batch := EncodeFrame(CLOSE, STREAM, []);
        SendControl(batch, Frame(CLOSE, STREAM, []));
      }
      isClosed := true;
      state := state.(isClosed := true);
    }
  }

  lemma FourBytes(v: nat)
    ensures Be(v, 4) == [v / 0x100_0000 % 256, v / 0x1_0000 % 256, v / 0x100 % 256, v % 256]
  {
    hide Be;
    ThreeBytes(v / 256);
    Quotients(v);
    LastByte(v);
  }

  lemma LastByte(v: nat)
    ensures Be(v, 4) == Be(v / 256, 3) + [v % 256]
  {}

  lemma Quotients(v: nat)
    ensures v / 256 / 0x1_0000 == v / 0x100_0000 && v / 256 / 0x100 == v / 0x1_0000
  {}

  lemma WireOne(log: seq<Frame>, f: Frame)
    ensures Wire(log + [f]) == Wire(log) + FrameBytes(f)
    ensures Wire([f]) == FrameBytes(f)
  {
    WireAppend(log, [f]);
    assert [f][1..] == [];
    assert FrameBytes(f) + [] == FrameBytes(f);
  }

  /** The bytes that precede the data of a write. */
  lemma WireHead(isOpen: bool, debt: nat)
    ensures
      var open := if isOpen then [] else FrameBytes(Frame(OPEN, STREAM, []));
      var head := (if isOpen then [] else [Frame(OPEN, STREAM, [])]) + GrantFrames(debt);
      Wire(head) == open + if debt == 0 then [] else FrameBytes(WindowFrame(debt))
  {
    hide FrameBytes;
    var open := Frame(OPEN, STREAM, []);
    WireOne([], open);
    WireOne([], WindowFrame(debt));
    if !isOpen { WireAppend([open], GrantFrames(debt)); } else { assert [] + GrantFrames(debt) == GrantFrames(debt); }
  }

  lemma ChunksEnd(p: Bytes)
    requires p == []
    ensures Wire(Chunks(p)) == []
  {}

  lemma WireChunk(p: Bytes, offset: nat, end: nat)
    requires offset < |p| && end == if offset + CHUNK < |p| then offset + CHUNK else |p|
    ensures
      Wire(Chunks(p[offset..])) == FrameBytes(Frame(DATA, STREAM, p[offset..end])) +
                                   if offset + CHUNK <= |p| then Wire(Chunks(p[offset + CHUNK..])) else []
  {
    hide FrameBytes;
    var rest := p[offset..];
    var f := Frame(DATA, STREAM, p[offset..end]);
    SliceOfDrop(p, offset, 0, end - offset);
    if offset + CHUNK < |p| {
      assert Chunks(rest) == [f] + Chunks(p[offset + CHUNK..]);
      WireAppend([f], Chunks(p[offset + CHUNK..]));
      WireOne([], f);
    } else {
      assert p[offset..end] == rest;
      WireOne([], f);
      assert Chunks(rest) == [f];
    }
  }

  lemma HandleFront(s: State, fs: seq<Frame>, i: nat)
    requires i < |fs|
    ensures
      HandleAll(s, fs[i..]) == if fs[i].kind == BYE then (Handle(s, fs[i]), Some(RelayClosed))
                               else HandleAll(Handle(s, fs[i]), fs[i + 1..])
  {
    assert fs[i..][0] == fs[i] && fs[i..][1..] == fs[i + 1..];
  }
}

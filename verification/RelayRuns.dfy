/**
 * What internal/webproxy/carrier.go gives to its callers and to the relay, call by call and
 * over whole runs, in terms of the calls and their results alone.
 */
module RelayRuns {
  import opened Bytes
  import opened Wrappers
  import opened Frame
  import opened Relay

  // ---- one exchange

  /** The bodies that arrived, in order. */
  function Received(script: seq<Reception>): seq<Bytes> {
    if script == [] then []
    else
      var last := script[|script| - 1];
      Received(script[..|script| - 1]) + if last.body.Ok? then [last.body.value] else []
  }

  lemma {:induction false} HandleAllFrame(s: State, fs: seq<Frame>)
    ensures
      var (t, failed) := HandleAll(s, fs);
      && t.bodies == s.bodies && t.delivered == s.delivered && t.isClosed == s.isClosed && t.isOpen == s.isOpen
      && t.accepted == s.accepted && t.debt == s.debt
      && failed == if exists i :: 0 <= i < |fs| && fs[i].kind == BYE then Some(RelayClosed) else None
    decreases |fs|
  {
    if fs != [] {
      if fs[0].kind != BYE {
        HandleAllFrame(Handle(s, fs[0]), fs[1..]);
        assert forall i :: 1 <= i < |fs| ==> fs[i] == fs[1..][i - 1];
      }
    }
  }

  /** An exchange takes in the body that arrived, and fails exactly without one, on a malformed one, or on a BYE. */
  lemma PumpExactly(s: State, rec: Reception)
    ensures
      var (t, failed) := Pump(s, rec);
      && t.bodies == s.bodies + Received([rec])
      && t.delivered == s.delivered && t.isClosed == s.isClosed && t.isOpen == s.isOpen && t.accepted == s.accepted
      && failed ==
           match rec.body
           case Err(e) => Some(e)
           case Ok(body) =>
             match Parse(body)
             case Err(e) => Some(e)
             case Ok(fs) => if exists i :: 0 <= i < |fs| && fs[i].kind == BYE then Some(RelayClosed) else None
  {
    hide HandleAll, Parse;
    assert [rec][..0] == [];
    assert Received([rec]) == Received([]) + if rec.body.Ok? then [rec.body.value] else [];
    if rec.body.Ok? && Parse(rec.body.value).Ok? {
      var s0 := if rec.laneClosed then s.(eof := true, laneClosed := true) else s;
      HandleAllFrame(s0.(bodies := s0.bodies + [rec.body.value]), Parse(rec.body.value).value);
    }
  }

  // ---- one read

  /** The state after a number of exchanges. */
  function Polled(s: State, script: seq<Reception>): State {
    if script == [] then s else Pump(Polled(s, script[..|script| - 1]), script[|script| - 1]).0
  }

  lemma {:induction false} PolledFront(s: State, rec: Reception, script: seq<Reception>)
    ensures Polled(s, [rec] + script) == Polled(Pump(s, rec).0, script)
    decreases |script|
  {
    hide Pump;
    var all := [rec] + script;
    if script == [] {
      assert all[..0] == [] && all[|all| - 1] == rec;
      assert Polled(s, []) == s;
    } else {
      assert all[..|all| - 1] == [rec] + script[..|script| - 1];
      PolledFront(s, rec, script[..|script| - 1]);
    }
  }

  /** Nothing to hand out, no end in sight, and the next exchange succeeds: a read polls on. */
  ghost predicate PollsOn(s: State, rec: Reception) {
    s.readBuf == [] && !s.eof && !s.isClosed && Pump(s, rec).1.None?
  }

  /** How a read ends after its last successful exchange. */
  ghost predicate EndsRead(u: State, size: nat, rest: seq<Reception>, t: State, r: Result<Bytes>) {
    if u.readBuf != [] then
      && r.Ok? && u.readBuf == r.value + t.readBuf && t.delivered == u.delivered + r.value
      && |r.value| == (if size < |u.readBuf| then size else |u.readBuf|)
    else if u.eof then r == Err(EndOfFile) && t == u
    else if u.isClosed then r == Err(Error.Closed) && t == u
    else if rest == [] then r == Err(TransportFailed) && t == u
    else Pump(u, rest[0]).1.Some? && r == Err(Pump(u, rest[0]).1.value) && t == Pump(u, rest[0]).0
  }

  lemma DeliverHandsOut(u: State, n: nat)
    requires n <= |u.readBuf|
    ensures
      var t := Deliver(u, n);
      && u.readBuf == u.readBuf[..n] + t.readBuf && t.delivered == u.delivered + u.readBuf[..n]
      && t.bodies == u.bodies && t.isClosed == u.isClosed && t.isOpen == u.isOpen && t.accepted == u.accepted
  {
    hide WindowFrame;
    assert u.readBuf == u.readBuf[..n] + u.readBuf[n..];
  }

  lemma PolledShift(s: State, script: seq<Reception>, j: nat)
    requires script != [] && j < |script|
    ensures Polled(s, script[..j + 1]) == Polled(Pump(s, script[0]).0, script[1..][..j])
    ensures script[j + 1..] == script[1..][j..] && (j + 1 < |script| ==> script[j + 1] == script[1..][j])
  {
    hide Pump, Polled;
    assert script[..j + 1] == [script[0]] + script[1..][..j];
    PolledFront(s, script[0], script[1..][..j]);
  }

  lemma PolledNone(s: State, script: seq<Reception>)
    ensures Polled(s, script[..0]) == s && script[0..] == script
  {}

  /** A read that does not poll on. */
  lemma ReadStops(s: State, size: nat, script: seq<Reception>)
    requires script == [] || !PollsOn(s, script[0])
    ensures
      var (t, r) := Read(s, size, script);
      EndsRead(s, size, script, t, r)
  {
    hide Pump, Deliver;
    if s.readBuf != [] {
      DeliverHandsOut(s, if size < |s.readBuf| then size else |s.readBuf|);
    }
  }

  /** The exchanges of a read take in everything that arrives meanwhile. */
  lemma {:induction false} PolledTakes(s: State, script: seq<Reception>)
    ensures Polled(s, script).bodies == s.bodies + Received(script)
    decreases |script|
  {
    hide Pump;
    if script == [] {
      assert s.bodies + [] == s.bodies;
    } else {
      var init, last := script[..|script| - 1], script[|script| - 1];
      PolledTakes(s, init);
      PumpExactly(Polled(s, init), last);
      assert [last][..0] == [] && [last][|[last]| - 1] == last;
      assert Received([last]) == Received([]) + if last.body.Ok? then [last.body.value] else [];
    }
  }

  /**
   * Every read, exactly: it polls `k` times while there is nothing to hand out, and then
   * hands out the front of what it has, or reports the end, the close, or the failure.
   */
  lemma {:induction false} ReadEnds(s: State, size: nat, script: seq<Reception>) returns (k: nat)
    ensures k <= |script|
    ensures forall j :: 0 <= j < k ==> PollsOn(Polled(s, script[..j]), script[j])
    ensures
      var (t, r) := Read(s, size, script);
      EndsRead(Polled(s, script[..k]), size, script[k..], t, r)
    decreases |script|
  {
    hide Pump, Deliver, Polled, EndsRead;
    PolledNone(s, script);
    if s.readBuf == [] && !s.eof && !s.isClosed && script != [] && Pump(s, script[0]).1.None? {
      var s1 := Pump(s, script[0]).0;
      var l := ReadEnds(s1, size, script[1..]);
      k := l + 1;
      PolledShift(s, script, l);
      forall j | 0 <= j < k
        ensures PollsOn(Polled(s, script[..j]), script[j])
      {
        if j > 0 { PolledShift(s, script, j - 1); }
      }
    } else {
      k := 0;
      ReadStops(s, size, script);
    }
  }

  /** The bytes a read returns are the bytes delivered; a failed read delivers none. */
  lemma {:induction false} ReadReturns(s: State, size: nat, script: seq<Reception>)
    ensures
      var (t, r) := Read(s, size, script);
      && t.isClosed == s.isClosed && t.isOpen == s.isOpen && t.accepted == s.accepted
      && (r.Ok? ==> t.delivered == s.delivered + r.value && |r.value| <= size && (size > 0 ==> |r.value| > 0))
      && (r.Err? ==> t.delivered == s.delivered)
    decreases |script|
  {
    hide Pump, Deliver;
    if s.readBuf != [] {
      DeliverHandsOut(s, if size < |s.readBuf| then size else |s.readBuf|);
    } else if !s.eof && !s.isClosed && script != [] {
      PumpExactly(s, script[0]);
      if Pump(s, script[0]).1.None? {
        ReadReturns(Pump(s, script[0]).0, size, script[1..]);
      }
    }
  }

  // ---- whole runs

  /** What the reads of a run returned, joined. */
  function Handed(ops: seq<Op>): Bytes {
    if ops == [] then []
    else
      var init, last := ops[..|ops| - 1], ops[|ops| - 1];
      Handed(init) + if last.DoRead? && Read(Run(init), last.size, last.script).1.Ok?
                     then Read(Run(init), last.size, last.script).1.value else []
  }

  /** What the writes of a run were given before the close. */
  function Given(ops: seq<Op>): Bytes {
    if ops == [] then []
    else
      var init, last := ops[..|ops| - 1], ops[|ops| - 1];
      Given(init) + if last.DoWrite? && DoClose !in init then last.p else []
  }

  lemma {:induction false} ClosedByCall(ops: seq<Op>)
    ensures Run(ops).isClosed <==> DoClose in ops
  {
    hide Pump, Deliver, Relay.Read;
    if ops != [] {
      var init, last := ops[..|ops| - 1], ops[|ops| - 1];
      ClosedByCall(init);
      assert ops == init + [last];
      if last.DoRead? { ReadReturns(Run(init), last.size, last.script); }
    }
  }

  lemma {:induction false} RunAccounts(ops: seq<Op>)
    ensures Run(ops).delivered == Handed(ops) && Run(ops).accepted == Given(ops)
  {
    hide Relay.Read;
    if ops != [] {
      var init, last := ops[..|ops| - 1], ops[|ops| - 1];
      RunAccounts(init);
      ClosedByCall(init);
      if last.DoRead? { ReadReturns(Run(init), last.size, last.script); }
    }
  }

  /**
   * Fidelity in terms of calls and results: what all reads returned, followed by what is
   * buffered, are the stream's DATA payloads in order; and the DATA payloads sent are what
   * the writes before the close were given.
   */
  lemma RunDelivers(ops: seq<Op>)
    ensures Handed(ops) + Run(ops).readBuf == DataOf(Processed(Run(ops).bodies))
    ensures DataOf(Run(ops).log) == Given(ops)
  {
    hide DataOf, Processed, Handed, Given, Run;
    RunAccounts(ops);
    RunSafe(ops);
  }

  // ---- what is sent

  /** The frames a client sends, with their streams and sizes. */
  ghost predicate Shaped(f: Frame) {
    || f == Frame(0x01, 1, [])
    || (f.kind == 0x02 && f.stream == 1 && 0 < |f.payload| <= 0x1_0000)
    || f == Frame(0x03, 1, [])
    || (f.kind == 0x04 && f.stream == 1 && |f.payload| == 4)
    || (f.kind == 0x06 && f.stream == 0)
  }

  ghost predicate AllShaped(fs: seq<Frame>) { forall i :: 0 <= i < |fs| ==> Shaped(fs[i]) }

  lemma {:induction false} ChunksShaped(p: Bytes)
    ensures AllShaped(Chunks(p))
    decreases |p|
  {
    if |p| > CHUNK {
      ChunksShaped(p[CHUNK..]);
    }
  }

  lemma {:induction false} HandleAllShaped(s: State, fs: seq<Frame>)
    requires AllShaped(s.log)
    ensures AllShaped(HandleAll(s, fs).0.log)
    decreases |fs|
  {
    if fs != [] && fs[0].kind != BYE { HandleAllShaped(Handle(s, fs[0]), fs[1..]); }
  }

  lemma PumpShaped(s: State, rec: Reception)
    requires AllShaped(s.log)
    ensures AllShaped(Pump(s, rec).0.log)
  {
    hide HandleAll, Parse, Shaped;
    if rec.body.Ok? && Parse(rec.body.value).Ok? {
      var s0 := if rec.laneClosed then s.(eof := true, laneClosed := true) else s;
      HandleAllShaped(s0.(bodies := s0.bodies + [rec.body.value]), Parse(rec.body.value).value);
    }
  }

  lemma {:induction false} ReadShaped(s: State, size: nat, script: seq<Reception>)
    requires AllShaped(s.log)
    ensures AllShaped(Read(s, size, script).0.log)
    decreases |script|
  {
    hide Pump;
    if s.readBuf == [] && !s.eof && !s.isClosed && script != [] {
      PumpShaped(s, script[0]);
      if Pump(s, script[0]).1.None? { ReadShaped(Pump(s, script[0]).0, size, script[1..]); }
    }
  }

  lemma WriteShaped(s: State, p: Bytes)
    requires AllShaped(s.log)
    ensures AllShaped(Write(s, p).log)
  {
    ChunksShaped(p);
  }

  /** Everything ever sent has the stream, the size and the payload its kind calls for. */
  lemma {:induction false} RunShaped(ops: seq<Op>)
    ensures AllShaped(Run(ops).log)
  {
    hide AllShaped;
    if ops == [] {
      NothingShaped();
    } else {
      var init, last := ops[..|ops| - 1], ops[|ops| - 1];
      RunShaped(init);
      match last
      case DoRead(size, script) => ReadShaped(Run(init), size, script);
      case DoWrite(p) => WriteShaped(Run(init), p);
      case DoClose => CloseShaped(Run(init));
    }
  }

  lemma NothingShaped()
    ensures AllShaped([])
  {}

  lemma CloseShaped(s: State)
    requires AllShaped(s.log)
    ensures AllShaped(Close(s).log)
  {}

  /** A carrier that was opened and closed has said so: its last frame is the CLOSE. */
  lemma {:induction false} RunCloses(ops: seq<Op>)
    ensures
      var s := Run(ops);
      s.isOpen && s.isClosed ==> |s.log| > 0 && s.log[|s.log| - 1] == Frame(0x03, 1, [])
  {
    hide Relay.Read, Relay.Write;
    if ops != [] {
      var init, last := ops[..|ops| - 1], ops[|ops| - 1];
      RunCloses(init);
      if Run(init).isClosed {
        ClosedIsFinal(Run(init), last);
        OpenStays(Run(init), last);
      } else if last.DoRead? {
        ReadReturns(Run(init), last.size, last.script);
      } else if last.DoWrite? {
        WriteStaysOpen(Run(init), last.p);
      }
    }
  }

  lemma OpenStays(s: State, op: Op)
    requires s.isClosed
    ensures Step(s, op).isOpen == s.isOpen
  {
    hide Relay.Read;
    if op.DoRead? { ReadReturns(s, op.size, op.script); }
  }

  lemma WriteStaysOpen(s: State, p: Bytes)
    ensures Write(s, p).isClosed == s.isClosed
  {}

  /**
   * When credit is granted: a write passes on all that is owed, and handing out bytes
   * grants exactly when 256 KiB are owed.
   */
  lemma GrantsExactly(s: State, p: Bytes, n: nat)
    requires !s.isClosed && n <= |s.readBuf| && s.debt + n < WORD
    ensures Write(s, p).debt == 0
    ensures
      var t := Deliver(s, n);
      if s.debt + n >= 0x4_0000 then t.debt == 0 && t.log == s.log + [Frame(0x04, 1, Be(s.debt + n, 4))]
      else t.debt == s.debt + n && t.log == s.log
  {
    WordSplit(s.debt + n);
  }
}

/**
 * internal/webproxy/carrier.go: what the relay stream does, as a state and its steps.
 * Carrier.dfy holds the object whose methods take these steps.
 */
module Relay {
  import opened Bytes
  import opened Wrappers
  import opened Frame

  const STREAM := 1
  const GRANT_MIN := 0x4_0000
  const CHUNK := 0x1_0000
  const WORD := 0x1_0000_0000

  /** One answer of the transport; the HTTPS lanes may flag the end beforehand. */
  datatype Reception = Reception(laneClosed: bool, body: Result<Bytes>)

  /**
   * The object's fields, and the history they are measured against: every frame handed
   * to the transport, every body received, the bytes delivered to and accepted from the
   * caller, and the credit encoded after the close or lost to word overflow.
   */
  datatype State = State(
    isOpen: bool, isClosed: bool, eof: bool, readBuf: Bytes, debt: nat,
    log: seq<Frame>, bodies: seq<Bytes>, delivered: Bytes, accepted: Bytes, dropped: nat, wraps: nat, laneClosed: bool)

  const INITIAL := State(false, false, false, [], 0, [], [], [], [], 0, 0, false)

  // ---- steps

  /** Control frames go out unless the carrier is closed. */
  function Control(s: State, f: Frame): State {
    if s.isClosed then s else s.(log := s.log + [f])
  }

  function WindowFrame(debt: nat): Frame { Frame(WINDOW, STREAM, Be(debt, 4)) }

  /** The grant that accompanies other frames: all credit owed, if any. */
  function GrantFrames(debt: nat): seq<Frame> {
    if debt == 0 then [] else [WindowFrame(debt)]
  }

  function Grant(s: State): State {
    if s.debt == 0 then s
    else if s.isClosed then s.(debt := 0, dropped := s.dropped + s.debt)
    else s.(debt := 0, log := s.log + [WindowFrame(s.debt)])
  }

  function Chunks(p: Bytes): seq<Frame> {
    if p == [] then []
    else if |p| <= CHUNK then [Frame(DATA, STREAM, p)]
    else [Frame(DATA, STREAM, p[..CHUNK])] + Chunks(p[CHUNK..])
  }

  function WriteFrames(s: State, p: Bytes): seq<Frame> {
    (if s.isOpen then [] else [Frame(OPEN, STREAM, [])]) + GrantFrames(s.debt) + Chunks(p)
  }

  function Write(s: State, p: Bytes): State {
    if s.isClosed then s
    else s.(isOpen := true, debt := 0, log := s.log + WriteFrames(s, p), accepted := s.accepted + p)
  }

  function Handle(s: State, f: Frame): State {
    if f.kind == DATA && f.stream == STREAM then s.(readBuf := s.readBuf + f.payload)
    else if f.kind == CLOSE && f.stream == STREAM then s.(eof := true)
    else if f.kind == PING then Control(s, Frame(PONG, 0, f.payload))
    else if f.kind == BYE then s.(eof := true)
    else s
  }

  /** Frames are handled in order; a BYE ends the exchange with an error. */
  function HandleAll(s: State, fs: seq<Frame>): (State, Option<Error>)
    decreases |fs|
  {
    if fs == [] then (s, None)
    else if fs[0].kind == BYE then (Handle(s, fs[0]), Some(RelayClosed))
    else HandleAll(Handle(s, fs[0]), fs[1..])
  }

  function Pump(s: State, rec: Reception): (State, Option<Error>) {
    var s := if rec.laneClosed then s.(eof := true, laneClosed := true) else s;
    match rec.body
    case Err(e) => (s, Some(e))
    case Ok(body) =>
      var s := s.(bodies := s.bodies + [body]);
      match Parse(body)
      case Err(e) => (s, Some(e))
      case Ok(fs) => HandleAll(s, fs)
  }

  function Deliver(s: State, n: nat): State
    requires n <= |s.readBuf|
  {
    var debt := (s.debt + n) % WORD;
    var s := s.(readBuf := s.readBuf[n..], delivered := s.delivered + s.readBuf[..n],
                debt := debt, wraps := s.wraps + (s.debt + n) / WORD);
    if s.debt >= GRANT_MIN then Grant(s) else s
  }

  /** `script` holds the transport's answers from here on; running out of them is a failure. */
  function Read(s: State, size: nat, script: seq<Reception>): (State, Result<Bytes>)
    decreases |script|
  {
    if |s.readBuf| > 0 then
      var n := if size < |s.readBuf| then size else |s.readBuf|;
      (Deliver(s, n), Ok(s.readBuf[..n]))
    else if s.eof then (s, Err(EndOfFile))
    else if s.isClosed then (s, Err(Closed))
    else if script == [] then (s, Err(TransportFailed))
    else
      match Pump(s, script[0])
      case (s', Some(e)) => (s', Err(e))
      case (s', None) => Read(s', size, script[1..])
  }

  function Close(s: State): State {
    if s.isClosed then s
    else (if s.isOpen then Control(s, Frame(CLOSE, STREAM, [])) else s).(isClosed := true)
  }

  datatype Op = DoRead(size: nat, script: seq<Reception>) | DoWrite(p: Bytes) | DoClose

  function Step(s: State, op: Op): State {
    match op
    case DoRead(size, script) => Read(s, size, script).0
    case DoWrite(p) => Write(s, p)
    case DoClose => Close(s)
  }

  function Run(ops: seq<Op>): State {
    if ops == [] then INITIAL else Step(Run(ops[..|ops| - 1]), ops[|ops| - 1])
  }

  // ---- what the histories mean

  /** A body's frames up to and including a BYE, none if it does not decode. */
  function UntilBye(fs: seq<Frame>): seq<Frame> {
    if fs == [] then []
    else if fs[0].kind == BYE then [fs[0]]
    else [fs[0]] + UntilBye(fs[1..])
  }

  function Processed(bodies: seq<Bytes>): seq<Frame> {
    if bodies == [] then []
    else
      var last := bodies[|bodies| - 1];
      Processed(bodies[..|bodies| - 1]) + if Parse(last).Ok? then UntilBye(Parse(last).value) else []
  }

  /** Payloads of the stream's DATA frames, joined. */
  function DataOf(fs: seq<Frame>): Bytes {
    if fs == [] then []
    else (if fs[0].kind == DATA && fs[0].stream == STREAM then fs[0].payload else []) + DataOf(fs[1..])
  }

  /** Payloads of the frames of one kind, in order. */
  function PayloadsOf(fs: seq<Frame>, kind: byte): seq<Bytes> {
    if fs == [] then []
    else (if fs[0].kind == kind then [fs[0].payload] else []) + PayloadsOf(fs[1..], kind)
  }

  function Ends(fs: seq<Frame>): bool {
    exists i :: 0 <= i < |fs| && (fs[i].kind == BYE || (fs[i].kind == CLOSE && fs[i].stream == STREAM))
  }

  function Granted(fs: seq<Frame>): nat {
    if fs == [] then 0
    else (if fs[0].kind == WINDOW then BeNat(fs[0].payload) else 0) + Granted(fs[1..])
  }

  function Longest(bodies: seq<Bytes>): nat {
    if bodies == [] then 0
    else
      var last, rest := |bodies[|bodies| - 1]|, Longest(bodies[..|bodies| - 1]);
      if last > rest then last else rest
  }

  ghost predicate HasOpen(fs: seq<Frame>) { exists i :: 0 <= i < |fs| && fs[i].kind == OPEN }

  /** One OPEN, one CLOSE that ends the log, DATA and CLOSE only after the OPEN. */
  ghost predicate WellOrdered(fs: seq<Frame>) {
    && (forall i, j :: 0 <= i < j < |fs| && fs[i].kind == OPEN ==> fs[j].kind != OPEN)
    && (forall i :: 0 <= i < |fs| - 1 ==> fs[i].kind != CLOSE)
    && (forall j :: 0 <= j < |fs| && fs[j].kind in {DATA, CLOSE} ==> HasOpen(fs[..j]))
  }

  // ---- the invariant

  ghost predicate Safe(s: State) {
    && AllLegal(s.log) && WellOrdered(s.log)
    && (s.isOpen <==> HasOpen(s.log))
    && (!s.isClosed ==> forall i :: 0 <= i < |s.log| ==> s.log[i].kind != CLOSE)
  }

  ghost predicate Faithful(s: State) {
    && s.delivered + s.readBuf == DataOf(Processed(s.bodies))
    && DataOf(s.log) == s.accepted
    && PayloadsOf(s.log, PONG) == PayloadsOf(Processed(s.bodies), PING)
    && (s.eof <==> s.laneClosed || Ends(Processed(s.bodies)))
  }

  ghost predicate Conserved(s: State) {
    && s.debt < GRANT_MIN
    && Granted(s.log) + s.dropped + s.debt + WORD * s.wraps == |s.delivered|
    && (s.dropped > 0 ==> s.isClosed)
    && |s.readBuf| <= Longest(s.bodies)
    && (s.wraps > 0 ==> Longest(s.bodies) > WORD - GRANT_MIN)
  }

  ghost predicate Inv(s: State) { Safe(s) && Faithful(s) && Conserved(s) }

  // ---- the histories grow from the right

  lemma {:induction false} DataOfAppend(a: seq<Frame>, b: seq<Frame>)
    ensures DataOf(a + b) == DataOf(a) + DataOf(b)
  {
    if a == [] { assert a + b == b; } else {
      assert (a + b)[1..] == a[1..] + b;
      DataOfAppend(a[1..], b);
    }
  }

  lemma {:induction false} PayloadsOfAppend(a: seq<Frame>, b: seq<Frame>, kind: byte)
    ensures PayloadsOf(a + b, kind) == PayloadsOf(a, kind) + PayloadsOf(b, kind)
  {
    if a == [] { assert a + b == b; } else {
      assert (a + b)[1..] == a[1..] + b;
      PayloadsOfAppend(a[1..], b, kind);
    }
  }

  lemma {:induction false} GrantedAppend(a: seq<Frame>, b: seq<Frame>)
    ensures Granted(a + b) == Granted(a) + Granted(b)
  {
    if a == [] { assert a + b == b; } else {
      assert (a + b)[1..] == a[1..] + b;
      GrantedAppend(a[1..], b);
    }
  }

  /** The three measures of a log or history with one more frame. */
  lemma AppendOne(a: seq<Frame>, f: Frame, kind: byte)
    ensures DataOf(a + [f]) == if f.kind == DATA && f.stream == STREAM then DataOf(a) + f.payload else DataOf(a)
    ensures PayloadsOf(a + [f], kind) == if f.kind == kind then PayloadsOf(a, kind) + [f.payload] else PayloadsOf(a, kind)
    ensures Granted(a + [f]) == Granted(a) + if f.kind == WINDOW then BeNat(f.payload) else 0
  {
    DataOfAppend(a, [f]);
    PayloadsOfAppend(a, [f], kind);
    GrantedAppend(a, [f]);
    assert [f][1..] == [];
    assert DataOf(a) + [] == DataOf(a) && PayloadsOf(a, kind) + [] == PayloadsOf(a, kind);
  }

  lemma HasOpenAppend(a: seq<Frame>, f: Frame)
    ensures HasOpen(a + [f]) <==> HasOpen(a) || f.kind == OPEN
  {
    if HasOpen(a) {
      var i :| 0 <= i < |a| && a[i].kind == OPEN;
      assert (a + [f])[i].kind == OPEN;
    }
    assert (a + [f])[|a|] == f;
  }

  /** Appending a frame keeps the order when no CLOSE precedes it and its own rule holds. */
  lemma WellOrderedAppend(a: seq<Frame>, f: Frame)
    requires WellOrdered(a) && forall i :: 0 <= i < |a| ==> a[i].kind != CLOSE
    requires f.kind == OPEN ==> !HasOpen(a)
    requires f.kind in {DATA, CLOSE} ==> HasOpen(a)
    ensures WellOrdered(a + [f])
  {
    var b := a + [f];
    forall j | 0 <= j < |b| && b[j].kind in {DATA, CLOSE}
      ensures HasOpen(b[..j])
    {
      assert b[..j] == a[..j];
      assert a[..|a|] == a;
    }
  }

  // ---- the log of an open carrier, one frame at a time

  /** Everything the invariant says about the log before the carrier is closed. */
  ghost predicate LogState(fs: seq<Frame>, isOpen: bool, accepted: Bytes, pongs: seq<Bytes>, credit: nat) {
    && AllLegal(fs) && WellOrdered(fs) && (isOpen <==> HasOpen(fs))
    && (forall i :: 0 <= i < |fs| ==> fs[i].kind != CLOSE)
    && DataOf(fs) == accepted && PayloadsOf(fs, PONG) == pongs && Granted(fs) == credit
  }

  lemma AddFrame(a: seq<Frame>, isOpen: bool, accepted: Bytes, pongs: seq<Bytes>, credit: nat, f: Frame)
    requires LogState(a, isOpen, accepted, pongs, credit) && Legal(f) && f.kind != CLOSE
    requires f.kind == OPEN ==> !isOpen
    requires f.kind == DATA ==> isOpen && f.stream == STREAM
    ensures LogState(a + [f], isOpen || f.kind == OPEN,
                     if f.kind == DATA then accepted + f.payload else accepted,
                     if f.kind == PONG then pongs + [f.payload] else pongs,
                     if f.kind == WINDOW then credit + BeNat(f.payload) else credit)
  {
    AppendOne(a, f, PONG);
    HasOpenAppend(a, f);
    WellOrderedAppend(a, f);
  }

  lemma WindowCredit(debt: nat)
    requires debt < WORD
    ensures Legal(WindowFrame(debt)) && BeNat(WindowFrame(debt).payload) == debt
  {
    Widths();
    BeRoundTrip(debt, 4);
  }

  lemma AddGrant(a: seq<Frame>, isOpen: bool, accepted: Bytes, pongs: seq<Bytes>, credit: nat, debt: nat)
    requires LogState(a, isOpen, accepted, pongs, credit) && debt < WORD
    ensures LogState(a + GrantFrames(debt), isOpen, accepted, pongs, credit + debt)
  {
    hide LogState;
    WindowCredit(debt);
    if debt > 0 { AddFrame(a, isOpen, accepted, pongs, credit, WindowFrame(debt)); } else { assert a + [] == a; }
  }

  lemma {:induction false} AddChunks(a: seq<Frame>, accepted: Bytes, pongs: seq<Bytes>, credit: nat, p: Bytes)
    requires LogState(a, true, accepted, pongs, credit)
    ensures LogState(a + Chunks(p), true, accepted + p, pongs, credit)
    decreases |p|
  {
    hide LogState, Chunks;
    ChunksUnfold(p);
    if p == [] {
      assert a + [] == a && accepted + [] == accepted;
    } else if |p| <= CHUNK {
      AddFrame(a, true, accepted, pongs, credit, Frame(DATA, STREAM, p));
    } else {
      var f := Frame(DATA, STREAM, p[..CHUNK]);
      AddFrame(a, true, accepted, pongs, credit, f);
      AddChunks(a + [f], accepted + p[..CHUNK], pongs, credit, p[CHUNK..]);
      assert a + Chunks(p) == (a + [f]) + Chunks(p[CHUNK..]);
      assert accepted + p == (accepted + p[..CHUNK]) + p[CHUNK..];
    }
  }

  lemma ChunksUnfold(p: Bytes)
    ensures p == [] ==> Chunks(p) == []
    ensures 0 < |p| <= CHUNK ==> Chunks(p) == [Frame(DATA, STREAM, p)]
    ensures |p| > CHUNK ==> Chunks(p) == [Frame(DATA, STREAM, p[..CHUNK])] + Chunks(p[CHUNK..])
  {}

  /** The invariant of an open carrier that has handled exactly the frames `seen`. */
  ghost predicate Mid(s: State, seen: seq<Frame>) {
    && !s.isClosed
    && s.delivered + s.readBuf == DataOf(seen)
    && (s.eof <==> s.laneClosed || Ends(seen))
    && s.debt < GRANT_MIN && s.dropped == 0
    && s.debt + WORD * s.wraps <= |s.delivered|
    && (s.wraps > 0 ==> Longest(s.bodies) > WORD - GRANT_MIN)
    && LogState(s.log, s.isOpen, s.accepted, PayloadsOf(seen, PING), Credit(s))
  }

  ghost function Credit(s: State): int { |s.delivered| - s.debt - WORD * s.wraps }

  lemma OpenInv(s: State)
    requires !s.isClosed
    ensures Inv(s) <==> Mid(s, Processed(s.bodies)) && |s.readBuf| <= Longest(s.bodies)
  {
    hide DataOf, PayloadsOf, Granted, Processed, Longest, WellOrdered, HasOpen, Ends;
  }

  // ---- each step keeps the invariant

  lemma WriteKeeps(s: State, p: Bytes)
    requires Inv(s)
    ensures Inv(Write(s, p))
  {
    hide Inv, LogState, DataOf, PayloadsOf, Processed, Longest, Chunks, GrantFrames;
    if !s.isClosed {
      OpenInv(s);
      var open := Frame(OPEN, STREAM, []);
      var pings, credit := PayloadsOf(Processed(s.bodies), PING), Credit(s);
      var log0 := if s.isOpen then s.log else s.log + [open];
      if !s.isOpen { AddFrame(s.log, false, s.accepted, pings, credit, open); }
      var log1 := log0 + GrantFrames(s.debt);
      AddGrant(log0, true, s.accepted, pings, credit, s.debt);
      AddChunks(log1, s.accepted, pings, credit + s.debt, p);
      assert log1 + Chunks(p) == s.log + WriteFrames(s, p);
      OpenInv(Write(s, p));
    }
  }

  lemma EndsAppend(a: seq<Frame>, f: Frame)
    ensures Ends(a + [f]) <==> Ends(a) || f.kind == BYE || (f.kind == CLOSE && f.stream == STREAM)
  {
    var b := a + [f];
    assert b[|a|] == f;
    if i :| 0 <= i < |a| && (a[i].kind == BYE || (a[i].kind == CLOSE && a[i].stream == STREAM)) {
      assert b[i] == a[i];
    }
  }

  lemma HandleKeeps(s: State, seen: seq<Frame>, f: Frame)
    requires Mid(s, seen) && Legal(f)
    ensures Mid(Handle(s, f), seen + [f])
  {
    hide LogState, Longest, DataOf, PayloadsOf, Ends;
    AppendOne(seen, f, PING);
    EndsAppend(seen, f);
    assert s.delivered + (s.readBuf + f.payload) == (s.delivered + s.readBuf) + f.payload;
    if f.kind == PING {
      AddFrame(s.log, s.isOpen, s.accepted, PayloadsOf(seen, PING), Credit(s), Frame(PONG, 0, f.payload));
    }
  }

  lemma {:induction false} HandleAllKeeps(s: State, seen: seq<Frame>, fs: seq<Frame>)
    requires Mid(s, seen) && AllLegal(fs)
    ensures Mid(HandleAll(s, fs).0, seen + UntilBye(fs))
    ensures HandleAll(s, fs).0.bodies == s.bodies && HandleAll(s, fs).0.delivered == s.delivered
    decreases |fs|
  {
    hide Mid;
    if fs == [] {
      assert seen + [] == seen;
    } else {
      HandleKeeps(s, seen, fs[0]);
      if fs[0].kind != BYE {
        HandleAllKeeps(Handle(s, fs[0]), seen + [fs[0]], fs[1..]);
        assert seen + UntilBye(fs) == (seen + [fs[0]]) + UntilBye(fs[1..]);
      }
    }
  }

  /** A body carries at least the bytes its frames deliver. */
  lemma {:induction false} DataShort(fs: seq<Frame>)
    ensures |DataOf(UntilBye(fs))| <= |Wire(fs)|
  {
    hide FrameBytes;
    if fs != [] {
      DataShort(fs[1..]);
      if fs[0].kind != BYE {
        DataOfAppend([fs[0]], UntilBye(fs[1..]));
      }
      assert [fs[0]][1..] == [];
    }
  }

  lemma ProcessedAppend(bodies: seq<Bytes>, body: Bytes)
    ensures Processed(bodies + [body]) == Processed(bodies) + if Parse(body).Ok? then UntilBye(Parse(body).value) else []
    ensures Longest(bodies + [body]) == if |body| > Longest(bodies) then |body| else Longest(bodies)
  {
    var all := bodies + [body];
    assert all[..|all| - 1] == bodies && all[|all| - 1] == body;
  }

  lemma PumpKeeps(s: State, rec: Reception)
    requires Inv(s) && !s.isClosed && s.readBuf == []
    ensures Inv(Pump(s, rec).0) && !Pump(s, rec).0.isClosed
  {
    hide Inv, LogState, DataOf, PayloadsOf, Processed, Longest, UntilBye, HandleAll, Parse;
    OpenInv(s);
    var s0 := if rec.laneClosed then s.(eof := true, laneClosed := true) else s;
    var seen := Processed(s.bodies);
    assert Mid(s0, seen);
    if rec.body.Err? {
      OpenInv(s0);
    } else {
      var body := rec.body.value;
      var s1 := s0.(bodies := s0.bodies + [body]);
      ProcessedAppend(s.bodies, body);
      assert Mid(s1, seen);
      if Parse(body).Err? {
        assert seen + [] == seen;
        OpenInv(s1);
      } else {
        var fs := Parse(body).value;
        WireParse(body, fs);
        HandleAllKeeps(s1, seen, fs);
        var s2 := HandleAll(s1, fs).0;
        DataOfAppend(seen, UntilBye(fs));
        DataShort(fs);
        assert s.delivered + [] == s.delivered;
        assert |s2.readBuf| == |DataOf(UntilBye(fs))|;
        OpenInv(s2);
      }
    }
  }

  lemma DeliverKeeps(s: State, n: nat)
    requires Inv(s) && n <= |s.readBuf|
    ensures Inv(Deliver(s, n))
  {
    hide Inv, LogState, DataOf, PayloadsOf, Processed, Longest, GrantFrames;
    var debt, wraps := (s.debt + n) % WORD, (s.debt + n) / WORD;
    WordSplit(s.debt + n);
    var s1 := s.(readBuf := s.readBuf[n..], delivered := s.delivered + s.readBuf[..n], debt := debt, wraps := s.wraps + wraps);
    assert s1.delivered + s1.readBuf == s.delivered + s.readBuf by {
      assert s.readBuf == s.readBuf[..n] + s.readBuf[n..];
    }
    if s.isClosed { DeliverClosed(s, n, s1); } else { DeliverOpen(s, n, s1); }
  }

  lemma DeliverOpen(s: State, n: nat, s1: State)
    requires Inv(s) && n <= |s.readBuf| && !s.isClosed
    requires s1 == s.(readBuf := s.readBuf[n..], delivered := s.delivered + s.readBuf[..n],
                      debt := (s.debt + n) % WORD, wraps := s.wraps + (s.debt + n) / WORD)
    requires s1.delivered + s1.readBuf == s.delivered + s.readBuf
    ensures Inv(Deliver(s, n))
  {
    hide Inv, LogState, DataOf, PayloadsOf, Processed, Longest, GrantFrames, Ends, Grant, WindowFrame;
    OpenInv(s);
    OweMore(s, n, s1);
    if s1.debt >= GRANT_MIN {
      GrantKeeps(s1, Credit(s));
      OpenInv(Grant(s1));
    } else {
      OpenInv(s1);
    }
    DeliverIs(s, n, s1);
  }

  lemma DeliverIs(s: State, n: nat, s1: State)
    requires n <= |s.readBuf|
    requires s1 == s.(readBuf := s.readBuf[n..], delivered := s.delivered + s.readBuf[..n],
                      debt := (s.debt + n) % WORD, wraps := s.wraps + (s.debt + n) / WORD)
    ensures Deliver(s, n) == if s1.debt >= GRANT_MIN then Grant(s1) else s1
  {
    hide Grant;
  }

  /** Delivering adds to what is owed exactly what it adds to what was delivered, words included. */
  lemma OweMore(s: State, n: nat, s1: State)
    requires n <= |s.readBuf| && s1.delivered == s.delivered + s.readBuf[..n]
    requires s1.debt == (s.debt + n) % WORD && s1.wraps == s.wraps + (s.debt + n) / WORD
    ensures |s1.delivered| == |s.delivered| + n && s1.debt < WORD
    ensures s1.debt + WORD * s1.wraps == s.debt + WORD * s.wraps + n
  {
    WordSplit(s.debt + n);
  }

  lemma GrantKeeps(s: State, credit: nat)
    requires !s.isClosed && GRANT_MIN <= s.debt < WORD && credit + s.debt + WORD * s.wraps == |s.delivered|
    requires LogState(s.log, s.isOpen, s.accepted, PayloadsOf(Processed(s.bodies), PING), credit)
    ensures LogState(Grant(s).log, s.isOpen, s.accepted, PayloadsOf(Processed(s.bodies), PING), Credit(Grant(s)))
    ensures Grant(s) == s.(debt := 0, log := Grant(s).log)
  {
    hide LogState, PayloadsOf, Processed;
    AddGrant(s.log, s.isOpen, s.accepted, PayloadsOf(Processed(s.bodies), PING), credit, s.debt);
  }

  lemma DeliverClosed(s: State, n: nat, s1: State)
    requires Inv(s) && n <= |s.readBuf| && s.isClosed
    requires s1 == s.(readBuf := s.readBuf[n..], delivered := s.delivered + s.readBuf[..n],
                      debt := (s.debt + n) % WORD, wraps := s.wraps + (s.debt + n) / WORD)
    requires s1.delivered + s1.readBuf == s.delivered + s.readBuf
    ensures Inv(Deliver(s, n))
  {
    hide DataOf, PayloadsOf, Processed, Longest, WellOrdered, Granted, Ends;
    WordSplit(s.debt + n);
  }

  lemma WordSplit(v: nat)
    ensures v % WORD + WORD * (v / WORD) == v && v % WORD < WORD && (v / WORD > 0 ==> v >= WORD)
  {}

  lemma {:induction false} ReadKeeps(s: State, size: nat, script: seq<Reception>)
    requires Inv(s)
    ensures Inv(Read(s, size, script).0)
    decreases |script|
  {
    hide Inv, Pump, Deliver;
    if |s.readBuf| > 0 {
      DeliverKeeps(s, if size < |s.readBuf| then size else |s.readBuf|);
    } else if !s.eof && !s.isClosed && script != [] {
      PumpKeeps(s, script[0]);
      if Pump(s, script[0]).1.None? {
        ReadKeeps(Pump(s, script[0]).0, size, script[1..]);
      }
    }
  }

  lemma CloseKeeps(s: State)
    requires Inv(s)
    ensures Inv(Close(s))
  {
    hide Processed, Longest, Ends;
    if !s.isClosed && s.isOpen {
      var f := Frame(CLOSE, STREAM, []);
      HasOpenAppend(s.log, f);
      WellOrderedAppend(s.log, f);
      AppendOne(s.log, f, PONG);
    }
  }

  lemma StepKeeps(s: State, op: Op)
    requires Inv(s)
    ensures Inv(Step(s, op))
  {
    hide Inv;
    match op
    case DoRead(size, script) => ReadKeeps(s, size, script);
    case DoWrite(p) => WriteKeeps(s, p);
    case DoClose => CloseKeeps(s);
  }

  /** Every run, whatever the relay answers, keeps the whole invariant. */
  lemma {:induction false} RunSafe(ops: seq<Op>)
    ensures Inv(Run(ops))
  {
    if ops != [] {
      RunSafe(ops[..|ops| - 1]);
      StepKeeps(Run(ops[..|ops| - 1]), ops[|ops| - 1]);
    }
  }

  /** With bodies of at most 8 MiB the credit word never overflows and credit is conserved exactly. */
  lemma CreditConserved(ops: seq<Op>)
    ensures
      var s := Run(ops);
      && s.debt < GRANT_MIN
      && (Longest(s.bodies) <= 0x80_0000 ==> Granted(s.log) + s.dropped + s.debt == |s.delivered|)
  {
    RunSafe(ops);
  }

  /** The bytes handed to the transport decode to exactly the frames of the run. */
  lemma LogParses(ops: seq<Op>)
    ensures Parse(Wire(Run(ops).log)) == Ok(Run(ops).log)
  {
    RunSafe(ops);
    ParseWire(Run(ops).log);
  }

  /** One call after the close, whichever it is. */
  lemma ClosedIsFinal(s: State, op: Op)
    requires s.isClosed
    ensures
      var t := Step(s, op);
      t.isClosed && t.log == s.log && t.bodies == s.bodies && t.accepted == s.accepted
  {}

  /** A run that goes on after the close hands nothing more to the transport and asks it for nothing. */
  lemma {:induction false} NothingAfterClose(ops: seq<Op>, more: seq<Op>)
    requires Run(ops).isClosed
    ensures
      var s, t := Run(ops), Run(ops + more);
      t.isClosed && t.log == s.log && t.bodies == s.bodies && t.accepted == s.accepted
    decreases |more|
  {
    hide Step;
    if more == [] {
      assert ops + more == ops;
    } else {
      var init, last := more[..|more| - 1], more[|more| - 1];
      assert (ops + more)[..|ops + more| - 1] == ops + init;
      NothingAfterClose(ops, init);
      ClosedIsFinal(Run(ops + init), last);
    }
  }
}

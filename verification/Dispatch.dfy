/** internal/mtproto/api.go: the walk through a decrypted message in search of our answer. */
module Dispatch {
  import opened Bytes
  import opened Wrappers
  import opened Tl
  import Crypto
  import Session

  const RPC_RESULT := 0xF35C6D01
  const GZIP_PACKED := 0x3072CFA1
  const CONTAINER := 0x73F1F8DC
  const BAD_SERVER_SALT := 0xEDAB447B
  const NEW_SESSION := 0x9EC20908
  const RPC_ERROR := 0x2144CA19
  const INFLATE_LIMIT := 0x100_0000
  const MAX_ENTRIES := 64
  const MAX_REPLIES := 16

  /** What decompression makes of some bytes: no gzip at all, or a stream that may end in an error. */
  datatype Inflated = NotGzip | Inflated(produced: Bytes, clean: bool)

  type Gunzip = Bytes -> Inflated

  datatype Verdict = Nothing | Answer(payload: Bytes) | Retry | Refused(code: int, message: Bytes) | Failed(error: Error)

  function Ctor(body: Bytes): nat
    requires |body| >= 4
  {
    LeNat(body[..4])
  }

  /** Lines 229-245: at most 16 MiB are read, and an error behind them is never seen. */
  function Unpacked(gunzip: Gunzip, body: Bytes): Result<Bytes> {
    if |body| < 4 || Ctor(body) != GZIP_PACKED then Ok(body)
    else
      var (c, packed) := TakeString(Take(Start(body), 4).0);
      if c.err.Some? then Err(c.err.value)
      else
        match gunzip(packed)
        case NotGzip => Err(GzipFailed)
        case Inflated(p, clean) =>
          if |p| >= INFLATE_LIMIT then Ok(p[..INFLATE_LIMIT]) else if clean then Ok(p) else Err(GzipFailed)
  }

  // ---- leaves and their meaning

  /** A leaf message, or the place where the nesting cannot be followed further. */
  datatype Event = Leaf(body: Bytes) | Malformed(error: Error)

  function SignedWord(v: nat): int { if v < 0x8000_0000 then v else v - 0x1_0000_0000 }

  function RpcFailure(payload: Bytes): Verdict {
    var (c, code) := TakeNat(TakeNat(Start(payload), 4).0, 4);
    var (c1, message) := TakeString(c);
    if c1.err.Some? then Failed(c1.err.value) else Refused(SignedWord(code), message)
  }

  function ResultVerdict(gunzip: Gunzip, body: Bytes, msgId: nat): Verdict {
    var (c, answered) := TakeNat(TakeNat(Start(body), 4).0, 8);
    if c.err.Some? then Failed(c.err.value)
    else if answered != msgId then Nothing
    else
      match Unpacked(gunzip, body[c.i..])
      case Err(e) => Failed(e)
      case Ok(payload) => if |payload| >= 4 && Ctor(payload) == RPC_ERROR then RpcFailure(payload) else Answer(payload)
  }

  /** The reader that has skipped what precedes the salt in either message that carries one. */
  function SaltAt(body: Bytes): (Cur, Bytes) {
    Take(Take(Start(body), 20).0, 8)
  }

  function VerdictOf(gunzip: Gunzip, e: Event, msgId: nat): Verdict {
    match e
    case Malformed(error) => Failed(error)
    case Leaf(body) =>
      if |body| < 4 then Failed(EmptyBody)
      else if Ctor(body) == RPC_RESULT then ResultVerdict(gunzip, body, msgId)
      else if Ctor(body) == BAD_SERVER_SALT then (if SaltAt(body).0.err.Some? then Failed(SaltAt(body).0.err.value) else Retry)
      else Nothing
  }

  /** The salt a leaf announces, if it does. */
  function SaltOf(e: Event): (r: Option<Session.Eight>) {
    if e.Leaf? && |e.body| >= 4 && Ctor(e.body) in {BAD_SERVER_SALT, NEW_SESSION} && SaltAt(e.body).0.err.None?
    then Some(SaltAt(e.body).1) else None
  }

  function NewSalt(e: Event, salt: Session.Eight): Session.Eight {
    match SaltOf(e) case Some(s) => s case None => salt
  }

  /** Left to right: the first event with a verdict decides, every salt on the way is kept. */
  function Scan(gunzip: Gunzip, es: seq<Event>, msgId: nat, salt: Session.Eight): (Verdict, Session.Eight) {
    if es == [] then (Nothing, salt)
    else
      var v, s := VerdictOf(gunzip, es[0], msgId), NewSalt(es[0], salt);
      if v.Nothing? then Scan(gunzip, es[1..], msgId, s) else (v, s)
  }

  // ---- flattening

  /**
   * All leaves of a message, in order, through containers and up to `depth` levels of
   * compression.
   */
  function Events(gunzip: Gunzip, body: Bytes, depth: nat): seq<Event>
    decreases depth, |body|, 1, 0
  {
    if |body| < 4 then [Malformed(EmptyBody)]
    else if Ctor(body) == GZIP_PACKED then
      match Unpacked(gunzip, body)
      case Err(e) => [Malformed(e)]
      case Ok(p) => if depth == 0 then [Malformed(GzipTooDeep)] else Events(gunzip, p, depth - 1)
    else if Ctor(body) == CONTAINER then
      var (c, count) := TakeNat(Take(Start(body), 4).0, 4);
      if count > MAX_ENTRIES then [Malformed(ImplausibleContainer)] else EntryEvents(gunzip, body, c, count, depth)
    else [Leaf(body)]
  }

  /** One container entry: its size, and the reader behind its head. */
  function EntryHead(c: Cur): (Cur, nat) {
    TakeNat(Take(Take(c, 8).0, 4).0, 4)
  }

  function EntryEvents(gunzip: Gunzip, body: Bytes, c: Cur, count: nat, depth: nat): seq<Event>
    requires c.b == body && c.i <= |body|
    decreases depth, |body|, 0, count
  {
    if count == 0 then []
    else
      var (c1, size) := EntryHead(c);
      if size > |body| then [Malformed(MalformedEntry)]
      else
        var (c2, inner) := Take(c1, size);
        if c2.err.Some? then [Malformed(c2.err.value)]
        else
          EntryShrinks(c);
          Events(gunzip, inner, depth) + EntryEvents(gunzip, body, c2, count - 1, depth)
  }

  /** An entry that is taken without error is at least sixteen bytes shorter than its container. */
  lemma EntryShrinks(c: Cur)
    requires c.i <= |c.b|
    ensures
      var (c1, size) := EntryHead(c);
      var c2 := Take(c1, size).0;
      c2.b == c.b && (c2.err.None? ==> size + 16 <= |c.b| && c2.i <= |c.b|)
  {}

  // ---- scanning is compositional

  lemma {:induction false} ScanAppend(gunzip: Gunzip, a: seq<Event>, b: seq<Event>, msgId: nat, salt: Session.Eight)
    ensures
      var first := Scan(gunzip, a, msgId, salt);
      Scan(gunzip, a + b, msgId, salt) == if first.0.Nothing? then Scan(gunzip, b, msgId, first.1) else first
    decreases |a|
  {
    hide VerdictOf, NewSalt;
    if a == [] {
      assert a + b == b;
    } else {
      assert (a + b)[0] == a[0] && (a + b)[1..] == a[1..] + b;
      ScanAppend(gunzip, a[1..], b, msgId, NewSalt(a[0], salt));
    }
  }

  lemma ScanOne(gunzip: Gunzip, e: Event, msgId: nat, salt: Session.Eight)
    ensures Scan(gunzip, [e], msgId, salt) == (VerdictOf(gunzip, e, msgId), NewSalt(e, salt))
  {
    assert [e][1..] == [];
  }

  // ---- what a scan means

  /** The salt in force after some events: the one announced last. */
  function LastSalt(es: seq<Event>, salt: Session.Eight): Session.Eight {
    if es == [] then salt else NewSalt(es[|es| - 1], LastSalt(es[..|es| - 1], salt))
  }

  lemma {:induction false} ScanQuiet(gunzip: Gunzip, es: seq<Event>, msgId: nat, salt: Session.Eight)
    requires forall k :: 0 <= k < |es| ==> VerdictOf(gunzip, es[k], msgId).Nothing?
    ensures Scan(gunzip, es, msgId, salt) == (Nothing, LastSalt(es, salt))
    decreases |es|
  {
    hide VerdictOf, NewSalt;
    if es != [] {
      var n := |es| - 1;
      assert es == es[..n] + [es[n]];
      ScanQuiet(gunzip, es[..n], msgId, salt);
      ScanAppend(gunzip, es[..n], [es[n]], msgId, salt);
      ScanOne(gunzip, es[n], msgId, LastSalt(es[..n], salt));
    }
  }

  /**
   * The first event with a verdict decides, and the salt is the last one announced up to
   * and including that event; a new salt behind it is not seen.
   */
  lemma ScanDecides(gunzip: Gunzip, es: seq<Event>, k: nat, msgId: nat, salt: Session.Eight)
    requires k < |es| && !VerdictOf(gunzip, es[k], msgId).Nothing?
    requires forall j :: 0 <= j < k ==> VerdictOf(gunzip, es[j], msgId).Nothing?
    ensures Scan(gunzip, es, msgId, salt) == (VerdictOf(gunzip, es[k], msgId), LastSalt(es[..k + 1], salt))
  {
    hide VerdictOf, NewSalt, Scan;
    assert es == es[..k] + ([es[k]] + es[k + 1..]);
    assert es[..k + 1][..k] == es[..k];
    ScanQuiet(gunzip, es[..k], msgId, salt);
    ScanAppend(gunzip, es[..k], [es[k]] + es[k + 1..], msgId, salt);
    ScanAppend(gunzip, [es[k]], es[k + 1..], msgId, LastSalt(es[..k], salt));
    ScanOne(gunzip, es[k], msgId, LastSalt(es[..k], salt));
  }

  /** A retry is asked for exactly by a bad_server_salt that brings a complete salt. */
  lemma RetryExactly(gunzip: Gunzip, e: Event, msgId: nat)
    ensures VerdictOf(gunzip, e, msgId).Retry? <==> SaltOf(e).Some? && Ctor(e.body) == BAD_SERVER_SALT
  {}

  // ---- the walk itself

  /**
   * Lines 131-215. The walk visits nested messages as it meets them and stops at the
   * first verdict; what it returns and the salt it leaves are those of a scan over the
   * flattened leaves.
   */
  method Walk(gunzip: Gunzip, session: Session.Session, body: Bytes, msgId: nat, depth: nat) returns (v: Verdict)
    requires session.Valid()
    modifies session`salt
    ensures session.Valid() && (v, session.salt) == Scan(gunzip, Events(gunzip, body, depth), msgId, old(session.salt))
    decreases depth, |body|, 1, 0
  {
    hide Scan, VerdictOf, NewSalt, EntryEvents, Unpacked;
    if |body| < 4 {
      EmptyLeaf(gunzip, msgId, session.salt);
      return Failed(EmptyBody);
    }
    var ctor := Ctor(body);
    if ctor == GZIP_PACKED {
      var payload := Unpacked(gunzip, body);
      if payload.Err? {
        MalformedScan(gunzip, payload.error, msgId, session.salt);
        return Failed(payload.error);
      }
      if depth == 0 {
        MalformedScan(gunzip, GzipTooDeep, msgId, session.salt);
        return Failed(GzipTooDeep);
      }
      v := Walk(gunzip, session, payload.value, msgId, depth - 1);
    } else if ctor == CONTAINER {
      v := WalkContainer(gunzip, session, body, msgId, depth);
    } else {
      v := WalkLeaf(gunzip, session, body, msgId);
    }
  }

  lemma EmptyLeaf(gunzip: Gunzip, msgId: nat, salt: Session.Eight)
    ensures Scan(gunzip, [Malformed(EmptyBody)], msgId, salt) == (Failed(EmptyBody), salt)
  {
    MalformedScan(gunzip, EmptyBody, msgId, salt);
  }

  lemma MalformedScan(gunzip: Gunzip, e: Error, msgId: nat, salt: Session.Eight)
    ensures Scan(gunzip, [Malformed(e)], msgId, salt) == (Failed(e), salt)
  {
    ScanOne(gunzip, Malformed(e), msgId, salt);
  }

  /** Lines 163-186. */
  method WalkContainer(gunzip: Gunzip, session: Session.Session, body: Bytes, msgId: nat, depth: nat) returns (v: Verdict)
    requires session.Valid() && |body| >= 4 && Ctor(body) == CONTAINER
    modifies session`salt
    ensures session.Valid() && (v, session.salt) == Scan(gunzip, Events(gunzip, body, depth), msgId, old(session.salt))
    decreases depth, |body|, 0, 0
  {
    hide Scan, TakeNat, Take, Events, EntryEvents, EntryHead;
    ContainerEvents(gunzip, body, depth);
    var c := new Cursor(body);
    var skipped := c.Next(4);
    var count := c.U32();
    if count > MAX_ENTRIES {
      MalformedScan(gunzip, ImplausibleContainer, msgId, session.salt);
      return Failed(ImplausibleContainer);
    }
    ghost var all := Events(gunzip, body, depth);
    var k := 0;
    while k < count
      invariant 0 <= k <= count && session.Valid() && c.b == body && c.i <= |body| && fresh(c)
      invariant Scan(gunzip, all, msgId, old(session.salt)) ==
                Scan(gunzip, EntryEvents(gunzip, body, c.At(), count - k, depth), msgId, session.salt)
    {
      EntryStep(gunzip, body, c.At(), count - k, depth, msgId, session.salt);
      skipped := c.Next(8);
      skipped := c.Next(4);
      var size := c.U32();
      if size > |body| {
        return Failed(MalformedEntry);
      }
      var inner := c.Next(size);
      if c.err.Some? {
        return Failed(c.err.value);
      }
      v := Walk(gunzip, session, inner, msgId, depth);
      if !v.Nothing? {
        return v;
      }
      k := k + 1;
    }
    ScanNone(gunzip, body, c.At(), depth, msgId, session.salt);
    return Nothing;
  }

  lemma ScanNone(gunzip: Gunzip, body: Bytes, c: Cur, depth: nat, msgId: nat, salt: Session.Eight)
    requires c.b == body && c.i <= |body|
    ensures Scan(gunzip, EntryEvents(gunzip, body, c, 0, depth), msgId, salt) == (Nothing, salt)
  {}

  lemma ContainerEvents(gunzip: Gunzip, body: Bytes, depth: nat)
    requires |body| >= 4 && Ctor(body) == CONTAINER
    ensures
      var (c, count) := TakeNat(Take(Start(body), 4).0, 4);
      Events(gunzip, body, depth) ==
        if count > MAX_ENTRIES then [Malformed(ImplausibleContainer)] else EntryEvents(gunzip, body, c, count, depth)
  {}

  /** Scanning from an entry on: either the entry is malformed, or its leaves come first. */
  lemma EntryStep(gunzip: Gunzip, body: Bytes, c: Cur, count: nat, depth: nat, msgId: nat, salt: Session.Eight)
    requires c.b == body && c.i <= |body| && count > 0
    ensures
      var (c1, size) := TakeNat(Take(Take(c, 8).0, 4).0, 4);
      var (c2, inner) := Take(c1, size);
      var whole := Scan(gunzip, EntryEvents(gunzip, body, c, count, depth), msgId, salt);
      if size > |body| then whole == (Failed(MalformedEntry), salt)
      else if c2.err.Some? then whole == (Failed(c2.err.value), salt)
      else
        && |inner| < |body| && c2.b == body && c2.i <= |body|
        && var first := Scan(gunzip, Events(gunzip, inner, depth), msgId, salt);
        whole == if first.0.Nothing? then Scan(gunzip, EntryEvents(gunzip, body, c2, count - 1, depth), msgId, first.1)
                 else first
  {
    hide Scan, TakeNat, Take, Events;
    EntryShrinks(c);
    var (c1, size) := EntryHead(c);
    var (c2, inner) := Take(c1, size);
    MalformedScan(gunzip, MalformedEntry, msgId, salt);
    if size <= |body| {
      if c2.err.Some? {
        MalformedScan(gunzip, c2.err.value, msgId, salt);
      } else {
        ScanAppend(gunzip, Events(gunzip, inner, depth), EntryEvents(gunzip, body, c2, count - 1, depth), msgId, salt);
      }
    }
  }

  /** Lines 137-154, 188-214. */
  method WalkLeaf(gunzip: Gunzip, session: Session.Session, body: Bytes, msgId: nat) returns (v: Verdict)
    requires session.Valid() && |body| >= 4
    modifies session`salt
    ensures session.Valid() && (v, session.salt) == Scan(gunzip, [Leaf(body)], msgId, old(session.salt))
  {
    hide Scan, ResultVerdict;
    ScanOne(gunzip, Leaf(body), msgId, session.salt);
    var ctor := Ctor(body);
    if ctor == RPC_RESULT {
      v := ReadResult(gunzip, body, msgId);
    } else if ctor == BAD_SERVER_SALT || ctor == NEW_SESSION {
      var c := new Cursor(body);
      var skipped := c.Next(20);
      var salt := c.Next(8);
      if c.err.None? {
        session.salt := salt;
      }
      if ctor == NEW_SESSION { return Nothing; }
      v := if c.err.Some? then Failed(c.err.value) else Retry;
    } else {
      v := Nothing;
    }
  }

  /** Lines 138-154. */
  method ReadResult(gunzip: Gunzip, body: Bytes, msgId: nat) returns (v: Verdict)
    ensures v == ResultVerdict(gunzip, body, msgId)
  {
    hide Unpacked, RpcFailure, TakeNat;
    var c := new Cursor(body);
    var skipped := c.U32();
    var answered := c.U64();
    if c.err.Some? {
      return Failed(c.err.value);
    }
    if answered != msgId {
      return Nothing;
    }
    var payload := Unpacked(gunzip, body[c.i..]);
    if payload.Err? {
      return Failed(payload.error);
    }
    if |payload.value| >= 4 && Ctor(payload.value) == RPC_ERROR {
      return RpcFailure(payload.value);
    }
    return Answer(payload.value);
  }

  // ---- waiting for the reply, and the one retry

  /** What the transport hands over next: a packet, or a failure such as the deadline passing. */
  datatype Arrival = Packet(raw: Bytes) | Lost(error: Error)

  /** How a reply is read: decryption and decompression. */
  datatype Lens = Lens(suite: Crypto.Suite, auth: Session.Auth, gunzip: Gunzip, depth: nat)

  function ArrivalEvents(l: Lens, a: Arrival): seq<Event> {
    match a
    case Lost(e) => [Malformed(e)]
    case Packet(raw) =>
      match Session.Opened(l.suite, l.auth, 8, raw)
      case Err(e) => [Malformed(e)]
      case Ok(plain) => Events(l.gunzip, plain, l.depth)
  }

  function AllEvents(l: Lens, arrivals: seq<Arrival>): seq<Event> {
    if arrivals == [] then [] else ArrivalEvents(l, arrivals[0]) + AllEvents(l, arrivals[1..])
  }

  /** How an await ends: its verdict, the salt then in force, and how many arrivals it used. */
  datatype Awaited = Awaited(verdict: Verdict, salt: Session.Eight, used: nat)

  function Await(l: Lens, arrivals: seq<Arrival>, msgId: nat, salt: Session.Eight, budget: nat): (r: Awaited)
    ensures r.used <= |arrivals| && r.used <= budget && !r.verdict.Nothing?
  {
    if budget == 0 then Awaited(Failed(NoReply), salt, 0)
    else if arrivals == [] then Awaited(Failed(TransportFailed), salt, 0)
    else
      var (v, s) := Scan(l.gunzip, ArrivalEvents(l, arrivals[0]), msgId, salt);
      if !v.Nothing? then Awaited(v, s, 1)
      else
        var rest := Await(l, arrivals[1..], msgId, s, budget - 1);
        rest.(used := rest.used + 1)
  }

  /**
   * Waiting is one scan over everything that arrives within the budget: packet and
   * container boundaries do not matter.
   */
  lemma {:induction false} AwaitScans(l: Lens, arrivals: seq<Arrival>, msgId: nat, salt: Session.Eight, budget: nat)
    ensures
      var seen := if budget <= |arrivals| then arrivals[..budget] else arrivals;
      var (v, s) := Scan(l.gunzip, AllEvents(l, seen), msgId, salt);
      var r := Await(l, arrivals, msgId, salt, budget);
      && r.salt == s
      && r.verdict == if !v.Nothing? then v else Failed(if budget <= |arrivals| then NoReply else TransportFailed)
    decreases budget
  {
    hide ArrivalEvents, VerdictOf, NewSalt;
    var seen := if budget <= |arrivals| then arrivals[..budget] else arrivals;
    if budget > 0 && arrivals != [] {
      var first := ArrivalEvents(l, arrivals[0]);
      assert seen[1..] == if budget - 1 <= |arrivals[1..]| then arrivals[1..][..budget - 1] else arrivals[1..];
      ScanAppend(l.gunzip, first, AllEvents(l, seen[1..]), msgId, salt);
      AwaitScans(l, arrivals[1..], msgId, Scan(l.gunzip, first, msgId, salt).1, budget - 1);
    }
  }

  /** The arrival that brings a verdict is the last one used. */
  lemma {:induction false} AwaitStops(l: Lens, arrivals: seq<Arrival>, m: nat, msgId: nat, salt: Session.Eight, budget: nat)
    requires m < |arrivals| && m < budget
    requires Scan(l.gunzip, AllEvents(l, arrivals[..m]), msgId, salt).0.Nothing?
    ensures
      var (v, s) := Scan(l.gunzip, ArrivalEvents(l, arrivals[m]), msgId, Scan(l.gunzip, AllEvents(l, arrivals[..m]), msgId, salt).1);
      !v.Nothing? ==> Await(l, arrivals, msgId, salt, budget) == Awaited(v, s, m + 1)
    decreases m
  {
    hide ArrivalEvents, VerdictOf, NewSalt;
    if m > 0 {
      var first := ArrivalEvents(l, arrivals[0]);
      assert arrivals[..m][0] == arrivals[0] && arrivals[..m][1..] == arrivals[1..][..m - 1];
      ScanAppend(l.gunzip, first, AllEvents(l, arrivals[..m][1..]), msgId, salt);
      AwaitStops(l, arrivals[1..], m - 1, msgId, Scan(l.gunzip, first, msgId, salt).1, budget - 1);
    } else {
      assert arrivals[..0] == [];
    }
  }

  /** Lines 102-127. */
  method AwaitResult(gunzip: Gunzip, session: Session.Session, arrivals: seq<Arrival>, msgId: nat, depth: nat)
    returns (v: Verdict, used: nat)
    requires session.Valid()
    modifies session`salt
    ensures session.Valid()
    ensures Awaited(v, session.salt, used) ==
            Await(Lens(session.suite, session.auth, gunzip, depth), arrivals, msgId, old(session.salt), MAX_REPLIES)
  {
    hide Scan, Events, Session.Opened;
    ghost var l := Lens(session.suite, session.auth, gunzip, depth);
    ghost var whole := Await(l, arrivals, msgId, session.salt, MAX_REPLIES);
    used := 0;
    while used < MAX_REPLIES
      invariant 0 <= used <= MAX_REPLIES && used <= |arrivals| && session.Valid()
      invariant
        var rest := Await(l, arrivals[used..], msgId, session.salt, MAX_REPLIES - used);
        whole == rest.(used := used + rest.used)
    {
      assert used < |arrivals| ==> arrivals[used..][0] == arrivals[used] && arrivals[used..][1..] == arrivals[used + 1..];
      if used == |arrivals| { return Failed(TransportFailed), used; }
      var next := arrivals[used];
      if next.Lost? {
        MalformedScan(gunzip, next.error, msgId, session.salt);
        return Failed(next.error), used + 1;
      }
      var plain := session.Decrypt(next.raw);
      if plain.Err? {
        MalformedScan(gunzip, plain.error, msgId, session.salt);
        return Failed(plain.error), used + 1;
      }
      v := Walk(gunzip, session, plain.value, msgId, depth);
      if !v.Nothing? { return v, used + 1; }
      used := used + 1;
    }
    v := Failed(NoReply);
  }

  /** What one attempt draws from the clock and the random source, and whether sending it works. */
  datatype Attempt = Attempt(msgId: nat, filler: Bytes, sent: Option<Error>)

  function QueryPacket(l: Lens, id: Session.Eight, packets: nat, query: Bytes, a: Attempt, salt: Session.Eight): Bytes
    requires |a.filler| == Session.PaddingFor(Session.HEADER + |query|)
  {
    Session.Seal(l.suite, l.auth, 0, Session.Plain(salt, id, a.msgId, (2 * packets + 1) % Session.WORD, query, a.filler))
  }

  /**
   * How a call ends: what it returns, the packets sent and the salt left. The second packet
   * goes out exactly when the first was sent and its replies ask for a retry; it repeats
   * the query with the next odd sequence number under the salt then in force, and its
   * replies are those left over.
   */
  ghost predicate CallEnds(l: Lens, id: Session.Eight, count: nat, query: Bytes, first: Attempt, second: Attempt,
                           arrivals: seq<Arrival>, salt: Session.Eight, r: Verdict, packets: seq<Bytes>, left: Session.Eight)
    requires |first.filler| == |second.filler| == Session.PaddingFor(Session.HEADER + |query|)
  {
    var opening := QueryPacket(l, id, count, query, first, salt);
    var a := Await(l, arrivals, first.msgId, salt, MAX_REPLIES);
    if first.sent.Some? then
      r == Failed(first.sent.value) && packets == [opening] && left == salt
    else if !a.verdict.Retry? then
      r == a.verdict && packets == [opening] && left == a.salt
    else
      var again := QueryPacket(l, id, count + 1, query, second, a.salt);
      var b := Await(l, arrivals[a.used..], second.msgId, a.salt, MAX_REPLIES);
      && packets == [opening, again]
      && if second.sent.Some? then r == Failed(second.sent.value) && left == a.salt
         else r == (if b.verdict.Retry? then Failed(SaltRejected) else b.verdict) && left == b.salt
  }

  /** Lines 71-100. */
  method Invoke(gunzip: Gunzip, session: Session.Session, query: Bytes, first: Attempt, second: Attempt,
                arrivals: seq<Arrival>, depth: nat)
    returns (r: Verdict, packets: seq<Bytes>)
    requires session.Valid()
    requires |first.filler| == |second.filler| == Session.PaddingFor(Session.HEADER + |query|)
    modifies session
    ensures session.Valid() && !r.Nothing? && !r.Retry?
    ensures CallEnds(Lens(session.suite, session.auth, gunzip, depth), session.id, old(session.packets), query, first, second,
                     arrivals, old(session.salt), r, packets, session.salt)
  {
    hide Await, Session.Seal, Session.Plain;
    packets := [];
    var unread := arrivals;
    var retry := 0;
    ghost var l := Lens(session.suite, session.auth, gunzip, depth);
    ghost var a := Await(l, arrivals, first.msgId, session.salt, MAX_REPLIES);
    while retry < 2
      invariant 0 <= retry <= 1 && session.Valid() && session.packets == old(session.packets) + retry
      invariant retry == 0 ==> packets == [] && unread == arrivals && session.salt == old(session.salt)
      invariant retry == 1 ==>
        && first.sent.None? && a.verdict.Retry? && session.salt == a.salt && unread == arrivals[a.used..]
        && packets == [QueryPacket(l, session.id, old(session.packets), query, first, old(session.salt))]
    {
      var attempt := if retry == 0 then first else second;
      var packet := session.Encrypt(query, attempt.msgId, attempt.filler);
      packets := packets + [packet];
      if attempt.sent.Some? { return Failed(attempt.sent.value), packets; }
      var v, used := AwaitResult(gunzip, session, unread, attempt.msgId, depth);
      if !v.Retry? { return v, packets; }
      if retry == 1 { return Failed(SaltRejected), packets; }
      unread := unread[used..];
      retry := retry + 1;
    }
    assert false;
  }

  // ---- the depth limit is only a bound

  ghost predicate Exhausted(es: seq<Event>) { Malformed(GzipTooDeep) in es }

  /** Events that stay within a depth are the events at every greater depth. */
  lemma {:induction false} DepthSuffices(gunzip: Gunzip, body: Bytes, depth: nat, more: nat)
    requires depth <= more && !Exhausted(Events(gunzip, body, depth))
    ensures Events(gunzip, body, more) == Events(gunzip, body, depth)
    decreases depth, |body|, 1, 0
  {
    hide Unpacked, TakeNat, Take, EntryEvents;
    if |body| >= 4 && Ctor(body) == GZIP_PACKED {
      if Unpacked(gunzip, body).Ok? {
        assert depth == 0 ==> Malformed(GzipTooDeep) in [Malformed(GzipTooDeep)];
        DepthSuffices(gunzip, Unpacked(gunzip, body).value, depth - 1, more - 1);
      }
    } else if |body| >= 4 && Ctor(body) == CONTAINER {
      var (c, count) := TakeNat(Take(Start(body), 4).0, 4);
      if count <= MAX_ENTRIES { EntriesSuffice(gunzip, body, c, count, depth, more); }
    }
  }

  lemma {:induction false} EntriesSuffice(gunzip: Gunzip, body: Bytes, c: Cur, count: nat, depth: nat, more: nat)
    requires depth <= more && c.b == body && c.i <= |body|
    requires !Exhausted(EntryEvents(gunzip, body, c, count, depth))
    ensures EntryEvents(gunzip, body, c, count, more) == EntryEvents(gunzip, body, c, count, depth)
    decreases depth, |body|, 0, count
  {
    hide TakeNat, Take, EntryHead, Events;
    if count > 0 {
      EntryShrinks(c);
      var (c1, size) := EntryHead(c);
      var (c2, inner) := Take(c1, size);
      if size <= |body| && c2.err.None? {
        var first, rest := Events(gunzip, inner, depth), EntryEvents(gunzip, body, c2, count - 1, depth);
        assert forall e :: e in first ==> e in first + rest;
        assert forall e :: e in rest ==> e in first + rest;
        DepthSuffices(gunzip, inner, depth, more);
        EntriesSuffice(gunzip, body, c2, count - 1, depth, more);
      }
    }
  }

  // ---- well-formed nesting

  /** A message as its sender composed it; inside a container its id and number go along. */
  datatype Message =
    | Plain(id: nat, seqNo: nat, body: Bytes)
    | Box(id: nat, seqNo: nat, entries: seq<Message>)
    | Zip(id: nat, seqNo: nat, packed: Bytes, inner: Message)

  function Encoded(m: Message): Bytes
    decreases m, 1
  {
    match m
    case Plain(_, _, body) => body
    case Box(_, _, entries) => Le(CONTAINER, 4) + Le(|entries|, 4) + EncodedEntries(entries)
    case Zip(_, _, packed, _) => Le(GZIP_PACKED, 4) + StringAt(4, packed)
  }

  function EncodedEntries(entries: seq<Message>): Bytes
    decreases entries, 0
  {
    if entries == [] then []
    else
      var body := Encoded(entries[0]);
      Le(entries[0].id, 8) + Le(entries[0].seqNo, 4) + Le(|body|, 4) + body + EncodedEntries(entries[1..])
  }

  function Leaves(m: Message): seq<Event>
    decreases m, 1
  {
    match m
    case Plain(_, _, body) => [Leaf(body)]
    case Box(_, _, entries) => EntryLeaves(entries)
    case Zip(_, _, _, inner) => Leaves(inner)
  }

  function EntryLeaves(entries: seq<Message>): seq<Event>
    decreases entries, 0
  {
    if entries == [] then [] else Leaves(entries[0]) + EntryLeaves(entries[1..])
  }

  /** Limits a sender has to respect, and compressed parts that decompress to what they claim. */
  ghost predicate WellFormed(gunzip: Gunzip, m: Message, depth: nat)
    decreases m, 1
  {
    match m
    case Plain(_, _, body) => |body| >= 4 && Ctor(body) !in {GZIP_PACKED, CONTAINER}
    case Box(_, _, entries) => |entries| <= MAX_ENTRIES && WellFormedEntries(gunzip, entries, depth)
    case Zip(_, _, packed, inner) =>
      && depth > 0 && |packed| < 0x100_0000 && |Encoded(inner)| <= INFLATE_LIMIT
      && gunzip(packed) == Inflated(Encoded(inner), true) && WellFormed(gunzip, inner, depth - 1)
  }

  ghost predicate WellFormedEntries(gunzip: Gunzip, entries: seq<Message>, depth: nat)
    decreases entries, 0
  {
    entries == [] ||
    (&& |Encoded(entries[0])| < 0x1_0000_0000
     && WellFormed(gunzip, entries[0], depth) && WellFormedEntries(gunzip, entries[1..], depth))
  }

  /** A well-formed message flattens to exactly the leaves its sender put in. */
  lemma {:induction false} EventsAreLeaves(gunzip: Gunzip, m: Message, depth: nat)
    requires WellFormed(gunzip, m, depth)
    ensures Events(gunzip, Encoded(m), depth) == Leaves(m)
    decreases m, 1
  {
    hide EntryEvents, TakeString, StringAt, Le, LeNat, TakeNat, EncodedEntries;
    var body := Encoded(m);
    Widths();
    match m
    case Plain(_, _, _) =>
    case Zip(_, _, packed, inner) =>
      LeRoundTrip(GZIP_PACKED, 4);
      assert body[..4] == Le(GZIP_PACKED, 4);
      ZipUnpacks(gunzip, packed, Encoded(inner));
      EventsAreLeaves(gunzip, inner, depth - 1);
    case Box(_, _, entries) =>
      LeRoundTrip(CONTAINER, 4);
      assert body[..4] == Le(CONTAINER, 4);
      var c := Take(Start(body), 4).0;
      assert body[4..8] == Le(|entries|, 4) && body[8..] == EncodedEntries(entries);
      NatAhead(c, |entries|, 4);
      EntriesAreLeaves(gunzip, body, c.(i := 8), entries, depth);
  }

  lemma ZipUnpacks(gunzip: Gunzip, packed: Bytes, inner: Bytes)
    requires |packed| < 0x100_0000 && |inner| <= INFLATE_LIMIT && gunzip(packed) == Inflated(inner, true)
    ensures
      var body := Le(GZIP_PACKED, 4) + StringAt(4, packed);
      |body| >= 4 && Ctor(body) == GZIP_PACKED && Unpacked(gunzip, body) == Ok(inner)
  {
    hide TakeString, StringAt, Le, LeNat;
    var body := Le(GZIP_PACKED, 4) + StringAt(4, packed);
    Widths();
    LeRoundTrip(GZIP_PACKED, 4);
    assert body[..4] == Le(GZIP_PACKED, 4);
    var c := Take(Start(body), 4).0;
    assert body[4..4 + |StringAt(4, packed)|] == StringAt(4, packed);
    StringAhead(c, packed);
    assert |inner| >= INFLATE_LIMIT ==> inner[..INFLATE_LIMIT] == inner;
  }

  lemma {:induction false} EntriesAreLeaves(gunzip: Gunzip, body: Bytes, c: Cur, entries: seq<Message>, depth: nat)
    requires WellFormedEntries(gunzip, entries, depth) && c.err.None? && c.b == body && c.i <= |body|
    requires body[c.i..] == EncodedEntries(entries)
    ensures EntryEvents(gunzip, body, c, |entries|, depth) == EntryLeaves(entries)
    decreases entries, 0
  {
    hide Events, Le, LeNat, Encoded, WellFormed;
    if entries != [] {
      var inner := Encoded(entries[0]);
      var head := Le(entries[0].id, 8) + Le(entries[0].seqNo, 4) + Le(|inner|, 4);
      var rest := EncodedEntries(entries[1..]);
      assert body[c.i..] == head + inner + rest;
      EntryAhead(c, entries[0], inner, rest);
      EventsAreLeaves(gunzip, entries[0], depth);
      EntriesAreLeaves(gunzip, body, c.(i := c.i + 16 + |inner|), entries[1..], depth);
    }
  }

  lemma EntryAhead(c: Cur, e: Message, inner: Bytes, rest: Bytes)
    requires c.err.None? && c.i <= |c.b| && |inner| < 0x1_0000_0000
    requires c.b[c.i..] == Le(e.id, 8) + Le(e.seqNo, 4) + Le(|inner|, 4) + inner + rest
    ensures
      var (c1, size) := EntryHead(c);
      && size == |inner| <= |c.b| && Take(c1, size) == (c.(i := c.i + 16 + |inner|), inner)
      && c.i + 16 + |inner| <= |c.b| && c.b[c.i + 16 + |inner|..] == rest
  {
    hide Le, LeNat, Take, TakeNat, EntryHead;
    EntrySlices(c.b, c.i, Le(e.id, 8), Le(e.seqNo, 4), Le(|inner|, 4), inner, rest);
    SizeAhead(c, inner);
  }

  lemma SizeAhead(c: Cur, inner: Bytes)
    requires c.err.None? && c.i + 16 + |inner| <= |c.b| && |inner| < 0x1_0000_0000
    requires c.b[c.i + 12..c.i + 16] == Le(|inner|, 4) && c.b[c.i + 16..c.i + 16 + |inner|] == inner
    ensures
      var (c1, size) := EntryHead(c);
      size == |inner| && Take(c1, size) == (c.(i := c.i + 16 + |inner|), inner)
  {
    hide Le, LeNat, Take, TakeNat;
    SkipHead(c);
    Widths();
    NatAhead(c.(i := c.i + 12), |inner|, 4);
    TakeAhead(c.(i := c.i + 16), inner);
  }

  lemma EntrySlices(b: Bytes, i: nat, id: Bytes, seqNo: Bytes, size: Bytes, inner: Bytes, rest: Bytes)
    requires i <= |b| && b[i..] == id + seqNo + size + inner + rest && |id| == 8 && |seqNo| == |size| == 4
    ensures i + 16 + |inner| <= |b| && b[i + 12..i + 16] == size && b[i + 16..i + 16 + |inner|] == inner
    ensures b[i + 16 + |inner|..] == rest
  {
    var t := b[i..];
    assert t[12..16] == size && t[16..16 + |inner|] == inner && t[16 + |inner|..] == rest;
    SliceOfDrop(b, i, 12, 16);
    SliceOfDrop(b, i, 16, 16 + |inner|);
  }

  lemma SkipHead(c: Cur)
    requires c.err.None? && c.i + 12 <= |c.b|
    ensures Take(Take(c, 8).0, 4).0 == c.(i := c.i + 12)
  {}
}

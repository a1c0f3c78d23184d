/**
 * What a server composes, and what the walk of internal/mtproto/api.go makes of it: the
 * leaves of each kind, and whole encrypted replies.
 */
module Replies {
  import opened Bytes
  import opened Crypto
  import opened Wrappers
  import opened Tl
  import opened Dispatch
  import Session

  // ---- leaves

  function ResultLeaf(msgId: nat, payload: Bytes): (b: Bytes)
    ensures |b| == 12 + |payload|
  {
    Le(RPC_RESULT, 4) + Le(msgId, 8) + payload
  }

  function ErrorObject(code: int, message: Bytes): Bytes {
    Le(RPC_ERROR, 4) + Le(code % 0x1_0000_0000, 4) + StringAt(8, message)
  }

  function PackedObject(packed: Bytes): Bytes { Le(GZIP_PACKED, 4) + StringAt(4, packed) }

  /** Both messages that carry a salt have it behind twenty bytes. */
  function SaltLeaf(ctor: nat, about: Bytes, salt: Session.Eight): Bytes
    requires |about| == 16
  {
    Le(ctor, 4) + about + salt
  }

  lemma CtorOf(ctor: nat, rest: Bytes)
    requires ctor < 0x1_0000_0000
    ensures |Le(ctor, 4) + rest| >= 4 && Ctor(Le(ctor, 4) + rest) == ctor
  {
    hide Le, LeNat;
    Widths();
    LeRoundTrip(ctor, 4);
    assert (Le(ctor, 4) + rest)[..4] == Le(ctor, 4);
  }

  /** The payload decides: an rpc_error is a refusal, anything else the answer. */
  function Settled(payload: Bytes): Verdict {
    if |payload| >= 4 && Ctor(payload) == RPC_ERROR then RpcFailure(payload) else Answer(payload)
  }

  /** A result for another query says nothing; for ours, its unwrapped payload decides. */
  lemma ResultRead(gunzip: Gunzip, msgId: nat, payload: Bytes, query: nat)
    requires msgId < 0x1_0000_0000_0000_0000
    ensures
      VerdictOf(gunzip, Leaf(ResultLeaf(msgId, payload)), query) ==
        if msgId != query then Nothing
        else match Unpacked(gunzip, payload) case Err(e) => Failed(e) case Ok(p) => Settled(p)
  {
    hide Le, LeNat, Take, TakeNat, Unpacked, RpcFailure, Ctor;
    var body := ResultLeaf(msgId, payload);
    assert body == Le(RPC_RESULT, 4) + (Le(msgId, 8) + payload);
    CtorOf(RPC_RESULT, Le(msgId, 8) + payload);
    assert body[0..4] == Le(RPC_RESULT, 4) && body[4..12] == Le(msgId, 8) && body[12..] == payload;
    Widths();
    NatAhead(Start(body), RPC_RESULT, 4);
    NatAhead(Start(body).(i := 4), msgId, 8);
  }

  /** An answer comes out as it went in, bare or compressed, unless it is an error. */
  lemma AnswerRead(gunzip: Gunzip, msgId: nat, payload: Bytes, packed: Bytes)
    requires msgId < 0x1_0000_0000_0000_0000 && |payload| >= 4 && Ctor(payload) !in {GZIP_PACKED, RPC_ERROR}
    ensures VerdictOf(gunzip, Leaf(ResultLeaf(msgId, payload)), msgId) == Answer(payload)
    ensures
      |packed| < 0x100_0000 && |payload| <= INFLATE_LIMIT && gunzip(packed) == Inflated(payload, true) ==>
        VerdictOf(gunzip, Leaf(ResultLeaf(msgId, PackedObject(packed))), msgId) == Answer(payload)
  {
    hide VerdictOf, ResultLeaf, Le, StringAt, Ctor;
    ResultRead(gunzip, msgId, payload, msgId);
    ResultRead(gunzip, msgId, PackedObject(packed), msgId);
    if |packed| < 0x100_0000 && |payload| <= INFLATE_LIMIT && gunzip(packed) == Inflated(payload, true) {
      ZipUnpacks(gunzip, packed, payload);
    }
  }

  /** An error comes out with its signed code and its message. */
  lemma RefusalRead(gunzip: Gunzip, msgId: nat, code: int, message: Bytes)
    requires msgId < 0x1_0000_0000_0000_0000 && -0x8000_0000 <= code < 0x8000_0000 && |message| < 0x100_0000
    ensures VerdictOf(gunzip, Leaf(ResultLeaf(msgId, ErrorObject(code, message))), msgId) == Refused(code, message)
  {
    hide VerdictOf, ResultLeaf, Le, LeNat, StringAt, RpcFailure;
    var failure := ErrorObject(code, message);
    ErrorCtor(code, message);
    ErrorRead(code, message);
    ResultRead(gunzip, msgId, failure, msgId);
  }

  lemma ErrorCtor(code: int, message: Bytes)
    ensures |ErrorObject(code, message)| >= 4 && Ctor(ErrorObject(code, message)) == RPC_ERROR
  {
    hide Le, StringAt, Ctor;
    var word, text := Le(code % 0x1_0000_0000, 4), StringAt(8, message);
    assert ErrorObject(code, message) == Le(RPC_ERROR, 4) + (word + text);
    CtorOf(RPC_ERROR, word + text);
  }

  lemma ErrorRead(code: int, message: Bytes)
    requires -0x8000_0000 <= code < 0x8000_0000 && |message| < 0x100_0000
    ensures RpcFailure(ErrorObject(code, message)) == Refused(code, message)
  {
    hide Le, LeNat, StringAt, Take, TakeNat, TakeString;
    var b := ErrorObject(code, message);
    var word, text := Le(code % 0x1_0000_0000, 4), StringAt(8, message);
    assert b[0..4] == Le(RPC_ERROR, 4) && b[4..8] == word && b[8..8 + |text|] == text;
    Widths();
    NatAhead(Start(b), RPC_ERROR, 4);
    NatAhead(Start(b).(i := 4), code % 0x1_0000_0000, 4);
    StringAhead(Start(b).(i := 8), message);
  }

  /** A bad_server_salt asks for a retry under its salt; a new session only announces one. */
  lemma SaltRead(gunzip: Gunzip, ctor: nat, about: Bytes, salt: Session.Eight, msgId: nat)
    requires ctor in {BAD_SERVER_SALT, NEW_SESSION} && |about| == 16
    ensures
      var e := Leaf(SaltLeaf(ctor, about, salt));
      && SaltOf(e) == Some(salt)
      && VerdictOf(gunzip, e, msgId) == if ctor == BAD_SERVER_SALT then Retry else Nothing
  {
    hide Le, Ctor;
    var b := SaltLeaf(ctor, about, salt);
    assert b == Le(ctor, 4) + (about + salt);
    CtorOf(ctor, about + salt);
    assert b[20..28] == salt;
  }

  /** Of what a compressed object inflates to, at most 16 MiB are kept; a broken stream shows only before that. */
  lemma PackedRead(gunzip: Gunzip, packed: Bytes)
    requires |packed| < 0x100_0000
    ensures gunzip(packed) == NotGzip ==> Unpacked(gunzip, PackedObject(packed)) == Err(GzipFailed)
    ensures forall p: Bytes, clean: bool :: gunzip(packed) == Inflated(p, clean) ==>
      Unpacked(gunzip, PackedObject(packed)) ==
        if |p| >= 0x100_0000 then Ok(p[..0x100_0000]) else if clean then Ok(p) else Err(GzipFailed)
  {
    hide TakeString, StringAt, Le, Ctor;
    var body := PackedObject(packed);
    var text := StringAt(4, packed);
    CtorOf(GZIP_PACKED, text);
    assert body[0..4] == Le(GZIP_PACKED, 4) && body[4..4 + |text|] == text;
    StringAhead(Take(Start(body), 4).0, packed);
  }

  /** A container that claims more than 64 entries is refused whole. */
  lemma ContainerRefused(gunzip: Gunzip, count: nat, rest: Bytes, depth: nat)
    requires 64 < count < 0x1_0000_0000
    ensures Events(gunzip, Le(CONTAINER, 4) + Le(count, 4) + rest, depth) == [Malformed(ImplausibleContainer)]
  {
    hide Le, LeNat, TakeNat, EntryEvents, Ctor;
    var body := Le(CONTAINER, 4) + Le(count, 4) + rest;
    assert body == Le(CONTAINER, 4) + (Le(count, 4) + rest);
    CtorOf(CONTAINER, Le(count, 4) + rest);
    assert body[4..8] == Le(count, 4);
    Widths();
    NatAhead(Take(Start(body), 4).0, count, 4);
  }

  // ---- whole replies

  /** A message and what the server draws and counts to send it. */
  datatype Draft = Draft(message: Message, salt: Session.Eight, id: Session.Eight, msgId: nat, seqNo: nat, filler: Bytes)

  /** The filler completes the blocks. */
  type Reply = r: Draft | |r.filler| == Session.PaddingFor(Session.HEADER + |Encoded(r.message)|)
    witness Draft(Plain(0, 0, []), seq(8, _ => 0), seq(8, _ => 0), 0, 0, seq(16, _ => 0))

  ghost predicate Sendable(l: Lens, r: Reply) {
    WellFormed(l.gunzip, r.message, l.depth) && |Encoded(r.message)| < Session.WORD
  }

  /** The mirrored server seals towards the client. */
  function Sealed(l: Lens, r: Reply): Bytes {
    Session.Seal(l.suite, l.auth, 8, Session.Plain(r.salt, r.id, r.msgId, r.seqNo, Encoded(r.message), r.filler))
  }

  function ArrivalsOf(l: Lens, rs: seq<Reply>): (arrivals: seq<Arrival>)
    ensures |arrivals| == |rs|
  {
    seq(|rs|, i requires 0 <= i < |rs| => Packet(Sealed(l, rs[i])))
  }

  function AllLeaves(rs: seq<Reply>): seq<Event> {
    if rs == [] then [] else Leaves(rs[0].message) + AllLeaves(rs[1..])
  }

  lemma EncodedSize(gunzip: Gunzip, m: Message, depth: nat)
    requires WellFormed(gunzip, m, depth)
    ensures |Encoded(m)| >= 4
  {}

  /** One reply is decrypted and flattened to the leaves its server put in. */
  lemma ReplyEvents(l: Lens, r: Reply)
    requires l.suite.Lawful() && Sendable(l, r)
    ensures ArrivalEvents(l, Packet(Sealed(l, r))) == Leaves(r.message)
  {
    hide Encoded, Leaves, WellFormed, Events, Session.Seal, Session.Plain, Session.Opened, Session.PaddingFor;
    EncodedSize(l.gunzip, r.message, l.depth);
    Session.ReplyReadExactly(l.suite, l.auth, 8, r.salt, r.id, r.msgId, r.seqNo, Encoded(r.message), r.filler);
    EventsAreLeaves(l.gunzip, r.message, l.depth);
  }

  lemma {:induction false} RepliesFlatten(l: Lens, rs: seq<Reply>)
    requires l.suite.Lawful() && forall i :: 0 <= i < |rs| ==> Sendable(l, rs[i])
    ensures AllEvents(l, ArrivalsOf(l, rs)) == AllLeaves(rs)
    decreases |rs|
  {
    hide Sealed, ArrivalEvents, Leaves, Encoded, WellFormed, Session.PaddingFor;
    if rs != [] {
      ReplyEvents(l, rs[0]);
      RepliesFlatten(l, rs[1..]);
      var arrivals := ArrivalsOf(l, rs);
      assert arrivals[0] == Packet(Sealed(l, rs[0])) && arrivals[1..] == ArrivalsOf(l, rs[1..]);
    }
  }

  /**
   * Waiting for an honest server: whatever messages it nests, compresses, encrypts and
   * sends, the result and the salt are those of one scan over the leaves it put into the
   * first sixteen of them.
   */
  lemma RepliesScanned(l: Lens, rs: seq<Reply>, msgId: nat, salt: Session.Eight)
    requires l.suite.Lawful() && forall i :: 0 <= i < |rs| ==> Sendable(l, rs[i])
    ensures
      var seen := if MAX_REPLIES <= |rs| then rs[..MAX_REPLIES] else rs;
      var (v, s) := Scan(l.gunzip, AllLeaves(seen), msgId, salt);
      var r := Await(l, ArrivalsOf(l, rs), msgId, salt, MAX_REPLIES);
      && r.salt == s
      && r.verdict == if !v.Nothing? then v else Failed(if MAX_REPLIES <= |rs| then NoReply else TransportFailed)
  {
    hide Sealed, ArrivalEvents, AllLeaves, AllEvents, Await, Scan, Encoded, WellFormed, Session.PaddingFor;
    var seen := if MAX_REPLIES <= |rs| then rs[..MAX_REPLIES] else rs;
    var arrivals := ArrivalsOf(l, rs);
    assert ArrivalsOf(l, seen) == if MAX_REPLIES <= |arrivals| then arrivals[..MAX_REPLIES] else arrivals;
    RepliesFlatten(l, seen);
    AwaitScans(l, arrivals, msgId, salt, MAX_REPLIES);
  }

  /** The usual case: a server that sends our answer among its first replies is understood. */
  lemma AnswerArrives(l: Lens, rs: seq<Reply>, k: nat, msgId: nat, salt: Session.Eight, payload: Bytes)
    requires l.suite.Lawful() && forall i :: 0 <= i < |rs| ==> Sendable(l, rs[i])
    requires |rs| <= MAX_REPLIES && msgId < 0x1_0000_0000_0000_0000
    requires |payload| >= 4 && Ctor(payload) !in {GZIP_PACKED, RPC_ERROR}
    requires
      var leaves := AllLeaves(rs);
      && k < |leaves| && leaves[k] == Leaf(ResultLeaf(msgId, payload))
      && forall j :: 0 <= j < k ==> VerdictOf(l.gunzip, leaves[j], msgId).Nothing?
    ensures
      var r := Await(l, ArrivalsOf(l, rs), msgId, salt, MAX_REPLIES);
      r.verdict == Answer(payload) && r.salt == LastSalt(AllLeaves(rs)[..k + 1], salt)
  {
    hide Sealed, AllLeaves, Await, Scan, VerdictOf, ResultLeaf, Encoded, WellFormed, Session.PaddingFor, Ctor;
    RepliesScanned(l, rs, msgId, salt);
    assert |rs| == MAX_REPLIES ==> rs[..MAX_REPLIES] == rs;
    AnswerRead(l.gunzip, msgId, payload, []);
    ScanDecides(l.gunzip, AllLeaves(rs), k, msgId, salt);
  }

  // ---- whole calls

  /** None of these leaves says anything about the query. */
  ghost predicate Undeciding(l: Lens, es: seq<Event>, msgId: nat) {
    forall j :: 0 <= j < |es| ==> VerdictOf(l.gunzip, es[j], msgId).Nothing?
  }

  /** A series of replies in the last of which leaf k is the first to say something. */
  ghost predicate SettledBy(l: Lens, rs: seq<Reply>, msgId: nat, k: nat) {
    && 0 < |rs| <= 16 && l.suite.Lawful() && (forall i :: 0 <= i < |rs| ==> Sendable(l, rs[i]))
    && Undeciding(l, AllLeaves(rs[..|rs| - 1]), msgId)
    && var last := Leaves(rs[|rs| - 1].message);
    && k < |last| && Undeciding(l, last[..k], msgId) && !VerdictOf(l.gunzip, last[k], msgId).Nothing?
  }

  ghost function SettlingLeaf(rs: seq<Reply>, k: nat): Event
    requires rs != [] && k < |Leaves(rs[|rs| - 1].message)|
  {
    Leaves(rs[|rs| - 1].message)[k]
  }

  /** Such a series is used up, its leaf decides, and a salt the leaf brings is in force. */
  lemma SeriesAwaited(l: Lens, rs: seq<Reply>, more: seq<Arrival>, msgId: nat, salt: Session.Eight, k: nat)
    requires SettledBy(l, rs, msgId, k)
    ensures
      var a := Await(l, ArrivalsOf(l, rs) + more, msgId, salt, MAX_REPLIES);
      && a.verdict == VerdictOf(l.gunzip, SettlingLeaf(rs, k), msgId) && a.used == |rs|
      && (SaltOf(SettlingLeaf(rs, k)).Some? ==> a.salt == SaltOf(SettlingLeaf(rs, k)).value)
  {
    hide Sealed, ArrivalEvents, AllLeaves, AllEvents, Await, Scan, VerdictOf, SaltOf, Leaves, Encoded, WellFormed, Session.PaddingFor;
    var m := |rs| - 1;
    var arrivals := ArrivalsOf(l, rs) + more;
    var last := Leaves(rs[m].message);
    assert arrivals[..m] == ArrivalsOf(l, rs[..m]) && arrivals[m] == Packet(Sealed(l, rs[m]));
    RepliesFlatten(l, rs[..m]);
    ScanQuiet(l.gunzip, AllLeaves(rs[..m]), msgId, salt);
    ReplyEvents(l, rs[m]);
    var before := LastSalt(AllLeaves(rs[..m]), salt);
    ScanDecides(l.gunzip, last, k, msgId, before);
    AwaitStops(l, arrivals, m, msgId, salt, MAX_REPLIES);
    LastAnnounced(last[..k + 1], before);
  }

  lemma SettlesAt(l: Lens, rs: seq<Reply>, msgId: nat, k: nat)
    requires SettledBy(l, rs, msgId, k)
    ensures rs != [] && k < |Leaves(rs[|rs| - 1].message)|
  {}

  lemma LastAnnounced(es: seq<Event>, salt: Session.Eight)
    requires es != []
    ensures SaltOf(es[|es| - 1]).Some? ==> LastSalt(es, salt) == SaltOf(es[|es| - 1]).value
  {
    hide SaltOf;
  }

  /** The leaf that answers a query. */
  ghost predicate Answering(e: Event, msgId: nat, payload: Bytes) {
    && msgId < 0x1_0000_0000_0000_0000 && |payload| >= 4 && Ctor(payload) !in {GZIP_PACKED, RPC_ERROR}
    && e == Leaf(ResultLeaf(msgId, payload))
  }

  ghost predicate Rejecting(e: Event, salt: Session.Eight) {
    exists about: Bytes :: |about| == 16 && e == Leaf(SaltLeaf(BAD_SERVER_SALT, about, salt))
  }

  lemma RejectionRead(gunzip: Gunzip, e: Event, salt: Session.Eight, msgId: nat)
    requires Rejecting(e, salt)
    ensures VerdictOf(gunzip, e, msgId) == Retry && SaltOf(e) == Some(salt)
  {
    hide VerdictOf, SaltOf, SaltLeaf;
    var about: Bytes :| |about| == 16 && e == Leaf(SaltLeaf(BAD_SERVER_SALT, about, salt));
    SaltRead(gunzip, BAD_SERVER_SALT, about, salt, msgId);
  }

  /** A call whose query is answered returns the payload the server sent, after one packet. */
  lemma CallAnswered(l: Lens, id: Session.Eight, count: nat, query: Bytes, first: Attempt, second: Attempt,
                     rs: seq<Reply>, more: seq<Arrival>, salt: Session.Eight, k: nat, payload: Bytes,
                     r: Verdict, packets: seq<Bytes>, left: Session.Eight)
    requires |first.filler| == |second.filler| == Session.PaddingFor(Session.HEADER + |query|)
    requires CallEnds(l, id, count, query, first, second, ArrivalsOf(l, rs) + more, salt, r, packets, left)
    requires first.sent.None? && SettledBy(l, rs, first.msgId, k) && Answering(SettlingLeaf(rs, k), first.msgId, payload)
    ensures r == Answer(payload) && packets == [QueryPacket(l, id, count, query, first, salt)]
  {
    hide Await, VerdictOf, SaltOf, ArrivalsOf, SettledBy, ResultLeaf, Ctor, QueryPacket, Session.PaddingFor;
    SeriesAwaited(l, rs, more, first.msgId, salt, k);
    AnswerRead(l.gunzip, first.msgId, payload, []);
  }

  /**
   * Behind one bad_server_salt, the query is sent again under the salt it brought, with the
   * next odd sequence number, and the answer to that is what the call returns; a second
   * bad_server_salt ends it.
   */
  lemma CallRetried(l: Lens, id: Session.Eight, count: nat, query: Bytes, first: Attempt, second: Attempt,
                    rejected: seq<Reply>, rs: seq<Reply>, more: seq<Arrival>, salt: Session.Eight, k: nat, newSalt: Session.Eight,
                    k2: nat, r: Verdict, packets: seq<Bytes>, left: Session.Eight)
    requires |first.filler| == |second.filler| == Session.PaddingFor(Session.HEADER + |query|)
    requires CallEnds(l, id, count, query, first, second, ArrivalsOf(l, rejected) + (ArrivalsOf(l, rs) + more), salt, r, packets, left)
    requires first.sent.None? && SettledBy(l, rejected, first.msgId, k) && Rejecting(SettlingLeaf(rejected, k), newSalt)
    requires second.sent.None? && SettledBy(l, rs, second.msgId, k2)
    ensures packets == [QueryPacket(l, id, count, query, first, salt), QueryPacket(l, id, count + 1, query, second, newSalt)]
    ensures forall payload :: Answering(SettlingLeaf(rs, k2), second.msgId, payload) ==> r == Answer(payload)
    ensures forall s :: Rejecting(SettlingLeaf(rs, k2), s) ==> r == Failed(SaltRejected) && left == s
  {
    hide Await, VerdictOf, SaltOf, SettledBy, ResultLeaf, Rejecting, Answering, QueryPacket, Session.PaddingFor;
    SettlesAt(l, rejected, first.msgId, k);
    SettlesAt(l, rs, second.msgId, k2);
    SeriesAwaited(l, rejected, ArrivalsOf(l, rs) + more, first.msgId, salt, k);
    RejectionRead(l.gunzip, SettlingLeaf(rejected, k), newSalt, first.msgId);
    var arrivals := ArrivalsOf(l, rejected) + (ArrivalsOf(l, rs) + more);
    assert arrivals[|rejected|..] == ArrivalsOf(l, rs) + more;
    SeriesAwaited(l, rs, more, second.msgId, newSalt, k2);
    forall payload | Answering(SettlingLeaf(rs, k2), second.msgId, payload)
      ensures r == Answer(payload)
    {
      AnsweringRead(l.gunzip, SettlingLeaf(rs, k2), second.msgId, payload);
    }
    forall s | Rejecting(SettlingLeaf(rs, k2), s)
      ensures r == Failed(SaltRejected) && left == s
    {
      RejectionRead(l.gunzip, SettlingLeaf(rs, k2), s, second.msgId);
    }
  }

  lemma AnsweringRead(gunzip: Gunzip, e: Event, msgId: nat, payload: Bytes)
    requires Answering(e, msgId, payload)
    ensures VerdictOf(gunzip, e, msgId) == Answer(payload)
  {
    hide VerdictOf, ResultLeaf, Ctor;
    AnswerRead(gunzip, msgId, payload, []);
  }

  /** An rpc_error reaches the caller with its code and message; a failure with its own reason. */
  lemma CallFails(l: Lens, id: Session.Eight, count: nat, query: Bytes, first: Attempt, second: Attempt,
                  arrivals: seq<Arrival>, salt: Session.Eight, r: Verdict, packets: seq<Bytes>, left: Session.Eight)
    requires |first.filler| == |second.filler| == Session.PaddingFor(Session.HEADER + |query|)
    requires CallEnds(l, id, count, query, first, second, arrivals, salt, r, packets, left)
    ensures first.sent.Some? ==> r == Failed(first.sent.value)
    ensures first.sent.None? && arrivals == [] ==> r == Failed(TransportFailed)
    ensures first.sent.None? && arrivals != [] && arrivals[0].Lost? ==> r == Failed(arrivals[0].error)
    ensures
      first.sent.None? && |arrivals| >= 16 && Undeciding(l, AllEvents(l, arrivals[..16]), first.msgId) ==> r == Failed(NoReply)
  {
    hide VerdictOf, SaltOf, AllEvents, Events, QueryPacket, Session.PaddingFor, Session.Opened;
    if first.sent.None? && arrivals != [] && arrivals[0].Lost? {
      MalformedScan(l.gunzip, arrivals[0].error, first.msgId, salt);
    }
    if first.sent.None? && |arrivals| >= 16 && Undeciding(l, AllEvents(l, arrivals[..16]), first.msgId) {
      AwaitScans(l, arrivals, first.msgId, salt, MAX_REPLIES);
      ScanQuiet(l.gunzip, AllEvents(l, arrivals[..16]), first.msgId, salt);
    }
  }

  lemma CallRefused(l: Lens, id: Session.Eight, count: nat, query: Bytes, first: Attempt, second: Attempt,
                    rs: seq<Reply>, more: seq<Arrival>, salt: Session.Eight, k: nat, code: int, message: Bytes,
                    r: Verdict, packets: seq<Bytes>, left: Session.Eight)
    requires |first.filler| == |second.filler| == Session.PaddingFor(Session.HEADER + |query|)
    requires CallEnds(l, id, count, query, first, second, ArrivalsOf(l, rs) + more, salt, r, packets, left)
    requires first.sent.None? && SettledBy(l, rs, first.msgId, k)
    requires first.msgId < 0x1_0000_0000_0000_0000 && -0x8000_0000 <= code < 0x8000_0000 && |message| < 0x100_0000
    requires SettlingLeaf(rs, k) == Leaf(ResultLeaf(first.msgId, ErrorObject(code, message)))
    ensures r == Refused(code, message)
  {
    hide Await, VerdictOf, SaltOf, ArrivalsOf, SettledBy, ResultLeaf, ErrorObject, QueryPacket, Session.PaddingFor;
    SeriesAwaited(l, rs, more, first.msgId, salt, k);
    RefusalRead(l.gunzip, first.msgId, code, message);
  }

  // ---- what says nothing, and what is malformed

  /** A message of another kind decides nothing and brings no salt; one without a constructor is an error. */
  lemma OtherRead(gunzip: Gunzip, body: Bytes, msgId: nat)
    ensures |body| < 4 ==> VerdictOf(gunzip, Leaf(body), msgId) == Failed(EmptyBody)
    ensures
      |body| >= 4 && Ctor(body) !in {RPC_RESULT, BAD_SERVER_SALT, NEW_SESSION} ==>
        VerdictOf(gunzip, Leaf(body), msgId) == Nothing && SaltOf(Leaf(body)) == None
  {}

  /** Cut off before its end, a result or a bad_server_salt is an error and a new session says nothing; no salt is taken. */
  lemma ShortRead(gunzip: Gunzip, body: Bytes, msgId: nat)
    requires |body| >= 4
    ensures Ctor(body) == RPC_RESULT && |body| < 12 ==> VerdictOf(gunzip, Leaf(body), msgId) == Failed(UnexpectedEof)
    ensures
      |body| < 28 && Ctor(body) in {BAD_SERVER_SALT, NEW_SESSION} ==>
        && SaltOf(Leaf(body)) == None
        && VerdictOf(gunzip, Leaf(body), msgId) == if Ctor(body) == BAD_SERVER_SALT then Failed(UnexpectedEof) else Nothing
  {
    hide Ctor, LeNat, Unpacked, RpcFailure;
  }

  /** A container entry that claims more than its container has is malformed, and one that overruns it ends too early. */
  lemma EntryRefused(gunzip: Gunzip, count: nat, head: Bytes, size: nat, rest: Bytes, depth: nat)
    requires 1 <= count <= 64 && |head| == 12 && size < 0x1_0000_0000 && |rest| < size
    ensures
      var body := Le(CONTAINER, 4) + Le(count, 4) + head + Le(size, 4) + rest;
      Events(gunzip, body, depth) == [Malformed(if size > |body| then MalformedEntry else UnexpectedEof)]
  {
    hide Le, LeNat, Ctor, Events;
    var body := Le(CONTAINER, 4) + Le(count, 4) + head + Le(size, 4) + rest;
    assert body == Le(CONTAINER, 4) + (Le(count, 4) + head + Le(size, 4) + rest);
    CtorOf(CONTAINER, Le(count, 4) + head + Le(size, 4) + rest);
    assert body[4..8] == Le(count, 4) && body[20..24] == Le(size, 4);
    Widths();
    var c := Take(Start(body), 4).0;
    NatAhead(c, count, 4);
    ContainerEvents(gunzip, body, depth);
    var c1 := c.(i := 8);
    SkipHead(c1);
    NatAhead(c1.(i := 20), size, 4);
  }
}

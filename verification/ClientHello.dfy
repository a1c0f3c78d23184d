/**
 * internal/mtproto/faketls.go, lines 25-159 and 321-359: the camouflage ClientHello, built
 * with length scopes that are patched when they close.
 */
module ClientHello {
  import opened Bytes
  import opened Wrappers
  import opened Crypto

  const MAX_NAME := 255
  const PADDED := 517

  // ---- the handshake format (RFC 8446, section 4)

  function Vec(b: Bytes, w: nat): (v: Bytes)
    ensures |v| == w + |b|
  {
    Be(|b|, w) + b
  }

  datatype Ext = Ext(kind: nat, data: Bytes)

  datatype Hello = Hello(random: Bytes, sessionId: Bytes, ciphers: Bytes, compression: Bytes, extensions: seq<Ext>)

  function ExtBytes(e: Ext): (b: Bytes)
    ensures |b| == 4 + |e.data|
  {
    Be(e.kind, 2) + Vec(e.data, 2)
  }

  function ExtsBytes(es: seq<Ext>): Bytes {
    if es == [] then [] else ExtBytes(es[0]) + ExtsBytes(es[1..])
  }

  function BodyBytes(h: Hello): Bytes {
    [0x03, 0x03] + h.random + Vec(h.sessionId, 1) + Vec(h.ciphers, 2) + Vec(h.compression, 1) + Vec(ExtsBytes(h.extensions), 2)
  }

  /** Record, handshake message and body, each with its own length. */
  function HelloBytes(h: Hello): Bytes {
    [0x16, 0x03, 0x01] + Vec([0x01] + Vec(BodyBytes(h), 3), 2)
  }

  ghost predicate Sized(h: Hello) {
    && |h.random| == 32 && |h.sessionId| < 0x100 && |h.ciphers| < 0x1_0000 && |h.compression| < 0x100
    && |ExtsBytes(h.extensions)| < 0x1_0000 && |BodyBytes(h)| + 4 < 0x1_0000
    && forall e :: e in h.extensions ==> e.kind < 0x1_0000 && |e.data| < 0x1_0000
  }

  // ---- a reader of the format that checks every length

  datatype Cut = Cut(head: Bytes, rest: Bytes)

  /** What a length of `w` bytes at the front encloses. */
  function CutVec(b: Bytes, w: nat): (r: Option<Cut>)
    ensures r.Some? ==> |r.value.rest| + w <= |b|
  {
    if |b| < w then None
    else
      var n := BeNat(b[..w]);
      if w + n > |b| then None else Some(Cut(b[w..w + n], b[w + n..]))
  }

  /** The same, with nothing behind it. */
  function Whole(b: Bytes, w: nat): Option<Bytes> {
    match CutVec(b, w)
    case Some(c) => if c.rest == [] then Some(c.head) else None
    case None => None
  }

  function ParseExts(b: Bytes): Option<seq<Ext>>
    decreases |b|
  {
    if b == [] then Some([])
    else if |b| < 2 then None
    else
      match CutVec(b[2..], 2)
      case None => None
      case Some(c) =>
        match ParseExts(c.rest)
        case None => None
        case Some(es) => Some([Ext(BeNat(b[..2]), c.head)] + es)
  }

  function ParseTail(random: Bytes, b: Bytes): Option<Hello> {
    match CutVec(b, 1)
    case None => None
    case Some(sid) =>
      match CutVec(sid.rest, 2)
      case None => None
      case Some(ciphers) =>
        match CutVec(ciphers.rest, 1)
        case None => None
        case Some(compression) =>
          match Whole(compression.rest, 2)
          case None => None
          case Some(exts) =>
            match ParseExts(exts)
            case None => None
            case Some(es) => Some(Hello(random, sid.head, ciphers.head, compression.head, es))
  }

  function ParseBody(b: Bytes): Option<Hello> {
    if |b| < 34 || b[..2] != [0x03, 0x03] then None else ParseTail(b[2..34], b[34..])
  }

  function ParseHello(b: Bytes): Option<Hello> {
    if |b| < 3 || b[..3] != [0x16, 0x03, 0x01] then None
    else
      match Whole(b[3..], 2)
      case None => None
      case Some(message) =>
        if message == [] || message[0] != 0x01 then None
        else
          match Whole(message[1..], 3)
          case None => None
          case Some(body) => ParseBody(body)
  }

  /** The host name in server_name data (RFC 6066, section 3). */
  function HostName(data: Bytes): Option<Bytes> {
    match Whole(data, 2)
    case None => None
    case Some(list) => if list == [] || list[0] != 0 then None else Whole(list[1..], 2)
  }

  function Find(es: seq<Ext>, kind: nat): Option<Bytes> {
    if es == [] then None else if es[0].kind == kind then Some(es[0].data) else Find(es[1..], kind)
  }

  lemma VecAhead(b: Bytes, w: nat, rest: Bytes)
    requires |b| < Pow256(w)
    ensures CutVec(Vec(b, w) + rest, w) == Some(Cut(b, rest))
  {
    BeRoundTrip(|b|, w);
    var all := Be(|b|, w) + b + rest;
    assert all[..w] == Be(|b|, w) && all[w..w + |b|] == b && all[w + |b|..] == rest;
  }

  lemma VecWhole(b: Bytes, w: nat)
    requires |b| < Pow256(w)
    ensures Whole(Vec(b, w), w) == Some(b)
  {
    VecAhead(b, w, []);
    assert Vec(b, w) + [] == Vec(b, w);
  }

  lemma {:induction false} ParseExtsBytes(es: seq<Ext>)
    requires forall e :: e in es ==> e.kind < 0x1_0000 && |e.data| < 0x1_0000
    ensures ParseExts(ExtsBytes(es)) == Some(es)
  {
    hide CutVec, Be, BeNat, Vec;
    if es != [] {
      var e, rest := es[0], ExtsBytes(es[1..]);
      assert e in es;
      var b := ExtsBytes(es);
      Widths();
      assert b[..2] == Be(e.kind, 2) && b[2..] == Vec(e.data, 2) + rest;
      BeRoundTrip(e.kind, 2);
      VecAhead(e.data, 2, rest);
      ParseExtsBytes(es[1..]);
      assert [e] + es[1..] == es;
    }
  }

  lemma ParseTailBytes(h: Hello)
    requires Sized(h)
    ensures ParseTail(h.random, Vec(h.sessionId, 1) + (Vec(h.ciphers, 2) + (Vec(h.compression, 1) + Vec(ExtsBytes(h.extensions), 2)))) == Some(h)
  {
    hide CutVec, Whole, Vec, ExtsBytes, ParseExts, BodyBytes;
    Widths();
    assert Pow256(1) == 256;
    VecAhead(h.sessionId, 1, Vec(h.ciphers, 2) + (Vec(h.compression, 1) + Vec(ExtsBytes(h.extensions), 2)));
    VecAhead(h.ciphers, 2, Vec(h.compression, 1) + Vec(ExtsBytes(h.extensions), 2));
    VecAhead(h.compression, 1, Vec(ExtsBytes(h.extensions), 2));
    VecWhole(ExtsBytes(h.extensions), 2);
    ParseExtsBytes(h.extensions);
  }

  lemma ParseBodyBytes(h: Hello)
    requires Sized(h)
    ensures ParseBody(BodyBytes(h)) == Some(h)
  {
    hide Vec, ExtsBytes, ParseTail;
    var tail := Vec(h.sessionId, 1) + (Vec(h.ciphers, 2) + (Vec(h.compression, 1) + Vec(ExtsBytes(h.extensions), 2)));
    assert BodyBytes(h) == [0x03, 0x03] + h.random + tail;
    assert BodyBytes(h)[..2] == [0x03, 0x03] && BodyBytes(h)[2..34] == h.random && BodyBytes(h)[34..] == tail;
    ParseTailBytes(h);
  }

  /** Every nested length encloses exactly what it should: the strict reader gets the hello back. */
  lemma HelloRoundTrip(h: Hello)
    requires Sized(h)
    ensures ParseHello(HelloBytes(h)) == Some(h)
  {
    hide Vec, Whole, BodyBytes, ParseBody;
    var body := BodyBytes(h);
    var message := [0x01] + Vec(body, 3);
    assert HelloBytes(h)[..3] == [0x16, 0x03, 0x01] && HelloBytes(h)[3..] == Vec(message, 2);
    assert message[1..] == Vec(body, 3);
    Widths();
    VecWhole(message, 2);
    VecWhole(body, 3);
    ParseBodyBytes(h);
  }

  lemma ThreeBytes(n: nat)
    requires n < 0x1_0000
    ensures Be(n, 3) == [0] + Be(n, 2)
  {
    hide Be;
    TwoBytes(n);
    TwoBytes(n / 0x100);
    LastByte(n);
    assert n / 0x100 / 0x100 == 0 && n / 0x100 % 0x100 == n / 0x100;
  }

  lemma LastByte(n: nat)
    ensures Be(n, 3) == Be(n / 0x100, 2) + [n % 0x100]
  {}

  // ---- the builder

  /** The bytes of the open scopes, each followed by its placeholder. */
  function Flat(outer: seq<Bytes>): Bytes {
    if outer == [] then [] else Flat(outer[..|outer| - 1]) + outer[|outer| - 1] + [0, 0]
  }

  function Offsets(outer: seq<Bytes>): (r: seq<nat>)
    ensures |r| == |outer|
  {
    if outer == [] then [] else Offsets(outer[..|outer| - 1]) + [|Flat(outer[..|outer| - 1]) + outer[|outer| - 1]|]
  }

  /** Lines 140-159. */
  class HelloBuilder {
    var buf: Bytes
    var scopes: seq<nat>
    ghost var outer: seq<Bytes>  // what was written before each open scope, inside the one around it
    ghost var top: Bytes         // what was written in the innermost scope

    ghost predicate Valid()
      reads this
    {
      buf == Flat(outer) + top && scopes == Offsets(outer)
    }

    constructor ()
      ensures Valid() && outer == [] && top == []
    {
      buf, scopes, outer, top := [], [], [], [];
    }

    method Put(p: Bytes)
      requires Valid()
      modifies this
      ensures Valid() && outer == old(outer) && top == old(top) + p
    {
      buf := buf + p;
      top := top + p;
      assert buf == Flat(outer) + top;
    }

    method Open()
      requires Valid()
      modifies this
      ensures Valid() && outer == old(outer) + [old(top)] && top == []
    {
      assert (outer + [top])[..|outer|] == outer;
      scopes := scopes + [|buf|];
      buf := buf + [0, 0];
      outer := outer + [top];
      top := [];
    }

    /** The length goes where the scope was opened; PutUint16 keeps its low two bytes. */
    method Close()
      requires Valid() && outer != []
      modifies this
      ensures Valid() && outer == old(outer)[..|old(outer)| - 1]
      ensures top == old(outer)[|old(outer)| - 1] + Vec(old(top), 2)
    {
      hide Be;
      var n := |scopes|;
      var start := scopes[n - 1];
      scopes := scopes[..n - 1];
      ghost var before, around := Flat(outer[..n - 1]), outer[n - 1];
      Patched(before, around, top);
      buf := buf[..start] + Be(|buf| - start - 2, 2) + buf[start + 2..];
      outer, top := outer[..n - 1], around + Vec(top, 2);
    }

    method Overwrite(at: nat, p: Bytes)
      requires Valid() && outer == [] && at + |p| <= |top|
      modifies this
      ensures Valid() && outer == old(outer) && top == old(top)[..at] + p + old(top)[at + |p|..]
    {
      buf := buf[..at] + p + buf[at + |p|..];
      top := buf;
    }
  }

  lemma Patched(before: Bytes, around: Bytes, top: Bytes)
    ensures
      var b := before + around + [0, 0] + top;
      var start := |before + around|;
      && |b| - start - 2 == |top|
      && b[..start] + Be(|top|, 2) + b[start + 2..] == before + (around + Vec(top, 2))
  {
    hide Be;
    var b := before + around + [0, 0] + top;
    var start := |before + around|;
    assert b[..start] == before + around && b[start + 2..] == top;
  }

  // ---- the parts of the hello

  type Grease = b: Bytes | |b| == 5 witness [0, 0, 0, 0, 0]

  function Pair(g: byte): Bytes { [g, g] }

  const SUITES: Bytes := [
    0x13, 0x01, 0x13, 0x02, 0x13, 0x03, 0xC0, 0x2B, 0xC0, 0x2F, 0xC0, 0x2C, 0xC0, 0x30,
    0xCC, 0xA9, 0xCC, 0xA8, 0xC0, 0x13, 0xC0, 0x14, 0x00, 0x9C, 0x00, 0x9D, 0x00, 0x2F,
    0x00, 0x35]
  const PROTOCOLS: Bytes := [0x00, 0x0C, 0x02, 'h' as int, '2' as int, 0x08,
                             'h' as int, 't' as int, 't' as int, 'p' as int, '/' as int, '1' as int, '.' as int, '1' as int]
  const SIGNATURES: Bytes := [
    0x00, 0x10, 0x04, 0x03, 0x08, 0x04, 0x04, 0x01,
    0x05, 0x03, 0x08, 0x05, 0x05, 0x01, 0x08, 0x06, 0x06, 0x01]

  function NameData(name: Bytes): Bytes { Vec([0x00] + Vec(name, 2), 2) }

  function GroupData(g: byte): Bytes { [0x00, 0x08] + Pair(g) + [0x00, 0x1D, 0x00, 0x17, 0x00, 0x18] }

  function ShareData(g: byte, share: Bytes): Bytes {
    Vec(Pair(g) + [0x00, 0x01, 0x00] + [0x00, 0x1D, 0x00, 0x20] + share, 2)
  }

  function FirstExts(g: Grease, name: Bytes): seq<Ext> {
    [Ext(0x101 * (g[1] as int), []), Ext(0x00, NameData(name)), Ext(0x17, []), Ext(0xFF01, [0x00]),
     Ext(0x0A, GroupData(g[2])), Ext(0x0B, [0x01, 0x00]), Ext(0x23, []), Ext(0x10, PROTOCOLS)]
  }

  function LastExts(g: Grease, share: Bytes): seq<Ext> {
    [Ext(0x05, [0x01, 0x00, 0x00, 0x00, 0x00]), Ext(0x0D, SIGNATURES), Ext(0x12, []), Ext(0x1B, [0x02, 0x00, 0x02]),
     Ext(0x33, ShareData(g[3], share)), Ext(0x2D, [0x01, 0x01]), Ext(0x2B, [0x06] + Pair(g[4]) + [0x03, 0x04, 0x03, 0x03])]
  }

  function Filler(n: nat): Bytes { seq(n, _ => 0) }

  function PaddingExts(unpadded: nat): seq<Ext> {
    if unpadded < PADDED - 4 then [Ext(0x15, Filler(PADDED - 4 - unpadded))] else []
  }

  /** The hello without padding, its random still zero. */
  function Unpadded(g: Grease, sid: Bytes, share: Bytes, name: Bytes): Hello {
    Hello(Filler(32), sid, Pair(g[0]) + SUITES, [0x00], FirstExts(g, name) + LastExts(g, share))
  }

  function Unsigned(g: Grease, sid: Bytes, share: Bytes, name: Bytes): Hello {
    var h := Unpadded(g, sid, share, name);
    h.(extensions := h.extensions + PaddingExts(|HelloBytes(h)|))
  }

  // ---- sizes

  lemma {:induction false} ExtsAppend(a: seq<Ext>, b: seq<Ext>)
    ensures ExtsBytes(a + b) == ExtsBytes(a) + ExtsBytes(b)
    decreases |a|
  {
    hide ExtBytes;
    if a == [] {
      assert a + b == b;
    } else {
      assert (a + b)[1..] == a[1..] + b;
      ExtsAppend(a[1..], b);
    }
  }

  lemma ExtsOne(e: Ext)
    ensures ExtsBytes([e]) == ExtBytes(e)
  {
    hide ExtBytes;
    assert [e][1..] == [];
    assert ExtBytes(e) + [] == ExtBytes(e);
  }

  /** One more extension behind those already written. */
  lemma Grow(base: Bytes, es: seq<Ext>, e: Ext, written: Bytes)
    requires e.kind < 0x1_0000 && |e.data| < 0x1_0000
    requires written == [e.kind / 0x100, e.kind % 0x100, |e.data| / 0x100, |e.data| % 0x100] + e.data
    ensures base + ExtsBytes(es + [e]) == base + ExtsBytes(es) + written
  {
    hide ExtsBytes;
    ExtsAppend(es, [e]);
    ExtsOne(e);
    TwoBytes(e.kind);
    TwoBytes(|e.data|);
    assert written == Be(e.kind, 2) + (Be(|e.data|, 2) + e.data);
    assert base + (ExtsBytes(es) + written) == base + ExtsBytes(es) + written;
  }

  lemma HelloLength(h: Hello)
    ensures |HelloBytes(h)| == 17 + |h.random| + |h.sessionId| + |h.ciphers| + |h.compression| + |ExtsBytes(h.extensions)|
  {}

  // ---- names and GREASE

  predicate Printable(c: byte) { 0x21 <= c <= 0x7E }

  /** Lines 345-359, on the trimmed and lower-cased name. */
  method EncodeSNI(name: Bytes) returns (r: Result<Bytes>)
    ensures r == Err(EmptyDomain) <==> name == []
    ensures r == Err(NotAscii) <==> exists i :: 0 <= i < |name| && !Printable(name[i])
    ensures r.Ok? <==> name != [] && forall i :: 0 <= i < |name| ==> Printable(name[i])
    ensures r.Ok? ==> r.value == name[..if |name| > MAX_NAME then MAX_NAME else |name|]
  {
    if name == [] { return Err(EmptyDomain); }
    for i := 0 to |name|
      invariant forall j :: 0 <= j < i ==> Printable(name[j])
    {
      if name[i] < 0x21 || name[i] > 0x7E { return Err(NotAscii); }
    }
    r := Ok(if |name| > MAX_NAME then name[..MAX_NAME] else name);
  }

  /** A reserved value (RFC 8701, section 2): low nibble ten. */
  ghost predicate Greasy(g: Bytes) {
    && (forall i :: 0 <= i < |g| ==> g[i] % 16 == 0x0A)
    && (forall i :: 0 < i < |g| ==> g[i] != g[i - 1])
  }

  /** The two lowest bits stay when the mask does not have them. */
  lemma LowBits(a: nat, c: nat, k: nat)
    ensures XorBits(a, 4 * c, k + 2) == a % 4 + 4 * XorBits(a / 4, c, k)
  {
    var h := a / 2;
    assert XorBits(h, 2 * c, k + 1) == h % 2 + 2 * XorBits(h / 2, c, k) by { assert 2 * c / 2 == c; }
    assert 4 * c / 2 == 2 * c;
    assert h / 2 == a / 4;
  }

  lemma FlippedNibble(h: nat)
    ensures XorBits(h, 1, 4) % 2 != h % 2
  {}

  lemma FlipBit(v: byte)
    requires v % 16 == 0x0A
    ensures XorByte(v, 0x10) % 16 == 0x0A && XorByte(v, 0x10) != v
  {
    hide XorBits;
    var d := v / 16;
    assert v == 16 * d + 10;
    LowBits(v, 4, 6);
    assert v / 4 == 4 * d + 2;
    LowBits(4 * d + 2, 1, 4);
    FlippedNibble(d);
    assert XorBits(v, 0x10, 8) == 10 + 16 * XorBits(d, 1, 4);
  }

  /** Lines 321-335. */
  method MakeGrease(raw: Bytes) returns (grease: Bytes)
    ensures |grease| == |raw| && Greasy(grease)
    ensures forall i :: 0 <= i < |raw| ==>
      var v: int := raw[i] - raw[i] % 16 + 0x0A;
      grease[i] as int == if i > 0 && grease[i - 1] as int == v then XorByte(v, 0x10) else v
  {
    hide XorByte;
    grease := seq(|raw|, _ => 0);
    for i := 0 to |raw|
      invariant |grease| == |raw|
      invariant Greasy(grease[..i])
      invariant forall j :: 0 <= j < i ==>
        var v: int := raw[j] - raw[j] % 16 + 0x0A;
        grease[j] as int == if j > 0 && grease[j - 1] as int == v then XorByte(v, 0x10) else v
    {
      var value := raw[i] - raw[i] % 16 + 0x0A;
      if i > 0 && grease[i - 1] == value {
        FlipBit(value);
        value := XorByte(value, 0x10);
      }
      ghost var before := grease[..i];
      grease := grease[i := value];
      assert grease[..i + 1] == before + [value];
    }
    assert grease[..|raw|] == grease;
  }

  // ---- building

  /** Bodies of a `Hello` up to its extensions, as the builder writes them. */
  function Intro(g: Grease, sid: Bytes): Bytes {
    [0x03, 0x03] + Filler(32) + Vec(sid, 1) + Vec(Pair(g[0]) + SUITES, 2) + Vec([0x00], 1)
  }

  /** Lines 47-68: three scopes are left open. */
  method WriteIntro(b: HelloBuilder, g: Grease, sid: Digest32) returns (randomOffset: nat)
    requires b.Valid() && b.outer == [] && b.top == []
    modifies b
    ensures b.Valid() && b.outer == [[0x16, 0x03, 0x01], [0x01, 0x00], Intro(g, sid)] && b.top == []
    ensures randomOffset == 11
  {
    hide Be, Flat, Offsets;
    b.Put([0x16, 0x03, 0x01]);
    assert b.top == [0x16, 0x03, 0x01];
    b.Open();
    b.Put([0x01, 0x00]);
    assert b.top == [0x01, 0x00];
    b.Open();
    b.Put([0x03, 0x03]);
    assert b.top == [0x03, 0x03] && b.outer == [[0x16, 0x03, 0x01], [0x01, 0x00]];
    randomOffset := |b.buf|;
    SizeOfFlat(b.outer);
    assert randomOffset == 11 by { TwoScopes([0x16, 0x03, 0x01], [0x01, 0x00]); }
    b.Put(Filler(32));
    b.Put([0x20]);
    b.Put(sid);
    b.Put([0x00, 0x20]);
    b.Put(Pair(g[0]));
    b.Put(SUITES);
    b.Put([0x01, 0x00]);
    IntroIs(g, sid);
    b.Open();
  }

  /** The position in the buffer: every open scope takes two bytes more than its contents. */
  function Size(outer: seq<Bytes>): nat {
    if outer == [] then 0 else Size(outer[..|outer| - 1]) + |outer[|outer| - 1]| + 2
  }

  lemma {:induction false} SizeOfFlat(outer: seq<Bytes>)
    ensures |Flat(outer)| == Size(outer)
    decreases |outer|
  {
    if outer != [] { SizeOfFlat(outer[..|outer| - 1]); }
  }

  lemma TwoScopes(a: Bytes, b: Bytes)
    ensures Size([a, b]) == |a| + |b| + 4
  {
    assert [a, b][..1] == [a] && [a][..0] == [];
    assert Size([a]) == |a| + 2;
  }

  lemma ThreeScopes(a: Bytes, b: Bytes, c: Bytes)
    ensures Size([a, b, c]) == |a| + |b| + |c| + 6
  {
    TwoScopes(a, b);
    assert [a, b, c][..2] == [a, b];
  }

  lemma IntroIs(g: Grease, sid: Digest32)
    ensures Intro(g, sid) ==
      [0x03, 0x03] + Filler(32) + [0x20] + sid + [0x00, 0x20] + Pair(g[0]) + SUITES + [0x01, 0x00]
  {
    TwoBytes(32);
    assert Be(32, 1) == [32] && Be(1, 1) == [1];
    assert Vec(sid, 1) == [0x20] + sid;
    var c := Pair(g[0]) + SUITES;
    assert |c| == 32;
    assert Vec(c, 2) == [0x00, 0x20] + Pair(g[0]) + SUITES;
    assert Vec([0x00], 1) == [0x01, 0x00];
    IntroJoin([0x03, 0x03] + Filler(32), sid, Pair(g[0]));
  }

  lemma IntroJoin(head: Bytes, sid: Bytes, pair: Bytes)
    ensures head + ([0x20] + sid) + ([0x00, 0x20] + pair + SUITES) + [0x01, 0x00]
         == head + [0x20] + sid + [0x00, 0x20] + pair + SUITES + [0x01, 0x00]
  {
    assert head + ([0x20] + sid) == head + [0x20] + sid;
    var a := head + [0x20] + sid;
    assert a + ([0x00, 0x20] + pair + SUITES) == a + [0x00, 0x20] + pair + SUITES;
  }

  /** Lines 73-81. */
  method WriteName(b: HelloBuilder, name: Bytes)
    requires b.Valid()
    modifies b
    ensures b.Valid() && b.outer == old(b.outer)
    ensures b.top == old(b.top) + [0x00, 0x00] + Vec(NameData(name), 2)
  {
    hide Be, Flat, Offsets, Vec;
    ghost var outer := b.outer;
    b.Put([0x00, 0x00]);
    ghost var a := b.top;
    b.Open();
    b.Open();
    b.Put([0x00]);
    assert b.top == [0x00];
    b.Open();
    assert b.outer == outer + [a] + [[]] + [[0x00]];
    b.Put(name);
    assert b.top == name;
    b.Close();
    assert b.outer == outer + [a] + [[]];
    b.Close();
    assert b.outer == outer + [a] && b.top == NameData(name);
    b.Close();
  }

  /** Lines 70-92. */
  method WriteFirst(b: HelloBuilder, g: Grease, name: Bytes)
    requires b.Valid() && |name| <= MAX_NAME
    modifies b
    ensures b.Valid() && b.outer == old(b.outer) && b.top == old(b.top) + ExtsBytes(FirstExts(g, name))
  {
    hide Be, Flat, Offsets, ExtsBytes, ExtBytes, Vec;
    ghost var base, es := b.top, [];
    NoExts(base);
    b.Put(Pair(g[1]));
    b.Put([0x00, 0x00]);
    Grow(base, es, Ext(0x101 * (g[1] as int), []), Pair(g[1]) + [0x00, 0x00]);
    es := es + [Ext(0x101 * (g[1] as int), [])];
    assert b.top == base + ExtsBytes(es);
    WriteName(b, name);
    NameWritten(name);
    Grow(base, es, Ext(0, NameData(name)), [0x00, 0x00] + Vec(NameData(name), 2));
    es := es + [Ext(0, NameData(name))];
    assert b.top == base + ExtsBytes(es);
    b.Put([0x00, 0x17, 0x00, 0x00]);
    Grow(base, es, Ext(0x17, []), [0x00, 0x17, 0x00, 0x00]);
    es := es + [Ext(0x17, [])];
    b.Put([0xFF, 0x01, 0x00, 0x01, 0x00]);
    Grow(base, es, Ext(0xFF01, [0x00]), [0xFF, 0x01, 0x00, 0x01, 0x00]);
    es := es + [Ext(0xFF01, [0x00])];
    assert es == FirstExts(g, name)[..4];
    WriteGroups(b, g, base, es);
    assert es + FirstExts(g, name)[4..] == FirstExts(g, name);
  }

  lemma NoExts(base: Bytes)
    ensures base + ExtsBytes([]) == base
  {}

  lemma NameWritten(name: Bytes)
    requires |name| <= MAX_NAME
    ensures |NameData(name)| == |name| + 5
    ensures [0x00, 0x00] + Vec(NameData(name), 2) ==
            [0x00, 0x00, |NameData(name)| / 0x100, |NameData(name)| % 0x100] + NameData(name)
  {
    hide Be;
    TwoBytes(|NameData(name)|);
  }

  lemma GroupsWritten(b: HelloBuilder, g: byte, base: Bytes, es: seq<Ext>)
    requires b.top == base + ExtsBytes(es) + [0x00, 0x0A, 0x00, 0x0A, 0x00, 0x08] + Pair(g) + [0x00, 0x1D, 0x00, 0x17, 0x00, 0x18]
    ensures b.top == base + ExtsBytes(es + [Ext(0x0A, GroupData(g))])
  {
    hide ExtsBytes;
    var done := base + ExtsBytes(es);
    var written := [0x00, 0x0A, 0x00, 0x0A, 0x00, 0x08] + Pair(g) + [0x00, 0x1D, 0x00, 0x17, 0x00, 0x18];
    assert b.top == done + written;
    assert written == [0x00, 0x0A, 0x00, 0x0A] + GroupData(g);
    Grow(base, es, Ext(0x0A, GroupData(g)), written);
  }

  lemma ProtocolsWritten()
    ensures |PROTOCOLS| == 14
    ensures [0x00, 0x10, 0x00, 0x0E] + PROTOCOLS == [
      0x00, 0x10, 0x00, 0x0E, 0x00, 0x0C, 0x02, 'h' as int, '2' as int, 0x08,
      'h' as int, 't' as int, 't' as int, 'p' as int, '/' as int, '1' as int, '.' as int, '1' as int]
  {}

  /** Lines 85-93. */
  method WriteGroups(b: HelloBuilder, g: Grease, ghost base: Bytes, ghost done: seq<Ext>)
    requires b.Valid() && b.top == base + ExtsBytes(done)
    modifies b
    ensures b.Valid() && b.outer == old(b.outer) && b.top == base + ExtsBytes(done + FirstExts(g, [])[4..])
  {
    hide Be, Flat, Offsets, ExtsBytes, ExtBytes, Vec;
    ghost var es := done;
    b.Put([0x00, 0x0A, 0x00, 0x0A, 0x00, 0x08]);
    b.Put(Pair(g[2]));
    b.Put([0x00, 0x1D, 0x00, 0x17, 0x00, 0x18]);
    GroupsWritten(b, g[2], base, es);
    es := es + [Ext(0x0A, GroupData(g[2]))];
    assert b.top == base + ExtsBytes(es);
    b.Put([0x00, 0x0B, 0x00, 0x02, 0x01, 0x00]);
    Grow(base, es, Ext(0x0B, [0x01, 0x00]), [0x00, 0x0B, 0x00, 0x02, 0x01, 0x00]);
    es := es + [Ext(0x0B, [0x01, 0x00])];
    b.Put([0x00, 0x23, 0x00, 0x00]);
    Grow(base, es, Ext(0x23, []), [0x00, 0x23, 0x00, 0x00]);
    es := es + [Ext(0x23, [])];
    b.Put([0x00, 0x10, 0x00, 0x0E, 0x00, 0x0C, 0x02, 'h' as int, '2' as int, 0x08,
           'h' as int, 't' as int, 't' as int, 'p' as int, '/' as int, '1' as int, '.' as int, '1' as int]);
    ProtocolsWritten();
    Grow(base, es, Ext(0x10, PROTOCOLS), [0x00, 0x10, 0x00, 0x0E] + PROTOCOLS);
    assert b.top == base + ExtsBytes(es + [Ext(0x10, PROTOCOLS)]);
    assert es + [Ext(0x10, PROTOCOLS)] == done + FirstExts(g, [])[4..];
  }

  /** Lines 102-110. */
  method WriteShare(b: HelloBuilder, g: byte, share: Digest32)
    requires b.Valid()
    modifies b
    ensures b.Valid() && b.outer == old(b.outer)
    ensures b.top == old(b.top) + [0x00, 0x33] + Vec(ShareData(g, share), 2)
  {
    hide Be, Flat, Offsets, Vec;
    ghost var outer := b.outer;
    b.Put([0x00, 0x33]);
    ghost var a := b.top;
    b.Open();
    b.Open();
    assert b.outer == outer + [a] + [[]];
    b.Put(Pair(g));
    assert b.top == Pair(g);
    b.Put([0x00, 0x01, 0x00]);
    b.Put([0x00, 0x1D, 0x00, 0x20]);
    b.Put(share);
    b.Close();
    assert b.outer == outer + [a] && b.top == ShareData(g, share);
    b.Close();
  }

  /** Lines 94-115. */
  method WriteLast(b: HelloBuilder, g: Grease, share: Digest32)
    requires b.Valid()
    modifies b
    ensures b.Valid() && b.outer == old(b.outer) && b.top == old(b.top) + ExtsBytes(LastExts(g, share))
  {
    hide Be, Flat, Offsets, ExtsBytes, ExtBytes, Vec;
    ghost var base, es := b.top, [];
    NoExts(base);
    b.Put([0x00, 0x05, 0x00, 0x05, 0x01, 0x00, 0x00, 0x00, 0x00]);
    Grow(base, es, Ext(0x05, [0x01, 0x00, 0x00, 0x00, 0x00]), [0x00, 0x05, 0x00, 0x05, 0x01, 0x00, 0x00, 0x00, 0x00]);
    es := es + [Ext(0x05, [0x01, 0x00, 0x00, 0x00, 0x00])];
    b.Put([0x00, 0x0D, 0x00, 0x12, 0x00, 0x10, 0x04, 0x03, 0x08, 0x04, 0x04, 0x01,
           0x05, 0x03, 0x08, 0x05, 0x05, 0x01, 0x08, 0x06, 0x06, 0x01]);
    SignaturesWritten();
    Grow(base, es, Ext(0x0D, SIGNATURES), [0x00, 0x0D, 0x00, 0x12] + SIGNATURES);
    es := es + [Ext(0x0D, SIGNATURES)];
    assert b.top == base + ExtsBytes(es);
    b.Put([0x00, 0x12, 0x00, 0x00]);
    Grow(base, es, Ext(0x12, []), [0x00, 0x12, 0x00, 0x00]);
    es := es + [Ext(0x12, [])];
    b.Put([0x00, 0x1B, 0x00, 0x03, 0x02, 0x00, 0x02]);
    Grow(base, es, Ext(0x1B, [0x02, 0x00, 0x02]), [0x00, 0x1B, 0x00, 0x03, 0x02, 0x00, 0x02]);
    es := es + [Ext(0x1B, [0x02, 0x00, 0x02])];
    assert es == LastExts(g, share)[..4];
    WriteVersions(b, g, share, base, es);
    assert es + LastExts(g, share)[4..] == LastExts(g, share);
  }

  lemma SignaturesWritten()
    ensures |SIGNATURES| == 18
    ensures [0x00, 0x0D, 0x00, 0x12] + SIGNATURES == [
      0x00, 0x0D, 0x00, 0x12, 0x00, 0x10, 0x04, 0x03, 0x08, 0x04, 0x04, 0x01,
      0x05, 0x03, 0x08, 0x05, 0x05, 0x01, 0x08, 0x06, 0x06, 0x01]
  {}

  lemma ShareWritten(g: byte, share: Digest32)
    ensures |ShareData(g, share)| == 43
    ensures [0x00, 0x33] + Vec(ShareData(g, share), 2) == [0x00, 0x33, 0x00, 0x2B] + ShareData(g, share)
  {
    hide Be;
    TwoBytes(43);
  }

  /** Lines 102-115. */
  method WriteVersions(b: HelloBuilder, g: Grease, share: Digest32, ghost base: Bytes, ghost done: seq<Ext>)
    requires b.Valid() && b.top == base + ExtsBytes(done)
    modifies b
    ensures b.Valid() && b.outer == old(b.outer) && b.top == base + ExtsBytes(done + LastExts(g, share)[4..])
  {
    hide Be, Flat, Offsets, ExtsBytes, ExtBytes, Vec, ShareData;
    ghost var es := done;
    WriteShare(b, g[3], share);
    ShareWritten(g[3], share);
    Grow(base, es, Ext(0x33, ShareData(g[3], share)), [0x00, 0x33] + Vec(ShareData(g[3], share), 2));
    es := es + [Ext(0x33, ShareData(g[3], share))];
    assert b.top == base + ExtsBytes(es);
    b.Put([0x00, 0x2D, 0x00, 0x02, 0x01, 0x01]);
    Grow(base, es, Ext(0x2D, [0x01, 0x01]), [0x00, 0x2D, 0x00, 0x02, 0x01, 0x01]);
    es := es + [Ext(0x2D, [0x01, 0x01])];
    b.Put([0x00, 0x2B, 0x00, 0x07, 0x06]);
    b.Put(Pair(g[4]));
    b.Put([0x03, 0x04, 0x03, 0x03]);
    ghost var e := Ext(0x2B, [0x06] + Pair(g[4]) + [0x03, 0x04, 0x03, 0x03]);
    Grow(base, es, e, [0x00, 0x2B, 0x00, 0x07, 0x06] + Pair(g[4]) + [0x03, 0x04, 0x03, 0x03]);
    assert b.top == base + ExtsBytes(es + [e]);
    assert es + [e] == done + LastExts(g, share)[4..];
  }

  // ---- lengths

  lemma {:induction false} ExtsSize(es: seq<Ext>)
    ensures |ExtsBytes(es)| == Sum(es)
  {
    hide ExtBytes;
    if es != [] { ExtsSize(es[1..]); }
  }

  function Sum(es: seq<Ext>): nat { if es == [] then 0 else 4 + |es[0].data| + Sum(es[1..]) }

  lemma SumCons(e: Ext, es: seq<Ext>)
    ensures Sum([e] + es) == 4 + |e.data| + Sum(es)
  {
    assert ([e] + es)[1..] == es;
  }

  lemma FirstSize(g: Grease, name: Bytes)
    requires |name| <= MAX_NAME
    ensures |ExtsBytes(FirstExts(g, name))| == 64 + |name|
  {
    hide Sum, ExtsBytes, NameData;
    var es := FirstExts(g, name);
    ExtsSize(es);
    NameWritten(name);
    assert Sum([]) == 0 by { SumNone(); }
    Peel(es, 7); Peel(es, 6); Peel(es, 5); Peel(es, 4); Peel(es, 3); Peel(es, 2); Peel(es, 1); Peel(es, 0);
    assert es[8..] == [] && es[0..] == es;
  }

  lemma SumNone()
    ensures Sum([]) == 0
  {}

  lemma Peel(es: seq<Ext>, k: nat)
    requires k < |es|
    ensures Sum(es[k..]) == 4 + |es[k].data| + Sum(es[k + 1..])
  {
    SumCons(es[k], es[k + 1..]);
    assert [es[k]] + es[k + 1..] == es[k..];
  }

  lemma LastSize(g: Grease, share: Digest32)
    ensures |ExtsBytes(LastExts(g, share))| == 106
  {
    hide Sum, ExtsBytes, ShareData;
    var es := LastExts(g, share);
    ExtsSize(es);
    ShareWritten(g[3], share);
    SumNone();
    Peel(es, 6); Peel(es, 5); Peel(es, 4); Peel(es, 3); Peel(es, 2); Peel(es, 1); Peel(es, 0);
    assert es[7..] == [] && es[0..] == es;
  }

  lemma UnpaddedSize(g: Grease, sid: Digest32, share: Digest32, name: Bytes)
    requires |name| <= MAX_NAME
    ensures |HelloBytes(Unpadded(g, sid, share, name))| == 284 + |name|
    ensures |ExtsBytes(Unpadded(g, sid, share, name).extensions)| == 170 + |name|
  {
    hide ExtsBytes, FirstExts, LastExts, HelloBytes;
    HelloLength(Unpadded(g, sid, share, name));
    ExtsAppend(FirstExts(g, name), LastExts(g, share));
    FirstSize(g, name);
    LastSize(g, share);
  }

  lemma PaddingSize(n: nat)
    ensures |ExtsBytes(PaddingExts(n))| == if n < PADDED - 4 then PADDED - n else 0
  {
    hide ExtBytes;
    if n < PADDED - 4 { ExtsOne(Ext(0x15, Filler(PADDED - 4 - n))); }
  }

  /** The finished hello has 517 bytes up to a name of 228, and then one byte more for each of the name. */
  lemma UnsignedSize(g: Grease, sid: Digest32, share: Digest32, name: Bytes)
    requires |name| <= MAX_NAME
    ensures
      var unpadded := |HelloBytes(Unpadded(g, sid, share, name))|;
      |HelloBytes(Unsigned(g, sid, share, name))| == if unpadded < 513 then 517 else unpadded
    ensures |ExtsBytes(Unsigned(g, sid, share, name).extensions)| <= 170 + MAX_NAME + PADDED
    ensures |HelloBytes(Unpadded(g, sid, share, name))| == 284 + |name|
  {
    hide ExtsBytes, FirstExts, LastExts, HelloBytes, PaddingExts;
    var h := Unpadded(g, sid, share, name);
    var n := |HelloBytes(h)|;
    HelloLength(h);
    HelloLength(Unsigned(g, sid, share, name));
    UnpaddedSize(g, sid, share, name);
    PaddingSize(n);
    ExtsAppend(h.extensions, PaddingExts(n));
  }

  // ---- assembling

  /** Lines 117-122. */
  method WritePadding(b: HelloBuilder)
    requires b.Valid()
    modifies b
    ensures b.Valid() && b.outer == old(b.outer)
    ensures b.top == old(b.top) + ExtsBytes(PaddingExts(|old(b.buf)|))
  {
    hide Be, Flat, Offsets, ExtsBytes, ExtBytes, Vec;
    var pad := PADDED - 4 - |b.buf|;
    ghost var base := b.top;
    NoExts(base);
    if pad > 0 {
      b.Put([0x00, 0x15]);
      b.Open();
      b.Put(Filler(pad));
      assert b.top == Filler(pad);
      b.Close();
      PadGrows(base, pad);
    }
  }

  lemma PadGrows(base: Bytes, n: nat)
    requires 0 < n < PADDED - 3
    ensures base + [0x00, 0x15] + Vec(Filler(n), 2) == base + ExtsBytes([Ext(0x15, Filler(n))])
  {
    hide ExtsBytes, ExtBytes, Vec;
    var e, written := Ext(0x15, Filler(n)), [0x00, 0x15] + Vec(Filler(n), 2);
    PadWritten(n);
    NoExts(base);
    Grow(base, [], e, written);
    assert [] + [e] == [e];
    assert base + [0x00, 0x15] + Vec(Filler(n), 2) == base + written;
  }

  lemma PadWritten(n: nat)
    requires n < 0x1_0000
    ensures [0x00, 0x15] + Vec(Filler(n), 2) == [0x00, 0x15, n / 0x100, n % 0x100] + Filler(n)
  {
    hide Be;
    TwoBytes(n);
  }

  /** The three nested scopes are the record, the handshake message and the extension list. */
  lemma ScopesAre(g: Grease, sid: Digest32, share: Digest32, name: Bytes, exts: Bytes)
    requires |name| <= MAX_NAME && exts == ExtsBytes(Unsigned(g, sid, share, name).extensions)
    ensures
      [0x16, 0x03, 0x01] + Vec([0x01, 0x00] + Vec(Intro(g, sid) + Vec(exts, 2), 2), 2)
      == HelloBytes(Unsigned(g, sid, share, name))
  {
    hide Be, ExtsBytes, Unpadded, Vec, HelloBytes;
    var h := Unsigned(g, sid, share, name);
    UnsignedSize(g, sid, share, name);
    BodyIs(g, sid, share, name);
    BodyLength(h);
    LongForm(BodyBytes(h));
    HelloIs(h);
  }

  lemma HelloIs(h: Hello)
    ensures HelloBytes(h) == [0x16, 0x03, 0x01] + Vec([0x01] + Vec(BodyBytes(h), 3), 2)
  {}

  lemma BodyIs(g: Grease, sid: Digest32, share: Digest32, name: Bytes)
    ensures
      var h := Unsigned(g, sid, share, name);
      BodyBytes(h) == Intro(g, sid) + Vec(ExtsBytes(h.extensions), 2)
  {
    hide ExtsBytes, Vec, PaddingExts, FirstExts, LastExts, HelloBytes;
  }

  lemma BodyLength(h: Hello)
    ensures |BodyBytes(h)| == 8 + |h.random| + |h.sessionId| + |h.ciphers| + |h.compression| + |ExtsBytes(h.extensions)|
  {}

  /** A three-byte length of less than 64 KiB is a zero and a two-byte length. */
  lemma LongForm(body: Bytes)
    requires |body| < 0x1_0000
    ensures [0x01, 0x00] + Vec(body, 2) == [0x01] + Vec(body, 3)
  {
    hide Be;
    ThreeBytes(|body|);
    assert [0x01, 0x00] + (Be(|body|, 2) + body) == [0x01] + ([0x00] + Be(|body|, 2) + body);
  }

  /** Lines 44-126. */
  method Assemble(g: Grease, sid: Digest32, share: Digest32, name: Bytes)
    returns (b: HelloBuilder, randomOffset: nat)
    requires |name| <= MAX_NAME
    ensures fresh(b) && b.Valid() && b.outer == [] && randomOffset == 11
    ensures b.top == HelloBytes(Unsigned(g, sid, share, name))
  {
    hide Be, Flat, Offsets, ExtsBytes, Vec, Intro, HelloBytes, FirstExts, LastExts, PaddingExts;
    b := new HelloBuilder();
    randomOffset := WriteIntro(b, g, sid);
    ghost var outer := b.outer;
    WriteFirst(b, g, name);
    WriteLast(b, g, share);
    ghost var h := Unpadded(g, sid, share, name);
    ExtsAppend(FirstExts(g, name), LastExts(g, share));
    assert b.top == ExtsBytes(h.extensions);
    WrittenSize(b, g, sid, share, name);
    WritePadding(b);
    ExtsAppend(h.extensions, PaddingExts(|HelloBytes(h)|));
    assert b.top == ExtsBytes(Unsigned(g, sid, share, name).extensions);
    ScopesAre(g, sid, share, name, b.top);
    b.Close();
    assert b.outer == [[0x16, 0x03, 0x01], [0x01, 0x00]];
    b.Close();
    assert b.outer == [[0x16, 0x03, 0x01]];
    b.Close();
  }

  /** Before padding the buffer is as long as the hello without padding will be. */
  lemma WrittenSize(b: HelloBuilder, g: Grease, sid: Digest32, share: Digest32, name: Bytes)
    requires b.Valid() && b.outer == [[0x16, 0x03, 0x01], [0x01, 0x00], Intro(g, sid)]
    requires |name| <= MAX_NAME && b.top == ExtsBytes(Unpadded(g, sid, share, name).extensions)
    ensures |b.buf| == |HelloBytes(Unpadded(g, sid, share, name))|
  {
    hide Flat, Offsets, ExtsBytes, HelloBytes, Unpadded;
    UnpaddedSize(g, sid, share, name);
    SizeOfFlat(b.outer);
    ThreeScopes([0x16, 0x03, 0x01], [0x01, 0x00], Intro(g, sid));
    assert |Intro(g, sid)| == 103;
  }

  // ---- signing

  type Word = v: nat | v < 0x1_0000_0000

  /** The digest, with the time mixed into its last four bytes. */
  function ClientRandom(digest: Digest32, now: Word): (r: Digest32) {
    digest[..28] + Xor(Le(now, 4), digest[28..])
  }

  function Signed(suite: Suite, secret: Bytes, now: Word, h: Hello): Hello {
    h.(random := ClientRandom(suite.hmac(secret, HelloBytes(h)), now))
  }

  datatype Built = Built(bytes: Bytes, sessionId: Digest32, random: Digest32)

  datatype Draws = Draws(grease: Grease, sessionId: Digest32, keyShare: Digest32, now: Word)

  lemma RandomPlace(h: Hello, random: Digest32)
    requires |h.random| == 32
    ensures
      var b := HelloBytes(h);
      |b| >= 43 && b[11..43] == h.random && HelloBytes(h.(random := random)) == b[..11] + random + b[43..]
  {
    hide Be, ExtsBytes;
    var tail := Vec(h.sessionId, 1) + Vec(h.ciphers, 2) + Vec(h.compression, 1) + Vec(ExtsBytes(h.extensions), 2);
    BodyFront(h);
    BodyFront(h.(random := random));
    var size := |BodyBytes(h)|;
    assert |BodyBytes(h.(random := random))| == size;
    HelloFront(h, tail);
    HelloFront(h.(random := random), tail);
  }

  lemma BodyFront(h: Hello)
    ensures
      var tail := Vec(h.sessionId, 1) + Vec(h.ciphers, 2) + Vec(h.compression, 1) + Vec(ExtsBytes(h.extensions), 2);
      BodyBytes(h) == [0x03, 0x03] + h.random + tail
  {
    hide Vec, ExtsBytes;
  }

  lemma HelloFront(h: Hello, tail: Bytes)
    requires |h.random| == 32 && BodyBytes(h) == [0x03, 0x03] + h.random + tail
    ensures
      var n := |BodyBytes(h)|;
      var front := [0x16, 0x03, 0x01] + Be(n + 4, 2) + [0x01] + Be(n, 3) + [0x03, 0x03];
      HelloBytes(h) == front + h.random + tail && |front| == 11
  {
    hide Be, BodyBytes;
  }

  /** Lines 128-135. */
  method Sign(b: HelloBuilder, randomOffset: nat, suite: Suite, secret: Bytes, now: Word, ghost h: Hello)
    returns (clientRandom: Digest32)
    requires b.Valid() && b.outer == [] && b.top == HelloBytes(h) && |h.random| == 32 && randomOffset == 11
    modifies b
    ensures b.Valid() && b.outer == [] && b.top == HelloBytes(Signed(suite, secret, now, h))
    ensures clientRandom == Signed(suite, secret, now, h).random
  {
    hide HelloBytes, XorByte, Le;
    FlatNone(b);
    RandomPlace(h, h.random);
    var digest := suite.hmac(secret, b.buf);
    var random: Bytes := digest[..28] + [0, 0, 0, 0];
    TimeBytes(now);
    for i := 0 to 4
      invariant |random| == 32 && random[..28] == digest[..28]
      invariant forall j :: 0 <= j < i ==> random[28 + j] == XorByte(Le(now, 4)[j], digest[28 + j])
    {
      random := random[28 + i := XorByte(Shifted(now, i), digest[28 + i])];
    }
    clientRandom := random;
    assert clientRandom[28..] == Xor(Le(now, 4), digest[28..]);
    assert clientRandom == clientRandom[..28] + clientRandom[28..];
    RandomPlace(h, clientRandom);
    assert clientRandom == ClientRandom(digest, now);
    b.Overwrite(randomOffset, clientRandom);
  }

  /** byte(now >> 8i) */
  function Shifted(now: Word, i: nat): byte
    requires i < 4
  {
    now / [0x1, 0x100, 0x1_0000, 0x100_0000][i] % 0x100
  }

  lemma TimeBytes(now: Word)
    ensures forall i :: 0 <= i < 4 ==> Le(now, 4)[i] == Shifted(now, i)
  {
    var a := now / 256;
    var b := a / 256;
    assert Le(b / 256, 1) == [b / 256 % 256];
    assert Le(b, 2) == [b % 256, b / 256 % 256];
    assert Le(a, 3) == [a % 256, b % 256, b / 256 % 256];
    assert Le(now, 4) == [now % 256, a % 256, b % 256, b / 256 % 256];
    assert b == now / 0x1_0000 && b / 256 == now / 0x100_0000;
  }

  /** Lines 25-138. The random source and the clock supply `d`. */
  method BuildClientHello(suite: Suite, sni: Bytes, secret: Bytes, d: Draws)
    returns (r: Result<Built>, ghost grease: Grease, ghost name: Bytes)
    ensures r.Ok? <==> sni != [] && forall i :: 0 <= i < |sni| ==> Printable(sni[i])
    ensures r.Ok? ==>
      && Greasy(grease) && name == sni[..if |sni| > MAX_NAME then MAX_NAME else |sni|]
      && var h := Signed(suite, secret, d.now, Unsigned(grease, d.sessionId, d.keyShare, name));
      r.value == Built(HelloBytes(h), d.sessionId, h.random)
  {
    hide HelloBytes, Unpadded, Signed;
    grease, name := [0, 0, 0, 0, 0], [];
    var serverName := EncodeSNI(sni);
    if serverName.Err? { return Err(serverName.error), grease, name; }
    var g := MakeGrease(d.grease);
    grease, name := g, serverName.value;
    var b, randomOffset := Assemble(g, d.sessionId, d.keyShare, serverName.value);
    RandomIs32(g, d.sessionId, d.keyShare, name);
    var random := Sign(b, randomOffset, suite, secret, d.now, Unsigned(g, d.sessionId, d.keyShare, name));
    assert b.buf == b.top by { FlatNone(b); }
    r := Ok(Built(b.buf, d.sessionId, random));
  }

  lemma FlatNone(b: HelloBuilder)
    requires b.Valid() && b.outer == []
    ensures b.buf == b.top
  {}

  // ---- what the peer makes of it

  lemma {:induction false} FindFirst(a: seq<Ext>, e: Ext, rest: seq<Ext>)
    requires forall x :: x in a ==> x.kind != e.kind
    ensures Find(a + [e] + rest, e.kind) == Some(e.data)
    decreases |a|
  {
    if a == [] {
      assert ([] + [e] + rest)[0] == e;
    } else {
      assert a[0] in a;
      assert (a + [e] + rest)[1..] == a[1..] + [e] + rest;
      FindFirst(a[1..], e, rest);
    }
  }

  lemma NameFound(g: Grease, sid: Digest32, share: Digest32, name: Bytes)
    requires |name| <= MAX_NAME && Greasy(g)
    ensures Find(Unsigned(g, sid, share, name).extensions, 0) == Some(NameData(name))
    ensures HostName(NameData(name)) == Some(name)
  {
    hide HelloBytes, NameData, ExtsBytes, LastExts, PaddingExts;
    var es := Unsigned(g, sid, share, name).extensions;
    var first := [Ext(0x101 * (g[1] as int), [])];
    assert es == first + [Ext(0, NameData(name))] + es[2..];
    FindFirst(first, Ext(0, NameData(name)), es[2..]);
    NameInside(name);
  }

  lemma NameInside(name: Bytes)
    requires |name| <= MAX_NAME
    ensures HostName(NameData(name)) == Some(name)
  {
    hide Whole, Vec;
    Widths();
    var list := [0x00] + Vec(name, 2);
    VecWhole(list, 2);
    assert list[1..] == Vec(name, 2);
    VecWhole(name, 2);
  }

  ghost predicate FitExts(es: seq<Ext>) {
    forall e :: e in es ==> e.kind < 0x1_0000 && |e.data| < 0x1_0000
  }

  lemma ExtsFit(g: Grease, share: Digest32, name: Bytes, n: nat)
    requires |name| <= MAX_NAME
    ensures FitExts(FirstExts(g, name)) && FitExts(LastExts(g, share)) && FitExts(PaddingExts(n))
  {
    hide NameData, ShareData;
    NameWritten(name);
    ShareWritten(g[3], share);
    ProtocolsWritten();
    SignaturesWritten();
  }

  lemma SizedHello(g: Grease, sid: Digest32, share: Digest32, name: Bytes, random: Digest32)
    requires |name| <= MAX_NAME
    ensures Sized(Unsigned(g, sid, share, name).(random := random))
  {
    hide HelloBytes, ExtsBytes, FirstExts, LastExts, PaddingExts, BodyBytes;
    var h := Unsigned(g, sid, share, name);
    UnsignedSize(g, sid, share, name);
    BodyLength(h.(random := random));
    ExtsFit(g, share, name, |HelloBytes(Unpadded(g, sid, share, name))|);
  }

  /**
   * The built hello, read by a strict parser: all nested lengths fit, and the name, the
   * session id and the random come out. It has 517 bytes whenever it would be shorter
   * than 513 without padding, and the GREASE values of neighbouring fields differ.
   */
  lemma HelloUnderstood(suite: Suite, secret: Bytes, now: Word, g: Grease, sid: Digest32, share: Digest32, name: Bytes)
    requires |name| <= MAX_NAME && Greasy(g)
    ensures
      var h := Signed(suite, secret, now, Unsigned(g, sid, share, name));
      var b := HelloBytes(h);
      && ParseHello(b) == Some(h) && h.sessionId == sid
      && Find(h.extensions, 0) == Some(NameData(name)) && HostName(NameData(name)) == Some(name)
      && b[11..43] == h.random
      && |b| == if |HelloBytes(Unpadded(g, sid, share, name))| < 513 then 517 else 284 + |name|
  {
    hide HelloBytes, ParseHello, ExtsBytes, Unpadded, Find, HostName, NameData, ClientRandom, Sized, PaddingExts;
    var h0 := Unsigned(g, sid, share, name);
    var h := Signed(suite, secret, now, h0);
    SizedHello(g, sid, share, name, h.random);
    HelloRoundTrip(h);
    NameFound(g, sid, share, name);
    RandomIs32(g, sid, share, name);
    RandomPlace(h0, h.random);
    RandomPlace(h, h.random);
    UnsignedSize(g, sid, share, name);
  }

  lemma RandomIs32(g: Grease, sid: Digest32, share: Digest32, name: Bytes)
    ensures Unsigned(g, sid, share, name).random == Filler(32) && Unsigned(g, sid, share, name).sessionId == sid
  {
    hide HelloBytes, ExtsBytes;
  }

  /**
   * The proxy's check: with the random zeroed, the digest under the shared secret xored
   * with the random is 28 zeros and the client's clock.
   */
  lemma ProxyAuthenticates(suite: Suite, secret: Bytes, now: Word, h: Hello)
    requires h.random == Filler(32)
    ensures
      var b := HelloBytes(Signed(suite, secret, now, h));
      var zeroed := b[..11] + Filler(32) + b[43..];
      && Xor(b[11..43], suite.hmac(secret, zeroed)) == Filler(28) + Le(now, 4)
      && LeNat(Le(now, 4)) == now
  {
    hide HelloBytes, XorByte, Le, LeNat;
    var s := Signed(suite, secret, now, h);
    RandomPlace(h, s.random);
    RandomPlace(s, h.random);
    assert s.(random := h.random) == h;
    var digest := suite.hmac(secret, HelloBytes(h));
    Widths();
    LeRoundTrip(now, 4);
    forall i | 0 <= i < 32
      ensures Xor(s.random, digest)[i] == (Filler(28) + Le(now, 4))[i]
    {
      if i < 28 { SelfXor(digest[i]); } else { XorByteInvolutive(Le(now, 4)[i - 28], digest[i]); }
    }
  }

  lemma SelfXor(a: byte)
    ensures XorByte(a, a) == 0
  {
    XorByteInvolutive(0, a);
    SelfBits(a, 8);
  }

  lemma {:induction false} SelfBits(a: nat, k: nat)
    ensures XorBits(a, a, k) == 0
  {
    if k > 0 { SelfBits(a / 2, k - 1); }
  }

  /**
   * The GREASE group of the key share is never among the supported groups, since
   * neighbouring values differ (RFC 8446, section 4.2.8, asks that it is).
   */
  lemma ShareGroupNotOffered(g: Grease)
    requires Greasy(g)
    ensures
      var d := GroupData(g[2]);
      |d| == 10 && d[2..4] != Pair(g[3]) && d[4..6] != Pair(g[3]) && d[6..8] != Pair(g[3]) && d[8..10] != Pair(g[3])
  {
    var d := GroupData(g[2]);
    assert g[2] != g[3] && g[3] % 16 == 0x0A;
    assert d[2..4] == Pair(g[2]) && d[4..6] == [0x00, 0x1D] && d[6..8] == [0x00, 0x17] && d[8..10] == [0x00, 0x18];
    assert Pair(g[2])[0] != Pair(g[3])[0];
  }
}

/** internal/mtproto/tl.go: the TL writer and reader. */
module Tl {
  import opened Bytes
  import opened Wrappers

  function Zeros(n: nat): (z: Bytes)
    ensures |z| == n
  {
    seq(n, _ => 0)
  }

  // ---- what the writer appends

  function Padding(n: nat): (k: nat)
    ensures k < 4 && (n + k) % 4 == 0
  {
    (4 - n % 4) % 4
  }

  /** The length prefix: one byte, or 254 and the low three bytes of the length. */
  function LengthPrefix(n: nat): Bytes {
    if n <= 253 then [n] else [254] + Le(n, 3)
  }

  /** A byte string written when `at` bytes precede it; zeros fill up to a multiple of 4. */
  function StringAt(at: nat, p: Bytes): (b: Bytes)
    ensures (at + |b|) % 4 == 0
  {
    var body := LengthPrefix(|p|) + p;
    body + Zeros(Padding(at + |body|))
  }

  // ---- field sequences

  datatype Field = FU32(v: nat) | FU64(v: nat) | FRaw(p: Bytes) | FStr(p: Bytes)

  /** The values each kind of field can carry. */
  predicate Fits(f: Field) {
    match f
    case FU32(v) => v < 0x1_0000_0000
    case FU64(v) => v < 0x1_0000_0000_0000_0000
    case FRaw(p) => true
    case FStr(p) => |p| < 0x100_0000
  }

  function FieldAt(at: nat, f: Field): Bytes {
    match f
    case FU32(v) => Le(v, 4)
    case FU64(v) => Le(v, 8)
    case FRaw(p) => p
    case FStr(p) => StringAt(at, p)
  }

  function FieldsAt(at: nat, fs: seq<Field>): Bytes
    decreases |fs|
  {
    if fs == [] then [] else
    var head := FieldAt(at, fs[0]);
    head + FieldsAt(at + |head|, fs[1..])
  }

  lemma {:induction false} FieldsAppend(at: nat, fs: seq<Field>, f: Field)
    ensures FieldsAt(at, fs + [f]) == FieldsAt(at, fs) + FieldAt(at + |FieldsAt(at, fs)|, f)
    decreases |fs|
  {
    hide FieldAt;
    if fs == [] {
      assert fs + [f] == [f] && [f][1..] == [];
      assert FieldAt(at, f) + [] == FieldAt(at, f);
    } else {
      assert (fs + [f])[1..] == fs[1..] + [f];
      FieldsAppend(at + |FieldAt(at, fs[0])|, fs[1..], f);
    }
  }

  /** The writer: its buffer always is the encoding of the fields put so far. */
  class Buf {
    var b: Bytes
    ghost var fields: seq<Field>

    ghost predicate Valid()
      reads this
    {
      b == FieldsAt(0, fields)
    }

    constructor ()
      ensures Valid() && fields == []
    {
      b, fields := [], [];
    }

    method U32(v: nat)
      requires Valid()
      modifies this
      ensures Valid() && fields == old(fields) + [FU32(v)]
    {
      FieldsAppend(0, fields, FU32(v));
      b, fields := b + Le(v, 4), fields + [FU32(v)];
    }

    method U64(v: nat)
      requires Valid()
      modifies this
      ensures Valid() && fields == old(fields) + [FU64(v)]
    {
      FieldsAppend(0, fields, FU64(v));
      b, fields := b + Le(v, 8), fields + [FU64(v)];
    }

    method Raw(p: Bytes)
      requires Valid()
      modifies this
      ensures Valid() && fields == old(fields) + [FRaw(p)]
    {
      FieldsAppend(0, fields, FRaw(p));
      b, fields := b + p, fields + [FRaw(p)];
    }

    /** Lines 22-32. */
    method Str(p: Bytes)
      requires Valid()
      modifies this
      ensures Valid() && fields == old(fields) + [FStr(p)]
    {
      hide FieldsAt, Le;
      FieldsAppend(0, fields, FStr(p));
      if |p| <= 253 {
        b := b + [|p|];
      } else {
        LeThree(|p|);
        b := b + [254, |p| % 256, |p| / 0x100 % 256, |p| / 0x1_0000 % 256];
      }
      b := b + p;
      assert b == old(b) + (LengthPrefix(|p|) + p);
      Fill();
      assert b == old(b) + StringAt(|old(b)|, p);
      fields := fields + [FStr(p)];
    }

    /** Lines 29-31. */
    method Fill()
      modifies `b
      ensures b == old(b) + Zeros(Padding(|old(b)|))
    {
      ghost var k := 0;
      while |b| % 4 != 0
        invariant k <= Padding(|old(b)|) && b == old(b) + Zeros(k)
        decreases Padding(|old(b)|) - k
      {
        b := b + [0];
        k := k + 1;
      }
      PaddingUnique(|old(b)|, k);
    }
  }

  lemma PaddingUnique(n: nat, k: nat)
    requires k <= Padding(n) && (n + k) % 4 == 0
    ensures k == Padding(n)
  {}

  lemma LeThree(v: nat)
    ensures Le(v, 3) == [v % 256, v / 0x100 % 256, v / 0x1_0000 % 256]
  {
    assert Le(v, 3) == [v % 256] + Le(v / 256, 2);
    assert Le(v / 256, 2) == [v / 256 % 256] + Le(v / 256 / 256, 1);
    assert Le(v / 256 / 256, 1) == [v / 256 / 256 % 256] + Le(v / 256 / 256 / 256, 0);
  }

  // ---- what the reader returns

  /** A reader's position; after the first error every read yields zeros. */
  datatype Cur = Cur(b: Bytes, i: nat, err: Option<Error>)

  function Start(b: Bytes): Cur { Cur(b, 0, None) }

  function Take(c: Cur, n: nat): (r: (Cur, Bytes))
    ensures |r.1| == n && r.0.b == c.b && (c.err.Some? ==> r.0 == c)
    ensures c.i <= |c.b| ==> r.0.i <= |c.b|
  {
    if c.err.Some? then (c, Zeros(n))
    else if c.i + n > |c.b| then (c.(err := Some(UnexpectedEof)), Zeros(n))
    else (c.(i := c.i + n), c.b[c.i..c.i + n])
  }

  function TakeNat(c: Cur, n: nat): (r: (Cur, nat))
    ensures r.0.b == c.b && (c.i <= |c.b| ==> r.0.i <= |c.b|)
  {
    var (c1, b) := Take(c, n);
    (c1, LeNat(b))
  }

  /** Lines 64-68, the length prefix. */
  function TakeLength(c: Cur): (r: (Cur, nat))
    ensures r.0.b == c.b && (c.i <= |c.b| ==> r.0.i <= |c.b|)
  {
    var (c1, first) := Take(c, 1);
    if first[0] == 254 then
      var (c2, size) := Take(c1, 3);
      (c2, LeNat(size))
    else (c1, first[0])
  }

  /** Single bytes are consumed up to the next multiple of 4. */
  function Align(c: Cur): (r: Cur)
    ensures r.b == c.b && (c.i <= |c.b| ==> r.i <= |c.b|)
    decreases if c.err.None? then Padding(c.i) + 1 else 0
  {
    if c.i % 4 == 0 || c.err.Some? then c else Align(Take(c, 1).0)
  }

  function TakeString(c: Cur): (r: (Cur, Bytes))
    ensures r.0.b == c.b && (c.i <= |c.b| ==> r.0.i <= |c.b|)
  {
    var (c1, length) := TakeLength(c);
    var (c2, out) := Take(c1, length);
    (Align(c2), out)
  }

  function TakeExpected(c: Cur, want: nat): (r: Cur)
    ensures r.b == c.b && (c.i <= |c.b| ==> r.i <= |c.b|)
  {
    var (c1, got) := TakeNat(c, 4);
    if c1.err.Some? || got == want then c1 else c1.(err := Some(UnexpectedConstructor))
  }

  const VECTOR := 0x1CB5C415

  function TakeLongs(c: Cur, count: nat): (Cur, seq<nat>)
    decreases count
  {
    if count == 0 then (c, [])
    else
      var (c1, v) := TakeNat(c, 8);
      var (c2, rest) := TakeLongs(c1, count - 1);
      (c2, [v] + rest)
  }

  function TakeVector(c: Cur): (Cur, seq<nat>) {
    var (c1, ctor) := TakeNat(c, 4);
    if ctor != VECTOR && c1.err.None? then (c1.(err := Some(UnexpectedConstructor)), [])
    else
      var (c2, count) := TakeNat(c1, 4);
      if count > 64 then (if c2.err.None? then c2.(err := Some(ImplausibleVector)) else c2, [])
      else TakeLongs(c2, count)
  }

  class Cursor {
    const b: Bytes
    var i: nat
    var err: Option<Error>

    function At(): Cur
      reads this
    {
      Cur(b, i, err)
    }

    constructor (bytes: Bytes)
      ensures At() == Start(bytes)
    {
      b, i, err := bytes, 0, None;
    }

    /** Lines 45-56. */
    method Next(n: nat) returns (out: Bytes)
      modifies this
      ensures (At(), out) == Take(old(At()), n)
    {
      if err.Some? {
        return Zeros(n);
      }
      if i + n > |b| {
        err := Some(UnexpectedEof);
        return Zeros(n);
      }
      out := b[i..i + n];
      i := i + n;
    }

    method U32() returns (v: nat)
      modifies this
      ensures (At(), v) == TakeNat(old(At()), 4)
    {
      var out := Next(4);
      v := LeNat(out);
    }

    method U64() returns (v: nat)
      modifies this
      ensures (At(), v) == TakeNat(old(At()), 8)
    {
      var out := Next(8);
      v := LeNat(out);
    }

    /** Lines 64-68. */
    method Length() returns (length: nat)
      modifies this
      ensures (At(), length) == TakeLength(old(At()))
    {
      hide LeNat;
      var first := Next(1);
      length := first[0];
      if length == 254 {
        var size := Next(3);
        LeNatThree(size);
        length := size[0] as int + size[1] as int * 0x100 + size[2] as int * 0x1_0000;
      }
    }

    /** Lines 63-75. */
    method Str() returns (out: Bytes)
      modifies this
      ensures (At(), out) == TakeString(old(At()))
    {
      hide TakeLength, Take;
      var length := Length();
      out := Next(length);
      ghost var c := At();
      while i % 4 != 0 && err.None?
        invariant Align(At()) == Align(c)
        decreases if err.None? then Padding(i) + 1 else 0
      {
        AlignShrinks(At());
        var skipped := Next(1);
      }
    }

    /** Lines 96-102. */
    method Expect(want: nat)
      modifies this
      ensures At() == TakeExpected(old(At()), want)
    {
      var got := U32();
      if err.Some? || got == want {
        return;
      }
      err := Some(UnexpectedConstructor);
    }

    /** Lines 77-94. */
    method VectorLong() returns (out: seq<nat>)
      modifies this
      ensures (At(), out) == TakeVector(old(At()))
    {
      var ctor := U32();
      if ctor != VECTOR && err.None? {
        err := Some(UnexpectedConstructor);
        return [];
      }
      var count := U32();
      if count > 64 {
        if err.None? {
          err := Some(ImplausibleVector);
        }
        return [];
      }
      out := [];
      ghost var c := At();
      assert [] + TakeLongs(c, count).1 == TakeLongs(c, count).1;
      var k := 0;
      while k < count
        invariant 0 <= k <= count
        invariant TakeLongs(c, count) == Prepend(out, TakeLongs(At(), count - k))
      {
        ghost var before := At();
        var v := U64();
        PrependStep(before, out, count - k);
        out := out + [v];
        k := k + 1;
      }
      assert out + [] == out;
    }
  }

  ghost function Prepend(out: seq<nat>, r: (Cur, seq<nat>)): (Cur, seq<nat>) { (r.0, out + r.1) }

  lemma PrependStep(c: Cur, out: seq<nat>, n: nat)
    requires n > 0
    ensures Prepend(out, TakeLongs(c, n)) == Prepend(out + [TakeNat(c, 8).1], TakeLongs(TakeNat(c, 8).0, n - 1))
  {
    var v, rest := TakeNat(c, 8).1, TakeLongs(TakeNat(c, 8).0, n - 1).1;
    assert out + ([v] + rest) == (out + [v]) + rest;
  }

  lemma AlignShrinks(c: Cur)
    requires c.i % 4 != 0 && c.err.None?
    ensures Align(c) == Align(Take(c, 1).0)
    ensures Take(c, 1).0.err.Some? || (Take(c, 1).0.err.None? && Padding(Take(c, 1).0.i) < Padding(c.i))
  {
    hide Padding;
    PaddingShrinks(c.i);
  }

  lemma PaddingShrinks(n: nat)
    requires n % 4 != 0
    ensures Padding(n + 1) < Padding(n)
  {}

  lemma LeNatThree(b: Bytes)
    requires |b| == 3
    ensures LeNat(b) == b[0] as int + b[1] as int * 0x100 + b[2] as int * 0x1_0000
  {
    assert LeNat(b) == b[0] + 256 * LeNat(b[1..]);
    assert LeNat(b[1..]) == b[1] + 256 * LeNat(b[1..][1..]);
    assert b[1..][1..] == [b[2]];
    assert LeNat([b[2]]) == b[2] + 256 * LeNat([b[2]][1..]);
  }

  // ---- the reader undoes the writer

  /** Same kind, and for raw fields the same length. */
  predicate Alike(f: Field, g: Field) {
    match f
    case FU32(_) => g.FU32?
    case FU64(_) => g.FU64?
    case FRaw(p) => g.FRaw? && |g.p| == |p|
    case FStr(_) => g.FStr?
  }

  predicate AllAlike(fs: seq<Field>, gs: seq<Field>) {
    |fs| == |gs| && forall i :: 0 <= i < |fs| ==> Alike(fs[i], gs[i])
  }

  /** A reader needs only the kinds of the fields. */
  lemma {:induction false} TakeAlike(c: Cur, fs: seq<Field>, gs: seq<Field>)
    requires AllAlike(fs, gs)
    ensures TakeFields(c, fs) == TakeFields(c, gs)
    decreases |fs|
  {
    if fs != [] {
      TakeAlike(TakeField(c, fs[0]).0, fs[1..], gs[1..]);
    }
  }

  /** Reads one field of the same kind; the reader knows how long a raw field is. */
  function TakeField(c: Cur, f: Field): (Cur, Field) {
    match f
    case FU32(_) => var (c1, v) := TakeNat(c, 4); (c1, FU32(v))
    case FU64(_) => var (c1, v) := TakeNat(c, 8); (c1, FU64(v))
    case FRaw(p) => var (c1, q) := Take(c, |p|); (c1, FRaw(q))
    case FStr(_) => var (c1, q) := TakeString(c); (c1, FStr(q))
  }

  function TakeFields(c: Cur, fs: seq<Field>): (r: (Cur, seq<Field>))
    ensures AllAlike(r.1, fs)
    decreases |fs|
  {
    if fs == [] then (c, [])
    else
      var (c1, f) := TakeField(c, fs[0]);
      var (c2, rest) := TakeFields(c1, fs[1..]);
      (c2, [f] + rest)
  }

  /** `x` stands in the buffer at the reader's position. */
  ghost predicate Ahead(c: Cur, x: Bytes) {
    c.err.None? && c.i + |x| <= |c.b| && c.b[c.i..c.i + |x|] == x
  }

  lemma AheadSplit(c: Cur, x: Bytes, y: Bytes)
    requires Ahead(c, x + y)
    ensures Ahead(c, x) && Ahead(c.(i := c.i + |x|), y)
  {
    var z := x + y;
    assert c.b[c.i..c.i + |x|] == z[..|x|] == x;
    assert c.b[c.i + |x|..c.i + |z|] == z[|x|..] == y;
  }

  lemma TakeAhead(c: Cur, x: Bytes)
    requires Ahead(c, x)
    ensures Take(c, |x|) == (c.(i := c.i + |x|), x)
  {}

  lemma NatAhead(c: Cur, v: nat, n: nat)
    requires v < Pow256(n) && Ahead(c, Le(v, n))
    ensures TakeNat(c, n) == (c.(i := c.i + n), v)
  {
    LeRoundTrip(v, n);
    TakeAhead(c, Le(v, n));
  }

  lemma PrefixAhead(c: Cur, n: nat)
    requires n < 0x100_0000 && Ahead(c, LengthPrefix(n))
    ensures TakeLength(c) == (c.(i := c.i + |LengthPrefix(n)|), n)
  {
    if n <= 253 {
      TakeAhead(c, [n]);
    } else {
      AheadSplit(c, [254], Le(n, 3));
      TakeAhead(c, [254]);
      TakeAhead(c.(i := c.i + 1), Le(n, 3));
      Widths();
      LeRoundTrip(n, 3);
    }
  }

  lemma {:induction false} AlignAhead(c: Cur, k: nat)
    requires k == Padding(c.i) && Ahead(c, Zeros(k))
    ensures Align(c) == c.(i := c.i + k)
    decreases k
  {
    if k > 0 {
      assert c.i % 4 != 0;
      assert Zeros(k) == Zeros(1) + Zeros(k - 1);
      AheadSplit(c, Zeros(1), Zeros(k - 1));
      AlignAhead(c.(i := c.i + 1), k - 1);
    }
  }

  /** A byte string is read back whole, padding and all. */
  lemma StringAhead(c: Cur, p: Bytes)
    requires |p| < 0x100_0000 && Ahead(c, StringAt(c.i, p))
    ensures TakeString(c) == (c.(i := c.i + |StringAt(c.i, p)|), p)
  {
    hide Align, TakeLength, Ahead;
    var prefix := LengthPrefix(|p|);
    var pad := Zeros(Padding(c.i + |prefix + p|));
    AheadSplit(c, prefix + p, pad);
    AheadSplit(c, prefix, p);
    PrefixAhead(c, |p|);
    TakeAhead(c.(i := c.i + |prefix|), p);
    AlignAhead(c.(i := c.i + |prefix + p|), |pad|);
  }

  lemma FieldAhead(c: Cur, f: Field)
    requires Fits(f) && Ahead(c, FieldAt(c.i, f))
    ensures TakeField(c, f) == (c.(i := c.i + |FieldAt(c.i, f)|), f)
  {
    hide Ahead, TakeString, StringAt;
    Widths();
    match f
    case FU32(v) => NatAhead(c, v, 4);
    case FU64(v) => NatAhead(c, v, 8);
    case FRaw(p) => TakeAhead(c, p);
    case FStr(p) => StringAhead(c, p);
  }

  /** Any field sequence is read back as written, wherever in the buffer it stands. */
  lemma {:induction false} FieldsAhead(c: Cur, fs: seq<Field>)
    requires (forall i :: 0 <= i < |fs| ==> Fits(fs[i])) && Ahead(c, FieldsAt(c.i, fs))
    ensures TakeFields(c, fs) == (c.(i := c.i + |FieldsAt(c.i, fs)|), fs)
    decreases |fs|
  {
    hide Ahead, TakeField, FieldAt, Fits;
    if fs != [] {
      var head := FieldAt(c.i, fs[0]);
      AheadSplit(c, head, FieldsAt(c.i + |head|, fs[1..]));
      FieldAhead(c, fs[0]);
      FieldsAhead(c.(i := c.i + |head|), fs[1..]);
      assert fs == [fs[0]] + fs[1..];
    }
  }

  /** One field read, the next ones ahead. */
  lemma StepField(c: Cur, f: Field, rest: seq<Field>)
    requires Fits(f) && Ahead(c, FieldsAt(c.i, [f] + rest))
    ensures
      var c1 := c.(i := c.i + |FieldAt(c.i, f)|);
      && TakeField(c, f) == (c1, f) && Ahead(c1, FieldsAt(c1.i, rest))
      && c.i + |FieldsAt(c.i, [f] + rest)| == c1.i + |FieldsAt(c1.i, rest)|
  {
    hide Ahead, TakeField, FieldAt, Fits;
    var fs := [f] + rest;
    assert fs[0] == f && fs[1..] == rest;
    var head := FieldAt(c.i, f);
    AheadSplit(c, head, FieldsAt(c.i + |head|, rest));
    FieldAhead(c, f);
  }

  function Longs(vs: seq<nat>): (fs: seq<Field>)
    ensures |fs| == |vs|
  {
    seq(|vs|, i requires 0 <= i < |vs| => FU64(vs[i]))
  }

  predicate AllLongs(vs: seq<nat>) {
    forall i :: 0 <= i < |vs| ==> vs[i] < 0x1_0000_0000_0000_0000
  }

  lemma {:induction false} LongsAhead(c: Cur, vs: seq<nat>)
    requires Ahead(c, FieldsAt(c.i, Longs(vs))) && AllLongs(vs)
    ensures TakeLongs(c, |vs|) == (c.(i := c.i + |FieldsAt(c.i, Longs(vs))|), vs)
    decreases |vs|
  {
    hide Ahead, FieldAt, FieldsAt, TakeNat, Longs, Le, LeNat;
    if vs == [] {
      NoLongs(c.i);
    } else {
      LongsCons(vs);
      LongFits(vs[0]);
      StepField(c, FU64(vs[0]), Longs(vs[1..]));
      LongsAhead(TakeField(c, FU64(vs[0])).0, vs[1..]);
      assert vs == [vs[0]] + vs[1..];
    }
  }

  lemma NoLongs(at: nat)
    ensures FieldsAt(at, Longs([])) == []
  {}

  lemma LongsCons(vs: seq<nat>)
    requires vs != []
    ensures Longs(vs) == [FU64(vs[0])] + Longs(vs[1..])
  {}

  lemma LongFits(v: nat)
    requires v < 0x1_0000_0000_0000_0000
    ensures Fits(FU64(v))
  {}

  /** A vector of up to 64 longs is read back. */
  lemma VectorAhead(c: Cur, vs: seq<nat>)
    requires |vs| <= 64 && AllLongs(vs)
    requires Ahead(c, FieldsAt(c.i, [FU32(VECTOR), FU32(|vs|)] + Longs(vs)))
    ensures TakeVector(c).1 == vs && TakeVector(c).0.err.None?
  {
    hide Ahead, FieldAt, FieldsAt, TakeLongs;
    assert [FU32(VECTOR), FU32(|vs|)] + Longs(vs) == [FU32(VECTOR)] + ([FU32(|vs|)] + Longs(vs));
    StepField(c, FU32(VECTOR), [FU32(|vs|)] + Longs(vs));
    var c1 := TakeField(c, FU32(VECTOR)).0;
    StepField(c1, FU32(|vs|), Longs(vs));
    var c2 := TakeField(c1, FU32(|vs|)).0;
    LongsAhead(c2, vs);
    AheadNoError(c2, FieldsAt(c2.i, Longs(vs)));
  }

  lemma AheadNoError(c: Cur, x: Bytes)
    requires Ahead(c, x)
    ensures c.err.None?
  {}

  /** From the start of a buffer, with anything behind: no error, and the reader at the end. */
  lemma FieldsRoundTrip(fs: seq<Field>, rest: Bytes)
    requires forall i :: 0 <= i < |fs| ==> Fits(fs[i])
    ensures
      var b := FieldsAt(0, fs);
      TakeFields(Start(b + rest), fs) == (Cur(b + rest, |b|, None), fs)
  {
    FieldsAhead(Start(FieldsAt(0, fs) + rest), fs);
  }

  /** A byte string survives exactly when its length fits the three length bytes. */
  lemma StringExactly(p: Bytes)
    ensures TakeString(Start(StringAt(0, p))).1 == p <==> |p| < 0x100_0000
  {
    var b := StringAt(0, p);
    if |p| < 0x100_0000 {
      assert b[0..|b|] == b;
      StringAhead(Start(b), p);
    } else {
      Widths();
      TakeLengthBound(Start(b));
    }
  }

  lemma TakeLengthBound(c: Cur)
    ensures TakeLength(c).1 < 0x100_0000
  {
    Widths();
    var (c1, first) := Take(c, 1);
    LeNatRoundTrip(Take(c1, 3).1);
  }

  /** Messages whose raw fields are whole words are whole words. */
  lemma {:induction false} FieldsAligned(at: nat, fs: seq<Field>)
    requires at % 4 == 0 && forall i :: 0 <= i < |fs| && fs[i].FRaw? ==> |fs[i].p| % 4 == 0
    ensures |FieldsAt(at, fs)| % 4 == 0
    decreases |fs|
  {
    hide FieldAt;
    if fs != [] {
      var n := |FieldAt(at, fs[0])|;
      FieldAligned(at, fs[0]);
      FieldsAligned(at + n, fs[1..]);
      assert |FieldsAt(at, fs)| == n + |FieldsAt(at + n, fs[1..])|;
    }
  }

  lemma FieldAligned(at: nat, f: Field)
    requires at % 4 == 0 && (f.FRaw? ==> |f.p| % 4 == 0)
    ensures |FieldAt(at, f)| % 4 == 0 && (at + |FieldAt(at, f)|) % 4 == 0
  {
    hide Padding, LengthPrefix;
  }

  /** Where each byte of a written string stands, and that zeros fill it up to a whole word. */
  lemma StringLayout(at: nat, p: Bytes)
    requires |p| < 0x100_0000
    ensures
      var b := StringAt(at, p);
      var k := if |p| <= 253 then 1 else 4;
      && (if |p| <= 253 then b[0] == |p|
          else b[0] == 254 && b[1] == |p| % 0x100 && b[2] == |p| / 0x100 % 0x100 && b[3] == |p| / 0x1_0000)
      && |b| >= k + |p| && b[k..k + |p|] == p
      && |b| - k - |p| < 4 && (at + |b|) % 4 == 0 && forall i :: k + |p| <= i < |b| ==> b[i] == 0
  {
    LeThree(|p|);
    var prefix := LengthPrefix(|p|);
    var pad := Zeros(Padding(at + |prefix + p|));
    assert StringAt(at, p) == prefix + p + pad;
  }

  /** Integers stand with their least significant byte first. */
  lemma WordLayout(v: nat)
    requires v < 0x1_0000_0000
    ensures Le(v, 4) == [v % 0x100, v / 0x100 % 0x100, v / 0x1_0000 % 0x100, v / 0x100_0000]
  {
    hide Le;
    LeThree(v / 0x100);
    WordTail(v);
    assert v / 0x100 / 0x100 == v / 0x1_0000 && v / 0x100 / 0x1_0000 == v / 0x100_0000;
    assert v / 0x100_0000 % 0x100 == v / 0x100_0000;
  }

  lemma WordTail(v: nat)
    ensures Le(v, 4) == [v % 0x100] + Le(v / 0x100, 3)
  {}

  // ---- when reading fails

  /** A read succeeds exactly when nothing has failed before and enough bytes are left; then it takes them. */
  lemma TakeExactly(c: Cur, n: nat)
    ensures
      var (c1, b) := Take(c, n);
      && (c1.err.None? <==> c.err.None? && c.i + n <= |c.b|)
      && (c1.err.None? ==> b == c.b[c.i..c.i + n] && c1.i == c.i + n)
      && (c.err.None? && c.i + n > |c.b| ==> c1.err == Some(UnexpectedEof) && b == seq(n, _ => 0))
      && (c.err.Some? ==> c1 == c && b == seq(n, _ => 0))
  {}

  /** A vector is refused for another constructor, and for more than 64 elements. */
  lemma VectorRefused(c: Cur, ctor: nat, count: nat)
    requires ctor < 0x1_0000_0000 && count < 0x1_0000_0000 && Ahead(c, FieldsAt(c.i, [FU32(ctor), FU32(count)]))
    ensures ctor != 0x1CB5C415 ==> TakeVector(c).0.err == Some(UnexpectedConstructor)
    ensures ctor == 0x1CB5C415 && count > 64 ==> TakeVector(c).0.err == Some(ImplausibleVector) && TakeVector(c).1 == []
  {
    hide Ahead, FieldAt, FieldsAt, TakeLongs;
    assert [FU32(ctor), FU32(count)] == [FU32(ctor)] + [FU32(count)] && [FU32(count)] == [FU32(count)] + [];
    StepField(c, FU32(ctor), [FU32(count)]);
    var c1 := TakeField(c, FU32(ctor)).0;
    StepField(c1, FU32(count), []);
    AheadNoError(c1, FieldsAt(c1.i, [FU32(count)]));
    var c2 := TakeField(c1, FU32(count)).0;
    AheadNoError(c2, FieldsAt(c2.i, []));
  }
}

/** Laws of the reflective codec over every schema: round trip, alignment, exact consumption. */
module XdrLaws {
  import opened Octets
  import opened XdrSchema

  lemma GetPutWord(n: u32, rest: seq<byte>)
    ensures GetWord(PutWord(n).bytes + rest) == Got(n, rest)
  {
    var b := U32Bytes(n) + rest;
    assert b[..4] == U32Bytes(n) && b[4..] == rest;
    U32RoundTrip(n);
  }

  lemma Assoc(a: seq<byte>, b: seq<byte>, c: seq<byte>)
    ensures a + b + c == a + (b + c)
  {
  }

  lemma GetPutBytes(x: seq<byte>, rest: seq<byte>)
    ensures GetBytes(|x|, PutBytes(x).bytes + rest) == Got(x, rest)
  {
    var b := x + Zeros(Pad(|x|)) + rest;
    assert b[..|x|] == x && b[|x| + Pad(|x|)..] == rest;
  }

  lemma GetPutHyper(n: u64, rest: seq<byte>)
    ensures U64Of((U64Bytes(n) + rest)[..8]) == n && (U64Bytes(n) + rest)[8..] == rest
  {
    assert (U64Bytes(n) + rest)[..8] == U64Bytes(n);
    U64RoundTrip(n);
  }

  lemma NarrowFits(k: Kind, i: int)
    requires k.Fits(i)
    ensures k.Narrow(Truncate32(i)) == i
  {
    if i < 0 { assert Truncate32(i) == i + TWO32; }
  }

  /** A shape whose encoding needs no other shape's. */
  predicate Scalar(s: Shape) {
    s.Bool? || s.Word? || s.Hyper? || s.Opaque? || s.ByteArray?
  }

  lemma RoundTripHyper(g: Schema, signed: bool, v: Value, rest: seq<byte>)
    requires ValidSchema(g) && Fits(g, Hyper(signed), v)
    ensures Dec(g, Hyper(signed), Enc(g, Hyper(signed), v).bytes + rest) == Got(v, rest)
  {
    hide BigEndian, FromBigEndian, ValidSchema, RankAll;
    GetPutHyper(v.i % TWO64, rest);
    assert v.i % TWO64 == if v.i < 0 then v.i + TWO64 else v.i;
  }

  lemma RoundTripOpaque(g: Schema, v: Value, rest: seq<byte>)
    requires ValidSchema(g) && Fits(g, Opaque, v)
    ensures Dec(g, Opaque, Enc(g, Opaque, v).bytes + rest) == Got(v, rest)
  {
    hide BigEndian, FromBigEndian, ValidSchema, RankAll, PutBytes, GetBytes;
    Assoc(PutWord(|v.s|).bytes, PutBytes(v.s).bytes, rest);
    GetPutWord(|v.s|, PutBytes(v.s).bytes + rest);
    GetPutBytes(v.s, rest);
  }

  lemma RoundTripScalar(g: Schema, s: Shape, v: Value, rest: seq<byte>)
    requires ValidSchema(g) && Fits(g, s, v) && Scalar(s)
    ensures Enc(g, s, v).ok
    ensures Dec(g, s, Enc(g, s, v).bytes + rest) == Got(v, rest)
  {
    match s
    case Bool => GetPutWord(if v.b then 1 else 0, rest);
    case Word(k) =>
      GetPutWord(Truncate32(v.i), rest);
      NarrowFits(k, v.i);
    case Hyper(signed) => RoundTripHyper(g, signed, v, rest);
    case Opaque => RoundTripOpaque(g, v, rest);
    case ByteArray(n) => GetPutBytes(v.s, rest);
  }

  /** Decoding an encoding, whatever follows it, gives back the value and what follows. */
  lemma {:induction false} RoundTrip(g: Schema, s: Shape, v: Value, rest: seq<byte>)
    requires ValidSchema(g) && Fits(g, s, v)
    ensures Enc(g, s, v).ok
    ensures Dec(g, s, Enc(g, s, v).bytes + rest) == Got(v, rest)
    decreases v, 1
  {
    hide BigEndian, FromBigEndian, ValidSchema, RankAll, EncEach, EncFields, DecEach, DecFields;
    match s
    case Array(n, e) => RoundTripEach(g, e, v.vs, rest);
    case Slice(e) =>
      RoundTripEach(g, e, v.vs, rest);
      var body := EncEach(g, e, v.vs).bytes;
      Assoc(PutWord(|v.vs|).bytes, body, rest);
      GetPutWord(|v.vs|, body + rest);
    case Ptr(e) => RoundTripPtr(g, e, v, rest);
    case Struct(n) =>
      if g.defs[n].union {
        RoundTripUnion(g, n, v, rest);
      } else {
        RoundTripFields(g, g.defs[n].fields, v.vs, rest);
      }
    case _ => RoundTripScalar(g, s, v, rest);
  }

  lemma {:induction false} RoundTripPtr(g: Schema, e: Shape, v: Value, rest: seq<byte>)
    requires ValidSchema(g) && Fits(g, Ptr(e), v)
    ensures Enc(g, Ptr(e), v).ok
    ensures Dec(g, Ptr(e), Enc(g, Ptr(e), v).bytes + rest) == Got(v, rest)
    decreases v, 0
  {
    hide BigEndian, FromBigEndian, ValidSchema, RankAll, EncEach, EncFields, DecEach, DecFields;
    if v.VNil? {
      GetPutWord(0, rest);
    } else {
      RoundTrip(g, e, v.v, rest);
      var body := Enc(g, e, v.v).bytes;
      Assoc(PutWord(1).bytes, body, rest);
      GetPutWord(1, body + rest);
    }
  }

  lemma {:induction false} RoundTripUnion(g: Schema, n: string, v: Value, rest: seq<byte>)
    requires ValidSchema(g) && Fits(g, Struct(n), v) && g.defs[n].union
    ensures Enc(g, Struct(n), v).ok
    ensures Dec(g, Struct(n), Enc(g, Struct(n), v).bytes + rest) == Got(v, rest)
    decreases v, 0
  {
    hide BigEndian, FromBigEndian, ValidSchema, RankAll, EncEach, EncFields, DecEach, DecFields;
    var f := g.defs[n].fields[v.mode + 1];
    RoundTrip(g, f, v.arm, rest);
    var body := Enc(g, f, v.arm).bytes;
    Assoc(PutWord(v.mode).bytes, body, rest);
    GetPutWord(v.mode, body + rest);
  }

  lemma DecEachCons(g: Schema, e: Shape, n: nat, b: seq<byte>, v: Value, k: seq<byte>, vs: seq<Value>, rest: seq<byte>)
    requires ValidSchema(g) && n > 0
    requires Dec(g, e, b) == Got(v, k) && DecEach(g, e, n - 1, k) == Got(vs, rest)
    ensures DecEach(g, e, n, b) == Got([v] + vs, rest)
  {
  }

  lemma DecFieldsCons(g: Schema, fs: seq<Shape>, b: seq<byte>, v: Value, k: seq<byte>, vs: seq<Value>, rest: seq<byte>)
    requires ValidSchema(g) && fs != []
    requires Dec(g, fs[0], b) == Got(v, k) && DecFields(g, fs[1..], k) == Got(vs, rest)
    ensures DecFields(g, fs, b) == Got([v] + vs, rest)
  {
  }

  lemma {:induction false} RoundTripEach(g: Schema, e: Shape, vs: seq<Value>, rest: seq<byte>)
    requires ValidSchema(g) && forall i :: 0 <= i < |vs| ==> Fits(g, e, vs[i])
    ensures EncEach(g, e, vs).ok
    ensures DecEach(g, e, |vs|, EncEach(g, e, vs).bytes + rest) == Got(vs, rest)
    decreases vs, 0
  {
    hide Enc, Dec, Fits, ValidSchema, BigEndian, RankAll;
    if vs == [] {
      assert [] + rest == rest;
    } else {
      RoundTripEach(g, e, vs[1..], rest);
      var tail := EncEach(g, e, vs[1..]).bytes;
      RoundTrip(g, e, vs[0], tail + rest);
      var head := Enc(g, e, vs[0]).bytes;
      Assoc(head, tail, rest);
      DecEachCons(g, e, |vs|, head + (tail + rest), vs[0], tail + rest, vs[1..], rest);
      assert [vs[0]] + vs[1..] == vs;
    }
  }

  lemma {:induction false} RoundTripFields(g: Schema, fs: seq<Shape>, vs: seq<Value>, rest: seq<byte>)
    requires ValidSchema(g) && |fs| == |vs| && forall i :: 0 <= i < |fs| ==> Fits(g, fs[i], vs[i])
    ensures EncFields(g, fs, vs).ok
    ensures DecFields(g, fs, EncFields(g, fs, vs).bytes + rest) == Got(vs, rest)
    decreases vs, 0
  {
    hide Enc, Dec, Fits, ValidSchema, BigEndian, RankAll;
    if vs == [] {
      assert [] + rest == rest;
    } else {
      RoundTripFields(g, fs[1..], vs[1..], rest);
      var tail := EncFields(g, fs[1..], vs[1..]).bytes;
      RoundTrip(g, fs[0], vs[0], tail + rest);
      var head := Enc(g, fs[0], vs[0]).bytes;
      Assoc(head, tail, rest);
      DecFieldsCons(g, fs, head + (tail + rest), vs[0], tail + rest, vs[1..], rest);
      assert [vs[0]] + vs[1..] == vs;
    }
  }

  /** No encoding is a proper prefix of another one of the same type, and equal bytes mean
      equal values. */
  lemma PrefixFree(g: Schema, s: Shape, v: Value, v': Value, rest: seq<byte>, rest': seq<byte>)
    requires ValidSchema(g) && Fits(g, s, v) && Fits(g, s, v')
    requires Enc(g, s, v).bytes + rest == Enc(g, s, v').bytes + rest'
    ensures v == v' && rest == rest'
  {
    RoundTrip(g, s, v, rest);
    RoundTrip(g, s, v', rest');
  }

  /** A value of an int or uint field comes back exactly when it lies in [0, 2^32). */
  lemma PlainIntRoundTrips(k: Kind, i: int, rest: seq<byte>)
    requires (k == KInt || k == KUint) && k.Holds(i)
    ensures Dec(Schema(map[], map[]), Word(k), Enc(Schema(map[], map[]), Word(k), VInt(i)).bytes + rest)
              == Got(VInt(i), rest)
            <==> 0 <= i < TWO32
  {
    hide BigEndian, FromBigEndian, RankAll;
    GetPutWord(Truncate32(i), rest);
  }

  predicate WholeWords(o: Out) { |o.bytes| % 4 == 0 }

  lemma ThenWholeWords(a: Out, b: Out)
    requires WholeWords(a) && WholeWords(b)
    ensures WholeWords(a.Then(b))
  {
  }

  /** Every write, complete or cut short by an error, is a whole number of words
      (section 3 of RFC 4506). */
  lemma {:induction false} Aligned(g: Schema, s: Shape, v: Value)
    ensures WholeWords(Enc(g, s, v))
    decreases v, 0
  {
    match (s, v)
    case (Array(_, e), VList(vs)) => AlignedEach(g, e, vs);
    case (Slice(e), VList(vs)) =>
      AlignedEach(g, e, vs);
      ThenWholeWords(PutWord(Truncate32(|vs|)), EncEach(g, e, vs));
    case (Ptr(e), VRef(x)) =>
      Aligned(g, e, x);
      ThenWholeWords(PutBool(true), Enc(g, e, x));
    case (Struct(n), VUnion(mode, arm)) =>
      if n in g.defs && g.defs[n].union && mode + 1 < |g.defs[n].fields| {
        Aligned(g, g.defs[n].fields[mode + 1], arm);
        ThenWholeWords(PutWord(mode), Enc(g, g.defs[n].fields[mode + 1], arm));
      }
    case (Struct(n), VList(vs)) =>
      if n in g.defs && !g.defs[n].union { AlignedFields(g, g.defs[n].fields, vs); }
    case (Opaque, VOpaque(x)) => ThenWholeWords(PutWord(Truncate32(|x|)), PutBytes(x));
    case _ =>
  }

  lemma {:induction false} AlignedEach(g: Schema, e: Shape, vs: seq<Value>)
    ensures WholeWords(EncEach(g, e, vs))
    decreases vs, 0
  {
    if vs != [] {
      Aligned(g, e, vs[0]);
      AlignedEach(g, e, vs[1..]);
      ThenWholeWords(Enc(g, e, vs[0]), EncEach(g, e, vs[1..]));
    }
  }

  lemma {:induction false} AlignedFields(g: Schema, fs: seq<Shape>, vs: seq<Value>)
    ensures WholeWords(EncFields(g, fs, vs))
    decreases vs, 0
  {
    if fs != [] && vs != [] {
      Aligned(g, fs[0], vs[0]);
      AlignedFields(g, fs[1..], vs[1..]);
      ThenWholeWords(Enc(g, fs[0], vs[0]), EncFields(g, fs[1..], vs[1..]));
    }
  }

  /** rest is what remains of b after dropping n bytes. */
  ghost predicate Drops(b: seq<byte>, n: nat, rest: seq<byte>) {
    n <= |b| && rest == b[n..]
  }

  lemma DropsTwice(b: seq<byte>, n: nat, k: seq<byte>, m: nat, rest: seq<byte>)
    requires Drops(b, n, k) && Drops(k, m, rest)
    ensures Drops(b, n + m, rest)
  {
  }

  /** Whatever bytes the decoder accepts, with any padding and any non-zero boolean, it returns a
      value with a wire form and has consumed exactly the length of that form. */
  lemma {:induction false} Consumes(g: Schema, s: Shape, b: seq<byte>)
    requires ValidSchema(g) && Dec(g, s, b).Got?
    ensures Fits(g, s, Dec(g, s, b).value)
    ensures Enc(g, s, Dec(g, s, b).value).ok
    ensures Drops(b, |Enc(g, s, Dec(g, s, b).value).bytes|, Dec(g, s, b).rest)
    decreases |b|, Rank(g, s), s, 1
  {
    match s
    case Array(n, e) => ConsumesEach(g, e, n, b);
    case Slice(e) =>
      var n := GetWord(b).value;
      ConsumesEach(g, e, n, b[4..]);
      var vs := DecEach(g, e, n, b[4..]).value;
      DropsTwice(b, 4, b[4..], |EncEach(g, e, vs).bytes|, Dec(g, s, b).rest);
    case Ptr(e) => ConsumesPtr(g, e, b);
    case Struct(n) =>
      if g.defs[n].union {
        ConsumesUnion(g, n, b);
      } else {
        ConsumesFields(g, g.defs[n].fields, b);
      }
    case _ => ConsumesScalar(g, s, b);
  }

  lemma ConsumesOpaque(g: Schema, b: seq<byte>)
    requires ValidSchema(g) && Dec(g, Opaque, b).Got?
    ensures Fits(g, Opaque, Dec(g, Opaque, b).value)
    ensures Enc(g, Opaque, Dec(g, Opaque, b).value).ok
    ensures Drops(b, |Enc(g, Opaque, Dec(g, Opaque, b).value).bytes|, Dec(g, Opaque, b).rest)
  {
    hide BigEndian, FromBigEndian, ValidSchema, RankAll;
    DropsTwice(b, 4, b[4..], |PutBytes(Dec(g, Opaque, b).value.s).bytes|, Dec(g, Opaque, b).rest);
  }

  lemma ConsumesScalar(g: Schema, s: Shape, b: seq<byte>)
    requires ValidSchema(g) && Dec(g, s, b).Got? && Scalar(s)
    ensures Fits(g, s, Dec(g, s, b).value)
    ensures Enc(g, s, Dec(g, s, b).value).ok
    ensures Drops(b, |Enc(g, s, Dec(g, s, b).value).bytes|, Dec(g, s, b).rest)
  {
    hide BigEndian, FromBigEndian, ValidSchema, RankAll;
    if s.Opaque? { ConsumesOpaque(g, b); }
  }

  lemma {:induction false} ConsumesPtr(g: Schema, e: Shape, b: seq<byte>)
    requires ValidSchema(g) && Dec(g, Ptr(e), b).Got?
    ensures Fits(g, Ptr(e), Dec(g, Ptr(e), b).value)
    ensures Enc(g, Ptr(e), Dec(g, Ptr(e), b).value).ok
    ensures Drops(b, |Enc(g, Ptr(e), Dec(g, Ptr(e), b).value).bytes|, Dec(g, Ptr(e), b).rest)
    decreases |b|, 0, Ptr(e), 0
  {
    if GetWord(b).value != 0 {
      Consumes(g, e, b[4..]);
      DropsTwice(b, 4, b[4..], |Enc(g, e, Dec(g, e, b[4..]).value).bytes|, Dec(g, Ptr(e), b).rest);
    }
  }

  lemma {:induction false} ConsumesUnion(g: Schema, n: string, b: seq<byte>)
    requires ValidSchema(g) && Dec(g, Struct(n), b).Got? && g.defs[n].union
    ensures Fits(g, Struct(n), Dec(g, Struct(n), b).value)
    ensures Enc(g, Struct(n), Dec(g, Struct(n), b).value).ok
    ensures Drops(b, |Enc(g, Struct(n), Dec(g, Struct(n), b).value).bytes|, Dec(g, Struct(n), b).rest)
    decreases |b|, Rank(g, Struct(n)), Struct(n), 0
  {
    var f := g.defs[n].fields[GetWord(b).value + 1];
    Consumes(g, f, b[4..]);
    DropsTwice(b, 4, b[4..], |Enc(g, f, Dec(g, f, b[4..]).value).bytes|, Dec(g, Struct(n), b).rest);
  }

  lemma {:induction false} ConsumesEach(g: Schema, e: Shape, n: nat, b: seq<byte>)
    requires ValidSchema(g) && DecEach(g, e, n, b).Got?
    ensures |DecEach(g, e, n, b).value| == n
    ensures forall i :: 0 <= i < n ==> Fits(g, e, DecEach(g, e, n, b).value[i])
    ensures EncEach(g, e, DecEach(g, e, n, b).value).ok
    ensures Drops(b, |EncEach(g, e, DecEach(g, e, n, b).value).bytes|, DecEach(g, e, n, b).rest)
    decreases |b|, Rank(g, e), e, n + 1
  {
    hide Enc, Dec, Fits, ValidSchema, BigEndian;
    if n > 0 {
      Consumes(g, e, b);
      var k := Dec(g, e, b).rest;
      ConsumesEach(g, e, n - 1, k);
      var vs := DecEach(g, e, n, b).value;
      assert vs[1..] == DecEach(g, e, n - 1, k).value;
      DropsTwice(b, |Enc(g, e, vs[0]).bytes|, k, |EncEach(g, e, vs[1..]).bytes|, DecEach(g, e, n, b).rest);
    }
  }

  lemma {:induction false} ConsumesFields(g: Schema, fs: seq<Shape>, b: seq<byte>)
    requires ValidSchema(g) && DecFields(g, fs, b).Got?
    ensures |DecFields(g, fs, b).value| == |fs|
    ensures forall i :: 0 <= i < |fs| ==> Fits(g, fs[i], DecFields(g, fs, b).value[i])
    ensures EncFields(g, fs, DecFields(g, fs, b).value).ok
    ensures Drops(b, |EncFields(g, fs, DecFields(g, fs, b).value).bytes|, DecFields(g, fs, b).rest)
    decreases |b|, RankAll(g, fs), fs, 0
  {
    hide Enc, Dec, Fits, ValidSchema, BigEndian;
    if fs != [] {
      Consumes(g, fs[0], b);
      var k := Dec(g, fs[0], b).rest;
      ConsumesFields(g, fs[1..], k);
      var vs := DecFields(g, fs, b).value;
      assert vs[1..] == DecFields(g, fs[1..], k).value;
      DropsTwice(b, |Enc(g, fs[0], vs[0]).bytes|, k, |EncFields(g, fs[1..], vs[1..]).bytes|, DecFields(g, fs, b).rest);
    }
  }

  // ---------------------------------------------------------------- building structs field by field

  lemma WordFits(g: Schema, n: u32)
    ensures Fits(g, Word(KUint32), VInt(n))
  {
  }

  /** A []uint32. */
  function Numbers(ws: seq<u32>): Value { VList(seq(|ws|, i requires 0 <= i < |ws| => VInt(ws[i]))) }

  lemma NumbersFit(g: Schema, ws: seq<u32>)
    requires |ws| < TWO32
    ensures Fits(g, Slice(Word(KUint32)), Numbers(ws)) && HasShape(g, Slice(Word(KUint32)), Numbers(ws))
  {
    var vs := Numbers(ws).vs;
    assert forall i :: 0 <= i < |vs| ==> Fits(g, Word(KUint32), vs[i]);
    assert forall i :: 0 <= i < |vs| ==> HasShape(g, Word(KUint32), vs[i]);
  }

  lemma OpaqueFits(g: Schema, s: seq<byte>)
    requires |s| < TWO32
    ensures Fits(g, Opaque, VOpaque(s))
  {
  }

  lemma StructFits(g: Schema, n: string, vs: seq<Value>)
    requires n in g.defs && !g.defs[n].union && |vs| == |g.defs[n].fields|
    requires forall i :: 0 <= i < |vs| ==> Fits(g, g.defs[n].fields[i], vs[i])
    ensures Fits(g, Struct(n), VList(vs))
  {
  }

  lemma {:induction false} RankZero(g: Schema, fs: seq<Shape>)
    requires forall i :: 0 <= i < |fs| ==> Rank(g, fs[i]) == 0
    ensures RankAll(g, fs) == 0
  {
    if fs != [] { RankZero(g, fs[1..]); }
  }

  lemma {:induction false} RankAtMostOne(g: Schema, fs: seq<Shape>)
    requires forall i :: 0 <= i < |fs| ==> Rank(g, fs[i]) <= 1
    ensures RankAll(g, fs) <= 1
  {
    if fs != [] { RankAtMostOne(g, fs[1..]); }
  }

  lemma NoFields(g: Schema) returns (out: Out)
    ensures out == DONE == EncFields(g, [], [])
  {
    out := DONE;
  }

  lemma Fields(g: Schema, fs: seq<Shape>, vs: seq<Value>, rest: Out) returns (out: Out)
    requires fs != [] && vs != [] && rest == EncFields(g, fs[1..], vs[1..])
    ensures out == EncFields(g, fs, vs) == Enc(g, fs[0], vs[0]).Then(rest)
  {
    out := EncFields(g, fs, vs);
  }
}

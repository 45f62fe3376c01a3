/** The header that generate.go writes says that everything works when the generated file is
    commented out. Here: for which types and values that is so. */
module XdrAgreement {
  import opened Octets
  import opened XdrSchema
  import opened XdrLaws
  import opened XdrGenerate

  /** No pointer to a pointer inside s. */
  predicate Plain(s: Shape) {
    match s
    case Array(_, e) => Plain(e)
    case Slice(e) => Plain(e)
    case Ptr(e) => !e.Ptr? && Plain(e)
    case _ => true
  }

  ghost predicate PlainSchema(g: Schema) {
    forall n, i :: n in g.defs && 0 <= i < |g.defs[n].fields| ==> Plain(g.defs[n].fields[i])
  }

  lemma ThenAssoc(a: Out, b: Out, c: Out)
    ensures a.Then(b).Then(c) == a.Then(b.Then(c))
  {
    Assoc(a.bytes, b.bytes, c.bytes);
  }

  lemma {:induction false} EncFieldsSnoc(g: Schema, fs: seq<Shape>, vs: seq<Value>)
    requires |fs| == |vs| > 0
    ensures EncFields(g, fs, vs)
         == EncFields(g, fs[..|fs| - 1], vs[..|fs| - 1]).Then(Enc(g, fs[|fs| - 1], vs[|fs| - 1]))
  {
    var n := |fs| - 1;
    if n > 0 {
      EncFieldsSnoc(g, fs[1..], vs[1..]);
      assert fs[..n][1..] == fs[1..][..n - 1] && vs[..n][1..] == vs[1..][..n - 1];
      ThenAssoc(Enc(g, fs[0], vs[0]), EncFields(g, fs[..n][1..], vs[..n][1..]), Enc(g, fs[n], vs[n]));
    }
  }

  lemma {:induction false} EachUint32Same(g: Schema, vs: seq<Value>)
    requires forall i :: 0 <= i < |vs| ==> vs[i].VInt?
    ensures EachUint32(vs) == EncEach(g, Word(KUint32), vs)
  {
    if vs != [] { EachUint32Same(g, vs[1..]); }
  }

  lemma {:induction false} EachStringSame(g: Schema, vs: seq<Value>)
    requires forall i :: 0 <= i < |vs| ==> vs[i].VOpaque?
    ensures EachString(vs) == EncEach(g, Opaque, vs)
  {
    if vs != [] { EachStringSame(g, vs[1..]); }
  }

  /** Every value that is not itself a pointer is encoded the same, byte for byte and error for
      error, whichever generated codecs are compiled in. */
  lemma {:induction false} EncodeAgrees(g: Schema, gen: set<string>, s: Shape, v: Value)
    requires ValidSchema(g) && PlainSchema(g) && Plain(s) && !s.Ptr? && HasShape(g, s, v)
    ensures Encode(g, gen, s, v) == Enc(g, s, v)
    decreases v, 2
  {
    if s.Struct? && HasCodec(g, gen, s.name) {
      GeneratedAgrees(g, gen, s.name, v);
    } else if s == Slice(Word(KUint32)) {
      EachUint32Same(g, v.vs);
    } else if s == Slice(Opaque) {
      EachStringSame(g, v.vs);
    } else {
      ReflectAgrees(g, gen, s, v);
    }
  }

  lemma {:induction false} ReflectAgrees(g: Schema, gen: set<string>, s: Shape, v: Value)
    requires ValidSchema(g) && PlainSchema(g) && Plain(s) && HasShape(g, s, v)
    ensures EncodeReflect(g, gen, s, v) == Enc(g, s, v)
    decreases v, 0
  {
    match (s, v)
    case (Array(_, e), VList(vs)) => ReflectEachAgrees(g, gen, e, vs);
    case (Slice(e), VList(vs)) => ReflectEachAgrees(g, gen, e, vs);
    case (Ptr(e), VRef(x)) => EncodeAgrees(g, gen, e, x);
    case (Struct(n), VUnion(mode, arm)) =>
      if mode + 1 < |g.defs[n].fields| { ReflectAgrees(g, gen, g.defs[n].fields[mode + 1], arm); }
    case (Struct(n), VList(vs)) => ReflectFieldsAgree(g, gen, g.defs[n].fields, vs);
    case _ =>
  }

  lemma {:induction false} ReflectEachAgrees(g: Schema, gen: set<string>, e: Shape, vs: seq<Value>)
    requires ValidSchema(g) && PlainSchema(g) && Plain(e)
    requires forall i :: 0 <= i < |vs| ==> HasShape(g, e, vs[i])
    ensures ReflectEach(g, gen, e, vs) == EncEach(g, e, vs)
    decreases vs, 0
  {
    if vs != [] {
      ReflectAgrees(g, gen, e, vs[0]);
      ReflectEachAgrees(g, gen, e, vs[1..]);
    }
  }

  lemma {:induction false} ReflectFieldsAgree(g: Schema, gen: set<string>, fs: seq<Shape>, vs: seq<Value>)
    requires ValidSchema(g) && PlainSchema(g) && |fs| == |vs|
    requires forall i :: 0 <= i < |fs| ==> Plain(fs[i]) && HasShape(g, fs[i], vs[i])
    ensures ReflectFields(g, gen, fs, vs) == EncFields(g, fs, vs)
    decreases vs, 0
  {
    if vs != [] {
      ReflectAgrees(g, gen, fs[0], vs[0]);
      ReflectFieldsAgree(g, gen, fs[1..], vs[1..]);
    }
  }

  lemma {:induction false} EncodeAllAgrees(g: Schema, gen: set<string>, fs: seq<Shape>, vs: seq<Value>)
    requires ValidSchema(g) && PlainSchema(g) && |fs| == |vs|
    requires forall i :: 0 <= i < |fs| ==> Plain(fs[i]) && !fs[i].Ptr? && HasShape(g, fs[i], vs[i])
    ensures EncodeAll(g, gen, fs, vs) == EncFields(g, fs, vs)
    decreases vs, 0
  {
    if vs != [] {
      EncodeAgrees(g, gen, fs[0], vs[0]);
      EncodeAllAgrees(g, gen, fs[1..], vs[1..]);
    }
  }

  lemma {:induction false} StarAgrees(g: Schema, gen: set<string>, e: Shape, v: Value)
    requires ValidSchema(g) && PlainSchema(g) && Plain(Ptr(e)) && HasShape(g, Ptr(e), v)
    ensures EncodeStar(g, gen, Ptr(e), v) == Enc(g, Ptr(e), v)
    decreases v, 3
  {
    if v.VRef? { EncodeAgrees(g, gen, e, v.v); }
  }

  lemma {:induction false} GeneratedAgrees(g: Schema, gen: set<string>, n: string, v: Value)
    requires ValidSchema(g) && PlainSchema(g) && HasCodec(g, gen, n) && HasShape(g, Struct(n), v)
    ensures EncodeGenerated(g, gen, n, v) == Enc(g, Struct(n), v)
    decreases v, 1
  {
    var fs, k := g.defs[n].fields, |g.defs[n].fields| - 1;
    match Emit(g.defs[n])[0]
    case EmptyStruct =>
    case UnionStruct => if v.mode < k { EncodeAgrees(g, gen, fs[v.mode + 1], v.arm); }
    case Definition => EncodeAllAgrees(g, gen, fs, v.vs);
    case DefinitionStar =>
      EncodeAllAgrees(g, gen, fs[..k], v.vs[..k]);
      StarAgrees(g, gen, fs[k].elem, v.vs[k]);
      EncFieldsSnoc(g, fs, v.vs);
    case StarDefinition =>
      StarAgrees(g, gen, fs[0].elem, v.vs[0]);
      EncodeAllAgrees(g, gen, fs[1..], v.vs[1..]);
  }

  lemma {:induction false} DecFieldsSnoc(g: Schema, fs: seq<Shape>, b: seq<byte>)
    requires ValidSchema(g) && fs != []
    ensures DecFields(g, fs, b) ==
            match DecFields(g, fs[..|fs| - 1], b)
            case Fail => Fail
            case Got(vs, k) =>
              match Dec(g, fs[|fs| - 1], k) case Fail => Fail case Got(v, k') => Got(vs + [v], k')
    decreases fs
  {
    var n := |fs| - 1;
    if n == 0 {
      assert fs[1..] == [] && fs[..n] == [];
      if Dec(g, fs[0], b).Got? {
        assert [Dec(g, fs[0], b).value] + [] == [] + [Dec(g, fs[0], b).value];
      }
    } else if Dec(g, fs[0], b).Got? {
      DecFieldsSnoc(g, fs[1..], Dec(g, fs[0], b).rest);
      assert fs[..n][1..] == fs[1..][..n - 1] && fs[1..][n - 1] == fs[n];
      var init := DecFields(g, fs[1..][..n - 1], Dec(g, fs[0], b).rest);
      if init.Got? && Dec(g, fs[n], init.rest).Got? {
        assert [Dec(g, fs[0], b).value] + (init.value + [Dec(g, fs[n], init.rest).value])
            == [Dec(g, fs[0], b).value] + init.value + [Dec(g, fs[n], init.rest).value];
      }
    }
  }

  /** Every input is decoded the same, to the same value and rest or to an error, whichever
      generated codecs are compiled in. */
  lemma {:induction false} DecodeAgrees(g: Schema, gen: set<string>, s: Shape, b: seq<byte>)
    requires ValidSchema(g)
    ensures Decode(g, gen, s, b) == Dec(g, s, b)
    decreases |b|, Rank(g, s), s, 1
  {
    if s.Struct? && HasCodec(g, gen, s.name) { DecodeGeneratedAgrees(g, gen, s.name, b); }
  }

  lemma {:induction false} DecodeAllAgrees(g: Schema, gen: set<string>, fs: seq<Shape>, b: seq<byte>)
    requires ValidSchema(g)
    ensures DecodeAll(g, gen, fs, b) == DecFields(g, fs, b)
    decreases |b|, RankAll(g, fs), fs, 0
  {
    if fs != [] {
      DecodeAgrees(g, gen, fs[0], b);
      if Dec(g, fs[0], b).Got? { DecodeAllAgrees(g, gen, fs[1..], Dec(g, fs[0], b).rest); }
    }
  }

  lemma {:induction false} DecodeStarAgrees(g: Schema, gen: set<string>, e: Shape, b: seq<byte>)
    requires ValidSchema(g)
    ensures DecodeStar(g, gen, Ptr(e), b) == Dec(g, Ptr(e), b)
    decreases |b|, 0, Ptr(e), 0
  {
    if GetWord(b).Got? { DecodeAgrees(g, gen, e, b[4..]); }
  }

  lemma {:induction false} DecodeGeneratedAgrees(g: Schema, gen: set<string>, n: string, b: seq<byte>)
    requires ValidSchema(g) && HasCodec(g, gen, n)
    ensures DecodeGenerated(g, gen, n, b) == Dec(g, Struct(n), b)
    decreases |b|, Rank(g, Struct(n)), Struct(n), 0
  {
    hide BigEndian, FromBigEndian, DecEach, GetBytes;
    var fs, k := g.defs[n].fields, |g.defs[n].fields| - 1;
    match Emit(g.defs[n])[0]
    case EmptyStruct =>
    case UnionStruct =>
      if GetWord(b).Got? && GetWord(b).value < k { DecodeAgrees(g, gen, fs[GetWord(b).value + 1], b[4..]); }
    case Definition => DecodeAllAgrees(g, gen, fs, b);
    case DefinitionStar =>
      RankAllTake(g, fs);
      DecodeAllAgrees(g, gen, fs[..k], b);
      DecFieldsSnoc(g, fs, b);
      var r := DecFields(g, fs[..k], b);
      if r.Got? { DecodeStarAgrees(g, gen, fs[k].elem, r.rest); }
    case StarDefinition =>
      DecodeStarAgrees(g, gen, fs[0].elem, b);
      var r := Dec(g, fs[0], b);
      if r.Got? { DecodeAllAgrees(g, gen, fs[1..], r.rest); }
  }

  /** The whole path as it runs: what Encode writes, with any generated code on the sender's
      side, Decode reads back, with any generated code on the receiver's side. */
  lemma RoundTripAcrossCodecs(g: Schema, gen: set<string>, gen': set<string>, s: Shape, v: Value, rest: seq<byte>)
    requires ValidSchema(g) && PlainSchema(g) && Plain(s) && !s.Ptr?
    requires HasShape(g, s, v) && Fits(g, s, v)
    ensures Encode(g, gen, s, v).ok
    ensures Decode(g, gen', s, Encode(g, gen, s, v).bytes + rest) == Got(v, rest)
  {
    EncodeAgrees(g, gen, s, v);
    RoundTrip(g, s, v, rest);
    DecodeAgrees(g, gen', s, Enc(g, s, v).bytes + rest);
  }

  /** A pointer to a struct is where the claim ends: Encode writes the struct without the flag
      exactly when its codec was generated, and four bytes more when it was not. */
  lemma PointerEncoding(g: Schema, gen: set<string>, n: string, v: Value)
    requires ValidSchema(g) && PlainSchema(g) && HasShape(g, Struct(n), v)
    ensures Encode(g, gen, Ptr(Struct(n)), VRef(v)) ==
            if HasCodec(g, gen, n) then Enc(g, Struct(n), v) else PutBool(true).Then(Enc(g, Struct(n), v))
    ensures Encode(g, gen, Ptr(Struct(n)), VRef(v)) == Enc(g, Ptr(Struct(n)), VRef(v)) <==> !HasCodec(g, gen, n)
  {
    if HasCodec(g, gen, n) {
      GeneratedAgrees(g, gen, n, v);
    } else {
      ReflectAgrees(g, gen, Ptr(Struct(n)), VRef(v));
    }
  }

  /** Hence Plain: behind a second pointer the flag is lost too, while the decoder still reads
      two, so the claim fails for a pointer to a pointer exactly when the codec was generated. */
  lemma PointerToPointerEncoding(g: Schema, gen: set<string>, n: string, v: Value)
    requires ValidSchema(g) && PlainSchema(g) && HasShape(g, Struct(n), v)
    ensures Encode(g, gen, Ptr(Ptr(Struct(n))), VRef(VRef(v))) == Enc(g, Ptr(Ptr(Struct(n))), VRef(VRef(v)))
            <==> !HasCodec(g, gen, n)
  {
    PointerEncoding(g, gen, n, v);
    var inner := Encode(g, gen, Ptr(Struct(n)), VRef(v));
    assert Encode(g, gen, Ptr(Ptr(Struct(n))), VRef(VRef(v))) == PutBool(true).Then(inner);
    assert |PutBool(true).Then(inner).bytes| == 4 + |inner.bytes|;
    assert Enc(g, Ptr(Ptr(Struct(n))), VRef(VRef(v))) == PutBool(true).Then(Enc(g, Ptr(Struct(n)), VRef(v)));
  }
}

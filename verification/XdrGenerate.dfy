/** xdr/generate as a compiler from struct types to codecs, the code it emits as the Encoder and
    Decoder run it, and the claim in its header: everything works without the generated file. */
module XdrGenerate {
  import opened Octets
  import opened XdrSchema
  import opened XdrLaws

  /** The five templates of generate.go. */
  datatype Template = EmptyStruct | Definition | DefinitionStar | StarDefinition | UnionStruct

  /** collectFields succeeds: there are fields and none of them is a pointer. */
  predicate Collects(fs: seq<Shape>) {
    fs != [] && forall i :: 0 <= i < |fs| ==> !fs[i].Ptr?
  }

  datatype Field = Field(name: string, typ: Shape)

  function Types(fields: seq<Field>): seq<Shape> {
    seq(|fields|, i requires 0 <= i < |fields| => fields[i].typ)
  }

  /** collectFields: the argument lists that the templates are filled with. */
  method CollectFields(fields: seq<Field>) returns (decodeList: seq<string>, encodeList: seq<string>, ok: bool)
    ensures ok <==> Collects(Types(fields))
    ensures ok ==> |decodeList| == |encodeList| == |fields|
    ensures ok ==> forall i :: 0 <= i < |fields| ==>
                     decodeList[i] == "&x." + fields[i].name && encodeList[i] == "x." + fields[i].name
  {
    decodeList, encodeList := [], [];
    for k := 0 to |fields|
      invariant |decodeList| == |encodeList| == k
      invariant forall i :: 0 <= i < k ==> !fields[i].typ.Ptr?
      invariant forall i :: 0 <= i < k ==>
                  decodeList[i] == "&x." + fields[i].name && encodeList[i] == "x." + fields[i].name
    {
      if fields[k].typ.Ptr? {
        assert Types(fields)[k].Ptr?;
        return [], [], false;
      }
      decodeList := decodeList + ["&x." + fields[k].name];
      encodeList := encodeList + ["x." + fields[k].name];
    }
    ok := |fields| > 0;
  }

  /** addDefinition: the codecs written for one struct type, in order. */
  function Emit(d: Def): seq<Template> {
    var fs := d.fields;
    if fs == [] then [EmptyStruct]
    else if d.union then if Collects(fs) then [UnionStruct] else []
    else
      (if fs[0].Ptr? && Collects(fs[1..]) then [StarDefinition] else [])
      + (if fs[|fs| - 1].Ptr? && Collects(fs[..|fs| - 1]) then [DefinitionStar] else [])
      + (if Collects(fs) then [Definition] else [])
  }

  /** The pointer fields of a struct type. */
  function Pointers(d: Def): set<int> {
    set i | 0 <= i < |d.fields| && d.fields[i].Ptr?
  }

  /** addDefinition never writes two codecs for one type, although two of its branches fall
      through; it writes none exactly for the types it cannot handle, which are left to reflection:
      a union with a pointer arm, or a struct whose pointers are not one single pointer at either
      end beside other fields. */
  lemma EmitsAtMostOne(d: Def)
    ensures |Emit(d)| <= 1
    ensures Emit(d) == [] <==>
            && d.fields != []
            && Pointers(d) != {}
            && (d.union || |d.fields| == 1 || (Pointers(d) != {0} && Pointers(d) != {|d.fields| - 1}))
  {
    var fs := d.fields;
    if fs != [] {
      var n := |fs| - 1;
      assert Collects(fs) <==> Pointers(d) == {} by {
        if Pointers(d) == {} { forall i | 0 <= i < |fs| ensures !fs[i].Ptr? { assert i !in Pointers(d); } }
      }
      if n > 0 {
        assert fs[0].Ptr? && Collects(fs[1..]) <==> Pointers(d) == {0} by { FirstOnly(d); }
        assert fs[n].Ptr? && Collects(fs[..n]) <==> Pointers(d) == {n} by { LastOnly(d); }
      }
    }
  }

  lemma FirstOnly(d: Def)
    requires |d.fields| > 1
    ensures d.fields[0].Ptr? && Collects(d.fields[1..]) <==> Pointers(d) == {0}
  {
    var fs := d.fields;
    if Pointers(d) == {0} {
      assert 0 in Pointers(d);
      forall i | 0 <= i < |fs[1..]| ensures !fs[1..][i].Ptr? { assert i + 1 !in Pointers(d); }
    }
  }

  lemma LastOnly(d: Def)
    requires |d.fields| > 1
    ensures d.fields[|d.fields| - 1].Ptr? && Collects(d.fields[..|d.fields| - 1]) <==> Pointers(d) == {|d.fields| - 1}
  {
    var fs, n := d.fields, |d.fields| - 1;
    if Pointers(d) == {n} {
      assert n in Pointers(d);
      forall i | 0 <= i < n ensures !fs[..n][i].Ptr? { assert i !in Pointers(d); }
    }
  }

  /** The struct type n implements Encodable and Decodable: its file went through the generator
      (gen names the types of such files) and the generator wrote a codec. */
  predicate HasCodec(g: Schema, gen: set<string>, n: string) {
    n in gen && n in g.defs && Emit(g.defs[n]) != []
  }

  // ---------------------------------------------------------------- the encoder as it runs

  /** Encoder.Encode: the type switch, then Encodable, then reflection. A pointer to a type with a
      generated codec is itself Encodable, by the method set of its element. */
  function Encode(g: Schema, gen: set<string>, s: Shape, v: Value): Out
    decreases v, 2
  {
    match s
    case Struct(n) => if HasCodec(g, gen, n) then EncodeGenerated(g, gen, n, v) else EncodeReflect(g, gen, s, v)
    case Ptr(Struct(n)) =>
      if !HasCodec(g, gen, n) then EncodeReflect(g, gen, s, v)
      else if v.VRef? then EncodeGenerated(g, gen, n, v.v)
      else ERROR
    case Slice(Word(KUint32)) => if v.VList? then Uint32s(v.vs) else ERROR
    case Slice(Opaque) => if v.VList? then Strings(v.vs) else ERROR
    case _ => EncodeReflect(g, gen, s, v)
  }

  function Uint32s(vs: seq<Value>): Out {
    PutWord(Truncate32(|vs|)).Then(EachUint32(vs))
  }

  function EachUint32(vs: seq<Value>): Out {
    if vs == [] then DONE
    else (if vs[0].VInt? then PutWord(Truncate32(vs[0].i)) else ERROR).Then(EachUint32(vs[1..]))
  }

  function Strings(vs: seq<Value>): Out {
    PutWord(Truncate32(|vs|)).Then(EachString(vs))
  }

  function EachString(vs: seq<Value>): Out {
    if vs == [] then DONE
    else (if vs[0].VOpaque? then PutOpaque(vs[0].s) else ERROR).Then(EachString(vs[1..]))
  }

  function EncodeAll(g: Schema, gen: set<string>, fs: seq<Shape>, vs: seq<Value>): Out
    decreases vs, 0
  {
    if fs == [] then DONE
    else if vs == [] then ERROR
    else Encode(g, gen, fs[0], vs[0]).Then(EncodeAll(g, gen, fs[1..], vs[1..]))
  }

  /** encodeReflect: as Enc, but what a pointer refers to goes back through Encode. */
  function EncodeReflect(g: Schema, gen: set<string>, s: Shape, v: Value): Out
    decreases v, 0
  {
    match (s, v)
    case (Array(_, e), VList(vs)) => ReflectEach(g, gen, e, vs)
    case (Slice(e), VList(vs)) => PutWord(Truncate32(|vs|)).Then(ReflectEach(g, gen, e, vs))
    case (Ptr(e), VRef(x)) => PutBool(true).Then(Encode(g, gen, e, x))
    case (Struct(n), VUnion(mode, arm)) =>
      if n !in g.defs || !g.defs[n].union then ERROR
      else
        var fs := g.defs[n].fields;
        PutWord(mode).Then(if mode + 1 >= |fs| then ERROR else EncodeReflect(g, gen, fs[mode + 1], arm))
    case (Struct(n), VList(vs)) =>
      if n !in g.defs || g.defs[n].union then ERROR else ReflectFields(g, gen, g.defs[n].fields, vs)
    case _ => Enc(g, s, v)
  }

  function ReflectEach(g: Schema, gen: set<string>, e: Shape, vs: seq<Value>): Out
    decreases vs, 0
  {
    if vs == [] then DONE else EncodeReflect(g, gen, e, vs[0]).Then(ReflectEach(g, gen, e, vs[1..]))
  }

  function ReflectFields(g: Schema, gen: set<string>, fs: seq<Shape>, vs: seq<Value>): Out
    decreases vs, 0
  {
    if fs == [] then DONE
    else if vs == [] then ERROR
    else EncodeReflect(g, gen, fs[0], vs[0]).Then(ReflectFields(g, gen, fs[1..], vs[1..]))
  }

  /** The Encode method that the template of struct n expands to. */
  function EncodeGenerated(g: Schema, gen: set<string>, n: string, v: Value): Out
    requires HasCodec(g, gen, n)
    decreases v, 1
  {
    var fs := g.defs[n].fields;
    match Emit(g.defs[n])[0]
    case EmptyStruct => DONE
    case UnionStruct =>
      if !v.VUnion? then ERROR
      else PutWord(v.mode).Then(if v.mode >= |fs| - 1 then ERROR else Encode(g, gen, fs[v.mode + 1], v.arm))
    case Definition => if v.VList? then EncodeAll(g, gen, fs, v.vs) else ERROR
    case DefinitionStar =>
      if !v.VList? || |v.vs| != |fs| then ERROR
      else EncodeAll(g, gen, fs[..|fs| - 1], v.vs[..|fs| - 1]).Then(EncodeStar(g, gen, fs[|fs| - 1], v.vs[|fs| - 1]))
    case StarDefinition =>
      if !v.VList? || |v.vs| != |fs| then ERROR
      else EncodeStar(g, gen, fs[0], v.vs[0]).Then(EncodeAll(g, gen, fs[1..], v.vs[1..]))
  }

  /** The optional field of the two star templates: a flag, then the element if there is one. */
  function EncodeStar(g: Schema, gen: set<string>, s: Shape, v: Value): Out
    decreases v, 3
  {
    if !s.Ptr? then ERROR
    else if v.VRef? then PutBool(true).Then(Encode(g, gen, s.elem, v.v))
    else if v.VNil? then PutBool(false)
    else ERROR
  }

  // ---------------------------------------------------------------- the decoder as it runs

  /** Decoder.Decode into a zero target of type s. */
  function Decode(g: Schema, gen: set<string>, s: Shape, b: seq<byte>): (r: In<Value>)
    requires ValidSchema(g)
    ensures r.Got? ==> |r.rest| <= |b|
    decreases |b|, Rank(g, s), s, 1
  {
    if s.Struct? && HasCodec(g, gen, s.name) then DecodeGenerated(g, gen, s.name, b) else Dec(g, s, b)
  }

  function DecodeAll(g: Schema, gen: set<string>, fs: seq<Shape>, b: seq<byte>): (r: In<seq<Value>>)
    requires ValidSchema(g)
    ensures r.Got? ==> |r.rest| <= |b|
    decreases |b|, RankAll(g, fs), fs, 0
  {
    if fs == [] then Got([], b)
    else
      match Decode(g, gen, fs[0], b)
      case Fail => Fail
      case Got(v, k) =>
        match DecodeAll(g, gen, fs[1..], k) case Fail => Fail case Got(vs, k') => Got([v] + vs, k')
  }

  function DecodeStar(g: Schema, gen: set<string>, s: Shape, b: seq<byte>): (r: In<Value>)
    requires ValidSchema(g)
    ensures r.Got? ==> |r.rest| <= |b|
    decreases |b|, 0, s, 0
  {
    match GetWord(b)
    case Fail => Fail
    case Got(u, k) =>
      if !s.Ptr? then Fail
      else if u == 0 then Got(VNil, k)
      else match Decode(g, gen, s.elem, k) case Fail => Fail case Got(v, k') => Got(VRef(v), k')
  }

  function DecodeGenerated(g: Schema, gen: set<string>, n: string, b: seq<byte>): (r: In<Value>)
    requires ValidSchema(g) && HasCodec(g, gen, n)
    ensures r.Got? ==> |r.rest| <= |b|
    decreases |b|, Rank(g, Struct(n)), Struct(n), 0
  {
    var fs := g.defs[n].fields;
    match Emit(g.defs[n])[0]
    case EmptyStruct => Got(VList([]), b)
    case UnionStruct =>
      (match GetWord(b)
       case Fail => Fail
       case Got(mode, k) =>
         if mode >= |fs| - 1 then Fail
         else match Decode(g, gen, fs[mode + 1], k) case Fail => Fail case Got(v, k') => Got(VUnion(mode, v), k'))
    case Definition => (match DecodeAll(g, gen, fs, b) case Fail => Fail case Got(vs, k) => Got(VList(vs), k))
    case DefinitionStar =>
      RankAllTake(g, fs);
      (match DecodeAll(g, gen, fs[..|fs| - 1], b)
       case Fail => Fail
       case Got(vs, k) =>
         match DecodeStar(g, gen, fs[|fs| - 1], k) case Fail => Fail case Got(v, k') => Got(VList(vs + [v]), k'))
    case StarDefinition =>
      (match DecodeStar(g, gen, fs[0], b)
       case Fail => Fail
       case Got(v, k) =>
         match DecodeAll(g, gen, fs[1..], k) case Fail => Fail case Got(vs, k') => Got(VList([v] + vs), k'))
  }

  lemma {:induction false} RankAllTake(g: Schema, fs: seq<Shape>)
    requires fs != []
    ensures RankAll(g, fs[..|fs| - 1]) <= RankAll(g, fs)
  {
    if |fs| > 1 {
      RankAllTake(g, fs[1..]);
      assert fs[..|fs| - 1][1..] == fs[1..][..|fs[1..]| - 1];
    }
  }
}

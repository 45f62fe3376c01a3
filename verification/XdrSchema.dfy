/** Go types and values as the xdr package sees them, and the reflective codec
    (xdr/encoder.go, xdr/decoder.go) as the reference meaning of the wire format. */
module XdrSchema {
  import opened Octets

  /** The integer kinds that travel in one four-byte word. */
  datatype Kind = KInt8 | KInt16 | KInt32 | KInt | KUint8 | KUint16 | KUint32 | KUint {
    function Lo(): int {
      match this
      case KInt8 => -0x80
      case KInt16 => -0x8000
      case KInt32 => -0x8000_0000
      case KInt => -0x8000_0000_0000_0000
      case _ => 0
    }
    function Hi(): int {
      match this
      case KInt8 => 0x80
      case KInt16 => 0x8000
      case KInt32 => 0x8000_0000
      case KInt => 0x8000_0000_0000_0000
      case KUint8 => 0x100
      case KUint16 => 0x1_0000
      case KUint32 => 0x1_0000_0000
      case KUint => 0x1_0000_0000_0000_0000
    }
    predicate Holds(i: int) { Lo() <= i < Hi() }

    /** reflect's SetInt and SetUint keep the low bits of the word. */
    function Narrow(u: u32): (i: int)
      ensures Holds(i)
    {
      var m := u % (Hi() - Lo());
      if m < Hi() then m else m - (Hi() - Lo())
    }

    /** The values of the kind that survive the trip through one word. */
    predicate Fits(i: int) {
      Holds(i) && (this == KInt || this == KUint ==> 0 <= i < TWO32)
    }
  }

  datatype Shape =
    | Bool
    | Word(kind: Kind)
    | Hyper(signed: bool)           // int64, uint64
    | Opaque                        // string, []byte
    | ByteArray(len: nat)           // [len]byte
    | Array(len: nat, elem: Shape)
    | Slice(elem: Shape)
    | Ptr(elem: Shape)
    | Struct(name: string)
    | Other                         // a kind the codec rejects

  /** A struct type: its field types in order; for a union, fields[0] holds the mode. */
  datatype Def = Def(union: bool, fields: seq<Shape>)

  /** The declared struct types. `rank` is Go's ban on infinite-size types: a struct contains
      by value only structs of smaller rank; pointers and slices may refer to any struct. */
  datatype Schema = Schema(defs: map<string, Def>, rank: map<string, nat>)

  datatype Value =
    | VBool(b: bool)
    | VInt(i: int)
    | VOpaque(s: seq<byte>)
    | VList(vs: seq<Value>)           // slice, array or struct
    | VNil
    | VRef(v: Value)                  // non-nil pointer
    | VUnion(mode: u32, arm: Value)   // the arm the mode selects

  function Rank(g: Schema, s: Shape): nat {
    match s
    case Array(_, e) => Rank(g, e)
    case Struct(n) => if n in g.rank then g.rank[n] + 1 else 0
    case _ => 0
  }

  function RankAll(g: Schema, fs: seq<Shape>): (r: nat)
    ensures forall i :: 0 <= i < |fs| ==> Rank(g, fs[i]) <= r
  {
    if fs == [] then 0
    else
      var r := RankAll(g, fs[1..]);
      if Rank(g, fs[0]) > r then Rank(g, fs[0]) else r
  }

  ghost predicate ValidSchema(g: Schema) {
    && g.rank.Keys == g.defs.Keys
    && forall n :: n in g.defs ==>
         && RankAll(g, g.defs[n].fields) <= g.rank[n]
         && (g.defs[n].union ==> |g.defs[n].fields| > 0 && g.defs[n].fields[0] == Word(KUint32))
  }

  /** v is a Go value of type s. */
  predicate HasShape(g: Schema, s: Shape, v: Value)
    decreases v
  {
    match s
    case Bool => v.VBool?
    case Word(k) => v.VInt? && k.Holds(v.i)
    case Hyper(signed) => v.VInt? && if signed then -TWO64 / 2 <= v.i < TWO64 / 2 else 0 <= v.i < TWO64
    case Opaque => v.VOpaque?
    case ByteArray(n) => v.VOpaque? && |v.s| == n
    case Array(n, e) => v.VList? && |v.vs| == n && forall i :: 0 <= i < |v.vs| ==> HasShape(g, e, v.vs[i])
    case Slice(e) => v.VList? && forall i :: 0 <= i < |v.vs| ==> HasShape(g, e, v.vs[i])
    case Ptr(e) => v.VNil? || (v.VRef? && HasShape(g, e, v.v))
    case Struct(n) =>
      && n in g.defs
      && var fs := g.defs[n].fields;
         if g.defs[n].union then
           v.VUnion? && (v.mode + 1 < |fs| ==> HasShape(g, fs[v.mode + 1], v.arm))
         else
           v.VList? && |v.vs| == |fs| && forall i :: 0 <= i < |fs| ==> HasShape(g, fs[i], v.vs[i])
    case Other => false
  }

  /** v is a value of type s that has a wire form: lengths below 2^32, union modes that name
      an arm, int and uint within one word. */
  predicate Fits(g: Schema, s: Shape, v: Value)
    decreases v
  {
    match s
    case Bool => v.VBool?
    case Word(k) => v.VInt? && k.Fits(v.i)
    case Hyper(signed) => v.VInt? && if signed then -TWO64 / 2 <= v.i < TWO64 / 2 else 0 <= v.i < TWO64
    case Opaque => v.VOpaque? && |v.s| < TWO32
    case ByteArray(n) => v.VOpaque? && |v.s| == n
    case Array(n, e) => v.VList? && |v.vs| == n && forall i :: 0 <= i < |v.vs| ==> Fits(g, e, v.vs[i])
    case Slice(e) => v.VList? && |v.vs| < TWO32 && forall i :: 0 <= i < |v.vs| ==> Fits(g, e, v.vs[i])
    case Ptr(e) => v.VNil? || (v.VRef? && Fits(g, e, v.v))
    case Struct(n) =>
      && n in g.defs
      && var fs := g.defs[n].fields;
         if g.defs[n].union then
           v.VUnion? && v.mode + 1 < |fs| && Fits(g, fs[v.mode + 1], v.arm)
         else
           v.VList? && |v.vs| == |fs| && forall i :: 0 <= i < |fs| ==> Fits(g, fs[i], v.vs[i])
    case Other => false
  }

  // ---------------------------------------------------------------- encoding

  /** What an encoder call wrote, and whether it returned nil. */
  datatype Out = Out(bytes: seq<byte>, ok: bool) {
    /** Go's `if err := a; err != nil { return err }; return b`. */
    function Then(next: Out): Out {
      if ok then Out(bytes + next.bytes, next.ok) else this
    }
  }

  const DONE := Out([], true)
  const ERROR := Out([], false)

  function PutWord(n: u32): (o: Out)
    ensures o.ok && |o.bytes| == 4
  { Out(U32Bytes(n), true) }

  function PutBool(b: bool): Out { PutWord(if b then 1 else 0) }

  /** Encoder.ByteArray. */
  function PutBytes(s: seq<byte>): (o: Out)
    ensures o.ok && |o.bytes| == |s| + Pad(|s|)
  { Out(s + Zeros(Pad(|s|)), true) }

  /** Encoder.Bytes. */
  function PutOpaque(s: seq<byte>): Out { PutWord(Truncate32(|s|)).Then(PutBytes(s)) }

  /** The encoding that encodeReflect and writeUnion produce when no generated code is present. */
  function Enc(g: Schema, s: Shape, v: Value): Out
    decreases v, 0
  {
    match (s, v)
    case (Bool, VBool(b)) => PutBool(b)
    case (Word(k), VInt(i)) => PutWord(Truncate32(i))
    case (Hyper(_), VInt(i)) => Out(U64Bytes(i % TWO64), true)
    case (Opaque, VOpaque(x)) => PutOpaque(x)
    case (ByteArray(_), VOpaque(x)) => PutBytes(x)
    case (Array(_, e), VList(vs)) => EncEach(g, e, vs)
    case (Slice(e), VList(vs)) => PutWord(Truncate32(|vs|)).Then(EncEach(g, e, vs))
    case (Ptr(e), VNil) => PutBool(false)
    case (Ptr(e), VRef(x)) => PutBool(true).Then(Enc(g, e, x))
    case (Struct(n), VUnion(mode, arm)) =>
      if n !in g.defs || !g.defs[n].union then ERROR
      else
        var fs := g.defs[n].fields;
        PutWord(mode).Then(if mode + 1 >= |fs| then ERROR else Enc(g, fs[mode + 1], arm))
    case (Struct(n), VList(vs)) =>
      if n !in g.defs || g.defs[n].union then ERROR else EncFields(g, g.defs[n].fields, vs)
    case _ => ERROR
  }

  function EncEach(g: Schema, e: Shape, vs: seq<Value>): Out
    decreases vs, 0
  {
    if vs == [] then DONE else Enc(g, e, vs[0]).Then(EncEach(g, e, vs[1..]))
  }

  function EncFields(g: Schema, fs: seq<Shape>, vs: seq<Value>): Out
    decreases vs, 0
  {
    if fs == [] then DONE
    else if vs == [] then ERROR
    else Enc(g, fs[0], vs[0]).Then(EncFields(g, fs[1..], vs[1..]))
  }

  // ---------------------------------------------------------------- decoding

  datatype In<T> = Got(value: T, rest: seq<byte>) | Fail

  function GetWord(b: seq<byte>): (r: In<u32>)
    ensures r.Got? <==> |b| >= 4
    ensures r.Got? ==> r.rest == b[4..]
  {
    if |b| < 4 then Fail else Got(U32Of(b[..4]), b[4..])
  }

  /** Decoder.ByteArray: the padding is skipped whatever it holds. */
  function GetBytes(n: nat, b: seq<byte>): (r: In<seq<byte>>)
    ensures r.Got? ==> |r.value| == n && |r.rest| <= |b|
  {
    if |b| < n + Pad(n) then Fail else Got(b[..n], b[n + Pad(n)..])
  }

  /** The decoding that decodeReflect and readUnion perform on a zero target. */
  function Dec(g: Schema, s: Shape, b: seq<byte>): (r: In<Value>)
    requires ValidSchema(g)
    ensures r.Got? ==> |r.rest| <= |b|
    decreases |b|, Rank(g, s), s, 0
  {
    match s
    case Bool => (match GetWord(b) case Fail => Fail case Got(u, k) => Got(VBool(u != 0), k))
    case Word(kind) => (match GetWord(b) case Fail => Fail case Got(u, k) => Got(VInt(kind.Narrow(u)), k))
    case Hyper(signed) =>
      if |b| < 8 then Fail
      else
        var u := U64Of(b[..8]);
        Got(VInt(if signed && u >= TWO64 / 2 then u - TWO64 else u), b[8..])
    case Opaque =>
      (match GetWord(b)
       case Fail => Fail
       case Got(n, k) => match GetBytes(n, k) case Fail => Fail case Got(x, k') => Got(VOpaque(x), k'))
    case ByteArray(n) => (match GetBytes(n, b) case Fail => Fail case Got(x, k) => Got(VOpaque(x), k))
    case Array(n, e) => (match DecEach(g, e, n, b) case Fail => Fail case Got(vs, k) => Got(VList(vs), k))
    case Slice(e) =>
      (match GetWord(b)
       case Fail => Fail
       case Got(n, k) => match DecEach(g, e, n, k) case Fail => Fail case Got(vs, k') => Got(VList(vs), k'))
    case Ptr(e) =>
      (match GetWord(b)
       case Fail => Fail
       case Got(u, k) =>
         if u == 0 then Got(VNil, k)
         else match Dec(g, e, k) case Fail => Fail case Got(v, k') => Got(VRef(v), k'))
    case Struct(n) =>
      if n !in g.defs then Fail
      else if g.defs[n].union then
        (match GetWord(b)
         case Fail => Fail
         case Got(mode, k) =>
           if mode + 1 >= |g.defs[n].fields| then Fail
           else
             match Dec(g, g.defs[n].fields[mode + 1], k)
             case Fail => Fail
             case Got(v, k') => Got(VUnion(mode, v), k'))
      else (match DecFields(g, g.defs[n].fields, b) case Fail => Fail case Got(vs, k) => Got(VList(vs), k))
    case Other => Fail
  }

  function DecEach(g: Schema, e: Shape, n: nat, b: seq<byte>): (r: In<seq<Value>>)
    requires ValidSchema(g)
    ensures r.Got? ==> |r.rest| <= |b|
    decreases |b|, Rank(g, e), e, n
  {
    if n == 0 then Got([], b)
    else
      match Dec(g, e, b)
      case Fail => Fail
      case Got(v, k) =>
        match DecEach(g, e, n - 1, k) case Fail => Fail case Got(vs, k') => Got([v] + vs, k')
  }

  function DecFields(g: Schema, fs: seq<Shape>, b: seq<byte>): (r: In<seq<Value>>)
    requires ValidSchema(g)
    ensures r.Got? ==> |r.rest| <= |b|
    decreases |b|, RankAll(g, fs), fs, 0
  {
    if fs == [] then Got([], b)
    else
      match Dec(g, fs[0], b)
      case Fail => Fail
      case Got(v, k) =>
        match DecFields(g, fs[1..], k) case Fail => Fail case Got(vs, k') => Got([v] + vs, k')
  }
}

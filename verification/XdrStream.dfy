/** The codec as it works on streams: a Decoder that advances a reader and counts what it took
    (xdr/decoder.go), an Encoder that appends to a writer (xdr/encoder.go). */
module XdrStream {
  import opened Octets
  import opened XdrSchema
  import opened XdrLaws

  /** The outcome r of a call that left `rest` unread is the one the specification gives. */
  ghost predicate Matches<T>(want: In<T>, r: Option<T>, rest: seq<byte>) {
    match want
    case Got(v, k) => r == Some(v) && rest == k
    case Fail => r == None
  }

  ghost function Prepend(vs: seq<Value>, r: In<seq<Value>>): In<seq<Value>> {
    match r case Fail => Fail case Got(ws, k) => Got(vs + ws, k)
  }

  lemma PrependNothing(r: In<seq<Value>>)
    ensures Prepend([], r) == r
  {
    if r.Got? { assert [] + r.value == r.value; }
  }

  lemma PrependTwice(vs: seq<Value>, v: Value, r: In<seq<Value>>)
    ensures Prepend(vs, Prepend([v], r)) == Prepend(vs + [v], r)
  {
    if r.Got? { assert vs + ([v] + r.value) == vs + [v] + r.value; }
  }

  class Decoder {
    var rest: seq<byte>
    var count: nat

    constructor (b: seq<byte>)
      ensures rest == b && count == 0
    {
      rest, count := b, 0;
    }

    /** What has been counted and what is left always add up to the same total. */
    ghost function Total(): int
      reads this
    {
      count + |rest|
    }

    /** io.ReadFull over a CountReader: a short stream is used up and the read fails. */
    method ReadFull(n: nat) returns (r: Option<seq<byte>>)
      modifies this
      ensures Total() == old(Total())
      ensures |old(rest)| >= n ==> r == Some(old(rest)[..n]) && rest == old(rest)[n..]
      ensures |old(rest)| < n ==> r == None && rest == []
    {
      if |rest| < n {
        count, rest := count + |rest|, [];
        return None;
      }
      r := Some(rest[..n]);
      count, rest := count + n, rest[n..];
    }

    method Uint32() returns (r: Option<u32>)
      modifies this
      ensures Total() == old(Total()) && Matches(GetWord(old(rest)), r, rest)
    {
      var b := ReadFull(4);
      if b == None { return None; }
      r := Some(U32Of(b.value));
    }

    method ByteArray(n: nat) returns (r: Option<seq<byte>>)
      modifies this
      ensures Total() == old(Total()) && Matches(GetBytes(n, old(rest)), r, rest)
    {
      r := ReadFull(n);
      if r != None {
        var padding := ReadFull(Pad(n));
        if padding == None { r := None; }
      }
    }

    /** decodeReflect follows Dec on every type and every input. */
    method DecodeReflect(g: Schema, s: Shape) returns (r: Option<Value>)
      requires ValidSchema(g)
      modifies this
      ensures Total() == old(Total()) && Matches(Dec(g, s, old(rest)), r, rest)
      decreases |rest|, Rank(g, s), s, 1
    {
      match s
      case Bool =>
        var u := Uint32();
        r := if u == None then None else Some(VBool(u.value != 0));
      case Word(k) =>
        var u := Uint32();
        r := if u == None then None else Some(VInt(k.Narrow(u.value)));
      case Hyper(signed) =>
        var b := ReadFull(8);
        if b == None { return None; }
        var u := U64Of(b.value);
        r := Some(VInt(if signed && u >= TWO64 / 2 then u - TWO64 else u));
      case Opaque =>
        var n := Uint32();
        if n == None { return None; }
        var b := ByteArray(n.value);
        r := if b == None then None else Some(VOpaque(b.value));
      case ByteArray(n) =>
        var b := ByteArray(n);
        r := if b == None then None else Some(VOpaque(b.value));
      case Array(n, e) =>
        var vs := DecodeElements(g, e, n);
        r := if vs == None then None else Some(VList(vs.value));
      case Slice(e) =>
        var n := Uint32();
        if n == None { return None; }
        var vs := DecodeElements(g, e, n.value);
        r := if vs == None then None else Some(VList(vs.value));
      case Ptr(e) =>
        var u := Uint32();
        if u == None { return None; }
        if u.value == 0 { return Some(VNil); }
        var v := DecodeReflect(g, e);
        r := if v == None then None else Some(VRef(v.value));
      case Struct(n) =>
        if n !in g.defs { return None; }
        if g.defs[n].union {
          r := ReadUnion(g, n);
        } else {
          var vs := DecodeFields(g, g.defs[n].fields);
          r := if vs == None then None else Some(VList(vs.value));
        }
      case Other => r := None;
    }

    method ReadUnion(g: Schema, n: string) returns (r: Option<Value>)
      requires ValidSchema(g) && n in g.defs && g.defs[n].union
      modifies this
      ensures Total() == old(Total()) && Matches(Dec(g, Struct(n), old(rest)), r, rest)
      decreases |rest|, Rank(g, Struct(n)), Struct(n), 0
    {
      var mode := Uint32();
      if mode == None { return None; }
      if mode.value + 1 >= |g.defs[n].fields| { return None; }
      var v := DecodeReflect(g, g.defs[n].fields[mode.value + 1]);
      r := if v == None then None else Some(VUnion(mode.value, v.value));
    }

    method DecodeElements(g: Schema, e: Shape, n: nat) returns (r: Option<seq<Value>>)
      requires ValidSchema(g)
      modifies this
      ensures Total() == old(Total()) && Matches(DecEach(g, e, n, old(rest)), r, rest)
      decreases |rest|, Rank(g, e), e, 2
    {
      var vs := [];
      ghost var b := rest;
      PrependNothing(DecEach(g, e, n, b));
      for i := 0 to n
        invariant Total() == old(Total()) && |rest| <= |b|
        invariant DecEach(g, e, n, b) == Prepend(vs, DecEach(g, e, n - i, rest))
      {
        ghost var before := rest;
        var v := DecodeReflect(g, e);
        if v == None { return None; }
        assert DecEach(g, e, n - i, before) == Prepend([v.value], DecEach(g, e, n - i - 1, rest));
        PrependTwice(vs, v.value, DecEach(g, e, n - i - 1, rest));
        vs := vs + [v.value];
      }
      assert vs + [] == vs;
      r := Some(vs);
    }

    method DecodeFields(g: Schema, fs: seq<Shape>) returns (r: Option<seq<Value>>)
      requires ValidSchema(g)
      modifies this
      ensures Total() == old(Total()) && Matches(DecFields(g, fs, old(rest)), r, rest)
      decreases |rest|, RankAll(g, fs), fs, 0
    {
      var vs := [];
      ghost var b := rest;
      PrependNothing(DecFields(g, fs, b));
      assert fs[0..] == fs;
      for i := 0 to |fs|
        invariant Total() == old(Total()) && |rest| <= |b|
        invariant DecFields(g, fs, b) == Prepend(vs, DecFields(g, fs[i..], rest))
      {
        ghost var before := rest;
        var v := DecodeReflect(g, fs[i]);
        assert fs[i..][0] == fs[i] && fs[i..][1..] == fs[i + 1..];
        if v == None { return None; }
        assert DecFields(g, fs[i..], before) == Prepend([v.value], DecFields(g, fs[i + 1..], rest));
        PrependTwice(vs, v.value, DecFields(g, fs[i + 1..], rest));
        vs := vs + [v.value];
      }
      assert vs + [] == vs;
      r := Some(vs);
    }
  }

  class Encoder {
    var out: seq<byte>

    constructor ()
      ensures out == []
    {
      out := [];
    }

    method Uint32(n: u32)
      modifies this
      ensures out == old(out) + PutWord(n).bytes
    {
      out := out + U32Bytes(n);
    }

    method ByteArray(s: seq<byte>)
      modifies this
      ensures out == old(out) + PutBytes(s).bytes
    {
      out := out + s;
      if Pad(|s|) > 0 { out := out + Zeros(Pad(|s|)); }
      Assoc(old(out), s, Zeros(Pad(|s|)));
    }

    method Bytes(s: seq<byte>)
      modifies this
      ensures out == old(out) + PutOpaque(s).bytes
    {
      Uint32(Truncate32(|s|));
      ByteArray(s);
      Assoc(old(out), PutWord(Truncate32(|s|)).bytes, PutBytes(s).bytes);
    }

    /** encodeReflect appends what Enc says and fails when Enc says so. */
    method EncodeReflect(g: Schema, s: Shape, v: Value) returns (ok: bool)
      modifies this
      ensures out == old(out) + Enc(g, s, v).bytes && ok == Enc(g, s, v).ok
      decreases v, 1
    {
      match (s, v)
      case (Bool, VBool(b)) => Uint32(if b then 1 else 0); ok := true;
      case (Word(k), VInt(i)) => Uint32(Truncate32(i)); ok := true;
      case (Hyper(_), VInt(i)) => out := out + U64Bytes(i % TWO64); ok := true;
      case (Opaque, VOpaque(x)) => Bytes(x); ok := true;
      case (ByteArray(_), VOpaque(x)) => ByteArray(x); ok := true;
      case (Array(_, e), VList(vs)) => ok := EncodeElements(g, e, vs);
      case (Slice(e), VList(vs)) =>
        Uint32(Truncate32(|vs|));
        ok := EncodeElements(g, e, vs);
        Assoc(old(out), PutWord(Truncate32(|vs|)).bytes, EncEach(g, e, vs).bytes);
      case (Ptr(e), VNil) => Uint32(0); ok := true;
      case (Ptr(e), VRef(x)) =>
        Uint32(1);
        ok := EncodeReflect(g, e, x);
        Assoc(old(out), PutWord(1).bytes, Enc(g, e, x).bytes);
      case (Struct(n), VUnion(mode, arm)) => ok := WriteUnion(g, n, mode, arm);
      case (Struct(n), VList(vs)) =>
        if n !in g.defs || g.defs[n].union { return false; }
        ok := EncodeFields(g, g.defs[n].fields, vs);
      case _ => ok := false;
    }

    method WriteUnion(g: Schema, n: string, mode: u32, arm: Value) returns (ok: bool)
      modifies this
      ensures out == old(out) + Enc(g, Struct(n), VUnion(mode, arm)).bytes
      ensures ok == Enc(g, Struct(n), VUnion(mode, arm)).ok
      decreases VUnion(mode, arm), 0
    {
      if n !in g.defs || !g.defs[n].union { return false; }
      Uint32(mode);
      var fs := g.defs[n].fields;
      if mode + 1 >= |fs| { return false; }
      ok := EncodeReflect(g, fs[mode + 1], arm);
      Assoc(old(out), PutWord(mode).bytes, Enc(g, fs[mode + 1], arm).bytes);
    }

    method EncodeElements(g: Schema, e: Shape, vs: seq<Value>) returns (ok: bool)
      modifies this
      ensures out == old(out) + EncEach(g, e, vs).bytes && ok == EncEach(g, e, vs).ok
      decreases vs, 0
    {
      ghost var done := DONE;
      for i := 0 to |vs|
        invariant done.ok && out == old(out) + done.bytes
        invariant EncEach(g, e, vs) == done.Then(EncEach(g, e, vs[i..]))
      {
        ok := EncodeReflect(g, e, vs[i]);
        assert vs[i..][0] == vs[i] && vs[i..][1..] == vs[i + 1..];
        ghost var one := Enc(g, e, vs[i]);
        Assoc(old(out), done.bytes, one.bytes);
        Assoc(done.bytes, one.bytes, EncEach(g, e, vs[i + 1..]).bytes);
        if !ok { return false; }
        done := done.Then(one);
      }
      ok := true;
      assert done.bytes + [] == done.bytes;
    }

    method EncodeFields(g: Schema, fs: seq<Shape>, vs: seq<Value>) returns (ok: bool)
      modifies this
      ensures out == old(out) + EncFields(g, fs, vs).bytes && ok == EncFields(g, fs, vs).ok
      decreases vs, 0
    {
      ghost var done := DONE;
      for i := 0 to |fs|
        invariant done.ok && out == old(out) + done.bytes && i <= |vs|
        invariant EncFields(g, fs, vs) == done.Then(EncFields(g, fs[i..], vs[i..]))
      {
        if i == |vs| {
          assert done.bytes + [] == done.bytes;
          return false;
        }
        ok := EncodeReflect(g, fs[i], vs[i]);
        assert fs[i..][0] == fs[i] && fs[i..][1..] == fs[i + 1..] && vs[i..][0] == vs[i] && vs[i..][1..] == vs[i + 1..];
        ghost var one := Enc(g, fs[i], vs[i]);
        Assoc(old(out), done.bytes, one.bytes);
        Assoc(done.bytes, one.bytes, EncFields(g, fs[i + 1..], vs[i + 1..]).bytes);
        if !ok { return false; }
        done := done.Then(one);
      }
      ok := true;
      assert done.bytes + [] == done.bytes;
    }
  }
}

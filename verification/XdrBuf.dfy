/** Decoding from a bufpool.Buf, as COMPOUND and its operations do. Buf.Read answers an empty buffer
    with no bytes and no error, so io.ReadFull goes on asking for ever when bytes are missing. */
module XdrBuf {
  import opened Octets
  import opened XdrSchema
  import opened XdrLaws
  import opened Bufpool

  // ---------------------------------------------------------------- io.ReadFull

  /** The loop of io.ReadFull: what has been read, what the buffer still holds. */
  datatype Progress = Progress(got: seq<byte>, rest: seq<byte>)

  function Turn(p: Progress, n: nat): Progress {
    var want := n - |p.got|;
    if want <= 0 then p
    else
      var k := if want < |p.rest| then want else |p.rest|;
      Progress(p.got + p.rest[..k], p.rest[k..])
  }

  function Turns(p: Progress, n: nat, t: nat): Progress {
    if t == 0 then p else Turn(Turns(p, n, t - 1), n)
  }

  /** t turns of the loop on the object itself. */
  method ReadTurns(b: Buf, n: nat, t: nat) returns (got: seq<byte>)
    requires b.Valid()
    modifies b`r
    ensures b.Valid() && Progress(got, b.Content()) == Turns(Progress([], old(b.Content())), n, t)
  {
    got := [];
    for i := 0 to t
      invariant b.Valid() && Progress(got, b.Content()) == Turns(Progress([], old(b.Content())), n, i)
    {
      if |got| < n {
        ghost var before := b.Content();
        var p := b.Read(n - |got|);
        assert p == before[..|p|] && b.Content() == before[|p|..];
        got := got + p;
      }
    }
  }

  /** With enough bytes one turn is all it takes. */
  lemma {:induction false} EnoughBytes(content: seq<byte>, n: nat, t: nat)
    requires 0 < n <= |content| && t > 0
    ensures Turns(Progress([], content), n, t) == Progress(content[..n], content[n..])
  {
    if t > 1 {
      EnoughBytes(content, n, t - 1);
    } else {
      assert Turns(Progress([], content), n, 0) == Progress([], content);
      assert [] + content[..n] == content[..n];
    }
  }

  /** With too few the first turn takes them all, and no later turn changes anything. */
  lemma {:induction false} NoProgress(content: seq<byte>, n: nat, t: nat)
    requires n > |content| && t > 0
    ensures Turns(Progress([], content), n, t) == Progress(content, [])
  {
    if t > 1 {
      NoProgress(content, n, t - 1);
      assert content + [] == content;
    } else {
      assert Turns(Progress([], content), n, 0) == Progress([], content);
      assert [] + content == content && content[..|content|] == content;
    }
  }

  /** ReadFull over a Buf returns exactly if the buffer holds the bytes asked for. */
  lemma ReadFullStops(content: seq<byte>, n: nat)
    ensures (exists t :: |Turns(Progress([], content), n, t).got| >= n) <==> n <= |content|
  {
    if n <= |content| {
      if n > 0 { EnoughBytes(content, n, 1); }
      assert |Turns(Progress([], content), n, if n > 0 then 1 else 0).got| >= n;
    } else {
      forall t: nat
        ensures |Turns(Progress([], content), n, t).got| < n
      {
        if t > 0 { NoProgress(content, n, t); }
      }
    }
  }

  // ---------------------------------------------------------------- decoding

  /** What becomes of a decoding: a value, an error, or a ReadFull that never returns; with the turns
      of ReadFull that it takes. */
  datatype Fate<+T> = Done(value: T, rest: seq<byte>, turns: nat) | Refused(turns: nat) | Hangs {
    /** Not done, as a result of another type, c turns later. */
    function Lost<U>(c: nat): Fate<U>
      requires !Done?
    {
      if Refused? then Refused(c + turns) else Hangs
    }
  }

  function ReadB(n: nat, b: seq<byte>): (f: Fate<seq<byte>>)
    ensures f.Done? ==> |f.value| == n && |f.rest| == |b| - n
  {
    if n == 0 then Done([], b, 0)
    else if |b| < n then Hangs
    else Done(b[..n], b[n..], 1)
  }

  function WordB(b: seq<byte>): (f: Fate<u32>)
    ensures f.Done? ==> |f.rest| < |b|
  {
    var w := ReadB(4, b);
    if !w.Done? then w.Lost(0) else Done(U32Of(w.value), w.rest, w.turns)
  }

  /** Decoder.Bytes: one read for bytes and padding. */
  function OpaqueB(n: nat, b: seq<byte>): (f: Fate<seq<byte>>)
    ensures f.Done? ==> |f.rest| <= |b|
  {
    var w := ReadB(n + Pad(n), b);
    if !w.Done? then w.Lost(0) else Done(w.value[..n], w.rest, w.turns)
  }

  /** Decoder.ByteArray: two reads. */
  function ArrayB(n: nat, b: seq<byte>): (f: Fate<seq<byte>>)
    ensures f.Done? ==> |f.rest| <= |b|
  {
    var w := ReadB(n, b);
    if !w.Done? then w.Lost(0)
    else
      var p := ReadB(Pad(n), w.rest);
      if !p.Done? then p.Lost(w.turns) else Done(w.value, p.rest, w.turns + p.turns)
  }

  /** decodeReflect and readUnion over a Buf. */
  function DecB(g: Schema, s: Shape, b: seq<byte>): (f: Fate<Value>)
    requires ValidSchema(g)
    ensures f.Done? ==> |f.rest| <= |b|
    decreases |b|, Rank(g, s), s, 0
  {
    match s
    case Bool =>
      var w := WordB(b);
      if !w.Done? then w.Lost(0) else Done(VBool(w.value != 0), w.rest, w.turns)
    case Word(kind) =>
      var w := WordB(b);
      if !w.Done? then w.Lost(0) else Done(VInt(kind.Narrow(w.value)), w.rest, w.turns)
    case Hyper(signed) =>
      var w := ReadB(8, b);
      if !w.Done? then w.Lost(0)
      else
        var u := U64Of(w.value);
        Done(VInt(if signed && u >= TWO64 / 2 then u - TWO64 else u), w.rest, w.turns)
    case Opaque =>
      var w := WordB(b);
      if !w.Done? then w.Lost(0)
      else
        var x := OpaqueB(w.value, w.rest);
        if !x.Done? then x.Lost(w.turns) else Done(VOpaque(x.value), x.rest, w.turns + x.turns)
    case ByteArray(n) =>
      var x := ArrayB(n, b);
      if !x.Done? then x.Lost(0) else Done(VOpaque(x.value), x.rest, x.turns)
    case Array(n, e) =>
      var x := EachB(g, e, n, b);
      if !x.Done? then x.Lost(0) else Done(VList(x.value), x.rest, x.turns)
    case Slice(e) =>
      var w := WordB(b);
      if !w.Done? then w.Lost(0)
      else
        var x := EachB(g, e, w.value, w.rest);
        if !x.Done? then x.Lost(w.turns) else Done(VList(x.value), x.rest, w.turns + x.turns)
    case Ptr(e) =>
      var w := WordB(b);
      if !w.Done? then w.Lost(0)
      else if w.value == 0 then Done(VNil, w.rest, w.turns)
      else
        var x := DecB(g, e, w.rest);
        if !x.Done? then x.Lost(w.turns) else Done(VRef(x.value), x.rest, w.turns + x.turns)
    case Struct(n) =>
      if n !in g.defs then Refused(0)
      else if g.defs[n].union then
        var w := WordB(b);
        if !w.Done? then w.Lost(0)
        else if w.value + 1 >= |g.defs[n].fields| then Refused(w.turns)
        else
          var x := DecB(g, g.defs[n].fields[w.value + 1], w.rest);
          if !x.Done? then x.Lost(w.turns) else Done(VUnion(w.value, x.value), x.rest, w.turns + x.turns)
      else
        var x := FieldsB(g, g.defs[n].fields, b);
        if !x.Done? then x.Lost(0) else Done(VList(x.value), x.rest, x.turns)
    case Other => Refused(0)
  }

  function EachB(g: Schema, e: Shape, n: nat, b: seq<byte>): (f: Fate<seq<Value>>)
    requires ValidSchema(g)
    ensures f.Done? ==> |f.rest| <= |b|
    decreases |b|, Rank(g, e), e, n
  {
    if n == 0 then Done([], b, 0)
    else
      var x := DecB(g, e, b);
      if !x.Done? then x.Lost(0)
      else
        var y := EachB(g, e, n - 1, x.rest);
        if !y.Done? then y.Lost(x.turns) else Done([x.value] + y.value, y.rest, x.turns + y.turns)
  }

  function FieldsB(g: Schema, fs: seq<Shape>, b: seq<byte>): (f: Fate<seq<Value>>)
    requires ValidSchema(g)
    ensures f.Done? ==> |f.rest| <= |b|
    decreases |b|, RankAll(g, fs), fs, 0
  {
    if fs == [] then Done([], b, 0)
    else
      var x := DecB(g, fs[0], b);
      if !x.Done? then x.Lost(0)
      else
        var y := FieldsB(g, fs[1..], x.rest);
        if !y.Done? then y.Lost(x.turns) else Done([x.value] + y.value, y.rest, x.turns + y.turns)
  }

  // ---------------------------------------------------------------- against the reference decoding

  /** The same value and rest; an error or no return where the reference fails. */
  ghost predicate Agrees<T(!new)>(f: Fate<T>, r: In<T>) {
    match f
    case Done(v, k, _) => r == Got(v, k)
    case _ => r == Fail
  }

  lemma WordAgrees(b: seq<byte>)
    ensures Agrees(WordB(b), GetWord(b)) && !WordB(b).Refused?
  {
    hide FromBigEndian;
  }

  lemma OpaqueAgrees(n: nat, b: seq<byte>)
    ensures Agrees(OpaqueB(n, b), GetBytes(n, b)) && !OpaqueB(n, b).Refused?
  {
    if n + Pad(n) == 0 {
      assert b[..0] == [] && b[0..] == b;
    } else if |b| >= n + Pad(n) {
      assert b[..n + Pad(n)][..n] == b[..n];
    }
  }

  lemma ArrayAgrees(n: nat, b: seq<byte>)
    ensures Agrees(ArrayB(n, b), GetBytes(n, b)) && !ArrayB(n, b).Refused?
  {
    if |b| >= n {
      assert n == 0 ==> b[..n] == [] && b[n..] == b;
      assert |b| >= n + Pad(n) ==> b[n..][Pad(n)..] == b[n + Pad(n)..];
    }
  }

  /** For every type and input: decoding from a Buf gives the value and rest of the reference
      decoding, and where that one fails, refuses or never returns. */
  lemma {:induction false} DecAgrees(g: Schema, s: Shape, b: seq<byte>)
    requires ValidSchema(g)
    ensures Agrees(DecB(g, s, b), Dec(g, s, b))
    decreases |b|, Rank(g, s), s, 0
  {
    hide FromBigEndian, BigEndian, WordB, GetWord, OpaqueB, ArrayB, GetBytes, EachB, FieldsB, DecEach, DecFields;
    WordAgrees(b);
    match s
    case Opaque => if WordB(b).Done? { OpaqueAgrees(WordB(b).value, WordB(b).rest); }
    case ByteArray(n) => ArrayAgrees(n, b);
    case Array(n, e) => EachAgrees(g, e, n, b);
    case Slice(e) => if WordB(b).Done? { EachAgrees(g, e, WordB(b).value, WordB(b).rest); }
    case Ptr(e) => if WordB(b).Done? && WordB(b).value != 0 { DecAgrees(g, e, WordB(b).rest); }
    case Struct(n) =>
      if n in g.defs {
        if !g.defs[n].union {
          FieldsAgree(g, g.defs[n].fields, b);
        } else if WordB(b).Done? && WordB(b).value + 1 < |g.defs[n].fields| {
          DecAgrees(g, g.defs[n].fields[WordB(b).value + 1], WordB(b).rest);
        }
      }
    case _ =>
  }

  lemma {:induction false} EachAgrees(g: Schema, e: Shape, n: nat, b: seq<byte>)
    requires ValidSchema(g)
    ensures Agrees(EachB(g, e, n, b), DecEach(g, e, n, b))
    decreases |b|, Rank(g, e), e, n
  {
    hide DecB, Dec, ValidSchema;
    if n > 0 {
      DecAgrees(g, e, b);
      if DecB(g, e, b).Done? { EachAgrees(g, e, n - 1, DecB(g, e, b).rest); }
    }
  }

  lemma {:induction false} FieldsAgree(g: Schema, fs: seq<Shape>, b: seq<byte>)
    requires ValidSchema(g)
    ensures Agrees(FieldsB(g, fs, b), DecFields(g, fs, b))
    decreases |b|, RankAll(g, fs), fs, 0
  {
    hide DecB, Dec, ValidSchema;
    if fs != [] {
      DecAgrees(g, fs[0], b);
      if DecB(g, fs[0], b).Done? { FieldsAgree(g, fs[1..], DecB(g, fs[0], b).rest); }
    }
  }

  /** f on some bytes, f' on the same bytes and x after them. */
  ghost predicate Unmoved<T(!new)>(f: Fate<T>, f': Fate<T>, x: seq<byte>) {
    match f
    case Done(v, k, t) => f' == Done(v, k + x, t)
    case Refused(t) => f' == Refused(t)
    case Hangs => true
  }

  lemma ReadMore(n: nat, b: seq<byte>, x: seq<byte>)
    ensures Unmoved(ReadB(n, b), ReadB(n, b + x), x)
  {
    if 0 < n <= |b| { assert (b + x)[..n] == b[..n] && (b + x)[n..] == b[n..] + x; }
  }

  lemma WordMore(b: seq<byte>, x: seq<byte>)
    ensures Unmoved(WordB(b), WordB(b + x), x)
  {
    ReadMore(4, b, x);
  }

  lemma OpaqueMore(n: nat, b: seq<byte>, x: seq<byte>)
    ensures Unmoved(OpaqueB(n, b), OpaqueB(n, b + x), x)
  {
    ReadMore(n + Pad(n), b, x);
  }

  lemma ArrayMore(n: nat, b: seq<byte>, x: seq<byte>)
    ensures Unmoved(ArrayB(n, b), ArrayB(n, b + x), x)
  {
    ReadMore(n, b, x);
    if ReadB(n, b).Done? { ReadMore(Pad(n), ReadB(n, b).rest, x); }
  }

  /** What returns is not changed by more bytes: a value stays, with them left over, and an error stays. */
  lemma {:induction false} MoreBytes(g: Schema, s: Shape, b: seq<byte>, x: seq<byte>)
    requires ValidSchema(g)
    ensures Unmoved(DecB(g, s, b), DecB(g, s, b + x), x)
    decreases |b|, Rank(g, s), s, 0
  {
    hide FromBigEndian, BigEndian, WordB, OpaqueB, ArrayB, EachB, FieldsB;
    WordMore(b, x);
    match s
    case Hyper(_) => ReadMore(8, b, x);
    case Opaque => if WordB(b).Done? { OpaqueMore(WordB(b).value, WordB(b).rest, x); }
    case ByteArray(n) => ArrayMore(n, b, x);
    case Array(n, e) => EachMore(g, e, n, b, x);
    case Slice(e) => if WordB(b).Done? { EachMore(g, e, WordB(b).value, WordB(b).rest, x); }
    case Ptr(e) => if WordB(b).Done? && WordB(b).value != 0 { MoreBytes(g, e, WordB(b).rest, x); }
    case Struct(n) =>
      if n in g.defs {
        if !g.defs[n].union {
          FieldsMore(g, g.defs[n].fields, b, x);
        } else if WordB(b).Done? && WordB(b).value + 1 < |g.defs[n].fields| {
          MoreBytes(g, g.defs[n].fields[WordB(b).value + 1], WordB(b).rest, x);
        }
      }
    case _ =>
  }

  lemma {:induction false} EachMore(g: Schema, e: Shape, n: nat, b: seq<byte>, x: seq<byte>)
    requires ValidSchema(g)
    ensures Unmoved(EachB(g, e, n, b), EachB(g, e, n, b + x), x)
    decreases |b|, Rank(g, e), e, n
  {
    hide DecB, ValidSchema;
    if n > 0 {
      MoreBytes(g, e, b, x);
      if DecB(g, e, b).Done? { EachMore(g, e, n - 1, DecB(g, e, b).rest, x); }
    }
  }

  lemma {:induction false} FieldsMore(g: Schema, fs: seq<Shape>, b: seq<byte>, x: seq<byte>)
    requires ValidSchema(g)
    ensures Unmoved(FieldsB(g, fs, b), FieldsB(g, fs, b + x), x)
    decreases |b|, RankAll(g, fs), fs, 0
  {
    hide DecB, ValidSchema;
    if fs != [] {
      MoreBytes(g, fs[0], b, x);
      if DecB(g, fs[0], b).Done? { FieldsMore(g, fs[1..], DecB(g, fs[0], b).rest, x); }
    }
  }

  // ---------------------------------------------------------------- the decoder as it runs

  /** A call that was given a number of turns of ReadFull: it returned, or the turns are used up. */
  datatype Left<+T> = Here(value: T) | Refuses | Spent

  /** The call followed its fate as far as t turns go. */
  ghost predicate Capped<T(!new)>(f: Fate<T>, t: nat, r: Left<T>, rest: seq<byte>, left: nat) {
    match f
    case Done(v, k, c) => if c <= t then r == Here(v) && rest == k && left == t - c else r == Spent
    case Refused(c) => r == if c <= t then Refuses else Spent
    case Hangs => r == Spent
  }

  ghost function More(vs: seq<Value>, c: nat, f: Fate<seq<Value>>): Fate<seq<Value>> {
    match f
    case Done(ws, k, t) => Done(vs + ws, k, c + t)
    case Refused(t) => Refused(c + t)
    case Hangs => Hangs
  }

  lemma MoreNothing(f: Fate<seq<Value>>)
    ensures More([], 0, f) == f
  {
    if f.Done? { assert [] + f.value == f.value; }
  }

  lemma MoreTwice(vs: seq<Value>, c: nat, v: Value, d: nat, f: Fate<seq<Value>>)
    ensures More(vs, c, More([v], d, f)) == More(vs + [v], c + d, f)
  {
    if f.Done? { assert vs + ([v] + f.value) == vs + [v] + f.value; }
  }

  lemma NoElements(g: Schema, e: Shape, b: seq<byte>)
    requires ValidSchema(g)
    ensures EachB(g, e, 0, b) == Done([], b, 0)
  {
  }

  /** One element, and the others. */
  lemma EachStep(g: Schema, e: Shape, n: nat, b: seq<byte>)
    requires ValidSchema(g) && n > 0
    ensures match DecB(g, e, b)
            case Done(v, k, d) => EachB(g, e, n, b) == More([v], d, EachB(g, e, n - 1, k))
            case Refused(c) => EachB(g, e, n, b) == Refused(c)
            case Hangs => EachB(g, e, n, b) == Hangs
  {
    hide DecB, ValidSchema;
  }

  /** xdr.Decoder over a Buf, with the turns of io.ReadFull that may still be made. */
  class Decoder {
    const buf: Buf
    var left: nat

    constructor (b: Buf, turns: nat)
      ensures buf == b && left == turns
    {
      buf, left := b, turns;
    }

    method ReadFull(n: nat) returns (r: Left<seq<byte>>)
      requires buf.Valid()
      modifies this, buf`r
      ensures buf.Valid() && Capped(ReadB(n, old(buf.Content())), old(left), r, buf.Content(), left)
    {
      ghost var b := buf.Content();
      var got: seq<byte> := [];
      assert [] + b == b;
      while |got| < n
        invariant buf.Valid() && |got| <= n && got + buf.Content() == b
        invariant left <= old(left) && (n == 0 ==> left == old(left))
        invariant if got == [] && buf.Content() != [] then left == old(left) else |got| == n || buf.Content() == []
        invariant |got| == n > 0 ==> left == old(left) - 1
        decreases left
      {
        if left == 0 { return Spent; }
        left := left - 1;
        ghost var before, had := buf.Content(), got;
        var p := buf.Read(n - |got|);
        Assoc(had, p, buf.Content());
        got := got + p;
      }
      assert got == b[..n] && buf.Content() == b[n..];
      r := Here(got);
    }

    method Uint32() returns (r: Left<u32>)
      requires buf.Valid()
      modifies this, buf`r
      ensures buf.Valid() && Capped(WordB(old(buf.Content())), old(left), r, buf.Content(), left)
    {
      var w := ReadFull(4);
      r := if w.Here? then Here(U32Of(w.value)) else if w.Refuses? then Refuses else Spent;
    }

    method Bytes(n: nat) returns (r: Left<seq<byte>>)
      requires buf.Valid()
      modifies this, buf`r
      ensures buf.Valid() && Capped(OpaqueB(n, old(buf.Content())), old(left), r, buf.Content(), left)
    {
      var w := ReadFull(n + Pad(n));
      r := if w.Here? then Here(w.value[..n]) else if w.Refuses? then Refuses else Spent;
    }

    method ByteArray(n: nat) returns (r: Left<seq<byte>>)
      requires buf.Valid()
      modifies this, buf`r
      ensures buf.Valid() && Capped(ArrayB(n, old(buf.Content())), old(left), r, buf.Content(), left)
    {
      r := ReadFull(n);
      if r.Here? {
        var padding := ReadFull(Pad(n));
        if !padding.Here? { r := if padding.Refuses? then Refuses else Spent; }
      }
    }

    /** decodeReflect over a Buf: on every type, input and number of turns it follows its fate. */
    method DecodeReflect(g: Schema, s: Shape) returns (r: Left<Value>)
      requires ValidSchema(g) && buf.Valid()
      modifies this, buf`r
      ensures buf.Valid() && Capped(DecB(g, s, old(buf.Content())), old(left), r, buf.Content(), left)
      decreases |buf.Content()|, Rank(g, s), s, 1
    {
      hide FromBigEndian, WordB, OpaqueB, ArrayB, ReadB, EachB, FieldsB;
      match s
      case Bool =>
        var u := Uint32();
        r := if u.Here? then Here(VBool(u.value != 0)) else if u.Refuses? then Refuses else Spent;
      case Word(k) =>
        var u := Uint32();
        r := if u.Here? then Here(VInt(k.Narrow(u.value))) else if u.Refuses? then Refuses else Spent;
      case Hyper(signed) => r := ReadHyper(g, signed);
      case Opaque => r := ReadOpaque(g);
      case ByteArray(n) =>
        var x := ByteArray(n);
        r := if x.Here? then Here(VOpaque(x.value)) else if x.Refuses? then Refuses else Spent;
      case Array(n, e) =>
        var vs := DecodeElements(g, e, n);
        r := if vs.Here? then Here(VList(vs.value)) else if vs.Refuses? then Refuses else Spent;
      case Slice(e) =>
        var n := Uint32();
        if !n.Here? { return if n.Refuses? then Refuses else Spent; }
        var vs := DecodeElements(g, e, n.value);
        r := if vs.Here? then Here(VList(vs.value)) else if vs.Refuses? then Refuses else Spent;
      case Ptr(e) =>
        var u := Uint32();
        if !u.Here? { return if u.Refuses? then Refuses else Spent; }
        if u.value == 0 { return Here(VNil); }
        var v := DecodeReflect(g, e);
        r := if v.Here? then Here(VRef(v.value)) else v;
      case Struct(n) =>
        if n !in g.defs { return Refuses; }
        if g.defs[n].union {
          r := ReadUnion(g, n);
        } else {
          var vs := DecodeFields(g, g.defs[n].fields);
          r := if vs.Here? then Here(VList(vs.value)) else if vs.Refuses? then Refuses else Spent;
        }
      case Other => r := Refuses;
    }

    method ReadHyper(g: Schema, signed: bool) returns (r: Left<Value>)
      requires ValidSchema(g) && buf.Valid()
      modifies this, buf`r
      ensures buf.Valid() && Capped(DecB(g, Hyper(signed), old(buf.Content())), old(left), r, buf.Content(), left)
    {
      hide FromBigEndian;
      var w := ReadFull(8);
      if !w.Here? { return if w.Refuses? then Refuses else Spent; }
      var u := U64Of(w.value);
      r := Here(VInt(if signed && u >= TWO64 / 2 then u - TWO64 else u));
    }

    method ReadOpaque(g: Schema) returns (r: Left<Value>)
      requires ValidSchema(g) && buf.Valid()
      modifies this, buf`r
      ensures buf.Valid() && Capped(DecB(g, Opaque, old(buf.Content())), old(left), r, buf.Content(), left)
    {
      hide FromBigEndian, WordB, OpaqueB;
      var n := Uint32();
      if !n.Here? { return if n.Refuses? then Refuses else Spent; }
      var x := Bytes(n.value);
      r := if x.Here? then Here(VOpaque(x.value)) else if x.Refuses? then Refuses else Spent;
    }

    method ReadUnion(g: Schema, n: string) returns (r: Left<Value>)
      requires ValidSchema(g) && buf.Valid() && n in g.defs && g.defs[n].union
      modifies this, buf`r
      ensures buf.Valid() && Capped(DecB(g, Struct(n), old(buf.Content())), old(left), r, buf.Content(), left)
      decreases |buf.Content()|, Rank(g, Struct(n)), Struct(n), 0
    {
      hide FromBigEndian, WordB;
      var mode := Uint32();
      if !mode.Here? { return if mode.Refuses? then Refuses else Spent; }
      if mode.value + 1 >= |g.defs[n].fields| { return Refuses; }
      var v := DecodeReflect(g, g.defs[n].fields[mode.value + 1]);
      r := if v.Here? then Here(VUnion(mode.value, v.value)) else v;
    }

    method DecodeElements(g: Schema, e: Shape, n: nat) returns (r: Left<seq<Value>>)
      requires ValidSchema(g) && buf.Valid()
      modifies this, buf`r
      ensures buf.Valid() && Capped(EachB(g, e, n, old(buf.Content())), old(left), r, buf.Content(), left)
      decreases |buf.Content()|, Rank(g, e), e, 2
    {
      hide DecB, ValidSchema, EachB, Rank;
      var vs := [];
      ghost var b := buf.Content();
      ghost var c := 0;
      MoreNothing(EachB(g, e, n, b));
      for i := 0 to n
        invariant buf.Valid() && |buf.Content()| <= |b| && left == old(left) - c
        invariant EachB(g, e, n, b) == More(vs, c, EachB(g, e, n - i, buf.Content()))
      {
        ghost var before := buf.Content();
        EachStep(g, e, n - i, before);
        var v := DecodeReflect(g, e);
        if !v.Here? { return if v.Refuses? then Refuses else Spent; }
        ghost var d := DecB(g, e, before).turns;
        MoreTwice(vs, c, v.value, d, EachB(g, e, n - i - 1, buf.Content()));
        vs, c := vs + [v.value], c + d;
      }
      NoElements(g, e, buf.Content());
      assert vs + [] == vs;
      r := Here(vs);
    }

    method DecodeFields(g: Schema, fs: seq<Shape>) returns (r: Left<seq<Value>>)
      requires ValidSchema(g) && buf.Valid()
      modifies this, buf`r
      ensures buf.Valid() && Capped(FieldsB(g, fs, old(buf.Content())), old(left), r, buf.Content(), left)
      decreases |buf.Content()|, RankAll(g, fs), fs, 0
    {
      hide DecB, ValidSchema;
      var vs := [];
      ghost var b := buf.Content();
      ghost var c := 0;
      MoreNothing(FieldsB(g, fs, b));
      assert fs[0..] == fs;
      for i := 0 to |fs|
        invariant buf.Valid() && |buf.Content()| <= |b| && left == old(left) - c
        invariant FieldsB(g, fs, b) == More(vs, c, FieldsB(g, fs[i..], buf.Content()))
      {
        ghost var before := buf.Content();
        assert fs[i..][0] == fs[i] && fs[i..][1..] == fs[i + 1..];
        var v := DecodeReflect(g, fs[i]);
        if !v.Here? { return if v.Refuses? then Refuses else Spent; }
        ghost var d := DecB(g, fs[i], before).turns;
        assert FieldsB(g, fs[i..], before) == More([v.value], d, FieldsB(g, fs[i + 1..], buf.Content()));
        MoreTwice(vs, c, v.value, d, FieldsB(g, fs[i + 1..], buf.Content()));
        vs, c := vs + [v.value], c + d;
      }
      assert vs + [] == vs;
      r := Here(vs);
    }
  }

  /** The outcome of t turns, whatever the buffer then holds. */
  function AfterTurns(g: Schema, s: Shape, b: seq<byte>, t: nat): Left<Value>
    requires ValidSchema(g)
  {
    match DecB(g, s, b)
    case Done(v, _, c) => if c <= t then Here(v) else Spent
    case Refused(c) => if c <= t then Refuses else Spent
    case Hangs => Spent
  }

  /** Decoding from a Buf returns a value, after some number of turns, exactly if the reference decoding
      does; and it returns at all exactly if its fate is not to hang. */
  lemma ReturnsExactlyIf(g: Schema, s: Shape, b: seq<byte>)
    requires ValidSchema(g)
    ensures (exists t :: AfterTurns(g, s, b, t) != Spent) <==> !DecB(g, s, b).Hangs?
    ensures (exists t :: AfterTurns(g, s, b, t).Here?) <==> Dec(g, s, b).Got?
  {
    DecAgrees(g, s, b);
    hide DecB, Dec, ValidSchema;
    if !DecB(g, s, b).Hangs? { assert AfterTurns(g, s, b, DecB(g, s, b).turns) != Spent; }
  }

  // ---------------------------------------------------------------- encodings that are cut

  /** A whole encoding, with anything after it, is decoded. */
  lemma WholeIsDone(g: Schema, s: Shape, v: Value, rest: seq<byte>)
    requires ValidSchema(g) && Fits(g, s, v)
    ensures var f := DecB(g, s, Enc(g, s, v).bytes + rest); f.Done? && f.value == v && f.rest == rest
  {
    RoundTrip(g, s, v, rest);
    DecAgrees(g, s, Enc(g, s, v).bytes + rest);
  }

  /** For every type and value: of the encoding and whatever follows it, the first k bytes make the
      decoder hang exactly if they do not hold the whole encoding. */
  lemma CutHangs(g: Schema, s: Shape, v: Value, rest: seq<byte>, k: nat)
    requires ValidSchema(g) && Fits(g, s, v) && k <= |Enc(g, s, v).bytes + rest|
    ensures DecB(g, s, (Enc(g, s, v).bytes + rest)[..k]).Hangs? <==> k < |Enc(g, s, v).bytes|
    ensures k >= |Enc(g, s, v).bytes| ==>
              var f := DecB(g, s, (Enc(g, s, v).bytes + rest)[..k]);
              f.Done? && f.value == v && f.rest == rest[..k - |Enc(g, s, v).bytes|]
  {
    hide DecB, Dec, Enc, Fits, ValidSchema;
    var e := Enc(g, s, v).bytes;
    var w := e + rest;
    if k >= |e| {
      assert w[..k] == e + rest[..k - |e|];
      WholeIsDone(g, s, v, rest[..k - |e|]);
    } else {
      assert w[..k] + w[k..] == w;
      WholeIsDone(g, s, v, rest);
      MoreBytes(g, s, w[..k], w[k..]);
    }
  }

  /** So it then never returns, however many turns ReadFull makes, and otherwise does. */
  lemma CutNeverReturns(g: Schema, s: Shape, v: Value, rest: seq<byte>, k: nat)
    requires ValidSchema(g) && Fits(g, s, v) && k <= |Enc(g, s, v).bytes + rest|
    ensures (forall t :: AfterTurns(g, s, (Enc(g, s, v).bytes + rest)[..k], t) == Spent) <==> k < |Enc(g, s, v).bytes|
  {
    hide DecB, Dec, Enc, Fits, ValidSchema;
    CutHangs(g, s, v, rest, k);
    var b := (Enc(g, s, v).bytes + rest)[..k];
    if k >= |Enc(g, s, v).bytes| { assert AfterTurns(g, s, b, DecB(g, s, b).turns) != Spent; }
  }

  const ONE_ARM := Schema(map["U" := Def(true, [Word(KUint32), Bool])], map["U" := 0])

  lemma OneArmValid()
    ensures ValidSchema(ONE_ARM)
  {
    RankZero(ONE_ARM, [Word(KUint32), Bool]);
  }

  /** Not everything that hangs is a cut encoding: a union with one arm hangs on the first byte 5 of its
      mode, and refuses whatever has three more bytes, because no such mode has an arm. */
  lemma HangsBeforeItRefuses(rest: seq<byte>)
    requires |rest| >= 3
    ensures ValidSchema(ONE_ARM)
    ensures DecB(ONE_ARM, Struct("U"), [5]).Hangs? && DecB(ONE_ARM, Struct("U"), [5] + rest).Refused?
  {
    OneArmValid();
    hide ValidSchema;
    var b := [5] + rest;
    var w := b[..4];
    assert w == [5, rest[0], rest[1], rest[2]];
    assert w[..3] == [5, rest[0], rest[1]] && w[..3][..2] == [5, rest[0]] && [5, rest[0]][..1] == [5];
    assert FromBigEndian([5]) >= 5;
    assert FromBigEndian([5, rest[0]]) >= 5 && FromBigEndian([5, rest[0], rest[1]]) >= 5;
    assert FromBigEndian(w) >= 5;
  }
}

/** The bytes themselves (sections 3 and 4 of RFC 4506): byte order, padding, flags and the order of
    the parts, stated on the bytes and not by how they are computed. */
module XdrWire {
  import opened Octets
  import opened XdrSchema
  import opened XdrLaws

  /** b read as a big-endian number, byte by byte. */
  predicate Word4(b: seq<byte>, n: int) {
    && |b| == 4
    && var b0: int, b1: int, b2: int, b3: int := b[0], b[1], b[2], b[3];
       b0 * 0x100_0000 + b1 * 0x1_0000 + b2 * 0x100 + b3 == n
  }

  predicate Word8(b: seq<byte>, n: int) {
    && |b| == 8
    && var high: int, low: int := n / 0x1_0000_0000, n % 0x1_0000_0000;
       Word4(b[..4], high) && Word4(b[4..], low)
  }

  /** Four bytes are one number. */
  lemma WordOf(b: seq<byte>)
    requires |b| == 4
    ensures Word4(b, U32Of(b))
  {
    var c := b[..3];
    assert c[..2] == b[..2] && b[..2][..1] == b[..1] && b[..1][..0] == [];
    assert FromBigEndian(b[..1]) == b[0];
    assert FromBigEndian(b[..2]) == 0x100 * FromBigEndian(b[..1]) + b[1];
    assert FromBigEndian(c) == 0x100 * FromBigEndian(b[..2]) + b[2];
  }

  lemma HyperOf(b: seq<byte>)
    requires |b| == 8
    ensures Word8(b, U64Of(b))
  {
    WordSizes();
    WordOf(b[..4]);
    WordOf(b[4..]);
    assert b[..7][..6] == b[..6] && b[..6][..5] == b[..5] && b[..5][..4] == b[..4];
    assert FromBigEndian(b[..5]) == 0x100 * FromBigEndian(b[..4]) + b[4];
    assert FromBigEndian(b[..6]) == 0x100 * FromBigEndian(b[..5]) + b[5];
    assert FromBigEndian(b[..7]) == 0x100 * FromBigEndian(b[..6]) + b[6];
    assert FromBigEndian(b) == 0x1_0000_0000 * U32Of(b[..4]) + U32Of(b[4..]);
  }

  lemma WordBytes(n: u32)
    ensures Word4(U32Bytes(n), n)
  {
    hide BigEndian, FromBigEndian;
    U32RoundTrip(n);
    WordOf(U32Bytes(n));
  }

  /** An unsigned word goes out most significant byte first, and a negative one in two's complement. */
  lemma WordOnWire(g: Schema, k: Kind, i: int)
    requires k.Fits(i)
    ensures Word4(Enc(g, Word(k), VInt(i)).bytes, if i < 0 then i + 0x1_0000_0000 else i)
  {
    hide BigEndian, Word4;
    WordBytes(Truncate32(i));
    assert Truncate32(i) == if i < 0 then i + 0x1_0000_0000 else i;
  }

  lemma HyperOnWire(g: Schema, signed: bool, i: int)
    requires Fits(g, Hyper(signed), VInt(i))
    ensures Word8(Enc(g, Hyper(signed), VInt(i)).bytes, if i < 0 then i + TWO64 else i)
  {
    hide BigEndian, FromBigEndian, Word8;
    var n := i % TWO64;
    assert n == if i < 0 then i + TWO64 else i;
    U64RoundTrip(n);
    HyperOf(U64Bytes(n));
  }

  /** And comes in so: what the decoder makes of any four, or eight, bytes. */
  lemma WordFromWire(g: Schema, b: seq<byte>)
    requires ValidSchema(g) && |b| >= 4
    ensures var r := Dec(g, Word(KUint32), b);
            r.Got? && r.value.VInt? && Word4(b[..4], r.value.i) && r.rest == b[4..]
  {
    hide FromBigEndian, BigEndian, Word4, ValidSchema, RankAll;
    WordOf(b[..4]);
  }

  lemma HyperFromWire(g: Schema, b: seq<byte>)
    requires ValidSchema(g) && |b| >= 8
    ensures var r := Dec(g, Hyper(false), b);
            r.Got? && r.value.VInt? && Word8(b[..8], r.value.i) && r.rest == b[8..]
  {
    hide FromBigEndian, Word8;
    HyperOf(b[..8]);
  }

  /** Eight bytes as binary.BigEndian puts them. */
  lemma HyperBytes(n: u64)
    ensures Word8(U64Bytes(n), n)
  {
    hide BigEndian, FromBigEndian, Word8;
    U64RoundTrip(n);
    HyperOf(U64Bytes(n));
  }

  const NO: seq<byte> := [0, 0, 0, 0]
  const YES: seq<byte> := [0, 0, 0, 1]

  lemma FlagBytes()
    ensures U32Bytes(0) == NO && U32Bytes(1) == YES
  {
    WordBytes(0);
    WordBytes(1);
    hide BigEndian;
  }

  /** Booleans and the flags of optional data are the words 0 and 1. */
  lemma FlagsOnWire(g: Schema, e: Shape, v: Value)
    ensures Enc(g, Bool, VBool(false)).bytes == NO && Enc(g, Bool, VBool(true)).bytes == YES
    ensures Enc(g, Ptr(e), VNil).bytes == NO && Enc(g, Ptr(e), VRef(v)).bytes == YES + Enc(g, e, v).bytes
  {
    FlagBytes();
    hide BigEndian;
  }

  lemma {:induction false} AllZero(n: nat)
    ensures forall i :: 0 <= i < n ==> Zeros(n)[i] == 0
  {
    if n > 0 { AllZero(n - 1); }
  }

  /** Opaque data: its length as a word, the bytes, and zeros up to a multiple of four. */
  lemma OpaqueOnWire(g: Schema, s: seq<byte>)
    requires |s| < TWO32
    ensures var b := Enc(g, Opaque, VOpaque(s)).bytes;
            && |b| >= 4 + |s| && |b| % 4 == 0 && |b| < 4 + |s| + 4
            && Word4(b[..4], |s|) && b[4..4 + |s|] == s
            && forall i :: 4 + |s| <= i < |b| ==> b[i] == 0
  {
    hide BigEndian, Word4;
    WordBytes(|s|);
    AllZero(Pad(|s|));
    var b := Enc(g, Opaque, VOpaque(s)).bytes;
    assert b == U32Bytes(|s|) + (s + Zeros(Pad(|s|)));
    assert b[..4] == U32Bytes(|s|);
  }

  // ---------------------------------------------------------------- the order of the parts

  /** A struct's fields follow each other in the order in which they are declared. */
  lemma {:induction false} FieldsInOrder(g: Schema, fs: seq<Shape>, vs: seq<Value>, i: nat)
    requires |fs| == |vs| && i < |fs| && forall k :: 0 <= k < |fs| ==> Fits(g, fs[k], vs[k])
    requires ValidSchema(g)
    ensures EncFields(g, fs, vs).ok
    ensures EncFields(g, fs, vs).bytes
         == EncFields(g, fs[..i], vs[..i]).bytes + Enc(g, fs[i], vs[i]).bytes
            + EncFields(g, fs[i + 1..], vs[i + 1..]).bytes
    decreases |fs|
  {
    hide Enc, Fits, ValidSchema;
    RoundTripFields(g, fs, vs, []);
    RoundTrip(g, fs[0], vs[0], []);
    var head := Enc(g, fs[0], vs[0]).bytes;
    if i == 0 {
      assert fs[..0] == [] && vs[..0] == [];
      assert [] + head == head;
    } else {
      FieldsInOrder(g, fs[1..], vs[1..], i - 1);
      assert fs[..i][1..] == fs[1..][..i - 1] && vs[..i][1..] == vs[1..][..i - 1];
      assert fs[1..][i..] == fs[i + 1..] && vs[1..][i..] == vs[i + 1..];
      var x, y, z := EncFields(g, fs[1..][..i - 1], vs[1..][..i - 1]).bytes, Enc(g, fs[i], vs[i]).bytes,
                     EncFields(g, fs[i + 1..], vs[i + 1..]).bytes;
      FourParts(head, x, y, z);
    }
  }

  lemma FourParts(a: seq<byte>, b: seq<byte>, c: seq<byte>, d: seq<byte>)
    ensures a + (b + c + d) == a + b + c + d
  {
  }

  /** So do the elements of a list, after their number. */
  lemma {:induction false} ElementsInOrder(g: Schema, e: Shape, vs: seq<Value>, i: nat)
    requires ValidSchema(g) && i < |vs| && forall k :: 0 <= k < |vs| ==> Fits(g, e, vs[k])
    ensures EncEach(g, e, vs).bytes
         == EncEach(g, e, vs[..i]).bytes + Enc(g, e, vs[i]).bytes + EncEach(g, e, vs[i + 1..]).bytes
    decreases |vs|
  {
    hide Enc, Fits, ValidSchema;
    RoundTrip(g, e, vs[0], []);
    var head := Enc(g, e, vs[0]).bytes;
    if i == 0 {
      assert vs[..0] == [] && [] + head == head;
    } else {
      ElementsInOrder(g, e, vs[1..], i - 1);
      assert vs[..i][1..] == vs[1..][..i - 1] && vs[1..][i..] == vs[i + 1..];
      var x, y, z := EncEach(g, e, vs[1..][..i - 1]).bytes, Enc(g, e, vs[i]).bytes, EncEach(g, e, vs[i + 1..]).bytes;
      FourParts(head, x, y, z);
    }
  }

  lemma SliceOnWire(g: Schema, e: Shape, vs: seq<Value>)
    requires |vs| < TWO32
    ensures var b := Enc(g, Slice(e), VList(vs)).bytes;
            |b| >= 4 && Word4(b[..4], |vs|) && b[4..] == EncEach(g, e, vs).bytes
  {
    hide BigEndian, Word4, EncEach;
    WordBytes(|vs|);
    assert (U32Bytes(|vs|) + EncEach(g, e, vs).bytes)[..4] == U32Bytes(|vs|);
  }

  /** A union is its mode and the arm that the mode selects. */
  lemma UnionOnWire(g: Schema, n: string, mode: u32, arm: Value)
    requires n in g.defs && g.defs[n].union && mode + 1 < |g.defs[n].fields|
    ensures var b := Enc(g, Struct(n), VUnion(mode, arm)).bytes;
            |b| >= 4 && Word4(b[..4], mode) && b[4..] == Enc(g, g.defs[n].fields[mode + 1], arm).bytes
  {
    hide BigEndian, Word4;
    WordBytes(mode);
    var body := Enc(g, g.defs[n].fields[mode + 1], arm).bytes;
    assert (U32Bytes(mode) + body)[..4] == U32Bytes(mode);
  }
}

/** Creds.Decode (auth/authenticate.go): a decoder written by hand in place of the reflective one. */
module CredsCodec {
  import opened Octets
  import opened XdrSchema
  import opened XdrLaws
  import opened XdrStream
  import C = Creds

  const U32 := Word(KUint32)
  const FIELDS := [U32, Opaque, U32, U32, Slice(U32)]
  const AUTH := Schema(map["Creds" := Def(false, FIELDS)], map["Creds" := 0])

  lemma AuthValid()
    ensures ValidSchema(AUTH)
  {
    RankZero(AUTH, FIELDS);
  }

  function AsValue(c: C.Creds): Value {
    VList([VInt(c.expiration), VOpaque(c.hostname), VInt(c.uid), VInt(c.gid), Numbers(c.groups)])
  }

  /** The fields from i on, after `vs`. */
  ghost function Ahead(vs: seq<Value>, i: nat, b: seq<byte>): In<seq<Value>>
    requires ValidSchema(AUTH) && i <= |FIELDS|
  {
    Prepend(vs, DecFields(AUTH, FIELDS[i..], b))
  }

  lemma FieldStep(vs: seq<Value>, i: nat, b: seq<byte>)
    requires ValidSchema(AUTH) && i < |FIELDS|
    ensures match Dec(AUTH, FIELDS[i], b)
            case Fail => Ahead(vs, i, b) == Fail
            case Got(v, k) => Ahead(vs, i, b) == Ahead(vs + [v], i + 1, k)
  {
    hide Dec, ValidSchema;
    assert FIELDS[i..][0] == FIELDS[i] && FIELDS[i..][1..] == FIELDS[i + 1..];
    match Dec(AUTH, FIELDS[i], b)
    case Fail =>
    case Got(v, k) => PrependTwice(vs, v, DecFields(AUTH, FIELDS[i + 1..], k));
  }

  lemma Whole(b: seq<byte>)
    requires ValidSchema(AUTH)
    ensures Dec(AUTH, Struct("Creds"), b)
         == match Ahead([], 0, b) case Fail => Fail case Got(vs, k) => Got(VList(vs), k)
  {
    assert FIELDS[0..] == FIELDS;
    PrependNothing(DecFields(AUTH, FIELDS, b));
  }

  lemma AtEnd(vs: seq<Value>, b: seq<byte>)
    requires ValidSchema(AUTH)
    ensures Ahead(vs, 5, b) == Got(vs, b)
  {
    assert FIELDS[5..] == [] && vs + [] == vs;
  }

  lemma WordField(b: seq<byte>)
    requires ValidSchema(AUTH)
    ensures Dec(AUTH, U32, b) == match GetWord(b) case Fail => Fail case Got(u, k) => Got(VInt(u), k)
  {
    hide FromBigEndian, ValidSchema;
  }

  lemma SliceField(b: seq<byte>)
    requires ValidSchema(AUTH)
    ensures Dec(AUTH, Slice(U32), b)
         == match GetWord(b)
            case Fail => Fail
            case Got(n, k) => match DecEach(AUTH, U32, n, k) case Fail => Fail case Got(vs, k') => Got(VList(vs), k')
  {
  }

  /** The loop over the groups. */
  method Groups(d: Decoder, n: nat) returns (groups: Option<seq<u32>>)
    modifies d
    ensures ValidSchema(AUTH)
    ensures Matches(DecEach(AUTH, U32, n, old(d.rest)),
                    if groups.Some? then Some(Numbers(groups.value).vs) else None, d.rest)
  {
    AuthValid();
    hide ValidSchema, Dec, GetWord;
    var gs: seq<u32> := [];
    ghost var b := d.rest;
    PrependNothing(DecEach(AUTH, U32, n, b));
    assert Numbers(gs).vs == [];
    for i := 0 to n
      invariant DecEach(AUTH, U32, n, b) == Prepend(Numbers(gs).vs, DecEach(AUTH, U32, n - i, d.rest))
    {
      ghost var before := d.rest;
      WordField(before);
      var gid := d.Uint32();
      if gid == None { return None; }
      assert DecEach(AUTH, U32, n - i, before) == Prepend([VInt(gid.value)], DecEach(AUTH, U32, n - i - 1, d.rest));
      PrependTwice(Numbers(gs).vs, VInt(gid.value), DecEach(AUTH, U32, n - i - 1, d.rest));
      assert Numbers(gs + [gid.value]).vs == Numbers(gs).vs + [VInt(gid.value)];
      gs := gs + [gid.value];
    }
    assert Numbers(gs).vs + [] == Numbers(gs).vs;
    groups := Some(gs);
  }

  /** Decoder.String. */
  method ReadString(d: Decoder) returns (s: Option<seq<byte>>)
    modifies d
    ensures ValidSchema(AUTH)
    ensures Matches(Dec(AUTH, Opaque, old(d.rest)), if s.Some? then Some(VOpaque(s.value)) else None, d.rest)
  {
    AuthValid();
    hide ValidSchema, GetWord, GetBytes;
    var n := d.Uint32();
    if n == None { return None; }
    s := d.ByteArray(n.value);
  }

  /** The hand-written decoder accepts what the reflective one accepts, reads as far and gets the
      same credentials. */
  method Decode(d: Decoder) returns (r: Option<C.Creds>)
    modifies d
    ensures ValidSchema(AUTH)
    ensures Matches(Dec(AUTH, Struct("Creds"), old(d.rest)), if r.Some? then Some(AsValue(r.value)) else None, d.rest)
  {
    AuthValid();
    hide ValidSchema, Dec, GetWord, GetBytes, DecEach, Ahead;
    Whole(d.rest);
    FieldStep([], 0, d.rest);
    WordField(d.rest);
    var expiration := d.Uint32();
    if expiration == None { return None; }
    ghost var vs := [] + [VInt(expiration.value)];

    FieldStep(vs, 1, d.rest);
    var hostname := ReadString(d);
    if hostname == None { return None; }
    vs := vs + [VOpaque(hostname.value)];

    FieldStep(vs, 2, d.rest);
    WordField(d.rest);
    var uid := d.Uint32();
    if uid == None { return None; }
    vs := vs + [VInt(uid.value)];

    FieldStep(vs, 3, d.rest);
    WordField(d.rest);
    var gid := d.Uint32();
    if gid == None { return None; }
    vs := vs + [VInt(gid.value)];

    FieldStep(vs, 4, d.rest);
    SliceField(d.rest);
    var length := d.Uint32();
    if length == None { return None; }
    var groups := Groups(d, length.value);
    if groups == None { return None; }
    AtEnd(vs + [Numbers(groups.value)], d.rest);
    r := Some(C.Creds(expiration.value, hostname.value, uid.value, gid.value, groups.value));
    assert vs + [Numbers(groups.value)] == AsValue(r.value).vs;
  }

  /** The credentials on the wire, as appendix A of RFC 5531 orders them: stamp, machine name, uid, gid, and
      the other groups. */
  lemma CredsOnWire(c: C.Creds)
    ensures Enc(AUTH, Struct("Creds"), AsValue(c)).bytes
         == U32Bytes(c.expiration) + (PutOpaque(c.hostname).bytes + (U32Bytes(c.uid) + (U32Bytes(c.gid)
            + (Enc(AUTH, Slice(U32), Numbers(c.groups)).bytes + []))))
  {
    var fs, vs := FIELDS, AsValue(c).vs;
    WordEnc(c.expiration);
    WordEnc(c.uid);
    WordEnc(c.gid);
    assert Enc(AUTH, Opaque, VOpaque(c.hostname)) == PutOpaque(c.hostname) && PutOpaque(c.hostname).ok;
    NumbersEnc(c.groups);
    assert Enc(AUTH, Struct("Creds"), AsValue(c)) == EncFields(AUTH, FIELDS, vs);
    hide EncFields, Enc, PutOpaque, BigEndian;
    var five := NoFields(AUTH);
    assert fs[4..][1..] == [] && vs[4..][1..] == [];
    var four := Fields(AUTH, fs[4..], vs[4..], five);
    var three := Fields(AUTH, fs[3..], vs[3..], four);
    var two := Fields(AUTH, fs[2..], vs[2..], three);
    var one := Fields(AUTH, fs[1..], vs[1..], two);
    var all := Fields(AUTH, fs, vs, one);
  }

  lemma WordEnc(n: u32)
    ensures Enc(AUTH, U32, VInt(n)) == Out(U32Bytes(n), true)
  {
  }

  lemma NumbersEnc(ws: seq<u32>)
    ensures Enc(AUTH, Slice(U32), Numbers(ws)).ok
  {
    hide BigEndian;
    EachEnc(Numbers(ws).vs);
  }

  lemma {:induction false} EachEnc(vs: seq<Value>)
    requires forall i :: 0 <= i < |vs| ==> vs[i].VInt?
    ensures EncEach(AUTH, U32, vs).ok
  {
    hide BigEndian;
    if vs != [] { EachEnc(vs[1..]); }
  }
}

/** Reading attributes back (attrs.go decodeFAttrs4), and VERIFY and NVERIFY (mux_v4.go). */
module AttrLaws {
  import opened Octets
  import opened XdrSchema
  import opened XdrLaws
  import opened XdrStream
  import opened Bitmap
  import opened Attrs

  lemma {:induction false} RanksZero(fs: seq<Shape>)
    requires forall i :: 0 <= i < |fs| ==> !fs[i].Struct? && !fs[i].Array?
    ensures RankAll(G, fs) == 0
  {
    if fs != [] { RanksZero(fs[1..]); }
  }

  /** Structs of plain fields only. */
  ghost predicate Flat(d: Def) {
    !d.union && forall i :: 0 <= i < |d.fields| ==> !d.fields[i].Struct? && !d.fields[i].Array?
  }

  lemma AllFlat()
    ensures forall n :: n in G.defs ==> Flat(G.defs[n])
  {
    assert Flat(Def(false, [U64, U64])) && Flat(Def(false, [U32, U32])) && Flat(Def(false, [U64, U32]));
    assert Flat(Def(false, [U32, U32, U32, Opaque])) && Flat(Def(false, [U32, U32, Opaque]));
    hide Flat;
  }

  lemma AttrSchemaValid()
    ensures ValidSchema(G)
  {
    hide RankAll;
    AllFlat();
    forall n | n in G.defs
      ensures RankAll(G, G.defs[n].fields) == 0 && !G.defs[n].union
    {
      RanksZero(G.defs[n].fields);
    }
  }

  // ---------------------------------------------------------------- reading

  const TIME := Struct("NfsTime4")
  const ZERO_TIME := VList([VInt(0), VInt(0)])

  /** A_time_modify_set: a flag, and if it is set a pointer, whose own flag comes first. The pointer
      is read over a zero time, which stays if there is none. */
  function ReadTimeSet(b: seq<byte>, now: Value): In<Value>
  {
    AttrSchemaValid();
    match GetWord(b)
    case Fail => Fail
    case Got(0, k) => Got(now, k)
    case Got(_, k) =>
      match Dec(G, Ptr(TIME), k)
      case Fail => Fail
      case Got(VRef(t), k') => Got(t, k')
      case Got(_, k') => Got(ZERO_TIME, k')
  }

  /** The fields of Attr, by the number of the attribute that fills them. */
  type Fields = map<int, Value>

  /** decodeFAttrs4 from number i on, with the fields filled so far. */
  function DecodeFrom(x: map<int, bool>, i: nat, b: seq<byte>, attr: Fields, now: Value): Option<Fields>
    decreases LAST - i
  {
    AttrSchemaValid();
    if i >= LAST then Some(attr)
    else if !On(x, i) then DecodeFrom(x, i + 1, b, attr, now)
    else if i == 54 then
      match ReadTimeSet(b, now)
      case Fail => None
      case Got(t, k) => DecodeFrom(x, i + 1, k, attr[53 := t], now)
    else
      match Read(i)
      case None => DecodeFrom(x, i + 1, b, attr, now)
      case Some(s) =>
        match Dec(G, s, b)
        case Fail => None
        case Got(v, k) => DecodeFrom(x, i + 1, k, attr[i := v], now)
  }

  lemma {:induction false} NothingToRead(x: map<int, bool>, i: nat, b: seq<byte>, attr: Fields, now: Value)
    requires forall a :: On(x, a) ==> a < i
    ensures DecodeFrom(x, i, b, attr, now) == Some(attr)
    decreases LAST - i
  {
    if i < LAST { NothingToRead(x, i + 1, b, attr, now); }
  }

  method LargestOn(x: map<int, bool>) returns (m: nat)
    ensures forall a :: On(x, a) ==> a <= m
  {
    m := 0;
    var todo := x.Keys;
    while todo != {}
      invariant todo <= x.Keys && forall a :: On(x, a) && a !in todo ==> a <= m
      decreases todo
    {
      var a := Pick(todo);
      todo := todo - {a};
      if x[a] && a > m { m := a; }
    }
  }

  method ReadSetTime(d: Decoder, now: Value) returns (r: Option<Value>)
    modifies d
    ensures Matches(ReadTimeSet(old(d.rest), now), r, d.rest)
  {
    AttrSchemaValid();
    hide Dec, ValidSchema;
    var flag := d.Uint32();
    if flag == None { return None; }
    if flag.value == 0 { return Some(now); }
    var t := d.DecodeReflect(G, Ptr(TIME));
    if t == None { return None; }
    return Some(if t.value.VRef? then t.value.v else ZERO_TIME);
  }

  method DecodeFAttrs4(mask: seq<u32>, vals: seq<byte>, now: Value) returns (r: Option<Fields>)
    ensures r == DecodeFrom(Decoded(mask), 0, vals, map[], now)
  {
    AttrSchemaValid();
    hide Dec, ValidSchema, Read, Decoded;
    var x := Decode(mask);
    var maxID := LargestOn(x);
    var d := new Decoder(vals);
    var attr: Fields := map[];
    for i := 0 to maxID + 1
      invariant DecodeFrom(x, i, d.rest, attr, now) == DecodeFrom(x, 0, vals, map[], now)
    {
      if i in x && x[i] && i < LAST {
        if i == 54 {
          var t := ReadSetTime(d, now);
          if t == None { return None; }
          attr := attr[53 := t.value];
        } else if Read(i).Some? {
          var v := d.DecodeReflect(G, Read(i).value);
          if v == None { return None; }
          attr := attr[i := v.value];
        }
      }
    }
    NothingToRead(x, maxID + 1, d.rest, attr, now);
    r := Some(attr);
  }

  // ---------------------------------------------------------------- every value has a wire form

  lemma PairFits(n: string, s: Shape, i: int, t: Shape, j: int)
    requires n in G.defs && G.defs[n] == Def(false, [s, t])
    requires Fits(G, s, VInt(i)) && Fits(G, t, VInt(j))
    ensures Fits(G, Struct(n), VList([VInt(i), VInt(j)]))
  {
    hide Fits;
    StructFits(G, n, [VInt(i), VInt(j)]);
  }

  lemma AceFits(flag: u32, mask: u32, who: seq<byte>)
    requires |who| < TWO32
    ensures Fits(G, Struct("NfsAce4"), Ace(flag, mask, who))
  {
    WordFits(G, 0);
    WordFits(G, flag);
    WordFits(G, mask);
    OpaqueFits(G, who);
    hide Fits;
    StructFits(G, "NfsAce4", [VInt(0), VInt(flag), VInt(mask), VOpaque(who)]);
  }

  lemma AclFits()
    ensures Fits(G, Slice(Struct("NfsAce4")), ACL)
  {
    AceFits(0, 0xE_0003, [79, 87, 78, 69, 82, 64]);
    AceFits(0x40, 0x2_0001, [71, 82, 79, 85, 80, 64]);
    AceFits(0, 0, [69, 86, 69, 82, 89, 79, 78, 69, 64]);
    hide Ace;
  }

  lemma HyperFits(n: u64)
    ensures Fits(G, U64, VInt(n))
  {
  }

  lemma ValueFits(st: State, a: int)
    requires Supported(a) && |st.fh| < TWO32
    ensures Fits(G, Written(a), AttrValue(st, a))
  {
    if a == 0 || a == 75 {
      NumbersFit(G, Words(SUPPORT, 3));
    } else if a == 8 || a == 41 || a == 47 || a == 52 || a == 53 {
      StructValueFits(st, a);
    } else if a == 12 {
      AclFits();
    } else {
      PlainValueFits(st, a);
    }
  }

  lemma TimeFits(seconds: u64, nanos: u32)
    ensures Fits(G, TIME, VList([VInt(seconds), VInt(nanos)]))
  {
    HyperFits(seconds);
    WordFits(G, nanos);
    hide Fits;
    PairFits("NfsTime4", U64, seconds, U32, nanos);
  }

  lemma FsidFits()
    ensures Fits(G, Struct("Fsid4"), VList([VInt(1), VInt(1)]))
  {
    HyperFits(1);
    hide Fits;
    PairFits("Fsid4", U64, 1, U64, 1);
  }

  lemma SpecdataFits()
    ensures Fits(G, Struct("Specdata4"), VList([VInt(0), VInt(0)]))
  {
    WordFits(G, 0);
    hide Fits;
    PairFits("Specdata4", U32, 0, U32, 0);
  }

  lemma StructValueFits(st: State, a: int)
    requires a == 8 || a == 41 || a == 47 || a == 52 || a == 53
    ensures Fits(G, Written(a), AttrValue(st, a))
  {
    hide Fits;
    if a == 8 {
      FsidFits();
    } else if a == 41 {
      SpecdataFits();
    } else {
      TimeFits(st.info.seconds % TWO64, st.info.nanos);
    }
  }

  predicate PlainAttr(a: int) {
    Supported(a) && a != 0 && a != 75 && a != 8 && a != 12 && a != 41 && a != 47 && a != 52 && a != 53
  }

  lemma PlainValueFits(st: State, a: int)
    requires PlainAttr(a) && |st.fh| < TWO32
    ensures Fits(G, Written(a), AttrValue(st, a))
  {
    var v := AttrValue(st, a);
    if Written(a) == U32 {
      assert v.VInt? && 0 <= v.i < TWO32;
    } else if Written(a) == U64 {
      assert v.VInt? && 0 <= v.i < TWO64;
    } else if Written(a) == Opaque {
      assert a == 19 || a == 36 || a == 37;
    }
  }

  // ---------------------------------------------------------------- round trip

  lemma FlagReads(rest: seq<byte>)
    requires ValidSchema(G)
    ensures Dec(G, Bool, Enc(G, U32, VInt(1)).bytes + rest) == Got(VBool(true), rest)
  {
    hide BigEndian, ValidSchema;
    GetPutWord(1, rest);
  }

  /** One attribute, whatever follows it. */
  lemma ReadWritten(st: State, a: int, rest: seq<byte>)
    requires ValidSchema(G) && Supported(a) && !Lacks(a) && |st.fh| < TWO32
    ensures Read(a).Some?
    ensures Dec(G, Read(a).value, Enc(G, Written(a), AttrValue(st, a)).bytes + rest)
         == Got(Seen(a, AttrValue(st, a)), rest)
  {
    hide Fits, Dec, Enc, ValidSchema;
    if a == 13 || a == 82 {
      FlagReads(rest);
    } else {
      hide AttrValue;
      ValueFits(st, a);
      RoundTrip(G, Written(a), AttrValue(st, a), rest);
    }
  }

  /** What the reader should have in Attr once it has passed number i. */
  function Recovered(x: map<int, bool>, st: State, i: int): Fields {
    map a | 0 <= a < i && Returned(x, a) :: Seen(a, AttrValue(st, a))
  }

  lemma {:induction false} RoundTripFrom(x: map<int, bool>, y: map<int, bool>, st: State, i: nat, now: Value)
    requires |st.fh| < TWO32 && i <= LAST
    requires forall a :: On(y, a) <==> Returned(x, a)
    requires forall a :: Returned(x, a) ==> !Lacks(a)
    ensures DecodeFrom(y, i, ValsFrom(x, st, i), Recovered(x, st, i), now) == Some(Recovered(x, st, LAST))
    decreases LAST - i
  {
    AttrSchemaValid();
    hide Dec, Enc, AttrValue, ValidSchema, Written, Read, ReadTimeSet, Seen, Supported, Lacks;
    if i < LAST {
      RoundTripFrom(x, y, st, i + 1, now);
      if Returned(x, i) {
        NotTimeSet();
        ReadWritten(st, i, ValsFrom(x, st, i + 1));
        assert Recovered(x, st, i + 1) == Recovered(x, st, i)[i := Seen(i, AttrValue(st, i))];
      } else {
        assert Recovered(x, st, i + 1) == Recovered(x, st, i);
        assert [] + ValsFrom(x, st, i + 1) == ValsFrom(x, st, i + 1);
      }
    }
  }

  lemma NotTimeSet()
    ensures !Supported(54)
  {
  }

  /** The reader fills only fields it has a case for. */
  lemma {:induction false} FillsOnlyKnown(y: map<int, bool>, i: nat, b: seq<byte>, attr: Fields, now: Value, a: int)
    requires DecodeFrom(y, i, b, attr, now).Some?
    ensures a in DecodeFrom(y, i, b, attr, now).value ==> a in attr || Read(a).Some?
    decreases LAST - i
  {
    AttrSchemaValid();
    hide Dec, ValidSchema, ReadTimeSet;
    if i >= LAST {
    } else if !On(y, i) {
      FillsOnlyKnown(y, i + 1, b, attr, now, a);
    } else if i == 54 {
      var r := ReadTimeSet(b, now);
      FillsOnlyKnown(y, i + 1, r.rest, attr[53 := r.value], now, a);
    } else if Read(i).None? {
      FillsOnlyKnown(y, i + 1, b, attr, now, a);
    } else {
      var r := Dec(G, Read(i).value, b);
      FillsOnlyKnown(y, i + 1, r.rest, attr[i := r.value], now, a);
    }
  }

  /** Reading a reply gives every returned attribute exactly if none of them is one of the seven
      that the reader has no case for. */
  lemma AttributesRoundTrip(x: map<int, bool>, mask: seq<u32>, st: State, now: Value)
    requires |st.fh| < TWO32
    requires forall a :: OnWords(mask, a) <==> Returned(x, a)
    ensures DecodeFrom(Decoded(mask), 0, ValsFrom(x, st, 0), map[], now) == Some(Recovered(x, st, LAST))
            <==> forall a :: Returned(x, a) ==> !Lacks(a)
  {
    AttrSchemaValid();
    hide Dec, Enc, AttrValue, ValidSchema, DecodeFrom, ValsFrom, OnWords;
    var y := Decoded(mask);
    if forall a :: Returned(x, a) ==> !Lacks(a) {
      RoundTripFrom(x, y, st, 0, now);
      assert Recovered(x, st, 0) == map[];
    } else if DecodeFrom(y, 0, ValsFrom(x, st, 0), map[], now) == Some(Recovered(x, st, LAST)) {
      var a :| Returned(x, a) && Lacks(a);
      assert a in Recovered(x, st, LAST);
      FillsOnlyKnown(y, 0, ValsFrom(x, st, 0), map[], now, a);
    }
  }

  /** The whole way: a request in words, the server's reply, and the reader. */
  method ReadReply(st: State, words: seq<u32>, now: Value) returns (r: Option<Fields>)
    requires |st.fh| < TWO32
    ensures r == Some(Recovered(Decoded(words), st, LAST))
            <==> forall a :: OnWords(words, a) && Supported(a) ==> !Lacks(a)
  {
    AttrSchemaValid();
    hide ValidSchema, DecodeFrom, ValsFrom, OnWords, Recovered, Supported, Lacks;
    var mask, vals := Reply(st, words);
    r := DecodeFAttrs4(mask, vals, now);
    AttributesRoundTrip(Decoded(words), mask, st, now);
  }

  lemma {:induction false} NothingBelow(x: map<int, bool>, st: State, b: seq<byte>, now: Value, i: nat)
    requires i <= LAST && forall a :: On(x, a) ==> a >= i
    ensures ValsFrom(x, st, 0) == ValsFrom(x, st, i)
    ensures DecodeFrom(x, 0, b, map[], now) == DecodeFrom(x, i, b, map[], now)
  {
    AttrSchemaValid();
    hide Dec, Enc, ValidSchema, Written, AttrValue, Read, Supported;
    if i > 0 { NothingBelow(x, st, b, now, i - 1); }
  }

  lemma ReadsWord(n: u32, rest: seq<byte>)
    requires ValidSchema(G)
    ensures Dec(G, U32, PutWord(n).bytes + rest) == Got(VInt(n), rest)
  {
    hide BigEndian, ValidSchema, PutWord;
    GetPutWord(n, rest);
  }

  lemma TrueIsOne()
    ensures Enc(G, Bool, VBool(true)).bytes == PutWord(1).bytes
  {
  }

  /** no_trunc and numlinks. */
  const SHIFTED: map<int, bool> := map[34 := true, 35 := true]

  /** A missing case does not only lose its own attribute, it shifts what follows: with no_trunc
      before it, numlinks reads as 1 whatever the number of links is. */
  lemma MissingCaseShifts(st: State, now: Value)
    ensures DecodeFrom(SHIFTED, 0, ValsFrom(SHIFTED, st, 0), map[], now) == Some(map[35 := VInt(1)])
  {
    AttrSchemaValid();
    hide Dec, Enc, ValidSchema, ValsFrom, DecodeFrom, PutWord;
    var b := ValsFrom(SHIFTED, st, 0);
    NothingBelow(SHIFTED, st, b, now, 34);
    NextVal(SHIFTED, st, 34);
    TrueIsOne();
    var rest := ValsFrom(SHIFTED, st, 35);
    ReadsWord(1, rest);
    ReadsShifted(b, rest, now);
  }

  lemma ReadsShifted(b: seq<byte>, rest: seq<byte>, now: Value)
    requires ValidSchema(G) && Dec(G, U32, b) == Got(VInt(1), rest)
    ensures DecodeFrom(SHIFTED, 34, b, map[], now) == Some(map[35 := VInt(1)])
  {
    hide Dec, ValidSchema, ReadTimeSet;
    NothingToRead(SHIFTED, 36, rest, map[35 := VInt(1)], now);
  }

  // ---------------------------------------------------------------- the encoding tells states apart

  /** For one mask, equal bytes mean equal attributes, and the other way round. */
  lemma {:induction false} ValsInjective(x: map<int, bool>, p: State, q: State, i: nat)
    requires |p.fh| < TWO32 && |q.fh| < TWO32
    ensures ValsFrom(x, p, i) == ValsFrom(x, q, i)
            <==> forall a :: i <= a < LAST && Returned(x, a) ==> AttrValue(p, a) == AttrValue(q, a)
    decreases LAST - i
  {
    AttrSchemaValid();
    hide Enc, Fits, AttrValue, ValidSchema, Written, Supported;
    if i < LAST {
      ValsInjective(x, p, q, i + 1);
      if Returned(x, i) {
        ValueFits(p, i);
        ValueFits(q, i);
        if AttrValue(p, i) != AttrValue(q, i) {
          assert Returned(x, i);
        }
        if ValsFrom(x, p, i) == ValsFrom(x, q, i) {
          PrefixFree(G, Written(i), AttrValue(p, i), AttrValue(q, i), ValsFrom(x, p, i + 1), ValsFrom(x, q, i + 1));
        }
      } else {
        assert [] + ValsFrom(x, p, i + 1) == ValsFrom(x, p, i + 1);
        assert [] + ValsFrom(x, q, i + 1) == ValsFrom(x, q, i + 1);
      }
    }
  }

  // ---------------------------------------------------------------- VERIFY and NVERIFY

  const NFS4_OK: u32 := 0
  const NFS4ERR_SAME: u32 := 10009
  const NFS4ERR_NOFILEHANDLE: u32 := 10020
  const NFS4ERR_NOT_SAME: u32 := 10027
  const NFS4ERR_ATTRNOTSUPP: u32 := 10032

  /** What fs.Lstat answers: a file, or the status of its error. */
  datatype Lstat = Stat(info: Info) | NoStat(status: u32)

  /** What an operation meets: the current handle, the cache's entry for it, what Lstat would say, the
      caller and the session. */
  datatype Context = Context(handle: Option<seq<byte>>, cached: Option<Info>, lstat: Lstat, uid: u32, session: u64)

  /** The file as the operation sees it, if it gets that far. */
  function FileOf(c: Context): Option<Info> {
    if c.handle.None? then None
    else if c.cached.Some? then c.cached
    else if c.lstat.Stat? then Some(c.lstat.info)
    else None
  }

  /** What the server would send for the mask. */
  function Current(mask: seq<u32>, c: Context): seq<byte>
    requires FileOf(c).Some?
  {
    ValsFrom(Decoded(mask), State(c.handle.value, FileOf(c).value, NFS4_OK, c.uid, c.session), 0)
  }

  ghost predicate AllSupported(mask: seq<u32>) { forall a :: OnWords(mask, a) ==> Supported(a) }

  method Unsupported(x: map<int, bool>) returns (found: bool)
    ensures found <==> exists a :: On(x, a) && !Supported(a)
  {
    var todo := x.Keys;
    while todo != {}
      invariant todo <= x.Keys && forall a :: On(x, a) && a !in todo ==> Supported(a)
      decreases todo
    {
      var a := Pick(todo);
      todo := todo - {a};
      if x[a] && !Supported(a) { return true; }
    }
    return false;
  }

  method Verify(mask: seq<u32>, vals: seq<byte>, c: Context) returns (status: u32, cached: Option<Info>)
    ensures !AllSupported(mask) ==> status == NFS4ERR_ATTRNOTSUPP && cached == c.cached
    ensures AllSupported(mask) && c.handle.None? ==> status == NFS4ERR_NOFILEHANDLE && cached == c.cached
    ensures AllSupported(mask) && FileOf(c).Some? ==>
              && cached == FileOf(c) && (status == NFS4_OK || status == NFS4ERR_NOT_SAME)
              && (status == NFS4_OK <==> Current(mask, c) == vals)
    ensures AllSupported(mask) && c.handle.Some? && FileOf(c).None? ==> status == c.lstat.status && cached == c.cached
  {
    hide Supported, ValsFrom, OnWords;
    cached := c.cached;
    var verifyAttrs := Decode(mask);
    var bad := Unsupported(verifyAttrs);
    if bad { return NFS4ERR_ATTRNOTSUPP, cached; }
    if c.handle.None? { return NFS4ERR_NOFILEHANDLE, cached; }
    if c.cached.Some? {
      var st := State(c.handle.value, c.cached.value, NFS4_OK, c.uid, c.session);
      var _, now := FileInfoToAttrs(st, Some(verifyAttrs));
      if now != vals { return NFS4ERR_NOT_SAME, cached; }
      return NFS4_OK, cached;
    }
    if c.lstat.NoStat? { return c.lstat.status, cached; }
    cached := Some(c.lstat.info);
    var _, now := FileInfoToAttrs(State(c.handle.value, c.lstat.info, NFS4_OK, c.uid, c.session), Some(verifyAttrs));
    if now != vals { return NFS4ERR_NOT_SAME, cached; }
    return NFS4_OK, cached;
  }

  method NVerify(mask: seq<u32>, vals: seq<byte>, c: Context) returns (status: u32, cached: Option<Info>)
    ensures !AllSupported(mask) ==> status == NFS4ERR_ATTRNOTSUPP && cached == c.cached
    ensures AllSupported(mask) && c.handle.None? ==> status == NFS4ERR_NOFILEHANDLE && cached == c.cached
    ensures AllSupported(mask) && FileOf(c).Some? ==>
              && cached == FileOf(c) && (status == NFS4_OK || status == NFS4ERR_SAME)
              && (status == NFS4ERR_SAME <==> Current(mask, c) == vals)
    ensures AllSupported(mask) && c.handle.Some? && FileOf(c).None? ==> status == c.lstat.status && cached == c.cached
  {
    hide Supported, ValsFrom, OnWords;
    cached := c.cached;
    var verifyAttrs := Decode(mask);
    var bad := Unsupported(verifyAttrs);
    if bad { return NFS4ERR_ATTRNOTSUPP, cached; }
    if c.handle.None? { return NFS4ERR_NOFILEHANDLE, cached; }
    if c.cached.Some? {
      var st := State(c.handle.value, c.cached.value, NFS4_OK, c.uid, c.session);
      var _, now := FileInfoToAttrs(st, Some(verifyAttrs));
      if now == vals { return NFS4ERR_SAME, cached; }
      return NFS4_OK, cached;
    }
    if c.lstat.NoStat? { return c.lstat.status, cached; }
    cached := Some(c.lstat.info);
    var _, now := FileInfoToAttrs(State(c.handle.value, c.lstat.info, NFS4_OK, c.uid, c.session), Some(verifyAttrs));
    if now == vals { return NFS4ERR_SAME, cached; }
    return NFS4_OK, cached;
  }

  /** Lstat is asked, and fails with this status. */
  ghost predicate Breaks(mask: seq<u32>, c: Context, status: u32) {
    AllSupported(mask) && c.handle.Some? && c.cached.None? && c.lstat == NoStat(status)
  }

  /** The two operations on one state: VERIFY succeeds exactly when NVERIFY reports SAME, unless Lstat
      fails with one of these two statuses, and VERIFY reports NOT_SAME exactly when NVERIFY succeeds,
      unless Lstat fails with one of those two. What is not a comparison ends both alike; and NVERIFY
      after VERIFY, which has filled the cache, ends as it would have before. */
  method Opposites(mask: seq<u32>, vals: seq<byte>, c: Context) returns (v: u32, n: u32)
    ensures (v == NFS4_OK <==> n == NFS4ERR_SAME)
       <==> !(Breaks(mask, c, NFS4_OK) || Breaks(mask, c, NFS4ERR_SAME))
    ensures (v == NFS4ERR_NOT_SAME <==> n == NFS4_OK)
       <==> !(Breaks(mask, c, NFS4_OK) || Breaks(mask, c, NFS4ERR_NOT_SAME))
    ensures !AllSupported(mask) || FileOf(c).None? ==> v == n
  {
    hide AllSupported, Current;
    var cached;
    v, cached := Verify(mask, vals, c);
    n, cached := NVerify(mask, vals, c.(cached := cached));
    assert FileOf(c.(cached := if FileOf(c).Some? then FileOf(c) else c.cached)) == FileOf(c);
    if AllSupported(mask) && FileOf(c).Some? { SameCurrent(mask, c); }
  }

  /** A filled cache shows what Lstat said. */
  lemma SameCurrent(mask: seq<u32>, c: Context)
    requires FileOf(c).Some?
    ensures FileOf(c.(cached := FileOf(c))) == FileOf(c) && Current(mask, c.(cached := FileOf(c))) == Current(mask, c)
  {
  }

  /** VERIFY of what a file showed at one time succeeds at another exactly if every attribute asked
      for is the same. */
  method VerifyMeansUnchanged(mask: seq<u32>, before: State, c: Context) returns (status: u32)
    requires |before.fh| < TWO32 && c.handle.Some? && |c.handle.value| < TWO32 && FileOf(c).Some? && AllSupported(mask)
    ensures status == NFS4_OK
       <==> forall a :: OnWords(mask, a) ==>
              AttrValue(before, a) == AttrValue(State(c.handle.value, FileOf(c).value, NFS4_OK, c.uid, c.session), a)
  {
    hide ValsFrom, AttrValue, OnWords, Supported;
    var x := Decoded(mask);
    SupportedRange();
    AttrSchemaValid();
    var after := State(c.handle.value, FileOf(c).value, NFS4_OK, c.uid, c.session);
    ValsInjective(x, before, after, 0);
    assert forall a :: Returned(x, a) <==> OnWords(mask, a);
    var cached;
    status, cached := Verify(mask, ValsFrom(x, before, 0), c);
  }
}

/** attrs.go: file attributes as a mask and the values it announces (section 3.3.7 of RFC 5661). */
module Attrs {
  import opened Octets
  import opened XdrSchema
  import opened XdrLaws
  import opened XdrStream
  import opened Bitmap

  // ---------------------------------------------------------------- what a file looks like

  datatype ModeType = Regular | Directory | Symlink | Socket | OtherMode

  /** vfs.FileInfo. */
  datatype Info = Info(isDir: bool, modeType: ModeType, mode: u32, size: int, seconds: int, nanos: u32,
                       links: u64, uid: u32, gid: u32)

  /** What fileInfoToAttrs looks at besides the request: the handle, the file, the status that the
      caller's error comes to, the caller and the session. */
  datatype State = State(fh: seq<byte>, info: Info, status: u32, uid: u32, session: u64)

  const LEASE_SECONDS: u32 := 300

  /** fmt.Sprintf("%d", n) */
  function Decimal(n: nat): (s: seq<byte>)
    ensures 0 < |s| <= n / 10 + 1
  {
    (if n < 10 then [] else Decimal(n / 10)) + [48 + n % 10]
  }

  // ---------------------------------------------------------------- file ids

  /** binary.LittleEndian.Uint64 */
  function LittleEndian(b: seq<byte>): nat {
    if b == [] then 0 else b[0] + 0x100 * LittleEndian(b[1..])
  }

  function Padded(fh: seq<byte>): seq<byte> { if |fh| < 8 then fh + Zeros(8 - |fh|) else fh }

  lemma {:induction false} LittleEndianFits(b: seq<byte>)
    ensures LittleEndian(b) < Pow256(|b|)
  {
    if b != [] { LittleEndianFits(b[1..]); }
  }

  /** The eight bytes that end the window, or the windows before it, as far as they are zero. */
  function FileIdOf(window: seq<byte>): (r: u64)
    ensures r != 0
  {
    if |window| < 8 then TWO64 - 1
    else
      var last := window[|window| - 8..];
      LittleEndianFits(last);
      WordSizes();
      if LittleEndian(last) != 0 then LittleEndian(last) else FileIdOf(window[..|window| - 1])
  }

  /** The loop of A_fileid. The answer is never 0, which clients take for no id. */
  method FileId(fh: seq<byte>) returns (fileid: u64)
    ensures fileid == FileIdOf(Padded(fh)) && fileid != 0
  {
    var window := fh;
    if |window| < 8 { window := window + Zeros(8 - |window|); }
    fileid := 0;
    while fileid == 0 && |window| >= 8
      invariant FileIdOf(Padded(fh)) == if fileid == 0 then FileIdOf(window) else fileid
      decreases |window|
    {
      var last := window[|window| - 8..];
      LittleEndianFits(last);
      WordSizes();
      fileid := LittleEndian(last);
      window := window[..|window| - 1];
    }
    if fileid == 0 { fileid := TWO64 - 1; }
  }

  /** The last eight bytes in a row that are not all zero end before k + 8. */
  ghost predicate ZeroFrom(window: seq<byte>, k: nat) { forall j :: k + 8 <= j < |window| ==> window[j] == 0 }

  /** A handle with a byte that is not zero gets the value of the last window that holds one. */
  lemma {:induction false} FileIdIsAWindow(window: seq<byte>) returns (k: nat)
    requires |window| >= 8 && exists z :: 0 <= z < |window| && window[z] != 0
    ensures k + 8 <= |window| && FileIdOf(window) == LittleEndian(window[k..k + 8]) && ZeroFrom(window, k)
    ensures exists z :: k <= z < k + 8 && window[z] != 0
  {
    k := |window| - 8;
    var last := window[k..];
    assert window[k..k + 8] == last;
    if LittleEndian(last) != 0 {
      if forall z :: k <= z < k + 8 ==> window[z] == 0 { ZeroLittleEndian(last); }
    } else {
      LittleEndianZero(last);
      assert forall j :: k <= j < |window| ==> window[j] == last[j - k] == 0;
      var shorter := window[..|window| - 1];
      var z :| 0 <= z < |window| && window[z] != 0;
      assert shorter[z] != 0;
      k := FileIdIsAWindow(shorter);
      assert window[k..k + 8] == shorter[k..k + 8];
      var y :| k <= y < k + 8 && shorter[y] != 0;
      assert window[y] != 0;
      assert forall j :: k + 8 <= j < |shorter| ==> window[j] == shorter[j];
    }
  }

  lemma {:induction false} ZeroLittleEndian(b: seq<byte>)
    requires forall j :: 0 <= j < |b| ==> b[j] == 0
    ensures LittleEndian(b) == 0
  {
    if b != [] { ZeroLittleEndian(b[1..]); }
  }

  lemma {:induction false} LittleEndianZero(b: seq<byte>)
    requires LittleEndian(b) == 0
    ensures forall j :: 0 <= j < |b| ==> b[j] == 0
  {
    if b != [] {
      LittleEndianZero(b[1..]);
      assert forall j :: 1 <= j < |b| ==> b[j] == b[1..][j - 1];
    }
  }

  // ---------------------------------------------------------------- types and values by number

  const U32 := Word(KUint32)
  const U64 := Hyper(false)

  /** The struct types of msg/structs.go that attributes use. */
  const G := Schema(map["Fsid4" := Def(false, [U64, U64]), "Specdata4" := Def(false, [U32, U32]),
                        "NfsTime4" := Def(false, [U64, U32]), "NfsAce4" := Def(false, [U32, U32, U32, Opaque]),
                        "NfsPosixAce4" := Def(false, [U32, U32, Opaque])],
                    map["Fsid4" := 0, "Specdata4" := 0, "NfsTime4" := 0, "NfsAce4" := 0, "NfsPosixAce4" := 0])

  /** One past the largest attribute number known to either side. */
  const LAST := 92

  /** AttrsSupported. */
  predicate Supported(a: int) {
    || 0 <= a <= 13 || 16 <= a <= 20 || 29 <= a <= 31 || 33 <= a <= 37 || a == 41 || a == 45 || a == 47
    || 52 <= a <= 53 || a == 55 || a == 75 || a == 82
  }

  const SUPPORT: map<int, bool> := map a: int | 0 <= a < LAST && Supported(a) :: true

  /** The type that fileInfoToAttrs writes for a supported attribute. */
  function Written(a: int): Shape {
    match a
    case 0 | 75 => Slice(U32)
    case 1 | 2 | 10 | 11 | 13 | 33 | 35 | 82 => U32
    case 3 | 4 | 20 | 30 | 31 | 45 | 55 => U64
    case 5 | 6 | 7 | 9 | 16 | 17 | 18 | 34 => Bool
    case 8 => Struct("Fsid4")
    case 12 => Slice(Struct("NfsAce4"))
    case 29 => Word(KInt)
    case 41 => Struct("Specdata4")
    case 47 | 52 | 53 => Struct("NfsTime4")
    case _ => Opaque
  }

  /** The type that decodeFAttrs4 reads for an attribute it has a case for; 54 is apart. */
  function Read(a: int): Option<Shape> {
    match a
    case 0 | 75 => Some(Slice(U32))
    case 1 | 2 | 10 | 11 | 33 | 35 => Some(U32)
    case 3 | 4 | 20 | 45 | 55 => Some(U64)
    case 5 | 6 | 7 | 9 | 13 | 82 => Some(Bool)
    case 8 => Some(Struct("Fsid4"))
    case 12 => Some(Slice(Struct("NfsAce4")))
    case 19 | 36 | 37 => Some(Opaque)
    case 41 => Some(Struct("Specdata4"))
    case 47 | 52 | 53 => Some(Struct("NfsTime4"))
    case 90 | 91 => Some(Slice(Struct("NfsPosixAce4")))
    case _ => None
  }

  /** Supported attributes without a case in decodeFAttrs4. */
  predicate Lacks(a: int) { 16 <= a <= 18 || 29 <= a <= 31 || a == 34 }

  function FileType(i: Info): u32 {
    if i.isDir then 2
    else match i.modeType
      case Directory => 2
      case Symlink => 5
      case Socket => 6
      case _ => 1
  }

  function Ace(flag: u32, mask: u32, who: seq<byte>): Value { VList([VInt(0), VInt(flag), VInt(mask), VOpaque(who)]) }

  /** The fixed access list: OWNER@, GROUP@, EVERYONE@. */
  const ACL := VList([Ace(0, 0xE_0003, [79, 87, 78, 69, 82, 64]),
                      Ace(0x40, 0x2_0001, [71, 82, 79, 85, 80, 64]),
                      Ace(0, 0, [69, 86, 69, 82, 89, 79, 78, 69, 64])])

  /** The value fileInfoToAttrs writes. */
  function AttrValue(st: State, a: int): Value {
    var i := st.info;
    match a
    case 0 | 75 => Numbers(Words(SUPPORT, 3))
    case 1 => VInt(FileType(i))
    case 2 => VInt(3)
    case 3 => VInt((i.seconds * (TWO32 - 1) + st.uid + st.session) % TWO64)
    case 4 => VInt(i.size % TWO64)
    case 5 | 6 | 17 | 18 | 34 => VBool(true)
    case 7 | 9 | 16 => VBool(false)
    case 8 => VList([VInt(1), VInt(1)])
    case 10 => VInt(LEASE_SECONDS)
    case 11 => VInt(st.status)
    case 12 => ACL
    case 13 | 82 => VInt(1)
    case 19 => VOpaque(st.fh)
    case 20 | 55 => VInt(FileIdOf(Padded(st.fh)))
    case 29 => VInt(255)
    case 30 | 31 => VInt(32 * 1024)
    case 33 => VInt(i.mode % 512)
    case 35 => VInt(if Truncate32(i.links) == 0 then 1 else Truncate32(i.links))
    case 36 => VOpaque(Decimal(i.uid))
    case 37 => VOpaque(Decimal(i.gid))
    case 41 => VList([VInt(0), VInt(0)])
    case 45 => VInt((4096 + i.size) % TWO64)
    case 47 | 52 | 53 => VList([VInt(i.seconds % TWO64), VInt(i.nanos)])
    case _ => VOpaque([])
  }

  /** What a reader makes of the value: the two flags that are written as numbers come back as
      booleans, everything else as it was. */
  function Seen(a: int, v: Value): Value {
    if (a == 13 || a == 82) && v.VInt? then VBool(v.i != 0) else v
  }

  predicate Returned(x: map<int, bool>, a: int) { On(x, a) && Supported(a) }

  /** The values of the returned attributes from number a on, in ascending order. */
  function ValsFrom(x: map<int, bool>, st: State, a: nat): seq<byte>
    decreases LAST - a
  {
    if a >= LAST then []
    else (if Returned(x, a) then Enc(G, Written(a), AttrValue(st, a)).bytes else []) + ValsFrom(x, st, a + 1)
  }

  // ---------------------------------------------------------------- writing

  lemma SupportedRange()
    ensures forall a :: Supported(a) ==> 0 <= a < LAST
  {
  }

  lemma NextVal(x: map<int, bool>, st: State, a: nat)
    ensures ValsFrom(x, st, a)
         == (if Returned(x, a) then Enc(G, Written(a), AttrValue(st, a)).bytes else []) + ValsFrom(x, st, a + 1)
  {
  }

  lemma {:induction false} NothingAbove(x: map<int, bool>, st: State, a: nat)
    requires forall b :: On(x, b) ==> b < a
    ensures ValsFrom(x, st, a) == []
    decreases LAST - a
  {
    if a < LAST { NothingAbove(x, st, a + 1); }
  }

  /** AttrsDefaultSet. */
  predicate InDefault(a: int) {
    || 1 <= a <= 4 || a == 8 || a == 11 || 19 <= a <= 20 || a == 33 || 35 <= a <= 37 || a == 41 || a == 45 || a == 47
    || 52 <= a <= 53 || a == 55
  }

  const DEFAULT_SET: map<int, bool> := map a: int | 0 <= a < LAST && InDefault(a) :: true

  /** The request in force: AttrsDefaultSet for a nil map. */
  function InForce(request: Option<map<int, bool>>): map<int, bool> {
    if request.None? then DEFAULT_SET else request.value
  }

  /** fileInfoToAttrs; no mask: bitmap4Encode panicked. The mask names exactly the requested and
      supported attributes, in as many words as the request needs, and the values are theirs. */
  method FileInfoToAttrs(st: State, request: Option<map<int, bool>>) returns (mask: Option<seq<u32>>, vals: seq<byte>)
    ensures var x := InForce(request);
            && vals == ValsFrom(x, st, 0)
            && (mask.None? <==> exists v :: Returned(x, v) && v % 32 == 0 && IsMax(x, v))
            && (mask.Some? ==> && (forall v :: OnWords(mask.value, v) <==> Returned(x, v))
                               && (forall m :: IsMax(x, m) ==> |mask.value| == Size(m)))
  {
    hide Enc, BigEndian, Size, Supported, Written, AttrValue, ValsFrom, InForce;
    SupportedRange();
    var x := InForce(request);
    var maxID := Largest(x);
    var idxReturn := map a | a in x :: false;
    var buff: seq<byte> := [];
    for a := 0 to maxID + 1
      invariant buff + ValsFrom(x, st, a) == ValsFrom(x, st, 0)
      invariant idxReturn.Keys == x.Keys
      invariant forall v :: v in x ==> (idxReturn[v] <==> v < a && Returned(x, v))
    {
      NextVal(x, st, a);
      if !On(x, a) || !Supported(a) { continue; }
      idxReturn := idxReturn[a := true];
      var v := Enc(G, Written(a), AttrValue(st, a)).bytes;
      Assoc(buff, v, ValsFrom(x, st, a + 1));
      buff := buff + v;
    }
    NothingAbove(x, st, maxID + 1);
    OneMax(x, maxID);
    OneMax(idxReturn, maxID);
    assert forall v :: On(idxReturn, v) <==> Returned(x, v);
    mask := Encode(idxReturn);
    vals := buff;
  }

  /** The reply to a request that came as words: never out of range, and as many words. */
  method Reply(st: State, words: seq<u32>) returns (mask: seq<u32>, vals: seq<byte>)
    ensures |mask| == |words| && forall v :: OnWords(mask, v) <==> OnWords(words, v) && Supported(v)
    ensures vals == ValsFrom(Decoded(words), st, 0)
  {
    var x := Decode(words);
    DecodedMax(words);
    OneMax(x, if words == [] then 0 else 32 * |words| - 1);
    var m, b := FileInfoToAttrs(st, Some(x));
    return m.value, b;
  }

  /** The other uses of bitmap4Encode are in range too. */
  method DefaultReply(st: State) returns (mask: seq<u32>, vals: seq<byte>)
    ensures |mask| == 2 && forall v :: OnWords(mask, v) <==> InDefault(v)
  {
    hide ValsFrom, Encodes;
    assert IsMax(DEFAULT_SET, 55) && Size(55) == 2;
    OneMax(DEFAULT_SET, 55);
    var m, b := FileInfoToAttrs(st, None);
    assert forall v :: Returned(DEFAULT_SET, v) <==> InDefault(v);
    return m.value, b;
  }

  method SupportedWords() returns (r: Option<seq<u32>>)
    ensures r == Some(Words(SUPPORT, 3))
  {
    assert IsMax(SUPPORT, 82);
    OneMax(SUPPORT, 82);
    r := Encode(SUPPORT);
    if r.Some? { EncodesWords(SUPPORT, 82, r.value); }
  }
}

/** rpc.go: records on a connection (section 11 of RFC 5531). */
module Rpc {
  import opened Octets
  import opened XdrSchema
  import opened XdrLaws
  import opened XdrGenerate
  import opened XdrAgreement
  import opened XdrStream
  import opened XdrWire

  const RPC_CALL := 0
  const LAST_FRAGMENT := 0x8000_0000

  const AUTH := Def(false, [Word(KUint32), Opaque])
  const CALL := Def(false, [Word(KUint32), Word(KUint32), Word(KUint32), Word(KUint32), Word(KUint32), Word(KUint32),
                            Struct("Auth"), Struct("Auth")])
  const REPLY := Def(false, [Word(KUint32), Word(KUint32), Word(KUint32)])

  /** The struct types of msg/rpc.go. */
  const RPC := Schema(map["Auth" := AUTH, "RPCMsgCall" := CALL, "RPCMsgReply" := REPLY],
                      map["Auth" := 0, "RPCMsgCall" := 1, "RPCMsgReply" := 0])

  lemma RpcRanks()
    ensures RankAll(RPC, AUTH.fields) == 0 && RankAll(RPC, REPLY.fields) == 0 && RankAll(RPC, CALL.fields) <= 1
  {
    hide RankAll;
    RankZero(RPC, AUTH.fields);
    RankZero(RPC, REPLY.fields);
    RankAtMostOne(RPC, CALL.fields);
  }

  lemma RpcValid()
    ensures ValidSchema(RPC)
  {
    hide RankAll, Rank;
    RpcRanks();
    forall n | n in RPC.defs
      ensures RankAll(RPC, RPC.defs[n].fields) <= RPC.rank[n] && !RPC.defs[n].union
    {
    }
  }

  lemma RpcPlain()
    ensures PlainSchema(RPC)
  {
    assert forall i :: 0 <= i < |AUTH.fields| ==> Plain(AUTH.fields[i]);
    assert forall i :: 0 <= i < |REPLY.fields| ==> Plain(REPLY.fields[i]);
    assert forall i :: 0 <= i < |CALL.fields| ==> Plain(CALL.fields[i]);
    hide Plain;
  }

  /** The decoded header's message type. */
  function MsgType(h: Value): int {
    if h.VList? && |h.vs| > 1 && h.vs[1].VInt? then h.vs[1].i else -1
  }

  datatype Received =
    | Received(header: Value, body: seq<byte>, rest: seq<byte>)
    | Failed
    | Panics     // the header is longer than the record says: Allocate of a negative size

  /** ReceiveCall on the bytes of a connection. */
  function Receive(b: seq<byte>): Received
  {
    RpcValid();
    match GetWord(b)
    case Fail => Failed
    case Got(frag, k) =>
      if frag < LAST_FRAGMENT then Failed
      else
        match Dec(RPC, Struct("RPCMsgCall"), k)
        case Fail => Failed
        case Got(h, k') =>
          var restSize := frag - LAST_FRAGMENT - (|k| - |k'|);
          if MsgType(h) != RPC_CALL then Failed
          else if restSize < 0 then Panics
          else if |k'| < restSize then Failed
          else Received(h, k'[..restSize], k'[restSize..])
  }

  method ReceiveCall(d: Decoder) returns (r: Received)
    modifies d
    ensures r == Receive(old(d.rest))
    ensures r.Received? ==> d.rest == r.rest
  {
    RpcValid();
    hide Dec, ValidSchema;
    var frag := d.Uint32();
    if frag == None { return Failed; }
    if frag.value < LAST_FRAGMENT { return Failed; }
    var restSize := frag.value - LAST_FRAGMENT;
    var before := d.count;
    var header := d.DecodeReflect(RPC, Struct("RPCMsgCall"));
    if header == None { return Failed; }
    restSize := restSize - (d.count - before);
    if MsgType(header.value) != RPC_CALL { return Failed; }
    if restSize < 0 { return Panics; }
    var data := d.ReadFull(restSize);
    if data == None { return Failed; }
    r := Received(header.value, data.value, d.rest);
  }

  datatype Message = Message(header: Value, body: seq<byte>)

  function HeaderBytes(m: Message): seq<byte> { Enc(RPC, Struct("RPCMsgCall"), m.header).bytes }

  /** A call that fits one record. */
  ghost predicate Sendable(m: Message) {
    && Fits(RPC, Struct("RPCMsgCall"), m.header) && MsgType(m.header) == RPC_CALL
    && |HeaderBytes(m)| + |m.body| < LAST_FRAGMENT
  }

  function Frame(m: Message): seq<byte>
    requires |HeaderBytes(m)| + |m.body| < LAST_FRAGMENT
  {
    U32Bytes(LAST_FRAGMENT + |HeaderBytes(m)| + |m.body|) + (HeaderBytes(m) + m.body)
  }

  /** One record, whatever follows it on the connection. */
  lemma ReceiveFrame(m: Message, rest: seq<byte>)
    requires Sendable(m)
    ensures Receive(Frame(m) + rest) == Received(m.header, m.body, rest)
  {
    RpcValid();
    hide Dec, Enc, Fits, ValidSchema, BigEndian;
    var frag := LAST_FRAGMENT + |HeaderBytes(m)| + |m.body|;
    var k := HeaderBytes(m) + m.body + rest;
    Assoc(U32Bytes(frag), HeaderBytes(m) + m.body, rest);
    GetPutWord(frag, k);
    Assoc(HeaderBytes(m), m.body, rest);
    RoundTrip(RPC, Struct("RPCMsgCall"), m.header, m.body + rest);
    assert (m.body + rest)[..|m.body|] == m.body && (m.body + rest)[|m.body|..] == rest;
  }

  ghost function Frames(ms: seq<Message>): seq<byte>
    requires forall i :: 0 <= i < |ms| ==> Sendable(ms[i])
  {
    if ms == [] then [] else assert Sendable(ms[0]); Frame(ms[0]) + Frames(ms[1..])
  }

  /** ReceiveCall repeated while it succeeds: the messages, and the bytes it stopped at. */
  function ReceiveAll(b: seq<byte>): (r: (seq<Message>, seq<byte>))
    decreases |b|
  {
    match Receive(b)
    case Received(h, body, rest) =>
      Consumed(b);
      var tail := ReceiveAll(rest);
      ([Message(h, body)] + tail.0, tail.1)
    case _ => ([], b)
  }

  /** A successful ReceiveCall has taken exactly the record: four bytes and what they announce. */
  lemma Consumed(b: seq<byte>)
    requires Receive(b).Received?
    ensures var r, frag := Receive(b), U32Of(b[..4]);
            && |b| >= 4 && |b| == 4 + (frag - LAST_FRAGMENT) + |r.rest|
            && r.rest == b[|b| - |r.rest|..]
            && frag - LAST_FRAGMENT == |HeaderBytes(Message(r.header, r.body))| + |r.body|
            && Sendable(Message(r.header, r.body))
  {
    RpcValid();
    hide Dec, Enc, Fits, ValidSchema, BigEndian;
    Consumes(RPC, Struct("RPCMsgCall"), b[4..]);
  }

  /** Any list of calls, sent one after the other, arrives as that list, with nothing left over. */
  lemma {:induction false} FramesArrive(ms: seq<Message>)
    requires forall i :: 0 <= i < |ms| ==> Sendable(ms[i])
    ensures ReceiveAll(Frames(ms)) == (ms, [])
    decreases ms
  {
    hide ValidSchema, Sendable, Frame, Receive;
    if ms == [] {
      NothingToReceive();
    } else {
      FramesArrive(ms[1..]);
      ReceiveFrame(ms[0], Frames(ms[1..]));
      assert [ms[0]] + ms[1..] == ms;
    }
  }

  lemma NothingToReceive()
    ensures Receive([]) == Failed
  {
  }

  // ---------------------------------------------------------------- a header longer than its record

  /** ReceiveCall panics, allocating a negative size, exactly if a last fragment starts with a CALL
      header that is longer, as it would be encoded, than the record it announces. */
  lemma PanicsExactlyIf(b: seq<byte>)
    ensures ValidSchema(RPC)
    ensures Receive(b) == Panics <==>
            && |b| >= 4 && U32Of(b[..4]) >= LAST_FRAGMENT
            && var r := Dec(RPC, Struct("RPCMsgCall"), b[4..]);
               r.Got? && MsgType(r.value) == RPC_CALL
               && |Enc(RPC, Struct("RPCMsgCall"), r.value).bytes| > U32Of(b[..4]) - LAST_FRAGMENT
  {
    RpcValid();
    hide Dec, Enc, Fits, ValidSchema, BigEndian;
    if |b| >= 4 && Dec(RPC, Struct("RPCMsgCall"), b[4..]).Got? {
      Consumes(RPC, Struct("RPCMsgCall"), b[4..]);
    }
  }

  /** So every CALL header does, under any smaller announced length and whatever follows. */
  lemma LongHeaderPanics(header: Value, announced: nat, rest: seq<byte>)
    requires Fits(RPC, Struct("RPCMsgCall"), header) && MsgType(header) == RPC_CALL
    requires announced < |Enc(RPC, Struct("RPCMsgCall"), header).bytes| && announced < LAST_FRAGMENT
    ensures var encoded := Enc(RPC, Struct("RPCMsgCall"), header).bytes;
            Receive(U32Bytes(LAST_FRAGMENT + announced) + (encoded + rest)) == Panics
  {
    RpcValid();
    hide Dec, Enc, Fits, ValidSchema, BigEndian;
    var k := Enc(RPC, Struct("RPCMsgCall"), header).bytes + rest;
    GetPutWord(LAST_FRAGMENT + announced, k);
    RoundTrip(RPC, Struct("RPCMsgCall"), header, rest);
  }

  const NO_AUTH := VList([VInt(0), VOpaque([])])
  const EMPTY_CALL := [VInt(0), VInt(0), VInt(0), VInt(0), VInt(0), VInt(0), NO_AUTH, NO_AUTH]

  lemma NoAuthFits()
    ensures Fits(RPC, Struct("Auth"), NO_AUTH)
  {
    WordFits(RPC, 0);
    OpaqueFits(RPC, []);
    hide Fits;
    StructFits(RPC, "Auth", NO_AUTH.vs);
  }

  lemma EmptyCallFits()
    ensures Fits(RPC, Struct("RPCMsgCall"), VList(EMPTY_CALL)) && MsgType(VList(EMPTY_CALL)) == RPC_CALL
  {
    WordFits(RPC, 0);
    NoAuthFits();
    hide Fits;
    StructFits(RPC, "RPCMsgCall", EMPTY_CALL);
  }

  lemma EmptyCallLong()
    ensures |Enc(RPC, Struct("RPCMsgCall"), VList(EMPTY_CALL)).bytes| > 0
  {
    var rest := EncFields(RPC, CALL.fields[1..], EMPTY_CALL[1..]);
    hide EncFields, BigEndian;
    var all := Fields(RPC, CALL.fields, EMPTY_CALL, rest);
  }

  /** One such record: it announces nothing and holds a call. */
  lemma EmptyRecordPanics()
    ensures Receive(U32Bytes(LAST_FRAGMENT) + (Enc(RPC, Struct("RPCMsgCall"), VList(EMPTY_CALL)).bytes + [])) == Panics
  {
    hide Receive, Enc, Fits, BigEndian;
    EmptyCallFits();
    EmptyCallLong();
    LongHeaderPanics(VList(EMPTY_CALL), 0, []);
  }

  // ---------------------------------------------------------------- replies

  /** uint32(length) | 1<<31 */
  function Marked(length: nat): u32 {
    if Truncate32(length) < LAST_FRAGMENT then Truncate32(length) + LAST_FRAGMENT else Truncate32(length)
  }

  /** SendReply: the length word, the reply through Encode as a pointer, the payload. */
  function SendReply(gen: set<string>, reply: Value, payload: seq<byte>): seq<byte> {
    U32Bytes(Marked(12 + |payload|)) + (Encode(RPC, gen, Ptr(Struct("RPCMsgReply")), VRef(reply)).bytes + payload)
  }

  /** The record mark on the wire: the top bit, and the length in the other 31. */
  lemma MarkOnWire(gen: set<string>, reply: Value, payload: seq<byte>)
    requires 12 + |payload| < 0x8000_0000
    ensures var b := SendReply(gen, reply, payload);
            |b| >= 4 && Word4(b[..4], 0x8000_0000 + 12 + |payload|) && b[0] >= 128
  {
    hide BigEndian, Encode;
    var mark := Marked(12 + |payload|);
    WordBytes(mark);
    assert SendReply(gen, reply, payload)[..4] == U32Bytes(mark);
  }

  lemma SecondField(k: seq<byte>)
    ensures ValidSchema(RPC)
    ensures var r := Dec(RPC, Struct("RPCMsgCall"), k);
            r.Got? ==> |k| >= 8 && r.value.VList? && |r.value.vs| > 1 && r.value.vs[1] == VInt(U32Of(k[4..8]))
  {
    RpcValid();
    hide FromBigEndian, BigEndian, ValidSchema, RankAll;
    var fs := CALL.fields;
    var all := DecFields(RPC, fs, k);
    if all.Got? {
      var r0 := Dec(RPC, fs[0], k);
      assert r0.Got? && r0.rest == k[4..];
      var more := DecFields(RPC, fs[1..], k[4..]);
      assert more.Got? && fs[1..][0] == U32_KIND && all.value == [r0.value] + more.value;
      var r1 := Dec(RPC, U32_KIND, k[4..]);
      assert r1.Got? && k[4..][..4] == k[4..8];
      assert more.value[0] == r1.value;
    }
  }

  const U32_KIND := Word(KUint32)

  /** And only if its second word, after the transaction id, says that it is a call. */
  lemma CallOnWire(b: seq<byte>)
    requires Receive(b).Received?
    ensures |b| >= 12 && Word4(b[8..12], 0)
  {
    hide Dec, FromBigEndian, ValidSchema;
    SecondField(b[4..]);
    assert b[4..][4..8] == b[8..12];
    WordOf(b[8..12]);
  }

  /** A call is accepted only with the top bit set, and then takes the length in the other 31. */
  lemma MarkFromWire(b: seq<byte>)
    requires Receive(b).Received?
    ensures |b| >= 4 && b[0] >= 128 && Word4(b[..4], 0x8000_0000 + |b| - 4 - |Receive(b).rest|)
  {
    Consumed(b);
    hide Receive, Sendable, FromBigEndian;
    WordOf(b[..4]);
  }

  lemma ReplyLength(x: u32, t: u32, s: u32)
    ensures |EncFields(RPC, REPLY.fields, [VInt(x), VInt(t), VInt(s)]).bytes| == 12
  {
    hide EncFields, BigEndian;
    var fs, vs := REPLY.fields, [VInt(x), VInt(t), VInt(s)];
    var none := NoFields(RPC);
    assert fs[2..][1..] == [] && vs[2..][1..] == [];
    var two := Fields(RPC, fs[2..], vs[2..], none);
    var one := Fields(RPC, fs[1..], vs[1..], two);
    var all := Fields(RPC, fs, vs, one);
  }

  /** The length word of a reply tells the bytes that follow it exactly if the reply's codec is the
      generated one, which writes no pointer flag, and the record is shorter than 2^31. */
  lemma ReplyFramed(gen: set<string>, x: u32, t: u32, s: u32, payload: seq<byte>)
    ensures var b := SendReply(gen, VList([VInt(x), VInt(t), VInt(s)]), payload);
            Marked(12 + |payload|) - LAST_FRAGMENT == |b| - 4
            <==> HasCodec(RPC, gen, "RPCMsgReply") && 12 + |payload| < LAST_FRAGMENT
  {
    RpcValid();
    RpcPlain();
    var reply := VList([VInt(x), VInt(t), VInt(s)]);
    ReplyHasShape(x, t, s);
    PointerLength(gen, reply, 12) by { ReplyLength(x, t, s); ReplyEncodes(reply); }
  }

  lemma ReplyHasShape(x: u32, t: u32, s: u32)
    ensures HasShape(RPC, Struct("RPCMsgReply"), VList([VInt(x), VInt(t), VInt(s)]))
  {
    assert forall n: u32 :: HasShape(RPC, Word(KUint32), VInt(n));
  }

  lemma ReplyEncodes(reply: Value)
    requires reply.VList?
    ensures Enc(RPC, Struct("RPCMsgReply"), reply) == EncFields(RPC, REPLY.fields, reply.vs)
  {
  }

  lemma PointerLength(gen: set<string>, reply: Value, n: nat)
    requires ValidSchema(RPC) && PlainSchema(RPC) && HasShape(RPC, Struct("RPCMsgReply"), reply)
    requires |Enc(RPC, Struct("RPCMsgReply"), reply).bytes| == n
    ensures |Encode(RPC, gen, Ptr(Struct("RPCMsgReply")), VRef(reply)).bytes|
         == if HasCodec(RPC, gen, "RPCMsgReply") then n else n + 4
  {
    hide ValidSchema, PlainSchema, HasShape, Enc, Encode;
    PointerEncoding(RPC, gen, "RPCMsgReply", reply);
  }
}

/** A COMPOUND reply as its reader takes it apart (section 15.2 of RFC 7530): header, then for every
    result its operation, its status and its body. */
module CompoundReply {
  import opened Octets
  import opened XdrSchema
  import opened XdrLaws
  import opened M = Compound

  const U32 := Word(KUint32)

  /** The next word of a reply. */
  function Number(b: seq<byte>): Option<(u32, seq<byte>)> {
    HeadValid();
    match Dec(HEAD, U32, b)
    case Got(VInt(n), rest) => if 0 <= n < TWO32 then Some((n, rest)) else None
    case _ => None
  }

  /** The results, by a reader who knows how long each body is; none if bytes are missing or left over. */
  function ReadResults(b: seq<byte>, sizes: seq<nat>): Option<seq<Op>>
    decreases |sizes|
  {
    if sizes == [] then if b == [] then Some([]) else None
    else
      var op := Number(b);
      if op.None? then None
      else
        var status := Number(op.value.1);
        if status.None? || |status.value.1| < sizes[0] then None
        else
          var body, rest := status.value.1[..sizes[0]], status.value.1[sizes[0]..];
          var more := ReadResults(rest, sizes[1..]);
          if more.None? then None else Some([Done(op.value.0, status.value.0, body)] + more.value)
  }

  function Sizes(ops: seq<Op>): (r: seq<nat>)
    requires forall k :: 0 <= k < |ops| ==> ops[k].Done?
    ensures |r| == |ops|
  {
    seq(|ops|, k requires 0 <= k < |ops| => |ops[k].body|)
  }

  lemma NumberReads(n: u32, rest: seq<byte>)
    ensures Number(U32Bytes(n) + rest) == Some((n, rest))
  {
    hide BigEndian, FromBigEndian, ValidSchema;
    GetPutWord(n, rest);
  }

  lemma OneResult(o: Op, rest: seq<byte>)
    requires o.Done?
    ensures Number(OpBytes(o) + rest) == Some((o.op, U32Bytes(o.status) + (o.body + rest)))
    ensures Number(U32Bytes(o.status) + (o.body + rest)) == Some((o.status, o.body + rest))
  {
    hide BigEndian, Number;
    assert OpBytes(o) + rest == U32Bytes(o.op) + (U32Bytes(o.status) + (o.body + rest));
    NumberReads(o.op, U32Bytes(o.status) + (o.body + rest));
    NumberReads(o.status, o.body + rest);
  }

  lemma {:induction false} ResultsFirst(ops: seq<Op>)
    requires ops != []
    ensures Results(ops) == OpBytes(ops[0]) + Results(ops[1..])
    decreases |ops|
  {
    hide OpBytes;
    var n := |ops| - 1;
    if n == 0 {
      assert ops[1..] == [] && ops[..0] == [] && Results([]) == [];
      assert [] + OpBytes(ops[0]) == OpBytes(ops[0]) + [];
    } else {
      ResultsFirst(ops[..n]);
      assert ops[..n][1..] == ops[1..][..n - 1];
      Assoc(OpBytes(ops[0]), Results(ops[1..n]), OpBytes(ops[n]));
      assert ops[1..n] == ops[1..][..n - 1];
    }
  }

  lemma {:induction false} ResultsRead(ops: seq<Op>)
    requires forall k :: 0 <= k < |ops| ==> ops[k].Done?
    ensures ReadResults(Results(ops), Sizes(ops)) == Some(ops)
    decreases |ops|
  {
    hide OpBytes, Number, Results;
    if ops == [] {
      NoResults();
    } else {
      var o, tail := ops[0], ops[1..];
      ResultsRead(tail);
      ResultsFirst(ops);
      OneResult(o, Results(tail));
      assert Sizes(ops)[0] == |o.body| && Sizes(ops)[1..] == Sizes(tail);
      var b := o.body + Results(tail);
      assert b[..|o.body|] == o.body && b[|o.body|..] == Results(tail);
      assert [o] + tail == ops;
    }
  }

  lemma NoResults()
    ensures Results([]) == []
  {
  }

  /** What a client finds in the reply to a compound of which n operations ran: the status of the last
      one, their number, and then of each operation, in order, its number, its status and its body,
      with nothing left over. */
  lemma ReplyTellsAll(h: Head, ops: seq<Op>, n: nat)
    requires 0 < n <= |ops| && n < TWO32 && |h.verf| < TWO32 && |h.tag| < TWO32
    requires forall k :: 0 <= k < n ==> ops[k].Done?
    ensures ValidSchema(HEAD)
    ensures var r := Dec(HEAD, Struct("Head"), ReplyBytes(h, ops, n));
            && r.Got? && r.value == VList(HeadValues(h, n, ops[n - 1].status))
            && ReadResults(r.rest, Sizes(ops[..n])) == Some(ops[..n])
  {
    hide Dec, Results, ReadResults, ValidSchema;
    ReplyReads(h, ops, n);
    ResultsRead(ops[..n]);
  }

  /** The same for a refusal: one result without a body. */
  lemma RefusalTells(h: Head, op: u32, status: u32)
    requires |h.verf| < TWO32 && |h.tag| < TWO32
    ensures ValidSchema(HEAD)
    ensures var r := Dec(HEAD, Struct("Head"), SingleBytes(h, op, status));
            && r.Got? && r.value == VList(HeadValues(h, 1, status))
            && ReadResults(r.rest, [0]) == Some([Done(op, status, [])])
  {
    var o := Done(op, status, []);
    ReplyTellsAll(h, [o], 1);
    assert [o][..1] == [o] && [o][..0] == [] && Sizes([o]) == [0];
    assert Results([o]) == [] + OpBytes(o) == OpBytes(o);
    assert OpBytes(o) == U32Bytes(op) + U32Bytes(status);
    hide Dec, ReadResults, ValidSchema, BigEndian;
  }

  /** By number: the statuses that end a compound, and the operations that may come first in
      version 4.1. */
  lemma ByNumber(n: u32)
    ensures Fatal(n) <==> n in {70, 10004, 10006, 10014, 10044, 10071}
    ensures AllowedFirst41(n) <==> n in {41, 42, 43, 44, 53}
  {
  }

  // ---------------------------------------------------------------- SEQUENCE's own result

  const SEQUENCE_FIELDS := [ByteArray(16), U32, U32, U32, U32, U32]
  const SEQ := Schema(map["SEQUENCE4resok" := Def(false, SEQUENCE_FIELDS)], map["SEQUENCE4resok" := 0])

  lemma SeqValid()
    ensures ValidSchema(SEQ)
  {
    RankZero(SEQ, SEQUENCE_FIELDS);
  }

  function SequenceValues(a: SequenceArgs): seq<Value> {
    [VOpaque(a.sessionID), VInt(a.sequenceID), VInt(a.slotID), VInt(15), VInt(15), VInt(0)]
  }

  lemma SequenceFits(a: SequenceArgs)
    requires |a.sessionID| == 16
    ensures Fits(SEQ, Struct("SEQUENCE4resok"), VList(SequenceValues(a)))
  {
    assert Fits(SEQ, ByteArray(16), VOpaque(a.sessionID));
    WordFits(SEQ, a.sequenceID);
    WordFits(SEQ, a.slotID);
    WordFits(SEQ, 15);
    WordFits(SEQ, 0);
    hide Fits;
    StructFits(SEQ, "SEQUENCE4resok", SequenceValues(a));
  }

  lemma WordEncodes(n: u32)
    ensures Enc(SEQ, U32, VInt(n)) == Out(U32Bytes(n), true)
  {
  }

  lemma LimitsEncode(a: SequenceArgs) returns (out: Out)
    ensures out == EncFields(SEQ, SEQUENCE_FIELDS[3..], SequenceValues(a)[3..])
    ensures out == Out(U32Bytes(15) + (U32Bytes(15) + (U32Bytes(0) + [])), true)
  {
    hide EncFields, BigEndian, Enc;
    var fs, vs := SEQUENCE_FIELDS, SequenceValues(a);
    WordEncodes(15);
    WordEncodes(0);
    var six := NoFields(SEQ);
    assert fs[5..][1..] == [] && vs[5..][1..] == [];
    var five := Fields(SEQ, fs[5..], vs[5..], six);
    var four := Fields(SEQ, fs[4..], vs[4..], five);
    out := Fields(SEQ, fs[3..], vs[3..], four);
  }

  lemma SequenceEncodes(a: SequenceArgs)
    requires |a.sessionID| == 16
    ensures EncFields(SEQ, SEQUENCE_FIELDS, SequenceValues(a)) == Out(SequenceResult(a).body, true)
  {
    var fs, vs := SEQUENCE_FIELDS, SequenceValues(a);
    assert Enc(SEQ, ByteArray(16), vs[0]) == Out(a.sessionID, true) by {
      assert a.sessionID + Zeros(0) == a.sessionID;
    }
    hide EncFields, BigEndian, Enc;
    WordEncodes(a.sequenceID);
    WordEncodes(a.slotID);
    var three := LimitsEncode(a);
    var two := Fields(SEQ, fs[2..], vs[2..], three);
    var one := Fields(SEQ, fs[1..], vs[1..], two);
    var all := Fields(SEQ, fs, vs, one);
    SixParts(a.sessionID, U32Bytes(a.sequenceID), U32Bytes(a.slotID), U32Bytes(15), U32Bytes(15), U32Bytes(0));
  }

  lemma SixParts(a: seq<byte>, b: seq<byte>, c: seq<byte>, d: seq<byte>, e: seq<byte>, f: seq<byte>)
    ensures a + (b + (c + (d + (e + (f + []))))) == a + b + c + d + e + f
  {
  }

  /** SEQUENCE tells the client its own session, number and slot, and that 15 is the highest slot. */
  lemma SequenceTells(a: SequenceArgs)
    requires |a.sessionID| == 16
    ensures ValidSchema(SEQ)
    ensures SequenceResult(a).op == 53 && SequenceResult(a).status == 0
    ensures Dec(SEQ, Struct("SEQUENCE4resok"), SequenceResult(a).body) == Got(VList(SequenceValues(a)), [])
  {
    SeqValid();
    hide Dec, Fits, EncFields, ValidSchema, BigEndian;
    SequenceFits(a);
    SequenceEncodes(a);
    RoundTrip(SEQ, Struct("SEQUENCE4resok"), VList(SequenceValues(a)), []);
    assert SequenceResult(a).body + [] == SequenceResult(a).body;
  }
}

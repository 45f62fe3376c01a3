/** COMPOUND replies (mux_v4.go Compound.Run and RunSequence): a header written before the results
    and rewritten in place after them. */
module Compound {
  import opened Octets
  import opened XdrSchema
  import opened XdrLaws
  import opened Bufpool
  import S = Slots
  import B = XdrBuf

  const NFS4_OK: u32 := 0
  const NFS4ERR_STALE: u32 := 70
  const NFS4ERR_NOTSUPP: u32 := 10004
  const NFS4ERR_SERVERFAULT: u32 := 10006
  const NFS4ERR_FHEXPIRED: u32 := 10014
  const NFS4ERR_OP_ILLEGAL: u32 := 10044
  const NFS4ERR_SEQ_MISORDERED: u32 := 10063
  const NFS4ERR_RETRY_UNCACHED_REP: u32 := 10068
  const NFS4ERR_OP_NOT_IN_SESSION: u32 := 10071
  const NFS4ERR_DEADSESSION: u32 := 10078
  const NFS4ERR_NOT_ONLY_OP: u32 := 10081

  const OP4_BIND_CONN_TO_SESSION: u32 := 41
  const OP4_EXCHANGE_ID: u32 := 42
  const OP4_CREATE_SESSION: u32 := 43
  const OP4_DESTROY_SESSION: u32 := 44
  const OP4_SEQUENCE: u32 := 53
  const MAX_SLOT_ID: u32 := 15

  predicate AllowedFirst41(op: u32) {
    op == OP4_CREATE_SESSION || op == OP4_DESTROY_SESSION || op == OP4_SEQUENCE
    || op == OP4_BIND_CONN_TO_SESSION || op == OP4_EXCHANGE_ID
  }

  /** The statuses that end a compound: fewer than "any error", as section 15.2 of RFC 7530 has it. */
  predicate Fatal(status: u32) {
    || status == NFS4ERR_OP_ILLEGAL || status == NFS4ERR_OP_NOT_IN_SESSION || status == NFS4ERR_SERVERFAULT
    || status == NFS4ERR_NOTSUPP || status == NFS4ERR_FHEXPIRED || status == NFS4ERR_STALE
  }

  /** What an operation comes to: a status and a result body, an error return, or no return, because
      its number or its arguments are cut short (XdrBuf). */
  datatype Op = Done(op: u32, status: u32, body: seq<byte>) | Error | Stuck

  datatype Head = Head(flavor: u32, verf: seq<byte>, tag: seq<byte>)

  /** WriteHeader: the accepted reply's verifier and status, then the compound's. */
  function Header(h: Head, count: nat, status: u32): seq<byte> {
    U32Bytes(h.flavor) + (PutOpaque(h.verf).bytes + (U32Bytes(0) + (U32Bytes(status)
      + (PutOpaque(h.tag).bytes + U32Bytes(Truncate32(count))))))
  }

  function OpBytes(o: Op): seq<byte> {
    if o.Done? then U32Bytes(o.op) + U32Bytes(o.status) + o.body else []
  }

  function Results(ops: seq<Op>): seq<byte> {
    if ops == [] then [] else Results(ops[..|ops| - 1]) + OpBytes(ops[|ops| - 1])
  }

  /** Past the last operation the input is used up, and reading the next one's number sticks
      (CompoundInput derives the operations from the bytes). */
  function At(ops: seq<Op>, i: nat): Op { if i < |ops| then ops[i] else Stuck }

  /** How the loop ends: after n operations, with an error, or not at all. */
  datatype Course = Ran(n: nat) | Fails | Sticks

  /** The loop, i operations having been begun. The first always runs, even if the count says zero. */
  function CourseOf(ops: seq<Op>, count: nat, i: nat): Course
    requires i > 0
    decreases count - i
  {
    match At(ops, i - 1)
    case Error => Fails
    case Stuck => Sticks
    case Done(_, status, _) => if i < count && !Fatal(status) then CourseOf(ops, count, i + 1) else Ran(i)
  }

  /** The reply: a header with the last status and the number of results, then the results. */
  function ReplyBytes(h: Head, ops: seq<Op>, n: nat): seq<byte>
    requires 0 < n <= |ops| && ops[n - 1].Done?
  {
    Header(h, n, ops[n - 1].status) + Results(ops[..n])
  }

  function SingleBytes(h: Head, op: u32, status: u32): seq<byte> {
    Header(h, 1, status) + (U32Bytes(op) + U32Bytes(status))
  }

  // ---------------------------------------------------------------- what the reply says

  /** The operations before the n-th have run, none of them ending the compound. */
  ghost predicate Reaches(ops: seq<Op>, count: nat, n: nat) {
    n <= |ops| && (n == 0 || n < count) && forall k :: 0 <= k < n ==> ops[k].Done? && !Fatal(ops[k].status)
  }

  lemma {:induction false} CourseMeans(ops: seq<Op>, count: nat, i: nat)
    requires i > 0 && Reaches(ops, count, i - 1)
    ensures match CourseOf(ops, count, i)
            case Ran(n) => 0 < n && Reaches(ops, count, n - 1) && n <= |ops| && ops[n - 1].Done?
                           && (n >= count || Fatal(ops[n - 1].status))
            case Fails => exists n :: 0 <= n < |ops| && Reaches(ops, count, n) && ops[n].Error?
            case Sticks => exists n :: Reaches(ops, count, n) && At(ops, n).Stuck?
    decreases count - i
  {
    var o := At(ops, i - 1);
    if o.Done? {
      if i < count && !Fatal(o.status) { CourseMeans(ops, count, i + 1); }
    } else {
      assert Reaches(ops, count, i - 1);
    }
  }

  /** Which operations run: the first n, where every one but the last ended with a status that is
      not fatal, and the last one is the last requested or ended fatally. The compound fails exactly
      at an operation that returns an error, and never returns exactly if it reaches one that is
      stuck or missing. */
  lemma RanMeans(ops: seq<Op>, count: nat)
    ensures match CourseOf(ops, count, 1)
            case Ran(n) =>
              && 0 < n <= |ops| && (n <= count || n == 1) && ops[n - 1].Done?
              && (forall k :: 0 <= k < n - 1 ==> ops[k].Done? && !Fatal(ops[k].status))
              && (n >= count || Fatal(ops[n - 1].status))
            case Fails => exists n :: 0 <= n < |ops| && Reaches(ops, count, n) && ops[n].Error?
            case Sticks => exists n :: Reaches(ops, count, n) && At(ops, n).Stuck?
  {
    CourseMeans(ops, count, 1);
  }

  lemma {:induction false} ReachedCourse(ops: seq<Op>, count: nat, i: nat, n: nat)
    requires 0 < i <= n + 1 && Reaches(ops, count, n)
    ensures CourseOf(ops, count, i) == CourseOf(ops, count, n + 1)
    decreases n + 1 - i
  {
    if i <= n { ReachedCourse(ops, count, i + 1, n); }
  }

  /** And the other way round: a compound that reaches a stuck or missing operation never returns. */
  lemma SticksExactlyIf(ops: seq<Op>, count: nat)
    ensures CourseOf(ops, count, 1).Sticks? <==> exists n :: Reaches(ops, count, n) && At(ops, n).Stuck?
  {
    RanMeans(ops, count);
    forall n | Reaches(ops, count, n) && At(ops, n).Stuck?
      ensures CourseOf(ops, count, 1).Sticks?
    {
      ReachedCourse(ops, count, 1, n);
    }
  }

  /** Operation: reading an operation's number from what is left of the compound returns exactly if
      four bytes are left, in whatever number of turns of io.ReadFull. */
  lemma NumberMissing(b: seq<byte>)
    ensures ValidSchema(HEAD)
    ensures (exists t :: B.AfterTurns(HEAD, Word(KUint32), b, t) != B.Spent) <==> |b| >= 4
  {
    HeadValid();
    hide ValidSchema;
    B.ReturnsExactlyIf(HEAD, Word(KUint32), b);
  }

  /** An error that is not fatal does not end the compound, although section 15.2 of RFC 7530 lets
      no operation follow a failed one. */
  lemma GoesOnAfterError(o: Op, o': Op)
    requires o.Done? && o'.Done? && o.status != NFS4_OK && !Fatal(o.status)
    ensures CourseOf([o, o'], 2, 1) == Ran(2)
  {
    assert CourseOf([o, o'], 2, 2) == Ran(2);
  }

  /** The header's length does not depend on what is rewritten. */
  lemma HeaderLength(h: Head, n: nat, s: u32, n': nat, s': u32)
    ensures |Header(h, n, s)| == |Header(h, n', s')|
  {
  }

  // The reply's head as a struct: what WriteHeader passes to EncodeAll.
  const HEAD_FIELDS := [Word(KUint32), Opaque, Word(KUint32), Word(KUint32), Opaque, Word(KUint32)]
  const HEAD := Schema(map["Head" := Def(false, HEAD_FIELDS)], map["Head" := 0])

  function HeadValues(h: Head, n: nat, status: u32): seq<Value> {
    [VInt(h.flavor), VOpaque(h.verf), VInt(0), VInt(status), VOpaque(h.tag), VInt(n)]
  }

  /** A client that reads the reply in the order of section 15.2 of RFC 7530 finds, after verifier,
      accept status and tag, the status of the last result, the number of results, and the results. */
  lemma ReplyReads(h: Head, ops: seq<Op>, n: nat)
    requires 0 < n <= |ops| && ops[n - 1].Done? && n < TWO32 && |h.verf| < TWO32 && |h.tag| < TWO32
    ensures ValidSchema(HEAD)
    ensures Dec(HEAD, Struct("Head"), ReplyBytes(h, ops, n))
         == Got(VList(HeadValues(h, n, ops[n - 1].status)), Results(ops[..n]))
  {
    hide Dec, Fits, EncFields, Results;
    HeadFits(h, n, ops[n - 1].status);
    RoundTrip(HEAD, Struct("Head"), VList(HeadValues(h, n, ops[n - 1].status)), Results(ops[..n]));
    HeaderEncodes(h, n, ops[n - 1].status);
  }

  lemma HeadValid()
    ensures ValidSchema(HEAD)
  {
    RankZero(HEAD, HEAD_FIELDS);
  }

  lemma HeadFits(h: Head, n: nat, status: u32)
    requires n < TWO32 && |h.verf| < TWO32 && |h.tag| < TWO32
    ensures ValidSchema(HEAD) && Fits(HEAD, Struct("Head"), VList(HeadValues(h, n, status)))
  {
    hide Fits, ValidSchema;
    HeadValid();
    var fs, vs := HEAD_FIELDS, HeadValues(h, n, status);
    forall i | 0 <= i < |fs| ensures Fits(HEAD, fs[i], vs[i]) {
      if i == 1 || i == 4 { OpaqueFits(HEAD, vs[i].s); } else { WordFits(HEAD, vs[i].i); }
    }
    StructFits(HEAD, "Head", vs);
  }

  lemma HeaderEncodes(h: Head, n: nat, status: u32)
    requires n < TWO32
    ensures EncFields(HEAD, HEAD_FIELDS, HeadValues(h, n, status)) == Out(Header(h, n, status), true)
  {
    hide EncFields, BigEndian;
    var fs, vs := HEAD_FIELDS, HeadValues(h, n, status);
    var three := LastThree(h, n, status);
    var two := Fields(HEAD, fs[2..], vs[2..], three);
    var one := Fields(HEAD, fs[1..], vs[1..], two);
    var all := Fields(HEAD, fs, vs, one);
  }

  lemma LastThree(h: Head, n: nat, status: u32) returns (out: Out)
    requires n < TWO32
    ensures out == EncFields(HEAD, HEAD_FIELDS[3..], HeadValues(h, n, status)[3..])
                == Out(U32Bytes(status) + (PutOpaque(h.tag).bytes + U32Bytes(n)), true)
  {
    hide EncFields, BigEndian;
    var fs, vs := HEAD_FIELDS, HeadValues(h, n, status);
    var six := NoFields(HEAD);
    assert fs[5..][1..] == [] && vs[5..][1..] == [];
    var five := Fields(HEAD, fs[5..], vs[5..], six);
    assert five.bytes == U32Bytes(n) + [] == U32Bytes(n);
    var four := Fields(HEAD, fs[4..], vs[4..], five);
    out := Fields(HEAD, fs[3..], vs[3..], four);
  }

  // ---------------------------------------------------------------- the loops over a buffer

  lemma Rewritten(raw: seq<byte>, w: nat, head: seq<byte>, head': seq<byte>, body: seq<byte>, raw': seq<byte>)
    requires w <= |raw| && raw[..w] == head + body && |head| == |head'| && raw' == Overwrite(raw, 0, head')
    ensures w <= |raw'| && raw'[..w] == head' + body
  {
    assert raw[..w][|head|..] == body;
    assert raw[|head|..w] == body;
  }

  /** RewriteHeaderIfNeeded: a header of the same length goes over the first one; no byte of the
      results moves, whether or not the buffer is regrown. */
  method RewriteHeaderIfNeeded(h: Head, requested: nat, count: nat, status: u32, out: Buf, ghost body: seq<byte>)
    requires out.Valid() && out.r == 0 && out.Content() == Header(h, requested, NFS4_OK) + body
    modifies out, out.buf
    ensures out.Valid() && out.r == 0 && (out.buf == old(out.buf) || fresh(out.buf))
    ensures out.Content() == Header(h, count, status) + body
  {
    if status == NFS4_OK && count == requested { return; }
    HeaderLength(h, requested, NFS4_OK, count, status);
    ghost var raw, w := out.buf[..], out.w;
    assert raw[..w] == out.Content();
    var offset := out.SeekWrite(0);
    out.Write(Header(h, count, status));
    Rewritten(raw, w, Header(h, requested, NFS4_OK), Header(h, count, status), body, out.buf[..]);
    assert out.buf[..][..w] == out.buf[..w];
    offset := out.SeekWrite(offset);
  }

  lemma NextResult(ops: seq<Op>, n: nat)
    requires n < |ops|
    ensures Results(ops[..n + 1]) == Results(ops[..n]) + OpBytes(ops[n])
    ensures Results(ops[..0]) == [] && (n == 0 ==> Results(ops[..1]) == OpBytes(ops[0]))
  {
    hide OpBytes;
    assert ops[..n + 1][..n] == ops[..n] && ops[..n + 1] != [];
    assert ops[..0] == [] && Results([]) == [];
    if n == 0 { assert [] + OpBytes(ops[0]) == OpBytes(ops[0]); }
  }

  lemma CourseStep(ops: seq<Op>, count: nat, i: nat)
    requires i > 0
    ensures At(ops, i - 1).Error? ==> CourseOf(ops, count, i) == Fails
    ensures At(ops, i - 1).Stuck? ==> CourseOf(ops, count, i) == Sticks
    ensures At(ops, i - 1).Done? ==>
              CourseOf(ops, count, i)
              == if i < count && !Fatal(At(ops, i - 1).status) then CourseOf(ops, count, i + 1) else Ran(i)
  {
  }

  /** The part that Run and RunSequence share, if it returns: the header, the operations up to the
      first fatal status, the header again. */
  method RunOperations(h: Head, count: nat, ops: seq<Op>, out: Buf) returns (ok: bool)
    requires out.Valid() && out.r == 0 && out.w == 0
    requires !CourseOf(ops, count, 1).Sticks?
    modifies out, out.buf
    ensures out.Valid() && out.r == 0 && (out.buf == old(out.buf) || fresh(out.buf))
    ensures ok <==> CourseOf(ops, count, 1).Ran?
    ensures ok ==> var n := CourseOf(ops, count, 1).n;
                   0 < n <= |ops| && ops[n - 1].Done? && out.Content() == ReplyBytes(h, ops, n)
  {
    hide Header, OpBytes, Overwrite, Results, CourseOf, Fatal;
    out.Write(Header(h, count, NFS4_OK));
    CourseStep(ops, count, 1);
    if At(ops, 0).Error? { return false; }
    NextResult(ops, 0);
    out.Write(OpBytes(ops[0]));
    var lastStatus, executed := ops[0].status, 1;
    while executed < count && !Fatal(lastStatus)
      invariant 1 <= executed <= |ops| && ops[executed - 1].Done? && lastStatus == ops[executed - 1].status
      invariant out.Valid() && out.r == 0 && (out.buf == old(out.buf) || fresh(out.buf))
      invariant out.Content() == Header(h, count, NFS4_OK) + Results(ops[..executed])
      invariant CourseOf(ops, count, 1) == CourseOf(ops, count, executed)
      decreases count - executed
    {
      CourseStep(ops, count, executed);
      CourseStep(ops, count, executed + 1);
      if At(ops, executed).Error? { return false; }
      out.Write(OpBytes(ops[executed]));
      NextResult(ops, executed);
      Assoc(Header(h, count, NFS4_OK), Results(ops[..executed]), OpBytes(ops[executed]));
      lastStatus := ops[executed].status;
      executed := executed + 1;
    }
    CourseStep(ops, count, executed);
    RewriteHeaderIfNeeded(h, count, executed, lastStatus, out, Results(ops[..executed]));
    ok := true;
  }

  method WriteHeaderAndSingleOperation(h: Head, op: u32, status: u32, out: Buf)
    requires out.Valid() && out.r == 0 && out.w == 0
    modifies out, out.buf
    ensures out.Valid() && out.r == 0 && (out.buf == old(out.buf) || fresh(out.buf))
    ensures out.Content() == SingleBytes(h, op, status)
  {
    out.Write(Header(h, 1, status));
    out.Write(U32Bytes(op) + U32Bytes(status));
  }

  /** Run, for a compound that does not start with SEQUENCE in version 4.1 or later. ops are what
      the handlers come to, the first one for the operation code that Run reads itself. */
  method Run(h: Head, minorVer: u32, count: nat, ops: seq<Op>, op: u32, out: Buf) returns (ok: bool)
    requires out.Valid() && out.r == 0 && out.w == 0 && (minorVer > 0 ==> op != OP4_SEQUENCE)
    requires minorVer == 0 || (AllowedFirst41(op) && count <= 1) ==> !CourseOf(ops, count, 1).Sticks?
    modifies out, out.buf
    ensures out.Valid()
    ensures minorVer > 0 && !AllowedFirst41(op) ==> ok && out.Content() == SingleBytes(h, op, NFS4ERR_OP_NOT_IN_SESSION)
    ensures minorVer > 0 && AllowedFirst41(op) && count > 1 ==>
              ok && out.Content() == SingleBytes(h, op, NFS4ERR_NOT_ONLY_OP)
    ensures minorVer == 0 || (AllowedFirst41(op) && count <= 1) ==> (ok <==> CourseOf(ops, count, 1).Ran?)
    ensures (minorVer == 0 || (AllowedFirst41(op) && count <= 1)) && ok ==>
              var n := CourseOf(ops, count, 1).n;
              0 < n <= |ops| && ops[n - 1].Done? && out.Content() == ReplyBytes(h, ops, n)
  {
    if minorVer > 0 {
      if !AllowedFirst41(op) {
        WriteHeaderAndSingleOperation(h, op, NFS4ERR_OP_NOT_IN_SESSION, out);
        return true;
      }
      if count > 1 {
        WriteHeaderAndSingleOperation(h, op, NFS4ERR_NOT_ONLY_OP, out);
        return true;
      }
    }
    ok := RunOperations(h, count, ops, out);
  }

  // ---------------------------------------------------------------- SEQUENCE

  class Slot {
    var slotID: u32
    var sequenceID: u32
    var containsData: bool
    var buf: Buf?

    /** A slot of a new session, still without a buffer. */
    constructor (id: u32)
      ensures slotID == id && sequenceID == 0 && !containsData && buf == null
    {
      slotID, sequenceID, containsData, buf := id, 0, false, null;
    }

    ghost predicate Valid()
      reads this, if buf != null then {buf} else {}
    {
      (buf != null ==> buf.Valid()) && (containsData ==> buf != null)
    }

    ghost function View(): S.Slot
      requires Valid()
      reads this, if buf != null then {buf, buf.buf} else {}
    {
      S.Slot(sequenceID, containsData, if buf == null then None else Some(buf.Content()))
    }
  }

  datatype SequenceArgs = SequenceArgs(sessionID: seq<byte>, sequenceID: u32, slotID: u32, cacheThis: bool)

  /** SEQUENCE's own result. */
  function SequenceResult(a: SequenceArgs): Op {
    Done(OP4_SEQUENCE, NFS4_OK, a.sessionID + U32Bytes(a.sequenceID) + U32Bytes(a.slotID)
                                + U32Bytes(MAX_SLOT_ID) + U32Bytes(MAX_SLOT_ID) + U32Bytes(0))
  }

  /** The compound's outcome, were it to run. */
  function OutcomeOf(h: Head, count: nat, ops: seq<Op>): S.Outcome {
    if !CourseOf(ops, count, 1).Ran? then S.Broke
    else
      RanMeans(ops, count);
      S.Reply(ReplyBytes(h, ops, CourseOf(ops, count, 1).n))
  }

  /** RunSequence: without a slot it refuses; on a slot it follows Judge and After, and what it sends
      is the cached bytes, a refusal, or the compound's reply. rest are the operations after SEQUENCE. */
  method RunSequence(h: Head, count: nat, a: SequenceArgs, found: Slot?, rest: seq<Op>, out: Buf) returns (ok: bool)
    requires out.Valid() && out.r == 0 && out.w == 0 && (found != null ==> found.Valid())
    requires found != null && found.buf != null ==> found.buf != out && found.buf.buf != out.buf
    requires found != null && S.Judge(found.View(), a.sequenceID).Execute? ==>
               !CourseOf([SequenceResult(a)] + rest, count, 1).Sticks?
    modifies found, out, out.buf, if found != null && found.buf != null then {found.buf, found.buf.buf} else {}
    ensures out.Valid()
    ensures found == null ==> ok && out.Content() == SingleBytes(h, OP4_SEQUENCE, NFS4ERR_DEADSESSION)
    ensures found != null ==>
              found.Valid()
              && var outcome := OutcomeOf(h, count, [SequenceResult(a)] + rest);
                 var v := old(found.View());
                 && found.View() == S.After(v, S.Request(a.sequenceID, a.cacheThis, outcome))
                 && match S.Judge(v, a.sequenceID)
                    case Replay => ok && v.cache.Some? && out.Content() == v.cache.value
                    case RetryUncached =>
                      ok && out.Content() == SingleBytes(h, OP4_SEQUENCE, NFS4ERR_RETRY_UNCACHED_REP)
                    case Misordered => ok && out.Content() == SingleBytes(h, OP4_SEQUENCE, NFS4ERR_SEQ_MISORDERED)
                    case Execute => ok == outcome.Reply? && (ok ==> out.Content() == outcome.bytes)
  {
    hide SingleBytes, ReplyBytes, SequenceResult, CourseOf;
    if found == null {
      WriteHeaderAndSingleOperation(h, OP4_SEQUENCE, NFS4ERR_DEADSESSION, out);
      return true;
    }
    var slot: Slot := found;
    if slot.sequenceID == a.sequenceID && slot.containsData {
      slot.buf.Copy(out);
      return true;
    }
    if slot.sequenceID == a.sequenceID && slot.buf == null {
      WriteHeaderAndSingleOperation(h, OP4_SEQUENCE, NFS4ERR_RETRY_UNCACHED_REP, out);
      return true;
    }
    if slot.sequenceID != a.sequenceID && Truncate32(slot.sequenceID + 1) != a.sequenceID {
      WriteHeaderAndSingleOperation(h, OP4_SEQUENCE, NFS4ERR_SEQ_MISORDERED, out);
      return true;
    }
    slot.sequenceID := a.sequenceID;
    slot.containsData := a.cacheThis && slot.buf != null;
    ok := RunOperations(h, count, [SequenceResult(a)] + rest, out);
    if ok && slot.containsData {
      out.Copy(slot.buf);
    }
  }
}

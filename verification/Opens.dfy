/** OPEN and CLOSE on a worker's file table (mux_v4.go Open and Close, worker/file.go, fileid.go). */
module Opens {
  import opened Octets
  import W = Worker

  // ---------------------------------------------------------------- the id of an OPEN

  const MAX_SLOT_ID := 15

  /** The id of an OPEN in a compound of NFSv4.1: SequenceID * MaxSlotID + SlotID in uint32. */
  function OpenID(sequence: u32, slot: nat): u32 { (sequence * MAX_SLOT_ID + slot) % TWO32 }

  lemma WrapsWithSequence(s: nat, slot: nat)
    ensures OpenID(s % TWO32, slot) == (15 * s + slot) % TWO32
  {
    var q := s / TWO32;
    assert 15 * s + slot == 15 * (s % TWO32) + slot + TWO32 * (15 * q);
    Wraps(15 * (s % TWO32) + slot, 15 * q);
  }

  lemma {:induction false} Wraps(x: int, q: nat)
    ensures (x + TWO32 * q) % TWO32 == x % TWO32
  {
    if q > 0 {
      Wraps(x, q - 1);
      assert x + TWO32 * q == (x + TWO32 * (q - 1)) + TWO32;
    }
  }

  lemma SameRemainder(x: int, y: int)
    requires -TWO32 < y - x < TWO32
    ensures x % TWO32 == y % TWO32 <==> x == y
  {
  }

  /** The k-th request of a slot carries k mod 2^32. Among any 286331153 consecutive numbers two
      requests share an OPEN id exactly when the one on slot 15 is followed by the other, one number
      later, on slot 0. */
  lemma OpenIDsCollide(s: nat, a: nat, t: nat, b: nat)
    requires a <= MAX_SLOT_ID && b <= MAX_SLOT_ID && s <= t < s + 286331153
    ensures OpenID(s % TWO32, a) == OpenID(t % TWO32, b)
       <==> (s == t && a == b) || (t == s + 1 && a == MAX_SLOT_ID && b == 0)
  {
    hide OpenID;
    WrapsWithSequence(s, a);
    WrapsWithSequence(t, b);
    SameRemainder(15 * s + a, 15 * t + b);
  }

  /** The window cannot be larger: one number more and neighbouring slots collide. */
  lemma WindowIsSharp(s: nat, a: nat)
    requires a < MAX_SLOT_ID
    ensures OpenID(s % TWO32, a) == OpenID((s + 286331153) % TWO32, a + 1)
  {
    hide OpenID;
    WrapsWithSequence(s, a);
    WrapsWithSequence(s + 286331153, a + 1);
    assert 15 * (s + 286331153) + (a + 1) == (15 * s + a) + TWO32 * 1;
    Wraps(15 * s + a, 1);
  }

  // ---------------------------------------------------------------- state ids

  datatype Other = Other(high: u32, low: u32, seqID: u32)

  function FileOther(fileID: u64, seqID: u32): Other { Other(fileID / TWO32, fileID % TWO32, seqID) }
  function FileID(o: Other): u64 { o.high * TWO32 + o.low }

  lemma FileIDRoundTrip(fileID: u64, seqID: u32, o: Other)
    ensures FileID(FileOther(fileID, seqID)) == fileID
    ensures FileOther(FileID(o), o.seqID) == o
  {
  }

  // ---------------------------------------------------------------- one OPEN, one CLOSE

  /** The file is this client's and was opened under this id. */
  predicate Matches(f: W.File, client: nat, seqID: u32) { f.client == client && f.clientSeqID == seqID }

  /** What an OPEN that gets as far as the table does. `file` is the vfs file, or none if a check or
      the file system refused; `index` is the free index that AddFile finds. */
  datatype OpenResult = Opened(fileID: u64) | Refused

  ghost predicate OpenGives(t: W.Tables, client: nat, seqID: u32, file: Option<nat>, index: u64,
                            t': W.Tables, r: OpenResult) {
    if exists i :: i in t.files && Matches(t.files[i], client, seqID) then
      t' == t && r.Opened? && r.fileID in t.files && Matches(t.files[r.fileID], client, seqID)
    else if file.None? then t' == t && r == Refused
    else t' == t.AddFile(index, W.File(file.value, client, seqID)) && r == Opened(index)
  }

  method Open(w: W.Worker, client: nat, seqID: u32, file: Option<nat>, index: u64) returns (r: OpenResult)
    requires index !in w.files
    modifies w
    ensures OpenGives(old(w.View()), client, seqID, file, index, w.View(), r) && w.closed == old(w.closed)
  {
    var found, ok := w.GetFileByClientSeqID(client, seqID);
    if ok { assert Matches(w.files[found], client, seqID); return Opened(found); }
    assert forall i :: i in w.files ==> !Matches(w.files[i], client, seqID);
    if file.None? { return Refused; }
    w.AddFile(index, W.File(file.value, client, seqID));
    r := Opened(index);
  }

  const NFS4_OK: u32 := 0
  const NFS4ERR_BAD_SEQID: u32 := 10026

  /** CLOSE of a file id: the tables after it, the status, and the vfs file that it closes. */
  function CloseGives(t: W.Tables, index: u64, closeStatus: u32): (W.Tables, u32, Option<nat>) {
    if index in t.closedFiles then (t, NFS4_OK, None)
    else if index !in t.files then (t, NFS4ERR_BAD_SEQID, None)
    else (t.RemoveFile(index), closeStatus, Some(t.files[index].obj))
  }

  /** closeStatus is the status of what the file's own Close returns. */
  method Close(w: W.Worker, o: Other, closeStatus: u32) returns (status: u32)
    modifies w
    ensures var (t, s, gone) := CloseGives(old(w.View()), FileID(o), closeStatus);
            && w.View() == t && status == s
            && w.closed == old(w.closed) + if gone.Some? then multiset{gone.value} else multiset{}
  {
    if FileID(o) in w.closedFiles { return NFS4_OK; }
    var f, ok := w.RemoveFile(FileID(o));
    if !ok { return NFS4ERR_BAD_SEQID; }
    w.closed := w.closed + multiset{f.obj};
    status := closeStatus;
  }

  // ---------------------------------------------------------------- runs of OPENs and CLOSEs

  datatype Op =
    | OpOpen(client: nat, seqID: u32, file: Option<nat>, index: u64, result: OpenResult)
    | OpClose(index: u64, closeStatus: u32)

  ghost predicate Next(t: W.Tables, op: Op, t': W.Tables) {
    match op
    case OpOpen(client, seqID, file, index, r) =>
      index !in t.files && OpenGives(t, client, seqID, file, index, t', r)
    case OpClose(index, status) => t' == CloseGives(t, index, status).0
  }

  ghost predicate Run(ts: seq<W.Tables>, ops: seq<Op>) {
    && |ts| == |ops| + 1 && ts[0].files == map[] && ts[0].closedFiles == {}
    && forall k :: 0 <= k < |ops| ==> Next(ts[k], ops[k], ts[k + 1])
  }

  /** No two open files of one client were opened under one id. */
  ghost predicate Unique(t: W.Tables) {
    forall i, j ::
      i in t.files && j in t.files && Matches(t.files[j], t.files[i].client, t.files[i].clientSeqID) ==> i == j
  }

  lemma UniqueKept(t: W.Tables, op: Op, t': W.Tables)
    requires Unique(t) && Next(t, op, t')
    ensures Unique(t')
  {
  }

  lemma {:induction false} RunUnique(ts: seq<W.Tables>, ops: seq<Op>, k: nat)
    requires Run(ts, ops) && k < |ts|
    ensures Unique(ts[k])
  {
    hide Unique, Next;
    if k == 0 {
      EmptyUnique(ts[0]);
    } else {
      RunUnique(ts, ops, k - 1);
      UniqueKept(ts[k - 1], ops[k - 1], ts[k]);
    }
  }

  lemma EmptyUnique(t: W.Tables)
    requires t.files == map[]
    ensures Unique(t)
  {
  }

  /** Somebody closed this file id between the two moments. */
  ghost predicate ClosedBetween(ops: seq<Op>, k: int, j: int, id: u64) {
    exists m :: k <= m < j && 0 <= m < |ops| && ops[m].OpClose? && ops[m].index == id
  }

  lemma {:induction false} StaysOpen(ts: seq<W.Tables>, ops: seq<Op>, k: nat, j: nat, id: u64)
    requires Run(ts, ops) && k <= j < |ts| && id in ts[k].files && !ClosedBetween(ops, k, j, id)
    ensures id in ts[j].files && ts[j].files[id] == ts[k].files[id]
  {
    hide Unique;
    if k < j {
      StaysOpen(ts, ops, k, j - 1, id);
      assert Next(ts[j - 1], ops[j - 1], ts[j]);
    }
  }

  /** In every run: an OPEN repeated under the same id by the same client, while its file is open,
      returns the same file id and adds nothing; and an OPEN under another id, or by another client,
      returns another file id. */
  lemma RepeatedOpen(ts: seq<W.Tables>, ops: seq<Op>, k: nat, j: nat)
    requires Run(ts, ops) && k < j < |ops|
    requires ops[k].OpOpen? && ops[j].OpOpen? && ops[k].result.Opened? && ops[j].result.Opened?
    requires !ClosedBetween(ops, k, j, ops[k].result.fileID)
    ensures ops[j].result == ops[k].result
       <==> ops[j].client == ops[k].client && ops[j].seqID == ops[k].seqID
    ensures ops[j].result == ops[k].result ==> ts[j + 1] == ts[j]
  {
    var a, b := ops[k], ops[j];
    var id := a.result.fileID;
    assert Next(ts[k], a, ts[k + 1]) && Next(ts[j], b, ts[j + 1]);
    OpensMatch(ts[k], a, ts[k + 1]);
    OpensMatch(ts[j], b, ts[j + 1]);
    RunUnique(ts, ops, j);
    hide Unique;
    StaysOpen(ts, ops, k + 1, j, id);
    SameOpen(ts[j], b, ts[j + 1], id);
  }

  /** In NFSv4.1: two OPENs of one client, at sequence number s on slot a and later at t on slot b, get
      the same file id, while the first file is open, exactly if they belong to the same compound or
      the one is on slot 15 and the other follows on slot 0. So two OPENs in one compound share a
      file whatever they name. */
  lemma RepeatedOpen41(ts: seq<W.Tables>, ops: seq<Op>, k: nat, j: nat, s: nat, a: nat, t: nat, b: nat)
    requires Run(ts, ops) && k < j < |ops|
    requires ops[k].OpOpen? && ops[j].OpOpen? && ops[k].result.Opened? && ops[j].result.Opened?
    requires !ClosedBetween(ops, k, j, ops[k].result.fileID) && ops[k].client == ops[j].client
    requires a <= MAX_SLOT_ID && b <= MAX_SLOT_ID && s <= t < s + 286331153
    requires ops[k].seqID == OpenID(s % TWO32, a) && ops[j].seqID == OpenID(t % TWO32, b)
    ensures ops[j].result == ops[k].result
       <==> (s == t && a == b) || (t == s + 1 && a == MAX_SLOT_ID && b == 0)
  {
    hide OpenID, Run, ClosedBetween;
    OpenIDsCollide(s, a, t, b);
    RepeatedOpen(ts, ops, k, j);
  }

  lemma OpensMatch(t: W.Tables, op: Op, t': W.Tables)
    requires Next(t, op, t') && op.OpOpen? && op.result.Opened?
    ensures op.result.fileID in t'.files && Matches(t'.files[op.result.fileID], op.client, op.seqID)
  {
  }

  lemma SameOpen(t: W.Tables, op: Op, t': W.Tables, id: u64)
    requires Next(t, op, t') && op.OpOpen? && op.result.Opened? && Unique(t) && id in t.files
    ensures op.result == Opened(id) <==> Matches(t.files[id], op.client, op.seqID)
    ensures op.result == Opened(id) ==> t' == t
  {
  }

  // ---------------------------------------------------------------- a file id used again

  /** In every run the ids in ClosedFiles are those some CLOSE removed: a CLOSE that gets OK for an
      open file closes it exactly if no earlier CLOSE removed a file with that id. */
  lemma {:induction false} ClosedFilesAre(ts: seq<W.Tables>, ops: seq<Op>, k: nat, id: u64)
    requires Run(ts, ops) && k < |ts|
    ensures id in ts[k].closedFiles
       <==> exists m :: 0 <= m < k && m < |ops| && ops[m].OpClose? && ops[m].index == id && id in ts[m].files
  {
    if k > 0 {
      ClosedFilesAre(ts, ops, k - 1, id);
      assert Next(ts[k - 1], ops[k - 1], ts[k]);
      if id in ts[k].closedFiles && id !in ts[k - 1].closedFiles {
        assert ops[k - 1].OpClose? && ops[k - 1].index == id && id in ts[k - 1].files;
      }
    }
  }

  /** An open file is closed by CLOSE exactly if its id is not among the closed ones. */
  lemma CloseCloses(t: W.Tables, id: u64, status: u32)
    requires id in t.files
    ensures CloseGives(t, id, status).2 == Some(t.files[id].obj) <==> id !in t.closedFiles
    ensures id in CloseGives(t, id, status).0.files <==> id in t.closedFiles
  {
  }

  /** So in every run a CLOSE of an open file closes it exactly if no earlier CLOSE has removed a file with
      its id; otherwise it answers OK and the file stays. */
  lemma CloseClosesUnlessReused(ts: seq<W.Tables>, ops: seq<Op>, k: nat, id: u64, status: u32)
    requires Run(ts, ops) && k < |ts| && id in ts[k].files
    ensures CloseGives(ts[k], id, status).2 == Some(ts[k].files[id].obj)
       <==> !exists m :: 0 <= m < k && m < |ops| && ops[m].OpClose? && ops[m].index == id && id in ts[m].files
    ensures id in CloseGives(ts[k], id, status).0.files ==> CloseGives(ts[k], id, status).1 == NFS4_OK
  {
    hide Run;
    ClosedFilesAre(ts, ops, k, id);
    CloseCloses(ts[k], id, status);
  }

  /** What CLOSE answers, by what happened before: OK, and nothing is done, for an id that an earlier CLOSE
      removed; what closing the file says for one that is open otherwise; and BAD_SEQID, and nothing
      is done, for any other. */
  lemma CloseAnswers(ts: seq<W.Tables>, ops: seq<Op>, k: nat, id: u64, status: u32)
    requires Run(ts, ops) && k < |ts|
    ensures var (t, s, gone) := CloseGives(ts[k], id, status);
            if exists m :: 0 <= m < k && m < |ops| && ops[m].OpClose? && ops[m].index == id && id in ts[m].files
            then s == 0 && gone == None && t == ts[k]
            else if id in ts[k].files then s == status && gone == Some(ts[k].files[id].obj) && id !in t.files
            else s == 10026 && gone == None && t == ts[k]
  {
    hide Run;
    ClosedFilesAre(ts, ops, k, id);
  }

  /** AddFile may pick an index that was closed before; such a file answers OK to every CLOSE and
      stays open. */
  lemma ReusedIndexStaysOpen(index: u64, status: u32)
    ensures var t0 := W.NEW;
            var open := OpOpen(1, 7, Some(100), index, Opened(index));
            var again := OpOpen(1, 8, Some(101), index, Opened(index));
            var t1 := t0.AddFile(index, W.File(100, 1, 7));
            var t2 := CloseGives(t1, index, status).0;
            var t3 := t2.AddFile(index, W.File(101, 1, 8));
            && Run([t0, t1, t2, t3], [open, OpClose(index, status), again])
            && CloseGives(t3, index, status) == (t3, NFS4_OK, None) && index in t3.files
  {
  }
}

/** What every run of the server keeps: one live worker per session and user, the WaitGroup, and the
    busy counters against the open files. */
module ServerRuns {
  import opened Octets
  import C = Creds
  import W = Worker
  import P = WorkerProtocol
  import opened V = Server
  import opened T = ServerSteps

  ghost predicate Run(vs: seq<State>, acts: seq<Action>) {
    && |vs| == |acts| + 1 && vs[0] == INIT
    && forall k :: 0 <= k < |acts| ==> Enabled(vs[k], acts[k]) && vs[k + 1] == Step(vs[k], acts[k])
  }

  lemma {:induction false} RunInv(vs: seq<State>, acts: seq<Action>, k: nat)
    requires Run(vs, acts) && k < |vs|
    ensures Inv(vs[k])
  {
    hide Inv, Step, Enabled;
    if k == 0 {
      InitInv();
    } else {
      RunInv(vs, acts, k - 1);
      InvStep(vs[k - 1], acts[k - 1]);
    }
  }

  lemma LiveUnique(v: State, i: nat, j: nat)
    requires OneLive(v) && i in v.workers && j in v.workers && v.workers[i].key == v.workers[j].key
    requires !v.workers[i].s.w.discarded && !v.workers[j].s.w.discarded
    ensures i == j
  {
  }

  /** In every run: at most one live worker per session and user; the WaitGroup counts exactly the
      workers whose cleanup has not finished; no busy counter is ever negative, and each, with the
      Adds it is still owed and less the Dones, is the number of open files, over all workers, that
      refer to the client. */
  lemma RunAccounting(vs: seq<State>, acts: seq<Action>, k: nat)
    requires Run(vs, acts) && k < |vs|
    ensures forall i, j ::
              (&& i in vs[k].workers && j in vs[k].workers && vs[k].workers[i].key == vs[k].workers[j].key
               && !vs[k].workers[i].s.w.discarded && !vs[k].workers[j].s.w.discarded) ==> i == j
    ensures vs[k].wg == |NotCleanedUp(vs[k])| + if vs[k].creating.Creating? then 1 else 0
    ensures forall c :: c in vs[k].busy ==>
              vs[k].busy[c] >= 0 && vs[k].busy[c] + Owed(vs[k], c) == |OpenFiles(vs[k], c)|
  {
    hide P.Inv, OneLive, HeldOk, OpenFiles, NotCleanedUp, Owed;
    RunInv(vs, acts, k);
    var v := vs[k];
    forall i, j | (&& i in v.workers && j in v.workers && v.workers[i].key == v.workers[j].key
                   && !v.workers[i].s.w.discarded && !v.workers[j].s.w.discarded)
      ensures i == j
    {
      LiveUnique(v, i, j);
    }
    forall c | c in v.busy
      ensures v.busy[c] >= 0
    {
      CountsNotNegative(v, c);
    }
  }

  /** The files at these workers whose Add(1) is owed. */
  function FilesAt(ids: set<nat>, held: map<nat, Held>): set<(nat, u64)>
    requires forall id :: id in ids ==> id in held && held[id].Adding?
  {
    set id | id in ids :: (id, held[id].index)
  }

  /** The files of client c that are in a table while their Add(1) is still owed. */
  function Uncounted(v: State, c: nat): set<(nat, u64)> { FilesAt(Adds(v.held, c), v.held) }

  lemma {:induction false} OneFileEach(ids: set<nat>, held: map<nat, Held>)
    requires forall id :: id in ids ==> id in held && held[id].Adding?
    ensures |FilesAt(ids, held)| == |ids|
    decreases ids
  {
    if ids != {} {
      var x :| x in ids;
      OneFileEach(ids - {x}, held);
      assert FilesAt(ids, held) == FilesAt(ids - {x}, held) + {(x, held[x].index)};
    }
  }

  lemma UncountedAreOpen(v: State, c: nat)
    requires HeldOk(v)
    ensures Uncounted(v, c) <= OpenFiles(v, c) && |Uncounted(v, c)| == |Adds(v.held, c)|
  {
    OneFileEach(Adds(v.held, c), v.held);
  }

  lemma Within(a: set<(nat, u64)>, b: set<(nat, u64)>)
    requires a <= b
    ensures |a| <= |b| && (|a| == |b| ==> a == b)
  {
    assert b == a + (b - a);
    assert |b| == |a| + |b - a|;
  }

  lemma CountsNotNegative(v: State, c: nat)
    requires HeldOk(v) && c in v.busy && v.busy[c] + Owed(v, c) == |OpenFiles(v, c)|
    ensures v.busy[c] >= |Removes(v.held, c)| + |Cleans(v.cleaned, c)|
    ensures v.busy[c] == 0 ==> OpenFiles(v, c) == Uncounted(v, c)
  {
    UncountedAreOpen(v, c);
    hide OpenFiles, Uncounted, HeldOk, Adds, Removes, Cleans;
    Within(Uncounted(v, c), OpenFiles(v, c));
  }

  /** What a caller of GetWorker gets: a worker that it holds, whose credentials are Equal to the
      caller's; and any worker that this one replaces in the table is discarded. */
  lemma GetWorkerGives(vs: seq<State>, acts: seq<Action>, k: nat)
    requires Run(vs, acts) && k < |acts|
    ensures acts[k].GetWorker? && vs[k + 1].creating.Idle? ==>
              var a := acts[k];
              && a.key in vs[k].table && vs[k + 1].table == vs[k].table && vs[k].table[a.key] in vs[k + 1].workers
              && var e := vs[k + 1].workers[vs[k].table[a.key]];
                 a.t in e.s.holders && C.Equal(e.creds, a.creds) && e.key == a.key && !e.s.w.discarded
    ensures acts[k].Install? ==>
              var c := vs[k].creating;
              && vs[k + 1].table == vs[k].table[c.key := acts[k].id]
              && (c.key in vs[k].table ==>
                    vs[k].table[c.key] in vs[k].workers && vs[k].workers[vs[k].table[c.key]].s.w.discarded)
              && var e := vs[k + 1].workers[acts[k].id];
                 c.t in e.s.holders && C.Equal(e.creds, c.creds) && e.key == c.key && !e.s.w.discarded
  {
    hide P.Inv, C.Equal;
    RunInv(vs, acts, k);
    if acts[k].Install? { C.EqualReflexive(vs[k].creating.creds); }
  }

  /** When DESTROY_CLIENTID or expiry takes a client away, its open files are exactly those that
      AddFile has put into a table without having counted them yet; and no Done is owed to it. */
  lemma RemovedClientsFiles(vs: seq<State>, acts: seq<Action>, k: nat)
    requires Run(vs, acts) && k < |acts| && acts[k].RemoveClient?
    ensures var v, c := vs[k], acts[k].c;
            OpenFiles(v, c) == Uncounted(v, c) && Removes(v.held, c) == {} && Cleans(v.cleaned, c) == {}
  {
    hide P.Inv, OneLive, HeldOk, OpenFiles, Uncounted, Adds, Removes, Cleans;
    RunInv(vs, acts, k);
    CountsNotNegative(vs[k], acts[k].c);
  }

  /** So a client without an AddFile on its way is never taken away with a file open. */
  lemma RemovedClientHasNoFiles(vs: seq<State>, acts: seq<Action>, k: nat)
    requires Run(vs, acts) && k < |acts| && acts[k].RemoveClient?
    ensures OpenFiles(vs[k], acts[k].c) == {} <==> Adds(vs[k].held, acts[k].c) == {}
  {
    hide OpenFiles, Enabled, Step;
    RemovedClientsFiles(vs, acts, k);
    if Adds(vs[k].held, acts[k].c) != {} {
      var id :| id in Adds(vs[k].held, acts[k].c);
      assert (id, vs[k].held[id].index) in Uncounted(vs[k], acts[k].c);
    }
  }

  /** It does happen: AddFile has put the file into the table, and DESTROY_CLIENTID comes first. */
  lemma RemovedWithAFileOpen(creds: C.Creds) returns (vs: seq<State>, acts: seq<Action>)
    ensures Run(vs, acts) && |acts| == 5 && acts[4] == RemoveClient(1) && OpenFiles(vs[4], 1) == {(0, 7)}
  {
    var key := Key(0, creds.uid);
    var f := W.File(100, 1, 3);
    acts := [NewClient(1), GetWorker(9, key, creds, 0), Install(0, 0), Act(0, P.AddFile(9, 7, f)), RemoveClient(1)];
    var v1 := Step(INIT, acts[0]);
    var v2 := Step(v1, acts[1]);
    var v3 := Step(v2, acts[2]);
    assert v3.workers == map[0 := Entry(key, creds, P.Init(9, 0))];
    var v4 := Step(v3, acts[3]);
    assert v4.workers[0].s.w.files == map[7 := f] && v4.workers.Keys == {0} && v4.busy[1] == 0;
    assert P.FilesSeen(v4.workers[0].s) == {};
    var v5 := Step(v4, acts[4]);
    vs := [INIT, v1, v2, v3, v4, v5];
    FiveSteps(vs, acts);
  }

  lemma FiveSteps(vs: seq<State>, acts: seq<Action>)
    requires |vs| == 6 && |acts| == 5 && vs[0] == INIT
    requires Enabled(vs[0], acts[0]) && vs[1] == Step(vs[0], acts[0])
    requires Enabled(vs[1], acts[1]) && vs[2] == Step(vs[1], acts[1])
    requires Enabled(vs[2], acts[2]) && vs[3] == Step(vs[2], acts[2])
    requires Enabled(vs[3], acts[3]) && vs[4] == Step(vs[3], acts[3])
    requires Enabled(vs[4], acts[4]) && vs[5] == Step(vs[4], acts[4])
    ensures Run(vs, acts)
  {
    hide Enabled, Step;
  }
}

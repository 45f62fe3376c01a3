/** server.go together with worker/ and clients/: all workers, the table that GetWorker consults
    under the server's lock, the WaitGroup, and the busy counters of the clients. A counter is under
    the registry's lock, which AddFile, RemoveFile and cleanup take only after they have changed
    their own table: the change and the count are two steps. */
module Server {
  import opened Octets
  import C = Creds
  import W = Worker
  import P = WorkerProtocol

  datatype Key = Key(session: nat, uid: u32)

  /** A worker ever created: where it was installed, for whom, and its protocol state. */
  datatype Entry = Entry(key: Key, creds: C.Creds, s: P.State)

  /** GetWorker past its decision to create a worker: wg.Add(1) done, server lock still held. */
  datatype Creating = Idle | Creating(t: nat, key: Key, creds: C.Creds)

  /** AddFile and RemoveFile between the change of the table and the call of Add or Done, the
      worker's lock held. */
  datatype Held = Adding(client: nat, index: u64) | Removing(client: nat)

  /** wg is the workers' share of the WaitGroup. busy is per client object; listed are the client
      objects in the table of clients. held, by worker: a count that AddFile or RemoveFile still
      owes; cleaned: the client of the file that cleanup has closed and not yet counted. */
  datatype State = State(
    workers: map<nat, Entry>,
    table: map<Key, nat>,
    creating: Creating,
    wg: int,
    busy: map<nat, int>,
    listed: set<nat>,
    held: map<nat, Held>,
    cleaned: map<nat, nat>)

  datatype Action =
    | GetWorker(t: nat, key: Key, creds: C.Creds, now: int)
    | Install(id: nat, now: int)
    | Act(id: nat, a: P.Action)
    | Count(id: nat)          // Add or Done, in AddFile or RemoveFile
    | CountCleaned(id: nat)   // Done, in cleanup
    | NewClient(c: nat)
    | RemoveClient(c: nat)

  const INIT := State(map[], map[], Idle, 0, map[], {}, map[], map[])

  /** A handler reaches a worker only through GetWorker. While AddFile or RemoveFile holds a worker's
      lock, only what takes no lock goes on there: closing a removed file, and cleanup; and cleanup
      does not go on before it has counted. RemoveClient stands for DESTROY_CLIENTID and for expiry:
      both take the client out of the table only if busy is not positive. */
  predicate Enabled(v: State, a: Action) {
    match a
    case GetWorker(_, key, creds, _) =>
      v.creating.Idle? && creds.uid == key.uid && (key in v.table ==> v.table[key] !in v.held)
    case Install(id, _) => v.creating.Creating? && id !in v.workers
    case Act(id, wa) =>
      && id in v.workers && !wa.Use? && P.Enabled(v.workers[id].s, wa)
      && (wa.AddFile? ==> wa.f.client in v.busy)
      && (id in v.held ==> wa.CloseRemoved? || P.Cleaning(wa)) && (id in v.cleaned ==> !P.Cleaning(wa))
    case Count(id) => id in v.held
    case CountCleaned(id) => id in v.cleaned
    case NewClient(c) => c !in v.busy
    case RemoveClient(c) => c in v.listed && c in v.busy && v.busy[c] <= 0
  }

  function Update(v: State, id: nat, s: P.State): State
    requires id in v.workers
  {
    v.(workers := v.workers[id := v.workers[id].(s := s)])
  }

  function Step(v: State, a: Action): State
    requires Enabled(v, a)
  {
    match a
    case GetWorker(t, key, creds, now) =>
      var create := v.(creating := Creating(t, key, creds), wg := v.wg + 1);
      if key !in v.table || v.table[key] !in v.workers then create
      else
        var id := v.table[key];
        if !C.Equal(v.workers[id].creds, creds) then Update(create, id, P.Step(v.workers[id].s, P.Discard))
        else if v.workers[id].s.w.discarded then create
        else Update(v, id, P.Step(v.workers[id].s, P.Use(t, now)))
    case Install(id, now) =>
      v.(workers := v.workers[id := Entry(v.creating.key, v.creating.creds, P.Init(v.creating.t, now))],
         table := v.table[v.creating.key := id],
         creating := Idle)
    case Act(id, wa) =>
      var s := v.workers[id].s;
      var v' := Update(v, id, P.Step(s, wa));
      (match wa
       case AddFile(_, i, f) => v'.(held := v.held[id := Adding(f.client, i)])
       case RemoveFile(_, i) =>
         if i in s.w.files then v'.(held := v.held[id := Removing(s.w.files[i].client)]) else v'
       case CleanFile(_, i) => v'.(cleaned := v.cleaned[id := s.w.files[i].client])
       case Finish(_) => v'.(wg := v.wg - 1)
       case _ => v')
    case Count(id) =>
      var h := v.held[id];
      Counted(v, h.client, if h.Adding? then 1 else -1).(held := v.held - {id})
    case CountCleaned(id) => Counted(v, v.cleaned[id], -1).(cleaned := v.cleaned - {id})
    case NewClient(c) => v.(busy := v.busy[c := 0], listed := v.listed + {c})
    case RemoveClient(c) => v.(listed := v.listed - {c})
  }

  /** Add(n) on a client object. */
  function Counted(v: State, c: nat, n: int): State {
    if c in v.busy then v.(busy := v.busy[c := v.busy[c] + n]) else v
  }

  // ---------------------------------------------------------------- invariant

  predicate CleanedUp(s: P.State) { s.cleaners != [] && s.cleaners[0].phase.Finished? }

  /** The open files that refer to client c, as (worker, index). */
  ghost function OpenFiles(v: State, c: nat): set<(nat, u64)> {
    set id, i | id in v.workers && i in v.workers[id].s.w.files
             && i !in P.FilesSeen(v.workers[id].s) && v.workers[id].s.w.files[i].client == c :: (id, i)
  }

  ghost function NotCleanedUp(v: State): set<nat> {
    set id | id in v.workers && !CleanedUp(v.workers[id].s)
  }

  /** A worker that is not discarded is the one its key leads to; while a new worker is on its way,
      the one it will replace is discarded. */
  ghost predicate OneLive(v: State) {
    && (forall k :: k in v.table ==> v.table[k] in v.workers && v.workers[v.table[k]].key == k)
    && (forall id :: id in v.workers && !v.workers[id].s.w.discarded ==>
          v.workers[id].key in v.table && v.table[v.workers[id].key] == id)
    && (v.creating.Creating? && v.creating.key in v.table ==> v.workers[v.table[v.creating.key]].s.w.discarded)
  }

  ghost predicate WaitGroupExact(v: State) {
    v.wg == |NotCleanedUp(v)| + if v.creating.Creating? then 1 else 0
  }

  /** The workers at which an Add(1), or a Done, is still owed to client c. */
  function Adds(held: map<nat, Held>, c: nat): set<nat> {
    set id | id in held && held[id].Adding? && held[id].client == c
  }
  function Removes(held: map<nat, Held>, c: nat): set<nat> {
    set id | id in held && held[id].Removing? && held[id].client == c
  }
  function Cleans(cleaned: map<nat, nat>, c: nat): set<nat> { set id | id in cleaned && cleaned[id] == c }

  /** The Adds that client c is owed, less the Dones. */
  function Owed(v: State, c: nat): int { |Adds(v.held, c)| - |Removes(v.held, c)| - |Cleans(v.cleaned, c)| }

  function Worth(h: Held, c: nat): int { if h.client != c then 0 else if h.Adding? then 1 else -1 }

  lemma HeldMore(held: map<nat, Held>, id: nat, h: Held, c: nat)
    requires id !in held
    ensures var held' := held[id := h];
            |Adds(held', c)| - |Removes(held', c)| == |Adds(held, c)| - |Removes(held, c)| + Worth(h, c)
  {
    var held' := held[id := h];
    AddsMore(held, id, h, c);
    RemovesMore(held, id, h, c);
    hide Adds, Removes;
  }

  lemma AddsMore(held: map<nat, Held>, id: nat, h: Held, c: nat)
    requires id !in held
    ensures |Adds(held[id := h], c)| == |Adds(held, c)| + if h.Adding? && h.client == c then 1 else 0
  {
    if h.Adding? && h.client == c {
      assert Adds(held[id := h], c) == Adds(held, c) + {id};
    } else {
      assert Adds(held[id := h], c) == Adds(held, c);
    }
  }

  lemma RemovesMore(held: map<nat, Held>, id: nat, h: Held, c: nat)
    requires id !in held
    ensures |Removes(held[id := h], c)| == |Removes(held, c)| + if h.Removing? && h.client == c then 1 else 0
  {
    if h.Removing? && h.client == c {
      assert Removes(held[id := h], c) == Removes(held, c) + {id};
    } else {
      assert Removes(held[id := h], c) == Removes(held, c);
    }
  }

  lemma HeldLess(held: map<nat, Held>, id: nat, c: nat)
    requires id in held
    ensures var held' := held - {id};
            |Adds(held', c)| - |Removes(held', c)| == |Adds(held, c)| - |Removes(held, c)| - Worth(held[id], c)
  {
    var held' := held - {id};
    assert held'[id := held[id]] == held;
    HeldMore(held', id, held[id], c);
  }

  lemma CleanedMore(cleaned: map<nat, nat>, id: nat, d: nat, c: nat)
    requires id !in cleaned
    ensures |Cleans(cleaned[id := d], c)| == |Cleans(cleaned, c)| + if d == c then 1 else 0
  {
    assert Cleans(cleaned[id := d], c) == Cleans(cleaned, c) + if d == c then {id} else {};
  }

  lemma CleanedLess(cleaned: map<nat, nat>, id: nat, c: nat)
    requires id in cleaned
    ensures |Cleans(cleaned - {id}, c)| == |Cleans(cleaned, c)| - if cleaned[id] == c then 1 else 0
  {
    assert (cleaned - {id})[id := cleaned[id]] == cleaned;
    CleanedMore(cleaned - {id}, id, cleaned[id], c);
  }

  /** Every file refers to a client whose counter is known. */
  ghost predicate ClientsKnown(v: State) {
    forall id, i :: id in v.workers && i in v.workers[id].s.w.files ==> v.workers[id].s.w.files[i].client in v.busy
  }

  /** A counter with what is still owed to it is the number of open files. */
  ghost predicate BusyExact(v: State) {
    && (forall c {:trigger Owed(v, c)} {:trigger OpenFiles(v, c)} ::
          c in v.busy ==> v.busy[c] + Owed(v, c) == |OpenFiles(v, c)|)
    && ClientsKnown(v)
  }

  /** Who owes what is known, and a file whose Add(1) is owed is in its table. */
  ghost predicate HeldOk(v: State) {
    && (forall id :: id in v.held ==>
          && id in v.workers && v.workers[id].s.cleaners == [] && v.held[id].client in v.busy
          && (v.held[id].Adding? ==>
                && v.held[id].index in v.workers[id].s.w.files
                && v.workers[id].s.w.files[v.held[id].index].client == v.held[id].client))
    && (forall id :: id in v.cleaned ==> v.cleaned[id] in v.busy)
  }

  ghost predicate Inv(v: State) {
    && (forall id :: id in v.workers ==> P.Inv(v.workers[id].s))
    && OneLive(v) && WaitGroupExact(v) && BusyExact(v) && HeldOk(v)
  }

  lemma InitInv()
    ensures Inv(INIT)
  {
    assert NotCleanedUp(INIT) == {};
  }

  /** discarded is for good, and only Finish ends a cleanup. */
  lemma StepFlags(s: P.State, a: P.Action)
    requires P.Inv(s) && P.Enabled(s, a)
    ensures s.w.discarded ==> P.Step(s, a).w.discarded
    ensures CleanedUp(P.Step(s, a)) <==> CleanedUp(s) || a.Finish?
    ensures a.Finish? ==> !CleanedUp(s)
  {
    P.OneCleaner(s);
    if P.Cleaning(a) {
      CleaningFlags(s, a);
    } else if s.cleaners != [] {
      P.CleanupRunsAlone(s, a);
    } else {
      NoCleanerFlags(s, a);
    }
  }

  lemma CleaningFlags(s: P.State, a: P.Action)
    requires |s.cleaners| <= 1 && P.Enabled(s, a) && P.Cleaning(a)
    ensures s.w.discarded ==> P.Step(s, a).w.discarded
    ensures CleanedUp(P.Step(s, a)) <==> a.Finish?
    ensures !CleanedUp(s)
  {
  }

  lemma NoCleanerFlags(s: P.State, a: P.Action)
    requires s.cleaners == [] && P.Enabled(s, a)
    ensures s.w.discarded ==> P.Step(s, a).w.discarded
    ensures !CleanedUp(P.Step(s, a)) && !a.Finish?
    ensures P.FilesSeen(P.Step(s, a)) == {}
  {
  }

  /** The indices of one worker's open files that refer to client c. */
  ghost function Refs(s: P.State, c: nat): set<u64> {
    set i | i in s.w.files && i !in P.FilesSeen(s) && s.w.files[i].client == c
  }

  /** What one worker action does to them: AddFile adds one, RemoveFile and cleanup take one. */
  ghost predicate RefsFollow(s: P.State, a: P.Action, s': P.State, c: nat) {
    match a
    case AddFile(_, i, f) =>
      i !in Refs(s, c) && Refs(s', c) == if f.client == c then Refs(s, c) + {i} else Refs(s, c)
    case RemoveFile(_, i) =>
      && Refs(s', c) == Refs(s, c) - {i}
      && (i in s.w.files ==> (i in Refs(s, c) <==> s.w.files[i].client == c))
    case CleanFile(_, i) =>
      && Refs(s', c) == Refs(s, c) - {i}
      && i in s.w.files && (i in Refs(s, c) <==> s.w.files[i].client == c)
    case _ => Refs(s', c) == Refs(s, c)
  }

  lemma StepRefs(s: P.State, a: P.Action, c: nat)
    requires P.Inv(s) && P.Enabled(s, a)
    ensures RefsFollow(s, a, P.Step(s, a), c)
  {
    P.OneCleaner(s);
    if P.Cleaning(a) {
      CleaningRefs(s, a, c);
    } else if s.cleaners != [] {
      P.CleanupRunsAlone(s, a);
      NoHolderRefs(s, a, c);
    } else {
      NoCleanerFlags(s, a);
      TableRefs(s, a, c);
    }
  }

  lemma NoHolderRefs(s: P.State, a: P.Action, c: nat)
    requires s.holders == multiset{} && P.Enabled(s, a) && !P.Cleaning(a)
    ensures RefsFollow(s, a, s, c)
  {
  }

  lemma CleaningRefs(s: P.State, a: P.Action, c: nat)
    requires |s.cleaners| <= 1 && P.Enabled(s, a) && P.Cleaning(a)
    ensures RefsFollow(s, a, P.Step(s, a), c)
  {
    if a.CleanFile? {
      assert P.FilesSeen(P.Step(s, a)) == P.FilesSeen(s) + {a.index};
    } else if a.FilesDone? {
      assert Refs(s, c) == {} == Refs(P.Step(s, a), c);
    } else {
      assert P.FilesSeen(P.Step(s, a)) == P.FilesSeen(s) && P.Step(s, a).w.files == s.w.files;
    }
  }

  lemma TableRefs(s: P.State, a: P.Action, c: nat)
    requires s.cleaners == [] && P.Enabled(s, a) && P.FilesSeen(P.Step(s, a)) == {}
    ensures RefsFollow(s, a, P.Step(s, a), c)
  {
    if !a.AddFile? && !a.RemoveFile? { assert P.Step(s, a).w.files == s.w.files; }
  }

  lemma InOpenFiles(v: State, c: nat, id: nat, i: u64)
    ensures (id, i) in OpenFiles(v, c) <==> id in v.workers && i in Refs(v.workers[id].s, c)
  {
  }

  /** One worker's references change; the others' stay. */
  lemma OpenFilesUpdate(v: State, id: nat, s: P.State, c: nat, v': State)
    requires id in v.workers && v'.workers == v.workers[id := v.workers[id].(s := s)]
    ensures forall p :: p in OpenFiles(v', c) <==> if p.0 == id then p.1 in Refs(s, c) else p in OpenFiles(v, c)
  {
    forall p: (nat, u64)
      ensures p in OpenFiles(v', c) <==> if p.0 == id then p.1 in Refs(s, c) else p in OpenFiles(v, c)
    {
      InOpenFiles(v', c, p.0, p.1);
      InOpenFiles(v, c, p.0, p.1);
      assert p == (p.0, p.1);
    }
  }

  /** Replacing the slice of one worker in a set of pairs. */
  lemma SliceCount(o: set<(nat, u64)>, o': set<(nat, u64)>, id: nat, r: set<u64>, r': set<u64>, i: u64)
    requires forall p :: p in o && p.0 == id ==> p.1 in r
    requires forall k :: k in r ==> (id, k) in o
    requires forall p :: p in o' <==> if p.0 == id then p.1 in r' else p in o
    ensures r' == r ==> |o'| == |o|
    ensures i !in r && r' == r + {i} ==> |o'| == |o| + 1
    ensures i in r && r' == r - {i} ==> |o'| == |o| - 1
  {
    assert forall p :: p in o && p.0 == id ==> p == (id, p.1);
    if r' == r {
      assert o' == o;
    } else if i !in r && r' == r + {i} {
      assert o' == o + {(id, i)};
    } else if i in r && r' == r - {i} {
      assert o' == o - {(id, i)};
    }
  }

  /** The change in the number of open files of client c that worker action a makes. */
  function Change(s: P.State, a: P.Action, c: nat): int {
    if a.AddFile? && a.f.client == c then 1
    else if (a.RemoveFile? || a.CleanFile?) && a.index in s.w.files && s.w.files[a.index].client == c then -1
    else 0
  }

  lemma CountOpenFiles(v: State, id: nat, a: P.Action, c: nat, v': State, s': P.State)
    requires id in v.workers && RefsFollow(v.workers[id].s, a, s', c)
    requires v'.workers == v.workers[id := v.workers[id].(s := s')]
    ensures |OpenFiles(v', c)| == |OpenFiles(v, c)| + Change(v.workers[id].s, a, c)
  {
    var s := v.workers[id].s;
    OpenFilesUpdate(v, id, s', c, v');
    forall k | k in Refs(s, c) ensures (id, k) in OpenFiles(v, c) { InOpenFiles(v, c, id, k); }
    var i := if a.AddFile? || a.RemoveFile? || a.CleanFile? then a.index else 0;
    SliceCount(OpenFiles(v, c), OpenFiles(v', c), id, Refs(s, c), Refs(s', c), i);
    if i !in Refs(s, c) { assert Refs(s, c) - {i} == Refs(s, c); }
  }

  /** GetWorker on the objects themselves, for one caller at a time as the server's lock makes it. */
  class Registry {
    var workers: map<Key, W.Worker>
    var creds: map<Key, C.Creds>   // the credentials of the worker installed at a key
    var wg: int

    ghost predicate Valid()
      reads this
    {
      workers.Keys == creds.Keys
    }

    constructor ()
      ensures Valid() && workers == map[] && wg == 0
    {
      workers, creds, wg := map[], map[], 0;
    }

    /** The caller gets the installed worker exactly if its credentials are Equal and it is not
        discarded; otherwise a new one, and the old one, if any, is discarded. */
    method GetWorker(key: Key, c: C.Creds, now: int) returns (w: W.Worker)
      requires Valid() && c.uid == key.uid
      modifies this, if key in workers then {workers[key]} else {}
      ensures Valid() && key in workers && workers[key] == w && C.Equal(creds[key], c)
      ensures !w.discarded && w.inUse == (if fresh(w) then 1 else old(w.inUse) + 1)
      ensures fresh(w) <==> !(key in old(workers) && C.Equal(old(creds)[key], c) && !old(workers[key].discarded))
      ensures !fresh(w) ==>
                w.View() == old(w.View()).Use(now) && workers == old(workers) && creds == old(creds) && wg == old(wg)
      ensures fresh(w) ==>
                w.View() == W.NEW.(lastUse := now) && workers == old(workers)[key := w] && creds == old(creds)[key := c]
      ensures fresh(w) ==> wg == old(wg) + 1 && (key in old(workers) ==> old(workers)[key].discarded)
    {
      if key in workers {
        w := workers[key];
        if !C.Equal(creds[key], c) {
          w.Discard();
        } else {
          var ok := w.Use(now);
          if ok { return; }
        }
      }
      wg := wg + 1;
      w := new W.Worker(now);
      C.EqualReflexive(c);
      workers := workers[key := w];
      creds := creds[key := c];
    }
  }
}

/** Every action of the server keeps its invariant. */
module ServerSteps {
  import opened Octets
  import C = Creds
  import P = WorkerProtocol
  import opened V = Server

  ghost predicate WorkersInv(v: State) {
    forall id :: id in v.workers ==> P.Inv(v.workers[id].s)
  }

  /** v' is v after worker id took action a, and perhaps other changes. */
  ghost predicate Took(v: State, id: nat, a: P.Action, v': State) {
    && id in v.workers && P.Enabled(v.workers[id].s, a)
    && v'.workers == v.workers[id := v.workers[id].(s := P.Step(v.workers[id].s, a))]
  }

  /** What holds of the workers after any worker action. */
  lemma TookWorkers(v: State, id: nat, a: P.Action, v': State)
    requires WorkersInv(v) && Took(v, id, a, v')
    ensures WorkersInv(v')
    ensures forall j :: j in v.workers && v.workers[j].s.w.discarded ==> v'.workers[j].s.w.discarded
    ensures forall c :: |OpenFiles(v', c)| == |OpenFiles(v, c)| + Change(v.workers[id].s, a, c)
    ensures NotCleanedUp(v') == if a.Finish? then NotCleanedUp(v) - {id} else NotCleanedUp(v)
    ensures a.Finish? ==> id in NotCleanedUp(v)
  {
    hide P.Inv, P.Step, P.Enabled;
    var s := v.workers[id].s;
    P.InvStep(s, a);
    StepFlags(s, a);
    forall c ensures |OpenFiles(v', c)| == |OpenFiles(v, c)| + Change(s, a, c) {
      StepRefs(s, a, c);
      CountOpenFiles(v, id, a, c, v', P.Step(s, a));
    }
  }

  /** Files appear in a table only through AddFile. */
  lemma FilesFrom(s: P.State, a: P.Action, i: u64)
    requires P.Enabled(s, a) && i in P.Step(s, a).w.files
    ensures || (i in s.w.files && P.Step(s, a).w.files[i] == s.w.files[i])
            || (a.AddFile? && i == a.index && P.Step(s, a).w.files[i] == a.f)
  {
  }

  lemma TookClientsKnown(v: State, id: nat, a: P.Action, v': State)
    requires ClientsKnown(v) && Took(v, id, a, v') && v'.busy.Keys == v.busy.Keys
    requires a.AddFile? ==> a.f.client in v.busy
    ensures ClientsKnown(v')
  {
    forall j, i | j in v'.workers && i in v'.workers[j].s.w.files
      ensures v'.workers[j].s.w.files[i].client in v'.busy
    {
      if j == id { FilesFrom(v.workers[id].s, a, i); }
    }
  }

  lemma OneLiveKept(v: State, v': State)
    requires OneLive(v) && v'.table == v.table && v'.creating == v.creating && v'.workers.Keys == v.workers.Keys
    requires forall j :: j in v.workers ==> v'.workers[j].key == v.workers[j].key
    requires forall j :: j in v.workers && v.workers[j].s.w.discarded ==> v'.workers[j].s.w.discarded
    ensures OneLive(v')
  {
  }

  lemma ActInv(v: State, id: nat, a: P.Action)
    requires Inv(v) && Enabled(v, Act(id, a))
    ensures Inv(Step(v, Act(id, a)))
  {
    hide P.Inv, P.Step, P.Enabled, OneLive, Step, OpenFiles, NotCleanedUp, HeldOk, Owed;
    var v' := Step(v, Act(id, a));
    ActTook(v, id, a);
    TookWorkers(v, id, a, v');
    ActFrame(v, id, a);
    forall c ensures Owed(v', c) == Owed(v, c) + Change(v.workers[id].s, a, c) { ActOwes(v, id, a, c); }
    OneLiveKept(v, v');
    TookClientsKnown(v, id, a, v');
    ActHeld(v, id, a);
  }

  lemma ActTook(v: State, id: nat, a: P.Action)
    requires Enabled(v, Act(id, a))
    ensures Took(v, id, a, Step(v, Act(id, a)))
  {
  }

  lemma ActFrame(v: State, id: nat, a: P.Action)
    requires Enabled(v, Act(id, a))
    ensures var v' := Step(v, Act(id, a));
            && v'.busy == v.busy && v'.table == v.table && v'.creating == v.creating
            && v'.wg == v.wg - (if a.Finish? then 1 else 0)
  {
  }

  /** The action comes to owe the change that it makes. */
  lemma ActOwes(v: State, id: nat, a: P.Action, c: nat)
    requires Enabled(v, Act(id, a))
    ensures Owed(Step(v, Act(id, a)), c) == Owed(v, c) + Change(v.workers[id].s, a, c)
  {
    hide P.Step, Adds, Removes, Cleans;
    var s := v.workers[id].s;
    if a.AddFile? {
      HeldMore(v.held, id, Adding(a.f.client, a.index), c);
    } else if a.RemoveFile? && a.index in s.w.files {
      HeldMore(v.held, id, Removing(s.w.files[a.index].client), c);
    } else if a.CleanFile? {
      CleanedMore(v.cleaned, id, s.w.files[a.index].client, c);
    }
  }

  lemma HolderMeansNoCleaner(s: P.State, t: nat)
    requires P.Inv(s) && t in s.holders
    ensures s.cleaners == []
  {
  }

  /** What takes no lock leaves the files of a worker without cleanup alone. */
  lemma UnlockedKeeps(s: P.State, a: P.Action)
    requires s.cleaners == [] && P.Enabled(s, a) && (a.CloseRemoved? || P.Cleaning(a))
    ensures P.Step(s, a).w.files == s.w.files && P.Step(s, a).cleaners == []
  {
  }

  lemma FilesAfter(s: P.State, a: P.Action)
    requires P.Enabled(s, a) && (a.AddFile? || a.RemoveFile?)
    ensures P.Step(s, a).cleaners == s.cleaners
    ensures a.AddFile? ==> P.Step(s, a).w.files == s.w.files[a.index := a.f]
  {
  }

  lemma ActHeld(v: State, id: nat, a: P.Action)
    requires Inv(v) && Enabled(v, Act(id, a))
    ensures HeldOk(Step(v, Act(id, a)))
  {
    var s := v.workers[id].s;
    if a.AddFile? || a.RemoveFile? {
      HolderMeansNoCleaner(s, a.t);
      FilesAfter(s, a);
    }
    if id in v.held { UnlockedKeeps(s, a); }
    ActHeldOk(v, id, a);
  }

  lemma ActHeldOk(v: State, id: nat, a: P.Action)
    requires HeldOk(v) && BusyExact(v) && Enabled(v, Act(id, a))
    requires var s, s' := v.workers[id].s, P.Step(v.workers[id].s, a);
             && (a.AddFile? || a.RemoveFile? ==> s'.cleaners == [])
             && (a.AddFile? ==> s'.w.files == s.w.files[a.index := a.f])
             && (id in v.held ==> s'.w.files == s.w.files && s'.cleaners == [])
    ensures HeldOk(Step(v, Act(id, a)))
  {
    hide P.Step, Owed, OpenFiles, P.Enabled;
    var s, s' := v.workers[id].s, P.Step(v.workers[id].s, a);
    if a.AddFile? {
      HeldGrows(v, id, s', Adding(a.f.client, a.index));
    } else if a.RemoveFile? && a.index in s.w.files {
      HeldGrows(v, id, s', Removing(s.w.files[a.index].client));
    } else if a.CleanFile? {
      IndexKnown(s, a);
      CleanedGrows(v, id, s', s.w.files[a.index].client);
    } else {
      HeldStays(v, id, s');
    }
  }

  lemma IndexKnown(s: P.State, a: P.Action)
    requires P.Enabled(s, a) && a.CleanFile?
    ensures a.index in s.w.files
  {
  }

  lemma HeldGrows(v: State, id: nat, s: P.State, h: Held)
    requires HeldOk(v) && id in v.workers && id !in v.held && s.cleaners == [] && h.client in v.busy
    requires h.Adding? ==> h.index in s.w.files && s.w.files[h.index].client == h.client
    ensures HeldOk(Update(v, id, s).(held := v.held[id := h]))
  {
  }

  lemma CleanedGrows(v: State, id: nat, s: P.State, c: nat)
    requires HeldOk(v) && id in v.workers && c in v.busy
    requires id in v.held ==> s.cleaners == [] && s.w.files == v.workers[id].s.w.files
    ensures HeldOk(Update(v, id, s).(cleaned := v.cleaned[id := c]))
  {
  }

  lemma HeldStays(v: State, id: nat, s: P.State)
    requires HeldOk(v) && id in v.workers
    requires id in v.held ==> s.cleaners == [] && s.w.files == v.workers[id].s.w.files
    ensures forall wg :: HeldOk(Update(v, id, s).(wg := wg))
  {
  }

  /** Neither workers nor counters change. */
  lemma SameBusy(v: State, v': State)
    requires BusyExact(v) && HeldOk(v) && v'.workers == v.workers && v'.busy == v.busy
    requires v'.held == v.held && v'.cleaned == v.cleaned
    ensures BusyExact(v') && HeldOk(v')
  {
    hide Adds, Removes, Cleans;
    assert forall c :: OpenFiles(v', c) == OpenFiles(v, c);
  }

  /** GetWorker decides to create: nothing but creating and wg changed since v1, and the worker to
      be replaced, if there is one, is discarded. */
  lemma CreateInv(v: State, t: nat, key: Key, creds: C.Creds)
    requires Inv(v) && v.creating.Idle? && (key in v.table ==> v.workers[v.table[key]].s.w.discarded)
    ensures Inv(v.(creating := Creating(t, key, creds), wg := v.wg + 1))
  {
    hide P.Inv, BusyExact, HeldOk;
    var v' := v.(creating := Creating(t, key, creds), wg := v.wg + 1);
    assert NotCleanedUp(v') == NotCleanedUp(v);
    SameBusy(v, v');
  }

  /** Discard or Use on a worker, as GetWorker calls them. */
  lemma TouchInv(v: State, id: nat, a: P.Action)
    requires Inv(v) && id in v.workers && (a.Discard? || a.Use?) && P.Enabled(v.workers[id].s, a) && id !in v.held
    ensures Inv(Update(v, id, P.Step(v.workers[id].s, a)))
  {
    hide P.Inv, P.Step, P.Enabled, OneLive, OpenFiles, NotCleanedUp, HeldOk, Adds, Removes, Cleans;
    var v' := Update(v, id, P.Step(v.workers[id].s, a));
    HeldStays(v, id, v'.workers[id].s);
    assert v' == v'.(wg := v.wg);
    TookWorkers(v, id, a, v');
    OneLiveKept(v, v');
    TookClientsKnown(v, id, a, v');
  }

  lemma GetWorkerInv(v: State, t: nat, key: Key, creds: C.Creds, now: int)
    requires Inv(v) && Enabled(v, GetWorker(t, key, creds, now))
    ensures Inv(Step(v, GetWorker(t, key, creds, now)))
  {
    hide P.Inv, P.Step, P.Enabled, C.Equal, BusyExact, WaitGroupExact, HeldOk;
    if key !in v.table {
      CreateInv(v, t, key, creds);
    } else {
      var id := v.table[key];
      if !C.Equal(v.workers[id].creds, creds) {
        AlwaysEnabled(v.workers[id].s, t, now);
        TouchInv(v, id, P.Discard);
        CreateInv(Update(v, id, P.Step(v.workers[id].s, P.Discard)), t, key, creds);
      } else if v.workers[id].s.w.discarded {
        CreateInv(v, t, key, creds);
      } else {
        AlwaysEnabled(v.workers[id].s, t, now);
        TouchInv(v, id, P.Use(t, now));
      }
    }
  }

  lemma AlwaysEnabled(s: P.State, t: nat, now: int)
    ensures P.Enabled(s, P.Discard) && P.Step(s, P.Discard).w.discarded
    ensures P.Enabled(s, P.Use(t, now))
  {
  }

  lemma InstallInv(v: State, id: nat, now: int)
    requires Inv(v) && Enabled(v, Install(id, now))
    ensures Inv(Step(v, Install(id, now)))
  {
    hide P.Inv, OneLive, WaitGroupExact, BusyExact, HeldOk;
    var v' := Step(v, Install(id, now));
    P.InitInv(v.creating.t, now);
    InstallOneLive(v, id, now, v');
    InstallWaitGroup(v, id, now, v');
    InstallBusy(v, id, now, v');
    InstallHeld(v, id, now, v');
  }

  lemma InstallHeld(v: State, id: nat, now: int, v': State)
    requires HeldOk(v) && Enabled(v, Install(id, now)) && v' == Step(v, Install(id, now))
    ensures HeldOk(v')
  {
  }

  lemma InstallOneLive(v: State, id: nat, now: int, v': State)
    requires OneLive(v) && Enabled(v, Install(id, now)) && v' == Step(v, Install(id, now))
    ensures OneLive(v')
  {
  }

  lemma InstallWaitGroup(v: State, id: nat, now: int, v': State)
    requires WaitGroupExact(v) && Enabled(v, Install(id, now)) && v' == Step(v, Install(id, now))
    ensures WaitGroupExact(v')
  {
    assert NotCleanedUp(v') == NotCleanedUp(v) + {id};
  }

  lemma InstallBusy(v: State, id: nat, now: int, v': State)
    requires BusyExact(v) && Enabled(v, Install(id, now)) && v' == Step(v, Install(id, now))
    ensures BusyExact(v')
  {
    assert forall c :: Owed(v', c) == Owed(v, c);
    forall c | c in v.busy ensures OpenFiles(v', c) == OpenFiles(v, c) {
      forall p: (nat, u64) ensures p in OpenFiles(v', c) <==> p in OpenFiles(v, c) {
        InOpenFiles(v', c, p.0, p.1);
        InOpenFiles(v, c, p.0, p.1);
        assert p == (p.0, p.1);
      }
    }
  }

  /** The workers stay as they are. */
  lemma SameWorkers(v: State, v': State)
    requires OneLive(v) && WaitGroupExact(v)
    requires v' == v.(busy := v'.busy, listed := v'.listed, held := v'.held, cleaned := v'.cleaned)
    ensures OneLive(v') && WaitGroupExact(v')
    ensures forall c :: OpenFiles(v', c) == OpenFiles(v, c)
  {
    assert NotCleanedUp(v') == NotCleanedUp(v);
  }

  lemma NewClientBusy(v: State, c: nat)
    requires BusyExact(v) && HeldOk(v) && c !in v.busy
    ensures var v' := v.(busy := v.busy[c := 0], listed := v.listed + {c});
            BusyExact(v') && HeldOk(v')
  {
    var v' := v.(busy := v.busy[c := 0], listed := v.listed + {c});
    assert forall d :: OpenFiles(v', d) == OpenFiles(v, d) && Owed(v', d) == Owed(v, d);
    assert OpenFiles(v, c) == {} && Adds(v.held, c) == {} && Removes(v.held, c) == {} && Cleans(v.cleaned, c) == {};
  }

  lemma ClientInv(v: State, a: Action)
    requires Inv(v) && Enabled(v, a) && (a.NewClient? || a.RemoveClient?)
    ensures Inv(Step(v, a))
  {
    hide P.Inv, OneLive, WaitGroupExact;
    var v' := Step(v, a);
    SameWorkers(v, v');
    hide BusyExact, HeldOk;
    if a.NewClient? { NewClientBusy(v, a.c); } else { SameBusy(v, v'); }
  }

  /** Counting pays what was owed: to one client, and nothing else. */
  lemma CountPays(v: State, a: Action, c: nat)
    requires HeldOk(v) && Enabled(v, a) && (a.Count? || a.CountCleaned?) && c in v.busy
    ensures var v' := Step(v, a);
            v'.busy.Keys == v.busy.Keys && v'.busy[c] + Owed(v', c) == v.busy[c] + Owed(v, c)
  {
    hide Adds, Removes, Cleans;
    if a.Count? { HeldLess(v.held, a.id, c); } else { CleanedLess(v.cleaned, a.id, c); }
  }

  lemma CountInv(v: State, a: Action)
    requires Inv(v) && Enabled(v, a) && (a.Count? || a.CountCleaned?)
    ensures Inv(Step(v, a))
  {
    hide P.Inv, OneLive, WaitGroupExact, Owed, OpenFiles;
    var v' := Step(v, a);
    SameWorkers(v, v');
    forall c | c in v.busy
      ensures v'.busy.Keys == v.busy.Keys && v'.busy[c] + Owed(v', c) == v.busy[c] + Owed(v, c)
    {
      CountPays(v, a, c);
    }
    assert v'.busy.Keys == v.busy.Keys;
  }

  /** Every action anywhere keeps the invariant. */
  lemma InvStep(v: State, a: Action)
    requires Inv(v) && Enabled(v, a)
    ensures Inv(Step(v, a))
  {
    hide Inv, Step, Enabled;
    match a
    case GetWorker(t, key, creds, now) => GetWorkerInv(v, t, key, creds, now);
    case Install(id, now) => InstallInv(v, id, now);
    case Act(id, wa) => ActInv(v, id, wa);
    case Count(_) => CountInv(v, a);
    case CountCleaned(_) => CountInv(v, a);
    case NewClient(_) => ClientInv(v, a);
    case RemoveClient(_) => ClientInv(v, a);
  }
}

/** Goroutines around one worker. One action per lock region; cleanup, which takes no lock, is cut
    into one action per object it closes. */
module WorkerProtocol {
  import opened Octets
  import opened W = Worker

  datatype Phase = ClosingListers | ClosingFiles | Cleared | Finished

  /** A goroutine running cleanup, and the indices its two loops have visited. */
  datatype Cleaner = Cleaner(phase: Phase, listersSeen: set<u64>, filesSeen: set<u64>)

  /** Where an object handed to AddFile or AddLister is now: in a table, taken out by RemoveFile and
      in the hands of the goroutine that is about to close it, or out of reach. */
  datatype Place = InListers(index: u64) | InFiles(index: u64) | Taken(t: nat) | Gone

  /** holders: one entry per Use or New not yet matched by a Close. closed: every Close call on a
      vfs object. place: the history of the objects registered so far. */
  datatype State = State(
    w: Tables,
    holders: multiset<nat>,
    cleaners: seq<Cleaner>,
    closed: multiset<nat>,
    place: map<nat, Place>)

  datatype Action =
    | Use(t: nat, now: int)
    | Close(t: nat)
    | Discard
    | AutoDiscard(now: int, must: bool)
    | AddFile(t: nat, index: u64, f: File)
    | RemoveFile(t: nat, index: u64)
    | CloseRemoved(t: nat, obj: nat)
    | AddLister(t: nat, index: u64, l: Lister)
    | GetLister(t: nat, index: u64, now: int)
    | CloseLister(t: nat, index: u64)
    | Sweep(now: int)
    | CleanLister(c: nat, index: u64)
    | ListersDone(c: nat)
    | CleanFile(c: nat, index: u64)
    | FilesDone(c: nat)
    | Finish(c: nat)

  predicate Cleaning(a: Action) {
    a.CleanLister? || a.ListersDone? || a.CleanFile? || a.FilesDone? || a.Finish?
  }

  function Init(t: nat, now: int): State {
    State(NEW.(lastUse := now), multiset{t}, [], multiset{}, map[])
  }

  /** The discipline of the callers in mux_v4.go: tables are used only between Use and Close, a
      goroutine closes what it removed before it lets go, and an object is registered once. */
  predicate Enabled(s: State, a: Action) {
    match a
    case Close(t) => t in s.holders && (s.holders[t] == 1 ==> forall o :: o in s.place ==> s.place[o] != Taken(t))
    case AddFile(t, i, f) => t in s.holders && i !in s.w.files && f.obj !in s.place
    case RemoveFile(t, i) => t in s.holders
    case CloseRemoved(t, o) => o in s.place && s.place[o] == Taken(t)
    case AddLister(t, i, l) => t in s.holders && i !in s.w.listers && i != EOF_LISTER && l.obj !in s.place
    case GetLister(t, _, _) => t in s.holders
    case CloseLister(t, _) => t in s.holders
    case CleanLister(c, i) =>
      c < |s.cleaners| && s.cleaners[c].phase.ClosingListers? && i in s.w.listers && i !in s.cleaners[c].listersSeen
    case ListersDone(c) =>
      c < |s.cleaners| && s.cleaners[c].phase.ClosingListers? && s.w.listers.Keys <= s.cleaners[c].listersSeen
    case CleanFile(c, i) =>
      c < |s.cleaners| && s.cleaners[c].phase.ClosingFiles? && i in s.w.files && i !in s.cleaners[c].filesSeen
    case FilesDone(c) =>
      c < |s.cleaners| && s.cleaners[c].phase.ClosingFiles? && s.w.files.Keys <= s.cleaners[c].filesSeen
    case Finish(c) => c < |s.cleaners| && s.cleaners[c].phase.Cleared?
    case _ => true
  }

  /** The state with new tables, and a cleanup goroutine for every one that was started. */
  function With(s: State, w: Tables): State {
    s.(w := w,
       cleaners := if w.cleanups > s.w.cleanups then s.cleaners + [Cleaner(ClosingListers, {}, {})] else s.cleaners)
  }

  function Step(s: State, a: Action): State
    requires Enabled(s, a)
  {
    match a
    case Use(t, now) =>
      With(s, s.w.Use(now)).(holders := if s.w.discarded then s.holders else s.holders + multiset{t})
    case Close(t) => With(s, s.w.Close()).(holders := s.holders - multiset{t})
    case Discard => With(s, s.w.Discard())
    case AutoDiscard(now, must) => With(s, s.w.AutoDiscard(now, must))
    case AddFile(_, i, f) => s.(w := s.w.AddFile(i, f), place := s.place[f.obj := InFiles(i)])
    case RemoveFile(t, i) =>
      if i !in s.w.files then s
      else s.(w := s.w.RemoveFile(i), place := s.place[s.w.files[i].obj := Taken(t)])
    case CloseRemoved(_, o) => s.(place := s.place[o := Gone], closed := s.closed + multiset{o})
    case AddLister(_, i, l) => s.(w := s.w.AddLister(i, l), place := s.place[l.obj := InListers(i)])
    case GetLister(_, i, now) => s.(w := s.w.GetLister(i, now))
    case CloseLister(_, i) => if i !in s.w.listers then s else ListersLeave(s, {i})
    case Sweep(now) => if s.w.discarded then s else ListersLeave(s, s.w.Expired(now))
    case CleanLister(c, i) =>
      s.(cleaners := s.cleaners[c := s.cleaners[c].(listersSeen := s.cleaners[c].listersSeen + {i})],
         closed := s.closed + multiset{s.w.listers[i].obj})
    case ListersDone(c) => s.(cleaners := s.cleaners[c := s.cleaners[c].(phase := ClosingFiles)])
    case CleanFile(c, i) =>
      s.(cleaners := s.cleaners[c := s.cleaners[c].(filesSeen := s.cleaners[c].filesSeen + {i})],
         closed := s.closed + multiset{s.w.files[i].obj})
    case FilesDone(c) =>
      s.(w := s.w.(listers := map[], files := map[], closedFiles := {}),
         cleaners := s.cleaners[c := Cleaner(Cleared, {}, {})],
         place := map o | o in s.place :: if s.place[o].Taken? then s.place[o] else Gone)
    case Finish(c) => s.(cleaners := s.cleaners[c := s.cleaners[c].(phase := Finished)])
  }

  /** CloseLister and cleanupListers: the listers at these indices leave the table and are closed. */
  function ListersLeave(s: State, gone: set<u64>): State
    requires gone <= s.w.listers.Keys
  {
    s.(w := s.w.(listers := s.w.listers - gone),
       closed := s.closed + multiset(set i | i in gone :: s.w.listers[i].obj),
       place := map o | o in s.place :: if s.place[o].InListers? && s.place[o].index in gone then Gone else s.place[o])
  }

  // ---------------------------------------------------------------- invariant

  /** Indices whose object cleanup has already closed. */
  function ListersSeen(s: State): set<u64> { if s.cleaners == [] then {} else s.cleaners[0].listersSeen }
  function FilesSeen(s: State): set<u64> { if s.cleaners == [] then {} else s.cleaners[0].filesSeen }

  /** cleanup has been started once if the worker is discarded and unused, and not otherwise. */
  ghost predicate CleanupOnce(s: State) {
    && |s.holders| == s.w.inUse
    && |s.cleaners| == s.w.cleanups == (if s.w.discarded && s.w.inUse == 0 then 1 else 0)
    && (forall o :: o in s.place && s.place[o].Taken? ==> s.place[o].t in s.holders)
    && (s.cleaners != [] ==>
          match s.cleaners[0].phase
          case ClosingListers => FilesSeen(s) == {}
          case ClosingFiles => s.w.listers.Keys <= ListersSeen(s)
          case _ => s.w.listers == map[] && s.w.files == map[])
  }

  /** The tables and the places agree, so no object is in two entries. */
  ghost predicate Placed(s: State) {
    && (forall i :: i in s.w.listers ==> s.w.listers[i].obj in s.place && s.place[s.w.listers[i].obj] == InListers(i))
    && (forall i :: i in s.w.files ==> s.w.files[i].obj in s.place && s.place[s.w.files[i].obj] == InFiles(i))
    && (forall o :: o in s.place ==>
          match s.place[o]
          case InListers(i) => i in s.w.listers && s.w.listers[i].obj == o
          case InFiles(i) => i in s.w.files && s.w.files[i].obj == o
          case _ => true)
  }

  /** How often Close was called on an object, by where it is. */
  function Closings(s: State, p: Place): nat {
    match p
    case InListers(i) => if i in ListersSeen(s) then 1 else 0
    case InFiles(i) => if i in FilesSeen(s) then 1 else 0
    case Taken(_) => 0
    case Gone => 1
  }

  ghost predicate ClosedOnce(s: State) {
    && (forall o :: o in s.place ==> s.closed[o] == Closings(s, s.place[o]))
    && (forall o :: o in s.closed ==> o in s.place)
  }

  ghost predicate Inv(s: State) {
    CleanupOnce(s) && Placed(s) && ClosedOnce(s)
  }

  lemma InitInv(t: nat, now: int)
    ensures Inv(Init(t, now))
  {
  }

  lemma OneCleaner(s: State)
    requires Inv(s)
    ensures |s.cleaners| <= 1
  {
  }

  /** While cleanup runs, nobody holds the worker, and no action of another goroutine changes
      anything: the lock-free loops race with nobody. */
  lemma CleanupRunsAlone(s: State, a: Action)
    requires Inv(s) && s.cleaners != [] && Enabled(s, a) && !Cleaning(a)
    ensures s.holders == multiset{}
    ensures Step(s, a) == s
  {
    assert forall t :: t !in s.holders;
  }

  /** Counters, flags and phases do not matter to the objects. */
  lemma SameObjects(s: State, s': State)
    requires Placed(s) && ClosedOnce(s)
    requires s'.w.listers == s.w.listers && s'.w.files == s.w.files && s'.closed == s.closed && s'.place == s.place
    requires ListersSeen(s') == ListersSeen(s) && FilesSeen(s') == FilesSeen(s)
    ensures Placed(s') && ClosedOnce(s')
  {
    assert forall o :: o in s.place ==> Closings(s', s.place[o]) == Closings(s, s.place[o]);
  }

  lemma CloseStep(s: State, t: nat)
    requires Inv(s) && Enabled(s, Close(t)) && s.cleaners == []
    ensures Inv(Step(s, Close(t)))
  {
    SameObjects(s, Step(s, Close(t)));
    assert |s.holders - multiset{t}| == |s.holders| - 1;
    forall o | o in s.place && s.place[o].Taken? ensures s.place[o].t in s.holders - multiset{t} {
      assert s.place[o].t in s.holders;
    }
  }

  lemma ListersLeaveStep(s: State, gone: set<u64>)
    requires Inv(s) && s.cleaners == [] && gone <= s.w.listers.Keys
    ensures Inv(ListersLeave(s, gone))
  {
    var objs := set i | i in gone :: s.w.listers[i].obj;
    forall o | o in objs ensures o in s.place && s.place[o].InListers? && s.place[o].index in gone {
      var i :| i in gone && s.w.listers[i].obj == o;
    }
    forall o | o in s.place && s.place[o].InListers? && s.place[o].index in gone ensures o in objs {
      assert s.w.listers[s.place[o].index].obj == o;
    }
    assert ClosedOnce(ListersLeave(s, gone)) by { LeaveClosesOnce(s, gone, objs); }
  }

  lemma LeaveClosesOnce(s: State, gone: set<u64>, objs: set<nat>)
    requires ClosedOnce(s) && s.cleaners == [] && gone <= s.w.listers.Keys
    requires objs == set i | i in gone :: s.w.listers[i].obj
    requires forall o :: o in objs <==> o in s.place && s.place[o].InListers? && s.place[o].index in gone
    ensures ClosedOnce(ListersLeave(s, gone))
  {
    var s' := ListersLeave(s, gone);
    forall o | o in s.place ensures s'.closed[o] == Closings(s', s'.place[o]) {
      assert s.closed[o] == Closings(s, s.place[o]);
    }
  }

  /** A new object takes place p. */
  lemma EntersKeepsCounts(s: State, o: nat, p: Place, s': State)
    requires Inv(s) && s.cleaners == [] && o !in s.place
    requires s'.w.(files := s.w.files, listers := s.w.listers) == s.w && (p.InFiles? || p.InListers?)
    requires s' == s.(w := s'.w, place := s.place[o := p])
    ensures CleanupOnce(s') && ClosedOnce(s')
  {
    assert s.closed[o] == 0;
  }

  lemma FileEnters(s: State, i: u64, f: File)
    requires Placed(s) && f.obj !in s.place && i !in s.w.files
    ensures Placed(s.(w := s.w.AddFile(i, f), place := s.place[f.obj := InFiles(i)]))
  {
  }

  lemma ListerEnters(s: State, i: u64, l: Lister)
    requires Placed(s) && l.obj !in s.place && i !in s.w.listers
    ensures Placed(s.(w := s.w.AddLister(i, l), place := s.place[l.obj := InListers(i)]))
  {
  }

  lemma AddFileStep(s: State, t: nat, i: u64, f: File)
    requires Inv(s) && s.cleaners == [] && Enabled(s, AddFile(t, i, f))
    ensures Inv(Step(s, AddFile(t, i, f)))
  {
    hide Placed, CleanupOnce, ClosedOnce;
    EntersKeepsCounts(s, f.obj, InFiles(i), Step(s, AddFile(t, i, f)));
    FileEnters(s, i, f);
  }

  lemma AddListerStep(s: State, t: nat, i: u64, l: Lister)
    requires Inv(s) && s.cleaners == [] && Enabled(s, AddLister(t, i, l))
    ensures Inv(Step(s, AddLister(t, i, l)))
  {
    hide Placed, CleanupOnce, ClosedOnce;
    EntersKeepsCounts(s, l.obj, InListers(i), Step(s, AddLister(t, i, l)));
    ListerEnters(s, i, l);
  }

  lemma RemoveFileStep(s: State, t: nat, i: u64)
    requires Inv(s) && s.cleaners == [] && Enabled(s, RemoveFile(t, i)) && i in s.w.files
    ensures Inv(Step(s, RemoveFile(t, i)))
  {
    assert s.place[s.w.files[i].obj] == InFiles(i);
  }

  lemma CloseRemovedStep(s: State, t: nat, o: nat)
    requires Inv(s) && s.cleaners == [] && Enabled(s, CloseRemoved(t, o))
    ensures Inv(Step(s, CloseRemoved(t, o)))
  {
    assert s.closed[o] == 0;
  }

  lemma GetListerStep(s: State, t: nat, i: u64, now: int)
    requires Inv(s) && s.cleaners == [] && Enabled(s, GetLister(t, i, now))
    ensures Inv(Step(s, GetLister(t, i, now)))
  {
    assert forall j :: j in s.w.listers ==> s.w.GetLister(i, now).listers[j].obj == s.w.listers[j].obj;
  }

  lemma CleanListerStep(s: State, c: nat, i: u64)
    requires Inv(s) && Enabled(s, CleanLister(c, i))
    ensures Inv(Step(s, CleanLister(c, i)))
  {
    var o := s.w.listers[i].obj;
    assert s.place[o] == InListers(i) && s.closed[o] == 0;
  }

  lemma CleanFileStep(s: State, c: nat, i: u64)
    requires Inv(s) && Enabled(s, CleanFile(c, i))
    ensures Inv(Step(s, CleanFile(c, i)))
  {
    var o := s.w.files[i].obj;
    assert s.place[o] == InFiles(i) && s.closed[o] == 0;
  }

  lemma FilesDoneStep(s: State, c: nat)
    requires Inv(s) && Enabled(s, FilesDone(c))
    ensures Inv(Step(s, FilesDone(c)))
  {
    assert forall t :: t !in s.holders;
    assert forall o :: o in s.place ==> !s.place[o].Taken? && s.closed[o] == 1;
  }

  /** Every action of every goroutine keeps the invariant. */
  lemma InvStep(s: State, a: Action)
    requires Inv(s) && Enabled(s, a)
    ensures Inv(Step(s, a))
  {
    hide Placed, ClosedOnce;
    if Cleaning(a) {
      match a
      case CleanLister(c, i) => CleanListerStep(s, c, i);
      case CleanFile(c, i) => CleanFileStep(s, c, i);
      case FilesDone(c) => FilesDoneStep(s, c);
      case ListersDone(c) => PhaseStep(s, c, a);
      case Finish(c) => PhaseStep(s, c, a);
    } else if s.cleaners != [] {
      CleanupRunsAlone(s, a);
    } else {
      match a
      case Close(t) => CloseStep(s, t);
      case CloseLister(_, i) => if i in s.w.listers { ListersLeaveStep(s, {i}); }
      case Sweep(now) => if !s.w.discarded { ListersLeaveStep(s, s.w.Expired(now)); }
      case AddFile(t, i, f) => AddFileStep(s, t, i, f);
      case AddLister(t, i, l) => AddListerStep(s, t, i, l);
      case RemoveFile(t, i) => if i in s.w.files { RemoveFileStep(s, t, i); }
      case CloseRemoved(t, o) => CloseRemovedStep(s, t, o);
      case GetLister(t, i, now) => GetListerStep(s, t, i, now);
      case Use(t, now) => UseStep(s, t, now);
      case Discard => FlagStep(s, s.w.Discard());
      case AutoDiscard(now, must) => FlagStep(s, s.w.AutoDiscard(now, must));
    }
  }

  lemma PhaseStep(s: State, c: nat, a: Action)
    requires Inv(s) && Enabled(s, a) && (a == ListersDone(c) || a == Finish(c))
    ensures Inv(Step(s, a))
  {
    SameObjects(s, Step(s, a));
  }

  lemma UseStep(s: State, t: nat, now: int)
    requires Inv(s) && s.cleaners == []
    ensures Inv(Step(s, Use(t, now)))
  {
    SameObjects(s, Step(s, Use(t, now)));
  }

  /** Discard and autoDiscard. */
  lemma FlagStep(s: State, w: Tables)
    requires Inv(s) && s.cleaners == []
    requires w == s.w || (!s.w.discarded && w == s.w.(discarded := true, cleanups := if s.w.inUse == 0 then 1 else 0))
    ensures Inv(With(s, w))
  {
    SameObjects(s, With(s, w));
  }

  // ---------------------------------------------------------------- whole runs

  /** A run of the protocol from a worker that goroutine t just created. */
  ghost predicate Run(ss: seq<State>, acts: seq<Action>) {
    && |ss| == |acts| + 1
    && (exists t, now :: ss[0] == Init(t, now))
    && forall k :: 0 <= k < |acts| ==> Enabled(ss[k], acts[k]) && ss[k + 1] == Step(ss[k], acts[k])
  }

  lemma {:induction false} RunInv(ss: seq<State>, acts: seq<Action>, k: nat)
    requires Run(ss, acts) && k < |ss|
    ensures Inv(ss[k])
  {
    if k == 0 {
      var t, now :| ss[0] == Init(t, now);
      InitInv(t, now);
    } else {
      RunInv(ss, acts, k - 1);
      InvStep(ss[k - 1], acts[k - 1]);
    }
  }

  lemma CleanupsGrow(s: State, a: Action)
    requires Inv(s) && Enabled(s, a)
    ensures s.w.cleanups <= Step(s, a).w.cleanups
  {
    if s.cleaners != [] && !Cleaning(a) { CleanupRunsAlone(s, a); }
  }

  /** In every run cleanup is started at most once, and by exactly the step that makes the worker
      both discarded and unused. */
  lemma CleanupStartsOnce(ss: seq<State>, acts: seq<Action>, k: nat)
    requires Run(ss, acts) && k < |acts|
    ensures ss[k].w.cleanups <= ss[k + 1].w.cleanups <= 1
    ensures ss[k].w.cleanups < ss[k + 1].w.cleanups <==>
            !(ss[k].w.discarded && ss[k].w.inUse == 0) && ss[k + 1].w.discarded && ss[k + 1].w.inUse == 0
  {
    RunInv(ss, acts, k);
    RunInv(ss, acts, k + 1);
    CleanupsGrow(ss[k], acts[k]);
    OnceDiscardedAndUnused(ss[k]);
    OnceDiscardedAndUnused(ss[k + 1]);
  }

  lemma OnceDiscardedAndUnused(s: State)
    requires Inv(s)
    ensures s.w.cleanups == if s.w.discarded && s.w.inUse == 0 then 1 else 0
  {
  }

  /** In every run no object is closed twice; when cleanup has finished, everything that was ever
      registered, by whichever goroutine, has been closed exactly once and nothing else has. */
  lemma EverythingClosedOnce(ss: seq<State>, acts: seq<Action>, k: nat)
    requires Run(ss, acts) && k < |ss|
    ensures forall o :: ss[k].closed[o] <= 1
    ensures ss[k].cleaners != [] && ss[k].cleaners[0].phase.Finished? ==>
              forall o :: ss[k].closed[o] == if o in ss[k].place then 1 else 0
  {
    RunInv(ss, acts, k);
    var s := ss[k];
    assert forall t :: s.cleaners != [] ==> t !in s.holders;
    forall o ensures s.closed[o] <= 1 {
      if o in s.place { assert s.closed[o] == Closings(s, s.place[o]); }
    }
  }

  /** What a cleanup goroutine has left to do. */
  function Left(w: Tables, c: Cleaner): nat {
    match c.phase
    case ClosingListers => |w.listers.Keys - c.listersSeen| + |w.files.Keys - c.filesSeen| + 3
    case ClosingFiles => |w.files.Keys - c.filesSeen| + 2
    case Cleared => 1
    case Finished => 0
  }

  /** A started cleanup that has not finished is never stuck. */
  lemma CleanupNotStuck(s: State)
    requires |s.cleaners| == 1 && !s.cleaners[0].phase.Finished?
    ensures exists a :: Cleaning(a) && Enabled(s, a)
  {
    var c := s.cleaners[0];
    var a :=
      match c.phase
      case ClosingListers =>
        if s.w.listers.Keys <= c.listersSeen then ListersDone(0)
        else (var i :| i in s.w.listers.Keys && i !in c.listersSeen; CleanLister(0, i))
      case ClosingFiles =>
        if s.w.files.Keys <= c.filesSeen then FilesDone(0)
        else (var i :| i in s.w.files.Keys && i !in c.filesSeen; CleanFile(0, i))
      case Cleared => Finish(0)
      case Finished => Discard;
    assert Cleaning(a) && Enabled(s, a);
  }

  /** Each of its actions brings it closer to its end, so it ends. */
  lemma CleanupProgresses(s: State, a: Action)
    requires |s.cleaners| == 1 && Cleaning(a) && Enabled(s, a)
    ensures |Step(s, a).cleaners| == 1 && Left(Step(s, a).w, Step(s, a).cleaners[0]) < Left(s.w, s.cleaners[0])
  {
    var c := s.cleaners[0];
    match a
    case CleanLister(_, i) =>
      assert Step(s, a).w == s.w && Step(s, a).cleaners[0] == c.(listersSeen := c.listersSeen + {i});
      OneLess(s.w.listers.Keys, c.listersSeen, i);
    case CleanFile(_, i) =>
      assert Step(s, a).w == s.w && Step(s, a).cleaners[0] == c.(filesSeen := c.filesSeen + {i});
      OneLess(s.w.files.Keys, c.filesSeen, i);
    case ListersDone(_) => assert Step(s, a).w == s.w && Step(s, a).cleaners[0] == c.(phase := ClosingFiles);
    case FilesDone(_) => assert Step(s, a).cleaners[0].phase == Cleared;
    case Finish(_) => assert Step(s, a).cleaners[0].phase == Finished;
  }

  lemma OneLess(keys: set<u64>, seen: set<u64>, i: u64)
    requires i in keys && i !in seen
    ensures |keys - (seen + {i})| == |keys - seen| - 1
  {
    assert keys - (seen + {i}) == keys - seen - {i};
  }
}

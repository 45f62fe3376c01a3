/** When the timers of a worker act, stated on what was done before and not on what the worker notes:
    the idle timer (worker/worker.go autoDiscard) and the sweep of listers (worker/lister.go). */
module WorkerTimes {
  import opened Octets
  import opened W = Worker
  import opened P = WorkerProtocol

  /** A run of a worker that was created at this time. */
  ghost predicate RunFrom(ss: seq<State>, acts: seq<Action>, t: nat, created: int) {
    && |ss| == |acts| + 1 && ss[0] == Init(t, created)
    && forall k :: 0 <= k < |acts| ==> Enabled(ss[k], acts[k]) && ss[k + 1] == Step(ss[k], acts[k])
  }

  lemma RunFromIsRun(ss: seq<State>, acts: seq<Action>, t: nat, created: int)
    requires RunFrom(ss, acts, t, created)
    ensures Run(ss, acts)
  {
    hide Enabled, Step;
  }

  // ---------------------------------------------------------------- idle workers

  /** The k-th action is a Use that succeeds. */
  predicate UsedAt(ss: seq<State>, acts: seq<Action>, k: int) {
    0 <= k < |acts| && k < |ss| && acts[k].Use? && !ss[k].w.discarded
  }

  /** The clock does not run backwards over the creation and the uses. */
  ghost predicate UsesInOrder(acts: seq<Action>, created: int) {
    && (forall k :: 0 <= k < |acts| && acts[k].Use? ==> created <= acts[k].now)
    && forall j, k :: 0 <= j < k < |acts| && acts[j].Use? && acts[k].Use? ==> acts[j].now <= acts[k].now
  }

  lemma NotesUse(s: State, a: Action)
    requires Enabled(s, a)
    ensures Step(s, a).w.lastUse == if a.Use? && !s.w.discarded then a.now else s.w.lastUse
  {
  }

  /** What the worker notes is the latest of its creation and its uses. */
  lemma {:induction false} NotesLatest(ss: seq<State>, acts: seq<Action>, t: nat, created: int, k: nat)
    requires RunFrom(ss, acts, t, created) && UsesInOrder(acts, created) && k < |ss|
    ensures created <= ss[k].w.lastUse
    ensures forall j :: 0 <= j < k && UsedAt(ss, acts, j) ==> acts[j].now <= ss[k].w.lastUse
    ensures ss[k].w.lastUse == created
            || exists j :: 0 <= j < k && UsedAt(ss, acts, j) && ss[k].w.lastUse == acts[j].now
  {
    hide Enabled, Step;
    if k > 0 {
      NotesLatest(ss, acts, t, created, k - 1);
      NotesUse(ss[k - 1], acts[k - 1]);
      if UsedAt(ss, acts, k - 1) {
        assert ss[k].w.lastUse == acts[k - 1].now;
      }
    }
  }

  /** In every run, a tick of the idle timer discards a worker that is not discarded exactly if its
      creation and every successful Use before are more than 300 seconds ago, or the server is
      shutting down. */
  lemma IdleExactlyIf(ss: seq<State>, acts: seq<Action>, t: nat, created: int, k: nat)
    requires RunFrom(ss, acts, t, created) && UsesInOrder(acts, created)
    requires k < |acts| && acts[k].AutoDiscard? && !ss[k].w.discarded
    ensures ss[k + 1].w.discarded <==>
            || acts[k].must
            || (acts[k].now - created > 300
                && forall j :: 0 <= j < k && UsedAt(ss, acts, j) ==> acts[k].now - acts[j].now > 300)
  {
    NotesLatest(ss, acts, t, created, k);
    assert ss[k + 1] == Step(ss[k], acts[k]);
  }

  // ---------------------------------------------------------------- forgotten listers

  /** The time of the last AddLister or GetLister of this index among the first k actions. */
  function Touched(acts: seq<Action>, k: nat, i: u64): Option<int>
    requires k <= |acts|
  {
    if k == 0 then None
    else if acts[k - 1].AddLister? && acts[k - 1].index == i then Some(acts[k - 1].l.lastSeen)
    else if acts[k - 1].GetLister? && acts[k - 1].index == i then Some(acts[k - 1].now)
    else Touched(acts, k - 1, i)
  }

  lemma NotesTouch(s: State, a: Action, i: u64)
    requires Enabled(s, a) && i in Step(s, a).w.listers
    ensures a.AddLister? && a.index == i ==> Step(s, a).w.listers[i].lastSeen == a.l.lastSeen
    ensures a.GetLister? && a.index == i ==> i in s.w.listers && Step(s, a).w.listers[i].lastSeen == a.now
    ensures !((a.AddLister? || a.GetLister?) && a.index == i) ==>
              i in s.w.listers && Step(s, a).w.listers[i] == s.w.listers[i]
  {
  }

  lemma {:induction false} NotesLastTouch(ss: seq<State>, acts: seq<Action>, t: nat, created: int, k: nat, i: u64)
    requires RunFrom(ss, acts, t, created) && k < |ss| && i in ss[k].w.listers
    ensures Touched(acts, k, i) == Some(ss[k].w.listers[i].lastSeen)
  {
    hide Enabled, Step;
    if k > 0 {
      NotesTouch(ss[k - 1], acts[k - 1], i);
      if !(acts[k - 1].AddLister? && acts[k - 1].index == i) { NotesLastTouch(ss, acts, t, created, k - 1, i); }
    } else {
      NoListers(t, created);
    }
  }

  lemma NoListers(t: nat, created: int)
    ensures Init(t, created).w.listers == map[]
  {
  }

  /** In every run, a tick of the sweep removes a lister exactly if it was last added or asked for more
      than 60 seconds ago; a discarded worker's listers it leaves to cleanup. */
  lemma SweptExactlyIf(ss: seq<State>, acts: seq<Action>, t: nat, created: int, k: nat, i: u64)
    requires RunFrom(ss, acts, t, created) && k < |acts| && acts[k].Sweep? && i in ss[k].w.listers
    ensures Touched(acts, k, i).Some?
    ensures i !in ss[k + 1].w.listers <==> !ss[k].w.discarded && acts[k].now - Touched(acts, k, i).value > 60
  {
    NotesLastTouch(ss, acts, t, created, k, i);
    assert ss[k + 1] == Step(ss[k], acts[k]);
  }

  /** And what it removes it closes at that tick. */
  lemma SweepCloses(ss: seq<State>, acts: seq<Action>, t: nat, created: int, k: nat, i: u64)
    requires RunFrom(ss, acts, t, created) && k < |acts| && acts[k].Sweep?
    requires i in ss[k].w.listers && i !in ss[k + 1].w.listers
    ensures var o := ss[k].w.listers[i].obj; ss[k].closed[o] == 0 && ss[k + 1].closed[o] == 1
  {
    hide Enabled, Step, Inv;
    RunFromIsRun(ss, acts, t, created);
    RunInv(ss, acts, k);
    RunInv(ss, acts, k + 1);
    GoneIsClosed(ss[k], acts[k], i);
  }

  lemma GoneIsClosed(s: State, a: Action, i: u64)
    requires Inv(s) && Enabled(s, a) && a.Sweep? && Inv(Step(s, a)) && i in s.w.listers && i !in Step(s, a).w.listers
    ensures var o := s.w.listers[i].obj; s.closed[o] == 0 && Step(s, a).closed[o] == 1
  {
    if s.cleaners != [] { CleanupRunsAlone(s, a); }
    var o := s.w.listers[i].obj;
    assert s.place[o] == InListers(i) && Step(s, a).place[o] == Gone;
  }
}

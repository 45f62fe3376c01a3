/** OPEN and CLOSE as goroutines run them: each takes the worker's lock twice, to look and to change
    the table, with the whole opening of the file in between (mux_v4.go Open and Close). */
module OpenRaces {
  import opened Octets
  import W = Worker
  import opened O = Opens

  /** An OPEN that found no file of its client and id, and when it looked. */
  datatype Opening = Opening(client: nat, seqID: u32, looked: nat)

  /** When the OPEN of a file looked, and when it added the file. */
  datatype Birth = Birth(looked: nat, added: nat)

  /** opening: OPENs between the look and AddFile; closing: CLOSEs between the look and RemoveFile,
      with the index they are about to remove. clock counts the actions, births is the history. */
  datatype State = State(t: W.Tables, opening: map<nat, Opening>, closing: map<nat, u64>,
                         clock: nat, births: map<u64, Birth>)

  datatype Action =
    | Look(g: nat, client: nat, seqID: u32, found: Option<u64>)   // GetFileByClientSeqID
    | Add(g: nat, file: Option<nat>, index: u64)                  // AddFile, or a refusal
    | AskRemoved(g: nat, index: u64)                              // IsRemovedFile
    | Remove(g: nat)                                              // RemoveFile

  const INIT := State(W.NEW, map[], map[], 0, map[])

  predicate Enabled(s: State, a: Action) {
    match a
    case Look(g, client, seqID, found) =>
      && g !in s.opening && g !in s.closing
      && if found.Some? then found.value in s.t.files && Matches(s.t.files[found.value], client, seqID)
         else forall i :: i in s.t.files ==> !Matches(s.t.files[i], client, seqID)
    case Add(g, _, index) => g in s.opening && index !in s.t.files
    case AskRemoved(g, _) => g !in s.opening && g !in s.closing
    case Remove(g) => g in s.closing
  }

  function Step(s: State, a: Action): State
    requires Enabled(s, a)
  {
    var s' := s.(clock := s.clock + 1);
    match a
    case Look(g, client, seqID, found) =>
      if found.Some? then s' else s'.(opening := s.opening[g := Opening(client, seqID, s.clock)])
    case Add(g, file, index) =>
      var o := s.opening[g];
      var s'' := s'.(opening := s.opening - {g});
      if file.None? then s''
      else s''.(t := s.t.AddFile(index, W.File(file.value, o.client, o.seqID)),
                births := s.births[index := Birth(o.looked, s.clock)])
    case AskRemoved(g, index) => if index in s.t.closedFiles then s' else s'.(closing := s.closing[g := index])
    case Remove(g) => s'.(t := s.t.RemoveFile(s.closing[g]), closing := s.closing - {g})
  }

  ghost predicate Run(ss: seq<State>, acts: seq<Action>) {
    && |ss| == |acts| + 1 && ss[0] == INIT
    && forall k :: 0 <= k < |acts| ==> Enabled(ss[k], acts[k]) && ss[k + 1] == Step(ss[k], acts[k])
  }

  lemma Extend(ss: seq<State>, acts: seq<Action>, a: Action) returns (ss': seq<State>, acts': seq<Action>)
    requires Run(ss, acts) && Enabled(ss[|acts|], a)
    ensures ss' == ss + [Step(ss[|acts|], a)] && acts' == acts + [a] && Run(ss', acts')
  {
    hide Enabled, Step;
    ss', acts' := ss + [Step(ss[|acts|], a)], acts + [a];
  }

  predicate SameOpening(o: Opening, p: Opening) { o.client == p.client && o.seqID == p.seqID }

  predicate IsFor(f: W.File, o: Opening) { Matches(f, o.client, o.seqID) }

  /** Two OPENs of one client and id are both between the look and AddFile. */
  ghost predicate Together(s: State) {
    exists g, h :: g in s.opening && h in s.opening && g != h && SameOpening(s.opening[g], s.opening[h])
  }

  // ---------------------------------------------------------------- never together

  /** One file per client and id, and none yet for an OPEN on its way. */
  ghost predicate Single(s: State) {
    Unique(s.t) && forall g, i :: g in s.opening && i in s.t.files ==> !IsFor(s.t.files[i], s.opening[g])
  }

  lemma AddSingle(s: State, a: Action)
    requires Single(s) && !Together(s) && Enabled(s, a) && a.Add?
    ensures Single(Step(s, a))
  {
    var s' := Step(s, a);
    forall h | h in s'.opening
      ensures !SameOpening(s.opening[h], s.opening[a.g])
    {
      assert h in s.opening && h != a.g;
    }
  }

  lemma SingleStep(s: State, a: Action)
    requires Single(s) && !Together(s) && Enabled(s, a)
    ensures Single(Step(s, a))
  {
    if a.Add? { AddSingle(s, a); }
  }

  lemma {:induction false} RunSingle(ss: seq<State>, acts: seq<Action>, k: nat)
    requires Run(ss, acts) && k < |ss| && forall j :: 0 <= j < k ==> !Together(ss[j])
    ensures Single(ss[k])
  {
    hide Enabled, Step, Single, Together;
    if k == 0 {
      InitSingle();
    } else {
      RunSingle(ss, acts, k - 1);
      SingleStep(ss[k - 1], acts[k - 1]);
    }
  }

  lemma InitSingle()
    ensures Single(INIT)
  {
  }

  /** While no two OPENs of one client and id have been together, a look finds the file with a given
      id exactly if it is of that client and OPEN id; and what it finds it does not add again. */
  lemma RepeatedLook(ss: seq<State>, acts: seq<Action>, k: nat, id: u64)
    requires Run(ss, acts) && k < |acts| && (forall j :: 0 <= j < k ==> !Together(ss[j]))
    requires acts[k].Look? && id in ss[k].t.files
    ensures acts[k].found == Some(id) <==> Matches(ss[k].t.files[id], acts[k].client, acts[k].seqID)
    ensures acts[k].found.Some? ==> ss[k + 1].t == ss[k].t && ss[k + 1].opening == ss[k].opening
  {
    hide Together;
    RunSingle(ss, acts, k);
    var a, files := acts[k], ss[k].t.files;
    assert Enabled(ss[k], a);
    if Matches(files[id], a.client, a.seqID) && a.found.Some? {
      assert Matches(files[a.found.value], files[id].client, files[id].clientSeqID);
    }
  }

  /** In NFSv4.1: a look for the OPEN at sequence number t on slot b finds the open file of the same client
      whose OPEN was at s on slot a exactly if it is the same compound or slot 15 followed by slot 0. */
  lemma RepeatedLook41(ss: seq<State>, acts: seq<Action>, k: nat, id: u64, s: nat, a: nat, t: nat, b: nat)
    requires Run(ss, acts) && k < |acts| && (forall j :: 0 <= j < k ==> !Together(ss[j]))
    requires acts[k].Look? && id in ss[k].t.files && ss[k].t.files[id].client == acts[k].client
    requires a <= MAX_SLOT_ID && b <= MAX_SLOT_ID && s <= t < s + 286331153
    requires ss[k].t.files[id].clientSeqID == OpenID(s % TWO32, a) && acts[k].seqID == OpenID(t % TWO32, b)
    ensures acts[k].found == Some(id) <==> (s == t && a == b) || (t == s + 1 && a == MAX_SLOT_ID && b == 0)
  {
    hide OpenID, Run, Together;
    OpenIDsCollide(s, a, t, b);
    RepeatedLook(ss, acts, k, id);
  }

  // ---------------------------------------------------------------- together

  /** Two files of one client and id can come of the OPENs that are on their way. */
  ghost predicate CanDouble(s: State) {
    exists a: Action, b: Action :: Doubles(s, a, b)
  }

  ghost predicate Doubles(s: State, a: Action, b: Action) {
    a.Add? && b.Add? && Enabled(s, a) && Enabled(Step(s, a), b) && !Unique(Step(Step(s, a), b).t)
  }

  lemma TogetherDoubles(s: State, i: u64, j: u64)
    requires Together(s) && i != j && i !in s.t.files && j !in s.t.files
    ensures CanDouble(s)
  {
    var g, h :| g in s.opening && h in s.opening && g != h && SameOpening(s.opening[g], s.opening[h]);
    var a, b := Add(g, Some(0), i), Add(h, Some(1), j);
    var s'' := Step(Step(s, a), b);
    assert Matches(s''.t.files[j], s''.t.files[i].client, s''.t.files[i].clientSeqID);
    assert Doubles(s, a, b);
  }

  lemma ApartStays(s: State, a: Action, b: Action)
    requires Single(s) && !Together(s) && a.Add? && b.Add? && Enabled(s, a) && Enabled(Step(s, a), b)
    ensures Unique(Step(Step(s, a), b).t)
  {
    SingleStep(s, a);
    var s' := Step(s, a);
    SingleStep(s', b);
  }

  /** In every interleaving, up to and including the first moment at which two OPENs of one client and
      id are between the look and AddFile, there is one file per client and id; and the OPENs on their
      way can make it two exactly if that moment has come. (Two indices are free.) */
  lemma UniqueExactlyIf(ss: seq<State>, acts: seq<Action>, k: nat, i: u64, j: u64)
    requires Run(ss, acts) && k < |ss| && (forall m :: 0 <= m < k ==> !Together(ss[m]))
    requires i != j && i !in ss[k].t.files && j !in ss[k].t.files
    ensures Unique(ss[k].t) && (CanDouble(ss[k]) <==> Together(ss[k]))
  {
    hide Enabled, Step;
    RunSingle(ss, acts, k);
    hide Together, Unique;
    if Together(ss[k]) {
      TogetherDoubles(ss[k], i, j);
    } else {
      forall a: Action, b: Action | Doubles(ss[k], a, b)
        ensures false
      {
        ApartStays(ss[k], a, b);
      }
    }
  }

  ghost predicate Times(s: State) {
    && (forall g :: g in s.opening ==> s.opening[g].looked < s.clock)
    && (forall i :: i in s.t.files ==> i in s.births && s.births[i].looked < s.births[i].added < s.clock)
  }

  /** An OPEN on its way looked before any open file of its client and id was added. */
  ghost predicate LookedFirst(s: State)
    requires Times(s)
  {
    forall g, i :: g in s.opening && i in s.t.files && IsFor(s.t.files[i], s.opening[g]) ==>
      s.opening[g].looked < s.births[i].added
  }

  /** Two open files of one client and id come of two OPENs each of which looked before the other
      had added its file. */
  ghost predicate Crossed(s: State)
    requires Times(s)
  {
    forall i, j :: i in s.t.files && j in s.t.files && i != j
                   && Matches(s.t.files[j], s.t.files[i].client, s.t.files[i].clientSeqID) ==>
      s.births[i].looked < s.births[j].added
  }

  ghost predicate Overlapped(s: State) { Times(s) && LookedFirst(s) && Crossed(s) }

  lemma TimesStep(s: State, a: Action)
    requires Times(s) && Enabled(s, a)
    ensures Times(Step(s, a))
  {
  }

  lemma LookedFirstStep(s: State, a: Action)
    requires Times(s) && LookedFirst(s) && Enabled(s, a) && Times(Step(s, a))
    ensures LookedFirst(Step(s, a))
  {
    var s' := Step(s, a);
    forall g, i | g in s'.opening && i in s'.t.files && IsFor(s'.t.files[i], s'.opening[g])
      ensures s'.opening[g].looked < s'.births[i].added
    {
      if a.Add? && a.file.Some? && i == a.index {
        assert s'.births[i].added == s.clock;
      } else {
        assert i in s.t.files && s'.t.files[i] == s.t.files[i] && s'.births[i] == s.births[i];
      }
    }
  }

  lemma CrossedStep(s: State, a: Action)
    requires Times(s) && LookedFirst(s) && Crossed(s) && Enabled(s, a) && Times(Step(s, a))
    ensures Crossed(Step(s, a))
  {
    hide Times, LookedFirst, Crossed;
    var s' := Step(s, a);
    if a.Add? && a.file.Some? { CrossedAdd(s, s', a.g, a.index); } else { CrossedLess(s, s'); }
  }

  lemma CrossedLess(s: State, s': State)
    requires Times(s) && Crossed(s) && Times(s') && s'.births == s.births
    requires forall i :: i in s'.t.files ==> i in s.t.files && s'.t.files[i] == s.t.files[i]
    ensures Crossed(s')
  {
  }

  lemma CrossedAdd(s: State, s': State, g: nat, index: u64)
    requires Times(s) && LookedFirst(s) && Crossed(s) && Times(s') && g in s.opening && index !in s.t.files
    requires s'.t.files.Keys == s.t.files.Keys + {index} && IsFor(s'.t.files[index], s.opening[g])
    requires forall i :: i in s.t.files ==> s'.t.files[i] == s.t.files[i]
    requires forall i :: i in s.births && i != index ==> i in s'.births && s'.births[i] == s.births[i]
    requires index in s'.births && s'.births[index] == Birth(s.opening[g].looked, s.clock)
    ensures Crossed(s')
  {
  }

  lemma OverlappedStep(s: State, a: Action)
    requires Overlapped(s) && Enabled(s, a)
    ensures Overlapped(Step(s, a))
  {
    hide Times, LookedFirst, Crossed, Enabled, Step;
    TimesStep(s, a);
    LookedFirstStep(s, a);
    CrossedStep(s, a);
  }

  /** In every interleaving whatsoever, two open files of one client and id come of two OPENs each of
      which looked before the other had added its file. */
  lemma {:induction false} DuplicatesOverlapped(ss: seq<State>, acts: seq<Action>, k: nat)
    requires Run(ss, acts) && k < |ss|
    ensures Overlapped(ss[k])
  {
    hide Enabled, Step, Overlapped;
    if k == 0 {
      InitOverlapped();
    } else {
      DuplicatesOverlapped(ss, acts, k - 1);
      OverlappedStep(ss[k - 1], acts[k - 1]);
    }
  }

  lemma InitOverlapped()
    ensures Overlapped(INIT)
  {
  }

  /** It does happen: the same OPEN on two connections opens two files. */
  lemma TwoFiles() returns (ss: seq<State>, acts: seq<Action>)
    ensures Run(ss, acts) && ss[|acts|].t.files == map[5 := W.File(100, 1, 7), 6 := W.File(101, 1, 7)]
    ensures !Unique(ss[|acts|].t)
  {
    ss, acts := [INIT], [];
    ss, acts := Extend(ss, acts, Look(1, 1, 7, None));
    ss, acts := Extend(ss, acts, Look(2, 1, 7, None));
    ss, acts := Extend(ss, acts, Add(1, Some(100), 5));
    ss, acts := Extend(ss, acts, Add(2, Some(101), 6));
    var files := ss[4].t.files;
    assert Matches(files[6], files[5].client, files[5].clientSeqID);
  }

  // ---------------------------------------------------------------- CLOSE

  /** What RemoveFile finds for a CLOSE that has asked: the file it closes, or none and BAD_SEQID. */
  function Closes(s: State, g: nat): Option<nat>
    requires g in s.closing
  {
    var i := s.closing[g];
    if i in s.t.files then Some(s.t.files[i].obj) else None
  }

  /** Two CLOSEs of one file that have both asked: the first closes it, and the second closes nothing
      and fails, unless an OPEN has taken the index in between. */
  lemma SecondCloseFails(ss: seq<State>, acts: seq<Action>, k: nat, j: nat, h: nat)
    requires Run(ss, acts) && k < j < |ss| && acts[k].Remove? && h != acts[k].g
    requires acts[k].g in ss[k].closing && h in ss[k].closing && ss[k].closing[h] == ss[k].closing[acts[k].g]
    requires forall m :: k < m < j ==> acts[m] != Remove(h)
    requires forall m :: k < m < j ==> !(acts[m].Add? && acts[m].index == ss[k].closing[h])
    ensures h in ss[j].closing && ss[j].closing[h] == ss[k].closing[h] && Closes(ss[j], h) == None
    decreases j
  {
    if k + 1 < j {
      SecondCloseFails(ss, acts, k, j - 1, h);
      NotAgain(ss[j - 1], acts[j - 1], h);
    }
  }

  lemma NotAgain(s: State, a: Action, h: nat)
    requires Enabled(s, a) && h in s.closing && Closes(s, h) == None && a != Remove(h)
    requires !(a.Add? && a.index == s.closing[h])
    ensures h in Step(s, a).closing && Step(s, a).closing[h] == s.closing[h] && Closes(Step(s, a), h) == None
  {
  }
}

/** SEQUENCE on one slot as the goroutines of a connection run it (conn.go starts one per request, and
    no lock protects a slot): the checks, the claim of the number and the copy of the reply are
    three separate actions. */
module SlotRaces {
  import opened Octets
  import opened S = Slots

  /** checked: requests that have passed the checks and not yet written the slot. running: those that
      have. claims: the requests whose operations run or ran, in the order in which they wrote the
      slot. copied: the replies copied into the cache. order: see Serial. */
  datatype State = State(
    slot: Slot, checked: map<nat, Request>, running: map<nat, Request>,
    claims: seq<Request>, copied: seq<seq<byte>>, order: seq<Request>)

  datatype Action = Check(g: nat, q: Request) | Claim(g: nat) | Finish(g: nat)

  function Init(persist: bool): State { State(NewSlot(persist), map[], map[], [], [], []) }

  predicate Enabled(s: State, a: Action) {
    match a
    case Check(g, _) => g !in s.checked && g !in s.running
    case Claim(g) => g in s.checked
    case Finish(g) => g in s.running
  }

  /** The reply is copied if the slot says so at that moment, whoever made it say so. */
  predicate Copies(s: State, g: nat)
    requires g in s.running
  {
    s.slot.containsData && s.slot.cache.Some? && s.running[g].outcome.Reply?
  }

  function Step(s: State, a: Action): State
    requires Enabled(s, a)
  {
    match a
    case Check(g, q) =>
      if Judge(s.slot, q.sequenceID).Execute? then s.(checked := s.checked[g := q])
      else s.(order := s.order + [q])
    case Claim(g) =>
      var q := s.checked[g];
      s.(slot := Accept(s.slot, q), checked := s.checked - {g}, running := s.running[g := q],
         claims := s.claims + [q], order := s.order + [q])
    case Finish(g) =>
      var s' := s.(running := s.running - {g});
      if !Copies(s, g) then s'
      else
        var bytes := s.running[g].outcome.bytes;
        s'.(slot := s.slot.(cache := Some(s.slot.cache.value + bytes)), copied := s.copied + [bytes])
  }

  ghost predicate Run(persist: bool, ss: seq<State>, acts: seq<Action>) {
    && |ss| == |acts| + 1 && ss[0] == Init(persist)
    && forall k :: 0 <= k < |acts| ==> Enabled(ss[k], acts[k]) && ss[k + 1] == Step(ss[k], acts[k])
  }

  lemma Extend(persist: bool, ss: seq<State>, acts: seq<Action>, a: Action)
    returns (ss': seq<State>, acts': seq<Action>)
    requires Run(persist, ss, acts) && Enabled(ss[|acts|], a)
    ensures ss' == ss + [Step(ss[|acts|], a)] && acts' == acts + [a] && Run(persist, ss', acts')
  {
    hide Enabled, Step;
    ss', acts' := ss + [Step(ss[|acts|], a)], acts + [a];
  }

  // ---------------------------------------------------------------- without overlap

  /** At most one request is between its checks and its claim. */
  ghost predicate Alone(s: State) { forall g, h :: g in s.checked && h in s.checked ==> g == h }

  /** Equal for all that the checks look at. */
  predicate Like(a: Slot, b: Slot) {
    a.sequenceID == b.sequenceID && a.containsData == b.containsData && a.cache.Some? == b.cache.Some?
  }

  /** The requests might as well have come one after the other: those that were let through in the
      order of their claims, the others where they were refused. */
  ghost predicate Serial(persist: bool, s: State) {
    && Like(s.slot, End(NewSlot(persist), s.order))
    && s.claims == Executed(NewSlot(persist), s.order)
    && forall g :: g in s.checked ==> Judge(s.slot, s.checked[g].sequenceID) == Execute
  }

  lemma JudgeLike(a: Slot, b: Slot, n: u32)
    requires Like(a, b)
    ensures Judge(a, n) == Judge(b, n)
  {
  }

  lemma SerialStep(persist: bool, s: State, a: Action)
    requires Serial(persist, s) && Alone(s) && Enabled(s, a)
    ensures Serial(persist, Step(s, a))
  {
    var s', z := Step(s, a), NewSlot(persist);
    if a.Check? && !Judge(s.slot, a.q.sequenceID).Execute? {
      Appended(z, s.order, a.q, s.slot);
    } else if a.Claim? {
      Appended(z, s.order, s.checked[a.g], s.slot);
      assert forall g :: g !in s'.checked;
    } else if a.Finish? {
      assert Like(s'.slot, s.slot);
      forall g | g in s'.checked ensures Judge(s'.slot, s'.checked[g].sequenceID) == Execute {
        JudgeLike(s'.slot, s.slot, s'.checked[g].sequenceID);
      }
    }
  }

  lemma Appended(z: Slot, order: seq<Request>, q: Request, slot: Slot)
    requires Like(slot, End(z, order))
    ensures var order' := order + [q];
            if Judge(slot, q.sequenceID).Execute?
            then Executed(z, order') == Executed(z, order) + [q] && Like(Accept(slot, q), End(z, order'))
            else Executed(z, order') == Executed(z, order) && Like(slot, End(z, order'))
  {
    var order' := order + [q];
    assert order'[..|order|] == order;
    OneMore(z, order');
    JudgeLike(slot, End(z, order), q.sequenceID);
  }

  /** In every interleaving up to the first overlap, the slot and what runs are those of requests
      that come one after the other. */
  lemma {:induction false} RunSerial(persist: bool, ss: seq<State>, acts: seq<Action>, k: nat)
    requires Run(persist, ss, acts) && k < |ss| && forall j :: 0 <= j < k ==> Alone(ss[j])
    ensures Serial(persist, ss[k])
  {
    hide Enabled, Step, Serial, Alone;
    if k == 0 {
      InitSerial(persist);
    } else {
      RunSerial(persist, ss, acts, k - 1);
      SerialStep(persist, ss[k - 1], acts[k - 1]);
    }
  }

  lemma InitSerial(persist: bool)
    ensures Serial(persist, Init(persist))
  {
  }

  // ---------------------------------------------------------------- a number runs twice

  /** Two requests with one number are both between their checks and their claims. */
  ghost predicate Overlap(s: State, g: nat, h: nat) {
    g != h && g in s.checked && h in s.checked && s.checked[g].sequenceID == s.checked[h].sequenceID
  }

  ghost predicate SomeOverlap(s: State) { exists g, h :: Overlap(s, g, h) }

  /** Without PERSIST the first time that two requests are between checks and claim, they carry the
      same number. */
  lemma FirstOverlap(ss: seq<State>, acts: seq<Action>, k: nat) returns (j: nat)
    requires Run(false, ss, acts) && k < |ss| && !Alone(ss[k])
    ensures j <= k && SomeOverlap(ss[j])
  {
    j := FirstTime(ss, k);
    hide Enabled, Step;
    RunSerial(false, ss, acts, j);
    var s := ss[j];
    var g, h :| g in s.checked && h in s.checked && g != h;
    OnlyNext(s, g);
    OnlyNext(s, h);
    assert Overlap(s, g, h);
  }

  lemma {:induction false} FirstTime(ss: seq<State>, k: nat) returns (j: nat)
    requires k < |ss| && !Alone(ss[k])
    ensures j <= k && !Alone(ss[j]) && forall i :: 0 <= i < j ==> Alone(ss[i])
  {
    hide Alone;
    if i :| 0 <= i < k && !Alone(ss[i]) {
      j := FirstTime(ss, i);
    } else {
      j := k;
    }
  }

  lemma OnlyNext(s: State, g: nat)
    requires Serial(false, s) && g in s.checked
    ensures s.checked[g].sequenceID == Next(s.slot.sequenceID)
  {
    InSequence(NewSlot(false), s.order);
  }

  /** Requests with number n that have passed the checks, claimed or not. */
  function Holding(s: State, n: u32): set<nat> { set g | g in s.checked && s.checked[g].sequenceID == n }
  function Claimed(claims: seq<Request>, n: u32): nat {
    if claims == [] then 0
    else Claimed(claims[..|claims| - 1], n) + if claims[|claims| - 1].sequenceID == n then 1 else 0
  }

  lemma PassedGrows(s: State, a: Action, n: u32)
    requires Enabled(s, a)
    ensures Claimed(s.claims, n) + |Holding(s, n)| <= Claimed(Step(s, a).claims, n) + |Holding(Step(s, a), n)|
  {
    var s' := Step(s, a);
    if a.Check? {
      assert Holding(s, n) <= Holding(s', n);
      Subset(Holding(s, n), Holding(s', n));
    } else if a.Claim? {
      assert s'.claims[..|s.claims|] == s.claims;
      assert Holding(s', n) == Holding(s, n) - {a.g};
    } else {
      assert Holding(s', n) == Holding(s, n);
    }
  }

  lemma Subset(a: set<nat>, b: set<nat>)
    requires a <= b
    ensures |a| <= |b|
  {
    assert b == a + (b - a);
  }

  lemma {:induction false} PassedGrowsAlong(persist: bool, ss: seq<State>, acts: seq<Action>, k: nat, j: nat, n: u32)
    requires Run(persist, ss, acts) && k <= j < |ss|
    ensures Claimed(ss[k].claims, n) + |Holding(ss[k], n)| <= Claimed(ss[j].claims, n) + |Holding(ss[j], n)|
    decreases j
  {
    hide Enabled, Step, Claimed, Holding;
    if k < j {
      PassedGrowsAlong(persist, ss, acts, k, j - 1, n);
      PassedGrows(ss[j - 1], acts[j - 1], n);
    }
  }

  lemma {:induction false} TwoClaims(claims: seq<Request>, n: u32)
    requires Claimed(claims, n) >= 2
    ensures SomeNumberTwice(claims)
  {
    var m := |claims| - 1;
    var before := claims[..m];
    if claims[m].sequenceID == n {
      var i := OneClaim(before, n);
      assert claims[i].sequenceID == claims[m].sequenceID;
    } else {
      TwoClaims(before, n);
      var i, j :| 0 <= i < j < |before| && before[i].sequenceID == before[j].sequenceID;
      assert claims[i].sequenceID == claims[j].sequenceID;
    }
  }

  lemma {:induction false} OneClaim(claims: seq<Request>, n: u32) returns (i: nat)
    requires Claimed(claims, n) >= 1
    ensures i < |claims| && claims[i].sequenceID == n
  {
    if claims[|claims| - 1].sequenceID == n { i := |claims| - 1; } else { i := OneClaim(claims[..|claims| - 1], n); }
  }

  /** On any slot: two requests with one number that are together between checks and claim both run,
      once they have claimed. */
  lemma OverlapRunsTwice(persist: bool, ss: seq<State>, acts: seq<Action>, k: nat, g: nat, h: nat)
    requires Run(persist, ss, acts) && k < |ss| && Overlap(ss[k], g, h) && ss[|acts|].checked == map[]
    ensures Claimed(ss[|acts|].claims, ss[k].checked[g].sequenceID) >= 2 && SomeNumberTwice(ss[|acts|].claims)
  {
    var n := ss[k].checked[g].sequenceID;
    assert {g, h} <= Holding(ss[k], n);
    Subset({g, h}, Holding(ss[k], n));
    PassedGrowsAlong(persist, ss, acts, k, |acts|, n);
    assert Holding(ss[|acts|], n) == {};
    TwoClaims(ss[|acts|].claims, n);
  }

  /** At most once, over all interleavings of a slot without PERSIST: once everybody who passed the
      checks has claimed, and within 2^32 claims, some number has run twice exactly if at some
      moment two requests with one number were both between their checks and their claims. */
  lemma TwiceExactlyIfOverlap(ss: seq<State>, acts: seq<Action>)
    requires Run(false, ss, acts) && ss[|acts|].checked == map[] && |ss[|acts|].claims| <= TWO32
    ensures SomeNumberTwice(ss[|acts|].claims) <==> exists k :: 0 <= k < |ss| && SomeOverlap(ss[k])
  {
    hide Enabled, Step;
    var n := |acts|;
    if k :| 0 <= k < |ss| && SomeOverlap(ss[k]) {
      var g, h :| Overlap(ss[k], g, h);
      OverlapRunsTwice(false, ss, acts, k, g, h);
    } else {
      forall j | 0 <= j < |ss| ensures Alone(ss[j]) {
        if !Alone(ss[j]) {
          var i := FirstOverlap(ss, acts, j);
          assert false;
        }
      }
      RunSerial(false, ss, acts, n);
      InSequence(NewSlot(false), ss[n].order);
      Distinct(ss[n].claims);
    }
  }

  lemma Distinct(claims: seq<Request>)
    requires |claims| <= TWO32 && forall k :: 0 <= k < |claims| ==> claims[k].sequenceID == Truncate32(k + 1)
    ensures !SomeNumberTwice(claims)
  {
    forall i, j | 0 <= i < j < |claims| ensures claims[i].sequenceID != claims[j].sequenceID {
      assert claims[i].sequenceID == Truncate32(i + 1) && claims[j].sequenceID == Truncate32(j + 1);
    }
  }

  // ---------------------------------------------------------------- on any slot

  /** In every interleaving the slot shows the last claim: its number, and on a persistent slot whether
      it asked for caching. */
  ghost predicate ShowsLast(persist: bool, s: State) {
    && s.slot.cache.Some? == persist
    && if s.claims == [] then s.slot.sequenceID == 0 && !s.slot.containsData
       else
         var last := s.claims[|s.claims| - 1];
         s.slot.sequenceID == last.sequenceID && s.slot.containsData == (persist && last.cacheThis)
  }

  lemma {:induction false} RunShowsLast(persist: bool, ss: seq<State>, acts: seq<Action>, k: nat)
    requires Run(persist, ss, acts) && k < |ss|
    ensures ShowsLast(persist, ss[k])
  {
    if k > 0 { RunShowsLast(persist, ss, acts, k - 1); }
  }

  /** A request with the number of the last claim is let through: that claim did not ask for caching. */
  ghost predicate RepeatLetThrough(s: State, a: Action) {
    && a.Check? && s.claims != [] && Judge(s.slot, a.q.sequenceID).Execute?
    && a.q.sequenceID == s.claims[|s.claims| - 1].sequenceID
  }

  /** A request with number 0 is let through before anything has run. */
  ghost predicate ZeroFirst(s: State, a: Action) {
    a.Check? && s.claims == [] && Judge(s.slot, a.q.sequenceID).Execute? && a.q.sequenceID == 0
  }

  lemma RepeatIsUncached(persist: bool, s: State, a: Action)
    requires ShowsLast(persist, s) && RepeatLetThrough(s, a)
    ensures persist && !s.claims[|s.claims| - 1].cacheThis
  {
  }

  /** The k-th claim carries k, and whoever has passed the checks carries the next number. */
  ghost predicate Counts(s: State) {
    && s.slot.sequenceID == Truncate32(|s.claims|)
    && (forall i :: 0 <= i < |s.claims| ==> s.claims[i].sequenceID == Truncate32(i + 1))
    && (forall g :: g in s.checked ==> s.checked[g].sequenceID == Next(s.slot.sequenceID))
  }

  lemma PassesWithNext(persist: bool, s: State, a: Action)
    requires ShowsLast(persist, s) && a.Check? && Judge(s.slot, a.q.sequenceID).Execute?
    requires !RepeatLetThrough(s, a) && !ZeroFirst(s, a)
    ensures a.q.sequenceID == Next(s.slot.sequenceID)
  {
  }

  lemma CountsStep(persist: bool, s: State, a: Action)
    requires Counts(s) && ShowsLast(persist, s) && Enabled(s, a) && !SomeOverlap(s)
    requires !RepeatLetThrough(s, a) && !ZeroFirst(s, a)
    ensures Counts(Step(s, a))
  {
    var s' := Step(s, a);
    if a.Check? && Judge(s.slot, a.q.sequenceID).Execute? {
      PassesWithNext(persist, s, a);
    } else if a.Claim? {
      forall h | h in s'.checked
        ensures false
      {
        assert Overlap(s, a.g, h);
      }
    }
  }

  lemma {:induction false} RunCounts(persist: bool, ss: seq<State>, acts: seq<Action>, k: nat)
    requires Run(persist, ss, acts) && k < |ss|
    requires forall j :: 0 <= j < k ==>
               !SomeOverlap(ss[j]) && !RepeatLetThrough(ss[j], acts[j]) && !ZeroFirst(ss[j], acts[j])
    ensures Counts(ss[k])
  {
    hide Enabled, Step, SomeOverlap, RepeatLetThrough, ZeroFirst, ShowsLast;
    if k > 0 {
      RunCounts(persist, ss, acts, k - 1);
      RunShowsLast(persist, ss, acts, k - 1);
      CountsStep(persist, ss[k - 1], acts[k - 1]);
    }
  }

  lemma RepeatRunsTwice(persist: bool, ss: seq<State>, acts: seq<Action>, k: nat)
    requires Run(persist, ss, acts) && k < |acts| && RepeatLetThrough(ss[k], acts[k]) && ss[|acts|].checked == map[]
    ensures SomeNumberTwice(ss[|acts|].claims)
  {
    var n := acts[k].q.sequenceID;
    var s' := ss[k + 1];
    assert s' == Step(ss[k], acts[k]) && s'.claims == ss[k].claims;
    LastClaimed(s'.claims);
    assert {acts[k].g} <= Holding(s', n);
    Subset({acts[k].g}, Holding(s', n));
    PassedGrowsAlong(persist, ss, acts, k + 1, |acts|, n);
    assert Holding(ss[|acts|], n) == {};
    TwoClaims(ss[|acts|].claims, n);
  }

  lemma LastClaimed(claims: seq<Request>)
    requires claims != []
    ensures Claimed(claims, claims[|claims| - 1].sequenceID) >= 1
  {
  }

  /** At most once, over all interleavings of any slot on which no request with number 0 came first: some
      number has run twice exactly if two requests with one number were both between their checks and
      their claims, or a request was let through with the number of the last claim, which on a slot
      without PERSIST never happens. */
  lemma TwiceExactlyIf(persist: bool, ss: seq<State>, acts: seq<Action>)
    requires Run(persist, ss, acts) && ss[|acts|].checked == map[] && |ss[|acts|].claims| <= TWO32
    requires forall k :: 0 <= k < |acts| ==> !ZeroFirst(ss[k], acts[k])
    ensures SomeNumberTwice(ss[|acts|].claims)
       <==> || (exists k :: 0 <= k < |ss| && SomeOverlap(ss[k]))
            || (exists k :: 0 <= k < |acts| && RepeatLetThrough(ss[k], acts[k]))
  {
    hide Enabled, Step, RepeatLetThrough, ZeroFirst;
    if k :| 0 <= k < |ss| && SomeOverlap(ss[k]) {
      var g, h :| Overlap(ss[k], g, h);
      OverlapRunsTwice(persist, ss, acts, k, g, h);
    } else if k :| 0 <= k < |acts| && RepeatLetThrough(ss[k], acts[k]) {
      RepeatRunsTwice(persist, ss, acts, k);
    } else {
      RunCounts(persist, ss, acts, |acts|);
      Distinct(ss[|acts|].claims);
    }
  }

  /** Without overlap the k-th claim carries k: what Slots says of requests one after the other. */
  lemma AloneInSequence(ss: seq<State>, acts: seq<Action>, k: nat, i: nat)
    requires Run(false, ss, acts) && k < |ss| && (forall j :: 0 <= j < k ==> Alone(ss[j])) && i < |ss[k].claims|
    ensures ss[k].claims[i].sequenceID == Truncate32(i + 1)
  {
    hide Enabled, Step, Alone;
    RunSerial(false, ss, acts, k);
    InSequence(NewSlot(false), ss[k].order);
  }

  /** Without overlap on a persistent slot, two claims carry the same number only if the first did not
      ask for caching. */
  lemma AloneCachedRunsOnce(ss: seq<State>, acts: seq<Action>, k: nat, i: nat, j: nat)
    requires Run(true, ss, acts) && k < |ss| && (forall m :: 0 <= m < k ==> Alone(ss[m]))
    requires i < j < |ss[k].claims| && j - i < TWO32 && ss[k].claims[i].cacheThis
    ensures ss[k].claims[i].sequenceID != ss[k].claims[j].sequenceID
  {
    hide Enabled, Step, Alone;
    RunSerial(true, ss, acts, k);
    CachedRunsOnce(NewSlot(true), ss[k].order, i, j);
  }

  // ---------------------------------------------------------------- witnesses

  function Plain(n: u32): Request { Request(n, false, Reply([7])) }

  /** Two copies of the first request both run. */
  lemma BothCopiesRun() returns (ss: seq<State>, acts: seq<Action>)
    ensures Run(false, ss, acts) && ss[|acts|].checked == map[] && ss[|acts|].claims == [Plain(1), Plain(1)]
  {
    ss, acts := [Init(false)], [];
    ss, acts := Extend(false, ss, acts, Check(1, Plain(1)));
    ss, acts := Extend(false, ss, acts, Check(2, Plain(1)));
    ss, acts := Extend(false, ss, acts, Claim(1));
    ss, acts := Extend(false, ss, acts, Claim(2));
  }

  /** A request with number 0, which a new persistent slot lets through, can set the slot back too. */
  lemma ZeroSetsBack() returns (ss: seq<State>, acts: seq<Action>)
    ensures Run(true, ss, acts) && ss[|acts|].claims == [Plain(1), Plain(0), Plain(1)]
    ensures ss[|acts|].checked == map[] && ZeroFirst(ss[0], acts[0])
  {
    ss, acts := [Init(true)], [];
    ss, acts := Extend(true, ss, acts, Check(1, Plain(0)));
    ss, acts := Extend(true, ss, acts, Check(2, Plain(1)));
    ss, acts := Extend(true, ss, acts, Claim(2));
    ss, acts := Extend(true, ss, acts, Claim(1));
    ss, acts := Extend(true, ss, acts, Check(3, Plain(1)));
    ss, acts := Extend(true, ss, acts, Claim(3));
  }

  ghost predicate NeverTogether(ss: seq<State>, n: u32) {
    forall k :: 0 <= k < |ss| ==> |Holding(ss[k], n)| <= 1
  }

  /** The number that runs twice need not be one whose requests overlapped: a late claim sets the slot
      back, and the number after it runs again. */
  lemma LaterNumberRunsTwice() returns (ss: seq<State>, acts: seq<Action>)
    ensures Run(false, ss, acts) && ss[|acts|].claims == [Plain(1), Plain(2), Plain(1), Plain(2)]
    ensures NeverTogether(ss, 2)
  {
    ss, acts := [Init(false)], [];
    assert Holding(ss[0], 2) == {};
    ss, acts := Quietly(ss, acts, Check(1, Plain(1)));
    ss, acts := Quietly(ss, acts, Check(2, Plain(1)));
    ss, acts := Quietly(ss, acts, Claim(1));
    ss, acts := Quietly(ss, acts, Check(3, Plain(2)));
    ss, acts := Quietly(ss, acts, Claim(3));
    ss, acts := Quietly(ss, acts, Claim(2));
    ss, acts := Quietly(ss, acts, Check(4, Plain(2)));
    ss, acts := Quietly(ss, acts, Claim(4));
  }

  lemma Quietly(ss: seq<State>, acts: seq<Action>, a: Action) returns (ss': seq<State>, acts': seq<Action>)
    requires Run(false, ss, acts) && NeverTogether(ss, 2) && Enabled(ss[|acts|], a)
    requires !(a.Check? && a.q.sequenceID == 2) || Holding(ss[|acts|], 2) == {}
    ensures ss' == ss + [Step(ss[|acts|], a)] && acts' == acts + [a] && Run(false, ss', acts') && NeverTogether(ss', 2)
  {
    ss', acts' := Extend(false, ss, acts, a);
    var s, s' := ss[|acts|], Step(ss[|acts|], a);
    if a.Check? && a.q.sequenceID == 2 {
      assert Holding(s', 2) <= {a.g};
      Subset(Holding(s', 2), {a.g});
    } else {
      assert Holding(s', 2) <= Holding(s, 2);
      Subset(Holding(s', 2), Holding(s, 2));
    }
  }

  // ---------------------------------------------------------------- a retry before the reply is there

  /** In every interleaving on a persistent slot the cache is the replies copied so far. */
  lemma {:induction false} CacheIsCopied(ss: seq<State>, acts: seq<Action>, k: nat)
    requires Run(true, ss, acts) && k < |ss|
    ensures ss[k].slot.cache == Some(Concat(ss[k].copied))
  {
    if k > 0 {
      CacheIsCopied(ss, acts, k - 1);
      var s, a := ss[k - 1], acts[k - 1];
      if a.Finish? && Copies(s, a.g) { ConcatSnoc(s.copied, s.running[a.g].outcome.bytes); }
    }
  }

  /** From the claim of a request that asks for caching until some reply is copied, and while no
      other request claims, a retry of its number is answered with the cache as it was before the
      claim: with an empty reply, if nothing had been copied yet. */
  lemma {:induction false} RetryGetsOldCache(ss: seq<State>, acts: seq<Action>, k: nat, j: nat)
    requires Run(true, ss, acts) && k < j < |ss| && acts[k].Claim? && ss[k].checked[acts[k].g].cacheThis
    requires forall i :: k < i < j ==> acts[i].Check?
    ensures Judge(ss[j].slot, ss[k].checked[acts[k].g].sequenceID) == Replay
    ensures ss[j].slot.cache == Some(Concat(ss[k].copied)) && ss[j].copied == ss[k].copied
  {
    CacheIsCopied(ss, acts, k);
    if k + 1 < j {
      RetryGetsOldCache(ss, acts, k, j - 1);
      assert acts[j - 1].Check?;
    }
  }

  /** Over all interleavings on a persistent slot: a retry is answered from the cache exactly if the last
      claim carries its number and asked for caching; a reply goes into the cache exactly if it is
      there while the last claim, whosever it is, asked for caching; and the answer is empty exactly
      if no reply has been copied yet. Replies are never empty. */
  lemma RetryGetsExactly(ss: seq<State>, acts: seq<Action>, k: nat, n: u32)
    requires Run(true, ss, acts) && k < |ss|
    requires forall b :: b in ss[k].copied ==> b != []
    ensures var s := ss[k];
            && (Judge(s.slot, n) == Replay <==>
                  s.claims != [] && s.claims[|s.claims| - 1].sequenceID == n && s.claims[|s.claims| - 1].cacheThis)
            && (forall g :: g in s.running ==>
                  (Copies(s, g) <==>
                     s.claims != [] && s.claims[|s.claims| - 1].cacheThis && s.running[g].outcome.Reply?))
            && s.slot.cache.Some? && (s.slot.cache.value == [] <==> s.copied == [])
  {
    RunShowsLast(true, ss, acts, k);
    CacheIsCopied(ss, acts, k);
    assert forall i :: 0 <= i < |ss[k].copied| ==> ss[k].copied[i] in ss[k].copied;
    ConcatEmpty(ss[k].copied);
  }

  function Cached(n: u32, b: byte): Request { Request(n, true, Reply([b])) }

  /** A reply that nobody asked to keep goes into the cache if another request has meanwhile set the
      flag, and is then that one's answer. */
  lemma RetryGetsAnothersReply() returns (ss: seq<State>, acts: seq<Action>)
    ensures Run(true, ss, acts) && ss[|acts|].claims == [Plain(1), Cached(2, 9)]
    ensures Judge(ss[|acts|].slot, 2) == Replay && ss[|acts|].slot.cache == Some([7])
  {
    ss, acts := [Init(true)], [];
    ss, acts := Extend(true, ss, acts, Check(1, Plain(1)));
    ss, acts := Extend(true, ss, acts, Claim(1));
    ss, acts := Extend(true, ss, acts, Check(2, Cached(2, 9)));
    ss, acts := Extend(true, ss, acts, Claim(2));
    ss, acts := Extend(true, ss, acts, Finish(1));
    assert [] + [7] == [7];
  }
}

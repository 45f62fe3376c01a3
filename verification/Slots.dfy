/** SEQUENCE slots: which requests run, what a slot remembers, what a retry gets
    (mux_v4.go RunSequence, clients/client.go). */
module Slots {
  import opened Octets

  /** clients.Slot; cache is the content of Buf, present in sessions created with PERSIST. */
  datatype Slot = Slot(sequenceID: u32, containsData: bool, cache: Option<seq<byte>>)

  /** What running the compound comes to: a reply, or an error that ends the connection. */
  datatype Outcome = Reply(bytes: seq<byte>) | Broke

  datatype Request = Request(sequenceID: u32, cacheThis: bool, outcome: Outcome)

  datatype Verdict = Replay | RetryUncached | Misordered | Execute

  function NewSlot(persist: bool): Slot { Slot(0, false, if persist then Some([]) else None) }

  function Next(n: u32): u32 { Truncate32(n + 1) }

  /** The checks at the head of RunSequence, in their order. */
  function Judge(s: Slot, sequenceID: u32): Verdict {
    if s.sequenceID == sequenceID && s.containsData then Replay
    else if s.sequenceID == sequenceID && s.cache.None? then RetryUncached
    else if s.sequenceID != sequenceID && Next(s.sequenceID) != sequenceID then Misordered
    else Execute
  }

  /** The slot when a request is let through: before its operations run. */
  function Accept(s: Slot, q: Request): Slot {
    Slot(q.sequenceID, q.cacheThis && s.cache.Some?, s.cache)
  }

  /** The slot after a request: Copy appends the reply to the cache. */
  function After(s: Slot, q: Request): Slot {
    if !Judge(s, q.sequenceID).Execute? then s
    else
      var a := Accept(s, q);
      if a.containsData && q.outcome.Reply? then a.(cache := Some(s.cache.value + q.outcome.bytes)) else a
  }

  function End(s: Slot, qs: seq<Request>): Slot
    decreases qs
  {
    if qs == [] then s else End(After(s, qs[0]), qs[1..])
  }

  /** The requests whose operations ran, in order. */
  function Executed(s: Slot, qs: seq<Request>): seq<Request>
    decreases qs
  {
    if qs == [] then []
    else (if Judge(s, qs[0].sequenceID).Execute? then [qs[0]] else []) + Executed(After(s, qs[0]), qs[1..])
  }

  // ---------------------------------------------------------------- without PERSIST

  /** At most once (section 2.10.6.1 of RFC 5661): whatever requests arrive in whatever order, the
      k-th one that runs carries the k-th sequence number after the slot's, modulo 2^32. */
  lemma {:induction false} InSequence(s: Slot, qs: seq<Request>)
    requires s.cache.None? && !s.containsData
    ensures End(s, qs).cache.None? && !End(s, qs).containsData
    ensures End(s, qs).sequenceID == Truncate32(s.sequenceID + |Executed(s, qs)|)
    ensures forall k :: 0 <= k < |Executed(s, qs)| ==>
              Executed(s, qs)[k].sequenceID == Truncate32(s.sequenceID + k + 1)
    decreases qs
  {
    if qs != [] {
      var s' := After(s, qs[0]);
      InSequence(s', qs[1..]);
      var ran, rest := Judge(s, qs[0].sequenceID).Execute?, Executed(s', qs[1..]);
      if ran {
        assert s'.sequenceID == Next(s.sequenceID);
        assert Executed(s, qs) == [qs[0]] + rest;
        forall k | 0 < k < |Executed(s, qs)|
          ensures Executed(s, qs)[k].sequenceID == Truncate32(s.sequenceID + k + 1)
        {
          assert Executed(s, qs)[k] == rest[k - 1];
          StepOn(s.sequenceID, k);
        }
        StepOn(s.sequenceID, |rest|);
        StepOn(s.sequenceID, |rest| + 1);
      } else {
        assert Executed(s, qs) == rest;
      }
    }
  }

  lemma StepOn(n: u32, k: nat)
    ensures Truncate32(Next(n) + k) == Truncate32(n + k + 1)
  {
  }

  /** So no sequence number runs twice within 2^32 executions of a new slot. */
  lemma NotTwice(qs: seq<Request>, i: nat, j: nat)
    requires i < j < |Executed(NewSlot(false), qs)| && j - i < TWO32
    ensures Executed(NewSlot(false), qs)[i].sequenceID != Executed(NewSlot(false), qs)[j].sequenceID
  {
    InSequence(NewSlot(false), qs);
  }

  // ---------------------------------------------------------------- with PERSIST

  /** Exactly which requests run. The second case is the gap: a retry of a request whose reply was
      not cached passes all three checks of a persistent slot and runs again. */
  lemma RunsExactlyIf(s: Slot, sequenceID: u32)
    requires s.containsData ==> s.cache.Some?
    ensures Judge(s, sequenceID) == Execute <==>
            || sequenceID == Next(s.sequenceID)
            || (sequenceID == s.sequenceID && s.cache.Some? && !s.containsData)
  {
  }

  lemma UncachedRetryRunsAgain()
    ensures var q := Request(1, false, Reply([7]));
            Executed(NewSlot(true), [q, q]) == [q, q] && Executed(NewSlot(false), [q, q]) == [q]
  {
    var q := Request(1, false, Reply([7]));
    assert [q, q][1..] == [q];
    assert forall s :: Executed(s, [q]) == if Judge(s, 1).Execute? then [q] else [];
  }

  /** One more request at the end of a run. */
  lemma {:induction false} OneMore(s: Slot, qs: seq<Request>)
    requires qs != []
    ensures var n := |qs| - 1;
            && End(s, qs) == After(End(s, qs[..n]), qs[n])
            && Executed(s, qs) == Executed(s, qs[..n])
                                  + if Judge(End(s, qs[..n]), qs[n].sequenceID).Execute? then [qs[n]] else []
    decreases qs
  {
    var n := |qs| - 1;
    if n == 0 {
      assert qs[1..] == [] && qs[..0] == [];
    } else {
      var s' := After(s, qs[0]);
      OneMore(s', qs[1..]);
      assert qs[1..][..n - 1] == qs[..n][1..];
    }
  }

  /** The slot stands at the last request that ran. */
  lemma {:induction false} StandsAtLastRun(s: Slot, qs: seq<Request>)
    requires s.cache.Some?
    ensures var es, e := Executed(s, qs), End(s, qs);
            && e.cache.Some?
            && (es == [] ==> e == s)
            && (es != [] ==> e.sequenceID == es[|es| - 1].sequenceID && e.containsData == es[|es| - 1].cacheThis)
    decreases |qs|
  {
    if qs != [] {
      OneMore(s, qs);
      StandsAtLastRun(s, qs[..|qs| - 1]);
    }
  }

  /** Over every run of a persistent slot: what runs next carries the next number, or once more the
      number of the last one, and then that one did not ask for caching. */
  lemma {:induction false} NextOrUncached(s: Slot, qs: seq<Request>, k: nat)
    requires s.cache.Some? && k + 1 < |Executed(s, qs)|
    ensures var es := Executed(s, qs);
            || es[k + 1].sequenceID == Next(es[k].sequenceID)
            || (es[k + 1].sequenceID == es[k].sequenceID && !es[k].cacheThis)
  {
    var m := RanAt(s, qs, k + 1);
    StandsAtLastRun(s, qs[..m]);
  }

  /** Where in the requests the k-th one that ran is. */
  lemma {:induction false} RanAt(s: Slot, qs: seq<Request>, k: nat) returns (m: nat)
    requires k < |Executed(s, qs)|
    ensures m < |qs| && qs[m] == Executed(s, qs)[k]
    ensures Executed(s, qs[..m]) == Executed(s, qs)[..k] && Judge(End(s, qs[..m]), qs[m].sequenceID).Execute?
    decreases |qs|
  {
    var n := |qs| - 1;
    OneMore(s, qs);
    if k < |Executed(s, qs[..n])| {
      m := RanAt(s, qs[..n], k);
      assert qs[..n][..m] == qs[..m];
    } else {
      m := n;
    }
  }

  /** From the i-th to the j-th that ran the number goes up by at most one each time, and by one
      where the request asked for caching or the numbers never repeat. */
  lemma {:induction false} Advance(es: seq<Request>, i: nat, j: nat) returns (d: nat)
    requires i <= j < |es|
    requires forall k :: 0 <= k < |es| - 1 ==> es[k + 1].sequenceID == Next(es[k].sequenceID)
                                               || es[k + 1].sequenceID == es[k].sequenceID
    ensures d <= j - i && es[j].sequenceID == Truncate32(es[i].sequenceID + d)
    ensures i < j && es[i + 1].sequenceID == Next(es[i].sequenceID) != es[i].sequenceID ==> d > 0
    decreases j - i
  {
    if i == j {
      d := 0;
    } else {
      var e := Advance(es, i + 1, j);
      if es[i + 1].sequenceID == es[i].sequenceID {
        d := e;
      } else {
        d := e + 1;
        StepOn(es[i].sequenceID, e);
      }
    }
  }

  lemma NextDiffers(n: u32)
    ensures Next(n) != n
  {
  }

  /** A request that asked for caching does not run again within 2^32 numbers: its retries are
      answered from the cache. */
  lemma CachedRunsOnce(s: Slot, qs: seq<Request>, i: nat, j: nat)
    requires s.cache.Some? && i < j < |Executed(s, qs)| && j - i < TWO32 && Executed(s, qs)[i].cacheThis
    ensures Executed(s, qs)[j].sequenceID != Executed(s, qs)[i].sequenceID
  {
    var es := Executed(s, qs);
    forall k | 0 <= k < |es| - 1
      ensures es[k + 1].sequenceID == Next(es[k].sequenceID)
              || (es[k + 1].sequenceID == es[k].sequenceID && !es[k].cacheThis)
    {
      NextOrUncached(s, qs, k);
    }
    NextDiffers(es[i].sequenceID);
    var d := Advance(es, i, j);
  }

  /** The m-th request repeats the one the slot stands at, which ran and did not ask for caching. */
  predicate UncachedRetry(s: Slot, qs: seq<Request>, m: nat)
    requires m < |qs|
  {
    var es := Executed(s, qs[..m]);
    es != [] && es[|es| - 1].sequenceID == qs[m].sequenceID && !es[|es| - 1].cacheThis
  }

  ghost predicate SomeNumberTwice(es: seq<Request>) {
    exists i, j :: 0 <= i < j < |es| && es[i].sequenceID == es[j].sequenceID
  }

  /** The executed ones of a first part are a first part of the executed ones. */
  lemma {:induction false} ExecutedPrefix(s: Slot, qs: seq<Request>, m: nat)
    requires m <= |qs|
    ensures Executed(s, qs[..m]) <= Executed(s, qs)
    decreases |qs|
  {
    if m == |qs| {
      assert qs[..m] == qs;
    } else {
      OneMore(s, qs);
      ExecutedPrefix(s, qs[..|qs| - 1], m);
      assert qs[..|qs| - 1][..m] == qs[..m];
    }
  }

  lemma RetryRunsTwice(s: Slot, qs: seq<Request>, m: nat)
    requires s.cache.Some? && m < |qs| && UncachedRetry(s, qs, m)
    ensures SomeNumberTwice(Executed(s, qs))
  {
    StandsAtLastRun(s, qs[..m]);
    OneMore(s, qs[..m + 1]);
    assert qs[..m + 1][..m] == qs[..m];
    ExecutedPrefix(s, qs, m + 1);
    var k := |Executed(s, qs[..m])|;
    assert Executed(s, qs)[k - 1].sequenceID == Executed(s, qs)[k].sequenceID;
  }

  lemma TwiceMeansRetry(s: Slot, qs: seq<Request>) returns (m: nat)
    requires s.cache.Some? && |Executed(s, qs)| <= TWO32 && SomeNumberTwice(Executed(s, qs))
    ensures m < |qs| && UncachedRetry(s, qs, m)
  {
    var es := Executed(s, qs);
    var i, j :| 0 <= i < j < |es| && es[i].sequenceID == es[j].sequenceID;
    forall k | 0 <= k < |es| - 1
      ensures es[k + 1].sequenceID == Next(es[k].sequenceID)
              || (es[k + 1].sequenceID == es[k].sequenceID && !es[k].cacheThis)
    {
      NextOrUncached(s, qs, k);
    }
    NextDiffers(es[i].sequenceID);
    var d := Advance(es, i, j);
    m := RanAt(s, qs, i + 1);
  }

  /** A persistent slot runs no number twice, within 2^32 executions, exactly if no request that did
      not ask for caching is repeated while the slot stands at it. */
  lemma PersistentAtMostOnce(s: Slot, qs: seq<Request>)
    requires s.cache.Some? && |Executed(s, qs)| <= TWO32
    ensures SomeNumberTwice(Executed(s, qs)) <==> exists m :: 0 <= m < |qs| && UncachedRetry(s, qs, m)
  {
    if SomeNumberTwice(Executed(s, qs)) {
      var m := TwiceMeansRetry(s, qs);
    }
    forall m | 0 <= m < |qs| && UncachedRetry(s, qs, m)
      ensures SomeNumberTwice(Executed(s, qs))
    {
      RetryRunsTwice(s, qs, m);
    }
  }

  /** The replies that were stored, in order. */
  function Stored(es: seq<Request>): seq<seq<byte>> {
    if es == [] then []
    else (if es[0].cacheThis && es[0].outcome.Reply? then [es[0].outcome.bytes] else []) + Stored(es[1..])
  }

  function Concat(bs: seq<seq<byte>>): seq<byte> {
    if bs == [] then [] else bs[0] + Concat(bs[1..])
  }

  /** On a persistent slot, over every run: the cache is all stored replies one after the other, and
      the slot claims to hold data exactly if the last request that ran asked for it, even when that
      request broke off and stored nothing. */
  lemma {:induction false} CacheIsAllReplies(s: Slot, qs: seq<Request>)
    requires s.cache.Some?
    ensures End(s, qs).cache == Some(s.cache.value + Concat(Stored(Executed(s, qs))))
    ensures var es := Executed(s, qs);
            if es == [] then End(s, qs) == s
            else End(s, qs).containsData == es[|es| - 1].cacheThis && End(s, qs).sequenceID == es[|es| - 1].sequenceID
    decreases qs
  {
    if qs == [] {
      assert s.cache.value + [] == s.cache.value;
    } else {
      var s' := After(s, qs[0]);
      CacheIsAllReplies(s', qs[1..]);
      var rest := Executed(s', qs[1..]);
      if Judge(s, qs[0].sequenceID).Execute? {
        assert Executed(s, qs) == [qs[0]] + rest;
        ConcatCons(s.cache.value, qs[0], rest);
        assert s.cache.value + [] == s.cache.value;
      } else {
        assert Executed(s, qs) == rest;
      }
    }
  }

  lemma ConcatCons(before: seq<byte>, q: Request, rest: seq<Request>)
    ensures var own := if q.cacheThis && q.outcome.Reply? then q.outcome.bytes else [];
            before + Concat(Stored([q] + rest)) == before + own + Concat(Stored(rest))
  {
    assert ([q] + rest)[1..] == rest;
    if q.cacheThis && q.outcome.Reply? {
      assert ([q.outcome.bytes] + Stored(rest))[1..] == Stored(rest);
    } else {
      assert [] + Stored(rest) == Stored(rest);
    }
  }

  lemma {:induction false} ConcatSnoc(bs: seq<seq<byte>>, b: seq<byte>)
    ensures Concat(bs + [b]) == Concat(bs) + b
  {
    if bs == [] {
      assert [b][1..] == [];
    } else {
      assert (bs + [b])[1..] == bs[1..] + [b];
      ConcatSnoc(bs[1..], b);
    }
  }

  lemma {:induction false} ConcatEmpty(bs: seq<seq<byte>>)
    requires forall i :: 0 <= i < |bs| ==> bs[i] != []
    ensures Concat(bs) == [] <==> bs == []
  {
    if bs != [] { assert |Concat(bs)| >= |bs[0]| > 0; }
  }

  lemma {:induction false} StoredSnoc(es: seq<Request>)
    requires es != []
    ensures var e := es[|es| - 1];
            Stored(es) == Stored(es[..|es| - 1]) + if e.cacheThis && e.outcome.Reply? then [e.outcome.bytes] else []
  {
    if |es| > 1 {
      StoredSnoc(es[1..]);
      assert es[1..][..|es| - 2] == es[..|es| - 1][1..];
    } else {
      assert es[1..] == [];
    }
  }

  lemma {:induction false} StoredNonEmpty(es: seq<Request>)
    requires forall e :: e in es && e.outcome.Reply? ==> e.outcome.bytes != []
    ensures forall i :: 0 <= i < |Stored(es)| ==> Stored(es)[i] != []
  {
    if es != [] { StoredNonEmpty(es[1..]); }
  }

  /** A retry is answered from the cache, and never run again, exactly while the slot stands at a
      request that asked for caching. The answer is that request's own reply exactly if it is the
      only one stored so far: Copy appends and nothing resets the buffer. A request that broke off
      gets whatever was stored before it. Replies are never empty: each starts with a header. */
  lemma ReplayIsOriginalOnlyOnce(qs: seq<Request>, q: Request)
    requires forall e :: e in Executed(NewSlot(true), qs) && e.outcome.Reply? ==> e.outcome.bytes != []
    requires Judge(End(NewSlot(true), qs), q.sequenceID) == Replay
    ensures var es, s := Executed(NewSlot(true), qs), End(NewSlot(true), qs);
            && es != [] && s.cache.Some?
            && var last := es[|es| - 1];
               && last.sequenceID == q.sequenceID && last.cacheThis
               && s.cache.value == Concat(Stored(es))
               && (last.outcome.Reply? ==> (s.cache.value == last.outcome.bytes <==> |Stored(es)| == 1))
               && (last.outcome.Broke? ==> s.cache.value == Concat(Stored(es[..|es| - 1])))
  {
    CacheIsAllReplies(NewSlot(true), qs);
    var es, s := Executed(NewSlot(true), qs), End(NewSlot(true), qs);
    assert [] + Concat(Stored(es)) == Concat(Stored(es));
    StoredSnoc(es);
    var last, before := es[|es| - 1], Stored(es[..|es| - 1]);
    StoredNonEmpty(es[..|es| - 1]);
    ConcatEmpty(before);
    if last.outcome.Reply? {
      ConcatSnoc(before, last.outcome.bytes);
      assert |s.cache.value| == |Concat(before)| + |last.outcome.bytes|;
    } else {
      assert before + [] == before;
    }
  }

  // ---------------------------------------------------------------- with a reset before the copy

  /** The variant of After that empties the buffer before copying the reply into it. */
  function AfterReset(s: Slot, q: Request): Slot {
    if !Judge(s, q.sequenceID).Execute? then s
    else
      var a := Accept(s, q);
      if a.containsData && q.outcome.Reply? then a.(cache := Some(q.outcome.bytes)) else a
  }

  function EndReset(s: Slot, qs: seq<Request>): Slot
    decreases qs
  {
    if qs == [] then s else EndReset(AfterReset(s, qs[0]), qs[1..])
  }

  function ExecutedReset(s: Slot, qs: seq<Request>): seq<Request>
    decreases qs
  {
    if qs == [] then []
    else (if Judge(s, qs[0].sequenceID).Execute? then [qs[0]] else []) + ExecutedReset(AfterReset(s, qs[0]), qs[1..])
  }

  /** The slot stands at q, whose reply it holds if q asked for that and did not break off. */
  predicate StandsAt(s: Slot, q: Request) {
    && s.sequenceID == q.sequenceID && s.containsData == q.cacheThis && s.cache.Some?
    && (q.cacheThis && q.outcome.Reply? ==> s.cache.value == q.outcome.bytes)
  }

  lemma {:induction false} StandsAtLast(s: Slot, qs: seq<Request>)
    requires s.cache.Some?
    ensures var es := ExecutedReset(s, qs);
            if es == [] then EndReset(s, qs) == s else StandsAt(EndReset(s, qs), es[|es| - 1])
    decreases qs
  {
    if qs != [] {
      var s' := AfterReset(s, qs[0]);
      StandsAtLast(s', qs[1..]);
      var rest := ExecutedReset(s', qs[1..]);
      if Judge(s, qs[0].sequenceID).Execute? {
        assert StandsAt(s', qs[0]);
        assert ExecutedReset(s, qs) == [qs[0]] + rest;
        if rest != [] { assert ([qs[0]] + rest)[|rest|] == rest[|rest| - 1]; }
      } else {
        assert ExecutedReset(s, qs) == rest;
      }
    }
  }

  /** Then, in every run, each retry that is answered from the cache gets its own reply byte for
      byte, unless the request had broken off; and the retry changes nothing. */
  lemma ResetMakesReplayExact(qs: seq<Request>, q: Request)
    requires Judge(EndReset(NewSlot(true), qs), q.sequenceID) == Replay
    ensures var es, s := ExecutedReset(NewSlot(true), qs), EndReset(NewSlot(true), qs);
            && es != [] && s.cache.Some? && AfterReset(s, q) == s
            && var last := es[|es| - 1];
               && last.sequenceID == q.sequenceID && last.cacheThis
               && (last.outcome.Reply? ==> s.cache.value == last.outcome.bytes)
  {
    StandsAtLast(NewSlot(true), qs);
  }

  // ---------------------------------------------------------------- what a request is told

  /** The number of the last request that ran, 0 if none has, and whether it asked for caching. */
  function LastRun(persist: bool, qs: seq<Request>): (u32, bool) {
    var es := Executed(NewSlot(persist), qs);
    if es == [] then (0, false) else (es[|es| - 1].sequenceID, es[|es| - 1].cacheThis)
  }

  lemma {:induction false} StandsAtLastOf(persist: bool, qs: seq<Request>)
    ensures var (n, cached) := LastRun(persist, qs);
            var s := End(NewSlot(persist), qs);
            s.sequenceID == n && s.containsData == (persist && cached) && s.cache.Some? == persist
    decreases |qs|
  {
    if qs != [] {
      OneMore(NewSlot(persist), qs);
      StandsAtLastOf(persist, qs[..|qs| - 1]);
    }
  }

  /** After any requests one after the other, what the next one is told depends on the last that ran: the
      number after it runs; its own number is replayed if it asked for caching and the session is
      persistent, runs again if only the session is persistent, and is refused as uncached otherwise;
      and any other number is misordered. */
  lemma ToldExactly(persist: bool, qs: seq<Request>, n: u32)
    ensures var (last, cached) := LastRun(persist, qs);
            var v := Judge(End(NewSlot(persist), qs), n);
            && (n == Next(last) ==> v == Execute)
            && (n == last && persist && cached ==> v == Replay)
            && (n == last && persist && !cached ==> v == Execute)
            && (n == last && !persist ==> v == RetryUncached)
            && (n != last && n != Next(last) ==> v == Misordered)
  {
    StandsAtLastOf(persist, qs);
    NextDiffers(LastRun(persist, qs).0);
  }

  // ---------------------------------------------------------------- session ids

  /** BuildSession packs the client's id and the session's key into sixteen bytes. */
  function SessionID(clientID: u64, cacheID: u64): (id: seq<byte>)
    ensures |id| == 16
  {
    U64Bytes(clientID) + U64Bytes(cacheID)
  }

  function ClientIDFromSessionID(id: seq<byte>): u64
    requires |id| == 16
  { U64Of(id[..8]) }

  function CacheIDFromSessionID(id: seq<byte>): u64
    requires |id| == 16
  { U64Of(id[8..]) }

  lemma SessionIDUnpacks(clientID: u64, cacheID: u64)
    ensures ClientIDFromSessionID(SessionID(clientID, cacheID)) == clientID
    ensures CacheIDFromSessionID(SessionID(clientID, cacheID)) == cacheID
  {
    var id := SessionID(clientID, cacheID);
    assert id[..8] == U64Bytes(clientID) && id[8..] == U64Bytes(cacheID);
    U64RoundTrip(clientID);
    U64RoundTrip(cacheID);
  }

  // ---------------------------------------------------------------- sessions

  type Sessions = map<u64, seq<Slot>>

  const SLOTS := 16

  function Find(ss: Sessions, session: u64, slot: u32): Option<Slot> {
    if session in ss && slot < |ss[session]| then Some(ss[session][slot]) else None
  }

  /** A request as it arrives, for a session and a slot that may not exist. */
  datatype Delivery = Delivery(session: u64, slot: u32, request: Request)

  function Deliver(ss: Sessions, d: Delivery): Sessions {
    if d.session in ss && d.slot < |ss[d.session]| then
      ss[d.session := ss[d.session][d.slot := After(ss[d.session][d.slot], d.request)]]
    else ss
  }

  function DeliverAll(ss: Sessions, ds: seq<Delivery>): Sessions
    decreases ds
  {
    if ds == [] then ss else DeliverAll(Deliver(ss, ds[0]), ds[1..])
  }

  /** The requests for one slot, in order. */
  function For(ds: seq<Delivery>, session: u64, slot: u32): seq<Request> {
    if ds == [] then []
    else (if ds[0].session == session && ds[0].slot == slot then [ds[0].request] else []) + For(ds[1..], session, slot)
  }

  /** However the requests of all sessions and slots are mixed, each slot goes through its own. */
  lemma {:induction false} SlotsAreIndependent(ss: Sessions, ds: seq<Delivery>, session: u64, slot: u32)
    requires Find(ss, session, slot).Some?
    ensures Find(DeliverAll(ss, ds), session, slot)
         == Some(End(Find(ss, session, slot).value, For(ds, session, slot)))
    decreases ds
  {
    if ds != [] {
      hide After;
      var ss' := Deliver(ss, ds[0]);
      SlotsAreIndependent(ss', ds[1..], session, slot);
      var own := For(ds[1..], session, slot);
      if ds[0].session == session && ds[0].slot == slot {
        assert ([ds[0].request] + own)[1..] == own;
      } else {
        assert [] + own == own;
      }
    }
  }

  /** At most once, for a slot of a new session without PERSIST among all others: its last number is
      the number of its requests that ran. */
  lemma NewSessionInSequence(ss: Sessions, ds: seq<Delivery>, session: u64, slot: u32)
    requires session in ss && ss[session] == seq(SLOTS, _ => NewSlot(false)) && slot < SLOTS
    ensures var es := Executed(NewSlot(false), For(ds, session, slot));
            && Find(DeliverAll(ss, ds), session, slot) == Some(Slot(Truncate32(|es|), false, None))
            && forall k :: 0 <= k < |es| ==> es[k].sequenceID == Truncate32(k + 1)
  {
    SlotsAreIndependent(ss, ds, session, slot);
    InSequence(NewSlot(false), For(ds, session, slot));
  }
}

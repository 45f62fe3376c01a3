/** conn.go: the goroutines of one connection and the channels between them. */
module Conn {

  /** A buffered channel of requests or responses, each known by the number of its request in the
      order in which the connection delivered them. */
  datatype Chan = Chan(q: seq<nat>, closed: bool)

  const INTERMEDIATE_SIZE := 1
  const QUEUE_SIZE := 50

  /** The goroutine that calls ReceiveCall. */
  datatype Reader = Checking | Reading | Handing(id: nat) | ReaderGone

  /** ReceiveRequests: the select loop, and the deferred close and wg.Done. */
  datatype Proxy = Selecting | Forwarding(id: nat) | ProxyClosing | ProxyLeaving | ProxyGone

  /** RunMux: the range loop, muxwg.Wait, and the deferred close and wg.Done. */
  datatype Mux = Ranging | Waiting | MuxLeaving | MuxGone

  /** SendReplies: about to flush, about to receive, and the deferred wg.Done. */
  datatype Sender = Flushing | Receiving | SenderLeaving | SenderGone

  /** running, sent and finished: the handlers by how far they are. read counts the requests that came
      in, taken those that left the Request channel; received is what SendReplies got, in order.
      panicked: a send on or a close of a closed channel, or a negative WaitGroup, has happened. */
  datatype State = State(
    read: nat, reader: Reader, intermediate: Chan, proxy: Proxy, request: Chan, taken: nat, mux: Mux,
    running: set<nat>, sent: set<nat>, finished: set<nat>, muxwg: int, response: Chan, sender: Sender,
    received: seq<nat>, cancelled: bool, wg: int, returned: bool, panicked: bool)

  const INIT := State(0, Checking, Chan([], false), Selecting, Chan([], false), 0, Ranging,
                      {}, {}, {}, 0, Chan([], false), Flushing, [], false, 3, false, false)

  datatype Action =
    | CheckContext                   // the reader's loop condition
    | ReadCall(ok: bool)             // ReceiveCall returns
    | Hand                           // intermediate <- request
    | SeeCancel | SeeEnd | Take      // the branches of the proxy's select
    | Forward                        // c.Request <- req
    | CloseRequest | ProxyDone
    | Spawn | RangeEnd | CloseResponse | MuxDone
    | HandlerSend(id: nat) | HandlerDone(id: nat)
    | Flush(fails: bool) | Receive(fails: bool) | ResponseEnd | SenderDone
    | Cancel                         // by the caller of Serve
    | Return                         // c.wg.Wait in Serve

  /** A send goes ahead if there is room, and also on a closed channel, where it panics. */
  predicate CanSend(c: Chan, size: nat) { c.closed || |c.q| < size }

  predicate Enabled(s: State, a: Action) {
    match a
    case CheckContext => s.reader.Checking?
    case ReadCall(_) => s.reader.Reading?
    case Hand => s.reader.Handing? && CanSend(s.intermediate, INTERMEDIATE_SIZE)
    case SeeCancel => s.proxy.Selecting? && s.cancelled
    case SeeEnd => s.proxy.Selecting? && s.intermediate == Chan([], true)
    case Take => s.proxy.Selecting? && s.intermediate.q != []
    case Forward => s.proxy.Forwarding? && CanSend(s.request, QUEUE_SIZE)
    case CloseRequest => s.proxy.ProxyClosing?
    case ProxyDone => s.proxy.ProxyLeaving?
    case Spawn => s.mux.Ranging? && s.request.q != []
    case RangeEnd => s.mux.Ranging? && s.request == Chan([], true)
    case CloseResponse => s.mux.Waiting? && s.muxwg == 0
    case MuxDone => s.mux.MuxLeaving?
    case HandlerSend(id) => id in s.running && CanSend(s.response, QUEUE_SIZE)
    case HandlerDone(id) => id in s.sent
    case Flush(_) => s.sender.Flushing?
    case Receive(_) => s.sender.Receiving? && s.response.q != []
    case ResponseEnd => s.sender.Receiving? && s.response == Chan([], true)
    case SenderDone => s.sender.SenderLeaving?
    case Cancel => !s.cancelled
    case Return => s.wg == 0 && !s.returned
  }

  function Send(c: Chan, id: nat): Chan { c.(q := c.q + [id]) }

  function Done(s: State): State { s.(wg := s.wg - 1, panicked := s.panicked || s.wg <= 0) }

  function Step(s: State, a: Action): State
    requires Enabled(s, a)
  {
    match a
    case CheckContext =>
      if s.cancelled then LeaveReader(s) else s.(reader := Reading)
    case ReadCall(ok) =>
      if ok then s.(reader := Handing(s.read), read := s.read + 1) else LeaveReader(s)
    case Hand =>
      if s.intermediate.closed then s.(panicked := true)
      else s.(reader := Checking, intermediate := Send(s.intermediate, s.reader.id))
    case SeeCancel => s.(proxy := ProxyClosing)
    case SeeEnd => s.(proxy := ProxyClosing)
    case Take =>
      s.(proxy := Forwarding(s.intermediate.q[0]), intermediate := s.intermediate.(q := s.intermediate.q[1..]))
    case Forward =>
      if s.request.closed then s.(panicked := true)
      else s.(proxy := Selecting, request := Send(s.request, s.proxy.id))
    case CloseRequest =>
      s.(proxy := ProxyLeaving, request := s.request.(closed := true), panicked := s.panicked || s.request.closed)
    case ProxyDone => Done(s.(proxy := ProxyGone))
    case Spawn =>
      s.(request := s.request.(q := s.request.q[1..]), running := s.running + {s.request.q[0]},
         taken := s.taken + 1, muxwg := s.muxwg + 1)
    case RangeEnd => s.(mux := Waiting)
    case CloseResponse =>
      s.(mux := MuxLeaving, response := s.response.(closed := true), panicked := s.panicked || s.response.closed)
    case MuxDone => Done(s.(mux := MuxGone))
    case HandlerSend(id) =>
      if s.response.closed then s.(panicked := true)
      else s.(running := s.running - {id}, sent := s.sent + {id}, response := Send(s.response, id))
    case HandlerDone(id) =>
      s.(sent := s.sent - {id}, finished := s.finished + {id},
         muxwg := s.muxwg - 1, panicked := s.panicked || s.muxwg <= 0)
    case Flush(fails) => s.(sender := Receiving, cancelled := s.cancelled || fails)
    case Receive(fails) =>
      s.(sender := Flushing, received := s.received + [s.response.q[0]],
         response := s.response.(q := s.response.q[1..]), cancelled := s.cancelled || fails)
    case ResponseEnd => s.(sender := SenderLeaving)
    case SenderDone => Done(s.(sender := SenderGone))
    case Cancel => s.(cancelled := true)
    case Return => s.(returned := true)
  }

  /** The reader's deferred close of its channel. */
  function LeaveReader(s: State): State {
    s.(reader := ReaderGone, intermediate := s.intermediate.(closed := true),
       panicked := s.panicked || s.intermediate.closed)
  }

  // ---------------------------------------------------------------- invariant

  function Range(from: nat, to: nat): (r: seq<nat>)
    requires from <= to
    ensures |r| == to - from
  {
    seq(to - from, i requires 0 <= i < to - from => from + i)
  }

  function HeldByReader(s: State): seq<nat> { if s.reader.Handing? then [s.reader.id] else [] }
  function HeldByProxy(s: State): seq<nat> { if s.proxy.Forwarding? then [s.proxy.id] else [] }

  /** The requests on their way to the mux. */
  function OnTheWay(s: State): seq<nat> { s.request.q + (HeldByProxy(s) + (s.intermediate.q + HeldByReader(s))) }

  /** Requests reach the mux in the order they came in, none twice and none lost. */
  ghost predicate InOrder(s: State) { s.taken <= s.read && OnTheWay(s) == Range(s.taken, s.read) }

  /** Every request taken has one handler, and every handler that has answered one response. */
  ghost predicate OneResponse(s: State) {
    OneHandler(s) && Counted(s) && multiset(s.received + s.response.q) == multiset(s.sent + s.finished)
  }

  ghost predicate OneHandler(s: State) {
    && s.running !! s.sent && s.running !! s.finished && s.sent !! s.finished
    && (forall i: nat :: i in s.running || i in s.sent || i in s.finished <==> i < s.taken)
  }

  /** The WaitGroup of the handlers counts those that have not called Done. */
  ghost predicate Counted(s: State) { s.muxwg == |s.running| + |s.sent| }

  function Alive(b: bool): int { if b then 1 else 0 }

  /** Who has closed what, and who may therefore still send. */
  ghost predicate Closings(s: State) {
    && (s.intermediate.closed <==> s.reader.ReaderGone?)
    && (s.request.closed <==> s.proxy.ProxyLeaving? || s.proxy.ProxyGone?)
    && (s.response.closed <==> s.mux.MuxLeaving? || s.mux.MuxGone?)
    && (!s.mux.Ranging? ==> s.request == Chan([], true))
    && (s.response.closed ==> s.running == {} == s.sent)
    && (s.sender.SenderLeaving? || s.sender.SenderGone? ==> s.response == Chan([], true))
    && s.wg == Alive(!s.proxy.ProxyGone?) + Alive(!s.mux.MuxGone?) + Alive(!s.sender.SenderGone?)
    && (s.returned ==> s.wg == 0)
  }

  ghost predicate Inv(s: State) {
    !s.panicked && InOrder(s) && OneResponse(s) && Closings(s)
  }

  lemma InitInv()
    ensures Inv(INIT)
  {
    assert multiset(INIT.received + INIT.response.q) == multiset{};
  }

  // ---------------------------------------------------------------- every step keeps it

  lemma SpawnOrder(s: State)
    requires InOrder(s) && Enabled(s, Spawn)
    ensures InOrder(Step(s, Spawn))
  {
    var q, r := s.request.q, HeldByProxy(s) + (s.intermediate.q + HeldByReader(s));
    assert (q + r)[1..] == q[1..] + r;
    assert Range(s.taken, s.read)[1..] == Range(s.taken + 1, s.read);
  }

  lemma TakeOrder(s: State)
    requires InOrder(s) && Enabled(s, Take)
    ensures InOrder(Step(s, Take))
  {
    var q, r := s.intermediate.q, HeldByReader(s);
    assert [q[0]] + (q[1..] + r) == [] + (q + r);
  }

  lemma HandOrder(s: State)
    requires InOrder(s) && Enabled(s, Hand) && Closings(s)
    ensures InOrder(Step(s, Hand))
  {
    var q := s.intermediate.q;
    assert q + [s.reader.id] == q + [s.reader.id] + [];
  }

  lemma ForwardOrder(s: State)
    requires InOrder(s) && Enabled(s, Forward) && Closings(s)
    ensures InOrder(Step(s, Forward))
  {
    var q, p, r := s.request.q, [s.proxy.id], s.intermediate.q + HeldByReader(s);
    assert q + (p + r) == q + p + ([] + r);
  }

  lemma ReadOrder(s: State)
    requires InOrder(s) && s.reader.Reading?
    ensures InOrder(Step(s, ReadCall(true)))
  {
    var s' := Step(s, ReadCall(true));
    assert OnTheWay(s') == OnTheWay(s) + [s.read];
    assert Range(s.taken, s.read) + [s.read] == Range(s.taken, s.read + 1);
  }

  /** The other steps move no request on its way. */
  predicate Moves(a: Action) { a.Spawn? || a.Take? || a.Hand? || a.Forward? || (a.ReadCall? && a.ok) }

  lemma StaysOnTheWay(s: State, a: Action)
    requires Enabled(s, a) && !Moves(a)
    ensures var s' := Step(s, a); OnTheWay(s') == OnTheWay(s) && s'.taken == s.taken && s'.read == s.read
  {
  }

  lemma OrderKept(s: State, a: Action)
    requires InOrder(s) && Enabled(s, a) && Closings(s)
    ensures InOrder(Step(s, a))
  {
    if Moves(a) {
      hide InOrder, Closings, Step;
      match a
      case Spawn => SpawnOrder(s);
      case Take => TakeOrder(s);
      case Hand => HandOrder(s);
      case Forward => ForwardOrder(s);
      case ReadCall(_) => ReadOrder(s);
    } else {
      hide Step, OnTheWay;
      StaysOnTheWay(s, a);
    }
  }

  /** The first request in the channel is the next one in order. */
  lemma FirstIsNext(s: State)
    requires InOrder(s) && s.request.q != []
    ensures s.request.q[0] == s.taken
  {
    assert OnTheWay(s)[0] == s.request.q[0];
  }

  lemma SpawnResponses(s: State)
    requires InOrder(s) && OneResponse(s) && Enabled(s, Spawn)
    ensures OneResponse(Step(s, Spawn))
  {
    FirstIsNext(s);
    hide InOrder, Counted, OneHandler;
    SpawnHandler(s);
    SpawnCounts(s);
  }

  lemma SpawnHandler(s: State)
    requires OneHandler(s) && Enabled(s, Spawn) && s.request.q[0] == s.taken
    ensures OneHandler(Step(s, Spawn)) && s.taken !in s.running
  {
  }

  lemma SpawnCounts(s: State)
    requires Counted(s) && Enabled(s, Spawn) && s.request.q[0] !in s.running
    ensures Counted(Step(s, Spawn))
  {
    assert |s.running + {s.request.q[0]}| == |s.running| + 1;
  }

  lemma SendCounts(s: State, id: nat)
    requires Counted(s) && s.running !! s.sent && Enabled(s, HandlerSend(id)) && !s.response.closed
    ensures Counted(Step(s, HandlerSend(id)))
  {
    assert |s.running - {id}| == |s.running| - 1 && |s.sent + {id}| == |s.sent| + 1;
  }

  lemma SendAnswers(s: State, id: nat)
    requires multiset(s.received + s.response.q) == multiset(s.sent + s.finished)
    requires Enabled(s, HandlerSend(id)) && !s.response.closed && id !in s.sent + s.finished
    ensures var s' := Step(s, HandlerSend(id));
            multiset(s'.received + s'.response.q) == multiset(s'.sent + s'.finished)
  {
    OneMore(s.received + s.response.q, s.sent + s.finished, id);
    assert s.received + (s.response.q + [id]) == s.received + s.response.q + [id];
    assert s.sent + {id} + s.finished == s.sent + s.finished + {id};
  }

  lemma SendResponses(s: State, id: nat)
    requires OneResponse(s) && Enabled(s, HandlerSend(id)) && !s.response.closed
    ensures OneResponse(Step(s, HandlerSend(id)))
  {
    assert s.running !! s.sent;
    hide Counted, OneHandler, Step;
    SendCounts(s, id);
    SendHandler(s, id);
    SendAnswers(s, id);
  }

  lemma SendHandler(s: State, id: nat)
    requires OneHandler(s) && Enabled(s, HandlerSend(id)) && !s.response.closed
    ensures OneHandler(Step(s, HandlerSend(id))) && id !in s.sent + s.finished
  {
  }

  lemma OneMore(q: seq<nat>, ids: set<nat>, id: nat)
    requires multiset(q) == multiset(ids) && id !in ids
    ensures multiset(q + [id]) == multiset(ids + {id})
  {
  }

  /** Nobody answers on a closed channel. */
  lemma OpenForHandlers(s: State, id: nat)
    requires Closings(s) && id in s.running
    ensures !s.response.closed
  {
  }

  lemma DoneResponses(s: State, id: nat)
    requires OneResponse(s) && Enabled(s, HandlerDone(id))
    ensures OneResponse(Step(s, HandlerDone(id)))
  {
    var s' := Step(s, HandlerDone(id));
    assert s'.sent + s'.finished == s.sent + s.finished;
  }

  lemma ReceiveResponses(s: State, fails: bool)
    requires OneResponse(s) && Enabled(s, Receive(fails))
    ensures OneResponse(Step(s, Receive(fails)))
  {
    var s' := Step(s, Receive(fails));
    assert s'.received + s'.response.q == s.received + s.response.q;
  }

  predicate Answers(a: Action) { a.Spawn? || a.HandlerSend? || a.HandlerDone? || a.Receive? }

  lemma OthersDoNotAnswer(s: State, a: Action)
    requires Enabled(s, a) && !Answers(a)
    ensures var s' := Step(s, a);
            && s'.running == s.running && s'.sent == s.sent && s'.finished == s.finished && s'.taken == s.taken
            && s'.received == s.received && s'.response.q == s.response.q && s'.muxwg == s.muxwg
  {
  }

  lemma ResponsesKept(s: State, a: Action)
    requires InOrder(s) && OneResponse(s) && Enabled(s, a) && Closings(s)
    ensures OneResponse(Step(s, a))
  {
    hide InOrder, Closings, Step;
    if Answers(a) {
      hide OneResponse;
      match a
      case Spawn => SpawnResponses(s);
      case HandlerSend(id) => OpenForHandlers(s, id); SendResponses(s, id);
      case HandlerDone(id) => DoneResponses(s, id);
      case Receive(fails) => ReceiveResponses(s, fails);
    } else {
      OthersDoNotAnswer(s, a);
    }
  }

  /** The steps at which a goroutine leaves its loop or ends. */
  predicate Leaves(a: Action) { LeavesIn(a) || LeavesOut(a) }

  predicate LeavesIn(a: Action) {
    a.CheckContext? || a.ReadCall? || a.SeeCancel? || a.SeeEnd? || a.CloseRequest? || a.ProxyDone?
  }

  predicate LeavesOut(a: Action) {
    a.RangeEnd? || a.CloseResponse? || a.MuxDone? || a.ResponseEnd? || a.SenderDone? || a.Return?
  }

  lemma LeavesInKept(s: State, a: Action)
    requires Enabled(s, a) && Closings(s) && LeavesIn(a)
    ensures Closings(Step(s, a)) && Step(s, a).panicked == s.panicked
  {
  }

  lemma LeavesOutKept(s: State, a: Action)
    requires Counted(s) && Enabled(s, a) && Closings(s) && LeavesOut(a)
    ensures Closings(Step(s, a)) && Step(s, a).panicked == s.panicked
  {
    if a.CloseResponse? { assert |s.running| == 0 && |s.sent| == 0; }
  }

  lemma LoopsKept(s: State, a: Action)
    requires Counted(s) && Enabled(s, a) && Closings(s) && !Leaves(a)
    ensures Closings(Step(s, a)) && Step(s, a).panicked == s.panicked
  {
    if a.HandlerDone? { assert |s.sent| > 0; }
  }

  lemma ClosingsKept(s: State, a: Action)
    requires OneResponse(s) && Enabled(s, a) && Closings(s)
    ensures Closings(Step(s, a)) && Step(s, a).panicked == s.panicked
  {
    hide Step, Enabled, Closings, LeavesIn, LeavesOut;
    if LeavesIn(a) { LeavesInKept(s, a); } else if LeavesOut(a) { LeavesOutKept(s, a); } else { LoopsKept(s, a); }
  }

  /** No step of any goroutine breaks the invariant; in particular none panics. */
  lemma InvStep(s: State, a: Action)
    requires Inv(s) && Enabled(s, a)
    ensures Inv(Step(s, a))
  {
    hide InOrder, OneResponse, Closings, Step;
    OrderKept(s, a);
    ResponsesKept(s, a);
    ClosingsKept(s, a);
  }

  // ---------------------------------------------------------------- whole runs

  ghost predicate Run(ss: seq<State>, acts: seq<Action>) {
    && |ss| == |acts| + 1 && ss[0] == INIT
    && forall k :: 0 <= k < |acts| ==> Enabled(ss[k], acts[k]) && ss[k + 1] == Step(ss[k], acts[k])
  }

  lemma {:induction false} RunInv(ss: seq<State>, acts: seq<Action>, k: nat)
    requires Run(ss, acts) && k < |ss|
    ensures Inv(ss[k])
  {
    hide Inv, Step, Enabled;
    if k == 0 {
      InitInv();
    } else {
      RunInv(ss, acts, k - 1);
      InvStep(ss[k - 1], acts[k - 1]);
    }
  }

  /** The number of responses to a request. */
  function Responses(s: State, id: nat): nat { multiset(s.received + s.response.q)[id] }

  /** In every interleaving: no goroutine ever sends on or closes a closed channel; a request is
      answered at most once, and exactly once when its handler has sent; and if Serve has returned,
      every request that left the Request channel has been answered exactly once, to the sender. */
  lemma EveryRequestAnsweredOnce(ss: seq<State>, acts: seq<Action>, k: nat, id: nat)
    requires Run(ss, acts) && k < |ss|
    ensures !ss[k].panicked
    ensures Responses(ss[k], id) == if id < ss[k].taken && id !in ss[k].running then 1 else 0
    ensures ss[k].returned ==> multiset(ss[k].received)[id] == if id < ss[k].taken then 1 else 0
  {
    hide Run;
    var s := ss[k];
    RunInv(ss, acts, k);
    assert Responses(s, id) == multiset(s.sent + s.finished)[id];
    if s.returned {
      assert s.running == {} && s.response.q == [];
      assert s.received + s.response.q == s.received;
    }
  }

  // ---------------------------------------------------------------- progress

  /** Nothing to do but wait for the peer. */
  predicate Idle(s: State) {
    && s.reader.Reading? && s.intermediate.q == [] && s.proxy.Selecting? && s.request.q == [] && s.mux.Ranging?
    && s.running == {} && s.sent == {} && s.response.q == [] && s.sender.Receiving? && !s.cancelled
  }

  /** A step that needs neither the peer nor the caller. */
  predicate Own(a: Action) { !a.ReadCall? && !a.Cancel? }

  /** Some goroutine can always go on by itself, until Serve has returned or the connection is idle:
      there is no deadlock, whatever the queues hold. */
  lemma NeverStuck(s: State) returns (a: Action)
    requires Inv(s) && !s.returned && !Idle(s)
    ensures Own(a) && Enabled(s, a)
  {
    hide InOrder, OneResponse;
    if s.sender.Flushing? { return Flush(false); }
    if s.sender.Receiving? && s.response.q != [] { return Receive(false); }
    if s.sender.SenderLeaving? { return SenderDone; }
    if s.sender.Receiving? && s.response.closed { return ResponseEnd; }
    // the response queue is empty
    if s.sent != {} { var id :| id in s.sent; return HandlerDone(id); }
    if s.running != {} { var id :| id in s.running; return HandlerSend(id); }
    if s.mux.MuxLeaving? { return MuxDone; }
    if s.mux.Waiting? { NoHandlers(s); return CloseResponse; }
    if s.mux.Ranging? && s.request.q != [] { return Spawn; }
    if s.mux.Ranging? && s.request.closed { return RangeEnd; }
    a := ProxyGoesOn(s);
  }

  lemma NoHandlers(s: State)
    requires OneResponse(s) && s.running == {} == s.sent
    ensures s.muxwg == 0
  {
  }

  lemma ProxyGoesOn(s: State) returns (a: Action)
    requires Closings(s) && !s.returned && !Idle(s) && s.running == {} == s.sent
    requires s.mux.MuxGone? || (s.mux.Ranging? && s.request == Chan([], false))
    requires s.sender.SenderGone? || (s.sender.Receiving? && s.response == Chan([], false))
    ensures Own(a) && Enabled(s, a)
  {
    if s.proxy.Forwarding? { return Forward; }
    if s.proxy.ProxyClosing? { return CloseRequest; }
    if s.proxy.ProxyLeaving? { return ProxyDone; }
    if s.proxy.ProxyGone? { return Return; }
    if s.intermediate.q != [] { return Take; }
    if s.cancelled { return SeeCancel; }
    if s.reader.Checking? { return CheckContext; }
    if s.reader.Handing? { return Hand; }
    return SeeEnd;
  }

  // ---------------------------------------------------------------- shutdown ends

  /** No further call will be accepted than the one being read. */
  predicate Quiet(s: State) { s.cancelled || s.reader.ReaderGone? }

  function ReaderWork(r: Reader): nat {
    match r
    case Checking => 1
    case Reading => 10
    case Handing(_) => 9
    case ReaderGone => 0
  }

  function ProxyWork(p: Proxy): nat {
    match p
    case Forwarding(_) => 9
    case Selecting => 3
    case ProxyClosing => 2
    case ProxyLeaving => 1
    case ProxyGone => 0
  }

  function MuxWork(m: Mux): nat {
    match m
    case Ranging => 3
    case Waiting => 2
    case MuxLeaving => 1
    case MuxGone => 0
  }

  function SenderWork(x: Sender): nat {
    match x
    case Flushing => 3
    case Receiving => 2
    case SenderLeaving => 1
    case SenderGone => 0
  }

  /** The steps that are left at most. */
  function Work(s: State): nat {
    ReaderWork(s.reader) + 7 * |s.intermediate.q| + ProxyWork(s.proxy) + 5 * |s.request.q| + MuxWork(s.mux)
    + 4 * |s.running| + |s.sent| + 2 * |s.response.q| + SenderWork(s.sender)
    + Alive(!s.cancelled) + Alive(!s.returned)
  }

  lemma LeavingInShrinks(s: State, a: Action)
    requires Closings(s) && Quiet(s) && Enabled(s, a) && LeavesIn(a)
    ensures Quiet(Step(s, a)) && Work(Step(s, a)) < Work(s)
  {
  }

  lemma LeavingOutShrinks(s: State, a: Action)
    requires Closings(s) && Quiet(s) && Enabled(s, a) && LeavesOut(a)
    ensures Quiet(Step(s, a)) && Work(Step(s, a)) < Work(s)
  {
  }

  lemma LoopingShrinks(s: State, a: Action)
    requires Closings(s) && Quiet(s) && Enabled(s, a) && !Leaves(a) && !a.Spawn?
    ensures Quiet(Step(s, a)) && Work(Step(s, a)) < Work(s)
  {
  }

  lemma SpawnShrinks(s: State)
    requires Quiet(s) && Enabled(s, Spawn)
    ensures Quiet(Step(s, Spawn)) && Work(Step(s, Spawn)) < Work(s)
  {
    assert |s.running + {s.request.q[0]}| <= |s.running| + 1;
  }

  lemma WorkShrinks(s: State, a: Action)
    requires Inv(s) && Quiet(s) && Enabled(s, a)
    ensures Quiet(Step(s, a)) && Work(Step(s, a)) < Work(s)
  {
    hide Step, Enabled, Closings, OneResponse, InOrder, Work, Quiet, LeavesIn, LeavesOut;
    if LeavesIn(a) {
      LeavingInShrinks(s, a);
    } else if LeavesOut(a) {
      LeavingOutShrinks(s, a);
    } else if a.Spawn? {
      SpawnShrinks(s);
    } else {
      LoopingShrinks(s, a);
    }
  }

  /** Once the context is cancelled or reading has failed, every run comes to an end, within a number
      of steps known at that moment; and as long as Serve has not returned some goroutine can go on.
      So Serve returns. */
  lemma {:induction false} ShutdownEnds(ss: seq<State>, acts: seq<Action>, k: nat, j: nat)
    requires Run(ss, acts) && k <= j < |ss| && Quiet(ss[k])
    ensures Quiet(ss[j]) && Work(ss[j]) + (j - k) <= Work(ss[k])
    ensures !ss[j].returned ==> exists a :: Own(a) && Enabled(ss[j], a)
  {
    hide Inv, Step, Enabled, Work;
    RunInv(ss, acts, j);
    if j > k {
      ShutdownEnds(ss, acts, k, j - 1);
      RunInv(ss, acts, j - 1);
      WorkShrinks(ss[j - 1], acts[j - 1]);
    }
    if !ss[j].returned { QuietGoesOn(ss[j]); }
  }

  lemma QuietGoesOn(s: State)
    requires Inv(s) && Quiet(s) && !s.returned
    ensures exists a :: Own(a) && Enabled(s, a)
  {
    hide Inv, Enabled;
    var a := NeverStuck(s);
  }

  // ---------------------------------------------------------------- handlers that never return

  /** A handler that never sends, as one does that decodes a compound cut short, keeps Serve from
      returning for ever. */
  lemma {:induction false} HungHandlerBlocksServe(ss: seq<State>, acts: seq<Action>, k: nat, j: nat, id: nat)
    requires Run(ss, acts) && k <= j < |ss| && id in ss[k].running
    requires forall i :: k <= i < j ==> acts[i] != HandlerSend(id)
    ensures id in ss[j].running && !ss[j].returned
  {
    hide Inv, Step, Enabled;
    RunInv(ss, acts, j);
    if k < j {
      HungHandlerBlocksServe(ss, acts, k, j - 1, id);
      RunInv(ss, acts, j - 1);
      StaysRunning(ss[j - 1], acts[j - 1], id);
    }
    if ss[j].returned { ReturnedMeansNoHandlers(ss[j]); }
  }

  lemma StaysRunning(s: State, a: Action, id: nat)
    requires id in s.running && Enabled(s, a) && a != HandlerSend(id)
    ensures id in Step(s, a).running
  {
  }

  lemma ReturnedMeansNoHandlers(s: State)
    requires Inv(s) && s.returned
    ensures s.running == {}
  {
  }

  /** Nothing goes on by itself any more, but for handlers that never return. */
  ghost predicate AtRest(s: State, hung: set<nat>) {
    forall a :: Own(a) && Enabled(s, a) ==> a.HandlerSend? && a.id in hung
  }

  /** Where a shutdown comes to rest, Serve has returned exactly if no handler hangs. */
  lemma ReturnsUnlessHung(ss: seq<State>, acts: seq<Action>, k: nat, hung: set<nat>)
    requires Run(ss, acts) && k < |ss| && Quiet(ss[k]) && AtRest(ss[k], hung)
    ensures ss[k].returned <==> ss[k].running !! hung
  {
    hide Enabled, Step;
    RunInv(ss, acts, k);
    var s := ss[k];
    if s.returned {
      ReturnedMeansNoHandlers(s);
    } else {
      var a := NeverStuck(s);
      assert a.HandlerSend? && a.id in hung;
      SendersRun(s, a);
    }
  }

  lemma SendersRun(s: State, a: Action)
    requires Enabled(s, a) && a.HandlerSend?
    ensures a.id in s.running
  {
  }
}

// One connection of HttpServer::Loop: what its callbacks do, the libuv contract
// they run under, and what holds in every run.

module Connection {
  import opened Text
  import opened HttpParser
  import opened ParserLaws

  /// A queued response: to a handled request, or the error response to a failed parse.
  datatype Out = Reply(delivery: Delivery) | ErrorReply(status: nat)

  /// `closeCalls` counts calls of uv_close, `released` lists the WriteReqs deleted, `freed`
  /// counts deletions of the Conn, `pending` holds the writes libuv has yet to call back.
  datatype ConnState = ConnState(
    parser: St, closing: bool, closeCalls: nat, freed: nat,
    nextWrite: nat, pending: set<nat>, released: seq<nat>, queued: seq<Out>)

  function Opened(): ConnState { ConnState(Fresh([]), false, 0, 0, 0, {}, [], []) }

  // ------------------------------------------------- the callbacks

  function CloseConn(c: ConnState): ConnState {
    if c.closing then c else c.(closing := true, closeCalls := c.closeCalls + 1)
  }

  /// `accepted` is whether uv_write returned 0.
  function SendOne(c: ConnState, out: Out, accepted: bool): ConnState {
    var id := c.nextWrite;
    if accepted then c.(nextWrite := id + 1, pending := c.pending + {id}, queued := c.queued + [out])
    else CloseConn(c.(nextWrite := id + 1, released := c.released + [id]))
  }

  /// uv_write refuses a handle being closed; otherwise it accepts or not, as `oks` has it.
  function SendAll(c: ConnState, outs: seq<Out>, oks: seq<bool>): ConnState
    requires |outs| <= |oks|
    decreases |outs|
  {
    if outs == [] then c
    else SendAll(SendOne(c, outs[0], oks[0] && !c.closing), outs[1..], oks[1..])
  }

  /// Of the requests handed to the handler, those it answered: all but one it threw on.
  function Handled(ds: seq<Delivery>, failure: Option<Failure>): seq<Delivery> {
    if failure == Some(HandlerThrew) && ds != [] then ds[..|ds| - 1] else ds
  }

  /// The requests a read has answered.
  function Answered(before: St, after: St): seq<Delivery>
    requires |before.delivered| <= |after.delivered|
  {
    Handled(after.delivered[|before.delivered|..], after.failure)
  }

  function Replies(ds: seq<Delivery>): seq<Out> {
    if ds == [] then [] else Replies(ds[..|ds| - 1]) + [Reply(ds[|ds| - 1])]
  }

  function ErrorStatus(st: St): nat { if st.limitHit then 431 else 400 }

  function WantsClose(ds: seq<Delivery>): bool { ds != [] && !ds[|ds| - 1].keepAlive }

  /// What a read sends, and whether it then closes.
  function ReadOuts(env: Env, st: St, es: seq<Event>, malformed: bool): (seq<Out>, bool) {
    DeliveredGrows(env, Restarted(st), es);
    var (after, good) := Run(env, Restarted(st), es);
    var ds := Answered(st, after);
    if good && !malformed then (Replies(ds), WantsClose(ds))
    else (Replies(ds) + [ErrorReply(ErrorStatus(after))], true)
  }

  function Restarted(st: St): St { st.(failure := None, limitHit := false) }

  function OnRead(env: Env, c: ConnState, es: seq<Event>, malformed: bool, oks: seq<bool>): ConnState
    requires |ReadOuts(env, c.parser, es, malformed).0| <= |oks|
  {
    var (outs, close) := ReadOuts(env, c.parser, es, malformed);
    var sent := SendAll(c.(parser := Run(env, Restarted(c.parser), es).0), outs, oks);
    if close then CloseConn(sent) else sent
  }

  function OnWrite(c: ConnState, id: nat, failed: bool): ConnState {
    var c' := if failed then CloseConn(c) else c;
    c'.(pending := c'.pending - {id}, released := c'.released + [id])
  }

  // ------------------------------------------------- the objects

  class Conn {
    const parser: Impl
    var closing: bool
    var closeCalls: nat
    var freed: nat
    var nextWrite: nat
    var pending: set<nat>
    var released: seq<nat>
    var queued: seq<Out>

    ghost function View(): ConnState
      reads this, parser
    {
      ConnState(parser.View(), closing, closeCalls, freed, nextWrite, pending, released, queued)
    }

    constructor (env: Env)
      ensures View() == Opened() && parser.env == env && fresh(parser)
    {
      parser := new Impl(env);
      closing, closeCalls, freed, nextWrite := false, 0, 0, 0;
      pending, released, queued := {}, [], [];
    }

    method Close()
      modifies this
      ensures View() == CloseConn(old(View()))
    {
      if closing {
        return;
      }
      closing := true;
      closeCalls := closeCalls + 1;
    }

    method Send(out: Out, accepted: bool)
      modifies this
      ensures View() == SendOne(old(View()), out, accepted)
    {
      var wr := nextWrite;
      nextWrite := nextWrite + 1;
      if accepted {
        pending := pending + {wr};
        queued := queued + [out];
      } else {
        released := released + [wr];
        Close();
      }
    }

    /// The handler calls of one read, each answered before the next is made.
    method SendReplies(ds: seq<Delivery>, oks: seq<bool>) returns (shouldClose: bool)
      requires |ds| <= |oks|
      modifies this
      ensures |Replies(ds)| == |ds|
      ensures View() == SendAll(old(View()), Replies(ds), oks)
      ensures shouldClose == WantsClose(ds)
    {
      ghost var c, outs := View(), Replies(ds);
      RepliesEach(ds);
      hide SendAll, SendOne, Replies;
      assert outs[0..] == outs && oks[0..] == oks;
      shouldClose := false;
      var i := 0;
      while i < |ds|
        invariant i <= |ds|
        invariant SendAll(View(), outs[i..], oks[i..]) == SendAll(c, outs, oks)
        invariant shouldClose == (i > 0 && !ds[i - 1].keepAlive)
      {
        NextOut(View(), outs, oks, i);
        Send(Reply(ds[i]), oks[i] && !closing);
        shouldClose := !ds[i].keepAlive;
        i := i + 1;
      }
      NoneLeft(View(), outs, oks);
    }

    /// llhttp makes the handler calls during execute; the error response comes last.
    method ReadCallback(es: seq<Event>, malformed: bool, oks: seq<bool>)
      requires |ReadOuts(parser.env, parser.View(), es, malformed).0| <= |oks|
      modifies this, parser
      ensures View() == OnRead(parser.env, old(View()), es, malformed, oks)
    {
      ghost var c := View();
      ReadEnds(parser.env, c, es, malformed, oks);
      hide ReadOuts, Run, OnRead, SendAll, SendOne, Replies, WantsClose, Answered;
      var ok, ds := Parse(es, malformed);
      RepliesEach(ds);
      ghost var c1 := View();
      var shouldClose := SendReplies(ds, oks);
      if !ok {
        SendLast(c1, Replies(ds), ErrorReply(parser.errorStatus), oks);
        Send(ErrorReply(parser.errorStatus), oks[|ds|] && !closing);
        shouldClose := true;
      }
      if shouldClose {
        Close();
      }
    }

    /// Runs the parser and says which of its handler calls got a response.
    method Parse(es: seq<Event>, malformed: bool) returns (ok: bool, answered: seq<Delivery>)
      modifies parser
      ensures parser.View() == Run(parser.env, Restarted(old(parser.View())), es).0
      ensures ReadOuts(parser.env, old(parser.View()), es, malformed)
              == if ok then (Replies(answered), WantsClose(answered))
                 else (Replies(answered) + [ErrorReply(parser.errorStatus)], true)
    {
      DeliveredGrows(parser.env, Restarted(parser.View()), es);
      hide Run, Replies, WantsClose;
      var before := |parser.delivered|;
      ok := parser.Execute(es, malformed);
      answered := parser.delivered[before..];
      if parser.failure == Some(HandlerThrew) && answered != [] {
        answered := answered[..|answered| - 1];
      }
    }

    method WriteCallback(id: nat, failed: bool)
      modifies this
      ensures View() == OnWrite(old(View()), id, failed)
    {
      if failed {
        Close();
      }
      pending := pending - {id};
      released := released + [id];
    }
  }

  lemma {:induction false} RepliesEach(ds: seq<Delivery>)
    ensures |Replies(ds)| == |ds| && forall i :: 0 <= i < |ds| ==> Replies(ds)[i] == Reply(ds[i])
  {
    if ds != [] { RepliesEach(ds[..|ds| - 1]); }
  }

  lemma NextOut(c: ConnState, outs: seq<Out>, oks: seq<bool>, i: nat)
    requires i < |outs| <= |oks|
    ensures SendAll(c, outs[i..], oks[i..])
         == SendAll(SendOne(c, outs[i], oks[i] && !c.closing), outs[i + 1..], oks[i + 1..])
  {
    assert outs[i..][1..] == outs[i + 1..] && oks[i..][1..] == oks[i + 1..];
  }

  lemma NoneLeft(c: ConnState, outs: seq<Out>, oks: seq<bool>)
    requires |outs| <= |oks|
    ensures SendAll(c, outs[|outs|..], oks[|outs|..]) == c
  {
  }

  lemma {:induction false} SendLast(c: ConnState, outs: seq<Out>, out: Out, oks: seq<bool>)
    requires |outs| < |oks|
    ensures var c' := SendAll(c, outs, oks);
            SendAll(c, outs + [out], oks) == SendOne(c', out, oks[|outs|] && !c'.closing)
    decreases |outs|
  {
    if outs == [] {
      assert [] + [out] == [out] && [out][1..] == [];
    } else {
      assert (outs + [out])[1..] == outs[1..] + [out];
      SendLast(SendOne(c, outs[0], oks[0] && !c.closing), outs[1..], out, oks[1..]);
    }
  }

  lemma ReadEnds(env: Env, c: ConnState, es: seq<Event>, malformed: bool, oks: seq<bool>)
    requires |ReadOuts(env, c.parser, es, malformed).0| <= |oks|
    ensures var (outs, close) := ReadOuts(env, c.parser, es, malformed);
            var sent := SendAll(c.(parser := Run(env, Restarted(c.parser), es).0), outs, oks);
            OnRead(env, c, es, malformed, oks) == if close then CloseConn(sent) else sent
  {
  }

  class Loop {
    var conns: seq<Conn>

    constructor ()
      ensures conns == []
    {
      conns := [];
    }

    /// onStop: uv_walk closes every connection that is not closing yet.
    method StopAll()
      requires forall i, j :: 0 <= i < j < |conns| ==> conns[i] != conns[j]
      modifies conns
      ensures conns == old(conns)
      ensures forall c :: c in conns ==> c.closing && c.View() == CloseConn(old(c.View()))
    {
      var i := 0;
      while i < |conns|
        invariant i <= |conns| && conns == old(conns)
        invariant forall j :: 0 <= j < i ==> conns[j].closing && conns[j].View() == CloseConn(old(conns[j].View()))
        invariant forall j :: i <= j < |conns| ==> conns[j].View() == old(conns[j].View())
      {
        if !conns[i].closing {
          conns[i].Close();
        }
        i := i + 1;
      }
    }
  }

  // ------------------------------------------------- runs under the libuv contract

  datatype Step =
    | Read(es: seq<Event>, malformed: bool, oks: seq<bool>)
    | ReadError
    | WriteDone(id: nat, failed: bool)
    | HandleClosed
    | Stop

  /// No reads once uv_close is called, and one result for each uv_write of a read; a write is called back once; a handle's close callback
  /// comes once per uv_close, after the callbacks of its writes; uv_walk sees live handles.
  predicate Allowed(env: Env, c: ConnState, s: Step) {
    match s
    case Read(es, malformed, oks) => c.closeCalls == 0 && |ReadOuts(env, c.parser, es, malformed).0| == |oks|
    case ReadError => c.closeCalls == 0
    case WriteDone(id, _) => id in c.pending
    case HandleClosed => c.pending == {} && c.freed < c.closeCalls
    case Stop => c.freed == 0
  }

  function Next(env: Env, c: ConnState, s: Step): ConnState
    requires Allowed(env, c, s)
  {
    match s
    case Read(es, malformed, oks) => OnRead(env, c, es, malformed, oks)
    case ReadError => CloseConn(c)
    case WriteDone(id, failed) => OnWrite(c, id, failed)
    case HandleClosed => c.(freed := c.freed + 1)
    case Stop => CloseConn(c)
  }

  predicate AllowedRun(env: Env, c: ConnState, steps: seq<Step>)
    decreases |steps|
  {
    steps == [] || (Allowed(env, c, steps[0]) && AllowedRun(env, Next(env, c, steps[0]), steps[1..]))
  }

  function After(env: Env, c: ConnState, steps: seq<Step>): ConnState
    requires AllowedRun(env, c, steps)
    decreases |steps|
  {
    if steps == [] then c else After(env, Next(env, c, steps[0]), steps[1..])
  }

  // ------------------------------------------------- memory

  predicate NoRepeats(s: seq<nat>) { forall i, j :: 0 <= i < j < |s| ==> s[i] != s[j] }

  /// One uv_close at most, one deletion of the Conn at most and only when no write is out, and
  /// every WriteReq either out or deleted, once.
  ghost predicate Sound(c: ConnState) {
    && c.closeCalls == (if c.closing then 1 else 0)
    && c.freed <= c.closeCalls && (c.freed > 0 ==> c.pending == {})
    && NoRepeats(c.released)
    && (forall id: nat :: id < c.nextWrite <==> (id in c.pending || id in c.released))
    && (forall id :: id in c.pending ==> id !in c.released)
  }

  lemma CloseSound(c: ConnState)
    requires Sound(c) && c.freed == 0
    ensures Sound(CloseConn(c)) && CloseConn(c).closing && CloseConn(c).freed == 0
  {
  }

  lemma SendSound(c: ConnState, out: Out, accepted: bool)
    requires Sound(c) && c.freed == 0
    ensures Sound(SendOne(c, out, accepted)) && SendOne(c, out, accepted).freed == 0
  {
    var id := c.nextWrite;
    assert id !in c.pending && id !in c.released;
    forall i: nat ensures i in c.released + [id] <==> (i in c.released || i == id) {}
  }

  lemma {:induction false} SendAllSound(c: ConnState, outs: seq<Out>, oks: seq<bool>)
    requires |outs| <= |oks| && Sound(c) && c.freed == 0
    ensures Sound(SendAll(c, outs, oks)) && SendAll(c, outs, oks).freed == 0
    decreases |outs|
  {
    if outs != [] {
      SendSound(c, outs[0], oks[0] && !c.closing);
      SendAllSound(SendOne(c, outs[0], oks[0] && !c.closing), outs[1..], oks[1..]);
    }
  }

  lemma WriteSound(c: ConnState, id: nat, failed: bool)
    requires Sound(c) && c.freed == 0 && id in c.pending
    ensures Sound(OnWrite(c, id, failed))
  {
    forall i: nat ensures i in c.released + [id] <==> (i in c.released || i == id) {}
  }

  /// Under the contract no callback ever touches a freed Conn.
  lemma LiveWhenCalled(env: Env, c: ConnState, s: Step)
    requires Sound(c) && Allowed(env, c, s)
    ensures c.freed == 0
  {
  }

  lemma StepSound(env: Env, c: ConnState, s: Step)
    requires Sound(c) && Allowed(env, c, s)
    ensures Sound(Next(env, c, s))
  {
    LiveWhenCalled(env, c, s);
    match s
    case Read(es, malformed, oks) =>
      var (outs, close) := ReadOuts(env, c.parser, es, malformed);
      var c1 := c.(parser := Run(env, Restarted(c.parser), es).0);
      SendAllSound(c1, outs, oks);
      CloseSound(SendAll(c1, outs, oks));
    case ReadError => CloseSound(c);
    case WriteDone(id, failed) => WriteSound(c, id, failed);
    case HandleClosed =>
    case Stop => CloseSound(c);
  }

  /// In every run: uv_close at most once, the Conn and each WriteReq deleted at most once.
  lemma {:induction false} RunSound(env: Env, c: ConnState, steps: seq<Step>)
    requires Sound(c) && AllowedRun(env, c, steps)
    ensures Sound(After(env, c, steps))
    decreases |steps|
  {
    if steps != [] {
      StepSound(env, c, steps[0]);
      RunSound(env, Next(env, c, steps[0]), steps[1..]);
    }
  }

  /// When the Conn is gone, every WriteReq ever made has been deleted exactly once.
  lemma NothingLeaks(env: Env, steps: seq<Step>)
    requires AllowedRun(env, Opened(), steps) && After(env, Opened(), steps).freed > 0
    ensures var c := After(env, Opened(), steps);
            c.closing && c.freed == 1 && NoRepeats(c.released)
            && forall id: nat :: id < c.nextWrite <==> id in c.released
  {
    RunSound(env, Opened(), steps);
  }

  // ------------------------------------------------- responses

  /// Of the requests in a read the last decides, which is enough when nothing follows a request
  /// that does not keep the connection alive.
  lemma CloseAfterLast(ds: seq<Delivery>)
    requires forall i :: 0 <= i < |ds| - 1 ==> ds[i].keepAlive
    ensures WantsClose(ds) <==> exists i :: 0 <= i < |ds| && !ds[i].keepAlive
  {
  }

  lemma {:induction false} DeliveredGrows(env: Env, st: St, es: seq<Event>)
    ensures st.delivered <= Run(env, st, es).0.delivered
    decreases |es|
  {
    hide RequestOf, Absorb, Charged;
    if es != [] {
      var (st', ok) := HttpParser.Step(env, st, es[0]);
      if !es[0].Complete? { DeliveredKept(env, st, es[0]); }
      if ok { DeliveredGrows(env, st', es[1..]); }
    }
  }

  lemma DeliveredKept(env: Env, st: St, e: Event)
    requires !e.Complete?
    ensures HttpParser.Step(env, st, e).0.delivered == st.delivered
  {
    AbsorbFrame(st, e, st.headerBytes + Charge(e));
    AbsorbFrame(st.(headerBytes := st.headerBytes + Charge(e)), e, st.headerBytes + Charge(e));
  }

  predicate AllTrue(oks: seq<bool>) { forall i :: 0 <= i < |oks| ==> oks[i] }

  /// How many of the results come before the first refusal.
  function Leading(oks: seq<bool>): (n: nat)
    ensures n <= |oks| && (n == |oks| <==> AllTrue(oks))
  {
    if oks == [] || !oks[0] then 0
    else
      assert oks == [oks[0]] + oks[1..];
      1 + Leading(oks[1..])
  }

  /// Sending queues everything up to the first refusal, which closes; nothing is queued on a
  /// handle being closed.
  lemma {:induction false} SendAllQueues(c: ConnState, outs: seq<Out>, oks: seq<bool>)
    requires |outs| == |oks|
    ensures var c' := SendAll(c, outs, oks);
            && c'.queued == c.queued + (if c.closing then [] else outs[..Leading(oks)])
            && (c'.closing <==> c.closing || !AllTrue(oks))
            && c'.parser == c.parser
    decreases |outs|
  {
    if outs == [] {
      assert c.queued + [] == c.queued;
    } else {
      var c1 := SendOne(c, outs[0], oks[0] && !c.closing);
      SendAllQueues(c1, outs[1..], oks[1..]);
      assert c.queued + [] == c.queued;
      if oks[0] && !c.closing {
        assert c.queued + [outs[0]] + outs[1..][..Leading(oks[1..])] == c.queued + outs[..Leading(oks)];
        assert oks == [oks[0]] + oks[1..];
      }
    }
  }

  /// A run's reads, in order.
  function Reads(steps: seq<Step>): seq<seq<Event>> {
    if steps == [] then []
    else (if steps[0].Read? then [steps[0].es] else []) + Reads(steps[1..])
  }

  /// No uv_write of the run is refused.
  predicate WritesSucceed(steps: seq<Step>) {
    forall i :: 0 <= i < |steps| && steps[i].Read? ==> AllTrue(steps[i].oks)
  }

  /// llhttp itself finds fault with the bytes of some read.
  predicate Faulted(steps: seq<Step>) {
    steps != [] && ((steps[0].Read? && steps[0].malformed) || Faulted(steps[1..]))
  }

  /// The responses owed for what the parser made of the reads so far.
  function Owed(ds: seq<Delivery>, failure: Option<Failure>, fault: bool): seq<Out> {
    Replies(Handled(ds, failure))
    + if fault || failure.Some? then [ErrorReply(if failure == Some(HeaderLimit) then 431 else 400)] else []
  }

  lemma {:induction false} RepliesAppend(a: seq<Delivery>, b: seq<Delivery>)
    ensures Replies(a + b) == Replies(a) + Replies(b)
  {
    if b == [] {
      assert a + b == a;
    } else {
      var n := |b| - 1;
      assert (a + b)[..|a + b| - 1] == a + b[..n];
      RepliesAppend(a, b[..n]);
      Assoc(Replies(a), Replies(b[..n]), [Reply(b[n])]);
    }
  }

  /// How a run of callbacks can end.
  lemma {:induction false} FailureShape(env: Env, st: St, es: seq<Event>)
    requires Clean(st)
    ensures var (st', ok) := Run(env, st, es);
            && (ok <==> st'.failure.None?)
            && (st'.limitHit <==> st'.failure == Some(HeaderLimit))
            && (st'.failure == Some(HandlerThrew) ==> |st'.delivered| > |st.delivered|)
    decreases |es|
  {
    if es != [] {
      var (st', ok) := HttpParser.Step(env, st, es[0]);
      if !es[0].Complete? { DeliveredKept(env, st, es[0]); }
      if ok {
        FailureShape(env, st', es[1..]);
      }
    }
  }

  lemma AnsweredIsHandled(before: St, after: St)
    requires before.delivered <= after.delivered
    requires after.failure == Some(HandlerThrew) ==> |after.delivered| > |before.delivered|
    ensures Handled(after.delivered, after.failure) == before.delivered + Answered(before, after)
  {
  }

  /// A read turns what was owed before into what is owed after.
  lemma ReadOwes(env: Env, st: St, es: seq<Event>, malformed: bool)
    requires Clean(st)
    ensures var after := Run(env, st, es).0;
            Replies(st.delivered) + ReadOuts(env, st, es, malformed).0 == Owed(after.delivered, after.failure, malformed)
    ensures malformed || Run(env, st, es).0.failure.Some? ==> ReadOuts(env, st, es, malformed).1
  {
    hide Run, Replies, Answered, Handled;
    assert Restarted(st) == st;
    DeliveredGrows(env, st, es);
    FailureShape(env, st, es);
    var after := Run(env, st, es).0;
    var ds := Answered(st, after);
    AnsweredIsHandled(st, after);
    RepliesAppend(st.delivered, ds);
    Assoc(Replies(st.delivered), Replies(ds), [ErrorReply(ErrorStatus(after))]);
  }

  /// What the connection owes and has queued, between steps; `served` while no uv_write has been
  /// refused.
  ghost predicate Settled(env: Env, c: ConnState, calls: seq<seq<Event>>, fault: bool, served: bool) {
    && (c.parser, c.parser.failure.None?) == RunCalls(env, Fresh([]), calls)
    && (c.parser.failure.None? ==> Clean(c.parser))
    && (fault || !served || c.parser.failure.Some? ==> c.closing)
    && (c.closing <==> c.closeCalls > 0)
    && c.queued <= Owed(c.parser.delivered, c.parser.failure, fault)
    && (served <==> c.queued == Owed(c.parser.delivered, c.parser.failure, fault))
  }

  lemma {:induction false} OneMoreCall(env: Env, st: St, calls: seq<seq<Event>>, es: seq<Event>)
    requires RunCalls(env, st, calls).1
    ensures RunCalls(env, st, calls + [es]) == Run(env, Restarted(RunCalls(env, st, calls).0), es)
    decreases |calls|
  {
    if calls == [] {
      assert [] + [es] == [es] && [es][1..] == [];
    } else {
      assert (calls + [es])[1..] == calls[1..] + [es];
      OneMoreCall(env, Run(env, Restarted(st), calls[0]).0, calls[1..], es);
    }
  }

  lemma ReadSettles(env: Env, c: ConnState, calls: seq<seq<Event>>, fault: bool, served: bool, s: Step)
    requires Settled(env, c, calls, fault, served) && s.Read? && Allowed(env, c, s)
    ensures !fault && served && Settled(env, Next(env, c, s), calls + [s.es], s.malformed, AllTrue(s.oks))
  {
    var st, es := c.parser, s.es;
    assert Replies(st.delivered) + [] == Replies(st.delivered);
    assert c.queued == Replies(st.delivered);
    hide Run, RunCalls, ReadOuts, Owed, SendAll, Replies, Leading, AllTrue;
    var (outs, close) := ReadOuts(env, st, es, s.malformed);
    var c1 := c.(parser := Run(env, Restarted(st), es).0);
    OneMoreCall(env, Fresh([]), calls, es);
    assert Restarted(st) == st;
    ReadOwes(env, st, es, s.malformed);
    FailureShape(env, st, es);
    SendAllQueues(c1, outs, s.oks);
    SendAllCloses(c1, outs, s.oks);
    PartQueued(c.queued, outs, Leading(s.oks));
  }

  lemma PartQueued(queued: seq<Out>, outs: seq<Out>, n: nat)
    requires n <= |outs|
    ensures queued + outs[..n] <= queued + outs
    ensures queued + outs[..n] == queued + outs <==> n == |outs|
  {
    assert queued + outs == queued + outs[..n] + outs[n..];
    assert n < |outs| ==> |queued + outs[..n]| != |queued + outs|;
  }

  lemma {:induction false} SendAllCloses(c: ConnState, outs: seq<Out>, oks: seq<bool>)
    requires |outs| <= |oks| && (c.closing <==> c.closeCalls > 0)
    ensures var c' := SendAll(c, outs, oks); c'.closing <==> c'.closeCalls > 0
    decreases |outs|
  {
    if outs != [] {
      SendAllCloses(SendOne(c, outs[0], oks[0] && !c.closing), outs[1..], oks[1..]);
    }
  }

  lemma {:induction false} RunSettles(
    env: Env, c: ConnState, calls: seq<seq<Event>>, fault: bool, served: bool, steps: seq<Step>)
    requires Settled(env, c, calls, fault, served) && AllowedRun(env, c, steps)
    ensures Settled(env, After(env, c, steps), calls + Reads(steps), fault || Faulted(steps),
                    served && WritesSucceed(steps))
    decreases |steps|
  {
    if steps == [] {
      assert calls + [] == calls;
    } else {
      var s := steps[0];
      WritesSucceedStep(steps);
      if s.Read? {
        ReadSettles(env, c, calls, fault, served, s);
        RunSettles(env, Next(env, c, s), calls + [s.es], s.malformed, AllTrue(s.oks), steps[1..]);
        Assoc(calls, [s.es], Reads(steps[1..]));
      } else {
        RunSettles(env, Next(env, c, s), calls, fault, served, steps[1..]);
        assert [] + Reads(steps[1..]) == Reads(steps[1..]);
      }
    }
  }

  lemma WritesSucceedStep(steps: seq<Step>)
    requires steps != []
    ensures WritesSucceed(steps) <==> (steps[0].Read? ==> AllTrue(steps[0].oks)) && WritesSucceed(steps[1..])
  {
    assert forall i :: 0 <= i < |steps[1..]| ==> steps[1..][i] == steps[i + 1];
    if (steps[0].Read? ==> AllTrue(steps[0].oks)) && WritesSucceed(steps[1..]) {
      forall i | 0 <= i < |steps| && steps[i].Read? ensures AllTrue(steps[i].oks) {
        if i > 0 { assert steps[i] == steps[1..][i - 1]; }
      }
    }
  }

  /// At every moment of every run, however the bytes have arrived and whatever else happened in
  /// between: the reads having brought the messages `cs` and the part `part` of one more, the
  /// connection owes one response per handled request, in order, and one error response last
  /// exactly when a message has failed or llhttp has found fault. It has queued the first of
  /// them, all exactly if no uv_write was refused; and once one is missing or the error response
  /// is due it is closing.
  lemma {:induction false} ResponsesMatchRequests(env: Env, steps: seq<Step>, cs: seq<Cut>, part: seq<Event>)
    requires AllowedRun(env, Opened(), steps)
    requires (forall i :: 0 <= i < |cs| ==> WellCut(cs[i])) && NoEnd(part)
    requires Joined(Reads(steps)) == AllEvents(cs) + part
    ensures var a := AnswerSoFar(env, MsgsOf(cs), Charges(part));
            var c, owed := After(env, Opened(), steps), Owed(a.delivered, a.failure, Faulted(steps));
            && c.queued <= owed && (c.queued == owed <==> WritesSucceed(steps))
            && (Faulted(steps) || a.failure.Some? || c.queued != owed ==> c.closing)
  {
    assert Settled(env, Opened(), [], false, true);
    RunSettles(env, Opened(), [], false, true, steps);
    assert [] + Reads(steps) == Reads(steps);
    FragmentationInvariant(env, cs, part, Reads(steps));
  }

  // ------------------------------------------------- when the connection closes

  /// The end of the last message that ends in a read.
  function LastLine(es: seq<Event>): Option<Line> {
    if es == [] then None
    else if es[|es| - 1].Complete? then Some(es[|es| - 1].line)
    else LastLine(es[..|es| - 1])
  }

  /// What makes the server close a connection, but for a message that fails: a read error, the
  /// server's stop, a write that failed or was refused, bytes llhttp rejects, and a read whose last
  /// finished message does not keep the connection alive.
  predicate ClosesIt(s: Step) {
    match s
    case ReadError => true
    case Stop => true
    case WriteDone(_, failed) => failed
    case HandleClosed => false
    case Read(es, malformed, oks) =>
      malformed || !AllTrue(oks) || (LastLine(es).Some? && !LastLine(es).value.keepAlive)
  }

  lemma {:induction false} LastLineTail(es: seq<Event>)
    requires es != []
    ensures LastLine(es)
         == if LastLine(es[1..]).Some? then LastLine(es[1..])
            else if es[0].Complete? then Some(es[0].line) else None
  {
    var n := |es| - 1;
    if n > 0 && !es[n].Complete? {
      LastLineTail(es[..n]);
      assert es[1..][..n - 1] == es[..n][1..];
    }
  }

  /// A read without a failure hands over its messages, the last one last.
  lemma {:induction false} LastDelivered(env: Env, st: St, es: seq<Event>)
    requires Run(env, st, es).1
    ensures var ds := Run(env, st, es).0.delivered;
            && st.delivered <= ds
            && (LastLine(es).None? <==> ds == st.delivered)
            && (LastLine(es).Some? ==> ds[|ds| - 1].keepAlive == LastLine(es).value.keepAlive)
    decreases |es|
  {
    hide LastLine, Run, HttpParser.Step;
    if es == [] {
      NothingRun(env, st);
    } else {
      var e, rest := es[0], es[1..];
      var (st', ok) := HttpParser.Step(env, st, e);
      LastLineTail(es);
      RunFirst(env, st, es);
      StepDelivers(env, st, e);
      LastDelivered(env, st', rest);
      PrefixTwice(st.delivered, st'.delivered, Run(env, st', rest).0.delivered);
    }
  }

  lemma PrefixTwice(a: seq<Delivery>, b: seq<Delivery>, c: seq<Delivery>)
    requires a <= b <= c
    ensures a <= c && (c == a ==> b == a && c == b)
    ensures |b| > |a| ==> c[|a|] == b[|a|] && c != a
  {
  }

  lemma NothingRun(env: Env, st: St)
    ensures Run(env, st, []) == (st, true) && LastLine([]) == None
  {
  }

  lemma RunFirst(env: Env, st: St, es: seq<Event>)
    requires es != []
    ensures var (st', ok) := HttpParser.Step(env, st, es[0]);
            Run(env, st, es) == if ok then Run(env, st', es[1..]) else (st', false)
  {
  }

  lemma StepDelivers(env: Env, st: St, e: Event)
    requires HttpParser.Step(env, st, e).1
    ensures var ds := HttpParser.Step(env, st, e).0.delivered;
            && st.delivered <= ds
            && (!e.Complete? ==> ds == st.delivered)
            && (e.Complete? ==> |ds| == |st.delivered| + 1 && ds[|st.delivered|].keepAlive == e.line.keepAlive)
  {
    hide RequestOf, Absorb, Charged;
    if !e.Complete? { DeliveredKept(env, st, e); }
  }

  /// What a read without a failure sends and then does.
  lemma ReadWants(env: Env, st: St, es: seq<Event>, malformed: bool)
    requires Clean(st) && Run(env, st, es).1
    ensures ReadOuts(env, st, es, malformed).1
       <==> malformed || (LastLine(es).Some? && !LastLine(es).value.keepAlive)
  {
    hide Run, LastLine, Replies;
    assert Restarted(st) == st;
    DeliveredGrows(env, st, es);
    FailureShape(env, st, es);
    LastDelivered(env, st, es);
  }

  lemma ReadCloses(env: Env, c: ConnState, calls: seq<seq<Event>>, fault: bool, served: bool, s: Step)
    requires Settled(env, c, calls, fault, served) && s.Read? && Allowed(env, c, s)
    ensures Next(env, c, s).closing <==> ClosesIt(s) || Next(env, c, s).parser.failure.Some?
  {
    var st, es := c.parser, s.es;
    hide Run, RunCalls, ReadOuts, Owed, SendAll, Replies, Leading, AllTrue, LastLine;
    var (outs, close) := ReadOuts(env, st, es, s.malformed);
    var c1 := c.(parser := Run(env, Restarted(st), es).0);
    assert Restarted(st) == st;
    FailureShape(env, st, es);
    ReadOwes(env, st, es, s.malformed);
    SendAllQueues(c1, outs, s.oks);
    if c1.parser.failure.None? {
      ReadWants(env, st, es, s.malformed);
    }
  }

  lemma StepCloses(env: Env, c: ConnState, calls: seq<seq<Event>>, fault: bool, served: bool, s: Step)
    requires Settled(env, c, calls, fault, served) && Allowed(env, c, s)
    ensures var c' := Next(env, c, s);
            c'.closing <==> c.closing || ClosesIt(s) || c'.parser.failure.Some?
  {
    if s.Read? { ReadCloses(env, c, calls, fault, served, s); }
  }

  lemma {:induction false} RunCloses(
    env: Env, c: ConnState, calls: seq<seq<Event>>, fault: bool, served: bool, steps: seq<Step>)
    requires Settled(env, c, calls, fault, served) && AllowedRun(env, c, steps)
    ensures var c' := After(env, c, steps);
            c'.closing <==> c.closing || (exists s :: s in steps && ClosesIt(s)) || c'.parser.failure.Some?
    decreases |steps|
  {
    if steps != [] {
      var s, rest := steps[0], steps[1..];
      var c1 := Next(env, c, s);
      StepCloses(env, c, calls, fault, served, s);
      if s.Read? {
        ReadSettles(env, c, calls, fault, served, s);
        RunCloses(env, c1, calls + [s.es], s.malformed, AllTrue(s.oks), rest);
        if c1.parser.failure.Some? { ParserStays(env, c1, rest); }
      } else {
        RunCloses(env, c1, calls, fault, served, rest);
        if c1.parser.failure.Some? { ParserStays(env, c1, rest); }
      }
      hide *;
      assert After(env, c, steps) == After(env, c1, rest) by { AfterFirst(env, c, steps); }
      SomeCloses(s, rest);
      assert steps == [s] + rest;
    }
  }

  lemma AfterFirst(env: Env, c: ConnState, steps: seq<Step>)
    requires steps != [] && AllowedRun(env, c, steps)
    ensures After(env, c, steps) == After(env, Next(env, c, steps[0]), steps[1..])
  {
  }

  lemma SomeCloses(s: Step, rest: seq<Step>)
    ensures (exists x :: x in [s] + rest && ClosesIt(x)) <==> ClosesIt(s) || exists x :: x in rest && ClosesIt(x)
  {
    if ClosesIt(s) { assert s in [s] + rest; }
    forall x | x in rest && ClosesIt(x) ensures x in [s] + rest {}
  }

  /// Nothing is read once the connection is closing.
  lemma {:induction false} ParserStays(env: Env, c: ConnState, steps: seq<Step>)
    requires c.closeCalls > 0 && AllowedRun(env, c, steps)
    ensures After(env, c, steps).parser == c.parser
    decreases |steps|
  {
    if steps != [] { ParserStays(env, Next(env, c, steps[0]), steps[1..]); }
  }

  /// At every moment of every run the connection is closing exactly if something has made the
  /// server close it, or a message has failed.
  lemma {:induction false} ClosesExactly(env: Env, steps: seq<Step>, cs: seq<Cut>, part: seq<Event>)
    requires AllowedRun(env, Opened(), steps)
    requires (forall i :: 0 <= i < |cs| ==> WellCut(cs[i])) && NoEnd(part)
    requires Joined(Reads(steps)) == AllEvents(cs) + part
    ensures After(env, Opened(), steps).closing
       <==> (exists s :: s in steps && ClosesIt(s))
            || AnswerSoFar(env, MsgsOf(cs), Charges(part)).failure.Some?
  {
    assert Settled(env, Opened(), [], false, true);
    RunSettles(env, Opened(), [], false, true, steps);
    RunCloses(env, Opened(), [], false, true, steps);
    assert [] + Reads(steps) == Reads(steps);
    FragmentationInvariant(env, cs, part, Reads(steps));
  }
}

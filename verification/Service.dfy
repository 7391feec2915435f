// From the bytes of a connection back to the bytes of its client: what the chain and the
// handlers make of each request, serialized, queued and cut apart again by the reader.

module Service {
  import opened Text
  import opened Routing
  import opened HttpParser
  import opened ParserLaws
  import opened Responses
  import opened Connection
  import Framing
  import Reading
  import Registry
  import Grafting
  import Mounting
  import Middleware

  /// The middleware and routes in force, the texts of the status codes, and what is left to the
  /// application: how the `n`-th request of a connection and each event of its run through the
  /// chain change the response, and the JSON of the server's own answers.
  datatype Server = Server(
    chain: seq<Middleware.Mw>, routes: seq<Route>, codes: map<nat, string>,
    act: (nat, Request, Response, Middleware.Event) -> Response,
    notFound: (string, string) -> Json, failed: int -> Json)

  /// The chain's run on a request, from a path and no params or events.
  function Handling(srv: Server, r: Request): Middleware.State {
    Middleware.Run(Middleware.Then(srv.chain, Middleware.Final(srv.routes)),
                   Middleware.State(r.method_, r.path, map[], []))
  }

  const NEW_RESPONSE: Response := Response("HTTP/1.1", 200, [], BodyData(EMPTY, "", Json(""), ""))

  /// response.status(code).send(json).
  function SentJson(dump: Json -> string, r: Response, code: nat, j: Json): Response {
    Described(r.(status := code), "application/json", BodyData(JSON, dump(j), j, r.body.binary))
  }

  function Written(srv: Server, dump: Json -> string, n: nat, req: Request, trace: seq<Middleware.Event>): Response {
    if trace == [] then NEW_RESPONSE
    else
      var r := Written(srv, dump, n, req, trace[..|trace| - 1]);
      match trace[|trace| - 1]
      case NotFound(m, path) => SentJson(dump, r, 404, srv.notFound(path, m))
      case e => srv.act(n, req, r, e)
  }

  /// handleRequest for the `n`-th request of a connection.
  function ReplyTo(srv: Server, dump: Json -> string, n: nat, d: Delivery): Framing.Sent {
    Framing.Sent(Written(srv, dump, n, d.request, Handling(srv, d.request).trace), !d.keepAlive)
  }

  /// errorResponse.
  function ErrorSent(srv: Server, dump: Json -> string, status: nat): Framing.Sent {
    Framing.Sent(SentJson(dump, NEW_RESPONSE, status, srv.failed(status)), true)
  }

  // ------------------------------------------------- responses and runs

  /// `act` for each event in turn.
  function Applied(srv: Server, n: nat, req: Request, r: Response, trace: seq<Middleware.Event>): Response
    decreases |trace|
  {
    if trace == [] then r else Applied(srv, n, req, srv.act(n, req, r, trace[0]), trace[1..])
  }

  lemma {:induction false} AppliedSnoc(
    srv: Server, n: nat, req: Request, r: Response, a: seq<Middleware.Event>, e: Middleware.Event)
    ensures Applied(srv, n, req, r, a + [e]) == srv.act(n, req, Applied(srv, n, req, r, a), e)
    decreases |a|
  {
    if a == [] {
      assert [] + [e] == [e] && [e][1..] == [];
    } else {
      assert (a + [e])[1..] == a[1..] + [e];
      AppliedSnoc(srv, n, req, srv.act(n, req, r, a[0]), a[1..], e);
    }
  }

  lemma {:induction false} WrittenInOrder(
    srv: Server, dump: Json -> string, n: nat, req: Request, trace: seq<Middleware.Event>)
    requires forall i :: 0 <= i < |trace| ==> !trace[i].NotFound?
    ensures Written(srv, dump, n, req, trace) == Applied(srv, n, req, NEW_RESPONSE, trace)
  {
    if trace != [] {
      var front, e := trace[..|trace| - 1], trace[|trace| - 1];
      WrittenInOrder(srv, dump, n, req, front);
      AppliedSnoc(srv, n, req, NEW_RESPONSE, front, e);
      assert trace == front + [e];
    }
  }

  /// One event of the trace ends the request, and it is this one.
  predicate EndsAt(trace: seq<Middleware.Event>, i: nat) {
    forall j :: 0 <= j < |trace| ==> (Middleware.IsFinal(trace[j]) <==> j == i)
  }

  lemma {:induction false} NoneCounted(trace: seq<Middleware.Event>)
    requires Middleware.Count(trace, Middleware.IsFinal) == 0
    ensures forall j :: 0 <= j < |trace| ==> !Middleware.IsFinal(trace[j])
  {
    if trace != [] { NoneCounted(trace[..|trace| - 1]); }
  }

  lemma {:induction false} OneCounted(trace: seq<Middleware.Event>) returns (i: nat)
    requires Middleware.Count(trace, Middleware.IsFinal) == 1
    ensures i < |trace| && EndsAt(trace, i)
  {
    var n := |trace| - 1;
    if Middleware.IsFinal(trace[n]) {
      NoneCounted(trace[..n]);
      i := n;
    } else {
      i := OneCounted(trace[..n]);
    }
  }

  /// A request that goes through the server's middleware in one way, and is handled: each of them
  /// is entered once, one handler runs, and the response is what they make of it, in order.
  lemma {:induction false} HandledOnce(srv: Server, dump: Json -> string, calls: seq<nat>, n: nat, d: Delivery)
    requires Middleware.CallsNext(srv.chain, calls) && forall i :: 0 <= i < |calls| ==> calls[i] == 1
    requires forall j, k :: 0 <= j < k < |srv.chain| ==> srv.chain[j].id != srv.chain[k].id
    requires var trace := Handling(srv, d.request).trace;
             forall i :: 0 <= i < |trace| ==> !trace[i].NotFound?
    ensures var trace := Handling(srv, d.request).trace;
            && (forall i :: 0 <= i < |srv.chain| ==>
                  Middleware.Count(trace, Middleware.EntryOf(srv.chain[i].id)) == 1)
            && (exists i :: 0 <= i < |trace| && EndsAt(trace, i) && trace[i].Handled?)
            && ReplyTo(srv, dump, n, d).response == Applied(srv, n, d.request, NEW_RESPONSE, trace)
  {
    var r := d.request;
    var st, trace := Middleware.State(r.method_, r.path, map[], []), Handling(srv, r).trace;
    OnesProduct(calls);
    Middleware.FinalRuns(srv.chain, calls, srv.routes, st);
    forall i | 0 <= i < |srv.chain|
      ensures Middleware.Count(trace, Middleware.EntryOf(srv.chain[i].id)) == 1
    {
      Middleware.MiddlewareRuns(srv.chain, calls, i, srv.routes, st);
      OnesProduct(calls[..i]);
    }
    var i := OneCounted(trace);
    assert Middleware.IsFinal(trace[i]);
    hide Applied, Written;
    WrittenInOrder(srv, dump, n, r, trace);
  }

  lemma {:induction false} OnesProduct(calls: seq<nat>)
    requires forall i :: 0 <= i < |calls| ==> calls[i] == 1
    ensures Middleware.Product(calls) == 1
  {
    if calls != [] { OnesProduct(calls[1..]); }
  }

  /// A server of mounted routers only, and a request each of them could be asked for.
  ghost predicate PlainServer(srv: Server, mounts: seq<Mounting.Mount>, r: Request) {
    && srv.chain == Mounting.ChainOf(mounts)
    && Registry.MethodOk(r.method_) && Registry.PathOk(r.path)
    && forall i :: 0 <= i < |mounts| ==> Mounting.PlainMount(mounts[i], r.path)
  }

  lemma OneEvent(srv: Server, dump: Json -> string, n: nat, r: Request, e: Middleware.Event)
    ensures Written(srv, dump, n, r, [e])
         == match e
            case NotFound(m, path) => SentJson(dump, NEW_RESPONSE, 404, srv.notFound(path, m))
            case _ => srv.act(n, r, NEW_RESPONSE, e)
  {
    hide SentJson;
    assert [e][..0] == [];
  }

  /// A request that a mounted router has a route for is answered by that route's handler, on the
  /// relative path; one that only the server has a route for, by the best match of its own routes
  /// on the whole path; and one that nothing matches with a 404 whose JSON names path and method.
  lemma {:induction false} PlainServerAnswers(
    srv: Server, dump: Json -> string, mounts: seq<Mounting.Mount>, n: nat, d: Delivery)
    requires PlainServer(srv, mounts, d.request)
    ensures var r, response := d.request, ReplyTo(srv, dump, n, d).response;
            match Mounting.FirstFound(mounts, r.method_, r.path)
            case Some((p, f)) =>
              response == srv.act(n, r, NEW_RESPONSE,
                                  Middleware.Handled(f.handler, Mounting.RelativeIfEngaged(p, r.path), f.params))
            case None =>
              var q := Mounting.KeyOf(r.method_, r.path);
              && (forall s, f :: Grafting.BestFound(srv.routes, q, s, f) ==>
                    response == srv.act(n, r, NEW_RESPONSE, Middleware.Handled(f.handler, r.path, f.params)))
              && ((forall s :: Live(srv.routes, s) ==> !Matches(s, q, |q|)) ==>
                    && response.status == 404 && Announces(response, "application/json")
                    && response.body.kind == JSON && response.body.json == srv.notFound(r.path, r.method_))
  {
    hide Mounting.FirstFound, Mounting.KeyOf, Mounting.RelativeIfEngaged, Grafting.BestFound, PlainServer,
         SentJson, Written, Handling, Live, Matches, Announces;
    var r := d.request;
    var e := PlainEvent(srv, mounts, r);
    OneEvent(srv, dump, n, r, e);
    JsonSent(dump, NEW_RESPONSE, 404, srv.notFound(r.path, r.method_));
  }

  /// A request found neither behind a mount nor among the server's own routes gets nothing but the
  /// 404, its JSON naming the path and method asked for.
  lemma {:induction false} UnfoundGets404(
    srv: Server, dump: Json -> string, mounts: seq<Mounting.Mount>, n: nat, d: Delivery)
    requires PlainServer(srv, mounts, d.request)
    requires Mounting.FirstFound(mounts, d.request.method_, d.request.path).None?
    requires Registry.Dispatch(srv.routes, d.request.method_, d.request.path).None?
    ensures ReplyTo(srv, dump, n, d).response
         == SentJson(dump, NEW_RESPONSE, 404, srv.notFound(d.request.path, d.request.method_))
  {
    hide Mounting.FirstFound, Grafting.BestFound, PlainServer, SentJson, Written, Handling, Live, Matches;
    var r := d.request;
    var e := PlainEvent(srv, mounts, r);
    OneEvent(srv, dump, n, r, e);
    MissIsNoMatch(srv.routes, Mounting.KeyOf(r.method_, r.path));
  }

  /// The one event of the run.
  lemma PlainEvent(srv: Server, mounts: seq<Mounting.Mount>, r: Request) returns (e: Middleware.Event)
    requires PlainServer(srv, mounts, r)
    ensures Handling(srv, r).trace == [e]
    ensures match Mounting.FirstFound(mounts, r.method_, r.path)
            case Some((p, f)) => e == Middleware.Handled(f.handler, Mounting.RelativeIfEngaged(p, r.path), f.params)
            case None =>
              var q := Mounting.KeyOf(r.method_, r.path);
              && (forall s, f :: Grafting.BestFound(srv.routes, q, s, f) ==> e == Middleware.Handled(f.handler, r.path, f.params))
              && ((forall s :: Live(srv.routes, s) ==> !Matches(s, q, |q|)) ==> e == Middleware.NotFound(r.method_, r.path))
  {
    hide Mounting.PlainMount, Mounting.FirstFound, Mounting.ChainOf, Mounting.KeyOf, Mounting.RelativeIfEngaged,
         Registry.MethodOk, Registry.PathOk, Grafting.BestFound, Middleware.Run, Live, Matches;
    var st := Middleware.State(r.method_, r.path, map[], []);
    Mounting.MountedServer(mounts, srv.routes, st);
    Mounting.OwnRoutesAnswer(srv.routes, st);
    e := Handling(srv, r).trace[0];
  }

  // ------------------------------------------------- the server's own answers

  /// What the server itself answers, its 404s and its error responses, is framed whenever the
  /// status text is a plain one and the sizes are representable.
  lemma {:induction false} OwnAnswersFrame(
    codes: map<nat, string>, dump: Json -> string, status: nat, j: Json, close: bool)
    requires ':' !in Reason(codes, status) && '\r' !in Reason(codes, status)
    requires |dump(j)| <= Decimal.LONG_MAX
    requires Framing.Fits(codes, SentJson(dump, NEW_RESPONSE, status, j), close)
    ensures Framing.Sendable(codes, dump, Framing.Sent(SentJson(dump, NEW_RESPONSE, status, j), close))
  {
    var r := SentJson(dump, NEW_RESPONSE, status, j);
    var body := BodyData(JSON, dump(j), j, "");
    hide Reason, Decimal.ToString, Less, Set, Find, StatusLine;
    Framing.StatusLineIsPlain(codes, r);
    DescribedAnnounces(NEW_RESPONSE.(status := status), "application/json", body);
    Framing.LengthLine(Decimal.ToString(Length(body)));
    Framing.LessIrreflexive("Content-Length");
    TypeAfterLength();
    LineWithoutCr("Content-Type", "application/json");
    forall h | h in r.headers
      ensures '\r' !in HeaderLine(h) && !Less(h.name, "Content-Length")
    {
      assert h.name == "Content-Length" || h.name == "Content-Type";
      assert h == Header(h.name, h.value);
    }
  }

  lemma TypeAfterLength()
    ensures !Less("Content-Type", "Content-Length")
  {
    hide Less;
    SharedFront("Content-", "Type", "Length");
    assert "Content-" + "Type" == "Content-Type" && "Content-" + "Length" == "Content-Length";
  }

  lemma LineWithoutCr(name: string, value: string)
    requires '\r' !in name && '\r' !in value
    ensures '\r' !in HeaderLine(Header(name, value))
  {
  }

  lemma {:induction false} SharedFront(front: string, a: string, b: string)
    requires a != "" && b != "" && a[0] > b[0]
    ensures !Less(front + a, front + b)
  {
    if front != "" {
      assert (front + a)[1..] == front[1..] + a && (front + b)[1..] == front[1..] + b;
      SharedFront(front[1..], a, b);
    } else {
      assert front + a == a && front + b == b;
    }
  }

  // ------------------------------------------------- the bytes on the wire

  /// The bytes of the `n`-th queued response.
  function OutBytes(srv: Server, dump: Json -> string, n: nat, out: Out): string {
    match out
    case Reply(d) =>
      var s := ReplyTo(srv, dump, n, d);
      SentBytes(srv.codes, dump, d.request.method_, s.close, s.response)
    case ErrorReply(status) => Framing.Bytes(srv.codes, dump, ErrorSent(srv, dump, status))
  }

  /// The queue, response by response.
  function WireBytes(srv: Server, dump: Json -> string, outs: seq<Out>): seq<string> {
    seq(|outs|, i requires 0 <= i < |outs| => OutBytes(srv, dump, i, outs[i]))
  }

  // ------------------------------------------------- a request's own response

  /// Every request handed over is the one its own message makes, at its own place.
  lemma {:induction false} DeliveredAreOwn(env: Env, n: nat, msgs: seq<Msg>)
    ensures var ds := AnswerAll(env, n, msgs).delivered;
            |ds| <= |msgs| && forall i :: 0 <= i < |ds| ==> AnswerTo(env, n + i, msgs[i]).delivered == [ds[i]]
    decreases |msgs|
  {
    hide AnswerTo;
    if msgs != [] {
      OneEach(env, n, msgs[0]);
      var ds, more := AnswerAll(env, n, msgs).delivered, AnswerAll(env, n + 1, msgs[1..]).delivered;
      DeliveredAreOwn(env, n + 1, msgs[1..]);
      forall i | 0 <= i < |ds| ensures AnswerTo(env, n + i, msgs[i]).delivered == [ds[i]] {
        if i > 0 {
          assert AnswerTo(env, n + 1 + (i - 1), msgs[1..][i - 1]).delivered == [more[i - 1]];
          assert n + 1 + (i - 1) == n + i;
        }
      }
    }
  }

  lemma OwnMethod(env: Env, n: nat, msg: Msg)
    ensures AnswerTo(env, n, msg).delivered != [] ==>
              var d := AnswerTo(env, n, msg).delivered[0];
              d.request.method_ == msg.line.method_ && d.keepAlive == msg.line.keepAlive
  {
  }

  // ------------------------------------------------- a whole connection

  /// Which of a client's first `n` requests were HEAD.
  function Heads(msgs: seq<Msg>, n: nat): seq<bool>
    requires n <= |msgs|
  {
    seq(n, i requires 0 <= i < n => msgs[i].line.method_ == "HEAD")
  }

  /// A queued response has an end: form bodies only answer HEAD.
  predicate Readable(srv: Server, dump: Json -> string, n: nat, out: Out) {
    match out
    case Reply(d) => Framing.Answerable(srv.codes, dump, d.request.method_, ReplyTo(srv, dump, n, d))
    case ErrorReply(status) => Framing.Sendable(srv.codes, dump, ErrorSent(srv, dump, status))
  }

  lemma ReadableFramed(srv: Server, dump: Json -> string, n: nat, out: Out)
    requires Readable(srv, dump, n, out)
    ensures Framing.Framed(out.Reply? && out.delivery.request.method_ == "HEAD", OutBytes(srv, dump, n, out))
  {
    hide Framing.Framed, Framing.Sendable, Framing.Answerable, ReplyTo, ErrorSent, HeadOf, Finished, Emitted;
    match out
    case Reply(d) =>
      Framing.AnswerFramed(srv.codes, dump, d.request.method_, ReplyTo(srv, dump, n, d));
    case ErrorReply(status) =>
      assert Framing.Answerable(srv.codes, dump, "GET", ErrorSent(srv, dump, status)) by {
        SendableToGet(srv.codes, dump, ErrorSent(srv, dump, status));
      }
      Framing.AnswerFramed(srv.codes, dump, "GET", ErrorSent(srv, dump, status));
  }

  lemma SendableToGet(codes: map<nat, string>, dump: Json -> string, s: Framing.Sent)
    requires Framing.Sendable(codes, dump, s)
    ensures Framing.Answerable(codes, dump, "GET", s)
  {
  }

  /// The response behind a queued one is legible.
  predicate LegibleOut(srv: Server, dump: Json -> string, n: nat, out: Out) {
    match out
    case Reply(d) => Reading.Legible(srv.codes, ReplyTo(srv, dump, n, d).response)
    case ErrorReply(status) => Reading.Legible(srv.codes, ErrorSent(srv, dump, status).response)
  }

  lemma OutSaysClose(srv: Server, dump: Json -> string, n: nat, out: Out)
    requires LegibleOut(srv, dump, n, out)
    ensures Reading.SaysClose(Reading.ReadResponse(OutBytes(srv, dump, n, out)),
                              out.ErrorReply? || !out.delivery.keepAlive)
  {
    hide Reading.Legible, Reading.SaysClose, Reading.ReadResponse, HeadOf, Finished, Emitted, Written, Handling;
    match out
    case Reply(d) =>
      Reading.CloseSaid(srv.codes, dump, d.request.method_, !d.keepAlive, ReplyTo(srv, dump, n, d).response);
    case ErrorReply(status) =>
      Reading.CloseSaid(srv.codes, dump, "GET", true, ErrorSent(srv, dump, status).response);
  }

  /// A client reads back the response behind what is queued; an error response says its status,
  /// and what went wrong in JSON.
  lemma {:induction false} OutRead(srv: Server, dump: Json -> string, n: nat, out: Out)
    requires LegibleOut(srv, dump, n, out)
    ensures var read := Reading.ReadResponse(OutBytes(srv, dump, n, out));
            match out
            case Reply(d) =>
              var r := ReplyTo(srv, dump, n, d).response;
              && read.protocol == r.protocol && read.status == Decimal.ToString(r.status)
              && read.body == Reading.Payload(dump, d.request.method_, r.body)
            case ErrorReply(status) =>
              && read.protocol == "HTTP/1.1" && read.status == Decimal.ToString(status)
              && read.body == dump(srv.failed(status))
              && Header("Content-Type", "application/json") in read.headers
  {
    hide Reading.Legible, Reading.ReadResponse, HeadOf, Finished, Written, Handling, Decimal.ToString, Set;
    match out
    case Reply(d) =>
      Reading.ReadBack(srv.codes, dump, d.request.method_, !d.keepAlive, ReplyTo(srv, dump, n, d).response);
    case ErrorReply(status) =>
      var r := ErrorSent(srv, dump, status).response;
      Reading.ReadBack(srv.codes, dump, "GET", true, r);
      JsonSent(dump, NEW_RESPONSE, status, srv.failed(status));
      FinishedSays(r, true);
  }

  /// A JSON answer has its status and its body, and is announced as JSON.
  lemma {:induction false} JsonSent(dump: Json -> string, r: Response, code: nat, j: Json)
    requires Ordered(r.headers)
    ensures var sent := SentJson(dump, r, code, j);
            && sent.status == code && sent.protocol == r.protocol && Ordered(sent.headers)
            && sent.body.kind == JSON && sent.body.json == j && sent.body.raw == dump(j)
            && Announces(sent, "application/json")
  {
    hide Set, Decimal.ToString;
    DescribedAnnounces(r.(status := code), "application/json", BodyData(JSON, dump(j), j, r.body.binary));
  }

  /// The first `n` messages do not fail, and then one does, or there is no other; it, or the part
  /// of one more with `started` bytes, is what fails if anything does.
  ghost predicate FirstToFail(env: Env, msgs: seq<Msg>, started: nat, n: nat, failure: Option<Failure>) {
    && n <= |msgs| && (forall i :: 0 <= i < n ==> AnswerTo(env, i, msgs[i]).failure.None?)
    && (n < |msgs| ==> failure.Some? && failure == AnswerTo(env, n, msgs[n]).failure)
    && (n == |msgs| ==> failure == if started > env.maxHeaderBytes then Some(HeaderLimit) else None)
  }

  lemma HandledStep(env: Env, n: nat, msgs: seq<Msg>)
    requires msgs != []
    ensures var first, a := AnswerTo(env, n, msgs[0]), AnswerAll(env, n, msgs);
            var rest := AnswerAll(env, n + 1, msgs[1..]);
            && a.failure == (if first.failure.Some? then first.failure else rest.failure)
            && |Handled(a.delivered, a.failure)|
               == if first.failure.Some? then 0 else 1 + |Handled(rest.delivered, rest.failure)|
  {
    OneEach(env, n, msgs[0]);
    FailedAnswer(env, n, msgs[0]);
    ThrownLast(env, n + 1, msgs[1..]);
    hide AnswerTo;
  }

  /// The requests answered are those of the messages in front of the first that fails.
  lemma {:induction false} HandledInFront(env: Env, n: nat, msgs: seq<Msg>)
    ensures var a := AnswerAll(env, n, msgs);
            var k := |Handled(a.delivered, a.failure)|;
            && k <= |msgs| && (k < |msgs| <==> a.failure.Some?)
            && (forall i :: 0 <= i < k ==> AnswerTo(env, n + i, msgs[i]).failure.None?)
            && (k < |msgs| ==> AnswerTo(env, n + k, msgs[k]).failure == a.failure)
    decreases |msgs|
  {
    hide AnswerTo;
    if msgs != [] {
      HandledStep(env, n, msgs);
      hide AnswerAll, Handled;
      var first, rest := AnswerTo(env, n, msgs[0]), AnswerAll(env, n + 1, msgs[1..]);
      if first.failure.None? {
        HandledInFront(env, n + 1, msgs[1..]);
        var k := |Handled(rest.delivered, rest.failure)|;
        forall i | 0 <= i < 1 + k ensures AnswerTo(env, n + i, msgs[i]).failure.None? {
          if i > 0 { assert n + 1 + (i - 1) == n + i && msgs[1..][i - 1] == msgs[i]; }
        }
        assert n + 1 + k == n + (1 + k);
      }
    }
  }

  lemma FailedAnswer(env: Env, n: nat, msg: Msg)
    ensures var a := AnswerTo(env, n, msg);
            a.failure.Some? ==> |a.delivered| == if a.failure == Some(HandlerThrew) then 1 else 0
  {
  }

  lemma {:induction false} ThrownLast(env: Env, n: nat, msgs: seq<Msg>)
    ensures var a := AnswerAll(env, n, msgs); a.failure == Some(HandlerThrew) ==> a.delivered != []
    decreases |msgs|
  {
    if msgs != [] {
      OneEach(env, n, msgs[0]);
      FailedAnswer(env, n, msgs[0]);
      ThrownLast(env, n + 1, msgs[1..]);
    }
  }

  /// The responses owed for a stream, by message.
  lemma OwedByMessage(env: Env, msgs: seq<Msg>, started: nat, fault: bool)
    ensures var a := AnswerSoFar(env, msgs, started);
            var ds, owed := Handled(a.delivered, a.failure), Owed(a.delivered, a.failure, fault);
            var failed := fault || a.failure.Some?;
            && |ds| <= |msgs| && |owed| == |ds| + (if failed then 1 else 0)
            && FirstToFail(env, msgs, started, |ds|, a.failure)
            && (forall i :: 0 <= i < |ds| ==>
                  && AnswerTo(env, i, msgs[i]).delivered == [ds[i]] && owed[i] == Reply(ds[i])
                  && ds[i].request.method_ == msgs[i].line.method_ && ds[i].keepAlive == msgs[i].line.keepAlive)
            && (failed ==> owed[|ds|] == ErrorReply(if a.failure == Some(HeaderLimit) then 431 else 400))
  {
    hide AnswerTo, AnswerAll, Replies;
    var a := AnswerSoFar(env, msgs, started);
    var ds := Handled(a.delivered, a.failure);
    DeliveredAreOwn(env, 0, msgs);
    HandledInFront(env, 0, msgs);
    RepliesEach(ds);
    forall i | 0 <= i < |ds| ensures AnswerTo(env, i, msgs[i]).failure.None? {
      assert AnswerTo(env, 0 + i, msgs[i]).failure.None?;
    }
    assert 0 + |ds| == |ds|;
    forall i | 0 <= i < |ds|
      ensures AnswerTo(env, i, msgs[i]).delivered == [ds[i]]
      ensures ds[i].request.method_ == msgs[i].line.method_ && ds[i].keepAlive == msgs[i].line.keepAlive
    {
      assert AnswerTo(env, 0 + i, msgs[i]).delivered == [a.delivered[i]];
      OwnMethod(env, i, msgs[i]);
    }
  }

  /// From request bytes to response bytes, over every run and every arrival of the stream. The
  /// connection writes a response to each handled request, in order, made from that request's own
  /// message by the chain and its handlers, and after them the error response exactly when a
  /// message has failed or llhttp has found fault: the first of these, all exactly if no uv_write
  /// was refused. A client that knows the methods it asked by and has read any part `got` of what
  /// is written cuts off the first responses, and with all of it all of them; and a response says
  /// that the connection closes exactly if its request asked for that or it is the error response.
  lemma {:induction false} ServedInOrder(
    srv: Server, env: Env, steps: seq<Connection.Step>, cs: seq<ParserLaws.Cut>, part: seq<HttpParser.Event>,
    got: string)
    requires AllowedRun(env, Opened(), steps)
    requires (forall i :: 0 <= i < |cs| ==> WellCut(cs[i])) && NoEnd(part)
    requires Joined(Reads(steps)) == AllEvents(cs) + part
    requires var queued := After(env, Opened(), steps).queued;
             && (forall i :: 0 <= i < |queued| ==> Readable(srv, env.dump, i, queued[i]))
             && got <= Concat(WireBytes(srv, env.dump, queued))
    ensures var a, msgs := AnswerSoFar(env, MsgsOf(cs), Charges(part)), MsgsOf(cs);
            var n, failed := |Handled(a.delivered, a.failure)|, Faulted(steps) || a.failure.Some?;
            var all := WireBytes(srv, env.dump, After(env, Opened(), steps).queued);
            && FirstToFail(env, msgs, Charges(part), n, a.failure)
            && |all| <= n + (if failed then 1 else 0)
            && (|all| == n + (if failed then 1 else 0) <==> WritesSucceed(steps))
            && (forall i :: 0 <= i < n && i < |all| ==>
                  |AnswerTo(env, i, msgs[i]).delivered| == 1
                  && all[i] == OutBytes(srv, env.dump, i, Reply(AnswerTo(env, i, msgs[i]).delivered[0])))
            && (n < |all| ==>
                  all[n] == OutBytes(srv, env.dump, n,
                                     ErrorReply(if a.failure == Some(HeaderLimit) then 431 else 400)))
            && (forall i :: 0 <= i < |all| && LegibleOut(srv, env.dump, i, After(env, Opened(), steps).queued[i]) ==>
                  Reading.SaysClose(Reading.ReadResponse(all[i]), if i < n then !msgs[i].line.keepAlive else true))
            && var (pieces, left) := Framing.CutFor(Heads(msgs, n), got);
            && pieces <= all && Concat(pieces) + left == got
            && (got == Concat(all) ==> pieces == all && left == "")
  {
    hide ReplyTo, ErrorSent, AnswerTo, AnswerAll, AnswerSoFar, FirstToFail, Concat, Owed, Handled, AllowedRun, After, OutBytes,
         Readable, LegibleOut, Reading.SaysClose, Reading.ReadResponse, Framing.CutFor, Framing.Framed;
    var a, msgs := AnswerSoFar(env, MsgsOf(cs), Charges(part)), MsgsOf(cs);
    var n, queued := |Handled(a.delivered, a.failure)|, After(env, Opened(), steps).queued;
    var owed := Owed(a.delivered, a.failure, Faulted(steps));
    ResponsesMatchRequests(env, steps, cs, part);
    OwedByMessage(env, msgs, Charges(part), Faulted(steps));
    assert |queued| == |owed| <==> queued == owed;
    var heads, all := Heads(msgs, n), WireBytes(srv, env.dump, queued);
    forall i | 0 <= i < |all| ensures Framing.Framed(i < |heads| && heads[i], all[i]) {
      assert queued[i] == owed[i];
      ReadableFramed(srv, env.dump, i, queued[i]);
    }
    Framing.CutForPrefix(heads, all, got);
    forall i | 0 <= i < |all| && LegibleOut(srv, env.dump, i, queued[i])
      ensures Reading.SaysClose(Reading.ReadResponse(all[i]), if i < n then !msgs[i].line.keepAlive else true)
    {
      assert queued[i] == owed[i];
      OutSaysClose(srv, env.dump, i, queued[i]);
    }
  }
}

// HttpParser::Impl: the callbacks llhttp drives, and what they make of a stream
// of messages however it is cut into callbacks and execute calls.

module HttpParser {
  import opened Text
  import opened Decimal
  import opened UrlCodec
  import opened Target

  datatype Json = Json(text: string)

  datatype Header = Header(name: string, value: string)

  /// The parts of the world the parser leaves to others: nlohmann's parser and printer, and
  /// whether the server's handler throws on the n-th request it is called with.
  datatype Env = Env(maxHeaderBytes: nat, parse: string -> Option<Json>, dump: Json -> string,
                     throws: (nat, Request) -> bool)

  datatype Body = Empty | TextBody(raw: string) | JsonBody(json: Json, raw: string)

  datatype Request = Request(
    method_: string, protocol: string, headers: map<string, string>, path: string, query: Query, body: Body)

  datatype Failure = HeaderLimit | BadJson | HandlerThrew

  /// llhttp's callbacks, in the order it makes them.
  datatype Event =
    | Url(at: string) | Field(at: string) | Value(at: string) | HeadersComplete
    | BodyPart(at: string) | Complete(line: Line)

  /// What llhttp itself knows of the message at its end.
  datatype Line = Line(method_: string, major: nat, minor: nat, keepAlive: bool)

  datatype Delivery = Delivery(request: Request, keepAlive: bool)

  /// The fields of Impl, and the handler calls made so far.
  datatype St = St(
    target: string, field: string, value: string, body: string, headers: map<string, string>,
    readingValue: bool, headerBytes: nat, limitHit: bool, failure: Option<Failure>,
    delivered: seq<Delivery>)

  function Fresh(delivered: seq<Delivery>): St {
    St("", "", "", "", map[], false, 0, false, None, delivered)
  }

  // ------------------------------------------------- one callback

  function Committed(st: St): St {
    st.(headers := if st.field != "" then st.headers[st.field := st.value] else st.headers,
        field := "", value := "")
  }

  function Charged(env: Env, st: St, len: nat): (St, bool) {
    var st' := st.(headerBytes := st.headerBytes + len);
    if st'.headerBytes > env.maxHeaderBytes
    then (st'.(limitHit := true, failure := Some(HeaderLimit)), false)
    else (st', true)
  }

  /// What a callback does to the fields once its bytes are paid for.
  function Absorb(st: St, e: Event): St
    requires !e.Complete?
  {
    match e
    case Url(at) => st.(target := st.target + at)
    case Field(at) =>
      var st' := if st.readingValue then Committed(st).(readingValue := false) else st;
      st'.(field := st'.field + at)
    case Value(at) => st.(readingValue := true, value := st.value + at)
    case HeadersComplete => Committed(st)
    case BodyPart(at) => st.(body := st.body + at)
  }

  function Charge(e: Event): nat {
    match e
    case Url(at) => |at|
    case Field(at) => |at|
    case Value(at) => |at|
    case _ => 0
  }

  function ContentType(headers: map<string, string>): string {
    if "Content-Type" in headers then headers["Content-Type"] else ""
  }

  /// The request a finished message makes; None if its JSON does not parse. A body makes
  /// operator[] look up, and so insert, a Content-Type.
  function RequestOf(env: Env, target: string, headers: map<string, string>, body: string, line: Line)
    : Option<Request>
  {
    var stripped := Stripped(Decode(target));
    var protocol := "HTTP/" + ToString(line.major) + "." + ToString(line.minor);
    var bare := Request(line.method_, protocol, headers, PathOf(stripped), QueryOf(QueryPieces(stripped)), Empty);
    if body == "" then Some(bare)
    else
      var looked := bare.(headers := headers["Content-Type" := ContentType(headers)]);
      if ContentType(headers) == "application/json" then
        match env.parse(body)
        case None => None
        case Some(j) => Some(looked.(body := JsonBody(j, env.dump(j))))
      else Some(looked.(body := TextBody(body)))
  }

  function Step(env: Env, st: St, e: Event): (St, bool) {
    match e
    case Complete(line) =>
      (match RequestOf(env, st.target, st.headers, st.body, line)
       case None => (st.(failure := Some(BadJson)), false)
       case Some(r) =>
         var done := Fresh(st.delivered + [Delivery(r, line.keepAlive)])
                     .(limitHit := st.limitHit, failure := st.failure);
         if env.throws(|st.delivered|, r) then (done.(failure := Some(HandlerThrew)), false) else (done, true))
    case _ =>
      var (paid, ok) := if e.HeadersComplete? || e.BodyPart? then (st, true) else Charged(env, st, Charge(e));
      if ok then (Absorb(paid, e), true) else (paid, false)
  }

  /// llhttp stops at the first callback that does not return 0.
  function Run(env: Env, st: St, es: seq<Event>): (St, bool)
    decreases |es|
  {
    if es == [] then (st, true)
    else
      var (st', ok) := Step(env, st, es[0]);
      if ok then Run(env, st', es[1..]) else (st', false)
  }

  // ------------------------------------------------- the object

  class Impl {
    const env: Env
    var target: string
    var field: string
    var value: string
    var body: string
    var headers: map<string, string>
    var readingValue: bool
    var headerBytes: nat
    var headerLimitHit: bool
    var failure: Option<Failure>
    var delivered: seq<Delivery>
    var errorStatus: nat

    ghost function View(): St
      reads this
    {
      St(target, field, value, body, headers, readingValue, headerBytes, headerLimitHit, failure, delivered)
    }

    constructor (e: Env)
      ensures env == e && View() == Fresh([]) && errorStatus == 400
    {
      env := e;
      target, field, value, body, headers := "", "", "", "", map[];
      readingValue, headerBytes, headerLimitHit, failure := false, 0, false, None;
      delivered, errorStatus := [], 400;
    }

    method CommitHeader()
      modifies this
      ensures View() == Committed(old(View())) && errorStatus == old(errorStatus)
    {
      if field != "" {
        headers := headers[field := value];
      }
      field := "";
      value := "";
    }

    method ChargeBytes(len: nat) returns (ok: bool)
      modifies this
      ensures (View(), ok) == Charged(env, old(View()), len) && errorStatus == old(errorStatus)
    {
      headerBytes := headerBytes + len;
      if headerBytes > env.maxHeaderBytes {
        headerLimitHit := true;
        failure := Some(HeaderLimit);
        return false;
      }
      return true;
    }

    method ResetRequest()
      modifies this
      ensures View() == Fresh(old(delivered)).(limitHit := old(headerLimitHit), failure := old(failure))
      ensures errorStatus == old(errorStatus)
    {
      target, field, value, body := "", "", "", "";
      headers := map[];
      readingValue := false;
      headerBytes := 0;
    }

    method OnUrl(at: string) returns (ok: bool)
      modifies this
      ensures (View(), ok) == Step(env, old(View()), Url(at)) && errorStatus == old(errorStatus)
    {
      ok := ChargeBytes(|at|);
      if !ok { return; }
      target := target + at;
    }

    method OnHeaderField(at: string) returns (ok: bool)
      modifies this
      ensures (View(), ok) == Step(env, old(View()), Field(at)) && errorStatus == old(errorStatus)
    {
      ok := ChargeBytes(|at|);
      if !ok { return; }
      if readingValue {
        CommitHeader();
        readingValue := false;
      }
      field := field + at;
    }

    method OnHeaderValue(at: string) returns (ok: bool)
      modifies this
      ensures (View(), ok) == Step(env, old(View()), Value(at)) && errorStatus == old(errorStatus)
    {
      ok := ChargeBytes(|at|);
      if !ok { return; }
      readingValue := true;
      value := value + at;
    }

    method OnBody(at: string) returns (ok: bool)
      modifies this
      ensures (View(), ok) == Step(env, old(View()), BodyPart(at)) && errorStatus == old(errorStatus)
    {
      body := body + at;
      return true;
    }

    method OnMessageComplete(line: Line) returns (ok: bool)
      modifies this
      ensures (View(), ok) == Step(env, old(View()), Complete(line)) && errorStatus == old(errorStatus)
    {
      hide ToString, Decode, Stripped, PathOf, QueryOf, QueryPieces;
      var path, query := ApplyTarget(target);
      var protocol := "HTTP/" + ToString(line.major) + "." + ToString(line.minor);
      var request := Request(line.method_, protocol, headers, path, query, Empty);
      if body != "" {
        request := request.(headers := request.headers["Content-Type" := ContentType(request.headers)]);
        if request.headers["Content-Type"] == "application/json" {
          var parsed := env.parse(body);
          if parsed.None? {
            failure := Some(BadJson);
            return false;
          }
          request := request.(body := JsonBody(parsed.value, env.dump(parsed.value)));
        } else {
          request := request.(body := TextBody(body));
        }
      }
      ResetRequest();
      delivered := delivered + [Delivery(request, line.keepAlive)];
      if env.throws(|delivered| - 1, request) {
        failure := Some(HandlerThrew);
        return false;
      }
      return true;
    }

    method Callback(e: Event) returns (ok: bool)
      modifies this
      ensures (View(), ok) == Step(env, old(View()), e) && errorStatus == old(errorStatus)
    {
      match e
      case Url(at) => ok := OnUrl(at);
      case Field(at) => ok := OnHeaderField(at);
      case Value(at) => ok := OnHeaderValue(at);
      case HeadersComplete => CommitHeader(); ok := true;
      case BodyPart(at) => ok := OnBody(at);
      case Complete(line) => ok := OnMessageComplete(line);
    }

    /// HttpParser::execute on bytes that make llhttp call back with `es`, and then find its own
    /// error if `malformed`.
    method Execute(es: seq<Event>, malformed: bool) returns (ok: bool)
      modifies this
      ensures var (st, good) := Run(env, old(View()).(failure := None, limitHit := false), es);
              && View() == st
              && ok == (good && !malformed)
              && errorStatus == (if ok then old(errorStatus) else if st.limitHit then 431 else 400)
    {
      failure := None;
      headerLimitHit := false;
      ghost var start := View();
      var i := 0;
      ok := true;
      assert es[0..] == es;
      while i < |es| && ok
        invariant i <= |es| && errorStatus == old(errorStatus)
        invariant ok ==> Run(env, View(), es[i..]) == Run(env, start, es)
        invariant !ok ==> Run(env, start, es) == (View(), false)
      {
        assert es[i..][1..] == es[i + 1..];
        ok := Callback(es[i]);
        i := i + 1;
      }
      if malformed { ok := false; }
      if !ok {
        errorStatus := if headerLimitHit then 431 else 400;
      }
    }
  }
}

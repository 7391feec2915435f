// Response bodies, the ordered header map, and serialization into a head and a
// separately written body.

module Responses {
  import opened Decimal
  import opened HttpParser

  // ------------------------------------------------- bodies

  datatype Kind = EMPTY | TEXT | JSON | FORM_DATA | MULTIPART | BINARY

  /// The fields of HttpBody that a response reads.
  datatype BodyData = BodyData(kind: Kind, raw: string, json: Json, binary: string)

  /// HttpBody::length.
  function Length(b: BodyData): nat {
    match b.kind
    case JSON => |b.raw|
    case TEXT => |b.raw|
    case FORM_DATA => |b.raw|
    case MULTIPART => |b.raw|
    case BINARY => |b.binary|
    case EMPTY => 0
  }

  /// The bytes serialize writes for a body.
  function Emitted(dump: Json -> string, b: BodyData): string {
    match b.kind
    case TEXT => b.raw
    case JSON => dump(b.json)
    case BINARY => b.binary
    case _ => ""
  }

  /// Raw JSON text is the dump of the stored value.
  predicate Coherent(dump: Json -> string, b: BodyData) {
    b.kind == JSON ==> b.raw == dump(b.json)
  }

  /// Exactly the form kinds announce bytes that are not written.
  lemma LengthIsEmitted(dump: Json -> string, b: BodyData)
    requires Coherent(dump, b)
    ensures Length(b) == |Emitted(dump, b)| <==> ((b.kind == FORM_DATA || b.kind == MULTIPART) ==> b.raw == "")
  {
  }

  class HttpBody {
    const dump: Json -> string
    var kind: Kind
    var raw_data: string
    var json_data: Json
    var binary_data: string

    function View(): BodyData
      reads this
    {
      BodyData(kind, raw_data, json_data, binary_data)
    }

    ghost predicate Valid()
      reads this
    {
      Coherent(dump, View())
    }

    constructor (d: Json -> string)
      ensures Valid() && dump == d && kind == EMPTY && raw_data == "" && binary_data == ""
    {
      dump, kind, raw_data, json_data, binary_data := d, EMPTY, "", Json(""), "";
    }

    method SetJson(j: Json)
      modifies this
      ensures Valid() && View() == BodyData(JSON, dump(j), j, old(binary_data))
    {
      kind := JSON;
      json_data := j;
      raw_data := dump(j);
    }

    method SetText(text: string)
      modifies this
      ensures Valid() && View() == BodyData(TEXT, text, old(json_data), old(binary_data))
    {
      kind := TEXT;
      raw_data := text;
    }

    method SetBinary(data: string)
      modifies this
      ensures Valid() && View() == BodyData(BINARY, old(raw_data), old(json_data), data)
    {
      kind := BINARY;
      binary_data := data;
    }
  }

  // ------------------------------------------------- the header map, in iteration order

  /// std::less<std::string>.
  predicate Less(a: string, b: string) {
    if b == "" then false
    else if a == "" then true
    else a[0] < b[0] || (a[0] == b[0] && Less(a[1..], b[1..]))
  }

  predicate Ordered(hs: seq<Header>) {
    forall i, j :: 0 <= i < j < |hs| ==> Less(hs[i].name, hs[j].name)
  }

  /// headers[name] = value.
  function Set(hs: seq<Header>, name: string, value: string): seq<Header> {
    if hs == [] || Less(name, hs[0].name) then [Header(name, value)] + hs
    else if hs[0].name == name then [Header(name, value)] + hs[1..]
    else [hs[0]] + Set(hs[1..], name, value)
  }

  lemma {:induction false} LessTotal(a: string, b: string)
    ensures Less(a, b) || Less(b, a) || a == b
    ensures !(Less(a, b) && Less(b, a))
    decreases |a|
  {
    if a != "" && b != "" {
      LessTotal(a[1..], b[1..]);
      if a[0] == b[0] && a[1..] == b[1..] { assert a == [a[0]] + a[1..] == b; }
    }
  }

  lemma {:induction false} LessTrans(a: string, b: string, c: string)
    requires Less(a, b) && Less(b, c)
    ensures Less(a, c)
    decreases |a|
  {
    if a != "" && a[0] == b[0] == c[0] { LessTrans(a[1..], b[1..], c[1..]); }
  }

  /// Setting keeps the order, adds or replaces the one name, and leaves the others.
  lemma {:induction false} SetKeeps(hs: seq<Header>, name: string, value: string)
    requires Ordered(hs)
    ensures Ordered(Set(hs, name, value))
    ensures forall h :: h in Set(hs, name, value) <==> (h == Header(name, value) || (h in hs && h.name != name))
    decreases |hs|
  {
    if hs == [] {
    } else if Less(name, hs[0].name) {
      forall i | 0 <= i < |hs| ensures Less(name, hs[i].name) {
        if i > 0 { LessTrans(name, hs[0].name, hs[i].name); }
      }
      LessTotal(name, name);
    } else if hs[0].name == name {
      forall i | 0 < i < |hs| ensures hs[i].name != name { LessTotal(name, name); }
      assert hs == [hs[0]] + hs[1..];
    } else {
      LessTotal(name, hs[0].name);
      SetKeeps(hs[1..], name, value);
      assert hs == [hs[0]] + hs[1..];
      var rest := Set(hs[1..], name, value);
      forall i | 0 <= i < |rest| ensures Less(hs[0].name, rest[i].name) {
        assert rest[i] in rest;
      }
    }
  }

  // ------------------------------------------------- serialization

  function HeaderLine(h: Header): string { h.name + ": " + h.value }

  function HeaderLines(hs: seq<Header>): string {
    if hs == [] then ""
    else HeaderLines(hs[..|hs| - 1]) + HeaderLine(hs[|hs| - 1]) + "\r\n"
  }

  datatype Response = Response(protocol: string, status: nat, headers: seq<Header>, body: BodyData)

  /// The status-line text, 'An error occured' for a code not in the table.
  function Reason(codes: map<nat, string>, status: nat): string {
    if status in codes then codes[status] else "An error occured"
  }

  function StatusLine(codes: map<nat, string>, r: Response): string {
    r.protocol + " " + ToString(r.status) + " " + Reason(codes, r.status)
  }

  function HeadOf(codes: map<nat, string>, r: Response): string {
    StatusLine(codes, r) + "\r\n" + HeaderLines(r.headers) + "\r\n"
  }

  method WriteHead(codes: map<nat, string>, r: Response) returns (head: string)
    ensures head == HeadOf(codes, r)
  {
    hide ToString, Reason;
    var status := ToString(r.status);
    var reason := Reason(codes, r.status);
    head := "";
    head := head + r.protocol;
    head := head + " ";
    head := head + status;
    head := head + " ";
    head := head + reason;
    head := head + "\r\n";
    ghost var line := StatusLine(codes, r) + "\r\n";
    assert head == line;
    var i := 0;
    while i < |r.headers|
      invariant i <= |r.headers| && head == line + HeaderLines(r.headers[..i])
    {
      assert r.headers[..i + 1][..i] == r.headers[..i];
      var before := head;
      head := head + r.headers[i].name;
      head := head + ": ";
      head := head + r.headers[i].value;
      head := head + "\r\n";
      assert head == before + (HeaderLine(r.headers[i]) + "\r\n");
      i := i + 1;
    }
    assert r.headers[..i] == r.headers;
    head := head + "\r\n";
  }

  method Serialize(codes: map<nat, string>, dump: Json -> string, r: Response, splitAbove: nat, includeBody: bool)
    returns (head: string, body: string)
    ensures !includeBody ==> head == HeadOf(codes, r) && body == ""
    ensures includeBody ==> head + body == HeadOf(codes, r) + Emitted(dump, r.body)
    ensures includeBody && Length(r.body) > splitAbove ==> head == HeadOf(codes, r)
    ensures includeBody && Length(r.body) <= splitAbove ==> body == ""
  {
    var split := includeBody && Length(r.body) > splitAbove;
    head := WriteHead(codes, r);
    body := "";
    if !includeBody {
      return;
    }
    var sink := "";
    if r.body.kind == TEXT {
      sink := r.body.raw;
    } else if r.body.kind == JSON {
      sink := dump(r.body.json);
    } else if r.body.kind == BINARY {
      sink := r.body.binary;
    }
    if split { body := body + sink; } else { head := head + sink; }
  }

  // ------------------------------------------------- what handleRequest sends

  /// handleRequest's own two headers, set last.
  function Finished(r: Response, close: bool): Response {
    r.(headers := Set(Set(r.headers, "Connection", if close then "close" else "keep-alive"),
                      "Content-Length", ToString(Length(r.body))))
  }

  const COALESCE_BELOW: nat := 64 * 1024

  /// A finished response says whether the connection stays open and how long its body is, once
  /// each, and is the handler's in everything else.
  lemma {:induction false} FinishedSays(r: Response, close: bool)
    requires Ordered(r.headers)
    ensures var f := Finished(r, close);
            && f.protocol == r.protocol && f.status == r.status && f.body == r.body && Ordered(f.headers)
            && forall h :: h in f.headers <==>
                 || h == Header("Connection", if close then "close" else "keep-alive")
                 || h == Header("Content-Length", ToString(Length(r.body)))
                 || (h in r.headers && h.name != "Connection" && h.name != "Content-Length")
  {
    hide ToString, Set, Ordered;
    var connection := if close then "close" else "keep-alive";
    SetKeeps(r.headers, "Connection", connection);
    SetKeeps(Set(r.headers, "Connection", connection), "Content-Length", ToString(Length(r.body)));
  }

  /// The bytes that answer a request.
  function SentBytes(
    codes: map<nat, string>, dump: Json -> string, method_: string, close: bool, r: Response): string
  {
    HeadOf(codes, Finished(r, close)) + if method_ == "HEAD" then "" else Emitted(dump, r.body)
  }

  /// The end of HttpServer::handleRequest.
  method Finish(codes: map<nat, string>, dump: Json -> string, method_: string, keepAlive: bool, r: Response)
    returns (shouldClose: bool, head: string, body: string)
    ensures shouldClose == !keepAlive
    ensures head + body == SentBytes(codes, dump, method_, shouldClose, r)
  {
    shouldClose := !keepAlive;
    var response := Finished(r, shouldClose);
    var includeBody := method_ != "HEAD";
    head, body := Serialize(codes, dump, response, COALESCE_BELOW, includeBody);
    assert method_ == "HEAD" ==> head + body == head + "";
  }

  /// What HEAD sends is what any other method would send, less as many bytes at the end as its
  /// one Content-Length announces (section 9.3.2 of RFC 9110).
  lemma {:induction false} HeadResponse(
    codes: map<nat, string>, dump: Json -> string, m: string, r: Response, close: bool)
    requires Ordered(r.headers) && Coherent(dump, r.body) && m != "HEAD"
    requires r.body.kind != FORM_DATA && r.body.kind != MULTIPART
    ensures var head, whole := SentBytes(codes, dump, "HEAD", close, r), SentBytes(codes, dump, m, close, r);
            var n := |whole| - |head|;
            && head <= whole
            && head == HeadOf(codes, Finished(r, close))
            && Header("Content-Length", ToString(n)) in Finished(r, close).headers
            && forall h :: h in Finished(r, close).headers && h.name == "Content-Length" ==> h.value == ToString(n)
  {
    hide ToString, Set, HeadOf, Ordered, Emitted, Length;
    var sent, connection := Finished(r, close), if close then "close" else "keep-alive";
    assert HeadOf(codes, sent) + "" == HeadOf(codes, sent);
    assert Length(r.body) == |Emitted(dump, r.body)| by { LengthIsEmitted(dump, r.body); }
    SetKeeps(r.headers, "Connection", connection);
    SetKeeps(Set(r.headers, "Connection", connection), "Content-Length", ToString(Length(r.body)));
  }

  // ------------------------------------------------- the response object

  class HttpResponse {
    var protocol: string
    var status: nat
    var headers: seq<Header>
    const Body: HttpBody

    ghost function View(): Response
      reads this, Body
    {
      Response(protocol, status, headers, Body.View())
    }

    ghost predicate Valid()
      reads this, Body
    {
      Ordered(headers) && Body.Valid()
    }

    constructor (dump: Json -> string)
      ensures Valid() && fresh(Body) && Body.dump == dump
      ensures protocol == "HTTP/1.1" && headers == [] && Body.kind == EMPTY
    {
      protocol, status, headers := "HTTP/1.1", 200, [];
      Body := new HttpBody(dump);
    }

    method Status(code: nat)
      requires Valid()
      modifies this
      ensures Valid() && View() == old(View()).(status := code)
    {
      status := code;
    }

    method SetHeader(key: string, value: string)
      requires Valid()
      modifies this
      ensures Valid() && View() == old(View()).(headers := Set(old(headers), key, value))
    {
      SetKeeps(headers, key, value);
      headers := Set(headers, key, value);
    }

    /// The three sends whose bodies serialize can write set the body and the two headers that
    /// describe it, and nothing else.
    method SendJson(j: Json)
      requires Valid()
      modifies this, Body
      ensures Valid()
      ensures View() == Described(old(View()), "application/json",
                                  BodyData(JSON, Body.dump(j), j, old(Body.binary_data)))
    {
      Body.SetJson(j);
      Describe("application/json");
    }

    method SendText(text: string)
      requires Valid()
      modifies this, Body
      ensures Valid()
      ensures View() == Described(old(View()), "text/html; charset=utf-8",
                                  BodyData(TEXT, text, old(Body.json_data), old(Body.binary_data)))
    {
      Body.SetText(text);
      Describe("text/html; charset=utf-8");
    }

    method SendBinary(data: string)
      requires Valid()
      modifies this, Body
      ensures Valid()
      ensures View() == Described(old(View()), "application/octet-stream",
                                  BodyData(BINARY, old(Body.raw_data), old(Body.json_data), data))
    {
      Body.SetBinary(data);
      Describe("application/octet-stream");
    }

    method Describe(contentType: string)
      requires Valid()
      modifies this
      ensures Valid() && View() == Described(old(View()), contentType, Body.View())
    {
      SetHeader("Content-Type", contentType);
      SetHeader("Content-Length", ToString(Length(Body.View())));
    }
  }

  /// `r` with a new body and the two headers that describe it.
  function Described(r: Response, contentType: string, body: BodyData): Response {
    r.(headers := Set(Set(r.headers, "Content-Type", contentType), "Content-Length", ToString(Length(body))),
       body := body)
  }

  predicate Announces(r: Response, contentType: string) {
    && (forall h :: h in r.headers && h.name == "Content-Length" ==> h.value == ToString(Length(r.body)))
    && (forall h :: h in r.headers && h.name == "Content-Type" ==> h.value == contentType)
    && Header("Content-Length", ToString(Length(r.body))) in r.headers
    && Header("Content-Type", contentType) in r.headers
  }

  /// A described body is announced with its type and its length, once each, and no other header
  /// is touched.
  lemma {:induction false} DescribedAnnounces(r: Response, contentType: string, body: BodyData)
    requires Ordered(r.headers)
    ensures var d := Described(r, contentType, body);
            && Ordered(d.headers) && Announces(d, contentType)
            && forall h: Header :: h.name != "Content-Length" && h.name != "Content-Type"
                           ==> (h in d.headers <==> h in r.headers)
  {
    hide Set, ToString, Ordered, Length;
    var typed := Set(r.headers, "Content-Type", contentType);
    SetKeeps(r.headers, "Content-Type", contentType);
    assert Header("Content-Type", contentType) in typed;
    SetKeeps(typed, "Content-Length", ToString(Length(body)));
  }
}

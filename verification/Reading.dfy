// What a client makes of the bytes of one response: a status line, header lines up to a blank
// one, and what is behind it (section 2.1 of RFC 9112).

module Reading {
  import opened Text
  import opened Decimal
  import opened HttpParser
  import opened Responses
  import Framing

  datatype Received = Received(
    protocol: string, status: string, reason: string, headers: seq<Header>, body: string)

  /// The lines up to the blank one, and the rest.
  function ReadLines(buf: string): (seq<string>, string)
    decreases |buf|
  {
    match Find(buf, "\r\n", 0)
    case None => ([], buf)
    case Some(end) =>
      if end == 0 then ([], buf[2..])
      else
        assert At(buf, "\r\n", end);
        var (more, rest) := ReadLines(buf[end + 2..]);
        ([buf[..end]] + more, rest)
  }

  /// Text in front of the first separator, and behind it.
  function Parted(s: string, sep: string): (string, string) {
    match Find(s, sep, 0)
    case None => (s, "")
    case Some(i) => assert At(s, sep, i); (s[..i], s[i + |sep|..])
  }

  function ReadHeader(line: string): Header { Header(Parted(line, ": ").0, Parted(line, ": ").1) }

  function ReadResponse(bytes: string): Received {
    var (lines, body) := ReadLines(bytes);
    var (protocol, rest) := Parted(if lines == [] then "" else lines[0], " ");
    var (status, reason) := Parted(rest, " ");
    Received(protocol, status, reason,
             seq(if lines == [] then 0 else |lines| - 1, i requires 0 <= i < |lines| - 1 => ReadHeader(lines[i + 1])),
             body)
  }

  lemma PartedAt(a: string, sep: string, b: string)
    requires sep != "" && sep[0] !in a
    ensures Parted(a + sep + b, sep) == (a, b)
  {
    var s := a + sep + b;
    assert s[|a|..|a| + |sep|] == sep;
    forall j: nat | j < |a| ensures !At(s, sep, j) {
      assert s[j] == a[j];
      if j + |sep| <= |s| { assert s[j..j + |sep|][0] == s[j]; }
    }
    FindIs(s, sep, 0, |a|);
    assert s[..|a|] == a && s[|a| + |sep|..] == b;
  }

  lemma LineEnds(l: string, more: string)
    requires '\r' !in l
    ensures Find(l + "\r\n" + more, "\r\n", 0) == Some(|l|)
  {
    var s := l + "\r\n" + more;
    assert s[|l|..|l| + 2] == "\r\n";
    forall j: nat | j < |l| ensures !At(s, "\r\n", j) {
      assert s[j] == l[j];
      if j + 2 <= |s| { assert s[j..j + 2][0] == s[j]; }
    }
    FindIs(s, "\r\n", 0, |l|);
  }

  lemma {:induction false} LinesRead(ls: seq<string>, rest: string)
    requires forall i :: 0 <= i < |ls| ==> Framing.PlainLine(ls[i])
    ensures ReadLines(Framing.Block(ls) + rest) == (ls, rest)
    decreases |ls|
  {
    hide Find;
    if ls == [] {
      LineEnds("", rest);
      assert Framing.Block(ls) + rest == "" + "\r\n" + rest;
      assert ("\r\n" + rest)[2..] == rest;
    } else {
      var l, more := ls[0], Framing.Block(ls[1..]) + rest;
      var buf := Framing.Block(ls) + rest;
      assert buf == l + "\r\n" + more;
      LineEnds(l, more);
      LinesRead(ls[1..], rest);
      assert buf[..|l|] == l && buf[|l| + 2..] == more;
      assert ls == [l] + ls[1..];
    }
  }

  lemma HeaderRead(h: Header)
    requires ':' !in h.name
    ensures ReadHeader(HeaderLine(h)) == h
  {
    PartedAt(h.name, ": ", h.value);
  }

  lemma StatusRead(codes: map<nat, string>, r: Response)
    requires ' ' !in r.protocol
    ensures Parted(StatusLine(codes, r), " ") == (r.protocol, ToString(r.status) + " " + Reason(codes, r.status))
    ensures Parted(ToString(r.status) + " " + Reason(codes, r.status), " ")
         == (ToString(r.status), Reason(codes, r.status))
  {
    hide ToString, Reason, Parted;
    var digits, reason := ToString(r.status), Reason(codes, r.status);
    PartedAt(r.protocol, " ", digits + " " + reason);
    assert StatusLine(codes, r) == r.protocol + " " + (digits + " " + reason);
    assert ' ' !in digits;
    PartedAt(digits, " ", reason);
  }

  /// What a response needs to be read: lines without CR, a protocol without a space, header names
  /// without a colon.
  predicate Legible(codes: map<nat, string>, r: Response) {
    && Ordered(r.headers) && ' ' !in r.protocol && Framing.PlainLine(StatusLine(codes, r))
    && forall h :: h in r.headers ==> ':' !in h.name && '\r' !in HeaderLine(h)
  }

  /// The body a client is to get.
  function Payload(dump: Json -> string, m: string, b: BodyData): string {
    if m == "HEAD" then ""
    else match b.kind
      case TEXT => b.raw
      case JSON => dump(b.json)
      case BINARY => b.binary
      case EMPTY => ""
      case FORM_DATA => ""
      case MULTIPART => ""
  }

  /// A client reads back what was sent: protocol, status and its text, the headers in order, one
  /// to a name, and the body.
  lemma {:induction false} ReadBack(
    codes: map<nat, string>, dump: Json -> string, m: string, close: bool, r: Response)
    requires Legible(codes, r)
    ensures ReadResponse(SentBytes(codes, dump, m, close, r))
         == Received(r.protocol, ToString(r.status),
                     if r.status in codes then codes[r.status] else "An error occured",
                     Finished(r, close).headers, Payload(dump, m, r.body))
  {
    hide Finished, Framing.Block, ReadLines, Parted, ReadHeader, HeaderLine, HeaderLines, ToString, Reason,
         Payload, Find, Set, Less, Framing.LinesOf, Emitted;
    var f := Finished(r, close);
    var ls, body := Framing.HeadLines(codes, f), Payload(dump, m, r.body);
    FinishedSays(r, close);
    LegibleLines(codes, r, close);
    StatusRead(codes, f);
    Framing.HeadIsBlock(StatusLine(codes, f), f.headers);
    BytesSent(codes, dump, m, close, r);
    LinesRead(ls, body);
    ReasonText(codes, r.status);
    HeadersRead(StatusLine(codes, f), f.headers);
    hide StatusLine, HeadOf, SentBytes, Legible;
  }

  lemma HeadersRead(status: string, hs: seq<Header>)
    requires forall h :: h in hs ==> ':' !in h.name
    ensures var ls := [status] + Framing.LinesOf(hs);
            |ls| == |hs| + 1 && forall i :: 0 <= i < |hs| ==> ReadHeader(ls[i + 1]) == hs[i]
  {
    hide ReadHeader, HeaderLine, Framing.LinesOf;
    Framing.LinesEach(hs);
    forall i | 0 <= i < |hs| ensures ReadHeader(HeaderLine(hs[i])) == hs[i] {
      assert hs[i] in hs;
      HeaderRead(hs[i]);
    }
  }

  lemma ReasonText(codes: map<nat, string>, status: nat)
    ensures Reason(codes, status) == if status in codes then codes[status] else "An error occured"
  {
  }

  lemma BytesSent(codes: map<nat, string>, dump: Json -> string, m: string, close: bool, r: Response)
    ensures SentBytes(codes, dump, m, close, r) == HeadOf(codes, Finished(r, close)) + Payload(dump, m, r.body)
  {
  }

  lemma HeadersLegible(codes: map<nat, string>, r: Response, close: bool)
    requires Legible(codes, r)
    ensures forall h :: h in Finished(r, close).headers ==> ':' !in h.name && '\r' !in HeaderLine(h)
  {
    hide ToString, Finished, StatusLine, HeaderLine, Find;
    var connection := Header("Connection", if close then "close" else "keep-alive");
    var length := Header("Content-Length", ToString(Length(r.body)));
    FinishedSays(r, close);
    Framing.ConnectionLine(close);
    Framing.LengthLine(ToString(Length(r.body)));
    assert ':' !in connection.name && ':' !in length.name;
  }

  lemma {:induction false} LegibleLines(codes: map<nat, string>, r: Response, close: bool)
    requires Legible(codes, r)
    ensures var f := Finished(r, close);
            && f.protocol == r.protocol && f.status == r.status
            && (forall h :: h in f.headers ==> ':' !in h.name)
            && forall i :: 0 <= i < |Framing.HeadLines(codes, f)| ==> Framing.PlainLine(Framing.HeadLines(codes, f)[i])
  {
    hide Finished, HeaderLine, Find, Set, Less, Framing.LinesOf, ToString, Reason, Ordered;
    var f := Finished(r, close);
    FinishedSays(r, close);
    HeadersLegible(codes, r, close);
    Framing.LinesEach(f.headers);
    forall i | 0 <= i < |f.headers| ensures '\r' !in HeaderLine(f.headers[i]) && HeaderLine(f.headers[i]) != "" {
      assert f.headers[i] in f.headers;
      Framing.LineNotEmpty(f.headers[i]);
    }
  }

  /// The response read says that the connection closes, or that it stays open, and not both.
  predicate SaysClose(read: Received, close: bool) {
    && Header("Connection", if close then "close" else "keep-alive") in read.headers
    && forall h :: h in read.headers && h.name == "Connection" ==> h.value == if close then "close" else "keep-alive"
  }

  lemma {:induction false} CloseSaid(
    codes: map<nat, string>, dump: Json -> string, m: string, close: bool, r: Response)
    requires Legible(codes, r)
    ensures SaysClose(ReadResponse(SentBytes(codes, dump, m, close, r)), close)
  {
    hide Finished, SentBytes, ReadResponse, ToString;
    ReadBack(codes, dump, m, close, r);
    FinishedSays(r, close);
  }
}

// The serialized responses on a connection, cut apart again by a reader that
// knows nothing but the bytes (section 6.3 of RFC 9112).

module Framing {
  import opened Text
  import opened Decimal
  import opened HttpParser
  import opened Responses

  const CRLF: string := "\r\n"
  const BLANK: string := "\r\n\r\n"
  const LENGTH_NAME: string := "Content-Length"
  const LENGTH_TAG: string := "Content-Length:"
  const SIZE_MOD: int := 0x1_0000_0000_0000_0000

  /// response_len: the length of the first complete response in `buf`, or 0.
  function ResponseLen(buf: string): nat {
    match Find(buf, BLANK, 0)
    case None => 0
    case Some(hdrEnd) =>
      var bodyStart := hdrEnd + 4;
      match Find(buf, LENGTH_TAG, 0)
      case None => bodyStart
      case Some(cl) =>
        if cl > hdrEnd then bodyStart
        else
          assert At(buf, LENGTH_TAG, cl);
          var total := (bodyStart + StrToL(CStr(buf[cl + 15..]))) % SIZE_MOD;
          if |buf| < total then 0 else total
  }

  /// Cutting complete responses off the front for as long as there are any.
  function Cut(buf: string): (seq<string>, string)
    decreases |buf|
  {
    var n := ResponseLen(buf);
    if 0 < n <= |buf| then
      var (more, rest) := Cut(buf[n..]);
      ([buf[..n]] + more, rest)
    else ([], buf)
  }

  // ------------------------------------------------- lines

  function Block(ls: seq<string>): string {
    if ls == [] then CRLF else ls[0] + CRLF + Block(ls[1..])
  }

  predicate PlainLine(l: string) { l != "" && '\r' !in l }

  lemma AtPrefix(a: string, b: string, pat: string, j: nat)
    requires j + |pat| <= |a|
    ensures At(a, pat, j) <==> At(a + b, pat, j)
  {
    assert (a + b)[j..j + |pat|] == a[j..j + |pat|];
  }

  lemma NotAt(s: string, pat: string, j: nat, k: nat)
    requires k < |pat| && j + |pat| <= |s| && s[j + k] != pat[k]
    ensures !At(s, pat, j)
  {
    assert s[j..j + |pat|][k] == s[j + k];
  }

  lemma NoBlankWithin(l: string, more: string, j: nat)
    requires '\r' !in l && j < |l|
    ensures !At(l + CRLF + more, BLANK, j)
  {
    var whole := l + CRLF + more;
    assert whole[j] == l[j];
    if j + 4 <= |whole| { NotAt(whole, BLANK, j, 0); }
  }

  lemma BlankRightAfter(l: string, more: string)
    requires '\r' !in l && CRLF <= more
    ensures Find(l + CRLF + more, BLANK, 0) == Some(|l|)
  {
    hide Find;
    var whole := l + CRLF + more;
    forall j: nat | j < |l| ensures !At(whole, BLANK, j) { NoBlankWithin(l, more, j); }
    assert whole[|l|..|l| + 4] == CRLF + more[..2] == BLANK;
    FindIs(whole, BLANK, 0, |l|);
  }

  lemma NoBlankAtEnd(l: string, more: string, j: nat)
    requires more != "" && more[0] != '\r' && |l| <= j < |l| + 2
    ensures !At(l + CRLF + more, BLANK, j)
  {
    var whole := l + CRLF + more;
    assert whole[|l| + 2] == more[0] && whole[|l| + 1] == '\n';
    if j + 4 <= |whole| { NotAt(whole, BLANK, j, if j == |l| then 2 else 0); }
  }

  lemma NoBlankBefore(l: string, more: string)
    requires '\r' !in l && more != "" && more[0] != '\r'
    ensures forall j: nat :: j < |l + CRLF| ==> !At(l + CRLF + more, BLANK, j)
  {
    hide At;
    forall j: nat | j < |l + CRLF| ensures !At(l + CRLF + more, BLANK, j) {
      if j < |l| { NoBlankWithin(l, more, j); } else { NoBlankAtEnd(l, more, j); }
    }
  }

  lemma BlankLater(l: string, more: string)
    requires '\r' !in l && more != "" && more[0] != '\r'
    ensures var r := Find(more, BLANK, 0);
            Find(l + CRLF + more, BLANK, 0) == (if r.Some? then Some(|l + CRLF| + r.value) else None)
  {
    hide *;
    NoBlankBefore(l, more);
    FindPast(l + CRLF, more, BLANK);
  }

  /// The first blank line after a run of plain lines is the one that ends the run.
  lemma {:induction false} BlankFound(ls: seq<string>, rest: string)
    requires ls != [] && forall i :: 0 <= i < |ls| ==> PlainLine(ls[i])
    ensures |Block(ls)| >= 4 && Find(Block(ls) + rest, BLANK, 0) == Some(|Block(ls)| - 4)
    decreases |ls|
  {
    hide Find;
    var l, more := ls[0], Block(ls[1..]) + rest;
    assert Block(ls) + rest == l + CRLF + more;
    if ls[1..] == [] {
      BlankRightAfter(l, more);
    } else {
      assert more[0] == ls[1][0];
      BlankFound(ls[1..], rest);
      BlankLater(l, more);
    }
  }

  /// No occurrence starts in `a`: the search may as well start after it.
  lemma {:induction false} FindPast(a: string, b: string, pat: string)
    requires forall j: nat :: j < |a| ==> !At(a + b, pat, j)
    ensures var r := Find(b, pat, 0);
            Find(a + b, pat, 0) == if r.Some? then Some(|a| + r.value) else None
  {
    hide Find, At;
    var s := a + b;
    assert s[|a|..] == b;
    FindShift(s, pat, |a|);
    var r := Find(s, pat, |a|);
    if r.Some? {
      FindIs(s, pat, 0, r.value);
    } else {
      forall j: nat ensures !At(s, pat, j) { if |a| <= j { assert !At(s, pat, j); } }
    }
  }

  /// The pattern neither occurs in the line nor could straddle a line end.
  predicate Skips(l: string, pat: string) {
    '\r' !in l && Find(l, pat, 0).None? && pat != "" && '\r' !in pat && pat[0] != '\n'
  }

  lemma NotAcross(l: string, more: string, pat: string, j: nat)
    requires Skips(l, pat) && j < |l| + 2
    ensures !At(l + CRLF + more, pat, j)
  {
    hide Find;
    var whole := l + CRLF + more;
    if j + |pat| <= |l| {
      assert whole == l + (CRLF + more);
      AtPrefix(l, CRLF + more, pat, j);
    } else if j + |pat| <= |whole| {
      assert whole[|l|] == '\r' && whole[|l| + 1] == '\n';
      NotAt(whole, pat, j, if j <= |l| then |l| - j else 0);
    }
  }

  lemma NoneAcross(l: string, more: string, pat: string)
    requires Skips(l, pat)
    ensures forall j: nat :: j < |l + CRLF| ==> !At(l + CRLF + more, pat, j)
  {
    hide Find, At, Skips;
    forall j: nat | j < |l + CRLF| ensures !At(l + CRLF + more, pat, j) { NotAcross(l, more, pat, j); }
  }

  /// A line without the pattern in it is passed over.
  lemma {:induction false} LineSkipped(l: string, more: string, pat: string)
    requires Skips(l, pat)
    ensures var r := Find(more, pat, 0);
            Find(l + CRLF + more, pat, 0) == (if r.Some? then Some(|l + CRLF| + r.value) else None)
  {
    hide *;
    NoneAcross(l, more, pat);
    FindPast(l + CRLF, more, pat);
  }

  function Offset(ls: seq<string>, k: nat): nat
    requires k <= |ls|
  {
    if k == 0 then 0 else |ls[0]| + 2 + Offset(ls[1..], k - 1)
  }

  lemma {:induction false} LineAt(ls: seq<string>, k: nat, rest: string)
    requires k < |ls|
    ensures Offset(ls, k) + |ls[k]| + 4 <= |Block(ls)|
    ensures (Block(ls) + rest)[Offset(ls, k)..] == ls[k] + CRLF + (Block(ls[k + 1..]) + rest)
    decreases k
  {
    var more := Block(ls[1..]) + rest;
    assert Block(ls) + rest == ls[0] + CRLF + more;
    if k == 0 {
      BlockLong(ls[1..]);
    } else {
      LineAt(ls[1..], k - 1, rest);
      var o := Offset(ls[1..], k - 1);
      assert (ls[0] + CRLF + more)[|ls[0]| + 2 + o..] == more[o..];
      assert ls[1..][k..] == ls[k + 1..];
    }
  }

  lemma {:induction false} TagFound(ls: seq<string>, k: nat, rest: string)
    requires k < |ls| && LENGTH_TAG <= ls[k]
    requires forall i :: 0 <= i < k ==> '\r' !in ls[i] && Find(ls[i], LENGTH_TAG, 0).None?
    ensures Find(Block(ls) + rest, LENGTH_TAG, 0) == Some(Offset(ls, k))
    decreases k
  {
    hide Find;
    var more := Block(ls[1..]) + rest;
    assert Block(ls) + rest == ls[0] + CRLF + more;
    if k == 0 {
      FindHere(ls[0], CRLF + more, LENGTH_TAG);
      assert ls[0] + CRLF + more == ls[0] + (CRLF + more);
    } else {
      TagFound(ls[1..], k - 1, rest);
      LineSkipped(ls[0], more, LENGTH_TAG);
    }
  }

  lemma FindHere(a: string, b: string, pat: string)
    requires pat <= a
    ensures Find(a + b, pat, 0) == Some(0)
  {
    assert (a + b)[0..|pat|] == pat;
    FindIs(a + b, pat, 0, 0);
  }

  lemma BlockLong(ls: seq<string>)
    ensures |Block(ls)| >= 2
  {
  }

  // ------------------------------------------------- one response

  /// What a head made of plain lines, one of them the first Content-Length, says about any
  /// bytes behind it.
  lemma HeadFrames(ls: seq<string>, k: nat, n: nat, x: string)
    requires 0 < |ls| && k < |ls| && forall i :: 0 <= i < |ls| ==> PlainLine(ls[i])
    requires forall i :: 0 <= i < k ==> Find(ls[i], LENGTH_TAG, 0).None?
    requires ls[k] == LENGTH_TAG + " " + ToString(n)
    requires n <= LONG_MAX && |Block(ls)| + n < SIZE_MOD
    ensures ResponseLen(Block(ls) + x) == if |x| < n then 0 else |Block(ls)| + n
  {
    hide Find, ToString, StrToL, CStr, Block;
    var buf := Block(ls) + x;
    BlankFound(ls, x);
    TagFound(ls, k, x);
    LineAt(ls, k, x);
    var o, after := Offset(ls, k), Block(ls[k + 1..]) + x;
    assert buf[o + 15..] == buf[o..][15..];
    LengthRead(n, after);
    assert (ls[k] + CRLF + after)[15..] == " " + ToString(n) + (CRLF + after);
  }

  lemma LengthRead(n: nat, after: string)
    requires n <= LONG_MAX
    ensures StrToL(CStr(" " + ToString(n) + (CRLF + after))) == n
  {
    hide StrToL;
    var digits := " " + ToString(n);
    CStrAppend(digits, CRLF + after);
    NumberRoundTrip(n, CStr(CRLF + after));
  }

  lemma {:induction false} NoTagInBlock(ls: seq<string>, rest: string)
    requires forall i :: 0 <= i < |ls| ==> PlainLine(ls[i]) && Find(ls[i], LENGTH_TAG, 0).None?
    ensures var r := Find(rest, LENGTH_TAG, 0);
            Find(Block(ls) + rest, LENGTH_TAG, 0) == if r.Some? then Some(|Block(ls)| + r.value) else None
    decreases |ls|
  {
    hide Find;
    if ls == [] {
      assert Block(ls) + rest == "" + CRLF + rest;
      assert Find("", LENGTH_TAG, 0).None? by { NothingFound(); }
      LineSkipped("", rest, LENGTH_TAG);
    } else {
      var more := Block(ls[1..]) + rest;
      assert Block(ls) + rest == ls[0] + CRLF + more;
      NoTagInBlock(ls[1..], rest);
      LineSkipped(ls[0], more, LENGTH_TAG);
    }
  }

  lemma NothingFound()
    ensures Find("", LENGTH_TAG, 0).None?
  {
  }

  /// A head without a Content-Length announces no body, whatever the bytes behind it look like.
  lemma {:induction false} NoLengthNoBody(ls: seq<string>, x: string)
    requires ls != []
    requires forall i :: 0 <= i < |ls| ==> PlainLine(ls[i]) && Find(ls[i], LENGTH_TAG, 0).None?
    ensures ResponseLen(Block(ls) + x) == |Block(ls)|
  {
    hide Find, Block, StrToL, CStr;
    BlankFound(ls, x);
    NoTagInBlock(ls, x);
  }

  /// Less than a whole head frames nothing.
  lemma HeadCutShort(ls: seq<string>, p: string, rest: string)
    requires ls != [] && forall i :: 0 <= i < |ls| ==> PlainLine(ls[i])
    requires p <= Block(ls) + rest && |p| < |Block(ls)|
    ensures Find(p, BLANK, 0).None? && ResponseLen(p) == 0
  {
    hide Block;
    var whole := Block(ls) + rest;
    BlankFound(ls, rest);
    var tail := whole[|p|..];
    assert whole == p + tail;
    forall j: nat ensures !At(p, BLANK, j) {
      if j + 4 <= |p| { AtPrefix(p, tail, BLANK, j); }
    }
  }

  // ------------------------------------------------- what handleRequest sends is framed

  /// What the framing asks of a handler's response: no CR in the status line or a header, and
  /// no look-alike of the Content-Length tag ahead of the real one.
  predicate Framable(codes: map<nat, string>, r: Response) {
    && PlainLine(StatusLine(codes, r)) && Find(StatusLine(codes, r), LENGTH_TAG, 0).None?
    && Ordered(r.headers)
    && (forall h :: h in r.headers ==> '\r' !in HeaderLine(h))
    && (forall h :: h in r.headers && Less(h.name, LENGTH_NAME) ==> Find(HeaderLine(h), LENGTH_TAG, 0).None?)
    && Length(r.body) <= LONG_MAX
  }

  /// A status line meets its part of that as soon as protocol and status text have no colon and
  /// no CR, which holds of every text in the server's table.
  lemma StatusLineIsPlain(codes: map<nat, string>, r: Response)
    requires ':' !in r.protocol && '\r' !in r.protocol
    requires ':' !in Reason(codes, r.status) && '\r' !in Reason(codes, r.status)
    ensures PlainLine(StatusLine(codes, r)) && Find(StatusLine(codes, r), LENGTH_TAG, 0).None?
    ensures r.headers == [] && Length(r.body) <= LONG_MAX ==> Framable(codes, r)
  {
    hide ToString, Reason;
    var line, digits := StatusLine(codes, r), ToString(r.status);
    assert ':' !in digits && '\r' !in digits;
    assert ':' !in line && '\r' !in line;
    forall j: nat ensures !At(line, LENGTH_TAG, j) {
      if j + 15 <= |line| { NotAt(line, LENGTH_TAG, j, 14); }
    }
  }

  function LinesOf(hs: seq<Header>): seq<string> {
    if hs == [] then [] else LinesOf(hs[..|hs| - 1]) + [HeaderLine(hs[|hs| - 1])]
  }

  function HeadLines(codes: map<nat, string>, r: Response): seq<string> {
    [StatusLine(codes, r)] + LinesOf(r.headers)
  }

  lemma {:induction false} BlockSnoc(ls: seq<string>, l: string)
    ensures Block(ls + [l]) == Block(ls)[..|Block(ls)| - 2] + l + CRLF + CRLF
    ensures |Block(ls)| >= 2 && Block(ls)[|Block(ls)| - 2..] == CRLF
    decreases |ls|
  {
    if ls == [] {
      assert ([] + [l])[1..] == [] && [] + [l] == [l];
    } else {
      assert (ls + [l])[1..] == ls[1..] + [l];
      BlockSnoc(ls[1..], l);
    }
  }

  lemma {:induction false} LinesEach(hs: seq<Header>)
    ensures |LinesOf(hs)| == |hs|
    ensures forall i :: 0 <= i < |hs| ==> LinesOf(hs)[i] == HeaderLine(hs[i])
  {
    if hs != [] { LinesEach(hs[..|hs| - 1]); }
  }

  lemma {:induction false} HeadIsBlock(status: string, hs: seq<Header>)
    ensures Block([status] + LinesOf(hs)) == status + CRLF + HeaderLines(hs) + CRLF
  {
    if hs == [] {
      assert [status] + [] == [status] && [status][1..] == [];
      assert status + CRLF + "" + CRLF == status + CRLF + CRLF;
    } else {
      var front, l := hs[..|hs| - 1], HeaderLine(hs[|hs| - 1]);
      HeadIsBlock(status, front);
      BlockSnoc([status] + LinesOf(front), l);
      Assoc([status], LinesOf(front), [l]);
      LinesLast(status, HeaderLines(front), l);
    }
  }

  lemma LinesLast(status: string, lines: string, l: string)
    ensures var b := status + CRLF + lines + CRLF;
            b[..|b| - 2] + l + CRLF + CRLF == status + CRLF + (lines + l + CRLF) + CRLF
  {
    var b := status + CRLF + lines + CRLF;
    assert b[..|b| - 2] == status + CRLF + lines;
  }

  /// "Connection" sorts first, and its line holds no 'L'.
  lemma {:induction false} ConnectionLine(close: bool)
    ensures var h := Header("Connection", if close then "close" else "keep-alive");
            '\r' !in HeaderLine(h) && Find(HeaderLine(h), LENGTH_TAG, 0).None?
  {
    var v := if close then "close" else "keep-alive";
    var line := "Connection" + ": " + v;
    assert 'L' !in line && '\r' !in line;
    forall j: nat ensures !At(line, LENGTH_TAG, j) {
      if j + 15 <= |line| { NotAt(line, LENGTH_TAG, j, 8); }
    }
  }

  /// The headers of a finished response, by position.
  lemma FinishedHeaders(codes: map<nat, string>, r: Response, close: bool) returns (i: nat)
    requires Framable(codes, r)
    ensures var hs := Finished(r, close).headers;
            && i < |hs| && hs[i] == Header(LENGTH_NAME, ToString(Length(r.body)))
            && (forall j :: 0 <= j < |hs| ==> '\r' !in HeaderLine(hs[j]))
            && (forall j :: 0 <= j < i ==> Find(HeaderLine(hs[j]), LENGTH_TAG, 0).None?)
  {
    hide ToString, Find, Less, Set, StatusLine, HeaderLine;
    var connection := Header("Connection", if close then "close" else "keep-alive");
    var length := Header(LENGTH_NAME, ToString(Length(r.body)));
    var mid := Set(r.headers, "Connection", connection.value);
    var hs := Set(mid, LENGTH_NAME, length.value);
    SetKeeps(r.headers, "Connection", connection.value);
    SetKeeps(mid, LENGTH_NAME, length.value);
    ConnectionLine(close);
    LengthLine(length.value);
    assert length in hs;
    i :| 0 <= i < |hs| && hs[i] == length;
    forall j | 0 <= j < |hs| ensures '\r' !in HeaderLine(hs[j]) { assert hs[j] in hs; }
    forall j | 0 <= j < i ensures Find(HeaderLine(hs[j]), LENGTH_TAG, 0).None? {
      assert hs[j] in hs;
      LessIrreflexive(LENGTH_NAME);
    }
  }

  /// Its lines meet the conditions of HeadFrames.
  lemma {:induction false} FinishedLines(codes: map<nat, string>, r: Response, close: bool) returns (k: nat)
    requires Framable(codes, r)
    ensures var ls := HeadLines(codes, Finished(r, close));
            && Block(ls) == HeadOf(codes, Finished(r, close))
            && 0 < |ls| && k < |ls| && (forall i :: 0 <= i < |ls| ==> PlainLine(ls[i]))
            && (forall i :: 0 <= i < k ==> Find(ls[i], LENGTH_TAG, 0).None?)
            && ls[k] == LENGTH_TAG + " " + ToString(Length(r.body))
  {
    var sent := Finished(r, close);
    assert StatusLine(codes, sent) == StatusLine(codes, r);
    var i := FinishedHeaders(codes, r, close);
    hide ToString, Find, Set, StatusLine, Block, Finished, LinesOf, HeaderLine, HeaderLines, Ordered, Less;
    HeadIsBlock(StatusLine(codes, sent), sent.headers);
    LengthLine(ToString(Length(r.body)));
    ListedLines(StatusLine(codes, sent), sent.headers, i);
    k := i + 1;
  }

  lemma ListedLines(status: string, hs: seq<Header>, i: nat)
    requires PlainLine(status) && Find(status, LENGTH_TAG, 0).None? && i < |hs|
    requires forall j :: 0 <= j < |hs| ==> '\r' !in HeaderLine(hs[j])
    requires forall j :: 0 <= j < i ==> Find(HeaderLine(hs[j]), LENGTH_TAG, 0).None?
    ensures var ls := [status] + LinesOf(hs);
            && i + 1 < |ls| && ls[i + 1] == HeaderLine(hs[i])
            && (forall j :: 0 <= j < |ls| ==> PlainLine(ls[j]))
            && (forall j :: 0 <= j < i + 1 ==> Find(ls[j], LENGTH_TAG, 0).None?)
  {
    hide Find, LinesOf, HeaderLine;
    LinesEach(hs);
    forall h { LineNotEmpty(h); }
  }

  lemma LineNotEmpty(h: Header)
    ensures HeaderLine(h) != ""
  {
  }

  lemma LessIrreflexive(a: string)
    ensures !Less(a, a)
  {
    LessTotal(a, a);
  }

  lemma LengthLine(n: string)
    requires forall i :: 0 <= i < |n| ==> IsDigit(n[i])
    ensures '\r' !in HeaderLine(Header(LENGTH_NAME, n))
    ensures HeaderLine(Header(LENGTH_NAME, n)) == LENGTH_TAG + " " + n
  {
    assert '\r' !in n;
  }

  function Wire(codes: map<nat, string>, dump: Json -> string, r: Response, close: bool): string {
    HeadOf(codes, Finished(r, close)) + Emitted(dump, r.body)
  }

  predicate Fits(codes: map<nat, string>, r: Response, close: bool) {
    |HeadOf(codes, Finished(r, close))| + Length(r.body) < SIZE_MOD
  }

  /// What the reader makes of a finished head with any bytes behind it.
  lemma {:induction false} SentFrames(codes: map<nat, string>, r: Response, close: bool, x: string)
    requires Framable(codes, r) && Fits(codes, r, close)
    ensures var head := HeadOf(codes, Finished(r, close));
            ResponseLen(head + x) == if |x| < Length(r.body) then 0 else |head| + Length(r.body)
  {
    hide HeadOf, ResponseLen;
    var k := FinishedLines(codes, r, close);
    HeadFrames(HeadLines(codes, Finished(r, close)), k, Length(r.body), x);
  }

  /// The reader finds the response's end, whatever follows, exactly when the announced length
  /// is the written one: always, but for a non-empty form body.
  lemma {:induction false} FramedExactly(codes: map<nat, string>, dump: Json -> string, r: Response, close: bool)
    requires Framable(codes, r) && Fits(codes, r, close) && Coherent(dump, r.body)
    ensures (forall rest :: ResponseLen(Wire(codes, dump, r, close) + rest) == |Wire(codes, dump, r, close)|)
       <==> ((r.body.kind == FORM_DATA || r.body.kind == MULTIPART) ==> r.body.raw == "")
  {
    hide HeadOf, ResponseLen, Framable, Emitted, Length;
    var head, e := HeadOf(codes, Finished(r, close)), Emitted(dump, r.body);
    LengthIsEmitted(dump, r.body);
    NoMoreThanLength(dump, r.body);
    forall rest ensures ResponseLen(head + e + rest)
                     == if |e + rest| < Length(r.body) then 0 else |head| + Length(r.body) {
      SentFrames(codes, r, close, e + rest);
      assert head + (e + rest) == head + e + rest;
    }
    if Length(r.body) != |e| {
      assert |head| > 0 by { HeadNotEmpty(codes, Finished(r, close)); }
      assert |e + ""| < Length(r.body);
      assert ResponseLen(Wire(codes, dump, r, close) + "") == 0;
    }
  }

  lemma NoMoreThanLength(dump: Json -> string, b: BodyData)
    requires Coherent(dump, b)
    ensures |Emitted(dump, b)| <= Length(b)
  {
  }

  lemma HeadNotEmpty(codes: map<nat, string>, r: Response)
    ensures |HeadOf(codes, r)| > 0
  {
  }

  // ------------------------------------------------- a stream of responses

  datatype Sent = Sent(response: Response, close: bool)

  predicate Sendable(codes: map<nat, string>, dump: Json -> string, s: Sent) {
    && Framable(codes, s.response) && Fits(codes, s.response, s.close) && Coherent(dump, s.response.body)
    && s.response.body.kind != FORM_DATA && s.response.body.kind != MULTIPART
  }

  function Bytes(codes: map<nat, string>, dump: Json -> string, s: Sent): string {
    Wire(codes, dump, s.response, s.close)
  }

  function Wires(codes: map<nat, string>, dump: Json -> string, ss: seq<Sent>): seq<string> {
    if ss == [] then [] else [Bytes(codes, dump, ss[0])] + Wires(codes, dump, ss[1..])
  }

  lemma {:induction false} WholeFramed(codes: map<nat, string>, dump: Json -> string, s: Sent, rest: string)
    requires Sendable(codes, dump, s)
    ensures ResponseLen(Bytes(codes, dump, s) + rest) == |Bytes(codes, dump, s)| > 0
  {
    hide ResponseLen, Framable, Fits;
    FramedExactly(codes, dump, s.response, s.close);
    HeadNotEmpty(codes, Finished(s.response, s.close));
  }

  /// Every proper prefix of a response is incomplete.
  lemma {:induction false} PrefixIncomplete(codes: map<nat, string>, dump: Json -> string, s: Sent, p: string)
    requires Sendable(codes, dump, s)
    requires p <= Bytes(codes, dump, s) && p != Bytes(codes, dump, s)
    ensures ResponseLen(p) == 0
  {
    hide ResponseLen, Block, HeadOf, Emitted, Length;
    var r, close := s.response, s.close;
    var head, e := HeadOf(codes, Finished(r, close)), Emitted(dump, r.body);
    LengthIsEmitted(dump, r.body);
    if |p| < |head| {
      var k := FinishedLines(codes, r, close);
      HeadCutShort(HeadLines(codes, Finished(r, close)), p, e);
    } else {
      var x := p[|head|..];
      assert p == head + x;
      SentFrames(codes, r, close, x);
    }
  }

  /// Cutting the concatenated responses apart gives back each of them, and leaves an unfinished
  /// last one for later.
  lemma {:induction false} StreamRoundTrip(codes: map<nat, string>, dump: Json -> string, ss: seq<Sent>, p: string)
    requires forall i :: 0 <= i < |ss| ==> Sendable(codes, dump, ss[i])
    requires p == "" || exists s :: Sendable(codes, dump, s) && p <= Bytes(codes, dump, s) && p != Bytes(codes, dump, s)
    ensures Cut(Concat(Wires(codes, dump, ss)) + p) == (Wires(codes, dump, ss), p)
    decreases |ss|
  {
    hide ResponseLen, Bytes, Sendable;
    if ss == [] {
      assert "" + p == p;
      if p != "" {
        var s :| Sendable(codes, dump, s) && p <= Bytes(codes, dump, s) && p != Bytes(codes, dump, s);
        PrefixIncomplete(codes, dump, s, p);
      } else {
        NothingToRead();
      }
    } else {
      var w, more := Bytes(codes, dump, ss[0]), Concat(Wires(codes, dump, ss[1..])) + p;
      StreamRoundTrip(codes, dump, ss[1..], p);
      WholeFramed(codes, dump, ss[0], more);
      var buf := Concat(Wires(codes, dump, ss)) + p;
      assert Wires(codes, dump, ss)[1..] == Wires(codes, dump, ss[1..]);
      assert buf == w + more;
      assert buf[..|w|] == w && buf[|w|..] == more;
    }
  }

  /// A piece of a stream of responses either has the first one whole or is a part of it.
  lemma FirstOrPart(w: string, more: string, p: string)
    requires p <= w + more
    ensures |p| < |w| ==> p <= w && p != w
    ensures |w| <= |p| ==> p == w + p[|w|..] && p[|w|..] <= more
  {
    if |w| <= |p| {
      assert p == (w + more)[..|p|] == w + p[|w|..];
      CancelFront(w, p[|w|..], more);
    } else {
      assert p == (w + more)[..|p|] == w[..|p|];
    }
  }

  lemma WiresFirst(codes: map<nat, string>, dump: Json -> string, ss: seq<Sent>)
    requires ss != []
    ensures var ws := Wires(codes, dump, ss);
            ws != [] && ws[0] == Bytes(codes, dump, ss[0]) && Concat(ws) == ws[0] + Concat(ws[1..])
  {
  }

  lemma CancelFront(w: string, a: string, b: string)
    requires w + a <= w + b
    ensures a <= b
  {
    assert (w + a)[|w|..] == a && (w + b)[|w|..] == b;
    assert (w + b)[..|w + a|][|w|..] == b[..|a|];
  }

  /// However little of a stream has come, the reader cuts off its first responses.
  lemma {:induction false} CutPrefix(codes: map<nat, string>, dump: Json -> string, ss: seq<Sent>, p: string)
    requires forall i :: 0 <= i < |ss| ==> Sendable(codes, dump, ss[i])
    requires p <= Concat(Wires(codes, dump, ss))
    ensures var (got, left) := Cut(p);
            var ws := Wires(codes, dump, ss);
            got <= ws && Concat(got) + left == p && (p == Concat(ws) ==> got == ws && left == "")
    decreases |ss|
  {
    hide ResponseLen, Bytes, Sendable, Cut;
    if ss == [] {
      NothingToRead();
      NothingCut(p);
    } else {
      var ws := Wires(codes, dump, ss);
      WiresFirst(codes, dump, ss);
      hide Concat;
      FirstOrPart(ws[0], Concat(ws[1..]), p);
      if |p| < |ws[0]| {
        PrefixIncomplete(codes, dump, ss[0], p);
        NothingCut(p);
      } else {
        var r := p[|ws[0]|..];
        WholeFramed(codes, dump, ss[0], r);
        assert ws[1..] == Wires(codes, dump, ss[1..]);
        CutPrefix(codes, dump, ss[1..], r);
        PiecesAgain(p, ws[0], r, Concat(ws[1..]));
        Assoc(ws[0], Concat(Cut(r).0), Cut(r).1);
      }
    }
  }

  lemma NothingCut(p: string)
    requires ResponseLen(p) == 0
    ensures Cut(p) == ([], p) && Concat(Cut(p).0) + Cut(p).1 == p
  {
    assert "" + p == p;
  }

  lemma PiecesAgain(p: string, w: string, r: string, more: string)
    requires p == w + r && |w| > 0 && ResponseLen(p) == |w|
    ensures Cut(p) == ([w] + Cut(r).0, Cut(r).1)
    ensures Concat([w] + Cut(r).0) == w + Concat(Cut(r).0)
    ensures p == w + more ==> r == more
  {
    hide ResponseLen;
    assert p[..|w|] == w && p[|w|..] == r;
    assert ([w] + Cut(r).0)[1..] == Cut(r).0;
    if p == w + more { assert (w + more)[|w|..] == more; }
  }

  lemma NothingToRead()
    ensures ResponseLen("") == 0
  {
  }

  // ------------------------------------------------- a reader that knows the methods

  /// The length of the first response, to a HEAD request or another (section 6.3 of RFC 9112).
  function LengthFor(toHead: bool, buf: string): nat {
    if toHead then
      match Find(buf, BLANK, 0) case None => 0 case Some(end) => end + 4
    else ResponseLen(buf)
  }

  /// Cutting for a client that knows which of its first requests were HEAD.
  function CutFor(heads: seq<bool>, buf: string): (seq<string>, string)
    decreases |buf|
  {
    var n := LengthFor(heads != [] && heads[0], buf);
    if 0 < n <= |buf| then
      var (more, rest) := CutFor(if heads == [] then [] else heads[1..], buf[n..]);
      ([buf[..n]] + more, rest)
    else ([], buf)
  }

  /// Where no request was HEAD that is the other reader.
  lemma {:induction false} CutForOthers(heads: seq<bool>, buf: string)
    requires forall i :: 0 <= i < |heads| ==> !heads[i]
    ensures CutFor(heads, buf) == Cut(buf)
    decreases |buf|
  {
    hide ResponseLen;
    var n := ResponseLen(buf);
    if 0 < n <= |buf| { CutForOthers(if heads == [] then [] else heads[1..], buf[n..]); }
  }

  /// The reader finds exactly `w`, whatever follows, and waits for the whole of it.
  ghost predicate Framed(toHead: bool, w: string) {
    && w != ""
    && (forall rest :: LengthFor(toHead, w + rest) == |w|)
    && (forall p :: p <= w && p != w ==> LengthFor(toHead, p) == 0)
  }

  /// What can be answered to a request by the method `m`: to HEAD, anything with a sound head.
  predicate Answerable(codes: map<nat, string>, dump: Json -> string, m: string, s: Sent) {
    if m == "HEAD" then Framable(codes, s.response) else Sendable(codes, dump, s)
  }

  lemma {:induction false} AnswerFramed(codes: map<nat, string>, dump: Json -> string, m: string, s: Sent)
    requires Answerable(codes, dump, m, s)
    ensures Framed(m == "HEAD", SentBytes(codes, dump, m, s.close, s.response))
  {
    if m == "HEAD" {
      HeadFramed(codes, s.response, s.close);
      assert HeadOf(codes, Finished(s.response, s.close)) + "" == HeadOf(codes, Finished(s.response, s.close));
    } else {
      hide ResponseLen, Sendable, HeadOf, Emitted, Finished;
      var w := Bytes(codes, dump, s);
      WholeFramed(codes, dump, s, "");
      forall rest ensures LengthFor(false, w + rest) == |w| { WholeFramed(codes, dump, s, rest); }
      forall p | p <= w && p != w ensures LengthFor(false, p) == 0 { PrefixIncomplete(codes, dump, s, p); }
    }
  }

  lemma {:induction false} HeadFramed(codes: map<nat, string>, r: Response, close: bool)
    requires Framable(codes, r)
    ensures Framed(true, HeadOf(codes, Finished(r, close)))
  {
    var k := FinishedLines(codes, r, close);
    var ls := HeadLines(codes, Finished(r, close));
    hide Find, Block, HeadOf, HeadLines, ResponseLen;
    var w := Block(ls);
    forall rest ensures LengthFor(true, w + rest) == |w| > 0 { BlankFound(ls, rest); }
    forall p | p <= w && p != w ensures LengthFor(true, p) == 0 {
      assert w + "" == w;
      HeadCutShort(ls, p, "");
    }
  }

  /// Whatever part of a stream of framed responses has come, the reader cuts off its first ones.
  lemma {:induction false} CutForPrefix(heads: seq<bool>, ws: seq<string>, p: string)
    requires forall i :: 0 <= i < |ws| ==> Framed(i < |heads| && heads[i], ws[i])
    requires p <= Concat(ws)
    ensures var (got, left) := CutFor(heads, p);
            got <= ws && Concat(got) + left == p && (p == Concat(ws) ==> got == ws && left == "")
    decreases |ws|
  {
    hide ResponseLen, LengthFor, CutFor;
    var toHead := heads != [] && heads[0];
    if ws == [] {
      EmptyFor(toHead);
      NothingCutFor(heads, "");
    } else {
      assert Framed(toHead, ws[0]);
      FirstOrPart(ws[0], Concat(ws[1..]), p);
      if |p| < |ws[0]| {
        NothingCutFor(heads, p);
      } else {
        var r, tail := p[|ws[0]|..], if heads == [] then [] else heads[1..];
        forall i | 0 <= i < |ws[1..]| ensures Framed(i < |tail| && tail[i], ws[1..][i]) {
          assert ws[1..][i] == ws[i + 1];
        }
        CutForPrefix(tail, ws[1..], r);
        PieceFor(heads, p, ws[0], r, Concat(ws[1..]));
        Assoc(ws[0], Concat(CutFor(tail, r).0), CutFor(tail, r).1);
      }
    }
  }

  lemma EmptyFor(toHead: bool)
    ensures LengthFor(toHead, "") == 0
  {
  }

  lemma NothingCutFor(heads: seq<bool>, p: string)
    requires LengthFor(heads != [] && heads[0], p) == 0
    ensures CutFor(heads, p) == ([], p) && Concat(CutFor(heads, p).0) + CutFor(heads, p).1 == p
  {
    assert "" + p == p;
  }

  lemma PieceFor(heads: seq<bool>, p: string, w: string, r: string, more: string)
    requires p == w + r && |w| > 0 && LengthFor(heads != [] && heads[0], p) == |w|
    ensures var (got, left) := CutFor(if heads == [] then [] else heads[1..], r);
            CutFor(heads, p) == ([w] + got, left) && Concat([w] + got) == w + Concat(got)
    ensures p == w + more ==> r == more
  {
    hide LengthFor;
    var got := CutFor(if heads == [] then [] else heads[1..], r).0;
    assert p[..|w|] == w && p[|w|..] == r;
    assert ([w] + got)[1..] == got;
    if p == w + more { assert (w + more)[|w|..] == more; }
  }

  // ------------------------------------------------- the reader, event by event

  /// The first complete response cut off the buffer, if there is one.
  function CutOne(buf: string): (Option<string>, string) {
    var n := ResponseLen(buf);
    if 0 < n <= |buf| then (Some(buf[..n]), buf[n..]) else (None, buf)
  }

  /// The load generator's connection.
  class Client {
    var inbuf: string
    var done: nat

    constructor ()
      ensures inbuf == "" && done == 0
    {
      inbuf, done := "", 0;
    }

    /// One readable event: the loop over the buffer leaves after the first response.
    method Readable(bytes: string) returns (response: Option<string>)
      modifies this
      ensures (response, inbuf) == CutOne(old(inbuf) + bytes)
      ensures done == old(done) + if response.Some? then 1 else 0
    {
      inbuf := inbuf + bytes;
      var len := ResponseLen(inbuf);
      if len > 0 && |inbuf| >= len {
        response := Some(inbuf[..len]);
        done := done + 1;
        inbuf := inbuf[len..];
      } else {
        response := None;
      }
    }
  }

  /// What a run of readable events hands over, and what stays in the buffer.
  function Received(buf: string, chunks: seq<string>): (seq<string>, string)
    decreases |chunks|
  {
    if chunks == [] then ([], buf)
    else
      var (first, rest) := CutOne(buf + chunks[0]);
      var (more, left) := Received(rest, chunks[1..]);
      ((if first.Some? then [first.value] else []) + more, left)
  }

  /// The first `i` responses have arrived by the i-th event.
  predicate Arrived(ws: seq<string>, buf: string, chunks: seq<string>, i: nat)
    requires i <= |ws| && i <= |chunks|
  {
    |Concat(ws[..i])| <= |buf| + |Concat(chunks[..i])|
  }

  predicate InTime(ws: seq<string>, buf: string, chunks: seq<string>) {
    |chunks| <= |ws| && forall i :: 0 < i <= |chunks| ==> Arrived(ws, buf, chunks, i)
  }

  lemma ConcatHead(ts: seq<string>, i: nat)
    requires i < |ts|
    ensures |Concat(ts[..i + 1])| == |ts[0]| + |Concat(ts[1..][..i])|
  {
    assert ts[..i + 1][1..] == ts[1..][..i];
  }

  lemma ArrivedStep(ws: seq<string>, buf: string, chunks: seq<string>, i: nat)
    requires i < |ws| && i < |chunks| && |ws[0]| <= |buf + chunks[0]|
    ensures Arrived(ws, buf, chunks, i + 1)
       <==> Arrived(ws[1..], (buf + chunks[0])[|ws[0]|..], chunks[1..], i)
  {
    hide Concat;
    ConcatHead(ws, i);
    ConcatHead(chunks, i);
  }

  lemma InTimeStep(ws: seq<string>, buf: string, chunks: seq<string>)
    requires chunks != []
    ensures InTime(ws, buf, chunks)
       <==> ws != [] && |ws[0]| <= |buf + chunks[0]|
            && InTime(ws[1..], (buf + chunks[0])[|ws[0]|..], chunks[1..])
  {
    if ws != [] {
      assert Arrived(ws, buf, chunks, 1) <==> |ws[0]| <= |buf + chunks[0]| by {
        ConcatHead(ws, 0);
        ConcatHead(chunks, 0);
      }
      if |ws[0]| <= |buf + chunks[0]| && |chunks| <= |ws| {
        InTimeShift(ws, buf, chunks);
      }
    }
  }

  lemma InTimeShift(ws: seq<string>, buf: string, chunks: seq<string>)
    requires 0 < |chunks| <= |ws| && |ws[0]| <= |buf + chunks[0]|
    ensures InTime(ws, buf, chunks) <==> InTime(ws[1..], (buf + chunks[0])[|ws[0]|..], chunks[1..])
  {
    hide Arrived;
    var ws1, buf1, chunks1 := ws[1..], (buf + chunks[0])[|ws[0]|..], chunks[1..];
    forall i: nat | i < |chunks|
      ensures Arrived(ws, buf, chunks, i + 1) <==> Arrived(ws1, buf1, chunks1, i)
    {
      ArrivedStep(ws, buf, chunks, i);
    }
    assert Arrived(ws1, buf1, chunks1, 0) by { NothingDue(ws1, buf1, chunks1); }
    if InTime(ws1, buf1, chunks1) {
      forall i | 0 < i <= |chunks| ensures Arrived(ws, buf, chunks, i) {
        assert Arrived(ws1, buf1, chunks1, i - 1) <==> Arrived(ws, buf, chunks, i - 1 + 1);
      }
    }
  }

  lemma NothingDue(ws: seq<string>, buf: string, chunks: seq<string>)
    ensures Arrived(ws, buf, chunks, 0)
  {
  }

  /// Fed a stream of responses in pieces, the reader hands over the responses in order, at most
  /// one an event, loses no byte, and hands over one at every event exactly if each has arrived
  /// by its event. Responses that arrive together wait in the buffer for later events.
  lemma {:induction false} OnePerEvent(
    codes: map<nat, string>, dump: Json -> string, ss: seq<Sent>, buf: string, chunks: seq<string>)
    requires forall i :: 0 <= i < |ss| ==> Sendable(codes, dump, ss[i])
    requires buf + Concat(chunks) <= Concat(Wires(codes, dump, ss))
    ensures var (got, left) := Received(buf, chunks);
            var ws := Wires(codes, dump, ss);
            && got <= ws && |got| <= |chunks| && Concat(got) + left == buf + Concat(chunks)
            && (|got| == |chunks| <==> InTime(ws, buf, chunks))
    decreases |chunks|
  {
    hide ResponseLen, Bytes, Sendable, InTime, Received;
    var ws := Wires(codes, dump, ss);
    if chunks == [] {
      NoEvents(ws, buf);
    } else {
      var b, rest := buf + chunks[0], Concat(chunks[1..]);
      assert b + rest == buf + Concat(chunks);
      InTimeStep(ws, buf, chunks);
      if ss == [] {
        NothingToRead();
        Waited(buf, chunks);
        OnePerEvent(codes, dump, ss, b, chunks[1..]);
      } else {
        WiresFirst(codes, dump, ss);
        FirstOrPart(ws[0], Concat(ws[1..]), b);
        if |b| < |ws[0]| {
          PrefixIncomplete(codes, dump, ss[0], b);
          Waited(buf, chunks);
          OnePerEvent(codes, dump, ss, b, chunks[1..]);
        } else {
          var r := b[|ws[0]|..];
          WholeFramed(codes, dump, ss[0], r);
          assert ws[1..] == Wires(codes, dump, ss[1..]);
          assert ws[0] + (r + rest) == b + rest;
          CancelFront(ws[0], r + rest, Concat(ws[1..]));
          OnePerEvent(codes, dump, ss[1..], r, chunks[1..]);
          Took(buf, chunks, ws[0], r);
        }
      }
    }
  }

  lemma Waited(buf: string, chunks: seq<string>)
    requires chunks != [] && ResponseLen(buf + chunks[0]) == 0
    ensures Received(buf, chunks) == Received(buf + chunks[0], chunks[1..])
  {
    var more := Received(buf + chunks[0], chunks[1..]).0;
    assert [] + more == more;
  }

  lemma Took(buf: string, chunks: seq<string>, w: string, r: string)
    requires chunks != [] && buf + chunks[0] == w + r && ResponseLen(w + r) == |w| > 0
    ensures var (more, left) := Received(r, chunks[1..]);
            Received(buf, chunks) == ([w] + more, left) && Concat([w] + more) + left == w + (Concat(more) + left)
  {
    hide ResponseLen;
    assert (w + r)[..|w|] == w && (w + r)[|w|..] == r;
    var more := Received(r, chunks[1..]).0;
    assert ([w] + more)[1..] == more;
  }

  lemma NoEvents(ws: seq<string>, buf: string)
    ensures InTime(ws, buf, []) && Received(buf, []) == ([], buf)
  {
  }
}

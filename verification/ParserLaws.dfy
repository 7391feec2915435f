// What the parser makes of a stream does not depend on how it is cut up, and
// its memory is bounded by the header budget.

module ParserLaws {
  import opened Text
  import opened Decimal
  import opened UrlCodec
  import opened Target
  import opened HttpParser

  // ------------------------------------------------- messages and their cuts

  datatype Msg = Msg(target: string, headers: seq<Header>, body: string, line: Line)

  /// One way llhttp may report a message: every header has at least one name callback and at
  /// least one value callback, of any lengths.
  datatype HeaderCut = HeaderCut(names: seq<string>, values: seq<string>)

  datatype Cut = Cut(urls: seq<string>, headers: seq<HeaderCut>, bodies: seq<string>, line: Line)

  predicate WellCut(c: Cut) {
    forall i :: 0 <= i < |c.headers| ==> c.headers[i].names != [] && c.headers[i].values != []
  }

  function HeadersOf(hs: seq<HeaderCut>): seq<Header> {
    if hs == [] then [] else [Header(Concat(hs[0].names), Concat(hs[0].values))] + HeadersOf(hs[1..])
  }

  function MsgOf(c: Cut): Msg { Msg(Concat(c.urls), HeadersOf(c.headers), Concat(c.bodies), c.line) }

  function Urls(ss: seq<string>): seq<Event> { if ss == [] then [] else [Url(ss[0])] + Urls(ss[1..]) }
  function Fields(ss: seq<string>): seq<Event> { if ss == [] then [] else [Field(ss[0])] + Fields(ss[1..]) }
  function Values(ss: seq<string>): seq<Event> { if ss == [] then [] else [Value(ss[0])] + Values(ss[1..]) }
  function Bodies(ss: seq<string>): seq<Event> { if ss == [] then [] else [BodyPart(ss[0])] + Bodies(ss[1..]) }

  function HeaderEvents(hs: seq<HeaderCut>): seq<Event> {
    if hs == [] then [] else Fields(hs[0].names) + (Values(hs[0].values) + HeaderEvents(hs[1..]))
  }

  /// Everything up to the end of the message.
  function Front(c: Cut): seq<Event> {
    Urls(c.urls) + (HeaderEvents(c.headers) + ([HeadersComplete] + Bodies(c.bodies)))
  }

  function EventsOf(c: Cut): seq<Event> { Front(c) + [Complete(c.line)] }

  function AllEvents(cs: seq<Cut>): seq<Event> {
    if cs == [] then [] else EventsOf(cs[0]) + AllEvents(cs[1..])
  }

  function MsgsOf(cs: seq<Cut>): seq<Msg> {
    if cs == [] then [] else [MsgOf(cs[0])] + MsgsOf(cs[1..])
  }

  // ------------------------------------------------- what a message should make

  function Put(m: map<string, string>, hs: seq<Header>): map<string, string>
    decreases |hs|
  {
    if hs == [] then m
    else Put(if hs[0].name != "" then m[hs[0].name := hs[0].value] else m, hs[1..])
  }

  function HeaderSize(hs: seq<Header>): nat {
    if hs == [] then 0 else |hs[0].name| + |hs[0].value| + HeaderSize(hs[1..])
  }

  /// The bytes of a message that count against the budget.
  function Size(msg: Msg): nat { |msg.target| + HeaderSize(msg.headers) }

  datatype Answer = Answer(delivered: seq<Delivery>, failure: Option<Failure>)

  /// What one message makes, after `n` requests.
  function AnswerTo(env: Env, n: nat, msg: Msg): Answer {
    if Size(msg) > env.maxHeaderBytes then Answer([], Some(HeaderLimit))
    else
      match RequestOf(env, msg.target, Put(map[], msg.headers), msg.body, msg.line)
      case None => Answer([], Some(BadJson))
      case Some(r) =>
        Answer([Delivery(r, msg.line.keepAlive)], if env.throws(n, r) then Some(HandlerThrew) else None)
  }

  /// What a stream makes after `n` requests: message by message, up to the first that fails.
  function AnswerAll(env: Env, n: nat, msgs: seq<Msg>): Answer
    decreases |msgs|
  {
    if msgs == [] then Answer([], None)
    else
      var first := AnswerTo(env, n, msgs[0]);
      if first.failure.Some? then first
      else
        var rest := AnswerAll(env, n + 1, msgs[1..]);
        Answer(first.delivered + rest.delivered, rest.failure)
  }

  // ------------------------------------------------- absorbing, budget aside

  predicate NoEnd(es: seq<Event>) { forall i :: 0 <= i < |es| ==> !es[i].Complete? }

  function AbsorbAll(st: St, es: seq<Event>): St
    requires NoEnd(es)
    decreases |es|
  {
    if es == [] then st else AbsorbAll(Absorb(st, es[0]), es[1..])
  }

  function Charges(es: seq<Event>): nat {
    if es == [] then 0 else Charge(es[0]) + Charges(es[1..])
  }

  lemma {:induction false} AbsorbAppend(st: St, a: seq<Event>, b: seq<Event>)
    requires NoEnd(a) && NoEnd(b)
    ensures AbsorbAll(st, a + b) == AbsorbAll(AbsorbAll(st, a), b)
    ensures Charges(a + b) == Charges(a) + Charges(b)
    decreases |a|
  {
    if a == [] {
      assert a + b == b;
    } else {
      assert (a + b)[1..] == a[1..] + b;
      AbsorbAppend(Absorb(st, a[0]), a[1..], b);
    }
  }

  lemma {:induction false} AbsorbUrls(st: St, ss: seq<string>)
    ensures NoEnd(Urls(ss)) && AbsorbAll(st, Urls(ss)) == st.(target := st.target + Concat(ss))
    ensures Charges(Urls(ss)) == |Concat(ss)|
    decreases |ss|
  {
    if ss == [] {
      assert st.target + "" == st.target;
    } else {
      AbsorbUrls(Absorb(st, Url(ss[0])), ss[1..]);
      assert st.target + ss[0] + Concat(ss[1..]) == st.target + (ss[0] + Concat(ss[1..]));
    }
  }

  lemma {:induction false} AbsorbBodies(st: St, ss: seq<string>)
    ensures NoEnd(Bodies(ss)) && AbsorbAll(st, Bodies(ss)) == st.(body := st.body + Concat(ss))
    ensures Charges(Bodies(ss)) == 0
    decreases |ss|
  {
    if ss == [] {
      assert st.body + "" == st.body;
    } else {
      AbsorbBodies(Absorb(st, BodyPart(ss[0])), ss[1..]);
      assert st.body + ss[0] + Concat(ss[1..]) == st.body + (ss[0] + Concat(ss[1..]));
    }
  }

  lemma {:induction false} AbsorbName(st: St, ss: seq<string>)
    requires !st.readingValue
    ensures NoEnd(Fields(ss)) && AbsorbAll(st, Fields(ss)) == st.(field := st.field + Concat(ss))
    ensures Charges(Fields(ss)) == |Concat(ss)|
    decreases |ss|
  {
    if ss == [] {
      assert st.field + "" == st.field;
    } else {
      AbsorbName(Absorb(st, Field(ss[0])), ss[1..]);
      assert st.field + ss[0] + Concat(ss[1..]) == st.field + (ss[0] + Concat(ss[1..]));
    }
  }

  lemma {:induction false} AbsorbValue(st: St, ss: seq<string>)
    ensures NoEnd(Values(ss))
    ensures ss != [] ==> AbsorbAll(st, Values(ss)) == st.(readingValue := true, value := st.value + Concat(ss))
    ensures Charges(Values(ss)) == |Concat(ss)|
    decreases |ss|
  {
    if ss != [] {
      AbsorbValue(Absorb(st, Value(ss[0])), ss[1..]);
      if |ss| == 1 {
        assert ss[0] + Concat(ss[1..]) == ss[0];
      } else {
        assert st.value + ss[0] + Concat(ss[1..]) == st.value + (ss[0] + Concat(ss[1..]));
      }
    }
  }

  /// Between two headers, or before the first.
  predicate Between(st: St) { st.readingValue || (st.field == "" && st.value == "") }

  /// The first name callback of a header is what commits the one before it.
  lemma AbsorbNames(st: St, ss: seq<string>)
    requires Between(st) && ss != []
    ensures NoEnd(Fields(ss))
    ensures AbsorbAll(st, Fields(ss)) == Committed(st).(readingValue := false, field := Concat(ss))
    ensures Charges(Fields(ss)) == |Concat(ss)|
  {
    var st1 := Absorb(st, Field(ss[0]));
    AbsorbName(st1, ss[1..]);
    assert st1 == Committed(st).(readingValue := false, field := ss[0]);
  }

  lemma AbsorbHeader(st: St, h: HeaderCut)
    requires Between(st) && h.names != [] && h.values != []
    ensures var es := Fields(h.names) + Values(h.values);
            && NoEnd(es)
            && AbsorbAll(st, es)
               == Committed(st).(readingValue := true, field := Concat(h.names), value := Concat(h.values))
            && Charges(es) == |Concat(h.names)| + |Concat(h.values)|
  {
    AbsorbNames(st, h.names);
    var st1 := AbsorbAll(st, Fields(h.names));
    AbsorbValue(st1, h.values);
    AbsorbAppend(st, Fields(h.names), Values(h.values));
    assert "" + Concat(h.values) == Concat(h.values);
  }

  lemma {:induction false} AbsorbHeaders(st: St, hs: seq<HeaderCut>)
    requires Between(st)
    requires forall i :: 0 <= i < |hs| ==> hs[i].names != [] && hs[i].values != []
    ensures var es := HeaderEvents(hs);
            && NoEnd(es)
            && Committed(AbsorbAll(st, es))
               == Committed(st).(headers := Put(Committed(st).headers, HeadersOf(hs)),
                                 readingValue := st.readingValue || hs != [])
            && Charges(es) == HeaderSize(HeadersOf(hs))
    decreases |hs|
  {
    if hs != [] {
      HeaderEventsFirst(hs);
      HeadersOfFirst(hs);
      hide Concat, Fields, Values, HeaderEvents, HeadersOf, AbsorbAll, Charges;
      AbsorbHeader(st, hs[0]);
      var one := Fields(hs[0].names) + Values(hs[0].values);
      AbsorbHeaders(AbsorbAll(st, one), hs[1..]);
      AbsorbAppend(st, one, HeaderEvents(hs[1..]));
    }
  }

  lemma HeaderEventsFirst(hs: seq<HeaderCut>)
    requires hs != []
    ensures HeaderEvents(hs) == Fields(hs[0].names) + Values(hs[0].values) + HeaderEvents(hs[1..])
  {
  }

  lemma HeadersOfFirst(hs: seq<HeaderCut>)
    requires hs != []
    ensures HeadersOf(hs)[0] == Header(Concat(hs[0].names), Concat(hs[0].values))
    ensures HeadersOf(hs)[1..] == HeadersOf(hs[1..])
  {
  }

  /// However it is cut, a message's events leave its target, its headers and its body.
  lemma AbsorbFront(c: Cut, d: seq<Delivery>)
    requires WellCut(c)
    ensures NoEnd(Front(c)) && Charges(Front(c)) == Size(MsgOf(c))
    ensures var msg := MsgOf(c);
            AbsorbAll(Fresh(d), Front(c))
            == Fresh(d).(target := msg.target, headers := Put(map[], msg.headers), body := msg.body,
                         readingValue := c.headers != [])
  {
    var st0 := Fresh(d);
    var tail := [HeadersComplete] + Bodies(c.bodies);
    AbsorbUrls(st0, c.urls);
    var st1 := AbsorbAll(st0, Urls(c.urls));
    assert "" + Concat(c.urls) == Concat(c.urls);
    AbsorbHeaders(st1, c.headers);
    var st2 := AbsorbAll(st1, HeaderEvents(c.headers));
    AbsorbBodies(Committed(st2), c.bodies);
    assert "" + Concat(c.bodies) == Concat(c.bodies);
    assert tail[1..] == Bodies(c.bodies);
    AbsorbAppend(st1, HeaderEvents(c.headers), tail);
    AbsorbAppend(st0, Urls(c.urls), HeaderEvents(c.headers) + tail);
  }

  // ------------------------------------------------- running

  /// No failure recorded.
  predicate Clean(st: St) { !st.limitHit && st.failure.None? }

  lemma AbsorbFrame(st: St, e: Event, n: nat)
    requires !e.Complete?
    ensures Absorb(st.(headerBytes := n), e) == Absorb(st, e).(headerBytes := n)
    ensures Absorb(st, e).headerBytes == st.headerBytes && Absorb(st, e).delivered == st.delivered
    ensures Clean(st) ==> Clean(Absorb(st, e))
  {
  }

  lemma {:induction false} AbsorbAllFrame(st: St, es: seq<Event>, n: nat)
    requires NoEnd(es)
    ensures AbsorbAll(st.(headerBytes := n), es) == AbsorbAll(st, es).(headerBytes := n)
    decreases |es|
  {
    if es != [] {
      AbsorbFrame(st, es[0], n);
      AbsorbAllFrame(Absorb(st, es[0]), es[1..], n);
    }
  }

  /// Up to a message's end: either the budget covers everything, or the run stops with a 431,
  /// and which of the two depends only on the number of bytes.
  lemma {:induction false} RunNoEnd(env: Env, st: St, es: seq<Event>)
    requires NoEnd(es) && st.headerBytes <= env.maxHeaderBytes
    ensures var (st', ok) := Run(env, st, es);
            var n := st.headerBytes + Charges(es);
            if n <= env.maxHeaderBytes
            then ok && st' == AbsorbAll(st, es).(headerBytes := n)
            else !ok && st'.limitHit && st'.failure == Some(HeaderLimit) && st'.delivered == st.delivered
    decreases |es|
  {
    if es != [] {
      var e := es[0];
      var n := st.headerBytes + Charge(e);
      AbsorbFrame(st, e, n);
      if n <= env.maxHeaderBytes {
        var st1 := Absorb(st.(headerBytes := n), e);
        assert Step(env, st, e) == (st1, true);
        RunNoEnd(env, st1, es[1..]);
        AbsorbAllFrame(Absorb(st, e), es[1..], n);
      }
    }
  }

  lemma {:induction false} RunAppend(env: Env, st: St, a: seq<Event>, b: seq<Event>)
    ensures Run(env, st, a + b)
         == var (st', ok) := Run(env, st, a); if ok then Run(env, st', b) else (st', false)
    decreases |a|
  {
    if a == [] {
      assert a + b == b;
    } else {
      assert (a + b)[1..] == a[1..] + b;
      var (st', ok) := Step(env, st, a[0]);
      if ok { RunAppend(env, st', a[1..], b); }
    }
  }

  ghost predicate Ends(run: (St, bool), before: seq<Delivery>, a: Answer) {
    && run.0.delivered == before + a.delivered
    && run.0.failure == a.failure
    && (run.1 <==> a.failure.None?)
    && (run.0.limitHit <==> a.failure == Some(HeaderLimit))
    && (run.1 ==> run.0 == Fresh(before + a.delivered))
  }

  /// One message, however cut: its own answer, and a fresh parser if it succeeds.
  lemma MessageAnswer(env: Env, c: Cut, d: seq<Delivery>)
    requires WellCut(c)
    ensures Ends(Run(env, Fresh(d), EventsOf(c)), d, AnswerTo(env, |d|, MsgOf(c)))
  {
    hide RequestOf, Front, Run, AbsorbAll, Concat, HeadersOf;
    AbsorbFront(c, d);
    RunNoEnd(env, Fresh(d), Front(c));
    var (st, ok) := Run(env, Fresh(d), Front(c));
    RunAppend(env, Fresh(d), Front(c), [Complete(c.line)]);
    RunOne(env, st, Complete(c.line));
    assert d + [] == d;
  }

  lemma RunOne(env: Env, st: St, e: Event)
    ensures Run(env, st, [e]) == Step(env, st, e)
  {
    assert [e][1..] == [];
  }

  /// A stream of messages, however cut.
  lemma {:induction false} StreamAnswer(env: Env, cs: seq<Cut>, d: seq<Delivery>)
    requires forall i :: 0 <= i < |cs| ==> WellCut(cs[i])
    ensures Ends(Run(env, Fresh(d), AllEvents(cs)), d, AnswerAll(env, |d|, MsgsOf(cs)))
    decreases |cs|
  {
    hide Run, AnswerTo, EventsOf;
    if cs == [] {
      RunNothing(env, Fresh(d));
      assert d + [] == d;
    } else {
      var first := AnswerTo(env, |d|, MsgOf(cs[0]));
      MessageAnswer(env, cs[0], d);
      OneEach(env, |d|, MsgOf(cs[0]));
      RunAppend(env, Fresh(d), EventsOf(cs[0]), AllEvents(cs[1..]));
      assert MsgsOf(cs)[1..] == MsgsOf(cs[1..]);
      if first.failure.None? {
        StreamAnswer(env, cs[1..], d + first.delivered);
        Assoc(d, first.delivered, AnswerAll(env, |d| + 1, MsgsOf(cs[1..])).delivered);
      }
    }
  }

  lemma RunNothing(env: Env, st: St)
    ensures Run(env, st, []) == (st, true)
  {
  }

  /// A message still under way has called no handler, and its predecessors stand.
  lemma UnfinishedDeliversNothing(env: Env, st: St, es: seq<Event>)
    requires NoEnd(es) && st.headerBytes <= env.maxHeaderBytes
    ensures Run(env, st, es).0.delivered == st.delivered
    decreases |es|
  {
    if es != [] {
      AbsorbFrame(st, es[0], st.headerBytes + Charge(es[0]));
      AbsorbFrame(st.(headerBytes := st.headerBytes + Charge(es[0])), es[0], st.headerBytes + Charge(es[0]));
      var (st', ok) := Step(env, st, es[0]);
      if ok { UnfinishedDeliversNothing(env, st', es[1..]); }
    }
  }

  // ------------------------------------------------- several execute calls

  /// Each execute call clears the recorded failure first; reading stops at the first that fails.
  function RunCalls(env: Env, st: St, calls: seq<seq<Event>>): (St, bool)
    decreases |calls|
  {
    if calls == [] then (st, true)
    else
      var (st', ok) := Run(env, st.(failure := None, limitHit := false), calls[0]);
      if ok then RunCalls(env, st', calls[1..]) else (st', false)
  }

  function Joined(calls: seq<seq<Event>>): seq<Event> {
    if calls == [] then [] else calls[0] + Joined(calls[1..])
  }

  lemma {:induction false} CleanRun(env: Env, st: St, es: seq<Event>)
    requires Clean(st)
    ensures Run(env, st, es).1 ==> Clean(Run(env, st, es).0)
    decreases |es|
  {
    if es != [] {
      var (st', ok) := Step(env, st, es[0]);
      if ok { CleanRun(env, st', es[1..]); }
    }
  }

  lemma {:induction false} CallsJoin(env: Env, st: St, calls: seq<seq<Event>>)
    requires Clean(st)
    ensures RunCalls(env, st, calls) == Run(env, st, Joined(calls))
    decreases |calls|
  {
    if calls != [] {
      RunAppend(env, st, calls[0], Joined(calls[1..]));
      CleanRun(env, st, calls[0]);
      var (st', ok) := Run(env, st, calls[0]);
      if ok { CallsJoin(env, st', calls[1..]); }
    }
  }

  /// What a stream has made when `started` bytes of one more message have been charged.
  function AnswerSoFar(env: Env, msgs: seq<Msg>, started: nat): Answer {
    var a := AnswerAll(env, 0, msgs);
    if a.failure.None? && started > env.maxHeaderBytes then Answer(a.delivered, Some(HeaderLimit)) else a
  }

  /// However a stream of messages, the last perhaps unfinished, is cut into callbacks and the
  /// callbacks spread over execute calls: the handler has seen the same requests, and the parser
  /// has failed in the same way or not at all.
  lemma {:induction false} FragmentationInvariant(
    env: Env, cs: seq<Cut>, part: seq<Event>, calls: seq<seq<Event>>)
    requires (forall i :: 0 <= i < |cs| ==> WellCut(cs[i])) && NoEnd(part)
    requires Joined(calls) == AllEvents(cs) + part
    ensures var (st, ok) := RunCalls(env, Fresh([]), calls);
            var a := AnswerSoFar(env, MsgsOf(cs), Charges(part));
            && st.delivered == a.delivered && st.failure == a.failure
            && (ok <==> a.failure.None?) && (st.limitHit <==> a.failure == Some(HeaderLimit))
  {
    CallsJoin(env, Fresh([]), calls);
    StreamAnswer(env, cs, []);
    RunAppend(env, Fresh([]), AllEvents(cs), part);
    hide Run, RunCalls, AnswerAll;
    var all := AnswerAll(env, 0, MsgsOf(cs));
    assert [] + all.delivered == all.delivered;
    if all.failure.None? {
      RunNoEnd(env, Fresh(all.delivered), part);
      AbsorbKeeps(Fresh(all.delivered), part);
    }
  }

  lemma {:induction false} AbsorbKeeps(st: St, es: seq<Event>)
    requires NoEnd(es) && Clean(st)
    ensures Clean(AbsorbAll(st, es)) && AbsorbAll(st, es).delivered == st.delivered
    decreases |es|
  {
    if es != [] {
      AbsorbFrame(st, es[0], st.headerBytes);
      AbsorbKeeps(Absorb(st, es[0]), es[1..]);
    }
  }

  lemma OneEach(env: Env, n: nat, msg: Msg)
    ensures |AnswerTo(env, n, msg).delivered| <= 1
    ensures AnswerTo(env, n, msg).failure.None? ==> |AnswerTo(env, n, msg).delivered| == 1
  {
  }

  /// Request k depends on message k only.
  lemma {:induction false} RequestsAreOwn(env: Env, n: nat, msgs: seq<Msg>, k: nat)
    requires k < |msgs| && forall i :: 0 <= i < k ==> AnswerTo(env, n + i, msgs[i]).failure.None?
    requires AnswerTo(env, n + k, msgs[k]).delivered != []
    ensures k < |AnswerAll(env, n, msgs).delivered|
    ensures AnswerAll(env, n, msgs).delivered[k] == AnswerTo(env, n + k, msgs[k]).delivered[0]
    decreases k
  {
    hide AnswerTo;
    assert AnswerTo(env, n, msgs[0]).failure.None? ==> |AnswerTo(env, n, msgs[0]).delivered| == 1 by {
      OneEach(env, n, msgs[0]);
    }
    if k > 0 {
      assert AnswerTo(env, n + 0, msgs[0]).failure.None?;
      forall i | 0 <= i < k - 1 ensures AnswerTo(env, n + 1 + i, msgs[1..][i]).failure.None? {
        assert n + 1 + i == n + (i + 1) && msgs[1..][i] == msgs[i + 1];
      }
      assert n + 1 + (k - 1) == n + k;
      RequestsAreOwn(env, n + 1, msgs[1..], k - 1);
    }
  }

  // ------------------------------------------------- what the request of a message is

  /// The last of the headers named `name` says `value`.
  predicate LastSays(hs: seq<Header>, name: string, value: string) {
    exists i :: 0 <= i < |hs| && hs[i] == Header(name, value) && !NamedAfter(hs, name, i + 1)
  }

  predicate NamedAfter(hs: seq<Header>, name: string, i: nat) {
    exists j :: i <= j < |hs| && hs[j].name == name
  }

  /// The map keeps the last value of every non-empty name.
  lemma {:induction false} PutKeepsLast(m: map<string, string>, hs: seq<Header>, name: string)
    ensures var r := Put(m, hs);
            name != "" && NamedAfter(hs, name, 0) ==> name in r && LastSays(hs, name, r[name])
    ensures var r := Put(m, hs);
            name == "" || !NamedAfter(hs, name, 0) ==>
              (name in r <==> name in m) && (name in r ==> r[name] == m[name])
    decreases |hs|
  {
    if hs != [] {
      var m1 := if hs[0].name != "" then m[hs[0].name := hs[0].value] else m;
      PutKeepsLast(m1, hs[1..], name);
      if name != "" && NamedAfter(hs, name, 0) {
        if NamedAfter(hs[1..], name, 0) {
          LaterSays(hs, name, Put(m1, hs[1..])[name]);
        } else {
          forall j | 1 <= j < |hs| ensures hs[j].name != name {
            assert hs[1..][j - 1] == hs[j];
          }
          assert hs[0] == Header(name, hs[0].value) && !NamedAfter(hs, name, 1);
        }
      } else if name != "" {
        assert hs[0].name != name;
        forall j | 0 <= j < |hs[1..]| ensures hs[1..][j].name != name { assert hs[1..][j] == hs[j + 1]; }
      }
    }
  }

  lemma LaterSays(hs: seq<Header>, name: string, value: string)
    requires hs != [] && LastSays(hs[1..], name, value)
    ensures LastSays(hs, name, value)
  {
    var i :| 0 <= i < |hs[1..]| && hs[1..][i] == Header(name, value) && !NamedAfter(hs[1..], name, i + 1);
    assert hs[i + 1] == Header(name, value);
    forall j | i + 2 <= j < |hs| ensures hs[j].name != name { assert hs[1..][j - 1] == hs[j]; }
  }

  lemma LastSaysOnce(hs: seq<Header>, name: string, a: string, b: string)
    requires LastSays(hs, name, a) && LastSays(hs, name, b)
    ensures a == b
  {
    var i :| 0 <= i < |hs| && hs[i] == Header(name, a) && !NamedAfter(hs, name, i + 1);
    var j :| 0 <= j < |hs| && hs[j] == Header(name, b) && !NamedAfter(hs, name, j + 1);
    assert !(i < j) && !(j < i);
  }

  predicate SaysJson(msg: Msg) { LastSays(msg.headers, "Content-Type", "application/json") }

  /// The headers of a request: the last value of each non-empty name, and an empty Content-Type if
  /// there is a body and no other.
  ghost predicate Headed(msg: Msg, headers: map<string, string>) {
    && (forall name :: name in headers <==>
          (name != "" && NamedAfter(msg.headers, name, 0)) || (name == "Content-Type" && msg.body != ""))
    && (forall name :: name in headers && NamedAfter(msg.headers, name, 0) ==>
          LastSays(msg.headers, name, headers[name]))
    && (msg.body != "" && !NamedAfter(msg.headers, "Content-Type", 0) ==> headers["Content-Type"] == "")
  }

  /// What the handler is to be given for a message: its own method, version and headers, and its
  /// body, parsed exactly if it is said to be JSON.
  ghost predicate Rendered(env: Env, msg: Msg, r: Request) {
    && r.method_ == msg.line.method_
    && r.protocol == "HTTP/" + ToString(msg.line.major) + "." + ToString(msg.line.minor)
    && Headed(msg, r.headers)
    && (msg.body == "" ==> r.body == Empty)
    && (msg.body != "" && SaysJson(msg) ==>
          exists j :: env.parse(msg.body) == Some(j) && r.body == JsonBody(j, env.dump(j)))
    && (msg.body != "" && !SaysJson(msg) ==> r.body == TextBody(msg.body))
  }

  /// A message within the budget makes one request, or fails for its JSON exactly if it says that
  /// its body is JSON and it is not; a message over it fails for that.
  lemma {:induction false} AnswerMeans(env: Env, n: nat, msg: Msg)
    ensures var a := AnswerTo(env, n, msg);
            var bad := msg.body != "" && SaysJson(msg) && env.parse(msg.body).None?;
            && (a.failure == Some(HeaderLimit) <==> |msg.target| + HeaderSize(msg.headers) > env.maxHeaderBytes)
            && (a.failure == Some(BadJson) <==> a.failure != Some(HeaderLimit) && bad)
            && (a.failure == Some(HeaderLimit) || bad ==> a.delivered == [])
            && (a.failure != Some(HeaderLimit) && !bad ==>
                  && |a.delivered| == 1 && a.delivered[0].keepAlive == msg.line.keepAlive
                  && Rendered(env, msg, a.delivered[0].request)
                  && (a.failure == Some(HandlerThrew) <==> env.throws(n, a.delivered[0].request)))
  {
    hide RequestOf, Rendered, Put, LastSays, NamedAfter;
    RequestRendered(env, msg);
  }

  lemma RequestRendered(env: Env, msg: Msg)
    ensures var made := RequestOf(env, msg.target, Put(map[], msg.headers), msg.body, msg.line);
            && (made.None? <==> msg.body != "" && SaysJson(msg) && env.parse(msg.body).None?)
            && (made.Some? ==> Rendered(env, msg, made.value))
  {
    var headers := Put(map[], msg.headers);
    HeadersRendered(msg);
    hide Put, Headed, SaysJson, Stripped, Decode, PathOf, QueryOf, QueryPieces, ToString, ContentType;
  }

  lemma HeadersRendered(msg: Msg)
    ensures var headers := Put(map[], msg.headers);
            && Headed(msg, if msg.body == "" then headers else headers["Content-Type" := ContentType(headers)])
            && (SaysJson(msg) <==> ContentType(headers) == "application/json")
  {
    var headers := Put(map[], msg.headers);
    forall name
      ensures name in headers <==> name != "" && NamedAfter(msg.headers, name, 0)
      ensures name in headers ==> LastSays(msg.headers, name, headers[name])
    {
      PutKeepsLast(map[], msg.headers, name);
    }
    ContentTypeSaid(msg, headers);
    hide Put, LastSays, NamedAfter, SaysJson;
  }

  lemma ContentTypeSaid(msg: Msg, headers: map<string, string>)
    requires forall name :: name in headers ==> LastSays(msg.headers, name, headers[name])
    requires forall name :: name in headers <==> name != "" && NamedAfter(msg.headers, name, 0)
    ensures SaysJson(msg) <==> ContentType(headers) == "application/json"
  {
    var name := "Content-Type";
    if SaysJson(msg) {
      var i :| 0 <= i < |msg.headers| && msg.headers[i] == Header(name, "application/json")
               && !NamedAfter(msg.headers, name, i + 1);
      assert NamedAfter(msg.headers, name, 0);
      LastSaysOnce(msg.headers, name, "application/json", headers[name]);
    }
  }

  /// The path and the query fields a target was written with are those of the request.
  lemma {:induction false} TargetRead(env: Env, n: nat, msg: Msg, path: string, fs: seq<Item>)
    requires UrlCodec.Complete(path) && '?' !in Decode(path) && !Mentions(Decode(path), "://")
    requires forall i :: 0 <= i < |fs| ==>
               ByteField(fs[i]) && CleanField(fs[i]) && !Mentions(fs[i].name + "=" + fs[i].value, "://")
    requires msg.target == (if fs == [] then path else path + "?" + EncodeFields(fs))
    requires AnswerTo(env, n, msg).delivered != []
    ensures var r := AnswerTo(env, n, msg).delivered[0].request;
            r.path == (if Decode(path) == "" then "/" else Decode(path)) && r.query == FieldMap(fs)
  {
    hide Decode, UrlCodec.Complete, Stripped, QueryOf, QueryPieces, PathOf, Mentions, ByteField, CleanField, FieldMap,
         EncodeFields, ToString, Put;
    var d := Decode(path);
    if fs == [] {
      BareTarget(d);
    } else {
      QueryBehindPath(path, fs);
    }
  }

  // ------------------------------------------------- the budget bounds memory

  ghost function MapBytes(m: map<string, string>): nat {
    if m == map[] then 0 else var k :| k in m; |k| + |m[k]| + MapBytes(m - {k})
  }

  lemma {:induction false} MapBytesSplit(m: map<string, string>, k: string)
    requires k in m
    ensures MapBytes(m) == |k| + |m[k]| + MapBytes(m - {k})
    decreases |m|
  {
    var j :| j in m && MapBytes(m) == |j| + |m[j]| + MapBytes(m - {j});
    if j != k {
      MapBytesSplit(m - {j}, k);
      MapBytesSplit(m - {k}, j);
      assert m - {j} - {k} == m - {k} - {j};
    }
  }

  lemma MapBytesPut(m: map<string, string>, k: string, v: string)
    ensures MapBytes(m[k := v]) <= MapBytes(m) + |k| + |v|
  {
    MapBytesSplit(m[k := v], k);
    if k in m {
      MapBytesSplit(m, k);
      assert m[k := v] - {k} == m - {k};
    } else {
      assert m[k := v] - {k} == m;
    }
  }

  /// The request line and header bytes held in memory.
  ghost function Held(st: St): nat { |st.target| + |st.field| + |st.value| + MapBytes(st.headers) }

  ghost predicate Budgeted(env: Env, st: St) {
    Held(st) <= st.headerBytes <= env.maxHeaderBytes
  }

  lemma CommitHolds(st: St)
    ensures Held(Committed(st)) <= Held(st)
  {
    if st.field != "" { MapBytesPut(st.headers, st.field, st.value); }
  }

  lemma StepBudgeted(env: Env, st: St, e: Event)
    requires Budgeted(env, st) && Step(env, st, e).1
    ensures Budgeted(env, Step(env, st, e).0)
  {
    CommitHolds(st);
    var n := st.headerBytes + if e.Complete? then 0 else Charge(e);
    CommitHolds(st.(headerBytes := n));
  }

  /// Under any sequence of callbacks at all, a parser that has not failed holds no more than it
  /// has charged, and has charged no more than the limit.
  lemma {:induction false} RunBudgeted(env: Env, st: St, es: seq<Event>)
    requires Budgeted(env, st) && Run(env, st, es).1
    ensures Budgeted(env, Run(env, st, es).0)
    decreases |es|
  {
    if es != [] {
      StepBudgeted(env, st, es[0]);
      RunBudgeted(env, Step(env, st, es[0]).0, es[1..]);
    }
  }
}

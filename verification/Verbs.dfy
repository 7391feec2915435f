// A GET route answers HEAD too.

module Verbs {
  import opened Text
  import opened Routing
  import opened RoutingLaws
  import opened TrieModel
  import opened Registry
  import opened Grafting

  datatype Call = Call(verb: Verb, path: string, handler: Option<Handler>)

  function LogOfCalls(cs: seq<Call>): seq<Route> {
    if cs == [] then []
    else
      var c := cs[|cs| - 1];
      LogOfCalls(cs[..|cs| - 1]) + LogOf(Registers(c.verb, c.path, c.handler))
  }

  lemma {:induction false} RestsAppend(a: seq<Route>, b: seq<Route>, prefix: seq<string>)
    ensures Rests(a + b, prefix) == Rests(a, prefix) + Rests(b, prefix)
  {
    if b == [] {
      assert a + b == a;
    } else {
      var n := |b| - 1;
      assert (a + b)[..|a + b| - 1] == a + b[..n] && (a + b)[|a + b| - 1] == b[n];
      RestsAppend(a, b[..n], prefix);
      Assoc(Rests(a, prefix), Rests(b[..n], prefix),
            if prefix <= b[n].segs then [Route(b[n].segs[|prefix|..], b[n].handler)] else []);
    }
  }

  lemma {:induction false} RestsSnoc(es: seq<Entry>, e: Entry, m: string)
    requires MethodOk(e.method_) && PathOk(e.path)
    ensures Rests(LogOf(es + [e]), [m + ":"])
         == Rests(LogOf(es), [m + ":"])
            + if e.method_ == m then [Route(PathSegments(e.path), e.handler)] else []
  {
    LogOfSnoc(es, e);
    LogAppend(LogOf(es), RouteOf(e));
    KeySplit(e.method_, e.path);
    var segs := RouteOf(e).segs;
    assert segs[1..] == PathSegments(e.path);
    assert [m + ":"] <= segs <==> segs[0] == m + ":";
    assert (m + ":")[..|m|] == m && (e.method_ + ":")[..|e.method_|] == e.method_;
  }

  lemma {:induction false} TopsAreLiteral(es: seq<Entry>, m: string)
    requires forall e :: e in es ==> MethodOk(e.method_) && PathOk(e.path)
    ensures NoParamBeside(LogOf(es), [m + ":"])
  {
    if es != [] {
      var front, e := es[..|es| - 1], es[|es| - 1];
      assert es == front + [e];
      TopsAreLiteral(front, m);
      LogOfSnoc(front, e);
      KeySplit(e.method_, e.path);
    }
  }

  lemma NamesAreMethods()
    ensures MethodOk("GET") && MethodOk("POST") && MethodOk("PUT") && MethodOk("DELETE")
    ensures MethodOk("PATCH") && MethodOk("OPTIONS") && MethodOk("HEAD")
  {
  }

  lemma {:induction false} VerbIsMethod(v: Verb, path: string, h: Option<Handler>)
    ensures forall e :: e in Registers(v, path, h) ==> MethodOk(e.method_) && e.path == path
  {
    NamesAreMethods();
    hide MethodOk;
  }

  lemma NamesDiffer(m: string)
    requires m in ["POST", "PUT", "DELETE", "PATCH", "OPTIONS"]
    ensures m != "GET" && m != "HEAD"
  {
    assert m[0] != 'G' && m[0] != 'H';
  }

  /// The registrations among the first `n` entries that are under `m`.
  function Mine(es: seq<Entry>, m: string, n: nat): seq<Route>
    requires n <= |es|
  {
    if n == 0 then []
    else
      var e := es[n - 1];
      Mine(es, m, n - 1) + if e.method_ == m then [Route(PathSegments(e.path), e.handler)] else []
  }

  lemma {:induction false} MineAt(es: seq<Entry>, m: string, k: nat, n: nat)
    requires n <= |es|
    requires forall i :: 0 <= i < |es| ==> (es[i].method_ == m <==> i == k)
    ensures Mine(es, m, n) == if k < n then [Route(PathSegments(es[k].path), es[k].handler)] else []
  {
    if n > 0 { MineAt(es, m, k, n - 1); }
  }

  /// `i` is where `es` has its one entry under `m`, or past the end if it has none.
  predicate OnlyAt(es: seq<Entry>, m: string, i: nat) {
    forall k :: 0 <= k < |es| ==> (es[k].method_ == m <==> k == i)
  }

  lemma {:induction false} EntriesAgree(es: seq<Entry>, g: string, h: string, i: nat, j: nat)
    requires forall e :: e in es ==> MethodOk(e.method_) && PathOk(e.path)
    requires OnlyAt(es, g, i) && OnlyAt(es, h, j) && (i < |es| <==> j < |es|)
    requires i < |es| ==> es[i].path == es[j].path && es[i].handler == es[j].handler
    ensures Rests(LogOf(es), [g + ":"]) == Rests(LogOf(es), [h + ":"])
  {
    hide MethodOk, PathSegments, Rests, LogOf;
    RestsUpTo(es, g, |es|);
    RestsUpTo(es, h, |es|);
    assert es[..|es|] == es;
    MineAt(es, g, i, |es|);
    MineAt(es, h, j, |es|);
  }

  lemma NamesDifferToo()
    ensures forall m :: m in ["POST", "PUT", "DELETE", "PATCH", "OPTIONS"] ==> m != "GET" && m != "HEAD"
    ensures "GET" != "HEAD"
  {
    forall m | m in ["POST", "PUT", "DELETE", "PATCH", "OPTIONS"] ensures m != "GET" && m != "HEAD" {
      NamesDiffer(m);
    }
  }

  /// Under GET and under HEAD a verb other than HEAD registers the same.
  lemma SameForHead(v: Verb, path: string, h: Option<Handler>)
    requires v != Head && PathOk(path)
    ensures var l := LogOf(Registers(v, path, h)); Rests(l, ["GET" + ":"]) == Rests(l, ["HEAD" + ":"])
  {
    var es := Registers(v, path, h);
    VerbIsMethod(v, path, h);
    NamesDifferToo();
    hide MethodOk, LogOf, Rests;
    if v == Get {
      EntriesAgree(es, "GET", "HEAD", 0, 1);
    } else if v == All {
      EntriesAgree(es, "GET", "HEAD", 0, 6);
    } else {
      EntriesAgree(es, "GET", "HEAD", 1, 1);
    }
  }

  lemma {:induction false} RestsUpTo(es: seq<Entry>, m: string, n: nat)
    requires n <= |es|
    requires forall e :: e in es ==> MethodOk(e.method_) && PathOk(e.path)
    ensures Rests(LogOf(es[..n]), [m + ":"]) == Mine(es, m, n)
  {
    if n > 0 {
      assert es[..n] == es[..n - 1] + [es[n - 1]];
      RestsUpTo(es, m, n - 1);
      RestsSnoc(es[..n - 1], es[n - 1], m);
    }
  }

  lemma {:induction false} GetAndHeadAgree(cs: seq<Call>)
    requires forall c :: c in cs ==> c.verb != Head && PathOk(c.path)
    ensures Rests(LogOfCalls(cs), ["GET" + ":"]) == Rests(LogOfCalls(cs), ["HEAD" + ":"])
    ensures NoParamBeside(LogOfCalls(cs), ["GET" + ":"]) && NoParamBeside(LogOfCalls(cs), ["HEAD" + ":"])
  {
    if cs != [] {
      var front, c := cs[..|cs| - 1], cs[|cs| - 1];
      assert cs == front + [c];
      GetAndHeadAgree(front);
      var es := Registers(c.verb, c.path, c.handler);
      SameForHead(c.verb, c.path, c.handler);
      VerbIsMethod(c.verb, c.path, c.handler);
      TopsAreLiteral(es, "GET");
      TopsAreLiteral(es, "HEAD");
      RestsAppend(LogOfCalls(front), LogOf(es), ["GET" + ":"]);
      RestsAppend(LogOfCalls(front), LogOf(es), ["HEAD" + ":"]);
    }
  }

  /// A dispatch looks only at what its own method registered.
  lemma MethodLookup(log: seq<Route>, m: string, path: string)
    requires MethodOk(m) && PathOk(path) && NoParamBeside(log, [m + ":"])
    ensures FoundIn(log, PathSegments(Key(m, path))) == FoundIn(Rests(log, [m + ":"]), PathSegments(path))
  {
    KeySplit(m, path);
    Peel(log, [m + ":"], PathSegments(path));
  }

  lemma AgreeingMethods(log: seq<Route>, g: string, h: string, path: string)
    requires MethodOk(g) && MethodOk(h) && PathOk(path)
    requires NoParamBeside(log, [g + ":"]) && NoParamBeside(log, [h + ":"])
    requires Rests(log, [g + ":"]) == Rests(log, [h + ":"])
    ensures FoundIn(log, PathSegments(Key(h, path))) == FoundIn(log, PathSegments(Key(g, path)))
  {
    hide *;
    MethodLookup(log, g, path);
    MethodLookup(log, h, path);
  }

  /// After any registrations other than through HEAD(), a HEAD request finds what the GET
  /// request for the same path finds.
  lemma {:induction false} HeadAnswersLikeGet(cs: seq<Call>, path: string)
    requires forall c :: c in cs ==> c.verb != Head && PathOk(c.path)
    requires PathOk(path)
    ensures FoundIn(LogOfCalls(cs), PathSegments(Key("HEAD", path)))
         == FoundIn(LogOfCalls(cs), PathSegments(Key("GET", path)))
  {
    GetAndHeadAgree(cs);
    NamesAreMethods();
    hide *;
    AgreeingMethods(LogOfCalls(cs), "GET", "HEAD", path);
  }

  // ------------------------------------------------- what a verb registers

  /// The request methods a verb answers.
  function MethodsOf(v: Verb): set<string> {
    match v
    case Get => {"GET", "HEAD"}
    case Post => {"POST"}
    case Put => {"PUT"}
    case Delete => {"DELETE"}
    case Patch => {"PATCH"}
    case Options => {"OPTIONS"}
    case Head => {"HEAD"}
    case All => {"GET", "POST", "PUT", "DELETE", "PATCH", "OPTIONS", "HEAD"}
  }

  function PlaceOf(m: string, path: string): Shape { ShapeOf(PathSegments(Key(m, path))) }

  lemma {:induction false} SameHandlerAppend(log: seq<Route>, b: seq<Route>, s: Shape, h: Option<Handler>)
    requires forall r :: r in b ==> r.handler == h
    ensures HandlerOf(log + b, s)
         == if exists r :: r in b && ShapeOf(r.segs) == s then h else HandlerOf(log, s)
  {
    if b == [] {
      assert log + b == log;
    } else {
      var front, last := b[..|b| - 1], b[|b| - 1];
      assert b == front + [last] && log + b == (log + front) + [last];
      SameHandlerAppend(log, front, s, h);
      LogAppend(log + front, last);
    }
  }

  lemma EntriesOfVerb(v: Verb, path: string, h: Option<Handler>)
    ensures forall e :: e in Registers(v, path, h) ==> e.method_ in MethodsOf(v) && e == Entry(e.method_, path, h)
    ensures forall m :: m in MethodsOf(v) ==> Entry(m, path, h) in Registers(v, path, h)
  {
  }

  lemma RoutesOfVerb(v: Verb, path: string, h: Option<Handler>, s: Shape)
    ensures var b := LogOf(Registers(v, path, h));
            && (forall r :: r in b ==> r.handler == h)
            && ((exists r :: r in b && ShapeOf(r.segs) == s) <==> exists m :: m in MethodsOf(v) && s == PlaceOf(m, path))
  {
    hide LogOf, ShapeOf, PathSegments, MethodsOf, Registers;
    var es := Registers(v, path, h);
    var b := LogOf(es);
    LogOfEach(es);
    EntriesOfVerb(v, path, h);
    forall r | r in b ensures r.handler == h && exists m :: m in MethodsOf(v) && ShapeOf(r.segs) == PlaceOf(m, path) {
      var i :| 0 <= i < |b| && b[i] == r;
      assert es[i] in es && r == RouteOf(es[i]);
    }
    forall m | m in MethodsOf(v) ensures exists r :: r in b && ShapeOf(r.segs) == PlaceOf(m, path) {
      var i :| 0 <= i < |es| && es[i] == Entry(m, path, h);
      assert b[i] in b && b[i] == RouteOf(es[i]);
    }
  }

  /// A verb call sets the handler of its pattern under each of its methods, whatever was there, and
  /// no other.
  lemma VerbSets(log: seq<Route>, v: Verb, path: string, h: Option<Handler>, s: Shape)
    ensures HandlerOf(log + LogOf(Registers(v, path, h)), s)
         == if exists m :: m in MethodsOf(v) && s == PlaceOf(m, path) then h else HandlerOf(log, s)
  {
    hide LogOf, MethodsOf, Registers, HandlerOf, ShapeOf, PlaceOf;
    RoutesOfVerb(v, path, h, s);
    SameHandlerAppend(log, LogOf(Registers(v, path, h)), s, h);
  }

  /// The patterns of different methods are different places.
  lemma MethodsApart(v: Verb, path: string, m: string)
    requires MethodOk(m) && PathOk(path)
    ensures (exists k :: k in MethodsOf(v) && PlaceOf(m, path) == PlaceOf(k, path)) <==> m in MethodsOf(v)
  {
    NamesAreMethods();
    forall k | k in MethodsOf(v) && PlaceOf(m, path) == PlaceOf(k, path) ensures m == k {
      hide PathSegments, MethodOk;
      assert MethodOk(k) by { MethodsOk(v); }
      SameTop(m, k, path);
    }
  }

  lemma MethodsOk(v: Verb)
    ensures forall k :: k in MethodsOf(v) ==> MethodOk(k)
  {
    NamesAreMethods();
    hide MethodOk;
  }

  lemma SameTop(m: string, k: string, path: string)
    requires MethodOk(m) && MethodOk(k) && PathOk(path) && PlaceOf(m, path) == PlaceOf(k, path)
    ensures m == k
  {
    KeySplit(m, path);
    KeySplit(k, path);
    hide PathSegments;
    TopOfShape(PathSegments(Key(m, path)));
    TopOfShape(PathSegments(Key(k, path)));
    assert (m + ":")[..|m|] == m && (k + ":")[..|k|] == k;
    assert (m + ":")[0] == m[0] && (k + ":")[0] == k[0];
  }

  /// A literal place beats every other place its own path matches.
  lemma {:induction false} LiteralBeats(q: seq<string>, n: nat, t: Shape)
    requires n <= |q| && Literal(q) && Matches(t, q, n)
    ensures Matches(ShapeOf(q[..n]), q, n)
    ensures t == ShapeOf(q[..n]) || Beats(ShapeOf(q[..n]), t)
  {
    if n > 0 {
      assert q[..n][..n - 1] == q[..n - 1];
      LiteralBeats(q, n - 1, t.parent);
    }
  }

  lemma LiteralFound(log: seq<Route>, q: seq<string>, h: Handler)
    requires Literal(q) && HandlerOf(log, ShapeOf(q)) == Some(h)
    ensures FoundIn(log, q) == Some(Found(h, map[]))
  {
    var s := ShapeOf(q);
    assert q[..|q|] == q;
    ShapeItself(q, |q|);
    forall t | Live(log, t) && Matches(t, q, |q|) ensures t == s || Beats(s, t) { LiteralBeats(q, |q|, t); }
    ShapeDepth(q);
    BindLiteral(log, q, q);
    FoundIsBest(log, q);
    assert BestFound(log, q, s, Found(h, map[]));
  }

  lemma {:induction false} ShapeItself(q: seq<string>, n: nat)
    requires n <= |q|
    ensures Matches(ShapeOf(q[..n]), q, n)
  {
    if n > 0 {
      assert q[..n][..n - 1] == q[..n - 1];
      ShapeItself(q, n - 1);
    }
  }

  /// After GET(path, h) a request for a literal path is answered by `h` under GET and HEAD, after
  /// ALL(path, h) under all seven methods, and what other methods find there is as before.
  lemma VerbAnswers(log: seq<Route>, v: Verb, path: string, h: Handler, m: string)
    requires MethodOk(m) && PathOk(path)
    ensures var after := log + LogOf(Registers(v, path, Some(h)));
            HandlerOf(after, PlaceOf(m, path)) == if m in MethodsOf(v) then Some(h) else HandlerOf(log, PlaceOf(m, path))
    ensures m in MethodsOf(v) && Literal(PathSegments(path)) ==>
              FoundIn(log + LogOf(Registers(v, path, Some(h))), PathSegments(Key(m, path))) == Some(Found(h, map[]))
  {
    hide PathSegments, LogOf, MethodsOf, Registers, HandlerOf, ShapeOf, FoundIn;
    VerbSets(log, v, path, Some(h), PlaceOf(m, path));
    MethodsApart(v, path, m);
    if m in MethodsOf(v) && Literal(PathSegments(path)) {
      KeySplit(m, path);
      assert (m + ":")[0] == m[0];
      LiteralFound(log + LogOf(Registers(v, path, Some(h))), PathSegments(Key(m, path)), h);
    }
  }
}

// RouteRegistry and the verb methods of RoutingBase: keys "METHOD:/path" over
// one trie, and what keeps the methods apart inside it.

module Registry {
  import opened Text
  import opened Routing
  import opened RoutingLaws
  import opened TrieModel

  datatype Entry = Entry(method_: string, path: string, handler: Option<Handler>)

  function Key(method_: string, path: string): string { method_ + ":" + path }

  /// What the methods of a server and of llhttp are like.
  predicate MethodOk(m: string) { IsToken(m, '/') && NulFree(m) && !IsParam(m) }

  predicate PathOk(path: string) { path == "" || path[0] == '/' }

  function RouteOf(e: Entry): Route { Route(PathSegments(Key(e.method_, e.path)), e.handler) }

  function LogOf(es: seq<Entry>): seq<Route> {
    if es == [] then [] else LogOf(es[..|es| - 1]) + [RouteOf(es[|es| - 1])]
  }

  function Dispatch(log: seq<Route>, method_: string, path: string): Option<Hit> {
    LookupPath(log, Key(method_, path))
  }

  /// A key's first segment is the method, the rest are the path's own.
  lemma KeySplit(m: string, path: string)
    requires IsToken(m, '/') && NulFree(m) && PathOk(path)
    ensures PathSegments(Key(m, path)) == [m + ":"] + PathSegments(path)
  {
    var top := m + ":";
    CStrAppend(top, path);
    PiecesOfToken(top, '/');
    if path == "" {
      assert top + "" == top;
    } else {
      var rest := path[1..];
      assert path == ['/'] + rest;
      CStrAppend("/", rest);
      SplitAppend(top, '/', CStr(rest));
      LeadingDelimiter('/', CStr(rest));
      assert top + CStr(path) == top + ['/'] + CStr(rest);
    }
  }

  /// Registering under one method never changes what another method's paths find.
  lemma MethodsIsolated(log: seq<Route>, e: Entry, m: string, path: string)
    requires MethodOk(e.method_) && PathOk(e.path) && MethodOk(m) && PathOk(path)
    requires e.method_ != m
    ensures Dispatch(log + [RouteOf(e)], m, path) == Dispatch(log, m, path)
  {
    KeySplit(e.method_, e.path);
    KeySplit(m, path);
    assert (m + ":")[..|m|] == m && (e.method_ + ":")[..|e.method_|] == e.method_;
    OtherTopIsolated(log, RouteOf(e), PathSegments(Key(m, path)));
  }

  /// Doubled and trailing slashes never change a lookup.
  lemma SlashesIgnored(log: seq<Route>, m: string, a: string, b: string)
    ensures Dispatch(log, m, a + "/" + "/" + b) == Dispatch(log, m, a + "/" + b)
    ensures Dispatch(log, m, a + "/") == Dispatch(log, m, a)
  {
    hide PathSegments, Lookup;
    var k := Key(m, a);
    assert Key(m, a + "/" + "/" + b) == (k + "/" + "/") + b;
    assert Key(m, a + "/" + b) == (k + "/") + b;
    assert Key(m, a + "/") == k + "/";
    SegmentsOfSlashes(k, b);
  }

  lemma SegmentsOfSlashes(k: string, b: string)
    ensures PathSegments((k + "/" + "/") + b) == PathSegments((k + "/") + b)
    ensures PathSegments(k + "/") == PathSegments(k)
  {
    if NulFree(k) {
      CStrAppend(k + "/" + "/", b);
      CStrAppend(k + "/", b);
      DoubledDelimiter(k, '/', CStr(b));
      assert k + "/" + "/" + CStr(b) == k + "/" + ("/" + CStr(b));
      CStrId(k);
      CStrId(k + "/");
      TrailingDelimiter(k, '/');
    } else {
      assert (k + "/" + "/") + b == k + ("/" + "/" + b) && (k + "/") + b == k + ("/" + b);
      CStrCut(k, "/" + "/" + b);
      CStrCut(k, "/" + b);
      CStrCut(k, "/");
    }
  }

  // ------------------------------------------------- the registry object

  class HttpRequest {
    var method_: string
    var path: string
    var params: Params

    constructor (m: string, p: string)
      ensures method_ == m && path == p && params == map[]
    {
      method_, path, params := m, p, map[];
    }
  }

  class RouteRegistry {
    const trie: Trie

    ghost predicate Valid()
      reads this, trie, trie.nodes.Values
    {
      trie.Valid()
    }

    constructor ()
      ensures Valid() && fresh(trie) && fresh(trie.nodes.Values) && trie.log == []
    {
      trie := new Trie();
    }

    method Register(method_: string, path: string, handler: Option<Handler>)
      requires Valid()
      modifies trie, trie.nodes.Values
      ensures Valid() && fresh(trie.nodes.Values - old(trie.nodes.Values))
      ensures trie.log == old(trie.log) + [RouteOf(Entry(method_, path, handler))]
    {
      var node := trie.Insert(method_ + ":" + path, handler);
    }

    /// Fills the request's params on a hit, and touches nothing on a miss.
    method GetHandler(req: HttpRequest) returns (handler: Option<Handler>)
      requires Valid()
      modifies req`params
      ensures var h := Dispatch(trie.log, req.method_, req.path);
              && handler == (if h.Some? then Some(h.value.handler) else None)
              && req.params == (if h.Some? then h.value.params else old(req.params))
    {
      var params := new ParamMap();
      var node, calls := trie.SearchNode(req.method_ + ":" + req.path, params);
      if node != null && node.handler.Some? {
        req.params := params.entries;
        return node.handler;
      }
      return None;
    }

    method GET(path: string, handler: Option<Handler>)
      requires Valid()
      modifies trie, trie.nodes.Values
      ensures Valid() && fresh(trie.nodes.Values - old(trie.nodes.Values))
      ensures trie.log == old(trie.log) + LogOf(Registers(Get, path, handler))
    {
      hide Valid, LogOf, RouteOf;
      Register("GET", path, handler);
      Register("HEAD", path, handler);
      LogOfEach(Registers(Get, path, handler));
    }

    method ALL(path: string, handler: Option<Handler>)
      requires Valid()
      modifies trie, trie.nodes.Values
      ensures Valid() && fresh(trie.nodes.Values - old(trie.nodes.Values))
      ensures trie.log == old(trie.log) + LogOf(Registers(All, path, handler))
    {
      hide Valid, LogOf, RouteOf;
      Register("GET", path, handler);
      Register("POST", path, handler);
      Register("PUT", path, handler);
      Register("DELETE", path, handler);
      Register("PATCH", path, handler);
      Register("OPTIONS", path, handler);
      Register("HEAD", path, handler);
      LogOfEach(Registers(All, path, handler));
    }
  }

  // ------------------------------------------------- verbs

  datatype Verb = Get | Post | Put | Delete | Patch | Options | Head | All

  /// The entries each verb method makes.
  function Registers(v: Verb, path: string, h: Option<Handler>): seq<Entry> {
    match v
    case Get => [Entry("GET", path, h), Entry("HEAD", path, h)]
    case Post => [Entry("POST", path, h)]
    case Put => [Entry("PUT", path, h)]
    case Delete => [Entry("DELETE", path, h)]
    case Patch => [Entry("PATCH", path, h)]
    case Options => [Entry("OPTIONS", path, h)]
    case Head => [Entry("HEAD", path, h)]
    case All => [Entry("GET", path, h), Entry("POST", path, h), Entry("PUT", path, h),
                 Entry("DELETE", path, h), Entry("PATCH", path, h), Entry("OPTIONS", path, h),
                 Entry("HEAD", path, h)]
  }

  lemma LogOfSnoc(es: seq<Entry>, e: Entry)
    ensures LogOf(es + [e]) == LogOf(es) + [RouteOf(e)]
  {
    assert (es + [e])[..|es|] == es;
  }

  lemma {:induction false} LogOfEach(es: seq<Entry>)
    ensures |LogOf(es)| == |es|
    ensures forall i :: 0 <= i < |es| ==> LogOf(es)[i] == RouteOf(es[i])
  {
    if es != [] { LogOfEach(es[..|es| - 1]); }
  }
}

// Mounting a router under a path equals registering its routes with the path
// in front: when, exactly, and what the rest of the chain sees.

module Mounting {
  import opened Text
  import opened Routing
  import opened RoutingLaws
  import opened TrieModel
  import opened Registry
  import opened Grafting
  import opened Verbs
  import opened Middleware

  // ------------------------------------------------- the mount path

  function Normalized(path: string): string {
    if path == "" || path == "/" then "/"
    else
      var s := if path[0] != '/' then "/" + path else path;
      if |s| > 1 && s[|s| - 1] == '/' then s[..|s| - 1] else s
  }

  method NormalizePath(path: string) returns (normalized: string)
    ensures normalized == Normalized(path)
  {
    if path == "" || path == "/" {
      return "/";
    }
    normalized := path;
    if normalized[0] != '/' {
      normalized := "/" + normalized;
    }
    if |normalized| > 1 && normalized[|normalized| - 1] == '/' {
      normalized := normalized[..|normalized| - 1];
    }
  }

  /// One trailing slash is dropped, not all: normalizing twice differs exactly when two end a
  /// path longer than them.
  lemma NormalizeTwice(path: string)
    ensures Normalized(path) != "" && Normalized(path)[0] == '/'
    ensures Normalized(Normalized(path)) != Normalized(path)
       <==> |path| > 2 && path[|path| - 1] == '/' && path[|path| - 2] == '/'
  {
  }

  // ------------------------------------------------- prefixed routes

  function Prefixed(p: string, es: seq<Entry>): seq<Entry> {
    if es == [] then []
    else
      var e := es[|es| - 1];
      Prefixed(p, es[..|es| - 1]) + [Entry(e.method_, p + e.path, e.handler)]
  }

  predicate EntriesOk(es: seq<Entry>) {
    forall e :: e in es ==> MethodOk(e.method_) && PathOk(e.path)
  }

  /// A mount path with literal segments only.
  predicate MountPath(p: string) {
    p != "" && p[0] == '/' && NulFree(p) && Literal(PathSegments(p))
  }

  lemma SegmentsAppend(p: string, q: string)
    requires NulFree(p) && PathOk(q)
    ensures PathSegments(p + q) == PathSegments(p) + PathSegments(q)
  {
    CStrId(p);
    CStrAppend(p, q);
    if q == "" {
      assert p + "" == p;
    } else {
      var rest := q[1..];
      assert q == "/" + rest;
      CStrAppend("/", rest);
      SplitAppend(p, '/', CStr(rest));
      LeadingDelimiter('/', CStr(rest));
      assert p + CStr(q) == p + ['/'] + CStr(rest);
    }
  }

  lemma SlashedSegments(q: string)
    requires PathOk(q)
    ensures PathSegments(Slashed(q)) == PathSegments(q)
  {
    SlashSegments();
    assert "/" + "" == "/";
  }

  lemma SlashSegments()
    ensures PathSegments("/") == PathSegments("") == []
  {
    CStrId("/");
    LeadingDelimiter('/', "");
    assert "/" == ['/'] + "";
  }

  lemma {:induction false} PrefixedSame(p: string, es: seq<Entry>, m: string)
    requires MountPath(p) && EntriesOk(es) && MethodOk(m)
    ensures var top := [m + ":"] + PathSegments(p);
            && Rests(LogOf(Prefixed(p, es)), top) == Rests(LogOf(es), [m + ":"])
            && NoParamBeside(LogOf(Prefixed(p, es)), top)
  {
    if es != [] {
      var front, e := es[..|es| - 1], es[|es| - 1];
      assert es == front + [e];
      PrefixedSame(p, front, m);
      PrefixedStep(p, front, e, m);
    }
  }

  lemma {:induction false} PrefixedStep(p: string, es: seq<Entry>, e: Entry, m: string)
    requires MountPath(p) && EntriesOk(es + [e]) && MethodOk(m)
    requires var top := [m + ":"] + PathSegments(p);
             && Rests(LogOf(Prefixed(p, es)), top) == Rests(LogOf(es), [m + ":"])
             && NoParamBeside(LogOf(Prefixed(p, es)), top)
    ensures var top := [m + ":"] + PathSegments(p);
            && Rests(LogOf(Prefixed(p, es + [e])), top) == Rests(LogOf(es + [e]), [m + ":"])
            && NoParamBeside(LogOf(Prefixed(p, es + [e])), top)
  {
    assert e in es + [e] && forall x :: x in es ==> x in es + [e];
    var top := [m + ":"] + PathSegments(p);
    var moved := Entry(e.method_, p + e.path, e.handler);
    assert (es + [e])[..|es|] == es;
    RestsSnoc(es, e, m);
    LogOfSnoc(Prefixed(p, es), moved);
    LogAppend(LogOf(Prefixed(p, es)), RouteOf(moved));
    MovedRoute(p, e, m);
  }

  /// The prefixed route lies below the prefix exactly under its own method.
  lemma MovedRoute(p: string, e: Entry, m: string)
    requires MountPath(p) && MethodOk(e.method_) && PathOk(e.path) && MethodOk(m)
    ensures var top := [m + ":"] + PathSegments(p);
            var segs := RouteOf(Entry(e.method_, p + e.path, e.handler)).segs;
            && (top <= segs <==> e.method_ == m)
            && (top <= segs ==> segs[|top|..] == PathSegments(e.path))
            && forall k :: 0 <= k < |top| && k < |segs| ==> !IsParam(segs[k])
  {
    KeySplit(e.method_, p + e.path);
    SegmentsAppend(p, e.path);
    var top := [m + ":"] + PathSegments(p);
    var segs := [e.method_ + ":"] + (PathSegments(p) + PathSegments(e.path));
    assert (m + ":")[..|m|] == m && (e.method_ + ":")[..|e.method_|] == e.method_;
    assert segs[0] == e.method_ + ":" && top[0] == m + ":";
    if e.method_ == m {
      assert segs == top + PathSegments(e.path);
    }
  }

  // ------------------------------------------------- mounting equals prefixing

  function KeyOf(m: string, path: string): seq<string> { PathSegments(Key(m, path)) }

  /// What a request finds through the mount, and in a flat registry of the prefixed routes.
  function MountFinds(p: string, es: seq<Entry>, m: string, path: string): Option<Found> {
    if Engages(p, path) then FoundIn(LogOf(es), KeyOf(m, Relative(p, path))) else None
  }

  function FlatFinds(p: string, es: seq<Entry>, m: string, path: string): Option<Found> {
    FoundIn(LogOf(Prefixed(p, es)), KeyOf(m, path))
  }

  lemma {:induction false} RootMountSame(es: seq<Entry>)
    requires EntriesOk(es)
    ensures LogOf(Prefixed("/", es)) == LogOf(es)
  {
    if es != [] {
      var front, e := es[..|es| - 1], es[|es| - 1];
      assert es == front + [e];
      RootMountSame(front);
      hide RouteOf;
      LogOfSnoc(Prefixed("/", front), Entry(e.method_, "/" + e.path, e.handler));
      RootMovedRoute(e);
    }
  }

  lemma RootMovedRoute(e: Entry)
    requires MethodOk(e.method_) && PathOk(e.path)
    ensures RouteOf(Entry(e.method_, "/" + e.path, e.handler)) == RouteOf(e)
  {
    hide PathSegments;
    KeySplit(e.method_, e.path);
    KeySplit(e.method_, "/" + e.path);
    SegmentsAppend("/", e.path);
    SlashSegments();
    assert [] + PathSegments(e.path) == PathSegments(e.path);
  }

  /// At its mount point and below it, a router's routes are found as if registered with the
  /// mount path in front.
  lemma {:induction false} EngagedFindsSame(p: string, es: seq<Entry>, m: string, path: string)
    requires MountPath(p) && EntriesOk(es) && MethodOk(m) && Engages(p, path)
    ensures MountFinds(p, es, m, path) == FlatFinds(p, es, m, path)
  {
    if p == "/" {
      RootMountSame(es);
    } else {
      var q := path[|p|..];
      assert path == p + q;
      BelowMountFindsSame(p, es, m, q);
    }
  }

  lemma {:induction false} BelowMountFindsSame(p: string, es: seq<Entry>, m: string, q: string)
    requires MountPath(p) && EntriesOk(es) && MethodOk(m) && PathOk(q)
    ensures FoundIn(LogOf(es), KeyOf(m, Slashed(q))) == FlatFinds(p, es, m, p + q)
  {
    hide PathSegments, FoundIn, Rests, NoParamBeside, LogOf, Prefixed, MethodOk;
    var top := [m + ":"] + PathSegments(p);
    TopsAreLiteral(es, m);
    MethodLookup(LogOf(es), m, Slashed(q));
    SlashedSegments(q);
    PrefixedSame(p, es, m);
    BelowMountKey(p, m, q);
    Peel(LogOf(Prefixed(p, es)), top, PathSegments(q));
  }

  lemma BelowMountKey(p: string, m: string, q: string)
    requires MountPath(p) && MethodOk(m) && PathOk(q)
    ensures KeyOf(m, p + q) == [m + ":"] + PathSegments(p) + PathSegments(q)
    ensures Literal([m + ":"] + PathSegments(p))
  {
    hide PathSegments;
    KeySplit(m, p + q);
    SegmentsAppend(p, q);
    Assoc([m + ":"], PathSegments(p), PathSegments(q));
  }

  lemma DisengagedFindsNothing(p: string, es: seq<Entry>, m: string, path: string)
    requires MountPath(p) && EntriesOk(es) && MethodOk(m) && PathOk(path)
    requires !(PathSegments(p) <= PathSegments(path))
    ensures FlatFinds(p, es, m, path).None?
  {
    var log, q := LogOf(Prefixed(p, es)), KeyOf(m, path);
    KeySplit(m, path);
    forall s | Live(log, s) ensures !Matches(s, q, |q|) {
      if Matches(s, q, |q|) {
        LiveRegistered(log, s);
        var r :| r in log && ShapeOf(r.segs) == s;
        var e := EntryBehind(p, es, r);
        MatchedPrefix(p, e, q, path, m);
        assert false;
      }
    }
    MissIsNoMatch(log, q);
  }

  lemma {:induction false} EntryBehind(p: string, es: seq<Entry>, r: Route) returns (e: Entry)
    requires r in LogOf(Prefixed(p, es))
    ensures e in es && r == RouteOf(Entry(e.method_, p + e.path, e.handler))
  {
    var front, last := es[..|es| - 1], es[|es| - 1];
    assert es == front + [last];
    LogOfSnoc(Prefixed(p, front), Entry(last.method_, p + last.path, last.handler));
    if r in LogOf(Prefixed(p, front)) { e := EntryBehind(p, front, r); } else { e := last; }
  }

  lemma MatchedPrefix(p: string, e: Entry, q: seq<string>, path: string, m: string)
    requires MountPath(p) && MethodOk(e.method_) && PathOk(e.path)
    requires q == [m + ":"] + PathSegments(path)
    requires Matches(ShapeOf(RouteOf(Entry(e.method_, p + e.path, e.handler)).segs), q, |q|)
    ensures PathSegments(p) <= PathSegments(path)
  {
    hide PathSegments, ShapeOf, Matches;
    var segs := RouteOf(Entry(e.method_, p + e.path, e.handler)).segs;
    KeySplit(e.method_, p + e.path);
    SegmentsAppend(p, e.path);
    MatchDepth(ShapeOf(segs), q, |q|);
    ShapeDepth(segs);
    var ps := PathSegments(p);
    forall k | 0 <= k < |ps| ensures PathSegments(path)[k] == ps[k] {
      assert segs[k + 1] == ps[k] && q[k + 1] == PathSegments(path)[k];
      MatchedLiteral(segs, q, k + 1);
    }
  }

  /// A router with one route, whose prefixed form is found at `path`.
  lemma Witness(p: string, m: string, path: string) returns (es: seq<Entry>)
    requires MountPath(p) && MethodOk(m) && PathOk(path) && PathSegments(p) <= PathSegments(path)
    ensures EntriesOk(es) && FlatFinds(p, es, m, path).Some?
  {
    hide PathSegments;
    var rest: Segments := PathSegments(path)[|PathSegments(p)|..];
    var pattern := PatternFor(path, rest);
    es := [Entry(m, pattern, Some(0))];
    KeySplit(m, p + pattern);
    SegmentsAppend(p, pattern);
    KeySplit(m, path);
    assert PathSegments(p) + rest == PathSegments(path);
    OneRouteFound(p, m, pattern, path);
  }

  /// A pattern that splits into a tail of the path's segments.
  lemma PatternFor(path: string, rest: Segments) returns (pattern: string)
    requires |rest| <= |PathSegments(path)| && rest == PathSegments(path)[|PathSegments(path)| - |rest|..]
    ensures PathOk(pattern) && PathSegments(pattern) == rest
  {
    SlashSegments();
    if rest == [] {
      pattern := "";
    } else {
      pattern := "/" + Join(rest, '/');
      SegmentsNulFree(path);
      JoinNulFree(rest);
      CStrId(pattern);
      LeadingDelimiter('/', Join(rest, '/'));
      JoinSplit(rest, '/');
    }
  }

  lemma OneRouteFound(p: string, m: string, pattern: string, path: string)
    requires KeyOf(m, p + pattern) == KeyOf(m, path)
    ensures FlatFinds(p, [Entry(m, pattern, Some(0))], m, path).Some?
  {
    var es, moved := [Entry(m, pattern, Some(0))], Entry(m, p + pattern, Some(0));
    var segs := KeyOf(m, path);
    assert es[..0] == [];
    assert Prefixed(p, es) == [] + [moved];
    LogOfSnoc([], moved);
    var log := LogOf(Prefixed(p, es));
    assert log == [] + [Route(segs, Some(0))] == [Route(segs, Some(0))];
    assert Live(log, ShapeOf(segs));
    ShapeMatchesItself(segs, segs, |segs|);
    assert segs[..|segs|] == segs;
    MissIsNoMatch(log, segs);
  }

  lemma {:induction false} ShapeMatchesItself(segs: seq<string>, q: seq<string>, n: nat)
    requires n <= |segs| && segs == q
    ensures Matches(ShapeOf(segs[..n]), q, n)
  {
    if n > 0 {
      assert segs[..n][..n - 1] == segs[..n - 1];
      ShapeMatchesItself(segs, q, n - 1);
    }
  }

  lemma SegmentsNulFree(path: string)
    ensures forall i :: 0 <= i < |PathSegments(path)| ==> NulFree(PathSegments(path)[i])
  {
    CStrNulFree(path);
    PiecesNulFree(CStr(path), '/');
  }

  lemma {:induction false} JoinNulFree(ts: seq<string>)
    requires forall i :: 0 <= i < |ts| ==> NulFree(ts[i])
    ensures NulFree(Join(ts, '/'))
  {
    if |ts| > 1 { JoinNulFree(ts[1..]); }
  }

  /// Mounting and prefixing agree for every router exactly on the paths that continue the mount
  /// path at a segment boundary, or do not start with its segments at all. The difference is
  /// the paths that spell the mount point with extra slashes, or with fewer than a mount path
  /// left ending in '/', and those with a NUL right behind it.
  lemma MountEqualsPrefixingExactly(p: string, m: string, path: string)
    requires MountPath(p) && MethodOk(m) && PathOk(path)
    ensures (forall es :: EntriesOk(es) ==> MountFinds(p, es, m, path) == FlatFinds(p, es, m, path))
       <==> Engages(p, path) || !(PathSegments(p) <= PathSegments(path))
  {
    if Engages(p, path) || !(PathSegments(p) <= PathSegments(path)) {
      forall es | EntriesOk(es) ensures MountFinds(p, es, m, path) == FlatFinds(p, es, m, path) {
        if Engages(p, path) {
          EngagedFindsSame(p, es, m, path);
        } else {
          DisengagedFindsNothing(p, es, m, path);
        }
      }
    } else {
      var es := Witness(p, m, path);
      assert MountFinds(p, es, m, path) != FlatFinds(p, es, m, path);
    }
  }

  lemma ApiSegments()
    ensures MountPath("/api") && PathSegments("/api") == ["api"]
  {
    assert NulFree("/api");
    CStrId("/api");
    PiecesOfToken("api", '/');
    LeadingDelimiter('/', "api");
    assert "/api" == ['/'] + "api";
  }

  /// A path the flat registry would serve and the mount declines: a doubled leading slash.
  lemma DoubledSlashNotMounted()
    ensures MountPath("/api") && PathOk("//api") && !Engages("/api", "//api")
    ensures PathSegments("/api") <= PathSegments("//api")
  {
    ApiSegments();
    assert NulFree("//api");
    CStrId("/api");
    CStrId("//api");
    LeadingDelimiter('/', "/api");
    assert "//api" == ['/'] + "/api";
    assert "//api"[1] != "/api"[1];
  }

  // ------------------------------------------------- the path the user wrote

  /// Normalizing a mount path keeps its segments.
  lemma NormalizedSegments(written: string)
    requires NulFree(written)
    ensures NulFree(Normalized(written)) && PathSegments(Normalized(written)) == PathSegments(written)
  {
    hide Pieces, CStr;
    SlashSegments();
    var s, n := Slashed(written), Normalized(written);
    CStrId(written);
    CStrId(s);
    if s != written { LeadingDelimiter('/', written); }
    CStrId(n);
    if n != s && written != "" {
      assert s == n + ['/'];
      TrailingDelimiter(n, '/');
    }
  }

  lemma WrittenMounts(written: string)
    requires NulFree(written) && Literal(PathSegments(written))
    ensures MountPath(Normalized(written)) && MountPath(Slashed(written))
    ensures PathSegments(Slashed(written)) == PathSegments(Normalized(written)) == PathSegments(written)
  {
    NormalizedSegments(written);
    CStrId(written);
    CStrId(Slashed(written));
    if Slashed(written) != written { LeadingDelimiter('/', written); }
  }

  /// Prefixes with the same segments make the same routes.
  lemma {:induction false} SamePrefixed(p: string, p': string, es: seq<Entry>)
    requires MountPath(p) && MountPath(p') && PathSegments(p) == PathSegments(p') && EntriesOk(es)
    ensures LogOf(Prefixed(p, es)) == LogOf(Prefixed(p', es))
  {
    if es != [] {
      var front, e := es[..|es| - 1], es[|es| - 1];
      assert es == front + [e];
      SamePrefixed(p, p', front);
      hide PathSegments, MethodOk;
      LogOfSnoc(Prefixed(p, front), Entry(e.method_, p + e.path, e.handler));
      LogOfSnoc(Prefixed(p', front), Entry(e.method_, p' + e.path, e.handler));
      KeySplit(e.method_, p + e.path);
      KeySplit(e.method_, p' + e.path);
      SegmentsAppend(p, e.path);
      SegmentsAppend(p', e.path);
    }
  }

  lemma WrittenFindsSame(written: string, es: seq<Entry>, m: string, path: string)
    requires NulFree(written) && Literal(PathSegments(written)) && EntriesOk(es)
    ensures FlatFinds(Slashed(written), es, m, path) == FlatFinds(Normalized(written), es, m, path)
  {
    WrittenMounts(written);
    SamePrefixed(Slashed(written), Normalized(written), es);
  }

  /// The mount path itself, or it and a slash and anything.
  predicate GoesOn(p: string, path: string) { p == "/" || path == p || p + "/" <= path }

  lemma EngagesOnward(p: string, path: string)
    ensures Engages(p, path) <==> GoesOn(p, path)
  {
  }

  /// Mounting at a path as the user wrote it ("api", "/api" or "/api/") and registering the
  /// patterns with that text in front agree for every router exactly on these paths.
  lemma MountedAsWritten(written: string, m: string, path: string)
    requires NulFree(written) && Literal(PathSegments(written)) && MethodOk(m) && PathOk(path)
    ensures (forall es :: EntriesOk(es) ==>
               MountFinds(Normalized(written), es, m, path) == FlatFinds(Slashed(written), es, m, path))
       <==> GoesOn(Normalized(written), path) || !(PathSegments(written) <= PathSegments(path))
  {
    hide MountFinds, FlatFinds, EntriesOk, Engages;
    WrittenMounts(written);
    EngagesOnward(Normalized(written), path);
    MountEqualsPrefixingExactly(Normalized(written), m, path);
    forall es | EntriesOk(es)
      ensures FlatFinds(Slashed(written), es, m, path) == FlatFinds(Normalized(written), es, m, path)
    {
      WrittenFindsSame(written, es, m, path);
    }
  }

  // ------------------------------------------------- Router::use, without the boundary check

  function SubFinds(p: string, es: seq<Entry>, m: string, path: string): Option<Found> {
    if p <= path then FoundIn(LogOf(es), KeyOf(m, Slashed(path[|p|..]))) else None
  }

  /// The end of a path, a slash, or the NUL where a C string ends.
  predicate AtBoundary(rest: string) { rest == "" || rest[0] == '/' || rest[0] == '\0' }

  /// Text that goes on in the middle of a segment leaves the last segment longer.
  lemma SegmentGoesOn(p: string, rest: string)
    requires MountPath(p) && p[|p| - 1] != '/' && !AtBoundary(rest)
    ensures !(PathSegments(p) <= PathSegments(p + rest))
  {
    var a, t := LastSlash(p, |p| - 1);
    var u := CStr(rest);
    CStrId(p);
    CStrAppend(p, rest);
    assert p + u == a + ['/'] + (t + u) && u[0] == rest[0];
    SplitAppend(a, '/', t);
    SplitAppend(a, '/', t + u);
    PiecesOfToken(t, '/');
    FirstPieceLonger(t, u);
    var n := |Pieces(a, "/")|;
    assert PathSegments(p)[n] == t;
    assert PathSegments(p + rest)[n] == Pieces(t + u, "/")[0];
  }

  lemma {:induction false} LastSlash(p: string, i: nat) returns (a: string, t: string)
    requires i < |p| && p[0] == '/' && p[|p| - 1] != '/' && '/' !in p[i + 1..]
    ensures p == a + ['/'] + t && t != "" && '/' !in t
  {
    if p[i] == '/' {
      a, t := p[..i], p[i + 1..];
    } else {
      assert p[i..] == [p[i]] + p[i + 1..];
      a, t := LastSlash(p, i - 1);
    }
  }

  lemma FirstPieceLonger(t: string, u: string)
    requires t != "" && '/' !in t && u != "" && u[0] != '/'
    ensures Pieces(t + u, "/") != [] && |Pieces(t + u, "/")[0]| > |t|
  {
    var s := t + u;
    FindCharInv(s, '/');
    var r := Find(s, "/", 0);
    assert s[|t|] == u[0] && forall k :: 0 <= k < |t| ==> s[k] == t[k];
    assert r.Some? ==> r.value > |t|;
  }

  lemma {:induction false} NulBoundary(p: string, es: seq<Entry>, m: string, rest: string)
    requires MountPath(p) && EntriesOk(es) && MethodOk(m) && rest != "" && rest[0] == '\0'
    ensures FoundIn(LogOf(es), KeyOf(m, Slashed(rest))) == FlatFinds(p, es, m, p + rest)
  {
    hide PathSegments, FoundIn, LogOf, Prefixed, MethodOk;
    EngagedFindsSame(p, es, m, p);
    CutAtNul(Key(m, p), rest);
    assert Key(m, p) + rest == Key(m, p + rest);
    CutAtNul(Key(m, "/"), rest);
    assert Key(m, "/") + rest == Key(m, "/" + rest);
    assert p[|p|..] == "" && "/" + "" == "/";
    assert Relative(p, p) == "/" && Slashed(rest) == "/" + rest;
  }

  lemma CutAtNul(a: string, rest: string)
    requires rest != "" && rest[0] == '\0'
    ensures PathSegments(a + rest) == PathSegments(a)
  {
    if NulFree(a) {
      CStrAppend(a, rest);
      CStrId(a);
      assert a + "" == a;
    } else {
      CStrCut(a, rest);
    }
  }

  /// Behind a mount path that ends in a slash, everything goes on at a boundary.
  lemma SlashBoundary(p: string, es: seq<Entry>, m: string, rest: string)
    requires MountPath(p) && EntriesOk(es) && MethodOk(m) && p[|p| - 1] == '/'
    ensures FoundIn(LogOf(es), KeyOf(m, Slashed(rest))) == FlatFinds(p, es, m, p + rest)
  {
    hide PathSegments, FoundIn, LogOf, Prefixed, MethodOk, EntriesOk;
    BelowMountFindsSame(p, es, m, Slashed(rest));
    if Slashed(rest) != rest {
      var k := Key(m, p[..|p| - 1]);
      SegmentsOfSlashes(k, rest);
      assert Key(m, p + rest) == (k + "/") + rest;
      assert Key(m, p + Slashed(rest)) == (k + "/" + "/") + rest;
    }
  }

  /// The path starts with the text of the mount path and goes on at a boundary.
  predicate Continues(p: string, path: string)
    requires p != ""
  {
    p <= path && (p[|p| - 1] == '/' || AtBoundary(path[|p|..]))
  }

  /// A router used by a router agrees with prefixing, for all its routes, exactly where a path
  /// that starts with the text of the mount path goes on at a boundary.
  lemma SubRouterExactly(p: string, m: string, path: string)
    requires MountPath(p) && MethodOk(m) && PathOk(path)
    ensures (forall es :: EntriesOk(es) ==> SubFinds(p, es, m, path) == FlatFinds(p, es, m, path))
       <==> if p <= path then Continues(p, path) else !(PathSegments(p) <= PathSegments(path))
  {
    if p <= path {
      var rest := path[|p|..];
      assert path == p + rest;
      if Continues(p, path) {
        forall es | EntriesOk(es) ensures SubFinds(p, es, m, path) == FlatFinds(p, es, m, path) {
          ContinuesFindsSame(p, es, m, rest);
        }
      } else {
        SegmentGoesOn(p, rest);
        var es := WitnessAt(m, Slashed(rest));
        DisengagedFindsNothing(p, es, m, path);
        assert SubFinds(p, es, m, path) != FlatFinds(p, es, m, path);
      }
    } else if PathSegments(p) <= PathSegments(path) {
      var es := Witness(p, m, path);
      assert SubFinds(p, es, m, path) != FlatFinds(p, es, m, path);
    } else {
      forall es | EntriesOk(es) ensures SubFinds(p, es, m, path) == FlatFinds(p, es, m, path) {
        DisengagedFindsNothing(p, es, m, path);
      }
    }
  }

  lemma ContinuesFindsSame(p: string, es: seq<Entry>, m: string, rest: string)
    requires MountPath(p) && EntriesOk(es) && MethodOk(m) && Continues(p, p + rest)
    ensures SubFinds(p, es, m, p + rest) == FlatFinds(p, es, m, p + rest)
  {
    assert (p + rest)[|p|..] == rest;
    if p[|p| - 1] == '/' {
      SlashBoundary(p, es, m, rest);
    } else if rest != "" && rest[0] == '\0' {
      NulBoundary(p, es, m, rest);
    } else {
      EngagedFindsSame(p, es, m, p + rest);
    }
  }

  lemma SubRouterAsWritten(written: string, m: string, path: string)
    requires NulFree(written) && Literal(PathSegments(written)) && MethodOk(m) && PathOk(path)
    ensures (forall es :: EntriesOk(es) ==>
               SubFinds(Normalized(written), es, m, path) == FlatFinds(Slashed(written), es, m, path))
       <==> if Normalized(written) <= path then Continues(Normalized(written), path)
            else !(PathSegments(written) <= PathSegments(path))
  {
    hide SubFinds, FlatFinds, EntriesOk, Continues;
    WrittenMounts(written);
    SubRouterExactly(Normalized(written), m, path);
    forall es | EntriesOk(es)
      ensures FlatFinds(Slashed(written), es, m, path) == FlatFinds(Normalized(written), es, m, path)
    {
      WrittenFindsSame(written, es, m, path);
    }
  }

  /// A sub-router used at "/api" answers "/apiary" as if it were "/api/ary".
  lemma ApiaryCaptured()
    ensures var es := [Entry("GET", "/ary", Some(0))];
            SubFinds("/api", es, "GET", "/apiary").Some? && FlatFinds("/api", es, "GET", "/apiary").None?
  {
    var es := [Entry("GET", "/ary", Some(0))];
    ApiSegments();
    hide FoundIn, PathSegments, LogOf, Prefixed, Slashed, SubFinds, FlatFinds, KeyOf;
    SegmentGoesOn("/api", "ary");
    GetOk();
    DisengagedFindsNothing("/api", es, "GET", "/api" + "ary");
    OneRouteSubFound("/api", "ary");
    assert "/api" + "ary" == "/apiary" && Slashed("ary") == "/ary" by { AryPath(); }
  }

  lemma AryPath()
    ensures "/api" + "ary" == "/apiary" && Slashed("ary") == "/ary"
  {
  }

  lemma GetOk()
    ensures MethodOk("GET")
  {
  }

  lemma OneRouteSubFound(p: string, rest: string)
    ensures SubFinds(p, [Entry("GET", Slashed(rest), Some(0))], "GET", p + rest).Some?
  {
    var pattern := Slashed(rest);
    var es := [Entry("GET", pattern, Some(0))];
    hide FoundIn, PathSegments, LogOf;
    assert "" + pattern == pattern && (p + rest)[|p|..] == rest;
    OneRouteFound("", "GET", pattern, pattern);
    NotPrefixed(es[0]);
  }

  lemma NotPrefixed(e: Entry)
    ensures Prefixed("", [e]) == [e]
  {
    assert [e][..0] == [] && "" + e.path == e.path;
  }

  lemma SameKey(m: string, a: string, b: string)
    requires MethodOk(m) && PathOk(a) && PathOk(b) && PathSegments(a) == PathSegments(b)
    ensures KeyOf(m, a) == KeyOf(m, b)
  {
    hide PathSegments;
    KeySplit(m, a);
    KeySplit(m, b);
  }

  /// A router with one route, found at `path`.
  lemma WitnessAt(m: string, path: string) returns (es: seq<Entry>)
    requires MethodOk(m) && PathOk(path)
    ensures EntriesOk(es) && FoundIn(LogOf(es), KeyOf(m, path)).Some?
  {
    hide PathSegments, KeyOf, FoundIn, LogOf, Prefixed, MethodOk, PathOk;
    var pattern := PatternFor(path, PathSegments(path));
    es := [Entry(m, pattern, Some(0))];
    SameKey(m, pattern, path);
    assert "" + pattern == pattern;
    OneRouteFound("", m, pattern, path);
    NotPrefixed(es[0]);
  }

  // ------------------------------------------------- in the chain

  lemma RoutesOnly(p: string, log: seq<Route>, next: Cont, st: State)
    requires Engages(p, st.path)
    ensures Exec(Mounted(p, [Routes(log)]), next, st)
         == match Handle(log, st.(path := Relative(p, st.path)))
            case Some(st') => st'
            case None => Run(next, st)
  {
    var st1 := st.(path := Relative(p, st.path));
    var routes, after := Routes(log), Restore(st.path, next);
    assert [routes][1..] == [];
    assert Exec(Mounted(p, [routes]), next, st) == Run(Then([routes], after), st1);
    assert Run(Then([routes], after), st1) == Exec(routes, Then([], after), st1);
    assert Run(Then([], after), st1) == Run(after, st1);
    assert Run(after, st1) == Run(next, st1.(path := st.path));
    assert st1.(path := st.path) == st;
  }

  /// A mounted router without middleware either answers with the flat registry's handler and
  /// params, leaving the request on the relative path, or hands the untouched request on.
  lemma MountedRouterStep(p: string, es: seq<Entry>, next: Cont, st: State)
    requires MountPath(p) && EntriesOk(es) && MethodOk(st.method_) && Engages(p, st.path)
    ensures var rel := Relative(p, st.path);
            Exec(Mounted(p, [Routes(LogOf(es))]), next, st)
            == match FlatFinds(p, es, st.method_, st.path)
               case Some(f) => Log(st.(path := rel, params := f.params), Handled(f.handler, rel, f.params))
               case None => Run(next, st)
  {
    EngagedFindsSame(p, es, st.method_, st.path);
    RoutesOnly(p, LogOf(es), next, st);
  }

  /// A sub-router that agrees with prefixing either answers with the flat registry's handler and
  /// params, leaving the request on its full path, unlike a mounted router, or hands the
  /// untouched request on.
  lemma SubRouterStep(p: string, es: seq<Entry>, next: Cont, st: State)
    requires MountPath(p) && EntriesOk(es) && MethodOk(st.method_) && Continues(p, st.path)
    ensures Exec(SubMounted(p, LogOf(es)), next, st)
         == match FlatFinds(p, es, st.method_, st.path)
            case Some(f) => Log(st.(params := f.params), Handled(f.handler, Slashed(st.path[|p|..]), f.params))
            case None => Run(next, st)
  {
    hide LogOf, KeyOf, FoundIn, FlatFinds, Slashed, MountPath, EntriesOk, MethodOk, Run, Dispatch, PathSegments;
    var rest := st.path[|p|..];
    assert st.path == p + rest;
    ContinuesFindsSame(p, es, st.method_, rest);
    SubAnswers(p, LogOf(es), next, st);
  }

  lemma SubAnswers(p: string, log: seq<Route>, next: Cont, st: State)
    requires p <= st.path
    ensures var rel := Slashed(st.path[|p|..]);
            Exec(SubMounted(p, log), next, st)
            == match FoundIn(log, KeyOf(st.method_, rel))
               case Some(f) => Log(st.(params := f.params), Handled(f.handler, rel, f.params))
               case None => Run(next, st)
  {
  }

  // ------------------------------------------------- the server's own routes

  /// The request is answered from `log`: by the handler of the best match, its params set, or
  /// with a 404 on the path it has when nothing matches.
  ghost predicate OwnAnswer(log: seq<Route>, st: State, st': State) {
    var q := KeyOf(st.method_, st.path);
    && (forall s, f :: BestFound(log, q, s, f) ==>
          st' == State(st.method_, st.path, f.params, st.trace + [Handled(f.handler, st.path, f.params)]))
    && ((forall s :: Live(log, s) ==> !Matches(s, q, |q|)) ==>
          st' == State(st.method_, st.path, st.params, st.trace + [NotFound(st.method_, st.path)]))
  }

  /// At the end of the chain the server asks its own routes.
  lemma OwnRoutesAnswer(log: seq<Route>, st: State)
    ensures OwnAnswer(log, st, Run(Final(log), st))
    ensures var q := KeyOf(st.method_, st.path);
            (exists s, f :: BestFound(log, q, s, f)) <==> exists s :: Live(log, s) && Matches(s, q, |q|)
  {
    var q := KeyOf(st.method_, st.path);
    FoundIsBest(log, q);
    hide Lookup, PathSegments;
    var f := FoundIn(log, q);
    assert Dispatch(log, st.method_, st.path) == Lookup(log, q);
    if f.Some? {
      var s :| BestFound(log, q, s, f.value);
      forall t, g | BestFound(log, q, t, g) ensures g == f.value { assert FoundIn(log, q) == Some(g); }
    }
  }

  // ------------------------------------------------- a server of mounted routers

  datatype Mount = Mount(prefix: string, es: seq<Entry>)

  function ChainOf(mounts: seq<Mount>): seq<Mw> {
    if mounts == [] then []
    else [Mounted(mounts[0].prefix, [Routes(LogOf(mounts[0].es))])] + ChainOf(mounts[1..])
  }

  /// The first table of prefixed routes that has the path, by its mount path, and what it finds.
  function FirstFound(mounts: seq<Mount>, m: string, path: string): Option<(string, Found)> {
    if mounts == [] then None
    else match FlatFinds(mounts[0].prefix, mounts[0].es, m, path)
         case Some(f) => Some((mounts[0].prefix, f))
         case None => FirstFound(mounts[1..], m, path)
  }

  function RelativeIfEngaged(p: string, path: string): string {
    if Engages(p, path) then Relative(p, path) else path
  }

  /// Mounted at a path with literal segments, which `path` either continues at a boundary or
  /// does not start with: MountEqualsPrefixingExactly's condition.
  predicate PlainMount(mount: Mount, path: string) {
    && MountPath(mount.prefix) && EntriesOk(mount.es)
    && (Engages(mount.prefix, path) || !(PathSegments(mount.prefix) <= PathSegments(path)))
  }

  /// What the request comes to: answered from the first flat table that has it, on the path
  /// relative to that mount, and by the server's own routes or a 404 on its own path otherwise.
  lemma {:induction false} MountedServer(mounts: seq<Mount>, log: seq<Route>, st: State)
    requires (forall i :: 0 <= i < |mounts| ==> PlainMount(mounts[i], st.path))
    requires MethodOk(st.method_) && PathOk(st.path)
    ensures var st' := Run(Then(ChainOf(mounts), Final(log)), st);
            match FirstFound(mounts, st.method_, st.path)
            case None => OwnAnswer(log, st, st')
            case Some((p, f)) =>
              var rel := RelativeIfEngaged(p, st.path);
              st' == State(st.method_, rel, f.params, st.trace + [Handled(f.handler, rel, f.params)])
    decreases |mounts|
  {
    hide FlatFinds, PathSegments, LogOf, MethodOk, PathOk, MountPath, EntriesOk, OwnAnswer;
    if mounts == [] {
      OwnRoutesAnswer(log, st);
    } else {
      var p, es := mounts[0].prefix, mounts[0].es;
      var first, rest := Mounted(p, [Routes(LogOf(es))]), ChainOf(mounts[1..]);
      assert ChainOf(mounts)[1..] == rest;
      assert Run(Then(ChainOf(mounts), Final(log)), st) == Exec(first, Then(rest, Final(log)), st);
      assert PlainMount(mounts[0], st.path);
      if Engages(p, st.path) {
        MountedRouterStep(p, es, Then(rest, Final(log)), st);
      } else {
        DisengagedFindsNothing(p, es, st.method_, st.path);
      }
      forall i | 0 <= i < |mounts[1..]| ensures PlainMount(mounts[1..][i], st.path) {
        assert mounts[1..][i] == mounts[i + 1];
      }
      MountedServer(mounts[1..], log, st);
    }
  }

  // ------------------------------------------------- which path a 404 names

  /// Every call of next is made on the path `o`, as far as the body itself can tell: `at` is the
  /// path as it is known, which it is not once next has returned.
  predicate Keeps(body: seq<Op>, at: Option<string>, o: string) {
    body == [] ||
    match body[0]
    case Emit(_) => Keeps(body[1..], at, o)
    case SetPath(path) => Keeps(body[1..], Some(path), o)
    case CallNext => at == Some(o) && Keeps(body[1..], None, o)
  }

  /// A request `m` is given goes on on its own path. Mounted routers see to that, whatever is in
  /// them.
  predicate CalmOn(m: Mw, st: State) {
    match m
    case User(_, body) => Keeps(body(st), Some(st.path), st.path)
    case Scoped(prefix, inner) => prefix <= st.path ==> CalmOn(inner, st)
    case _ => true
  }

  ghost predicate Calm(m: Mw) { forall st :: CalmOn(m, st) }

  /// Run on the path `o`, the 404s behind it name `o`.
  ghost predicate Steady(k: Cont, o: string) {
    match k
    case Final(_) => true
    case Then(rest, k') => (forall i :: 0 <= i < |rest| ==> Calm(rest[i])) && Steady(k', o)
    case Restore(p, k') => p == o && Steady(k', o)
  }

  /// The end of a mounted chain puts `o` back, and what comes then is steady.
  ghost predicate Guarded(k: Cont, o: string) {
    match k
    case Final(_) => false
    case Then(_, k') => Guarded(k', o)
    case Restore(p, k') => (p == o && Steady(k', o)) || Guarded(k', o)
  }

  ghost predicate ReportsOnly(st: State, st': State, o: string) {
    st.trace <= st'.trace
    && forall i :: |st.trace| <= i < |st'.trace| && st'.trace[i].NotFound? ==> st'.trace[i].path == o
  }

  lemma HandleReports(log: seq<Route>, st: State, o: string)
    ensures Handle(log, st).Some? ==> ReportsOnly(st, Handle(log, st).value, o)
  {
  }

  lemma {:induction false} RunReports(k: Cont, st: State, o: string)
    requires Guarded(k, o) || (Steady(k, o) && st.path == o)
    ensures ReportsOnly(st, Run(k, st), o)
    decreases ContSize(k), 0
  {
    match k
    case Final(log) => HandleReports(log, st, o);
    case Then(rest, k') =>
      if rest == [] { RunReports(k', st, o); } else { ExecReports(rest[0], Then(rest[1..], k'), st, o); }
    case Restore(path, k') => RunReports(k', st.(path := path), o);
  }

  lemma {:induction false} ExecReports(m: Mw, next: Cont, st: State, o: string)
    requires Guarded(next, o) || (CalmOn(m, st) && Steady(next, o) && st.path == o)
    ensures ReportsOnly(st, Exec(m, next, st), o)
    decreases MwSize(m) + ContSize(next), 1
  {
    match m
    case User(id, body) => BodyReports(body(st), next, Log(st, Enter(id)), Some(st.path), o);
    case Scoped(prefix, inner) =>
      if prefix <= st.path { ExecReports(inner, next, st, o); } else { RunReports(next, st, o); }
    case Mounted(prefix, chain) =>
      if Engages(prefix, st.path) {
        var after := Restore(st.path, next);
        assert ContSize(after) == 1 + ContSize(next) && Guarded(after, o);
        RunReports(Then(chain, after), st.(path := Relative(prefix, st.path)), o);
      } else {
        RunReports(next, st, o);
      }
    case Routes(log) => HandleReports(log, st, o); RunReports(next, st, o);
    case SubMounted(prefix, sub) =>
      if prefix <= st.path { HandleReports(sub, st.(path := Slashed(st.path[|prefix|..])), o); }
      RunReports(next, st, o);
  }

  lemma {:induction false} BodyReports(body: seq<Op>, next: Cont, st: State, at: Option<string>, o: string)
    requires Guarded(next, o) || (Keeps(body, at, o) && Steady(next, o) && (at.Some? ==> st.path == at.value))
    ensures ReportsOnly(st, RunBody(body, next, st), o)
    decreases ContSize(next), 1 + |body|
  {
    if body != [] {
      match body[0]
      case Emit(note) => BodyReports(body[1..], next, Log(st, Note(note)), at, o);
      case SetPath(path) => BodyReports(body[1..], next, st.(path := path), Some(path), o);
      case CallNext =>
        RunReports(next, st, o);
        BodyReports(body[1..], next, Run(next, st), None, o);
    }
  }

  /// Whatever routers are mounted, used inside others, matched against or scoped, and whatever
  /// the mounted routers' own middleware do to the path, every 404 names the path the client
  /// asked for, as long as the server's own middleware call next on the path they were given.
  lemma NotFoundNamesOriginalPath(ms: seq<Mw>, log: seq<Route>, st: State)
    requires forall i :: 0 <= i < |ms| ==> Calm(ms[i])
    ensures ReportsOnly(st, Run(Then(ms, Final(log)), st), st.path)
  {
    RunReports(Then(ms, Final(log)), st, st.path);
  }

  // ------------------------------------------------- and when it does not

  /// A mounted router that answers requests for `o`, moving the path, and passes on all others.
  function Trap(o: string): Mw {
    Mounted("/", [User(0, (s: State) => if s.path == o then [SetPath(o + "x")] else [CallNext])])
  }

  lemma {:induction false} TrapSprung(o: string, st: State)
    ensures var st' := Run(Then([Trap(o)], Final([])), st);
            if st.path == o then st'.path != o else !ReportsOnly(st, st', o)
  {
    var k, user := Final([]), Trap(o).chain[0];
    var next, after := Then([], k), Restore(st.path, Then([], k));
    var st0, body := Log(st, Enter(0)), user.body(st);
    assert st.(path := st.path) == st && [Trap(o)][1..] == [];
    assert Run(Then([Trap(o)], k), st) == Exec(Trap(o), next, st) == Run(Then([user], after), st);
    UserFirst(user, [], after, st);
    assert [user] + [] == [user] && body[1..] == [];
    if st.path == o {
      assert RunBody(body, Then([], after), st0) == st0.(path := o + "x");
    } else {
      var st1 := Log(st0, NotFound(st.method_, st.path));
      assert Run(Then([], after), st0) == Run(after, st0) == Run(Then([], k), st0) == Run(k, st0) == st1;
      assert RunBody(body, Then([], after), st0) == st1;
      assert Log(st1, Exit(0)).trace[|st.trace| + 1] == NotFound(st.method_, st.path);
    }
  }

  lemma StillReported(a: State, b: State, c: State, d: State, o: string)
    requires a.trace <= b.trace <= c.trace <= d.trace && !ReportsOnly(b, c, o)
    ensures !ReportsOnly(a, d, o)
  {
    var i :| |b.trace| <= i < |c.trace| && c.trace[i].NotFound? && c.trace[i].path != o;
    assert d.trace[i] == c.trace[i];
  }

  /// A body that calls next on another path is caught by the trap.
  lemma {:induction false} BodyCaught(body: seq<Op>, st: State, at: Option<string>, o: string)
    requires !Keeps(body, at, o)
    requires if at.Some? then st.path == at.value else st.path != o
    ensures !ReportsOnly(st, RunBody(body, Then([Trap(o)], Final([])), st), o)
    decreases |body|
  {
    var next := Then([Trap(o)], Final([]));
    var end := RunBody(body, next, st);
    match body[0]
    case Emit(note) =>
      var st' := Log(st, Note(note));
      BodyCaught(body[1..], st', at, o);
      BodyNests(body[1..], next, st');
      StillReported(st, st', end, end, o);
    case SetPath(path) =>
      BodyCaught(body[1..], st.(path := path), Some(path), o);
    case CallNext =>
      var st' := Run(next, st);
      TrapSprung(o, st);
      RunNests(next, st);
      BodyNests(body[1..], next, st');
      if st.path == o {
        BodyCaught(body[1..], st', None, o);
        StillReported(st, st', end, end, o);
      } else {
        StillReported(st, st, st', end, o);
      }
  }

  lemma {:induction false} ExecCaught(m: Mw, st: State)
    requires !CalmOn(m, st)
    ensures !ReportsOnly(st, Exec(m, Then([Trap(st.path)], Final([])), st), st.path)
    decreases m
  {
    var next := Then([Trap(st.path)], Final([]));
    match m
    case User(id, body) =>
      var st0 := Log(st, Enter(id));
      var end := RunBody(body(st), next, st0);
      BodyCaught(body(st), st0, Some(st.path), st.path);
      BodyNests(body(st), next, st0);
      StillReported(st, st0, end, Log(end, Exit(id)), st.path);
    case Scoped(prefix, inner) =>
      ExecCaught(inner, st);
  }

  /// The condition is exact: on a given request, a middleware lets every 404 name the path asked
  /// for, whatever calm middleware and routes come after it, if and only if it is calm on it.
  lemma CalmExactly(m: Mw, st: State)
    ensures (forall rest, log :: (forall i :: 0 <= i < |rest| ==> Calm(rest[i]))
                                 ==> ReportsOnly(st, Run(Then([m] + rest, Final(log)), st), st.path))
       <==> CalmOn(m, st)
  {
    if CalmOn(m, st) {
      forall rest, log | forall i :: 0 <= i < |rest| ==> Calm(rest[i])
        ensures ReportsOnly(st, Run(Then([m] + rest, Final(log)), st), st.path)
      {
        Consed(m, rest, Final(log), st);
        ExecReports(m, Then(rest, Final(log)), st, st.path);
      }
    } else {
      var rest: seq<Mw>, log: seq<Route> := [Trap(st.path)], [];
      assert Calm(rest[0]);
      Consed(m, rest, Final(log), st);
      ExecCaught(m, st);
      assert !ReportsOnly(st, Run(Then([m] + rest, Final(log)), st), st.path);
    }
  }

  lemma UserFirst(m: Mw, rest: seq<Mw>, k: Cont, st: State)
    requires m.User?
    ensures Run(Then([m] + rest, k), st)
         == Log(RunBody(m.body(st), Then(rest, k), Log(st, Enter(m.id))), Exit(m.id))
  {
    assert ([m] + rest)[1..] == rest;
    assert Run(Then([m] + rest, k), st) == Exec(m, Then(rest, k), st);
  }

  /// A middleware that sets the path first makes the 404 name a path nobody asked for.
  lemma {:induction false} RewriteReported(m: Mw, o: string, st: State)
    requires m.User? && m.body(st) == [SetPath(o), CallNext] && st.path != o
    ensures !ReportsOnly(st, Run(Then([m], Final([])), st), st.path)
  {
    var ops, next := m.body(st), Then([], Final([]));
    var st0 := Log(st, Enter(m.id));
    var st1 := Run(next, st0.(path := o));
    UserFirst(m, [], Final([]), st);
    assert [m] + [] == [m];
    assert st1 == Log(st0.(path := o), NotFound(st.method_, o));
    TwoOps(ops, next, st0);
    var st2 := Run(Then([m], Final([])), st);
    assert st2 == Log(st1, Exit(m.id));
    assert st2.trace[|st.trace| + 1] == NotFound(st.method_, o);
  }

  lemma TwoOps(ops: seq<Op>, next: Cont, st: State)
    requires |ops| == 2 && ops[1] == CallNext && !ops[0].Emit?
    ensures RunBody(ops, next, st)
         == Run(next, if ops[0].SetPath? then st.(path := ops[0].path) else Run(next, st))
  {
    assert ops[1..] == [CallNext] && [CallNext][1..] == [];
    var st1 := if ops[0].SetPath? then st.(path := ops[0].path) else Run(next, st);
    assert RunBody(ops, next, st) == RunBody([CallNext], next, st1);
    assert RunBody([CallNext], next, st1) == RunBody([], next, Run(next, st1));
  }

  /// So does one that calls next twice: a mounted router that answers the first call leaves the
  /// request on the relative path, and the second call starts from there.
  lemma {:induction false} SecondNextReported(m: Mw, p: string, sub: seq<Route>, log: seq<Route>, st: State)
    requires m.User? && m.body(st) == [CallNext, CallNext]
    requires Engages(p, st.path) && Relative(p, st.path) != st.path && !Engages(p, Relative(p, st.path))
    requires Dispatch(sub, st.method_, Relative(p, st.path)).Some?
    requires Dispatch(log, st.method_, Relative(p, st.path)).None?
    ensures !ReportsOnly(st, Run(Then([m, Mounted(p, [Routes(sub)])], Final(log)), st), st.path)
  {
    var mounted, rel := Mounted(p, [Routes(sub)]), Relative(p, st.path);
    var ms, next := [m, mounted], Then([mounted], Final(log));
    var st0 := Log(st, Enter(m.id));
    var st1 := Run(next, st0);
    var st2 := Run(next, st1);
    UserFirst(m, [mounted], Final(log), st);
    assert ms == [m] + [mounted] && [mounted][1..] == [];
    RoutesOnly(p, sub, Then([], Final(log)), st0);
    assert st1.path == rel && st1.method_ == st.method_ && |st1.trace| == |st.trace| + 2;
    assert Run(next, st1) == Exec(mounted, Then([], Final(log)), st1) == Run(Then([], Final(log)), st1);
    assert st2 == Run(Final(log), st1) == Log(st1, NotFound(st.method_, rel));
    TwoOps(m.body(st), next, st0);
    var st3 := Run(Then(ms, Final(log)), st);
    assert st3 == Log(st2, Exit(m.id));
    assert st3.trace[|st.trace| + 2] == NotFound(st.method_, rel);
  }

  /// A router mounted at "/api" that has "/x", and a request for "/api/x": the 404 names "/x".
  lemma {:induction false} SecondNextOnApi(m: Mw, st: State)
    requires m.User? && m.body(st) == [CallNext, CallNext] && st.method_ == "GET" && st.path == "/api/x"
    ensures var api := Mounted("/api", [Routes(LogOf([Entry("GET", "/x", Some(0))]))]);
            !ReportsOnly(st, Run(Then([m, api], Final([])), st), st.path)
  {
    hide LogOf, FoundIn, PathSegments, ReportsOnly, Run;
    assert Relative("/api", "/api/x") == "/x" && Engages("/api", "/api/x") && !Engages("/api", "/x");
    OneRouteSubFound("", "/x");
    assert "" + "/x" == "/x" && Slashed("/x") == "/x" && "/x"[0..] == "/x";
    NothingRegistered("GET", "/x");
    FoundDispatched(LogOf([Entry("GET", "/x", Some(0))]), "GET", "/x");
    SecondNextReported(m, "/api", LogOf([Entry("GET", "/x", Some(0))]), [], st);
  }

  lemma FoundDispatched(log: seq<Route>, m: string, path: string)
    ensures FoundIn(log, KeyOf(m, path)).Some? <==> Dispatch(log, m, path).Some?
  {
  }

  lemma NothingRegistered(m: string, path: string)
    ensures Dispatch([], m, path).None?
  {
    MissIsNoMatch([], KeyOf(m, path));
  }
}

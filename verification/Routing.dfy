// What the routing trie means: the log of registrations it was built from, and
// the lookup as a function of that log. Nothing here knows about nodes.

module Routing {
  import opened Text

  /// A handler is known by its identity. A null std::function is None.
  type Handler = nat

  datatype Seg = Lit(text: string) | Par

  /// A place in the trie: the segments from the root, parameter names forgotten.
  datatype Shape = Root | Sub(parent: Shape, seg: Seg)

  type Segments = s: seq<string> | forall i :: 0 <= i < |s| ==> IsToken(s[i], '/')

  datatype Route = Route(segs: Segments, handler: Option<Handler>)

  predicate IsParam(segment: string) { segment != "" && segment[0] == ':' }

  function SegOf(segment: string): Seg {
    if IsParam(segment) then Par else Lit(segment)
  }

  function ShapeOf(segs: seq<string>): Shape {
    if segs == [] then Root
    else Sub(ShapeOf(segs[..|segs| - 1]), SegOf(segs[|segs| - 1]))
  }

  function Depth(s: Shape): nat {
    match s case Root => 0 case Sub(a, _) => Depth(a) + 1
  }

  /// `s` and everything above it.
  function Ancestors(s: Shape): set<Shape> {
    match s case Root => {Root} case Sub(a, _) => {s} + Ancestors(a)
  }

  predicate Under(p: Shape, s: Shape) {
    p == s || (s.Sub? && Under(p, s.parent))
  }

  // ------------------------------------------------- reading the log

  /// The handler of the last registration of this shape.
  function HandlerOf(log: seq<Route>, s: Shape): Option<Handler> {
    if log == [] then None
    else
      var r := log[|log| - 1];
      if ShapeOf(r.segs) == s then r.handler else HandlerOf(log[..|log| - 1], s)
  }

  /// The name `segs` gives the parameter slot below `p`, if it has one there.
  function NameIn(segs: seq<string>, p: Shape): Option<string> {
    if segs == [] then None
    else
      var last := segs[|segs| - 1];
      var front := segs[..|segs| - 1];
      if IsParam(last) && ShapeOf(front) == p then Some(last[1..]) else NameIn(front, p)
  }

  /// The first name ever given to the parameter slot below `p`.
  function NameOf(log: seq<Route>, p: Shape): Option<string> {
    if log == [] then None
    else
      match NameOf(log[..|log| - 1], p)
      case Some(n) => Some(n)
      case None => NameIn(log[|log| - 1].segs, p)
  }

  /// Every place some registration passes through.
  function Places(log: seq<Route>): set<Shape> {
    if log == [] then {Root}
    else Places(log[..|log| - 1]) + Ancestors(ShapeOf(log[|log| - 1].segs))
  }

  predicate Live(log: seq<Route>, s: Shape) { HandlerOf(log, s).Some? }

  // ------------------------------------------------- matching

  /// `s` matches the first `n` segments of `q`.
  predicate Matches(s: Shape, q: seq<string>, n: nat)
    requires n <= |q|
  {
    match s
    case Root => n == 0
    case Sub(a, x) => n > 0 && (x == Par || x == Lit(q[n - 1])) && Matches(a, q, n - 1)
  }

  /// Literal over parameter at the first segment where the two differ.
  predicate Beats(a: Shape, b: Shape) {
    a.Sub? && b.Sub? &&
    if a.parent == b.parent then a.seg.Lit? && b.seg.Par? else Beats(a.parent, b.parent)
  }

  /// A linear scan's answer: the live shape that matches and beats every other one that does.
  ghost predicate IsBest(log: seq<Route>, q: seq<string>, s: Shape) {
    Live(log, s) && Matches(s, q, |q|) &&
    forall t :: Live(log, t) && Matches(t, q, |q|) ==> t == s || Beats(s, t)
  }

  // ------------------------------------------------- the search

  function Search(log: seq<Route>, p: Shape, q: seq<string>, i: nat): Option<Shape>
    requires i <= |q|
    decreases |q| - i
  {
    if i == |q| then
      if Live(log, p) then Some(p) else None
    else
      var lit := Sub(p, Lit(q[i]));
      var hit := if lit in Places(log) then Search(log, lit, q, i + 1) else None;
      if hit.Some? then hit
      else if Sub(p, Par) in Places(log) then Search(log, Sub(p, Par), q, i + 1)
      else None
  }

  /// Calls the search makes, this one included.
  function Calls(log: seq<Route>, p: Shape, q: seq<string>, i: nat): nat
    requires i <= |q|
    decreases |q| - i
  {
    if i == |q| then 1
    else
      var lit := Sub(p, Lit(q[i]));
      var here := if lit in Places(log) then Calls(log, lit, q, i + 1) else 0;
      var found := lit in Places(log) && Search(log, lit, q, i + 1).Some?;
      1 + here +
      if !found && Sub(p, Par) in Places(log) then Calls(log, Sub(p, Par), q, i + 1) else 0
  }

  type Params = map<string, string>

  function SlotName(log: seq<Route>, p: Shape): string {
    match NameOf(log, p) case Some(n) => n case None => ""
  }

  /// `m` updated with the (name, segment) pairs on the way from `p` down to `s`.
  function Bind(log: seq<Route>, m: Params, p: Shape, s: Shape, q: seq<string>): Params
    requires Depth(s) <= |q|
  {
    if s == p || s == Root then m
    else
      var above := Bind(log, m, p, s.parent, q);
      if s.seg.Par? then above[SlotName(log, s.parent) := q[Depth(s) - 1]] else above
  }

  datatype Hit = Hit(shape: Shape, handler: Handler, params: Params)

  /// What RouteRegistry::getHandler finds for a split path.
  function Lookup(log: seq<Route>, q: seq<string>): (r: Option<Hit>)
  {
    match Search(log, Root, q, 0)
    case None => None
    case Some(s) =>
      SearchSound(log, Root, q, 0);
      MatchDepth(s, q, |q|);
      Some(Hit(s, HandlerOf(log, s).value, Bind(log, map[], Root, s, q)))
  }

  // ------------------------------------------------- shapes and places

  lemma {:induction false} MatchDepth(s: Shape, q: seq<string>, n: nat)
    requires n <= |q| && Matches(s, q, n)
    ensures Depth(s) == n
  {
    if s.Sub? { MatchDepth(s.parent, q, n - 1); }
  }

  lemma {:induction false} UnderDepth(p: Shape, s: Shape)
    requires Under(p, s)
    ensures Depth(p) <= Depth(s)
    ensures Depth(p) == Depth(s) ==> p == s
  {
    if p != s { UnderDepth(p, s.parent); }
  }

  lemma {:induction false} RootAbove(s: Shape)
    ensures Under(Root, s)
  {
    if s.Sub? { RootAbove(s.parent); }
  }

  lemma {:induction false} UnderAncestors(p: Shape, s: Shape)
    ensures Under(p, s) <==> p in Ancestors(s)
  {
    if s.Sub? { UnderAncestors(p, s.parent); }
  }

  lemma {:induction false} UnderTrans(a: Shape, b: Shape, c: Shape)
    requires Under(a, b) && Under(b, c)
    ensures Under(a, c)
  {
    if b != c { UnderTrans(a, b, c.parent); }
  }

  lemma {:induction false} PlacesClosed(log: seq<Route>, p: Shape, s: Shape)
    requires Under(p, s) && s in Places(log)
    ensures p in Places(log)
  {
    if log == [] {
    } else if s in Places(log[..|log| - 1]) {
      PlacesClosed(log[..|log| - 1], p, s);
    } else {
      var e := ShapeOf(log[|log| - 1].segs);
      UnderAncestors(s, e);
      UnderTrans(p, s, e);
      UnderAncestors(p, e);
    }
  }

  lemma {:induction false} LivePlace(log: seq<Route>, s: Shape)
    requires Live(log, s)
    ensures s in Places(log)
  {
    var e := ShapeOf(log[|log| - 1].segs);
    if e == s {
      UnderAncestors(s, s);
    } else {
      LivePlace(log[..|log| - 1], s);
    }
  }

  lemma {:induction false} BeatsIrreflexive(s: Shape)
    ensures !Beats(s, s)
  {
  }

  lemma {:induction false} BeatsAsymmetric(a: Shape, b: Shape)
    requires Beats(a, b)
    ensures !Beats(b, a)
  {
    if a.parent != b.parent { BeatsAsymmetric(a.parent, b.parent); }
  }

  /// A match below `p` continues either through the literal or through the parameter.
  lemma {:induction false} Descend(p: Shape, s: Shape, q: seq<string>, i: nat, n: nat)
    requires i < n <= |q| && Under(p, s) && Matches(p, q, i) && Matches(s, q, n)
    ensures Under(Sub(p, Lit(q[i])), s) || Under(Sub(p, Par), s)
  {
    if s.parent == p {
      MatchDepth(p, q, i);
      MatchDepth(p, q, n - 1);
    } else {
      MatchDepth(p, q, i);
      MatchDepth(s, q, n);
      UnderDepth(p, s.parent);
      Descend(p, s.parent, q, i, n - 1);
    }
  }

  lemma {:induction false} LiteralSideBeats(p: Shape, t: string, a: Shape, b: Shape)
    requires Under(Sub(p, Lit(t)), a) && Under(Sub(p, Par), b) && Depth(a) == Depth(b)
    ensures Beats(a, b)
  {
    if a == Sub(p, Lit(t)) {
      UnderDepth(Sub(p, Par), b);
    } else {
      UnderDepth(Sub(p, Lit(t)), a.parent);
      assert b != Sub(p, Par);
      LiteralSideBeats(p, t, a.parent, b.parent);
      BeatsIrreflexive(a.parent);
    }
  }

  // ------------------------------------------------- the search is the scan

  /// From any place reached by the path, the search returns the most specific live match
  /// below it, and None exactly when there is none.
  lemma {:induction false} SearchSound(log: seq<Route>, p: Shape, q: seq<string>, i: nat)
    requires i <= |q| && Matches(p, q, i)
    ensures var r := Search(log, p, q, i);
            r.Some? ==> Live(log, r.value) && Matches(r.value, q, |q|) && Under(p, r.value)
    ensures var r := Search(log, p, q, i);
            forall s :: Live(log, s) && Matches(s, q, |q|) && Under(p, s)
                        ==> r.Some? && (s == r.value || Beats(r.value, s))
    decreases |q| - i
  {
    if i == |q| {
      MatchDepth(p, q, i);
      forall s | Live(log, s) && Matches(s, q, |q|) && Under(p, s) ensures s == p {
        MatchDepth(s, q, |q|);
        UnderDepth(p, s);
      }
    } else {
      SearchSoundStep(log, p, q, i);
    }
  }

  lemma {:induction false} SearchSoundStep(log: seq<Route>, p: Shape, q: seq<string>, i: nat)
    requires i < |q| && Matches(p, q, i)
    ensures var r := Search(log, p, q, i);
            r.Some? ==> Live(log, r.value) && Matches(r.value, q, |q|) && Under(p, r.value)
    ensures var r := Search(log, p, q, i);
            forall s :: Live(log, s) && Matches(s, q, |q|) && Under(p, s)
                        ==> r.Some? && (s == r.value || Beats(r.value, s))
    decreases |q| - i, 0
  {
    var r := Search(log, p, q, i);
    var lit, par := Sub(p, Lit(q[i])), Sub(p, Par);
    SearchSound(log, lit, q, i + 1);
    SearchSound(log, par, q, i + 1);
    if r.Some? {
      if Under(lit, r.value) { UnderTrans(p, lit, r.value); } else { UnderTrans(p, par, r.value); }
    }
    forall s | Live(log, s) && Matches(s, q, |q|) && Under(p, s)
      ensures r.Some? && (s == r.value || Beats(r.value, s))
    {
      Descend(p, s, q, i, |q|);
      LivePlace(log, s);
      if Under(lit, s) {
        PlacesClosed(log, lit, s);
      } else {
        PlacesClosed(log, par, s);
        MatchDepth(s, q, |q|);
        if lit in Places(log) && Search(log, lit, q, i + 1).Some? {
          MatchDepth(r.value, q, |q|);
          LiteralSideBeats(p, q[i], r.value, s);
        }
      }
    }
  }

  /// The trie's lookup is the linear scan: it finds `s` exactly when `s` is the best match.
  lemma LookupIsScan(log: seq<Route>, q: seq<string>, s: Shape)
    ensures IsBest(log, q, s) <==> Search(log, Root, q, 0) == Some(s)
  {
    SearchSound(log, Root, q, 0);
    RootAbove(s);
    var r := Search(log, Root, q, 0);
    if r.Some? { RootAbove(r.value); }
    if IsBest(log, q, s) && r.value != s {
      BeatsAsymmetric(s, r.value);
      assert false;
    }
    if r == Some(s) {
      forall t | Live(log, t) && Matches(t, q, |q|) ensures t == s || Beats(s, t) { RootAbove(t); }
    }
  }

  /// It misses exactly when no registered shape with a handler matches.
  lemma MissIsNoMatch(log: seq<Route>, q: seq<string>)
    ensures Lookup(log, q) == None <==> forall s :: Live(log, s) ==> !Matches(s, q, |q|)
  {
    SearchSound(log, Root, q, 0);
    forall s ensures Under(Root, s) { RootAbove(s); }
  }
}

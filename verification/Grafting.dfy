// Looking up below a literal prefix is looking up in what is registered below
// that prefix. Mounting and HEAD-for-GET are both instances.

module Grafting {
  import opened Text
  import opened Routing
  import opened RoutingLaws
  import opened TrieModel

  /// The place `s` below `a`.
  function Graft(a: Shape, s: Shape): Shape {
    match s case Root => a case Sub(p, x) => Sub(Graft(a, p), x)
  }

  /// What `log` registers below `prefix`, with the prefix taken off.
  function Rests(log: seq<Route>, prefix: seq<string>): seq<Route> {
    if log == [] then []
    else
      var r := log[|log| - 1];
      Rests(log[..|log| - 1], prefix) +
      if prefix <= r.segs then [Route(r.segs[|prefix|..], r.handler)] else []
  }

  predicate Literal(segs: seq<string>) {
    forall i :: 0 <= i < |segs| ==> !IsParam(segs[i])
  }

  /// No registration has a parameter where the prefix has its segments.
  predicate NoParamBeside(log: seq<Route>, prefix: seq<string>) {
    forall r :: r in log ==> forall k :: 0 <= k < |prefix| && k < |r.segs| ==> !IsParam(r.segs[k])
  }

  lemma {:induction false} GraftDepth(a: Shape, s: Shape)
    ensures Depth(Graft(a, s)) == Depth(a) + Depth(s)
    ensures Under(a, Graft(a, s))
  {
    if s.Sub? { GraftDepth(a, s.parent); }
  }

  lemma {:induction false} GraftInjective(a: Shape, s: Shape, t: Shape)
    requires Graft(a, s) == Graft(a, t)
    ensures s == t
  {
    GraftDepth(a, s);
    GraftDepth(a, t);
    if s.Sub? { GraftInjective(a, s.parent, t.parent); }
  }

  lemma {:induction false} Ungraft(a: Shape, t: Shape) returns (s: Shape)
    requires Under(a, t)
    ensures Graft(a, s) == t
  {
    if t == a { s := Root; } else { var p := Ungraft(a, t.parent); s := Sub(p, t.seg); }
  }

  lemma {:induction false} ShapeOfAppend(a: seq<string>, r: seq<string>)
    ensures ShapeOf(a + r) == Graft(ShapeOf(a), ShapeOf(r))
  {
    if r == [] {
      assert a + r == a;
    } else {
      assert (a + r)[..|a + r| - 1] == a + r[..|r| - 1];
      ShapeOfAppend(a, r[..|r| - 1]);
    }
  }

  lemma {:induction false} GraftMatches(a: Shape, s: Shape, front: seq<string>, q: seq<string>, n: nat)
    requires n <= |q| && Matches(a, front + q, |front|)
    ensures Matches(Graft(a, s), front + q, |front| + n) <==> Matches(s, q, n)
  {
    if s == Root {
      if Matches(a, front + q, |front| + n) {
        MatchDepth(a, front + q, |front| + n);
        MatchDepth(a, front + q, |front|);
      }
    } else if n > 0 {
      GraftMatches(a, s.parent, front, q, n - 1);
    } else {
      GraftDepth(a, s.parent);
      MatchDepth(a, front + q, |front|);
      if Matches(Graft(a, s), front + q, |front|) { MatchDepth(Graft(a, s), front + q, |front|); }
    }
  }

  lemma {:induction false} GraftBeats(a: Shape, s: Shape, t: Shape)
    requires Depth(s) == Depth(t)
    ensures Beats(Graft(a, s), Graft(a, t)) <==> Beats(s, t)
  {
    if s == t {
      BeatsIrreflexive(s);
      BeatsIrreflexive(Graft(a, s));
    } else if s.parent == t.parent {
    } else {
      if Graft(a, s.parent) == Graft(a, t.parent) { GraftInjective(a, s.parent, t.parent); }
      GraftBeats(a, s.parent, t.parent);
    }
  }

  /// A literal path is above a registration's shape only if it starts the registration.
  lemma {:induction false} UnderLiteral(prefix: seq<string>, segs: seq<string>)
    requires Literal(prefix)
    ensures Under(ShapeOf(prefix), ShapeOf(segs)) <==> prefix <= segs
  {
    ShapeDepth(prefix);
    ShapeDepth(segs);
    if segs == [] {
      if Under(ShapeOf(prefix), Root) { UnderDepth(ShapeOf(prefix), Root); }
    } else {
      var front := segs[..|segs| - 1];
      UnderLiteral(prefix, front);
      if prefix <= segs && !(prefix <= front) {
        assert prefix == segs;
      }
      if ShapeOf(prefix) == ShapeOf(segs) { LiteralShapeIs(prefix, segs); }
      if prefix <= front { assert prefix <= segs; }
    }
  }

  lemma {:induction false} LiteralShapeIs(prefix: seq<string>, segs: seq<string>)
    requires Literal(prefix) && ShapeOf(prefix) == ShapeOf(segs)
    ensures prefix == segs
  {
    if prefix != [] {
      var n, m := |prefix| - 1, |segs| - 1;
      assert SegOf(prefix[n]) == SegOf(segs[m]);
      LiteralShapeIs(prefix[..n], segs[..m]);
      SliceStep(prefix, n);
      SliceStep(segs, m);
      SliceAll(prefix);
      SliceAll(segs);
    }
  }

  lemma {:induction false} LiteralMatchesItself(prefix: seq<string>, q: seq<string>)
    requires prefix <= q && Literal(prefix)
    ensures Matches(ShapeOf(prefix), q, |prefix|)
  {
    if prefix != [] { LiteralMatchesItself(prefix[..|prefix| - 1], q); }
  }

  // ------------------------------------------------- handlers and names below a prefix

  lemma {:induction false} HandlerBelow(log: seq<Route>, prefix: seq<string>, s: Shape)
    requires Literal(prefix)
    ensures HandlerOf(log, Graft(ShapeOf(prefix), s)) == HandlerOf(Rests(log, prefix), s)
  {
    if log != [] {
      var front, r := log[..|log| - 1], log[|log| - 1];
      var a := ShapeOf(prefix);
      HandlerBelow(front, prefix, s);
      if prefix <= r.segs {
        var rest := r.segs[|prefix|..];
        assert r.segs == prefix + rest;
        ShapeOfAppend(prefix, rest);
        if Graft(a, ShapeOf(rest)) == Graft(a, s) { GraftInjective(a, ShapeOf(rest), s); }
        LogAppend(Rests(front, prefix), Route(rest, r.handler));
      } else {
        UnderLiteral(prefix, r.segs);
        GraftDepth(a, s);
        assert Rests(log, prefix) == Rests(front, prefix);
      }
    }
  }

  lemma {:induction false} NameInBelow(prefix: seq<string>, rest: seq<string>, s: Shape)
    ensures NameIn(prefix + rest, Graft(ShapeOf(prefix), s)) == NameIn(rest, s)
  {
    var a := ShapeOf(prefix);
    if rest == [] {
      assert prefix + rest == prefix;
      if NameIn(prefix, Graft(a, s)).Some? {
        NamedInPath(prefix, Graft(a, s));
        GraftDepth(a, s);
        ShapeDepth(prefix);
      }
    } else {
      var front := rest[..|rest| - 1];
      assert (prefix + rest)[..|prefix + rest| - 1] == prefix + front;
      NameInBelow(prefix, front, s);
      ShapeOfAppend(prefix, front);
      if Graft(a, ShapeOf(front)) == Graft(a, s) { GraftInjective(a, ShapeOf(front), s); }
    }
  }

  lemma {:induction false} NameBelow(log: seq<Route>, prefix: seq<string>, s: Shape)
    requires Literal(prefix)
    ensures NameOf(log, Graft(ShapeOf(prefix), s)) == NameOf(Rests(log, prefix), s)
  {
    if log != [] {
      var front, r := log[..|log| - 1], log[|log| - 1];
      var a := ShapeOf(prefix);
      NameBelow(front, prefix, s);
      if prefix <= r.segs {
        var rest := r.segs[|prefix|..];
        assert r.segs == prefix + rest;
        NameInBelow(prefix, rest, s);
        LogAppend(Rests(front, prefix), Route(rest, r.handler));
      } else {
        UnderLiteral(prefix, r.segs);
        GraftDepth(a, s);
        if NameIn(r.segs, Graft(a, s)).Some? {
          NamedInPath(r.segs, Graft(a, s));
          UnderTrans(a, Graft(a, s), Sub(Graft(a, s), Par));
          UnderTrans(a, Sub(Graft(a, s), Par), ShapeOf(r.segs));
        }
        assert Rests(log, prefix) == Rests(front, prefix);
      }
    }
  }

  lemma {:induction false} BindBelow(log: seq<Route>, prefix: seq<string>, s: Shape, q: seq<string>)
    requires Literal(prefix) && Depth(s) <= |q|
    ensures Depth(Graft(ShapeOf(prefix), s)) <= |prefix + q|
    ensures Bind(log, map[], Root, Graft(ShapeOf(prefix), s), prefix + q)
         == Bind(Rests(log, prefix), map[], Root, s, q)
  {
    var a := ShapeOf(prefix);
    GraftDepth(a, s);
    ShapeDepth(prefix);
    if s == Root {
      BindLiteral(log, prefix, prefix + q);
    } else {
      BindBelow(log, prefix, s.parent, q);
      NameBelow(log, prefix, s.parent);
      GraftDepth(a, s.parent);
    }
  }

  lemma {:induction false} BindLiteral(log: seq<Route>, prefix: seq<string>, q: seq<string>)
    requires Literal(prefix) && |prefix| <= |q|
    ensures Depth(ShapeOf(prefix)) <= |q|
    ensures Bind(log, map[], Root, ShapeOf(prefix), q) == map[]
  {
    ShapeDepth(prefix);
    if prefix != [] { BindLiteral(log, prefix[..|prefix| - 1], q); }
  }

  // ------------------------------------------------- peeling a prefix off a lookup

  /// A literal segment on the way to `s` is what the path has there.
  lemma {:induction false} MatchedLiteral(segs: seq<string>, q: seq<string>, k: nat)
    requires k < |segs| <= |q| && Matches(ShapeOf(segs), q, |segs|) && !IsParam(segs[k])
    ensures q[k] == segs[k]
  {
    if k < |segs| - 1 { MatchedLiteral(segs[..|segs| - 1], q, k); }
  }

  /// Whatever is live and matches stays below the prefix.
  lemma MatchStaysBelow(log: seq<Route>, prefix: seq<string>, q: seq<string>, t: Shape)
    requires Literal(prefix) && NoParamBeside(log, prefix)
    requires Live(log, t) && Matches(t, prefix + q, |prefix + q|)
    ensures Under(ShapeOf(prefix), t)
  {
    LiveRegistered(log, t);
    var r :| r in log && ShapeOf(r.segs) == t;
    MatchDepth(t, prefix + q, |prefix + q|);
    ShapeDepth(r.segs);
    forall k | 0 <= k < |prefix| ensures prefix[k] == r.segs[k] {
      MatchedLiteral(r.segs, prefix + q, k);
    }
    assert prefix <= r.segs;
    UnderLiteral(prefix, r.segs);
  }

  datatype Found = Found(handler: Handler, params: Params)

  /// The part of a lookup that a request sees.
  function FoundIn(log: seq<Route>, q: seq<string>): Option<Found> {
    match Lookup(log, q) case None => None case Some(h) => Some(Found(h.handler, h.params))
  }

  /// What the linear scan comes to for a request: the last handler of the best match, and the
  /// segments bound on the way to it.
  ghost predicate BestFound(log: seq<Route>, q: seq<string>, s: Shape, f: Found) {
    && IsBest(log, q, s) && HandlerOf(log, s) == Some(f.handler)
    && Depth(s) <= |q| && f.params == Bind(log, map[], Root, s, q)
  }

  lemma FoundIsBest(log: seq<Route>, q: seq<string>)
    ensures forall f :: FoundIn(log, q) == Some(f) <==> exists s :: BestFound(log, q, s, f)
    ensures FoundIn(log, q).None? <==> forall s :: Live(log, s) ==> !Matches(s, q, |q|)
  {
    MissIsNoMatch(log, q);
    SearchSound(log, Root, q, 0);
    var r := Search(log, Root, q, 0);
    forall s ensures IsBest(log, q, s) <==> r == Some(s) { LookupIsScan(log, q, s); }
    if r.Some? {
      MatchDepth(r.value, q, |q|);
      assert BestFound(log, q, r.value, FoundIn(log, q).value);
    }
  }

  lemma BestBelow(log: seq<Route>, prefix: seq<string>, q: seq<string>, s: Shape)
    requires Literal(prefix) && NoParamBeside(log, prefix)
    requires IsBest(Rests(log, prefix), q, s)
    ensures IsBest(log, prefix + q, Graft(ShapeOf(prefix), s))
  {
    var a, whole := ShapeOf(prefix), prefix + q;
    LiteralMatchesItself(prefix, whole);
    HandlerBelow(log, prefix, s);
    GraftMatches(a, s, prefix, q, |q|);
    forall t | Live(log, t) && Matches(t, whole, |whole|) ensures t == Graft(a, s) || Beats(Graft(a, s), t) {
      MatchStaysBelow(log, prefix, q, t);
      var u := Ungraft(a, t);
      HandlerBelow(log, prefix, u);
      GraftMatches(a, u, prefix, q, |q|);
      MatchDepth(s, q, |q|);
      MatchDepth(u, q, |q|);
      GraftBeats(a, s, u);
    }
  }

  /// A path that starts with the literal prefix finds what its remainder finds among the
  /// registrations below the prefix.
  lemma Peel(log: seq<Route>, prefix: seq<string>, q: seq<string>)
    requires Literal(prefix) && NoParamBeside(log, prefix)
    ensures FoundIn(log, prefix + q) == FoundIn(Rests(log, prefix), q)
  {
    var a, whole := ShapeOf(prefix), prefix + q;
    var below := Rests(log, prefix);
    var r := Search(below, Root, q, 0);
    SearchSound(below, Root, q, 0);
    if r.Some? {
      LookupIsScan(below, q, r.value);
      BestBelow(log, prefix, q, r.value);
      LookupIsScan(log, whole, Graft(a, r.value));
      HandlerBelow(log, prefix, r.value);
      MatchDepth(r.value, q, |q|);
      BindBelow(log, prefix, r.value, q);
    } else {
      MissIsNoMatch(below, q);
      forall t | Live(log, t) ensures !Matches(t, whole, |whole|) {
        if Matches(t, whole, |whole|) {
          MatchStaysBelow(log, prefix, q, t);
          var u := Ungraft(a, t);
          HandlerBelow(log, prefix, u);
          LiteralMatchesItself(prefix, whole);
          GraftMatches(a, u, prefix, q, |q|);
        }
      }
      MissIsNoMatch(log, whole);
    }
  }
}

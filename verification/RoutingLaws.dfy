// Laws of the lookup: what it binds, what it costs, what it does not depend on,
// and the size and shape of the tree a log of registrations builds.

module RoutingLaws {
  import opened Text
  import opened Routing

  // ------------------------------------------------- reading one more registration

  lemma LogAppend(log: seq<Route>, r: Route)
    ensures (log + [r])[..|log|] == log && (log + [r])[|log|] == r
  {
  }

  // ------------------------------------------------- bindings

  /// Binding on the way down is binding from the top: one level.
  lemma {:induction false} BindStep(log: seq<Route>, m: Params, p: Shape, x: Seg, s: Shape, q: seq<string>)
    requires Under(Sub(p, x), s) && Depth(s) <= |q|
    ensures Depth(p) < |q|
    ensures Bind(log, m, p, s, q)
         == Bind(log, if x.Par? then m[SlotName(log, p) := q[Depth(p)]] else m, Sub(p, x), s, q)
  {
    UnderDepth(Sub(p, x), s);
    if s != Sub(p, x) {
      BindStep(log, m, p, x, s.parent, q);
      UnderDepth(Sub(p, x), s.parent);
    }
  }

  /// A parameter slot called `k` on the way to `s`.
  predicate SlotCalled(log: seq<Route>, a: Shape, s: Shape, k: string) {
    Under(Sub(a, Par), s) && SlotName(log, a) == k
  }

  /// Exactly the names on the path are bound, each to the segment of its deepest slot.
  lemma {:induction false} BindValue(log: seq<Route>, s: Shape, q: seq<string>, k: string)
    requires Depth(s) <= |q|
    ensures var b := Bind(log, map[], Root, s, q);
            k in b <==> exists a :: SlotCalled(log, a, s, k)
    ensures var b := Bind(log, map[], Root, s, q);
            k in b ==> exists a :: SlotCalled(log, a, s, k) && Depth(a) < |q| && b[k] == q[Depth(a)]
                         && forall c :: SlotCalled(log, c, s, k) ==> Depth(c) <= Depth(a)
  {
    if s.Sub? {
      BindValue(log, s.parent, q, k);
      if s.seg.Par? && SlotName(log, s.parent) == k {
        assert SlotCalled(log, s.parent, s, k);
        forall c | SlotCalled(log, c, s, k) ensures Depth(c) <= Depth(s.parent) {
          UnderDepth(Sub(c, Par), s);
        }
      } else {
        forall c ensures SlotCalled(log, c, s, k) <==> SlotCalled(log, c, s.parent, k) {}
      }
    }
  }

  // ------------------------------------------------- independence

  /// The search sees a log only through the handlers of the shapes the path matches.
  lemma SameScan(l1: seq<Route>, l2: seq<Route>, q: seq<string>)
    requires forall s :: Matches(s, q, |q|) ==> HandlerOf(l1, s) == HandlerOf(l2, s)
    ensures Search(l1, Root, q, 0) == Search(l2, Root, q, 0)
  {
    var r1, r2 := Search(l1, Root, q, 0), Search(l2, Root, q, 0);
    if r1.Some? {
      LookupIsScan(l1, q, r1.value);
      LookupIsScan(l2, q, r1.value);
      assert IsBest(l2, q, r1.value);
    } else if r2.Some? {
      LookupIsScan(l1, q, r2.value);
      LookupIsScan(l2, q, r2.value);
      assert IsBest(l1, q, r2.value);
    }
  }

  lemma {:induction false} SameBind(l1: seq<Route>, l2: seq<Route>, m: Params, s: Shape, q: seq<string>)
    requires Depth(s) <= |q|
    requires forall a :: Under(Sub(a, Par), s) ==> NameOf(l1, a) == NameOf(l2, a)
    ensures Bind(l1, m, Root, s, q) == Bind(l2, m, Root, s, q)
  {
    if s.Sub? {
      SameBind(l1, l2, m, s.parent, q);
    }
  }

  lemma SameLookup(l1: seq<Route>, l2: seq<Route>, q: seq<string>)
    requires forall s :: Matches(s, q, |q|) ==> HandlerOf(l1, s) == HandlerOf(l2, s)
    requires forall a, s :: Matches(s, q, |q|) && Live(l1, s) && Under(Sub(a, Par), s)
                            ==> NameOf(l1, a) == NameOf(l2, a)
    ensures Lookup(l1, q) == Lookup(l2, q)
  {
    SameScan(l1, l2, q);
    SearchSound(l1, Root, q, 0);
    var r := Search(l1, Root, q, 0);
    if r.Some? {
      MatchDepth(r.value, q, |q|);
      SameBind(l1, l2, map[], r.value, q);
    }
  }

  // ------------------------------------------------- first name, last handler

  /// The handler of a place is that of the last registration of its shape, null or not.
  lemma {:induction false} LastHandlerWins(log: seq<Route>, i: nat)
    requires i < |log| && forall j :: i < j < |log| ==> ShapeOf(log[j].segs) != ShapeOf(log[i].segs)
    ensures HandlerOf(log, ShapeOf(log[i].segs)) == log[i].handler
  {
    var n := |log| - 1;
    if i < n { LastHandlerWins(log[..n], i); }
  }

  /// The name of a slot is the one the first registration through it gives it.
  lemma {:induction false} FirstNameWins(log: seq<Route>, i: nat, p: Shape)
    requires i < |log| && NameIn(log[i].segs, p).Some?
    requires forall j :: 0 <= j < i ==> NameIn(log[j].segs, p).None?
    ensures NameOf(log, p) == NameIn(log[i].segs, p)
  {
    var n := |log| - 1;
    if i < n {
      FirstNameWins(log[..n], i, p);
    } else {
      NameFromSome(log[..n], p);
      assert NameOf(log[..n], p).None? by {
        forall r | r in log[..n] ensures NameIn(r.segs, p).None? {}
      }
    }
  }

  /// A registration names a slot as its segment there says.
  lemma {:induction false} NameWritten(segs: seq<string>, p: Shape, n: string)
    ensures NameIn(segs, p) == Some(n)
       <==> Depth(p) < |segs| && ShapeOf(segs[..Depth(p)]) == p && segs[Depth(p)] == ":" + n
  {
    if segs != [] {
      var front, last := segs[..|segs| - 1], segs[|segs| - 1];
      ShapeDepth(front);
      NameWritten(front, p, n);
      if Depth(p) < |front| { assert segs[..Depth(p)] == front[..Depth(p)]; }
      if Depth(p) < |segs| { ShapeDepth(segs[..Depth(p)]); }
      if IsParam(last) { assert last == ":" + last[1..]; }
    }
  }

  // ------------------------------------------------- registrations commute

  predicate DistinctShapes(log: seq<Route>) {
    forall i, j :: 0 <= i < j < |log| ==> ShapeOf(log[i].segs) != ShapeOf(log[j].segs)
  }

  lemma {:induction false} HandlerWhenDistinct(log: seq<Route>, s: Shape)
    requires DistinctShapes(log)
    ensures forall r :: r in log && ShapeOf(r.segs) == s ==> HandlerOf(log, s) == r.handler
    ensures (forall r :: r in log ==> ShapeOf(r.segs) != s) ==> HandlerOf(log, s) == None
  {
    if log != [] {
      var front, last := log[..|log| - 1], log[|log| - 1];
      HandlerWhenDistinct(front, s);
      assert log == front + [last];
    }
  }

  lemma {:induction false} OnceWhenDistinct(log: seq<Route>, r: Route)
    requires DistinctShapes(log)
    ensures multiset(log)[r] <= 1
  {
    if log != [] {
      var front, last := log[..|log| - 1], log[|log| - 1];
      OnceWhenDistinct(front, r);
      assert log == front + [last];
      forall i | 0 <= i < |front| ensures front[i] != last {
        assert ShapeOf(log[i].segs) != ShapeOf(log[|log| - 1].segs);
      }
    }
  }

  lemma TwiceInMultiset(log: seq<Route>, i: nat, j: nat)
    requires i < j < |log| && log[i] == log[j]
    ensures multiset(log)[log[i]] >= 2
  {
    assert log == log[..j] + [log[j]] + log[j + 1..];
    assert log[..j][i] == log[i];
  }

  lemma DistinctWhenPermuted(l1: seq<Route>, l2: seq<Route>)
    requires multiset(l1) == multiset(l2) && DistinctShapes(l1)
    ensures DistinctShapes(l2)
  {
    forall i, j | 0 <= i < j < |l2| ensures ShapeOf(l2[i].segs) != ShapeOf(l2[j].segs) {
      assert l2[i] in multiset(l1) && l2[j] in multiset(l1);
      if l2[i] == l2[j] {
        TwiceInMultiset(l2, i, j);
        OnceWhenDistinct(l1, l2[i]);
        assert false;
      } else {
        var a :| 0 <= a < |l1| && l1[a] == l2[i];
        var b :| 0 <= b < |l1| && l1[b] == l2[j];
        assert a < b || b < a;
      }
    }
  }

  /// Two registrations never give one slot two names.
  ghost predicate NamesAgree(log: seq<Route>) {
    forall r, t, p :: r in log && t in log && NameIn(r.segs, p).Some? && NameIn(t.segs, p).Some?
                      ==> NameIn(r.segs, p) == NameIn(t.segs, p)
  }

  lemma {:induction false} NameFromSome(log: seq<Route>, p: Shape)
    ensures NameOf(log, p).Some? ==> exists r :: r in log && NameIn(r.segs, p) == NameOf(log, p)
    ensures forall r :: r in log && NameIn(r.segs, p).Some? ==> NameOf(log, p).Some?
  {
    if log != [] {
      NameFromSome(log[..|log| - 1], p);
      assert log == log[..|log| - 1] + [log[|log| - 1]];
    }
  }

  /// Permuting registrations of distinct shapes changes no lookup's handler, and where the
  /// parameter names agree it changes no lookup at all.
  lemma RegistrationsCommute(l1: seq<Route>, l2: seq<Route>, q: seq<string>)
    requires multiset(l1) == multiset(l2) && DistinctShapes(l1)
    ensures Search(l1, Root, q, 0) == Search(l2, Root, q, 0)
    ensures forall s :: HandlerOf(l1, s) == HandlerOf(l2, s)
    ensures NamesAgree(l1) ==> Lookup(l1, q) == Lookup(l2, q)
  {
    DistinctWhenPermuted(l1, l2);
    assert forall r :: r in l1 <==> r in multiset(l1);
    assert forall r :: r in l2 <==> r in multiset(l2);
    forall s ensures HandlerOf(l1, s) == HandlerOf(l2, s) {
      HandlerWhenDistinct(l1, s);
      HandlerWhenDistinct(l2, s);
    }
    SameScan(l1, l2, q);
    if NamesAgree(l1) {
      forall p ensures NameOf(l1, p) == NameOf(l2, p) {
        NameFromSome(l1, p);
        NameFromSome(l2, p);
      }
      SameLookup(l1, l2, q);
    }
  }

  // ------------------------------------------------- first segments keep apart

  /// The top segment on the way to `s`.
  function Top(s: Shape): Seg
    requires s.Sub?
  {
    if s.parent == Root then s.seg else Top(s.parent)
  }

  lemma {:induction false} TopOfShape(segs: seq<string>)
    requires segs != []
    ensures Top(ShapeOf(segs)) == SegOf(segs[0])
  {
    if |segs| > 1 { TopOfShape(segs[..|segs| - 1]); }
  }

  lemma {:induction false} TopOfMatch(s: Shape, q: seq<string>, n: nat)
    requires n <= |q| && Matches(s, q, n) && s.Sub?
    ensures Top(s) == Par || Top(s) == Lit(q[0])
  {
    if s.parent != Root {
      TopOfMatch(s.parent, q, n - 1);
    } else {
      MatchDepth(s, q, n);
    }
  }

  lemma {:induction false} TopBelow(p: Shape, s: Shape)
    requires p.Sub? && Under(p, s)
    ensures Top(s) == Top(p)
  {
    if p != s { TopBelow(p, s.parent); }
  }

  lemma {:induction false} NameInTop(segs: seq<string>, p: Shape)
    requires NameIn(segs, p).Some?
    ensures segs != [] && (if p == Root then SegOf(segs[0]) == Par else Top(p) == SegOf(segs[0]))
  {
    var front := segs[..|segs| - 1];
    if IsParam(segs[|segs| - 1]) && ShapeOf(front) == p {
      if p != Root { TopOfShape(front); }
    } else {
      NameInTop(front, p);
    }
  }

  /// A registration whose first segment is a literal other than the path's changes nothing.
  lemma OtherTopIsolated(log: seq<Route>, r: Route, q: seq<string>)
    requires r.segs != [] && q != [] && !IsParam(r.segs[0]) && r.segs[0] != q[0]
    ensures Lookup(log + [r], q) == Lookup(log, q)
  {
    LogAppend(log, r);
    var l2 := log + [r];
    forall s | Matches(s, q, |q|) ensures HandlerOf(log, s) == HandlerOf(l2, s) {
      MatchDepth(s, q, |q|);
      TopOfMatch(s, q, |q|);
      TopOfShape(r.segs);
    }
    forall a, s | Matches(s, q, |q|) && Live(log, s) && Under(Sub(a, Par), s)
      ensures NameOf(log, a) == NameOf(l2, a)
    {
      UnderDepth(Sub(a, Par), s);
      TopOfMatch(s, q, |q|);
      TopBelow(Sub(a, Par), s);
      if NameIn(r.segs, a).Some? { NameInTop(r.segs, a); }
    }
    SameLookup(log, l2, q);
  }

  // ------------------------------------------------- the tree a log builds

  lemma {:induction false} PlaceOfSome(log: seq<Route>, p: Shape)
    ensures p in Places(log) <==> p == Root || exists r :: r in log && Under(p, ShapeOf(r.segs))
  {
    if log != [] {
      var front, last := log[..|log| - 1], log[|log| - 1];
      PlaceOfSome(front, p);
      UnderAncestors(p, ShapeOf(last.segs));
      assert log == front + [last];
      if p == Root { RootPlace(log); }
    }
  }

  lemma {:induction false} RootPlace(log: seq<Route>)
    ensures Root in Places(log)
  {
    if log != [] { RootPlace(log[..|log| - 1]); }
  }

  lemma {:induction false} RegisteredIsLive(log: seq<Route>, s: Shape)
    requires forall r :: r in log ==> r.handler.Some?
    ensures Live(log, s) <==> exists r :: r in log && ShapeOf(r.segs) == s
  {
    if log != [] {
      RegisteredIsLive(log[..|log| - 1], s);
      assert log == log[..|log| - 1] + [log[|log| - 1]];
    }
  }

  lemma {:induction false} LiveRegistered(log: seq<Route>, s: Shape)
    requires Live(log, s)
    ensures exists r :: r in log && ShapeOf(r.segs) == s
  {
    var front, r := log[..|log| - 1], log[|log| - 1];
    assert log == front + [r];
    if ShapeOf(r.segs) == s { assert r in log; } else { LiveRegistered(front, s); }
  }

  lemma {:induction false} ChildTowards(p: Shape, s: Shape) returns (x: Seg)
    requires Under(p, s) && p != s
    ensures Under(Sub(p, x), s)
  {
    if s.parent == p { x := s.seg; } else { x := ChildTowards(p, s.parent); }
  }

  /// With non-null handlers, a place with nothing below it (other than an empty root)
  /// carries a handler: no dead branches.
  lemma LeavesAreLive(log: seq<Route>, p: Shape)
    requires forall r :: r in log ==> r.handler.Some?
    requires p in Places(log) && p != Root
    requires forall x :: Sub(p, x) !in Places(log)
    ensures Live(log, p)
  {
    PlaceOfSome(log, p);
    var r :| r in log && Under(p, ShapeOf(r.segs));
    var s := ShapeOf(r.segs);
    if p != s {
      var x := ChildTowards(p, s);
      PlaceOfSome(log, Sub(p, x));
      assert false;
    }
    RegisteredIsLive(log, p);
  }

  /// How far down from the root `s` is already there.
  function Shared(places: set<Shape>, s: Shape): nat {
    if s == Root || s in places then Depth(s) else Shared(places, s.parent)
  }

  lemma {:induction false} NewPlaces(log: seq<Route>, s: Shape)
    ensures |Places(log) + Ancestors(s)| == |Places(log)| + Depth(s) - Shared(Places(log), s)
    ensures forall t :: Under(t, s) ==> (t in Places(log) <==> Depth(t) <= Shared(Places(log), s))
    ensures Shared(Places(log), s) <= Depth(s)
  {
    var places := Places(log);
    if s == Root || s in places {
      if s == Root { RootPlace(log); }
      forall t | Under(t, s) ensures t in places && Depth(t) <= Depth(s) {
        PlacesClosed(log, t, s);
        UnderDepth(t, s);
      }
      forall t | t in Ancestors(s) ensures t in places {
        UnderAncestors(t, s);
      }
      assert places + Ancestors(s) == places;
    } else {
      NewPlaces(log, s.parent);
      var above := places + Ancestors(s.parent);
      UnderAncestors(s, s.parent);
      if Under(s, s.parent) { UnderDepth(s, s.parent); }
      assert places + Ancestors(s) == above + {s};
    }
  }

  lemma {:induction false} ShapeDepth(segs: seq<string>)
    ensures Depth(ShapeOf(segs)) == |segs|
  {
    if segs != [] { ShapeDepth(segs[..|segs| - 1]); }
  }

  /// A registration adds one place for each segment past the longest part already there.
  lemma PlacesAdded(log: seq<Route>, r: Route)
    ensures var k := Shared(Places(log), ShapeOf(r.segs));
            k <= |r.segs| && |Places(log + [r])| == |Places(log)| + |r.segs| - k
  {
    LogAppend(log, r);
    NewPlaces(log, ShapeOf(r.segs));
    ShapeDepth(r.segs);
  }

  // ------------------------------------------------- cost

  function Pow2(n: nat): nat { if n == 0 then 1 else 2 * Pow2(n - 1) }

  lemma {:induction false} CallsExponential(log: seq<Route>, p: Shape, q: seq<string>, i: nat)
    requires i <= |q|
    ensures Calls(log, p, q, i) <= Pow2(|q| - i + 1) - 1
    decreases |q| - i
  {
    if i < |q| {
      CallsExponential(log, Sub(p, Lit(q[i])), q, i + 1);
      CallsExponential(log, Sub(p, Par), q, i + 1);
    }
  }

  /// The places the search looks at.
  function Visited(log: seq<Route>, p: Shape, q: seq<string>, i: nat): set<Shape>
    requires i <= |q|
    decreases |q| - i
  {
    if i == |q| then {p}
    else
      var lit := Sub(p, Lit(q[i]));
      var here := if lit in Places(log) then Visited(log, lit, q, i + 1) else {};
      var found := lit in Places(log) && Search(log, lit, q, i + 1).Some?;
      {p} + here +
      if !found && Sub(p, Par) in Places(log) then Visited(log, Sub(p, Par), q, i + 1) else {}
  }

  lemma {:induction false} VisitedBelow(log: seq<Route>, p: Shape, q: seq<string>, i: nat)
    requires i <= |q| && Depth(p) == i && p in Places(log)
    ensures forall s :: s in Visited(log, p, q, i) ==> Under(p, s) && s in Places(log) && Depth(s) <= |q|
    decreases |q| - i
  {
    if i < |q| {
      var lit, par := Sub(p, Lit(q[i])), Sub(p, Par);
      if lit in Places(log) { VisitedBelow(log, lit, q, i + 1); }
      if par in Places(log) { VisitedBelow(log, par, q, i + 1); }
      forall s | s in Visited(log, p, q, i) ensures Under(p, s) {
        if Under(lit, s) { UnderTrans(p, lit, s); }
        if Under(par, s) { UnderTrans(p, par, s); }
      }
    }
  }

  lemma {:induction false} SiblingsApart(p: Shape, x: Seg, y: Seg, s: Shape)
    requires Under(Sub(p, x), s) && Under(Sub(p, y), s)
    ensures x == y
  {
    if s == Sub(p, x) {
      UnderDepth(Sub(p, y), s);
    } else if s == Sub(p, y) {
      UnderDepth(Sub(p, x), s);
    } else {
      SiblingsApart(p, x, y, s.parent);
    }
  }

  lemma UnionSize<T>(t: T, a: set<T>, b: set<T>)
    requires t !in a && t !in b && a !! b
    ensures |{t} + a + b| == 1 + |a| + |b|
  {
    assert |{t} + a| == 1 + |a|;
  }

  lemma SiblingVisitsApart(log: seq<Route>, p: Shape, x: Seg, y: Seg, q: seq<string>, i: nat)
    requires i + 1 <= |q| && Depth(p) == i && x != y
    requires Sub(p, x) in Places(log) && Sub(p, y) in Places(log)
    ensures Visited(log, Sub(p, x), q, i + 1) !! Visited(log, Sub(p, y), q, i + 1)
  {
    VisitedBelow(log, Sub(p, x), q, i + 1);
    VisitedBelow(log, Sub(p, y), q, i + 1);
    forall s | Under(Sub(p, x), s) ensures !Under(Sub(p, y), s) {
      if Under(Sub(p, y), s) { SiblingsApart(p, x, y, s); }
    }
  }

  lemma ParentNotVisited(log: seq<Route>, p: Shape, x: Seg, q: seq<string>, i: nat)
    requires i + 1 <= |q| && Depth(p) == i && Sub(p, x) in Places(log)
    ensures p !in Visited(log, Sub(p, x), q, i + 1)
  {
    VisitedBelow(log, Sub(p, x), q, i + 1);
    if Under(Sub(p, x), p) { UnderDepth(Sub(p, x), p); }
  }

  /// No place is looked at twice: there are as many calls as places visited.
  lemma {:induction false} CallsAreVisits(log: seq<Route>, p: Shape, q: seq<string>, i: nat)
    requires i <= |q| && Depth(p) == i && p in Places(log)
    ensures |Visited(log, p, q, i)| == Calls(log, p, q, i)
    decreases |q| - i
  {
    if i < |q| {
      var lit, par := Sub(p, Lit(q[i])), Sub(p, Par);
      var here := if lit in Places(log) then Visited(log, lit, q, i + 1) else {};
      var found := lit in Places(log) && Search(log, lit, q, i + 1).Some?;
      var there := if !found && par in Places(log) then Visited(log, par, q, i + 1) else {};
      if lit in Places(log) {
        CallsAreVisits(log, lit, q, i + 1);
        ParentNotVisited(log, p, lit.seg, q, i);
      }
      if par in Places(log) {
        CallsAreVisits(log, par, q, i + 1);
        ParentNotVisited(log, p, par.seg, q, i);
      }
      if lit in Places(log) && par in Places(log) {
        SiblingVisitsApart(log, p, lit.seg, par.seg, q, i);
      }
      UnionSize(p, here, there);
    }
  }

  lemma SubsetSize<T>(a: set<T>, b: set<T>)
    requires a <= b
    ensures |a| <= |b|
  {
    assert b == a + (b - a);
  }

  function ShallowPlaces(log: seq<Route>, n: nat): set<Shape> {
    set s | s in Places(log) && Depth(s) <= n
  }

  /// A lookup never makes more calls than there are places at most as deep as the path.
  lemma CallsBoundedByPlaces(log: seq<Route>, q: seq<string>)
    ensures Calls(log, Root, q, 0) <= |ShallowPlaces(log, |q|)|
    ensures Calls(log, Root, q, 0) <= Pow2(|q| + 1) - 1
  {
    RootPlace(log);
    CallsAreVisits(log, Root, q, 0);
    VisitedBelow(log, Root, q, 0);
    SubsetSize(Visited(log, Root, q, 0), ShallowPlaces(log, |q|));
    CallsExponential(log, Root, q, 0);
  }

  /// The place offers both a literal child for the path's next segment and a parameter child.
  predicate Forks(log: seq<Route>, s: Shape, q: seq<string>) {
    Depth(s) < |q| && Sub(s, Lit(q[Depth(s)])) in Places(log) && Sub(s, Par) in Places(log)
  }

  /// It does, and the literal side has no answer, so that the search tries both.
  predicate MissedFork(log: seq<Route>, s: Shape, q: seq<string>) {
    Forks(log, s, q) && Search(log, Sub(s, Lit(q[Depth(s)])), q, Depth(s) + 1).None?
  }

  /// One step per segment: the search looks at one place of a depth at most.
  ghost predicate OnePerDepth(log: seq<Route>, p: Shape, q: seq<string>, i: nat)
    requires i <= |q|
  {
    forall s, t :: s in Visited(log, p, q, i) && t in Visited(log, p, q, i) && Depth(s) == Depth(t) ==> s == t
  }

  /// The search goes to the child the path names, and to the parameter child if that has no answer.
  lemma {:induction false} ChildVisited(log: seq<Route>, p: Shape, q: seq<string>, i: nat, s: Shape, x: Seg)
    requires i <= |q| && Depth(p) == i && p in Places(log)
    requires s in Visited(log, p, q, i) && Depth(s) < |q| && Sub(s, x) in Places(log)
    requires var lit := Sub(s, Lit(q[Depth(s)]));
             x == Lit(q[Depth(s)])
             || (x == Par && (lit !in Places(log) || Search(log, lit, q, Depth(s) + 1).None?))
    ensures Sub(s, x) in Visited(log, p, q, i)
    decreases |q| - i
  {
    if s == p {
      assert Sub(s, x) in Visited(log, Sub(s, x), q, i + 1);
    } else {
      var lit, par := Sub(p, Lit(q[i])), Sub(p, Par);
      if lit in Places(log) && s in Visited(log, lit, q, i + 1) {
        ChildVisited(log, lit, q, i + 1, s, x);
      } else {
        ChildVisited(log, par, q, i + 1, s, x);
      }
    }
  }

  lemma {:induction false} NoMissedFork(log: seq<Route>, p: Shape, q: seq<string>, i: nat)
    requires i <= |q| && Depth(p) == i && p in Places(log)
    requires forall s :: s in Visited(log, p, q, i) ==> !MissedFork(log, s, q)
    ensures OnePerDepth(log, p, q, i) && Calls(log, p, q, i) <= |q| - i + 1
    decreases |q| - i
  {
    if i < |q| {
      var lit, par := Sub(p, Lit(q[i])), Sub(p, Par);
      assert p in Visited(log, p, q, i) && !MissedFork(log, p, q);
      if lit in Places(log) {
        NoMissedFork(log, lit, q, i + 1);
        OneStepMore(log, p, lit.seg, q, i);
      } else if par in Places(log) {
        NoMissedFork(log, par, q, i + 1);
        OneStepMore(log, p, Par, q, i);
      }
    }
  }

  lemma OneStepMore(log: seq<Route>, p: Shape, x: Seg, q: seq<string>, i: nat)
    requires i < |q| && Depth(p) == i && p in Places(log) && Sub(p, x) in Places(log)
    requires Visited(log, p, q, i) == {p} + Visited(log, Sub(p, x), q, i + 1)
    requires OnePerDepth(log, Sub(p, x), q, i + 1)
    ensures OnePerDepth(log, p, q, i)
  {
    VisitedBelow(log, Sub(p, x), q, i + 1);
    forall s | s in Visited(log, Sub(p, x), q, i + 1) ensures Depth(s) > i { UnderDepth(Sub(p, x), s); }
  }

  /// A lookup takes one step per segment exactly if no fork on its way misses on its literal
  /// side; and then, however large the table, at most one call per segment plus one.
  lemma {:induction false} CallsLinear(log: seq<Route>, p: Shape, q: seq<string>, i: nat)
    requires i <= |q| && Depth(p) == i && p in Places(log)
    ensures OnePerDepth(log, p, q, i) <==> forall s :: s in Visited(log, p, q, i) ==> !MissedFork(log, s, q)
    ensures OnePerDepth(log, p, q, i) ==> Calls(log, p, q, i) <= |q| - i + 1
  {
    if forall s :: s in Visited(log, p, q, i) ==> !MissedFork(log, s, q) {
      NoMissedFork(log, p, q, i);
    } else {
      var s :| s in Visited(log, p, q, i) && MissedFork(log, s, q);
      ChildVisited(log, p, q, i, s, Lit(q[Depth(s)]));
      ChildVisited(log, p, q, i, s, Par);
      assert Depth(Sub(s, Lit(q[Depth(s)]))) == Depth(Sub(s, Par));
    }
  }

  // ------------------------------------------------- tables where every lookup is linear

  /// No place has both a literal and a parameter child.
  ghost predicate ForkFree(log: seq<Route>) {
    forall s, t :: Sub(s, Lit(t)) in Places(log) ==> Sub(s, Par) !in Places(log)
  }

  lemma {:induction false} ShapeLiterals(segs: Segments, s: Shape)
    requires Under(s, ShapeOf(segs)) && s.Sub? && s.seg.Lit?
    ensures IsToken(s.seg.text, '/') && !IsParam(s.seg.text)
  {
    if s != ShapeOf(segs) { ShapeLiterals(segs[..|segs| - 1], s); }
  }

  lemma PlaceLiterals(log: seq<Route>, s: Shape)
    requires s in Places(log) && s.Sub? && s.seg.Lit?
    ensures IsToken(s.seg.text, '/') && !IsParam(s.seg.text)
  {
    PlaceOfSome(log, s);
    var r :| r in log && Under(s, ShapeOf(r.segs));
    ShapeLiterals(r.segs, s);
  }

  /// Segments that lead to `s`: ":" is no literal of any table.
  function WayTo(s: Shape): seq<string> {
    match s
    case Root => []
    case Sub(a, x) => WayTo(a) + [if x.Lit? then x.text else ":"]
  }

  lemma {:induction false} WayTokens(log: seq<Route>, s: Shape)
    requires s in Places(log)
    ensures |WayTo(s)| == Depth(s) && forall i :: 0 <= i < |WayTo(s)| ==> IsToken(WayTo(s)[i], '/')
  {
    if s.Sub? {
      PlacesClosed(log, s.parent, s);
      WayTokens(log, s.parent);
      if s.seg.Lit? { PlaceLiterals(log, s); }
    }
  }

  lemma {:induction false} WayVisited(log: seq<Route>, s: Shape, q: seq<string>)
    requires s in Places(log) && WayTo(s) <= q
    ensures s in Visited(log, Root, q, 0)
  {
    RootPlace(log);
    if s.Sub? {
      var a, lit := s.parent, Sub(s.parent, Lit(":"));
      PlacesClosed(log, a, s);
      WayVisited(log, a, q);
      WayTokens(log, a);
      assert q[Depth(a)] == WayTo(s)[Depth(a)];
      if s.seg.Par? && lit in Places(log) {
        PlaceLiterals(log, lit);
        assert false;
      }
      ChildVisited(log, Root, q, 0, a, s.seg);
    }
  }

  function Deepest(log: seq<Route>): nat {
    if log == [] then 0 else Deepest(log[..|log| - 1]) + |log[|log| - 1].segs|
  }

  lemma {:induction false} PlacesShallow(log: seq<Route>, s: Shape)
    requires s in Places(log)
    ensures Depth(s) <= Deepest(log)
  {
    if log != [] {
      var e := log[|log| - 1];
      if s in Places(log[..|log| - 1]) {
        PlacesShallow(log[..|log| - 1], s);
      } else {
        UnderAncestors(s, ShapeOf(e.segs));
        UnderDepth(s, ShapeOf(e.segs));
        ShapeDepth(e.segs);
      }
    }
  }

  lemma {:induction false} SearchDepth(log: seq<Route>, p: Shape, q: seq<string>, i: nat)
    requires i <= |q| && Depth(p) == i
    ensures var r := Search(log, p, q, i); r.Some? ==> Live(log, r.value) && Depth(r.value) == |q|
    decreases |q| - i
  {
    if i < |q| {
      SearchDepth(log, Sub(p, Lit(q[i])), q, i + 1);
      SearchDepth(log, Sub(p, Par), q, i + 1);
    }
  }

  /// A path longer than the table is deep, through the literal side of a fork.
  lemma ForkMissed(log: seq<Route>, s: Shape, t: string) returns (q: Segments)
    requires Sub(s, Lit(t)) in Places(log) && Sub(s, Par) in Places(log)
    ensures s in Visited(log, Root, q, 0) && MissedFork(log, s, q)
  {
    var lit := Sub(s, Lit(t));
    PlacesClosed(log, s, lit);
    WayTokens(log, lit);
    WayTokens(log, s);
    var tail := seq(Deepest(log), _ => ":");
    q := WayTo(lit) + tail;
    assert WayTo(s) <= WayTo(lit) <= q && q[Depth(s)] == t;
    WayVisited(log, s, q);
    SearchDepth(log, lit, q, Depth(s) + 1);
    var r := Search(log, lit, q, Depth(s) + 1);
    if r.Some? {
      LivePlace(log, r.value);
      PlacesShallow(log, r.value);
      assert false;
    }
  }

  /// Every path of a table is looked up in one step per segment exactly if no place of the table
  /// has both a literal and a parameter child.
  lemma LinearTables(log: seq<Route>)
    ensures (forall q: Segments :: OnePerDepth(log, Root, q, 0)) <==> ForkFree(log)
  {
    RootPlace(log);
    if ForkFree(log) {
      forall q: Segments ensures OnePerDepth(log, Root, q, 0) { CallsLinear(log, Root, q, 0); }
    } else {
      var s, t :| Sub(s, Lit(t)) in Places(log) && Sub(s, Par) in Places(log);
      var q := ForkMissed(log, s, t);
      CallsLinear(log, Root, q, 0);
    }
  }

  // ------------------------------------------------- where a step per segment is not enough

  lemma ShapeOfThree(a: string, b: string, c: string)
    ensures ShapeOf([a, b, c]) == Sub(Sub(Sub(Root, SegOf(a)), SegOf(b)), SegOf(c))
  {
    assert [a, b, c][..2] == [a, b] && [a, b][..1] == [a] && [a][..0] == [];
    assert ShapeOf([a]) == Sub(Root, SegOf(a));
    assert ShapeOf([a, b]) == Sub(ShapeOf([a]), SegOf(b));
  }

  lemma PlacesOfTwo(r1: Route, r2: Route)
    ensures Places([r1, r2]) == {Root} + Ancestors(ShapeOf(r1.segs)) + Ancestors(ShapeOf(r2.segs))
    ensures HandlerOf([r1, r2], ShapeOf(r2.segs)) == r2.handler
  {
    assert [r1, r2][..1] == [r1] && [r1][..0] == [];
    assert Places([r1]) == {Root} + Ancestors(ShapeOf(r1.segs));
  }

  /// Three segments, five calls: both children of "GET:" are tried.
  lemma {:induction false} FiveCallsForThreeSegments()
    ensures var log := [Route(["GET:", "a", "x"], Some(0)), Route(["GET:", ":p", "y"], Some(1))];
            Calls(log, Root, ["GET:", "a", "y"], 0) == 5
  {
    var r1, r2 := Route(["GET:", "a", "x"], Some(0)), Route(["GET:", ":p", "y"], Some(1));
    var log, q := [r1, r2], ["GET:", "a", "y"];
    var g := Sub(Root, Lit("GET:"));
    var a, p := Sub(g, Lit("a")), Sub(g, Par);
    var y := Sub(p, Lit("y"));
    ShapeOfThree("GET:", "a", "x");
    ShapeOfThree("GET:", ":p", "y");
    PlacesOfTwo(r1, r2);
    hide ShapeOf, Places, HandlerOf;
    assert Places(log) == {Root, g, a, Sub(a, Lit("x")), p, y};
    FiveCalls(log, q, g);
  }

  lemma {:induction false} FiveCalls(log: seq<Route>, q: seq<string>, g: Shape)
    requires q == ["GET:", "a", "y"] && g == Sub(Root, Lit("GET:"))
    requires g in Places(log) && Sub(g, Lit("a")) in Places(log) && Sub(g, Par) in Places(log)
    requires Sub(Root, Par) !in Places(log) && Sub(Sub(g, Par), Par) !in Places(log)
    requires forall x: Seg :: x.Par? || x == Lit("y") ==> Sub(Sub(g, Lit("a")), x) !in Places(log)
    requires Sub(Sub(g, Par), Lit("y")) in Places(log) && Live(log, Sub(Sub(g, Par), Lit("y")))
    ensures Calls(log, Root, q, 0) == 5
  {
    hide Places, Live, HandlerOf;
    var a, p := Sub(g, Lit("a")), Sub(g, Par);
    var y := Sub(p, Lit("y"));
    assert Calls(log, a, q, 2) == 1 && Search(log, a, q, 2) == None;
    assert Calls(log, y, q, 3) == 1 && Calls(log, p, q, 2) == 2;
    assert Calls(log, g, q, 1) == 4;
  }

  /// All words of `n` segments, each the literal "a" or a parameter.
  function Words(n: nat): seq<Segments> {
    if n == 0 then [[]] else Longer(Words(n - 1), "a") + Longer(Words(n - 1), ":p")
  }

  function Longer(ws: seq<Segments>, x: string): seq<Segments>
    requires IsToken(x, '/')
  {
    if ws == [] then [] else [ws[0] + [x]] + Longer(ws[1..], x)
  }

  /// Every word of `n` segments, registered with one more segment behind it.
  function Bushy(ws: seq<Segments>): seq<Route> {
    if ws == [] then [] else [Route(ws[0] + ["z"], Some(0))] + Bushy(ws[1..])
  }

  function As(n: nat): Segments { if n == 0 then [] else As(n - 1) + ["a"] }

  predicate OfWords(s: Shape) {
    s.Sub? ==> (s.seg == Par || s.seg == Lit("a")) && OfWords(s.parent)
  }

  lemma {:induction false} LongerHas(ws: seq<Segments>, x: string, w: Segments)
    requires IsToken(x, '/') && w in ws
    ensures w + [x] in Longer(ws, x)
  {
    if ws[0] != w { LongerHas(ws[1..], x, w); }
  }

  lemma {:induction false} BushyHas(ws: seq<Segments>, w: Segments)
    requires w in ws
    ensures Route(w + ["z"], Some(0)) in Bushy(ws)
  {
    if ws[0] != w { BushyHas(ws[1..], w); }
  }

  lemma {:induction false} WordOf(s: Shape) returns (w: Segments)
    requires OfWords(s)
    ensures ShapeOf(w) == s && |w| == Depth(s) && w in Words(|w|)
  {
    if s == Root {
      w := [];
    } else {
      var v := WordOf(s.parent);
      var x := if s.seg.Par? then ":p" else "a";
      w := v + [x];
      assert w[..|w| - 1] == v;
      LongerWord(v, x);
    }
  }

  lemma LongerWord(v: Segments, x: string)
    requires v in Words(|v|) && (x == "a" || x == ":p")
    ensures v + [x] in Words(|v| + 1)
  {
    LongerHas(Words(|v|), x, v);
  }

  lemma {:induction false} LongerLengths(ws: seq<Segments>, x: string, n: nat)
    requires IsToken(x, '/') && forall w :: w in ws ==> |w| == n
    ensures forall w :: w in Longer(ws, x) ==> |w| == n + 1
  {
    if ws != [] { LongerLengths(ws[1..], x, n); }
  }

  lemma BothLengths(ws: seq<Segments>, n: nat)
    requires forall w :: w in ws ==> |w| == n
    ensures forall w :: w in Longer(ws, "a") + Longer(ws, ":p") ==> |w| == n + 1
  {
    LongerLengths(ws, "a", n);
    LongerLengths(ws, ":p", n);
  }

  lemma WordsUnfold(n: nat)
    ensures Words(n) == if n == 0 then [[]] else Longer(Words(n - 1), "a") + Longer(Words(n - 1), ":p")
  {
  }

  lemma {:induction false} WordLengths(n: nat)
    ensures forall w :: w in Words(n) ==> |w| == n
  {
    WordsUnfold(n);
    hide Words, Longer;
    if n > 0 {
      WordLengths(n - 1);
      BothLengths(Words(n - 1), n - 1);
    }
  }

  lemma {:induction false} BushyLengths(ws: seq<Segments>, n: nat)
    requires forall w :: w in ws ==> |w| == n
    ensures forall r :: r in Bushy(ws) ==> |r.segs| == n + 1
  {
    if ws != [] { BushyLengths(ws[1..], n); }
  }

  lemma {:induction false} BushyPlaces(n: nat, s: Shape)
    requires OfWords(s) && Depth(s) <= n
    ensures s in Places(Bushy(Words(n)))
    decreases n - Depth(s)
  {
    if Depth(s) == n {
      var w := WordOf(s);
      BushyHas(Words(n), w);
      var r := Route(w + ["z"], Some(0));
      assert r.segs[..n] == w;
      PlaceOfSome(Bushy(Words(n)), s);
    } else {
      BushyPlaces(n, Sub(s, Par));
      PlacesClosed(Bushy(Words(n)), s, Sub(s, Par));
    }
  }

  ghost predicate FullTo(log: seq<Route>, n: nat) {
    forall s :: OfWords(s) && Depth(s) <= n ==> s in Places(log)
  }

  lemma FullChildren(log: seq<Route>, n: nat, p: Shape)
    requires FullTo(log, n) && OfWords(p) && Depth(p) < n
    ensures Sub(p, Lit("a")) in Places(log) && Sub(p, Par) in Places(log)
    ensures OfWords(Sub(p, Lit("a"))) && OfWords(Sub(p, Par))
  {
    assert OfWords(Sub(p, Lit("a"))) && OfWords(Sub(p, Par));
  }

  /// With all literal and parameter children in place and no handler at the depth of the path,
  /// the search tries everything.
  lemma {:induction false} AllTried(log: seq<Route>, n: nat, p: Shape, q: seq<string>, i: nat)
    requires i <= |q| == n && Depth(p) == i && OfWords(p)
    requires forall j :: 0 <= j < n ==> q[j] == "a"
    requires FullTo(log, n) && forall s :: Depth(s) == n ==> !Live(log, s)
    ensures Search(log, p, q, i).None? && Calls(log, p, q, i) == Pow2(n - i + 1) - 1
    decreases n - i
  {
    hide FullTo, OfWords, Places, HandlerOf;
    if i < n {
      FullChildren(log, n, p);
      AllTried(log, n, Sub(p, Lit("a")), q, i + 1);
      AllTried(log, n, Sub(p, Par), q, i + 1);
    }
  }

  lemma {:induction false} AsEach(n: nat)
    ensures |As(n)| == n && forall i :: 0 <= i < n ==> As(n)[i] == "a"
  {
    if n > 0 { AsEach(n - 1); }
  }

  lemma BushyNotLive(n: nat, s: Shape)
    requires Depth(s) == n
    ensures !Live(Bushy(Words(n)), s)
  {
    hide Words, Bushy;
    var log := Bushy(Words(n));
    WordLengths(n);
    BushyLengths(Words(n), n);
    if Live(log, s) {
      LiveRegistered(log, s);
      var r :| r in log && ShapeOf(r.segs) == s;
      ShapeDepth(r.segs);
      assert false;
    }
  }

  /// For every length some table and path reach the exponential bound on calls, so that the
  /// bound cannot be improved.
  lemma {:induction false} WorstCase(n: nat)
    ensures |As(n)| == n && Calls(Bushy(Words(n)), Root, As(n), 0) == Pow2(n + 1) - 1
  {
    hide Words, Bushy, Places, HandlerOf;
    AsEach(n);
    forall s | OfWords(s) && Depth(s) <= n ensures s in Places(Bushy(Words(n))) { BushyPlaces(n, s); }
    forall s | Depth(s) == n ensures !Live(Bushy(Words(n)), s) { BushyNotLive(n, s); }
    AllTried(Bushy(Words(n)), n, Root, As(n), 0);
  }
}

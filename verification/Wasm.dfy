// The WebAssembly contract: route ids, the flat pattern list, and the trie,
// kept in step over every sequence of register, dispatch and reset calls.

module Wasm {
  import opened Text
  import opened Routing
  import opened TrieModel
  import opened Registry

  datatype Registration = Registered(routeId: nat) | Duplicate(existing: nat) | Rejected(error: string)

  datatype Answer = Matched(routeId: int, pattern: string, params: Params) | Unmatched

  datatype Pair = Pair(method_: string, pattern: string)

  function RouteKey(p: Pair): string { p.method_ + " " + p.pattern }

  predicate Acceptable(p: Pair) { p.method_ != "" && p.pattern != "" && p.pattern[0] == '/' }

  /// The stub handler of route `id` is known by its id.
  predicate InStep(pairs: seq<Pair>, patterns: seq<string>, log: seq<Route>) {
    && |patterns| == |pairs| == |log|
    && (forall i :: 0 <= i < |pairs| ==> Acceptable(pairs[i]) && patterns[i] == RouteKey(pairs[i]))
    && (forall i :: 0 <= i < |pairs| ==> log[i] == RouteOf(Entry(pairs[i].method_, pairs[i].pattern, Some(i))))
  }

  predicate NoDuplicates(patterns: seq<string>) {
    forall i, j :: 0 <= i < j < |patterns| ==> patterns[i] != patterns[j]
  }

  /// Entry `id` is the most specific match for the path, and no later entry has its shape.
  ghost predicate Wins(log: seq<Route>, q: seq<string>, id: nat) {
    && id < |log|
    && IsBest(log, q, ShapeOf(log[id].segs))
    && forall j :: id < j < |log| ==> ShapeOf(log[j].segs) != ShapeOf(log[id].segs)
  }

  class State {
    var registry: RouteRegistry
    var patterns: seq<string>
    var lastRouteId: int
    ghost var pairs: seq<Pair>

    ghost predicate Valid()
      reads this, registry, registry.trie, registry.trie.nodes.Values
    {
      && registry.Valid()
      && InStep(pairs, patterns, registry.trie.log)
      && NoDuplicates(patterns)
    }

    constructor ()
      ensures Valid() && patterns == [] && pairs == [] && lastRouteId == -1
      ensures fresh(registry) && fresh(registry.trie) && fresh(registry.trie.nodes.Values)
    {
      registry := new RouteRegistry();
      patterns, pairs, lastRouteId := [], [], -1;
    }

    method Reset()
      modifies this
      ensures Valid() && patterns == [] && pairs == [] && lastRouteId == -1
      ensures fresh(registry) && fresh(registry.trie) && fresh(registry.trie.nodes.Values)
    {
      registry := new RouteRegistry();
      patterns, pairs := [], [];
      lastRouteId := -1;
    }

    /// The position of `key` in the pattern list.
    method FindPattern(key: string) returns (found: Option<nat>)
      ensures found.Some? ==> found.value < |patterns| && patterns[found.value] == key
      ensures found.None? ==> key !in patterns
    {
      var i := 0;
      while i < |patterns|
        invariant i <= |patterns| && key !in patterns[..i]
      {
        if patterns[i] == key {
          return Some(i);
        }
        i := i + 1;
      }
      return None;
    }

    method RegisterRoute(method_: Option<string>, pattern: Option<string>) returns (r: Registration)
      requires Valid()
      modifies this`patterns, this`pairs, registry.trie, registry.trie.nodes.Values
      ensures Valid() && fresh(registry.trie.nodes.Values - old(registry.trie.nodes.Values))
      ensures r.Rejected? <==>
                !(method_.Some? && pattern.Some? && Acceptable(Pair(method_.value, pattern.value)))
      ensures r.Rejected? ==>
                r.error == if OrEmpty(method_) == "" then "method is empty" else "pattern must start with '/'"
      ensures r.Duplicate? ==>
                r.existing < |old(patterns)| && old(patterns)[r.existing] == RouteKey(Pair(method_.value, pattern.value))
      ensures r.Registered? ==>
                && r.routeId == |old(patterns)|
                && RouteKey(Pair(method_.value, pattern.value)) !in old(patterns)
                && pairs == old(pairs) + [Pair(method_.value, pattern.value)]
      ensures !r.Registered? ==>
                pairs == old(pairs) && patterns == old(patterns) && registry.trie.log == old(registry.trie.log)
    {
      hide RouteRegistry.Valid, InStep, NoDuplicates, RouteOf;
      if method_.None? || method_.value == "" {
        return Rejected("method is empty");
      }
      if pattern.None? || pattern.value == "" || pattern.value[0] != '/' {
        return Rejected("pattern must start with '/'");
      }
      ghost var pair := Pair(method_.value, pattern.value);
      var key := method_.value + " " + pattern.value;
      var found := FindPattern(key);
      if found.Some? {
        return Duplicate(found.value);
      }
      var id := |patterns|;
      OneMore(pairs, patterns, registry.trie.log, pair);
      patterns := patterns + [key];
      pairs := pairs + [pair];
      registry.Register(method_.value, pattern.value, Some(id));
      return Registered(id);
    }

    method DispatchPath(method_: Option<string>, path: Option<string>) returns (r: Answer)
      requires Valid()
      modifies this`lastRouteId
      ensures Valid()
      ensures var q := PathSegments(Key(OrEmpty(method_), OrEmpty(path)));
              && (r.Unmatched? <==> forall s :: Live(registry.trie.log, s) ==> !Matches(s, q, |q|))
              && (r.Matched? ==>
                    && 0 <= r.routeId < |patterns|
                    && Wins(registry.trie.log, q, r.routeId)
                    && r.pattern == patterns[r.routeId]
                    && Lookup(registry.trie.log, q).Some?
                    && r.params == Lookup(registry.trie.log, q).value.params)
      ensures lastRouteId == if r.Matched? then r.routeId else -1
    {
      hide RouteRegistry.Valid, InStep, NoDuplicates, PathSegments, Wins;
      var req := new HttpRequest(OrEmpty(method_), OrEmpty(path));
      lastRouteId := -1;
      var handler := registry.GetHandler(req);
      ghost var q := PathSegments(Key(req.method_, req.path));
      MissIsNoMatch(registry.trie.log, q);
      if handler.None? {
        return Unmatched;
      }
      WinnerIsLast(pairs, patterns, registry.trie.log, q);
      lastRouteId := handler.value;
      return Matched(lastRouteId, patterns[lastRouteId], req.params);
    }
  }

  lemma OneMore(pairs: seq<Pair>, patterns: seq<string>, log: seq<Route>, p: Pair)
    requires InStep(pairs, patterns, log) && NoDuplicates(patterns)
    requires Acceptable(p) && RouteKey(p) !in patterns
    ensures |patterns| == |pairs| == |log|
    ensures InStep(pairs + [p], patterns + [RouteKey(p)],
                   log + [RouteOf(Entry(p.method_, p.pattern, Some(|patterns|)))])
    ensures NoDuplicates(patterns + [RouteKey(p)])
  {
  }

  function OrEmpty(s: Option<string>): string { if s.Some? then s.value else "" }

  lemma {:induction false} LastOfShape(log: seq<Route>, s: Shape)
    requires forall i :: 0 <= i < |log| ==> log[i].handler == Some(i)
    requires Live(log, s)
    ensures var id := HandlerOf(log, s).value;
            id < |log| && ShapeOf(log[id].segs) == s && forall j :: id < j < |log| ==> ShapeOf(log[j].segs) != s
  {
    var n := |log| - 1;
    if ShapeOf(log[n].segs) != s {
      LastOfShape(log[..n], s);
    }
  }

  lemma WinnerIsLast(pairs: seq<Pair>, patterns: seq<string>, log: seq<Route>, q: seq<string>)
    requires InStep(pairs, patterns, log) && Lookup(log, q).Some?
    ensures Wins(log, q, Lookup(log, q).value.handler)
    ensures Lookup(log, q).value.handler < |patterns|
  {
    var h := Lookup(log, q).value;
    SearchSound(log, Root, q, 0);
    LookupIsScan(log, q, h.shape);
    LastOfShape(log, h.shape);
  }

  /// Two different methods can share a key exactly if one goes on from the other with " /".
  predicate Confusable(m: string, k: string) { m + " /" <= k || k + " /" <= m }

  lemma KeysMeet(m: string, k: string)
    requires m != "" && k != "" && m != k
    ensures Confusable(m, k)
       <==> exists p, q :: Acceptable(Pair(m, p)) && Acceptable(Pair(k, q)) && RouteKey(Pair(m, p)) == RouteKey(Pair(k, q))
  {
    if m + " /" <= k {
      var p, q := MeetingPatterns(m, k);
      assert Acceptable(Pair(m, p)) && Acceptable(Pair(k, q)) && RouteKey(Pair(m, p)) == RouteKey(Pair(k, q));
    } else if k + " /" <= m {
      var q, p := MeetingPatterns(k, m);
      assert Acceptable(Pair(m, p)) && Acceptable(Pair(k, q)) && RouteKey(Pair(m, p)) == RouteKey(Pair(k, q));
    }
    forall p, q | Acceptable(Pair(m, p)) && Acceptable(Pair(k, q)) && RouteKey(Pair(m, p)) == RouteKey(Pair(k, q))
      ensures Confusable(m, k)
    {
      if |m| <= |k| { GoesOn(m, p, k, q); } else { GoesOn(k, q, m, p); }
    }
  }

  lemma MeetingPatterns(m: string, k: string) returns (p: string, q: string)
    requires m != "" && m + " /" <= k
    ensures Acceptable(Pair(m, p)) && Acceptable(Pair(k, q)) && RouteKey(Pair(m, p)) == RouteKey(Pair(k, q))
  {
    var rest := k[|m| + 2..];
    assert k == m + " /" + rest;
    p, q := "/" + rest + " /", "/";
    assert m + " " + p == k + " " + q;
  }

  lemma GoesOn(m: string, p: string, k: string, q: string)
    requires |m| <= |k| && m != k && p != "" && p[0] == '/'
    requires m + " " + p == k + " " + q
    ensures m + " /" <= k
  {
    var key := m + " " + p;
    assert key[..|m|] == m && key[..|k|] == k && key[|k|] == ' ';
    assert k[..|m|] == key[..|m|];
    assert key[|m|] == ' ' && key[|m| + 1] == '/';
    assert |k| > |m| && |k| != |m| + 1;
    assert k[|m|] == ' ' && k[|m| + 1] == '/';
  }

  /// A key in the list identifies its route among the routes of methods that are not confusable,
  /// as methods without spaces never are.
  lemma KeyIdentifies(a: Pair, b: Pair)
    requires Acceptable(a) && Acceptable(b)
    ensures !Confusable(a.method_, b.method_) ==> (RouteKey(a) == RouteKey(b) <==> a == b)
    ensures ' ' !in a.method_ && ' ' !in b.method_ ==> !Confusable(a.method_, b.method_)
  {
    var m, k := a.method_, b.method_;
    assert a == Pair(m, a.pattern) && b == Pair(k, b.pattern);
    if m != k {
      KeysMeet(m, k);
    } else if RouteKey(a) == RouteKey(b) {
      assert RouteKey(a)[|m| + 1..] == a.pattern && RouteKey(b)[|m| + 1..] == b.pattern;
    }
    assert (m + " /")[|m|] == ' ' && (k + " /")[|k|] == ' ';
  }

  /// With a space in a method name two different routes can share a key.
  lemma SpacesConfuse() returns (a: Pair, b: Pair)
    ensures Acceptable(a) && Acceptable(b) && a != b && RouteKey(a) == RouteKey(b)
  {
    a, b := Pair("A", "/b /c"), Pair("A /b", "/c");
    assert |a.method_| != |b.method_|;
    assert RouteKey(a) == "A /b /c" == RouteKey(b);
  }
}

// The routing trie: nodes on the heap, mutated by insert, searched with
// undoable bindings. A ghost log records every registration; Valid() says the
// node graph is exactly the tree of Routing.Places(log), and each operation is
// specified by what it does to the log.

module TrieModel {
  import opened Text
  import opened Routing
  import opened RoutingLaws

  class Node {
    const value: string
    const isParameter: bool
    const parameterName: string
    var isLeaf: bool
    var children: map<string, Node>
    var paramChild: Node?
    var handler: Option<Handler>
    ghost const place: Shape   // where in the tree this node was made

    constructor Empty()
      ensures place == Root
      ensures value == "" && !isParameter && parameterName == ""
      ensures isLeaf && children == map[] && paramChild == null && handler == None
    {
      place := Root;
      value, isParameter, parameterName := "", false, "";
      isLeaf, children, paramChild, handler := true, map[], null, None;
    }

    constructor (v: string, ghost p: Shape)
      ensures place == p
      ensures value == v && isParameter == IsParam(v)
      ensures parameterName == if IsParam(v) then v[1..] else ""
      ensures !isLeaf && children == map[] && paramChild == null && handler == None
    {
      place := p;
      value, isParameter := v, IsParam(v);
      parameterName := if IsParam(v) then v[1..] else "";
      isLeaf, children, paramChild, handler := false, map[], null, None;
    }
  }

  /// The std::map the search binds into, passed by reference.
  class ParamMap {
    var entries: Params
    constructor ()
      ensures entries == map[]
    {
      entries := map[];
    }
  }

  /// A node knows its place, and its own fields spell the last segment of it.
  ghost predicate Labelled(p: Shape, n: Node) {
    n.place == p &&
    match p
    case Root => n.value == ""
    case Sub(_, Lit(t)) => n.value == t && !n.isParameter && IsToken(t, '/') && !IsParam(t)
    case Sub(_, Par) => n.isParameter && n.value == [':'] + n.parameterName
  }

  /// Every place but the root's has its parent's place above it, and its own node.
  ghost predicate Placed(nodes: map<Shape, Node>, root: Node) {
    && Root in nodes && nodes[Root] == root
    && (forall p :: p in nodes && p.Sub? ==> p.parent in nodes)
    && (forall p :: p in nodes ==> Labelled(p, nodes[p]))
  }

  /// These child pointers, at `p`, lead to the nodes at the places below it.
  ghost predicate Leads(nodes: map<Shape, Node>, p: Shape, children: map<string, Node>, paramChild: Node?) {
    && (forall t :: t in children ==>
          Sub(p, Lit(t)) in nodes && children[t] == nodes[Sub(p, Lit(t))])
    && (forall t :: Sub(p, Lit(t)) in nodes ==> t in children)
    && (if paramChild == null then Sub(p, Par) !in nodes
        else Sub(p, Par) in nodes && paramChild == nodes[Sub(p, Par)])
  }

  ghost predicate Linked(nodes: map<Shape, Node>, p: Shape, n: Node)
    reads n`children, n`paramChild
  {
    Leads(nodes, p, n.children, n.paramChild)
  }

  lemma OnePlaceEach(nodes: map<Shape, Node>, root: Node)
    requires Placed(nodes, root)
    ensures forall p :: p in nodes ==> nodes[p].place == p
  {
  }

  /// Adding a place changes the pointers of its parent only.
  lemma LeadsElsewhere(nodes: map<Shape, Node>, p: Shape, x: Seg, child: Node, q: Shape,
                       children: map<string, Node>, paramChild: Node?)
    requires Leads(nodes, q, children, paramChild) && q != p
    ensures Leads(nodes[Sub(p, x) := child], q, children, paramChild)
  {
  }

  lemma LeadsNowhere(nodes: map<Shape, Node>, root: Node, p: Shape, x: Seg, child: Node)
    requires Placed(nodes, root) && Sub(p, x) !in nodes
    ensures Leads(nodes[Sub(p, x) := child], Sub(p, x), map[], null)
  {
    var c := Sub(p, x);
    assert forall z: Shape :: z in nodes && z.Sub? ==> z.parent != c;
    forall y ensures Sub(c, y) !in nodes[c := child] {
      assert Depth(Sub(c, y)) == Depth(c) + 1 && Sub(c, y).parent == c;
    }
  }

  lemma LeadsToLiteral(nodes: map<Shape, Node>, p: Shape, t: string, child: Node,
                       children: map<string, Node>, paramChild: Node?)
    requires Leads(nodes, p, children, paramChild)
    ensures Leads(nodes[Sub(p, Lit(t)) := child], p, children[t := child], paramChild)
  {
  }

  lemma LeadsToParam(nodes: map<Shape, Node>, p: Shape, child: Node, children: map<string, Node>)
    requires Leads(nodes, p, children, null)
    ensures Leads(nodes[Sub(p, Par) := child], p, children, child)
  {
  }

  lemma PlacedMore(nodes: map<Shape, Node>, root: Node, p: Shape, segment: string, child: Node)
    requires Placed(nodes, root) && p in nodes && (IsParam(segment) || IsToken(segment, '/'))
    requires child.place == Sub(p, SegOf(segment)) && child.value == segment
    requires child.isParameter == IsParam(segment)
    requires child.parameterName == if IsParam(segment) then segment[1..] else ""
    ensures Placed(nodes[Sub(p, SegOf(segment)) := child], root)
  {
    var c := Sub(p, SegOf(segment));
    assert Labelled(c, child);
    forall q | q in nodes ensures Labelled(q, nodes[q]) {}
  }

  class Trie {
    const root: Node
    ghost var nodes: map<Shape, Node>
    ghost var log: seq<Route>

    /// The nodes form a tree with this root.
    ghost predicate Tree()
      reads this, nodes.Values
    {
      && Placed(nodes, root)
      && (forall p :: p in nodes ==> Linked(nodes, p, nodes[p]))
    }

    /// The log's tree, with the path `segs` of a registration under way added to it.
    ghost predicate Building(segs: seq<string>)
      reads this, nodes.Values
    {
      && Tree()
      && nodes.Keys == Places(log) + Ancestors(ShapeOf(segs))
      && (forall p :: p in nodes ==> nodes[p].handler == HandlerOf(log, p))
      && (forall p :: Sub(p, Par) in nodes ==>
            NameSoFar(log, segs, p) == Some(nodes[Sub(p, Par)].parameterName))
    }

    ghost predicate Valid()
      reads this, nodes.Values
    {
      && Tree()
      && nodes.Keys == Places(log)
      && (forall p :: p in nodes ==> nodes[p].handler == HandlerOf(log, p))
      && (forall p :: Sub(p, Par) in nodes ==> NameOf(log, p) == Some(nodes[Sub(p, Par)].parameterName))
    }

    constructor ()
      ensures Valid() && log == []
      ensures fresh(nodes.Values)
    {
      var n := new Node.Empty();
      root := n;
      nodes := map[Root := n];
      log := [];
    }

    method AddParamChild(node: Node, segment: string, ghost p: Shape) returns (child: Node)
      requires Tree() && p in nodes && nodes[p] == node
      requires IsParam(segment) && node.paramChild == null && Sub(p, Par) !in nodes
      modifies this`nodes, node`paramChild, node`isLeaf
      ensures Tree() && node.paramChild == child && fresh(child)
      ensures nodes == old(nodes)[Sub(p, Par) := child]
      ensures child.handler == None && child.parameterName == segment[1..]
    {
      hide Placed, Leads, IsToken;
      assert Linked(nodes, p, node);
      child := new Node(segment, Sub(p, Par));
      ghost var grown := nodes[Sub(p, Par) := child];
      PlacedMore(nodes, root, p, segment, child);
      LeadsNowhere(nodes, root, p, Par, child);
      LeadsToParam(nodes, p, child, node.children);
      OthersLead(p, Par, child);
      node.paramChild := child;
      node.isLeaf := false;
      nodes := grown;
    }

    /// Every other node still leads to its children when a place is added below `p`.
    lemma OthersLead(p: Shape, x: Seg, child: Node)
      requires Tree() && p in nodes && Sub(p, x) !in nodes
      ensures forall q :: q in nodes && q != p ==>
                Leads(nodes[Sub(p, x) := child], q, nodes[q].children, nodes[q].paramChild)
      ensures forall q :: q in nodes && q != p ==> nodes[q] != nodes[p]
    {
      OnePlaceEach(nodes, root);
      forall q | q in nodes && q != p
        ensures Leads(nodes[Sub(p, x) := child], q, nodes[q].children, nodes[q].paramChild)
      {
        assert Linked(nodes, q, nodes[q]);
        LeadsElsewhere(nodes, p, x, child, q, nodes[q].children, nodes[q].paramChild);
      }
    }

    method AddLiteralChild(node: Node, segment: string, ghost p: Shape) returns (child: Node)
      requires Tree() && p in nodes && nodes[p] == node
      requires IsToken(segment, '/') && !IsParam(segment) && Sub(p, Lit(segment)) !in nodes
      modifies this`nodes, node`children, node`isLeaf
      ensures Tree() && fresh(child) && child.handler == None
      ensures nodes == old(nodes)[Sub(p, Lit(segment)) := child]
    {
      hide Placed, Leads, IsToken;
      assert Linked(nodes, p, node);
      child := new Node(segment, Sub(p, Lit(segment)));
      ghost var grown := nodes[Sub(p, Lit(segment)) := child];
      PlacedMore(nodes, root, p, segment, child);
      LeadsNowhere(nodes, root, p, Lit(segment), child);
      LeadsToLiteral(nodes, p, segment, child, node.children, node.paramChild);
      OthersLead(p, Lit(segment), child);
      node.children := node.children[segment := child];
      node.isLeaf := false;
      nodes := grown;
    }

    /// Returns the child for `segment`, adding it if it is missing.
    method InsertChild(node: Node, segment: string, ghost p: Shape) returns (child: Node)
      requires Tree() && p in nodes && nodes[p] == node
      requires '/' !in segment
      modifies this`nodes, node`children, node`paramChild, node`isLeaf
      ensures Tree()
      ensures segment == "" ==> child == node && nodes == old(nodes)
      ensures segment != "" ==>
                var c := Sub(p, SegOf(segment));
                && nodes == old(nodes)[c := child]
                && (c !in old(nodes) ==>
                      fresh(child) && child.handler == None && (IsParam(segment) ==> child.parameterName == segment[1..]))
                && (c in old(nodes) ==> child == old(nodes)[c])
    {
      if segment == "" {
        return node;
      }
      assert Linked(nodes, p, node);
      if segment[0] == ':' {
        if node.paramChild == null {
          child := AddParamChild(node, segment, p);
        }
        return node.paramChild;
      }
      if segment in node.children {
        return node.children[segment];
      }
      child := AddLiteralChild(node, segment, p);
    }

    /// One turn of the insert loop.
    method Descend(node: Node, segment: string, ghost segs: seq<string>) returns (child: Node)
      requires Building(segs) && ShapeOf(segs) in nodes && nodes[ShapeOf(segs)] == node
      requires IsToken(segment, '/')
      modifies this`nodes, node`children, node`paramChild, node`isLeaf
      ensures Building(segs + [segment])
      ensures ShapeOf(segs + [segment]) in nodes && nodes[ShapeOf(segs + [segment])] == child
      ensures fresh(nodes.Values - old(nodes.Values))
      ensures forall p :: p in old(nodes) ==> p in nodes && nodes[p] == old(nodes)[p]
    {
      hide Placed, Leads;
      ghost var p := ShapeOf(segs);
      assert (segs + [segment])[..|segs|] == segs;
      UnplacedIsDead(log, Sub(p, SegOf(segment)));
      SlotStep(log, segs, segment);
      child := InsertChild(node, segment, p);
    }

    method SetHandler(node: Node, func: Option<Handler>, ghost segs: Segments)
      requires Building(segs) && ShapeOf(segs) in nodes && nodes[ShapeOf(segs)] == node
      modifies this`log, node`isLeaf, node`handler
      ensures Valid() && log == old(log) + [Route(segs, func)]
    {
      hide NameOf, HandlerOf, Places, Ancestors, NameSoFar, ShapeOf, Placed;
      OnePlaceEach(nodes, root);
      node.isLeaf := true;
      node.handler := func;
      LogExtended(log, Route(segs, func));
      log := log + [Route(segs, func)];
    }

    lemma StartBuilding()
      requires Valid()
      ensures Building([]) && ShapeOf([]) in nodes && nodes[ShapeOf([])] == root
    {
      RootPlace(log);
    }

    /// Node::insert: walks or builds the path of `path` from the root and sets the handler.
    method Insert(path: string, func: Option<Handler>) returns (node: Node)
      requires Valid()
      modifies this, nodes.Values
      ensures Valid() && fresh(nodes.Values - old(nodes.Values))
      ensures log == old(log) + [Route(PathSegments(path), func)]
      ensures var s := ShapeOf(PathSegments(path)); s in nodes && node == nodes[s]
      ensures forall p :: p in old(nodes) ==> p in nodes && nodes[p] == old(nodes)[p]
    {
      hide Building, Valid, PathSegments, ShapeOf;
      var segments: Segments := SplitPath(path);
      node := root;
      StartBuilding();
      var i := 0;
      while i < |segments|
        invariant i <= |segments| && log == old(log)
        invariant Building(segments[..i]) && fresh(nodes.Values - old(nodes.Values))
        invariant ShapeOf(segments[..i]) in nodes && node == nodes[ShapeOf(segments[..i])]
        invariant forall p :: p in old(nodes) ==> p in nodes && nodes[p] == old(nodes)[p]
      {
        SliceStep(segments, i);
        node := Descend(node, segments[i], segments[..i]);
        i := i + 1;
      }
      SliceAll(segments);
      SetHandler(node, func, segments);
    }

    /// What the search reads at one node.
    lemma AtPlace(p: Shape)
      requires Valid() && p in nodes
      ensures Linked(nodes, p, nodes[p]) && nodes[p].handler == HandlerOf(log, p)
      ensures nodes.Keys == Places(log)
      ensures Sub(p, Par) in nodes ==> SlotName(log, p) == nodes[Sub(p, Par)].parameterName
    {
    }

    /// Node::findFrom. On a hit `params` holds the entry map updated along the path to the
    /// node found; on a miss it is back to what it was.
    method FindFrom(node: Node, segments: seq<string>, index: nat, params: ParamMap, ghost p: Shape)
      returns (hit: Node?, ghost calls: nat)
      requires Valid() && p in nodes && nodes[p] == node
      requires index <= |segments| && Matches(p, segments, index)
      modifies params
      ensures calls == Calls(log, p, segments, index)
      ensures (hit == null) == Search(log, p, segments, index).None?
      ensures hit == null ==> params.entries == old(params.entries)
      ensures hit != null ==>
                var s := Search(log, p, segments, index).value;
                && s in nodes && hit == nodes[s] && hit.handler == HandlerOf(log, s)
                && Depth(s) == |segments|
                && params.entries == Bind(log, old(params.entries), p, s, segments)
      decreases |segments| - index
    {
      hide Valid, Matches, Depth, Bind, NameOf, HandlerOf, Places;
      calls := 1;
      AtPlace(p);
      MatchDepth(p, segments, index);
      SearchHit(log, p, segments, index);
      BindNothing(log, params.entries, p, segments);
      if index == |segments| {
        return if node.handler.Some? then node else null, calls;
      }
      var segment := segments[index];
      ghost var more;
      if segment in node.children {
        HitBelow(log, old(params.entries), p, Lit(segment), segments, index);
        hit, more := FindFrom(node.children[segment], segments, index + 1, params, Sub(p, Lit(segment)));
        calls := calls + more;
        if hit != null {
          return;
        }
      }
      if node.paramChild != null {
        var name := node.paramChild.parameterName;
        var had := name in params.entries;
        var saved := if had then params.entries[name] else "";
        HitBelow(log, old(params.entries), p, Par, segments, index);
        params.entries := params.entries[name := segment];
        hit, more := FindFrom(node.paramChild, segments, index + 1, params, Sub(p, Par));
        calls := calls + more;
        if hit != null {
          return;
        }
        if had {
          params.entries := params.entries[name := saved];
        } else {
          params.entries := params.entries - {name};
        }
      }
      hit := null;
    }

    method SearchNode(path: string, params: ParamMap) returns (hit: Node?, ghost calls: nat)
      requires Valid()
      modifies params
      ensures calls == Calls(log, Root, PathSegments(path), 0)
      ensures (hit == null) == LookupPath(log, path).None?
      ensures hit == null ==> params.entries == old(params.entries)
      ensures hit != null ==>
                var h := LookupPath(log, path).value;
                && h.shape in nodes && hit == nodes[h.shape] && hit.handler == Some(h.handler)
                && (old(params.entries) == map[] ==> params.entries == h.params)
    {
      var segments := SplitPath(path);
      SearchSound(log, Root, segments, 0);
      hit, calls := FindFrom(root, segments, 0, params, Root);
    }
  }

  lemma SearchHit(log: seq<Route>, p: Shape, q: seq<string>, i: nat)
    requires i <= |q| && Matches(p, q, i)
    ensures var r := Search(log, p, q, i);
            r.Some? ==> Live(log, r.value) && Depth(r.value) == |q| && Under(p, r.value)
                        && r.value in Places(log)
  {
    SearchSound(log, p, q, i);
    var r := Search(log, p, q, i);
    if r.Some? {
      MatchDepth(r.value, q, |q|);
      LivePlace(log, r.value);
    }
  }

  lemma BindNothing(log: seq<Route>, m: Params, p: Shape, q: seq<string>)
    requires Depth(p) <= |q|
    ensures Bind(log, m, p, p, q) == m
  {
  }

  lemma HitBelow(log: seq<Route>, m: Params, p: Shape, x: Seg, q: seq<string>, i: nat)
    requires i < |q| && Matches(p, q, i) && (x == Par || x == Lit(q[i]))
    ensures Matches(Sub(p, x), q, i + 1)
    ensures var r := Search(log, Sub(p, x), q, i + 1);
            r.Some? ==>
              && Depth(r.value) == |q|
              && Bind(log, m, p, r.value, q)
                 == Bind(log, if x.Par? then m[SlotName(log, p) := q[i]] else m, Sub(p, x), r.value, q)
  {
    SearchHit(log, Sub(p, x), q, i + 1);
    MatchDepth(p, q, i);
    var r := Search(log, Sub(p, x), q, i + 1);
    if r.Some? { BindStep(log, m, p, x, r.value, q); }
  }

  /// The split path, as both insert and find use it.
  function PathSegments(path: string): Segments {
    SplitTokens(CStr(path), '/');
    Pieces(CStr(path), "/")
  }

  method SplitPath(path: string) returns (segments: Segments)
    ensures segments == PathSegments(path)
  {
    CStrId("/");
    SplitTokens(CStr(path), '/');
    segments := Split(path, "/");
  }

  function LookupPath(log: seq<Route>, path: string): Option<Hit> {
    Lookup(log, PathSegments(path))
  }

  /// The name of the slot below `p` while `segs` is being inserted.
  function NameSoFar(log: seq<Route>, segs: seq<string>, p: Shape): Option<string> {
    match NameOf(log, p) case Some(n) => Some(n) case None => NameIn(segs, p)
  }

  lemma SliceStep<T>(s: seq<T>, i: nat)
    requires i < |s|
    ensures s[..i + 1] == s[..i] + [s[i]]
  {
  }

  lemma SliceAll<T>(s: seq<T>)
    ensures s[..|s|] == s && s[..0] == []
  {
  }

  lemma LogExtended(log: seq<Route>, r: Route)
    ensures forall p :: NameOf(log + [r], p) == NameSoFar(log, r.segs, p)
    ensures forall p :: HandlerOf(log + [r], p) == if ShapeOf(r.segs) == p then r.handler else HandlerOf(log, p)
    ensures Places(log + [r]) == Places(log) + Ancestors(ShapeOf(r.segs))
  {
    LogAppend(log, r);
  }

  lemma {:induction false} NamedIsPlaced(log: seq<Route>, p: Shape)
    ensures NameOf(log, p).Some? ==> Sub(p, Par) in Places(log)
  {
    if log != [] {
      NamedIsPlaced(log[..|log| - 1], p);
      if NameIn(log[|log| - 1].segs, p).Some? { NamedInPath(log[|log| - 1].segs, p); }
      UnderAncestors(Sub(p, Par), ShapeOf(log[|log| - 1].segs));
    }
  }

  lemma {:induction false} NamedInPath(segs: seq<string>, p: Shape)
    requires NameIn(segs, p).Some?
    ensures Under(Sub(p, Par), ShapeOf(segs)) && Depth(p) < |segs|
  {
    ShapeDepth(segs);
    UnderDepth(p, p);
    var front := segs[..|segs| - 1];
    if !(IsParam(segs[|segs| - 1]) && ShapeOf(front) == p) {
      NamedInPath(front, p);
    } else {
      ShapeDepth(front);
    }
  }

  /// One more segment names at most one slot: the one it opens, if that is new.
  lemma SlotStep(log: seq<Route>, segs: seq<string>, segment: string)
    ensures forall p :: NameSoFar(log, segs + [segment], p) ==
              if NameSoFar(log, segs, p).None? && p == ShapeOf(segs) && IsParam(segment)
              then Some(segment[1..]) else NameSoFar(log, segs, p)
    ensures forall p :: NameSoFar(log, segs, p).Some? ==>
              Sub(p, Par) in Places(log) + Ancestors(ShapeOf(segs))
  {
    var more := segs + [segment];
    assert more[..|segs|] == segs;
    ShapeDepth(segs);
    forall p ensures NameIn(segs, p).Some? ==> p != ShapeOf(segs) && Sub(p, Par) in Ancestors(ShapeOf(segs)) {
      if NameIn(segs, p).Some? {
        NamedInPath(segs, p);
        UnderAncestors(Sub(p, Par), ShapeOf(segs));
      }
    }
    forall p ensures NameOf(log, p).Some? ==> Sub(p, Par) in Places(log) { NamedIsPlaced(log, p); }
  }

  lemma UnplacedIsDead(log: seq<Route>, s: Shape)
    ensures s !in Places(log) ==> HandlerOf(log, s) == None
  {
    if Live(log, s) { LivePlace(log, s); }
  }
}

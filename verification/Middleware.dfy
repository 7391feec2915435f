// The middleware chain: executeMiddlewareChain, path-scoped middleware, and
// mounted routers, as an interpreter over explicit continuations. A middleware
// supplied by the user is what it does on a given request, step by step; `next`
// is the rest of the chain, and calling it is one of the things it may do, any
// number of times.

module Middleware {
  import opened Text
  import opened Routing
  import opened Registry

  datatype Op = Emit(note: nat) | CallNext | SetPath(path: string)

  datatype Mw =
    | User(id: nat, body: State -> seq<Op>)
    | Scoped(prefix: string, inner: Mw)              // use(path, middleware)
    | Mounted(prefix: string, chain: seq<Mw>)        // HttpServer::use(path, router)
    | Routes(log: seq<Route>)                        // a router's own route matching
    | SubMounted(prefix: string, sub: seq<Route>)    // Router::use(path, router)

  datatype Event =
    | Enter(id: nat) | Exit(id: nat) | Note(note: nat)
    | Handled(handler: Handler, path: string, params: Params)
    | NotFound(method_: string, path: string)

  datatype State = State(method_: string, path: string, params: Params, trace: seq<Event>)

  /// What `next` stands for: the remaining middleware, then what comes after them.
  datatype Cont =
    | Final(log: seq<Route>)                         // runRoute of handleRequest
    | Then(rest: seq<Mw>, k: Cont)
    | Restore(path: string, k: Cont)                 // the end of a mounted router's chain

  // ------------------------------------------------- paths

  /// Mounted at a segment boundary.
  predicate Engages(prefix: string, path: string) {
    prefix == "/" || (prefix <= path && (|path| == |prefix| || path[|prefix|] == '/'))
  }

  function Slashed(rest: string): string {
    if rest == "" || rest[0] != '/' then "/" + rest else rest
  }

  function Relative(prefix: string, path: string): string
    requires Engages(prefix, path)
  {
    if prefix == "/" then path else Slashed(path[|prefix|..])
  }

  // ------------------------------------------------- the interpreter

  function MwSize(m: Mw): nat {
    match m
    case User(_, _) => 1
    case Scoped(_, inner) => 1 + MwSize(inner)
    case Mounted(_, chain) => 2 + ChainSize(chain)
    case Routes(_) => 1
    case SubMounted(_, _) => 1
  }

  function ChainSize(ms: seq<Mw>): nat {
    if ms == [] then 0 else 1 + MwSize(ms[0]) + ChainSize(ms[1..])
  }

  function ContSize(k: Cont): nat {
    match k
    case Final(_) => 0
    case Then(rest, k') => 1 + ChainSize(rest) + ContSize(k')
    case Restore(_, k') => 1 + ContSize(k')
  }

  function Log(st: State, e: Event): State { st.(trace := st.trace + [e]) }

  /// registry.getHandler(req), and the handler if there is one.
  function Handle(log: seq<Route>, st: State): Option<State> {
    match Dispatch(log, st.method_, st.path)
    case None => None
    case Some(h) => Some(Log(st.(params := h.params), Handled(h.handler, st.path, h.params)))
  }

  function Run(k: Cont, st: State): State
    decreases ContSize(k), 0
  {
    match k
    case Final(log) =>
      (match Handle(log, st) case Some(st') => st' case None => Log(st, NotFound(st.method_, st.path)))
    case Then(rest, k') => if rest == [] then Run(k', st) else Exec(rest[0], Then(rest[1..], k'), st)
    case Restore(path, k') => Run(k', st.(path := path))
  }

  function Exec(m: Mw, next: Cont, st: State): State
    decreases MwSize(m) + ContSize(next), 1
  {
    match m
    case User(id, body) => Log(RunBody(body(st), next, Log(st, Enter(id))), Exit(id))
    case Scoped(prefix, inner) => if prefix <= st.path then Exec(inner, next, st) else Run(next, st)
    case Mounted(prefix, chain) =>
      if Engages(prefix, st.path) then
        var after := Restore(st.path, next);
        assert ContSize(after) == 1 + ContSize(next);
        Run(Then(chain, after), st.(path := Relative(prefix, st.path)))
      else Run(next, st)
    case Routes(log) => (match Handle(log, st) case Some(st') => st' case None => Run(next, st))
    case SubMounted(prefix, sub) =>
      if prefix <= st.path then
        match Handle(sub, st.(path := Slashed(st.path[|prefix|..])))
        case Some(st') => st'.(path := st.path)
        case None => Run(next, st)
      else Run(next, st)
  }

  function RunBody(body: seq<Op>, next: Cont, st: State): State
    decreases ContSize(next), 1 + |body|
  {
    if body == [] then st
    else
      var st' := match body[0]
        case Emit(note) => Log(st, Note(note))
        case CallNext => Run(next, st)
        case SetPath(path) => st.(path := path);
      RunBody(body[1..], next, st')
  }

  // ------------------------------------------------- onion: traces nest

  /// Reads a trace against a stack of middleware entered and not yet left.
  function Unwind(trace: seq<Event>, stack: seq<nat>): Option<seq<nat>> {
    if trace == [] then Some(stack)
    else
      match trace[0]
      case Enter(id) => Unwind(trace[1..], stack + [id])
      case Exit(id) =>
        if stack != [] && stack[|stack| - 1] == id then Unwind(trace[1..], stack[..|stack| - 1]) else None
      case _ => Unwind(trace[1..], stack)
  }

  lemma {:induction false} UnwindAppend(a: seq<Event>, b: seq<Event>, stack: seq<nat>)
    ensures Unwind(a + b, stack)
         == match Unwind(a, stack) case None => None case Some(s) => Unwind(b, s)
  {
    if a == [] {
      assert a + b == b;
    } else {
      assert (a + b)[1..] == a[1..] + b;
      match a[0] {
        case Enter(id) => UnwindAppend(a[1..], b, stack + [id]);
        case Exit(id) => if stack != [] { UnwindAppend(a[1..], b, stack[..|stack| - 1]); }
        case _ => UnwindAppend(a[1..], b, stack);
      }
    }
  }

  /// `st'` adds to `st`'s trace a piece in which everything entered is left again, in order.
  ghost predicate Nests(st: State, st': State) {
    st.trace <= st'.trace
    && forall stack :: Unwind(st'.trace[|st.trace|..], stack) == Some(stack)
  }

  lemma NestsTrans(a: State, b: State, c: State)
    requires Nests(a, b) && Nests(b, c)
    ensures Nests(a, c)
  {
    var x, y := b.trace[|a.trace|..], c.trace[|b.trace|..];
    assert c.trace[|a.trace|..] == x + y;
    forall stack ensures Unwind(x + y, stack) == Some(stack) { UnwindAppend(x, y, stack); }
  }

  lemma NestsLog(st: State, e: Event)
    requires !e.Enter? && !e.Exit?
    ensures Nests(st, Log(st, e))
  {
    assert Log(st, e).trace[|st.trace|..] == [e];
    assert [e][1..] == [];
  }

  lemma NestsWrap(st: State, mid: State, id: nat)
    requires Nests(Log(st, Enter(id)), mid)
    ensures Nests(st, Log(mid, Exit(id)))
  {
    var inner := mid.trace[|st.trace| + 1..];
    assert Log(mid, Exit(id)).trace[|st.trace|..] == [Enter(id)] + (inner + [Exit(id)]);
    forall stack ensures Unwind([Enter(id)] + (inner + [Exit(id)]), stack) == Some(stack) {
      var whole := [Enter(id)] + (inner + [Exit(id)]);
      assert whole[1..] == inner + [Exit(id)];
      UnwindAppend(inner, [Exit(id)], stack + [id]);
      assert (stack + [id])[..|stack|] == stack;
      assert [Exit(id)][1..] == [];
    }
  }

  lemma {:induction false} HandleNests(log: seq<Route>, st: State)
    ensures Handle(log, st).Some? ==> Nests(st, Handle(log, st).value)
  {
    var h := Dispatch(log, st.method_, st.path);
    if h.Some? {
      var st1 := st.(params := h.value.params);
      NestsLog(st1, Handled(h.value.handler, st.path, h.value.params));
    }
  }

  /// However middleware are stacked, scoped and mounted, they nest like an onion.
  lemma {:induction false} RunNests(k: Cont, st: State)
    ensures Nests(st, Run(k, st))
    decreases ContSize(k), 0
  {
    match k
    case Final(log) =>
      HandleNests(log, st);
      NestsLog(st, NotFound(st.method_, st.path));
    case Then(rest, k') => if rest == [] { RunNests(k', st); } else { ExecNests(rest[0], Then(rest[1..], k'), st); }
    case Restore(path, k') =>
      RunNests(k', st.(path := path));
  }

  lemma {:induction false} ExecNests(m: Mw, next: Cont, st: State)
    ensures Nests(st, Exec(m, next, st))
    decreases MwSize(m) + ContSize(next), 1
  {
    match m
    case User(id, body) =>
      BodyNests(body(st), next, Log(st, Enter(id)));
      NestsWrap(st, RunBody(body(st), next, Log(st, Enter(id))), id);
    case Scoped(prefix, inner) => if prefix <= st.path { ExecNests(inner, next, st); } else { RunNests(next, st); }
    case Mounted(prefix, chain) =>
      if Engages(prefix, st.path) {
        var after := Restore(st.path, next);
        assert ContSize(after) == 1 + ContSize(next);
        RunNests(Then(chain, after), st.(path := Relative(prefix, st.path)));
      } else {
        RunNests(next, st);
      }
    case Routes(log) => HandleNests(log, st); RunNests(next, st);
    case SubMounted(prefix, sub) =>
      if prefix <= st.path { HandleNests(sub, st.(path := Slashed(st.path[|prefix|..]))); }
      RunNests(next, st);
  }

  lemma {:induction false} BodyNests(body: seq<Op>, next: Cont, st: State)
    ensures Nests(st, RunBody(body, next, st))
    decreases ContSize(next), 1 + |body|
  {
    if body != [] {
      var st' := match body[0]
        case Emit(note) => Log(st, Note(note))
        case CallNext => Run(next, st)
        case SetPath(path) => st.(path := path);
      BodyNests(body[1..], next, st');
      match body[0] {
        case Emit(note) => NestsLog(st, Note(note));
        case CallNext => RunNests(next, st);
        case SetPath(path) => assert st'.trace[|st.trace|..] == [];
      }
      NestsTrans(st, st', RunBody(body[1..], next, st'));
    }
  }

  // ------------------------------------------------- onion: how often things run

  function Count(trace: seq<Event>, p: Event -> bool): nat {
    if trace == [] then 0
    else Count(trace[..|trace| - 1], p) + if p(trace[|trace| - 1]) then 1 else 0
  }

  predicate IsFinal(e: Event) { e.Handled? || e.NotFound? }

  function EntryOf(id: nat): Event -> bool { (e: Event) => e == Enter(id) }

  function NextCalls(body: seq<Op>): nat {
    if body == [] then 0 else (if body[0].CallNext? then 1 else 0) + NextCalls(body[1..])
  }

  /// On every request the i-th middleware calls next `calls[i]` times.
  ghost predicate CallsNext(ms: seq<Mw>, calls: seq<nat>) {
    |calls| == |ms|
    && forall i :: 0 <= i < |ms| ==> ms[i].User? && forall st :: NextCalls(ms[i].body(st)) == calls[i]
  }

  function Product(calls: seq<nat>): nat {
    if calls == [] then 1 else calls[0] * Product(calls[1..])
  }

  lemma CountSnoc(trace: seq<Event>, e: Event, p: Event -> bool)
    ensures Count(trace + [e], p) == Count(trace, p) + if p(e) then 1 else 0
  {
    assert (trace + [e])[..|trace|] == trace;
  }

  /// `p` marks no exits and no notes.
  ghost predicate Marks(p: Event -> bool) { forall e: Event :: e.Exit? || e.Note? ==> !p(e) }

  /// Every run of `k` adds `w` marked events.
  ghost predicate Adds(k: Cont, p: Event -> bool, w: nat) {
    forall st :: Count(Run(k, st).trace, p) == Count(st.trace, p) + w
  }

  /// How many marked events one pass through the chain makes, `w` of them at its end.
  ghost function Weight(ms: seq<Mw>, calls: seq<nat>, p: Event -> bool, w: nat): nat
    requires CallsNext(ms, calls)
  {
    if ms == [] then w
    else (if p(Enter(ms[0].id)) then 1 else 0) + calls[0] * Weight(ms[1..], calls[1..], p, w)
  }

  lemma {:induction false} MarkedRuns(
    ms: seq<Mw>, calls: seq<nat>, k: Cont, st: State, p: Event -> bool, w: nat)
    requires CallsNext(ms, calls) && Marks(p) && Adds(k, p, w)
    ensures Count(Run(Then(ms, k), st).trace, p) == Count(st.trace, p) + Weight(ms, calls, p, w)
    decreases |ms|, 0
  {
    if ms != [] {
      var id, body := ms[0].id, ms[0].body(st);
      var st1 := Log(st, Enter(id));
      CountSnoc(st.trace, Enter(id), p);
      MarkedRunsBody(body, ms[1..], calls[1..], k, st1, p, w);
      CountSnoc(RunBody(body, Then(ms[1..], k), st1).trace, Exit(id), p);
    }
  }

  lemma OneMoreTime(n: nat, w: nat)
    ensures (1 + n) * w == w + n * w
  {
  }

  lemma {:induction false} MarkedRunsBody(
    body: seq<Op>, ms: seq<Mw>, calls: seq<nat>, k: Cont, st: State, p: Event -> bool, w: nat)
    requires CallsNext(ms, calls) && Marks(p) && Adds(k, p, w)
    ensures Count(RunBody(body, Then(ms, k), st).trace, p)
         == Count(st.trace, p) + NextCalls(body) * Weight(ms, calls, p, w)
    decreases |ms|, 1 + |body|
  {
    if body != [] {
      hide Weight, CallsNext, Count, Adds;
      match body[0] {
        case Emit(note) =>
          CountSnoc(st.trace, Note(note), p);
          MarkedRunsBody(body[1..], ms, calls, k, Log(st, Note(note)), p, w);
        case CallNext =>
          MarkedRuns(ms, calls, k, st, p, w);
          MarkedRunsBody(body[1..], ms, calls, k, Run(Then(ms, k), st), p, w);
          OneMoreTime(NextCalls(body[1..]), Weight(ms, calls, p, w));
        case SetPath(path) =>
          MarkedRunsBody(body[1..], ms, calls, k, st.(path := path), p, w);
      }
    }
  }

  lemma {:induction false} FinalWeight(ms: seq<Mw>, calls: seq<nat>, p: Event -> bool)
    requires CallsNext(ms, calls) && forall id :: !p(Enter(id))
    ensures Weight(ms, calls, p, 1) == Product(calls)
  {
    if ms != [] { FinalWeight(ms[1..], calls[1..], p); }
  }

  lemma {:induction false} EntryWeight(ms: seq<Mw>, calls: seq<nat>, i: nat, id: nat)
    requires CallsNext(ms, calls) && i < |ms|
    requires forall j :: 0 <= j < |ms| ==> (ms[j].id == id <==> j == i)
    ensures Weight(ms, calls, EntryOf(id), 0) == Product(calls[..i])
  {
    if i > 0 {
      EntryWeight(ms[1..], calls[1..], i - 1, id);
      assert calls[..i][1..] == calls[1..][..i - 1];
    } else {
      NoEntryWeight(ms[1..], calls[1..], id);
    }
  }

  lemma {:induction false} NoEntryWeight(ms: seq<Mw>, calls: seq<nat>, id: nat)
    requires CallsNext(ms, calls) && forall i :: 0 <= i < |ms| ==> ms[i].id != id
    ensures Weight(ms, calls, EntryOf(id), 0) == 0
  {
    if ms != [] { NoEntryWeight(ms[1..], calls[1..], id); }
  }

  lemma FinalAdds(log: seq<Route>, p: Event -> bool, w: nat)
    requires forall e: Event :: IsFinal(e) ==> (if p(e) then 1 else 0) == w
    ensures Adds(Final(log), p, w)
  {
    forall st ensures Count(Run(Final(log), st).trace, p) == Count(st.trace, p) + w {
      var h := Dispatch(log, st.method_, st.path);
      if h.Some? {
        CountSnoc(st.trace, Handled(h.value.handler, st.path, h.value.params), p);
      } else {
        CountSnoc(st.trace, NotFound(st.method_, st.path), p);
      }
    }
  }

  /// The final handler (a route, or the 404) runs once for every way through the chain.
  lemma FinalRuns(ms: seq<Mw>, calls: seq<nat>, log: seq<Route>, st: State)
    requires CallsNext(ms, calls)
    ensures Count(Run(Then(ms, Final(log)), st).trace, IsFinal) == Count(st.trace, IsFinal) + Product(calls)
  {
    FinalAdds(log, IsFinal, 1);
    MarkedRuns(ms, calls, Final(log), st, IsFinal, 1);
    FinalWeight(ms, calls, IsFinal);
  }

  /// Middleware i runs as often as the middleware before it call next, multiplied up: once if
  /// each calls it once, never if one of them does not.
  lemma MiddlewareRuns(ms: seq<Mw>, calls: seq<nat>, i: nat, log: seq<Route>, st: State)
    requires CallsNext(ms, calls) && i < |ms|
    requires forall j, k :: 0 <= j < k < |ms| ==> ms[j].id != ms[k].id
    ensures var p := EntryOf(ms[i].id);
            Count(Run(Then(ms, Final(log)), st).trace, p) == Count(st.trace, p) + Product(calls[..i])
  {
    FinalAdds(log, EntryOf(ms[i].id), 0);
    MarkedRuns(ms, calls, Final(log), st, EntryOf(ms[i].id), 0);
    EntryWeight(ms, calls, i, ms[i].id);
  }

  // ------------------------------------------------- a body by itself

  function Notes(body: seq<Op>): seq<Event> {
    if body == [] then [] else (if body[0].Emit? then [Note(body[0].note)] else []) + Notes(body[1..])
  }

  function LastPath(body: seq<Op>, path: string): string {
    if body == [] then path
    else LastPath(body[1..], if body[0].SetPath? then body[0].path else path)
  }

  /// A middleware that does not call next ends the request: its own steps are all that happens.
  lemma {:induction false} EndsRequest(m: Mw, rest: seq<Mw>, k: Cont, st: State)
    requires m.User? && NextCalls(m.body(st)) == 0
    ensures Run(Then([m] + rest, k), st)
         == State(st.method_, LastPath(m.body(st), st.path), st.params,
                  st.trace + [Enter(m.id)] + Notes(m.body(st)) + [Exit(m.id)])
  {
    Consed(m, rest, k, st);
    StepsOnly(m.body(st), Then(rest, k), Log(st, Enter(m.id)));
  }

  lemma {:induction false} StepsOnly(body: seq<Op>, next: Cont, st: State)
    requires NextCalls(body) == 0
    ensures RunBody(body, next, st)
         == State(st.method_, LastPath(body, st.path), st.params, st.trace + Notes(body))
    decreases |body|
  {
    if body == [] {
      assert st.trace + [] == st.trace;
    } else {
      match body[0] {
        case Emit(note) =>
          StepsOnly(body[1..], next, Log(st, Note(note)));
          assert st.trace + [Note(note)] + Notes(body[1..]) == st.trace + ([Note(note)] + Notes(body[1..]));
        case SetPath(path) =>
          StepsOnly(body[1..], next, st.(path := path));
          assert [] + Notes(body[1..]) == Notes(body[1..]);
      }
    }
  }

  lemma Consed(m: Mw, rest: seq<Mw>, k: Cont, st: State)
    ensures Run(Then([m] + rest, k), st) == Exec(m, Then(rest, k), st)
  {
    assert ([m] + rest)[1..] == rest;
  }

  // ------------------------------------------------- continuations that do the same

  ghost predicate Alike(k1: Cont, k2: Cont) { forall st :: Run(k1, st) == Run(k2, st) }

  /// What a middleware makes of its continuation depends only on what that does.
  lemma {:induction false} ExecAlike(m: Mw, k1: Cont, k2: Cont, st: State)
    requires Alike(k1, k2)
    ensures Exec(m, k1, st) == Exec(m, k2, st)
    decreases MwSize(m), 0
  {
    match m
    case User(id, body) => BodyAlike(body(st), k1, k2, Log(st, Enter(id)));
    case Scoped(prefix, inner) => ExecAlike(inner, k1, k2, st);
    case Mounted(prefix, chain) =>
      if Engages(prefix, st.path) {
        ChainAlike(chain, Restore(st.path, k1), Restore(st.path, k2));
      }
    case Routes(log) =>
    case SubMounted(prefix, sub) =>
  }

  lemma {:induction false} BodyAlike(body: seq<Op>, k1: Cont, k2: Cont, st: State)
    requires Alike(k1, k2)
    ensures RunBody(body, k1, st) == RunBody(body, k2, st)
    decreases 0, |body|
  {
    if body != [] {
      var st' := match body[0]
        case Emit(note) => Log(st, Note(note))
        case CallNext => Run(k1, st)
        case SetPath(path) => st.(path := path);
      BodyAlike(body[1..], k1, k2, st');
    }
  }

  lemma {:induction false} ChainAlike(ms: seq<Mw>, k1: Cont, k2: Cont)
    requires Alike(k1, k2)
    ensures Alike(Then(ms, k1), Then(ms, k2))
    decreases ChainSize(ms), 1
  {
    if ms != [] {
      ChainAlike(ms[1..], k1, k2);
      forall st ensures Run(Then(ms, k1), st) == Run(Then(ms, k2), st) {
        ExecAlike(ms[0], Then(ms[1..], k1), Then(ms[1..], k2), st);
      }
    }
  }

  /// A chain cut in two runs its first part, and then its second.
  lemma {:induction false} ChainAppend(a: seq<Mw>, b: seq<Mw>, k: Cont)
    ensures Alike(Then(a + b, k), Then(a, Then(b, k)))
    decreases |a|
  {
    if a == [] {
      assert a + b == b;
    } else {
      ChainAppend(a[1..], b, k);
      assert (a + b)[1..] == a[1..] + b;
      forall st ensures Run(Then(a + b, k), st) == Run(Then(a, Then(b, k)), st) {
        ExecAlike(a[0], Then(a[1..] + b, k), Then(a[1..], Then(b, k)), st);
      }
    }
  }

  // ------------------------------------------------- what does not apply is not there

  /// The middleware a request meets on its path: a scope or a mount it is outside of is passed
  /// over as if it were not in the chain, and inside its scope a middleware is as if unscoped.
  lemma PassedOver(m: Mw, rest: seq<Mw>, k: Cont, st: State)
    ensures m.Scoped? ==>
              Run(Then([m] + rest, k), st) == Run(Then((if m.prefix <= st.path then [m.inner] else []) + rest, k), st)
    ensures (m.Mounted? && !Engages(m.prefix, st.path)) || (m.SubMounted? && !(m.prefix <= st.path)) ==>
              Run(Then([m] + rest, k), st) == Run(Then(rest, k), st)
  {
    Consed(m, rest, k, st);
    if m.Scoped? {
      Consed(m.inner, rest, k, st);
      assert [] + rest == rest;
    }
  }

  // ------------------------------------------------- a mounted router with its middleware

  /// The way through a mounted router: its middleware, its routes, and behind them the rest, on
  /// the path the request came with.
  lemma {:induction false} MountedPass(p: string, ms: seq<Mw>, log: seq<Route>, next: Cont, st: State)
    requires Engages(p, st.path)
    ensures Exec(Mounted(p, ms + [Routes(log)]), next, st)
         == Run(Then(ms, Then([Routes(log)], Restore(st.path, next))), st.(path := Relative(p, st.path)))
  {
    ChainAppend(ms, [Routes(log)], Restore(st.path, next));
  }

  lemma RoutesAdd(log: seq<Route>, o: string, next: Cont, p: Event -> bool, w: nat)
    requires Adds(next, p, w) && forall e: Event :: e.Handled? ==> (if p(e) then 1 else 0) == w
    ensures Adds(Then([Routes(log)], Restore(o, next)), p, w)
  {
    var after := Restore(o, next);
    assert [Routes(log)][1..] == [];
    forall st ensures Count(Run(Then([Routes(log)], after), st).trace, p) == Count(st.trace, p) + w {
      var h := Dispatch(log, st.method_, st.path);
      if h.Some? {
        CountSnoc(st.trace, Handled(h.value.handler, st.path, h.value.params), p);
      } else {
        assert Run(Then([Routes(log)], after), st) == Run(Then([], after), st) == Run(next, st.(path := o));
      }
    }
  }

  /// Middleware i of a mounted router runs, at and below the mount, as often as those before it
  /// call next, multiplied up, and elsewhere not at all.
  lemma MountedMiddlewareRuns(
    p: string, ms: seq<Mw>, calls: seq<nat>, i: nat, log: seq<Route>, next: Cont, st: State)
    requires CallsNext(ms, calls) && i < |ms|
    requires forall j, k :: 0 <= j < k < |ms| ==> ms[j].id != ms[k].id
    requires Adds(next, EntryOf(ms[i].id), 0)
    ensures var entered := EntryOf(ms[i].id);
            Count(Exec(Mounted(p, ms + [Routes(log)]), next, st).trace, entered)
            == Count(st.trace, entered) + if Engages(p, st.path) then Product(calls[..i]) else 0
  {
    if Engages(p, st.path) {
      var entered, st1 := EntryOf(ms[i].id), st.(path := Relative(p, st.path));
      var k := Then([Routes(log)], Restore(st.path, next));
      MountedPass(p, ms, log, next, st);
      RoutesAdd(log, st.path, next, entered, 0);
      MarkedRuns(ms, calls, k, st1, entered, 0);
      EntryWeight(ms, calls, i, ms[i].id);
    }
  }

  /// Its routes are asked once for every way through its middleware, and each time either one of
  /// them answers or the rest of the server does.
  lemma MountedRoutesAsked(p: string, ms: seq<Mw>, calls: seq<nat>, log: seq<Route>, next: Cont, st: State)
    requires CallsNext(ms, calls) && Engages(p, st.path) && Adds(next, IsFinal, 1)
    ensures Count(Exec(Mounted(p, ms + [Routes(log)]), next, st).trace, IsFinal)
         == Count(st.trace, IsFinal) + Product(calls)
  {
    var st1, k := st.(path := Relative(p, st.path)), Then([Routes(log)], Restore(st.path, next));
    MountedPass(p, ms, log, next, st);
    RoutesAdd(log, st.path, next, IsFinal, 1);
    MarkedRuns(ms, calls, k, st1, IsFinal, 1);
    FinalWeight(ms, calls, IsFinal);
  }

  // ------------------------------------------------- a mounted router is a server of its own

  /// No 404 is added on the way from `st` to `st'`.
  ghost predicate NoNotFound(st: State, st': State) {
    st.trace <= st'.trace && forall i :: |st.trace| <= i < |st'.trace| ==> !st'.trace[i].NotFound?
  }

  /// `k` with routes and then `after` where it ended in the server's own routes or a 404.
  function Extended(k: Cont, after: Cont): Cont {
    match k
    case Final(log) => Then([Routes(log)], after)
    case Then(rest, k') => Then(rest, Extended(k', after))
    case Restore(path, k') => Restore(path, Extended(k', after))
  }

  lemma {:induction false} RunExtended(k: Cont, after: Cont, st: State)
    requires NoNotFound(st, Run(k, st))
    ensures Run(Extended(k, after), st) == Run(k, st)
    decreases ContSize(k), 0
  {
    match k
    case Final(log) =>
      assert [Routes(log)][1..] == [];
      assert Handle(log, st).Some? by {
        assert Log(st, NotFound(st.method_, st.path)).trace[|st.trace|].NotFound?;
      }
    case Then(rest, k') =>
      if rest == [] { RunExtended(k', after, st); } else { ExecExtended(rest[0], Then(rest[1..], k'), after, st); }
    case Restore(path, k') => RunExtended(k', after, st.(path := path));
  }

  lemma {:induction false} ExecExtended(m: Mw, next: Cont, after: Cont, st: State)
    requires NoNotFound(st, Exec(m, next, st))
    ensures Exec(m, Extended(next, after), st) == Exec(m, next, st)
    decreases MwSize(m) + ContSize(next), 1
  {
    match m
    case User(id, body) =>
      BodyNests(body(st), next, Log(st, Enter(id)));
      var end := RunBody(body(st), next, Log(st, Enter(id)));
      assert end.trace == Log(end, Exit(id)).trace[..|end.trace|];
      BodyExtended(body(st), next, after, Log(st, Enter(id)));
    case Scoped(prefix, inner) =>
      if prefix <= st.path { ExecExtended(inner, next, after, st); } else { RunExtended(next, after, st); }
    case Mounted(prefix, chain) =>
      if Engages(prefix, st.path) {
        var back := Restore(st.path, next);
        assert ContSize(back) == 1 + ContSize(next);
        RunExtended(Then(chain, back), after, st.(path := Relative(prefix, st.path)));
      } else {
        RunExtended(next, after, st);
      }
    case Routes(log) => if Handle(log, st).None? { RunExtended(next, after, st); }
    case SubMounted(prefix, sub) =>
      if !(prefix <= st.path) || Handle(sub, st.(path := Slashed(st.path[|prefix|..]))).None? {
        RunExtended(next, after, st);
      }
  }

  lemma {:induction false} BodyExtended(body: seq<Op>, next: Cont, after: Cont, st: State)
    requires NoNotFound(st, RunBody(body, next, st))
    ensures RunBody(body, Extended(next, after), st) == RunBody(body, next, st)
    decreases ContSize(next), 1 + |body|
  {
    if body != [] {
      var st' := match body[0]
        case Emit(note) => Log(st, Note(note))
        case CallNext => Run(next, st)
        case SetPath(path) => st.(path := path);
      BodyNests(body[1..], next, st');
      if body[0].CallNext? {
        RunNests(next, st);
        var end := RunBody(body[1..], next, st');
        assert st'.trace == end.trace[..|st'.trace|];
        RunExtended(next, after, st);
      }
      BodyExtended(body[1..], next, after, st');
    }
  }

  /// Whatever middleware a mounted router has, at and below its mount it does what it would do
  /// as a server of its own on the relative path, as long as that has no 404 to give, which is
  /// where the rest of the chain comes in.
  lemma {:induction false} MountedIsServer(p: string, ms: seq<Mw>, log: seq<Route>, next: Cont, st: State)
    requires Engages(p, st.path)
    requires var st1 := st.(path := Relative(p, st.path)); NoNotFound(st1, Run(Then(ms, Final(log)), st1))
    ensures Exec(Mounted(p, ms + [Routes(log)]), next, st)
         == Run(Then(ms, Final(log)), st.(path := Relative(p, st.path)))
  {
    MountedPass(p, ms, log, next, st);
    RunExtended(Then(ms, Final(log)), Restore(st.path, next), st.(path := Relative(p, st.path)));
  }

  // ------------------------------------------------- the chain as it runs

  /// The request and response objects every middleware gets by reference.
  class Exchange {
    const method_: string
    var path: string
    var params: Params
    var trace: seq<Event>

    ghost function View(): State
      reads this
    {
      State(method_, path, params, trace)
    }

    constructor (m: string, p: string)
      ensures View() == State(m, p, map[], [])
    {
      method_, path, params, trace := m, p, map[], [];
    }

    /// registry.HandleRequest: runs the handler if there is one.
    method HandleRequest(log: seq<Route>) returns (handled: bool)
      modifies this
      ensures var h := Handle(log, old(View()));
              handled == h.Some? && View() == if h.Some? then h.value else old(View())
    {
      var hit := Dispatch(log, method_, path);
      if hit.None? {
        return false;
      }
      params := hit.value.params;
      trace := trace + [Handled(hit.value.handler, path, params)];
      return true;
    }

    method Continue(k: Cont)
      modifies this
      ensures View() == Run(k, old(View()))
      decreases ContSize(k), 0
    {
      match k
      case Final(log) =>
        var handled := HandleRequest(log);
        if !handled {
          trace := trace + [NotFound(method_, path)];
        }
      case Then(rest, k') =>
        if |rest| == 0 {
          Continue(k');
        } else {
          Invoke(rest[0], Then(rest[1..], k'));
        }
      case Restore(originalPath, k') =>
        path := originalPath;
        Continue(k');
    }

    method Invoke(m: Mw, next: Cont)
      modifies this
      ensures View() == Exec(m, next, old(View()))
      decreases MwSize(m) + ContSize(next), 1
    {
      match m
      case User(id, body) => RunUser(id, body, next);
      case Scoped(prefix, inner) =>
        if prefix <= path {
          Invoke(inner, next);
        } else {
          Continue(next);
        }
      case Mounted(prefix, chain) =>
        if !Engages(prefix, path) {
          Continue(next);
          return;
        }
        var after := Restore(path, next);
        assert ContSize(after) == 1 + ContSize(next);
        path := Relative(prefix, path);
        Continue(Then(chain, after));
      case Routes(log) =>
        var handled := HandleRequest(log);
        if !handled {
          Continue(next);
        }
      case SubMounted(prefix, sub) =>
        if prefix <= path {
          var originalPath := path;
          path := Slashed(path[|prefix|..]);
          var handled := HandleRequest(sub);
          path := originalPath;
          if handled {
            return;
          }
        }
        Continue(next);
    }

    method RunUser(id: nat, body: State -> seq<Op>, next: Cont)
      modifies this
      ensures View() == Log(RunBody(body(old(View())), next, Log(old(View()), Enter(id))), Exit(id))
      decreases ContSize(next), 2 + |body(View())|
    {
      var ops := body(State(method_, path, params, trace));
      trace := trace + [Enter(id)];
      RunOps(ops, next);
      trace := trace + [Exit(id)];
    }

    method RunOps(ops: seq<Op>, next: Cont)
      modifies this
      ensures View() == RunBody(ops, next, old(View()))
      decreases ContSize(next), 1 + |ops|
    {
      ghost var start := View();
      var i := 0;
      assert ops[0..] == ops;
      while i < |ops|
        invariant i <= |ops| && RunBody(ops[i..], next, View()) == RunBody(ops, next, start)
      {
        assert ops[i..][1..] == ops[i + 1..];
        match ops[i] {
          case Emit(note) => trace := trace + [Note(note)];
          case CallNext => Continue(next);
          case SetPath(p) => path := p;
        }
        i := i + 1;
      }
    }
  }
}

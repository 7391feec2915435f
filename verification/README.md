# PlusWeb, modelled and proved

PlusWeb is an HTTP framework. This project models the engine that handles requests and proves what it
promises: the routing trie, mounted routers and the middleware chain, the incremental request parser,
response serialization and its reader, the WebAssembly route table, and the life of one connection.
Check everything with `dafny verify dfyconfig.toml`.

## How the model is built

- **Text, Decimal, UrlCodec, Target**: C strings, `find`, `Utils::split`, `std::to_string` and `strtol`,
  percent-coding, and request targets. A `char` is one byte of a `std::string`; splitting stops at a NUL as
  the C strings do. Every loop is a method proved against a function whose laws are lemmas.
- **Routing, RoutingLaws**: what a lookup means, as a function of the *log* of all registrations. A *shape*
  is a pattern with parameter names forgotten. A linear scan is the reference: the live shape that matches
  and beats every other match, literal over parameter at the first difference.
- **TrieModel**: the nodes on the heap. A ghost map from shapes to nodes makes `Valid()` say that the node
  graph is exactly the tree of the log; each node carries its place, so it is owned once. `FindFrom` binds
  and undoes entries of a shared `ParamMap` in place, as the source does.
- **Registry, Verbs, Grafting, Wasm**: `METHOD:/path` keys over one trie, the verb methods, and the flat
  pattern list beside the trie. `Grafting.Peel` (a lookup below a literal prefix is a lookup among what is
  registered below it) carries both HEAD-for-GET and mounting.
- **Middleware, Mounting**: the chain as an interpreter over explicit continuations, and the same chain run
  on a mutable exchange object. A user middleware is the list of steps (emit, call next, set the path) it
  takes on the request it is given.
- **HttpParser, ParserLaws**: the callbacks of `HttpParser::Impl` as methods over its fields, driven by the
  event stream of llhttp; the laws quantify over every way of cutting a stream into callbacks and calls.
- **Responses, Framing**: bodies, the ordered header map, `serialize`, and `response_len` with its 64-bit
  arithmetic.
- **Reading**: a client's reading of one response, line by line; what it reads is what the handler wrote.
- **Connection**: the callbacks of `HttpServer::Loop`, the libuv contract they run under, and all runs.
- **Service**: everything joined, from the bytes a connection reads to the responses its client cuts out of
  the bytes it writes.

## Assumptions

- llhttp reports each header with at least one name and at least one value callback (of any length, zero
  included), no trailers, and nothing after a request that does not keep the connection alive.
- libuv makes no read callback after `uv_close`, calls each accepted write back once, calls a handle's close
  callback once per `uv_close` and after its writes, and refuses a write on a handle being closed.
- JSON parsing is a partial function and dumping a total one, both parameters. So are whether the handler
  throws on the n-th request, the table of status texts, and what middleware and handlers write into a
  response, which may depend on the request, its place on the connection and its way through the chain.

## Where the documentation and the code differ

- `wasm/README.md:115-124` says a literal route shadows its parameter sibling and that a miss scans all
  children. The code backtracks and looks up one literal and one parameter child; the model follows the code.
- `src/HttpParser.h:18-19` speaks of request line plus header bytes. The code charges the target and the
  header names and values only, not the method, version or separators; so does the model.
- A mount prefix promises the router's routes under that prefix. It keeps the promise exactly on the paths
  `Mounting.MountedAsWritten` names; a path spelled with extra slashes is not among them.
- `Router::use` checks no segment boundary: `Mounting.SubRouterExactly` says where that matters, and
  `Mounting.ApiaryCaptured` shows it.
- `README.md:252-255` promises one step per path segment for every lookup. The search backtracks:
  `RoutingLaws.FiveCallsForThreeSegments` takes five calls for three segments, and for every n some table and
  path take 2^(n+1)-1 (`RoutingLaws.WorstCase`). The promise holds of a lookup exactly if no node on its way
  offers both a matching literal and a parameter child and finds nothing on the literal side
  (`RoutingLaws.CallsLinear`); it holds of all lookups in a table exactly if no node of the table has both a
  literal and a parameter child (`RoutingLaws.LinearTables`).
- A server's 404 names the path of the request at that moment, which middleware can change:
  `Mounting.NotFoundNamesOriginalPath` says when it is the path asked for and `Mounting.CalmExactly` that
  it is not otherwise; `Mounting.RewriteReported` and `Mounting.SecondNextOnApi` are two such cases.
- A query is decoded before it is split, so an escaped `&` in a value ends it (`Target.EscapedSeparatorCuts`),
  and before scheme and authority are taken off, so an escaped link loses its field (`Target.LinkLost`).
  `Target.FieldReturns` says exactly which names and values come back, behind which paths.
- A list of `METHOD pattern` keys confuses routes whose methods go on from one another with " /"
  (`Wasm.KeysMeet`, `Wasm.SpacesConfuse`); methods without spaces never do.
- The error response has a body also when the message that failed was a HEAD request
  (src/HttpServer.cpp:112-115), which section 9.3.2 of RFC 9110 rules out.
- An origin-form target whose decoded text holds `://` is read as if it were in absolute form
  (`Target.OriginFormKept`, `Target.LinkInQueryMisread`).

## Model

| member | source | states |
|---|---|---|
| Text.Split | src/utils.cpp:6-31 | the cursor loop returns the non-empty pieces between delimiters, for any delimiter |
| Text.SplitTokens | src/utils.cpp:16-30 | every token is non-empty and free of the delimiter |
| Text.SplitKeepsText | src/utils.cpp:16-30 | the tokens joined are the input with its delimiters removed: nothing else is lost |
| Text.JoinSplit | src/utils.cpp:16-30 | splitting a joined list of tokens gives the list back |
| Text.SplitAppend | src/utils.cpp:16-30 | a delimiter splits: what lies left and right of it is split apart |
| Text.DoubledDelimiter | src/utils.cpp:18-24 | doubling a delimiter anywhere changes nothing |
| Routing.SearchSound | src/trie.cpp:60-97 | from any place a path reaches, the backtracking search returns the most specific live match below it, None exactly when there is none |
| Routing.LookupIsScan | src/trie.cpp:57-97 | a lookup finds a shape if and only if a linear scan of all registrations picks it |
| Routing.MissIsNoMatch | src/trie.cpp:96-102 | a lookup misses if and only if no registered shape with a handler matches |
| RoutingLaws.BindValue | src/trie.cpp:80-88 | exactly the parameter names on the path found are bound, each to the segment of its deepest slot, so later duplicates win |
| RoutingLaws.LastHandlerWins | src/trie.cpp:52-54 | the handler of a place is that of the last registration of its shape, null or not |
| RoutingLaws.FirstNameWins | src/trie.cpp:24-31 | the name of a slot is the one the first registration through it gives it |
| RoutingLaws.NameWritten | src/trie.cpp:4-9 | and a registration gives the name behind the colon of its segment there |
| RoutingLaws.RegistrationsCommute | src/trie.cpp:45-55 | permuting registrations of distinct shapes changes no handler found, and no params either where slot names agree |
| RoutingLaws.OtherTopIsolated | src/trie.cpp:18-43 | a registration with another literal first segment changes no lookup |
| RoutingLaws.RegisteredIsLive | src/trie.cpp:52-54 | with non-null handlers, the handler-bearing places are exactly the registered shapes |
| RoutingLaws.LeavesAreLive | src/trie.cpp:45-55 | with non-null handlers, every childless place but the root carries a handler |
| RoutingLaws.PlacesAdded | src/trie.cpp:48-51 | a registration adds exactly its segments minus its longest part already there |
| RoutingLaws.CallsAreVisits | src/trie.cpp:60-97 | a search looks at no node twice |
| RoutingLaws.CallsBoundedByPlaces | src/trie.cpp:60-97 | calls are at most the nodes no deeper than the path, and at most 2^(n+1)-1 for n segments |
| RoutingLaws.CallsLinear | src/trie.cpp:60-97 | a lookup visits one node per depth if and only if no visited node offers both a matching literal and a parameter child and finds nothing on the literal side; then it makes at most n+1 calls, whatever the table |
| RoutingLaws.LinearTables | README.md:252-255 | every path of a table is looked up in one step per segment if and only if no node has both a literal and a parameter child |
| RoutingLaws.FiveCallsForThreeSegments | README.md:252-255 | the promised step per segment fails: a path of three segments costs five calls |
| RoutingLaws.WorstCase | src/trie.cpp:60-97 | for every n some table and path of n segments reach 2^(n+1)-1 calls, so that bound is tight |
| TrieModel.Node.constructor | src/trie.cpp:4-9 | a segment starting with ':' makes a parameter node named by the rest |
| TrieModel.Trie.constructor | src/trie.cpp:104 | a new trie is valid and empty |
| TrieModel.Trie.InsertChild | src/trie.cpp:18-43 | returns the child at the segment's place, adding it only if missing; a parameter slot keeps its first node, hence its first name; an empty segment stays put |
| TrieModel.Trie.Insert | src/trie.cpp:45-55 | the node graph stays exactly the tree of the log, which gains this registration; existing nodes keep their places |
| TrieModel.Trie.FindFrom | src/trie.cpp:60-97 | on a miss params are what they were; on a hit they are the entry map updated along the path to the node found; the calls made are counted |
| TrieModel.Trie.SearchNode | src/trie.cpp:99-117 | the heap search is the log's lookup |
| Registry.KeySplit | src/RouteRegistry.cpp:5-7 | a key splits into the method segment and the path's own segments |
| Registry.MethodsIsolated | src/RouteRegistry.cpp:5-20 | registering under one method never changes a lookup under another |
| Registry.SlashesIgnored | src/trie.cpp:99-102 | doubled and trailing slashes never change a lookup |
| Registry.RouteRegistry.Register | src/RouteRegistry.cpp:5-7 | one more registration in the log |
| Registry.RouteRegistry.GetHandler | src/RouteRegistry.cpp:9-20 | the handler and params of the lookup; the request is untouched on a miss |
| Registry.RouteRegistry.GET | src/RoutingBase.cpp:23-28 | registers GET, then HEAD |
| Registry.RouteRegistry.ALL | src/RoutingBase.cpp:54-63 | registers all seven methods in order |
| Grafting.Peel | src/trie.cpp:60-97 | a path below a literal prefix finds the handler and params its remainder finds among the registrations below that prefix |
| Grafting.FoundIsBest | src/trie.cpp:99-117 | a request finds a handler and params if and only if they are the last handler of the best match of a linear scan and the segments bound on the way to it; it finds nothing if and only if nothing matches |
| Verbs.HeadAnswersLikeGet | src/RoutingBase.cpp:23-63 | after any registrations but through HEAD(), HEAD finds for every path what GET finds |
| Verbs.VerbSets | src/RoutingBase.cpp:23-63 | a verb call sets the handler of its pattern under each of its methods, whatever was there, and no other |
| Verbs.VerbAnswers | src/RoutingBase.cpp:23-63 | so after GET(path, h) exactly GET and HEAD, after ALL(path, h) exactly the seven methods answer a literal path with h, and other methods as before |
| Wasm.State.Reset | wasm/plusweb_wasm.cpp:109-113 | a fresh, empty registry and pattern list |
| Wasm.State.RegisterRoute | wasm/plusweb_wasm.cpp:116-140 | bad arguments and known keys are refused and change nothing; a new route gets the next position as its id, and list and trie stay in step |
| Wasm.State.DispatchPath | wasm/plusweb_wasm.cpp:143-172 | unmatched if and only if no live shape matches; a match reports the last-registered entry of the most specific shape, its pattern and its params |
| Wasm.WinnerIsLast | wasm/plusweb_wasm.cpp:134-172 | the id found is the last entry with the winning shape |
| Wasm.KeysMeet | wasm/plusweb_wasm.cpp:125-132 | two different methods share a key for some patterns if and only if one goes on from the other with " /" |
| Wasm.KeyIdentifies | wasm/plusweb_wasm.cpp:125-132 | a key in the list identifies its route among methods that do not go on from one another so, as methods without spaces never do |
| Wasm.SpacesConfuse | wasm/plusweb_wasm.cpp:125-132 | with spaces in methods two routes can share a key |
| Middleware.RunNests | src/RoutingBase.cpp:3-17 | however middleware are stacked, scoped and mounted, their enter and exit events nest properly |
| Middleware.FinalRuns | src/RoutingBase.cpp:3-17 | the final handler runs once for every way through the chain: the product of the next-call counts |
| Middleware.MiddlewareRuns | src/RoutingBase.cpp:3-17 | middleware i runs as often as those before it call next, multiplied up; never if one of them does not |
| Middleware.EndsRequest | src/RoutingBase.cpp:3-17 | a middleware that does not call next ends the request: entered, its own steps, left, and nothing else |
| Middleware.PassedOver | include/PlusWeb/RoutingBase.h:40-57 | a scope, mount or sub-router a request is outside of is passed over as if it were not in the chain, and inside its scope a middleware is as if unscoped |
| Middleware.ChainAppend | src/Router.cpp:14-36 | a chain cut in two runs its first part and then its second, for every request |
| Middleware.MountedMiddlewareRuns | src/HttpServer.cpp:315-336 | at and below the mount, middleware i of a mounted router is entered as often as those before it call next, multiplied up, and elsewhere never |
| Middleware.MountedRoutesAsked | src/HttpServer.cpp:315-336 | its routes are asked once for every way through its middleware, and each time either one of them answers or the rest of the server does |
| Middleware.MountedIsServer | src/HttpServer.cpp:310-336 | whatever middleware a mounted router has, it does what it would do as a server of its own on the relative path, as long as that has no 404 to give |
| Middleware.Exchange.Continue | src/HttpServer.cpp:251-258 | the chain run on the mutable exchange ends in the interpreter's state; the recursion terminates |
| Middleware.Exchange.Invoke | src/HttpServer.cpp:294-337 | the mount, sub-mount and scope closures, rewriting and restoring the path in place, do what the interpreter says |
| Mounting.NormalizedSegments | src/Router.cpp:104-122 | normalizing a mount path keeps its segments |
| Mounting.NormalizeTwice | src/HttpServer.cpp:275-285 | the result starts with '/'; normalizing again changes it exactly when the path is longer than two characters and ends in two slashes |
| Mounting.EngagedFindsSame | src/HttpServer.cpp:294-337 | at and below its mount point a router's routes are found, handler and params, as in a flat registry of the prefixed patterns |
| Mounting.MountEqualsPrefixingExactly | src/HttpServer.cpp:296-308 | mounting and prefixing agree for every router if and only if the path continues the mount path at a boundary or does not start with its segments |
| Mounting.MountedAsWritten | src/HttpServer.cpp:273-308 | for a mount path as the user wrote it, slashes around it or not: mounting there and registering the patterns with that text in front agree for every router if and only if the path continues the normalized text at a boundary or does not start with its segments |
| Mounting.DoubledSlashNotMounted | src/HttpServer.cpp:298-303 | a path the flat registry would serve and the mount declines |
| Mounting.MountedRouterStep | src/HttpServer.cpp:310-336 | a mounted router answers with the flat registry's handler on the relative path, or hands the untouched request on |
| Mounting.OwnRoutesAnswer | src/HttpServer.cpp:238-249 | at the end of the chain the server answers with the handler of the best match of its own routes, params set, and with a 404 if and only if nothing matches |
| Mounting.MountedServer | src/HttpServer.cpp:233-258 | a chain of mounted routers answers from the first flat table of prefixed patterns that has the path, on the relative path, and else from the server's own routes, or with a 404, on the path asked for |
| Mounting.NotFoundNamesOriginalPath | src/HttpServer.cpp:310-331 | whatever routers are mounted, used inside others or scoped, and whatever their middleware do to the path, every 404 names the path asked for, as long as the server's own middleware call next only on the path they were given, untouched or set back |
| Mounting.CalmExactly | src/HttpServer.cpp:251-258 | and that condition is exact: a middleware is calm on a request if and only if every 404 names the path asked for whatever calm middleware and routes come after it |
| Mounting.RewriteReported | src/HttpServer.cpp:244-248 | a server middleware that sets the path and calls next makes the 404 name that path |
| Mounting.SecondNextReported | src/HttpServer.cpp:310-331 | so does one that calls next twice, when a mounted router answers the first call and leaves the relative path behind |
| Mounting.SecondNextOnApi | src/HttpServer.cpp:310-331 | such a server: a router with /x mounted at /api, asked for /api/x |
| Mounting.SubRouterExactly | src/Router.cpp:64-102 | for every mount path: a sub-router agrees with prefixing for all its routes if and only if a path starting with the mount text goes on at a boundary, which it always does behind a trailing slash, and any other path does not start with the mount path's segments |
| Mounting.SubRouterAsWritten | src/Router.cpp:59-102 | the same for the path handed to use, normalized as it is |
| Mounting.ApiaryCaptured | src/Router.cpp:73-81 | a sub-router used at /api answers /apiary, which the flat registry does not |
| Mounting.SubRouterStep | src/Router.cpp:69-99 | where a path goes on at a boundary, a sub-router answers with the flat registry's handler and params and puts the path back, or hands the untouched request on |
| UrlCodec.UrlEncode | include/PlusWeb/utils.h:55-81 | the loop computes the encoding |
| UrlCodec.UrlDecode | include/PlusWeb/utils.h:31-53 | the loop, reading ahead up to the terminating NUL, computes the decoding |
| UrlCodec.RoundTrip | include/PlusWeb/utils.h:27-81 | decoding an encoded byte string gives it back, for all bytes |
| UrlCodec.SpellingDecodes | include/PlusWeb/utils.h:27-53 | every spelling of a text decodes to it: any byte escaped, hex digits in either case, a space also as + |
| UrlCodec.UnfinishedDropped | include/PlusWeb/utils.h:36-50 | a % that no two further bytes follow is dropped |
| UrlCodec.EncodedIsSafe | include/PlusWeb/utils.h:58-78 | encoded text is unreserved characters and '%'; only text with reserved bytes changes |
| UrlCodec.DecodeDistributes | include/PlusWeb/utils.h:36-50 | decoding distributes over a cut if and only if the left part leaves no escape unfinished |
| UrlCodec.DecodeShortens | include/PlusWeb/utils.h:36-52 | decoding never lengthens |
| Target.ApplyTarget | src/HttpParser.cpp:16-39 | path and query of the decoded target, scheme and authority taken off |
| Target.AbsoluteFormSame | src/HttpParser.cpp:19-29 | the absolute form gives the decoded origin form, and the same target as it if and only if that holds no "://" |
| Target.OriginFormKept | src/HttpParser.cpp:19-23 | a decoded target is kept whole if and only if it has no "://" |
| Target.LinkInQueryMisread | src/HttpParser.cpp:19-23 | a link in a query is taken for the target's own scheme and authority |
| Target.QueryRoundTrip | src/HttpParser.cpp:19-38 | percent-encoded name=value pairs without separators come back as the map they were written from, last duplicate winning, behind an origin-form path if they hold no "://", behind an absolute form with a path in any case |
| Target.FieldReturns | src/HttpParser.cpp:16-38 | an encoded field comes back as itself if and only if its name has no =, & or NUL, its value no & or NUL, and either the path is an absolute form with a slash behind the authority, or neither path nor field holds "://" |
| Target.LinkLost | src/HttpParser.cpp:19-29 | u=b://c/d behind /a is lost though it holds no separator |
| Target.EscapedSeparatorCuts | src/HttpParser.cpp:16-38 | a=1%26b is read as a=1 |
| HttpParser.Impl.CommitHeader | src/HttpParser.cpp:64-70 | a named header is stored, and both buffers are emptied |
| HttpParser.Impl.ChargeBytes | src/HttpParser.cpp:75-83 | refuses, and records the limit, exactly when the budget is exceeded |
| HttpParser.Impl.ResetRequest | src/HttpParser.cpp:85-93 | the fields of a fresh message; the recorded failure stays |
| HttpParser.Impl.OnUrl | src/HttpParser.cpp:95-100 | one step of the event semantics |
| HttpParser.Impl.OnHeaderField | src/HttpParser.cpp:104-113 | one step of the event semantics, committing the header before |
| HttpParser.Impl.OnHeaderValue | src/HttpParser.cpp:115-121 | one step of the event semantics |
| HttpParser.Impl.OnMessageComplete | src/HttpParser.cpp:133-167 | the request delivered, with its empty Content-Type for an untyped body, or the failure recorded |
| HttpParser.Impl.Execute | src/HttpParser.cpp:184-202 | runs the callbacks to the first refusal; 431 for the header limit, 400 for any other error |
| ParserLaws.AbsorbFront | src/HttpParser.cpp:95-131 | however cut, a message's events leave its target, header map and body |
| ParserLaws.RunNoEnd | src/HttpParser.cpp:75-121 | a message is refused with the limit failure if and only if its bytes exceed what is left of the budget, whatever the fragmentation |
| ParserLaws.MessageAnswer | src/HttpParser.cpp:133-167 | one message, however cut, makes its own answer and leaves a fresh parser, budget restarted |
| ParserLaws.AnswerMeans | src/HttpParser.cpp:133-167 | a message fails for the limit exactly if it exceeds it, and for its JSON exactly if it has a body, its last Content-Type says JSON and it is none; else the request has its method, version, the last value of each header name, an empty Content-Type for an untyped body, and its body, parsed exactly if said to be JSON |
| ParserLaws.TargetRead | src/HttpParser.cpp:16-39 | and the path and query fields its target was written with |
| ParserLaws.FragmentationInvariant | src/HttpParser.cpp:64-202 | for every cut of a message stream, the last message perhaps unfinished, into callbacks and execute calls: the same requests delivered and the same failure or none |
| ParserLaws.RequestsAreOwn | src/HttpParser.cpp:156-161 | request k depends on message k only |
| ParserLaws.UnfinishedDeliversNothing | src/HttpParser.cpp:95-131 | no handler call before a message is complete |
| ParserLaws.RunBudgeted | src/HttpParser.cpp:75-121 | in every unfailed state the target and header bytes held are at most those charged, and those at most the limit |
| Decimal.NumberRoundTrip | bench/loadgen.cpp:54 | strtol reads back a size written by to_string |
| Responses.HttpBody.SetJson | src/HttpBody.cpp:3-7 | raw text is the dump of the stored value |
| Responses.LengthIsEmitted | src/HttpBody.cpp:25-38 | the announced length is the written one unless a form body is not empty |
| Responses.SetKeeps | src/HttpResponse.cpp:171-174 | setting a header keeps the map ordered, holds the new pair, and leaves the others |
| Responses.Serialize | src/HttpResponse.cpp:13-58 | head plus body is the same text for every split point; without a body the head alone |
| Responses.Finish | src/HttpServer.cpp:260-267 | the response sent, with Connection and Content-Length set last, and no body for HEAD |
| Responses.FinishedSays | src/HttpServer.cpp:260-262 | a finished response says close or keep-alive as it is told and the length of its body, once each, and is the handler's in every other header, status and body |
| Responses.HeadResponse | src/HttpServer.cpp:260-267 | what HEAD sends is what another method would send, less exactly as many bytes at the end as its one Content-Length announces |
| Responses.HttpResponse.SendJson | src/HttpResponse.cpp:230-235 | the response with this body and the two headers describing it, all else unchanged |
| Responses.HttpResponse.SendText | src/HttpResponse.cpp:237-242 | the response with this body and the two headers describing it, all else unchanged |
| Responses.HttpResponse.SendBinary | src/HttpResponse.cpp:258-265 | the response with this body and the two headers describing it, all else unchanged |
| Responses.DescribedAnnounces | src/HttpResponse.cpp:230-265 | such a response announces its type and its length, once each, and keeps every other header |
| Reading.ReadBack | src/HttpResponse.cpp:13-58 | a client splitting at CRLF, blank line, colon and spaces reads back protocol, status, its text, every header in order, and the body |
| Reading.CloseSaid | src/HttpServer.cpp:260-262 | and whether the connection closes |
| Framing.StatusLineIsPlain | src/HttpResponse.cpp:15-35 | a status line without colon or CR in protocol and text cannot be taken for a Content-Length header, so a response without own headers is framable |
| Framing.SentFrames | bench/loadgen.cpp:43-57 | with any bytes behind a finished head, the reader waits for the announced length and then reports exactly head plus body |
| Framing.NoLengthNoBody | bench/loadgen.cpp:44-53 | a head without a Content-Length announces no body, even if the bytes behind it look like one |
| Framing.FramedExactly | src/HttpResponse.cpp:49-57 | the reader finds a response's end, whatever follows, if and only if it is not a non-empty form body |
| Framing.PrefixIncomplete | bench/loadgen.cpp:43-57 | every proper prefix of a response yields 0 |
| Framing.StreamRoundTrip | bench/loadgen.cpp:43-57 | cutting concatenated responses apart gives each back and keeps an unfinished last one |
| Framing.CutPrefix | bench/loadgen.cpp:43-57 | whatever part of a stream has come, cutting gives its first responses, all of them for the whole stream, and loses no byte |
| Framing.AnswerFramed | src/HttpServer.cpp:260-267 | a reader that knows the method finds exactly the response, whatever follows, and waits for the whole of it: an answer to HEAD with any body, to other methods with any but a form body |
| Framing.CutForPrefix | src/HttpServer.cpp:260-267 | whatever part of a stream of such responses has come, that reader cuts off its first ones, all of them for the whole stream |
| Framing.Client.Readable | bench/loadgen.cpp:143-163 | one readable event in keep-alive mode hands over the first complete response, if there is one, and keeps the rest; a reconnect, which close mode makes after each response, starts from an empty buffer |
| Framing.OnePerEvent | bench/loadgen.cpp:138-163 | over a stream cut into any reads: responses in order, at most one a read, no byte lost, and one at every read if and only if the i-th response has arrived by the i-th read |
| Connection.Conn.Close | src/HttpServer.cpp:52-58 | uv_close on the first call only |
| Connection.Conn.Send | src/HttpServer.cpp:74-90 | queues the response, or frees it and closes when the write is refused |
| Connection.Conn.ReadCallback | src/HttpServer.cpp:92-120 | a response per handled request in order, an error response last if parsing failed, and then perhaps the close |
| Connection.Conn.WriteCallback | src/HttpServer.cpp:60-66 | frees the write, and closes if it failed |
| Connection.Loop.StopAll | src/HttpServer.cpp:144-160 | afterwards every connection is closing |
| Connection.LiveWhenCalled | src/HttpServer.cpp:48-120 | no callback touches a freed connection |
| Connection.RunSound | src/HttpServer.cpp:48-120 | in every run uv_close at most once, the connection and each write freed at most once |
| Connection.NothingLeaks | src/HttpServer.cpp:48-90 | when the connection is freed, every write ever made has been freed exactly once |
| Connection.ResponsesMatchRequests | src/HttpServer.cpp:74-120 | at every moment of every run and every arrival of the stream: owed are one response per handled request, in order, then one error response exactly when a message failed or the bytes were malformed; queued are the first of these, all if and only if no write was refused; with one missing or the error due the connection is closing |
| Connection.ClosesExactly | src/HttpServer.cpp:48-160 | at every moment of every run the connection is closing if and only if there was a read error, a stop, a failed or refused write, malformed bytes, a read whose last finished message does not keep alive, or a message that failed |
| Connection.CloseAfterLast | src/HttpServer.cpp:102-119 | closing after the last request of a read is closing after any that does not keep alive |
| Service.ServedInOrder | src/HttpServer.cpp:92-120 | from request bytes to response bytes, for every run and every cut of the stream: written are a response to each handled request, in order, made from that request's own message by the chain and its handlers, up to the first message that fails, then the error response exactly when one failed or the bytes were malformed, all if and only if no write was refused; each says close exactly if its request does not keep alive or it is the error response; a client that knows its methods cuts the first of them off whatever part it has read, and all of them off the whole |
| Service.PlainServerAnswers | src/HttpServer.cpp:233-267 | a server of mounted routers answers from the first router that has a route, else with the best match of its own routes, and if nothing matches with status 404 and JSON naming path and method |
| Service.UnfoundGets404 | src/HttpServer.cpp:233-267 | a request found in no flat table of a mounted router and not among the server's own routes gets the 404 and nothing else |
| Service.HandledOnce | src/RoutingBase.cpp:3-17 | a request with one way through the server's middleware: each is entered once, one handler runs, and the response is what they make of it, in order |
| Service.HandledInFront | src/HttpServer.cpp:92-115 | the requests answered are those of the messages in front of the first that fails |
| Service.OutRead | src/HttpServer.cpp:223-267 | a client reads back the response behind what is queued; an error response has its status and its JSON |
| Service.OwnAnswersFrame | src/HttpServer.cpp:223-249 | the server's own 404s and error responses are framed, whatever their JSON, when the status text has no colon and no CR |

## Left out

- The grammar of llhttp, libuv itself, sockets, threads, accept errors and logging: replaced by the event stream and the contract above.
- `isLeaf`: written as the source does and claimed nothing about; no lookup reads it. `dumpNode`, which prints it, is not modelled.
- The destructors: that each node has one place and one parent is proved, the recursive deletion is not modelled.
- `RegisterMiddleWare` and the live registry behind a mounted router: a chain is given as the list in force when a request arrives.
- User middleware: decides its steps on the request as it enters, so what it reads back after `next` returns does not steer it; storing `next` for later is not modelled. Handlers are known by identity and leave the request as it is; what they write into the response is a parameter of Service.
- The verb methods POST, PUT, DELETE, PATCH, OPTIONS and HEAD: each is one call of Register; `Registers` lists them.
- Machine widths: lengths, counters and ids are unbounded, except in `response_len`, which wraps at 64 bits, and in `strtol`, which clamps.
- `from_hex` on bytes above 127: taken as the byte arithmetic gives it, where the C library leaves `isdigit` of a negative char undefined.
- The status of a response nobody has set: uninitialised in the source, 200 in the model.
- Form and multipart bodies: they have a length and are not written; `FramedExactly` says so, and their setters and encoding are not modelled.
- `HttpResponse::send` of an HttpBody, the status-text table, `readFile`, `mimeTypeFor` and `printRequestInfo`: table lookups and I/O.
- Chunked trailers, and headers without any value callback: outside the event grammar.
- ServedInOrder: asks of the responses that they have an end to find: no form body but to HEAD, because such a body is announced and not written (`FramedExactly`), and headers that frame.
- MountedAsWritten: mount paths of literal segments, because a mount compares text and a ':name' in it matches only itself.
- The load generator's sockets, requests, timing, close mode and reconnects; Client is its buffer and its count.
- Delivery of queued bytes after `uv_close`: only the queueing order is claimed.

# goichi, verified

A Dafny model of the parts of goichi that decide things: the radix-tree router, the load balancer
with its retry loop and health checker, the TCP proxy's connection accounting and byte pump, the
rate limiter and the response cache. Everything below is proved for all inputs, all routes, all
runs. `dafny verify dfyconfig.toml` checks the project.

## How it is organised

The router has four layers, each proved to refine the next.

1. `RadixNode` is the code's own form: nodes whose fields `Insert` rewrites in place, and a
   backtracking `Match` that appends to one shared capture slice, modelled with the aliasing that
   Go slices have (a failed branch may overwrite what lies behind the mark).
2. `RadixTree` says what these compute, as functions on tree values. `TreeInsert` proves that one
   insertion changes the meaning of a tree at one token sequence only, node splits included, and
   keeps the representation invariant; `TreeSearch` proves that backtracking finds the least
   matching pattern; `SearchCost` bounds the nodes it visits.
3. `RouteScan` is the router without a tree: scan the route list, tokenise each route
   (`Pattern`), take the matching pattern of highest priority (token by token, literal before
   parameter before catch-all, end of pattern first), the last registration among equals.
   `RouteScan.TreeSearchIsScan` joins the two: same handler, same captured values, same keys.
4. `Router` is the object that collects declarations, compiles them once and answers requests.
   `RouterSpec` is its meaning on the list of declarations alone, and `RouterLaws` says what that
   meaning amounts to: the middleware a request runs, 404, 405, OPTIONS and HEAD, and what does not
   matter (order, case, trailing slashes). `Group` adds nested prefixes and middleware arrays, and
   `GroupLaws` the end-to-end statement for calls on the router and on any number of groups,
   interleaved in any order with each other and with requests, the first of which freezes the
   declarations; `GroupRuns` runs such scripts on the objects. `RouterMeaning` tells who serves, and
   with which parameters, from the declared paths as a whole.

The proxies: `RoundRobin` is the arithmetic of a 64-bit counter over a weighted pool, `Retry` the
retry loop as a computation, `WrapCoverage` what it covers when the counter wraps, `Fnv1a` the
client-key hash, `Balancer` and `Proxy` the objects with their counters, `Sticky` what IPHash keeps
when the healthy set changes, `Health` the threshold machine, `TcpAccounting` a system of
interleaved goroutine steps, `TcpRelay` the copy loop. `RateLimit`, `SharedLimits` and `Cache` are
timed state machines with the maps the middleware keeps.

Probe results, dial results, transport outcomes, hooks, chunking of reads and writes, and every
clock reading are arbitrary inputs.

## Where the code and its comments part

- `/` is served by the root node's own handler only (router.go:286), so `/*rest` does not serve
  `/`, although a search of the tree would find it (node.go:183-188).
  `RouterLaws.SlashNeedsItsOwnRoute` says exactly when the two differ.
- A parameter keeps the key of the first route that created its node, a catch-all the key of the
  last (node.go:43-50, node.go:59-63); `RouteScan.KeyFor` is that rule on the route list.
- IPHash is said to keep a client on a target as long as that target is healthy
  (proxy/balancer.go:19-20). When another target goes down the pool shrinks, and the client stays if
  and only if its hash, modulo the smaller pool, still falls on its target's places
  (`Sticky.StickyExactly`, for any weights; `Sticky.PickAcrossTakedown` on the objects). With three
  targets of weight one, a client on the loopback address is moved by either of the other two going
  down (`Sticky.LoopbackClientMoves`). For any change of the healthy set, targets coming back
  included, see `Sticky.StaysAcrossChange`.
- A retry is said to ask "until an untried target comes up" (proxy/proxy.go:239-240). Least
  connections and IPHash return the same target again, so they try one target. Round robin reaches
  as many targets as it may, from every counter value that does not wrap within the request, exactly
  when no weight exceeds the number of targets plus one (`Proxy.RetryCoverageExactly`); from every
  counter value at all, exactly when besides that one attempt has the picks to get past the place
  where the wrap breaks the walk off (`Proxy.RetryCoverageFromEveryCounter`). Weights of one always
  qualify (`Proxy.UnitWeightsAlwaysCover`).
- Round robin turns that meet the wrap of the 64-bit counter are fair if and only if the picks
  between the last whole turn and the wrap take what the last entries of the pool would have been
  (`RoundRobin.TurnsAreFairExactly`, for any weights). Between targets of weight one that means: the
  wrap falls between two turns, or the pool size divides 2^64
  (`RoundRobin.DifferentEntriesFairExactly`).
- A target is said to come back after SuccessThreshold consecutive successes
  (proxy/health.go:15-17). A failed dial marks a target down without touching the counter
  (proxy/tcp.go:339), so failures counted before may pass for successes after
  (`Health.MarkDownShortensReturn`; exact bounds in `Health.NeededIsBounded`). The whole threshold is
  needed after a mark-down if and only if the latest probe had not failed, or the threshold is one
  (`Health.WholeThresholdExactly`).
- The rate limiter reads the clock twice per request (middleware/ratelimit.go:18 and 51). Its
  eviction sweep is invisible if and only if the two readings agree or nothing is ever admitted
  (`RateLimit.EvictionInvisibleExactly`).
- All limiters of a program share one map of visitors (middleware/ratelimit.go:15). A limiter still
  admits at most twice its limit per own window, whatever runs beside it, if and only if its limit is
  at most one or no other window is shorter than its own by two or more
  (`SharedLimits.OwnBoundExactly`). How far it may go beyond grows with the number of other windows
  that fit into its own (`SharedLimits.ManyWindowsInOne`). Per smallest window of all, twice its own
  limit always holds (`SharedLimits.TwiceTheLargestLimit`).

## Model

| member | source | states |
|---|---|---|
| `Bytes.HasPrefix` | node.go:208-221 | the prefix loop decides prefix-ness byte for byte, up to ASCII case when folding, in both directions |
| `Bytes.FoldsLettersOnly` | node.go:223-228 | folding joins 'A'..'Z' with 'a'..'z' and no other two bytes |
| `Bytes.CommonPrefixUnique` | node.go:231-243 | the shared run is the only length whose bytes agree and after which a byte differs or a string ends |
| `Bytes.FindCommonPrefix` | node.go:231-243 | the index loop returns that length |
| `Pattern.LessTotal` | node.go:124-126 | route priority is a strict total order on patterns |
| `Pattern.LessTransitive` | node.go:124-126 | and it is transitive |
| `Pattern.PriorityIs` | node.go:124-126 | a literal goes before a parameter, a parameter before a catch-all, the end of a pattern before anything |
| `Pattern.ParseSpells` | node.go:32-80 | the pieces of a route, written down again, are the route, up to the case of folded literals |
| `Pattern.ParsePieces` | node.go:32-80 | no wildcard mark is a literal, a parameter's key has no '/' and ends its segment, a catch-all comes last |
| `Pattern.LessAfterPrefix` | node.go:192-202 | a shared beginning never influences priority, so a search may decide token by token |
| `Pattern.MatchesAfterLits` | node.go:154-158 | matching a run of literals is one folded prefix test followed by matching the rest, with the captures of the rest |
| `PatternLaws.ParseIsProper` | node.go:32-80 | every tokenised route has folded literals, parameters that end their segment, and a catch-all only at the end |
| `PatternLaws.RebuildAfterMatch` | node.go:160-176 | substituting what a match captured rebuilds the path, exactly in the wildcards and up to case in folded literals |
| `PatternLaws.MatchAfterRebuild` | node.go:160-176 | the other way round: a path built from a pattern and admissible values matches, and gives those values back |
| `PatternLaws.MatchesExactly` | node.go:152-177 | a path matches if and only if it is the pattern with admissible values put in, up to case in the literals |
| `PatternLaws.MatchesFolded` | node.go:207-228 | paths equal up to ASCII case match the same folded patterns with values equal up to case |
| `Handlers.WrapAllRuns` | router.go:180-183 | a compiled chain runs its middleware in order, first outermost, around the handler it was given |
| `Handlers.Compile` | router.go:180-183 | the backward wrapping loop builds exactly that chain |
| `RadixTree.IndexOfIs` | node.go:43-48 | the child a token leads into is the first one that the token enters |
| `RadixTree.ToMapIs` | node.go:142-145 | a parameter map has the keys of the captures, each with the value of its last capture |
| `TreeInsert.InsertAt` | node.go:26-116 | seen as a map from token sequences to handlers and keys, the tree after an insertion is the old map updated at the route's own tokens, plus the wildcard keys on its way; nothing else changes |
| `TreeInsert.SplitFind` | node.go:96-104 | splitting a node changes the meaning of no token sequence |
| `TreeInsert.InsertKeepsShape` | node.go:26-116 | every insertion keeps the representation invariant: literal labels non-empty and free of wildcards, siblings distinct in their folded first byte, one parameter and one catch-all at most, catch-alls leaves with a handler, below a parameter at most one child that starts with '/' |
| `TreeInsert.AtReplaced` | node.go:82-107 | changing a child changes only the sequences that enter it |
| `TreeInsert.AtAppended` | node.go:109-115 | a new child changes only the sequences that its first token leads into |
| `TreeSearch.BelowLeast` | node.go:179-205 | below a well-formed node, a hit is the stored matching pattern that no stored matching pattern precedes, with its values and keys; no hit means that no stored pattern matches |
| `TreeSearch.TryLeast` | node.go:193-202 | trying literal, parameter, catch-all in turn yields the least pattern among all the classes from one on |
| `TreeSearch.NodeLeast` | node.go:152-177 | the same through a node's own label, segment or catch-all |
| `SearchCost.VisitsOnce` | node.go:192-202 | however much a search backtracks, match is called on no node twice, and on nodes of the tree only |
| `SearchCost.VisitsAtMostSize` | node.go:192-202 | so a search makes at most as many calls as the tree has nodes |
| `RouteScan.ScanIsLeast` | node.go:124-126 | the linear scan's winner matches, precedes or equals every matching route, and is the last of its equals; none means no route matches |
| `RouteScan.LastExactIs` | node.go:27-30 | the last registration of a pattern is the one that counts |
| `RouteScan.BuiltTreeIsWellFormed` | router.go:170-194 | the invariant holds of the tree of every route list |
| `RouteScan.BuiltHandler` | router.go:170-194 | the built tree holds, at each token sequence, the handler of the last route with those tokens and nothing where there is no route |
| `RouteScan.BuiltKey` | node.go:43-63 | each wildcard position has the key of the first route through it if a parameter, of the last if a catch-all |
| `RouteScan.KeyForIs` | node.go:43-63 | a parameter is named as in the first route through its place, a catch-all as in the last |
| `RouteScan.WalkMeetsStoredKeys` | node.go:173-176 | the keys a search binds on its way down are those stored along the winning pattern |
| `RouteScan.SearchFindsScan` | node.go:131-205 | tree and scan agree on whether a route serves a path, and on which |
| `RouteScan.TreeSearchIsScan` | node.go:131-205 | the main theorem: for every route list and path, searching the tree equals the linear scan in handler, values and keys |
| `RadixNode.Append` | node.go:173 | appending to a slice never disturbs the elements it already has, in place or copied |
| `RadixNode.CutSegment` | node.go:161-169 | cutting at the first '/' yields one segment and the rest from the '/' on |
| `RadixNode.CapturesToMap` | node.go:138-146 | captures become a map with later bindings winning; no captures, no map |
| `RadixNode.Node.constructor` | node.go:109 | a fresh node is a leaf of the given kind that shares nothing |
| `RadixNode.Node.TakingOver` | node.go:96-101 | the lower half of a split takes over children and handler |
| `RadixNode.Node.Split` | node.go:96-104 | in-place splitting computes the split of the tree value |
| `RadixNode.Node.Insert` | node.go:26-116 | in-place insertion keeps the node graph a tree and computes the insertion on tree values |
| `RadixNode.Node.InsertParam` | node.go:32-54 | its parameter branch |
| `RadixNode.Node.InsertCatchAll` | node.go:56-72 | its catch-all branch, where the last registration replaces handler and key |
| `RadixNode.Node.InsertLiteral` | node.go:77-115 | its literal branch, with descent, split or a new child |
| `RadixNode.Node.FirstShared` | node.go:82-89 | the loop finds the one static child that shares a beginning, and how much |
| `RadixNode.Node.Match` | node.go:152-205 | with a shared capture buffer, match returns the handler and exactly the captures of a search that copies; what the caller had bound survives every failed branch; the nodes it is called on are those `SearchCost` lists |
| `RadixNode.Node.MatchParam` | node.go:160-173 | its parameter branch: one non-empty segment, bound under the node's key |
| `RadixNode.Node.MatchRest` | node.go:179-204 | the same for the part below the label, with the loop over kinds |
| `RadixNode.Node.MatchOfKind` | node.go:194-201 | the same for the inner loop: the first child of one kind that matches |
| `RadixNode.Node.MatchEmptyRest` | node.go:179-189 | at the end of the path, the node's own handler or a bare catch-all child's |
| `RadixNode.Node.Search` | node.go:131-147 | search returns the hit's handler and parameter map, nil for no parameters, calling match on no node twice |
| `RouterSpec.DeclsForAreRoutes` | router.go:172-193 | a verb's tree is built from exactly the declarations for that verb, in order |
| `RouterSpec.LookupInPicks` | router.go:283-295 | what a route table answers is the picked route's handler |
| `RouterSpec.BeforeTotal` | router.go:269 | the order of the Allow list is total |
| `RouterSpec.BeforeTransitive` | router.go:269 | and transitive |
| `RouterSpec.BeforeIs` | router.go:269 | the first byte that differs decides, the smaller first; a beginning goes before the whole |
| `RouterSpec.SortedUnique` | router.go:269 | two strictly sorted lists with the same members are equal, so the order of walking the map of trees cannot show |
| `Router.Router.constructor` | router.go:84-90 | a new router has no declarations |
| `Router.Router.Use` | router.go:94-96 | appends global middleware and nothing else |
| `Router.Router.SetAuthMiddleware` | router.go:99-101 | replaces the authentication middleware and nothing else |
| `Router.Router.AddRoute` | router.go:139-161 | records a declaration with its path rooted, under a handle of its own |
| `Router.Router.OptOut` | route.go:87-90 | NoAuth through a handle changes that declaration only |
| `Router.Router.CompileEntry` | router.go:173-183 | compiles globals, authentication unless opted out, then route middleware |
| `Router.InsertInto` | router.go:188-193 | inserting into one verb's tree in place leaves the other verbs' trees as they were |
| `Router.ModelsStep` | router.go:172-194 | one turn of the build loop changes the tree of one verb only, creating it when new |
| `Router.Router.BuildTrees` | router.go:170-194 | the build loop yields one tree per verb, holding that verb's routes, sharing no nodes |
| `Router.Router.Build` | router.go:165-197 | the first build freezes the declarations; later ones change nothing |
| `Router.Router.LookupTree` | router.go:286-290 | one tree's answer is the route table's, root handler for "/" included |
| `Router.SortStrings` | router.go:269 | a strictly sorted list of the same strings |
| `Router.AppendIfMissing` | router.go:357-362 | adds a string at the end unless it is there |
| `Router.Router.CollectAnswering` | router.go:253-268 | walking the trees in any order collects exactly the verbs that answer, once each |
| `Router.Router.AllowedMethods` | router.go:253-271 | the result is the one sorted list of the verbs that answer |
| `Router.Router.HandleRequest` | router.go:274-327 | the whole request equals the specification on the frozen declarations, and declarations made after the first build do not show |
| `Router.Router.Answer` | router.go:283-326 | the same for a normalised path |
| `RouterLaws.RunSummary` | router.go:94-161 | after any interleaving of calls, what counts is all middleware used, the last authentication, the declarations in order, and which were opted out |
| `RouterLaws.LookupIsWinner` | router.go:173-193 | a route is found exactly when the scan has a winner, and runs the winner's handler in the winner's own chain |
| `RouterLaws.EndToEnd` | router.go:169-197 | a served request runs every global middleware, authentication unless that route opted out, the route's own middleware and its handler, whatever the order of the calls that set this up |
| `RouterLaws.AnsweringIsExact` | router.go:253-271 | the Allow list holds a verb if and only if that verb serves the path, strictly sorted |
| `RouterLaws.AnsweringNonEmpty` | router.go:299 | it is empty exactly when no verb serves the path |
| `RouterLaws.NotFoundExactly` | router.go:297-326 | an unserved request gets 404 if and only if no verb serves its path |
| `RouterLaws.HeadBorrowsGet` | router.go:305-319 | HEAD without a route gets GET's handler and parameters with the body dropped; the second lookup cannot come back nil |
| `RouterLaws.OthersGetTheAllowList` | router.go:299-324 | every other unserved request gets 405, or the OPTIONS reply, with exactly the serving verbs plus OPTIONS |
| `RouterLaws.SlashNeedsItsOwnRoute` | router.go:286 | "/" is served only by a route declared as "/", whereas a search would also take a bare catch-all; when they differ, exactly |
| `RouterLaws.OrderDoesNotMatter` | node.go:26-116 | lists of the same pairwise different patterns, in any order, serve every path with the same route |
| `RouterLaws.TrailingSlashesDoNotMatter` | router.go:242-250 | without StrictSlash, any number of trailing slashes leaves the whole reply as it is |
| `RouterLaws.CaseDoesNotMatter` | router.go:237-250 | without CaseSensitive, requests equal up to ASCII case get the same handler and keys, and values equal up to case |
| `RouterLaws.CapturesSpellThePath` | node.go:149-204 | the values a lookup captured, put into the winning pattern, spell the request path |
| `RouterMeaning.TrimSlashesIs` | router.go:242-250 | a trimmed path is the path without some slashes at its end, and ends in none |
| `RouterMeaning.RequestPathIs` | router.go:278-281 | a request is looked up at its own path, trimmed unless StrictSlash, "/" if nothing is left |
| `RouterMeaning.RootedIs` | router.go:140-145 | a declared path begins with '/', one in front if it had none |
| `RouterMeaning.FullIsRoute` | router.go:188-193 | the route built from a declaration is its normalised path behind the first '/' |
| `RouterMeaning.WinnerExactly` | router.go:274-295 | on whole declared paths: a declaration serves a path if and only if it has the verb, its tokens match, none that match go before it, and it is the last of its tokens; nobody serves if and only if none match |
| `RouterMeaning.PlainCanServe` | router.go:186-193 | a declared path without wildcards matches itself, normalised and up to case when folding, and nothing else |
| `RouterMeaning.PlainPathIsServed` | router.go:274-295 | and is served at itself, whatever wildcard routes there are, by its own declaration or a later one of the same tokens |
| `RouterMeaning.CaseSensitiveIsExact` | router.go:42-45 | with CaseSensitive such a path is met by itself only, without it by all that differ in the case of ASCII letters only |
| `RouterMeaning.StrictSlashTellsApart` | router.go:242-250 | with StrictSlash a path does not serve itself with a slash more or less at the end |
| `RouterMeaning.LookupCaptures` | router.go:286-290 | the captures of a lookup, place by place: key and value of each wildcard of the winner's path |
| `RouterMeaning.ServedReply` | router.go:286-294 | the whole reply to a served request: the winner's chain and handler, no Allow list, the body kept, nil parameters just without wildcards, otherwise under each key the value captured at its place |
| `Group.NestedPrefixIsJoined` | group.go:12-16 | however deep the nesting, each level adds one segment |
| `Group.NestedPathIsJoined` | group.go:58-68 | a route's full path is the joined prefix and its own path, "/" when both are empty |
| `Group.JoinIs` | group.go:58-68 | one slash between prefix and path, however either is written |
| `Group.JoiningMakesNoEmptySegment` | group.go:12-16 | prefixes and paths without empty segments make paths without any |
| `Group.Group.Merge` | group.go:70-74 | the merged middleware is parent's then own, in an array nobody else holds |
| `Group.Group.Sub` | group.go:12-23 | a nested group extends prefix and middleware and shares no storage with its parent |
| `Group.Group.Handle` | group.go:25-43 | declares the full path with the group's middleware before the route's |
| `Group.MakeGroup` | app.go:263-271 | a group of the application gets a rooted prefix and keeps the caller's own middleware array |
| `GroupLaws.GroupsHoldTheirLineage` | group.go:12-23 | after any interleaving of calls, each group has the prefix and the middleware of its own ancestors, outermost first, and nothing of its siblings' |
| `GroupLaws.DeclarationsComeFrom` | group.go:25-43 | each route declared through a group has the group's prefix and ancestors' middleware in front of its own |
| `GroupLaws.EndToEndThroughGroups` | router.go:169-197 | a served request runs all globals, authentication unless opted out, the middleware of the route's groups outermost first, its own, then its handler, for every interleaving of calls on the router and all groups |
| `GroupLaws.FirstRequestFreezes` | router.go:165-167 | among any calls, the first request freezes the declarations made so far: every request of the run is answered by these, whatever is declared in between |
| `GroupLaws.EveryReplyEndToEnd` | router.go:273-295 | every served request of such a run runs globals, authentication, group middleware and own middleware as declared before the first request |
| `GroupRuns.Declaring` | group.go:12-43 | one declaring call on the objects has its specified effect, leaves every other group's array as it was and what was compiled untouched |
| `GroupRuns.Answering` | router.go:273-327 | one request on the objects gets the specified reply, compiling first if it is the first |
| `GroupRuns.Execute` | group.go:18-21 | any script of calls and requests on real objects ends in the specified router, groups and replies |
| `RoundRobin.TurnIsRotation` | proxy/balancer.go:118-119 | one turn of picks, from any counter value, is a rotation of the pool |
| `RoundRobin.TurnsAreFair` | proxy/balancer.go:117-119 | k turns take every pool entry k times |
| `RoundRobin.TurnIsFairExactly` | proxy/balancer.go:117-119 | one turn over different entries takes them all if and only if the counter does not wrap inside it or the pool size divides 2^64 |
| `RoundRobin.TurnsAreFairExactly` | proxy/balancer.go:117-119 | k turns over any pool, weighted or not, are fair if and only if they end before the wrap, or the picks between the last whole turn and the wrap take what the last entries of the pool would have |
| `RoundRobin.DifferentEntriesFairExactly` | proxy/balancer.go:117-119 | k turns over different entries are fair if and only if they end before the wrap, the wrap falls between two turns, or the pool size divides 2^64 |
| `RoundRobin.WrapTurnDecides` | proxy/balancer.go:117-119 | however many turns there are, only the one with the wrap in it can be unfair, and it is off by as much as all of them |
| `RoundRobin.RepeatedPick` | proxy/balancer.go:118 | a turn in which a wrap shifts positions picks some position twice |
| `Fnv1a.Compute` | proxy/balancer.go:124-135 | the loop computes the fold of the key's bytes with exclusive or and wrapping multiplication |
| `Fnv1a.Undo` | proxy/balancer.go:132 | a wrapping multiplication by the prime loses nothing |
| `Fnv1a.LoopbackHash` | proxy/balancer.go:124-135 | the hash of "::1" |
| `Fnv1a.OneByteTellsApart` | proxy/balancer.go:124-135 | keys of one length that differ in one byte never collide |
| `Balancer.Balancer.constructor` | proxy/balancer.go:64-74 | every target starts healthy; an unknown algorithm becomes round robin |
| `Balancer.PoolCounts` | proxy/balancer.go:91-99 | a healthy target is in the pool as often as its configured Weight says, once when that is not positive; an unhealthy one never |
| `Balancer.UsableCount` | proxy/balancer.go:91-95 | there is one block per healthy target |
| `Balancer.UsableInOrder` | proxy/balancer.go:91-99 | blocks come in the order of the targets, each as long as the configured weight |
| `Balancer.PoolEmpty` | proxy/balancer.go:100-102 | the pool is empty exactly when all targets are down, and holds no target that is down |
| `Balancer.WeightedFairness` | proxy/balancer.go:28-30 | with health fixed and the counter steady, any k turns return a healthy target k times its configured Weight, k times when that is not positive, and no other target |
| `Balancer.WeightedFairnessExactly` | proxy/balancer.go:28-30 | every healthy target gets k times its configured Weight if and only if the turns are undisturbed by the wrap, in the exact sense above |
| `Balancer.Balancer.BuildPool` | proxy/balancer.go:91-99 | the nested loops build that pool |
| `Balancer.Balancer.LeastActive` | proxy/balancer.go:107-114 | the loop returns the first pool entry with the fewest requests in flight |
| `Balancer.LeastActiveIgnoresWeights` | proxy/balancer.go:107-114 | which is the first least loaded healthy target, whatever the weights |
| `Balancer.Balancer.Pick` | proxy/balancer.go:85-121 | nil exactly when all targets are down, otherwise a healthy target by the algorithm's rule; only round robin moves the counter |
| `Balancer.PickRun` | proxy/balancer.go:117-119 | consecutive picks on the object are the arithmetic run of picks |
| `Sticky.PickedExactly` | proxy/balancer.go:115-116 | a client is on a target if and only if its hash falls on that target's places in the pool |
| `Sticky.StickyExactly` | proxy/balancer.go:115-116 | for any weights, a client stays on its target when another one goes down if and only if its hash, modulo the smaller pool, falls on the moved-up places of its target |
| `Sticky.UnitWeightsStickyExactly` | proxy/balancer.go:115-116 | with weights of one, a client stays whichever other target goes down if and only if its hash falls on the first place of both pools, or on the last of both |
| `Sticky.LoopbackClientMoves` | proxy/balancer.go:19-20 | of three equal targets, a client on the loopback address loses its own when either of the others goes down |
| `Sticky.UsableAfterTakedown` | proxy/balancer.go:92-95 | a takedown drops one entry of the healthy targets and leaves the others in order |
| `Sticky.PickAcrossTakedown` | proxy/balancer.go:85-121 | on the objects: pick, takedown, pick again gives the same target exactly when the condition above holds of the targets healthy before |
| `Sticky.StaysAcrossChange` | proxy/balancer.go:115-116 | for any two healthy sets, a client is on one target in both if and only if its hash falls on that target's places in both pools |
| `Sticky.PickAcrossChange` | proxy/balancer.go:85-121 | on the objects, picks before and after any change of health are the picks on these pools |
| `Balancer.LoadIsLevel` | proxy/balancer.go:107-114 | from equal counts, picking the least and adding one fills the targets level by level, in order |
| `Balancer.LoadStaysEven` | proxy/balancer.go:107-114 | so the largest and smallest counts stay within one |
| `Balancer.LoadRun` | proxy/proxy.go:211 | on the objects: any number of picks, each followed by one more request in flight, moves the active counts that way |
| `Retry.AttemptsAreDistinct` | proxy/proxy.go:191-226 | no target is tried twice for one request, and none outside the pool |
| `Retry.AttemptsByPosition` | proxy/proxy.go:241-249 | while the counter does not shift, the retry loop is a walk over pool positions |
| `Retry.CoverageFrom` | proxy/proxy.go:187-226 | from any position the walk tries min(attempts, targets) different targets in cyclic order, if no weight exceeds the picks of one attempt |
| `Retry.StuckInBlock` | proxy/proxy.go:241-250 | a heavier target can end the request after one attempt |
| `Retry.FailingRequestCovers` | proxy/proxy.go:187-232 | the same for the loop on the counter |
| `Retry.CoverageExactly` | proxy/proxy.go:187-251 | coverage from every counter value that does not wrap within the request holds if and only if no weight exceeds the picks of one attempt |
| `Proxy.Proxy.PickUntriedTarget` | proxy/proxy.go:235-251 | a healthy untried target, or nil; nil on the first attempt only when all targets are down |
| `Proxy.Proxy.Send` | proxy/proxy.go:211-213 | the target's counter is one higher during the transport call and back afterwards |
| `Proxy.Proxy.Attempt` | proxy/proxy.go:192-213 | an attempt goes to a healthy target this request has not tried, and leaves every counter as it was |
| `Proxy.Proxy.Do` | proxy/proxy.go:187-232 | the targets tried are different and healthy and at most MaxRetries + 1, all but the last failed, active counts are back at their start, the reply says how it ended, without a target only if MaxRetries is negative or all are down; round robin tries what the specification says, LeastConn and IPHash only the one target they pick |
| `Proxy.RetryCoverage` | proxy/proxy.go:187-251 | a round-robin request whose calls all fail has tried min(MaxRetries + 1, healthy targets) different healthy targets, when no configured weight exceeds the number of targets plus one and the counter is steady |
| `Proxy.HeavyTargetBlocksRetry` | proxy/proxy.go:241-250 | any healthy target heavier than that ends some request after one target, whatever else is healthy and however many retries are left |
| `Proxy.RetryCoverageExactly` | proxy/proxy.go:187-251 | so on the proxy, coverage from every counter value that does not wrap within the request holds if and only if no healthy target weighs more than the number of targets plus one |
| `WrapCoverage.CoversFromAnywhere` | proxy/proxy.go:187-251 | with the wrap anywhere in the request or nowhere, min(attempts, targets) different targets are tried when no weight is too large and the wrap fits |
| `WrapCoverage.StoppedByWrap` | proxy/balancer.go:118 | where the wrap does not fit, some counter value ends the request with an untried target and an attempt left |
| `WrapCoverage.CoverageFromEveryCounter` | proxy/proxy.go:187-251 | coverage from every counter value, wrapping or not, holds if and only if no weight exceeds the picks of one attempt and the wrap fits |
| `WrapCoverage.UnitWeightsFit` | proxy/proxy.go:241 | with weights of one the wrap always fits |
| `Proxy.RetryCoverageFromEveryCounter` | proxy/proxy.go:187-251 | the same if and only if on the proxy |
| `Proxy.UnitWeightsAlwaysCover` | proxy/proxy.go:187-251 | with healthy targets of weight one, a wholly failing request tries min(MaxRetries + 1, healthy targets) of them from every counter value |
| `Health.HealthCheck.SetDefaults` | proxy/health.go:47-52 | thresholds that are not positive become 3 and 1; afterwards both are positive |
| `Health.ApplyProbe` | proxy/health.go:117-132 | the in-place transition of one target |
| `Health.RunOnce` | proxy/health.go:110-136 | every target takes its own step, and takes it once |
| `Health.CounterKeepsPromise` | proxy/health.go:107-132 | on every history of probes the one counter agrees with the two-streak promise and holds the streak that matters |
| `Health.TransitionsAreExact` | proxy/health.go:15-17 | down exactly on the FailThreshold-th failure in a row, up exactly on the SuccessThreshold-th success in a row |
| `Health.TakedownsAreSpaced` | proxy/health.go:117-132 | the k-th takedown cannot come before probe k·F + (k−1)·S |
| `Health.ReachableStates` | proxy/tcp.go:338-339 | with mark-downs anywhere, the counter stays non-negative and below FailThreshold while in rotation |
| `Health.ReturnsAfterNeeded` | proxy/health.go:120-124 | a target that is down returns after exactly the successes it still needs |
| `Health.NeededIsBounded` | proxy/health.go:120-126 | that is between one and SuccessThreshold in every reachable state, and exactly SuccessThreshold once a probe failed while down |
| `Health.PendingFailures` | proxy/health.go:117-132 | in rotation, on every history, failures are pending if and only if the latest probe failed |
| `Health.WholeThresholdExactly` | proxy/tcp.go:338-339 | after a mark-down the whole SuccessThreshold is needed if and only if the latest probe had not failed, or the threshold is one |
| `Health.MarkDownShortensReturn` | proxy/tcp.go:338-339 | the lower end is reached: one success restores a target that should need three |
| `Health.ProbeIsAtomic` | proxy/health.go:117-132 | a mark-down between the instructions of a probe has the effect of one wholly before or wholly after it |
| `TcpAccounting.RunKeeps` | proxy/tcp.go:282-346 | in every interleaving of accept loops and handlers each counter counts what it is meant to |
| `TcpAccounting.AcceptExactly` | proxy/tcp.go:298-302 | a connection is turned away if and only if MaxConnections is positive and reached; without a cap it always passes |
| `TcpAccounting.HandlerGoesOn` | proxy/tcp.go:307-366 | a handler can always take its next step |
| `TcpAccounting.CapHolds` | proxy/tcp.go:298-312 | open connections, each counted until active.Add(-1), never exceed a positive MaxConnections with one accept loop, and by at most n − 1 with n |
| `TcpAccounting.CapIsReached` | proxy/tcp.go:298-305 | that bound is reached for every number of accept loops and every cap |
| `TcpAccounting.UnlimitedIsReached` | proxy/tcp.go:298 | without a cap, any number of connections may be open at once |
| `TcpAccounting.DrainedIsClean` | proxy/tcp.go:268-272 | when the wait group drains, active and all target counts are zero and every counted connection has finished |
| `TcpAccounting.CanBeDrained` | proxy/tcp.go:268-276 | from every reachable state the run can go on until all loops have ended, all connections are finished and the wait group is drained |
| `TcpAccounting.ActiveIsAcceptedMinusFinished` | proxy/tcp.go:304-309 | active is accepted minus finished, but for a loop between its two increments |
| `TcpAccounting.TargetsSumToRelays` | proxy/tcp.go:345-346 | the targets' active counts sum to the connections in the relay phase |
| `TcpRelay.Source.Read` | proxy/tcp.go:411 | a read fills the reused buffer with the next chunk and may report an error with it |
| `TcpRelay.Sink.Write` | proxy/tcp.go:425 | a write delivers a beginning of its chunk, all of it unless it fails |
| `TcpRelay.Copy` | proxy/tcp.go:402-439 | what is delivered is a beginning of what the reads and the hook offer, all of it unless a write failed; the total is the number of bytes delivered; data that comes with an error is delivered; why it ends, exactly |
| `TcpRelay.Pump` | proxy/tcp.go:411-437 | one turn of the loop, with what was offered and delivered before it and why it may end there |
| `TcpRelay.Turn` | proxy/tcp.go:411-431 | the turn by itself |
| `TcpRelay.Fetch` | proxy/tcp.go:411-413 | its reading half, with what one more read adds to the offer |
| `TcpRelay.Forward` | proxy/tcp.go:412-431 | its writing half: hook first, then one write of what the hook left |
| `TcpRelay.NoHookIsTransparent` | proxy/tcp.go:412-421 | without a hook the bytes offered are the bytes read |
| `TcpRelay.EndingIs` | proxy/tcp.go:414-437 | a write error goes before the hook's error, that before what the read reported; a clean end is the end of the stream |
| `TcpRelay.HookDecides` | proxy/tcp.go:412-431 | a chunk adds what the hook returns for it, nothing if it returns no bytes or an error |
| `TcpRelay.CallsAreChunks` | proxy/tcp.go:412-415 | the hook is called once per non-empty read |
| `TcpRelay.ConstantHooks` | proxy/tcp.go:400-401 | a hook that drops every chunk delivers nothing, one that returns every chunk delivers the stream |
| `TcpRelay.ReadPrefixIsStreamPrefix` | proxy/tcp.go:406-438 | however the stream is cut into reads, a beginning of what was read is a beginning of the stream |
| `RateLimit.TwiceTheLimit` | middleware/ratelimit.go:47-58 | any closed interval as long as the window admits at most twice the limit, on every timed run, with sweeps anywhere |
| `RateLimit.TwiceIsReached` | middleware/ratelimit.go:17-24 | for every limit and window there is a run, slow by one in its first request, that reaches that bound |
| `RateLimit.OneLessWhenPrompt` | middleware/ratelimit.go:47-58 | when the readings agree the bound is one less |
| `RateLimit.OneLessIsReached` | middleware/ratelimit.go:47-58 | and that one is reached by a run whose readings agree, for every limit and window |
| `RateLimit.OneWindow` | middleware/ratelimit.go:52-57 | on every run, each counting window, from the request that opens it to its end, admits min(limit, requests) of its requests |
| `RateLimit.WindowIs` | middleware/ratelimit.go:17-24 | a window lasts its configured length from the counting time of its first request, or from the look-up time of a new visitor |
| `RateLimit.WindowAdmitsFirst` | middleware/ratelimit.go:52-57 | namely the first: a request of a window is admitted if and only if fewer than the limit came before it in the window |
| `RateLimit.EvictionIsInvisible` | middleware/ratelimit.go:30-42 | for requests whose two readings agree, sweeps change no decision |
| `RateLimit.SlowRequestSeesEviction` | middleware/ratelimit.go:17-42 | for every limit and window there is a run, slow by one, on which a sweep changes a decision |
| `RateLimit.EvictionInvisibleExactly` | middleware/ratelimit.go:17-58 | sweeps are invisible over all runs with a given lag if and only if there is no lag or nothing is ever admitted |
| `RateLimit.Limiter.Handle` | middleware/ratelimit.go:46-64 | one request, as one step, changes its own client's visitor only and decides by it |
| `RateLimit.Visitors.Evict` | middleware/ratelimit.go:30-42 | the deletion sweep removes exactly the visitors whose window is over |
| `SharedLimits.TwiceTheLargestLimit` | middleware/ratelimit.go:15 | in any interval as long as the smallest window of all, any set of limiters that share their visitors admits together at most twice the largest limit in the set; one limiter twice its own |
| `SharedLimits.OwnBoundExactly` | middleware/ratelimit.go:15 | a limiter admits at most twice its limit per own window on every shared run if and only if its limit is at most one, or every other window is at most one shorter than its own |
| `SharedLimits.ThreeWindows` | middleware/ratelimit.go:47-58 | next to a window shorter by two or more, a run on which a limiter of at least two admits three times its limit less one within its own window |
| `SharedLimits.ManyWindowsInOne` | middleware/ratelimit.go:15 | next to any other limiter, a run on which n times the limit less one is admitted within n − 1 of the other's windows, however long the own one is |
| `Cache.EvictionIsInvisible` | middleware/cache.go:33-58 | every get answers as in a store that never evicts |
| `Cache.StoreHoldsLastSet` | middleware/cache.go:43-47 | what the store holds under a key is what was last set |
| `Cache.SweptIs` | middleware/cache.go:53-57 | a sweep drops exactly the entries past their expiry time |
| `Cache.HitsReplayTheLatest` | middleware/cache.go:100-125 | a hit replays the latest 2xx response stored under its key, no more than TTL after it was stored |
| `Cache.FreshIsHit` | middleware/cache.go:33-58 | conversely, a response stored no more than TTL ago is a hit, whatever was swept since |
| `Cache.CacheStore.Get` | middleware/cache.go:33-41 | an entry is found up to and including its expiry time |
| `Cache.CacheStore.Set` | middleware/cache.go:43-47 | replaces one key |
| `Cache.CacheStore.Evict` | middleware/cache.go:49-58 | the deleting loop removes exactly the expired entries |
| `Cache.CacheMiddleware.constructor` | middleware/cache.go:68-74 | a TTL of zero means thirty seconds |
| `Cache.CacheMiddleware.Serve` | middleware/cache.go:89-128 | other methods and requests with credentials never touch the store; a hit replays; only a 2xx miss is stored |

## Left out

- `Router.Router.HandleRequest`: ends at the choice of handler, parameters and Allow list; calling
  the handler, writing headers and JSON error bodies is I/O. Handlers are opaque identities and
  never nil, and a middleware is taken to call the next handler.
- `RouterLaws.OrderDoesNotMatter`: covers handlers and values; parameter keys do depend on the
  order (node.go:43-50), as `RouteScan.BuiltKey` states.
- `Router.Router.Build`: sync.Once is modelled as a flag; requests that race with the first build
  are not.
- `Router.SortStrings`: insertion into a sorted list stands for slices.Sort, whose code is not part
  of this model.
- `Group.Group.Handle`: ANY is seven calls of it; Static, documentation pages and the metadata list
  Routes are left out.
- `Group.MakeGroup`: keeps the caller's array, as the code does; a caller that changes it afterwards
  is outside `GroupRuns.Execute`, which makes a new array for each group.
- `Balancer.Balancer.Pick`: one pick is one step on the counter; Random is an arbitrary choice from
  the pool; the lock around the target list is left out because the list never changes.
- `Balancer.LoadRun`: for picks and increments that follow each other without requests ending
  in between.
- `Proxy.Proxy.Do`: header rewriting, URL building and the request and response hooks are left out;
  other requests that pick or change health in between are not interleaved.
- `Health.RunOnce`: its goroutines run one after the other; `Health.ProbeIsAtomic` covers the only
  writer outside them. The probes, intervals and timeouts themselves are inputs or left out.
- `TcpAccounting.RunKeeps`: a handler's own work (hooks, pick, dial) is one step that either reaches
  a target or gives up; the listener, TLS and Stop's deadline are left out.
- `TcpRelay.Copy`: one direction; the two directions share nothing but the closing of sockets. Idle
  deadlines are read and write errors here.
- `RateLimit.Limiter.Handle`: a request is one atomic step; the race between load-or-store, update
  and delete is left out.
- `Cache.CacheMiddleware.Serve`: the key is an input, whatever KeyFunc made it; the default method
  list is the caller's set.
- Integers are unbounded except for the round-robin counter and the hash, which wrap at 2^64.
- Application start-up, connection multiplexing, protocol servers, request binding and validation,
  OpenAPI generation and the other middleware: thin state around libraries, or reflection.

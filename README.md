# texmex.js core, modelled in Dafny

texmex.js is a small TypeScript web framework. Classes are registered by
decorators (`@Controller`, `@WebSocket`, `@Inject`, `@Injectable`) into a
process-wide registry. An `Injector` instantiates, checks and wires the
`@Injectable` components. A route trie built from the `@Controller` paths
resolves each request URL to a controller class and to the parameter values
the URL carries. A request handler then runs the controller: an access check
through the `authentication` component, construction, selection of the method
for the HTTP verb, field injection, the call itself, and finally the reply
written to the Node response.

This project models that core:

- **The route trie.** `RouteNode` and `RouteTree` are classes over real node
  objects. Lookups are specified by pure functions (`Walk`, `Resolve`,
  `Params`) over snapshots of every node's child list and handler.
- **The registry and the decorators.** These are methods on an explicit
  `Registry` object.
- **The injector.** Its asynchronous `init` phase is modelled by explicit
  settle transitions.
- **The request pipelines of the server and the express packages.** Their
  `handleResult`/401/500 writers act on a `Response` object. `getFunction`,
  `resolvePath` and the express `getParameters` are also modelled.
- **`ServerConfig.initConfig`.** It fills defaults into the configuration and
  registers the default components.

Each imperative operation is a method proved against a specification function.
The lemmas state what the framework promises about those functions: literal
segments win over parameters, with no backtracking; inserting routes never
changes a successful lookup; the trailing-parameter fallback; duplicate
detection; "last registration wins"; idempotent defaulting; and the status
ladder of a request.

The files follow the source:

- `common.dfy`, `js.dfy`: the slice of JavaScript the framework relies on.
- `strings.dfy`: `split`, `filter(String)`, `indexOf`, `replace`.
- `registry.dfy`, `decorators.dfy`, `injector.dfy`.
- `route_node.dfy`, `route_tree.dfy`.
- `http.dfy`: the response writers and `getFunction`, which both packages
  share textually.
- `server_request_handler.dfy`, `express_request_handler.dfy`.
- `server_config.dfy`.

Some source files are not part of this model:

- `server/src/route/route.node.ts` is not part of this model. The route tree
  uses the node of `express/src/route/route.node.ts` in its place.
- `server/src/server/server.config.ts` and `server/src/utils/safe.invoke.ts`
  are not part of this model. The server pipeline is given the express
  package's `ServerConfig` fields, and its `safeInvoke` is abstracted in the
  same way as the express package's.

## Model

| member | source | states |
|---|---|---|
| Strings.Split | server/src/route/route.tree.ts:20 | `split` on one separator character: always at least one piece |
| Strings.SplitPiecesFree | server/src/route/route.tree.ts:20 | no piece of a split contains the separator |
| Strings.JoinSplit | server/src/route/route.tree.ts:20 | joining the pieces with the separator gives the string back (the partner of `split`) |
| Strings.SplitNoSeparator | server/src/route/route.tree.ts:20 | a string without the separator is one piece |
| Strings.SplitConcat | server/src/route/route.tree.ts:20 | splitting `a + sep + b` is splitting `a` followed by splitting `b` |
| Strings.SplitJoin | server/src/route/route.tree.ts:20 | splitting a join of separator-free pieces gives the pieces back |
| Strings.NonEmpty | server/src/route/route.tree.ts:20 | `filter(String)` keeps exactly the non-empty pieces, in order, and no more of them |
| Strings.NonEmptyConcat | server/src/route/route.tree.ts:20 | filtering distributes over concatenation |
| Strings.Segments | server/src/route/route.tree.ts:20 | every path segment is non-empty and free of `/` |
| Strings.BeforeQuery | server/src/route/route.tree.ts:31 | the part before the first `?` contains no `?` |
| Strings.SegmentsConcat | server/src/route/route.tree.ts:20 | one `/` between two strings contributes no segment of its own |
| Strings.SegmentsOfPlain | server/src/route/route.tree.ts:20 | a `/`-free string is one segment, or none when empty |
| Strings.QueryIgnored | server/src/route/route.tree.ts:31 | appending `?q` to a query-free URL changes none of its segments |
| Strings.UrlSegmentsOfPath | server/src/route/route.tree.ts:31 | a URL without `?` has the segments of the path |
| Strings.UrlSegments | server/src/route/route.tree.ts:31 | the segments of a URL are non-empty and hold neither `/` nor `?` (also route.tree.ts:65) |
| Strings.SplitPiecesWithin | server/src/route/route.tree.ts:31 | every character of a piece of a split comes from the string split |
| Strings.RootUrlExamples | server/src/route/route.tree.ts:31-34 | `""`, `/` and `/?q` have no segments, so they reach the root handler |
| Strings.OneSegmentA | server/src/route/route.tree.ts:20 | `/a` and `a/` are the one segment `a` |
| Strings.EmptySegmentExample | server/src/route/route.tree.ts:31 | `//a/` has the segments of `/a` |
| Strings.Test2Path | server/src/route/route.tree.ts:20 | `/test2` is the one segment `test2` |
| Strings.QueryExample | server/src/route/route.tree.ts:31 | `/test2?param=x` has the segments of `/test2` |
| Strings.IndexOfFrom | server/src/server/request.handler.ts:207 | the index found is an occurrence, and none occurs before it; no index means no occurrence |
| Strings.ReplaceFirst | server/src/server/request.handler.ts:207 | `replace` with a string pattern: unchanged without an occurrence; otherwise the prefix, the replacement, then the rest after the first occurrence |
| Strings.ReplaceAllChar | server/src/server/request.handler.ts:207 | the global one-character `replace`: same length, each occurrence mapped, every other character kept, none of the old character left |
| Registries.Get | core/src/components/registry.ts:34 | `Map.get`: a value found is stored under that key |
| Registries.GetFound | core/src/components/registry.ts:31 | `Map.has`: a key answers exactly when some entry holds it |
| Registries.Put | core/src/components/registry.ts:23 | `Map.set`: the key gives the new value, every other key keeps its answer, and the map grows only for a new key |
| Registries.PutAppends | core/src/components/registry.ts:23 | a new key is appended at the end, in insertion order |
| Registries.PutKeepsKeys | core/src/components/registry.ts:23 | setting an existing key keeps every entry's key in place |
| Registries.PutKeepsDistinct | core/src/components/registry.ts:23 | `set` never makes a key occur twice |
| Registries.Registry.constructor | core/src/components/registry.ts:14 | the registry starts with no category |
| Registries.Registry.GetMap | core/src/components/registry.ts:30-35 | returns the category's entries; the first call creates it empty; no other category changes |
| Registries.CreationKeepsCategories | core/src/components/registry.ts:31-33 | creating a missing category empty changes no category's entries; a corollary of `Category`'s definition, kept as a lemma so that `Construct` can cite it |
| Registries.Registry.SetIn | core/src/components/registry.ts:23 | `set` on a category map already fetched: only that category changes, by `Put` |
| Registries.Registry.Set | core/src/components/registry.ts:22-24 | the category (created if missing) changes by `Put`; every other category is unchanged |
| Decorators.PutAll | core/src/components/controller.ts:17-19 | every path gives the value; keys that are not among the paths keep their answers |
| Decorators.PutAllKeepsDistinct | core/src/components/controller.ts:17-19 | setting paths keeps the keys distinct |
| Decorators.PutAllSize | core/src/components/controller.ts:17-19 | the map grows by at most one entry per path |
| Decorators.RegisterPaths | core/src/components/controller.ts:17-19 | the loop of `registry.set` calls: the category maps become `Registered(...)` |
| Decorators.RegisteredStep | core/src/components/controller.ts:17-19 | one more path is one more `set` |
| Decorators.RegisteredMeaning | core/src/components/controller.ts:17-19 | every path maps to the target; other keys keep their values; no other category changes; the category exists afterwards exactly when it did or a path was given |
| Decorators.Registered | core/src/components/controller.ts:17-19 | the category exists afterwards exactly when it did or a path was given; every other category keeps its map |
| Decorators.Controller | core/src/components/controller.ts:15-21 | registers every path to the target in CONTROLLER only |
| Decorators.WebSocket | core/src/components/websocket.ts:12-18 | registers every path to the target in WEBSOCKET only |
| Decorators.AddField | core/src/components/inject.ts:15-19 | a new prototype gets an empty list first, then the field is pushed at the end; other prototypes are unchanged; the map grows by at most one; a non-list entry makes `push` throw |
| Decorators.AddFieldFirst | core/src/components/inject.ts:16-19 | a first-time prototype is appended with a one-field list |
| Decorators.FieldsOf | core/src/components/inject.ts:16-19 | a prototype without an entry has no fields; a non-empty list is the list stored under the prototype |
| Decorators.PutLast | core/src/components/inject.ts:17-19 | setting the key of the last entry replaces it in place |
| Decorators.InjectTwice | core/src/components/inject.ts:19 | two pushes record both fields in call order, duplicates included |
| Decorators.Inject | core/src/components/inject.ts:14-20 | the INJECT category becomes `AddField(...)`, or is unchanged when the push throws; other categories are unchanged |
| Decorators.Stop | core/src/components/injectable.ts:14-19 | the index where `Injectable` stops lies between the start and the end of the names |
| Decorators.StopMeaning | core/src/components/injectable.ts:14-19 | names before the stop are new and pairwise distinct; an error comes exactly when names remain; the error names the duplicate or the throwing constructor |
| Decorators.DuplicateFirst | core/src/components/injectable.ts:15-17 | a first name already in use throws before anything is registered |
| Decorators.Registrations | core/src/components/injectable.ts:18 | one entry per registered name |
| Decorators.RegistrationsAt | core/src/components/injectable.ts:18 | the `j`-th entry is the `j`-th name with the `j`-th instance |
| Decorators.InUse | core/src/components/injectable.ts:15 | after registering, a name is in use exactly when it was before or it was registered |
| Decorators.RegisterStep | core/src/components/injectable.ts:14-19 | one more new name appends one entry |
| Decorators.Injectable | core/src/components/injectable.ts:11-21 | left to right, registers a new instance per name until the first duplicate or throwing constructor; the names before it stay registered; each instance is fresh and distinct; an empty name list registers nothing |
| Decorators.AddInstance | core/src/components/injectable.ts:18 | `map.set(name, new target())` appends one fresh instance |
| Decorators.FreshAppended | core/src/components/injectable.ts:18 | a new instance keeps the instance list free of repeats |
| Injection.Admission | core/src/components/injector.ts:101-114 | rejects exactly `authentication` without `hasAccess` and `logger` without `info`/`warn`/`error`/`exception`, with a missing-interface error naming the interface |
| Injection.Rejection | core/src/components/injector.ts:35-36 | the constructor throws exactly when some entry is rejected |
| Injection.RejectionFirst | core/src/components/injector.ts:35-36 | the error thrown is that of the first rejected entry in map order |
| Injection.RejectionPrefix | core/src/components/injector.ts:35-36 | a rejection among the first entries decides the whole construction |
| Injection.InstancesSnoc | core/src/components/injector.ts:39-44 | the instances of a map one entry longer |
| Injection.LastMatch | core/src/components/injector.ts:140-148 | the last INJECT entry, in map order, whose prototype is on the chain; none when none applies |
| Injection.InstanceProperties | core/src/components/injector.ts:140-148 | the list of the last applicable entry, in map order; empty when no entry applies |
| Injection.Wired | core/src/components/injector.ts:43 | each listed field holds `getComponent(field)`; other fields are untouched |
| Injection.WiredTwice | core/src/components/injector.ts:92 | injecting twice is injecting once |
| Injection.ThenablesSnoc | core/src/components/injector.ts:46-53 | one more component adds its thenable, if its `init` returns one |
| Injection.ThenablesFromComponents | core/src/components/injector.ts:45-53 | every awaited promise comes from a component whose `init` returns a thenable |
| Injection.PlainInitIgnored | core/src/components/injector.ts:47-52 | absent or non-thenable `init` results add no promise |
| Injection.Thenables | core/src/components/injector.ts:45-53 | no more promises than entries, each from an `init` that returns a thenable |
| Injection.FirstThrow | core/src/components/injector.ts:46-48 | the first entry, in map order, whose `init` throws; none exactly when no `init` throws |
| Injection.FirstThrowPrefix | core/src/components/injector.ts:46-48 | a throwing `init` among the first entries is the first of the whole map |
| Injection.Thrower | core/src/components/injector.ts:46-48 | some component is named exactly when some `init` throws, and its `init` throws |
| Injection.InjectRegistry.constructor | core/src/components/injector.ts:129-131 | snapshots the INJECT category, creating it if missing |
| Injection.InjectRegistry.GetInstanceProperties | core/src/components/injector.ts:140-148 | the list of the last matching entry, not a union; empty when nothing matches |
| Injection.Injector.Empty | core/src/components/injector.ts:14-24 | no component, no INJECT snapshot, not done |
| Injection.Injector.GetComponent | core/src/components/injector.ts:69-71 | a component found is stored under that name; `undefined` exactly when no entry has the name |
| Injection.Injector.HasComponent | core/src/components/injector.ts:78-80 | true exactly when `getComponent` finds the name |
| Injection.Injector.RegisterComponent | core/src/components/injector.ts:101-114 | throws `Admission`'s error, or stores the component by `Put`; nothing else changes |
| Injection.Injector.Assign | core/src/components/injector.ts:92 | the instance's fields become `Wired(...)` |
| Injection.Injector.Inject | core/src/components/injector.ts:87-94 | once `done`, the declared fields get the current components; before that, nothing changes |
| Injection.Injector.Settle | core/src/components/injector.ts:54 | one `init` promise settles: it leaves the pending set; a rejection is remembered |
| Injection.Injector.FinishInit | core/src/components/injector.ts:54 | `done` becomes true only when no promise is pending and none was rejected |
| Injection.Injector.WireAll | core/src/components/injector.ts:39-44 | every component's declared fields hold the components of those names; circular and self references included |
| Injection.Injector.StartInit | core/src/components/injector.ts:45-54 | names the component whose `init` throws first; otherwise the pending promises are exactly the thenables of the components' `init`, in map order |
| Injection.Injector.CollectThenables | core/src/components/injector.ts:45-53 | `init` is called in map order until one throws; the `promises` array is `Thenables` of the entries before it, or of the whole map |
| Injection.Injector.Construct | core/src/components/injector.ts:34-55 | throws the first rejection and then wires nothing; otherwise wires every component from the INJECT snapshot, then throws for the first `init` that throws, or holds the INJECTABLE map and waits for the thenables with `done` false; the registry afterwards is exactly the old one with the INJECTABLE category, and the INJECT category once registration succeeds, created where missing |
| Injection.Injector.Start | core/src/components/injector.ts:37-54 | after registration: the INJECT category is created if missing and snapshotted, every component is wired, and `init` runs until one throws |
| Injection.Injector.Register | core/src/components/injector.ts:35-36 | the registration loop: fails with the first rejection, or stores the whole map |
| Js.Instance.constructor | core/src/components/injectable.ts:18 | `new target()`: an instance of the class with no assigned field |
| RouteNodes.RouteNode.constructor | express/src/route/route.node.ts:28-30 | the segment given, no children, no handler; the ghost level and ghost maker given (no run-time state) |
| RouteNodes.RouteNode.SetControllerClass | express/src/route/route.node.ts:44-46 | `getControllerClass` reads back the last value set; `getSubNodes` is unchanged |
| RouteNodes.RouteNode.GetControllerClass | express/src/route/route.node.ts:36-38 | the node's handler, `undefined` when none was set; its contract is stated through `SetControllerClass` and the constructor |
| RouteNodes.RouteNode.GetSubNodes | express/src/route/route.node.ts:60-62 | the node's children, in insertion order; its contract is stated through `SetControllerClass` and `GetOrCreateSubNode` |
| RouteNodes.RouteNode.GetSubNode | express/src/route/route.node.ts:69-80 | the loop returns `Lookup(subNodes, s)` |
| RouteNodes.RouteNode.GetOrCreateSubNode | express/src/route/route.node.ts:88-96 | returns the node `getSubNode` finds with the children unchanged; otherwise appends exactly one fresh childless, handler-less node with the segment, made by this node one level below it; the handler is unchanged |
| RouteNodes.ExactIndex | express/src/route/route.node.ts:71-74 | the first child whose segment equals `s`; none exactly when no child has it |
| RouteNodes.ExactIndexPrefix | express/src/route/route.node.ts:71-74 | a first exact match in a prefix is the first exact match of the whole list |
| RouteNodes.LastParam | express/src/route/route.node.ts:75-79 | the last `:`-child; none exactly when there is no `:`-child |
| RouteNodes.FirstParam | server/src/route/route.tree.ts:45-49 | the first `:`-child; none exactly when there is no `:`-child |
| RouteNodes.Lookup | express/src/route/route.node.ts:69-80 | whatever `getSubNode` returns is a child |
| RouteNodes.LiteralWins | express/src/route/route.node.ts:71-74 | a child with the exact segment is found wherever it sits, ahead of any parameter child |
| RouteNodes.CollapseIntoParam | express/src/route/route.node.ts:75-79 | without an exact match, any segment collapses into the parameter child |
| RouteNodes.LookupNone | express/src/route/route.node.ts:79 | nothing is found exactly when no child matches and none is a parameter |
| RouteNodes.LookupSegment | express/src/route/route.node.ts:69-80 | what `getSubNode(s)` finds has segment `s` or is a parameter node |
| RouteNodes.WellFormedDistinct | express/src/route/route.node.ts:88-96 | children built by `getOrCreateSubNode` have distinct segments and at most one parameter |
| RouteNodes.AppendKeepsWellFormed | express/src/route/route.node.ts:93-94 | the append of `getOrCreateSubNode` keeps that invariant |
| RouteNodes.AppendFound | express/src/route/route.node.ts:93-94 | the appended node is what `getSubNode` now finds for its segment |
| RouteNodes.LookupGrows | express/src/route/route.node.ts:88-96 | growing a child list keeps every successful lookup |
| RouteNodes.GrowsTransitive | express/src/route/route.node.ts:88-96 | growth composes |
| RouteTrees.Walk | server/src/route/route.tree.ts:36-42 | the node reached is in the tree |
| RouteTrees.WalkStep | server/src/route/route.tree.ts:37-38 | one more segment is one more `getSubNode` |
| RouteTrees.NoBacktracking | server/src/route/route.tree.ts:37-42 | once a segment finds no child, no longer URL is found |
| RouteTrees.ExtendsTransitive | server/src/route/route.tree.ts:19-22 | successive insertions compose |
| RouteTrees.WalkGrows | server/src/route/route.tree.ts:19-22 | inserting routes never changes where a found URL leads |
| RouteTrees.MissResolvesToNothing | server/src/route/route.tree.ts:39-41 | a URL with a segment that finds no child resolves to `undefined` |
| RouteTrees.Resolve | server/src/route/route.tree.ts:30-53 | no segments give the root's handler; a segment that finds no child gives `undefined`; a reached node with a handler gives that handler; any result is the handler of some node of the tree |
| RouteTrees.ParamFallback | server/src/route/route.tree.ts:44-50 | a node without a handler resolves to its parameter child's handler (`/action` like `/action/:actionId`) |
| RouteTrees.Params | server/src/route/route.tree.ts:63-78 | no more parameters than segments, each one a segment of the URL |
| RouteTrees.ParamsStop | server/src/route/route.tree.ts:70-72 | the parameters stop at the first segment that finds no child |
| RouteTrees.LiteralWalkHasNoParams | server/src/route/route.tree.ts:73-75 | a URL matching only literal nodes has no parameters |
| RouteTrees.StoredResolves | server/src/route/route.tree.ts:30-53 | a stored route resolves to the handler of the last route, among those inserted, whose path leads to the same node (last write wins) |
| RouteTrees.LastWriteWins | server/src/route/route.tree.ts:16-53 | a stored route whose node no later route reaches resolves, by its own path as a URL, to its own handler |
| RouteTrees.StoredAfterPut | server/src/route/route.tree.ts:85-96 | inserting a route stores it as the last writer of its node and keeps every earlier route stored |
| RouteTrees.WalksKept | server/src/route/route.tree.ts:85-96 | inserting a route moves no earlier route's node |
| RouteTrees.StoredKept | server/src/route/route.tree.ts:85-96 | an earlier route stays stored after one more insertion: its node still holds the handler of the last route leading there |
| RouteTrees.WalkDepth | server/src/route/route.tree.ts:37-42 | a walk of `n` segments ends `n` levels below the root |
| RouteTrees.WalkParent | server/src/route/route.tree.ts:37-42 | a walk reaches a node only through the node that made it |
| RouteTrees.SameWalkPrefix | server/src/route/route.tree.ts:37-42 | two URLs that lead to one node have the same length and pass through the same nodes |
| RouteTrees.NewOnWalkKept | server/src/route/route.tree.ts:92-94 | nodes added earlier in one insertion stay on its walk, handler-less, as the tree grows |
| RouteTrees.BuiltAfterPut | server/src/route/route.tree.ts:85-96 | inserting route `k` keeps the tree built from the routes: new nodes lie on route `k`, only its last node gains a handler |
| RouteTrees.OnRouteKept | server/src/route/route.tree.ts:85-96 | a node on an earlier route stays on it after an insertion |
| RouteTrees.BuiltFallback | server/src/route/route.tree.ts:44-50 | in a built tree where every route as long as `segs` is apart from it (so none ends where it leads), and route `segs + [p]` with `p` a parameter is stored, `segs` resolves like `segs + [p]` (`/action` like `/action/:actionId`) |
| RouteTrees.SingleParamRoute | server/src/route/route.tree.ts:44-50 | the tree built from the single route `s/:x` resolves `s` to that route's handler |
| RouteTrees.LevelSegment | server/src/route/route.tree.ts:85-96 | each node of a built tree other than the root carries, at its level, the segment of some route |
| RouteTrees.UnknownSegmentMisses | server/src/route/route.tree.ts:36-42 | in a built tree, a URL whose segment at position `d` is neither the segment of any route at `d` nor met by a parameter there finds no node and resolves to `undefined` (`/invalid`) |
| RouteTrees.ResolvesToRegistered | server/src/route/route.tree.ts:30-53 | in a built tree, every URL resolves to `undefined` or to the handler of one of the routes |
| RouteTrees.ApartWalksDiffer | server/src/route/route.tree.ts:37-42 | in a built tree, two paths that differ at a position where no route has a parameter lead to different nodes |
| RouteTrees.SegmentAt | server/src/route/route.tree.ts:37-42 | in a built tree, at a position where no route has a parameter, the walk meets a node carrying the URL's own segment |
| RouteTrees.ApartHasNoHandler | server/src/route/route.tree.ts:39-44 | in a built tree, the node a URL leads to has no handler when every route of the URL's length is apart from it |
| RouteTrees.ApartResolvesToNothing | server/src/route/route.tree.ts:30-53 | in a built tree, a URL resolves to `undefined` when every route of its length is apart from it and no parameter child can answer (no route has a parameter right after it, or every route one longer is apart) |
| RouteTrees.ParamChildHasNoHandler | server/src/route/route.tree.ts:44-50 | in a built tree, a parameter child of the node a URL reaches has no handler under those conditions |
| RouteTrees.ApartParents | server/src/route/route.tree.ts:37-42 | a path one segment longer than a URL and apart from it does not end below the URL's node |
| RouteTrees.UniqueLengthWins | server/src/route/route.tree.ts:30-53 | a stored route whose length no later route shares resolves to its own handler |
| RouteTrees.ParamRouteFallsBack | server/src/route/route.tree.ts:44-50 | a URL one parameter short of a route, where no route of its length ends, resolves to that route's handler |
| RouteTrees.WithoutParameterAction | server/test/route/route.tree.spec.ts:74-79 | example: with the routes `/action/:actionId`, `/aa/bb/cc/dd/ee/ff/gg/hh/:ii` and `/xx/yy/zz`, `/action` resolves to the first route's handler |
| RouteTrees.WithoutParameterLong | server/test/route/route.tree.spec.ts:74-80 | example: in the same tree, `/aa/bb/cc/dd/ee/ff/gg/hh/` resolves to the second route's handler |
| RouteTrees.WithoutParameterMiss | server/test/route/route.tree.spec.ts:74-81 | example: in the same tree, `/xx/yy` resolves to `undefined` |
| RouteTrees.ParamsStep | server/src/route/route.tree.ts:68-76 | one more matched segment is pushed when its node is a parameter node |
| RouteTrees.FirstParamChild | server/src/route/route.tree.ts:45-49 | the fallback scan returns `FirstParam` |
| RouteTrees.AppendChild | server/src/route/route.tree.ts:93 | appending a new child keeps the tree well formed and extends it |
| RouteTrees.AppendLayered | server/src/route/route.tree.ts:93 | a node appended to the list of the node that made it, one level below, keeps the nodes a layered tree |
| RouteTrees.FirstParamAt | server/src/route/route.tree.ts:45-49 | a scan from the front finds the first parameter child |
| RouteTrees.RouteTree.constructor | server/src/route/route.tree.ts:16-23 | every route inserted in order is stored: its node holds the handler of the last route leading to that node; the nodes form a tree built from the routes alone: every other node lies on a route at its own level with that route's segment, and only nodes where a route ends have a handler |
| RouteTrees.RouteTree.AddRoutes | server/src/route/route.tree.ts:19-22 | from the tree holding only its handler-less root, the `forEach` stores every route, each node holding its last writer's handler, and keeps the nodes a tree built from the routes |
| RouteTrees.RouteTree.AddRoute | server/src/route/route.tree.ts:20-21 | one iteration stores route `k` as its node's last writer, keeps the earlier routes stored and keeps the tree built from the first `k + 1` routes |
| RouteTrees.RouteTree.PutSegments | server/src/route/route.tree.ts:85-96 | the segments lead to a node holding the handler; lists only grow and the nodes still form a tree (each listed only by the node that made it); other handlers are kept; each new node lies on the walk of the segments at its own level, carries that level's segment, and has no handler unless it is the last |
| RouteTrees.RouteTree.SetHandler | server/src/route/route.tree.ts:95 | one node's handler is overwritten |
| RouteTrees.RouteTree.Descend | server/src/route/route.tree.ts:91-94 | the `getOrCreateSubNode` loop reaches the node the walk finds; old handlers are kept; the nodes still form a tree; each new node lies on the walk at its own level, carries that level's segment and has no handler |
| RouteTrees.RouteTree.DescendStep | server/src/route/route.tree.ts:92-94 | one iteration: the walk of one more segment reaches the node returned, one level lower; the child lists and handlers change exactly as `getOrCreateSubNode` changes them; the nodes added so far stay on the walk without a handler |
| RouteTrees.RouteTree.AddStep | server/src/route/route.tree.ts:93 | one `getOrCreateSubNode`: the result is what `getSubNode` now finds, one level below; when `getSubNode` already found a child, child lists and handlers are unchanged, otherwise the new childless, handler-less node with the segment is appended to `current`'s list and nothing else changes; the tree stays a tree |
| RouteTrees.RouteTree.GetControllerClass | server/src/route/route.tree.ts:30-53 | returns `Resolve` of the URL segments |
| RouteTrees.RouteTree.Find | server/src/route/route.tree.ts:36-42 | the walk loop returns `Walk` |
| RouteTrees.RouteTree.GetParameters | server/src/route/route.tree.ts:63-78 | returns `Params` of the URL segments |
| Http.Response.HandleResult | server/src/server/request.handler.ts:69-86 | the response becomes `OnResult(...)` of its old state |
| Http.Response.HandleUnAuthorized | server/src/server/request.handler.ts:93-97 | status 401, `default401` written, ended once |
| Http.Response.HandleException | server/src/server/request.handler.ts:104-108 | status 500, `default500` written, ended once |
| Http.OnResult | express/src/server/request.handler.ts:55-72 | always ended once; `null` writes nothing and keeps the status; `undefined` gives 404 with `default404`; an object (a function is not one) sets the JSON content type and is written; `''` gives 204 with no body; any other value is written under the same status |
| Http.OnFailure | server/src/server/request.handler.ts:93-108 | the error status, one body value, one end; the headers are kept |
| Http.GetFunction | server/src/server/request.handler.ts:115-135 | nothing exactly for an unknown verb, or a known non-OPTIONS verb without its method; a method is the verb's lower-case name and exists; OPTIONS without `options` gives the `''` stand-in (also express/src/server/request.handler.ts:101-121) |
| Http.Invoke | server/src/server/request.handler.ts:53 | the stand-in yields `''`; a method yields the outcome of the call |
| Http.Finish | server/src/server/request.handler.ts:43-61 | every ending ends the response once; 401 and 500 write their defaults; a reply is `OnResult` |
| Http.OptionsFallback | server/src/server/request.handler.ts:128-133 | OPTIONS on a controller without `options` answers 204 with no body; a corollary of the contracts of `GetFunction`, `Invoke` and `OnResult` |
| Http.ControllerEnding | server/src/server/request.handler.ts:43-61 | 401 exactly for a falsy access result; 500 exactly for a throwing access check, constructor or method; 404 for a missing method; otherwise the method's value |
| Http.StatusLadder | server/src/server/request.handler.ts:43-61 | from status 200, the final status tells 401, 500, 404, 204 and 200 endings apart (both directions); a corollary of the contracts of the ending functions |
| ServerConfigs.ServerConfig.constructor | express/src/server/server.config.ts:15 | `{}`: every field missing |
| ServerConfigs.ServerConfig.FillDefaults | express/src/server/server.config.ts:17-20 | the fields become `Defaults` of the old ones |
| ServerConfigs.OrElse | express/src/server/server.config.ts:17 | `v ? v : d` |
| ServerConfigs.Defaults | express/src/server/server.config.ts:17-20 | a falsy port (0 and `NaN` included) becomes 3000; falsy default bodies become `''`; truthy values are kept; the port is always truthy |
| ServerConfigs.DefaultsIdempotent | express/src/server/server.config.ts:15-20 | defaulting twice is defaulting once |
| ServerConfigs.WithDefaults | express/src/server/server.config.ts:22-28 | the entries only grow, by at most two, and not at all when both names are in use |
| ServerConfigs.WithDefaultsMeaning | express/src/server/server.config.ts:22-28 | both reserved names are then in use, by the earlier component or the new instance; every other name keeps its component |
| ServerConfigs.AppendedAuth | express/src/server/server.config.ts:23-27 | registering the logger does not make `authentication` used |
| ServerConfigs.AppendedGet | express/src/server/server.config.ts:23-28 | appending for a missing key adds it and keeps every other answer |
| ServerConfigs.InitConfig | express/src/server/server.config.ts:14-31 | a missing config becomes a fresh object, a given one is updated and returned; fields defaulted; `ConsoleLogger` and `NoAuthentication` are registered only where the name is absent; no other category changes; idempotent on the registry once both names exist |
| ServerConfigs.RegisterDefaults | express/src/server/server.config.ts:22-28 | the two conditional registrations on the INJECTABLE map |
| ServerConfigs.RegisterIfAbsent | express/src/server/server.config.ts:23-25 | a name in use is left alone; a missing one gets one fresh instance of the class |
| ServerRequests.HandleController | server/src/server/request.handler.ts:43-61 | rejects exactly on a `ControllerEnding` failure, with the response untouched and one log; otherwise the response is `Finish(...)`; a controller is built only after a truthy access result; it is injected and given `Params` of the URL only when it has the verb's method |
| ServerRequests.RequestHandler | server/src/server/request.handler.ts:20-32 | a resolved URL ends as `Finish` of its `ControllerEnding` (500 on rejection); an unresolved GET goes to the static lookup with the response untouched; any other unresolved request is a 404 |
| ServerRequests.ResolvePath | server/src/server/request.handler.ts:202-212 | `/` added to the directory as required, the first mount URL replaced, every `/` mapped; `index.html` appended exactly when the result ends in the separator; no `/` is left under a non-`/` separator |
| ServerRequests.ResolvePathIndex | server/src/server/request.handler.ts:208-210 | the mount URL itself names `p/index.html` |
| ServerRequests.ResolvePathFile | server/src/server/request.handler.ts:207 | `/s/a` mounted on `p` is `p/a` |
| ServerRequests.ResolvePathWindows | server/src/server/request.handler.ts:204-210 | under `\`, `/d/` mounted on `C:` is `C:\index.html` |
| ServerRequests.ReplaceAllCharNoop | server/src/server/request.handler.ts:207 | mapping `/` to `/` on POSIX changes nothing |
| ExpressRequests.ParamCount | express/src/server/request.handler.ts:128 | no more parameter segments than segments |
| ExpressRequests.Positional | express/src/server/request.handler.ts:127-131 | at most as many values as `:` segments and as URL segments; each value is a URL segment at a pattern index |
| ExpressRequests.GetParameters | express/src/server/request.handler.ts:123-133 | the loop returns `Positional` of the query-free, non-empty segments of pattern and URL |
| ExpressRequests.NoParamsNoValues | express/src/server/request.handler.ts:127-131 | a pattern without `:` segments yields nothing |
| ExpressRequests.LongUrlFillsEveryParam | express/src/server/request.handler.ts:127-131 | a URL at least as long as the pattern fills every `:` segment |
| ExpressRequests.TwoSegments | express/src/server/request.handler.ts:125-126 | `/a/b` is the segments `a`, `b` |
| ExpressRequests.UserIdExample | express/src/server/request.handler.ts:123-133 | `/user/:id` with `/user/11` gives `["11"]` |
| ExpressRequests.HandleController | express/src/server/request.handler.ts:29-47 | the server ladder with positional parameters; a throwing constructor rejects without a log, a throwing access check or method is logged once |
| ExpressRequests.RequestHandler | express/src/server/request.handler.ts:15-18 | the response is `Finish` of the `ControllerEnding` and is ended exactly once |

## Left out

- Socket handlers, `tryStatic`/`readFile` (file-system I/O and MIME lookup), and the bootstrapping in `express.handler.ts` and `server.ts`: these are I/O and library calls. An unresolved GET is reported as `toStatic` instead of being served.
- `safeInvoke`: the user code it calls (`hasAccess`, the constructor, the controller method) is a parameter of type `Outcome` (throws, or yields a value). A throw is counted as one log entry; the behaviour with no logger component is not modelled.
- Promise timing: `handleController` runs to completion in one call. The injector's `init` promises settle through explicit `Settle`/`FinishInit` transitions. `initDone` (a getter for that promise) is not modelled.
- The request, the response object and the access result are not passed to the controller constructor; the constructor is summarised by whether it throws.
- Node's `res.write`: any value is recorded, with no JSON serialization or type check. Header names are compared as given, not case-insensitively.
- `resolvePath`: `path.sep` is a parameter. The `$` replacement patterns of `String.prototype.replace` are not interpreted.
- Registries.Registry.GetMap: each category map is a value, so the identity of the `Map` object returned (the same object on every call) and aliasing through it are not modelled. A caller that mutates the returned map is modelled by `Registry.SetIn`.
- RouteTrees.RouteTree.constructor: takes the route map as a sequence of (path, handler) pairs in insertion order. Every handler is a defined, truthy class, so a falsy handler at a node is not modelled.
- RouteTrees.RouteTree.constructor: states where each route's path leads, which handler its node holds (that of the last route leading there), that the nodes form a tree, and that every other node lies on a route and has no handler. A lookup by URL string is stated by `LastWriteWins` for paths without `?`; for URLs that no route names, `ApartResolvesToNothing` and `UnknownSegmentMisses` give `undefined`, `BuiltFallback` the trailing-parameter fallback and `ResolvesToRegistered` bounds any result; these take the URL as segments and describe URLs apart from every route at a literal position, not every URL no route names. Route paths are not stripped of `?` on insertion, which matches the source. Each node carries a ghost level and a ghost reference to the node that made it, which the source does not store.
- Injection.InjectRegistry.constructor: copies the INJECT category as a value. The source's `new Map(...)` copies only the map: each prototype's field array is still shared with the registry, so a later `@Inject` on a prototype already listed is seen by the source's injector but not by the model's snapshot.
- JavaScript values: numbers are reals plus `NaN`; infinities, `-0` as distinct from `0`, symbols and bigints are not modelled. Truthiness and the JSON header test (`typeof result === 'object'`, false for a function) are modelled for the values that are.
- ServerConfigs.InitConfig: requires that the `ConsoleLogger` and `NoAuthentication` constructors do not throw, which holds for those classes.
- ServerConfigs.InitConfig: the logger and authentication instances it creates are ghost results; the source does not return them either.
- Interfaces, re-exports and trivial classes (`console.logger.ts`, `no.authentication.ts`, `index.ts`, `library.service.ts`) are represented only by the class descriptions passed in.

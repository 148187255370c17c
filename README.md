# Discovery routes and the route cache of an API gateway, in Dafny

This project models three classes of a Spring Cloud Gateway core and proves
properties of the model:

- **Route synthesis** (`DiscoveryClientRouteDefinitionLocator`, module
  `DiscoveryLocator`, file `discovery_locator.dfy`). A sequence of
  service-instance groups becomes a sequence of route definitions. Empty
  groups are dropped and only the first instance of each group is used. An
  include check is applied, with a fast path when it is absent or `true`. The
  route id is the route id prefix followed by the service id. Every
  configured predicate and filter is copied, with each argument template
  evaluated against a view of the instance whose service id may be
  lower-cased. The expression language is an uninterpreted `Evaluator`. It
  says whether a template parses and what it yields against one instance: a
  value, null, or an exception. The outer pipeline is a pair of functions
  (`Representatives`, `RouteDefinitionsFor`). The per-route construction is
  a set of methods with loops (`CreateRouteDefinition`, `CopyDefinitions`,
  `CopyDefinition`). Each method is proved equal to a specification function
  (`RouteFor`, `ResolveDefinitions`, `ResolveDefinition`).
- **Refresh listener** (`RouteRefreshListener`, module `RouteRefresh`, file
  `route_refresh_listener.dfy`). This is a class holding a heartbeat monitor
  and an event publisher. It is proved against a pure state machine `Step`.
  Lifecycle events always publish one `RefreshRoutesEvent`. Heartbeats of
  either kind publish one only when their value differs from the last one
  recorded. Every other event does nothing.
- **Route cache** (`CachingRouteLocator`, module `RouteCache`, file
  `caching_route_locator.dfy`). This is a class whose `cache` map field only
  ever holds the key `"routes"`.
  - A read on an empty slot fetches the delegate's routes, sorts them
    stably by order, and stores them.
  - `refresh` empties the slot.
  - A refresh event overwrites the slot with a fresh fetch.
  - The sort is proved sorted, stable, a permutation, and the only stable
    sort of its input.

`wrappers.dfy` holds the `Option` (null) and `Result` (exception) datatypes
the modules share.

Where the code's behaviour may surprise, the model follows the code:

- The route id uses the raw service id. It is never lower-cased. Only the
  argument templates see the lower-cased view.
- If evaluating the include expression throws, the exception is not read as
  "exclude". It aborts the pass like any other template error. Only a null
  result is read as "exclude".
- One failing template aborts the whole synthesis pass, not just its route.
- `refresh()` only clears the slot. The recomputation happens at the next
  read.
- A refresh event whose fetch fails stores the error in the slot, because
  the signals are materialized and then put into the map. The previous
  routes are not kept, and later reads replay the error. A fetch on a read
  miss stores its error in the same way.
- `RefreshScopeRefreshedEvent` is a lifecycle event, like
  `ContextRefreshedEvent` and `InstanceRegisteredEvent`.

## Model

| member | source | states |
|---|---|---|
| `DiscoveryLocator.NewLocator` | spring-cloud-gateway-core/src/main/java/org/springframework/cloud/gateway/discovery/DiscoveryClientRouteDefinitionLocator.java:90-98 | the prefix is the configured one when it has text (non-null, some non-whitespace character), otherwise the client name and `_`; either way the chosen prefix has text; the properties are kept |
| `DiscoveryLocator.ToLower` | spring-cloud-gateway-core/src/main/java/org/springframework/cloud/gateway/discovery/DiscoveryClientRouteDefinitionLocator.java:184-189 | lower-casing keeps the length and maps each character independently |
| `DiscoveryLocator.ToLowerIdempotent` | spring-cloud-gateway-core/src/main/java/org/springframework/cloud/gateway/discovery/DiscoveryClientRouteDefinitionLocator.java:184-189 | lower-casing twice is lower-casing once |
| `DiscoveryLocator.ForEval` | spring-cloud-gateway-core/src/main/java/org/springframework/cloud/gateway/discovery/DiscoveryClientRouteDefinitionLocator.java:172-219 | the evaluation view differs from the delegate only in its service id; without lower-casing it is the delegate; with it the id equals the delegate's ignoring case and has no upper-case letter; host, port, secure, uri, metadata and scheme are the delegate's |
| `DiscoveryLocator.ForEvalIdempotent` | spring-cloud-gateway-core/src/main/java/org/springframework/cloud/gateway/discovery/DiscoveryClientRouteDefinitionLocator.java:184-189 | decorating an already decorated view changes nothing |
| `DiscoveryLocator.Include` | spring-cloud-gateway-core/src/main/java/org/springframework/cloud/gateway/discovery/DiscoveryClientRouteDefinitionLocator.java:112-123 | with no include expression or `true` in any case, every instance is included without evaluating anything; otherwise included iff the expression yields true, excluded iff it yields false or null, and an evaluation exception is an error carrying the expression |
| `DiscoveryLocator.GetValueFromExpr` | spring-cloud-gateway-core/src/main/java/org/springframework/cloud/gateway/discovery/DiscoveryClientRouteDefinitionLocator.java:160-169 | fails iff the template does not parse or its evaluation throws; the error is a parse failure naming the template when it does not parse, and otherwise an evaluation failure naming it; on success the value (or null) is the evaluated one |
| `DiscoveryLocator.AddArgNewKey` | spring-cloud-gateway-core/src/main/java/org/springframework/cloud/gateway/discovery/DiscoveryClientRouteDefinitionLocator.java:139-142 | adding an argument under a key not yet present appends it at the end |
| `DiscoveryLocator.AddArgExistingKey` | spring-cloud-gateway-core/src/main/java/org/springframework/cloud/gateway/discovery/DiscoveryClientRouteDefinitionLocator.java:139-142 | adding an argument keeps the key order when the key exists, and otherwise adds the key last |
| `DiscoveryLocator.AddArgGet` | spring-cloud-gateway-core/src/main/java/org/springframework/cloud/gateway/discovery/DiscoveryClientRouteDefinitionLocator.java:139-142 | after adding, the key maps to the new value and every other key keeps its value |
| `DiscoveryLocator.ResolveArgsPrefixFails` | spring-cloud-gateway-core/src/main/java/org/springframework/cloud/gateway/discovery/DiscoveryClientRouteDefinitionLocator.java:139-142 | once an argument fails, the definition fails with that error whatever follows |
| `DiscoveryLocator.ResolveDefinitionsPrefixFails` | spring-cloud-gateway-core/src/main/java/org/springframework/cloud/gateway/discovery/DiscoveryClientRouteDefinitionLocator.java:136-144 | once a definition fails, the list fails with that error whatever follows |
| `DiscoveryLocator.ResolveArgsShape` | spring-cloud-gateway-core/src/main/java/org/springframework/cloud/gateway/discovery/DiscoveryClientRouteDefinitionLocator.java:139-142 | resolved arguments have the configured keys in the configured order, each holding its own template's evaluated value |
| `DiscoveryLocator.ResolveArgsSucceeds` | spring-cloud-gateway-core/src/main/java/org/springframework/cloud/gateway/discovery/DiscoveryClientRouteDefinitionLocator.java:139-142 | argument resolution succeeds iff every argument template parses and evaluates |
| `DiscoveryLocator.ResolveArgsFirstError` | spring-cloud-gateway-core/src/main/java/org/springframework/cloud/gateway/discovery/DiscoveryClientRouteDefinitionLocator.java:160-169 | a failed resolution reports, unswallowed, the error of the first failing template in configured order |
| `DiscoveryLocator.ResolveDefinitionsShape` | spring-cloud-gateway-core/src/main/java/org/springframework/cloud/gateway/discovery/DiscoveryClientRouteDefinitionLocator.java:136-154 | resolved definitions succeed iff every definition's arguments do; they then have the configured length, names and order, each with its own arguments resolved |
| `DiscoveryLocator.RouteForShape` | spring-cloud-gateway-core/src/main/java/org/springframework/cloud/gateway/discovery/DiscoveryClientRouteDefinitionLocator.java:126-157 | a route builds iff the URL template yields a non-null value and every predicate and filter argument resolves; its id is prefix + raw service id, its URI the URL template's value on the raw instance, its predicates and filters match the configured ones one to one, resolved against the evaluation view |
| `DiscoveryLocator.CopyDefinition` | spring-cloud-gateway-core/src/main/java/org/springframework/cloud/gateway/discovery/DiscoveryClientRouteDefinitionLocator.java:137-143 | the loop that copies one definition computes exactly its specified resolution, returning the first error |
| `DiscoveryLocator.CopyDefinitions` | spring-cloud-gateway-core/src/main/java/org/springframework/cloud/gateway/discovery/DiscoveryClientRouteDefinitionLocator.java:136-154 | the loop over the configured predicates (or filters) computes exactly their specified resolution, returning the first error |
| `DiscoveryLocator.CreateRouteDefinition` | spring-cloud-gateway-core/src/main/java/org/springframework/cloud/gateway/discovery/DiscoveryClientRouteDefinitionLocator.java:126-157 | building one route step by step yields exactly the specified route or error |
| `DiscoveryLocator.Representatives` | spring-cloud-gateway-core/src/main/java/org/springframework/cloud/gateway/discovery/DiscoveryClientRouteDefinitionLocator.java:125 | at most one representative per group; with no empty group, exactly the first instance of each group, in order |
| `DiscoveryLocator.RepresentativesEmptyGroup` | spring-cloud-gateway-core/src/main/java/org/springframework/cloud/gateway/discovery/DiscoveryClientRouteDefinitionLocator.java:125 | an empty group contributes no representative |
| `DiscoveryLocator.RepresentativesNonEmptyGroup` | spring-cloud-gateway-core/src/main/java/org/springframework/cloud/gateway/discovery/DiscoveryClientRouteDefinitionLocator.java:125 | a non-empty group contributes exactly its first instance |
| `DiscoveryLocator.RepresentativesAppend` | spring-cloud-gateway-core/src/main/java/org/springframework/cloud/gateway/discovery/DiscoveryClientRouteDefinitionLocator.java:125 | groups are handled independently and in order: the representatives of a concatenation are those of each part, one after the other |
| `DiscoveryLocator.RepresentativesSeeOnlyFirst` | spring-cloud-gateway-core/src/main/java/org/springframework/cloud/gateway/discovery/DiscoveryClientRouteDefinitionLocator.java:125 | only emptiness and the first instance of each group are inspected |
| `DiscoveryLocator.RouteDefinitionsFor` | spring-cloud-gateway-core/src/main/java/org/springframework/cloud/gateway/discovery/DiscoveryClientRouteDefinitionLocator.java:125-157 | at most one route per instance |
| `DiscoveryLocator.RouteDefinitionsForOne` | spring-cloud-gateway-core/src/main/java/org/springframework/cloud/gateway/discovery/DiscoveryClientRouteDefinitionLocator.java:125-157 | an excluded instance yields no route, an included one its own route or its error, a failed include check its error |
| `DiscoveryLocator.RouteDefinitionsForAppend` | spring-cloud-gateway-core/src/main/java/org/springframework/cloud/gateway/discovery/DiscoveryClientRouteDefinitionLocator.java:125-157 | routes keep input order across a concatenation, and an error in an earlier part aborts the whole pass |
| `DiscoveryLocator.RouteDefinitionsForSucceeds` | spring-cloud-gateway-core/src/main/java/org/springframework/cloud/gateway/discovery/DiscoveryClientRouteDefinitionLocator.java:125-169 | the pass succeeds iff every instance's include check succeeds and every included instance's route builds: one template error anywhere aborts all routes |
| `DiscoveryLocator.RouteDefinitionsForIncludesAll` | spring-cloud-gateway-core/src/main/java/org/springframework/cloud/gateway/discovery/DiscoveryClientRouteDefinitionLocator.java:113-125 | when every instance is included and the pass succeeds (see `GetRouteDefinitionsSucceeds`), each instance yields exactly its own route, in order |
| `DiscoveryLocator.GetRouteDefinitions` | spring-cloud-gateway-core/src/main/java/org/springframework/cloud/gateway/discovery/DiscoveryClientRouteDefinitionLocator.java:106-158 | at most one route per discovered group |
| `DiscoveryLocator.GetRouteDefinitionsSucceeds` | spring-cloud-gateway-core/src/main/java/org/springframework/cloud/gateway/discovery/DiscoveryClientRouteDefinitionLocator.java:106-158 | synthesis succeeds iff the include (when present) and URL templates parse and every group's first instance goes through without error |
| `DiscoveryLocator.EveryServiceGetsOneRoute` | spring-cloud-gateway-core/src/main/java/org/springframework/cloud/gateway/discovery/DiscoveryClientRouteDefinitionLocator.java:125-130 | when the pass succeeds (see `GetRouteDefinitionsSucceeds`), and on the fast path or when the include expression yields true for every group's first instance, every non-empty group gets exactly one route, in order, built from its first instance, with id prefix + that instance's service id, and empty groups none; with no empty group, one route per group |
| `RouteRefresh.ApplicationEventPublisher.PublishEvent` | spring-cloud-gateway-core/src/main/java/org/springframework/cloud/gateway/route/RouteRefreshListener.java:75-77 | publishing appends exactly the event to what has been published |
| `RouteRefresh.HeartbeatMonitor.Update` | spring-cloud-gateway-core/src/main/java/org/springframework/cloud/gateway/route/RouteRefreshListener.java:66-70 | the assumed monitor contract: reports a change iff the value differs from the last recorded one, and records the value |
| `RouteRefresh.Refreshes` | spring-cloud-gateway-core/src/main/java/org/springframework/cloud/gateway/route/RouteRefreshListener.java:53-64 | a series of events publishes at most one refresh per event |
| `RouteRefresh.LifecycleAlwaysRefreshes` | spring-cloud-gateway-core/src/main/java/org/springframework/cloud/gateway/route/RouteRefreshListener.java:54-56 | context-refreshed, refresh-scope-refreshed and instance-registered events always publish and leave the monitor untouched |
| `RouteRefresh.HeartbeatRefreshesOnChange` | spring-cloud-gateway-core/src/main/java/org/springframework/cloud/gateway/route/RouteRefreshListener.java:57-63 | a parent heartbeat or heartbeat publishes iff its value differs from the recorded one, and records it |
| `RouteRefresh.SameValueHeartbeatsRefreshOnce` | spring-cloud-gateway-core/src/main/java/org/springframework/cloud/gateway/route/RouteRefreshListener.java:57-70 | a non-empty run of heartbeats of either kind carrying one value publishes exactly one refresh if the value was not recorded and none if it was, since both kinds share one monitor; it leaves the value recorded |
| `RouteRefresh.OtherEventsAreIgnored` | spring-cloud-gateway-core/src/main/java/org/springframework/cloud/gateway/route/RouteRefreshListener.java:53-64 | other events publish nothing and leave the monitor unchanged |
| `RouteRefresh.RouteRefreshListener.constructor` | spring-cloud-gateway-core/src/main/java/org/springframework/cloud/gateway/route/RouteRefreshListener.java:40-45 | keeps the publisher and starts with a fresh monitor that has recorded nothing |
| `RouteRefresh.RouteRefreshListener.Create` | spring-cloud-gateway-core/src/main/java/org/springframework/cloud/gateway/route/RouteRefreshListener.java:42-45 | a null publisher is rejected with "publisher may not be null"; any other yields a fresh listener with that publisher |
| `RouteRefresh.RouteRefreshListener.OnApplicationEvent` | spring-cloud-gateway-core/src/main/java/org/springframework/cloud/gateway/route/RouteRefreshListener.java:53-64 | the monitor and the published events change exactly as the state machine says; at most one event is published and its source is the listener |
| `RouteRefresh.RouteRefreshListener.OnApplicationEvents` | spring-cloud-gateway-core/src/main/java/org/springframework/cloud/gateway/route/RouteRefreshListener.java:53-70 | a run of events delivered one by one leaves the monitor as the state machine says and publishes exactly as many refreshes as it counts, all with the listener as source |
| `RouteRefresh.RouteRefreshListener.ResetIfNeeded` | spring-cloud-gateway-core/src/main/java/org/springframework/cloud/gateway/route/RouteRefreshListener.java:66-70 | publishes one refresh iff the monitor reports a changed value, and records the value |
| `RouteRefresh.RouteRefreshListener.Reset` | spring-cloud-gateway-core/src/main/java/org/springframework/cloud/gateway/route/RouteRefreshListener.java:75-77 | publishes exactly one refresh event whose source is the listener |
| `RouteRefresh.TwoIdenticalHeartbeats` | spring-cloud-gateway-core/src/main/java/org/springframework/cloud/gateway/route/RouteRefreshListener.java:57-70 | two consecutive heartbeats with equal values, of either kind, publish exactly one refresh if the value was not recorded and none if it was |
| `RouteRefresh.SameValueHeartbeatRun` | spring-cloud-gateway-core/src/main/java/org/springframework/cloud/gateway/route/RouteRefreshListener.java:57-70 | a non-empty run of heartbeats of either kind with one value makes the listener publish exactly one refresh if the value was not recorded, and none if it was |
| `RouteCache.InsertSorted` | spring-cloud-gateway-core/src/main/java/org/springframework/cloud/gateway/route/CachingRouteLocator.java:63-65 | inserting into a sorted list keeps it sorted |
| `RouteCache.InsertContents` | spring-cloud-gateway-core/src/main/java/org/springframework/cloud/gateway/route/CachingRouteLocator.java:63-65 | inserting adds exactly that route and nothing else |
| `RouteCache.InsertWithOrder` | spring-cloud-gateway-core/src/main/java/org/springframework/cloud/gateway/route/CachingRouteLocator.java:63-65 | an inserted route goes before every route of its own order and leaves other orders untouched |
| `RouteCache.SortByOrderSorted` | spring-cloud-gateway-core/src/main/java/org/springframework/cloud/gateway/route/CachingRouteLocator.java:63-65 | the sort is ascending by order |
| `RouteCache.SortByOrderPermutes` | spring-cloud-gateway-core/src/main/java/org/springframework/cloud/gateway/route/CachingRouteLocator.java:63-65 | the sort is a permutation of its input |
| `RouteCache.SortByOrderKeepsTies` | spring-cloud-gateway-core/src/main/java/org/springframework/cloud/gateway/route/CachingRouteLocator.java:63-65 | routes of any one order keep their input order |
| `RouteCache.SortByOrderIsStableSort` | spring-cloud-gateway-core/src/main/java/org/springframework/cloud/gateway/route/CachingRouteLocator.java:63-65 | the sort is ascending by order, keeps routes of equal order in input order, and is a permutation |
| `RouteCache.SortedUnique` | spring-cloud-gateway-core/src/main/java/org/springframework/cloud/gateway/route/CachingRouteLocator.java:63-65 | two sorted lists with the same routes of each order, in the same relative order, are equal |
| `RouteCache.StableSortIsUnique` | spring-cloud-gateway-core/src/main/java/org/springframework/cloud/gateway/route/CachingRouteLocator.java:63-65 | every stable sort of the routes by order (TimSort's included) equals the model's |
| `RouteCache.Fetch` | spring-cloud-gateway-core/src/main/java/org/springframework/cloud/gateway/route/CachingRouteLocator.java:63-65 | fails iff the delegate fails, with its error; otherwise returns the delegate's routes stably sorted by order, a permutation of them |
| `RouteCache.CachingRouteLocator.constructor` | spring-cloud-gateway-core/src/main/java/org/springframework/cloud/gateway/route/CachingRouteLocator.java:56-61 | starts with an empty slot and without having asked the delegate |
| `RouteCache.CachingRouteLocator.GetRoutes` | spring-cloud-gateway-core/src/main/java/org/springframework/cloud/gateway/route/CachingRouteLocator.java:60-70 | a filled slot is returned unchanged without asking the delegate; an empty one is filled under `"routes"` with one fresh fetch, which is returned; the map only ever holds that key |
| `RouteCache.CachingRouteLocator.Refresh` | spring-cloud-gateway-core/src/main/java/org/springframework/cloud/gateway/route/CachingRouteLocator.java:77-80 | empties the slot without asking the delegate |
| `RouteCache.CachingRouteLocator.OnRefreshRoutesEvent` | spring-cloud-gateway-core/src/main/java/org/springframework/cloud/gateway/route/CachingRouteLocator.java:83-85 | overwrites the slot with one fresh fetch, a failed one included, whatever it held |
| `RouteCache.CachingRouteLocator.GetOrder` | spring-cloud-gateway-core/src/main/java/org/springframework/cloud/gateway/route/CachingRouteLocator.java:93-95 | the order is always 0 |
| `RouteCache.ReadTwice` | spring-cloud-gateway-core/src/main/java/org/springframework/cloud/gateway/route/CachingRouteLocator.java:60-70 | two reads with nothing between them return the same routes and ask the delegate at most once |
| `RouteCache.RefreshThenRead` | spring-cloud-gateway-core/src/main/java/org/springframework/cloud/gateway/route/CachingRouteLocator.java:77-80 | after a refresh the next read returns a fresh fetch, asking the delegate once |
| `RouteCache.EventThenRead` | spring-cloud-gateway-core/src/main/java/org/springframework/cloud/gateway/route/CachingRouteLocator.java:83-85 | after a refresh event, reads return that event's fetch, its error included, whatever the delegate would answer later |

## Left out

- The expression language (SpEL parsing, `SimpleEvaluationContext`) is a foreign library. It is modelled as the uninterpreted `Evaluator` parameter.
- A null include expression is still handed to the parser in the source (line 109). The model checks parsing only for a present include expression.
- `URI.create` is not modelled. URIs are opaque strings. The only failure modelled is a null URL value, which `URI.create` rejects. Malformed URIs are not rejected.
- The discovery clients, `Flux.defer`, `Schedulers.boundedElastic` and the deprecated blocking constructor are I/O and scheduling. The model's input is the sequence of instance groups, and the discovery client's class name is a parameter of `NewLocator`.
- Reactor mechanics are left out: laziness, backpressure, `CacheFlux` subscription and replay, and `ConcurrentHashMap` thread safety. Each read, refresh and event is one atomic step. No single-flight guarantee under concurrent readers is modelled.
- `RouteCache.CachingRouteLocator.GetRoutes`: the delegate is not a field. Each read and event takes `upstream`, the delegate's answer at that moment, and a ghost counter records how often the delegate is asked.
- `RouteCache.CachingRouteLocator.Refresh`: the source returns the lazy cached stream. The model returns nothing, because subscribing to that stream is `GetRoutes`.
- Spring's event machinery is left out. Events are a closed datatype. The publisher is a stand-in class that appends to a ghost sequence.
- `RouteRefresh.HeartbeatMonitor.Update`: `HeartbeatMonitor` is not part of this model. Its behaviour is the assumed contract above, and heartbeats carrying a null value are not modelled.
- The annotation lookup of `AnnotationAwareOrderComparator` is left out. Each cached route carries an integer `order`. Converting route definitions into routes happens elsewhere in the gateway and is not part of this model.
- `DiscoveryLocator.ToLower`: `toLowerCase` uses the default locale. The model assumes a locale with ASCII case mapping (not Turkish or Azeri, where `I` becomes a dotless `ı`), and lower-cases ASCII letters only, leaving other characters unchanged. `equalsIgnoreCase` does not depend on the locale; it is also modelled for ASCII letters only.
- `DiscoveryLocator.ForEval`: the lower-cased service id of the evaluation view carries the same locale assumption as `ToLower`.
- `DiscoveryLocator.GetRouteDefinitions`: a stream subscriber receives the routes emitted before a failing group, and then the error. The model reports the error alone. The cache sorts, and so collects, before storing, so it sees only the error either way.
- Fields of a route definition that synthesis never sets (order, metadata) are not modelled.
- `toString`, logging and the deprecated `handleRefresh` are left out. `handleRefresh` only calls `refresh`.

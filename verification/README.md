# MBTA route toolkit, modelled in Dafny

This project models the logic behind the `q2` and `q3` commands of a small
command-line client for the MBTA (Boston transit) v3 API. It also models the
URL that the client's route query builds.

- **Stop resolver** (`findStop`). A stop name given by the user is matched
  without regard to case.
  - An exact name wins.
  - Otherwise the first stop whose name contains the query is taken, and a
    notice says so.
  - Otherwise there is no stop.
- **Route adjacency and path search** (`q3`).
  - Every route is mapped to the other routes that share one of its stops.
  - A breadth-first search then runs over paths (lists of routes). It starts
    from the routes of the source stop and ends at the first dequeued path
    whose last route serves the destination stop.
  - The run echoes the path's long names, or says that no path exists. It
    aborts with an error when a stop cannot be resolved.
- **Reporters** (`q2`).
  - The route with the most stops and the route with the fewest; a route
    without a stop set counts as 0.
  - The stops that lie on more than one route, each with the long names of
    its routes.
- **Route query URL** (`getRoutes`). The base URL, followed, when type codes
  are given, by `?filter[type]=` and the codes joined with `,`.

The network is the input: the routes, the stops, and the two nullable
association fields. `route.stops` and `stop.routes` become two maps, and a
missing key stands for `null` (`Transit.StopsOf` and `Transit.RoutesOf`
read them as options, after src/main/kotlin/Routes.kt:14 and
src/main/kotlin/Stops.kt:12). Kotlin's insertion-ordered sets become
sequences without duplicates, because that order decides every tie-break:

- `firstOrNull` takes the first match;
- `maxBy` and `minBy` keep the first extreme element;
- the search queue follows the order in which paths were added.

Echoed lines are returned as values.

Modules:

- `Wrappers`, `Sequences` and `Text` hold the shared pieces: `Option`,
  duplicate-free sequences, ASCII lower-casing, substring search,
  joining/splitting and decimal rendering.
- `Transit` holds the data model.
- The other modules follow the source files: `StopResolver`,
  `RouteAdjacency`, `PathSearch` and `QuestionThree`
  (src/main/kotlin/QuestionThree.kt), `QuestionTwo`
  (src/main/kotlin/QuestionTwo.kt) and `MbtaApi` (src/main/kotlin/MbtaApi.kt).

The search (`PathSearch.FindPath`) is written imperatively. It has a queue,
a `visited` set, a `while` loop and a loop that appends the children of a
path. It is proved against a specification:

- the returned path is a walk over the adjacency relation;
- it starts at a source route, ends at a destination route and repeats no
  route;
- no such walk is shorter;
- "no path" is returned exactly when no such walk exists;
- when a source route itself serves the destination, the answer is the
  first such route on its own.

Termination is shown by bounding the dequeued paths by a finite set that
contains every duplicate-free walk.

## Model

| member | source | states |
|---|---|---|
| StopResolver.FirstWhere | src/main/kotlin/QuestionThree.kt:26-27 | `firstOrNull`: the index found satisfies the predicate and no earlier element does; none exactly when no element does |
| StopResolver.FindStop | src/main/kotlin/QuestionThree.kt:24-30 | (with `NameIs` for the lower-cased equality at line 26, `NameContains` for the lower-cased `contains` at line 27 and `ApproximationNotice` for the text at line 28) the first exact (case-insensitive) match is returned silently; without one, the first stop whose name contains the query is returned with exactly one "not found, approximating to" notice; the result is empty exactly when no name contains the query, and then no notice is echoed |
| StopResolver.ExactBeatsApproximate | src/main/kotlin/QuestionThree.kt:25-27 | when some stop matches exactly, no merely approximate stop is chosen and nothing is echoed, wherever the two lie in the collection |
| StopResolver.ShortNameApproximates | src/test/kotlin/OnlineMbtaApiTest.kt:38-42 | resolving "kendall" among Davis and Kendall/MIT yields Kendall/MIT with the notice "kendall not found, approximating to Kendall/MIT" |
| Text.Lower | src/main/kotlin/QuestionThree.kt:25-27 | `toLowerCase` on ASCII: same length, no upper-case letter left, each upper-case letter replaced by its lower-case partner, every other character kept |
| Text.ContainsAt | src/main/kotlin/QuestionThree.kt:27 | `Contains`, the model of `contains`, holds exactly when the needle is a contiguous slice of the haystack at some position |
| RouteAdjacency.Add | src/main/kotlin/QuestionThree.kt:46 | `setSoFar.add`: the set gains exactly the new route, keeps its order and stays duplicate-free |
| RouteAdjacency.AddAll | src/main/kotlin/QuestionThree.kt:46 | `forEach { add }`: the set gains exactly the given routes, keeps its prefix and stays duplicate-free |
| RouteAdjacency.CollectRoutes | src/main/kotlin/QuestionThree.kt:44-47 | the fold over a route's stops collects exactly the routes of those stops (a stop without routes adds none), duplicate-free |
| RouteAdjacency.Remove | src/main/kotlin/QuestionThree.kt:48-51 | `remove(route)`: exactly the route itself is dropped and the set stays duplicate-free |
| RouteAdjacency.AdjacencyList | src/main/kotlin/QuestionThree.kt:42-52 | (each entry is `AdjacentRoutes`, the `associateWith` lambda at lines 44-51: the fold, then the removal, or empty for a null stop set, read through `Transit.StopsOf` and `Transit.RoutesOf`) every route has an entry and nothing else does; b is in adj[a] exactly when b ≠ a and some stop of a lists b; a route without a stop set maps to the empty set; every entry is duplicate-free |
| RouteAdjacency.AdjacentIffShareStop | src/main/kotlin/QuestionThree.kt:42-52 | on a consistent network, b is adjacent to a exactly when they are different routes that serve a common stop |
| RouteAdjacency.AdjacencySymmetric | src/main/kotlin/QuestionThree.kt:42-52 | on a consistent network, the adjacency list is symmetric |
| PathSearch.SeedPaths | src/main/kotlin/QuestionThree.kt:58 | the queue starts with one single-route path per source route, in the source stop's order |
| PathSearch.InitInv | src/main/kotlin/QuestionThree.kt:55-58 | the seeded queue and `visited` (the source routes) satisfy the search invariant: queued paths are duplicate-free walks from a source route, all but their last route visited, in non-decreasing length |
| PathSearch.EnqueueUnvisited | src/main/kotlin/QuestionThree.kt:71-76 | (`Children` gives the appended paths as a function; `PathSearch.Neighbours` is `adjacencyList[currentLastRoute]?`, empty for a route without an entry, line 71) the queue grows by the current path extended with each unvisited neighbour, in adjacency order, and by nothing else |
| PathSearch.ChildrenFacts | src/main/kotlin/QuestionThree.kt:71-76 | each appended path is the current path plus one neighbour not visited, and every unvisited neighbour yields one |
| PathSearch.ExtendWalk | src/main/kotlin/QuestionThree.kt:72-75 | a walk extended by a neighbour of its last route is a walk |
| PathSearch.SimpleWalkInBound | src/main/kotlin/QuestionThree.kt:60-79 | every duplicate-free walk lies in a finite set fixed by the adjacency list, which bounds the number of dequeues |
| PathSearch.StepQueueWalks | src/main/kotlin/QuestionThree.kt:68-76 | after a dequeue and expansion, queued paths are still duplicate-free walks whose non-final routes are visited |
| PathSearch.StepExpanded | src/main/kotlin/QuestionThree.kt:62-68 | a dequeued path that is not an answer ends at a route now visited and not a destination route |
| PathSearch.StepFresh | src/main/kotlin/QuestionThree.kt:68-76 | no path is queued twice or after it was dequeued, and a queued path's parent has been dequeued |
| PathSearch.StepLevels | src/main/kotlin/QuestionThree.kt:60-76 | queued lengths stay non-decreasing and within one of each other, and no dequeued path is longer than a queued one |
| PathSearch.CoverNeighbour | src/main/kotlin/QuestionThree.kt:68-76 | each neighbour of the expanded route is reached by a queued or dequeued path at most one route longer |
| PathSearch.StepCovered | src/main/kotlin/QuestionThree.kt:68-76 | every neighbour of a dequeued path's last route stays reached by a path at most one route longer |
| PathSearch.StepSeeds | src/main/kotlin/QuestionThree.kt:58-60 | the seed paths are dequeued first, in the source stop's order |
| PathSearch.Step | src/main/kotlin/QuestionThree.kt:60-76 | one iteration of the loop keeps the whole search invariant, and the dequeued path is new and inside the finite bound |
| PathSearch.WalkCovered | src/main/kotlin/QuestionThree.kt:54-81 | for every walk from a source route, either a dequeued path ends at the walk's last route and is no longer than the walk, or a queued path ends at some route w[i] of the walk and has at most i+1 routes |
| PathSearch.FoundShortest | src/main/kotlin/QuestionThree.kt:62-65 | the first dequeued path ending at a destination route is a duplicate-free walk with no more routes than any walk to a destination route; it is the first source route that serves the destination when one does |
| PathSearch.ExhaustedUnreachable | src/main/kotlin/QuestionThree.kt:60-81 | when the queue runs empty, no walk from a source route reaches a destination route |
| PathSearch.FoundResult | src/main/kotlin/QuestionThree.kt:62-65 | returning the dequeued path meets the search's specification |
| PathSearch.NotFoundResult | src/main/kotlin/QuestionThree.kt:79-81 | reporting no path meets the search's specification: nothing is reachable and no source route serves the destination |
| PathSearch.FindPath | src/main/kotlin/QuestionThree.kt:54-81 | the returned path is a shortest duplicate-free walk from a source route to a destination route; "no path" is returned exactly when no destination route is reachable (including when there are no source routes); a source route that serves the destination is returned alone, the first such one |
| QuestionThree.PathLineIsNotNoPathLine | src/main/kotlin/QuestionThree.kt:64-81 | the path line and the no-path line are always different |
| QuestionThree.Run | src/main/kotlin/QuestionThree.kt:32-82 | (the texts are `SourceMissing` at line 36, `DestinationMissing` at line 39, `PathLine` at line 64 and `NoPathLine` at line 81; `Searches` is the pair of guards at lines 35-39 passing; `RoutesOrNone` is `?.routes` with `?: mutableSetOf()`, lines 38 and 57-58) an unknown source aborts with "Source … not found as a stop name!"; an unknown destination, or one without a route set, aborts after both lookups' notices with "Destination … not found as a stop name!"; otherwise the notices are followed by one line, which names a shortest route sequence exactly when one exists and says "No path from … could be found" otherwise |
| QuestionTwo.MostStops | src/main/kotlin/QuestionTwo.kt:30 | `maxBy` on stop count (none counts 0): none exactly for no routes; the chosen route's count is at least every route's count, and it is the first route with that count |
| QuestionTwo.LeastStops | src/main/kotlin/QuestionTwo.kt:33 | `minBy` on stop count (none counts 0): none exactly for no routes; the chosen route's count is at most every route's count, and it is the first route with that count |
| QuestionTwo.MultiRouteStopsCounts | src/main/kotlin/QuestionTwo.kt:38 | `MultiRouteStops`, the `filter` with predicate `OnSeveralRoutes` (a non-null route set of size above 1), keeps every stop on more than one route as often as it occurs, and no other stop |
| QuestionTwo.MultiRouteStopsAppend | src/main/kotlin/QuestionTwo.kt:38 | the filter distributes over concatenation, so it keeps the stops' order |
| QuestionTwo.MultiRouteStopsOnce | src/main/kotlin/QuestionTwo.kt:38 | over a stop set, each stop on more than one route is listed exactly once, and only those stops |
| QuestionTwo.Report | src/main/kotlin/QuestionTwo.kt:30-40 | two extreme lines, the heading, then one line per listed stop |
| QuestionTwo.ReportWithoutRoutes | src/main/kotlin/QuestionTwo.kt:32-35 | with no routes, both "There were no routes found" messages are printed |
| QuestionTwo.ReportMost | src/main/kotlin/QuestionTwo.kt:30-31 | (through `MostLine`, `CountText` and `StopCount`, the null-as-0 size) the first line names a route with the largest stop count and prints that count (0 for no stop set) |
| QuestionTwo.ReportLeast | src/main/kotlin/QuestionTwo.kt:33-34 | (through `LeastLine`, `CountText` and `StopCount`) the second line names a route with the smallest stop count and prints that count (0 for no stop set) |
| QuestionTwo.ReportStopLines | src/main/kotlin/QuestionTwo.kt:38-39 | (through `StopLine`, `LongNames` and `Join`, the model of `joinToString`) every later line is a stop on more than one route, printed with its name and the long names of all its routes joined by ", " |
| MbtaApi.RoutesUrl | src/main/kotlin/MbtaApi.kt:15-18 | (`JoinCodes` is `types.joinToString(separator = ",")`, line 18) the URL starts with the routes endpoint, and is exactly that endpoint when no type codes are given |
| MbtaApi.RoutesUrlRoundTrip | src/main/kotlin/MbtaApi.kt:16-18 | the requested codes can be read back from the URL unchanged: same values, same order, duplicates kept, nothing filtered |
| MbtaApi.RoutesUrlCommas | src/main/kotlin/MbtaApi.kt:16-18 | n codes put exactly n-1 commas in the URL, and none are added for no codes |
| Text.SplitJoin | src/main/kotlin/MbtaApi.kt:18 | joining with a one-character separator that no part contains is undone by splitting at it |
| Text.JoinCount | src/main/kotlin/MbtaApi.kt:18 | joining n comma-free parts with "," puts n-1 commas in the result |
| Text.IntToStringRoundTrip | src/main/kotlin/MbtaApi.kt:18 | `IntToString`, the string-template rendering of an `Int`: a type code's decimal rendering parses back to the code |
| Text.IntToStringChars | src/main/kotlin/MbtaApi.kt:18 | a decimal rendering holds only digits and a minus sign, so no comma |

## Left out

- HTTP, JSON and coroutines. `client.get`, the Ktor client, Gson
  deserialization and `runBlocking` are not modelled; the network is a
  parameter of every operation.
- The graph builder (`MbtaApi.associateRoutesToStops` and
  `MbtaApi.getStops`) is out of scope. Its result, the network, is the
  model's input. `Transit.Consistent` describes that network:
  - From the online association test
    (src/test/kotlin/OnlineMbtaApiTest.kt:24-27): every stop a route lists
    is a known stop, and every route a stop lists is a known route.
  - From the builder's own bidirectional invariant, which that test does
    not check: a route lists a stop exactly when the stop lists the route.
  - Not modelled: the test's `!!`, which also demands that every route's
    stop set and every stop's route set are non-null.

  Only `AdjacentIffShareStop` and `AdjacencySymmetric` require
  `Consistent`. The search needs only that the sets hold no duplicates.
- Command-line parsing (Clikt), the `q1` command and the second `Routes`
  class in src/main/kotlin/MbtaApi.kt are left out. The latter only
  declares data.
- Lower-casing is ASCII-only. Locale-dependent `toLowerCase` and Unicode
  case mapping are not modelled.
- QuestionThree.Run: `visited` is a separate set initialised to the source
  stop's routes, whereas the source reuses that stop's own `routes` set.
  Because the adjacency list is already built when the set grows, the
  aliasing does not change what is printed. It does change the stop's
  recorded routes, and the model does not show that.
- PathSearch.FindPath: when several shortest paths of two or more routes
  exist, the contract does not say which one is returned. The body keeps
  the source's queue order, so the choice is the source's.
- QuestionThree.Run prints that result, so its contract likewise leaves
  open which of several shortest paths of two or more routes is printed.
- Routes and stops are compared as values of their type, id and
  attributes. The association maps are kept outside them, as the
  `data class` equality of the source ignores those fields.
- MbtaApi.RoutesUrl: type codes are unbounded integers. Kotlin's 32-bit
  `Int` only limits which codes can be passed, and the rendering agrees
  for every code in that range.

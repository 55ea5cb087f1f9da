/**
 * The adjacency list of the path search: every route mapped to the routes it
 * shares a stop with. For a route, the routes of each of its stops are folded
 * into an insertion-ordered set, and the route itself is removed at the end.
 */
module RouteAdjacency {
  import opened Wrappers
  import opened Sequences
  import opened Transit

  /** `set.add(r)` on an insertion-ordered set. */
  function Add(acc: seq<Route>, r: Route): (res: seq<Route>)
    ensures forall x :: x in res <==> x in acc || x == r
    ensures acc <= res
    ensures NoDup(acc) ==> NoDup(res)
  {
    if r in acc then acc else acc + [r]
  }

  /** `routes.forEach { set.add(it) }`. */
  function AddAll(acc: seq<Route>, routes: seq<Route>): (res: seq<Route>)
    ensures forall x :: x in res <==> x in acc || x in routes
    ensures acc <= res
    ensures NoDup(acc) ==> NoDup(res)
    decreases routes
  {
    if routes == [] then acc else AddAll(Add(acc, routes[0]), routes[1..])
  }

  /** The fold over a route's stops: every route of every stop, once each, in order of first appearance. */
  function CollectRoutes(net: Network, stops: seq<Stop>, acc: seq<Route>): (res: seq<Route>)
    ensures forall x :: x in res <==> x in acc || exists s :: s in stops && s in net.routesOf && x in net.routesOf[s]
    ensures acc <= res
    ensures NoDup(acc) ==> NoDup(res)
  {
    if stops == [] then acc
    else
      var acc' := match RoutesOf(net, stops[0]) case Some(rs) => AddAll(acc, rs) case None => acc;
      var res := CollectRoutes(net, stops[1..], acc');
      assert forall s :: s in stops <==> s == stops[0] || s in stops[1..];
      res
  }

  /** `remove(r)`. */
  function Remove(s: seq<Route>, r: Route): (res: seq<Route>)
    ensures forall x :: x in res <==> x in s && x != r
    ensures NoDup(s) ==> NoDup(res)
  {
    if s == [] then []
    else
      var rest := Remove(s[1..], r);
      assert forall x :: x in s <==> x == s[0] || x in s[1..];
      assert NoDup(s) ==> s[0] !in s[1..] && NoDup(s[1..]) by {
        if NoDup(s) {
          forall i | 0 <= i < |s[1..]| ensures s[1..][i] != s[0] {
            assert s[1..][i] == s[i + 1];
          }
        }
      }
      if s[0] == r then rest else [s[0]] + rest
  }

  /** The routes `route` connects to: empty when its stop set is null. */
  function AdjacentRoutes(net: Network, route: Route): seq<Route> {
    match StopsOf(net, route)
    case Some(stops) => Remove(CollectRoutes(net, stops, []), route)
    case None => []
  }

  /** Stop s lists route r among its routes. */
  ghost predicate Serves(net: Network, s: Stop, r: Route) {
    s in net.routesOf && r in net.routesOf[s]
  }

  /** Route b can be reached from route a: a different route sharing one of a's stops. */
  ghost predicate Adjacent(net: Network, a: Route, b: Route) {
    a != b && a in net.stopsOf && exists s :: s in net.stopsOf[a] && Serves(net, s, b)
  }

  /** `routes.associateWith { ... }`. */
  function AdjacencyList(net: Network): (adj: map<Route, seq<Route>>)
    ensures forall r :: r in adj <==> r in net.routes
    ensures forall a, b :: a in adj ==> (b in adj[a] <==> Adjacent(net, a, b))
    ensures forall a :: a in adj && a !in net.stopsOf ==> adj[a] == []
    ensures forall a :: a in adj ==> NoDup(adj[a])
  {
    map r | r in net.routes :: AdjacentRoutes(net, r)
  }

  /** Some stop of the network lies on both routes. */
  ghost predicate ShareStop(net: Network, a: Route, b: Route) {
    exists s :: s in net.stops && Serves(net, s, a) && Serves(net, s, b)
  }

  /** For a consistent network, adjacency is exactly "a different route with a stop in common". */
  lemma AdjacentIffShareStop(net: Network, a: Route, b: Route)
    requires Consistent(net)
    requires a in net.routes && b in net.routes
    ensures b in AdjacencyList(net)[a] <==> a != b && ShareStop(net, a, b)
  {
    if Adjacent(net, a, b) {
      var s :| s in net.stopsOf[a] && s in net.routesOf && b in net.routesOf[s];
      assert s in net.stops;
      assert Serves(net, s, a);
    }
    if a != b && ShareStop(net, a, b) {
      var s :| s in net.stops && Serves(net, s, a) && Serves(net, s, b);
      assert a in net.stopsOf && s in net.stopsOf[a];
      assert Adjacent(net, a, b);
    }
  }

  /** For a consistent network the adjacency list is symmetric. */
  lemma AdjacencySymmetric(net: Network, a: Route, b: Route)
    requires Consistent(net)
    requires a in net.routes && b in net.routes
    ensures b in AdjacencyList(net)[a] <==> a in AdjacencyList(net)[b]
  {
    AdjacentIffShareStop(net, a, b);
    AdjacentIffShareStop(net, b, a);
    if ShareStop(net, a, b) {
      var s :| s in net.stops && Serves(net, s, a) && Serves(net, s, b);
      assert ShareStop(net, b, a);
    }
    if ShareStop(net, b, a) {
      var s :| s in net.stops && Serves(net, s, b) && Serves(net, s, a);
      assert ShareStop(net, a, b);
    }
  }
}

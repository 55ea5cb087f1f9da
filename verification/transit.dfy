/**
 * The transit network as the graph builder hands it over: the route and stop
 * records of the `/routes` and `/stops` endpoints, and the association between
 * them. A route's `stops` and a stop's `routes` are mutable, nullable sets kept
 * outside the records' equality; here they are two maps keyed by the record
 * values, where a missing key is a null set and a duplicate-free sequence is a
 * set in its insertion order.
 */
module Transit {
  import opened Wrappers
  import opened Sequences

  datatype RouteAttributes = RouteAttributes(
    kind: int,                          // the transit-mode type code
    shortName: string,
    longName: string,
    directionNames: seq<string>,
    directionDestinations: seq<string>,
    description: string)

  /** A route record; `recordType` is the JSON:API `type` field. */
  datatype Route = Route(recordType: string, id: string, attributes: RouteAttributes)

  datatype StopAttributes = StopAttributes(name: string)

  datatype Stop = Stop(recordType: string, id: string, attributes: StopAttributes)

  datatype Network = Network(
    routes: seq<Route>,                 // the route set, in iteration order
    stops: seq<Stop>,                   // the stop set, in iteration order
    stopsOf: map<Route, seq<Stop>>,     // route.stops; absent means null
    routesOf: map<Stop, seq<Route>>)    // stop.routes; absent means null

  /** `route.stops`. */
  function StopsOf(net: Network, r: Route): Option<seq<Stop>> {
    if r in net.stopsOf then Some(net.stopsOf[r]) else None
  }

  /** `stop.routes`. */
  function RoutesOf(net: Network, s: Stop): Option<seq<Route>> {
    if s in net.routesOf then Some(net.routesOf[s]) else None
  }

  /** The long names of `routes`, in order, as the reports print them. */
  function LongNames(routes: seq<Route>): seq<string> {
    seq(|routes|, i requires 0 <= i < |routes| => routes[i].attributes.longName)
  }

  /** Every collection of the network is a set: no element twice. */
  predicate SetsAreSets(net: Network) {
    && NoDup(net.routes)
    && NoDup(net.stops)
    && (forall r :: r in net.stopsOf ==> NoDup(net.stopsOf[r]))
    && (forall s :: s in net.routesOf ==> NoDup(net.routesOf[s]))
  }

  /**
   * What the graph builder guarantees: sets are sets, every route lists only
   * known stops and every stop only known routes, and the association is
   * bidirectional.
   */
  predicate Consistent(net: Network) {
    && SetsAreSets(net)
    && (forall r, s :: r in net.stopsOf && s in net.stopsOf[r] ==> s in net.stops)
    && (forall s, r :: s in net.routesOf && r in net.routesOf[s] ==> r in net.routes)
    && (forall r, s :: r in net.routes && s in net.stops ==>
          (r in net.stopsOf && s in net.stopsOf[r] <==> s in net.routesOf && r in net.routesOf[s]))
  }
}

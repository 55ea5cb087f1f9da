/**
 * The second command's report: the route with the most stops, the route with
 * the fewest, and every stop that lies on more than one route. Each `echo` is
 * one line of the returned report.
 */
module QuestionTwo {
  import opened Wrappers
  import opened Text
  import opened Sequences
  import opened Transit

  /** `route.stops?.size ?: 0`. */
  function StopCount(net: Network, r: Route): nat {
    match StopsOf(net, r)
    case Some(stops) => |stops|
    case None => 0
  }

  /**
   * `maxBy { stops?.size ?: 0 }`: the first route whose stop count no other
   * route exceeds, or none for an empty route set.
   */
  function MostStops(net: Network, routes: seq<Route>): (r: Option<Route>)
    ensures r.None? <==> routes == []
    ensures r.Some? ==> forall j :: 0 <= j < |routes| ==> StopCount(net, routes[j]) <= StopCount(net, r.value)
    ensures r.Some? ==> exists i :: 0 <= i < |routes| && routes[i] == r.value &&
                          forall j :: 0 <= j < i ==> StopCount(net, routes[j]) < StopCount(net, r.value)
  {
    if routes == [] then None
    else
      var last := routes[|routes| - 1];
      match MostStops(net, routes[..|routes| - 1])
      case None => Some(last)
      case Some(m) =>
        if StopCount(net, m) < StopCount(net, last) then Some(last) else Some(m)
  }

  /**
   * `minBy { stops?.size ?: 0 }`: the first route whose stop count no other
   * route undercuts, or none for an empty route set.
   */
  function LeastStops(net: Network, routes: seq<Route>): (r: Option<Route>)
    ensures r.None? <==> routes == []
    ensures r.Some? ==> forall j :: 0 <= j < |routes| ==> StopCount(net, r.value) <= StopCount(net, routes[j])
    ensures r.Some? ==> exists i :: 0 <= i < |routes| && routes[i] == r.value &&
                          forall j :: 0 <= j < i ==> StopCount(net, r.value) < StopCount(net, routes[j])
  {
    if routes == [] then None
    else
      var last := routes[|routes| - 1];
      match LeastStops(net, routes[..|routes| - 1])
      case None => Some(last)
      case Some(m) =>
        if StopCount(net, m) > StopCount(net, last) then Some(last) else Some(m)
  }

  /** `stop.routes != null && stop.routes!!.size > 1`. */
  predicate OnSeveralRoutes(net: Network, s: Stop) {
    s in net.routesOf && |net.routesOf[s]| > 1
  }

  /** The stops on at least two routes, in the order of `stops`. */
  function MultiRouteStops(net: Network, stops: seq<Stop>): seq<Stop> {
    if stops == [] then []
    else
      var rest := MultiRouteStops(net, stops[1..]);
      if OnSeveralRoutes(net, stops[0]) then [stops[0]] + rest else rest
  }

  /** A stop is listed as often as it occurs in `stops` if it lies on several routes, and never otherwise. */
  lemma {:induction false} MultiRouteStopsCounts(net: Network, stops: seq<Stop>)
    ensures forall s :: multiset(MultiRouteStops(net, stops))[s] ==
                          if OnSeveralRoutes(net, s) then multiset(stops)[s] else 0
  {
    if stops != [] {
      MultiRouteStopsCounts(net, stops[1..]);
      assert stops == [stops[0]] + stops[1..];
    }
  }

  /** Filtering keeps the relative order: it distributes over concatenation. */
  lemma {:induction false} MultiRouteStopsAppend(net: Network, a: seq<Stop>, b: seq<Stop>)
    ensures MultiRouteStops(net, a + b) == MultiRouteStops(net, a) + MultiRouteStops(net, b)
  {
    if a != [] {
      assert (a + b)[0] == a[0];
      assert (a + b)[1..] == a[1..] + b;
      MultiRouteStopsAppend(net, a[1..], b);
    } else {
      assert a + b == b;
    }
  }

  /** A stop set lists each multi-route stop exactly once. */
  lemma MultiRouteStopsOnce(net: Network, stops: seq<Stop>)
    requires NoDup(stops)
    ensures NoDup(MultiRouteStops(net, stops))
    ensures forall s :: s in MultiRouteStops(net, stops) <==> s in stops && OnSeveralRoutes(net, s)
  {
    var r := MultiRouteStops(net, stops);
    MultiRouteStopsCounts(net, stops);
    NoDupCounts(stops);
    forall i, j | 0 <= i < j < |r| ensures r[i] != r[j] {
      if r[i] == r[j] {
        TwiceCounts(r, i, j);
        assert false;
      }
    }
    forall s ensures s in r <==> s in stops && OnSeveralRoutes(net, s) {
      assert s in r <==> multiset(r)[s] > 0;
      assert s in stops <==> multiset(stops)[s] > 0;
    }
  }

  lemma {:induction false} NoDupCounts<T>(s: seq<T>)
    requires NoDup(s)
    ensures forall x :: multiset(s)[x] <= 1
  {
    if s != [] {
      assert s == [s[0]] + s[1..];
      NoDupCounts(s[1..]);
      assert s[0] !in s[1..];
    }
  }

  lemma TwiceCounts<T>(s: seq<T>, i: nat, j: nat)
    requires i < j < |s| && s[i] == s[j]
    ensures multiset(s)[s[i]] >= 2
  {
    assert s == s[..j] + [s[j]] + s[j + 1..];
    assert s[i] in s[..j];
  }

  function CountText(net: Network, r: Route): string {
    r.attributes.longName + " (" + IntToString(StopCount(net, r)) + ")"
  }

  function MostLine(net: Network): string {
    match MostStops(net, net.routes)
    case Some(r) => "Route with the most stops: " + CountText(net, r)
    case None => "There were no routes found; maximum stops couldn't be calculated"
  }

  function LeastLine(net: Network): string {
    match LeastStops(net, net.routes)
    case Some(r) => "Route with the least stops: " + CountText(net, r)
    case None => "There were no routes found; minimum stops couldn't be calculated"
  }

  /** A listed stop: its name and the long names of all of its routes. */
  function StopLine(net: Network, s: Stop): string {
    "    " + s.attributes.name + ": " + Join(LongNames(RoutesOf(net, s).GetOr([])), ", ")
  }

  /** Everything the second command prints, line by line. */
  function Report(net: Network): (lines: seq<string>)
    ensures |lines| == 3 + |MultiRouteStops(net, net.stops)|
    ensures lines[2] == "Stops on at least two routes:"
  {
    var listed := MultiRouteStops(net, net.stops);
    [MostLine(net), LeastLine(net), "Stops on at least two routes:"]
      + seq(|listed|, k requires 0 <= k < |listed| => StopLine(net, listed[k]))
  }

  /** With no routes, both extremes report that nothing was found. */
  lemma ReportWithoutRoutes(net: Network)
    requires net.routes == []
    ensures Report(net)[0] == "There were no routes found; maximum stops couldn't be calculated"
    ensures Report(net)[1] == "There were no routes found; minimum stops couldn't be calculated"
  {
  }

  /** The first line names a route with the largest stop count, with that count. */
  lemma ReportMost(net: Network)
    requires net.routes != []
    ensures exists i ::
              && 0 <= i < |net.routes|
              && Report(net)[0] == "Route with the most stops: " + CountText(net, net.routes[i])
              && forall j :: 0 <= j < |net.routes| ==> StopCount(net, net.routes[j]) <= StopCount(net, net.routes[i])
  {
    var m := MostStops(net, net.routes);
    var i :| 0 <= i < |net.routes| && net.routes[i] == m.value;
    assert Report(net)[0] == MostLine(net);
  }

  /** The second line names a route with the smallest stop count, with that count. */
  lemma ReportLeast(net: Network)
    requires net.routes != []
    ensures exists i ::
              && 0 <= i < |net.routes|
              && Report(net)[1] == "Route with the least stops: " + CountText(net, net.routes[i])
              && forall j :: 0 <= j < |net.routes| ==> StopCount(net, net.routes[i]) <= StopCount(net, net.routes[j])
  {
    var m := LeastStops(net, net.routes);
    var i :| 0 <= i < |net.routes| && net.routes[i] == m.value;
    assert Report(net)[1] == LeastLine(net);
  }

  /** Each later line lists one multi-route stop with the long names of all of its routes. */
  lemma ReportStopLines(net: Network, k: nat)
    requires 3 <= k < |Report(net)|
    ensures OnSeveralRoutes(net, MultiRouteStops(net, net.stops)[k - 3])
    ensures Report(net)[k] == "    " + MultiRouteStops(net, net.stops)[k - 3].attributes.name + ": "
      + Join(LongNames(net.routesOf[MultiRouteStops(net, net.stops)[k - 3]]), ", ")
  {
    var listed := MultiRouteStops(net, net.stops);
    MultiRouteStopsCounts(net, net.stops);
    assert multiset(listed)[listed[k - 3]] > 0;
    assert Report(net)[k] == StopLine(net, listed[k - 3]);
  }
}

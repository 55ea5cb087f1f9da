/**
 * `q3`: resolve a source and a destination stop by name, build the route
 * adjacency list and search it breadth first for the fewest routes that lead
 * from a route serving the source to a route serving the destination.
 */
module QuestionThree {
  import opened Wrappers
  import opened Sequences
  import opened Text
  import opened Transit
  import opened StopResolver
  import opened RouteAdjacency
  import opened PathSearch

  /**
   * What a run leaves behind: the lines it echoed, and, when it stopped with an
   * `IllegalArgumentException`, that exception's message.
   */
  datatype Outcome =
    | Completed(lines: seq<string>)
    | Aborted(lines: seq<string>, error: string)

  function SourceMissing(source: string): string {
    "Source " + source + " not found as a stop name!"
  }

  function DestinationMissing(dest: string): string {
    "Destination " + dest + " not found as a stop name!"
  }

  /** The line announcing a path: the long names of its routes, comma separated. */
  function PathLine(source: string, dest: string, path: seq<Route>): string {
    "Path from " + source + " to " + dest + ": " + Join(LongNames(path), ", ")
  }

  function NoPathLine(source: string, dest: string): string {
    "No path from " + source + " to " + dest + " could be found"
  }

  /** The routes of a resolved stop; a stop without a route set contributes none. */
  function RoutesOrNone(net: Network, stop: Option<Stop>): seq<Route> {
    if stop.Some? then RoutesOf(net, stop.value).GetOr([]) else []
  }

  /** Both names resolve and the destination stop has a route set: the search runs. */
  predicate Searches(net: Network, source: string, dest: string) {
    && FindStop(net.stops, source).stop.Some?
    && FindStop(net.stops, dest).stop.Some?
    && FindStop(net.stops, dest).stop.value in net.routesOf
  }

  /** The two kinds of final line can never be mistaken for each other. */
  lemma PathLineIsNotNoPathLine(source: string, dest: string, path: seq<Route>)
    ensures PathLine(source, dest, path) != NoPathLine(source, dest)
  {
    assert PathLine(source, dest, path)[0] == 'P';
    assert NoPathLine(source, dest)[0] == 'N';
  }

  method Run(net: Network, source: string, dest: string) returns (out: Outcome)
    requires SetsAreSets(net)
    // an unknown source stops the run after the (empty) notices of its lookup
    ensures FindStop(net.stops, source).stop.None? ==>
              out == Aborted(FindStop(net.stops, source).notices, SourceMissing(source))
    // an unknown destination, or one without a route set, stops it after both lookups' notices
    ensures FindStop(net.stops, source).stop.Some? && !Searches(net, source, dest) ==>
              out == Aborted(FindStop(net.stops, source).notices + FindStop(net.stops, dest).notices,
                             DestinationMissing(dest))
    // otherwise the notices are followed by exactly one verdict line
    ensures Searches(net, source, dest) ==>
              var notices := FindStop(net.stops, source).notices + FindStop(net.stops, dest).notices;
              && out.Completed?
              && |out.lines| == |notices| + 1
              && out.lines[..|notices|] == notices
    // the verdict names a shortest route sequence exactly when one exists
    ensures Searches(net, source, dest) ==>
              var adj := AdjacencyList(net);
              var seeds := RoutesOrNone(net, FindStop(net.stops, source).stop);
              var goal := RoutesOrNone(net, FindStop(net.stops, dest).stop);
              && (!Reaches(adj, seeds, goal) ==> Last(out.lines) == NoPathLine(source, dest))
              && (Reaches(adj, seeds, goal) ==>
                    exists p :: ShortestWalkTo(adj, seeds, goal, p) && NoDup(p)
                                && Last(out.lines) == PathLine(source, dest, p))
    // a source route that already serves the destination is taken on its own
    ensures Searches(net, source, dest) ==>
              var seeds := RoutesOrNone(net, FindStop(net.stops, source).stop);
              var goal := RoutesOrNone(net, FindStop(net.stops, dest).stop);
              forall k :: FirstSeedIn(seeds, goal, k) ==> Last(out.lines) == PathLine(source, dest, [seeds[k]])
  {
    var fromLookup := FindStop(net.stops, source);
    if fromLookup.stop.None? {
      return Aborted(fromLookup.notices, SourceMissing(source));
    }
    var toLookup := FindStop(net.stops, dest);
    var notices := fromLookup.notices + toLookup.notices;
    if toLookup.stop.None? || toLookup.stop.value !in net.routesOf {
      return Aborted(notices, DestinationMissing(dest));
    }
    var goal := net.routesOf[toLookup.stop.value];
    var adj := AdjacencyList(net);
    var seeds := RoutesOf(net, fromLookup.stop.value).GetOr([]);
    var path := FindPath(adj, seeds, goal);
    var verdict;
    if path.Some? {
      verdict := PathLine(source, dest, path.value);
    } else {
      verdict := NoPathLine(source, dest);
    }
    out := Completed(notices + [verdict]);
    assert out.lines[..|notices|] == notices;
  }
}

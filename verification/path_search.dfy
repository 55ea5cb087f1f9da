/**
 * The breadth-first search over routes. Nodes are routes, an edge leads from a
 * route to each route of its adjacency list, and the queue holds whole paths.
 * The search starts from one single-route path per route of the source stop
 * and returns the first dequeued path whose last route is an acceptable
 * destination route.
 */
module PathSearch {
  import opened Wrappers
  import opened Sequences

  /** `adjacencyList[r]`, with a route that has no entry leading nowhere. */
  function Neighbours<R(==)>(adj: map<R, seq<R>>, r: R): seq<R> {
    if r in adj then adj[r] else []
  }

  /** A walk: starts at a seed route and every next route is adjacent to the one before. */
  ghost predicate IsWalk<R(!new)>(adj: map<R, seq<R>>, seeds: seq<R>, w: seq<R>) {
    && |w| > 0
    && w[0] in seeds
    && forall i, j :: 0 <= i && j == i + 1 && j < |w| ==> w[j] in Neighbours(adj, w[i])
  }

  /** Some walk ends at an acceptable destination route. */
  ghost predicate Reaches<R(!new)>(adj: map<R, seq<R>>, seeds: seq<R>, dest: seq<R>) {
    exists w :: IsWalk(adj, seeds, w) && Last(w) in dest
  }

  /** p is a walk to a destination route with no more routes than any other such walk. */
  ghost predicate ShortestWalkTo<R(!new)>(adj: map<R, seq<R>>, seeds: seq<R>, dest: seq<R>, p: seq<R>) {
    && IsWalk(adj, seeds, p)
    && Last(p) in dest
    && forall w :: IsWalk(adj, seeds, w) && Last(w) in dest ==> |p| <= |w|
  }

  /** seeds[k] is the first source route that is also a destination route. */
  ghost predicate FirstSeedIn<R(!new)>(seeds: seq<R>, dest: seq<R>, k: int) {
    0 <= k < |seeds| && seeds[k] in dest && forall i :: 0 <= i < k ==> seeds[i] !in dest
  }

  /** The paths the expansion of p appends to the queue: p extended by each unvisited neighbour, in order. */
  function Children<R(==)>(p: seq<R>, ns: seq<R>, visited: set<R>): seq<seq<R>> {
    if ns == [] then []
    else
      var y := ns[|ns| - 1];
      Children(p, ns[..|ns| - 1], visited) + (if y in visited then [] else [p + [y]])
  }

  lemma {:induction false} ChildrenFacts<R(!new)>(p: seq<R>, ns: seq<R>, visited: set<R>)
    ensures forall c :: c in Children(p, ns, visited) ==>
              |c| == |p| + 1 && c[..|p|] == p && c[|p|] in ns && c[|p|] !in visited && c == p + [c[|p|]]
    ensures forall y :: y in ns && y !in visited ==> p + [y] in Children(p, ns, visited)
    ensures NoDup(ns) ==> NoDup(Children(p, ns, visited))
  {
    if ns != [] {
      var init := ns[..|ns| - 1];
      var y := ns[|ns| - 1];
      ChildrenFacts(p, init, visited);
      assert ns == init + [y];
      assert forall x :: x in ns <==> x in init || x == y;
      if NoDup(ns) {
        assert NoDup(init);
        assert y !in init;
        var tail: seq<seq<R>> := if y in visited then [] else [p + [y]];
        forall c | c in Children(p, init, visited) ensures c !in tail {
          assert c[|p|] in init;
        }
        NoDupAppend(Children(p, init, visited), tail);
      }
    }
  }

  // ---- the universe of routes and the bound that gives termination ----

  /** Every route a walk can visit: the seeds and every route of an adjacency list. */
  ghost function Universe<R(!new)>(adj: map<R, seq<R>>, seeds: seq<R>): set<R> {
    (set s | s in seeds) + (set r, y | r in adj && y in adj[r] :: y)
  }

  /** All sequences over u of length at most n. */
  ghost function SeqsUpTo<T>(u: set<T>, n: nat): set<seq<T>> {
    if n == 0 then {[]}
    else SeqsUpTo(u, n - 1) + (set x, t | x in u && t in SeqsUpTo(u, n - 1) :: t + [x])
  }

  lemma {:induction false} InSeqsUpTo<T>(u: set<T>, n: nat, s: seq<T>)
    requires |s| <= n
    requires forall i :: 0 <= i < |s| ==> s[i] in u
    ensures s in SeqsUpTo(u, n)
  {
    if n > 0 {
      if |s| < n {
        InSeqsUpTo(u, n - 1, s);
      } else {
        var t := s[..|s| - 1];
        InSeqsUpTo(u, n - 1, t);
        assert s == t + [s[|s| - 1]];
      }
    }
  }

  lemma {:induction false} NoDupWithin<T>(u: set<T>, s: seq<T>)
    requires NoDup(s)
    requires forall i :: 0 <= i < |s| ==> s[i] in u
    ensures |s| <= |u|
  {
    if s != [] {
      var x := s[0];
      forall i | 0 <= i < |s[1..]| ensures s[1..][i] in u - {x} {
        assert s[1..][i] == s[i + 1];
      }
      assert NoDup(s[1..]) by {
        forall i, j | 0 <= i < j < |s[1..]| ensures s[1..][i] != s[1..][j] {
          assert s[1..][i] == s[i + 1] && s[1..][j] == s[j + 1];
        }
      }
      NoDupWithin(u - {x}, s[1..]);
    }
  }

  /** A finite set that holds every simple walk. */
  ghost function Bound<R(!new)>(adj: map<R, seq<R>>, seeds: seq<R>): set<seq<R>> {
    SeqsUpTo(Universe(adj, seeds), |Universe(adj, seeds)|)
  }

  lemma SimpleWalkInBound<R(!new)>(adj: map<R, seq<R>>, seeds: seq<R>, w: seq<R>)
    requires IsWalk(adj, seeds, w) && NoDup(w)
    ensures w in Bound(adj, seeds)
  {
    var u := Universe(adj, seeds);
    forall i | 0 <= i < |w| ensures w[i] in u {
      if i > 0 {
        assert w[i] in Neighbours(adj, w[i - 1]);
      }
    }
    NoDupWithin(u, w);
    InSeqsUpTo(u, |u|, w);
  }

  lemma ExtendWalk<R(!new)>(adj: map<R, seq<R>>, seeds: seq<R>, p: seq<R>, y: R)
    requires IsWalk(adj, seeds, p)
    requires y in Neighbours(adj, Last(p))
    ensures IsWalk(adj, seeds, p + [y])
  {
    var c := p + [y];
    forall i, j | 0 <= i && j == i + 1 && j < |c| ensures c[j] in Neighbours(adj, c[i]) {
      if j < |p| {
        assert c[i] == p[i] && c[j] == p[j];
      }
    }
  }

  // ---- the loop invariant ----

  /** q is in the queue or has been dequeued. */
  ghost predicate Seen<R(!new)>(queue: seq<seq<R>>, expanded: set<seq<R>>, q: seq<R>) {
    q in expanded || q in queue
  }

  /** Queued paths are simple walks whose routes, but possibly the last, are visited. */
  ghost predicate QueueWalks<R(!new)>(adj: map<R, seq<R>>, seeds: seq<R>, queue: seq<seq<R>>, visited: set<R>) {
    forall q :: q in queue ==>
      && IsWalk(adj, seeds, q)
      && NoDup(q)
      && forall i :: 0 <= i < |q| - 1 ==> q[i] in visited
  }

  /** Dequeued paths are simple walks whose last route is visited and not a destination. */
  ghost predicate ExpandedWalks<R(!new)>(adj: map<R, seq<R>>, seeds: seq<R>, dest: seq<R>, expanded: set<seq<R>>, visited: set<R>) {
    forall q :: q in expanded ==>
      && IsWalk(adj, seeds, q)
      && NoDup(q)
      && Last(q) in visited
      && Last(q) !in dest
  }

  /** The visited routes are the seeds and the last routes of dequeued paths. */
  ghost predicate VisitedRoutes<R(!new)>(seeds: seq<R>, expanded: set<seq<R>>, visited: set<R>) {
    && (forall s :: s in seeds ==> s in visited)
    && forall r :: r in visited ==> r in seeds || exists q :: q in expanded && |q| > 0 && Last(q) == r
  }

  /** No path is queued twice or after being dequeued, and a queued path's parent has been dequeued. */
  ghost predicate QueueFresh<R(!new)>(queue: seq<seq<R>>, expanded: set<seq<R>>) {
    && NoDup(queue)
    && (forall q :: q in queue ==> q !in expanded)
    && forall q :: q in queue && |q| >= 2 ==> q[..|q| - 1] in expanded
  }

  /** Queued lengths never decrease and span at most two values; dequeued paths are no longer. */
  ghost predicate Levels<R(!new)>(queue: seq<seq<R>>, expanded: set<seq<R>>) {
    && (forall i, j :: 0 <= i <= j < |queue| ==> |queue[i]| <= |queue[j]| <= |queue[i]| + 1)
    && forall q, j :: q in expanded && 0 <= j < |queue| ==> |q| <= |queue[j]|
  }

  /** Every neighbour of a dequeued path's last route is reached by a path at most one longer. */
  ghost predicate Covered<R(!new)>(adj: map<R, seq<R>>, queue: seq<seq<R>>, expanded: set<seq<R>>) {
    forall q, y :: q in expanded && |q| > 0 && y in Neighbours(adj, Last(q)) ==>
      exists q' :: Seen(queue, expanded, q') && |q'| > 0 && Last(q') == y && |q'| <= |q| + 1
  }

  /** After k dequeues the seed paths not yet dequeued lead the queue, in the seeds' order. */
  ghost predicate SeedsFirst<R(!new)>(seeds: seq<R>, queue: seq<seq<R>>, expanded: set<seq<R>>, k: nat) {
    && (forall i :: 0 <= i < |seeds| && i < k ==> [seeds[i]] in expanded)
    && (k <= |seeds| ==> |seeds| - k <= |queue| && forall i :: k <= i < |seeds| ==> queue[i - k] == [seeds[i]])
  }

  ghost predicate BfsInv<R(!new)>(adj: map<R, seq<R>>, seeds: seq<R>, dest: seq<R>,
                            queue: seq<seq<R>>, expanded: set<seq<R>>, visited: set<R>, k: nat) {
    && QueueWalks(adj, seeds, queue, visited)
    && ExpandedWalks(adj, seeds, dest, expanded, visited)
    && VisitedRoutes(seeds, expanded, visited)
    && QueueFresh(queue, expanded)
    && Levels(queue, expanded)
    && Covered(adj, queue, expanded)
    && SeedsFirst(seeds, queue, expanded, k)
  }

  function SeedPaths<R>(seeds: seq<R>): (q: seq<seq<R>>)
    ensures |q| == |seeds| && forall i :: 0 <= i < |seeds| ==> q[i] == [seeds[i]]
  {
    seq(|seeds|, i requires 0 <= i < |seeds| => [seeds[i]])
  }

  lemma InitInv<R(!new)>(adj: map<R, seq<R>>, seeds: seq<R>, dest: seq<R>)
    requires NoDup(seeds)
    ensures BfsInv(adj, seeds, dest, SeedPaths(seeds), {}, set s | s in seeds, 0)
  {
    var queue := SeedPaths(seeds);
    forall q | q in queue ensures IsWalk(adj, seeds, q) && NoDup(q) {
      var i :| 0 <= i < |queue| && queue[i] == q;
    }
    assert NoDup(queue) by {
      forall i, j | 0 <= i < j < |queue| ensures queue[i] != queue[j] {
        assert queue[i][0] == seeds[i] && queue[j][0] == seeds[j];
      }
    }
  }

  /** Every walk is either matched by a dequeued path or passes through the last route of a queued one. */
  lemma {:induction false} WalkCovered<R(!new)>(adj: map<R, seq<R>>, seeds: seq<R>, queue: seq<seq<R>>,
                                          expanded: set<seq<R>>, k: nat, w: seq<R>)
      returns (inQueue: bool, q: seq<R>, i: nat)
    requires Covered(adj, queue, expanded)
    requires SeedsFirst(seeds, queue, expanded, k)
    requires IsWalk(adj, seeds, w)
    ensures |q| > 0
    ensures !inQueue ==> q in expanded && Last(q) == Last(w) && |q| <= |w|
    ensures inQueue ==> q in queue && i < |w| && Last(q) == w[i] && |q| <= i + 1
  {
    if |w| == 1 {
      var s :| 0 <= s < |seeds| && seeds[s] == w[0];
      q, i := [seeds[s]], 0;
      inQueue := q !in expanded;
      if inQueue {
        assert queue[s - k] == q;
      }
    } else {
      var init := w[..|w| - 1];
      assert IsWalk(adj, seeds, init) by {
        forall a, b | 0 <= a && b == a + 1 && b < |init| ensures init[b] in Neighbours(adj, init[a]) {
          assert init[a] == w[a] && init[b] == w[b];
        }
      }
      inQueue, q, i := WalkCovered(adj, seeds, queue, expanded, k, init);
      if !inQueue {
        var y := Last(w);
        assert y in Neighbours(adj, w[|w| - 2]);
        var q' :| Seen(queue, expanded, q') && |q'| > 0 && Last(q') == y && |q'| <= |q| + 1;
        q, i := q', |w| - 1;
        inQueue := q !in expanded;
      }
    }
  }

  // ---- one expansion step preserves the invariant ----

  lemma StepQueueWalks<R(!new)>(adj: map<R, seq<R>>, seeds: seq<R>, queue: seq<seq<R>>, visited: set<R>, p: seq<R>)
    requires QueueWalks(adj, seeds, queue, visited)
    requires queue != [] && p == queue[0]
    ensures var v' := visited + {Last(p)};
      QueueWalks(adj, seeds, queue[1..] + Children(p, Neighbours(adj, Last(p)), v'), v')
  {
    var v' := visited + {Last(p)};
    var ns := Neighbours(adj, Last(p));
    var cs := Children(p, ns, v');
    ChildrenFacts(p, ns, v');
    forall c | c in cs ensures IsWalk(adj, seeds, c) && NoDup(c) && forall i :: 0 <= i < |c| - 1 ==> c[i] in v' {
      var y := c[|p|];
      ExtendWalk(adj, seeds, p, y);
      forall i | 0 <= i < |p| ensures p[i] in v' {
        if i < |p| - 1 {
          assert p[i] in visited;
        }
      }
      assert y !in p;
      assert NoDup(c) by {
        forall a, b | 0 <= a < b < |c| ensures c[a] != c[b] {
          if b < |p| {
            assert c[a] == p[a] && c[b] == p[b];
          } else {
            assert c[a] == p[a] && c[b] == y;
          }
        }
      }
    }
    forall q | q in queue[1..] ensures IsWalk(adj, seeds, q) && NoDup(q) && forall i :: 0 <= i < |q| - 1 ==> q[i] in v' {
      assert q in queue;
    }
  }

  lemma StepExpanded<R(!new)>(adj: map<R, seq<R>>, seeds: seq<R>, dest: seq<R>, queue: seq<seq<R>>,
                        expanded: set<seq<R>>, visited: set<R>, p: seq<R>)
    requires QueueWalks(adj, seeds, queue, visited)
    requires ExpandedWalks(adj, seeds, dest, expanded, visited)
    requires VisitedRoutes(seeds, expanded, visited)
    requires queue != [] && p == queue[0] && Last(p) !in dest
    ensures ExpandedWalks(adj, seeds, dest, expanded + {p}, visited + {Last(p)})
    ensures VisitedRoutes(seeds, expanded + {p}, visited + {Last(p)})
  {
  }

  lemma StepFresh<R(!new)>(adj: map<R, seq<R>>, seeds: seq<R>, dest: seq<R>, queue: seq<seq<R>>,
                     expanded: set<seq<R>>, visited: set<R>, p: seq<R>)
    requires ExpandedWalks(adj, seeds, dest, expanded, visited)
    requires QueueFresh(queue, expanded)
    requires forall r :: r in adj ==> NoDup(adj[r])
    requires queue != [] && p == queue[0] && |p| > 0
    ensures var v' := visited + {Last(p)};
      QueueFresh(queue[1..] + Children(p, Neighbours(adj, Last(p)), v'), expanded + {p})
  {
    var v' := visited + {Last(p)};
    var ns := Neighbours(adj, Last(p));
    var cs := Children(p, ns, v');
    var rest := queue[1..];
    ChildrenFacts(p, ns, v');
    assert queue == [p] + rest;
    assert NoDup(rest) by {
      forall a, b | 0 <= a < b < |rest| ensures rest[a] != rest[b] {
        assert rest[a] == queue[a + 1] && rest[b] == queue[b + 1];
      }
    }
    assert p !in rest by {
      forall a | 0 <= a < |rest| ensures rest[a] != p {
        assert rest[a] == queue[a + 1];
      }
    }
    assert p !in expanded;
    forall c | c in rest ensures c !in cs {
      assert c in queue;
    }
    NoDupAppend(rest, cs);
    forall c | c in cs ensures c !in expanded + {p} {
      assert Last(c) == c[|p|];
    }
  }

  lemma StepLevels<R(!new)>(adj: map<R, seq<R>>, queue: seq<seq<R>>, expanded: set<seq<R>>, visited: set<R>, p: seq<R>)
    requires Levels(queue, expanded)
    requires queue != [] && p == queue[0] && |p| > 0
    ensures var v' := visited + {Last(p)};
      Levels(queue[1..] + Children(p, Neighbours(adj, Last(p)), v'), expanded + {p})
  {
    var v' := visited + {Last(p)};
    var cs := Children(p, Neighbours(adj, Last(p)), v');
    var rest := queue[1..];
    var q' := rest + cs;
    ChildrenFacts(p, Neighbours(adj, Last(p)), v');
    forall j | 0 <= j < |q'| ensures |p| <= |q'[j]| <= |p| + 1 {
      if j < |rest| {
        assert q'[j] == queue[j + 1];
      } else {
        assert q'[j] in cs;
      }
    }
    forall i, j | 0 <= i <= j < |q'| ensures |q'[i]| <= |q'[j]| <= |q'[i]| + 1 {
      if j < |rest| {
        assert q'[i] == queue[i + 1] && q'[j] == queue[j + 1];
      } else if i >= |rest| {
        assert q'[i] in cs && q'[j] in cs;
      } else {
        assert q'[j] in cs;
      }
    }
  }

  lemma SeenGrows<R(!new)>(queue: seq<seq<R>>, expanded: set<seq<R>>, p: seq<R>, cs: seq<seq<R>>)
    requires queue != [] && p == queue[0]
    ensures forall x :: Seen(queue, expanded, x) ==> Seen(queue[1..] + cs, expanded + {p}, x)
  {
    assert queue == [p] + queue[1..];
    forall x | Seen(queue, expanded, x) ensures Seen(queue[1..] + cs, expanded + {p}, x) {
      if x in queue && x != p {
        assert x in queue[1..];
      }
    }
  }

  /** A neighbour of the route just dequeued is reached by a path at most one route longer. */
  lemma CoverNeighbour<R(!new)>(adj: map<R, seq<R>>, seeds: seq<R>, queue: seq<seq<R>>,
                                expanded: set<seq<R>>, visited: set<R>, k: nat, p: seq<R>, y: R)
      returns (w: seq<R>)
    requires VisitedRoutes(seeds, expanded, visited)
    requires Levels(queue, expanded)
    requires SeedsFirst(seeds, queue, expanded, k)
    requires queue != [] && p == queue[0] && |p| > 0
    requires y in Neighbours(adj, Last(p))
    ensures var v' := visited + {Last(p)};
      Seen(queue[1..] + Children(p, Neighbours(adj, Last(p)), v'), expanded + {p}, w)
    ensures |w| > 0 && Last(w) == y && |w| <= |p| + 1
  {
    var v' := visited + {Last(p)};
    var cs := Children(p, Neighbours(adj, Last(p)), v');
    SeenGrows(queue, expanded, p, cs);
    if y !in v' {
      ChildrenFacts(p, Neighbours(adj, Last(p)), v');
      w := p + [y];
    } else if y == Last(p) {
      w := p;
    } else if y in seeds {
      var s :| 0 <= s < |seeds| && seeds[s] == y;
      if s >= k {
        assert queue[s - k] == [y];
      }
      w := [y];
      assert Seen(queue, expanded, w);
    } else {
      var r :| r in expanded && |r| > 0 && Last(r) == y;
      assert |r| <= |queue[0]|;
      w := r;
    }
  }

  lemma StepCovered<R(!new)>(adj: map<R, seq<R>>, seeds: seq<R>, dest: seq<R>, queue: seq<seq<R>>,
                       expanded: set<seq<R>>, visited: set<R>, k: nat, p: seq<R>)
    requires BfsInv(adj, seeds, dest, queue, expanded, visited, k)
    requires queue != [] && p == queue[0] && |p| > 0
    ensures var v' := visited + {Last(p)};
      Covered(adj, queue[1..] + Children(p, Neighbours(adj, Last(p)), v'), expanded + {p})
  {
    var v' := visited + {Last(p)};
    var q' := queue[1..] + Children(p, Neighbours(adj, Last(p)), v');
    var e' := expanded + {p};
    SeenGrows(queue, expanded, p, Children(p, Neighbours(adj, Last(p)), v'));
    forall q, y | q in e' && |q| > 0 && y in Neighbours(adj, Last(q))
      ensures exists w :: Seen(q', e', w) && |w| > 0 && Last(w) == y && |w| <= |q| + 1
    {
      if q == p {
        var w := CoverNeighbour(adj, seeds, queue, expanded, visited, k, p, y);
      } else {
        var w :| Seen(queue, expanded, w) && |w| > 0 && Last(w) == y && |w| <= |q| + 1;
        assert Seen(q', e', w);
      }
    }
  }

  lemma StepSeeds<R(!new)>(seeds: seq<R>, queue: seq<seq<R>>, expanded: set<seq<R>>, k: nat, p: seq<R>, cs: seq<seq<R>>)
    requires SeedsFirst(seeds, queue, expanded, k)
    requires queue != [] && p == queue[0]
    ensures SeedsFirst(seeds, queue[1..] + cs, expanded + {p}, k + 1)
  {
    var q' := queue[1..] + cs;
    forall i | 0 <= i < |seeds| && i < k + 1 ensures [seeds[i]] in expanded + {p} {
      if i == k {
        assert queue[i - k] == [seeds[i]];
      }
    }
    if k + 1 <= |seeds| {
      forall i | k + 1 <= i < |seeds| ensures q'[i - (k + 1)] == [seeds[i]] {
        assert q'[i - (k + 1)] == queue[i - k];
      }
    }
  }

  lemma Step<R(!new)>(adj: map<R, seq<R>>, seeds: seq<R>, dest: seq<R>, queue: seq<seq<R>>,
                expanded: set<seq<R>>, visited: set<R>, k: nat, p: seq<R>)
    requires BfsInv(adj, seeds, dest, queue, expanded, visited, k)
    requires forall r :: r in adj ==> NoDup(adj[r])
    requires queue != [] && p == queue[0] && Last(p) !in dest
    ensures var v' := visited + {Last(p)};
      BfsInv(adj, seeds, dest, queue[1..] + Children(p, Neighbours(adj, Last(p)), v'), expanded + {p}, v', k + 1)
    ensures p !in expanded && p in Bound(adj, seeds)
  {
    var v' := visited + {Last(p)};
    StepQueueWalks(adj, seeds, queue, visited, p);
    StepExpanded(adj, seeds, dest, queue, expanded, visited, p);
    StepFresh(adj, seeds, dest, queue, expanded, visited, p);
    StepLevels(adj, queue, expanded, visited, p);
    StepCovered(adj, seeds, dest, queue, expanded, visited, k, p);
    StepSeeds(seeds, queue, expanded, k, p, Children(p, Neighbours(adj, Last(p)), v'));
    SimpleWalkInBound(adj, seeds, p);
  }

  // ---- what the invariant gives when the loop stops ----

  lemma FoundShortest<R(!new)>(adj: map<R, seq<R>>, seeds: seq<R>, dest: seq<R>, queue: seq<seq<R>>,
                         expanded: set<seq<R>>, visited: set<R>, k: nat)
    requires BfsInv(adj, seeds, dest, queue, expanded, visited, k)
    requires queue != [] && Last(queue[0]) in dest
    ensures ShortestWalkTo(adj, seeds, dest, queue[0]) && NoDup(queue[0])
    ensures forall s :: FirstSeedIn(seeds, dest, s) ==> queue[0] == [seeds[s]]
  {
    var p := queue[0];
    forall w | IsWalk(adj, seeds, w) && Last(w) in dest ensures |p| <= |w| {
      var inQueue, q, i := WalkCovered(adj, seeds, queue, expanded, k, w);
      if inQueue {
        var j :| 0 <= j < |queue| && queue[j] == q;
      }
    }
    assert forall i :: 0 <= i < |seeds| && i < k ==> seeds[i] !in dest by {
      forall i | 0 <= i < |seeds| && i < k ensures seeds[i] !in dest {
        assert [seeds[i]] in expanded;
        assert Last([seeds[i]]) == seeds[i];
      }
    }
    assert k < |seeds| ==> p == [seeds[k]];
  }

  /** The outcome when the search returns the head of the queue. */
  lemma FoundResult<R(!new)>(adj: map<R, seq<R>>, seeds: seq<R>, dest: seq<R>, queue: seq<seq<R>>,
                             expanded: set<seq<R>>, visited: set<R>, k: nat, path: Option<seq<R>>)
    requires BfsInv(adj, seeds, dest, queue, expanded, visited, k)
    requires queue != [] && Last(queue[0]) in dest && path == Some(queue[0])
    ensures path.Some? ==> ShortestWalkTo(adj, seeds, dest, path.value) && NoDup(path.value)
    ensures path.None? <==> !Reaches(adj, seeds, dest)
    ensures forall s :: FirstSeedIn(seeds, dest, s) ==> path == Some([seeds[s]])
  {
    FoundShortest(adj, seeds, dest, queue, expanded, visited, k);
  }

  /** The outcome when the queue runs empty. */
  lemma NotFoundResult<R(!new)>(adj: map<R, seq<R>>, seeds: seq<R>, dest: seq<R>,
                                expanded: set<seq<R>>, visited: set<R>, k: nat)
    requires BfsInv(adj, seeds, dest, [], expanded, visited, k)
    ensures !Reaches(adj, seeds, dest)
    ensures forall s :: !FirstSeedIn(seeds, dest, s)
  {
    ExhaustedUnreachable(adj, seeds, dest, expanded, visited, k);
    forall s | FirstSeedIn(seeds, dest, s) ensures false {
      assert IsWalk(adj, seeds, [seeds[s]]);
    }
  }

  lemma ExhaustedUnreachable<R(!new)>(adj: map<R, seq<R>>, seeds: seq<R>, dest: seq<R>,
                                expanded: set<seq<R>>, visited: set<R>, k: nat)
    requires BfsInv(adj, seeds, dest, [], expanded, visited, k)
    ensures !Reaches(adj, seeds, dest)
  {
    forall w | IsWalk(adj, seeds, w) ensures Last(w) !in dest {
      var inQueue, q, i := WalkCovered(adj, seeds, [], expanded, k, w);
    }
  }

  /**
   * `adjacencyList[last]?.forEach { if (it !in visited) queue.add(path + it) }`:
   * the expansion of `path` appended to `queue`.
   */
  method EnqueueUnvisited<R(==)>(queue: seq<seq<R>>, path: seq<R>, ns: seq<R>, visited: set<R>)
      returns (queue': seq<seq<R>>)
    ensures queue' == queue + Children(path, ns, visited)
  {
    queue' := queue;
    for j := 0 to |ns|
      invariant queue' == queue + Children(path, ns[..j], visited)
    {
      assert ns[..j + 1][..j] == ns[..j];
      if ns[j] !in visited {
        queue' := queue' + [path + [ns[j]]];
      }
    }
    assert ns[..|ns|] == ns;
  }

  /**
   * The search of `run`. `seeds` are the routes of the source stop (none when
   * that set is null), `dest` those of the destination stop.
   */
  method FindPath<R(==,!new)>(adj: map<R, seq<R>>, seeds: seq<R>, dest: seq<R>) returns (path: Option<seq<R>>)
    requires NoDup(seeds)
    requires forall r :: r in adj ==> NoDup(adj[r])
    ensures path.Some? ==> ShortestWalkTo(adj, seeds, dest, path.value) && NoDup(path.value)
    ensures path.None? <==> !Reaches(adj, seeds, dest)
    ensures forall k :: FirstSeedIn(seeds, dest, k) ==> path == Some([seeds[k]])
  {
    var queue := SeedPaths(seeds);
    var visited := set s | s in seeds;
    ghost var expanded: set<seq<R>> := {};
    ghost var dequeued: nat := 0;
    ghost var bound := Bound(adj, seeds);
    InitInv(adj, seeds, dest);
    while queue != []
      invariant BfsInv(adj, seeds, dest, queue, expanded, visited, dequeued)
      invariant expanded <= bound
      decreases bound - expanded
    {
      ghost var before := queue;
      var current := queue[0];
      queue := queue[1..];
      var last := current[|current| - 1];
      if last in dest {
        path := Some(current);
        FoundResult(adj, seeds, dest, before, expanded, visited, dequeued, path);
        return;
      }
      ghost var oldVisited := visited;
      visited := visited + {last};
      queue := EnqueueUnvisited(queue, current, Neighbours(adj, last), visited);
      Step(adj, seeds, dest, before, expanded, oldVisited, dequeued, current);
      expanded := expanded + {current};
      dequeued := dequeued + 1;
    }
    path := None;
    NotFoundResult(adj, seeds, dest, expanded, visited, dequeued);
  }
}

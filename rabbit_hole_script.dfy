/** The rabbit-hole and rabbit-island analysis (rabbit_hole_script.py): an adjacency
    map built from the similarity pairs, a breadth-first search that keeps the first
    strictly deepest path, the longest-path heuristic over every seed, and connected
    components by repeated breadth-first search over a shared visited set.

    Python iterates sets and dictionaries in an order the model does not fix: every
    loop over one picks its next element with `:|`, so each contract holds whatever
    the order. */
module RabbitHole {
  import opened Models
  import opened Graph
  import opened PathOrder

  /** A queue entry of the deepest-path search: the path is a simple path from
      `start` that ends at the entry's vertex, and every name on it before the last
      was already visited when the entry was queued. */
  ghost predicate PendingPath(adj: Adjacency, start: string, visited: set<string>, e: (string, seq<string>)) {
    SimplePathFrom(adj, start, e.1) && e.1[|e.1| - 1] == e.0 &&
    forall j :: 0 <= j < |e.1| - 1 ==> e.1[j] in visited
  }

  /** The names the queue entries are for. */
  ghost function Queued(queue: seq<(string, seq<string>)>): set<string> {
    set i | 0 <= i < |queue| :: queue[i].0
  }

  lemma QueuedAppend(queue: seq<(string, seq<string>)>, e: (string, seq<string>))
    ensures Queued(queue + [e]) == Queued(queue) + {e.0}
  {
    var q := queue + [e];
    assert q[|queue|] == e;
    forall n | n in Queued(q) ensures n in Queued(queue) + {e.0} {
      var i :| 0 <= i < |q| && q[i].0 == n;
      if i < |queue| { assert queue[i] == q[i]; }
    }
    forall n | n in Queued(queue) ensures n in Queued(q) {
      var i :| 0 <= i < |queue| && queue[i].0 == n;
      assert q[i] == queue[i];
    }
  }

  lemma QueuedSplit(queue: seq<(string, seq<string>)>)
    requires queue != []
    ensures Queued(queue) == {queue[0].0} + Queued(queue[1..])
  {
    forall n | n in Queued(queue) ensures n in {queue[0].0} + Queued(queue[1..]) {
      var i :| 0 <= i < |queue| && queue[i].0 == n;
      if i > 0 { assert queue[1..][i - 1] == queue[i]; }
    }
    forall n | n in Queued(queue[1..]) ensures n in Queued(queue) {
      var i :| 0 <= i < |queue[1..]| && queue[1..][i].0 == n;
      assert queue[i + 1] == queue[1..][i];
    }
  }

  /** The inner loop of `bfs_deepest_path`: queues `path + [n]` for every neighbour
      `n` not yet visited, once each, in some order. */
  method EnqueuePaths(queue: seq<(string, seq<string>)>, path: seq<string>, neighbours: set<string>, visited: set<string>)
    returns (q: seq<(string, seq<string>)>)
    ensures PathsEnqueued(queue, q, path, neighbours, visited)
  {
    q := queue;
    var rest := neighbours;
    PathsQueuedStart(queue, path, neighbours, visited);
    while rest != {}
      invariant PathsQueued(queue, q, path, neighbours, visited, rest)
      decreases rest
    {
      var neighbour :| neighbour in rest;
      if neighbour !in visited {
        PathsQueuedAppend(queue, q, path, neighbours, visited, rest, neighbour);
        q := q + [(neighbour, path + [neighbour])];
      } else {
        PathsQueuedSkip(queue, q, path, neighbours, visited, rest, neighbour);
      }
      rest := rest - {neighbour};
    }
    assert neighbours - {} - visited == neighbours - visited;
  }

  /** `q` is `queue` followed by one entry `(n, path + [n])` for each neighbour `n` not
      in `visited`, each once, in some order. */
  ghost predicate PathsEnqueued(queue: seq<(string, seq<string>)>, q: seq<(string, seq<string>)>, path: seq<string>,
                                neighbours: set<string>, visited: set<string>) {
    && |q| >= |queue| && q[..|queue|] == queue
    && (forall i :: |queue| <= i < |q| ==>
          q[i].0 in neighbours && q[i].0 !in visited && q[i].1 == path + [q[i].0])
    && Queued(q) == Queued(queue) + (neighbours - visited)
    && (forall i, j :: |queue| <= i < j < |q| ==> q[i].0 != q[j].0)
    && |q| == |queue| + |neighbours - visited|
  }

  /** The invariant of EnqueuePaths with the neighbours in `rest` still to be taken:
      the queue is kept, and one entry has been appended for each unvisited neighbour
      taken so far. */
  ghost predicate PathsQueued(queue: seq<(string, seq<string>)>, q: seq<(string, seq<string>)>, path: seq<string>,
                              neighbours: set<string>, visited: set<string>, rest: set<string>) {
    && rest <= neighbours
    && |q| >= |queue| && q[..|queue|] == queue
    && (forall i :: |queue| <= i < |q| ==>
          q[i].0 in neighbours && q[i].0 !in visited && q[i].0 !in rest && q[i].1 == path + [q[i].0])
    && Queued(q) == Queued(queue) + (neighbours - rest - visited)
    && (forall i, j :: |queue| <= i < j < |q| ==> q[i].0 != q[j].0)
    && |q| == |queue| + |neighbours - rest - visited|
  }

  /** Before any neighbour is taken, the queue is unchanged. */
  lemma PathsQueuedStart(queue: seq<(string, seq<string>)>, path: seq<string>, neighbours: set<string>, visited: set<string>)
    ensures PathsQueued(queue, queue, path, neighbours, visited, neighbours)
  {
    assert neighbours - neighbours - visited == {};
  }

  /** Taking a visited neighbour queues nothing. */
  lemma PathsQueuedSkip(queue: seq<(string, seq<string>)>, q: seq<(string, seq<string>)>, path: seq<string>,
                        neighbours: set<string>, visited: set<string>, rest: set<string>, n: string)
    requires PathsQueued(queue, q, path, neighbours, visited, rest)
    requires n in rest && n in visited
    ensures PathsQueued(queue, q, path, neighbours, visited, rest - {n})
  {
    assert neighbours - (rest - {n}) - visited == neighbours - rest - visited;
  }

  /** Taking an unvisited neighbour queues it once, with the path extended by it. */
  lemma PathsQueuedAppend(queue: seq<(string, seq<string>)>, q: seq<(string, seq<string>)>, path: seq<string>,
                          neighbours: set<string>, visited: set<string>, rest: set<string>, n: string)
    requires PathsQueued(queue, q, path, neighbours, visited, rest)
    requires n in rest && n !in visited
    ensures PathsQueued(queue, q + [(n, path + [n])], path, neighbours, visited, rest - {n})
  {
    var taken := neighbours - rest - visited;
    var next := q + [(n, path + [n])];
    assert neighbours - (rest - {n}) - visited == taken + {n} && n !in taken;
    QueuedAppend(q, (n, path + [n]));
    assert next[..|queue|] == q[..|queue|];
    AppendedEntries(queue, q, path, neighbours, visited, rest, n);
  }

  /** The pointwise part of PathsQueuedAppend: after appending `(n, path + [n])`, the
      appended entries are still distinct unvisited neighbours, none left to take. */
  lemma AppendedEntries(queue: seq<(string, seq<string>)>, q: seq<(string, seq<string>)>, path: seq<string>,
                        neighbours: set<string>, visited: set<string>, rest: set<string>, n: string)
    requires |q| >= |queue|
    requires forall i :: |queue| <= i < |q| ==>
               q[i].0 in neighbours && q[i].0 !in visited && q[i].0 !in rest && q[i].1 == path + [q[i].0]
    requires forall i, j :: |queue| <= i < j < |q| ==> q[i].0 != q[j].0
    requires n in rest && n in neighbours && n !in visited
    ensures var next := q + [(n, path + [n])];
            && (forall i :: |queue| <= i < |next| ==>
                  next[i].0 in neighbours && next[i].0 !in visited && next[i].0 !in rest - {n} &&
                  next[i].1 == path + [next[i].0])
            && (forall i, j :: |queue| <= i < j < |next| ==> next[i].0 != next[j].0)
  {
    var next := q + [(n, path + [n])];
    forall i | |queue| <= i < |next|
      ensures next[i].0 in neighbours && next[i].0 !in visited && next[i].0 !in rest - {n} &&
              next[i].1 == path + [next[i].0]
    {
      if i < |q| { assert next[i] == q[i]; }
    }
    forall i, j | |queue| <= i < j < |next| ensures next[i].0 != next[j].0 {
      assert next[i] == q[i];
      if j < |q| { assert next[j] == q[j]; }
    }
  }

  /** The inner loop of `bfs_connected_component`: queues every neighbour not yet
      visited, once each, in some order. */
  method EnqueueNodes(queue: seq<string>, neighbours: set<string>, visited: set<string>) returns (q: seq<string>)
    ensures |q| >= |queue| && q[..|queue|] == queue
    ensures forall i :: |queue| <= i < |q| ==> q[i] in neighbours && q[i] !in visited
    ensures forall n :: n in neighbours && n !in visited ==> n in q[|queue|..]
    ensures forall i, j :: |queue| <= i < j < |q| ==> q[i] != q[j]
  {
    q := queue;
    var rest := neighbours;
    while rest != {}
      invariant rest <= neighbours
      invariant |q| >= |queue| && q[..|queue|] == queue
      invariant forall i :: |queue| <= i < |q| ==> q[i] in neighbours && q[i] !in visited && q[i] !in rest
      invariant forall n :: n in neighbours && n !in visited && n !in rest ==> n in q[|queue|..]
      invariant forall i, j :: |queue| <= i < j < |q| ==> q[i] != q[j]
      decreases rest
    {
      var neighbour :| neighbour in rest;
      rest := rest - {neighbour};
      if neighbour !in visited {
        ghost var added := q[|queue|..];
        q := q + [neighbour];
        assert q[|queue|..] == added + [neighbour];
      }
    }
  }

  /** Every neighbour of a visited name is visited or queued. */
  ghost predicate Frontier(adj: Adjacency, visited: set<string>, queue: seq<(string, seq<string>)>) {
    forall v, n :: v in visited && n in Neighbours(adj, v) ==> n in visited || n in Queued(queue)
  }

  lemma FrontierSkip(adj: Adjacency, visited: set<string>, queue: seq<(string, seq<string>)>)
    requires Frontier(adj, visited, queue) && queue != [] && queue[0].0 in visited
    ensures Frontier(adj, visited, queue[1..])
  {
    QueuedSplit(queue);
  }

  lemma FrontierVisit(adj: Adjacency, visited: set<string>, queue: seq<(string, seq<string>)>,
                      q: seq<(string, seq<string>)>)
    requires Frontier(adj, visited, queue) && queue != []
    requires Queued(q) == Queued(queue[1..]) + (Neighbours(adj, queue[0].0) - (visited + {queue[0].0}))
    ensures Frontier(adj, visited + {queue[0].0}, q)
  {
    QueuedSplit(queue);
  }

  class RabbitHoleScript {
    const db: InMemoryDatabase

    constructor (db: InMemoryDatabase)
      ensures this.db == db
    {
      this.db := db;
    }

    /** create_adjacency_list_optimized */
    method CreateAdjacencyList() returns (adj: Adjacency)
      ensures AdjacencyFor(adj, db.similarities)
    {
      adj := map[];
      var rest := db.similarities;
      ghost var done: set<(string, string)> := {};
      EmptyAdjacency();
      while rest != {}
        invariant rest <= db.similarities
        invariant done == db.similarities - rest
        invariant AdjacencyFor(adj, done)
        decreases rest
      {
        var pair :| pair in rest;
        var (cat1, cat2) := pair;
        AdjacencyForLink(adj, done, cat1, cat2);
        adj := Link(adj, cat1, cat2);
        adj := Link(adj, cat2, cat1);
        rest := rest - {pair};
        done := done + {pair};
      }
    }

    /** bfs_deepest_path: returns the first visited path that is strictly longer than
        every path visited before it, and its length in edges. `order` is the visit
        order, `pathTo` the path each vertex was visited by, `k` the index in `order`
        of the vertex whose path is returned. */
    method BfsDeepestPath(start: string, adj: Adjacency)
      returns (length: int, deepestPath: seq<string>,
               ghost order: seq<string>, ghost pathTo: map<string, seq<string>>, ghost k: nat)
      ensures SimplePathFrom(adj, start, deepestPath)
      ensures length == |deepestPath| - 1
      ensures |order| > 0 && order[0] == start
      ensures VisitLog(adj, start, pathTo.Keys, order, pathTo)
      ensures Deepest(order, pathTo, k, deepestPath) && k < |order|
      ensures forall v, n :: v in pathTo && n in Neighbours(adj, v) ==> n in pathTo
    {
      var queue: seq<(string, seq<string>)> := [(start, [start])];
      var visited: set<string> := {};
      deepestPath := [];
      order, pathTo, k := [], map[], 0;
      ghost var universe := {start} + Vertices(adj);
      SearchStart(adj, start, universe);
      while queue != []
        invariant Searching(adj, start, universe, visited, queue, order, pathTo, k, deepestPath)
        decreases universe - visited, |queue|
      {
        var (vertex, path) := queue[0];
        ghost var oldVisited, oldQueue, oldOrder, oldPathTo, oldK, oldDeepest :=
          visited, queue, order, pathTo, k, deepestPath;
        queue := queue[1..];
        if vertex !in visited {
          visited := visited + {vertex};
          order := order + [vertex];
          pathTo := pathTo[vertex := path];
          if |path| > |deepestPath| {
            deepestPath := path;
            k := |order| - 1;
          }
          queue := EnqueuePaths(queue, path, Neighbours(adj, vertex), visited);
          assert (vertex, path) == oldQueue[0] && visited == oldVisited + {vertex};
          assert k == (if |path| > |oldDeepest| then |oldOrder| else oldK);
          assert deepestPath == (if |path| > |oldDeepest| then path else oldDeepest);
          SearchVisit(adj, start, universe, oldVisited, oldQueue, oldOrder, oldPathTo, oldK, oldDeepest, queue);
        } else {
          SearchSkip(adj, start, universe, visited, oldQueue, order, pathTo, k, deepestPath);
        }
      }
      SearchDone(adj, start, universe, visited, order, pathTo, k, deepestPath);
      length := |deepestPath| - 1;
    }

    /** find_longest_rabbit_hole_optimized: runs the deepest-path search from every
        key, keeps the paths whose length ties the running maximum, and returns them
        normalised to sorted lists, each once. `seedPath` holds the path the search
        from each seed returned, `runs` that search's visit record, and `maxLength`
        the maximum. */
    method FindLongestRabbitHole(adj: Adjacency)
      returns (paths: seq<seq<string>>, ghost seedPath: map<string, seq<string>>,
               ghost runs: map<string, Run>, ghost maxLength: nat)
      ensures seedPath.Keys == adj.Keys
      ensures SeedPaths(adj, seedPath, runs)
      ensures LongestPaths(adj, seedPath, maxLength, paths)
      ensures forall i, j :: 0 <= i < j < |paths| ==> paths[i] != paths[j]
    {
      var longestPaths;
      maxLength, longestPaths, seedPath, runs := DeepestFromEachSeed(adj);
      var normalised := set p | p in longestPaths :: SortNames(p);
      paths := ListOf(normalised);
      NormalisedPaths(adj, seedPath, maxLength, longestPaths, normalised, paths);
    }

    /** The seed loop of find_longest_rabbit_hole_optimized: the deepest path from
        every key, keeping those that tie the running maximum. */
    method DeepestFromEachSeed(adj: Adjacency)
      returns (maxLen: nat, longestPaths: seq<seq<string>>, ghost seedPath: map<string, seq<string>>,
               ghost runs: map<string, Run>)
      ensures seedPath.Keys == adj.Keys
      ensures SeedPaths(adj, seedPath, runs)
      ensures Tally(seedPath, maxLen, longestPaths)
      ensures adj == map[] ==> maxLen == 0 && longestPaths == []
      ensures forall p :: p in longestPaths ==> |p| - 1 == maxLen
    {
      maxLen := 0;
      longestPaths := [];
      var rest := adj.Keys;
      seedPath, runs := map[], map[];
      while rest != {}
        invariant rest <= adj.Keys
        invariant seedPath.Keys == adj.Keys - rest
        invariant SeedPaths(adj, seedPath, runs)
        invariant Tally(seedPath, maxLen, longestPaths)
        decreases rest
      {
        var category :| category in rest;
        rest := rest - {category};
        var length, path;
        ghost var order, pathTo, k;
        length, path, order, pathTo, k := BfsDeepestPath(category, adj);
        ghost var before := seedPath;
        SeedPathsAdd(adj, seedPath, runs, category, Run(path, order, pathTo, k));
        seedPath, runs := seedPath[category := path], runs[category := Run(path, order, pathTo, k)];
        if length > maxLen {
          TallyLonger(before, maxLen, longestPaths, category, path);
          maxLen := length;
          longestPaths := [path];
        } else if length == maxLen {
          TallyTie(before, maxLen, longestPaths, category, path);
          longestPaths := longestPaths + [path];
        } else {
          TallyShorter(before, maxLen, longestPaths, category, path);
        }
      }
    }

    /** bfs_connected_component: visits everything reachable from `start` that is not
        yet in `visited`, and returns those names in visit order together with the
        grown visited set. */
    method BfsConnectedComponent(start: string, adj: Adjacency, visited: set<string>)
      returns (component: seq<string>, visitedOut: set<string>)
      ensures forall v :: v in visitedOut <==> v in visited || v in component
      ensures NoRepeats(component)
      ensures forall v :: v in component ==> v !in visited
      ensures start in visited ==> component == []
      ensures start !in visited ==> |component| > 0 && component[0] == start
      ensures forall v :: v in component ==> ReachesAvoiding(adj, start, v, visited)
      ensures forall u, n :: u in component && n in Neighbours(adj, u) ==> n in visitedOut
    {
      var queue := [start];
      component := [];
      visitedOut := visited;
      ghost var universe := visited + {start} + Vertices(adj);
      ExploreStart(adj, start, visited, universe);
      while queue != []
        invariant Exploring(adj, start, visited, universe, queue, component, visitedOut)
        decreases universe - visitedOut, |queue|
      {
        var node := queue[0];
        ghost var oldQueue, oldComponent, oldVisited := queue, component, visitedOut;
        queue := queue[1..];
        if node !in visitedOut {
          visitedOut := visitedOut + {node};
          component := component + [node];
          queue := EnqueueNodes(queue, Neighbours(adj, node), visitedOut);
          ExploreVisit(adj, start, visited, universe, oldQueue, oldComponent, oldVisited, queue);
        } else {
          ExploreSkip(adj, start, visited, universe, oldQueue, component, visitedOut);
        }
      }
      ExploreDone(adj, start, visited, universe, component, visitedOut);
    }

    /** find_rabbit_islands_optimized: one component per key not yet visited. The
        components partition the keys, and no neighbour of a component's member lies
        in a later component. */
    method FindRabbitIslands(adj: Adjacency) returns (islands: seq<seq<string>>)
      ensures adj.Keys <= Members(islands)
      ensures forall i, j, v :: 0 <= i < j < |islands| && v in islands[i] ==> v !in islands[j]
      ensures forall i :: 0 <= i < |islands| ==>
                |islands[i]| > 0 && islands[i][0] in adj && NoRepeats(islands[i])
      ensures forall i, v :: 0 <= i < |islands| && v in islands[i] ==> Reaches(adj, islands[i][0], v)
      ensures forall i, u, n :: 0 <= i < |islands| && u in islands[i] && n in Neighbours(adj, u) ==>
                n in Members(islands[..i + 1])
    {
      var visited: set<string> := {};
      islands := [];
      var rest := adj.Keys;
      while rest != {}
        invariant rest <= adj.Keys
        invariant forall v :: v in adj && v !in rest ==> v in visited
        invariant IslandsOf(adj, islands, visited)
        decreases rest
      {
        var category :| category in rest;
        rest := rest - {category};
        if category !in visited {
          var component, visitedNext := BfsConnectedComponent(category, adj, visited);
          IslandsExtend(adj, islands, visited, category, component, visitedNext);
          islands := islands + [component];
          visited := visitedNext;
        }
      }
      IslandsDone(adj, islands, visited);
    }
  }

  /** Every name in some island. */
  ghost function Members(islands: seq<seq<string>>): set<string> {
    set i, v | 0 <= i < |islands| && v in islands[i] :: v
  }

  lemma MembersAppend(islands: seq<seq<string>>, c: seq<string>)
    ensures Members(islands + [c]) == Members(islands) + set v | v in c
  {
    var all := islands + [c];
    forall v | v in Members(all) ensures v in Members(islands) || v in c {
      var i :| 0 <= i < |all| && v in all[i];
      if i < |islands| {
        assert v in islands[i];
      }
    }
    forall v | v in Members(islands) ensures v in Members(all) {
      var i :| 0 <= i < |islands| && v in islands[i];
      assert v in all[i];
    }
    forall v | v in c ensures v in Members(all) {
      assert v in all[|islands|];
    }
  }

  /** The islands found so far: `visited` is the set of their members; they are
      pairwise disjoint; each is non-empty, starts with a key, repeats no name and
      holds only names reachable from its first; and every neighbour of a member lies
      in that island or an earlier one. */
  ghost predicate IslandsOf(adj: Adjacency, islands: seq<seq<string>>, visited: set<string>) {
    && visited == Members(islands)
    && (forall i, j, v :: 0 <= i < j < |islands| && v in islands[i] ==> v !in islands[j])
    && (forall i :: 0 <= i < |islands| ==> |islands[i]| > 0 && islands[i][0] in adj && NoRepeats(islands[i]))
    && (forall i, v :: 0 <= i < |islands| && v in islands[i] ==> Reaches(adj, islands[i][0], v))
    && (forall i, u, n :: 0 <= i < |islands| && u in islands[i] && n in Neighbours(adj, u) ==>
          n in Members(islands[..i + 1]))
  }

  /** Once every key is visited, the islands cover the keys. */
  lemma IslandsDone(adj: Adjacency, islands: seq<seq<string>>, visited: set<string>)
    requires IslandsOf(adj, islands, visited)
    requires forall v :: v in adj ==> v in visited
    ensures adj.Keys <= Members(islands)
    ensures forall i, j, v :: 0 <= i < j < |islands| && v in islands[i] ==> v !in islands[j]
    ensures forall i :: 0 <= i < |islands| ==>
              |islands[i]| > 0 && islands[i][0] in adj && NoRepeats(islands[i])
    ensures forall i, v :: 0 <= i < |islands| && v in islands[i] ==> Reaches(adj, islands[i][0], v)
    ensures forall i, u, n :: 0 <= i < |islands| && u in islands[i] && n in Neighbours(adj, u) ==>
              n in Members(islands[..i + 1])
  {
  }

  /** Appending the component of a key not yet visited keeps the islands' invariant. */
  lemma IslandsExtend(adj: Adjacency, islands: seq<seq<string>>, visited: set<string>, c: string,
                      component: seq<string>, visitedNext: set<string>)
    requires IslandsOf(adj, islands, visited)
    requires c in adj && c !in visited
    requires forall v :: v in visitedNext <==> v in visited || v in component
    requires NoRepeats(component)
    requires forall v :: v in component ==> v !in visited
    requires |component| > 0 && component[0] == c
    requires forall v :: v in component ==> ReachesAvoiding(adj, c, v, visited)
    requires forall u, n :: u in component && n in Neighbours(adj, u) ==> n in visitedNext
    ensures IslandsOf(adj, islands + [component], visitedNext)
    ensures visited + {c} <= visitedNext
  {
    forall v | v in component ensures Reaches(adj, c, v) {
      AvoidingReaches(adj, c, v, visited);
    }
    assert component[0] in component;
    var all := islands + [component];
    MembersAppend(islands, component);
    assert visitedNext == Members(all);
    assert forall i :: 0 <= i < |islands| ==> all[i] == islands[i];
    assert all[|islands|] == component;
    ExtendDisjoint(islands, component);
    ExtendClosed(adj, islands, component, visitedNext);
  }

  lemma ExtendDisjoint(islands: seq<seq<string>>, component: seq<string>)
    requires forall i, j, v :: 0 <= i < j < |islands| && v in islands[i] ==> v !in islands[j]
    requires forall v :: v in component ==> v !in Members(islands)
    ensures var all := islands + [component];
            forall i, j, v :: 0 <= i < j < |all| && v in all[i] ==> v !in all[j]
  {
    var all := islands + [component];
    forall i, j, v | 0 <= i < j < |all| && v in all[i] ensures v !in all[j] {
      assert all[i] == islands[i];
      if j == |islands| {
        assert v in Members(islands);
      } else {
        assert all[j] == islands[j];
      }
    }
  }

  lemma ExtendClosed(adj: Adjacency, islands: seq<seq<string>>, component: seq<string>, visitedNext: set<string>)
    requires forall i, u, n :: 0 <= i < |islands| && u in islands[i] && n in Neighbours(adj, u) ==>
               n in Members(islands[..i + 1])
    requires visitedNext == Members(islands + [component])
    requires forall u, n :: u in component && n in Neighbours(adj, u) ==> n in visitedNext
    ensures var all := islands + [component];
            forall i, u, n :: 0 <= i < |all| && u in all[i] && n in Neighbours(adj, u) ==>
              n in Members(all[..i + 1])
  {
    var all := islands + [component];
    forall i, u, n | 0 <= i < |all| && u in all[i] && n in Neighbours(adj, u)
      ensures n in Members(all[..i + 1])
    {
      if i < |islands| {
        assert all[..i + 1] == islands[..i + 1];
        assert all[i] == islands[i];
      } else {
        assert all[..i + 1] == all;
      }
    }
  }

  /** The invariant of the deepest-path search. Before the first visit only the start
      entry is queued; afterwards `order` begins with `start`. */
  ghost predicate Searching(adj: Adjacency, start: string, universe: set<string>, visited: set<string>,
                            queue: seq<(string, seq<string>)>, order: seq<string>,
                            pathTo: map<string, seq<string>>, k: nat, deepest: seq<string>) {
    && universe == {start} + Vertices(adj)
    && QueueOk(adj, start, universe, visited, queue)
    && (visited == {} ==> queue == [(start, [start])] && deepest == [] && order == [])
    && VisitLog(adj, start, visited, order, pathTo)
    && (visited != {} ==> |order| > 0 && order[0] == start && k < |order|)
    && Deepest(order, pathTo, k, deepest)
    && Frontier(adj, visited, queue)
  }

  lemma SearchStart(adj: Adjacency, start: string, universe: set<string>)
    requires universe == {start} + Vertices(adj)
    ensures Searching(adj, start, universe, {}, [(start, [start])], [], map[], 0, [])
  {
  }

  /** With the queue empty, the search has visited a whole neighbourhood-closed set. */
  lemma SearchDone(adj: Adjacency, start: string, universe: set<string>, visited: set<string>,
                   order: seq<string>, pathTo: map<string, seq<string>>, k: nat, deepest: seq<string>)
    requires Searching(adj, start, universe, visited, [], order, pathTo, k, deepest)
    ensures SimplePathFrom(adj, start, deepest)
    ensures |order| > 0 && order[0] == start
    ensures VisitLog(adj, start, pathTo.Keys, order, pathTo)
    ensures Deepest(order, pathTo, k, deepest) && k < |order|
    ensures forall v, n :: v in pathTo && n in Neighbours(adj, v) ==> n in pathTo
  {
    assert Queued([]) == {};
  }

  /** Visiting the head of the queue keeps the search invariant. */
  lemma SearchVisit(adj: Adjacency, start: string, universe: set<string>, visited: set<string>,
                    queue: seq<(string, seq<string>)>, order: seq<string>,
                    pathTo: map<string, seq<string>>, k: nat, deepest: seq<string>,
                    q: seq<(string, seq<string>)>)
    requires Searching(adj, start, universe, visited, queue, order, pathTo, k, deepest)
    requires queue != [] && queue[0].0 !in visited
    requires PathsEnqueued(queue[1..], q, queue[0].1, Neighbours(adj, queue[0].0), visited + {queue[0].0})
    ensures universe - (visited + {queue[0].0}) < universe - visited
    ensures var (v, p) := queue[0];
            Searching(adj, start, universe, visited + {v}, q, order + [v], pathTo[v := p],
                      if |p| > |deepest| then |order| else k, if |p| > |deepest| then p else deepest)
  {
    var (v, p) := queue[0];
    assert |queue[1..]| == |queue| - 1;
    assert PendingPath(adj, start, visited, queue[0]);
    VisitKeepsLog(adj, start, visited, order, pathTo, v, p);
    if |p| > |deepest| {
      VisitDeeper(order, pathTo, k, deepest, v, p);
    } else {
      VisitNotDeeper(order, pathTo, k, deepest, v, p);
    }
    QueueAfterVisit(adj, start, universe, visited, queue, q);
    FrontierVisit(adj, visited, queue, q);
  }

  /** Dropping a head whose name was already visited keeps the search invariant. */
  lemma SearchSkip(adj: Adjacency, start: string, universe: set<string>, visited: set<string>,
                   queue: seq<(string, seq<string>)>, order: seq<string>,
                   pathTo: map<string, seq<string>>, k: nat, deepest: seq<string>)
    requires Searching(adj, start, universe, visited, queue, order, pathTo, k, deepest)
    requires queue != [] && queue[0].0 in visited
    ensures Searching(adj, start, universe, visited, queue[1..], order, pathTo, k, deepest)
  {
    QueueTail(adj, start, universe, visited, queue);
    FrontierSkip(adj, visited, queue);
  }

  /** The invariant of the component search started at `start` over the shared
      `visited` set: every queued name is reachable from `start`, the component is the
      names visited by this search in visit order, and every neighbour of a member is
      visited or queued. */
  ghost predicate Exploring(adj: Adjacency, start: string, visited: set<string>, universe: set<string>,
                            queue: seq<string>, component: seq<string>, visitedOut: set<string>) {
    && universe == visited + {start} + Vertices(adj)
    && visitedOut <= universe
    && (forall i :: 0 <= i < |queue| ==>
          queue[i] in universe && (queue[i] !in visited ==> ReachesAvoiding(adj, start, queue[i], visited)))
    && (forall v :: v in visitedOut <==> v in visited || v in component)
    && NoRepeats(component)
    && (forall v :: v in component ==> v !in visited)
    && (start in visited ==> component == [] && (queue == [] || queue == [start]))
    && (start !in visited && component == [] ==> queue == [start])
    && (start !in visited && component != [] ==> component[0] == start)
    && (forall v :: v in component ==> ReachesAvoiding(adj, start, v, visited))
    && (forall u, n :: u in component && n in Neighbours(adj, u) ==> n in visitedOut || n in queue)
  }

  lemma ExploreStart(adj: Adjacency, start: string, visited: set<string>, universe: set<string>)
    requires universe == visited + {start} + Vertices(adj)
    ensures Exploring(adj, start, visited, universe, [start], [], visited)
  {
    if start !in visited {
      ReachesAvoidingSelf(adj, start, visited);
    }
  }

  lemma ExploreSkip(adj: Adjacency, start: string, visited: set<string>, universe: set<string>,
                    queue: seq<string>, component: seq<string>, visitedOut: set<string>)
    requires Exploring(adj, start, visited, universe, queue, component, visitedOut)
    requires queue != [] && queue[0] in visitedOut
    ensures Exploring(adj, start, visited, universe, queue[1..], component, visitedOut)
  {
    forall u, n | u in component && n in Neighbours(adj, u) ensures n in visitedOut || n in queue[1..] {
      if n !in visitedOut {
        var i :| 0 <= i < |queue| && queue[i] == n;
        assert queue[1..][i - 1] == n;
      }
    }
  }

  lemma ExploreVisit(adj: Adjacency, start: string, visited: set<string>, universe: set<string>,
                     queue: seq<string>, component: seq<string>, visitedOut: set<string>, q: seq<string>)
    requires Exploring(adj, start, visited, universe, queue, component, visitedOut)
    requires queue != [] && queue[0] !in visitedOut
    requires |q| >= |queue| - 1 && q[..|queue| - 1] == queue[1..]
    requires forall i :: |queue| - 1 <= i < |q| ==>
               q[i] in Neighbours(adj, queue[0]) && q[i] !in visitedOut + {queue[0]}
    requires forall n :: n in Neighbours(adj, queue[0]) && n !in visitedOut + {queue[0]} ==> n in q[|queue| - 1..]
    ensures universe - (visitedOut + {queue[0]}) < universe - visitedOut
    ensures Exploring(adj, start, visited, universe, q, component + [queue[0]], visitedOut + {queue[0]})
  {
    var node := queue[0];
    var c, seen := component + [node], visitedOut + {node};
    assert node in universe && node !in visited && ReachesAvoiding(adj, start, node, visited);
    forall i | 0 <= i < |q|
      ensures q[i] in universe && (q[i] !in visited ==> ReachesAvoiding(adj, start, q[i], visited))
    {
      if i < |queue| - 1 {
        assert q[i] == queue[i + 1];
      } else {
        NeighbourIsVertex(adj, node, q[i]);
        ReachesAvoidingStep(adj, start, node, q[i], visited);
      }
    }
    forall u, n | u in c && n in Neighbours(adj, u) ensures n in seen || n in q {
      if n !in seen {
        if u == node {
          assert n in q[|queue| - 1..];
        } else {
          assert u in component;
          var i :| 0 <= i < |queue| && queue[i] == n;
          assert q[i - 1] == n;
        }
      }
    }
  }

  /** With the queue empty, the component search has everything its caller needs. */
  lemma ExploreDone(adj: Adjacency, start: string, visited: set<string>, universe: set<string>,
                    component: seq<string>, visitedOut: set<string>)
    requires Exploring(adj, start, visited, universe, [], component, visitedOut)
    ensures forall v :: v in visitedOut <==> v in visited || v in component
    ensures NoRepeats(component)
    ensures forall v :: v in component ==> v !in visited
    ensures start in visited ==> component == []
    ensures start !in visited ==> |component| > 0 && component[0] == start
    ensures forall v :: v in component ==> ReachesAvoiding(adj, start, v, visited)
    ensures forall u, n :: u in component && n in Neighbours(adj, u) ==> n in visitedOut
  {
  }

  /** Every queued entry names a vertex of the search and carries a pending path. */
  ghost predicate QueueOk(adj: Adjacency, start: string, universe: set<string>, visited: set<string>,
                          queue: seq<(string, seq<string>)>) {
    forall i :: 0 <= i < |queue| ==> queue[i].0 in universe && PendingPath(adj, start, visited, queue[i])
  }

  /** `order` lists the visited names once each, in visit order, and `pathTo` maps each
      to the simple path from `start` by which it was visited. */
  ghost predicate VisitLog(adj: Adjacency, start: string, visited: set<string>, order: seq<string>,
                           pathTo: map<string, seq<string>>) {
    && pathTo.Keys == visited
    && (forall v :: v in visited <==> v in order)
    && NoRepeats(order)
    && (forall v :: v in pathTo ==> SimplePathFrom(adj, start, pathTo[v]) && pathTo[v][|pathTo[v]| - 1] == v)
  }

  /** `deepest` is the path of `order[k]`, at least as long as every visited path and
      strictly longer than the paths visited before `order[k]`. */
  ghost predicate Deepest(order: seq<string>, pathTo: map<string, seq<string>>, k: nat, deepest: seq<string>) {
    && (order != [] ==> k < |order| && order[k] in pathTo && deepest == pathTo[order[k]])
    && (forall i :: 0 <= i < |order| ==> order[i] in pathTo && |pathTo[order[i]]| <= |deepest|)
    && (forall i :: 0 <= i < k && i < |order| ==> |pathTo[order[i]]| < |deepest|)
  }

  lemma VisitKeepsLog(adj: Adjacency, start: string, visited: set<string>, order: seq<string>,
                      pathTo: map<string, seq<string>>, vertex: string, path: seq<string>)
    requires VisitLog(adj, start, visited, order, pathTo)
    requires vertex !in visited
    requires SimplePathFrom(adj, start, path) && path[|path| - 1] == vertex
    ensures VisitLog(adj, start, visited + {vertex}, order + [vertex], pathTo[vertex := path])
  {
    var o := order + [vertex];
    forall i, j | 0 <= i < j < |o| ensures o[i] != o[j] {
      if j == |order| {
        assert o[i] == order[i] && order[i] in visited;
      }
    }
  }

  /** Visiting a path longer than the deepest so far makes it the deepest. */
  lemma VisitDeeper(order: seq<string>, pathTo: map<string, seq<string>>, k: nat, deepest: seq<string>,
                    vertex: string, path: seq<string>)
    requires Deepest(order, pathTo, k, deepest)
    requires vertex !in order && |path| > |deepest|
    ensures Deepest(order + [vertex], pathTo[vertex := path], |order|, path)
  {
    var o, m := order + [vertex], pathTo[vertex := path];
    forall i | 0 <= i < |order| ensures o[i] == order[i] && m[o[i]] == pathTo[order[i]] {
      assert order[i] != vertex;
    }
  }

  /** Visiting a path no longer than the deepest so far keeps the deepest. */
  lemma VisitNotDeeper(order: seq<string>, pathTo: map<string, seq<string>>, k: nat, deepest: seq<string>,
                       vertex: string, path: seq<string>)
    requires Deepest(order, pathTo, k, deepest)
    requires order == [] ==> deepest == []
    requires vertex !in order && 0 < |path| <= |deepest|
    ensures Deepest(order + [vertex], pathTo[vertex := path], k, deepest)
  {
    var o, m := order + [vertex], pathTo[vertex := path];
    forall i | 0 <= i < |order| ensures o[i] == order[i] && m[o[i]] == pathTo[order[i]] {
      assert order[i] != vertex;
    }
  }

  lemma QueueTail(adj: Adjacency, start: string, universe: set<string>, visited: set<string>,
                  queue: seq<(string, seq<string>)>)
    requires QueueOk(adj, start, universe, visited, queue) && queue != []
    ensures QueueOk(adj, start, universe, visited, queue[1..])
  {
    forall i | 0 <= i < |queue| - 1 ensures queue[1..][i] == queue[i + 1] { }
  }

  /** Visiting the head of the queue and queueing its unvisited neighbours with the
      head's path extended keeps every entry pending. */
  lemma QueueAfterVisit(adj: Adjacency, start: string, universe: set<string>, visited: set<string>,
                        queue: seq<(string, seq<string>)>, q: seq<(string, seq<string>)>)
    requires QueueOk(adj, start, universe, visited, queue) && queue != []
    requires queue[0].0 !in visited && Vertices(adj) <= universe
    requires |q| >= |queue| - 1 && q[..|queue| - 1] == queue[1..]
    requires forall i :: |queue| - 1 <= i < |q| ==>
               q[i].0 in Neighbours(adj, queue[0].0) && q[i].0 !in visited + {queue[0].0} &&
               q[i].1 == queue[0].1 + [q[i].0]
    ensures QueueOk(adj, start, universe, visited + {queue[0].0}, q)
  {
    var (vertex, path) := queue[0];
    var seen := visited + {vertex};
    assert PendingPath(adj, start, visited, queue[0]);
    forall i | 0 <= i < |q| ensures q[i].0 in universe && PendingPath(adj, start, seen, q[i]) {
      if i < |queue| - 1 {
        assert q[i] == queue[i + 1];
        assert PendingPath(adj, start, visited, queue[i + 1]);
      } else {
        var n := q[i].0;
        NeighbourIsVertex(adj, vertex, n);
        assert n !in path by {
          forall j | 0 <= j < |path| ensures path[j] != n {
            if j < |path| - 1 { assert path[j] in visited; }
          }
        }
        ExtendSimplePath(adj, start, path, n);
      }
    }
  }

  /** The record of one deepest-path search: the path it returned, the visit order,
      the path each vertex was visited by, and the index in the order of the vertex
      whose path was returned. */
  datatype Run = Run(path: seq<string>, order: seq<string>, pathTo: map<string, seq<string>>, k: nat)

  /** `r` is what the deepest-path search from `start` can return: exactly the
      postcondition of BfsDeepestPath. */
  ghost predicate DeepestRun(adj: Adjacency, start: string, r: Run) {
    && SimplePathFrom(adj, start, r.path)
    && |r.order| > 0 && r.order[0] == start
    && VisitLog(adj, start, r.pathTo.Keys, r.order, r.pathTo)
    && Deepest(r.order, r.pathTo, r.k, r.path) && r.k < |r.order|
    && (forall v, n :: v in r.pathTo && n in Neighbours(adj, v) ==> n in r.pathTo)
  }

  /** Seed `s`'s path is the one returned by the deepest-path search recorded for `s`. */
  ghost predicate SeedRun(adj: Adjacency, seedPath: map<string, seq<string>>, runs: map<string, Run>, s: string)
    requires s in seedPath && s in runs
  {
    runs[s].path == seedPath[s] && DeepestRun(adj, s, runs[s])
  }

  /** Each seed's path is the one a deepest-path search from that seed returned. */
  ghost predicate SeedPaths(adj: Adjacency, seedPath: map<string, seq<string>>, runs: map<string, Run>) {
    && seedPath.Keys == runs.Keys
    && forall s {:trigger SeedRun(adj, seedPath, runs, s)} :: s in runs ==> SeedRun(adj, seedPath, runs, s)
  }

  /** Recording one more seed's search keeps SeedPaths. */
  lemma SeedPathsAdd(adj: Adjacency, seedPath: map<string, seq<string>>, runs: map<string, Run>, c: string, r: Run)
    requires SeedPaths(adj, seedPath, runs)
    requires DeepestRun(adj, c, r)
    ensures SeedPaths(adj, seedPath[c := r.path], runs[c := r])
  {
    var paths, records := seedPath[c := r.path], runs[c := r];
    forall s {:trigger SeedRun(adj, paths, records, s)} | s in records
      ensures SeedRun(adj, paths, records, s)
    {
      if s != c {
        assert SeedRun(adj, seedPath, runs, s);
      }
    }
  }

  /** The running state of the longest-path search over the seeds taken so far:
      `maxLen` is the longest deepest path found, and `longest` holds exactly the found
      paths of that length. */
  ghost predicate Tally(seedPath: map<string, seq<string>>, maxLen: int, longest: seq<seq<string>>) {
    && (seedPath == map[] ==> longest == [] && maxLen == 0)
    && (forall s :: s in seedPath ==> |seedPath[s]| - 1 <= maxLen)
    && (seedPath != map[] ==> exists s :: s in seedPath && |seedPath[s]| - 1 == maxLen)
    && (forall p :: p in longest ==> exists s :: s in seedPath && |seedPath[s]| - 1 == maxLen && p == seedPath[s])
    && (forall s :: s in seedPath && |seedPath[s]| - 1 == maxLen ==> seedPath[s] in longest)
  }

  /** One more seed whose path is longer than the maximum so far restarts the list. */
  lemma TallyLonger(seedPath: map<string, seq<string>>, maxLen: int, longest: seq<seq<string>>,
                    c: string, path: seq<string>)
    requires Tally(seedPath, maxLen, longest) && maxLen >= 0
    requires c !in seedPath && |path| > 0 && |path| - 1 > maxLen
    ensures Tally(seedPath[c := path], |path| - 1, [path])
  {
    var m := seedPath[c := path];
    assert c in m && m[c] == path;
    assert forall s :: s in m && |m[s]| - 1 == |path| - 1 ==> s == c;
  }

  /** One more seed whose path ties the maximum joins the list. */
  lemma TallyTie(seedPath: map<string, seq<string>>, maxLen: int, longest: seq<seq<string>>,
                 c: string, path: seq<string>)
    requires Tally(seedPath, maxLen, longest) && maxLen >= 0
    requires c !in seedPath && |path| > 0 && |path| - 1 == maxLen
    ensures Tally(seedPath[c := path], maxLen, longest + [path])
  {
    var m := seedPath[c := path];
    assert c in m && m[c] == path;
    forall p | p in longest + [path] ensures exists s :: s in m && |m[s]| - 1 == maxLen && p == m[s] {
      if p in longest {
        var s :| s in seedPath && |seedPath[s]| - 1 == maxLen && p == seedPath[s];
        assert s in m && m[s] == seedPath[s];
      }
    }
  }

  /** One more seed whose path is shorter than the maximum changes nothing but the seeds. */
  lemma TallyShorter(seedPath: map<string, seq<string>>, maxLen: int, longest: seq<seq<string>>,
                     c: string, path: seq<string>)
    requires Tally(seedPath, maxLen, longest) && maxLen >= 0
    requires c !in seedPath && |path| > 0 && |path| - 1 < maxLen
    ensures Tally(seedPath[c := path], maxLen, longest)
  {
    var m := seedPath[c := path];
    if seedPath != map[] {
      var s :| s in seedPath && |seedPath[s]| - 1 == maxLen;
      assert s in m && m[s] == seedPath[s];
    }
    forall p | p in longest ensures exists s :: s in m && |m[s]| - 1 == maxLen && p == m[s] {
      var s :| s in seedPath && |seedPath[s]| - 1 == maxLen && p == seedPath[s];
      assert s in m && m[s] == seedPath[s];
    }
  }

  /** `paths` is the result of the longest-path search given each seed's path: nothing
      for an empty map; `maxLength` is the longest seed path's edge count and some seed
      attains it; and `paths` holds the sorted form of exactly the seed paths of that
      length, each sorted. */
  ghost predicate LongestPaths(adj: Adjacency, seedPath: map<string, seq<string>>, maxLength: nat,
                               paths: seq<seq<string>>) {
    && (adj == map[] ==> paths == [])
    && (forall s :: s in seedPath ==> |seedPath[s]| - 1 <= maxLength)
    && (adj != map[] ==> exists s :: s in seedPath && |seedPath[s]| - 1 == maxLength)
    && (forall p :: p in paths ==>
          exists s :: s in seedPath && |seedPath[s]| - 1 == maxLength && p == SortNames(seedPath[s]))
    && (forall s :: s in seedPath && |seedPath[s]| - 1 == maxLength ==> SortNames(seedPath[s]) in paths)
    && (forall p :: p in paths ==> Sorted(p))
  }

  /** The normalised listing holds the sorted form of exactly the paths that reach the
      maximum, and nothing when there was no seed. */
  lemma NormalisedPaths(adj: Adjacency, seedPath: map<string, seq<string>>, maxLength: nat,
                        longest: seq<seq<string>>, normalised: set<seq<string>>, paths: seq<seq<string>>)
    requires seedPath.Keys == adj.Keys
    requires Tally(seedPath, maxLength, longest)
    requires normalised == set p | p in longest :: SortNames(p)
    requires forall p :: p in paths <==> p in normalised
    requires |paths| == |normalised|
    ensures LongestPaths(adj, seedPath, maxLength, paths)
  {
    if adj == map[] {
      assert seedPath == map[];
      assert normalised == {};
    } else {
      var a :| a in adj;
      assert a in seedPath;
    }
    forall p | p in paths
      ensures exists s :: s in seedPath && |seedPath[s]| - 1 == maxLength && p == SortNames(seedPath[s])
    {
      var q :| q in longest && p == SortNames(q);
      var s :| s in seedPath && |seedPath[s]| - 1 == maxLength && q == seedPath[s];
    }
    forall s | s in seedPath && |seedPath[s]| - 1 == maxLength ensures SortNames(seedPath[s]) in paths {
      assert SortNames(seedPath[s]) in normalised;
    }
  }

  /** Turns a set of normalised paths into a list, one entry per path, in some order. */
  method ListOf(s: set<seq<string>>) returns (r: seq<seq<string>>)
    ensures forall p :: p in r <==> p in s
    ensures forall i, j :: 0 <= i < j < |r| ==> r[i] != r[j]
    ensures |r| == |s|
  {
    r := [];
    var rest := s;
    while rest != {}
      invariant rest <= s
      invariant forall p :: p in r <==> p in s && p !in rest
      invariant forall i, j :: 0 <= i < j < |r| ==> r[i] != r[j]
      invariant |r| == |s - rest|
      decreases rest
    {
      var p :| p in rest;
      assert s - (rest - {p}) == (s - rest) + {p};
      r := r + [p];
      rest := rest - {p};
    }
  }

  /** With a symmetric adjacency map (as built from a pair set), every neighbour of
      an island's member lies in the same island, so the islands are exactly the
      connected components. */
  lemma IslandsAreClosed(adj: Adjacency, islands: seq<seq<string>>)
    requires SymmetricAdjacency(adj)
    requires forall i, j, v :: 0 <= i < j < |islands| && v in islands[i] ==> v !in islands[j]
    requires forall i, u, n :: 0 <= i < |islands| && u in islands[i] && n in Neighbours(adj, u) ==>
               n in Members(islands[..i + 1])
    ensures forall i, u, n :: 0 <= i < |islands| && u in islands[i] && n in Neighbours(adj, u) ==> n in islands[i]
  {
    forall i, u, n | 0 <= i < |islands| && u in islands[i] && n in Neighbours(adj, u)
      ensures n in islands[i]
    {
      var j :| 0 <= j < i + 1 && n in islands[..i + 1][j];
      assert u in Neighbours(adj, n);
      assert u in Members(islands[..j + 1]);
      var h :| 0 <= h < j + 1 && u in islands[..j + 1][h];
      assert u in islands[h];
    }
  }
}

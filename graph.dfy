/** The similarity graph as the rabbit-hole analysis sees it: an adjacency map from
    a name to the set of its neighbours, walks and simple paths over it. */
module Graph {

  type Adjacency = map<string, set<string>>

  /** `adjacency_list[v]` on the analysis' map; a name with no entry has no neighbours. */
  function Neighbours(adj: Adjacency, v: string): set<string> {
    if v in adj then adj[v] else {}
  }

  /** `adjacency_list[x].add(y)`, creating the entry when it is missing. */
  function Link(adj: Adjacency, x: string, y: string): (r: Adjacency)
    ensures r.Keys == adj.Keys + {x}
    ensures Neighbours(r, x) == Neighbours(adj, x) + {y}
    ensures forall v :: v != x ==> Neighbours(r, v) == Neighbours(adj, v)
  {
    adj[x := Neighbours(adj, x) + {y}]
  }

  /** Every name that occurs in some pair. */
  ghost function Endpoints(sims: set<(string, string)>): set<string> {
    (set p | p in sims :: p.0) + (set p | p in sims :: p.1)
  }

  /** `adj` is the adjacency map of the pair set `sims`: its keys are exactly the
      pair endpoints, and `y` is a neighbour of `x` iff `(x, y)` or `(y, x)` is a pair. */
  ghost predicate AdjacencyFor(adj: Adjacency, sims: set<(string, string)>) {
    && adj.Keys == Endpoints(sims)
    && forall x, y :: y in Neighbours(adj, x) <==> ((x, y) in sims || (y, x) in sims)
  }

  /** Neighbourhood in both directions. */
  ghost predicate SymmetricAdjacency(adj: Adjacency) {
    forall x, y :: y in Neighbours(adj, x) ==> x in Neighbours(adj, y)
  }

  /** The adjacency map of a pair set is symmetric, whatever the pair set. */
  lemma AdjacencyForIsSymmetric(adj: Adjacency, sims: set<(string, string)>)
    requires AdjacencyFor(adj, sims)
    ensures SymmetricAdjacency(adj)
  {
  }

  /** The adjacency map of a pair set is determined by the pair set. */
  lemma AdjacencyForUnique(adj1: Adjacency, adj2: Adjacency, sims: set<(string, string)>)
    requires AdjacencyFor(adj1, sims) && AdjacencyFor(adj2, sims)
    ensures adj1 == adj2
  {
    forall x | x in adj1 ensures adj1[x] == adj2[x] {
      assert adj1[x] == Neighbours(adj1, x) && adj2[x] == Neighbours(adj2, x);
    }
  }

  /** The empty pair set has the empty adjacency map. */
  lemma EmptyAdjacency()
    ensures AdjacencyFor(map[], {})
  {
  }

  /** Adding one pair to the pairs taken so far links its two endpoints both ways. */
  lemma AdjacencyForLink(adj: Adjacency, done: set<(string, string)>, a: string, b: string)
    requires AdjacencyFor(adj, done)
    ensures AdjacencyFor(Link(Link(adj, a, b), b, a), done + {(a, b)})
  {
    var r := Link(Link(adj, a, b), b, a);
    EndpointsAdd(done, a, b);
    assert r.Keys == Endpoints(done + {(a, b)});
    LinkNeighbours(adj, done, a, b);
  }

  lemma LinkNeighbours(adj: Adjacency, done: set<(string, string)>, a: string, b: string)
    requires forall x, y :: y in Neighbours(adj, x) <==> ((x, y) in done || (y, x) in done)
    ensures forall x, y :: y in Neighbours(Link(Link(adj, a, b), b, a), x) <==>
              ((x, y) in done + {(a, b)} || (y, x) in done + {(a, b)})
  {
    var r := Link(Link(adj, a, b), b, a);
    forall x ensures Neighbours(r, x) == Neighbours(adj, x) + LinkedTo(x, a, b) {
    }
  }

  /** The neighbours the pair `(a, b)` gives to `x`. */
  function LinkedTo(x: string, a: string, b: string): set<string> {
    (if x == a then {b} else {}) + (if x == b then {a} else {})
  }

  lemma EndpointsAdd(done: set<(string, string)>, a: string, b: string)
    ensures Endpoints(done + {(a, b)}) == Endpoints(done) + {a, b}
  {
    var sims := done + {(a, b)};
    assert (set p | p in sims :: p.0) == (set p | p in done :: p.0) + {a};
    assert (set p | p in sims :: p.1) == (set p | p in done :: p.1) + {b};
  }

  /** Every name that occurs in the map, as a key or as a neighbour. */
  ghost function Vertices(adj: Adjacency): set<string> {
    adj.Keys + (set x, y | x in adj && y in adj[x] :: y)
  }

  lemma NeighbourIsVertex(adj: Adjacency, v: string, n: string)
    requires n in Neighbours(adj, v)
    ensures n in Vertices(adj)
  {
  }

  /** Consecutive names are neighbours. */
  ghost predicate IsWalk(adj: Adjacency, p: seq<string>) {
    forall i :: 0 <= i < |p| - 1 ==> p[i + 1] in Neighbours(adj, p[i])
  }

  ghost predicate NoRepeats(p: seq<string>) {
    forall i, j :: 0 <= i < j < |p| ==> p[i] != p[j]
  }

  /** A path that starts at `start`, repeats no name and steps only between neighbours. */
  ghost predicate SimplePathFrom(adj: Adjacency, start: string, p: seq<string>) {
    |p| > 0 && p[0] == start && IsWalk(adj, p) && NoRepeats(p)
  }

  /** `v` can be reached from `start` by stepping between neighbours. */
  ghost predicate Reaches(adj: Adjacency, start: string, v: string) {
    exists p :: IsWalk(adj, p) && |p| > 0 && p[0] == start && p[|p| - 1] == v
  }

  /** `v` can be reached from `start` by stepping between neighbours without passing
      through a name in `avoid`, either end included. */
  ghost predicate ReachesAvoiding(adj: Adjacency, start: string, v: string, avoid: set<string>) {
    exists p :: IsWalk(adj, p) && |p| > 0 && p[0] == start && p[|p| - 1] == v &&
                (forall i :: 0 <= i < |p| ==> p[i] !in avoid)
  }

  lemma ReachesAvoidingSelf(adj: Adjacency, v: string, avoid: set<string>)
    requires v !in avoid
    ensures ReachesAvoiding(adj, v, v, avoid)
  {
    assert IsWalk(adj, [v]);
  }

  lemma ReachesAvoidingStep(adj: Adjacency, start: string, u: string, v: string, avoid: set<string>)
    requires ReachesAvoiding(adj, start, u, avoid)
    requires v in Neighbours(adj, u) && v !in avoid
    ensures ReachesAvoiding(adj, start, v, avoid)
  {
    var p :| IsWalk(adj, p) && |p| > 0 && p[0] == start && p[|p| - 1] == u &&
             (forall i :: 0 <= i < |p| ==> p[i] !in avoid);
    var q := p + [v];
    assert IsWalk(adj, q) by {
      forall i | 0 <= i < |q| - 1 ensures q[i + 1] in Neighbours(adj, q[i]) {
        if i < |p| - 1 {
          assert q[i] == p[i] && q[i + 1] == p[i + 1];
        }
      }
    }
    assert forall i :: 0 <= i < |q| ==> q[i] !in avoid by {
      forall i | 0 <= i < |q| ensures q[i] !in avoid {
        if i < |p| {
          assert q[i] == p[i];
        }
      }
    }
  }

  /** A walk that avoids some names is still a walk. */
  lemma AvoidingReaches(adj: Adjacency, start: string, v: string, avoid: set<string>)
    requires ReachesAvoiding(adj, start, v, avoid)
    ensures Reaches(adj, start, v)
  {
  }

  /** Extending a simple path by a neighbour of its last name that is not on it
      gives a simple path. */
  lemma ExtendSimplePath(adj: Adjacency, start: string, p: seq<string>, v: string)
    requires SimplePathFrom(adj, start, p)
    requires v in Neighbours(adj, p[|p| - 1])
    requires v !in p
    ensures SimplePathFrom(adj, start, p + [v])
  {
    var q := p + [v];
    forall i | 0 <= i < |q| - 1 ensures q[i + 1] in Neighbours(adj, q[i]) {
      if i < |p| - 1 {
        assert q[i] == p[i] && q[i + 1] == p[i + 1];
      }
    }
  }
}

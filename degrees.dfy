/** Degrees of separation: the co-star graph of a movie database and the
    breadth-first search for a chain of (movie, person) steps from one person
    to another. The database is given as two maps, from each person to the
    movies they starred in and from each movie to its stars. */
module Degrees {
  import opened Wrappers

  type PersonId = string
  type MovieId = string

  /** One step of a path: a movie, and the person reached through it. */
  type Pair = (MovieId, PersonId)

  datatype Db = Db(people: map<PersonId, set<MovieId>>, movies: map<MovieId, set<PersonId>>)

  /** `neighbors_for_person(p)`: KeyError when p or one of p's movies is not
      in the database, otherwise every (m, q) where p starred in m and q
      starred in m, q = p included. */
  function NeighborsOf(db: Db, p: PersonId): (r: Result<set<Pair>, PyError>)
    ensures r.Err? <==> p !in db.people || exists m :: m in db.people[p] && m !in db.movies
    ensures r.Err? ==> r.error == KeyError
    ensures r.Ok? ==> forall pr :: pr in r.value <==> pr.0 in db.people[p] && pr.0 in db.movies && pr.1 in db.movies[pr.0]
  {
    if p !in db.people then Err(KeyError)
    else if exists m :: m in db.people[p] && m !in db.movies then Err(KeyError)
    else Ok(set m, q | m in db.people[p] && m in db.movies && q in db.movies[m] :: (m, q))
  }

  /** The nested loops of `neighbors_for_person`, in whatever order the sets
      are iterated. */
  method NeighborsForPerson(db: Db, personId: PersonId) returns (r: Result<set<Pair>, PyError>)
    ensures r == NeighborsOf(db, personId)
  {
    if personId !in db.people {
      return Err(KeyError);
    }
    var movieIds := db.people[personId];
    var neighbors: set<Pair> := {};
    var remaining := movieIds;
    while remaining != {}
      invariant remaining <= movieIds
      invariant forall m :: m in movieIds && m !in remaining ==> m in db.movies
      invariant forall pr :: pr in neighbors <==>
        pr.0 in movieIds && pr.0 !in remaining && pr.0 in db.movies && pr.1 in db.movies[pr.0]
      decreases |remaining|
    {
      var movieId :| movieId in remaining;
      if movieId !in db.movies {
        return Err(KeyError);
      }
      var stars := db.movies[movieId];
      var rest := stars;
      while rest != {}
        invariant rest <= stars
        invariant forall pr :: pr in neighbors <==>
          (pr.0 in movieIds && pr.0 !in remaining && pr.0 in db.movies && pr.1 in db.movies[pr.0]) ||
          (pr.0 == movieId && pr.1 in stars && pr.1 !in rest)
        decreases |rest|
      {
        var star :| star in rest;
        neighbors := neighbors + {(movieId, star)};
        rest := rest - {star};
      }
      remaining := remaining - {movieId};
    }
    assert neighbors == set m, q | m in movieIds && m in db.movies && q in db.movies[m] :: (m, q) by {
      forall pr | pr in neighbors ensures pr in set m, q | m in movieIds && m in db.movies && q in db.movies[m] :: (m, q) {
        var (m, q) := pr;
      }
    }
    return Ok(neighbors);
  }

  // ---------------------------------------------------------------- paths

  /** Each step goes from the previous person (`from` for the first step)
      through a movie both starred in. */
  predicate ValidFrom(db: Db, from: PersonId, path: seq<Pair>)
    decreases |path|
  {
    path == [] ||
    (from in db.people && path[0].0 in db.people[from] &&
     path[0].0 in db.movies && path[0].1 in db.movies[path[0].0] &&
     ValidFrom(db, path[0].1, path[1..]))
  }

  /** The person a path starting at `from` arrives at. */
  function Last(from: PersonId, path: seq<Pair>): PersonId {
    if path == [] then from else path[|path| - 1].1
  }

  /** A search node: a person, the node it was reached from and the movie
      that linked the two; the start node has neither. */
  datatype Node = Node(state: PersonId, parent: Option<Node>, action: Option<MovieId>)

  /** Every link of the parent chain of `n` is a co-star step, and the chain
      ends at the start node for `source`. */
  predicate Chain(db: Db, source: PersonId, n: Node)
    decreases n
  {
    match n.parent
    case None => n.state == source && n.action.None?
    case Some(p) =>
      n.action.Some? && p.state in db.people && n.action.value in db.people[p.state] &&
      n.action.value in db.movies && n.state in db.movies[n.action.value] &&
      Chain(db, source, p)
  }

  /** The number of parent links from `n` back to the start node. */
  function Depth(n: Node): nat
    decreases n
  {
    match n.parent
    case None => 0
    case Some(p) => 1 + Depth(p)
  }

  /** The steps the program collects by following parent links from `n`
      until it reaches a node for `source`, last step first. The walk may
      stop before the start node, at an earlier node for `source`, so it is
      never longer than the node's depth. */
  function WalkFrom(db: Db, source: PersonId, n: Node): (r: seq<Pair>)
    requires Chain(db, source, n)
    ensures |r| <= Depth(n)
    ensures n.state == source ==> r == []
    decreases n
  {
    if n.state == source then []
    else
      assert n.parent.Some?;
      [(n.action.value, n.state)] + WalkFrom(db, source, n.parent.value)
  }

  /** Python's `s[::-1]`. */
  function Reverse<T>(s: seq<T>): (r: seq<T>)
    ensures |r| == |s|
    ensures forall k :: 0 <= k < |s| ==> r[k] == s[|s| - 1 - k]
  {
    if s == [] then [] else Reverse(s[1..]) + [s[0]]
  }

  /** A path extended by one step is valid exactly when the path is and the
      step leaves from where the path arrives. */
  lemma {:induction false} ValidFromSnoc(db: Db, from: PersonId, path: seq<Pair>, step: Pair)
    ensures ValidFrom(db, from, path + [step]) <==>
      ValidFrom(db, from, path) &&
      Last(from, path) in db.people && step.0 in db.people[Last(from, path)] &&
      step.0 in db.movies && step.1 in db.movies[step.0]
    decreases |path|
  {
    if path != [] {
      assert (path + [step])[1..] == path[1..] + [step];
      ValidFromSnoc(db, path[0].1, path[1..], step);
      if |path| > 1 {
        assert Last(path[0].1, path[1..]) == Last(from, path);
      }
    } else {
      assert ([] + [step])[1..] == [];
    }
  }

  /** The reversed parent walk is a valid path from `source` to the node's
      person. */
  lemma {:induction false} WalkIsPath(db: Db, source: PersonId, n: Node)
    requires Chain(db, source, n)
    ensures ValidFrom(db, source, Reverse(WalkFrom(db, source, n)))
    ensures Last(source, Reverse(WalkFrom(db, source, n))) == n.state
    decreases n
  {
    if n.state != source {
      var p := n.parent.value;
      WalkIsPath(db, source, p);
      var front := Reverse(WalkFrom(db, source, p));
      assert Reverse(WalkFrom(db, source, n)) == front + [(n.action.value, n.state)] by {
        assert WalkFrom(db, source, n)[1..] == WalkFrom(db, source, p);
      }
      ValidFromSnoc(db, source, front, (n.action.value, n.state));
    }
  }

  // ---------------------------------------------------------------- search

  predicate DistinctStates(frontier: seq<Node>) {
    forall i, j :: 0 <= i < j < |frontier| ==> frontier[i].state != frontier[j].state
  }

  predicate Chains(db: Db, source: PersonId, frontier: seq<Node>) {
    forall n :: n in frontier ==> Chain(db, source, n)
  }

  predicate HasState(frontier: seq<Node>, s: PersonId) {
    exists n :: n in frontier && n.state == s
  }

  /** The outcome of scanning the neighbours of one node. */
  datatype Scan = Continue(frontier: seq<Node>) | Reached(node: Node)

  /** The `for neighbor in listOfNeighbors` loop: a neighbour that is the
      target ends the scan; any other neighbour whose person is not yet in
      the frontier is queued. The explored-set test compares pairs with
      nodes and never excludes anything, so it is not modelled. */
  method ScanNeighbors(db: Db, source: PersonId, target: PersonId, current: Node,
                       listOfNeighbors: set<Pair>, frontier: seq<Node>) returns (s: Scan)
    requires Chain(db, source, current) && Chains(db, source, frontier) && DistinctStates(frontier)
    requires current.state in db.people
    requires forall pr :: pr in listOfNeighbors ==>
      pr.0 in db.people[current.state] && pr.0 in db.movies && pr.1 in db.movies[pr.0]
    ensures s.Reached? ==> Chain(db, source, s.node) && s.node.state == target
    ensures s.Reached? ==> s.node.parent == Some(current)
    ensures s.Continue? ==> forall pr :: pr in listOfNeighbors ==> HasState(s.frontier, pr.1)
    ensures s.Continue? ==> Chains(db, source, s.frontier) && DistinctStates(s.frontier)
    ensures s.Continue? ==> |frontier| <= |s.frontier| && s.frontier[..|frontier|] == frontier
    ensures s.Continue? ==> forall k :: |frontier| <= k < |s.frontier| ==>
      s.frontier[k].parent == Some(current) && s.frontier[k].state != target &&
      !HasState(frontier, s.frontier[k].state)
  {
    var queue := frontier;
    var rest := listOfNeighbors;
    while rest != {}
      invariant rest <= listOfNeighbors
      invariant Chains(db, source, queue) && DistinctStates(queue)
      invariant |frontier| <= |queue| && queue[..|frontier|] == frontier
      invariant forall k :: |frontier| <= k < |queue| ==>
        queue[k].parent == Some(current) && queue[k].state != target && !HasState(frontier, queue[k].state)
      invariant forall pr :: pr in listOfNeighbors && pr !in rest ==> HasState(queue, pr.1)
      decreases |rest|
    {
      var neighbor :| neighbor in rest;
      rest := rest - {neighbor};
      var neighborsNode := Node(neighbor.1, Some(current), Some(neighbor.0));
      if neighborsNode.state == target {
        return Reached(neighborsNode);
      } else if !HasState(queue, neighborsNode.state) {
        assert !HasState(frontier, neighborsNode.state) by {
          forall n | n in frontier ensures n.state != neighborsNode.state {
            var i :| 0 <= i < |frontier| && frontier[i] == n;
            assert queue[i] == n;
          }
        }
        queue := queue + [neighborsNode];
      }
    }
    return Continue(queue);
  }

  /** Follows parent links from `node` back to a node for `source`,
      collecting the steps, and returns them in start-to-goal order. */
  method BuildPath(db: Db, source: PersonId, node: Node) returns (path: seq<Pair>)
    requires Chain(db, source, node)
    ensures path == Reverse(WalkFrom(db, source, node))
  {
    var shortestPath: seq<Pair> := [];
    var neighborsNode := node;
    while neighborsNode.state != source
      invariant Chain(db, source, neighborsNode)
      invariant WalkFrom(db, source, node) == shortestPath + WalkFrom(db, source, neighborsNode)
      decreases |WalkFrom(db, source, neighborsNode)|
    {
      var step := (neighborsNode.action.value, neighborsNode.state);
      var parent := neighborsNode.parent.value;
      ghost var rest := WalkFrom(db, source, parent);
      assert WalkFrom(db, source, neighborsNode) == [step] + rest;
      assert shortestPath + ([step] + rest) == (shortestPath + [step]) + rest;
      shortestPath := shortestPath + [step];
      neighborsNode := parent;
    }
    path := Reverse(shortestPath);
  }

  // ------------------------------------------------------ breadth-first order

  /** q starred in a movie of p's. */
  predicate CoStar(db: Db, p: PersonId, q: PersonId) {
    p in db.people && exists m :: m in db.people[p] && m in db.movies && q in db.movies[m]
  }

  /** A non-empty valid path is a valid path followed by a co-star step. */
  lemma PathSplit(db: Db, source: PersonId, p: seq<Pair>)
    requires ValidFrom(db, source, p) && p != []
    ensures ValidFrom(db, source, p[..|p| - 1])
    ensures CoStar(db, Last(source, p[..|p| - 1]), Last(source, p))
  {
    var pre, step := p[..|p| - 1], p[|p| - 1];
    assert p == pre + [step];
    ValidFromSnoc(db, source, pre, step);
  }

  /** The frontier holds nodes of depth `level` followed by nodes of depth
      `level + 1`, and starts with one of depth `level`. */
  ghost predicate Layered(frontier: seq<Node>, level: nat) {
    && (forall i :: 0 <= i < |frontier| ==> level <= Depth(frontier[i]) <= level + 1)
    && (forall i, j :: 0 <= i < j < |frontier| ==> Depth(frontier[i]) <= Depth(frontier[j]))
    && (frontier != [] ==> Depth(frontier[0]) == level)
  }

  /** Every co-star of an expanded person is expanded or in the frontier. */
  ghost predicate Closed(db: Db, expanded: set<PersonId>, frontier: seq<Node>) {
    forall e, q :: e in expanded && CoStar(db, e, q) ==> q in expanded || HasState(frontier, q)
  }

  /** Every person reachable in at most `level` steps is expanded, or has a
      frontier node no deeper than that path. */
  ghost predicate Covered(db: Db, source: PersonId, expanded: set<PersonId>, frontier: seq<Node>, level: nat) {
    forall p :: ValidFrom(db, source, p) && |p| <= level ==>
      Last(source, p) in expanded || exists n :: n in frontier && n.state == Last(source, p) && Depth(n) <= |p|
  }

  /** The target has not been generated yet. */
  ghost predicate Unseen(source: PersonId, target: PersonId, expanded: set<PersonId>, frontier: seq<Node>) {
    target != source ==> target !in expanded && !HasState(frontier, target)
  }

  /** The frontier after expanding `before[0]`: the rest of the old frontier,
      then new nodes one level deeper, which include every co-star of the
      expanded person not already queued. */
  ghost predicate Expanded(db: Db, before: seq<Node>, after: seq<Node>, level: nat) {
    && before != []
    && |before| - 1 <= |after| && after[..|before| - 1] == before[1..]
    && (forall k :: |before| - 1 <= k < |after| ==> Depth(after[k]) == level + 1)
    && (forall q :: CoStar(db, before[0].state, q) ==> HasState(after, q))
  }

  /** The level of the next node to be removed. */
  function NextLevel(frontier: seq<Node>, level: nat): nat {
    if frontier != [] then Depth(frontier[0]) else level
  }

  lemma RestKept(before: seq<Node>, after: seq<Node>, n: Node)
    requires before != [] && |before| - 1 <= |after| && after[..|before| - 1] == before[1..]
    requires n in before
    ensures n == before[0] || n in after
  {
    var i :| 0 <= i < |before| && before[i] == n;
    if i > 0 {
      assert after[i - 1] == n;
    }
  }

  lemma {:induction false} LayeredStep(db: Db, before: seq<Node>, after: seq<Node>, level: nat)
    requires Layered(before, level) && Expanded(db, before, after, level)
    ensures Layered(after, NextLevel(after, level))
    ensures forall n :: n in after ==> Depth(n) <= level + 1
  {
    forall k | 0 <= k < |before| - 1
      ensures after[k] == before[k + 1]
    {
      assert after[..|before| - 1][k] == before[1..][k];
    }
  }

  lemma {:induction false} ClosedStep(db: Db, expanded: set<PersonId>, before: seq<Node>, after: seq<Node>, level: nat)
    requires Closed(db, expanded, before) && Expanded(db, before, after, level)
    ensures Closed(db, expanded + {before[0].state}, after)
  {
    forall e, q | e in expanded + {before[0].state} && CoStar(db, e, q)
      ensures q in expanded + {before[0].state} || HasState(after, q)
    {
      if e != before[0].state && q !in expanded {
        var n :| n in before && n.state == q;
        RestKept(before, after, n);
      }
    }
  }

  lemma {:induction false} CoveredStep(db: Db, source: PersonId, expanded: set<PersonId>,
                                       before: seq<Node>, after: seq<Node>, level: nat)
    requires Layered(before, level) && Closed(db, expanded, before)
    requires Covered(db, source, expanded, before, level)
    requires Expanded(db, before, after, level) && after != []
    ensures Covered(db, source, expanded + {before[0].state}, after, Depth(after[0]))
  {
    LayeredStep(db, before, after, level);
    var c := before[0].state;
    var next := Depth(after[0]);
    assert |before| > 1 ==> after[0] == before[1] by {
      if |before| > 1 {
        assert after[..|before| - 1][0] == before[1..][0];
      }
    }
    forall p | ValidFrom(db, source, p) && |p| <= next
      ensures Last(source, p) in expanded + {c} ||
              exists n :: n in after && n.state == Last(source, p) && Depth(n) <= |p|
    {
      if |p| <= level {
        if Last(source, p) !in expanded {
          var n :| n in before && n.state == Last(source, p) && Depth(n) <= |p|;
          RestKept(before, after, n);
        }
      } else {
        // |p| == level + 1: the path's last step leaves a person reachable in
        // `level` steps, which is the expanded node or was expanded earlier.
        PathSplit(db, source, p);
        var pre := p[..|p| - 1];
        var r, q := Last(source, pre), Last(source, p);
        if r in expanded {
          if q !in expanded {
            var n :| n in before && n.state == q;
            RestKept(before, after, n);
          }
        } else {
          var n :| n in before && n.state == r && Depth(n) <= |pre|;
          var m :| m in after && m.state == q;
        }
      }
    }
  }

  lemma {:induction false} UnseenStep(db: Db, source: PersonId, target: PersonId, expanded: set<PersonId>,
                                      before: seq<Node>, after: seq<Node>, level: nat)
    requires Unseen(source, target, expanded, before) && Expanded(db, before, after, level)
    requires forall k :: |before| - 1 <= k < |after| ==> after[k].state != target
    ensures Unseen(source, target, expanded + {before[0].state}, after)
  {
    if target != source {
      assert before[0] in before;
      forall n | n in after
        ensures n.state != target
      {
        var k :| 0 <= k < |after| && after[k] == n;
        if k < |before| - 1 {
          assert after[..|before| - 1][k] == before[1..][k];
          assert before[k + 1] in before;
        }
      }
    }
  }

  /** When the target is generated from the node removed at `level`, no
      valid path to the target is shorter than the walk back from it. */
  lemma {:induction false} FoundShortest(db: Db, source: PersonId, target: PersonId, expanded: set<PersonId>,
                                         before: seq<Node>, level: nat, n: Node, p: seq<Pair>)
    requires Layered(before, level) && before != []
    requires Covered(db, source, expanded, before, level)
    requires Unseen(source, target, expanded, before)
    requires Chain(db, source, n) && n.state == target && n.parent == Some(before[0])
    requires ValidFrom(db, source, p) && Last(source, p) == target
    ensures |WalkFrom(db, source, n)| <= |p|
  {
  }

  /** How a search ends: a path, an exception (KeyError from the database,
      or the empty frontier raising when it is removed from), or the step
      bound running out. */
  datatype Outcome = Found(path: seq<Pair>) | Raised(error: PyError) | OutOfFuel

  /** `shortest_path(source, target)`: breadth-first search with a FIFO
      frontier and the goal test applied to each generated neighbour. The
      program loops until it returns or raises; `fuel` bounds the number of
      nodes removed from the frontier. */
  method ShortestPath(db: Db, source: PersonId, target: PersonId, fuel: nat) returns (r: Outcome)
    ensures r.Found? ==> ValidFrom(db, source, r.path) && Last(source, r.path) == target
    ensures r.Found? ==> exists n :: Chain(db, source, n) && n.state == target &&
                                     r.path == Reverse(WalkFrom(db, source, n))
    ensures r.Found? ==> forall p :: ValidFrom(db, source, p) && Last(source, p) == target ==> |r.path| <= |p|
    ensures r.Raised? ==> r.error == KeyError || r.error == Exception
  {
    var start := Node(source, None, None);
    var frontier := [start];
    ghost var expanded: set<PersonId> := {};
    ghost var level: nat := 0;
    assert Covered(db, source, expanded, frontier, level) by {
      forall p | ValidFrom(db, source, p) && |p| <= 0
        ensures exists n :: n in frontier && n.state == Last(source, p) && Depth(n) <= |p|
      {
        assert frontier[0] in frontier;
      }
    }
    var steps := 0;
    while steps < fuel
      invariant Chains(db, source, frontier) && DistinctStates(frontier)
      invariant Layered(frontier, level) && Closed(db, expanded, frontier)
      invariant frontier != [] ==> Covered(db, source, expanded, frontier, level)
      invariant Unseen(source, target, expanded, frontier)
      decreases fuel - steps
    {
      if frontier == [] {
        return Raised(Exception);
      }
      var currentNode := frontier[0];
      ghost var before := frontier;
      frontier := frontier[1..];
      var listOfNeighbors := NeighborsForPerson(db, currentNode.state);
      if listOfNeighbors.Err? {
        return Raised(listOfNeighbors.error);
      }
      var scan := ScanNeighbors(db, source, target, currentNode, listOfNeighbors.value, frontier);
      if scan.Reached? {
        var path := BuildPath(db, source, scan.node);
        WalkIsPath(db, source, scan.node);
        forall p | ValidFrom(db, source, p) && Last(source, p) == target
          ensures |path| <= |p|
        {
          FoundShortest(db, source, target, expanded, before, level, scan.node, p);
        }
        return Found(path);
      }
      assert Expanded(db, before, scan.frontier, level) by {
        forall q | CoStar(db, currentNode.state, q)
          ensures HasState(scan.frontier, q)
        {
          var m :| m in db.people[currentNode.state] && m in db.movies && q in db.movies[m];
          assert (m, q) in listOfNeighbors.value;
        }
      }
      LayeredStep(db, before, scan.frontier, level);
      ClosedStep(db, expanded, before, scan.frontier, level);
      if scan.frontier != [] {
        CoveredStep(db, source, expanded, before, scan.frontier, level);
      }
      UnseenStep(db, source, target, expanded, before, scan.frontier, level);
      expanded := expanded + {currentNode.state};
      level := NextLevel(scan.frontier, level);
      frontier := scan.frontier;
      steps := steps + 1;
    }
    return OutOfFuel;
  }
}

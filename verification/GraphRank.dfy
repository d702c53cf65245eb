/**
 The layout of the workflow graph: which nodes the entry reaches, with and
 without the routes a choice did not take, and the breadth-first column of each.
 */
module GraphRank {
  import opened Prelude

  datatype Edge = Edge(source: string, target: string, unchosen: bool)

  /** When filtering, a route that a choice did not take is not followed. */
  predicate Followed(filtered: bool, e: Edge) {
    !filtered || !e.unchosen
  }

  /** The edges of this path, in order, lead from the entry to this node. */
  predicate Leads(edges: seq<Edge>, filtered: bool, entry: string, path: seq<Edge>, node: string) {
    if path == [] then node == entry
    else
      var last := path[|path| - 1];
      last in edges && Followed(filtered, last) && last.target == node
      && Leads(edges, filtered, entry, path[..|path| - 1], last.source)
  }

  ghost predicate Reached(edges: seq<Edge>, filtered: bool, entry: string, node: string) {
    exists path :: Leads(edges, filtered, entry, path, node)
  }

  /** Some path has this length, and none is shorter. */
  ghost predicate Shortest(edges: seq<Edge>, entry: string, node: string, length: nat) {
    && (exists path :: Leads(edges, true, entry, path, node) && |path| == length)
    && forall path | Leads(edges, true, entry, path, node) :: |path| >= length
  }

  /** The columns a layout gives: a shortest path's length for exactly the nodes that are reached. */
  ghost predicate Ranks(edges: seq<Edge>, entry: string, rank: map<string, nat>) {
    && (forall node :: node in rank <==> Reached(edges, true, entry, node))
    && forall node | node in rank :: Shortest(edges, entry, node, rank[node])
  }

  function Nodes(edges: seq<Edge>, entry: string): set<string> {
    {entry} + set e | e in edges :: e.target
  }

  lemma QueueFits(edges: seq<Edge>, entry: string, queue: seq<string>)
    requires Distinct(queue) && Elements(queue) <= Nodes(edges, entry)
    ensures |queue| <= |Nodes(edges, entry)|
  {
    DistinctSize(queue);
    SubsetSize(Elements(queue), Nodes(edges, entry));
  }

  lemma Prolong(edges: seq<Edge>, filtered: bool, entry: string, path: seq<Edge>, e: Edge)
    requires e in edges && Followed(filtered, e) && Leads(edges, filtered, entry, path, e.source)
    ensures Leads(edges, filtered, entry, path + [e], e.target)
  {
    assert (path + [e])[..|path|] == path;
  }

  // ----- Reachability --------------------------------------------------------------------------

  /** Every followed edge out of these nodes ends in the set. */
  ghost predicate ClosedFrom(edges: seq<Edge>, filtered: bool, nodes: seq<string>, found: set<string>) {
    forall e | e in edges && Followed(filtered, e) && e.source in nodes :: e.target in found
  }

  lemma {:induction false} ClosedHoldsAllReached(edges: seq<Edge>, filtered: bool, entry: string, nodes: seq<string>,
                                                 path: seq<Edge>, node: string)
    requires entry in nodes && ClosedFrom(edges, filtered, nodes, Elements(nodes))
             && Leads(edges, filtered, entry, path, node)
    ensures node in nodes
  {
    if path != [] {
      var last := path[|path| - 1];
      ClosedHoldsAllReached(edges, filtered, entry, nodes, path[..|path| - 1], last.source);
      assert last.target in Elements(nodes);
    }
  }

  /** What holds while the set grows: it is the list without repetition, and all of it is reached. */
  ghost predicate Grown(edges: seq<Edge>, filtered: bool, entry: string, pending: seq<string>, found: set<string>) {
    && entry in found && Distinct(pending) && Elements(pending) == found <= Nodes(edges, entry)
    && forall node | node in found :: Reached(edges, filtered, entry, node)
  }

  lemma OneMoreFound(edges: seq<Edge>, filtered: bool, entry: string, pending: seq<string>, found: set<string>, e: Edge)
    requires Grown(edges, filtered, entry, pending, found) && e in edges && Followed(filtered, e)
    requires e.source in pending && e.target !in found
    ensures Grown(edges, filtered, entry, pending + [e.target], found + {e.target})
  {
    assert e.source in Elements(pending);
    var path :| Leads(edges, filtered, entry, path, e.source);
    Prolong(edges, filtered, entry, path, e);
    assert Elements(pending + [e.target]) == Elements(pending) + {e.target};
    assert forall k | 0 <= k < |pending| :: pending[k] in Elements(pending);
  }

  lemma OneMoreScanned(edges: seq<Edge>, filtered: bool, j: nat, node: string, found: set<string>)
    requires j < |edges| && ClosedFrom(edges[..j], filtered, [node], found)
    requires Followed(filtered, edges[j]) && edges[j].source == node ==> edges[j].target in found
    ensures ClosedFrom(edges[..j + 1], filtered, [node], found)
  {
    assert edges[..j + 1] == edges[..j] + [edges[j]];
  }

  lemma OneMoreClosed(edges: seq<Edge>, filtered: bool, pending: seq<string>, i: nat, found: set<string>)
    requires i < |pending| && ClosedFrom(edges, filtered, pending[..i], found)
    requires ClosedFrom(edges[..|edges|], filtered, [pending[i]], found)
    ensures ClosedFrom(edges, filtered, pending[..i + 1], found)
  {
    assert edges[..|edges|] == edges;
    assert pending[..i + 1] == pending[..i] + [pending[i]];
  }

  /** Grow the set from the entry until no followed edge leaves it. */
  method Reachable(edges: seq<Edge>, filtered: bool, entry: string) returns (found: set<string>)
    ensures forall node :: node in found <==> Reached(edges, filtered, entry, node)
  {
    found := {entry};
    var pending := [entry];
    assert Leads(edges, filtered, entry, [], entry);
    var i := 0;
    while i < |pending|
      invariant 0 <= i <= |pending|
      invariant Grown(edges, filtered, entry, pending, found) && ClosedFrom(edges, filtered, pending[..i], found)
      decreases |Nodes(edges, entry)| - i
    {
      ghost var done, node := pending[..i], pending[i];
      for j := 0 to |edges|
        invariant i < |pending| && pending[..i] == done && pending[i] == node
        invariant Grown(edges, filtered, entry, pending, found) && ClosedFrom(edges, filtered, done, found)
        invariant ClosedFrom(edges[..j], filtered, [node], found)
      {
        var e := edges[j];
        if e.source == pending[i] && (!filtered || !e.unchosen) && e.target !in found {
          OneMoreFound(edges, filtered, entry, pending, found, e);
          found, pending := found + {e.target}, pending + [e.target];
        }
        OneMoreScanned(edges, filtered, j, node, found);
      }
      OneMoreClosed(edges, filtered, pending, i, found);
      QueueFits(edges, entry, pending);
      i := i + 1;
    }
    assert pending[..|pending|] == pending;
    ClosedIsReachable(edges, filtered, entry, pending, found);
  }

  lemma ClosedIsReachable(edges: seq<Edge>, filtered: bool, entry: string, pending: seq<string>, found: set<string>)
    requires Grown(edges, filtered, entry, pending, found) && ClosedFrom(edges, filtered, pending, found)
    ensures forall node :: node in found <==> Reached(edges, filtered, entry, node)
  {
    forall node | Reached(edges, filtered, entry, node) ensures node in found {
      var path :| Leads(edges, filtered, entry, path, node);
      ClosedHoldsAllReached(edges, filtered, entry, pending, path, node);
    }
  }

  // ----- Ranks -----------------------------------------------------------------------------------

  /** Every followed edge out of these nodes ends in a ranked node, at most one column further. */
  ghost predicate Advanced(edges: seq<Edge>, nodes: seq<string>, rank: map<string, nat>) {
    forall e | e in edges && !e.unchosen && e.source in nodes ::
      e.source in rank && e.target in rank && rank[e.target] <= rank[e.source] + 1
  }

  /** The queue holds the ranked nodes in the order of their ranks, the last at most one column after node `i`. */
  ghost predicate Ordered(queue: seq<string>, rank: map<string, nat>, i: nat) {
    && Distinct(queue) && Elements(queue) == rank.Keys
    && (forall a, b | 0 <= a < b < |queue| :: rank[queue[a]] <= rank[queue[b]])
    && forall a | 0 <= i < |queue| && 0 <= a < |queue| :: rank[queue[a]] <= rank[queue[i]] + 1
  }

  /** A path of just that many followed edges. */
  ghost predicate ReachedIn(edges: seq<Edge>, entry: string, node: string, length: nat) {
    exists path :: Leads(edges, true, entry, path, node) && |path| == length
  }

  ghost predicate Witnessed(edges: seq<Edge>, entry: string, rank: map<string, nat>) {
    forall node {:trigger ReachedIn(edges, entry, node, rank[node])} | node in rank ::
      ReachedIn(edges, entry, node, rank[node])
  }

  lemma {:induction false} RanksBoundPaths(edges: seq<Edge>, entry: string, nodes: seq<string>, rank: map<string, nat>,
                                           path: seq<Edge>, node: string)
    requires Elements(nodes) == rank.Keys && Advanced(edges, nodes, rank)
    requires entry in rank && rank[entry] == 0 && Leads(edges, true, entry, path, node)
    ensures node in rank && rank[node] <= |path|
  {
    if path != [] {
      var last := path[|path| - 1];
      RanksBoundPaths(edges, entry, nodes, rank, path[..|path| - 1], last.source);
      assert last.source in nodes;
    }
  }

  /** What holds while node `i` of the queue is looked at. */
  ghost predicate Layered(edges: seq<Edge>, entry: string, queue: seq<string>, rank: map<string, nat>, i: nat) {
    && entry in rank && rank[entry] == 0
    && Ordered(queue, rank, i) && rank.Keys <= Nodes(edges, entry)
    && Witnessed(edges, entry, rank)
  }

  lemma StillOrdered(queue: seq<string>, rank: map<string, nat>, i: nat, node: string)
    requires Ordered(queue, rank, i) && i < |queue| && node !in rank && queue[i] in rank
    ensures Ordered(queue + [node], rank[node := rank[queue[i]] + 1], i)
  {
    assert Elements(queue + [node]) == Elements(queue) + {node};
    assert forall k | 0 <= k < |queue| :: queue[k] in Elements(queue);
  }

  lemma StillWitnessed(edges: seq<Edge>, entry: string, rank: map<string, nat>, e: Edge)
    requires Witnessed(edges, entry, rank) && e in edges && !e.unchosen && e.source in rank && e.target !in rank
    ensures Witnessed(edges, entry, rank[e.target := rank[e.source] + 1])
  {
    assert ReachedIn(edges, entry, e.source, rank[e.source]);
    var path :| Leads(edges, true, entry, path, e.source) && |path| == rank[e.source];
    Prolong(edges, true, entry, path, e);
    assert |path + [e]| == rank[e.source] + 1;
    assert ReachedIn(edges, entry, e.target, rank[e.source] + 1);
  }

  lemma Appended(edges: seq<Edge>, entry: string, queue: seq<string>, rank: map<string, nat>, i: nat, e: Edge)
    requires Layered(edges, entry, queue, rank, i) && i < |queue| && e.source == queue[i]
    requires e in edges && !e.unchosen && e.target !in rank
    ensures e.source in rank
    ensures Layered(edges, entry, queue + [e.target], rank[e.target := rank[e.source] + 1], i)
  {
    assert queue[i] in Elements(queue);
    StillOrdered(queue, rank, i, e.target);
    StillWitnessed(edges, entry, rank, e);
  }

  lemma StillAdvanced(edges: seq<Edge>, nodes: seq<string>, rank: map<string, nat>, node: string, column: nat)
    requires Advanced(edges, nodes, rank) && node !in rank
    ensures Advanced(edges, nodes, rank[node := column])
  {
  }

  lemma AlreadyRanked(edges: seq<Edge>, entry: string, queue: seq<string>, rank: map<string, nat>, i: nat, e: Edge)
    requires Layered(edges, entry, queue, rank, i) && i < |queue| && e.source == queue[i] && e.target in rank
    ensures e.source in rank && rank[e.target] <= rank[e.source] + 1
  {
    assert queue[i] in Elements(queue) && e.target in Elements(queue);
    var k :| 0 <= k < |queue| && queue[k] == e.target;
  }

  lemma OneMoreEdge(edges: seq<Edge>, j: nat, node: string, rank: map<string, nat>)
    requires j < |edges| && Advanced(edges[..j], [node], rank)
    requires !edges[j].unchosen && edges[j].source == node ==>
               node in rank && edges[j].target in rank && rank[edges[j].target] <= rank[node] + 1
    ensures Advanced(edges[..j + 1], [node], rank)
  {
    assert edges[..j + 1] == edges[..j] + [edges[j]];
  }

  /** The first `j` edges have been looked at for node `i`, all edges for the nodes before it. */
  ghost predicate Scanned(edges: seq<Edge>, entry: string, queue: seq<string>, rank: map<string, nat>, i: nat, j: nat)
    requires j <= |edges|
  {
    && i < |queue| && Layered(edges, entry, queue, rank, i)
    && Advanced(edges, queue[..i], rank) && Advanced(edges[..j], [queue[i]], rank)
  }

  lemma Discovered(edges: seq<Edge>, entry: string, queue: seq<string>, rank: map<string, nat>, i: nat, j: nat)
    requires j < |edges| && Scanned(edges, entry, queue, rank, i, j)
    requires edges[j].source == queue[i] && !edges[j].unchosen && edges[j].target !in rank
    ensures queue[i] in rank
    ensures Scanned(edges, entry, queue + [edges[j].target], rank[edges[j].target := rank[queue[i]] + 1], i, j + 1)
  {
    var e := edges[j];
    Appended(edges, entry, queue, rank, i, e);
    var column := rank[e.source] + 1;
    StillAdvanced(edges, queue[..i], rank, e.target, column);
    StillAdvanced(edges[..j], [queue[i]], rank, e.target, column);
    assert (queue + [e.target])[..i] == queue[..i];
    OneMoreEdge(edges, j, queue[i], rank[e.target := column]);
  }

  lemma Passed(edges: seq<Edge>, entry: string, queue: seq<string>, rank: map<string, nat>, i: nat, j: nat)
    requires j < |edges| && Scanned(edges, entry, queue, rank, i, j)
    requires edges[j].source != queue[i] || edges[j].unchosen || edges[j].target in rank
    ensures Scanned(edges, entry, queue, rank, i, j + 1)
  {
    if edges[j].source == queue[i] && !edges[j].unchosen {
      AlreadyRanked(edges, entry, queue, rank, i, edges[j]);
    }
    OneMoreEdge(edges, j, queue[i], rank);
  }

  lemma ScanStarts(edges: seq<Edge>, entry: string, queue: seq<string>, rank: map<string, nat>, i: nat)
    requires Looked(edges, entry, queue, rank, i) && i < |queue|
    ensures Scanned(edges, entry, queue, rank, i, 0)
  {
  }

  /** What holds between two nodes of the queue. */
  ghost predicate Looked(edges: seq<Edge>, entry: string, queue: seq<string>, rank: map<string, nat>, i: nat) {
    i <= |queue| && Layered(edges, entry, queue, rank, i) && Advanced(edges, queue[..i], rank)
  }

  lemma OneMoreNode(edges: seq<Edge>, entry: string, queue: seq<string>, i: nat, rank: map<string, nat>)
    requires Scanned(edges, entry, queue, rank, i, |edges|)
    ensures Looked(edges, entry, queue, rank, i + 1) && |queue| <= |Nodes(edges, entry)|
  {
    assert edges[..|edges|] == edges;
    assert queue[..i + 1] == queue[..i] + [queue[i]];
    QueueFits(edges, entry, queue);
    NextInLine(queue, rank, i);
  }

  /**
   Breadth-first columns from the entry, if the entry is a stage. Exactly the
   nodes that routes not refused by a choice reach get a column, and it is the
   length of a shortest path of such routes, on cyclic graphs too.
   */
  method Rank(edges: seq<Edge>, entry: string, staged: bool) returns (rank: map<string, nat>)
    ensures !staged ==> rank == map[]
    ensures staged ==> Ranks(edges, entry, rank)
  {
    hide Layered, Advanced, Nodes;
    rank := map[];
    var queue: seq<string> := [];
    if !staged {
      return;
    }
    rank, queue := map[entry := 0], [entry];
    StartsLayered(edges, entry, queue, rank);
    var i := 0;
    while i < |queue|
      invariant Looked(edges, entry, queue, rank, i)
      decreases |Nodes(edges, entry)| - i
    {
      ScanStarts(edges, entry, queue, rank, i);
      for j := 0 to |edges|
        invariant Scanned(edges, entry, queue, rank, i, j)
      {
        var e := edges[j];
        if e.source == queue[i] && !e.unchosen && e.target !in rank {
          Discovered(edges, entry, queue, rank, i, j);
          rank, queue := rank[e.target := rank[e.source] + 1], queue + [e.target];
        } else {
          Passed(edges, entry, queue, rank, i, j);
        }
      }
      OneMoreNode(edges, entry, queue, i, rank);
      i := i + 1;
    }
    RanksAreShortest(edges, entry, queue, rank);
  }

  lemma StartsLayered(edges: seq<Edge>, entry: string, queue: seq<string>, rank: map<string, nat>)
    requires queue == [entry] && rank == map[entry := 0]
    ensures Looked(edges, entry, queue, rank, 0)
  {
    assert Leads(edges, true, entry, [], entry);
    assert Elements(queue) == {entry};
  }

  /** The queue stays in order when its head is done: nothing ranked is more than one column after the next. */
  lemma NextInLine(queue: seq<string>, rank: map<string, nat>, i: nat)
    requires Ordered(queue, rank, i) && i < |queue|
    ensures Ordered(queue, rank, i + 1)
  {
    if i + 1 < |queue| {
      forall a | 0 <= a < |queue| ensures rank[queue[a]] <= rank[queue[i + 1]] + 1 {
        assert rank[queue[i]] <= rank[queue[i + 1]];
      }
    }
  }

  lemma RanksAreShortest(edges: seq<Edge>, entry: string, queue: seq<string>, rank: map<string, nat>)
    requires Looked(edges, entry, queue, rank, |queue|)
    ensures forall node :: node in rank <==> Reached(edges, true, entry, node)
    ensures forall node | node in rank :: Shortest(edges, entry, node, rank[node])
  {
    assert queue[..|queue|] == queue;
    forall path, node | Leads(edges, true, entry, path, node) ensures node in rank && rank[node] <= |path| {
      RanksBoundPaths(edges, entry, queue, rank, path, node);
    }
    forall node | node in rank ensures Reached(edges, true, entry, node) && Shortest(edges, entry, node, rank[node]) {
      assert ReachedIn(edges, entry, node, rank[node]);
    }
  }

  // ----- Drawing the edges ------------------------------------------------------------------------

  function Column(rank: map<string, nat>, node: string): nat {
    if node in rank then rank[node] else 0
  }

  datatype Drawing = Skipped | Return | Onward

  /** How an edge is drawn: a refused route first of all as skipped, then by the columns of its ends. */
  function Drawn(rank: map<string, nat>, e: Edge): Drawing {
    if e.unchosen then Skipped
    else if Column(rank, e.target) <= Column(rank, e.source) then Return
    else Onward
  }

  /**
   A refused edge is drawn as skipped, another as returning if it does not
   lead to a later column; a node without a rank stands in the first one.
   */
  lemma DrawnIs(rank: map<string, nat>, e: Edge)
    ensures Drawn(rank, e) == Skipped <==> e.unchosen
    ensures !e.unchosen && e.target !in rank ==> Drawn(rank, e) == Return
    ensures !e.unchosen && e.target in rank && e.source !in rank ==> (Drawn(rank, e) == Return <==> rank[e.target] == 0)
    ensures !e.unchosen && e.target in rank && e.source in rank ==>
              (Drawn(rank, e) == Return <==> rank[e.target] <= rank[e.source])
  {
  }

  /** Each edge starts where the one before it ends. */
  predicate Chained(path: seq<Edge>) {
    forall k | 0 < k < |path| :: path[k].source == path[k - 1].target
  }

  predicate IsCycle(path: seq<Edge>) {
    path != [] && Chained(path) && path[|path| - 1].target == path[0].source
  }

  lemma {:induction false} OnwardClimbs(rank: map<string, nat>, path: seq<Edge>)
    requires path != [] && Chained(path) && forall k | 0 <= k < |path| :: Drawn(rank, path[k]) == Onward
    ensures Column(rank, path[0].source) < Column(rank, path[|path| - 1].target)
  {
    if |path| > 1 {
      var front := path[..|path| - 1];
      OnwardClimbs(rank, front);
      assert path[|path| - 1].source == front[|front| - 1].target;
    }
  }

  /** The edges drawn onward never loop: every cycle has an edge drawn as returning or as skipped. */
  lemma CyclesTurnBack(rank: map<string, nat>, path: seq<Edge>)
    requires IsCycle(path)
    ensures exists k :: 0 <= k < |path| && Drawn(rank, path[k]) != Onward
  {
    if forall k | 0 <= k < |path| :: Drawn(rank, path[k]) == Onward {
      OnwardClimbs(rank, path);
      assert false;
    }
  }

  /** A cycle passes no node twice. */
  ghost predicate Simple(path: seq<Edge>) {
    IsCycle(path) && forall i, j | 0 <= i < j < |path| :: path[i].source != path[j].source
  }

  function At(path: seq<Edge>, node: string): nat {
    if path == [] || path[0].source == node then 0 else 1 + At(path[1..], node)
  }

  lemma {:induction false} FoundAt(path: seq<Edge>, i: nat)
    requires i < |path| && forall a, b | 0 <= a < b < |path| :: path[a].source != path[b].source
    ensures At(path, path[i].source) == i
  {
    if i > 0 {
      FoundAt(path[1..], i - 1);
    }
  }

  ghost predicate ShowsReturn(rank: map<string, nat>, path: seq<Edge>) {
    exists k :: 0 <= k < |path| && Drawn(rank, path[k]) == Return
  }

  /** These are the columns of a layout whose graph has all edges of the path. */
  ghost predicate LaidOut(edges: seq<Edge>, entry: string, rank: map<string, nat>, path: seq<Edge>) {
    Ranks(edges, entry, rank) && forall e | e in path :: e in edges
  }

  /**
   A cycle is drawn with a returning edge in every layout it is part of exactly if
   no choice refused one of its edges.
   */
  lemma CyclesReturnExactlyWhen(path: seq<Edge>)
    requires Simple(path)
    ensures (forall edges, entry, rank | LaidOut(edges, entry, rank, path) :: ShowsReturn(rank, path))
       <==> forall k | 0 <= k < |path| :: !path[k].unchosen
  {
    if k :| 0 <= k < |path| && path[k].unchosen {
      var turned := path[k + 1..] + path[..k + 1];
      TurnedIsSimple(path, k);
      var edges, entry, rank := WithDetours(turned), turned[0].source, Along(turned);
      AlongIsLaidOut(turned);
      NothingReturns(turned);
      assert forall e | e in path :: e in turned;
      assert LaidOut(edges, entry, rank, path);
      assert !ShowsReturn(rank, path);
    } else {
      forall edges, entry, rank | LaidOut(edges, entry, rank, path) ensures ShowsReturn(rank, path) {
        CyclesTurnBack(rank, path);
      }
    }
  }

  /** The same cycle, starting where its edge `k` ends. */
  lemma TurnedIsSimple(path: seq<Edge>, k: nat)
    requires Simple(path) && k < |path|
    ensures Simple(path[k + 1..] + path[..k + 1])
  {
    var n, turned := |path|, path[k + 1..] + path[..k + 1];
    forall i | 0 <= i < n ensures turned[i] == path[if i + k + 1 < n then i + k + 1 else i + k + 1 - n] { }
  }

  /** The cycle with, beside each edge but the last, one from and to the same node that no choice refused. */
  function WithDetours(cycle: seq<Edge>): seq<Edge>
    requires cycle != []
  {
    cycle + seq(|cycle| - 1, i requires 0 <= i < |cycle| - 1 => Edge(cycle[i].source, cycle[i].target, false))
  }

  /** One column after the other along the cycle. */
  function Along(cycle: seq<Edge>): map<string, nat> {
    map node | node in (set e | e in cycle :: e.source) :: At(cycle, node)
  }

  lemma AlongIs(cycle: seq<Edge>, i: nat)
    requires Simple(cycle) && i < |cycle|
    ensures cycle[i].source in Along(cycle) && Along(cycle)[cycle[i].source] == i
    ensures i + 1 < |cycle| ==> cycle[i].target == cycle[i + 1].source
  {
    assert cycle[i] in cycle;
    FoundAt(cycle, i);
  }

  /** If the last edge was refused, the other edges lead from the entry along the cycle and nowhere else. */
  lemma {:induction false} LeadsAlong(cycle: seq<Edge>, path: seq<Edge>, node: string)
    requires Simple(cycle) && cycle[|cycle| - 1].unchosen
    requires Leads(WithDetours(cycle), true, cycle[0].source, path, node)
    ensures |path| < |cycle| && cycle[|path|].source == node
  {
    if path != [] {
      var edges, last := WithDetours(cycle), path[|path| - 1];
      LeadsAlong(cycle, path[..|path| - 1], last.source);
      var at :| 0 <= at < |edges| && edges[at] == last;
      var i := if at < |cycle| then at else at - |cycle|;
      assert cycle[i].source == last.source && cycle[i].target == last.target;
      assert i == |path| - 1;
    }
  }

  lemma {:induction false} ReachedAlong(cycle: seq<Edge>, i: nat)
    requires Simple(cycle) && i < |cycle|
    ensures ReachedIn(WithDetours(cycle), cycle[0].source, cycle[i].source, i)
  {
    var edges, entry := WithDetours(cycle), cycle[0].source;
    if i == 0 {
      assert Leads(edges, true, entry, [], entry);
    } else {
      ReachedAlong(cycle, i - 1);
      var path :| Leads(edges, true, entry, path, cycle[i - 1].source) && |path| == i - 1;
      var e := edges[|cycle| + i - 1];
      Prolong(edges, true, entry, path, e);
      assert |path + [e]| == i && e.target == cycle[i].source;
    }
  }

  /** So the positions along the cycle are the columns a layout gives. */
  lemma AlongIsLaidOut(cycle: seq<Edge>)
    requires Simple(cycle) && cycle[|cycle| - 1].unchosen
    ensures LaidOut(WithDetours(cycle), cycle[0].source, Along(cycle), cycle)
  {
    hide Leads, WithDetours, Along, At;
    var edges, entry, rank := WithDetours(cycle), cycle[0].source, Along(cycle);
    forall node | node in rank ensures Reached(edges, true, entry, node) && Shortest(edges, entry, node, rank[node]) {
      var i := PositionOf(cycle, node);
      ReachedAlong(cycle, i);
      AlongIs(cycle, i);
      forall path | Leads(edges, true, entry, path, node) ensures |path| >= i {
        LeadsAlong(cycle, path, node);
      }
    }
    forall node | Reached(edges, true, entry, node) ensures node in rank {
      var path :| Leads(edges, true, entry, path, node);
      LeadsAlong(cycle, path, node);
      AlongIs(cycle, |path|);
    }
    HasTheCycle(cycle);
  }

  lemma HasTheCycle(cycle: seq<Edge>)
    requires cycle != []
    ensures forall e | e in cycle :: e in WithDetours(cycle)
  {
  }

  lemma PositionOf(cycle: seq<Edge>, node: string) returns (i: nat)
    requires node in Along(cycle)
    ensures i < |cycle| && cycle[i].source == node
  {
    i :| 0 <= i < |cycle| && cycle[i].source == node;
  }

  lemma NothingReturns(cycle: seq<Edge>)
    requires Simple(cycle) && cycle[|cycle| - 1].unchosen
    ensures forall e | e in cycle :: Drawn(Along(cycle), e) != Return
  {
    forall i | 0 <= i < |cycle| ensures Drawn(Along(cycle), cycle[i]) != Return {
      AlongIs(cycle, i);
      if i + 1 < |cycle| { AlongIs(cycle, i + 1); }
    }
  }

  /** The concrete case: the edge that goes back was refused, so none is drawn as returning. */
  lemma RefusedEdgeHidesTheReturn()
    ensures var path, rank := [Edge("a", "b", false), Edge("b", "a", true)], map["a" := 0, "b" := 1];
            IsCycle(path) && LaidOut(path, "a", rank, path) && !ShowsReturn(rank, path)
  {
    var path, rank := [Edge("a", "b", false), Edge("b", "a", true)], map["a" := 0, "b" := 1];
    TwoColumns(path, rank);
  }

  /**
   In a single layout a loop with a refused edge may still have a returning one:
   past that edge `c` is not reached.
   */
  lemma ReturnDespiteRefusal()
    ensures var path, rank :=
              [Edge("a", "b", false), Edge("b", "c", true), Edge("c", "a", false)], map["a" := 0, "b" := 1];
            IsCycle(path) && path[1].unchosen && LaidOut(path, "a", rank, path) && ShowsReturn(rank, path)
  {
    var path, rank := [Edge("a", "b", false), Edge("b", "c", true), Edge("c", "a", false)], map["a" := 0, "b" := 1];
    TwoColumns(path, rank);
    assert Drawn(rank, path[2]) == Return;
  }

  /** Columns of a graph whose first edge leads from the entry to `b`, from where nothing is followed. */
  lemma TwoColumns(edges: seq<Edge>, rank: map<string, nat>)
    requires edges != [] && edges[0] == Edge("a", "b", false) && rank == map["a" := 0, "b" := 1]
    requires forall e | e in edges && !e.unchosen :: e == edges[0] || e.source !in {"a", "b"}
    ensures Ranks(edges, "a", rank)
  {
    assert Leads(edges, true, "a", [], "a");
    Prolong(edges, true, "a", [], edges[0]);
    assert Leads(edges, true, "a", [edges[0]], "b");
    forall node | Reached(edges, true, "a", node) ensures node in rank {
      var p :| Leads(edges, true, "a", p, node);
      OnlyTheFirst(edges, p, node);
    }
  }

  lemma {:induction false} OnlyTheFirst(edges: seq<Edge>, path: seq<Edge>, node: string)
    requires edges != [] && edges[0] == Edge("a", "b", false)
    requires forall e | e in edges && !e.unchosen :: e == edges[0] || e.source !in {"a", "b"}
    requires Leads(edges, true, "a", path, node)
    ensures node == if path == [] then "a" else "b"
  {
    if path != [] { OnlyTheFirst(edges, path[..|path| - 1], path[|path| - 1].source); }
  }

  /** With shortest-path columns, a route out of a reached node that is drawn onward goes exactly one column. */
  lemma OnwardIsOneColumn(edges: seq<Edge>, entry: string, rank: map<string, nat>, e: Edge)
    requires Ranks(edges, entry, rank) && e in edges && e.source in rank && Drawn(rank, e) == Onward
    ensures Column(rank, e.target) == Column(rank, e.source) + 1
  {
    var path :| Leads(edges, true, entry, path, e.source) && |path| == rank[e.source];
    Prolong(edges, true, entry, path, e);
    assert e.target in rank && |path + [e]| >= rank[e.target];
  }
}

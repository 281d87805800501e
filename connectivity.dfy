/**
 * `test_connectivity`: build the symmetric adjacency lists of the "connected" relation
 * over all pairs, run a FIFO breadth-first search from the first part, and report the
 * parts it does not reach.
 *
 * The geometry is abstract: `connected(i, j)` is `_are_parts_connected` on parts i and j
 * (0-based), and the source calls it only with i < j.
 */
module Connectivity {
  import opened TestResults

  const ConnectivityTestName: string := "Part Connectivity"

  type Connected = (nat, nat) -> bool

  /** The undirected edge relation the pair loop records. */
  predicate Edge(connected: Connected, u: nat, v: nat) {
    (u < v && connected(u, v)) || (v < u && connected(v, u))
  }

  lemma EdgeSymmetric(connected: Connected, u: nat, v: nat)
    ensures Edge(connected, u, v) <==> Edge(connected, v, u)
    ensures Edge(connected, u, v) ==> u != v
  {
  }

  // ---- reachability, in the "connected" relation and in an adjacency list ----

  ghost predicate IsPath(n: nat, connected: Connected, p: seq<nat>) {
    |p| > 0 && (forall k :: 0 <= k < |p| ==> p[k] < n)
    && forall k :: 0 <= k < |p| - 1 ==> Edge(connected, p[k], p[k + 1])
  }

  /** Part v is reachable from part 0 through connected pairs. */
  ghost predicate Reachable(n: nat, connected: Connected, v: nat) {
    exists p :: IsPath(n, connected, p) && p[0] == 0 && p[|p| - 1] == v
  }

  ghost predicate IsWalk(g: seq<seq<nat>>, p: seq<nat>) {
    |p| > 0 && (forall k :: 0 <= k < |p| ==> p[k] < |g|)
    && forall k :: 0 <= k < |p| - 1 ==> p[k + 1] in g[p[k]]
  }

  /** Vertex v is reachable from vertex 0 along the adjacency lists `g`. */
  ghost predicate ReachableIn(g: seq<seq<nat>>, v: nat) {
    exists p :: IsWalk(g, p) && p[0] == 0 && p[|p| - 1] == v
  }

  /** Every entry of every adjacency list is a vertex. */
  ghost predicate Closed(g: seq<seq<nat>>) {
    forall u, w :: 0 <= u < |g| && w in g[u] ==> w < |g|
  }

  /** The adjacency lists hold exactly the edges of `connected` among n parts. */
  ghost predicate AdjacencyOf(g: seq<seq<nat>>, n: nat, connected: Connected) {
    |g| == n && forall u: nat, v: nat :: u < n ==> (v in g[u] <==> v < n && Edge(connected, u, v))
  }

  lemma WalkExtends(g: seq<seq<nat>>, u: nat, w: nat)
    requires ReachableIn(g, u) && u < |g| && w in g[u] && w < |g|
    ensures ReachableIn(g, w)
  {
    var p :| IsWalk(g, p) && p[0] == 0 && p[|p| - 1] == u;
    var p' := p + [w];
    assert IsWalk(g, p');
  }

  /** Over an adjacency of `connected`, walks and paths are the same, so reachability agrees. */
  lemma ReachabilityAgrees(g: seq<seq<nat>>, n: nat, connected: Connected, v: nat)
    requires AdjacencyOf(g, n, connected)
    ensures ReachableIn(g, v) <==> Reachable(n, connected, v)
  {
    if ReachableIn(g, v) {
      var p :| IsWalk(g, p) && p[0] == 0 && p[|p| - 1] == v;
      assert IsPath(n, connected, p);
    }
    if Reachable(n, connected, v) {
      var p :| IsPath(n, connected, p) && p[0] == 0 && p[|p| - 1] == v;
      assert IsWalk(g, p);
    }
  }

  /** A set of vertices that holds 0 and is closed under the adjacency holds every reachable vertex. */
  lemma {:induction false} ClosedSetHoldsReachable(g: seq<seq<nat>>, visited: seq<bool>, p: seq<nat>)
    requires |visited| == |g| && IsWalk(g, p) && p[0] == 0 && visited[0]
    requires forall u, w :: 0 <= u < |g| && visited[u] && w in g[u] && w < |g| ==> visited[w]
    ensures visited[p[|p| - 1]]
  {
    if |p| > 1 {
      var q := p[..|p| - 1];
      assert IsWalk(g, q);
      ClosedSetHoldsReachable(g, visited, q);
      assert p[|p| - 1] in g[q[|q| - 1]];
    }
  }

  lemma {:induction false} BoundedSetSize(s: set<nat>, n: nat)
    requires forall v :: v in s ==> v < n
    ensures |s| <= n
  {
    if n > 0 {
      BoundedSetSize(s - {n - 1}, n - 1);
    } else {
      assert s == {};
    }
  }

  // ---- the two phases of the test ----

  /** The pair loop: `adj[i].append(j); adj[j].append(i)` for every connected pair i < j. */
  method BuildAdjacency(n: nat, connected: Connected) returns (adj: array<seq<nat>>)
    ensures fresh(adj)
    ensures AdjacencyOf(adj[..], n, connected)
  {
    adj := new seq<nat>[n](_ => []);
    for i := 0 to n
      invariant forall u: nat, v: nat :: u < n ==>
                  (v in adj[u] <==> v < n && Edge(connected, u, v) && (u < i || v < i))
    {
      for j := i + 1 to n
        invariant forall u: nat, v: nat :: u < n ==>
                    (v in adj[u] <==> v < n && Edge(connected, u, v)
                                      && (u < i || v < i || (u == i && v < j) || (v == i && u < j)))
      {
        if connected(i, j) {
          adj[i] := adj[i] + [j];
          adj[j] := adj[j] + [i];
        }
      }
    }
  }

  /**
   * One BFS step's inner loop: every unvisited neighbour of u is marked visited and queued
   * (`if not visited[v]: visited[v] = True; queue.append(v)`).
   */
  method EnqueueUnvisited(ghost g: seq<seq<nat>>, u: nat, neighbours: seq<nat>, visited: array<bool>,
                          ghost marked: set<nat>)
    returns (added: seq<nat>, ghost marked': set<nat>)
    requires Closed(g) && u < |g| && neighbours == g[u] && visited.Length == |g|
    requires ReachableIn(g, u)
    requires forall v :: 0 <= v < |g| ==> (visited[v] <==> v in marked)
    requires forall v :: v in marked ==> v < |g| && ReachableIn(g, v)
    modifies visited
    ensures forall v :: 0 <= v < |g| ==> (visited[v] <==> v in marked')
    ensures forall v :: v in marked' ==> v < |g| && ReachableIn(g, v)
    ensures marked <= marked' && |added| == |marked'| - |marked|
    ensures forall k :: 0 <= k < |added| ==> added[k] in marked' && added[k] !in marked
    ensures forall v :: v in marked' && v !in marked ==> v in added
    ensures forall w :: w in g[u] ==> visited[w]
    ensures forall v :: v in marked' ==> v in marked || v in g[u]
  {
    added := [];
    marked' := marked;
    for idx := 0 to |neighbours|
      invariant forall v :: 0 <= v < |g| ==> (visited[v] <==> v in marked')
      invariant forall v :: v in marked' ==> v < |g| && ReachableIn(g, v)
      invariant marked <= marked' && |added| == |marked'| - |marked|
      invariant forall k :: 0 <= k < |added| ==> added[k] in marked' && added[k] !in marked
      invariant forall v :: v in marked' && v !in marked ==> v in added
      invariant forall k :: 0 <= k < idx ==> neighbours[k] < |g| && visited[neighbours[k]]
      invariant forall v :: v in marked' ==> v in marked || v in neighbours[..idx]
    {
      var v := neighbours[idx];
      assert v in g[u];
      if !visited[v] {
        WalkExtends(g, u, v);
        visited[v] := true;
        added := added + [v];
        marked' := marked' + {v};
      }
    }
    forall w | w in g[u] ensures visited[w] {
      var k :| 0 <= k < |neighbours| && neighbours[k] == w;
    }
  }

  /** The FIFO breadth-first search from part 0 (`queue.pop(0)`, `queue.append(v)`). */
  method SearchFromFirst(adj: array<seq<nat>>) returns (visited: array<bool>)
    requires adj.Length > 0 && Closed(adj[..])
    ensures fresh(visited) && visited.Length == adj.Length
    ensures forall v :: 0 <= v < adj.Length ==> (visited[v] <==> ReachableIn(adj[..], v))
  {
    var n := adj.Length;
    ghost var g := adj[..];
    visited := new bool[n](_ => false);
    var queue: seq<nat> := [0];
    visited[0] := true;
    ghost var marked: set<nat> := {0};
    assert IsWalk(g, [0]);
    while queue != []
      invariant visited.Length == n && visited[0]
      invariant forall v :: 0 <= v < n ==> (visited[v] <==> v in marked)
      invariant forall v :: v in marked ==> v < n && ReachableIn(g, v)
      invariant forall k :: 0 <= k < |queue| ==> queue[k] in marked
      invariant forall x, w :: 0 <= x < n && visited[x] && x !in queue && w in g[x] ==> visited[w]
      decreases n - |marked|, |queue|
    {
      BoundedSetSize(marked, n);
      ghost var marked0, queue0 := marked, queue;
      var u := queue[0];
      queue := queue[1..];
      var neighbours := adj[u];
      var added;
      added, marked := EnqueueUnvisited(g, u, neighbours, visited, marked);
      queue := queue + added;
      forall x, w | 0 <= x < n && visited[x] && x !in queue && w in g[x] ensures visited[w] {
        if x != u {
          assert x !in added && x in marked0 && x !in queue0[1..];
          assert x !in queue0;
        }
      }
      BoundedSetSize(marked, n);
    }
    forall v | 0 <= v < n && ReachableIn(g, v) ensures visited[v] {
      var p :| IsWalk(g, p) && p[0] == 0 && p[|p| - 1] == v;
      ClosedSetHoldsReachable(g, visited[..], p);
    }
  }

  // ---- the test's verdict ----

  /** The parts below k that are not reachable from part 0, in ascending order. */
  ghost function UnreachedBelow(n: nat, connected: Connected, k: nat): (r: seq<nat>)
    requires k <= n
    ensures |r| <= k && forall i :: 0 <= i < |r| ==> r[i] < k
  {
    if k == 0 then []
    else UnreachedBelow(n, connected, k - 1) + (if Reachable(n, connected, k - 1) then [] else [k - 1])
  }

  /** The unreached list holds exactly the unreachable parts, each once, in ascending order. */
  lemma {:induction false} UnreachedBelowExact(n: nat, connected: Connected, k: nat)
    requires k <= n
    ensures forall v: nat :: v in UnreachedBelow(n, connected, k) <==> v < k && !Reachable(n, connected, v)
    ensures forall a, b :: 0 <= a < b < |UnreachedBelow(n, connected, k)| ==>
              UnreachedBelow(n, connected, k)[a] < UnreachedBelow(n, connected, k)[b]
  {
    if k > 0 {
      UnreachedBelowExact(n, connected, k - 1);
      var prev := UnreachedBelow(n, connected, k - 1);
      var cur := UnreachedBelow(n, connected, k);
      assert cur == prev + (if Reachable(n, connected, k - 1) then [] else [k - 1]);
      forall a, b | 0 <= a < b < |cur| ensures cur[a] < cur[b] {
        if b < |prev| {
          assert cur[a] == prev[a] && cur[b] == prev[b];
        } else {
          assert cur[a] == prev[a] && prev[a] in prev;
        }
      }
    }
  }

  /** The names of the parts at `indices`. */
  function NamesAt(names: seq<string>, indices: seq<nat>): (r: seq<string>)
    requires forall k :: 0 <= k < |indices| ==> indices[k] < |names|
    ensures |r| == |indices| && forall k :: 0 <= k < |indices| ==> r[k] == names[indices[k]]
  {
    seq(|indices|, k requires 0 <= k < |indices| => names[indices[k]])
  }

  /** The collection loop over the search's marks: the indices left unvisited, in order. */
  method CollectUnvisited(visited: array<bool>, n: nat, connected: Connected) returns (disconnected: seq<nat>)
    requires visited.Length == n
    requires forall v: nat :: v < n ==> (visited[v] <==> Reachable(n, connected, v))
    ensures disconnected == UnreachedBelow(n, connected, n)
    ensures forall k :: 0 <= k < |disconnected| ==> disconnected[k] < n
  {
    disconnected := [];
    for i := 0 to n
      invariant disconnected == UnreachedBelow(n, connected, i)
      invariant forall k :: 0 <= k < |disconnected| ==> disconnected[k] < i
    {
      if !visited[i] {
        disconnected := disconnected + [i];
      }
    }
  }

  /** The result `test_connectivity` reports on parts with the given names and "connected" relation. */
  ghost function ConnectivityResult(names: seq<string>, connected: Connected): (r: TestResult)
    ensures r.name == ConnectivityTestName
  {
    var n := |names|;
    if n == 0 then TestResult(ConnectivityTestName, Skipped, Text("No parts found to test"), NoDetails)
    else if n == 1 then TestResult(ConnectivityTestName, Passed, Text("Single part is inherently connected"), NoDetails)
    else
      var unreached := UnreachedBelow(n, connected, n);
      if unreached == [] then TestResult(ConnectivityTestName, Passed, AllPartsConnected(n), ComponentCount(1))
      else
        var unreachedNames := NamesAt(names, unreached);
        TestResult(ConnectivityTestName, Failed,
                   if |unreached| <= 3 then DetachedParts(unreachedNames) else DetachedPartCount(|unreached|),
                   DisconnectedParts(unreachedNames))
  }

  /**
   * What the connectivity test reports: skipped iff there are no parts; passed iff every part
   * is reachable from the first; otherwise failed, naming exactly the unreachable parts in
   * index order, and listing them in the message iff there are at most three.
   */
  lemma ConnectivityResultMeaning(names: seq<string>, connected: Connected)
    ensures var r, n := ConnectivityResult(names, connected), |names|;
      r.status != Error
      && (r.status == Skipped <==> n == 0)
      && (r.status == Passed <==> n > 0 && forall v :: 0 <= v < n ==> Reachable(n, connected, v))
    ensures var r, n := ConnectivityResult(names, connected), |names|;
      var unreached := UnreachedBelow(n, connected, n);
      r.status == Failed ==>
        n >= 2
        && (forall v: nat :: v in unreached <==> v < n && !Reachable(n, connected, v))
        && (forall a, b :: 0 <= a < b < |unreached| ==> unreached[a] < unreached[b])
        && r.details == DisconnectedParts(NamesAt(names, unreached))
        && (r.message.DetachedParts? <==> |unreached| <= 3)
  {
    var n := |names|;
    UnreachedBelowExact(n, connected, n);
    if n == 1 {
      assert IsPath(1, connected, [0]);
    }
    if n >= 2 && UnreachedBelow(n, connected, n) != [] {
      var u := UnreachedBelow(n, connected, n);
      assert u[0] in u;
    }
  }

  /** `test_connectivity` on the parts extracted from one design. */
  method TestConnectivity(names: seq<string>, connected: Connected) returns (r: TestResult)
    ensures r == ConnectivityResult(names, connected)
  {
    var n := |names|;
    if n == 0 {
      return TestResult(ConnectivityTestName, Skipped, Text("No parts found to test"), NoDetails);
    }
    if n == 1 {
      return TestResult(ConnectivityTestName, Passed, Text("Single part is inherently connected"), NoDetails);
    }
    var adj := BuildAdjacency(n, connected);
    var visited := SearchFromFirst(adj);
    forall v: nat | v < n ensures visited[v] <==> Reachable(n, connected, v) {
      ReachabilityAgrees(adj[..], n, connected, v);
    }
    var disconnected := CollectUnvisited(visited, n, connected);
    if disconnected == [] {
      return TestResult(ConnectivityTestName, Passed, AllPartsConnected(n), ComponentCount(1));
    }
    var disconnectedNames := NamesAt(names, disconnected);
    var message := if |disconnectedNames| <= 3 then DetachedParts(disconnectedNames)
                   else DetachedPartCount(|disconnectedNames|);
    r := TestResult(ConnectivityTestName, Failed, message, DisconnectedParts(disconnectedNames));
  }
}

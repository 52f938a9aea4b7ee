/**
 Breadth-first search over a finite network, kept as a tree of discovered paths.
 Both graph backends run this search; here it is proved to find shortest paths.
 */
module Search {
  import opened Wrappers
  import opened Collections

  /** A finite directed multigraph: the ordered candidate steps out of each node, and each edge's source. */
  datatype Net<!N, !E> = Net(nodes: set<N>, steps: N -> seq<(N, E)>, source: E -> N)

  ghost predicate ValidNet<N(!new), E(!new)>(net: Net<N, E>) {
    forall n, k :: n in net.nodes && 0 <= k < |net.steps(n)| ==>
      net.steps(n)[k].0 in net.nodes && net.source(net.steps(n)[k].1) == n
  }

  /** `path` leads from `a` to `b` along steps of the network. */
  ghost predicate IsPath<N(!new), E(!new)>(net: Net<N, E>, a: N, b: N, path: seq<E>)
    decreases |path|
  {
    if path == [] then a == b else
      var last := path[|path| - 1];
      (b, last) in net.steps(net.source(last)) && IsPath(net, a, net.source(last), path[..|path| - 1])
  }

  /** The search state: nodes still to expand, and the tree path of every node seen. */
  datatype Tree<N, E> = Tree(queue: seq<N>, paths: map<N, seq<E>>)

  /** Expand `base` over its candidate steps, stopping at the goal. */
  function Scan<N(==), E>(steps: seq<(N, E)>, base: seq<E>, goal: N, t: Tree<N, E>): (bool, Tree<N, E>)
    decreases |steps|
  {
    if steps == [] then (false, t) else
      var (n, e) := steps[0];
      if n in t.paths then Scan(steps[1..], base, goal, t)
      else if n == goal then (true, t.(paths := t.paths[n := base + [e]]))
      else Scan(steps[1..], base, goal, Tree(t.queue + [n], t.paths[n := base + [e]]))
  }

  ghost predicate Extends<N, E>(t: Tree<N, E>, u: Tree<N, E>) {
    t.queue <= u.queue && t.paths.Keys <= u.paths.Keys && forall n :: n in t.paths ==> u.paths[n] == t.paths[n]
  }

  lemma {:induction false} ScanExtends<N(!new), E(!new)>(steps: seq<(N, E)>, base: seq<E>, goal: N, t: Tree<N, E>)
    ensures Extends(t, Scan(steps, base, goal, t).1)
    decreases |steps|
  {
    if steps != [] {
      var (n, e) := steps[0];
      if n in t.paths {
        ScanExtends(steps[1..], base, goal, t);
      } else if n != goal {
        ScanExtends(steps[1..], base, goal, Tree(t.queue + [n], t.paths[n := base + [e]]));
      }
    }
  }

  ghost predicate OneStepFrom<N, E>(steps: seq<(N, E)>, base: seq<E>, n: N, path: seq<E>) {
    |path| > 0 && path == base + [path[|path| - 1]] && (n, path[|path| - 1]) in steps
  }

  ghost predicate FreshFrom<N(!new), E(!new)>(steps: seq<(N, E)>, base: seq<E>, t: Tree<N, E>, u: Tree<N, E>) {
    forall n :: n in u.paths && n !in t.paths ==> OneStepFrom(steps, base, n, u.paths[n])
  }

  /** Every node a scan discovers hangs below `base` by one of the scanned steps. */
  lemma {:induction false} ScanFresh<N(!new), E(!new)>(steps: seq<(N, E)>, base: seq<E>, goal: N, t: Tree<N, E>)
    ensures FreshFrom(steps, base, t, Scan(steps, base, goal, t).1)
    decreases |steps|
  {
    if steps != [] {
      var (n, e) := steps[0];
      assert (n, e) in steps && forall x :: x in steps[1..] ==> x in steps;
      if n in t.paths {
        ScanFresh(steps[1..], base, goal, t);
      } else if n != goal {
        var t' := Tree(t.queue + [n], t.paths[n := base + [e]]);
        ScanFresh(steps[1..], base, goal, t');
        ScanExtends(steps[1..], base, goal, t');
      }
    }
  }

  /** What `u` queued beyond `t` was unseen in `t`. */
  ghost predicate Appended<N(!new), E(!new)>(t: Tree<N, E>, u: Tree<N, E>) {
    forall k :: |t.queue| <= k < |u.queue| ==> QueuedNew(t, u, k)
  }

  ghost predicate QueuedNew<N(!new), E(!new)>(t: Tree<N, E>, u: Tree<N, E>, k: nat)
    requires k < |u.queue|
  {
    u.queue[k] in u.paths && u.queue[k] !in t.paths
  }

  lemma {:induction false} ScanAppends<N(!new), E(!new)>(steps: seq<(N, E)>, base: seq<E>, goal: N, t: Tree<N, E>)
    ensures Appended(t, Scan(steps, base, goal, t).1)
    decreases |steps|
  {
    if steps != [] {
      var (n, e) := steps[0];
      if n in t.paths {
        ScanAppends(steps[1..], base, goal, t);
      } else if n != goal {
        var t' := Tree(t.queue + [n], t.paths[n := base + [e]]);
        ScanAppends(steps[1..], base, goal, t');
        ScanExtends(steps[1..], base, goal, t');
        var u := Scan(steps[1..], base, goal, t').1;
        forall k | |t.queue| <= k < |u.queue| ensures QueuedNew(t, u, k) {
          if k == |t.queue| {
            assert u.queue[k] == t'.queue[k] == n && n in t'.paths;
          } else {
            assert QueuedNew(t', u, k);
          }
        }
      }
    }
  }

  /** A scan that misses the goal has seen every target, and queued exactly what it discovered. */
  lemma {:induction false} ScanMisses<N(!new), E(!new)>(steps: seq<(N, E)>, base: seq<E>, goal: N, t: Tree<N, E>)
    requires goal !in t.paths && !Scan(steps, base, goal, t).0
    ensures var u := Scan(steps, base, goal, t).1;
            && goal !in u.paths && (forall k :: 0 <= k < |steps| ==> steps[k].0 in u.paths)
            && (forall n :: n in u.paths && n !in t.paths ==> n in u.queue)
            && |u.paths| - |t.paths| == |u.queue| - |t.queue|
    decreases |steps|
  {
    if steps != [] {
      var (n, e) := steps[0];
      if n in t.paths {
        ScanMisses(steps[1..], base, goal, t);
        ScanExtends(steps[1..], base, goal, t);
      } else {
        var t' := Tree(t.queue + [n], t.paths[n := base + [e]]);
        ScanMisses(steps[1..], base, goal, t');
        ScanExtends(steps[1..], base, goal, t');
        assert t'.paths.Keys == t.paths.Keys + {n};
        assert Scan(steps[1..], base, goal, t').1.queue[|t.queue|] == t'.queue[|t.queue|] == n;
      }
    }
  }

  lemma {:induction false} ScanFinds<N(!new), E(!new)>(steps: seq<(N, E)>, base: seq<E>, goal: N, t: Tree<N, E>)
    requires goal !in t.paths && Scan(steps, base, goal, t).0
    ensures goal in Scan(steps, base, goal, t).1.paths
    decreases |steps|
  {
    if steps != [] {
      var (n, e) := steps[0];
      if n in t.paths {
        ScanFinds(steps[1..], base, goal, t);
      } else if n != goal {
        ScanFinds(steps[1..], base, goal, Tree(t.queue + [n], t.paths[n := base + [e]]));
      }
    }
  }

  // ---- the invariant of the search ----

  /** Every seen node has a tree path; expanded nodes lead only to seen nodes one step further at most. */
  ghost predicate Invariant<N(!new), E(!new)>(net: Net<N, E>, start: N, t: Tree<N, E>) {
    && t.paths.Keys <= net.nodes && start in t.paths && t.paths[start] == []
    && (forall n :: n in t.queue ==> n in t.paths)
    && (forall n :: n in t.paths ==> IsPath(net, start, n, t.paths[n]))
    && (forall i, j :: 0 <= i <= j < |t.queue| ==> |t.paths[t.queue[i]]| <= |t.paths[t.queue[j]]|
                                                <= |t.paths[t.queue[0]]| + 1)
    && (forall n :: n in t.paths && n !in t.queue ==> Expanded(net, t, n))
    && (forall n, i :: n in t.paths && n !in t.queue && 0 <= i < |t.queue| ==> |t.paths[n]| <= |t.paths[t.queue[i]]|)
  }

  ghost predicate Expanded<N(!new), E(!new)>(net: Net<N, E>, t: Tree<N, E>, n: N)
    requires n in t.paths
  {
    forall k :: 0 <= k < |net.steps(n)| ==>
      net.steps(n)[k].0 in t.paths && |t.paths[net.steps(n)[k].0]| <= |t.paths[n]| + 1
  }

  /** Nodes nearer than the queue's front have been seen, at no more than their distance. */
  lemma {:induction false} NearNodesSeen<N(!new), E(!new)>(net: Net<N, E>, start: N, t: Tree<N, E>, n: N, path: seq<E>)
    requires ValidNet(net) && Invariant(net, start, t) && IsPath(net, start, n, path)
    requires t.queue != [] ==> |path| <= |t.paths[t.queue[0]]|
    ensures n in t.paths && |t.paths[n]| <= |path|
    decreases |path|
  {
    if path != [] {
      var last := path[|path| - 1];
      var m := net.source(last);
      NearNodesSeen(net, start, t, m, path[..|path| - 1]);
      assert forall i :: 0 <= i < |t.queue| ==> |t.paths[t.queue[0]]| <= |t.paths[t.queue[i]]|;
      assert Expanded(net, t, m);
      var k :| 0 <= k < |net.steps(m)| && net.steps(m)[k] == (n, last);
    }
  }

  lemma {:induction false} FreshPaths<N(!new), E(!new)>(net: Net<N, E>, start: N, current: N, t: Tree<N, E>,
          u: Tree<N, E>)
    requires ValidNet(net) && current in t.paths && t.paths.Keys <= net.nodes
    requires forall n :: n in t.paths ==> IsPath(net, start, n, t.paths[n])
    requires Extends(t, u) && FreshFrom(net.steps(current), t.paths[current], t, u)
    ensures u.paths.Keys <= net.nodes && forall n :: n in u.paths ==> IsPath(net, start, n, u.paths[n])
    ensures forall n :: n in u.paths && n !in t.paths ==> |u.paths[n]| == |t.paths[current]| + 1
  {
    forall n | n in u.paths && n !in t.paths
      ensures n in net.nodes && IsPath(net, start, n, u.paths[n]) && |u.paths[n]| == |t.paths[current]| + 1
    {
      var path := u.paths[n];
      var last := path[|path| - 1];
      assert path[..|path| - 1] == t.paths[current];
      var k :| 0 <= k < |net.steps(current)| && net.steps(current)[k] == (n, last);
      assert net.source(net.steps(current)[k].1) == current;
    }
  }

  /** Take the front of the queue and expand it. */
  function Expand<N(==), E>(net: Net<N, E>, goal: N, t: Tree<N, E>): (bool, Tree<N, E>)
    requires t.queue != [] && t.queue[0] in t.paths
  {
    Scan(net.steps(t.queue[0]), t.paths[t.queue[0]], goal, t.(queue := t.queue[1..]))
  }

  /** A bound on the expansions still to come: unseen nodes plus queued nodes. */
  ghost function Remaining<N, E>(net: Net<N, E>, t: Tree<N, E>): int {
    |net.nodes| - |t.paths| + |t.queue|
  }

  lemma {:induction false} RemainingNotNegative<N(!new), E(!new)>(net: Net<N, E>, t: Tree<N, E>)
    requires t.paths.Keys <= net.nodes
    ensures Remaining(net, t) >= 0
  {
    var rest := net.nodes - t.paths.Keys;
    assert net.nodes == rest + t.paths.Keys && |net.nodes| == |rest| + |t.paths.Keys|;
  }

  /** After an expansion the queue is still ordered by distance and spans at most two distances. */
  lemma {:induction false} QueueStaysOrdered<N(!new), E(!new)>(net: Net<N, E>, start: N, t: Tree<N, E>, u: Tree<N, E>)
    requires Invariant(net, start, t) && t.queue != [] && Extends(t.(queue := t.queue[1..]), u)
    requires forall n :: n in u.paths && n !in t.paths ==> |u.paths[n]| == |t.paths[t.queue[0]]| + 1
    requires Appended(t.(queue := t.queue[1..]), u)
    ensures forall n :: n in u.queue ==> n in u.paths
    ensures forall i :: 0 <= i < |u.queue| ==>
              |t.paths[t.queue[0]]| <= |u.paths[u.queue[i]]| <= |t.paths[t.queue[0]]| + 1
    ensures forall i, j :: 0 <= i <= j < |u.queue| ==> |u.paths[u.queue[i]]| <= |u.paths[u.queue[j]]|
                                                    <= |u.paths[u.queue[0]]| + 1
  {
    var front := |t.paths[t.queue[0]]|;
    forall i | 0 <= i < |t.queue| - 1
      ensures u.queue[i] == t.queue[i + 1] && u.queue[i] in u.paths && front <= |u.paths[u.queue[i]]| <= front + 1
    {
      assert u.queue[i] == t.queue[1..][i];
      assert t.queue[i + 1] in t.queue;
    }
    forall i | |t.queue| - 1 <= i < |u.queue| ensures u.queue[i] in u.paths && |u.paths[u.queue[i]]| == front + 1 {
      assert QueuedNew(t.(queue := t.queue[1..]), u, i);
    }
  }

  /** What an expansion that misses the goal does to the tree, without its code. */
  ghost predicate Grows<N(!new), E(!new)>(net: Net<N, E>, t: Tree<N, E>, u: Tree<N, E>)
    requires t.queue != [] && t.queue[0] in t.paths
  {
    && Extends(t.(queue := t.queue[1..]), u)
    && u.paths.Keys <= net.nodes
    && (forall n :: n in u.paths && n !in t.paths ==> n in u.queue && |u.paths[n]| == |t.paths[t.queue[0]]| + 1)
    && Appended(t.(queue := t.queue[1..]), u)
    && (forall k :: 0 <= k < |net.steps(t.queue[0])| ==> net.steps(t.queue[0])[k].0 in u.paths)
  }

  lemma {:induction false} ExpandGrows<N(!new), E(!new)>(net: Net<N, E>, start: N, goal: N, t: Tree<N, E>)
    requires ValidNet(net) && Invariant(net, start, t) && goal !in t.paths && t.queue != [] && t.queue[0] in t.paths
    requires !Expand(net, goal, t).0
    ensures Grows(net, t, Expand(net, goal, t).1) && goal !in Expand(net, goal, t).1.paths
    ensures forall n :: n in Expand(net, goal, t).1.paths ==> IsPath(net, start, n, Expand(net, goal, t).1.paths[n])
    ensures Remaining(net, Expand(net, goal, t).1) == Remaining(net, t) - 1
  {
    var current, t0 := t.queue[0], t.(queue := t.queue[1..]);
    var steps, base := net.steps(current), t.paths[current];
    ScanExtends(steps, base, goal, t0);
    ScanFresh(steps, base, goal, t0);
    ScanAppends(steps, base, goal, t0);
    ScanMisses(steps, base, goal, t0);
    FreshPaths(net, start, current, t0, Expand(net, goal, t).1);
  }

  lemma {:induction false} GrowthKeepsInvariant<N(!new), E(!new)>(net: Net<N, E>, start: N, t: Tree<N, E>,
          u: Tree<N, E>)
    requires Invariant(net, start, t) && t.queue != [] && t.queue[0] in t.paths && Grows(net, t, u)
    requires forall n :: n in u.paths ==> IsPath(net, start, n, u.paths[n])
    ensures Invariant(net, start, u)
  {
    var current := t.queue[0];
    QueueStaysOrdered(net, start, t, u);
    assert forall i :: 0 <= i < |t.queue| - 1 ==> t.queue[1..][i] == u.queue[i];
    forall n | n in u.paths && n !in u.queue
      ensures Expanded(net, u, n) && |u.paths[n]| <= |t.paths[current]|
    {
      assert n in t.paths && n !in t.queue[1..];
      if n == current {
        CurrentExpanded(net, start, t, u);
      } else {
        assert n !in t.queue;
        StaysExpanded(net, t, u, n);
        assert |t.paths[n]| <= |t.paths[t.queue[0]]|;
      }
    }
  }

  lemma {:induction false} StaysExpanded<N(!new), E(!new)>(net: Net<N, E>, t: Tree<N, E>, u: Tree<N, E>, n: N)
    requires t.queue != [] && Extends(t.(queue := t.queue[1..]), u) && n in t.paths && Expanded(net, t, n)
    ensures n in u.paths && Expanded(net, u, n)
  {
  }

  lemma {:induction false} ExpandKeepsInvariant<N(!new), E(!new)>(net: Net<N, E>, start: N, goal: N, t: Tree<N, E>)
    requires ValidNet(net) && Invariant(net, start, t) && goal !in t.paths && t.queue != [] && t.queue[0] in t.paths
    requires !Expand(net, goal, t).0
    ensures Invariant(net, start, Expand(net, goal, t).1) && goal !in Expand(net, goal, t).1.paths
    ensures Remaining(net, Expand(net, goal, t).1) == Remaining(net, t) - 1
  {
    ExpandGrows(net, start, goal, t);
    GrowthKeepsInvariant(net, start, t, Expand(net, goal, t).1);
  }

  lemma {:induction false} CurrentExpanded<N(!new), E(!new)>(net: Net<N, E>, start: N, t: Tree<N, E>, u: Tree<N, E>)
    requires Invariant(net, start, t) && t.queue != [] && Extends(t.(queue := t.queue[1..]), u)
    requires forall n :: n in u.paths && n !in t.paths ==> |u.paths[n]| == |t.paths[t.queue[0]]| + 1
    requires forall k :: 0 <= k < |net.steps(t.queue[0])| ==> net.steps(t.queue[0])[k].0 in u.paths
    ensures t.queue[0] in u.paths && Expanded(net, u, t.queue[0])
  {
    assert t.queue[0] in t.queue;
    forall n | n in t.paths ensures |u.paths[n]| <= |t.paths[t.queue[0]]| + 1 {
      if n in t.queue {
        var i :| 0 <= i < |t.queue| && t.queue[i] == n;
      }
    }
  }

  // ---- the search ----

  /** Search from the state `t` until the goal is found or the queue runs out. */
  function SearchFrom<N(!new), E(!new)>(net: Net<N, E>, ghost start: N, goal: N, t: Tree<N, E>): Option<seq<E>>
    requires ValidNet(net) && Invariant(net, start, t) && goal !in t.paths
    decreases Remaining(net, t)
  {
    RemainingNotNegative(net, t);
    if t.queue == [] then None else
      assert t.queue[0] in t.queue;
      var (found, u) := Expand(net, goal, t);
      if found then
        ScanFinds(net.steps(t.queue[0]), t.paths[t.queue[0]], goal, t.(queue := t.queue[1..]));
        Some(u.paths[goal])
      else
        ExpandKeepsInvariant(net, start, goal, t);
        SearchFrom(net, start, goal, u)
  }

  /** One turn of the search loop. */
  lemma {:induction false} SearchTurn<N(!new), E(!new)>(net: Net<N, E>, start: N, goal: N, t: Tree<N, E>)
    requires ValidNet(net) && Invariant(net, start, t) && goal !in t.paths && t.queue != []
    ensures t.queue[0] in t.paths && Remaining(net, t) >= 0
    ensures var (found, u) := Expand(net, goal, t);
            && (found ==> goal in u.paths && SearchFrom(net, start, goal, t) == Some(u.paths[goal]))
            && (!found ==> Invariant(net, start, u) && goal !in u.paths && Remaining(net, u) == Remaining(net, t) - 1
                           && SearchFrom(net, start, goal, t) == SearchFrom(net, start, goal, u))
  {
    assert t.queue[0] in t.queue;
    RemainingNotNegative(net, t);
    if Expand(net, goal, t).0 {
      ScanFinds(net.steps(t.queue[0]), t.paths[t.queue[0]], goal, t.(queue := t.queue[1..]));
    } else {
      ExpandKeepsInvariant(net, start, goal, t);
      RemainingNotNegative(net, Expand(net, goal, t).1);
    }
  }

  lemma {:induction false} StartTreeInvariant<N(!new), E(!new)>(net: Net<N, E>, start: N)
    requires start in net.nodes
    ensures Invariant(net, start, StartTree(start))
  {
  }

  function StartTree<N, E>(start: N): Tree<N, E> {
    Tree([start], map[start := []])
  }

  /** Breadth-first search. */
  function Bfs<N(!new), E(!new)>(net: Net<N, E>, start: N, goal: N): Option<seq<E>>
    requires ValidNet(net) && start in net.nodes
  {
    if start == goal then Some([]) else SearchFrom(net, start, goal, StartTree(start))
  }

  ghost predicate ShortestPath<N(!new), E(!new)>(net: Net<N, E>, start: N, goal: N, path: seq<E>) {
    IsPath(net, start, goal, path) && forall other :: IsPath(net, start, goal, other) ==> |path| <= |other|
  }

  lemma {:induction false} SearchCorrect<N(!new), E(!new)>(net: Net<N, E>, start: N, goal: N, t: Tree<N, E>)
    requires ValidNet(net) && Invariant(net, start, t) && goal !in t.paths
    ensures var r := SearchFrom(net, start, goal, t);
            && (r.Some? ==> ShortestPath(net, start, goal, r.value))
            && (r.None? ==> forall path :: !IsPath(net, start, goal, path))
    decreases Remaining(net, t)
  {
    RemainingNotNegative(net, t);
    if t.queue == [] {
      forall path | IsPath(net, start, goal, path) ensures false {
        NearNodesSeen(net, start, t, goal, path);
      }
    } else {
      assert t.queue[0] in t.queue;
      var (found, u) := Expand(net, goal, t);
      if found {
        FoundIsShortest(net, start, goal, t);
      } else {
        ExpandKeepsInvariant(net, start, goal, t);
        SearchCorrect(net, start, goal, u);
      }
    }
  }

  lemma {:induction false} FoundIsShortest<N(!new), E(!new)>(net: Net<N, E>, start: N, goal: N, t: Tree<N, E>)
    requires ValidNet(net) && Invariant(net, start, t) && goal !in t.paths && t.queue != [] && t.queue[0] in t.paths
    requires Expand(net, goal, t).0
    ensures goal in Expand(net, goal, t).1.paths
    ensures ShortestPath(net, start, goal, Expand(net, goal, t).1.paths[goal])
  {
    var current, t0 := t.queue[0], t.(queue := t.queue[1..]);
    var steps, base := net.steps(current), t.paths[current];
    ScanExtends(steps, base, goal, t0);
    ScanFresh(steps, base, goal, t0);
    ScanFinds(steps, base, goal, t0);
    FreshPaths(net, start, current, t0, Expand(net, goal, t).1);
    forall other | IsPath(net, start, goal, other) ensures |other| > |base| {
      if |other| <= |base| {
        NearNodesSeen(net, start, t, goal, other);
      }
    }
  }

  /** Breadth-first search finds a shortest path, and finds nothing only when there is no path. */
  lemma {:induction false} BfsCorrect<N(!new), E(!new)>(net: Net<N, E>, start: N, goal: N)
    requires ValidNet(net) && start in net.nodes
    ensures var r := Bfs(net, start, goal);
            && (r.Some? ==> ShortestPath(net, start, goal, r.value))
            && (r.None? ==> forall path :: !IsPath(net, start, goal, path))
  {
    if start == goal {
      assert IsPath(net, start, goal, []);
    } else {
      SearchCorrect(net, start, goal, StartTree(start));
    }
  }

  // ---- the loops that run it ----

  /** `predecessor` records, for each discovered node but the start, the last edge of its tree path. */
  ghost predicate Records<N(!new), E(!new)>(source: E -> N, start: N, paths: map<N, seq<E>>, predecessor: map<N, E>) {
    && start in paths && paths[start] == []
    && forall n :: n in paths && n != start ==>
         n in predecessor && source(predecessor[n]) in paths &&
         paths[n] == paths[source(predecessor[n])] + [predecessor[n]]
  }

  lemma {:induction false} RecordsGrow<N(!new), E(!new)>(source: E -> N, start: N, paths: map<N, seq<E>>,
          predecessor: map<N, E>, n: N, edge: E)
    requires n !in paths && source(edge) in paths && n in predecessor && predecessor[n] == edge
    requires Records(source, start, paths, predecessor)
    ensures Records(source, start, paths[n := paths[source(edge)] + [edge]], predecessor)
  {
  }

  /** `_reconstruct`: follow the predecessors back from the goal. */
  method Reconstruct<N(!new, ==), E(!new)>(source: E -> N, start: N, goal: N, predecessor: map<N, E>,
          ghost paths: map<N, seq<E>>)
    returns (path: seq<E>)
    requires Records(source, start, paths, predecessor) && goal in paths
    ensures path == paths[goal]
  {
    path := [];
    var current := goal;
    while current != start
      invariant current in paths && paths[goal] == paths[current] + path
      decreases |paths[current]|
    {
      var edge := predecessor[current];
      assert paths[current] == paths[source(edge)] + [edge];
      Reassociate(paths[source(edge)], [edge], path);
      path := [edge] + path;
      current := source(edge);
    }
  }

  /** The inner loop: discover the targets of one node's candidate steps, in order. */
  method ExpandNode<N(!new, ==), E(!new)>(
    steps: seq<(N, E)>, source: E -> N, goal: N, ghost start: N, ghost current: N,
    queue0: seq<N>, seen0: set<N>, predecessor0: map<N, E>, ghost t: Tree<N, E>)
    returns (found: bool, queue: seq<N>, seen: set<N>, predecessor: map<N, E>)
    requires t.queue == queue0 && t.paths.Keys == seen0 && Records(source, start, t.paths, predecessor0)
    requires current in t.paths && goal !in t.paths
    requires forall k :: 0 <= k < |steps| ==> source(steps[k].1) == current
    ensures var (f, u) := Scan(steps, t.paths[current], goal, t);
            && found == f && Records(source, start, u.paths, predecessor)
            && (!found ==> u.queue == queue && u.paths.Keys == seen)
  {
    queue, seen, predecessor := queue0, seen0, predecessor0;
    ghost var u := t;
    ghost var base := t.paths[current];
    for k := 0 to |steps|
      invariant u.queue == queue && u.paths.Keys == seen && Records(source, start, u.paths, predecessor)
      invariant current in u.paths && u.paths[current] == base && goal !in u.paths
      invariant Scan(steps[k..], base, goal, u) == Scan(steps, base, goal, t)
    {
      var (next, edge) := steps[k];
      assert steps[k..][1..] == steps[k + 1..] && steps[k..][0] == steps[k];
      if next !in seen {
        seen := seen + {next};
        predecessor := predecessor[next := edge];
        RecordsGrow(source, start, u.paths, predecessor, next, edge);
        u := u.(paths := u.paths[next := base + [edge]]);
        if next == goal {
          return true, queue, seen, predecessor;
        }
        queue := queue + [next];
        u := u.(queue := queue);
      }
    }
    return false, queue, seen, predecessor;
  }

  /** The search loop shared by the backends: a queue, a seen set and a predecessor map. */
  method RunSearch<N(!new, ==), E(!new)>(net: Net<N, E>, start: N, goal: N) returns (r: Option<seq<E>>)
    requires ValidNet(net) && start in net.nodes
    ensures r == Bfs(net, start, goal)
  {
    if start == goal { return Some([]); }
    var queue, seen, predecessor := [start], {start}, map[];
    ghost var t := StartTree(start);
    StartTreeInvariant(net, start);
    while queue != []
      invariant Invariant(net, start, t) && goal !in t.paths
      invariant t.queue == queue && t.paths.Keys == seen && Records(net.source, start, t.paths, predecessor)
      invariant SearchFrom(net, start, goal, t) == Bfs(net, start, goal)
      decreases Remaining(net, t)
    {
      SearchTurn(net, start, goal, t);
      var current := queue[0];
      StepsLeaveCurrent(net, start, t);
      var found;
      found, queue, seen, predecessor :=
        ExpandNode(net.steps(current), net.source, goal, start, current, queue[1..], seen, predecessor,
            t.(queue := queue[1..]));
      t := Expand(net, goal, t).1;
      if found {
        var path := Reconstruct(net.source, start, goal, predecessor, t.paths);
        return Some(path);
      }
    }
    return None;
  }

  lemma {:induction false} StepsLeaveCurrent<N(!new), E(!new)>(net: Net<N, E>, start: N, t: Tree<N, E>)
    requires ValidNet(net) && Invariant(net, start, t) && t.queue != []
    ensures forall k :: 0 <= k < |net.steps(t.queue[0])| ==> net.source(net.steps(t.queue[0])[k].1) == t.queue[0]
  {
    assert t.queue[0] in t.queue;
  }

  // ---- two networks that offer the same first step to each target ----

  function Others<N(==), E>(steps: seq<(N, E)>, n: N): (r: seq<(N, E)>)
    ensures |r| <= |steps|
  {
    if steps == [] then [] else
      (if steps[0].0 == n then [] else [steps[0]]) + Others(steps[1..], n)
  }

  /** The steps that reach a target for the first time. */
  function FirstSteps<N(==), E>(steps: seq<(N, E)>): seq<(N, E)>
    decreases |steps|
  {
    if steps == [] then [] else [steps[0]] + FirstSteps(Others(steps[1..], steps[0].0))
  }

  lemma {:induction false} ScanSkipsSeen<N(!new), E(!new)>(steps: seq<(N, E)>, base: seq<E>, goal: N, t: Tree<N, E>,
          n: N)
    requires n in t.paths
    ensures Scan(steps, base, goal, t) == Scan(Others(steps, n), base, goal, t)
    decreases |steps|
  {
    if steps != [] {
      var (m, e) := steps[0];
      var rest := Others(steps[1..], n);
      if m in t.paths {
        ScanSkipsSeen(steps[1..], base, goal, t, n);
        assert m != n ==> ([steps[0]] + rest)[1..] == rest;
        assert m == n ==> [] + rest == rest;
      } else if m != goal {
        ScanSkipsSeen(steps[1..], base, goal, Tree(t.queue + [m], t.paths[m := base + [e]]), n);
        assert ([steps[0]] + rest)[1..] == rest;
      }
    }
  }

  lemma {:induction false} ScanFirstSteps<N(!new), E(!new)>(steps: seq<(N, E)>, base: seq<E>, goal: N, t: Tree<N, E>)
    ensures Scan(steps, base, goal, t) == Scan(FirstSteps(steps), base, goal, t)
    decreases |steps|
  {
    if steps != [] {
      var (n, e) := steps[0];
      var rest := Others(steps[1..], n);
      assert ([steps[0]] + FirstSteps(rest))[1..] == FirstSteps(rest);
      if n in t.paths {
        ScanSkipsSeen(steps[1..], base, goal, t, n);
        ScanFirstSteps(rest, base, goal, t);
      } else if n != goal {
        var t' := Tree(t.queue + [n], t.paths[n := base + [e]]);
        ScanSkipsSeen(steps[1..], base, goal, t', n);
        ScanFirstSteps(rest, base, goal, t');
      }
    }
  }

  ghost predicate Renames<N(!new), M(!new), E(!new)>(f: N -> M, a: seq<(N, E)>, b: seq<(M, E)>) {
    |a| == |b| && forall k :: 0 <= k < |a| ==> b[k] == (f(a[k].0), a[k].1)
  }

  ghost predicate InjectiveOn<N(!new), M(!new)>(f: N -> M, nodes: set<N>) {
    forall a, b :: a in nodes && b in nodes && f(a) == f(b) ==> a == b
  }

  /** `u` is the state `t` with its nodes renamed by `f`. */
  ghost predicate SameTree<N(!new), M(!new), E(!new)>(f: N -> M, nodes: set<N>, t: Tree<N, E>, u: Tree<M, E>) {
    && |t.queue| == |u.queue| && (forall k :: 0 <= k < |t.queue| ==> u.queue[k] == f(t.queue[k]))
    && (forall n :: n in nodes ==> (n in t.paths <==> f(n) in u.paths))
    && (forall n :: n in nodes && n in t.paths ==> u.paths[f(n)] == t.paths[n])
  }

  lemma {:induction false} ScanRenamed<N(!new), M(!new), E(!new)>(
    f: N -> M, nodes: set<N>, a: seq<(N, E)>, b: seq<(M, E)>, base: seq<E>, goal: N, t: Tree<N, E>, u: Tree<M, E>)
    requires InjectiveOn(f, nodes) && Renames(f, a, b) && SameTree(f, nodes, t, u) && goal in nodes
    requires forall k :: 0 <= k < |a| ==> a[k].0 in nodes
    ensures Scan(a, base, goal, t).0 == Scan(b, base, f(goal), u).0
    ensures SameTree(f, nodes, Scan(a, base, goal, t).1, Scan(b, base, f(goal), u).1)
    decreases |a|
  {
    if a != [] {
      var (n, e) := a[0];
      assert b[0] == (f(n), e);
      if n in t.paths {
        ScanRenamed(f, nodes, a[1..], b[1..], base, goal, t, u);
      } else if n != goal {
        ScanRenamed(f, nodes, a[1..], b[1..], base, goal, Tree(t.queue + [n], t.paths[n := base + [e]]),
                    Tree(u.queue + [f(n)], u.paths[f(n) := base + [e]]));
      }
    }
  }

  /** `b` offers, under the renaming, the same first step to each target as `a`. */
  ghost predicate Simulates<N(!new), M(!new), E(!new)>(f: N -> M, a: Net<N, E>, b: Net<M, E>) {
    && InjectiveOn(f, a.nodes)
    && (forall n :: n in a.nodes ==> f(n) in b.nodes)
    && (forall n :: n in a.nodes ==> Renames(f, FirstSteps(a.steps(n)), FirstSteps(b.steps(f(n)))))
  }

  lemma {:induction false} FirstStepsStay<N(!new), E(!new)>(steps: seq<(N, E)>, nodes: set<N>)
    requires forall k :: 0 <= k < |steps| ==> steps[k].0 in nodes
    ensures forall k :: 0 <= k < |FirstSteps(steps)| ==> FirstSteps(steps)[k].0 in nodes
    decreases |steps|
  {
    if steps != [] {
      OthersStay(steps[1..], steps[0].0, nodes);
      FirstStepsStay(Others(steps[1..], steps[0].0), nodes);
    }
  }

  lemma {:induction false} OthersStay<N(!new), E(!new)>(steps: seq<(N, E)>, n: N, nodes: set<N>)
    requires forall k :: 0 <= k < |steps| ==> steps[k].0 in nodes
    ensures forall k :: 0 <= k < |Others(steps, n)| ==> Others(steps, n)[k].0 in nodes
    decreases |steps|
  {
    if steps != [] {
      OthersStay(steps[1..], n, nodes);
    }
  }

  lemma {:induction false} SearchRenamed<N(!new), M(!new), E(!new)>(
    f: N -> M, a: Net<N, E>, b: Net<M, E>, start: N, goal: N, t: Tree<N, E>, u: Tree<M, E>)
    requires ValidNet(a) && ValidNet(b) && Simulates(f, a, b) && SameTree(f, a.nodes, t, u)
    requires goal in a.nodes && Invariant(a, start, t) && Invariant(b, f(start), u)
    requires goal !in t.paths && f(goal) !in u.paths
    ensures SearchFrom(a, start, goal, t) == SearchFrom(b, f(start), f(goal), u)
    decreases Remaining(a, t)
  {
    RemainingNotNegative(a, t);
    if t.queue != [] {
      var n := t.queue[0];
      assert n in t.queue && u.queue[0] == f(n) && u.queue[0] in u.queue;
      var sa, sb, base := a.steps(n), b.steps(f(n)), t.paths[n];
      var t0, u0 := t.(queue := t.queue[1..]), u.(queue := u.queue[1..]);
      ScanFirstSteps(sa, base, goal, t0);
      ScanFirstSteps(sb, base, f(goal), u0);
      FirstStepsStay(sa, a.nodes);
      ScanRenamed(f, a.nodes, FirstSteps(sa), FirstSteps(sb), base, goal, t0, u0);
      if Expand(a, goal, t).0 {
        ScanFinds(sa, base, goal, t0);
      } else {
        ExpandKeepsInvariant(a, start, goal, t);
        ExpandKeepsInvariant(b, f(start), f(goal), u);
        SearchRenamed(f, a, b, start, goal, Expand(a, goal, t).1, Expand(b, f(goal), u).1);
      }
    }
  }

  /** Networks with the same first steps yield the same path, edge for edge. */
  lemma {:induction false} SameFirstStepsSamePath<N(!new), M(!new), E(!new)>(f: N -> M, a: Net<N, E>, b: Net<M, E>,
          start: N, goal: N)
    requires ValidNet(a) && ValidNet(b) && Simulates(f, a, b) && start in a.nodes && goal in a.nodes
    ensures Bfs(a, start, goal) == Bfs(b, f(start), f(goal))
  {
    if start != goal {
      SearchRenamed(f, a, b, start, goal, StartTree(start), StartTree(f(start)));
    }
  }
}

/** The layered proximity graph: what insertion keeps, and what a search returns. */
module Hnsw {

  datatype Node<V> = Node(name: string, vec: V, links: seq<seq<nat>>, deleted: bool)

  // ---------------------------------------------------------------------------
  // Priority queues, as sorted sequences
  // ---------------------------------------------------------------------------

  /** A node at a distance. Distances stand for their rank among the floats that are not NaN. */
  datatype Item = Item(dist: int, id: nat)

  predicate Closer(a: Item, b: Item) {
    a.dist < b.dist || (a.dist == b.dist && a.id < b.id)
  }

  ghost predicate Queue(s: seq<Item>) {
    forall i, j :: 0 <= i < j < |s| ==> Closer(s[i], s[j])
  }

  function Place(s: seq<Item>, it: Item): (p: nat)
    ensures p <= |s|
  {
    if s == [] || !Closer(s[0], it) then 0 else 1 + Place(s[1..], it)
  }

  function Pushed(s: seq<Item>, it: Item): (r: seq<Item>)
    ensures |r| == |s| + 1
  {
    s[..Place(s, it)] + [it] + s[Place(s, it)..]
  }

  lemma {:induction false} PlaceSplits(s: seq<Item>, it: Item)
    requires Queue(s)
    ensures forall i :: 0 <= i < |s| ==> (Closer(s[i], it) <==> i < Place(s, it))
  {
    if s != [] && Closer(s[0], it) {
      PlaceSplits(s[1..], it);
      assert forall i :: 0 < i < |s| ==> s[i] == s[1..][i - 1];
    }
  }

  lemma PushedOk(s: seq<Item>, it: Item)
    requires Queue(s) && it !in s
    ensures Queue(Pushed(s, it)) && forall x :: x in Pushed(s, it) <==> x in s || x == it
    ensures s != [] ==> Pushed(s, it)[0] == if Closer(it, s[0]) then it else s[0]
  {
    PlaceSplits(s, it);
    SplitPush(s, Place(s, it), it);
  }

  lemma SplitPush(s: seq<Item>, p: nat, it: Item)
    requires Queue(s) && p <= |s| && it !in s && forall i :: 0 <= i < |s| ==> (Closer(s[i], it) <==> i < p)
    ensures var r := s[..p] + [it] + s[p..];
      Queue(r) && forall x :: x in r <==> x in s || x == it
  {
    var r := s[..p] + [it] + s[p..];
    assert s == s[..p] + s[p..];
    forall i, j | 0 <= i < j < |r|
      ensures Closer(r[i], r[j])
    {
      var a, b := if i < p then i else i - 1, if j < p then j else j - 1;
      assert i != p ==> r[i] == s[a];
      assert j != p ==> r[j] == s[b];
    }
  }

  lemma ButLastOk(s: seq<Item>)
    requires Queue(s) && |s| > 1
    ensures Queue(s[..|s| - 1]) && s[..|s| - 1][0] == s[0]
    ensures forall x :: x in s[..|s| - 1] <==> x in s && x != s[|s| - 1]
  {
  }

  // ---------------------------------------------------------------------------
  // The graph
  // ---------------------------------------------------------------------------

  function Level<V>(nodes: seq<Node<V>>, x: nat): int
    requires x < |nodes|
  {
    |nodes[x].links| - 1
  }

  function LinksAt<V>(nodes: seq<Node<V>>, x: nat, level: nat): seq<nat>
    requires x < |nodes|
  {
    if level < |nodes[x].links| then nodes[x].links[level] else []
  }

  /** The most links a node may keep: at least one, even when configured with none. */
  function Degree(m: nat, level: nat): nat {
    var most := if level == 0 then 2 * m else m;
    if most == 0 then 1 else most
  }

  ghost predicate NoRepeats(s: seq<nat>) {
    forall i, j :: 0 <= i < j < |s| ==> s[i] != s[j]
  }

  /** A node's links at one level: other nodes that reach the level, each once, and not too many. */
  ghost predicate ListOk<V>(nodes: seq<Node<V>>, m: nat, x: nat, level: nat, list: seq<nat>) {
    && |list| <= Degree(m, level) && NoRepeats(list)
    && forall i :: 0 <= i < |list| ==> list[i] < |nodes| && list[i] != x && level <= Level(nodes, list[i])
  }

  ghost predicate GraphOk<V>(nodes: seq<Node<V>>, m: nat) {
    && (forall x :: 0 <= x < |nodes| ==> |nodes[x].links| > 0)
    && forall x, l :: 0 <= x < |nodes| && 0 <= l < |nodes[x].links| ==> ListOk(nodes, m, x, l, nodes[x].links[l])
  }

  /** A set of nodes that no link at this level leaves. */
  ghost predicate Closed<V>(nodes: seq<Node<V>>, level: nat, s: set<nat>) {
    forall x, i :: x in s && x < |nodes| && 0 <= i < |LinksAt(nodes, x, level)| ==> LinksAt(nodes, x, level)[i] in s
  }

  // ---------------------------------------------------------------------------
  // Searching one layer
  // ---------------------------------------------------------------------------

  function Max(a: nat, b: nat): nat {
    if a < b then b else a
  }

  datatype Frontier = Frontier(visited: set<nat>, candidates: seq<Item>, results: seq<Item>)

  function ItemOf<V>(nodes: seq<Node<V>>, dq: V -> int, x: nat): Item
    requires x < |nodes|
  {
    Item(dq(nodes[x].vec), x)
  }

  /** The items of a queue are visited nodes at their true distances. */
  ghost predicate ItemsOk<V>(nodes: seq<Node<V>>, dq: V -> int, visited: set<nat>, s: seq<Item>) {
    Queue(s) && forall it :: it in s ==> it.id in visited && it.id < |nodes| && it == ItemOf(nodes, dq, it.id)
  }

  /** The best of the visited nodes is known; with room for `n` of them, so are they all. */
  ghost predicate FrontierOk<V>(nodes: seq<Node<V>>, dq: V -> int, ef: nat, n: nat, f: Frontier) {
    && (forall x :: x in f.visited ==> x < |nodes|)
    && ItemsOk(nodes, dq, f.visited, f.candidates) && ItemsOk(nodes, dq, f.visited, f.results)
    && 0 < |f.results| <= Max(ef, 1)
    && (forall x :: x in f.visited ==> f.results[0].dist <= dq(nodes[x].vec))
    && (ef >= n ==> forall x :: x in f.visited ==> ItemOf(nodes, dq, x) in f.results)
  }

  /** Meeting an unvisited neighbour. */
  function Visit(f: Frontier, it: Item, ef: nat): Frontier
    requires f.results != []
  {
    var visited := f.visited + {it.id};
    if |f.results| < ef || it.dist < f.results[|f.results| - 1].dist then
      var grown := Pushed(f.results, it);
      Frontier(visited, Pushed(f.candidates, it), if |grown| > ef then grown[..|grown| - 1] else grown)
    else Frontier(visited, f.candidates, f.results)
  }

  lemma {:induction false} VisitedCount(visited: set<nat>, n: nat)
    requires forall x :: x in visited ==> x < n
    ensures |visited| <= n
  {
    if n > 0 {
      if n - 1 in visited {
        VisitedCount(visited - {n - 1}, n - 1);
      } else {
        VisitedCount(visited, n - 1);
      }
    } else {
      assert visited == {};
    }
  }

  /** The results are visited nodes, so there are no more of them. */
  lemma {:induction false} ResultsCount<V>(nodes: seq<Node<V>>, dq: V -> int, visited: set<nat>, s: seq<Item>)
    requires ItemsOk(nodes, dq, visited, s)
    ensures |s| <= |visited|
    decreases |s|
  {
    if s != [] {
      var last := |s| - 1;
      forall it | it in s[..last]
        ensures it.id in visited - {s[last].id}
      {
        var i :| 0 <= i < last && s[i] == it;
        assert Closer(s[i], s[last]);
      }
      ResultsCount(nodes, dq, visited - {s[last].id}, s[..last]);
    }
  }

  lemma PushKeeps<V>(nodes: seq<Node<V>>, dq: V -> int, visited: set<nat>, s: seq<Item>, x: nat)
    requires ItemsOk(nodes, dq, visited, s) && x < |nodes| && x !in visited
    ensures ItemOf(nodes, dq, x) !in s
    ensures ItemsOk(nodes, dq, visited + {x}, Pushed(s, ItemOf(nodes, dq, x)))
  {
    PushedOk(s, ItemOf(nodes, dq, x));
  }

  lemma VisitKeeps<V>(nodes: seq<Node<V>>, dq: V -> int, ef: nat, n: nat, f: Frontier, x: nat)
    requires FrontierOk(nodes, dq, ef, n, f) && x < |nodes| && x !in f.visited && |f.visited + {x}| <= n
    ensures var it := ItemOf(nodes, dq, x);
      var f' := Visit(f, it, ef);
      && FrontierOk(nodes, dq, ef, n, f') && f'.visited == f.visited + {x}
      && (forall c :: c in f.candidates ==> c in f'.candidates)
      && (f'.results[0] == f.results[0] || (f'.results[0] == it && it in f'.candidates))
      && (ef >= n ==> it in f'.candidates)
  {
    var it := ItemOf(nodes, dq, x);
    var f' := Visit(f, it, ef);
    PushKeeps(nodes, dq, f.visited, f.results, x);
    PushKeeps(nodes, dq, f.visited, f.candidates, x);
    PushedOk(f.results, it);
    PushedOk(f.candidates, it);
    if ef >= n {
      ResultsCount(nodes, dq, f.visited, f.results);
      assert |f.visited + {x}| == |f.visited| + 1;
    }
    var grown := Pushed(f.results, it);
    if |grown| > ef && |grown| > 1 {
      ButLastOk(grown);
    }
  }

  /** Nodes that have been expanded have all their neighbours visited; in a search with room for all, so will the
      rest. */
  ghost predicate Progress<V>(nodes: seq<Node<V>>, dq: V -> int, ef: nat, n: nat, level: nat, f: Frontier,
      expanded: set<nat>) {
    && expanded <= f.visited
    && (forall x, i :: x in expanded && x < |nodes| && 0 <= i < |LinksAt(nodes, x, level)| ==>
          LinksAt(nodes, x, level)[i] in f.visited)
    && (f.results != [] ==> f.results[0].id in expanded || f.results[0] in f.candidates)
    && (ef >= n ==> forall x :: x in f.visited && x < |nodes| ==>
      x in expanded || ItemOf(nodes, dq, x) in f.candidates)
  }

  /** Everything visited is at the level, if the entry is, and in every closed set that holds the entry. */
  ghost predicate Confined<V>(nodes: seq<Node<V>>, entry: nat, level: nat, visited: set<nat>)
    requires entry < |nodes|
  {
    && entry in visited
    && (level <= Level(nodes, entry) ==> forall x :: x in visited && x < |nodes| ==> level <= Level(nodes, x))
    && forall s: set<nat> :: entry in s && Closed(nodes, level, s) ==> visited <= s
  }

  lemma ConfinedGrows<V>(nodes: seq<Node<V>>, m: nat, entry: nat, level: nat, visited: set<nat>, cur: nat, i: nat)
    requires GraphOk(nodes, m) && entry < |nodes| && cur < |nodes| && cur in visited
    requires Confined(nodes, entry, level, visited)
    requires i < |LinksAt(nodes, cur, level)|
    ensures LinksAt(nodes, cur, level)[i] < |nodes|
    ensures Confined(nodes, entry, level, visited + {LinksAt(nodes, cur, level)[i]})
  {
    assert ListOk(nodes, m, cur, level, nodes[cur].links[level]);
  }

  lemma StartFrontier<V>(nodes: seq<Node<V>>, dq: V -> int, entry: nat, ef: nat, n: nat, level: nat)
    requires entry < |nodes|
    ensures var it := ItemOf(nodes, dq, entry);
      var f := Frontier({entry}, [it], [it]);
      FrontierOk(nodes, dq, ef, n, f) && Progress(nodes, dq, ef, n, level, f, {})
      && Confined(nodes, entry, level, {entry})
  {
  }

  /** A node is taken off the candidates and its neighbours up to the `k`th have been looked at. */
  ghost predicate Expanding<V>(nodes: seq<Node<V>>, dq: V -> int, ef: nat, n: nat, level: nat, f: Frontier,
      expanded: set<nat>, cur: nat, k: nat)
    requires cur < |nodes| && k <= |LinksAt(nodes, cur, level)|
  {
    && cur in f.visited && expanded <= f.visited
    && (forall x, i :: x in expanded && x < |nodes| && 0 <= i < |LinksAt(nodes, x, level)| ==>
          LinksAt(nodes, x, level)[i] in f.visited)
    && (forall i :: 0 <= i < k ==> LinksAt(nodes, cur, level)[i] in f.visited)
    && (f.results != [] ==> f.results[0].id in expanded || f.results[0].id == cur || f.results[0] in f.candidates)
    && (ef >= n ==> forall x :: x in f.visited && x < |nodes| ==>
          x in expanded || x == cur || ItemOf(nodes, dq, x) in f.candidates)
  }

  lemma TakeCandidate<V>(nodes: seq<Node<V>>, dq: V -> int, ef: nat, n: nat, level: nat, f: Frontier,
      expanded: set<nat>)
    requires FrontierOk(nodes, dq, ef, n, f) && Progress(nodes, dq, ef, n, level, f, expanded) && f.candidates != []
    ensures var f' := Frontier(f.visited, f.candidates[1..], f.results);
      var cur := f.candidates[0].id;
      && cur < |nodes| && cur in f.visited
      && FrontierOk(nodes, dq, ef, n, f') && Expanding(nodes, dq, ef, n, level, f', expanded, cur, 0)
  {
    assert f.candidates[0] in f.candidates;
    assert forall c :: c in f.candidates ==> c == f.candidates[0] || c in f.candidates[1..];
    assert forall c :: c in f.candidates[1..] ==> c in f.candidates;
  }

  lemma LookAtNeighbour<V>(nodes: seq<Node<V>>, dq: V -> int, ef: nat, n: nat, level: nat, f: Frontier,
      expanded: set<nat>, cur: nat, k: nat)
    requires FrontierOk(nodes, dq, ef, n, f) && cur < |nodes| && k < |LinksAt(nodes, cur, level)|
    requires Expanding(nodes, dq, ef, n, level, f, expanded, cur, k) && LinksAt(nodes, cur, level)[k] < |nodes|
    requires |f.visited + {LinksAt(nodes, cur, level)[k]}| <= n
    ensures var nb := LinksAt(nodes, cur, level)[k];
      var f' := if nb in f.visited then f else Visit(f, ItemOf(nodes, dq, nb), ef);
      FrontierOk(nodes, dq, ef, n, f') && Expanding(nodes, dq, ef, n, level, f', expanded, cur, k + 1)
      && f'.visited == f.visited + {nb}
  {
    var nb := LinksAt(nodes, cur, level)[k];
    if nb !in f.visited {
      VisitKeeps(nodes, dq, ef, n, f, nb);
      hide FrontierOk, Visit;
    } else {
      assert f.visited + {nb} == f.visited;
    }
  }

  lemma DoneExpanding<V>(nodes: seq<Node<V>>, dq: V -> int, ef: nat, n: nat, level: nat, f: Frontier,
      expanded: set<nat>, cur: nat)
    requires cur < |nodes| && Expanding(nodes, dq, ef, n, level, f, expanded, cur, |LinksAt(nodes, cur, level)|)
    ensures Progress(nodes, dq, ef, n, level, f, expanded + {cur})
  {
  }

  /** What a search of one layer promises about its answer. */
  ghost predicate Found<V>(nodes: seq<Node<V>>, dq: V -> int, entry: nat, ef: nat, level: nat, out: seq<nat>)
    requires entry < |nodes|
  {
    && 0 < |out| <= Max(ef, 1)
    && (forall i :: 0 <= i < |out| ==> out[i] < |nodes|)
    && (forall i, j :: 0 <= i < j < |out| ==> Closer(ItemOf(nodes, dq, out[i]), ItemOf(nodes, dq, out[j])))
    && (level <= Level(nodes, entry) ==> forall i :: 0 <= i < |out| ==> level <= Level(nodes, out[i]))
    && (forall s: set<nat> :: entry in s && Closed(nodes, level, s) ==> forall i :: 0 <= i < |out| ==> out[i] in s)
  }

  /** The first answer is no farther than the entry, and none of its neighbours is closer. */
  ghost predicate LocalBest<V>(nodes: seq<Node<V>>, dq: V -> int, entry: nat, level: nat, best: nat)
    requires entry < |nodes| && best < |nodes|
  {
    && dq(nodes[best].vec) <= dq(nodes[entry].vec)
    && forall i :: 0 <= i < |LinksAt(nodes, best, level)| ==>
      LinksAt(nodes, best, level)[i] < |nodes| ==>
      dq(nodes[best].vec) <= dq(nodes[LinksAt(nodes, best, level)[i]].vec)
  }

  ghost predicate Elements(s: set<nat>, list: seq<nat>) {
    forall x :: x in s <==> x in list
  }

  /** The answer holds every node that can be reached. */
  ghost predicate Complete<V>(nodes: seq<Node<V>>, entry: nat, level: nat, out: seq<nat>)
    requires entry < |nodes|
  {
    exists s: set<nat> :: entry in s && Closed(nodes, level, s) && Elements(s, out)
  }

  /** Links of this level lead from `entry` to `x`: every closed set that holds the one holds the other. */
  ghost predicate Reached<V>(nodes: seq<Node<V>>, level: nat, entry: nat, x: nat) {
    forall s: set<nat> :: entry in s && Closed(nodes, level, s) ==> x in s
  }

  ghost function ReachedSet<V>(nodes: seq<Node<V>>, level: nat, entry: nat): set<nat> {
    set x: nat | x < |nodes| && Reached(nodes, level, entry, x)
  }

  lemma FoundIsReached<V>(nodes: seq<Node<V>>, dq: V -> int, entry: nat, ef: nat, level: nat, out: seq<nat>)
    requires entry < |nodes| && Found(nodes, dq, entry, ef, level, out)
    ensures forall i :: 0 <= i < |out| ==> out[i] in ReachedSet(nodes, level, entry)
    ensures Complete(nodes, entry, level, out) ==> Elements(ReachedSet(nodes, level, entry), out)
  {
    if s: set<nat> :| entry in s && Closed(nodes, level, s) && Elements(s, out) {
      forall x | x in ReachedSet(nodes, level, entry)
        ensures x in out
      {
        assert Reached(nodes, level, entry, x);
        assert x in s;
      }
    }
  }

  /** A search visits no more nodes than can be reached. */
  lemma ConfinedCount<V>(nodes: seq<Node<V>>, m: nat, entry: nat, level: nat, visited: set<nat>)
    requires GraphOk(nodes, m) && entry < |nodes| && Confined(nodes, entry, level, visited)
    ensures |visited| <= |ReachedSet(nodes, level, entry)|
  {
    var reached := ReachedSet(nodes, level, entry);
    ReachedClosed(nodes, m, level, entry);
    assert visited <= reached;
    MoreVisited(visited, reached);
  }

  lemma ReachedClosed<V>(nodes: seq<Node<V>>, m: nat, level: nat, entry: nat)
    requires GraphOk(nodes, m) && entry < |nodes|
    ensures entry in ReachedSet(nodes, level, entry) && Closed(nodes, level, ReachedSet(nodes, level, entry))
  {
    var reached := ReachedSet(nodes, level, entry);
    forall x, i | x in reached && x < |nodes| && 0 <= i < |LinksAt(nodes, x, level)|
      ensures LinksAt(nodes, x, level)[i] in reached
    {
      assert ListOk(nodes, m, x, level, nodes[x].links[level]);
      forall s: set<nat> | entry in s && Closed(nodes, level, s)
        ensures LinksAt(nodes, x, level)[i] in s
      {
        assert Reached(nodes, level, entry, x);
      }
    }
  }

  /** No item of a queue is closer than its first, or farther than its last. */
  lemma QueueEnds(s: seq<Item>)
    requires Queue(s)
    ensures s != [] ==> forall it :: it in s ==> s[0].dist <= it.dist <= s[|s| - 1].dist
  {
  }

  lemma SearchEnds<V>(nodes: seq<Node<V>>, dq: V -> int, entry: nat, ef: nat, n: nat, level: nat, f: Frontier,
      expanded: set<nat>, out: seq<nat>)
    requires entry < |nodes| && FrontierOk(nodes, dq, ef, n, f) && Progress(nodes, dq, ef, n, level, f, expanded)
    requires Confined(nodes, entry, level, f.visited)
    requires f.candidates == [] || (|f.results| >= ef && f.candidates[0].dist > f.results[|f.results| - 1].dist)
    requires |out| == |f.results| && forall i :: 0 <= i < |out| ==> out[i] == f.results[i].id
    ensures Found(nodes, dq, entry, ef, level, out) && LocalBest(nodes, dq, entry, level, out[0])
    ensures ef >= n ==> Complete(nodes, entry, level, out)
  {
    var best := f.results[0];
    forall i | 0 <= i < |out|
      ensures out[i] < |nodes| && out[i] in f.visited && f.results[i] == ItemOf(nodes, dq, out[i])
    {
      assert f.results[i] in f.results;
    }
    assert best in f.results;
    QueueEnds(f.candidates);
    QueueEnds(f.results);
    assert f.candidates == [] || forall it :: it in f.results ==> it !in f.candidates;
    assert best.id in expanded;
    if ef >= n {
      forall x | x in f.visited
        ensures x in expanded && x in out
      {
        var it := ItemOf(nodes, dq, x);
        var i :| 0 <= i < |f.results| && f.results[i] == it;
        assert out[i] == x;
      }
      assert Closed(nodes, level, f.visited);
      assert Elements(f.visited, out);
    }
  }


  lemma VisitedBound<V>(nodes: seq<Node<V>>, dq: V -> int, ef: nat, n: nat, f: Frontier)
    requires FrontierOk(nodes, dq, ef, n, f)
    ensures |f.visited| <= |nodes| && f.results != []
  {
    VisitedCount(f.visited, |nodes|);
  }

  lemma MoreVisited(a: set<nat>, b: set<nat>)
    requires a <= b
    ensures |a| <= |b| && (|a| == |b| ==> a == b)
  {
    assert b == a + (b - a);
    assert |b - a| == 0 ==> b - a == {};
  }

  /** Looking at every neighbour of one node. */
  method Expand<V>(nodes: seq<Node<V>>, dq: V -> int, ghost m: nat, ghost entry: nat, ef: nat, level: nat,
      ghost n: nat, start: Frontier, ghost expanded: set<nat>, cur: nat) returns (f: Frontier)
    requires GraphOk(nodes, m) && entry < |nodes| && cur < |nodes|
    requires FrontierOk(nodes, dq, ef, n, start) && Expanding(nodes, dq, ef, n, level, start, expanded, cur, 0)
    requires Confined(nodes, entry, level, start.visited) && n == |ReachedSet(nodes, level, entry)|
    ensures FrontierOk(nodes, dq, ef, n, f)
    ensures Expanding(nodes, dq, ef, n, level, f, expanded, cur, |LinksAt(nodes, cur, level)|)
    ensures Confined(nodes, entry, level, f.visited) && start.visited <= f.visited
    ensures f.visited == start.visited ==> f == start
  {
    hide GraphOk, FrontierOk, Confined, Expanding, Visit, ReachedSet;
    f := start;
    var k := 0;
    var list := LinksAt(nodes, cur, level);
    while k < |list|
      invariant 0 <= k <= |list| && FrontierOk(nodes, dq, ef, n, f)
      invariant Expanding(nodes, dq, ef, n, level, f, expanded, cur, k) && Confined(nodes, entry, level, f.visited)
      invariant start.visited <= f.visited && (f.visited == start.visited ==> f == start)
    {
      CurVisited(nodes, dq, ef, n, level, f, expanded, cur, k);
      ConfinedGrows(nodes, m, entry, level, f.visited, cur, k);
      ConfinedCount(nodes, m, entry, level, f.visited + {list[k]});
      LookAtNeighbour(nodes, dq, ef, n, level, f, expanded, cur, k);
      VisitedBound(nodes, dq, ef, n, f);
      var nb := list[k];
      if nb !in f.visited {
        f := Visit(f, ItemOf(nodes, dq, nb), ef);
      }
      k := k + 1;
    }
  }

  lemma CurVisited<V>(nodes: seq<Node<V>>, dq: V -> int, ef: nat, n: nat, level: nat, f: Frontier, expanded: set<nat>,
      cur: nat, k: nat)
    requires cur < |nodes| && k <= |LinksAt(nodes, cur, level)|
    requires Expanding(nodes, dq, ef, n, level, f, expanded, cur, k)
    ensures cur in f.visited
  {
  }

  /** Greedy best-first expansion on one layer. */
  method SearchLayer<V>(nodes: seq<Node<V>>, dq: V -> int, ghost m: nat, entry: nat, ef: nat,
      level: nat) returns (out: seq<nat>)
    requires GraphOk(nodes, m) && entry < |nodes|
    ensures Found(nodes, dq, entry, ef, level, out) && LocalBest(nodes, dq, entry, level, out[0])
    ensures ef >= |ReachedSet(nodes, level, entry)| ==> Complete(nodes, entry, level, out)
  {
    hide GraphOk, FrontierOk, Progress, Confined, Expanding, Found, LocalBest, Complete, Visit, ReachedSet;
    ghost var n := |ReachedSet(nodes, level, entry)|;
    var d0 := ItemOf(nodes, dq, entry);
    var f := Frontier({entry}, [d0], [d0]);
    ghost var expanded: set<nat> := {};
    StartFrontier(nodes, dq, entry, ef, n, level);
    VisitedBound(nodes, dq, ef, n, f);
    while f.candidates != []
      invariant FrontierOk(nodes, dq, ef, n, f) && Progress(nodes, dq, ef, n, level, f, expanded)
      invariant Confined(nodes, entry, level, f.visited) && f.results != [] && |f.visited| <= |nodes|
      decreases |nodes| - |f.visited|, |f.candidates|
    {
      var it := f.candidates[0];
      if it.dist > f.results[|f.results| - 1].dist && |f.results| >= ef {
        break;
      }
      TakeCandidate(nodes, dq, ef, n, level, f, expanded);
      var cur := it.id;
      ghost var visited := f.visited;
      f := Frontier(f.visited, f.candidates[1..], f.results);
      f := Expand(nodes, dq, m, entry, ef, level, n, f, expanded, cur);
      DoneExpanding(nodes, dq, ef, n, level, f, expanded, cur);
      VisitedBound(nodes, dq, ef, n, f);
      expanded := expanded + {cur};
      MoreVisited(visited, f.visited);
    }
    out := [];
    var i := 0;
    while i < |f.results|
      invariant 0 <= i <= |f.results| && |out| == i && forall k :: 0 <= k < i ==> out[k] == f.results[k].id
    {
      out := out + [f.results[i].id];
      i := i + 1;
    }
    SearchEnds(nodes, dq, entry, ef, n, level, f, expanded, out);
  }
}

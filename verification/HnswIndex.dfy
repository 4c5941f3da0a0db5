/** Adding to, removing from and searching the layered graph. */
module HnswIndexes {
  import opened Hnsw

  // ---------------------------------------------------------------------------
  // Keeping the closest links
  // ---------------------------------------------------------------------------

  ghost predicate ByDistance(s: seq<nat>, d: nat -> int) {
    forall i, j :: 0 <= i < j < |s| ==> d(s[i]) <= d(s[j])
  }

  function Inserted(s: seq<nat>, x: nat, d: nat -> int): (r: seq<nat>)
  {
    if s == [] || d(x) < d(s[0]) then [x] + s else [s[0]] + Inserted(s[1..], x, d)
  }

  lemma {:induction false} InsertedOk(s: seq<nat>, x: nat, d: nat -> int)
    requires ByDistance(s, d)
    ensures ByDistance(Inserted(s, x, d), d) && multiset(Inserted(s, x, d)) == multiset(s) + multiset{x}
  {
    InsertedSame(s, x, d);
    if s != [] && d(x) >= d(s[0]) {
      InsertedOk(s[1..], x, d);
      InsertedSame(s[1..], x, d);
      var rest := Inserted(s[1..], x, d);
      forall j | 0 <= j < |rest|
        ensures d(s[0]) <= d(rest[j])
      {
        assert rest[j] in multiset(rest);
        assert rest[j] in multiset(s[1..]) + multiset{x};
        if rest[j] != x {
          assert rest[j] in s[1..];
        }
      }
    }
  }

  lemma {:induction false} InsertedSame(s: seq<nat>, x: nat, d: nat -> int)
    ensures multiset(Inserted(s, x, d)) == multiset(s) + multiset{x}
  {
    if s == [] || d(x) < d(s[0]) {
      assert multiset([x] + s) == multiset([x]) + multiset(s);
    } else {
      InsertedSame(s[1..], x, d);
      assert s == [s[0]] + s[1..];
    }
  }

  /** Sorting by distance; ties come in some order. */
  method SortByDistance(s: seq<nat>, d: nat -> int) returns (r: seq<nat>)
    ensures ByDistance(r, d) && multiset(r) == multiset(s)
  {
    hide Inserted, ByDistance;
    r := [];
    EmptySorted(d);
    for i := 0 to |s|
      invariant ByDistance(r, d) && multiset(r) == multiset(s[..i])
    {
      InsertedOk(r, s[i], d);
      assert s[..i + 1] == s[..i] + [s[i]];
      r := Inserted(r, s[i], d);
    }
    assert s[..|s|] == s;
  }

  lemma EmptySorted(d: nat -> int)
    ensures ByDistance([], d)
  {
  }

  lemma {:induction false} CountOnce(s: seq<nat>)
    ensures NoRepeats(s) <==> forall x :: multiset(s)[x] <= 1
  {
    if s != [] {
      var last := |s| - 1;
      CountOnce(s[..last]);
      assert s == s[..last] + [s[last]];
      assert multiset(s) == multiset(s[..last]) + multiset{s[last]};
      var x := s[last];
      assert multiset(s)[x] == multiset(s[..last])[x] + 1;
      assert x in s[..last] <==> x in multiset(s[..last]);
      assert NoRepeats(s) <==> NoRepeats(s[..last]) && x !in s[..last];
      assert forall y :: y != x ==> multiset(s)[y] == multiset(s[..last])[y];
    }
  }

  lemma SameElements(a: seq<nat>, b: seq<nat>)
    requires multiset(a) == multiset(b)
    ensures |a| == |b| && (NoRepeats(a) <==> NoRepeats(b)) && forall x :: x in a <==> x in b
  {
    CountOnce(a);
    CountOnce(b);
    assert |multiset(a)| == |multiset(b)|;
    forall x
      ensures x in a <==> x in b
    {
      assert x in a <==> x in multiset(a);
      assert x in b <==> x in multiset(b);
    }
  }

  // ---------------------------------------------------------------------------
  // Changing one list
  // ---------------------------------------------------------------------------

  function WithList<V>(nodes: seq<Node<V>>, x: nat, level: nat, list: seq<nat>): seq<Node<V>>
    requires x < |nodes| && level < |nodes[x].links|
  {
    nodes[x := nodes[x].(links := nodes[x].links[level := list])]
  }

  /** The same nodes at the same levels; only lists of one level may differ. */
  ghost predicate SameBut<V>(a: seq<Node<V>>, b: seq<Node<V>>, level: nat) {
    && |a| == |b|
    && (forall x :: 0 <= x < |a| ==> a[x].name == b[x].name && a[x].vec == b[x].vec && a[x].deleted == b[x].deleted)
    && (forall x :: 0 <= x < |a| ==> |a[x].links| == |b[x].links|)
    && forall x, l :: 0 <= x < |a| && 0 <= l < |a[x].links| && l != level ==> a[x].links[l] == b[x].links[l]
  }

  lemma WithListOk<V>(nodes: seq<Node<V>>, m: nat, x: nat, level: nat, list: seq<nat>)
    requires GraphOk(nodes, m) && x < |nodes| && level < |nodes[x].links| && ListOk(nodes, m, x, level, list)
    ensures var r := WithList(nodes, x, level, list);
      && GraphOk(r, m) && SameBut(nodes, r, level) && LinksAt(r, x, level) == list
      && forall y :: 0 <= y < |nodes| && y != x ==> LinksAt(r, y, level) == LinksAt(nodes, y, level)
  {
    var r := WithList(nodes, x, level, list);
    forall y, l | 0 <= y < |r| && 0 <= l < |r[y].links|
      ensures ListOk(r, m, y, l, r[y].links[l])
    {
      assert (y != x || l != level) ==> ListOk(nodes, m, y, l, nodes[y].links[l]);
      assert forall z :: 0 <= z < |nodes| ==> Level(r, z) == Level(nodes, z);
    }
  }

  lemma SameButTrans<V>(a: seq<Node<V>>, b: seq<Node<V>>, c: seq<Node<V>>, level: nat)
    requires SameBut(a, b, level) && SameBut(b, c, level)
    ensures SameBut(a, c, level)
  {
  }

  ghost predicate NotLinked<V>(nodes: seq<Node<V>>, id: nat, level: nat) {
    forall x :: 0 <= x < |nodes| ==> id !in LinksAt(nodes, x, level)
  }

  /** A back-link: the list with `id` appended, cut down to its closest when it grew too long. */
  ghost predicate BackLinked(before: seq<nat>, id: nat, most: nat, d: nat -> int, list: seq<nat>) {
    if |before| + 1 <= most then list == before + [id]
    else
      && |list| == most && NoRepeats(list)
      && (forall i :: 0 <= i < |list| ==> list[i] in before + [id])
      && forall x, i :: x in before + [id] && x !in list && 0 <= i < |list| ==> d(list[i]) <= d(x)
  }

  method BackLink(before: seq<nat>, id: nat, most: nat, d: nat -> int) returns (list: seq<nat>)
    requires NoRepeats(before) && id !in before
    ensures BackLinked(before, id, most, d, list)
  {
    list := before + [id];
    if |list| > most {
      var sorted := SortByDistance(list, d);
      SameElements(sorted, list);
      list := sorted[..most];
      assert forall k :: 0 <= k < most ==> list[k] == sorted[k] && sorted[k] in list;
      forall x, i | x in before + [id] && x !in list && 0 <= i < |list|
        ensures d(list[i]) <= d(x)
      {
        assert x in sorted;
        var j :| 0 <= j < |sorted| && sorted[j] == x;
      }
      forall i | 0 <= i < |list|
        ensures list[i] in before + [id]
      {
        assert list[i] in sorted;
      }
    }
  }

  lemma BackLinkedOk<V>(nodes: seq<Node<V>>, m: nat, c: nat, id: nat, level: nat, most: nat, d: nat -> int,
      list: seq<nat>)
    requires GraphOk(nodes, m) && c < |nodes| && id < |nodes| && c != id && level <= Level(nodes, c)
    requires level <= Level(nodes, id)
    requires most <= Degree(m, level) && id !in LinksAt(nodes, c, level)
    requires BackLinked(LinksAt(nodes, c, level), id, most, d, list)
    ensures ListOk(nodes, m, c, level, list)
  {
    var before := nodes[c].links[level];
    assert ListOk(nodes, m, c, level, before);
    forall i | 0 <= i < |list|
      ensures list[i] < |nodes| && list[i] != c && level <= Level(nodes, list[i])
    {
      assert list[i] in before + [id];
    }
  }

  /** The first `most` candidates other than `id` (one when `most` is zero). */
  function Chosen(candidates: seq<nat>, id: nat, most: nat): (r: seq<nat>)
    requires most > 0
    ensures |r| <= most
  {
    if candidates == [] then []
    else
      var before := Chosen(candidates[..|candidates| - 1], id, most);
      var c := candidates[|candidates| - 1];
      if c == id || |before| == most then before else before + [c]
  }

  lemma {:induction false} ChosenOk(candidates: seq<nat>, id: nat, most: nat)
    requires most > 0 && NoRepeats(candidates)
    ensures NoRepeats(Chosen(candidates, id, most))
    ensures forall i :: 0 <= i < |Chosen(candidates, id, most)| ==>
      Chosen(candidates, id, most)[i] in candidates && Chosen(candidates, id, most)[i] != id
  {
    if candidates != [] {
      var last := |candidates| - 1;
      ChosenOk(candidates[..last], id, most);
      assert candidates == candidates[..last] + [candidates[last]];
      assert candidates[last] !in candidates[..last];
    }
  }

  lemma {:induction false} ChosenFull(candidates: seq<nat>, id: nat, most: nat, k: nat)
    requires most > 0 && k <= |candidates| && |Chosen(candidates[..k], id, most)| == most
    ensures Chosen(candidates, id, most) == Chosen(candidates[..k], id, most)
    decreases |candidates|
  {
    if k == |candidates| {
      assert candidates[..k] == candidates;
    } else {
      var last := |candidates| - 1;
      assert candidates[..last][..k] == candidates[..k];
      ChosenFull(candidates[..last], id, most, k);
    }
  }

  /** Nodes that can be linked to at a level. */
  ghost predicate Linkable<V>(nodes: seq<Node<V>>, level: nat, s: seq<nat>) {
    NoRepeats(s) && forall i :: 0 <= i < |s| ==> s[i] < |nodes| && level <= Level(nodes, s[i])
  }

  lemma LinkableSame<V>(a: seq<Node<V>>, b: seq<Node<V>>, level: nat, s: seq<nat>)
    requires SameBut(a, b, level) && Linkable(a, level, s)
    ensures Linkable(b, level, s)
  {
  }

  lemma FoundLinkable<V>(nodes: seq<Node<V>>, dq: V -> int, entry: nat, ef: nat, level: nat, out: seq<nat>)
    requires entry < |nodes| && level <= Level(nodes, entry) && Found(nodes, dq, entry, ef, level, out)
    ensures Linkable(nodes, level, out) && out != [] && out[0] < |nodes| && level <= Level(nodes, out[0])
  {
  }

  class Index<V(==, !new)> {
    const m: nat
    const efConstruction: nat
    const prepare: V -> V
    const dist: (V, V) -> int
    var nodes: seq<Node<V>>
    var labels: map<string, nat>
    var entry: int
    var maxLevel: int

    ghost predicate Valid()
      reads this
    {
      && GraphOk(nodes, m)
      && (entry < 0 <==> nodes == [])
      && (entry >= 0 ==> entry < |nodes| && maxLevel == Level(nodes, entry))
      && (entry < 0 ==> entry == -1 && maxLevel == -1)
      && (forall x :: 0 <= x < |nodes| ==> Level(nodes, x) <= maxLevel)
      && LabelsOk(nodes, labels)
    }

    /** Labels and live nodes name each other, one to one. */
    static ghost predicate LabelsOk(nodes: seq<Node<V>>, labels: map<string, nat>) {
      && (forall n :: n in labels ==> labels[n] < |nodes| && nodes[labels[n]].name == n && !nodes[labels[n]].deleted)
      && forall x :: 0 <= x < |nodes| && !nodes[x].deleted ==> nodes[x].name in labels && labels[nodes[x].name] == x
    }

    constructor (m: nat, efConstruction: nat, prepare: V -> V, dist: (V, V) -> int)
      ensures Valid() && labels == map[] && nodes == []
      ensures this.m == m && this.efConstruction == efConstruction && this.prepare == prepare && this.dist == dist
    {
      this.m, this.efConstruction, this.prepare, this.dist := m, efConstruction, prepare, dist;
      nodes, labels, entry, maxLevel := [], map[], -1, -1;
    }

    /** Linking node `id` at one level, with back-links. */
    method Connect(id: nat, level: nat, candidates: seq<nat>)
      requires GraphOk(nodes, m) && id < |nodes| && level <= Level(nodes, id)
      requires Linkable(nodes, level, candidates) && NotLinked(nodes, id, level)
      modifies this`nodes
      ensures GraphOk(nodes, m) && SameBut(old(nodes), nodes, level)
      ensures LinksAt(nodes, id, level) == Chosen(candidates, id, Degree(m, level))
      ensures var links := Chosen(candidates, id, Degree(m, level));
        BackLinksMade(old(nodes), nodes, id, level, links, |links|)
    {
      hide GraphOk, ListOk, NotLinked, Linkable, SameBut, Chosen, BackLinked, BackLinksMade;
      ghost var before := nodes;
      var most := if level == 0 then 2 * m else m;
      var links := ChooseLinks(candidates, id, most);
      assert links == Chosen(candidates, id, Degree(m, level));
      ChosenLinkable(nodes, m, id, level, candidates);
      WithListOk(nodes, m, id, level, links);
      nodes := WithList(nodes, id, level, links);
      LinkableSame(before, nodes, level, links);
      StillNotLinked(before, nodes, id, level, links);
      BackLinksStart(before, nodes, id, level, links);
      var i := 0;
      while i < |links|
        invariant 0 <= i <= |links| && |nodes| == |before| && GraphOk(nodes, m) && SameBut(before, nodes, level)
        invariant id < |nodes| && LinksAt(nodes, id, level) == links && Linkable(nodes, level, links)
        invariant NotYet(nodes, id, level, links, i) && BackLinksMade(before, nodes, id, level, links, i)
      {
        var c := links[i];
        NotYetAt(nodes, m, id, level, links, i);
        var d := DistancesFrom(nodes, c);
        var list := BackLink(nodes[c].links[level], id, most, d);
        BackLinkedOk(nodes, m, c, id, level, most, d, list);
        WithListOk(nodes, m, c, level, list);
        ghost var was := nodes;
        nodes := WithList(nodes, c, level, list);
        BackLinksNext(before, was, nodes, id, level, links, i, d);
        SameButTrans(before, was, nodes, level);
        LinkableSame(was, nodes, level, links);
        NotYetNext(was, nodes, id, level, links, i);
        i := i + 1;
      }
    }

    /** The first `i` neighbours have linked back, keeping their closest; no other list has changed. */
    ghost predicate BackLinksMade(a: seq<Node<V>>, b: seq<Node<V>>, id: nat, level: nat, links: seq<nat>, i: nat)
      requires |a| == |b| && i <= |links|
    {
      var most := if level == 0 then 2 * m else m;
      && (forall y :: 0 <= y < |a| && y != id && y !in links[..i] ==> LinksAt(b, y, level) == LinksAt(a, y, level))
      && forall y :: 0 <= y < |a| && y in links[..i] ==>
        BackLinked(LinksAt(a, y, level), id, most, DistancesFrom(a, y), LinksAt(b, y, level))
    }

    lemma BackLinksStart(a: seq<Node<V>>, b: seq<Node<V>>, id: nat, level: nat, links: seq<nat>)
      requires |a| == |b| && forall y :: 0 <= y < |a| && y != id ==> LinksAt(b, y, level) == LinksAt(a, y, level)
      ensures BackLinksMade(a, b, id, level, links, 0)
    {
    }

    static lemma SameDistances(before: seq<nat>, id: nat, most: nat, d: nat -> int, e: nat -> int, list: seq<nat>)
      requires BackLinked(before, id, most, d, list) && forall x: nat :: e(x) == d(x)
      ensures BackLinked(before, id, most, e, list)
    {
    }

    lemma BackLinksNext(a: seq<Node<V>>, was: seq<Node<V>>, b: seq<Node<V>>, id: nat, level: nat, links: seq<nat>,
        i: nat, d: nat -> int)
      requires i < |links| && links[i] < |a| && SameBut(a, was, level) && SameBut(was, b, level)
      requires Linkable(was, level, links)
      requires BackLinksMade(a, was, id, level, links, i) && d == DistancesFrom(was, links[i]) && links[i] != id
      requires forall y :: 0 <= y < |a| && y != links[i] ==> LinksAt(b, y, level) == LinksAt(was, y, level)
      requires var most := if level == 0 then 2 * m else m;
        BackLinked(LinksAt(was, links[i], level), id, most, d, LinksAt(b, links[i], level))
      ensures BackLinksMade(a, b, id, level, links, i + 1)
    {
      var c := links[i];
      hide BackLinked, LinksAt;
      assert c !in links[..i];
      assert links[..i + 1] == links[..i] + [c];
      assert LinksAt(was, c, level) == LinksAt(a, c, level);
      assert forall x: nat :: DistancesFrom(a, c)(x) == d(x);
      var most := if level == 0 then 2 * m else m;
      SameDistances(LinksAt(a, c, level), id, most, d, DistancesFrom(a, c), LinksAt(b, c, level));
    }

    /** The distances from one node's vector to the others'. */
    function DistancesFrom(nodes: seq<Node<V>>, c: nat): nat -> int
      requires c < |nodes|
    {
      (x: nat) => if x < |nodes| then dist(nodes[c].vec, nodes[x].vec) else 0
    }

    /** What adding leaves at the nodes that were there. */
    static ghost predicate Stored(a: seq<Node<V>>, b: seq<Node<V>>, except: nat) {
      && |a| <= |b|
      && forall x :: 0 <= x < |a| && x != except ==>
        b[x].name == a[x].name && b[x].vec == a[x].vec && b[x].deleted == a[x].deleted
    }

    /** Inserting or replacing the vector stored under a label; `level` is the drawn level of a new node. */
    method Add(name: string, vec: V, level: nat) returns (added: bool, ghost path: seq<nat>)
      requires Valid()
      modifies this
      ensures Valid() && added == (name !in old(labels))
      ensures labels == if added then old(labels)[name := |old(nodes)|] else old(labels)
      ensures |nodes| == |old(nodes)| + if added then 1 else 0
      ensures nodes[labels[name]].vec == prepare(vec) && (added ==> Level(nodes, labels[name]) == level)
      ensures Stored(old(nodes), nodes, labels[name])
      ensures added && old(entry) >= 0 ==>
        && LinkedIn(old(nodes), nodes, DistanceFrom(prepare(vec)), old(maxLevel), old(entry), path)
        && forall l: nat :: LinkedBack(old(nodes), nodes, l)
      ensures !added ==> forall x :: 0 <= x < |nodes| ==> nodes[x].links == old(nodes)[x].links
      ensures (entry, maxLevel) ==
        if added && (old(entry) < 0 || level > old(maxLevel)) then (|old(nodes)|, level) else old((entry, maxLevel))
    {
      hide *;
      added, path := name !in labels, [];
      if added {
        path := AddNew(name, vec, level);
      } else {
        LabelHolds(name);
        ReplaceVec(labels[name], prepare(vec));
        StoredBut(old(nodes), nodes, labels[name]);
      }
    }

    method AddNew(name: string, vec: V, level: nat) returns (ghost path: seq<nat>)
      requires Valid() && name !in labels
      modifies this
      ensures Valid() && labels == old(labels)[name := |old(nodes)|] && |nodes| == |old(nodes)| + 1
      ensures nodes[|old(nodes)|].vec == prepare(vec) && Level(nodes, |old(nodes)|) == level
      ensures Stored(old(nodes), nodes, |old(nodes)|)
      ensures old(entry) >= 0 ==>
        && LinkedIn(old(nodes), nodes, DistanceFrom(prepare(vec)), old(maxLevel), old(entry), path)
        && forall l: nat :: LinkedBack(old(nodes), nodes, l)
      ensures (entry, maxLevel) ==
        if old(entry) < 0 || level > old(maxLevel) then (|old(nodes)|, level) else old((entry, maxLevel))
    {
      hide GraphOk, LabelsOk, SameShape, LinksAt, Stored, LinkedIn, LinkedBack, AsBefore, DistanceFrom;
      var id := |nodes|;
      ghost var before := nodes;
      var node := Node(name, prepare(vec), seq(level + 1, i => []), false);
      path := [];
      nodes := nodes + [node];
      labels := labels[name := id];
      assert nodes[..id] == before && nodes[id] == node;
      NewNodeOk(before, nodes, m, level);
      NewLabelOk(before, nodes, old(labels), name);
      ghost var unlinked := nodes;
      if entry < 0 {
        entry := id;
        maxLevel := level;
        StoredSame(before, unlinked, nodes);
        return;
      }
      path := LinkLevels(before, level);
      ShapeLabels(unlinked, nodes, labels);
      StoredSame(before, unlinked, nodes);
      if level > maxLevel {
        maxLevel := level;
        entry := id;
      }
    }

    // ---------------------------------------------------------------------------
    // What a new node is linked to, on the nodes that were there
    // ---------------------------------------------------------------------------

    /** Level `l` of the graph is that of `a`, with one more node that stands alone. */
    static ghost predicate AsBefore(a: seq<Node<V>>, b: seq<Node<V>>, l: nat) {
      && |b| == |a| + 1 && LinksAt(b, |a|, l) == []
      && forall x :: 0 <= x < |a| ==> b[x].vec == a[x].vec && LinksAt(b, x, l) == LinksAt(a, x, l)
    }

    /** How many links a list may hold at level `l`. */
    function Room(l: nat): nat {
      var most := if l == 0 then 2 * m else m;
      if most < 1 then 1 else most
    }

    /** The links of a new node at level `l`, chosen among what can be reached from `from`: the first of them a local
        best, each farther than the one before. With room in the search for all that can be reached, none of it was
        passed over for a worse one. */
    ghost predicate Nearest(a: seq<Node<V>>, dq: V -> int, l: nat, from: nat, links: seq<nat>) {
      var reached := ReachedSet(a, l, from);
      && 0 < |links| <= Room(l) && Hop(a, dq, l, from, links[0]) && InOrder(a, dq, links)
      && (forall i :: 0 <= i < |links| ==> links[i] in reached)
      && (efConstruction >= |reached| ==> forall x :: x in reached && x !in links ==>
            |links| == Room(l) && forall i :: 0 <= i < |links| ==> Closer(ItemOf(a, dq, links[i]), ItemOf(a, dq, x)))
    }

    /** A node is linked in: a greedy descent from the entry reaches level 0, and on each level the node has, its links
        are the nearest found from where the descent arrives. */
    ghost predicate LinkedIn(a: seq<Node<V>>, b: seq<Node<V>>, dq: V -> int, top: int, from: int, path: seq<nat>)
    {
      && |b| == |a| + 1 && 0 <= top && 0 <= from && |path| == top + 2 && Descent(a, dq, top, from, path)
      && forall l: nat :: l <= Level(b, |a|) ==> LevelDone(a, b, dq, top, path, l)
    }

    /** The nodes that the new one links to at level `l` have linked back, and kept their closest when they had too
        many; no other list of the level has changed. */
    ghost predicate LinkedBack(a: seq<Node<V>>, b: seq<Node<V>>, l: nat)
    {
      && |b| == |a| + 1
      && forall y :: 0 <= y < |a| ==>
        if y in LinksAt(b, |a|, l) then KeptClosest(b, y, LinksAt(a, y, l) + [|a|], l, LinksAt(b, y, l))
        else LinksAt(b, y, l) == LinksAt(a, y, l)
    }

    ghost predicate KeptClosest(b: seq<Node<V>>, y: nat, all: seq<nat>, l: nat, kept: seq<nat>)
      requires y < |b|
    {
      var most := if l == 0 then 2 * m else m;
      if |all| <= most then kept == all
      else
        && |kept| == most && NoRepeats(kept) && (forall i :: 0 <= i < |kept| ==> kept[i] in all)
        && forall x, i :: x in all && x !in kept && x < |b| && 0 <= i < |kept| && kept[i] < |b| ==>
          dist(b[y].vec, b[kept[i]].vec) <= dist(b[y].vec, b[x].vec)
    }

    static lemma StoredBut(a: seq<Node<V>>, b: seq<Node<V>>, x: nat)
      requires |a| == |b| && forall y :: 0 <= y < |a| && y != x ==> b[y] == a[y]
      ensures Stored(a, b, x)
    {
    }

    lemma LabelHolds(name: string)
      requires Valid() && name in labels
      ensures labels[name] < |nodes| && !nodes[labels[name]].deleted
    {
      hide GraphOk;
    }

    static lemma StoredSame(a: seq<Node<V>>, b: seq<Node<V>>, c: seq<Node<V>>)
      requires |b| == |a| + 1 == |c| && b[..|a|] == a
      requires forall x :: 0 <= x < |b| ==>
        c[x].name == b[x].name && c[x].vec == b[x].vec && c[x].deleted == b[x].deleted
      ensures Stored(a, c, |a|)
    {
      assert forall x :: 0 <= x < |a| ==> b[x] == b[..|a|][x];
    }

    method ReplaceVec(id: nat, vec: V)
      requires Valid() && id < |nodes| && !nodes[id].deleted
      modifies this`nodes
      ensures Valid() && nodes == old(nodes)[id := old(nodes)[id].(vec := vec, deleted := false)]
    {
      nodes := nodes[id := nodes[id].(vec := vec, deleted := false)];
      ShapeKeeps(old(nodes), nodes, m);
    }

    /** Changing what is stored at a node, but not its links, keeps the graph. */
    static lemma ShapeKeeps(a: seq<Node<V>>, b: seq<Node<V>>, m: nat)
      requires GraphOk(a, m) && |a| == |b| && forall x :: 0 <= x < |a| ==> a[x].links == b[x].links
      ensures GraphOk(b, m) && forall x :: 0 <= x < |a| ==> Level(b, x) == Level(a, x)
    {
      forall x, l | 0 <= x < |b| && 0 <= l < |b[x].links|
        ensures ListOk(b, m, x, l, b[x].links[l])
      {
        assert ListOk(a, m, x, l, a[x].links[l]);
      }
    }

    /** A new node without links, which no node links to. */
    static lemma NewNodeOk(a: seq<Node<V>>, b: seq<Node<V>>, m: nat, level: nat)
      requires GraphOk(a, m) && |b| == |a| + 1 && b[..|a|] == a
      requires |b[|a|].links| == level + 1 && forall l :: 0 <= l <= level ==> b[|a|].links[l] == []
      ensures GraphOk(b, m) && Level(b, |a|) == level
      ensures forall l: nat :: AsBefore(a, b, l)
      ensures forall x :: 0 <= x < |a| ==> Level(b, x) == Level(a, x)
    {
      assert forall x :: 0 <= x < |a| ==> b[x] == b[..|a|][x];
      forall x, l | 0 <= x < |b| && 0 <= l < |b[x].links|
        ensures ListOk(b, m, x, l, b[x].links[l])
      {
        if x < |a| {
          assert b[x] == a[x];
          assert ListOk(a, m, x, l, a[x].links[l]);
          forall i | 0 <= i < |a[x].links[l]|
            ensures Level(b, a[x].links[l][i]) == Level(a, a[x].links[l][i])
          {
            assert b[a[x].links[l][i]] == a[a[x].links[l][i]];
          }
        }
      }
    }

    /** Descending from the entry to the new node's top level, then linking it on every level below. */
    method LinkLevels(ghost a: seq<Node<V>>, level: nat) returns (ghost path: seq<nat>)
      requires GraphOk(a, m) && GraphOk(nodes, m) && |nodes| == |a| + 1 && Level(nodes, |a|) == level
      requires 0 <= entry < |a| && maxLevel == Level(nodes, entry) && forall l: nat :: AsBefore(a, nodes, l)
      modifies this`nodes
      ensures GraphOk(nodes, m) && SameShape(old(nodes), nodes)
      ensures LinkedIn(a, nodes, DistanceFrom(nodes[|a|].vec), maxLevel, entry, path)
      ensures forall l: nat :: LinkedBack(a, nodes, l)
    {
      hide *;
      ghost var before := nodes;
      var id := |nodes| - 1;
      var cur: nat := entry;
      var q := nodes[id].vec;
      var dq := DistanceFrom(q);
      EntryLevel(a, level);
      var lvl := maxLevel;
      path := [cur];
      DescentStarts(a, dq, maxLevel, cur);
      SameShapeSelf(nodes);
      while lvl > level
        invariant nodes == before && cur < id && 0 <= lvl <= Level(nodes, cur)
        invariant (lvl == maxLevel || level <= lvl < maxLevel) && |path| == maxLevel - lvl + 1
        invariant path[maxLevel - lvl] == cur && Descent(a, dq, maxLevel, entry, path)
      {
        var nearest := SearchLayer(nodes, dq, m, cur, 1, lvl);
        FoundInside(nodes, dq, cur, 1, lvl, nearest);
        FoundLinkable(nodes, dq, cur, 1, lvl, nearest);
        SearchedBefore(a, nodes, dq, cur, 1, lvl, nearest);
        DescentNext(a, dq, maxLevel, entry, path, nearest[0]);
        path := path + [nearest[0]];
        cur := nearest[0];
        lvl := lvl - 1;
      }
      lvl := if level < maxLevel then level else maxLevel;
      LinkingStarts(a, nodes, dq, maxLevel, level, lvl, path);
      while lvl >= 0
        invariant -1 <= lvl <= level && lvl <= maxLevel && cur < id && |nodes| == id + 1 && lvl <= Level(nodes, cur)
        invariant GraphOk(nodes, m) && SameShape(before, nodes) && Level(nodes, id) == level
        invariant |path| == maxLevel - lvl + 1 && path[maxLevel - lvl] == cur
        invariant Descent(a, dq, maxLevel, entry, path) && Linking(a, nodes, dq, maxLevel, level, lvl, path)
      {
        var candidates := SearchLayer(nodes, dq, m, cur, efConstruction, lvl);
        FoundInside(nodes, dq, cur, efConstruction, lvl, candidates);
        FoundLinkable(nodes, dq, cur, efConstruction, lvl, candidates);
        LinkingAt(a, nodes, dq, maxLevel, level, lvl, path);
        SearchedBefore(a, nodes, dq, cur, efConstruction, lvl, candidates);
        ghost var was := nodes;
        Connect(id, lvl, candidates);
        NearestChosen(a, dq, lvl, cur, candidates);
        ConnectedShape(before, was, nodes, lvl);
        LinkingNext(a, was, nodes, dq, maxLevel, level, lvl, path, Chosen(candidates, id, Degree(m, lvl)));
        DescentNext(a, dq, maxLevel, entry, path, candidates[0]);
        path := path + [candidates[0]];
        cur := candidates[0];
        lvl := lvl - 1;
      }
      LinkingEnds(a, nodes, dq, maxLevel, level, entry, path);
      ShapeVec(before, nodes, id);
    }

    lemma EntryLevel(a: seq<Node<V>>, level: nat)
      requires GraphOk(nodes, m) && 0 <= entry < |nodes| && maxLevel == Level(nodes, entry)
      ensures maxLevel >= 0
    {
      hide ListOk;
    }

    /** What a search finds on a level as it was before is found on the nodes that were there. */
    lemma SearchedBefore(a: seq<Node<V>>, b: seq<Node<V>>, dq: V -> int, cur: nat, ef: nat, l: nat, out: seq<nat>)
      requires GraphOk(a, m) && AsBefore(a, b, l) && cur < |a| && Found(b, dq, cur, ef, l, out)
      requires LocalBest(b, dq, cur, l, out[0])
      ensures out != [] && InOrder(a, dq, out) && Hop(a, dq, l, cur, out[0]) && |a| !in out
      ensures forall i :: 0 <= i < |out| ==> out[i] in ReachedSet(a, l, cur)
      ensures |ReachedSet(a, l, cur)| == |ReachedSet(b, l, cur)|
      ensures Complete(b, cur, l, out) ==> Elements(ReachedSet(a, l, cur), out)
    {
      SameReached(a, b, l, cur);
      FoundIsReached(b, dq, cur, ef, l, out);
      hide ReachedSet, AsBefore, Reached, Complete, Elements, Closed;
      AsBeforeVecs(a, b, l);
      forall i | 0 <= i < |out|
        ensures out[i] < |a| && out[i] in ReachedSet(a, l, cur)
      {
        InReached(a, l, cur, out[i]);
      }
      InReached(a, l, cur, out[0]);
    }

    static lemma AsBeforeVecs(a: seq<Node<V>>, b: seq<Node<V>>, l: nat)
      requires AsBefore(a, b, l)
      ensures |b| == |a| + 1
      ensures forall x :: 0 <= x < |a| ==> b[x].vec == a[x].vec && LinksAt(b, x, l) == LinksAt(a, x, l)
    {
    }

    static lemma InReached(a: seq<Node<V>>, l: nat, from: nat, x: nat)
      requires x in ReachedSet(a, l, from)
      ensures x < |a| && Reached(a, l, from, x)
    {
    }

    /** The same nodes can be reached with and without a node that stands alone. */
    lemma SameReached(a: seq<Node<V>>, b: seq<Node<V>>, l: nat, from: nat)
      requires GraphOk(a, m) && AsBefore(a, b, l) && from < |a|
      ensures ReachedSet(a, l, from) == ReachedSet(b, l, from)
    {
      forall s: set<nat>
        ensures Closed(a, l, s) <==> Closed(b, l, s)
      {
      }
      assert forall x: nat :: Reached(a, l, from, x) <==> Reached(b, l, from, x);
      var others := Ids(|a|);
      forall x, i | x in others && x < |a| && 0 <= i < |LinksAt(a, x, l)|
        ensures LinksAt(a, x, l)[i] in others
      {
        assert ListOk(a, m, x, l, a[x].links[l]);
      }
      assert Closed(a, l, others);
      assert !Reached(a, l, from, |a|);
    }

    /** A list of candidates without the new node is cut off where the room ends. */
    static lemma {:induction false} ChosenPrefix(candidates: seq<nat>, id: nat, most: nat)
      requires most > 0 && id !in candidates
      ensures Chosen(candidates, id, most) == candidates[..if |candidates| < most then |candidates| else most]
    {
      if candidates != [] {
        ChosenPrefix(candidates[..|candidates| - 1], id, most);
      }
    }

    lemma NearestChosen(a: seq<Node<V>>, dq: V -> int, l: nat, from: nat, candidates: seq<nat>)
      requires candidates != [] && |a| !in candidates && InOrder(a, dq, candidates)
      requires Hop(a, dq, l, from, candidates[0])
      requires forall i :: 0 <= i < |candidates| ==> candidates[i] in ReachedSet(a, l, from)
      requires efConstruction >= |ReachedSet(a, l, from)| ==> Elements(ReachedSet(a, l, from), candidates)
      ensures var links := Chosen(candidates, |a|, Degree(m, l));
        links != [] && links[0] == candidates[0] && Nearest(a, dq, l, from, links)
    {
      ChosenPrefix(candidates, |a|, Degree(m, l));
      hide Hop, ReachedSet, Chosen;
      var links := Chosen(candidates, |a|, Degree(m, l));
      if efConstruction >= |ReachedSet(a, l, from)| {
        forall x | x in ReachedSet(a, l, from) && x !in links
          ensures |links| == Room(l)
          ensures forall i :: 0 <= i < |links| ==> Closer(ItemOf(a, dq, links[i]), ItemOf(a, dq, x))
        {
          var p :| 0 <= p < |candidates| && candidates[p] == x;
          assert forall i :: 0 <= i < |links| ==> candidates[i] in links;
        }
      }
    }

    // ---------------------------------------------------------------------------
    // Linking level by level
    // ---------------------------------------------------------------------------

    /** The new node's links at a level it has. */
    ghost predicate LevelDone(a: seq<Node<V>>, b: seq<Node<V>>, dq: V -> int, top: nat, path: seq<nat>, l: nat) {
      && |b| == |a| + 1
      && if l <= top then
          && top - l + 1 < |path| && LinksAt(b, |a|, l) != [] && LinksAt(b, |a|, l)[0] == path[top - l + 1]
          && Nearest(a, dq, l, path[top - l], LinksAt(b, |a|, l))
        else LinksAt(b, |a|, l) == []
    }

    /** Levels above `lvl` are linked, those from there down are as they were. */
    ghost predicate Linking(a: seq<Node<V>>, b: seq<Node<V>>, dq: V -> int, top: nat, level: nat, lvl: int,
        path: seq<nat>) {
      && (forall l: nat :: l <= lvl ==> AsBefore(a, b, l))
      && (forall l: nat :: l > lvl ==> LinkedBack(a, b, l))
      && forall l: nat :: lvl < l <= level ==> LevelDone(a, b, dq, top, path, l)
    }

    lemma LinkingStarts(a: seq<Node<V>>, b: seq<Node<V>>, dq: V -> int, top: nat, level: nat, lvl: int, path: seq<nat>)
      requires (forall l: nat :: AsBefore(a, b, l)) && lvl == if level < top then level else top
      ensures Linking(a, b, dq, top, level, lvl, path)
    {
      forall l: nat | l > lvl
        ensures LinkedBack(a, b, l) && (l <= level ==> LevelDone(a, b, dq, top, path, l))
      {
        assert AsBefore(a, b, l);
      }
      hide AsBefore, LinkedBack, LevelDone;
    }

    lemma LinkingAt(a: seq<Node<V>>, b: seq<Node<V>>, dq: V -> int, top: nat, level: nat, lvl: nat, path: seq<nat>)
      requires GraphOk(a, m) && Linking(a, b, dq, top, level, lvl, path)
      ensures AsBefore(a, b, lvl) && NotLinked(b, |a|, lvl)
    {
      hide LinkedBack, LevelDone;
      assert AsBefore(a, b, lvl);
      forall x | 0 <= x < |b|
        ensures |a| !in LinksAt(b, x, lvl)
      {
        if x < |a| && lvl < |a[x].links| {
          assert ListOk(a, m, x, lvl, a[x].links[lvl]);
        }
      }
    }

    /** Changing one level leaves the others as they are. */
    lemma OtherLevel(a: seq<Node<V>>, was: seq<Node<V>>, now: seq<Node<V>>, lvl: nat, l: nat)
      requires SameBut(was, now, lvl) && l != lvl
      ensures AsBefore(a, was, l) ==> AsBefore(a, now, l)
      ensures LinkedBack(a, was, l) ==> LinkedBack(a, now, l)
      ensures |a| < |was| ==> LinksAt(now, |a|, l) == LinksAt(was, |a|, l)
    {
      assert forall x :: 0 <= x < |was| ==> LinksAt(now, x, l) == LinksAt(was, x, l);
      assert forall x :: 0 <= x < |was| ==> now[x].vec == was[x].vec;
      hide LinksAt, SameBut;
    }

    lemma LevelLinkedBack(a: seq<Node<V>>, was: seq<Node<V>>, now: seq<Node<V>>, l: nat, links: seq<nat>)
      requires AsBefore(a, was, l) && SameBut(was, now, l) && LinksAt(now, |a|, l) == links
      requires BackLinksMade(was, now, |a|, l, links, |links|)
      ensures LinkedBack(a, now, l)
    {
      hide LinksAt, BackLinked, DistancesFrom, KeptClosest;
      assert links[..|links|] == links;
      forall y | 0 <= y < |a| && y in links
        ensures KeptClosest(now, y, LinksAt(a, y, l) + [|a|], l, LinksAt(now, y, l))
      {
        KeptFrom(was, now, y, LinksAt(a, y, l), |a|, l, LinksAt(now, y, l));
      }
    }

    lemma KeptFrom(was: seq<Node<V>>, now: seq<Node<V>>, y: nat, before: seq<nat>, id: nat, l: nat, list: seq<nat>)
      requires y < |was| == |now| && forall x :: 0 <= x < |was| ==> now[x].vec == was[x].vec
      requires BackLinked(before, id, if l == 0 then 2 * m else m, DistancesFrom(was, y), list)
      ensures KeptClosest(now, y, before + [id], l, list)
    {
    }

    lemma LinkingNext(a: seq<Node<V>>, was: seq<Node<V>>, now: seq<Node<V>>, dq: V -> int, top: nat, level: nat,
        lvl: nat, path: seq<nat>, links: seq<nat>)
      requires Linking(a, was, dq, top, level, lvl, path) && SameBut(was, now, lvl) && |was| == |now| == |a| + 1
      requires lvl <= level && lvl <= top && |path| == top - lvl + 1
      requires LinksAt(now, |a|, lvl) == links && BackLinksMade(was, now, |a|, lvl, links, |links|)
      requires links != [] && Nearest(a, dq, lvl, path[top - lvl], links)
      ensures Linking(a, now, dq, top, level, lvl - 1, path + [links[0]])
    {
      hide AsBefore, LinkedBack, LevelDone, SameBut, LinksAt, Nearest, BackLinksMade;
      LevelLinkedBack(a, was, now, lvl, links);
      forall l: nat | l != lvl
        ensures l < lvl ==> AsBefore(a, now, l)
        ensures l > lvl ==> LinkedBack(a, now, l) && (l <= level ==> LevelDone(a, now, dq, top, path + [links[0]], l))
      {
        OtherLevel(a, was, now, lvl, l);
        if lvl < l <= level {
          DoneStays(a, was, now, dq, top, path, links[0], l);
        }
      }
      DoneNow(a, now, dq, top, path, lvl, links);
    }

    lemma DoneStays(a: seq<Node<V>>, was: seq<Node<V>>, now: seq<Node<V>>, dq: V -> int, top: nat, path: seq<nat>,
        next: nat, l: nat)
      requires LevelDone(a, was, dq, top, path, l) && |now| == |was| && LinksAt(now, |a|, l) == LinksAt(was, |a|, l)
      ensures LevelDone(a, now, dq, top, path + [next], l)
    {
      hide Nearest, LinksAt;
    }

    lemma DoneNow(a: seq<Node<V>>, now: seq<Node<V>>, dq: V -> int, top: nat, path: seq<nat>, l: nat, links: seq<nat>)
      requires |now| == |a| + 1 && l <= top && |path| == top - l + 1 && LinksAt(now, |a|, l) == links && links != []
      requires Nearest(a, dq, l, path[top - l], links)
      ensures LevelDone(a, now, dq, top, path + [links[0]], l)
    {
      hide Nearest, LinksAt;
    }

    static lemma ConnectedShape(first: seq<Node<V>>, was: seq<Node<V>>, now: seq<Node<V>>, lvl: nat)
      requires SameShape(first, was) && SameBut(was, now, lvl)
      ensures SameShape(first, now) && |now| == |was| && forall x :: 0 <= x < |was| ==> Level(now, x) == Level(was, x)
    {
    }

    lemma LinkingEnds(a: seq<Node<V>>, b: seq<Node<V>>, dq: V -> int, top: nat, level: nat, from: nat, path: seq<nat>)
      requires |b| == |a| + 1 && Level(b, |a|) == level && |path| == top + 2 && Descent(a, dq, top, from, path)
      requires Linking(a, b, dq, top, level, -1, path)
      ensures LinkedIn(a, b, dq, top, from, path) && forall l: nat :: LinkedBack(a, b, l)
    {
      hide LevelDone, LinkedBack, Descent;
    }

    static lemma ShapeVec(a: seq<Node<V>>, b: seq<Node<V>>, x: nat)
      requires SameShape(a, b) && x < |a|
      ensures b[x].vec == a[x].vec
    {
    }

    static ghost function Ids(n: nat): (s: set<nat>)
      ensures forall x: nat :: x in s <==> x < n
    {
      if n == 0 then {} else Ids(n - 1) + {n - 1}
    }

    /** The same nodes, apart from their links. */
    static ghost predicate SameShape(a: seq<Node<V>>, b: seq<Node<V>>) {
      && |a| == |b|
      && forall x :: 0 <= x < |a| ==>
        a[x].name == b[x].name && a[x].vec == b[x].vec && a[x].deleted == b[x].deleted && |a[x].links| == |b[x].links|
    }

    static lemma NewLabelOk(a: seq<Node<V>>, b: seq<Node<V>>, labels: map<string, nat>, name: string)
      requires LabelsOk(a, labels) && |b| == |a| + 1 && b[..|a|] == a && name !in labels
      requires b[|a|].name == name && !b[|a|].deleted
      ensures LabelsOk(b, labels[name := |a|])
    {
      assert forall x :: 0 <= x < |a| ==> b[x] == b[..|a|][x];
    }

    static lemma ShapeLabels(a: seq<Node<V>>, b: seq<Node<V>>, labels: map<string, nat>)
      requires SameShape(a, b) && LabelsOk(a, labels)
      ensures LabelsOk(b, labels) && |a| == |b| && forall x :: 0 <= x < |a| ==> Level(b, x) == Level(a, x)
      ensures forall x :: 0 <= x < |a| ==>
        b[x].name == a[x].name && b[x].vec == a[x].vec && b[x].deleted == a[x].deleted
    {
    }

    static lemma SameShapeSelf(a: seq<Node<V>>)
      ensures SameShape(a, a)
    {
    }

    /** Removal leaves the node in the graph as a tombstone. */
    method Remove(name: string) returns (removed: bool)
      requires Valid()
      modifies this
      ensures Valid() && removed == (name in old(labels)) && labels == old(labels) - {name}
      ensures |nodes| == |old(nodes)|
      ensures forall x :: 0 <= x < |nodes| ==>
        nodes[x] == if removed && x == old(labels)[name] then old(nodes)[x].(deleted := true) else old(nodes)[x]
    {
      if name !in labels {
        assert labels == labels - {name};
        return false;
      }
      var id := labels[name];
      nodes := nodes[id := nodes[id].(deleted := true)];
      labels := labels - {name};
      ShapeKeeps(old(nodes), nodes, m);
      return true;
    }

    /** Distance from a query. */
    function DistanceFrom(q: V): V -> int {
      v => dist(q, v)
    }

    /** One level of the descent: `b` can be reached from `a`, is no farther, and no neighbour of `b` is closer. */
    static ghost predicate Hop(nodes: seq<Node<V>>, dq: V -> int, level: nat, a: nat, b: nat) {
      && a < |nodes| && b < |nodes|
      && LocalBest(nodes, dq, a, level, b) && Reached(nodes, level, a, b)
    }

    /** A greedy descent from `from`, one hop a level from `top` down. */
    static ghost predicate Descent(nodes: seq<Node<V>>, dq: V -> int, top: nat, from: nat, path: seq<nat>)
      requires 0 < |path| <= top + 2
    {
      var last := |path| - 1;
      if last == 0 then path[0] == from
      else Descent(nodes, dq, top, from, path[..last]) && Hop(nodes, dq, top - (last - 1), path[last - 1], path[last])
    }

    static lemma DescentNext(nodes: seq<Node<V>>, dq: V -> int, top: nat, from: nat, path: seq<nat>, b: nat)
      requires 0 < |path| <= top + 1 && Descent(nodes, dq, top, from, path)
      requires Hop(nodes, dq, top - (|path| - 1), path[|path| - 1], b)
      ensures Descent(nodes, dq, top, from, path + [b])
    {
      hide Hop;
      assert (path + [b])[..|path|] == path;
    }

    /** What a search answers: live labels at their distances, each once, best first. */
    ghost predicate Answers(query: V, k: nat, out: seq<(string, int)>)
      reads this
    {
      && |out| <= k
      && (forall i :: 0 <= i < |out| ==>
            out[i].0 in labels && labels[out[i].0] < |nodes| && out[i].1 == dist(query, nodes[labels[out[i].0]].vec))
      && forall i, j :: 0 <= i < j < |out| && out[i].0 in labels && out[j].0 in labels ==>
        out[i].0 != out[j].0 && Closer(Item(out[i].1, labels[out[i].0]), Item(out[j].1, labels[out[j].0]))
    }

    /** No live node of `s` was passed over for a worse one. */
    ghost predicate BestOf(s: set<nat>, query: V, k: nat, out: seq<(string, int)>)
      reads this
    {
      forall x :: x in s && x < |nodes| && !nodes[x].deleted ==>
        || (exists i :: 0 <= i < |out| && out[i].0 == nodes[x].name)
        || (|out| == k && forall i :: 0 <= i < |out| && out[i].0 in labels ==>
              Closer(Item(out[i].1, labels[out[i].0]), Item(dist(query, nodes[x].vec), x)))
    }

    /** Up to `k` nearest labels, all reached on the bottom layer from where the greedy descent from the entry ends;
        given room for every node, the best of all that can be reached from there. */
    method Search(vec: V, k: nat, ef: nat) returns (out: seq<(string, int)>, ghost path: seq<nat>)
      requires Valid()
      ensures Answers(prepare(vec), k, out)
      ensures entry < 0 || k == 0 ==> out == []
      ensures entry >= 0 && k > 0 ==>
        && |path| == maxLevel + 1 && Descent(nodes, DistanceFrom(prepare(vec)), maxLevel, entry, path)
        && var reached := ReachedSet(nodes, 0, path[maxLevel]);
          && (forall i :: 0 <= i < |out| ==> out[i].0 in labels && labels[out[i].0] in reached)
          && (Max(ef, k) >= |reached| ==> BestOf(reached, prepare(vec), k, out))
    {
      hide *;
      NothingAnswered(prepare(vec), k);
      out, path := [], [];
      if entry < 0 || k == 0 {
        return;
      }
      EntryInside();
      var q := prepare(vec);
      var dq := DistanceFrom(q);
      DistanceIs(q);
      var cur;
      cur, path := Descend(dq);
      var found := SearchLayer(nodes, dq, m, cur, Max(ef, k), 0);
      FoundInside(nodes, dq, cur, Max(ef, k), 0, found);
      FoundIsReached(nodes, dq, cur, Max(ef, k), 0, found);
      out := Report(q, dq, k, found);
    }

    /** The loop over the upper levels. */
    method Descend(dq: V -> int) returns (cur: nat, ghost path: seq<nat>)
      requires Valid() && entry >= 0
      ensures cur < |nodes| && |path| == maxLevel + 1 && path[maxLevel] == cur
      ensures Descent(nodes, dq, maxLevel, entry, path)
    {
      hide *;
      EntryInside();
      cur := entry;
      var lvl := maxLevel;
      path := [cur];
      DescentStarts(nodes, dq, maxLevel, cur);
      while lvl > 0
        invariant cur < |nodes| && 0 <= lvl <= maxLevel && |path| == maxLevel - lvl + 1 && path[maxLevel - lvl] == cur
        invariant Descent(nodes, dq, maxLevel, entry, path)
      {
        var nearest := SearchLayer(nodes, dq, m, cur, 1, lvl);
        FoundInside(nodes, dq, cur, 1, lvl, nearest);
        HopFound(nodes, dq, cur, 1, lvl, nearest);
        DescentNext(nodes, dq, maxLevel, entry, path, nearest[0]);
        cur := nearest[0];
        path := path + [cur];
        lvl := lvl - 1;
      }
    }

    lemma DistanceIs(q: V)
      ensures forall v :: DistanceFrom(q)(v) == dist(q, v)
    {
    }

    lemma NothingAnswered(q: V, k: nat)
      ensures Answers(q, k, [])
    {
    }

    lemma EntryInside()
      requires Valid() && entry >= 0
      ensures entry < |nodes| && maxLevel >= 0 && GraphOk(nodes, m)
    {
      hide ListOk, LabelsOk;
    }

    static lemma DescentStarts(nodes: seq<Node<V>>, dq: V -> int, top: nat, from: nat)
      ensures Descent(nodes, dq, top, from, [from])
    {
    }

    static lemma HopFound(nodes: seq<Node<V>>, dq: V -> int, cur: nat, ef: nat, level: nat, out: seq<nat>)
      requires cur < |nodes| && Found(nodes, dq, cur, ef, level, out) && LocalBest(nodes, dq, cur, level, out[0])
      ensures Hop(nodes, dq, level, cur, out[0])
    {
      FoundIsReached(nodes, dq, cur, ef, level, out);
    }

    static lemma FoundInside(nodes: seq<Node<V>>, dq: V -> int, cur: nat, ef: nat, level: nat, out: seq<nat>)
      requires cur < |nodes| && Found(nodes, dq, cur, ef, level, out)
      ensures out != [] && InOrder(nodes, dq, out) && out[0] < |nodes|
    {
    }

    /** Reporting the live ones among the nodes found, until there are `k`. */
    method Report(q: V, dq: V -> int, k: nat, found: seq<nat>) returns (out: seq<(string, int)>)
      requires Valid() && k > 0 && (forall v :: dq(v) == dist(q, v))
      requires InOrder(nodes, dq, found)
      ensures Answers(q, k, out)
      ensures forall i :: 0 <= i < |out| ==> out[i].0 in labels && labels[out[i].0] in found
      ensures forall s: set<nat> :: Elements(s, found) ==> BestOf(s, q, k, out)
    {
      hide GraphOk, LabelsOk, Answers, BestOf, Elements, Live, Rows;
      out := [];
      ghost var ids: seq<nat> := [];
      NoRows(dq);
      var i := 0;
      while i < |found|
        invariant 0 <= i <= |found| && ids == Live(nodes, found[..i]) && Rows(nodes, dq, ids, out) && |ids| == |out| < k
      {
        var id := found[i];
        OneMoreRow(dq, found, i, ids, out);
        if !nodes[id].deleted {
          out := out + [(nodes[id].name, dq(nodes[id].vec))];
          ids := ids + [id];
        }
        i := i + 1;
        if |out| >= k {
          break;
        }
      }
      Reported(q, dq, k, found, i, ids, out);
    }

    lemma NoRows(dq: V -> int)
      ensures Live(nodes, []) == [] && Rows(nodes, dq, [], [])
    {
    }

    lemma OneMoreRow(dq: V -> int, found: seq<nat>, i: nat, ids: seq<nat>, out: seq<(string, int)>)
      requires i < |found| && (forall j :: 0 <= j < |found| ==> found[j] < |nodes|)
      requires ids == Live(nodes, found[..i]) && Rows(nodes, dq, ids, out)
      ensures |ids| == |out|
      ensures Live(nodes, found[..i + 1]) == if nodes[found[i]].deleted then ids else ids + [found[i]]
      ensures Rows(nodes, dq, ids + [found[i]], out + [(nodes[found[i]].name, dq(nodes[found[i]].vec))])
    {
      assert found[..i + 1][..i] == found[..i];
      assert ids + [] == ids;
    }

    /** The nodes of a list that are not tombstones, in order. */
    static ghost function Live(nodes: seq<Node<V>>, s: seq<nat>): seq<nat>
      requires forall i :: 0 <= i < |s| ==> s[i] < |nodes|
    {
      if s == [] then []
      else
        var last := |s| - 1;
        Live(nodes, s[..last]) + if nodes[s[last]].deleted then [] else [s[last]]
    }

    static ghost predicate Rows(nodes: seq<Node<V>>, dq: V -> int, ids: seq<nat>, out: seq<(string, int)>) {
      && |ids| == |out|
      && forall i :: 0 <= i < |ids| ==> ids[i] < |nodes| && out[i] == (nodes[ids[i]].name, dq(nodes[ids[i]].vec))
    }

    /** Nodes from nearest to farthest. */
    static ghost predicate InOrder(nodes: seq<Node<V>>, dq: V -> int, s: seq<nat>) {
      && (forall i :: 0 <= i < |s| ==> s[i] < |nodes|)
      && forall i, j :: 0 <= i < j < |s| ==> Closer(ItemOf(nodes, dq, s[i]), ItemOf(nodes, dq, s[j]))
    }

    static lemma {:induction false} LiveElements(nodes: seq<Node<V>>, s: seq<nat>)
      requires forall i :: 0 <= i < |s| ==> s[i] < |nodes|
      ensures forall x :: x in Live(nodes, s) <==> x in s && !nodes[x].deleted
    {
      if s != [] {
        var last := |s| - 1;
        LiveElements(nodes, s[..last]);
        assert s == s[..last] + [s[last]];
      }
    }

    static lemma {:induction false} LiveOrder(nodes: seq<Node<V>>, dq: V -> int, s: seq<nat>)
      requires InOrder(nodes, dq, s)
      ensures InOrder(nodes, dq, Live(nodes, s))
    {
      if s != [] {
        var last := |s| - 1;
        LiveOrder(nodes, dq, s[..last]);
        LiveElements(nodes, s[..last]);
        var before, x := Live(nodes, s[..last]), s[last];
        forall i | 0 <= i < |before|
          ensures Closer(ItemOf(nodes, dq, before[i]), ItemOf(nodes, dq, x))
        {
          assert before[i] in s[..last];
          var k :| 0 <= k < last && s[..last][k] == before[i];
          assert s[k] == before[i];
        }
        assert InOrder(nodes, dq, before + [x]);
        assert before + [] == before;
      }
    }

    lemma Reported(q: V, dq: V -> int, k: nat, found: seq<nat>, n: nat, ids: seq<nat>, out: seq<(string, int)>)
      requires Valid() && k > 0 && n <= |found| && (forall v :: dq(v) == dist(q, v))
      requires InOrder(nodes, dq, found)
      requires ids == Live(nodes, found[..n]) && Rows(nodes, dq, ids, out) && |ids| <= k && (|ids| == k || n == |found|)
      ensures Answers(q, k, out)
      ensures forall i :: 0 <= i < |out| ==> out[i].0 in labels && labels[out[i].0] in found
      ensures forall s: set<nat> :: Elements(s, found) ==> BestOf(s, q, k, out)
    {
      hide GraphOk, Live;
      var part := found[..n];
      LiveOrder(nodes, dq, part);
      LiveElements(nodes, part);
      forall i | 0 <= i < |out|
        ensures out[i].0 in labels && labels[out[i].0] == ids[i] && out[i].1 == dist(q, nodes[ids[i]].vec)
        ensures ids[i] in found
      {
        assert ids[i] in ids;
        assert ids[i] in part;
      }
      forall s: set<nat> | Elements(s, found)
        ensures BestOf(s, q, k, out)
      {
        hide Elements;
        NoneBetter(q, dq, k, found, n, ids, out, s);
      }
    }

    lemma NoneBetter(q: V, dq: V -> int, k: nat, found: seq<nat>, n: nat, ids: seq<nat>, out: seq<(string, int)>,
        s: set<nat>)
      requires Valid() && n <= |found| && (forall v :: dq(v) == dist(q, v)) && Elements(s, found)
      requires InOrder(nodes, dq, found)
      requires ids == Live(nodes, found[..n]) && Rows(nodes, dq, ids, out) && (|ids| == k || n == |found|)
      requires forall i :: 0 <= i < |out| ==> out[i].0 in labels && labels[out[i].0] == ids[i]
      ensures BestOf(s, q, k, out)
    {
      hide Live, Valid, InOrder, Rows;
      assert |ids| == |out| by { SameLength(dq, ids, out); }
      forall x | x in s && x < |nodes| && !nodes[x].deleted
        ensures (exists i :: 0 <= i < |out| && out[i].0 == nodes[x].name)
          || (|out| == k && forall i :: 0 <= i < |out| && out[i].0 in labels ==>
                Closer(Item(out[i].1, labels[out[i].0]), Item(dist(q, nodes[x].vec), x)))
      {
        var p :| 0 <= p < |found| && found[p] == x;
        if p < n {
          var i := Listed(dq, found, n, ids, out, p);
        } else {
          PassedOver(q, dq, found, n, ids, out, p);
        }
      }
    }

    lemma SameLength(dq: V -> int, ids: seq<nat>, out: seq<(string, int)>)
      requires Rows(nodes, dq, ids, out)
      ensures |ids| == |out|
    {
    }

    /** A live node among the first `n` found has a row. */
    lemma Listed(dq: V -> int, found: seq<nat>, n: nat, ids: seq<nat>, out: seq<(string, int)>, p: nat) returns (i: nat)
      requires p < n <= |found| && InOrder(nodes, dq, found) && found[p] < |nodes| && !nodes[found[p]].deleted
      requires ids == Live(nodes, found[..n]) && Rows(nodes, dq, ids, out)
      ensures i < |out| && out[i].0 == nodes[found[p]].name
    {
      hide Live;
      LiveElements(nodes, found[..n]);
      assert found[..n][p] == found[p];
      i :| 0 <= i < |ids| && ids[i] == found[p];
    }

    /** A node found later is farther than every row. */
    lemma PassedOver(q: V, dq: V -> int, found: seq<nat>, n: nat, ids: seq<nat>, out: seq<(string, int)>, p: nat)
      requires n <= p < |found| && InOrder(nodes, dq, found) && found[p] < |nodes| && (forall v :: dq(v) == dist(q, v))
      requires ids == Live(nodes, found[..n]) && Rows(nodes, dq, ids, out)
      requires forall i :: 0 <= i < |out| ==> out[i].0 in labels && labels[out[i].0] == ids[i]
      ensures forall i :: 0 <= i < |out| && out[i].0 in labels ==>
        Closer(Item(out[i].1, labels[out[i].0]), Item(dist(q, nodes[found[p]].vec), found[p]))
    {
      hide Live;
      LiveElements(nodes, found[..n]);
      forall i | 0 <= i < |out|
        ensures Closer(Item(out[i].1, labels[out[i].0]), Item(dist(q, nodes[found[p]].vec), found[p]))
      {
        assert ids[i] in found[..n];
        var c :| 0 <= c < n && found[..n][c] == ids[i];
        assert Closer(ItemOf(nodes, dq, found[c]), ItemOf(nodes, dq, found[p]));
      }
    }

    static method ChooseLinks(candidates: seq<nat>, id: nat, most: nat) returns (links: seq<nat>)
      ensures links == Chosen(candidates, id, if most == 0 then 1 else most)
    {
      links := [];
      ghost var bound := if most == 0 then 1 else most;
      for i := 0 to |candidates|
        invariant links == Chosen(candidates[..i], id, bound) && |links| < bound
      {
        var c := candidates[i];
        assert candidates[..i + 1][..i] == candidates[..i];
        if c != id {
          links := links + [c];
          if |links| >= most {
            ChosenFull(candidates, id, bound, i + 1);
            return;
          }
        }
      }
      assert candidates[..|candidates|] == candidates;
    }

    static lemma ChosenLinkable(nodes: seq<Node<V>>, m: nat, id: nat, level: nat, candidates: seq<nat>)
      requires Linkable(nodes, level, candidates) && id < |nodes|
      ensures var links := Chosen(candidates, id, Degree(m, level));
        Linkable(nodes, level, links) && id !in links && ListOk(nodes, m, id, level, links)
    {
      ChosenOk(candidates, id, Degree(m, level));
      hide Chosen;
      var links := Chosen(candidates, id, Degree(m, level));
      forall i | 0 <= i < |links|
        ensures links[i] < |nodes| && level <= Level(nodes, links[i])
      {
        assert links[i] in candidates;
      }
    }

    /** The neighbours from position `i` on do not link back to `id` yet. */
    static ghost predicate NotYet(nodes: seq<Node<V>>, id: nat, level: nat, links: seq<nat>, i: nat) {
      id !in links && forall k :: i <= k < |links| && links[k] < |nodes| ==> id !in LinksAt(nodes, links[k], level)
    }

    static lemma StillNotLinked(a: seq<Node<V>>, b: seq<Node<V>>, id: nat, level: nat, links: seq<nat>)
      requires NotLinked(a, id, level) && |a| == |b| && id < |a| && id !in links
      requires forall y :: 0 <= y < |a| && y != id ==> LinksAt(b, y, level) == LinksAt(a, y, level)
      ensures NotYet(b, id, level, links, 0)
    {
    }

    static lemma NotYetAt(nodes: seq<Node<V>>, m: nat, id: nat, level: nat, links: seq<nat>, i: nat)
      requires i < |links| && NotYet(nodes, id, level, links, i) && Linkable(nodes, level, links) && GraphOk(nodes, m)
      ensures var c := links[i];
        && c < |nodes| && c != id && level <= Level(nodes, c)
        && id !in LinksAt(nodes, c, level) && NoRepeats(nodes[c].links[level])
    {
      var c := links[i];
      assert ListOk(nodes, m, c, level, nodes[c].links[level]);
    }

    static lemma NotYetNext(a: seq<Node<V>>, b: seq<Node<V>>, id: nat, level: nat, links: seq<nat>, i: nat)
      requires i < |links| && |a| == |b| && NotYet(a, id, level, links, i) && Linkable(a, level, links)
      requires forall y :: 0 <= y < |a| && y != links[i] ==> LinksAt(b, y, level) == LinksAt(a, y, level)
      ensures NotYet(b, id, level, links, i + 1)
    {
    }
  }
}

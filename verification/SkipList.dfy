/** The indexable skip list: linked towers with spans that refine a sorted sequence of entries. */
module SkipLists {
  import opened Ordering

  const MAX_LEVEL := 32

  datatype Level = Level(forward: Node?, span: nat)

  class Node {
    const member: string
    const score: int
    var backward: Node?
    var level: seq<Level>

    constructor (member: string, score: int, lvl: nat)
      ensures this.member == member && this.score == score && backward == null
      ensures level == seq(lvl, _ => Level(null, 0))
    {
      this.member, this.score, backward := member, score, null;
      level := seq(lvl, _ => Level(null, 0));
    }
  }

  function KeyOf(n: Node): Key { Key(n.score, n.member) }

  // ---------------------------------------------------------------------------
  // Towers as values: position 0 is the head, `T[p]` the tower at position p.
  // ---------------------------------------------------------------------------

  /** The position a link leads to; |T| when it is null. */
  ghost function Target(T: seq<seq<Level>>, p: nat, i: nat): nat
    requires p < |T| && i < |T[p]|
  {
    if T[p][i].forward == null then |T| else p + T[p][i].span
  }

  /** A level-i link leads to the next tower taller than i, and its span is the gap. A null link counts what follows. */
  ghost predicate Link(nodes: seq<Node>, T: seq<seq<Level>>, p: nat, i: nat)
    requires |T| == |nodes| && p < |T| && i < |T[p]|
  {
    var q := Target(T, p, i);
    && p < q <= |nodes|
    && (if T[p][i].forward == null then T[p][i].span == |nodes| - 1 - p
        else q < |nodes| && T[p][i].forward == nodes[q] && i < |T[q]|)
    && forall r :: p < r < q ==> |T[r]| <= i
  }

  ghost predicate Linked(nodes: seq<Node>, T: seq<seq<Level>>, live: nat) {
    && |T| == |nodes|
    && forall p, i :: 0 <= p < |T| && 0 <= i < |T[p]| && i < live ==> Link(nodes, T, p, i)
  }

  ghost predicate Shape(T: seq<seq<Level>>, live: nat) {
    && 1 <= live <= MAX_LEVEL
    && 1 <= |T| && |T[0]| == MAX_LEVEL
    && (forall p :: 1 <= p < |T| ==> 1 <= |T[p]| <= live)
    && (forall i :: live <= i < MAX_LEVEL ==> T[0][i].forward == null)
  }

  /** `p` is the last position before `ip` whose tower is taller than i. */
  ghost predicate Pred(T: seq<seq<Level>>, ip: nat, i: nat, p: nat)
    requires ip <= |T|
  {
    p < ip && i < |T[p]| && forall r :: p < r < ip ==> |T[r]| <= i
  }

  /** Raising the list's level: the head gets null links that span the whole list. */
  lemma RaiseLinked(nodes: seq<Node>, T: seq<seq<Level>>, T': seq<seq<Level>>, live: nat, lvl: nat)
    requires Linked(nodes, T, live) && Shape(T, live) && live < lvl <= MAX_LEVEL
    requires |T'| == |T| && |T'[0]| == MAX_LEVEL && forall p :: 1 <= p < |T| ==> T'[p] == T[p]
    requires forall i :: 0 <= i < MAX_LEVEL ==>
      T'[0][i] == if live <= i < lvl then T[0][i].(span := |nodes| - 1) else T[0][i]
    ensures Linked(nodes, T', lvl) && Shape(T', lvl)
  {
    forall p, i | 0 <= p < |T'| && 0 <= i < |T'[p]| && i < lvl ensures Link(nodes, T', p, i) {
      if i < live {
        assert Link(nodes, T, p, i);
        assert T'[p][i] == T[p][i];
        assert forall r :: 0 <= r < |T| ==> |T'[r]| == |T[r]|;
      }
    }
  }

  /** What an insertion of height `lvl` at position `ip` does to the towers around it. */
  ghost predicate InsertStep(nodes: seq<Node>, T: seq<seq<Level>>, x: Node, T': seq<seq<Level>>,
                             ip: nat, lvl: nat, live: nat, rank: seq<nat>)
  {
    && 1 <= ip <= |T| && |T| == |nodes| && 1 <= lvl <= live && |rank| >= live
    && (forall i :: 0 <= i < live ==> Pred(T, ip, i, rank[i]))
    && |T'| == |T| + 1 && |T'[ip]| == lvl
    && (forall p :: ip < p < |T'| ==> T'[p] == T[p - 1])
    && (forall p :: 0 <= p < ip ==> |T'[p]| == |T[p]|)
    && (forall i :: 0 <= i < lvl ==>
          T[rank[i]][i].span >= ip - 1 - rank[i] &&
          T'[ip][i] == Level(T[rank[i]][i].forward, T[rank[i]][i].span - (ip - 1 - rank[i])))
    && (forall p, i {:trigger T'[p][i]} {:trigger T[p][i]} :: 0 <= p < ip && 0 <= i < |T[p]| && i < live ==>
          T'[p][i] == if rank[i] != p then T[p][i]
                      else if i < lvl then Level(x, ip - rank[i])
                      else Level(T[p][i].forward, T[p][i].span + 1))
    && (forall i :: live <= i < |T[0]| ==> T'[0][i] == T[0][i])
  }

  lemma InsertLinked(nodes: seq<Node>, T: seq<seq<Level>>, x: Node, T': seq<seq<Level>>,
                     ip: nat, lvl: nat, live: nat, rank: seq<nat>)
    requires Linked(nodes, T, live) && Shape(T, live)
    requires InsertStep(nodes, T, x, T', ip, lvl, live, rank)
    ensures Linked(Spliced(nodes, ip, x), T', live) && Shape(T', live)
  {
    var nodes' := Spliced(nodes, ip, x);
    forall p, i | 0 <= p < |T'| && 0 <= i < |T'[p]| && i < live ensures Link(nodes', T', p, i) {
      if p < ip {
        if rank[i] == p {
          InsertLinkAtPred(nodes, T, x, T', ip, lvl, live, rank, i);
        } else {
          InsertLinkBefore(nodes, T, x, T', ip, lvl, live, rank, p, i);
        }
      } else if p == ip {
        InsertLinkNew(nodes, T, x, T', ip, lvl, live, rank, i);
      } else {
        InsertLinkAfter(nodes, T, x, T', ip, lvl, live, rank, p, i);
      }
    }
  }

  lemma InsertLinkBefore(nodes: seq<Node>, T: seq<seq<Level>>, x: Node, T': seq<seq<Level>>,
                         ip: nat, lvl: nat, live: nat, rank: seq<nat>, p: nat, i: nat)
    requires Linked(nodes, T, live) && InsertStep(nodes, T, x, T', ip, lvl, live, rank)
    requires p < ip && i < |T'[p]| && i < live && rank[i] != p
    ensures Link(Spliced(nodes, ip, x), T', p, i)
  {
    assert Link(nodes, T, p, i) && Pred(T, ip, i, rank[i]);
    var q := Target(T, p, i);
    assert p < q <= rank[i] < ip;
    assert T'[p][i] == T[p][i];
  }

  lemma InsertLinkAtPred(nodes: seq<Node>, T: seq<seq<Level>>, x: Node, T': seq<seq<Level>>,
                         ip: nat, lvl: nat, live: nat, rank: seq<nat>, i: nat)
    requires Linked(nodes, T, live) && InsertStep(nodes, T, x, T', ip, lvl, live, rank)
    requires i < live
    ensures Link(Spliced(nodes, ip, x), T', rank[i], i)
  {
    var p := rank[i];
    assert Pred(T, ip, i, p) && Link(nodes, T, p, i);
    if i < lvl {
      assert T'[p][i] == Level(x, ip - p);
    } else {
      var q := Target(T, p, i);
      assert ip <= q;
      assert T'[p][i] == Level(T[p][i].forward, T[p][i].span + 1);
      assert Target(T', p, i) == q + 1;
      forall r | p < r < q + 1 ensures |T'[r]| <= i {
        assert r > ip ==> T'[r] == T[r - 1];
      }
      if T[p][i].forward != null {
        assert T'[q + 1] == T[q];
      }
    }
  }

  lemma InsertLinkNew(nodes: seq<Node>, T: seq<seq<Level>>, x: Node, T': seq<seq<Level>>,
                      ip: nat, lvl: nat, live: nat, rank: seq<nat>, i: nat)
    requires Linked(nodes, T, live) && InsertStep(nodes, T, x, T', ip, lvl, live, rank)
    requires i < lvl
    ensures Link(Spliced(nodes, ip, x), T', ip, i)
  {
    var p := rank[i];
    assert Pred(T, ip, i, p) && Link(nodes, T, p, i);
    var q := Target(T, p, i);
    assert ip <= q;
    assert Target(T', ip, i) == q + 1;
    forall r | ip < r < q + 1 ensures |T'[r]| <= i {
      assert T'[r] == T[r - 1];
    }
    if T[p][i].forward != null {
      assert T'[q + 1] == T[q];
    }
  }

  lemma InsertLinkAfter(nodes: seq<Node>, T: seq<seq<Level>>, x: Node, T': seq<seq<Level>>,
                        ip: nat, lvl: nat, live: nat, rank: seq<nat>, p: nat, i: nat)
    requires Linked(nodes, T, live) && InsertStep(nodes, T, x, T', ip, lvl, live, rank)
    requires ip < p < |T'| && i < |T'[p]| && i < live
    ensures Link(Spliced(nodes, ip, x), T', p, i)
  {
    assert T'[p] == T[p - 1];
    assert Link(nodes, T, p - 1, i);
    var q := Target(T, p - 1, i);
    assert Target(T', p, i) == q + 1;
    forall r | p < r < q + 1 ensures |T'[r]| <= i {
      assert T'[r] == T[r - 1];
    }
    if T[p - 1][i].forward != null {
      assert T'[q + 1] == T[q];
    }
  }

  /** After linking the lowest `n` levels of the new tower `X` in. */
  ghost predicate LevelsLinked(T: seq<seq<Level>>, U: seq<seq<Level>>, x: Node, X: seq<Level>, ip: nat,
                               rank: seq<nat>, n: nat)
  {
    && |U| == |T| && n <= |X| <= |rank|
    && (forall p :: 0 <= p < |U| ==> |U[p]| == |T[p]|)
    && (forall j :: 0 <= j < n ==> rank[j] < ip <= |T| && j < |T[rank[j]]| && T[rank[j]][j].span >= ip - 1 - rank[j])
    && (forall j :: 0 <= j < n ==>
          X[j] == Level(T[rank[j]][j].forward, T[rank[j]][j].span - (ip - 1 - rank[j])))
    && (forall p, j {:trigger U[p][j]} {:trigger T[p][j]} :: 0 <= p < |U| && 0 <= j < |U[p]| ==>
          U[p][j] == if j < n && rank[j] == p then Level(x, ip - p) else T[p][j])
  }

  /** The predecessor's span reaches past the insertion point. */
  lemma PredSpan(nodes: seq<Node>, T: seq<seq<Level>>, live: nat, ip: nat, i: nat, p: nat)
    requires Linked(nodes, T, live) && ip <= |T| && i < live && Pred(T, ip, i, p)
    ensures p < ip && i < |T[p]| && T[p][i].span >= ip - 1 - p
  {
    assert Link(nodes, T, p, i);
  }

  lemma LinkNoLevel(T: seq<seq<Level>>, x: Node, X: seq<Level>, ip: nat, rank: seq<nat>)
    requires |X| <= |rank|
    ensures LevelsLinked(T, T, x, X, ip, rank, 0)
  {
  }

  lemma LinkOneLevel(T: seq<seq<Level>>, U: seq<seq<Level>>, x: Node, X: seq<Level>, ip: nat, rank: seq<nat>, n: nat,
                     p: nat, gap: nat)
    requires LevelsLinked(T, U, x, X, ip, rank, n) && n < |X|
    requires p == rank[n] < ip <= |T| && n < |T[p]| && T[p][n].span >= gap == ip - 1 - p
    ensures |U| == |T| && n < |U[p]| && U[p][n] == T[p][n]
    ensures LevelsLinked(T, U[p := U[p][n := Level(x, gap + 1)]], x,
                         X[n := Level(U[p][n].forward, U[p][n].span - gap)], ip, rank, n + 1)
  {
  }

  ghost predicate SpansWidened(U: seq<seq<Level>>, W: seq<seq<Level>>, lvl: nat, live: nat, rank: seq<nat>)
    requires live <= |rank|
  {
    && |W| == |U| && (forall p :: 0 <= p < |U| ==> |W[p]| == |U[p]|)
    && forall p, j {:trigger W[p][j]} {:trigger U[p][j]} :: 0 <= p < |U| && 0 <= j < |U[p]| ==>
         W[p][j] == if lvl <= j < live && rank[j] == p then Level(U[p][j].forward, U[p][j].span + 1) else U[p][j]
  }

  lemma WidenedBeyond(T: seq<seq<Level>>, U: seq<seq<Level>>, W: seq<seq<Level>>,
                      x: Node, X: seq<Level>, ip: nat, live: nat, rank: seq<nat>, p: nat)
    requires 1 <= ip <= p < |T| && |X| <= live <= |rank|
    requires forall i :: 0 <= i < live ==> Pred(T, ip, i, rank[i])
    requires LevelsLinked(T, U, x, X, ip, rank, |X|) && SpansWidened(U, W, |X|, live, rank)
    ensures W[p] == T[p]
  {
    forall j | 0 <= j < |T[p]| ensures W[p][j] == T[p][j] {
      assert j < live ==> Pred(T, ip, j, rank[j]);
      assert W[p][j] == U[p][j];
    }
  }

  lemma StepsCompose(nodes: seq<Node>, T: seq<seq<Level>>, U: seq<seq<Level>>, W: seq<seq<Level>>,
                     x: Node, X: seq<Level>, ip: nat, live: nat, rank: seq<nat>)
    requires |T| == |nodes| && 1 <= ip <= |T| && 1 <= |X| <= live <= |rank| && Shape(T, live)
    requires forall i :: 0 <= i < live ==> Pred(T, ip, i, rank[i])
    requires LevelsLinked(T, U, x, X, ip, rank, |X|) && SpansWidened(U, W, |X|, live, rank)
    ensures InsertStep(nodes, T, x, Spliced(W, ip, X), ip, |X|, live, rank)
  {
    var T' := Spliced(W, ip, X);
    forall p | ip < p < |T'| ensures T'[p] == T[p - 1] {
      WidenedBeyond(T, U, W, x, X, ip, live, rank, p - 1);
      assert T'[p] == W[p - 1];
    }
    forall p | 0 <= p < ip ensures |T'[p]| == |T[p]| && T'[p] == W[p] {
      assert |W[p]| == |U[p]| == |T[p]|;
    }
  }

  lemma InsertedTowers(nodes: seq<Node>, T: seq<seq<Level>>, U: seq<seq<Level>>, W: seq<seq<Level>>,
                       x: Node, X: seq<Level>, ip: nat, live: nat, rank: seq<nat>)
    requires |T| == |nodes| && 1 <= ip <= |T| && 1 <= |X| <= live <= |rank|
    requires Shape(T, live) && Linked(nodes, T, live)
    requires forall i :: 0 <= i < live ==> Pred(T, ip, i, rank[i])
    requires LevelsLinked(T, U, x, X, ip, rank, |X|) && SpansWidened(U, W, |X|, live, rank)
    ensures |W| == |T|
    ensures Shape(Spliced(W, ip, X), live) && Linked(Spliced(nodes, ip, x), Spliced(W, ip, X), live)
    ensures X[0].forward == if ip < |nodes| then nodes[ip] else null
  {
    StepsCompose(nodes, T, U, W, x, X, ip, live, rank);
    var T' := Spliced(W, ip, X);
    InsertLinked(nodes, T, x, T', ip, |X|, live, rank);
    LevelZero(Spliced(nodes, ip, x), T', live, ip);
    assert T'[ip] == X;
  }

  /** What taking out position `ip` does to the towers around it. */
  ghost predicate RemoveStep(nodes: seq<Node>, T: seq<seq<Level>>, T': seq<seq<Level>>,
                             ip: nat, live: nat, rank: seq<nat>)
  {
    && 1 <= ip < |T| && |T| == |nodes| && |rank| >= live
    && (forall i :: 0 <= i < live ==> Pred(T, ip, i, rank[i]))
    && |T'| == |T| - 1
    && (forall p :: ip <= p < |T'| ==> T'[p] == T[p + 1])
    && (forall p :: 0 <= p < ip ==> |T'[p]| == |T[p]|)
    && (forall i :: 0 <= i < live ==> T[rank[i]][i].span >= 1)
    && (forall p, i {:trigger T'[p][i]} {:trigger T[p][i]} :: 0 <= p < ip && 0 <= i < |T[p]| && i < live ==>
          T'[p][i] == if rank[i] != p then T[p][i]
                      else if i < |T[ip]| then Level(T[ip][i].forward, T[p][i].span + T[ip][i].span - 1)
                      else Level(T[p][i].forward, T[p][i].span - 1))
    && (forall i :: live <= i < |T[0]| ==> T'[0][i] == T[0][i])
  }

  lemma RemoveLinked(nodes: seq<Node>, T: seq<seq<Level>>, T': seq<seq<Level>>,
                     ip: nat, live: nat, rank: seq<nat>)
    requires Linked(nodes, T, live) && Shape(T, live)
    requires RemoveStep(nodes, T, T', ip, live, rank)
    ensures Linked(Dropped(nodes, ip), T', live) && Shape(T', live)
  {
    forall p, i | 0 <= p < |T'| && 0 <= i < |T'[p]| && i < live ensures Link(Dropped(nodes, ip), T', p, i) {
      if p >= ip {
        RemoveLinkAfter(nodes, T, T', ip, live, rank, p, i);
      } else if rank[i] == p {
        RemoveLinkAtPred(nodes, T, T', ip, live, rank, i);
      } else {
        assert Link(nodes, T, p, i) && Pred(T, ip, i, rank[i]);
        assert p < Target(T, p, i) <= rank[i] < ip;
        assert T'[p][i] == T[p][i];
      }
    }
  }

  lemma RemoveLinkAfter(nodes: seq<Node>, T: seq<seq<Level>>, T': seq<seq<Level>>,
                        ip: nat, live: nat, rank: seq<nat>, p: nat, i: nat)
    requires Linked(nodes, T, live) && RemoveStep(nodes, T, T', ip, live, rank)
    requires ip <= p < |T'| && i < |T'[p]| && i < live
    ensures Link(Dropped(nodes, ip), T', p, i)
  {
    assert T'[p] == T[p + 1];
    assert Link(nodes, T, p + 1, i);
    var q := Target(T, p + 1, i);
    assert Target(T', p, i) == q - 1;
    forall r | p < r < q - 1 ensures |T'[r]| <= i {
      assert T'[r] == T[r + 1];
    }
    if T[p + 1][i].forward != null {
      assert T'[q - 1] == T[q];
    }
  }

  lemma RemoveLinkAtPred(nodes: seq<Node>, T: seq<seq<Level>>, T': seq<seq<Level>>,
                         ip: nat, live: nat, rank: seq<nat>, i: nat)
    requires Linked(nodes, T, live) && RemoveStep(nodes, T, T', ip, live, rank)
    requires i < live
    ensures Link(Dropped(nodes, ip), T', rank[i], i)
  {
    var p := rank[i];
    assert Pred(T, ip, i, p) && Link(nodes, T, p, i);
    var q := Target(T, p, i);
    if i < |T[ip]| {
      assert Link(nodes, T, ip, i);
      assert q == ip;
      var q2 := Target(T, ip, i);
      assert Target(T', p, i) == q2 - 1;
      forall r | p < r < q2 - 1 ensures |T'[r]| <= i {
        assert r >= ip ==> T'[r] == T[r + 1];
      }
      if T[ip][i].forward != null {
        assert T'[q2 - 1] == T[q2];
      }
    } else {
      assert ip < q;
      assert Target(T', p, i) == q - 1;
      forall r | p < r < q - 1 ensures |T'[r]| <= i {
        assert r >= ip ==> T'[r] == T[r + 1];
      }
      if T[p][i].forward != null {
        assert T'[q - 1] == T[q];
      }
    }
  }

  /** After unlinking the lowest `n` levels at position `ip`. */
  ghost predicate LevelsUnlinked(T: seq<seq<Level>>, U: seq<seq<Level>>, ip: nat, rank: seq<nat>, n: nat) {
    && |U| == |T| && ip < |T| && n <= |rank|
    && (forall p :: 0 <= p < |U| ==> |U[p]| == |T[p]|)
    && (forall j :: 0 <= j < n ==> rank[j] < ip && j < |T[rank[j]]| && T[rank[j]][j].span >= 1)
    && (forall p, j {:trigger U[p][j]} {:trigger T[p][j]} :: 0 <= p < |U| && 0 <= j < |U[p]| ==>
          U[p][j] == if j >= n || rank[j] != p then T[p][j]
                     else if j < |T[ip]| then Level(T[ip][j].forward, T[p][j].span + T[ip][j].span - 1)
                     else Level(T[p][j].forward, T[p][j].span - 1))
  }

  lemma UnlinkNoLevel(T: seq<seq<Level>>, ip: nat, rank: seq<nat>)
    requires ip < |T|
    ensures LevelsUnlinked(T, T, ip, rank, 0)
  {
  }

  /** What one level's unlinking reads and writes. */
  lemma UnlinkOneLevel(T: seq<seq<Level>>, U: seq<seq<Level>>, ip: nat, rank: seq<nat>, n: nat, p: nat, l: Level)
    requires LevelsUnlinked(T, U, ip, rank, n) && n < |rank|
    requires p == rank[n] < ip && n < |T[p]| && T[p][n].span >= 1
    requires l == if n < |T[ip]| then Level(T[ip][n].forward, T[p][n].span + T[ip][n].span - 1)
                  else Level(T[p][n].forward, T[p][n].span - 1)
    ensures |U| == |T| && n < |U[p]| && U[p][n] == T[p][n] && |U[ip]| == |T[ip]| &&
      (n < |T[ip]| ==> U[ip][n] == T[ip][n])
    ensures LevelsUnlinked(T, U[p := U[p][n := l]], ip, rank, n + 1)
  {
  }

  /** The predecessor's link leads to the node at `ip` exactly when that node is tall enough. */
  lemma PredLink(nodes: seq<Node>, T: seq<seq<Level>>, live: nat, ip: nat, i: nat, p: nat)
    requires Linked(nodes, T, live) && Distinct(nodes) && ip < |T| && i < live && Pred(T, ip, i, p)
    ensures p < ip && i < |T[p]| && T[p][i].span >= 1
    ensures T[p][i].forward == nodes[ip] <==> i < |T[ip]|
  {
    assert Link(nodes, T, p, i);
    var q := Target(T, p, i);
    assert ip <= q;
    if i < |T[ip]| {
      assert q == ip;
    }
  }

  lemma UnlinkedBeyond(T: seq<seq<Level>>, U: seq<seq<Level>>, ip: nat, live: nat, rank: seq<nat>, p: nat)
    requires LevelsUnlinked(T, U, ip, rank, live) && ip <= p < |T|
    ensures U[p] == T[p]
  {
    forall j | 0 <= j < |T[p]| ensures U[p][j] == T[p][j] {
      assert j < live ==> rank[j] < ip;
    }
  }

  lemma RemovedTowers(nodes: seq<Node>, T: seq<seq<Level>>, U: seq<seq<Level>>, ip: nat, live: nat, rank: seq<nat>)
    requires |T| == |nodes| && 1 <= ip < |T| && live <= |rank|
    requires Shape(T, live) && Linked(nodes, T, live)
    requires forall i :: 0 <= i < live ==> Pred(T, ip, i, rank[i])
    requires LevelsUnlinked(T, U, ip, rank, live)
    ensures |U| == |T|
    ensures Shape(Dropped(U, ip), live) && Linked(Dropped(nodes, ip), Dropped(U, ip), live)
  {
    var T' := Dropped(U, ip);
    forall p | ip <= p < |T'| ensures T'[p] == T[p + 1] {
      UnlinkedBeyond(T, U, ip, live, rank, p + 1);
      assert T'[p] == U[p + 1];
    }
    RemoveLinked(nodes, T, T', ip, live, rank);
  }

  /** A level whose head link is null holds no tower, so the list's level may drop. */
  lemma LowerLinked(nodes: seq<Node>, T: seq<seq<Level>>, live: nat)
    requires Linked(nodes, T, live) && Shape(T, live) && live > 1 && T[0][live - 1].forward == null
    ensures Linked(nodes, T, live - 1) && Shape(T, live - 1)
  {
    assert Link(nodes, T, 0, live - 1);
  }

  // ---------------------------------------------------------------------------
  // The list
  // ---------------------------------------------------------------------------

  /** The entries of a list: all nodes but the head. */
  function KeysOf(nodes: seq<Node>): (keys: seq<Key>)
    requires nodes != []
    ensures |keys| == |nodes| - 1
  {
    seq(|nodes| - 1, i requires 0 <= i < |nodes| - 1 => KeyOf(nodes[i + 1]))
  }

  ghost predicate Distinct(nodes: seq<Node>) {
    forall p, q :: 0 <= p < q < |nodes| ==> nodes[p] != nodes[q]
  }

  ghost predicate BackLinked(nodes: seq<Node>)
    reads nodes
  {
    forall p {:trigger nodes[p].backward} :: 1 <= p < |nodes| ==>
      nodes[p].backward == if p == 1 then null else nodes[p - 1]
  }

  lemma SplicedKeys(nodes: seq<Node>, ip: nat, x: Node)
    requires nodes != [] && Distinct(nodes) && x !in nodes && Sorted(KeysOf(nodes))
    requires KeyOf(x) !in KeysOf(nodes) && ip == Rank(KeysOf(nodes), KeyOf(x)) + 1
    ensures Distinct(Spliced(nodes, ip, x)) && Sorted(KeysOf(Spliced(nodes, ip, x)))
    ensures KeysOf(Spliced(nodes, ip, x)) == InsertKey(KeysOf(nodes), KeyOf(x))
  {
    KeysOfSpliced(nodes, ip, x);
    InsertKeySorted(KeysOf(nodes), KeyOf(x));
    SplicedDistinct(nodes, ip, x);
  }

  lemma SplicedNodes(s: seq<Node>, at: nat, x: Node, T': seq<seq<Level>>, t: seq<Node>, repr: set<Node>)
    requires 1 <= at <= |s| && |T'| == |s| + 1 && t == Spliced(s, at, x)
    requires forall p :: 0 <= p < |s| ==> s[p] in repr
    requires T'[at] == x.level
    requires forall p :: 0 <= p < at ==> s[p].level == T'[p]
    requires forall p {:trigger s[p]} :: at <= p < |s| ==> s[p].level == T'[p + 1]
    requires forall p {:trigger s[p].backward} :: 1 <= p < |s| && p != at ==>
      s[p].backward == if p == 1 then null else s[p - 1]
    requires x.backward == (if at == 1 then null else s[at - 1]) && (at < |s| ==> s[at].backward == x)
    ensures |t| == |s| + 1 && forall p :: 0 <= p < |t| ==> t[p] in repr + {x} && t[p].level == T'[p]
    ensures BackLinked(t) && t[0] == s[0] && t[|s|] == if at < |s| then s[|s| - 1] else x
  {
    SplicedAt(s, at, x);
    forall p | 0 <= p < |t| ensures t[p] in repr + {x} && t[p].level == T'[p] {
      if p > at {
        assert t[p] == s[p - 1];
      }
    }
    forall p | 1 <= p < |t| ensures t[p].backward == if p == 1 then null else t[p - 1] {
      if p < at {
        assert t[p] == s[p];
      } else if p > at {
        assert t[p] == s[p - 1];
      }
    }
  }

  /** Where `k` belongs: the nodes before position `ip`, and only those, come before `k`. */
  ghost predicate SplitsAt(nodes: seq<Node>, k: Key, ip: nat) {
    && 1 <= ip <= |nodes|
    && forall p :: 1 <= p < |nodes| ==> (Less(KeyOf(nodes[p]), k) <==> p < ip)
  }

  lemma RankSplitsNodes(nodes: seq<Node>, k: Key)
    requires nodes != [] && Sorted(KeysOf(nodes))
    ensures SplitsAt(nodes, k, Rank(KeysOf(nodes), k) + 1)
  {
    var keys := KeysOf(nodes);
    RankSplits(keys, k);
    forall p | 1 <= p < |nodes| ensures Less(KeyOf(nodes[p]), k) <==> p < Rank(keys, k) + 1 {
      assert keys[p - 1] == KeyOf(nodes[p]);
    }
  }

  lemma KeysOfSpliced(nodes: seq<Node>, at: nat, x: Node)
    requires 1 <= at <= |nodes|
    ensures KeysOf(Spliced(nodes, at, x)) == Spliced(KeysOf(nodes), at - 1, KeyOf(x))
  {
    var n := Spliced(nodes, at, x);
    var a, b := KeysOf(n), Spliced(KeysOf(nodes), at - 1, KeyOf(x));
    forall i | 0 <= i < |a| ensures a[i] == b[i] {
      assert a[i] == KeyOf(n[i + 1]);
    }
  }

  lemma KeysOfDropped(nodes: seq<Node>, at: nat)
    requires 1 <= at < |nodes|
    ensures KeysOf(Dropped(nodes, at)) == Dropped(KeysOf(nodes), at - 1)
  {
    var n := Dropped(nodes, at);
    var a, b := KeysOf(n), Dropped(KeysOf(nodes), at - 1);
    forall i | 0 <= i < |a| ensures a[i] == b[i] {
      assert a[i] == KeyOf(n[i + 1]);
    }
  }

  lemma SplicedDistinct(nodes: seq<Node>, at: nat, x: Node)
    requires Distinct(nodes) && x !in nodes && at <= |nodes|
    ensures Distinct(Spliced(nodes, at, x))
  {
    SplicedAt(nodes, at, x);
  }

  lemma DroppedDistinct(nodes: seq<Node>, at: nat)
    requires Distinct(nodes) && at < |nodes|
    ensures Distinct(Dropped(nodes, at))
  {
    DroppedAt(nodes, at);
  }

  lemma DroppedKeys(nodes: seq<Node>, k: Key, ip: nat)
    requires nodes != [] && Distinct(nodes) && Sorted(KeysOf(nodes))
    requires ip == Rank(KeysOf(nodes), k) + 1 && ip < |nodes| && KeyOf(nodes[ip]) == k
    ensures Distinct(Dropped(nodes, ip)) && Sorted(KeysOf(Dropped(nodes, ip)))
    ensures KeysOf(Dropped(nodes, ip)) == RemoveKey(KeysOf(nodes), k)
  {
    KeysOfDropped(nodes, ip);
    assert KeysOf(nodes)[ip - 1] == k;
    RemoveKeySorted(KeysOf(nodes), k);
    DroppedDistinct(nodes, ip);
  }

  lemma DroppedNodes(s: seq<Node>, at: nat, U: seq<seq<Level>>, t: seq<Node>, r: set<Node>)
    requires 1 <= at < |s| && OnHeap(s, U, r) && t == Dropped(s, at)
    requires forall p {:trigger s[p].backward} :: 1 <= p < |s| && p != at + 1 ==>
      s[p].backward == if p == 1 then null else s[p - 1]
    requires at + 1 < |s| ==> s[at + 1].backward == if at == 1 then null else s[at - 1]
    ensures |t| == |s| - 1 && t[0] == s[0] && OnHeap(t, Dropped(U, at), r) && BackLinked(t)
    ensures |t| > 1 ==> t[|t| - 1] == if at + 1 < |s| then s[|s| - 1] else s[at - 1]
  {
    DroppedAt(s, at);
    DroppedAt(U, at);
    forall p | 0 <= p < |t| ensures t[p] in r && t[p].level == Dropped(U, at)[p] {
      var p' := if p < at then p else p + 1;
      assert t[p] == s[p'];
    }
    forall p | 1 <= p < |t| ensures t[p].backward == if p == 1 then null else t[p - 1] {
      var p' := if p < at then p else p + 1;
      assert t[p] == s[p'];
      assert p > at ==> s[p'].backward == s[p];
    }
  }

  /** On level 0 every tower is present, so a link leads to the neighbour. */
  lemma LevelZero(nodes: seq<Node>, T: seq<seq<Level>>, live: nat, p: nat)
    requires Linked(nodes, T, live) && Shape(T, live) && p < |T|
    ensures T[p][0].forward == if p + 1 < |nodes| then nodes[p + 1] else null
  {
    assert Link(nodes, T, p, 0);
    assert p + 1 < |T| ==> 1 <= |T[p + 1]|;
  }

  /** The nodes `ns` carry the towers `T`; they are all in `r`. */
  ghost predicate OnHeap(ns: seq<Node>, T: seq<seq<Level>>, r: set<Node>)
    reads r
  {
    |ns| == |T| && forall p :: 0 <= p < |ns| ==> ns[p] in r && ns[p].level == T[p]
  }

  class SkipList {
    const head: Node
    var tail: Node?
    var length: nat
    var level: nat
    ghost var nodes: seq<Node>
    ghost var towers: seq<seq<Level>>
    ghost var repr: set<Node>

    /** The towers on the heap are `towers`, and they are linked level by level. */
    ghost predicate Towered()
      reads this, repr
    {
      && Shape(towers, level) && Linked(nodes, towers, level) && Distinct(nodes)
      && OnHeap(nodes, towers, repr)
    }

    ghost predicate Valid()
      reads this, repr
    {
      && Towered()
      && |nodes| == length + 1 && nodes[0] == head
      && Sorted(KeysOf(nodes))
      && BackLinked(nodes)
      && tail == if length == 0 then null else nodes[length]
    }

    ghost function Keys(): seq<Key>
      reads this
      requires nodes != []
    {
      KeysOf(nodes)
    }

    constructor ()
      ensures Valid() && Keys() == [] && fresh(repr)
    {
      var h := new Node("", 0, MAX_LEVEL);
      head, tail, length, level := h, null, 0, 1;
      nodes, towers, repr := [h], [h.level], {h};
    }

    /** The descent shared by insert and erase: at every live level, the last node before `k` and its position. */
    method FindUpdate(k: Key) returns (update: seq<Node>, rank: seq<nat>)
      requires Valid()
      ensures |update| == |rank| == MAX_LEVEL
      ensures forall i :: 0 <= i < level ==>
        Pred(towers, Rank(Keys(), k) + 1, i, rank[i]) && update[i] == nodes[rank[i]]
      ensures forall i :: level <= i < MAX_LEVEL ==> rank[i] == 0 && update[i] == head
    {
      ghost var ip := Rank(Keys(), k) + 1;
      RankSplitsNodes(nodes, k);
      update, rank := seq(MAX_LEVEL, _ => head), seq(MAX_LEVEL, _ => 0);
      var x, i := head, level;
      var r: nat := 0;
      while i > 0
        invariant 0 <= i <= level && |update| == |rank| == MAX_LEVEL
        invariant r < ip && x == nodes[r] && (i > 0 ==> i <= |towers[r]|)
        invariant forall j :: i <= j < level ==> Pred(towers, ip, j, rank[j]) && update[j] == nodes[rank[j]]
        invariant forall j :: level <= j < MAX_LEVEL ==> rank[j] == 0 && update[j] == head
      {
        i := i - 1;
        assert Link(nodes, towers, r, i);
        while x.level[i].forward != null && Less(KeyOf(x.level[i].forward), k)
          invariant r < ip && x == nodes[r] && i < |towers[r]| && Link(nodes, towers, r, i)
          decreases ip - r
        {
          r := r + x.level[i].span;
          x := x.level[i].forward;
          assert Link(nodes, towers, r, i);
        }
        assert Pred(towers, ip, i, r);
        update, rank := update[i := x], rank[i := r];
      }
    }

    /** Makes levels up to `lvl` live: the head spans the whole list there. */
    method RaiseLevel(lvl: nat)
      requires Valid() && level < lvl <= MAX_LEVEL
      modifies this`level, this`towers, head`level
      ensures Valid() && level == lvl && |towers| == |old(towers)|
      ensures forall p :: 1 <= p < |towers| ==> towers[p] == old(towers[p])
    {
      var i := level;
      while i < lvl
        invariant level <= i <= lvl && level == old(level)
        invariant |head.level| == MAX_LEVEL && towers == old(towers)
        invariant forall j :: 0 <= j < MAX_LEVEL ==>
          head.level[j] == if level <= j < i then towers[0][j].(span := length) else towers[0][j]
      {
        head.level := head.level[i := head.level[i].(span := length)];
        i := i + 1;
      }
      ghost var T' := towers[0 := head.level];
      RaiseLinked(nodes, towers, T', level, lvl);
      level, towers := lvl, T';
    }

    /** Links the new node in at every level of its tower. */
    static method LinkLevels(x: Node, update: seq<Node>, rank: seq<nat>, ghost live: nat, ghost ip: nat,
                             ghost ns: seq<Node>, ghost T: seq<seq<Level>>, ghost r: set<Node>)
      returns (ghost U: seq<seq<Level>>)
      requires OnHeap(ns, T, r) && Distinct(ns) && Linked(ns, T, live) && x !in r
      requires 1 <= ip <= |ns| && 1 <= |x.level| <= live <= |update| == |rank| && rank[0] == ip - 1
      requires forall i :: 0 <= i < live ==> Pred(T, ip, i, rank[i]) && update[i] == ns[rank[i]]
      modifies r`level, x`level
      ensures LevelsLinked(T, U, x, x.level, ip, rank, |x.level|) && |x.level| == old(|x.level|)
      ensures OnHeap(ns, U, r)
    {
      var lvl := |x.level|;
      U := T;
      LinkNoLevel(T, x, x.level, ip, rank);
      var i := 0;
      while i < lvl
        invariant 0 <= i <= lvl == |x.level| && OnHeap(ns, U, r)
        invariant LevelsLinked(T, U, x, x.level, ip, rank, i)
      {
        ghost var p := rank[i];
        PredSpan(ns, T, live, ip, i, p);
        var gap: nat := rank[0] - rank[i];
        LinkOneLevel(T, U, x, x.level, ip, rank, i, p, gap);
        hide LevelsLinked, Linked, Pred;
        LinkOne(x, update[i], i, gap);
        U := U[p := U[p][i := Level(x, gap + 1)]];
        i := i + 1;
      }
    }

    static method LinkOne(x: Node, u: Node, i: nat, gap: nat)
      requires x != u && i < |x.level| && i < |u.level| && gap <= u.level[i].span
      modifies x`level, u`level
      ensures x.level == old(x.level)[i := Level(old(u.level[i].forward), old(u.level[i].span) - gap)]
      ensures u.level == old(u.level)[i := Level(x, gap + 1)]
    {
      x.level := x.level[i := Level(u.level[i].forward, u.level[i].span - gap)];
      u.level := u.level[i := Level(x, gap + 1)];
    }

    /** Links the new node in and widens the spans that pass above it. */
    method LinkIn(x: Node, update: seq<Node>, rank: seq<nat>, ghost ip: nat,
                  ghost ns: seq<Node>, ghost T: seq<seq<Level>>, ghost r: set<Node>)
      returns (ghost T': seq<seq<Level>>)
      requires Shape(T, level) && Linked(ns, T, level) && OnHeap(ns, T, r) && Distinct(ns)
      requires x !in r && 1 <= ip <= |ns| && BackLinked(ns)
      requires 1 <= |x.level| <= level && |update| == |rank| == MAX_LEVEL
      requires forall i :: 0 <= i < level ==> Pred(T, ip, i, rank[i]) && update[i] == ns[rank[i]]
      modifies r`level, x`level
      ensures Shape(T', level) && Linked(Spliced(ns, ip, x), T', level)
      ensures T'[ip] == x.level && |x.level| == old(|x.level|) && BackLinked(ns)
      ensures x.level[0].forward == if ip < |ns| then ns[ip] else null
      ensures forall p :: 0 <= p < ip ==> ns[p].level == T'[p]
      ensures forall p {:trigger ns[p]} :: ip <= p < |ns| ==> ns[p].level == T'[p + 1]
    {
      assert rank[0] == ip - 1 by {
        assert ip >= 2 ==> 1 <= |T[ip - 1]|;
        assert Pred(T, ip, 0, rank[0]);
      }
      assert forall i :: 0 <= i < level ==> Pred(T, ip, i, rank[i]);
      ghost var U := LinkLevels(x, update, rank, level, ip, ns, T, r);
      ghost var W := WidenAbove(|x.level|, level, update, rank, ip, ns, U, r);
      T' := Spliced(W, ip, x.level);
      InsertedTowers(ns, T, U, W, x, x.level, ip, level, rank);
    }

    /** Widens the spans that pass above a tower of height `lvl`. */
    static method WidenAbove(lvl: nat, live: nat, update: seq<Node>, rank: seq<nat>, ghost ip: nat,
                             ghost ns: seq<Node>, ghost U: seq<seq<Level>>, ghost r: set<Node>)
      returns (ghost W: seq<seq<Level>>)
      requires OnHeap(ns, U, r) && Distinct(ns)
      requires lvl <= live <= |update| == |rank|
      requires forall i :: lvl <= i < live ==> rank[i] < |ns| && i < |U[rank[i]]| && update[i] == ns[rank[i]]
      modifies r`level
      ensures SpansWidened(U, W, lvl, live, rank) && OnHeap(ns, W, r)
    {
      W := U;
      var i := lvl;
      while i < live
        invariant lvl <= i <= live && OnHeap(ns, W, r) && SpansWidened(U, W, lvl, i, rank)
      {
        var u := update[i];
        u.level := u.level[i := Level(u.level[i].forward, u.level[i].span + 1)];
        W := W[rank[i] := u.level];
        i := i + 1;
      }
    }

    /** Finds where `k` goes and makes enough levels live for a tower of height `lvl`. */
    method Prepare(k: Key, lvl: nat) returns (update: seq<Node>, rank: seq<nat>)
      requires Valid() && 1 <= lvl <= MAX_LEVEL
      modifies this`level, this`towers, head`level
      ensures Valid() && lvl <= level && |update| == |rank| == MAX_LEVEL
      ensures forall i :: 0 <= i < level ==>
        Pred(towers, Rank(Keys(), k) + 1, i, rank[i]) && update[i] == nodes[rank[i]]
    {
      update, rank := FindUpdate(k);
      ghost var ip := Rank(Keys(), k) + 1;
      if lvl > level {
        ghost var old_level := level;
        RaiseLevel(lvl);
        forall i | 0 <= i < level ensures Pred(towers, ip, i, rank[i]) {
          if i < old_level {
            assert Pred(old(towers), ip, i, rank[i]);
          } else {
            assert rank[i] == 0;
          }
        }
      }
    }

    /** `lvl` is the tower height that was drawn; it may be anything from 1 to MAX_LEVEL. */
    method Insert(member: string, score: int, lvl: nat) returns (x: Node)
      requires Valid() && 1 <= lvl <= MAX_LEVEL && Key(score, member) !in Keys()
      modifies this, repr
      ensures Valid() && Keys() == InsertKey(old(Keys()), Key(score, member)) && Rising(Keys())
      ensures fresh(x) && KeyOf(x) == Key(score, member) && |x.level| == lvl
      ensures nodes == Spliced(old(nodes), Rank(old(Keys()), Key(score, member)) + 1, x) && repr == old(repr) + {x}
    {
      var k := Key(score, member);
      ghost var ip := Rank(Keys(), k) + 1;
      assert Keys() == KeysOf(nodes);
      var update, rank := Prepare(k, lvl);
      x := new Node(member, score, lvl);
      assert forall p :: 0 <= p < |nodes| ==> nodes[p] in repr;
      ghost var T' := LinkIn(x, update, rank, ip, nodes, towers, repr);
      hide Linked, Shape, Distinct, Sorted, KeysOf, InsertKey, Rank, Pred, OnHeap, BackLinked, Spliced;
      TakeIn(x, update[0], T', ip, nodes, repr);
      InOrder();
      hide *;
    }

    /** The order of the list, spelled out. */
    lemma InOrder()
      requires Valid()
      ensures Rising(Keys())
    {
      hide Linked, Shape, Distinct, BackLinked, OnHeap, KeysOf;
      SortedRises(Keys());
    }

    /** The linked-in node joins the list: backward links, tail and length. */
    method TakeIn(x: Node, before: Node, ghost T': seq<seq<Level>>, ghost ip: nat, ghost ns: seq<Node>,
        ghost r: set<Node>)
      requires |ns| == length + 1 && ns[0] == head && Distinct(ns) && x !in r && Sorted(KeysOf(ns))
      requires forall p :: 0 <= p < |ns| ==> ns[p] in r
      requires KeyOf(x) !in KeysOf(ns) && ip == Rank(KeysOf(ns), KeyOf(x)) + 1 && before == ns[ip - 1]
      requires Shape(T', level) && Linked(Spliced(ns, ip, x), T', level)
      requires T'[ip] == x.level && x.level[0].forward == if ip < |ns| then ns[ip] else null
      requires forall p :: 0 <= p < ip ==> ns[p].level == T'[p]
      requires forall p {:trigger ns[p]} :: ip <= p < |ns| ==> ns[p].level == T'[p + 1]
      requires BackLinked(ns) && tail == if length == 0 then null else ns[length]
      modifies this, x`backward, r`backward
      ensures Valid() && nodes == Spliced(ns, ip, x) && repr == r + {x} && Keys() == InsertKey(KeysOf(ns), KeyOf(x))
    {
      FixBackward(x, before, ip, ns, r);
      length := length + 1;
      ghost var ns' := Spliced(ns, ip, x);
      SplicedNodes(ns, ip, x, T', ns', r);
      SplicedKeys(ns, ip, x);
      hide Spliced, KeysOf, InsertKey, Linked, Shape, Distinct, Sorted, BackLinked;
      Adopt(ns', T', r + {x});
    }

    /** Restores the backward chain and the tail around the node linked in before position `ip`. */
    method FixBackward(x: Node, before: Node, ghost ip: nat, ghost ns: seq<Node>, ghost r: set<Node>)
      requires forall p :: 0 <= p < |ns| ==> ns[p] in r
      requires 1 <= ip <= |ns| && ns[0] == head && before == ns[ip - 1] && Distinct(ns) && x !in r
      requires |x.level| >= 1 && x.level[0].forward == if ip < |ns| then ns[ip] else null
      modifies this`tail, x`backward, r`backward
      ensures x.backward == if ip == 1 then null else ns[ip - 1]
      ensures ip < |ns| ==> ns[ip].backward == x && tail == old(tail)
      ensures forall p {:trigger ns[p].backward} :: 0 <= p < |ns| && p != ip ==> ns[p].backward == old(ns[p].backward)
      ensures ip == |ns| ==> tail == x
    {
      x.backward := if before == head then null else before;
      if x.level[0].forward != null {
        x.level[0].forward.backward := x;
      } else {
        tail := x;
      }
    }

    /** Makes `ns`, with towers `T'`, the ghost view of the list. */
    ghost method Adopt(ns: seq<Node>, T': seq<seq<Level>>, r: set<Node>)
      requires Shape(T', level) && Linked(ns, T', level) && Distinct(ns) && Sorted(KeysOf(ns))
      requires forall p :: 0 <= p < |ns| ==> ns[p] in r && ns[p].level == T'[p]
      requires BackLinked(ns) && |ns| == length + 1 && ns[0] == head
      requires tail == if length == 0 then null else ns[length]
      modifies this`nodes, this`towers, this`repr
      ensures Valid() && nodes == ns && towers == T' && repr == r
    {
      nodes, towers, repr := ns, T', r;
    }

    method Erase(member: string, score: int) returns (found: bool)
      requires Valid()
      modifies this, repr
      ensures Valid() && found == (Key(score, member) in old(Keys())) && repr == old(repr)
      ensures Keys() == RemoveKey(old(Keys()), Key(score, member))
    {
      var k := Key(score, member);
      ghost var ip := Rank(Keys(), k) + 1;
      var update, rank := FindUpdate(k);
      assert Pred(towers, ip, 0, rank[0]);
      LevelZero(nodes, towers, level, rank[0]);
      assert ip >= 2 ==> 1 <= |towers[ip - 1]|;
      assert rank[0] == ip - 1;
      MemberAtRank(Keys(), k);
      var x := update[0].level[0].forward;
      found := x != null && x.score == score && x.member == member;
      if found {
        assert KeyOf(nodes[ip]) == Keys()[ip - 1];
        RemoveNode(x, update, rank, ip, k, nodes, towers);
      }
    }

    /** Unlinks the node at position `ip` and drops the levels left empty. */
    method RemoveNode(x: Node, update: seq<Node>, ghost rank: seq<nat>, ghost ip: nat, ghost k: Key,
                      ghost ns: seq<Node>, ghost T: seq<seq<Level>>)
      requires Valid() && ns == nodes && T == towers
      requires 1 <= ip < |ns| && ns[ip] == x && ip == Rank(KeysOf(ns), k) + 1 && KeyOf(x) == k
      requires |update| == |rank| == MAX_LEVEL
      requires forall i :: 0 <= i < level ==> Pred(T, ip, i, rank[i]) && update[i] == ns[rank[i]]
      modifies this, repr
      ensures Valid() && repr == old(repr) && Keys() == RemoveKey(KeysOf(ns), k)
    {
      hide Dropped, KeysOf, RemoveKey, Link, Sorted, Pred, Rank;
      ghost var U := UnlinkLevels(x, level, update, rank, ip, ns, T, repr);
      RemovedTowers(ns, T, U, ip, level, rank);
      LevelZero(ns, T, level, ip);
      UnlinkBackward(x, ip, ns, repr);
      length := length - 1;
      ghost var ns' := Dropped(ns, ip);
      DroppedNodes(ns, ip, U, ns', repr);
      DroppedKeys(ns, k, ip);
      hide BackLinked, Linked, Shape, Distinct;
      Adopt(ns', Dropped(U, ip), repr);
      LowerLevel();
    }

    static method UnlinkLevels(x: Node, live: nat, update: seq<Node>, ghost rank: seq<nat>, ghost ip: nat,
                               ghost ns: seq<Node>, ghost T: seq<seq<Level>>, ghost r: set<Node>)
      returns (ghost U: seq<seq<Level>>)
      requires OnHeap(ns, T, r) && Distinct(ns) && Linked(ns, T, live) && BackLinked(ns)
      requires 1 <= ip < |ns| && x == ns[ip] && live <= |update| == |rank|
      requires forall i :: 0 <= i < live ==> Pred(T, ip, i, rank[i]) && update[i] == ns[rank[i]]
      modifies r`level
      ensures LevelsUnlinked(T, U, ip, rank, live) && OnHeap(ns, U, r) && x.level == T[ip] && BackLinked(ns)
    {
      U := T;
      UnlinkNoLevel(T, ip, rank);
      var i := 0;
      while i < live
        invariant 0 <= i <= live && OnHeap(ns, U, r) && x.level == T[ip]
        invariant LevelsUnlinked(T, U, ip, rank, i)
      {
        ghost var p := rank[i];
        PredLink(ns, T, live, ip, i, p);
        var u := update[i];
        ghost var l := if i < |T[ip]| then Level(T[ip][i].forward, T[p][i].span + T[ip][i].span - 1)
                       else Level(T[p][i].forward, T[p][i].span - 1);
        UnlinkOneLevel(T, U, ip, rank, i, p, l);
        hide LevelsUnlinked, Linked, Pred;
        if u.level[i].forward == x {
          u.level := u.level[i := Level(x.level[i].forward, u.level[i].span + x.level[i].span - 1)];
        } else {
          u.level := u.level[i := Level(u.level[i].forward, u.level[i].span - 1)];
        }
        U := U[p := U[p][i := l]];
        i := i + 1;
      }
    }

    /** Takes the node at `ip` out of the backward chain. */
    method UnlinkBackward(x: Node, ghost ip: nat, ghost ns: seq<Node>, ghost r: set<Node>)
      requires forall p :: 0 <= p < |ns| ==> ns[p] in r
      requires 1 <= ip < |ns| && x == ns[ip] && Distinct(ns) && BackLinked(ns)
      requires |x.level| >= 1 && x.level[0].forward == if ip + 1 < |ns| then ns[ip + 1] else null
      modifies this`tail, r`backward
      ensures ip + 1 < |ns| ==> ns[ip + 1].backward == (if ip == 1 then null else ns[ip - 1]) && tail == old(tail)
      ensures forall p {:trigger ns[p].backward} :: 0 <= p < |ns| && p != ip + 1 ==>
        ns[p].backward == old(ns[p].backward)
      ensures ip + 1 == |ns| ==> tail == if ip == 1 then null else ns[ip - 1]
    {
      if x.level[0].forward != null {
        x.level[0].forward.backward := x.backward;
      } else {
        tail := x.backward;
      }
    }

    method LowerLevel()
      requires Valid()
      modifies this`level
      ensures Valid() && (level == 1 || head.level[level - 1].forward != null)
    {
      while level > 1 && head.level[level - 1].forward == null
        invariant Valid()
        decreases level
      {
        LowerLinked(nodes, towers, level);
        level := level - 1;
      }
    }

    /** The 1-based rank of an entry, or 0 if it is absent. */
    method RankOf(member: string, score: int) returns (rank: nat)
      requires Valid()
      ensures rank == if Key(score, member) in Keys() then Rank(Keys(), Key(score, member)) + 1 else 0
    {
      var k := Key(score, member);
      ghost var last := CountUpTo(k);
      var x, i := head, level;
      rank := 0;
      while i > 0
        invariant 0 <= i <= level && rank <= last && x == nodes[rank] && (i > 0 ==> i <= |towers[rank]|)
        invariant i == 0 ==> rank == last && rank < |nodes| && (rank == 0 || KeyOf(nodes[rank]) != k)
      {
        i := i - 1;
        assert Link(nodes, towers, rank, i);
        while x.level[i].forward != null && (Less(KeyOf(x.level[i].forward), k) || KeyOf(x.level[i].forward) == k)
          invariant rank <= last && x == nodes[rank] && i < |towers[rank]| && Link(nodes, towers, rank, i)
          decreases last - rank
        {
          rank := rank + x.level[i].span;
          x := x.level[i].forward;
          assert Link(nodes, towers, rank, i);
        }
        if x != head && x.score == score && x.member == member {
          return;
        }
        assert i == 0 && rank + 1 < |towers| ==> 1 <= |towers[rank + 1]|;
      }
      return 0;
    }

    /** How many entries are at most `k`; the last of them is `k` itself if it is present. */
    lemma CountUpTo(k: Key) returns (last: nat)
      requires Valid()
      ensures last < |nodes|
      ensures forall p :: 1 <= p < |nodes| ==> (Less(KeyOf(nodes[p]), k) || KeyOf(nodes[p]) == k <==> p <= last)
      ensures forall p :: 1 <= p < |nodes| && KeyOf(nodes[p]) == k ==> p == last == Rank(Keys(), k) + 1 && k in Keys()
      ensures k in Keys() ==> 1 <= last && KeyOf(nodes[last]) == k
    {
      RankSplitsNodes(nodes, k);
      MemberAtRank(Keys(), k);
      LessTotal(k, k);
      var r := Rank(Keys(), k);
      last := if k in Keys() then r + 1 else r;
      assert k in Keys() ==> KeyOf(nodes[r + 1]) == Keys()[r];
      forall p | 1 <= p < |nodes|
        ensures Less(KeyOf(nodes[p]), k) || KeyOf(nodes[p]) == k <==> p <= last
        ensures KeyOf(nodes[p]) == k ==> p == last == r + 1 && k in Keys()
      {
        assert Keys()[p - 1] == KeyOf(nodes[p]);
        if p > r + 1 {
          assert Less(Keys()[r], Keys()[p - 1]);
          LessTotal(Keys()[r], Keys()[p - 1]);
        }
      }
    }

    /** The node at a 1-based rank, or null. */
    method AtRank(rank: nat) returns (n: Node?)
      requires Valid()
      ensures n == if 1 <= rank <= length then nodes[rank] else null
    {
      var x, i := head, level;
      var traversed: nat := 0;
      while i > 0
        invariant 0 <= i <= level && traversed <= rank && traversed < |nodes| && x == nodes[traversed]
        invariant i > 0 ==> i <= |towers[traversed]|
        invariant i == 0 ==> (traversed == rank ==> traversed == 0) && (traversed < rank ==> traversed == length)
      {
        i := i - 1;
        assert Link(nodes, towers, traversed, i);
        while x.level[i].forward != null && traversed + x.level[i].span <= rank
          invariant traversed <= rank && traversed < |nodes| && x == nodes[traversed]
          invariant i < |towers[traversed]| && Link(nodes, towers, traversed, i)
          decreases |nodes| - traversed
        {
          traversed := traversed + x.level[i].span;
          x := x.level[i].forward;
          assert Link(nodes, towers, traversed, i);
        }
        if traversed == rank && x != head {
          return x;
        }
        assert i == 0 && traversed + 1 < |towers| ==> 1 <= |towers[traversed + 1]|;
      }
      return null;
    }

    /** Walking along level 0 visits the nodes in order. */
    lemma Successor(p: nat)
      requires Valid() && p < |nodes|
      ensures |nodes[p].level| >= 1 && nodes[p].level[0].forward == if p + 1 < |nodes| then nodes[p + 1] else null
    {
      LevelZero(nodes, towers, level, p);
    }

    /** The first node whose score is at least `min`, and its position (past the end if there is none). */
    method FirstGte(min: int) returns (n: Node?, ghost q: nat)
      requires Valid()
      ensures 1 <= q <= |nodes| && n == if q < |nodes| then nodes[q] else null
      ensures forall p :: 1 <= p < |nodes| ==> (nodes[p].score < min <==> p < q)
    {
      var x, i := head, level;
      ghost var r: nat := 0;
      while i > 0
        invariant 0 <= i <= level && r < |nodes| && x == nodes[r] && i <= |towers[r]|
        invariant r > 0 ==> nodes[r].score < min
        invariant i == 0 ==> r + 1 < |nodes| ==> nodes[r + 1].score >= min
      {
        i := i - 1;
        assert Link(nodes, towers, r, i);
        while x.level[i].forward != null && x.level[i].forward.score < min
          invariant r < |nodes| && x == nodes[r] && i < |towers[r]| && Link(nodes, towers, r, i)
          invariant r > 0 ==> nodes[r].score < min
          decreases |nodes| - r
        {
          r := r + x.level[i].span;
          x := x.level[i].forward;
          assert Link(nodes, towers, r, i);
        }
        assert i == 0 && r + 1 < |towers| ==> 1 <= |towers[r + 1]|;
      }
      LevelZero(nodes, towers, level, r);
      n, q := x.level[0].forward, r + 1;
      ScoresAscend(nodes);
    }
  }

  lemma ScoresAscend(nodes: seq<Node>)
    requires nodes != [] && Sorted(KeysOf(nodes))
    ensures forall p, q :: 1 <= p < q < |nodes| ==> nodes[p].score <= nodes[q].score
  {
    forall p, q | 1 <= p < q < |nodes| ensures nodes[p].score <= nodes[q].score {
      assert Less(KeysOf(nodes)[p - 1], KeysOf(nodes)[q - 1]);
    }
  }
}

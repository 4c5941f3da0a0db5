/** Sorted sets: a member -> score dictionary kept in step with the skip list, and the range commands over them. */
module ZSets {
  import opened Options
  import opened Ordering
  import opened SkipLists

  /** The entries of the list are exactly the dictionary's pairs. */
  ghost predicate InStep(dict: map<string, int>, keys: seq<Key>) {
    && (forall m :: m in dict ==> Key(dict[m], m) in keys)
    && (forall k :: k in keys ==> k.member in dict && dict[k.member] == k.score)
  }

  lemma InStepInsert(dict: map<string, int>, keys: seq<Key>, m: string, score: int)
    requires InStep(dict, keys) && Sorted(keys) && m !in dict
    ensures Key(score, m) !in keys
    ensures InStep(dict[m := score], InsertKey(keys, Key(score, m)))
  {
    hide InsertKey, Sorted;
    var k := Key(score, m);
    InsertKeySorted(keys, k);
    var keys' := InsertKey(keys, k);
    forall x ensures x in keys' <==> x in keys || x == k {
      assert x in keys' <==> x in multiset(keys');
      assert x in keys <==> x in multiset(keys);
    }
  }

  lemma InStepRemove(dict: map<string, int>, keys: seq<Key>, m: string)
    requires InStep(dict, keys) && Sorted(keys) && m in dict
    ensures InStep(dict - {m}, RemoveKey(keys, Key(dict[m], m)))
  {
    var k := Key(dict[m], m);
    RemoveKeySorted(keys, k);
    var keys' := RemoveKey(keys, k);
    forall x | x != k ensures x in keys' <==> x in keys {
      assert x in keys' <==> x in multiset(keys');
      assert x in keys <==> x in multiset(keys);
      assert multiset(keys')[x] == multiset(keys)[x];
    }
  }

  /** A sorted set's list is determined by its dictionary. */
  lemma ListFollowsDictionary(dict: map<string, int>, s: seq<Key>, t: seq<Key>)
    requires InStep(dict, s) && InStep(dict, t) && Sorted(s) && Sorted(t)
    ensures s == t
  {
    forall k ensures k in s <==> k in t {
      if k in s || k in t {
        assert k == Key(dict[k.member], k.member);
      }
    }
    SortedUnique(s, t);
  }

  /** The position a signed index names in a list of `len` entries. */
  function Position(index: int, len: nat): int {
    if index < 0 then len + index else index
  }

  /** The entries of `s` from position `i` on whose positions lie between `lo` and `hi`, in order. */
  ghost function Between(s: seq<Key>, lo: int, hi: int, i: nat): seq<Key>
    requires i <= |s|
    decreases |s| - i
  {
    if i == |s| then []
    else (if lo <= i <= hi then [s[i]] else []) + Between(s, lo, hi, i + 1)
  }

  lemma {:induction false} BetweenIsSlice(s: seq<Key>, lo: int, hi: int, i: nat)
    requires i <= |s|
    ensures var a := if lo < i then i else lo;
            var b := if hi < |s| then hi else |s| - 1;
            Between(s, lo, hi, i) == if a <= b then s[a..b + 1] else []
    decreases |s| - i
  {
    if i < |s| {
      BetweenIsSlice(s, lo, hi, i + 1);
      var b := if hi < |s| then hi else |s| - 1;
      FrontOfSlice(s, i, b + 1);
    }
  }

  lemma FrontOfSlice(s: seq<Key>, i: nat, n: int)
    requires i < |s| && n <= |s|
    ensures i < n ==> s[i..n] == [s[i]] + s[i + 1..n]
    ensures i + 1 == n ==> s[i..n] == [s[i]]
  {
  }

  lemma BetweenClamped(s: seq<Key>, lo: int, hi: int, a: int, b: int)
    requires a == (if lo < 0 then 0 else lo) && b == if hi < |s| then hi else |s| - 1
    ensures a > b ==> Between(s, lo, hi, 0) == []
    ensures a <= b ==> Between(s, lo, hi, 0) == s[a..b + 1]
  {
    BetweenIsSlice(s, lo, hi, 0);
  }

  ghost function Reverse(s: seq<Key>): (t: seq<Key>)
    ensures |t| == |s| && forall i :: 0 <= i < |s| ==> t[i] == s[|s| - 1 - i]
  {
    seq(|s|, i requires 0 <= i < |s| => s[|s| - 1 - i])
  }

  /** The list as ZRANGE numbers it: from the end with REV. */
  ghost function View(s: seq<Key>, rev: bool): (t: seq<Key>)
    ensures |t| == |s|
  {
    if rev then Reverse(s) else s
  }

  /** The clamped bounds select what the two signed indices mean. */
  lemma RangeClamped(s: seq<Key>, rev: bool, start: int, stop: int, lo: int, hi: int)
    requires lo == if start < 0 then if |s| + start > 0 then |s| + start else 0 else start
    requires var b := if stop < 0 then |s| + stop else stop; hi == if b >= |s| then |s| - 1 else b
    ensures var chosen := Between(View(s, rev), Position(start, |s|), Position(stop, |s|), 0);
      if lo > hi || |s| == 0 then chosen == [] else 0 <= lo <= hi < |s| && chosen == View(s, rev)[lo..hi + 1]
  {
    BetweenClamped(View(s, rev), Position(start, |s|), Position(stop, |s|), lo, hi);
  }

  /** Entries in the order ZRANGE sends them: rising, or falling with REV. */
  ghost predicate InDirection(items: seq<Key>, rev: bool) {
    Rising(if rev then Reverse(items) else items)
  }

  /** Part of the list in either direction is in order in that direction. */
  lemma SliceInDirection(s: seq<Key>, rev: bool, lo: nat, hi: nat)
    requires Sorted(s) && lo <= hi <= |s|
    ensures InDirection(View(s, rev)[lo..hi], rev)
  {
    hide Less, Rising;
    var items := View(s, rev)[lo..hi];
    if rev {
      BackwardsSlice(s, lo, hi);
    }
    SlicesSorted(s, if rev then |s| - hi else lo, if rev then |s| - lo else hi);
  }

  lemma BackwardsSlice(s: seq<Key>, lo: nat, hi: nat)
    requires lo <= hi <= |s|
    ensures Reverse(Reverse(s)[lo..hi]) == s[|s| - hi..|s| - lo]
  {
  }

  lemma SlicesSorted(s: seq<Key>, lo: nat, hi: nat)
    requires Sorted(s) && lo <= hi <= |s|
    ensures Rising(s[lo..hi])
  {
    hide Less, Rising;
    var t := s[lo..hi];
    forall i, j | 0 <= i < j < |t|
      ensures Less(t[i], t[j])
    {
      assert t[i] == s[lo + i] && t[j] == s[lo + j];
    }
    SortedRises(t);
  }

  lemma NoneInDirection(rev: bool)
    ensures InDirection([], rev)
  {
  }

  lemma BetweenInDirection(s: seq<Key>, rev: bool, start: int, stop: int)
    requires Sorted(s)
    ensures InDirection(Between(View(s, rev), Position(start, |s|), Position(stop, |s|), 0), rev)
  {
    var lo := if start < 0 then if |s| + start > 0 then |s| + start else 0 else start;
    var b := if stop < 0 then |s| + stop else stop;
    var hi := if b >= |s| then |s| - 1 else b;
    hide *;
    RangeClamped(s, rev, start, stop, lo, hi);
    NoneInDirection(rev);
    if lo <= hi && |s| > 0 {
      SliceInDirection(s, rev, lo, hi + 1);
    }
  }

  lemma ViewAt(nodes: seq<Node>, rev: bool, i: nat)
    requires i + 1 < |nodes|
    ensures View(KeysOf(nodes), rev)[i] == KeyOf(nodes[if rev then |nodes| - 1 - i else i + 1])
  {
  }

  lemma TakeOneMore(s: seq<Key>, lo: nat, i: nat)
    requires lo <= i < |s|
    ensures s[lo..i] + [s[i]] == s[lo..i + 1]
  {
  }

  datatype Bound = Bound(score: int, exclusive: bool)

  predicate Within(k: Key, min: Bound, max: Bound) {
    && (if min.exclusive then k.score > min.score else k.score >= min.score)
    && (if max.exclusive then k.score < max.score else k.score <= max.score)
  }

  /** The entries within the bounds, in order. */
  ghost function Filtered(s: seq<Key>, min: Bound, max: Bound): seq<Key> {
    if s == [] then []
    else Filtered(s[..|s| - 1], min, max) + if Within(s[|s| - 1], min, max) then [s[|s| - 1]] else []
  }

  lemma {:induction false} FilteredNone(s: seq<Key>, n: nat, min: Bound, max: Bound)
    requires n <= |s| && forall i :: n <= i < |s| ==> !Within(s[i], min, max)
    ensures Filtered(s, min, max) == Filtered(s[..n], min, max)
    decreases |s|
  {
    if n < |s| {
      FilteredNone(s[..|s| - 1], n, min, max);
      assert s[..|s| - 1][..n] == s[..n];
    } else {
      assert s[..n] == s;
    }
  }

  /** LIMIT: skip `offset` entries when it is positive, then keep `limit` unless it is negative. */
  function Limited(s: seq<Key>, offset: int, limit: int): seq<Key> {
    var t := if offset <= 0 then s else if offset >= |s| then [] else s[offset..];
    if 0 <= limit < |t| then t[..limit] else t
  }

  class ZSet {
    var dict: map<string, int>
    const sl: SkipList

    ghost predicate Valid()
      reads this, sl, sl.repr
    {
      sl.Valid() && InStep(dict, sl.Keys())
    }

    /** What the list's nodes hold, in short. */
    lemma NodesAreKeys()
      requires Valid()
      ensures sl.Valid() && sl.nodes != [] && sl.Keys() == KeysOf(sl.nodes) && Sorted(sl.Keys())
      ensures |sl.nodes| == |sl.Keys()| + 1 && sl.length == |sl.Keys()|
    {
      hide Linked, Shape, Distinct, BackLinked, OnHeap, InStep;
    }

    constructor ()
      ensures Valid() && dict == map[] && fresh(sl) && fresh(sl.repr)
    {
      dict := map[];
      sl := new SkipList();
    }

    /** True if the member was newly added. `lvl` is the height drawn for its tower. */
    method Set(member: string, score: int, lvl: nat) returns (added: bool)
      requires Valid() && 1 <= lvl <= MAX_LEVEL
      modifies this`dict, sl, sl.repr
      ensures Valid() && fresh(sl.repr - old(sl.repr))
      ensures dict == old(dict)[member := score] && added == (member !in old(dict))
    {
      hide Linked, Shape, Distinct, KeysOf, InsertKey, RemoveKey, Sorted, InStep, BackLinked, OnHeap;
      if member in dict {
        var cur := dict[member];
        if cur == score {
          return false;
        }
        InStepRemove(dict, sl.Keys(), member);
        var found := sl.Erase(member, cur);
        InStepInsert(dict - {member}, sl.Keys(), member, score);
        var n := sl.Insert(member, score, lvl);
        assert (dict - {member})[member := score] == dict[member := score];
        dict := dict[member := score];
        return false;
      }
      InStepInsert(dict, sl.Keys(), member, score);
      dict := dict[member := score];
      var n := sl.Insert(member, score, lvl);
      return true;
    }

    method Remove(member: string) returns (removed: bool)
      requires Valid()
      modifies this`dict, sl, sl.repr
      ensures Valid() && sl.repr == old(sl.repr)
      ensures dict == old(dict) - {member} && removed == (member in old(dict))
    {
      if member in dict {
        InStepRemove(dict, sl.Keys(), member);
        var found := sl.Erase(member, dict[member]);
        dict := dict - {member};
        return true;
      }
      return false;
    }

    /** ZRANK: the number of entries that come before the member's, or nil when it is absent. */
    method ZRank(member: string) returns (r: Option<int>)
      requires Valid()
      ensures member !in dict ==> r == None
      ensures member in dict ==>
        r.Some? && 0 <= r.value < |sl.Keys()| && sl.Keys()[r.value] == Key(dict[member], member)
      ensures Rising(sl.Keys())
    {
      SortedRises(sl.Keys());
      hide Rising;
      if member !in dict {
        return None;
      }
      var rank := sl.RankOf(member, dict[member]);
      MemberAtRank(sl.Keys(), Key(dict[member], member));
      return Some(rank - 1);
    }

    /** ZRANGE: the announced count and the entries sent. */
    method ZRange(start: int, stop: int, rev: bool) returns (count: int, items: seq<Key>)
      requires Valid()
      ensures count == |items|
      ensures var len := |sl.Keys()|;
        items == Between(View(sl.Keys(), rev), Position(start, len), Position(stop, len), 0)
      ensures InDirection(items, rev)
    {
      NodesAreKeys();
      hide *;
      count, items := Clamp(start, stop, rev);
      BetweenInDirection(sl.Keys(), rev, start, stop);
    }

    /** Clamping the indices and fetching what lies between them. */
    method Clamp(start: int, stop: int, rev: bool) returns (count: int, items: seq<Key>)
      requires Valid()
      ensures count == |items|
      ensures var len := |sl.Keys()|;
        items == Between(View(sl.Keys(), rev), Position(start, len), Position(stop, len), 0)
    {
      NodesAreKeys();
      hide *;
      var len := sl.length;
      var lo := if start < 0 then if len + start > 0 then len + start else 0 else start;
      var hi := if stop < 0 then len + stop else stop;
      if hi >= len {
        hi := len - 1;
      }
      RangeClamped(sl.Keys(), rev, start, stop, lo, hi);
      if lo > hi || len == 0 {
        return 0, [];
      }
      count := hi - lo + 1;
      items := EntriesAt(lo, hi, rev);
    }

    /** The entries at 0-based positions lo to hi, each fetched by its rank. */
    method EntriesAt(lo: nat, hi: nat, rev: bool) returns (items: seq<Key>)
      requires Valid() && lo <= hi < |sl.Keys()|
      ensures items == View(sl.Keys(), rev)[lo..hi + 1]
    {
      hide Linked, Shape, Distinct, KeysOf, Sorted, InStep, BackLinked, OnHeap, View;
      NodesAreKeys();
      ghost var s, nodes := View(sl.Keys(), rev), sl.nodes;
      var len := sl.length;
      items := [];
      var i := lo;
      while i <= hi
        invariant lo <= i <= hi + 1 && items == s[lo..i]
      {
        var rank := if rev then len - i else i + 1;
        var n := sl.AtRank(rank);
        ViewAt(nodes, rev, i);
        TakeOneMore(s, lo, i);
        if n != null {
          items := items + [Key(n.score, n.member)];
        }
        i := i + 1;
      }
    }

    /** ZRANGEBYSCORE: a lower-bound search, then a walk along level 0. */
    method ZRangeByScore(min: Bound, max: Bound, offset: int, limit: int) returns (count: int, items: seq<Key>)
      requires Valid()
      ensures count == |items| && items == Limited(Filtered(sl.Keys(), min, max), offset, limit)
    {
      ghost var keys := sl.Keys();
      var start, q := sl.FirstGte(min.score);
      var out, stop := CollectScores(start, q, min, max);
      FilteredNone(keys, stop, min, max);
      items := out;
      if offset > 0 {
        items := if offset >= |items| then [] else items[offset..];
      }
      if 0 <= limit < |items| {
        items := items[..limit];
      }
      count := |items|;
    }

    /** The walk: collects from the first candidate until a score is above `max`. */
    method CollectScores(start: Node?, ghost q0: nat, min: Bound, max: Bound) returns (out: seq<Key>, ghost stop: nat)
      requires Valid()
      requires 1 <= q0 <= |sl.nodes| && start == if q0 < |sl.nodes| then sl.nodes[q0] else null
      requires forall p :: 1 <= p < |sl.nodes| ==> (sl.nodes[p].score < min.score <==> p < q0)
      ensures stop <= |sl.Keys()| && out == Filtered(sl.Keys()[..stop], min, max)
      ensures forall i :: stop <= i < |sl.Keys()| ==> !Within(sl.Keys()[i], min, max)
    {
      hide Linked, Shape, Distinct, KeysOf, Sorted, InStep, BackLinked, OnHeap, Filtered;
      NodesAreKeys();
      ghost var keys, nodes := sl.Keys(), sl.nodes;
      NothingBefore(nodes, q0, min, max);
      out := [];
      var n := start;
      ghost var q := q0;
      while n != null
        invariant q0 <= q <= |nodes| && n == if q < |nodes| then nodes[q] else null
        invariant out == Filtered(keys[..q - 1], min, max)
        decreases |nodes| - q
      {
        FilteredNext(nodes, q, min, max);
        sl.Successor(q);
        if min.exclusive && n.score <= min.score {
        } else {
          if n.score > max.score || (max.exclusive && n.score >= max.score) {
            NothingAfter(nodes, q, min, max);
            break;
          }
          out := out + [Key(n.score, n.member)];
        }
        n := n.level[0].forward;
        q := q + 1;
      }
      stop := q - 1;
    }
  }

  lemma NothingBefore(nodes: seq<Node>, q: nat, min: Bound, max: Bound)
    requires 1 <= q <= |nodes| && forall p :: 1 <= p < q ==> nodes[p].score < min.score
    ensures Filtered(KeysOf(nodes)[..q - 1], min, max) == []
  {
    var s := KeysOf(nodes)[..q - 1];
    assert forall i {:trigger s[i]} :: 0 <= i < |s| ==> s[i] == KeyOf(nodes[i + 1]);
    FilteredNone(s, 0, min, max);
  }

  lemma FilteredNext(nodes: seq<Node>, q: nat, min: Bound, max: Bound)
    requires 1 <= q < |nodes|
    ensures Filtered(KeysOf(nodes)[..q], min, max) ==
            Filtered(KeysOf(nodes)[..q - 1], min, max) + if Within(KeyOf(nodes[q]), min, max) then [KeyOf(nodes[q])]
              else []
  {
    var keys := KeysOf(nodes);
    assert keys[..q][..q - 1] == keys[..q - 1];
  }

  /** Once a score is above `max`, so are all later ones. */
  lemma NothingAfter(nodes: seq<Node>, q: nat, min: Bound, max: Bound)
    requires 1 <= q < |nodes| && Sorted(KeysOf(nodes))
    requires nodes[q].score > max.score || (max.exclusive && nodes[q].score >= max.score)
    ensures forall i :: q - 1 <= i < |KeysOf(nodes)| ==> !Within(KeysOf(nodes)[i], min, max)
  {
    ScoresAscend(nodes);
  }
}

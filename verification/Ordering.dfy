/** The order of the sorted set: by score, then by member, byte by byte. */
module Ordering {

  /** A sorted-set entry. `score` is the position of the double among the doubles that are not NaN. */
  datatype Key = Key(score: int, member: string)

  /** `std::string`'s operator<. */
  predicate StrLess(a: string, b: string) {
    if b == [] then false
    else if a == [] then true
    else a[0] < b[0] || (a[0] == b[0] && StrLess(a[1..], b[1..]))
  }

  /** The strings agree up to position `n`, where `a` ends or has the smaller byte. */
  predicate ComesFirst(a: string, b: string, n: nat) {
    && n <= |a| && n <= |b| && a[..n] == b[..n]
    && ((n == |a| && n < |b|) || (n < |a| && n < |b| && a[n] < b[n]))
  }

  /** The order is the dictionary order of the bytes. */
  lemma {:induction false} StrLessMeans(a: string, b: string)
    ensures StrLess(a, b) <==> exists n: nat :: ComesFirst(a, b, n)
  {
    if a != [] && b != [] && a[0] == b[0] {
      StrLessMeans(a[1..], b[1..]);
      if n: nat :| ComesFirst(a[1..], b[1..], n) {
        assert a[..n + 1] == [a[0]] + a[1..][..n] && b[..n + 1] == [b[0]] + b[1..][..n];
        assert ComesFirst(a, b, n + 1);
      }
      if n: nat :| ComesFirst(a, b, n) {
        assert n > 0;
        assert a[1..][..n - 1] == a[..n][1..] && b[1..][..n - 1] == b[..n][1..];
        assert ComesFirst(a[1..], b[1..], n - 1);
      }
    } else if StrLess(a, b) {
      assert ComesFirst(a, b, 0);
    } else {
      forall n: nat
        ensures !ComesFirst(a, b, n)
      {
        assert 0 < n <= |a| && n <= |b| ==> a[..n][0] == a[0] && b[..n][0] == b[0];
      }
    }
  }

  /** Entries rise by score, and by the bytes of their members where scores are equal. */
  ghost predicate Rising(s: seq<Key>) {
    forall i, j :: 0 <= i < j < |s| ==>
      s[i].score < s[j].score || (s[i].score == s[j].score && exists n: nat :: ComesFirst(s[i].member, s[j].member, n))
  }

  lemma SortedRises(s: seq<Key>)
    ensures Sorted(s) <==> Rising(s)
  {
    hide StrLess, ComesFirst;
    forall i, j | 0 <= i < j < |s|
      ensures Less(s[i], s[j]) <==>
        || s[i].score < s[j].score
        || (s[i].score == s[j].score && exists n: nat :: ComesFirst(s[i].member, s[j].member, n))
    {
      StrLessMeans(s[i].member, s[j].member);
    }
  }

  predicate Less(a: Key, b: Key) {
    a.score < b.score || (a.score == b.score && StrLess(a.member, b.member))
  }

  lemma {:induction false} StrLessTotal(a: string, b: string)
    ensures a == b || StrLess(a, b) || StrLess(b, a)
    ensures !(StrLess(a, b) && StrLess(b, a)) && !StrLess(a, a)
  {
    if a != [] {
      StrLessTotal(a[1..], if b == [] then [] else b[1..]);
      if b != [] && a[0] == b[0] && a[1..] == b[1..] {
        assert a == [a[0]] + a[1..] && b == [b[0]] + b[1..];
      }
    }
  }

  lemma {:induction false} StrLessTransitive(a: string, b: string, c: string)
    requires StrLess(a, b) && StrLess(b, c)
    ensures StrLess(a, c)
  {
    if a != [] && a[0] == b[0] && b[0] == c[0] {
      StrLessTransitive(a[1..], b[1..], c[1..]);
    }
  }

  lemma LessTotal(a: Key, b: Key)
    ensures a == b || Less(a, b) || Less(b, a)
    ensures !(Less(a, b) && Less(b, a)) && !Less(a, a)
  {
    StrLessTotal(a.member, b.member);
    StrLessTotal(a.member, a.member);
  }

  lemma LessTransitive(a: Key, b: Key, c: Key)
    requires Less(a, b) && Less(b, c)
    ensures Less(a, c)
  {
    if a.score == b.score == c.score {
      StrLessTransitive(a.member, b.member, c.member);
    }
  }

  ghost predicate Sorted(s: seq<Key>) {
    forall i, j :: 0 <= i < j < |s| ==> Less(s[i], s[j])
  }

  /** How many leading entries of `s` come before `k`: the position of `k` in a sorted `s`. */
  ghost function Rank(s: seq<Key>, k: Key): (r: nat)
    ensures r <= |s|
  {
    if s == [] || !Less(s[0], k) then 0 else 1 + Rank(s[1..], k)
  }

  /** In a sorted sequence everything before the rank is smaller and nothing after it is. */
  lemma {:induction false} RankSplits(s: seq<Key>, k: Key)
    requires Sorted(s)
    ensures forall i :: 0 <= i < |s| ==> (i < Rank(s, k) <==> Less(s[i], k))
  {
    if s != [] {
      if Less(s[0], k) {
        RankSplits(s[1..], k);
        forall i | 0 < i < |s| ensures i < Rank(s, k) <==> Less(s[i], k) {
          assert s[i] == s[1..][i - 1];
        }
      } else {
        forall i | 0 < i < |s| ensures !Less(s[i], k) {
          if Less(s[i], k) {
            LessTransitive(s[0], s[i], k);
          }
        }
      }
    }
  }

  lemma RankUnique(s: seq<Key>, k: Key, r: nat)
    requires Sorted(s) && r <= |s|
    requires forall i :: 0 <= i < r ==> Less(s[i], k)
    requires forall i :: r <= i < |s| ==> !Less(s[i], k)
    ensures r == Rank(s, k)
  {
    RankSplits(s, k);
    var q := Rank(s, k);
    assert r < |s| ==> (r < q <==> Less(s[r], k));
    assert q < |s| ==> !Less(s[q], k);
  }

  ghost function Spliced<X>(s: seq<X>, at: nat, x: X): (t: seq<X>)
    requires at <= |s|
  {
    s[..at] + [x] + s[at..]
  }

  ghost function Dropped<X>(s: seq<X>, at: nat): (t: seq<X>)
    requires at < |s|
  {
    s[..at] + s[at + 1..]
  }

  lemma SplicedAt<X>(s: seq<X>, at: nat, x: X)
    requires at <= |s|
    ensures |Spliced(s, at, x)| == |s| + 1 && Dropped(Spliced(s, at, x), at) == s
    ensures forall i {:trigger Spliced(s, at, x)[i]} :: 0 <= i <= |s| ==>
      Spliced(s, at, x)[i] == if i < at then s[i] else if i == at then x else s[i - 1]
    ensures multiset(Spliced(s, at, x)) == multiset(s) + multiset{x}
  {
    assert s == s[..at] + s[at..];
  }

  lemma DroppedAt<X>(s: seq<X>, at: nat)
    requires at < |s|
    ensures |Dropped(s, at)| == |s| - 1
    ensures forall i {:trigger Dropped(s, at)[i]} :: 0 <= i < |s| - 1 ==>
      Dropped(s, at)[i] == s[if i < at then i else i + 1]
    ensures multiset(Dropped(s, at)) == multiset(s) - multiset{s[at]}
  {
    assert s == s[..at] + [s[at]] + s[at + 1..];
  }

  /** The list with `k` put in its place. */
  ghost function InsertKey(s: seq<Key>, k: Key): seq<Key> {
    Spliced(s, Rank(s, k), k)
  }

  /** The list with `k` taken out, if it is there. */
  ghost function RemoveKey(s: seq<Key>, k: Key): seq<Key> {
    var r := Rank(s, k);
    if r < |s| && s[r] == k then Dropped(s, r) else s
  }

  lemma MemberAtRank(s: seq<Key>, k: Key)
    requires Sorted(s)
    ensures k in s <==> Rank(s, k) < |s| && s[Rank(s, k)] == k
  {
    RankSplits(s, k);
    LessTotal(k, k);
    var r := Rank(s, k);
    assert forall i :: r < i < |s| ==> Less(s[r], s[i]);
  }

  /** Inserting keeps the order and adds exactly `k`. */
  lemma InsertKeySorted(s: seq<Key>, k: Key)
    requires Sorted(s) && k !in s
    ensures Sorted(InsertKey(s, k))
    ensures multiset(InsertKey(s, k)) == multiset(s) + multiset{k}
  {
    var r := Rank(s, k);
    SplicedAt(s, r, k);
    RankSplits(s, k);
    forall i | r <= i < |s| ensures Less(k, s[i]) {
      LessTotal(k, s[i]);
      assert s[i] in s;
    }
    SplicedSorted(s, k, r, InsertKey(s, k));
  }

  lemma SplicedSorted(s: seq<Key>, k: Key, r: nat, t: seq<Key>)
    requires Sorted(s) && r <= |s| && |t| == |s| + 1
    requires forall i :: 0 <= i < r ==> Less(s[i], k)
    requires forall i :: r <= i < |s| ==> Less(k, s[i])
    requires forall i {:trigger t[i]} :: 0 <= i < |t| ==> t[i] == if i < r then s[i] else if i == r then k else s[i - 1]
    ensures Sorted(t)
  {
    forall i, j | 0 <= i < j < |t| ensures Less(t[i], t[j]) {
    }
  }

  /** Erasing keeps the order and takes exactly `k` away. */
  lemma RemoveKeySorted(s: seq<Key>, k: Key)
    requires Sorted(s)
    ensures Sorted(RemoveKey(s, k)) && k !in RemoveKey(s, k)
    ensures multiset(RemoveKey(s, k)) == multiset(s) - multiset{k}
  {
    MemberAtRank(s, k);
    var r := Rank(s, k);
    if k in s {
      DroppedAt(s, r);
      DroppedSorted(s, r, Dropped(s, r));
    }
  }

  lemma DroppedSorted(s: seq<Key>, r: nat, t: seq<Key>)
    requires Sorted(s) && r < |s| && |t| == |s| - 1
    requires forall i {:trigger t[i]} :: 0 <= i < |t| ==> t[i] == s[if i < r then i else i + 1]
    ensures Sorted(t) && s[r] !in t
  {
    LessTotal(s[r], s[r]);
    forall i | 0 <= i < |t| ensures t[i] != s[r] {
      var i' := if i < r then i else i + 1;
      assert i' < r ==> Less(s[i'], s[r]);
      assert i' > r ==> Less(s[r], s[i']);
    }
  }

  /** An insert followed by the erase of the same entry restores the list. */
  lemma RemoveUndoesInsert(s: seq<Key>, k: Key)
    requires Sorted(s) && k !in s
    ensures RemoveKey(InsertKey(s, k), k) == s
  {
    var r := Rank(s, k);
    var t := InsertKey(s, k);
    InsertKeySorted(s, k);
    SplicedAt(s, r, k);
    RankSplits(s, k);
    LessTotal(k, k);
    forall i | r <= i < |t| ensures !Less(t[i], k) {
      assert t[i] == if i == r then k else s[i - 1];
    }
    RankUnique(t, k, r);
  }

  /** Two strictly sorted lists of the same entries are the same list. */
  lemma {:induction false} SortedUnique(s: seq<Key>, t: seq<Key>)
    requires Sorted(s) && Sorted(t)
    requires forall k :: k in s <==> k in t
    ensures s == t
  {
    assert (s != [] ==> s[0] in s) && (t != [] ==> t[0] in t);
    if s != [] {
      var i :| 0 <= i < |t| && t[i] == s[0];
      var j :| 0 <= j < |s| && s[j] == t[0];
      LessTotal(s[0], t[0]);
      assert s[0] == t[0];
      forall k ensures k in s[1..] <==> k in t[1..] {
        TailMembers(s, k);
        TailMembers(t, k);
      }
      SortedUnique(s[1..], t[1..]);
      assert s == [s[0]] + s[1..] && t == [t[0]] + t[1..];
    }
  }

  lemma TailMembers(s: seq<Key>, k: Key)
    requires Sorted(s) && s != []
    ensures k in s[1..] <==> k in s && k != s[0]
  {
    LessTotal(s[0], s[0]);
    if k in s && k != s[0] {
      var i :| 0 <= i < |s| && s[i] == k;
      assert s[1..][i - 1] == k;
    }
    if k in s[1..] {
      var i :| 0 <= i < |s[1..]| && s[1..][i] == k;
      assert Less(s[0], s[i + 1]);
    }
  }
}

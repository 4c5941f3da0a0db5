/** The Swiss table: control bytes probed in unaligned windows of 16 over a ring, refining a finite map. */
module SwissTables {
  import opened Options

  const EMPTY := -128
  const DELETED := -2
  const GROUP := 16

  datatype Slot<K, V> = Slot(key: K, value: V)

  // ---------------------------------------------------------------------------
  // Masks and rings
  // ---------------------------------------------------------------------------

  predicate IsPow2(n: nat) {
    n == 1 || (n > 1 && n % 2 == 0 && IsPow2(n / 2))
  }

  /** Bitwise and. */
  function And(x: nat, y: nat): nat {
    if x == 0 || y == 0 then 0 else (x % 2) * (y % 2) + 2 * And(x / 2, y / 2)
  }

  lemma {:induction false} AndBounded(x: nat, y: nat)
    ensures And(x, y) <= y
  {
    if x > 0 && y > 0 {
      AndBounded(x / 2, y / 2);
      var b := (x % 2) * (y % 2);
      assert b == 0 || b == 1 == y % 2;
    }
  }

  /** `x & (cap - 1)` takes a position past the end once round the ring when the capacity is a power of two. */
  lemma {:induction false} MaskWraps(x: nat, cap: nat)
    requires IsPow2(cap) && x < 2 * cap
    ensures And(x, cap - 1) == if x < cap then x else x - cap
  {
    if cap > 1 && x > 0 {
      MaskWraps(x / 2, cap / 2);
      assert (cap - 1) / 2 == cap / 2 - 1 && (cap - 1) % 2 == 1;
      assert And(x, cap - 1) == x % 2 + 2 * And(x / 2, cap / 2 - 1);
    }
  }

  lemma Halved(n: nat) returns (h: nat)
    requires IsPow2(n) && n > 1
    ensures n == 2 * h && IsPow2(h)
  {
    h := n / 2;
  }

  lemma Pow2GroupMultiple(n: nat)
    requires IsPow2(n) && n >= GROUP
    ensures n % GROUP == 0
  {
    var a := Halved(n);
    var b := Halved(a);
    var c := Halved(b);
    var d := Halved(c);
    assert n == 16 * d;
  }

  /** Step `j` round a ring of size `cap` from `start`. */
  function Ring(start: nat, j: nat, cap: nat): (p: nat)
    requires start < cap && j <= cap
    ensures p < cap
  {
    if start + j < cap then start + j else start + j - cap
  }

  /** How many steps lead from `start` to `p`. */
  function Steps(start: nat, p: nat, cap: nat): (j: nat)
    requires start < cap && p < cap
    ensures j < cap && Ring(start, j, cap) == p
  {
    if p >= start then p - start else p + cap - start
  }

  // ---------------------------------------------------------------------------
  // The layout of a table
  // ---------------------------------------------------------------------------

  /** The slot where the probe of a key with hash `h` starts. */
  function Home(h: nat, cap: nat): (p: nat)
    requires cap > 0
    ensures p < cap
  {
    AndBounded(h / 128, cap - 1);
    And(h / 128, cap - 1)
  }

  ghost predicate Ctrl(ctrl: seq<int>, cap: nat) {
    && cap >= GROUP && cap % GROUP == 0 && |ctrl| == cap + GROUP
    && (forall i :: 0 <= i < cap ==> ctrl[i] == EMPTY || ctrl[i] == DELETED || 0 <= ctrl[i] < 128)
    && (forall i {:trigger ctrl[i]} :: 0 <= i < GROUP ==> ctrl[cap + i] == ctrl[i])
  }

  /** Full slots and the keys of `at` correspond one to one, and each carries the tag of its key. */
  ghost predicate Indexed<K, V>(ctrl: seq<int>, slots: seq<Slot<K, V>>, cap: nat, at: map<K, nat>, hash: K -> nat) {
    && |slots| == cap <= |ctrl|
    && (forall k :: k in at ==> at[k] < cap && ctrl[at[k]] >= 0 && slots[at[k]].key == k)
    && (forall i :: 0 <= i < cap && ctrl[i] >= 0 ==>
          slots[i].key in at && at[slots[i].key] == i && ctrl[i] == hash(slots[i].key) % 128)
  }

  /** No window probed before the one that holds slot `i` has an empty slot in it. */
  ghost predicate Reachable(ctrl: seq<int>, cap: nat, home: nat, i: nat)
    requires home < cap <= |ctrl| && i < cap
  {
    forall j :: 0 <= j < Steps(home, i, cap) / GROUP * GROUP ==> ctrl[Ring(home, j, cap)] != EMPTY
  }

  ghost predicate AllReachable<K>(ctrl: seq<int>, cap: nat, at: map<K, nat>, hash: K -> nat) {
    && 0 < cap <= |ctrl|
    && forall k :: k in at ==> at[k] < cap && Reachable(ctrl, cap, Home(hash(k), cap), at[k])
  }

  ghost function Tombstones(ctrl: seq<int>, cap: nat): set<nat>
    requires cap <= |ctrl|
  {
    set i: nat | i < cap && ctrl[i] == DELETED
  }

  ghost function Used(ctrl: seq<int>, cap: nat): set<nat>
    requires cap <= |ctrl|
  {
    set i: nat | i < cap && ctrl[i] != EMPTY
  }

  /** Everything but the load bound. */
  ghost predicate Layout<K, V>(ctrl: seq<int>, slots: seq<Slot<K, V>>, cap: nat, at: map<K, nat>, hash: K -> nat,
                               size: nat, tombstones: nat)
  {
    && Ctrl(ctrl, cap) && Indexed(ctrl, slots, cap, at, hash) && AllReachable(ctrl, cap, at, hash)
    && size == |at| && tombstones == |Tombstones(ctrl, cap)| && size + tombstones == |Used(ctrl, cap)|
  }

  ghost function Range(n: nat): (s: set<nat>)
    ensures forall i :: i in s <==> 0 <= i < n
    ensures |s| == n
  {
    if n == 0 then {} else Range(n - 1) + {n - 1}
  }

  /** A table that is not fully used has an empty slot. */
  lemma EmptySlotExists(ctrl: seq<int>, cap: nat) returns (e: nat)
    requires cap <= |ctrl| && |Used(ctrl, cap)| < cap
    ensures e < cap && ctrl[e] == EMPTY
  {
    assert (forall i :: 0 <= i < cap ==> ctrl[i] != EMPTY) ==> Used(ctrl, cap) == Range(cap);
    e :| 0 <= e < cap && ctrl[e] == EMPTY;
  }

  function Wrap(p: nat, cap: nat): (q: nat)
    requires p < 2 * cap
    ensures q < cap
  {
    if p < cap then p else p - cap
  }

  /** A window that runs past the end sees the ring, thanks to the mirrored bytes. */
  lemma MirroredRead(ctrl: seq<int>, cap: nat, p: nat)
    requires Ctrl(ctrl, cap) && p < cap + GROUP
    ensures ctrl[p] == ctrl[Wrap(p, cap)]
  {
    assert p >= cap ==> ctrl[cap + (p - cap)] == ctrl[p - cap];
  }

  /** Writing one control byte, with its mirror. */
  function SetCtrl(ctrl: seq<int>, cap: nat, i: nat, v: int): (c: seq<int>)
    requires |ctrl| == cap + GROUP && i < cap
    ensures |c| == |ctrl|
  {
    if i < GROUP then ctrl[i := v][cap + i := v] else ctrl[i := v]
  }

  lemma SetCtrlKeeps(ctrl: seq<int>, cap: nat, i: nat, v: int)
    requires Ctrl(ctrl, cap) && i < cap && (v == EMPTY || v == DELETED || 0 <= v < 128)
    ensures Ctrl(SetCtrl(ctrl, cap, i, v), cap)
    ensures forall j :: 0 <= j < cap ==> SetCtrl(ctrl, cap, i, v)[j] == if j == i then v else ctrl[j]
  {
  }

  /** Filling slot `i` with a new key keeps the layout, provided the probe of the key gets there. */
  lemma FillSlot<K, V>(ctrl: seq<int>, slots: seq<Slot<K, V>>, cap: nat, at: map<K, nat>, hash: K -> nat,
                       size: nat, tombstones: nat, i: nat, key: K, value: V)
    requires Layout(ctrl, slots, cap, at, hash, size, tombstones)
    requires i < cap && ctrl[i] < 0 && key !in at
    requires Reachable(ctrl, cap, Home(hash(key), cap), i)
    ensures ctrl[i] == DELETED ==> tombstones > 0
    ensures Layout(SetCtrl(ctrl, cap, i, hash(key) % 128), slots[i := Slot(key, value)], cap, at[key := i], hash,
                   size + 1, if ctrl[i] == DELETED then tombstones - 1 else tombstones)
  {
    var tag := hash(key) % 128;
    SetCtrlKeeps(ctrl, cap, i, tag);
    var c := SetCtrl(ctrl, cap, i, tag);
    FillIndexed(ctrl, slots, c, cap, at, hash, i, key, value);
    FillReachable(ctrl, c, cap, at, hash, i, key);
    FillCounts(ctrl, c, cap, i, tag);
    hide Ctrl, Indexed, AllReachable, Reachable, SetCtrl;
  }

  lemma FillIndexed<K, V>(ctrl: seq<int>, slots: seq<Slot<K, V>>, c: seq<int>, cap: nat, at: map<K, nat>,
      hash: K -> nat, i: nat, key: K, value: V)
    requires Indexed(ctrl, slots, cap, at, hash) && i < cap && ctrl[i] < 0 && key !in at
    requires |c| == |ctrl| && forall j :: 0 <= j < cap ==> c[j] == if j == i then hash(key) % 128 else ctrl[j]
    ensures Indexed(c, slots[i := Slot(key, value)], cap, at[key := i], hash)
  {
  }

  lemma FillReachable<K>(ctrl: seq<int>, c: seq<int>, cap: nat, at: map<K, nat>, hash: K -> nat, i: nat, key: K)
    requires AllReachable(ctrl, cap, at, hash) && i < cap
    requires Reachable(ctrl, cap, Home(hash(key), cap), i)
    requires |c| == |ctrl| && forall j :: 0 <= j < cap ==> ctrl[j] != EMPTY ==> c[j] != EMPTY
    ensures AllReachable(c, cap, at[key := i], hash)
  {
    forall k | k in at[key := i]
      ensures at[key := i][k] < cap && Reachable(c, cap, Home(hash(k), cap), at[key := i][k])
    {
      assert k != key ==> Reachable(ctrl, cap, Home(hash(k), cap), at[k]);
    }
  }

  lemma FillCounts(ctrl: seq<int>, c: seq<int>, cap: nat, i: nat, v: int)
    requires |c| == |ctrl| >= cap && i < cap && (ctrl[i] == EMPTY || ctrl[i] == DELETED) && v >= 0
    requires forall j :: 0 <= j < cap ==> c[j] == if j == i then v else ctrl[j]
    ensures ctrl[i] == DELETED ==> |Tombstones(ctrl, cap)| > 0
    ensures |Tombstones(c, cap)| == |Tombstones(ctrl, cap)| - if ctrl[i] == DELETED then 1 else 0
    ensures |Used(c, cap)| == |Used(ctrl, cap)| + if ctrl[i] == DELETED then 0 else 1
  {
    assert Tombstones(c, cap) == Tombstones(ctrl, cap) - {i};
    assert ctrl[i] == DELETED ==> i in Tombstones(ctrl, cap);
    assert i in Used(c, cap);
    assert Used(ctrl, cap) == if ctrl[i] == DELETED then Used(c, cap) else Used(c, cap) - {i};
  }

  /** Overwriting the value of a full slot keeps the layout. */
  lemma OverwriteSlot<K, V>(ctrl: seq<int>, slots: seq<Slot<K, V>>, cap: nat, at: map<K, nat>, hash: K -> nat,
                            size: nat, tombstones: nat, i: nat, value: V)
    requires Layout(ctrl, slots, cap, at, hash, size, tombstones) && i < cap && ctrl[i] >= 0
    ensures Layout(ctrl, slots[i := Slot(slots[i].key, value)], cap, at, hash, size, tombstones)
  {
    var s := slots[i := Slot(slots[i].key, value)];
    assert forall j :: 0 <= j < cap ==> s[j].key == slots[j].key;
  }

  /** Turning a full slot into a tombstone keeps the layout: it opens no probe. */
  lemma BurySlot<K, V>(ctrl: seq<int>, slots: seq<Slot<K, V>>, cap: nat, at: map<K, nat>, hash: K -> nat,
                       size: nat, tombstones: nat, i: nat, slot: Slot<K, V>)
    requires Layout(ctrl, slots, cap, at, hash, size, tombstones) && i < cap && ctrl[i] >= 0
    ensures size > 0
    ensures Layout(SetCtrl(ctrl, cap, i, DELETED), slots[i := slot], cap, at - {slots[i].key}, hash,
                   size - 1, tombstones + 1)
  {
    var c, s, a := SetCtrl(ctrl, cap, i, DELETED), slots[i := slot], at - {slots[i].key};
    SetCtrlKeeps(ctrl, cap, i, DELETED);
    assert slots[i].key in at;
    assert a.Keys == at.Keys - {slots[i].key};
    assert |a| == |at| - 1;
    assert Indexed(c, s, cap, a, hash);
    forall k | k in a ensures a[k] < cap && Reachable(c, cap, Home(hash(k), cap), a[k]) {
      assert Reachable(ctrl, cap, Home(hash(k), cap), at[k]);
    }
    assert Tombstones(c, cap) == Tombstones(ctrl, cap) + {i};
    assert Used(c, cap) == Used(ctrl, cap);
  }

  /** All slots empty. */
  lemma EmptyLayout<K, V>(ctrl: seq<int>, slots: seq<Slot<K, V>>, cap: nat, hash: K -> nat)
    requires cap >= GROUP && cap % GROUP == 0 && |ctrl| == cap + GROUP && |slots| == cap
    requires forall i :: 0 <= i < |ctrl| ==> ctrl[i] == EMPTY
    ensures Layout(ctrl, slots, cap, map[], hash, 0, 0)
  {
    assert Tombstones(ctrl, cap) == {} && Used(ctrl, cap) == {};
  }

  // ---------------------------------------------------------------------------
  // Probes
  // ---------------------------------------------------------------------------

  ghost predicate HasKey<K, V>(ctrl: seq<int>, slots: seq<Slot<K, V>>, p: nat, key: K)
    requires p < |slots| <= |ctrl|
  {
    ctrl[p] >= 0 && slots[p].key == key
  }

  /** The first `n` ring positions from `home` are not empty and do not hold `key`. */
  ghost predicate Passed<K, V>(ctrl: seq<int>, slots: seq<Slot<K, V>>, cap: nat, home: nat, n: nat, key: K)
    requires home < cap == |slots| <= |ctrl|
  {
    && n <= cap
    && forall j :: 0 <= j < n ==>
         ctrl[Ring(home, j, cap)] != EMPTY && !HasKey(ctrl, slots, Ring(home, j, cap), key)
  }

  /** A probe that has passed `n` positions cannot have gone all the way round. */
  lemma ProbeEnds<K, V>(ctrl: seq<int>, slots: seq<Slot<K, V>>, cap: nat, home: nat, n: nat, key: K)
    requires home < cap == |slots| <= |ctrl| && |Used(ctrl, cap)| < cap
    requires Passed(ctrl, slots, cap, home, n, key)
    ensures n < cap
  {
    var e := EmptySlotExists(ctrl, cap);
    assert Ring(home, Steps(home, e, cap), cap) == e;
  }

  /** A reachable slot lies no farther than the first window that has an empty slot in it. */
  lemma ReachStops(ctrl: seq<int>, cap: nat, home: nat, i: nat, n: nat, e: nat)
    requires home < cap <= |ctrl| && i < cap && Reachable(ctrl, cap, home, i)
    requires n % GROUP == 0 && n <= e < n + GROUP <= cap && ctrl[Ring(home, e, cap)] == EMPTY
    ensures Ring(home, Steps(home, i, cap), cap) == i && Steps(home, i, cap) < n + GROUP
  {
    WindowBelow(n, e, Steps(home, i, cap));
  }

  lemma WindowBelow(n: nat, e: nat, d: nat)
    requires n % GROUP == 0 && n <= e < n + GROUP
    ensures d >= n + GROUP ==> e < d / GROUP * GROUP
  {
  }

  /** A window with an empty slot and without the key shows that the key is absent. */
  lemma AbsentKey<K, V>(ctrl: seq<int>, slots: seq<Slot<K, V>>, cap: nat, at: map<K, nat>, hash: K -> nat,
                        home: nat, n: nat, e: nat, key: K)
    requires Indexed(ctrl, slots, cap, at, hash) && AllReachable(ctrl, cap, at, hash) && home == Home(hash(key), cap)
    requires n % GROUP == 0 && n <= e < n + GROUP <= cap && Passed(ctrl, slots, cap, home, n, key)
    requires ctrl[Ring(home, e, cap)] == EMPTY
    requires forall j :: n <= j < n + GROUP ==> !HasKey(ctrl, slots, Ring(home, j, cap), key)
    ensures key !in at
  {
    if key in at {
      ReachStops(ctrl, cap, home, at[key], n, e);
      assert false;
    }
  }

  /** The state of a probe: `n` positions from `home` have been passed and the window at `pos` comes next. */
  ghost predicate Probing<K, V>(ctrl: seq<int>, slots: seq<Slot<K, V>>, cap: nat, home: nat, n: nat, pos: nat, key: K) {
    && home < cap == |slots| <= |ctrl| && n % GROUP == 0 && n + GROUP <= cap && pos == Ring(home, n, cap)
    && Passed(ctrl, slots, cap, home, n, key)
  }

  /** None of the 16 slots seen through the window at `pos` holds `key`. */
  ghost predicate NoneInWindow<K, V>(ctrl: seq<int>, slots: seq<Slot<K, V>>, cap: nat, pos: nat, key: K)
    requires pos < cap == |slots| <= |ctrl| && cap >= GROUP
  {
    forall p :: pos <= p < pos + GROUP ==> !HasKey(ctrl, slots, Wrap(p, cap), key)
  }

  lemma HitSlot<K, V>(ctrl: seq<int>, slots: seq<Slot<K, V>>, cap: nat, at: map<K, nat>, hash: K -> nat, p: nat)
    requires Ctrl(ctrl, cap) && Indexed(ctrl, slots, cap, at, hash) && p < cap + GROUP
    ensures Wrap(p, cap) < cap && ctrl[p] == ctrl[Wrap(p, cap)]
  {
    MirroredRead(ctrl, cap, p);
  }

  /** Positions whose byte does not match the hash do not hold the key. */
  lemma NoHits<K, V>(ctrl: seq<int>, slots: seq<Slot<K, V>>, cap: nat, at: map<K, nat>, hash: K -> nat, pos: nat,
                     hits: seq<nat>, key: K)
    requires Ctrl(ctrl, cap) && Indexed(ctrl, slots, cap, at, hash) && pos < cap && cap >= GROUP
    requires forall p :: p in hits <==> pos <= p < pos + GROUP && ctrl[p] == hash(key) % 128
    requires forall t :: 0 <= t < |hits| ==> hits[t] < 2 * cap && !HasKey(ctrl, slots, Wrap(hits[t], cap), key)
    ensures NoneInWindow(ctrl, slots, cap, pos, key)
  {
    forall p | pos <= p < pos + GROUP
      ensures !HasKey(ctrl, slots, Wrap(p, cap), key)
    {
      MirroredRead(ctrl, cap, p);
      assert ctrl[p] == hash(key) % 128 <==> p in hits;
    }
  }

  /** A key that is not in the table is in none of its slots. */
  lemma NewKeyNotThere<K, V>(ctrl: seq<int>, slots: seq<Slot<K, V>>, cap: nat, at: map<K, nat>, hash: K -> nat,
      pos: nat, key: K)
    requires Ctrl(ctrl, cap) && Indexed(ctrl, slots, cap, at, hash) && pos < cap && cap >= GROUP && key !in at
    ensures NoneInWindow(ctrl, slots, cap, pos, key)
  {
  }

  /** A window without an empty slot and without the key is passed, and another follows it. */
  lemma NextWindow<K, V>(ctrl: seq<int>, slots: seq<Slot<K, V>>, cap: nat, home: nat, n: nat, pos: nat, key: K)
    requires Ctrl(ctrl, cap) && IsPow2(cap) && Probing(ctrl, slots, cap, home, n, pos, key) && |Used(ctrl, cap)| < cap
    requires forall p :: pos <= p < pos + GROUP ==> ctrl[p] != EMPTY
    requires NoneInWindow(ctrl, slots, cap, pos, key)
    ensures Probing(ctrl, slots, cap, home, n + GROUP, And(pos + GROUP, cap - 1), key)
    ensures n + GROUP + GROUP <= cap && And(pos + GROUP, cap - 1) < cap
  {
    hide And, IsPow2;
    forall j | n <= j < n + GROUP
      ensures ctrl[Ring(home, j, cap)] != EMPTY && !HasKey(ctrl, slots, Ring(home, j, cap), key)
    {
      var p := pos + (j - n);
      MirroredRead(ctrl, cap, p);
      assert Ring(home, j, cap) == Wrap(p, cap);
      assert ctrl[p] != EMPTY;
    }
    ProbeEnds(ctrl, slots, cap, home, n + GROUP, key);
    MaskWraps(pos + GROUP, cap);
  }

  /** A window with an empty byte and without the key ends the probe: the key is absent. */
  lemma ProbeFails<K, V>(ctrl: seq<int>, slots: seq<Slot<K, V>>, cap: nat, at: map<K, nat>, hash: K -> nat,
                         home: nat, n: nat, pos: nat, key: K, p: nat)
    requires Ctrl(ctrl, cap) && Indexed(ctrl, slots, cap, at, hash) && AllReachable(ctrl, cap, at, hash)
    requires Probing(ctrl, slots, cap, home, n, pos, key) && home == Home(hash(key), cap)
    requires pos <= p < pos + GROUP && ctrl[p] == EMPTY && NoneInWindow(ctrl, slots, cap, pos, key)
    ensures key !in at
  {
    MirroredRead(ctrl, cap, p);
    assert Ring(home, n + (p - pos), cap) == Wrap(p, cap);
    forall j | n <= j < n + GROUP ensures !HasKey(ctrl, slots, Ring(home, j, cap), key) {
      assert Ring(home, j, cap) == Wrap(pos + (j - n), cap);
    }
    AbsentKey(ctrl, slots, cap, at, hash, home, n, n + (p - pos), key);
  }

  /** A slot seen through the window of a probe is reachable for the probed key. */
  lemma WindowReachable<K, V>(ctrl: seq<int>, slots: seq<Slot<K, V>>, cap: nat, home: nat, n: nat, pos: nat, key: K,
      p: nat)
    requires Ctrl(ctrl, cap) && IsPow2(cap) && Probing(ctrl, slots, cap, home, n, pos, key) && pos <= p < pos + GROUP
    ensures p < 2 * cap && And(p, cap - 1) == Wrap(p, cap) && ctrl[p] == ctrl[Wrap(p, cap)]
    ensures Reachable(ctrl, cap, home, Wrap(p, cap))
  {
    hide And, IsPow2;
    MaskWraps(p, cap);
    MirroredRead(ctrl, cap, p);
    assert Steps(home, Wrap(p, cap), cap) == n + (p - pos);
  }

  ghost function ContentsOf<K, V>(slots: seq<Slot<K, V>>, at: map<K, nat>): map<K, V> {
    map k | k in at && at[k] < |slots| :: slots[at[k]].value
  }

  lemma AbsentMeans<K, V>(ctrl: seq<int>, slots: seq<Slot<K, V>>, cap: nat, at: map<K, nat>, hash: K -> nat, key: K)
    requires Indexed(ctrl, slots, cap, at, hash)
    ensures key in at <==> key in ContentsOf(slots, at)
  {
  }

  lemma NoTombstones(ctrl: seq<int>, cap: nat, i: nat)
    requires i < cap <= |ctrl|
    ensures ctrl[i] == DELETED <==> i in Tombstones(ctrl, cap)
    ensures i in Tombstones(ctrl, cap) ==> |Tombstones(ctrl, cap)| > 0
  {
  }

  lemma FillContents<K, V>(ctrl: seq<int>, slots: seq<Slot<K, V>>, cap: nat, at: map<K, nat>, hash: K -> nat,
                           i: nat, key: K, value: V)
    requires Indexed(ctrl, slots, cap, at, hash) && i < cap && ctrl[i] < 0 && key !in at
    ensures ContentsOf(slots[i := Slot(key, value)], at[key := i]) == ContentsOf(slots, at)[key := value]
  {
  }

  lemma OverwriteContents<K, V>(ctrl: seq<int>, slots: seq<Slot<K, V>>, cap: nat, at: map<K, nat>, hash: K -> nat,
                                i: nat, key: K, value: V)
    requires Indexed(ctrl, slots, cap, at, hash) && i < cap && HasKey(ctrl, slots, i, key)
    ensures key in at && ContentsOf(slots[i := Slot(key, value)], at) == ContentsOf(slots, at)[key := value]
  {
  }

  lemma BuryContents<K, V>(ctrl: seq<int>, slots: seq<Slot<K, V>>, cap: nat, at: map<K, nat>, hash: K -> nat,
                           i: nat, key: K, slot: Slot<K, V>)
    requires Indexed(ctrl, slots, cap, at, hash) && i < cap && HasKey(ctrl, slots, i, key)
    ensures key in at && ContentsOf(slots[i := slot], at - {key}) == ContentsOf(slots, at) - {key}
  {
  }

  /** The entries of a table whose slots lie before slot `i`. */
  ghost function MovedSoFar<K, V>(slots: seq<Slot<K, V>>, at: map<K, nat>, i: nat): map<K, V> {
    map k | k in at && at[k] < |slots| && at[k] < i :: slots[at[k]].value
  }

  lemma MoveStart<K, V>(ctrl: seq<int>, slots: seq<Slot<K, V>>, cap: nat, at: map<K, nat>, hash: K -> nat)
    requires Indexed(ctrl, slots, cap, at, hash)
    ensures MovedSoFar(slots, at, 0) == map[]
  {
  }

  lemma MoveEnd<K, V>(ctrl: seq<int>, slots: seq<Slot<K, V>>, cap: nat, at: map<K, nat>, hash: K -> nat)
    requires Indexed(ctrl, slots, cap, at, hash)
    ensures MovedSoFar(slots, at, cap) == ContentsOf(slots, at) && |ContentsOf(slots, at)| == |at|
  {
    assert ContentsOf(slots, at).Keys == at.Keys;
  }

  lemma MoveStep<K, V>(ctrl: seq<int>, slots: seq<Slot<K, V>>, cap: nat, at: map<K, nat>, hash: K -> nat, i: nat)
    requires Indexed(ctrl, slots, cap, at, hash) && i < cap
    ensures ctrl[i] < 0 ==> MovedSoFar(slots, at, i + 1) == MovedSoFar(slots, at, i)
    ensures ctrl[i] >= 0 ==>
      && slots[i].key !in MovedSoFar(slots, at, i)
      && MovedSoFar(slots, at, i + 1) == MovedSoFar(slots, at, i)[slots[i].key := slots[i].value]
      && |MovedSoFar(slots, at, i)| + 1 <= |at|
  {
    var m, m' := MovedSoFar(slots, at, i), MovedSoFar(slots, at, i + 1);
    if ctrl[i] >= 0 {
      assert slots[i].key in at;
      assert m' == m[slots[i].key := slots[i].value];
      SubsetSize(m.Keys + {slots[i].key}, at.Keys);
    } else {
      assert m' == m;
    }
  }

  lemma {:induction false} SubsetSize<T>(a: set<T>, b: set<T>)
    requires a <= b
    ensures |a| <= |b|
  {
    if a != {} {
      var x :| x in a;
      SubsetSize(a - {x}, b - {x});
    }
  }

  /** The live entries in slot order: what for_each visits. */
  ghost function Entries<K, V>(ctrl: seq<int>, slots: seq<Slot<K, V>>, n: nat): seq<Slot<K, V>>
    requires n <= |slots| <= |ctrl|
  {
    if n == 0 then []
    else Entries(ctrl, slots, n - 1) + if ctrl[n - 1] >= 0 then [slots[n - 1]] else []
  }

  /** `out` lists the entries of `m`, each once. */
  ghost predicate Enumerates<K, V>(out: seq<Slot<K, V>>, m: map<K, V>) {
    && |out| == |m|
    && (forall t :: 0 <= t < |out| ==> out[t].key in m && m[out[t].key] == out[t].value)
    && (forall t, u :: 0 <= t < u < |out| ==> out[t].key != out[u].key)
    && (forall k :: k in m ==> Slot(k, m[k]) in out)
  }

  lemma {:induction false} EntriesEnumerate<K, V>(ctrl: seq<int>, slots: seq<Slot<K, V>>, cap: nat, at: map<K, nat>,
                                                  hash: K -> nat, n: nat)
    requires Indexed(ctrl, slots, cap, at, hash) && n <= cap
    ensures Enumerates(Entries(ctrl, slots, n), MovedSoFar(slots, at, n))
  {
    if n == 0 {
      MoveStart(ctrl, slots, cap, at, hash);
    } else {
      EntriesEnumerate(ctrl, slots, cap, at, hash, n - 1);
      MoveStep(ctrl, slots, cap, at, hash, n - 1);
      hide MovedSoFar, Indexed, Enumerates;
      EnumerateNext(Entries(ctrl, slots, n - 1), MovedSoFar(slots, at, n - 1), ctrl[n - 1] >= 0, slots[n - 1],
        Entries(ctrl, slots, n), MovedSoFar(slots, at, n));
    }
  }

  lemma NextEntry<K, V>(ctrl: seq<int>, slots: seq<Slot<K, V>>, n: nat)
    requires n <= |slots| <= |ctrl|
    ensures Entries(ctrl, slots, n) == if n == 0 then []
      else Entries(ctrl, slots, n - 1) + if ctrl[n - 1] >= 0 then [slots[n - 1]] else []
  {
  }

  lemma EnumerateNext<K, V>(out: seq<Slot<K, V>>, m: map<K, V>, live: bool, s: Slot<K, V>, out': seq<Slot<K, V>>,
      m': map<K, V>)
    requires Enumerates(out, m) && out' == out + (if live then [s] else [])
    requires if live then s.key !in m && m' == m[s.key := s.value] else m' == m
    ensures Enumerates(out', m')
  {
    if live {
      EnumerateOneMore(out, m, s);
    } else {
      assert out' == out;
    }
  }

  lemma EnumerateOneMore<K, V>(out: seq<Slot<K, V>>, m: map<K, V>, s: Slot<K, V>)
    requires Enumerates(out, m) && s.key !in m
    ensures Enumerates(out + [s], m[s.key := s.value])
  {
    var out', m' := out + [s], m[s.key := s.value];
    forall k | k in m' ensures Slot(k, m'[k]) in out' {
      assert out'[|out|] == s;
      assert k in m ==> Slot(k, m[k]) in out;
    }
  }

  class SwissTable<K(==), V> {
    const hash: K -> nat
    const noKey: K
    const noValue: V
    var ctrl: array<int>
    var slots: array<Slot<K, V>>
    var capacity: nat
    var mask: nat
    var growAt: nat
    var size: nat
    var tombstones: nat
    ghost var at: map<K, nat>

    /** Everything but the load bound. */
    ghost predicate Core()
      reads this, ctrl, slots
    {
      && Layout(ctrl[..], slots[..], capacity, at, hash, size, tombstones)
      && IsPow2(capacity) && mask == capacity - 1 && growAt == capacity * 7 / 8
      && ctrl as object != slots as object
    }

    lemma CoreLengths()
      requires Core()
      ensures slots.Length == capacity && ctrl.Length == capacity + GROUP && ctrl as object != slots as object
    {
      assert Ctrl(ctrl[..], capacity);
    }

    ghost predicate Valid()
      reads this, ctrl, slots
    {
      Core() && size + tombstones <= growAt
    }

    ghost function Contents(): map<K, V>
      reads this, slots
    {
      ContentsOf(slots[..], at)
    }

    /** A table of 16 empty slots. `noKey` and `noValue` stand for default-constructed ones. */
    constructor (hash: K -> nat, noKey: K, noValue: V)
      ensures Valid() && Contents() == map[] && fresh(ctrl) && fresh(slots)
      ensures this.hash == hash
    {
      this.hash, this.noKey, this.noValue := hash, noKey, noValue;
      var c := new int[2 * GROUP](_ => EMPTY);
      var s := new Slot<K, V>[GROUP](_ => Slot(noKey, noValue));
      ctrl, slots := c, s;
      capacity, mask, growAt := GROUP, GROUP - 1, GROUP * 7 / 8;
      size, tombstones, at := 0, 0, map[];
      new;
      EmptyLayout(ctrl[..], slots[..], capacity, hash);
      assert IsPow2(1) && IsPow2(2) && IsPow2(4) && IsPow2(8) && IsPow2(16);
    }

    /** The bytes of the window at `pos` that equal `needle`: MatchBits with its set bits counted out. */
    method MatchBits(pos: nat, needle: int, ghost c: seq<int>) returns (hits: seq<nat>)
      requires pos + GROUP <= ctrl.Length && c == ctrl[..]
      ensures forall p :: p in hits <==> pos <= p < pos + GROUP && c[p] == needle
    {
      hits := [];
      var i := 0;
      while i < GROUP
        invariant 0 <= i <= GROUP
        invariant forall p :: p in hits <==> pos <= p < pos + i && c[p] == needle
      {
        if ctrl[pos + i] == needle {
          hits := hits + [pos + i];
        }
        i := i + 1;
      }
    }

    /** An empty byte of the window at `pos`, if there is one. */
    method MatchEmpty(pos: nat, ghost c: seq<int>) returns (hit: Option<nat>)
      requires pos + GROUP <= ctrl.Length && c == ctrl[..]
      ensures hit.Some? ==> pos <= hit.value < pos + GROUP && c[hit.value] == EMPTY
      ensures hit.None? ==> forall p :: pos <= p < pos + GROUP ==> c[p] != EMPTY
    {
      var i := 0;
      while i < GROUP
        invariant 0 <= i <= GROUP && forall p :: pos <= p < pos + i ==> c[p] != EMPTY
      {
        if ctrl[pos + i] == EMPTY {
          return Some(pos + i);
        }
        i := i + 1;
      }
      return None;
    }

    /** The first byte of the window at `pos` that is not full, if there is one. */
    method MatchEmptyOrDeleted(pos: nat, ghost c: seq<int>) returns (hit: Option<nat>)
      requires pos + GROUP <= ctrl.Length && c == ctrl[..]
      ensures hit.Some? ==> pos <= hit.value < pos + GROUP && c[hit.value] < 0
      ensures hit.Some? ==> forall p :: pos <= p < hit.value ==> c[p] >= 0
      ensures hit.None? ==> forall p :: pos <= p < pos + GROUP ==> c[p] >= 0
    {
      var i := 0;
      while i < GROUP
        invariant 0 <= i <= GROUP && forall p :: pos <= p < pos + i ==> c[p] >= 0
      {
        if ctrl[pos + i] < 0 {
          return Some(pos + i);
        }
        i := i + 1;
      }
      return None;
    }

    /** Looks for `key` among the slots of one window whose tag matches. */
    method FindInWindow(pos: nat, needle: int, key: K) returns (hit: Option<nat>)
      requires Core() && needle == hash(key) % 128 && pos < capacity
      ensures hit.Some? ==> hit.value < capacity && HasKey(ctrl[..], slots[..], hit.value, key)
      ensures hit.None? ==> NoneInWindow(ctrl[..], slots[..], capacity, pos, key)
    {
      ghost var c, s := ctrl[..], slots[..];
      assert Ctrl(c, capacity) && Indexed(c, s, capacity, at, hash);
      hide Layout, AllReachable, Ctrl, And, IsPow2, Indexed;
      var hits := MatchBits(pos, needle, c);
      var m := 0;
      while m < |hits|
        invariant 0 <= m <= |hits|
        invariant forall t :: 0 <= t < m ==> hits[t] < 2 * capacity && !HasKey(c, s, Wrap(hits[t], capacity), key)
      {
        var p := hits[m];
        assert p in hits;
        HitSlot(c, s, capacity, at, hash, p);
        MaskWraps(p, capacity);
        var i := And(p, mask);
        if slots[i].key == key {
          return Some(i);
        }
        m := m + 1;
      }
      NoHits(c, s, capacity, at, hash, pos, hits, key);
      return None;
    }

    /** Where `key` is, if it is in the table. */
    method Find(key: K) returns (r: Option<nat>)
      requires Valid()
      ensures r.None? ==> key !in Contents()
      ensures r.Some? ==> r.value < slots.Length && key in Contents() && slots[r.value] == Slot(key, Contents()[key])
      ensures r.Some? ==> r.value < capacity && HasKey(ctrl[..], slots[..], r.value, key)
    {
      ghost var c, s := ctrl[..], slots[..];
      var h := hash(key);
      var pos: nat := And(h / 128, mask);
      var needle := h % 128;
      ghost var home: nat, n: nat := Home(h, capacity), 0;
      hide And, IsPow2;
      assert Passed(c, s, capacity, home, n, key);
      while true
        invariant Probing(c, s, capacity, home, n, pos, key)
        decreases capacity - n
      {
        var hit := FindInWindow(pos, needle, key);
        if hit.Some? {
          return hit;
        }
        var empty := MatchEmpty(pos, c);
        if empty.Some? {
          ProbeFails(c, s, capacity, at, hash, home, n, pos, key, empty.value);
          return None;
        }
        NextWindow(c, s, capacity, home, n, pos, key);
        pos := And(pos + GROUP, mask);
        n := n + GROUP;
      }
    }

    /** Writes a slot and its control byte, with the mirror: set_ctrl and the slot assignments beside it. */
    method WriteSlot(i: nat, v: int, slot: Slot<K, V>)
      requires ctrl.Length == capacity + GROUP && i < capacity == slots.Length && ctrl as object != slots as object
      modifies ctrl, slots
      ensures ctrl[..] == SetCtrl(old(ctrl[..]), capacity, i, v) && slots[..] == old(slots[..])[i := slot]
    {
      ctrl[i] := v;
      if i < GROUP {
        ctrl[capacity + i] := v;
      }
      slots[i] := slot;
    }

    /** Writes slot `i` and the counters that go with it. */
    method Store(i: nat, v: int, slot: Slot<K, V>, newSize: nat, newTombstones: nat, ghost newAt: map<K, nat>)
      requires Core() && i < capacity
      requires Layout(SetCtrl(ctrl[..], capacity, i, v), slots[..][i := slot], capacity, newAt, hash, newSize,
        newTombstones)
      modifies this`size, this`tombstones, this`at, ctrl, slots
      ensures Core() && at == newAt && size == newSize && tombstones == newTombstones
      ensures Contents() == ContentsOf(old(slots[..])[i := slot], newAt)
      ensures i < slots.Length && slots[i] == slot
    {
      CoreLengths();
      hide *;
      size, tombstones, at := newSize, newTombstones, newAt;
      WriteSlot(i, v, slot);
      assert slots[i] == slots[..][i];
    }

    method Fill(i: nat, key: K, value: V)
      requires Core() && i < capacity && ctrl[i] < 0 && key !in at
      requires Reachable(ctrl[..], capacity, Home(hash(key), capacity), i)
      modifies this`size, this`tombstones, this`at, ctrl, slots
      ensures Core() && Contents() == old(Contents())[key := value] && at == old(at)[key := i]
      ensures size == old(size) + 1 && tombstones == old(tombstones) - if old(ctrl[i]) == DELETED then 1 else 0
      ensures i < slots.Length && slots[i] == Slot(key, value)
    {
      FillSlot(ctrl[..], slots[..], capacity, at, hash, size, tombstones, i, key, value);
      FillContents(ctrl[..], slots[..], capacity, at, hash, i, key, value);
      assert Contents() == ContentsOf(slots[..], at);
      hide *;
      var freed := if ctrl[i] == DELETED then 1 else 0;
      Store(i, hash(key) % 128, Slot(key, value), size + 1, tombstones - freed, at[key := i]);
    }

    /** The first free slot on the probe of `key` in a table under rebuilding. */
    method FindFree(key: K) returns (i: nat)
      requires Core() && key !in at && size + tombstones < capacity
      ensures i < capacity && ctrl[i] < 0 && Reachable(ctrl[..], capacity, Home(hash(key), capacity), i)
    {
      ghost var c, s := ctrl[..], slots[..];
      var h := hash(key);
      var pos: nat := And(h / 128, mask);
      ghost var home: nat, n: nat := Home(h, capacity), 0;
      assert Passed(c, s, capacity, home, n, key);
      assert Ctrl(c, capacity) && Indexed(c, s, capacity, at, hash) && |Used(c, capacity)| < capacity;
      hide And, IsPow2, Layout, Indexed, Ctrl;
      while true
        invariant Probing(c, s, capacity, home, n, pos, key)
        decreases capacity - n
      {
        var hit := MatchEmptyOrDeleted(pos, c);
        if hit.Some? {
          WindowReachable(c, s, capacity, home, n, pos, key, hit.value);
          return And(hit.value, mask);
        }
        NewKeyNotThere(c, s, capacity, at, hash, pos, key);
        NextWindow(c, s, capacity, home, n, pos, key);
        pos := And(pos + GROUP, mask);
        n := n + GROUP;
      }
    }

    /** Inserts into a table under rebuilding; the key is known to be new and there are no tombstones. */
    method InsertMoved(key: K, value: V)
      requires Core() && key !in at && tombstones == 0 && size < capacity
      modifies this`size, this`tombstones, this`at, ctrl, slots
      ensures Core() && tombstones == 0 && size == old(size) + 1
      ensures Contents() == old(Contents())[key := value] && at.Keys == old(at).Keys + {key}
    {
      var i := FindFree(key);
      NoTombstones(ctrl[..], capacity, i);
      Fill(i, key, value);
    }

    /** Rebuilds the table at capacity `newCap`, dropping tombstones. */
    method Rehash(newCap: nat)
      requires Core() && IsPow2(newCap) && newCap >= GROUP && size <= newCap * 7 / 8
      modifies this
      ensures Valid() && fresh(ctrl) && fresh(slots)
      ensures capacity == newCap && size == old(size) && tombstones == 0
      ensures Contents() == old(Contents())
    {
      var oldCtrl, oldSlots, oldCap := ctrl, slots, capacity;
      ghost var c0, s0, at0 := ctrl[..], slots[..], at;
      assert Indexed(c0, s0, oldCap, at0, hash) && size == |at0| && Contents() == ContentsOf(s0, at0);
      Reset(newCap);
      assert capacity == newCap && growAt == newCap * 7 / 8;
      MoveEnd(c0, s0, oldCap, at0, hash);
      hide *;
      MoveAll(oldCtrl, oldSlots, oldCap, c0, s0, at0);
    }

    /** Moves every live entry of the old arrays over. */
    method MoveAll(oldCtrl: array<int>, oldSlots: array<Slot<K, V>>, oldCap: nat,
                   ghost c0: seq<int>, ghost s0: seq<Slot<K, V>>, ghost at0: map<K, nat>)
      requires Core() && tombstones == 0 && size == 0 && at == map[] && Contents() == map[] && |at0| < capacity
      requires oldCtrl != ctrl && oldSlots != slots && oldCtrl[..] == c0 && oldSlots[..] == s0
      requires Indexed(c0, s0, oldCap, at0, hash)
      modifies this`size, this`tombstones, this`at, ctrl, slots
      ensures Core() && tombstones == 0 && Contents() == ContentsOf(s0, at0) && size == |Contents()|
    {
      MoveStart(c0, s0, oldCap, at0, hash);
      hide *;
      var i := 0;
      while i < oldCap
        invariant 0 <= i <= oldCap && unchanged(oldCtrl, oldSlots) && Core() && tombstones == 0
        invariant Contents() == MovedSoFar(s0, at0, i) && at.Keys == Contents().Keys && size == |Contents()|
      {
        MoveSlot(oldCtrl, oldSlots, oldCap, c0, s0, at0, i);
        i := i + 1;
      }
      MoveEnd(c0, s0, oldCap, at0, hash);
    }

    /** Moves the entry of old slot `i`, if it is live. */
    method MoveSlot(oldCtrl: array<int>, oldSlots: array<Slot<K, V>>, oldCap: nat,
                    ghost c0: seq<int>, ghost s0: seq<Slot<K, V>>, ghost at0: map<K, nat>, i: nat)
      requires Core() && tombstones == 0 && |at0| < capacity && i < oldCap
      requires Contents() == MovedSoFar(s0, at0, i) && at.Keys == Contents().Keys && size == |Contents()|
      requires oldCtrl != ctrl && oldSlots != slots && oldCtrl[..] == c0 && oldSlots[..] == s0
      requires Indexed(c0, s0, oldCap, at0, hash)
      modifies this`size, this`tombstones, this`at, ctrl, slots
      ensures Core() && tombstones == 0
      ensures Contents() == MovedSoFar(s0, at0, i + 1) && at.Keys == Contents().Keys && size == |Contents()|
    {
      MoveStep(c0, s0, oldCap, at0, hash, i);
      assert oldCap == oldSlots.Length <= oldCtrl.Length;
      hide *;
      assert oldSlots[i] == s0[i] && oldCtrl[i] == c0[i];
      if oldCtrl[i] >= 0 {
        InsertMoved(oldSlots[i].key, oldSlots[i].value);
      }
    }

    /** Fresh, empty arrays of the given capacity. */
    method Reset(newCap: nat)
      requires IsPow2(newCap) && newCap >= GROUP
      modifies this
      ensures Core() && fresh(ctrl) && fresh(slots) && capacity == newCap && tombstones == 0 && at == map[]
      ensures Contents() == map[] && size == 0
    {
      Pow2GroupMultiple(newCap);
      capacity, mask, growAt := newCap, newCap - 1, newCap * 7 / 8;
      ctrl := new int[newCap + GROUP](_ => EMPTY);
      var filler: Slot<K, V> := Slot(noKey, noValue);
      slots := new Slot<K, V>[newCap](_ => filler);
      size, tombstones, at := 0, 0, map[];
      EmptyLayout(ctrl[..], slots[..], capacity, hash);
    }

    /** One window of the insertion probe: its first free byte, and an empty byte if it has one. */
    method ExamineFree(pos: nat, ghost c: seq<int>) returns (free: Option<nat>, empty: Option<nat>)
      requires pos + GROUP <= ctrl.Length && c == ctrl[..]
      ensures free.Some? ==> pos <= free.value < pos + GROUP && c[free.value] < 0
      ensures empty.Some? ==> free.Some? && pos <= empty.value < pos + GROUP && c[empty.value] == EMPTY
      ensures empty.None? ==> forall p :: pos <= p < pos + GROUP ==> c[p] != EMPTY
    {
      empty := None;
      free := MatchEmptyOrDeleted(pos, c);
      if free.Some? {
        empty := MatchEmpty(pos, c);
      }
    }

    /** What an insertion probe knows when it starts. */
    lemma ProbeStarts(key: K, c: seq<int>, s: seq<Slot<K, V>>)
      requires Core() && size + tombstones < capacity && c == ctrl[..] && s == slots[..]
      ensures capacity > 0 && Home(hash(key), capacity) < capacity == |s| <= |c| && mask >= 0
      ensures Ctrl(c, capacity) && Indexed(c, s, capacity, at, hash) && AllReachable(c, capacity, at, hash)
      ensures |Used(c, capacity)| < capacity && mask == capacity - 1 && IsPow2(capacity)
      ensures ctrl.Length == capacity + GROUP
      ensures Probing(c, s, capacity, Home(hash(key), capacity), 0, And(hash(key) / 128, mask), key)
      ensures GROUP <= capacity && And(hash(key) / 128, mask) < capacity
      ensures (key in Contents() ==> key in at) && GROUP == 16
    {
      assert Passed(c, s, capacity, Home(hash(key), capacity), 0, key);
    }

    /** The insertion probe: the slot of `key` if it is present, or else the first free slot on the way. */
    method FindSlot(key: K) returns (present: bool, i: nat)
      requires Core() && size + tombstones < capacity
      ensures present ==> i < capacity && HasKey(ctrl[..], slots[..], i, key)
      ensures !present ==> key !in Contents() && key !in at && i < capacity && ctrl[i] < 0
      ensures !present ==> Reachable(ctrl[..], capacity, Home(hash(key), capacity), i)
    {
      hide *;
      ghost var c, s := ctrl[..], slots[..];
      var h := hash(key);
      ProbeStarts(key, c, s);
      var pos: nat := And(h / 128, mask);
      var needle, haveFree := h % 128, false;
      i := 0;
      ghost var home: nat, n: nat := Home(h, capacity), 0;
      while true
        invariant Probing(c, s, capacity, home, n, pos, key) && n + GROUP <= capacity && pos < capacity
        invariant ctrl[..] == c
        invariant haveFree ==> i < capacity && c[i] < 0 && Reachable(c, capacity, home, i)
        decreases capacity - n
      {
        var hit := FindInWindow(pos, needle, key);
        if hit.Some? {
          return true, hit.value;
        }
        var free, empty := ExamineFree(pos, c);
        if free.Some? && !haveFree {
          WindowReachable(c, s, capacity, home, n, pos, key, free.value);
          haveFree, i := true, And(free.value, mask);
        }
        if empty.Some? {
          ProbeFails(c, s, capacity, at, hash, home, n, pos, key, empty.value);
          assert ctrl[..] == c;
          assert c[i] == ctrl[i];
          return false, i;
        }
        NextWindow(c, s, capacity, home, n, pos, key);
        pos := And(pos + GROUP, mask);
        n := n + GROUP;
      }
    }

    /** The slot written, and whether the key was new. */
    method InsertOrAssign(key: K, value: V) returns (slot: nat, inserted: bool)
      requires Valid()
      modifies this, ctrl, slots
      ensures Valid() && (ctrl == old(ctrl) || fresh(ctrl)) && (slots == old(slots) || fresh(slots))
      ensures Contents() == old(Contents())[key := value] && inserted == (key !in old(Contents()))
      ensures slot < slots.Length && slots[slot] == Slot(key, value)
    {
      hide *;
      MakeRoom();
      var present, i := FindSlot(key);
      if present {
        Overwrite(i, key, value);
      } else {
        FillFree(i, key, value);
      }
      return i, !present;
    }

    /** Fills a free slot of a table that has room. */
    method FillFree(i: nat, key: K, value: V)
      requires Valid() && size + tombstones < growAt && i < capacity && ctrl[i] < 0 && key !in Contents()
      requires Reachable(ctrl[..], capacity, Home(hash(key), capacity), i)
      modifies this`size, this`tombstones, this`at, ctrl, slots
      ensures Valid() && Contents() == old(Contents())[key := value]
      ensures i < slots.Length && slots[i] == Slot(key, value)
    {
      AbsentMeans(ctrl[..], slots[..], capacity, at, hash, key);
      Fill(i, key, value);
    }

    /** Grows the table, or rebuilds it at the same size, so that one more slot may be used. */
    method MakeRoom()
      requires Valid()
      modifies this
      ensures Valid() && Core() && size + tombstones + 1 <= growAt < capacity
      ensures (ctrl == old(ctrl) || fresh(ctrl)) && (slots == old(slots) || fresh(slots))
      ensures Contents() == old(Contents())
    {
      if size + 1 > growAt {
        assert IsPow2(capacity * 2) by {
          assert capacity * 2 / 2 == capacity;
        }
        Rehash(capacity * 2);
      } else if size + tombstones + 1 > growAt {
        Rehash(capacity);
      }
    }

    method Overwrite(i: nat, key: K, value: V)
      requires Valid() && i < capacity && HasKey(ctrl[..], slots[..], i, key)
      modifies slots
      ensures Valid() && key in old(Contents()) && Contents() == old(Contents())[key := value]
      ensures i < slots.Length && slots[i] == Slot(key, value)
    {
      OverwriteSlot(ctrl[..], slots[..], capacity, at, hash, size, tombstones, i, value);
      OverwriteContents(ctrl[..], slots[..], capacity, at, hash, i, key, value);
      hide Layout, ContentsOf, IsPow2, SetCtrl, And, HasKey;
      slots[i] := Slot(key, value);
      assert slots[..] == old(slots[..])[i := Slot(key, value)];
    }

    /** Leaves a tombstone where `key` was. */
    method Erase(key: K) returns (erased: bool)
      requires Valid()
      modifies this`size, this`tombstones, this`at, ctrl, slots
      ensures Valid() && Contents() == old(Contents()) - {key} && erased == (key in old(Contents()))
    {
      var hit := Find(key);
      if hit.None? {
        assert Contents() - {key} == Contents();
        return false;
      }
      Bury(hit.value, key);
      return true;
    }

    method Bury(i: nat, key: K)
      requires Valid() && i < capacity && HasKey(ctrl[..], slots[..], i, key)
      modifies this`size, this`tombstones, this`at, ctrl, slots
      ensures Valid() && Contents() == old(Contents()) - {key}
      ensures size == old(size) - 1 && tombstones == old(tombstones) + 1
    {
      hide Ctrl, Indexed, AllReachable, Tombstones, Used, SetCtrl, IsPow2;
      var filler := Slot(noKey, noValue);
      BurySlot(ctrl[..], slots[..], capacity, at, hash, size, tombstones, i, filler);
      BuryContents(ctrl[..], slots[..], capacity, at, hash, i, key, filler);
      assert Contents() == ContentsOf(slots[..], at) && growAt == capacity * 7 / 8;
      Store(i, DELETED, filler, size - 1, tombstones + 1, at - {key});
    }

    /** Every live entry, in slot order. */
    method ForEach() returns (out: seq<Slot<K, V>>)
      requires Valid()
      ensures Enumerates(out, Contents()) && |out| == size
    {
      ghost var c, s := ctrl[..], slots[..];
      CoreLengths();
      EntriesEnumerate(c, s, capacity, at, hash, capacity);
      MoveEnd(c, s, capacity, at, hash);
      assert Enumerates(Entries(c, s, capacity), Contents()) && |Contents()| == size;
      hide *;
      out := [];
      var i := 0;
      NextEntry(c, s, 0);
      while i < capacity
        invariant 0 <= i <= capacity && out == Entries(c, s, i)
      {
        NextEntry(c, s, i + 1);
        if ctrl[i] >= 0 {
          out := out + [slots[i]];
        }
        i := i + 1;
      }
    }

    method Clear()
      requires Valid()
      modifies this`size, this`tombstones, this`at, ctrl, slots
      ensures Valid() && Contents() == map[] && size == 0 && capacity == old(capacity)
    {
      assert Ctrl(ctrl[..], capacity) && slots.Length == capacity && ctrl.Length == capacity + GROUP;
      forall i | 0 <= i < ctrl.Length {
        ctrl[i] := EMPTY;
      }
      var filler := Slot(noKey, noValue);
      forall i | 0 <= i < slots.Length {
        slots[i] := filler;
      }
      size, tombstones, at := 0, 0, map[];
      EmptyLayout(ctrl[..], slots[..], capacity, hash);
    }

    /** Grows the table so that `n` entries fit without another rehash. */
    method Reserve(n: nat)
      requires Valid()
      modifies this
      ensures Valid() && (ctrl == old(ctrl) || fresh(ctrl)) && (slots == old(slots) || fresh(slots))
      ensures Contents() == old(Contents()) && n <= growAt
    {
      var need := 8;
      assert IsPow2(1) && IsPow2(2) && IsPow2(4) && IsPow2(8);
      while need * 7 / 8 < n
        invariant need >= 8 && IsPow2(need)
        decreases 2 * n - need
      {
        assert need * 2 / 2 == need;
        need := need * 2;
      }
      if need > capacity {
        Rehash(need);
      }
    }
  }
}

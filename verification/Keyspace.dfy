/** A keyspace with deadlines: two tables with lazy and active expiry, against a timed map that never forgets by
    itself. */
module Keyspaces {
  import opened Options

  /** The two tables, and how many keys expiry has removed. */
  datatype Tables<V> = Tables(dict: map<string, V>, expires: map<string, nat>, expired: nat)

  /** Every key with a deadline has a value. */
  ghost predicate Consistent<V>(t: Tables<V>) {
    t.expires.Keys <= t.dict.Keys
  }

  // ---------------------------------------------------------------------------
  // The operations on the tables
  // ---------------------------------------------------------------------------

  function Dead<V>(t: Tables<V>, key: string, now: nat): bool {
    key in t.expires && t.expires[key] <= now
  }

  function Erased<V>(t: Tables<V>, key: string): Tables<V> {
    t.(dict := t.dict - {key}, expires := t.expires - {key})
  }

  /** Looking a key up removes it first when its deadline has passed. */
  function Touch<V>(t: Tables<V>, key: string, now: nat): Tables<V> {
    if key in t.dict && Dead(t, key, now) then Erased(t, key).(expired := t.expired + 1) else t
  }

  function Seen<V>(t: Tables<V>, key: string, now: nat): Option<V> {
    if key in t.dict && !Dead(t, key, now) then Some(t.dict[key]) else None
  }

  /** Remaining time: -2 for a missing key, -1 without a deadline. The clock is read again after the lookup. */
  function Ttl<V>(t: Tables<V>, key: string, now: nat, later: nat): int {
    if Seen(t, key, now) == None then -2
    else if key !in t.expires then -1
    else if t.expires[key] > later then t.expires[key] - later
    else 0
  }

  function Put<V>(t: Tables<V>, key: string, v: V): Tables<V> {
    t.(dict := t.dict[key := v], expires := t.expires - {key})
  }

  function Found<V>(t: Tables<V>, key: string, initial: V, now: nat): V {
    match Seen(t, key, now)
    case Some(v) => v
    case None => initial
  }

  /** The value at a key, created when there is none. */
  function Created<V>(t: Tables<V>, key: string, initial: V, now: nat): Tables<V> {
    var t' := Touch(t, key, now);
    if Seen(t, key, now) == None then t'.(dict := t'.dict[key := initial]) else t'
  }

  /** Changing the value of a live key in place, which keeps its deadline. */
  function Changed<V>(t: Tables<V>, key: string, v: V, now: nat): Tables<V> {
    var t' := Touch(t, key, now);
    if Seen(t, key, now) == None then t' else t'.(dict := t'.dict[key := v])
  }

  /** Giving a live key a deadline. */
  function Timed<V>(t: Tables<V>, key: string, deadline: nat, now: nat): Tables<V> {
    var t' := Touch(t, key, now);
    if Seen(t, key, now) == None then t' else t'.(expires := t'.expires[key := deadline])
  }

  /** Taking the deadline of a live key away. */
  function Persisted<V>(t: Tables<V>, key: string, now: nat): Tables<V> {
    var t' := Touch(t, key, now);
    if Seen(t, key, now) == None then t' else t'.(expires := t'.expires - {key})
  }

  /** Those of the first `budget` keys of a list whose deadline has passed. */
  function DeadAmong<V>(t: Tables<V>, order: seq<string>, budget: nat, now: nat): seq<string> {
    if order == [] then []
    else
      var last := |order| - 1;
      DeadAmong(t, order[..last], budget, now)
      + if last < budget && Dead(t, order[last], now) then [order[last]] else []
  }

  function EraseAll<V>(t: Tables<V>, keys: seq<string>): Tables<V> {
    if keys == [] then t
    else
      var before := EraseAll(t, keys[..|keys| - 1]);
      Erased(before, keys[|keys| - 1]).(expired := before.expired + 1)
  }

  lemma NoneDead<V>(t: Tables<V>, budget: nat, now: nat)
    ensures DeadAmong(t, [], budget, now) == [] && EraseAll(t, []) == t
  {
  }

  lemma OneMoreSeen<V>(t: Tables<V>, order: seq<string>, i: nat, budget: nat, now: nat)
    requires i < |order|
    ensures DeadAmong(t, order[..i + 1], budget, now) ==
      DeadAmong(t, order[..i], budget, now) + if i < budget && Dead(t, order[i], now) then [order[i]] else []
  {
    assert order[..i + 1][..i] == order[..i];
  }

  lemma OneMoreErased<V>(t: Tables<V>, keys: seq<string>, i: nat)
    requires i < |keys|
    ensures var before := EraseAll(t, keys[..i]);
      EraseAll(t, keys[..i + 1]) == Erased(before, keys[i]).(expired := before.expired + 1)
  {
    assert keys[..i + 1][..i] == keys[..i];
  }

  /** One expiry cycle, which sees the keys that have deadlines in the order of the table. */
  function Cycled<V>(t: Tables<V>, order: seq<string>, budget: nat, now: nat): Tables<V> {
    EraseAll(t, DeadAmong(t, order, budget, now))
  }

  /** A list that enumerates the keys with deadlines. */
  ghost predicate TableOrder<V>(t: Tables<V>, order: seq<string>) {
    Distinct(order) && forall k :: k in t.expires <==> k in order
  }

  // ---------------------------------------------------------------------------
  // The same operations, as methods
  // ---------------------------------------------------------------------------

  class Keyspace<V(==)> {
    var dict: map<string, V>
    var expires: map<string, nat>
    var statsExpired: nat

    ghost function State(): Tables<V>
      reads this
    {
      Tables(dict, expires, statsExpired)
    }

    constructor ()
      ensures State() == Tables(map[], map[], 0)
    {
      dict, expires, statsExpired := map[], map[], 0;
    }

    method Lookup(key: string, now: nat) returns (r: Option<V>)
      modifies this
      ensures State() == Touch(old(State()), key, now) && r == Seen(old(State()), key, now)
    {
      if key !in dict {
        return None;
      }
      if expires != map[] {
        if key in expires && expires[key] <= now {
          var _ := Erase(key);
          statsExpired := statsExpired + 1;
          return None;
        }
      }
      r := Some(dict[key]);
    }

    method Erase(key: string) returns (was: bool)
      modifies this
      ensures State() == Erased(old(State()), key) && was == (key in old(dict))
    {
      was := key in dict;
      expires := expires - {key};
      dict := dict - {key};
    }

    method Set(key: string, v: V)
      modifies this
      ensures State() == Put(old(State()), key, v)
    {
      expires := expires - {key};
      dict := dict[key := v];
    }

    method GetOrCreate(key: string, initial: V, now: nat) returns (v: V)
      modifies this
      ensures State() == Created(old(State()), key, initial, now) && v == Found(old(State()), key, initial, now)
    {
      var r := Lookup(key, now);
      if r.Some? {
        return r.value;
      }
      dict := dict[key := initial];
      v := initial;
    }

    method TtlMs(key: string, now: nat, later: nat) returns (ms: int)
      modifies this
      ensures State() == Touch(old(State()), key, now) && ms == Ttl(old(State()), key, now, later)
    {
      var r := Lookup(key, now);
      if r == None {
        return -2;
      }
      if key !in expires {
        return -1;
      }
      ms := if expires[key] > later then expires[key] - later else 0;
    }

    /** EXPIRE and its kin: only a live key gets a deadline. */
    method SetExpire(key: string, deadline: nat, now: nat) returns (done: bool)
      modifies this
      ensures State() == Timed(old(State()), key, deadline, now) && done == Seen(old(State()), key, now).Some?
    {
      var r := Lookup(key, now);
      if r == None {
        return false;
      }
      expires := expires[key := deadline];
      done := true;
    }

    /** PERSIST on a live key. */
    method PersistKey(key: string, now: nat) returns (done: bool)
      modifies this
      ensures State() == Persisted(old(State()), key, now)
      ensures done == (Seen(old(State()), key, now).Some? && key in old(expires))
    {
      var r := Lookup(key, now);
      if r == None {
        return false;
      }
      done := key in expires;
      expires := expires - {key};
    }

    method ActiveExpireCycle(order: seq<string>, budget: nat, now: nat) returns (removed: seq<string>)
      requires TableOrder(State(), order)
      modifies this
      ensures State() == Cycled(old(State()), order, budget, now)
      ensures removed == DeadAmong(old(State()), order, budget, now)
    {
      hide DeadAmong, EraseAll, TableOrder;
      NoneDead(State(), budget, now);
      var dead: seq<string> := [];
      var seen := 0;
      for i := 0 to |order|
        invariant State() == old(State()) && seen == (if i < budget then i else budget)
        invariant dead == DeadAmong(State(), order[..i], budget, now)
      {
        OneMoreSeen(State(), order, i, budget, now);
        if seen < budget {
          seen := seen + 1;
          if order[i] in expires && expires[order[i]] <= now {
            dead := dead + [order[i]];
          }
        }
      }
      assert order[..|order|] == order;
      for i := 0 to |dead|
        invariant State() == EraseAll(old(State()), dead[..i])
      {
        OneMoreErased(old(State()), dead, i);
        dict := dict - {dead[i]};
        expires := expires - {dead[i]};
        statsExpired := statsExpired + 1;
      }
      assert dead[..|dead|] == dead;
      removed := dead;
    }

    method Clear()
      modifies this
      ensures State() == Tables(map[], map[], old(statsExpired))
    {
      dict, expires := map[], map[];
    }
  }

  // ---------------------------------------------------------------------------
  // The timed map
  // ---------------------------------------------------------------------------

  datatype Entry<V> = Entry(value: V, deadline: Option<nat>)

  /** Whether an entry is visible at a time. */
  predicate Alive<V>(e: Entry<V>, now: nat) {
    e.deadline == None || e.deadline.value > now
  }

  /** What a client can see of a timed map at a time. */
  function Visible<V>(m: map<string, Entry<V>>, now: nat): map<string, Entry<V>> {
    map k | k in m && Alive(m[k], now) :: m[k]
  }

  datatype Op<V> =
    | Lookup(key: string)
    | TtlOf(key: string, later: nat)
    | SetTo(key: string, value: V)
    | Create(key: string, value: V)
    | Change(key: string, value: V)
    | Expire(key: string, deadline: nat)
    | Persist(key: string)
    | Delete(key: string)
    | Cycle(order: seq<string>, budget: nat)
    | ClearAll

  datatype Output<V> = Value(v: Option<V>) | Number(n: int) | Flag(b: bool) | Nothing

  /** An operation on the timed map: nothing is ever removed because of time. */
  function Spec<V>(m: map<string, Entry<V>>, op: Op<V>, now: nat): map<string, Entry<V>> {
    var seen := op.Create? || op.Change? || op.Expire? || op.Persist? ==> op.key in Visible(m, now);
    match op
    case Lookup(_) => m
    case TtlOf(_, _) => m
    case SetTo(key, v) => m[key := Entry(v, None)]
    case Create(key, v) => if seen then m else m[key := Entry(v, None)]
    case Change(key, v) => if seen then m[key := Entry(v, m[key].deadline)] else m
    case Expire(key, d) => if seen then m[key := Entry(m[key].value, Some(d))] else m
    case Persist(key) => if seen then m[key := Entry(m[key].value, None)] else m
    case Delete(key) => m - {key}
    case Cycle(_, _) => m
    case ClearAll => map[]
  }

  function SpecOutput<V>(m: map<string, Entry<V>>, op: Op<V>, now: nat): Output<V> {
    var s := Visible(m, now);
    match op
    case Lookup(key) => Value(if key in s then Some(s[key].value) else None)
    case TtlOf(key, later) =>
      Number(if key !in s then -2 else if s[key].deadline == None then -1
             else if s[key].deadline.value > later then s[key].deadline.value - later else 0)
    case Create(key, v) => Value(Some(if key in s then s[key].value else v))
    case Expire(key, _) => Flag(key in s)
    case Persist(key) => Flag(key in s && s[key].deadline.Some?)
    case _ => Nothing
  }

  function Impl<V>(t: Tables<V>, op: Op<V>, now: nat): Tables<V> {
    match op
    case Lookup(key) => Touch(t, key, now)
    case TtlOf(key, _) => Touch(t, key, now)
    case SetTo(key, v) => Put(t, key, v)
    case Create(key, v) => Created(t, key, v, now)
    case Change(key, v) => Changed(t, key, v, now)
    case Expire(key, d) => Timed(t, key, d, now)
    case Persist(key) => Persisted(t, key, now)
    case Delete(key) => Erased(t, key)
    case Cycle(order, budget) => Cycled(t, order, budget, now)
    case ClearAll => Tables(map[], map[], t.expired)
  }

  function ImplOutput<V>(t: Tables<V>, op: Op<V>, now: nat): Output<V> {
    match op
    case Lookup(key) => Value(Seen(t, key, now))
    case TtlOf(key, later) => Number(Ttl(t, key, now, later))
    case Create(key, v) => Value(Some(Found(t, key, v, now)))
    case Expire(key, _) => Flag(Seen(t, key, now).Some?)
    case Persist(key) => Flag(Seen(t, key, now).Some? && key in t.expires)
    case _ => Nothing
  }

  /** The tables, read as a timed map. */
  function Reading<V>(t: Tables<V>): map<string, Entry<V>> {
    map k | k in t.dict :: Entry(t.dict[k], if k in t.expires then Some(t.expires[k]) else None)
  }

  /** At time `now` and ever after, the tables and the timed map show the same. */
  ghost predicate Agree<V>(t: Tables<V>, m: map<string, Entry<V>>, now: nat) {
    Consistent(t) && Visible(Reading(t), now) == Visible(m, now)
  }

  /** Agreement at one key. */
  ghost predicate AgreeAt<V>(t: Tables<V>, m: map<string, Entry<V>>, now: nat, key: string) {
    && (Seen(t, key, now).Some? <==> key in m && Alive(m[key], now))
    && (Seen(t, key, now).Some? ==>
          && t.dict[key] == m[key].value
          && m[key].deadline == if key in t.expires then Some(t.expires[key]) else None)
  }

  lemma AgreeMeans<V>(t: Tables<V>, m: map<string, Entry<V>>, now: nat)
    requires Consistent(t)
    ensures Agree(t, m, now) <==> forall key :: AgreeAt(t, m, now, key)
  {
    var r := Reading(t);
    forall key
      ensures key in r && Alive(r[key], now) <==> Seen(t, key, now).Some?
      ensures key in r ==> r[key] == Entry(t.dict[key], if key in t.expires then Some(t.expires[key]) else None)
    {
    }
    if Agree(t, m, now) {
      forall key
        ensures AgreeAt(t, m, now, key)
      {
        assert key in Visible(r, now) <==> key in Visible(m, now);
        assert key in Visible(m, now) ==> Visible(r, now)[key] == Visible(m, now)[key];
      }
    }
    if forall key :: AgreeAt(t, m, now, key) {
      forall key
        ensures key in Visible(r, now) <==> key in Visible(m, now)
        ensures key in Visible(m, now) ==> Visible(r, now)[key] == Visible(m, now)[key]
      {
        assert AgreeAt(t, m, now, key);
      }
      assert Visible(r, now) == Visible(m, now);
    }
  }

  /** Agreement survives the passing of time. */
  lemma AgreeLater<V>(t: Tables<V>, m: map<string, Entry<V>>, now: nat, later: nat)
    requires Agree(t, m, now) && now <= later
    ensures Agree(t, m, later)
  {
    AgreeMeans(t, m, now);
    AgreeMeans(t, m, later);
    forall key
      ensures AgreeAt(t, m, later, key)
    {
      assert AgreeAt(t, m, now, key);
    }
  }

  lemma {:induction false} EraseAllIs<V>(t: Tables<V>, keys: seq<string>)
    ensures var r := EraseAll(t, keys);
      forall k :: (k in r.dict <==> k in t.dict && k !in keys) && (k in r.expires <==> k in t.expires && k !in keys)
    ensures var r := EraseAll(t, keys);
      && (forall k :: k in r.dict ==> r.dict[k] == t.dict[k])
      && (forall k :: k in r.expires ==> r.expires[k] == t.expires[k])
  {
    if keys != [] {
      var last := |keys| - 1;
      EraseAllIs(t, keys[..last]);
      assert keys == keys[..last] + [keys[last]];
    }
  }

  lemma {:induction false} DeadAreDead<V>(t: Tables<V>, order: seq<string>, budget: nat, now: nat)
    ensures forall k :: k in DeadAmong(t, order, budget, now) ==> Dead(t, k, now)
  {
    if order != [] {
      DeadAreDead(t, order[..|order| - 1], budget, now);
    }
  }

  /** Expiry, lazy or active, removes only keys whose deadline has passed. */
  lemma OnlyTheDead<V>(t: Tables<V>, op: Op<V>, now: nat, key: string)
    requires op.Lookup? || op.TtlOf? || op.Cycle?
    ensures key in t.dict && key !in Impl(t, op, now).dict ==> Dead(t, key, now)
    ensures key in Impl(t, op, now).dict ==> key in t.dict && Impl(t, op, now).dict[key] == t.dict[key]
  {
    if op.Cycle? {
      DeadAreDead(t, op.order, op.budget, now);
      EraseAllIs(t, DeadAmong(t, op.order, op.budget, now));
    }
  }

  /** A cycle removes exactly those of the first `budget` keys of the table whose deadline has passed, and counts each
      of them. */
  lemma CycleCounts<V>(t: Tables<V>, order: seq<string>, budget: nat, now: nat)
    requires Consistent(t) && TableOrder(t, order)
    ensures var r, dead := Cycled(t, order, budget, now), DeadAmong(t, order, budget, now);
      && (forall k :: k in r.dict <==> k in t.dict && !DueAt(t, order, budget, k, now))
      && (forall k :: k in dead <==> DueAt(t, order, budget, k, now))
      && |dead| == r.expired - t.expired == |t.dict| - |r.dict|
  {
    var dead := DeadAmong(t, order, budget, now);
    DeadListed(t, order, budget, now);
    assert forall k :: k in dead ==> k in t.dict;
    hide DeadAmong, EraseAll, DueAt;
    EraseAllIs(t, dead);
    ErasedCount(t, dead);
  }

  /** A lookup counts the key it removes. */
  lemma LookupCounts<V>(t: Tables<V>, key: string, now: nat)
    requires Consistent(t)
    ensures var r := Touch(t, key, now);
      && r.expired - t.expired == |t.dict| - |r.dict| == |t.expires| - |r.expires|
      && (key in r.dict <==> key in t.dict && !Dead(t, key, now))
  {
    if key in t.dict && Dead(t, key, now) {
      assert t.dict.Keys == Erased(t, key).dict.Keys + {key};
      assert t.expires.Keys == Erased(t, key).expires.Keys + {key};
    }
  }

  /** A key stands among the first `budget` of the table, and its deadline has passed. */
  ghost predicate DueAt<V>(t: Tables<V>, order: seq<string>, budget: nat, key: string, now: nat) {
    key in t.expires && t.expires[key] <= now && exists i :: 0 <= i < |order| && i < budget && order[i] == key
  }

  ghost predicate Distinct(s: seq<string>) {
    forall i, j :: 0 <= i < j < |s| ==> s[i] != s[j]
  }

  lemma OneMoreDistinct(s: seq<string>, x: string)
    requires Distinct(s) && x !in s
    ensures Distinct(s + [x])
  {
  }

  lemma {:induction false} DeadListed<V>(t: Tables<V>, order: seq<string>, budget: nat, now: nat)
    requires Distinct(order)
    ensures forall k :: k in DeadAmong(t, order, budget, now) <==> DueAt(t, order, budget, k, now)
    ensures Distinct(DeadAmong(t, order, budget, now))
  {
    if order != [] {
      var last := |order| - 1;
      DeadListed(t, order[..last], budget, now);
      var before, dead := DeadAmong(t, order[..last], budget, now), DeadAmong(t, order, budget, now);
      assert order[last] !in before by { assert !DueAt(t, order[..last], budget, order[last], now); }
      var due := last < budget && Dead(t, order[last], now);
      assert dead == if due then before + [order[last]] else before;
      if due {
        OneMoreDistinct(before, order[last]);
      }
      assert forall k :: DueAt(t, order, budget, k, now) <==>
        DueAt(t, order[..last], budget, k, now) || (k == order[last] && last < budget && Dead(t, k, now));
    }
  }

  lemma {:induction false} ErasedCount<V>(t: Tables<V>, keys: seq<string>)
    requires forall k :: k in keys ==> k in t.dict
    requires Distinct(keys)
    ensures var r := EraseAll(t, keys); r.expired == t.expired + |keys| && |r.dict| == |t.dict| - |keys|
  {
    if keys != [] {
      var last := |keys| - 1;
      ErasedCount(t, keys[..last]);
      EraseAllIs(t, keys[..last]);
      assert keys[last] in EraseAll(t, keys[..last]).dict;
      OneFewer(EraseAll(t, keys[..last]).dict, keys[last]);
    }
  }

  lemma OneFewer<V>(m: map<string, V>, key: string)
    requires key in m
    ensures |m - {key}| == |m| - 1
  {
    assert m.Keys == (m - {key}).Keys + {key};
  }

  lemma CycleAgrees<V>(t: Tables<V>, m: map<string, Entry<V>>, order: seq<string>, budget: nat, now: nat)
    requires Consistent(t) && forall key :: AgreeAt(t, m, now, key)
    ensures Consistent(Cycled(t, order, budget, now)) &&
      forall key :: AgreeAt(Cycled(t, order, budget, now), m, now, key)
  {
    DeadAreDead(t, order, budget, now);
    EraseAllIs(t, DeadAmong(t, order, budget, now));
    hide DeadAmong, EraseAll;
    var t' := Cycled(t, order, budget, now);
    assert forall k :: k in t'.expires ==> k in t.expires && k in t.dict && k in t'.dict;
    forall key
      ensures AgreeAt(Cycled(t, order, budget, now), m, now, key)
    {
      assert AgreeAt(t, m, now, key);
    }
  }

  lemma AgreeConsistent<V>(t: Tables<V>, m: map<string, Entry<V>>, now: nat)
    requires Agree(t, m, now)
    ensures Consistent(t)
  {
  }

  /** One operation: the same output, and agreement again. */
  lemma StepAgrees<V>(t: Tables<V>, m: map<string, Entry<V>>, op: Op<V>, now: nat)
    requires Agree(t, m, now)
    ensures ImplOutput(t, op, now) == SpecOutput(m, op, now)
    ensures Agree(Impl(t, op, now), Spec(m, op, now), now)
  {
    hide Cycled, Agree, Impl, Spec, ImplOutput, SpecOutput;
    AgreeConsistent(t, m, now);
    AgreeMeans(t, m, now);
    OutputAgrees(t, m, op, now);
    EveryKeyAgrees(t, m, op, now);
    AgreeMeans(Impl(t, op, now), Spec(m, op, now), now);
  }

  lemma OutputAgrees<V>(t: Tables<V>, m: map<string, Entry<V>>, op: Op<V>, now: nat)
    requires Consistent(t) && forall key :: AgreeAt(t, m, now, key)
    ensures ImplOutput(t, op, now) == SpecOutput(m, op, now)
  {
    hide Cycled;
    if op.Lookup? || op.TtlOf? || op.Create? || op.Expire? || op.Persist? {
      assert AgreeAt(t, m, now, op.key);
    }
  }

  lemma EveryKeyAgrees<V>(t: Tables<V>, m: map<string, Entry<V>>, op: Op<V>, now: nat)
    requires Consistent(t) && forall key :: AgreeAt(t, m, now, key)
    ensures Consistent(Impl(t, op, now)) && forall key :: AgreeAt(Impl(t, op, now), Spec(m, op, now), now, key)
  {
    hide Cycled, AgreeAt;
    if op.Cycle? {
      CycleAgrees(t, m, op.order, op.budget, now);
    } else {
      StaysConsistent(t, op, now);
      forall key
        ensures AgreeAt(Impl(t, op, now), Spec(m, op, now), now, key)
      {
        KeyAgrees(t, m, op, now, key);
      }
    }
  }

  lemma StaysConsistent<V>(t: Tables<V>, op: Op<V>, now: nat)
    requires Consistent(t) && !op.Cycle?
    ensures Consistent(Impl(t, op, now))
  {
  }

  lemma KeyAgrees<V>(t: Tables<V>, m: map<string, Entry<V>>, op: Op<V>, now: nat, key: string)
    requires !op.Cycle? && Consistent(t) && AgreeAt(t, m, now, key)
    ensures AgreeAt(Impl(t, op, now), Spec(m, op, now), now, key)
  {
  }

  // ---------------------------------------------------------------------------
  // Runs
  // ---------------------------------------------------------------------------

  datatype At<V> = At(op: Op<V>, now: nat)

  function ImplRun<V>(run: seq<At<V>>): Tables<V> {
    if run == [] then Tables(map[], map[], 0)
    else Impl(ImplRun(run[..|run| - 1]), run[|run| - 1].op, run[|run| - 1].now)
  }

  function SpecRun<V>(run: seq<At<V>>): map<string, Entry<V>> {
    if run == [] then map[]
    else Spec(SpecRun(run[..|run| - 1]), run[|run| - 1].op, run[|run| - 1].now)
  }

  /** The clock does not go back from the third operation on. */
  ghost predicate Settled(times: seq<nat>) {
    forall i, j :: 2 <= i < j < |times| ==> times[i] <= times[j]
  }

  function Times<V>(run: seq<At<V>>): (r: seq<nat>)
    ensures |r| == |run|
  {
    seq(|run|, i requires 0 <= i < |run| => run[i].now)
  }

  lemma SettledBefore<V>(run: seq<At<V>>, n: nat)
    requires n < |run| && Settled(Times(run))
    ensures Settled(Times(run[..n])) && (n > 2 ==> run[n - 1].now <= run[n].now)
  {
    assert Times(run[..n]) == Times(run)[..n];
    assert n > 2 ==> Times(run)[n - 1] <= Times(run)[n];
  }

  /** While there are no deadlines the clock plays no part. */
  lemma StepExact<V>(t: Tables<V>, op: Op<V>, now: nat)
    requires t.expires == map[]
    ensures Reading(Impl(t, op, now)) == Spec(Reading(t), op, now) && Consistent(Impl(t, op, now))
    ensures t.dict == map[] ==> Impl(t, op, now).expires == map[]
  {
    if op.Cycle? {
      NoDeadlines(t, op.order, op.budget, now);
    }
  }

  lemma {:induction false} NoDeadlines<V>(t: Tables<V>, order: seq<string>, budget: nat, now: nat)
    requires t.expires == map[]
    ensures DeadAmong(t, order, budget, now) == []
  {
    if order != [] {
      NoDeadlines(t, order[..|order| - 1], budget, now);
    }
  }

  lemma EarlyExact<V>(run: seq<At<V>>)
    requires |run| <= 2
    ensures Reading(ImplRun(run)) == SpecRun(run) && Consistent(ImplRun(run))
  {
    NoSteps<V>();
    if run != [] {
      assert run[..1][..0] == [];
      hide Impl, Spec, Reading;
      EmptyReading<V>();
      StepExact(Tables(map[], map[], 0), run[0].op, run[0].now);
      assert ImplRun(run[..1]) == Impl(Tables(map[], map[], 0), run[0].op, run[0].now);
      if |run| == 2 {
        StepExact(ImplRun(run[..1]), run[1].op, run[1].now);
      } else {
        assert run[..1] == run;
      }
    }
  }

  lemma EmptyReading<V>()
    ensures Reading<V>(Tables(map[], map[], 0)) == map[]
  {
  }

  lemma {:induction false} RunAgrees<V>(run: seq<At<V>>, now: nat)
    requires Settled(Times(run)) && (|run| > 2 ==> run[|run| - 1].now <= now)
    ensures Agree(ImplRun(run), SpecRun(run), now)
  {
    if |run| <= 2 {
      EarlyExact(run);
    } else {
      var last := |run| - 1;
      var at := run[last];
      SettledBefore(run, last);
      hide Settled, Agree, Impl, Spec, Consistent, Times;
      RunAgrees(run[..last], at.now);
      StepAgrees(ImplRun(run[..last]), SpecRun(run[..last]), at.op, at.now);
      AgreeLater(ImplRun(run), SpecRun(run), at.now, now);
    }
  }

  /** The `i`th operation answers as it does on the timed map. */
  ghost predicate SameAnswer<V>(run: seq<At<V>>, i: nat)
    requires i < |run|
  {
    ImplOutput(ImplRun(run[..i]), run[i].op, run[i].now) == SpecOutput(SpecRun(run[..i]), run[i].op, run[i].now)
  }

  /** With a clock that never goes back, no client can tell the tables, whatever they collect and when, from the
      timed map. */
  lemma Indistinguishable<V>(run: seq<At<V>>, i: nat)
    requires Settled(Times(run)) && i < |run|
    ensures SameAnswer(run, i) && Consistent(ImplRun(run[..i]))
  {
    SettledBefore(run, i);
    RunAgrees(run[..i], run[i].now);
    StepAgrees(ImplRun(run[..i]), SpecRun(run[..i]), run[i].op, run[i].now);
  }

  /** A value with a deadline, looked up when it is dead and once more at an earlier time; nothing happens otherwise. */
  function LookTwice<V>(times: seq<nat>, i: nat, j: nat, key: string, v: V): (run: seq<At<V>>)
    requires 2 <= i < j < |times|
    ensures |run| == |times|
  {
    seq(|times|, k requires 0 <= k < |times| =>
      At(if k == 0 then SetTo(key, v)
         else if k == 1 then Expire(key, times[i])
         else if k == i || k == j then Lookup(key)
         else Cycle([], 0), times[k]))
  }

  lemma {:induction false} LookTwiceStates<V>(times: seq<nat>, i: nat, j: nat, key: string, v: V, k: nat)
    requires 2 <= i < j < |times| && 2 <= k <= j && 0 < times[i]
    ensures var run := LookTwice(times, i, j, key, v);
      && ImplRun(run[..k]) == (if k <= i then Tables(map[key := v], map[key := times[i]], 0)
        else Tables(map[], map[], 1))
      && SpecRun(run[..k]) == map[key := Entry(v, Some(times[i]))]
    decreases k
  {
    var run := LookTwice(times, i, j, key, v);
    if k == 2 {
      FirstTwo(run, key, v, times[i]);
    } else {
      LookTwiceStates(times, i, j, key, v, k - 1);
      LastStep(run, k - 1);
      hide ImplRun, SpecRun, LookTwice;
      LookTwiceAt(times, i, j, key, v, k - 1);
      NoneDead(ImplRun(run[..k - 1]), 0, times[k - 1]);
    }
  }

  lemma LookTwiceAt<V>(times: seq<nat>, i: nat, j: nat, key: string, v: V, k: nat)
    requires 2 <= i < j < |times| && 2 <= k < |times|
    ensures LookTwice(times, i, j, key, v)[k] == At(if k == i || k == j then Lookup(key) else Cycle([], 0), times[k])
  {
  }

  lemma FirstTwo<V>(run: seq<At<V>>, key: string, v: V, d: nat)
    requires |run| >= 2 && run[0].op == SetTo(key, v) && run[1].op == Expire(key, d)
    ensures ImplRun(run[..2]) == Tables(map[key := v], map[key := d], 0)
    ensures SpecRun(run[..2]) == map[key := Entry(v, Some(d))]
  {
    assert run[..0] == [];
    LastStep(run, 0);
    LastStep(run, 1);
    NoSteps<V>();
    hide ImplRun, SpecRun;
    var none: map<string, nat> := map[];
    assert none - {key} == none;
    assert ImplRun(run[..1]) == Tables(map[key := v], map[], 0);
    assert SpecRun(run[..1]) == map[key := Entry(v, None)];
    assert key in Visible(SpecRun(run[..1]), run[1].now);
  }

  /** Were the clock to go back, a client could tell: a key looked up when dead is missing at an earlier time. */
  lemma ClockMatters<V>(times: seq<nat>, i: nat, j: nat, key: string, v: V)
    requires 2 <= i < j < |times| && times[j] < times[i]
    ensures var run := LookTwice(times, i, j, key, v);
      Times(run) == times && !SameAnswer(run, j)
  {
    var run := LookTwice(times, i, j, key, v);
    LookTwiceStates(times, i, j, key, v, j);
    LookTwiceAt(times, i, j, key, v, j);
    assert Times(run) == times;
    hide ImplRun, SpecRun, LookTwice;
    assert key in Visible(SpecRun(run[..j]), times[j]);
  }

  /** No run at these times can be told from the timed map exactly when they do not decrease from the third on. */
  lemma ClockExactly<V(!new)>(times: seq<nat>, key: string, v: V)
    ensures (forall run: seq<At<V>>, i :: Times(run) == times && 0 <= i < |run| ==> SameAnswer(run, i)) <==>
      Settled(times)
  {
    hide SameAnswer, Times, LookTwice;
    if Settled(times) {
      forall run: seq<At<V>>, i | Times(run) == times && 0 <= i < |run|
        ensures SameAnswer(run, i)
      {
        Indistinguishable(run, i);
      }
    } else {
      var i, j :| 2 <= i < j < |times| && times[i] > times[j];
      ClockMatters(times, i, j, key, v);
      var run := LookTwice(times, i, j, key, v);
      assert Times(run) == times && !SameAnswer(run, j);
    }
  }

  lemma NoSteps<V>()
    ensures ImplRun<V>([]) == Tables(map[], map[], 0) && SpecRun<V>([]) == map[]
  {
  }

  lemma LastStep<V>(run: seq<At<V>>, i: nat)
    requires i < |run|
    ensures ImplRun(run[..i + 1]) == Impl(ImplRun(run[..i]), run[i].op, run[i].now)
    ensures SpecRun(run[..i + 1]) == Spec(SpecRun(run[..i]), run[i].op, run[i].now)
  {
    assert run[..i + 1][..i] == run[..i];
  }
}

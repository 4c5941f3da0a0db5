/** A command split over the shards of its keys, compared with the same command on one keyspace. */
module Splits {
  import opened Options
  import opened Resp
  import opened Pipelines
  import opened Routing
  import opened Handlers
  import opened ReplyOrder

  // ---------------------------------------------------------------------------
  // One keyspace spread over shards
  // ---------------------------------------------------------------------------

  function At(db: Db, key: string): Option<Obj> {
    if key in db then Some(db[key]) else None
  }

  ghost predicate AtHomes<V>(cfg: Config<V>, dbs: seq<Db>) {
    forall s, key :: 0 <= s < |dbs| && key in dbs[s] ==> Owner(cfg, key) == s
  }

  /** The shards' keyspaces, each holding only its own keys, together make `whole`. */
  ghost predicate Spread<V>(cfg: Config<V>, dbs: seq<Db>, whole: Db) {
    && |dbs| == cfg.shards
    && AtHomes(cfg, dbs)
    && forall key :: At(whole, key) == At(dbs[Owner(cfg, key)], key)
  }

  /** All the keyspaces as one. */
  function Whole(dbs: seq<Db>): Db {
    if dbs == [] then map[] else Whole(dbs[..|dbs| - 1]) + dbs[|dbs| - 1]
  }

  lemma {:induction false} WholeHas<V>(cfg: Config<V>, dbs: seq<Db>, n: nat, key: string)
    requires AtHomes(cfg, dbs) && n <= |dbs|
    ensures At(Whole(dbs[..n]), key) == if Owner(cfg, key) < n then At(dbs[Owner(cfg, key)], key) else None
  {
    if n > 0 {
      assert dbs[..n][..n - 1] == dbs[..n - 1];
      WholeHas(cfg, dbs, n - 1, key);
    }
  }

  /** Keyspaces that hold only their own keys are always spread from some whole. */
  lemma WholeIsSpread<V>(cfg: Config<V>, dbs: seq<Db>)
    requires |dbs| == cfg.shards && AtHomes(cfg, dbs)
    ensures Spread(cfg, dbs, Whole(dbs))
  {
    hide At;
    assert dbs[..|dbs|] == dbs;
    forall key
      ensures At(Whole(dbs), key) == At(dbs[Owner(cfg, key)], key)
    {
      WholeHas(cfg, dbs, |dbs|, key);
    }
  }

  /** What a shard runs for one part of a split command. */
  function SubExec(db: Db, args: Argv): Effect {
    if |args| == 2 && args[0] == "GET" then Get(db, args[1])
    else if |args| == 3 && args[0] == "SET" then SetString(db, args)
    else if |args| == 2 && args[0] == "EXISTS" then Exists(db, args)
    else if |args| == 2 && args[0] == "DEL" then Del(db, args)
    else Undefined
  }

  /** A split command: its kind, its arguments and its keys. */
  datatype Job = Job(kind: Kind, argv: Argv, keys: seq<string>)

  ghost predicate JobOk(j: Job) {
    && !j.kind.Single? && j.keys != []
    && (if j.kind.MSet? then |j.argv| == 2 * |j.keys| + 1 else |j.argv| == |j.keys| + 1)
    && forall i :: 0 <= i < |j.keys| ==> j.keys[i] == if j.kind.MSet? then j.argv[2 * i + 1] else j.argv[i + 1]
  }

  // ---------------------------------------------------------------------------
  // What one part does to its key
  // ---------------------------------------------------------------------------

  function PointReply(j: Job, i: nat, v: Option<Obj>): string
    requires JobOk(j) && i < |j.keys|
  {
    match j.kind
    case MGet => if v == None then NULL_BULK else if v.value.Str? then BulkReply(v.value.s) else WRONG_TYPE
    case MSet => OK
    case _ => IntReply(if v == None then 0 else 1)
  }

  function PointAfter(j: Job, i: nat, v: Option<Obj>): Option<Obj>
    requires JobOk(j) && i < |j.keys|
  {
    match j.kind
    case MSet => Some(Str(j.argv[2 * i + 2]))
    case DelCount => None
    case _ => v
  }

  lemma OneArg(args: Argv)
    requires |args| == 2
    ensures ArgSet(args, 1) == {args[1]}
  {
    NextArg(args, 1, 1);
    assert ArgRange(args, 1, 1) == {};
  }

  lemma CountOne(db: Db, key: string)
    ensures CountIn(db, [key]) == if key in db then 1 else 0
  {
    assert [key][..|[key]| - 1] == [];
    assert CountIn(db, []) == 0;
  }

  /** Running a part changes and reads its own key only. */
  lemma PartIsPoint(j: Job, i: nat, db: Db)
    requires JobOk(j) && i < |j.keys|
    ensures var e, key := SubExec(db, SubArgs(j.kind, j.argv, j.keys[i], i)), j.keys[i];
      && e.Effect? && e.reply == PointReply(j, i, At(db, key))
      && At(e.db, key) == PointAfter(j, i, At(db, key))
      && forall k :: k != key ==> At(e.db, k) == At(db, k)
  {
    var key := j.keys[i];
    var args := SubArgs(j.kind, j.argv, key, i);
    match j.kind {
      case DelCount =>
        OneArg(args);
        assert db.Keys * {key} == if key in db then {key} else {};
      case ExistsCount =>
        CountOne(db, key);
        assert args == ["EXISTS", key];
        assert args[1..] == [key];
      case _ =>
    }
  }

  // ---------------------------------------------------------------------------
  // Running the parts in any order the mailboxes allow
  // ---------------------------------------------------------------------------

  datatype Progress = Progress(dbs: seq<Db>, replies: map<nat, string>)

  ghost function RunParts<V>(cfg: Config<V>, j: Job, dbs: seq<Db>, order: seq<nat>): (r: Progress)
    requires JobOk(j) && |dbs| == cfg.shards && forall p :: 0 <= p < |order| ==> order[p] < |j.keys|
    ensures |r.dbs| == cfg.shards
  {
    if order == [] then Progress(dbs, map[])
    else
      var before, i := RunParts(cfg, j, dbs, order[..|order| - 1]), order[|order| - 1];
      var s := Owner(cfg, j.keys[i]);
      PartIsPoint(j, i, before.dbs[s]);
      var e := SubExec(before.dbs[s], SubArgs(j.kind, j.argv, j.keys[i], i));
      Progress(before.dbs[s := e.db], before.replies[i := e.reply])
  }

  /** Every part once, and parts for one shard in the order they were posted. */
  ghost predicate Schedule<V>(cfg: Config<V>, j: Job, order: seq<nat>) {
    && (forall p :: 0 <= p < |order| ==> order[p] < |j.keys|)
    && (forall i :: 0 <= i < |j.keys| ==> i in order)
    && forall p, q :: 0 <= p < q < |order| ==>
      order[p] != order[q] && (Owner(cfg, j.keys[order[p]]) == Owner(cfg, j.keys[order[q]]) ==> order[p] < order[q])
  }

  /** The value at `key` after those of the first `m` parts that are in `ran`. */
  function KeyAfter(j: Job, v: Option<Obj>, key: string, ran: set<nat>, m: nat): Option<Obj>
    requires JobOk(j) && m <= |j.keys|
  {
    if m == 0 then v
    else
      var before := KeyAfter(j, v, key, ran, m - 1);
      if m - 1 in ran && j.keys[m - 1] == key then PointAfter(j, m - 1, before) else before
  }

  function Ran(order: seq<nat>): set<nat> {
    if order == [] then {} else Ran(order[..|order| - 1]) + {order[|order| - 1]}
  }

  lemma {:induction false} RanHas(order: seq<nat>)
    ensures forall k :: k in Ran(order) <==> k in order
  {
    if order != [] {
      var last := |order| - 1;
      RanHas(order[..last]);
      assert order == order[..last] + [order[last]];
    }
  }

  /** The value at `key` after the first `m` parts, run one after the other. */
  function KeyInTurn(j: Job, v: Option<Obj>, key: string, m: nat): Option<Obj>
    requires JobOk(j) && m <= |j.keys|
  {
    if m == 0 then v
    else
      var before := KeyInTurn(j, v, key, m - 1);
      if j.keys[m - 1] == key then PointAfter(j, m - 1, before) else before
  }

  lemma {:induction false} AllRan(j: Job, v: Option<Obj>, key: string, ran: set<nat>, m: nat)
    requires JobOk(j) && m <= |j.keys| && forall i :: 0 <= i < m && j.keys[i] == key ==> i in ran
    ensures KeyAfter(j, v, key, ran, m) == KeyInTurn(j, v, key, m)
  {
    if m > 0 {
      AllRan(j, v, key, ran, m - 1);
    }
  }

  lemma {:induction false} SameRan(j: Job, v: Option<Obj>, key: string, a: set<nat>, b: set<nat>, m: nat)
    requires JobOk(j) && m <= |j.keys|
    requires forall i :: 0 <= i < m && j.keys[i] == key ==> (i in a <==> i in b)
    ensures KeyAfter(j, v, key, a, m) == KeyAfter(j, v, key, b, m)
  {
    if m > 0 {
      SameRan(j, v, key, a, b, m - 1);
    }
  }

  lemma {:induction false} NoneLater(j: Job, v: Option<Obj>, key: string, ran: set<nat>, i: nat, m: nat)
    requires JobOk(j) && i <= m <= |j.keys|
    requires forall k :: i <= k < m && j.keys[k] == key ==> k !in ran
    ensures KeyAfter(j, v, key, ran, m) == KeyAfter(j, v, key, ran, i)
    decreases m
  {
    if i < m {
      NoneLater(j, v, key, ran, i, m - 1);
    }
  }

  /** What running the parts in `ran` has done so far: key by key, and reply by reply. */
  ghost predicate KeysReached<V>(cfg: Config<V>, j: Job, whole: Db, ran: set<nat>, dbs: seq<Db>)
    requires JobOk(j) && |dbs| == cfg.shards
  {
    AtHomes(cfg, dbs) && forall key :: At(dbs[Owner(cfg, key)], key) == KeyAfter(j, At(whole, key), key, ran, |j.keys|)
  }

  ghost predicate RepliesReached(j: Job, whole: Db, ran: set<nat>, replies: map<nat, string>)
    requires JobOk(j)
  {
    && (forall i :: i in replies <==> i in ran)
    && forall i :: i in ran && i < |j.keys| ==>
      replies[i] == PointReply(j, i, KeyInTurn(j, At(whole, j.keys[i]), j.keys[i], i))
  }

  ghost predicate Reached<V>(cfg: Config<V>, j: Job, whole: Db, ran: set<nat>, r: Progress)
    requires JobOk(j)
  {
    |r.dbs| == cfg.shards && KeysReached(cfg, j, whole, ran, r.dbs) && RepliesReached(j, whole, ran, r.replies)
  }

  lemma OnePart<V>(cfg: Config<V>, j: Job, whole: Db, ran: set<nat>, r: Progress, i: nat)
    requires JobOk(j) && i < |j.keys| && i !in ran && Reached(cfg, j, whole, ran, r)
    requires forall k :: 0 <= k < |j.keys| && Owner(cfg, j.keys[k]) == Owner(cfg, j.keys[i]) ==> (k in ran <==> k < i)
    ensures var s := Owner(cfg, j.keys[i]);
      var e := SubExec(r.dbs[s], SubArgs(j.kind, j.argv, j.keys[i], i));
      e.Effect? && Reached(cfg, j, whole, ran + {i}, Progress(r.dbs[s := e.db], r.replies[i := e.reply]))
  {
    hide SubExec, PointReply, PointAfter, KeyAfter, KeyInTurn, AtHomes;
    var s, key := Owner(cfg, j.keys[i]), j.keys[i];
    PartIsPoint(j, i, r.dbs[s]);
    var e := SubExec(r.dbs[s], SubArgs(j.kind, j.argv, key, i));
    hide JobOk;
    OneKey(j, At(whole, key), key, ran, i);
    OnePartKeys(cfg, j, whole, ran, r.dbs, i, e.db);
    hide KeysReached;
  }

  lemma OnePartKeys<V>(cfg: Config<V>, j: Job, whole: Db, ran: set<nat>, dbs: seq<Db>, i: nat, db: Db)
    requires JobOk(j) && i < |j.keys| && i !in ran && |dbs| == cfg.shards && KeysReached(cfg, j, whole, ran, dbs)
    requires var key := j.keys[i];
      && At(db, key) == KeyAfter(j, At(whole, key), key, ran + {i}, |j.keys|)
      && forall k :: k != key ==> At(db, k) == At(dbs[Owner(cfg, key)], k)
    ensures KeysReached(cfg, j, whole, ran + {i}, dbs[Owner(cfg, j.keys[i]) := db])
  {
    hide PointAfter, JobOk, AtHomes;
    var key := j.keys[i];
    forall k | k != key
      ensures KeyAfter(j, At(whole, k), k, ran + {i}, |j.keys|) == KeyAfter(j, At(whole, k), k, ran, |j.keys|)
    {
      SameRan(j, At(whole, k), k, ran, ran + {i}, |j.keys|);
    }
    hide KeyAfter;
    HomesKept(cfg, dbs, Owner(cfg, key), db, key);
  }

  lemma HomesKept<V>(cfg: Config<V>, dbs: seq<Db>, s: nat, db: Db, key: string)
    requires AtHomes(cfg, dbs) && s < |dbs| && Owner(cfg, key) == s
    requires forall k :: k != key ==> At(db, k) == At(dbs[s], k)
    ensures AtHomes(cfg, dbs[s := db])
  {
    forall k | k in db
      ensures Owner(cfg, k) == s
    {
      assert At(db, k) != None;
      assert k != key ==> At(dbs[s], k) != None;
    }
  }

  /** The key of the part that runs: before it, the earlier parts have run on the key; after it, the part itself too. */
  lemma OneKey(j: Job, v: Option<Obj>, key: string, ran: set<nat>, i: nat)
    requires JobOk(j) && i < |j.keys| && j.keys[i] == key
    requires forall k :: 0 <= k < |j.keys| && j.keys[k] == key ==> (k in ran <==> k < i)
    ensures KeyAfter(j, v, key, ran, |j.keys|) == KeyInTurn(j, v, key, i)
    ensures KeyAfter(j, v, key, ran + {i}, |j.keys|) == PointAfter(j, i, KeyInTurn(j, v, key, i))
  {
    hide PointAfter, JobOk;
    var n := |j.keys|;
    NoneLater(j, v, key, ran, i, n);
    AllRan(j, v, key, ran, i);
    NoneLater(j, v, key, ran + {i}, i + 1, n);
    SameRan(j, v, key, ran, ran + {i}, i);
  }

  lemma {:induction false} PartsReach<V>(cfg: Config<V>, j: Job, dbs: seq<Db>, whole: Db, order: seq<nat>, p: nat)
    requires JobOk(j) && Spread(cfg, dbs, whole) && Schedule(cfg, j, order) && p <= |order|
    ensures Reached(cfg, j, whole, Ran(order[..p]), RunParts(cfg, j, dbs, order[..p]))
  {
    hide *;
    OrderInRange(cfg, j, dbs, whole, order);
    if p == 0 {
      NothingRan(cfg, j, dbs, whole);
      RunNone(cfg, j, dbs, order);
    } else {
      PartsReach(cfg, j, dbs, whole, order, p - 1);
      InTurn(cfg, j, order, p - 1);
      RanHas(order[..p - 1]);
      OnePart(cfg, j, whole, Ran(order[..p - 1]), RunParts(cfg, j, dbs, order[..p - 1]), order[p - 1]);
      RunStep(cfg, j, dbs, order, p);
    }
  }

  lemma OrderInRange<V>(cfg: Config<V>, j: Job, dbs: seq<Db>, whole: Db, order: seq<nat>)
    requires Spread(cfg, dbs, whole) && Schedule(cfg, j, order)
    ensures |dbs| == cfg.shards && forall q :: 0 <= q < |order| ==> order[q] < |j.keys|
  {
  }

  lemma RunNone<V>(cfg: Config<V>, j: Job, dbs: seq<Db>, order: seq<nat>)
    requires JobOk(j) && |dbs| == cfg.shards
    ensures Ran(order[..0]) == {} && RunParts(cfg, j, dbs, order[..0]) == Progress(dbs, map[])
  {
  }

  lemma RunStep<V>(cfg: Config<V>, j: Job, dbs: seq<Db>, order: seq<nat>, p: nat)
    requires JobOk(j) && |dbs| == cfg.shards && 0 < p <= |order| && forall q :: 0 <= q < |order| ==> order[q] < |j.keys|
    ensures Ran(order[..p]) == Ran(order[..p - 1]) + {order[p - 1]}
    ensures var before, i := RunParts(cfg, j, dbs, order[..p - 1]), order[p - 1];
      var s := Owner(cfg, j.keys[i]);
      var e := SubExec(before.dbs[s], SubArgs(j.kind, j.argv, j.keys[i], i));
      e.Effect? && RunParts(cfg, j, dbs, order[..p]) == Progress(before.dbs[s := e.db], before.replies[i := e.reply])
  {
    assert order[..p][..p - 1] == order[..p - 1] && order[..p][p - 1] == order[p - 1];
    var before, i := RunParts(cfg, j, dbs, order[..p - 1]), order[p - 1];
    PartIsPoint(j, i, before.dbs[Owner(cfg, j.keys[i])]);
    hide SubExec, JobOk;
  }

  lemma NothingRan<V>(cfg: Config<V>, j: Job, dbs: seq<Db>, whole: Db)
    requires JobOk(j) && Spread(cfg, dbs, whole)
    ensures Reached(cfg, j, whole, {}, Progress(dbs, map[]))
  {
    hide PointReply, PointAfter, JobOk;
    forall key
      ensures KeyAfter(j, At(whole, key), key, {}, |j.keys|) == At(whole, key)
    {
      NoneLater(j, At(whole, key), key, {}, 0, |j.keys|);
    }
  }

  /** When a part runs, exactly the earlier parts of its shard have run. */
  lemma InTurn<V>(cfg: Config<V>, j: Job, order: seq<nat>, p: nat)
    requires Schedule(cfg, j, order) && p < |order|
    ensures order[p] !in order[..p]
    ensures forall k :: 0 <= k < |j.keys| && Owner(cfg, j.keys[k]) == Owner(cfg, j.keys[order[p]]) ==>
      (k in order[..p] <==> k < order[p])
  {
    forall k | 0 <= k < |j.keys| && Owner(cfg, j.keys[k]) == Owner(cfg, j.keys[order[p]])
      ensures k in order[..p] <==> k < order[p]
    {
      assert k in order;
      var q :| 0 <= q < |order| && order[q] == k;
      assert q < p ==> order[..p][q] == k;
    }
  }

  /** In whatever order the parts run, each key and each reply is what running them in turn on the whole keyspace
      gives. */
  lemma OrderIrrelevant<V>(cfg: Config<V>, j: Job, dbs: seq<Db>, whole: Db, order: seq<nat>)
    requires JobOk(j) && Spread(cfg, dbs, whole) && Schedule(cfg, j, order)
    ensures var r, n := RunParts(cfg, j, dbs, order), |j.keys|;
      && AtHomes(cfg, r.dbs)
      && (forall key :: At(r.dbs[Owner(cfg, key)], key) == KeyInTurn(j, At(whole, key), key, n))
      && forall i :: 0 <= i < n ==>
        i in r.replies && r.replies[i] == PointReply(j, i, KeyInTurn(j, At(whole, j.keys[i]), j.keys[i], i))
  {
    hide SubExec, PointReply, PointAfter, JobOk, RunParts, KeyAfter;
    PartsReach(cfg, j, dbs, whole, order, |order|);
    assert order[..|order|] == order;
    RanHas(order);
    forall key
      ensures KeyAfter(j, At(whole, key), key, Ran(order), |j.keys|) == KeyInTurn(j, At(whole, key), key, |j.keys|)
    {
      AllRan(j, At(whole, key), key, Ran(order), |j.keys|);
    }
  }

  // ---------------------------------------------------------------------------
  // The same command on the whole keyspace
  // ---------------------------------------------------------------------------

  /** What the unsplit handler does. TOUCH shares the handler of EXISTS. */
  function Local(j: Job, whole: Db): Effect
    requires JobOk(j)
  {
    match j.kind
    case MGet => MGetMany(whole, j.argv)
    case MSet => MSetMany(whole, j.argv)
    case ExistsCount => Exists(whole, j.argv)
    case DelCount => Del(whole, j.argv)
    case Single => Undefined
  }

  /** The replies of the parts, in the order of the keys. */
  function Gathered(j: Job, whole: Db): (r: seq<string>)
    requires JobOk(j)
    ensures |r| == |j.keys|
  {
    seq(|j.keys|, i requires 0 <= i < |j.keys| => PointReply(j, i, KeyInTurn(j, At(whole, j.keys[i]), j.keys[i], i)))
  }

  lemma {:induction false} UntouchedInTurn(j: Job, v: Option<Obj>, key: string, m: nat)
    requires JobOk(j) && m <= |j.keys| && (j.kind.MGet? || j.kind.ExistsCount? || key !in j.keys[..m])
    ensures KeyInTurn(j, v, key, m) == v
  {
    if m > 0 {
      assert j.keys[..m] == j.keys[..m - 1] + [j.keys[m - 1]];
      UntouchedInTurn(j, v, key, m - 1);
    }
  }

  lemma {:induction false} DeletedInTurn(j: Job, v: Option<Obj>, key: string, m: nat)
    requires JobOk(j) && m <= |j.keys| && j.kind.DelCount? && key in j.keys[..m]
    ensures KeyInTurn(j, v, key, m) == None
  {
    assert j.keys[..m] == j.keys[..m - 1] + [j.keys[m - 1]];
    if j.keys[m - 1] != key {
      DeletedInTurn(j, v, key, m - 1);
    }
  }

  /** The first `m` keys are the first `m` arguments after the name. */
  lemma KeysAreArgs(j: Job, m: nat)
    requires JobOk(j) && !j.kind.MSet? && m <= |j.keys|
    ensures j.keys[..m] == j.argv[1..m + 1] && forall k :: k in ArgRange(j.argv, 1, m + 1) <==> k in j.keys[..m]
  {
    forall k
      ensures k in ArgRange(j.argv, 1, m + 1) <==> k in j.keys[..m]
    {
      if k in ArgRange(j.argv, 1, m + 1) {
        var i :| 1 <= i < m + 1 && j.argv[i] == k;
        assert j.keys[..m][i - 1] == k;
      }
      if k in j.keys[..m] {
        var i :| 0 <= i < m && j.keys[..m][i] == k;
        assert j.argv[i + 1] == k;
      }
    }
  }

  lemma SumStep(r: seq<string>, m: nat)
    requires 0 < m <= |r|
    ensures SumOf(r[..m]) == SumOf(r[..m - 1]) + IntOfReply(r[m - 1])
  {
    assert r[..m][..m - 1] == r[..m - 1];
  }

  /** A part of DEL answers 1 exactly when its key is there and no earlier part named it. */
  lemma DelReply(j: Job, whole: Db, i: nat)
    requires JobOk(j) && j.kind.DelCount? && i < |j.keys|
    ensures var key := j.keys[i];
      IntOfReply(Gathered(j, whole)[i]) == if key in whole && key !in ArgRange(j.argv, 1, i + 1) then 1 else 0
  {
    var key := j.keys[i];
    KeysAreArgs(j, i);
    hide ArgRange, IntOfReply, IntReply;
    if key in j.keys[..i] {
      DeletedInTurn(j, At(whole, key), key, i);
    } else {
      UntouchedInTurn(j, At(whole, key), key, i);
    }
    IntReplyRead(0);
    IntReplyRead(1);
  }

  lemma ExistsReply(j: Job, whole: Db, i: nat)
    requires JobOk(j) && j.kind.ExistsCount? && i < |j.keys|
    ensures IntOfReply(Gathered(j, whole)[i]) == if j.keys[i] in whole then 1 else 0
  {
    hide IntOfReply, IntReply;
    UntouchedInTurn(j, At(whole, j.keys[i]), j.keys[i], i);
    IntReplyRead(0);
    IntReplyRead(1);
  }

  lemma JobArgs(j: Job)
    requires JobOk(j) && !j.kind.MSet?
    ensures |j.argv| == |j.keys| + 1 && forall i :: 0 <= i < |j.keys| ==> j.keys[i] == j.argv[i + 1]
  {
  }

  lemma NoneYet(j: Job, whole: Db)
    requires JobOk(j)
    ensures SumOf(Gathered(j, whole)[..0]) == 0 && ArgRange(j.argv, 1, 1) == {}
    ensures Present(whole, ArgRange(j.argv, 1, 1)) == 0
  {
    hide Gathered, IntOfReply;
    assert Gathered(j, whole)[..0] == [];
    assert whole.Keys * {} == {};
  }

  lemma {:induction false} DelSum(j: Job, whole: Db, m: nat)
    requires JobOk(j) && j.kind.DelCount? && m <= |j.keys|
    ensures |j.argv| == |j.keys| + 1
    ensures SumOf(Gathered(j, whole)[..m]) == Present(whole, ArgRange(j.argv, 1, m + 1))
  {
    hide *;
    JobArgs(j);
    if m == 0 {
      NoneYet(j, whole);
    } else {
      DelReply(j, whole, m - 1);
      NextArg(j.argv, 1, m);
      DelSum(j, whole, m - 1);
      SumStep(Gathered(j, whole), m);
      DelCountsOne(whole, ArgRange(j.argv, 1, m), j.keys[m - 1]);
    }
  }

  lemma DelCountsOne(whole: Db, s: set<string>, key: string)
    ensures Present(whole, s + {key}) == Present(whole, s) + if key in whole && key !in s then 1 else 0
  {
    if key in whole && key !in s {
      assert whole.Keys * (s + {key}) == whole.Keys * s + {key};
    } else {
      assert whole.Keys * (s + {key}) == whole.Keys * s;
    }
  }

  lemma CountStep(whole: Db, argv: Argv, m: nat)
    requires 0 < m < |argv|
    ensures CountIn(whole, argv[1..m + 1]) == CountIn(whole, argv[1..m]) + if argv[m] in whole then 1 else 0
  {
    assert argv[1..m + 1][..m - 1] == argv[1..m];
  }

  lemma {:induction false} ExistsSum(j: Job, whole: Db, m: nat)
    requires JobOk(j) && j.kind.ExistsCount? && m <= |j.keys|
    ensures |j.argv| == |j.keys| + 1
    ensures SumOf(Gathered(j, whole)[..m]) == CountIn(whole, j.argv[1..m + 1])
  {
    hide *;
    JobArgs(j);
    if m > 0 {
      ExistsReply(j, whole, m - 1);
      ExistsSum(j, whole, m - 1);
      SumStep(Gathered(j, whole), m);
      CountStep(whole, j.argv, m);
    } else {
      NoneYet(j, whole);
      CountNone(whole, j.argv[1..1]);
    }
  }

  lemma CountNone(whole: Db, keys: seq<string>)
    requires keys == []
    ensures CountIn(whole, keys) == 0
  {
  }

  lemma {:induction false} PairsInTurn(j: Job, db: Db, key: string, i: nat, v: Option<Obj>)
    requires JobOk(j) && j.kind.MSet? && i <= |j.keys| && At(db, key) == KeyInTurn(j, v, key, i)
    ensures At(StorePairs(db, j.argv, 2 * i + 1), key) == KeyInTurn(j, v, key, |j.keys|)
    decreases |j.keys| - i
  {
    if i < |j.keys| {
      PairsInTurn(j, db[j.keys[i] := Str(j.argv[2 * i + 2])], key, i + 1, v);
    }
  }

  /** Key by key, the parts and the unsplit handler leave the same keyspace. */
  lemma SameState(j: Job, whole: Db, key: string)
    requires JobOk(j)
    ensures Local(j, whole).Effect?
    ensures KeyInTurn(j, At(whole, key), key, |j.keys|) == At(Local(j, whole).db, key)
  {
    var n := |j.keys|;
    if j.kind.MSet? {
      PairsInTurn(j, whole, key, 0, At(whole, key));
    } else {
      KeysAreArgs(j, n);
      if j.kind.DelCount? && key in j.keys[..n] {
        DeletedInTurn(j, At(whole, key), key, n);
      } else {
        UntouchedInTurn(j, At(whole, key), key, n);
      }
    }
  }

  ghost predicate StringOrAbsent(whole: Db, keys: seq<string>) {
    forall i :: 0 <= i < |keys| ==> keys[i] in whole ==> whole[keys[i]].Str?
  }

  lemma JoinStep(r: seq<string>, m: nat)
    requires 0 < m <= |r|
    ensures Joined(r[..m]) == Joined(r[..m - 1]) + r[m - 1]
  {
    assert r[..m][..m - 1] == r[..m - 1];
  }

  /** A split GET answers an absent key or a string like MGET, and any other value with a longer reply. */
  lemma GetReply(j: Job, whole: Db, i: nat)
    requires JobOk(j) && j.kind.MGet? && i < |j.keys|
    ensures var key := j.keys[i];
      if key in whole ==> whole[key].Str? then Gathered(j, whole)[i] == MGetItem(whole, key)
      else |Gathered(j, whole)[i]| > |MGetItem(whole, key)|
  {
    hide BulkReply, ErrorReply;
    UntouchedInTurn(j, At(whole, j.keys[i]), j.keys[i], i);
    WrongTypeIsLonger();
  }

  lemma WrongTypeIsLonger()
    ensures |WRONG_TYPE| > |NULL_BULK|
  {
  }

  ghost predicate StringsBelow(whole: Db, keys: seq<string>, m: nat)
    requires m <= |keys|
  {
    forall i :: 0 <= i < m ==> keys[i] in whole ==> whole[keys[i]].Str?
  }

  lemma {:induction false} MGetLengths(j: Job, whole: Db, m: nat)
    requires JobOk(j) && j.kind.MGet? && m <= |j.keys|
    ensures var split, local := Joined(Gathered(j, whole)[..m]), Joined(MGetItems(whole, j.keys)[..m]);
      if StringsBelow(whole, j.keys, m) then split == local else |split| > |local|
  {
    hide *;
    if m > 0 {
      MGetLengths(j, whole, m - 1);
      GetReply(j, whole, m - 1);
      BelowStep(whole, j.keys, m);
      JoinStep(Gathered(j, whole), m);
      JoinStep(MGetItems(whole, j.keys), m);
    } else {
      NothingBelow(j, whole);
    }
  }

  lemma BelowStep(whole: Db, keys: seq<string>, m: nat)
    requires 0 < m <= |keys|
    ensures StringsBelow(whole, keys, m) <==>
      StringsBelow(whole, keys, m - 1) && (keys[m - 1] in whole ==> whole[keys[m - 1]].Str?)
    ensures MGetItems(whole, keys)[m - 1] == MGetItem(whole, keys[m - 1])
  {
    hide MGetItem;
  }

  lemma NothingBelow(j: Job, whole: Db)
    requires JobOk(j)
    ensures StringsBelow(whole, j.keys, 0)
    ensures Joined(Gathered(j, whole)[..0]) == [] && Joined(MGetItems(whole, j.keys)[..0]) == []
  {
  }

  /** Once every part has run, the keyspaces are what the unsplit handler leaves, and the replies in place make its
      reply. */
  lemma ReachedAgrees<V>(cfg: Config<V>, j: Job, whole: Db, ran: set<nat>, r: Progress)
    requires JobOk(j) && Reached(cfg, j, whole, ran, r) && forall i: nat :: i < |j.keys| ==> i in ran
    ensures var local := Local(j, whole);
      && local.Effect? && Spread(cfg, r.dbs, local.db)
      && (forall i: nat :: i < |j.keys| ==> i in r.replies && r.replies[i] == Gathered(j, whole)[i])
      && var reply := Assembled(j.kind, Gathered(j, whole), SumOf(Gathered(j, whole)));
        (reply == local.reply <==> (j.kind.MGet? ==> StringOrAbsent(whole, j.keys)))
  {
    hide PointReply, PointAfter, JobOk, KeyAfter, KeyInTurn, Local, Assembled, AtHomes;
    forall key
      ensures Local(j, whole).Effect? && KeyAfter(j, At(whole, key), key, ran, |j.keys|) == At(Local(j, whole).db, key)
    {
      AllRan(j, At(whole, key), key, ran, |j.keys|);
      SameState(j, whole, key);
    }
    SameReply(j, whole);
  }

  /** Splitting a command agrees with the unsplit handler on the keyspace, whatever order the parts run in; the replies
      agree too, except for MGET, where they agree exactly when every key is absent or holds a string. */
  lemma SplitAgrees<V>(cfg: Config<V>, j: Job, dbs: seq<Db>, whole: Db, order: seq<nat>)
    requires JobOk(j) && Spread(cfg, dbs, whole) && Schedule(cfg, j, order)
    ensures var r, local := RunParts(cfg, j, dbs, order), Local(j, whole);
      && local.Effect? && Spread(cfg, r.dbs, local.db)
      && (forall i :: 0 <= i < |j.keys| ==> i in r.replies && r.replies[i] == Gathered(j, whole)[i])
      && var reply := Assembled(j.kind, Gathered(j, whole), SumOf(Gathered(j, whole)));
        (reply == local.reply <==> (j.kind.MGet? ==> StringOrAbsent(whole, j.keys)))
  {
    OrderIrrelevant(cfg, j, dbs, whole, order);
    forall key
      ensures Local(j, whole).Effect? && KeyInTurn(j, At(whole, key), key, |j.keys|) == At(Local(j, whole).db, key)
    {
      SameState(j, whole, key);
    }
    SameReply(j, whole);
    hide KeyInTurn, RunParts, Local, PointReply, Assembled;
  }

  lemma SameReply(j: Job, whole: Db)
    requires JobOk(j)
    ensures Local(j, whole).Effect?
    ensures var reply := Assembled(j.kind, Gathered(j, whole), SumOf(Gathered(j, whole)));
      reply == Local(j, whole).reply <==> (j.kind.MGet? ==> StringOrAbsent(whole, j.keys))
  {
    hide Gathered, SumOf, IntReply, StringOrAbsent, CountIn, Present, ArgRange, MGetItems, ArrayHeader, Joined;
    hide StorePairs;
    match j.kind
    case MSet =>
    case DelCount => DelReplies(j, whole);
    case ExistsCount => ExistsReplies(j, whole);
    case MGet => MGetReply(j, whole);
  }

  lemma FullSlice(r: seq<string>, n: nat)
    requires n == |r|
    ensures r[..n] == r
  {
  }

  lemma DelReplies(j: Job, whole: Db)
    requires JobOk(j) && j.kind.DelCount?
    ensures Del(whole, j.argv).reply == IntReply(SumOf(Gathered(j, whole)))
  {
    hide Gathered, IntReply, SumOf, ArgRange, Present;
    DelSum(j, whole, |j.keys|);
    FullSlice(Gathered(j, whole), |j.keys|);
  }

  lemma ExistsReplies(j: Job, whole: Db)
    requires JobOk(j) && j.kind.ExistsCount?
    ensures Exists(whole, j.argv).reply == IntReply(SumOf(Gathered(j, whole)))
  {
    hide Gathered, IntReply, SumOf, CountIn;
    ExistsSum(j, whole, |j.keys|);
    assert j.argv[1..|j.keys| + 1] == j.argv[1..];
    hide JobOk;
    FullSlice(Gathered(j, whole), |j.keys|);
  }

  lemma MGetReply(j: Job, whole: Db)
    requires JobOk(j) && j.kind.MGet?
    ensures ArrayHeader(|j.keys|) + Joined(Gathered(j, whole)) == MGetMany(whole, j.argv).reply
      <==> StringOrAbsent(whole, j.keys)
  {
    var n, r := |j.keys|, Gathered(j, whole);
    assert j.keys == j.argv[1..];
    MGetLengths(j, whole, n);
    hide Gathered, Joined, ArrayHeader, JobOk, MGetItems;
    assert r[..n] == r && MGetItems(whole, j.keys)[..n] == MGetItems(whole, j.keys);
    assert StringsBelow(whole, j.keys, n) == StringOrAbsent(whole, j.keys);
    LongerDiffers(ArrayHeader(n), Joined(r), Joined(MGetItems(whole, j.keys)));
  }

  lemma LongerDiffers(head: string, a: string, b: string)
    ensures |a| > |b| ==> head + a != head + b
  {
    assert |head + a| == |head| + |a| && |head + b| == |head| + |b|;
  }

  /** A split TOUCH deletes: it leaves the keyspace as TOUCH would exactly when none of its keys is there. */
  lemma SplitTouchDeletes<V>(cfg: Config<V>, j: Job, dbs: seq<Db>, whole: Db, order: seq<nat>)
    requires JobOk(j) && j.kind == KindOf("touch") && Spread(cfg, dbs, whole) && Schedule(cfg, j, order)
    ensures Exists(whole, j.argv).db == whole
    ensures Spread(cfg, RunParts(cfg, j, dbs, order).dbs, Exists(whole, j.argv).db)
      <==> forall i :: 0 <= i < |j.keys| ==> j.keys[i] !in whole
  {
    SplitAgrees(cfg, j, dbs, whole, order);
    DelLeaves(j, whole);
    hide *;
    SpreadOnlyOne(cfg, RunParts(cfg, j, dbs, order).dbs, Local(j, whole).db, whole);
    ExistsReads(j, whole);
  }

  lemma ExistsReads(j: Job, whole: Db)
    requires JobOk(j)
    ensures Exists(whole, j.argv).Effect? && Exists(whole, j.argv).db == whole
  {
  }

  lemma SpreadOnlyOne<V>(cfg: Config<V>, dbs: seq<Db>, a: Db, b: Db)
    requires Spread(cfg, dbs, a)
    ensures Spread(cfg, dbs, b) <==> forall key :: At(b, key) == At(a, key)
  {
    hide At, AtHomes;
  }

  /** DEL leaves the keyspace as it was exactly when none of its keys is there. */
  lemma DelLeaves(j: Job, whole: Db)
    requires JobOk(j) && j.kind.DelCount?
    ensures (forall key :: At(whole, key) == At(Local(j, whole).db, key)) <==>
      forall i :: 0 <= i < |j.keys| ==> j.keys[i] !in whole
  {
    KeysAreArgs(j, |j.keys|);
    assert j.keys[..|j.keys|] == j.keys;
    hide ArgRange, IntReply, Present;
    if i :| 0 <= i < |j.keys| && j.keys[i] in whole {
      assert At(whole, j.keys[i]) != None && At(Local(j, whole).db, j.keys[i]) == None;
    }
  }

  /** Routing a command over several shards makes such a job, and its parts are the job's. */
  lemma RouteIsJob<V>(cfg: Config<V>, here: nat, argv: Argv)
    requires TableOk(cfg) && argv != [] && RouteOf(cfg, here, argv).Remote? && !RouteOf(cfg, here, argv).kind.Single?
    ensures var r, j := RouteOf(cfg, here, argv), Job(RouteOf(cfg, here, argv).kind, argv, Touched(cfg, argv));
      && JobOk(j) && |r.parts| == |j.keys|
      && forall i :: 0 <= i < |j.keys| ==>
        r.parts[i].target == Owner(cfg, j.keys[i]) && r.parts[i].args == SubArgs(j.kind, argv, j.keys[i], i)
  {
    hide KeysAt, Owner, OneOwner;
    var keys, r := Touched(cfg, argv), RouteOf(cfg, here, argv);
    var stride: Positive := if r.kind.MSet? then 2 else 1;
    assert keys == KeysAt(argv, 1, |argv| - 1, stride);
    assert r == SplitOf(cfg, r.kind, argv, keys);
    hide RouteOf, Touched, TableOk;
    KeyPositions(argv, 1, |argv| - 1, stride, |keys|);
    KeyPositions(argv, 1, |argv| - 1, stride, |keys| - 1);
    forall i | 0 <= i < |keys|
      ensures keys[i] == argv[1 + i * stride]
    {
      KeyPositions(argv, 1, |argv| - 1, stride, i);
    }
  }
}

/** The append-only log of one shard: what it records, and what replaying it rebuilds. */
module Replay {
  import opened Options
  import opened Resp
  import opened Pipelines
  import opened Routing
  import opened Handlers
  import opened Intakes

  // ---------------------------------------------------------------------------
  // The write commands without deadlines or random choice
  // ---------------------------------------------------------------------------

  datatype Verb =
    | SET | SETNX | GETSET | APPEND | INCR | DECR | INCRBY | DECRBY | INCRBYFLOAT | MSET | SETRANGE
    | DEL | UNLINK | RENAME
    | HSET | HMSET | HDEL | HINCRBY
    | LPUSH | RPUSH | LPOP | RPOP | LSET
    | SADD | SREM
    | ZADD | ZREM | ZINCRBY

  function VerbOf(name: string): Option<Verb> {
    if name == "set" then Some(SET)
    else if name == "setnx" then Some(SETNX)
    else if name == "getset" then Some(GETSET)
    else if name == "append" then Some(APPEND)
    else if name == "incr" then Some(INCR)
    else if name == "decr" then Some(DECR)
    else if name == "incrby" then Some(INCRBY)
    else if name == "decrby" then Some(DECRBY)
    else if name == "incrbyfloat" then Some(INCRBYFLOAT)
    else if name == "mset" then Some(MSET)
    else if name == "setrange" then Some(SETRANGE)
    else if name == "del" then Some(DEL)
    else if name == "unlink" then Some(UNLINK)
    else if name == "rename" then Some(RENAME)
    else if name == "hset" then Some(HSET)
    else if name == "hmset" then Some(HMSET)
    else if name == "hdel" then Some(HDEL)
    else if name == "hincrby" then Some(HINCRBY)
    else if name == "lpush" then Some(LPUSH)
    else if name == "rpush" then Some(RPUSH)
    else if name == "lpop" then Some(LPOP)
    else if name == "rpop" then Some(RPOP)
    else if name == "lset" then Some(LSET)
    else if name == "sadd" then Some(SADD)
    else if name == "srem" then Some(SREM)
    else if name == "zadd" then Some(ZADD)
    else if name == "zrem" then Some(ZREM)
    else if name == "zincrby" then Some(ZINCRBY)
    else None
  }

  /** The table's arity: exact when positive, a minimum when negative. */
  function Arity(v: Verb): int {
    match v
    case INCR => 2
    case DECR => 2
    case DEL => -2
    case UNLINK => -2
    case LPOP => -2
    case RPOP => -2
    case SET => -3
    case MSET => -3
    case HDEL => -3
    case LPUSH => -3
    case RPUSH => -3
    case SADD => -3
    case SREM => -3
    case ZREM => -3
    case SETNX => 3
    case GETSET => 3
    case APPEND => 3
    case INCRBY => 3
    case DECRBY => 3
    case INCRBYFLOAT => 3
    case RENAME => 3
    case SETRANGE => 4
    case HINCRBY => 4
    case LSET => 4
    case ZINCRBY => 4
    case HSET => -4
    case HMSET => -4
    case ZADD => -4
  }

  predicate Fits(v: Verb, argc: nat) {
    ArityFits(Arity(v), argc)
  }

  function Apply(ext: Outside, v: Verb, db: Db, argv: Argv): Effect
    requires Fits(v, |argv|)
  {
    match v
    case SET => SetString(db, argv)
    case SETNX => SetNx(db, argv[1], argv[2])
    case GETSET => GetSet(db, argv[1], argv[2])
    case APPEND => Append(db, argv[1], argv[2])
    case INCR => IncrBy(db, argv[1], 1)
    case DECR => IncrBy(db, argv[1], -1)
    case INCRBY => IncrByText(db, argv[1], argv[2], 1)
    case DECRBY => IncrByText(db, argv[1], argv[2], -1)
    case INCRBYFLOAT => IncrByFloat(ext, db, argv[1], argv[2])
    case MSET => MSetMany(db, argv)
    case SETRANGE => SetRange(db, argv[1], argv[2], argv[3])
    case DEL => Del(db, argv)
    case UNLINK => Del(db, argv)
    case RENAME => Rename(db, argv[1], argv[2])
    case HSET => HSet(db, argv)
    case HMSET => HSet(db, argv)
    case HDEL => HDel(db, argv)
    case HINCRBY => HIncrBy(db, argv[1], argv[2], argv[3])
    case LPUSH => Push(db, argv, true)
    case RPUSH => Push(db, argv, false)
    case LPOP => Pop(db, argv, true)
    case RPOP => Pop(db, argv, false)
    case LSET => LSet(db, argv[1], argv[2], argv[3])
    case SADD => SAdd(db, argv)
    case SREM => SRem(db, argv)
    case ZADD => ZAdd(ext, db, argv)
    case ZREM => ZRem(db, argv)
    case ZINCRBY => ZIncrBy(ext, db, argv[1], argv[2], argv[3])
  }

  // ---------------------------------------------------------------------------
  // The other commands
  // ---------------------------------------------------------------------------

  /** The writes that set deadlines, choose at random, or store what the model has no value for. */
  predicate Foreign(name: string) {
    name in {"setex", "psetex", "expire", "pexpire", "expireat", "spop", "pfadd", "pfmerge", "vadd", "vrem"}
  }

  predicate Flushes(name: string) {
    name == "flushall" || name == "flushdb"
  }

  /** The arity of the commands of the table that leave a keyspace without deadlines alone. */
  function ReadArity(name: string): Option<int> {
    if name in {"get", "strlen", "ttl", "pttl", "persist", "type", "keys", "hgetall", "hkeys", "hvals", "hlen", "llen",
                "scard", "smembers", "zcard", "vcard", "echo", "select"} then Some(2)
    else if name in {"hget", "hexists", "lindex", "sismember", "zscore", "zrank", "wait"} then Some(3)
    else if name in {"getrange", "lrange"} then Some(4)
    else if name in {"randomkey", "dbsize", "reset"} then Some(1)
    else if name in {"ping", "command", "info", "hello"} then Some(-1)
    else if name in {"mget", "exists", "touch", "scan", "object", "pfcount", "config", "client", "debug"} then Some(-2)
    else if name == "hmget" then Some(-3)
    else if name in {"zrange", "zrangebyscore", "vsim"} then Some(-4)
    else None
  }

  function ReadEffect(ext: Outside, db: Db, name: string, argv: Argv): Effect
    requires |argv| >= 1 && (name == "get" ==> |argv| == 2)
  {
    if name == "get" then Get(db, argv[1])
    else if name == "mget" then MGetMany(db, argv)
    else if name == "exists" || name == "touch" then Exists(db, argv)
    else if name == "persist" then Read(db, IntReply(0))
    else Read(db, ext.answer(db, argv))
  }

  predicate Modelled(argv: Argv) {
    argv != [] && !Foreign(Lower(argv[0]))
  }

  predicate IsFlush(argv: Argv) {
    argv != [] && Flushes(Lower(argv[0]))
  }

  /** Any command but a foreign one: a write, a flush, a read, or an unknown name. */
  function Exec(ext: Outside, db: Db, argv: Argv): Effect
    requires Modelled(argv)
  {
    var name := Lower(argv[0]);
    match VerbOf(name)
    case Some(v) => if Fits(v, |argv|) then Apply(ext, v, db, argv) else Read(db, WrongArity(name))
    case None =>
      if Flushes(name) then Effect(map[], false, OK)
      else
        match ReadArity(name)
        case None => Read(db, UnknownCommand(argv[0]))
        case Some(arity) => if ArityFits(arity, |argv|) then ReadEffect(ext, db, name, argv)
          else Read(db, WrongArity(name))
  }

  // ---------------------------------------------------------------------------
  // A handler that does not mark the keyspace dirty leaves it unchanged
  // ---------------------------------------------------------------------------

  ghost predicate Faithful(db: Db, e: Effect) {
    e.Effect? && !e.dirty ==> e.db == db
  }

  /** Faithful, and still without empty containers. */
  ghost predicate Sound(db: Db, e: Effect) {
    Faithful(db, e) && (e.Effect? ==> NoEmpty(e.db))
  }

  /** ZADD's scores, from position `i` on, can all be read. */
  ghost predicate ScoresRead(ext: Outside, argv: Argv, i: nat)
    requires i <= |argv|
    decreases |argv| - i
  {
    i + 1 < |argv| ==> ext.parse(argv[i]) != None && ScoresRead(ext, argv, i + 2)
  }

  ghost predicate ZAddReadable(ext: Outside, argv: Argv)
    requires |argv| >= 2
  {
    var o := ReadZFlags(argv, 2, NoZFlags);
    o.next >= |argv| || (|argv| - o.next) % 2 != 0 || ScoresRead(ext, argv, o.next)
  }

  lemma StringsSound(ext: Outside, v: Verb, db: Db, argv: Argv)
    requires NoEmpty(db) && Fits(v, |argv|)
    requires v in {SETNX, GETSET, APPEND, INCR, DECR, INCRBY, DECRBY, INCRBYFLOAT, SETRANGE, LSET, RENAME}
    ensures Sound(db, Apply(ext, v, db, argv))
  {
    hide ParseInt, Dec, IntReply, BulkReply, ErrorReply, Overlay;
  }

  lemma SetSound(ext: Outside, db: Db, argv: Argv)
    requires NoEmpty(db) && |argv| >= 3
    ensures Sound(db, SetString(db, argv))
  {
    hide ReadOptions, BulkReply, ErrorReply;
  }

  lemma {:induction false} PairsSound(db: Db, argv: Argv, i: nat)
    requires NoEmpty(db) && i <= |argv|
    ensures NoEmpty(StorePairs(db, argv, i))
    decreases |argv| - i
  {
    if i + 1 < |argv| {
      PairsSound(db[argv[i] := Str(argv[i + 1])], argv, i + 2);
    }
  }

  lemma DelSound(db: Db, argv: Argv)
    requires NoEmpty(db) && |argv| >= 1
    ensures Sound(db, Del(db, argv))
  {
    var keys := ArgSet(argv, 1);
    hide ArgRange, IntReply;
    NoneErased(db, keys);
  }

  lemma {:induction false} FieldsGrow(fields: map<string, string>, argv: Argv, i: nat)
    requires i <= |argv|
    ensures fields.Keys <= PutFields(fields, argv, i).Keys
    ensures i + 1 < |argv| ==> PutFields(fields, argv, i) != map[]
    decreases |argv| - i
  {
    if i + 1 < |argv| {
      FieldsGrow(fields[argv[i] := argv[i + 1]], argv, i + 2);
      assert argv[i] in PutFields(fields, argv, i);
    }
  }

  /** Putting back what was there changes nothing; putting an empty container drops the key. */
  lemma StoreSame(db: Db, key: string, o: Obj)
    requires NoEmpty(db)
    ensures NoEmpty(Store(db, key, o))
    ensures key in db && o == db[key] ==> Store(db, key, o) == db
    ensures key !in db && Empty(o) ==> Store(db, key, o) == db
  {
  }

  lemma NoneErased<V>(m: map<string, V>, names: set<string>)
    ensures m.Keys * names == {} ==> m - names == m
  {
    if m.Keys * names == {} {
      assert forall k :: k in m ==> k !in m.Keys * names;
    }
  }

  lemma HashesSound(ext: Outside, v: Verb, db: Db, argv: Argv)
    requires NoEmpty(db) && Fits(v, |argv|) && v in {HSET, HMSET, HDEL, HINCRBY}
    ensures Sound(db, Apply(ext, v, db, argv))
  {
    hide ParseInt, Dec, IntReply, ErrorReply, ArgRange, Lower, Store, PutFields, NoEmpty, HIncrBy;
    var key := argv[1];
    if v == HINCRBY {
      HIncrBySound(db, key, argv[2], argv[3]);
    } else if key !in db || db[key].Hash? {
      var f := if key in db then db[key].fields else map[];
      if v == HDEL {
        StoreSame(db, key, Hash(f - ArgSet(argv, 2)));
        NoneErased(f, ArgSet(argv, 2));
      } else {
        FieldsGrow(f, argv, 2);
        FullPut(db, key, Hash(PutFields(f, argv, 2)));
      }
    }
  }

  lemma HIncrBySound(db: Db, key: string, field: string, text: string)
    requires NoEmpty(db)
    ensures Sound(db, HIncrBy(db, key, field, text))
  {
    hide ParseInt, Dec, IntReply, ErrorReply, NoEmpty;
    var e := HIncrBy(db, key, field, text);
    if e.Effect? && e.dirty {
      assert field in e.db[key].fields;
      FullPut(db, key, e.db[key]);
    }
  }

  lemma ListsSound(ext: Outside, v: Verb, db: Db, argv: Argv)
    requires NoEmpty(db) && Fits(v, |argv|) && v in {LPUSH, RPUSH, LPOP, RPOP}
    ensures Sound(db, Apply(ext, v, db, argv))
  {
    hide ParseInt, IntReply, ErrorReply, Store, PopText, Leftover;
    var key := argv[1];
    if (v == LPOP || v == RPOP) && key in db && db[key].List? {
      var e := Apply(ext, v, db, argv);
      var count := if |argv| == 3 then ParseInt(argv[2]) else Some(1);
      if count != None && count.value >= 0 {
        StoreSame(db, key, List(Leftover(db[key].items, Min(count.value, |db[key].items|), v == LPOP)));
      }
    }
  }

  lemma SetsSound(ext: Outside, v: Verb, db: Db, argv: Argv)
    requires NoEmpty(db) && Fits(v, |argv|) && v in {SADD, SREM}
    ensures Sound(db, Apply(ext, v, db, argv))
  {
    hide SAdd, SRem, Sound, NoEmpty;
    if v == SADD {
      SAddSound(db, argv);
    } else {
      SRemSound(db, argv);
    }
  }

  lemma SAddSound(db: Db, argv: Argv)
    requires NoEmpty(db) && |argv| >= 3
    ensures Sound(db, SAdd(db, argv))
  {
    hide IntReply, ErrorReply, ArgRange, Store, NoEmpty;
    var key := argv[1];
    var m := if key in db && db[key].Set? then db[key].members else {};
    SetsChange(m, argv);
    FullPut(db, key, Set(m + (ArgSet(argv, 2) - m)));
  }

  /** Putting in a container with something in it. */
  lemma FullPut(db: Db, key: string, o: Obj)
    requires NoEmpty(db) && !Empty(o)
    ensures NoEmpty(db[key := o])
    ensures key in db && o == db[key] ==> db[key := o] == db
  {
  }

  lemma SRemSound(db: Db, argv: Argv)
    requires NoEmpty(db) && |argv| >= 3
    ensures Sound(db, SRem(db, argv))
  {
    hide IntReply, ErrorReply, ArgRange, Store, NoEmpty;
    var key := argv[1];
    if key in db && db[key].Set? {
      var m := db[key].members;
      SetsChange(m, argv);
      StoreSame(db, key, Set(m - m * ArgSet(argv, 2)));
    }
  }

  /** Adding nothing new and removing nothing there leave a set as it was; adding an argument leaves it non-empty. */
  lemma SetsChange(m: set<string>, argv: Argv)
    requires |argv| >= 3
    ensures var args := ArgSet(argv, 2);
      && m + (args - m) != {} && (m == {} ==> args - m != {}) && (args - m == {} ==> m + (args - m) == m)
      && (m * args == {} ==> m - m * args == m)
  {
    assert argv[2] in ArgSet(argv, 2);
    assert argv[2] in m + (ArgSet(argv, 2) - m);
  }

  /** Only a change is counted as one, and only an unreadable score makes ZADD stop. */
  lemma {:induction false} AddScoresCounts(ext: Outside, f: ZFlags, argv: Argv, i: nat, z: ZAdded)
    requires i <= |argv| && !z.bad
    ensures var r := AddScores(ext, f, argv, i, z);
      && r.bad == !ScoresRead(ext, argv, i)
      && z.changed <= r.changed && (r.changed == z.changed ==> r.scores == z.scores)
    decreases |argv| - i
  {
    if i + 1 < |argv| && ext.parse(argv[i]) != None {
      var given, member := ext.parse(argv[i]).value, argv[i + 1];
      var score := if f.incr then ext.add(given, if member in z.scores then z.scores[member] else ext.zero) else given;
      AddScoresCounts(ext, f, argv, i + 2, AddScore(f, z, member, score));
    }
  }

  lemma ZSetsSound(ext: Outside, v: Verb, db: Db, argv: Argv)
    requires NoEmpty(db) && Fits(v, |argv|) && v in {ZADD, ZREM, ZINCRBY}
    requires v == ZADD ==> ZAddReadable(ext, argv)
    ensures Sound(db, Apply(ext, v, db, argv))
  {
    hide IntReply, ErrorReply, BulkReply, ArgRange, Store, ReadZFlags, AddScores;
    var key := argv[1];
    if key !in db || db[key].ZSet? {
      var s := if key in db then db[key].scores else map[];
      if v == ZADD {
        var o := ReadZFlags(argv, 2, NoZFlags);
        AddScoresCounts(ext, o.flags, argv, o.next, ZAdded(s, 0, 0, None, false));
        StoreSame(db, key, ZSet(AddScores(ext, o.flags, argv, o.next, ZAdded(s, 0, 0, None, false)).scores));
      } else if v == ZREM {
        StoreSame(db, key, ZSet(s - ArgSet(argv, 2)));
        NoneErased(s, ArgSet(argv, 2));
      }
    }
  }

  /** No time option that SET accepts. */
  predicate SetUntimed(argv: Argv)
    requires |argv| >= 3
  {
    var o := ReadOptions(argv, 3, NoOptions);
    o.Options? ==> o.time == NoTime
  }

  /** Commands whose effect the log can carry: no SET with a time, and no ZADD with a score that cannot be read. */
  ghost predicate Loggable(ext: Outside, argv: Argv) {
    && Modelled(argv)
    && (VerbOf(Lower(argv[0])) == Some(SET) && |argv| >= 3 ==> SetUntimed(argv))
    && (VerbOf(Lower(argv[0])) == Some(ZADD) && |argv| >= 4 ==> ZAddReadable(ext, argv))
  }

  /** SET without a time makes no deadline, so the log theorem can do without a table of them. */
  lemma UntimedSetMakesNoDeadline(db: Db, argv: Argv, now: nat)
    requires |argv| >= 3 && SetUntimed(argv)
    ensures SetDeadlines(db, map[], argv, now) == map[]
  {
    hide ReadOptions;
  }

  /** Every handler that leaves the dirty flag unset leaves the keyspace as it was, but for a flush. */
  lemma UnmarkedMeansUnchanged(ext: Outside, db: Db, argv: Argv)
    requires NoEmpty(db) && Loggable(ext, argv) && !IsFlush(argv)
    ensures Sound(db, Exec(ext, db, argv))
  {
    assert ReadArity("get") == Some(2);
    hide Lower, VerbOf, ReadArity, Foreign, Apply, Sound, ReadEffect;
    var name := Lower(argv[0]);
    match VerbOf(name)
    case None =>
      ReadSound(db, UnknownCommand(argv[0]));
      ReadSound(db, WrongArity(name));
      if ReadArity(name).Some? && ArityFits(ReadArity(name).value, |argv|) {
        ReadsSound(ext, db, name, argv);
      }
    case Some(v) =>
      if Fits(v, |argv|) {
        WriteSound(ext, v, db, argv);
      } else {
        ReadSound(db, WrongArity(name));
      }
  }

  lemma ReadsSound(ext: Outside, db: Db, name: string, argv: Argv)
    requires NoEmpty(db) && |argv| >= 1 && (name == "get" ==> |argv| == 2)
    ensures Sound(db, ReadEffect(ext, db, name, argv))
  {
    hide IntReply, BulkReply, ArrayHeader, Joined, MGetItems, CountIn;
  }

  lemma WriteSound(ext: Outside, v: Verb, db: Db, argv: Argv)
    requires NoEmpty(db) && Fits(v, |argv|)
    requires v == SET ==> SetUntimed(argv)
    requires v == ZADD ==> ZAddReadable(ext, argv)
    ensures Sound(db, Apply(ext, v, db, argv))
  {
    hide ZAddReadable, SetUntimed, Sound;
    if v in {SETNX, GETSET, APPEND, INCR, DECR, INCRBY, DECRBY, INCRBYFLOAT, SETRANGE, LSET, RENAME} {
      StringsSound(ext, v, db, argv);
    } else if v in {HSET, HMSET, HDEL, HINCRBY} {
      HashesSound(ext, v, db, argv);
    } else if v in {LPUSH, RPUSH, LPOP, RPOP} {
      ListsSound(ext, v, db, argv);
    } else if v in {SADD, SREM} {
      SetsSound(ext, v, db, argv);
    } else if v in {ZADD, ZREM, ZINCRBY} {
      ZSetsSound(ext, v, db, argv);
    } else if v == SET {
      SetSound(ext, db, argv);
    } else if v == MSET {
      MSetSound(db, argv);
    } else {
      DelSound(db, argv);
    }
  }

  lemma ReadSound(db: Db, reply: string)
    requires NoEmpty(db)
    ensures Sound(db, Read(db, reply))
  {
  }

  lemma MSetSound(db: Db, argv: Argv)
    requires NoEmpty(db) && |argv| >= 1
    ensures Sound(db, MSetMany(db, argv))
  {
    PairsSound(db, argv, 1);
  }

  /** ZADD is faithful on every keyspace exactly when its scores can all be read (or its syntax is refused). */
  lemma ZAddFaithfulExactly(ext: Outside, argv: Argv)
    requires |argv| >= 4
    ensures (forall db :: NoEmpty(db) ==> Faithful(db, ZAdd(ext, db, argv))) <==> ZAddReadable(ext, argv)
  {
    if ZAddReadable(ext, argv) {
      forall db | NoEmpty(db)
        ensures Faithful(db, ZAdd(ext, db, argv))
      {
        ZSetsSound(ext, ZADD, db, argv);
      }
    } else {
      var db: Db := map[];
      var o := ReadZFlags(argv, 2, NoZFlags);
      AddScoresCounts(ext, o.flags, argv, o.next, ZAdded(map[], 0, 0, None, false));
      assert NoEmpty(db);
      assert argv[1] in ZAdd(ext, db, argv).db;
      assert !Faithful(db, ZAdd(ext, db, argv));
    }
  }

  // ---------------------------------------------------------------------------
  // The log and the state
  // ---------------------------------------------------------------------------

  /** A shard that has executed some commands: its keyspace and the commands it logged. */
  datatype Live = Live(db: Db, log: seq<Argv>)

  /** A marked command is appended to the log; a flush starts the log anew. */
  function LogAfter(log: seq<Argv>, argv: Argv, dirty: bool): seq<Argv> {
    if IsFlush(argv) then [] else if dirty then log + [argv] else log
  }

  function RunLive(ext: Outside, commands: seq<Argv>): Option<Live>
    requires forall i :: 0 <= i < |commands| ==> Modelled(commands[i])
  {
    if commands == [] then Some(Live(map[], []))
    else
      var last := |commands| - 1;
      match RunLive(ext, commands[..last])
      case None => None
      case Some(live) =>
        match Exec(ext, live.db, commands[last])
        case Undefined => None
        case Effect(db, dirty, _) => Some(Live(db, LogAfter(live.log, commands[last], dirty)))
  }

  function ReplayOne(ext: Outside, db: Db, argv: Argv): Db {
    if Modelled(argv) && Exec(ext, db, argv).Effect? then Exec(ext, db, argv).db else db
  }

  function ReplayAll(ext: Outside, db: Db, log: seq<Argv>): Db {
    if log == [] then db else ReplayOne(ext, ReplayAll(ext, db, log[..|log| - 1]), log[|log| - 1])
  }

  ghost predicate AllLoggable(ext: Outside, commands: seq<Argv>) {
    forall i :: 0 <= i < |commands| ==> Loggable(ext, commands[i])
  }

  /** After every run, folding the log rebuilds the live keyspace. */
  lemma {:induction false} LogRebuilds(ext: Outside, commands: seq<Argv>)
    requires AllLoggable(ext, commands) && RunLive(ext, commands).Some?
    ensures var live := RunLive(ext, commands).value;
      && ReplayAll(ext, map[], live.log) == live.db && NoEmpty(live.db)
      && forall i :: 0 <= i < |live.log| ==> live.log[i] in commands
  {
    assert forall i :: 0 <= i < |commands| ==> Modelled(commands[i]);
    hide Loggable, Exec, NoEmpty, Modelled;
    if commands == [] {
      StartsEmpty();
    } else {
      var last := |commands| - 1;
      LogRebuilds(ext, commands[..last]);
      var live := RunLive(ext, commands[..last]).value;
      LogStep(ext, live.db, commands[last], live.log);
    }
  }

  /** What is left of a keyspace when its dead keys are gone. */
  function Swept(db: Db, ttl: map<string, nat>, now: nat): Db {
    db - set k | k in ttl && ttl[k] <= now
  }

  function PxArgs(key: string, value: string, ms: nat): Argv {
    ["SET", key, value, "PX", Dec(ms)]
  }

  /** SET of a key with a time to live, then SETNX of the same key at a later time. */
  function SetThenNx(key: string, v: string, w: string, ms: nat, set_: nat, nx: nat): Effect {
    var argv := PxArgs(key, v, ms);
    SetNx(Swept(SetString(map[], argv).db, SetDeadlines(map[], map[], argv, set_), nx), key, w)
  }

  /** Why SET with a time is not in the theorem: the log holds the time to live, not the deadline. SET with PX followed
      by SETNX, logged, and replayed in one moment, gives the live keyspace exactly when the key had not expired. */
  lemma TimedSetReplays(key: string, v: string, w: string, ms: nat, first: nat, second: nat, replay: nat)
    requires 0 < ms <= INT64_MAX && first <= second && first + ms < WORD && replay + ms < WORD && v != w
    ensures var live := SetThenNx(key, v, w, ms, first, second);
      var replayed := if live.dirty then SetThenNx(key, v, w, ms, replay, replay).db
        else SetString(map[], PxArgs(key, v, ms)).db;
      replayed == live.db <==> second < first + ms
  {
    PxRead(key, v, ms);
    hide ReadOptions, Dec, BulkReply, ErrorReply;
    var set_ := SetString(map[], PxArgs(key, v, ms)).db;
    assert set_ == map[key := Str(v)];
    assert Swept(set_, map[key := first + ms], second) == if second < first + ms then set_ else map[];
    assert Swept(set_, map[key := replay + ms], replay) == set_;
  }

  lemma PxRead(key: string, value: string, ms: nat)
    requires 0 < ms <= INT64_MAX
    ensures ReadOptions(PxArgs(key, value, ms), 3, NoOptions) == NoOptions.(time := After(ms))
  {
    DecRead(ms);
    hide Dec, ParseInt;
    assert Lower("PX") == "px";
  }

  lemma StartsEmpty()
    ensures NoEmpty(map[])
  {
  }

  lemma LogStep(ext: Outside, db: Db, argv: Argv, log: seq<Argv>)
    requires NoEmpty(db) && Loggable(ext, argv) && ReplayAll(ext, map[], log) == db && Exec(ext, db, argv).Effect?
    ensures var e := Exec(ext, db, argv);
      && NoEmpty(e.db) && ReplayAll(ext, map[], LogAfter(log, argv, e.dirty)) == e.db
  {
    if IsFlush(argv) {
      FlushEmpties(ext, db, argv);
    } else {
      UnmarkedMeansUnchanged(ext, db, argv);
      hide Exec, NoEmpty, Lower, VerbOf, Loggable;
      assert (log + [argv])[..|log|] == log;
    }
  }

  lemma FlushEmpties(ext: Outside, db: Db, argv: Argv)
    requires IsFlush(argv)
    ensures Modelled(argv) && Exec(ext, db, argv) == Effect(map[], false, OK) && NoEmpty(map[])
  {
    hide Lower;
  }

  /** Every prefix of the log is the log of a prefix of the run. */
  lemma {:induction false} LogPrefix(ext: Outside, commands: seq<Argv>, m: nat) returns (j: nat)
    requires (forall i :: 0 <= i < |commands| ==> Modelled(commands[i])) && RunLive(ext, commands).Some?
    requires m <= |RunLive(ext, commands).value.log|
    ensures j <= |commands| && RunLive(ext, commands[..j]).Some?
    ensures RunLive(ext, commands[..j]).value.log == RunLive(ext, commands).value.log[..m]
  {
    hide Exec, Modelled;
    var log := RunLive(ext, commands).value.log;
    if m == |log| {
      j := |commands|;
      assert commands[..j] == commands;
    } else {
      var last := |commands| - 1;
      j := LogPrefix(ext, commands[..last], m);
      assert commands[..last][..j] == commands[..j];
    }
  }

  lemma {:induction false} KeptWhole(commands: seq<Argv>)
    requires forall i :: 0 <= i < |commands| ==> commands[i] != []
    ensures KeptAll(commands) == commands
  {
    if commands != [] {
      KeptWhole(commands[1..]);
    }
  }

  /** A log cut at any byte, as by a crash, replays to a state the shard was in: the one after its first `j`
      commands. */
  lemma CrashRecovers(ext: Outside, commands: seq<Argv>, k: nat) returns (j: nat)
    requires AllLoggable(ext, commands) && RunLive(ext, commands).Some? && AllEncodable(commands)
    requires k <= |EncodeAll(RunLive(ext, commands).value.log)|
    ensures j <= |commands| && RunLive(ext, commands[..j]).Some?
    ensures ReplayAll(ext, map[], Drain(EncodeAll(RunLive(ext, commands).value.log)[..k]).commands)
      == RunLive(ext, commands[..j]).value.db
    ensures k == |EncodeAll(RunLive(ext, commands).value.log)| ==>
      RunLive(ext, commands[..j]).value.db == RunLive(ext, commands).value.db
  {
    hide Exec, NoEmpty, Encode, Drain, ReplayAll, RunLive, EncodeAll, KeptAll, Whole, VerbOf, Lower, ZAddReadable;
    var log := RunLive(ext, commands).value.log;
    LogRebuilds(ext, commands);
    assert AllEncodable(log);
    CutStream(log, k);
    var m := Whole(log, k);
    KeptWhole(log[..m]);
    j := LogPrefix(ext, commands, m);
    assert AllLoggable(ext, commands[..j]);
    LogRebuilds(ext, commands[..j]);
    WholeIsLongest(log, k, |log|);
    assert log[..|log|] == log;
  }

  /** The recovery loop. */
  method LoadLog(ext: Outside, data: string) returns (db: Db)
    ensures db == ReplayAll(ext, map[], Drain(data).commands)
  {
    hide *;
    db := map[];
    var pos := 0;
    ghost var done: seq<Argv> := [];
    ghost var goal := Drain(data).commands;
    LoadStart(ext, data);
    while pos < |data|
      invariant pos <= |data| && db == ReplayAll(ext, map[], done)
      invariant done + Drain(data[pos..]).commands == goal
      decreases |data| - pos
    {
      var st := Intakes.Connection.ParseView(data[pos..]);
      LoadTurn(ext, data, pos, st, done);
      if !st.Ok? {
        return;
      }
      pos := pos + st.consumed;
      if st.argv != [] {
        db := ReplayOne(ext, db, st.argv);
        done := done + [st.argv];
      }
    }
    LoadEnd(data[pos..]);
  }

  lemma LoadStart(ext: Outside, data: string)
    ensures ReplayAll(ext, map[], []) == map[] && [] + Drain(data[0..]).commands == Drain(data).commands
  {
    hide Drain;
    assert data[0..] == data;
  }

  lemma LoadEnd(rest: string)
    requires |rest| == 0
    ensures forall done: seq<Argv> :: done + Drain(rest).commands == done
  {
    DrainMore(rest, []);
  }

  lemma LoadTurn(ext: Outside, data: string, pos: nat, st: Parsed, done: seq<Argv>)
    requires pos < |data| && st == Parse(data[pos..])
    ensures !st.Ok? ==> done + Drain(data[pos..]).commands == done
    ensures st.Ok? ==> 0 < st.consumed <= |data| - pos
    ensures st.Ok? ==>
      done + Drain(data[pos..]).commands
      == (if st.argv == [] then done else done + [st.argv]) + Drain(data[pos + st.consumed..]).commands
    ensures st.Ok? ==> ReplayAll(ext, map[], done + [st.argv]) == ReplayOne(ext, ReplayAll(ext, map[], done), st.argv)
  {
    hide Parse, Drain, ReplayOne;
    match st
    case NeedMore =>
      DrainMore(data[pos..], []);
    case ProtocolError(_) =>
      DrainError(data[pos..], []);
      assert Drain(data[pos..]).commands == [];
    case Ok(argv, n) =>
      DrainOne(data[pos..], argv, n, []);
      assert data[pos..][n..] == data[pos + n..];
      assert done + [] == done;
      assert (done + [argv])[..|done|] == done;
  }
}

/** The command handlers, on one shard's keyspace without deadlines. */
module Handlers {
  import opened Options
  import opened Resp
  import opened Pipelines
  import opened Routing
  import opened Replies

  /** Scores stand for their rank in the order of the doubles that are not NaN. */
  datatype Obj =
    | Str(s: string)
    | List(items: seq<string>)
    | Hash(fields: map<string, string>)
    | Set(members: set<string>)
    | ZSet(scores: map<string, int>)

  type Db = map<string, Obj>

  /** What comes from outside the model: reading, adding and printing doubles, and the replies of the reads that are not
      modelled one by one. */
  datatype Outside = Outside(
    parse: string -> Option<int>,
    add: (int, int) -> int,
    zero: int,
    show: int -> string,
    answer: (Db, Argv) -> string)

  /** What a handler leaves behind. `Undefined` stands for a signed overflow the program does not check. */
  datatype Effect = Effect(db: Db, dirty: bool, reply: string) | Undefined

  function Read(db: Db, reply: string): Effect {
    Effect(db, false, reply)
  }

  function Wrote(db: Db, reply: string): Effect {
    Effect(db, true, reply)
  }

  const OK: string := SimpleReply("OK")
  const WRONG_TYPE: string := ErrorReply("WRONGTYPE Operation against a key holding the wrong kind of value")
  const NOT_INT: string := ErrorReply("ERR value is not an integer or out of range")
  const NOT_FLOAT: string := ErrorReply("ERR value is not a valid float")
  const SYNTAX: string := ErrorReply("ERR syntax error")
  const NO_KEY: string := ErrorReply("ERR no such key")
  const OVERFLOW: string := ErrorReply("ERR increment or decrement would overflow")
  const NULL_ARRAY: string := "*-1" + CRLF

  /** A container that became empty is removed with its key. */
  function Store(db: Db, key: string, o: Obj): Db {
    var empty := match o
      case Str(_) => false
      case List(items) => items == []
      case Hash(fields) => fields == map[]
      case Set(members) => members == {}
      case ZSet(scores) => scores == map[];
    if empty then db - {key} else db[key := o]
  }

  ghost predicate Empty(o: Obj) {
    o == List([]) || o == Hash(map[]) || o == Set({}) || o == ZSet(map[])
  }

  /** No key holds an empty container. */
  ghost predicate NoEmpty(db: Db) {
    forall k :: k in db ==> !Empty(db[k])
  }

  /** The arguments from position `lo` up to `hi`, as a set. */
  function ArgRange(argv: Argv, lo: nat, hi: nat): set<string>
    requires lo <= hi <= |argv|
  {
    set j | lo <= j < hi :: argv[j]
  }

  lemma NextArg(argv: Argv, lo: nat, i: nat)
    requires lo <= i < |argv|
    ensures ArgRange(argv, lo, i + 1) == ArgRange(argv, lo, i) + {argv[i]}
  {
  }

  function ArgSet(argv: Argv, lo: nat): set<string>
    requires lo <= |argv|
  {
    ArgRange(argv, lo, |argv|)
  }

  // ---------------------------------------------------------------------------
  // Strings
  // ---------------------------------------------------------------------------

  function Get(db: Db, key: string): Effect {
    if key !in db then Read(db, NULL_BULK)
    else if !db[key].Str? then Read(db, WRONG_TYPE)
    else Read(db, BulkReply(db[key].s))
  }

  /** When SET should let its key expire: some milliseconds from now, or at a time. */
  datatype SetTime = NoTime | After(ms: nat) | At(ms: nat)

  datatype SetOptions = Options(nx: bool, xx: bool, keepTtl: bool, getOld: bool, time: SetTime) | BadTime | BadSyntax

  const NoOptions := Options(false, false, false, false, NoTime)

  function TimeOf(opt: string, n: nat): SetTime {
    if opt == "ex" then After(n * 1000)
    else if opt == "px" then After(n)
    else if opt == "exat" then At(n * 1000)
    else At(n)
  }

  const WORD := 0x1_0000_0000_0000_0000

  /** The deadline in 64 bits; zero stands for none. */
  function DeadlineOf(time: SetTime, now: nat): nat {
    match time
    case NoTime => 0
    case After(ms) => (now + ms) % WORD
    case At(ms) => ms % WORD
  }

  function ReadOptions(argv: Argv, i: nat, o: SetOptions): SetOptions
    requires i <= |argv| && o.Options?
    decreases |argv| - i
  {
    if i == |argv| then o
    else
      var opt := Lower(argv[i]);
      if opt == "nx" then ReadOptions(argv, i + 1, o.(nx := true))
      else if opt == "xx" then ReadOptions(argv, i + 1, o.(xx := true))
      else if opt == "keepttl" then ReadOptions(argv, i + 1, o.(keepTtl := true))
      else if opt == "get" then ReadOptions(argv, i + 1, o.(getOld := true))
      else if opt in {"ex", "px", "exat", "pxat"} && i + 1 < |argv| then
        var n := ParseInt(argv[i + 1]);
        if n == None || n.value <= 0 then BadTime else ReadOptions(argv, i + 2, o.(time := TimeOf(opt, n.value)))
      else BadSyntax
  }

  function SetString(db: Db, argv: Argv): Effect
    requires |argv| >= 3
  {
    var key := argv[1];
    match ReadOptions(argv, 3, NoOptions)
    case BadTime => Read(db, ErrorReply("ERR invalid expire time in 'set' command"))
    case BadSyntax => Read(db, SYNTAX)
    case Options(nx, xx, _, getOld, _) =>
      var prior := if key in db && db[key].Str? then BulkReply(db[key].s) else NULL_BULK;
      if nx && key in db && db[key].Str? then Read(db, if getOld then prior else NULL_BULK)
      else if xx && key !in db then Read(db, NULL_BULK)
      else Wrote(db[key := Str(argv[2])], if getOld then prior else OK)
  }

  /** The table of deadlines after SET. */
  function SetDeadlines(db: Db, ttl: map<string, nat>, argv: Argv, now: nat): map<string, nat>
    requires |argv| >= 3
  {
    var key, o := argv[1], ReadOptions(argv, 3, NoOptions);
    if !SetString(db, argv).dirty || !o.Options? then ttl
    else
      var deadline, kept := DeadlineOf(o.time, now), if o.keepTtl && key in ttl then ttl[key] else 0;
      if deadline != 0 then ttl[key := deadline] else if kept != 0 then ttl[key := kept] else ttl - {key}
  }

  function SetNx(db: Db, key: string, value: string): Effect {
    if key in db then Read(db, IntReply(0)) else Wrote(db[key := Str(value)], IntReply(1))
  }

  function GetSet(db: Db, key: string, value: string): Effect {
    if key in db && !db[key].Str? then Read(db, WRONG_TYPE)
    else Wrote(db[key := Str(value)], if key in db then BulkReply(db[key].s) else NULL_BULK)
  }

  function Append(db: Db, key: string, value: string): Effect {
    if key !in db then Wrote(db[key := Str(value)], IntReply(|value|))
    else if !db[key].Str? then Read(db, WRONG_TYPE)
    else Wrote(db[key := Str(db[key].s + value)], IntReply(|db[key].s| + |value|))
  }

  function IncrBy(db: Db, key: string, delta: int): Effect {
    if key in db && !db[key].Str? then Read(db, WRONG_TYPE)
    else
      var cur := if key in db then ParseInt(db[key].s) else Some(0);
      if cur == None then Read(db, NOT_INT)
      else if cur.value + delta > INT64_MAX || cur.value + delta < INT64_MIN then Read(db, OVERFLOW)
      else Wrote(db[key := Str(Dec(cur.value + delta))], IntReply(cur.value + delta))
  }

  function IncrByText(db: Db, key: string, text: string, sign: int): Effect {
    match ParseInt(text)
    case None => Read(db, NOT_INT)
    case Some(d) => if sign < 0 && d == INT64_MIN then Undefined else IncrBy(db, key, sign * d)
  }

  function IncrByFloat(ext: Outside, db: Db, key: string, text: string): Effect {
    if ext.parse(text) == None then Read(db, NOT_FLOAT)
    else if key in db && !db[key].Str? then Read(db, WRONG_TYPE)
    else
      var cur := if key in db then ext.parse(db[key].s) else Some(ext.zero);
      if cur == None then Read(db, NOT_FLOAT)
      else
        var s := ext.show(ext.add(cur.value, ext.parse(text).value));
        Wrote(db[key := Str(s)], BulkReply(s))
  }

  function MGetItem(db: Db, key: string): string {
    if key in db && db[key].Str? then BulkReply(db[key].s) else NULL_BULK
  }

  function MGetItems(db: Db, keys: seq<string>): (r: seq<string>)
    ensures |r| == |keys|
  {
    seq(|keys|, i requires 0 <= i < |keys| => MGetItem(db, keys[i]))
  }

  function MGetMany(db: Db, argv: Argv): Effect
    requires |argv| >= 1
  {
    Read(db, ArrayHeader(|argv| - 1) + Joined(MGetItems(db, argv[1..])))
  }

  /** What a client is told about a key that may hold a string. */
  function Told(db: Db, key: string): Reply {
    if key in db && db[key].Str? then Text(db[key].s) else Nil
  }

  /** What a client is told about each of the keys, in order. */
  function ToldAll(db: Db, argv: Argv): (r: seq<Reply>)
    requires |argv| >= 1
    ensures |r| == |argv| - 1
  {
    seq(|argv| - 1, i requires 0 <= i < |argv| - 1 => Told(db, argv[i + 1]))
  }

  lemma MGetSays(db: Db, argv: Argv)
    requires |argv| >= 1
    ensures Says(MGetMany(db, argv).reply, Array(ToldAll(db, argv)))
  {
    hide Says, BulkReply, ArrayHeader, Joined;
    var frags, told := MGetItems(db, argv[1..]), ToldAll(db, argv);
    forall i | 0 <= i < |frags|
      ensures Says(frags[i], told[i])
    {
      NilSays();
      if Told(db, argv[i + 1]).Text? {
        BulkSays(db[argv[i + 1]].s);
      }
    }
    ArraySays(frags, told);
  }

  /** Storing the pairs of arguments from position `i` on, in order. */
  function StorePairs(db: Db, argv: Argv, i: nat): Db
    requires i <= |argv|
    decreases |argv| - i
  {
    if i + 1 >= |argv| then db else StorePairs(db[argv[i] := Str(argv[i + 1])], argv, i + 2)
  }

  function MSetMany(db: Db, argv: Argv): Effect
    requires |argv| >= 1
  {
    if |argv| % 2 != 1 then Read(db, WrongArity(argv[0])) else Wrote(StorePairs(db, argv, 1), OK)
  }

  function Overlay(data: string, offset: nat, value: string): string {
    var needed := offset + |value|;
    var padded := if needed > |data| then data + seq(needed - |data|, i => '\0') else data;
    padded[..offset] + value + padded[needed..]
  }

  function SetRange(db: Db, key: string, offsetText: string, value: string): Effect {
    var offset := ParseInt(offsetText);
    if offset == None || offset.value < 0 then Read(db, NOT_INT)
    else if key in db && !db[key].Str? then Read(db, WRONG_TYPE)
    else
      var data := Overlay(if key in db then db[key].s else "", offset.value, value);
      Wrote(db[key := Str(data)], IntReply(|data|))
  }

  // ---------------------------------------------------------------------------
  // Keys
  // ---------------------------------------------------------------------------

  /** How many of the given keys are there, each counted once. */
  function Present(db: Db, keys: set<string>): nat {
    |db.Keys * keys|
  }

  function Del(db: Db, argv: Argv): Effect
    requires |argv| >= 1
  {
    var keys := ArgSet(argv, 1);
    Effect(db - keys, Present(db, keys) > 0, IntReply(Present(db, keys)))
  }

  /** How many of the listed keys are there, repetitions included. */
  function CountIn(db: Db, keys: seq<string>): nat {
    if keys == [] then 0
    else CountIn(db, keys[..|keys| - 1]) + if keys[|keys| - 1] in db then 1 else 0
  }

  function Exists(db: Db, argv: Argv): Effect
    requires |argv| >= 1
  {
    Read(db, IntReply(CountIn(db, argv[1..])))
  }

  function Rename(db: Db, from: string, to: string): Effect {
    if from !in db then Read(db, NO_KEY) else Wrote((db - {from})[to := db[from]], OK)
  }

  // ---------------------------------------------------------------------------
  // Hashes
  // ---------------------------------------------------------------------------

  function PutFields(fields: map<string, string>, argv: Argv, i: nat): map<string, string>
    requires i <= |argv|
    decreases |argv| - i
  {
    if i + 1 >= |argv| then fields else PutFields(fields[argv[i] := argv[i + 1]], argv, i + 2)
  }

  function HSet(db: Db, argv: Argv): Effect
    requires |argv| >= 2
  {
    var key := argv[1];
    if |argv| % 2 != 0 then Read(db, WrongArity(argv[0]))
    else if key in db && !db[key].Hash? then Read(db, WRONG_TYPE)
    else
      var before := if key in db then db[key].fields else map[];
      var after := PutFields(before, argv, 2);
      Wrote(db[key := Hash(after)], if Lower(argv[0]) == "hmset" then OK else IntReply(|after| - |before|))
  }

  function HDel(db: Db, argv: Argv): Effect
    requires |argv| >= 2
  {
    var key := argv[1];
    if key !in db then Read(db, IntReply(0))
    else if !db[key].Hash? then Read(db, WRONG_TYPE)
    else
      var f, names := db[key].fields, ArgSet(argv, 2);
      Effect(Store(db, key, Hash(f - names)), f.Keys * names != {}, IntReply(|f.Keys * names|))
  }

  function HIncrBy(db: Db, key: string, field: string, text: string): Effect {
    var delta := ParseInt(text);
    if delta == None then Read(db, NOT_INT)
    else if key in db && !db[key].Hash? then Read(db, WRONG_TYPE)
    else
      var f := if key in db then db[key].fields else map[];
      var cur := if field in f then ParseInt(f[field]) else Some(0);
      if cur == None then Read(db, ErrorReply("ERR hash value is not an integer"))
      else
        var v := cur.value + delta.value;
        if v < INT64_MIN || v > INT64_MAX then Undefined
        else Wrote(db[key := Hash(f[field := Dec(v)])], IntReply(v))
  }

  // ---------------------------------------------------------------------------
  // Lists
  // ---------------------------------------------------------------------------

  function Reversed(s: seq<string>): (r: seq<string>)
    ensures |r| == |s| && forall i :: 0 <= i < |s| ==> r[i] == s[|s| - 1 - i]
  {
    seq(|s|, i requires 0 <= i < |s| => s[|s| - 1 - i])
  }

  function Bulks(items: seq<string>): seq<string> {
    seq(|items|, i requires 0 <= i < |items| => BulkReply(items[i]))
  }

  function Push(db: Db, argv: Argv, head: bool): Effect
    requires |argv| >= 3
  {
    var key := argv[1];
    if key in db && !db[key].List? then Read(db, WRONG_TYPE)
    else
      var l := if key in db then db[key].items else [];
      var l' := if head then Reversed(argv[2..]) + l else l + argv[2..];
      Wrote(db[key := List(l')], IntReply(|l'|))
  }

  function Min(a: int, b: int): int {
    if a < b then a else b
  }

  /** The first `n` items popped off one end, in the order they come off. */
  function Taken(l: seq<string>, n: nat, head: bool): seq<string>
    requires n <= |l|
  {
    if head then l[..n] else Reversed(l[|l| - n..])
  }

  function Leftover(l: seq<string>, n: nat, head: bool): seq<string>
    requires n <= |l|
  {
    if head then l[n..] else l[..|l| - n]
  }

  function PopText(l: seq<string>, n: nat, head: bool, hasCount: bool): string
    requires n <= |l|
  {
    var items := Joined(Bulks(Taken(l, n, head)));
    if hasCount then ArrayHeader(n) + items else if n == 0 then NULL_BULK else items
  }

  function Pop(db: Db, argv: Argv, head: bool): Effect
    requires |argv| >= 2
  {
    var key := argv[1];
    var hasCount := |argv| == 3;
    var count := if hasCount then ParseInt(argv[2]) else Some(1);
    if key in db && !db[key].List? then Read(db, WRONG_TYPE)
    else if count == None || count.value < 0 then Read(db, NOT_INT)
    else if key !in db then Read(db, if hasCount then NULL_ARRAY else NULL_BULK)
    else
      var l := db[key].items;
      var n := Min(count.value, |l|);
      Wrote(Store(db, key, List(Leftover(l, n, head))), PopText(l, n, head, hasCount))
  }

  function LSet(db: Db, key: string, indexText: string, value: string): Effect {
    if key !in db then Read(db, NO_KEY)
    else if !db[key].List? then Read(db, WRONG_TYPE)
    else
      var l, parsed := db[key].items, ParseInt(indexText);
      if parsed == None then Read(db, NOT_INT)
      else
        var i := if parsed.value < 0 then parsed.value + |l| else parsed.value;
        if i < 0 || i >= |l| then Read(db, ErrorReply("ERR index out of range"))
        else Wrote(db[key := List(l[i := value])], OK)
  }

  // ---------------------------------------------------------------------------
  // Sets
  // ---------------------------------------------------------------------------

  function SAdd(db: Db, argv: Argv): Effect
    requires |argv| >= 2
  {
    var key := argv[1];
    if key in db && !db[key].Set? then Read(db, WRONG_TYPE)
    else
      var m := if key in db then db[key].members else {};
      var added := ArgSet(argv, 2) - m;
      Effect(db[key := Set(m + added)], added != {}, IntReply(|added|))
  }

  function SRem(db: Db, argv: Argv): Effect
    requires |argv| >= 2
  {
    var key := argv[1];
    if key !in db then Read(db, IntReply(0))
    else if !db[key].Set? then Read(db, WRONG_TYPE)
    else
      var m := db[key].members;
      var gone := m * ArgSet(argv, 2);
      Effect(Store(db, key, Set(m - gone)), gone != {}, IntReply(|gone|))
  }

  // ---------------------------------------------------------------------------
  // Sorted sets
  // ---------------------------------------------------------------------------

  datatype ZFlags = ZFlags(nx: bool, xx: bool, ch: bool, incr: bool, gt: bool, lt: bool)

  const NoZFlags := ZFlags(false, false, false, false, false, false)

  datatype ZOptions = ZOptions(flags: ZFlags, next: nat)

  function ReadZFlags(argv: Argv, i: nat, f: ZFlags): (r: ZOptions)
    requires i <= |argv|
    ensures i <= r.next <= |argv|
    decreases |argv| - i
  {
    if i == |argv| then ZOptions(f, i)
    else
      var opt := Lower(argv[i]);
      if opt == "nx" then ReadZFlags(argv, i + 1, f.(nx := true))
      else if opt == "xx" then ReadZFlags(argv, i + 1, f.(xx := true))
      else if opt == "ch" then ReadZFlags(argv, i + 1, f.(ch := true))
      else if opt == "incr" then ReadZFlags(argv, i + 1, f.(incr := true))
      else if opt == "gt" then ReadZFlags(argv, i + 1, f.(gt := true))
      else if opt == "lt" then ReadZFlags(argv, i + 1, f.(lt := true))
      else ZOptions(f, i)
  }

  /** The scores so far, how many members were added and changed, the last score set, and whether a score was bad. */
  datatype ZAdded = ZAdded(scores: map<string, int>, added: nat, changed: nat, last: Option<int>, bad: bool)

  function AddScore(f: ZFlags, z: ZAdded, member: string, score: int): ZAdded {
    if member !in z.scores then
      if f.xx then z else ZAdded(z.scores[member := score], z.added + 1, z.changed + 1, Some(score), z.bad)
    else
      var cur := z.scores[member];
      if f.nx || (f.gt && score <= cur) || (f.lt && score >= cur) then z
      else if cur != score then ZAdded(z.scores[member := score], z.added, z.changed + 1, Some(score), z.bad)
      else z.(last := Some(score))
  }

  function AddScores(ext: Outside, f: ZFlags, argv: Argv, i: nat, z: ZAdded): ZAdded
    requires i <= |argv|
    decreases |argv| - i
  {
    if i + 1 >= |argv| then z
    else if ext.parse(argv[i]) == None then z.(bad := true)
    else
      var given, member := ext.parse(argv[i]).value, argv[i + 1];
      var score := if f.incr then ext.add(given, if member in z.scores then z.scores[member] else ext.zero) else given;
      AddScores(ext, f, argv, i + 2, AddScore(f, z, member, score))
  }

  /** The score given last for a member, before any that cannot be read. */
  function LastGiven(ext: Outside, argv: Argv, i: nat, member: string): Option<int>
    requires i <= |argv|
    decreases |argv| - i
  {
    if i + 1 >= |argv| || ext.parse(argv[i]) == None then None
    else
      match LastGiven(ext, argv, i + 2, member)
      case Some(score) => Some(score)
      case None => if argv[i + 1] == member then ext.parse(argv[i]) else None
  }

  /** What ZADD's flags mean for a member: NX changes no score that was there, XX adds none, GT never lowers and LT
      never raises one; a member without a readable score in the arguments stays as it was; without flags the last score
      counts. */
  ghost predicate ScoreMeans(f: ZFlags, before: map<string, int>, after: map<string, int>, m: string,
      given: Option<int>) {
    && (m in before ==> m in after)
    && (f.nx && m in before ==> after[m] == before[m])
    && (f.xx && m !in before ==> m !in after)
    && (f.gt && m in before ==> after[m] >= before[m])
    && (f.lt && m in before ==> after[m] <= before[m])
    && (given == None ==> (m in after <==> m in before) && (m in before ==> after[m] == before[m]))
    && (given.Some? && f == NoZFlags.(ch := f.ch) ==> m in after && after[m] == given.value)
    && (given.Some? && !f.xx ==> m in after)
  }

  /** One score, then whatever the rest of the arguments mean. */
  lemma AddScoreMeans(f: ZFlags, z: ZAdded, member: string, score: int, after: map<string, int>, m: string,
      given: Option<int>, rest: Option<int>)
    requires f.incr || given == (if rest == None && member == m then Some(score) else rest)
    requires f.incr ==> (given == None <==> rest == None && member != m)
    requires ScoreMeans(f, AddScore(f, z, member, score).scores, after, m, rest)
    ensures ScoreMeans(f, z.scores, after, m, given)
  {
  }

  lemma {:induction false} AddScoresMeans(ext: Outside, f: ZFlags, argv: Argv, i: nat, z: ZAdded, m: string)
    requires i <= |argv|
    ensures ScoreMeans(f, z.scores, AddScores(ext, f, argv, i, z).scores, m, LastGiven(ext, argv, i, m))
    decreases |argv| - i
  {
    if i + 1 < |argv| && ext.parse(argv[i]) != None {
      var given, member := ext.parse(argv[i]).value, argv[i + 1];
      var score := if f.incr then ext.add(given, if member in z.scores then z.scores[member] else ext.zero) else given;
      var next := AddScore(f, z, member, score);
      AddScoresMeans(ext, f, argv, i + 2, next, m);
      hide ScoreMeans, AddScore;
      AddScoreMeans(f, z, member, score, AddScores(ext, f, argv, i + 2, next).scores, m,
        LastGiven(ext, argv, i, m), LastGiven(ext, argv, i + 2, m));
    }
  }

  /** The members counted as added are those that are new. */
  lemma {:induction false} AddedAreNew(ext: Outside, f: ZFlags, argv: Argv, i: nat, z: ZAdded)
    requires i <= |argv|
    ensures var r := AddScores(ext, f, argv, i, z);
      |r.scores| - |z.scores| == r.added - z.added
    decreases |argv| - i
  {
    if i + 1 < |argv| && ext.parse(argv[i]) != None {
      var given, member := ext.parse(argv[i]).value, argv[i + 1];
      var score := if f.incr then ext.add(given, if member in z.scores then z.scores[member] else ext.zero) else given;
      AddedAreNew(ext, f, argv, i + 2, AddScore(f, z, member, score));
    }
  }

  function ScoresOf(db: Db, key: string): map<string, int> {
    if key in db && db[key].ZSet? then db[key].scores else map[]
  }

  /** What a caller of ZADD can rely on, member by member, even when a score cannot be read; without INCR and CH the
      reply counts the members that are new; other keys stay. */
  lemma ZAddByFlags(ext: Outside, db: Db, argv: Argv, m: string)
    requires |argv| >= 2 && (argv[1] in db ==> db[argv[1]].ZSet?)
    requires var o := ReadZFlags(argv, 2, NoZFlags); o.next < |argv| && (|argv| - o.next) % 2 == 0
    ensures var key, o, e := argv[1], ReadZFlags(argv, 2, NoZFlags), ZAdd(ext, db, argv);
      && e.Effect?
      && ScoreMeans(o.flags, ScoresOf(db, key), ScoresOf(e.db, key), m, LastGiven(ext, argv, o.next, m))
      && (!o.flags.incr && !o.flags.ch && e.reply != NOT_FLOAT ==>
            e.reply == IntReply(|ScoresOf(e.db, key)| - |ScoresOf(db, key)|))
      && e.db - {key} == db - {key}
  {
    hide ScoreMeans, AddScores, ZAdd, LastGiven, ReadZFlags, IntReply, ErrorReply;
    var key, o := argv[1], ReadZFlags(argv, 2, NoZFlags);
    var start := ZAdded(ScoresOf(db, key), 0, 0, None, false);
    AddScoresMeans(ext, o.flags, argv, o.next, start, m);
    AddedAreNew(ext, o.flags, argv, o.next, start);
    ZAddLeaves(ext, db, argv);
  }

  /** ZADD leaves the scores it has worked out. */
  lemma ZAddLeaves(ext: Outside, db: Db, argv: Argv)
    requires |argv| >= 2 && (argv[1] in db ==> db[argv[1]].ZSet?)
    requires var o := ReadZFlags(argv, 2, NoZFlags); o.next < |argv| && (|argv| - o.next) % 2 == 0
    ensures var key, o, e := argv[1], ReadZFlags(argv, 2, NoZFlags), ZAdd(ext, db, argv);
      var z := AddScores(ext, o.flags, argv, o.next, ZAdded(ScoresOf(db, key), 0, 0, None, false));
      && e.Effect? && ScoresOf(e.db, key) == z.scores && e.db - {key} == db - {key}
      && (!o.flags.incr && !o.flags.ch && !z.bad ==> e.reply == IntReply(z.added))
      && (z.bad ==> e.reply == NOT_FLOAT)
  {
    hide ReadZFlags, AddScores, IntReply, BulkReply, ErrorReply;
  }

  function ZAdd(ext: Outside, db: Db, argv: Argv): Effect
    requires |argv| >= 2
  {
    var key := argv[1];
    var o := ReadZFlags(argv, 2, NoZFlags);
    if o.next >= |argv| || (|argv| - o.next) % 2 != 0 then Read(db, SYNTAX)
    else if key in db && !db[key].ZSet? then Read(db, WRONG_TYPE)
    else
      var before := if key in db then db[key].scores else map[];
      var z := AddScores(ext, o.flags, argv, o.next, ZAdded(before, 0, 0, None, false));
      if z.bad then Read(db[key := ZSet(z.scores)], NOT_FLOAT)
      else
        var reply :=
          if o.flags.incr then (if z.last.Some? then BulkReply(ext.show(z.last.value)) else NULL_BULK)
          else IntReply(if o.flags.ch then z.changed else z.added);
        Effect(Store(db, key, ZSet(z.scores)), z.added > 0 || z.changed > 0, reply)
  }

  function ZRem(db: Db, argv: Argv): Effect
    requires |argv| >= 2
  {
    var key := argv[1];
    if key !in db then Read(db, IntReply(0))
    else if !db[key].ZSet? then Read(db, WRONG_TYPE)
    else
      var s, names := db[key].scores, ArgSet(argv, 2);
      Effect(Store(db, key, ZSet(s - names)), s.Keys * names != {}, IntReply(|s.Keys * names|))
  }

  function ZIncrBy(ext: Outside, db: Db, key: string, text: string, member: string): Effect {
    if ext.parse(text) == None then Read(db, NOT_FLOAT)
    else if key in db && !db[key].ZSet? then Read(db, WRONG_TYPE)
    else
      var s := if key in db then db[key].scores else map[];
      var v := ext.add(if member in s then s[member] else ext.zero, ext.parse(text).value);
      Wrote(db[key := ZSet(s[member := v])], BulkReply(ext.show(v)))
  }
}

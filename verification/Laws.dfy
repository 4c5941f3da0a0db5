/** What each command does, told from its word and its arguments, on any keyspace. */
module Laws {
  import opened Options
  import opened Resp
  import opened Pipelines
  import opened Routing
  import opened Replies
  import opened Handlers
  import opened OptionWords
  import R = Replay

  // ---------------------------------------------------------------------------
  // Outcomes
  // ---------------------------------------------------------------------------

  /** Nothing is changed, and the client is told this. */
  ghost predicate Tells(e: Effect, db: Db, r: Reply) {
    e.Effect? && e.db == db && !e.dirty && Says(e.reply, r)
  }

  /** The key holds the object afterwards, no other key is touched, and the client is told this. */
  ghost predicate Stores(e: Effect, db: Db, key: string, o: Obj, r: Reply) {
    && e.Effect? && e.dirty && Says(e.reply, r)
    && key in e.db && e.db[key] == o && e.db - {key} == db - {key}
  }

  /** The keyspace left behind. */
  function After(e: Effect): Db {
    if e.Effect? then e.db else map[]
  }

  const WRONG_KIND := "WRONGTYPE Operation against a key holding the wrong kind of value"
  const NO_INTEGER := "ERR value is not an integer or out of range"

  lemma NotIntSays()
    ensures Says(NOT_INT, Failed(NO_INTEGER))
  {
    ErrorSays(NO_INTEGER);
  }

  lemma NoKeySays()
    ensures Says(NO_KEY, Failed("ERR no such key"))
  {
    ErrorSays("ERR no such key");
  }

  ghost predicate Row(name: string, v: R.Verb) {
    R.VerbOf(name) == Some(v) && !R.Foreign(name)
  }

  /** A command word of the table is run by its verb, or refused for its number of arguments. */
  lemma Runs(ext: Outside, db: Db, argv: Argv, name: string, v: R.Verb)
    requires argv != [] && Lower(argv[0]) == name && Row(name, v)
    ensures R.Modelled(argv)
    ensures R.Exec(ext, db, argv) ==
      if R.Fits(v, |argv|) then R.Apply(ext, v, db, argv) else Effect(db, false, WrongArity(name))
  {
    hide Lower, R.VerbOf, R.Foreign, R.Apply, R.Fits;
  }

  lemma StoresPut(db: Db, key: string, o: Obj)
    ensures db[key := o] - {key} == db - {key}
  {
  }

  // ---------------------------------------------------------------------------
  // Counters
  // ---------------------------------------------------------------------------

  /** The command asks to add `add` to the number at its key. */
  ghost predicate Counts(argv: Argv, add: int) {
    && argv != []
    && match |argv|
       case 2 => (Lower(argv[0]) == "incr" && add == 1) || (Lower(argv[0]) == "decr" && add == -1)
       case 3 =>
         || (Lower(argv[0]) == "incrby" && ParseInt(argv[2]) == Some(add))
         || (Lower(argv[0]) == "decrby" && ParseInt(argv[2]) == Some(-add))
       case _ => false
  }

  lemma PutStores(db: Db, key: string, o: Obj, reply: string, r: Reply)
    requires Says(reply, r)
    ensures Stores(Effect(db[key := o], true, reply), db, key, o, r)
  {
    hide Says;
  }

  lemma ReadTells(db: Db, reply: string, r: Reply)
    requires Says(reply, r)
    ensures Tells(Effect(db, false, reply), db, r)
  {
    hide Says;
  }

  lemma WrongKindTells(db: Db)
    ensures Tells(Effect(db, false, WRONG_TYPE), db, Failed(WRONG_KIND))
  {
    WrongTypeSays();
    hide Says, ErrorReply;
  }

  lemma NothingTells(db: Db)
    ensures Tells(Effect(db, false, NULL_BULK), db, Nil) && Tells(Effect(db, false, NULL_ARRAY), db, NilArray)
  {
    NilSays();
    NilArraySays(NULL_ARRAY);
    hide Says;
  }

  /** The number a key holds: zero when it is missing. */
  function NumberAt(db: Db, key: string): Option<int> {
    if key !in db then Some(0) else if db[key].Str? then ParseInt(db[key].s) else None
  }

  lemma CounterRows()
    ensures Row("incr", R.INCR) && Row("decr", R.DECR)
    ensures Row("incrby", R.INCRBY) && Row("decrby", R.DECRBY)
  {
  }

  /** INCR, DECR, INCRBY and DECRBY: the text stored reads back as the sum, and the reply carries it. DECRBY of the
      least 64-bit integer has no defined outcome. */
  lemma CounterLaw(ext: Outside, db: Db, argv: Argv, add: int)
    requires Counts(argv, add)
    ensures R.Modelled(argv)
    ensures var e, key := R.Exec(ext, db, argv), argv[1];
      if add == -INT64_MIN then e == Undefined
      else if key in db && !db[key].Str? then Tells(e, db, Failed(WRONG_KIND))
      else if NumberAt(db, key) == None then Tells(e, db, Failed(NO_INTEGER))
      else
        var sum := NumberAt(db, key).value + add;
        if !(INT64_MIN <= sum <= INT64_MAX) then Tells(e, db, Failed("ERR increment or decrement would overflow"))
        else
          && e.Effect? && key in e.db && e.db[key].Str? && ParseInt(e.db[key].s) == Some(sum)
          && Stores(e, db, key, e.db[key], Int(sum))
  {
    CounterRuns(ext, db, argv, add);
    hide *;
    Adding(db, argv[1], add);
  }

  lemma CounterRuns(ext: Outside, db: Db, argv: Argv, add: int)
    requires Counts(argv, add)
    ensures R.Modelled(argv)
    ensures R.Exec(ext, db, argv) == if add == -INT64_MIN then Undefined else IncrBy(db, argv[1], add)
  {
    hide Lower, Row, R.Exec, R.Modelled, R.Fits, R.Apply, ParseInt, IncrBy;
    CounterRows();
    if Lower(argv[0]) == "incr" {
      Runs(ext, db, argv, "incr", R.INCR);
      CounterApplies(ext, db, argv, R.INCR, add);
    } else if Lower(argv[0]) == "decr" {
      Runs(ext, db, argv, "decr", R.DECR);
      CounterApplies(ext, db, argv, R.DECR, add);
    } else if Lower(argv[0]) == "incrby" {
      Runs(ext, db, argv, "incrby", R.INCRBY);
      CounterApplies(ext, db, argv, R.INCRBY, add);
    } else {
      Runs(ext, db, argv, "decrby", R.DECRBY);
      CounterApplies(ext, db, argv, R.DECRBY, add);
    }
  }

  lemma CounterApplies(ext: Outside, db: Db, argv: Argv, v: R.Verb, add: int)
    requires match v
      case INCR => |argv| == 2 && add == 1
      case DECR => |argv| == 2 && add == -1
      case INCRBY => |argv| == 3 && ParseInt(argv[2]) == Some(add)
      case DECRBY => |argv| == 3 && ParseInt(argv[2]) == Some(-add)
      case _ => false
    ensures R.Fits(v, |argv|)
    ensures R.Apply(ext, v, db, argv) == if add == -INT64_MIN then Undefined else IncrBy(db, argv[1], add)
  {
    hide ParseInt, IncrBy;
    if v == R.INCRBY {
      IntFits(argv[2]);
    }
  }

  lemma IntFits(text: string)
    ensures ParseInt(text).Some? ==> INT64_MIN <= ParseInt(text).value <= INT64_MAX
  {
  }

  lemma Adding(db: Db, key: string, add: int)
    ensures var e := IncrBy(db, key, add);
      if key in db && !db[key].Str? then Tells(e, db, Failed(WRONG_KIND))
      else if NumberAt(db, key) == None then Tells(e, db, Failed(NO_INTEGER))
      else
        var sum := NumberAt(db, key).value + add;
        if !(INT64_MIN <= sum <= INT64_MAX) then Tells(e, db, Failed("ERR increment or decrement would overflow"))
        else
          && e.Effect? && key in e.db && e.db[key].Str? && ParseInt(e.db[key].s) == Some(sum)
          && Stores(e, db, key, e.db[key], Int(sum))
  {
    WrongTypeSays();
    NotIntSays();
    OverflowSays();
    hide ParseInt, Dec, Says, IntReply, ErrorReply;
    if NumberAt(db, key).Some? {
      var sum := NumberAt(db, key).value + add;
      IntSays(sum);
      if INT64_MIN <= sum <= INT64_MAX {
        DecRead(sum);
        StoresPut(db, key, Str(Dec(sum)));
      }
    }
  }

  lemma OverflowSays()
    ensures Says(OVERFLOW, Failed("ERR increment or decrement would overflow"))
  {
    ErrorSays("ERR increment or decrement would overflow");
  }

  /** A decrement undoes an increment: the key holds the number it held. */
  lemma CounterUndoes(ext: Outside, db: Db, there: Argv, back: Argv, add: int)
    requires Counts(there, add) && Counts(back, -add) && there[1] == back[1] && add != INT64_MIN
    requires var e := R.Exec(ext, db, there); e.Effect? && e.dirty
    ensures var e := R.Exec(ext, db, there);
      var e' := R.Exec(ext, e.db, back);
      && e'.Effect? && e'.dirty && NumberAt(e'.db, there[1]) == NumberAt(db, there[1])
      && e'.db - {there[1]} == db - {there[1]}
  {
    CounterRuns(ext, db, there, add);
    var e := R.Exec(ext, db, there);
    CounterRuns(ext, e.db, back, -add);
    hide *;
    AddingUndoes(db, there[1], add);
  }

  lemma AddingUndoes(db: Db, key: string, add: int)
    requires var e := IncrBy(db, key, add); e.Effect? && e.dirty
    ensures var e' := IncrBy(IncrBy(db, key, add).db, key, -add);
      e'.Effect? && e'.dirty && NumberAt(e'.db, key) == NumberAt(db, key) && e'.db - {key} == db - {key}
  {
    hide ParseInt, Dec, IntReply, ErrorReply;
    var n := NumberAt(db, key).value;
    DecRead(n + add);
    NumberInRange(db, key);
    DecRead(n);
    StoresPut(db, key, Str(Dec(n + add)));
  }

  lemma NumberInRange(db: Db, key: string)
    ensures NumberAt(db, key).Some? ==> INT64_MIN <= NumberAt(db, key).value <= INT64_MAX
  {
  }

  // ---------------------------------------------------------------------------
  // Strings
  // ---------------------------------------------------------------------------

  lemma StringRows()
    ensures Row("setnx", R.SETNX) && Row("getset", R.GETSET)
    ensures Row("append", R.APPEND) && Row("setrange", R.SETRANGE)
    ensures Row("incrbyfloat", R.INCRBYFLOAT) && Row("mset", R.MSET)
    ensures Row("set", R.SET)
  {
  }

  ghost predicate WrongKind(db: Db, key: string) {
    key in db && !db[key].Str?
  }

  function TextAt(db: Db, key: string): string {
    if key in db && db[key].Str? then db[key].s else ""
  }

  /** SETNX stores exactly when there is nothing at the key, of whatever kind. */
  ghost predicate SetNxDone(e: Effect, db: Db, key: string, value: string) {
    if key in db then Tells(e, db, Int(0)) else Stores(e, db, key, Str(value), Int(1))
  }

  /** GETSET tells of the old string and stores the new one. */
  ghost predicate GetSetDone(e: Effect, db: Db, key: string, value: string) {
    if WrongKind(db, key) then Tells(e, db, Failed(WRONG_KIND)) else Stores(e, db, key, Str(value), Told(db, key))
  }

  /** APPEND puts the value behind what was there and tells the new length. */
  ghost predicate AppendDone(e: Effect, db: Db, key: string, value: string) {
    var text := TextAt(db, key) + value;
    if WrongKind(db, key) then Tells(e, db, Failed(WRONG_KIND)) else Stores(e, db, key, Str(text), Int(|text|))
  }

  /** SETRANGE: the value from the offset on, what was there elsewhere, zeros where nothing was. */
  ghost predicate SetRangeDone(e: Effect, db: Db, key: string, offset: Option<int>, value: string) {
    if offset == None || offset.value < 0 then Tells(e, db, Failed(NO_INTEGER))
    else if WrongKind(db, key) then Tells(e, db, Failed(WRONG_KIND))
    else
      && e.Effect? && key in e.db && e.db[key].Str?
      && var old_, text, o := TextAt(db, key), e.db[key].s, offset.value;
        && |text| == (if o + |value| > |old_| then o + |value| else |old_|)
        && (forall i :: 0 <= i < |text| ==>
              text[i] == if o <= i < o + |value| then value[i - o] else if i < |old_| then old_[i] else '\0')
        && Stores(e, db, key, Str(text), Int(|text|))
  }

  /** INCRBYFLOAT stores and tells the printed sum. */
  ghost predicate FloatAdded(ext: Outside, e: Effect, db: Db, key: string, text: string) {
    var cur := if key in db then ext.parse(TextAt(db, key)) else Some(ext.zero);
    if ext.parse(text) == None then Tells(e, db, Failed("ERR value is not a valid float"))
    else if WrongKind(db, key) then Tells(e, db, Failed(WRONG_KIND))
    else if cur == None then Tells(e, db, Failed("ERR value is not a valid float"))
    else
      var sum := ext.show(ext.add(cur.value, ext.parse(text).value));
      Stores(e, db, key, Str(sum), Text(sum))
  }

  lemma SetNxLaw(ext: Outside, db: Db, argv: Argv)
    requires |argv| == 3 && Lower(argv[0]) == "setnx"
    ensures R.Modelled(argv) && SetNxDone(R.Exec(ext, db, argv), db, argv[1], argv[2])
  {
    StringRows();
    Runs(ext, db, argv, "setnx", R.SETNX);
    IntSays(0);
    IntSays(1);
    StoresPut(db, argv[1], Str(argv[2]));
    hide Lower, Says, IntReply, R.Exec, R.Modelled, Row;
  }

  lemma GetSetLaw(ext: Outside, db: Db, argv: Argv)
    requires |argv| == 3 && Lower(argv[0]) == "getset"
    ensures R.Modelled(argv) && GetSetDone(R.Exec(ext, db, argv), db, argv[1], argv[2])
  {
    StringRows();
    Runs(ext, db, argv, "getset", R.GETSET);
    WrongTypeSays();
    NilSays();
    BulkSays(TextAt(db, argv[1]));
    StoresPut(db, argv[1], Str(argv[2]));
    hide Lower, Says, BulkReply, ErrorReply, R.Exec, R.Modelled, Row;
  }

  lemma AppendLaw(ext: Outside, db: Db, argv: Argv)
    requires |argv| == 3 && Lower(argv[0]) == "append"
    ensures R.Modelled(argv) && AppendDone(R.Exec(ext, db, argv), db, argv[1], argv[2])
  {
    hide *;
    StringRows();
    Runs(ext, db, argv, "append", R.APPEND);
    AppendApplies(ext, db, argv);
    Appended(db, argv[1], argv[2]);
  }

  lemma AppendApplies(ext: Outside, db: Db, argv: Argv)
    requires |argv| == 3
    ensures R.Fits(R.APPEND, |argv|) && R.Apply(ext, R.APPEND, db, argv) == Append(db, argv[1], argv[2])
  {
    hide Append;
  }

  lemma Appended(db: Db, key: string, value: string)
    ensures AppendDone(Append(db, key, value), db, key, value)
  {
    WrongTypeSays();
    hide Says, IntReply, ErrorReply;
    var text := TextAt(db, key) + value;
    assert "" + value == value;
    IntSays(|text|);
    StoresPut(db, key, Str(text));
  }

  lemma SetRangeLaw(ext: Outside, db: Db, argv: Argv)
    requires |argv| == 4 && Lower(argv[0]) == "setrange"
    ensures R.Modelled(argv) && SetRangeDone(R.Exec(ext, db, argv), db, argv[1], ParseInt(argv[2]), argv[3])
  {
    hide *;
    StringRows();
    Runs(ext, db, argv, "setrange", R.SETRANGE);
    SetRangeApplies(ext, db, argv);
    Overlaid(db, argv[1], argv[2], argv[3]);
  }

  lemma SetRangeApplies(ext: Outside, db: Db, argv: Argv)
    requires |argv| == 4
    ensures R.Fits(R.SETRANGE, |argv|) && R.Apply(ext, R.SETRANGE, db, argv) == SetRange(db, argv[1], argv[2], argv[3])
  {
    hide SetRange;
  }

  lemma Overlaid(db: Db, key: string, offset: string, value: string)
    ensures SetRangeDone(SetRange(db, key, offset, value), db, key, ParseInt(offset), value)
  {
    hide ParseInt, Says, IntReply, ErrorReply, Overlay;
    NotIntSays();
    WrongTypeSays();
    if ParseInt(offset).Some? && ParseInt(offset).value >= 0 && !WrongKind(db, key) {
      var o := ParseInt(offset).value;
      var text := Overlay(TextAt(db, key), o, value);
      OverlayIs(TextAt(db, key), o, value);
      IntSays(|text|);
      StoresPut(db, key, Str(text));
    }
  }

  lemma OverlayIs(data: string, o: nat, value: string)
    ensures var text := Overlay(data, o, value);
      && |text| == (if o + |value| > |data| then o + |value| else |data|)
      && forall i :: 0 <= i < |text| ==>
        text[i] == if o <= i < o + |value| then value[i - o] else if i < |data| then data[i] else '\0'
  {
  }

  lemma IncrByFloatLaw(ext: Outside, db: Db, argv: Argv)
    requires |argv| == 3 && Lower(argv[0]) == "incrbyfloat"
    ensures R.Modelled(argv) && FloatAdded(ext, R.Exec(ext, db, argv), db, argv[1], argv[2])
  {
    hide *;
    StringRows();
    Runs(ext, db, argv, "incrbyfloat", R.INCRBYFLOAT);
    IncrByFloatApplies(ext, db, argv);
    AddingFloat(ext, db, argv[1], argv[2]);
  }

  lemma IncrByFloatApplies(ext: Outside, db: Db, argv: Argv)
    requires |argv| == 3
    ensures R.Fits(R.INCRBYFLOAT, |argv|)
    ensures R.Apply(ext, R.INCRBYFLOAT, db, argv) == IncrByFloat(ext, db, argv[1], argv[2])
  {
    hide IncrByFloat;
  }

  lemma AddingFloat(ext: Outside, db: Db, key: string, text: string)
    ensures FloatAdded(ext, IncrByFloat(ext, db, key, text), db, key, text)
  {
    WrongTypeSays();
    NotFloatSays();
    hide Says, BulkReply, ErrorReply;
    var cur := if key in db then ext.parse(TextAt(db, key)) else Some(ext.zero);
    if cur.Some? && ext.parse(text).Some? {
      var sum := ext.show(ext.add(cur.value, ext.parse(text).value));
      BulkSays(sum);
      StoresPut(db, key, Str(sum));
    }
  }

  lemma NotFloatSays()
    ensures Says(NOT_FLOAT, Failed("ERR value is not a valid float"))
  {
    ErrorSays("ERR value is not a valid float");
  }

  /** A pair starts at `n`, counting from `i`. */
  predicate PairAt(argv: Argv, i: nat, n: nat) {
    i <= n && n + 1 < |argv| && (n - i) % 2 == 0
  }

  /** The last pair for a key among the arguments from position `i` on starts at `k`. */
  ghost predicate LastPair(argv: Argv, i: nat, k: nat, key: string) {
    PairAt(argv, i, k) && argv[k] == key && forall n: nat :: k < n && PairAt(argv, i, n) ==> argv[n] != key
  }

  ghost predicate NoPair(argv: Argv, i: nat, key: string) {
    forall n: nat :: PairAt(argv, i, n) ==> argv[n] != key
  }

  /** MSET: every key named has the value last given for it, and the others stay. */
  lemma MSetLaw(ext: Outside, db: Db, argv: Argv, key: string, k: nat)
    requires |argv| >= 3 && |argv| % 2 == 1 && Lower(argv[0]) == "mset"
    ensures R.Modelled(argv)
    ensures var e := R.Exec(ext, db, argv);
      && e.Effect? && e.dirty && Says(e.reply, Simple("OK"))
      && (NoPair(argv, 1, key) ==> (key in e.db <==> key in db) && (key in db ==> e.db[key] == db[key]))
      && (LastPair(argv, 1, k, key) ==> key in e.db && e.db[key] == Str(argv[k + 1]))
  {
    hide *;
    StringRows();
    Runs(ext, db, argv, "mset", R.MSET);
    MSetApplies(ext, db, argv);
    OkSays();
    PairsStored(db, argv, 1, key, k);
  }

  lemma MSetApplies(ext: Outside, db: Db, argv: Argv)
    requires |argv| >= 3
    ensures R.Fits(R.MSET, |argv|) && R.Apply(ext, R.MSET, db, argv) ==
      if |argv| % 2 == 1 then Effect(StorePairs(db, argv, 1), true, OK) else Effect(db, false, WrongArity(argv[0]))
  {
    hide StorePairs, OK, WrongArity;
  }

  lemma {:induction false} PairsStored(db: Db, argv: Argv, i: nat, key: string, k: nat)
    requires i <= |argv|
    ensures var r := StorePairs(db, argv, i);
      && (NoPair(argv, i, key) ==> (key in r <==> key in db) && (key in db ==> r[key] == db[key]))
      && (LastPair(argv, i, k, key) ==> key in r && r[key] == Str(argv[k + 1]))
    decreases |argv| - i
  {
    if i + 1 < |argv| {
      PairsStored(db[argv[i] := Str(argv[i + 1])], argv, i + 2, key, k);
      NextPair(argv, i, k, key);
      hide LastPair, NoPair;
    }
  }

  lemma NextPair(argv: Argv, i: nat, k: nat, key: string)
    requires i + 1 < |argv|
    ensures NoPair(argv, i, key) <==> argv[i] != key && NoPair(argv, i + 2, key)
    ensures LastPair(argv, i, k, key) <==>
      if k == i then argv[i] == key && NoPair(argv, i + 2, key) else LastPair(argv, i + 2, k, key)
  {
    assert forall n: nat :: PairAt(argv, i, n) <==> n == i || PairAt(argv, i + 2, n);
  }

  /** MSET without a value for every key is refused. */
  lemma MSetRefuses(ext: Outside, db: Db, argv: Argv)
    requires |argv| >= 3 && |argv| % 2 == 0 && Lower(argv[0]) == "mset"
    ensures R.Modelled(argv)
    ensures Tells(R.Exec(ext, db, argv), db, Failed("ERR wrong number of arguments for '" + argv[0] + "' command"))
  {
    hide *;
    StringRows();
    Runs(ext, db, argv, "mset", R.MSET);
    MSetApplies(ext, db, argv);
    ArityTells(db, argv[0]);
  }

  lemma ArityTells(db: Db, name: string)
    ensures Tells(Effect(db, false, WrongArity(name)), db,
      Failed("ERR wrong number of arguments for '" + name + "' command"))
  {
    ErrorSays("ERR wrong number of arguments for '" + name + "' command");
    hide Says, ErrorReply;
  }

  /** SET, by the words among its arguments. */
  lemma SetLaw(ext: Outside, db: Db, argv: Argv)
    requires |argv| >= 3 && Lower(argv[0]) == "set"
    ensures R.Modelled(argv)
    ensures var e, key := R.Exec(ext, db, argv), argv[1];
      if !AllGood(argv) then
        exists k: nat :: FirstBad(argv, k) && Tells(e, db, Failed(
          if TimeWord(argv, k) then "ERR invalid expire time in 'set' command" else "ERR syntax error"))
      else if SetBlocked(db, argv) then
        Tells(e, db,
          if SetGiven(argv, "get") && SetGiven(argv, "nx") && HoldsString(db, key) then Text(db[key].s) else Nil)
      else Stores(e, db, key, Str(argv[2]), if SetGiven(argv, "get") then Told(db, key) else Simple("OK"))
  {
    hide *;
    StringRows();
    Runs(ext, db, argv, "set", R.SET);
    SetApplies(ext, db, argv);
    StoresPut(db, argv[1], Str(argv[2]));
    SetOutcome(db, argv);
  }

  lemma SetApplies(ext: Outside, db: Db, argv: Argv)
    requires |argv| >= 3
    ensures R.Fits(R.SET, |argv|) && R.Apply(ext, R.SET, db, argv) == SetString(db, argv)
  {
    hide SetString;
  }

  lemma SetOutcome(db: Db, argv: Argv)
    requires |argv| >= 3
    ensures var e, key := SetString(db, argv), argv[1];
      if !AllGood(argv) then
        exists k: nat :: FirstBad(argv, k) && Tells(e, db, Failed(
          if TimeWord(argv, k) then "ERR invalid expire time in 'set' command" else "ERR syntax error"))
      else if SetBlocked(db, argv) then
        Tells(e, db,
          if SetGiven(argv, "get") && SetGiven(argv, "nx") && HoldsString(db, key) then Text(db[key].s) else Nil)
      else Stores(e, db, key, Str(argv[2]), if SetGiven(argv, "get") then Told(db, key) else Simple("OK"))
  {
    NeverUndefined(db, argv);
    if !AllGood(argv) {
      SetRefuses(db, map[], argv, 0);
    } else if SetBlocked(db, argv) {
      SetKeepsOff(db, map[], argv, 0);
    } else {
      SetStores(db, map[], argv, 0);
      StoresPut(db, argv[1], Str(argv[2]));
    }
    hide SetString, SetDeadlines, AllGood, FirstBad, SetBlocked, SetGiven, TimeWord, Says;
  }

  lemma NeverUndefined(db: Db, argv: Argv)
    requires |argv| >= 3
    ensures SetString(db, argv).Effect?
  {
    hide ReadOptions, BulkReply, ErrorReply;
  }

  // ---------------------------------------------------------------------------
  // Keys
  // ---------------------------------------------------------------------------

  lemma KeyRows()
    ensures Row("del", R.DEL) && Row("unlink", R.UNLINK)
    ensures Row("rename", R.RENAME)
  {
  }

  ghost predicate Named(argv: Argv, i: nat, name: string) {
    exists k :: i <= k < |argv| && argv[k] == name
  }

  /** DEL and UNLINK take away exactly the keys named and tell how many there were. */
  ghost predicate Deleted(e: Effect, db: Db, argv: Argv) {
    && e.Effect?
    && (forall k :: k in e.db <==> k in db && !Named(argv, 1, k)) && (forall k :: k in e.db ==> e.db[k] == db[k])
    && Says(e.reply, Int(|db| - |e.db|)) && (e.dirty <==> e.db != db)
  }

  lemma DelLaw(ext: Outside, db: Db, argv: Argv)
    requires |argv| >= 2 && Lower(argv[0]) in {"del", "unlink"}
    ensures R.Modelled(argv) && Deleted(R.Exec(ext, db, argv), db, argv)
  {
    hide *;
    KeyRows();
    if Lower(argv[0]) == "del" {
      Runs(ext, db, argv, "del", R.DEL);
      DelApplies(ext, db, argv);
    } else {
      Runs(ext, db, argv, "unlink", R.UNLINK);
      UnlinkApplies(ext, db, argv);
    }
    TakenAway(db, argv);
  }

  lemma DelApplies(ext: Outside, db: Db, argv: Argv)
    requires |argv| >= 2
    ensures R.Fits(R.DEL, |argv|) && R.Apply(ext, R.DEL, db, argv) == Del(db, argv)
  {
    hide Del;
  }

  lemma UnlinkApplies(ext: Outside, db: Db, argv: Argv)
    requires |argv| >= 2
    ensures R.Fits(R.UNLINK, |argv|) && R.Apply(ext, R.UNLINK, db, argv) == Del(db, argv)
  {
    hide Del;
  }

  lemma TakenAway(db: Db, argv: Argv)
    requires |argv| >= 1
    ensures Deleted(Del(db, argv), db, argv)
  {
    hide ArgSet, Named, Says, IntReply;
    var keys, e := ArgSet(argv, 1), Del(db, argv);
    ArgsNamed(argv, 1);
    IntSays(Present(db, keys));
    SizeWithout(db, keys);
    WithoutChanges(db, keys);
  }

  lemma ArgsNamed(argv: Argv, i: nat)
    requires i <= |argv|
    ensures forall name :: name in ArgSet(argv, i) <==> Named(argv, i, name)
  {
  }

  lemma SizeWithout<V>(m: map<string, V>, keys: set<string>)
    ensures |m - keys| == |m| - |m.Keys * keys|
    ensures |m.Keys * keys| > 0 <==> m.Keys * keys != {}
  {
    assert (m - keys).Keys == m.Keys - keys && m.Keys == (m.Keys - keys) + (m.Keys * keys);
  }

  /** RENAME moves the value, over whatever was at the new name. */
  ghost predicate Renamed(e: Effect, db: Db, from: string, to: string) {
    if from !in db then Tells(e, db, Failed("ERR no such key"))
    else
      && e.Effect? && e.dirty && Says(e.reply, Simple("OK"))
      && to in e.db && e.db[to] == db[from] && (from != to ==> from !in e.db) && e.db - {from, to} == db - {from, to}
  }

  lemma RenameLaw(ext: Outside, db: Db, argv: Argv)
    requires |argv| == 3 && Lower(argv[0]) == "rename"
    ensures R.Modelled(argv) && Renamed(R.Exec(ext, db, argv), db, argv[1], argv[2])
  {
    hide *;
    KeyRows();
    Runs(ext, db, argv, "rename", R.RENAME);
    RenameApplies(ext, db, argv);
    Moved(db, argv[1], argv[2]);
  }

  lemma RenameApplies(ext: Outside, db: Db, argv: Argv)
    requires |argv| == 3
    ensures R.Fits(R.RENAME, |argv|) && R.Apply(ext, R.RENAME, db, argv) == Rename(db, argv[1], argv[2])
  {
    hide Rename;
  }

  lemma Moved(db: Db, from: string, to: string)
    ensures Renamed(Rename(db, from, to), db, from, to)
  {
    NoKeySays();
    OkSays();
    hide Says, ErrorReply, SimpleReply;
  }

  // ---------------------------------------------------------------------------
  // Containers
  // ---------------------------------------------------------------------------

  /** The key holds the container afterwards, or is gone when the container is empty; no other key is touched. */
  ghost predicate Leaves(e: Effect, db: Db, key: string, o: Obj, changed: bool, r: Reply) {
    && e.Effect? && (e.dirty <==> changed) && Says(e.reply, r) && e.db - {key} == db - {key}
    && if Empty(o) then key !in e.db else key in e.db && e.db[key] == o
  }

  lemma StoreLeaves(db: Db, key: string, o: Obj)
    ensures var r := Store(db, key, o);
      r - {key} == db - {key} && if Empty(o) then key !in r else key in r && r[key] == o
  {
  }

  lemma HashRows()
    ensures Row("hset", R.HSET) && Row("hmset", R.HMSET)
    ensures Row("hdel", R.HDEL) && Row("hincrby", R.HINCRBY)
  {
  }

  function FieldsAt(db: Db, key: string): map<string, string> {
    if key in db && db[key].Hash? then db[key].fields else map[]
  }

  /** HSET and HMSET: every field named has the value last given for it, and the others stay. HSET tells how many are
      new. */
  ghost predicate HashSet(e: Effect, db: Db, argv: Argv, many: bool, field: string, k: nat)
    requires |argv| >= 2
  {
    var key, before, after := argv[1], FieldsAt(db, argv[1]), FieldsAt(After(e), argv[1]);
    if |argv| % 2 != 0 then Tells(e, db, Failed("ERR wrong number of arguments for '" + argv[0] + "' command"))
    else if key in db && !db[key].Hash? then Tells(e, db, Failed(WRONG_KIND))
    else
      && Stores(e, db, key, Hash(after), if many then Simple("OK") else Int(|after| - |before|))
      && (NoPair(argv, 2, field) ==>
            (field in after <==> field in before) && (field in before ==> after[field] == before[field]))
      && (LastPair(argv, 2, k, field) ==> field in after && after[field] == argv[k + 1])
  }

  lemma HSetLaw(ext: Outside, db: Db, argv: Argv, field: string, k: nat)
    requires |argv| >= 4 && Lower(argv[0]) in {"hset", "hmset"}
    ensures R.Modelled(argv)
    ensures HashSet(R.Exec(ext, db, argv), db, argv, Lower(argv[0]) == "hmset", field, k)
  {
    hide *;
    HashRows();
    if Lower(argv[0]) == "hset" {
      Runs(ext, db, argv, "hset", R.HSET);
      HSetApplies(ext, db, argv);
    } else {
      Runs(ext, db, argv, "hmset", R.HMSET);
      HMSetApplies(ext, db, argv);
    }
    FieldsSet(db, argv, field, k);
  }

  lemma HSetApplies(ext: Outside, db: Db, argv: Argv)
    requires |argv| >= 4
    ensures R.Fits(R.HSET, |argv|) && R.Apply(ext, R.HSET, db, argv) == HSet(db, argv)
  {
    hide HSet;
  }

  lemma HMSetApplies(ext: Outside, db: Db, argv: Argv)
    requires |argv| >= 4
    ensures R.Fits(R.HMSET, |argv|) && R.Apply(ext, R.HMSET, db, argv) == HSet(db, argv)
  {
    hide HSet;
  }

  lemma FieldsSet(db: Db, argv: Argv, field: string, k: nat)
    requires |argv| >= 4
    ensures HashSet(HSet(db, argv), db, argv, Lower(argv[0]) == "hmset", field, k)
  {
    hide FieldsAt, PutFields, Lower, OK, IntReply, Says, Stores, Tells, HashSet, NoPair, LastPair;
    hide ErrorReply, WRONG_TYPE, HSet;
    HSetDoes(db, argv);
    ArityTells(db, argv[0]);
    WrongKindTells(db);
    OkSays();
    var before := FieldsAt(db, argv[1]);
    var after := PutFields(before, argv, 2);
    PairsPut(before, argv, 2, field, k);
    IntSays(|after| - |before|);
    var many := Lower(argv[0]) == "hmset";
    PutStores(db, argv[1], Hash(after), if many then OK else IntReply(|after| - |before|),
      if many then Simple("OK") else Int(|after| - |before|));
    FieldsSetBy(HSet(db, argv), db, argv, many, field, k, after);
  }

  lemma HSetDoes(db: Db, argv: Argv)
    requires |argv| >= 2
    ensures |argv| % 2 != 0 ==> HSet(db, argv) == Effect(db, false, WrongArity(argv[0]))
    ensures |argv| % 2 == 0 && argv[1] in db && !db[argv[1]].Hash? ==> HSet(db, argv) == Effect(db, false, WRONG_TYPE)
    ensures |argv| % 2 == 0 && (argv[1] in db ==> db[argv[1]].Hash?) ==> HSet(db, argv) == HSetPut(db, argv)
  {
    hide WrongArity, PutFields, Lower, OK, IntReply, WRONG_TYPE;
  }

  function HSetPut(db: Db, argv: Argv): Effect
    requires |argv| >= 2
  {
    var before := FieldsAt(db, argv[1]);
    var after := PutFields(before, argv, 2);
    Effect(db[argv[1] := Hash(after)], true, if Lower(argv[0]) == "hmset" then OK else IntReply(|after| - |before|))
  }

  lemma FieldsSetBy(e: Effect, db: Db, argv: Argv, many: bool, field: string, k: nat, after: map<string, string>)
    requires |argv| >= 2
    requires |argv| % 2 != 0 ==>
      Tells(e, db, Failed("ERR wrong number of arguments for '" + argv[0] + "' command"))
    requires argv[1] in db && !db[argv[1]].Hash? && |argv| % 2 == 0 ==> Tells(e, db, Failed(WRONG_KIND))
    requires |argv| % 2 == 0 && (argv[1] in db ==> db[argv[1]].Hash?) ==>
      Stores(e, db, argv[1], Hash(after), if many then Simple("OK") else Int(|after| - |FieldsAt(db, argv[1])|))
    requires var before := FieldsAt(db, argv[1]);
      && (NoPair(argv, 2, field) ==>
            (field in after <==> field in before) && (field in before ==> after[field] == before[field]))
      && (LastPair(argv, 2, k, field) ==> field in after && after[field] == argv[k + 1])
    ensures HashSet(e, db, argv, many, field, k)
  {
    hide NoPair, LastPair, Says;
  }

  lemma {:induction false} PairsPut(fields: map<string, string>, argv: Argv, i: nat, field: string, k: nat)
    requires i <= |argv|
    ensures var r := PutFields(fields, argv, i);
      && (NoPair(argv, i, field) ==>
            (field in r <==> field in fields) && (field in fields ==> r[field] == fields[field]))
      && (LastPair(argv, i, k, field) ==> field in r && r[field] == argv[k + 1])
    decreases |argv| - i
  {
    if i + 1 < |argv| {
      PairsPut(fields[argv[i] := argv[i + 1]], argv, i + 2, field, k);
      NextPair(argv, i, k, field);
      hide LastPair, NoPair;
    }
  }

  /** HDEL takes away exactly the fields named and tells how many there were; the key goes with its last field. */
  ghost predicate FieldsDeleted(e: Effect, db: Db, argv: Argv)
    requires |argv| >= 2
  {
    var key, before := argv[1], FieldsAt(db, argv[1]);
    if key in db && !db[key].Hash? then Tells(e, db, Failed(WRONG_KIND))
    else if key !in db then Tells(e, db, Int(0))
    else
      var after := FieldsAt(After(e), key);
      && AllButNamed(before, after, argv)
      && Leaves(e, db, key, Hash(after), after != before, Int(|before| - |after|))
  }

  lemma HDelLaw(ext: Outside, db: Db, argv: Argv)
    requires |argv| >= 3 && Lower(argv[0]) == "hdel"
    ensures R.Modelled(argv) && FieldsDeleted(R.Exec(ext, db, argv), db, argv)
  {
    hide *;
    HashRows();
    Runs(ext, db, argv, "hdel", R.HDEL);
    HDelApplies(ext, db, argv);
    FieldsTaken(db, argv);
  }

  lemma HDelApplies(ext: Outside, db: Db, argv: Argv)
    requires |argv| >= 3
    ensures R.Fits(R.HDEL, |argv|) && R.Apply(ext, R.HDEL, db, argv) == HDel(db, argv)
  {
    hide HDel;
  }

  lemma FieldsTaken(db: Db, argv: Argv)
    requires |argv| >= 3
    ensures FieldsDeleted(HDel(db, argv), db, argv)
  {
    hide ArgSet, Named, Store, Says, ErrorReply, IntReply, Leaves;
    if argv[1] in db && db[argv[1]].Hash? {
      FieldsGone(db, argv, db[argv[1]].fields);
    } else {
      WrongTypeSays();
      IntSays(0);
    }
  }

  lemma FieldsGone(db: Db, argv: Argv, before: map<string, string>)
    requires |argv| >= 3 && argv[1] in db && db[argv[1]] == Hash(before)
    ensures FieldsDeleted(HDel(db, argv), db, argv)
  {
    hide HDel, Store, FieldsAt, Says, IntReply, ArgSet, AllButNamed, Empty;
    var key, names := argv[1], ArgSet(argv, 2);
    var rest := before - names;
    HDelDoes(db, argv, before);
    Without(before, argv);
    IntSays(|before.Keys * names|);
    StoreLeaves(db, key, Hash(rest));
  }

  lemma HDelDoes(db: Db, argv: Argv, before: map<string, string>)
    requires |argv| >= 3 && argv[1] in db && db[argv[1]] == Hash(before)
    ensures var key, names := argv[1], ArgSet(argv, 2);
      var stored := Store(db, key, Hash(before - names));
      && FieldsAt(db, key) == before && FieldsAt(stored, key) == before - names
      && HDel(db, argv) == Effect(stored, before.Keys * names != {}, IntReply(|before.Keys * names|))
  {
    hide IntReply, ArgSet;
  }

  lemma WithoutChanges<V>(m: map<string, V>, names: set<string>)
    ensures m - names != m <==> m.Keys * names != {}
  {
    if k :| k in m.Keys * names {
      assert k in m && k !in m - names;
    } else {
      assert forall k :: k in m ==> k !in m.Keys * names;
      assert m - names == m;
    }
  }

  /** Everything but what the arguments from the third on name. */
  ghost predicate AllButNamed<V>(before: map<string, V>, after: map<string, V>, argv: Argv) {
    && (forall k :: k in after <==> k in before && !Named(argv, 2, k))
    && (forall k :: k in after ==> after[k] == before[k])
  }

  lemma Without<V>(m: map<string, V>, argv: Argv)
    requires |argv| >= 2
    ensures var names := ArgSet(argv, 2);
      var after := m - names;
      && AllButNamed(m, after, argv)
      && |m.Keys * names| == |m| - |after| && (m.Keys * names != {} <==> after != m)
  {
    ArgsNamed(argv, 2);
    hide ArgSet, Named;
    SizeWithout(m, ArgSet(argv, 2));
    WithoutChanges(m, ArgSet(argv, 2));
  }

  /** HINCRBY: the text stored in the field reads back as the sum. A sum out of 64 bits has no defined outcome. */
  ghost predicate FieldCounted(e: Effect, db: Db, key: string, field: string, add: Option<int>) {
    var before := FieldsAt(db, key);
    var cur := if field in before then ParseInt(before[field]) else Some(0);
    if add == None then Tells(e, db, Failed(NO_INTEGER))
    else if key in db && !db[key].Hash? then Tells(e, db, Failed(WRONG_KIND))
    else if cur == None then Tells(e, db, Failed("ERR hash value is not an integer"))
    else if !(INT64_MIN <= cur.value + add.value <= INT64_MAX) then e == Undefined
    else exists text ::
      ParseInt(text) == Some(cur.value + add.value)
      && Stores(e, db, key, Hash(before[field := text]), Int(cur.value + add.value))
  }

  lemma HIncrByLaw(ext: Outside, db: Db, argv: Argv)
    requires |argv| == 4 && Lower(argv[0]) == "hincrby"
    ensures R.Modelled(argv) && FieldCounted(R.Exec(ext, db, argv), db, argv[1], argv[2], ParseInt(argv[3]))
  {
    hide *;
    HashRows();
    Runs(ext, db, argv, "hincrby", R.HINCRBY);
    HIncrByApplies(ext, db, argv);
    CountingField(db, argv[1], argv[2], argv[3]);
  }

  lemma HIncrByApplies(ext: Outside, db: Db, argv: Argv)
    requires |argv| == 4
    ensures R.Fits(R.HINCRBY, |argv|) && R.Apply(ext, R.HINCRBY, db, argv) == HIncrBy(db, argv[1], argv[2], argv[3])
  {
    hide HIncrBy;
  }

  lemma CountingField(db: Db, key: string, field: string, text: string)
    ensures FieldCounted(HIncrBy(db, key, field, text), db, key, field, ParseInt(text))
  {
    WrongTypeSays();
    NotIntSays();
    ErrorSays("ERR hash value is not an integer");
    hide Says, ErrorReply, IntReply, ParseInt, Dec;
    var before := FieldsAt(db, key);
    var cur := if field in before then ParseInt(before[field]) else Some(0);
    if cur.Some? && ParseInt(text).Some? {
      var sum := cur.value + ParseInt(text).value;
      IntSays(sum);
      if INT64_MIN <= sum <= INT64_MAX {
        DecRead(sum);
        StoresPut(db, key, Hash(before[field := Dec(sum)]));
      }
    }
  }

  // ---------------------------------------------------------------------------
  // Lists
  // ---------------------------------------------------------------------------

  lemma ListRows()
    ensures Row("lpush", R.LPUSH) && Row("rpush", R.RPUSH)
    ensures Row("lpop", R.LPOP) && Row("rpop", R.RPOP)
    ensures Row("lset", R.LSET)
  {
  }

  function ItemsAt(db: Db, key: string): seq<string> {
    if key in db && db[key].List? then db[key].items else []
  }

  ghost predicate Grown(l: seq<string>, argv: Argv, left: bool, after: seq<string>)
    requires |argv| >= 3
  {
    var n := |argv| - 2;
    && |after| == |l| + n
    && (if left then after[n..] == l else after[..|l|] == l)
    && (left ==> forall i :: 0 <= i < n ==> after[i] == argv[|argv| - 1 - i])
    && (!left ==> forall i :: |l| <= i < |after| ==> after[i] == argv[2 + i - |l|])
  }

  lemma Grows(l: seq<string>, argv: Argv, left: bool)
    requires |argv| >= 3
    ensures Grown(l, argv, left, if left then Reversed(argv[2..]) + l else l + argv[2..])
  {
    hide Reversed;
  }

  /** LPUSH puts the arguments one by one in front, so the last stands first; RPUSH puts them behind, in order. */
  ghost predicate PushedOn(e: Effect, db: Db, argv: Argv, left: bool)
    requires |argv| >= 3
  {
    var key, after := argv[1], ItemsAt(After(e), argv[1]);
    if key in db && !db[key].List? then Tells(e, db, Failed(WRONG_KIND))
    else Grown(ItemsAt(db, key), argv, left, after) && Stores(e, db, key, List(after), Int(|after|))
  }

  lemma PushLaw(ext: Outside, db: Db, argv: Argv)
    requires |argv| >= 3 && Lower(argv[0]) in {"lpush", "rpush"}
    ensures R.Modelled(argv) && PushedOn(R.Exec(ext, db, argv), db, argv, Lower(argv[0]) == "lpush")
  {
    hide *;
    ListRows();
    if Lower(argv[0]) == "lpush" {
      Runs(ext, db, argv, "lpush", R.LPUSH);
      LPushApplies(ext, db, argv);
    } else {
      Runs(ext, db, argv, "rpush", R.RPUSH);
      RPushApplies(ext, db, argv);
    }
    Pushing(db, argv, Lower(argv[0]) == "lpush");
  }

  lemma LPushApplies(ext: Outside, db: Db, argv: Argv)
    requires |argv| >= 3
    ensures R.Fits(R.LPUSH, |argv|) && R.Apply(ext, R.LPUSH, db, argv) == Push(db, argv, true)
  {
    hide Push;
  }

  lemma RPushApplies(ext: Outside, db: Db, argv: Argv)
    requires |argv| >= 3
    ensures R.Fits(R.RPUSH, |argv|) && R.Apply(ext, R.RPUSH, db, argv) == Push(db, argv, false)
  {
    hide Push;
  }

  lemma Pushing(db: Db, argv: Argv, left: bool)
    requires |argv| >= 3
    ensures PushedOn(Push(db, argv, left), db, argv, left)
  {
    hide Says, IntReply, Stores, Tells, Push, WRONG_TYPE, Reversed, Grown;
    WrongKindTells(db);
    PushDoes(db, argv, left);
    var l := ItemsAt(db, argv[1]);
    var after := if left then Reversed(argv[2..]) + l else l + argv[2..];
    Grows(l, argv, left);
    IntSays(|after|);
    PutStores(db, argv[1], List(after), IntReply(|after|), Int(|after|));
  }

  lemma PushDoes(db: Db, argv: Argv, left: bool)
    requires |argv| >= 3
    ensures var key, l := argv[1], ItemsAt(db, argv[1]);
      var after := if left then Reversed(argv[2..]) + l else l + argv[2..];
      Push(db, argv, left) ==
        if key in db && !db[key].List? then Effect(db, false, WRONG_TYPE)
        else Effect(db[key := List(after)], true, IntReply(|after|))
  {
    hide IntReply, WRONG_TYPE, Reversed;
  }

  /** How many items LPOP or RPOP is asked for: one without a count. */
  function PopCount(argv: Argv): Option<int> {
    if |argv| == 3 then ParseInt(argv[2]) else Some(1)
  }

  /** LPOP takes items off the front and RPOP off the back, the outermost first, as many as asked for and there are. */
  ghost predicate PoppedOff(e: Effect, db: Db, argv: Argv, left: bool)
    requires |argv| >= 2
  {
    var key, l, count, many := argv[1], ItemsAt(db, argv[1]), PopCount(argv), |argv| == 3;
    if key in db && !db[key].List? then Tells(e, db, Failed(WRONG_KIND))
    else if count == None || count.value < 0 then Tells(e, db, Failed(NO_INTEGER))
    else if key !in db then Tells(e, db, if many then NilArray else Nil)
    else
      var n := if count.value < |l| then count.value else |l|;
      var told := seq(n, i requires 0 <= i < n => Text(if left then l[i] else l[|l| - 1 - i]));
      Leaves(e, db, key, List(if left then l[n..] else l[..|l| - n]), true,
        if many then Array(told) else if n == 0 then Nil else told[0])
  }

  lemma PopLaw(ext: Outside, db: Db, argv: Argv)
    requires |argv| >= 2 && Lower(argv[0]) in {"lpop", "rpop"}
    ensures R.Modelled(argv) && PoppedOff(R.Exec(ext, db, argv), db, argv, Lower(argv[0]) == "lpop")
  {
    hide *;
    ListRows();
    if Lower(argv[0]) == "lpop" {
      Runs(ext, db, argv, "lpop", R.LPOP);
      LPopApplies(ext, db, argv);
    } else {
      Runs(ext, db, argv, "rpop", R.RPOP);
      RPopApplies(ext, db, argv);
    }
    Popping(db, argv, Lower(argv[0]) == "lpop");
  }

  lemma LPopApplies(ext: Outside, db: Db, argv: Argv)
    requires |argv| >= 2
    ensures R.Fits(R.LPOP, |argv|) && R.Apply(ext, R.LPOP, db, argv) == Pop(db, argv, true)
  {
    hide Pop;
  }

  lemma RPopApplies(ext: Outside, db: Db, argv: Argv)
    requires |argv| >= 2
    ensures R.Fits(R.RPOP, |argv|) && R.Apply(ext, R.RPOP, db, argv) == Pop(db, argv, false)
  {
    hide Pop;
  }

  lemma Popping(db: Db, argv: Argv, left: bool)
    requires |argv| >= 2
    ensures PoppedOff(Pop(db, argv, left), db, argv, left)
  {
    hide Says, ErrorReply, Store, PopText, ParseInt, Empty, Leaves, Tells, Pop;
    hide WRONG_TYPE, NOT_INT, NULL_ARRAY, NULL_BULK;
    var key, l, count := argv[1], ItemsAt(db, argv[1]), PopCount(argv);
    PopDoes(db, argv, left);
    if key in db && !db[key].List? {
      WrongKindTells(db);
    } else if count == None || count.value < 0 {
      NotIntSays();
      ReadTells(db, NOT_INT, Failed(NO_INTEGER));
    } else if key !in db {
      NothingTells(db);
    } else {
      PoppingSome(db, argv, left, l, Min(count.value, |l|));
    }
  }

  lemma PopDoes(db: Db, argv: Argv, left: bool)
    requires |argv| >= 2
    ensures var key, l, count, many := argv[1], ItemsAt(db, argv[1]), PopCount(argv), |argv| == 3;
      Pop(db, argv, left) ==
        if key in db && !db[key].List? then Effect(db, false, WRONG_TYPE)
        else if count == None || count.value < 0 then Effect(db, false, NOT_INT)
        else if key !in db then Effect(db, false, if many then NULL_ARRAY else NULL_BULK)
        else
          var n := Min(count.value, |l|);
          Effect(Store(db, key, List(Leftover(l, n, left))), true, PopText(l, n, left, many))
  {
    hide WRONG_TYPE, NOT_INT, NULL_ARRAY, NULL_BULK, Store, PopText, Leftover, ParseInt;
  }

  lemma PoppingSome(db: Db, argv: Argv, left: bool, l: seq<string>, n: nat)
    requires |argv| >= 2 && argv[1] in db && db[argv[1]] == List(l) && n <= |l| && (|argv| == 3 || n <= 1)
    ensures var told := seq(n, i requires 0 <= i < n => Text(if left then l[i] else l[|l| - 1 - i]));
      var many := |argv| == 3;
      Leaves(Effect(Store(db, argv[1], List(Leftover(l, n, left))), true, PopText(l, n, left, many)), db, argv[1],
        List(if left then l[n..] else l[..|l| - n]), true,
        if many then Array(told) else if n == 0 then Nil else told[0])
  {
    hide Says, Store, PopText, Empty;
    StoreLeaves(db, argv[1], List(Leftover(l, n, left)));
    PopTold(l, n, left, |argv| == 3);
  }

  lemma PopTold(l: seq<string>, n: nat, left: bool, many: bool)
    requires n <= |l| && (many || n <= 1)
    ensures var told := seq(n, i requires 0 <= i < n => Text(if left then l[i] else l[|l| - 1 - i]));
      Says(PopText(l, n, left, many), if many then Array(told) else if n == 0 then Nil else told[0])
  {
    hide Says, BulkReply, ArrayHeader, Taken, Joined;
    var taken := Taken(l, n, left);
    var told := seq(n, i requires 0 <= i < n => Text(if left then l[i] else l[|l| - 1 - i]));
    NilSays();
    TakenAre(l, n, left);
    forall i | 0 <= i < n
      ensures Says(Bulks(taken)[i], told[i])
    {
      BulkSays(taken[i]);
      assert told[i] == Text(taken[i]);
    }
    if many {
      ArraySays(Bulks(taken), told);
    } else if n == 1 {
      assert Bulks(taken) == [BulkReply(taken[0])];
      JoinedOne(BulkReply(taken[0]));
    }
  }

  lemma TakenAre(l: seq<string>, n: nat, left: bool)
    requires n <= |l|
    ensures |Taken(l, n, left)| == n
    ensures forall i :: 0 <= i < n ==> Taken(l, n, left)[i] == if left then l[i] else l[|l| - 1 - i]
  {
  }

  lemma JoinedOne(s: string)
    ensures Joined([s]) == s
  {
    assert [s][..0] == [];
  }

  /** LSET replaces one item, counted from the front, or from the back below zero. */
  ghost predicate ItemSet(e: Effect, db: Db, key: string, index: Option<int>, value: string) {
    var l := ItemsAt(db, key);
    if key !in db then Tells(e, db, Failed("ERR no such key"))
    else if !db[key].List? then Tells(e, db, Failed(WRONG_KIND))
    else if index == None then Tells(e, db, Failed(NO_INTEGER))
    else if !(-|l| <= index.value < |l|) then Tells(e, db, Failed("ERR index out of range"))
    else
      var i := if index.value < 0 then |l| + index.value else index.value;
      Stores(e, db, key, List(l[..i] + [value] + l[i + 1..]), Simple("OK"))
  }

  lemma LSetLaw(ext: Outside, db: Db, argv: Argv)
    requires |argv| == 4 && Lower(argv[0]) == "lset"
    ensures R.Modelled(argv) && ItemSet(R.Exec(ext, db, argv), db, argv[1], ParseInt(argv[2]), argv[3])
  {
    hide *;
    ListRows();
    Runs(ext, db, argv, "lset", R.LSET);
    LSetApplies(ext, db, argv);
    SettingItem(db, argv[1], argv[2], argv[3]);
  }

  lemma LSetApplies(ext: Outside, db: Db, argv: Argv)
    requires |argv| == 4
    ensures R.Fits(R.LSET, |argv|) && R.Apply(ext, R.LSET, db, argv) == LSet(db, argv[1], argv[2], argv[3])
  {
    hide LSet;
  }

  lemma SettingItem(db: Db, key: string, index: string, value: string)
    ensures ItemSet(LSet(db, key, index, value), db, key, ParseInt(index), value)
  {
    WrongTypeSays();
    NotIntSays();
    NoKeySays();
    OkSays();
    ErrorSays("ERR index out of range");
    hide Says, ErrorReply, SimpleReply, ParseInt;
    var l := ItemsAt(db, key);
    if ParseInt(index).Some? && -|l| <= ParseInt(index).value < |l| {
      var i := if ParseInt(index).value < 0 then |l| + ParseInt(index).value else ParseInt(index).value;
      assert l[i := value] == l[..i] + [value] + l[i + 1..];
      StoresPut(db, key, List(l[i := value]));
    }
  }

  // ---------------------------------------------------------------------------
  // Sets and sorted sets
  // ---------------------------------------------------------------------------

  lemma SetRows()
    ensures Row("sadd", R.SADD) && Row("srem", R.SREM)
  {
  }

  lemma ScoreRows()
    ensures Row("zadd", R.ZADD) && Row("zrem", R.ZREM) && Row("zincrby", R.ZINCRBY)
  {
  }

  function MembersAt(db: Db, key: string): set<string> {
    if key in db && db[key].Set? then db[key].members else {}
  }

  /** SADD: the members are those that were there and those named, and the reply counts the new ones. */
  ghost predicate MembersAdded(e: Effect, db: Db, argv: Argv)
    requires |argv| >= 2
  {
    var key, before := argv[1], MembersAt(db, argv[1]);
    if key in db && !db[key].Set? then Tells(e, db, Failed(WRONG_KIND))
    else
      var after := MembersAt(After(e), key);
      && (forall m :: m in after <==> m in before || Named(argv, 2, m))
      && e.Effect? && key in e.db && e.db[key] == Set(after) && e.db - {key} == db - {key}
      && (e.dirty <==> after != before) && Says(e.reply, Int(|after| - |before|))
  }

  lemma SAddLaw(ext: Outside, db: Db, argv: Argv)
    requires |argv| >= 3 && Lower(argv[0]) == "sadd"
    ensures R.Modelled(argv) && MembersAdded(R.Exec(ext, db, argv), db, argv)
  {
    hide *;
    SetRows();
    Runs(ext, db, argv, "sadd", R.SADD);
    SAddApplies(ext, db, argv);
    AddingMembers(db, argv);
  }

  lemma SAddApplies(ext: Outside, db: Db, argv: Argv)
    requires |argv| >= 3
    ensures R.Fits(R.SADD, |argv|) && R.Apply(ext, R.SADD, db, argv) == SAdd(db, argv)
  {
    hide SAdd;
  }

  lemma AddingMembers(db: Db, argv: Argv)
    requires |argv| >= 3
    ensures MembersAdded(SAdd(db, argv), db, argv)
  {
    hide ArgSet, Named, Says, SAdd, WRONG_TYPE, IntReply, Tells;
    WrongKindTells(db);
    SAddDoes(db, argv);
    var key, names, before := argv[1], ArgSet(argv, 2), MembersAt(db, argv[1]);
    ArgsNamed(argv, 2);
    SetWith(before, names);
    IntSays(|names - before|);
    StoresPut(db, key, Set(before + (names - before)));
  }

  lemma SAddDoes(db: Db, argv: Argv)
    requires |argv| >= 2
    ensures var key, before := argv[1], MembersAt(db, argv[1]);
      var new_ := ArgSet(argv, 2) - before;
      SAdd(db, argv) ==
        if key in db && !db[key].Set? then Effect(db, false, WRONG_TYPE)
        else Effect(db[key := Set(before + new_)], new_ != {}, IntReply(|new_|))
  {
    hide ArgSet, WRONG_TYPE, IntReply;
  }

  lemma SetWith(m: set<string>, names: set<string>)
    ensures var after := m + (names - m);
      after == m + names && |names - m| == |after| - |m| && (names - m != {} <==> after != m)
  {
  }

  ghost predicate AllMembersBut(before: set<string>, after: set<string>, argv: Argv) {
    forall m :: m in after <==> m in before && !Named(argv, 2, m)
  }

  lemma SetWithout(m: set<string>, argv: Argv)
    requires |argv| >= 2
    ensures var names := ArgSet(argv, 2);
      var after := m - m * names;
      AllMembersBut(m, after, argv) && |m * names| == |m| - |after| && (m * names != {} <==> after != m)
  {
    ArgsNamed(argv, 2);
    hide ArgSet, Named;
    assert m == (m - ArgSet(argv, 2)) + m * ArgSet(argv, 2);
  }

  /** SREM takes away exactly the members named and tells how many there were; the key goes with its last member. */
  ghost predicate MembersRemoved(e: Effect, db: Db, argv: Argv)
    requires |argv| >= 2
  {
    var key, before := argv[1], MembersAt(db, argv[1]);
    if key in db && !db[key].Set? then Tells(e, db, Failed(WRONG_KIND))
    else if key !in db then Tells(e, db, Int(0))
    else
      var after := MembersAt(After(e), key);
      && AllMembersBut(before, after, argv)
      && Leaves(e, db, key, Set(after), after != before, Int(|before| - |after|))
  }

  lemma SRemLaw(ext: Outside, db: Db, argv: Argv)
    requires |argv| >= 3 && Lower(argv[0]) == "srem"
    ensures R.Modelled(argv) && MembersRemoved(R.Exec(ext, db, argv), db, argv)
  {
    hide *;
    SetRows();
    Runs(ext, db, argv, "srem", R.SREM);
    SRemApplies(ext, db, argv);
    RemovingMembers(db, argv);
  }

  lemma SRemApplies(ext: Outside, db: Db, argv: Argv)
    requires |argv| >= 3
    ensures R.Fits(R.SREM, |argv|) && R.Apply(ext, R.SREM, db, argv) == SRem(db, argv)
  {
    hide SRem;
  }

  lemma RemovingMembers(db: Db, argv: Argv)
    requires |argv| >= 3
    ensures MembersRemoved(SRem(db, argv), db, argv)
  {
    hide ArgSet, Named, Store, Says, ErrorReply, IntReply, Leaves;
    if argv[1] in db && db[argv[1]].Set? {
      MembersGone(db, argv, db[argv[1]].members);
    } else {
      WrongTypeSays();
      IntSays(0);
    }
  }

  lemma MembersGone(db: Db, argv: Argv, before: set<string>)
    requires |argv| >= 3 && argv[1] in db && db[argv[1]] == Set(before)
    ensures MembersRemoved(SRem(db, argv), db, argv)
  {
    hide SRem, Store, MembersAt, Says, IntReply, ArgSet, AllMembersBut, Empty;
    var key, gone := argv[1], before * ArgSet(argv, 2);
    SRemDoes(db, argv, before);
    SetWithout(before, argv);
    IntSays(|gone|);
    StoreLeaves(db, key, Set(before - gone));
  }

  lemma SRemDoes(db: Db, argv: Argv, before: set<string>)
    requires |argv| >= 3 && argv[1] in db && db[argv[1]] == Set(before)
    ensures var key, gone := argv[1], before * ArgSet(argv, 2);
      var stored := Store(db, key, Set(before - gone));
      && MembersAt(db, key) == before && MembersAt(stored, key) == before - gone
      && SRem(db, argv) == Effect(stored, gone != {}, IntReply(|gone|))
  {
    hide IntReply, ArgSet;
  }

  /** ZREM takes away exactly the members named and tells how many there were; the key goes with its last member. */
  ghost predicate ScoresRemoved(e: Effect, db: Db, argv: Argv)
    requires |argv| >= 2
  {
    var key, before := argv[1], ScoresOf(db, argv[1]);
    if key in db && !db[key].ZSet? then Tells(e, db, Failed(WRONG_KIND))
    else if key !in db then Tells(e, db, Int(0))
    else
      var after := ScoresOf(After(e), key);
      && AllButNamed(before, after, argv)
      && Leaves(e, db, key, ZSet(after), after != before, Int(|before| - |after|))
  }

  lemma ZRemLaw(ext: Outside, db: Db, argv: Argv)
    requires |argv| >= 3 && Lower(argv[0]) == "zrem"
    ensures R.Modelled(argv) && ScoresRemoved(R.Exec(ext, db, argv), db, argv)
  {
    hide *;
    ScoreRows();
    Runs(ext, db, argv, "zrem", R.ZREM);
    ZRemApplies(ext, db, argv);
    RemovingScores(db, argv);
  }

  lemma ZRemApplies(ext: Outside, db: Db, argv: Argv)
    requires |argv| >= 3
    ensures R.Fits(R.ZREM, |argv|) && R.Apply(ext, R.ZREM, db, argv) == ZRem(db, argv)
  {
    hide ZRem;
  }

  lemma RemovingScores(db: Db, argv: Argv)
    requires |argv| >= 3
    ensures ScoresRemoved(ZRem(db, argv), db, argv)
  {
    hide ArgSet, Named, Store, Says, ErrorReply, IntReply, Leaves;
    if argv[1] in db && db[argv[1]].ZSet? {
      ScoresGone(db, argv, db[argv[1]].scores);
    } else {
      WrongTypeSays();
      IntSays(0);
    }
  }

  lemma ScoresGone(db: Db, argv: Argv, before: map<string, int>)
    requires |argv| >= 3 && argv[1] in db && db[argv[1]] == ZSet(before)
    ensures ScoresRemoved(ZRem(db, argv), db, argv)
  {
    hide ZRem, Store, ScoresOf, Says, IntReply, ArgSet, AllButNamed, Empty;
    var key, names := argv[1], ArgSet(argv, 2);
    var rest := before - names;
    ZRemDoes(db, argv, before);
    Without(before, argv);
    IntSays(|before.Keys * names|);
    StoreLeaves(db, key, ZSet(rest));
  }

  lemma ZRemDoes(db: Db, argv: Argv, before: map<string, int>)
    requires |argv| >= 3 && argv[1] in db && db[argv[1]] == ZSet(before)
    ensures var key, names := argv[1], ArgSet(argv, 2);
      var stored := Store(db, key, ZSet(before - names));
      && ScoresOf(db, key) == before && ScoresOf(stored, key) == before - names
      && ZRem(db, argv) == Effect(stored, before.Keys * names != {}, IntReply(|before.Keys * names|))
  {
    hide IntReply, ArgSet;
  }

  /** ZINCRBY adds to the member's score, or to zero, and tells the printed sum. */
  ghost predicate ScoreAdded(ext: Outside, e: Effect, db: Db, key: string, text: string, m: string) {
    var before := ScoresOf(db, key);
    if ext.parse(text) == None then Tells(e, db, Failed("ERR value is not a valid float"))
    else if key in db && !db[key].ZSet? then Tells(e, db, Failed(WRONG_KIND))
    else
      var sum := ext.add(if m in before then before[m] else ext.zero, ext.parse(text).value);
      Stores(e, db, key, ZSet(before[m := sum]), Text(ext.show(sum)))
  }

  lemma ZIncrByLaw(ext: Outside, db: Db, argv: Argv)
    requires |argv| == 4 && Lower(argv[0]) == "zincrby"
    ensures R.Modelled(argv) && ScoreAdded(ext, R.Exec(ext, db, argv), db, argv[1], argv[2], argv[3])
  {
    hide *;
    ScoreRows();
    Runs(ext, db, argv, "zincrby", R.ZINCRBY);
    ZIncrByApplies(ext, db, argv);
    AddingScore(ext, db, argv[1], argv[2], argv[3]);
  }

  lemma ZIncrByApplies(ext: Outside, db: Db, argv: Argv)
    requires |argv| == 4
    ensures R.Fits(R.ZINCRBY, |argv|)
    ensures R.Apply(ext, R.ZINCRBY, db, argv) == ZIncrBy(ext, db, argv[1], argv[2], argv[3])
  {
    hide ZIncrBy;
  }

  lemma AddingScore(ext: Outside, db: Db, key: string, text: string, m: string)
    ensures ScoreAdded(ext, ZIncrBy(ext, db, key, text, m), db, key, text, m)
  {
    WrongTypeSays();
    NotFloatSays();
    hide Says, BulkReply, ErrorReply;
    var before := ScoresOf(db, key);
    if ext.parse(text).Some? {
      var sum := ext.add(if m in before then before[m] else ext.zero, ext.parse(text).value);
      BulkSays(ext.show(sum));
      StoresPut(db, key, ZSet(before[m := sum]));
    }
  }

  /** ZADD, by the words among its arguments: the flags end at position `n`, and `m` is any member. */
  lemma ZAddLaw(ext: Outside, db: Db, argv: Argv, n: nat, m: string)
    requires |argv| >= 4 && Lower(argv[0]) == "zadd" && FlagsEnd(argv, n)
    ensures R.Modelled(argv)
    ensures ScoresAdded(ext, R.Exec(ext, db, argv), db, argv, n, m)
  {
    hide *;
    ZAddRuns(ext, db, argv);
    AddingScores(ext, db, argv, n, m);
  }

  /** What ZADD does to a member, and what it says. */
  ghost predicate ScoresAdded(ext: Outside, e: Effect, db: Db, argv: Argv, n: nat, m: string)
    requires |argv| >= 2 && n <= |argv|
  {
    var key, f := argv[1], ZWords(argv, 2, n);
    if n == |argv| || (|argv| - n) % 2 != 0 then Tells(e, db, Failed("ERR syntax error"))
    else if key in db && !db[key].ZSet? then Tells(e, db, Failed(WRONG_KIND))
    else
      && e.Effect? && e.db - {key} == db - {key}
      && ScoreMeans(f, ScoresOf(db, key), ScoresOf(e.db, key), m, LastGiven(ext, argv, n, m))
      && (ScoresReadable(ext, argv, n) && !f.incr && !f.ch ==>
            Says(e.reply, Int(|ScoresOf(e.db, key)| - |ScoresOf(db, key)|)))
      && (!ScoresReadable(ext, argv, n) ==> !e.dirty && Says(e.reply, Failed("ERR value is not a valid float")))
  }

  lemma AddingScores(ext: Outside, db: Db, argv: Argv, n: nat, m: string)
    requires |argv| >= 2 && FlagsEnd(argv, n)
    ensures ScoresAdded(ext, ZAdd(ext, db, argv), db, argv, n, m)
  {
    hide ZAdd, ZWords, Says, FlagsEnd, ScoreMeans, LastGiven, ScoresReadable, ScoresOf;
    assert n <= |argv| by { EndsWithin(argv, n); }
    if n == |argv| || (|argv| - n) % 2 != 0 || (argv[1] in db && !db[argv[1]].ZSet?) {
      ZAddRefuses(ext, db, argv, n);
    } else {
      ZAddMeans(ext, db, argv, n, m);
      ZAddCounts(ext, db, argv, n);
    }
  }

  lemma EndsWithin(argv: Argv, n: nat)
    requires FlagsEnd(argv, n)
    ensures n <= |argv|
  {
  }

  lemma ZAddRuns(ext: Outside, db: Db, argv: Argv)
    requires |argv| >= 4 && Lower(argv[0]) == "zadd"
    ensures R.Modelled(argv) && R.Exec(ext, db, argv) == ZAdd(ext, db, argv)
  {
    hide *;
    ScoreRows();
    Runs(ext, db, argv, "zadd", R.ZADD);
    ZAddApplies(ext, db, argv);
  }

  lemma ZAddApplies(ext: Outside, db: Db, argv: Argv)
    requires |argv| >= 4
    ensures R.Fits(R.ZADD, |argv|) && R.Apply(ext, R.ZADD, db, argv) == ZAdd(ext, db, argv)
  {
    hide ZAdd;
  }

  // ---------------------------------------------------------------------------
  // Reads
  // ---------------------------------------------------------------------------

  lemma ReadsNotWrites()
    ensures R.VerbOf("get") == None && R.VerbOf("mget") == None && R.VerbOf("exists") == None
  {
  }

  lemma OtherReadsNotWrites()
    ensures R.VerbOf("touch") == None && R.VerbOf("persist") == None
  {
  }

  lemma ReadRows()
    ensures R.ReadArity("get") == Some(2) && R.ReadArity("mget") == Some(-2)
    ensures R.ReadArity("exists") == Some(-2) && R.ReadArity("touch") == Some(-2)
    ensures R.ReadArity("persist") == Some(2)
  {
  }

  lemma ReadsNotForeign(name: string)
    requires name in {"get", "mget", "exists", "touch", "persist"}
    ensures !R.Foreign(name) && !R.Flushes(name)
  {
  }

  /** GET tells of the string, MGET of every key in order, EXISTS and TOUCH how many arguments name a key, and PERSIST
      that no deadline was taken away. */
  lemma ReadLaw(ext: Outside, db: Db, argv: Argv)
    requires |argv| >= 2 && Lower(argv[0]) in {"get", "mget", "exists", "touch", "persist"}
    requires Lower(argv[0]) in {"get", "persist"} ==> |argv| == 2
    ensures R.Modelled(argv)
    ensures Tells(R.Exec(ext, db, argv), db,
      if Lower(argv[0]) == "get" then if WrongKind(db, argv[1]) then Failed(WRONG_KIND) else Told(db, argv[1])
      else if Lower(argv[0]) == "mget" then Array(ToldAll(db, argv))
      else if Lower(argv[0]) == "persist" then Int(0)
      else Int(|set i | 1 <= i < |argv| && argv[i] in db|))
  {
    var name := Lower(argv[0]);
    ReadsNotWrites();
    OtherReadsNotWrites();
    ReadRows();
    ReadsNotForeign(name);
    assert R.Modelled(argv) && R.Exec(ext, db, argv) == R.ReadEffect(ext, db, name, argv) by {
      hide Lower, R.VerbOf, R.Foreign, R.Flushes, R.ReadArity, R.ReadEffect;
    }
    hide *;
    Reading(ext, db, name, argv);
  }

  lemma Reading(ext: Outside, db: Db, name: string, argv: Argv)
    requires |argv| >= 2 && name in {"get", "mget", "exists", "touch", "persist"}
    requires name == "get" ==> |argv| == 2
    ensures Tells(R.ReadEffect(ext, db, name, argv), db,
      if name == "get" then if WrongKind(db, argv[1]) then Failed(WRONG_KIND) else Told(db, argv[1])
      else if name == "mget" then Array(ToldAll(db, argv))
      else if name == "persist" then Int(0)
      else Int(|set i | 1 <= i < |argv| && argv[i] in db|))
  {
    hide Says, BulkReply, ErrorReply, IntReply, CountIn, MGetMany, Tells, WRONG_TYPE, NULL_BULK;
    var text := TextAt(db, argv[1]);
    BulkSays(text);
    ReadTells(db, BulkReply(text), Text(text));
    WrongKindTells(db);
    NothingTells(db);
    MGetSays(db, argv);
    MGetReads(db, argv);
    ReadTells(db, MGetMany(db, argv).reply, Array(ToldAll(db, argv)));
    IntSays(0);
    ReadTells(db, IntReply(0), Int(0));
    var n := CountIn(db, argv[1..]);
    IntSays(n);
    ReadTells(db, IntReply(n), Int(n));
    CountsPlaces(db, argv, |argv|);
    assert argv[1..|argv|] == argv[1..];
  }

  lemma MGetReads(db: Db, argv: Argv)
    requires |argv| >= 1
    ensures var e := MGetMany(db, argv); e.Effect? && e.db == db && !e.dirty
  {
    hide Joined, MGetItems;
  }

  lemma {:induction false} CountsPlaces(db: Db, argv: Argv, n: nat)
    requires 1 <= n <= |argv|
    ensures CountIn(db, argv[1..n]) == |set i | 1 <= i < n && argv[i] in db|
    decreases n
  {
    if n == 1 {
      assert argv[1..1] == [];
    } else {
      CountsPlaces(db, argv, n - 1);
      assert argv[1..n][..n - 2] == argv[1..n - 1];
      var before := set i | 1 <= i < n - 1 && argv[i] in db;
      assert (set i | 1 <= i < n && argv[i] in db) == before + if argv[n - 1] in db then {n - 1} else {};
    }
  }

  /** FLUSHALL and FLUSHDB leave nothing; an unknown command leaves everything and is told to be unknown. */
  lemma FlushLaw(ext: Outside, db: Db, argv: Argv)
    requires argv != [] && Lower(argv[0]) in {"flushall", "flushdb"}
    ensures R.Modelled(argv) && R.Exec(ext, db, argv).Effect?
    ensures R.Exec(ext, db, argv).db == map[] && Says(R.Exec(ext, db, argv).reply, Simple("OK"))
  {
    OkSays();
    assert R.IsFlush(argv) by { hide Lower; }
    R.FlushEmpties(ext, db, argv);
    hide *;
  }

  lemma UnknownLaw(ext: Outside, db: Db, argv: Argv)
    requires argv != [] && !R.Foreign(Lower(argv[0])) && !R.Flushes(Lower(argv[0]))
    requires R.VerbOf(Lower(argv[0])) == None && R.ReadArity(Lower(argv[0])) == None
    ensures R.Modelled(argv) && Tells(R.Exec(ext, db, argv), db, Failed("ERR unknown command '" + argv[0] + "'"))
  {
    ErrorSays("ERR unknown command '" + argv[0] + "'");
    hide Lower, Says, ErrorReply, R.VerbOf, R.Foreign, R.Flushes, R.ReadArity;
  }

  // ---------------------------------------------------------------------------
  // Numbers of arguments
  // ---------------------------------------------------------------------------

  /** The number of arguments, the command word among them, is not one the command takes. */
  predicate Miscounted(name: string, argc: nat) {
    || (name in {"incr", "decr"} && argc != 2)
    || (name in {"del", "unlink", "lpop", "rpop"} && argc < 2)
    || (name in {"setnx", "getset", "append", "incrby", "decrby", "incrbyfloat", "rename"} && argc != 3)
    || (name in {"set", "mset", "hdel", "lpush", "rpush", "sadd", "srem", "zrem"} && argc < 3)
    || (name in {"setrange", "hincrby", "lset", "zincrby"} && argc != 4)
    || (name in {"hset", "hmset", "zadd"} && argc < 4)
  }

  /** A miscounted write changes nothing and is told so. */
  lemma MiscountedLaw(ext: Outside, db: Db, argv: Argv)
    requires argv != [] && Miscounted(Lower(argv[0]), |argv|)
    ensures R.Modelled(argv)
    ensures Tells(R.Exec(ext, db, argv), db,
      Failed("ERR wrong number of arguments for '" + Lower(argv[0]) + "' command"))
  {
    hide *;
    var name := Lower(argv[0]);
    ArityTells(db, name);
    var v := MiscountedVerb(name, |argv|);
    Runs(ext, db, argv, name, v);
  }

  lemma MiscountedVerb(name: string, argc: nat) returns (v: R.Verb)
    requires Miscounted(name, argc)
    ensures Row(name, v) && !R.Fits(v, argc)
  {
    hide R.VerbOf, R.Foreign, Row;
    CounterRows();
    StringRows();
    KeyRows();
    HashRows();
    ListRows();
    SetRows();
    ScoreRows();
    v :=
      match name
      case "incr" => R.INCR
      case "decr" => R.DECR
      case "incrby" => R.INCRBY
      case "decrby" => R.DECRBY
      case "setnx" => R.SETNX
      case "getset" => R.GETSET
      case "append" => R.APPEND
      case "setrange" => R.SETRANGE
      case "incrbyfloat" => R.INCRBYFLOAT
      case "mset" => R.MSET
      case "set" => R.SET
      case "del" => R.DEL
      case "unlink" => R.UNLINK
      case "rename" => R.RENAME
      case "hset" => R.HSET
      case "hmset" => R.HMSET
      case "hdel" => R.HDEL
      case "hincrby" => R.HINCRBY
      case "lpush" => R.LPUSH
      case "rpush" => R.RPUSH
      case "lpop" => R.LPOP
      case "rpop" => R.RPOP
      case "lset" => R.LSET
      case "sadd" => R.SADD
      case "srem" => R.SREM
      case "zadd" => R.ZADD
      case "zrem" => R.ZREM
      case _ => R.ZINCRBY;
  }

  // ---------------------------------------------------------------------------
  // What is refused before it reaches a shard
  // ---------------------------------------------------------------------------

  /** Two keys of the command belong to different shards. */
  ghost predicate Torn<V>(cfg: Config<V>, argv: Argv)
    requires argv != []
  {
    exists i, j :: 0 <= i < j < |Touched(cfg, argv)|
      && cfg.hash(Touched(cfg, argv)[i]) % cfg.shards != cfg.hash(Touched(cfg, argv)[j]) % cfg.shards
  }

  /** A command is refused exactly when its word is unknown, the number of its arguments does not fit, or its keys are
      torn between shards and it is none of the six that are split; it is told which. */
  lemma RefusalLaw<V>(cfg: Config<V>, here: nat, argv: Argv)
    requires argv != []
    ensures var name, r := Lower(argv[0]), RouteOf(cfg, here, argv);
      if name !in cfg.specs then r.Fail? && Says(r.reply, Failed("ERR unknown command '" + argv[0] + "'"))
      else if !ArityOk(cfg.specs[name], |argv|) then
        r.Fail? && Says(r.reply, Failed("ERR wrong number of arguments for '" + name + "' command"))
      else if Torn(cfg, argv) && name !in {"mget", "mset", "del", "unlink", "exists", "touch"} then
        r.Fail? && Says(r.reply, Failed("CROSSSLOT Keys in request map to different shards"))
      else !r.Fail?
  {
    var name := Lower(argv[0]);
    ErrorSays("ERR unknown command '" + argv[0] + "'");
    ErrorSays("ERR wrong number of arguments for '" + name + "' command");
    ErrorSays("CROSSSLOT Keys in request map to different shards");
    TornMeans(cfg, argv);
    hide Says, ErrorReply, Lower, SplitOf, KeysOf, Torn, OneOwner;
  }

  lemma TornMeans<V>(cfg: Config<V>, argv: Argv)
    requires argv != []
    ensures Torn(cfg, argv) <==> Touched(cfg, argv) != [] && !OneOwner(cfg, Touched(cfg, argv))
  {
    hide Touched;
  }
}

/** Options as words among the arguments: which positions hold them, and what each of them does. */
module OptionWords {
  import opened Options
  import opened Resp
  import opened Pipelines
  import opened Routing
  import opened Replies
  import opened Handlers

  // ---------------------------------------------------------------------------
  // SET
  // ---------------------------------------------------------------------------

  /** A time word, which takes the next argument with it. */
  predicate TimeWord(argv: Argv, i: nat)
    requires i < |argv|
  {
    Lower(argv[i]) in {"ex", "px", "exat", "pxat"} && i + 1 < |argv|
  }

  /** Position `i` is where an option starts, or where the options end. */
  predicate SetOptionAt(argv: Argv, i: nat)
    decreases i
  {
    || i == 3
    || (3 < i <= |argv| && SetOptionAt(argv, i - 1) && !TimeWord(argv, i - 1))
    || (5 <= i <= |argv| && SetOptionAt(argv, i - 2) && TimeWord(argv, i - 2))
  }

  ghost predicate SetGiven(argv: Argv, word: string) {
    exists i: nat :: i < |argv| && SetOptionAt(argv, i) && Lower(argv[i]) == word
  }

  /** A word SET does not know, or a time that is not a positive number. */
  predicate BadOption(argv: Argv, i: nat)
    requires i < |argv|
  {
    if TimeWord(argv, i) then ParseInt(argv[i + 1]) == None || ParseInt(argv[i + 1]).value <= 0
    else Lower(argv[i]) !in {"nx", "xx", "keepttl", "get"}
  }

  /** The first option SET cannot take is at `i`. */
  ghost predicate FirstBad(argv: Argv, i: nat) {
    && i < |argv| && SetOptionAt(argv, i) && BadOption(argv, i)
    && forall k: nat :: k < i && SetOptionAt(argv, k) ==> !BadOption(argv, k)
  }

  ghost predicate AllGood(argv: Argv) {
    forall k: nat :: k < |argv| && SetOptionAt(argv, k) ==> !BadOption(argv, k)
  }

  /** The last time among the options is at `i`. */
  ghost predicate LastTime(argv: Argv, i: nat) {
    && i < |argv| && SetOptionAt(argv, i) && TimeWord(argv, i)
    && forall k: nat :: i < k < |argv| && SetOptionAt(argv, k) ==> !TimeWord(argv, k)
  }

  /** The deadline a time option asks for, in its own unit and in 64 bits. */
  function AskedDeadline(argv: Argv, i: nat, now: nat): int
    requires i < |argv| && TimeWord(argv, i) && !BadOption(argv, i)
  {
    var n := ParseInt(argv[i + 1]).value;
    (if Lower(argv[i]) == "ex" then now + 1000 * n
     else if Lower(argv[i]) == "px" then now + n
     else if Lower(argv[i]) == "exat" then 1000 * n
     else n) % 0x1_0000_0000_0000_0000
  }

  /** The argument of a time word is not an option itself. */
  lemma {:induction false} NoOverlap(argv: Argv, i: nat)
    requires i < |argv| && SetOptionAt(argv, i) && TimeWord(argv, i)
    ensures !SetOptionAt(argv, i + 1)
  {
    if i > 3 && SetOptionAt(argv, i - 1) && TimeWord(argv, i - 1) {
      NoOverlap(argv, i - 1);
    }
  }

  ghost predicate GoodFrom(argv: Argv, i: nat) {
    forall k: nat :: i <= k < |argv| && SetOptionAt(argv, k) ==> !BadOption(argv, k)
  }

  ghost predicate FirstBadFrom(argv: Argv, i: nat, k: nat) {
    && i <= k < |argv| && SetOptionAt(argv, k) && BadOption(argv, k)
    && forall n: nat :: i <= n < k && SetOptionAt(argv, n) ==> !BadOption(argv, n)
  }

  ghost predicate GivenFrom(argv: Argv, i: nat, word: string) {
    exists k: nat :: i <= k < |argv| && SetOptionAt(argv, k) && Lower(argv[k]) == word
  }

  ghost predicate NoTimeFrom(argv: Argv, i: nat) {
    forall k: nat :: i <= k < |argv| && SetOptionAt(argv, k) ==> !TimeWord(argv, k)
  }

  /** Where the option after the one at `i` starts. */
  function NextOption(argv: Argv, i: nat): nat
    requires i < |argv|
  {
    if TimeWord(argv, i) then i + 2 else i + 1
  }

  lemma NextIsOption(argv: Argv, i: nat)
    requires 3 <= i < |argv| && SetOptionAt(argv, i)
    ensures i < NextOption(argv, i) <= |argv| && SetOptionAt(argv, NextOption(argv, i))
    ensures forall k: nat :: i < k < NextOption(argv, i) ==> !SetOptionAt(argv, k)
  {
    if TimeWord(argv, i) {
      NoOverlap(argv, i);
    }
    hide Lower;
  }

  /** The options are refused at the first bad one, for what is wrong with it. */
  lemma {:induction false} RefusedAtFirst(argv: Argv, i: nat, o: SetOptions)
    requires 3 <= i <= |argv| && SetOptionAt(argv, i) && o.Options?
    ensures var r := ReadOptions(argv, i, o);
      if r.Options? then GoodFrom(argv, i)
      else exists k: nat :: FirstBadFrom(argv, i, k) && r == if TimeWord(argv, k) then BadTime else BadSyntax
    decreases |argv| - i
  {
    if i < |argv| {
      NextIsOption(argv, i);
      var next, o' := NextOption(argv, i), OneOption(argv, i, o);
      OneOptionRead(argv, i, o);
      hide SetOptionAt, ReadOptions, OneOption, BadOption, TimeWord, NextOption;
      if BadOption(argv, i) {
        assert FirstBadFrom(argv, i, i);
      } else {
        RefusedAtFirst(argv, next, o');
        if k: nat :| FirstBadFrom(argv, next, k) {
          assert FirstBadFrom(argv, i, k);
        }
      }
    }
  }

  /** What the option at `i`, if it is a good one, adds. */
  function OneOption(argv: Argv, i: nat, o: SetOptions): SetOptions
    requires i < |argv| && o.Options?
  {
    var opt := Lower(argv[i]);
    if opt == "nx" then o.(nx := true)
    else if opt == "xx" then o.(xx := true)
    else if opt == "keepttl" then o.(keepTtl := true)
    else if opt == "get" then o.(getOld := true)
    else if TimeWord(argv, i) && !BadOption(argv, i) then o.(time := TimeOf(opt, ParseInt(argv[i + 1]).value))
    else o
  }

  lemma OneOptionRead(argv: Argv, i: nat, o: SetOptions)
    requires i < |argv| && o.Options?
    ensures OneOption(argv, i, o).Options? && NextOption(argv, i) <= |argv|
    ensures ReadOptions(argv, i, o) ==
      if BadOption(argv, i) then if TimeWord(argv, i) then BadTime else BadSyntax
      else ReadOptions(argv, NextOption(argv, i), OneOption(argv, i, o))
  {
    hide Lower, ParseInt;
  }

  /** Which flag a word sets. */
  predicate Flag(o: SetOptions, word: string)
    requires o.Options?
  {
    if word == "nx" then o.nx
    else if word == "xx" then o.xx
    else if word == "keepttl" then o.keepTtl
    else word == "get" && o.getOld
  }

  /** A flag is set exactly when its word stands where an option can. */
  lemma {:induction false} FlagRead(argv: Argv, i: nat, o: SetOptions, word: string)
    requires 3 <= i <= |argv| && SetOptionAt(argv, i) && o.Options? && ReadOptions(argv, i, o).Options?
    requires word in {"nx", "xx", "keepttl", "get"}
    ensures Flag(ReadOptions(argv, i, o), word) <==> Flag(o, word) || GivenFrom(argv, i, word)
    decreases |argv| - i
  {
    if i < |argv| {
      NextIsOption(argv, i);
      OneOptionRead(argv, i, o);
      OneFlag(argv, i, o, word);
      hide SetOptionAt, ReadOptions, OneOption, BadOption, TimeWord, NextOption, Flag;
      FlagRead(argv, NextOption(argv, i), OneOption(argv, i, o), word);
    }
  }

  lemma OneFlag(argv: Argv, i: nat, o: SetOptions, word: string)
    requires i < |argv| && o.Options? && word in {"nx", "xx", "keepttl", "get"}
    ensures OneOption(argv, i, o).Options?
    ensures Flag(OneOption(argv, i, o), word) <==> Flag(o, word) || Lower(argv[i]) == word
  {
    hide Lower, ParseInt;
  }

  /** The time is the one of the last time option. */
  lemma {:induction false} TimeRead(argv: Argv, i: nat, o: SetOptions, k: nat, now: nat)
    requires 3 <= i <= |argv| && SetOptionAt(argv, i) && o.Options? && ReadOptions(argv, i, o).Options?
    ensures NoTimeFrom(argv, i) ==> ReadOptions(argv, i, o).time == o.time
    ensures i <= k && LastTime(argv, k) ==>
      && !BadOption(argv, k) && ReadOptions(argv, i, o).time != NoTime
      && DeadlineOf(ReadOptions(argv, i, o).time, now) == AskedDeadline(argv, k, now)
    decreases |argv| - i
  {
    if i < |argv| {
      NextIsOption(argv, i);
      OneOptionRead(argv, i, o);
      OneTime(argv, i, o, now);
      hide SetOptionAt, ReadOptions, OneOption, BadOption, TimeWord, NextOption, DeadlineOf, AskedDeadline;
      TimeRead(argv, NextOption(argv, i), OneOption(argv, i, o), k, now);
    }
  }

  lemma OneTime(argv: Argv, i: nat, o: SetOptions, now: nat)
    requires i < |argv| && o.Options?
    ensures var r := OneOption(argv, i, o);
      && r.Options? && (!TimeWord(argv, i) ==> r.time == o.time)
      && (TimeWord(argv, i) && !BadOption(argv, i) ==>
            r.time != NoTime && DeadlineOf(r.time, now) == AskedDeadline(argv, i, now))
  {
    hide Lower, ParseInt;
  }

  // ---------------------------------------------------------------------------
  // What SET does, word by word
  // ---------------------------------------------------------------------------

  ghost predicate HoldsString(db: Db, key: string) {
    key in db && db[key].Str?
  }

  /** NX keeps SET off a string, XX off a missing key. */
  ghost predicate SetBlocked(db: Db, argv: Argv)
    requires |argv| >= 3
  {
    || (SetGiven(argv, "nx") && HoldsString(db, argv[1]))
    || (SetGiven(argv, "xx") && argv[1] !in db)
  }

  /** A refused SET changes nothing and says what was wrong with the first option it could not take. */
  lemma SetRefuses(db: Db, ttl: map<string, nat>, argv: Argv, now: nat)
    requires |argv| >= 3 && !AllGood(argv)
    ensures var e := SetString(db, argv);
      && e.db == db && !e.dirty && SetDeadlines(db, ttl, argv, now) == ttl
      && exists k: nat :: FirstBad(argv, k) && Says(e.reply, Failed(
           if TimeWord(argv, k) then "ERR invalid expire time in 'set' command" else "ERR syntax error"))
  {
    RefusedAtFirst(argv, 3, NoOptions);
    ErrorSays("ERR invalid expire time in 'set' command");
    ErrorSays("ERR syntax error");
    hide SetOptionAt, ReadOptions, BadOption, TimeWord, Says, ErrorReply;
    var k: nat :| FirstBadFrom(argv, 3, k)
      && ReadOptions(argv, 3, NoOptions) == if TimeWord(argv, k) then BadTime else BadSyntax;
    OptionsStart(argv);
    assert FirstBad(argv, k);
  }

  lemma OptionsStart(argv: Argv)
    ensures forall k: nat :: SetOptionAt(argv, k) ==> 3 <= k
  {
    forall k: nat | SetOptionAt(argv, k)
      ensures 3 <= k
    {
    }
  }

  /** What reading good options finds, in terms of the words. */
  lemma ReadsWords(argv: Argv, now: nat)
    requires |argv| >= 3 && AllGood(argv)
    ensures var o := ReadOptions(argv, 3, NoOptions);
      && o.Options?
      && (o.nx <==> SetGiven(argv, "nx")) && (o.xx <==> SetGiven(argv, "xx"))
      && (o.keepTtl <==> SetGiven(argv, "keepttl")) && (o.getOld <==> SetGiven(argv, "get"))
      && (NoTimeFrom(argv, 3) ==> o.time == NoTime)
      && forall k: nat :: LastTime(argv, k) ==>
        !BadOption(argv, k) && DeadlineOf(o.time, now) == AskedDeadline(argv, k, now)
  {
    RefusedAtFirst(argv, 3, NoOptions);
    OptionsStart(argv);
    hide SetOptionAt, ReadOptions, BadOption, TimeWord, DeadlineOf, AskedDeadline;
    assert ReadOptions(argv, 3, NoOptions).Options?;
    StartsAtThree(argv);
    FlagRead(argv, 3, NoOptions, "nx");
    FlagRead(argv, 3, NoOptions, "xx");
    FlagRead(argv, 3, NoOptions, "keepttl");
    FlagRead(argv, 3, NoOptions, "get");
    TimeRead(argv, 3, NoOptions, 3, now);
    forall k: nat | LastTime(argv, k)
      ensures !BadOption(argv, k)
      ensures DeadlineOf(ReadOptions(argv, 3, NoOptions).time, now) == AskedDeadline(argv, k, now)
    {
      TimeRead(argv, 3, NoOptions, k, now);
    }
  }

  lemma StartsAtThree(argv: Argv)
    ensures SetOptionAt(argv, 3)
  {
  }

  /** A blocked SET changes nothing; with GET it still tells of the string that blocks it. */
  lemma SetKeepsOff(db: Db, ttl: map<string, nat>, argv: Argv, now: nat)
    requires |argv| >= 3 && AllGood(argv) && SetBlocked(db, argv)
    ensures var e, key := SetString(db, argv), argv[1];
      && e.db == db && !e.dirty && SetDeadlines(db, ttl, argv, now) == ttl
      && Says(e.reply,
           if SetGiven(argv, "get") && SetGiven(argv, "nx") && HoldsString(db, key) then Text(db[key].s) else Nil)
  {
    ReadsWords(argv, now);
    NilSays();
    if HoldsString(db, argv[1]) {
      BulkSays(db[argv[1]].s);
    }
    hide ReadOptions, AllGood, SetGiven, Says, BulkReply;
  }

  /** A SET that is not blocked stores the value and touches no other key; it tells of the old string with GET, and says
      OK without. A time option that comes to a deadline sets it; otherwise KEEPTTL keeps the deadline there was, if
      any. */
  lemma SetStores(db: Db, ttl: map<string, nat>, argv: Argv, now: nat)
    requires |argv| >= 3 && AllGood(argv) && !SetBlocked(db, argv)
    ensures var e, key, after := SetString(db, argv), argv[1], SetDeadlines(db, ttl, argv, now);
      && e.Effect? && e.dirty && e.db == db[key := Str(argv[2])]
      && Says(e.reply, if !SetGiven(argv, "get") then Simple("OK") else Told(db, key))
      && after - {key} == ttl - {key}
      && (forall k: nat :: LastTime(argv, k) ==> !BadOption(argv, k))
      && (forall k: nat :: LastTime(argv, k) && AskedDeadline(argv, k, now) != 0 ==>
            key in after && after[key] == AskedDeadline(argv, k, now))
      && ((NoTimeFrom(argv, 3) || exists k: nat :: LastTime(argv, k) && AskedDeadline(argv, k, now) == 0) ==>
            if SetGiven(argv, "keepttl") && key in ttl && ttl[key] != 0 then key in after && after[key] == ttl[key]
            else key !in after)
  {
    ReadsWords(argv, now);
    OkSays();
    NilSays();
    if HoldsString(db, argv[1]) {
      BulkSays(db[argv[1]].s);
    }
    hide ReadOptions, AllGood, SetGiven, Says, BulkReply, SetOptionAt, TimeWord, LastTime, NoTimeFrom, BadOption;
    hide DeadlineOf, AskedDeadline;
    assert NoTimeFrom(argv, 3) ==> DeadlineOf(NoTime, now) == 0 by { NoDeadlineAsked(now); }
    DeadlinesLeft(db, ttl, argv, now);
    hide SetDeadlines;
  }

  lemma NoDeadlineAsked(now: nat)
    ensures DeadlineOf(NoTime, now) == 0
  {
  }

  /** The table of deadlines after a SET that stored its value. */
  lemma DeadlinesLeft(db: Db, ttl: map<string, nat>, argv: Argv, now: nat)
    requires |argv| >= 3 && SetString(db, argv).dirty && ReadOptions(argv, 3, NoOptions).Options?
    ensures var o, key, after := ReadOptions(argv, 3, NoOptions), argv[1], SetDeadlines(db, ttl, argv, now);
      && after - {key} == ttl - {key}
      && if DeadlineOf(o.time, now) != 0 then key in after && after[key] == DeadlineOf(o.time, now)
         else if o.keepTtl && key in ttl && ttl[key] != 0 then key in after && after[key] == ttl[key]
         else key !in after
  {
    hide ReadOptions, DeadlineOf, SetString;
  }

  lemma OkSays()
    ensures Says(OK, Simple("OK"))
  {
    SimpleSays("OK");
  }

  // ---------------------------------------------------------------------------
  // ZADD
  // ---------------------------------------------------------------------------

  predicate ZFlagWord(word: string) {
    word in {"nx", "xx", "ch", "incr", "gt", "lt"}
  }

  /** The flags are the words before position `n`, up to the first that is none. */
  ghost predicate FlagsEnd(argv: Argv, n: nat) {
    && 2 <= n <= |argv| && (forall k: nat :: 2 <= k < n ==> ZFlagWord(Lower(argv[k])))
    && (n < |argv| ==> !ZFlagWord(Lower(argv[n])))
  }

  ghost predicate ZGiven(argv: Argv, i: nat, n: nat, word: string)
    requires n <= |argv|
  {
    exists k: nat :: i <= k < n && Lower(argv[k]) == word
  }

  ghost function ZWords(argv: Argv, i: nat, n: nat): ZFlags
    requires n <= |argv|
  {
    ZFlags(ZGiven(argv, i, n, "nx"), ZGiven(argv, i, n, "xx"), ZGiven(argv, i, n, "ch"), ZGiven(argv, i, n, "incr"),
           ZGiven(argv, i, n, "gt"), ZGiven(argv, i, n, "lt"))
  }

  ghost function Either(a: ZFlags, b: ZFlags): ZFlags {
    ZFlags(a.nx || b.nx, a.xx || b.xx, a.ch || b.ch, a.incr || b.incr, a.gt || b.gt, a.lt || b.lt)
  }

  /** Reading the flags finds exactly these words and stops at the first that is none. */
  lemma {:induction false} ZFlagsRead(argv: Argv, i: nat, n: nat, f: ZFlags)
    requires i <= n <= |argv| && (forall k: nat :: i <= k < n ==> ZFlagWord(Lower(argv[k])))
    requires n < |argv| ==> !ZFlagWord(Lower(argv[n]))
    ensures ReadZFlags(argv, i, f) == ZOptions(Either(f, ZWords(argv, i, n)), n)
    decreases n - i
  {
    if i < n {
      OneZFlag(argv, i, n, f);
      WordsStep(argv, i, n, f);
      hide Lower, ReadZFlags, ZWords, Either;
      ZFlagsRead(argv, i + 1, n, Either(f, ZWords(argv, i, i + 1)));
    } else {
      assert ZWords(argv, i, n) == NoZFlags;
    }
  }

  lemma WordsStep(argv: Argv, i: nat, n: nat, f: ZFlags)
    requires i < n <= |argv|
    ensures Either(Either(f, ZWords(argv, i, i + 1)), ZWords(argv, i + 1, n)) == Either(f, ZWords(argv, i, n))
  {
    GivenStep(argv, i, n, "nx");
    GivenStep(argv, i, n, "xx");
    GivenStep(argv, i, n, "ch");
    GivenStep(argv, i, n, "incr");
    GivenStep(argv, i, n, "gt");
    GivenStep(argv, i, n, "lt");
    hide ZGiven;
  }

  lemma GivenStep(argv: Argv, i: nat, n: nat, word: string)
    requires i < n <= |argv|
    ensures ZGiven(argv, i, n, word) <==> ZGiven(argv, i, i + 1, word) || ZGiven(argv, i + 1, n, word)
    ensures ZGiven(argv, i, i + 1, word) <==> Lower(argv[i]) == word
  {
    hide Lower;
  }

  lemma OneZFlag(argv: Argv, i: nat, n: nat, f: ZFlags)
    requires i < n <= |argv| && ZFlagWord(Lower(argv[i]))
    ensures ReadZFlags(argv, i, f) == ReadZFlags(argv, i + 1, Either(f, ZWords(argv, i, i + 1)))
  {
    GivenStep(argv, i, n, "nx");
    GivenStep(argv, i, n, "xx");
    GivenStep(argv, i, n, "ch");
    GivenStep(argv, i, n, "incr");
    GivenStep(argv, i, n, "gt");
    GivenStep(argv, i, n, "lt");
    hide Lower, ZGiven;
  }

  /** ZADD without a score for every member, or on a key of another kind, changes nothing and says so. */
  lemma ZAddRefuses(ext: Outside, db: Db, argv: Argv, n: nat)
    requires |argv| >= 2 && FlagsEnd(argv, n)
    requires n == |argv| || (|argv| - n) % 2 != 0 || (argv[1] in db && !db[argv[1]].ZSet?)
    ensures var e := ZAdd(ext, db, argv);
      && e.Effect? && e.db == db && !e.dirty
      && Says(e.reply, Failed(
           if n == |argv| || (|argv| - n) % 2 != 0 then "ERR syntax error"
           else "WRONGTYPE Operation against a key holding the wrong kind of value"))
  {
    hide *;
    FlagsAreWords(argv, n);
    SyntaxSays();
    WrongTypeSays();
    ZAddRefusal(ext, db, argv);
  }

  lemma FlagsAreWords(argv: Argv, n: nat)
    requires FlagsEnd(argv, n)
    ensures 2 <= n <= |argv| && ReadZFlags(argv, 2, NoZFlags) == ZOptions(ZWords(argv, 2, n), n)
  {
    hide Lower, ReadZFlags;
    ZFlagsRead(argv, 2, n, NoZFlags);
    hide ZGiven, ZFlagWord;
  }

  lemma SyntaxSays()
    ensures Says(SYNTAX, Failed("ERR syntax error"))
  {
    ErrorSays("ERR syntax error");
  }

  lemma WrongTypeSays()
    ensures Says(WRONG_TYPE, Failed("WRONGTYPE Operation against a key holding the wrong kind of value"))
  {
    ErrorSays("WRONGTYPE Operation against a key holding the wrong kind of value");
  }

  lemma ZAddRefusal(ext: Outside, db: Db, argv: Argv)
    requires |argv| >= 2
    ensures var n := ReadZFlags(argv, 2, NoZFlags).next;
      if n >= |argv| || (|argv| - n) % 2 != 0 then ZAdd(ext, db, argv) == Effect(db, false, SYNTAX)
      else argv[1] in db && !db[argv[1]].ZSet? ==> ZAdd(ext, db, argv) == Effect(db, false, WRONG_TYPE)
  {
    hide ReadZFlags, AddScores, ErrorReply, IntReply, BulkReply;
  }

  /** What ZADD does to every member, with the flags as words; other keys stay, and an emptied set goes with its key. */
  lemma ZAddMeans(ext: Outside, db: Db, argv: Argv, n: nat, m: string)
    requires |argv| >= 2 && FlagsEnd(argv, n) && n < |argv| && (|argv| - n) % 2 == 0
    requires argv[1] in db ==> db[argv[1]].ZSet?
    ensures var key, e, f := argv[1], ZAdd(ext, db, argv), ZWords(argv, 2, n);
      && e.Effect? && e.db - {key} == db - {key}
      && ScoreMeans(f, ScoresOf(db, key), ScoresOf(e.db, key), m, LastGiven(ext, argv, n, m))
  {
    FlagsAreWords(argv, n);
    ZAddByFlags(ext, db, argv, m);
    hide ReadZFlags, ZAdd, ScoreMeans, FlagsEnd;
  }

  ghost predicate ScoresReadable(ext: Outside, argv: Argv, n: nat) {
    forall k: nat :: n <= k < |argv| && (k - n) % 2 == 0 ==> ext.parse(argv[k]) != None
  }

  /** The reply without INCR and CH counts the members that are new; a score that cannot be read is said to be none. */
  lemma ZAddCounts(ext: Outside, db: Db, argv: Argv, n: nat)
    requires |argv| >= 2 && FlagsEnd(argv, n) && n < |argv| && (|argv| - n) % 2 == 0
    requires argv[1] in db ==> db[argv[1]].ZSet?
    ensures var key, e, f := argv[1], ZAdd(ext, db, argv), ZWords(argv, 2, n);
      && e.Effect?
      && (ScoresReadable(ext, argv, n) && !f.incr && !f.ch ==>
            Says(e.reply, Int(|ScoresOf(e.db, key)| - |ScoresOf(db, key)|)))
      && (!ScoresReadable(ext, argv, n) ==> !e.dirty && Says(e.reply, Failed("ERR value is not a valid float")))
  {
    hide ReadZFlags, Says, ErrorReply, IntReply, FlagsEnd, AddScores, ScoresReadable, ZWords, ZAdd;
    FlagsAreWords(argv, n);
    var f, start := ZWords(argv, 2, n), Start(db, argv[1]);
    ReadableMeans(ext, f, argv, n, start);
    AddedAreNew(ext, f, argv, n, start);
    ZAddLeaves(ext, db, argv);
    ZAddDoes(ext, db, argv, n, f);
    var z := AddScores(ext, f, argv, n, start);
    ErrorSays("ERR value is not a valid float");
    IntSays(z.added);
  }

  lemma {:induction false} ReadableMeans(ext: Outside, f: ZFlags, argv: Argv, i: nat, z: ZAdded)
    requires i <= |argv| && (|argv| - i) % 2 == 0 && !z.bad
    ensures AddScores(ext, f, argv, i, z).bad <==> !ScoresReadable(ext, argv, i)
    decreases |argv| - i
  {
    hide AddScore;
    if i < |argv| && ext.parse(argv[i]) != None {
      var given, member := ext.parse(argv[i]).value, argv[i + 1];
      var score := if f.incr then ext.add(given, if member in z.scores then z.scores[member] else ext.zero) else given;
      assert !AddScore(f, z, member, score).bad by { KeepsGood(f, z, member, score); }
      ReadableMeans(ext, f, argv, i + 2, AddScore(f, z, member, score));
    }
  }

  lemma KeepsGood(f: ZFlags, z: ZAdded, member: string, score: int)
    requires !z.bad
    ensures !AddScore(f, z, member, score).bad
  {
  }

  /** ZADD of one member: what each flag lets through, what is stored, and each form of the reply. */
  lemma ZAddOne(ext: Outside, db: Db, argv: Argv, n: nat)
    requires FlagsEnd(argv, n) && |argv| == n + 2 && ext.parse(argv[n]) != None
    requires argv[1] in db ==> db[argv[1]].ZSet?
    ensures var key, m, e, f := argv[1], argv[n + 1], ZAdd(ext, db, argv), ZWords(argv, 2, n);
      var before, given := ScoresOf(db, key), ext.parse(argv[n]).value;
      var score := if !f.incr then given else ext.add(given, if m in before then before[m] else ext.zero);
      var let := if m !in before then !f.xx
        else !f.nx && (f.gt ==> score > before[m]) && (f.lt ==> score < before[m]);
      var after := if let then before[m := score] else before;
      && e.Effect? && e.db == (if after == map[] then db - {key} else db[key := ZSet(after)])
      && (e.dirty <==> after != before)
      && Says(e.reply,
           if f.incr then if let then Text(ext.show(score)) else Nil
           else if f.ch then Int(if after != before then 1 else 0)
           else Int(|after| - |before|))
  {
    hide ReadZFlags, FlagsEnd, AddScores, ZWords, Says, Store, AddScore, ZAdd;
    FlagsAreWords(argv, n);
    var f, start := ZWords(argv, 2, n), Start(db, argv[1]);
    OnePair(ext, f, argv, n, start);
    ZAddSays(ext, db, argv);
    StoresScores(db, argv[1], AddScores(ext, f, argv, n, start).scores);
    var given, m, before := ext.parse(argv[n]).value, argv[n + 1], ScoresOf(db, argv[1]);
    OneScore(f, before, m, if !f.incr then given else ext.add(given, if m in before then before[m] else ext.zero));
  }

  /** One score set on its own. */
  lemma OneScore(f: ZFlags, before: map<string, int>, m: string, score: int)
    ensures var let := if m !in before then !f.xx
        else !f.nx && (f.gt ==> score > before[m]) && (f.lt ==> score < before[m]);
      var after := if let then before[m := score] else before;
      var r := AddScore(f, ZAdded(before, 0, 0, None, false), m, score);
      && r.scores == after && !r.bad && r.last == (if let then Some(score) else None)
      && r.changed == (if after != before then 1 else 0) && r.added == |after| - |before|
  {
    if m in before {
      assert before[m := before[m]] == before;
      assert score != before[m] ==> before[m := score] != before by {
        assert before[m := score][m] == score;
      }
      assert |before[m := score]| == |before| by { assert before[m := score].Keys == before.Keys; }
    } else {
      assert m in before[m := score] && |before[m := score]| == |before| + 1;
    }
  }

  lemma StoresScores(db: Db, key: string, scores: map<string, int>)
    ensures Store(db, key, ZSet(scores)) == if scores == map[] then db - {key} else db[key := ZSet(scores)]
  {
  }

  /** What ZADD leaves and says, from the scores it has worked out. */
  lemma ZAddSays(ext: Outside, db: Db, argv: Argv)
    requires |argv| >= 2 && (argv[1] in db ==> db[argv[1]].ZSet?)
    requires var o := ReadZFlags(argv, 2, NoZFlags); o.next < |argv| && (|argv| - o.next) % 2 == 0
    ensures var key, o, e := argv[1], ReadZFlags(argv, 2, NoZFlags), ZAdd(ext, db, argv);
      var z := AddScores(ext, o.flags, argv, o.next, ZAdded(ScoresOf(db, key), 0, 0, None, false));
      !z.bad ==>
        && e.Effect? && e.db == Store(db, key, ZSet(z.scores)) && (e.dirty <==> z.added > 0 || z.changed > 0)
        && Says(e.reply,
             if o.flags.incr then if z.last.Some? then Text(ext.show(z.last.value)) else Nil
             else Int(if o.flags.ch then z.changed else z.added))
  {
    var o := ReadZFlags(argv, 2, NoZFlags);
    var z := AddScores(ext, o.flags, argv, o.next, ZAdded(ScoresOf(db, argv[1]), 0, 0, None, false));
    hide ReadZFlags, AddScores, Says, IntReply, BulkReply, ErrorReply, Store;
    NilSays();
    IntSays(z.added);
    IntSays(z.changed);
    if z.last.Some? {
      BulkSays(ext.show(z.last.value));
    }
  }

  lemma OnePair(ext: Outside, f: ZFlags, argv: Argv, n: nat, z: ZAdded)
    requires |argv| == n + 2 && ext.parse(argv[n]) != None
    ensures var given, m := ext.parse(argv[n]).value, argv[n + 1];
      var score := if f.incr then ext.add(given, if m in z.scores then z.scores[m] else ext.zero) else given;
      AddScores(ext, f, argv, n, z) == AddScore(f, z, m, score)
  {
    hide AddScore;
  }

  // ---------------------------------------------------------------------------
  // ZADD of several members
  // ---------------------------------------------------------------------------

  /** ZADD of a first pair and more is ZADD of the first and then of the others; the numbers in the replies add up. */
  lemma ZAddInTurn(ext: Outside, db: Db, argv: Argv, n: nat)
    requires FlagsEnd(argv, n) && n + 2 < |argv| && (|argv| - n) % 2 == 0 && ext.parse(argv[n]) != None
    requires FlagsEnd(argv[..n] + argv[n + 2..], n) && (argv[1] in db ==> db[argv[1]].ZSet?)
    ensures var first, others := argv[..n + 2], argv[..n] + argv[n + 2..];
      var e, e1 := ZAdd(ext, db, argv), ZAdd(ext, db, first);
      && e.Effect? && e1.Effect?
      && var e2 := ZAdd(ext, e1.db, others);
        && e2.Effect? && e.db == e2.db
        && (ScoresReadable(ext, argv, n) ==> (e.dirty <==> e1.dirty || e2.dirty))
        && (ScoresReadable(ext, argv, n) && !ZWords(argv, 2, n).incr ==> exists a, b ::
              Says(e1.reply, Int(a)) && Says(e2.reply, Int(b)) && Says(e.reply, Int(a + b)))
  {
    hide *;
    var first, others, f := argv[..n + 2], argv[..n] + argv[n + 2..], ZWords(argv, 2, n);
    PartsRead(argv, n);
    var z, z1 := AddScores(ext, f, argv, n, Start(db, argv[1])), AddScores(ext, f, first, n, Start(db, argv[1]));
    ZAddDoes(ext, db, argv, n, f);
    ZAddDoes(ext, db, first, n, f);
    FirstPair(ext, f, argv, n, Start(db, argv[1]));
    KeyHoldsScores(ext, db, argv[1], f, z1);
    var db1 := ZOutcome(ext, db, argv[1], f, z1).db;
    ZAddDoes(ext, db1, others, n, f);
    OtherPairs(ext, f, argv, others, n + 2, n, z1, Start(db1, argv[1]));
    OutcomesAdd(ext, db, argv[1], f, z, z1, AddScores(ext, f, others, n, Start(db1, argv[1])));
    ReadableMeans(ext, f, argv, n, Start(db, argv[1]));
  }

  function Start(db: Db, key: string): (z: ZAdded)
    ensures !z.bad
  {
    ZAdded(ScoresOf(db, key), 0, 0, None, false)
  }

  /** What ZADD leaves and says, once it knows the scores. */
  function ZOutcome(ext: Outside, db: Db, key: string, f: ZFlags, z: ZAdded): (e: Effect)
    ensures e.Effect?
  {
    if z.bad then Effect(db[key := ZSet(z.scores)], false, NOT_FLOAT)
    else
      var said :=
        if !f.incr then IntReply(if f.ch then z.changed else z.added)
        else if z.last.Some? then BulkReply(ext.show(z.last.value)) else NULL_BULK;
      Effect(Store(db, key, ZSet(z.scores)), z.added > 0 || z.changed > 0, said)
  }

  lemma ZAddDoes(ext: Outside, db: Db, argv: Argv, n: nat, f: ZFlags)
    requires |argv| >= 2 && n < |argv| && (|argv| - n) % 2 == 0 && ReadZFlags(argv, 2, NoZFlags) == ZOptions(f, n)
    requires argv[1] in db ==> db[argv[1]].ZSet?
    ensures ZAdd(ext, db, argv) == ZOutcome(ext, db, argv[1], f, AddScores(ext, f, argv, n, Start(db, argv[1])))
  {
    hide ReadZFlags, AddScores, Store, IntReply, BulkReply, ErrorReply;
  }

  lemma KeyHoldsScores(ext: Outside, db: Db, key: string, f: ZFlags, z: ZAdded)
    requires !z.bad
    ensures var db1 := ZOutcome(ext, db, key, f, z).db;
      (key in db1 ==> db1[key].ZSet?) && Start(db1, key) == ZAdded(z.scores, 0, 0, None, false)
  {
    hide IntReply, BulkReply;
  }

  lemma FirstPair(ext: Outside, f: ZFlags, argv: Argv, n: nat, z: ZAdded)
    requires n + 2 < |argv| && ext.parse(argv[n]) != None && !z.bad
    ensures var z1 := AddScores(ext, f, argv[..n + 2], n, z);
      !z1.bad && AddScores(ext, f, argv, n, z) == AddScores(ext, f, argv, n + 2, z1)
  {
    var first, member := argv[..n + 2], argv[n + 1];
    assert first[n] == argv[n] && first[n + 1] == member && |first| == n + 2;
    OnePair(ext, f, first, n, z);
    var given := ext.parse(argv[n]).value;
    var cur := if member in z.scores then z.scores[member] else ext.zero;
    KeepsGood(f, z, member, if f.incr then ext.add(given, cur) else given);
    hide AddScore;
  }

  /** Pairs that come later only add to the counts; where they stand makes no difference. */
  lemma {:induction false} OtherPairs(ext: Outside, f: ZFlags, argv: Argv, part: Argv, i: nat, k: nat,
      z: ZAdded, y: ZAdded)
    requires i <= |argv| && k <= |part| && argv[i..] == part[k..] && z.scores == y.scores && z.bad == y.bad
    ensures var z', y' := AddScores(ext, f, argv, i, z), AddScores(ext, f, part, k, y);
      && z'.scores == y'.scores && z'.bad == y'.bad
      && z'.added - z.added == y'.added - y.added && z'.changed - z.changed == y'.changed - y.changed
    decreases |argv| - i
  {
    assert |argv| - i == |part| - k by { assert |argv[i..]| == |part[k..]|; }
    if i + 1 < |argv| {
      assert argv[i] == argv[i..][0] == part[k] && argv[i + 1] == argv[i..][1] == part[k + 1];
      if ext.parse(argv[i]) != None {
        var given, member := ext.parse(argv[i]).value, argv[i + 1];
        var cur := if member in z.scores then z.scores[member] else ext.zero;
        var score := if f.incr then ext.add(given, cur) else given;
        SameStep(f, z, y, member, score);
        assert argv[i + 2..] == argv[i..][2..] == part[k..][2..] == part[k + 2..];
        hide AddScore;
        OtherPairs(ext, f, argv, part, i + 2, k + 2, AddScore(f, z, member, score), AddScore(f, y, member, score));
      }
    }
  }

  lemma SameStep(f: ZFlags, z: ZAdded, y: ZAdded, member: string, score: int)
    requires z.scores == y.scores && z.bad == y.bad
    ensures var z', y' := AddScore(f, z, member, score), AddScore(f, y, member, score);
      && z'.scores == y'.scores && z'.bad == y'.bad
      && z'.added - z.added == y'.added - y.added && z'.changed - z.changed == y'.changed - y.changed
  {
  }

  lemma OutcomesAdd(ext: Outside, db: Db, key: string, f: ZFlags, z: ZAdded, z1: ZAdded, z2: ZAdded)
    requires !z1.bad && z.bad == z2.bad && z.scores == z2.scores
    requires z.added == z1.added + z2.added && z.changed == z1.changed + z2.changed
    ensures var e, e1 := ZOutcome(ext, db, key, f, z), ZOutcome(ext, db, key, f, z1);
      var e2 := ZOutcome(ext, e1.db, key, f, z2);
      && e.db == e2.db
      && (!z.bad ==> (e.dirty <==> e1.dirty || e2.dirty))
      && (!z.bad && !f.incr ==> exists a, b ::
            Says(e1.reply, Int(a)) && Says(e2.reply, Int(b)) && Says(e.reply, Int(a + b)))
  {
    hide IntReply, BulkReply, ErrorReply, Says;
    var a, b := if f.ch then z1.changed else z1.added, if f.ch then z2.changed else z2.added;
    IntSays(a);
    IntSays(b);
    IntSays(a + b);
  }

  /** The flags are the same in either part. */
  lemma PartsRead(argv: Argv, n: nat)
    requires FlagsEnd(argv, n) && n + 2 < |argv| && FlagsEnd(argv[..n] + argv[n + 2..], n)
    ensures var f := ZWords(argv, 2, n);
      && ReadZFlags(argv, 2, NoZFlags) == ZOptions(f, n) && ReadZFlags(argv[..n + 2], 2, NoZFlags) == ZOptions(f, n)
      && ReadZFlags(argv[..n] + argv[n + 2..], 2, NoZFlags) == ZOptions(f, n)
  {
    var first, others := argv[..n + 2], argv[..n] + argv[n + 2..];
    hide Lower, ReadZFlags;
    FlagsAreWords(argv, n);
    FlagsAreWords(first, n);
    FlagsAreWords(others, n);
    assert forall k :: 0 <= k < n ==> first[k] == argv[k] && others[k] == argv[k];
    SameWords(argv, first, n);
    SameWords(argv, others, n);
  }

  lemma SameWords(argv: Argv, part: Argv, n: nat)
    requires n <= |argv| && n <= |part| && forall k :: 0 <= k < n ==> part[k] == argv[k]
    ensures ZWords(part, 2, n) == ZWords(argv, 2, n)
  {
    hide Lower;
    SameWord(argv, part, n, "nx");
    SameWord(argv, part, n, "xx");
    SameWord(argv, part, n, "ch");
    SameWord(argv, part, n, "incr");
    SameWord(argv, part, n, "gt");
    SameWord(argv, part, n, "lt");
    hide ZGiven;
  }

  lemma SameWord(argv: Argv, part: Argv, n: nat, word: string)
    requires n <= |argv| && n <= |part| && forall k :: 0 <= k < n ==> part[k] == argv[k]
    ensures ZGiven(part, 2, n, word) == ZGiven(argv, 2, n, word)
  {
    hide Lower;
    assert forall k: nat :: 2 <= k < n ==> Lower(part[k]) == Lower(argv[k]);
  }
}

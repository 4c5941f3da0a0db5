/** The handlers that loop over their arguments, step by step. */
module Commands {
  import opened Options
  import opened Resp
  import opened Pipelines
  import opened Routing
  import opened Handlers
  import opened Replies

  /** Erasing one more name from what is left: it counts exactly when it was still there. */
  lemma EraseOne<V>(m: map<string, V>, s: set<string>, x: string)
    ensures x in m - s ==> m - (s + {x}) == (m - s) - {x} && InBoth(m.Keys, s + {x}) == InBoth(m.Keys, s) + 1
    ensures x !in m - s ==> m - (s + {x}) == m - s && InBoth(m.Keys, s + {x}) == InBoth(m.Keys, s)
  {
    if x in m - s {
      assert m.Keys * (s + {x}) == m.Keys * s + {x};
    } else {
      assert m.Keys * (s + {x}) == m.Keys * s;
    }
  }

  /** How many elements two sets share. */
  function InBoth(a: set<string>, b: set<string>): nat {
    |a * b|
  }

  lemma NoArgs(argv: Argv, lo: nat)
    requires lo <= |argv|
    ensures ArgRange(argv, lo, lo) == {}
  {
  }

  lemma EraseNone<V>(m: map<string, V>)
    ensures m - {} == m && InBoth(m.Keys, {}) == 0
  {
    assert m.Keys * {} == {};
  }

  method EraseAll<V>(m: map<string, V>, argv: Argv, lo: nat) returns (r: map<string, V>, removed: nat)
    requires lo <= |argv|
    ensures r == m - ArgSet(argv, lo) && removed == InBoth(m.Keys, ArgSet(argv, lo))
  {
    hide ArgRange, InBoth;
    r, removed := m, 0;
    NoArgs(argv, lo);
    EraseNone(m);
    for i := lo to |argv|
      invariant r == m - ArgRange(argv, lo, i) && removed == InBoth(m.Keys, ArgRange(argv, lo, i))
    {
      NextArg(argv, lo, i);
      EraseOne(m, ArgRange(argv, lo, i), argv[i]);
      if argv[i] in r {
        r := r - {argv[i]};
        removed := removed + 1;
      }
    }
  }

  lemma EraseOneMember(m: set<string>, s: set<string>, x: string)
    ensures x in m - s ==> m - (s + {x}) == m - s - {x} && InBoth(m, s + {x}) == InBoth(m, s) + 1
    ensures x !in m - s ==> m - (s + {x}) == m - s && InBoth(m, s + {x}) == InBoth(m, s)
  {
    if x in m - s {
      assert m * (s + {x}) == m * s + {x};
    } else {
      assert m * (s + {x}) == m * s;
    }
  }

  lemma EraseNoMember(m: set<string>)
    ensures m - {} == m && InBoth(m, {}) == 0
  {
    assert m * {} == {};
  }

  method EraseMembers(m: set<string>, argv: Argv, lo: nat) returns (r: set<string>, removed: nat)
    requires lo <= |argv|
    ensures r == m - ArgSet(argv, lo) && removed == InBoth(m, ArgSet(argv, lo))
  {
    hide ArgRange, InBoth;
    r, removed := m, 0;
    NoArgs(argv, lo);
    EraseNoMember(m);
    for i := lo to |argv|
      invariant r == m - ArgRange(argv, lo, i) && removed == InBoth(m, ArgRange(argv, lo, i))
    {
      NextArg(argv, lo, i);
      EraseOneMember(m, ArgRange(argv, lo, i), argv[i]);
      if argv[i] in r {
        r := r - {argv[i]};
        removed := removed + 1;
      }
    }
  }

  lemma AddOneMember(m: set<string>, s: set<string>, x: string)
    ensures m + (s + {x}) == m + s + {x}
    ensures |(s + {x}) - m| == |s - m| + if x !in m + s then 1 else 0
  {
    if x !in m + s {
      assert (s + {x}) - m == (s - m) + {x};
    } else {
      assert (s + {x}) - m == s - m;
    }
  }

  method AddMembers(m: set<string>, argv: Argv, lo: nat) returns (r: set<string>, added: nat)
    requires lo <= |argv|
    ensures r == m + ArgSet(argv, lo) && added == |ArgSet(argv, lo) - m|
  {
    r, added := m, 0;
    assert ArgRange(argv, lo, lo) == {} && m + {} == m && {} - m == {};
    hide ArgRange;
    for i := lo to |argv|
      invariant r == m + ArgRange(argv, lo, i) && added == |ArgRange(argv, lo, i) - m|
    {
      NextArg(argv, lo, i);
      AddOneMember(m, ArgRange(argv, lo, i), argv[i]);
      if argv[i] !in r {
        added := added + 1;
      }
      r := r + {argv[i]};
    }
  }

  method CollectItems(db: Db, keys: seq<string>) returns (out: string)
    ensures out == Joined(MGetItems(db, keys))
  {
    out := [];
    for i := 0 to |keys|
      invariant out == Joined(MGetItems(db, keys[..i]))
    {
      assert MGetItems(db, keys[..i + 1])[..i] == MGetItems(db, keys[..i]);
      if keys[i] in db && db[keys[i]].Str? {
        out := out + BulkReply(db[keys[i]].s);
      } else {
        out := out + NULL_BULK;
      }
    }
    assert keys[..|keys|] == keys;
  }

  /** One more item comes off: what was taken grows by it. */
  lemma TakeOne(l: seq<string>, i: nat, head: bool)
    requires i < |l|
    ensures var items := Leftover(l, i, head);
      var item := if head then items[0] else items[|items| - 1];
      && Taken(l, i + 1, head) == Taken(l, i, head) + [item]
      && Leftover(l, i + 1, head) == if head then items[1..] else items[..|items| - 1]
  {
    if head {
      assert l[..i + 1] == l[..i] + [l[i]];
      assert l[i..][1..] == l[i + 1..];
    } else {
      var k := |l| - i - 1;
      ReversedCons(l[k], l[k + 1..]);
      hide Reversed;
      assert l[k..] == [l[k]] + l[k + 1..];
      assert l[..k + 1][..k] == l[..k];
    }
  }

  lemma ReversedCons(x: string, s: seq<string>)
    ensures Reversed([x] + s) == Reversed(s) + [x]
  {
  }

  lemma JoinOne(taken: seq<string>, item: string)
    ensures Joined(Bulks(taken + [item])) == Joined(Bulks(taken)) + BulkReply(item)
  {
    assert Bulks(taken + [item])[..|taken|] == Bulks(taken);
  }

  lemma TakeNone(l: seq<string>, head: bool)
    ensures Taken(l, 0, head) == [] && Leftover(l, 0, head) == l && Joined(Bulks([])) == []
  {
  }

  /** Popping `n` items off one end and printing each. */
  method TakeItems(before: seq<string>, n: nat, head: bool) returns (items: seq<string>, out: string)
    requires n <= |before|
    ensures items == Leftover(before, n, head)
    ensures out == Joined(Bulks(Taken(before, n, head)))
  {
    hide *;
    items, out := before, [];
    TakeNone(before, head);
    for i := 0 to n
      invariant items == Leftover(before, i, head) && |items| == |before| - i
      invariant out == Joined(Bulks(Taken(before, i, head)))
    {
      var item := if head then items[0] else items[|items| - 1];
      TakeOne(before, i, head);
      JoinOne(Taken(before, i, head), item);
      out := out + BulkReply(item);
      items := if head then items[1..] else items[..|items| - 1];
    }
  }

  lemma PushOne(args: seq<string>, i: nat, items: seq<string>, head: bool)
    requires i < |args|
    ensures Reversed(args[..i + 1]) + items == [args[i]] + (Reversed(args[..i]) + items)
    ensures items + args[..i + 1] == items + args[..i] + [args[i]]
  {
    assert args[..i + 1] == args[..i] + [args[i]];
  }

  method PushAll(before: seq<string>, args: seq<string>, head: bool) returns (items: seq<string>)
    ensures items == if head then Reversed(args) + before else before + args
  {
    items := before;
    assert Reversed(args[..0]) + before == before && before + args[..0] == before && args[..|args|] == args;
    hide *;
    for i := 0 to |args|
      invariant items == if head then Reversed(args[..i]) + before else before + args[..i]
    {
      PushOne(args, i, before, head);
      items := if head then [args[i]] + items else items + [args[i]];
    }
  }

  method PopReply(before: seq<string>, n: nat, hasCount: bool, head: bool) returns (rest: seq<string>, text: string)
    requires n <= |before|
    ensures rest == Leftover(before, n, head) && text == PopText(before, n, head, hasCount)
  {
    hide Taken, Leftover, Joined, Bulks, ArrayHeader;
    text := [];
    if hasCount {
      text := ArrayHeader(n);
    }
    var out: string;
    rest, out := TakeItems(before, n, head);
    TakeNone(before, head);
    text := text + out;
    if !hasCount && n == 0 {
      text := text + NULL_BULK;
    }
  }

  lemma SomeCounted(s: set<string>)
    ensures |s| > 0 <==> s != {}
  {
  }

  /** What a handler is given: the keyspace, the dirty flag and the reply under construction. */
  class Context {
    var db: Db
    var dirty: bool
    var reply: string

    constructor (db: Db)
      ensures this.db == db && !dirty && reply == []
    {
      this.db, dirty, reply := db, false, [];
    }

    ghost function Left(): Effect
      reads this
    {
      Effect(db, dirty, reply)
    }

    method DelKeys(argv: Argv)
      requires |argv| >= 2 && !dirty && reply == []
      modifies this
      ensures Left() == Del(old(db), argv)
    {
      var rest, removed := EraseAll(db, argv, 1);
      db := rest;
      if removed > 0 {
        dirty := true;
      }
      reply := reply + IntReply(removed);
    }

    /** Putting a container back, or dropping its key when nothing is left in it. */
    method Keep(key: string, o: Obj, size: nat)
      requires o.Hash? ==> size == |o.fields|
      requires o.Set? ==> size == |o.members|
      requires o.ZSet? ==> size == |o.scores|
      requires o.List? ==> size == |o.items|
      requires !o.Str?
      modifies this`db
      ensures db == Store(old(db), key, o)
    {
      db := db[key := o];
      if size == 0 {
        db := db - {key};
      }
    }

    method ExistsKeys(argv: Argv)
      requires |argv| >= 2 && !dirty && reply == []
      modifies this
      ensures Left() == Exists(old(db), argv)
    {
      var count := 0;
      for i := 1 to |argv|
        invariant count == CountIn(db, argv[1..i]) && db == old(db) && !dirty && reply == []
      {
        assert argv[1..i + 1][..i - 1] == argv[1..i];
        if argv[i] in db {
          count := count + 1;
        }
      }
      assert argv[1..|argv|] == argv[1..];
      reply := reply + IntReply(count);
    }

    method MGet(argv: Argv)
      requires |argv| >= 2 && !dirty && reply == []
      modifies this
      ensures Left() == MGetMany(old(db), argv)
      ensures Says(reply, Array(ToldAll(old(db), argv)))
    {
      MGetSays(db, argv);
      hide Says;
      var items := CollectItems(db, argv[1..]);
      reply := reply + ArrayHeader(|argv| - 1) + items;
    }

    method MSet(argv: Argv)
      requires |argv| >= 3 && !dirty && reply == []
      modifies this
      ensures Left() == MSetMany(old(db), argv)
    {
      if |argv| % 2 != 1 {
        reply := reply + WrongArity(argv[0]);
        return;
      }
      var i := 1;
      while i + 1 < |argv|
        invariant i <= |argv| && StorePairs(db, argv, i) == StorePairs(old(db), argv, 1) && !dirty && reply == []
      {
        db := db[argv[i] := Str(argv[i + 1])];
        i := i + 2;
      }
      dirty := true;
      reply := reply + OK;
    }

    static method ParseSetOptions(argv: Argv) returns (o: SetOptions)
      requires |argv| >= 3
      ensures o == ReadOptions(argv, 3, NoOptions)
    {
      o := NoOptions;
      var i := 3;
      while i < |argv|
        invariant i <= |argv| && o.Options? && ReadOptions(argv, i, o) == ReadOptions(argv, 3, NoOptions)
      {
        var opt := Lower(argv[i]);
        if opt == "nx" {
          o := o.(nx := true);
        } else if opt == "xx" {
          o := o.(xx := true);
        } else if opt == "keepttl" {
          o := o.(keepTtl := true);
        } else if opt == "get" {
          o := o.(getOld := true);
        } else if opt in {"ex", "px", "exat", "pxat"} && i + 1 < |argv| {
          var n := ParseInt(argv[i + 1]);
          if n == None || n.value <= 0 {
            return BadTime;
          }
          o := o.(time := TimeOf(opt, n.value));
          i := i + 1;
        } else {
          return BadSyntax;
        }
        i := i + 1;
      }
    }

    /** SET, at a time when no key is dead; `ttl` is the table of deadlines. */
    method SetKey(argv: Argv, now: nat, ttl: map<string, nat>) returns (deadlines: map<string, nat>)
      requires |argv| >= 3 && !dirty && reply == []
      modifies this
      ensures Left() == SetString(old(db), argv)
      ensures deadlines == SetDeadlines(old(db), ttl, argv, now)
    {
      hide ReadOptions, BulkReply, ErrorReply;
      deadlines := ttl;
      var key, value := argv[1], argv[2];
      var o := ParseSetOptions(argv);
      match o
      case BadTime =>
        reply := reply + ErrorReply("ERR invalid expire time in 'set' command");
      case BadSyntax =>
        reply := reply + SYNTAX;
      case Options(nx, xx, keepTtl, getOld, time) =>
        var existing := key in db && db[key].Str?;
        if nx && existing {
          reply := reply + if getOld then BulkReply(db[key].s) else NULL_BULK;
          return;
        }
        if xx && key !in db {
          reply := reply + NULL_BULK;
          return;
        }
        var prior := if existing then db[key].s else [];
        var deadline := DeadlineOf(time, now);
        var kept := if keepTtl && key in deadlines then deadlines[key] else 0;
        db, deadlines := db[key := Str(value)], deadlines - {key};
        if deadline != 0 {
          deadlines := deadlines[key := deadline];
        } else if kept != 0 {
          deadlines := deadlines[key := kept];
        }
        dirty := true;
        if getOld {
          reply := reply + if existing then BulkReply(prior) else NULL_BULK;
        } else {
          reply := reply + OK;
        }
    }

    method HSetFields(argv: Argv)
      requires |argv| >= 4 && !dirty && reply == []
      modifies this
      ensures Left() == HSet(old(db), argv)
    {
      var key := argv[1];
      if |argv| % 2 != 0 {
        reply := reply + WrongArity(argv[0]);
        return;
      }
      if key in db && !db[key].Hash? {
        reply := reply + WRONG_TYPE;
        return;
      }
      var fields := if key in db then db[key].fields else map[];
      ghost var before := fields;
      var added, i := 0, 2;
      while i + 1 < |argv|
        invariant i <= |argv| && PutFields(fields, argv, i) == PutFields(before, argv, 2)
        invariant |fields| == |before| + added && db == old(db) && !dirty && reply == []
      {
        if argv[i] !in fields {
          added := added + 1;
        }
        assert fields[argv[i] := argv[i + 1]].Keys == fields.Keys + {argv[i]};
        fields := fields[argv[i] := argv[i + 1]];
        i := i + 2;
      }
      db := db[key := Hash(fields)];
      dirty := true;
      if Lower(argv[0]) == "hmset" {
        reply := reply + OK;
      } else {
        reply := reply + IntReply(added);
      }
    }

    method HDelFields(argv: Argv)
      requires |argv| >= 3 && !dirty && reply == []
      modifies this
      ensures Left() == HDel(old(db), argv)
    {
      var key := argv[1];
      if key !in db {
        reply := reply + IntReply(0);
        return;
      }
      if !db[key].Hash? {
        reply := reply + WRONG_TYPE;
        return;
      }
      var fields, removed := EraseAll(db[key].fields, argv, 2);
      Keep(key, Hash(fields), |fields|);
      SomeCounted(old(db)[key].fields.Keys * ArgSet(argv, 2));
      if removed > 0 {
        dirty := true;
      }
      reply := reply + IntReply(removed);
    }

    method PushItems(argv: Argv, head: bool)
      requires |argv| >= 3 && !dirty && reply == []
      modifies this
      ensures Left() == Push(old(db), argv, head)
    {
      var key := argv[1];
      if key in db && !db[key].List? {
        reply := reply + WRONG_TYPE;
        return;
      }
      var items := if key in db then db[key].items else [];
      items := PushAll(items, argv[2..], head);
      db := db[key := List(items)];
      dirty := true;
      reply := reply + IntReply(|items|);
    }

    method PopItems(argv: Argv, head: bool)
      requires 2 <= |argv| && !dirty && reply == []
      modifies this
      ensures Left() == Pop(old(db), argv, head)
    {
      hide PopText, Leftover, ParseInt, Store, ErrorReply;
      var key, hasCount := argv[1], |argv| == 3;
      if key in db && !db[key].List? {
        reply := reply + WRONG_TYPE;
        return;
      }
      var count := if hasCount then ParseInt(argv[2]) else Some(1);
      if count == None || count.value < 0 {
        reply := reply + NOT_INT;
        return;
      }
      if key !in db {
        reply := reply + if hasCount then NULL_ARRAY else NULL_BULK;
        return;
      }
      var items := db[key].items;
      var n := if count.value < |items| then count.value else |items|;
      var rest, text := PopReply(items, n, hasCount, head);
      reply := reply + text;
      Keep(key, List(rest), |rest|);
      dirty := true;
    }

    method SAddMembers(argv: Argv)
      requires |argv| >= 3 && !dirty && reply == []
      modifies this
      ensures Left() == SAdd(old(db), argv)
    {
      var key := argv[1];
      if key in db && !db[key].Set? {
        reply := reply + WRONG_TYPE;
        return;
      }
      var before := if key in db then db[key].members else {};
      var members, added := AddMembers(before, argv, 2);
      hide ArgRange, ErrorReply, IntReply;
      assert members == before + (ArgSet(argv, 2) - before);
      SomeCounted(ArgSet(argv, 2) - before);
      db := db[key := Set(members)];
      if added > 0 {
        dirty := true;
      }
      reply := reply + IntReply(added);
    }

    method SRemMembers(argv: Argv)
      requires |argv| >= 3 && !dirty && reply == []
      modifies this
      ensures Left() == SRem(old(db), argv)
    {
      var key := argv[1];
      if key !in db {
        reply := reply + IntReply(0);
        return;
      }
      if !db[key].Set? {
        reply := reply + WRONG_TYPE;
        return;
      }
      var members, removed := EraseMembers(db[key].members, argv, 2);
      assert members == old(db)[key].members - (old(db)[key].members * ArgSet(argv, 2));
      Keep(key, Set(members), |members|);
      SomeCounted(old(db)[key].members * ArgSet(argv, 2));
      if removed > 0 {
        dirty := true;
      }
      reply := reply + IntReply(removed);
    }

    static method ParseZFlags(argv: Argv) returns (o: ZOptions)
      requires |argv| >= 2
      ensures o == ReadZFlags(argv, 2, NoZFlags)
    {
      var i, f := 2, NoZFlags;
      while i < |argv|
        invariant i <= |argv| && ReadZFlags(argv, i, f) == ReadZFlags(argv, 2, NoZFlags)
      {
        var opt := Lower(argv[i]);
        if opt == "nx" {
          f := f.(nx := true);
        } else if opt == "xx" {
          f := f.(xx := true);
        } else if opt == "ch" {
          f := f.(ch := true);
        } else if opt == "incr" {
          f := f.(incr := true);
        } else if opt == "gt" {
          f := f.(gt := true);
        } else if opt == "lt" {
          f := f.(lt := true);
        } else {
          break;
        }
        i := i + 1;
      }
      o := ZOptions(f, i);
    }

    static method AddAll(ext: Outside, f: ZFlags, argv: Argv, start: nat, before: map<string, int>) returns (z: ZAdded)
      requires start <= |argv|
      ensures z == AddScores(ext, f, argv, start, ZAdded(before, 0, 0, None, false))
    {
      var i := start;
      z := ZAdded(before, 0, 0, None, false);
      while i + 1 < |argv|
        invariant i <= |argv| && !z.bad
        invariant AddScores(ext, f, argv, i, z) == AddScores(ext, f, argv, start, ZAdded(before, 0, 0, None, false))
      {
        var parsed := ext.parse(argv[i]);
        if parsed == None {
          z := z.(bad := true);
          return;
        }
        var score, member := parsed.value, argv[i + 1];
        if f.incr {
          score := ext.add(score, if member in z.scores then z.scores[member] else ext.zero);
        }
        z := AddOne(f, z, member, score);
        i := i + 2;
      }
    }

    static method AddOne(f: ZFlags, z: ZAdded, member: string, score: int) returns (r: ZAdded)
      ensures r == AddScore(f, z, member, score) && r.bad == z.bad
    {
      r := z;
      if member !in z.scores {
        if f.xx {
          return;
        }
        r := r.(scores := z.scores[member := score], added := z.added + 1, changed := z.changed + 1);
      } else {
        if f.nx {
          return;
        }
        if f.gt && score <= z.scores[member] {
          return;
        }
        if f.lt && score >= z.scores[member] {
          return;
        }
        if z.scores[member] != score {
          r := r.(scores := z.scores[member := score], changed := z.changed + 1);
        }
      }
      r := r.(last := Some(score));
    }

    method ZAddMembers(ext: Outside, argv: Argv)
      requires |argv| >= 4 && !dirty && reply == []
      modifies this
      ensures Left() == ZAdd(ext, old(db), argv)
    {
      hide AddScores, ReadZFlags, Store, BulkReply, IntReply, ErrorReply, Lower;
      var key := argv[1];
      var o := ParseZFlags(argv);
      if o.next >= |argv| || (|argv| - o.next) % 2 != 0 {
        reply := reply + SYNTAX;
        return;
      }
      if key in db && !db[key].ZSet? {
        reply := reply + WRONG_TYPE;
        return;
      }
      var scores := if key in db then db[key].scores else map[];
      var z := AddAll(ext, o.flags, argv, o.next, scores);
      if z.bad {
        db := db[key := ZSet(z.scores)];
        reply := reply + NOT_FLOAT;
        return;
      }
      if z.added > 0 || z.changed > 0 {
        dirty := true;
      }
      Keep(key, ZSet(z.scores), |z.scores|);
      if o.flags.incr {
        if z.last.Some? {
          reply := reply + BulkReply(ext.show(z.last.value));
        } else {
          reply := reply + NULL_BULK;
        }
      } else {
        reply := reply + IntReply(if o.flags.ch then z.changed else z.added);
      }
    }

    method ZRemMembers(argv: Argv)
      requires |argv| >= 3 && !dirty && reply == []
      modifies this
      ensures Left() == ZRem(old(db), argv)
    {
      var key := argv[1];
      if key !in db {
        reply := reply + IntReply(0);
        return;
      }
      if !db[key].ZSet? {
        reply := reply + WRONG_TYPE;
        return;
      }
      var scores, removed := EraseAll(db[key].scores, argv, 2);
      Keep(key, ZSet(scores), |scores|);
      SomeCounted(old(db)[key].scores.Keys * ArgSet(argv, 2));
      if removed > 0 {
        dirty := true;
      }
      reply := reply + IntReply(removed);
    }
  }
}

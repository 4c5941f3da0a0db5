/** ZRANGE and ZRANGEBYSCORE: their arguments, and the bytes they answer with. */
module ZRanges {
  import opened Options
  import opened Resp
  import opened Pipelines
  import opened Routing
  import opened Ordering
  import opened SkipLists
  import opened ZSets
  import opened Handlers
  import opened Replies

  /** What the key holds. */
  datatype Target = Missing | OtherType | Found(z: ZSets.ZSet)

  // ---------------------------------------------------------------------------
  // Replies
  // ---------------------------------------------------------------------------

  /** The strings sent for some entries: each member, followed by its score when scores were asked for. */
  function Fields(ext: Outside, items: seq<Key>, scores: bool): seq<string> {
    if items == [] then []
    else
      var last := |items| - 1;
      Fields(ext, items[..last], scores) + FieldsOf(ext, items[last], scores)
  }

  function ArrayOf(frags: seq<string>): string {
    ArrayHeader(|frags|) + Joined(frags)
  }

  /** The strings of one entry. */
  function FieldsOf(ext: Outside, item: Key, scores: bool): seq<string> {
    if scores then [BulkReply(item.member), BulkReply(ext.show(item.score))] else [BulkReply(item.member)]
  }

  /** As many strings are sent as the header announces, in the order of the entries. */
  lemma {:induction false} FieldsAre(ext: Outside, items: seq<Key>, scores: bool)
    ensures var f, w := Fields(ext, items, scores), if scores then 2 else 1;
      && |f| == w * |items|
      && forall i :: 0 <= i < |items| ==> w * i + w <= |f| && f[w * i..w * i + w] == FieldsOf(ext, items[i], scores)
  {
    hide BulkReply;
    if items != [] {
      var last, w := |items| - 1, if scores then 2 else 1;
      FieldsAre(ext, items[..last], scores);
      var before, f := Fields(ext, items[..last], scores), Fields(ext, items, scores);
      assert f == before + FieldsOf(ext, items[last], scores) && |before| == w * last;
      hide Fields, FieldsOf;
      forall i | 0 <= i < |items|
        ensures w * i + w <= |f| && f[w * i..w * i + w] == FieldsOf(ext, items[i], scores)
      {
        if i < last {
          assert items[..last][i] == items[i];
          assert w * i + w <= |before|;
          assert f[w * i..w * i + w] == before[w * i..w * i + w];
        }
      }
    }
  }

  /** What the client is told of some entries: each member, followed by its score when scores were asked for. */
  function Sent(ext: Outside, items: seq<Key>, scores: bool): (r: seq<Reply>)
    ensures |r| == if scores then 2 * |items| else |items|
  {
    if scores then
      seq(2 * |items|, k requires 0 <= k < 2 * |items| =>
        Text(if k % 2 == 0 then items[k / 2].member else ext.show(items[k / 2].score)))
    else seq(|items|, k requires 0 <= k < |items| => Text(items[k].member))
  }

  /** The bytes of the reply say exactly these entries. */
  lemma FieldsSay(ext: Outside, items: seq<Key>, scores: bool)
    ensures Says(ArrayOf(Fields(ext, items, scores)), Array(Sent(ext, items, scores)))
  {
    FieldsAre(ext, items, scores);
    var f, sent := Fields(ext, items, scores), Sent(ext, items, scores);
    hide Fields, Says, ArrayHeader, Joined, BulkReply;
    forall k | 0 <= k < |f|
      ensures Says(f[k], sent[k])
    {
      if scores {
        var i := k / 2;
        assert f[2 * i..2 * i + 2][k - 2 * i] == f[k];
        BulkSays(if k % 2 == 0 then items[i].member else ext.show(items[i].score));
      } else {
        assert f[1 * k..1 * k + 1][0] == f[k];
        BulkSays(items[k].member);
      }
    }
    ArraySays(f, sent);
  }

  lemma FieldsNext(ext: Outside, items: seq<Key>, scores: bool, i: nat)
    requires i < |items|
    ensures Joined(Fields(ext, items[..i + 1], scores)) ==
      Joined(Fields(ext, items[..i], scores)) + BulkReply(items[i].member)
      + if scores then BulkReply(ext.show(items[i].score)) else []
  {
    hide BulkReply, Joined;
    assert items[..i + 1][..i] == items[..i];
    var before := Fields(ext, items[..i], scores);
    var m, s := BulkReply(items[i].member), BulkReply(ext.show(items[i].score));
    JoinOneOrTwo(before, m, s);
    assert Fields(ext, items[..i + 1], scores) == before + FieldsOf(ext, items[i], scores);
    assert Joined(before) + m + [] == Joined(before) + m;
  }

  lemma JoinOneOrTwo(frags: seq<string>, m: string, s: string)
    ensures Joined(frags + [m]) == Joined(frags) + m
    ensures Joined(frags + [m, s]) == Joined(frags) + m + s
  {
    assert (frags + [m])[..|frags|] == frags;
    assert (frags + [m, s])[..|frags| + 1] == frags + [m];
  }

  /** The loop that sends the entries. */
  method Send(ext: Outside, count: int, items: seq<Key>, scores: bool) returns (reply: string)
    requires count == |items|
    ensures reply == ArrayOf(Fields(ext, items, scores))
  {
    hide Fields, FieldsOf, Joined, BulkReply, ArrayHeader;
    FieldsAre(ext, items, scores);
    NoFields(ext, items, scores);
    ghost var header := ArrayHeader(|Fields(ext, items, scores)|);
    reply := ArrayHeader(if scores then count * 2 else count);
    var i := 0;
    while i < |items|
      invariant 0 <= i <= |items| && reply == header + Joined(Fields(ext, items[..i], scores))
    {
      FieldsNext(ext, items, scores, i);
      reply := reply + BulkReply(items[i].member);
      if scores {
        reply := reply + BulkReply(ext.show(items[i].score));
      }
      i := i + 1;
    }
    assert items[..|items|] == items;
  }

  lemma NoFields(ext: Outside, items: seq<Key>, scores: bool)
    ensures Joined(Fields(ext, items[..0], scores)) == []
  {
  }

  // ---------------------------------------------------------------------------
  // ZRANGE
  // ---------------------------------------------------------------------------

  /** An option word among the arguments, in any case. */
  ghost predicate Mentions(argv: Argv, opt: string) {
    exists i :: 4 <= i < |argv| && Lower(argv[i]) == opt
  }

  method ZRange(ext: Outside, o: Target, argv: Argv) returns (reply: string)
    requires |argv| >= 4 && (o.Found? ==> o.z.Valid())
    ensures o.OtherType? ==> reply == WRONG_TYPE
    ensures !o.OtherType? && (ParseInt(argv[2]) == None || ParseInt(argv[3]) == None) ==> reply == NOT_INT
    ensures ParseInt(argv[2]).Some? && ParseInt(argv[3]).Some? ==>
      && (o.Missing? ==> reply == ArrayOf([]))
      && (o.Found? ==>
            var keys := o.z.sl.Keys();
            var start, stop := Position(ParseInt(argv[2]).value, |keys|), Position(ParseInt(argv[3]).value, |keys|);
            var items := Between(View(keys, Mentions(argv, "rev")), start, stop, 0);
            && reply == ArrayOf(Fields(ext, items, Mentions(argv, "withscores")))
            && Says(reply, Array(Sent(ext, items, Mentions(argv, "withscores"))))
            && InDirection(items, Mentions(argv, "rev")))
  {
    hide *;
    var scores, rev := ReadRangeOptions(argv);
    if o.OtherType? {
      return WRONG_TYPE;
    }
    var start, stop := ParseInt(argv[2]), ParseInt(argv[3]);
    if start == None || stop == None {
      return NOT_INT;
    }
    if o.Missing? {
      NothingSent();
      return ArrayHeader(0);
    }
    var count, items := o.z.ZRange(start.value, stop.value, rev);
    reply := Send(ext, count, items, scores);
    FieldsSay(ext, items, scores);
  }

  lemma NothingSent()
    ensures ArrayOf([]) == ArrayHeader(0)
  {
    hide ArrayHeader;
  }

  method ReadRangeOptions(argv: Argv) returns (scores: bool, rev: bool)
    requires |argv| >= 4
    ensures scores == Mentions(argv, "withscores") && rev == Mentions(argv, "rev")
  {
    hide Lower;
    scores, rev := false, false;
    for i := 4 to |argv|
      invariant scores == exists j :: 4 <= j < i && Lower(argv[j]) == "withscores"
      invariant rev == exists j :: 4 <= j < i && Lower(argv[j]) == "rev"
    {
      var opt := Lower(argv[i]);
      if opt == "withscores" {
        scores := true;
      } else if opt == "rev" {
        rev := true;
      }
    }
  }

  // ---------------------------------------------------------------------------
  // ZRANGEBYSCORE
  // ---------------------------------------------------------------------------

  /** The digits a string starts with. */
  function DigitPrefix(s: string): (r: string)
    ensures r <= s
  {
    if s == [] || !('0' <= s[0] <= '9') then [] else [s[0]] + DigitPrefix(s[1..])
  }

  /** Reading an integer off the front of a string, whatever follows; what was there stays when there is none in
      range. */
  function ReadPrefix(s: string, was: int): int {
    match LeadingInt(s)
    case None => was
    case Some(v) => v
  }

  function LeadingInt(s: string): Option<int> {
    var sign := if s != [] && s[0] == '-' then "-" else "";
    ParseInt(sign + DigitPrefix(s[|sign|..]))
  }

  lemma {:induction false} DigitsFirst(digits: string, rest: string)
    requires AllDigits(digits) && (rest != [] ==> !('0' <= rest[0] <= '9'))
    ensures DigitPrefix(digits + rest) == digits
    decreases |digits|
  {
    if digits == [] {
      assert digits + rest == rest;
    } else {
      DigitsFirst(digits[1..], rest);
      assert (digits + rest)[1..] == digits[1..] + rest;
    }
  }

  /** A number is read off the front of whatever follows that is not a digit. */
  lemma LeadingIntReads(v: int, rest: string)
    requires INT64_MIN <= v <= INT64_MAX && (rest != [] ==> !('0' <= rest[0] <= '9'))
    ensures LeadingInt(Dec(v) + rest) == Some(v)
  {
    hide *;
    var d, sign := DigitsOf(v);
    DecRead(v);
    DigitsFirst(d, rest);
    SignedPrefix(sign, d, rest);
  }

  lemma DigitsOf(v: int) returns (d: string, sign: string)
    ensures Dec(v) == sign + d && AllDigits(d) && d != [] && sign in {"", "-"}
  {
    d, sign := Digits(if v < 0 then -v else v), if v < 0 then "-" else "";
  }

  lemma SignedPrefix(sign: string, d: string, rest: string)
    requires AllDigits(d) && d != [] && sign in {"", "-"} && DigitPrefix(d + rest) == d
    ensures LeadingInt(sign + d + rest) == ParseInt(sign + d)
  {
    hide ParseInt, DigitPrefix;
    var s := sign + d + rest;
    if sign == "" {
      assert s == d + rest && s[0] == d[0] && s[0..] == s;
    } else {
      assert s[0] == '-' && s[1..] == d + rest;
    }
  }

  datatype ScoreOptions = ScoreOptions(scores: bool, offset: int, limit: int)

  function ReadScoreOptions(argv: Argv, i: nat, o: ScoreOptions): ScoreOptions
    requires i <= |argv|
    decreases |argv| - i
  {
    if i == |argv| then o
    else if Lower(argv[i]) == "withscores" then ReadScoreOptions(argv, i + 1, o.(scores := true))
    else if Lower(argv[i]) == "limit" && i + 2 < |argv| then
      ReadScoreOptions(argv, i + 3,
        o.(offset := ReadPrefix(argv[i + 1], o.offset), limit := ReadPrefix(argv[i + 2], o.limit)))
    else ReadScoreOptions(argv, i + 1, o)
  }

  /** The word LIMIT, which takes the next two arguments with it. */
  predicate LimitWord(argv: Argv, i: nat)
    requires i < |argv|
  {
    Lower(argv[i]) == "limit" && i + 2 < |argv|
  }

  /** Position `i` is where an option starts, or where the options end. */
  predicate ScoreOptionAt(argv: Argv, i: nat)
    decreases i
  {
    || i == 4
    || (4 < i <= |argv| && ScoreOptionAt(argv, i - 1) && !LimitWord(argv, i - 1))
    || (7 <= i <= |argv| && ScoreOptionAt(argv, i - 3) && LimitWord(argv, i - 3))
  }

  /** The arguments of LIMIT are not options themselves. */
  lemma {:induction false} LimitTakesTwo(argv: Argv, i: nat)
    requires i < |argv| && ScoreOptionAt(argv, i) && LimitWord(argv, i)
    ensures !ScoreOptionAt(argv, i + 1) && !ScoreOptionAt(argv, i + 2)
  {
    if i >= 6 && ScoreOptionAt(argv, i - 2) && LimitWord(argv, i - 2) {
      LimitTakesTwo(argv, i - 2);
    }
    if i >= 5 && ScoreOptionAt(argv, i - 1) && LimitWord(argv, i - 1) {
      LimitTakesTwo(argv, i - 1);
    }
  }

  ghost predicate ScoresGiven(argv: Argv, i: nat) {
    exists k: nat :: i <= k < |argv| && ScoreOptionAt(argv, k) && Lower(argv[k]) == "withscores"
  }

  /** A LIMIT at `k` whose argument number `d` starts with an integer. */
  predicate LimitGives(argv: Argv, k: nat, d: nat)
    requires k < |argv| && 1 <= d <= 2
  {
    ScoreOptionAt(argv, k) && LimitWord(argv, k) && LeadingInt(argv[k + d]) != None
  }

  ghost predicate LastGives(argv: Argv, k: nat, d: nat)
    requires 1 <= d <= 2
  {
    k < |argv| && LimitGives(argv, k, d) && forall n: nat :: k < n < |argv| ==> !LimitGives(argv, n, d)
  }

  ghost predicate NoneGives(argv: Argv, i: nat, d: nat)
    requires 1 <= d <= 2
  {
    forall n: nat :: i <= n < |argv| ==> !LimitGives(argv, n, d)
  }

  function Field(o: ScoreOptions, d: nat): int {
    if d == 1 then o.offset else o.limit
  }

  /** What the options say, word by word: scores when the word stands where an option can, and each number of LIMIT from
      the last LIMIT that has one. */
  lemma {:induction false} ScoreOptionsMean(argv: Argv, i: nat, o: ScoreOptions, k: nat, d: nat)
    requires 4 <= i <= |argv| && ScoreOptionAt(argv, i) && 1 <= d <= 2
    ensures var r := ReadScoreOptions(argv, i, o);
      && (r.scores <==> o.scores || ScoresGiven(argv, i))
      && (NoneGives(argv, i, d) ==> Field(r, d) == Field(o, d))
      && (i <= k && LastGives(argv, k, d) ==> Some(Field(r, d)) == LeadingInt(argv[k + d]))
    decreases |argv| - i
  {
    hide LeadingInt;
    if i < |argv| {
      OneScoreOption(argv, i, o, d);
      var next, o' := NextScoreOption(argv, i), ScoreOption(argv, i, o);
      NextIsScoreOption(argv, i);
      hide ScoreOptionAt, LimitWord, ReadScoreOptions, ScoreOption, NextScoreOption, Field;
      ScoreOptionsMean(argv, next, o', k, d);
    }
  }

  function NextScoreOption(argv: Argv, i: nat): nat
    requires i < |argv|
  {
    if LimitWord(argv, i) then i + 3 else i + 1
  }

  function ScoreOption(argv: Argv, i: nat, o: ScoreOptions): ScoreOptions
    requires i < |argv|
  {
    if LimitWord(argv, i) then
      o.(offset := ReadPrefix(argv[i + 1], o.offset), limit := ReadPrefix(argv[i + 2], o.limit))
    else o.(scores := o.scores || Lower(argv[i]) == "withscores")
  }

  lemma NextIsScoreOption(argv: Argv, i: nat)
    requires 4 <= i < |argv| && ScoreOptionAt(argv, i)
    ensures i < NextScoreOption(argv, i) <= |argv| && ScoreOptionAt(argv, NextScoreOption(argv, i))
    ensures forall k: nat :: i < k < NextScoreOption(argv, i) ==> !ScoreOptionAt(argv, k)
  {
    if LimitWord(argv, i) {
      LimitTakesTwo(argv, i);
    }
    hide Lower;
  }

  lemma OneScoreOption(argv: Argv, i: nat, o: ScoreOptions, d: nat)
    requires 4 <= i < |argv| && ScoreOptionAt(argv, i) && 1 <= d <= 2
    ensures NextScoreOption(argv, i) <= |argv|
    ensures var o' := ScoreOption(argv, i, o);
      && ReadScoreOptions(argv, i, o) == ReadScoreOptions(argv, NextScoreOption(argv, i), o')
      && (o'.scores <==> o.scores || Lower(argv[i]) == "withscores")
      && (!LimitGives(argv, i, d) ==> Field(o', d) == Field(o, d))
      && (LimitGives(argv, i, d) ==> Some(Field(o', d)) == LeadingInt(argv[i + d]))
  {
    hide Lower, LeadingInt;
  }

  /** A bound, exclusive after an opening parenthesis. */
  function ParseBound(ext: Outside, s: string): Option<Bound> {
    var exclusive := s != [] && s[0] == '(';
    var text := if exclusive then s[1..] else s;
    match if text == [] then None else ext.parse(text)
    case None => None
    case Some(score) => Some(Bound(score, exclusive))
  }

  /** An opening parenthesis before a score leaves the score itself out of the range. */
  lemma BoundReads(ext: Outside, s: string, m: string, other: Bound)
    requires s != [] && s[0] != '(' && ext.parse(s) != None
    ensures ParseBound(ext, s).Some? && ParseBound(ext, "(" + s).Some?
    ensures var score, closed, open := ext.parse(s).value, ParseBound(ext, s).value, ParseBound(ext, "(" + s).value;
      && (other.score > score ==> Within(Key(score, m), closed, other) && !Within(Key(score, m), open, other))
      && (other.score < score ==> Within(Key(score, m), other, closed) && !Within(Key(score, m), other, open))
  {
    assert ("(" + s)[1..] == s;
  }

  const NOT_BOUND: string := ErrorReply("ERR min or max is not a float")

  method ParseScoreOptions(argv: Argv) returns (o: ScoreOptions)
    requires |argv| >= 4
    ensures o == ReadScoreOptions(argv, 4, ScoreOptions(false, 0, -1))
  {
    hide ReadPrefix, Lower;
    o := ScoreOptions(false, 0, -1);
    ghost var goal := ReadScoreOptions(argv, 4, o);
    var i := 4;
    while i < |argv|
      invariant 4 <= i <= |argv| && ReadScoreOptions(argv, i, o) == goal
    {
      var opt := Lower(argv[i]);
      if opt == "withscores" {
        o := o.(scores := true);
      } else if opt == "limit" && i + 2 < |argv| {
        o := o.(offset := ReadPrefix(argv[i + 1], o.offset), limit := ReadPrefix(argv[i + 2], o.limit));
        i := i + 2;
      }
      i := i + 1;
    }
  }

  method ZRangeByScore(ext: Outside, o: Target, argv: Argv) returns (reply: string)
    requires |argv| >= 4 && (o.Found? ==> o.z.Valid())
    ensures ParseBound(ext, argv[2]) == None || ParseBound(ext, argv[3]) == None ==> reply == NOT_BOUND
    ensures ParseBound(ext, argv[2]).Some? && ParseBound(ext, argv[3]).Some? ==>
      && (o.OtherType? ==> reply == WRONG_TYPE)
      && (o.Missing? ==> reply == ArrayOf([]))
      && (o.Found? ==>
            var min, max := ParseBound(ext, argv[2]).value, ParseBound(ext, argv[3]).value;
            var opts := ReadScoreOptions(argv, 4, ScoreOptions(false, 0, -1));
            var items := Limited(Filtered(o.z.sl.Keys(), min, max), opts.offset, opts.limit);
            && reply == ArrayOf(Fields(ext, items, opts.scores))
            && Says(reply, Array(Sent(ext, items, opts.scores))))
  {
    hide *;
    var opts := ParseScoreOptions(argv);
    var min, max := ParseBound(ext, argv[2]), ParseBound(ext, argv[3]);
    if min == None || max == None {
      return NOT_BOUND;
    }
    if o.OtherType? {
      return WRONG_TYPE;
    }
    if o.Missing? {
      NothingSent();
      return ArrayHeader(0);
    }
    var count, items := o.z.ZRangeByScore(min.value, max.value, opts.offset, opts.limit);
    reply := Send(ext, count, items, opts.scores);
    FieldsSay(ext, items, opts.scores);
  }
}

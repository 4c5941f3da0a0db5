/** Decimal numbers and the request form of RESP: parser, encoder, replies. */
module Resp {
  import opened Options

  const CR := '\r'
  const LF := '\n'
  const CRLF: string := [CR, LF]

  // ---------------------------------------------------------------------------
  // Decimal numbers: to_chars and from_chars
  // ---------------------------------------------------------------------------

  const INT64_MAX := 0x7fff_ffff_ffff_ffff
  const INT64_MIN := -0x8000_0000_0000_0000

  predicate IsDigit(c: char) {
    '0' <= c <= '9'
  }

  function DigitChar(d: nat): (c: char)
    requires d < 10
    ensures IsDigit(c)
  {
    '0' + d as char
  }

  function DigitValue(c: char): (d: nat)
    requires IsDigit(c)
    ensures d < 10
  {
    (c - '0') as nat
  }

  function Digits(n: nat): (s: string)
    ensures s != [] && forall i :: 0 <= i < |s| ==> IsDigit(s[i])
  {
    if n < 10 then [DigitChar(n)] else Digits(n / 10) + [DigitChar(n % 10)]
  }

  function Dec(v: int): (s: string)
    ensures s != [] && forall i :: 0 <= i < |s| ==> IsDigit(s[i]) || s[i] == '-'
  {
    if v < 0 then ['-'] + Digits(-v) else Digits(v)
  }

  predicate AllDigits(s: string) {
    forall i :: 0 <= i < |s| ==> IsDigit(s[i])
  }

  function DigitsValue(s: string): nat
    requires AllDigits(s)
  {
    if s == [] then 0 else 10 * DigitsValue(s[..|s| - 1]) + DigitValue(s[|s| - 1])
  }

  /** A whole string read as a 64-bit integer: an optional minus, then digits, nothing else. */
  function ParseInt(s: string): Option<int> {
    var negative := s != [] && s[0] == '-';
    var body := if negative then s[1..] else s;
    if body == [] || !AllDigits(body) then None
    else
      var n: int := DigitsValue(body);
      var v := if negative then -n else n;
      if INT64_MIN <= v <= INT64_MAX then Some(v) else None
  }

  lemma {:induction false} DigitsRead(n: nat)
    ensures DigitsValue(Digits(n)) == n
  {
    if n >= 10 {
      DigitsRead(n / 10);
      assert Digits(n)[..|Digits(n)| - 1] == Digits(n / 10);
    }
  }

  /** Printing then reading a 64-bit integer gives it back. */
  lemma DecRead(v: int)
    requires INT64_MIN <= v <= INT64_MAX
    ensures ParseInt(Dec(v)) == Some(v)
  {
    if v < 0 {
      DigitsRead(-v);
      assert Dec(v)[1..] == Digits(-v);
    } else {
      DigitsRead(v);
      assert IsDigit(Dec(v)[0]);
    }
  }

  /** The rules of decimal notation, for printing. */
  lemma DecimalPrinted(n: int, d: nat)
    requires d < 10
    ensures Dec(d) == ["0123456789"[d]]
    ensures n > 0 ==> Dec(10 * n + d) == Dec(n) + ["0123456789"[d]] && Dec(-n) == "-" + Dec(n)
  {
    assert DigitChar(d) == "0123456789"[d];
  }

  /** The same for reading, while the number fits into 64 bits. */
  lemma DecimalRead(s: string, d: nat)
    requires d < 10
    ensures ParseInt(["0123456789"[d]]) == Some(d)
    ensures ParseInt(s).Some? && s[0] != '-' && 10 * ParseInt(s).value + d <= INT64_MAX ==>
      ParseInt(s + ["0123456789"[d]]) == Some(10 * ParseInt(s).value + d)
    ensures ParseInt(s).Some? && s[0] != '-' ==> ParseInt("-" + s) == Some(-ParseInt(s).value)
  {
    var c := "0123456789"[d];
    DigitAdds([], c, d);
    assert [] + [c] == [c] && ("-" + s)[1..] == s;
    if AllDigits(s) {
      DigitAdds(s, c, d);
    }
    hide DigitsValue, AllDigits;
  }

  lemma DigitAdds(s: string, c: char, d: nat)
    requires AllDigits(s) && d < 10 && c == "0123456789"[d]
    ensures c != '-' && AllDigits(s + [c]) && DigitsValue(s + [c]) == 10 * DigitsValue(s) + d
    ensures DigitsValue([]) == 0
  {
    assert DigitValue(c) == d;
    assert (s + [c])[..|s|] == s;
  }

  // ---------------------------------------------------------------------------
  // Parsing requests
  // ---------------------------------------------------------------------------

  type Argv = seq<string>

  datatype Parsed = NeedMore | ProtocolError(message: string) | Ok(argv: Argv, consumed: nat)

  const MAX_ARGS := 1024 * 1024
  const MAX_INLINE := 64 * 1024

  /** The first CRLF at or after `pos`. */
  function FindCrlf(data: string, pos: nat): (r: Option<nat>)
    ensures r.Some? ==> pos <= r.value && r.value + 1 < |data| && data[r.value] == CR && data[r.value + 1] == LF
    decreases |data| - pos
  {
    if pos + 1 >= |data| then None
    else if data[pos] == CR && data[pos + 1] == LF then Some(pos)
    else FindCrlf(data, pos + 1)
  }

  /** `part` is what `data` holds from `pos` on. */
  predicate Holds(data: string, pos: nat, part: string) {
    pos + |part| <= |data| && data[pos..pos + |part|] == part
  }

  lemma HoldsSplit(data: string, pos: nat, a: string, b: string)
    requires Holds(data, pos, a + b)
    ensures Holds(data, pos, a) && Holds(data, pos + |a|, b)
  {
    var s := data[pos..pos + |a + b|];
    assert s[..|a|] == a && s[|a|..] == b;
  }

  datatype Bulk = Short | Bad(message: string) | Bulk(arg: string, next: nat)

  /** One bulk string at `pos`. The two bytes after its contents are skipped unread. */
  function ReadBulk(data: string, pos: nat): (r: Bulk)
    ensures r.Bulk? ==> pos < r.next <= |data|
  {
    if pos >= |data| then Short
    else if data[pos] != '$' then Bad("expected '$'")
    else
      match FindCrlf(data, pos + 1)
      case None => Short
      case Some(crlf) =>
        match ParseInt(data[pos + 1..crlf])
        case None => Bad("invalid bulk length")
        case Some(blen) =>
          if blen < 0 then Bad("invalid bulk length")
          else if crlf + 2 + blen + 2 > |data| then Short
          else Bulk(data[crlf + 2..crlf + 2 + blen], crlf + 2 + blen + 2)
  }

  /** The bulk strings from `pos` on; `argv` holds those read so far. */
  function ParseBulks(data: string, pos: nat, count: nat, argv: Argv): (r: Parsed)
    ensures r.Ok? ==> pos <= r.consumed && (count > 0 ==> r.consumed <= |data|) && |r.argv| == |argv| + count
    decreases count
  {
    if count == 0 then Ok(argv, pos)
    else
      match ReadBulk(data, pos)
      case Short => NeedMore
      case Bad(message) => ProtocolError(message)
      case Bulk(arg, next) => ParseBulks(data, next, count - 1, argv + [arg])
  }

  function ParseMultibulk(data: string): (r: Parsed)
    requires data != []
    ensures r.Ok? ==> 0 < r.consumed <= |data|
  {
    match FindCrlf(data, 0)
    case None => NeedMore
    case Some(crlf) =>
      if crlf == 0 then ProtocolError("invalid multibulk length")
      else
        match ParseInt(data[1..crlf])
        case None => ProtocolError("invalid multibulk length")
        case Some(count) =>
          if count < 0 || count > MAX_ARGS then ProtocolError("invalid multibulk length")
          else ParseBulks(data, crlf + 2, count, [])
  }

  predicate IsBlank(c: char) {
    c == ' ' || c == '\t'
  }

  function IndexOf(data: string, c: char, pos: nat): (r: Option<nat>)
    ensures r.Some? ==> pos <= r.value < |data| && data[r.value] == c
    decreases |data| - pos
  {
    if pos >= |data| then None else if data[pos] == c then Some(pos) else IndexOf(data, c, pos + 1)
  }

  /** The words of a line; `word` is the one being read. */
  function Words(line: string, word: string): Argv {
    if line == [] then if word == [] then [] else [word]
    else if IsBlank(line[0]) then (if word == [] then [] else [word]) + Words(line[1..], [])
    else Words(line[1..], word + [line[0]])
  }

  /** A word of a line: a longest stretch without blanks. */
  ghost predicate WordAt(line: string, lo: nat, hi: nat) {
    && lo < hi <= |line| && (forall i :: lo <= i < hi ==> line[i] !in {' ', '\t'})
    && (lo > 0 ==> line[lo - 1] in {' ', '\t'}) && (hi < |line| ==> line[hi] in {' ', '\t'})
  }

  datatype Stretch = Stretch(lo: nat, hi: nat)

  /** Stretches from left to right, one for each word from position `from` on. */
  ghost predicate WordsFrom(line: string, from: nat, at: seq<Stretch>) {
    && (forall i :: 0 <= i < |at| ==> from <= at[i].lo && WordAt(line, at[i].lo, at[i].hi))
    && (forall i, j :: 0 <= i < j < |at| ==> at[i].hi < at[j].lo)
    && forall lo: nat, hi: nat :: from <= lo && WordAt(line, lo, hi) ==> Stretch(lo, hi) in at
  }

  /** The words of a line are all its words, in order. */
  lemma WordsMean(line: string) returns (at: seq<Stretch>)
    ensures WordsFrom(line, 0, at) && |Words(line, [])| == |at|
    ensures forall i :: 0 <= i < |at| ==> at[i].hi <= |line| && Words(line, [])[i] == line[at[i].lo..at[i].hi]
  {
    at := WordsRead(line, 0, 0);
    assert line[0..] == line && line[0..0] == [];
  }

  lemma {:induction false} WordsRead(line: string, lo: nat, k: nat) returns (at: seq<Stretch>)
    requires lo <= k <= |line| && (forall i :: lo <= i < k ==> !IsBlank(line[i])) && (lo > 0 ==> IsBlank(line[lo - 1]))
    ensures WordsFrom(line, lo, at) && |Words(line[k..], line[lo..k])| == |at|
    ensures forall i :: 0 <= i < |at| ==>
      at[i].hi <= |line| && Words(line[k..], line[lo..k])[i] == line[at[i].lo..at[i].hi]
    decreases |line| - k
  {
    hide WordsFrom, WordAt;
    var word := if lo < k then [Stretch(lo, k)] else [];
    if k == |line| {
      at := word;
      LastWord(line, lo);
    } else {
      WordsStep(line, lo, k);
      hide Words;
      if IsBlank(line[k]) {
        var rest := WordsRead(line, k + 1, k + 1);
        at := word + rest;
        WordEnds(line, lo, k, rest);
      } else {
        at := WordsRead(line, lo, k + 1);
      }
    }
  }

  lemma WordsStep(line: string, lo: nat, k: nat)
    requires lo <= k < |line|
    ensures Words(line[k..], line[lo..k]) ==
      if IsBlank(line[k]) then (if lo < k then [line[lo..k]] else []) + Words(line[k + 1..], line[k + 1..k + 1])
      else Words(line[k + 1..], line[lo..k + 1])
  {
    assert line[k..][0] == line[k] && line[k..][1..] == line[k + 1..] && line[k + 1..k + 1] == [];
    assert line[lo..k] + [line[k]] == line[lo..k + 1];
  }

  lemma LastWord(line: string, lo: nat)
    requires lo <= |line| && (forall i :: lo <= i < |line| ==> !IsBlank(line[i])) && (lo > 0 ==> IsBlank(line[lo - 1]))
    ensures WordsFrom(line, lo, if lo < |line| then [Stretch(lo, |line|)] else [])
  {
  }

  lemma WordEnds(line: string, lo: nat, k: nat, rest: seq<Stretch>)
    requires lo <= k < |line| && (forall i :: lo <= i < k ==> !IsBlank(line[i])) && (lo > 0 ==> IsBlank(line[lo - 1]))
    requires IsBlank(line[k]) && WordsFrom(line, k + 1, rest)
    ensures WordsFrom(line, lo, (if lo < k then [Stretch(lo, k)] else []) + rest)
  {
  }

  /** A line ends at the first CRLF anywhere in the buffer, else at the first bare LF. */
  function ParseInline(data: string): (r: Parsed)
    requires data != []
    ensures r.Ok? ==> 0 < r.consumed <= |data|
  {
    match FindCrlf(data, 0)
    case Some(crlf) => Ok(Words(data[..crlf], []), crlf + 2)
    case None =>
      match IndexOf(data, LF, 0)
      case Some(nl) => Ok(Words(data[..nl], []), nl + 1)
      case None => if |data| > MAX_INLINE then ProtocolError("inline request too long") else NeedMore
  }

  function Parse(data: string): (r: Parsed)
    ensures r.Ok? ==> 0 < r.consumed <= |data|
  {
    if data == [] then NeedMore
    else if data[0] == '*' then ParseMultibulk(data)
    else ParseInline(data)
  }

  // ---------------------------------------------------------------------------
  // The parser's loops
  // ---------------------------------------------------------------------------

  method FindCrlfLoop(data: string, from: nat) returns (r: Option<nat>)
    ensures r == FindCrlf(data, from)
  {
    var pos := from;
    while pos + 1 < |data|
      invariant FindCrlf(data, from) == FindCrlf(data, pos)
    {
      if data[pos] == CR && data[pos + 1] == LF {
        return Some(pos);
      }
      pos := pos + 1;
    }
    return None;
  }

  method ParseMultibulkLoop(data: string) returns (r: Parsed)
    requires data != []
    ensures r == ParseMultibulk(data)
  {
    hide ParseInt, FindCrlf, ReadBulk;
    var crlf := FindCrlfLoop(data, 0);
    if crlf == None {
      return NeedMore;
    }
    var count := if crlf.value == 0 then None else ParseInt(data[1..crlf.value]);
    if count == None || count.value < 0 || count.value > MAX_ARGS {
      return ProtocolError("invalid multibulk length");
    }
    var pos: nat := crlf.value + 2;
    var argv: Argv := [];
    var i := 0;
    while i < count.value
      invariant 0 <= i <= count.value
      invariant ParseMultibulk(data) == ParseBulks(data, pos, count.value - i, argv)
    {
      var bulk := ReadBulkAt(data, pos);
      match bulk {
        case Short => return NeedMore;
        case Bad(message) => return ProtocolError(message);
        case Bulk(arg, next) => argv, pos := argv + [arg], next;
      }
      i := i + 1;
    }
    return Ok(argv, pos);
  }

  /** The body of the parser's loop. */
  method ReadBulkAt(data: string, pos: nat) returns (r: Bulk)
    ensures r == ReadBulk(data, pos)
  {
    hide ParseInt, FindCrlf;
    if pos >= |data| {
      return Short;
    }
    if data[pos] != '$' {
      return Bad("expected '$'");
    }
    var crlf := FindCrlfLoop(data, pos + 1);
    if crlf == None {
      return Short;
    }
    var blen := ParseInt(data[pos + 1..crlf.value]);
    if blen == None || blen.value < 0 {
      return Bad("invalid bulk length");
    }
    var start := crlf.value + 2;
    var end := start + blen.value;
    if end + 2 > |data| {
      return Short;
    }
    return Bulk(data[start..end], end + 2);
  }

  // ---------------------------------------------------------------------------
  // The request form, told without the parser
  // ---------------------------------------------------------------------------

  /** The line that starts at `pos` ends at `e`, with the first carriage return and line feed from there on. */
  ghost predicate LineAt(data: string, pos: nat, e: nat) {
    && pos <= e && e + 1 < |data| && data[e] == '\r' && data[e + 1] == '\n'
    && forall k :: pos <= k < e ==> data[k] != '\r' || data[k + 1] != '\n'
  }

  /** The line behind the mark at `pos` ends at `e`. */
  ghost predicate HeadAt(data: string, pos: nat, e: nat) {
    LineAt(data, pos + 1, e)
  }

  /** A bulk string: a dollar sign, a line with its length, its bytes, and two bytes of any kind. */
  ghost predicate BulkIs(data: string, pos: nat, arg: string, next: nat) {
    && pos < |data| && data[pos] == '$'
    && exists e: nat :: HeadAt(data, pos, e) && BulkBody(data, pos, e, arg, next)
  }

  ghost predicate BulkBody(data: string, pos: nat, e: nat, arg: string, next: nat)
    requires HeadAt(data, pos, e)
  {
    && ParseInt(data[pos + 1..e]) == Some(|arg|) && next == e + 2 + |arg| + 2 <= |data|
    && data[e + 2..e + 2 + |arg|] == arg
  }

  /** What no bulk string starts with, and why. */
  ghost predicate BadAt(data: string, pos: nat, why: string) {
    && pos < |data|
    && if data[pos] != '$' then why == "expected '$'"
       else why == "invalid bulk length" && exists e: nat :: HeadAt(data, pos, e) && NoLength(data[pos + 1..e])
  }

  predicate NoLength(text: string) {
    ParseInt(text) == None || ParseInt(text).value < 0
  }

  /** Bulk strings one after the other. */
  ghost predicate BulksAt(data: string, pos: nat, args: Argv, next: nat)
    decreases |args|
  {
    if args == [] then next == pos
    else exists mid: nat :: BulkIs(data, pos, args[0], mid) && BulksAt(data, mid, args[1..], next)
  }

  /** A request: a line with a star and the number of bulk strings, then these. */
  ghost predicate RequestIs(data: string, argv: Argv, n: nat) {
    exists e: nat :: 0 < e && LineAt(data, 0, e) && ParseInt(data[1..e]) == Some(|argv|) && |argv| <= 1_048_576
      && BulksAt(data, e + 2, argv, n)
  }

  /** What is not a request whatever follows: a wrong number, or fewer bulk strings than announced and then something
      else. */
  ghost predicate NoRequest(data: string, why: string) {
    exists e: nat :: 0 < e && LineAt(data, 0, e)
      && if NoLength(data[1..e]) || ParseInt(data[1..e]).value > 1_048_576 then why == "invalid multibulk length"
         else exists args: Argv, next: nat ::
           |args| < ParseInt(data[1..e]).value && BulksAt(data, e + 2, args, next) && BadAt(data, next, why)
  }

  lemma {:induction false} LineFound(data: string, pos: nat)
    ensures match FindCrlf(data, pos)
      case Some(e) => LineAt(data, pos, e)
      case None => forall e: nat :: !LineAt(data, pos, e)
    decreases |data| - pos
  {
    if pos + 1 < |data| && !(data[pos] == CR && data[pos + 1] == LF) {
      LineFound(data, pos + 1);
      assert forall e: nat :: LineAt(data, pos, e) ==> LineAt(data, pos + 1, e);
    }
  }

  lemma OneLine(data: string, pos: nat, e: nat)
    requires LineAt(data, pos, e)
    ensures FindCrlf(data, pos) == Some(e)
  {
    LineFound(data, pos);
  }

  lemma BulkMeans(data: string, pos: nat, arg: string, next: nat, why: string)
    ensures ReadBulk(data, pos) == Bulk(arg, next) <==> BulkIs(data, pos, arg, next)
    ensures ReadBulk(data, pos) == Bad(why) <==> BadAt(data, pos, why)
  {
    hide ParseInt, FindCrlf, LineAt;
    LineFound(data, pos + 1);
    forall e: nat | HeadAt(data, pos, e)
      ensures FindCrlf(data, pos + 1) == Some(e)
    {
      OneLine(data, pos + 1, e);
    }
    assert FindCrlf(data, pos + 1).Some? ==> HeadAt(data, pos, FindCrlf(data, pos + 1).value);
  }

  lemma {:induction false} BulksFound(data: string, pos: nat, args: Argv, next: nat, count: nat, read: Argv)
    requires BulksAt(data, pos, args, next) && |args| <= count
    ensures ParseBulks(data, pos, count, read) == ParseBulks(data, next, count - |args|, read + args)
    decreases |args|
  {
    hide ReadBulk, BulkIs;
    if args == [] {
      assert read + args == read;
    } else {
      var mid: nat :| BulkIs(data, pos, args[0], mid) && BulksAt(data, mid, args[1..], next);
      BulkMeans(data, pos, args[0], mid, "");
      BulksFound(data, mid, args[1..], next, count - 1, read + [args[0]]);
      assert read + [args[0]] + args[1..] == read + args;
    }
  }

  lemma {:induction false} BulksParsed(data: string, pos: nat, count: nat, read: Argv) returns (args: Argv, next: nat)
    ensures |args| <= count && BulksAt(data, pos, args, next)
    ensures match ParseBulks(data, pos, count, read)
      case Ok(argv, n) => |args| == count && argv == read + args && n == next
      case ProtocolError(why) => |args| < count && BadAt(data, next, why)
      case NeedMore => true
    decreases count
  {
    hide ReadBulk, BulkIs, BadAt;
    args, next := [], pos;
    if count > 0 {
      match ReadBulk(data, pos)
      case Short =>
      case Bad(why) =>
        BulkMeans(data, pos, "", 0, why);
      case Bulk(arg, mid) =>
        BulkMeans(data, pos, arg, mid, "");
        args, next := BulksParsed(data, mid, count - 1, read + [arg]);
        assert read + [arg] + args == read + ([arg] + args);
        args := [arg] + args;
        assert args[1..] == args[1..];
    } else {
      assert read + args == read;
    }
  }

  /** The parser takes exactly the requests and refuses exactly what cannot become one, and says why. */
  lemma RequestMeans(data: string, argv: Argv, n: nat, why: string)
    requires data != [] && data[0] == '*'
    ensures Parse(data) == Ok(argv, n) <==> RequestIs(data, argv, n)
    ensures Parse(data) == ProtocolError(why) <==> NoRequest(data, why)
  {
    hide ParseInt, FindCrlf, ParseBulks, LineAt, BulksAt, BadAt;
    LineFound(data, 0);
    forall e: nat | LineAt(data, 0, e)
      ensures FindCrlf(data, 0) == Some(e)
    {
      OneLine(data, 0, e);
    }
    match FindCrlf(data, 0)
    case None =>
    case Some(e) =>
      assert e != 0 by { LineStarts(data, e); }
      var count := ParseInt(data[1..e]);
      if count.Some? && 0 <= count.value <= MAX_ARGS {
        TakenExactly(data, e + 2, count.value, argv, n);
        RefusedExactly(data, e + 2, count.value, why);
      }
  }

  lemma LineStarts(data: string, e: nat)
    requires data != [] && data[0] == '*' && LineAt(data, 0, e)
    ensures e != 0
  {
  }

  lemma TakenExactly(data: string, pos: nat, count: nat, argv: Argv, n: nat)
    ensures ParseBulks(data, pos, count, []) == Ok(argv, n) <==> |argv| == count && BulksAt(data, pos, argv, n)
  {
    hide ReadBulk, BulksAt, BadAt;
    var args, next := BulksParsed(data, pos, count, []);
    assert [] + args == args && [] + argv == argv;
    if |argv| == count && BulksAt(data, pos, argv, n) {
      BulksFound(data, pos, argv, n, count, []);
    }
  }

  lemma RefusedExactly(data: string, pos: nat, count: nat, why: string)
    ensures ParseBulks(data, pos, count, []) == ProtocolError(why) <==>
      exists args: Argv, next: nat :: |args| < count && BulksAt(data, pos, args, next) && BadAt(data, next, why)
  {
    hide ReadBulk, BulksAt, BadAt;
    var args, next := BulksParsed(data, pos, count, []);
    if args: Argv, next: nat :| |args| < count && BulksAt(data, pos, args, next) && BadAt(data, next, why) {
      BulksFound(data, pos, args, next, count, []);
      BulkMeans(data, next, "", 0, why);
    }
  }

  /** The first line feed. */
  ghost predicate FeedAt(data: string, e: nat) {
    e < |data| && data[e] == '\n' && forall k :: 0 <= k < e ==> data[k] != '\n'
  }

  lemma {:induction false} FeedFound(data: string, pos: nat)
    requires pos <= |data| && forall k :: 0 <= k < pos ==> data[k] != '\n'
    ensures match IndexOf(data, LF, pos)
      case Some(e) => FeedAt(data, e)
      case None => forall e: nat :: !FeedAt(data, e)
    decreases |data| - pos
  {
    if pos < |data| && data[pos] != LF {
      FeedFound(data, pos + 1);
    }
  }

  /** A request that is not introduced by a star is the words of the first line that ends in a carriage return and line
      feed; without one, of the first that ends in a line feed alone. */
  lemma InlineMeans(data: string, e: nat)
    requires data != [] && data[0] != '*'
    ensures LineAt(data, 0, e) ==> Parse(data) == Ok(Words(data[..e], []), e + 2)
    ensures (forall k: nat :: !LineAt(data, 0, k)) ==>
      && (FeedAt(data, e) ==> Parse(data) == Ok(Words(data[..e], []), e + 1))
      && ((forall k: nat :: !FeedAt(data, k)) ==>
            Parse(data) == if |data| > 65_536 then ProtocolError("inline request too long") else NeedMore)
  {
    LineFound(data, 0);
    FeedFound(data, 0);
    if LineAt(data, 0, e) {
      OneLine(data, 0, e);
    }
    hide LineAt, FindCrlf, IndexOf, Words;
  }

  // ---------------------------------------------------------------------------
  // Encoding
  // ---------------------------------------------------------------------------

  function EncodeBulk(arg: string): string {
    ['$'] + Dec(|arg|) + CRLF + arg + CRLF
  }

  function EncodeBulks(argv: Argv): string {
    if argv == [] then [] else EncodeBulk(argv[0]) + EncodeBulks(argv[1..])
  }

  function Encode(argv: Argv): (s: string)
    ensures s != [] && s[0] == '*'
  {
    ['*'] + Dec(|argv|) + CRLF + EncodeBulks(argv)
  }

  /** The bound on commands under which the parser takes back what the encoder writes. */
  predicate Encodable(argv: Argv) {
    |argv| <= 1_048_576 && forall i :: 0 <= i < |argv| ==> |argv[i]| <= INT64_MAX
  }

  method EncodeLoop(argv: Argv) returns (out: string)
    ensures out == Encode(argv)
  {
    out := ['*'] + Dec(|argv|) + CRLF;
    var i := 0;
    while i < |argv|
      invariant 0 <= i <= |argv| && out + EncodeBulks(argv[i..]) == Encode(argv)
    {
      assert argv[i..][1..] == argv[i + 1..];
      out := out + (['$'] + Dec(|argv[i]|) + CRLF + argv[i] + CRLF);
      i := i + 1;
    }
  }

  // ---------------------------------------------------------------------------
  // Decoding undoes encoding
  // ---------------------------------------------------------------------------

  /** The bytes of a request, spelled out. */
  lemma KnownRequest()
    ensures Encode(["GET", "k"]) == "*2\r\n$3\r\nGET\r\n$1\r\nk\r\n"
  {
    hide EncodeBulk;
    KnownBulks();
    assert Dec(2) == "2";
    assert ["GET", "k"][1..] == ["k"] && ["k"][1..] == [];
  }

  lemma KnownBulks()
    ensures EncodeBulk("GET") == "$3\r\nGET\r\n" && EncodeBulk("k") == "$1\r\nk\r\n"
  {
    assert Dec(1) == "1" && Dec(3) == "3";
    hide Dec;
  }

  /** After a number the next CRLF is the one that ends it. */
  lemma {:induction false} CrlfAfter(data: string, pos: nat, n: nat)
    requires pos + n + 1 < |data| && data[pos + n] == CR && data[pos + n + 1] == LF
    requires forall i :: pos <= i < pos + n ==> data[i] != CR
    ensures FindCrlf(data, pos) == Some(pos + n)
    decreases n
  {
    if n > 0 {
      CrlfAfter(data, pos + 1, n - 1);
    }
  }

  /** Reading one header: a mark, a number and a CRLF at `pos`. */
  lemma HeaderRead(data: string, pos: nat, v: int)
    requires INT64_MIN <= v <= INT64_MAX
    requires pos + 1 + |Dec(v)| + 2 <= |data| && data[pos + 1..pos + 1 + |Dec(v)|] == Dec(v)
    requires data[pos + 1 + |Dec(v)|] == CR && data[pos + 1 + |Dec(v)| + 1] == LF
    ensures FindCrlf(data, pos + 1) == Some(pos + 1 + |Dec(v)|)
    ensures ParseInt(data[pos + 1..pos + 1 + |Dec(v)|]) == Some(v)
  {
    DecRead(v);
    var d := Dec(v);
    assert forall i :: pos + 1 <= i < pos + 1 + |d| ==> data[i] == d[i - (pos + 1)];
    CrlfAfter(data, pos + 1, |d|);
  }

  lemma {:induction false} BulksRead(data: string, pos: nat, argv: Argv, read: Argv)
    requires forall i :: 0 <= i < |argv| ==> |argv[i]| <= INT64_MAX
    requires pos + |EncodeBulks(argv)| <= |data| && data[pos..pos + |EncodeBulks(argv)|] == EncodeBulks(argv)
    ensures ParseBulks(data, pos, |argv|, read) == Ok(read + argv, pos + |EncodeBulks(argv)|)
    decreases |argv|
  {
    hide EncodeBulk, ReadBulk;
    if argv == [] {
      assert read + argv == read;
    } else {
      var a, rest := argv[0], argv[1..];
      var b, bs := EncodeBulk(a), EncodeBulks(rest);
      assert EncodeBulks(argv) == b + bs;
      SplitSlice(data, pos, b, bs);
      BulkRead(data, pos, a);
      BulksRead(data, pos + |b|, rest, read + [a]);
      assert read + [a] + rest == read + argv;
    }
  }

  lemma SplitSlice(data: string, pos: nat, a: string, b: string)
    requires pos + |a + b| <= |data| && data[pos..pos + |a + b|] == a + b
    ensures data[pos..pos + |a|] == a && data[pos + |a|..pos + |a| + |b|] == b
  {
    var s := data[pos..pos + |a + b|];
    assert s[..|a|] == a && s[|a|..] == b;
  }

  /** Reading back one encoded bulk. */
  lemma BulkRead(data: string, pos: nat, a: string)
    requires |a| <= INT64_MAX && pos + |EncodeBulk(a)| <= |data| && data[pos..pos + |EncodeBulk(a)|] == EncodeBulk(a)
    ensures ReadBulk(data, pos) == Bulk(a, pos + |EncodeBulk(a)|)
  {
    hide EncodeBulk, Dec, ParseInt, FindCrlf;
    var n := |EncodeBulk(a)|;
    var before, after := data[..pos], data[pos + n..];
    assert data == before + EncodeBulk(a) + after;
    BulkAt(before, a, after);
    HeaderRead(data, pos, |a|);
  }

  /** Where the parts of an encoded bulk lie. */
  lemma BulkAt(before: string, a: string, after: string)
    ensures var data, d, p := before + EncodeBulk(a) + after, Dec(|a|), |before|;
      && |data| == p + 1 + |d| + 2 + |a| + 2 + |after| && |EncodeBulk(a)| == 1 + |d| + 2 + |a| + 2
      && data[p] == '$' && data[p + 1..p + 1 + |d|] == d
      && data[p + 1 + |d|] == CR && data[p + 1 + |d| + 1] == LF
      && data[p + 1 + |d| + 2..p + 1 + |d| + 2 + |a|] == a
  {
    var d := Dec(|a|);
    assert before + EncodeBulk(a) + after == before + ['$'] + d + CRLF + a + CRLF + after;
  }

  /** The parser takes one encoded command off the front of any buffer and stops right after it. */
  lemma DecodeEncode(argv: Argv, after: string)
    requires Encodable(argv)
    ensures Parse(Encode(argv) + after) == Ok(argv, |Encode(argv)|)
  {
    var data, d := Encode(argv) + after, Dec(|argv|);
    EncodeAt(argv, after);
    hide Dec, ParseInt, EncodeBulks, Encode;
    HeaderRead(data, 0, |argv|);
    assert FindCrlf(data, 0) == FindCrlf(data, 1);
    BulksRead(data, 1 + |d| + 2, argv, []);
    assert [] + argv == argv;
  }

  /** What the encoder writes can be read back exactly when the command has no more arguments than the parser allows. */
  lemma ReadsBackExactly(argv: Argv, after: string)
    requires |argv| <= INT64_MAX && forall i :: 0 <= i < |argv| ==> |argv[i]| <= INT64_MAX
    ensures |argv| <= MAX_ARGS ==> Parse(Encode(argv) + after) == Ok(argv, |Encode(argv)|)
    ensures |argv| > MAX_ARGS ==> Parse(Encode(argv) + after).ProtocolError?
  {
    if |argv| <= MAX_ARGS {
      DecodeEncode(argv, after);
    } else {
      var data := Encode(argv) + after;
      EncodeAt(argv, after);
      hide Dec, ParseInt, EncodeBulks, Encode;
      HeaderRead(data, 0, |argv|);
      assert FindCrlf(data, 0) == FindCrlf(data, 1);
    }
  }

  /** Where the parts of an encoded command lie. */
  lemma EncodeAt(argv: Argv, after: string)
    ensures var data, d, n := Encode(argv) + after, Dec(|argv|), |EncodeBulks(argv)|;
      && |Encode(argv)| == 1 + |d| + 2 + n && data[0] == '*' && data[1..1 + |d|] == d
      && data[1 + |d|] == CR && data[2 + |d|] == LF && data[1 + |d| + 2..1 + |d| + 2 + n] == EncodeBulks(argv)
  {
    hide Dec, EncodeBulks;
    PartsAt("*", Dec(|argv|), EncodeBulks(argv), after);
  }

  lemma PartsAt(mark: string, d: string, body: string, after: string)
    requires |mark| == 1
    ensures var data := mark + d + CRLF + body + after;
      && data[0] == mark[0] && data[1..1 + |d|] == d && data[1 + |d|] == CR && data[2 + |d|] == LF
      && data[1 + |d| + 2..1 + |d| + 2 + |body|] == body
  {
  }

  // ---------------------------------------------------------------------------
  // Verdicts are stable under extension
  // ---------------------------------------------------------------------------

  lemma {:induction false} CrlfStable(data: string, more: string, pos: nat)
    requires FindCrlf(data, pos).Some?
    ensures FindCrlf(data + more, pos) == FindCrlf(data, pos)
    decreases |data| - pos
  {
    if !(data[pos] == CR && data[pos + 1] == LF) {
      CrlfStable(data, more, pos + 1);
    }
  }

  lemma BulkStable(data: string, more: string, pos: nat)
    requires !ReadBulk(data, pos).Short?
    ensures ReadBulk(data + more, pos) == ReadBulk(data, pos)
  {
    hide ParseInt, FindCrlf;
    if data[pos] == '$' {
      CrlfStable(data, more, pos + 1);
      var crlf := FindCrlf(data, pos + 1).value;
      assert (data + more)[pos + 1..crlf] == data[pos + 1..crlf];
      var blen := ParseInt(data[pos + 1..crlf]);
      if blen.Some? && blen.value >= 0 {
        assert (data + more)[crlf + 2..crlf + 2 + blen.value] == data[crlf + 2..crlf + 2 + blen.value];
      }
    }
  }

  lemma {:induction false} BulksStable(data: string, more: string, pos: nat, count: nat, argv: Argv)
    requires !ParseBulks(data, pos, count, argv).NeedMore?
    ensures ParseBulks(data + more, pos, count, argv) == ParseBulks(data, pos, count, argv)
    decreases count
  {
    hide ReadBulk;
    if count > 0 {
      var r := ReadBulk(data, pos);
      BulkStable(data, more, pos);
      if r.Bulk? {
        BulksStable(data, more, r.next, count - 1, argv + [r.arg]);
      }
    }
  }

  /** Once a buffer that starts with '*' has a verdict, further bytes do not change it. */
  lemma MultibulkStable(data: string, more: string)
    requires data != [] && data[0] == '*' && !Parse(data).NeedMore?
    ensures Parse(data + more) == Parse(data)
  {
    CrlfStable(data, more, 0);
    var crlf := FindCrlf(data, 0).value;
    if crlf > 0 {
      assert (data + more)[1..crlf] == data[1..crlf];
      var count := ParseInt(data[1..crlf]);
      if count.Some? && 0 <= count.value <= MAX_ARGS {
        BulksStable(data, more, crlf + 2, count.value, []);
      }
    }
  }

  /** Without a CRLF in it, a buffer followed by one has its first CRLF there. */
  lemma {:induction false} CrlfJoined(data: string, pos: nat)
    requires pos <= |data| && FindCrlf(data, pos) == None
    ensures FindCrlf(data + CRLF, pos) == Some(|data|)
    decreases |data| - pos
  {
    var whole := data + CRLF;
    if pos < |data| {
      assert whole[pos] == data[pos] && whole[pos + 1] == if pos + 1 < |data| then data[pos + 1] else CR;
      CrlfJoined(data, pos + 1);
    }
  }

  /** Once an inline buffer has a verdict, further bytes leave it alone exactly when the buffer holds a CRLF. */
  lemma InlineStableExactly(data: string)
    requires data != [] && data[0] != '*' && !Parse(data).NeedMore?
    ensures (forall more :: Parse(data + more) == Parse(data)) <==> FindCrlf(data, 0).Some?
  {
    hide Words;
    match FindCrlf(data, 0)
    case Some(crlf) =>
      forall more
        ensures Parse(data + more) == Parse(data)
      {
        CrlfStable(data, more, 0);
        assert (data + more)[..crlf] == data[..crlf];
      }
    case None =>
      CrlfJoined(data, 0);
      assert Parse(data + CRLF).Ok? && Parse(data + CRLF).consumed == |data| + 2;
  }

  /** Inline requests are not stable: a CRLF that arrives later swallows an earlier bare LF. */
  lemma InlineUnstable()
    ensures var data := ['a', LF, 'b'];
      && Parse(data) == Ok([['a']], 2)
      && Parse(data + CRLF) == Ok([['a', LF, 'b']], 5)
  {
    var data := ['a', LF, 'b'];
    var whole := data + CRLF;
    assert IndexOf(data, LF, 0) == IndexOf(data, LF, 1) == Some(1);
    assert FindCrlf(data, 0) == FindCrlf(data, 1) == FindCrlf(data, 2) == None;
    assert FindCrlf(whole, 0) == FindCrlf(whole, 1) == FindCrlf(whole, 2) == FindCrlf(whole, 3) == Some(3);
    assert whole[..3] == data && data[..1] == ['a'];
    LetterWords(['a'], []);
    LetterWords(data, []);
    assert "" + ['a'] == ['a'] && "" + data == data;
  }

  lemma {:induction false} LetterWords(line: string, word: string)
    requires forall i :: 0 <= i < |line| ==> !IsBlank(line[i])
    ensures Words(line, word) == if word + line == [] then [] else [word + line]
  {
    if line == [] {
      assert word + line == word;
    } else {
      LetterWords(line[1..], word + [line[0]]);
      assert word + [line[0]] + line[1..] == word + line;
    }
  }

  /** Every strict prefix of an encoded command asks for more. */
  lemma StrictPrefixNeedsMore(argv: Argv, k: nat)
    requires Encodable(argv) && k < |Encode(argv)|
    ensures Parse(Encode(argv)[..k]) == NeedMore
  {
    if k > 0 && !Parse(Encode(argv)[..k]).NeedMore? {
      MultibulkStable(Encode(argv)[..k], Encode(argv)[k..]);
      assert Encode(argv)[..k] + Encode(argv)[k..] == Encode(argv) + [];
      DecodeEncode(argv, []);
      assert false;
    }
  }
}

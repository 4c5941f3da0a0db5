/** The replies as a client reads them: a reader of its own, and what each writer's bytes say to it. */
module Replies {
  import opened Options
  import opened Resp
  import opened Pipelines

  datatype Reply =
    | Simple(s: string)
    | Failed(s: string)
    | Int(v: int)
    | Text(s: string)
    | Nil
    | NilArray
    | Array(items: seq<Reply>)

  datatype Answer = Broken | Answer(reply: Reply, next: nat)

  datatype Answers = BrokenItems | Answers(items: seq<Reply>, next: nat)

  // ---------------------------------------------------------------------------
  // The client
  // ---------------------------------------------------------------------------

  /** The reply that starts at `pos`. Every line ends in CRLF, and so does the text of a bulk string. */
  function ReadReply(data: string, pos: nat): (r: Answer)
    requires pos <= |data|
    ensures r.Answer? ==> pos < r.next <= |data|
    decreases |data| - pos, 0
  {
    if pos == |data| then Broken
    else
      match FindCrlf(data, pos)
      case None => Broken
      case Some(end) =>
        if end == pos then Broken
        else
          var line, n := data[pos + 1..end], ParseInt(data[pos + 1..end]);
          if data[pos] == '+' then Answer(Simple(line), end + 2)
          else if data[pos] == '-' then Answer(Failed(line), end + 2)
          else if n == None then Broken
          else if data[pos] == ':' then Answer(Int(n.value), end + 2)
          else if data[pos] == '$' then
            var last := end + 2 + n.value;
            if n.value == -1 then Answer(Nil, end + 2)
            else if n.value < 0 || last + 2 > |data| || data[last..last + 2] != CRLF then Broken
            else Answer(Text(data[end + 2..last]), last + 2)
          else if data[pos] == '*' then
            if n.value == -1 then Answer(NilArray, end + 2)
            else if n.value < 0 then Broken
            else
              match ReadReplies(data, end + 2, n.value)
              case BrokenItems => Broken
              case Answers(items, next) => Answer(Array(items), next)
          else Broken
  }

  /** As many replies as announced, one after the other. */
  function ReadReplies(data: string, pos: nat, count: nat): (r: Answers)
    requires pos <= |data|
    ensures r.Answers? ==> pos <= r.next <= |data|
    decreases |data| - pos, 1 + count
  {
    if count == 0 then Answers([], pos)
    else
      match ReadReply(data, pos)
      case Broken => BrokenItems
      case Answer(first, next) =>
        match ReadReplies(data, next, count - 1)
        case BrokenItems => BrokenItems
        case Answers(rest, end) => Answers([first] + rest, end)
  }

  /** The replies there are bytes for: numbers and lengths of 64 bits, and lines without a line break in them. */
  ghost predicate Sayable(r: Reply) {
    match r
    case Simple(s) => FindCrlf(s, 0) == None
    case Failed(s) => FindCrlf(s, 0) == None
    case Int(v) => INT64_MIN <= v <= INT64_MAX
    case Text(s) => |s| <= INT64_MAX
    case Array(items) => |items| <= INT64_MAX && forall i :: 0 <= i < |items| ==> Sayable(items[i])
    case _ => true
  }

  /** Wherever these bytes stand, the client reads the reply and stops right after them. */
  ghost predicate Says(bytes: string, r: Reply) {
    Sayable(r) ==> forall data, pos: nat :: Holds(data, pos, bytes) ==> ReadReply(data, pos) == Answer(r, pos + |bytes|)
  }

  // ---------------------------------------------------------------------------
  // The writers
  // ---------------------------------------------------------------------------

  /** A line without a break in it is read up to its end. */
  lemma {:induction false} LineEnds(data: string, pos: nat, s: string, i: nat)
    requires Holds(data, pos, s + CRLF) && FindCrlf(s, i) == None && i <= |s|
    ensures FindCrlf(data, pos + i) == Some(pos + |s|)
    decreases |s| - i
  {
    var line := s + CRLF;
    assert data[pos..pos + |line|] == line;
    assert forall k :: 0 <= k < |line| ==> data[pos + k] == line[k];
    if i < |s| {
      LineEnds(data, pos, s, i + 1);
    }
  }

  /** A mark, a line without a break, and the end of the line. */
  lemma MarkedLine(data: string, pos: nat, mark: char, s: string)
    requires Holds(data, pos, [mark] + s + CRLF) && FindCrlf([mark] + s, 0) == None
    ensures pos < |data| && data[pos] == mark && FindCrlf(data, pos) == Some(pos + 1 + |s|)
    ensures data[pos + 1..pos + 1 + |s|] == s
  {
    hide *;
    MarkedEnd(data, pos, [mark] + s);
    HoldsMarked(data, pos, mark, s);
  }

  lemma MarkedEnd(data: string, pos: nat, line: string)
    requires Holds(data, pos, line + CRLF) && FindCrlf(line, 0) == None
    ensures FindCrlf(data, pos) == Some(pos + |line|)
  {
    hide *;
    LineEnds(data, pos, line, 0);
  }

  lemma HoldsMarked(data: string, pos: nat, mark: char, s: string)
    requires Holds(data, pos, [mark] + s + CRLF)
    ensures pos + 1 + |s| <= |data| && data[pos] == mark && data[pos + 1..pos + 1 + |s|] == s
  {
    var line := [mark] + s + CRLF;
    var part := data[pos..pos + |line|];
    assert line[0] == mark && forall i :: 0 <= i < |s| ==> line[i + 1] == s[i];
    assert forall i :: 0 <= i < |line| ==> data[pos + i] == part[i];
    assert data[pos + 0] == part[0];
    forall i | 0 <= i < |s|
      ensures data[pos + 1..pos + 1 + |s|][i] == s[i]
    {
      assert data[pos + (i + 1)] == part[i + 1];
    }
  }

  lemma MarkKeeps(mark: char, s: string)
    requires mark != CR
    ensures FindCrlf([mark] + s, 0) == None <==> FindCrlf(s, 0) == None
  {
    Shifted(mark, s, 0);
  }

  lemma {:induction false} Shifted(mark: char, s: string, i: nat)
    requires i <= |s|
    ensures FindCrlf([mark] + s, i + 1) == None <==> FindCrlf(s, i) == None
    decreases |s| - i
  {
    if i < |s| {
      Shifted(mark, s, i + 1);
    }
  }

  /** A decimal number has no line break in it. */
  lemma {:induction false} DigitsUnbroken(s: string, i: nat)
    requires i <= |s| && forall k :: 0 <= k < |s| ==> s[k] != CR
    ensures FindCrlf(s, i) == None
    decreases |s| - i
  {
    if i < |s| {
      DigitsUnbroken(s, i + 1);
    }
  }

  lemma SimpleSays(s: string)
    ensures Says(SimpleReply(s), Simple(s))
  {
    MarkKeeps('+', s);
    forall data, pos: nat | Sayable(Simple(s)) && Holds(data, pos, SimpleReply(s))
      ensures ReadReply(data, pos) == Answer(Simple(s), pos + |SimpleReply(s)|)
    {
      assert SimpleReply(s) == ['+'] + s + CRLF;
      MarkedLine(data, pos, '+', s);
    }
  }

  lemma ErrorSays(s: string)
    ensures Says(ErrorReply(s), Failed(s))
  {
    MarkKeeps('-', s);
    forall data, pos: nat | Sayable(Failed(s)) && Holds(data, pos, ErrorReply(s))
      ensures ReadReply(data, pos) == Answer(Failed(s), pos + |ErrorReply(s)|)
    {
      assert ErrorReply(s) == ['-'] + s + CRLF;
      MarkedLine(data, pos, '-', s);
    }
  }

  /** A number after its mark. */
  lemma MarkedNumber(data: string, pos: nat, mark: char, v: int)
    requires INT64_MIN <= v <= INT64_MAX && mark != CR && Holds(data, pos, [mark] + Dec(v) + CRLF)
    ensures pos < |data| && data[pos] == mark && FindCrlf(data, pos) == Some(pos + 1 + |Dec(v)|)
    ensures ParseInt(data[pos + 1..pos + 1 + |Dec(v)|]) == Some(v)
  {
    hide *;
    DecRead(v);
    NoCrInDec(v);
    DigitsUnbroken(Dec(v), 0);
    MarkKeeps(mark, Dec(v));
    MarkedLine(data, pos, mark, Dec(v));
  }

  lemma NoCrInDec(v: int)
    ensures forall k :: 0 <= k < |Dec(v)| ==> Dec(v)[k] != CR
  {
  }

  lemma IntSays(v: int)
    ensures Says(IntReply(v), Int(v))
  {
    hide Dec, ParseInt, FindCrlf;
    forall data, pos: nat | Sayable(Int(v)) && Holds(data, pos, IntReply(v))
      ensures ReadReply(data, pos) == Answer(Int(v), pos + |IntReply(v)|)
    {
      assert IntReply(v) == [':'] + Dec(v) + CRLF;
      MarkedNumber(data, pos, ':', v);
    }
  }

  lemma BulkSays(s: string)
    ensures Says(BulkReply(s), Text(s))
  {
    hide Dec, ParseInt, FindCrlf;
    forall data, pos: nat | Sayable(Text(s)) && Holds(data, pos, BulkReply(s))
      ensures ReadReply(data, pos) == Answer(Text(s), pos + |BulkReply(s)|)
    {
      var head := ['$'] + Dec(|s|) + CRLF;
      assert BulkReply(s) == head + (s + CRLF);
      HoldsSplit(data, pos, head, s + CRLF);
      HoldsSplit(data, pos + |head|, s, CRLF);
      MarkedNumber(data, pos, '$', |s|);
    }
  }

  lemma NilSays()
    ensures Says(NULL_BULK, Nil)
  {
    MinusOne();
    hide Dec, ParseInt, FindCrlf;
    forall data, pos: nat | Holds(data, pos, NULL_BULK)
      ensures ReadReply(data, pos) == Answer(Nil, pos + |NULL_BULK|)
    {
      assert NULL_BULK == ['$'] + Dec(-1) + CRLF;
      MarkedNumber(data, pos, '$', -1);
    }
  }

  lemma NilArraySays(bytes: string)
    requires bytes == "*-1" + CRLF
    ensures Says(bytes, NilArray)
  {
    MinusOne();
    hide Dec, ParseInt, FindCrlf;
    forall data, pos: nat | Holds(data, pos, bytes)
      ensures ReadReply(data, pos) == Answer(NilArray, pos + |bytes|)
    {
      assert bytes == ['*'] + Dec(-1) + CRLF;
      MarkedNumber(data, pos, '*', -1);
    }
  }

  lemma MinusOne()
    ensures Dec(-1) == "-1"
  {
  }

  // ---------------------------------------------------------------------------
  // Arrays
  // ---------------------------------------------------------------------------

  lemma {:induction false} ItemsSay(data: string, pos: nat, frags: seq<string>, items: seq<Reply>)
    requires |frags| == |items| && Holds(data, pos, Joined(frags))
    requires forall i :: 0 <= i < |items| ==> Sayable(items[i]) && Says(frags[i], items[i])
    ensures ReadReplies(data, pos, |items|) == Answers(items, pos + |Joined(frags)|)
    decreases |items|
  {
    hide Sayable, ReadReply, Says;
    if items != [] {
      var rest := frags[1..];
      JoinedFront(frags);
      HoldsSplit(data, pos, frags[0], Joined(rest));
      SaysAt(data, pos, frags[0], items[0]);
      ItemsSay(data, pos + |frags[0]|, rest, items[1..]);
      assert items == [items[0]] + items[1..];
    }
  }

  lemma SaysAt(data: string, pos: nat, bytes: string, r: Reply)
    requires Says(bytes, r) && Sayable(r) && Holds(data, pos, bytes)
    ensures pos <= |data| && ReadReply(data, pos) == Answer(r, pos + |bytes|)
  {
    hide Sayable, ReadReply;
  }

  lemma {:induction false} JoinedFront(frags: seq<string>)
    requires frags != []
    ensures Joined(frags) == frags[0] + Joined(frags[1..])
  {
    var last := |frags| - 1;
    if last > 0 {
      JoinedFront(frags[..last]);
      assert frags[..last][1..] == frags[1..][..last - 1];
    }
  }

  lemma ArrayReads(data: string, pos: nat, frags: seq<string>, items: seq<Reply>)
    requires |frags| == |items| <= INT64_MAX && Holds(data, pos, ArrayHeader(|frags|) + Joined(frags))
    requires forall i :: 0 <= i < |items| ==> Sayable(items[i]) && Says(frags[i], items[i])
    ensures pos <= |data|
    ensures ReadReply(data, pos) == Answer(Array(items), pos + |ArrayHeader(|frags|) + Joined(frags)|)
  {
    hide Dec, ParseInt, FindCrlf, Joined, Says, Sayable;
    var head := ArrayHeader(|frags|);
    HoldsSplit(data, pos, head, Joined(frags));
    assert head == ['*'] + Dec(|frags|) + CRLF;
    MarkedNumber(data, pos, '*', |frags|);
    ItemsSay(data, pos + |head|, frags, items);
  }

  /** An announced number of fragments says the array of what they say. */
  lemma ArraySays(frags: seq<string>, items: seq<Reply>)
    requires |frags| == |items| && forall i :: 0 <= i < |items| ==> Says(frags[i], items[i])
    ensures Says(ArrayHeader(|frags|) + Joined(frags), Array(items))
  {
    hide ArrayHeader, Joined, ReadReply, Holds;
    var bytes := ArrayHeader(|frags|) + Joined(frags);
    forall data, pos: nat | Sayable(Array(items)) && Holds(data, pos, bytes)
      ensures pos <= |data| && ReadReply(data, pos) == Answer(Array(items), pos + |bytes|)
    {
      ArrayReads(data, pos, frags, items);
    }
  }

  /** The text of an error is read back exactly when there is no line break in it. */
  lemma ErrorReadsExactly(s: string, after: string)
    ensures ReadReply(ErrorReply(s) + after, 0) == Answer(Failed(s), |ErrorReply(s)|) <==> FindCrlf(s, 0) == None
  {
    var data := ErrorReply(s) + after;
    if FindCrlf(s, 0) == None {
      ErrorSays(s);
      assert Holds(data, 0, ErrorReply(s));
    } else {
      MarkKeeps('-', s);
      assert data == ['-'] + s + (CRLF + after);
      CrlfStable(['-'] + s, CRLF + after, 0);
    }
  }

  /** The bytes of some replies, spelled out. */
  lemma KnownBytes()
    ensures SimpleReply("OK") == "+OK\r\n" && ErrorReply("ERR no") == "-ERR no\r\n"
    ensures IntReply(-12) == ":-12\r\n" && BulkReply("foo") == "$3\r\nfoo\r\n" && BulkReply("") == "$0\r\n\r\n"
    ensures NULL_BULK == "$-1\r\n" && ArrayHeader(20) == "*20\r\n"
  {
    assert Digits(12) == "12" && Digits(20) == "20";
  }
}

/** Cutting a byte stream into commands: a connection's input buffer, and the replay of a log. */
module Intakes {
  import opened Resp

  const MAX_BUFFER := 512 * 1024 * 1024

  /** What parsing a buffer to exhaustion yields: the commands to dispatch, the bytes left, and whether it hit a
      protocol error. */
  datatype Drained = Drained(commands: seq<Argv>, rest: string, failed: bool)

  /** A command without arguments is consumed but not dispatched. */
  function Kept(argv: Argv): seq<Argv> {
    if argv == [] then [] else [argv]
  }

  function Drain(buffer: string): Drained
    decreases |buffer|
  {
    match Parse(buffer)
    case NeedMore => Drained([], buffer, false)
    case ProtocolError(_) => Drained([], buffer, true)
    case Ok(argv, n) =>
      var more := Drain(buffer[n..]);
      Drained(Kept(argv) + more.commands, more.rest, more.failed)
  }

  /** The input side of a connection; `dispatched` is the sequence of commands handed on. */
  datatype Stream = Stream(input: string, closing: bool, dispatched: seq<Argv>)

  const Fresh := Stream([], false, [])

  /** The state after parsing `buffer` to exhaustion, when `before` was dispatched earlier. */
  function Outcome(buffer: string, before: seq<Argv>): Stream {
    var d := Drain(buffer);
    Stream(d.rest, d.failed, before + d.commands)
  }

  /** What reading one chunk does. */
  function Feed(s: Stream, chunk: string): Stream {
    var buffer := s.input + chunk;
    if s.closing || |buffer| > MAX_BUFFER then Stream(buffer, true, s.dispatched)
    else Outcome(buffer, s.dispatched)
  }

  /** What a read of the socket returns: some bytes, the end of the stream, nothing for now, or another error. */
  datatype ReadResult = Bytes(s: string) | End | WouldBlock | Failed

  const READ_CHUNK := 16 * 1024

  /** The bytes taken in one readable event and whether the stream is over: reading goes on while chunks come in
      full. */
  datatype Taken = Taken(bytes: string, over: bool)

  function Reading(results: seq<ReadResult>): Taken {
    if results == [] || results[0].WouldBlock? then Taken([], false)
    else if !results[0].Bytes? then Taken([], true)
    else if |results[0].s| < READ_CHUNK then Taken(results[0].s, false)
    else
      var more := Reading(results[1..]);
      Taken(results[0].s + more.bytes, more.over)
  }

  /** What one readable event does. Bytes that come together with the end of the stream are not parsed. */
  function Arrive(s: Stream, t: Taken): Stream {
    if t.over then Stream(s.input + t.bytes, true, s.dispatched) else Feed(s, t.bytes)
  }

  /** The bytes of the first `n` results. */
  ghost function BytesOf(results: seq<ReadResult>, n: nat): string
    requires n <= |results| && forall i :: 0 <= i < n ==> results[i].Bytes?
  {
    if n == 0 then [] else BytesOf(results, n - 1) + results[n - 1].s
  }

  /** Reading goes on exactly while chunks come in full, takes the one that is not, and finds the stream over exactly
      when an end or an error comes next. */
  lemma {:induction false} ReadingMeans(results: seq<ReadResult>, k: nat)
    requires k <= |results| && forall i :: 0 <= i < k ==> results[i].Bytes? && |results[i].s| >= 16_384
    requires k < |results| && results[k].Bytes? ==> |results[k].s| < 16_384
    ensures var n := if k < |results| && results[k].Bytes? then k + 1 else k;
      Reading(results) == Taken(BytesOf(results, n), k < |results| && (results[k].End? || results[k].Failed?))
    decreases k
  {
    if k > 0 {
      ReadingMeans(results[1..], k - 1);
      var n := if k < |results| && results[k].Bytes? then k + 1 else k;
      BytesFromFront(results, n);
    } else if results != [] && results[0].Bytes? {
      assert BytesOf(results, 0) + results[0].s == results[0].s;
    }
  }

  lemma {:induction false} BytesFromFront(results: seq<ReadResult>, n: nat)
    requires 0 < n <= |results| && forall i :: 0 <= i < n ==> results[i].Bytes?
    ensures BytesOf(results, n) == results[0].s + BytesOf(results[1..], n - 1)
  {
    if n == 1 {
      assert BytesOf(results, 0) == [] && BytesOf(results[1..], 0) == [];
    } else {
      BytesFromFront(results, n - 1);
    }
  }

  lemma DrainMore(buffer: string, before: seq<Argv>)
    requires Parse(buffer) == NeedMore
    ensures Drain(buffer) == Drained([], buffer, false)
    ensures Outcome(buffer, before) == Stream(buffer, false, before)
  {
    hide Parse;
    assert before + [] == before;
  }

  lemma DrainError(buffer: string, before: seq<Argv>)
    requires Parse(buffer).ProtocolError?
    ensures Outcome(buffer, before) == Stream(buffer, true, before)
  {
    hide Parse;
    assert before + [] == before;
  }

  lemma DrainOne(buffer: string, argv: Argv, n: nat, before: seq<Argv>)
    requires Parse(buffer) == Ok(argv, n)
    ensures n <= |buffer|
    ensures var more := Drain(buffer[n..]);
      Drain(buffer) == Drained(Kept(argv) + more.commands, more.rest, more.failed)
    ensures Outcome(buffer, before) == Outcome(buffer[n..], before + Kept(argv))
  {
    hide Parse;
    assert before + (Kept(argv) + Drain(buffer[n..]).commands) == before + Kept(argv) + Drain(buffer[n..]).commands;
  }

  /** One turn of the parse loop, at `pos`. */
  lemma DrainTurn(buffer: string, pos: nat, st: Parsed, before: seq<Argv>)
    requires pos <= |buffer| && st == Parse(buffer[pos..])
    ensures st.NeedMore? ==> Outcome(buffer[pos..], before) == Stream(buffer[pos..], false, before)
    ensures st.ProtocolError? ==> Outcome(buffer[pos..], before) == Stream(buffer[pos..], true, before)
    ensures st.Ok? ==> 0 < st.consumed <= |buffer| - pos
    ensures st.Ok? ==>
      Outcome(buffer[pos..], before) ==
        Outcome(buffer[pos + st.consumed..], if st.argv == [] then before else before + [st.argv])
  {
    hide Parse, Drain, Outcome;
    match st
    case NeedMore => DrainMore(buffer[pos..], before);
    case ProtocolError(_) => DrainError(buffer[pos..], before);
    case Ok(argv, n) =>
      DrainOne(buffer[pos..], argv, n, before);
      assert before + [] == before;
      assert buffer[pos..][n..] == buffer[pos + n..];
  }

  /** The bytes before `pos` are parsed and the rest will bring the connection to `goal`. */
  ghost predicate Parsing(buffer: string, pos: nat, before: seq<Argv>, goal: Stream) {
    pos <= |buffer| && Outcome(buffer[pos..], before) == goal
  }

  lemma ParsingStarts(buffer: string, before: seq<Argv>)
    ensures Parsing(buffer, 0, before, Outcome(buffer, before))
  {
    hide Outcome;
    assert buffer[0..] == buffer;
  }

  lemma ParsingTurn(buffer: string, pos: nat, st: Parsed, before: seq<Argv>, goal: Stream)
    requires Parsing(buffer, pos, before, goal) && st == Parse(buffer[pos..])
    ensures st.NeedMore? ==> goal == Stream(buffer[pos..], false, before)
    ensures st.ProtocolError? ==> goal == Stream(buffer[pos..], true, before)
    ensures st.Ok? ==>
      && 0 < st.consumed <= |buffer| - pos
      && Parsing(buffer, pos + st.consumed, if st.argv == [] then before else before + [st.argv], goal)
  {
    hide Parse, Outcome;
    DrainTurn(buffer, pos, st, before);
  }

  lemma SliceFromStart(buffer: string)
    ensures buffer[0..] == buffer
  {
  }

  class Connection {
    var input: string
    var closing: bool
    var dispatched: seq<Argv>

    ghost function State(): Stream
      reads this
    {
      Stream(input, closing, dispatched)
    }

    constructor ()
      ensures State() == Fresh
    {
      input, closing, dispatched := [], false, [];
    }

    method HandleReadable(results: seq<ReadResult>)
      modifies this
      ensures State() == Arrive(old(State()), Reading(results))
    {
      hide Outcome;
      var i := 0;
      while i < |results|
        invariant i <= |results| && dispatched == old(dispatched) && closing == old(closing)
        invariant input + Reading(results[i..]).bytes == old(input) + Reading(results).bytes
        invariant Reading(results[i..]).over == Reading(results).over
      {
        match results[i] {
          case Bytes(s) =>
            input := input + s;
            if |s| < READ_CHUNK {
              break;
            }
          case WouldBlock =>
            break;
          case _ =>
            closing := true;
            break;
        }
        i := i + 1;
      }
      assert input == old(input) + Reading(results).bytes;
      if |input| > MAX_BUFFER {
        closing := true;
      }
      ProcessInput();
    }

    method ProcessInput()
      modifies this
      ensures State() == if old(closing) then old(State()) else Outcome(old(input), old(dispatched))
    {
      if closing {
        return;
      }
      hide *;
      ghost var buffer, goal := input, Outcome(input, dispatched);
      var pos := ParseLoop(goal);
      SliceFromStart(buffer);
      if pos > 0 {
        input := input[pos..];
      }
    }

    /** The loop: parses from the front of the buffer and dispatches, until it needs more or hits an error. */
    method ParseLoop(ghost goal: Stream) returns (pos: nat)
      requires !closing && goal == Outcome(input, dispatched)
      modifies this`closing, this`dispatched
      ensures pos <= |input| && goal == Stream(input[pos..], closing, dispatched)
    {
      hide *;
      pos := 0;
      ParsingStarts(input, dispatched);
      while true
        invariant !closing && pos <= |input| && Parsing(input, pos, dispatched, goal)
        decreases |input| - pos
      {
        var st := ParseView(input[pos..]);
        ParsingTurn(input, pos, st, dispatched, goal);
        if st.NeedMore? {
          return;
        }
        if st.ProtocolError? {
          closing := true;
          return;
        }
        pos := pos + st.consumed;
        if st.argv != [] {
          dispatched := dispatched + [st.argv];
        }
      }
    }

    static method ParseView(data: string) returns (r: Parsed)
      ensures r == Parse(data)
    {
      if data == [] {
        return NeedMore;
      } else if data[0] == '*' {
        r := ParseMultibulkLoop(data);
      } else {
        r := ParseInline(data);
      }
    }
  }

  // ---------------------------------------------------------------------------
  // Chunking and truncation
  // ---------------------------------------------------------------------------

  function EncodeAll(commands: seq<Argv>): string {
    if commands == [] then [] else Encode(commands[0]) + EncodeAll(commands[1..])
  }

  function KeptAll(commands: seq<Argv>): seq<Argv> {
    if commands == [] then [] else Kept(commands[0]) + KeptAll(commands[1..])
  }

  predicate AllEncodable(commands: seq<Argv>) {
    forall i :: 0 <= i < |commands| ==> Encodable(commands[i])
  }

  /** How many whole commands the first `k` bytes of the encoded stream hold. */
  function Whole(commands: seq<Argv>, k: nat): (m: nat)
    ensures m <= |commands|
  {
    if commands == [] || k < |Encode(commands[0])| then 0
    else 1 + Whole(commands[1..], k - |Encode(commands[0])|)
  }

  /** `Whole` is the largest number of leading commands that fit. */
  lemma {:induction false} WholeIsLongest(commands: seq<Argv>, k: nat, m: nat)
    requires m <= |commands|
    ensures |EncodeAll(commands[..m])| <= k <==> m <= Whole(commands, k)
    decreases |commands|
  {
    hide Encode;
    if m > 0 {
      var rest, n := commands[1..], |Encode(commands[0])|;
      assert commands[..m][1..] == rest[..m - 1] && commands[..m][0] == commands[0];
      if k >= n {
        WholeIsLongest(rest, k - n, m - 1);
      }
    }
  }

  lemma {:induction false} EncodeAllAppend(a: seq<Argv>, b: seq<Argv>)
    ensures EncodeAll(a + b) == EncodeAll(a) + EncodeAll(b)
  {
    hide Encode;
    if a == [] {
      assert a + b == b;
    } else {
      EncodeAllAppend(a[1..], b);
      assert (a + b)[1..] == a[1..] + b;
    }
  }

  lemma {:induction false} KeptAllAppend(a: seq<Argv>, b: seq<Argv>)
    ensures KeptAll(a + b) == KeptAll(a) + KeptAll(b)
  {
    if a == [] {
      assert a + b == b;
    } else {
      KeptAllAppend(a[1..], b);
      assert (a + b)[1..] == a[1..] + b;
    }
  }

  /** The bytes of the first `m` commands. */
  function Used(commands: seq<Argv>, m: nat): nat
    requires m <= |commands|
  {
    |EncodeAll(commands[..m])|
  }

  lemma UsedStep(commands: seq<Argv>, m: nat)
    requires 0 < m <= |commands|
    ensures Used(commands, m) == |Encode(commands[0])| + Used(commands[1..], m - 1)
    ensures KeptAll(commands[..m]) == Kept(commands[0]) + KeptAll(commands[1..][..m - 1])
    ensures EncodeAll(commands) == Encode(commands[0]) + EncodeAll(commands[1..])
  {
    hide Encode;
    assert commands[..m][1..] == commands[1..][..m - 1] && commands[..m][0] == commands[0];
  }

  /** Whole commands followed by the start of another: exactly the whole ones are dispatched. */
  lemma {:induction false} DrainWhole(whole: seq<Argv>, part: string)
    requires AllEncodable(whole) && Parse(part) == NeedMore
    ensures Drain(EncodeAll(whole) + part) == Drained(KeptAll(whole), part, false)
  {
    hide Encode, Drain, Parse;
    if whole == [] {
      assert EncodeAll(whole) + part == part;
      DrainMore(part, []);
    } else {
      var first, after := Encode(whole[0]), EncodeAll(whole[1..]) + part;
      DrainWhole(whole[1..], part);
      DrainFirst(whole[0], after);
      assert EncodeAll(whole) + part == first + after;
    }
  }

  /** A stream of encoded commands is read back whole exactly when none of them has more arguments than the parser
      allows. */
  lemma {:induction false} StreamReadsBackExactly(commands: seq<Argv>)
    requires forall i :: 0 <= i < |commands| ==> Countable(commands[i])
    ensures |Drain(EncodeAll(commands)).commands| <= |commands|
    ensures Drain(EncodeAll(commands)).commands == commands <==> AllEncodable(commands)
  {
    hide Encode, Drain, Parse, Encodable;
    if commands == [] {
      DrainMore([], []) by { NothingNeedsMore(); }
    } else {
      var argv, rest := commands[0], commands[1..];
      assert Countable(argv) && commands == [argv] + rest;
      StreamReadsBackExactly(rest);
      assert AllEncodable(commands) <==> Encodable(argv) && AllEncodable(rest) by {
        assert forall i :: 1 <= i < |commands| ==> commands[i] == rest[i - 1];
      }
      if Encodable(argv) {
        DrainFirst(argv, EncodeAll(rest));
        assert Drain(EncodeAll(commands)).commands == [argv] + Drain(EncodeAll(rest)).commands;
      } else {
        StopsAt(argv, EncodeAll(rest));
      }
    }
  }

  /** A command with arguments, each of a length that can be written down. */
  predicate Countable(argv: Argv) {
    argv != [] && |argv| <= INT64_MAX && forall i :: 0 <= i < |argv| ==> |argv[i]| <= INT64_MAX
  }

  lemma StopsAt(argv: Argv, after: string)
    requires Countable(argv) && !Encodable(argv)
    ensures Drain(Encode(argv) + after).commands == []
  {
    ReadsBackExactly(argv, after);
    hide Encode, Parse, Drain;
    DrainError(Encode(argv) + after, []);
  }

  lemma DrainFirst(argv: Argv, after: string)
    requires Encodable(argv)
    ensures var more := Drain(after);
      Drain(Encode(argv) + after) == Drained(Kept(argv) + more.commands, more.rest, more.failed)
  {
    DecodeEncode(argv, after);
    hide *;
    assert (Encode(argv) + after)[|Encode(argv)|..] == after;
    DrainOne(Encode(argv) + after, argv, |Encode(argv)|, []);
  }

  /** After the whole commands, less than one command is left over. */
  lemma {:induction false} LeftoverIsShort(commands: seq<Argv>, k: nat)
    requires k <= |EncodeAll(commands)|
    ensures var m := Whole(commands, k);
      && Used(commands, m) <= k && (m < |commands| ==> k - Used(commands, m) < |Encode(commands[m])|)
      && (m == |commands| ==> Used(commands, m) == k)
    decreases |commands|
  {
    hide Encode;
    var m := Whole(commands, k);
    WholeIsLongest(commands, k, m);
    if commands != [] && k >= |Encode(commands[0])| {
      LeftoverIsShort(commands[1..], k - |Encode(commands[0])|);
      UsedStep(commands, m);
    } else {
      assert commands[..0] == [];
    }
  }

  /** The first `m` commands are the first bytes of the stream. */
  lemma PrefixOfStream(commands: seq<Argv>, m: nat)
    requires m <= |commands|
    ensures EncodeAll(commands[..m]) <= EncodeAll(commands)
    ensures EncodeAll(commands) == EncodeAll(commands[..m]) + EncodeAll(commands[m..])
  {
    hide Encode;
    assert commands == commands[..m] + commands[m..];
    EncodeAllAppend(commands[..m], commands[m..]);
  }

  lemma PartNeedsMore(commands: seq<Argv>, k: nat)
    requires AllEncodable(commands) && k <= |EncodeAll(commands)|
    ensures var used := Used(commands, Whole(commands, k));
      used <= k && Parse(EncodeAll(commands)[used..k]) == NeedMore
  {
    hide Encode, Whole, KeptAll, Parse;
    LeftoverIsShort(commands, k);
    var m := Whole(commands, k);
    var used := Used(commands, m);
    if m < |commands| {
      PrefixOfStream(commands, m);
      var rest := commands[m..];
      assert EncodeAll(rest) == Encode(rest[0]) + EncodeAll(rest[1..]);
      hide EncodeAll;
      PartOf(EncodeAll(commands), EncodeAll(commands[..m]), Encode(commands[m]), EncodeAll(rest[1..]), k);
      StrictPrefixNeedsMore(commands[m], k - used);
    } else {
      assert EncodeAll(commands)[used..k] == [];
      NothingNeedsMore();
    }
  }

  lemma NothingNeedsMore()
    ensures Parse([]) == NeedMore
  {
  }

  lemma PartOf(all: string, head: string, next: string, tail: string, k: nat)
    requires all == head + (next + tail) && |head| <= k < |head| + |next|
    ensures all[|head|..k] == next[..k - |head|]
  {
  }

  /** A log cut at any byte replays exactly its longest prefix of whole commands, and what is left is not an error. */
  lemma CutStream(commands: seq<Argv>, k: nat)
    requires AllEncodable(commands) && k <= |EncodeAll(commands)|
    ensures var m := Whole(commands, k);
      && Used(commands, m) <= k
      && Drain(EncodeAll(commands)[..k]) ==
        Drained(KeptAll(commands[..m]), EncodeAll(commands)[Used(commands, m)..k], false)
  {
    hide Encode, EncodeAll, Whole, KeptAll, Parse, Drain;
    PartNeedsMore(commands, k);
    var m := Whole(commands, k);
    var all, head := EncodeAll(commands), EncodeAll(commands[..m]);
    var part := all[|head|..k];
    PrefixOfStream(commands, m);
    DrainWhole(commands[..m], part);
    assert all[..k] == head + part;
  }

  function Concat(chunks: seq<string>): string {
    if chunks == [] then [] else Concat(chunks[..|chunks| - 1]) + chunks[|chunks| - 1]
  }

  function FeedAll(chunks: seq<string>): Stream {
    if chunks == [] then Fresh else Feed(FeedAll(chunks[..|chunks| - 1]), chunks[|chunks| - 1])
  }

  /** Every command and every chunk together stay below the input limit. */
  predicate BelowLimit(commands: seq<Argv>, chunks: seq<string>) {
    && (forall j :: 0 <= j < |chunks| ==> |chunks[j]| <= MAX_BUFFER)
    && forall i, j :: 0 <= i < |commands| && 0 <= j < |chunks| ==> |Encode(commands[i])| + |chunks[j]| <= MAX_BUFFER
  }

  /** The state of a connection that has received the first `k` bytes of an encoded stream. */
  ghost function Received(commands: seq<Argv>, k: nat): Stream
    requires k <= |EncodeAll(commands)| && Used(commands, Whole(commands, k)) <= k
  {
    var m := Whole(commands, k);
    Stream(EncodeAll(commands)[Used(commands, m)..k], false, KeptAll(commands[..m]))
  }

  /** However a stream of encoded commands is cut into chunks, the commands dispatched are those wholly received. */
  lemma {:induction false} AnyChunking(commands: seq<Argv>, chunks: seq<string>)
    requires AllEncodable(commands) && BelowLimit(commands, chunks) && Concat(chunks) <= EncodeAll(commands)
    ensures Used(commands, Whole(commands, |Concat(chunks)|)) <= |Concat(chunks)|
    ensures FeedAll(chunks) == Received(commands, |Concat(chunks)|)
    decreases |chunks|
  {
    hide Encode, EncodeAll, AllEncodable, Used, Feed;
    var k := |Concat(chunks)|;
    LeftoverIsShort(commands, k);
    if chunks == [] {
      NothingReceived(commands);
    } else {
      hide Whole, Received;
      var before, chunk := chunks[..|chunks| - 1], chunks[|chunks| - 1];
      assert Concat(chunks) == Concat(before) + chunk;
      assert BelowLimit(commands, before);
      assert Concat(before) <= EncodeAll(commands);
      AnyChunking(commands, before);
      assert chunk == EncodeAll(commands)[|Concat(before)|..k];
      hide Concat;
      NextChunk(commands, |Concat(before)|, k, chunk);
    }
  }

  lemma NothingReceived(commands: seq<Argv>)
    ensures Whole(commands, 0) == 0 && Used(commands, 0) == 0
    ensures Received(commands, 0) == Fresh
  {
    hide Encode;
    assert commands[..0] == [];
  }

  lemma NextChunk(commands: seq<Argv>, k0: nat, k: nat, chunk: string)
    requires AllEncodable(commands) && k0 <= k <= |EncodeAll(commands)| && chunk == EncodeAll(commands)[k0..k]
    requires |chunk| <= MAX_BUFFER && forall i :: 0 <= i < |commands| ==> |Encode(commands[i])| + |chunk| <= MAX_BUFFER
    ensures Used(commands, Whole(commands, k0)) <= k0 && Used(commands, Whole(commands, k)) <= k
    ensures Feed(Received(commands, k0), chunk) == Received(commands, k)
  {
    hide Encode, Parse, Drain, EncodeAll, KeptAll, Whole, Outcome, Feed;
    LeftoverIsShort(commands, k0);
    PartNeedsMore(commands, k);
    var m0, m := Whole(commands, k0), Whole(commands, k);
    WholeIsLongest(commands, k, m0);
    var middle, part := commands[..m][m0..], EncodeAll(commands)[Used(commands, m)..k];
    DrainWhole(middle, part);
    assert commands[..m] == commands[..m0] + middle;
    EncodeAllAppend(commands[..m0], middle);
    KeptAllAppend(commands[..m0], middle);
    PrefixOfStream(commands, m);
    GlueSlices(EncodeAll(commands), EncodeAll(commands[..m0]), EncodeAll(middle), k0, k);
    assert m0 < |commands| ==> |Encode(commands[m0])| + |chunk| <= MAX_BUFFER;
    FeedOne(Received(commands, k0), chunk, EncodeAll(middle) + part, part, KeptAll(middle));
  }

  /** The bytes of the readable event that brings the end of the stream are not parsed: commands they complete are lost,
      and nothing is lost exactly when they complete none. */
  lemma LostAtTheEnd(commands: seq<Argv>, chunks: seq<string>, last: string)
    requires AllEncodable(commands) && BelowLimit(commands, chunks + [last])
    requires Concat(chunks) + last <= EncodeAll(commands)
    ensures var before, after := Whole(commands, |Concat(chunks)|), Whole(commands, |Concat(chunks) + last|);
      var withEnd := Arrive(FeedAll(chunks), Taken(last, true));
      var withoutEnd := Arrive(FeedAll(chunks), Taken(last, false));
      && before <= after <= |commands|
      && withEnd.dispatched == KeptAll(commands[..before]) && withoutEnd.dispatched == KeptAll(commands[..after])
      && (withEnd.dispatched == withoutEnd.dispatched <==> forall i :: before <= i < after ==> commands[i] == [])
  {
    hide Encode, EncodeAll, AllEncodable, Used, Feed, Whole, KeptAll, Parse, Drain;
    var all := chunks + [last];
    assert all[..|all| - 1] == chunks && Concat(all) == Concat(chunks) + last;
    assert BelowLimit(commands, chunks);
    AnyChunking(commands, chunks);
    AnyChunking(commands, all);
    var before, after := Whole(commands, |Concat(chunks)|), Whole(commands, |Concat(all)|);
    WholeIsLongest(commands, |Concat(chunks)|, before);
    WholeIsLongest(commands, |Concat(all)|, before);
    assert commands[..after] == commands[..before] + commands[before..after];
    KeptAllAppend(commands[..before], commands[before..after]);
    KeptNothing(commands[before..after]);
  }

  lemma {:induction false} KeptNothing(commands: seq<Argv>)
    ensures KeptAll(commands) == [] <==> forall i :: 0 <= i < |commands| ==> commands[i] == []
  {
    if commands != [] {
      KeptNothing(commands[1..]);
      assert forall i :: 1 <= i < |commands| ==> commands[i] == commands[1..][i - 1];
    }
  }

  lemma FeedOne(s: Stream, chunk: string, buffer: string, rest: string, kept: seq<Argv>)
    requires !s.closing && s.input + chunk == buffer && |buffer| <= MAX_BUFFER
    requires Drain(buffer) == Drained(kept, rest, false)
    ensures Feed(s, chunk) == Stream(rest, false, s.dispatched + kept)
  {
    hide Drain;
  }

  lemma GlueSlices(all: string, head: string, middle: string, k0: nat, k: nat)
    requires head + middle <= all && |head| <= k0 <= k <= |all| && |head + middle| <= k
    ensures all[|head|..k0] + all[k0..k] == middle + all[|head + middle|..k]
  {
    assert forall i :: 0 <= i < |head + middle| ==> all[i] == (head + middle)[i];
  }

  /** Chunking never matters: two ways of cutting the same whole stream dispatch the same commands and leave nothing
      over. */
  lemma ChunkingIrrelevant(commands: seq<Argv>, chunks: seq<string>)
    requires AllEncodable(commands) && BelowLimit(commands, chunks) && Concat(chunks) == EncodeAll(commands)
    ensures FeedAll(chunks) == Stream([], false, KeptAll(commands))
  {
    hide Encode;
    AnyChunking(commands, chunks);
    var k := |Concat(chunks)|;
    assert commands[..|commands|] == commands;
    WholeIsLongest(commands, k, |commands|);
  }
}

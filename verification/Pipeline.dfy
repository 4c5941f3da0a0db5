/** The replies owed to one connection: slots filled in any order, sent in submission order. */
module Pipelines {
  import opened Resp

  // ---------------------------------------------------------------------------
  // Reply bytes
  // ---------------------------------------------------------------------------

  function SimpleReply(s: string): string {
    "+" + s + CRLF
  }

  function ErrorReply(s: string): string {
    "-" + s + CRLF
  }

  function IntReply(v: int): string {
    ":" + Dec(v) + CRLF
  }

  function BulkReply(s: string): string {
    "$" + Dec(|s|) + CRLF + s + CRLF
  }

  const NULL_BULK: string := "$-1" + CRLF

  function ArrayHeader(n: int): string {
    "*" + Dec(n) + CRLF
  }

  function Joined(frags: seq<string>): string {
    if frags == [] then [] else Joined(frags[..|frags| - 1]) + frags[|frags| - 1]
  }

  /** The digits from `i` on, appended to what was read before. */
  function LeadingDigits(s: string, i: nat, v: int): int
    requires i <= |s|
    decreases |s| - i
  {
    if i == |s| || !IsDigit(s[i]) then v else LeadingDigits(s, i + 1, v * 10 + DigitValue(s[i]))
  }

  /** The number in an integer reply; 0 for any other reply. */
  function IntOfReply(reply: string): int {
    if reply == [] || reply[0] != ':' then 0
    else if 1 < |reply| && reply[1] == '-' then -LeadingDigits(reply, 2, 0)
    else LeadingDigits(reply, 1, 0)
  }

  // ---------------------------------------------------------------------------
  // Slots
  // ---------------------------------------------------------------------------

  datatype Kind = Single | MGet | MSet | DelCount | ExistsCount

  datatype Slot = Slot(ready: bool, bytes: string, kind: Kind, remaining: int, frags: seq<string>, accum: int)

  function Answered(bytes: string): Slot {
    Slot(true, bytes, Single, 0, [], 0)
  }

  function Awaiting(kind: Kind, n: nat): Slot {
    Slot(false, [], kind, n, seq(n, i => []), 0)
  }

  function Assembled(kind: Kind, frags: seq<string>, accum: int): string {
    match kind
    case Single => if frags == [] then [] else frags[0]
    case MGet => ArrayHeader(|frags|) + Joined(frags)
    case MSet => SimpleReply("OK")
    case DelCount => IntReply(accum)
    case ExistsCount => IntReply(accum)
  }

  /** One fragment arrives in a slot; the last one makes it ready. */
  function Filled(slot: Slot, index: nat, frag: string, isInt: bool, value: int): Slot
    requires index < |slot.frags|
  {
    var frags := if isInt then slot.frags else slot.frags[index := frag];
    var accum := if isInt then slot.accum + value else slot.accum;
    if slot.remaining == 1 then Slot(true, Assembled(slot.kind, frags, accum), slot.kind, 0, frags, accum)
    else Slot(slot.ready, slot.bytes, slot.kind, slot.remaining - 1, frags, accum)
  }

  // ---------------------------------------------------------------------------
  // Connections
  // ---------------------------------------------------------------------------

  /** `out` is everything written to the client so far or still to be written. */
  datatype Conn = Conn(out: string, closing: bool, pipeline: map<nat, Slot>, nextSeq: nat)

  const NewConn := Conn([], false, map[], 0)

  /** Counting up from `k`, the first number in the set. */
  ghost function FirstFrom(keys: set<nat>, k: nat, some: nat): (m: nat)
    requires some in keys && k <= some && forall j :: j in keys ==> k <= j
    ensures m in keys && forall j :: j in keys ==> m <= j
    decreases some - k
  {
    if k in keys then k else FirstFrom(keys, k + 1, some)
  }

  lemma MinExists(pipeline: map<nat, Slot>)
    requires pipeline != map[]
    ensures exists q :: q in pipeline && forall j :: j in pipeline ==> q <= j
  {
    assert pipeline.Keys == {} ==> pipeline == map[];
    var some :| some in pipeline.Keys;
    var m := FirstFrom(pipeline.Keys, 0, some);
    assert m in pipeline && forall j :: j in pipeline ==> m <= j;
  }

  /** The first key of a slot map. */
  ghost function Front(pipeline: map<nat, Slot>): (q: nat)
    requires pipeline != map[]
    ensures q in pipeline && forall j :: j in pipeline ==> q <= j
  {
    MinExists(pipeline);
    var q :| q in pipeline && forall j :: j in pipeline ==> q <= j;
    q
  }

  /** The number of the next reply to send. */
  ghost function Base(conn: Conn): nat {
    if conn.pipeline == map[] then conn.nextSeq else Front(conn.pipeline)
  }

  /** The slot numbers are one interval that ends at the next number to hand out. */
  ghost predicate Interval(conn: Conn) {
    Base(conn) <= conn.nextSeq && forall q :: q in conn.pipeline <==> Base(conn) <= q < conn.nextSeq
  }

  lemma BaseIs(conn: Conn, base: nat)
    requires base <= conn.nextSeq && forall q :: q in conn.pipeline <==> base <= q < conn.nextSeq
    ensures Base(conn) == base && Interval(conn)
  {
    assert base < conn.nextSeq ==> base in conn.pipeline;
    if conn.pipeline != map[] {
      var f := Front(conn.pipeline);
    }
  }

  ghost function WithoutFront(conn: Conn): (r: Conn)
    requires conn.pipeline != map[]
    ensures |r.pipeline| < |conn.pipeline|
  {
    var q := Front(conn.pipeline);
    var rest := map k | k in conn.pipeline && k != q :: conn.pipeline[k];
    assert rest.Keys == conn.pipeline.Keys - {q};
    Conn(conn.out + conn.pipeline[q].bytes, conn.closing, rest, conn.nextSeq)
  }

  /** Sending every leading ready reply. */
  ghost function Flushed(conn: Conn): Conn
    decreases |conn.pipeline|
  {
    if conn.pipeline == map[] || !conn.pipeline[Front(conn.pipeline)].ready then conn
    else Flushed(WithoutFront(conn))
  }

  ghost function WithSlot(conn: Conn, slot: Slot): Conn {
    Conn(conn.out, conn.closing, conn.pipeline[conn.nextSeq := slot], conn.nextSeq + 1)
  }

  /** A fragment for slot `turn` arrives and whatever became sendable is sent. */
  ghost function Completed(conn: Conn, turn: nat, index: nat, frag: string, isInt: bool, value: int): Conn
    requires turn in conn.pipeline ==> index < |conn.pipeline[turn].frags|
  {
    if turn !in conn.pipeline then conn
    else Flushed(conn.(pipeline := conn.pipeline[turn := Filled(conn.pipeline[turn], index, frag, isInt, value)]))
  }

  lemma WithSlotInterval(conn: Conn, slot: Slot)
    requires Interval(conn)
    ensures Interval(WithSlot(conn, slot)) && Base(WithSlot(conn, slot)) == Base(conn)
  {
    BaseIs(WithSlot(conn, slot), Base(conn));
  }

  lemma ReplacedInterval(conn: Conn, turn: nat, slot: Slot)
    requires Interval(conn) && turn in conn.pipeline
    ensures var r := conn.(pipeline := conn.pipeline[turn := slot]); Interval(r) && Base(r) == Base(conn)
  {
    BaseIs(conn.(pipeline := conn.pipeline[turn := slot]), Base(conn));
  }

  lemma WithoutFrontInterval(conn: Conn)
    requires Interval(conn) && conn.pipeline != map[]
    ensures var r := WithoutFront(conn);
      && Interval(r) && Base(r) == Base(conn) + 1 && r.out == conn.out + conn.pipeline[Base(conn)].bytes
      && forall q :: q in r.pipeline ==> q in conn.pipeline && r.pipeline[q] == conn.pipeline[q]
  {
    BaseIs(WithoutFront(conn), Base(conn) + 1);
  }

  /** The connection object as the event loop updates it. */
  class Connection {
    var out: string
    var closing: bool
    var pipeline: map<nat, Slot>
    var nextSeq: nat

    ghost function State(): Conn
      reads this
    {
      Conn(out, closing, pipeline, nextSeq)
    }

    constructor ()
      ensures State() == NewConn
    {
      out, closing, pipeline, nextSeq := [], false, map[], 0;
    }

    method LocalReply(bytes: string)
      modifies this
      ensures State() == WithSlot(old(State()), Answered(bytes))
    {
      var turn := nextSeq;
      nextSeq := nextSeq + 1;
      pipeline := pipeline[turn := Slot(true, bytes, Single, 0, [], 0)];
    }

    method BeginRemote(kind: Kind, n: nat) returns (turn: nat)
      modifies this
      ensures turn == old(nextSeq) && State() == WithSlot(old(State()), Awaiting(kind, n))
    {
      turn := nextSeq;
      nextSeq := nextSeq + 1;
      pipeline := pipeline[turn := Slot(false, [], kind, n, seq(n, i => []), 0)];
    }

    method FlushReady()
      modifies this
      ensures State() == Flushed(old(State()))
    {
      while pipeline != map[]
        invariant Flushed(State()) == Flushed(old(State()))
        decreases |pipeline|
      {
        MinExists(pipeline);
        var q :| q in pipeline && forall j :: j in pipeline ==> q <= j;
        assert q == Front(pipeline);
        if !pipeline[q].ready {
          break;
        }
        ghost var next := WithoutFront(State());
        out := out + pipeline[q].bytes;
        pipeline := map k | k in pipeline && k != q :: pipeline[k];
        assert State() == next;
      }
    }

    method CompleteFragment(turn: nat, index: nat, frag: string, isInt: bool, value: int)
      requires turn in pipeline ==> index < |pipeline[turn].frags|
      modifies this
      ensures State() == Completed(old(State()), turn, index, frag, isInt, value)
    {
      if turn !in pipeline {
        return;
      }
      var slot := pipeline[turn];
      if isInt {
        slot := slot.(accum := slot.accum + value);
      } else {
        slot := slot.(frags := slot.frags[index := frag]);
      }
      slot := slot.(remaining := slot.remaining - 1);
      if slot.remaining == 0 {
        slot := Assemble(slot);
      }
      pipeline := pipeline[turn := slot];
      FlushReady();
    }

    static method Assemble(slot: Slot) returns (r: Slot)
      ensures r == slot.(ready := true, bytes := Assembled(slot.kind, slot.frags, slot.accum))
    {
      var bytes: string := [];
      match slot.kind {
        case Single =>
          if slot.frags != [] {
            bytes := slot.frags[0];
          }
        case MGet =>
          bytes := ArrayHeader(|slot.frags|);
          var i := 0;
          while i < |slot.frags|
            invariant 0 <= i <= |slot.frags| && bytes == ArrayHeader(|slot.frags|) + Joined(slot.frags[..i])
          {
            assert slot.frags[..i + 1][..i] == slot.frags[..i];
            bytes := bytes + slot.frags[i];
            i := i + 1;
          }
          assert slot.frags[..i] == slot.frags;
        case MSet =>
          bytes := SimpleReply("OK");
        case _ =>
          bytes := IntReply(slot.accum);
      }
      r := slot.(ready := true, bytes := bytes);
    }
  }

  method ParseRespInteger(reply: string) returns (v: int)
    ensures v == IntOfReply(reply)
  {
    if reply == [] || reply[0] != ':' {
      return 0;
    }
    v := 0;
    var i, neg := 1, false;
    if i < |reply| && reply[i] == '-' {
      neg := true;
      i := i + 1;
    }
    ghost var start := i;
    while i < |reply| && IsDigit(reply[i])
      invariant 1 <= start <= i <= |reply|
      invariant LeadingDigits(reply, i, v) == LeadingDigits(reply, start, 0)
    {
      v := v * 10 + DigitValue(reply[i]);
      i := i + 1;
    }
    v := if neg then -v else v;
  }

  /** Reading back an integer reply gives the integer. */
  lemma IntReplyRead(v: int)
    ensures IntOfReply(IntReply(v)) == v
  {
    var body := Dec(v);
    var r := IntReply(v);
    assert r == [':'] + body + CRLF;
    if v < 0 {
      assert r == ":-" + Digits(-v) + CRLF;
      DigitsLead(":-", -v);
    } else {
      DigitsLead(":", v);
    }
  }

  lemma DigitsLead(before: string, n: nat)
    ensures LeadingDigits(before + Digits(n) + CRLF, |before|, 0) == n
  {
    var s := before + Digits(n) + CRLF;
    var e := |before| + |Digits(n)|;
    LeadingDigitsStep(s, |before|, Digits(n), |Digits(n)|);
    assert Digits(n)[..|Digits(n)|] == Digits(n);
    assert s[e] == CR && !IsDigit(CR);
    DigitsRead(n);
    assert LeadingDigits(s, e, n) == n;
  }

  lemma {:induction false} LeadingDigitsStep(s: string, i: nat, digits: string, k: nat)
    requires AllDigits(digits) && i + |digits| <= |s| && s[i..i + |digits|] == digits && k <= |digits|
    ensures LeadingDigits(s, i, 0) == LeadingDigits(s, i + k, DigitsValue(digits[..k]))
    decreases k
  {
    if k > 0 {
      LeadingDigitsStep(s, i, digits, k - 1);
      assert digits[..k][..k - 1] == digits[..k - 1];
      assert s[i + k - 1] == digits[k - 1];
    }
  }
}

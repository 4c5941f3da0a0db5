/** Replies leave a connection in submission order, whatever order the shards answer in. */
module ReplyOrder {
  import opened Options
  import opened Resp
  import opened Pipelines
  import opened Routing
  import opened Protocols

  // ---------------------------------------------------------------------------
  // What a command's reply should be
  // ---------------------------------------------------------------------------

  function ReplyTo(done: map<FragId, string>, x: FragId): string {
    if x in done then done[x] else []
  }

  /** The replies of a command's parts, in the order of its keys. */
  function Replies(done: map<FragId, string>, c: ConnId, q: nat, n: nat): (r: seq<string>)
    ensures |r| == n && forall i :: 0 <= i < n ==> r[i] == ReplyTo(done, FragId(c, q, i))
  {
    seq(n, i requires 0 <= i < n => ReplyTo(done, FragId(c, q, i)))
  }

  function SumOf(replies: seq<string>): int {
    if replies == [] then 0 else SumOf(replies[..|replies| - 1]) + IntOfReply(replies[|replies| - 1])
  }

  /** The bytes a dispatched command is owed. */
  function Answer(net: Net, c: ConnId, q: nat): string
    requires q < |Log(net.log, c)|
  {
    match Log(net.log, c)[q].plan
    case Immediate(reply) => reply
    case Parts(kind, parts) =>
      var replies := Replies(net.done, c, q, |parts|);
      Assembled(kind, replies, SumOf(replies))
  }

  /** The bytes owed to the first `k` commands of a connection. */
  function Answers(net: Net, c: ConnId, k: nat): string
    requires k <= |Log(net.log, c)|
  {
    if k == 0 then [] else Answers(net, c, k - 1) + Answer(net, c, k - 1)
  }

  ghost predicate AllDone(net: Net, c: ConnId, q: nat) {
    && q < |Log(net.log, c)|
    && var plan := Log(net.log, c)[q].plan;
      plan.Parts? ==> forall i :: 0 <= i < |plan.parts| ==> FragId(c, q, i) in net.done
  }

  // ---------------------------------------------------------------------------
  // What a slot and a connection hold
  // ---------------------------------------------------------------------------

  function SlotFrags(net: Net, c: ConnId, q: nat, kind: Kind, n: nat): (r: seq<string>)
    ensures |r| == n
  {
    seq(n, i requires 0 <= i < n =>
      var x := FragId(c, q, i);
      if !Counts(kind) && x in net.arrived then ReplyTo(net.done, x) else [])
  }

  function SlotSum(net: Net, c: ConnId, q: nat, kind: Kind, n: nat): int {
    if n == 0 then 0
    else
      var x := FragId(c, q, n - 1);
      SlotSum(net, c, q, kind, n - 1)
      + if Counts(kind) && x in net.arrived then IntOfReply(ReplyTo(net.done, x)) else 0
  }

  ghost predicate SlotOk(net: Net, c: ConnId, q: nat, slot: Slot) {
    && q < |Log(net.log, c)|
    && slot.remaining == Total(OfSlot(c, q), net.mail)
    && slot.ready == (slot.remaining == 0)
    && match Log(net.log, c)[q].plan {
      case Immediate(reply) => slot == Answered(reply)
      case Parts(kind, parts) =>
        && parts != [] && slot.kind == kind
        && (forall i :: 0 <= i < |parts| ==> parts[i].isInt == Counts(kind))
        && slot.frags == SlotFrags(net, c, q, kind, |parts|)
        && slot.accum == SlotSum(net, c, q, kind, |parts|)
        && (slot.ready ==> slot.bytes == Assembled(kind, slot.frags, slot.accum))
    }
  }

  ghost predicate ConnOk(net: Net, c: ConnId, conn: Conn) {
    && |Log(net.log, c)| == conn.nextSeq
    && Interval(conn)
    && conn.out == Answers(net, c, Base(conn))
    && (forall q :: 0 <= q < Base(conn) ==> AllDone(net, c, q))
    && (forall q :: q in conn.pipeline ==> SlotOk(net, c, q, conn.pipeline[q]))
  }

  // ---------------------------------------------------------------------------
  // Frames
  // ---------------------------------------------------------------------------

  lemma SlotFrame(net: Net, net': Net, c: ConnId, q: nat, slot: Slot)
    requires SlotOk(net, c, q, slot) && Log(net.log, c) <= Log(net'.log, c)
    requires Total(OfSlot(c, q), net'.mail) == Total(OfSlot(c, q), net.mail)
    requires forall x: FragId :: x.conn == c && x.turn == q ==> (x in net'.arrived <==> x in net.arrived)
    requires forall x :: x in net.arrived ==> x in net.done
    requires forall x :: x in net.done ==> x in net'.done && net'.done[x] == net.done[x]
    ensures SlotOk(net', c, q, slot)
  {
    hide Total;
    var plan := Log(net.log, c)[q].plan;
    if plan.Parts? {
      assert SlotFrags(net', c, q, plan.kind, |plan.parts|) == SlotFrags(net, c, q, plan.kind, |plan.parts|);
      SumFrame(net, net', c, q, plan.kind, |plan.parts|);
    }
  }

  lemma {:induction false} SumFrame(net: Net, net': Net, c: ConnId, q: nat, kind: Kind, n: nat)
    requires forall x: FragId :: x.conn == c && x.turn == q ==> (x in net'.arrived <==> x in net.arrived)
    requires forall x :: x in net.arrived ==> x in net.done
    requires forall x :: x in net.done ==> x in net'.done && net'.done[x] == net.done[x]
    ensures SlotSum(net', c, q, kind, n) == SlotSum(net, c, q, kind, n)
  {
    if n > 0 {
      SumFrame(net, net', c, q, kind, n - 1);
    }
  }

  lemma {:induction false} AnswersFrame(net: Net, net': Net, c: ConnId, k: nat)
    requires Log(net.log, c) <= Log(net'.log, c) && k <= |Log(net.log, c)|
    requires forall x :: x in net.done ==> x in net'.done && net'.done[x] == net.done[x]
    requires forall q :: 0 <= q < k ==> AllDone(net, c, q)
    ensures Answers(net', c, k) == Answers(net, c, k) && forall q :: 0 <= q < k ==> AllDone(net', c, q)
  {
    hide Answer, AllDone;
    if k > 0 {
      AnswersFrame(net, net', c, k - 1);
      AnswerFrame(net, net', c, k - 1);
    }
  }

  lemma AnswerFrame(net: Net, net': Net, c: ConnId, q: nat)
    requires Log(net.log, c) <= Log(net'.log, c) && AllDone(net, c, q)
    requires forall x :: x in net.done ==> x in net'.done && net'.done[x] == net.done[x]
    ensures Answer(net', c, q) == Answer(net, c, q) && AllDone(net', c, q)
  {
    var plan := Log(net.log, c)[q].plan;
    if plan.Parts? {
      assert Replies(net'.done, c, q, |plan.parts|) == Replies(net.done, c, q, |plan.parts|);
    }
  }

  lemma ConnFrame(net: Net, net': Net, c: ConnId, conn: Conn)
    requires ConnOk(net, c, conn) && SameFor(net, net', c) && OnceEach(net)
    ensures ConnOk(net', c, conn)
  {
    hide Total;
    AnswersFrame(net, net', c, Base(conn));
    forall q | q in conn.pipeline
      ensures SlotOk(net', c, q, conn.pipeline[q])
    {
      SlotFrame(net, net', c, q, conn.pipeline[q]);
    }
  }

  // ---------------------------------------------------------------------------
  // Flushing
  // ---------------------------------------------------------------------------

  /** When no message is left for a command, all of its fragments are back. */
  lemma NoneLeft(net: Net, c: ConnId, q: nat, i: nat)
    requires NetOk(net) && Valid(net.log, FragId(c, q, i)) && Total(OfSlot(c, q), net.mail) == 0
    ensures FragId(c, q, i) in net.done && FragId(c, q, i) in net.arrived
  {
    TotalWithin(FragId(c, q, i), net.mail, |net.mail|);
    assert Total(ReqOf(FragId(c, q, i)), net.mail) == 0 && Total(ComOf(FragId(c, q, i)), net.mail) == 0;
  }

  lemma {:induction false} SumComplete(net: Net, c: ConnId, q: nat, kind: Kind, n: nat)
    requires Counts(kind) && forall i :: 0 <= i < n ==> FragId(c, q, i) in net.arrived
    ensures SlotSum(net, c, q, kind, n) == SumOf(Replies(net.done, c, q, n))
  {
    if n > 0 {
      SumComplete(net, c, q, kind, n - 1);
      assert Replies(net.done, c, q, n)[..n - 1] == Replies(net.done, c, q, n - 1);
    }
  }

  /** A ready slot holds exactly the bytes its command is owed. */
  lemma ReadyIsAnswer(net: Net, c: ConnId, q: nat, slot: Slot)
    requires NetOk(net) && SlotOk(net, c, q, slot) && slot.ready
    ensures slot.bytes == Answer(net, c, q) && AllDone(net, c, q)
  {
    hide Total;
    var plan := Log(net.log, c)[q].plan;
    if plan.Parts? {
      var n := |plan.parts|;
      forall i | 0 <= i < n
        ensures FragId(c, q, i) in net.done && FragId(c, q, i) in net.arrived
      {
        NoneLeft(net, c, q, i);
      }
      if Counts(plan.kind) {
        SumComplete(net, c, q, plan.kind, n);
      } else {
        assert SlotFrags(net, c, q, plan.kind, n) == Replies(net.done, c, q, n);
      }
    }
  }

  lemma {:induction false} FlushKeeps(net: Net, c: ConnId, conn: Conn)
    requires NetOk(net) && ConnOk(net, c, conn)
    ensures ConnOk(net, c, Flushed(conn)) && Flushed(conn).closing == conn.closing
    ensures var r := Flushed(conn).pipeline; r == map[] || !r[Front(r)].ready
    decreases |conn.pipeline|
  {
    hide NetOk, SlotOk, ConnOk;
    if conn.pipeline != map[] && conn.pipeline[Front(conn.pipeline)].ready {
      FlushOne(net, c, conn);
      FlushKeeps(net, c, WithoutFront(conn));
    }
  }

  /** Sending the first reply, when it is ready. */
  lemma FlushOne(net: Net, c: ConnId, conn: Conn)
    requires NetOk(net) && ConnOk(net, c, conn) && conn.pipeline != map[] && conn.pipeline[Front(conn.pipeline)].ready
    ensures ConnOk(net, c, WithoutFront(conn))
  {
    hide NetOk, SlotOk, AllDone, Answer;
    var q := Base(conn);
    ReadyIsAnswer(net, c, q, conn.pipeline[q]);
    WithoutFrontInterval(conn);
  }

  // ---------------------------------------------------------------------------
  // Submitting
  // ---------------------------------------------------------------------------

  /** A new slot at the end, when nothing else about the connection changed. */
  lemma AppendKeeps(net: Net, net': Net, c: ConnId, conn: Conn, slot: Slot)
    requires ConnOk(net, c, conn) && OnceEach(net)
    requires Log(net.log, c) <= Log(net'.log, c) && |Log(net'.log, c)| == conn.nextSeq + 1
    requires forall q :: 0 <= q < conn.nextSeq ==> Total(OfSlot(c, q), net'.mail) == Total(OfSlot(c, q), net.mail)
    requires net'.arrived == net.arrived && net'.done == net.done
    requires SlotOk(net', c, conn.nextSeq, slot)
    ensures ConnOk(net', c, WithSlot(conn, slot))
  {
    hide Total;
    AnswersFrame(net, net', c, Base(conn));
    WithSlotInterval(conn, slot);
    forall q | q in conn.pipeline
      ensures SlotOk(net', c, q, conn.pipeline[q])
    {
      SlotFrame(net, net', c, q, conn.pipeline[q]);
    }
  }

  lemma SubmitNowKeeps(net: Net, c: ConnId, conn: Conn, argv: Argv, reply: string)
    requires NetOk(net) && ConnOk(net, c, conn)
    ensures ConnOk(WithEntry(net, c, Entry(argv, Immediate(reply))), c, WithSlot(conn, Answered(reply)))
  {
    NothingAhead(net, c, conn.nextSeq);
    hide Total;
    AppendKeeps(net, WithEntry(net, c, Entry(argv, Immediate(reply))), c, conn, Answered(reply));
  }

  lemma SubmitRemoteKeeps(net: Net, c: ConnId, conn: Conn, argv: Argv, kind: Kind, parts: seq<Part>)
    requires NetOk(net) && ConnOk(net, c, conn) && c.shard < |net.mail| && parts != []
    requires forall i :: 0 <= i < |parts| ==>
      parts[i].target < |net.mail| && parts[i].args != [] && parts[i].isInt == Counts(kind)
    ensures ConnOk(NetSubmit(net, c, argv, kind, parts), c, WithSlot(conn, Awaiting(kind, |parts|)))
  {
    var turn, n := conn.nextSeq, |parts|;
    var net', slot := NetSubmit(net, c, argv, kind, parts), Awaiting(kind, n);
    NothingAhead(net, c, turn);
    SubmitKeeps(net, c, argv, kind, parts);
    hide Total, PostUpTo;
    forall i | 0 <= i < n
      ensures FragId(c, turn, i) !in net.arrived
    {
      NotYet(net, FragId(c, turn, i));
    }
    assert SlotFrags(net', c, turn, kind, n) == slot.frags;
    SumNone(net', c, turn, kind, n);
    AppendKeeps(net, net', c, conn, slot);
  }

  lemma NotYet(net: Net, x: FragId)
    requires NetOk(net) && !Valid(net.log, x)
    ensures x !in net.done && x !in net.arrived
  {
  }

  lemma {:induction false} SumNone(net: Net, c: ConnId, q: nat, kind: Kind, n: nat)
    requires forall i :: 0 <= i < n ==> FragId(c, q, i) !in net.arrived
    ensures SlotSum(net, c, q, kind, n) == 0
  {
    if n > 0 {
      SumNone(net, c, q, kind, n - 1);
    }
  }

  // ---------------------------------------------------------------------------
  // Completing
  // ---------------------------------------------------------------------------

  lemma {:induction false} SumArrive(net: Net, net': Net, x: FragId, kind: Kind, n: nat)
    requires net'.done == net.done && net'.arrived == net.arrived + {x} && x !in net.arrived
    ensures SlotSum(net', x.conn, x.turn, kind, n) == SlotSum(net, x.conn, x.turn, kind, n)
      + if Counts(kind) && x.index < n then IntOfReply(ReplyTo(net.done, x)) else 0
  {
    if n > 0 {
      SumArrive(net, net', x, kind, n - 1);
    }
  }

  /** The slot a completion is for, before and after. */
  lemma FillKeeps(net: Net, net': Net, x: FragId, slot: Slot, reply: string, isInt: bool, value: int)
    requires SlotOk(net, x.conn, x.turn, slot) && Valid(net.log, x) && isInt == PartOf(net.log, x).isInt
    requires net'.done == net.done && net'.arrived == net.arrived + {x} && net'.log == net.log
    requires x in net.done && x !in net.arrived && reply == net.done[x] && value == Value(isInt, reply)
    requires Total(OfSlot(x.conn, x.turn), net'.mail) == Total(OfSlot(x.conn, x.turn), net.mail) - 1
    ensures x.index < |slot.frags| && SlotOk(net', x.conn, x.turn, Filled(slot, x.index, reply, isInt, value))
  {
    hide Total;
    var plan := Log(net.log, x.conn)[x.turn].plan;
    var n := |plan.parts|;
    assert isInt == Counts(plan.kind);
    SumArrive(net, net', x, plan.kind, n);
    var before, after := SlotFrags(net, x.conn, x.turn, plan.kind, n), SlotFrags(net', x.conn, x.turn, plan.kind, n);
    assert after == if isInt then before else before[x.index := reply];
  }

  lemma CompleteKeeps(net: Net, s: nat, conn: Conn)
    requires NetOk(net) && s < |net.mail| && net.mail[s] != [] && net.mail[s][0].Completion?
    requires ConnOk(net, ConnId(s, net.mail[s][0].cid), conn)
    ensures var m := net.mail[s][0];
      && Fits(conn, m.turn, m.index)
      && ConnOk(NetArrive(net, s), ConnId(s, m.cid), Completed(conn, m.turn, m.index, m.reply, m.isInt, m.value))
      && Completed(conn, m.turn, m.index, m.reply, m.isInt, m.value).closing == conn.closing
  {
    var m := net.mail[s][0];
    var c, x, net' := ConnId(s, m.cid), FragAt(s, m), NetArrive(net, s);
    assert MsgOk(net, s, m);
    ArriveKeeps(net, s);
    AnswersFrame(net, net', c, Base(conn));
    hide Total, Popped;
    forall q | q in conn.pipeline && q != m.turn
      ensures SlotOk(net', c, q, conn.pipeline[q])
    {
      SlotFrame(net, net', c, q, conn.pipeline[q]);
    }
    if m.turn in conn.pipeline {
      FillKeeps(net, net', x, conn.pipeline[m.turn], m.reply, m.isInt, m.value);
      var slot := Filled(conn.pipeline[m.turn], m.index, m.reply, m.isInt, m.value);
      hide SlotOk, NetOk, NetArrive;
      ReplaceKeeps(net', c, conn, m.turn, slot);
      FlushKeeps(net', c, conn.(pipeline := conn.pipeline[m.turn := slot]));
    }
  }

  lemma ReplaceKeeps(net: Net, c: ConnId, conn: Conn, turn: nat, slot: Slot)
    requires Interval(conn) && |Log(net.log, c)| == conn.nextSeq && conn.out == Answers(net, c, Base(conn))
    requires forall q :: 0 <= q < Base(conn) ==> AllDone(net, c, q)
    requires turn in conn.pipeline && SlotOk(net, c, turn, slot)
    requires forall q :: q in conn.pipeline && q != turn ==> SlotOk(net, c, q, conn.pipeline[q])
    ensures ConnOk(net, c, conn.(pipeline := conn.pipeline[turn := slot]))
  {
    hide SlotOk, AllDone, Answers;
    ReplacedInterval(conn, turn, slot);
  }

  // ---------------------------------------------------------------------------
  // Whole runs
  // ---------------------------------------------------------------------------

  /** A log entry for malformed input is answered with what was wrong; one for a command is what routing its command
      gives. */
  ghost predicate EntryOk<V>(cfg: Config<V>, c: ConnId, e: Entry) {
    if e.argv == [] then exists text :: e.plan == Immediate(Complaint(text))
    else match RouteOf(cfg, c.shard, e.argv)
      case Fail(reply) => e.plan == Immediate(reply)
      case Inline => e.plan.Immediate?
      case Remote(kind, parts) => e.plan == Parts(kind, parts)
      case Overrun => false
  }

  ghost predicate Known<V>(cfg: Config<V>, st: Sys<V>, c: ConnId) {
    c.shard < cfg.shards && c.shard < |st.nextCid| && c.cid < st.nextCid[c.shard]
  }

  ghost predicate SysOk<V>(cfg: Config<V>, st: Sys<V>) {
    && |st.db| == |st.net.mail| == |st.nextCid| == |st.trace| == cfg.shards
    && NetOk(st.net)
    && (forall c :: c in st.conns ==> Known(cfg, st, c) && ConnOk(st.net, c, st.conns[c]))
    && (forall c :: c in st.net.log ==> Known(cfg, st, c))
    && (forall c, q :: 0 <= q < |Log(st.net.log, c)| ==> EntryOk(cfg, c, Log(st.net.log, c)[q]))
  }

  lemma MsgOkAt(net: Net, s: nat, i: nat)
    requires NetOk(net) && s < |net.mail| && i < |net.mail[s]|
    ensures var m := net.mail[s][i];
      m.Request? ==> m.args != [] && m.frag.conn.shard < |net.mail|
  {
    hide OnceEach;
    assert MsgOk(net, s, net.mail[s][i]);
  }

  lemma FitsAt(net: Net, s: nat, i: nat, conn: Conn)
    requires NetOk(net) && s < |net.mail| && i < |net.mail[s]| && net.mail[s][i].Completion?
    requires ConnOk(net, ConnId(s, net.mail[s][i].cid), conn)
    ensures Fits(conn, net.mail[s][i].turn, net.mail[s][i].index)
  {
    hide OnceEach, Total;
    var m := net.mail[s][i];
    assert MsgOk(net, s, m);
    assert m.turn in conn.pipeline ==> SlotOk(net, ConnId(s, m.cid), m.turn, conn.pipeline[m.turn]);
  }

  /** A completion always finds its slot wide enough. */
  lemma OkMeansShaped<V>(cfg: Config<V>, st: Sys<V>)
    requires SysOk(cfg, st)
    ensures Shaped(cfg, st)
  {
    hide NetOk, ConnOk, EntryOk, Fits;
    forall s, i | 0 <= s < cfg.shards && 0 <= i < |st.net.mail[s]|
      ensures var m := st.net.mail[s][i];
        if m.Request? then m.args != [] && m.frag.conn.shard < cfg.shards
        else ConnId(s, m.cid) in st.conns ==> Fits(st.conns[ConnId(s, m.cid)], m.turn, m.index)
    {
      var m := st.net.mail[s][i];
      MsgOkAt(st.net, s, i);
      if m.Completion? && ConnId(s, m.cid) in st.conns {
        FitsAt(st.net, s, i, st.conns[ConnId(s, m.cid)]);
      }
    }
  }

  lemma StartOk<V>(cfg: Config<V>)
    ensures SysOk(cfg, Start(cfg))
  {
    var net := Start(cfg).net;
    forall sel
      ensures Total(sel, net.mail) == 0
    {
      TotalEmpty(sel, net.mail, |net.mail|);
    }
    hide Total;
  }

  /** The connections other than `c` do not notice, and `c` is fine: then all are. */
  lemma OthersKeep<V>(cfg: Config<V>, st: Sys<V>, st': Sys<V>, c: ConnId)
    requires SysOk(cfg, st) && NetOk(st'.net)
    requires |st'.db| == |st'.net.mail| == |st'.nextCid| == |st'.trace| == cfg.shards && st'.nextCid == st.nextCid
    requires forall k :: k in st'.conns && k != c ==> k in st.conns && st'.conns[k] == st.conns[k]
    requires forall k :: k != c ==> SameFor(st.net, st'.net, k)
    requires c in st'.conns ==> Known(cfg, st, c) && ConnOk(st'.net, c, st'.conns[c])
    requires forall k :: k in st'.net.log ==> Known(cfg, st', k)
    requires forall q :: 0 <= q < |Log(st'.net.log, c)| ==> EntryOk(cfg, c, Log(st'.net.log, c)[q])
    ensures SysOk(cfg, st')
  {
    hide NetOk, ConnOk, EntryOk;
    forall k | k in st'.conns
      ensures Known(cfg, st', k) && ConnOk(st'.net, k, st'.conns[k])
    {
      if k != c {
        ConnFrame(st.net, st'.net, k, st.conns[k]) by { NetOkOnce(st.net); }
      }
    }
    forall k, q | 0 <= q < |Log(st'.net.log, k)|
      ensures EntryOk(cfg, k, Log(st'.net.log, k)[q])
    {
      assert k != c ==> SameFor(st.net, st'.net, k);
    }
  }

  lemma NetOkOnce(net: Net)
    requires NetOk(net)
    ensures OnceEach(net)
  {
  }

  lemma SubmitNowStep<V>(cfg: Config<V>, st: Sys<V>, st': Sys<V>, c: ConnId, argv: Argv, reply: string)
    requires SysOk(cfg, st) && c in st.conns && EntryOk(cfg, c, Entry(argv, Immediate(reply)))
    requires st'.net == SubmitNow(st, c, argv, reply).net && st'.nextCid == st.nextCid
    requires |st'.db| == |st.db| && |st'.trace| == |st.trace|
    requires st'.conns.Keys == st.conns.Keys && forall k :: k in st.conns && k != c ==> st'.conns[k] == st.conns[k]
    requires exists b :: st'.conns[c] == WithSlot(st.conns[c], Answered(reply)).(closing := b)
    ensures SysOk(cfg, st')
  {
    hide EntryOk, Total, NetOk, ConnOk, SameFor, WithSlot;
    var entry := Entry(argv, Immediate(reply));
    WithEntryImmediate(st.net, c, entry);
    SubmitNowKeeps(st.net, c, st.conns[c], argv, reply);
    var b :| st'.conns[c] == WithSlot(st.conns[c], Answered(reply)).(closing := b);
    ClosingKeeps(st'.net, c, WithSlot(st.conns[c], Answered(reply)), b);
    OthersKeep(cfg, st, st', c);
  }

  lemma ClosingKeeps(net: Net, c: ConnId, conn: Conn, closing: bool)
    requires ConnOk(net, c, conn)
    ensures ConnOk(net, c, conn.(closing := closing))
  {
    var r := conn.(closing := closing);
    BaseIs(r, Base(conn));
  }

  lemma SubmitRemoteStep<V>(cfg: Config<V>, st: Sys<V>, c: ConnId, argv: Argv)
    requires TableOk(cfg) && SysOk(cfg, st) && Shaped(cfg, st) && c in st.conns && argv != []
    requires RouteOf(cfg, c.shard, argv).Remote?
    ensures SysOk(cfg, Submitted(cfg, st, c, argv))
  {
    hide Total, NetOk, ConnOk, SameFor, WithSlot, PostUpTo, RouteOf, AtHome, TableOk;
    RoutesHome(cfg, c.shard, argv);
    PartsCount(cfg, c.shard, argv);
    var r := RouteOf(cfg, c.shard, argv);
    var st' := Submitted(cfg, st, c, argv);
    assert EntryOk(cfg, c, Entry(argv, Parts(r.kind, r.parts)));
    hide EntryOk;
    SubmitKeeps(st.net, c, argv, r.kind, r.parts);
    SubmitRemoteKeeps(st.net, c, st.conns[c], argv, r.kind, r.parts);
    OthersKeep(cfg, st, st', c);
  }

  /** The replies of a split command are read as numbers exactly for the counting commands. */
  lemma PartsCount<V>(cfg: Config<V>, here: nat, argv: Argv)
    requires argv != [] && RouteOf(cfg, here, argv).Remote?
    ensures var r := RouteOf(cfg, here, argv);
      forall i :: 0 <= i < |r.parts| ==> r.parts[i].isInt == Counts(r.kind)
  {
  }

  lemma DeliverKeeps<V>(cfg: Config<V>, st: Sys<V>, s: nat)
    requires SysOk(cfg, st) && Shaped(cfg, st) && s < |st.net.mail| && st.net.mail[s] != []
    ensures SysOk(cfg, Delivered(cfg, st, s))
  {
    hide EntryOk, Total, Execute, ConnOk;
    var m := st.net.mail[s][0];
    var c := ConnId(s, if m.Completion? then m.cid else 0);
    var st' := Delivered(cfg, st, s);
    if m.Request? {
      var reply := Execute(cfg, st.db[s], m.args).1;
      RunKeeps(st.net, s, reply);
      assert st'.net == NetRun(st.net, s, reply);
      hide NetOk, NetRun;
      if c in st.conns {
        ConnFrame(st.net, st'.net, c, st.conns[c]) by { NetOkOnce(st.net); }
      }
      OthersKeep(cfg, st, st', c);
    } else {
      ArriveKeeps(st.net, s);
      if c in st.conns {
        CompleteKeeps(st.net, s, st.conns[c]);
      }
      hide NetOk, SameFor, Completed;
      OthersKeep(cfg, st, st', c);
    }
  }

  lemma SubmittedKeeps<V>(cfg: Config<V>, st: Sys<V>, c: ConnId, argv: Argv)
    requires TableOk(cfg) && SysOk(cfg, st) && Shaped(cfg, st) && Enabled(cfg, st, Submit(c, argv))
    ensures SysOk(cfg, Submitted(cfg, st, c, argv))
  {
    hide NetOk, ConnOk, Total, Execute, TableOk, Shaped, RouteOf;
    if RouteOf(cfg, c.shard, argv).Remote? {
      SubmitRemoteStep(cfg, st, c, argv);
    } else {
      var st' := Submitted(cfg, st, c, argv);
      var reply := st'.conns[c].pipeline[st.conns[c].nextSeq].bytes;
      assert EntryOk(cfg, c, Entry(argv, Immediate(reply)));
      assert st'.conns[c] == WithSlot(st.conns[c], Answered(reply)).(closing := st.conns[c].closing);
      SubmitNowStep(cfg, st, st', c, argv, reply);
    }
  }

  lemma NextKeeps<V>(cfg: Config<V>, st: Sys<V>, step: Step)
    requires TableOk(cfg) && SysOk(cfg, st) && Shaped(cfg, st) && Enabled(cfg, st, step)
    ensures SysOk(cfg, Next(cfg, st, step))
  {
    hide NetOk, ConnOk, Total, Execute, Flushed, Delivered, Submitted, TableOk, Shaped;
    var st' := Next(cfg, st, step);
    match step
    case Accept(s) =>
      AcceptKeeps(cfg, st, s);
    case Submit(c, argv) =>
      SubmittedKeeps(cfg, st, c, argv);
    case BadInput(c, text) =>
      var reply := Complaint(text);
      assert EntryOk(cfg, c, Entry([], Immediate(reply)));
      assert st'.conns[c] == WithSlot(st.conns[c], Answered(reply)).(closing := true);
      SubmitNowStep(cfg, st, st', c, [], reply);
    case Deliver(s) =>
      DeliverKeeps(cfg, st, s);
    case Flush(c) =>
      FlushKeeps(st.net, c, st.conns[c]);
    case Hangup(c) =>
      ClosingKeeps(st.net, c, st.conns[c], true);
    case Close(c) =>
    case Tick(s, keys) =>
  }

  lemma AcceptKeeps<V>(cfg: Config<V>, st: Sys<V>, s: nat)
    requires TableOk(cfg) && SysOk(cfg, st) && Shaped(cfg, st) && s < |st.nextCid|
    ensures SysOk(cfg, Next(cfg, st, Accept(s)))
  {
    var c := ConnId(s, st.nextCid[s]);
    var st' := Next(cfg, st, Accept(s));
    hide NetOk, Total, EntryOk;
    assert c !in st.net.log;
    BaseIs(NewConn, 0);
    assert ConnOk(st.net, c, NewConn);
    hide ConnOk;
    assert forall k :: Known(cfg, st, k) ==> Known(cfg, st', k);
  }

  /** The state after a list of steps, if each could be taken. */
  ghost function After<V>(cfg: Config<V>, steps: seq<Step>): Option<Sys<V>>
    requires TableOk(cfg)
  {
    if steps == [] then Some(Start(cfg))
    else
      var last := |steps| - 1;
      match After(cfg, steps[..last])
      case None => None
      case Some(st) =>
        if Shaped(cfg, st) && Enabled(cfg, st, steps[last]) then Some(Next(cfg, st, steps[last])) else None
  }

  lemma {:induction false} RunsOk<V>(cfg: Config<V>, steps: seq<Step>)
    requires TableOk(cfg) && After(cfg, steps).Some?
    ensures SysOk(cfg, After(cfg, steps).value) && Shaped(cfg, After(cfg, steps).value)
  {
    hide SysOk, Shaped, Next, Start, Enabled, TableOk;
    if steps == [] {
      StartOk(cfg);
    } else {
      var last := |steps| - 1;
      RunsOk(cfg, steps[..last]);
      NextKeeps(cfg, After(cfg, steps[..last]).value, steps[last]);
    }
    OkMeansShaped(cfg, After(cfg, steps).value);
  }

  /** No run gets stuck: an enabled step can be taken, so `Shaped` never rules one out. */
  lemma NeverStuck<V>(cfg: Config<V>, steps: seq<Step>, step: Step)
    requires TableOk(cfg) && After(cfg, steps).Some? && Enabled(cfg, After(cfg, steps).value, step)
    ensures Shaped(cfg, After(cfg, steps).value)
    ensures After(cfg, steps + [step]) == Some(Next(cfg, After(cfg, steps).value, step))
  {
    RunsOk(cfg, steps);
    hide SysOk, Shaped, Next, Enabled, TableOk;
    assert (steps + [step])[..|steps|] == steps;
  }

  /** On every run, the slots of a connection are one interval ending at the next number, and the bytes
      sent are exactly the answers of its first commands, in submission order. */
  lemma RepliesInOrder<V>(cfg: Config<V>, steps: seq<Step>, c: ConnId)
    requires TableOk(cfg) && After(cfg, steps).Some? && c in After(cfg, steps).value.conns
    ensures var st := After(cfg, steps).value;
      var conn := st.conns[c];
      && Interval(conn) && conn.nextSeq == |Log(st.net.log, c)|
      && (forall q :: 0 <= q < Base(conn) ==> AllDone(st.net, c, q))
      && conn.out == Answers(st.net, c, Base(conn))
  {
    RunsOk(cfg, steps);
  }

  /** On every run, a slot's counter is the number of messages in flight for it, and the slot is ready exactly at
      zero. */
  lemma CountersExact<V>(cfg: Config<V>, steps: seq<Step>, c: ConnId, q: nat)
    requires TableOk(cfg) && After(cfg, steps).Some? && c in After(cfg, steps).value.conns
    requires q in After(cfg, steps).value.conns[c].pipeline
    ensures var st := After(cfg, steps).value;
      var slot := st.conns[c].pipeline[q];
      && slot.remaining == Total(OfSlot(c, q), st.net.mail)
      && slot.ready == (slot.remaining == 0)
      && q < |Log(st.net.log, c)| && (slot.ready ==> slot.bytes == Answer(st.net, c, q))
  {
    RunsOk(cfg, steps);
    var st := After(cfg, steps).value;
    assert SlotOk(st.net, c, q, st.conns[c].pipeline[q]);
    if st.conns[c].pipeline[q].ready {
      ReadyIsAnswer(st.net, c, q, st.conns[c].pipeline[q]);
    }
  }
}

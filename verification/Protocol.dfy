/** Shards, mailboxes and connections as one transition system. */
module Protocols {
  import opened Resp
  import opened Pipelines
  import opened Routing

  datatype ConnId = ConnId(shard: nat, cid: nat)

  /** Part `index` of the `turn`th command of a connection. */
  datatype FragId = FragId(conn: ConnId, turn: nat, index: nat)

  /** A closure in a mailbox: one posted to the owner of a key, or one posted back to the connection's shard. */
  datatype Msg =
    | Request(frag: FragId, args: Argv, isInt: bool)
    | Completion(cid: nat, turn: nat, index: nat, reply: string, isInt: bool, value: int)

  /** What a dispatched command became. */
  datatype Plan = Immediate(reply: string) | Parts(kind: Kind, parts: seq<Part>)

  datatype Entry = Entry(argv: Argv, plan: Plan)

  /** The mailboxes, with the history needed to say what they hold: every command dispatched, every
      reply produced by a request, and the fragments that got back to their shard. */
  datatype Net = Net(mail: seq<seq<Msg>>, log: map<ConnId, seq<Entry>>, done: map<FragId, string>, arrived: set<FragId>)

  /** One execution of a command on a shard, straight from the connection or from the mailbox. */
  datatype Event = Ran(frag: FragId, queued: bool, args: Argv, reply: string)

  datatype Sys<V> = Sys(
    db: seq<map<string, V>>,
    net: Net,
    conns: map<ConnId, Conn>,
    nextCid: seq<nat>,
    trace: seq<seq<Event>>)

  // ---------------------------------------------------------------------------
  // Steps
  // ---------------------------------------------------------------------------

  datatype Step =
    | Accept(s: nat)
    | Submit(c: ConnId, argv: Argv)
    | BadInput(c: ConnId, text: string)
    | Deliver(s: nat)
    | Flush(c: ConnId)
    | Hangup(c: ConnId)
    | Close(c: ConnId)
    | Tick(s: nat, keys: set<string>)

  function Log(log: map<ConnId, seq<Entry>>, c: ConnId): seq<Entry> {
    if c in log then log[c] else []
  }

  function WithEntry(net: Net, c: ConnId, entry: Entry): Net {
    net.(log := net.log[c := Log(net.log, c) + [entry]])
  }

  /** The mailboxes after posting the first `k` parts of a command, in order. */
  function PostUpTo(mail: seq<seq<Msg>>, c: ConnId, turn: nat, parts: seq<Part>, k: nat): (r: seq<seq<Msg>>)
    requires k <= |parts| && forall i :: 0 <= i < |parts| ==> parts[i].target < |mail|
    ensures |r| == |mail|
  {
    if k == 0 then mail
    else
      var m := PostUpTo(mail, c, turn, parts, k - 1);
      var p := parts[k - 1];
      m[p.target := m[p.target] + [Request(FragId(c, turn, k - 1), p.args, p.isInt)]]
  }

  function NetSubmit(net: Net, c: ConnId, argv: Argv, kind: Kind, parts: seq<Part>): Net
    requires forall i :: 0 <= i < |parts| ==> parts[i].target < |net.mail|
  {
    WithEntry(net, c, Entry(argv, Parts(kind, parts))).(
      mail := PostUpTo(net.mail, c, |Log(net.log, c)|, parts, |parts|))
  }

  /** Taking the head of a mailbox. */
  function Popped(mail: seq<seq<Msg>>, s: nat): seq<seq<Msg>>
    requires s < |mail| && mail[s] != []
  {
    mail[s := mail[s][1..]]
  }

  function Value(isInt: bool, reply: string): int {
    if isInt then IntOfReply(reply) else 0
  }

  function Answering(m: Msg, reply: string): Msg
    requires m.Request?
  {
    Completion(m.frag.conn.cid, m.frag.turn, m.frag.index, reply, m.isInt, Value(m.isInt, reply))
  }

  /** A request was run with this reply: the completion is posted to the connection's shard. */
  function NetRun(net: Net, s: nat, reply: string): Net
    requires s < |net.mail| && net.mail[s] != [] && net.mail[s][0].Request?
    requires net.mail[s][0].frag.conn.shard < |net.mail|
  {
    var m := net.mail[s][0];
    var o := m.frag.conn.shard;
    var rest := Popped(net.mail, s);
    net.(mail := rest[o := rest[o] + [Answering(m, reply)]], done := net.done[m.frag := reply])
  }

  /** The fragment a message of shard `s` speaks about. */
  function FragAt(s: nat, m: Msg): FragId {
    if m.Request? then m.frag else FragId(ConnId(s, m.cid), m.turn, m.index)
  }

  function NetArrive(net: Net, s: nat): Net
    requires s < |net.mail| && net.mail[s] != []
  {
    net.(mail := Popped(net.mail, s), arrived := net.arrived + {FragAt(s, net.mail[s][0])})
  }

  /** Whether a slot has room for the fragment; that it always has is part of what is proved. */
  predicate Fits(conn: Conn, turn: nat, index: nat) {
    turn in conn.pipeline ==> index < |conn.pipeline[turn].frags|
  }

  ghost predicate Enabled<V>(cfg: Config<V>, st: Sys<V>, step: Step) {
    match step
    case Accept(s) => s < |st.nextCid|
    case Submit(c, argv) => c in st.conns && !st.conns[c].closing && argv != [] && !RouteOf(cfg, c.shard, argv).Overrun?
    case BadInput(c, _) => c in st.conns && !st.conns[c].closing
    case Deliver(s) => s < |st.net.mail| && st.net.mail[s] != []
    case Flush(c) => c in st.conns
    case Hangup(c) => c in st.conns
    case Close(c) => c in st.conns
    case Tick(s, _) => s < |st.db|
  }

  ghost predicate Shaped<V>(cfg: Config<V>, st: Sys<V>) {
    && |st.db| == |st.net.mail| == |st.nextCid| == |st.trace| == cfg.shards
    && (forall c :: c in st.conns ==> c.shard < cfg.shards)
    && (forall s, i :: 0 <= s < cfg.shards && 0 <= i < |st.net.mail[s]| ==>
          var m := st.net.mail[s][i];
          if m.Request? then m.args != [] && m.frag.conn.shard < cfg.shards
          else ConnId(s, m.cid) in st.conns ==> Fits(st.conns[ConnId(s, m.cid)], m.turn, m.index))
  }

  /** A command that never leaves the shard. */
  ghost function SubmitNow<V>(st: Sys<V>, c: ConnId, argv: Argv, reply: string): Sys<V>
    requires c in st.conns
  {
    st.(net := WithEntry(st.net, c, Entry(argv, Immediate(reply))),
        conns := st.conns[c := WithSlot(st.conns[c], Answered(reply))])
  }

  ghost function Submitted<V>(cfg: Config<V>, st: Sys<V>, c: ConnId, argv: Argv): Sys<V>
    requires TableOk(cfg) && Shaped(cfg, st) && c in st.conns && argv != [] && !RouteOf(cfg, c.shard, argv).Overrun?
  {
    RoutesHome(cfg, c.shard, argv);
    match RouteOf(cfg, c.shard, argv)
    case Fail(reply) => SubmitNow(st, c, argv, reply)
    case Inline =>
      var (db, reply) := Execute(cfg, st.db[c.shard], argv);
      var event := Ran(FragId(c, |Log(st.net.log, c)|, 0), false, argv, reply);
      SubmitNow(st, c, argv, reply).(
        db := st.db[c.shard := db],
        trace := st.trace[c.shard := st.trace[c.shard] + [event]])
    case Remote(kind, parts) =>
      st.(net := NetSubmit(st.net, c, argv, kind, parts),
          conns := st.conns[c := WithSlot(st.conns[c], Awaiting(kind, |parts|))])
  }

  ghost function Delivered<V>(cfg: Config<V>, st: Sys<V>, s: nat): Sys<V>
    requires Shaped(cfg, st) && s < |st.net.mail| && st.net.mail[s] != []
  {
    var m := st.net.mail[s][0];
    if m.Request? then
      var (db, reply) := Execute(cfg, st.db[s], m.args);
      st.(db := st.db[s := db],
          net := NetRun(st.net, s, reply),
          trace := st.trace[s := st.trace[s] + [Ran(m.frag, true, m.args, reply)]])
    else
      var c := ConnId(s, m.cid);
      st.(net := NetArrive(st.net, s),
          conns := if c in st.conns
                   then st.conns[c := Completed(st.conns[c], m.turn, m.index, m.reply, m.isInt, m.value)]
                   else st.conns)
  }

  /** The reply to malformed input. */
  function Complaint(text: string): string {
    ErrorReply("ERR Protocol error: " + text)
  }

  ghost function Next<V>(cfg: Config<V>, st: Sys<V>, step: Step): Sys<V>
    requires TableOk(cfg) && Shaped(cfg, st) && Enabled(cfg, st, step)
  {
    match step
    case Accept(s) =>
      st.(conns := st.conns[ConnId(s, st.nextCid[s]) := NewConn], nextCid := st.nextCid[s := st.nextCid[s] + 1])
    case Submit(c, argv) => Submitted(cfg, st, c, argv)
    case BadInput(c, text) =>
      var st' := SubmitNow(st, c, [], Complaint(text));
      st'.(conns := st'.conns[c := st'.conns[c].(closing := true)])
    case Deliver(s) => Delivered(cfg, st, s)
    case Flush(c) => st.(conns := st.conns[c := Flushed(st.conns[c])])
    case Hangup(c) => st.(conns := st.conns[c := st.conns[c].(closing := true)])
    case Close(c) => st.(conns := map k | k in st.conns && k != c :: st.conns[k])
    case Tick(s, keys) => st.(db := st.db[s := st.db[s] - keys])
  }

  ghost function Start<V>(cfg: Config<V>): Sys<V> {
    var n := cfg.shards;
    Sys(seq(n, i => map[]), Net(seq(n, i => []), map[], map[], {}), map[], seq(n, i => 1), seq(n, i => []))
  }

  // ---------------------------------------------------------------------------
  // Counting messages
  // ---------------------------------------------------------------------------

  /** A class of messages: the request for a fragment, its completion, or anything for one slot. */
  datatype Sel = ReqOf(x: FragId) | ComOf(x: FragId) | OfSlot(c: ConnId, turn: nat)

  predicate Hit(sel: Sel, s: nat, m: Msg) {
    match sel
    case ReqOf(x) => m.Request? && m.frag == x
    case ComOf(x) => m.Completion? && FragAt(s, m) == x
    case OfSlot(c, turn) => FragAt(s, m).conn == c && FragAt(s, m).turn == turn
  }

  function One(b: bool): nat {
    if b then 1 else 0
  }

  function Count(sel: Sel, s: nat, queue: seq<Msg>): nat {
    if queue == [] then 0 else One(Hit(sel, s, queue[0])) + Count(sel, s, queue[1..])
  }

  /** How many messages in shards below `n` are in the class. */
  function TotalTo(sel: Sel, mail: seq<seq<Msg>>, n: nat): nat
    requires n <= |mail|
  {
    if n == 0 then 0 else TotalTo(sel, mail, n - 1) + Count(sel, n - 1, mail[n - 1])
  }

  function Total(sel: Sel, mail: seq<seq<Msg>>): nat {
    TotalTo(sel, mail, |mail|)
  }

  lemma {:induction false} CountAppend(sel: Sel, s: nat, queue: seq<Msg>, m: Msg)
    ensures Count(sel, s, queue + [m]) == Count(sel, s, queue) + One(Hit(sel, s, m))
  {
    if queue == [] {
      assert (queue + [m])[1..] == [];
    } else {
      CountAppend(sel, s, queue[1..], m);
      assert (queue + [m])[1..] == queue[1..] + [m];
    }
  }

  lemma {:induction false} TotalUpdate(sel: Sel, mail: seq<seq<Msg>>, s: nat, queue: seq<Msg>, n: nat)
    requires s < |mail| && n <= |mail|
    ensures TotalTo(sel, mail[s := queue], n) ==
      TotalTo(sel, mail, n) + if s < n then Count(sel, s, queue) - Count(sel, s, mail[s]) else 0
  {
    if n > 0 {
      TotalUpdate(sel, mail, s, queue, n - 1);
    }
  }

  lemma TotalPosted(sel: Sel, mail: seq<seq<Msg>>, s: nat, m: Msg)
    requires s < |mail|
    ensures Total(sel, mail[s := mail[s] + [m]]) == Total(sel, mail) + One(Hit(sel, s, m))
  {
    CountAppend(sel, s, mail[s], m);
    TotalUpdate(sel, mail, s, mail[s] + [m], |mail|);
  }

  lemma TotalPopped(sel: Sel, mail: seq<seq<Msg>>, s: nat)
    requires s < |mail| && mail[s] != []
    ensures Total(sel, Popped(mail, s)) == Total(sel, mail) - One(Hit(sel, s, mail[s][0]))
  {
    TotalUpdate(sel, mail, s, mail[s][1..], |mail|);
  }

  /** What posting the first `k` parts of a command adds to a class. */
  function Gain(sel: Sel, c: ConnId, turn: nat, k: nat): nat {
    match sel
    case ReqOf(x) => One(x.conn == c && x.turn == turn && x.index < k)
    case ComOf(_) => 0
    case OfSlot(c', turn') => if c' == c && turn' == turn then k else 0
  }

  lemma {:induction false} TotalPostUpTo(sel: Sel, mail: seq<seq<Msg>>, c: ConnId, turn: nat, parts: seq<Part>, k: nat)
    requires k <= |parts| && forall i :: 0 <= i < |parts| ==> parts[i].target < |mail|
    ensures Total(sel, PostUpTo(mail, c, turn, parts, k)) == Total(sel, mail) + Gain(sel, c, turn, k)
  {
    if k > 0 {
      TotalPostUpTo(sel, mail, c, turn, parts, k - 1);
      var p := parts[k - 1];
      TotalPosted(sel, PostUpTo(mail, c, turn, parts, k - 1), p.target,
        Request(FragId(c, turn, k - 1), p.args, p.isInt));
    }
  }

  /** A message that is there is counted. */
  lemma {:induction false} CountSees(sel: Sel, s: nat, queue: seq<Msg>, i: nat)
    requires i < |queue| && Hit(sel, s, queue[i])
    ensures Count(sel, s, queue) > 0
  {
    if i > 0 {
      CountSees(sel, s, queue[1..], i - 1);
    }
  }

  lemma {:induction false} TotalSees(sel: Sel, mail: seq<seq<Msg>>, s: nat, i: nat, n: nat)
    requires s < n <= |mail| && i < |mail[s]| && Hit(sel, s, mail[s][i])
    ensures TotalTo(sel, mail, n) > 0
  {
    if s == n - 1 {
      CountSees(sel, s, mail[s], i);
    } else {
      TotalSees(sel, mail, s, i, n - 1);
    }
  }

  /** Whatever is counted in one class is counted in any class that includes it. */
  lemma {:induction false} CountWithin(a: Sel, b: Sel, s: nat, queue: seq<Msg>)
    requires forall m :: Hit(a, s, m) ==> Hit(b, s, m)
    ensures Count(a, s, queue) <= Count(b, s, queue)
  {
    if queue != [] {
      CountWithin(a, b, s, queue[1..]);
    }
  }

  lemma {:induction false} TotalWithin(x: FragId, mail: seq<seq<Msg>>, n: nat)
    requires n <= |mail|
    ensures TotalTo(ReqOf(x), mail, n) <= TotalTo(OfSlot(x.conn, x.turn), mail, n)
    ensures TotalTo(ComOf(x), mail, n) <= TotalTo(OfSlot(x.conn, x.turn), mail, n)
  {
    if n > 0 {
      TotalWithin(x, mail, n - 1);
      CountWithin(ReqOf(x), OfSlot(x.conn, x.turn), n - 1, mail[n - 1]);
      CountWithin(ComOf(x), OfSlot(x.conn, x.turn), n - 1, mail[n - 1]);
    }
  }

  lemma {:induction false} TotalEmpty(sel: Sel, mail: seq<seq<Msg>>, n: nat)
    requires n <= |mail| && forall s :: 0 <= s < n ==> mail[s] == []
    ensures TotalTo(sel, mail, n) == 0
  {
    if n > 0 {
      TotalEmpty(sel, mail, n - 1);
    }
  }

  // ---------------------------------------------------------------------------
  // What the mailboxes hold
  // ---------------------------------------------------------------------------

  /** The fragment belongs to a dispatched command. */
  predicate Valid(log: map<ConnId, seq<Entry>>, x: FragId) {
    && x.turn < |Log(log, x.conn)|
    && Log(log, x.conn)[x.turn].plan.Parts?
    && x.index < |Log(log, x.conn)[x.turn].plan.parts|
  }

  function PartOf(log: map<ConnId, seq<Entry>>, x: FragId): Part
    requires Valid(log, x)
  {
    Log(log, x.conn)[x.turn].plan.parts[x.index]
  }

  /** What a message says is what its fragment calls for. */
  predicate MsgOk(net: Net, s: nat, m: Msg) {
    var x := FragAt(s, m);
    && Valid(net.log, x)
    && x.conn.shard < |net.mail|
    && m.isInt == PartOf(net.log, x).isInt
    && if m.Request? then m.args == PartOf(net.log, x).args && m.args != [] && s == PartOf(net.log, x).target
       else x in net.done && m.reply == net.done[x] && m.value == Value(m.isInt, m.reply)
  }

  ghost predicate MsgsOk(net: Net) {
    forall s, i :: 0 <= s < |net.mail| && 0 <= i < |net.mail[s]| ==> MsgOk(net, s, net.mail[s][i])
  }

  /** Every fragment is, exactly once, asked for, answered, or back at its shard. */
  ghost predicate OnceEach(net: Net) {
    && (forall x :: Total(ReqOf(x), net.mail) == One(Valid(net.log, x) && x !in net.done))
    && (forall x :: Total(ComOf(x), net.mail) == One(x in net.done && x !in net.arrived))
    && (forall x :: x in net.done ==> Valid(net.log, x))
    && (forall x :: x in net.arrived ==> x in net.done)
  }

  ghost predicate NetOk(net: Net) {
    MsgsOk(net) && OnceEach(net)
  }

  /** What a step of the network means for one connection: its messages, replies and history. */
  ghost predicate SameFor(net: Net, net': Net, c: ConnId) {
    && Log(net'.log, c) == Log(net.log, c)
    && (forall q :: Total(OfSlot(c, q), net'.mail) == Total(OfSlot(c, q), net.mail))
    && (forall x: FragId :: x.conn == c ==> (x in net'.arrived <==> x in net.arrived))
    && (forall x :: x in net.done ==> x in net'.done && net'.done[x] == net.done[x])
  }

  lemma ValidGrows(net: Net, c: ConnId, entry: Entry, x: FragId)
    ensures var log' := WithEntry(net, c, entry).log;
      && (Valid(net.log, x) ==> Valid(log', x) && PartOf(log', x) == PartOf(net.log, x))
      && (x.conn != c || x.turn != |Log(net.log, c)| ==> Valid(log', x) == Valid(net.log, x))
  {
  }

  lemma WithEntryImmediate(net: Net, c: ConnId, entry: Entry)
    requires NetOk(net) && entry.plan.Immediate?
    ensures NetOk(WithEntry(net, c, entry))
    ensures forall c' :: c' != c ==> SameFor(net, WithEntry(net, c, entry), c')
  {
    var net' := WithEntry(net, c, entry);
    forall x
      ensures Valid(net'.log, x) == Valid(net.log, x)
      ensures Valid(net.log, x) ==> PartOf(net'.log, x) == PartOf(net.log, x)
    {
      ValidGrows(net, c, entry, x);
    }
    forall s, i | 0 <= s < |net'.mail| && 0 <= i < |net'.mail[s]|
      ensures MsgOk(net', s, net'.mail[s][i])
    {
      assert MsgOk(net, s, net.mail[s][i]);
    }
  }

  /** Nothing is in flight for a command that has not been dispatched. */
  lemma NothingAhead(net: Net, c: ConnId, turn: nat)
    requires NetOk(net) && turn >= |Log(net.log, c)|
    ensures Total(OfSlot(c, turn), net.mail) == 0
  {
    NoneHit(OfSlot(c, turn), net, |net.mail|);
  }

  lemma {:induction false} NoneHit(sel: Sel, net: Net, n: nat)
    requires n <= |net.mail| && MsgsOk(net) && sel.OfSlot? && sel.turn >= |Log(net.log, sel.c)|
    ensures TotalTo(sel, net.mail, n) == 0
  {
    if n > 0 {
      NoneHit(sel, net, n - 1);
      var s := n - 1;
      var queue := net.mail[s];
      forall i | 0 <= i < |queue|
        ensures !Hit(sel, s, queue[i])
      {
        assert MsgOk(net, s, net.mail[s][i]);
      }
      CountNone(sel, s, queue);
    }
  }

  lemma {:induction false} CountNone(sel: Sel, s: nat, queue: seq<Msg>)
    requires forall i :: 0 <= i < |queue| ==> !Hit(sel, s, queue[i])
    ensures Count(sel, s, queue) == 0
  {
    if queue != [] {
      CountNone(sel, s, queue[1..]);
    }
  }

  lemma {:induction false} PostUpToMsgs(net: Net, net': Net, c: ConnId, turn: nat, parts: seq<Part>, k: nat)
    requires k <= |parts| && forall i :: 0 <= i < |parts| ==> parts[i].target < |net.mail|
    requires forall i :: 0 <= i < |parts| ==> parts[i].args != []
    requires MsgsOk(net) && turn == |Log(net.log, c)| && c.shard < |net.mail|
    requires exists argv, kind :: net'.log == WithEntry(net, c, Entry(argv, Parts(kind, parts))).log
    requires net'.mail == PostUpTo(net.mail, c, turn, parts, k) && net'.done == net.done
    ensures MsgsOk(net')
    decreases k
  {
    var argv, kind :| net'.log == WithEntry(net, c, Entry(argv, Parts(kind, parts))).log;
    var entry := Entry(argv, Parts(kind, parts));
    if k == 0 {
      forall s, i | 0 <= s < |net'.mail| && 0 <= i < |net'.mail[s]|
        ensures MsgOk(net', s, net'.mail[s][i])
      {
        assert MsgOk(net, s, net.mail[s][i]);
        ValidGrows(net, c, entry, FragAt(s, net.mail[s][i]));
      }
    } else {
      var before := net'.(mail := PostUpTo(net.mail, c, turn, parts, k - 1));
      PostUpToMsgs(net, before, c, turn, parts, k - 1);
      forall s, i | 0 <= s < |net'.mail| && 0 <= i < |net'.mail[s]|
        ensures MsgOk(net', s, net'.mail[s][i])
      {
        assert i < |before.mail[s]| ==> MsgOk(before, s, before.mail[s][i]);
      }
    }
  }

  lemma SubmitKeeps(net: Net, c: ConnId, argv: Argv, kind: Kind, parts: seq<Part>)
    requires NetOk(net) && c.shard < |net.mail|
    requires forall i :: 0 <= i < |parts| ==> parts[i].target < |net.mail| && parts[i].args != []
    ensures var net' := NetSubmit(net, c, argv, kind, parts);
      && NetOk(net')
      && (forall q :: Total(OfSlot(c, q), net'.mail)
            == Total(OfSlot(c, q), net.mail) + if q == |Log(net.log, c)| then |parts| else 0)
      && forall c' :: c' != c ==> SameFor(net, net', c')
  {
    var turn := |Log(net.log, c)|;
    var entry := Entry(argv, Parts(kind, parts));
    var net' := NetSubmit(net, c, argv, kind, parts);
    forall sel
      ensures Total(sel, net'.mail) == Total(sel, net.mail) + Gain(sel, c, turn, |parts|)
    {
      TotalPostUpTo(sel, net.mail, c, turn, parts, |parts|);
    }
    assert net'.log == WithEntry(net, c, entry).log;
    PostUpToMsgs(net, net', c, turn, parts, |parts|);
    assert net'.done == net.done && net'.arrived == net.arrived;
    hide Total, PostUpTo, MsgsOk, NetSubmit;
    SubmitOnce(net, net', c, entry);
  }

  lemma SubmitOnce(net: Net, net': Net, c: ConnId, entry: Entry)
    requires OnceEach(net) && entry.plan.Parts?
    requires net'.log == WithEntry(net, c, entry).log && net'.done == net.done && net'.arrived == net.arrived
    requires forall sel ::
      Total(sel, net'.mail) == Total(sel, net.mail) + Gain(sel, c, |Log(net.log, c)|, |entry.plan.parts|)
    ensures OnceEach(net')
  {
    hide Total;
    forall x
      ensures Total(ReqOf(x), net'.mail) == One(Valid(net'.log, x) && x !in net'.done)
      ensures Total(ComOf(x), net'.mail) == One(x in net'.done && x !in net'.arrived)
      ensures x in net'.done ==> Valid(net'.log, x)
    {
      ValidGrows(net, c, entry, x);
      assert x in net.done ==> Valid(net.log, x);
    }
  }

  /** A request is run: for every connection nothing changes but the place of one message. */
  lemma RunKeeps(net: Net, s: nat, reply: string)
    requires NetOk(net) && s < |net.mail| && net.mail[s] != [] && net.mail[s][0].Request?
    ensures net.mail[s][0].frag.conn.shard < |net.mail|
    ensures NetOk(NetRun(net, s, reply))
    ensures forall c :: SameFor(net, NetRun(net, s, reply), c)
  {
    var m := net.mail[s][0];
    assert MsgOk(net, s, m);
    var x0, o := m.frag, m.frag.conn.shard;
    var net', m' := NetRun(net, s, reply), Answering(m, reply);
    hide MsgOk;
    RunTotals(net, s, reply);
    hide SameFor;
    assert Total(ReqOf(x0), net.mail) > 0 by {
      TotalSees(ReqOf(x0), net.mail, s, 0, |net.mail|);
    }
    RunSameFor(net, s, reply);
    RunMsgs(net, s, reply);
    hide Total, NetRun, MsgsOk;
    assert x0 !in net.done && FragAt(o, m') == x0;
    assert OnceEach(net');
  }

  /** A request is counted out and its completion counted in. */
  lemma RunTotals(net: Net, s: nat, reply: string)
    requires s < |net.mail| && net.mail[s] != [] && net.mail[s][0].Request?
    requires net.mail[s][0].frag.conn.shard < |net.mail|
    ensures var m := net.mail[s][0];
      forall sel :: Total(sel, NetRun(net, s, reply).mail)
        == Total(sel, net.mail) - One(Hit(sel, s, m)) + One(Hit(sel, m.frag.conn.shard, Answering(m, reply)))
  {
    var m := net.mail[s][0];
    hide Total, Hit, Answering;
    forall sel
      ensures Total(sel, NetRun(net, s, reply).mail)
        == Total(sel, net.mail) - One(Hit(sel, s, m)) + One(Hit(sel, m.frag.conn.shard, Answering(m, reply)))
    {
      TotalPopped(sel, net.mail, s);
      TotalPosted(sel, Popped(net.mail, s), m.frag.conn.shard, Answering(m, reply));
    }
  }

  lemma RunSameFor(net: Net, s: nat, reply: string)
    requires s < |net.mail| && net.mail[s] != [] && net.mail[s][0].Request?
    requires net.mail[s][0].frag.conn.shard < |net.mail| && net.mail[s][0].frag !in net.done
    ensures forall c :: SameFor(net, NetRun(net, s, reply), c)
  {
    hide Total;
    RunTotals(net, s, reply);
  }

  lemma RunMsgs(net: Net, s: nat, reply: string)
    requires MsgsOk(net) && s < |net.mail| && net.mail[s] != [] && net.mail[s][0].Request?
    requires net.mail[s][0].frag.conn.shard < |net.mail| && net.mail[s][0].frag !in net.done
    ensures MsgsOk(NetRun(net, s, reply))
  {
    var m := net.mail[s][0];
    assert MsgOk(net, s, m);
    var rest, net' := Popped(net.mail, s), NetRun(net, s, reply);
    forall t, i | 0 <= t < |net'.mail| && 0 <= i < |net'.mail[t]|
      ensures MsgOk(net', t, net'.mail[t][i])
    {
      assert i < |rest[t]| ==> rest[t][i] == net.mail[t][if t == s then i + 1 else i];
      assert i < |rest[t]| ==> MsgOk(net, t, rest[t][i]);
    }
  }

  /** A completion is taken in: only its own fragment's slot loses a message. */
  lemma ArriveKeeps(net: Net, s: nat)
    requires NetOk(net) && s < |net.mail| && net.mail[s] != [] && net.mail[s][0].Completion?
    ensures var x, net' := FragAt(s, net.mail[s][0]), NetArrive(net, s);
      && NetOk(net')
      && x in net.done && x !in net.arrived
      && (forall q :: Total(OfSlot(x.conn, q), net'.mail) == Total(OfSlot(x.conn, q), net.mail) - One(q == x.turn))
      && forall c :: c != x.conn ==> SameFor(net, net', c)
  {
    var m := net.mail[s][0];
    var x, net' := FragAt(s, m), NetArrive(net, s);
    assert MsgOk(net, s, m);
    forall sel
      ensures Total(sel, net'.mail) == Total(sel, net.mail) - One(Hit(sel, s, m))
    {
      TotalPopped(sel, net.mail, s);
    }
    assert Total(ComOf(x), net.mail) > 0 by {
      TotalSees(ComOf(x), net.mail, s, 0, |net.mail|);
    }
    forall t, i | 0 <= t < |net'.mail| && 0 <= i < |net'.mail[t]|
      ensures MsgOk(net', t, net'.mail[t][i])
    {
      assert net'.mail[t][i] == net.mail[t][if t == s then i + 1 else i];
      assert MsgOk(net, t, net'.mail[t][i]);
    }
    hide Total;
    assert OnceEach(net');
  }
}

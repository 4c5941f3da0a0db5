/** The order in which shards run the commands of a connection, and where keys live. */
module ShardOrder {
  import opened Options
  import opened Resp
  import opened Pipelines
  import opened Routing
  import opened Protocols
  import opened ReplyOrder

  /** Submission order: by command, then by part. */
  predicate Before(x: FragId, y: FragId) {
    x.turn < y.turn || (x.turn == y.turn && x.index < y.index)
  }

  function QueuedOf(events: seq<Event>): seq<FragId> {
    if events == [] then []
    else
      var last := |events| - 1;
      QueuedOf(events[..last]) + if events[last].queued then [events[last].frag] else []
  }

  function RequestsOf(queue: seq<Msg>): seq<FragId> {
    if queue == [] then [] else (if queue[0].Request? then [queue[0].frag] else []) + RequestsOf(queue[1..])
  }

  /** Everything ever posted to a shard as a request: what it has run, then what waits. */
  function Flow(events: seq<Event>, queue: seq<Msg>): seq<FragId> {
    QueuedOf(events) + RequestsOf(queue)
  }

  ghost predicate Ascending(flow: seq<FragId>) {
    forall i, j :: 0 <= i < j < |flow| && flow[i].conn == flow[j].conn ==> Before(flow[i], flow[j])
  }

  ghost predicate Logged(log: map<ConnId, seq<Entry>>, flow: seq<FragId>) {
    forall i :: 0 <= i < |flow| ==> flow[i].turn < |Log(log, flow[i].conn)|
  }

  /** A command run straight from its connection comes after all that the shard ran for the connection before. */
  ghost predicate InlineLater(events: seq<Event>) {
    forall i, j :: 0 <= i < j < |events| && events[i].frag.conn == events[j].frag.conn && !events[j].queued ==>
      events[i].frag.turn < events[j].frag.turn
  }

  /** An execution is one the log calls for, with the reply that is on record. */
  ghost predicate RanOk<V>(cfg: Config<V>, net: Net, s: nat, e: Event) {
    && e.args != [] && e.frag.turn < |Log(net.log, e.frag.conn)|
    && AtHome(cfg, s, e.args)
    && if e.queued then
         && Valid(net.log, e.frag) && s == PartOf(net.log, e.frag).target
         && e.args == PartOf(net.log, e.frag).args
         && e.frag in net.done && e.reply == net.done[e.frag]
       else
         && s == e.frag.conn.shard && RouteOf(cfg, s, e.args).Inline?
         && Log(net.log, e.frag.conn)[e.frag.turn] == Entry(e.args, Immediate(e.reply))
  }

  ghost predicate OrderOk<V>(cfg: Config<V>, st: Sys<V>) {
    && |st.trace| == |st.net.mail| == cfg.shards
    && (forall s :: 0 <= s < cfg.shards ==> Ascending(Flow(st.trace[s], st.net.mail[s])))
    && (forall s :: 0 <= s < cfg.shards ==> Logged(st.net.log, Flow(st.trace[s], st.net.mail[s])))
    && (forall s :: 0 <= s < cfg.shards ==> InlineLater(st.trace[s]))
    && (forall s, i :: 0 <= s < cfg.shards && 0 <= i < |st.trace[s]| ==> RanOk(cfg, st.net, s, st.trace[s][i]))
  }

  /** A handler creates no key but those the command names. */
  ghost predicate HandlersLocal<V(!new)>(cfg: Config<V>) {
    forall db, argv: Argv, key :: argv != [] && key in cfg.handler(db, argv).0 ==>
      key in db || key in Touched(cfg, argv)
  }

  ghost predicate KeysHome<V>(cfg: Config<V>, st: Sys<V>) {
    forall s, key :: 0 <= s < |st.db| && key in st.db[s] ==> Owner(cfg, key) == s
  }

  // ---------------------------------------------------------------------------
  // Sequences
  // ---------------------------------------------------------------------------

  lemma QueuedAppend(events: seq<Event>, e: Event)
    ensures QueuedOf(events + [e]) == QueuedOf(events) + if e.queued then [e.frag] else []
  {
    assert (events + [e])[..|events|] == events;
  }

  lemma {:induction false} RequestsAppend(queue: seq<Msg>, m: Msg)
    ensures RequestsOf(queue + [m]) == RequestsOf(queue) + if m.Request? then [m.frag] else []
  {
    if queue == [] {
      assert (queue + [m])[1..] == [];
    } else {
      RequestsAppend(queue[1..], m);
      assert (queue + [m])[1..] == queue[1..] + [m];
    }
  }

  /** Each queued execution has its place in the flow, in the order of execution. */
  lemma {:induction false} QueuedPlaces(events: seq<Event>, i: nat, j: nat) returns (a: nat, b: nat)
    requires i < j < |events| && events[i].queued && events[j].queued
    ensures a < b < |QueuedOf(events)| && QueuedOf(events)[a] == events[i].frag && QueuedOf(events)[b] == events[j].frag
    decreases |events|
  {
    var last := |events| - 1;
    if j < last {
      a, b := QueuedPlaces(events[..last], i, j);
    } else {
      a := QueuedPlace(events[..last], i);
      b := |QueuedOf(events)| - 1;
    }
  }

  lemma {:induction false} QueuedPlace(events: seq<Event>, i: nat) returns (a: nat)
    requires i < |events| && events[i].queued
    ensures a < |QueuedOf(events)| && QueuedOf(events)[a] == events[i].frag
    decreases |events|
  {
    var last := |events| - 1;
    if i < last {
      a := QueuedPlace(events[..last], i);
    } else {
      a := |QueuedOf(events)| - 1;
    }
  }

  lemma AscendingAppend(flow: seq<FragId>, x: FragId)
    requires Ascending(flow) && forall i :: 0 <= i < |flow| && flow[i].conn == x.conn ==> Before(flow[i], x)
    ensures Ascending(flow + [x])
  {
  }

  // ---------------------------------------------------------------------------
  // Posting the parts of one command
  // ---------------------------------------------------------------------------

  /** A flow in order, whose last command of `c` is the first `k` parts of command `turn`. */
  ghost predicate FlowOk(flow: seq<FragId>, log: map<ConnId, seq<Entry>>, c: ConnId, turn: nat, k: nat) {
    && Ascending(flow) && Logged(log, flow)
    && forall i :: 0 <= i < |flow| && flow[i].conn == c ==>
      flow[i].turn < turn || (flow[i].turn == turn && flow[i].index < k)
  }

  lemma PostOne(flow: seq<FragId>, log: map<ConnId, seq<Entry>>, c: ConnId, turn: nat, k: nat)
    requires FlowOk(flow, log, c, turn, k) && turn < |Log(log, c)|
    ensures FlowOk(flow, log, c, turn, k + 1)
    ensures FlowOk(flow + [FragId(c, turn, k)], log, c, turn, k + 1)
  {
    AscendingAppend(flow, FragId(c, turn, k));
  }

  lemma PostNone(net: Net, log: map<ConnId, seq<Entry>>, flow: seq<FragId>, c: ConnId)
    requires |Log(net.log, c)| < |Log(log, c)| && forall d :: d != c ==> Log(log, d) == Log(net.log, d)
    requires Ascending(flow) && Logged(net.log, flow)
    ensures FlowOk(flow, log, c, |Log(net.log, c)|, 0)
  {
  }

  lemma {:induction false} PostOrder(events: seq<Event>, s: nat, net: Net, log: map<ConnId, seq<Entry>>, c: ConnId,
      parts: seq<Part>, k: nat)
    requires k <= |parts| && s < |net.mail| && forall i :: 0 <= i < |parts| ==> parts[i].target < |net.mail|
    requires |Log(net.log, c)| < |Log(log, c)| && forall d :: d != c ==> Log(log, d) == Log(net.log, d)
    requires Ascending(Flow(events, net.mail[s])) && Logged(net.log, Flow(events, net.mail[s]))
    ensures FlowOk(Flow(events, PostUpTo(net.mail, c, |Log(net.log, c)|, parts, k)[s]), log, c, |Log(net.log, c)|, k)
    decreases k
  {
    hide FlowOk, Logged, Ascending, QueuedOf, RequestsOf;
    var turn := |Log(net.log, c)|;
    if k == 0 {
      PostNone(net, log, Flow(events, net.mail[s]), c);
    } else {
      PostOrder(events, s, net, log, c, parts, k - 1);
      var before, p := PostUpTo(net.mail, c, turn, parts, k - 1), parts[k - 1];
      var flow := Flow(events, before[s]);
      PostOne(flow, log, c, turn, k - 1);
      RequestsAppend(before[s], Request(FragId(c, turn, k - 1), p.args, p.isInt));
      assert QueuedOf(events) + (RequestsOf(before[s]) + [FragId(c, turn, k - 1)]) == flow + [FragId(c, turn, k - 1)];
    }
  }

  // ---------------------------------------------------------------------------
  // Steps
  // ---------------------------------------------------------------------------

  /** Growth of the log and of the record of replies. */
  ghost predicate Grows(net: Net, net': Net) {
    && (forall c :: Log(net.log, c) <= Log(net'.log, c))
    && (forall x :: x in net.done ==> x in net'.done && net'.done[x] == net.done[x])
  }

  lemma RanFrame<V>(cfg: Config<V>, net: Net, net': Net, s: nat, e: Event)
    requires RanOk(cfg, net, s, e) && Grows(net, net')
    ensures RanOk(cfg, net', s, e)
  {
    assert Log(net.log, e.frag.conn) <= Log(net'.log, e.frag.conn);
  }

  lemma SubmittedGrows(net: Net, net': Net, flow: seq<FragId>)
    requires Logged(net.log, flow) && Grows(net, net')
    ensures Logged(net'.log, flow)
  {
    forall i | 0 <= i < |flow|
      ensures flow[i].turn < |Log(net'.log, flow[i].conn)|
    {
      assert Log(net.log, flow[i].conn) <= Log(net'.log, flow[i].conn);
    }
  }

  /** A step that keeps the flows and the executions. */
  lemma QuietKeeps<V>(cfg: Config<V>, st: Sys<V>, st': Sys<V>)
    requires OrderOk(cfg, st) && Grows(st.net, st'.net) && st'.trace == st.trace && |st'.net.mail| == |st.net.mail|
    requires forall s :: 0 <= s < cfg.shards ==> RequestsOf(st'.net.mail[s]) == RequestsOf(st.net.mail[s])
    ensures OrderOk(cfg, st')
  {
    forall s | 0 <= s < cfg.shards
      ensures Ascending(Flow(st'.trace[s], st'.net.mail[s])) && Logged(st'.net.log, Flow(st'.trace[s], st'.net.mail[s]))
    {
      assert Flow(st'.trace[s], st'.net.mail[s]) == Flow(st.trace[s], st.net.mail[s]);
      SubmittedGrows(st.net, st'.net, Flow(st.trace[s], st.net.mail[s]));
    }
    forall s, i | 0 <= s < cfg.shards && 0 <= i < |st'.trace[s]|
      ensures RanOk(cfg, st'.net, s, st'.trace[s][i])
    {
      RanFrame(cfg, st.net, st'.net, s, st.trace[s][i]);
    }
  }

  /** A step that appends one execution to the trace of shard `t`. */
  lemma EventKeeps<V>(cfg: Config<V>, st: Sys<V>, st': Sys<V>, t: nat, e: Event)
    requires OrderOk(cfg, st) && Grows(st.net, st'.net) && t < cfg.shards && |st'.net.mail| == |st.net.mail|
    requires st'.trace == st.trace[t := st.trace[t] + [e]] && RanOk(cfg, st'.net, t, e)
    requires forall s :: 0 <= s < cfg.shards ==>
      Flow(st'.trace[s], st'.net.mail[s]) == Flow(st.trace[s], st.net.mail[s])
    requires !e.queued ==> forall i :: 0 <= i < |st.trace[t]| && st.trace[t][i].frag.conn == e.frag.conn ==>
      st.trace[t][i].frag.turn < e.frag.turn
    ensures OrderOk(cfg, st')
  {
    hide Flow, RanOk;
    forall s | 0 <= s < cfg.shards
      ensures Logged(st'.net.log, Flow(st'.trace[s], st'.net.mail[s]))
    {
      SubmittedGrows(st.net, st'.net, Flow(st.trace[s], st.net.mail[s]));
    }
    forall s, i | 0 <= s < cfg.shards && 0 <= i < |st'.trace[s]|
      ensures RanOk(cfg, st'.net, s, st'.trace[s][i])
    {
      if i < |st.trace[s]| {
        RanFrame(cfg, st.net, st'.net, s, st.trace[s][i]);
      }
    }
  }

  lemma RemoteOrder<V>(cfg: Config<V>, st: Sys<V>, c: ConnId, argv: Argv)
    requires TableOk(cfg) && SysOk(cfg, st) && Shaped(cfg, st) && OrderOk(cfg, st) && c in st.conns && argv != []
    requires RouteOf(cfg, c.shard, argv).Remote?
    ensures OrderOk(cfg, Submitted(cfg, st, c, argv))
  {
    RoutesHome(cfg, c.shard, argv);
    var r := RouteOf(cfg, c.shard, argv);
    var st' := Submitted(cfg, st, c, argv);
    assert st'.net == NetSubmit(st.net, c, argv, r.kind, r.parts) && st'.trace == st.trace;
    hide RouteOf, SysOk, AtHome, TableOk, Shaped, Submitted, RanOk, Ascending, Logged, Flow;
    RemoteFlows(st.trace, st.net, c, argv, r.kind, r.parts);
    SubmitGrows(st.net, c, argv, r.kind, r.parts);
    hide Grows, NetSubmit;
    TraceKeeps(cfg, st, st'.net);
  }

  lemma SubmitGrows(net: Net, c: ConnId, argv: Argv, kind: Kind, parts: seq<Part>)
    requires forall i :: 0 <= i < |parts| ==> parts[i].target < |net.mail|
    ensures Grows(net, NetSubmit(net, c, argv, kind, parts))
    ensures |NetSubmit(net, c, argv, kind, parts).mail| == |net.mail|
  {
  }

  lemma RemoteFlows(trace: seq<seq<Event>>, net: Net, c: ConnId, argv: Argv, kind: Kind, parts: seq<Part>)
    requires |trace| == |net.mail| && forall i :: 0 <= i < |parts| ==> parts[i].target < |net.mail|
    requires forall s :: 0 <= s < |trace| ==> Ascending(Flow(trace[s], net.mail[s]))
    requires forall s :: 0 <= s < |trace| ==> Logged(net.log, Flow(trace[s], net.mail[s]))
    ensures var net' := NetSubmit(net, c, argv, kind, parts);
      forall s :: 0 <= s < |trace| ==>
        Ascending(Flow(trace[s], net'.mail[s])) && Logged(net'.log, Flow(trace[s], net'.mail[s]))
  {
    var net' := NetSubmit(net, c, argv, kind, parts);
    forall s | 0 <= s < |trace|
      ensures Ascending(Flow(trace[s], net'.mail[s])) && Logged(net'.log, Flow(trace[s], net'.mail[s]))
    {
      PostOrder(trace[s], s, net, net'.log, c, parts, |parts|);
    }
  }

  lemma TraceKeeps<V>(cfg: Config<V>, st: Sys<V>, net: Net)
    requires OrderOk(cfg, st) && Grows(st.net, net)
    ensures forall s, i :: 0 <= s < cfg.shards && 0 <= i < |st.trace[s]| ==> RanOk(cfg, net, s, st.trace[s][i])
  {
    hide RanOk, Grows;
    forall s, i | 0 <= s < cfg.shards && 0 <= i < |st.trace[s]|
      ensures RanOk(cfg, net, s, st.trace[s][i])
    {
      RanFrame(cfg, st.net, net, s, st.trace[s][i]);
    }
  }

  lemma InlineOrder<V>(cfg: Config<V>, st: Sys<V>, c: ConnId, argv: Argv)
    requires TableOk(cfg) && SysOk(cfg, st) && Shaped(cfg, st) && OrderOk(cfg, st) && c in st.conns && argv != []
    requires RouteOf(cfg, c.shard, argv).Inline?
    ensures OrderOk(cfg, Submitted(cfg, st, c, argv))
  {
    RoutesHome(cfg, c.shard, argv);
    var st', t := Submitted(cfg, st, c, argv), c.shard;
    var reply := Execute(cfg, st.db[t], argv).1;
    var e := Ran(FragId(c, |Log(st.net.log, c)|, 0), false, argv, reply);
    assert st'.net == WithEntry(st.net, c, Entry(argv, Immediate(reply))) &&
      st'.trace == st.trace[t := st.trace[t] + [e]];
    assert t < cfg.shards;
    hide SysOk, AtHome, TableOk, Shaped, Execute, Submitted, RouteOf;
    EntryGrows(cfg, st.net, c, argv, reply);
    hide RanOk, Grows, WithEntry;
    InlineFlows(st.trace, st.net.mail, t, e);
    InlineNewest(cfg, st, t, e);
    hide OrderOk, Flow;
    EventKeeps(cfg, st, st', t, e);
  }

  lemma EntryGrows<V>(cfg: Config<V>, net: Net, c: ConnId, argv: Argv, reply: string)
    requires argv != [] && RouteOf(cfg, c.shard, argv).Inline? && AtHome(cfg, c.shard, argv)
    ensures var net' := WithEntry(net, c, Entry(argv, Immediate(reply)));
      && Grows(net, net')
      && RanOk(cfg, net', c.shard, Ran(FragId(c, |Log(net.log, c)|, 0), false, argv, reply))
  {
    hide RouteOf, AtHome;
  }

  lemma InlineFlows(trace: seq<seq<Event>>, mail: seq<seq<Msg>>, t: nat, e: Event)
    requires t < |trace| == |mail| && !e.queued
    ensures forall s :: 0 <= s < |trace| ==> Flow(trace[t := trace[t] + [e]][s], mail[s]) == Flow(trace[s], mail[s])
  {
    QueuedAppend(trace[t], e);
    hide QueuedOf, RequestsOf;
    assert QueuedOf(trace[t]) + [] == QueuedOf(trace[t]);
  }

  /** A command about to be logged is newer than any the shard has run for its connection. */
  lemma InlineNewest<V>(cfg: Config<V>, st: Sys<V>, t: nat, e: Event)
    requires OrderOk(cfg, st) && t < cfg.shards && e.frag.turn == |Log(st.net.log, e.frag.conn)|
    ensures forall i :: 0 <= i < |st.trace[t]| && st.trace[t][i].frag.conn == e.frag.conn ==>
      st.trace[t][i].frag.turn < e.frag.turn
  {
    hide RouteOf, AtHome;
    forall i | 0 <= i < |st.trace[t]| && st.trace[t][i].frag.conn == e.frag.conn
      ensures st.trace[t][i].frag.turn < e.frag.turn
    {
      assert RanOk(cfg, st.net, t, st.trace[t][i]);
    }
  }

  lemma RunOrder<V>(cfg: Config<V>, st: Sys<V>, s: nat)
    requires TableOk(cfg) && SysOk(cfg, st) && Shaped(cfg, st) && OrderOk(cfg, st)
    requires s < |st.net.mail| && st.net.mail[s] != [] && st.net.mail[s][0].Request?
    ensures OrderOk(cfg, Delivered(cfg, st, s))
  {
    hide SysOk, TableOk, Execute, Delivered, Grows, RanOk, OrderOk, Flow, NetRun;
    var m, st' := st.net.mail[s][0], Delivered(cfg, st, s);
    var reply := Execute(cfg, st.db[s], m.args).1;
    var e := Ran(m.frag, true, m.args, reply);
    RunEffect(cfg, st, s);
    FlowMoves(st.trace, st.net, s, reply, e);
    EventKeeps(cfg, st, st', s, e);
  }

  /** What running the request at the head of a mailbox does to the network and to the executions. */
  lemma RunEffect<V>(cfg: Config<V>, st: Sys<V>, s: nat)
    requires TableOk(cfg) && SysOk(cfg, st) && Shaped(cfg, st)
    requires s < |st.net.mail| && st.net.mail[s] != [] && st.net.mail[s][0].Request?
    ensures var m, st' := st.net.mail[s][0], Delivered(cfg, st, s);
      var reply := Execute(cfg, st.db[s], m.args).1;
      && m.frag.conn.shard < |st.net.mail| == cfg.shards == |st.trace| && |st'.net.mail| == |st.net.mail|
      && st'.net == NetRun(st.net, s, reply)
      && st'.trace == st.trace[s := st.trace[s] + [Ran(m.frag, true, m.args, reply)]]
      && Grows(st.net, st'.net) && RanOk(cfg, st'.net, s, Ran(m.frag, true, m.args, reply))
  {
    HeadOk(cfg, st, s);
    hide SysOk, AtHome, TableOk, Execute, Grows, RanOk;
    var reply := Execute(cfg, st.db[s], st.net.mail[s][0].args).1;
    assert Delivered(cfg, st, s).net == NetRun(st.net, s, reply);
    hide Delivered;
    RunRan(cfg, st.net, s, reply);
  }

  lemma RunRan<V>(cfg: Config<V>, net: Net, s: nat, reply: string)
    requires s < |net.mail| && net.mail[s] != [] && net.mail[s][0].Request?
    requires net.mail[s][0].frag.conn.shard < |net.mail|
    requires var m := net.mail[s][0];
      && Valid(net.log, m.frag) && m.frag !in net.done && m.args != [] && AtHome(cfg, s, m.args)
      && m.args == PartOf(net.log, m.frag).args && s == PartOf(net.log, m.frag).target
    ensures var m := net.mail[s][0];
      && Grows(net, NetRun(net, s, reply)) && |NetRun(net, s, reply).mail| == |net.mail|
      && RanOk(cfg, NetRun(net, s, reply), s, Ran(m.frag, true, m.args, reply))
  {
    hide AtHome;
  }

  /** Running the request at the head of a mailbox moves it within its flow's boundary and touches no other flow. */
  lemma FlowMoves(trace: seq<seq<Event>>, net: Net, s: nat, reply: string, e: Event)
    requires s < |net.mail| == |trace| && net.mail[s] != [] && net.mail[s][0].Request?
    requires net.mail[s][0].frag.conn.shard < |net.mail| && e.queued && e.frag == net.mail[s][0].frag
    ensures forall t :: 0 <= t < |trace| ==>
      Flow(trace[s := trace[s] + [e]][t], NetRun(net, s, reply).mail[t]) == Flow(trace[t], net.mail[t])
  {
    var m := net.mail[s][0];
    var o, rest := m.frag.conn.shard, Popped(net.mail, s);
    RequestsAppend(rest[o], Answering(m, reply));
    QueuedAppend(trace[s], e);
    assert RequestsOf(net.mail[s]) == [m.frag] + RequestsOf(rest[s]);
    hide QueuedOf, RequestsOf;
    forall t | 0 <= t < |trace|
      ensures Flow(trace[s := trace[s] + [e]][t], NetRun(net, s, reply).mail[t]) == Flow(trace[t], net.mail[t])
    {
      assert RequestsOf(rest[o]) + [] == RequestsOf(rest[o]);
      assert RequestsOf(NetRun(net, s, reply).mail[t]) == RequestsOf(rest[t]);
      if t == s {
        assert QueuedOf(trace[s]) + ([m.frag] + RequestsOf(rest[s])) ==
          QueuedOf(trace[s]) + [m.frag] + RequestsOf(rest[s]);
      }
    }
  }

  /** The request at the head of a mailbox is at home there and has not been run. */
  lemma HeadOk<V>(cfg: Config<V>, st: Sys<V>, s: nat)
    requires TableOk(cfg) && SysOk(cfg, st) && s < |st.net.mail| && st.net.mail[s] != [] && st.net.mail[s][0].Request?
    ensures var m := st.net.mail[s][0];
      && Valid(st.net.log, m.frag) && m.frag !in st.net.done && m.args != [] && AtHome(cfg, s, m.args)
      && m.args == PartOf(st.net.log, m.frag).args && s == PartOf(st.net.log, m.frag).target
  {
    var m := st.net.mail[s][0];
    assert MsgOk(st.net, s, m);
    TotalSees(ReqOf(m.frag), st.net.mail, s, 0, |st.net.mail|);
    hide Total;
    assert Total(ReqOf(m.frag), st.net.mail) > 0;
    var c := m.frag.conn;
    var entry := Log(st.net.log, c)[m.frag.turn];
    assert EntryOk(cfg, c, entry);
    RoutesHome(cfg, c.shard, entry.argv);
  }

  lemma NextOrder<V>(cfg: Config<V>, st: Sys<V>, step: Step)
    requires TableOk(cfg) && SysOk(cfg, st) && Shaped(cfg, st) && OrderOk(cfg, st) && Enabled(cfg, st, step)
    ensures OrderOk(cfg, Next(cfg, st, step))
  {
    hide TableOk, SysOk, OrderOk, Execute, Flushed, Completed;
    var st' := Next(cfg, st, step);
    if step.Submit? && RouteOf(cfg, step.c.shard, step.argv).Remote? {
      RemoteOrder(cfg, st, step.c, step.argv);
    } else if step.Submit? && RouteOf(cfg, step.c.shard, step.argv).Inline? {
      InlineOrder(cfg, st, step.c, step.argv);
    } else if step.Deliver? && st.net.mail[step.s][0].Request? {
      RunOrder(cfg, st, step.s);
    } else {
      assert Grows(st.net, st'.net);
      QuietKeeps(cfg, st, st');
    }
  }

  lemma {:induction false} RunsOrdered<V>(cfg: Config<V>, steps: seq<Step>)
    requires TableOk(cfg) && After(cfg, steps).Some?
    ensures OrderOk(cfg, After(cfg, steps).value)
  {
    hide TableOk, SysOk, Shaped, Next, Enabled, OrderOk;
    if steps == [] {
      assert OrderOk(cfg, Start(cfg)) by { StartOrdered(cfg); }
    } else {
      var last := |steps| - 1;
      RunsOk(cfg, steps[..last]);
      RunsOrdered(cfg, steps[..last]);
      NextOrder(cfg, After(cfg, steps[..last]).value, steps[last]);
    }
  }

  lemma StartOrdered<V>(cfg: Config<V>)
    ensures OrderOk(cfg, Start(cfg))
  {
    forall s | 0 <= s < cfg.shards
      ensures Flow(Start(cfg).trace[s], Start(cfg).net.mail[s]) == []
    {
    }
  }

  // ---------------------------------------------------------------------------
  // Results over whole runs
  // ---------------------------------------------------------------------------

  /** Did the connection's `turn`th command go to several shards? */
  ghost predicate WasSplit<V>(cfg: Config<V>, net: Net, x: FragId)
    requires x.turn < |Log(net.log, x.conn)|
  {
    var argv := Log(net.log, x.conn)[x.turn].argv;
    argv != [] && Decomposable(Lower(argv[0])) && Touched(cfg, argv) != [] && !OneOwner(cfg, Touched(cfg, argv))
  }

  /** Two executions for one connection on one shard are in submission order, except that a command run straight
      from the connection, on the connection's own shard, can come before a part of an earlier, split command. */
  lemma SameShardOrder<V>(cfg: Config<V>, steps: seq<Step>, s: nat, i: nat, j: nat)
    requires TableOk(cfg) && After(cfg, steps).Some? && s < cfg.shards
    requires var st := After(cfg, steps).value; |st.trace| == cfg.shards && i < j < |st.trace[s]|
    requires var t := After(cfg, steps).value.trace[s]; t[i].frag.conn == t[j].frag.conn
    ensures var st := After(cfg, steps).value;
      var e, f := st.trace[s][i], st.trace[s][j];
      || Before(e.frag, f.frag)
      || (s == e.frag.conn.shard && !e.queued && f.queued && f.frag.turn < e.frag.turn
          && f.frag.turn < |Log(st.net.log, f.frag.conn)| && WasSplit(cfg, st.net, f.frag))
  {
    RunsOk(cfg, steps);
    RunsOrdered(cfg, steps);
    var st := After(cfg, steps).value;
    hide After, TableOk;
    SameShardAt(cfg, st, s, i, j);
  }

  lemma SameShardAt<V>(cfg: Config<V>, st: Sys<V>, s: nat, i: nat, j: nat)
    requires SysOk(cfg, st) && OrderOk(cfg, st) && s < cfg.shards
    requires i < j < |st.trace[s]| && st.trace[s][i].frag.conn == st.trace[s][j].frag.conn
    ensures var e, f := st.trace[s][i], st.trace[s][j];
      || Before(e.frag, f.frag)
      || (s == e.frag.conn.shard && !e.queued && f.queued && f.frag.turn < e.frag.turn
          && f.frag.turn < |Log(st.net.log, f.frag.conn)| && WasSplit(cfg, st.net, f.frag))
  {
    var e, f := st.trace[s][i], st.trace[s][j];
    assert RanOk(cfg, st.net, s, e) && RanOk(cfg, st.net, s, f);
    assert InlineLater(st.trace[s]) && Ascending(Flow(st.trace[s], st.net.mail[s]));
    hide NetOk, ConnOk, OrderOk;
    if e.queued && f.queued {
      var a, b := QueuedPlaces(st.trace[s], i, j);
      assert Flow(st.trace[s], st.net.mail[s])[a] == e.frag && Flow(st.trace[s], st.net.mail[s])[b] == f.frag;
    } else if f.queued {
      var entry := Log(st.net.log, f.frag.conn)[f.frag.turn];
      assert EntryOk(cfg, f.frag.conn, entry);
      InlineIsWhole(cfg, st.net, s, e);
      OwnShardMeansSplit(cfg, s, entry.argv, f.frag.index);
    }
  }

  /** A command run straight from its connection leaves no parts to run. */
  lemma InlineIsWhole<V>(cfg: Config<V>, net: Net, s: nat, e: Event)
    requires RanOk(cfg, net, s, e) && !e.queued
    ensures s == e.frag.conn.shard && forall x: FragId ::
      x.conn == e.frag.conn && x.turn == e.frag.turn ==> !Valid(net.log, x)
  {
    hide RouteOf, AtHome;
  }

  /** Every execution that touches a key happens on the shard the key hashes to. */
  lemma KeyRunsAtOwner<V>(cfg: Config<V>, steps: seq<Step>, s: nat, i: nat, key: string)
    requires TableOk(cfg) && After(cfg, steps).Some?
    requires var st := After(cfg, steps).value; s < |st.trace| && i < |st.trace[s]|
    ensures var e := After(cfg, steps).value.trace[s][i];
      e.args != [] && (key in Touched(cfg, e.args) ==> s == Owner(cfg, key))
  {
    RunsOrdered(cfg, steps);
    var st := After(cfg, steps).value;
    assert RanOk(cfg, st.net, s, st.trace[s][i]);
  }

  /** With handlers that create only the keys they are given, every stored key is on its own shard. */
  lemma {:induction false} KeysStayHome<V(!new)>(cfg: Config<V>, steps: seq<Step>)
    requires TableOk(cfg) && HandlersLocal(cfg) && After(cfg, steps).Some?
    ensures KeysHome(cfg, After(cfg, steps).value)
  {
    hide TableOk, SysOk, Shaped, Next, Enabled, KeysHome, HandlersLocal;
    if steps == [] {
      assert KeysHome(cfg, Start(cfg)) by { StartHome(cfg); }
    } else {
      var last := |steps| - 1;
      RunsOk(cfg, steps[..last]);
      KeysStayHome(cfg, steps[..last]);
      NextHome(cfg, After(cfg, steps[..last]).value, steps[last]);
    }
  }

  lemma StartHome<V>(cfg: Config<V>)
    ensures KeysHome(cfg, Start(cfg))
  {
  }

  lemma NextHome<V(!new)>(cfg: Config<V>, st: Sys<V>, step: Step)
    requires TableOk(cfg) && SysOk(cfg, st) && Shaped(cfg, st) && Enabled(cfg, st, step)
    requires HandlersLocal(cfg) && KeysHome(cfg, st)
    ensures KeysHome(cfg, Next(cfg, st, step))
  {
    if step.Submit? {
      RoutesHome(cfg, step.c.shard, step.argv);
      hide SysOk, TableOk, Shaped, RouteOf;
      if RouteOf(cfg, step.c.shard, step.argv).Inline? {
        ExecuteHome(cfg, st.db, step.c.shard, step.argv);
      }
    } else if step.Deliver? && st.net.mail[step.s][0].Request? {
      HeadOk(cfg, st, step.s);
      ExecuteHome(cfg, st.db, step.s, st.net.mail[step.s][0].args);
    }
  }

  lemma ExecuteHome<V(!new)>(cfg: Config<V>, db: seq<map<string, V>>, s: nat, argv: Argv)
    requires HandlersLocal(cfg) && s < |db| && argv != [] && AtHome(cfg, s, argv)
    requires forall t, key :: 0 <= t < |db| && key in db[t] ==> Owner(cfg, key) == t
    ensures forall key :: key in Execute(cfg, db[s], argv).0 ==> Owner(cfg, key) == s
  {
    forall key | key in Execute(cfg, db[s], argv).0
      ensures Owner(cfg, key) == s
    {
      assert key in db[s] || key in Touched(cfg, argv);
    }
  }

  /** Part `k` is the first that goes to shard `s`. */
  ghost predicate FirstFor(parts: seq<Part>, s: nat, k: nat) {
    k < |parts| && parts[k].target == s && forall i :: 0 <= i < k ==> parts[i].target != s
  }

  lemma {:induction false} FirstPart(parts: seq<Part>, s: nat, i: nat) returns (k: nat)
    requires i < |parts| && parts[i].target == s
    ensures FirstFor(parts, s, k) && k <= i
  {
    if j :| 0 <= j < i && parts[j].target == s {
      k := FirstPart(parts, s, j);
    } else {
      k := i;
    }
  }

  /** Posting to an empty mailbox puts the first of its parts at its head. */
  lemma {:induction false} FirstPosted(mail: seq<seq<Msg>>, c: ConnId, turn: nat, parts: seq<Part>, s: nat, first: nat,
      k: nat)
    requires k <= |parts| && forall i :: 0 <= i < |parts| ==> parts[i].target < |mail|
    requires FirstFor(parts, s, first) && mail[s] == []
    ensures var q := PostUpTo(mail, c, turn, parts, k)[s];
      if k <= first then q == []
      else q != [] && q[0] == Request(FragId(c, turn, first), parts[first].args, parts[first].isInt)
    decreases k
  {
    if k > 0 {
      FirstPosted(mail, c, turn, parts, s, first, k - 1);
    }
  }

  lemma SplitState<V>(cfg: Config<V>, st: Sys<V>, c: ConnId, split: Argv, k: nat)
    requires TableOk(cfg) && SysOk(cfg, st) && Shaped(cfg, st) && c in st.conns && split != []
    requires RouteOf(cfg, c.shard, split).Remote? && FirstFor(RouteOf(cfg, c.shard, split).parts, c.shard, k)
    requires st.net.mail[c.shard] == []
    ensures var st', p := Submitted(cfg, st, c, split), RouteOf(cfg, c.shard, split).parts[k];
      && c in st'.conns && st'.conns[c].closing == st.conns[c].closing
      && st'.trace == st.trace && |Log(st'.net.log, c)| == |Log(st.net.log, c)| + 1
      && |st'.net.mail| == |st.net.mail| && st'.net.mail[c.shard] != []
      && st'.net.mail[c.shard][0] == Request(FragId(c, |Log(st.net.log, c)|, k), p.args, p.isInt)
  {
    RoutesHome(cfg, c.shard, split);
    var r := RouteOf(cfg, c.shard, split);
    hide RouteOf, SysOk;
    FirstPosted(st.net.mail, c, |Log(st.net.log, c)|, r.parts, c.shard, k, |r.parts|);
  }

  lemma InlineState<V>(cfg: Config<V>, st: Sys<V>, c: ConnId, argv: Argv) returns (e: Event)
    requires TableOk(cfg) && Shaped(cfg, st) && c in st.conns && argv != [] && RouteOf(cfg, c.shard, argv).Inline?
    ensures var st' := Submitted(cfg, st, c, argv);
      && st'.net.mail == st.net.mail && |st'.trace| == |st.trace|
      && st'.trace[c.shard] == st.trace[c.shard] + [e]
    ensures e.frag == FragId(c, |Log(st.net.log, c)|, 0) && e.args == argv
  {
    hide RouteOf;
    e := Ran(FragId(c, |Log(st.net.log, c)|, 0), false, argv, Execute(cfg, st.db[c.shard], argv).1);
  }

  /** The exception is real whenever a split command has a part for the connection's own shard: a command run straight
      from the connection runs before the first such part, which waits until the mailbox is drained. */
  lemma Overtaken<V>(cfg: Config<V>, s: nat, split: Argv, inline: Argv, i: nat) returns (steps: seq<Step>, k: nat)
    requires TableOk(cfg) && s < cfg.shards && split != [] && inline != []
    requires RouteOf(cfg, s, split).Remote? && i < |RouteOf(cfg, s, split).parts|
    requires RouteOf(cfg, s, split).parts[i].target == s && RouteOf(cfg, s, inline).Inline?
    ensures FirstFor(RouteOf(cfg, s, split).parts, s, k) && k <= i
    ensures steps == [Accept(s), Submit(ConnId(s, 1), split), Submit(ConnId(s, 1), inline), Deliver(s)]
    ensures After(cfg, steps).Some?
    ensures var trace := After(cfg, steps).value.trace;
      && s < |trace| && |trace[s]| == 2
      && trace[s][0].frag == FragId(ConnId(s, 1), 1, 0) && trace[s][0].args == inline
      && trace[s][1].frag == FragId(ConnId(s, 1), 0, k) && trace[s][1].args == RouteOf(cfg, s, split).parts[k].args
  {
    hide *;
    var c := ConnId(s, 1);
    k := FirstPart(RouteOf(cfg, s, split).parts, s, i);
    var run2, st2 := OvertakenHalf(cfg, s, split, k);
    var run3, st3, e := InlineStep(cfg, run2, st2, c, inline);
    var run4, st4, f := DeliverStep(cfg, run3, st3, s);
    assert st4.trace[s] == [e, f];
    steps := [Accept(s), Submit(c, split), Submit(c, inline), Deliver(s)];
    assert run4 == steps;
  }

  lemma InlineStep<V>(cfg: Config<V>, run: seq<Step>, st: Sys<V>, c: ConnId, argv: Argv)
      returns (run': seq<Step>, st': Sys<V>, e: Event)
    requires TableOk(cfg) && After(cfg, run) == Some(st) && c in st.conns && !st.conns[c].closing
    requires c.shard < |st.trace| && argv != [] && RouteOf(cfg, c.shard, argv).Inline?
    ensures run' == run + [Submit(c, argv)] && After(cfg, run') == Some(st')
    ensures st'.net.mail == st.net.mail && |st'.trace| == |st.trace| && st'.trace[c.shard] == st.trace[c.shard] + [e]
    ensures e.frag == FragId(c, |Log(st.net.log, c)|, 0) && e.args == argv
  {
    hide SysOk, Shaped, Execute, RouteOf, TableOk, Submitted, After;
    run', st' := OneMore(cfg, run, st, Submit(c, argv));
    e := InlineState(cfg, st, c, argv);
  }

  lemma DeliverStep<V>(cfg: Config<V>, run: seq<Step>, st: Sys<V>, s: nat)
      returns (run': seq<Step>, st': Sys<V>, e: Event)
    requires TableOk(cfg) && After(cfg, run) == Some(st)
    requires s < |st.trace| && s < |st.net.mail| && st.net.mail[s] != [] && st.net.mail[s][0].Request?
    ensures run' == run + [Deliver(s)] && After(cfg, run') == Some(st')
    ensures |st'.trace| == |st.trace| && st'.trace[s] == st.trace[s] + [e]
    ensures e.frag == st.net.mail[s][0].frag && e.args == st.net.mail[s][0].args
  {
    hide SysOk, Shaped, Execute, RouteOf, TableOk, Delivered, After;
    run', st' := OneMore(cfg, run, st, Deliver(s));
    e := DeliverState(cfg, st, s);
  }

  lemma DeliverState<V>(cfg: Config<V>, st: Sys<V>, s: nat) returns (e: Event)
    requires Shaped(cfg, st) && s < |st.net.mail| && st.net.mail[s] != [] && st.net.mail[s][0].Request?
    ensures var st' := Delivered(cfg, st, s);
      |st'.trace| == |st.trace| && st'.trace[s] == st.trace[s] + [e]
    ensures e.frag == st.net.mail[s][0].frag && e.args == st.net.mail[s][0].args
  {
    var m := st.net.mail[s][0];
    hide Execute;
    e := Ran(m.frag, true, m.args, Execute(cfg, st.db[s], m.args).1);
  }

  lemma OvertakenHalf<V>(cfg: Config<V>, s: nat, split: Argv, k: nat) returns (run: seq<Step>, st: Sys<V>)
    requires TableOk(cfg) && s < cfg.shards && split != []
    requires RouteOf(cfg, s, split).Remote? && FirstFor(RouteOf(cfg, s, split).parts, s, k)
    ensures run == [Accept(s), Submit(ConnId(s, 1), split)] && After(cfg, run) == Some(st)
    ensures var c, p := ConnId(s, 1), RouteOf(cfg, s, split).parts[k];
      && c in st.conns && !st.conns[c].closing && |Log(st.net.log, c)| == 1
      && s < |st.trace| == |st.net.mail| && st.trace[s] == [] && st.net.mail[s] != []
      && st.net.mail[s][0] == Request(FragId(c, 0, k), p.args, p.isInt)
  {
    hide *;
    var c := ConnId(s, 1);
    var run1, st1 := AcceptedFirst(cfg, s);
    run, st := SubmittedNext(cfg, run1, st1, c, split, k);
    assert run == [Accept(s), Submit(c, split)];
  }

  lemma AcceptedFirst<V>(cfg: Config<V>, s: nat) returns (run: seq<Step>, st: Sys<V>)
    requires TableOk(cfg) && s < cfg.shards
    ensures run == [Accept(s)] && After(cfg, run) == Some(st)
    ensures var c := ConnId(s, 1);
      && c in st.conns && !st.conns[c].closing && |Log(st.net.log, c)| == 0
      && s < |st.trace| == |st.net.mail| && st.trace[s] == [] && st.net.mail[s] == []
  {
    hide SysOk, Shaped, TableOk, Start, After;
    var st0: Sys<V> := Start(cfg);
    StartState(cfg, s);
    var run0: seq<Step> := [];
    NoStepsYet(cfg);
    run, st := OneMore(cfg, run0, st0, Accept(s));
    assert run == [Accept(s)];
  }

  lemma StartState<V>(cfg: Config<V>, s: nat)
    requires s < cfg.shards
    ensures var st: Sys<V> := Start(cfg);
      && |st.nextCid| == |st.net.mail| == |st.trace| == cfg.shards
      && st.trace[s] == [] && st.net.mail[s] == [] && st.nextCid[s] == 1 && st.net.log == map[]
  {
  }

  lemma NoStepsYet<V>(cfg: Config<V>)
    requires TableOk(cfg)
    ensures After(cfg, []) == Some(Start(cfg))
  {
  }

  lemma SubmittedNext<V>(cfg: Config<V>, run: seq<Step>, st: Sys<V>, c: ConnId, split: Argv, k: nat)
      returns (run': seq<Step>, st': Sys<V>)
    requires TableOk(cfg) && After(cfg, run) == Some(st) && c in st.conns && !st.conns[c].closing && split != []
    requires RouteOf(cfg, c.shard, split).Remote? && FirstFor(RouteOf(cfg, c.shard, split).parts, c.shard, k)
    requires c.shard < |st.trace| == |st.net.mail| && st.net.mail[c.shard] == []
    ensures run' == run + [Submit(c, split)] && After(cfg, run') == Some(st')
    ensures var p := RouteOf(cfg, c.shard, split).parts[k];
      && c in st'.conns && !st'.conns[c].closing && |Log(st'.net.log, c)| == |Log(st.net.log, c)| + 1
      && |st'.trace| == |st'.net.mail| == |st.trace| && st'.trace == st.trace && st'.net.mail[c.shard] != []
      && st'.net.mail[c.shard][0] == Request(FragId(c, |Log(st.net.log, c)|, k), p.args, p.isInt)
  {
    hide SysOk, Shaped, RouteOf, TableOk, Submitted, AtHome, After;
    run', st' := OneMore(cfg, run, st, Submit(c, split));
    SplitState(cfg, st, c, split, k);
  }

  lemma OneMore<V>(cfg: Config<V>, run: seq<Step>, st: Sys<V>, step: Step) returns (run': seq<Step>, st': Sys<V>)
    requires TableOk(cfg) && After(cfg, run) == Some(st) && Enabled(cfg, st, step)
    ensures run' == run + [step] && SysOk(cfg, st) && Shaped(cfg, st) && st' == Next(cfg, st, step)
    ensures After(cfg, run') == Some(st')
  {
    RunsOk(cfg, run);
    NeverStuck(cfg, run, step);
    run', st' := run + [step], Next(cfg, st, step);
  }

  /** Two shards, one connection: DEL bb a, then GET bb. The GET runs before the DEL of the same key. */
  lemma OvertakenOnOneKey<V>(cfg: Config<V>) returns (steps: seq<Step>)
    requires TableOk(cfg) && cfg.shards == 2 && Owner(cfg, "bb") == 0 && Owner(cfg, "a") == 1
    ensures After(cfg, steps).Some?
    ensures var trace := After(cfg, steps).value.trace;
      && 0 < |trace| && |trace[0]| == 2
      && trace[0][0].frag == FragId(ConnId(0, 1), 1, 0) && trace[0][0].args == ["GET", "bb"]
      && trace[0][1].frag == FragId(ConnId(0, 1), 0, 0) && trace[0][1].args == ["DEL", "bb"]
  {
    var del, get := ["DEL", "bb", "a"], ["GET", "bb"];
    SplitDel(cfg);
    hide RouteOf, After;
    var k;
    steps, k := Overtaken(cfg, 0, del, get, 0);
  }

  lemma SplitDel<V>(cfg: Config<V>)
    requires TableOk(cfg) && cfg.shards == 2 && Owner(cfg, "bb") == 0 && Owner(cfg, "a") == 1
    ensures RouteOf(cfg, 0, ["DEL", "bb", "a"]) ==
      Remote(DelCount, [Part(0, ["DEL", "bb"], true), Part(1, ["DEL", "a"], true)])
    ensures RouteOf(cfg, 0, ["GET", "bb"]) == Inline
  {
    SubCommandNames();
    var del, get := ["DEL", "bb", "a"], ["GET", "bb"];
    hide Lower;
    assert KeysAt(del, 3, 2, 1) == [] && KeysAt(del, 2, 2, 1) == ["a"] && KeysAt(del, 1, 2, 1) == ["bb", "a"];
    assert KeysAt(get, 2, 1, 1) == [] && KeysAt(get, 1, 1, 1) == ["bb"];
    assert KeysOf(cfg.specs["del"], del) == ["bb", "a"] && KeysOf(cfg.specs["get"], get) == ["bb"];
    assert !OneOwner(cfg, ["bb", "a"]) by {
      assert Owner(cfg, ["bb", "a"][1]) == 1;
    }
    assert Decomposable("del") && KindOf("del") == DelCount;
    assert SplitPart(cfg, DelCount, del, ["bb", "a"], 0) == Part(0, ["DEL", "bb"], true);
    assert SplitPart(cfg, DelCount, del, ["bb", "a"], 1) == Part(1, ["DEL", "a"], true);
  }
}

/** Messages run out, every command is answered once, and what a split reply is made of. */
module Quiescence {
  import opened Options
  import opened Resp
  import opened Pipelines
  import opened Routing
  import opened Protocols
  import opened ReplyOrder
  import opened ShardOrder

  // ---------------------------------------------------------------------------
  // A measure
  // ---------------------------------------------------------------------------

  /** A request costs two deliveries, a completion one. */
  function Cost(m: Msg): nat {
    if m.Request? then 2 else 1
  }

  function Load(queue: seq<Msg>): nat {
    if queue == [] then 0 else Cost(queue[0]) + Load(queue[1..])
  }

  function LoadTo(mail: seq<seq<Msg>>, n: nat): nat
    requires n <= |mail|
  {
    if n == 0 then 0 else LoadTo(mail, n - 1) + Load(mail[n - 1])
  }

  function Work(mail: seq<seq<Msg>>): nat {
    LoadTo(mail, |mail|)
  }

  lemma {:induction false} LoadAppend(queue: seq<Msg>, m: Msg)
    ensures Load(queue + [m]) == Load(queue) + Cost(m)
  {
    if queue == [] {
      assert (queue + [m])[1..] == [];
    } else {
      LoadAppend(queue[1..], m);
      assert (queue + [m])[1..] == queue[1..] + [m];
    }
  }

  lemma {:induction false} LoadUpdate(mail: seq<seq<Msg>>, s: nat, queue: seq<Msg>, n: nat)
    requires s < |mail| && n <= |mail|
    ensures LoadTo(mail[s := queue], n) == LoadTo(mail, n) + if s < n then Load(queue) - Load(mail[s]) else 0
  {
    if n > 0 {
      LoadUpdate(mail, s, queue, n - 1);
    }
  }

  lemma {:induction false} NoLoad(mail: seq<seq<Msg>>, n: nat)
    requires n <= |mail| && LoadTo(mail, n) == 0
    ensures forall s :: 0 <= s < n ==> mail[s] == []
  {
    if n > 0 {
      NoLoad(mail, n - 1);
    }
  }

  /** Delivering one message uses up exactly one unit of work. */
  lemma DeliverShrinks<V>(cfg: Config<V>, st: Sys<V>, s: nat)
    requires SysOk(cfg, st) && Shaped(cfg, st) && s < |st.net.mail| && st.net.mail[s] != []
    ensures Work(Delivered(cfg, st, s).net.mail) == Work(st.net.mail) - 1
  {
    var m := st.net.mail[s][0];
    var n := |st.net.mail|;
    hide SysOk, Execute;
    var rest := Popped(st.net.mail, s);
    LoadUpdate(st.net.mail, s, st.net.mail[s][1..], n);
    if m.Request? {
      var o := m.frag.conn.shard;
      var reply := Execute(cfg, st.db[s], m.args).1;
      LoadAppend(rest[o], Answering(m, reply));
      LoadUpdate(rest, o, rest[o] + [Answering(m, reply)], n);
      assert Delivered(cfg, st, s).net.mail == rest[o := rest[o] + [Answering(m, reply)]];
    }
  }

  /** No step but submitting a command adds work. */
  lemma OnlySubmitAddsWork<V>(cfg: Config<V>, st: Sys<V>, step: Step)
    requires TableOk(cfg) && SysOk(cfg, st) && Shaped(cfg, st) && Enabled(cfg, st, step) && !step.Submit?
    ensures Work(Next(cfg, st, step).net.mail) == Work(st.net.mail) - if step.Deliver? then 1 else 0
  {
    hide SysOk, TableOk, Shaped, Work, Delivered;
    if step.Deliver? {
      DeliverShrinks(cfg, st, step.s);
    }
  }

  ghost predicate AllDeliver(steps: seq<Step>) {
    forall i :: 0 <= i < |steps| ==> steps[i].Deliver?
  }

  ghost predicate Quiet<V>(st: Sys<V>) {
    forall s :: 0 <= s < |st.net.mail| ==> st.net.mail[s] == []
  }

  /** However deliveries are scheduled, there can only be as many as there is work. */
  lemma {:induction false} DeliveriesBounded<V>(cfg: Config<V>, steps: seq<Step>, more: seq<Step>)
    requires TableOk(cfg) && After(cfg, steps).Some? && After(cfg, steps + more).Some? && AllDeliver(more)
    ensures |more| + Work(After(cfg, steps + more).value.net.mail) == Work(After(cfg, steps).value.net.mail)
  {
    hide SysOk, TableOk, Shaped, Work, Next;
    if more == [] {
      assert steps + more == steps;
    } else {
      var last := |more| - 1;
      assert (steps + more)[..|steps + more| - 1] == steps + more[..last];
      DeliveriesBounded(cfg, steps, more[..last]);
      RunsOk(cfg, steps + more[..last]);
      OnlySubmitAddsWork(cfg, After(cfg, steps + more[..last]).value, more[last]);
    }
  }

  /** With no new input, delivering until nothing can be delivered empties every mailbox. */
  lemma {:induction false} BecomesQuiet<V>(cfg: Config<V>, steps: seq<Step>) returns (more: seq<Step>)
    requires TableOk(cfg) && After(cfg, steps).Some?
    ensures AllDeliver(more) && After(cfg, steps + more).Some? && Quiet(After(cfg, steps + more).value)
    decreases Work(After(cfg, steps).value.net.mail)
  {
    hide *;
    var st := After(cfg, steps).value;
    if s :| 0 <= s < |st.net.mail| && st.net.mail[s] != [] {
      var next := DeliverMore(cfg, steps, s);
      var rest := BecomesQuiet(cfg, next);
      more := [Deliver(s)] + rest;
      assert next + rest == steps + more;
      ThenMore(s, rest);
    } else {
      more := [];
      assert steps + more == steps;
      NothingMore(st, more);
    }
  }

  lemma ThenMore(s: nat, rest: seq<Step>)
    requires AllDeliver(rest)
    ensures AllDeliver([Deliver(s)] + rest)
  {
  }

  lemma NothingMore<V>(st: Sys<V>, more: seq<Step>)
    requires more == [] && forall s :: 0 <= s < |st.net.mail| ==> st.net.mail[s] == []
    ensures AllDeliver(more) && Quiet(st)
  {
  }

  lemma DeliverMore<V>(cfg: Config<V>, steps: seq<Step>, s: nat) returns (next: seq<Step>)
    requires TableOk(cfg) && After(cfg, steps).Some?
    requires s < |After(cfg, steps).value.net.mail| && After(cfg, steps).value.net.mail[s] != []
    ensures next == steps + [Deliver(s)] && After(cfg, next).Some?
    ensures Work(After(cfg, next).value.net.mail) < Work(After(cfg, steps).value.net.mail)
  {
    RunsOk(cfg, steps);
    var st := After(cfg, steps).value;
    hide SysOk, TableOk, Shaped, After, Work, Delivered;
    next := steps + [Deliver(s)];
    NeverStuck(cfg, steps, Deliver(s));
    DeliverShrinks(cfg, st, s);
  }

  lemma {:induction false} FlushAll(conn: Conn)
    requires forall q :: q in conn.pipeline ==> conn.pipeline[q].ready
    ensures Flushed(conn).pipeline == map[]
    decreases |conn.pipeline|
  {
    if conn.pipeline != map[] {
      FlushAll(WithoutFront(conn));
    }
  }

  /** Once the mailboxes are empty, sending what is ready leaves no reply owed: every command has been answered, in
      order. */
  lemma QuietMeansAnswered<V>(cfg: Config<V>, steps: seq<Step>, c: ConnId)
    requires TableOk(cfg) && After(cfg, steps).Some?
    requires Quiet(After(cfg, steps).value) && c in After(cfg, steps).value.conns
    ensures var st := After(cfg, steps).value;
      var conn := Flushed(st.conns[c]);
      && conn.pipeline == map[]
      && conn.out == Answers(st.net, c, |Log(st.net.log, c)|)
      && forall q :: 0 <= q < |Log(st.net.log, c)| ==> AllDone(st.net, c, q)
  {
    RunsOk(cfg, steps);
    var st := After(cfg, steps).value;
    var conn := st.conns[c];
    hide After, TableOk, Shaped, Total, Interval, Answers;
    forall q | q in conn.pipeline
      ensures conn.pipeline[q].ready
    {
      assert SlotOk(st.net, c, q, conn.pipeline[q]);
      TotalEmpty(OfSlot(c, q), st.net.mail, |st.net.mail|);
      assert Total(OfSlot(c, q), st.net.mail) == 0 by {
        TotalIsZero(OfSlot(c, q), st.net.mail);
      }
    }
    FlushKeeps(st.net, c, conn);
    FlushAll(conn);
  }

  lemma TotalIsZero(sel: Sel, mail: seq<seq<Msg>>)
    requires forall s :: 0 <= s < |mail| ==> mail[s] == []
    ensures Total(sel, mail) == 0
  {
    TotalEmpty(sel, mail, |mail|);
  }

  // ---------------------------------------------------------------------------
  // Messages and connections
  // ---------------------------------------------------------------------------

  /** Delivering a message changes at most the connection that submitted its command, which exists only once. */
  lemma DeliverTouchesItsOwner<V>(cfg: Config<V>, steps: seq<Step>, s: nat, c: ConnId)
    requires TableOk(cfg) && After(cfg, steps).Some?
    requires var st := After(cfg, steps).value; s < |st.net.mail| && st.net.mail[s] != [] && c in st.conns
    requires Shaped(cfg, After(cfg, steps).value)
    ensures var st := After(cfg, steps).value;
      var x := FragAt(s, st.net.mail[s][0]);
      && Valid(st.net.log, x)
      && c in Delivered(cfg, st, s).conns
      && (Delivered(cfg, st, s).conns[c] != st.conns[c] ==> c == x.conn && st.net.mail[s][0].Completion?)
  {
    RunsOk(cfg, steps);
    var st := After(cfg, steps).value;
    assert MsgOk(st.net, s, st.net.mail[s][0]);
    hide After, Completed;
  }

  // ---------------------------------------------------------------------------
  // The log is the input
  // ---------------------------------------------------------------------------

  /** What a connection was made to parse: its commands, and [] for a protocol error. */
  function Inputs(steps: seq<Step>, c: ConnId): seq<Argv> {
    if steps == [] then []
    else
      var last := steps[|steps| - 1];
      Inputs(steps[..|steps| - 1], c)
      + if last.Submit? && last.c == c then [last.argv] else if last.BadInput? && last.c == c then [[]] else []
  }

  /** The `q`th entry of a connection's log is the `q`th command it parsed, planned as routing says. */
  lemma {:induction false} LogIsInput<V>(cfg: Config<V>, steps: seq<Step>, c: ConnId)
    requires TableOk(cfg) && After(cfg, steps).Some?
    ensures var log := Log(After(cfg, steps).value.net.log, c);
      && |log| == |Inputs(steps, c)|
      && forall q :: 0 <= q < |log| ==> log[q].argv == Inputs(steps, c)[q] && EntryOk(cfg, c, log[q])
  {
    hide SysOk, TableOk, Shaped, Enabled, Next, Start, EntryOk, Log;
    RunsOk(cfg, steps);
    if steps == [] {
      StartLog(cfg, c);
    } else {
      var last := |steps| - 1;
      LogIsInput(cfg, steps[..last], c);
      RunsOk(cfg, steps[..last]);
      LogGrows(cfg, After(cfg, steps[..last]).value, steps[last], c);
    }
    LogEntries(cfg, After(cfg, steps).value, c);
  }

  lemma StartLog<V>(cfg: Config<V>, c: ConnId)
    ensures Log(Start(cfg).net.log, c) == []
  {
  }

  lemma LogEntries<V>(cfg: Config<V>, st: Sys<V>, c: ConnId)
    requires SysOk(cfg, st)
    ensures forall q :: 0 <= q < |Log(st.net.log, c)| ==> EntryOk(cfg, c, Log(st.net.log, c)[q])
  {
  }

  lemma LogGrows<V>(cfg: Config<V>, st: Sys<V>, step: Step, c: ConnId)
    requires TableOk(cfg) && SysOk(cfg, st) && Shaped(cfg, st) && Enabled(cfg, st, step)
    ensures var log, log' := Log(st.net.log, c), Log(Next(cfg, st, step).net.log, c);
      if step.Submit? && step.c == c then |log'| == |log| + 1 && log'[..|log|] == log && log'[|log|].argv == step.argv
      else if step.BadInput? && step.c == c then |log'| == |log| + 1 && log'[..|log|] == log && log'[|log|].argv == []
      else log' == log
  {
    hide SysOk, TableOk, Shaped, RouteOf, Execute, Flushed, Completed;
  }

  // ---------------------------------------------------------------------------
  // Every reply comes from one execution
  // ---------------------------------------------------------------------------

  ghost predicate HasRun(events: seq<Event>, x: FragId, args: Argv, reply: string) {
    exists i :: 0 <= i < |events| && events[i] == Ran(x, true, args, reply)
  }

  ghost predicate Recorded<V>(cfg: Config<V>, st: Sys<V>) {
    forall x :: x in st.net.done ==>
      && Valid(st.net.log, x) && PartOf(st.net.log, x).target < |st.trace|
      && HasRun(st.trace[PartOf(st.net.log, x).target], x, PartOf(st.net.log, x).args, st.net.done[x])
  }

  lemma HasRunGrows(events: seq<Event>, events': seq<Event>, x: FragId, args: Argv, reply: string)
    requires HasRun(events, x, args, reply) && events <= events'
    ensures HasRun(events', x, args, reply)
  {
    var i :| 0 <= i < |events| && events[i] == Ran(x, true, args, reply);
    assert events'[i] == events[i];
  }

  lemma RecordedFrame<V>(cfg: Config<V>, st: Sys<V>, st': Sys<V>, x: FragId)
    requires Recorded(cfg, st) && x in st.net.done && Grows(st.net, st'.net) && |st'.trace| == |st.trace|
    requires forall s :: 0 <= s < |st.trace| ==> st.trace[s] <= st'.trace[s]
    ensures Valid(st'.net.log, x) && PartOf(st'.net.log, x).target < |st'.trace|
    ensures HasRun(st'.trace[PartOf(st'.net.log, x).target], x, PartOf(st'.net.log, x).args, st'.net.done[x])
  {
    hide HasRun;
    assert Log(st.net.log, x.conn) <= Log(st'.net.log, x.conn);
    var p := PartOf(st.net.log, x);
    HasRunGrows(st.trace[p.target], st'.trace[p.target], x, p.args, st.net.done[x]);
  }

  lemma RunRecorded<V>(cfg: Config<V>, st: Sys<V>, s: nat)
    requires TableOk(cfg) && SysOk(cfg, st) && Shaped(cfg, st) && Recorded(cfg, st)
    requires s < |st.net.mail| && st.net.mail[s] != [] && st.net.mail[s][0].Request?
    ensures Recorded(cfg, Delivered(cfg, st, s))
  {
    hide SysOk, TableOk, Execute, Delivered, Grows, RanOk;
    HeadOk(cfg, st, s);
    RunEffect(cfg, st, s);
    hide Shaped, AtHome;
    var m, st' := st.net.mail[s][0], Delivered(cfg, st, s);
    var reply := Execute(cfg, st.db[s], m.args).1;
    assert st'.trace[s][|st.trace[s]|] == Ran(m.frag, true, m.args, reply);
    assert HasRun(st'.trace[s], m.frag, m.args, reply);
    hide HasRun;
    forall x | x in st'.net.done && x != m.frag
      ensures Valid(st'.net.log, x) && PartOf(st'.net.log, x).target < |st'.trace|
      ensures HasRun(st'.trace[PartOf(st'.net.log, x).target], x, PartOf(st'.net.log, x).args, st'.net.done[x])
    {
      RecordedFrame(cfg, st, st', x);
    }
  }

  lemma NextRecorded<V>(cfg: Config<V>, st: Sys<V>, step: Step)
    requires TableOk(cfg) && SysOk(cfg, st) && Shaped(cfg, st) && Enabled(cfg, st, step) && Recorded(cfg, st)
    ensures Recorded(cfg, Next(cfg, st, step))
  {
    if step.Deliver? && st.net.mail[step.s][0].Request? {
      RunRecorded(cfg, st, step.s);
    } else {
      hide Recorded, Grows, Next;
      OnlyRunsAnswer(cfg, st, step);
      RecordKept(cfg, st, Next(cfg, st, step));
    }
  }

  lemma RecordKept<V>(cfg: Config<V>, st: Sys<V>, st': Sys<V>)
    requires Recorded(cfg, st) && st'.net.done == st.net.done && Grows(st.net, st'.net) && |st'.trace| == |st.trace|
    requires forall s :: 0 <= s < |st.trace| ==> st.trace[s] <= st'.trace[s]
    ensures Recorded(cfg, st')
  {
    hide HasRun, Grows;
    forall x | x in st'.net.done
      ensures Valid(st'.net.log, x) && PartOf(st'.net.log, x).target < |st'.trace|
      ensures HasRun(st'.trace[PartOf(st'.net.log, x).target], x, PartOf(st'.net.log, x).args, st'.net.done[x])
    {
      RecordedFrame(cfg, st, st', x);
    }
  }

  lemma OnlyRunsAnswer<V>(cfg: Config<V>, st: Sys<V>, step: Step)
    requires TableOk(cfg) && SysOk(cfg, st) && Shaped(cfg, st) && Enabled(cfg, st, step)
    requires step.Deliver? ==> st.net.mail[step.s][0].Completion?
    ensures var st' := Next(cfg, st, step);
      && st'.net.done == st.net.done && Grows(st.net, st'.net) && |st'.trace| == |st.trace|
      && forall s :: 0 <= s < |st.trace| ==> st.trace[s] <= st'.trace[s]
  {
    hide TableOk, Shaped, SysOk, RouteOf, Execute, Flushed, Completed, Submitted, Delivered;
    match step
    case Submit(c, argv) =>
      SubmitAnswersNothing(cfg, st, c, argv);
    case Deliver(s) =>
      assert Delivered(cfg, st, s).net == NetArrive(st.net, s) && Delivered(cfg, st, s).trace == st.trace by {
        ArrivesOnly(cfg, st, s);
      }
    case _ =>
  }

  lemma ArrivesOnly<V>(cfg: Config<V>, st: Sys<V>, s: nat)
    requires Shaped(cfg, st) && s < |st.net.mail| && st.net.mail[s] != [] && st.net.mail[s][0].Completion?
    ensures Delivered(cfg, st, s).net == NetArrive(st.net, s) && Delivered(cfg, st, s).trace == st.trace
  {
    hide Completed;
  }

  lemma SubmitAnswersNothing<V>(cfg: Config<V>, st: Sys<V>, c: ConnId, argv: Argv)
    requires TableOk(cfg) && Shaped(cfg, st) && c in st.conns && argv != [] && !RouteOf(cfg, c.shard, argv).Overrun?
    ensures var st' := Submitted(cfg, st, c, argv);
      && st'.net.done == st.net.done && Grows(st.net, st'.net) && |st'.trace| == |st.trace|
      && forall s :: 0 <= s < |st.trace| ==> st.trace[s] <= st'.trace[s]
  {
    RoutesHome(cfg, c.shard, argv);
    var r := RouteOf(cfg, c.shard, argv);
    var st' := Submitted(cfg, st, c, argv);
    hide TableOk, RouteOf, Execute;
    if r.Remote? {
      assert st'.trace == st.trace && st'.net == NetSubmit(st.net, c, argv, r.kind, r.parts);
      SubmitGrows(st.net, c, argv, r.kind, r.parts);
    } else {
      assert forall s :: 0 <= s < |st.trace| ==> st.trace[s] <= st'.trace[s];
    }
  }

  /** Nothing is run twice, on one shard or on two, from the mailbox or from the connection. */
  ghost predicate RunsAtMostOnce(trace: seq<seq<Event>>) {
    forall s, t, i, j :: 0 <= s < |trace| && 0 <= t < |trace| && 0 <= i < |trace[s]| && 0 <= j < |trace[t]| ==>
      trace[s][i].frag == trace[t][j].frag ==> s == t && i == j
  }

  /** On every run, each reply on record was produced by exactly one execution, of the part's own arguments, on its
      shard. */
  lemma {:induction false} EachRunsOnce<V>(cfg: Config<V>, steps: seq<Step>)
    requires TableOk(cfg) && After(cfg, steps).Some?
    ensures Recorded(cfg, After(cfg, steps).value)
    ensures var st := After(cfg, steps).value;
      RunsAtMostOnce(st.trace)
  {
    hide SysOk, TableOk, Shaped, Next, Enabled, Recorded, OrderOk;
    if steps == [] {
      assert Recorded(cfg, Start(cfg)) by { StartRecorded(cfg); }
    } else {
      var last := |steps| - 1;
      RunsOk(cfg, steps[..last]);
      EachRunsOnce(cfg, steps[..last]);
      NextRecorded(cfg, After(cfg, steps[..last]).value, steps[last]);
    }
    RunsOrdered(cfg, steps);
    AtMostOnce(cfg, After(cfg, steps).value);
  }

  lemma StartRecorded<V>(cfg: Config<V>)
    ensures Recorded(cfg, Start(cfg))
  {
  }

  lemma AtMostOnce<V>(cfg: Config<V>, st: Sys<V>)
    requires OrderOk(cfg, st)
    ensures RunsAtMostOnce(st.trace)
  {
    hide RouteOf, AtHome, Flow, Ascending;
    forall s, t, i, j | 0 <= s < |st.trace| && 0 <= t < |st.trace| && 0 <= i < |st.trace[s]| && 0 <= j < |st.trace[t]|
      && st.trace[s][i].frag == st.trace[t][j].frag
      ensures s == t && i == j
    {
      SamePlace(cfg, st, s, i, t, j);
      assert InlineLater(st.trace[s]) && Ascending(Flow(st.trace[s], st.net.mail[s]));
      if i < j {
        OncePlace(st.trace[s], st.net.mail[s], i, j);
      } else if j < i {
        OncePlace(st.trace[s], st.net.mail[s], j, i);
      }
    }
  }

  lemma SamePlace<V>(cfg: Config<V>, st: Sys<V>, s: nat, i: nat, t: nat, j: nat)
    requires OrderOk(cfg, st) && s < |st.trace| && t < |st.trace| && i < |st.trace[s]| && j < |st.trace[t]|
    requires st.trace[s][i].frag == st.trace[t][j].frag
    ensures s == t && st.trace[s][i].queued == st.trace[t][j].queued
  {
    hide RouteOf, AtHome;
    assert RanOk(cfg, st.net, s, st.trace[s][i]) && RanOk(cfg, st.net, t, st.trace[t][j]);
  }

  lemma OncePlace(events: seq<Event>, queue: seq<Msg>, i: nat, j: nat)
    requires i < j < |events| && events[i].queued == events[j].queued
    requires InlineLater(events) && Ascending(Flow(events, queue))
    ensures events[i].frag != events[j].frag
  {
    if events[i].queued {
      var a, b := QueuedPlaces(events, i, j);
      assert Flow(events, queue)[a] == events[i].frag && Flow(events, queue)[b] == events[j].frag;
    }
  }

  // ---------------------------------------------------------------------------
  // What the reply to a split MGET is made of
  // ---------------------------------------------------------------------------

  /** A split MGET is answered by an array whose `i`th element is the reply to GET of the `i`th key, from its owner. */
  lemma MGetAnswer<V>(cfg: Config<V>, steps: seq<Step>, c: ConnId, q: nat)
    requires TableOk(cfg) && After(cfg, steps).Some? && q < |Log(After(cfg, steps).value.net.log, c)|
    requires var st := After(cfg, steps).value;
      var argv := Log(st.net.log, c)[q].argv;
      argv != [] && Lower(argv[0]) == "mget" && Touched(cfg, argv) != [] && !OneOwner(cfg, Touched(cfg, argv))
    ensures var st := After(cfg, steps).value;
      var argv := Log(st.net.log, c)[q].argv;
      var n := |argv| - 1;
      && (forall i :: 0 <= i < n ==> Valid(st.net.log, FragId(c, q, i)))
      && (forall i :: 0 <= i < n ==>
            PartOf(st.net.log, FragId(c, q, i)) == Part(Owner(cfg, argv[i + 1]), ["GET", argv[i + 1]], false))
      && Answer(st.net, c, q) == ArrayHeader(n) + Joined(Replies(st.net.done, c, q, n))
  {
    RunsOk(cfg, steps);
    var st := After(cfg, steps).value;
    hide After;
    var entry := Log(st.net.log, c)[q];
    assert EntryOk(cfg, c, entry);
    MGetRoute(cfg, c.shard, entry.argv);
  }

  lemma MGetRoute<V>(cfg: Config<V>, here: nat, argv: Argv)
    requires TableOk(cfg) && argv != [] && Lower(argv[0]) == "mget"
    requires Touched(cfg, argv) != [] && !OneOwner(cfg, Touched(cfg, argv))
    ensures var r := RouteOf(cfg, here, argv);
      && r.Remote? && r.kind == MGet && |r.parts| == |argv| - 1
      && forall i :: 0 <= i < |argv| - 1 ==> r.parts[i] == Part(Owner(cfg, argv[i + 1]), ["GET", argv[i + 1]], false)
  {
    var keys := Touched(cfg, argv);
    forall i | 0 <= i < |argv|
      ensures i < |keys| <==> i < |argv| - 1
      ensures i < |keys| ==> keys[i] == argv[i + 1]
    {
      KeyPositions(argv, 1, |argv| - 1, 1, i);
    }
    KeyPositions(argv, 1, |argv| - 1, 1, |argv| - 1);
    KeyPositions(argv, 1, |argv| - 1, 1, |keys|);
    var r := RouteOf(cfg, here, argv);
    assert |keys| == |argv| - 1;
    forall i | 0 <= i < |argv| - 1
      ensures r.parts[i] == Part(Owner(cfg, argv[i + 1]), ["GET", argv[i + 1]], false)
    {
      assert r.parts[i] == SplitPart(cfg, MGet, argv, keys, i);
    }
  }
}

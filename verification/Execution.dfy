/** What shards execute: each runs its commands one after another, and the replies sent come from those executions. */
module Executions {
  import opened Options
  import opened Resp
  import opened Pipelines
  import opened Routing
  import opened Protocols
  import opened ReplyOrder
  import opened ShardOrder
  import opened Quiescence

  // ---------------------------------------------------------------------------
  // A shard alone
  // ---------------------------------------------------------------------------

  /** What changes a shard's keyspace: a command, or the expiry of some keys. */
  datatype Act = Command(argv: Argv) | Expire(keys: set<string>)

  datatype Outcome = Outcome(args: Argv, reply: string)

  datatype Played<V> = Played(db: map<string, V>, outcomes: seq<Outcome>)

  /** A shard with an empty keyspace that does these things one after another. */
  ghost function Play<V>(cfg: Config<V>, acts: seq<Act>): Played<V> {
    if acts == [] then Played(map[], [])
    else
      var last := |acts| - 1;
      var before := Play(cfg, acts[..last]);
      match acts[last]
      case Expire(keys) => before.(db := before.db - keys)
      case Command(argv) =>
        if argv == [] then before
        else
          var (db, reply) := Execute(cfg, before.db, argv);
          Played(db, before.outcomes + [Outcome(argv, reply)])
  }

  /** The expiries of shard `s` in a run. */
  function Expiries(steps: seq<Step>, s: nat): seq<set<string>> {
    if steps == [] then []
    else
      var last := steps[|steps| - 1];
      Expiries(steps[..|steps| - 1], s) + if last.Tick? && last.s == s then [last.keys] else []
  }

  function ExpiriesOf(acts: seq<Act>): seq<set<string>> {
    if acts == [] then []
    else
      var last := acts[|acts| - 1];
      ExpiriesOf(acts[..|acts| - 1]) + if last.Expire? then [last.keys] else []
  }

  function Outcomes(events: seq<Event>): (r: seq<Outcome>)
    ensures |r| == |events|
  {
    if events == [] then []
    else
      var last := events[|events| - 1];
      Outcomes(events[..|events| - 1]) + [Outcome(last.args, last.reply)]
  }

  /** What one step does on shard `s`, if anything. */
  ghost function ActOf<V>(cfg: Config<V>, st: Sys<V>, step: Step, s: nat): Option<Act>
    requires TableOk(cfg) && Shaped(cfg, st) && Enabled(cfg, st, step)
  {
    if step.Tick? && step.s == s then Some(Expire(step.keys))
    else if step.Submit? && step.c.shard == s && RouteOf(cfg, s, step.argv).Inline? then Some(Command(step.argv))
    else if step.Deliver? && step.s == s && st.net.mail[s][0].Request? then Some(Command(st.net.mail[s][0].args))
    else None
  }

  ghost predicate Acts<V>(cfg: Config<V>, db: map<string, V>, events: seq<Event>, act: Option<Act>,
      db': map<string, V>, events': seq<Event>) {
    match act
    case None => db' == db && events' == events
    case Some(Expire(keys)) => db' == db - keys && events' == events
    case Some(Command(argv)) =>
      && argv != [] && db' == Execute(cfg, db, argv).0
      && |events'| == |events| + 1 && events'[..|events|] == events
      && events'[|events|].args == argv && events'[|events|].reply == Execute(cfg, db, argv).1
  }

  lemma StepActs<V>(cfg: Config<V>, st: Sys<V>, step: Step, s: nat)
    requires TableOk(cfg) && Shaped(cfg, st) && Enabled(cfg, st, step) && s < cfg.shards
    ensures var st' := Next(cfg, st, step);
      && |st'.db| == |st'.trace| == cfg.shards
      && Acts(cfg, st.db[s], st.trace[s], ActOf(cfg, st, step, s), st'.db[s], st'.trace[s])
  {
    hide Execute, RouteOf, TableOk, Flushed, Completed, WithSlot;
    match step
    case Submit(c, argv) => SubmitActs(cfg, st, c, argv, s);
    case Deliver(t) => DeliverActs(cfg, st, t, s);
    case _ =>
  }

  lemma SubmitActs<V>(cfg: Config<V>, st: Sys<V>, c: ConnId, argv: Argv, s: nat)
    requires TableOk(cfg) && Shaped(cfg, st) && Enabled(cfg, st, Submit(c, argv)) && s < cfg.shards
    ensures var st' := Submitted(cfg, st, c, argv);
      && |st'.db| == |st'.trace| == cfg.shards
      && Acts(cfg, st.db[s], st.trace[s], ActOf(cfg, st, Submit(c, argv), s), st'.db[s], st'.trace[s])
  {
    hide Execute, RouteOf, TableOk, WithSlot;
  }

  lemma DeliverActs<V>(cfg: Config<V>, st: Sys<V>, t: nat, s: nat)
    requires TableOk(cfg) && Shaped(cfg, st) && Enabled(cfg, st, Deliver(t)) && s < cfg.shards
    ensures var st' := Delivered(cfg, st, t);
      && |st'.db| == |st'.trace| == cfg.shards
      && Acts(cfg, st.db[s], st.trace[s], ActOf(cfg, st, Deliver(t), s), st'.db[s], st'.trace[s])
  {
    hide Execute, RouteOf, TableOk, Completed;
  }

  /** Doing one more thing. */
  lemma PlayMore<V>(cfg: Config<V>, acts: seq<Act>, db: map<string, V>, events: seq<Event>, act: Option<Act>,
      db': map<string, V>, events': seq<Event>) returns (acts': seq<Act>)
    requires Play(cfg, acts) == Played(db, Outcomes(events)) && Acts(cfg, db, events, act, db', events')
    ensures acts' == acts + (if act.Some? then [act.value] else [])
    ensures Play(cfg, acts') == Played(db', Outcomes(events'))
    ensures ExpiriesOf(acts') == ExpiriesOf(acts) + if act.Some? && act.value.Expire? then [act.value.keys] else []
  {
    hide Execute;
    acts' := acts + (if act.Some? then [act.value] else []);
    assert act.Some? ==> acts'[..|acts|] == acts;
    assert act == None ==> acts' == acts;
  }

  /** On every run, a shard's keyspace and the replies it produced are those of running the commands of its trace one
      after another from an empty keyspace, with only the run's expiries of that shard in between. */
  lemma {:induction false} RunsInTurn<V>(cfg: Config<V>, steps: seq<Step>, s: nat) returns (acts: seq<Act>)
    requires TableOk(cfg) && After(cfg, steps).Some? && s < cfg.shards
    ensures var st := After(cfg, steps).value;
      && s < |st.db| && s < |st.trace|
      && Play(cfg, acts) == Played(st.db[s], Outcomes(st.trace[s]))
    ensures ExpiriesOf(acts) == Expiries(steps, s)
  {
    hide TableOk, SysOk, Shaped, Enabled, Next, ActOf, Acts, Play, Outcomes, ExpiriesOf;
    if steps == [] {
      acts := [];
      NothingPlayed(cfg, s);
    } else {
      var last := |steps| - 1;
      RunsOk(cfg, steps[..last]);
      var before := RunsInTurn(cfg, steps[..last], s);
      var st := After(cfg, steps[..last]).value;
      StepActs(cfg, st, steps[last], s);
      var st' := Next(cfg, st, steps[last]);
      acts := PlayMore(cfg, before, st.db[s], st.trace[s], ActOf(cfg, st, steps[last], s), st'.db[s], st'.trace[s]);
      ExpiryStep(cfg, st, steps[last], s);
    }
  }

  lemma NothingPlayed<V>(cfg: Config<V>, s: nat)
    requires s < cfg.shards
    ensures var st: Sys<V> := Start(cfg);
      && s < |st.db| && s < |st.trace| && Play(cfg, []) == Played(st.db[s], Outcomes(st.trace[s]))
    ensures ExpiriesOf([]) == []
  {
  }

  lemma ExpiryStep<V>(cfg: Config<V>, st: Sys<V>, step: Step, s: nat)
    requires TableOk(cfg) && Shaped(cfg, st) && Enabled(cfg, st, step)
    ensures var act := ActOf(cfg, st, step, s);
      (if act.Some? && act.value.Expire? then [act.value.keys] else [])
      == if step.Tick? && step.s == s then [step.keys] else []
  {
    hide RouteOf, Shaped, TableOk;
  }

  // ---------------------------------------------------------------------------
  // Commands run straight from their connection
  // ---------------------------------------------------------------------------

  /** If the `q`th command of a connection was to run on its own shard, it has, with the reply on record. */
  ghost predicate InlineRan<V>(cfg: Config<V>, st: Sys<V>, c: ConnId, q: nat)
    requires q < |Log(st.net.log, c)|
  {
    var e := Log(st.net.log, c)[q];
    e.argv != [] && RouteOf(cfg, c.shard, e.argv).Inline? ==>
      && e.plan.Immediate? && c.shard < |st.trace|
      && Ran(FragId(c, q, 0), false, e.argv, e.plan.reply) in st.trace[c.shard]
  }

  ghost predicate InlinesRan<V>(cfg: Config<V>, st: Sys<V>) {
    forall c, q :: 0 <= q < |Log(st.net.log, c)| ==> InlineRan(cfg, st, c, q)
  }

  lemma InlineFrame<V>(cfg: Config<V>, st: Sys<V>, st': Sys<V>, c: ConnId, q: nat)
    requires q < |Log(st.net.log, c)| && InlineRan(cfg, st, c, q)
    requires Log(st.net.log, c) <= Log(st'.net.log, c) && |st'.trace| == |st.trace|
    requires forall s :: 0 <= s < |st.trace| ==> st.trace[s] <= st'.trace[s]
    ensures InlineRan(cfg, st', c, q)
  {
    hide RouteOf;
    assert Log(st'.net.log, c)[q] == Log(st.net.log, c)[q];
  }

  /** Traces only grow. */
  lemma TracesGrow<V>(cfg: Config<V>, st: Sys<V>, step: Step)
    requires TableOk(cfg) && Shaped(cfg, st) && Enabled(cfg, st, step)
    ensures var st' := Next(cfg, st, step);
      |st'.trace| == |st.trace| && forall s :: 0 <= s < |st.trace| ==> st.trace[s] <= st'.trace[s]
  {
    hide Next, Enabled, ActOf, TableOk, Execute;
    assert |st.trace| == cfg.shards;
    hide Shaped;
    forall s | 0 <= s < |st.trace|
      ensures |Next(cfg, st, step).trace| == |st.trace| && st.trace[s] <= Next(cfg, st, step).trace[s]
    {
      StepActs(cfg, st, step, s);
    }
    if cfg.shards > 0 {
      StepActs(cfg, st, step, 0);
    }
  }

  /** A command that runs inline is logged with the reply of its execution. */
  lemma InlineLands<V>(cfg: Config<V>, st: Sys<V>, c: ConnId, argv: Argv)
    requires TableOk(cfg) && Shaped(cfg, st) && Enabled(cfg, st, Submit(c, argv))
    ensures var st' := Submitted(cfg, st, c, argv);
      |Log(st.net.log, c)| < |Log(st'.net.log, c)| && InlineRan(cfg, st', c, |Log(st.net.log, c)|)
  {
    hide Execute, RouteOf, TableOk, WithSlot, PostUpTo;
    var st' := Submitted(cfg, st, c, argv);
    var q := |Log(st.net.log, c)|;
    assert Log(st'.net.log, c)[q].argv == argv;
    if RouteOf(cfg, c.shard, argv).Inline? {
      var e := Ran(FragId(c, q, 0), false, argv, Execute(cfg, st.db[c.shard], argv).1);
      assert st'.trace[c.shard][|st.trace[c.shard]|] == e;
    }
  }

  lemma NextInlines<V>(cfg: Config<V>, st: Sys<V>, step: Step)
    requires TableOk(cfg) && SysOk(cfg, st) && Shaped(cfg, st) && Enabled(cfg, st, step) && InlinesRan(cfg, st)
    ensures InlinesRan(cfg, Next(cfg, st, step))
  {
    hide TableOk, SysOk, Shaped, InlineRan, Submitted, Log;
    var st' := Next(cfg, st, step);
    TracesGrow(cfg, st, step);
    forall c, q | 0 <= q < |Log(st'.net.log, c)|
      ensures InlineRan(cfg, st', c, q)
    {
      LogGrows(cfg, st, step, c);
      if q < |Log(st.net.log, c)| {
        InlineFrame(cfg, st, st', c, q);
      } else if step.Submit? {
        InlineLands(cfg, st, c, step.argv);
      } else {
        NoCommand(cfg, st', c, q);
      }
    }
  }

  lemma NoCommand<V>(cfg: Config<V>, st: Sys<V>, c: ConnId, q: nat)
    requires q < |Log(st.net.log, c)| && Log(st.net.log, c)[q].argv == []
    ensures InlineRan(cfg, st, c, q)
  {
  }

  lemma {:induction false} RunsInline<V>(cfg: Config<V>, steps: seq<Step>)
    requires TableOk(cfg) && After(cfg, steps).Some?
    ensures InlinesRan(cfg, After(cfg, steps).value)
  {
    hide TableOk, SysOk, Shaped, Next, Enabled, InlinesRan;
    if steps == [] {
      assert InlinesRan(cfg, Start(cfg)) by { NothingLogged(cfg); }
    } else {
      var last := |steps| - 1;
      RunsOk(cfg, steps[..last]);
      RunsInline(cfg, steps[..last]);
      NextInlines(cfg, After(cfg, steps[..last]).value, steps[last]);
    }
  }

  lemma NothingLogged<V>(cfg: Config<V>)
    ensures InlinesRan(cfg, Start(cfg))
  {
  }

  // ---------------------------------------------------------------------------
  // Where the bytes of an answer come from
  // ---------------------------------------------------------------------------

  /** Part `k` of command `q` ran on its target with this reply. */
  ghost predicate PartRan<V>(st: Sys<V>, c: ConnId, q: nat, k: nat, p: Part, reply: string) {
    p.target < |st.trace| && Ran(FragId(c, q, k), true, p.args, reply) in st.trace[p.target]
  }

  /** The answer to command `q` is its refusal, the reply of its one execution, or put together from the replies of
      its parts' executions. */
  ghost predicate Earned<V>(cfg: Config<V>, st: Sys<V>, c: ConnId, q: nat)
    requires AllDone(st.net, c, q)
  {
    var argv := Log(st.net.log, c)[q].argv;
    if argv == [] then exists text :: Answer(st.net, c, q) == Complaint(text)
    else match RouteOf(cfg, c.shard, argv)
      case Fail(reply) => Answer(st.net, c, q) == reply
      case Inline =>
        c.shard < |st.trace| && Ran(FragId(c, q, 0), false, argv, Answer(st.net, c, q)) in st.trace[c.shard]
      case Remote(kind, parts) =>
        exists replies: seq<string> ::
          && |replies| == |parts| && Answer(st.net, c, q) == Assembled(kind, replies, SumOf(replies))
          && forall k :: 0 <= k < |parts| ==> PartRan(st, c, q, k, parts[k], replies[k])
      case Overrun => false
  }

  /** On every run, every answer is earned, and what a connection has been sent is its first answers in submission
      order. */
  lemma RepliesEarned<V>(cfg: Config<V>, steps: seq<Step>, c: ConnId)
    requires TableOk(cfg) && After(cfg, steps).Some?
    ensures var st := After(cfg, steps).value;
      && (forall q :: AllDone(st.net, c, q) ==> Earned(cfg, st, c, q))
      && (c in st.conns ==>
            var conn := st.conns[c];
            Base(conn) <= |Log(st.net.log, c)| && conn.out == Answers(st.net, c, Base(conn))
            && forall q :: 0 <= q < Base(conn) ==> AllDone(st.net, c, q))
  {
    var st := After(cfg, steps).value;
    EachRunsOnce(cfg, steps);
    RunsInline(cfg, steps);
    LogIsInput(cfg, steps, c);
    hide After, TableOk, EntryOk, AllDone, Earned, Recorded, InlinesRan, Interval, Answers;
    forall q | AllDone(st.net, c, q)
      ensures Earned(cfg, st, c, q)
    {
      DoneIsLogged(st.net, c, q);
      AnswerEarned(cfg, st, c, q);
    }
    if c in st.conns {
      RepliesInOrder(cfg, steps, c);
      AnsweredAreLogged(st.conns[c]);
    }
  }

  lemma DoneIsLogged(net: Net, c: ConnId, q: nat)
    requires AllDone(net, c, q)
    ensures q < |Log(net.log, c)|
  {
  }

  lemma AnsweredAreLogged(conn: Conn)
    requires Interval(conn)
    ensures Base(conn) <= conn.nextSeq
  {
  }

  lemma AnswerEarned<V>(cfg: Config<V>, st: Sys<V>, c: ConnId, q: nat)
    requires AllDone(st.net, c, q) && EntryOk(cfg, c, Log(st.net.log, c)[q])
    requires Recorded(cfg, st) && InlinesRan(cfg, st)
    ensures Earned(cfg, st, c, q)
  {
    hide RouteOf, Recorded;
    var e := Log(st.net.log, c)[q];
    if e.argv != [] {
      assert InlineRan(cfg, st, c, q);
      if e.plan.Parts? {
        var replies := Replies(st.net.done, c, q, |e.plan.parts|);
        forall k | 0 <= k < |e.plan.parts|
          ensures PartRan(st, c, q, k, e.plan.parts[k], replies[k])
        {
          PartEarned(cfg, st, FragId(c, q, k));
        }
      }
    }
  }

  lemma PartEarned<V>(cfg: Config<V>, st: Sys<V>, x: FragId)
    requires Recorded(cfg, st) && x in st.net.done
    ensures Valid(st.net.log, x)
    ensures PartRan(st, x.conn, x.turn, x.index, PartOf(st.net.log, x), st.net.done[x])
  {
    var p := PartOf(st.net.log, x);
    assert HasRun(st.trace[p.target], x, p.args, st.net.done[x]);
  }
}

/** A split command in a run of the whole server: what its parts leave and what its connection is sent. */
module SplitRuns {
  import opened Options
  import opened Resp
  import opened Pipelines
  import opened Routing
  import opened Protocols
  import opened ReplyOrder
  import opened ShardOrder
  import opened Quiescence
  import H = Handlers
  import R = Replay
  import S = Splits

  // ---------------------------------------------------------------------------
  // The handlers behind the protocol
  // ---------------------------------------------------------------------------

  /** The protocol's handlers are the command handlers, wherever those are modelled and defined. */
  ghost predicate Serves(cfg: Config<H.Obj>, ext: H.Outside) {
    forall db: H.Db, argv: Argv :: R.Modelled(argv) && R.Exec(ext, db, argv).Effect? ==>
      cfg.handler(db, argv) == (R.Exec(ext, db, argv).db, R.Exec(ext, db, argv).reply)
  }

  /** Rows of the table. */
  lemma ReadRows()
    ensures R.VerbOf("get") == None && R.VerbOf("exists") == None && R.VerbOf("mget") == None
    ensures R.ReadArity("get") == Some(2) && R.ReadArity("exists") == Some(-2) && R.ReadArity("mget") == Some(-2)
  {
  }

  lemma WriteRows()
    ensures R.VerbOf("set") == Some(R.SET) && R.VerbOf("mset") == Some(R.MSET)
    ensures R.VerbOf("del") == Some(R.DEL) && R.VerbOf("unlink") == Some(R.UNLINK)
  {
  }

  lemma KindRows()
    ensures KindOf("mget") == MGet && KindOf("mset") == MSet && KindOf("exists") == ExistsCount
    ensures KindOf("del") == DelCount && KindOf("unlink") == DelCount
  {
  }

  lemma NotForeign(name: string)
    requires name in {"get", "set", "exists", "del", "mget", "mset", "unlink"}
    ensures !R.Foreign(name) && !R.Flushes(name)
  {
  }

  /** A part's own arguments reach the handler the split lemmas speak of. */
  lemma SubIsExec(ext: H.Outside, db: H.Db, args: Argv)
    requires S.SubExec(db, args).Effect?
    ensures R.Modelled(args) && R.Exec(ext, db, args) == S.SubExec(db, args)
  {
    SubCommandNames();
    ReadRows();
    WriteRows();
    hide Lower, R.VerbOf, R.ReadArity, R.Foreign, R.Flushes, H.Get, H.SetString, H.Exists, H.Del;
    NotForeign("get");
    NotForeign("set");
    NotForeign("exists");
    NotForeign("del");
  }

  lemma PartRuns(cfg: Config<H.Obj>, ext: H.Outside, db: H.Db, j: S.Job, i: nat)
    requires TableOk(cfg) && Serves(cfg, ext) && S.JobOk(j) && i < |j.keys|
    ensures var args := SubArgs(j.kind, j.argv, j.keys[i], i);
      && args != [] && S.SubExec(db, args).Effect?
      && Execute(cfg, db, args) == (S.SubExec(db, args).db, S.SubExec(db, args).reply)
  {
    var args := SubArgs(j.kind, j.argv, j.keys[i], i);
    S.PartIsPoint(j, i, db);
    SubCommandNames();
    SubIsExec(ext, db, args);
    hide Lower, R.Exec, S.SubExec, R.Modelled;
  }

  /** The commands that are split, other than TOUCH, run unsplit by the handler the split lemmas compare with. */
  lemma LocalIsExec(ext: H.Outside, j: S.Job, whole: H.Db)
    requires S.JobOk(j) && Lower(j.argv[0]) in {"mget", "mset", "del", "unlink", "exists"} &&
      j.kind == KindOf(Lower(j.argv[0]))
    ensures R.Modelled(j.argv) && R.Exec(ext, whole, j.argv) == S.Local(j, whole)
  {
    var name := Lower(j.argv[0]);
    KindRows();
    NotForeign(name);
    LocalRows(ext, name, j.argv, whole);
    hide KindOf, Lower, R.Exec, R.Foreign, H.MGetMany, H.MSetMany, H.Exists, H.Del;
  }

  lemma LocalRows(ext: H.Outside, name: string, argv: Argv, whole: H.Db)
    requires argv != [] && name == Lower(argv[0]) && !R.Foreign(name) && !R.Flushes(name)
    ensures name == "mget" && |argv| >= 2 ==> R.Exec(ext, whole, argv) == H.MGetMany(whole, argv)
    ensures name == "mset" && |argv| >= 3 ==> R.Exec(ext, whole, argv) == H.MSetMany(whole, argv)
    ensures name == "exists" && |argv| >= 2 ==> R.Exec(ext, whole, argv) == H.Exists(whole, argv)
    ensures name in {"del", "unlink"} && |argv| >= 2 ==> R.Exec(ext, whole, argv) == H.Del(whole, argv)
  {
    ReadRows();
    WriteRows();
    hide Lower, R.VerbOf, R.ReadArity, R.Foreign, R.Flushes, H.MGetMany, H.MSetMany, H.Exists, H.Del;
  }

  // ---------------------------------------------------------------------------
  // The parts of one command in the network
  // ---------------------------------------------------------------------------

  /** A counted message is somewhere. */
  lemma {:induction false} CountFinds(sel: Sel, s: nat, queue: seq<Msg>) returns (i: nat)
    requires Count(sel, s, queue) > 0
    ensures i < |queue| && Hit(sel, s, queue[i])
  {
    if Hit(sel, s, queue[0]) {
      i := 0;
    } else {
      i := CountFinds(sel, s, queue[1..]);
      i := i + 1;
    }
  }

  lemma {:induction false} TotalFinds(sel: Sel, mail: seq<seq<Msg>>, n: nat) returns (s: nat, i: nat)
    requires n <= |mail| && TotalTo(sel, mail, n) > 0
    ensures s < |mail| && i < |mail[s]| && Hit(sel, s, mail[s][i])
  {
    if Count(sel, n - 1, mail[n - 1]) > 0 {
      s := n - 1;
      i := CountFinds(sel, s, mail[s]);
    } else {
      s, i := TotalFinds(sel, mail, n - 1);
    }
  }

  lemma {:induction false} RequestPlace(queue: seq<Msg>, p: nat) returns (b: nat)
    requires p < |queue| && queue[p].Request?
    ensures b < |RequestsOf(queue)| && RequestsOf(queue)[b] == queue[p].frag
    ensures p > 0 && queue[0].Request? ==> b > 0
  {
    if p == 0 {
      b := 0;
    } else {
      b := RequestPlace(queue[1..], p - 1);
      if queue[0].Request? {
        b := b + 1;
      }
    }
  }

  /** A request that waits behind another of its connection was posted later. */
  lemma BehindIsLater(events: seq<Event>, queue: seq<Msg>, p: nat)
    requires Ascending(Flow(events, queue)) && 0 < p < |queue| && queue[0].Request? && queue[p].Request?
    requires queue[0].frag.conn == queue[p].frag.conn
    ensures Before(queue[0].frag, queue[p].frag)
  {
    var b := RequestPlace(queue, p);
    var n := |QueuedOf(events)|;
    assert Flow(events, queue)[n] == queue[0].frag && Flow(events, queue)[n + b] == queue[p].frag;
  }

  /** A request that has run was posted before one that waits. */
  lemma RanIsEarlier(events: seq<Event>, queue: seq<Msg>, p: nat)
    requires Ascending(Flow(events, queue)) && queue != [] && queue[0].Request? && p < |events| && events[p].queued
    requires events[p].frag.conn == queue[0].frag.conn
    ensures Before(events[p].frag, queue[0].frag)
  {
    var a := QueuedPlace(events, p);
    assert Flow(events, queue)[a] == events[p].frag && Flow(events, queue)[|QueuedOf(events)|] == queue[0].frag;
  }

  /** All that is asked of the network is the parts of command `q` of connection `c`. */
  ghost predicate OnlyAsked(net: Net, c: ConnId, q: nat) {
    forall x :: Valid(net.log, x) && x !in net.done ==> x.conn == c && x.turn == q
  }

  /** The request at the head of a mailbox is the next part for its shard. */
  lemma HeadIsNext<V>(cfg: Config<V>, st: Sys<V>, c: ConnId, q: nat, s: nat)
    requires TableOk(cfg) && SysOk(cfg, st) && OrderOk(cfg, st) && Recorded(cfg, st) && OnlyAsked(st.net, c, q)
    requires s < |st.net.mail| && st.net.mail[s] != [] && st.net.mail[s][0].Request?
    ensures var x := st.net.mail[s][0].frag;
      && x.conn == c && x.turn == q && Valid(st.net.log, x) && x !in st.net.done
      && PartOf(st.net.log, x).target == s && PartOf(st.net.log, x).args == st.net.mail[s][0].args
      && forall k: nat :: Valid(st.net.log, FragId(c, q, k)) && PartOf(st.net.log, FragId(c, q, k)).target == s ==>
        (FragId(c, q, k) in st.net.done <==> k < x.index)
  {
    HeadOk(cfg, st, s);
    var x := st.net.mail[s][0].frag;
    hide TableOk, AtHome, SysOk, OrderOk, Recorded;
    forall k: nat | Valid(st.net.log, FragId(c, q, k)) && PartOf(st.net.log, FragId(c, q, k)).target == s
      ensures FragId(c, q, k) in st.net.done <==> k < x.index
    {
      if FragId(c, q, k) in st.net.done {
        DoneIsEarlier(cfg, st, s, FragId(c, q, k));
      } else if k != x.index {
        AskedIsLater(cfg, st, s, FragId(c, q, k));
      }
    }
  }

  lemma DoneIsEarlier<V>(cfg: Config<V>, st: Sys<V>, s: nat, y: FragId)
    requires OrderOk(cfg, st) && Recorded(cfg, st) && y in st.net.done && PartOf(st.net.log, y).target == s
    requires s < |st.net.mail| && st.net.mail[s] != [] && st.net.mail[s][0].Request?
    requires st.net.mail[s][0].frag.conn == y.conn
    ensures Before(y, st.net.mail[s][0].frag)
  {
    hide RanOk, Ascending, Logged, InlineLater, Flow;
    assert HasRun(st.trace[s], y, PartOf(st.net.log, y).args, st.net.done[y]);
    var p :| 0 <= p < |st.trace[s]| && st.trace[s][p] == Ran(y, true, PartOf(st.net.log, y).args, st.net.done[y]);
    assert Ascending(Flow(st.trace[s], st.net.mail[s]));
    RanIsEarlier(st.trace[s], st.net.mail[s], p);
  }

  lemma AskedIsLater<V>(cfg: Config<V>, st: Sys<V>, s: nat, y: FragId)
    requires SysOk(cfg, st) && OrderOk(cfg, st) && Valid(st.net.log, y) && y !in st.net.done
    requires PartOf(st.net.log, y).target == s && s < |st.net.mail| && st.net.mail[s] != []
    requires st.net.mail[s][0].Request?
    requires st.net.mail[s][0].frag.conn == y.conn && st.net.mail[s][0].frag != y
    ensures Before(st.net.mail[s][0].frag, y)
  {
    var t, p := WhereAsked(st.net, y);
    assert Ascending(Flow(st.trace[s], st.net.mail[s]));
    hide NetOk, ConnOk, EntryOk, RanOk, Ascending, Logged, InlineLater, Flow;
    BehindIsLater(st.trace[s], st.net.mail[s], p);
  }

  lemma WhereAsked(net: Net, y: FragId) returns (t: nat, p: nat)
    requires NetOk(net) && Valid(net.log, y) && y !in net.done
    ensures t == PartOf(net.log, y).target && t < |net.mail| && p < |net.mail[t]|
    ensures net.mail[t][p].Request? && net.mail[t][p].frag == y
  {
    assert Total(ReqOf(y), net.mail) == 1;
    t, p := TotalFinds(ReqOf(y), net.mail, |net.mail|);
    assert MsgOk(net, t, net.mail[t][p]);
  }

  // ---------------------------------------------------------------------------
  // A split command under way
  // ---------------------------------------------------------------------------

  /** Command `q` of connection `c` was split into the parts of the job. */
  ghost predicate Planned(cfg: Config<H.Obj>, net: Net, c: ConnId, q: nat, j: S.Job)
    requires S.JobOk(j)
  {
    && q < |Log(net.log, c)| && Log(net.log, c)[q].plan.Parts?
    && var plan := Log(net.log, c)[q].plan;
      && plan.kind == j.kind && |plan.parts| == |j.keys|
      && forall i :: 0 <= i < |j.keys| ==>
        plan.parts[i].target == Owner(cfg, j.keys[i]) && plan.parts[i].args == SubArgs(j.kind, j.argv, j.keys[i], i)
  }

  ghost function PartsDone(net: Net, c: ConnId, q: nat, n: nat): set<nat> {
    set i | 0 <= i < n && FragId(c, q, i) in net.done
  }

  ghost function ProgressOf(st: Sys<H.Obj>, c: ConnId, q: nat, n: nat): S.Progress {
    S.Progress(st.db, map i | i in PartsDone(st.net, c, q, n) :: st.net.done[FragId(c, q, i)])
  }

  /** The parts that have run have done to the keyspaces what they should, and no other request is about. */
  ghost predicate Underway(cfg: Config<H.Obj>, st: Sys<H.Obj>, c: ConnId, q: nat, j: S.Job, whole: H.Db)
    requires S.JobOk(j)
  {
    && Planned(cfg, st.net, c, q, j) && OnlyAsked(st.net, c, q)
    && S.Reached(cfg, j, whole, PartsDone(st.net, c, q, |j.keys|), ProgressOf(st, c, q, |j.keys|))
  }

  lemma PlannedPart(cfg: Config<H.Obj>, net: Net, c: ConnId, q: nat, j: S.Job, k: nat)
    requires S.JobOk(j) && Planned(cfg, net, c, q, j)
    ensures Valid(net.log, FragId(c, q, k)) <==> k < |j.keys|
    ensures k < |j.keys| ==>
      && PartOf(net.log, FragId(c, q, k)).target == Owner(cfg, j.keys[k])
      && PartOf(net.log, FragId(c, q, k)).args == SubArgs(j.kind, j.argv, j.keys[k], k)
  {
    hide S.JobOk;
  }

  /** One more reply on record. */
  lemma OneMoreDone(st: Sys<H.Obj>, st': Sys<H.Obj>, c: ConnId, q: nat, n: nat, i: nat, db: seq<H.Db>, reply: string)
    requires i < n && st'.net.done == st.net.done[FragId(c, q, i) := reply] && st'.db == db
    ensures PartsDone(st'.net, c, q, n) == PartsDone(st.net, c, q, n) + {i}
    ensures ProgressOf(st', c, q, n) == S.Progress(db, ProgressOf(st, c, q, n).replies[i := reply])
  {
  }

  lemma NoMoreDone(st: Sys<H.Obj>, st': Sys<H.Obj>, c: ConnId, q: nat, n: nat)
    requires st'.net.done == st.net.done && st'.db == st.db
    ensures PartsDone(st'.net, c, q, n) == PartsDone(st.net, c, q, n)
    ensures ProgressOf(st', c, q, n) == ProgressOf(st, c, q, n)
  {
  }

  lemma DeliverUnderway(cfg: Config<H.Obj>, ext: H.Outside, st: Sys<H.Obj>, s: nat, c: ConnId, q: nat, j: S.Job,
      whole: H.Db)
    requires TableOk(cfg) && Serves(cfg, ext) && S.JobOk(j) && s < |st.net.mail| && st.net.mail[s] != []
    requires SysOk(cfg, st) && Shaped(cfg, st) && OrderOk(cfg, st) && Recorded(cfg, st)
    requires Underway(cfg, st, c, q, j, whole)
    ensures Underway(cfg, Delivered(cfg, st, s), c, q, j, whole)
  {
    hide *;
    if st.net.mail[s][0].Request? {
      RunUnderway(cfg, ext, st, s, c, q, j, whole);
    } else {
      ArriveUnderway(cfg, st, s, c, q, j, whole);
    }
  }

  lemma ArriveUnderway(cfg: Config<H.Obj>, st: Sys<H.Obj>, s: nat, c: ConnId, q: nat, j: S.Job, whole: H.Db)
    requires S.JobOk(j) && Shaped(cfg, st) && s < |st.net.mail| && st.net.mail[s] != [] && st.net.mail[s][0].Completion?
    requires Underway(cfg, st, c, q, j, whole)
    ensures Underway(cfg, Delivered(cfg, st, s), c, q, j, whole)
  {
    hide S.Reached, S.JobOk, Shaped, Completed, Valid, PartsDone, ProgressOf;
    NoMoreDone(st, Delivered(cfg, st, s), c, q, |j.keys|);
  }

  lemma UnderwayMeans(cfg: Config<H.Obj>, st: Sys<H.Obj>, c: ConnId, q: nat, j: S.Job, whole: H.Db)
    requires S.JobOk(j)
    ensures var n := |j.keys|;
      Underway(cfg, st, c, q, j, whole) <==>
        && Planned(cfg, st.net, c, q, j) && OnlyAsked(st.net, c, q)
        && S.Reached(cfg, j, whole, PartsDone(st.net, c, q, n), ProgressOf(st, c, q, n))
    ensures ProgressOf(st, c, q, |j.keys|).dbs == st.db
  {
    hide S.Reached, S.JobOk, Planned, OnlyAsked;
  }

  lemma DoneMeans(net: Net, c: ConnId, q: nat, n: nat, k: nat)
    requires k < n
    ensures k in PartsDone(net, c, q, n) <==> FragId(c, q, k) in net.done
  {
  }

  /** Running a request records its reply and changes one shard's keyspace. */
  lemma RunsOne<V>(cfg: Config<V>, st: Sys<V>, s: nat)
    requires Shaped(cfg, st) && s < |st.net.mail| && st.net.mail[s] != [] && st.net.mail[s][0].Request?
    ensures var m, st' := st.net.mail[s][0], Delivered(cfg, st, s);
      && s < |st.db| && m.args != []
      && st'.net.log == st.net.log && st'.net.done == st.net.done[m.frag := Execute(cfg, st.db[s], m.args).1]
      && st'.db == st.db[s := Execute(cfg, st.db[s], m.args).0]
  {
    hide Execute;
  }

  lemma AskedLess(net: Net, net': Net, c: ConnId, q: nat)
    requires OnlyAsked(net, c, q) && net'.log == net.log && forall x :: x in net.done ==> x in net'.done
    ensures OnlyAsked(net', c, q)
  {
    hide Valid;
  }

  lemma StillPlanned(cfg: Config<H.Obj>, net: Net, net': Net, c: ConnId, q: nat, j: S.Job)
    requires S.JobOk(j) && Planned(cfg, net, c, q, j) && net'.log == net.log
    ensures Planned(cfg, net', c, q, j)
  {
    hide S.JobOk;
  }

  lemma RunUnderway(cfg: Config<H.Obj>, ext: H.Outside, st: Sys<H.Obj>, s: nat, c: ConnId, q: nat, j: S.Job,
      whole: H.Db)
    requires TableOk(cfg) && Serves(cfg, ext) && S.JobOk(j)
    requires s < |st.net.mail| && st.net.mail[s] != [] && st.net.mail[s][0].Request?
    requires SysOk(cfg, st) && Shaped(cfg, st) && OrderOk(cfg, st) && Recorded(cfg, st)
    requires Underway(cfg, st, c, q, j, whole)
    ensures Underway(cfg, Delivered(cfg, st, s), c, q, j, whole)
  {
    var x, n := st.net.mail[s][0].frag, |j.keys|;
    var ran, r := PartsDone(st.net, c, q, n), ProgressOf(st, c, q, n);
    hide *;
    UnderwayMeans(cfg, st, c, q, j, whole);
    RunsOne(cfg, st, s);
    HeadIsNext(cfg, st, c, q, s);
    PlannedPart(cfg, st.net, c, q, j, x.index);
    forall k: nat | k < n && Owner(cfg, j.keys[k]) == Owner(cfg, j.keys[x.index])
      ensures k in ran <==> k < x.index
    {
      PlannedPart(cfg, st.net, c, q, j, k);
      DoneMeans(st.net, c, q, n, k);
    }
    DoneMeans(st.net, c, q, n, x.index);
    S.OnePart(cfg, j, whole, ran, r, x.index);
    PartRuns(cfg, ext, st.db[s], j, x.index);
    var st' := Delivered(cfg, st, s);
    OneMoreDone(st, st', c, q, n, x.index, st'.db, st'.net.done[x]);
    AskedLess(st.net, st'.net, c, q);
    StillPlanned(cfg, st.net, st'.net, c, q, j);
    UnderwayMeans(cfg, st', c, q, j, whole);
  }

  // ---------------------------------------------------------------------------
  // From its submission to its reply
  // ---------------------------------------------------------------------------

  /** With empty mailboxes every request has been answered. */
  lemma QuietMeansDone<V>(cfg: Config<V>, st: Sys<V>, x: FragId)
    requires SysOk(cfg, st) && Quiet(st) && Valid(st.net.log, x)
    ensures x in st.net.done
  {
    TotalIsZero(ReqOf(x), st.net.mail);
  }

  /** What submitting a split command does to the log, the record and the keyspaces. */
  lemma SubmitSplit<V>(cfg: Config<V>, st: Sys<V>, c: ConnId, argv: Argv)
    requires TableOk(cfg) && Shaped(cfg, st) && Enabled(cfg, st, Submit(c, argv)) && RouteOf(cfg, c.shard, argv).Remote?
    ensures var st', r := Submitted(cfg, st, c, argv), RouteOf(cfg, c.shard, argv);
      && st'.net.log == WithEntry(st.net, c, Entry(argv, Parts(r.kind, r.parts))).log
      && st'.net.done == st.net.done && st'.db == st.db && c in st'.conns
  {
    RoutesHome(cfg, c.shard, argv);
    hide RouteOf, TableOk, WithSlot, PostUpTo;
  }

  lemma SubmitUnderway(cfg: Config<H.Obj>, st: Sys<H.Obj>, c: ConnId, argv: Argv, j: S.Job, whole: H.Db)
    requires TableOk(cfg) && SysOk(cfg, st) && Shaped(cfg, st) && Quiet(st) && S.Spread(cfg, st.db, whole)
    requires Enabled(cfg, st, Submit(c, argv)) && RouteOf(cfg, c.shard, argv).Remote?
    requires !RouteOf(cfg, c.shard, argv).kind.Single?
    requires j == S.Job(RouteOf(cfg, c.shard, argv).kind, argv, Touched(cfg, argv))
    ensures S.JobOk(j) && Underway(cfg, Submitted(cfg, st, c, argv), c, |Log(st.net.log, c)|, j, whole)
  {
    var r, st' := RouteOf(cfg, c.shard, argv), Submitted(cfg, st, c, argv);
    hide *;
    var entry := Entry(argv, Parts(r.kind, r.parts));
    S.RouteIsJob(cfg, c.shard, argv);
    NextSubmit(cfg, st, c, argv);
    SubmitSplit(cfg, st, c, argv);
    OnlyNewAsked(cfg, st, st'.net, c, entry);
    NewPlanned(cfg, st.net, st'.net, c, entry, j);
    NoneDone(cfg, st, st', c, |j.keys|);
    S.NothingRan(cfg, j, st.db, whole);
    UnderwayMeans(cfg, st', c, |Log(st.net.log, c)|, j, whole);
  }

  lemma OnlyNewAsked<V>(cfg: Config<V>, st: Sys<V>, net': Net, c: ConnId, entry: Entry)
    requires SysOk(cfg, st) && Quiet(st) && net'.log == WithEntry(st.net, c, entry).log && net'.done == st.net.done
    ensures OnlyAsked(net', c, |Log(st.net.log, c)|)
  {
    hide SysOk, Quiet, Valid, WithEntry;
    forall x | Valid(net'.log, x) && x !in net'.done
      ensures x.conn == c && x.turn == |Log(st.net.log, c)|
    {
      ValidGrows(st.net, c, entry, x);
      if Valid(st.net.log, x) {
        QuietMeansDone(cfg, st, x);
      }
    }
  }

  lemma NewPlanned(cfg: Config<H.Obj>, net: Net, net': Net, c: ConnId, entry: Entry, j: S.Job)
    requires S.JobOk(j) && net'.log == WithEntry(net, c, entry).log
    requires entry.plan.Parts? && entry.plan.kind == j.kind && |entry.plan.parts| == |j.keys|
    requires forall i :: 0 <= i < |j.keys| ==>
      entry.plan.parts[i].target == Owner(cfg, j.keys[i]) &&
        entry.plan.parts[i].args == SubArgs(j.kind, j.argv, j.keys[i], i)
    ensures Planned(cfg, net', c, |Log(net.log, c)|, j)
  {
    assert Log(net'.log, c)[|Log(net.log, c)|] == entry;
  }

  lemma NoneDone(cfg: Config<H.Obj>, st: Sys<H.Obj>, st': Sys<H.Obj>, c: ConnId, n: nat)
    requires SysOk(cfg, st) && st'.net.done == st.net.done && st'.db == st.db
    ensures PartsDone(st'.net, c, |Log(st.net.log, c)|, n) == {}
    ensures ProgressOf(st', c, |Log(st.net.log, c)|, n) == S.Progress(st.db, map[])
  {
    hide SysOk;
    forall i
      ensures FragId(c, |Log(st.net.log, c)|, i) !in st'.net.done
    {
      DoneIsValid(cfg, st, FragId(c, |Log(st.net.log, c)|, i));
    }
  }

  lemma DoneIsValid<V>(cfg: Config<V>, st: Sys<V>, x: FragId)
    requires SysOk(cfg, st)
    ensures x in st.net.done ==> Valid(st.net.log, x)
  {
  }

  lemma DeliverKeepsLog<V>(cfg: Config<V>, st: Sys<V>, s: nat)
    requires Shaped(cfg, st) && s < |st.net.mail| && st.net.mail[s] != []
    ensures Delivered(cfg, st, s).net.log == st.net.log && Delivered(cfg, st, s).conns.Keys == st.conns.Keys
  {
    hide Execute, Completed;
  }

  lemma {:induction false} MoreUnderway(cfg: Config<H.Obj>, ext: H.Outside, steps: seq<Step>, more: seq<Step>,
      c: ConnId, q: nat, j: S.Job, whole: H.Db)
    requires TableOk(cfg) && Serves(cfg, ext) && S.JobOk(j) && AllDeliver(more)
    requires After(cfg, steps).Some? && Underway(cfg, After(cfg, steps).value, c, q, j, whole)
    requires After(cfg, steps + more).Some?
    ensures var st, st' := After(cfg, steps).value, After(cfg, steps + more).value;
      && Underway(cfg, st', c, q, j, whole) && st'.net.log == st.net.log && st'.conns.Keys == st.conns.Keys
    decreases |more|
  {
    hide TableOk, Serves, S.JobOk, Underway, SysOk, Shaped, OrderOk, Recorded, Delivered;
    if more == [] {
      assert steps + more == steps;
    } else {
      var last := |more| - 1;
      assert (steps + more)[..|steps + more| - 1] == steps + more[..last];
      MoreUnderway(cfg, ext, steps, more[..last], c, q, j, whole);
      var st, s := After(cfg, steps + more[..last]).value, more[last].s;
      RunsOk(cfg, steps + more[..last]);
      RunsOrdered(cfg, steps + more[..last]);
      EachRunsOnce(cfg, steps + more[..last]);
      DeliverKeepsLog(cfg, st, s);
      DeliverUnderway(cfg, ext, st, s, c, q, j, whole);
    }
  }

  /** When nothing is left to deliver, the parts have done what the unsplit handler does, and the answer is put together
      from their replies. */
  lemma AnswerAgrees(cfg: Config<H.Obj>, st: Sys<H.Obj>, c: ConnId, q: nat, j: S.Job, whole: H.Db)
    requires SysOk(cfg, st) && Quiet(st) && S.JobOk(j) && Underway(cfg, st, c, q, j, whole)
    ensures var local := S.Local(j, whole);
      && local.Effect? && S.Spread(cfg, st.db, local.db)
      && (Answer(st.net, c, q) == local.reply <==> (j.kind.MGet? ==> S.StringOrAbsent(whole, j.keys)))
  {
    var n := |j.keys|;
    hide *;
    UnderwayMeans(cfg, st, c, q, j, whole);
    forall i: nat | i < n
      ensures i in PartsDone(st.net, c, q, n)
    {
      PlannedPart(cfg, st.net, c, q, j, i);
      QuietMeansDone(cfg, st, FragId(c, q, i));
      DoneMeans(st.net, c, q, n, i);
    }
    S.ReachedAgrees(cfg, j, whole, PartsDone(st.net, c, q, n), ProgressOf(st, c, q, n));
    SameReplies(st, c, q, n, S.Gathered(j, whole));
    AnswerIs(cfg, st.net, c, q, j);
  }

  lemma SameReplies(st: Sys<H.Obj>, c: ConnId, q: nat, n: nat, gathered: seq<string>)
    requires |gathered| == n
    requires forall i: nat :: i < n ==>
      i in ProgressOf(st, c, q, n).replies && ProgressOf(st, c, q, n).replies[i] == gathered[i]
    ensures Replies(st.net.done, c, q, n) == gathered
  {
    var replies := Replies(st.net.done, c, q, n);
    assert forall i: nat :: i < n ==> replies[i] == gathered[i];
  }

  lemma AnswerIs(cfg: Config<H.Obj>, net: Net, c: ConnId, q: nat, j: S.Job)
    requires S.JobOk(j) && Planned(cfg, net, c, q, j)
    ensures q < |Log(net.log, c)|
    ensures var replies := Replies(net.done, c, q, |j.keys|);
      Answer(net, c, q) == Assembled(j.kind, replies, SumOf(replies))
  {
    hide S.JobOk, Assembled, SumOf, Replies;
  }

  lemma NextSubmit<V>(cfg: Config<V>, st: Sys<V>, c: ConnId, argv: Argv)
    requires TableOk(cfg) && Shaped(cfg, st) && Enabled(cfg, st, Submit(c, argv)) && RouteOf(cfg, c.shard, argv).Remote?
    ensures c in st.conns && argv != [] && Next(cfg, st, Submit(c, argv)) == Submitted(cfg, st, c, argv)
    ensures |Log(Submitted(cfg, st, c, argv).net.log, c)| == |Log(st.net.log, c)| + 1
    ensures c in Submitted(cfg, st, c, argv).conns
  {
    SubmitSplit(cfg, st, c, argv);
    hide RouteOf, TableOk, Submitted, Shaped;
  }

  lemma LastAnswer(net: Net, c: ConnId, q: nat)
    requires |Log(net.log, c)| == q + 1
    ensures Answers(net, c, q + 1) == Answers(net, c, q) + Answer(net, c, q)
  {
  }

  lemma SplitNames<V>(cfg: Config<V>, here: nat, argv: Argv)
    requires argv != [] && RouteOf(cfg, here, argv).Remote? && !RouteOf(cfg, here, argv).kind.Single?
    ensures Decomposable(Lower(argv[0])) && RouteOf(cfg, here, argv).kind == KindOf(Lower(argv[0]))
    ensures Lower(argv[0]) in {"mget", "mset", "del", "unlink", "exists", "touch"}
  {
    hide Lower, KindOf;
  }

  /** A split command submitted while nothing else is about: however its parts and their replies are delivered, the
      keyspaces end up as the unsplit handler would leave the whole, and the connection is sent its earlier answers and
      then the unsplit handler's bytes, but for MGET of a key that holds no string, and for TOUCH, which runs as DEL. */
  lemma SplitRunAgrees(cfg: Config<H.Obj>, ext: H.Outside, steps: seq<Step>, c: ConnId, argv: Argv, more: seq<Step>,
      whole: H.Db)
    requires TableOk(cfg) && Serves(cfg, ext) && After(cfg, steps).Some? && argv != [] && AllDeliver(more)
    requires var st := After(cfg, steps).value;
      Quiet(st) && Enabled(cfg, st, Submit(c, argv)) && S.Spread(cfg, st.db, whole)
    requires RouteOf(cfg, c.shard, argv).Remote? && !RouteOf(cfg, c.shard, argv).kind.Single?
    requires var end := After(cfg, steps + [Submit(c, argv)] + more); end.Some? && Quiet(end.value)
    ensures var st, end := After(cfg, steps).value, After(cfg, steps + [Submit(c, argv)] + more).value;
      var j, q := S.Job(RouteOf(cfg, c.shard, argv).kind, argv, Touched(cfg, argv)), |Log(st.net.log, c)|;
      && S.JobOk(j) && S.Local(j, whole).Effect? && S.Spread(cfg, end.db, S.Local(j, whole).db)
      && |Log(end.net.log, c)| == q + 1 && c in end.conns
      && Flushed(end.conns[c]).out == Answers(end.net, c, q) + Answer(end.net, c, q)
      && (Answer(end.net, c, q) == S.Local(j, whole).reply <==> (j.kind.MGet? ==> S.StringOrAbsent(whole, j.keys)))
      && (Lower(argv[0]) != "touch" ==> R.Modelled(argv) && R.Exec(ext, whole, argv) == S.Local(j, whole))
  {
    var st := After(cfg, steps).value;
    var next := steps + [Submit(c, argv)];
    var j, q := S.Job(RouteOf(cfg, c.shard, argv).kind, argv, Touched(cfg, argv)), |Log(st.net.log, c)|;
    hide *;
    RunsOk(cfg, steps);
    NeverStuck(cfg, steps, Submit(c, argv));
    SubmitUnderway(cfg, st, c, argv, j, whole);
    NextSubmit(cfg, st, c, argv);
    MoreUnderway(cfg, ext, next, more, c, q, j, whole);
    var end := After(cfg, next + more).value;
    RunsOk(cfg, next + more);
    AnswerAgrees(cfg, end, c, q, j, whole);
    QuietMeansAnswered(cfg, next + more, c);
    LastAnswer(end.net, c, q);
    SplitNames(cfg, c.shard, argv);
    if Lower(argv[0]) != "touch" {
      LocalIsExec(ext, j, whole);
    }
  }
}

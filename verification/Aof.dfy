/** The append-only file of a shard, as a buffer in memory and bytes on disk. */
module AppendOnly {
  import opened Resp
  import opened Pipelines
  import opened Routing
  import opened Handlers
  import opened Intakes
  import opened Replay

  const BATCH := 16 * 1024

  datatype Policy = Always | EverySec | Never

  class Aof {
    var open: bool
    var policy: Policy
    var buf: string
    var disk: string
    var bytesWritten: nat
    var dirtySinceFsync: bool
    var lastFsync: nat

    /** Everything appended since the file was created. */
    ghost function Contents(): string
      reads this
    {
      disk + buf
    }

    /** A policy of syncing every command leaves nothing in memory; a closed file has nothing buffered. */
    ghost predicate Valid()
      reads this
    {
      |buf| < BATCH && (policy == Always || !open ==> buf == []) && (policy == Always || !open ==> !dirtySinceFsync)
    }

    constructor (policy: Policy, found: string, now: nat)
      ensures Valid() && open && Contents() == disk == found && this.policy == policy
    {
      open, this.policy, buf, disk := true, policy, [], found;
      bytesWritten, dirtySinceFsync, lastFsync := 0, false, now;
    }

    method Append(encoded: string)
      requires Valid()
      modifies this
      ensures Valid() && open == old(open) && policy == old(policy)
      ensures Contents() == if open then old(Contents()) + encoded else old(Contents())
      ensures old(disk) <= disk && (open && policy == Always ==> disk == old(disk) + encoded)
    {
      if !open {
        return;
      }
      assert old(disk) + [] == old(disk) && [] + encoded == encoded;
      assert old(disk) + (old(buf) + encoded) == old(disk) + old(buf) + encoded;
      buf := buf + encoded;
      if |buf| >= BATCH || policy == Always {
        Flush();
      }
      dirtySinceFsync := true;
      if policy == Always {
        Fsync();
      }
    }

    /** Writing the buffer out, however little the system takes at a time. */
    method Flush()
      modifies this`buf, this`disk, this`bytesWritten
      ensures Contents() == old(Contents()) && (open ==> buf == []) && old(disk) <= disk
      ensures bytesWritten == old(bytesWritten) + |disk| - |old(disk)|
      ensures !open ==> buf == old(buf)
    {
      if !open || buf == [] {
        return;
      }
      var sent := 0;
      while sent < |buf|
        invariant sent <= |buf| && buf == old(buf) && disk == old(disk) + buf[..sent]
        invariant bytesWritten == old(bytesWritten) + sent
      {
        var n := Accepted(|buf| - sent);
        assert buf[..sent + n] == buf[..sent] + buf[sent..sent + n];
        disk := disk + buf[sent..sent + n];
        sent := sent + n;
        bytesWritten := bytesWritten + n;
      }
      assert buf[..sent] == buf;
      buf := [];
    }

    /** How many bytes one write takes: some, not more than were offered. */
    static method Accepted(offered: nat) returns (n: nat)
      requires offered > 0
      ensures 0 < n <= offered
    {
      n :| 0 < n <= offered;
    }

    method Fsync()
      modifies this`dirtySinceFsync
      ensures dirtySinceFsync == (old(dirtySinceFsync) && !open)
    {
      if open {
        dirtySinceFsync := false;
      }
    }

    /** The periodic sync: at most once a second, and only when something was appended. */
    method Tick(now: nat)
      requires Valid()
      modifies this
      ensures Valid() && open == old(open) && policy == old(policy)
      ensures Contents() == old(Contents()) && old(disk) <= disk
      ensures open && policy == EverySec && old(dirtySinceFsync) && now >= old(lastFsync) + 1000 ==>
        disk == Contents() && !dirtySinceFsync && lastFsync == now
    {
      if !open {
        return;
      }
      if policy == EverySec {
        if dirtySinceFsync && now - lastFsync >= 1000 {
          Flush();
          Fsync();
          lastFsync := now;
        }
      }
    }

    method Close()
      requires Valid()
      modifies this
      ensures Valid() && !open && policy == old(policy) && disk == Contents() == old(Contents())
    {
      if open {
        Flush();
        Fsync();
        open := false;
      }
    }

    /** Dropping the file and starting a new one. */
    method Reset(now: nat)
      requires Valid()
      modifies this
      ensures Valid() && open && policy == old(policy) && Contents() == []
    {
      Close();
      disk := [];
      buf := [];
      open := true;
      lastFsync := now;
    }
  }

  lemma {:induction false} EncodeOneMore(log: seq<Argv>, argv: Argv)
    ensures EncodeAll(log + [argv]) == EncodeAll(log) + Encode(argv)
  {
    EncodeAllAppend(log, [argv]);
    hide Encode;
    assert EncodeAll([argv]) == Encode(argv) + EncodeAll([]);
  }

  lemma EncodesNothing()
    ensures EncodeAll([]) == []
  {
  }

  /** A shard's keyspace with its log, from an empty start. */
  class Store {
    var db: Db
    const aof: Aof
    ghost var log: seq<Argv>

    /** The file holds the encoding of the log, and replaying the log gives the keyspace. */
    ghost predicate Valid(ext: Outside)
      reads this, aof
    {
      && aof.Valid() && aof.open && aof.Contents() == EncodeAll(log)
      && NoEmpty(db) && ReplayAll(ext, map[], log) == db
    }

    constructor (ext: Outside, policy: Policy, now: nat)
      ensures Valid(ext) && db == map[] && log == [] && aof.policy == policy && fresh(aof)
    {
      aof := new Aof(policy, [], now);
      db, log := map[], [];
    }

    /** Running one command and logging it when it was marked dirty; a flush starts a new file. */
    method ExecCore(ext: Outside, argv: Argv, now: nat) returns (reply: string)
      requires Valid(ext) && Loggable(ext, argv) && Exec(ext, db, argv).Effect?
      modifies this, aof
      ensures Valid(ext) && db == Exec(ext, old(db), argv).db && reply == Exec(ext, old(db), argv).reply
      ensures log == LogAfter(old(log), argv, Exec(ext, old(db), argv).dirty)
      ensures aof.policy == old(aof.policy) && (!IsFlush(argv) ==> old(aof.disk) <= aof.disk)
      ensures aof.policy == Always ==> aof.disk == EncodeAll(log)
    {
      hide NoEmpty, ReplayAll, EncodeAll, Encode;
      var e := Exec(ext, db, argv);
      hide Exec, Loggable;
      LogStep(ext, db, argv, log);
      EncodeOneMore(log, argv);
      db := e.db;
      reply := e.reply;
      if IsFlush(argv) {
        EncodesNothing();
        aof.Reset(now);
        assert aof.disk == [];
        log := [];
      } else if e.dirty {
        var bytes := EncodeLoop(argv);
        aof.Append(bytes);
        log := log + [argv];
      }
    }
  }

  /** Whatever part of the file survives, replaying it gives the keyspace after a prefix of the logged commands. */
  lemma DiskReplays(log: seq<Argv>, disk: string)
    requires AllEncodable(log) && disk <= EncodeAll(log) && forall i :: 0 <= i < |log| ==> log[i] != []
    ensures Drain(disk).commands == log[..Whole(log, |disk|)]
  {
    hide *;
    var m := Whole(log, |disk|);
    assert EncodeAll(log)[..|disk|] == disk;
    CutStream(log, |disk|);
    assert forall i :: 0 <= i < m ==> log[..m][i] == log[i];
    KeptWhole(log[..m]);
  }
}

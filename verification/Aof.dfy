/**
 The append-only file as an object: a user-space buffer, the kernel's file, the part of it known
 to be on stable storage, a rewrite in progress, and the latched error.

 The file is a byte sequence with a synced prefix; a crash keeps some prefix at least that long.
 Renaming a synced file over the log is atomic and durable. Every I/O call may fail, and a write
 that fails may have delivered any part of its bytes.
 */
module Aof {
  import opened Bytes
  import opened Resp
  import opened Frames

  datatype Policy = Always | EverySecond | Never

  class Log {
    const policy: Policy
    const reliable: bool   // no I/O call ever fails
    var file: Bytes        // what the kernel holds at the log's path
    var synced: nat        // how much of it is on stable storage
    var buffered: Bytes    // bufio.Writer: not yet handed to the kernel
    var rewriting: bool
    var tail: Bytes
    var failed: bool       // err != nil

    ghost var records: seq<Command>  // what the file and the buffer are meant to hold
    ghost var mark: nat              // how many of them when the rewrite began

    ghost predicate Valid()
      reads this
    {
      && synced <= |file|
      && file <= EncodeAll(records)
      && (!failed ==> file + buffered == EncodeAll(records))
      && (rewriting && !failed ==> mark <= |records| && tail == EncodeAll(records[mark..]))
    }

    /** Everything recorded so far would survive a crash. */
    ghost predicate AllDurable()
      reads this
    {
      file == EncodeAll(records) && synced == |file|
    }

    /** What the disk may hold after a crash now. */
    ghost predicate CrashLeaves(disk: Bytes)
      reads this
    {
      synced <= |disk| <= |file| && disk == file[..|disk|]
    }

    /** Open on a file that has been replayed, and so holds whole commands only. */
    constructor (policy: Policy, reliable: bool, file: Bytes, ghost records: seq<Command>)
      requires file == EncodeAll(records)
      ensures Valid() && !failed && !rewriting && buffered == [] && synced == 0
      ensures this.policy == policy && this.reliable == reliable && this.file == file && this.records == records
    {
      this.policy, this.reliable := policy, reliable;
      this.file := file;
      this.synced := 0;
      this.buffered := [];
      this.rewriting := false;
      this.tail := [];
      this.failed := false;
      this.records := records;
      this.mark := 0;
    }

    /** Hands `n` of the bytes waiting to the kernel. */
    method Spill(n: nat)
      requires Valid() && !failed && n <= |buffered|
      modifies this`file, this`buffered
      ensures Valid() && file == old(file) + old(buffered)[..n] && buffered == old(buffered)[n..]
    {
      hide EncodeAll;
      assert file + buffered == (file + buffered[..n]) + buffered[n..];
      file := file + buffered[..n];
      buffered := buffered[n..];
    }

    /** Encodes one command into the buffer, and into the tail while a rewrite is under way. A full
        buffer spills to the kernel, which may fail having taken any part of it. */
    method Append(args: Command) returns (ok: bool)
      requires Valid()
      modifies this
      ensures Valid()
      ensures rewriting == old(rewriting) && mark == old(mark) && synced == old(synced)
      ensures ok == !failed && (reliable ==> failed == old(failed))
      ensures old(failed) ==> failed && file == old(file) && records == old(records)
      ensures !old(failed) ==> records == old(records) + [args] && old(file) <= file
    {
      hide Encode;
      if failed {
        return false;
      }
      AppendedTail(records, mark, args, rewriting);
      EncodeAllConcat(records, [args]);
      EncodeAllOne(args);
      assert file + (buffered + Encode(args)) == file + buffered + Encode(args);
      buffered := buffered + Encode(args);
      records := records + [args];
      if rewriting {
        tail := tail + Encode(args);
      }
      var n: nat :| n <= |buffered|;
      Spill(n);
      if !reliable {
        failed := *;
      }
      ok := !failed;
    }

    /** Flushes, and fsyncs when asked to. */
    method SyncLocked(fsync: bool) returns (ok: bool)
      requires Valid()
      modifies this
      ensures Valid()
      ensures records == old(records) && rewriting == old(rewriting) && mark == old(mark)
      ensures ok == !failed && (reliable ==> failed == old(failed))
      ensures old(synced) <= synced && old(file) <= file
      ensures old(failed) ==> failed && file == old(file) && synced == old(synced)
      ensures ok ==> buffered == [] && file == EncodeAll(records)
      ensures ok && fsync ==> AllDurable()
    {
      if failed {
        return false;
      }
      var flushed := *;
      if !flushed && !reliable {
        var n: nat :| n <= |buffered|;
        Spill(n);
        failed := true;
        return false;
      }
      Spill(|buffered|);
      assert file + [] == file;
      if fsync {
        var done := *;
        if !done && !reliable {
          var n: nat :| synced <= n <= |file|;
          synced := n;
          failed := true;
          return false;
        }
        synced := |file|;
      }
      return true;
    }

    method Sync() returns (ok: bool)
      requires Valid()
      modifies this
      ensures Valid()
      ensures records == old(records) && rewriting == old(rewriting) && mark == old(mark)
      ensures ok == !failed && (reliable ==> failed == old(failed))
      ensures old(synced) <= synced && old(file) <= file
      ensures old(failed) ==> failed && file == old(file) && synced == old(synced)
      ensures ok && policy != Never ==> AllDurable()
    {
      ok := SyncLocked(policy != Never);
    }

    method SyncIfAlways() returns (ok: bool)
      requires Valid()
      modifies this
      ensures Valid()
      ensures records == old(records) && rewriting == old(rewriting) && mark == old(mark)
      ensures old(synced) <= synced && old(file) <= file
      ensures old(failed) ==> failed && file == old(file) && synced == old(synced)
      ensures reliable ==> failed == old(failed)
      ensures ok && policy == Always ==> AllDurable()
      ensures policy == Always ==> ok == !failed
    {
      if policy != Always {
        return true;
      }
      ok := Sync();
    }

    method BeginRewrite() returns (ok: bool)
      requires Valid()
      modifies this`rewriting, this`tail, this`mark
      ensures Valid()
      ensures ok <==> !failed && !old(rewriting)
      ensures ok ==> rewriting && mark == |records|
      ensures !ok ==> rewriting == old(rewriting) && mark == old(mark)
    {
      if failed || rewriting {
        return false;
      }
      rewriting, tail, mark := true, [], |records|;
      assert records[mark..] == [];
      return true;
    }

    method AbortRewrite()
      requires Valid()
      modifies this`rewriting, this`tail
      ensures Valid() && !rewriting
    {
      rewriting, tail := false, [];
    }

    /** Replaces the log by the snapshot followed by everything appended since BeginRewrite. Until
        the rename the log in force is untouched; from the rename on, the replacement is whole and
        durable, even if reopening it fails and latches the error. */
    method FinishRewrite(snapshot: seq<Command>) returns (ok: bool)
      requires Valid()
      modifies this
      ensures Valid() && !rewriting
      ensures ok ==> old(rewriting) && !old(failed) && !failed && buffered == [] && AllDurable()
      ensures ok ==> old(mark) <= |old(records)| && records == snapshot + old(records)[old(mark)..]
      ensures reliable ==> (ok <==> old(rewriting) && !old(failed))
      ensures !ok ==>
        || (failed == old(failed) && file == old(file) && synced == old(synced)
            && buffered == old(buffered) && records == old(records))
        || (old(rewriting) && !old(failed) && failed && AllDurable()
            && old(mark) <= |old(records)| && records == snapshot + old(records)[old(mark)..])
    {
      hide Encode;
      var prepared := *;  // the temporary file was created, written and flushed
      if !prepared && !reliable {
        AbortRewrite();
        return false;
      }
      if !rewriting {
        return false;
      }
      var installed := *;  // the tail was written, synced and closed, and the rename went through
      if failed || (!installed && !reliable) {
        AbortRewrite();
        return false;
      }
      EncodeAllConcat(snapshot, records[mark..]);
      file := EncodeAll(snapshot) + tail;
      synced := |file|;
      records := snapshot + records[mark..];
      rewriting, tail := false, [];
      var reopened := *;
      if !reopened && !reliable {
        failed := true;  // the old handle and what it buffered are dead
        return false;
      }
      buffered := [];
      assert file + [] == file;
      return true;
    }
  }

  lemma AppendedTail(records: seq<Command>, mark: nat, args: Command, rewriting: bool)
    requires rewriting ==> mark <= |records|
    ensures rewriting ==>
      EncodeAll((records + [args])[mark..]) == EncodeAll(records[mark..]) + Encode(args)
  {
    if rewriting {
      assert (records + [args])[mark..] == records[mark..] + [args];
      EncodeAllConcat(records[mark..], [args]);
      EncodeAllOne(args);
    }
  }

  // ----- crashes -----

  /** After a crash at any moment the disk reads back as whole records only: a prefix of what was
      appended, in order, torn at most inside the next one. */
  lemma CrashKeepsPrefix(records: seq<Command>, file: Bytes, disk: Bytes)
    requires AllInLimits(records) && file <= EncodeAll(records) && disk <= file
    ensures ScanLog(disk).cmds <= records && ScanLog(disk).ending != Corrupt
    ensures ScanLog(disk).bytes <= |disk| && disk[..ScanLog(disk).bytes] == EncodeAll(ScanLog(disk).cmds)
  {
    hide ScanLog, Encode, WholeCommands;
    var k := |disk|;
    assert disk == EncodeAll(records)[..k];
    CrashAtAnyByte(records, k);
    RepairThenAppend(records, k, []);
  }

  /** Whatever was synced is in it: every record that ends inside the synced part is read back. */
  lemma CrashKeepsSynced(records: seq<Command>, disk: Bytes, n: nat)
    requires AllInLimits(records) && disk <= EncodeAll(records) && n <= |records|
    requires |EncodeAll(records[..n])| <= |disk|
    ensures records[..n] <= ScanLog(disk).cmds
  {
    hide ScanLog, Encode, WholeCommands;
    var k := |disk|;
    assert disk == EncodeAll(records)[..k];
    CrashAtAnyByte(records, k);
    var m := WholeCommands(records, k);
    WholeCommandsIsLongest(records, k);
    if m < n {
      assert records[..n] == records[..m + 1] + records[m + 1..n];
      EncodeAllConcat(records[..m + 1], records[m + 1..n]);
    }
  }
}

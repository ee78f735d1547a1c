/**
 Startup: the log file is read command by command and run through the real handlers, a torn tail
 is cut off, anything else unexpected stops the server. And the end-to-end guarantee: what a crash
 and a restart make of everything that was acknowledged.
 */
module Startup {
  import opened Bytes
  import opened Routing
  import opened Keyspace
  import opened Restart
  import opened Resp
  import opened Reader
  import opened Frames
  import opened Canonical
  import opened Grammar
  import opened Commands
  import opened Limits
  import opened Lifetimes
  import opened Faithful
  import opened Server
  import S = Store
  import A = Aof

  // ----- the handlers, over a whole log -----

  /** A log handled command by command, each at its own instant. */
  function ReplayArgs(cmds: seq<Command>, ts: seq<int>): Option<Keyspace>
    requires |cmds| == |ts| && forall i :: 0 <= i < |cmds| ==> cmds[i] != []
  {
    if cmds == [] then Some(map[])
    else
      var n := |cmds| - 1;
      match ReplayArgs(cmds[..n], ts[..n])
      case None => None
      case Some(ks) => ApplyArgs(ks, cmds[n], ts[n])
  }

  // ----- the replay loop -----

  datatype Result = Result(commands: nat, bytes: nat, truncated: nat)

  /** applyLogged on a store without a journal. */
  method ApplyLogged(store: S.Store, args: Command, now: int) returns (ok: bool)
    requires store.Valid() && !store.attached && args != []
    modifies store`flat, store`ages, store`journal, store.shards
    ensures store.Valid() && store.journal == old(store.journal)
    ensures ok <==> ApplyArgs(old(store.flat), args, now).Some?
    ensures store.flat == if ok then ApplyArgs(old(store.flat), args, now).value else old(store.flat)
  {
    hide S.Store.Valid, Handle, Fails, Decode;
    var decoded := Decode(args);
    if !decoded.Write? {
      return false;
    }
    DeltaIsSmall(args);
    var err := Execute(store, decoded.q, now);
    if err {
      FailureLeaves(old(store.flat), decoded.q, now);
    }
    ok := !err;
  }

  /** What remains to be read completes what has been applied. */
  ghost predicate ReadSoFar(whole: Scan, applied: seq<Command>, bytes: nat, left: Bytes) {
    var rest := ScanLog(left);
    whole == Scan(applied + rest.cmds, bytes + rest.bytes, rest.ending)
  }

  lemma ReadNothing(file: Bytes)
    ensures ReadSoFar(ScanLog(file), [], 0, file)
  {
    hide ScanLog;
    assert [] + ScanLog(file).cmds == ScanLog(file).cmds;
  }

  lemma ReadOne(whole: Scan, applied: seq<Command>, bytes: nat, left: Bytes)
    requires ReadSoFar(whole, applied, bytes, left) && ParseCommand(left).Got?
    ensures var o := ParseCommand(left);
      && (o.value == [] ==> ReadSoFar(whole, applied, bytes, o.rest))
      && (o.value != [] ==> ReadSoFar(whole, applied + [o.value], bytes + |Encode(o.value)|, o.rest))
      && (o.value != [] ==> applied + [o.value] <= whole.cmds)
  {
    hide ParseCommand, Encode;
    var o := ParseCommand(left);
    var rest := ScanLog(o.rest);
    assert applied + ([o.value] + rest.cmds) == applied + [o.value] + rest.cmds;
  }

  lemma ReadEnd(whole: Scan, applied: seq<Command>, bytes: nat, left: Bytes)
    requires ReadSoFar(whole, applied, bytes, left) && !ParseCommand(left).Got?
    ensures whole == Scan(applied, bytes,
      if ParseCommand(left).Eof? then Intact else if ParseCommand(left).Truncated? then Torn else Corrupt)
  {
    hide ParseCommand;
    assert applied + [] == applied;
  }

  /** aof.Replay through applyLogged. On success everything the log holds has been applied in order,
      and a torn tail has been cut at the byte count, which never lies beyond the file; the server
      does not start on corruption, or on a command the handlers turn down, and then the file is
      left alone. */
  method Replay(store: S.Store, file: Bytes, start: int)
      returns (res: Result, ok: bool, file': Bytes, end: int, ghost applied: seq<Command>, ghost ts: seq<int>)
    requires store.Valid() && !store.attached && store.flat == map[]
    modifies store`flat, store`ages, store`journal, store.shards
    ensures store.Valid()
    ensures start <= end && ReplayStops(file, start, end, res.commands, applied, ts, store.flat)
    ensures ok ==> Completed(file, file', res, applied)
    ensures !ok ==> file' == file && Halted(file, applied, store.flat, start)
  {
    hide S.Store.Valid, ParseCommand, ScanLog, ApplyArgs, Encode, ReplayArgs, Refused;
    hide Replaying, ReplayStops, Completed, Halted;
    var r := new Reader(file);
    res, file', applied, ts := Result(0, 0, 0), file, [], [];
    end := start;
    ReplayStarts(file, start);
    while true
      invariant store.Valid() && r.Valid() && start <= end && res.truncated == 0
      invariant Replaying(file, start, end, res, applied, ts, store.flat, r.Remaining())
      decreases |r.Remaining()|
    {
      ghost var left := r.Remaining();
      EofIffEmpty(left);
      var o := r.ReadCommand();
      if !o.Got? {
        ReplayEnds(file, start, end, res, applied, ts, store.flat, left);
        ok := !o.Malformed?;
        if o.Truncated? {
          file' := file[..res.bytes];
          res := res.(truncated := |file| - res.bytes);
        }
        return;
      }
      if o.value == [] {
        ReplaySkips(file, start, end, res, applied, ts, store.flat, left);
      } else {
        var taken;
        taken, res, end, applied, ts := ReplayTurn(store, file, start, end, res, o.value, applied, ts, left);
        if !taken {
          ok := false;
          return;
        }
      }
    }
  }

  /** One command of the log, handed to the handlers at some later instant. */
  method ReplayTurn(store: S.Store, ghost file: Bytes, ghost start: int, end: int, res: Result, args: Command,
                    ghost applied: seq<Command>, ghost ts: seq<int>, ghost left: Bytes)
      returns (taken: bool, res': Result, end': int, ghost applied': seq<Command>, ghost ts': seq<int>)
    requires store.Valid() && !store.attached && start <= end && res.truncated == 0
    requires Replaying(file, start, end, res, applied, ts, store.flat, left)
    requires ParseCommand(left).Got? && ParseCommand(left).value == args != []
    modifies store`flat, store`ages, store`journal, store.shards
    ensures store.Valid() && end <= end' && res'.truncated == 0
    ensures taken ==> Replaying(file, start, end', res', applied', ts', store.flat, ParseCommand(left).rest)
    ensures !taken ==>
      && ReplayStops(file, start, end', res'.commands, applied', ts', store.flat)
      && Halted(file, applied', store.flat, start)
  {
    hide S.Store.Valid, ParseCommand, ScanLog, ApplyArgs, Encode, ReplayArgs, Refused, Replaying, ReplayStops, Halted;
    var now :| end <= now;
    ReplayTurns(file, start, end, res, applied, ts, store.flat, left, now);
    taken := ApplyLogged(store, args, now);
    res', end', applied', ts' := res, now, applied, ts;
    if taken {
      var n := EncodedLen(args);
      res' := Result(res.commands + 1, res.bytes + n, 0);
      applied', ts' := applied + [args], ts + [now];
    }
  }

  /** Half-way through a replay: what has been applied, when, what it built, and what is left. */
  ghost predicate Replaying(file: Bytes, start: int, end: int, res: Result, applied: seq<Command>, ts: seq<int>,
                            ks: Keyspace, left: Bytes)
  {
    && ReadSoFar(ScanLog(file), applied, res.bytes, left)
    && res.bytes + |left| <= |file|
    && |applied| == |ts| == res.commands && applied <= ScanLog(file).cmds
    && (forall i :: 0 <= i < |applied| ==> applied[i] != [] && start <= ts[i] <= end)
    && ReplayArgs(applied, ts) == Some(ks)
  }

  lemma ReplayStarts(file: Bytes, start: int)
    ensures Replaying(file, start, start, Result(0, 0, 0), [], [], map[], file)
  {
    ReadNothing(file);
  }

  lemma ReplaySkips(file: Bytes, start: int, end: int, res: Result, applied: seq<Command>, ts: seq<int>,
                    ks: Keyspace, left: Bytes)
    requires Replaying(file, start, end, res, applied, ts, ks, left)
    requires ParseCommand(left).Got? && ParseCommand(left).value == []
    ensures Replaying(file, start, end, res, applied, ts, ks, ParseCommand(left).rest)
  {
    hide ParseCommand, ScanLog, ReadSoFar, ReplayArgs;
    ReadOne(ScanLog(file), applied, res.bytes, left);
    EofIffEmpty(left);
  }

  /** One more command: taken, the replay goes on; refused, it is the first one not applied. */
  lemma ReplayTurns(file: Bytes, start: int, end: int, res: Result, applied: seq<Command>, ts: seq<int>,
                    ks: Keyspace, left: Bytes, now: int)
    requires Replaying(file, start, end, res, applied, ts, ks, left) && start <= end <= now
    requires ParseCommand(left).Got? && ParseCommand(left).value != []
    ensures var o := ParseCommand(left);
      match ApplyArgs(ks, o.value, now)
      case Some(ks') =>
        var res' := Result(res.commands + 1, res.bytes + |Encode(o.value)|, 0);
        Replaying(file, start, now, res', applied + [o.value], ts + [now], ks', o.rest)
      case None =>
        ReplayStops(file, start, now, res.commands, applied, ts, ks) && Halted(file, applied, ks, start)
  {
    hide ParseCommand, ScanLog, ReadSoFar, ReplayArgs, ApplyArgs, Encode;
    var o := ParseCommand(left);
    ReadOne(ScanLog(file), applied, res.bytes, left);
    EncodingIsShortest(left);
    ReplayOneMore(applied, ts, o.value, now);
    assert applied + [o.value] <= ScanLog(file).cmds;
  }

  /** What has been applied, at instants between start and end, is a prefix of what the log holds,
      and has built `ks`. */
  ghost predicate ReplayStops(file: Bytes, start: int, end: int, commands: nat, applied: seq<Command>, ts: seq<int>,
                              ks: Keyspace)
  {
    && |applied| == |ts| == commands && applied <= ScanLog(file).cmds
    && (forall i :: 0 <= i < |applied| ==> applied[i] != [] && start <= ts[i] <= end)
    && ReplayArgs(applied, ts) == Some(ks)
  }

  /** Everything was applied, and a torn tail, if there was one, is gone from the file. */
  ghost predicate Completed(file: Bytes, file': Bytes, res: Result, applied: seq<Command>) {
    var scan := ScanLog(file);
    && applied == scan.cmds && res.bytes == scan.bytes <= |file| && scan.ending != Corrupt
    && (scan.ending == Intact ==> file' == file && res.truncated == 0)
    && (scan.ending == Torn ==> file' == file[..res.bytes] && res.truncated == |file| - res.bytes)
  }

  /** The log is corrupt behind what was applied, or the next command was turned down. */
  ghost predicate Halted(file: Bytes, applied: seq<Command>, ks: Keyspace, start: int) {
    var cmds := ScanLog(file).cmds;
    || (applied == cmds && ScanLog(file).ending == Corrupt)
    || (|applied| < |cmds| && Refused(ks, cmds[|applied|], start))
  }

  lemma ReplayEnds(file: Bytes, start: int, end: int, res: Result, applied: seq<Command>, ts: seq<int>,
                   ks: Keyspace, left: Bytes)
    requires Replaying(file, start, end, res, applied, ts, ks, left) && !ParseCommand(left).Got? && res.truncated == 0
    ensures ReplayStops(file, start, end, res.commands, applied, ts, ks) && res.bytes <= |file|
    ensures ParseCommand(left).Eof? ==> Completed(file, file, res, applied)
    ensures ParseCommand(left).Truncated? ==>
      Completed(file, file[..res.bytes], res.(truncated := |file| - res.bytes), applied)
    ensures ParseCommand(left).Malformed? ==> Halted(file, applied, ks, start)
  {
    hide ParseCommand, ScanLog, ReadSoFar, ReplayArgs;
    ReadEnd(ScanLog(file), applied, res.bytes, left);
  }

  lemma CorruptIsNotCompleted(file: Bytes, file': Bytes, res: Result, applied: seq<Command>)
    requires ScanLog(file).ending == Corrupt
    ensures !Completed(file, file', res, applied)
  {
    hide ScanLog;
  }

  /** A log with junk behind some whole commands, whatever follows the junk: the server does not start, the
      file is left as it is, and no more than those commands has been applied. */
  method ReplayStopsAtJunk(store: S.Store, file: Bytes, start: int, ghost cmds: seq<Command>, ghost junk: Bytes)
      returns (ok: bool, file': Bytes, ghost applied: seq<Command>)
    requires store.Valid() && !store.attached && store.flat == map[]
    requires AllInLimits(cmds) && IsBroken(junk) && file == EncodeAll(cmds) + junk
    modifies store`flat, store`ages, store`journal, store.shards
    ensures !ok && file' == file && applied <= cmds
  {
    hide S.Store.Valid, ScanLog, EncodeAll, ReplayArgs, Halted, Completed, IsBroken;
    var res, end;
    ghost var ts;
    JunkIsCorruption(cmds, junk);
    res, ok, file', end, applied, ts := Replay(store, file, start);
    if ok {
      CorruptIsNotCompleted(file, file', res, applied);
    }
  }

  /** At some instant not before `start` the handlers turn the command down. */
  ghost predicate Refused(ks: Keyspace, args: Command, start: int) {
    args != [] && exists t :: start <= t && ApplyArgs(ks, args, t).None?
  }

  lemma ReplayOneMore(cmds: seq<Command>, ts: seq<int>, args: Command, t: int)
    requires |cmds| == |ts| && args != [] && forall i :: 0 <= i < |cmds| ==> cmds[i] != []
    requires ReplayArgs(cmds, ts).Some?
    ensures ReplayArgs(cmds + [args], ts + [t]) == ApplyArgs(ReplayArgs(cmds, ts).value, args, t)
  {
    hide ApplyArgs;
    assert (cmds + [args])[..|cmds|] == cmds && (ts + [t])[..|ts|] == ts;
  }

  // ----- from records to the restarted keyspace -----

  predicate AllReplayable(recs: seq<Rec>) {
    forall i :: 0 <= i < |recs| ==> Replayable(recs[i])
  }

  /** The handlers accept a log in full if and only if every record in it is replayable, and then
      rebuild exactly what the record-level replay says. */
  lemma {:induction false} RecordsRebuild(recs: seq<Rec>, ts: seq<int>)
    requires |recs| == |ts|
    ensures ReplayArgs(ArgsAll(recs), ts) == if AllReplayable(recs) then Some(Replayed(recs, ts)) else None
  {
    hide Decode, Handle, Fails, ToArgs, ReplayRec;
    if recs != [] {
      var n := |recs| - 1;
      RecordsRebuild(recs[..n], ts[..n]);
      assert ArgsAll(recs)[..n] == ArgsAll(recs[..n]);
      RecordsReplay(recs[n]);
      HandlersReplay(Replayed(recs[..n], ts[..n]), recs[n], ts[n]);
      assert AllReplayable(recs) <==> AllReplayable(recs[..n]) && Replayable(recs[n]);
    }
  }

  lemma ReadableIsReplayable(recs: seq<Rec>)
    requires Readable(ArgsAll(recs))
    ensures AllInLimits(ArgsAll(recs)) && AllReplayable(recs)
  {
    hide ToArgs, Decode;
    forall i | 0 <= i < |recs|
      ensures Replayable(recs[i])
    {
      assert ArgsAll(recs)[i] == ToArgs(recs[i]);
      RecordsReplay(recs[i]);
    }
  }

  /** A server can start on its whole log if and only if the log is readable: otherwise it is corrupt to
      the reader, or the handlers turn a command of it down. */
  lemma StartsIff(recs: seq<Rec>, ts: seq<int>)
    requires |recs| == |ts|
    ensures var cmds := ArgsAll(recs);
      var scan := ScanLog(EncodeAll(cmds));
      && (Readable(cmds) <==> scan == Scan(cmds, |EncodeAll(cmds)|, Intact) && ReplayArgs(cmds, ts).Some?)
      && (Readable(cmds) <==> scan.ending != Corrupt && ReplayArgs(cmds, ts).Some?)
  {
    hide ScanLog, EncodeAll, ToArgs, Decode, ReplayArgs;
    forall i | 0 <= i < |recs|
      ensures ToArgs(recs[i]) != [] && (Replayable(recs[i]) <==> Decode(ToArgs(recs[i])).Write?)
    {
      ArgsAreNamed(recs[i]);
      RecordsReplay(recs[i]);
    }
    assert Readable(ArgsAll(recs)) <==> AllInLimits(ArgsAll(recs)) && AllReplayable(recs) by {
      assert forall i :: 0 <= i < |recs| ==> ArgsAll(recs)[i] == ToArgs(recs[i]);
    }
    LogReadsBackIff(ArgsAll(recs));
    RecordsRebuild(recs, ts);
  }

  // ----- end to end -----

  /** A server that has accepted affordable writes only, whose log is all on stable storage, as it is
      after every write that `always` accepts without a log failure, crashes and restarts. The disk
      reads back whole and in order; the real handlers accept all of it; what the restarted server
      shows at any later instant is what the old one would have shown, values equal and deadlines
      floored; and at one restart instant it shows a key if and only if every deadline superseded in
      the key's present life is ahead. */
  lemma CrashAndRestart(server: Server, disk: Bytes, ts: seq<int>, t: int, k: Key)
    requires server.Valid() && server.durable && !server.aof.failed && server.fits
    requires server.aof.AllDurable() && server.aof.CrashLeaves(disk)
    requires |ts| == |server.sys.log| && t >= server.clock && forall i :: 0 <= i < |ts| ==> ts[i] >= server.clock
    ensures ScanLog(disk) == Scan(server.aof.records, |disk|, Intact)
    ensures server.aof.records == ArgsAll(server.sys.log)
    ensures ReplayArgs(ArgsAll(server.sys.log), ts) == Some(Replayed(server.sys.log, ts))
    ensures Live(Replayed(server.sys.log, ts), k, t) ==>
      Live(server.store.flat, k, t) && Replayed(server.sys.log, ts)[k] == Floored(server.store.flat[k])
    ensures k in Persisted(server.store.flat, t) ==>
      (Live(Replayed(server.sys.log, Always(t, |ts|)), k, t) <==> SupersededAfter(server.sys.log, k, t))
  {
    hide S.Store.Valid, ScanLog, EncodeAll, Replayed, Alive, Whole, ReplayArgs, SupersededAfter, Decode, KeyspaceFits;
    var s := server.sys;
    ReadableIsReplayable(s.log);
    assert disk == EncodeAll(server.aof.records);
    WholeLogReadsBack(server.aof.records);
    RecordsRebuild(s.log, ts);
    RestartShows(s, ts, t, k);
    RestartBrings(s.log, t, k);
    if k in Persisted(s.mem, t) {
      WholeMeansPersisted(s, t, k);
    }
  }

  /** What a crash leaves of a readable log: whole records from its front, every synced one among them. */
  lemma CrashKeeps(records: seq<Command>, file: Bytes, synced: nat, disk: Bytes)
    requires AllInLimits(records) && disk <= file <= EncodeAll(records) && synced <= |disk|
    ensures ScanLog(disk).cmds == records[..WholeCommands(records, |disk|)] && ScanLog(disk).ending != Corrupt
    ensures forall n :: 0 <= n <= |records| && |EncodeAll(records[..n])| <= synced ==>
      n <= WholeCommands(records, |disk|)
  {
    hide ScanLog, EncodeAll, WholeCommands, Encode;
    assert disk == EncodeAll(records)[..|disk|];
    CrashAtAnyByte(records, |disk|);
    A.CrashKeepsPrefix(records, file, disk);
    forall n | 0 <= n <= |records| && |EncodeAll(records[..n])| <= synced
      ensures n <= WholeCommands(records, |disk|)
    {
      A.CrashKeepsSynced(records, disk, n);
    }
  }

  /** A crash of a server with a readable log at any moment, its log failed or not, with any prefix of
      its file left that covers what was synced, is a turn of its lifetime: what the disk reads back as,
      run through the handlers, is the memory the turn leads to, and the records kept include every one
      that was synced whole. */
  lemma CrashIsATurn(server: Server, disk: Bytes, ts: seq<int>, clock: int)
    requires server.Valid() && server.durable && Readable(server.aof.records) && server.aof.CrashLeaves(disk)
    requires |ts| == WholeCommands(server.aof.records, |disk|) && server.clock <= clock
    requires forall i :: 0 <= i < |ts| ==> server.clock <= ts[i] <= clock
    ensures MayHappen(server.sys, CrashAndReplay(|ts|, ts, clock))
    ensures ScanLog(disk).cmds == ArgsAll(server.sys.log[..|ts|]) && ScanLog(disk).ending != Corrupt
    ensures ReplayArgs(ArgsAll(server.sys.log[..|ts|]), ts) ==
      Some(After(server.sys, CrashAndReplay(|ts|, ts, clock)).mem)
    ensures forall n :: 0 <= n <= |server.aof.records| && |EncodeAll(server.aof.records[..n])| <= server.aof.synced ==>
      n <= |ts|
  {
    hide S.Store.Valid, Server.Linked, ScanLog, EncodeAll, Replayed, ReplayArgs, Decode, WholeCommands, ToArgs, Encode;
    var s, records := server.sys, server.aof.records;
    LinkedLog(server);
    ReadableIsReplayable(s.log);
    CrashKeeps(records, server.aof.file, server.aof.synced, disk);
    assert records[..|ts|] == ArgsAll(s.log[..|ts|]);
    RecordsRebuild(s.log[..|ts|], ts);
  }

  /** The records are the protocol state's, and readable if every accepted write was affordable. */
  lemma LinkedLog(server: Server)
    requires server.Valid() && server.durable
    ensures server.aof.records == ArgsAll(server.sys.log) && server.sys.clock <= server.clock
    ensures server.fits ==> Readable(server.aof.records)
    ensures server.sys.failed == server.aof.failed
  {
    hide S.Store.Valid, A.Log.Valid, KeyspaceFits, Readable;
  }

  /** The handlers take back every replayable record, whatever the keyspace and the instant. */
  lemma NeverRefused(ks: Keyspace, r: Rec, start: int)
    requires Replayable(r)
    ensures !Refused(ks, ToArgs(r), start)
  {
    hide Decode, Handle, Fails;
    forall t
      ensures ApplyArgs(ks, ToArgs(r), t).Some?
    {
      RecordsReplay(r);
      HandlersReplay(ks, r, t);
    }
  }

  /** Startup after a crash at any byte: on any prefix of a readable log the server starts, with the
      torn command cut off and everything before it replayed, as a live state of the protocol. */
  method Boot(file: Bytes, policy: A.Policy, reliable: bool, maxMemory: int, eviction: S.EvictionPolicy, start: int,
              ghost recs: seq<Rec>, ghost kept: nat)
      returns (server: Server, file': Bytes, ghost ts: seq<int>)
    requires Readable(ArgsAll(recs)) && kept <= |EncodeAll(ArgsAll(recs))|
    requires file == EncodeAll(ArgsAll(recs))[..kept]
    ensures fresh(server) && server.Valid() && server.durable && !server.aof.failed && server.clock >= start
    ensures start >= NS_PER_MS ==> server.fits
    ensures var n := WholeCommands(ArgsAll(recs), kept);
      && file' == server.aof.file == EncodeAll(ArgsAll(recs[..n]))
      && server.aof.records == ArgsAll(recs[..n])
      && |ts| == n && (forall i :: 0 <= i < n ==> start <= ts[i] <= server.clock)
      && server.sys == Reborn(recs[..n], ts, server.clock)
  {
    hide S.Store.Valid, ScanLog, EncodeAll, ReplayArgs, Refused, Decode, ToArgs, Replayed, KeyspaceFits;
    ghost var cmds := ArgsAll(recs);
    ghost var n := WholeCommands(cmds, kept);
    ReadableIsReplayable(recs);
    CrashAtAnyByte(cmds, kept);
    RepairThenAppend(cmds, kept, []);
    assert cmds[..n] == ArgsAll(recs[..n]);
    var store := new S.Store(maxMemory, eviction);
    var res, ok, now;
    ghost var applied;
    res, ok, file', now, applied, ts := Replay(store, file, start);
    if !ok {
      NeverRefused(store.flat, recs[|applied|], start);
    }
    RecordsRebuild(recs[..n], ts);
    if start >= NS_PER_MS {
      ReplayedFits(recs[..n], ts);
    }
    var aof := new A.Log(policy, reliable, file', cmds[..n]);
    store.attached := true;
    server := new Server(store, aof, true, recs[..n], ts, now);
  }

  /** A crash that leaves `disk` and the startup after it are one turn of the server's lifetime, from
      the state it was in, or was in when its log failed, to the state of the server that comes up, with
      every record that was synced. */
  method Reboot(ghost was: Server, disk: Bytes, policy: A.Policy, reliable: bool, maxMemory: int,
                eviction: S.EvictionPolicy, start: int)
      returns (server: Server, ghost turn: Turn)
    requires was.Valid() && was.durable && Readable(was.aof.records) && was.aof.CrashLeaves(disk)
    requires was.clock <= start
    ensures fresh(server) && server.Valid() && server.durable && !server.aof.failed
    ensures start >= NS_PER_MS ==> server.fits
    ensures turn.CrashAndReplay? && MayHappen(was.sys, turn) && server.sys == After(was.sys, turn)
    ensures forall n :: 0 <= n <= |was.aof.records| && |EncodeAll(was.aof.records[..n])| <= was.aof.synced ==>
      was.aof.records[..n] <= server.aof.records
  {
    hide S.Store.Valid, A.Log.Valid, Server.Linked, ScanLog, EncodeAll, ReplayArgs, Decode, ToArgs, Replayed;
    hide WholeCommands;
    ghost var recs := was.sys.log;
    LinkedLog(was);
    DiskIsPrefix(was, disk);
    ghost var ts;
    var file';
    server, file', ts := Boot(disk, policy, reliable, maxMemory, eviction, start, recs, |disk|);
    CrashIsATurn(was, disk, ts, server.clock);
    turn := CrashAndReplay(|ts|, ts, server.clock);
  }

  lemma DiskIsPrefix(server: Server, disk: Bytes)
    requires server.Valid() && server.aof.CrashLeaves(disk)
    ensures |disk| <= |EncodeAll(server.aof.records)| && disk == EncodeAll(server.aof.records)[..|disk|]
  {
    hide S.Store.Valid, EncodeAll;
  }
}

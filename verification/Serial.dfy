/**
 One client at a time: a request handled at the current instant is a short run of protocol steps,
 and so is a snapshot of all shards. The server object uses these to stay inside the protocol.
 */
module Serial {
  import opened Bytes
  import opened Routing
  import opened Keyspace
  import opened Journal
  import opened Restart
  import opened Protocol
  import opened Lifetimes
  import opened Commands

  /** Everything a lifetime promises of a healthy state, between requests. */
  ghost predicate Settled(s: Sys) {
    s.gate.Free? && Kept(s)
  }

  ghost predicate Kept(s: Sys) {
    !s.failed && Alive(s) && Whole(s)
  }

  /** Where the labels lead from s, if each is a timely step that may be taken in turn. */
  ghost function Through(s: Sys, ls: seq<Label>): Option<Sys> {
    if ls == [] then Some(s)
    else
      var n := |ls| - 1;
      match Through(s, ls[..n])
      case None => None
      case Some(m) =>
        if Enabled(m, ls[n]) && Timely(m, ls[n]) then Some(Next(m, ls[n])) else None
  }

  /** A timely run of the protocol leads from s0 to s. */
  ghost predicate Path(s0: Sys, ls: seq<Label>, s: Sys) {
    Through(s0, ls) == Some(s)
  }

  /** One step more. */
  lemma Take(s0: Sys, ls: seq<Label>, s: Sys, l: Label) returns (ls': seq<Label>, s': Sys)
    requires Path(s0, ls, s) && Kept(s) && Enabled(s, l) && !l.Fail? && Timely(s, l)
    ensures s' == Next(s, l) && Path(s0, ls', s') && Kept(s')
  {
    hide Alive, Whole, Enabled, Timely, Harmless, Next;
    StepKeepsAlive(s, l);
    TimelyDoesNoHarm(s, l);
    StepKeepsWhole(s, l);
    FailureLatches(s, l);
    ls', s' := ls + [l], Next(s, l);
    assert ls'[..|ls|] == ls;
  }

  /** The log fails, and the path ends there. */
  lemma Break(s0: Sys, ls: seq<Label>, s: Sys) returns (ls': seq<Label>, s': Sys)
    requires Path(s0, ls, s)
    ensures s' == s.(failed := true) && Path(s0, ls', s')
  {
    ls', s' := ls + [Fail], Next(s, Fail);
    assert ls'[..|ls|] == ls;
  }

  /** A path from a server's birth is a lifetime without crashes, all its deadlines moved in time: what
      holds in every state of every lifetime holds along it. */
  lemma {:induction false} PathIsLifetime(log: seq<Rec>, ts: seq<int>, clock: int, ls: seq<Label>, s: Sys)
      returns (ss: seq<Sys>, turns: seq<Turn>)
    requires |log| == |ts| && forall i :: 0 <= i < |ts| ==> ts[i] <= clock
    requires Path(Reborn(log, ts, clock), ls, s)
    ensures |turns| == |ls| && IsLifetime(ss, turns, log, ts) && ss[|ls|] == s
    ensures forall i :: 0 <= i < |ls| ==> turns[i] == Step(ls[i]) && Timely(ss[i], ls[i])
  {
    hide Enabled, Timely, Next, Replayed;
    ss, turns := [s], [];
    if ls != [] {
      var n := |ls| - 1;
      var m := Through(Reborn(log, ts, clock), ls[..n]).value;
      ss, turns := PathIsLifetime(log, ts, clock, ls[..n], m);
      ss, turns := ss + [s], turns + [Step(ls[n])];
    }
  }

  /** The state after a completed mutation. */
  ghost function Done(s: Sys, e: Effect): Sys {
    s.(mem := e.ks, hist := s.hist + e.recs, log := s.log + e.recs,
       tail := if s.rewriting then s.tail + e.recs else s.tail)
  }

  lemma KeptIsHealthy(s: Sys)
    requires Kept(s)
    ensures !s.failed
  {
  }

  /** The gate holder appends what it owes and leaves. */
  lemma Leave(s0: Sys, ls: seq<Label>, s: Sys, e: Effect)
      returns (ls': seq<Label>, s': Sys)
    requires Path(s0, ls, s)
    requires Kept(s) && s.gate == Pending(e.recs) && s.mem == e.ks && |e.recs| <= 1
    ensures s' == Done(s, e).(gate := Free) && Kept(s') && Path(s0, ls', s')
  {
    hide Kept, Path;
    ls', s' := ls, s;
    KeptIsHealthy(s);
    if |e.recs| == 1 {
      ls', s' := Take(s0, ls', s', Append);
    } else {
      assert e.recs == [];
    }
    ls', s' := Take(s0, ls', s', Release);
    assert s'.hist == s.hist + e.recs && s'.log == s.log + e.recs;
  }

  /** The protocol operation that a request performs at instant `now`. */
  function OpOf(q: Request, now: int): Op {
    match q
    case Set(k, v) => OSet(k, Item(v, None))
    case SetFor(k, v, ttl) => if ttl <= 0 then ODel([k]) else OSet(k, Item(v, Some(now + ttl)))
    case SetUntil(k, v, at) => if at <= now then ODel([k]) else OSet(k, Item(v, Some(at)))
    case MSet(pairs) => OMSet(pairs)
    case Del(keys) => ODel(keys)
    case Increment(k, delta) => OIncrement(k, delta)
    case AppendTo(k, suffix) => OAppend(k, suffix)
    case ExpireIn(k, ttl) => OExpireAt(k, now + ttl)
    case ExpireAt(k, at) => OExpireAt(k, at)
  }

  /** An operation that mutates at once, performed at the current instant. */
  lemma PerformAtOnce(s0: Sys, ls: seq<Label>, s: Sys, op: Op)
      returns (ls': seq<Label>, s': Sys)
    requires Path(s0, ls, s)
    requires Settled(s) && !ReadsFirst(op)
    ensures s' == Done(s, OpEffect(op, s.mem, s.clock, None)) && Settled(s') && Path(s0, ls', s')
  {
    hide Alive, Whole, OpEffect, Path;
    var e := OpEffect(op, s.mem, s.clock, None);
    ls', s' := Take(s0, ls, s, Acquire(op, s.clock));
    assert Mutation(s') == e;
    ls', s' := Take(s0, ls', s', Mutate);
    OneRecordAtMost(op, s.mem, s.clock, None);
    ls', s' := Leave(s0, ls', s', e);
  }

  lemma OneRecordAtMost(op: Op, mem: Keyspace, now: int, seen: Option<Item>)
    ensures |OpEffect(op, mem, now, seen).recs| <= 1
  {
  }

  /** A read-modify-write operation at the current instant: an expired entry goes first. */
  lemma PerformReadFirst(s0: Sys, ls: seq<Label>, s: Sys, op: Op)
      returns (ls': seq<Label>, s': Sys)
    requires Path(s0, ls, s)
    requires Settled(s) && ReadsFirst(op)
    ensures var seen := Fresh(Look(s.mem, op.key), s.clock);
      var base := if Dead(Look(s.mem, op.key), s.clock) then s.mem - {op.key} else s.mem;
      s' == Done(s, OpEffect(op, base, s.clock, seen)) && Settled(s') && Path(s0, ls', s')
  {
    hide Alive, Whole, OpEffect, Path;
    var k := op.key;
    ls', s' := Take(s0, ls, s, Acquire(op, s.clock));
    ls', s' := Take(s0, ls', s', Load);
    if s'.gate.seen.Some? && Expired(s'.gate.seen.value, s.clock) {
      ls', s' := Take(s0, ls', s', DropExpired);
    } else if k !in s.mem {
      assert s.mem - {k} == s.mem;
    }
    var e := OpEffect(op, s'.mem, s.clock, s'.gate.seen);
    assert Mutation(s') == e;
    OneRecordAtMost(op, s'.mem, s.clock, s'.gate.seen);
    ls', s' := Take(s0, ls', s', Mutate);
    ls', s' := Leave(s0, ls', s', e);
  }

  lemma PutAfterRemove(ks: Keyspace, k: Key, it: Item)
    ensures (ks - {k})[k := it] == ks[k := it]
  {
  }

  /** Handling a request at the current instant is a run of the protocol with the handler's effect,
      provided the request does not fail; a failing one changes nothing. */
  lemma HandleIsRun(s0: Sys, ls: seq<Label>, s: Sys, q: Request)
      returns (ls': seq<Label>, s': Sys)
    requires Path(s0, ls, s)
    requires Settled(s) && !Fails(s.mem, q, s.clock)
    ensures s' == Done(s, Handle(s.mem, q, s.clock)) && Settled(s') && Path(s0, ls', s')
  {
    hide Settled, Itoa, ParseInt, Path;
    var op := OpOf(q, s.clock);
    if ReadsFirst(op) {
      ls', s' := PerformReadFirst(s0, ls, s, op);
      PutAfterRemove(s.mem, op.key, Handle(s.mem, q, s.clock).ks[op.key]);
    } else {
      ls', s' := PerformAtOnce(s0, ls, s, op);
    }
  }

  /** Evicting keys one after another, each with its own record. */
  lemma {:induction false} EvictAll(s0: Sys, ls: seq<Label>, s: Sys, victims: seq<Key>)
      returns (ls': seq<Label>, s': Sys)
    requires Path(s0, ls, s)
    requires Settled(s)
    ensures s' == Done(s, Effect(s.mem - KeySet(victims), Dels(victims))) && Settled(s') && Path(s0, ls', s')
  {
    hide Settled, Path;
    if victims == [] {
      ls', s' := ls, s;
      assert s.mem - KeySet(victims) == s.mem;
      assert Dels(victims) == [];
      assert s.hist + [] == s.hist && s.log + [] == s.log && s.tail + [] == s.tail;
    } else {
      var n := |victims| - 1;
      var k := victims[n];
      var ms, mid := EvictAll(s0, ls, s, victims[..n]);
      ls', s' := PerformAtOnce(s0, ms, mid, OEvict(k));
      DelsSnoc(victims);
      assert s.mem - KeySet(victims[..n]) - {k} == s.mem - KeySet(victims) by {
        assert victims == victims[..n] + [k];
      }
      assert s'.hist == s.hist + Dels(victims) && s'.log == s.log + Dels(victims);
      assert s.rewriting ==> s'.tail == s.tail + Dels(victims);
    }
  }

  lemma DelsSnoc(victims: seq<Key>)
    requires victims != []
    ensures Dels(victims) == Dels(victims[..|victims| - 1]) + [RDel([victims[|victims| - 1]])]
  {
  }

  /** Time passes. */
  lemma Advance(s0: Sys, ls: seq<Label>, s: Sys, clock: int)
      returns (ls': seq<Label>, s': Sys)
    requires Path(s0, ls, s)
    requires Settled(s) && s.clock <= clock
    ensures s' == s.(clock := clock) && Settled(s') && Path(s0, ls', s')
  {
    hide Alive, Whole, Path;
    ls', s' := Take(s0, ls, s, Tick(clock));
  }

  // ----- expiry -----

  /** Collecting expired keys, one by one, is a run too. */
  lemma {:induction false} CollectAll(s0: Sys, ls: seq<Label>, s: Sys, gone: set<Key>)
      returns (ls': seq<Label>, s': Sys)
    requires Path(s0, ls, s)
    requires Settled(s)
    requires forall k :: k in gone ==> k in s.mem && Expired(s.mem[k], s.clock)
    ensures s' == s.(mem := s.mem - gone) && Settled(s') && Path(s0, ls', s')
    decreases gone
  {
    hide Alive, Whole, Path;
    ls', s' := ls, s;
    if gone == {} {
      assert s.mem - gone == s.mem;
    } else {
      var k :| k in gone;
      ls', s' := Take(s0, ls, s, Collect(k, s.clock));
      assert s.mem - {k} - (gone - {k}) == s.mem - gone;
      ls', s' := CollectAll(s0, ls', s', gone - {k});
    }
  }

  // ----- rewrites -----

  /** A rewrite that may begin, begins. */
  lemma Begin(s0: Sys, ls: seq<Label>, s: Sys)
      returns (ls': seq<Label>, s': Sys)
    requires Path(s0, ls, s)
    requires Settled(s) && !s.rewriting
    ensures s' == s.(rewriting := true, tail := [], walk := NotWalking) && Settled(s') && Path(s0, ls', s')
  {
    hide Alive, Whole, Path;
    ls', s' := Take(s0, ls, s, BeginRewrite);
  }

  /** The snapshot of all shards at the current instant. */
  lemma {:induction false} WalkAll(s0: Sys, ls: seq<Label>, s: Sys, parts: seq<seq<Rec>>)
      returns (ls': seq<Label>, s': Sys)
    requires Path(s0, ls, s)
    requires Settled(s) && s.rewriting && s.walk.NotWalking? && |parts| <= SHARDS
    requires forall i :: 0 <= i < |parts| ==> Enumerates(parts[i], LivePart(s.mem, i, s.clock))
    ensures s' == s.(walk := Walking(s.clock, |parts|, Flat(parts))) && Settled(s') && Path(s0, ls', s')
  {
    hide Alive, Whole, Enumerates, LivePart, Path;
    if parts == [] {
      ls', s' := Take(s0, ls, s, StartWalk);
    } else {
      var n := |parts| - 1;
      ls', s' := WalkAll(s0, ls, s, parts[..n]);
      ls', s' := Take(s0, ls', s', WalkShard(parts[n]));
    }
  }

  lemma InstallAll(s0: Sys, ls: seq<Label>, s: Sys)
      returns (ls': seq<Label>, s': Sys)
    requires Path(s0, ls, s)
    requires Settled(s) && s.rewriting && s.walk.Walking? && s.walk.next == SHARDS
    ensures s' == s.(log := s.walk.acc + s.tail, rewriting := false, tail := [], walk := NotWalking)
    ensures Settled(s') && Path(s0, ls', s')
  {
    hide Alive, Whole, Path;
    ls', s' := Take(s0, ls, s, Install);
  }

  lemma AbortAll(s0: Sys, ls: seq<Label>, s: Sys)
      returns (ls': seq<Label>, s': Sys)
    requires Path(s0, ls, s)
    requires Settled(s) && s.rewriting
    ensures s' == s.(rewriting := false, tail := [], walk := NotWalking) && Settled(s') && Path(s0, ls', s')
  {
    hide Alive, Whole, Path;
    ls', s' := Take(s0, ls, s, Abort);
  }
}

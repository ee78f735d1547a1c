/**
 Any number of clients, the expiry collector and a log rewriter, as a transition system.

 A client that is not holding the commit gate carries nothing but the clock reading it took
 before asking for the gate, so the state keeps only the gate holder; `Acquire` may present any
 operation with any earlier reading. Memory changes and journal appends are separate steps, so
 the rewriter's walk, expiry deletions and log failures can fall between them. Each critical
 section under shard locks is one step.
 */
module Protocol {
  import opened Bytes
  import opened Routing
  import opened Keyspace
  import opened Journal

  datatype Op =
    | OSet(key: Key, it: Item)
    | OMSet(pairs: seq<Pair>)
    | ODel(keys: seq<Key>)
    | OExpireAt(key: Key, at: int)
    | OEvict(key: Key)
    | OIncrement(key: Key, delta: int)
    | OAppend(key: Key, suffix: Bytes)

  predicate ReadsFirst(op: Op) {
    op.OIncrement? || op.OAppend?
  }

  /** The commit gate: free, or how far its holder has come. */
  datatype Gate =
    | Free
    | Entered(op: Op, now: int)
    | Loaded(op: Op, now: int, seen: Option<Item>)
    | Pending(recs: seq<Rec>)

  /** The rewriter: not walking, or having copied the shards below `next`. */
  datatype Walk = NotWalking | Walking(now: int, next: nat, acc: seq<Rec>)

  datatype Sys = Sys(
    mem: Keyspace,
    clock: int,
    gate: Gate,
    hist: seq<Rec>,      // every record ever appended
    log: seq<Rec>,       // what the file and its buffer hold
    rewriting: bool,
    tail: seq<Rec>,
    walk: Walk,
    failed: bool)

  datatype Label =
    | Tick(clock: int)
    | Acquire(op: Op, now: int)
    | Load
    | DropExpired
    | Mutate
    | Append
    | Release
    | Collect(key: Key, now: int)
    | BeginRewrite
    | StartWalk
    | WalkShard(recs: seq<Rec>)
    | Install
    | Abort
    | Fail

  // ----- steps -----

  /** What the gate holder does to memory, given the clock reading it took before the gate. */
  function OpEffect(op: Op, mem: Keyspace, now: int, seen: Option<Item>): Effect {
    match op
    case OSet(k, it) => SetEffect(mem, k, it)
    case OMSet(pairs) => MSetEffect(mem, pairs)
    case ODel(keys) => DelEffect(mem, keys)
    case OExpireAt(k, at) => ExpireAtEffect(mem, k, at, now)
    case OEvict(k) => Effect(mem - {k}, [RDel([k])])
    case OIncrement(k, delta) =>
      (match Bumped(seen, delta)
       case None => Effect(mem, [])
       case Some(n) => SetEffect(mem, k, Rewritten(seen, Itoa(n))))
    case OAppend(k, suffix) =>
      SetEffect(mem, k, Rewritten(seen, (if seen.Some? then seen.value.val else []) + suffix))
  }

  ghost predicate Enabled(s: Sys, l: Label) {
    match l
    case Tick(c) => s.clock <= c
    case Acquire(_, now) => s.gate.Free? && now <= s.clock
    case Load => s.gate.Entered? && ReadsFirst(s.gate.op)
    case DropExpired =>
      && s.gate.Loaded? && ReadsFirst(s.gate.op)
      && s.gate.seen.Some? && Expired(s.gate.seen.value, s.gate.now)
    case Mutate =>
      || (s.gate.Entered? && !ReadsFirst(s.gate.op))
      || (s.gate.Loaded? && (s.gate.seen.None? || !Expired(s.gate.seen.value, s.gate.now)))
    case Append => s.gate.Pending? && |s.gate.recs| == 1
    case Release => s.gate.Pending? && s.gate.recs == []
    case Collect(k, now) => now <= s.clock && k in s.mem && Expired(s.mem[k], now)
    case BeginRewrite => !s.rewriting && !s.failed
    case StartWalk => s.rewriting && s.walk.NotWalking?
    case WalkShard(recs) =>
      && s.walk.Walking? && s.walk.next < SHARDS
      && Enumerates(recs, LivePart(s.mem, s.walk.next, s.walk.now))
    case Install => s.rewriting && s.walk.Walking? && s.walk.next == SHARDS && !s.failed
    case Abort => s.rewriting
    case Fail => true
  }

  function GateKey(op: Op): Key
    requires ReadsFirst(op)
  {
    op.key
  }

  ghost function Mutation(s: Sys): Effect
    requires s.gate.Entered? || s.gate.Loaded?
  {
    OpEffect(s.gate.op, s.mem, s.gate.now, if s.gate.Loaded? then s.gate.seen else None)
  }

  ghost function Next(s: Sys, l: Label): Sys
    requires Enabled(s, l)
  {
    match l
    case Tick(c) => s.(clock := c)
    case Acquire(op, now) => s.(gate := Entered(op, now))
    case Load => s.(gate := Loaded(s.gate.op, s.gate.now, Look(s.mem, GateKey(s.gate.op))))
    case DropExpired =>
      s.(mem := s.mem - {GateKey(s.gate.op)}, gate := Loaded(s.gate.op, s.gate.now, None))
    case Mutate => s.(mem := Mutation(s).ks, gate := Pending(Mutation(s).recs))
    case Append =>
      if s.failed then s.(gate := Pending([]))
      else s.(gate := Pending([]), hist := s.hist + s.gate.recs, log := s.log + s.gate.recs,
              tail := if s.rewriting then s.tail + s.gate.recs else s.tail)
    case Release => s.(gate := Free)
    case Collect(k, _) => s.(mem := s.mem - {k})
    case BeginRewrite => s.(rewriting := true, tail := [], walk := NotWalking)
    case StartWalk => s.(walk := Walking(s.clock, 0, []))
    case WalkShard(recs) => s.(walk := Walking(s.walk.now, s.walk.next + 1, s.walk.acc + recs))
    case Install => s.(log := s.walk.acc + s.tail, rewriting := false, tail := [], walk := NotWalking)
    case Abort => s.(rewriting := false, tail := [], walk := NotWalking)
    case Fail => s.(failed := true)
  }

  /** Failure is latched. */
  lemma FailureLatches(s: Sys, l: Label)
    requires Enabled(s, l)
    ensures Next(s, l).failed == (s.failed || l.Fail?)
  {
  }

  // ----- memory and the records -----

  ghost function Pend(s: Sys): seq<Rec> {
    if s.gate.Pending? then s.gate.recs else []
  }

  /** The history of appends, plus the gate holder's pending record, explains memory exactly:
      floored deadlines for what is held, and only expired keys besides. */
  ghost predicate Explains(h: Keyspace, mem: Keyspace, clock: int, k: Key) {
    if k in mem then Look(h, k) == Some(Floored(mem[k])) else Dead(Look(h, k), clock)
  }

  ghost predicate HistoryExplains(s: Sys) {
    forall k :: Explains(Meaning(s.hist + Pend(s)), s.mem, s.clock, k)
  }

  ghost predicate GateOk(s: Sys) {
    && (s.gate.Pending? ==> |s.gate.recs| <= 1)
    && (s.gate.Entered? || s.gate.Loaded? ==> s.gate.now <= s.clock)
    && (s.gate.Loaded? ==>
          && ReadsFirst(s.gate.op)
          && (GateKey(s.gate.op) in s.mem ==> s.gate.seen == Some(s.mem[GateKey(s.gate.op)])))
  }

  ghost predicate WalkOk(s: Sys) {
    && (s.rewriting ==> |s.tail| <= |s.hist| && s.hist[|s.hist| - |s.tail|..] == s.tail)
    && (s.walk.Walking? ==>
          && s.rewriting && s.walk.next <= SHARDS && s.walk.now <= s.clock
          && forall k :: ShardIndex(k) >= s.walk.next ==> Look(Meaning(s.walk.acc), k) == None)
  }

  ghost predicate Inv(s: Sys) {
    && GateOk(s)
    && WalkOk(s)
    && HistoryExplains(s)
  }

  ghost predicate Initial(s: Sys) {
    && s.gate.Free? && !s.rewriting && s.walk.NotWalking? && !s.failed
    && s.hist == s.log
    && forall k :: Explains(Meaning(s.log), s.mem, s.clock, k)
  }

  // ----- every step keeps the history explaining memory -----

  lemma FlooredExpires(it: Item, now: int)
    ensures Expired(it, now) ==> Expired(Floored(it), now)
  {
    DeadlinesDoNotDrift(it);
  }

  lemma SummaryOne(r: Rec, k: Key)
    ensures Summary([r], k) == FxOf(r, k)
  {
    assert [r][..0] == [];
    assert Summary([r][..0], k) == Keep;
  }

  /** What one operation does to one key, in memory and as a record. */
  lemma OpOnKey(op: Op, mem: Keyspace, now: int, seen: Option<Item>, k: Key)
    ensures var e := OpEffect(op, mem, now, seen);
      && |e.recs| <= 1
      && (match Summary(e.recs, k)
          case Keep => Look(e.ks, k) == Look(mem, k)
          case Const(state) => FlooredLook(Look(e.ks, k)) == state
          case Touch(dl) =>
            && op.OExpireAt? && op.key == k && k in mem && !Expired(mem[k], now) && op.at > now
            && k in e.ks && e.ks[k].dl == Some(op.at) && Floored(e.ks[k]) == Item(mem[k].val, Some(dl)))
  {
    var e := OpEffect(op, mem, now, seen);
    if e.recs == [] {
      RemovedIsExact(mem, if op.ODel? then op.keys else []);
    } else {
      assert e.recs == [e.recs[0]];
      SummaryOne(e.recs[0], k);
      match op {
        case OMSet(pairs) => AssignAllLook(mem, pairs, k);
        case ODel(keys) => RemovedIsExact(mem, keys);
        case _ =>
      }
    }
  }

  /** A journalled mutation and its record move memory and meaning together. */
  lemma MutationExplained(h: Keyspace, mem: Keyspace, clock: int, op: Op, now: int, seen: Option<Item>, k: Key)
    requires Explains(h, mem, clock, k) && now <= clock
    ensures var e := OpEffect(op, mem, now, seen);
      Explains(Run(h, e.recs), e.ks, clock, k) && |e.recs| <= 1
  {
    hide OpEffect, Summary, Run;
    OpOnKey(op, mem, now, seen, k);
    RunLook(h, OpEffect(op, mem, now, seen).recs, k);
  }

  lemma DeletionExplained(h: Keyspace, mem: Keyspace, clock: int, gone: Key, k: Key)
    requires Explains(h, mem, clock, k)
    requires gone in mem ==> Expired(mem[gone], clock)
    ensures Explains(h, mem - {gone}, clock, k)
  {
    if k == gone && k in mem {
      FlooredExpires(mem[k], clock);
    }
  }

  lemma StepKeepsHistory(s: Sys, l: Label)
    requires Inv(s) && Enabled(s, l) && !s.failed && !l.Fail?
    ensures HistoryExplains(Next(s, l))
  {
    hide Meaning, Run, OpEffect, ShardIndex, Enumerates;
    var s' := Next(s, l);
    var h, h' := Meaning(s.hist + Pend(s)), Meaning(s'.hist + Pend(s'));
    forall k
      ensures Explains(h', s'.mem, s'.clock, k)
    {
      assert Explains(h, s.mem, s.clock, k);
      if l.Mutate? {
        MeaningOfMutation(s, Mutation(s).recs);
        MutationExplained(h, s.mem, s.clock, s.gate.op, s.gate.now, if s.gate.Loaded? then s.gate.seen else None, k);
      } else {
        assert s'.hist + Pend(s') == s.hist + Pend(s);
        if l.DropExpired? {
          DeletionExplained(h, s.mem, s.clock, GateKey(s.gate.op), k);
        } else if l.Collect? {
          DeletionExplained(h, s.mem, s.clock, l.key, k);
        }
      }
    }
  }

  lemma MeaningOfMutation(s: Sys, recs: seq<Rec>)
    requires !s.gate.Pending?
    ensures Meaning(s.hist + recs) == Run(Meaning(s.hist + Pend(s)), recs)
  {
    assert s.hist + [] == s.hist;
    RunConcat(map[], s.hist, recs);
  }

  lemma StepKeepsGate(s: Sys, l: Label)
    requires GateOk(s) && Enabled(s, l)
    ensures GateOk(Next(s, l))
  {
    hide Meaning, Run, ShardIndex, Enumerates;
    if l.Mutate? {
      var seen := if s.gate.Loaded? then s.gate.seen else None;
      assert |Mutation(s).recs| <= 1;
    }
  }

  lemma StepKeepsWalk(s: Sys, l: Label)
    requires WalkOk(s) && Enabled(s, l) && !s.failed
    ensures WalkOk(Next(s, l))
  {
    hide Meaning, Run, OpEffect, Enumerates;
    var s' := Next(s, l);
    if l.WalkShard? {
      forall k | ShardIndex(k) >= s'.walk.next
        ensures Look(Meaning(s'.walk.acc), k) == None
      {
        AccAfterWalk(s, l.recs, k);
      }
    } else if l.StartWalk? {
      assert Meaning([]) == map[] by { MeaningOfNothing(); }
    }
  }

  lemma MeaningOfNothing()
    ensures Meaning([]) == map[]
  {
  }

  lemma AccAfterWalk(s: Sys, recs: seq<Rec>, k: Key)
    requires Enabled(s, WalkShard(recs))
    ensures var live := LivePart(s.mem, s.walk.next, s.walk.now);
      Look(Meaning(s.walk.acc + recs), k) ==
      if k in live then Some(Floored(s.mem[k])) else Look(Meaning(s.walk.acc), k)
  {
    RunConcat(map[], s.walk.acc, recs);
    SnapshotMeans(Meaning(s.walk.acc), recs, LivePart(s.mem, s.walk.next, s.walk.now), k);
  }

  /** Every step of every run keeps the invariant, whatever the clock readings of its clients. */
  lemma StepKeepsInv(s: Sys, l: Label)
    requires Inv(s) && Enabled(s, l) && !s.failed && !l.Fail?
    ensures Inv(Next(s, l))
  {
    hide HistoryExplains, WalkOk, GateOk;
    StepKeepsHistory(s, l);
    StepKeepsGate(s, l);
    StepKeepsWalk(s, l);
  }

  // ----- the log that a rewrite installed -----

  /** The log agrees with the history on k, or lacks a key that is already gone for everybody. */
  ghost predicate Follows(x: Keyspace, h: Keyspace, mem: Keyspace, clock: int, k: Key) {
    || Look(x, k) == Look(h, k)
    || (Look(x, k) == None && Dead(Look(mem, k), clock) && Dead(Look(h, k), clock))
  }

  /** The file and its buffer, plus the pending record. */
  ghost predicate LogFollows(s: Sys) {
    forall k :: Follows(Meaning(s.log + Pend(s)), Meaning(s.hist + Pend(s)), s.mem, s.clock, k)
  }

  /** The replacement being built: what has been walked so far, plus the tail. */
  ghost predicate ReplacementFollows(s: Sys) {
    s.walk.Walking? ==>
      forall k :: ShardIndex(k) < s.walk.next ==>
        Follows(Run(Meaning(s.walk.acc), s.tail + Pend(s)), Meaning(s.hist + Pend(s)), s.mem, s.clock, k)
  }

  /** The step in which ExpireAt gives a key it found live a new deadline. */
  ghost predicate Moves(s: Sys, l: Label) {
    && l.Mutate? && s.gate.Entered? && s.gate.op.OExpireAt?
    && var k := s.gate.op.key;
       k in s.mem && !Expired(s.mem[k], s.gate.now) && s.gate.op.at > s.gate.now
  }

  /** The guard that the code evaluates too early: when ExpireAt moves a deadline on the strength of
      a clock reading taken before the gate, the old deadline is still ahead now. */
  ghost predicate Timely(s: Sys, l: Label) {
    Moves(s, l) ==> !Expired(s.mem[s.gate.op.key], s.clock)
  }

  /** The rewriter has copied this key's shard already. */
  ghost predicate WalkedPast(s: Sys, k: Key) {
    s.walk.Walking? && ShardIndex(k) < s.walk.next
  }

  /** Where a moved deadline does no harm: it has itself passed, or the log holds the key, and so
      does the replacement once the rewriter is past it. */
  ghost predicate Harmless(s: Sys, l: Label) {
    Moves(s, l) ==>
      var k := s.gate.op.key;
      || s.gate.op.at <= s.clock
      || (k in Meaning(s.log) && (WalkedPast(s, k) ==> k in Run(Meaning(s.walk.acc), s.tail)))
  }

  lemma TimelyIsHarmless(s: Sys, l: Label)
    requires Inv(s) && LogFollows(s) && ReplacementFollows(s) && Timely(s, l)
    ensures Harmless(s, l)
  {
    hide Meaning, Run, WalkOk;
    if Moves(s, l) {
      var k := s.gate.op.key;
      assert s.log + Pend(s) == s.log && s.hist + Pend(s) == s.hist && s.tail + Pend(s) == s.tail;
      assert Explains(Meaning(s.hist), s.mem, s.clock, k);
      assert Follows(Meaning(s.log), Meaning(s.hist), s.mem, s.clock, k);
    }
  }

  lemma ExplainedBy(s: Sys, k: Key)
    requires Inv(s)
    ensures Explains(Meaning(s.hist + Pend(s)), s.mem, s.clock, k)
  {
    hide Meaning;
  }

  /** A log follows the history through a mutation, given that it holds the key whose deadline moves,
      or that the new deadline has passed. */
  lemma MutationFollowed(x: Keyspace, h: Keyspace, s: Sys, k: Key)
    requires Inv(s) && Enabled(s, Mutate) && Follows(x, h, s.mem, s.clock, k)
    requires Explains(h, s.mem, s.clock, k)
    requires Moves(s, Mutate) && s.gate.op.key == k ==> k in x || s.gate.op.at <= s.clock
    ensures Follows(Run(x, Mutation(s).recs), Run(h, Mutation(s).recs), Mutation(s).ks, s.clock, k)
  {
    hide HistoryExplains, WalkOk, OpEffect, Summary, Run;
    var e := Mutation(s);
    OpOnKey(s.gate.op, s.mem, s.gate.now, if s.gate.Loaded? then s.gate.seen else None, k);
    RunLook(x, e.recs, k);
    RunLook(h, e.recs, k);
  }

  /** Deleting an expired key from memory, or letting time pass, never breaks agreement. */
  lemma FollowsLater(x: Keyspace, h: Keyspace, mem: Keyspace, clock: int, mem': Keyspace, clock': int, k: Key)
    requires Follows(x, h, mem, clock, k) && clock <= clock'
    requires Look(mem', k) == Look(mem, k) || Look(mem', k) == None
    ensures Follows(x, h, mem', clock', k)
  {
  }

  lemma StepKeepsLog(s: Sys, l: Label)
    requires Inv(s) && Enabled(s, l) && !s.failed && !l.Fail? && Harmless(s, l)
    requires LogFollows(s) && ReplacementFollows(s)
    ensures LogFollows(Next(s, l))
  {
    hide Meaning, Run, OpEffect, Enumerates, HistoryExplains;
    var s' := Next(s, l);
    var x, h := Meaning(s.log + Pend(s)), Meaning(s.hist + Pend(s));
    var x', h' := Meaning(s'.log + Pend(s')), Meaning(s'.hist + Pend(s'));
    forall k
      ensures Follows(x', h', s'.mem, s'.clock, k)
    {
      assert Follows(x, h, s.mem, s.clock, k);
      if l.Mutate? {
        assert s.log + [] == s.log && s.hist + [] == s.hist;
        MeaningOfMutation(s, Mutation(s).recs);
        MeaningConcat(s.log, Mutation(s).recs);
        ExplainedBy(s, k);
        MutationFollowed(x, h, s, k);
      } else {
        assert s'.hist + Pend(s') == s.hist + Pend(s);
        if l.Install? {
          var r := Run(Meaning(s.walk.acc), s.tail + Pend(s));
          assert Follows(r, h, s.mem, s.clock, k);
          MeaningConcat(s.walk.acc, s.tail + Pend(s));
          assert s'.log + Pend(s') == s.walk.acc + (s.tail + Pend(s));
        } else {
          assert s'.log + Pend(s') == s.log + Pend(s);
          FollowsLater(x, h, s.mem, s.clock, s'.mem, s'.clock, k);
        }
      }
    }
  }

  lemma MeaningConcat(a: seq<Rec>, b: seq<Rec>)
    ensures Meaning(a + b) == Run(Meaning(a), b)
  {
    RunConcat(map[], a, b);
  }

  lemma StepKeepsReplacement(s: Sys, l: Label)
    requires Inv(s) && Enabled(s, l) && !s.failed && !l.Fail? && Harmless(s, l)
    requires ReplacementFollows(s)
    ensures ReplacementFollows(Next(s, l))
  {
    hide Meaning, Run, OpEffect, Enumerates, HistoryExplains;
    var s' := Next(s, l);
    if s'.walk.Walking? && !l.StartWalk? {
      var h, h' := Meaning(s.hist + Pend(s)), Meaning(s'.hist + Pend(s'));
      var r, r' := Run(Meaning(s.walk.acc), s.tail + Pend(s)), Run(Meaning(s'.walk.acc), s'.tail + Pend(s'));
      forall k | ShardIndex(k) < s'.walk.next
        ensures Follows(r', h', s'.mem, s'.clock, k)
      {
        if l.WalkShard? {
          WalkedFollows(s, l.recs, k);
        } else {
          assert Follows(r, h, s.mem, s.clock, k);
          if l.Mutate? {
            assert s.tail + [] == s.tail && s.hist + [] == s.hist;
            MeaningOfMutation(s, Mutation(s).recs);
            RunConcat(Meaning(s.walk.acc), s.tail, Mutation(s).recs);
            ExplainedBy(s, k);
            MutationFollowed(r, h, s, k);
          } else {
            assert s'.hist + Pend(s') == s.hist + Pend(s);
            assert s'.tail + Pend(s') == s.tail + Pend(s);
            FollowsLater(r, h, s.mem, s.clock, s'.mem, s'.clock, k);
          }
        }
      }
    }
  }

  /** Walking one more shard: what it copied, once the tail is applied over it, is the history's
      own state, because the tail is absorbed by a state that already contains it. */
  lemma WalkedFollows(s: Sys, recs: seq<Rec>, k: Key)
    requires Inv(s) && Enabled(s, WalkShard(recs)) && ReplacementFollows(s)
    requires ShardIndex(k) < s.walk.next + 1
    ensures Follows(Run(Meaning(s.walk.acc + recs), s.tail + Pend(s)), Meaning(s.hist + Pend(s)), s.mem, s.clock, k)
  {
    hide Meaning, Run, OpEffect, Enumerates;
    var t := s.tail + Pend(s);
    var h := Meaning(s.hist + Pend(s));
    AccAfterWalk(s, recs, k);
    RunLook(Meaning(s.walk.acc + recs), t, k);
    RunLook(Meaning(s.walk.acc), t, k);
    if ShardIndex(k) < s.walk.next {
      assert Follows(Run(Meaning(s.walk.acc), t), h, s.mem, s.clock, k);
    } else {
      TailAbsorbed(s, k);
      assert Explains(h, s.mem, s.clock, k);
      if k in s.mem {
        FlooredExpires(s.mem[k], s.clock);
      }
    }
  }

  /** The history ends with the tail, so the tail summarised acts on its own result as nothing;
      and if it fixes the key's state at all, it fixes it to the history's. */
  lemma TailAbsorbed(s: Sys, k: Key)
    requires WalkOk(s) && s.rewriting
    ensures var f := Summary(s.tail + Pend(s), k);
      var h := Look(Meaning(s.hist + Pend(s)), k);
      Act(f, h) == h && (f.Const? ==> f.state == h)
  {
    var base := s.hist[..|s.hist| - |s.tail|];
    var t := s.tail + Pend(s);
    assert s.hist + Pend(s) == base + t;
    MeaningConcat(base, t);
    ReapplyOverPrefix(Meaning(base), t, |t|);
    assert t[..|t|] == t;
    RunLook(Meaning(base), t, k);
    RunLook(Run(Meaning(base), t), t, k);
  }
}

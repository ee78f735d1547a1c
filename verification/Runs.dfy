/** What holds in every state of every run of the protocol. */
module Runs {
  import opened Bytes
  import opened Routing
  import opened Keyspace
  import opened Journal
  import opened Protocol
  import opened Faithful

  ghost predicate IsRun(ss: seq<Sys>, ls: seq<Label>) {
    && |ss| == |ls| + 1
    && Initial(ss[0])
    && forall i :: 0 <= i < |ls| ==> Enabled(ss[i], ls[i]) && ss[i + 1] == Next(ss[i], ls[i])
  }

  lemma InitialInv(s: Sys)
    requires Initial(s)
    ensures Inv(s) && LogFollows(s) && ReplacementFollows(s)
  {
    hide Meaning, Explains;
    assert s.hist + Pend(s) == s.log && s.log + Pend(s) == s.log;
  }

  /** Log order is mutation order: with any number of clients, however stale their clock readings,
      and whatever expiry deletes behind their backs, the records appended so far plus the one the
      gate holder still owes explain memory, up to keys already expired. */
  lemma {:induction false} LogOrderIsMutationOrder(ss: seq<Sys>, ls: seq<Label>, i: nat)
    requires IsRun(ss, ls) && i < |ss| && !ss[i].failed
    ensures Inv(ss[i])
  {
    hide Inv, Next, Enabled, Initial;
    if i == 0 {
      InitialInv(ss[0]);
    } else {
      assert ss[i] == Next(ss[i - 1], ls[i - 1]);
      FailureLatches(ss[i - 1], ls[i - 1]);
      LogOrderIsMutationOrder(ss, ls, i - 1);
      StepKeepsInv(ss[i - 1], ls[i - 1]);
    }
  }

  lemma {:induction false} NeverFailedBefore(ss: seq<Sys>, ls: seq<Label>, i: nat, j: nat)
    requires IsRun(ss, ls) && i <= j < |ss| && !ss[j].failed
    ensures !ss[i].failed
  {
    hide Initial, Enabled, Next;
    if i < j {
      assert ss[j] == Next(ss[j - 1], ls[j - 1]);
      FailureLatches(ss[j - 1], ls[j - 1]);
      NeverFailedBefore(ss, ls, i, j - 1);
    }
  }

  /** Rewrite safety: in every run whose moved deadlines are harmless so far, through any number of
      rewrites that install or abort at any point, the log in force agrees with the full history up
      to keys already expired. */
  lemma {:induction false} RewriteIsSafe(ss: seq<Sys>, ls: seq<Label>, i: nat)
    requires IsRun(ss, ls) && i < |ss| && !ss[i].failed
    requires forall j :: 0 <= j < i ==> Harmless(ss[j], ls[j])
    ensures Inv(ss[i]) && LogFollows(ss[i]) && ReplacementFollows(ss[i])
  {
    hide Inv, Next, Enabled, Initial, LogFollows, ReplacementFollows, Harmless;
    LogOrderIsMutationOrder(ss, ls, i);
    if i == 0 {
      InitialInv(ss[0]);
    } else {
      assert ss[i] == Next(ss[i - 1], ls[i - 1]);
      FailureLatches(ss[i - 1], ls[i - 1]);
      RewriteIsSafe(ss, ls, i - 1);
      StepKeepsLog(ss[i - 1], ls[i - 1]);
      StepKeepsReplacement(ss[i - 1], ls[i - 1]);
    }
  }

  /** A deadline moved on a key that the log, or what stands for it, lacks is a key lost. */
  lemma HarmShows(x: Keyspace, h: Keyspace, s: Sys, k: Key)
    requires Moves(s, Mutate) && s.gate.op.key == k && Explains(h, s.mem, s.clock, k)
    requires k !in x && s.gate.op.at > s.clock
    ensures !Follows(Run(x, Mutation(s).recs), Run(h, Mutation(s).recs), Mutation(s).ks, s.clock, k)
  {
    hide Run;
    var r := RExpireAt(k, Millis(s.gate.op.at));
    assert Mutation(s).recs == [r] && Mutation(s).ks[k].dl == Some(s.gate.op.at);
    RunOne(x, r);
    RunOne(h, r);
    ApplyLook(x, r, k);
    ApplyLook(h, r, k);
  }

  /** What makes one mutation safe, for the log in force and for the replacement being built. */
  lemma CommitIsSafeIff(s: Sys)
    requires Inv(s) && LogFollows(s) && ReplacementFollows(s) && Enabled(s, Mutate) && !s.failed
    ensures LogFollows(Next(s, Mutate)) && ReplacementFollows(Next(s, Mutate)) <==> Harmless(s, Mutate)
  {
    hide Meaning, Run, Inv, Mutation;
    var s' := Next(s, Mutate);
    if Harmless(s, Mutate) {
      StepKeepsLog(s, Mutate);
      StepKeepsReplacement(s, Mutate);
    } else {
      var k := s.gate.op.key;
      var recs := Mutation(s).recs;
      ExplainedBy(s, k);
      assert s.hist + Pend(s) == s.hist;
      MeaningConcat(s.hist, recs);
      if k !in Meaning(s.log) {
        HarmShows(Meaning(s.log), Meaning(s.hist), s, k);
        MeaningConcat(s.log, recs);
        assert !Follows(Meaning(s'.log + Pend(s')), Meaning(s'.hist + Pend(s')), s'.mem, s'.clock, k);
      } else {
        HarmShows(Run(Meaning(s.walk.acc), s.tail), Meaning(s.hist), s, k);
        RunConcat(Meaning(s.walk.acc), s.tail, recs);
        assert !Follows(Run(Meaning(s'.walk.acc), s'.tail + Pend(s')), Meaning(s'.hist + Pend(s')),
                        s'.mem, s'.clock, k);
      }
    }
  }

  /** The exact condition over whole runs: the log and the replacement follow the history in every
      state if and only if every deadline the run moves is harmless where it is moved. */
  lemma RewriteIsSafeIff(ss: seq<Sys>, ls: seq<Label>)
    requires IsRun(ss, ls) && !ss[|ls|].failed
    ensures (forall i :: 0 <= i < |ss| ==> LogFollows(ss[i]) && ReplacementFollows(ss[i]))
       <==> (forall i :: 0 <= i < |ls| ==> Harmless(ss[i], ls[i]))
  {
    hide Inv, Next, Enabled, Initial, LogFollows, ReplacementFollows, Harmless;
    if forall i :: 0 <= i < |ls| ==> Harmless(ss[i], ls[i]) {
      forall i | 0 <= i < |ss|
        ensures LogFollows(ss[i]) && ReplacementFollows(ss[i])
      {
        NeverFailedBefore(ss, ls, i, |ls|);
        RewriteIsSafe(ss, ls, i);
      }
    }
    if forall i :: 0 <= i < |ss| ==> LogFollows(ss[i]) && ReplacementFollows(ss[i]) {
      forall i | 0 <= i < |ls|
        ensures Harmless(ss[i], ls[i])
      {
        SafeStepIsHarmless(ss, ls, i);
      }
    }
  }

  lemma SafeStepIsHarmless(ss: seq<Sys>, ls: seq<Label>, i: nat)
    requires IsRun(ss, ls) && !ss[|ls|].failed && i < |ls|
    requires LogFollows(ss[i]) && ReplacementFollows(ss[i])
    requires LogFollows(ss[i + 1]) && ReplacementFollows(ss[i + 1])
    ensures Harmless(ss[i], ls[i])
  {
    hide Inv, Next, Enabled, Initial, LogFollows, ReplacementFollows;
    NeverFailedBefore(ss, ls, i, |ls|);
    LogOrderIsMutationOrder(ss, ls, i);
    if ls[i].Mutate? {
      assert Enabled(ss[i], ls[i]) && ss[i + 1] == Next(ss[i], ls[i]);
      CommitIsSafeIff(ss[i]);
    }
  }

  /** In a run whose moved deadlines are all timely they are all harmless, so its log and its
      rewrites are safe. */
  lemma {:induction false} TimelyRunIsHarmless(ss: seq<Sys>, ls: seq<Label>, i: nat)
    requires IsRun(ss, ls) && i < |ls| && !ss[i].failed && forall j :: 0 <= j <= i ==> Timely(ss[j], ls[j])
    ensures forall j :: 0 <= j <= i ==> Harmless(ss[j], ls[j])
  {
    hide Inv, Next, Enabled, Initial, LogFollows, ReplacementFollows, Harmless, Timely;
    if i > 0 {
      NeverFailedBefore(ss, ls, i - 1, i);
      TimelyRunIsHarmless(ss, ls, i - 1);
    }
    RewriteIsSafe(ss, ls, i);
    TimelyIsHarmless(ss[i], ls[i]);
  }

  // ----- what clients see -----

  /** At the present and every later instant the log in force shows the same live keyspace as
      memory, deadlines rounded down to the millisecond. */
  lemma LogAlwaysShowsMemory(ss: seq<Sys>, ls: seq<Label>, i: nat, t: int)
    requires IsRun(ss, ls) && i < |ss| && !ss[i].failed && t >= ss[i].clock
    requires forall j :: 0 <= j < i ==> Harmless(ss[j], ls[j])
    ensures Visible(Meaning(ss[i].log + Pend(ss[i])), t) == Persisted(ss[i].mem, t)
  {
    hide IsRun, Harmless, Meaning, Inv, LogFollows, ReplacementFollows;
    RewriteIsSafe(ss, ls, i);
    LogShowsMemory(ss[i], t);
  }

  /** Expiry collection is unobservable: removing a key that has expired changes what is visible
      neither now nor at any later instant, so a key set afresh in between survives. */
  lemma CollectIsInvisible(s: Sys, k: Key, now: int, t: int)
    requires Enabled(s, Collect(k, now)) && t >= s.clock
    ensures Visible(Next(s, Collect(k, now)).mem, t) == Visible(s.mem, t)
  {
  }

  // ----- the clock reading that is taken too early -----

  ghost predicate Ends(ss: seq<Sys>, ls: seq<Label>, s: Sys) {
    IsRun(ss, ls) && ss[|ls|] == s
  }

  lemma Extend(ss: seq<Sys>, ls: seq<Label>, s: Sys, l: Label) returns (ss': seq<Sys>, ls': seq<Label>, s': Sys)
    requires Ends(ss, ls, s) && Enabled(s, l)
    ensures s' == Next(s, l) && Ends(ss', ls', s')
  {
    hide Enabled, Next, Initial;
    s' := Next(s, l);
    ss', ls' := ss + [s'], ls + [l];
  }

  lemma {:induction false} WalkNothing(ss: seq<Sys>, ls: seq<Label>, s: Sys)
      returns (ss': seq<Sys>, ls': seq<Label>, s': Sys)
    requires Ends(ss, ls, s)
    requires s.walk.Walking? && s.walk.next <= SHARDS && s.walk.acc == []
    requires forall k :: k in s.mem ==> Expired(s.mem[k], s.walk.now)
    ensures s' == s.(walk := Walking(s.walk.now, SHARDS, [])) && Ends(ss', ls', s')
    decreases SHARDS - s.walk.next
  {
    hide Ends;
    ss', ls', s' := ss, ls, s;
    if s.walk.next < SHARDS {
      assert Enumerates([], LivePart(s.mem, s.walk.next, s.walk.now));
      ss', ls', s' := Extend(ss, ls, s, WalkShard([]));
      ss', ls', s' := WalkNothing(ss', ls', s');
    }
  }

  /** One key with a deadline is in memory and in the log. */
  lemma StoreOneKey(k: Key, it: Item) returns (ss: seq<Sys>, ls: seq<Label>, s: Sys)
    ensures Ends(ss, ls, s)
    ensures s == Sys(map[k := it], 0, Free, [SetRec(k, it)], [SetRec(k, it)], false, [], NotWalking, false)
  {
    hide Run;
    s := Sys(map[], 0, Free, [], [], false, [], NotWalking, false);
    MeaningOfNothing();
    ss, ls := [s], [];
    assert Ends(ss, ls, s);
    hide Ends;
    ss, ls, s := Extend(ss, ls, s, Acquire(OSet(k, it), 0));
    ss, ls, s := Extend(ss, ls, s, Mutate);
    ss, ls, s := Extend(ss, ls, s, Append);
    ss, ls, s := Extend(ss, ls, s, Release);
  }

  /** The race is real: a run in which nothing fails, yet a rewrite installs a log without a key
      that every client sees. ExpireAt read the clock before the old deadline, the rewriter walked
      past the key after it, and only then did ExpireAt move the deadline. */
  lemma StaleClockLosesKey(k: Key, v: Bytes) returns (ss: seq<Sys>, ls: seq<Label>, s: Sys)
    ensures Ends(ss, ls, s)
    ensures !s.failed && s.gate.Free? && !s.rewriting && Live(s.mem, k, s.clock) && k !in Meaning(s.log)
  {
    hide Ends, Run;
    var soon, late := 10 * NS_PER_MS, 100 * NS_PER_MS;
    ss, ls, s := StoreOneKey(k, Item(v, Some(soon)));
    ss, ls, s := Extend(ss, ls, s, BeginRewrite);
    ss, ls, s := Extend(ss, ls, s, Acquire(OExpireAt(k, late), 0));
    ss, ls, s := Extend(ss, ls, s, Tick(soon));
    ss, ls, s := Extend(ss, ls, s, StartWalk);
    ss, ls, s := WalkNothing(ss, ls, s);
    ss, ls, s := Extend(ss, ls, s, Mutate);
    ss, ls, s := Extend(ss, ls, s, Append);
    ss, ls, s := Extend(ss, ls, s, Release);
    ss, ls, s := Extend(ss, ls, s, Install);
    var r := RExpireAt(k, Millis(late));
    assert s.log == [r];
    MeaningOfNothing();
    RunOne(map[], r);
  }

  // ----- concurrent counters -----

  /** What the step adds to the counter at k. */
  ghost function Added(s: Sys, l: Label, k: Key): int {
    if l.Mutate? && s.gate.Loaded? && s.gate.op.OIncrement? && s.gate.op.key == k
       && Bumped(s.gate.seen, s.gate.op.delta).Some?
    then s.gate.op.delta else 0
  }

  ghost function TotalAdded(ss: seq<Sys>, ls: seq<Label>, from: nat, to: nat, k: Key): int
    requires from <= to <= |ls| < |ss|
  {
    if from == to then 0 else TotalAdded(ss, ls, from, to - 1, k) + Added(ss[to - 1], ls[to - 1], k)
  }

  /** Only increments write to k in this step. */
  ghost predicate OnlyIncrements(s: Sys, l: Label, k: Key) {
    l.Mutate? && (s.gate.Entered? || s.gate.Loaded?) ==>
      match s.gate.op
      case OSet(key, _) => key != k
      case OMSet(pairs) => LastAssigned(pairs, k).None?
      case ODel(keys) => k !in keys
      case OExpireAt(key, _) => key != k
      case OEvict(key) => key != k
      case OAppend(key, _) => key != k
      case OIncrement(_, _) => true
  }

  /** k holds the decimal text of n, with this deadline or none; or k is missing and counts as 0. */
  ghost predicate Counts(s: Sys, k: Key, n: int, dl: Option<int>) {
    if k in s.mem then s.mem[k].dl == dl && ParseInt(s.mem[k].val) == Some(n) else n == 0 && dl == None
  }

  ghost predicate StillAhead(dl: Option<int>, clock: int) {
    dl.Some? ==> clock < dl.value
  }

  /** The gate holder's clock reading is not ahead of the clock; and if it has read the counter, it
      read its present value: the gate keeps writers out. */
  ghost predicate ReadIsCurrent(s: Sys, k: Key) {
    && (s.gate.Entered? || s.gate.Loaded? ==> s.gate.now <= s.clock)
    && (s.gate.Loaded? && ReadsFirst(s.gate.op) && s.gate.op.key == k ==> s.gate.seen == Look(s.mem, k))
  }

  lemma CounterStep(s: Sys, l: Label, k: Key, n: int, dl: Option<int>)
    requires Enabled(s, l) && OnlyIncrements(s, l, k) && StillAhead(dl, s.clock)
    requires Counts(s, k, n, dl) && ReadIsCurrent(s, k)
    ensures Counts(Next(s, l), k, n + Added(s, l, k), dl) && ReadIsCurrent(Next(s, l), k)
  {
    hide ParseInt, Itoa, Enumerates, ShardIndex;
    if l.Mutate? {
      match s.gate.op {
        case OMSet(pairs) => AssignAllLook(s.mem, pairs, k);
        case OIncrement(key, delta) =>
          var sum := Bumped(s.gate.seen, delta);
          if sum.Some? {
            ItoaParsesBack(sum.value);
          }
        case _ =>
      }
    }
  }

  /** However increments to one key, missing or with no deadline or one still ahead, interleave with each other
      and with everything else, the counter ends at its start plus the sum of the successful deltas,
      none lost, and its deadline is the one it started with. */
  lemma {:induction false} IncrementsAddUp(ss: seq<Sys>, ls: seq<Label>, from: nat, to: nat, k: Key, n: int,
                                           dl: Option<int>)
    requires IsRun(ss, ls) && from <= to <= |ls|
    requires ss[from].gate.Free? && Counts(ss[from], k, n, dl)
    requires forall i :: from <= i < to ==> OnlyIncrements(ss[i], ls[i], k) && StillAhead(dl, ss[i].clock)
    ensures Counts(ss[to], k, n + TotalAdded(ss, ls, from, to, k), dl) && ReadIsCurrent(ss[to], k)
  {
    hide Next, Enabled, Counts, OnlyIncrements, Added, StillAhead;
    if from < to {
      IncrementsAddUp(ss, ls, from, to - 1, k, n, dl);
      CounterStep(ss[to - 1], ls[to - 1], k, n + TotalAdded(ss, ls, from, to - 1, k), dl);
    }
  }
}

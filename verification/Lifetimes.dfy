/**
 Runs that go through any number of crashes and restarts, whatever those lose: a crash may cut the
 log anywhere, and a restart may drop keys to superseded deadlines. A log is then good for memory
 if it means what memory holds live, and can never bring back what memory does not.
 */
module Lifetimes {
  import opened Bytes
  import opened Routing
  import opened Keyspace
  import opened Journal
  import opened Restart
  import opened Protocol
  import opened Faithful

  // ----- what a log can never show again -----

  /** A deadline of the key's present life has passed by c: no replay from c on gets over it. */
  ghost predicate Lost(rs: seq<Rec>, k: Key, c: int) {
    exists i :: 0 <= i < |rs| && Current(rs, i, k) && MeetsPastDeadline(rs, i, k, c)
  }

  ghost predicate Gone(rs: seq<Rec>, k: Key, c: int) {
    k !in Meaning(rs) || Lost(rs, k, c)
  }

  lemma GoneIsNotReplayed(rs: seq<Rec>, ts: seq<int>, k: Key, c: int)
    requires Gone(rs, k, c) && |rs| == |ts| && forall i :: 0 <= i < |ts| ==> c <= ts[i]
    ensures k !in Replayed(rs, ts)
  {
    hide Meaning, Replayed, FxOf;
    RestartIsSound(rs, ts, k);
    if k in Meaning(rs) {
      RestartIsExact(rs, ts, k);
      var i :| 0 <= i < |rs| && Current(rs, i, k) && MeetsPastDeadline(rs, i, k, c);
      PastStaysPast(rs, i, k, c, ts[i]);
    }
  }

  lemma PastStaysPast(rs: seq<Rec>, i: nat, k: Key, c: int, c': int)
    requires i < |rs| && MeetsPastDeadline(rs, i, k, c) && c <= c'
    ensures MeetsPastDeadline(rs, i, k, c')
  {
    hide Meaning;
  }

  lemma GoneLater(rs: seq<Rec>, k: Key, c: int, c': int)
    requires Gone(rs, k, c) && c <= c'
    ensures Gone(rs, k, c')
  {
    hide Meaning, FxOf;
    if k in Meaning(rs) {
      var i :| 0 <= i < |rs| && Current(rs, i, k) && MeetsPastDeadline(rs, i, k, c);
      PastStaysPast(rs, i, k, c, c');
    }
  }

  /** A record that does not fix the key's state does not bring it back. */
  lemma LostStays(rs: seq<Rec>, r: Rec, k: Key, c: int)
    requires Lost(rs, k, c) && !FxOf(r, k).Const?
    ensures Lost(rs + [r], k, c)
  {
    hide Meaning, FxOf;
    var i :| 0 <= i < |rs| && Current(rs, i, k) && MeetsPastDeadline(rs, i, k, c);
    var longer := rs + [r];
    assert longer[..i] == rs[..i];
    assert Current(longer, i, k) && MeetsPastDeadline(longer, i, k, c);
  }

  /** What the log means but has expired is lost. */
  lemma {:induction false} ExpiredIsLost(rs: seq<Rec>, k: Key, c: int)
    requires k in Meaning(rs) && Expired(Meaning(rs)[k], c)
    ensures Lost(rs, k, c)
  {
    var n := |rs| - 1;
    var r := rs[n];
    ApplyLook(Meaning(rs[..n]), r, k);
    if FxOf(r, k).Keep? {
      ExpiredIsLost(rs[..n], k, c);
      LostStays(rs[..n], r, k, c);
      assert rs == rs[..n] + [r];
    } else {
      assert Current(rs, n, k) && MeetsPastDeadline(rs, n, k, c);
    }
  }

  // ----- a tail that fixes the key decides on its own -----

  lemma {:induction false} ConstShows(rs: seq<Rec>, j: nat, k: Key)
    requires j < |rs| && FxOf(rs[j], k).Const?
    ensures Summary(rs, k).Const?
  {
    hide FxOf;
    var n := |rs| - 1;
    if j < n {
      ConstShows(rs[..n], j, k);
    }
  }

  lemma {:induction false} ConstFound(rs: seq<Rec>, k: Key) returns (j: nat)
    requires Summary(rs, k).Const?
    ensures j < |rs| && FxOf(rs[j], k).Const?
  {
    hide FxOf;
    var n := |rs| - 1;
    j := n;
    if !FxOf(rs[n], k).Const? {
      j := ConstFound(rs[..n], k);
    }
  }

  /** After a record that fixes the key, what came before the tail no longer matters. */
  lemma SamePrefixState(a: seq<Rec>, b: seq<Rec>, t: seq<Rec>, j: nat, n: nat, k: Key)
    requires j < n <= |t| && FxOf(t[j], k).Const?
    ensures Look(Meaning((a + t)[..|a| + n]), k) == Look(Meaning((b + t)[..|b| + n]), k)
  {
    hide Meaning, FxOf;
    var head := t[..n];
    assert (a + t)[..|a| + n] == a + head && (b + t)[..|b| + n] == b + head;
    ConstShows(head, j, k);
    MeaningConcat(a, head);
    MeaningConcat(b, head);
    RunLook(Meaning(a), head, k);
    RunLook(Meaning(b), head, k);
  }

  lemma LostCarriesOver(a: seq<Rec>, b: seq<Rec>, t: seq<Rec>, k: Key, c: int)
    requires Lost(a + t, k, c) && Summary(t, k).Const?
    ensures Lost(b + t, k, c)
  {
    hide Meaning, FxOf, Summary;
    var at, bt := a + t, b + t;
    var i :| 0 <= i < |at| && Current(at, i, k) && MeetsPastDeadline(at, i, k, c);
    var j := ConstFound(t, k);
    assert at[|a| + j] == t[j];
    assert i >= |a| + j;
    var n := i - |a|;
    assert at[i] == t[n] && bt[|b| + n] == t[n];
    assert Current(bt, |b| + n, k) by {
      forall x | |b| + n < x < |bt|
        ensures !FxOf(bt[x], k).Const?
      {
        assert bt[x] == at[x - |b| + |a|];
      }
    }
    if n > j {
      SamePrefixState(a, b, t, j, n, k);
    }
    assert MeetsPastDeadline(bt, |b| + n, k, c);
  }

  // ----- good logs -----

  /** Memory holds the key live and the log means what memory holds. */
  ghost predicate Meant(rs: seq<Rec>, mem: Keyspace, c: int, k: Key) {
    !Dead(Look(mem, k), c) && Look(Meaning(rs), k) == Some(Floored(mem[k]))
  }

  /** The log can never show the key again, or shows it as memory does. */
  ghost predicate Good(rs: seq<Rec>, mem: Keyspace, c: int, k: Key) {
    Gone(rs, k, c) || Meant(rs, mem, c, k)
  }

  /** A log that means what memory holds is good for it, expired or not. */
  lemma MeantIsGood(rs: seq<Rec>, mem: Keyspace, c: int, k: Key)
    requires Look(Meaning(rs), k) == FlooredLook(Look(mem, k))
    ensures Good(rs, mem, c, k)
  {
    hide Meaning;
    if k in mem && Expired(mem[k], c) {
      FlooredExpires(mem[k], c);
      ExpiredIsLost(rs, k, c);
    }
  }

  lemma GoodLater(rs: seq<Rec>, mem: Keyspace, c: int, mem': Keyspace, c': int, k: Key)
    requires Good(rs, mem, c, k) && c <= c'
    requires Look(mem', k) == Look(mem, k) || (Look(mem', k) == None && Dead(Look(mem, k), c))
    ensures Good(rs, mem', c', k)
  {
    hide Meaning, Lost;
    if Gone(rs, k, c) {
      GoneLater(rs, k, c, c');
    } else {
      MeantIsGood(rs, mem', c', k);
    }
  }

  /** No record but one that fixes the key brings it back. */
  lemma GoneStays(rs: seq<Rec>, recs: seq<Rec>, k: Key, c: int)
    requires Gone(rs, k, c) && |recs| <= 1 && !Summary(recs, k).Const?
    ensures Gone(rs + recs, k, c)
  {
    hide Meaning, Lost, FxOf, Summary;
    if recs == [] {
      assert rs + recs == rs;
    } else {
      assert recs == [recs[0]];
      SummaryOne(recs[0], k);
      MeaningConcat(rs, recs);
      RunLook(Meaning(rs), recs, k);
      if Lost(rs, k, c) {
        LostStays(rs, recs[0], k, c);
      }
    }
  }

  /** A mutation and its record, however stale the clock reading behind it, keep every good log good. */
  lemma MutationStaysGood(rs: seq<Rec>, s: Sys, k: Key)
    requires GateOk(s) && Enabled(s, Mutate) && Good(rs, s.mem, s.clock, k)
    ensures Good(rs + Mutation(s).recs, Mutation(s).ks, s.clock, k)
  {
    hide Meaning, OpEffect, Gone, Summary, FxOf;
    var e := Mutation(s);
    OpOnKey(s.gate.op, s.mem, s.gate.now, if s.gate.Loaded? then s.gate.seen else None, k);
    if Gone(rs, k, s.clock) && !Summary(e.recs, k).Const? {
      GoneStays(rs, e.recs, k, s.clock);
    } else {
      MeaningConcat(rs, e.recs);
      RunLook(Meaning(rs), e.recs, k);
      MeantIsGood(rs + e.recs, e.ks, s.clock, k);
    }
  }

  // ----- states -----

  /** The history means every key in memory, expired or not. */
  ghost predicate HistoryHolds(s: Sys) {
    forall k :: k in s.mem ==> Look(Meaning(s.hist + Pend(s)), k) == Some(Floored(s.mem[k]))
  }

  ghost predicate AllGood(s: Sys) {
    && (forall k :: Good(s.hist + Pend(s), s.mem, s.clock, k))
    && (forall k :: Good(s.log + Pend(s), s.mem, s.clock, k))
  }

  ghost predicate ReplacementGood(s: Sys) {
    s.walk.Walking? ==>
      forall k :: ShardIndex(k) < s.walk.next ==> Good(s.walk.acc + (s.tail + Pend(s)), s.mem, s.clock, k)
  }

  /** The log says of the key what the history says, or nothing. */
  ghost predicate Agrees(x: Keyspace, h: Keyspace, k: Key) {
    k in x ==> Look(x, k) == Look(h, k)
  }

  ghost predicate Agreeing(s: Sys) {
    && (forall k :: Agrees(Meaning(s.log + Pend(s)), Meaning(s.hist + Pend(s)), k))
    && (forall k :: WalkedPast(s, k) ==> Agrees(Meaning(s.walk.acc + (s.tail + Pend(s))), Meaning(s.hist + Pend(s)), k))
  }

  ghost predicate Alive(s: Sys) {
    GateOk(s) && WalkOk(s) && HistoryHolds(s) && AllGood(s) && ReplacementGood(s) && Agreeing(s)
  }

  lemma StepKeepsHolding(s: Sys, l: Label)
    requires HistoryHolds(s) && Enabled(s, l) && !s.failed && !l.Fail?
    ensures HistoryHolds(Next(s, l))
  {
    hide Meaning, Run, OpEffect, Enumerates, ShardIndex, Summary;
    var s' := Next(s, l);
    forall k | k in s'.mem
      ensures Look(Meaning(s'.hist + Pend(s')), k) == Some(Floored(s'.mem[k]))
    {
      if l.Mutate? {
        var e := Mutation(s);
        OpOnKey(s.gate.op, s.mem, s.gate.now, if s.gate.Loaded? then s.gate.seen else None, k);
        MeaningOfMutation(s, e.recs);
        RunLook(Meaning(s.hist + Pend(s)), e.recs, k);
      } else {
        assert s'.hist + Pend(s') == s.hist + Pend(s);
      }
    }
  }

  /** A log that is appended to like the history stays good. */
  lemma StepKeepsGood(rs: seq<Rec>, rs': seq<Rec>, s: Sys, l: Label, k: Key)
    requires GateOk(s) && Enabled(s, l)
    requires Good(rs, s.mem, s.clock, k)
    requires rs' == if l.Mutate? then rs + Mutation(s).recs else rs
    ensures Good(rs', Next(s, l).mem, Next(s, l).clock, k)
  {
    hide Good, Enumerates, OpEffect;
    var s' := Next(s, l);
    if l.Mutate? {
      MutationStaysGood(rs, s, k);
    } else {
      GoodLater(rs, s.mem, s.clock, s'.mem, s'.clock, k);
    }
  }

  lemma StepKeepsAllGood(s: Sys, l: Label)
    requires Alive(s) && Enabled(s, l) && !s.failed && !l.Fail?
    ensures AllGood(Next(s, l))
  {
    hide Good, Enumerates, OpEffect, HistoryHolds, WalkOk;
    var s' := Next(s, l);
    forall k
      ensures Good(s'.hist + Pend(s'), s'.mem, s'.clock, k)
      ensures Good(s'.log + Pend(s'), s'.mem, s'.clock, k)
    {
      if l.Mutate? {
        assert s.hist + Pend(s) + Mutation(s).recs == s'.hist + Pend(s');
        assert s.log + Pend(s) + Mutation(s).recs == s'.log + Pend(s');
      } else {
        assert s'.hist + Pend(s') == s.hist + Pend(s);
      }
      StepKeepsGood(s.hist + Pend(s), s'.hist + Pend(s'), s, l, k);
      if l.Install? {
        assert s'.log + Pend(s') == s.walk.acc + (s.tail + Pend(s));
      } else {
        assert !l.Mutate? ==> s'.log + Pend(s') == s.log + Pend(s);
        StepKeepsGood(s.log + Pend(s), s'.log + Pend(s'), s, l, k);
      }
    }
  }

  lemma StepKeepsReplacementGood(s: Sys, l: Label)
    requires Alive(s) && Enabled(s, l) && !s.failed && !l.Fail?
    ensures ReplacementGood(Next(s, l))
  {
    hide Good, Enumerates, OpEffect, HistoryHolds, WalkOk, AllGood;
    var s' := Next(s, l);
    if s'.walk.Walking? && !l.StartWalk? {
      forall k | ShardIndex(k) < s'.walk.next
        ensures Good(s'.walk.acc + (s'.tail + Pend(s')), s'.mem, s'.clock, k)
      {
        if l.WalkShard? {
          WalkedIsGood(s, l.recs, k);
        } else {
          var rs, rs' := s.walk.acc + (s.tail + Pend(s)), s'.walk.acc + (s'.tail + Pend(s'));
          if l.Mutate? {
            assert rs + Mutation(s).recs == rs';
          } else {
            WalkingRewrites(s);
            assert s'.tail + Pend(s') == s.tail + Pend(s);
          }
          StepKeepsGood(rs, rs', s, l, k);
        }
      }
    }
  }

  lemma WalkingRewrites(s: Sys)
    requires WalkOk(s) && s.walk.Walking?
    ensures s.rewriting
  {
  }

  /** Walking a shard: the copy and the tail together are good for its keys. */
  lemma WalkedIsGood(s: Sys, recs: seq<Rec>, k: Key)
    requires Alive(s) && Enabled(s, WalkShard(recs)) && ShardIndex(k) < s.walk.next + 1
    ensures Good(s.walk.acc + recs + (s.tail + Pend(s)), s.mem, s.clock, k)
  {
    hide Meaning, HistoryHolds, AllGood, Good;
    var t := s.tail + Pend(s);
    if ShardIndex(k) < s.walk.next {
      assert Good(s.walk.acc + t, s.mem, s.clock, k);
      OtherRecordsGood(s.walk.acc, recs, t, s.mem, s.clock, k);
    } else {
      NewShardIsGood(s, recs, k);
    }
  }

  lemma LostInsert(a: seq<Rec>, more: seq<Rec>, t: seq<Rec>, k: Key, c: int)
    requires Lost(a + t, k, c) && forall j :: 0 <= j < |more| ==> FxOf(more[j], k).Keep?
    ensures Lost(a + more + t, k, c)
  {
    hide Meaning, FxOf;
    var rs, rs' := a + t, a + more + t;
    var i :| 0 <= i < |rs| && Current(rs, i, k) && MeetsPastDeadline(rs, i, k, c);
    var i' := if i < |a| then i else i + |more|;
    assert rs'[i'] == rs[i];
    assert Current(rs', i', k) by {
      forall x | i' < x < |rs'|
        ensures !FxOf(rs'[x], k).Const?
      {
        if x < |a| {
          assert rs'[x] == rs[x];
        } else if x < |a| + |more| {
          assert rs'[x] == more[x - |a|];
        } else {
          assert rs'[x] == rs[x - |more|];
        }
      }
    }
    if i < |a| {
      assert rs'[..i'] == rs[..i];
    } else {
      SkipOthers(a, more, t[..i - |a|], k);
      assert rs[..i] == a + t[..i - |a|] && rs'[..i'] == a + more + t[..i - |a|];
    }
    assert MeetsPastDeadline(rs', i', k, c);
  }

  lemma {:induction false} AllKeep(more: seq<Rec>, k: Key)
    requires forall j :: 0 <= j < |more| ==> FxOf(more[j], k).Keep?
    ensures Summary(more, k).Keep?
  {
    hide FxOf;
    if more != [] {
      AllKeep(more[..|more| - 1], k);
    }
  }

  lemma SkipOthers(a: seq<Rec>, more: seq<Rec>, t: seq<Rec>, k: Key)
    requires forall j :: 0 <= j < |more| ==> FxOf(more[j], k).Keep?
    ensures Look(Meaning(a + more + t), k) == Look(Meaning(a + t), k)
  {
    hide Meaning, FxOf, Summary;
    AllKeep(more, k);
    MeaningConcat(a, more);
    RunLook(Meaning(a), more, k);
    MeaningConcat(a + more, t);
    MeaningConcat(a, t);
    RunLook(Meaning(a + more), t, k);
    RunLook(Meaning(a), t, k);
  }

  /** Records of another shard change nothing for this key. */
  lemma OtherRecordsGood(a: seq<Rec>, more: seq<Rec>, t: seq<Rec>, mem: Keyspace, c: int, k: Key)
    requires Good(a + t, mem, c, k)
    requires forall j :: 0 <= j < |more| ==> FxOf(more[j], k).Keep?
    ensures Good(a + more + t, mem, c, k)
  {
    hide Meaning, FxOf, Lost;
    SkipOthers(a, more, t, k);
    if Lost(a + t, k, c) {
      LostInsert(a, more, t, k, c);
    }
  }

  lemma NewShardIsGood(s: Sys, recs: seq<Rec>, k: Key)
    requires Alive(s) && Enabled(s, WalkShard(recs)) && ShardIndex(k) == s.walk.next
    ensures Good(s.walk.acc + recs + (s.tail + Pend(s)), s.mem, s.clock, k)
  {
    hide Meaning, Run, Enumerates, Lost, Summary, GateOk, ReplacementGood;
    var t := s.tail + Pend(s);
    var acc' := s.walk.acc + recs;
    var rs, f := acc' + t, Summary(t, k);
    AccAfterWalk(s, recs, k);
    TailAbsorbed(s, k);
    MeaningConcat(acc', t);
    RunLook(Meaning(acc'), t, k);
    assert Good(s.hist + Pend(s), s.mem, s.clock, k);
    if k in s.mem && (f.Const? || !Expired(s.mem[k], s.walk.now)) {
      MeantIsGood(rs, s.mem, s.clock, k);
    } else if f.Const? && Lost(s.hist + Pend(s), k, s.clock) {
      var base := s.hist[..|s.hist| - |s.tail|];
      assert s.hist + Pend(s) == base + t;
      LostCarriesOver(base, acc', t, k, s.clock);
    }
  }

  // ----- what the log says, the history says -----

  lemma AgreesAfter(a: seq<Rec>, b: seq<Rec>, recs: seq<Rec>, k: Key)
    requires Agrees(Meaning(a), Meaning(b), k)
    ensures Agrees(Meaning(a + recs), Meaning(b + recs), k)
  {
    hide Meaning, Run, Summary;
    MeaningConcat(a, recs);
    MeaningConcat(b, recs);
    RunLook(Meaning(a), recs, k);
    RunLook(Meaning(b), recs, k);
  }

  lemma WalkedAgrees(s: Sys, recs: seq<Rec>, k: Key)
    requires WalkOk(s) && HistoryHolds(s) && Agreeing(s)
    requires Enabled(s, WalkShard(recs)) && ShardIndex(k) < s.walk.next + 1
    ensures Agrees(Meaning(s.walk.acc + recs + (s.tail + Pend(s))), Meaning(s.hist + Pend(s)), k)
  {
    hide Meaning, Run, Enumerates, Summary;
    var t := s.tail + Pend(s);
    AccAfterWalk(s, recs, k);
    MeaningConcat(s.walk.acc + recs, t);
    RunLook(Meaning(s.walk.acc + recs), t, k);
    if ShardIndex(k) < s.walk.next {
      assert WalkedPast(s, k);
      MeaningConcat(s.walk.acc, t);
      RunLook(Meaning(s.walk.acc), t, k);
    } else {
      TailAbsorbed(s, k);
    }
  }

  lemma StepKeepsAgreeing(s: Sys, l: Label)
    requires Alive(s) && Enabled(s, l) && !s.failed && !l.Fail?
    ensures Agreeing(Next(s, l))
  {
    hide Meaning, Enumerates, OpEffect, AllGood, ReplacementGood, GateOk, HistoryHolds, Agrees;
    var s' := Next(s, l);
    var h, h' := s.hist + Pend(s), s'.hist + Pend(s');
    var x, x' := s.log + Pend(s), s'.log + Pend(s');
    forall k
      ensures Agrees(Meaning(x'), Meaning(h'), k)
      ensures WalkedPast(s', k) ==> Agrees(Meaning(s'.walk.acc + (s'.tail + Pend(s'))), Meaning(h'), k)
    {
      if l.Mutate? {
        assert h' == h + Mutation(s).recs && x' == x + Mutation(s).recs;
        AgreesAfter(x, h, Mutation(s).recs, k);
        if WalkedPast(s', k) {
          var y := s.walk.acc + (s.tail + Pend(s));
          assert WalkedPast(s, k);
          assert s'.walk.acc + (s'.tail + Pend(s')) == y + Mutation(s).recs;
          AgreesAfter(y, h, Mutation(s).recs, k);
        }
      } else {
        assert h' == h;
        if l.Install? {
          assert x' == s.walk.acc + (s.tail + Pend(s));
          assert WalkedPast(s, k);
        } else {
          assert x' == x;
          if l.WalkShard? {
            if WalkedPast(s', k) {
              WalkedAgrees(s, l.recs, k);
            }
          } else if WalkedPast(s', k) && !l.StartWalk? {
            assert s'.tail + Pend(s') == s.tail + Pend(s);
          }
        }
      }
    }
  }

  // ----- steps and crashes -----

  lemma StepKeepsAlive(s: Sys, l: Label)
    requires Alive(s) && Enabled(s, l) && !s.failed && !l.Fail?
    ensures Alive(Next(s, l))
  {
    hide GateOk, WalkOk, HistoryHolds, AllGood, ReplacementGood, Agreeing;
    StepKeepsGate(s, l);
    StepKeepsWalk(s, l);
    StepKeepsHolding(s, l);
    StepKeepsAllGood(s, l);
    StepKeepsReplacementGood(s, l);
    StepKeepsAgreeing(s, l);
  }

  /** A server started on a log, each record handled at its own instant. */
  ghost function Reborn(log: seq<Rec>, ts: seq<int>, clock: int): Sys
    requires |log| == |ts|
  {
    Sys(Replayed(log, ts), clock, Free, log, log, false, [], NotWalking, false)
  }

  /** Whatever the log, however much the replay had to drop, the new server is alive. */
  lemma RebornIsAlive(log: seq<Rec>, ts: seq<int>, clock: int)
    requires |log| == |ts| && forall i :: 0 <= i < |ts| ==> ts[i] <= clock
    ensures Alive(Reborn(log, ts, clock))
  {
    hide Meaning, Replayed, Good;
    var s := Reborn(log, ts, clock);
    assert s.hist + Pend(s) == log && s.log + Pend(s) == log;
    forall k
      ensures k in s.mem ==> Look(Meaning(log), k) == Some(Floored(s.mem[k]))
      ensures Good(log, s.mem, clock, k)
    {
      RestartIsSound(log, ts, k);
      MeaningIsFloored(log, k);
      if k in s.mem || k !in Meaning(log) {
        MeantIsGood(log, s.mem, clock, k);
      } else {
        DroppedIsLost(log, ts, clock, k);
      }
    }
  }

  lemma DroppedIsLost(log: seq<Rec>, ts: seq<int>, clock: int, k: Key)
    requires |log| == |ts| && forall i :: 0 <= i < |ts| ==> ts[i] <= clock
    requires k in Meaning(log) && k !in Replayed(log, ts)
    ensures Good(log, Replayed(log, ts), clock, k)
  {
    hide Meaning, Replayed, FxOf;
    RestartIsExact(log, ts, k);
    var i :| 0 <= i < |log| && Current(log, i, k) && MeetsPastDeadline(log, i, k, ts[i]);
    PastStaysPast(log, i, k, ts[i], clock);
  }

  /** What happens to a server: a protocol step, or a crash that keeps the first `kept` records and
      a restart that handles them at instants `ts`. */
  datatype Turn = Step(l: Label) | CrashAndReplay(kept: nat, ts: seq<int>, clock: int)

  ghost predicate MayHappen(s: Sys, t: Turn) {
    match t
    case Step(l) => Enabled(s, l)
    case CrashAndReplay(kept, ts, clock) =>
      && kept <= |s.log| && |ts| == kept && s.clock <= clock
      && forall i :: 0 <= i < kept ==> s.clock <= ts[i] <= clock
  }

  ghost function After(s: Sys, t: Turn): Sys
    requires MayHappen(s, t)
  {
    match t
    case Step(l) => Next(s, l)
    case CrashAndReplay(kept, ts, clock) => Reborn(s.log[..kept], ts, clock)
  }

  /** A lifetime starts on any log at all, the empty one included. */
  ghost predicate IsLifetime(ss: seq<Sys>, turns: seq<Turn>, log: seq<Rec>, ts: seq<int>) {
    && |ss| == |turns| + 1
    && |log| == |ts| && (forall i :: 0 <= i < |ts| ==> ts[i] <= ss[0].clock)
    && ss[0] == Reborn(log, ts, ss[0].clock)
    && forall i :: 0 <= i < |turns| ==> MayHappen(ss[i], turns[i]) && ss[i + 1] == After(ss[i], turns[i])
  }

  /** In every state of every lifetime, until its log fails, memory and the log in force go together;
      a failed server lives again after its next crash. */
  lemma {:induction false} LifetimeStaysAlive(ss: seq<Sys>, turns: seq<Turn>, log: seq<Rec>, ts: seq<int>, i: nat)
    requires IsLifetime(ss, turns, log, ts) && i < |ss|
    ensures ss[i].failed || Alive(ss[i])
  {
    hide Alive, Reborn, Enabled;
    if i == 0 {
      RebornIsAlive(log, ts, ss[0].clock);
    } else {
      var s := ss[i - 1];
      LifetimeStaysAlive(ss, turns, log, ts, i - 1);
      assert MayHappen(s, turns[i - 1]) && ss[i] == After(s, turns[i - 1]);
      match turns[i - 1] {
        case Step(l) =>
          FailureLatches(s, l);
          if !ss[i].failed {
            StepKeepsAlive(s, l);
          }
        case CrashAndReplay(kept, instants, clock) =>
          RebornIsAlive(s.log[..kept], instants, clock);
      }
    }
  }

  /** Replay faithfulness over lifetimes: from every state without a pending record, through any
      number of earlier crashes that cut the log and restarts that dropped keys, and however stale
      the clock readings of its clients, a further restart shows only what memory would show, with
      the same value and floored deadline; and a key that memory still persists at the restart
      instant comes back if and only if the log means it live and every deadline superseded in its
      present life is ahead. */
  lemma RestartIsFaithful(ss: seq<Sys>, turns: seq<Turn>, log: seq<Rec>, ts: seq<int>, i: nat,
                          again: seq<int>, t: int, k: Key)
    requires IsLifetime(ss, turns, log, ts) && i < |ss| && !ss[i].failed && Pend(ss[i]) == []
    requires |again| == |ss[i].log| && t >= ss[i].clock
    requires forall j :: 0 <= j < |again| ==> ss[i].clock <= again[j]
    ensures Live(Replayed(ss[i].log, again), k, t) ==>
      Live(ss[i].mem, k, t) && Replayed(ss[i].log, again)[k] == Floored(ss[i].mem[k])
    ensures k in Persisted(ss[i].mem, t) ==>
      (Live(Replayed(ss[i].log, Always(t, |ss[i].log|)), k, t) <==>
        Live(Meaning(ss[i].log), k, t) && SupersededAfter(ss[i].log, k, t))
  {
    hide IsLifetime, Alive, Replayed, SupersededAfter, Meaning;
    LifetimeStaysAlive(ss, turns, log, ts, i);
    RestartShows(ss[i], again, t, k);
    RestartBrings(ss[i].log, t, k);
  }

  /** The same of one state: nothing but what memory shows. */
  lemma RestartShows(s: Sys, again: seq<int>, t: int, k: Key)
    requires Alive(s) && Pend(s) == [] && |again| == |s.log| && t >= s.clock
    requires forall j :: 0 <= j < |again| ==> s.clock <= again[j]
    ensures Live(Replayed(s.log, again), k, t) ==>
      Live(s.mem, k, t) && Replayed(s.log, again)[k] == Floored(s.mem[k])
  {
    hide Meaning, Replayed, GateOk, WalkOk, HistoryHolds, ReplacementGood, Lost;
    assert s.log + Pend(s) == s.log;
    assert Good(s.log, s.mem, s.clock, k);
    RestartIsSound(s.log, again, k);
    if Gone(s.log, k, s.clock) {
      GoneIsNotReplayed(s.log, again, k, s.clock);
    }
    if k in s.mem {
      DeadlinesDoNotDrift(s.mem[k]);
    }
  }

  lemma RestartBrings(log: seq<Rec>, t: int, k: Key)
    ensures Live(Replayed(log, Always(t, |log|)), k, t) <==> Live(Meaning(log), k, t) && SupersededAfter(log, k, t)
  {
    hide Meaning, Replayed, SupersededAfter;
    RestartIsSound(log, Always(t, |log|), k);
    if Live(Meaning(log), k, t) {
      RestartAtInstant(log, t, k);
    }
  }

  // ----- lifetimes whose moved deadlines do no harm -----

  /** The log, and what stands for it during a rewrite, mean every key that memory holds live. */
  ghost predicate Whole(s: Sys) {
    && (forall k :: !Dead(Look(s.mem, k), s.clock) ==> Meant(s.log + Pend(s), s.mem, s.clock, k))
    && forall k :: WalkedPast(s, k) && !Dead(Look(s.mem, k), s.clock) ==>
         Meant(s.walk.acc + (s.tail + Pend(s)), s.mem, s.clock, k)
  }

  lemma MutationStaysMeant(rs: seq<Rec>, s: Sys, k: Key)
    requires GateOk(s) && HistoryHolds(s) && Enabled(s, Mutate)
    requires Agrees(Meaning(rs), Meaning(s.hist + Pend(s)), k)
    requires Moves(s, Mutate) && s.gate.op.key == k ==> k in Meaning(rs) || s.gate.op.at <= s.clock
    requires !Dead(Look(s.mem, k), s.clock) ==> Meant(rs, s.mem, s.clock, k)
    requires !Dead(Look(Mutation(s).ks, k), s.clock)
    ensures Meant(rs + Mutation(s).recs, Mutation(s).ks, s.clock, k)
  {
    hide Meaning, OpEffect, Summary;
    var e := Mutation(s);
    OpOnKey(s.gate.op, s.mem, s.gate.now, if s.gate.Loaded? then s.gate.seen else None, k);
    MeaningConcat(rs, e.recs);
    RunLook(Meaning(rs), e.recs, k);
  }

  lemma MeantLater(rs: seq<Rec>, s: Sys, l: Label, k: Key)
    requires Enabled(s, l) && !l.Mutate? && !Dead(Look(Next(s, l).mem, k), Next(s, l).clock)
    requires !Dead(Look(s.mem, k), s.clock) ==> Meant(rs, s.mem, s.clock, k)
    ensures Meant(rs, Next(s, l).mem, Next(s, l).clock, k)
  {
    hide Meaning, Enumerates;
  }

  /** A key that is live when its shard is walked is copied, and the tail leaves it as the history has it. */
  lemma WalkedIsMeant(s: Sys, recs: seq<Rec>, k: Key)
    requires WalkOk(s) && HistoryHolds(s) && Whole(s) && Enabled(s, WalkShard(recs))
    requires ShardIndex(k) < s.walk.next + 1 && !Dead(Look(s.mem, k), s.clock)
    ensures Meant(s.walk.acc + recs + (s.tail + Pend(s)), s.mem, s.clock, k)
  {
    hide Meaning, Run, Enumerates, Summary;
    var t := s.tail + Pend(s);
    var acc' := s.walk.acc + recs;
    AccAfterWalk(s, recs, k);
    MeaningConcat(acc', t);
    RunLook(Meaning(acc'), t, k);
    if ShardIndex(k) < s.walk.next {
      assert WalkedPast(s, k);
      MeaningConcat(s.walk.acc, t);
      RunLook(Meaning(s.walk.acc), t, k);
    } else {
      TailAbsorbed(s, k);
    }
  }

  lemma MutationKeepsWhole(s: Sys, k: Key)
    requires Alive(s) && Whole(s) && Enabled(s, Mutate) && Harmless(s, Mutate)
    requires !Dead(Look(Mutation(s).ks, k), s.clock)
    ensures Meant(s.log + Pend(s) + Mutation(s).recs, Mutation(s).ks, s.clock, k)
    ensures WalkedPast(s, k) ==>
      Meant(s.walk.acc + (s.tail + Pend(s)) + Mutation(s).recs, Mutation(s).ks, s.clock, k)
  {
    hide Meaning, Run, OpEffect, AllGood, ReplacementGood, GateOk, HistoryHolds, Meant, WalkOk;
    assert s.log + Pend(s) == s.log && s.tail + Pend(s) == s.tail;
    MutationStaysMeant(s.log, s, k);
    if WalkedPast(s, k) {
      MeaningConcat(s.walk.acc, s.tail);
      MutationStaysMeant(s.walk.acc + s.tail, s, k);
    }
  }

  lemma StepKeepsWhole(s: Sys, l: Label)
    requires Alive(s) && Whole(s) && Enabled(s, l) && !s.failed && !l.Fail? && Harmless(s, l)
    ensures Whole(Next(s, l))
  {
    hide Meaning, Enumerates, OpEffect, AllGood, ReplacementGood, GateOk, Harmless, HistoryHolds, Meant, Agreeing;
    var s' := Next(s, l);
    forall k | !Dead(Look(s'.mem, k), s'.clock)
      ensures Meant(s'.log + Pend(s'), s'.mem, s'.clock, k)
      ensures WalkedPast(s', k) ==> Meant(s'.walk.acc + (s'.tail + Pend(s')), s'.mem, s'.clock, k)
    {
      var rs, rs' := s.log + Pend(s), s'.log + Pend(s');
      if l.Mutate? {
        MutationKeepsWhole(s, k);
        assert rs' == rs + Mutation(s).recs;
        assert s.walk.Walking? ==>
          s'.walk.acc + (s'.tail + Pend(s')) == s.walk.acc + (s.tail + Pend(s)) + Mutation(s).recs;
      } else if l.Install? {
        assert rs' == s.walk.acc + (s.tail + Pend(s));
        assert WalkedPast(s, k);
      } else {
        assert rs' == rs;
        MeantLater(rs, s, l, k);
        if l.WalkShard? {
          if WalkedPast(s', k) {
            WalkedIsMeant(s, l.recs, k);
          }
        } else if WalkedPast(s', k) && !l.StartWalk? {
          assert s'.tail + Pend(s') == s.tail + Pend(s);
          MeantLater(s.walk.acc + (s.tail + Pend(s)), s, l, k);
        }
      }
    }
  }

  /** A key given a new deadline that the log, or what stands for it, lacks is then missing from it. */
  lemma HarmBreaksWhole(s: Sys)
    requires Enabled(s, Mutate) && !Harmless(s, Mutate)
    ensures !Whole(Next(s, Mutate))
  {
    hide Meaning, Run;
    var s' := Next(s, Mutate);
    var k := s.gate.op.key;
    var r := RExpireAt(k, Millis(s.gate.op.at));
    assert Pend(s') == [r] && !Dead(Look(s'.mem, k), s'.clock);
    if k !in Meaning(s.log) {
      MeaningConcat(s.log, [r]);
      RunOne(Meaning(s.log), r);
      ApplyLook(Meaning(s.log), r, k);
      assert !Meant(s'.log + Pend(s'), s'.mem, s'.clock, k);
    } else {
      var x := Run(Meaning(s.walk.acc), s.tail);
      assert s.walk.acc + (s.tail + [r]) == s.walk.acc + s.tail + [r];
      MeaningConcat(s.walk.acc, s.tail);
      MeaningConcat(s.walk.acc + s.tail, [r]);
      RunOne(x, r);
      ApplyLook(x, r, k);
      assert WalkedPast(s', k) && !Meant(s'.walk.acc + (s'.tail + Pend(s')), s'.mem, s'.clock, k);
    }
  }

  /** A deadline moved while the old one is still ahead is harmless. */
  lemma TimelyDoesNoHarm(s: Sys, l: Label)
    requires Whole(s) && Timely(s, l)
    ensures Harmless(s, l)
  {
    hide Meaning, Run;
    if Moves(s, l) {
      var k := s.gate.op.key;
      assert s.log + Pend(s) == s.log && s.tail + Pend(s) == s.tail;
      assert Meant(s.log, s.mem, s.clock, k);
      if WalkedPast(s, k) {
        MeaningConcat(s.walk.acc, s.tail);
        assert Meant(s.walk.acc + s.tail, s.mem, s.clock, k);
      }
    }
  }

  lemma RebornIsWhole(log: seq<Rec>, ts: seq<int>, clock: int)
    requires |log| == |ts|
    ensures Whole(Reborn(log, ts, clock))
  {
    hide Meaning, Replayed;
    var s := Reborn(log, ts, clock);
    assert s.log + Pend(s) == log;
    forall k | !Dead(Look(s.mem, k), clock)
      ensures Meant(log, s.mem, clock, k)
    {
      RestartIsSound(log, ts, k);
      MeaningIsFloored(log, k);
    }
  }

  /** The turn is a crash, or fails the log or finds it failed, or does no harm. */
  ghost predicate DoesNoHarm(s: Sys, t: Turn) {
    t.Step? && !s.failed && !t.l.Fail? ==> Harmless(s, t.l)
  }

  lemma {:induction false} HarmlessLifetimeStaysWhole(ss: seq<Sys>, turns: seq<Turn>, log: seq<Rec>, ts: seq<int>,
                                                      i: nat)
    requires IsLifetime(ss, turns, log, ts) && i < |ss|
    requires forall j :: 0 <= j < i ==> DoesNoHarm(ss[j], turns[j])
    ensures ss[i].failed || Whole(ss[i])
  {
    hide Alive, Whole, Reborn, Enabled, Harmless;
    if i == 0 {
      RebornIsWhole(log, ts, ss[0].clock);
    } else {
      var s := ss[i - 1];
      LifetimeStaysAlive(ss, turns, log, ts, i - 1);
      HarmlessLifetimeStaysWhole(ss, turns, log, ts, i - 1);
      assert MayHappen(s, turns[i - 1]) && ss[i] == After(s, turns[i - 1]) && DoesNoHarm(s, turns[i - 1]);
      match turns[i - 1] {
        case Step(l) =>
          FailureLatches(s, l);
          if !ss[i].failed {
            StepKeepsWhole(s, l);
          }
        case CrashAndReplay(kept, instants, clock) =>
          RebornIsWhole(s.log[..kept], instants, clock);
      }
    }
  }

  /** The exact condition over whole lifetimes: the log means everything memory holds live in every
      healthy state if and only if no deadline is moved where it does harm. */
  lemma WholeIffHarmless(ss: seq<Sys>, turns: seq<Turn>, log: seq<Rec>, ts: seq<int>)
    requires IsLifetime(ss, turns, log, ts)
    ensures (forall i :: 0 <= i < |ss| ==> ss[i].failed || Whole(ss[i]))
       <==> (forall i :: 0 <= i < |turns| ==> DoesNoHarm(ss[i], turns[i]))
  {
    hide Whole, Reborn, Harmless, DoesNoHarm;
    if forall i :: 0 <= i < |turns| ==> DoesNoHarm(ss[i], turns[i]) {
      forall i | 0 <= i < |ss|
        ensures ss[i].failed || Whole(ss[i])
      {
        HarmlessLifetimeStaysWhole(ss, turns, log, ts, i);
      }
    }
    if forall i :: 0 <= i < |ss| ==> ss[i].failed || Whole(ss[i]) {
      forall i | 0 <= i < |turns|
        ensures DoesNoHarm(ss[i], turns[i])
      {
        assert MayHappen(ss[i], turns[i]) && ss[i + 1] == After(ss[i], turns[i]);
        WholeNextDoesNoHarm(ss[i], turns[i]);
      }
    }
  }

  lemma WholeNextDoesNoHarm(s: Sys, t: Turn)
    requires MayHappen(s, t) && (After(s, t).failed || Whole(After(s, t)))
    ensures DoesNoHarm(s, t)
  {
    hide Whole, Enabled;
    if !DoesNoHarm(s, t) {
      FailureLatches(s, t.l);
      HarmBreaksWhole(s);
    }
  }

  /** In such a lifetime the log means everything memory persists, so such a key comes back if and only
      if every deadline superseded in its present life is ahead. */
  lemma HarmlessRestartIsFaithful(ss: seq<Sys>, turns: seq<Turn>, log: seq<Rec>, ts: seq<int>, i: nat, t: int, k: Key)
    requires IsLifetime(ss, turns, log, ts) && i < |ss| && !ss[i].failed && Pend(ss[i]) == []
    requires forall j :: 0 <= j < i ==> DoesNoHarm(ss[j], turns[j])
    requires t >= ss[i].clock && k in Persisted(ss[i].mem, t)
    ensures Live(Meaning(ss[i].log), k, t)
    ensures Live(Replayed(ss[i].log, Always(t, |ss[i].log|)), k, t) <==> SupersededAfter(ss[i].log, k, t)
  {
    hide IsLifetime, Whole, Replayed, SupersededAfter, Meaning, DoesNoHarm;
    HarmlessLifetimeStaysWhole(ss, turns, log, ts, i);
    WholeMeansPersisted(ss[i], t, k);
    RestartBrings(ss[i].log, t, k);
  }

  lemma WholeMeansPersisted(s: Sys, t: int, k: Key)
    requires Whole(s) && Pend(s) == [] && t >= s.clock && k in Persisted(s.mem, t)
    ensures Live(Meaning(s.log), k, t)
  {
    hide Meaning;
    assert s.log + Pend(s) == s.log;
    FlooredExpires(s.mem[k], s.clock);
    assert Meant(s.log, s.mem, s.clock, k);
  }

  // ----- point-in-time recovery -----

  /** The turn leaves the log alone or appends to it: no crash, no installation. */
  ghost predicate OnlyAppends(t: Turn) {
    t.Step? && !t.l.Install?
  }

  lemma {:induction false} ClockGoesOn(ss: seq<Sys>, turns: seq<Turn>, log: seq<Rec>, ts: seq<int>, j: nat, i: nat)
    requires IsLifetime(ss, turns, log, ts) && j <= i < |ss|
    ensures ss[j].clock <= ss[i].clock
  {
    hide Reborn, Enumerates, Mutation;
    if j < i {
      ClockGoesOn(ss, turns, log, ts, j, i - 1);
      assert MayHappen(ss[i - 1], turns[i - 1]) && ss[i] == After(ss[i - 1], turns[i - 1]);
      ClockOfTurn(ss[i - 1], turns[i - 1]);
    }
  }

  lemma ClockOfTurn(s: Sys, t: Turn)
    requires MayHappen(s, t)
    ensures s.clock <= After(s, t).clock
  {
  }

  /** Since state b the log has only been appended to, one record at a time: every longer prefix of it
      was the whole log in some state in between, with nothing pending and nothing failed. */
  lemma {:induction false} PrefixWasTheLog(ss: seq<Sys>, turns: seq<Turn>, log: seq<Rec>, ts: seq<int>,
                                           b: nat, i: nat, kept: nat) returns (j: nat)
    requires IsLifetime(ss, turns, log, ts) && b <= i < |ss| && !ss[b].failed
    requires forall x :: b <= x < i ==> OnlyAppends(turns[x])
    requires |ss[b].log| <= kept <= |ss[i].log| && (kept == |ss[b].log| ==> Pend(ss[b]) == [])
    ensures b <= j <= i && ss[j].log == ss[i].log[..kept] && Pend(ss[j]) == [] && !ss[j].failed
  {
    hide Reborn, Enabled, Mutation;
    j := i;
    if b < i {
      var s, l := ss[i - 1], turns[i - 1].l;
      assert OnlyAppends(turns[i - 1]) && MayHappen(s, turns[i - 1]) && ss[i] == After(s, turns[i - 1]);
      LogOfStep(s, l);
      if kept <= |s.log| {
        j := PrefixWasTheLog(ss, turns, log, ts, b, i - 1, kept);
        assert s.log[..kept] == ss[i].log[..kept];
      }
    }
  }

  lemma LogOfStep(s: Sys, l: Label)
    requires Enabled(s, l) && !l.Install?
    ensures var s' := Next(s, l);
      || s'.log == s.log
      || (s'.log[..|s.log|] == s.log && |s'.log| == |s.log| + 1 && Pend(s') == [] && !s'.failed)
    ensures |Next(s, l).log| >= |s.log| && Next(s, l).log[..|s.log|] == s.log
  {
  }

  /** A crash that cuts the log back to a record appended since b recovers a point in time: there is a
      state in between such that the restart, whatever its instants, shows only what its memory would. */
  lemma CrashRecoversAState(ss: seq<Sys>, turns: seq<Turn>, log: seq<Rec>, ts: seq<int>,
                            b: nat, i: nat, kept: nat, again: seq<int>, clock: int) returns (j: nat)
    requires IsLifetime(ss, turns, log, ts) && b <= i < |ss| && !ss[b].failed
    requires forall x :: b <= x < i ==> OnlyAppends(turns[x])
    requires |ss[b].log| <= kept <= |ss[i].log| && (kept == |ss[b].log| ==> Pend(ss[b]) == [])
    requires MayHappen(ss[i], CrashAndReplay(kept, again, clock))
    ensures b <= j <= i && ss[j].log == ss[i].log[..kept]
    ensures var s' := After(ss[i], CrashAndReplay(kept, again, clock));
      forall k, t :: t >= ss[j].clock && Live(s'.mem, k, t) ==>
        Live(ss[j].mem, k, t) && s'.mem[k] == Floored(ss[j].mem[k])
  {
    hide Alive, Replayed;
    j := PrefixWasTheLog(ss, turns, log, ts, b, i, kept);
    LifetimeStaysAlive(ss, turns, log, ts, j);
    ClockGoesOn(ss, turns, log, ts, j, i);
    var s' := After(ss[i], CrashAndReplay(kept, again, clock));
    forall k, t | t >= ss[j].clock && Live(s'.mem, k, t)
      ensures Live(ss[j].mem, k, t) && s'.mem[k] == Floored(ss[j].mem[k])
    {
      RestartShows(ss[j], again, t, k);
    }
  }
}

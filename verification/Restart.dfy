/**
 Replaying a log through the real handlers, each record at its own instant, compared with the
 clockless meaning of the log: what a restart can show, and exactly when it shows a key.
 */
module Restart {
  import opened Bytes
  import opened Routing
  import opened Keyspace
  import opened Journal

  /** What the SET, MSET, DEL and PEXPIREAT handlers make of one record at instant t. */
  function ReplayRec(ks: Keyspace, r: Rec, t: int): Keyspace {
    match r
    case RSet(k, v, at) =>
      if at.Some? && at.value * NS_PER_MS <= t then DelEffect(ks, [k]).ks
      else SetEffect(ks, k, Item(v, NanosOf(at))).ks
    case RMSet(pairs) => MSetEffect(ks, pairs).ks
    case RDel(keys) => DelEffect(ks, keys).ks
    case RExpireAt(k, ms) => ExpireAtEffect(ks, k, ms * NS_PER_MS, t).ks
  }

  /** The keyspace a restart rebuilds when record i is handled at instant ts[i]. */
  function Replayed(rs: seq<Rec>, ts: seq<int>): Keyspace
    requires |rs| == |ts|
  {
    if rs == [] then map[]
    else
      var n := |rs| - 1;
      ReplayRec(Replayed(rs[..n], ts[..n]), rs[n], ts[n])
  }

  function ActAt(f: Fx, x: Option<Item>, t: int): Option<Item> {
    match f
    case Keep => x
    case Const(state) => if Dead(state, t) then None else state
    case Touch(dl) => if Dead(x, t) || dl <= t then None else Some(x.value.(dl := Some(dl)))
  }

  lemma ReplayRecLook(ks: Keyspace, r: Rec, t: int, k: Key)
    ensures Look(ReplayRec(ks, r, t), k) == ActAt(FxOf(r, k), Look(ks, k), t)
  {
    if r.RMSet? {
      AssignAllLook(ks, r.pairs, k);
    }
  }

  /** A restart never invents or alters a key: whatever it shows is what the log means. */
  lemma {:induction false} RestartIsSound(rs: seq<Rec>, ts: seq<int>, k: Key)
    requires |rs| == |ts|
    ensures Look(Replayed(rs, ts), k) == Look(Meaning(rs), k) || Look(Replayed(rs, ts), k) == None
  {
    if rs != [] {
      var n := |rs| - 1;
      RestartIsSound(rs[..n], ts[..n], k);
      ReplayRecLook(Replayed(rs[..n], ts[..n]), rs[n], ts[n], k);
      ApplyLook(Meaning(rs[..n]), rs[n], k);
    }
  }

  // ----- exactly when a key survives -----

  /** No record after i fixes the state of k: i belongs to the key's present life. */
  ghost predicate Current(rs: seq<Rec>, i: nat, k: Key) {
    forall j :: i < j < |rs| ==> !FxOf(rs[j], k).Const?
  }

  /** Handling record i at instant t meets a deadline of k that has already passed: the one the
      record brings, or the one it was about to supersede. */
  ghost predicate MeetsPastDeadline(rs: seq<Rec>, i: nat, k: Key, t: int)
    requires i < |rs|
  {
    match FxOf(rs[i], k)
    case Keep => false
    case Const(state) => Dead(state, t)
    case Touch(dl) => dl <= t || Dead(Look(Meaning(rs[..i]), k), t)
  }

  /** Every deadline of the key's present life was still ahead when the replay met it. */
  ghost predicate DeadlinesAhead(rs: seq<Rec>, ts: seq<int>, k: Key)
    requires |rs| == |ts|
  {
    forall i :: 0 <= i < |rs| && Current(rs, i, k) ==> !MeetsPastDeadline(rs, i, k, ts[i])
  }

  lemma DeadlinesAheadStep(rs: seq<Rec>, ts: seq<int>, k: Key)
    requires |rs| == |ts| > 0
    ensures var n := |rs| - 1;
      DeadlinesAhead(rs, ts, k) <==>
      !MeetsPastDeadline(rs, n, k, ts[n]) && (FxOf(rs[n], k).Const? || DeadlinesAhead(rs[..n], ts[..n], k))
  {
    var n := |rs| - 1;
    var p := rs[..n];
    assert Current(rs, n, k);
    forall i | 0 <= i < n
      ensures MeetsPastDeadline(p, i, k, ts[i]) <==> MeetsPastDeadline(rs, i, k, ts[i])
      ensures Current(rs, i, k) <==> !FxOf(rs[n], k).Const? && Current(p, i, k)
    {
      assert p[..i] == rs[..i];
      assert forall j :: i < j < n ==> p[j] == rs[j];
    }
    if DeadlinesAhead(rs, ts, k) && !FxOf(rs[n], k).Const? {
      forall i | 0 <= i < n && Current(p, i, k)
        ensures !MeetsPastDeadline(p, i, k, ts[..n][i])
      {
        assert Current(rs, i, k);
      }
    }
  }

  /** A key that the log means to hold comes back if and only if every deadline of its present
      life, superseded or final, was still ahead when the replay met it. */
  lemma {:induction false} RestartIsExact(rs: seq<Rec>, ts: seq<int>, k: Key)
    requires |rs| == |ts|
    requires k in Meaning(rs)
    ensures k in Replayed(rs, ts) <==> DeadlinesAhead(rs, ts, k)
    ensures k in Replayed(rs, ts) ==> Replayed(rs, ts)[k] == Meaning(rs)[k]
  {
    var n := |rs| - 1;
    RestartIsSound(rs, ts, k);
    RestartIsSound(rs[..n], ts[..n], k);
    DeadlinesAheadStep(rs, ts, k);
    ReplayRecLook(Replayed(rs[..n], ts[..n]), rs[n], ts[n], k);
    ApplyLook(Meaning(rs[..n]), rs[n], k);
    if !FxOf(rs[n], k).Const? {
      RestartIsExact(rs[..n], ts[..n], k);
    }
  }

  // ----- one restart instant -----

  function Always(t: int, n: nat): seq<int> {
    seq(n, _ => t)
  }

  /** The deadline that the PEXPIREAT at i superseded, in the key's present life, is after T. */
  ghost predicate SupersededAfter(rs: seq<Rec>, k: Key, T: int) {
    forall i :: 0 <= i < |rs| && FxOf(rs[i], k).Touch? && Current(rs, i, k) ==>
      !Dead(Look(Meaning(rs[..i]), k), T)
  }

  /** At a single restart instant T: a key live at T is shown if and only if every deadline that a
      PEXPIREAT record superseded is after T too. */
  lemma RestartAtInstant(rs: seq<Rec>, T: int, k: Key)
    requires Live(Meaning(rs), k, T)
    ensures k in Replayed(rs, Always(T, |rs|)) <==> SupersededAfter(rs, k, T)
  {
    hide Replayed, Meaning, FxOf;
    var ts := Always(T, |rs|);
    RestartIsExact(rs, ts, k);
    if SupersededAfter(rs, k, T) {
      forall i | 0 <= i < |rs| && Current(rs, i, k)
        ensures !MeetsPastDeadline(rs, i, k, ts[i])
      {
        NothingPast(rs, i, k, T);
      }
    } else {
      var i :| 0 <= i < |rs| && FxOf(rs[i], k).Touch? && Current(rs, i, k) && Dead(Look(Meaning(rs[..i]), k), T);
      assert MeetsPastDeadline(rs, i, k, ts[i]);
    }
  }

  lemma NothingPast(rs: seq<Rec>, i: nat, k: Key, T: int)
    requires i < |rs| && Current(rs, i, k)
    requires Live(Meaning(rs), k, T) && SupersededAfter(rs, k, T)
    ensures !MeetsPastDeadline(rs, i, k, T)
  {
    WrittenDeadlineAhead(rs, i, k, T);
    assert rs[..i + 1][..i] == rs[..i];
    ApplyLook(Meaning(rs[..i]), rs[i], k);
  }

  /** A deadline written in the present life is either the final one or a superseded one. */
  lemma {:induction false} WrittenDeadlineAhead(rs: seq<Rec>, i: nat, k: Key, T: int)
    requires i < |rs| && Current(rs, i, k)
    requires Live(Meaning(rs), k, T) && SupersededAfter(rs, k, T)
    ensures !Dead(Look(Meaning(rs[..i + 1]), k), T)
    decreases |rs| - i
  {
    if i + 1 == |rs| {
      assert rs[..i + 1] == rs;
    } else {
      var next := rs[..i + 2];
      assert Current(rs, i + 1, k);
      WrittenDeadlineAhead(rs, i + 1, k, T);
      assert next[..i + 1] == rs[..i + 1];
      ApplyLook(Meaning(rs[..i + 1]), rs[i + 1], k);
    }
  }

  /** Extending a deadline and restarting after the old one loses the key, although the log
      means to hold it: replay is not complete without the condition. */
  lemma RestartCanLoseExtendedKey(k: Key, v: Bytes)
    ensures var rs := [RSet(k, v, Some(10)), RExpireAt(k, 30)];
      var T := 20 * NS_PER_MS;
      && Live(Meaning(rs), k, T)
      && k !in Replayed(rs, Always(T, 2))
  {
    var rs := [RSet(k, v, Some(10)), RExpireAt(k, 30)];
    var T := 20 * NS_PER_MS;
    assert rs[..1] == [rs[0]];
    RunOne(map[], rs[0]);
    assert Meaning(rs[..1]) == map[k := Item(v, Some(10 * NS_PER_MS))];
    assert Run(map[], rs) == Apply(Run(map[], rs[..1]), rs[1]);
    assert FxOf(rs[1], k).Touch? && Current(rs, 1, k);
    RestartAtInstant(rs, T, k);
  }
}

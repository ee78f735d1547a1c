/** What the log in force shows, to clients and to a restart, in a state that keeps the protocol's
    invariants. */
module Faithful {
  import opened Bytes
  import opened Routing
  import opened Keyspace
  import opened Journal
  import opened Protocol

  /** Memory as the disk can hold it, at instant t: floored deadlines, expired keys gone. */
  ghost function Persisted(mem: Keyspace, t: int): Keyspace {
    map k | k in mem && !Expired(Floored(mem[k]), t) :: Floored(mem[k])
  }

  lemma KeyShown(s: Sys, k: Key, t: int)
    requires Inv(s) && LogFollows(s) && t >= s.clock
    ensures Look(Visible(Meaning(s.log + Pend(s)), t), k) == Look(Persisted(s.mem, t), k)
  {
    hide Meaning, GateOk, WalkOk;
    var x, h := Meaning(s.log + Pend(s)), Meaning(s.hist + Pend(s));
    assert Explains(h, s.mem, s.clock, k);
    assert Follows(x, h, s.mem, s.clock, k);
    if k in s.mem {
      FlooredExpires(s.mem[k], s.clock);
      DeadlinesDoNotDrift(s.mem[k]);
    }
  }

  lemma LogShowsMemory(s: Sys, t: int)
    requires Inv(s) && LogFollows(s) && t >= s.clock
    ensures Visible(Meaning(s.log + Pend(s)), t) == Persisted(s.mem, t)
  {
    hide Meaning, Inv, LogFollows;
    var v, p := Visible(Meaning(s.log + Pend(s)), t), Persisted(s.mem, t);
    forall k
      ensures Look(v, k) == Look(p, k)
    {
      KeyShown(s, k, t);
    }
    SameKeyspace(v, p);
  }

  // ----- whole milliseconds -----

  ghost predicate WholeMillis(x: Option<Item>) {
    x.Some? ==> Floored(x.value) == x.value
  }

  lemma {:induction false} MeaningIsFloored(rs: seq<Rec>, k: Key)
    ensures WholeMillis(Look(Meaning(rs), k))
  {
    if rs != [] {
      var n := |rs| - 1;
      MeaningIsFloored(rs[..n], k);
      ApplyLook(Meaning(rs[..n]), rs[n], k);
    }
  }
}

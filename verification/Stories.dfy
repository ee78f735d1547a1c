/** What follows for a server to which any sequence of events has happened. */
module Stories {
  import opened Bytes
  import opened Routing
  import opened Keyspace
  import opened Journal
  import opened Resp
  import opened Frames
  import opened Commands
  import opened Server
  import S = Store

  // ----- a rewrite, whatever happens meanwhile -----

  /** A rewrite that began when the log held `before` is under way in v. */
  ghost predicate Rewriting(v: View, before: seq<Command>) {
    v.rewriting && v.mark == |before| && before <= v.records
  }

  lemma RewritingGoesOn(c: Config, e: Event, v: View, v': View, before: seq<Command>)
    requires HappensTo(c, e, v, v') && !e.EndRewrite? && Rewriting(v, before)
    ensures Rewriting(v', before)
    ensures v.snapshot.Some? ==> v'.snapshot == v.snapshot
  {
    hide S.Evicted, S.Cycle, S.GoesOn, S.Within, Size, Decode, ApplyArgs, Handle, Aged, Enumerates, Visible, KeySet;
    hide ArgsAll, Dels;
  }

  lemma {:induction false} RewritingAllAlong(c: Config, events: seq<Event>, views: seq<View>, b: nat, i: nat)
    requires Story(c, events, views) && b < i <= |events| && events[b] == StartRewrite
    requires c.durable && !views[b].failed && !views[b].rewriting
    requires forall x :: b < x < i ==> !events[x].EndRewrite?
    ensures Rewriting(views[i], views[b].records)
  {
    hide Rewriting;
    if i == b + 1 {
      RewritingStarts(c, views[b], views[i]);
    } else {
      RewritingAllAlong(c, events, views, b, i - 1);
      assert HappensTo(c, events[i - 1], views[i - 1], views[i]);
      hide HappensTo;
      RewritingGoesOn(c, events[i - 1], views[i - 1], views[i], views[b].records);
    }
  }

  lemma RewritingStarts(c: Config, v: View, v': View)
    requires HappensTo(c, StartRewrite, v, v') && c.durable && !v.failed && !v.rewriting
    ensures Rewriting(v', v.records) && v'.snapshot == None
  {
  }

  lemma {:induction false} SnapshotStays(c: Config, events: seq<Event>, views: seq<View>, b: nat, s: nat, i: nat)
    requires Story(c, events, views) && b < s < i <= |events| && events[b] == StartRewrite
    requires c.durable && !views[b].failed && !views[b].rewriting
    requires forall x :: b < x < i ==> !events[x].EndRewrite?
    requires views[s + 1].snapshot.Some?
    ensures views[i].snapshot == views[s + 1].snapshot
  {
    hide HappensTo, Rewriting;
    if s + 1 < i {
      SnapshotStays(c, events, views, b, s, i - 1);
      RewritingAllAlong(c, events, views, b, i - 1);
      assert HappensTo(c, events[i - 1], views[i - 1], views[i]);
      RewritingGoesOn(c, events[i - 1], views[i - 1], views[i], views[b].records);
    }
  }

  /** A rewrite begins at event b, takes its snapshot at s and ends at e, with any requests, lookups and
      ticks before, in between and after. Unless it gives up and leaves the log alone, the log then holds
      one SET per key visible when the snapshot was taken, followed by exactly what has been appended
      since the rewrite began. */
  lemma RewriteKeepsTheRest(c: Config, events: seq<Event>, views: seq<View>, b: nat, s: nat, e: nat)
    requires Story(c, events, views) && b < s < e < |events|
    requires events[b] == StartRewrite && events[s].Snapshot? && events[e] == EndRewrite
    requires c.durable && !views[b].failed && !views[b].rewriting && !views[e].failed && views[s].snapshot.None?
    requires forall x :: b < x < e ==> !events[x].EndRewrite?
    ensures views[s + 1].snapshot.Some?
    ensures var recs := views[s + 1].snapshot.value;
      && Enumerates(recs, Visible(views[s].flat, views[s + 1].clock))
      && views[b].records <= views[e].records
      && (|| (!views[e + 1].failed && views[e + 1].records == views[e].records)
          || views[e + 1].records == ArgsAll(recs) + views[e].records[|views[b].records|..])
      && (c.reliable ==> views[e + 1].records == ArgsAll(recs) + views[e].records[|views[b].records|..])
      && views[e + 1].flat == views[e].flat
  {
    hide Enumerates, Visible, ArgsAll;
    RewritingAllAlong(c, events, views, b, s);
    assert HappensTo(c, events[s], views[s], views[s + 1]);
    SnapshotStays(c, events, views, b, s, e);
    RewritingAllAlong(c, events, views, b, e);
    assert HappensTo(c, events[e], views[e], views[e + 1]);
  }

  /** And so it reads back. */
  lemma RewrittenLogReadsBack(recs: seq<Rec>, since: seq<Command>)
    requires AllInLimits(ArgsAll(recs)) && AllInLimits(since)
    ensures ScanLog(EncodeAll(ArgsAll(recs) + since)).cmds == ArgsAll(recs) + since
    ensures ScanLog(EncodeAll(ArgsAll(recs) + since)).ending == Intact
  {
    hide ScanLog, EncodeAll, ToArgs;
    WholeLogReadsBack(ArgsAll(recs) + since);
  }

  // ----- eviction, over a whole dispatch -----

  /** Of at most five keys that may be dropped, a dispatched command drops none that was touched more
      recently than one it keeps. */
  lemma DispatchEvictsOldest(c: Config, args: Command, now: int, v: View, v': View, victims: seq<Key>, i: nat, k: Key)
    requires args != [] && Dispatched(c, args, now, v, v', victims) && c.policy != S.AllKeysRandom
    requires |S.Droppable(v.flat, c.policy)| <= 5 && i < |victims|
    requires k in S.Droppable(v.flat - KeySet(victims), c.policy)
    ensures victims[i] in v.ages && k in v.ages && v.ages[victims[i]] <= v.ages[k]
  {
    hide S.Evicted, Size, ApplyArgs, Handle, Aged, Decode, S.Droppable, KeySet, Logged;
    S.EvictionIsLru(v.flat, v.ages, v.flat - KeySet(victims), victims, c.policy, c.budget, i, k);
  }

  // ----- without a budget -----

  /** Without a memory budget nothing is evicted or refused for lack of room: unless the log has failed, a
      command that its handler takes is the whole difference it makes, and any other makes none. */
  lemma UnlimitedDispatch(c: Config, args: Command, wait: nat, sent: bool, v: View, v': View)
    requires args != [] && HappensTo(c, Incoming(args, wait, sent), v, v')
    requires c.budget <= 0 && !(c.durable && v.failed)
    ensures var r := ApplyArgs(v.flat, args, v.clock + wait);
      v'.flat == if r.Some? then r.value else v.flat
  {
    hide S.Evicted, Size, Handle, Fails, Aged, Decode, Logged;
    var victims :| Dispatched(c, args, v.clock + wait, v, v', victims);
    assert v.flat - KeySet([]) == v.flat;
  }
}

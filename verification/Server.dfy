/**
 The server: requests dispatched one at a time against the store and its log, with the two gates
 in front of every write, and lookups, background expiry, rewrites and timer syncs in between.
 */
module Server {
  import opened Bytes
  import opened Routing
  import opened Keyspace
  import opened Journal
  import opened Restart
  import opened Resp
  import opened Frames
  import opened Commands
  import opened Limits
  import opened Protocol
  import opened Lifetimes
  import opened Serial
  import S = Store
  import A = Aof

  datatype Reply = NotHandled | Misconf | Oom | ErrorReply | Accepted

  /** What can happen to a server, each after some wait. */
  datatype Event =
    | Incoming(args: Command, wait: nat, sent: bool)  // sent: its reply can be written
    | Lookup(key: Key, wait: nat, window: nat)
    | Expiry(wait: nat)
    | StartRewrite
    | Snapshot(wait: nat)
    | EndRewrite
    | Timer

  // ----- memory growth -----

  function PairSizes(pairs: seq<Pair>): nat {
    if pairs == [] then 0
    else PairSizes(pairs[..|pairs| - 1]) + EntrySize(pairs[|pairs| - 1].key, pairs[|pairs| - 1].val)
  }

  /** The entry sizes that a request stores. */
  function Stored(ks: Keyspace, q: Request, now: int): nat {
    match q
    case Set(k, v) => EntrySize(k, v)
    case SetFor(k, v, _) => EntrySize(k, v)
    case SetUntil(k, v, _) => EntrySize(k, v)
    case MSet(pairs) => PairSizes(pairs)
    case Increment(k, _) =>
      var e := Handle(ks, q, now);
      if e.recs != [] && k in e.ks then EntrySize(k, e.ks[k].val) else 0
    case AppendTo(k, _) =>
      var e := Handle(ks, q, now);
      if k in e.ks then EntrySize(k, e.ks[k].val) else 0
    case _ => 0
  }

  lemma GrowsByPut(ks: Keyspace, k: Key, it: Item)
    ensures Size(ks[k := it]) <= Size(ks) + EntrySize(k, it.val)
  {
    hide Size;
    SizePut(ks, k, it);
    SizeRemove(ks, k);
  }

  lemma {:induction false} GrowsByPairs(ks: Keyspace, pairs: seq<Pair>)
    ensures Size(AssignAll(ks, pairs)) <= Size(ks) + PairSizes(pairs)
  {
    hide Size;
    if pairs != [] {
      var n := |pairs| - 1;
      GrowsByPairs(ks, pairs[..n]);
      GrowsByPut(AssignAll(ks, pairs[..n]), pairs[n].key, Item(pairs[n].val, None));
    }
  }

  lemma {:induction false} ShrinksByKeys(ks: Keyspace, keys: set<Key>)
    ensures Size(ks - keys) <= Size(ks)
    decreases keys
  {
    if keys == {} {
      assert ks - keys == ks;
    } else {
      hide Size;
      var k :| k in keys;
      ShrinksByKeys(ks - {k}, keys - {k});
      SizeRemove(ks, k);
      assert ks - {k} - (keys - {k}) == ks - keys;
    }
  }

  /** No request grows the keyspace by more than the entries it stores. */
  lemma GrowthIsBounded(ks: Keyspace, q: Request, now: int)
    ensures Size(Handle(ks, q, now).ks) <= Size(ks) + Stored(ks, q, now)
  {
    hide Size, Itoa, ParseInt;
    match q
    case Set(k, v) => GrowsByPut(ks, k, Item(v, None));
    case SetFor(k, v, ttl) =>
      GrowsByPut(ks, k, Item(v, Some(now + ttl)));
      ShrinksByKeys(ks, KeySet([k]));
    case SetUntil(k, v, at) =>
      GrowsByPut(ks, k, Item(v, Some(at)));
      ShrinksByKeys(ks, KeySet([k]));
    case MSet(pairs) => GrowsByPairs(ks, pairs);
    case Del(keys) => ShrinksByKeys(ks, KeySet(keys));
    case Increment(k, _) =>
      var e := Handle(ks, q, now);
      if e.recs != [] {
        GrowsByPut(ks, k, e.ks[k]);
      }
    case AppendTo(k, _) => GrowsByPut(ks, k, Handle(ks, q, now).ks[k]);
    case ExpireIn(k, ttl) => ExpireDoesNotGrow(ks, k, now + ttl, now);
    case ExpireAt(k, at) => ExpireDoesNotGrow(ks, k, at, now);
  }

  lemma ExpireDoesNotGrow(ks: Keyspace, k: Key, at: int, now: int)
    ensures Size(ExpireAtEffect(ks, k, at, now).ks) <= Size(ks)
  {
    hide Size;
    if k in ks {
      SizePut(ks, k, Item(ks[k].val, Some(at)));
      SizeRemove(ks, k);
    }
  }

  // ----- the server -----

  /** Memory, the log's records and its rewrite are those of the protocol state s. */
  ghost predicate Mirrors(s: Sys, flat: Keyspace, clock: int, records: seq<Command>,
                          rewriting: bool, mark: nat, snapshot: Option<seq<Rec>>)
  {
    && Settled(s) && s.mem == flat && s.clock == clock
    && records == ArgsAll(s.log)
    && rewriting == s.rewriting
    && (rewriting ==> mark <= |records| && records[mark..] == ArgsAll(s.tail))
    && (snapshot.None? ==> s.walk.NotWalking?)
    && (snapshot.Some? ==> s.walk.Walking? && s.walk.next == SHARDS && s.walk.acc == snapshot.value)
  }

  lemma MirrorsDone(s: Sys, e: Effect, flat: Keyspace, clock: int, records: seq<Command>,
                    rewriting: bool, mark: nat, snapshot: Option<seq<Rec>>)
    requires Mirrors(s, flat, clock, records, rewriting, mark, snapshot) && Settled(Done(s, e))
    ensures Mirrors(Done(s, e), e.ks, clock, records + ArgsAll(e.recs), rewriting, mark, snapshot)
  {
    hide Settled;
    ArgsConcat(s.log, e.recs);
    ArgsConcat(s.tail, e.recs);
    assert rewriting ==> (records + ArgsAll(e.recs))[mark..] == records[mark..] + ArgsAll(e.recs);
  }

  /** The access times after a request: whatever it stores is touched at this tick of the LRU clock, and
      what it removes is forgotten; giving a key a deadline does not touch it. */
  ghost function Aged(ages: map<Key, nat>, ks: Keyspace, q: Request, now: int, tick: nat): map<Key, nat> {
    match q
    case Set(k, _) => ages[k := tick]
    case SetFor(k, _, ttl) => if ttl > 0 then ages[k := tick] else ages - {k}
    case SetUntil(k, _, at) => if at > now then ages[k := tick] else ages - {k}
    case MSet(pairs) => S.Touched(ages, pairs, tick)
    case Del(keys) => ages - KeySet(keys)
    case Increment(k, _) => if Fails(ks, q, now) then ages else ages[k := tick]
    case AppendTo(k, _) => ages[k := tick]
    case ExpireIn(k, _) => if k in Handle(ks, q, now).ks then ages else ages - {k}
    case ExpireAt(k, _) => if k in Handle(ks, q, now).ks then ages else ages - {k}
  }

  /** Runs the handler of a decoded request. */
  method Execute(store: S.Store, q: Request, now: int) returns (err: bool)
    requires store.Valid() && (q.Increment? ==> IsInt64(q.delta))
    modifies store`flat, store`ages, store`journal, store.shards
    ensures store.Valid()
    ensures store.flat == Handle(old(store.flat), q, now).ks
    ensures store.journal == old(store.journal) + store.Logged(Handle(old(store.flat), q, now).recs)
    ensures err == Fails(old(store.flat), q, now)
    ensures store.ages == Aged(old(store.ages), old(store.flat), q, now, store.clock)
  {
    hide S.Store.Valid, Itoa, ParseInt;
    err := false;
    match q
    case Set(k, v) => store.SetItem(k, Item(v, None));
    case SetFor(k, v, ttl) =>
      if ttl <= 0 {
        var _ := store.Del([k], now);
        assert KeySet([k]) == {k};
      } else {
        store.SetItem(k, Item(v, Some(now + ttl)));
      }
    case SetUntil(k, v, at) => store.SetWithDeadline(k, v, at, now);
    case MSet(pairs) => store.MSet(pairs);
    case Del(keys) => var _ := store.Del(keys, now);
    case Increment(k, delta) =>
      var r := store.Increment(k, delta, now);
      err := r.None?;
    case AppendTo(k, suffix) => var _ := store.AppendTo(k, suffix, now);
    case ExpireIn(k, ttl) => var _ := store.ExpireAt(k, now + ttl, now);
    case ExpireAt(k, at) => var _ := store.ExpireAt(k, at, now);
  }

  /** What is stored is what the arguments say, 128 bytes an entry besides; a counter is at most 20 bytes. */
  lemma StoredIsWhatItCarries(ks: Keyspace, k: Key, v: Bytes, pairs: seq<Pair>, delta: int, now: int)
    ensures Stored(ks, Set(k, v), now) == |k| + |v| + 128
    ensures Stored(ks, AppendTo(k, v), now) ==
      |k| + |v| + 128 + (if Live(ks, k, now) then |ks[k].val| else 0)
    ensures Stored(ks, Increment(k, delta), now) <= |k| + 20 + 128
    ensures Stored(ks, MSet([]), now) == 0
    ensures Stored(ks, MSet(pairs + [Pair(k, v)]), now) == Stored(ks, MSet(pairs), now) + |k| + |v| + 128
    ensures Stored(ks, Del([k]), now) == 0
  {
    hide Itoa, ParseInt;
    assert (pairs + [Pair(k, v)])[..|pairs|] == pairs;
    var n := Bumped(Fresh(Look(ks, k), now), delta);
    if n.Some? {
      CounterLength(n.value);
    }
  }

  /** The guards on a request without which its records might not be read back. */
  ghost predicate CanBeReadBack(ks: Keyspace, q: Request, now: int) {
    Small(q) && Affordable(ks, q, now) && now >= NS_PER_MS
  }

  // ----- how long values can get -----

  ghost predicate ValuesWithin(ks: Keyspace, n: int) {
    forall k :: k in ks ==> |ks[k].val| <= n
  }

  function ArgBytes(args: Command): nat {
    if args == [] then 0 else ArgBytes(args[..|args| - 1]) + |args[|args| - 1]|
  }

  lemma {:induction false} ArgIsCarried(args: Command, i: nat)
    requires i < |args|
    ensures |args[i]| <= ArgBytes(args)
  {
    if i < |args| - 1 {
      ArgIsCarried(args[..|args| - 1], i);
    }
  }

  /** The values and suffixes in the request are no longer than this. */
  ghost predicate Carries(q: Request, n: int) {
    match q
    case Set(_, v) => |v| <= n
    case SetFor(_, v, _) => |v| <= n
    case SetUntil(_, v, _) => |v| <= n
    case MSet(pairs) => forall i :: 0 <= i < |pairs| ==> |pairs[i].val| <= n
    case AppendTo(_, suffix) => |suffix| <= n
    case _ => true
  }

  lemma DecodedCarries(args: Command)
    requires args != [] && Decode(args).Write?
    ensures Carries(Decode(args).q, ArgBytes(args))
  {
    hide ParseTtl, Upper, ArgBytes;
    forall i | 0 <= i < |args|
      ensures |args[i]| <= ArgBytes(args)
    {
      ArgIsCarried(args, i);
    }
  }

  /** No write makes a value longer than the longest so far, or a counter, plus what it carries. */
  lemma ValuesGrowSlowly(ks: Keyspace, q: Request, now: int, n: int, more: nat)
    requires ValuesWithin(ks, n) && Carries(q, more) && n >= COUNTER_LENGTH
    ensures ValuesWithin(Handle(ks, q, now).ks, n + more)
  {
    hide Itoa, ParseInt;
    var ks' := Handle(ks, q, now).ks;
    match q
    case MSet(pairs) =>
      forall k | k in ks'
        ensures |ks'[k].val| <= n + more
      {
        AssignAllLook(ks, pairs, k);
        LastAssignedIn(pairs, k);
      }
    case Increment(k, delta) =>
      var sum := Bumped(Fresh(Look(ks, k), now), delta);
      if sum.Some? {
        CounterLength(sum.value);
      }
    case _ =>
  }

  // ----- commands that stay affordable -----

  /** A command off the wire that is affordable at any instant up to the horizon, on values that with
      what it carries come to no more than `longest`. */
  ghost predicate Modest(args: Command, horizon: int, longest: int) {
    && InLimits(args)
    && (Decode(args).Write? ==>
          match Decode(args).q
          case SetFor(_, _, ttl) => Millis(horizon + ttl) <= MAX_MS
          case ExpireIn(_, ttl) => Millis(horizon + ttl) <= MAX_MS
          case AppendTo(_, _) => longest <= MAX_BULK
          case _ => true)
  }

  lemma ModestIsAffordable(args: Command, ks: Keyspace, now: int, longest: int, n: int)
    requires Modest(args, now, longest) && Decode(args).Write? && NS_PER_MS <= now
    requires ValuesWithin(ks, n) && n + ArgBytes(args) <= longest
    ensures CanBeReadBack(ks, Decode(args).q, now)
  {
    hide Decode, Small, ArgBytes;
    DecodedIsSmall(args);
    DecodedCarries(args);
  }

  ghost predicate ModestEvent(e: Event, horizon: int, longest: int) {
    e.Incoming? && e.args != [] ==> Modest(e.args, horizon, longest)
  }

  ghost predicate AllModest(events: seq<Event>, horizon: int, longest: int) {
    forall i :: 0 <= i < |events| ==> ModestEvent(events[i], horizon, longest)
  }

  lemma ModestEarlier(events: seq<Event>, i: nat, now: int, later: int, longest: int)
    requires i < |events| && now <= later && AllModest(events[..i + 1], later, longest)
    ensures AllModest(events[..i], now, longest) && ModestEvent(events[i], later, longest)
  {
    hide Decode, InLimits;
    forall j | 0 <= j < i
      ensures events[..i + 1][j] == events[..i][j]
    {
    }
    assert events[..i + 1][i] == events[i];
  }

  function EventBytes(e: Event): nat {
    if e.Incoming? then ArgBytes(e.args) else 0
  }

  /** The bytes that all requests carry. */
  function Carried(events: seq<Event>): nat {
    if events == [] then 0 else Carried(events[..|events| - 1]) + EventBytes(events[|events| - 1])
  }

  lemma {:induction false} CarriedGrows(events: seq<Event>, i: nat)
    requires i <= |events|
    ensures Carried(events[..i]) <= Carried(events)
  {
    hide EventBytes;
    if i < |events| {
      var n := |events| - 1;
      CarriedGrows(events[..n], i);
      assert events[..n][..i] == events[..i];
    } else {
      assert events[..i] == events;
    }
  }

  lemma CarriedNext(events: seq<Event>, i: nat)
    requires i < |events|
    ensures Carried(events[..i + 1]) == Carried(events[..i]) + EventBytes(events[i]) <= Carried(events)
  {
    hide EventBytes;
    assert events[..i + 1][..i] == events[..i];
    CarriedGrows(events, i + 1);
  }

  /** Nothing but keys that were there, as they were. */
  ghost predicate OnlyFewer(ks: Keyspace, was: Keyspace) {
    forall k :: k in ks ==> k in was && ks[k] == was[k]
  }

  lemma FewerStayWithin(ks: Keyspace, was: Keyspace, n: int)
    requires OnlyFewer(ks, was) && ValuesWithin(was, n)
    ensures ValuesWithin(ks, n)
  {
  }

  /** What a dispatch does to the lengths of values, and that it can be read back. */
  lemma RequestStaysWithin(args: Command, was: Keyspace, room: Keyspace, now: int, n: int)
    requires args != [] && OnlyFewer(room, was) && ValuesWithin(was, n) && n >= COUNTER_LENGTH
    ensures ValuesWithin(room, n + ArgBytes(args))
    ensures Decode(args).Write? ==> ValuesWithin(Handle(room, Decode(args).q, now).ks, n + ArgBytes(args))
    ensures Decode(args).Write? && NS_PER_MS <= now ==>
      forall longest :: Modest(args, now, longest) && n + ArgBytes(args) <= longest ==>
        CanBeReadBack(room, Decode(args).q, now)
  {
    hide Decode, Handle, ArgBytes, Modest, CanBeReadBack, Carries;
    FewerStayWithin(room, was, n);
    if Decode(args).Write? {
      DecodedCarries(args);
      ValuesGrowSlowly(room, Decode(args).q, now, n, ArgBytes(args));
      forall longest | Modest(args, now, longest) && n + ArgBytes(args) <= longest && NS_PER_MS <= now
        ensures CanBeReadBack(room, Decode(args).q, now)
      {
        ModestIsAffordable(args, room, now, longest, n);
      }
    }
  }

  // ----- the link, step by step -----

  /** What remains of the link once the log has failed: the steps up to the failure, and the records
      that had been handed to the log by then. */
  ghost predicate Tied(s0: Sys, ls: seq<Label>, s: Sys, clock: int, records: seq<Command>, fits: bool) {
    s.failed && Path(s0, ls, s) && records == ArgsAll(s.log) && s.clock <= clock && (fits ==> Readable(records))
  }

  lemma TiedLater(s0: Sys, ls: seq<Label>, s: Sys, clock: int, clock': int, records: seq<Command>,
                  fits: bool, fits': bool)
    requires Tied(s0, ls, s, clock, records, fits) && clock <= clock' && (fits' ==> fits)
    ensures Tied(s0, ls, s, clock', records, fits')
  {
    hide Path, Readable;
  }

  /** The log fails in a mirrored state. */
  lemma LinkBreaks(s0: Sys, ls: seq<Label>, s: Sys, flat: Keyspace, clock: int, records: seq<Command>,
                   rewriting: bool, mark: nat, snapshot: Option<seq<Rec>>, fits: bool)
      returns (ls': seq<Label>, s': Sys)
    requires Mirrors(s, flat, clock, records, rewriting, mark, snapshot) && Path(s0, ls, s)
    requires fits ==> LogFits(records, flat, snapshot)
    ensures Tied(s0, ls', s', clock, records, fits)
  {
    hide Path, Readable, KeyspaceFits, Settled;
    ls', s' := Break(s0, ls, s);
  }

  /** Evicting the first n victims is a run from one mirrored state to the next, and stays readable. */
  lemma EvictionIsRun(s0: Sys, ls: seq<Label>, s: Sys, victims: seq<Key>, flat: Keyspace, clock: int,
                      records: seq<Command>, rewriting: bool, mark: nat, snapshot: Option<seq<Rec>>, fits: bool)
      returns (ls': seq<Label>, s': Sys)
    requires Mirrors(s, flat, clock, records, rewriting, mark, snapshot) && Path(s0, ls, s)
    requires (fits ==> LogFits(records, flat, snapshot)) && forall k :: k in victims ==> k in flat
    ensures var flat', records' := flat - KeySet(victims), records + ArgsAll(Dels(victims));
      && Mirrors(s', flat', clock, records', rewriting, mark, snapshot) && Path(s0, ls', s')
      && (fits ==> LogFits(records', flat', snapshot))
  {
    hide Mirrors, Settled, Path, LogFits, ToArgs, KeySet;
    MirrorsSettled(s, flat, clock, records, rewriting, mark, snapshot);
    ls', s' := EvictAll(s0, ls, s, victims);
    MirrorsDone(s, Effect(flat - KeySet(victims), Dels(victims)), flat, clock, records, rewriting, mark, snapshot);
    if fits {
      EvictionKeepsFit(records, flat, snapshot, victims);
    }
  }

  /** A handled request, failing or not, is a run from one mirrored state to the next. */
  lemma RequestIsRun(s0: Sys, ls: seq<Label>, s: Sys, q: Request, flat: Keyspace, clock: int,
                     records: seq<Command>, rewriting: bool, mark: nat, snapshot: Option<seq<Rec>>)
      returns (ls': seq<Label>, s': Sys)
    requires Mirrors(s, flat, clock, records, rewriting, mark, snapshot) && Path(s0, ls, s)
    ensures var e := Handle(flat, q, clock);
      Mirrors(s', e.ks, clock, records + ArgsAll(e.recs), rewriting, mark, snapshot) && Path(s0, ls', s')
  {
    hide Mirrors, Settled, Handle, Fails, Path;
    ls', s' := ls, s;
    MirrorsSettled(s, flat, clock, records, rewriting, mark, snapshot);
    if Fails(flat, q, clock) {
      FailureIsNoStep(s, q);
    } else {
      ls', s' := HandleIsRun(s0, ls, s, q);
    }
    MirrorsDone(s, Handle(flat, q, clock), flat, clock, records, rewriting, mark, snapshot);
  }

  lemma RequestKeepsFit(records: seq<Command>, ks: Keyspace, snapshot: Option<seq<Rec>>, q: Request, now: int)
    requires LogFits(records, ks, snapshot) && (Fails(ks, q, now) || CanBeReadBack(ks, q, now))
    ensures LogFits(records + ArgsAll(Handle(ks, q, now).recs), Handle(ks, q, now).ks, snapshot)
  {
    hide LogFits, Handle, Fails, Small, Affordable;
    if Fails(ks, q, now) {
      FailureLeaves(ks, q, now);
      assert records + ArgsAll([]) == records;
    } else {
      WriteKeepsFit(records, ks, snapshot, q, now);
    }
  }

  // ----- what events do -----

  /** What never changes while a server runs. */
  datatype Config = Config(durable: bool, reliable: bool, policy: S.EvictionPolicy, budget: int)

  /** What events change: the keyspace, its access times and the LRU clock; the time; the log. */
  datatype View = View(flat: Keyspace, ages: map<Key, nat>, tick: nat, clock: int, records: seq<Command>,
                       failed: bool, rewriting: bool, mark: nat, snapshot: Option<seq<Rec>>)

  /** The log gets these records; if it fails on the way, some of them from the front. */
  ghost predicate Logged(c: Config, v: View, v': View, recs: seq<Rec>) {
    && (c.durable && !v'.failed ==> v'.records == v.records + ArgsAll(recs))
    && v.records <= v'.records <= v.records + ArgsAll(recs)
    && (c.durable && v.failed ==> v'.failed) && (c.reliable ==> v'.failed == v.failed)
    && (!c.durable ==> v'.failed == v.failed && v'.records == v.records)
  }

  /** A dispatched command: nothing, if it is no write or the log has failed; otherwise room is made, and
      in it the command does what it does, if there is room enough and its handler takes it. */
  ghost predicate Dispatched(c: Config, args: Command, now: int, v: View, v': View, victims: seq<Key>)
    requires args != []
  {
    var room, ages := v.flat - KeySet(victims), v.ages - KeySet(victims);
    && S.Evicted(v.flat, v.ages, room, victims, c.policy, c.budget)
    && (c.budget <= 0 || c.policy == S.NoEviction ==> victims == [])
    && v' == v.(flat := v'.flat, ages := v'.ages, clock := now, records := v'.records, failed := v'.failed)
    && if Decode(args).NotAWrite? || (c.durable && v.failed) then v' == v.(clock := now)
       else if (c.budget > 0 && Size(room) > c.budget) || ApplyArgs(room, args, now).None? then
         && v'.flat == room && v'.ages == ages && Logged(c, v, v', Dels(victims))
         && (c.budget > 0 && Size(room) > c.budget ==>
               c.policy == S.NoEviction || (c.policy == S.VolatileLru && S.Volatile(room) == {}))
       else
         var q := Decode(args).q;
         && v'.flat == ApplyArgs(room, args, now).value && v'.ages == Aged(ages, room, q, now, v.tick)
         && Logged(c, v, v', Dels(victims) + Handle(room, q, now).recs)
  }

  /** A lookup touches a live key and collects an expired one. */
  ghost predicate LookedUp(key: Key, now: int, later: int, v: View, v': View) {
    if Live(v.flat, key, now) then v' == v.(clock := later, ages := v.ages[key := v.tick])
    else v' == v.(clock := later, flat := v.flat - {key}, ages := v.ages - {key})
  }

  /** A cycle of active expiry. */
  ghost predicate Swept(now: int, v: View, v': View, rounds: seq<S.Round>) {
    && S.Cycle(v.flat, rounds, v'.flat) && 0 < |rounds| <= 16 && S.Within(rounds, now, v'.clock) && now <= v'.clock
    && (|rounds| < 16 ==> !S.GoesOn(rounds[|rounds| - 1]))
    && v' == v.(flat := v'.flat, ages := v.ages - (v.flat.Keys - v'.flat.Keys), tick := v.tick + |rounds|,
                clock := v'.clock)
  }

  /** The snapshot and what was appended since the rewrite began replace the log, or nothing changes. */
  ghost predicate Rewrote(c: Config, v: View, v': View)
    requires v.snapshot.Some?
  {
    && v' == v.(records := v'.records, failed := v'.failed, rewriting := false, mark := v'.mark, snapshot := None)
    && (v.failed ==> v'.failed && v'.records == v.records)
    && (!v.failed ==>
          || (!v'.failed && v'.records == v.records)
          || (v.mark <= |v.records| && v'.records == ArgsAll(v.snapshot.value) + v.records[v.mark..]))
    && (c.reliable && !v.failed ==>
          && !v'.failed
          && v.mark <= |v.records| && v'.records == ArgsAll(v.snapshot.value) + v.records[v.mark..])
  }

  ghost predicate IsDispatched(c: Config, args: Command, now: int, v: View, v': View)
    requires args != []
  {
    exists victims :: Dispatched(c, args, now, v, v', victims)
  }

  ghost predicate IsSwept(now: int, v: View, v': View) {
    exists rounds :: Swept(now, v, v', rounds)
  }

  ghost predicate HappensTo(c: Config, e: Event, v: View, v': View) {
    match e
    case Incoming(args, wait, _) =>
      if args == [] then v' == v else IsDispatched(c, args, v.clock + wait, v, v')
    case Lookup(key, wait, window) => LookedUp(key, v.clock + wait, v.clock + wait + window, v, v')
    case Expiry(wait) => IsSwept(v.clock + wait, v, v')
    case StartRewrite =>
      if c.durable && !v.failed && !v.rewriting
      then v' == v.(rewriting := true, mark := |v.records|, snapshot := None) else v' == v
    case Snapshot(wait) =>
      if c.durable && v.rewriting && v.snapshot.None? then
        && v'.snapshot.Some? && Enumerates(v'.snapshot.value, Visible(v.flat, v.clock + wait))
        && v' == v.(clock := v.clock + wait, snapshot := v'.snapshot)
      else v' == v
    case EndRewrite => if c.durable && v.snapshot.Some? then Rewrote(c, v, v') else v' == v
    case Timer => v' == v.(failed := v'.failed) && (v.failed ==> v'.failed) && (c.reliable ==> v' == v)
  }

  /** The views are those of a server to which the events happen one after another. */
  ghost predicate Story(c: Config, events: seq<Event>, views: seq<View>) {
    && |views| == |events| + 1
    && forall i :: 0 <= i < |events| ==> HappensTo(c, events[i], views[i], views[i + 1])
  }

  class Server {
    const store: S.Store
    const durable: bool      // s.aof != nil
    const aof: A.Log         // meaningful when durable
    var snapshot: Option<seq<Rec>>

    ghost var clock: int
    ghost var lastStored: nat  // entry sizes stored by the last accepted write
    ghost var sys: Sys         // the protocol state this server is in
    ghost const birth: Sys     // the one it started in
    ghost var trace: seq<Label>  // and the steps in between
    ghost var fits: bool       // every write accepted so far was small and affordable

    /** Until the log fails, the server mirrors a settled state that a timely run of the protocol
        reaches from its birth; and if every write so far was affordable, what it has logged, holds
        and is about to log can be read back. From then on the run stands still where the log failed. */
    ghost predicate Linked()
      reads this`clock, this`sys, this`trace, this`fits, this`snapshot, store`flat, aof
    {
      durable ==>
        if aof.failed then Tied(birth, trace, sys, clock, aof.records, fits)
        else
          && Mirrors(sys, store.flat, clock, aof.records, aof.rewriting, aof.mark, snapshot)
          && Path(birth, trace, sys)
          && (fits ==> LogFits(aof.records, store.flat, snapshot))
    }

    ghost predicate Valid()
      reads this`clock, this`sys, this`trace, this`fits, this`snapshot, store, store.shards, aof
    {
      store.Valid() && aof.Valid() && store.attached == durable && Linked()
    }

    ghost function Settings(): Config
      reads store`policy, store`maxMemory
    {
      Config(durable, aof.reliable, store.policy, store.maxMemory)
    }

    ghost function Seen(): View
      reads this`clock, this`snapshot, store`flat, store`ages, store`clock, aof
    {
      View(store.flat, store.ages, store.clock, clock, aof.records, aof.failed, aof.rewriting, aof.mark, snapshot)
    }

    /** Used memory exceeds the budget by no more than the last accepted write stored. */
    ghost predicate WithinOneWrite()
      reads this, store
    {
      store.maxMemory > 0 ==> Size(store.flat) <= store.maxMemory + lastStored
    }

    /** A store that has replayed the log, each record at its own instant, attached to it. */
    constructor (store: S.Store, aof: A.Log, durable: bool, ghost log: seq<Rec>, ghost ts: seq<int>, ghost clock: int)
      requires store.Valid() && aof.Valid() && store.attached == durable && !aof.rewriting
      requires |log| == |ts| && forall i :: 0 <= i < |ts| ==> ts[i] <= clock
      requires store.flat == Replayed(log, ts) && aof.records == ArgsAll(log)
      ensures Valid() && this.store == store && this.aof == aof && this.durable == durable
      ensures this.clock == clock && birth == Reborn(log, ts, clock) && lastStored == 0
      ensures sys == birth.(failed := aof.failed)
      ensures fits == LogFits(aof.records, store.flat, None)
      ensures store.flat == map[] ==> WithinOneWrite()
    {
      hide S.Store.Valid, Replayed, Alive, Whole, Readable, KeyspaceFits;
      this.store, this.aof, this.durable := store, aof, durable;
      this.snapshot := None;
      this.clock, this.lastStored, this.sys := clock, 0, Reborn(log, ts, clock);
      this.birth, this.trace, this.fits := Reborn(log, ts, clock), [], LogFits(aof.records, store.flat, None);
      new;
      RebornIsAlive(log, ts, clock);
      RebornIsWhole(log, ts, clock);
      if aof.failed {
        trace, sys := Break(birth, trace, sys);
      }
    }

    /** Hands the records of one mutation to the log, in order; the first n of them reach it. */
    method Forward(recs: seq<Rec>) returns (ghost n: nat)
      requires aof.Valid()
      modifies aof
      ensures aof.Valid()
      ensures n <= |recs| && aof.records == old(aof.records) + ArgsAll(recs[..n])
      ensures old(aof.failed) ==> aof.failed && n == 0 && aof.file == old(aof.file)
      ensures !aof.failed ==> n == |recs|
      ensures aof.rewriting == old(aof.rewriting) && aof.mark == old(aof.mark)
      ensures !old(aof.failed) && recs != [] ==> n > 0
      ensures aof.reliable ==> aof.failed == old(aof.failed)
      ensures aof.synced == old(aof.synced) && old(aof.file) <= aof.file
      ensures recs == [] ==> aof.failed == old(aof.failed) && aof.file == old(aof.file)
    {
      hide ToArgs, EncodeAll;
      var i := 0;
      n := 0;
      assert ArgsAll(recs[..0]) == [];
      while i < |recs|
        invariant 0 <= i <= |recs| && aof.Valid()
        invariant n <= i && aof.records == old(aof.records) + ArgsAll(recs[..n])
        invariant old(aof.failed) ==> aof.failed && n == 0 && aof.file == old(aof.file)
        invariant !aof.failed ==> n == i
        invariant aof.rewriting == old(aof.rewriting) && aof.mark == old(aof.mark)
        invariant !old(aof.failed) && i > 0 ==> n > 0
        invariant aof.reliable ==> aof.failed == old(aof.failed)
        invariant aof.synced == old(aof.synced) && old(aof.file) <= aof.file
        invariant i == 0 ==> aof.failed == old(aof.failed) && aof.file == old(aof.file)
      {
        ghost var was := aof.failed;
        var _ := aof.Append(ToArgs(recs[i]));
        if !was {
          assert recs[..i + 1] == recs[..i] + [recs[i]];
          ArgsConcat(recs[..i], [recs[i]]);
          assert ArgsAll([recs[i]]) == [ToArgs(recs[i])];
          n := i + 1;
        }
        i := i + 1;
      }
    }

    /** The clock of the request being served. */
    ghost method Advance(now: int)
      requires Linked() && clock <= now
      modifies this`clock, this`sys, this`trace
      ensures Linked() && clock == now
    {
      hide Settled, Path, LogFits, Readable;
      if durable && !aof.failed {
        trace, sys := Serial.Advance(birth, trace, sys, now);
      }
      clock := now;
    }

    /** Makes room under the memory limit; every eviction reaches the log. */
    method MakeRoom() returns (ok: bool, ghost victims: seq<Key>)
      requires Valid()
      modifies this`sys, this`trace, store`flat, store`ages, store`journal, store.shards, aof
      ensures Valid()
      ensures S.Evicted(old(store.flat), old(store.ages), store.flat, victims, store.policy, store.maxMemory)
      ensures store.ages == old(store.ages) - KeySet(victims)
      ensures ok <==> store.maxMemory <= 0 || Size(store.flat) <= store.maxMemory
      ensures !ok ==> store.policy == S.NoEviction || (store.policy == S.VolatileLru && S.Volatile(store.flat) == {})
      ensures store.maxMemory <= 0 || store.policy == S.NoEviction ==> victims == []
      ensures durable && !aof.failed ==> aof.records == old(aof.records) + ArgsAll(Dels(victims))
      ensures old(aof.records) <= aof.records <= old(aof.records) + ArgsAll(Dels(victims))
      ensures aof.rewriting == old(aof.rewriting) && aof.mark == old(aof.mark)
      ensures !durable || aof.reliable ==> aof.failed == old(aof.failed)
      ensures !durable ==> aof.records == old(aof.records)
      ensures durable && old(aof.failed) ==> aof.failed
      ensures aof.synced == old(aof.synced) && old(aof.file) <= aof.file
      ensures victims == [] ==> aof.failed == old(aof.failed) && aof.file == old(aof.file)
    {
      hide S.Store.Valid, A.Log.Valid, Settled, Size, Mirrors, S.Evicted, Path, LogFits, Tied;
      hide EncodeAll, ToArgs, KeySet;
      ghost var flat0, records0, mark0, rewriting0 := store.flat, aof.records, aof.mark, aof.rewriting;
      var evicted;
      evicted, ok, victims := store.EnforceMemoryLimit();
      EvictedKeys(flat0, old(store.ages), store.flat, victims, store.policy, store.maxMemory);
      if durable {
        var recs := store.journal[|store.journal| - evicted..];
        ghost var n := Forward(recs);
        if !old(aof.failed) {
          DelsPrefix(victims, n);
          trace, sys := EvictionIsRun(birth, trace, sys, victims[..n], flat0, clock, records0, rewriting0, mark0,
                                      snapshot, fits);
          if aof.failed {
            trace, sys := LinkBreaks(birth, trace, sys, flat0 - KeySet(victims[..n]), clock, aof.records, rewriting0,
                                     mark0, snapshot, fits);
          }
        } else {
          assert aof.records == records0;
        }
      }
    }

    /** Runs a decoded request at the current instant; its records reach the log. */
    method Apply(q: Request, now: int) returns (err: bool)
      requires Valid() && now == clock && (q.Increment? ==> IsInt64(q.delta))
      modifies this`sys, this`trace, this`fits, store`flat, store`ages, store`journal, store.shards, aof
      ensures Valid()
      ensures store.flat == Handle(old(store.flat), q, clock).ks
      ensures err == Fails(old(store.flat), q, clock)
      ensures durable && !aof.failed ==>
        aof.records == old(aof.records) + ArgsAll(Handle(old(store.flat), q, clock).recs)
      ensures durable && old(aof.failed) ==> aof.failed
      ensures old(aof.records) <= aof.records <= old(aof.records) + ArgsAll(Handle(old(store.flat), q, clock).recs)
      ensures aof.rewriting == old(aof.rewriting) && aof.mark == old(aof.mark)
      ensures !durable || aof.reliable ==> aof.failed == old(aof.failed)
      ensures !durable ==> aof.records == old(aof.records)
      ensures durable && old(aof.failed) ==> aof.records == old(aof.records)
      ensures store.ages == Aged(old(store.ages), old(store.flat), q, clock, store.clock)
      ensures fits == (old(fits) && (err || CanBeReadBack(old(store.flat), q, now)))
      ensures aof.synced == old(aof.synced) && old(aof.file) <= aof.file
    {
      hide S.Store.Valid, A.Log.Valid, Settled, Mirrors, Handle, Fails, Path, LogFits, CanBeReadBack, EncodeAll, ToArgs;
      hide Tied, Aged, ArgsAll;
      ghost var flat0, records0 := store.flat, aof.records;
      ghost var e := Handle(store.flat, q, clock);
      var known := |store.journal|;
      err := Execute(store, q, now);
      ghost var fits' := fits && (err || CanBeReadBack(flat0, q, now));
      if durable {
        var recs := store.journal[known..];
        assert recs == e.recs;
        ghost var n := Forward(recs);
        assert recs[..n] == if old(aof.failed) then [] else recs by { HandledOnce(flat0, q, clock); }
        NoArgs(records0, recs);
        Relink(q, fits', flat0, records0, old(aof.failed));
      }
      fits := fits';
    }

    /** The run goes on by the request that was just handled, or ends with it. */
    ghost method Relink(q: Request, fits': bool, flat: Keyspace, records: seq<Command>, failed: bool)
      requires durable
      requires failed ==> aof.failed && aof.records == records && Tied(birth, trace, sys, clock, records, fits)
      requires !failed ==>
        && Mirrors(sys, flat, clock, records, aof.rewriting, aof.mark, snapshot)
        && Path(birth, trace, sys) && (fits ==> LogFits(records, flat, snapshot))
        && aof.records == records + ArgsAll(Handle(flat, q, clock).recs)
      requires store.flat == Handle(flat, q, clock).ks
      requires fits' ==> fits && (Fails(flat, q, clock) || CanBeReadBack(flat, q, clock))
      modifies this`sys, this`trace
      ensures if aof.failed then Tied(birth, trace, sys, clock, aof.records, fits')
        else
          && Mirrors(sys, store.flat, clock, aof.records, aof.rewriting, aof.mark, snapshot)
          && Path(birth, trace, sys) && (fits' ==> LogFits(aof.records, store.flat, snapshot))
    {
      hide Mirrors, Path, LogFits, Tied, Handle, Fails, CanBeReadBack, ArgsAll, S.Store.Valid, A.Log.Valid;
      if failed {
        TiedLater(birth, trace, sys, clock, clock, records, fits, fits');
      } else {
        trace, sys := RequestIsRun(birth, trace, sys, q, flat, clock, records, aof.rewriting, aof.mark, snapshot);
        if fits' {
          RequestKeepsFit(records, flat, snapshot, q, clock);
        }
        if aof.failed {
          trace, sys := LinkBreaks(birth, trace, sys, store.flat, clock, aof.records, aof.rewriting, aof.mark,
                                   snapshot, fits');
        }
      }
    }

    /** Runs what was decoded, in the room made for it, and under `always` syncs, unless the reply cannot
        be written: then the handler returns its error, and dispatch with it. */
    method Perform(decoded: Decoded, now: int, sent: bool) returns (reply: Reply)
      requires Valid() && now == clock && !decoded.NotAWrite?
      requires decoded.Write? && decoded.q.Increment? ==> IsInt64(decoded.q.delta)
      requires store.maxMemory <= 0 || Size(store.flat) <= store.maxMemory
      modifies this`sys, this`trace, this`fits, this`lastStored
      modifies store`flat, store`ages, store`journal, store.shards, aof
      ensures Valid()
      ensures reply == Accepted || reply == ErrorReply
      ensures reply == Accepted <==> decoded.Write? && !Fails(old(store.flat), decoded.q, now)
      ensures reply == Accepted ==> store.flat == Handle(old(store.flat), decoded.q, now).ks && WithinOneWrite()
      ensures reply == ErrorReply ==> store.flat == old(store.flat) && lastStored == old(lastStored)
      ensures reply == Accepted && durable && !aof.failed ==>
        aof.records == old(aof.records) + ArgsAll(Handle(old(store.flat), decoded.q, now).recs)
      ensures reply == ErrorReply && durable && !aof.failed ==> aof.records == old(aof.records)
      ensures reply == Accepted ==> store.ages == Aged(old(store.ages), old(store.flat), decoded.q, now, store.clock)
      ensures reply == ErrorReply ==> store.ages == old(store.ages)
      ensures var recs := if reply == Accepted then Handle(old(store.flat), decoded.q, now).recs else [];
        old(aof.records) <= aof.records <= old(aof.records) + ArgsAll(recs)
      ensures aof.rewriting == old(aof.rewriting) && aof.mark == old(aof.mark)
      ensures !durable || aof.reliable ==> aof.failed == old(aof.failed)
      ensures !durable ==> aof.records == old(aof.records)
      ensures durable && old(aof.failed) ==> aof.records == old(aof.records)
      ensures fits == (old(fits) && (reply == Accepted ==> CanBeReadBack(old(store.flat), decoded.q, now)))
      ensures sent && durable && aof.policy == A.Always ==> aof.AllDurable() || aof.failed
      ensures !sent ==> aof.synced == old(aof.synced) && old(aof.file) <= aof.file
      ensures durable && old(aof.failed) ==> aof.failed
    {
      hide S.Store.Valid, A.Log.Valid, Size, Decode, Handle, Fails, EncodeAll, ToArgs, Stored, CanBeReadBack;
      hide Server.Linked, Aged;
      reply := ErrorReply;
      if decoded.Write? {
        GrowthIsBounded(store.flat, decoded.q, now);
        ghost var stored := Stored(store.flat, decoded.q, now);
        ghost var room := store.flat;
        var err := Apply(decoded.q, now);
        if err {
          FailureLeaves(room, decoded.q, now);
          FailureDoesNotAge(old(store.ages), room, decoded.q, now, store.clock);
          assert aof.records + [] == aof.records;
        } else {
          reply := Accepted;
          lastStored := stored;
        }
      }
      if sent && durable {
        SyncReply();
      }
    }

    method SyncReply()
      requires Valid() && durable
      modifies this`sys, this`trace, aof
      ensures Valid() && aof.records == old(aof.records)
      ensures aof.rewriting == old(aof.rewriting) && aof.mark == old(aof.mark)
      ensures aof.policy == A.Always ==> aof.AllDurable() || aof.failed
      ensures old(aof.failed) ==> aof.failed
      ensures aof.reliable ==> aof.failed == old(aof.failed)
    {
      hide S.Store.Valid, A.Log.Valid, Settled, Mirrors, Path, LogFits, EncodeAll, Tied;
      var _ := aof.SyncIfAlways();
      NoticeFailure(old(aof.failed));
    }

    /** Called after the log has done something that left its records alone: if it failed in doing so,
        the run ends there. */
    ghost method NoticeFailure(failed: bool)
      requires durable && (failed ==> aof.failed && Tied(birth, trace, sys, clock, aof.records, fits))
      requires !failed ==>
        && Mirrors(sys, store.flat, clock, aof.records, aof.rewriting, aof.mark, snapshot)
        && Path(birth, trace, sys) && (fits ==> LogFits(aof.records, store.flat, snapshot))
      modifies this`sys, this`trace
      ensures Linked()
    {
      hide Mirrors, Path, LogFits, Tied;
      if !failed && aof.failed {
        trace, sys := LinkBreaks(birth, trace, sys, store.flat, clock, aof.records, aof.rewriting, aof.mark,
                                 snapshot, fits);
      }
    }

    /** The part of dispatch behind the first gate: make room for a write, run it in that room. */
    method Admit(args: Command, now: int, sent: bool) returns (reply: Reply, ghost victims: seq<Key>)
      requires Valid() && args != [] && clock == now && !Decode(args).NotAWrite? && !(durable && aof.failed)
      modifies this`sys, this`trace, this`fits, this`lastStored
      modifies store`flat, store`ages, store`journal, store.shards, aof
      ensures Valid() && reply != NotHandled && reply != Misconf
      ensures !durable || aof.reliable ==> aof.failed == old(aof.failed)
      ensures old(WithinOneWrite()) || reply == Accepted ==> WithinOneWrite()
      ensures var room := old(store.flat) - KeySet(victims);
        && (reply == Oom || reply == ErrorReply ==> store.flat == room)
        && (reply == Oom ==> store.maxMemory > 0 && Size(room) > store.maxMemory)
        && (reply == Oom ==>
              store.policy == S.NoEviction || (store.policy == S.VolatileLru && S.Volatile(room) == {}))
        && (reply == Accepted || reply == ErrorReply ==> store.maxMemory <= 0 || Size(room) <= store.maxMemory)
        && (reply == ErrorReply ==> Decode(args).Rejected? || (Decode(args).Write? && Fails(room, Decode(args).q, now)))
        && (reply == Accepted ==>
              && Decode(args).Write? && !Fails(room, Decode(args).q, now)
              && store.flat == Handle(room, Decode(args).q, now).ks)
        && (reply != Accepted && durable && !aof.failed ==> aof.records == old(aof.records) + ArgsAll(Dels(victims)))
        && (reply == Accepted && durable && !aof.failed ==>
              aof.records ==
                old(aof.records) + ArgsAll(Dels(victims)) + ArgsAll(Handle(room, Decode(args).q, now).recs))
        && S.Evicted(old(store.flat), old(store.ages), room, victims, store.policy, store.maxMemory)
        && fits == (old(fits) && (reply == Accepted ==> CanBeReadBack(room, Decode(args).q, now)))
      ensures reply != Oom && sent && durable && aof.policy == A.Always ==> aof.AllDurable() || aof.failed
      ensures old(aof.records) <= aof.records
      ensures !sent || reply == Oom ==> aof.synced == old(aof.synced) && old(aof.file) <= aof.file
      ensures Dispatched(Settings(), args, now, old(Seen()), Seen(), victims)
    {
      hide S.Store.Valid, A.Log.Valid, Size, Decode, Handle, Fails, S.Evicted, EncodeAll, ToArgs, CanBeReadBack;
      hide S.Volatile, Server.Linked, KeySet, Aged, Dispatched, Logged, ArgsAll, Dels;
      var decoded := Decode(args);
      ghost var v := Seen();
      var ok;
      ok, victims := MakeRoom();
      EvictedKeys(old(store.flat), old(store.ages), store.flat, victims, store.policy, store.maxMemory);
      ShrinksByKeys(old(store.flat), KeySet(victims));
      ghost var mid := Seen();
      LoggedBy(Settings(), v, mid, Dels(victims));
      if ok {
        DeltaIsSmall(args);
        reply := Perform(decoded, now, sent);
        ghost var recs := if reply == Accepted then Handle(mid.flat, decoded.q, now).recs else [];
        NoArgs(mid.records, recs);
        LoggedBy(Settings(), mid, Seen(), recs);
        WriteDispatched(Settings(), args, now, v, mid, Seen(), victims, recs);
      } else {
        reply := Oom;
        RefusalDispatched(Settings(), args, now, v, mid, victims);
      }
    }

    /** dispatch: decode, refuse a write when the log has failed or memory cannot be freed, run it,
        and under `always` sync before the reply leaves. Whether the reply can be written is up to the
        client's connection.

        A refused write is not applied. An accepted one leaves memory as its handler says, after
        the evictions, and its records behind theirs in the log. Under `always`, unless the log
        failed in this very call, every record ever appended is on stable storage after a write that
        was run and whose reply was written; and a log that was durable before stays so if and only if
        the call appended nothing, or was such a write: the refusal for lack of memory, which may come
        after evictions, and the error of a reply that cannot be written both leave before the sync.
        A write whose sync fails is accepted all the same. */
    method Dispatch(args: Command, now: int, sent: bool) returns (reply: Reply, ghost victims: seq<Key>)
      requires Valid() && args != [] && clock <= now
      modifies this`sys, this`trace, this`fits, this`clock, this`lastStored
      modifies store`flat, store`ages, store`journal, store.shards, aof
      ensures Valid() && clock == now
      ensures old(WithinOneWrite()) || reply == Accepted ==> WithinOneWrite()
      ensures reply == NotHandled <==> Decode(args).NotAWrite?
      ensures reply == Misconf <==> !Decode(args).NotAWrite? && durable && old(aof.failed)
      ensures aof.reliable ==> aof.failed == old(aof.failed)
      ensures reply == NotHandled || reply == Misconf ==>
        victims == [] && store.flat == old(store.flat) && aof.records == old(aof.records) && aof.file == old(aof.file)
      ensures var room := old(store.flat) - KeySet(victims);
        && (reply == Oom || reply == ErrorReply ==> store.flat == room)
        && (reply == Oom ==> store.maxMemory > 0 && Size(room) > store.maxMemory)
        && (reply == Oom ==>
              store.policy == S.NoEviction || (store.policy == S.VolatileLru && S.Volatile(room) == {}))
        && (reply == Accepted || reply == ErrorReply ==> store.maxMemory <= 0 || Size(room) <= store.maxMemory)
        && (reply == ErrorReply ==> Decode(args).Rejected? || (Decode(args).Write? && Fails(room, Decode(args).q, now)))
        && (reply == Accepted ==>
              && Decode(args).Write? && !Fails(room, Decode(args).q, now)
              && store.flat == Handle(room, Decode(args).q, now).ks)
        && (reply != Accepted && durable && !aof.failed ==> aof.records == old(aof.records) + ArgsAll(Dels(victims)))
        && (reply == Accepted && durable && !aof.failed ==>
              aof.records ==
                old(aof.records) + ArgsAll(Dels(victims)) + ArgsAll(Handle(room, Decode(args).q, now).recs))
        && S.Evicted(old(store.flat), old(store.ages), room, victims, store.policy, store.maxMemory)
        && fits == (old(fits) && (reply == Accepted ==> CanBeReadBack(room, Decode(args).q, now)))
      ensures (reply == Accepted || reply == ErrorReply) && sent && durable && aof.policy == A.Always ==>
        aof.AllDurable() || aof.failed
      ensures old(aof.AllDurable()) && durable && aof.policy == A.Always && !aof.failed ==>
        (aof.AllDurable() <==> (sent && reply != Oom) || aof.records == old(aof.records))
      ensures !sent || reply == Oom ==> aof.synced == old(aof.synced) && old(aof.file) <= aof.file
      ensures durable && old(aof.failed) ==> aof.failed
      ensures Dispatched(Settings(), args, now, old(Seen()), Seen(), victims)
    {
      hide S.Store.Valid, A.Log.Valid, Size, Decode, Handle, Fails, S.Evicted, EncodeAll, ToArgs, CanBeReadBack;
      hide S.Volatile, Server.Linked, KeySet, Aged, Dispatched, Logged, ArgsAll, Dels;
      var decoded := Decode(args);
      ghost var v := Seen();
      Advance(now);
      NoVictims(store.flat, store.ages, store.policy, store.maxMemory, aof.records);
      if decoded.NotAWrite? {
        NothingDispatched(Settings(), args, now, v, Seen());
        return NotHandled, [];
      }
      if durable && aof.failed {
        NothingDispatched(Settings(), args, now, v, Seen());
        return Misconf, [];
      }
      reply, victims := Admit(args, now, sent);
      DispatchedFrom(Settings(), args, now, v, Seen(), victims);
      if old(aof.AllDurable()) && durable && !aof.failed && (!sent || reply == Oom) {
        FileIsPrefix(aof);
        StillDurableIff(old(aof.records), old(aof.file), aof.records, aof.file, aof.synced);
      }
    }

    // ----- background work -----

    /** The expiry ticker: keys go, without records, and the server stays in the protocol. */
    method ExpireCycle(now: int) returns (end: int, ghost rounds: seq<S.Round>)
      requires Valid() && clock <= now
      modifies this`sys, this`trace, this`clock, store`flat, store`ages, store`clock, store.shards
      ensures Valid() && clock == end && now <= end
      ensures old(WithinOneWrite()) ==> WithinOneWrite()
      ensures OnlyFewer(store.flat, old(store.flat))
      ensures forall t :: t >= end ==> Visible(store.flat, t) == Visible(old(store.flat), t)
      ensures Swept(now, old(Seen()), Seen(), rounds)
    {
      hide S.Store.Valid, A.Log.Valid, Settled, Mirrors, Size, Visible, Path, LogFits, Tied;
      hide S.Cycle, S.GoesOn, S.Within, Swept;
      ghost var flat0 := store.flat;
      ghost var gone;
      var scanned, expired;
      scanned, expired, end, gone, rounds := store.ActiveExpireCycle(now);
      ShrinksByKeys(flat0, gone);
      if durable && !aof.failed {
        trace, sys := CollectionIsRun(birth, trace, sys, gone, end, flat0, clock, aof.records, aof.rewriting, aof.mark,
                                      snapshot, fits);
      } else if durable {
        TiedLater(birth, trace, sys, clock, end, aof.records, fits, fits);
      }
      clock := end;
      SweptBy(now, old(Seen()), Seen(), rounds, gone);
    }

    /** GET, in its two halves: the value if the key is live now; an expired entry is collected after a
        window, if it is still expired then. Nothing visible changes. */
    method Lookup(key: Key, now: int, later: int) returns (val: Option<Bytes>)
      requires Valid() && clock <= now <= later
      modifies this`sys, this`trace, this`clock, store`flat, store`ages, store.shards
      ensures Valid() && clock == later
      ensures old(WithinOneWrite()) ==> WithinOneWrite()
      ensures val == if Live(old(store.flat), key, now) then Some(old(store.flat)[key].val) else None
      ensures OnlyFewer(store.flat, old(store.flat))
      ensures forall t :: t >= later ==> Visible(store.flat, t) == Visible(old(store.flat), t)
      ensures LookedUp(key, now, later, old(Seen()), Seen())
    {
      hide S.Store.Valid, A.Log.Valid, Settled, Mirrors, Size, Visible, Path, LogFits, Tied;
      ghost var flat0 := store.flat;
      var expired;
      val, expired := store.GetProbe(key, now);
      if expired {
        store.CollectIfExpired(key, later);
      }
      store.AgesMatch();
      ghost var gone := if key in flat0 && expired then {key} else {};
      assert store.flat == flat0 - gone;
      assert key !in flat0 ==> flat0 - {key} == flat0 && store.ages - {key} == store.ages;
      ShrinksByKeys(flat0, gone);
      if durable && !aof.failed {
        trace, sys := CollectionIsRun(birth, trace, sys, gone, later, flat0, clock, aof.records, aof.rewriting,
                                      aof.mark, snapshot, fits);
      } else if durable {
        TiedLater(birth, trace, sys, clock, later, aof.records, fits, fits);
      }
      clock := later;
    }

    /** BGREWRITEAOF, first half. */
    method BeginRewrite() returns (ok: bool)
      requires Valid()
      modifies this`sys, this`trace, this`snapshot, aof
      ensures Valid() && aof.records == old(aof.records) && aof.file == old(aof.file) && aof.failed == old(aof.failed)
      ensures ok <==> durable && !aof.failed && !old(aof.rewriting)
      ensures ok ==> aof.rewriting && aof.mark == |aof.records| && snapshot.None?
      ensures !ok ==> aof.rewriting == old(aof.rewriting) && aof.mark == old(aof.mark) && snapshot == old(snapshot)
    {
      hide S.Store.Valid, Settled, Path, Readable, KeyspaceFits, Tied;
      if !durable {
        return false;
      }
      ok := aof.BeginRewrite();
      if ok {
        trace, sys := Begin(birth, trace, sys);
        assert aof.records[aof.mark..] == ArgsAll([]);
        snapshot := None;
      }
    }

    /** The rewriter's walk over all shards. */
    method TakeSnapshot(now: int)
      requires Valid() && durable && aof.rewriting && snapshot.None? && clock <= now
      modifies this`sys, this`trace, this`snapshot, this`clock
      ensures Valid() && snapshot.Some? && clock == now
      ensures Enumerates(snapshot.value, Visible(store.flat, now))
    {
      hide S.Store.Valid, A.Log.Valid, Settled, Enumerates, Visible, LivePart, Path, LogFits, Tied;
      Advance(now);
      ghost var parts;
      var recs;
      recs, parts := store.AofSnapshot(now);
      if !aof.failed {
        trace, sys := WalkAll(birth, trace, sys, parts);
        if fits {
          SnapshotFits(aof.records, store.flat, recs, now);
        }
      }
      snapshot := Some(recs);
    }

    /** BGREWRITEAOF, second half: install the snapshot and the tail, or leave everything as it was. */
    method FinishRewrite() returns (ok: bool)
      requires Valid() && durable && snapshot.Some?
      modifies this`sys, this`trace, this`snapshot, aof
      ensures Valid() && snapshot.None? && !aof.rewriting
      ensures ok ==> !aof.failed && aof.AllDurable() && old(aof.mark) <= |old(aof.records)|
      ensures ok ==> aof.records == ArgsAll(old(snapshot).value) + old(aof.records)[old(aof.mark)..]
      ensures !ok && !aof.failed ==> aof.records == old(aof.records) && aof.file == old(aof.file)
      ensures aof.reliable ==> (ok <==> !old(aof.failed))
      ensures Rewrote(Settings(), old(Seen()), Seen())
      ensures old(aof.failed) ==> !ok && aof.failed && aof.file == old(aof.file) && aof.records == old(aof.records)
    {
      hide S.Store.Valid, A.Log.Valid, Settled, Mirrors, EncodeAll, Path, LogFits, ToArgs, Tied;
      ghost var records0, mark0, rewriting0 := aof.records, aof.mark, aof.rewriting;
      ok := aof.FinishRewrite(ArgsAll(snapshot.value));
      if !old(aof.failed) {
        trace, sys := RewriteEnds(birth, trace, sys, ok || aof.failed, store.flat, clock, records0, rewriting0, mark0,
                                  snapshot.value, aof.mark, fits);
        if aof.failed {
          trace, sys := LinkBreaks(birth, trace, sys, store.flat, clock, aof.records, false, aof.mark, None, fits);
        }
      }
      snapshot := None;
    }

    /** The log's timer. */
    method SyncTick()
      requires Valid()
      modifies this`sys, this`trace, aof
      ensures Valid() && aof.records == old(aof.records)
      ensures aof.rewriting == old(aof.rewriting) && aof.mark == old(aof.mark)
      ensures old(aof.failed) ==> aof.failed && aof.file == old(aof.file)
      ensures aof.reliable ==> aof.failed == old(aof.failed)
      ensures durable && !aof.failed ==> aof.buffered == [] && aof.file == EncodeAll(aof.records)
      ensures durable && !aof.failed && aof.policy == A.EverySecond ==> aof.AllDurable()
    {
      hide S.Store.Valid, A.Log.Valid, Settled, Mirrors, Path, LogFits, EncodeAll, Tied;
      if durable {
        var _ := aof.SyncLocked(aof.policy == A.EverySecond);
        NoticeFailure(old(aof.failed));
      }
    }

    // ----- whole runs -----

    /** One event, with the longest value so far as a yardstick. */
    method ServeOne(event: Event, start: int, ghost most: int, ghost longest: int) returns (end: int)
      requires Valid() && clock == start
      modifies this`sys, this`trace, this`fits, this`clock, this`lastStored, this`snapshot
      modifies store`flat, store`ages, store`journal, store`clock, store.shards, aof
      ensures Valid() && clock == end >= start
      ensures old(WithinOneWrite()) ==> WithinOneWrite()
      ensures durable && old(aof.failed) ==>
        && aof.failed && aof.file == old(aof.file) && aof.records == old(aof.records)
        && forall t :: t >= end ==> Visible(store.flat, t) == Visible(old(store.flat), t)
      ensures most >= COUNTER_LENGTH && ValuesWithin(old(store.flat), most) ==>
        && ValuesWithin(store.flat, most + EventBytes(event))
        && (old(fits) && start >= NS_PER_MS && ModestEvent(event, end, longest) ==>
              (most + EventBytes(event) <= longest ==> fits))
      ensures HappensTo(Settings(), event, old(Seen()), Seen())
    {
      hide S.Store.Valid, A.Log.Valid, Size, Visible, Decode, Handle, Fails, S.Evicted, EncodeAll, ToArgs;
      hide CanBeReadBack, S.Volatile, Modest, Server.Linked, KeySet, ArgBytes, ValuesWithin, OnlyFewer;
      hide Dispatched, Swept, LookedUp, Rewrote, Enumerates;
      end := start;
      ghost var flat0 := store.flat;
      match event {
        case Incoming(args, wait, sent) =>
          if args != [] {
            end := end + wait;
            var reply;
            ghost var victims;
            reply, victims := Dispatch(args, end, sent);
            assert IsDispatched(Settings(), args, end, old(Seen()), Seen());
            FewerKeys(flat0, KeySet(victims));
            if most >= COUNTER_LENGTH && ValuesWithin(flat0, most) {
              RequestStaysWithin(args, flat0, flat0 - KeySet(victims), end, most);
            }
          } else {
            FewerKeys(flat0, {});
          }
        case Lookup(key, wait, window) =>
          var _ := Lookup(key, end + wait, end + wait + window);
          end := end + wait + window;
        case Expiry(wait) =>
          ghost var rounds;
          end, rounds := ExpireCycle(end + wait);
          assert IsSwept(start + wait, old(Seen()), Seen());
        case StartRewrite =>
          var _ := BeginRewrite();
        case Snapshot(wait) =>
          if durable && aof.rewriting && snapshot.None? {
            end := end + wait;
            TakeSnapshot(end);
          }
        case EndRewrite =>
          if durable && snapshot.Some? {
            var _ := FinishRewrite();
          }
        case Timer =>
          SyncTick();
      }
      if most >= COUNTER_LENGTH && ValuesWithin(flat0, most) {
        if OnlyFewer(store.flat, flat0) {
          FewerStayWithin(store.flat, flat0, most);
          WithinMore(store.flat, most, EventBytes(event));
        }
      }
    }

    /** Any sequence of requests, lookups, expiry ticks, rewrites and timer syncs. The server stays in the
        protocol, and within one write of its budget if it started there; its log stays readable if
        every command is modest up to the end; once the log has failed, nothing changes the live data or
        the log any more; and the events have happened to it, one after another. */
    method Serve(events: seq<Event>, start: int, ghost most: int) returns (end: int, ghost views: seq<View>)
      requires Valid() && clock == start
      modifies this`sys, this`trace, this`fits, this`clock, this`lastStored, this`snapshot
      modifies store`flat, store`ages, store`journal, store`clock, store.shards, aof
      ensures Valid() && clock == end >= start
      ensures old(WithinOneWrite()) ==> WithinOneWrite()
      ensures durable && old(aof.failed) ==>
        && aof.failed && aof.file == old(aof.file) && aof.records == old(aof.records)
        && forall t :: t >= end ==> Visible(store.flat, t) == Visible(old(store.flat), t)
      ensures most >= COUNTER_LENGTH && ValuesWithin(old(store.flat), most) ==>
        (old(fits) && start >= NS_PER_MS && AllModest(events, end, most + Carried(events)) ==> fits)
      ensures Story(Settings(), events, views) && views[0] == old(Seen()) && views[|events|] == Seen()
    {
      hide S.Store.Valid, A.Log.Valid, Size, Visible, EncodeAll, ModestEvent, AllModest, Server.Linked, ValuesWithin;
      hide Carried, EventBytes, HappensTo;
      end := start;
      views := [Seen()];
      ghost var longest := most + Carried(events);
      ghost var yardstick := most >= COUNTER_LENGTH && ValuesWithin(store.flat, most);
      var i := 0;
      assert Carried(events[..0]) == 0 by { NothingCarried(events); }
      while i < |events|
        invariant 0 <= i <= |events|
        invariant |views| == i + 1 && views[0] == old(Seen()) && views[i] == Seen()
        invariant forall j :: 0 <= j < i ==> HappensTo(Settings(), events[j], views[j], views[j + 1])
        invariant Valid() && clock == end >= start
        invariant old(WithinOneWrite()) ==> WithinOneWrite()
        invariant durable && old(aof.failed) ==>
          && aof.failed && aof.file == old(aof.file) && aof.records == old(aof.records)
          && forall t :: t >= end ==> Visible(store.flat, t) == Visible(old(store.flat), t)
        invariant yardstick ==> ValuesWithin(store.flat, most + Carried(events[..i]))
        invariant old(fits) && start >= NS_PER_MS && yardstick && AllModest(events[..i], end, longest) ==> fits
      {
        ghost var before := end;
        CarriedNext(events, i);
        end := ServeOne(events[i], end, most + Carried(events[..i]), longest);
        if AllModest(events[..i + 1], end, longest) {
          ModestEarlier(events, i, before, end, longest);
        }
        views := views + [Seen()];
        i := i + 1;
      }
      assert events[..i] == events;
    }
  }

  lemma NothingCarried(events: seq<Event>)
    ensures Carried(events[..0]) == 0
  {
  }

  lemma FewerKeys(ks: Keyspace, gone: set<Key>)
    ensures OnlyFewer(ks - gone, ks) && OnlyFewer(ks, ks)
  {
  }

  lemma WithinMore(ks: Keyspace, n: int, more: nat)
    requires ValuesWithin(ks, n)
    ensures ValuesWithin(ks, n + more)
  {
  }

  /** Time passing and expired keys going are a run from one mirrored state to the next. */
  lemma CollectionIsRun(s0: Sys, ls: seq<Label>, s: Sys, gone: set<Key>, end: int, flat: Keyspace, clock: int,
                        records: seq<Command>, rewriting: bool, mark: nat, snapshot: Option<seq<Rec>>, fits: bool)
      returns (ls': seq<Label>, s': Sys)
    requires Mirrors(s, flat, clock, records, rewriting, mark, snapshot) && Path(s0, ls, s)
    requires (fits ==> LogFits(records, flat, snapshot)) && clock <= end
    requires forall k :: k in gone ==> k in flat && Expired(flat[k], end)
    ensures Mirrors(s', flat - gone, end, records, rewriting, mark, snapshot) && Path(s0, ls', s')
    ensures fits ==> LogFits(records, flat - gone, snapshot)
  {
    hide Mirrors, Settled, Path, LogFits;
    MirrorsSettled(s, flat, clock, records, rewriting, mark, snapshot);
    ls', s' := Serial.Advance(s0, ls, s, end);
    ls', s' := CollectAll(s0, ls', s', gone);
    MirrorsMoved(s, s', flat, clock, records, rewriting, mark, snapshot);
    if fits {
      FewerKeysFit(records, flat, snapshot, gone);
    }
  }

  /** A rewrite whose snapshot is taken installs it or gives up. */
  lemma RewriteEnds(s0: Sys, ls: seq<Label>, s: Sys, installed: bool, flat: Keyspace, clock: int, records: seq<Command>,
                    rewriting: bool, mark: nat, recs: seq<Rec>, mark': nat, fits: bool)
      returns (ls': seq<Label>, s': Sys)
    requires Mirrors(s, flat, clock, records, rewriting, mark, Some(recs)) && Path(s0, ls, s)
    requires fits ==> LogFits(records, flat, Some(recs))
    ensures rewriting && mark <= |records| && Path(s0, ls', s')
    ensures var records' := if installed then ArgsAll(recs) + records[mark..] else records;
      Mirrors(s', flat, clock, records', false, mark', None) && (fits ==> LogFits(records', flat, None))
  {
    hide Settled, Path, Readable, KeyspaceFits, ToArgs;
    SettledWalkRewrites(s);
    ArgsConcat(s.walk.acc, s.tail);
    if installed {
      ls', s' := InstallAll(s0, ls, s);
      if fits {
        InstallKeepsFit(records, mark, flat, recs);
      }
    } else {
      ls', s' := AbortAll(s0, ls, s);
    }
  }

  lemma NoArgs(records: seq<Command>, recs: seq<Rec>)
    ensures records + ArgsAll([]) == records && records <= records + ArgsAll(recs)
  {
  }

  lemma LoggedBy(c: Config, v: View, v': View, recs: seq<Rec>)
    requires c.durable && !v'.failed ==> v'.records == v.records + ArgsAll(recs)
    requires v.records <= v'.records <= v.records + ArgsAll(recs)
    requires c.durable && v.failed ==> v'.failed
    requires !c.durable ==> v'.failed == v.failed && v'.records == v.records
    requires c.reliable ==> v'.failed == v.failed
    ensures Logged(c, v, v', recs)
  {
  }

  lemma LoggedTwice(c: Config, v: View, mid: View, v': View, a: seq<Rec>, b: seq<Rec>)
    requires Logged(c, v, mid, a) && Logged(c, mid, v', b)
    requires c.durable && mid.failed ==> v'.records == mid.records
    ensures Logged(c, v, v', a + b)
  {
    hide ToArgs;
    ArgsConcat(a, b);
    assert v.records + ArgsAll(a + b) == v.records + ArgsAll(a) + ArgsAll(b);
  }

  lemma NothingDispatched(c: Config, args: Command, now: int, v: View, v': View)
    requires args != [] && v' == v.(clock := now) && (Decode(args).NotAWrite? || (c.durable && v.failed))
    requires v.flat - KeySet([]) == v.flat && S.Evicted(v.flat, v.ages, v.flat, [], c.policy, c.budget)
    ensures Dispatched(c, args, now, v, v', [])
  {
    hide Decode, S.Evicted, Size, ApplyArgs, Handle, Aged, Logged, KeySet;
  }

  lemma DispatchedFrom(c: Config, args: Command, now: int, v: View, v': View, victims: seq<Key>)
    requires args != [] && Dispatched(c, args, now, v.(clock := now), v', victims)
    ensures Dispatched(c, args, now, v, v', victims)
  {
    hide Decode, S.Evicted, Size, ApplyArgs, Handle, Aged, KeySet;
  }

  lemma RefusalDispatched(c: Config, args: Command, now: int, v: View, mid: View, victims: seq<Key>)
    requires args != [] && !Decode(args).NotAWrite? && !(c.durable && v.failed)
    requires S.Evicted(v.flat, v.ages, mid.flat, victims, c.policy, c.budget)
    requires c.budget <= 0 || c.policy == S.NoEviction ==> victims == []
    requires mid.flat == v.flat - KeySet(victims) && mid.ages == v.ages - KeySet(victims)
    requires c.budget > 0 && Size(mid.flat) > c.budget && Logged(c, v, mid, Dels(victims))
    requires c.policy == S.NoEviction || (c.policy == S.VolatileLru && S.Volatile(mid.flat) == {})
    requires mid == v.(flat := mid.flat, ages := mid.ages, clock := now, records := mid.records, failed := mid.failed)
    ensures Dispatched(c, args, now, v, mid, victims)
  {
    hide Decode, S.Evicted, Size, ApplyArgs, Handle, Aged, Logged, KeySet;
  }

  lemma WriteDispatched(c: Config, args: Command, now: int, v: View, mid: View, v': View, victims: seq<Key>,
                        recs: seq<Rec>)
    requires args != [] && !Decode(args).NotAWrite? && !(c.durable && v.failed)
    requires S.Evicted(v.flat, v.ages, mid.flat, victims, c.policy, c.budget)
    requires c.budget <= 0 || c.policy == S.NoEviction ==> victims == []
    requires mid.flat == v.flat - KeySet(victims) && mid.ages == v.ages - KeySet(victims)
    requires (c.budget <= 0 || Size(mid.flat) <= c.budget) && Logged(c, v, mid, Dels(victims))
    requires mid == v.(flat := mid.flat, ages := mid.ages, clock := now, records := mid.records, failed := mid.failed)
    requires v' == mid.(flat := v'.flat, ages := v'.ages, records := v'.records, failed := v'.failed)
    requires Logged(c, mid, v', recs) && (c.durable && mid.failed ==> v'.records == mid.records)
    requires Decode(args).Write? && !Fails(mid.flat, Decode(args).q, now) ==>
      var q := Decode(args).q;
      && v'.flat == Handle(mid.flat, q, now).ks && recs == Handle(mid.flat, q, now).recs
      && v'.ages == Aged(mid.ages, mid.flat, q, now, v.tick)
    requires !(Decode(args).Write? && !Fails(mid.flat, Decode(args).q, now)) ==>
      v'.flat == mid.flat && v'.ages == mid.ages && recs == []
    ensures Dispatched(c, args, now, v, v', victims)
  {
    hide Decode, S.Evicted, Size, Handle, Fails, Aged, Logged, KeySet;
    LoggedTwice(c, v, mid, v', Dels(victims), recs);
    assert Dels(victims) + [] == Dels(victims);
  }

  lemma SweptBy(now: int, v: View, v': View, rounds: seq<S.Round>, gone: set<Key>)
    requires S.Cycle(v.flat, rounds, v'.flat) && 0 < |rounds| <= 16 && now <= v'.clock
    requires S.Within(rounds, now, v'.clock)
    requires |rounds| < 16 ==> !S.GoesOn(rounds[|rounds| - 1])
    requires v'.flat == v.flat - gone && forall k :: k in gone ==> k in v.flat
    requires v' == v.(flat := v'.flat, ages := v.ages - gone, tick := v.tick + |rounds|, clock := v'.clock)
    ensures Swept(now, v, v', rounds)
  {
    hide S.Cycle, S.GoesOn, S.Within;
    assert v.flat.Keys - v'.flat.Keys == gone;
  }

  lemma SettledWalkRewrites(s: Sys)
    requires Settled(s)
    ensures s.walk.Walking? ==> s.rewriting
  {
  }

  /** Time passing and expired keys going leave the log and its rewrite alone. */
  lemma MirrorsMoved(s: Sys, s': Sys, flat: Keyspace, clock: int, records: seq<Command>,
                     rewriting: bool, mark: nat, snapshot: Option<seq<Rec>>)
    requires Mirrors(s, flat, clock, records, rewriting, mark, snapshot)
    requires Settled(s') && s' == s.(mem := s'.mem, clock := s'.clock)
    ensures Mirrors(s', s'.mem, s'.clock, records, rewriting, mark, snapshot)
  {
    hide Settled;
  }

  lemma DeltaIsSmall(args: Command)
    requires args != []
    ensures Decode(args).Write? && Decode(args).q.Increment? ==> IsInt64(Decode(args).q.delta)
  {
    hide Upper, ParseTtl;
  }

  lemma FailureLeaves(ks: Keyspace, q: Request, now: int)
    requires Fails(ks, q, now)
    ensures Handle(ks, q, now).ks == ks && Handle(ks, q, now).recs == []
  {
  }

  lemma FailureDoesNotAge(ages: map<Key, nat>, ks: Keyspace, q: Request, now: int, tick: nat)
    requires Fails(ks, q, now)
    ensures Aged(ages, ks, q, now, tick) == ages
  {
  }

  lemma FailureIsNoStep(s: Sys, q: Request)
    requires Fails(s.mem, q, s.clock)
    ensures Done(s, Handle(s.mem, q, s.clock)) == s
  {
    assert s.hist + [] == s.hist && s.log + [] == s.log && s.tail + [] == s.tail;
  }

  /** A log that was durable, and has not been synced since, is still durable if and only if nothing
      was appended. */
  lemma StillDurableIff(records0: seq<Command>, file0: Bytes, records: seq<Command>, file: Bytes, synced: nat)
    requires file0 <= file <= EncodeAll(records) && records0 <= records
    requires file0 == EncodeAll(records0) && synced == |file0|
    ensures file == EncodeAll(records) && synced == |file| <==> records == records0
  {
    hide Bulks;
    var more := records[|records0|..];
    assert records == records0 + more;
    EncodeAllConcat(records0, more);
    assert more != [] ==> |EncodeAll(more)| > 0;
  }

  lemma FileIsPrefix(aof: A.Log)
    requires aof.Valid()
    ensures aof.file <= EncodeAll(aof.records)
  {
    hide EncodeAll;
  }

  lemma DelsPrefix(victims: seq<Key>, n: nat)
    requires n <= |victims|
    ensures Dels(victims)[..n] == Dels(victims[..n])
    ensures ArgsAll(Dels(victims)[..n]) <= ArgsAll(Dels(victims))
    ensures n == |victims| ==> victims[..n] == victims
    ensures forall k :: k in victims[..n] ==> k in victims
  {
  }

  lemma NoVictims(ks: Keyspace, ages: map<Key, nat>, policy: S.EvictionPolicy, budget: int, records: seq<Command>)
    ensures ks - KeySet([]) == ks && S.Evicted(ks, ages, ks, [], policy, budget)
    ensures records + ArgsAll(Dels([])) == records && ages - KeySet([]) == ages
  {
    S.EvictedNone(ks, ages, policy, budget);
  }

  lemma HandledOnce(ks: Keyspace, q: Request, now: int)
    ensures |Handle(ks, q, now).recs| <= 1
  {
    hide ParseInt, Itoa;
  }

  lemma EvictedKeys(was: Keyspace, ages: map<Key, nat>, ks: Keyspace, victims: seq<Key>,
                    policy: S.EvictionPolicy, budget: int)
    requires S.Evicted(was, ages, ks, victims, policy, budget)
    ensures ks == was - KeySet(victims) && forall k :: k in victims ==> k in was
  {
  }

  lemma MirrorsSettled(s: Sys, flat: Keyspace, clock: int, records: seq<Command>,
                       rewriting: bool, mark: nat, snapshot: Option<seq<Rec>>)
    requires Mirrors(s, flat, clock, records, rewriting, mark, snapshot)
    ensures Settled(s) && s.mem == flat && s.clock == clock
  {
  }

  // ----- two exits that leave records unsynced -----

  lemma VictimsAreIn(victims: seq<Key>)
    ensures victims != [] ==> victims[|victims| - 1] in victims
    ensures |victims| > 1 ==> victims[0] in victims && victims[1] in victims
  {
  }

  lemma NothingToEvict(ages: map<Key, nat>, room: Keyspace, victims: seq<Key>, policy: S.EvictionPolicy, budget: int)
    requires S.Evicted(map[], ages, room, victims, policy, budget)
    ensures victims == [] && room == map[]
  {
    VictimsAreIn(victims);
  }

  lemma OneKeyFits(k: Key, it: Item, ages: map<Key, nat>, room: Keyspace, victims: seq<Key>)
    requires S.Evicted(map[k := it], ages, room, victims, S.VolatileLru, EntrySize(k, it.val))
    ensures victims == [] && room == map[k := it] && Size(room) == EntrySize(k, it.val)
  {
    var none: Keyspace := map[];
    assert none - {k} == none && none[k := it] == map[k := it];
    SizePut(none, k, it);
    VictimsAreIn(victims);
    assert room == if k in victims then none else map[k := it];
  }

  lemma TwoKeysDoNot(k: Key, it: Item, keep: Key, big: Item, ages: map<Key, nat>, room: Keyspace, victims: seq<Key>,
                     budget: int)
    requires k != keep && it.dl.Some? && big.dl.None? && EntrySize(keep, big.val) > budget
    requires S.Evicted(map[k := it, keep := big], ages, room, victims, S.VolatileLru, budget)
    ensures Size(room) > budget
    ensures S.Volatile(room) == {} ==> victims == [k]
  {
    hide Size;
    SizeRemove(room, keep);
    VictimsAreIn(victims);
    assert k in room ==> k in S.Volatile(room);
  }

  /** A server under volatile-lru and `always`, on a disk that never fails, with this budget, keyspace and
      log, all of it synced. */
  ghost predicate Holds(server: Server, budget: int, ks: Keyspace, log: seq<Rec>)
    reads server, server.store, server.store.shards, server.aof
  {
    && server.Valid() && server.durable && server.aof.policy == A.Always
    && server.store.policy == S.VolatileLru && server.store.maxMemory == budget
    && server.aof.reliable && !server.aof.failed
    && server.store.flat == ks && server.aof.records == ArgsAll(log) && server.aof.AllDurable()
  }

  /** A key with a deadline fills the budget. */
  method FillBudget(k: Key, v: Bytes, ms: int) returns (server: Server)
    requires 0 < ms <= MAX_MS
    ensures fresh(server) && fresh(server.store) && fresh(server.store.shards) && fresh(server.aof) && server.clock == 0
    ensures Holds(server, EntrySize(k, v), map[k := Item(v, Some(ms * NS_PER_MS))], [RSet(k, v, Some(ms))])
  {
    hide S.Store.Valid, A.Log.Valid, Decode, S.Evicted, EncodeAll, ToArgs, S.Volatile, Size;
    hide CanBeReadBack, Server.Linked, Stored, Dispatched, Aged;
    var r := RSet(k, v, Some(ms));
    RecordsReplay(r);
    ArgsAreNamed(r);
    NothingEncoded();
    NothingHasNoSize();
    var store := new S.Store(EntrySize(k, v), S.VolatileLru);
    var aof := new A.Log(A.Always, true, [], []);
    store.attached := true;
    server := new Server(store, aof, true, [], [], 0);
    var reply;
    ghost var victims;
    ghost var ages0 := server.store.ages;
    reply, victims := server.Dispatch(ToArgs(r), 0, true);
    NothingToEvict(ages0, map[] - KeySet(victims), victims, S.VolatileLru, EntrySize(k, v));
  }

  /** One without a deadline goes in beside it. */
  method PutBeside(server: Server, k: Key, it: Item, keep: Key, big: Bytes, ghost log: seq<Rec>)
    requires Holds(server, EntrySize(k, it.val), map[k := it], log) && server.clock <= 0
    modifies server`sys, server`trace, server`fits, server`clock, server`lastStored
    modifies server.store`flat, server.store`ages, server.store`journal, server.store.shards, server.aof
    ensures server.clock == 0
    ensures Holds(server, EntrySize(k, it.val), map[k := it, keep := Item(big, None)], log + [RSet(keep, big, None)])
  {
    hide S.Store.Valid, A.Log.Valid, Decode, S.Evicted, EncodeAll, ToArgs, S.Volatile, Size;
    hide CanBeReadBack, Server.Linked, Stored, Dispatched, Aged;
    var r := RSet(keep, big, None);
    RecordsReplay(r);
    ArgsAreNamed(r);
    var reply;
    ghost var victims;
    ghost var ages0 := server.store.ages;
    reply, victims := server.Dispatch(ToArgs(r), 0, true);
    OneKeyFits(k, it, ages0, map[k := it] - KeySet(victims), victims);
    ArgsConcat(log, [r]);
    assert ArgsAll(log) + ArgsAll([]) + ArgsAll([r]) == ArgsAll(log + [r]);
  }

  /** And the next write evicts the first, still finds no room and is refused. Nothing has failed, yet
      the eviction is not on stable storage: a crash now may leave a log that brings the key back. */
  method RefusalLeavesEvictionUnsynced(k: Key, v: Bytes, keep: Key, big: Bytes, ms: int)
      returns (server: Server, reply: Reply)
    requires k != keep && EntrySize(keep, big) > EntrySize(k, v) && 0 < ms <= MAX_MS
    ensures server.Valid() && server.durable && server.aof.policy == A.Always && !server.aof.failed
    ensures var before := [RSet(k, v, Some(ms)), RSet(keep, big, None)];
      && reply == Oom && k !in server.store.flat
      && server.aof.records == ArgsAll(before + [RDel([k])])
      && !server.aof.AllDurable() && server.aof.CrashLeaves(EncodeAll(ArgsAll(before)))
  {
    hide S.Store.Valid, A.Log.Valid, Decode, S.Evicted, EncodeAll, ToArgs, S.Volatile, Size, Handle, Fails;
    hide CanBeReadBack, Server.Linked, Stored, Dispatched, Aged;
    ghost var it := Item(v, Some(ms * NS_PER_MS));
    ghost var before := [RSet(k, v, Some(ms))];
    server := FillBudget(k, v, ms);
    PutBeside(server, k, Item(v, Some(ms * NS_PER_MS)), keep, big, before);
    var r := RDel([keep]);
    RecordsReplay(r);
    ArgsAreNamed(r);
    assert before + [RSet(keep, big, None)] == [RSet(k, v, Some(ms)), RSet(keep, big, None)];
    ghost var disk := server.aof.file;
    ghost var victims;
    ghost var ages0 := server.store.ages;
    reply, victims := server.Dispatch(ToArgs(r), 0, true);
    ghost var room := map[k := it, keep := Item(big, None)] - KeySet(victims);
    TwoKeysDoNot(k, it, keep, Item(big, None), ages0, room, victims, EntrySize(k, v));
    assert victims == [k];
    ArgsConcat(before + [RSet(keep, big, None)], [RDel([k])]);
    assert Dels([k]) == [RDel([k])];
    assert disk == server.aof.file[..|disk|];
  }

  /** Under `always`, a write whose reply cannot be written is applied and journalled, but dispatch
      returns before the sync. Nothing has failed, yet a crash now may leave a log without it. */
  method UnsentReplyLeavesWriteUnsynced(k: Key, v: Bytes) returns (server: Server, reply: Reply)
    ensures server.Valid() && server.durable && server.aof.policy == A.Always && !server.aof.failed
    ensures reply == Accepted && server.store.flat == map[k := Item(v, None)]
    ensures server.aof.records == ArgsAll([RSet(k, v, None)])
    ensures !server.aof.AllDurable() && server.aof.CrashLeaves([])
  {
    hide S.Store.Valid, A.Log.Valid, Decode, S.Evicted, EncodeAll, ToArgs, S.Volatile, Size;
    hide CanBeReadBack, Server.Linked, Stored, Dispatched, Aged;
    var r := RSet(k, v, None);
    RecordsReplay(r);
    ArgsAreNamed(r);
    NothingEncoded();
    var store := new S.Store(0, S.NoEviction);
    var aof := new A.Log(A.Always, true, [], []);
    store.attached := true;
    server := new Server(store, aof, true, [], [], 0);
    ghost var victims;
    ghost var ages0 := server.store.ages;
    reply, victims := server.Dispatch(ToArgs(r), 0, false);
    NothingToEvict(ages0, map[] - KeySet(victims), victims, S.NoEviction, 0);
    assert ArgsAll([r]) == [ToArgs(r)];
  }

  lemma NothingHasNoSize()
    ensures Size(map[]) == 0
  {
  }

  lemma NothingEncoded()
    ensures EncodeAll([]) == []
  {
  }
}

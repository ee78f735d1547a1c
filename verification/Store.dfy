/** The sharded keyspace as an object, proved against one flat timed map. */
module Store {
  import opened Bytes
  import opened Routing
  import opened Keyspace
  import opened Journal

  /** A stored entry: what clients see, and when it was last touched. */
  datatype Entry = Entry(item: Item, atime: nat)

  /** One shard: its data, its index of keys with a deadline, and its byte subtotal. */
  datatype Shard = Shard(data: map<Key, Entry>, expiring: set<Key>, used: int)

  datatype EvictionPolicy = NoEviction | AllKeysLru | AllKeysRandom | VolatileLru

  datatype TtlState = KeyMissing | KeyPersistent | KeyVolatile(left: int)

  ghost function Items(data: map<Key, Entry>): Keyspace {
    map k | k in data :: data[k].item
  }

  ghost function Volatile(ks: Keyspace): set<Key> {
    set k | k in ks && ks[k].dl.Some?
  }

  /** The shard holds exactly its part of the flat map and its access times, indexes exactly the
      keys with a deadline, and counts exactly its bytes. */
  ghost predicate ShardOk(sh: Shard, part: Keyspace, ages: map<Key, nat>) {
    && Items(sh.data) == part
    && sh.expiring == Volatile(part)
    && sh.used == Size(part)
    && forall k :: k in sh.data ==> k in ages && ages[k] == sh.data[k].atime
  }

  // ----- one shard at a time -----

  lemma PartPut(ks: Keyspace, k: Key, it: Item, i: nat)
    ensures Part(ks[k := it], i) == if ShardIndex(k) == i then Part(ks, i)[k := it] else Part(ks, i)
  {
    hide ShardIndex;
  }

  lemma PartRemove(ks: Keyspace, k: Key, i: nat)
    ensures Part(ks - {k}, i) == if ShardIndex(k) == i then Part(ks, i) - {k} else Part(ks, i)
  {
    hide ShardIndex;
  }

  lemma NotInPart(ks: Keyspace, k: Key, i: nat)
    requires ShardIndex(k) != i
    ensures k !in Part(ks, i)
  {
  }

  function PutInShard(sh: Shard, k: Key, e: Entry): Shard {
    var freed := if k in sh.data then EntrySize(k, sh.data[k].item.val) else 0;
    Shard(sh.data[k := e],
          if e.item.dl.None? then sh.expiring - {k} else sh.expiring + {k},
          sh.used - freed + EntrySize(k, e.item.val))
  }

  function RemoveFromShard(sh: Shard, k: Key): Shard {
    var freed := if k in sh.data then EntrySize(k, sh.data[k].item.val) else 0;
    Shard(sh.data - {k}, sh.expiring - {k}, sh.used - freed)
  }

  lemma PutKeepsShard(sh: Shard, part: Keyspace, ages: map<Key, nat>, k: Key, e: Entry)
    requires ShardOk(sh, part, ages)
    ensures ShardOk(PutInShard(sh, k, e), part[k := e.item], ages[k := e.atime])
  {
    hide Size;
    assert k in sh.data <==> k in Items(sh.data);
    SizePut(part, k, e.item);
    SizeRemove(part, k);
    assert Items(sh.data[k := e]) == part[k := e.item];
  }

  /** A key that belongs elsewhere leaves the shard as it is. */
  lemma OtherKeyKeepsShard(sh: Shard, part: Keyspace, ages: map<Key, nat>, k: Key, atime: nat)
    requires ShardOk(sh, part, ages) && k !in part
    ensures ShardOk(sh, part, ages[k := atime]) && ShardOk(sh, part, ages - {k})
  {
    hide Size;
    assert k !in Items(sh.data);
  }

  lemma RemoveKeepsShard(sh: Shard, part: Keyspace, ages: map<Key, nat>, k: Key)
    requires ShardOk(sh, part, ages)
    ensures ShardOk(RemoveFromShard(sh, k), part - {k}, ages - {k})
  {
    hide Size;
    assert k in sh.data <==> k in Items(sh.data);
    SizeRemove(part, k);
    assert Items(sh.data - {k}) == part - {k};
  }

  lemma TouchKeepsShard(sh: Shard, part: Keyspace, ages: map<Key, nat>, k: Key, atime: nat)
    requires ShardOk(sh, part, ages)
    ensures k in sh.data ==>
      ShardOk(sh.(data := sh.data[k := sh.data[k].(atime := atime)]), part, ages[k := atime])
    ensures k !in sh.data ==> ShardOk(sh, part, ages[k := atime])
  {
    hide Size;
    if k in sh.data {
      assert Items(sh.data[k := sh.data[k].(atime := atime)]) == Items(sh.data);
    }
  }

  /** The access times after an MSET: the LRU clock's for every assigned key. */
  ghost function Touched(ages: map<Key, nat>, pairs: seq<Pair>, clock: nat): (r: map<Key, nat>)
    ensures forall k :: k in r <==> LastAssigned(pairs, k).Some? || k in ages
    ensures forall k :: k in r ==> r[k] == if LastAssigned(pairs, k).Some? then clock else ages[k]
  {
    if pairs == [] then ages
    else Touched(ages, pairs[..|pairs| - 1], clock)[pairs[|pairs| - 1].key := clock]
  }

  class Store {
    const shards: array<Shard>
    ghost var flat: Keyspace            // the one map that the shards stand for
    ghost var ages: map<Key, nat>       // and when each key was last touched
    var attached: bool       // a journal is attached
    var journal: seq<Rec>    // the records handed to its Append, in order
    var clock: nat           // the coarse LRU clock
    var maxMemory: int
    var policy: EvictionPolicy

    ghost predicate Valid()
      reads this`flat, this`ages, shards
    {
      && shards.Length == SHARDS
      && ages.Keys == flat.Keys
      && forall i :: 0 <= i < SHARDS ==> ShardOk(shards[i], Part(flat, i), ages)
    }

    ghost function Logged(recs: seq<Rec>): seq<Rec>
      reads this`attached
    {
      if attached then recs else []
    }

    constructor (maxMemory: int, policy: EvictionPolicy)
      ensures Valid() && fresh(shards)
      ensures flat == map[] && !attached && journal == []
      ensures this.maxMemory == maxMemory && this.policy == policy
    {
      shards := new Shard[SHARDS](_ => Shard(map[], {}, 0));
      flat, ages := map[], map[];
      attached := false;
      journal := [];
      clock := 0;
      this.maxMemory := maxMemory;
      this.policy := policy;
      new;
      assert forall i :: 0 <= i < SHARDS ==> Part(flat, i) == map[];
    }

    // ----- primitives under a shard's lock -----

    method Find(key: Key) returns (found: bool, e: Entry)
      requires Valid()
      ensures found <==> key in flat
      ensures found <==> key in ages
      ensures found ==> e.item == flat[key] && e.atime == ages[key]
    {
      hide Size, Volatile;
      var i := ShardIndex(key);
      var sh := shards[i];
      assert ShardOk(shards[i], Part(flat, i), ages);
      assert key in flat <==> key in Part(flat, i);
      assert key in Items(sh.data) <==> key in sh.data;
      found := key in sh.data;
      e := if found then sh.data[key] else Entry(Item([], None), 0);
    }

    /** Stores the entry in its shard, whatever was there before. */
    method PutEntry(key: Key, e: Entry)
      requires Valid()
      modifies this`flat, this`ages, shards
      ensures Valid() && flat == old(flat)[key := e.item] && ages == old(ages)[key := e.atime]
    {
      hide ShardOk, PutInShard, Part, ShardIndex;
      var i := ShardIndex(key);
      forall j | 0 <= j < SHARDS
        ensures Part(flat[key := e.item], j) == if i == j then Part(flat, j)[key := e.item] else Part(flat, j)
        ensures i != j ==> ShardOk(shards[j], Part(flat, j), ages[key := e.atime])
      {
        PartPut(flat, key, e.item, j);
        if i != j {
          NotInPart(flat, key, j);
          OtherKeyKeepsShard(shards[j], Part(flat, j), ages, key, e.atime);
        }
      }
      PutKeepsShard(shards[i], Part(flat, i), ages, key, e);
      shards[i] := PutInShard(shards[i], key, e);
      flat, ages := flat[key := e.item], ages[key := e.atime];
    }

    /** setLockedInWriteLockedShard: a new entry counts as touched now. */
    method Put(key: Key, it: Item)
      requires Valid()
      modifies this`flat, this`ages, shards
      ensures Valid() && flat == old(flat)[key := it] && ages == old(ages)[key := clock]
    {
      PutEntry(key, Entry(it, clock));
    }

    /** deleteLockedInWriteLockedShard. */
    method Remove(key: Key)
      requires Valid()
      modifies this`flat, this`ages, shards
      ensures Valid() && flat == old(flat) - {key} && ages == old(ages) - {key}
    {
      hide ShardOk, RemoveFromShard, Part, ShardIndex;
      var i := ShardIndex(key);
      forall j | 0 <= j < SHARDS
        ensures Part(flat - {key}, j) == if i == j then Part(flat, j) - {key} else Part(flat, j)
        ensures i != j ==> ShardOk(shards[j], Part(flat, j), ages - {key})
      {
        PartRemove(flat, key, j);
        if i != j {
          NotInPart(flat, key, j);
          OtherKeyKeepsShard(shards[j], Part(flat, j), ages, key, 0);
        }
      }
      RemoveKeepsShard(shards[i], Part(flat, i), ages, key);
      shards[i] := RemoveFromShard(shards[i], key);
      flat, ages := flat - {key}, ages - {key};
    }

    method Propagate(r: Rec)
      modifies this`journal
      ensures journal == old(journal) + Logged([r])
    {
      if attached {
        journal := journal + [r];
      }
    }

    /** Every key sits in the shard its hash names, is indexed there if and only if it has a
        deadline, and the shard's subtotal is the sum of its entry sizes. */
    lemma ShardInvariant(i: nat, k: Key)
      requires Valid() && i < SHARDS
      ensures k in shards[i].data ==> ShardIndex(k) == i && Look(flat, k) == Some(shards[i].data[k].item)
      ensures k in flat && ShardIndex(k) == i ==> k in shards[i].data
      ensures k in shards[i].expiring <==> k in shards[i].data && shards[i].data[k].item.dl.Some?
      ensures shards[i].used == Size(Items(shards[i].data))
    {
      hide Size, ShardIndex;
      assert ShardOk(shards[i], Part(flat, i), ages);
      assert k in shards[i].data <==> k in Items(shards[i].data);
    }

    // ----- reads -----

    /** The first half of GET, under the read lock: a hit touches the entry, an expired entry is
        reported so that the caller comes back for it under the write lock. */
    method GetProbe(key: Key, now: int) returns (val: Option<Bytes>, expired: bool)
      requires Valid()
      modifies this`ages, shards
      ensures Valid()
      ensures val == (if Live(flat, key, now) then Some(flat[key].val) else None)
      ensures expired <==> key in flat && Expired(flat[key], now)
      ensures ages == if Live(flat, key, now) then old(ages)[key := clock] else old(ages)
    {
      hide ShardIndex;
      var found, e := Find(key);
      if !found {
        return None, false;
      }
      if Expired(e.item, now) {
        return None, true;
      }
      Touch(key);
      return Some(e.item.val), false;
    }

    /** e.atime.Store(s.clock.Load()). */
    method Touch(key: Key)
      requires Valid() && key in flat
      modifies this`ages, shards
      ensures Valid() && ages == old(ages)[key := clock]
    {
      hide ShardOk, Part, ShardIndex;
      var i := ShardIndex(key);
      ghost var part := Part(flat, i);
      forall j | 0 <= j < SHARDS && i != j
        ensures ShardOk(shards[j], Part(flat, j), ages[key := clock])
      {
        NotInPart(flat, key, j);
        OtherKeyKeepsShard(shards[j], Part(flat, j), ages, key, clock);
      }
      TouchKeepsShard(shards[i], part, ages, key, clock);
      if key in shards[i].data {
        shards[i] := shards[i].(data := shards[i].data[key := shards[i].data[key].(atime := clock)]);
      }
      ages := ages[key := clock];
    }

    /** The second half, after a window in which anything may have happened: the entry goes only if
        it is expired now, so a key set afresh in the window survives, and nothing visible now or
        later changes. */
    method CollectIfExpired(key: Key, now: int)
      requires Valid()
      modifies this`flat, this`ages, shards
      ensures Valid()
      ensures flat == if key in old(flat) && Expired(old(flat)[key], now) then old(flat) - {key} else old(flat)
      ensures ages == if key in old(flat) && Expired(old(flat)[key], now) then old(ages) - {key} else old(ages)
      ensures forall t :: t >= now ==> Visible(flat, t) == Visible(old(flat), t)
    {
      hide ShardIndex, ShardOk, Part;
      var found, e := Find(key);
      if found && Expired(e.item, now) {
        Remove(key);
      }
    }

    method Ttl(key: Key, now: int) returns (state: TtlState)
      requires Valid()
      ensures state.KeyMissing? <==> !Live(flat, key, now)
      ensures state.KeyPersistent? <==> Live(flat, key, now) && flat[key].dl.None?
      ensures state.KeyVolatile? ==> state.left > 0 && flat[key].dl == Some(now + state.left)
    {
      var found, e := Find(key);
      if !found || Expired(e.item, now) {
        return KeyMissing;
      }
      return if e.item.dl.None? then KeyPersistent else KeyVolatile(e.item.dl.value - now);
    }

    /** EXISTS counts every occurrence of a live key. */
    method Exists(keys: seq<Key>, now: int) returns (n: nat)
      requires Valid()
      ensures n == |LiveOccurrences(flat, keys, now)|
    {
      n := 0;
      var i := 0;
      while i < |keys|
        invariant 0 <= i <= |keys|
        invariant n == |LiveOccurrences(flat, keys[..i], now)|
      {
        var found, e := Find(keys[i]);
        var before, after := LiveOccurrences(flat, keys[..i], now), LiveOccurrences(flat, keys[..i + 1], now);
        if found && !Expired(e.item, now) {
          n := n + 1;
          assert after == before + {i};
        } else {
          assert after == before;
        }
        i := i + 1;
      }
      assert keys[..i] == keys;
    }

    // ----- writes -----

    /** set: the value and its deadline replace whatever was there. */
    method SetItem(key: Key, it: Item)
      requires Valid()
      modifies this`flat, this`ages, this`journal, shards
      ensures Valid()
      ensures flat == SetEffect(old(flat), key, it).ks
      ensures journal == old(journal) + Logged(SetEffect(old(flat), key, it).recs)
      ensures ages == old(ages)[key := clock]
    {
      Put(key, it);
      Propagate(SetRec(key, it));
    }

    method SetWithDeadline(key: Key, val: Bytes, at: int, now: int)
      requires Valid()
      modifies this`flat, this`ages, this`journal, shards
      ensures Valid()
      ensures var e :=
          if at <= now then DelEffect(old(flat), [key]) else SetEffect(old(flat), key, Item(val, Some(at)));
        flat == e.ks && journal == old(journal) + Logged(e.recs)
      ensures ages == if at <= now then old(ages) - {key} else old(ages)[key := clock]
    {
      if at <= now {
        var _ := Del([key], now);
        assert KeySet([key]) == {key};
      } else {
        SetItem(key, Item(val, Some(at)));
      }
    }

    method MSet(pairs: seq<Pair>)
      requires Valid()
      modifies this`flat, this`ages, this`journal, shards
      ensures Valid()
      ensures flat == MSetEffect(old(flat), pairs).ks
      ensures journal == old(journal) + Logged(MSetEffect(old(flat), pairs).recs)
      ensures ages == Touched(old(ages), pairs, clock)
    {
      var i := 0;
      while i < |pairs|
        invariant 0 <= i <= |pairs| && Valid()
        invariant flat == AssignAll(old(flat), pairs[..i]) && ages == Touched(old(ages), pairs[..i], clock)
        invariant journal == old(journal)
      {
        hide Valid;
        Put(pairs[i].key, Item(pairs[i].val, None));
        assert pairs[..i + 1][..i] == pairs[..i];
        i := i + 1;
      }
      assert pairs[..i] == pairs;
      Propagate(RMSet(pairs));
    }

    /** DEL removes every key that is there, journals exactly those, and counts the distinct ones
        that were still live. */
    method Del(keys: seq<Key>, now: int) returns (n: nat)
      requires Valid()
      modifies this`flat, this`ages, this`journal, shards
      ensures Valid()
      ensures flat == DelEffect(old(flat), keys).ks
      ensures journal == old(journal) + Logged(DelEffect(old(flat), keys).recs)
      ensures n == |LiveAmong(old(flat), keys, now)|
      ensures ages == old(ages) - KeySet(keys)
    {
      hide Valid, DelSoFar, KeySet, LiveAmong;
      n := 0;
      var removed: seq<Key> := [];
      var i := 0;
      DelStarts(flat, ages, now);
      while i < |keys|
        invariant 0 <= i <= |keys| && Valid() && journal == old(journal)
        invariant DelSoFar(old(flat), old(ages), flat, ages, removed, n, keys[..i], now)
      {
        assert keys[..i + 1] == keys[..i] + [keys[i]];
        var found, e := Find(keys[i]);
        DelStep(old(flat), old(ages), flat, ages, removed, n, keys[..i], now, keys[i]);
        if found {
          Remove(keys[i]);
          removed := removed + [keys[i]];
          if !Expired(e.item, now) {
            n := n + 1;
          }
        }
        i := i + 1;
      }
      assert keys[..i] == keys;
      DelEnds(old(flat), old(ages), flat, ages, removed, n, keys, now);
      if |removed| > 0 {
        Propagate(RDel(removed));
      }
    }

    /** EXPIREAT: the new deadline, if the key is live; a deadline in the past deletes it. A key given
        a deadline does not count as touched. */
    method ExpireAt(key: Key, at: int, now: int) returns (was: bool)
      requires Valid()
      modifies this`flat, this`ages, this`journal, shards
      ensures Valid()
      ensures flat == ExpireAtEffect(old(flat), key, at, now).ks
      ensures journal == old(journal) + Logged(ExpireAtEffect(old(flat), key, at, now).recs)
      ensures was == Live(old(flat), key, now)
      ensures ages == if key in flat then old(ages) else old(ages) - {key}
    {
      var found, e := Find(key);
      if !found || Expired(e.item, now) {
        if found {
          Remove(key);
          Propagate(RDel([key]));
        }
        return false;
      }
      if at <= now {
        Remove(key);
        Propagate(RDel([key]));
        return true;
      }
      PutEntry(key, Entry(Item(e.item.val, Some(at)), e.atime));
      Propagate(RExpireAt(key, Millis(at)));
      return true;
    }

    /** INCR: fails exactly when the live text is no int64 or the true sum leaves int64, and then
        changes nothing; no intermediate value leaves int64 for any delta. */
    method Increment(key: Key, delta: int, now: int) returns (r: Option<int>)
      requires Valid() && IsInt64(delta)
      modifies this`flat, this`ages, this`journal, shards
      ensures Valid()
      ensures r == Bumped(Fresh(Look(old(flat), key), now), delta)
      ensures flat == IncrementEffect(old(flat), key, delta, now).ks
      ensures !Live(old(flat), key, now) ==> r == Some(delta) && flat == old(flat)[key := Item(Itoa(delta), None)]
      ensures Live(old(flat), key, now) ==>
        var was := old(flat)[key];
        match ParseInt(was.val)
        case None => r == None && flat == old(flat)
        case Some(n) =>
          if MIN_INT64 <= n + delta <= MAX_INT64
          then r == Some(n + delta) && flat == old(flat)[key := Item(Itoa(n + delta), was.dl)]
          else r == None && flat == old(flat)
      ensures journal == old(journal) + Logged(IncrementEffect(old(flat), key, delta, now).recs)
      ensures ages == if r.Some? then old(ages)[key := clock] else old(ages)
    {
      hide ParseInt, Itoa;
      var found, e := Find(key);
      if found && Expired(e.item, now) {
        Remove(key);
        found := false;
      }
      var n := 0;
      if found {
        var parsed := ParseInt(e.item.val);
        if parsed.None? {
          return None;
        }
        n := parsed.value;
        assert IsInt64(n) by { ParsedIsInt64(e.item.val); }
      }
      assert delta > 0 ==> IsInt64(MAX_INT64 - delta);
      assert delta < 0 ==> IsInt64(MIN_INT64 - delta);
      if (delta > 0 && n > MAX_INT64 - delta) || (delta < 0 && n < MIN_INT64 - delta) {
        return None;
      }
      n := n + delta;
      assert IsInt64(n);
      SetItem(key, Item(Itoa(n), if found then e.item.dl else None));
      return Some(n);
    }

    /** APPEND: copy on write, keeping a live key's deadline. */
    method AppendTo(key: Key, suffix: Bytes, now: int) returns (length: nat)
      requires Valid()
      modifies this`flat, this`ages, this`journal, shards
      ensures Valid()
      ensures flat == AppendEffect(old(flat), key, suffix, now).ks
      ensures journal == old(journal) + Logged(AppendEffect(old(flat), key, suffix, now).recs)
      ensures key in flat && length == |flat[key].val|
      ensures flat[key] == if Live(old(flat), key, now)
        then Item(old(flat)[key].val + suffix, old(flat)[key].dl) else Item(suffix, None)
      ensures ages == old(ages)[key := clock]
    {
      var found, e := Find(key);
      if found && Expired(e.item, now) {
        Remove(key);
        found := false;
      }
      var val := (if found then e.item.val else []) + suffix;
      SetItem(key, Item(val, if found then e.item.dl else None));
      return |val|;
    }

    // ----- whole-keyspace reads -----

    /** Used: the shards' subtotals are the size of the keyspace. */
    method Used() returns (total: int)
      requires Valid()
      ensures total == Size(flat)
    {
      hide Size, Part;
      total := 0;
      var i := 0;
      while i < SHARDS
        invariant 0 <= i <= SHARDS
        invariant total == SumParts(flat, i)
      {
        assert ShardOk(shards[i], Part(flat, i), ages);
        total := total + shards[i].used;
        i := i + 1;
      }
      SumAllParts(flat);
    }

    method CountLive(i: nat, now: int) returns (n: nat)
      requires Valid() && i < SHARDS
      ensures n == |LivePart(flat, i, now)|
    {
      hide Size;
      var data := shards[i].data;
      ghost var part := Part(flat, i);
      assert ShardOk(shards[i], part, ages);
      ghost var counted: set<Key> := {};
      var remaining := data.Keys;
      n := 0;
      while remaining != {}
        invariant remaining <= data.Keys
        invariant n == |counted|
        invariant counted == set k | k in data && k !in remaining && !Expired(data[k].item, now)
        decreases |remaining|
      {
        var k :| k in remaining;
        remaining := remaining - {k};
        if !Expired(data[k].item, now) {
          n := n + 1;
          counted := counted + {k};
        }
      }
      LivePartKeys(data, flat, i, now);
      assert counted == LivePart(flat, i, now).Keys;
    }

    /** DBSIZE: the number of keys a client can see. */
    method DbSize(now: int) returns (n: nat)
      requires Valid()
      ensures n == |Visible(flat, now)|
    {
      hide LivePart, ShardOk, Part;
      n := 0;
      var i := 0;
      assert LiveBelow(flat, 0, now) == {};
      while i < SHARDS
        invariant 0 <= i <= SHARDS
        invariant n == |LiveBelow(flat, i, now)|
      {
        var more := CountLive(i, now);
        LiveBelowStep(flat, i, now);
        n := n + more;
        i := i + 1;
      }
      assert LiveBelow(flat, SHARDS, now) == Visible(flat, now).Keys;
    }

    /** One shard of the snapshot, in whatever order its map is walked. */
    method SnapshotShard(i: nat, now: int) returns (recs: seq<Rec>)
      requires Valid() && i < SHARDS
      ensures Enumerates(recs, LivePart(flat, i, now))
    {
      hide Snapshotting, Enumerates;
      var data := shards[i].data;
      assert ShardOk(shards[i], Part(flat, i), ages);
      LivePartKeys(data, flat, i, now);
      ghost var live := LivePart(flat, i, now);
      hide Valid, LivePart, ShardOk, Part;
      var remaining := data.Keys;
      recs := [];
      SnapshotStarts(live, remaining);
      while remaining != {}
        invariant remaining <= data.Keys
        invariant Snapshotting(recs, live, remaining)
        decreases remaining
      {
        var k :| k in remaining;
        SnapshotTurn(recs, live, remaining, k);
        remaining := remaining - {k};
        if !Expired(data[k].item, now) {
          recs := recs + [SetRec(k, data[k].item)];
        }
      }
      SnapshotEnds(recs, live);
    }

    /** AOFSnapshot: one absolute-deadline SET for every key live at `now`, and nothing else, shard
        after shard. */
    method AofSnapshot(now: int) returns (out: seq<Rec>, ghost parts: seq<seq<Rec>>)
      requires Valid()
      ensures Enumerates(out, Visible(flat, now))
      ensures |parts| == SHARDS && out == Flat(parts)
      ensures forall i :: 0 <= i < SHARDS ==> Enumerates(parts[i], LivePart(flat, i, now))
    {
      hide Enumerates, ShardOk, Part;
      out, parts := [], [];
      var i := 0;
      EnumeratesNothing(flat, now);
      while i < SHARDS
        invariant 0 <= i <= SHARDS
        invariant Enumerates(out, VisibleBelow(flat, i, now))
        invariant |parts| == i && out == Flat(parts)
        invariant forall j :: 0 <= j < i ==> Enumerates(parts[j], LivePart(flat, j, now))
      {
        var recs := SnapshotShard(i, now);
        EnumeratesMore(out, recs, flat, i, now);
        assert (parts + [recs])[..i] == parts;
        out, parts := out + recs, parts + [recs];
        i := i + 1;
      }
      assert VisibleBelow(flat, SHARDS, now) == Visible(flat, now);
    }

    // ----- eviction -----

    /** The keys the policy is allowed to drop. */
    ghost function Eligible(): set<Key>
      reads this`flat, this`policy
    {
      Droppable(flat, policy)
    }

    /** The eligible keys of one shard, as pickVictim ranges over them. */
    method Pool(i: nat) returns (pool: set<Key>)
      requires Valid() && i < SHARDS
      ensures forall k :: k in pool <==> k in Eligible() && ShardIndex(k) == i
      ensures i < shards.Length
      ensures forall k :: k in pool ==> k in shards[i].data && k in ages && shards[i].data[k].atime == ages[k]
    {
      hide Size, ShardIndex;
      assert ShardOk(shards[i], Part(flat, i), ages);
      assert forall k :: k in shards[i].data <==> k in Items(shards[i].data);
      pool := if policy == VolatileLru then shards[i].expiring else shards[i].data.Keys;
    }

    /** pickVictim: the least recently touched of a sample of exactly min(5, eligible) distinct
        eligible keys, so the exact LRU key when at most five are eligible; under the random policy
        any eligible key. It finds one if and only if there is one. */
    method PickVictim() returns (best: Key, found: bool, ghost sample: set<Key>)
      requires Valid()
      ensures found <==> Eligible() != {}
      ensures found ==> best in Eligible() && best in sample
      ensures sample <= Eligible()
      ensures policy != AllKeysRandom ==> |sample| == Min(EVICT_SAMPLE, |Eligible()|)
      ensures policy != AllKeysRandom && |Eligible()| <= EVICT_SAMPLE ==> sample == Eligible()
      ensures policy != AllKeysRandom && found ==> IsOldest(best, sample, ages)
    {
      hide Valid, ShardIndex;
      if policy == AllKeysRandom {
        best, found := PickAny();
        sample := if found then {best} else {};
        return;
      }
      best, found, sample := [], false, {};
      var bestAge: nat := 0;
      var i := 0;
      var scanned := 0;
      while i < SHARDS && scanned < EVICT_SAMPLE
        invariant 0 <= i <= SHARDS
        invariant scanned == |sample| <= EVICT_SAMPLE && sample <= Eligible()
        invariant scanned < EVICT_SAMPLE ==> sample == EligibleBelow(Eligible(), i)
        invariant Leads(best, bestAge, found, sample, ages)
      {
        best, bestAge, found, scanned, sample := SampleShard(i, best, bestAge, found, scanned, sample);
        i := i + 1;
      }
      EligibleBelowAll(Eligible());
      SubsetSize(sample, Eligible());
    }

    /** The random policy: the first key of the first shard that has one. */
    method PickAny() returns (best: Key, found: bool)
      requires Valid() && policy == AllKeysRandom
      ensures found <==> Eligible() != {}
      ensures found ==> best in Eligible()
    {
      hide Valid, ShardIndex;
      var i := 0;
      while i < SHARDS
        invariant 0 <= i <= SHARDS
        invariant EligibleBelow(Eligible(), i) == {}
      {
        var pool := Pool(i);
        if pool != {} {
          best :| best in pool;
          return best, true;
        }
        EligibleBelowStep(Eligible(), i, pool);
        i := i + 1;
      }
      EligibleBelowAll(Eligible());
      return [], false;
    }

    /** One shard's share of the sample, in whatever order its map is walked. */
    method SampleShard(i: nat, best: Key, bestAge: nat, found: bool, scanned: nat, ghost sample: set<Key>)
        returns (best': Key, bestAge': nat, found': bool, scanned': nat, ghost sample': set<Key>)
      requires Valid() && i < SHARDS
      requires scanned == |sample| < EVICT_SAMPLE && sample == EligibleBelow(Eligible(), i)
      requires Leads(best, bestAge, found, sample, ages)
      ensures scanned' == |sample'| <= EVICT_SAMPLE && sample' <= Eligible()
      ensures scanned' < EVICT_SAMPLE ==> sample' == EligibleBelow(Eligible(), i + 1)
      ensures Leads(best', bestAge', found', sample', ages)
    {
      hide Valid, ShardIndex, Leads, Sampled;
      var pool := Pool(i);
      best', bestAge', found', scanned', sample' := best, bestAge, found, scanned, sample;
      var remaining := pool;
      SampledNone(sample, pool);
      while remaining != {} && scanned' < EVICT_SAMPLE
        invariant scanned' == |sample'| <= EVICT_SAMPLE
        invariant Sampled(sample', sample, pool, remaining)
        invariant Leads(best', bestAge', found', sample', ages)
        decreases remaining
      {
        var k :| k in remaining;
        SampledOne(sample', sample, pool, remaining, k, i);
        LeadsStep(best', bestAge', found', sample', ages, k);
        remaining := remaining - {k};
        scanned', sample' := scanned' + 1, sample' + {k};
        var age := shards[i].data[k].atime;
        if !found' || age < bestAge' {
          best', bestAge', found' := k, age, true;
        }
      }
      SampledDone(sample', pool, remaining, Eligible(), i);
    }

    /** EnforceMemoryLimit: evicts eligible keys, each journalled as its own DEL, only while over
        budget. Success means the keyspace fits; a refusal means it does not and the policy leaves
        nothing to drop: never under the all-keys policies, under volatile-lru only once no key has
        a deadline, under noeviction without touching anything. */
    method EnforceMemoryLimit() returns (evicted: nat, ok: bool, ghost victims: seq<Key>)
      requires Valid()
      modifies this`flat, this`ages, this`journal, shards
      ensures Valid()
      ensures evicted == |victims|
      ensures Evicted(old(flat), old(ages), flat, victims, policy, maxMemory)
      ensures ages == old(ages) - KeySet(victims)
      ensures journal == old(journal) + Logged(Dels(victims))
      ensures maxMemory <= 0 || policy == NoEviction ==> victims == []
      ensures ok <==> maxMemory <= 0 || Size(flat) <= maxMemory
      ensures !ok ==> policy == NoEviction || (policy == VolatileLru && Volatile(flat) == {})
    {
      hide Valid, Size, Evicted, KeySet;
      evicted, victims := 0, [];
      EvictedNone(flat, ages, policy, maxMemory);
      if maxMemory <= 0 {
        return 0, true, [];
      }
      var used := Used();
      if used <= maxMemory {
        return 0, true, [];
      }
      if policy == NoEviction {
        return 0, false, [];
      }
      while used > maxMemory
        invariant Valid() && used == Size(flat)
        invariant evicted == |victims|
        invariant Evicted(old(flat), old(ages), flat, victims, policy, maxMemory)
        invariant ages == old(ages) - KeySet(victims)
        invariant journal == old(journal) + Logged(Dels(victims))
        decreases Size(flat)
      {
        var key, found, sample := PickVictim();
        if !found {
          NothingEligible(flat, policy);
          return evicted, false, victims;
        }
        SizeRemove(flat, key);
        EvictedOne(old(flat), old(ages), flat, victims, policy, maxMemory, key, ages, sample);
        Remove(key);
        Propagate(RDel([key]));
        evicted, victims := evicted + 1, victims + [key];
        used := Used();
      }
      ok := true;
    }

    // ----- active expiry -----

    /** expireSample: looks at exactly min(n, volatile) keys with a deadline, in whatever order the
        maps are walked, and deletes exactly the expired ones among them. */
    method ExpireSample(n: nat, now: int) returns (scanned: nat, expired: nat, ghost looked: set<Key>)
      requires Valid()
      modifies this`flat, this`ages, this`clock, shards
      ensures Valid() && clock == old(clock) + 1
      ensures looked <= Volatile(old(flat)) && scanned == |looked| == Min(n, |Volatile(old(flat))|)
      ensures flat == old(flat) - Past(old(flat), looked, now) && expired == |Past(old(flat), looked, now)|
      ensures SubAges(ages, old(ages))
    {
      hide Valid, ShardIndex, Sweeping;
      clock := clock + 1;
      ghost var was := flat;
      scanned, expired, looked := 0, 0, {};
      SweepStart(was, now);
      var i := 0;
      while i < SHARDS && scanned < n
        invariant 0 <= i <= SHARDS && Valid() && clock == old(clock) + 1 && SubAges(ages, old(ages))
        invariant Sweeping(was, flat, looked, scanned, expired, now)
        invariant scanned <= n
        invariant scanned < n ==> looked == EligibleBelow(Volatile(was), i)
        invariant forall k :: k in looked ==> ShardIndex(k) < i
      {
        scanned, expired, looked := SweepShard(i, n, now, was, scanned, expired, looked);
        i := i + 1;
      }
      EligibleBelowAll(Volatile(was));
      SweepEnd(was, flat, looked, scanned, expired, now);
    }

    /** One shard of the sweep, under its write lock. */
    method SweepShard(i: nat, n: nat, now: int, ghost was: Keyspace, scanned: nat, expired: nat, ghost looked: set<Key>)
        returns (scanned': nat, expired': nat, ghost looked': set<Key>)
      requires Valid() && i < SHARDS && scanned < n
      requires Sweeping(was, flat, looked, scanned, expired, now)
      requires looked == EligibleBelow(Volatile(was), i)
      modifies this`flat, this`ages, shards
      ensures Valid()
      ensures Sweeping(was, flat, looked', scanned', expired', now)
      ensures scanned' <= n && (scanned' < n ==> looked' == EligibleBelow(Volatile(was), i + 1))
      ensures forall k :: k in looked' ==> ShardIndex(k) < i + 1
      ensures SubAges(ages, old(ages))
    {
      hide Valid, ShardIndex, Sweeping, Sampled;
      scanned', expired', looked' := scanned, expired, looked;
      var pool := VolatilePool(i);
      SweepPool(was, flat, looked, scanned, expired, now, pool, i);
      var remaining := pool;
      SampledNone(looked, pool);
      while remaining != {} && scanned' < n
        invariant Valid() && scanned' <= n && SubAges(ages, old(ages))
        invariant Sampled(looked', looked, pool, remaining)
        invariant Sweeping(was, flat, looked', scanned', expired', now)
        decreases remaining
      {
        var k :| k in remaining;
        SampledOne(looked', looked, pool, remaining, k, i);
        SweepStep(was, flat, looked', scanned', expired', now, k);
        remaining := remaining - {k};
        scanned', looked' := scanned' + 1, looked' + {k};
        var found, e := Find(k);
        if found && Expired(e.item, now) {
          Remove(k);
          expired' := expired' + 1;
        }
      }
      SampledDone(looked', pool, remaining, Volatile(was), i);
      SampledBelow(looked', pool, remaining, Volatile(was), i);
    }

    /** activeExpireCycle: rounds of 20 until one comes back mostly live, 16 at most. It looks at no
        more than 320 keys, deletes only expired ones, and changes nothing that is visible at the
        instant it ends or later. It stops exactly after a round that found fewer than a quarter
        expired or nothing to look at. When every key with a deadline is expired it collects exactly
        min(320, all of them). */
    method ActiveExpireCycle(start: int)
        returns (scanned: nat, expired: nat, end: int, ghost gone: set<Key>, ghost rounds: seq<Round>)
      requires Valid()
      modifies this`flat, this`ages, this`clock, shards
      ensures Valid() && start <= end
      ensures scanned <= EXPIRE_ROUNDS * EXPIRE_SAMPLE
      ensures flat == old(flat) - gone && ages == old(ages) - gone && expired == |gone|
      ensures Cycle(old(flat), rounds, flat) && 0 < |rounds| <= 16
      ensures |rounds| < 16 ==> !GoesOn(rounds[|rounds| - 1])
      ensures clock == old(clock) + |rounds| && Within(rounds, start, end)
      ensures forall k :: k in gone ==> k in old(flat) && Expired(old(flat)[k], end)
      ensures forall t :: t >= end ==> Visible(flat, t) == Visible(old(flat), t)
      ensures (forall k :: k in Volatile(old(flat)) ==> Expired(old(flat)[k], start)) ==>
        expired == Min(|Volatile(old(flat))|, EXPIRE_ROUNDS * EXPIRE_SAMPLE)
    {
      hide Valid, Collected, Backlog, Volatile, Cycle, GoesOn, IsRound, Past;
      scanned, expired, end, gone, rounds := 0, 0, start, {}, [];
      ghost var was := flat;
      AgesMatch();
      CollectedNone(was, start);
      CycleNone(was);
      var round := 0;
      while round < EXPIRE_ROUNDS
        invariant 0 <= round <= EXPIRE_ROUNDS && Valid() && start <= end
        invariant scanned <= round * EXPIRE_SAMPLE && SubAges(ages, old(ages))
        invariant |rounds| == round && Cycle(was, rounds, flat)
        invariant clock == old(clock) + round && Within(rounds, start, end)
        invariant round > 0 ==> GoesOn(rounds[round - 1])
        invariant Collected(was, flat, gone, expired, end)
        invariant Backlog(was, flat, gone, start, expired, round)
      {
        ghost var before := flat;
        var now :| end <= now;
        var n, hits, looked := ExpireSample(EXPIRE_SAMPLE, now);
        CollectedMore(was, before, gone, expired, end, looked, now);
        BacklogStep(was, before, gone, start, expired, round, looked, end, now);
        ghost var r := RoundTold(before, looked, now);
        CycleOne(was, rounds, r);
        rounds := rounds + [r];
        scanned, expired, end := scanned + n, expired + hits, now;
        gone := gone + Past(before, looked, now);
        round := round + 1;
        if n == 0 || 4 * hits < n {
          NothingLeft(before, looked, now);
          break;
        }
      }
      CollectedEnd(was, flat, gone, expired, end);
      FollowAges(old(ages), gone);
      BacklogEnd(was, flat, gone, start, expired, round);
    }

    lemma AgesMatch()
      requires Valid()
      ensures ages.Keys == flat.Keys
    {
      hide ShardOk;
    }

    /** The access times go where their keys go. */
    lemma FollowAges(before: map<Key, nat>, gone: set<Key>)
      requires Valid() && SubAges(ages, before) && flat.Keys == before.Keys - gone
      ensures ages == before - gone
    {
      hide ShardOk;
    }

    /** The shard's index of keys with a deadline. */
    method VolatilePool(i: nat) returns (pool: set<Key>)
      requires Valid() && i < SHARDS
      ensures forall k :: k in pool <==> k in Volatile(flat) && ShardIndex(k) == i
    {
      hide Size, ShardIndex;
      assert ShardOk(shards[i], Part(flat, i), ages);
      pool := shards[i].expiring;
    }
  }

  /** The keys the policy is allowed to drop. */
  ghost function Droppable(ks: Keyspace, policy: EvictionPolicy): set<Key> {
    if policy == VolatileLru then Volatile(ks) else ks.Keys
  }

  /** k was touched least recently of five of the keys, or of all of them if there are fewer. */
  ghost predicate OldestOfSample(k: Key, keys: set<Key>, ages: map<Key, nat>) {
    exists sample: set<Key> ::
      sample <= keys && (|sample| == 5 || sample == keys) && IsOldest(k, sample, ages)
  }

  ghost predicate IsOldest(k: Key, sample: set<Key>, ages: map<Key, nat>) {
    k in sample && k in ages && forall x :: x in sample ==> x in ages && ages[k] <= ages[x]
  }

  /** From `was`, exactly the distinct `victims` are gone, one after another: each droppable under the
      policy and, unless that is random, the oldest of a sample of what was droppable at its turn; and
      before the last of them went the keyspace was still over budget. */
  ghost predicate Evicted(was: Keyspace, ages: map<Key, nat>, ks: Keyspace, victims: seq<Key>,
                          policy: EvictionPolicy, budget: int)
  {
    && NoDuplicates(victims)
    && ks == was - KeySet(victims)
    && (forall k :: k in victims ==> k in was && (policy == VolatileLru ==> was[k].dl.Some?))
    && (policy != AllKeysRandom ==> InOrder(was, ages, victims, policy))
    && (victims != [] ==>
          var last := victims[|victims| - 1]; Size(ks) + EntrySize(last, was[last].val) > budget)
  }

  ghost predicate InOrder(was: Keyspace, ages: map<Key, nat>, victims: seq<Key>, policy: EvictionPolicy) {
    forall i :: 0 <= i < |victims| ==>
      OldestOfSample(victims[i], Droppable(was - KeySet(victims[..i]), policy), ages)
  }

  lemma EvictedNone(ks: Keyspace, ages: map<Key, nat>, policy: EvictionPolicy, budget: int)
    ensures Evicted(ks, ages, ks, [], policy, budget) && Dels([]) == [] && ages - KeySet([]) == ages
  {
    assert ks - KeySet([]) == ks;
  }

  lemma EvictedOne(was: Keyspace, ages0: map<Key, nat>, ks: Keyspace, victims: seq<Key>, policy: EvictionPolicy,
                   budget: int, k: Key, ages: map<Key, nat>, sample: set<Key>)
    requires Evicted(was, ages0, ks, victims, policy, budget) && ages == ages0 - KeySet(victims)
    requires k in Droppable(ks, policy) && Size(ks) > budget
    requires policy != AllKeysRandom ==>
      && sample <= Droppable(ks, policy) && IsOldest(k, sample, ages)
      && |sample| == Min(EVICT_SAMPLE, |Droppable(ks, policy)|)
      && (|Droppable(ks, policy)| <= EVICT_SAMPLE ==> sample == Droppable(ks, policy))
    ensures Evicted(was, ages0, ks - {k}, victims + [k], policy, budget)
    ensures ages0 - KeySet(victims + [k]) == ages - {k}
    ensures Dels(victims + [k]) == Dels(victims) + [RDel([k])]
  {
    hide Size, InOrder, IsOldest, KeySet;
    SizeRemove(ks, k);
    GoneToo(was, ages0, victims, k);
    if policy != AllKeysRandom {
      InOrderOne(was, ages0, ks, victims, policy, k, ages, sample);
    }
  }

  lemma GoneToo(was: Keyspace, ages: map<Key, nat>, victims: seq<Key>, k: Key)
    ensures was - KeySet(victims + [k]) == was - KeySet(victims) - {k}
    ensures ages - KeySet(victims + [k]) == ages - KeySet(victims) - {k}
    ensures k in was - KeySet(victims) ==> k in was && k !in victims && (was - KeySet(victims))[k] == was[k]
    ensures Dels(victims + [k]) == Dels(victims) + [RDel([k])]
  {
  }

  lemma InOrderOne(was: Keyspace, ages0: map<Key, nat>, ks: Keyspace, victims: seq<Key>, policy: EvictionPolicy,
                   k: Key, ages: map<Key, nat>, sample: set<Key>)
    requires InOrder(was, ages0, victims, policy) && ks == was - KeySet(victims) && ages == ages0 - KeySet(victims)
    requires sample <= Droppable(ks, policy) && (|sample| == 5 || sample == Droppable(ks, policy))
    requires IsOldest(k, sample, ages)
    ensures InOrder(was, ages0, victims + [k], policy)
  {
    hide Droppable, KeySet, OldestOfSample;
    var more := victims + [k];
    forall i | 0 <= i < |more|
      ensures OldestOfSample(more[i], Droppable(was - KeySet(more[..i]), policy), ages0)
    {
      assert i < |victims| ==> more[..i] == victims[..i];
      if i == |victims| {
        assert more[..i] == victims;
        SampleShows(k, Droppable(ks, policy), ages0, sample);
      }
    }
  }

  lemma SampleShows(k: Key, keys: set<Key>, ages: map<Key, nat>, sample: set<Key>)
    requires sample <= keys && (|sample| == 5 || sample == keys) && IsOldest(k, sample, ages)
    ensures OldestOfSample(k, keys, ages)
  {
  }

  /** With at most five keys to choose from, eviction is exact LRU: no victim was touched more recently
      than any droppable key that stays. */
  lemma EvictionIsLru(was: Keyspace, ages: map<Key, nat>, ks: Keyspace, victims: seq<Key>, policy: EvictionPolicy,
                      budget: int, i: nat, k: Key)
    requires Evicted(was, ages, ks, victims, policy, budget) && policy != AllKeysRandom
    requires |Droppable(was, policy)| <= 5 && i < |victims| && k in Droppable(ks, policy)
    ensures victims[i] in ages && k in ages && ages[victims[i]] <= ages[k]
  {
    hide Size, OldestOfSample, Droppable, KeySet;
    var keys := Droppable(was - KeySet(victims[..i]), policy);
    StillDroppable(was, victims, i, policy, k);
    SubsetSize(keys, Droppable(was, policy));
    assert InOrder(was, ages, victims, policy);
    OldestOfFew(victims[i], keys, ages, k);
  }

  lemma StillDroppable(was: Keyspace, victims: seq<Key>, i: nat, policy: EvictionPolicy, k: Key)
    requires i <= |victims| && k in Droppable(was - KeySet(victims), policy)
    ensures Droppable(was - KeySet(victims[..i]), policy) <= Droppable(was, policy)
    ensures k in Droppable(was - KeySet(victims[..i]), policy)
  {
    assert forall x :: x in victims[..i] ==> x in victims;
  }

  lemma OldestOfFew(k: Key, keys: set<Key>, ages: map<Key, nat>, x: Key)
    requires OldestOfSample(k, keys, ages) && |keys| <= 5 && x in keys
    ensures k in ages && x in ages && ages[k] <= ages[x]
  {
    var sample: set<Key> :|
      sample <= keys && (|sample| == 5 || sample == keys) && IsOldest(k, sample, ages);
    SameWhenFull(sample, keys);
  }

  lemma SameWhenFull(a: set<Key>, b: set<Key>)
    requires a <= b && |b| <= 5 && (|a| == 5 || a == b)
    ensures a == b
  {
    assert |b - a| == |b| - |a|;
  }

  lemma NothingEligible(ks: Keyspace, policy: EvictionPolicy)
    requires Droppable(ks, policy) == {}
    ensures Size(ks) > 0 ==> policy == VolatileLru
  {
    if policy != VolatileLru {
      assert ks == map[];
    }
  }

  /** The expired ones among `looked`. */
  ghost function Past(ks: Keyspace, looked: set<Key>, now: int): set<Key> {
    set k | k in looked && k in ks && Expired(ks[k], now)
  }

  /** Half-way through a sweep that started from `was`. */
  ghost predicate Sweeping(was: Keyspace, ks: Keyspace, looked: set<Key>, scanned: nat, expired: nat, now: int) {
    && looked <= Volatile(was)
    && scanned == |looked|
    && ks == was - Past(was, looked, now)
    && expired == |Past(was, looked, now)|
  }

  lemma SweepStart(ks: Keyspace, now: int)
    ensures Sweeping(ks, ks, {}, 0, 0, now)
    ensures EligibleBelow(Volatile(ks), 0) == {}
  {
    assert Past(ks, {}, now) == {};
    assert ks - {} == ks;
  }

  lemma SweepStep(was: Keyspace, ks: Keyspace, looked: set<Key>, scanned: nat, expired: nat, now: int, k: Key)
    requires Sweeping(was, ks, looked, scanned, expired, now) && k in Volatile(was) && k !in looked
    ensures k in ks && ks[k] == was[k]
    ensures if Expired(was[k], now)
      then Sweeping(was, ks - {k}, looked + {k}, scanned + 1, expired + 1, now)
      else Sweeping(was, ks, looked + {k}, scanned + 1, expired, now)
  {
    var gone := Past(was, looked, now);
    assert Past(was, looked + {k}, now) == if Expired(was[k], now) then gone + {k} else gone;
    assert was - (gone + {k}) == was - gone - {k};
  }

  /** Keys not looked at yet are still there: the shard's index still names its own of them. */
  lemma SweepPool(was: Keyspace, ks: Keyspace, looked: set<Key>, scanned: nat, expired: nat, now: int,
                  pool: set<Key>, i: nat)
    requires Sweeping(was, ks, looked, scanned, expired, now) && looked == EligibleBelow(Volatile(was), i)
    requires forall k :: k in pool <==> k in Volatile(ks) && ShardIndex(k) == i
    ensures forall k :: k in pool <==> k in Volatile(was) && ShardIndex(k) == i
  {
    hide ShardIndex;
    forall k | ShardIndex(k) == i
      ensures k in Volatile(ks) <==> k in Volatile(was)
    {
      assert k !in looked;
    }
  }

  const EXPIRE_SAMPLE: nat := 20
  const EXPIRE_ROUNDS: nat := 16

  /** From `was`, exactly `gone` has been collected, all of it expired by `end`. */
  ghost predicate Collected(was: Keyspace, ks: Keyspace, gone: set<Key>, expired: nat, end: int) {
    && ks == was - gone
    && expired == |gone|
    && forall k :: k in gone ==> k in was && Expired(was[k], end)
  }

  lemma CollectedNone(ks: Keyspace, now: int)
    ensures Collected(ks, ks, {}, 0, now) && Backlog(ks, ks, {}, now, 0, 0)
  {
    assert ks - {} == ks;
  }

  lemma CollectedMore(was: Keyspace, ks: Keyspace, gone: set<Key>, expired: nat, end: int, looked: set<Key>, now: int)
    requires Collected(was, ks, gone, expired, end) && end <= now
    ensures var past := Past(ks, looked, now);
      Collected(was, ks - past, gone + past, expired + |past|, now)
  {
    var past := Past(ks, looked, now);
    assert was - gone - past == was - (gone + past);
    assert gone !! past;
  }

  lemma CollectedEnd(was: Keyspace, ks: Keyspace, gone: set<Key>, expired: nat, end: int)
    requires Collected(was, ks, gone, expired, end)
    ensures ks == was - gone && expired == |gone|
    ensures forall k :: k in gone ==> k in was && Expired(was[k], end)
    ensures forall t :: t >= end ==> Visible(ks, t) == Visible(was, t)
  {
  }

  ghost predicate SubAges(ages: map<Key, nat>, before: map<Key, nat>) {
    forall k :: k in ages ==> k in before && ages[k] == before[k]
  }

  /** One round of a cycle: what it found, what it looked at and when, and what it left. */
  datatype Round = Round(before: Keyspace, looked: set<Key>, now: int, after: Keyspace)

  /** A sample of 20, or of all there are, less its expired keys. */
  ghost predicate IsRound(r: Round) {
    && r.looked <= Volatile(r.before) && |r.looked| == Min(20, |Volatile(r.before)|)
    && r.after == r.before - Past(r.before, r.looked, r.now)
  }

  /** Something was looked at and a quarter of it or more was expired. */
  ghost predicate GoesOn(r: Round) {
    r.looked != {} && 4 * |Past(r.before, r.looked, r.now)| >= |r.looked|
  }

  /** Rounds from `was` to `ks`, each but the last worth another. */
  ghost predicate Cycle(was: Keyspace, rounds: seq<Round>, ks: Keyspace) {
    && (forall i :: 0 <= i < |rounds| ==> IsRound(rounds[i]))
    && (forall i :: 0 < i < |rounds| ==> IsNext(rounds, i))
    && (if |rounds| == 0 then ks == was else rounds[0].before == was && rounds[|rounds| - 1].after == ks)
  }

  /** Round i starts from what the one before left, which was worth another. */
  ghost predicate IsNext(rounds: seq<Round>, i: nat)
    requires 0 < i < |rounds|
  {
    rounds[i].before == rounds[i - 1].after && GoesOn(rounds[i - 1])
  }

  /** All rounds took place between these instants. */
  ghost predicate Within(rounds: seq<Round>, start: int, end: int) {
    forall i :: 0 <= i < |rounds| ==> start <= rounds[i].now <= end
  }

  lemma CycleNone(was: Keyspace)
    ensures Cycle(was, [], was)
  {
  }

  lemma RoundTold(ks: Keyspace, looked: set<Key>, now: int) returns (r: Round)
    requires looked <= Volatile(ks) && |looked| == Min(EXPIRE_SAMPLE, |Volatile(ks)|)
    ensures r == Round(ks, looked, now, ks - Past(ks, looked, now)) && IsRound(r)
    ensures GoesOn(r) <==> |looked| > 0 && 4 * |Past(ks, looked, now)| >= |looked|
  {
    r := Round(ks, looked, now, ks - Past(ks, looked, now));
  }

  lemma CycleOne(was: Keyspace, rounds: seq<Round>, r: Round)
    requires Cycle(was, rounds, r.before) && IsRound(r) && (rounds != [] ==> GoesOn(rounds[|rounds| - 1]))
    ensures Cycle(was, rounds + [r], r.after)
  {
    hide GoesOn, IsRound;
    var more := rounds + [r];
    forall i | 0 < i < |more|
      ensures IsNext(more, i)
    {
      assert i < |rounds| ==> IsNext(rounds, i);
      assert more[i - 1] == rounds[i - 1];
    }
  }

  ghost predicate AllPast(ks: Keyspace, now: int) {
    forall k :: k in ks && ks[k].dl.Some? ==> Expired(ks[k], now)
  }

  /** If everything with a deadline is expired, each round so far has collected a full sample, or
      there is nothing left. */
  ghost predicate Backlog(was: Keyspace, ks: Keyspace, gone: set<Key>, start: int, expired: nat, round: nat) {
    AllPast(was, start) ==>
      && gone <= Volatile(was) && Volatile(ks) == Volatile(was) - gone
      && expired == |gone| == Min(|Volatile(was)|, round * EXPIRE_SAMPLE)
  }

  lemma BacklogStep(was: Keyspace, ks: Keyspace, gone: set<Key>, start: int, expired: nat, round: nat,
                    looked: set<Key>, end: int, now: int)
    requires Backlog(was, ks, gone, start, expired, round) && Collected(was, ks, gone, expired, end)
    requires start <= end <= now
    requires looked <= Volatile(ks) && |looked| == Min(EXPIRE_SAMPLE, |Volatile(ks)|)
    ensures var past := Past(ks, looked, now);
      && Backlog(was, ks - past, gone + past, start, expired + |past|, round + 1)
      && (AllPast(was, start) ==> past == looked)
  {
    if AllPast(was, start) {
      var past := Past(ks, looked, now);
      assert past == looked;
      assert gone !! past;
      assert |Volatile(was)| == |Volatile(ks)| + |gone| by {
        assert Volatile(was) == Volatile(ks) + gone;
      }
      assert Volatile(ks - past) == Volatile(was) - (gone + past);
    }
  }

  lemma NothingLeft(ks: Keyspace, looked: set<Key>, now: int)
    requires looked <= Volatile(ks) && |looked| == Min(EXPIRE_SAMPLE, |Volatile(ks)|)
    ensures looked == {} ==> Volatile(ks - Past(ks, looked, now)) == {}
  {
    if looked == {} {
      assert Volatile(ks) == {};
    }
  }

  lemma BacklogEnd(was: Keyspace, ks: Keyspace, gone: set<Key>, start: int, expired: nat, round: nat)
    requires Backlog(was, ks, gone, start, expired, round)
    requires round >= EXPIRE_ROUNDS || Volatile(ks) == {} || !AllPast(was, start)
    requires round <= EXPIRE_ROUNDS
    ensures (forall k :: k in Volatile(was) ==> Expired(was[k], start)) ==>
      expired == Min(|Volatile(was)|, EXPIRE_ROUNDS * EXPIRE_SAMPLE)
  {
    if AllPast(was, start) && Volatile(ks) == {} {
      forall k | k in Volatile(was)
        ensures k in gone
      {
        assert k !in Volatile(was) - gone;
      }
      assert Volatile(was) == gone;
    }
  }

  lemma SampledBelow(now: set<Key>, pool: set<Key>, remaining: set<Key>, eligible: set<Key>, i: nat)
    requires Sampled(now, EligibleBelow(eligible, i), pool, remaining)
    requires forall k :: k in pool <==> k in eligible && ShardIndex(k) == i
    ensures forall k :: k in now ==> ShardIndex(k) < i + 1
  {
    hide ShardIndex;
  }

  lemma SweepEnd(was: Keyspace, ks: Keyspace, looked: set<Key>, scanned: nat, expired: nat, now: int)
    requires Sweeping(was, ks, looked, scanned, expired, now)
    ensures looked <= Volatile(was) && scanned == |looked| <= |Volatile(was)|
    ensures ks == was - Past(was, looked, now) && expired == |Past(was, looked, now)|
  {
    SubsetSize(looked, Volatile(was));
  }

  /** The sample so far: what it was before this shard, and what has been taken from the shard. */
  ghost predicate Sampled(now: set<Key>, before: set<Key>, pool: set<Key>, remaining: set<Key>) {
    remaining <= pool && now == before + (pool - remaining)
  }

  lemma SampledNone(sample: set<Key>, pool: set<Key>)
    ensures Sampled(sample, sample, pool, pool)
  {
    assert pool - pool == {};
  }

  lemma SampledOne(now: set<Key>, before: set<Key>, pool: set<Key>, remaining: set<Key>, k: Key, i: nat)
    requires Sampled(now, before, pool, remaining) && k in remaining
    requires forall x :: x in before ==> ShardIndex(x) < i
    requires forall x :: x in pool ==> ShardIndex(x) == i
    ensures Sampled(now + {k}, before, pool, remaining - {k})
    ensures k in pool && |now + {k}| == |now| + 1
  {
    hide ShardIndex;
    assert k !in now;
  }

  lemma SampledDone(now: set<Key>, pool: set<Key>, remaining: set<Key>, eligible: set<Key>, i: nat)
    requires Sampled(now, EligibleBelow(eligible, i), pool, remaining)
    requires forall k :: k in pool <==> k in eligible && ShardIndex(k) == i
    ensures now <= eligible
    ensures remaining == {} ==> now == EligibleBelow(eligible, i + 1)
  {
    hide ShardIndex;
    EligibleBelowStep(eligible, i, pool);
    assert pool - {} == pool;
  }

  const EVICT_SAMPLE: nat := 5

  /** `best` is the oldest of the sample so far. */
  ghost predicate Leads(best: Key, bestAge: nat, found: bool, sample: set<Key>, ages: map<Key, nat>) {
    && (found <==> sample != {})
    && (found ==> best in sample && best in ages && ages[best] == bestAge)
    && (forall k :: k in sample ==> k in ages && bestAge <= ages[k])
  }

  lemma LeadsStep(best: Key, bestAge: nat, found: bool, sample: set<Key>, ages: map<Key, nat>, k: Key)
    requires Leads(best, bestAge, found, sample, ages) && k in ages
    ensures if !found || ages[k] < bestAge
      then Leads(k, ages[k], true, sample + {k}, ages) else Leads(best, bestAge, found, sample + {k}, ages)
  {
  }

  ghost function EligibleBelow(eligible: set<Key>, n: nat): set<Key> {
    set k | k in eligible && ShardIndex(k) < n
  }

  lemma EligibleBelowStep(eligible: set<Key>, i: nat, pool: set<Key>)
    requires forall k :: k in pool <==> k in eligible && ShardIndex(k) == i
    ensures EligibleBelow(eligible, i + 1) == EligibleBelow(eligible, i) + pool
  {
    hide ShardIndex;
  }

  lemma EligibleBelowAll(eligible: set<Key>)
    ensures EligibleBelow(eligible, SHARDS) == eligible
  {
  }

  lemma SubsetSize(a: set<Key>, b: set<Key>)
    requires a <= b
    ensures |a| <= |b| && (|a| == |b| ==> a == b)
  {
    assert b == a + (b - a);
  }

  lemma LivePartKeys(data: map<Key, Entry>, ks: Keyspace, i: nat, now: int)
    requires Items(data) == Part(ks, i)
    ensures forall k :: k in data && !Expired(data[k].item, now) <==> k in LivePart(ks, i, now)
    ensures forall k :: k in LivePart(ks, i, now) ==> data[k].item == LivePart(ks, i, now)[k]
  {
    hide ShardIndex;
    assert forall k :: k in data <==> k in Items(data);
    assert forall k :: k in data ==> data[k].item == Items(data)[k];
  }

  ghost function LiveBelow(ks: Keyspace, n: nat, now: int): set<Key> {
    set k | k in ks && ShardIndex(k) < n && !Expired(ks[k], now)
  }

  lemma LiveBelowStep(ks: Keyspace, i: nat, now: int)
    ensures |LiveBelow(ks, i + 1, now)| == |LiveBelow(ks, i, now)| + |LivePart(ks, i, now)|
  {
    hide ShardIndex;
    var below, part := LiveBelow(ks, i, now), LivePart(ks, i, now);
    assert LiveBelow(ks, i + 1, now) == below + part.Keys;
    assert below !! part.Keys;
  }

  /** Half-way through a shard: one record for each live key that is no longer `remaining`. */
  ghost predicate Snapshotting(recs: seq<Rec>, live: Keyspace, remaining: set<Key>) {
    && (forall j :: 0 <= j < |recs| ==>
          && recs[j].RSet? && recs[j].key in live && recs[j].key !in remaining
          && recs[j] == SetRec(recs[j].key, live[recs[j].key]))
    && (forall k :: k in live && k !in remaining ==> SetRec(k, live[k]) in recs)
    && NoDuplicates(recs)
  }

  lemma SnapshotStarts(live: Keyspace, keys: set<Key>)
    requires live.Keys <= keys
    ensures Snapshotting([], live, keys)
  {
  }

  lemma SnapshotTurn(recs: seq<Rec>, live: Keyspace, remaining: set<Key>, k: Key)
    requires Snapshotting(recs, live, remaining) && k in remaining
    ensures k in live ==> Snapshotting(recs + [SetRec(k, live[k])], live, remaining - {k})
    ensures k !in live ==> Snapshotting(recs, live, remaining - {k})
  {
  }

  lemma SnapshotEnds(recs: seq<Rec>, live: Keyspace)
    requires Snapshotting(recs, live, {})
    ensures Enumerates(recs, live)
  {
  }

  ghost function VisibleBelow(ks: Keyspace, n: nat, now: int): Keyspace {
    map k | k in ks && ShardIndex(k) < n && !Expired(ks[k], now) :: ks[k]
  }

  lemma EnumeratesNothing(ks: Keyspace, now: int)
    ensures Enumerates([], VisibleBelow(ks, 0, now))
  {
  }

  lemma EnumeratesMore(a: seq<Rec>, b: seq<Rec>, ks: Keyspace, i: nat, now: int)
    requires Enumerates(a, VisibleBelow(ks, i, now)) && Enumerates(b, LivePart(ks, i, now))
    ensures Enumerates(a + b, VisibleBelow(ks, i + 1, now))
  {
    hide ShardIndex;
    var c := a + b;
    var all := VisibleBelow(ks, i + 1, now);
    forall k | k in all
      ensures SetRec(k, all[k]) in c
    {
      assert k in VisibleBelow(ks, i, now) || k in LivePart(ks, i, now);
    }
    forall x, y | 0 <= x < y < |c|
      ensures c[x] != c[y]
    {
      if x < |a| <= y {
        assert c[y] == b[y - |a|] && c[x] == a[x];
      }
    }
  }

  lemma ParsedIsInt64(s: Bytes)
    ensures ParseInt(s).Some? ==> IsInt64(ParseInt(s).value)
  {
  }

  /** The positions of `keys` that hold a live key. */
  ghost function LiveOccurrences(ks: Keyspace, keys: seq<Key>, now: int): set<int> {
    set i | 0 <= i < |keys| && Live(ks, keys[i], now)
  }

  /** The distinct live keys among `keys`. */
  ghost function LiveAmong(ks: Keyspace, keys: seq<Key>, now: int): set<Key> {
    set k | k in keys && Live(ks, k, now)
  }

  /** DEL after `keys`: they are gone from the map and its access times, those that were there are
      noted in order, and the live ones counted. */
  ghost predicate DelSoFar(was: Keyspace, ages0: map<Key, nat>, ks: Keyspace, ages: map<Key, nat>,
                           removed: seq<Key>, n: nat, keys: seq<Key>, now: int)
  {
    && ks == was - KeySet(keys) && ages == ages0 - KeySet(keys)
    && removed == Removed(was, keys) && n == |LiveAmong(was, keys, now)|
  }

  lemma DelStarts(was: Keyspace, ages: map<Key, nat>, now: int)
    ensures DelSoFar(was, ages, was, ages, [], 0, [], now)
  {
    assert was - KeySet([]) == was && ages - KeySet([]) == ages;
    assert LiveAmong(was, [], now) == {};
  }

  lemma GoneStep(was: Keyspace, ages: map<Key, nat>, keys: seq<Key>, now: int, k: Key)
    ensures was - KeySet(keys + [k]) == was - KeySet(keys) - {k}
    ensures ages - KeySet(keys + [k]) == ages - KeySet(keys) - {k}
    ensures k in was - KeySet(keys) <==> k in was && k !in keys
    ensures LiveAmong(was, keys + [k], now) ==
      if k in was && k !in keys && !Expired(was[k], now)
      then LiveAmong(was, keys, now) + {k} else LiveAmong(was, keys, now)
    ensures k !in keys ==> k !in LiveAmong(was, keys, now)
  {
  }

  lemma DelStep(was: Keyspace, ages0: map<Key, nat>, ks: Keyspace, ages: map<Key, nat>,
                removed: seq<Key>, n: nat, keys: seq<Key>, now: int, k: Key)
    requires DelSoFar(was, ages0, ks, ages, removed, n, keys, now) && (k in ks <==> k in ages)
    ensures k in ks ==>
      DelSoFar(was, ages0, ks - {k}, ages - {k}, removed + [k], n + (if Expired(ks[k], now) then 0 else 1),
               keys + [k], now)
    ensures k !in ks ==> DelSoFar(was, ages0, ks, ages, removed, n, keys + [k], now)
  {
    hide KeySet, LiveAmong;
    assert (keys + [k])[..|keys|] == keys;
    RemovedIsExact(was, keys);
    GoneStep(was, ages0, keys, now, k);
  }

  lemma DelEnds(was: Keyspace, ages0: map<Key, nat>, ks: Keyspace, ages: map<Key, nat>,
                removed: seq<Key>, n: nat, keys: seq<Key>, now: int)
    requires DelSoFar(was, ages0, ks, ages, removed, n, keys, now)
    ensures ks == DelEffect(was, keys).ks && n == |LiveAmong(was, keys, now)| && ages == ages0 - KeySet(keys)
    ensures DelEffect(was, keys).recs == if |removed| > 0 then [RDel(removed)] else []
  {
  }
}

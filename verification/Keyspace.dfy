/**
 The flat timed keyspace that the sharded store stands for, the journal records its mutations
 leave behind, and what each mutation does to both. The store's methods, the protocol's atomic
 steps and the replay of a log are all specified with the functions of this module.
 */
module Keyspace {
  import opened Bytes
  import opened Routing

  /** A value and its deadline: nanoseconds since the epoch, None for a key that never expires. */
  datatype Item = Item(val: Bytes, dl: Option<int>)

  type Keyspace = map<Key, Item>

  /** From the very instant of its deadline an item is expired. */
  predicate Expired(it: Item, now: int) {
    it.dl.Some? && it.dl.value <= now
  }

  predicate Live(ks: Keyspace, k: Key, now: int) {
    k in ks && !Expired(ks[k], now)
  }

  function Look(ks: Keyspace, k: Key): Option<Item> {
    if k in ks then Some(ks[k]) else None
  }

  /** Missing, or expired: no client can tell the two apart. */
  predicate Dead(seen: Option<Item>, now: int) {
    seen.None? || Expired(seen.value, now)
  }

  /** What clients can see at an instant. */
  ghost function Visible(ks: Keyspace, now: int): Keyspace {
    map k | k in ks && !Expired(ks[k], now) :: ks[k]
  }

  // ----- deadlines on disk -----

  const NS_PER_MS: int := 1_000_000

  /** time.Time.UnixMilli: whole milliseconds, rounded down. */
  function Millis(ns: int): int {
    ns / NS_PER_MS
  }

  function MillisOf(dl: Option<int>): Option<int> {
    if dl.Some? then Some(Millis(dl.value)) else None
  }

  function NanosOf(at: Option<int>): Option<int> {
    if at.Some? then Some(at.value * NS_PER_MS) else None
  }

  /** The item as a record can carry it. */
  function Floored(it: Item): Item {
    it.(dl := NanosOf(MillisOf(it.dl)))
  }

  function FlooredLook(seen: Option<Item>): Option<Item> {
    if seen.Some? then Some(Floored(seen.value)) else None
  }

  /** A persisted deadline is never later than the original and less than 1 ms earlier, and
      persisting it again, through any number of restarts or rewrites, changes nothing. */
  lemma DeadlinesDoNotDrift(it: Item)
    ensures Floored(it).val == it.val
    ensures it.dl.None? <==> Floored(it).dl.None?
    ensures it.dl.Some? ==> it.dl.value - NS_PER_MS < Floored(it).dl.value <= it.dl.value
    ensures Floored(Floored(it)) == Floored(it)
  {
    if it.dl.Some? {
      assert it.dl.value / NS_PER_MS * NS_PER_MS / NS_PER_MS == it.dl.value / NS_PER_MS;
    }
  }

  // ----- journal records -----

  datatype Pair = Pair(key: Key, val: Bytes)

  /** One journalled effect; deadlines are in milliseconds. */
  datatype Rec =
    | RSet(key: Key, val: Bytes, at: Option<int>)
    | RMSet(pairs: seq<Pair>)
    | RDel(keys: seq<Key>)
    | RExpireAt(key: Key, ms: int)

  /** A mutation: the keyspace it leaves and the records it hands to the journal. */
  datatype Effect = Effect(ks: Keyspace, recs: seq<Rec>)

  // ----- SET -----

  function SetRec(k: Key, it: Item): Rec {
    RSet(k, it.val, MillisOf(it.dl))
  }

  function SetEffect(ks: Keyspace, k: Key, it: Item): Effect {
    Effect(ks[k := it], [SetRec(k, it)])
  }

  // ----- MSET -----

  /** Assignments in order, each clearing the key's deadline. */
  function AssignAll(ks: Keyspace, pairs: seq<Pair>): Keyspace {
    if pairs == [] then ks
    else
      var last := pairs[|pairs| - 1];
      AssignAll(ks, pairs[..|pairs| - 1])[last.key := Item(last.val, None)]
  }

  function MSetEffect(ks: Keyspace, pairs: seq<Pair>): Effect {
    Effect(AssignAll(ks, pairs), [RMSet(pairs)])
  }

  /** The last assignment to a key, if any. */
  function LastAssigned(pairs: seq<Pair>, k: Key): Option<Bytes> {
    if pairs == [] then None
    else if pairs[|pairs| - 1].key == k then Some(pairs[|pairs| - 1].val)
    else LastAssigned(pairs[..|pairs| - 1], k)
  }

  /** MSET: a later duplicate wins, every assigned key loses its deadline, no other key changes. */
  lemma {:induction false} AssignAllLook(ks: Keyspace, pairs: seq<Pair>, k: Key)
    ensures Look(AssignAll(ks, pairs), k) ==
      match LastAssigned(pairs, k)
      case Some(v) => Some(Item(v, None))
      case None => Look(ks, k)
  {
    if pairs != [] {
      AssignAllLook(ks, pairs[..|pairs| - 1], k);
    }
  }

  // ----- DEL -----

  /** The keys a DEL removes, each once, in the order it meets them. */
  function Removed(ks: Keyspace, keys: seq<Key>): seq<Key> {
    if keys == [] then []
    else
      var before := Removed(ks, keys[..|keys| - 1]);
      var k := keys[|keys| - 1];
      if k in ks && k !in before then before + [k] else before
  }

  ghost predicate NoDuplicates<T>(s: seq<T>) {
    forall i, j :: 0 <= i < j < |s| ==> s[i] != s[j]
  }

  lemma {:induction false} RemovedIsExact(ks: Keyspace, keys: seq<Key>)
    ensures forall k :: k in Removed(ks, keys) <==> k in keys && k in ks
    ensures NoDuplicates(Removed(ks, keys))
    ensures |Removed(ks, keys)| <= |keys|
  {
    if keys != [] {
      var n := |keys| - 1;
      RemovedIsExact(ks, keys[..n]);
      assert keys == keys[..n] + [keys[n]];
    }
  }

  function DelRecs(ks: Keyspace, keys: seq<Key>): seq<Rec> {
    var gone := Removed(ks, keys);
    if gone == [] then [] else [RDel(gone)]
  }

  function KeySet(keys: seq<Key>): set<Key> {
    set k | k in keys
  }

  function DelEffect(ks: Keyspace, keys: seq<Key>): Effect {
    Effect(ks - KeySet(keys), DelRecs(ks, keys))
  }

  /** One DEL record per evicted key. */
  function Dels(victims: seq<Key>): seq<Rec> {
    seq(|victims|, i requires 0 <= i < |victims| => RDel([victims[i]]))
  }

  // ----- EXPIREAT -----

  function ExpireAtEffect(ks: Keyspace, k: Key, at: int, now: int): Effect {
    if k !in ks then Effect(ks, [])
    else if Expired(ks[k], now) || at <= now then Effect(ks - {k}, [RDel([k])])
    else Effect(ks[k := Item(ks[k].val, Some(at))], [RExpireAt(k, Millis(at))])
  }

  // ----- INCR, DECR, APPEND -----

  /** What a read-modify-write command starts from: an expired item counts as missing. */
  function Fresh(seen: Option<Item>, now: int): Option<Item> {
    if Dead(seen, now) then None else seen
  }

  /** The new counter, or None when the text is no int64 or the true sum leaves int64. */
  function Bumped(seen: Option<Item>, delta: int): Option<int> {
    if seen.None? then (if IsInt64(delta) then Some(delta) else None)
    else
      match ParseInt(seen.value.val)
      case None => None
      case Some(n) => if IsInt64(n + delta) then Some(n + delta) else None
  }

  function Rewritten(seen: Option<Item>, val: Bytes): Item {
    Item(val, if seen.Some? then seen.value.dl else None)
  }

  /** On failure the keyspace is untouched: an expired counter starts again at 0, which no int64
      delta can push out of range, so a failing command never gets as far as collecting one. */
  function IncrementEffect(ks: Keyspace, k: Key, delta: int, now: int): Effect {
    var seen := Fresh(Look(ks, k), now);
    match Bumped(seen, delta)
    case None => Effect(ks, [])
    case Some(n) => SetEffect(ks, k, Rewritten(seen, Itoa(n)))
  }

  function AppendEffect(ks: Keyspace, k: Key, suffix: Bytes, now: int): Effect {
    var seen := Fresh(Look(ks, k), now);
    var prefix := if seen.Some? then seen.value.val else [];
    SetEffect(ks, k, Rewritten(seen, prefix + suffix))
  }

  // ----- accounting -----

  const ENTRY_OVERHEAD: nat := 128

  function EntrySize(k: Key, val: Bytes): nat {
    |k| + |val| + ENTRY_OVERHEAD
  }

  /** The sum of the entry sizes of a keyspace. */
  ghost function Size(ks: Keyspace): nat {
    if ks == map[] then 0
    else
      var k :| k in ks;
      EntrySize(k, ks[k].val) + Size(ks - {k})
  }

  lemma {:induction false} SizeWithout(ks: Keyspace, k: Key)
    requires k in ks
    ensures Size(ks) == EntrySize(k, ks[k].val) + Size(ks - {k})
    decreases |ks|
  {
    var x :| x in ks && Size(ks) == EntrySize(x, ks[x].val) + Size(ks - {x});
    if x != k {
      SizeWithout(ks - {x}, k);
      SizeWithout(ks - {k}, x);
      assert ks - {x} - {k} == ks - {k} - {x};
    }
  }

  lemma SizeRemove(ks: Keyspace, k: Key)
    ensures Size(ks - {k}) == Size(ks) - (if k in ks then EntrySize(k, ks[k].val) else 0)
  {
    if k in ks {
      SizeWithout(ks, k);
    } else {
      assert ks - {k} == ks;
    }
  }

  lemma SizePut(ks: Keyspace, k: Key, it: Item)
    ensures Size(ks[k := it]) == Size(ks - {k}) + EntrySize(k, it.val)
  {
    SizeWithout(ks[k := it], k);
    assert ks[k := it] - {k} == ks - {k};
  }

  /** The lengths of the listed keys and of their values. */
  function Lengths(ks: Keyspace, keys: seq<Key>): nat
    requires forall i :: 0 <= i < |keys| ==> keys[i] in ks
  {
    if keys == [] then 0
    else
      var k := keys[|keys| - 1];
      Lengths(ks, keys[..|keys| - 1]) + |k| + |ks[k].val|
  }

  lemma {:induction false} LengthsWithout(ks: Keyspace, gone: Key, keys: seq<Key>)
    requires forall i :: 0 <= i < |keys| ==> keys[i] in ks && keys[i] != gone
    ensures Lengths(ks - {gone}, keys) == Lengths(ks, keys)
  {
    if keys != [] {
      LengthsWithout(ks, gone, keys[..|keys| - 1]);
    }
  }

  /** However the keys are listed, the size is all key bytes, all value bytes and 128 per key. */
  lemma {:induction false} SizeIsTotal(ks: Keyspace, keys: seq<Key>)
    requires NoDuplicates(keys) && forall k :: k in keys <==> k in ks
    ensures Size(ks) == Lengths(ks, keys) + 128 * |keys|
  {
    if keys == [] {
      assert ks == map[];
    } else {
      hide Size;
      var n := |keys| - 1;
      var k := keys[n];
      assert keys == keys[..n] + [k];
      SizeWithout(ks, k);
      SizeIsTotal(ks - {k}, keys[..n]);
      LengthsWithout(ks, k, keys[..n]);
    }
  }

  // ----- the part of a keyspace that one shard owns -----

  ghost function Part(ks: Keyspace, i: nat): Keyspace {
    map k | k in ks && ShardIndex(k) == i :: ks[k]
  }

  /** What one shard shows of it at an instant. */
  ghost function LivePart(ks: Keyspace, i: nat, now: int): Keyspace {
    map k | k in ks && ShardIndex(k) == i && !Expired(ks[k], now) :: ks[k]
  }

  ghost function PartBelow(ks: Keyspace, n: nat): Keyspace {
    map k | k in ks && ShardIndex(k) < n :: ks[k]
  }

  ghost function SumParts(ks: Keyspace, n: nat): nat {
    if n == 0 then 0 else SumParts(ks, n - 1) + Size(Part(ks, n - 1))
  }

  lemma PeelUnion(a: Keyspace, b: Keyspace, k: Key)
    requires k in b && k !in a
    ensures (a + b) - {k} == a + (b - {k})
    ensures |b - {k}| < |b|
  {
    assert (b - {k}).Keys == b.Keys - {k};
  }

  lemma {:induction false} SizeDisjoint(a: Keyspace, b: Keyspace)
    requires forall k :: k in a ==> k !in b
    ensures Size(a + b) == Size(a) + Size(b)
    decreases |b|
  {
    if b == map[] {
      assert a + b == a;
    } else {
      hide Size;
      var k :| k in b;
      PeelUnion(a, b, k);
      SizeDisjoint(a, b - {k});
      SizeWithout(b, k);
      SizeWithout(a + b, k);
    }
  }

  lemma {:induction false} SumPartsBelow(ks: Keyspace, n: nat)
    ensures SumParts(ks, n) == Size(PartBelow(ks, n))
  {
    if n == 0 {
      assert PartBelow(ks, 0) == map[];
    } else {
      SumPartsBelow(ks, n - 1);
      SizeDisjoint(PartBelow(ks, n - 1), Part(ks, n - 1));
      assert PartBelow(ks, n) == PartBelow(ks, n - 1) + Part(ks, n - 1);
    }
  }

  /** The shards' subtotals add up to the size of the whole keyspace. */
  lemma SumAllParts(ks: Keyspace)
    ensures SumParts(ks, SHARDS) == Size(ks)
  {
    SumPartsBelow(ks, SHARDS);
    assert PartBelow(ks, SHARDS) == ks;
  }
}

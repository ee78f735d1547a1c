/**
 Which accepted writes can be read back: the reader's limits and the handlers' range checks apply
 to journal records too, and a few requests can produce records beyond them.
 */
module Limits {
  import opened Bytes
  import opened Routing
  import opened Keyspace
  import opened Journal
  import opened Restart
  import opened Resp
  import opened Commands

  /** The record survives the reader's limits and the handlers' checks. */
  predicate Fits(r: Rec) {
    InLimits(ToArgs(r)) && Replayable(r)
  }

  /** Written to the log and read back, it gives its arguments again, and the handlers take them. */
  predicate ComesBack(r: Rec, rest: Bytes) {
    && ToArgs(r) != []
    && ParseCommand(Encode(ToArgs(r)) + rest) == Got(ToArgs(r), rest)
    && Decode(ToArgs(r)).Write?
  }

  lemma FitsIff(r: Rec, rest: Bytes)
    ensures Fits(r) <==> ComesBack(r, rest)
  {
    hide ToArgs, ParseCommand, Encode, Decode;
    ArgsAreNamed(r);
    ReadsBackIff(ToArgs(r), rest);
    RecordsReplay(r);
  }

  predicate DeadlineFits(dl: Option<int>) {
    dl.Some? ==> 0 < Millis(dl.value) <= MAX_MS
  }

  ghost predicate KeyspaceFits(ks: Keyspace) {
    forall k :: k in ks ==> |k| <= MAX_BULK && |ks[k].val| <= MAX_BULK && DeadlineFits(ks[k].dl)
  }

  /** What the wire limits leave of a request's arguments. */
  predicate Small(q: Request) {
    match q
    case Set(k, v) => |k| <= MAX_BULK && |v| <= MAX_BULK
    case SetFor(k, v, ttl) => |k| <= MAX_BULK && |v| <= MAX_BULK && ttl > 0
    case SetUntil(k, v, at) => |k| <= MAX_BULK && |v| <= MAX_BULK && Millis(at) <= MAX_MS
    case MSet(pairs) =>
      && 0 < 2 * |pairs| < MAX_ARRAY
      && forall i :: 0 <= i < |pairs| ==> |pairs[i].key| <= MAX_BULK && |pairs[i].val| <= MAX_BULK
    case Del(keys) => |keys| < MAX_ARRAY && forall i :: 0 <= i < |keys| ==> |keys[i]| <= MAX_BULK
    case Increment(k, delta) => |k| <= MAX_BULK && IsInt64(delta)
    case AppendTo(k, suffix) => |k| <= MAX_BULK && |suffix| <= MAX_BULK
    case ExpireIn(k, _) => |k| <= MAX_BULK
    case ExpireAt(k, at) => |k| <= MAX_BULK && Millis(at) <= MAX_MS
  }

  lemma TtlRange(arg: Bytes, unit: int)
    requires unit == NS_PER_S || unit == NS_PER_MS
    ensures ParseTtl(arg, unit).Some? ==> Millis(ParseTtl(arg, unit).value) <= MAX_MS
  {
    hide ParseInt;
  }

  /** A command read off the wire decodes to a small request. */
  lemma DecodedIsSmall(args: Command)
    requires InLimits(args) && Decode(args).Write?
    ensures Small(Decode(args).q)
  {
    hide ParseTtl, Upper;
    var a := args[1..];
    assert forall i :: 0 <= i < |a| ==> |a[i]| <= MAX_BULK;
    if |a| == 2 {
      TtlRange(a[1], NS_PER_S);
      TtlRange(a[1], NS_PER_MS);
    }
    if |a| == 4 {
      TtlRange(a[3], NS_PER_S);
      TtlRange(a[3], NS_PER_MS);
    }
  }

  /** The guards the code lacks: a relative expiry must end within the absolute range, and APPEND
      must not grow a value past the largest bulk string. */
  predicate Affordable(ks: Keyspace, q: Request, now: int) {
    match q
    case SetFor(_, _, ttl) => Millis(now + ttl) <= MAX_MS
    case ExpireIn(k, ttl) => Live(ks, k, now) && ttl > 0 ==> Millis(now + ttl) <= MAX_MS
    case AppendTo(k, suffix) => Live(ks, k, now) ==> |ks[k].val| + |suffix| <= MAX_BULK
    case _ => true
  }

  lemma SetFits(k: Key, it: Item)
    requires |k| <= MAX_BULK
    ensures Fits(SetRec(k, it)) <==> |it.val| <= MAX_BULK && DeadlineFits(it.dl)
  {
    var r := SetRec(k, it);
    var args := ToArgs(r);
    assert args[0] == SET && args[1] == k && args[2] == it.val;
    if it.dl.Some? && 0 < Millis(it.dl.value) <= MAX_MS {
      CounterLength(Millis(it.dl.value));
    }
  }

  /** No int64 is longer in decimal, sign included. */
  const COUNTER_LENGTH: nat := 20

  lemma CounterLength(n: int)
    requires IsInt64(n)
    ensures |Itoa(n)| <= COUNTER_LENGTH
  {
    assert Pow10(19) == 10_000_000_000_000_000_000 by {
      assert Pow10(4) == 10_000;
      assert Pow10(8) == 10_000 * Pow10(4);
      assert Pow10(12) == 10_000 * Pow10(8);
      assert Pow10(16) == 10_000 * Pow10(12);
      assert Pow10(19) == 1_000 * Pow10(16);
    }
    DigitsLength(if n < 0 then -n else n, 19);
  }

  lemma ExpireFits(k: Key, at: int)
    requires |k| <= MAX_BULK && at > 0
    ensures Fits(RExpireAt(k, Millis(at))) <==> Millis(at) <= MAX_MS
  {
    if Millis(at) <= MAX_MS {
      CounterLength(Millis(at));
      var args := ToArgs(RExpireAt(k, Millis(at)));
      assert args == [PEXPIREAT, k, Itoa(Millis(at))];
    }
  }

  lemma MSetFits(pairs: seq<Pair>)
    requires Small(MSet(pairs))
    ensures Fits(RMSet(pairs))
  {
    var args := ToArgs(RMSet(pairs));
    forall i | 0 <= i < |args|
      ensures |args[i]| <= MAX_BULK
    {
      if i > 0 {
        assert args[i] == Flatten(pairs)[i - 1];
      }
    }
  }

  lemma DelFits(keys: seq<Key>)
    requires 0 < |keys| < MAX_ARRAY && forall i :: 0 <= i < |keys| ==> |keys[i]| <= MAX_BULK
    ensures Fits(RDel(keys))
  {
    var args := ToArgs(RDel(keys));
    forall i | 0 <= i < |args|
      ensures |args[i]| <= MAX_BULK
    {
      if i > 0 {
        assert args[i] == keys[i - 1];
      }
    }
  }

  lemma DelEffectFits(ks: Keyspace, keys: seq<Key>)
    requires Small(Del(keys))
    ensures forall r :: r in DelEffect(ks, keys).recs ==> Fits(r)
  {
    RemovedIsExact(ks, keys);
    var gone := Removed(ks, keys);
    if gone != [] {
      forall i | 0 <= i < |gone|
        ensures |gone[i]| <= MAX_BULK
      {
        assert gone[i] in keys;
      }
      DelFits(gone);
    }
  }

  /** A write accepted from the wire leaves records that can be read back, if and only if its
      relative deadline stays in the absolute range and its value within the largest bulk string:
      every other request always does. */
  lemma RecordsFitIff(ks: Keyspace, q: Request, now: int)
    requires KeyspaceFits(ks) && Small(q) && now >= NS_PER_MS
    ensures (forall r :: r in Handle(ks, q, now).recs ==> Fits(r)) <==> Affordable(ks, q, now)
  {
    hide Fits, ToArgs, Itoa, ParseInt;
    var e := Handle(ks, q, now);
    match q
    case Set(k, v) => SetFits(k, Item(v, None));
    case SetFor(k, v, ttl) =>
      SetFits(k, Item(v, Some(now + ttl)));
      assert e.recs[0] in e.recs;
    case SetUntil(k, v, at) =>
      SetFits(k, Item(v, Some(at)));
      DelEffectFits(ks, [k]);
    case MSet(pairs) => MSetFits(pairs);
    case Del(keys) => DelEffectFits(ks, keys);
    case Increment(k, delta) =>
      var seen := Fresh(Look(ks, k), now);
      var n := Bumped(seen, delta);
      if n.Some? {
        CounterLength(n.value);
        SetFits(k, Rewritten(seen, Itoa(n.value)));
      }
    case AppendTo(k, suffix) =>
      SetFits(k, e.ks[k]);
      assert e.recs[0] in e.recs;
    case ExpireIn(k, ttl) => ExpireEffectFits(ks, k, now + ttl, now);
    case ExpireAt(k, at) => ExpireEffectFits(ks, k, at, now);
  }

  /** The same of the bytes, whatever follows them in the log. */
  lemma WritesComeBackIff(ks: Keyspace, q: Request, now: int, rest: Bytes)
    requires KeyspaceFits(ks) && Small(q) && now >= NS_PER_MS
    ensures (forall r :: r in Handle(ks, q, now).recs ==> ComesBack(r, rest)) <==> Affordable(ks, q, now)
  {
    hide Fits, ComesBack, Handle, Affordable, Small, KeyspaceFits;
    RecordsFitIff(ks, q, now);
    forall r
      ensures Fits(r) <==> ComesBack(r, rest)
    {
      FitsIff(r, rest);
    }
  }

  /** APPEND can leave a record that the reader turns down: one byte more on the largest value. */
  lemma AppendCanOutgrow(k: Key, v: Bytes, now: int, rest: Bytes)
    requires |k| <= MAX_BULK && |v| == MAX_BULK
    ensures var ks, q := map[k := Item(v, None)], AppendTo(k, [0]);
      && KeyspaceFits(ks) && Small(q) && !Affordable(ks, q, now)
      && Handle(ks, q, now).recs == [RSet(k, v + [0], None)]
      && ParseCommand(Encode(ToArgs(RSet(k, v + [0], None))) + rest) == Malformed
  {
    hide ParseCommand, Encode;
    var args := ToArgs(RSet(k, v + [0], None));
    assert args == [SET, k, v + [0]] && args[2] == v + [0];
    ReadsBackIff(args, rest);
  }

  lemma ExpireEffectFits(ks: Keyspace, k: Key, at: int, now: int)
    requires |k| <= MAX_BULK && now >= NS_PER_MS
    ensures (forall r :: r in ExpireAtEffect(ks, k, at, now).recs ==> Fits(r)) <==>
      (Live(ks, k, now) && at > now ==> Millis(at) <= MAX_MS)
  {
    hide Fits, ToArgs, Millis;
    DelFits([k]);
    if at > now {
      ExpireFits(k, at);
    }
    var recs := ExpireAtEffect(ks, k, at, now).recs;
    if recs != [] {
      assert recs[0] in recs;
    }
  }

  /** And the keyspace goes on fitting, so the condition is the same for the next request. */
  lemma KeyspaceGoesOnFitting(ks: Keyspace, q: Request, now: int)
    requires KeyspaceFits(ks) && Small(q) && now >= NS_PER_MS && Affordable(ks, q, now)
    ensures KeyspaceFits(Handle(ks, q, now).ks)
  {
    hide Itoa, ParseInt;
    var ks' := Handle(ks, q, now).ks;
    match q
    case MSet(pairs) =>
      forall k | k in ks'
        ensures |k| <= MAX_BULK && |ks'[k].val| <= MAX_BULK && DeadlineFits(ks'[k].dl)
      {
        AssignAllLook(ks, pairs, k);
        LastAssignedIn(pairs, k);
      }
    case Increment(k, delta) =>
      var n := Bumped(Fresh(Look(ks, k), now), delta);
      if n.Some? {
        CounterLength(n.value);
      }
    case _ =>
  }

  lemma {:induction false} LastAssignedIn(pairs: seq<Pair>, k: Key)
    ensures LastAssigned(pairs, k).Some? ==>
      exists i :: 0 <= i < |pairs| && pairs[i] == Pair(k, LastAssigned(pairs, k).value)
  {
    if pairs != [] && pairs[|pairs| - 1].key != k {
      var n := |pairs| - 1;
      LastAssignedIn(pairs[..n], k);
      if LastAssigned(pairs, k).Some? {
        var i :| 0 <= i < n && pairs[..n][i] == Pair(k, LastAssigned(pairs, k).value);
        assert pairs[i] == Pair(k, LastAssigned(pairs, k).value);
      }
    }
  }

  // ----- a log that can be read back -----

  /** Every command is within the reader's limits and one the handlers take. */
  predicate Readable(cmds: seq<Command>) {
    forall i :: 0 <= i < |cmds| ==> InLimits(cmds[i]) && Decode(cmds[i]).Write?
  }

  lemma FittingIsReadable(recs: seq<Rec>)
    requires forall i :: 0 <= i < |recs| ==> Fits(recs[i])
    ensures Readable(ArgsAll(recs))
  {
    hide ToArgs, Decode;
    forall i | 0 <= i < |recs|
      ensures InLimits(ToArgs(recs[i])) && Decode(ToArgs(recs[i])).Write?
    {
      RecordsReplay(recs[i]);
    }
  }

  /** What the server needs of its log, its memory and its snapshot to be able to start again. */
  ghost predicate LogFits(records: seq<Command>, ks: Keyspace, snapshot: Option<seq<Rec>>) {
    Readable(records) && KeyspaceFits(ks) && (snapshot.Some? ==> Readable(ArgsAll(snapshot.value)))
  }

  lemma EvictionKeepsFit(records: seq<Command>, ks: Keyspace, snapshot: Option<seq<Rec>>, victims: seq<Key>)
    requires LogFits(records, ks, snapshot) && forall k :: k in victims ==> k in ks
    ensures LogFits(records + ArgsAll(Dels(victims)), ks - KeySet(victims), snapshot)
  {
    hide Decode, Fits, ToArgs;
    forall i | 0 <= i < |victims|
      ensures Fits(Dels(victims)[i])
    {
      assert victims[i] in victims;
      DelFits([victims[i]]);
    }
    FittingIsReadable(Dels(victims));
  }

  /** A small request that the missing guards would let through keeps the log readable and the
      keyspace fitting for the next one. */
  lemma WriteKeepsFit(records: seq<Command>, ks: Keyspace, snapshot: Option<seq<Rec>>, q: Request, now: int)
    requires LogFits(records, ks, snapshot) && Small(q) && Affordable(ks, q, now) && now >= NS_PER_MS
    ensures LogFits(records + ArgsAll(Handle(ks, q, now).recs), Handle(ks, q, now).ks, snapshot)
  {
    hide Decode, Fits, Handle, ToArgs, Affordable, Small;
    RecordsFitIff(ks, q, now);
    KeyspaceGoesOnFitting(ks, q, now);
    var e := Handle(ks, q, now);
    assert forall i :: 0 <= i < |e.recs| ==> e.recs[i] in e.recs;
    FittingIsReadable(e.recs);
  }

  lemma FewerKeysFit(records: seq<Command>, ks: Keyspace, snapshot: Option<seq<Rec>>, gone: set<Key>)
    requires LogFits(records, ks, snapshot)
    ensures LogFits(records, ks - gone, snapshot)
  {
    hide Decode, ToArgs;
  }

  lemma SnapshotFits(records: seq<Command>, ks: Keyspace, recs: seq<Rec>, now: int)
    requires LogFits(records, ks, None) && Enumerates(recs, Visible(ks, now))
    ensures LogFits(records, ks, Some(recs))
  {
    hide Fits, ToArgs, Decode;
    forall i | 0 <= i < |recs|
      ensures Fits(recs[i])
    {
      SetFits(recs[i].key, ks[recs[i].key]);
    }
    FittingIsReadable(recs);
  }

  lemma InstallKeepsFit(records: seq<Command>, mark: nat, ks: Keyspace, recs: seq<Rec>)
    requires LogFits(records, ks, Some(recs)) && mark <= |records|
    ensures LogFits(ArgsAll(recs) + records[mark..], ks, None)
  {
    hide Decode, ToArgs;
  }

  /** What a readable log rebuilds fits too. */
  lemma {:induction false} ReplayedFits(recs: seq<Rec>, ts: seq<int>)
    requires Readable(ArgsAll(recs)) && |ts| == |recs| && forall i :: 0 <= i < |ts| ==> ts[i] >= NS_PER_MS
    ensures KeyspaceFits(Replayed(recs, ts))
  {
    hide Decode, Handle, Fails, ToArgs, ReplayRec, Small, KeyspaceFits;
    if recs == [] {
      NothingFits();
    } else {
      var n := |recs| - 1;
      var ks := Replayed(recs[..n], ts[..n]);
      assert ArgsAll(recs)[..n] == ArgsAll(recs[..n]);
      ReplayedFits(recs[..n], ts[..n]);
      assert ArgsAll(recs)[n] == ToArgs(recs[n]);
      RecordsReplay(recs[n]);
      DecodedIsSmall(ToArgs(recs[n]));
      HandlersReplay(ks, recs[n], ts[n]);
      assert Affordable(ks, RequestOf(recs[n]), ts[n]);
      KeyspaceGoesOnFitting(ks, RequestOf(recs[n]), ts[n]);
    }
  }

  lemma NothingFits()
    ensures KeyspaceFits(map[])
  {
  }
}

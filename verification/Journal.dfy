/**
 What a log means without a clock, key by key, and the absorption law that makes "snapshot plus
 tail" a sound way to rewrite a log while it is being appended to.
 */
module Journal {
  import opened Bytes
  import opened Routing
  import opened Keyspace

  function Apply(ks: Keyspace, r: Rec): Keyspace {
    match r
    case RSet(k, v, at) => ks[k := Item(v, NanosOf(at))]
    case RMSet(pairs) => AssignAll(ks, pairs)
    case RDel(keys) => ks - KeySet(keys)
    case RExpireAt(k, ms) => if k in ks then ks[k := ks[k].(dl := Some(ms * NS_PER_MS))] else ks
  }

  function Run(ks: Keyspace, rs: seq<Rec>): Keyspace {
    if rs == [] then ks else Apply(Run(ks, rs[..|rs| - 1]), rs[|rs| - 1])
  }

  function Meaning(rs: seq<Rec>): Keyspace {
    Run(map[], rs)
  }

  // ----- one key at a time -----

  /** What a record does to one key: nothing, fix its state, or move its deadline if present. */
  datatype Fx = Keep | Const(state: Option<Item>) | Touch(dl: int)

  function FxOf(r: Rec, k: Key): Fx {
    match r
    case RSet(key, v, at) => if key == k then Const(Some(Item(v, NanosOf(at)))) else Keep
    case RMSet(pairs) =>
      (match LastAssigned(pairs, k)
       case Some(v) => Const(Some(Item(v, None)))
       case None => Keep)
    case RDel(keys) => if k in keys then Const(None) else Keep
    case RExpireAt(key, ms) => if key == k then Touch(ms * NS_PER_MS) else Keep
  }

  function Act(f: Fx, x: Option<Item>): Option<Item> {
    match f
    case Keep => x
    case Const(state) => state
    case Touch(dl) => if x.Some? then Some(x.value.(dl := Some(dl))) else None
  }

  /** First f, then g, as one effect. */
  function Then(f: Fx, g: Fx): Fx {
    match g
    case Keep => f
    case Const(_) => g
    case Touch(_) => if f.Const? then Const(Act(g, f.state)) else g
  }

  function Summary(rs: seq<Rec>, k: Key): Fx {
    if rs == [] then Keep else Then(Summary(rs[..|rs| - 1], k), FxOf(rs[|rs| - 1], k))
  }

  lemma ApplyLook(ks: Keyspace, r: Rec, k: Key)
    ensures Look(Apply(ks, r), k) == Act(FxOf(r, k), Look(ks, k))
  {
    if r.RMSet? {
      AssignAllLook(ks, r.pairs, k);
    }
  }

  /** Running a log is, for every key, one effect. */
  lemma {:induction false} RunLook(ks: Keyspace, rs: seq<Rec>, k: Key)
    ensures Look(Run(ks, rs), k) == Act(Summary(rs, k), Look(ks, k))
  {
    if rs != [] {
      RunLook(ks, rs[..|rs| - 1], k);
      ApplyLook(Run(ks, rs[..|rs| - 1]), rs[|rs| - 1], k);
    }
  }

  lemma {:induction false} SummaryConcat(a: seq<Rec>, b: seq<Rec>, k: Key)
    ensures Summary(a + b, k) == Then(Summary(a, k), Summary(b, k))
  {
    if b == [] {
      assert a + b == a;
    } else {
      SummaryConcat(a, b[..|b| - 1], k);
      assert (a + b)[..|a + b| - 1] == a + b[..|b| - 1];
    }
  }

  lemma {:induction false} RunConcat(ks: Keyspace, a: seq<Rec>, b: seq<Rec>)
    ensures Run(ks, a + b) == Run(Run(ks, a), b)
  {
    if b == [] {
      assert a + b == a;
    } else {
      RunConcat(ks, a, b[..|b| - 1]);
      assert (a + b)[..|a + b| - 1] == a + b[..|b| - 1];
    }
  }

  lemma RunOne(ks: Keyspace, r: Rec)
    ensures Run(ks, [r]) == Apply(ks, r)
  {
    assert [r][..0] == [];
    assert Run(ks, [r][..0]) == ks;
  }

  lemma SameKeyspace(a: Keyspace, b: Keyspace)
    requires forall k :: Look(a, k) == Look(b, k)
    ensures a == b
  {
    assert forall k :: k in a <==> Look(a, k).Some?;
    assert forall k :: k in b <==> Look(b, k).Some?;
    forall k | k in a
      ensures k in b && a[k] == b[k]
    {
      assert Look(a, k) == Look(b, k);
    }
    forall k | k in b
      ensures k in a
    {
      assert Look(a, k) == Look(b, k);
    }
  }

  // ----- absorption -----

  /** Doing f then g to a key that has already had f done to it changes nothing. */
  lemma Absorbs(f: Fx, g: Fx, x: Option<Item>)
    ensures Act(Then(f, g), Act(f, x)) == Act(Then(f, g), x)
  {
  }

  /** Re-applying a record sequence over any of its own prefix states gives the same result. */
  lemma ReapplyOverPrefix(ks: Keyspace, rs: seq<Rec>, j: nat)
    requires j <= |rs|
    ensures Run(Run(ks, rs[..j]), rs) == Run(ks, rs)
  {
    forall k
      ensures Look(Run(Run(ks, rs[..j]), rs), k) == Look(Run(ks, rs), k)
    {
      RunLook(Run(ks, rs[..j]), rs, k);
      RunLook(ks, rs[..j], k);
      RunLook(ks, rs, k);
      assert rs == rs[..j] + rs[j..];
      SummaryConcat(rs[..j], rs[j..], k);
      Absorbs(Summary(rs[..j], k), Summary(rs[j..], k), Look(ks, k));
    }
    SameKeyspace(Run(Run(ks, rs[..j]), rs), Run(ks, rs));
  }

  // ----- snapshots -----

  function Flat(parts: seq<seq<Rec>>): seq<Rec> {
    if parts == [] then [] else Flat(parts[..|parts| - 1]) + parts[|parts| - 1]
  }

  /** One absolute-deadline SET per key of `part`, in some order, and nothing else. */
  ghost predicate Enumerates(rs: seq<Rec>, part: Keyspace) {
    && (forall i :: 0 <= i < |rs| ==>
          rs[i].RSet? && rs[i].key in part && rs[i] == SetRec(rs[i].key, part[rs[i].key]))
    && (forall k :: k in part ==> SetRec(k, part[k]) in rs)
    && NoDuplicates(rs)
  }

  lemma {:induction false} SnapshotSummary(rs: seq<Rec>, part: Keyspace, k: Key)
    requires forall i :: 0 <= i < |rs| ==>
      rs[i].RSet? && rs[i].key in part && rs[i] == SetRec(rs[i].key, part[rs[i].key])
    ensures Summary(rs, k) ==
      if k in part && SetRec(k, part[k]) in rs then Const(Some(Floored(part[k]))) else Keep
  {
    if rs != [] {
      var n := |rs| - 1;
      SnapshotSummary(rs[..n], part, k);
      assert rs == rs[..n] + [rs[n]];
    }
  }

  /** A snapshot means the floored part it enumerates, laid over whatever was there before. */
  lemma SnapshotMeans(ks: Keyspace, rs: seq<Rec>, part: Keyspace, k: Key)
    requires Enumerates(rs, part)
    ensures Look(Run(ks, rs), k) == if k in part then Some(Floored(part[k])) else Look(ks, k)
  {
    RunLook(ks, rs, k);
    SnapshotSummary(rs, part, k);
  }
}

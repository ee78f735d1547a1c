/**
 The lock discipline: commit gate, then shards in ascending order, then the log's mutex. Read
 locks count as exclusive. A client is the straight-line lock program of its operation.
 */
module Locks {
  import opened Routing
  import opened Keyspace

  /** Locks by rank: the gate is 0, shard i is 1 + i, the log's mutex comes last. */
  const GATE: nat := 0
  const LOG: nat := 1 + SHARDS

  function ShardLock(i: nat): nat {
    1 + i
  }

  // ----- choosing the shards of a multi-key command -----

  ghost predicate Ascending(ids: seq<nat>) {
    forall i, j :: 0 <= i < j < |ids| ==> ids[i] < ids[j]
  }

  /** x put in front of the first larger element. */
  function Insert(x: nat, ids: seq<nat>): seq<nat> {
    if ids == [] || x < ids[0] then [x] + ids else [ids[0]] + Insert(x, ids[1..])
  }

  lemma {:induction false} InsertAdds(x: nat, ids: seq<nat>, y: nat)
    ensures y in Insert(x, ids) <==> y == x || y in ids
  {
    if ids != [] && x >= ids[0] {
      InsertAdds(x, ids[1..], y);
      assert ids == [ids[0]] + ids[1..];
    }
  }

  lemma {:induction false} InsertKeepsOrder(x: nat, ids: seq<nat>)
    requires Ascending(ids) && x !in ids
    ensures Ascending(Insert(x, ids))
  {
    if ids != [] && x >= ids[0] {
      InsertKeepsOrder(x, ids[1..]);
      var rest := Insert(x, ids[1..]);
      forall j | 0 <= j < |rest|
        ensures ids[0] < rest[j]
      {
        InsertAdds(x, ids[1..], rest[j]);
      }
      PrependKeepsOrder(ids[0], rest);
    } else {
      PrependKeepsOrder(x, ids);
    }
  }

  lemma PrependKeepsOrder(x: nat, ids: seq<nat>)
    requires Ascending(ids) && forall j :: 0 <= j < |ids| ==> x < ids[j]
    ensures Ascending([x] + ids)
  {
  }

  /** lockWriteShards: the shard IDs of the keys, each once, in the order they are locked. */
  method LockOrder(keys: seq<Key>) returns (ids: seq<nat>)
    ensures Ascending(ids)
    ensures forall id :: id in ids <==> exists k :: k in keys && ShardIndex(k) == id
  {
    hide ShardIndex;
    var found: seq<nat> := [];
    var seen: set<nat> := {};
    var n := 0;
    while n < |keys|
      invariant 0 <= n <= |keys|
      invariant NoDuplicates(found)
      invariant forall id :: id in found <==> id in seen
      invariant forall id :: id in seen ==> exists i :: 0 <= i < n && ShardIndex(keys[i]) == id
      invariant forall i :: 0 <= i < n ==> ShardIndex(keys[i]) in seen
    {
      var id := ShardIndex(keys[n]);
      if id !in seen {
        seen := seen + {id};
        found := found + [id];
      }
      n := n + 1;
    }
    ids := Sort(found);
    forall id | id in ids
      ensures exists k :: k in keys && ShardIndex(k) == id
    {
      var i :| 0 <= i < n && ShardIndex(keys[i]) == id;
      assert keys[i] in keys;
    }
  }

  method Sort(found: seq<nat>) returns (ids: seq<nat>)
    requires NoDuplicates(found)
    ensures Ascending(ids)
    ensures forall id :: id in ids <==> id in found
  {
    ids := [];
    var n := 0;
    while n < |found|
      invariant 0 <= n <= |found|
      invariant Ascending(ids)
      invariant forall id :: id in ids <==> id in found[..n]
    {
      assert found[n] !in found[..n];
      assert found[..n + 1] == found[..n] + [found[n]];
      InsertKeepsOrder(found[n], ids);
      forall id {
        InsertAdds(found[n], ids, id);
      }
      ids := Insert(found[n], ids);
      n := n + 1;
    }
    assert found[..n] == found;
  }

  // ----- lock programs -----

  datatype Instr = Acq(lock: nat) | Rel(lock: nat)

  type Program = seq<Instr>

  ghost function Below(held: set<nat>, lock: nat): bool {
    forall h :: h in held ==> h < lock
  }

  /** Every acquisition is above everything held, and every release is of something held. */
  ghost predicate Disciplined(held: set<nat>, p: Program)
    decreases |p|
  {
    if p == [] then true
    else
      match p[0]
      case Acq(l) => Below(held, l) && l <= LOG && Disciplined(held + {l}, p[1..])
      case Rel(l) => l in held && Disciplined(held - {l}, p[1..])
  }

  ghost function After(held: set<nat>, p: Program): set<nat>
    decreases |p|
  {
    if p == [] then held
    else
      match p[0]
      case Acq(l) => After(held + {l}, p[1..])
      case Rel(l) => After(held - {l}, p[1..])
  }

  lemma {:induction false} Sequenced(held: set<nat>, p: Program, q: Program)
    ensures Disciplined(held, p + q) <==> Disciplined(held, p) && Disciplined(After(held, p), q)
    ensures After(held, p + q) == After(After(held, p), q)
    decreases |p|
  {
    if p == [] {
      assert p + q == q;
    } else {
      assert (p + q)[1..] == p[1..] + q;
      match p[0]
      case Acq(l) => Sequenced(held + {l}, p[1..], q);
      case Rel(l) => Sequenced(held - {l}, p[1..], q);
    }
  }

  /** From holding `h0`, the program runs in order and leaves `h1` held. */
  ghost predicate Takes(h0: set<nat>, p: Program, h1: set<nat>) {
    Disciplined(h0, p) && After(h0, p) == h1
  }

  lemma Chain(h0: set<nat>, p: Program, h1: set<nat>, q: Program, h2: set<nat>)
    requires Takes(h0, p, h1) && Takes(h1, q, h2)
    ensures Takes(h0, p + q, h2)
  {
    Sequenced(h0, p, q);
  }

  lemma Acquiring(held: set<nat>, l: nat)
    requires Below(held, l) && l <= LOG
    ensures Takes(held, [Acq(l)], held + {l})
  {
    assert Takes(held + {l}, [Acq(l)][1..], held + {l});
  }

  lemma Releasing(held: set<nat>, l: nat)
    requires l in held
    ensures Takes(held, [Rel(l)], held - {l})
  {
    assert Takes(held - {l}, [Rel(l)][1..], held - {l});
  }

  lemma Visiting(held: set<nat>, l: nat)
    requires Below(held, l) && l <= LOG
    ensures Takes(held, Visit(l), held)
  {
    Acquiring(held, l);
    Releasing(held + {l}, l);
    assert held + {l} - {l} == held;
    Chain(held, [Acq(l)], held + {l}, [Rel(l)], held);
    assert Visit(l) == [Acq(l)] + [Rel(l)];
  }

  function GateIf(journal: bool): set<nat> {
    if journal then {GATE} else {}
  }

  lemma EnterGate(journal: bool)
    ensures Takes({}, Journalled([Acq(GATE)], journal), GateIf(journal))
  {
    Acquiring({}, GATE);
    assert {} + {GATE} == {GATE};
  }

  lemma LeaveGate(journal: bool, others: set<nat>)
    requires GATE !in others
    ensures Takes(GateIf(journal) + others, Journalled([Rel(GATE)], journal), others)
  {
    if journal {
      Releasing({GATE} + others, GATE);
      assert {GATE} + others - {GATE} == others;
    } else {
      assert GateIf(journal) + others == others;
    }
  }

  function Visit(lock: nat): Program {
    [Acq(lock), Rel(lock)]
  }

  function Visits(locks: seq<nat>): Program {
    if locks == [] then [] else Visit(locks[0]) + Visits(locks[1..])
  }

  function AcquireAll(ids: seq<nat>): Program {
    if ids == [] then [] else [Acq(ShardLock(ids[0]))] + AcquireAll(ids[1..])
  }

  function ReleaseAll(ids: seq<nat>): Program {
    if ids == [] then [] else ReleaseAll(ids[1..]) + [Rel(ShardLock(ids[0]))]
  }

  function Journalled(p: Program, journal: bool): Program {
    if journal then p else []
  }

  /** SET, INCR, APPEND, eviction, sampling, snapshots, lookups, Append and Sync: shards and the
      log are visited one at a time, under the gate when the operation mutates durably. */
  function OneAtATime(locks: seq<nat>, gate: bool): Program {
    Journalled([Acq(GATE)], gate) + Visits(locks) + Journalled([Rel(GATE)], gate)
  }

  /** MSET and DEL: all shards at once, the append, if there is anything to append, inside, the gate
      released before the shards. */
  function Batch(ids: seq<nat>, journal: bool, appends: bool): Program {
    Journalled([Acq(GATE)], journal) + AcquireAll(ids) + Journalled(Visit(LOG), journal && appends)
    + Journalled([Rel(GATE)], journal) + ReleaseAll(ids)
  }

  /** EXPIREAT: one shard, the append, if the key is there, inside, the shard released before the gate. */
  function ExpireProgram(id: nat, journal: bool, appends: bool): Program {
    Journalled([Acq(GATE)], journal) + [Acq(ShardLock(id))] + Journalled(Visit(LOG), journal && appends)
    + [Rel(ShardLock(id))] + Journalled([Rel(GATE)], journal)
  }

  ghost predicate Clean(p: Program) {
    Takes({}, p, {})
  }

  lemma {:induction false} VisitsAreDisciplined(held: set<nat>, locks: seq<nat>)
    requires forall i :: 0 <= i < |locks| ==> 1 <= locks[i] <= LOG
    requires held <= {GATE}
    ensures Takes(held, Visits(locks), held)
  {
    if locks != [] {
      var l := locks[0];
      Visiting(held, l);
      VisitsAreDisciplined(held, locks[1..]);
      Chain(held, Visit(l), held, Visits(locks[1..]), held);
    }
  }

  lemma OneAtATimeIsClean(locks: seq<nat>, gate: bool)
    requires forall i :: 0 <= i < |locks| ==> 1 <= locks[i] <= LOG
    ensures Clean(OneAtATime(locks, gate))
  {
    var start, end := Journalled([Acq(GATE)], gate), Journalled([Rel(GATE)], gate);
    var held := GateIf(gate);
    EnterGate(gate);
    VisitsAreDisciplined(held, locks);
    LeaveGate(gate, {});
    assert held + {} == held;
    Chain({}, start, held, Visits(locks), held);
    Chain({}, start + Visits(locks), held, end, {});
  }

  function LockSet(ids: seq<nat>): set<nat> {
    set i | i in ids :: ShardLock(i)
  }

  lemma {:induction false} AcquireAllIsDisciplined(held: set<nat>, ids: seq<nat>)
    requires Ascending(ids) && forall i :: 0 <= i < |ids| ==> ids[i] < SHARDS
    requires ids != [] ==> Below(held, ShardLock(ids[0]))
    ensures Takes(held, AcquireAll(ids), held + LockSet(ids))
    decreases |ids|
  {
    if ids != [] {
      var p := AcquireAll(ids);
      assert p[1..] == AcquireAll(ids[1..]);
      AcquireAllIsDisciplined(held + {ShardLock(ids[0])}, ids[1..]);
      assert ids == [ids[0]] + ids[1..];
      assert LockSet(ids) == {ShardLock(ids[0])} + LockSet(ids[1..]);
    }
  }

  lemma {:induction false} ReleaseAllIsDisciplined(held: set<nat>, ids: seq<nat>)
    requires Ascending(ids) && LockSet(ids) <= held
    ensures Takes(held, ReleaseAll(ids), held - LockSet(ids))
  {
    if ids != [] {
      var first := ShardLock(ids[0]);
      assert ids == [ids[0]] + ids[1..];
      assert LockSet(ids) == {first} + LockSet(ids[1..]);
      assert first !in LockSet(ids[1..]);
      ReleaseAllIsDisciplined(held, ids[1..]);
      Sequenced(held, ReleaseAll(ids[1..]), [Rel(first)]);
    }
  }

  lemma BatchIsClean(ids: seq<nat>, journal: bool, appends: bool)
    requires Ascending(ids) && forall i :: 0 <= i < |ids| ==> ids[i] < SHARDS
    ensures Clean(Batch(ids, journal, appends))
  {
    hide Disciplined, After;
    var gate, shards := GateIf(journal), LockSet(ids);
    var all := gate + shards;
    var a, b := Journalled([Acq(GATE)], journal), AcquireAll(ids);
    var c, d := Journalled(Visit(LOG), journal && appends), Journalled([Rel(GATE)], journal);
    EnterGate(journal);
    AcquireAllIsDisciplined(gate, ids);
    Chain({}, a, gate, b, all);
    StayIf(all, journal && appends);
    Chain({}, a + b, all, c, all);
    LeaveGate(journal, shards);
    Chain({}, a + b + c, all, d, shards);
    ReleaseAllIsDisciplined(shards, ids);
    assert shards - shards == {};
    Chain({}, a + b + c + d, shards, ReleaseAll(ids), {});
  }

  /** What MSET and DEL hold while they append: the gate and every shard they lock. */
  lemma BatchAppendsInside(ids: seq<nat>)
    requires Ascending(ids) && forall i :: 0 <= i < |ids| ==> ids[i] < SHARDS
    ensures var before := [Acq(GATE)] + AcquireAll(ids);
      var after := [Rel(GATE)] + ReleaseAll(ids);
      && Batch(ids, true, true) == before + Visit(LOG) + after
      && Takes({}, before, {GATE} + LockSet(ids))
  {
    hide Disciplined, After, Batch, AcquireAll, ReleaseAll, Takes, Visit;
    EnterGate(true);
    AcquireAllIsDisciplined({GATE}, ids);
    Chain({}, [Acq(GATE)], {GATE}, AcquireAll(ids), {GATE} + LockSet(ids));
    BatchShape(ids);
  }

  lemma BatchShape(ids: seq<nat>)
    ensures Batch(ids, true, true) == [Acq(GATE)] + AcquireAll(ids) + Visit(LOG) + ([Rel(GATE)] + ReleaseAll(ids))
  {
    hide AcquireAll, ReleaseAll, Visit;
  }

  /** The same of a command by its keys: while it appends it holds the gate and exactly the shards its
      keys route to. */
  method LockForKeys(keys: seq<Key>) returns (ids: seq<nat>, ghost before: Program, ghost after: Program)
    ensures Ascending(ids) && forall i :: 0 <= i < |ids| ==> ids[i] < SHARDS
    ensures Batch(ids, true, true) == before + Visit(LOG) + after && Disciplined({}, before)
    ensures forall l :: l in After({}, before) <==> l == GATE || exists k :: k in keys && l == ShardLock(ShardIndex(k))
  {
    hide Disciplined, After, ShardIndex, Batch;
    ids := LockOrder(keys);
    InRange(keys, ids);
    BatchAppendsInside(ids);
    before, after := [Acq(GATE)] + AcquireAll(ids), [Rel(GATE)] + ReleaseAll(ids);
    forall l
      ensures l in LockSet(ids) <==> exists k :: k in keys && l == ShardLock(ShardIndex(k))
    {
      ShardsOfKeys(keys, ids, l);
    }
  }

  lemma InRange(keys: seq<Key>, ids: seq<nat>)
    requires forall id :: id in ids <==> exists k :: k in keys && ShardIndex(k) == id
    ensures forall i :: 0 <= i < |ids| ==> ids[i] < SHARDS
  {
    forall i | 0 <= i < |ids|
      ensures ids[i] < SHARDS
    {
      assert ids[i] in ids;
    }
  }

  lemma ShardsOfKeys(keys: seq<Key>, ids: seq<nat>, l: nat)
    requires forall id :: id in ids <==> exists k :: k in keys && ShardIndex(k) == id
    ensures l in LockSet(ids) <==> exists k :: k in keys && l == ShardLock(ShardIndex(k))
  {
    hide ShardIndex;
    if k :| k in keys && l == ShardLock(ShardIndex(k)) {
      assert ShardIndex(k) in ids;
    }
    if l in LockSet(ids) {
      var id :| id in ids && l == ShardLock(id);
      var k :| k in keys && ShardIndex(k) == id;
    }
  }

  /** EXPIREAT appends holding the gate and its shard. */
  lemma ExpireAppendsInside(id: nat)
    requires id < SHARDS
    ensures var before := [Acq(GATE), Acq(ShardLock(id))];
      && ExpireProgram(id, true, true) == before + Visit(LOG) + [Rel(ShardLock(id)), Rel(GATE)]
      && Takes({}, before, {GATE, ShardLock(id)})
  {
    hide Disciplined, After;
    var s := ShardLock(id);
    EnterGate(true);
    Acquiring({GATE}, s);
    assert {GATE} + {s} == {GATE, s};
    Chain({}, [Acq(GATE)], {GATE}, [Acq(s)], {GATE, s});
    assert [Acq(GATE)] + [Acq(s)] == [Acq(GATE), Acq(s)];
  }

  lemma {:induction false} VisitsConcat(a: seq<nat>, b: seq<nat>)
    ensures Visits(a + b) == Visits(a) + Visits(b)
  {
    if a == [] {
      assert a + b == b;
    } else {
      assert (a + b)[1..] == a[1..] + b;
      VisitsConcat(a[1..], b);
    }
  }

  /** A gated operation that visits one lock at a time appends holding the gate and nothing else. */
  lemma SingleAppendsInside(first: seq<nat>, rest: seq<nat>)
    requires forall i :: 0 <= i < |first| ==> 1 <= first[i] <= LOG
    ensures var before := [Acq(GATE)] + Visits(first);
      && OneAtATime(first + [LOG] + rest, true) == before + Visit(LOG) + (Visits(rest) + [Rel(GATE)])
      && Takes({}, before, {GATE})
  {
    hide Disciplined, After, OneAtATime, Visits, Visit, Takes;
    EnterGate(true);
    VisitsAreDisciplined({GATE}, first);
    Chain({}, [Acq(GATE)], {GATE}, Visits(first), {GATE});
    SingleShape(first, rest);
  }

  lemma SingleShape(first: seq<nat>, rest: seq<nat>)
    ensures OneAtATime(first + [LOG] + rest, true) ==
      [Acq(GATE)] + Visits(first) + Visit(LOG) + (Visits(rest) + [Rel(GATE)])
  {
    hide Visits, Visit;
    VisitsConcat(first + [LOG], rest);
    VisitsConcat(first, [LOG]);
    OneVisit(LOG);
    Regroup([Acq(GATE)], Visits(first), Visit(LOG), Visits(rest), [Rel(GATE)]);
  }

  lemma OneVisit(l: nat)
    ensures Visits([l]) == Visit(l)
  {
    assert [l][1..] == [];
  }

  lemma Regroup(a: Program, b: Program, c: Program, d: Program, e: Program)
    ensures a + (b + c + d) + e == a + b + c + (d + e)
  {
  }

  lemma StayIf(held: set<nat>, journal: bool)
    requires Below(held, LOG)
    ensures Takes(held, Journalled(Visit(LOG), journal), held)
  {
    Visiting(held, LOG);
  }

  lemma ExpireIsClean(id: nat, journal: bool, appends: bool)
    requires id < SHARDS
    ensures Clean(ExpireProgram(id, journal, appends))
  {
    hide Disciplined, After;
    var gate, s := GateIf(journal), ShardLock(id);
    var all := gate + {s};
    var a, b := Journalled([Acq(GATE)], journal), [Acq(s)];
    var c, d, e := Journalled(Visit(LOG), journal && appends), [Rel(s)], Journalled([Rel(GATE)], journal);
    EnterGate(journal);
    Acquiring(gate, s);
    Chain({}, a, gate, b, all);
    StayIf(all, journal && appends);
    Chain({}, a + b, all, c, all);
    Releasing(all, s);
    assert all - {s} == gate;
    Chain({}, a + b + c, all, d, gate);
    LeaveGate(journal, {});
    assert gate + {} == gate;
    Chain({}, a + b + c + d, gate, e, {});
  }

  // ----- operations -----

  /** The three ways the server takes its locks. */
  datatype Operation =
    | Single(locks: seq<nat>, gated: bool)
    | Multi(ids: seq<nat>, appends: bool)
    | Deadline(id: nat, appends: bool)

  ghost predicate Genuine(op: Operation) {
    match op
    case Single(locks, _) => forall i :: 0 <= i < |locks| ==> 1 <= locks[i] <= LOG
    case Multi(ids, _) => Ascending(ids) && forall i :: 0 <= i < |ids| ==> ids[i] < SHARDS
    case Deadline(id, _) => id < SHARDS
  }

  ghost predicate AllGenuine(ops: seq<Operation>) {
    forall i :: 0 <= i < |ops| ==> Genuine(ops[i])
  }

  function ProgramOf(op: Operation, journal: bool): Program {
    match op
    case Single(locks, gated) => OneAtATime(locks, gated && journal)
    case Multi(ids, appends) => Batch(ids, journal, appends)
    case Deadline(id, appends) => ExpireProgram(id, journal, appends)
  }

  function ProgramsOf(ops: seq<Operation>, journal: bool): Program {
    if ops == [] then [] else ProgramOf(ops[0], journal) + ProgramsOf(ops[1..], journal)
  }

  /** Every operation takes its locks in order and gives them all back, one after another too. */
  lemma {:induction false} ProgramsAreClean(ops: seq<Operation>, journal: bool)
    requires AllGenuine(ops)
    ensures Clean(ProgramsOf(ops, journal))
  {
    if ops != [] {
      hide Disciplined, After;
      match ops[0] {
        case Single(locks, gated) => OneAtATimeIsClean(locks, gated && journal);
        case Multi(ids, appends) => BatchIsClean(ids, journal, appends);
        case Deadline(id, appends) => ExpireIsClean(id, journal, appends);
      }
      ProgramsAreClean(ops[1..], journal);
      Chain({}, ProgramOf(ops[0], journal), {}, ProgramsOf(ops[1..], journal), {});
    }
  }

  // ----- any number of clients -----

  datatype Client = Client(held: set<nat>, rest: Program)

  type Clients = seq<Client>

  ghost predicate Unblocked(cs: Clients, c: nat)
    requires c < |cs|
  {
    && cs[c].rest != []
    && (cs[c].rest[0].Acq? ==> forall d :: 0 <= d < |cs| ==> cs[c].rest[0].lock !in cs[d].held)
  }

  ghost function Step(cs: Clients, c: nat): Clients
    requires c < |cs| && Unblocked(cs, c)
  {
    var i := cs[c].rest[0];
    var held := if i.Acq? then cs[c].held + {i.lock} else cs[c].held - {i.lock};
    cs[c := Client(held, cs[c].rest[1..])]
  }

  /** Client c has the operations work[c] to perform, and holds nothing. */
  ghost predicate Start(cs: Clients, work: seq<seq<Operation>>, journal: bool) {
    && |cs| == |work|
    && forall c :: 0 <= c < |cs| ==>
         cs[c].held == {} && cs[c].rest == ProgramsOf(work[c], journal) && AllGenuine(work[c])
  }

  ghost predicate Orderly(cs: Clients) {
    && (forall c :: 0 <= c < |cs| ==> Takes(cs[c].held, cs[c].rest, {}))
    && (forall c, d :: 0 <= c < d < |cs| ==> cs[c].held !! cs[d].held)
  }

  ghost predicate IsSchedule(run: seq<Clients>, picks: seq<nat>, work: seq<seq<Operation>>, journal: bool) {
    && |run| == |picks| + 1
    && Start(run[0], work, journal)
    && forall i :: 0 <= i < |picks| ==>
         picks[i] < |run[i]| && Unblocked(run[i], picks[i]) && run[i + 1] == Step(run[i], picks[i])
  }

  lemma StepKeepsOrder(cs: Clients, c: nat)
    requires c < |cs| && Unblocked(cs, c) && Orderly(cs)
    ensures Orderly(Step(cs, c))
  {
  }

  /** No lock is ever held twice, in any reachable state. */
  lemma {:induction false} ScheduleIsOrderly(run: seq<Clients>, picks: seq<nat>, work: seq<seq<Operation>>,
                                             journal: bool, i: nat)
    requires IsSchedule(run, picks, work, journal) && i < |run|
    ensures Orderly(run[i])
  {
    hide Takes, Orderly;
    if i > 0 {
      ScheduleIsOrderly(run, picks, work, journal, i - 1);
      StepKeepsOrder(run[i - 1], picks[i - 1]);
    } else {
      StartIsOrderly(run[0], work, journal);
    }
  }

  lemma StartIsOrderly(cs: Clients, work: seq<seq<Operation>>, journal: bool)
    requires Start(cs, work, journal)
    ensures Orderly(cs)
  {
    hide Takes, ProgramsOf;
    forall c | 0 <= c < |cs|
      ensures Takes(cs[c].held, cs[c].rest, {})
    {
      ProgramsAreClean(work[c], journal);
    }
  }

  /** From a client that cannot go on, follow who it waits for: ranks strictly rise, so the chain
      ends at a client that can. */
  lemma {:induction false} FollowTheChain(cs: Clients, c: nat) returns (d: nat)
    requires c < |cs| && Orderly(cs) && cs[c].rest != []
    ensures d < |cs| && Unblocked(cs, d)
    decreases if cs[c].rest[0].Acq? then LOG + 1 - cs[c].rest[0].lock else 0
  {
    if Unblocked(cs, c) {
      return c;
    }
    var l := cs[c].rest[0].lock;
    var owner :| 0 <= owner < |cs| && l in cs[owner].held;
    assert Disciplined(cs[owner].held, cs[owner].rest);
    assert cs[owner].rest != [];
    if cs[owner].rest[0].Rel? {
      return owner;
    }
    d := FollowTheChain(cs, owner);
  }

  /** Deadlock freedom: in every reachable state with an unfinished client, some client can step. */
  lemma NoDeadlock(run: seq<Clients>, picks: seq<nat>, work: seq<seq<Operation>>, journal: bool, i: nat, c: nat)
    requires IsSchedule(run, picks, work, journal) && i < |run| && c < |run[i]| && run[i][c].rest != []
    ensures exists d :: 0 <= d < |run[i]| && Unblocked(run[i], d)
  {
    ScheduleIsOrderly(run, picks, work, journal, i);
    var d := FollowTheChain(run[i], c);
  }
}

/**
 What each write command does to the keyspace, told by its name, its arguments and the instant, with
 numbers in any spelling. Nothing here mentions how commands are decoded or handled; the lemmas say
 that decoding and handling come to this.
 */
module Client {
  import opened Bytes
  import opened Routing
  import opened Keyspace
  import opened Resp
  import opened Commands

  // ----- deadlines -----

  /** A key lives up to its deadline and not at it; without one it lives for good. */
  lemma LivesUntil(ks: Keyspace, k: Key, v: Bytes, dl: Option<int>, t: int)
    ensures Live(ks[k := Item(v, dl)], k, t) <==> dl.None? || t < dl.value
  {
  }

  /** A count is taken if the nanoseconds it comes to are an int64. */
  predicate Takes(text: Bytes, unit: int) {
    ParseInt(text).Some? && MIN_INT64 <= ParseInt(text).value * unit <= MAX_INT64
  }

  lemma CountIsTaken(text: Bytes, unit: int)
    requires unit == 1_000_000_000 || unit == 1_000_000
    ensures Takes(text, unit) ==> ParseTtl(text, unit) == Some(ParseInt(text).value * unit)
    ensures !Takes(text, unit) ==> ParseTtl(text, unit) == None
  {
    hide ParseInt;
    if ParseInt(text).Some? {
      RangeOfCount(ParseInt(text).value, unit);
    }
  }

  lemma RangeOfCount(n: int, unit: int)
    requires unit == 1_000_000_000 || unit == 1_000_000
    ensures -(MAX_INT64 / unit) <= n <= MAX_INT64 / unit <==> MIN_INT64 <= n * unit <= MAX_INT64
  {
    if unit == 1_000_000_000 {
      assert MAX_INT64 / unit == 9_223_372_036;
    } else {
      assert MAX_INT64 / unit == 9_223_372_036_854;
    }
  }

  // ----- SET -----

  lemma SetMeans(ks: Keyspace, k: Key, v: Bytes, now: int)
    ensures ApplyArgs(ks, [SET, k, v], now) == Some(ks[k := Item(v, None)])
  {
    hide Upper;
    UpperNames();
    assert [SET, k, v][1..] == [k, v];
  }

  /** SET with EX or PX: the key lives for that many units from now, if that many is positive and taken. */
  lemma SetForMeans(ks: Keyspace, k: Key, v: Bytes, text: Bytes, now: int)
    ensures ApplyArgs(ks, [SET, k, v, EX, text], now) == StoredFor(ks, k, v, text, 1_000_000_000, now)
    ensures ApplyArgs(ks, [SET, k, v, PX, text], now) == StoredFor(ks, k, v, text, 1_000_000, now)
  {
    hide Upper, ParseTtl, Takes;
    UpperNames();
    UpperOptions();
    CountIsTaken(text, 1_000_000_000);
    CountIsTaken(text, 1_000_000);
    assert [SET, k, v, EX, text][1..] == [k, v, EX, text];
    assert [SET, k, v, PX, text][1..] == [k, v, PX, text];
    TakenIsNumber(text, 1_000_000_000);
    TakenIsNumber(text, 1_000_000);
  }

  function StoredFor(ks: Keyspace, k: Key, v: Bytes, text: Bytes, unit: int, now: int): Option<Keyspace> {
    if Takes(text, unit) && ParseInt(text).value > 0
    then Some(ks[k := Item(v, Some(now + ParseInt(text).value * unit))]) else None
  }

  lemma TakenIsNumber(text: Bytes, unit: int)
    requires unit > 0
    ensures Takes(text, unit) ==>
      ParseInt(text).Some? && (ParseInt(text).value > 0 <==> ParseInt(text).value * unit > 0)
  {
  }

  /** SET with EXAT or PXAT: the same until that instant, and gone if it is not ahead. */
  lemma SetUntilMeans(ks: Keyspace, k: Key, v: Bytes, text: Bytes, now: int)
    ensures ApplyArgs(ks, [SET, k, v, EXAT, text], now) == StoredUntil(ks, k, v, text, 1_000_000_000, now)
    ensures ApplyArgs(ks, [SET, k, v, PXAT, text], now) == StoredUntil(ks, k, v, text, 1_000_000, now)
  {
    hide Upper, ParseTtl, Takes;
    UpperNames();
    UpperOptions();
    CountIsTaken(text, 1_000_000_000);
    CountIsTaken(text, 1_000_000);
    assert [SET, k, v, EXAT, text][1..] == [k, v, EXAT, text];
    assert [SET, k, v, PXAT, text][1..] == [k, v, PXAT, text];
    TakenIsNumber(text, 1_000_000_000);
    TakenIsNumber(text, 1_000_000);
    assert KeySet([k]) == {k};
  }

  function StoredUntil(ks: Keyspace, k: Key, v: Bytes, text: Bytes, unit: int, now: int): Option<Keyspace> {
    if Takes(text, unit) && ParseInt(text).value > 0 then
      var at := ParseInt(text).value * unit;
      Some(if at > now then ks[k := Item(v, Some(at))] else ks - {k})
    else None
  }

  /** An option without its count, or one that is none of the four, is an error. */
  lemma OtherOptionsFail(ks: Keyspace, k: Key, v: Bytes, opt: Bytes, text: Bytes, now: int)
    requires !SameName(opt, EX) && !SameName(opt, PX) && !SameName(opt, EXAT) && !SameName(opt, PXAT)
    ensures ApplyArgs(ks, [SET, k, v, opt, text], now) == None
    ensures Decode([SET, k, v, opt, text]).Rejected? && Decode([SET, k, v, opt]).Rejected?
  {
    hide Upper, ParseTtl, SameName;
    UpperNames();
    UpperOptions();
    SameNameIff(opt, EX);
    SameNameIff(opt, PX);
    SameNameIff(opt, EXAT);
    SameNameIff(opt, PXAT);
    assert [SET, k, v, opt, text][1..] == [k, v, opt, text];
    assert [SET, k, v, opt][1..] == [k, v, opt];
  }

  // ----- MSET -----

  function KeyAt(args: seq<Bytes>, i: nat): Key
    requires 2 * i + 1 < |args|
  {
    args[2 * i]
  }

  function ValAt(args: seq<Bytes>, i: nat): Bytes
    requires 2 * i + 1 < |args|
  {
    args[2 * i + 1]
  }

  /** No later pair has the same key. */
  ghost predicate IsLast(args: seq<Bytes>, i: nat)
    requires 2 * i + 1 < |args|
  {
    forall j :: i < j && 2 * j + 1 < |args| ==> KeyAt(args, j) != KeyAt(args, i)
  }

  ghost predicate HasKey(args: seq<Bytes>, k: Key) {
    exists i: nat :: 2 * i + 1 < |args| && KeyAt(args, i) == k
  }

  lemma {:induction false} LastPairWins(pairs: seq<Pair>, i: nat)
    requires i < |pairs| && forall j :: i < j < |pairs| ==> pairs[j].key != pairs[i].key
    ensures LastAssigned(pairs, pairs[i].key) == Some(pairs[i].val)
  {
    if i < |pairs| - 1 {
      LastPairWins(pairs[..|pairs| - 1], i);
    }
  }

  lemma {:induction false} NoPairNoChange(pairs: seq<Pair>, k: Key)
    requires forall j :: 0 <= j < |pairs| ==> pairs[j].key != k
    ensures LastAssigned(pairs, k) == None
  {
    if pairs != [] {
      NoPairNoChange(pairs[..|pairs| - 1], k);
    }
  }

  /** MSET: of every key the last pair wins, without a deadline; no other key changes; an odd count is an
      error. */
  lemma MSetMeans(ks: Keyspace, args: seq<Bytes>, now: int)
    requires |args| >= 2
    ensures |args| % 2 == 1 ==> ApplyArgs(ks, [MSET] + args, now) == None
    ensures |args| % 2 == 0 ==>
      var r := ApplyArgs(ks, [MSET] + args, now);
      && r.Some?
      && (forall i: nat :: 2 * i + 1 < |args| && IsLast(args, i) ==>
            Look(r.value, KeyAt(args, i)) == Some(Item(ValAt(args, i), None)))
      && (forall k :: HasKey(args, k) || Look(r.value, k) == Look(ks, k))
  {
    hide Upper, AssignAll, LastAssigned;
    UpperNames();
    assert ([MSET] + args)[1..] == args;
    if |args| % 2 == 0 {
      var pairs := PairUp(args);
      var r := AssignAll(ks, pairs);
      forall i: nat | 2 * i + 1 < |args| && IsLast(args, i)
        ensures Look(r, KeyAt(args, i)) == Some(Item(ValAt(args, i), None))
      {
        forall j | i < j < |pairs|
          ensures pairs[j].key != pairs[i].key
        {
          assert KeyAt(args, j) != KeyAt(args, i);
        }
        LastPairWins(pairs, i);
        AssignAllLook(ks, pairs, pairs[i].key);
      }
      forall k
        ensures HasKey(args, k) || Look(r, k) == Look(ks, k)
      {
        if forall j :: 0 <= j < |pairs| ==> pairs[j].key != k {
          NoPairNoChange(pairs, k);
          AssignAllLook(ks, pairs, k);
        } else {
          var j :| 0 <= j < |pairs| && pairs[j].key == k;
          assert KeyAt(args, j) == k;
        }
      }
    }
  }

  // ----- DEL -----

  lemma DelMeans(ks: Keyspace, keys: seq<Key>, now: int)
    requires keys != []
    ensures ApplyArgs(ks, [DEL] + keys, now) == Some(map k | k in ks && k !in keys :: ks[k])
  {
    hide Upper;
    UpperNames();
    assert ([DEL] + keys)[1..] == keys;
    assert ks - KeySet(keys) == map k | k in ks && k !in keys :: ks[k];
  }

  // ----- INCR, DECR -----

  /** One more or one less than a live number, its deadline kept; a key that is not live starts at 0;
      anything else, or a sum that is no int64, is an error. */
  lemma IncrementMeans(ks: Keyspace, k: Key, now: int)
    ensures ApplyArgs(ks, [INCR, k], now) == Counted(ks, k, 1, now)
    ensures ApplyArgs(ks, [DECR, k], now) == Counted(ks, k, -1, now)
  {
    hide Upper, ParseInt, Itoa;
    UpperOthers();
    assert [INCR, k][1..] == [k] && [DECR, k][1..] == [k];
  }

  function Counted(ks: Keyspace, k: Key, delta: int, now: int): Option<Keyspace> {
    if !Live(ks, k, now) then Some(ks[k := Item(Itoa(delta), None)])
    else
      match ParseInt(ks[k].val)
      case None => None
      case Some(n) =>
        if MIN_INT64 <= n + delta <= MAX_INT64 then Some(ks[k := Item(Itoa(n + delta), ks[k].dl)]) else None
  }

  lemma UpperOthers()
    ensures Upper(INCR) == INCR && Upper(DECR) == DECR && Upper(APPEND) == APPEND
  {
  }

  // ----- APPEND -----

  lemma AppendMeans(ks: Keyspace, k: Key, suffix: Bytes, now: int)
    ensures ApplyArgs(ks, [APPEND, k, suffix], now) ==
      Some(ks[k := if Live(ks, k, now) then Item(ks[k].val + suffix, ks[k].dl) else Item(suffix, None)])
  {
    hide Upper;
    UpperOthers();
    assert [APPEND, k, suffix][1..] == [k, suffix];
    assert [] + suffix == suffix;
  }

  // ----- EXPIRE and its kind -----

  /** A live key gets the new deadline if that is ahead, and goes if it is not; a key that has expired
      goes; a missing one stays missing. */
  function Expiring(ks: Keyspace, k: Key, at: int, now: int): Keyspace {
    if k in ks && !Expired(ks[k], now) && at > now then ks[k := Item(ks[k].val, Some(at))] else ks - {k}
  }

  /** EXPIRE and PEXPIRE count from now. */
  lemma ExpireMeans(ks: Keyspace, k: Key, text: Bytes, now: int)
    ensures ApplyArgs(ks, [EXPIRE, k, text], now) ==
      if Takes(text, 1_000_000_000)
      then Some(Expiring(ks, k, now + ParseInt(text).value * 1_000_000_000, now)) else None
    ensures ApplyArgs(ks, [PEXPIRE, k, text], now) ==
      if Takes(text, 1_000_000) then Some(Expiring(ks, k, now + ParseInt(text).value * 1_000_000, now)) else None
  {
    hide Upper, ParseTtl, ParseInt;
    UpperOptions();
    CountIsTaken(text, 1_000_000_000);
    CountIsTaken(text, 1_000_000);
    assert [EXPIRE, k, text][1..] == [k, text] && [PEXPIRE, k, text][1..] == [k, text];
    assert k !in ks ==> ks - {k} == ks;
  }

  /** EXPIREAT and PEXPIREAT count from the epoch. */
  lemma ExpireAtMeans(ks: Keyspace, k: Key, text: Bytes, now: int)
    ensures ApplyArgs(ks, [EXPIREAT, k, text], now) ==
      if Takes(text, 1_000_000_000) then Some(Expiring(ks, k, ParseInt(text).value * 1_000_000_000, now)) else None
    ensures ApplyArgs(ks, [PEXPIREAT, k, text], now) ==
      if Takes(text, 1_000_000) then Some(Expiring(ks, k, ParseInt(text).value * 1_000_000, now)) else None
  {
    hide Upper, ParseTtl, ParseInt;
    UpperNames();
    UpperOptions();
    CountIsTaken(text, 1_000_000_000);
    CountIsTaken(text, 1_000_000);
    assert [EXPIREAT, k, text][1..] == [k, text] && [PEXPIREAT, k, text][1..] == [k, text];
    assert k !in ks ==> ks - {k} == ks;
  }

  // ----- which commands there are -----

  /** The write commands and how many arguments they take; -1 for any number. */
  function Table(): map<Bytes, (nat, int)> {
    map[SET := (2, 4), MSET := (2, -1), INCR := (1, 1), DECR := (1, 1), APPEND := (2, 2), DEL := (1, -1),
        EXPIRE := (2, 2), PEXPIRE := (2, 2), EXPIREAT := (2, 2), PEXPIREAT := (2, 2)]
  }

  /** A command is a write exactly if its name is in the table, in any case, with as many arguments. */
  lemma WritesAreTabled(args: Command)
    requires args != []
    ensures !Decode(args).NotAWrite? <==>
      exists name :: name in Table() && SameName(args[0], name)
        && Table()[name].0 < |args| && (Table()[name].1 >= 0 ==> |args| <= Table()[name].1 + 1)
  {
    hide Upper, ParseTtl, SameName;
    UpperNames();
    UpperOptions();
    UpperOthers();
    forall name | name in Table()
      ensures SameName(args[0], name) <==> Upper(args[0]) == name
    {
      SameNameIff(args[0], name);
    }
    if Upper(args[0]) in Table() {
      assert SameName(args[0], Upper(args[0]));
    }
  }
}

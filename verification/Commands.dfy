/**
 The command table: how arguments become a request, what a request does to the flat keyspace, and
 which journal records the same handlers accept when the log is replayed through them.
 */
module Commands {
  import opened Bytes
  import opened Routing
  import opened Keyspace
  import opened Resp
  import opened Restart

  // ----- names -----

  const SET: Bytes := [83, 69, 84]
  const MSET: Bytes := [77, 83, 69, 84]
  const DEL: Bytes := [68, 69, 76]
  const INCR: Bytes := [73, 78, 67, 82]
  const DECR: Bytes := [68, 69, 67, 82]
  const APPEND: Bytes := [65, 80, 80, 69, 78, 68]
  const EXPIRE: Bytes := [69, 88, 80, 73, 82, 69]
  const PEXPIRE: Bytes := [80, 69, 88, 80, 73, 82, 69]
  const EXPIREAT: Bytes := [69, 88, 80, 73, 82, 69, 65, 84]
  const PEXPIREAT: Bytes := [80, 69, 88, 80, 73, 82, 69, 65, 84]
  const EX: Bytes := [69, 88]
  const PX: Bytes := [80, 88]
  const EXAT: Bytes := [69, 88, 65, 84]
  const PXAT: Bytes := [80, 88, 65, 84]

  /** strings.ToUpper on ASCII letters. */
  function Upper(s: Bytes): Bytes {
    seq(|s|, i requires 0 <= i < |s| => if 97 <= s[i] <= 122 then s[i] - 32 else s[i])
  }

  // ----- arguments -----

  const NS_PER_S: int := 1_000_000_000

  /** parseTTL: a count of units as nanoseconds, when it is an int64 and stays one. Go divides
      toward zero, so the bound is the same on both sides. */
  function ParseTtl(arg: Bytes, unit: int): Option<int>
    requires unit == NS_PER_S || unit == NS_PER_MS
  {
    match ParseInt(arg)
    case None => None
    case Some(n) => if -(MAX_INT64 / unit) <= n <= MAX_INT64 / unit then Some(n * unit) else None
  }

  datatype Request =
    | Set(key: Key, val: Bytes)
    | SetFor(key: Key, val: Bytes, ttl: int)
    | SetUntil(key: Key, val: Bytes, at: int)
    | MSet(pairs: seq<Pair>)
    | Del(keys: seq<Key>)
    | Increment(key: Key, delta: int)
    | AppendTo(key: Key, suffix: Bytes)
    | ExpireIn(key: Key, ttl: int)
    | ExpireAt(key: Key, at: int)

  /** What dispatch makes of a command before running it: a write request, something that is not a
      write command of the right arity, or arguments its handler rejects with an error reply. */
  datatype Decoded = Write(q: Request) | NotAWrite | Rejected

  function PairUp(args: seq<Bytes>): seq<Pair>
    requires |args| % 2 == 0
  {
    seq(|args| / 2, i requires 0 <= i < |args| / 2 => Pair(args[2 * i], args[2 * i + 1]))
  }

  function DecodeSet(a: seq<Bytes>): Decoded
    requires 2 <= |a| <= 4
  {
    if |a| == 2 then Write(Set(a[0], a[1]))
    else if |a| == 3 then Rejected
    else
      var opt := Upper(a[2]);
      if opt !in {EX, PX, EXAT, PXAT} then Rejected
      else
        match ParseTtl(a[3], if opt == EX || opt == EXAT then NS_PER_S else NS_PER_MS)
        case None => Rejected
        case Some(d) =>
          if d <= 0 then Rejected
          else if opt == EXAT || opt == PXAT then Write(SetUntil(a[0], a[1], d))
          else Write(SetFor(a[0], a[1], d))
  }

  function DecodeExpire(a: seq<Bytes>, unit: int, absolute: bool): Decoded
    requires |a| == 2 && (unit == NS_PER_S || unit == NS_PER_MS)
  {
    match ParseTtl(a[1], unit)
    case None => Rejected
    case Some(d) => Write(if absolute then ExpireAt(a[0], d) else ExpireIn(a[0], d))
  }

  function Decode(args: Command): Decoded
    requires args != []
  {
    var name, a := Upper(args[0]), args[1..];
    if name == SET then (if 2 <= |a| <= 4 then DecodeSet(a) else NotAWrite)
    else if name == MSET then
      (if |a| < 2 then NotAWrite else if |a| % 2 != 0 then Rejected else Write(MSet(PairUp(a))))
    else if name == DEL then (if |a| >= 1 then Write(Del(a)) else NotAWrite)
    else if name == INCR then (if |a| == 1 then Write(Increment(a[0], 1)) else NotAWrite)
    else if name == DECR then (if |a| == 1 then Write(Increment(a[0], -1)) else NotAWrite)
    else if name == APPEND then (if |a| == 2 then Write(AppendTo(a[0], a[1])) else NotAWrite)
    else if name == EXPIRE then (if |a| == 2 then DecodeExpire(a, NS_PER_S, false) else NotAWrite)
    else if name == PEXPIRE then (if |a| == 2 then DecodeExpire(a, NS_PER_MS, false) else NotAWrite)
    else if name == EXPIREAT then (if |a| == 2 then DecodeExpire(a, NS_PER_S, true) else NotAWrite)
    else if name == PEXPIREAT then (if |a| == 2 then DecodeExpire(a, NS_PER_MS, true) else NotAWrite)
    else NotAWrite
  }

  // ----- handlers -----

  /** What a write request does at instant `now`. */
  function Handle(ks: Keyspace, q: Request, now: int): Effect {
    match q
    case Set(k, v) => SetEffect(ks, k, Item(v, None))
    case SetFor(k, v, ttl) =>
      if ttl <= 0 then DelEffect(ks, [k]) else SetEffect(ks, k, Item(v, Some(now + ttl)))
    case SetUntil(k, v, at) =>
      if at <= now then DelEffect(ks, [k]) else SetEffect(ks, k, Item(v, Some(at)))
    case MSet(pairs) => MSetEffect(ks, pairs)
    case Del(keys) => DelEffect(ks, keys)
    case Increment(k, delta) => IncrementEffect(ks, k, delta, now)
    case AppendTo(k, suffix) => AppendEffect(ks, k, suffix, now)
    case ExpireIn(k, ttl) => ExpireAtEffect(ks, k, now + ttl, now)
    case ExpireAt(k, at) => ExpireAtEffect(ks, k, at, now)
  }

  /** The handler answers with an error reply. */
  predicate Fails(ks: Keyspace, q: Request, now: int) {
    q.Increment? && Bumped(Fresh(Look(ks, q.key), now), q.delta).None?
  }

  /** What a command leaves of the keyspace; None if it is not a write that its handler takes. */
  function ApplyArgs(ks: Keyspace, args: Command, now: int): Option<Keyspace>
    requires args != []
  {
    match Decode(args)
    case Write(q) => if Fails(ks, q, now) then None else Some(Handle(ks, q, now).ks)
    case _ => None
  }

  // ----- records -----

  function Flatten(pairs: seq<Pair>): seq<Bytes> {
    seq(2 * |pairs|, i requires 0 <= i < 2 * |pairs| =>
      if i % 2 == 0 then pairs[i / 2].key else pairs[i / 2].val)
  }

  /** The arguments handed to Journal.Append. */
  function ToArgs(r: Rec): Command {
    match r
    case RSet(k, v, None) => [SET, k, v]
    case RSet(k, v, Some(ms)) => [SET, k, v, PXAT, Itoa(ms)]
    case RMSet(pairs) => [MSET] + Flatten(pairs)
    case RDel(keys) => [DEL] + keys
    case RExpireAt(k, ms) => [PEXPIREAT, k, Itoa(ms)]
  }

  lemma ArgsAreNamed(r: Rec)
    ensures ToArgs(r) != []
  {
  }

  function RequestOf(r: Rec): Request {
    match r
    case RSet(k, v, None) => Set(k, v)
    case RSet(k, v, Some(ms)) => SetUntil(k, v, ms * NS_PER_MS)
    case RMSet(pairs) => MSet(pairs)
    case RDel(keys) => Del(keys)
    case RExpireAt(k, ms) => ExpireAt(k, ms * NS_PER_MS)
  }

  const MAX_MS: int := 9_223_372_036_854

  function ArgsAll(recs: seq<Rec>): seq<Command> {
    seq(|recs|, i requires 0 <= i < |recs| => ToArgs(recs[i]))
  }

  lemma ArgsConcat(a: seq<Rec>, b: seq<Rec>)
    ensures ArgsAll(a + b) == ArgsAll(a) + ArgsAll(b)
  {
  }

  /** A record that the handlers will take back. */
  predicate Replayable(r: Rec) {
    match r
    case RSet(_, _, None) => true
    case RSet(_, _, Some(ms)) => 0 < ms <= MAX_MS
    case RMSet(pairs) => pairs != []
    case RDel(keys) => keys != []
    case RExpireAt(_, ms) => -MAX_MS <= ms <= MAX_MS
  }

  lemma MillisParse(ms: int)
    ensures ParseTtl(Itoa(ms), NS_PER_MS) == if -MAX_MS <= ms <= MAX_MS then Some(ms * NS_PER_MS) else None
  {
    hide ParseInt, Itoa;
    ItoaParses(ms);
  }

  lemma UpperNames()
    ensures Upper(SET) == SET && Upper(MSET) == MSET && Upper(DEL) == DEL
    ensures Upper(PEXPIREAT) == PEXPIREAT && Upper(PXAT) == PXAT
  {
  }

  lemma PairsSurvive(pairs: seq<Pair>)
    ensures PairUp(Flatten(pairs)) == pairs
  {
  }

  /** Replay runs the real handlers: a record is accepted, and as exactly the request it stands
      for, if and only if it is replayable; a deadline must be positive for SET, and its
      milliseconds must still be an int64 when counted in nanoseconds. */
  lemma RecordsReplay(r: Rec)
    ensures Decode(ToArgs(r)) == Write(RequestOf(r)) <==> Replayable(r)
    ensures !Replayable(r) ==> !Decode(ToArgs(r)).Write?
  {
    hide ParseTtl, Itoa, Upper;
    UpperNames();
    match r
    case RSet(k, v, at) =>
      if at.Some? {
        MillisParse(at.value);
        assert ToArgs(r)[1..] == [k, v, PXAT, Itoa(at.value)];
      } else {
        assert ToArgs(r)[1..] == [k, v];
      }
    case RMSet(pairs) =>
      assert ToArgs(r)[1..] == Flatten(pairs);
      PairsSurvive(pairs);
    case RDel(keys) =>
      assert ToArgs(r)[1..] == keys;
    case RExpireAt(k, ms) =>
      MillisParse(ms);
      assert ToArgs(r)[1..] == [k, Itoa(ms)];
  }

  /** And what it does then is the replay of the record. */
  lemma HandlersReplay(ks: Keyspace, r: Rec, t: int)
    ensures Handle(ks, RequestOf(r), t).ks == ReplayRec(ks, r, t)
    ensures !Fails(ks, RequestOf(r), t)
  {
  }

  // ----- an accepted write that cannot be replayed -----

  /** A relative expiry can be in range while the absolute deadline it leads to is not: the write is
      accepted and its record refused at the next start. */
  lemma FarDeadlineIsAcceptedButUnreplayable(k: Key, v: Bytes, now: int)
    requires now >= NS_PER_MS
    ensures var args := [SET, k, v, PX, Itoa(MAX_MS)];
      && Decode(args) == Write(SetFor(k, v, MAX_MS * NS_PER_MS))
      && forall r :: r in Handle(map[], Decode(args).q, now).recs ==> !Decode(ToArgs(r)).Write?
  {
    hide ParseTtl, Itoa, Upper;
    var args := [SET, k, v, PX, Itoa(MAX_MS)];
    UpperNames();
    UpperOptions();
    assert args[1..] == [k, v, PX, Itoa(MAX_MS)];
    MillisParse(MAX_MS);
    var q := SetFor(k, v, MAX_MS * NS_PER_MS);
    forall r | r in Handle(map[], q, now).recs
      ensures !Decode(ToArgs(r)).Write?
    {
      RecordsReplay(r);
    }
  }

  // ----- the forms a client may use -----

  /** The same letter, or the same other byte. */
  predicate SameLetter(a: byte, b: byte) {
    a == b || (65 <= a <= 90 && b == a + 32) || (65 <= b <= 90 && a == b + 32)
  }

  predicate SameName(a: Bytes, b: Bytes) {
    |a| == |b| && forall i :: 0 <= i < |a| ==> SameLetter(a[i], b[i])
  }

  lemma SameNameIff(a: Bytes, b: Bytes)
    ensures Upper(a) == Upper(b) <==> SameName(a, b)
  {
    if Upper(a) == Upper(b) {
      assert |Upper(a)| == |a| && |Upper(b)| == |b|;
      forall i | 0 <= i < |a|
        ensures SameLetter(a[i], b[i])
      {
        assert Upper(a)[i] == Upper(b)[i];
      }
    }
  }

  /** Command names, and the names of SET's options, are case-insensitive in the letters A to Z. */
  lemma NamesIgnoreCase(args: Command, name: Bytes, opt: Bytes)
    requires args != [] && SameName(name, args[0])
    ensures Decode([name] + args[1..]) == Decode(args)
    ensures |args| == 5 && Upper(name) == SET && SameName(opt, args[3]) ==> Decode(args[3 := opt]) == Decode(args)
  {
    hide Upper, DecodeExpire, PairUp, SameName, ParseTtl;
    SameNameIff(name, args[0]);
    assert ([name] + args[1..])[1..] == args[1..];
    if |args| == 5 {
      SameNameIff(opt, args[3]);
      var a, b := args[1..], args[3 := opt][1..];
      assert b == a[2 := opt];
    }
  }

  /** So `set` is SET, `incr` is INCR and `pxat` is PXAT. */
  lemma LowerCaseIsTaken(k: Key, v: Bytes, n: Bytes)
    ensures Decode([[115, 101, 116], k, v]) == Decode([SET, k, v])
    ensures Decode([[105, 110, 99, 114], k]) == Decode([INCR, k])
    ensures Decode([SET, k, v, [112, 120, 97, 116], n]) == Decode([SET, k, v, PXAT, n])
  {
    hide Decode, Upper;
    NamesIgnoreCase([SET, k, v], [115, 101, 116], []);
    assert [[115, 101, 116]] + [SET, k, v][1..] == [[115, 101, 116], k, v];
    NamesIgnoreCase([INCR, k], [105, 110, 99, 114], []);
    assert [[105, 110, 99, 114]] + [INCR, k][1..] == [[105, 110, 99, 114], k];
    UpperNames();
    NamesIgnoreCase([SET, k, v, PXAT, n], SET, [112, 120, 97, 116]);
    assert [SET, k, v, PXAT, n][3 := [112, 120, 97, 116]] == [SET, k, v, [112, 120, 97, 116], n];
  }

  lemma SecondsParse(n: int)
    ensures ParseTtl(Itoa(n), NS_PER_S) == ParseTtl(Itoa(1000 * n), NS_PER_MS)
  {
    hide ParseInt, Itoa;
    ItoaParses(n);
    ItoaParses(1000 * n);
  }

  lemma UpperOptions()
    ensures Upper(EX) == EX && Upper(PX) == PX && Upper(EXAT) == EXAT
    ensures Upper(EXPIRE) == EXPIRE && Upper(PEXPIRE) == PEXPIRE && Upper(EXPIREAT) == EXPIREAT
  {
  }

  /** Every form in seconds is, for every count, accepted or rejected, the form in milliseconds with
      a thousand times the count; and SET's relative and absolute options differ only in that. */
  lemma SecondsAreMillis(k: Key, v: Bytes, n: int)
    ensures Decode([SET, k, v, EX, Itoa(n)]) == Decode([SET, k, v, PX, Itoa(1000 * n)])
    ensures Decode([SET, k, v, EXAT, Itoa(n)]) == Decode([SET, k, v, PXAT, Itoa(1000 * n)])
    ensures Decode([EXPIRE, k, Itoa(n)]) == Decode([PEXPIRE, k, Itoa(1000 * n)])
    ensures Decode([EXPIREAT, k, Itoa(n)]) == Decode([PEXPIREAT, k, Itoa(1000 * n)])
  {
    hide ParseTtl, Itoa, Upper;
    UpperNames();
    UpperOptions();
    SecondsParse(n);
    assert [SET, k, v, EX, Itoa(n)][1..] == [k, v, EX, Itoa(n)];
    assert [SET, k, v, PX, Itoa(1000 * n)][1..] == [k, v, PX, Itoa(1000 * n)];
    assert [SET, k, v, EXAT, Itoa(n)][1..] == [k, v, EXAT, Itoa(n)];
    assert [SET, k, v, PXAT, Itoa(1000 * n)][1..] == [k, v, PXAT, Itoa(1000 * n)];
    assert [EXPIRE, k, Itoa(n)][1..] == [k, Itoa(n)];
    assert [PEXPIRE, k, Itoa(1000 * n)][1..] == [k, Itoa(1000 * n)];
    assert [EXPIREAT, k, Itoa(n)][1..] == [k, Itoa(n)];
    assert [PEXPIREAT, k, Itoa(1000 * n)][1..] == [k, Itoa(1000 * n)];
  }
}

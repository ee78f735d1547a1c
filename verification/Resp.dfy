/**
 The command encoding of RESP2 (arrays of bulk strings): the canonical encoder, the stream
 parser with its four outcomes, the round trip between them, and the classification of every
 proper prefix of an encoding.
 */
module Resp {
  import opened Bytes

  type Command = seq<Bytes>

  const MAX_BULK: nat := 512 * 1024 * 1024
  const MAX_ARRAY: nat := 1024 * 1024
  const READER_BUF: nat := 16 * 1024

  const STAR: byte := 42
  const DOLLAR: byte := 36
  const CRLF: Bytes := [CR, LF]

  /** What reading from the front of a stream can give: a value and what is left of the stream,
      a clean end of stream, an end of stream inside a value, or bytes that are not RESP. */
  datatype Outcome<+T> = Got(value: T, rest: Bytes) | Eof | Truncated | Malformed

  // ----- encoder -----

  function CountLine(typ: byte, n: int): Bytes {
    [typ] + Itoa(n) + CRLF
  }

  function Bulk(p: Bytes): Bytes {
    CountLine(DOLLAR, |p|) + p + CRLF
  }

  function Bulks(args: Command): Bytes {
    if args == [] then [] else Bulk(args[0]) + Bulks(args[1..])
  }

  function Encode(args: Command): Bytes {
    CountLine(STAR, |args|) + Bulks(args)
  }

  /** The commands the log may carry: at least a name, and within the reader's limits. */
  predicate InLimits(args: Command) {
    && 1 <= |args| <= 1024 * 1024
    && forall i :: 0 <= i < |args| ==> |args[i]| <= 512 * 1024 * 1024
  }

  // ----- parser -----

  /** Position of the first LF, or |s| when there is none. */
  function FirstLf(s: Bytes): (i: nat)
    ensures i <= |s|
    ensures forall j :: 0 <= j < i ==> s[j] != LF
    ensures i < |s| ==> s[i] == LF
  {
    if s == [] || s[0] == LF then 0 else 1 + FirstLf(s[1..])
  }

  function ReadLine(s: Bytes): Outcome<Bytes> {
    var i := FirstLf(s);
    if i < |s| && i < READER_BUF then
      if i < 2 || s[i - 1] != CR then Malformed  // bare LF, or an empty line
      else Got(s[..i - 1], s[i + 1..])
    else if |s| >= READER_BUF then Malformed  // the line does not fit the buffer
    else if s == [] then Eof
    else Truncated
  }

  /** The count after the type byte of a header line, when it is a number in 0..limit. */
  function HeaderCount(line: Bytes, typ: byte, limit: nat): Option<nat>
    requires line != []
  {
    if line[0] != typ then None
    else
      match ParseInt(line[1..])
      case Some(n) => if 0 <= n <= limit then Some(n) else None
      case None => None
  }

  function ParseBulk(s: Bytes): Outcome<Bytes> {
    match ReadLine(s)
    case Eof => Truncated
    case Truncated => Truncated
    case Malformed => Malformed
    case Got(line, r) =>
      match HeaderCount(line, DOLLAR, MAX_BULK)
      case None => Malformed
      case Some(n) =>
        if |r| < n + 2 then Truncated
        else if r[n] != CR || r[n + 1] != LF then Malformed
        else Got(r[..n], r[n + 2..])
  }

  function ParseBulks(n: nat, s: Bytes): Outcome<Command> {
    if n == 0 then Got([], s)
    else
      match ParseBulk(s)
      case Eof => Eof
      case Truncated => Truncated
      case Malformed => Malformed
      case Got(arg, r) => Prepend([arg], ParseBulks(n - 1, r))
  }

  function Prepend(args: Command, o: Outcome<Command>): Outcome<Command> {
    match o
    case Got(more, r) => Got(args + more, r)
    case _ => o
  }

  function ParseCommand(s: Bytes): Outcome<Command> {
    match ReadLine(s)
    case Eof => Eof
    case Truncated => Truncated
    case Malformed => Malformed
    case Got(line, r) =>
      match HeaderCount(line, STAR, MAX_ARRAY)
      case None => Malformed
      case Some(n) => ParseBulks(n, r)
  }

  // ----- header lines -----

  lemma {:induction false} FirstLfIs(s: Bytes, i: nat)
    requires i <= |s|
    requires forall j :: 0 <= j < i ==> s[j] != LF
    requires i < |s| ==> s[i] == LF
    ensures FirstLf(s) == i
  {
  }

  lemma CountLineShape(typ: byte, n: int)
    requires 0 <= n < 1_000_000_000 && typ != LF
    ensures var c := CountLine(typ, n);
      && 4 <= |c| <= 12
      && c == c[..|c| - 2] + CRLF
      && c[0] == typ
      && c[1..|c| - 2] == Itoa(n)
      && (forall j :: 0 <= j < |c| - 1 ==> c[j] != LF)
  {
    ItoaShape(n);
    var c := CountLine(typ, n);
    assert c[1..|c| - 2] == Itoa(n);
    forall j | 0 <= j < |c| - 1
      ensures c[j] != LF
    {
      if 1 <= j < |c| - 2 {
        assert c[j] == Itoa(n)[j - 1];
      }
    }
  }

  lemma CountLineReads(typ: byte, n: int, limit: nat, rest: Bytes)
    requires 0 <= n < 1_000_000_000 && n <= limit && typ != LF
    ensures var c := CountLine(typ, n);
      && ReadLine(c + rest) == Got(c[..|c| - 2], rest)
      && HeaderCount(c[..|c| - 2], typ, limit) == Some(n)
  {
    var c := CountLine(typ, n);
    CountLineShape(typ, n);
    ItoaParsesBack(n);
    FirstLfIs(c + rest, |c| - 1);
    assert (c + rest)[..|c| - 2] == c[..|c| - 2];
    assert (c + rest)[|c|..] == rest;
    assert c[..|c| - 2][1..] == Itoa(n);
  }

  lemma CountLinePrefix(typ: byte, n: int, k: nat)
    requires 0 <= n < 1_000_000_000 && typ != LF
    requires k < |CountLine(typ, n)|
    ensures ReadLine(CountLine(typ, n)[..k]) == if k == 0 then Eof else Truncated
  {
    CountLineShape(typ, n);
    FirstLfIs(CountLine(typ, n)[..k], k);
  }

  // ----- bulk strings -----

  lemma BulkReads(p: Bytes, rest: Bytes)
    requires |p| <= MAX_BULK
    ensures ParseBulk(Bulk(p) + rest) == Got(p, rest)
  {
    var c := CountLine(DOLLAR, |p|);
    var r := p + CRLF + rest;
    assert Bulk(p) + rest == c + r;
    CountLineReads(DOLLAR, |p|, MAX_BULK, r);
    CountLineShape(DOLLAR, |p|);
    assert r[..|p|] == p;
    assert r[|p| + 2..] == rest;
  }

  lemma BulkPrefix(p: Bytes, k: nat)
    requires |p| <= MAX_BULK && k < |Bulk(p)|
    ensures ParseBulk(Bulk(p)[..k]) == Truncated
  {
    var c := CountLine(DOLLAR, |p|);
    if k < |c| {
      assert Bulk(p)[..k] == c[..k];
      CountLinePrefix(DOLLAR, |p|, k);
    } else {
      var r := Bulk(p)[|c|..k];
      assert Bulk(p)[..k] == c + r;
      CountLineReads(DOLLAR, |p|, MAX_BULK, r);
      CountLineShape(DOLLAR, |p|);
    }
  }

  lemma {:induction false} BulksRead(args: Command, rest: Bytes)
    requires forall i :: 0 <= i < |args| ==> |args[i]| <= MAX_BULK
    ensures ParseBulks(|args|, Bulks(args) + rest) == Got(args, rest)
  {
    hide Bulk, ParseBulk;
    if args == [] {
      assert Bulks(args) + rest == rest;
    } else {
      var tail := Bulks(args[1..]) + rest;
      assert Bulks(args) + rest == Bulk(args[0]) + tail;
      BulkReads(args[0], tail);
      BulksRead(args[1..], rest);
      assert [args[0]] + args[1..] == args;
    }
  }

  lemma {:induction false} BulksPrefix(args: Command, k: nat)
    requires forall i :: 0 <= i < |args| ==> |args[i]| <= MAX_BULK
    requires k < |Bulks(args)|
    ensures ParseBulks(|args|, Bulks(args)[..k]) == Truncated
  {
    hide Bulk, ParseBulk;
    var b := Bulk(args[0]);
    if k < |b| {
      assert Bulks(args)[..k] == b[..k];
      BulkPrefix(args[0], k);
    } else {
      var tail := Bulks(args[1..]);
      assert Bulks(args)[..k] == b + tail[..k - |b|];
      BulkReads(args[0], tail[..k - |b|]);
      BulksPrefix(args[1..], k - |b|);
    }
  }

  lemma {:induction false} BulksSnoc(args: Command, i: nat)
    requires i < |args|
    ensures Bulks(args[..i + 1]) == Bulks(args[..i]) + Bulk(args[i])
  {
    hide Bulk;
    if i == 0 {
      assert args[..1] == [args[0]] && args[..0] == [];
    } else {
      BulksSnoc(args[1..], i - 1);
      assert args[..i + 1][1..] == args[1..][..i];
      assert args[..i][1..] == args[1..][..i - 1];
      Assoc(Bulk(args[0]), Bulks(args[1..][..i - 1]), Bulk(args[i]));
    }
  }

  lemma Assoc(a: Bytes, b: Bytes, c: Bytes)
    ensures a + b + c == a + (b + c)
  {
  }

  // ----- whole commands -----

  /** Reading an encoding followed by anything gives the arguments back and leaves exactly the
      rest, whatever bytes the payloads hold. */
  lemma RoundTrip(args: Command, rest: Bytes)
    requires InLimits(args)
    ensures ParseCommand(Encode(args) + rest) == Got(args, rest)
  {
    var c := CountLine(STAR, |args|);
    var r := Bulks(args) + rest;
    assert Encode(args) + rest == c + r;
    CountLineReads(STAR, |args|, MAX_ARRAY, r);
    CountLineShape(STAR, |args|);
    BulksRead(args, rest);
  }

  // ----- commands beyond the limits -----

  lemma LongLineTurnedDown(typ: byte, n: nat, limit: nat, rest: Bytes)
    requires n > limit && typ != LF
    ensures var o := ReadLine(CountLine(typ, n) + rest);
      o.Malformed? || (o.Got? && HeaderCount(o.value, typ, limit).None?)
  {
    hide Itoa, ParseInt;
    var c := CountLine(typ, n);
    ItoaParses(n);
    ItoaIsDigits(n);
    forall j | 0 <= j < |c| - 1
      ensures c[j] != LF
    {
      if 1 <= j < |c| - 2 {
        assert c[j] == Itoa(n)[j - 1];
      }
    }
    FirstLfIs(c + rest, |c| - 1);
    var line := (c + rest)[..|c| - 2];
    assert line[1..] == Itoa(n);
  }

  lemma ItoaIsDigits(n: nat)
    ensures Itoa(n) != [] && forall i :: 0 <= i < |Itoa(n)| ==> IsDigit(Itoa(n)[i])
  {
    DigitsParseBack(n);
  }

  lemma LongBulkTurnedDown(p: Bytes, rest: Bytes)
    requires |p| > MAX_BULK
    ensures ParseBulk(Bulk(p) + rest) == Malformed
  {
    hide CountLine, ReadLine;
    var r := p + CRLF + rest;
    assert Bulk(p) + rest == CountLine(DOLLAR, |p|) + r;
    LongLineTurnedDown(DOLLAR, |p|, MAX_BULK, r);
  }

  lemma {:induction false} LongBulksTurnedDown(args: Command, i: nat, rest: Bytes)
    requires i < |args| && |args[i]| > MAX_BULK
    ensures ParseBulks(|args|, Bulks(args) + rest) == Malformed
  {
    hide Bulk, ParseBulk;
    var tail := Bulks(args[1..]) + rest;
    assert Bulks(args) + rest == Bulk(args[0]) + tail;
    if |args[0]| > MAX_BULK {
      LongBulkTurnedDown(args[0], tail);
    } else {
      BulkReads(args[0], tail);
      LongBulksTurnedDown(args[1..], i - 1, rest);
    }
  }

  /** A command reads back from its encoding if and only if it is within the limits; beyond them it is
      a protocol error. */
  lemma ReadsBackIff(args: Command, rest: Bytes)
    requires args != []
    ensures ParseCommand(Encode(args) + rest) == if InLimits(args) then Got(args, rest) else Malformed
  {
    hide CountLine, ReadLine, Bulks, ParseBulks;
    if InLimits(args) {
      RoundTrip(args, rest);
    } else {
      var r := Bulks(args) + rest;
      assert Encode(args) + rest == CountLine(STAR, |args|) + r;
      if |args| > MAX_ARRAY {
        LongLineTurnedDown(STAR, |args|, MAX_ARRAY, r);
      } else {
        var i :| 0 <= i < |args| && |args[i]| > MAX_BULK;
        CountLineReads(STAR, |args|, MAX_ARRAY, r);
        CountLineShape(STAR, |args|);
        LongBulksTurnedDown(args, i, rest);
      }
    }
  }

  /** A command cut anywhere inside is a truncation, never a protocol error and never a command;
      cut before its first byte it is a clean end of stream. */
  lemma PrefixIsTruncated(args: Command, k: nat)
    requires InLimits(args) && k < |Encode(args)|
    ensures ParseCommand(Encode(args)[..k]) == if k == 0 then Eof else Truncated
  {
    var c := CountLine(STAR, |args|);
    if k < |c| {
      assert Encode(args)[..k] == c[..k];
      CountLinePrefix(STAR, |args|, k);
    } else {
      var b := Bulks(args);
      assert Encode(args)[..k] == c + b[..k - |c|];
      CountLineReads(STAR, |args|, MAX_ARRAY, b[..k - |c|]);
      CountLineShape(STAR, |args|);
      BulksPrefix(args, k - |c|);
    }
  }

  lemma ParseBulkConsumes(s: Bytes)
    ensures ParseBulk(s).Got? ==> |ParseBulk(s).rest| <= |s|
  {
  }

  lemma {:induction false} ParseBulksNeverEof(n: nat, s: Bytes)
    ensures !ParseBulks(n, s).Eof?
    ensures ParseBulks(n, s).Got? ==> |ParseBulks(n, s).value| == n && |ParseBulks(n, s).rest| <= |s|
  {
    hide ReadLine, HeaderCount;
    if n > 0 && ParseBulk(s).Got? {
      ParseBulkConsumes(s);
      ParseBulksNeverEof(n - 1, ParseBulk(s).rest);
    }
  }

  /** A clean end of stream is reported exactly when no byte is left; a command always consumes
      at least one byte. */
  lemma EofIffEmpty(s: Bytes)
    ensures ParseCommand(s).Eof? <==> s == []
    ensures ParseCommand(s).Got? ==> |ParseCommand(s).rest| < |s|
  {
    match ReadLine(s)
    case Got(line, r) =>
      match HeaderCount(line, STAR, MAX_ARRAY) {
        case None =>
        case Some(n) => ParseBulksNeverEof(n, r);
      }
    case _ =>
  }

  // ----- streams -----

  lemma {:induction false} FirstLfStable(s: Bytes, t: Bytes)
    requires FirstLf(s) < |s|
    ensures FirstLf(s + t) == FirstLf(s)
  {
    FirstLfIs(s + t, FirstLf(s));
  }

  lemma ReadLineStable(s: Bytes, t: Bytes)
    requires ReadLine(s).Got?
    ensures ReadLine(s + t) == Got(ReadLine(s).value, ReadLine(s).rest + t)
  {
    FirstLfStable(s, t);
    var i := FirstLf(s);
    assert (s + t)[..i - 1] == s[..i - 1];
    assert (s + t)[i + 1..] == s[i + 1..] + t;
  }

  lemma ParseBulkStable(s: Bytes, t: Bytes)
    requires ParseBulk(s).Got?
    ensures ParseBulk(s + t) == Got(ParseBulk(s).value, ParseBulk(s).rest + t)
  {
    ReadLineStable(s, t);
    var r := ReadLine(s).rest;
    var n := HeaderCount(ReadLine(s).value, DOLLAR, MAX_BULK).value;
    assert (r + t)[..n] == r[..n];
    assert (r + t)[n + 2..] == r[n + 2..] + t;
  }

  lemma {:induction false} ParseBulksStable(n: nat, s: Bytes, t: Bytes)
    requires ParseBulks(n, s).Got?
    ensures ParseBulks(n, s + t) == Got(ParseBulks(n, s).value, ParseBulks(n, s).rest + t)
  {
    hide ParseBulk;
    if n > 0 {
      var first := ParseBulk(s);
      ParseBulkStable(s, t);
      var more := ParseBulks(n - 1, first.rest);
      assert more.Got?;
      ParseBulksStable(n - 1, first.rest, t);
      assert ParseBulks(n, s + t) == Prepend([first.value], ParseBulks(n - 1, first.rest + t));
    }
  }

  /** How the bytes arrive does not matter: once a command has been read, later bytes change
      neither it nor where the next one starts. */
  lemma CommandStable(s: Bytes, t: Bytes)
    requires ParseCommand(s).Got?
    ensures ParseCommand(s + t) == Got(ParseCommand(s).value, ParseCommand(s).rest + t)
  {
    ReadLineStable(s, t);
    var r := ReadLine(s).rest;
    ParseBulksStable(HeaderCount(ReadLine(s).value, STAR, MAX_ARRAY).value, r, t);
  }
}

/**
 Which byte streams are commands, which are broken and which are merely unfinished, told by how they
 are spelt and not by how they are read; and that the parser gives exactly that verdict on each.
 */
module Grammar {
  import opened Bytes
  import opened Resp
  import opened Frames

  // ----- how streams are spelt -----

  /** A count in any spelling that strconv takes, short enough for the reader's buffer. */
  predicate Spells(text: Bytes, n: int, limit: nat) {
    ParseInt(text) == Some(n) && 0 <= n <= limit && |text| + 3 <= READER_BUF
  }

  function Header(typ: byte, text: Bytes): Bytes {
    [typ] + text + CRLF
  }

  /** A bulk string with its length as somebody spelt it. */
  datatype Spelt = Spelt(text: Bytes, payload: Bytes)

  predicate GoodBulk(b: Spelt) {
    Spells(b.text, |b.payload|, MAX_BULK)
  }

  predicate GoodBulks(bs: seq<Spelt>) {
    forall i :: 0 <= i < |bs| ==> GoodBulk(bs[i])
  }

  function BulkCode(b: Spelt): Bytes {
    Header(DOLLAR, b.text) + b.payload + CRLF
  }

  function BulksCode(bs: seq<Spelt>): Bytes {
    if bs == [] then [] else BulkCode(bs[0]) + BulksCode(bs[1..])
  }

  function Payloads(bs: seq<Spelt>): Command {
    seq(|bs|, i requires 0 <= i < |bs| => bs[i].payload)
  }

  /** What a header line must look like, up to its LF. */
  predicate IsHeaderLine(line: Bytes, typ: byte, limit: nat) {
    && |line| >= 2 && line[0] == typ && line[|line| - 1] == CR
    && var n := ParseInt(line[1..|line| - 1]);
       n.Some? && 0 <= n.value <= limit
  }

  /** The stream begins with a line, or with as many bytes as the buffer takes without one, that is no
      header of this type. */
  ghost predicate BadLine(s: Bytes, typ: byte, limit: nat) {
    || (|s| >= 16 * 1024 && forall j :: 0 <= j < 16 * 1024 ==> s[j] != LF)
    || exists i :: 0 <= i < |s| && s[i] == LF && i < 16 * 1024 && NoLf(s[..i]) && !IsHeaderLine(s[..i], typ, limit)
  }

  predicate NoLf(s: Bytes) {
    forall j :: 0 <= j < |s| ==> s[j] != LF
  }

  /** The stream ends inside a line that may still become a header. */
  predicate OpenLine(s: Bytes) {
    NoLf(s) && |s| < 16 * 1024
  }

  /** No bulk string can start like this: its header is none, or its payload is not followed by CRLF. */
  ghost predicate BadBulk(s: Bytes) {
    || BadLine(s, DOLLAR, MAX_BULK)
    || exists b: Spelt, a: byte, c: byte, rest: Bytes ::
         GoodBulk(b) && [a, c] != CRLF && s == Header(DOLLAR, b.text) + b.payload + [a, c] + rest
  }

  /** A bulk string that has not all arrived. */
  ghost predicate OpenBulk(s: Bytes) {
    || OpenLine(s)
    || exists text: Bytes, n: int, part: Bytes ::
         Spells(text, n, MAX_BULK) && |part| < n + 2 && s == Header(DOLLAR, text) + part
  }

  /** An array header, as many bulk strings as it promises, and the rest of the stream. */
  ghost predicate IsCommand(s: Bytes, args: Command, rest: Bytes) {
    exists text: Bytes, bs: seq<Spelt> ::
      && Spells(text, |bs|, MAX_ARRAY) && GoodBulks(bs) && Payloads(bs) == args
      && s == Header(STAR, text) + BulksCode(bs) + rest
  }

  /** No array header at the front; or one, fewer bulk strings than it promises, and then none. */
  ghost predicate IsBroken(s: Bytes) {
    || BadLine(s, STAR, MAX_ARRAY)
    || exists text: Bytes, n: int, bs: seq<Spelt>, r: Bytes ::
         BadBulk(r) && Reaches(text, n, bs, r, s)
  }

  ghost predicate IsUnfinished(s: Bytes) {
    || (s != [] && OpenLine(s))
    || exists text: Bytes, n: int, bs: seq<Spelt>, r: Bytes ::
         OpenBulk(r) && Reaches(text, n, bs, r, s)
  }

  /** s is an array header for n bulk strings, some but not all of them, and then r. */
  ghost predicate Reaches(text: Bytes, n: int, bs: seq<Spelt>, r: Bytes, s: Bytes) {
    && Spells(text, n, MAX_ARRAY) && |bs| < n && GoodBulks(bs)
    && s == Header(STAR, text) + (BulksCode(bs) + r)
  }

  // ----- lines -----

  lemma {:induction false} DigitsHaveNoLf(s: Bytes)
    requires DigitsValue(s).Some?
    ensures NoLf(s)
  {
    if s != [] {
      DigitsHaveNoLf(s[..|s| - 1]);
    }
  }

  lemma SpeltHasNoLf(text: Bytes)
    requires ParseInt(text).Some?
    ensures NoLf(text) && text != []
  {
    hide DigitsValue;
    var signed := text[0] == PLUS || text[0] == MINUS;
    DigitsHaveNoLf(if signed then text[1..] else text);
  }

  lemma HeaderReads(typ: byte, text: Bytes, n: int, limit: nat, rest: Bytes)
    requires Spells(text, n, limit) && typ != LF
    ensures ReadLine(Header(typ, text) + rest) == Got([typ] + text, rest)
    ensures HeaderCount([typ] + text, typ, limit) == Some(n)
  {
    hide ParseInt;
    SpeltHasNoLf(text);
    var s := Header(typ, text) + rest;
    FirstLfIs(s, |text| + 2);
    assert s[..|text| + 1] == [typ] + text;
    assert s[|text| + 3..] == rest;
    assert ([typ] + text)[1..] == text;
  }

  lemma OpenLineIff(s: Bytes)
    ensures OpenLine(s) <==> ReadLine(s).Eof? || ReadLine(s).Truncated?
    ensures ReadLine(s).Eof? <==> s == []
  {
    if OpenLine(s) {
      FirstLfIs(s, |s|);
    }
  }

  /** A line read is bad if and only if it cannot be read or has no count. */
  lemma BadLineIff(s: Bytes, typ: byte, limit: nat)
    ensures BadLine(s, typ, limit) <==>
      var o := ReadLine(s);
      o.Malformed? || (o.Got? && HeaderCount(o.value, typ, limit).None?)
  {
    hide ParseInt;
    var i := FirstLf(s);
    if i < |s| && i < READER_BUF {
      LineIsHeaderIff(s, i, typ, limit);
      assert NoLf(s[..i]);
      assert forall j :: i < j <= |s| ==> s[..j][i] == LF;
    } else {
      forall j | 0 <= j < |s| && j < READER_BUF
        ensures s[j] != LF
      {
      }
    }
  }

  lemma LineIsHeaderIff(s: Bytes, i: nat, typ: byte, limit: nat)
    requires i < |s| && i < READER_BUF && i == FirstLf(s)
    ensures IsHeaderLine(s[..i], typ, limit) <==> ReadLine(s).Got? && HeaderCount(ReadLine(s).value, typ, limit).Some?
  {
    hide ParseInt;
    var line := s[..i];
    if i >= 2 {
      assert line[1..|line| - 1] == s[..i - 1][1..];
    }
  }

  lemma LineIsThere(s: Bytes)
    ensures ReadLine(s).Got? ==> ReadLine(s).value != []
  {
  }

  lemma HeaderFound(s: Bytes, typ: byte, limit: nat) returns (text: Bytes)
    requires ReadLine(s).Got? && HeaderCount(ReadLine(s).value, typ, limit).Some?
    ensures Spells(text, HeaderCount(ReadLine(s).value, typ, limit).value, limit)
    ensures s == Header(typ, text) + ReadLine(s).rest
  {
    hide ParseInt;
    var line := ReadLine(s).value;
    text := line[1..];
    assert line == [typ] + text;
    assert s == line + CRLF + ReadLine(s).rest;
  }

  // ----- bulk strings -----

  lemma GoodBulkReads(b: Spelt, rest: Bytes)
    requires GoodBulk(b)
    ensures ParseBulk(BulkCode(b) + rest) == Got(b.payload, rest)
  {
    hide ReadLine, HeaderCount, Spells;
    var r := b.payload + CRLF + rest;
    assert BulkCode(b) + rest == Header(DOLLAR, b.text) + r;
    HeaderReads(DOLLAR, b.text, |b.payload|, MAX_BULK, r);
    assert r[..|b.payload|] == b.payload && r[|b.payload| + 2..] == rest;
  }

  lemma BadBulkReads(s: Bytes)
    requires BadBulk(s)
    ensures ParseBulk(s) == Malformed
  {
    hide ReadLine, HeaderCount, Spells, BadLine;
    if BadLine(s, DOLLAR, MAX_BULK) {
      BadLineIff(s, DOLLAR, MAX_BULK);
    } else {
      var b: Spelt, a: byte, c: byte, rest: Bytes :|
        GoodBulk(b) && [a, c] != CRLF && s == Header(DOLLAR, b.text) + b.payload + [a, c] + rest;
      var r := b.payload + [a, c] + rest;
      assert s == Header(DOLLAR, b.text) + r;
      HeaderReads(DOLLAR, b.text, |b.payload|, MAX_BULK, r);
      assert [r[|b.payload|], r[|b.payload| + 1]] == [a, c];
    }
  }

  lemma OpenBulkReads(s: Bytes)
    requires OpenBulk(s)
    ensures ParseBulk(s) == Truncated
  {
    hide ReadLine, HeaderCount, Spells, OpenLine;
    if OpenLine(s) {
      OpenLineIff(s);
    } else {
      var text: Bytes, n: int, part: Bytes :|
        Spells(text, n, MAX_BULK) && |part| < n + 2 && s == Header(DOLLAR, text) + part;
      HeaderReads(DOLLAR, text, n, MAX_BULK, part);
    }
  }

  lemma BulkIsSpelt(s: Bytes) returns (b: Spelt)
    requires ParseBulk(s).Got?
    ensures GoodBulk(b) && b.payload == ParseBulk(s).value && s == BulkCode(b) + ParseBulk(s).rest
  {
    hide ReadLine, HeaderCount, Spells;
    var text := HeaderFound(s, DOLLAR, MAX_BULK);
    var r, p := ReadLine(s).rest, ParseBulk(s).value;
    b := Spelt(text, p);
    assert r == p + CRLF + ParseBulk(s).rest;
    assert s == Header(DOLLAR, text) + (p + CRLF + ParseBulk(s).rest);
  }

  /** Every stream starts with a bulk string, or cannot, or may still. */
  lemma NoBulkIsTold(s: Bytes)
    ensures ParseBulk(s) == Malformed ==> BadBulk(s)
    ensures ParseBulk(s) == Truncated ==> OpenBulk(s)
    ensures !ParseBulk(s).Eof?
  {
    hide ReadLine, HeaderCount, Spells, BadLine, OpenLine;
    BadLineIff(s, DOLLAR, MAX_BULK);
    OpenLineIff(s);
    LineIsThere(s);
    if ReadLine(s).Got? && HeaderCount(ReadLine(s).value, DOLLAR, MAX_BULK).Some? {
      var n := HeaderCount(ReadLine(s).value, DOLLAR, MAX_BULK).value;
      var text := HeaderFound(s, DOLLAR, MAX_BULK);
      var r := ReadLine(s).rest;
      if |r| >= n + 2 {
        var b := Spelt(text, r[..n]);
        assert r == r[..n] + [r[n], r[n + 1]] + r[n + 2..];
        assert s == Header(DOLLAR, text) + b.payload + [r[n], r[n + 1]] + r[n + 2..];
      }
    }
  }

  // ----- several of them -----

  lemma {:induction false} GoodBulksRead(bs: seq<Spelt>, n: nat, r: Bytes)
    requires GoodBulks(bs) && |bs| <= n
    ensures ParseBulks(n, BulksCode(bs) + r) == Prepend(Payloads(bs), ParseBulks(n - |bs|, r))
  {
    hide ParseBulk, BulkCode, GoodBulk;
    if bs == [] {
      assert BulksCode(bs) + r == r;
      assert forall o: Outcome<Command> :: o.Got? ==> [] + o.value == o.value;
    } else {
      var tail := BulksCode(bs[1..]) + r;
      assert BulksCode(bs) + r == BulkCode(bs[0]) + tail;
      GoodBulkReads(bs[0], tail);
      GoodBulksRead(bs[1..], n - 1, r);
      assert Payloads(bs) == [bs[0].payload] + Payloads(bs[1..]);
      var o := ParseBulks(n - |bs|, r);
      assert o.Got? ==> [bs[0].payload] + (Payloads(bs[1..]) + o.value) == Payloads(bs) + o.value;
    }
  }

  /** How far the bulk strings go. */
  lemma {:induction false} BulksAreSpelt(n: nat, s: Bytes) returns (bs: seq<Spelt>, r: Bytes)
    ensures GoodBulks(bs) && |bs| <= n && s == BulksCode(bs) + r
    ensures |bs| < n ==> !ParseBulk(r).Got?
  {
    hide ParseBulk, BulkCode, GoodBulk;
    if n == 0 || !ParseBulk(s).Got? {
      bs, r := [], s;
      assert s == [] + s;
    } else {
      var b := BulkIsSpelt(s);
      bs, r := BulksAreSpelt(n - 1, ParseBulk(s).rest);
      assert s == BulkCode(b) + (BulksCode(bs) + r);
      assert ([b] + bs)[1..] == bs;
      bs := [b] + bs;
    }
  }

  // ----- commands -----

  lemma StartReads(text: Bytes, n: nat, bs: seq<Spelt>, r: Bytes)
    requires Spells(text, n, MAX_ARRAY) && |bs| <= n && GoodBulks(bs)
    ensures ParseCommand(Header(STAR, text) + (BulksCode(bs) + r)) ==
      Prepend(Payloads(bs), ParseBulks(n - |bs|, r))
  {
    hide ReadLine, HeaderCount, ParseBulks, BulksCode, Spells, GoodBulk;
    HeaderReads(STAR, text, n, MAX_ARRAY, BulksCode(bs) + r);
    GoodBulksRead(bs, n, r);
  }

  lemma CommandReads(s: Bytes, args: Command, rest: Bytes)
    requires IsCommand(s, args, rest)
    ensures ParseCommand(s) == Got(args, rest)
  {
    hide ParseCommand, BulksCode, Spells, GoodBulk, Header;
    var text: Bytes, bs: seq<Spelt> :|
      && Spells(text, |bs|, MAX_ARRAY) && GoodBulks(bs) && Payloads(bs) == args
      && s == Header(STAR, text) + BulksCode(bs) + rest;
    assert s == Header(STAR, text) + (BulksCode(bs) + rest);
    StartReads(text, |bs|, bs, rest);
    assert args + [] == args;
  }

  lemma BrokenReads(s: Bytes)
    requires IsBroken(s)
    ensures ParseCommand(s) == Malformed
  {
    hide ReadLine, HeaderCount, BadLine, BadBulk, ParseBulk, BulksCode, Spells, GoodBulk;
    if BadLine(s, STAR, MAX_ARRAY) {
      BadLineIff(s, STAR, MAX_ARRAY);
    } else {
      var text: Bytes, n: int, bs: seq<Spelt>, r: Bytes :| BadBulk(r) && Reaches(text, n, bs, r, s);
      SpellsCount(text, n);
      StartReads(text, n, bs, r);
      BadBulkReads(r);
    }
  }

  lemma UnfinishedReads(s: Bytes)
    requires IsUnfinished(s)
    ensures ParseCommand(s) == Truncated
  {
    hide ReadLine, HeaderCount, OpenLine, OpenBulk, ParseBulk, BulksCode, Spells, GoodBulk;
    if s != [] && OpenLine(s) {
      OpenLineIff(s);
    } else {
      var text: Bytes, n: int, bs: seq<Spelt>, r: Bytes :| OpenBulk(r) && Reaches(text, n, bs, r, s);
      SpellsCount(text, n);
      StartReads(text, n, bs, r);
      OpenBulkReads(r);
    }
  }

  lemma SpellsCount(text: Bytes, n: int)
    requires Spells(text, n, MAX_ARRAY)
    ensures n >= 0
  {
  }

  /** The stream is told by how it starts: empty, without an array header, or with one. */
  lemma StreamIsTold(s: Bytes)
    ensures s == [] || IsBroken(s) || IsUnfinished(s) || exists args, rest :: IsCommand(s, args, rest)
  {
    hide ReadLine, HeaderCount, BadLine, OpenLine, BadBulk, OpenBulk, ParseBulk, BulksCode, Spells, GoodBulk;
    BadLineIff(s, STAR, MAX_ARRAY);
    OpenLineIff(s);
    LineIsThere(s);
    if ReadLine(s).Got? && HeaderCount(ReadLine(s).value, STAR, MAX_ARRAY).Some? {
      var n := HeaderCount(ReadLine(s).value, STAR, MAX_ARRAY).value;
      var text := HeaderFound(s, STAR, MAX_ARRAY);
      var bs, r := BulksAreSpelt(n, ReadLine(s).rest);
      if |bs| < n {
        NoBulkIsTold(r);
        assert Reaches(text, n, bs, r, s);
      } else {
        assert s == Header(STAR, text) + BulksCode(bs) + r;
        assert IsCommand(s, Payloads(bs), r);
      }
    }
  }

  /** The parser's verdict on every stream there is, whoever wrote it. */
  lemma VerdictIff(s: Bytes, args: Command, rest: Bytes)
    ensures ParseCommand(s) == Eof <==> s == []
    ensures ParseCommand(s) == Got(args, rest) <==> IsCommand(s, args, rest)
    ensures ParseCommand(s) == Malformed <==> IsBroken(s)
    ensures ParseCommand(s) == Truncated <==> IsUnfinished(s)
  {
    hide ParseCommand, IsBroken, IsUnfinished, IsCommand;
    EofIffEmpty(s);
    StreamIsTold(s);
    if IsCommand(s, args, rest) {
      CommandReads(s, args, rest);
    }
    if IsUnfinished(s) {
      UnfinishedReads(s);
    }
    if IsBroken(s) {
      BrokenReads(s);
    } else if s != [] && !IsUnfinished(s) {
      var args', rest' :| IsCommand(s, args', rest');
      CommandReads(s, args', rest');
    }
  }

  /** A first line that is no array header is a protocol error, whatever follows. */
  lemma StrayLineIsBroken(line: Bytes, rest: Bytes)
    requires NoLf(line) && |line| < READER_BUF && !IsHeaderLine(line, STAR, MAX_ARRAY)
    ensures ParseCommand(line + [LF] + rest) == Malformed
  {
    hide ParseCommand, IsHeaderLine;
    var s := line + [LF] + rest;
    assert s[..|line|] == line && s[|line|] == LF;
    assert BadLine(s, STAR, MAX_ARRAY);
    BrokenReads(s);
  }

  // ----- later bytes -----

  lemma BadLineStable(s: Bytes, t: Bytes, typ: byte, limit: nat)
    requires BadLine(s, typ, limit)
    ensures BadLine(s + t, typ, limit)
  {
    hide IsHeaderLine;
    var u := s + t;
    if i :| 0 <= i < |s| && s[i] == LF && i < 16 * 1024 && NoLf(s[..i]) && !IsHeaderLine(s[..i], typ, limit) {
      assert u[..i] == s[..i] && u[i] == LF;
    } else {
      assert forall j :: 0 <= j < 16 * 1024 ==> u[j] == s[j];
    }
  }

  lemma BadBulkStable(s: Bytes, t: Bytes)
    requires BadBulk(s)
    ensures BadBulk(s + t)
  {
    hide BadLine, GoodBulk, Header;
    if BadLine(s, DOLLAR, MAX_BULK) {
      BadLineStable(s, t, DOLLAR, MAX_BULK);
    } else {
      var b: Spelt, a: byte, c: byte, rest: Bytes :|
        GoodBulk(b) && [a, c] != CRLF && s == Header(DOLLAR, b.text) + b.payload + [a, c] + rest;
      assert s + t == Header(DOLLAR, b.text) + b.payload + [a, c] + (rest + t);
    }
  }

  /** A protocol error stays one, however the stream goes on: what is broken is never merely torn. */
  lemma BrokenStable(s: Bytes, t: Bytes)
    requires ParseCommand(s) == Malformed
    ensures ParseCommand(s + t) == Malformed
  {
    hide ParseCommand, BadLine, BadBulk, Spells, GoodBulk, Header, BulksCode;
    VerdictIff(s, [], []);
    if BadLine(s, STAR, MAX_ARRAY) {
      BadLineStable(s, t, STAR, MAX_ARRAY);
    } else {
      var text: Bytes, n: int, bs: seq<Spelt>, r: Bytes :| BadBulk(r) && Reaches(text, n, bs, r, s);
      BadBulkStable(r, t);
      assert s + t == Header(STAR, text) + (BulksCode(bs) + (r + t));
      assert Reaches(text, n, bs, r + t, s + t);
    }
    BrokenReads(s + t);
  }

  // ----- logs -----

  lemma NamedInLimits(cmd: Command)
    requires InLimits(cmd)
    ensures cmd != []
  {
  }

  lemma ScanOne(cmd: Command, more: Bytes)
    requires cmd != [] && ParseCommand(Encode(cmd) + more) == Got(cmd, more)
    ensures var rest := ScanLog(more);
      ScanLog(Encode(cmd) + more) == Scan([cmd] + rest.cmds, |Encode(cmd)| + rest.bytes, rest.ending)
  {
    hide Encode, ParseCommand;
  }

  /** Behind whole commands the scan goes on as if it started there. */
  lemma {:induction false} ScanGoesOn(cmds: seq<Command>, s: Bytes)
    requires AllInLimits(cmds)
    ensures var rest := ScanLog(s);
      ScanLog(EncodeAll(cmds) + s) == Scan(cmds + rest.cmds, |EncodeAll(cmds)| + rest.bytes, rest.ending)
  {
    hide Encode, ParseCommand, ScanLog, InLimits;
    if cmds == [] {
      assert EncodeAll(cmds) + s == s;
      assert [] + ScanLog(s).cmds == ScanLog(s).cmds;
    } else {
      var more := EncodeAll(cmds[1..]) + s;
      Assoc(Encode(cmds[0]), EncodeAll(cmds[1..]), s);
      RoundTrip(cmds[0], more);
      ScanGoesOn(cmds[1..], s);
      assert cmds[0] != [] by { NamedInLimits(cmds[0]); }
      ScanOne(cmds[0], more);
      var rest := ScanLog(s).cmds;
      assert [cmds[0]] + (cmds[1..] + rest) == cmds + rest;
    }
  }

  /** Junk in a log is corruption, and an unfinished command at its end is a torn tail; never the other
      way round, whatever follows the junk. */
  lemma JunkIsCorruption(cmds: seq<Command>, junk: Bytes)
    requires AllInLimits(cmds)
    ensures IsBroken(junk) ==> ScanLog(EncodeAll(cmds) + junk) == Scan(cmds, |EncodeAll(cmds)|, Corrupt)
    ensures IsUnfinished(junk) ==> ScanLog(EncodeAll(cmds) + junk) == Scan(cmds, |EncodeAll(cmds)|, Torn)
  {
    hide ParseCommand, EncodeAll, IsBroken, IsUnfinished;
    ScanGoesOn(cmds, junk);
    VerdictIff(junk, [], []);
    assert cmds + [] == cmds;
  }
}

/**
 Canonical text: which of the numbers and commands that the parsers accept are spelt the way the
 printers spell them. Replay counts bytes by re-encoding what it read, so its count is right
 exactly where the log is canonical.
 */
module Canonical {
  import opened Bytes
  import opened Resp
  import opened Frames

  // ----- numbers -----

  /** No plus sign, no superfluous zero, no minus zero. */
  predicate IsCanonical(s: Bytes) {
    && s != [] && s[0] != PLUS
    && var text := if s[0] == MINUS then s[1..] else s;
       text != [] && (text[0] != 48 || s == [48])
  }

  /** A run of digits is never shorter than its value printed, and is that text exactly when it is
      as short, which is when it has no leading zero. */
  lemma {:induction false} DigitsAreShortest(s: Bytes)
    requires s != [] && DigitsValue(s).Some?
    ensures var d := Digits(DigitsValue(s).value);
      |d| <= |s| && (|d| == |s| <==> d == s) && (d == s <==> |s| == 1 || s[0] != 48)
  {
    var n := |s| - 1;
    if n > 0 {
      DigitsAreShortest(s[..n]);
      assert s == s[..n] + [s[n]];
    } else {
      assert DigitsValue(s[..0]) == Some(0);
      assert s == [s[0]];
    }
  }

  lemma DigitsAreDigits(s: Bytes)
    requires s != [] && DigitsValue(s).Some?
    ensures IsDigit(s[0])
  {
    if |s| > 1 {
      DigitsAreDigits(s[..|s| - 1]);
    }
  }

  /** Exactly the canonical spelling of a number is what printing it gives back. */
  lemma PrintsBackIff(s: Bytes)
    requires ParseInt(s).Some?
    ensures Itoa(ParseInt(s).value) == s <==> IsCanonical(s)
  {
    hide Digits, DigitsValue;
    var v := ParseInt(s).value;
    var signed := s[0] == PLUS || s[0] == MINUS;
    var text := if signed then s[1..] else s;
    DigitsAreShortest(text);
    DigitsAreDigits(text);
    DigitsParseBack(if v < 0 then -v else v);
    ZeroIsZero(text);
    if v < 0 {
      assert s == [MINUS] + text;
    }
  }

  lemma ZeroIsZero(text: Bytes)
    requires text != [] && DigitsValue(text).Some?
    ensures |text| == 1 ==> text == [48 + DigitsValue(text).value]
    ensures Digits(0) == [48]
  {
    assert |text| == 1 ==> DigitsValue(text[..0]) == Some(0);
  }

  /** A plus sign is accepted in front of anything that starts with a digit. */
  lemma PlusIsAccepted(text: Bytes)
    requires text != [] && IsDigit(text[0])
    ensures ParseInt([PLUS] + text) == ParseInt(text)
  {
    hide DigitsValue;
    assert ([PLUS] + text)[1..] == text;
  }

  /** So `+5` is a number, and not the way 5 is printed. */
  lemma PlusFiveIsAccepted()
    ensures ParseInt([PLUS, 53]) == Some(5) && !IsCanonical([PLUS, 53])
  {
    assert [PLUS, 53] == [PLUS] + [53];
    PlusIsAccepted([53]);
    ItoaParsesBack(5);
    assert Itoa(5) == [53];
  }

  lemma ItoaIsShortest(s: Bytes)
    requires ParseInt(s).Some? && ParseInt(s).value >= 0
    ensures var t := Itoa(ParseInt(s).value); |t| <= |s| && (|t| == |s| <==> t == s)
  {
    hide Digits, DigitsValue;
    var signed := s[0] == PLUS || s[0] == MINUS;
    DigitsAreShortest(if signed then s[1..] else s);
  }

  // ----- commands -----

  /** What was read up to `rest` is no shorter than `code`, and as short only if it is `code`. */
  ghost predicate Shortest(code: Bytes, rest: Bytes, s: Bytes) {
    |code| + |rest| <= |s| && (|code| + |rest| == |s| <==> s == code + rest)
  }

  lemma ShortestChain(a: Bytes, mid: Bytes, s: Bytes, b: Bytes, rest: Bytes)
    requires Shortest(a, mid, s) && Shortest(b, rest, mid)
    ensures Shortest(a + b, rest, s)
  {
    if |a| + |b| + |rest| == |s| {
      assert a + b + rest == a + (b + rest);
    }
  }

  lemma HeaderIsShortest(s: Bytes, typ: byte, limit: nat)
    requires ReadLine(s).Got? && HeaderCount(ReadLine(s).value, typ, limit).Some?
    ensures Shortest(CountLine(typ, HeaderCount(ReadLine(s).value, typ, limit).value), ReadLine(s).rest, s)
  {
    hide ParseInt, Itoa;
    var line := ReadLine(s).value;
    ItoaIsShortest(line[1..]);
    assert line == [typ] + line[1..];
    assert s == line + CRLF + ReadLine(s).rest;
  }

  lemma BulkIsShortest(s: Bytes)
    requires ParseBulk(s).Got?
    ensures Shortest(Bulk(ParseBulk(s).value), ParseBulk(s).rest, s)
  {
    hide ParseInt, Itoa, ReadLine, CountLine;
    HeaderIsShortest(s, DOLLAR, MAX_BULK);
    var r, p, rest := ReadLine(s).rest, ParseBulk(s).value, ParseBulk(s).rest;
    assert r == p + CRLF + rest;
    ShortestChain(CountLine(DOLLAR, |p|), r, s, p + CRLF, rest);
    assert CountLine(DOLLAR, |p|) + (p + CRLF) == Bulk(p);
  }

  lemma {:induction false} BulksAreShortest(n: nat, s: Bytes)
    requires ParseBulks(n, s).Got?
    ensures Shortest(Bulks(ParseBulks(n, s).value), ParseBulks(n, s).rest, s)
    ensures |ParseBulks(n, s).value| == n
  {
    hide ParseBulk, Bulk;
    if n == 0 {
      assert [] + s == s;
    } else {
      var first := ParseBulk(s);
      BulkIsShortest(s);
      BulksAreShortest(n - 1, first.rest);
      var more := ParseBulks(n - 1, first.rest);
      assert ([first.value] + more.value)[1..] == more.value;
      ShortestChain(Bulk(first.value), first.rest, s, Bulks(more.value), more.rest);
    }
  }

  /** No command is shorter on the wire than its canonical encoding, and as short only if it is that
      encoding. */
  lemma EncodingIsShortest(s: Bytes)
    requires ParseCommand(s).Got?
    ensures Shortest(Encode(ParseCommand(s).value), ParseCommand(s).rest, s)
  {
    hide ParseInt, Itoa, CountLine, Bulks, ParseBulks, Shortest;
    var line := ReadLine(s).value;
    var n := HeaderCount(line, STAR, MAX_ARRAY).value;
    HeaderIsShortest(s, STAR, MAX_ARRAY);
    BulksAreShortest(n, ReadLine(s).rest);
    ShortestChain(CountLine(STAR, n), ReadLine(s).rest, s, Bulks(ParseCommand(s).value), ParseCommand(s).rest);
  }

  // ----- logs -----

  /** Where the replay loop stops reading. */
  function Unread(s: Bytes): Bytes
    decreases |s|
  {
    match ParseCommand(s)
    case Got(_, rest) => EofIffEmpty(s); Unread(rest)
    case _ => s
  }

  /** The byte count replay keeps is the length of the commands re-encoded. It never runs past what
      was read, and it is where reading stopped if and only if everything read was canonical. */
  lemma {:induction false} ReplayCountIff(s: Bytes)
    ensures ScanLog(s).bytes == |EncodeAll(ScanLog(s).cmds)| <= |s| - |Unread(s)|
    ensures ScanLog(s).bytes == |s| - |Unread(s)| <==> s == EncodeAll(ScanLog(s).cmds) + Unread(s)
    decreases |s|
  {
    hide Encode, ParseCommand;
    var o := ParseCommand(s);
    if o.Got? {
      EofIffEmpty(s);
      ReplayCountIff(o.rest);
      EncodingIsShortest(s);
      var more := ScanLog(o.rest).cmds;
      if o.value == [] {
        EmptyHasLength();
      } else {
        assert ([o.value] + more)[1..] == more;
        ShortestChain(Encode(o.value), o.rest, s, EncodeAll(more), Unread(o.rest));
      }
    } else {
      assert [] + s == s;
    }
  }

  lemma EmptyHasLength()
    ensures |Encode([])| > 0
  {
  }
}

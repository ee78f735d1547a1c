/** The RESP reader and writer as the source has them: objects that consume and extend a stream. */
module Reader {
  import opened Bytes
  import opened Resp

  /** resp.Reader over the whole remaining stream; `pos` is how much of it has been consumed. */
  class Reader {
    const input: Bytes
    var pos: nat

    ghost predicate Valid()
      reads this
    {
      pos <= |input|
    }

    ghost function Remaining(): Bytes
      reads this
      requires Valid()
    {
      input[pos..]
    }

    constructor (input: Bytes)
      ensures Valid() && this.input == input && Remaining() == input
    {
      this.input := input;
      pos := 0;
    }

    /** Consumes one CRLF-terminated header line. Where the source has no further use for the
        stream (every outcome but a line), nothing is promised about the position. */
    method ReadHeaderLine() returns (o: Outcome<Bytes>)
      requires Valid()
      modifies this
      ensures Valid()
      ensures o == ReadLine(old(Remaining()))
      ensures o.Got? ==> Remaining() == o.rest
    {
      ghost var s := Remaining();
      var i := pos;
      while i < |input| && input[i] != LF && i - pos < READER_BUF
        invariant pos <= i <= |input|
        invariant FirstLf(s) == i - pos + FirstLf(input[i..])
        invariant i - pos <= READER_BUF
      {
        assert input[i..][1..] == input[i + 1..];
        i := i + 1;
      }
      assert s == input[pos..];
      if i - pos >= READER_BUF {
        return Malformed;
      }
      if i == |input| {
        return if i == pos then Eof else Truncated;
      }
      assert FirstLf(s) == i - pos;
      if i - pos < 2 || input[i - 1] != CR {
        return Malformed;
      }
      var line := input[pos..i - 1];
      assert line == s[..i - pos - 1];
      o := Got(line, input[i + 1..]);
      pos := i + 1;
    }

    method ReadBulk() returns (o: Outcome<Bytes>)
      requires Valid()
      modifies this
      ensures Valid()
      ensures o == ParseBulk(old(Remaining()))
      ensures o.Got? ==> Remaining() == o.rest
    {
      var header := ReadHeaderLine();
      if !header.Got? {
        return if header.Malformed? then Malformed else Truncated;
      }
      var count := HeaderCount(header.value, DOLLAR, MAX_BULK);
      if count.None? {
        return Malformed;
      }
      var n := count.value;
      ghost var r := Remaining();
      if |input| - pos < n + 2 {
        return Truncated;
      }
      if input[pos + n] != CR || input[pos + n + 1] != LF {
        return Malformed;
      }
      var payload := input[pos..pos + n];
      assert payload == r[..n];
      pos := pos + n + 2;
      assert Remaining() == r[n + 2..];
      o := Got(payload, input[pos..]);
    }

    method ReadCommand() returns (o: Outcome<Command>)
      requires Valid()
      modifies this
      ensures Valid()
      ensures o == ParseCommand(old(Remaining()))
      ensures o.Got? ==> Remaining() == o.rest
    {
      var header := ReadHeaderLine();
      match header {
        case Eof => return Eof;
        case Truncated => return Truncated;
        case Malformed => return Malformed;
        case Got(_, _) =>
      }
      var count := HeaderCount(header.value, STAR, MAX_ARRAY);
      if count.None? {
        return Malformed;
      }
      o := ReadArgs(count.value);
    }

    /** The argument loop of ReadCommand, after an array header that promised `n` of them. */
    method ReadArgs(n: nat) returns (o: Outcome<Command>)
      requires Valid()
      modifies this
      ensures Valid()
      ensures o == ParseBulks(n, old(Remaining()))
      ensures o.Got? ==> Remaining() == o.rest
    {
      hide ParseBulk, ReadLine, HeaderCount;
      ghost var goal := ParseBulks(n, Remaining());
      var args: Command := [];
      var left := n;
      PrependNothing(goal);
      while left > 0
        invariant Valid() && 0 <= left <= n
        invariant InProgress(goal, args, left, Remaining())
      {
        ghost var before := Remaining();
        var bulk := ReadBulk();
        ParseOneMore(goal, args, left, before, bulk);
        if !bulk.Got? {
          return if bulk.Malformed? then Malformed else Truncated;
        }
        args, left := args + [bulk.value], left - 1;
      }
      PrependAll(args, Remaining());
      o := Got(args, input[pos..]);
    }
  }

  /** `args` have been read and `left` more, at the front of `s`, complete the outcome `goal`. */
  ghost predicate InProgress(goal: Outcome<Command>, args: Command, left: nat, s: Bytes) {
    goal == Prepend(args, ParseBulks(left, s))
  }

  /** One turn of the argument loop: what one more bulk string does to the command being read. */
  lemma ParseOneMore(goal: Outcome<Command>, args: Command, left: nat, s: Bytes, bulk: Outcome<Bytes>)
    requires left > 0 && bulk == ParseBulk(s)
    requires InProgress(goal, args, left, s)
    ensures bulk.Got? ==> InProgress(goal, args + [bulk.value], left - 1, bulk.rest)
    ensures bulk.Malformed? ==> goal == Malformed
    ensures !bulk.Got? && !bulk.Malformed? ==> goal == Truncated
  {
    if bulk.Got? {
      PrependTwice(args, bulk.value, ParseBulks(left - 1, bulk.rest));
    }
  }

  lemma PrependAll(args: Command, s: Bytes)
    ensures Prepend(args, ParseBulks(0, s)) == Got(args, s)
  {
    assert args + [] == args;
  }

  lemma PrependNothing(o: Outcome<Command>)
    ensures Prepend([], o) == o
  {
    if o.Got? {
      assert [] + o.value == o.value;
    }
  }

  lemma PrependTwice(args: Command, arg: Bytes, o: Outcome<Command>)
    ensures Prepend(args, Prepend([arg], o)) == Prepend(args + [arg], o)
  {
    if o.Got? {
      assert args + ([arg] + o.value) == args + [arg] + o.value;
    }
  }

  /** resp.Writer onto a stream that accepts every byte; a failing stream is part of the log model. */
  class Writer {
    var out: Bytes

    constructor ()
      ensures out == []
    {
      out := [];
    }

    method WriteCountLine(typ: byte, n: int)
      modifies this
      ensures out == old(out) + CountLine(typ, n)
    {
      var scratch := [typ];
      scratch := scratch + Itoa(n);
      scratch := scratch + CRLF;
      out := out + scratch;
    }

    method WriteBulkString(p: Bytes)
      modifies this
      ensures out == old(out) + Bulk(p)
    {
      WriteCountLine(DOLLAR, |p|);
      out := out + p;
      out := out + CRLF;
    }

    /** aof.writeCommand. */
    method WriteCommand(args: Command)
      modifies this
      ensures out == old(out) + Encode(args)
    {
      WriteCountLine(STAR, |args|);
      ghost var start := out;
      var i := 0;
      while i < |args|
        invariant 0 <= i <= |args|
        invariant out == start + Bulks(args[..i])
      {
        WriteBulkString(args[i]);
        BulksSnoc(args, i);
        Assoc(start, Bulks(args[..i]), Bulk(args[i]));
        i := i + 1;
      }
      assert args[..i] == args;
      Assoc(old(out), CountLine(STAR, |args|), Bulks(args));
    }
  }

  /** aof.EncodedLen: the byte count that stands in for the parser's file position. */
  method EncodedLen(args: Command) returns (n: nat)
    ensures n == |Encode(args)|
  {
    n := 1 + |Itoa(|args|)| + 2;
    var i := 0;
    assert args[0..] == args;
    while i < |args|
      invariant 0 <= i <= |args|
      invariant n + |Bulks(args[i..])| == |Encode(args)|
    {
      assert args[i..][0] == args[i] && args[i..][1..] == args[i + 1..];
      n := n + 1 + |Itoa(|args[i]|)| + 2 + |args[i]| + 2;
      i := i + 1;
    }
  }
}

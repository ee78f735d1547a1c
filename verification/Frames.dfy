/**
 The log file as a sequence of encoded commands: what a replay reads from any byte prefix of it,
 and why truncating a torn tail and appending again loses nothing but the torn command.
 */
module Frames {
  import opened Bytes
  import opened Resp

  function EncodeAll(cmds: seq<Command>): Bytes {
    if cmds == [] then [] else Encode(cmds[0]) + EncodeAll(cmds[1..])
  }

  predicate AllInLimits(cmds: seq<Command>) {
    forall i :: 0 <= i < |cmds| ==> InLimits(cmds[i])
  }

  datatype Ending = Intact | Torn | Corrupt

  /** What the replay loop reads: the commands, the byte count it keeps, and how it ended. */
  datatype Scan = Scan(cmds: seq<Command>, bytes: nat, ending: Ending)

  function ScanLog(s: Bytes): Scan
    decreases |s|
  {
    match ParseCommand(s)
    case Eof => Scan([], 0, Intact)
    case Truncated => Scan([], 0, Torn)
    case Malformed => Scan([], 0, Corrupt)
    case Got(args, rest) =>
      EofIffEmpty(s);
      var more := ScanLog(rest);
      if args == [] then more
      else Scan([args] + more.cmds, |Encode(args)| + more.bytes, more.ending)
  }

  // ----- framing -----

  lemma {:induction false} EncodeAllConcat(a: seq<Command>, b: seq<Command>)
    ensures EncodeAll(a + b) == EncodeAll(a) + EncodeAll(b)
  {
    hide Encode;
    if a == [] {
      assert a + b == b;
    } else {
      assert (a + b)[1..] == a[1..] + b;
      EncodeAllConcat(a[1..], b);
      Assoc(Encode(a[0]), EncodeAll(a[1..]), EncodeAll(b));
    }
  }

  lemma EncodeAllOne(args: Command)
    ensures EncodeAll([args]) == Encode(args)
  {
    hide Encode;
    assert [args][1..] == [];
    assert Encode(args) + [] == Encode(args);
  }

  /** How many whole commands fit in the first k bytes. */
  function WholeCommands(cmds: seq<Command>, k: nat): (n: nat)
    ensures n <= |cmds|
  {
    if cmds == [] || k < |Encode(cmds[0])| then 0
    else 1 + WholeCommands(cmds[1..], k - |Encode(cmds[0])|)
  }

  /** It is the longest run: n commands fit, and one more would not. */
  lemma {:induction false} WholeCommandsIsLongest(cmds: seq<Command>, k: nat)
    ensures var n := WholeCommands(cmds, k);
      && |EncodeAll(cmds[..n])| <= k
      && (n < |cmds| ==> k < |EncodeAll(cmds[..n + 1])|)
  {
    hide Encode;
    if cmds != [] {
      var c := cmds[0];
      var n := WholeCommands(cmds, k);
      if k < |Encode(c)| {
        assert cmds[..1] == [c];
        EncodeAllOne(c);
      } else {
        WholeCommandsIsLongest(cmds[1..], k - |Encode(c)|);
        assert cmds[..n][1..] == cmds[1..][..n - 1];
        if n < |cmds| {
          assert cmds[..n + 1][1..] == cmds[1..][..n];
        }
      }
    }
  }

  /** Crash recovery at any byte: a prefix of the log reads as exactly its longest run of whole
      commands, the byte count is their exact encoded length, and anything beyond is torn. */
  lemma {:induction false} CrashAtAnyByte(cmds: seq<Command>, k: nat)
    requires AllInLimits(cmds) && k <= |EncodeAll(cmds)|
    ensures var n := WholeCommands(cmds, k);
      var bytes := |EncodeAll(cmds[..n])|;
      && bytes <= k
      && ScanLog(EncodeAll(cmds)[..k]) == Scan(cmds[..n], bytes, if bytes == k then Intact else Torn)
  {
    hide Encode, ParseCommand;
    var s := EncodeAll(cmds)[..k];
    var n := WholeCommands(cmds, k);
    WholeCommandsIsLongest(cmds, k);
    if cmds == [] {
      EofIffEmpty(s);
    } else {
      var c := cmds[0];
      if k < |Encode(c)| {
        assert s == Encode(c)[..k];
        PrefixIsTruncated(c, k);
      } else {
        var rest := EncodeAll(cmds[1..])[..k - |Encode(c)|];
        assert s == Encode(c) + rest;
        RoundTrip(c, rest);
        CrashAtAnyByte(cmds[1..], k - |Encode(c)|);
        assert cmds[..n][1..] == cmds[1..][..n - 1];
        assert [c] + cmds[1..][..n - 1] == cmds[..n];
      }
    }
  }

  /** The whole log reads back as itself. */
  lemma WholeLogReadsBack(cmds: seq<Command>)
    requires AllInLimits(cmds)
    ensures ScanLog(EncodeAll(cmds)) == Scan(cmds, |EncodeAll(cmds)|, Intact)
  {
    hide ScanLog;
    var k := |EncodeAll(cmds)|;
    CrashAtAnyByte(cmds, k);
    AllFit(cmds);
    assert EncodeAll(cmds)[..k] == EncodeAll(cmds);
    assert cmds[..|cmds|] == cmds;
  }

  /** Whole logs read back if and only if every command in them does; otherwise they are corrupt. */
  lemma {:induction false} LogReadsBackIff(cmds: seq<Command>)
    requires forall i :: 0 <= i < |cmds| ==> cmds[i] != []
    ensures ScanLog(EncodeAll(cmds)) == Scan(cmds, |EncodeAll(cmds)|, Intact) <==> AllInLimits(cmds)
    ensures ScanLog(EncodeAll(cmds)).ending == if AllInLimits(cmds) then Intact else Corrupt
  {
    hide Encode, ParseCommand;
    if cmds == [] {
      EofIffEmpty([]);
    } else {
      ReadsBackIff(cmds[0], EncodeAll(cmds[1..]));
      LogReadsBackIff(cmds[1..]);
      assert forall i :: 1 <= i < |cmds| ==> cmds[i] == cmds[1..][i - 1];
      assert [cmds[0]] + cmds[1..] == cmds;
    }
  }

  lemma {:induction false} AllFit(cmds: seq<Command>)
    ensures WholeCommands(cmds, |EncodeAll(cmds)|) == |cmds|
  {
    hide Encode;
    if cmds != [] {
      AllFit(cmds[1..]);
    }
  }

  /** Repairing a torn log and appending to it: after truncation at the byte count, new commands
      read back behind exactly the whole ones. */
  lemma RepairThenAppend(cmds: seq<Command>, k: nat, more: seq<Command>)
    requires AllInLimits(cmds) && AllInLimits(more) && k <= |EncodeAll(cmds)|
    ensures var torn := EncodeAll(cmds)[..k];
      var scan := ScanLog(torn);
      var kept := cmds[..WholeCommands(cmds, k)];
      && scan.bytes <= |torn|
      && torn[..scan.bytes] == EncodeAll(kept)
      && ScanLog(torn[..scan.bytes] + EncodeAll(more)) == Scan(kept + more, scan.bytes + |EncodeAll(more)|, Intact)
  {
    hide ScanLog, Encode;
    var n := WholeCommands(cmds, k);
    var kept := cmds[..n];
    CrashAtAnyByte(cmds, k);
    assert cmds == kept + cmds[n..];
    EncodeAllConcat(kept, cmds[n..]);
    EncodeAllConcat(kept, more);
    WholeLogReadsBack(kept + more);
  }
}

# A verified model of redisclone

This project models the part of redisclone that makes its promises hard to keep: a 32-shard
keyspace with deadlines, a journal of effects that is appended to under a commit gate, a log that
is rewritten while it is being written, crash repair at an arbitrary byte, and the restart that
rebuilds the keyspace through the real command handlers. `dafny verify dfyconfig.toml` checks all
of it.

The layers, bottom up:

- **Bytes, Resp, Reader, Frames, Grammar, Canonical**: int64 text, the canonical RESP2 command
  encoding, the stream parser with its four outcomes (command, clean end, truncation, protocol
  error), the reader and writer objects proved against it, the log file as a sequence of encoded
  commands, which byte streams are commands, broken or unfinished, and which accepted bytes are
  canonical.
- **Routing, Keyspace, Store**: 64-bit FNV-1a routing; one flat timed map with the effect of every
  mutation and the journal records it leaves; the sharded store object, whose methods are proved
  against that flat map (`flat` is a ghost field that `Valid()` ties to the shards).
- **Journal, Restart**: what a log means without a clock, key by key; the absorption law; and what
  a replay through the handlers, each record at its own instant, makes of the same log.
- **Protocol, Faithful, Runs, Lifetimes**: clients, commit gate, expiry deletions, the rewriter's
  shard-by-shard walk and log failures as a transition system, theorems over all its runs, and over
  lifetimes: runs that go through any number of crashes and restarts.
- **Locks**: lock programs of the operations and deadlock freedom for any number of clients.
- **Commands, Client, Limits, Aof, Serial, Server, Stories, Startup**: the command table and what
  each command does, told by its name; the log object with faults at every I/O call; the dispatcher
  with its two gates; whole serial runs, event by event; startup replay; and the end-to-end theorem
  from an acknowledged write through a crash to the restarted keyspace.

Deadlines are nanoseconds since the epoch; journal records carry whole milliseconds. The clock,
fault outcomes and map iteration orders are arbitrary: instants are parameters or chosen
nondeterministically, and every order of walking a map is covered by an assign-such-that choice.
Every I/O call may fail, and a log may also be declared `reliable`, which rules that out and so pins
what happens when nothing fails. The file is a byte sequence with a synced prefix, a crash keeps a
prefix at least that long, and renaming a synced file over the log is atomic and durable.

## What the code does not promise

Five documented or natural claims are false of the code. Each is kept as the code has it, with the
exact condition and, where one can be given, a witness.

- *A rewrite never loses a key.* `ExpireAt` reads the clock before it takes the gate
  (internal/store/store.go:439-441). If the old deadline passes in between and the rewriter walks
  the shard in that window, the key is left out of the snapshot, and the later PEXPIREAT in the
  tail finds nothing. `Runs.StaleClockLosesKey` is such a run. A moved deadline is `Harmless` if it
  has itself passed, or the log holds the key and so does the replacement once the rewriter is past
  it. `Runs.CommitIsSafeIff` and `Runs.RewriteIsSafeIff` show that this is the exact condition, for
  one commit and for whole runs, under which the log and the replacement follow the history; the
  rewrite theorems hold for all such runs, timely ones among them (`Runs.TimelyRunIsHarmless`).
- *A restart shows every live key.* A key whose deadline was extended is lost when the restart falls
  after the old deadline. `Restart.RestartAtInstant` and `Restart.RestartIsExact` give the if and
  only if, `Lifetimes.RestartIsFaithful` gives it for every state of every lifetime, stale clock
  readings included; `Restart.RestartCanLoseExtendedKey` is a witness.
- *Every accepted write can be replayed.* A relative expiry can lead to an absolute deadline that
  the handlers refuse (`Commands.FarDeadlineIsAcceptedButUnreplayable`), and APPEND can grow a value
  past the largest bulk string (`Limits.AppendCanOutgrow`). `Resp.ReadsBackIff` says which commands the
  parser gives back, `Limits.WritesComeBackIff` which accepted writes can be read back, and
  `Startup.StartsIff` that a server starts on its whole log if and only if every record in it can.
- *Under `always` nothing is acknowledged that is not on disk.* A failing sync is only logged
  (internal/server/commands.go:116-118): the reply is the same. And dispatch has two exits before the
  sync. A write refused for lack of memory (internal/server/commands.go:102-104) may have evicted keys
  and journalled their DELs: a crash then brings them back. A write whose reply cannot be written
  (internal/server/commands.go:107-109) is applied and journalled, and stays unsynced until somebody
  else's next write. `Server.Server.Dispatch` promises, unless the log failed in that very call, that
  everything appended is durable after every write that was run and whose reply was written, and that a
  durable log is still so after any dispatch if and only if the dispatch appended nothing, or wrote its
  reply and was no refusal for lack of memory. `Server.RefusalLeavesEvictionUnsynced` and
  `Server.UnsentReplyLeavesWriteUnsynced` are the witnesses.
- *parseInt rejects `+5`.* The comment (internal/resp/reader.go:179-180) says so; strconv accepts it
  (`Canonical.PlusFiveIsAccepted`). `Canonical.PrintsBackIff` says exactly which accepted numbers are
  spelt as they are printed, and `Canonical.ReplayCountIff` that replay's byte count, which re-encodes
  what it read, is right if and only if everything read was spelt that way.

## Model

| member | source | states |
|---|---|---|
| Bytes.ItoaParsesBack | internal/resp/reader.go:181-183 | every int64 printed in decimal parses back to itself |
| Bytes.DigitsAreDecimal | internal/resp/reader.go:181-183 | a run of digits is read in base ten, most significant first |
| Resp.RoundTrip | internal/resp/reader.go:75-136 | parsing an encoding followed by anything gives the arguments back and leaves exactly the rest, for all binary payloads within the limits |
| Resp.ReadsBackIff | internal/resp/reader.go:84-123 | an encoded command reads back if and only if it is within the limits; beyond them it is a protocol error |
| Resp.PrefixIsTruncated | internal/resp/reader.go:138-177 | every non-empty proper prefix of an encoding is a truncation, never a protocol error or a command; the empty prefix is a clean end |
| Resp.EofIffEmpty | internal/resp/reader.go:69-71 | a clean end is reported exactly when no byte is left; a command consumes at least one |
| Resp.CommandStable | internal/resp/reader.go:48-59 | bytes arriving later change neither a command already read nor where the next one starts |
| Reader.Reader.ReadHeaderLine | internal/resp/reader.go:143-167 | the scanning loop, with its 16 KiB bound, yields the line outcome of the specification and consumes exactly the line |
| Reader.Reader.ReadBulk | internal/resp/reader.go:107-136 | reads exactly the announced bytes and their CRLF, or classifies the failure |
| Reader.Reader.ReadCommand | internal/resp/reader.go:75-104 | the object's outcome and position are those of the specification parser, whose verdict on every stream is characterised by its spelling |
| Grammar.VerdictIff | internal/resp/reader.go:61-177 | for every stream: a command exactly if it is spelt as an array header and as many bulk strings as it promises, a protocol error exactly if a header, a count or a terminator in it is none, a truncation exactly if it ends before either is decided, a clean end exactly if it is empty |
| Grammar.StrayLineIsBroken | internal/resp/reader.go:73-90 | a first line that is no array header is a protocol error, whatever follows |
| Grammar.BrokenStable | internal/resp/reader.go:24-31 | a protocol error stays one however the stream goes on |
| Reader.Reader.ReadArgs | internal/resp/reader.go:97-103 | the argument loop reads as many bulk strings as the header promised, or fails as the specification does |
| Reader.Writer.WriteCountLine | internal/resp/writer.go:133-139 | appends one type byte, the decimal count and CRLF to the stream |
| Reader.Writer.WriteBulkString | internal/resp/writer.go:92-101 | appends the canonical bulk string |
| Reader.Writer.WriteCommand | internal/aof/aof.go:127-137 | the header and the bulk strings written one by one are the canonical encoding that RoundTrip inverts |
| Reader.EncodedLen | internal/aof/replay.go:98-104 | the accumulated count is the exact length of the encoding |
| Frames.WholeCommandsIsLongest | internal/aof/replay.go:59-60 | the number of whole commands in a byte prefix is maximal: they fit and one more would not |
| Frames.CrashAtAnyByte | internal/aof/replay.go:51-94 | a log cut at any byte reads as exactly its longest run of whole commands, with their exact encoded length as byte count, intact if the cut is on a boundary and torn otherwise |
| Frames.WholeLogReadsBack | internal/aof/replay.go:51-94 | an uncut log reads back as itself |
| Frames.LogReadsBackIff | internal/aof/replay.go:51-94 | it does so if and only if every command in it is within the limits, and is corrupt otherwise |
| Frames.RepairThenAppend | internal/aof/replay.go:58-72 | truncating at the byte count leaves the whole commands, and commands appended then read back behind them |
| Grammar.ScanGoesOn | internal/aof/replay.go:51-94 | behind whole commands the scan goes on as if it started there |
| Grammar.JunkIsCorruption | internal/aof/replay.go:58-76 | a log with junk behind whole commands is corrupt, and one with an unfinished command behind them is torn, never the other way round |
| Canonical.PrintsBackIff | internal/resp/reader.go:179-183 | an accepted number prints back as it was spelt if and only if it has no plus sign, no superfluous zero and no minus zero |
| Canonical.PlusIsAccepted | internal/resp/reader.go:179-183 | a plus sign in front of a digit changes nothing |
| Canonical.PlusFiveIsAccepted | internal/resp/reader.go:179-183 | the witness against the comment |
| Canonical.EncodingIsShortest | internal/aof/replay.go:87-93 | no command is shorter on the wire than its canonical encoding, and as short if and only if it is that encoding |
| Canonical.ReplayCountIff | internal/aof/replay.go:79-104 | for every log the byte count never runs past what was read, and is where reading stopped if and only if everything read was canonical |
| Routing.ComputeShardIndex | internal/store/shard.go:11-22 | the byte-by-byte loop over a wrapping 64-bit accumulator computes the routing function |
| Routing.RoutingIsFiveBits | internal/store/shard.go:11-22 | the masked 64-bit hash equals the five-bit recurrence from 5 with multiplier 19, for every key |
| Routing.SameLowBitsSameShard | internal/store/shard.go:11-22 | keys whose bytes agree modulo 32 share a shard |
| Keyspace.DeadlinesDoNotDrift | internal/store/store.go:196-198 | a persisted deadline is never later and less than 1 ms earlier, and persisting it again changes nothing |
| Keyspace.AssignAllLook | internal/store/store.go:335-354 | MSET: the last duplicate wins, assigned keys lose their deadline, other keys are untouched |
| Keyspace.RemovedIsExact | internal/store/store.go:510-530 | the DEL record names exactly the keys that were there, each once |
| Keyspace.SumAllParts | internal/store/evict.go:80-89 | the shards' subtotals add up to the size of the flat keyspace |
| Keyspace.SizeIsTotal | internal/store/evict.go:66-70 | the size of a keyspace is all its key bytes, all its value bytes and 128 per key |
| Journal.RunLook | internal/store/store.go:317-327 | running a log is, for every key, one effect: keep, fix its state, or move its deadline |
| Journal.ReapplyOverPrefix | internal/aof/aof.go:156-157 | re-applying a record sequence over any of its own prefix states gives the same result |
| Journal.SnapshotMeans | internal/store/store.go:592-614 | a snapshot means the floored part it enumerates, laid over whatever was there |
| Restart.RestartIsSound | internal/server/server.go:92-130 | replay through the handlers at any instants never invents or alters a key |
| Restart.RestartIsExact | internal/store/store.go:274-280 | a key the log means to hold comes back if and only if every deadline of its present life was still ahead when the replay met it |
| Restart.RestartAtInstant | internal/store/store.go:447-461 | at one restart instant a live key is shown if and only if every deadline superseded by a PEXPIREAT is after that instant |
| Restart.RestartCanLoseExtendedKey | internal/store/store.go:448-456 | a witness that unconditional completeness is false |
| Protocol.MutationExplained | internal/store/store.go:282-327 | every journalled operation moves memory and the meaning of the history together, however stale its clock reading |
| Protocol.StepKeepsInv | internal/store/store.go:158-182 | every step of the system keeps history and memory in agreement, with at most one record pending |
| Protocol.MutationFollowed | internal/store/store.go:438-466 | a mutation keeps any log that follows the history following it, given that the log holds a key whose deadline moves, or that the new deadline has passed |
| Protocol.TailAbsorbed | internal/aof/aof.go:76-80 | the rewrite tail acts on a state that already contains it as nothing, and fixes a key only to the history's state |
| Protocol.WalkedFollows | internal/store/store.go:595-614 | after a shard is walked, what was copied plus the tail follows the history on that shard |
| Protocol.StepKeepsLog | internal/aof/aof.go:158-231 | append, install and abort keep the log in force following the history |
| Protocol.StepKeepsReplacement | internal/aof/aof.go:76-80 | and the replacement being built following it on every shard already walked |
| Protocol.TimelyIsHarmless | internal/store/store.go:439-441 | a deadline moved while the old one is still ahead is harmless to the log and to the replacement |
| Runs.LogOrderIsMutationOrder | internal/store/store.go:82-97 | in every state of every run the appended records plus the gate holder's pending one explain memory up to expired keys |
| Runs.RewriteIsSafe | internal/aof/aof.go:139-238 | in every state of every run whose moved deadlines were harmless, through any installs and aborts, the log in force agrees with the full history up to expired keys |
| Runs.RewriteIsSafeIff | internal/aof/aof.go:139-238 | over a whole run the log and the replacement follow the history in every state if and only if every deadline the run moves is harmless where it is moved |
| Runs.TimelyRunIsHarmless | internal/store/store.go:439-441 | in a run whose deadlines are all moved in time they are all harmless |
| Runs.LogAlwaysShowsMemory | internal/server/commands.go:353-371 | in such runs, now and at every later instant, the log in force shows exactly memory, deadlines floored |
| Runs.CollectIsInvisible | internal/store/store.go:225-243 | collecting an expired key changes nothing visible now or later |
| Runs.CommitIsSafeIff | internal/store/store.go:438-466 | a mutation leaves the log in force and the replacement being built following the history if and only if it moves no deadline, or one that has passed, or one of a key that the log holds and, once walked past, the replacement holds too |
| Runs.StaleClockLosesKey | internal/store/store.go:439-441 | a fault-free run after which the rewritten log lacks a key every client sees |
| Runs.IncrementsAddUp | internal/store/store.go:358-393 | all interleavings of increments to one key, missing and so counting as 0, without a deadline or with one still ahead, add up to the sum of the successful deltas, and the deadline is kept |
| Faithful.LogShowsMemory | internal/store/store.go:592-614 | the visible meaning of the log equals memory with floored deadlines |
| Protocol.OpOnKey | internal/store/store.go:282-532 | what each operation does to any one key in memory is what its record says: fixes it, moves a live key's deadline, or leaves it |
| Lifetimes.GoneIsNotReplayed | internal/store/store.go:272-279 | a key with a past deadline in its present life never comes back, whatever the later instants of the replay |
| Lifetimes.LostCarriesOver | internal/aof/aof.go:156-157 | what the tail has lost stays lost when a snapshot replaces everything before it |
| Lifetimes.MutationStaysGood | internal/store/store.go:438-466 | a mutation and its record, however stale the clock reading, keep every log that was good for memory good |
| Lifetimes.WalkedIsGood | internal/store/store.go:595-614 | a walked shard plus the tail is good for its keys, lost ones included |
| Lifetimes.RebornIsAlive | internal/server/server.go:85-90 | started on any log at all, the server and its log go together, whatever the replay had to drop |
| Lifetimes.StepKeepsAgreeing | internal/aof/aof.go:158-231 | whatever the log or the replacement says of a key, the history says too |
| Lifetimes.LifetimeStaysAlive | internal/aof/aof.go:139-238 | in every state of every lifetime, stale clock readings included, through any crashes that cut the log and restarts that drop keys, the log in force can show nothing but what memory holds, and says nothing but what the history says |
| Lifetimes.RestartIsFaithful | internal/server/server.go:85-130 | from every such state a restart shows only what memory would show, same value and floored deadline, and a key memory persists comes back if and only if the log means it live and its superseded deadlines are ahead |
| Lifetimes.RestartShows | internal/server/server.go:85-130 | the first half of one state |
| Lifetimes.RestartBrings | internal/server/server.go:85-130 | the second half of any log |
| Lifetimes.HarmlessLifetimeStaysWhole | internal/aof/aof.go:139-238 | in every healthy state of a lifetime whose moved deadlines did no harm, the log and the replacement mean every key memory holds live |
| Lifetimes.WholeIffHarmless | internal/store/store.go:438-466 | and over a whole lifetime they do so if and only if no deadline is moved where it does harm |
| Lifetimes.TimelyDoesNoHarm | internal/store/store.go:439-441 | a deadline moved while the old one is still ahead does none |
| Lifetimes.HarmlessRestartIsFaithful | internal/server/server.go:85-130 | in such a lifetime a key memory persists comes back if and only if its superseded deadlines are ahead |
| Lifetimes.PrefixWasTheLog | internal/aof/aof.go:109-125 | since the last installation or crash, every longer prefix of the log was the whole log in some state, with nothing pending |
| Lifetimes.CrashRecoversAState | internal/aof/replay.go:29-33 | a crash that cuts the log back to such a prefix recovers a point in time: the restart shows only what memory showed in that state |
| Locks.LockOrder | internal/store/shard_locks.go:9-25 | the locked IDs are strictly ascending and exactly the image of the keys |
| Locks.BatchIsClean | internal/store/store.go:506-530 | MSET and DEL take gate, shards and, when they append, log in rank order and give everything back |
| Locks.ExpireIsClean | internal/store/store.go:441-464 | EXPIREAT does too, appending or not, with its own release order |
| Locks.OneAtATimeIsClean | internal/store/store.go:282-296 | operations that visit shards and the log one at a time do too, under the gate or not |
| Locks.LockForKeys | internal/store/store.go:342-352 | while a multi-key command appends, it holds the gate and exactly the shards its keys route to |
| Locks.BatchAppendsInside | internal/store/store.go:506-530 | the same by shard |
| Locks.ExpireAppendsInside | internal/store/store.go:441-464 | EXPIREAT appends holding the gate and its shard |
| Locks.SingleAppendsInside | internal/store/store.go:282-296 | a gated operation that visits one lock at a time appends holding the gate |
| Locks.ScheduleIsOrderly | internal/store/shard_locks.go:5-8 | no lock is ever held twice in a reachable state |
| Locks.NoDeadlock | internal/store/shard_locks.go:5-8 | for any number of clients, in every reachable state with an unfinished one some client can step |
| Commands.RecordsReplay | internal/server/commands.go:164-190 | the handlers accept a record, as exactly the request it stands for, if and only if it is replayable |
| Commands.HandlersReplay | internal/server/server.go:103-130 | what they do then is the record-level replay |
| Commands.FarDeadlineIsAcceptedButUnreplayable | internal/server/commands.go:510-512 | a SET whose expiry is accepted and whose record is refused |
| Commands.NamesIgnoreCase | internal/server/commands.go:72-76 | command names, and SET's options, that are equal up to the case of A to Z decode alike |
| Commands.SameNameIff | internal/server/commands.go:75 | upper-casing makes two names equal if and only if they differ at most in the case of A to Z |
| Commands.LowerCaseIsTaken | internal/server/commands.go:72-76 | `set`, `incr` and `pxat` are taken for SET, INCR and PXAT |
| Client.WritesAreTabled | internal/server/commands.go:43-66 | a command is a write exactly if its name is in the table of ten, in any case, with as many arguments as the table says |
| Client.LivesUntil | internal/store/store.go:62-66 | a key lives before its deadline and not at it, and for good without one |
| Client.CountIsTaken | internal/server/commands.go:496-514 | a count of seconds or milliseconds is taken exactly if it is an int64 and so are the nanoseconds it comes to |
| Client.SetMeans | internal/server/commands.go:150-162 | SET stores the value and clears the deadline |
| Client.SetForMeans | internal/server/commands.go:164-190 | SET with EX or PX stores the value with a deadline that many units from now, or is an error if the count is not positive or not taken |
| Client.SetUntilMeans | internal/server/commands.go:184-188 | SET with EXAT or PXAT likewise from the epoch, and deletes if that is not ahead |
| Client.OtherOptionsFail | internal/server/commands.go:164-196 | any other option, or one without its count, is an error |
| Client.MSetMeans | internal/server/commands.go:231-241 | MSET: of every key the last pair wins, without a deadline, no other key changes, an odd count is an error |
| Client.DelMeans | internal/server/commands.go:267-269 | DEL leaves every other key as it was |
| Client.IncrementMeans | internal/server/commands.go:243-252 | INCR and DECR leave one more or one less than a live number with its deadline, start a key that is not live at 0, and fail on anything else or outside int64 |
| Client.AppendMeans | internal/server/commands.go:254-256 | APPEND leaves a live value followed by the suffix with its deadline, or the suffix |
| Client.ExpireMeans | internal/server/commands.go:451-465 | EXPIRE and PEXPIRE give a live key a deadline that many units from now, and delete it if that is not ahead |
| Client.ExpireAtMeans | internal/server/commands.go:435-449 | EXPIREAT and PEXPIREAT likewise from the epoch |
| Commands.SecondsAreMillis | internal/server/commands.go:402-444 | every form in seconds is the form in milliseconds with a thousand times the count, rejections included |
| Limits.DecodedIsSmall | internal/resp/reader.go:11-22 | what the wire limits guarantee of a decoded request |
| Limits.RecordsFitIff | internal/server/commands.go:505-514 | an accepted write's records are within the reader's limits and the handlers' ranges if and only if its relative deadline and its value stay in range |
| Limits.FitsIff | internal/aof/replay.go:74-93 | which is exactly when the parser gives the record back from its bytes and the handlers take it |
| Limits.WritesComeBackIff | internal/server/commands.go:505-514 | an accepted write's bytes can be read back and taken if and only if its relative deadline and its value stay in range |
| Limits.AppendCanOutgrow | internal/store/store.go:397-419 | an APPEND of one byte to the largest value is accepted, and its record is a protocol error to the reader |
| Limits.KeyspaceGoesOnFitting | internal/store/store.go:408-418 | such writes keep the keyspace within the same limits |
| Limits.EvictionKeepsFit | internal/store/evict.go:127-144 | evictions keep the log readable and the keyspace fitting |
| Limits.WriteKeepsFit | internal/server/commands.go:107-109 | so does an affordable write |
| Limits.SnapshotFits | internal/store/store.go:605-609 | so does a snapshot |
| Limits.InstallKeepsFit | internal/aof/aof.go:158-231 | and the installation of one |
| Limits.ReplayedFits | internal/server/server.go:92-130 | what a readable log rebuilds fits too |
| Store.Store.constructor | internal/store/store.go:142-149 | 32 empty shards that stand for the empty map |
| Store.Store.ShardInvariant | internal/store/store.go:111-132 | a key sits in the shard its hash names, is indexed if and only if it has a deadline, and subtotals are exact |
| Store.Store.PutEntry | internal/store/store.go:298-315 | replaces one entry of the flat map, its access time, its index membership and its share of the subtotal, nothing else |
| Store.Store.Put | internal/store/store.go:298-315 | the same with the access time of the LRU clock |
| Store.Store.Remove | internal/store/store.go:637-644 | removes one entry likewise |
| Store.Store.Propagate | internal/store/store.go:178-182 | hands a record to the journal exactly when one is attached |
| Store.Store.GetProbe | internal/store/store.go:206-223 | a hit exactly for live keys, which it touches; an expired entry is reported for collection |
| Store.Store.Touch | internal/store/store.go:219-222 | moves the key's access time to the LRU clock and nothing else |
| Store.Store.CollectIfExpired | internal/store/store.go:232-243 | after the lock window only an entry expired now goes, so a re-set key survives and nothing visible changes at any later instant |
| Store.Store.Ttl | internal/store/store.go:470-494 | the three answers, and the exact time left |
| Store.Store.Exists | internal/store/store.go:537-552 | counts every occurrence of a live key |
| Store.Store.SetItem | internal/store/store.go:282-327 | the value and deadline replace the old ones, one record carries both |
| Store.Store.SetWithDeadline | internal/store/store.go:274-280 | a deadline already reached deletes instead; the access time follows |
| Store.Store.MSet | internal/store/store.go:337-354 | all assignments in order, the LRU clock's access time for every assigned key, and one record |
| Store.Store.Del | internal/store/store.go:502-532 | removes every key present, with its access time, journals exactly those, counts the distinct live ones |
| Store.Store.ExpireAt | internal/store/store.go:438-466 | moves a live key's deadline without touching its access time, deletes on a past one, collects an expired entry, each with its record |
| Store.Store.Increment | internal/store/store.go:360-393 | a key that is not live becomes the delta without a deadline; a live int64 becomes the true sum with its deadline, if that is an int64; otherwise it fails and changes nothing; no intermediate overflow |
| Store.Store.AppendTo | internal/store/store.go:397-419 | a live value followed by the suffix with its deadline, or the suffix without one; the new length returned |
| Store.Store.Used | internal/store/evict.go:80-89 | the sum of the subtotals is the sum of all entry sizes |
| Store.Store.CountLive | internal/store/store.go:576-585 | counts the live keys of one shard in any walking order |
| Store.Store.DbSize | internal/store/store.go:573-587 | the number of visible keys |
| Store.Store.SnapshotShard | internal/store/store.go:598-612 | exactly one absolute-deadline SET per live key of the shard, in any order |
| Store.Store.AofSnapshot | internal/store/store.go:595-614 | the same for the whole keyspace, shard after shard |
| Store.Store.PickVictim | internal/store/evict.go:154-210 | the oldest of exactly min(5, eligible) distinct eligible keys, exact LRU when at most five are eligible, found if and only if one exists |
| Store.Store.PickAny | internal/store/evict.go:192-196 | the random policy finds an eligible key if and only if one exists |
| Store.Store.SampleShard | internal/store/evict.go:166-207 | one shard's share of the sample keeps the oldest so far and stops at five |
| Store.Store.EnforceMemoryLimit | internal/store/evict.go:112-146 | terminates; distinct droppable victims, each unless the policy is random the oldest of five, or of all, that could be dropped at its turn; one DEL each, only while over budget; succeeds exactly when the keyspace fits; refuses only where the policy leaves nothing to drop |
| Store.EvictionIsLru | internal/store/evict.go:148-153 | with at most five droppable keys, no victim was touched more recently than a droppable key that stays |
| Store.Store.ExpireSample | internal/store/expire.go:95-137 | looks at exactly min(n, volatile) keys and deletes exactly the expired ones among them |
| Store.Store.SweepShard | internal/store/expire.go:110-135 | one shard of the sweep, index and accounting exact |
| Store.Store.ActiveExpireCycle | internal/store/expire.go:72-85 | rounds of min(20, volatile) keys, another exactly after one that found a quarter or more expired, 16 at most; only expired keys go, nothing visible changes, and if all volatile keys are expired exactly min(320, all) are collected |
| Aof.Log.constructor | internal/aof/aof.go:92-99 | opens on whole commands with an empty buffer and no error |
| Aof.Log.Append | internal/aof/aof.go:109-125 | one more record in buffer and file, mirrored to the tail while rewriting, or the latched error |
| Aof.Log.SyncLocked | internal/aof/aof.go:258-271 | on success the buffer is empty, and with fsync everything recorded is durable; a failure latches |
| Aof.Log.Sync | internal/aof/aof.go:244-248 | fsyncs unless the policy is no |
| Aof.Log.SyncIfAlways | internal/aof/aof.go:280-285 | under always, success means everything recorded is durable |
| Aof.Log.BeginRewrite | internal/aof/aof.go:142-154 | succeeds exactly without an error or another rewrite, and starts an empty tail |
| Aof.Log.AbortRewrite | internal/aof/aof.go:233-238 | drops the tail and leaves the log in force as it was |
| Aof.Log.FinishRewrite | internal/aof/aof.go:158-231 | installs snapshot plus tail, durable at once, or leaves the log in force untouched; a failed reopen latches with the replacement already durable; without an I/O fault it installs exactly if a rewrite is under way and the log has not failed |
| Aof.CrashKeepsPrefix | internal/aof/replay.go:29-33 | a crash at any moment leaves a disk that reads as a prefix of the appended records, never as corruption |
| Aof.CrashKeepsSynced | internal/aof/aof.go:33-45 | every record that ends inside the synced part is read back |
| Serial.Take | internal/store/store.go:158-182 | one more timely step of a path keeps everything a lifetime promises |
| Serial.PathIsLifetime | internal/server/server.go:85-130 | a path from a server's birth is a lifetime with every deadline moved in time |
| Serial.HandleIsRun | internal/server/commands.go:107-109 | handling a request at the current instant extends any path of protocol steps by the handler's effect |
| Serial.EvictAll | internal/store/evict.go:127-144 | so does an eviction loop, one record per key |
| Serial.WalkAll | internal/store/store.go:595-614 | so does a snapshot of all shards |
| Server.GrowthIsBounded | internal/store/evict.go:109-111 | no request grows the keyspace by more than the entries it stores |
| Server.StoredIsWhatItCarries | internal/store/evict.go:66-70 | those entries are the arguments' bytes and 128 each; a counter is at most 20 bytes |
| Server.Execute | internal/server/commands.go:142-268 | the handlers, run on the sharded store, have the effect, records, error and access times of the flat specification |
| Server.Server.constructor | internal/server/server.go:73-83 | a store that has replayed any log, attached to it, starts inside the protocol on an empty path |
| Server.Server.Forward | internal/store/store.go:178-182 | records reach the log in order, none of them synced yet; if the error latches, exactly a prefix of them did |
| Server.Server.MakeRoom | internal/server/commands.go:98-105 | evictions before the write, each in the log, the oldest of a sample first, within the policy |
| Server.Server.Apply | internal/server/commands.go:107-109 | memory and log advance together by the handler's effect, and go on being readable if the request is affordable |
| Server.Server.Perform | internal/server/commands.go:107-120 | what was decoded is run in the room made for it, and synced under always unless its reply cannot be written |
| Server.Server.Admit | internal/server/commands.go:98-121 | behind the first gate: room is made and the command run in it, or refused |
| Server.Server.Dispatch | internal/server/commands.go:73-121 | each reply exactly when the code gives it; refusals leave the write unapplied; acceptance is the handler's effect behind the evictions, in memory and log; under always, unless the log failed in this call, everything appended is durable after a write that was run and whose reply was written, and a durable log stays so if and only if the call appended nothing or neither was refused for lack of memory nor failed to write its reply; an accepted write leaves used memory within its own entries of the budget, and no dispatch leaves that bound; as a whole it is the evictions followed by what the command does by its name, or nothing |
| Server.RefusalLeavesEvictionUnsynced | internal/server/commands.go:98-105 | a fault-free run under volatile-lru and always whose refused write leaves the DEL of an evicted key off stable storage |
| Server.UnsentReplyLeavesWriteUnsynced | internal/server/commands.go:107-109 | a fault-free run under always whose accepted write, its reply undeliverable, is off stable storage |
| Server.Server.ExpireCycle | internal/store/expire.go:51-68 | the ticker changes nothing visible and needs no record |
| Server.Server.Lookup | internal/store/store.go:206-243 | the value of a key live now, which is touched; an expired entry goes after the window; nothing visible changes and nothing is logged |
| Server.Server.BeginRewrite | internal/server/commands.go:353-359 | starts a rewrite inside the protocol, exactly if there is a log, it has not failed and none is under way |
| Server.Server.TakeSnapshot | internal/server/commands.go:361-363 | the snapshot the rewriter will install |
| Server.Server.FinishRewrite | internal/server/commands.go:364-369 | on success the log holds the snapshot followed by exactly what was appended since the rewrite began, all durable; giving up leaves it alone; without an I/O fault it succeeds |
| Server.Server.SyncTick | internal/aof/aof.go:287-313 | the timer empties the buffer, under everysec makes everything appended durable, keeps the server linked, and does nothing after a failure |
| Server.ValuesGrowSlowly | internal/store/store.go:397-419 | no write makes a value longer than the longest so far, or a counter, plus what it carries |
| Server.Server.ServeOne | internal/server/server.go:132-148 | one request, lookup, tick, rewrite step or sync does to keyspace, access times, clock and log what that event does, and keeps all of the following |
| Server.Server.Serve | internal/server/server.go:132-148 | over any sequence of requests, lookups, ticks, rewrites and syncs: the events have happened to keyspace, access times, clock and log one after another; linked to the protocol by a path from birth, which stands still where the log fails; readable if every command is within range up to the end; within one write of the budget once there; and once the log has failed neither live data nor log ever changes again |
| Stories.RewriteKeepsTheRest | internal/server/commands.go:353-371 | whatever happens before, during and between the steps of a rewrite, the log it installs is one SET per key visible when the snapshot was taken followed by exactly what was appended since it began; without an I/O fault it installs it |
| Stories.RewrittenLogReadsBack | internal/aof/replay.go:51-94 | and such a log reads back as exactly that |
| Stories.DispatchEvictsOldest | internal/server/commands.go:98-105 | of at most five droppable keys, a dispatched command drops none touched more recently than one it keeps |
| Stories.UnlimitedDispatch | internal/server/commands.go:107-109 | without a memory budget, what a command does by its name is the whole difference a dispatch makes |
| Startup.ApplyLogged | internal/server/server.go:103-130 | accepts exactly the write commands whose handler succeeds, with the handler's effect and no journalling |
| Startup.Replay | internal/aof/replay.go:39-95 | success: everything read is applied in order and a torn tail is cut at the byte count; failure: corruption or a refused command, and the file is left alone |
| Startup.ReplayStopsAtJunk | internal/aof/replay.go:74-76 | on a log with junk behind whole commands the server does not start, the file is left alone, and no more than those commands has been applied |
| Startup.ReplayTurn | internal/aof/replay.go:79-93 | one command: taken, the counts advance by its exact encoding; refused, the replay halts where it was |
| Startup.RecordsRebuild | internal/server/server.go:92-98 | the handlers accept a log whole if and only if every record is replayable, and then rebuild the record-level replay |
| Startup.StartsIff | internal/server/server.go:92-130 | a whole log is intact to the reader and accepted by the handlers if and only if every record in it is readable; otherwise it is corrupt or refused |
| Startup.Boot | cmd/redisclone/main.go:64-94 | on any byte prefix of a readable log the server starts: the torn command is cut, everything before it is replayed, and the result is a live state of the protocol on exactly those records, readable again |
| Startup.CrashIsATurn | internal/aof/replay.go:29-33 | any crash of a server with a readable log, failed or not, whatever prefix covering the synced part it leaves, is a turn of its lifetime that keeps every record synced whole |
| Startup.Reboot | cmd/redisclone/main.go:64-94 | such a crash and the startup after it lead from the old server's protocol state, the one its log failed in if it did, to the new one's by that turn, with every synced record |
| Startup.CrashAndRestart | internal/server/commands.go:111-118 | once everything is durable and every accepted write was affordable, any crash and restart reads the whole log back, accepts all of it, and shows exactly what memory would, up to superseded deadlines |

## Left out

- Sockets, the accept loop, draining, connection buffering, profiling, flags, logging: I/O.
- INFO, CONFIG, PING, ECHO, MGET, STRLEN and their reply text: they would only add easy members; the dispatcher answers everything that is not a write with `NotHandled`.
- Reply bytes other than the kind of reply; keyspace and command statistics.
- Rounding of TTL replies to seconds or milliseconds, ParseMemory, ParseEvictionPolicy.
- Commands.NamesIgnoreCase: folds ASCII letters only; Unicode upper-casing of command names is not modelled.
- Go's memory model, mutex fairness, and the real heap cost of an entry; read locks count as exclusive in the lock model.
- Multi-key reads as cross-shard snapshots: EXISTS, DBSIZE and Used are modelled without interference.
- Atomicity of INCR and APPEND without a journal: the gate is then absent and the code does not provide it.
- The temporary file's own writes before the rename: one outcome, prepared or not.
- Aof.Log.Append: the bytes that spill to the kernel are arbitrary, not decided by the 64 KiB buffer size.
- Startup.CrashAndRestart: concerns servers whose accepted writes were all affordable (`fits`), because the code accepts others whose records no restart can read (Limits.RecordsFitIff).
- Startup.CrashIsATurn: concerns readable logs, because no server starts on any other whole log (Startup.StartsIff); what a crash inside an unreadable record leaves is not classified.
- Startup.Reboot: the same.
- Two clocks: deadlines in memory compare by the monotonic clock (internal/store/store.go:54-58) and are persisted by the wall clock; the model has one clock, so a step of the wall clock is not modelled.
- Lifetimes.PrefixWasTheLog: the prefix that an installation itself left, while a record was pending, is not covered; no state had that log and nothing pending.

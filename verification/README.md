# BlazeKV: a verified model

BlazeKV is a sharded, in-memory key-value store that speaks the Redis protocol. Each shard runs on its own
thread, owns the keys that hash to it, and reaches the others only through lock-free mailboxes. This project models the parts
of the store whose correctness is least visible in the code and proves what they are for:

| file | what it models |
|---|---|
| `Options.dfy` | a value that may be missing, shared by all |
| `Ordering.dfy`, `SkipList.dfy`, `ZSet.dfy`, `ZRange.dfy` | the order of sorted-set keys, the indexable skip list as heap nodes with forward links and spans, the sorted set, and the range commands from their arguments to the bytes of the reply |
| `SwissTable.dfy` | the open-addressing hash table: control bytes with mirrored tail, unaligned 16-byte windows, tombstones, both kinds of rebuild |
| `Mailbox.dfy` | the multi-producer queue, one compare-and-swap or exchange at a time, with node addresses reused |
| `Resp.dfy`, `Intake.dfy` | the request parser and encoder, a connection's input buffer, and the cutting of a stream into commands |
| `Pipeline.dfy`, `Routing.dfy`, `Protocol.dfy`, `ReplyOrder.dfy`, `ShardOrder.dfy`, `Quiescence.dfy`, `Execution.dfy` | reply slots, routing and splitting of commands, and the whole server as a transition system of shards, mailboxes and connections |
| `Reply.dfy` | the client's reader of replies, against the program's writers |
| `Handlers.dfy`, `Commands.dfy` | the command handlers, step by step and as functions of the keyspace |
| `OptionWords.dfy`, `Laws.dfy` | what the options and the commands do, told from the words of the request, the keyspace before and after, and the reply as a client reads it |
| `Split.dfy`, `SplitRun.dfy` | split commands against unsplit ones, part by part and in runs of the whole server |
| `Replay.dfy`, `Aof.dfy` | the append-only log, replay, and recovery after a crash |
| `Snapshot.dfy`, `SnapshotFile.dfy` | snapshot files |
| `Hnsw.dfy`, `HnswIndex.dfy` | the layered graph for vector search |
| `Glob.dfy` | the pattern matcher of KEYS and SCAN |
| `Keyspace.dfy` | the keyspace with deadlines, lazy and active expiry |
| `Slab.dfy` | the slab allocator |

The shape is the same throughout. What the program does step by step is a method or a transition relation, with loops where the
program has loops and objects where the program updates fields. Each is proved against a function or relation that says what it is for, and the
results are lemmas about those. Where such a function would be the only account of what is meant, a second one stands beside it that does not use it, with a lemma that connects the two: the order of
members by the first byte that differs, requests by a grammar, replies by a reader, patterns by the pieces they are written in, options by the words at option positions, and each command by a law over the
command word and the keyspace. Results hold for every input, every run, every interleaving; random choices (tower
heights, graph levels), table iteration orders, the order of ties in a sort, and how many bytes one system call takes are arbitrary.

Conventions. Scores and distances are integers that stand for ranks in the order of the doubles (or floats) that are not NaN; reading,
adding and printing doubles are parameters, and so are the replies of the reads that are not modelled one by one. The hash function, the handlers seen by the protocol, the clock and the command table are parameters. A character stands
for a byte. What a client is told is stated for replies there are bytes for (`Replies.Sayable`: numbers of 64 bits, and lines without a CRLF in them). Where the code departs from its evident intent, the model follows the code; the departures are lemmas below, each with the
condition that separates the inputs on which the code meets the property from those on which it does not: `Splits.SplitTouchDeletes`, `Splits.SplitAgrees` (MGET), `Routing.OverrunExactly` (MSET),
`ShardOrder.SameShardOrder` with `ShardOrder.Overtaken`, `Globs.GlobExact`, `Resp.InlineStableExactly`, `Replies.ErrorReadsExactly` (a client cannot tell where an error with a CRLF in it ends), `Snapshots.RoundTrip` (deadline zero), `Snapshots.LoadsExactly` (long strings),
`Replay.ZAddFaithfulExactly`, `Keyspaces.ClockExactly`, `Intakes.LostAtTheEnd` (commands that the last bytes before the end of a stream complete),
`Intakes.StreamReadsBackExactly` (an inline command may have more arguments than the parser takes back from the log). `Replay.TimedSetReplays` shows on one family of runs, exactly, how the log fails a SET with a time.

## Model

| member | source | states |
|---|---|---|
| Ordering.RankUnique | include/blazekv/skiplist.hpp:54-63 | a sorted sequence has exactly one cut with the smaller keys before it and none after: the place an insert finds |
| Ordering.InsertKeySorted | include/blazekv/skiplist.hpp:50-88 | inserting a new key keeps the sequence sorted and adds exactly that key |
| Ordering.RemoveKeySorted | include/blazekv/skiplist.hpp:90-108 | removing a key keeps the sequence sorted and takes away exactly that key |
| Ordering.RemoveUndoesInsert | include/blazekv/skiplist.hpp:50-108 | erasing what was just inserted gives back the old sequence |
| Ordering.SortedUnique | include/blazekv/object.hpp:30-34 | a sorted sequence is determined by its members |
| Ordering.StrLessMeans | include/blazekv/skiplist.hpp:56-58 | one member comes before another exactly when, after a common beginning, it ends first or has the smaller byte |
| Ordering.SortedRises | include/blazekv/skiplist.hpp:54-63 | a sequence is sorted exactly when scores rise, and members rise in that order where scores are equal |
| SkipLists.InsertLinked | include/blazekv/skiplist.hpp:74-80 | linking a new tower of any height keeps every forward link and every span exact on all levels, including spans to the end of the list |
| SkipLists.RemoveLinked | include/blazekv/skiplist.hpp:161-169 | unlinking a tower keeps every forward link and span exact on all levels |
| SkipLists.LowerLinked | include/blazekv/skiplist.hpp:174 | dropping empty top levels keeps the structure |
| SkipLists.SkipList.Insert | include/blazekv/skiplist.hpp:50-88 | insertion into the heap structure is insertion into the sorted sequence, for every tower height; links, spans, back links and tail stay exact; the keys rise by score, then byte by byte by member |
| SkipLists.SkipList.Erase | include/blazekv/skiplist.hpp:90-108 | erasing is removal from the sorted sequence, reporting whether the key was there |
| SkipLists.SkipList.RemoveNode | include/blazekv/skiplist.hpp:161-176 | taking one node out of all its levels removes exactly its key |
| SkipLists.SkipList.RankOf | include/blazekv/skiplist.hpp:111-125 | the one-based sorted position of the key, or 0 when absent |
| SkipLists.SkipList.AtRank | include/blazekv/skiplist.hpp:128-139 | the node at a one-based position, null outside the list |
| SkipLists.SkipList.FirstGte | include/blazekv/skiplist.hpp:142-148 | the exact lower bound by score |
| ZSets.InStepInsert | include/blazekv/object.hpp:47-49 | adding to the dictionary and the list keeps them holding the same pairs |
| ZSets.InStepRemove | include/blazekv/object.hpp:52-57 | removing from both keeps them holding the same pairs |
| ZSets.ListFollowsDictionary | include/blazekv/object.hpp:30-60 | the list is determined by the dictionary |
| ZSets.ZSet.Set | include/blazekv/object.hpp:39-50 | setting a score updates the dictionary like a map and keeps the list in step; true exactly for a new member |
| ZSets.ZSet.Remove | include/blazekv/object.hpp:52-59 | removal from both, true exactly when the member was there |
| ZSets.ZSet.ZRank | src/commands/zset_cmds.cpp:154-173 | the zero-based position of a member among the entries, which rise by score, then byte by byte by member |
| ZSets.BetweenClamped | src/commands/zset_cmds.cpp:221-231 | the entries between two signed positions are the clamped slice |
| ZSets.BetweenInDirection | src/commands/zset_cmds.cpp:219-239 | the entries between any two positions of a sorted set rise by score and then byte by byte, or fall with REV |
| ZSets.ZSet.ZRange | src/commands/zset_cmds.cpp:219-239 | forward and REV, for any signed indices: the entries between the positions, in the order of scores and then of members by their bytes, and the count the header is made from |
| ZSets.ZSet.ZRangeByScore | src/commands/zset_cmds.cpp:272-283 | filtering by the bounds, then offset and limit |
| ZRanges.ZRange | src/commands/zset_cmds.cpp:196-239 | ZRANGE as a command: REV and WITHSCORES anywhere after the indices, the errors in their order, and the reply, which a client reads as an array of exactly the entries, in their direction |
| ZRanges.ZRangeByScore | src/commands/zset_cmds.cpp:241-291 | ZRANGEBYSCORE as a command: exclusive bounds, LIMIT with its lenient integers, WITHSCORES, the errors in their order, and the reply, which a client reads as an array of exactly the entries |
| ZRanges.FieldsAre | src/commands/zset_cmds.cpp:230-238 | as many strings are sent as the header announces, twice as many with scores, each entry's in its place |
| ZRanges.FieldsSay | src/commands/zset_cmds.cpp:230-238 | a client reads the members, each followed by its score when asked for, as one array |
| ZRanges.ScoreOptionsMean | src/commands/zset_cmds.cpp:243-255 | WITHSCORES counts exactly at an option position; offset and limit are the leading integers behind the last LIMIT at one, which takes two arguments with it |
| ZRanges.LeadingIntReads | src/store/object.cpp:59-63 | what LIMIT reads of an argument that does not end with the number: the integer it begins with |
| ZRanges.BoundReads | src/commands/zset_cmds.cpp:27-34 | a bound is exclusive exactly behind a parenthesis, which is not part of the number |
| ZSets.ZSet.CollectScores | src/commands/zset_cmds.cpp:271-276 | the walk from the lower bound collects all and only the entries within the bounds |
| SwissTables.MaskWraps | include/blazekv/swiss_table.hpp:56-67 | masking by a power of two less one is the remainder, so windows walk round the ring |
| SwissTables.MirroredRead | include/blazekv/swiss_table.hpp:173-178 | an unaligned window read past the end sees the same bytes as the ring |
| SwissTables.ProbeEnds | include/blazekv/swiss_table.hpp:58-68 | a probe over a table with an unused slot cannot go all the way round |
| SwissTables.AbsentKey | include/blazekv/swiss_table.hpp:66 | a window with an empty byte and no match proves the key absent, whatever tombstones came before |
| SwissTables.NextWindow | include/blazekv/swiss_table.hpp:58-68 | windows that step by 16 from any start tile the ring |
| SwissTables.FillSlot | include/blazekv/swiss_table.hpp:108-112 | filling a free slot keeps keys unique, all keys reachable, the mirror, and the counts, and reuses tombstones correctly |
| SwissTables.BurySlot | include/blazekv/swiss_table.hpp:127-136 | burying a slot keeps every other key reachable and the counts right |
| SwissTables.SwissTable.Find | include/blazekv/swiss_table.hpp:54-69 | lookup is the lookup of the mathematical map, for any hash function |
| SwissTables.SwissTable.InsertOrAssign | include/blazekv/swiss_table.hpp:78-114 | insertion is map update; reports whether the key was new and returns its slot |
| SwissTables.SwissTable.Erase | include/blazekv/swiss_table.hpp:117-143 | erasing is map removal and reports whether the key was there |
| SwissTables.SwissTable.MakeRoom | include/blazekv/swiss_table.hpp:79-85 | growing or rebuilding at the same size leaves room for one more and the same map |
| SwissTables.SwissTable.Rehash | include/blazekv/swiss_table.hpp:243-265 | either rebuild keeps the map and drops all tombstones |
| SwissTables.SwissTable.Reserve | include/blazekv/swiss_table.hpp:152-156 | reserving keeps the map |
| SwissTables.SwissTable.Clear | include/blazekv/swiss_table.hpp:158-163 | clearing gives the empty map |
| SwissTables.EntriesEnumerate | include/blazekv/swiss_table.hpp:145-150 | the live slots in order list each entry of the map exactly once |
| SwissTables.SwissTable.ForEach | include/blazekv/swiss_table.hpp:145-150 | for_each visits every entry of the map once |
| Mailboxes.StepRefines | include/blazekv/mpsc.hpp:33-65 | each atomic step, under any interleaving and address reuse, enqueues one item, dequeues the oldest, or changes nothing a client sees |
| Mailboxes.RunInv | include/blazekv/mpsc.hpp:33-65 | over every run, items run, then the batch being drained, then the reversed stack are the push order |
| Mailboxes.ProducerOrder | include/blazekv/mpsc.hpp:33-65 | items of one producer run in the order it pushed them, none twice |
| Mailboxes.DrainedMeansRun | include/blazekv/mpsc.hpp:45-65 | when the queue is empty and at rest, every item pushed has run |
| Mailboxes.DrainBegins | include/blazekv/mpsc.hpp:46-47 | a drain takes the whole queue at its exchange |
| Mailboxes.DrainContinues | include/blazekv/mpsc.hpp:45-65 | a drain in progress stays on its batch whatever producers do |
| Mailboxes.DrainRunsItsBatch | include/blazekv/mpsc.hpp:45-65 | on every run, a drain from its exchange to its end runs exactly the items queued at the exchange, in order, and counts them |
| Mailboxes.DrainEnds | include/blazekv/mpsc.hpp:56-64 | a finished drain has run exactly what its exchange took, in order, and counted each |
| Resp.DecRead | src/store/object.cpp:59-63 | printing a 64-bit integer and reading it back gives it back |
| Resp.DecimalPrinted | src/proto/resp.cpp:25-29 | the rules of decimal notation for printing: the ten digits, a digit behind a number, a minus sign |
| Resp.DecimalRead | src/proto/resp.cpp:19-23 | the same rules for reading, up to the limits of 64 bits |
| Resp.ParseMultibulkLoop | src/proto/resp.cpp:40-76 | the parsing loop computes the request grammar's verdict, argument by argument |
| Resp.EncodeLoop | src/proto/resp.cpp:154-169 | the encoding loop writes the request form |
| Resp.KnownRequest | src/proto/resp.cpp:154-169 | the bytes of a request, spelled out |
| Resp.RequestMeans | src/proto/resp.cpp:40-76 | the parser takes exactly what the grammar of requests derives, and refuses, with its reason, exactly what no later byte can make a request |
| Resp.InlineMeans | src/proto/resp.cpp:78-107 | an inline request is the words of the line up to the first CRLF, or without one up to the first line feed; too long a line without an end is refused |
| Resp.WordsMean | src/proto/resp.cpp:98-105 | the words of a line are all its longest stretches without blanks, in order |
| Resp.DecodeEncode | src/proto/resp.cpp:40-76 | parsing an encoded command followed by anything gives the command and consumes exactly it |
| Resp.ReadsBackExactly | src/proto/resp.cpp:40-50 | an encoded command with more than 1048576 arguments is a protocol error, any other is read back |
| Resp.MultibulkStable | src/proto/resp.cpp:40-76 | a verdict on a multibulk request is not changed by later bytes |
| Resp.StrictPrefixNeedsMore | src/proto/resp.cpp:40-76 | every strict prefix of an encoded command asks for more |
| Resp.InlineStableExactly | src/proto/resp.cpp:80-96 | a verdict on an inline buffer survives every extension exactly when the buffer holds a CRLF |
| Resp.InlineUnstable | src/proto/resp.cpp:80-96 | an input on which it does not: a later CRLF is preferred to an earlier bare line feed |
| Intakes.Connection.HandleReadable | src/server/shard.cpp:184-209 | reading while chunks come in full, until the end of the stream, an error or nothing more; then the size limit, and parsing to exhaustion unless the stream is over |
| Intakes.ReadingMeans | src/server/shard.cpp:184-201 | one readable event takes all full chunks and the first short one, and finds the stream over exactly when an end or an error comes instead |
| Intakes.LostAtTheEnd | src/server/shard.cpp:194-206 | after any chunks, what has been dispatched when the last bytes come with the end of the stream and when they do not: nothing is lost exactly when those bytes complete no command |
| Intakes.StreamReadsBackExactly | src/proto/resp.cpp:40-76 | a stream of encoded commands is read back whole exactly when none has more than 1048576 arguments |
| Intakes.Connection.ProcessInput | src/server/shard.cpp:211-236 | the parse loop dispatches every complete command and keeps the rest |
| Intakes.WholeIsLongest | src/server/shard.cpp:86-101 | the number of whole commands in a cut stream is the largest that fits |
| Intakes.CutStream | src/server/shard.cpp:86-101 | a stream of encoded commands cut at any byte yields exactly its whole commands, without error |
| Intakes.AnyChunking | src/server/shard.cpp:184-236 | after any chunks of an encoded stream a connection has dispatched the commands wholly received and holds the rest |
| Intakes.ChunkingIrrelevant | src/server/shard.cpp:184-236 | any two chunkings of a stream dispatch the same commands and leave nothing over |
| Pipelines.Connection.FlushReady | src/server/shard.cpp:239-246 | flushing sends the leading ready replies in order of their numbers and stops at the first that is not ready |
| Pipelines.Connection.CompleteFragment | src/server/shard.cpp:505-521 | a fragment fills its own part of its own slot; the last one assembles the reply and flushes |
| Pipelines.Connection.Assemble | src/server/shard.cpp:482-503 | the reply bytes by kind: the one fragment, an array of all of them, OK, or the sum |
| Pipelines.ParseRespInteger | src/server/shard.cpp:30-42 | the loop reads the number of an integer reply, 0 for any other |
| Pipelines.IntReplyRead | src/server/shard.cpp:30-42 | reading a written integer reply gives the integer |
| Replies.SimpleSays | src/proto/resp.cpp:112-116 | a client reads a simple reply whose text holds no CRLF, followed by anything, as that text and consumes exactly it |
| Replies.ErrorReadsExactly | src/proto/resp.cpp:118-122 | the same of an error reply, exactly when its text holds no CRLF |
| Replies.IntSays | src/proto/resp.cpp:124-128 | the same of a 64-bit integer reply |
| Replies.BulkSays | src/proto/resp.cpp:130-136 | the same of a bulk reply, whose closing CRLF the reader checks |
| Replies.NilSays | src/proto/resp.cpp:138 | the same of the null reply |
| Replies.NilArraySays | src/proto/resp.cpp:139 | the same of the null array |
| Replies.ArraySays | src/proto/resp.cpp:141-145 | a header and fragments that each say one item are read as the array of these items |
| Replies.KnownBytes | src/proto/resp.cpp:112-145 | the bytes of some replies, spelled out |
| Routing.ExtractKeys | src/commands/registry.cpp:140-150 | the loop collects the keys by first, last and stride |
| Routing.KeyPositions | src/commands/registry.cpp:140-150 | which arguments are keys: all those whole strides after the first, up to the last |
| Routing.KeysMean | src/commands/registry.cpp:140-150 | the keys by a row of the table: whole strides from the first, up to a last that counts from the end when negative and is cut off at the last argument |
| Routing.LowerMeans | src/server/shard.cpp:19-22 | folding case turns each capital letter into its small one and keeps every other character |
| Routing.SameOwner | src/server/shard.cpp:320-328 | whether all keys have one owner |
| Routing.SplitLoop | src/server/shard.cpp:447-478 | one sub-request for each key, to its owner, in order, unless a value is missing |
| Routing.OverrunExactly | src/server/shard.cpp:455-460 | the arguments are read past their end exactly for MSET with an even number of arguments and keys on several shards |
| Routing.MSetOverruns | src/server/shard.cpp:455-460 | an input that does: MSET a 1 b |
| Routing.Dispatch | src/server/shard.cpp:288-349 | the routing decision: error, run here, forward, split, or refuse |
| Laws.RefusalLaw | src/server/shard.cpp:309-347 | a command is refused exactly when its word is unknown, the number of its arguments does not fit, or its keys are on several shards and it is none of the six that are split; the client is told which |
| Routing.RoutesHome | src/server/shard.cpp:288-349 | whatever is run for a command is run on the shard that owns the keys it touches |
| Protocols.SubmitKeeps | src/server/shard.cpp:400-479 | submitting puts each fragment in flight exactly once and disturbs no other connection |
| Protocols.RunKeeps | src/server/shard.cpp:412-418 | running a request turns it into its one completion, for the right connection, with the reply it produced |
| Protocols.ArriveKeeps | src/server/shard.cpp:505-516 | a completion is taken in once and concerns its own slot only |
| ReplyOrder.ReadyIsAnswer | src/server/shard.cpp:482-503 | a ready slot holds exactly the bytes its command is owed |
| ReplyOrder.CompleteKeeps | src/server/shard.cpp:505-521 | a completion finds its slot wide enough and keeps the connection's invariant |
| ReplyOrder.NextKeeps | src/server/shard.cpp:120-521 | every step of the server keeps the whole invariant |
| ReplyOrder.NeverStuck | src/server/shard.cpp:120-154 | every enabled step can be taken: no message can be malformed |
| ReplyOrder.RepliesInOrder | src/server/shard.cpp:239-349 | on every run slot numbers are one interval ending at next_seq, and the bytes sent are the replies of commands 0, 1, 2, ... in submission order |
| ReplyOrder.CountersExact | src/server/shard.cpp:400-521 | on every run a slot's counter is the number of messages in flight for it, and it is ready exactly at zero |
| ShardOrder.SameShardOrder | src/server/shard.cpp:288-478 | two commands of a connection run on a shard in submission order, except that a command run inline on the connection's own shard can pass a part of an earlier split command |
| ShardOrder.Overtaken | src/server/shard.cpp:330-332 | the exception happens for every split command with a part for the connection's own shard: a run in which a later command runs before the first such part |
| ShardOrder.OvertakenOnOneKey | src/server/shard.cpp:330-332 | with two shards, GET of a key runs before an earlier DEL of the same key |
| ShardOrder.KeyRunsAtOwner | src/server/shard.cpp:314-348 | on every run, what touches a key runs on the shard the key hashes to |
| ShardOrder.KeysStayHome | src/server/shard.cpp:314-348 | on every run, every stored key is on its own shard |
| Quiescence.DeliveriesBounded | src/server/shard.cpp:400-521 | however deliveries are scheduled, each uses up one unit of a finite amount of work |
| Quiescence.BecomesQuiet | src/server/shard.cpp:147-153 | with no new input, delivering empties every mailbox |
| Quiescence.QuietMeansAnswered | src/server/shard.cpp:239-246 | with empty mailboxes, flushing leaves no slot and every command answered in order |
| Quiescence.DeliverTouchesItsOwner | src/server/shard.cpp:505-510 | a message changes no connection but the one that submitted its command |
| Quiescence.LogIsInput | src/server/shard.cpp:211-236 | the commands answered are the commands parsed, one slot each, routed as dispatch says |
| Quiescence.EachRunsOnce | src/server/shard.cpp:412-478 | every reply to a request comes from an execution of the part's own arguments on its shard; nothing runs twice, from a mailbox or from a connection |
| Executions.RunsInline | src/server/shard.cpp:330-339 | every command that was to run on its connection's shard has run there, with its arguments and the reply on record |
| Executions.RunsInTurn | src/server/shard.cpp:351-377 | on every run a shard's keyspace and all replies it produced are those of running the commands of its trace one after another from nothing, with only its expiries in between |
| Executions.RepliesEarned | src/server/shard.cpp:239-521 | every answer is the refusal routing gave, the reply of the command's one execution, or assembled from the replies of its parts' executions; what was sent is the first answers in submission order |
| Quiescence.MGetAnswer | src/server/shard.cpp:489-492 | a split MGET is answered by an array whose i-th element is the reply to GET of key i from its owner |
| Commands.Context.DelKeys | src/commands/generic_cmds.cpp:62-68 | DEL removes the keys and counts each present one once; dirty exactly when some was there |
| Commands.Context.ExistsKeys | src/commands/generic_cmds.cpp:72-77 | EXISTS counts with repetitions and changes nothing |
| Commands.Context.MGet | src/commands/string_cmds.cpp:250-262 | MGET answers an array with, for each key in order, its string, or null when it is missing or no string, as a client reads it |
| Handlers.MGetSays | src/commands/string_cmds.cpp:250-262 | a client reads the reply of MGET as the array of the strings and nulls |
| Commands.Context.MSet | src/commands/string_cmds.cpp:264-274 | MSET stores the pairs in order, or refuses an even count of arguments |
| Commands.Context.SetKey | src/commands/string_cmds.cpp:69-135 | SET with NX, XX, GET, KEEPTTL and the time options: the value, the reply and the table of deadlines it leaves |
| OptionWords.ReadsWords | src/commands/string_cmds.cpp:75-105 | each flag of SET is set exactly when its word stands at an option position, where a time word takes the next argument with it; the deadline is the one the last time word asks for in its unit |
| OptionWords.SetRefuses | src/commands/string_cmds.cpp:86-105 | a SET with an option it cannot take changes nothing and tells what is wrong with the first such |
| OptionWords.SetKeepsOff | src/commands/string_cmds.cpp:108-118 | NX on a string and XX on a missing key change nothing; with GET the client is told of the string in the way |
| OptionWords.SetStores | src/commands/string_cmds.cpp:120-134 | otherwise the value is stored, other keys stay, GET tells of the old string, and the deadline is the one asked for, the one kept with KEEPTTL, or none |
| Commands.Context.HSetFields | src/commands/hash_cmds.cpp:31-52 | HSET and HMSET store the pairs and count the new fields |
| Commands.Context.HDelFields | src/commands/hash_cmds.cpp:76-93 | HDEL removes fields, drops an emptied hash, and is dirty exactly when some field went |
| Commands.Context.PushItems | src/commands/list_cmds.cpp:22-36 | pushing at the head reverses the arguments, at the tail keeps them |
| Commands.Context.PopItems | src/commands/list_cmds.cpp:38-71 | popping takes up to count items off one end, in order, and drops an emptied list |
| Commands.Context.SAddMembers | src/commands/set_cmds.cpp:25-40 | SADD is union, counting the new members |
| Commands.Context.SRemMembers | src/commands/set_cmds.cpp:42-59 | SREM is difference, counting what went |
| Commands.Context.ZAddMembers | src/commands/zset_cmds.cpp:38-107 | ZADD with its flags, pair by pair, stopping at an unreadable score |
| OptionWords.ZAddMeans | src/commands/zset_cmds.cpp:67-106 | for every member, with the flags as words: NX changes no score that was there, XX adds none, GT never lowers, LT never raises, a member not given stays as it was, without flags the last score counts; other keys stay |
| OptionWords.ZFlagsRead | src/commands/zset_cmds.cpp:39-52 | the flags are exactly the words up to the first that is none |
| OptionWords.ZAddRefuses | src/commands/zset_cmds.cpp:53-63 | without a score for every member, or on a key of another kind, nothing changes, and the client is told why |
| OptionWords.ZAddCounts | src/commands/zset_cmds.cpp:71-106 | the reply counts the new members; an unreadable score is told |
| OptionWords.ZAddOne | src/commands/zset_cmds.cpp:69-106 | for one member, exactly: what each flag lets through, what is stored, and every form of the reply |
| OptionWords.ZAddInTurn | src/commands/zset_cmds.cpp:69-106 | several members are added as one after the other, and the numbers told add up |
| Commands.Context.ZRemMembers | src/commands/zset_cmds.cpp:109-126 | ZREM removes members and drops an emptied sorted set |
| Laws.SetLaw | src/commands/string_cmds.cpp:69-135 | SET by its words: refused, blocked, or stored, and what the client is told |
| Laws.CounterLaw | src/commands/string_cmds.cpp:25-49 | INCR, DECR, INCRBY and DECRBY: the text stored reads back as the sum and the reply carries it; the errors; no defined outcome exactly for DECRBY of the least 64-bit integer |
| Laws.CounterUndoes | src/commands/string_cmds.cpp:206-224 | a decrement undoes an increment and the other way round |
| Laws.SetNxLaw | src/commands/string_cmds.cpp:137-145 | SETNX stores exactly when nothing is there |
| Laws.GetSetLaw | src/commands/string_cmds.cpp:165-176 | GETSET stores the new string and tells of the old one |
| Laws.AppendLaw | src/commands/string_cmds.cpp:178-194 | APPEND puts the value behind what was there and tells the length |
| Laws.SetRangeLaw | src/commands/string_cmds.cpp:305-326 | SETRANGE byte by byte: the value from the offset on, what was there elsewhere, zeros where nothing was |
| Laws.IncrByFloatLaw | src/commands/string_cmds.cpp:226-248 | INCRBYFLOAT stores and tells the printed sum |
| Laws.MSetLaw | src/commands/string_cmds.cpp:264-274 | MSET leaves at every key the value given for it last, and every other key as it was |
| Laws.MSetRefuses | src/commands/string_cmds.cpp:264-268 | MSET without a value for every key changes nothing |
| Laws.DelLaw | src/commands/generic_cmds.cpp:62-70 | DEL and UNLINK take away exactly the keys named and tell how many there were |
| Laws.RenameLaw | src/commands/generic_cmds.cpp:190-203 | RENAME moves the value over whatever was at the new name |
| Laws.HSetLaw | src/commands/hash_cmds.cpp:31-52 | HSET and HMSET leave in every field the value given for it last; HSET tells how many are new |
| Laws.HDelLaw | src/commands/hash_cmds.cpp:76-93 | HDEL takes away exactly the fields named, and the key with its last field |
| Laws.HIncrByLaw | src/commands/hash_cmds.cpp:163-188 | HINCRBY: the text stored reads back as the sum; a sum out of 64 bits has no defined outcome |
| Laws.PushLaw | src/commands/list_cmds.cpp:22-36 | LPUSH leaves its arguments in front, the last of them first; RPUSH behind, in order; the reply is the length |
| Laws.PopLaw | src/commands/list_cmds.cpp:38-78 | LPOP takes items off the front and RPOP off the back, the outermost first, as many as asked for and there are; each form of the reply |
| Laws.LSetLaw | src/commands/list_cmds.cpp:143-169 | LSET replaces one item, counted from the front or from the back |
| Laws.SAddLaw | src/commands/set_cmds.cpp:25-40 | SADD leaves the members that were there and those named, and tells how many are new |
| Laws.SRemLaw | src/commands/set_cmds.cpp:42-59 | SREM takes away exactly the members named, and the key with its last member |
| Laws.ZAddLaw | src/commands/zset_cmds.cpp:38-107 | ZADD by its words, over any keyspace |
| Laws.ZRemLaw | src/commands/zset_cmds.cpp:109-126 | ZREM takes away exactly the members named, and the key with its last member |
| Laws.ZIncrByLaw | src/commands/zset_cmds.cpp:175-194 | ZINCRBY adds to the score, or to zero, and tells the printed sum |
| Laws.ReadLaw | src/commands/string_cmds.cpp:53-67 | GET, MGET, EXISTS, TOUCH and PERSIST change nothing and tell what is there |
| Laws.FlushLaw | src/server/shard.cpp:549-560 | FLUSHALL and FLUSHDB leave nothing on the shard |
| Laws.UnknownLaw | src/server/shard.cpp:309-313 | an unknown command changes nothing and is named in the error |
| Laws.MiscountedLaw | src/commands/registry.cpp:28-107 | each write with a wrong number of arguments changes nothing and is told so |
| Splits.OrderIrrelevant | src/server/shard.cpp:447-478 | in whatever order the mailboxes let the parts of a split command run, each key and each reply is as if they ran in turn on the whole keyspace |
| Splits.SplitAgrees | src/server/shard.cpp:424-503 | split DEL, UNLINK, EXISTS, MSET and MGET leave the same keyspace as the unsplit handler, duplicates included; replies agree too, for MGET exactly when every key is absent or a string |
| Splits.WholeIsSpread | src/server/shard.cpp:314-348 | keyspaces that hold only their own keys always make up one whole |
| SplitRuns.HeadIsNext | src/server/shard.cpp:461-478 | while one split command is all that is asked, the request at the head of a mailbox is its next part for that shard: all earlier parts have run there and no later one |
| SplitRuns.SplitRunAgrees | src/server/shard.cpp:424-521 | a split command in a run of the whole server with nothing else about: however parts and replies are delivered, the keyspaces end as the unsplit handler leaves the whole, and the bytes sent are the unsplit handler's, for MGET exactly when every key is absent or a string |
| Splits.SplitTouchDeletes | src/server/shard.cpp:434-437 | a split TOUCH deletes; it is harmless exactly when none of its keys is present |
| Splits.RouteIsJob | src/server/shard.cpp:424-478 | the parts routing makes are those the split lemmas speak of |
| Replay.UnmarkedMeansUnchanged | src/server/shard.cpp:351-377 | a handler that leaves the dirty flag unset leaves the keyspace unchanged, but for a flush, and none leaves an empty container |
| Replay.ZAddFaithfulExactly | src/commands/zset_cmds.cpp:71-98 | ZADD has that property on all keyspaces exactly when its scores can all be read or its syntax is refused |
| Replay.LogRebuilds | src/server/shard.cpp:351-388 | after every run of reads, writes, flushes and unknown commands, folding replay over the log rebuilds the live keyspace (SET without a time, ZADD with readable scores) |
| Replay.TimedSetReplays | src/commands/string_cmds.cpp:95-98 | why a timed SET is not admitted: SET with PX then SETNX, logged and replayed, gives the live keyspace exactly when the key had not expired |
| Replay.LogPrefix | src/server/shard.cpp:376 | every prefix of the log is the log of a prefix of the run |
| Replay.CrashRecovers | src/server/shard.cpp:76-102 | a log cut at any byte replays to a state the shard was in; the whole log to its last state |
| Replay.LoadLog | src/server/shard.cpp:86-101 | the recovery loop folds replay, by the laws of the commands, over the commands of the file, up to the first incomplete or broken one; the ten commands named under "Left out" are passed over |
| AppendOnly.Aof.Append | src/persist/aof.cpp:23-30 | appending adds to the file's contents, which only grow on disk; with the always policy everything is on disk |
| AppendOnly.Aof.Flush | src/persist/aof.cpp:32-47 | flushing moves the buffer to disk whatever each write takes, and counts the bytes |
| AppendOnly.Aof.Tick | src/persist/aof.cpp:49-59 | the periodic sync writes everything once a second has passed |
| AppendOnly.Aof.Close | src/persist/aof.cpp:77-84 | closing leaves everything on disk |
| AppendOnly.Store.ExecCore | src/server/shard.cpp:351-377 | executing any such command keeps the file equal to the encoded log and the keyspace equal to the log's replay; a flush starts a new file |
| AppendOnly.DiskReplays | src/server/shard.cpp:86-101 | whatever part of the file is on disk replays to a prefix of the logged commands |
| Snapshots.SaveLoad | src/persist/snapshot.cpp:181-228 | loading a saved file reads it exactly to its end |
| Snapshots.KnownFiles | src/persist/snapshot.cpp:13-114 | the bytes of a small file, spelled out |
| Snapshots.KnownEntries | src/persist/snapshot.cpp:70-114 | the bytes of an entry of each kind, spelled out |
| Snapshots.LowestFirst | src/persist/snapshot.cpp:22-25 | numbers are written with the lowest byte first |
| Snapshots.EnumerationBuilds | src/persist/snapshot.cpp:74-174 | writing a container's elements in any table order and inserting them again gives the container; lists keep their order |
| Snapshots.RoundTrip | src/persist/snapshot.cpp:74-228 | what saving and loading gives, and that it is the keyspace without its expired keys exactly when no deadline is zero |
| Snapshots.ZeroDeadlineIsLost | src/persist/snapshot.cpp:123-175 | an input on which it is not: a key that was dead comes back without a deadline |
| Snapshots.LoadStable | src/persist/snapshot.cpp:208-228 | a file that loads also loads with bytes appended, to the same keyspace |
| Snapshots.PrefixRefused | src/persist/snapshot.cpp:208-228 | every strict prefix of a saved file is refused |
| Snapshots.LoadsExactly | src/persist/snapshot.cpp:61-66 | a saved file can be loaded exactly when no key, value, element or field in it is longer than 2^30 bytes |
| SnapshotFiles.Writer.Save | src/persist/snapshot.cpp:181-193 | the writer's loops produce the format |
| SnapshotFiles.Reader.ReadObject | src/persist/snapshot.cpp:116-177 | the reader, with its failure flag, takes one entry or fails |
| SnapshotFiles.Reader.LoadFile | src/persist/snapshot.cpp:208-228 | the loading loop succeeds exactly when the file is well formed and then holds its live entries |
| Hnsw.VisitKeeps | src/vector/hnsw.cpp:74-81 | meeting a neighbour keeps the two queues sorted, bounded and exact, and the best node seen in front |
| Hnsw.SearchLayer | src/vector/hnsw.cpp:53-94 | the search of a layer ends with at most ef distinct nodes, nearest first, all reachable and at the layer; the first has no closer neighbour; with ef at least the number of nodes that can be reached it returns all of these |
| HnswIndexes.BackLink | src/vector/hnsw.cpp:106-115 | a back-link is appended and the list cut to its closest |
| HnswIndexes.Index.Connect | src/vector/hnsw.cpp:96-117 | connecting keeps every list free of repeats and self-links, within the degree, and pointing at nodes of the level; other lists are untouched |
| HnswIndexes.Index.LinkLevels | src/vector/hnsw.cpp:142-154 | a greedy descent from the entry down to level 0; on each level the new node has, the nearest found from where the descent arrives become its links and link back, and no other list changes |
| HnswIndexes.Index.Add | src/vector/hnsw.cpp:119-160 | a new node is linked, level by level, to the closest nodes to its vector: the first a local best that a greedy descent from the old entry reaches, and, when efConstruction is at least the number of nodes reached there, none of these is passed over unless the list is full of closer ones; back-links keep the closest; labels stay one to one with live nodes, the entry is at the top level, and no other node changes |
| HnswIndexes.Index.NearestChosen | src/vector/hnsw.cpp:96-104 | the first candidates of a search, cut to the degree, are the nearest of all that can be reached |
| HnswIndexes.Index.SearchedBefore | src/vector/hnsw.cpp:143-152 | what is found while a node is being linked is what would be found without it |
| HnswIndexes.Index.Remove | src/vector/hnsw.cpp:162-171 | removing tombstones exactly the labelled node |
| HnswIndexes.Index.Search | src/vector/hnsw.cpp:173-194 | at most k distinct live labels, best first, all reached on the bottom layer from where the greedy descent from the entry ends; given room for all that can be reached from there, the best of it |
| HnswIndexes.Index.Descend | src/vector/hnsw.cpp:179-182 | the descent makes one hop a level, each to a node that is reached, no farther, and without a closer neighbour |
| Globs.GlobMatch | src/commands/generic_cmds.cpp:14-58 | the loop terminates with its verdict, which for a subject without '*', '[' and backslash is the meaning of the tokenised pattern |
| Globs.PiecesRead | src/commands/generic_cmds.cpp:14-58 | a pattern written as stars, question marks, plain and escaped characters and brackets, with or without a mark, ranges or a closing bracket, is read as tokens that mean what the pieces are written for |
| Globs.RunDecides | src/commands/generic_cmds.cpp:14-58 | backtracking only to the latest star is complete |
| Globs.GlobExact | src/commands/generic_cmds.cpp:17-23 | the matcher agrees with the meaning on all patterns exactly for subjects without '*', '[' and backslash |
| Keyspaces.Keyspace.Lookup | include/blazekv/keyspace.hpp:21-34 | lookup removes an expired key first |
| Keyspaces.Keyspace.TtlMs | include/blazekv/keyspace.hpp:68-74 | remaining time, -1 without a deadline, -2 for a missing key |
| Keyspaces.Keyspace.ActiveExpireCycle | src/store/keyspace.cpp:5-25 | a cycle removes the dead keys among the first few of the table and reports them |
| Keyspaces.OnlyTheDead | src/store/keyspace.cpp:5-25 | lazy and active expiry remove only keys whose deadline has passed |
| Keyspaces.CycleCounts | src/store/keyspace.cpp:5-25 | a cycle removes exactly the dead among the first keys of the table and counts each of them |
| Keyspaces.LookupCounts | include/blazekv/keyspace.hpp:21-34 | a lookup counts the key it removes |
| Keyspaces.StepAgrees | include/blazekv/keyspace.hpp:21-73 | each operation answers as the timed map does and keeps agreement |
| Keyspaces.Indistinguishable | include/blazekv/keyspace.hpp:21-73 | with a clock that does not go back after the second operation, no interleaving of lookups, writes and cycles can be told from a timed map; every key with a deadline has a value |
| Keyspaces.ClockMatters | include/blazekv/keyspace.hpp:25-31 | for any clock that goes back after the second operation, a run that can be told |
| Keyspaces.ClockExactly | include/blazekv/keyspace.hpp:21-73 | no run at given times can be told from the timed map exactly when the times do not decrease from the third on |
| SlabAllocators.SizeClass | include/blazekv/arena.hpp:80-82 | the smallest class whose blocks are large enough |
| SlabAllocators.BlocksApart | include/blazekv/arena.hpp:84-99 | blocks of all slabs are aligned, inside their slab, and the same or disjoint |
| SlabAllocators.SlabAllocator.Allocate | include/blazekv/arena.hpp:37-51 | a small request gets a block that is not live, large enough and on a slab; live bytes grow by its size |
| SlabAllocators.SlabAllocator.Deallocate | include/blazekv/arena.hpp:53-66 | a block goes to the front of its class's free list; live bytes shrink by its size |
| SlabAllocators.SlabAllocator.Refill | include/blazekv/arena.hpp:84-99 | a new slab is carved into one list of all its blocks |
| SlabAllocators.SlabAllocator.WriteLive | include/blazekv/arena.hpp:53-64 | writing into a live block cannot damage a free list |
| SlabAllocators.SlabAllocator.NoOverlap | include/blazekv/arena.hpp:37-66 | live and free blocks never overlap |

## Left out

- Event loops, sockets, the waker, thread pinning, signals, forking, metrics, INFO, CONFIG and CLIENT: reads are arbitrary chunks and writes succeed.
- SIMD group matching: the scalar functions are modelled, with a match mask as the list of positions it marks.
- Bit mixing of the hash function: any deterministic function.
- Floating point: NaN scores, the HyperLogLog estimator, cosine arithmetic, printing of doubles.
- Integer widths: spans, lengths, counters and the sum of a split reply are unbounded; the 64-bit checks of INCR and the 32-bit lengths of snapshots are modelled.
- Random tower and level distributions: every choice is allowed.
- Memory reclamation in the skip list: an erased node is unlinked, not freed; memory orders other than sequential consistency in the mailbox, whose steps are single atomic operations.
- Heap layout of priority queues in the graph search: they are sorted sequences; the visited bitmap is a set.
- MSET with an even number of arguments over several shards (`Routing.OverrunExactly`): the program reads past its arguments, which has no defined outcome, so the runs of the protocol model end before such a step.
- The protocol's handlers are a parameter that reads and writes one shard; DBSIZE, INFO and FLUSHALL, which reach other shards, are outside, and any keys of a shard may expire at any time.
- Flush steps of the protocol are separate from dispatch, and a connection may be closed at any time, which allows more runs than the program has.
- Handlers without loops (GET, SETNX, GETSET, APPEND, INCR and kin, SETRANGE, LSET, RENAME, HINCRBY, ZINCRBY) are functions. In the log theorem, reads other than GET, MGET, EXISTS and TOUCH answer with a parameter; FLUSHALL and FLUSHDB act on the one shard, as they do when another shard posts them.
- Ten writes are not in the log theorem: SETEX, PSETEX, EXPIRE, PEXPIRE and EXPIREAT, which set deadlines, SPOP, which chooses at random, and PFADD, PFMERGE, VADD and VREM.
- Replay.LoadLog: passes over those ten commands, which the program runs.
- Replay.LogRebuilds: does not model runs with deadlines (`Replay.TimedSetReplays` shows what then goes wrong), SPOP, unchecked signed overflow, or ZADD with an unreadable score, for which the program does not promise it.
- Recovery from a snapshot and a log together: the log is replayed on top without being cut at the snapshot, so no equality holds.
- Failed writes of the log: the program drops the buffer; the model's writes take some bytes each time.
- Inline requests: parsed, but without chunking results, since their verdict is stable only when the buffer holds a CRLF (`Resp.InlineStableExactly`).
- Strings of 2^32 bytes or more in snapshots: their length does not fit the format's field, and nothing is claimed of such files.
- Liveness of active expiry: a cycle always looks at the first keys of the table.
- Keyspaces.Indistinguishable: DEL counts, RANDOMKEY and DBSIZE see physical entries and are outside the claim.
- The bump arena, configuration parsing, the dashboard, benchmarks and deployment files.

# A verified model of QwikStore

QwikStore is a single-threaded clone of Redis. This project models its data structures, its byte protocol and its
log-and-replay server in Dafny, and proves what they promise. `dafny verify dfyconfig.toml` checks everything.

The model has three layers, each in the form the Go code has.

**Data structures.** `Skiplists` is the pointer skip list with spans, backward links, a tail and a level: nodes are objects
whose links are assigned in place by loops over `update` and `rank`. A ghost sequence of nodes and one of heights describe
it; `Towers` is the geometry of those heights and `Pairs` the sequence of pairs that the list refines. `SortedSets` pairs it
with the map from members to scores. `LinkedLists` is the doubly linked list, `Occurrences` says what its directional
removal means. Every general result about the skip list holds for every choice of tower heights.

**Keyspace and commands.** `Keyspaces` is the keyspace as a value with lazy expiry, next to a reference in which lapsed keys
are gone at once. `Databases` holds the objects themselves. `CommandSpecs` says what each command does as a function from
keyspace, time and arguments to keyspace and reply; the handlers in `ListCommands`, `ZSetCommands` and `KeyCommands` are the
loops of the Go code, proved to do exactly that on the objects. `CommandLaws` states what the commands conserve and undo,
`Effects` which keys they change and when they change nothing, and `EmptyCollections` when they leave an empty list or
sorted set behind. `Deadlines` and `Delays` say when they depend on the clock: not before a deadline comes into play, and
exactly when after it. `ListPromises`, `ZSetPromises` and `KeyPromises` say of each command, by its name and from its
arguments, what it does and replies: which elements, at which positions, in which order, for which options.

**Protocol, log and server.** `Resp` is RESP2 as functions, `RespGrammar` the bytes themselves and what exactly the reader
accepts, `RespStreams` the reader that consumes a stream and the writer that appends to one. `RequestPromises` says what the
server makes of the words of a request. `AppendOnlyFiles` is the log and `TornEntries` what becomes of it after a crash.
`Serving` is the server as a step relation over databases, log and clients; `Servers` are the objects that implement it.
`Transactions`, `Replies`, `Recovery`, `Restarts` and `LateReplays` hold the theorems about whole runs of a server opened on
any databases and log: transactions are serial, every request gets one readable reply, and the log brings the databases
back, over any number of restarts, after a crash, and after deadlines.

## Conventions

- A Go string is a sequence of bytes; here a `char` stands for a byte and nothing depends on its range.
- Scores are reals: a total order without NaN. How they are read and printed is a parameter (`Env`), as is the clock.
- Lists, counts and offsets are unbounded integers; where the code parses numbers, their 64-bit range is modelled.
- Arguments are modelled by their text, which is all that the handlers look at.

## Where the code falls short of what one would expect

The model follows the code. Each point has a lemma that shows it, and the exact condition where there is one.

- `GetRank` compares its argument with the header's empty member, so the empty member is found only under the condition in
  `RankOfHeld`; `EmptyMemberIsMissed`, `MissedMember`.
- RPOPLPUSH and LMOVE take the element before they look at the destination: `RPopLPushConservesIff`, `LMoveConservesIff`;
  `MovedOntoTextIsLost`, `MovedNowhereIsLost`.
- SELECT and FLUSHALL are not logged and a replay runs in database 0: `ExecuteRecoverableIff`; `WriteElsewhereIsMisplaced`,
  `FlushedDataReturns`.
- A ZADD that adds nothing and an LMOVE to no direction can leave an empty sorted set or list under a key:
  `KeepsNoEmptiesIff`; `UnreadableScoreLeavesEmpty`, `MovedNowhereIsLost`. Such a list goes when an element is pushed and
  popped: `PopUndoesPushIff`.
- EX and PX are reckoned anew by a replay: `SetSurvivesRestartIff`; `DurationStartsAnew`. EXAT and PXAT are not, but a
  replay after the deadline can do what was refused before it, and leave undone what was done: `DelayedIff` for one command,
  `LateReplayIff` for a log; `RefusedPushIsRevived`. Up to the deadline it cannot: `ReplayRestores`.
- The end of a torn log is skipped on replay but not removed, so that what is appended later can be lost:
  `AppendsReplayIff`, `RestartAfterCrashIff`; `TornEntryHidesLaterOnes`.
- Simple strings and errors are written without looking for line feeds: `RoundTripIffClean`; `SecondLineIsLeft`. Among the
  modelled commands and unknown ones only the error for an unknown command can hold one: `ReplyReadsBackIff`. Two of the
  commands that are not modelled, CONFIG and OBJECT, put an argument into an error as well (`commands/server_cmd.go:118`,
  `commands/key.go:290`).
- A null array is written as a null bulk string, where RESP2 (section "Null arrays") has `*-1`, and comes back as one:
  `RoundTrip`.
- `RemoveExpiry` and the count of `Del` do not look at deadlines: `RemoveExpiryRevives`, `DelCountsLapsedKeys`;
  `LapsedKeyIsCounted`.
- SET accepts KEEPTTL and drops the deadline all the same: `KeepTtlKeepsIff`; `KeptDeadlineIsLost`.

## Model

| member | source | states |
|---|---|---|
| `Skiplists.Skiplist.constructor` | `datastructures/skiplist.go:54-60` | a new list holds no pairs and satisfies the whole invariant |
| `Skiplists.Skiplist.Insert` | `datastructures/skiplist.go:75-128` | for every choice of tower height, inserting a pair, be it held already or not, keeps the whole invariant (each level is the chain of the taller towers in order, every span in use is the distance in ranks, backward links and tail mirror level 0, level and length are exact) and the pairs become the sorted insertion; an absent pair leaves each pair held once |
| `Skiplists.Skiplist.InsertOfHeight` | `datastructures/skiplist.go:75-128` | the same once a height is drawn, and the tower at the place of the pair has that height |
| `Skiplists.Skiplist.RandomLevel` | `datastructures/skiplist.go:66-72` | the height drawn is between 1 and 32, and nothing else is known of it |
| `Skiplists.Skiplist.FindPredecessors` | `datastructures/skiplist.go:79-93` | at every level in use the search ends on the last tower of that level before the target, with its exact rank |
| `Skiplists.Skiplist.RaiseLevel` | `datastructures/skiplist.go:95-103` | levels taken into use start as one nil link from the header over the whole list |
| `Skiplists.Skiplist.LinkLevels` | `datastructures/skiplist.go:105-111` | the first loop makes the i-th link of each predecessor lead to the new node and gives the new node the rest of it |
| `Skiplists.Skiplist.WidenLevels` | `datastructures/skiplist.go:112-114` | the second loop widens by one exactly the links that pass over the new node |
| `Skiplists.SplicingIsLinked` | `datastructures/skiplist.go:106-114` | those assignments leave every link of every node, the new one included, leading to the next tower of its level with the right span |
| `Skiplists.Skiplist.LinkBack` | `datastructures/skiplist.go:116-125` | after the splice the backward links and the tail mirror level 0 |
| `Skiplists.Skiplist.Delete` | `datastructures/skiplist.go:131-149` | true just when the pair was held; then exactly that pair is gone and the invariant holds, otherwise nothing at all has changed |
| `Skiplists.Skiplist.CutLevels` | `datastructures/skiplist.go:152-159` | the loop of the deletion takes the node out of each chain and narrows by one the links that passed over it |
| `Skiplists.CutIsLinked` | `datastructures/skiplist.go:152-159` | after that loop the remaining nodes are linked as if the node had never been there, and its own links are untouched |
| `Skiplists.Skiplist.UnlinkBack` | `datastructures/skiplist.go:160-164` | backward links and tail mirror level 0 without the node |
| `Skiplists.Skiplist.LowerLevel` | `datastructures/skiplist.go:165-167` | level ends at the greatest height in use, or 1, and no link in use is lost |
| `Skiplists.Skiplist.GetRank` | `datastructures/skiplist.go:172-187` | the rank found is that of a node where the search rests and whose member is the one asked for; the empty member is found only once the search has left the header |
| `Skiplists.Skiplist.RankOfHeld` | `datastructures/skiplist.go:172-187` | for a pair that is held, with members unique, the answer is 1 plus the number of smaller pairs just when the member is not empty or the search leaves the header before the end, and 0 otherwise |
| `Skiplists.Skiplist.RankOfAbsent` | `datastructures/skiplist.go:172-187` | for a member held at no score the answer is 0 |
| `Skiplists.Skiplist.GetByRank` | `datastructures/skiplist.go:190-203` | the node of any rank from 0 (the header) to the length, nil for every other number |
| `Skiplists.Skiplist.NodeOfRankOf` | `datastructures/skiplist.go:172-203` | GetByRank of the GetRank of a pair that is held is the node of that pair, or the header where GetRank misses the empty member |
| `Skiplists.Skiplist.RankOfNodeOf` | `datastructures/skiplist.go:172-203` | GetRank of the node GetByRank finds at a rank is that rank, or 0 where the empty member is missed |
| `Skiplists.Skiplist.EmptyMemberIsMissed` | `datastructures/skiplist.go:181-183` | towers of height 1 and 2, the empty member first: its rank is 1 and GetRank answers 0 |
| `Skiplists.MissedMember` | `datastructures/skiplist.go:54-187` | an input for it: two insertions build that list, and GetRank answers 0 for the empty member |
| `Skiplists.Skiplist.RangeByRank` | `datastructures/skiplist.go:206-224` | the pairs of the ranks asked for, as far as they exist, for all integers |
| `Skiplists.Skiplist.RangeByScore` | `datastructures/skiplist.go:227-250` | the filter by score of the sorted pairs, without the first offset of them and cut to count if that is positive |
| `Skiplists.Skiplist.RevRangeByScore` | `datastructures/skiplist.go:253-275` | the same of the reversed sequence |
| `Skiplists.Skiplist.CountByScore` | `datastructures/skiplist.go:278-292` | the size of the unlimited filter |
| `Skiplists.Skiplist.First` | `datastructures/skiplist.go:295-297` | the node of rank 1, or nil |
| `Skiplists.Skiplist.LastNode` | `datastructures/skiplist.go:300-302` | the node of the last rank, or nil |
| `ScoreRanges.InScoresSelects` | `datastructures/skiplist.go:227-250` | of a sorted sequence the filter is the part whose scores are within the bounds, both included |
| `ScoreRanges.RankSliceSelects` | `datastructures/skiplist.go:206-224` | a range of ranks is the part of the list whose ranks, counted from 1, are within it |
| `ScoreRanges.LimitSelects` | `datastructures/skiplist.go:227-250` | offset and count select the positions from the offset on and as many as the count says, or all if it is not positive |
| `ScoreRanges.InScoresIsSlice` | `datastructures/skiplist.go:227-250` | on a sorted sequence the filter by score is the slice between the two positions the searches find |
| `Towers.CrossesIffLast` | `datastructures/skiplist.go:79-93` | exactly the predecessor at a level has a link of that level that crosses a given rank |
| `Towers.PutNext` | `datastructures/skiplist.go:106-114` | which links a new tower redirects, and which it only lengthens |
| `Strings.LessIff` | `datastructures/skiplist.go:88` | one string is less than another just when they agree up to a place where the one ends and the other goes on, or has the lesser byte |
| `Pairs.SortedIff` | `datastructures/skiplist.go:88-92` | a sequence of pairs is sorted just when of any two the earlier has the smaller score, or the same score and the member that is first in that sense |
| `Pairs.SortedIsCanonical` | `datastructures/skiplist.go:30-32` | two sorted sequences of the same pairs are the same sequence |
| `Pairs.InsertKeepsSorted` | `datastructures/skiplist.go:75-128` | sorted insertion keeps the strict order by score and then member and adds exactly the pair |
| `Pairs.InsertKeepsOrdered` | `datastructures/skiplist.go:75-128` | the same where a pair may stand more than once |
| `Pairs.RemoveUndoesInsert` | `datastructures/skiplist.go:131-149` | removing a pair that has just been inserted gives back the sequence |
| `SortedSets.ZSet.Add` | `store/store.go:72-83` | afterwards the member has the score in map and list alike, everything else is as it was, and the answer is whether the member is new |
| `SortedSets.ZSet.Remove` | `store/store.go:85-93` | the member leaves map and list together; the answer is whether it was there |
| `SortedSets.ZSet.GetScore` | `store/store.go:95-98` | the score of the pair with that member, if there is one |
| `SortedSets.ZSet.Rank` | `store/store.go:100-107` | the position of the member in the order from 0, and -1 in the one case where the search mistakes the header for the empty member; none when the member is not held |
| `SortedSets.ZSet.RevRank` | `store/store.go:109-115` | the position in the reversed order, likewise |
| `SortedSets.AgreeIsCanonical` | `store/store.go:59-63` | a map that agrees with a sorted list determines it |
| `Pairs.RanksAreBijective` | `store/store.go:100-107` | the number of smaller pairs maps the pairs one to one onto the positions, in both directions, and keeps the order |
| `LinkedLists.List.constructor` | `datastructures/list.go:17-19` | an empty list |
| `LinkedLists.List.LPush` | `datastructures/list.go:25-38` | the values come one after the other in front, so that they end up reversed before the old contents |
| `LinkedLists.List.RPush` | `datastructures/list.go:40-53` | the values follow the old contents in their order |
| `LinkedLists.List.LPop` | `datastructures/list.go:55-68` | the first element comes off, or nothing if there is none |
| `LinkedLists.List.RPop` | `datastructures/list.go:70-83` | the last element comes off, or nothing if there is none |
| `LinkedLists.List.NodeAt` | `datastructures/list.go:228-247` | the node at the index from whichever end it is walked to, and nil out of range |
| `LinkedLists.List.Index` | `datastructures/list.go:86-92` | the element at the index, negative indices counting from the end |
| `LinkedLists.List.Set` | `datastructures/list.go:95-102` | exactly that element is replaced; false out of range |
| `LinkedLists.List.Range` | `datastructures/list.go:105-117` | the clamped slice |
| `LinkedLists.List.Trim` | `datastructures/list.go:120-139` | the list becomes its clamped slice |
| `LinkedLists.List.InsertBefore` | `datastructures/list.go:142-150` | the value goes before the first occurrence of the pivot; -1 and no change if there is none |
| `LinkedLists.List.InsertAfter` | `datastructures/list.go:153-161` | the value goes after it |
| `LinkedLists.List.RemoveNode` | `datastructures/list.go:214-226` | exactly that node leaves the chain in both directions |
| `LinkedLists.List.Remove` | `datastructures/list.go:186-212` | the first count, the last -count or all occurrences are removed, the rest keeps its order, and the answer is how many |
| `Basics.SliceSelects` | `datastructures/list.go:249-263` | a slice is the part of the list whose positions are within the bounds, each position compared as it is with a bound from 0 on and counted from behind the end with a negative one |
| `Occurrences.RemovedAll` | `datastructures/list.go:186-212` | a count of 0 leaves the list without any occurrence |
| `Occurrences.RemovedFirst` | `datastructures/list.go:186-212` | a positive count removes so many, if there are as many, and the first of them |
| `Occurrences.RemovedLast` | `datastructures/list.go:186-212` | a negative count does on the list what the positive one does on the reversed list |
| `Occurrences.RemovedCounts` | `datastructures/list.go:186-212` | how many elements go |
| `Occurrences.WithoutMeans` | `datastructures/list.go:186-212` | without its occurrences a list has every other element as many places further to the front as occurrences stood before it |
| `Occurrences.DropFirstMeans` | `datastructures/list.go:186-212` | what removing the first k occurrences means element by element: which stay, and in what order |
| `Occurrences.DropLastIsReversed` | `datastructures/list.go:190-200` | removing from the tail is removing from the head of the reversed list, reversed |
| `Keyspaces.LazyExpiryIsInvisible` | `store/store.go:155-258` | over every run of operations under a clock that never goes back, all answers and all that can be seen are those of a keyspace in which a key is gone the moment its deadline passes |
| `Keyspaces.LazyStepIsEager` | `store/store.go:155-285` | the same for one operation |
| `Keyspaces.LapsedStaysAway` | `store/store.go:155-285` | over every run, a key that cannot be seen at first, because it has lapsed or never was there, is seen at the end only if some operation of the run set it or renamed another to it |
| `Keyspaces.DelCountsLapsedKeys` | `store/store.go:173-182` | the count of Del is never too low, and it is right just when no key named has lapsed |
| `Keyspaces.LapsedKeyIsCounted` | `store/store.go:173-182` | an input where it is too high: two keys, one lapsed, both counted |
| `Keyspaces.RemoveExpiryRevives` | `store/store.go:205-212` | RemoveExpiry acts on what can be seen just when the key has not lapsed; a lapsed key it brings back |
| `Databases.DB.Get` | `store/store.go:155-166` | a lapsed key is removed and not found; otherwise the object under the key, if any |
| `Databases.DB.Set` | `store/store.go:168-171` | the object is stored and no other key is touched |
| `Databases.DB.Del` | `store/store.go:173-182` | the keys are gone; how many were in the table |
| `Databases.DB.Exists` | `store/store.go:184-193` | how many of the keys are there and have not lapsed |
| `Databases.DB.SetExpiry` | `store/store.go:195-203` | a live key gets the deadline; false otherwise |
| `Databases.DB.RemoveExpiry` | `store/store.go:205-212` | a key in the table loses its deadline, whether or not that has passed |
| `Databases.DB.TTL` | `store/store.go:214-227` | the time left, -1 without a deadline, -2 without a live key |
| `Databases.DB.Type` | `store/store.go:229-235` | the name of the type of a live key |
| `Databases.DB.Keys` | `store/store.go:237-248` | the live keys that match |
| `Databases.DB.Size` | `store/store.go:250-258` | the number of live keys |
| `Databases.DB.Rename` | `store/store.go:277-285` | the object moves with its deadline onto the new key; false for a key that is absent or has lapsed |
| `Databases.DB.Flush` | `store/store.go:260-262` | nothing is left |
| `RespStreams.Reader.TakeLine` | `resp/reader.go:65-74` | the bytes up to the next line feed without their carriage return; an error if there is none |
| `RespStreams.Reader.TakeBulk` | `resp/reader.go:104-127` | as many bytes as announced and their line end, -1 for null, errors otherwise |
| `RespStreams.Reader.TakeMany` | `resp/reader.go:144-152` | the loop reads the elements in order and ends with the first error |
| `RespStreams.Reader.TakeArray` | `resp/reader.go:129-153` | a count and that many values |
| `RespStreams.Reader.TakeInline` | `resp/reader.go:156-170` | the words of a plain line |
| `RespStreams.Reader.TakeValue` | `resp/reader.go:42-63` | one value of any type, exactly the bytes of which are consumed |
| `RespStreams.SplitWords` | `resp/reader.go:172-193` | the splitter with its accumulators computes the words of a line |
| `RespStreams.Writer.WriteValue` | `resp/writer.go:64-89` | the encoding of the value is appended, and nothing else |
| `RespGrammar.WireFormat` | `resp/writer.go:23-61` | byte for byte what is written for simple strings, errors, numbers and bulk strings: + and - and : and $, the text or the decimal number, carriage return and line feed |
| `RespGrammar.ArrayFormat` | `resp/writer.go:53-56` | an array is * and its length, and then its elements in their order |
| `RespGrammar.ParseIffSpelled` | `resp/reader.go:42-170` | the reader reads a value just where its grammar spells it: exactly the bytes of one value come off, and bytes that spell none are an error |
| `RespGrammar.BlankSeparates` | `resp/reader.go:172-193` | a blank outside quotes separates the words of an inline line |
| `RespGrammar.WordsOfLine` | `resp/reader.go:172-193` | no word is empty, text without blanks and quotes is one word, and so is text in quotes |
| `Resp.RoundTrip` | `resp/reader.go:42-153` | a value without a line feed in its simple strings and errors, written and followed by anything, is read back (null arrays as null bulk strings) and leaves exactly what follows |
| `Resp.RoundTripIffClean` | `resp/writer.go:23-31` | for no other value is that so |
| `Resp.SecondLineIsLeft` | `resp/writer.go:27-31` | an input where it is not: an error of two lines comes back as its first line, and the second is taken for the next reply |
| `Resp.ParseExtends` | `resp/reader.go:42-153` | more input after a value changes nothing about the value |
| `Resp.PrefixFree` | `resp/reader.go:104-153` | no strict prefix of an encoding reads as a value |
| `Resp.InlineRoundTrip` | `resp/reader.go:156-193` | non-empty words without double quotes and line feeds, sent inline in quotes, arrive as the array of those words |
| `Strings.ParseIntMeans` | `resp/reader.go:95-102` | how numbers are read, digit by digit: ten times what came before and the digit, with a sign, and nothing beyond 64 bits |
| `Strings.OnlyNumbersParse` | `resp/reader.go:95-102` | nothing but digits, perhaps behind a sign, is read as a number |
| `Strings.FormatIsShort` | `resp/writer.go:33-36` | numbers are written without a leading zero |
| `Strings.ParseFormatted` | `resp/writer.go:33-36` | what is printed with %d is parsed back just when it fits into 64 bits |
| `AppendOnlyFiles.AOF.Write` | `persistence/aof.go:44-51` | the loop appends the encoding of the array of the words |
| `AppendOnlyFiles.ReplayedLog` | `persistence/aof.go:94-127` | a log followed by anything replays to its commands in order and then to what the rest replays to |
| `AppendOnlyFiles.CutReplaysWholeCommands` | `persistence/aof.go:104-126` | wherever a log is cut, a replay runs exactly the commands wholly before the cut |
| `AppendOnlyFiles.WholeIsExact` | `persistence/aof.go:104-126` | which those are: the first n lie before the cut just when n is at most their number |
| `TornEntries.AppendsReplayIff` | `persistence/aof.go:25-51` | a log that was cut off at any byte and then appended to replays to its whole commands and those that were appended, whatever these are, just when the cut is on the end of a command |
| `TornEntries.TornFileLosesSet` | `persistence/aof.go:25-51` | for any other cut, any key and any text there is a SET of them that the next replay does not run, and at most a mutilated command is run instead |
| `TornEntries.TornCommand` | `persistence/aof.go:104-126` | what a replay makes of a torn command in front of one array: nothing, or the command with the array taken for its last argument, unless the array has a line end just where the data lacks it |
| `AppendOnlyFiles.TornEntryHidesLaterOnes` | `persistence/aof.go:25-29` | an input for it: if only the first byte of an entry got out, all that is written later is lost |
| `ListCommands.CmdPush` | `commands/list.go:35-61` | LPUSH and RPUSH: the new list and its length as the reply; wrong types and missing arguments change nothing |
| `ListCommands.CmdPushX` | `commands/list.go:63-95` | LPUSHX and RPUSHX: the same onto a list that is there, and 0 without one |
| `ListCommands.CmdLLen` | `commands/list.go:193-205` | the number of elements, 0 without a list |
| `ListCommands.CmdLIndex` | `commands/list.go:227-247` | the element at the index, null when there is none |
| `ListCommands.CmdLSet` | `commands/list.go:249-268` | exactly that element is replaced; an error for an absent key or an index out of range |
| `ListCommands.CmdLInsert` | `commands/list.go:270-297` | the value goes before or after the first occurrence of the pivot; the new length, -1 without the pivot, 0 without a list |
| `ListCommands.CmdPop` | `commands/list.go:97-191` | LPOP and RPOP with and without a count: the elements in the order they come off, the key gone with the last of them |
| `ListCommands.CmdLRange` | `commands/list.go:207-225` | the clamped slice |
| `ListCommands.CmdLRem` | `commands/list.go:299-319` | the list without the occurrences, the number removed, the key gone if nothing is left |
| `ListCommands.CmdLTrim` | `commands/list.go:321-342` | the clamped slice, the key gone if that is empty |
| `ListCommands.CmdRPopLPush` | `commands/list.go:344-368` | the last element of one list in front of the other, popped before the other is looked up |
| `ListCommands.CmdLMove` | `commands/list.go:370-415` | likewise for all directions, with the direction of the destination looked at last |
| `CommandLaws.RPopLPushConservesIff` | `commands/list.go:344-368` | the elements under both keys together stay the same just when there is none to take or the destination can take it; otherwise the element is lost |
| `CommandLaws.LMoveConservesIff` | `commands/list.go:370-415` | likewise, and also when it is not told where to take from; a destination that is no direction loses the element |
| `CommandLaws.MovedOntoTextIsLost` | `commands/list.go:355-365` | an input where it is lost: RPOPLPUSH onto a key that holds a string |
| `CommandLaws.MovedNowhereIsLost` | `commands/list.go:393-413` | another: LMOVE with UP for its destination, which leaves an empty list there besides |
| `CommandLaws.MoveConservesIff` | `commands/list.go:355-365` | the step that both share |
| `Effects.DeliverToSelf` | `commands/list.go:344-415` | on one key the element goes back to its own list, although that goes away in between when it has one element, and then its deadline is lost; a direction that is none loses the element |
| `CommandLaws.RotationRestores` | `commands/list.go:344-368` | as many RPOPLPUSH steps on one key as it has elements restore the contents |
| `CommandLaws.DirectionsMean` | `commands/list.go:370-415` | LEFT is the front and RIGHT the back, on either side, in whatever case |
| `CommandLaws.SliceMeans` | `datastructures/list.go:249-263` | exactly the elements from start to stop, negative positions counted from the end, in their order |
| `CommandLaws.PopUndoesPushIff` | `commands/list.go:35-191` | popping where an element has just been pushed gives it back, and leaves the keyspace as it was just when the key did not hold an empty list |
| `ListPromises.PushPromise` | `commands/list.go:35-95` | after LPUSH and LPUSHX the values stand reversed in front of the old list, after RPUSH and RPUSHX in order behind it; the reply is the length, the deadline stays, and the X forms make no list |
| `ListPromises.LookPromise` | `commands/list.go:193-247` | LLEN replies the length, LINDEX the element at the position, counted from 0 or from -1 at the last element back |
| `ListPromises.LSetPromise` | `commands/list.go:249-268` | LSET replaces the element at that position |
| `ListPromises.RangePromise` | `commands/list.go:207-342` | LRANGE replies with the elements within the two positions and LTRIM leaves just them |
| `ListPromises.LRemPromise` | `commands/list.go:299-319` | LREM removes all occurrences for 0, the first for a positive and the last for a negative count, and replies how many |
| `ListPromises.LInsertPromise` | `commands/list.go:270-297` | LINSERT puts the value before or after the first occurrence of the pivot, or replies -1 |
| `ListPromises.PopPromise` | `commands/list.go:97-191` | LPOP takes the first element and RPOP the last, and the key goes with the only one |
| `ListPromises.PopManyPromise` | `commands/list.go:97-191` | with a count the reply is the elements in the order in which they come off, null for none, and an error for no count |
| `ListPromises.MovePromise` | `commands/list.go:344-415` | RPOPLPUSH takes the last element and puts it in front, LMOVE takes and puts it at the ends that LEFT and RIGHT name; on one key as well |
| `ListPromises.AbsentPromise` | `commands/list.go:227-415` | what is replied where there is no list |
| `ListPromises.UnreadableIsRefused` | `commands/list.go:207-342` | what is replied where a number or a word cannot be read |
| `ListPromises.WrongTypeIsRefused` | `commands/list.go:35-415` | every list command replies WRONGTYPE to a key that holds something else, and changes nothing |
| `ListPromises.WrongCountIsRefused` | `commands/list.go:35-415` | how many arguments each may have; otherwise an error that names the command |
| `ZSetCommands.CmdZAdd` | `commands/zset.go:59-126` | the options, then pair after pair as they allow, with the counts; a score that cannot be read ends it after what came before |
| `ZSetCommands.CmdZRem` | `commands/zset.go:128-149` | the members one after the other, how many were held, the key gone if nothing is left |
| `ZSetCommands.CmdZCard` | `commands/zset.go:373-385` | the number of members |
| `ZSetCommands.CmdZScore` | `commands/zset.go:151-167` | the score of the member, null when it is not held |
| `ZSetCommands.CmdZCount` | `commands/zset.go:387-403` | the number of pairs with scores in the range |
| `ZSetCommands.CmdZIncrBy` | `commands/zset.go:169-186` | the member has its score, or 0, plus the increment, which is the reply |
| `ZSetCommands.CmdZRangeByScore` | `commands/zset.go:299-371` | ZRANGEBYSCORE and ZREVRANGEBYSCORE: the filter by score of either order, without the offset and cut to the count of LIMIT, with scores when asked for |
| `ZSetCommands.CmdZRange` | `commands/zset.go:224-297` | ZRANGE is the clamped slice of the ascending order and ZREVRANGE that of the descending one, for all integers |
| `ZSetCommands.RevRangeOf` | `commands/zset.go:258-297` | the index arithmetic of ZREVRANGE on the ascending list and the reversal of what it selects give that slice |
| `ZSetCommands.CmdZPop` | `commands/zset.go:405-471` | the first k pairs of the ascending or the descending order come off map and list |
| `ZSetCommands.PopPairs` | `commands/zset.go:424-431` | the loop pops them one by one, in order |
| `ZSetCommands.CmdZRangeByLex` | `commands/zset.go:473-498` | the members in the range in order, whatever order the map yields them in |
| `ZSetCommands.EntriesToReply` | `commands/zset.go:544-558` | members, each followed by its score when asked for |
| `CommandLaws.OptionsMean` | `commands/zset.go:59-126` | NX, XX, GT and LT in all combinations: what score the member has afterwards; GT keeps the greater and LT the lesser score, and both together the one it has |
| `CommandLaws.ZAddFromMeans` | `commands/zset.go:92-125` | the loop of ZADD from any pair on: a member ends with the score that its own arguments give it, whatever else is given, and the reply counts what is new |
| `CommandLaws.ZAddMeans` | `commands/zset.go:59-126` | without CH the reply is the number of members more; with CH it is no less, and 0 only if nothing has changed; no member is lost and one that is not named keeps its score, also where the reply is an error |
| `EmptyCollections.KeepsNoEmptiesIff` | `commands/registry.go:68-71` | where no key holds an empty list or sorted set, a command leaves it so, unless it is a ZADD on a key that cannot be seen with an odd number of arguments, without a pair, with XX or with a first score that cannot be read; or an LMOVE that takes an element, has no direction to put it, and finds no list at the destination |
| `EmptyCollections.UnreadableScoreLeavesEmpty` | `commands/zset.go:97-101` | an input for it: ZADD on an absent key with a score that cannot be read |
| `CommandLaws.LexBoundsMean` | `commands/zset.go:500-534` | each side on its own, however the other is written: parentheses exclude, brackets or nothing include, - below and + above bound nothing even behind either |
| `CommandLaws.PoppedAndKept` | `commands/zset.go:405-471` | what is popped and what stays make up the sorted set, and the key goes just when nothing stays |
| `ZSetPromises.ZAddOptionsMean` | `commands/zset.go:69-90` | the options are the words up to the first argument that is none of the five, in whatever case, and each flag is set just when its word is among them |
| `ZSetPromises.ZAddPromise` | `commands/zset.go:59-126` | ZADD of one score with any options: NX and XX decide on held and new members, GT and LT between the two scores, CH what is counted; every other member keeps its score |
| `ZSetPromises.ZAddManyPromise` | `commands/zset.go:59-126` | ZADD with any arguments: each member ends with what its own scores lead to; an error if one cannot be read or the last has no member |
| `ZSetPromises.ZRangePromise` | `commands/zset.go:224-297` | ZRANGE and ZREVRANGE reply with the pairs within the two positions of the ascending and of the descending order, with scores just when the fourth argument says so |
| `ZSetPromises.ScoreRangePromise` | `commands/zset.go:299-371` | ZRANGEBYSCORE names the lower bound first, ZREVRANGEBYSCORE the upper; which pairs, in which order, which of them LIMIT passes over and takes, and when scores are added |
| `ZSetPromises.CountPromise` | `commands/zset.go:373-403` | ZCOUNT counts the pairs within the bounds, ZCARD all |
| `ZSetPromises.ZScorePromise` | `commands/zset.go:151-167` | ZSCORE replies with the score of the pair that has the member |
| `ZSetPromises.ZIncrByPromise` | `commands/zset.go:169-186` | ZINCRBY gives the member its score, or 0, plus the increment, and no other a different one |
| `ZSetPromises.ZRemPromise` | `commands/zset.go:128-149` | ZREM takes out just the members named and replies how many there were |
| `ZSetPromises.ZPopPromise` | `commands/zset.go:405-471` | ZPOPMIN takes the first pairs and ZPOPMAX the last from the greatest down: one, or as many as the count says |
| `ZSetPromises.ZPopRefusal` | `commands/zset.go:405-471` | nothing without a sorted set, and an error for no count |
| `ZSetPromises.LexPromise` | `commands/zset.go:473-542` | ZRANGEBYLEX replies with each member in the range once, in the order of their bytes |
| `ZSetPromises.ZUnreadableIsRefused` | `commands/zset.go:224-403` | bounds and positions that cannot be read change nothing |
| `ZSetPromises.ZWrongTypeIsRefused` | `commands/zset.go:59-498` | every sorted-set command replies WRONGTYPE to a key that holds something else, after ZINCRBY has read its increment |
| `ZSetPromises.ZWrongCountIsRefused` | `commands/zset.go:59-498` | how many arguments each may have |
| `StringSorting.SortStrings` | `commands/zset.go:536-542` | the array is sorted in place as the specification sorts |
| `StringSorting.SortSorts` | `commands/zset.go:536-542` | and that is in order and a permutation |
| `StringSorting.SortIsBytewise` | `commands/zset.go:536-542` | of any two sorted strings the earlier is the same or first in the order of their bytes |
| `StringSorting.SortIgnoresOrder` | `commands/zset.go:536-542` | sorting forgets the order of its input |
| `KeyCommands.ParseSetOptions` | `commands/string.go:23-79` | the options of SET, later ones overriding earlier ones, or the error reply |
| `KeyCommands.CmdSet` | `commands/string.go:12-102` | the text with its deadline under the key unless NX or XX forbid it |
| `Deadlines.OptionsIgnoreClockIff` | `commands/string.go:23-79` | for every argument list that parses, what SET is told to do is the same at two times just when the last expiry option, if there is one, is EXAT or PXAT, or the times are the same |
| `Deadlines.KeepTtlKeepsIff` | `commands/string.go:74-101` | a SET with KEEPTTL and no expiry option that stores keeps the deadline of a visible key just when that had none |
| `Deadlines.KeptDeadlineIsLost` | `commands/string.go:74-101` | an input where it does not |
| `KeyCommands.CmdGet` | `commands/string.go:104-116` | the text, null or a type error |
| `KeyCommands.CmdDel` | `commands/key.go:11-16` | the keys are gone; how many were in the table |
| `KeyCommands.CmdRename` | `commands/key.go:123-131` | the object under its new key, or an error |
| `KeyPromises.SetOptionsMean` | `commands/string.go:23-79` | SET is told NX and XX by their words wherever they stand, the last option that gives a deadline decides, and one that is not understood refuses all |
| `KeyPromises.SetRefuses` | `commands/string.go:23-79` | which of the two errors: that of the first option that is not understood |
| `KeyPromises.UnitsOfSet` | `commands/string.go:26-66` | EX and EXAT are in seconds, PX and PXAT in milliseconds, EX and PX from now on |
| `KeyPromises.SetPromise` | `commands/string.go:12-102` | SET stores the text and the deadline under the key and nothing else, unless NX finds something to be seen there, or XX nothing |
| `KeyPromises.GetPromise` | `commands/string.go:104-116` | GET sees what is there up to its deadline, that moment included |
| `KeyPromises.SetThenGet` | `commands/string.go:12-116` | what SET stores GET gives back until the deadline, and then nothing |
| `KeyPromises.DelPromise` | `commands/key.go:11-16` | DEL removes just the keys named and counts those in the table, each once |
| `KeyPromises.RenamePromise` | `commands/key.go:123-131` | RENAME moves what can be seen, with its deadline |
| `KeyPromises.KeyWrongCountIsRefused` | `commands/key.go:11-131` | how many arguments each of the four may have |
| `KeyPromises.CountLiveCounts` | `store/store.go:184-193` | how often a key is counted by Exists |
| `KeyCommands.Run` | `commands/registry.go:68-71` | the handler registered under a name does what the specification of that command says |
| `KeyCommands.RunList` | `commands/registry.go:81-206` | the same for the fifteen list commands |
| `KeyCommands.RunZSet` | `commands/registry.go:81-206` | the same for the thirteen sorted-set commands of the model |
| `Deadlines.ApplyIgnoresClock` | `server/server.go:65-80` | as long as the clock has not passed a deadline that is set or given, keyspace and reply of a command do not depend on it |
| `Delays.LapsedKeysAreInvisible` | `store/store.go:155-166` | commands work on what can be seen: on two keyspaces that show the same at a time they leave keyspaces that show the same, and reply the same unless they are a DEL |
| `Delays.DelayedIff` | `server/server.go:65-80` | for any keyspace and two times, every command of the model leaves the same to be seen whether it is done now or later, just when it is not delayed; it is delayed if its key lapses in between and it is one that makes keys, if a key lapses in between in the cases told apart for RPOPLPUSH, LMOVE and RENAME, or if it is a SET that gives a duration or stores, at one of the times only, what can still be seen |
| `Effects.ReadersChangeNothing` | `server/server.go:293-308` | the commands that are not logged leave everything that can be seen as it was |
| `Effects.OnlyNamedKeysChange` | `commands/registry.go:68-71` | no command changes anything under a key that is not one of its arguments |
| `Effects.CreatesIff` | `commands/registry.go:68-71` | which commands make a key in an empty keyspace: LPUSH and RPUSH with a value, ZADD with a score and a member, ZINCRBY with a number, SET that parses and has no XX |
| `Effects.IdleIff` | `commands/registry.go:68-71` | of the other writing commands, which leave the keyspace as it is, told from the arguments and what the key holds: a member that is not held, a slice that is the whole list, a rotation of a list that is all alike, and so on |
| `RequestPromises.CommandMeans` | `server/server.go:176-182` | the name of a command is its first word with the letters in upper case, the arguments are the other words as they are |
| `RequestPromises.CaseDoesNotMatter` | `server/server.go:176-221` | requests that differ in the case of letters of their first word alone are handled alike |
| `RequestPromises.LowerCaseSet` | `server/server.go:176-271` | an input for it: set k v of a fresh client is answered with OK and stores the text |
| `RequestPromises.ExecPromise` | `server/server.go:273-281` | EXEC replies with what each of its commands has replied, in their order |
| `Serving.RunJoins` | `server/server.go:115-132` | what is proved about one run holds across the turns of the event loop, which join to one run |
| `Transactions.TransactionsAreSerial` | `server/server.go:162-281` | whatever databases and log a server has been opened on, after any interleaving of requests the databases, the log and the database of every client are those of a sequential run, in which the commands of a transaction stand together at its EXEC and those of a discarded one do not occur |
| `Transactions.HandledAgrees` | `server/server.go:184-228` | the same for one request |
| `Transactions.ClientsKeepQueues` | `server/client.go:44-56` | on such a server a client outside a transaction has an empty queue, and no queue ever holds MULTI, EXEC, DISCARD or QUIT |
| `Replies.ReplyReadsBackIff` | `server/server.go:223-281` | when the commands that a request runs, with EXEC all that are queued, are ones of the model or unknown: the reply is read back as one value and leaves what follows, just when no unknown command was run that has a line feed in its name |
| `Replies.AnswersReadBack` | `server/server.go:223-281` | over every run of such requests, all replies to a client are read back, one a request and in their order |
| `Recovery.ExecuteRecoverableIff` | `server/server.go:230-271` | exactly which command leaves databases that a restart brings back: FLUSHALL only if database 0 is empty, a logged command outside database 0 only if it makes no key there and finds nothing to change in database 0 |
| `Recovery.ReplayRestores` | `server/server.go:65-80` | from any world that its log restores, after any sequential run of commands of the model without FLUSHALL, in which clients may select databases but what is logged runs in database 0: decoding and re-running the log restores the live databases, as long as no reading of the clock has passed a deadline that was given, and no deadline was given as a duration |
| `Recovery.RestartRestores` | `server/server.go:52-80` | the same for every server opened on such a world and every interleaving of requests; only what is run counts, so that a transaction that is discarded may hold anything |
| `Recovery.FineSerial` | `server/server.go:162-228` | for that it is enough that every request, queued or not, is for such a command |
| `Recovery.AnyClockRestores` | `server/server.go:65-80` | what such a log restores at some times it restores at any others before the deadlines it gives |
| `Recovery.SimpleRestartRestores` | `server/server.go:65-80` | without SELECT and deadlines the log brings the server back whenever it is replayed |
| `Recovery.CrashRestoresPrefix` | `persistence/aof.go:94-127` | wherever the log is cut behind what was in it when the server was opened, a restart brings back the databases after a prefix of the run, whose logged commands are all those wholly before the cut |
| `Recovery.CrashedRestartRestores` | `persistence/aof.go:94-127` | the same for every interleaving of requests, with the same account of which commands the prefix has logged |
| `Recovery.NotLoggedOnlyRead` | `server/server.go:293-308` | of the modelled commands just the reading ones are not logged |
| `Restarts.LivesRestore` | `server/server.go:52-80` | a server is restarted any number of times and handles any interleaving of such requests after each restart: in the end its log restores what is there, at any times before the deadlines |
| `Restarts.RestartAfterCrashIff` | `persistence/aof.go:25-127` | a server that restarts from a log cut at any byte and goes on is brought back by the restart after that, whatever such requests its clients made in between, just when the cut was on the end of a command |
| `LateReplays.LateReplayIff` | `server/server.go:65-80` | commands replayed at any later times, deadlines passed or not: the replay shows after each of them what was there just when none of them is delayed in the sense of DelayedIff, told from the databases as they were |
| `LateReplays.LateRestartShows` | `server/server.go:52-80` | a server that its log tracks handles any interleaving of requests while keys lapse and are removed or not: at any later times at which no logged command is delayed, a replay of its log shows in every database what is there |
| `LateReplays.RunTracks` | `server/server.go:230-271` | such a run adds to the log what leads from what could be seen before to what can be seen after it |
| `LateReplays.RestartedTracks` | `server/server.go:52-80` | a server that has just been restarted is tracked by its log |
| `LateReplays.SetSurvivesRestartIff` | `commands/string.go:23-101` | a SET that stores, whatever its arguments, comes back just when its deadline is a point in time or missing, or the replay reads the same time |
| `LateReplays.DurationStartsAnew` | `commands/string.go:23-101` | an input where it does not: SET with EX 100 is given a hundred seconds from the replay on |
| `LateReplays.RefusedPushIsRevived` | `server/server.go:260-271` | an input where a deadline has passed: SET k until 100 s, RPUSH k at 60 s, which is refused and logged; a replay after 100 s leaves a list under k that nobody has seen |
| `LateReplays.RefusedPushIsDelayed` | `server/server.go:260-271` | that push is delayed |
| `LateReplays.WriteElsewhereIsMisplaced` | `server/server.go:65-67` | a write to a database other than 0 comes back in database 0 |
| `LateReplays.FlushedDataReturns` | `server/server.go:243-248` | what FLUSHALL removed comes back |
| `Servers.Server.constructor` | `server/server.go:43-63` | a new server is the state that runs begin with: no clients and, with a log, the databases that the log replays to |
| `Servers.Server.ReplayAOF` | `server/server.go:65-80` | the loop over the log leaves in database 0 what its commands rebuild |
| `Servers.Server.Execute` | `server/server.go:230-271` | one command: databases, log, database of the client and reply |
| `Servers.Server.ExecTransaction` | `server/server.go:273-281` | the queued commands one after the other; what is written is byte for byte the array of their replies |
| `Servers.Server.HandleCommand` | `server/server.go:184-228` | MULTI, DISCARD, EXEC, QUIT, queueing and execution: new state, new session and the bytes of exactly one reply |
| `Servers.Server.HandleClient` | `server/server.go:162-228` | reads one value and handles it, or reports the end of the connection |
| `Servers.Server.AcceptConn` | `server/server.go:134-152` | a new client in database 0 and outside a transaction |
| `Servers.Server.RemoveClient` | `server/server.go:154-160` | the client is forgotten and nothing else changes |
| `Servers.Server.Serve` | `server/server.go:115-132` | serving a client is one step of the state machine; its writer gets the answer of that step, and its reader is left with what follows the value read |
| `Servers.Server.ServeAll` | `server/server.go:115-132` | one turn of the event loop over the clients that are ready: the state is that of the run over the events read, in their order, and every writer holds what it held and then exactly the answers that AnswersReadBack speaks of |
| `Servers.Store.constructor` | `store/store.go:136-142` | n empty databases that share nothing |
| `Servers.Store.FlushAll` | `server/server.go:243-248` | every database is emptied |
| `Servers.Client.StartMulti` | `server/client.go:44` | a transaction begins with an empty queue |
| `Servers.Client.DiscardMulti` | `server/client.go:45` | it ends and the queue is empty |
| `Servers.Client.Enqueue` | `server/client.go:47-49` | the command goes to the end of the queue |
| `Servers.Client.FlushQueue` | `server/client.go:51-56` | the queue is handed out, emptied, and the transaction is over |

## Left out

- The registry is restricted to thirty-two commands: lists, sorted sets, SET, GET, DEL and RENAME. Hashes, sets, counters,
  EXPIRE and its kin, PING and the rest would add handlers of the same shape; `Unmodelled` lists their names.
- What the commands under those names do is not modelled. The server model answers them as it does unknown commands; all
  results about replies and restarts are stated for runs in which they do not occur.
- ZRANK and ZREVRANK: for the empty member their reply depends on the heights of the towers and so is no function of the
  keyspace; the ranks themselves are `ZSet.Rank` and `ZSet.RevRank`.
- epoll, sockets, buffering, fsync policy, the ticker and shutdown: the log is a sequence of bytes in the order written, and
  a crash may leave any prefix of it.
- A request is one value that has been read; how bytes arrive in pieces is not modelled. After a read error the connection
  is closed, so where the reader stands then is not specified.
- COPY, which shares lists and sorted sets between keys; objects under different keys share nothing here.
- SCAN, RANDOMKEY, SPOP, eviction and glob syntax; a pattern is the test it stands for and KEYS yields a set.
- LRU and LFU bookkeeping on objects.
- Rounding of scores, infinities as anything but scores, and printing them.
- Upper and lower case of letters outside ASCII.
- TTL, SET with EX or PX and an expiry check read the clock once an operation; the code may read it twice.
- Durations do not overflow 64 bits, and `-count` in `Remove` is taken on unbounded integers.
- Allocation sizes taken from the input (`make` with a huge length) are not limited.
- Levels of a node and the `update` and `rank` arrays are sequences in fields and local variables that are reassigned, where
  Go has slices.
- The loop of the list's `Remove`, which walks either way, is written once for each direction.
- The inner loop of every search in the skip list is one method with the test as a parameter; Go repeats it.
- Databases.DB.Set: asks for an object that shares nothing with those under other keys, which all modelled callers store;
  COPY, which does not, is left out above.
- KeyCommands.Run: covers the thirty-two commands of the model.
- Servers.Server.Execute: answers a command that is registered but not modelled as if it were unknown, and neither changes
  nor logs anything for it.
- Servers.Server.ReplayAOF: skips such commands in the log, which a server of the model never writes.
- Replies.AnswersReadBack: leaves out runs in which such commands are executed, since their replies are not modelled.
- Recovery.ReplayRestores: leaves them out too, and FLUSHALL, deadlines given as durations or already passed and logged
  commands outside database 0; for each of these `ExecuteRecoverableIff`, `SetSurvivesRestartIff` or `DelayedIff` has the
  exact condition.
- Recovery.RestartRestores: likewise.
- Recovery.CrashRestoresPrefix: likewise.
- Recovery.CrashedRestartRestores: likewise.
- Restarts.LivesRestore: likewise.
- Restarts.RestartAfterCrashIff: likewise.
- Recovery.SimpleRestartRestores: leaves out commands that are registered and not modelled.
- LateReplays.LateRestartShows: leaves out commands that are registered and not modelled, FLUSHALL, and logged commands
  outside database 0; and the clocks of server and replay must not go back.
- LateReplays.RunTracks: likewise.
- Effects.ReadersChangeNothing: covers the twelve reading commands of the model.
- KeyCommands.RunZSet: leaves out ZRANK and ZREVRANK, as said above.
- Resp.RoundTrip: asks that lengths and numbers fit into 64 bits, as all of Go's do; so do the results built on it.
- Replies.ReplyReadsBackIff: asks the same of the reply, and that what is run is modelled or unknown.
- AppendOnlyFiles.CutReplaysWholeCommands: asks the same of the commands, and names in upper case, as the server logs them.
- Databases.DB.Keys: yields a set, because the order of a Go map is not defined.
- Servers.Server.ServeAll: takes the ready clients in the order it is given; which order epoll yields is left open.
  Accepting a connection in the middle of a turn is `AcceptConn` between two calls of it; `RunJoins` makes one run of what
  they do.

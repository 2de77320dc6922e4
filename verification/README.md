# RESim verification

A Dafny model of the parts of RESim whose correctness depends on state, interleaving or arithmetic, with
proofs of what they promise. `dafny verify dfyconfig.toml` checks everything.

## What is modelled

**Coverage pruning** (`simics/bin/dedupCoverage.py`). `DedupPool` is the process pool: one `rmSubsets` worker
per coverage file, every flag read and every flag write of the shared array an atomic step, and a schedule
an arbitrary interleaving. `DedupChunks` restricts the interleavings to those of a pool with a given number of
processes that hands out its tasks in chunks, in order. `DedupWorker` is `rmSubsets` in place on the array, and the pool
with one process. `CheckMulti` is the second pass with its order by packet numbers.

**UDP file transfer** (`simics/bin/drive-driver3.py`, `simics/bin/driver-server.py`). `Transfer` has both
parties as state machines over two lossless FIFO datagram queues, down to the bytes: headers are UTF-8, split
and joined as Python does (`Text`). `TransferProof` has the global invariant and what follows from it,
`TransferDelivery` the exact condition for delivery, `TransferNames` the same for names and commands exactly as
sent, `TransferLoops` the two loops of a file in the scripts' own form.

**AFL coverage engine** (`simics/monitorCore/coverage.py`). `Coverage` is the class in AFL mode with physical
breakpoints, `CoverageState` its invariants, `CoverageRuns` what each event does and what follows for whole
runs. The breakpoint lists and the simulator's breakpoints and callbacks are kept in one record of `BreakTable`;
`HapRanges` is the grouping of breakpoint numbers into callback ranges, `BlockBreaks` the loop of
`setBlockBreaks`, `MissingBlocks` the filing of unmapped blocks, `EdgeMap` the edge map and the plain edge count
that it stands for. `CoverageFaults` names the runs that end in each of the exceptions that the contracts speak
of.

**FD history** (`simics/bin/showFDs.py`). `FdTimeline` has the timelines, the effect of each traced call on
the table of open descriptors, and the replay of a trace; `FdTrack` is the class with its loops, and the script.

**Progression search** (`simics/fuzz_bin/find_new_states.py`): `FindStates`.

**Smaller refinements**: `FdMgr` (`simics/monitorCore/fdMgr.py`), `AflMsg` (`simics/monitorCore/afl.py`),
`DecodeArm` (`simics/monitorCore/decodeArm.py`), `BackStop` (`simics/monitorCore/backStop.py`).

## What the proofs found

- Pruning can lose hits: two workers that hold the same hits can each drop the other's file. With one process it
  never does. With two or more it can exactly when two non-seeds have the same hits, no seed has them and no file
  has more, and their tasks are in different chunks. Over interleavings without any such limit the condition is
  that every file lies below one that no worker can drop.
- `checkMulti` removes both of two sessions that are tied on the packet sum.
- A transfer delivers exactly when every command fits in the server's 1024-byte buffer and no chunk of a file
  decodes to text that ends in the marker. A name arrives unchanged exactly when it has no space at either
  end, no two in a row and no white space other than the plain space.
- `stopCover` does not forget the dynamic breakpoints, so `setBlockBreaks` leaves consistent lists exactly if there
  were none. Neither `stopCover` nor `resetCoverage` forgets `re_enable_bp`: the next `doCoverage` asks the
  simulator for a deleted breakpoint, and raises, exactly if any breakpoint waited to be enabled (after
  `setBlockBreaks`) or a dynamic one did (after a reset). So an iteration of AFL raises exactly if a hit has
  saturated a dynamic breakpoint since the last iteration began and a reset has come in between. A reset that comes
  while an `addHapAlone` call waits leaves a callback without breakpoints, until a reset comes while none waits.
- An `accept` on a bound socket takes the address of the line's descriptor, not of the socket's, and raises
  when there is none: the script gets through no trace with such an `accept` whose line names only the two
  descriptors of the call.
- `sendMsg` sends the number of characters, so a message is framed correctly exactly if it is ASCII.
- `armLDM` is eight bytes too low in the increment-before form, and finds the register again exactly when
  the list has two registers.
- `setDelay(n)` with `n` below one swallows every later arming call.

## Model

| member | source | states |
|---|---|---|
| DedupPool.OnlyClearableCleared | simics/bin/dedupCoverage.py:212-245 | In every interleaving, at every moment, a cleared flag is one that some worker could clear by itself: a contained non-seed within the size rule, or a seed with an earlier namesake. |
| DedupPool.WorstInterleaving | simics/bin/dedupCoverage.py:212-245 | Some complete interleaving clears every flag that any worker could clear. |
| DedupPool.NonSeedGoesIfFits | simics/bin/dedupCoverage.py:228-245 | Some complete interleaving drops a non-seed if and only if another file contains it with at most twice its hits; where every file that contains it is larger, it is flagged at every moment of every interleaving. |
| DedupPool.SeedGoesIfRepeated | simics/bin/dedupCoverage.py:219-227 | Some complete interleaving drops a seed if and only if an earlier one has its name and there are three files or more; otherwise, and so the first of its name, it is flagged at every moment of every interleaving. |
| DedupPool.AnchoredIsPreserved | simics/bin/dedupCoverage.py:203-247 | If every file lies below one that no worker can clear, then at every moment of every interleaving each file's hits are contained in the hits of a flagged file. |
| DedupPool.PreservedIffAnchored | simics/bin/dedupCoverage.py:279-295 | Coverage survives all complete interleavings, with as many processes as files, if and only if every file lies below one that no worker can clear. |
| DedupChunks.PreservedIffNoClash | simics/bin/dedupCoverage.py:283-287 | For any number of processes from two on, any chunks, handed out in order, coverage survives all complete interleavings of the pool if and only if no two equal, maximal non-seeds that no seed equals are in different chunks. |
| DedupChunks.NoClashPreserves | simics/bin/dedupCoverage.py:283-287 | Without such a pair, coverage holds at every moment of every interleaving of the pool: of equal files in one chunk the first stays. |
| DedupChunks.ClashLoses | simics/bin/dedupCoverage.py:283-287 | With such a pair, a complete interleaving with never more than two chunks under way, taken in order, loses the whole class of equal files. |
| DedupChunks.AtMostProcesses | simics/bin/dedupCoverage.py:283-287 | When chunks are handed out in order, each to a process that has none left, no more are under way than there are processes. |
| DedupChunks.SeedsThatAgreeHold | simics/bin/dedupCoverage.py:219-227 | The condition on seeds under which that holds (a maximal file that a seed equals lies below one that no worker can clear) is met when same-named seeds have the same hits. |
| DedupChunks.UnheldSeedsLose | simics/bin/dedupCoverage.py:219-227 | Where it is not met some complete interleaving loses a hit, clash or no clash. |
| DedupChunks.ChunksOfSizeChunked | simics/bin/dedupCoverage.py:286-287 | Chunks of one size, as the pool's map makes them, are of the kind assumed. |
| DedupPool.DistinctNonSeedsAreAnchored | simics/bin/dedupCoverage.py:209-245 | Distinct hit sets of non-seeds and equal hits of same-named seeds give that condition; the proof climbs a chain of strict supersets to a maximal file or to the first seed of its name. |
| DedupPool.NoHitLost | simics/bin/dedupCoverage.py:203-247 | Under these two conditions no interleaving loses a hit, at any moment. |
| DedupPool.EqualNonSeedsCanBothVanish | simics/bin/dedupCoverage.py:228-245 | Two non-seeds with one and the same hit can both be cleared, and the hit is lost. |
| DedupPool.SurvivorsAreReduced | simics/bin/dedupCoverage.py:228-245 | After every complete interleaving a surviving non-seed is not contained in another survivor, unless that one has more than twice as many hits. |
| DedupPool.SeedsAppearOnce | simics/bin/dedupCoverage.py:219-227 | After every complete interleaving two copies of a seed do not both survive beside a third file. |
| DedupPool.EveryStepProgresses | simics/bin/dedupCoverage.py:213-247 | Each step of an unfinished worker lowers a measure of the whole pool, whatever the others did before: every run ends. |
| DedupWorker.RmSubsets | simics/bin/dedupCoverage.py:203-247 | The nested loops, writing into the shared array, drop exactly the non-seeds contained in the worker's own file with no less than half its hits, and the seeds that repeat the name of an earlier flagged one, if the worker's own file is flagged; these are the flags that the worker's atomic steps leave when nobody else writes. |
| DedupWorker.AloneExact | simics/bin/dedupCoverage.py:203-247 | The same for the atomic steps. |
| DedupWorker.DedupInTurn | simics/bin/dedupCoverage.py:279-295 | With one process the files left are exactly those still flagged after the tasks have run in order: among them every non-seed for which all that contain it have more than twice its hits and every seed that repeats none, and no non-seed is inside another of them unless that one has more than twice its hits. |
| DedupWorker.LeftInTurn | simics/bin/dedupCoverage.py:203-247 | The same for the reference. |
| DedupWorker.AloneIsInterleaving | simics/bin/dedupCoverage.py:286-287 | A worker running undisturbed from any reachable state is a continuation of the interleaving. |
| DedupWorker.InTurnIsInterleaving | simics/bin/dedupCoverage.py:286-287 | The run of one process is one of the pool's interleavings. |
| DedupWorker.InTurnLosesNoHit | simics/bin/dedupCoverage.py:203-247 | With one process coverage is preserved even among non-seeds with equal hit sets. |
| CheckMulti.NewHits | simics/bin/dedupCoverage.py:140-147 | The list for a session holds, each once, exactly its hits outside all_hits. |
| CheckMulti.PacketsOrderFree | simics/bin/dedupCoverage.py:167-175 | The packet sum is the same in whichever order the same hits are visited. |
| CheckMulti.PacketsWithout | simics/bin/dedupCoverage.py:167-175 | Each hit adds its own packet number to the sum. |
| CheckMulti.ComparePackets | simics/bin/dedupCoverage.py:164-175 | Both sums, although taken over the hit list of one of the two sessions, are the sessions' own packet sums. |
| CheckMulti.RemovedIsDisplaced | simics/bin/dedupCoverage.py:151-187 | A session gets on rm_list exactly if another has strictly more new hits, or the same with no greater packet sum. |
| CheckMulti.Prune | simics/bin/dedupCoverage.py:149-191 | The keys left are exactly the sessions with new hits that no other session displaces. |
| CheckMulti.KeptAreIncomparable | simics/bin/dedupCoverage.py:149-191 | No kept session's new hits are contained in those of another kept session, ties or not. |
| CheckMulti.CoveredIffNoTie | simics/bin/dedupCoverage.py:149-191 | Every session's new hits are contained in a kept session's if and only if no maximal set of new hits is tied for its least packet sum. |
| CheckMulti.SoleLeastSurvives | simics/bin/dedupCoverage.py:162-184 | In a maximal set of new hits a session survives if and only if it alone has the least packet sum. |
| CheckMulti.TiedSessionsVanish | simics/bin/dedupCoverage.py:178-184 | Two sessions with equal new hits and equal sums remove each other. |
| Text.DecodeEncode | simics/bin/drive-driver3.py:68 | Strict UTF-8 decoding undoes encoding, for every text. |
| Text.EncodeDecode | simics/bin/driver-server.py:42 | Encoding undoes decoding: a byte string has at most one reading. |
| Text.EncodeCharBits | simics/bin/drive-driver3.py:67 | Each character is encoded as section 3 of RFC 3629 lays its bits out. |
| Text.AsciiBytes | simics/bin/drive-driver3.py:68 | ASCII text is encoded as it is, byte for character. |
| Text.DecimalSpells | simics/bin/drive-driver3.py:65-66 | The decimal form of a number spells it in base ten, without a leading zero. |
| Text.WordsAtAnySpace | simics/bin/driver-server.py:53-57 | Split takes the two sides of white space of any kind apart. |
| Text.NormalIffTidy | simics/bin/driver-server.py:53-57 | A text comes through split and join unchanged if and only if it has no outer or repeated space and no other white space. |
| Transfer.HeaderParts | simics/bin/driver-server.py:53-57 | The header of any file or command is parsed into its size and name, or its command, up to white space. |
| Transfer.FileHeaderFits | simics/bin/driver-server.py:34 | The header of a file with a name a Linux file system allows fits in the receive buffer. |
| Transfer.HeaderReceived | simics/bin/driver-server.py:42-57 | A header that fits is taken for a header and understood as meant. |
| Transfer.LongCommandParts | simics/bin/driver-server.py:92-95 | A header RUN_LONG is parsed into its command, up to white space. |
| Transfer.LongCommandSpawned | simics/bin/driver-server.py:92-95 | Such a command is started without waiting for its end, and nothing is sent. |
| Transfer.OtherWordsUnknown | simics/bin/driver-server.py:53-97 | A request is unknown exactly if the header's first word is none of the three. |
| Transfer.ChunkSizes | simics/bin/drive-driver3.py:86-97 | Every datagram of a file but the last carries 1024 bytes. |
| TransferProof.RunKeepsInv | simics/bin/drive-driver3.py:62-111 | Every interleaving keeps the global invariant that ties both counters, the queues' contents, the bytes written and the effects so far. |
| TransferProof.InFlightBound | simics/bin/driver-server.py:61-86 | Never more than 21 datagrams on their way to the server and one on its way back. |
| TransferProof.QuietBetweenFiles | simics/bin/drive-driver3.py:105-109 | When the sender turns to the next file both queues are empty and all before is stored as sent. |
| TransferProof.EffectsAsIntended | simics/bin/driver-server.py:60-91 | At every moment the files stored and commands run are exactly the first ones of the list, whole and in order. |
| TransferProof.NoDeadlock | simics/bin/drive-driver3.py:69-109 | At every moment of every run either everything is delivered or some party can move. |
| TransferProof.StepLowersPotential | simics/bin/driver-server.py:33-98 | For any program at all, every step that changes anything lowers a natural number: every run ends. |
| TransferProof.RunsToStuck | simics/bin/drive-driver3.py:62-111 | Every run can be continued until neither party can move. |
| TransferProof.EarlyMarkerCutsShort | simics/bin/driver-server.py:67-86 | At a chunk that looks like the marker the server closes the file short of the data, and its size check says so. |
| TransferDelivery.DeliversIffSound | simics/bin/driver-server.py:32-98 | Every run that can go no further has delivered everything and drained both queues, if and only if all commands fit in one buffer and no chunk decodes to text ending in the marker. |
| TransferDelivery.TruncatedNeverRunsWhole | simics/bin/driver-server.py:34-45 | A command header cut at 1024 bytes that still ends in the marker never runs the whole command. |
| TransferNames.DeliversAsSentIffSoundAndTidy | simics/bin/driver-server.py:53-91 | Every run that can go no further has stored every file under the name sent and run every command as sent, if and only if commands fit, no chunk looks like the marker, and names and commands have no outer, repeated or unusual white space. |
| TransferNames.RunIsTidy | simics/bin/driver-server.py:57-89 | Whatever is sent, the server never uses a name or command with outer, repeated or unusual white space. |
| TransferLoops.SendFileData | simics/bin/drive-driver3.py:82-106 | The loop sends the data in chunks of at most 1024 bytes, in order and nothing twice, then the marker, and waits exactly after every twentieth. |
| TransferLoops.AckPointsExact | simics/bin/drive-driver3.py:101-104 | The counts at which it waits are the multiples of twenty, in order. |
| TransferLoops.ReceiveFileData | simics/bin/driver-server.py:61-79 | The loop takes datagrams up to the first that looks like the marker, writes them in order, and acknowledges exactly every twentieth. |
| TransferLoops.ReassembledIffMarkerFree | simics/bin/drive-driver3.py:86-105 | The receiving loop puts together what the sending loop cut up if and only if no chunk looks like the marker, and then both have counted the same acknowledgments. |
| HapRanges.SpanIsRun | simics/monitorCore/coverage.py:316-323 | A list whose ends are registered is caught exactly only if its numbers are consecutive. |
| HapRanges.RunsKeepAll | simics/monitorCore/coverage.py:294-304 | Grouping keeps every breakpoint number, in order. |
| HapRanges.RunsSeparated | simics/monitorCore/coverage.py:294-304 | For increasing numbers each group is consecutive and a gap separates it from the next. |
| HapRanges.TracksNext | simics/monitorCore/coverage.py:294-298 | One turn of the loop: a consecutive number extends the open group; any other closes it with its range and opens a new one. |
| HapRanges.RangesPartition | simics/monitorCore/coverage.py:258-304 | For any increasing numbers, whatever the gaps, each breakpoint lies in exactly one registered range, no other number in any, and no range is empty. |
| EdgeMap.IndexInMap | simics/monitorCore/coverage.py:828-829 | The exclusive or of two locations is an index below 65536; which one, EdgeMap.XorBits says. |
| EdgeMap.XorBits | simics/monitorCore/coverage.py:828-829 | The bits of an index are those in which the location and the kept previous location differ. |
| EdgeMap.BitIsDigit | simics/monitorCore/coverage.py:828-829 | These bits are the binary digits. |
| EdgeMap.SameBits | simics/monitorCore/coverage.py:828-829 | And they tell a number. |
| EdgeMap.HitIsEdge | simics/monitorCore/coverage.py:828-864 | An accepted hit adds one edge, whose bit i is set exactly if bit i of the block's location differs from bit i of the place kept, and keeps of the location all bits but the lowest, each one place down. |
| EdgeMap.EdgeIsOne | simics/monitorCore/coverage.py:828-829 | There is one edge between two locations. |
| EdgeMap.ReplayIsLogged | simics/monitorCore/coverage.py:828-864 | Over any run of blocks, the k-th edge counted is that from the location of the hit accepted before (none for the first) to that of the k-th: bit i of it is bit i of the second, flipped if bit i + 1 of the first is set. A block is ignored from then on exactly if an accepted hit of it found its edge counted 255 times. |
| EdgeMap.OneMoreEdge | simics/monitorCore/coverage.py:837-863 | One accepted edge changes one byte by one, none when it is 255, and the count of non-zero bytes with it. |
| EdgeMap.ReplayInMap | simics/monitorCore/coverage.py:828-864 | Over any run every edge and the previous location stay in the map. |
| EdgeMap.SaturationGrows | simics/monitorCore/coverage.py:839-846 | Once a block has saturated it stays so for the rest of the run. |
| EdgeMap.DisablingIsTransparent | simics/monitorCore/coverage.py:745-753 | Dropping from any run every hit of a block that had saturated before it gives the same map and the same later edges. |
| BreakTable.LiveIsListed | simics/monitorCore/coverage.py:311-314 | What is live in the simulator is exactly the breakpoints and callbacks of the lists. |
| BreakTable.AddDynamicConserves | simics/monitorCore/coverage.py:524-536 | A dynamic breakpoint keeps the lists equal to original ++ dynamic, nothing live beyond what setBlockBreaks left and the dynamic ones, and one breakpoint per block. |
| BreakTable.AddDynamicCovers | simics/monitorCore/coverage.py:526-532 | Ranges registered, ranges deferred and the open run spell out exactly the dynamic breakpoints after it if and only if they did before. |
| BreakTable.DeferKeeps | simics/monitorCore/coverage.py:528-544 | So does handing the open run to addHapAlone. |
| BreakTable.RunFirstCovers | simics/monitorCore/coverage.py:426-434 | So does the deferred call itself, whenever it comes. |
| BreakTable.ResetRestores | simics/monitorCore/coverage.py:1300-1343 | A reset leaves live exactly the original breakpoints and callbacks, all enabled; callbacks match breakpoints if and only if no deferred call is outstanding. |
| BreakTable.CallbacksPartition | simics/monitorCore/coverage.py:311-323 | With no call outstanding, each breakpoint of the table fires exactly one of the table's callbacks, and no callback fires for any other number. |
| BlockBreaks.TurnBuilds | simics/monitorCore/coverage.py:291-300 | Each turn of the loop of setBlockBreaks keeps a callback on every closed run of fresh, increasing, live breakpoints. |
| BlockBreaks.WantedExact | simics/monitorCore/coverage.py:271-291 | The blocks that get a breakpoint are exactly the mapped ones that are no dead spots, each once. |
| BlockBreaks.WantedInOrder | simics/monitorCore/coverage.py:271-291 | And they come in the order in which the analysis first lists them. |
| BlockBreaks.LeftExact | simics/monitorCore/coverage.py:199-205 | The blocks left as unmapped are exactly the others that are no dead spots. |
| BlockBreaks.LeftCounts | simics/monitorCore/coverage.py:199-205 | Each as often as the analysis lists it. |
| BlockBreaks.LocatedExact | simics/monitorCore/coverage.py:284-286 | Every block of the analysis gets a location within the map, and no other block's location changes. |
| BlockBreaks.LocatedIsDrawn | simics/monitorCore/coverage.py:284-286 | The location is the last one drawn for the block. |
| BlockBreaks.GroupedSpans | simics/monitorCore/coverage.py:293-304 | The callbacks that setBlockBreaks leaves spell out exactly its breakpoints. |
| BlockBreaks.RecordedConserves | simics/monitorCore/coverage.py:311-314 | The state it records is consistent if and only if no dynamic breakpoint or callback was listed before. |
| BlockBreaks.NewlyExact | simics/monitorCore/coverage.py:512-535 | The blocks a page-table update adds are exactly those of its list that the walk resolves, that are no dead spots and that had no dynamic breakpoint, each once. |
| MissingBlocks.UnderExact | simics/monitorCore/coverage.py:327-374 | The list for a page-table entry holds exactly the unmapped blocks whose walk ends there. |
| MissingBlocks.UnderCounts | simics/monitorCore/coverage.py:327-374 | Each as often as it is listed. |
| MissingBlocks.TablesStartAfresh | simics/monitorCore/coverage.py:157-184 | A new analysis forgets what waited for a page table, and adds to what waited for a page base or an entry group. |
| MissingBlocks.FiledKnown | simics/monitorCore/coverage.py:325-374 | Every block on any list has a location in the edge map. |
| CoverageState.LookUp | simics/monitorCore/coverage.py:742-744 | For every breakpoint of the list, addr_map and afl_map have an entry, and a disabled one belongs to a saturated block. |
| Coverage.Coverage.constructor | simics/monitorCore/coverage.py:1161-1164 | A fresh engine has an empty map and an empty, consistent breakpoint table. |
| Coverage.Coverage.BbHap | simics/monitorCore/coverage.py:683-864 | A delivered hit counts the edge from the place kept to its block's location, bit by bit, and keeps that location without its lowest bit, unless its block has saturated; the breakpoint is disabled and remembered exactly when its block has just saturated and is no jumper. |
| Coverage.Coverage.CountEdge | simics/monitorCore/coverage.py:837-863 | Byte array and hit count stay those of the edges counted so far, capped at 255. |
| Coverage.Coverage.DoCoverage | simics/monitorCore/coverage.py:1068-1079 | An iteration starts from the empty map with every breakpoint of the list enabled; it raises exactly if one to be enabled is gone, with the map clear and those before that one enabled. |
| Coverage.Coverage.RunIteration | simics/monitorCore/coverage.py:1021-1079 | Iterations are independent: map and count after any sequence of executed blocks are those of the edges between the locations of the accepted hits, in order, among those of these blocks whose callback is registered, as if nothing were ever disabled; it raises exactly if a breakpoint to be enabled is gone. |
| CoverageState.AllCaught | simics/monitorCore/coverage.py:316-323 | With no addHapAlone call outstanding and the callbacks in step, these are all of the blocks executed. |
| Coverage.Coverage.SetBlockBreaks | simics/monitorCore/coverage.py:157-314 | Breakpoints with fresh numbers on exactly the wanted blocks in order, callbacks on their runs, nothing else live; locations, unmapped blocks and their lists; lists consistent exactly if nothing dynamic was listed before; the next doCoverage goes through exactly if nothing waited to be enabled. |
| Coverage.Coverage.SetEach | simics/monitorCore/coverage.py:269-304 | The nested loops with the grouping of consecutive numbers. |
| Coverage.Coverage.HandleUnmapped | simics/monitorCore/coverage.py:325-374 | Every unmapped block is appended to the list of the entry where its walk ends and to no other. |
| Coverage.Coverage.AddMissing | simics/monitorCore/coverage.py:506-544 | The loop of the three page-table handlers adds a breakpoint for each newly reachable block, keeps the whole invariant and the block of every existing breakpoint, and defers callbacks for exactly the new breakpoints. |
| Coverage.Coverage.TableUpdated | simics/monitorCore/coverage.py:485-544 | The same for a store to a watched table; nothing happens otherwise, or for the value zero. |
| Coverage.Coverage.PageBaseUpdated | simics/monitorCore/coverage.py:586-642 | The same for a page base, with dead spots looked up by physical address less the offset. |
| Coverage.Coverage.PtegUpdated | simics/monitorCore/coverage.py:1480-1546 | The same for the 64 bytes of an entry group. |
| Coverage.Coverage.RunAlone | simics/monitorCore/coverage.py:426-434 | The first deferred call registers its range, changes nothing else and keeps the invariant. |
| Coverage.Coverage.ResetCoverage | simics/monitorCore/coverage.py:1300-1343 | Exactly the original breakpoints and callbacks are live again, with all blocks as they were; the next doCoverage meets a deleted breakpoint exactly if a dynamic one was to be enabled again. |
| Coverage.Coverage.HitBlock | simics/monitorCore/coverage.py:683-864 | A hit is counted exactly for a listed breakpoint once an iteration has begun, coverage is not halted and there are callbacks; then it is one step of the plain edge count, for the block of that breakpoint, and unless that block has saturated it adds the edge from the place kept to the block's location. The breakpoint is disabled, and put on the list to be enabled again, exactly if that step saturates a block that is no jumper. |
| Coverage.Coverage.Handle | simics/monitorCore/coverage.py:485-864 | What each event does to the lists of breakpoints (the blocks gained by an update, the range of the first waiting call, a restored state, one breakpoint disabled, all those that waited enabled), to what waits to be enabled, to the edge map (a fresh one, one step, or nothing) and to the match of callbacks and breakpoints (a reset settles it, nothing else changes it); it raises exactly for an iteration that asks for a deleted breakpoint. |
| Coverage.Coverage.Run | simics/monitorCore/coverage.py:485-864 | Any sequence of updates, deferred calls, hits, iterations, halts and resets is gone through, each event doing what Handle says, up to the first iteration before which a dynamic breakpoint had saturated and a reset followed, and no further; without a reset to its end. The edge map is that of the blocks hit since the last iteration began, whatever was added or reset in between and whatever earlier iterations did; callbacks match breakpoints if and only if no call waited at the last reset. |
| CoverageRuns.RaisesIffStranded | simics/monitorCore/coverage.py:1068-1079 | In every run an iteration raises if and only if a hit has saturated a dynamic breakpoint since the last iteration began and a reset has followed it (or a breakpoint that waited when the run began is gone). Told by the events and the blocks they hit alone. |
| CoverageRuns.WaitingSince | simics/monitorCore/coverage.py:840-846 | At every moment of every run the breakpoints that wait to be enabled are exactly those whose hits saturated a block, no jumper, since the last iteration began. |
| CoverageRuns.LiveSince | simics/monitorCore/coverage.py:1300-1320 | In every run a breakpoint that exists goes on existing until a reset, and beyond it exactly if it is an original one; no number comes back. |
| CoverageRuns.EdgesAreHits | simics/monitorCore/coverage.py:837-864 | At every moment of every run the edge map is that of the reference on the blocks hit since the last iteration began. |
| CoverageRuns.GainedExact | simics/monitorCore/coverage.py:506-535 | The blocks that a store makes reachable, for each kind of watched address: listed there, resolved by the walk, without a dynamic breakpoint, and no dead spot, which for a table is told by the block and for the other two by the physical address less the load offset. |
| CoverageRuns.OnlyStrandedRaise | simics/monitorCore/coverage.py:1021-1079 | A run that ends at an iteration that raises, or with the last event, has that as its only stranded iteration; without a reset, and with nothing gone at the start, it reaches the last event. |
| CoverageFaults.ResetStrandsBreakpoint | simics/monitorCore/coverage.py:1077-1079 | No run gets beyond the last of these events, and one that has got there raises: an iteration begins, the page of a block is mapped, its callback registered, 256 hits of the block, a reset, an iteration. |
| CoverageFaults.ResetLeavesCallback | simics/monitorCore/coverage.py:1307-1311 | Every run of these events ends with a callback registered on a breakpoint that does not exist: the page of a block is mapped, a reset, the call made that waited. |
| CoverageFaults.NewAnalysisKeepsDynamic | simics/monitorCore/coverage.py:157-314 | After every run in which the page of a block is mapped, any new analysis leaves inconsistent lists. |
| CoverageFaults.StrandedBreakpoint | simics/monitorCore/coverage.py:1077-1079 | The class makes the first of these runs: from its constructor and setBlockBreaks through all of those events, to the exception. |
| CoverageFaults.LateCallback | simics/monitorCore/coverage.py:1307-1311 | And the second, from its constructor to callbacks out of step. |
| CoverageFaults.NewAnalysis | simics/monitorCore/coverage.py:157-314 | And the third, to inconsistent lists. |
| FdTimeline.ChangedTable | simics/bin/showFDs.py:14-17 | Setting items in the index sets them in the table of what is open, and keeps recent_cycle naming an entry of every timeline. |
| FdTimeline.IndexedNow | simics/bin/showFDs.py:164-291 | For any trace, whatever its cycles, the index knows what is open at its end, and getItem never fails. |
| FdTimeline.RecentIsGreatest | simics/bin/showFDs.py:14-17 | When cycles never go back, every timeline is increasing and recent_cycle is its last and greatest cycle. |
| FdTimeline.ShowIsReplay | simics/bin/showFDs.py:64-81 | When cycles never go back, what is shown for cycle c after the whole trace is what a replay of only the events before c leaves open. |
| FdTimeline.BeforeIsPrefix | simics/bin/showFDs.py:71-79 | The events replayed are a prefix of the trace, and exactly those before c. |
| FdTimeline.LastBeforeExact | simics/bin/showFDs.py:71-79 | Of a timeline in any order, the item shown is the last before the first cycle that is not before c. |
| FdTimeline.OutOfOrderMisses | simics/bin/showFDs.py:71-79 | The hypothesis is needed: on a trace with a cycle that goes back, an open descriptor is not shown. |
| FdTimeline.AcceptOnBoundStops | simics/bin/showFDs.py:199-207 | The script gets through no trace in which a socket is bound and the same thread accepts on it later, unless the line of the accept names a third descriptor. |
| FdTimeline.BindAcceptStops | simics/bin/showFDs.py:199-207 | The shortest such trace, a bind and an accept. |
| FdTimeline.AfterClose | simics/bin/showFDs.py:145-161 | After a close no other thread is left with the other end of a pipe to the descriptor, and every other entry is as it was. |
| FdTimeline.AfterExit | simics/bin/showFDs.py:285-291 | After an exit the thread has nothing open, no other thread has a pipe to any descriptor it had, and every other entry is as it was. |
| FdTimeline.AfterClone | simics/bin/showFDs.py:256-284 | After a clone the child has every open item of its parent, the parent's pipes within itself lead to the child, and every other entry is as it was. |
| FdTimeline.AfterDup | simics/bin/showFDs.py:216-243 | After a dup the new descriptor is what the old one was, if that is known; every pipe end in another thread that led to the old one leads to the new one and keeps its kind; and every other entry is as it was. |
| FdTimeline.AfterPipe | simics/bin/showFDs.py:208-215 | After a pipe its two ends lead to each other, and every other entry is as it was. |
| FdTimeline.AfterNaming | simics/bin/showFDs.py:175-198 | An open, a bind or a connect sets its descriptor to the file or address, and nothing else. |
| FdTimeline.BindersExact | simics/bin/showFDs.py:186-193 | The address remembered for a descriptor is the one that its thread last bound it to, closed or not. |
| FdTimeline.AcceptOnUnbound | simics/bin/showFDs.py:199-207 | The new descriptor of an accept on a socket that its thread never bound names the socket. |
| FdTimeline.AcceptOnBound | simics/bin/showFDs.py:199-207 | On one that it has bound, it names the address that the line's descriptor was last bound to. |
| FdTimeline.StopsAtNull | simics/bin/showFDs.py:22-25 | The script stops exactly at an event that sets a descriptor called NULL and at an accept on a bound socket whose line names nothing bound. |
| FdTimeline.NullNeverListed | simics/bin/showFDs.py:22-25 | As long as it gets through, no descriptor called NULL is listed. |
| FdTimeline.PipeAcrossClone | simics/bin/showFDs.py:217-284 | A pipe made before a clone connects parent and child both ways after it, and when the child closes its end the parent's is closed. |
| FdTrack.FdTrack.SetItem | simics/bin/showFDs.py:14-36 | One item is set at one cycle, in timeline, recent cycle and table; nothing else changes. |
| FdTrack.FdTrack.ClosePipes | simics/bin/showFDs.py:145-161 | In whatever order the loop visits them, exactly the other ends in other threads are closed. |
| FdTrack.FdTrack.DupItem | simics/bin/showFDs.py:226-253 | The new descriptor is what the old one is, and exactly the other ends of its pipes lead to it. |
| FdTrack.FdTrack.CloneItems | simics/bin/showFDs.py:256-284 | The child has what the parent has open, and pipes within the parent lead to the child. |
| FdTrack.FdTrack.ExitGroup | simics/bin/showFDs.py:285-291 | Everything the thread had is closed, with exactly the other ends of its pipes. |
| FdTrack.FdTrack.Record | simics/bin/showFDs.py:180-291 | Each event makes exactly its changes to the table, or the script stops at exactly the events named. |
| FdTrack.FdTrack.Show | simics/bin/showFDs.py:64-81 | For every timeline the last item before the first cycle that is too late. |
| FdTrack.GetDict | simics/bin/showFDs.py:164-291 | The index built is that of the whole trace, if and only if no event stops the script. |
| FdTrack.ShowFds | simics/bin/showFDs.py:293-301 | The script as a whole shows the last item before the cycle of every timeline of the index, for any trace it gets through; where no cycle goes back, that is what the replay of the events before the cycle leaves open. |
| FindStates.AddHits | simics/fuzz_bin/find_new_states.py:68-76 | The list holds each hit once: those it had and those of any of the files. |
| FindStates.HitsOfExact | simics/fuzz_bin/find_new_states.py:68-76 | The hits of a list of files are those that some file of it has. |
| FindStates.Baseline | simics/fuzz_bin/find_new_states.py:68-109 | The baseline is the hits of any file of the target and, below a state, of any workspace nearer to the root than those looked at. |
| FindStates.NewHitsExact | simics/fuzz_bin/find_new_states.py:143-150 | A hit is new for a workspace exactly if some file of it has the hit and no file of the target or of any workspace at a lesser depth has it. |
| FindStates.NewStates | simics/fuzz_bin/find_new_states.py:117-150 | The workspaces found are exactly those directly below the state with new hits, each with its new hits, and each once as the directory lists it once. |
| FindStates.InUnique | simics/fuzz_bin/find_new_states.py:164-176 | Equal length and containment decide equality as sets, by the pigeonhole principle, because the lists have no duplicates. |
| FindStates.Unique | simics/fuzz_bin/find_new_states.py:164-181 | Entries kept have pairwise different sets of new hits, and every entry has the same set as one kept. |
| FindStates.WhoHitThese | simics/fuzz_bin/find_new_states.py:16-33 | Exactly the coverage files with at least one of the hits, in order. |
| FindStates.RoomShrinks | simics/fuzz_bin/find_new_states.py:191-196 | Each recursive call is for a strictly longer state id, and the names on disk are bounded. |
| FindStates.Search | simics/fuzz_bin/find_new_states.py:44-197 | The recursion ends; every file reported is of a workspace next to the state or next to that of another report, and has a hit that no file of the target or of a shallower workspace has; every new hit below the state, and below every state reported, is in a file reported for a workspace with the same new hits, and with one file of a workspace every other that shows something new is reported; below no state is a set reported for two workspaces. |
| FdMgr.KeyInjective | simics/monitorCore/fdMgr.py:50 | For any thread ids, two slots never share a key of the form tid:fd. |
| FdMgr.FullAtTwentyFive | simics/monitorCore/fdMgr.py:40-46 | A thread holds at most 25 descriptors, and 25 exactly if all of 231..255 are taken. |
| FdMgr.TakenIsOpened | simics/monitorCore/fdMgr.py:44-51 | Taking a free descriptor adds exactly that slot to the partial map, over any stale key. |
| FdMgr.ClosedIsNotOpened | simics/monitorCore/fdMgr.py:57-62 | Closing removes exactly that slot, also when the path does not match and the key stays behind. |
| FdMgr.FdMgr.GetFD | simics/monitorCore/fdMgr.py:36-52 | The highest free descriptor of 231..255; none exactly when 25 are open. |
| FdMgr.FdMgr.Close | simics/monitorCore/fdMgr.py:54-66 | Removes the slot from the partial map; the look-up of the key never fails. |
| FdMgr.FdMgr.HasFDOpen | simics/monitorCore/fdMgr.py:68-74 | Answers exactly whether the partial map has this path in this slot. |
| AflMsg.EncodedLength | simics/monitorCore/afl.py:715-721 | A text has as many UTF-8 bytes as characters exactly if it is ASCII, and never fewer. |
| AflMsg.PackBytes | simics/monitorCore/afl.py:717 | The length is four bytes, the least significant first, a negative one as its two's complement. |
| AflMsg.SentIsFrameIffAscii | simics/monitorCore/afl.py:714-721 | What sendMsg sends is the frame of the text's bytes if and only if the text is ASCII. |
| AflMsg.NonAsciiIsCut | simics/monitorCore/afl.py:714-721 | Otherwise the reader gets a proper prefix and takes the rest for the next length. |
| AflMsg.ReadFrame | simics/monitorCore/afl.py:736-763 | A frame is read back whole and nothing of what follows with it. |
| AflMsg.Socket.GetMsg | simics/monitorCore/afl.py:736-763 | However recv cuts the stream, the outcome and what is left of it depend on the stream alone, unless the length itself is cut, which raises; it is not cut if the network delivers what is asked for. |
| AflMsg.Socket.GetBody | simics/monitorCore/afl.py:750-763 | The loop takes exactly the bytes asked for; none for a length that is not positive; gone when the stream ends first. |
| AflMsg.Socket.GetAll | simics/monitorCore/afl.py:736-763 | Of any sequence of payloads the first come out as they went in, for any fragmentation, up to the first whose length arrives in pieces; all of them, with the rest of the stream untouched, if the network cuts no length. |
| DecodeArm.ArmSTM | simics/monitorCore/decodeArm.py:224-252 | The register found, with negative indices counting from the end and an index error beyond. |
| DecodeArm.TruncatedExact | simics/monitorCore/decodeArm.py:245 | An offset that is not a multiple of four is divided by it toward zero. |
| DecodeArm.AtIndexExact | simics/monitorCore/decodeArm.py:247-251 | Each register is found at two indices, one of them negative, and any index beyond is an error. |
| DecodeArm.ArmLDM | simics/monitorCore/decodeArm.py:254-289 | The address computed; none for a register that is not in the list. |
| DecodeArm.MnemonicsRead | simics/monitorCore/decodeArm.py:233-264 | The eight mnemonics, with any condition or width after them, are read as the manual means them. |
| DecodeArm.PlainMnemonicsRead | simics/monitorCore/decodeArm.py:233-264 | Without a mode they are increment-after. |
| DecodeArm.StmIsManual | simics/monitorCore/decodeArm.py:233-251 | In all four modes the register found at an address is the one the manual puts there, the lowest at the lowest address. |
| DecodeArm.LdmIsManual | simics/monitorCore/decodeArm.py:258-286 | The address is the manual's, but eight bytes too low for increment-before. |
| DecodeArm.RoundTrip | simics/monitorCore/decodeArm.py:224-289 | armSTM at armLDM's address finds the register again, for any list of distinct registers and any base, if and only if the mode is not increment-before or the list has two registers. |
| DecodeArm.LdmFillsBlock | simics/monitorCore/decodeArm.py:275-286 | Registers later in the list have higher addresses, all within the block of words. |
| BackStop.DeadlineIsLastArming | simics/monitorCore/backStop.py:91-113 | After any history a deadline stands exactly if the last action that counted was an arming not longer ago than its number of cycles, and it is as far ahead as cycles of it are left. With how many an action arms is told by the actions alone: its argument, or that of the n-th call put off when the simulator gets round to the n-th. |
| BackStop.StopsExactlyAtLastArming | simics/monitorCore/backStop.py:33-43 | The simulation stops at a tick exactly when as many ticks have passed since the last effective arming as the argument of its call, with no clear or re-arming since. |
| BackStop.UnswallowedExact | simics/monitorCore/backStop.py:125-131 | A call gets through exactly if no delay was set before, or as many calls as the last one says have come since, this one included. |
| BackStop.WaitingExact | simics/monitorCore/backStop.py:132-133 | The calls that wait for the simulator are those that got through and were put off, each with its argument, in order, less as many as the simulator has got round to. |
| BackStop.ArmsExact | simics/monitorCore/backStop.py:104-133 | The n-th call that the simulator gets round to sets the deadline to the present cycle plus the argument of the n-th put off. |
| BackStop.DeadlineAhead | simics/monitorCore/backStop.py:104-113 | A deadline is never passed without a stop. |
| BackStop.DelaySwallows | simics/monitorCore/backStop.py:125-131 | After setDelay(n) exactly the next n - 1 arming calls are swallowed; all of them when n is below one. |
| BackStop.BackStop.Do | simics/monitorCore/backStop.py:32-168 | Every action keeps at most one event pending, which is the deadline, and does what the reference does. |
| BackStop.BackStop.SetFutureCycle | simics/monitorCore/backStop.py:125-135 | A swallowed call changes nothing but the delay, an immediate one sets the deadline its argument ahead, and any other is put off with its argument. |
| BackStop.BackStop.SetFutureCycleAlone | simics/monitorCore/backStop.py:104-113 | The pending event is replaced by one for the new deadline. |
| BackStop.BackStop.ClearCycle | simics/monitorCore/backStop.py:91-96 | No event is pending and no deadline stands. |
| BackStop.BackStop.CycleHandler | simics/monitorCore/backStop.py:33-43 | Stops exactly if a deadline stands, and clears it. |
| BackStop.Run | simics/monitorCore/backStop.py:32-168 | Over any run the steps at which the simulation stops are exactly those that the history calls for. |

## Left out

- DedupPool.PreservedIffAnchored: its necessity half uses an interleaving in which every file's worker is under way at once; DedupChunks.PreservedIffNoClash is the exact condition for a pool of given size.
- DedupChunks.PreservedIffNoClash: takes it that no hit list has an entry twice, and that a maximal file that a seed equals lies below one that no worker can clear, as it does when same-named seeds have the same hits. Where that fails, DedupPool.PreservedIffAnchored is the exact condition with as many processes as files; for fewer none is given there.
- TransferDelivery.DeliversIffSound: takes file names of at most 255 bytes and sizes below 2^63, as the file system does.
- DedupPool.SeedsAppearOnce: needs a third survivor, because a worker does not count its own file among the seeds it has passed.
- Coverage.Coverage.RunIteration: no event comes between the blocks executed; those with page-table updates, deferred calls, resets and halts in between are in Run.
- FdTimeline.ShowIsReplay: for traces whose cycles go back only a counterexample is given, not the exact condition.
- AflMsg.Socket.GetAll: whether the network cuts the four bytes of a length is an input; recv itself promises nothing about it, and when it does the script raises.
- dedupCoverage.py: all_hits as returned by the workers, checkFileFirst with its size comparison, and the files themselves.
- drive-driver3.py and driver-server.py: datagram loss, reordering and duplication, servers without acknowledgments, the restart signal, background commands on the sender's side, what the file system makes of a name.
- coverage.py: linear and default-context breakpoints, non-AFL mode, the dead zone, suspending, exits and hangs, the list of hits, pageHap, restoreBreaks; the physical address of a breakpoint, which is known by its number and block alone; the breakpoints that watch page-table entries, which only use up numbers; findPageTable, whose answers are parameters; the mode-change callbacks that call the handlers.
- coverage.py: cover, which the first doCoverage calls (SetBlockBreaks stands for it), its branch for an unchanged block file, which only enables breakpoints, and the `did_missing = []` after it, which changes nothing when the lists are consistent; the debug message of setBreak that raises for a dead spot without a physical address.
- coverage.py: a page-table address that is not on any list raises in pageBaseUpdated and ptegUpdated, the second entry group of a block always; in Run such a store changes nothing.
- coverage.py: the three dictionaries of missing blocks are one dictionary keyed by kind and address; breakpoint lists and simulator state are one record that the methods reassign.
- showFDs.py: parsing of lines; file names that contain the word pipe, which a clone would set again at a later cycle without changing them; the exit on thread ids of five digits or more.
- find_new_states.py: sibling mode, the restriction to one workspace, the order of sorted names (the directory is given in that order), printing.
- decodeArm.py: operands other than a register list, stack-style suffixes, 64-bit registers, the precision of floating-point division beyond 2^53.
- backStop.py: the hang watch, callbacks of the stop, a processor that has gone away.
- afl.py: everything but the two message routines.

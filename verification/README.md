# Verified models of VeridianOS userland services and boot code

Dafny models of the stateful parts of VeridianOS that are small enough to see
whole and hard enough to get wrong, with proofs of what they promise. Each model
takes the form of the code it describes: objects updated in place are classes,
fixed buffers are arrays, loops are loops; each is proved against a specification
that says what the result means.

| file | models |
|---|---|
| `Text.dfy` | byte strings, case, trimming, tokenizing |
| `IndexModel.dfy` | what the file index means: lookups, ranking by plain scan, histories |
| `BalooIndex.dfy`, `BalooSearch.dfy`, `BlixFormat.dfy`, `BlixLoad.dfy`, `BalooStore.dfy` | the inverted index: updates with lazy deletion and compaction, trigram search, its file format, save, load and whole runs |
| `BalooBackend.dfy`, `BalooEndToEnd.dfy` | indexing one file, and finding it again |
| `DbusBatch.dfy` | the D-Bus batching queue |
| `DataStream.dfy` | the integer and block stream both file formats use |
| `WalletFormat.dfy`, `WalletModel.dfy`, `Wallet.dfy` | the wallet file, the life of a wallet as steps between states, and the object |
| `XimTrace.dfy`, `XimModel.dfy`, `XimBridge.dfy` | well-formed event traces, what the input method bridge sends call by call, and the object |
| `BootTable.dfy`, `BootRunner.dfy` | what boot programs do to processes and page table roots, and the machine that runs them |
| `IntegerMath.dfy`, `BumpAllocator.dfy`, `LogRing.dfy` | integer square root and power, the bump allocator, the log ring |

`dafny verify dfyconfig.toml` checks everything.

## How the models read the code

- A string is its sequence of bytes; letters, digits, case and white space are those
  of ASCII, and UTF-8 conversion is the identity. References are never null.
- Hash containers are walked in an arbitrary order: each loop picks any remaining
  element, and a written file is some order of what it holds.
- The compaction ratio 0.20 is the exact fraction one fifth. Counters, relevances and
  scores are unbounded integers except where a file field or an overflow is the point.
- Where a run of calls is the subject, what the calls say is a function or relation over the
  calls alone (`IndexModel.Replay`, `DbusBatch.Submitted`, `WalletModel.Step`, `XimModel.After`,
  `BootTable.Boot`, `BumpAllocator.Answers`, `LogRing.Since`); the laws are proved of it, and
  `Execute` shows that the object does just that.
- A clock reading is a parameter of the call that takes it; the batching queue looks at the
  clock only when a send comes. Whether a file can be opened is a parameter; the wallet directory is a map from wallet names to bytes. The key
  derived from a password is a non-empty byte string.
- `std::sort` is any sorting permutation; reads past the end of a `QDataStream` give
  zeroes, drain the stream and record that it ran short.
- The processor state around entering and leaving user mode follows
  `kernel/src/arch/x86_64/usermode.rs` and `syscall.rs`: entering saves stack pointer, CR3
  and canary and clears the FS and GS bases; returning takes the saved stack pointer and
  CR3, clears the saved context and the FS and GS bases. The frame allocator never hands
  out a root that is still allocated. Process ids start at 1 and only grow; there is no init
  process, so the first boot program is process 1. The process table is walked in order of
  process ids, as a `BTreeMap` is.

## What turned out not to hold

Each of these is a proved statement with its exact condition.

- **Wallet, ignored close.** `openWallet` ignores whether closing the previous wallet
  worked. Afterwards an open, clean wallet matches its file except exactly when the old
  one was dirty, the disk was not writable and the new file exists but does not load
  (`WalletModel.StepSound`, over whole runs `WalletModel.RunsAreSound`, shown on an instance by
  `Wallet.FailedCloseBreaksSoundness`).
- **Wallet, leftover folders.** A new wallet starts with just the default folder exactly
  when no other folder was left in memory (`WalletModel.NewStartsEmpty`,
  `Wallet.LeftOverFolderLeaks`): a failed load, or a folder made while closed, leaks in.
- **Both file formats** read back what was written exactly when every length fits
  (`BlixFormat.LoadAfterSave`, `WalletFormat.LoadAfterSave`): nothing checks this on writing.
- **D-Bus names.** A queue belongs to one destination exactly when its name is shorter than
  255 bytes (`DbusBatch.QueueIsPrivate`).
- **D-Bus window.** The header promises a batch window in milliseconds; the code compares
  clock readings in whole seconds. Over real time the promise is kept for no window: for every
  window some send is early or late (`DbusBatch.WindowMissed`, `DbusBatch.WindowNeverExact`).
  What holds, with both bounds reached: with `k` the window in whole seconds, at least one, a
  send is due once `1000 k` milliseconds have passed and only after more than `1000 (k - 1)`
  (`DbusBatch.WindowBounds`).
- **D-Bus limit.** The limit per destination is kept exactly for names shorter than 256 bytes
  (`DbusBatch.LimitExact`); a longer name is never counted and can fill the queue
  (`DbusBatch.LongNameFillsQueue`).
- **Index file.** Loading checks nothing about the entries. The index it builds is valid
  exactly when words are non-empty and lowered, paths non-empty and distinct per word, and no
  entry that a later one for the same word replaces had postings (`BlixLoad.ProperExactly`,
  `BalooStore.Load`).
- **Boot runner, FS base.** The parent's FS base is always zero after a child ran inline, so
  it survives exactly when it was zero (`BootRunner.Machine.BootRunForkedChild`).
- **Boot runner, page table roots.** A system call leaves a root allocated that belongs to no
  process and no run exactly when it is a wait for a zombie child that was never released (a
  child killed before it ran, for one), or an exec of a process that has already execed in
  this run (`BootTable.LeaksExactly`). All roots of a run are freed exactly when at most one of
  its execs got a new root (`BootTable.FreedUpToOneExec`). Over a whole boot sequence the roots
  that belong to nobody are exactly those lost in these two ways (`BootTable.LeaksAccounted`);
  leaking programs are `BootTable.TwoExecsLeak` and `BootTable.ReapedUnrunLeaks`.
- **`sqrt_int`** returns exactly for zero and for those arguments of at least two whose
  successor is not a perfect square (`IntegerMath.ReturnsExactly`). It divides by zero exactly
  for one (`IntegerMath.PanicsForOne`) and otherwise goes on for ever.
- **Bump allocator.** The requested alignment is honoured in every state exactly when it is
  at most eight (`BumpAllocator.AlignmentHonoured`).

## Model

| member | source | states |
|---|---|---|
| Text.Tokenize | userland/kf6/baloo-veridian-index.cpp:92-122 | the accumulator loop yields the maximal blocks of letters and digits, cut before an upper-case letter that follows a lower-case one, lowered |
| Text.TokensAreTokens | userland/kf6/baloo-veridian-index.cpp:92-122 | every token is non-empty and made of lower-case letters and digits |
| Text.TokensConserveLetters | userland/kf6/baloo-veridian-backend.cpp:145-174 | joined together the tokens are the letters and digits of the text, in order: none lost, invented or moved |
| Text.TokensAreSpans | userland/kf6/baloo-veridian-index.cpp:92-122 | a word is a token iff it is a block of letters and digits between two cuts, lowered; cuts are at everything else and before an upper-case letter that follows a lower-case one, by byte value |
| Text.TokensOfJoined | userland/kf6/baloo-veridian-index.cpp:401-409 | words joined by spaces are read back one by one |
| Text.TrimsInk | userland/kf6/baloo-veridian-index.cpp:401 | exactly the white space at the ends is dropped |
| Text.TokenIsItsOwnToken | userland/kf6/baloo-veridian-index.cpp:401-409 | a token used as a query is read back as just that token |
| IndexModel.TrigramsOfSubstring | userland/kf6/baloo-veridian-index.cpp:70-86 | a word containing q has every trigram of q: trigram filtering loses nothing |
| IndexModel.CandidateTestIsScan | userland/kf6/baloo-veridian-index.cpp:414-449 | prefix test or (all trigrams and contains) selects exactly the words containing q, or starting with q when q has one or two bytes |
| IndexModel.TrigramsDetermined | userland/kf6/baloo-veridian-index.cpp:264-267 | the trigram map is determined by the words, so rebuilding it gives the same map |
| IndexModel.ReplayIsGreatestSurvivor | userland/kf6/baloo-veridian-index.cpp:331-393 | after any history a word is recorded for a path iff some addition was not followed by a removal of the path, with the greatest relevance among those |
| IndexModel.RemovedIsNotFound | userland/kf6/baloo-veridian-index.cpp:367-393 | after a removal no query finds the path until it is added again |
| IndexModel.RemovalIsLocal | userland/kf6/baloo-veridian-index.cpp:367-393 | a removal leaves every other path's score for every query unchanged |
| IndexModel.SameFactsSameScores | userland/kf6/baloo-veridian-index.cpp:451-471 | scores depend on the recorded relevances only |
| IndexModel.SameFactsSameRanking | userland/kf6/baloo-veridian-index.cpp:474-506 | so do rankings, hence compaction and reloading are unobservable |
| IndexModel.RankedMeans | userland/kf6/baloo-veridian-index.cpp:411-503 | rankings are those told plainly: 20 more for the query word itself, 10 more for a word that goes on after it, the relevance alone for one holding a query word of three bytes or more further in; best per path, best first, none better left out |
| IndexModel.HitExplained | userland/kf6/baloo-veridian-index.cpp:395-506 | every listed score is the worth of an addition not removed, and no such addition for the path is worth more |
| IndexModel.QueryOfWords | userland/kf6/baloo-veridian-index.cpp:401-409 | a query of words and spaces stands for those words |
| IndexModel.QueryOfSigns | userland/kf6/baloo-veridian-index.cpp:401-409 | a query without letters and digits stands for itself, trimmed |
| BalooIndex.ExtractTrigrams | userland/kf6/baloo-veridian-index.cpp:70-86 | the loop collects exactly the trigrams of the lowered word |
| BalooIndex.Index.constructor | userland/kf6/baloo-veridian-index.cpp:177-186 | a new index is valid and holds the empty history |
| BalooIndex.Index.FileTrigrams | userland/kf6/baloo-veridian-index.cpp:358-361 | filing a word keeps the trigram map exact for the words plus that one |
| BalooIndex.Index.Add | userland/kf6/baloo-veridian-index.cpp:331-365 | keeps the invariant (exact trigram map, no empty trigram set, distinct paths per word, exact path set, live = total - deleted, bounded garbage); only this word and path change, to the greater relevance |
| BalooIndex.Index.DropWord | userland/kf6/baloo-veridian-index.cpp:144-155 | removing a word without postings keeps the trigram map exact and no set empty |
| BalooIndex.Index.DropEmptyWords | userland/kf6/baloo-veridian-index.cpp:141-159 | exactly the words without postings go; everything else and the live count stay |
| BalooIndex.Index.Recount | userland/kf6/baloo-veridian-index.cpp:161-165 | the total becomes the number of live postings |
| BalooIndex.Index.Compact | userland/kf6/baloo-veridian-index.cpp:128-169 | no lookup changes; it happens exactly at a fifth of garbage and afterwards live postings exceed four times the deletions or there are none |
| BalooIndex.Index.ClearPostings | userland/kf6/baloo-veridian-index.cpp:374-387 | exactly the postings of the path go and are counted as deletions |
| BalooIndex.Index.RemoveFile | userland/kf6/baloo-veridian-index.cpp:367-393 | keeps the invariant; exactly the path's relevances disappear, whether or not compaction fires |
| BalooIndex.Index.GetCount | userland/kf6/baloo-veridian-index.cpp:508-513 | counts exactly the paths that occur in some posting |
| BalooSearch.CandidateWords | userland/kf6/baloo-veridian-index.cpp:425-442 | intersecting in any order, with the early exit, gives the words having every trigram of the query word |
| BalooSearch.MatchingWords | userland/kf6/baloo-veridian-index.cpp:415-449 | the words selected are exactly those a plain scan selects |
| BalooSearch.CollectScores | userland/kf6/baloo-veridian-index.cpp:411-472 | the score map holds exactly the paths found, each with its best score over query words, words and postings |
| BalooSearch.SortByScore | userland/kf6/baloo-veridian-index.cpp:474-488 | a permutation in non-increasing score |
| BalooSearch.TopIsRanked | userland/kf6/baloo-veridian-index.cpp:490-503 | the first max of the sorted list are distinct, and no omitted path outscores a returned one |
| BalooSearch.Rank | userland/kf6/baloo-veridian-index.cpp:395-488 | the ranking computed is the one a scan of all words defines |
| BalooSearch.Search | userland/kf6/baloo-veridian-index.cpp:395-506 | fills the caller's array with that ranking, also told plainly, paths cut to 1023 bytes, returns how many, and touches nothing beyond |
| DataStream.ValueOfLe | userland/kf6/baloo-veridian-index.cpp:290-296 | a little-endian integer of k bytes is read back modulo 256 to the k |
| DataStream.LeByte | userland/kf6/baloo-veridian-index.cpp:290-296 | byte i is digit i to base 256: least significant first |
| DataStream.Int32RoundTrip | userland/kf6/baloo-veridian-index.cpp:312 | a relevance survives the 32-bit field iff it fits |
| BlixFormat.DecodedWordsFit | userland/kf6/baloo-veridian-index.cpp:226-268 | whatever the bytes, what is loaded obeys the limits of the format |
| BlixFormat.LoadAfterSave | userland/kf6/baloo-veridian-index.cpp:188-319 | in any iteration order, loading a saved index gives back the same word map iff words and paths are under 65536 bytes, relevances fit int32 and counts fit; paths and total then too |
| BlixFormat.ReadExactly | userland/kf6/baloo-veridian-index.cpp:188-225 | a file is read iff it begins with BLIX and version 1 |
| BlixFormat.IndexHeader | userland/kf6/baloo-veridian-index.cpp:288-296 | what is written begins with BLIX, version 1 and the number of words |
| BlixFormat.SampleFile | userland/kf6/baloo-veridian-index.cpp:293-314 | an instance: a whole index file byte by byte |
| BalooStore.Save | userland/kf6/baloo-veridian-index.cpp:293-314 | the loops write the encoding of the word map in some order of its words |
| BlixLoad.TotalExcess | userland/kf6/baloo-veridian-index.cpp:226-268 | the loaded total equals the live postings iff no replaced entry had postings |
| BlixLoad.ProperExactly | userland/kf6/baloo-veridian-index.cpp:226-268 | words, paths and total of the loaded index are those of a valid one iff the decoded entries are sane |
| BalooStore.Load | userland/kf6/baloo-veridian-index.cpp:188-273 | on any bytes the loops build what the format's reading defines, with an exact trigram map, or report no index; it is valid iff the decoded entries are sane |
| BalooStore.Reload | userland/kf6/baloo-veridian-index.cpp:188-319 | saving and loading restores postings, path set and trigram map |
| BalooStore.RunsFit | userland/kf6/baloo-veridian-index.cpp:293-314 | any run of operations within the limits leaves an index that can be saved |
| BalooStore.Execute | userland/kf6/baloo-veridian-index.cpp:128-393 | after every run of additions, removals and reloads, where what precedes a reload fits the file, the index is valid and holds exactly what the history says |
| BalooStore.SearchSeesHistory | userland/kf6/baloo-veridian-index.cpp:395-506 | so a search after any run is the ranking of the history |
| BalooBackend.ContentWordsAreRuns | userland/kf6/baloo-veridian-backend.cpp:212-243 | the content words are exactly the maximal blocks of 3 to 64 letters and digits, lowered |
| BalooBackend.ScanContent | userland/kf6/baloo-veridian-backend.cpp:212-243 | the scan yields each content word once, in order of first occurrence |
| BalooBackend.ExtensionOf | userland/kf6/baloo-veridian-backend.cpp:205 | what follows the last dot, lowered, is the extension |
| BalooBackend.FileEffect | userland/kf6/baloo-veridian-backend.cpp:180-246 | for any history, indexing raises each word of the path to what is due: 80 for a name token, 70 for the lowered name before the last dot, 40 for a run of 3 to 64 in the first 65536 bytes of a text file without zero bytes in the first 512; nothing else is recorded and no other path touched |
| BalooBackend.IndexSingleFile | userland/kf6/baloo-veridian-backend.cpp:180-246 | the loops leave the index with exactly that effect, told on the lookups before and after; an unreadable file changes nothing |
| BalooBackend.RoomForAll | userland/kf6/baloo-veridian-index.cpp:490-503 | with a limit no smaller than the number of indexed paths every path found is listed |
| BalooBackend.KnownIsFound | userland/kf6/baloo-veridian-index.cpp:451-471 | a recorded token finds its path with the recorded relevance plus 20 at least |
| BalooBackend.RecordedIsFound | userland/kf6/baloo-veridian-index.cpp:451-471 | a recorded token finds its file with the recorded relevance plus 20 at least |
| BalooBackend.NameTokenIsFound | userland/kf6/baloo-veridian-backend.cpp:191-197 | searching a token of the file name finds the file with at least 100 |
| BalooBackend.ContentWordIsFound | userland/kf6/baloo-veridian-backend.cpp:205-246 | searching an indexed content word finds the file with at least 60 |
| BalooEndToEnd.IndexThenSearch | userland/kf6/baloo-veridian-backend.cpp:180-246 | indexing a file and then searching a name token, its base name (when a token) or a content word reports it with at least 100, 90 or 60 |
| DbusBatch.ForConcat | userland/integration/dbus-optimize.cpp:122-176 | selecting a destination's messages distributes over concatenation |
| DbusBatch.FlushConserves | userland/integration/dbus-optimize.cpp:122-176 | flushing one destination loses, repeats and reorders nothing for any destination |
| DbusBatch.DrainedIsDelivered | userland/integration/dbus-optimize.cpp:536-547 | with nothing pending each destination has got exactly what was accepted for it, in order |
| DbusBatch.QueueIsPrivate | userland/integration/dbus-optimize.cpp:377 | among names a C string can hold, a stored name belongs to one name iff that is shorter than 255 bytes |
| DbusBatch.WindowMissed | userland/integration/dbus-optimize.cpp:216-223 | for every window there are times at which a send is early, or late for windows under a second, against the promised milliseconds |
| DbusBatch.WindowNeverExact | userland/integration/dbus-optimize.cpp:216-223 | so the promise in milliseconds is kept for no window |
| DbusBatch.WindowBounds | userland/integration/dbus-optimize.cpp:216-223 | due once the window's whole seconds have passed and only after more than a second less; both bounds are reached |
| DbusBatch.LimitExact | userland/integration/dbus-optimize.cpp:393-402 | one more message leaves a destination below its limit iff its name has fewer than 256 bytes |
| DbusBatch.LongNameFillsQueue | userland/integration/dbus-optimize.cpp:370-405 | an instance: with a limit of one, 256 messages wait for a name of 300 bytes |
| DbusBatch.Batcher.SendAll | userland/integration/dbus-optimize.cpp:146-159 | sends the destination's messages in queue order and invalidates exactly their slots |
| DbusBatch.Batcher.CompactQueue | userland/integration/dbus-optimize.cpp:163-173 | in place, the valid slots remain, in order |
| DbusBatch.Batcher.FlushDest | userland/integration/dbus-optimize.cpp:122-176 | the destination's messages are sent in order, the others stay pending in order |
| DbusBatch.Batcher.Destinations | userland/integration/dbus-optimize.cpp:180-201 | the list holds exactly the pending destinations, each once, and never overflows |
| DbusBatch.Batcher.FlushAll | userland/integration/dbus-optimize.cpp:179-208 | afterwards the queue is empty, conservation holds and the flush time is now |
| DbusBatch.Batcher.CheckTimer | userland/integration/dbus-optimize.cpp:211-225 | flushes everything iff enabled, the window has passed and something waits; otherwise nothing changes |
| DbusBatch.Batcher.Enqueue | userland/integration/dbus-optimize.cpp:370-405 | the array write is in bounds; exactly what is pending and sent afterwards, with the destination below its limit and the others untouched unless the array was full |
| DbusBatch.Batcher.Init | userland/integration/dbus-optimize.cpp:277-303 | resets queue, limits, mode, clock and counters once; a second call changes nothing; nothing accepted or sent is touched |
| DbusBatch.Batcher.EnableBatching | userland/integration/dbus-optimize.cpp:305-327 | an interval of zero empties the queue and disables; any other is stored, restarts the window and keeps what is pending |
| DbusBatch.Batcher.SendBatched | userland/integration/dbus-optimize.cpp:329-408 | accepts all messages in order or none, cut to the stored sizes when queued; sends all earlier messages first when the window has passed; else, if the array has room, leaves other destinations waiting; keeps conservation and the limit |
| DbusBatch.Batcher.SetMaxBatchSize | userland/integration/dbus-optimize.cpp:520-534 | the limit is clamped to 1..256 |
| DbusBatch.Batcher.Shutdown | userland/integration/dbus-optimize.cpp:536-575 | everything accepted has been sent, per destination in order |
| DbusBatch.CarriedFor | userland/integration/dbus-optimize.cpp:370-405 | for a name under 255 bytes the mails are the submissions for it, one by one, and nothing else |
| DbusBatch.ArrivesAs | userland/integration/dbus-optimize.cpp:353-392 | what arrives is the message itself, with name cut to 255 bytes and body to 4096 only when queued |
| DbusBatch.Execute | userland/integration/dbus-optimize.cpp:122-575 | for every run and every name under 255 bytes, sent followed by pending is what the calls submitted for it, in order; after a shutdown all of it was sent |
| WalletFormat.DecodedFoldersOk | userland/kf6/kwallet-veridian-backend.cpp:451-513 | whatever the bytes, the folders read obey the caps and store their own keys |
| WalletFormat.DeserializeAfterSerialize | userland/kf6/kwallet-veridian-backend.cpp:409-513 | for any iteration order, deserializing a serialized wallet gives the same folders iff they are within the parser's caps |
| WalletFormat.CryptTwice | userland/kf6/kwallet-veridian-backend.cpp:386-403 | applying a non-empty key twice gives the data back |
| WalletFormat.XorIs | userland/kf6/kwallet-veridian-backend.cpp:392-393 | the cipher's byte operation is told by its bits: set iff exactly one of the two is |
| WalletFormat.XorTells | userland/kf6/kwallet-veridian-backend.cpp:392-393 | two key bytes give the same result iff they are the same, and zero alone leaves a byte as it is |
| WalletFormat.WrongKey | userland/kf6/kwallet-veridian-backend.cpp:386-403 | data encrypted with one key reads as itself with another iff the keystreams agree on it |
| WalletFormat.CappedMeans | userland/kf6/kwallet-veridian-backend.cpp:459-502 | the caps, number by number |
| WalletFormat.SampleWallet | userland/kf6/kwallet-veridian-backend.cpp:409-449 | an instance: a whole serialized wallet byte by byte |
| WalletFormat.WalletHeader | userland/kf6/kwallet-veridian-backend.cpp:553-556 | what is written begins with VKWL and version 1 |
| WalletFormat.ReadExactly | userland/kf6/kwallet-veridian-backend.cpp:578-592 | the body is looked at iff the file begins with VKWL and version 1 |
| WalletFormat.LoadAfterSave | userland/kf6/kwallet-veridian-backend.cpp:534-603 | a saved file loads back to the same folders iff they are within the caps |
| Wallet.Encrypt | userland/kf6/kwallet-veridian-backend.cpp:386-396 | the in-place loop computes the keystream cipher; a byte is left as it is iff its key byte is zero |
| Wallet.Serialize | userland/kf6/kwallet-veridian-backend.cpp:409-449 | the nested loops write the encoding for some order of folders and entries |
| Wallet.Deserialize | userland/kf6/kwallet-veridian-backend.cpp:451-513 | the nested loops compute the parser, including what a failure leaves behind |
| Wallet.Backend.SaveToFile | userland/kf6/kwallet-veridian-backend.cpp:534-566 | a successful save replaces exactly the current wallet's file and clears the dirty flag |
| Wallet.Backend.LoadFromFile | userland/kf6/kwallet-veridian-backend.cpp:568-603 | a bad header leaves the folders alone, otherwise they are what the parser read |
| Wallet.Backend.CloseWallet | userland/kf6/kwallet-veridian-backend.cpp:87-109 | fails iff dirty and unwritable; a successful close leaves on disk what was in memory iff within the caps |
| Wallet.Backend.OpenWallet | userland/kf6/kwallet-veridian-backend.cpp:54-85 | what is loaded or created, and exactly when a clean open wallet still matches its file and a new wallet starts empty |
| Wallet.Backend.DeleteWallet | userland/kf6/kwallet-veridian-backend.cpp:133-142 | removes only that file, succeeds iff the file can be removed and was there or is written by the close, and keeps the object sound |
| Wallet.Backend.CreateFolder | userland/kf6/kwallet-veridian-backend.cpp:158-168 | adds an empty folder under its own name unless it exists |
| Wallet.Backend.RemoveFolder | userland/kf6/kwallet-veridian-backend.cpp:170-180 | removes just that folder and leaves it if current |
| Wallet.Backend.SetFolder | userland/kf6/kwallet-veridian-backend.cpp:182-187 | the folder exists afterwards and is current |
| Wallet.Backend.ReadEntry | userland/kf6/kwallet-veridian-backend.cpp:234-247 | returns the value stored under the key in the current folder, or fails |
| Wallet.Backend.WriteEntry | userland/kf6/kwallet-veridian-backend.cpp:213-268 | the current folder gains exactly this entry, other folders stay, soundness is kept |
| Wallet.Backend.RemoveEntry | userland/kf6/kwallet-veridian-backend.cpp:320-331 | the current folder loses exactly this entry |
| Wallet.Backend.RenameEntry | userland/kf6/kwallet-veridian-backend.cpp:333-352 | the entry moves, stored key included, so every entry still stores its own key |
| WalletModel.OpenSound | userland/kf6/kwallet-veridian-backend.cpp:54-85 | an open keeps a clean open wallet on disk iff its ignored close did not fail or the new wallet was opened |
| WalletModel.StepSound | userland/kf6/kwallet-veridian-backend.cpp:54-352 | every call keeps soundness, except exactly the open whose ignored close fails and whose file does not load |
| WalletModel.OtherFilesStay | userland/kf6/kwallet-veridian-backend.cpp:54-352 | a call touches no file but the open wallet's and one it is asked to delete |
| WalletModel.ClosedIsOnDisk | userland/kf6/kwallet-veridian-backend.cpp:87-109 | after a close that worked the file decodes to what was in memory iff within the caps |
| WalletModel.NewStartsEmpty | userland/kf6/kwallet-veridian-backend.cpp:74-80 | a new wallet holds just the default folder iff nothing was left over in memory |
| WalletModel.RunsAreSound | userland/kf6/kwallet-veridian-backend.cpp:54-352 | in every run all states are sound iff none of its opens was the bad one |
| Wallet.Execute | userland/kf6/kwallet-veridian-backend.cpp:54-352 | the object runs the calls step by step as the relation says; every state up to the first bad open is sound, and it stops only there |
| Wallet.Reopen | userland/kf6/kwallet-veridian-backend.cpp:54-109 | closing and reopening with the same key yields the same folders iff they are within the caps |
| Wallet.FailedCloseBreaksSoundness | userland/kf6/kwallet-veridian-backend.cpp:57-73 | an instance: open and clean, yet no file matches |
| Wallet.LeftOverFolderLeaks | userland/kf6/kwallet-veridian-backend.cpp:74-80 | an instance: a new wallet that is not empty |
| XimTrace.PhasesAreBrackets | userland/integration/xwayland-im.cpp:399-453 | the phase automaton accepts exactly the traces (Commit or Start Draw+ Done)* with a last composition possibly open |
| XimModel.DrawReplaces | userland/integration/xwayland-im.cpp:428-450 | replaying the start and draw callbacks shows exactly the text stored |
| XimModel.DoneCloses | userland/integration/xwayland-im.cpp:245-250 | the done callback ends the composition and nothing is shown |
| XimModel.CommitStays | userland/integration/xwayland-im.cpp:383-391 | a commit outside a composition keeps the trace well formed |
| XimModel.OthersUnaffected | userland/integration/xwayland-im.cpp:110-113 | events for one window change no other window's trace |
| XimModel.StepTold | userland/integration/xwayland-im.cpp:234-488 | every call keeps: each window's trace is in the phase and shows the text the bridge holds for it; after destroy all are closed |
| XimModel.RunsAreBracketed | userland/integration/xwayland-im.cpp:234-488 | for every run of calls and every window the events sent are well bracketed, show the text left composing, and are closed after destroy |
| XimModel.CommitsArrive | userland/integration/xwayland-im.cpp:234-488 | for every run, what a window is sent as committed is exactly what was committed while it had the focus, in order, and what it shows is the text being composed, both told from the calls |
| XimBridge.KnownCount | userland/integration/xwayland-im.cpp:55-63 | with distinct windows, all slots are taken iff 32 windows are known |
| XimBridge.Bridge.FindClient | userland/integration/xwayland-im.cpp:39-49 | the active slot of the window, or none exists |
| XimBridge.Bridge.AllocClient | userland/integration/xwayland-im.cpp:55-63 | a free slot, or none exists |
| XimBridge.Bridge.SetFocus | userland/integration/xwayland-im.cpp:234-287 | does what the model's focus call does; fails iff not initialized, window zero, or 32 other windows are known |
| XimBridge.Bridge.UnsetFocus | userland/integration/xwayland-im.cpp:289-317 | sends Done to a composing window and no slot has the focus |
| XimBridge.Bridge.CommitString | userland/integration/xwayland-im.cpp:364-397 | sends Done to a composing window and then Commit with exactly the text, or fails and sends nothing; exact error conditions |
| XimBridge.Bridge.SetPreedit | userland/integration/xwayland-im.cpp:399-453 | sends Done, or Start when needed and Draw over the old text, with the text cut to 255 bytes |
| XimBridge.Bridge.Destroy | userland/integration/xwayland-im.cpp:455-488 | sends Done to a composing window, forgets all windows; the clean-up loop finds no composition left |
| XimBridge.Execute | userland/integration/xwayland-im.cpp:234-488 | every run sends exactly the events its calls call for: each window's trace is well bracketed and carries exactly the texts committed to it |
| BootRunner.Machine.RunAction | kernel/src/arch/x86_64/syscall.rs:131-213 | each system call leaves boot context, kernel stack, current process and GS pair as found, returns on the user stack pointer saved on its own entry, and does to the table what the action says; a wait removes exactly a zombie child of the caller |
| BootRunner.Machine.DoReap | kernel/src/process/exit.rs:140-152 | a zombie child of the caller is removed, whatever its root; otherwise the table is unchanged |
| BootRunner.Machine.DoKill | kernel/src/process/exit.rs:476-504 | a ready process becomes a zombie, its children go to process 1 if there is one, nothing else changes |
| BootTable.EndedMeans | kernel/src/process/exit.rs:629-645 | the end of a process changes its state and its children's parent, and nothing else |
| BootTable.PeacefulRun | kernel/src/bootstrap.rs:1578-1754 | a run without kills leaves older processes alone and its own a rootless zombie of the same parent |
| BootTable.ForkRunWait | kernel/src/bootstrap.rs:1578-1754 | after fork, inline run without kills and wait, the child is gone and every process that was there is as before |
| BootRunner.Machine.DoExec | kernel/src/process/creation.rs:341-350 | a fresh root replaces the current one; the replaced root is kept for the run or given up |
| BootRunner.Machine.BootReturn | kernel/src/arch/x86_64/usermode.rs:365-457 | goes back to the saved stack pointer and CR3 and clears the saved context |
| BootRunner.Machine.EnterAndReturn | kernel/src/arch/x86_64/usermode.rs:264-340 | whatever runs nested inside, control comes back to the stack pointer of this very entry with an intact canary and the same CR3 |
| BootRunner.Machine.BootRunForkedChild | kernel/src/bootstrap.rs:1578-1754 | for every tree of inline children and any table: true leaves return context, canary, per-CPU stack pointers, GS pair and CR3 as at entry with the parent current, the FS base zero and the table as the programs say; false changes nothing |
| BootTable.ReleaseOk | kernel/src/bootstrap.rs:1705-1733 | freeing the current and the first root after a run frees two allocated roots or one, and keeps the accounting |
| BootTable.RunOk | kernel/src/bootstrap.rs:1578-1754 | for every tree of programs: no two processes share a root, a process has none iff it was released, the allocated roots are exactly those of processes, given up, or held by runs in progress; first and last root are free, those of the execs in between stay |
| BootTable.FreedUpToOneExec | kernel/src/bootstrap.rs:1705-1727 | all roots a run ever had are freed iff at most one of its execs got one |
| BootTable.SweepExact | kernel/src/bootstrap.rs:1278-1331 | a sweep removes exactly the orphaned zombies and frees exactly their roots |
| BootTable.ScheduledExact | kernel/src/bootstrap.rs:1472-1564 | a scheduled process is gone afterwards, with the first and the last of its roots |
| BootTable.ScheduledUnentered | kernel/src/bootstrap.rs:1472-1564 | a process that is not entered gives its root back all the same and stays only if ready |
| BootTable.RootsAlternate | kernel/src/bootstrap.rs:1236-1754 | over every boot sequence each root is taken and freed in turn, so none is freed twice |
| BootTable.LeaksExactly | kernel/src/process/exit.rs:143-152 | a system call leaves an allocated root that belongs to nobody iff it waits for a zombie child never released, or is an exec of a process that has execed in this run |
| BootTable.RunLoses | kernel/src/bootstrap.rs:1705-1727 | a run loses exactly the roots of its execs but the last and of such children, its own and those of the children it runs |
| BootTable.LeaksAccounted | kernel/src/bootstrap.rs:1236-1754 | between boot programs the allocated roots are those of processes and those lost in these two ways, and no root is both |
| BootTable.LeakedForever | kernel/src/bootstrap.rs:1236-1754 | a lost root is freed by no continuation |
| BootTable.TwoExecsLeak | kernel/src/bootstrap.rs:1705-1727 | an instance: a program with two execs leaks the root of the first |
| BootTable.ReapedUnrunLeaks | kernel/src/process/exit.rs:144-152 | an instance: a killed child that never ran leaks its root when waited for |
| BootRunner.Machine.FreeRoots | kernel/src/bootstrap.rs:1713-1733 | frees the current and the first root and clears the process's root |
| BootRunner.Machine.RunScheduled | kernel/src/bootstrap.rs:1472-1564 | the machine is idle again with the same CR3 and the table is what the scheduled program says |
| BootRunner.Machine.Sweep | kernel/src/bootstrap.rs:1278-1331 | the two loops reclaim the orphans in table order |
| BootRunner.Execute | kernel/src/bootstrap.rs:1236-1564 | after every boot sequence the table, roots and log are what the sequence says; every root alternates between taken and freed; allocated are the roots of processes and those lost; the machine is idle |
| IntegerMath.NextAtRoot | kernel/src/stdlib.rs:644-647 | at the root the guess stays, or goes up by one iff x + 1 is the next square |
| IntegerMath.StopsAtRoot | kernel/src/stdlib.rs:636-650 | whatever the loop stops at is the exact floor square root |
| IntegerMath.StopsUnlessNextIsSquare | kernel/src/stdlib.rs:636-650 | for x of at least two the loop stops iff x + 1 is not a perfect square |
| IntegerMath.AlternatesForever | kernel/src/stdlib.rs:644-647 | otherwise the guesses go back and forth between the root and one above |
| IntegerMath.ReturnedIsRoot | kernel/src/stdlib.rs:636-650 | whatever sqrt_int returns is the exact floor square root |
| IntegerMath.PanicsForOne | kernel/src/stdlib.rs:641-647 | the loop divides by zero iff the argument is one |
| IntegerMath.ReturnsExactly | kernel/src/stdlib.rs:636-650 | it returns iff the argument is zero, or at least two with a successor that is no square |
| IntegerMath.RoundsFit | kernel/src/stdlib.rs:644-647 | for 32-bit arguments no guess and no sum of any round leaves 32 bits |
| IntegerMath.SqrtInt | kernel/src/stdlib.rs:636-650 | on the arguments it returns for: the exact floor square root |
| IntegerMath.PowInt | kernel/src/stdlib.rs:619-633 | base to the power exp |
| BumpAllocator.AlignmentHonoured | kernel/src/simple_alloc_unsafe.rs:150-152 | the requested alignment is met in every state iff it is at most eight |
| BumpAllocator.MaskIsAlignUp | kernel/src/simple_alloc_unsafe.rs:150-152 | the add-and-mask of the source, bit by bit on 64-bit words, is rounding up to the alignment |
| BumpAllocator.Allocator.Init | kernel/src/simple_alloc_unsafe.rs:40-68 | an empty region |
| BumpAllocator.Allocator.Alloc | kernel/src/simple_alloc_unsafe.rs:107-169 | succeeds iff the aligned block fits; zeroes exactly it; a failure changes nothing |
| BumpAllocator.Allocator.Stats | kernel/src/simple_alloc_unsafe.rs:95-102 | used plus free is the size |
| BumpAllocator.Execute | kernel/src/simple_alloc_unsafe.rs:107-169 | over any requests: each is refused iff its aligned block does not fit above the earlier ones and else gets the lowest such address, aligned up to eight; the granted blocks lie in the region, do not overlap and are zeroed; nothing outside changes; used plus free is the size |
| LogRing.LogBuffer.Push | kernel/src/log_service.rs:135-141 | appends to the history, overwriting only what has left the window |
| LogRing.LogBuffer.Log | kernel/src/log_service.rs:192-213 | appends the entry with tag and message cut to their fields |
| LogRing.LogBuffer.Clear | kernel/src/log_service.rs:149-152 | the history is empty |
| LogRing.LogBuffer.Get | kernel/src/log_service.rs:155-172 | the i-th oldest of the newest 256, through any wrap-around |
| LogRing.LogBuffer.Drain | kernel/src/log_service.rs:259-270 | visits the newest 256 entries, oldest first |
| LogRing.Execute | kernel/src/log_service.rs:134-172 | for every sequence of pushes and clears draining visits the last min(n, 256) since the last clear, oldest first |

## Left out

- Characters outside ASCII: case mapping and the letter class of Unicode are not modelled.
- Overflow of `int` counters, relevances and scores in the index, and of `i32` in `pow_int`.
- Rounding of the compaction ratio in floating point.
- BalooSearch.Search: null arguments, which the source answers with 0, are not modelled.
- Directory crawling, inotify, timers and D-Bus queries of the indexer backend: foreign effects.
- DbusBatch.Batcher.SendBatched: the shortcut to in-process handlers, because nothing in that file ever activates one; the clock is read once per call; interface and member strings are kept by value.
- DbusBatch.Filled: a null body with a length keeps the slot's old bytes, as the source does; the body pointer that still names the old slot after compaction is not modelled.
- The credential cache, statistics logging and flush counters of `dbus-optimize.cpp`: easy members.
- Wallet.Backend.WriteEntry: `writeMap`'s encoding of a map into bytes is Qt's own; the entry's kind is a parameter.
- Wallet.Deserialize: bytes of a value the file is too short for are zero; the source leaves them uninitialised.
- Key derivation, file permissions, directory listing and signals of the wallet.
- `xim_bridge_init` on a bridge that is in use, which forgets its windows; the interaction styles, spot location and client counter of the input method bridge, and `xim_bridge_forward_key`, which never consumes a key.
- BootRunner.Machine.RunAction: after an exec the user stack pointer is the new image's and is not modelled; of the system calls only fork, exec, wait, kill, TLS base and exit have effects here; registers other than those named, signals and blocking are not modelled.
- BootTable.ForkRunWait: the child's programs kill nobody; a child that kills its parent leaves it a zombie whose children go to process 1.
- Memory below the page table roots: frames, mappings and copy-on-write.
- LogRing.LogBuffer.Log: whether a cut falls inside a UTF-8 character, in which case the source shows an empty string.
- Concurrent use: every model is single-threaded, as the code assumes.

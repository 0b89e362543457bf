# Verified model of the backend evaluation harness

This project models, in Dafny, the parts of Serena Light's backend evaluation harness whose
evidence has to survive crashes, races and deadlines, and proves what they promise.

| files | what they model |
|---|---|
| `DurableDirectory.dfy` | one directory and its files on storage that can lose power, and the system calls on it, each of which may fail |
| `CandidateTransaction.dfy`, `LockCompiler.dfy`, `LockHistory.dfy`, `LockFreeze.dfy` | the durable candidate-lock transaction, one system call at a time; crash atomicity, restartable recovery, exclusion, provenance and finality of a lock over whole histories |
| `LockParser.dfy`, `LineFolding.dfy`, `LockRecords.dfy`, `LockRoundTrip.dfy`, `Versions.dfy`, `RequirementLines.dfy`, `LockContents.dfy`, `BuildableLocks.dfy` | the lock-file parser, what continuation lines fold into, the records it feeds, the layouts it reads back, which versions, names, lines and times are accepted and what a lock then holds, and locks that build for any valid request |
| `ImmutablePublication.dfy`, `PublicationHistory.dfy`, `PublicationRaces.dfy` | immutable publication with withdrawal; immutability over histories of publishers that share a lock, and over races of publishers that do not |
| `SourceClosure.dfy`, `ImportStatements.dfy`, `ModuleNames.dfy`, `Reachability.dfy`, `SealedFinder.dfy` | the sealed-source closure, what import statements and module names lead to, the module-name mappings, and the finder over the packed image |
| `CorpusScan.dfy`, `CorpusCapture.dfy` | the corpus walks, the ancestor index, and declared-root captures |
| `BuildIdentity.dfy`, `ByteStrings.dfy` | the length-prefixed build-identity stream and its decoder; the dependency-lock stream |
| `ParentReceipt.dfy`, `LockWait.dfy` | descriptor ownership of the parent-receipt reader; the bounded lock wait |
| `ProtocolGate.dfy` | the Phase 2 gate producer against the receipt's evidence checks |
| `Text.dfy`, `Wrappers.dfy` | strings, order, sorting; results |

How crashes are modelled. A disk is the sequence of listings the directory went through since its
last directory fsync, and a table of files. A process death keeps the last listing. A power loss
keeps any one listing, that is, any prefix of the directory operations since that fsync, and makes
every file that was not fsynced arbitrary. A method that works on a directory states its guarantee
about every disk in `Directory.seen`, the disks after each of its system calls, so about every
point at which it can be cut off. The history modules then let any number of callers interleave,
die and lose power, where a working caller may have left the directory in any state that the method
proved possible. A method that can fail also says that it fails only if some system call did
(`Directory.faults`), or for a reason it names.

What turned out not to hold as it reads, with the exact condition proved:

- A publication's immutability depends on names the primitive does not check: it holds in every
  history exactly when no request's temporary name is another request's final name and requests
  with one temporary name one lock (`ImmutableExactlyWhenDisciplined`); otherwise a record is
  removed (`ClobberingRun`) or an unfinished file is published (`RacingRun`). The names both phases
  use satisfy this (`RunRequestsAreDisciplined`).
- Interrupted recoveries always end in the same pair exactly when all listings that can be on
  storage agree on it (`RestartableExactlyWhenAgreed`). They do not between clearing the marker and
  the next directory fsync (`UnsyncedCommitDisagrees`); after a reboot there is only one listing.
- A lock returned by a resolution is final (`ResolvedIsFinal`). A lock accepted without resolving
  need not be: recovery that finds no marker does not fsync the directory, so a lock accepted after
  a commit failed at its last fsync can be undone by a power loss and another frozen in its place
  (`AcceptedCanBeUndone`). While no caller is inside, a lock is final exactly when every listing
  that can be on storage leads to it (`FrozenExactlyWhenLocked`).
- A module called `__init__` that is a plain file is not read back under its own name
  (`FinderRoundTrip`, `ChildRoundTrip`); every other located production module is.
- The parser raises an index error instead of refusing exactly when, after lines that parse, it
  meets a run of lone continuation marks closed by a blank line (`RaisesExactlyOnBlankRun`); one
  mark and an empty line are enough (`LoneMarkRaises`).
- A parsed lock with both candidates is refused by its records exactly when the timestamp is one
  the request accepts and the record does not, such as hour 25 (`RecordsNeverRefuse`,
  `TimestampGap`).
- The gate can finalise a Pyright failure that the receipt's evidence check refuses: one that left
  no negative fact (`RefusedFailureExists`), or one with a terminal error whose text is blank
  (`BlankErrorIsRefused`). Which are accepted is said exactly by
  `FailuresSatisfyTheReceiptExactlyWhen`.
- The parser's documentation speaks of refusing direct-URL requirements. The code also refuses an
  exact pin that begins with `http`; any line with exactly the words of another parsed package is
  accepted back (`LineRoundTrip`).
- The dependency-lock digest separates its two files by a name between NUL bytes and gives no
  lengths, so two different pairs can feed it the same bytes (`LockStreamsCollide`). A pair is the
  only one with its stream exactly when that separator occurs nowhere else in it
  (`UnambiguousExactlyWhen`).

## Model

| member | source | states |
|---|---|---|
| CandidateTransaction.QuarantineNode | scripts/backend_eval/candidate_lock.py:667-678 | moving a node out of the way changes no other transactional name, and every crash point still recovers to the prior pair |
| CandidateTransaction.DropArtifact | scripts/backend_eval/candidate_lock.py:336-338 | an artifact that did not exist before is gone under both names afterwards, with the prior pair still what survives at every step |
| CandidateTransaction.RestoreArtifact | scripts/backend_eval/candidate_lock.py:335-343 | one artifact is back under its canonical name, exactly as recorded, its rollback name is free, and no step could lose it |
| CandidateTransaction.PurgeQuarantined | scripts/backend_eval/candidate_lock.py:365-374 | the named quarantined nodes are gone and nothing recovery looks at has changed |
| CandidateTransaction.RemoveMarker | scripts/backend_eval/candidate_lock.py:344-345 | the marker may be removed only once every listing that can be on storage has the restored pair |
| CandidateTransaction.ClearMarker | scripts/backend_eval/candidate_lock.py:344-346 | clearing the marker between two directory fsyncs leaves exactly the restored pair in every listing that can be on storage |
| CandidateTransaction.RollbackTransaction | scripts/backend_eval/candidate_lock.py:331-348 | a completed rollback leaves exactly the prior pair, no marker, no rollback entry and no new quarantined node, on storage too; an incomplete one still recovers to it; it completes unless a system call fails |
| CandidateTransaction.RecoverInterrupted | scripts/backend_eval/candidate_lock.py:351-374 | recovery restores exactly the surviving pair, leaves no quarantined node and touches nothing else; at each of its steps a process death leaves that same pair and a power loss only what was possible before; it completes, whatever it finds, unless a system call fails |
| CandidateTransaction.MarkerVouches | scripts/backend_eval/candidate_lock.py:377-389 | only a marker that says so makes recovery drop an artifact: anything undecodable, missing or not false counts as having existed, and a written marker is read as it was meant |
| CandidateTransaction.StageArtifact | scripts/backend_eval/candidate_lock.py:600-609 | before the replacement the temporary is a new durable file with exactly the content, and nothing recovery looks at has changed |
| CandidateTransaction.WriteArtifact | scripts/backend_eval/candidate_lock.py:597-612 | the name ends up bound to a new durable file with exactly the content, or nothing that matters changed |
| CandidateTransaction.MoveAside | scripts/backend_eval/candidate_lock.py:307-313 | an existing artifact ends up fsynced under its rollback name, and survives a crash at every step |
| CandidateTransaction.MoveBothAside | scripts/backend_eval/candidate_lock.py:307-313 | nothing is moved before the marker is in every listing that can be on storage; then both artifacts are set aside and fsynced |
| CandidateTransaction.BeginTransaction | scripts/backend_eval/candidate_lock.py:302-314 | in every listing that can be on storage the marker records the prior pair and both files sit under their rollback names, fsynced; no step could lose the prior pair |
| CandidateTransaction.RunResolver | scripts/backend_eval/candidate_lock.py:256-262 | whatever the resolver does to the canonical lock name, any number of times (replacing it by a new node, rewriting its own file in place even after making it durable, removing it), only its own files change and the prior pair is what every crash recovers to; afterwards the lock name holds exactly what those edits produce |
| CandidateTransaction.PrepareAndResolve | scripts/backend_eval/candidate_lock.py:254-259 | the canonical requirements input is in place after the resolver ran, and the prior pair still survives; if the inputs can be prepared, it fails only if a system call does or the resolver reports failure |
| CandidateTransaction.AdoptResolution | scripts/backend_eval/candidate_lock.py:263-281 | the lock that was checked is the file that was fsynced; it is adopted if and only if it is a regular file that builds, it equals the frozen one if there was one, and the second identity capture equals the first, unless a system call fails |
| CandidateTransaction.ResolveAndPublish | scripts/backend_eval/candidate_lock.py:253-282 | started only with the backups on storage, success leaves the complete new pair under the canonical names: durable lock, durable matching receipt, unchanged identity, canonical requirements; on failure the prior pair still survives |
| CandidateTransaction.ClearCommitted | scripts/backend_eval/candidate_lock.py:324-326 | the marker may be cleared only once the new entries are in every listing that can be on storage, and clearing it is what turns the outcome into the new pair |
| CandidateTransaction.CommitTransaction | scripts/backend_eval/candidate_lock.py:317-328 | at every step a crash recovers to the prior or to the complete new pair; a completed commit leaves exactly the new one, on storage too |
| CandidateTransaction.CommitResolution | scripts/backend_eval/candidate_lock.py:286-287 | a lock is returned only after a completed commit of its complete pair; a failed commit leaves the prior or that pair, at every step |
| CandidateTransaction.ResolveCandidateLock | scripts/backend_eval/candidate_lock.py:238-287 | a resolution ends in the complete new pair or with the prior pair still surviving, restored on storage if it reports so; it publishes only a lock that builds, only if the second identity capture equals the one made before, and only the frozen bytes if a lock was frozen; if no system call fails it returns what the resolver produced exactly when the resolver succeeded and its lock can be adopted, and rolls back otherwise |
| CandidateTransaction.AcceptFrozenLock | scripts/backend_eval/candidate_lock.py:729-768 | a lock is accepted only if it builds, the requirements input is the canonical one and the receipt is exactly the one for this request and this lock, and it is refused only if one of these fails or a system call does |
| CandidateTransaction.ReceiptVouches | scripts/backend_eval/candidate_lock.py:738-747 | two receipts are equal if and only if they are for the same request and the same lock; a receipt names both candidates and the canonical input |
| CandidateTransaction.CompileCandidateLock | scripts/backend_eval/candidate_lock.py:189-208 | at every point it can be cut off, a call has left the prior pair or published a complete new one for its request, with a lock that builds, the canonical requirements input, identity equal before and after, a receipt of its own and, over a frozen lock, the same bytes; if no system call fails, whatever was interrupted before is recovered, a frozen lock is accepted exactly when it is acceptable, and a resolution returns the resolver's lock exactly when it can be adopted |
| LockCompiler.CompileLock | scripts/backend_eval/candidate_lock.py:170-215 | the same guarantee for the whole compiler, and a returned lock is what parsing the very bytes frozen beside their exact receipt gives; if no system call fails it returns a lock if and only if the frozen lock is acceptable or, when it resolves, the resolver's lock can be adopted |
| LockHistory.CrashAtomicity | scripts/backend_eval/candidate_lock.py:15-31 | a call cut off anywhere by death or power loss recovers to a prior pair, unchanged, or to the complete pair it published, never a mixture |
| LockHistory.InterruptionsNarrow | scripts/backend_eval/candidate_lock.py:351-374 | any number of interrupted recoveries leads only to pairs possible at the start, with the same files |
| LockHistory.RestartableExactlyWhenAgreed | scripts/backend_eval/candidate_lock.py:302-374 | all chains of interrupted recoveries end in one pair if and only if all listings on storage agree on it |
| LockHistory.UnsyncedCommitDisagrees | scripts/backend_eval/candidate_lock.py:325-326 | a commit between clearing the marker and the next directory fsync is in a recoverable state from which interrupted recoveries do not always end in one pair, whichever pair that is |
| LockHistory.RecoveryOnlyMeetsTheDead | scripts/backend_eval/candidate_lock.py:33-37 | over every interleaving, a caller inside its critical section is alone there, and a marker it finds was written by a caller that is gone |
| LockHistory.MarkedArtifactsAreIntact | scripts/backend_eval/candidate_lock.py:331-343 | in every reachable state, whatever listing survives, each artifact the marker records is a durable file under its canonical or rollback name |
| LockHistory.EveryListingWasPublished | scripts/backend_eval/candidate_lock.py:15-31 | in every reachable state, whatever listing survives, recovery leads to no pair at all or to one complete pair that an earlier step published, with a lock that parsed into accepted records and production identity unchanged, and the durable canonical requirements input is in that listing |
| LockHistory.AcceptedWasCommitted | scripts/backend_eval/candidate_lock.py:178-186 | over every history, a lock returned without resolving is the lock of a complete pair that an earlier step made newly possible, for the same request, with identity equal before and after that resolution |
| LockFreeze.ResolvedIsFinal | scripts/backend_eval/candidate_lock.py:178-186 | once a caller has returned a resolved lock, every lock returned later by any caller, accepted or resolved, recompiled or not, has the same bytes, whatever faults and crashes lie between |
| LockFreeze.FrozenExactlyWhenLocked | scripts/backend_eval/candidate_lock.py:263-273 | in every reachable state with no caller inside, and given one call that can be made, only this lock is handed out from then on, in every continuation, if and only if every listing that can be on storage leads to it |
| LockFreeze.AcceptedCanBeUndone | scripts/backend_eval/candidate_lock.py:351-362 | for every call with a valid request that finds identity unchanged, and every lock that builds for it, there is a history, over the disk the code leaves when its last fsync fails, that ends by accepting the lock and can be continued to hand out another one |
| LockFreeze.RecoveryLeaves | scripts/backend_eval/candidate_lock.py:351-374 | there is only one listing a completed recovery can leave: the surviving pair and every name that is not its business |
| LockFreeze.WindowIs | scripts/backend_eval/candidate_lock.py:302-326 | the disk put together from the calls of a first resolution, up to the unlink of its marker, is recoverable both to nothing and to the complete new pair, with the requirements input in place |
| BuildableLocks.PinsBuild | scripts/backend_eval/candidate_lock.py:774-800 | for every final version, every digest and every valid time, the printed lock that pins both candidates to that version builds |
| LockParser.LogicalLines | scripts/backend_eval/candidate_lock.py:868-882 | the loop computes the folding of continuation lines that `LineFolding` describes without it |
| LineFolding.GroupsExist | scripts/backend_eval/candidate_lock.py:868-882 | the raw lines of every text fall into groups that each end in their first line without a continuation mark, and an unfinished rest |
| LineFolding.LogicalLinesAre | scripts/backend_eval/candidate_lock.py:868-882 | for every text the logical lines are exactly the groups' pieces without marks, stripped and joined by single spaces, and a last one for the rest if it is not blank |
| LineFolding.LogicalLinesSpeak | scripts/backend_eval/candidate_lock.py:868-882 | for every text the words of each logical line are the concatenated words of its raw lines without the marks |
| LockParser.ParseHashes | scripts/backend_eval/candidate_lock.py:851-865 | the loop collects the digests in order, refuses malformed, repeated and missing ones, and sorts |
| LockParser.ParseResolution | scripts/backend_eval/candidate_lock.py:803-820 | the loop parses the lines in order, skips comments, refuses duplicates by name and an empty result, and sorts by name; which texts resolve, and to what, is `ResolvesExactlyWhen` |
| RequirementLines.SplitLinesExactly | scripts/backend_eval/candidate_lock.py:871-871 | the raw lines of a text are exactly the pieces between its line ends, where a carriage return and newline are one end and only a last non-empty piece may lack one |
| RequirementLines.WordIsLowered | scripts/backend_eval/candidate_lock.py:837-837 | a name without separators is normalized letter by letter to lower case |
| RequirementLines.RunIsDash | scripts/backend_eval/candidate_lock.py:837-837 | a run of separators between two parts of a name is normalized to one dash between their normalizations |
| Versions.FinalVersionsAre | scripts/backend_eval/candidate_lock.py:137-137 | a string is a final version if and only if it is written from an optional epoch, one or more groups of digits joined by dots, and an optional post release |
| RequirementLines.AcceptedExactlyWhenPinned | scripts/backend_eval/candidate_lock.py:823-848 | a line is accepted, with this package, if and only if its words are a project name not beginning with `http`, two equals signs and a final version, and then distinct SHA-256 digests, at least one; the package then has the normalized name, that version and those digests, sorted |
| RequirementLines.ResolvesExactlyWhen | scripts/backend_eval/candidate_lock.py:803-820 | a text resolves to a list if and only if each of its logical lines that is no comment pins a package, at least one and no name twice, and the list is those in the order of their names |
| LockRecords.NormalizeIdempotent | scripts/backend_eval/candidate_lock.py:837-837 | a normalized name is its own normalization, so distinct names stay distinct up to normalization |
| LockRecords.ResolutionIsGood | scripts/backend_eval/candidate_lock.py:803-848 | parsed packages are sorted, distinct and normalized by name, exactly pinned, with sorted distinct well-formed hashes |
| LockRecords.EvidenceIsDistinct | scripts/backend_eval/models.py:1200-1207 | the requirement lines derived from parsed packages are pairwise distinct |
| LockRecords.RecordsNeverRefuse | scripts/backend_eval/models.py:1190-1281 | with both candidates present the lock and its evidence are refused if and only if the timestamp is not a valid UTC time |
| LockRecords.TimestampGap | scripts/backend_eval/candidate_lock.py:134-134 | the gap is real: a time with hour 25 has the form the request asks for and is not a valid UTC time |
| LockContents.TimesAre | scripts/backend_eval/models.py:39-39 | the accepted timestamps are exactly the written dates and times, and those of the record exactly the ones with hour below 24 and minute and second below 60 |
| LockContents.BuiltExactlyWhen | scripts/backend_eval/candidate_lock.py:774-800 | a lock is built if and only if the text resolves, both candidates are among its packages and the time is on the clock; it then holds those packages, the size of the text, the two candidates with their pins, hashes and executables, and one evidence line for each package; missing candidates are told from an unparsable text |
| LockRoundTrip.AcceptedLineSays | scripts/backend_eval/candidate_lock.py:823-848 | an accepted line has no environment marker and no URL, its first word is the pin under the name before normalization, its other words are the hashes |
| LockRoundTrip.LineRoundTrip | scripts/backend_eval/candidate_lock.py:823-848 | any line with exactly the words of a parsed package, however spaced, parses back to it if and only if the pin does not begin with `http`, and is refused otherwise |
| LockRoundTrip.ParsedIsPrintable | scripts/backend_eval/candidate_lock.py:834-848 | every parsed package is one the printer covers |
| LockRoundTrip.LockTextRoundTrip | scripts/backend_eval/candidate_lock.py:803-882 | however the words of a list of such packages are spread over continued lines, with any spacing, blank lines and lone marks, the text resolves to exactly that list, sorted, if and only if no run of lone marks is closed by a blank line |
| LockRoundTrip.PrintedLockRoundTrip | scripts/backend_eval/candidate_lock.py:803-882 | in particular the layout with every hash on a continued line of its own, as character text, resolves to the packages it was printed from, sorted |
| LockRecords.ParsingRaisesExactly | scripts/backend_eval/candidate_lock.py:828-829 | parsing raises an index error if and only if it reaches a blank logical line |
| LineFolding.RaisesExactlyOnBlankRun | scripts/backend_eval/candidate_lock.py:828-829 | in terms of raw lines: a text raises if and only if, after a prefix whose lines parse, it has a run of lone continuation marks closed by a blank line |
| LineFolding.LoneMarkRaises | scripts/backend_eval/candidate_lock.py:828-829 | the text of one continuation mark and one empty line raises |
| ImmutablePublication.WriteAll | scripts/backend_eval/publish.py:498-511 | despite short writes and any ceiling, success has written exactly the payload and nothing else changed; the deadline is exceeded only if the ceiling was reached before the writes the kernel accepted added up to the payload |
| ImmutablePublication.WritesAre | scripts/backend_eval/publish.py:498-511 | writes that are not short take four mebibytes each, and a short one what the kernel accepts, until the payload is written |
| ImmutablePublication.DiscardTemporary | scripts/backend_eval/publish.py:428-436 | abandoning before the link keeps the deadline disposition only if nothing of this call is left, on storage too |
| ImmutablePublication.StagePayload | scripts/backend_eval/publish.py:346-381 | success leaves the temporary bound to the complete durable payload; failure means what its disposition says |
| ImmutablePublication.LinkRecord | scripts/backend_eval/publish.py:195-211 | the final name is linked only if it was free, to the complete durable payload |
| ImmutablePublication.LinkedRecord.RemoveOwnedNames | scripts/backend_eval/publish.py:310-343 | the withdrawal runs once, removes only this call's names, and reports a refused or unproven removal |
| ImmutablePublication.LinkedRecord.Checkpoint | scripts/backend_eval/publish.py:282-295 | it fails if and only if the ceiling is reached, and then withdraws the link before failing; an open ceiling changes nothing |
| ImmutablePublication.LinkedRecord.Recover | scripts/backend_eval/publish.py:297-308 | a failed later step leaves no final name, or says why it had to |
| ImmutablePublication.FinishPublication | scripts/backend_eval/publish.py:217-227 | success passes both barriers, finds the ceiling open after each change and once more before returning, and leaves the one disk a success can leave; the deadline is exceeded only if fewer than four observations were left |
| ImmutablePublication.PublishImmutableRecord | scripts/backend_eval/publish.py:179-237 | under any faults: success means final name, exact payload, no temporary, both barriers passed, the reserve checked and the ceiling observed open at the end; a deadline failure leaves nothing; another failure leaves the final name only if its removal was refused or unproven; it succeeds only in time, the deadline is exceeded only out of time (the lock came late, the reserve was gone, or the payload was not written while four observations remained), and a call in time whose name is free fails only if a system call does |
| PublicationHistory.PublishedForever | scripts/backend_eval/publish.py:8-11 | over every history of publishers that share a lock, a returned record keeps its bytes forever, and every final name holds nothing or one complete payload |
| PublicationRaces.AloneStays | scripts/backend_eval/publish.py:179-237 | the publisher's program, call by call with every failure, goes undisturbed only through disks the verified method allows and returns only with the one disk it can leave |
| PublicationRaces.ImmutableExactlyWhenDisciplined | scripts/backend_eval/publish.py:135-159 | with each request under its own lock, published records survive every interleaving, death and power loss if and only if no temporary name is another request's final name and requests with one temporary name one lock |
| PublicationRaces.NeverPartial | scripts/backend_eval/publish.py:8-11 | under that condition every final name holds nothing or one complete payload, in every state of every interleaving and in every listing that can survive |
| PublicationRaces.ClobberingRun | scripts/backend_eval/publish.py:346-358 | a request whose temporary is a published final name can remove that record |
| PublicationRaces.RacingRun | scripts/backend_eval/publish.py:455-487 | two requests with one temporary and different locks can publish an unfinished file |
| PublicationRaces.RunRequestsAreDisciplined | scripts/backend_eval/protocol_phase.py:747-758 | requests of both phases, named after hexadecimal run identities, are valid and disciplined, whatever the identities and even in one directory |
| SourceClosure.SourceImports | scripts/backend_eval_bootstrap.py:574-598 | the loop computes the union of what each import statement names, or fails on an invalid relative import; what that is, is `StatementsName` |
| ImportStatements.StatementsName | scripts/backend_eval_bootstrap.py:574-598 | over the statements: they resolve if and only if no relative import climbs above the root, and a name is imported if and only if it is the name of an `import`, the base of a `from`, or that base and one of its names other than the star, where a relative base is the first components of the package and the stated base |
| SourceClosure.SameArchiveSameFile | scripts/backend_eval_bootstrap.py:523-558 | two modules with one archive name are one file, so no entry overwrites another |
| SourceClosure.ReachableProtocolSources | scripts/backend_eval_bootstrap.py:384-420 | the worklist terminates and yields exactly the reachable modules' entries and the psutil flag, or refuses exactly when a reachable module cannot be taken in; where a module leads is `LeadsExactly` |
| ImportStatements.LocatedExactly | scripts/backend_eval_bootstrap.py:523-558 | a root is its package file; below the two owned roots a module is the package file its dotted name leads to, or else the plain file, and no module if neither is there or the name lies elsewhere |
| ImportStatements.ParentsAre | scripts/backend_eval_bootstrap.py:569-571 | the parent packages of a module are exactly its name up to each of its dots |
| ImportStatements.LeadsExactly | scripts/backend_eval_bootstrap.py:384-420 | a located and parsed module can be taken in if and only if no statement climbs above the root and every name brought in is owned, psutil, of the standard library or empty at its root; it then leads exactly to its parent packages and to every owned module its statements bring in |
| ImportStatements.ReachedExactly | scripts/backend_eval_bootstrap.py:384-420 | a module is reachable if and only if it is `scripts.backend_eval.protocol_phase` or a reachable module leads to it |
| SourceClosure.SameForEveryOrder | scripts/backend_eval_bootstrap.py:407-411 | the result is the same for every iteration order of the import sets |
| Reachability.ClosedHoldsReachable | scripts/backend_eval_bootstrap.py:389-411 | a set with the start that is closed under edges holds everything reachable |
| ModuleNames.FinderRoundTrip | scripts/backend_eval_bootstrap.py:142-151 | a production module's archive entry is read back as the same name and package flag if and only if it is not a plain file named `__init__` |
| ModuleNames.ChildRoundTrip | scripts/backend_eval/production_child.py:123-133 | the same through the child's reading of the path with its prefix |
| ModuleNames.ChildReadsExactly | scripts/backend_eval/production_child.py:123-133 | the child reads a path as a module if and only if it is that of a source file below `src/serena_light` without empty or dot components; a package file names its directory, any other file itself without the suffix |
| ModuleNames.InitFileIsLocated | scripts/backend_eval_bootstrap.py:545-558 | the exception is real: such a name is located as a plain module file |
| SealedFinder.BuildFinder | scripts/backend_eval_bootstrap.py:135-151 | the loop binds each name the entries are read as, a later entry replacing an earlier one |
| SealedFinder.ImageIsPacked | scripts/backend_eval_bootstrap.py:358-381 | the image's names, the main program and then closure, declared helpers and others in sorted order, are what the next row asks for |
| SealedFinder.FinderBindsReachable | scripts/backend_eval_bootstrap.py:142-151 | in every sealed image the finder binds a reachable production module to its own entry, flag and bytes if and only if it is not a plain file named `__init__`, whatever other production files are packed; any other entry read under the same name sorts first and loses |
| CorpusScan.RemainderScan.Walk | scripts/backend_eval/manifests.py:585-647 | the walk appends exactly the specified records and pruned paths, and fails exactly on the depth bound |
| CorpusScan.RecordsAreDistinct | scripts/backend_eval/manifests.py:603-647 | no two records of a walk have the same path string |
| CorpusScan.DeepExactly | scripts/backend_eval/manifests.py:596-597 | the depth error occurs if and only if a directory outside every pruned tree lies deeper than 128 levels |
| CorpusScan.ScanAccounts | scripts/backend_eval/manifests.py:603-647 | every path is at or below one of the four excluded names, with its top listed, or hashed and skipped, or recorded exactly once with the kind of its node |
| CorpusScan.ScanRemainder | scripts/backend_eval/manifests.py:559-582 | the scan refuses exactly when a directory outside the four excluded trees lies deeper than 128 levels, partitions every other tree, sorted, and its duplicate guard never fires |
| CorpusCapture.AncestorIsPrefix | scripts/backend_eval/manifests.py:685-692 | a string is an ancestor of a path if and only if the path continues it with a slash |
| CorpusCapture.AncestorDirectories | scripts/backend_eval/manifests.py:685-692 | the index holds exactly the non-empty strings that some path continues with a slash |
| CorpusCapture.GitDispositionReader | scripts/backend_eval/manifests.py:669-682 | tracked, untracked or ignored exactly as the two Git sets and their descendants dictate, tracked first |
| CorpusCapture.ValidateRequestPaths | scripts/backend_eval/manifests.py:1165-1181 | the loop accepts exactly distinct normalized relative paths |
| CorpusCapture.CanonicalIs | scripts/backend_eval/manifests.py:1165-1181 | a path is normalized if and only if, between slashes, it has no two slashes in a row and neither of the dot names |
| CorpusCapture.CoversIs | scripts/backend_eval/manifests.py:384-387 | a root covers a path if and only if its components come first in it |
| CorpusCapture.AcceptedExactlyWhen | scripts/backend_eval/manifests.py:365-387 | a request is accepted if and only if every path is canonical, no hashed path is declared twice, and no metadata root comes at, above or below another or above a hashed path, by components |
| CorpusCapture.WalkMetadataRoot | scripts/backend_eval/manifests.py:768-804 | reopening each directory by its path string, the walk records everything below the root |
| CorpusCapture.MetadataIsDistinct | scripts/backend_eval/manifests.py:747-765 | records below roots that do not overlap never share a path |
| CorpusCapture.CaptureIsDisjoint | scripts/backend_eval/manifests.py:1139-1142 | hashed and metadata records of an accepted request never share a path |
| CorpusCapture.CaptureNonGit | scripts/backend_eval/manifests.py:503-528 | nothing declared, an unhashable declared path and a root that is not a directory are refused exactly in these cases, in this order, and every other accepted request yields the manifest, with the declared paths, sorted, as its inventory and each of them hashed as a regular file: neither the later guards nor the manifest's checks can refuse |
| CorpusCapture.ManifestAcceptsExactly | scripts/backend_eval/models.py:1442-1464 | the manifest demands exactly strictly ascending lists, no path both hashed and not, relative inventory paths, and each of those hashed |
| CorpusCapture.MetadataIsWhatLiesBelow | scripts/backend_eval/manifests.py:754-761 | the metadata is exactly the nodes strictly below the declared roots, with their kinds |
| BuildIdentity.UpdateField | src/serena_light/build_identity.py:92-96 | one field is fed as two length-prefixed byte strings |
| BuildIdentity.LabelsAre | src/serena_light/build_identity.py:76-82 | the five labels are those of the source, in ASCII |
| BuildIdentity.ComputeBuildIdentity | src/serena_light/build_identity.py:61-83 | the bytes fed to the digest are the stream of the inputs, and it fails exactly on the three refused inputs |
| BuildIdentity.StreamRoundTrip | src/serena_light/build_identity.py:61-96 | the decoder recovers the algorithm version, the ordered files, the lock digest and the schema version |
| BuildIdentity.EqualStreamsEqualInputs | src/serena_light/build_identity.py:61-96 | equal streams mean equal inputs, for all sizes that fit the length fields |
| BuildIdentity.DependencyLockStream | src/serena_light/build_identity.py:48-58 | the loop feeds both lock files in order, each after its name and closed by a NUL, and fails exactly when one is missing |
| BuildIdentity.UnambiguousExactlyWhen | src/serena_light/build_identity.py:48-58 | two lock files are the only ones with their stream if and only if the separator between them occurs at no other place |
| BuildIdentity.LockStreamsCollide | src/serena_light/build_identity.py:48-58 | two different pairs of lock files feed the digest the same bytes |
| ParentReceipt.CloseDescriptor | scripts/backend_eval/protocol_parent.py:394-401 | the descriptor is closed whatever the deadline says, and it is well only after two checks that did not see expiry |
| ParentReceipt.Descend | scripts/backend_eval/protocol_parent.py:410-429 | of parent and child exactly one stays open, and it is the one the caller holds |
| ParentReceipt.ReadExactRegularFile | scripts/backend_eval/protocol_parent.py:404-489 | on every path each descriptor opened is closed exactly once and none stays open; the whole file is returned if and only if it is there and authoritative, no call failed and no check saw expiry, after ten checks, four more for each component and two more for each chunk; the deadline is exceeded if and only if a check saw it |
| LockWait.ExpiryIsPermanent | scripts/backend_eval/process.py:120-140 | a deadline starts exactly with a reserve within a positive budget; it is then open, expires exactly at its ceiling and stays expired, and finalization expires when the whole budget is spent |
| LockWait.AcquireExclusiveLock | scripts/backend_eval/process.py:149-178 | it returns only holding the lock, breaks off exactly on an error, times out only past the ceiling, naps between any two attempts by the poll interval but never past the ceiling, and the number of attempts is bounded by remaining time over poll interval |
| ProtocolGate.CleanBatteryHasAllFlags | scripts/backend_eval/protocol_lifecycle.py:328-365 | a battery whose seven scenarios pass has all eight lifecycle flags |
| ProtocolGate.SurvivorsSatisfyTheReceipt | scripts/backend_eval/models.py:2365-2494 | every Pyright outcome finalised as pass satisfies both evidence checks of the receipt, with each required capability advertised, accepted and normalized, all eight flags, the witness and no issue |
| ProtocolGate.PassIsTakenExactlyWhen | scripts/backend_eval/models.py:2365-2494 | the receipt takes a pass if and only if it shows all of that and what it says about the optional capability fits together |
| ProtocolGate.GateDecides | scripts/backend_eval/protocol_phase.py:906-942 | over the raw answers, observations and measurements: the outcome is a pass if and only if every required capability is advertised and answered with evidence, the session ended without an error, all seven scenarios went well, and the witness is conclusive and without issue; inconclusive exactly without a conclusive witness, refused there if the witness has no issue, and a failure otherwise |
| ProtocolGate.IssuesAreRaised | scripts/backend_eval/pyright_probe.py:247-276 | each issue is collected if and only if the fact it names is there in the raw inputs |
| ProtocolGate.FlagsAre | scripts/backend_eval/protocol_lifecycle.py:328-365 | each of the eight flags holds if and only if the observations it stands for went well |
| ProtocolGate.EvidenceIs | scripts/backend_eval/pyright_probe.py:227-246 | what is recorded about a capability is exactly whether it was advertised, answered and answered with evidence |
| ProtocolGate.FailuresSatisfyTheReceiptExactlyWhen | scripts/backend_eval/models.py:2365-2442 | a finalised Pyright outcome that is no pass is coherent for the receipt if and only if nothing unadvertised was accepted, every terminal error and witness issue has something to read, and a failure left a negative fact: a witness issue, a required capability without evidence, or a flag that does not hold |
| ProtocolGate.RefusedFailureExists | scripts/backend_eval/protocol_phase.py:921-924 | a document that could not be closed yields a failure the evidence check refuses |
| ProtocolGate.BlankErrorIsRefused | scripts/backend_eval/models.py:2371-2374 | a terminal error without a text yields a failure the evidence check refuses although the negative fact is there |

## Left out

- Subprocess launch, process groups, sealed memory files, `/proc` paths and foreign calls: only their success or failure appears.
- What language servers answer, process censuses and environment measurements: arbitrary inputs of the gate.
- A resolver that outlives its caller, or that touches names other than the canonical lock: assumed away.
- Power losses that keep operations out of order: only prefixes of the operations since the last directory fsync survive.
- The request's path checks, and the literal words of the compile command: a request is its command and its time.
- System calls that fail after taking effect: a failing call changes no name, and a failing fsync leaves every earlier listing possible.
- The removal of a quarantined tree entry by entry: it is one step that may fail.
- The subdirectories of the resolver's store: opening it may fail, and does if a regular file has its name.
- JSON text, UTF-8 and SHA-256: marker and receipt are kept decoded, lock files that are not text are refused, and digests are free functions of the bytes.
- Non-ASCII decimal digits, which the source's patterns admit in versions, hashes and timestamps: the model's digits are ASCII.
- The receipt reader's type, mode, owner and link-count checks: one flag says whether they pass.
- Stat fields of path records other than path, kind and link target, and the content digests.
- The Git capture as a whole, the transformers capture, and the reading of Git's own output.
- Files that change while they are scanned: trees are fixed, so vanished paths do not occur.
- Malformed dotted names with empty segments: an import statement cannot contain them.
- How the declared helpers and the psutil sources are chosen and read: only what their names can do to the finder is modelled.
- The texts of gate issues beyond whether one the harness passes on is blank.
- Receipt construction beyond the two evidence checks, and the ty and pyrefly probes.
- Rounding of clock readings: time is a real number, and sleeping takes exactly what was asked.
- `external_snapshot.py`, the admission report, the closeout, and the command-line parsers: mostly equality checks and formatting.

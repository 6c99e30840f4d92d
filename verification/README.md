# maubase: a verified model of its state machines

maubase is a backend over SQLite: it runs an application's migrations, exposes
its tables over REST under per-operation access rules, tells subscribers about
writes in real time across processes, issues and rotates OAuth tokens, keeps
accounts, sessions and reset tokens, stores files, and erases accounts. This
project models the parts of it that carry state, concurrency or arithmetic and
proves what they promise.

| file | models |
|---|---|
| `Text.dfy`, `Prelude.dfy` | bytewise string order, lines and trimming; Option and Result |
| `MigrationFile.dfy`, `MigrationNumbers.dfy` | the marker format of a migration file; file numbering and version lookup |
| `MigrationEngine.dfy`, `MigrationRuns.dfy` | up, down, redo, to over a ledger; what every run of them keeps |
| `MigrationSteps.dfy`, `MigrationDiff.dfy` | what single calls come to, one-way migrations; drift detection |
| `RateLimiter.dfy` | the fixed-window limiter with its opportunistic sweep |
| `Broker.dfy`, `Fanout.dfy` | the in-process broker; fan-out across processes as a step system |
| `Registry.dfy` | which tables are exposed and under which rules, and reloading |
| `AccessRules.dfy`, `AccessLaws.dfy` | the REST and admin handlers with their events; visibility, ownership, privacy |
| `RequestOutcomes.dfy` | when each request reads or writes at all, denied and default rules over whole runs |
| `EndToEnd.dfy` | access rules and fan-out together |
| `GrantStorage.dfy`, `RefreshRotation.dfy` | stored grants; refresh-token rotation under any interleaving |
| `Identity.dfy` | accounts, sessions, reset tokens, purges |
| `FileStorage.dfy`, `Erasure.dfy` | uploaded files; account erasure over four stores under faults |
| `ManagedBlock.dfy` | the rewriting of a generated document's managed block |

`dafny verify dfyconfig.toml` checks everything.

## How the model stands to the code

Each operation that changes state is a method of a class with the source's
fields, proved equal to a function of the old state; the laws are lemmas about
those functions, over every input, run or interleaving. A SQL transaction is one
atomic step that may fail. What the code reads from its surroundings (the time, a
random token, a generated key, whether a store operation fails, what SQLite makes
of migration SQL) is a parameter, so that a lemma holds for all of them.

Assumptions, each stated where it is used:

- Migration SQL is a partial function on schemas. Where a schema has to come back, a
  file that can be reverted undoes itself on the replay of the files up to it, if its
  Down section succeeds there at all (`AllUndo`). Nothing is asked of a file whose Down
  section is absent or blank, nor of a Down section on any other schema; that no less
  will do for a file is `MigrationRuns.RevertLastReplaysIff`.
  Applied files are neither removed nor edited (`VerifyChecksums` is empty), none
  is added below them, and the clock does not run backwards.
- SHA-256 is injective and its digests are not empty, and random tokens and relay ids are new each time.
- Relay ids are distinct only where `Fanout.ArrivalReachesEveryone` says so.
- Limiter attempts are listed in the order they take the lock. Their times need not
  be in order (the code reads the time before the lock) unless a lemma says so:
  `RateLimiter.IndependenceIff` tells exactly when the order matters to a key.
- (collection, operation) is the primary key of `_policies` and its CHECK closes
  the rules (internal/db/migrations/0006_policies.sql). Foreign keys cascade as
  internal/db/migrations/0001_init.sql and 0007_password_reset.sql declare.
- OAuth redemptions call the store in the order the comment at
  internal/oauth/storage.go:192-206 gives: Get, Rotate, create access, create refresh.

## Where the code and its comments part

- internal/restapi/handlers.go:394-396 says that after a failed owner lookup a deletion event
  "won't reach anyone". The gate is then empty, and an empty gate reaches every
  subscriber (internal/realtime/broker.go:172). `AccessLaws.EventsMatchReadsIff` gives the exact condition.
- An owner value that is null or empty has the same effect: `AccessLaws.GateIsExactIff`.
  Customers with a subject never write one; administrators can.
- internal/storage/server.go:292-296 says that a failure on file N leaves file N onward
  untouched. File N may have lost its bytes and kept its row:
  `FileStorage.FailedErasureStopsInOneFile`.
- A Close between a publish's snapshot and its send leads to a send on a closed
  channel. In a request's own publish the panic is recovered (internal/server/server.go:96),
  but the rest of its sends and its relaying are lost; in the relay's goroutine nothing
  recovers it and the process goes down: `Fanout.HastyCloseCanPanic`, `Fanout.GapIsReal`
  and `Fanout.RelayedGapCrashes`. When that cannot happen: `Fanout.GentleRunsStayUp`.
- PurgeExpiredSessions is said to change no observable behaviour. It does so in one
  case, when expiry, purge and check share an instant: `Identity.PurgeShowsOnlyAtBoundary`.
  Any run in which no check shares its instant with an earlier purge is answered as if
  there were no purges: `Identity.PurgingIsInvisible`.
- A revocation on reuse does not end a chain that has a redemption between Rotate
  and the new token's creation: `RefreshRotation.RevocationIsFinalIff`.
- The managed block's body quotes its own end marker (cmd/maubase/skill.go:181), so the block
  ends there: `ManagedBlock.InnerMarkerCuts` and `ManagedBlock.RefreshIsFaithfulIff`.
- Of k+1 windows' worth of attempts at most (k+1) * limit - 1, not (k+1) * limit, fit
  in a half-open interval of k windows, since a window starts with its first attempt: `RateLimiter.SlidingBound`, `RateLimiter.BoundIsAttained`.
- A scaffolded file need not sort last. `migrate new` does not keep one width
  (internal/db/migrate.go:372-373 says it does): past 9999 comes 10000, which sorts
  before it (`MigrationNumbers.OutgrownWidthBreaksOrder`); files of other widths and
  unnumbered files can break the order too. The exact conditions are
  `MigrationNumbers.ScaffoldedFileIsLastIff` and `MigrationNumbers.OneWidthKeepsOrderIff`.
- SQLite's LIKE ignores case and reads `_` as any character, so drift detection
  hides every table whose name starts with "sqlite", in any case, and has a seventh
  character: `MigrationDiff.SilentExactly` is stated for that.

## Model

| member | source | states |
|---|---|---|
| `MigrationFile.SplitMigrationSql` | internal/db/migrate.go:590-611 | One pass over the lines finds the last Up and last Down marker and returns the text between and after them; no Up marker gives the whole file back with no down; a Down marker above the Up marker does not count. |
| `MigrationFile.SplitInvertsPrint` | internal/db/migrate.go:590-611 | Whatever stands above the last Up marker, splitting a printed file returns exactly (up, down, true), character for character; the Up section may hold Down markers of its own. |
| `MigrationFile.SplitInvertsUpOnly` | internal/db/migrate.go:590-611 | With no Down marker after the last Up marker, all that follows the latter is the Up section, character for character, and there is no Down. |
| `MigrationFile.MarksIff` | internal/db/migrate.go:590-611 | A line is a marker exactly if it is the marker with nothing but white space around it. |
| `MigrationFile.HasDownExactly` | internal/db/migrate.go:590-611 | A down section is found if and only if some Down marker stands after the last Up marker; a file with no Up marker comes back whole with no down. |
| `MigrationFile.RevertibleIff` | internal/db/migrate.go:232-235 | A file can be reverted exactly if some line below its last Down marker, itself below its last Up marker, has a character that is no white space. |
| `MigrationNumbers.NextMigrationNumber` | cmd/maubase/migrate.go:306-330 | The next number is one past the highest and its width is that of the last file holding the highest (4 when there is none). |
| `MigrationNumbers.NextNumberIs` | cmd/maubase/migrate.go:302-330 | The scaffolded name is one past the highest number, at the width of the last listed file that has it; with no numbered file it is 0001. |
| `MigrationNumbers.ResolveVersion` | internal/db/migrate.go:374-411 | An exact filename wins; otherwise the target must parse as a number that exactly one file carries. |
| `MigrationNumbers.ResolveIff` | internal/db/migrate.go:374-411 | A target that names a file is that file; any other resolves to a file exactly if it is a number that this file, and no other, carries. |
| `MigrationNumbers.AmbiguousNumber` | internal/db/migrate.go:406-408 | A number that two files carry resolves to nothing. |
| `MigrationNumbers.AtoiReads` | internal/db/migrate.go:386-391 | Digits, bare or signed, are read as their value, and not at all if that does not fit in 64 bits. |
| `MigrationNumbers.SameWidthOrder` | cmd/maubase/migrate.go:261-330 | Two digit strings of one width compare bytewise exactly as their values do. |
| `MigrationNumbers.ScaffoldedFileIsLastIff` | cmd/maubase/migrate.go:261-330 | For any directory and slug, a scaffolded file sorts after every file there if and only if each of them is listed below the next number: a numbered one by its leading digits over the shorter length, a tie going to the longer; an unnumbered one bytewise. |
| `MigrationNumbers.OneWidthKeepsOrderIff` | cmd/maubase/migrate.go:302-330 | With every number at one width and unnumbered files allowed, the scaffolded file sorts last if and only if the next number still fits that width and each unnumbered file sorts below it. |
| `MigrationNumbers.PlainNameOrder` | cmd/maubase/migrate.go:316-319 | A file that does not start with a digit, which the scan skips, is listed below any number exactly when its first character is below '0'. |
| `MigrationNumbers.ScaffoldedFileResolvesIff` | internal/db/migrate.go:367-411 | In any directory any zero padding of its number resolves to exactly the scaffolded file, if and only if no other file is named just those digits. |
| `MigrationNumbers.MixedWidthsBreakOrder` | cmd/maubase/migrate.go:306-330 | An input at which the order breaks: after 1_a and 02_b the next file, 03_c, sorts before 1_a; ScaffoldedFileIsLastIff has the condition. |
| `MigrationNumbers.OutgrownWidthBreaksOrder` | internal/db/migrate.go:367-373 | Another, with every file at one width: after 9_a the next file is 10_b, of another width, and does not sort after it; OneWidthKeepsOrderIff has the condition. |
| `MigrationEngine.Database.ApplyOneMigration` | internal/db/migrate.go:419-445 | One transaction runs the Up section and records the file with its checksum; a failure at any stage leaves the state as it was and names the file. |
| `MigrationEngine.Database.RevertOneMigration` | internal/db/migrate.go:225-253 | One transaction runs the Down section and removes the record; a missing file, a blank or absent Down section, or a failure at any stage leaves the state as it was. |
| `MigrationSteps.ApplySucceedsIff` | internal/db/migrate.go:419-445 | A file is applied exactly if it is there, not yet recorded, its Up section runs and nothing else fails; only its record is added, with the checksum of the whole file. |
| `MigrationSteps.RevertSucceedsIff` | internal/db/migrate.go:225-253 | A file is reverted exactly if it is there, something that is not white space follows its last Down marker, that SQL runs and nothing else fails; only its record goes. |
| `MigrationSteps.EachSectionIsRun` | internal/db/migrate.go:225-253 | Of a printed file, applying runs its Up text, reverting its Down text, and neither anything else. |
| `MigrationSteps.OneWayIsRefused` | internal/db/migrate.go:232-235 | A file with no Down section, or a blank one, is refused by name, with schema and ledger as they were and nothing after it tried. |
| `MigrationSteps.BlankDownIsRefused` | cmd/maubase/migrate.go:281-295 | A scaffolded file whose Down was left blank counts as having a Down section, and is refused all the same. |
| `MigrationSteps.DownStopsAtOneWay` | internal/db/migrate.go:189-255 | A Down whose newest file cannot be undone stops there, names it and changes nothing. |
| `MigrationSteps.OneWayStaysApplied` | cmd/maubase/migrate.go:281-286 | Over every run of up, down, redo, to and edits that leave it one-way, a migration that cannot be undone stays applied. |
| `MigrationSteps.WithoutDirectory` | internal/db/migrate.go:55-68 | With no directory there is nothing to apply, revert or redo, a count below one is refused all the same, and no version can be gone to. |
| `MigrationEngine.Database.ApplyMigrations` | internal/db/migrate.go:672-729 | The loop skips recorded files, applies the others in filename order and stops at the first failure, keeping what it applied. |
| `MigrationEngine.Database.MigrateDirApplied` | internal/db/migrate.go:55-68 | A missing directory is nothing to do; otherwise every pending file. |
| `MigrationEngine.Database.SelectNewest` | internal/db/migrate.go:202-222 | The n newest rows by (applied_at, version), newest first. |
| `MigrationEngine.Database.MigrateDirDown` | internal/db/migrate.go:189-255 | n <= 0 is refused; otherwise the n newest files are reverted newest first, stopping at the first that fails, and what was reverted stays so. |
| `MigrationEngine.Database.ApplyEach` | internal/db/migrate.go:276-284 | Named files are applied in the order given, stopping at the first failure. |
| `MigrationEngine.Database.MigrateDirRedo` | internal/db/migrate.go:268-285 | Down(n), then exactly the reverted files, oldest first; nothing is reapplied if Down failed. |
| `MigrationEngine.Database.ReadStatus` | internal/db/migrate.go:102-152 | Status reads every file of the directory, applied or pending, in order, and fails at the first that cannot be read or looked up. |
| `MigrationSteps.StatusFaultIff` | internal/db/migrate.go:102-152 | The status is read exactly if no file fails; otherwise the first that does is named. |
| `MigrationEngine.Database.MigrateDirTo` | internal/db/migrate.go:304-359 | An applied target reverts everything applied after it, a pending one applies everything pending up to it; an unknown target, or a file of the directory that cannot be read, is an error before anything changes; the direction is "up" exactly for a pending target, "down" for an applied one with files applied after it, and empty otherwise, when nothing changes. |
| `MigrationSteps.DirectionIff` | internal/db/migrate.go:337-358 | The direction is "up" exactly if the target's file is not applied, "down" exactly if it is and a later file is too, and empty otherwise. |
| `MigrationSteps.DirectionIsKept` | internal/db/migrate.go:337-358 | With "up" the files touched are the next ones and are applied, with "down" the last ones and are reverted, newest first, and with "" nothing is touched. |
| `MigrationEngine.Database.VerifyChecksums` | internal/db/migrate.go:160-172 | The applied files whose content no longer has the recorded checksum, in filename order; rows without a checksum never mismatch; a file that cannot be read, applied or not, is an error instead. |
| `MigrationSteps.MismatchesAre` | internal/db/migrate.go:141-170 | Listed are exactly the applied files with a recorded, non-empty checksum that is not that of their content, in filename order, once each. |
| `MigrationRuns.NewestFirstIsTail` | internal/db/migrate.go:202-222 | When the applied set is a prefix, what Down selects is its tail, last file first, although the order is by second-resolution timestamps. |
| `MigrationRuns.UpIsForward` | internal/db/migrate.go:672-729 | From a prefix of k files, up applies files k, k+1, ... in order up to the first that fails; the result is again a prefix whose replay is the schema, and there is no error exactly when all are applied and no look-up of an applied file's record failed. |
| `MigrationRuns.RevertLastReplaysIff` | internal/db/migrate.go:225-253 | Reverting the last applied file leaves the replay of the files before it if and only if that file undoes itself there. |
| `MigrationRuns.DownIsLifo` | internal/db/migrate.go:189-255 | Down(n) reverts the last min(n, k) files in LIFO order or stops at the first it cannot revert and names it; prefix and replay hold wherever it stops. |
| `MigrationRuns.RedoStopsWithDown` | internal/db/migrate.go:262-272 | A redo whose reverting half fails reapplies nothing: it leaves applied exactly a shorter or equal prefix whose replay is the schema, and the last file of that prefix is the one it names. |
| `MigrationRuns.RedoRestores` | internal/db/migrate.go:268-285 | A redo whose reverting half succeeds walks forward over exactly the reverted files; on success the applied set and the schema are what they were. |
| `MigrationRuns.RedoStaysTidy` | internal/db/migrate.go:268-285 | However a redo ends, the applied files are a prefix of those applied before it: no pending file is touched. |
| `MigrationRuns.ToReaches` | internal/db/migrate.go:304-359 | A target that resolves to no file is refused and changes nothing, and so is any target while some file cannot be read; otherwise To moves straight towards that file, keeps prefix and replay wherever it stops, and succeeds if and only if exactly the files up to it are applied. |
| `MigrationRuns.TargetResolves` | internal/db/migrate.go:315-335 | A target has a position in the directory exactly when it resolves, and it is that of the file it resolves to. |
| `MigrationRuns.ToIsIdempotent` | internal/db/migrate.go:304-359 | Repeating a successful To(target) touches nothing, changes nothing and reports no error, unless a file has become unreadable, which is all it then reports. |
| `MigrationRuns.ToIsPathIndependent` | internal/db/migrate.go:304-359 | To(a) then To(b) ends with the same applied set and the same schema as To(b). |
| `MigrationRuns.VerifyChecksumsIsExact` | internal/db/migrate.go:160-172 | As long as no applied file is removed and none slips in before the applied ones, VerifyChecksums is empty if and only if every applied file still has the content that was applied. |
| `MigrationRuns.EditKeepsTidy` | internal/db/migrate.go:154-172 | Editing the directory while VerifyChecksums stays empty keeps the applied set a prefix of the new directory. |
| `MigrationRuns.StartsSound` | internal/db/migrate.go:672-729 | A fresh database with an empty ledger satisfies the run invariant. |
| `MigrationRuns.StepKeepsSound` | internal/db/migrate.go:189-359 | Every up, down, redo, to and permitted edit, including each error exit midway, keeps the run invariant. |
| `MigrationRuns.RunKeepsSound` | internal/db/migrate.go:189-359 | Over every run: the applied set is a prefix of the sorted filenames, ledger order is application order, and the schema equals the replay of the applied Up sections. |
| `MigrationDiff.Compare` | internal/db/migrate.go:489-552 | The two map loops and the sort report exactly one entry per drifted table, in strictly increasing table order; what an entry says is EntriesAreTrue. |
| `MigrationDiff.CompareExpected` | internal/db/migrate.go:489-552 | The second loop adds exactly the tables only the replay has. |
| `MigrationDiff.EntriesAreTrue` | internal/db/migrate.go:530-550 | Of every entry, over the two schemas alone: unexplained means live and not replayed, missing replayed and not live, altered both with different text; and its two texts are the ones there, empty on an absent side. |
| `MigrationDiff.EveryDriftHasItsEntry` | internal/db/migrate.go:530-551 | A visible table has an entry exactly if the two schemas differ on it, one entry, in strictly increasing table order. |
| `MigrationDiff.InternalIff` | internal/db/migrate.go:558 | The tables left out as SQLite's own are, letter by letter, those that begin with the six letters in any case and go on. |
| `MigrationDiff.Diff` | internal/db/migrate.go:489-552 | Diff fails exactly when some file cannot be read, table definitions cannot be read or the shadow replay fails, and otherwise reports exactly the drift between live and replayed tables outside the embedded schema; the live database is only read. |
| `MigrationDiff.SameEntriesSameReport` | internal/db/migrate.go:489-552 | The report is determined by its entries: two exact reports are the same sequence. |
| `MigrationDiff.SilentExactly` | internal/db/migrate.go:489-552 | Diff is empty if and only if live and replayed definitions agree on every table that is neither embedded nor SQLite's own. |
| `MigrationDiff.SoundShadow` | internal/db/migrate.go:489-552 | For a database only the engine has touched, the shadow replay agrees with the live schema on every visible table. |
| `MigrationDiff.NoDriftAfterEngineRuns` | internal/db/migrate.go:489-552 | After any engine-only run Diff is empty, whether the live database started with all, some or none of the embedded tables; and the replay behind it succeeds whenever nothing outside the engine fails and each file runs alike on schemas that agree on its tables. |
| `RateLimiter.Limiter.SweepLocked` | internal/ratelimit/ratelimit.go:63-69 | Exactly the buckets whose window has run out are deleted. |
| `RateLimiter.Limiter.Allow` | internal/ratelimit/ratelimit.go:37-59 | A new or expired key sweeps and opens a window; otherwise the count grows and the attempt is refused past the limit, with the rest of the window as the wait. |
| `RateLimiter.SweepShowsExactly` | internal/ratelimit/ratelimit.go:37-69 | One sweep changes what a key is told at a given time if and only if the key's window is full, still running then, and had run out by the sweep's time. |
| `RateLimiter.InStepIff` | internal/ratelimit/ratelimit.go:37-69 | For any run in any time order, after each of its attempts a key's shared bucket is what an unswept limiter of its own would hold if and only if no sweep comes, in lock order, at a time its window has run out by and before an attempt of its own still inside that window. |
| `RateLimiter.KeysAreIndependent` | internal/ratelimit/ratelimit.go:37-69 | A key with no window cut short in that way gets exactly the verdicts of an unswept limiter of its own: they depend on that key's attempt times alone. |
| `RateLimiter.OrderedIsUndisturbed` | internal/ratelimit/ratelimit.go:37-69 | With time non-decreasing in lock order no key's window is ever cut short. |
| `RateLimiter.IndependenceIff` | internal/ratelimit/ratelimit.go:37-69 | A key gets its own limiter's verdicts on every prefix of a run followed by any number of retries if and only if no window of its is cut short. |
| `RateLimiter.SweepNeedsOrder` | internal/ratelimit/ratelimit.go:37-69 | A run out of time order in which another key's attempt sweeps a running window and a verdict changes; IndependenceIff has the condition. |
| `RateLimiter.SlidingBound` | internal/ratelimit/ratelimit.go:37-59 | For any key and any half-open interval of k windows, strictly fewer than (k+1) * limit attempts are allowed. |
| `RateLimiter.BoundIsAttained` | internal/ratelimit/ratelimit.go:37-59 | For every limit, every number k of windows and every window of more than one instant, some run attains (k+1) * limit - 1, so the bound is tight. |
| `RateLimiter.UnitWindowBound` | internal/ratelimit/ratelimit.go:37-59 | For a window of a single instant the bound is k * limit instead. |
| `RateLimiter.WaitingOutSucceeds` | internal/ratelimit/ratelimit.go:37-59 | A refusal's wait lies in (0, window]; every attempt before it is over is refused too, and the first one after it is allowed. |
| `Broker.Broker.Subscribe` | internal/realtime/broker.go:91-98 | Adds the connection to the collection, creating its entry if needed; queues stay open and within 16. |
| `Broker.Broker.Unsubscribe` | internal/realtime/broker.go:104-113 | Removes the connection from that collection only, and the entry once it is empty. |
| `Broker.Broker.Close` | internal/realtime/broker.go:124-134 | Removes the connection everywhere, drops every entry left empty, closes its channel and loses nothing already queued. |
| `Broker.Broker.RemoveEverywhere` | internal/realtime/broker.go:127-132 | The loop over collections, deleting entries as it goes, removes exactly that connection. |
| `Broker.Broker.PublishLocal` | internal/realtime/broker.go:167-184 | With nothing in between, each snapshotted connection is offered the event exactly once and no subscription changes; a full queue misses it. |
| `Broker.OpRefines` | internal/realtime/broker.go:86-134 | Each subscription step does to the nested map what it does to a set of (collection, connection) pairs, and leaves no empty entry. |
| `Broker.PairsDetermine` | internal/realtime/broker.go:86-134 | A map without empty entries is determined by its pairs. |
| `Broker.RunRefines` | internal/realtime/broker.go:86-134 | Any run of subscribes, unsubscribes and closes refines the same run on a set of pairs; when no pair is left neither is any entry. |
| `Fanout.RedisRelay.Run` | internal/realtime/redis_relay.go:74-97 | The receive loop hands over, in order, exactly the messages that parse and carry another relay's id. |
| `Fanout.RunHandsOver` | internal/realtime/redis_relay.go:85-95 | Whatever surrounds it, a payload that does not parse or carries one's own id is never handed over; any other is, once and in its place. |
| `Fanout.RunDropsEchoes` | internal/realtime/redis_relay.go:66-97 | Of a process's own messages none is handed over, whatever surrounds them; every other one is. |
| `Fanout.StepKeepsInv` | internal/realtime/broker.go:86-184 | Every step of any process, of the channel or of a reader keeps the fan-out invariant. |
| `Fanout.RunKeepsInv` | internal/realtime/broker.go:86-184 | So does every run. |
| `Fanout.FanOutIsExact` | internal/realtime/broker.go:74-184 | After any run of any number of processes over a lossy, reordering, echoing channel: each publish is offered to a connection at most once and only if it may see it; each connection of the publisher's snapshot was offered it once, is still owed it or had it abandoned in a panic, exactly one of the three, and in the third case no copy has left or will leave for another process; any other connection offered it sits on a process a copy reached; messages relayed never exceed publishes; no queue exceeds 16. |
| `Fanout.ArrivalReachesEveryone` | internal/realtime/redis_relay.go:66-97 | With distinct relay ids a copy is ignored exactly at its publisher; anywhere else exactly the subscribers that may see it are owed it, and none had been offered it. |
| `Fanout.NobodyHearsTheLost` | internal/realtime/broker.go:155-164 | A relaying that fails is not retried and a copy lost on the channel not resent: no connection of a process it was lost to is ever offered that publish. |
| `Fanout.GentleRunsStayUp` | internal/realtime/broker.go:124-184 | If every Close waits for the sends owed to its connection, no send is ever abandoned and no process goes down. |
| `Fanout.HastyCloseCanPanic` | internal/realtime/broker.go:124-184 | Any Close that does not wait, in any run, can be followed by the owed send: of a local publish, everything that publish still owes and its relaying are lost and no process goes down; of a relayed copy, the process goes down with all it owed and had yet to relay. |
| `Fanout.TwoOwedIsReached` | internal/realtime/broker.go:86-184 | The state with a local publish in the gap is reached by an ordinary run from the start. |
| `Fanout.GapIsReal` | internal/realtime/broker.go:167-184 | A publish in whose gap a Close makes both sends and the relaying vanish, the other subscriber's queue empty, while the process lives on; and in which an Unsubscribe is still followed by a delivery. |
| `Fanout.CopyOwedIsReached` | internal/realtime/broker.go:74-82 | So is the state with a relayed copy in the gap at another process. |
| `Fanout.RelayedGapCrashes` | internal/realtime/broker.go:74-82 | There a Close brings the receiving process down, its send abandoned. |
| `Fanout.SlowReadersAreIsolated` | internal/realtime/broker.go:146-184 | A run with all reads of some connections left out is still a run and leaves every other queue, every subscription and every send as it was. |
| `Fanout.QueueIsFifo` | internal/realtime/broker.go:178-183 | Over any run, what a connection read followed by what still waits is exactly what its queue accepted, in order. |
| `Registry.DescribeTable` | internal/restapi/registry.go:297-333 | Fails if and only if some owner_id column lacks TEXT affinity; otherwise keeps the columns, takes the key only if it is single, and the owner column if there is one. |
| `Registry.TextIff` | internal/restapi/registry.go:281-295 | A declared type has TEXT affinity exactly if it holds CHAR, CLOB or TEXT and not INT, in any case of letters. |
| `Registry.ApplyPolicies` | internal/restapi/registry.go:230-265 | Rows are applied in order up to the first refusal: unknown collection, owner rule without owner column, unknown operation, in that precedence. |
| `Registry.Discover` | internal/restapi/registry.go:175-220 | Reserved tables are skipped before they are described, tables without a single key after; defaults are set and policies applied. |
| `Registry.Server.ReloadSchema` | internal/restapi/handlers.go:67-74 | A failed reload leaves the served registry in place; a successful one replaces it. |
| `Registry.ServedExactly` | internal/restapi/registry.go:175-265 | Served are exactly the tables that are neither SQLite's nor reserved and have a single key, each with its own columns, key and owner_id; the rule of each named operation is that of its policy row, and without one owner if some column is named owner_id and else shared. |
| `Registry.LoadsIff` | internal/restapi/registry.go:175-265 | Loading succeeds exactly if every owner_id of the tables looked at is declared as text, and every policy row names a served table and one of the four operations and gives an owner rule only to a table with owner_id. |
| `Registry.ServedIsLatest` | internal/restapi/handlers.go:67-74 | What is served is what the latest loadable database says, however many later reloads fail. |
| `Registry.ServedIsSound` | internal/restapi/registry.go:169-333 | Every registry ever served, over any startup and any reloads, failed ones included: no reserved table, a single key each, and an owner rule only with an owner_id column of TEXT affinity. |
| `Registry.DiscoveredExactly` | internal/restapi/registry.go:175-214 | Discovery fails if and only if some unreserved table has a bad owner_id; otherwise it holds exactly the exposed tables with their defaults. |
| `Registry.AppliesExactly` | internal/restapi/registry.go:222-265 | Applying _policies succeeds if and only if every row is acceptable on its own. |
| `Registry.AppliedRule` | internal/restapi/registry.go:222-265 | With (collection, operation) unique, each rule is the one its own row gives, or the default. |
| `Registry.PolicyOrderIsIrrelevant` | internal/restapi/registry.go:222-265 | With (collection, operation) unique, neither success nor the resulting rules depend on row order. |
| `Registry.OwnTablesAreNeverServed` | internal/restapi/registry.go:21-55 | No table the embedded migrations create, nor schema_migrations, is served by any registry of any run. |
| `AccessRules.RestServer.HandleGet` | internal/restapi/handlers.go:199-217 | 404 for an unknown collection, 403 when reads are denied, then 500 when the look-up fails, 404 for a missing row or, under an owner rule, someone else's; else the row. |
| `RequestOutcomes.GetSucceedsIff` | internal/restapi/handlers.go:197-217 | 200 with the row exactly if it is there, reads are not denied and, under an owner rule, its owner_id is the subject; 403 exactly if denied; else 404. |
| `RequestOutcomes.DeniedIsRefused` | internal/restapi/handlers.go:585-591 | A create, update or delete is a 403 exactly if its own rule is denied, and then changes and tells nothing; an unknown collection is a 404. |
| `AccessRules.RestServer.InsertRow` | internal/restapi/handlers.go:241-290 | From the generated key on: refusals and a taken key change nothing, success stores every column and publishes the stored row gated by its owner. |
| `AccessRules.RestServer.HandleCreate` | internal/restapi/handlers.go:219-290 | The owner is the subject whatever the body says; replies, tables and the one event as specified. |
| `RequestOutcomes.CreateSucceedsIff` | internal/restapi/handlers.go:219-285 | A row is inserted exactly if creates are allowed, the body names only columns, the database does not refuse and the key is free; it holds what was sent, the subject as owner, the generated key, the defaults; otherwise nothing changes. |
| `AccessRules.RestServer.ChangeRow` | internal/restapi/handlers.go:342-377 | A scoped or unscoped UPDATE of the matching row, and its event. |
| `AccessRules.RestServer.HandleUpdate` | internal/restapi/handlers.go:292-377 | Key and owner are stripped from the body; an empty body is 400, an all-stripped one reads without writing or publishing, under the update rule. |
| `RequestOutcomes.UpdateSucceedsIff` | internal/restapi/handlers.go:287-379 | A row is written exactly if it is there, updates are not denied, under an owner rule it is the subject's, and the body sends only columns and some column but key and owner; those columns are overwritten and no others, and otherwise nothing changes. |
| `RequestOutcomes.UpdateIsAnswered` | internal/restapi/handlers.go:287-379 | How an update that writes nothing is answered: 400, the database's refusal as 409, 400 or 500, the unchanged row, or 404. |
| `AccessRules.RestServer.RemoveRow` | internal/restapi/handlers.go:397-420 | The gate is read before the DELETE; a row not matched is 404 and publishes nothing. |
| `AccessRules.RestServer.HandleDelete` | internal/restapi/handlers.go:379-420 | The delete handler under its rule. |
| `RequestOutcomes.DeleteSucceedsIff` | internal/restapi/handlers.go:381-420 | 204, with just that row gone, exactly if it is there, deletes are not denied, under an owner rule it is the subject's, and the database does not fail; otherwise nothing changes. |
| `AccessRules.RestServer.AdminCreateRow` | internal/restapi/admin.go:95-134 | As a create, but the owner is the body's. |
| `AccessRules.RestServer.AdminUpdateRow` | internal/restapi/admin.go:140-164 | Unscoped; may change the owner; a body of nothing but the key reads without publishing. |
| `AccessRules.RestServer.AdminDeleteRow` | internal/restapi/admin.go:172-192 | Unscoped, gated by the owner read before. |
| `RequestOutcomes.AdminCreateSucceedsIff` | internal/restapi/admin.go:95-135 | An administrator's create asks no rule and takes the owner as sent. |
| `RequestOutcomes.AdminUpdateSucceedsIff` | internal/restapi/admin.go:137-164 | An administrator's update asks no rule and writes any column but the key. |
| `RequestOutcomes.AdminDeleteSucceedsIff` | internal/restapi/admin.go:166-192 | An administrator's delete asks no rule: 204 exactly if the row is there and the database does not fail. |
| `AccessRules.RestServer.DeleteOwned` | internal/restapi/handlers.go:459-478 | Collection by collection: rows first, then one event per erased row, stopping at the first store failure. |
| `AccessRules.RestServer.ExportOwned` | internal/restapi/handlers.go:432-450 | The loop over owned collections yields exactly the subject's rows of those whose reads are not denied. |
| `RequestOutcomes.ExportIsExact` | internal/restapi/handlers.go:430-450 | An export has exactly the owned collections that are not read-denied, and in each exactly the subject's rows. |
| `RequestOutcomes.DeniedRowsStand` | internal/restapi/handlers.go:585-591 | Where updates and deletes are denied, no run of customers changes or removes a row. |
| `RequestOutcomes.DeniedRowsStayAway` | internal/restapi/handlers.go:585-591 | Where creates are denied, no run of customers adds one. |
| `RequestOutcomes.OwnersRowsStand` | internal/restapi/handlers.go:287-420 | Where updates and deletes are left to owners or to nobody, a subject's row stands as it is through any run of other customers, whoever may read or create. |
| `RequestOutcomes.DefaultsArePrivate` | internal/restapi/registry.go:208-212 | With no policies at all, a row of a table with an owner_id is, for anyone but its owner, as good as absent: GET and DELETE answer 404 and neither an update nor a delete changes anything. |
| `AccessLaws.GateIsExactIff` | internal/restapi/handlers.go:108-117 | Gating by the row's owner tells exactly the subjects who could GET it if and only if reads are shared or the row's owner is a non-empty text. |
| `AccessLaws.NoticeIsOfTarget` | internal/restapi/handlers.go:283-290 | The row an event carries is the row a GET finds, and its gate is that row's owner gate. |
| `AccessLaws.WritesAreTold` | internal/restapi/handlers.go:80-93 | Unless reads are denied, when nobody can read any row, or the row cannot be fetched back, a request publishes exactly when it succeeds in writing. |
| `AccessLaws.EventsMatchReadsIff` | internal/restapi/handlers.go:288-420 | A create, update or delete event, by a customer or an administrator, reaches exactly the subjects whose GET succeeds, after the write or before the deletion, if and only if reads are shared or the row names its owner and, for a deletion, the owner lookup worked. |
| `AccessLaws.EveryEventIsExact` | internal/restapi/handlers.go:288-420 | Over any run by customers with a subject and administrators who name owners, each such event reaches exactly its readers. |
| `AccessLaws.RunKeepsOwnersNamed` | internal/restapi/handlers.go:232-239 | Every row of an owner-scoped collection names an owner throughout such a run. |
| `AccessLaws.OnlyTheTarget` | internal/restapi/handlers.go:219-420 | A request leaves every row but its target as it was. |
| `AccessLaws.ErasureIsExact` | internal/restapi/handlers.go:459-478 | A completed bulk erasure removes exactly the subject's rows of owner-scoped collections. |
| `AccessLaws.ErasureTellsOnlyReaders` | internal/restapi/handlers.go:452-478 | Each event of a bulk erasure reaches only subjects who could read the row just before, and all of them if and only if the read rule is owner. |
| `RequestOutcomes.ErasureTellsOnce` | internal/restapi/handlers.go:452-478 | A whole erasure tells of each row it removes exactly once, and of no row that stays. |
| `AccessLaws.CreateIsRead` | internal/restapi/handlers.go:219-290 | After a create the row is new under its key, holds every column the body sent as sent and the subject as owner, and its creator's GET returns exactly what was replied, unless reads are denied. |
| `AccessLaws.UpdateWritesWhatWasSent` | internal/restapi/handlers.go:292-377 | An update that writes sets every column sent but key and owner, changes no other, and under an owner rule touches only the subject's own row. |
| `AccessLaws.DeleteUndoesCreate` | internal/restapi/handlers.go:219-420 | Deleting what was just created leaves the rows exactly as they were before. |
| `AccessLaws.OwnerIsCreator` | internal/restapi/handlers.go:232-239 | Over any run of customer requests under any rules, a row belongs to the subject whose create brought it about, or to whom it belonged at the start. |
| `AccessLaws.OthersCannotInterfere` | internal/restapi/handlers.go:163-420 | With read, update and delete owner-scoped, no request of another subject changes the rows a subject sees. |
| `AccessLaws.ListIsWhatGetReads` | internal/restapi/handlers.go:163-217 | A list holds exactly the rows GET returns. |
| `AccessLaws.ExportIsReadable` | internal/restapi/handlers.go:422-450 | An export holds only rows its subject can GET, and under an owner read rule exactly what a list shows. |
| `AccessLaws.ErasureLeavesNothingToExport` | internal/restapi/handlers.go:432-478 | After an erasure every export of that subject is empty. |
| `EndToEnd.OnlyReadersHear` | internal/realtime/broker.go:150-184 | Across any number of processes, delays and losses, a connection is offered an event only if its subject's GET of that row succeeded when the event was made. |
| `EndToEnd.OnlyReadersHearOfErasure` | internal/restapi/handlers.go:452-478 | The same of a bulk erasure: whoever is offered the event of an erased row, on any process, could GET that row just before. |
| `EndToEnd.EveryLocalReaderIsTold` | internal/realtime/broker.go:167-177 | The publish's snapshot holds a subscribed connection if and only if its subject could GET the row. |
| `GrantStorage.Storage.CreateSession` | internal/oauth/storage.go:153-155 | Inserts under a signature not yet in the table, else fails and changes nothing. |
| `GrantStorage.Storage.GetRefreshTokenSession` | internal/oauth/storage.go:165-186 | Tells a token that never was from one rotated away from an active one. |
| `GrantStorage.Storage.RotateRefreshToken` | internal/oauth/storage.go:207-218 | Wins if and only if the token is there, of that request and active; winning deactivates it and losing changes nothing. |
| `GrantStorage.Storage.RevokeByRequest` | internal/oauth/storage.go:222-228 | Deletes exactly the chain's rows of one table. |
| `GrantStorage.Storage.RevokeForSubject` | internal/oauth/storage.go:267-277 | Table by table up to the first failing DELETE. |
| `GrantStorage.RevokedEverywhere` | internal/oauth/storage.go:267-277 | After all four tables nothing of the subject is left and nothing of anyone else is touched. |
| `GrantStorage.RevokedInOrder` | internal/oauth/storage.go:251-277 | Stopped after n tables, the first n in order (codes, access tokens, refresh tokens, PKCE) are rid of exactly the subject's rows and the others are as they were. |
| `RefreshRotation.RotationIsSafe` | internal/oauth/storage.go:153-228 | Under every interleaving of redemptions, crashes and revocations, per chain active refresh tokens plus redemptions between Rotate and CreateRefresh never exceed one, no refresh token is rotated twice, and refresh tokens minted are at most one more than rotations. |
| `RefreshRotation.ReplayIsSeen` | internal/oauth/storage.go:157-186 | After any interleaving a presented token is answered in one of three ways: not found exactly if it is not in the table, found with its grant if active, and otherwise inactive with its grant, whose chain was issued; a rotated one is always inactive. |
| `RefreshRotation.ReuseIsRecognised` | internal/oauth/storage.go:157-218 | Once rotated, a token presented again is answered inactive with the very grant it was issued under, through any interleaving that does not delete it, and no redemption comes of it. |
| `RefreshRotation.DeadStaysDead` | internal/oauth/storage.go:192-228 | A chain with neither an active token nor a redemption past Rotate never gets a refresh token again. |
| `RefreshRotation.RevocationIsFinalIff` | internal/oauth/storage.go:157-228 | Deleting a chain's refresh tokens on reuse, as RevokeRefreshToken does, ends it for good if and only if no redemption of it is between Rotate and CreateRefresh at that moment. |
| `RefreshRotation.ReuseEndsChainIff` | internal/oauth/storage.go:157-228 | When a presented token is answered inactive, revoking the chain that the answer names ends it for good if and only if none of its redemptions is between Rotate and the new token. |
| `Identity.Service.SignUp` | internal/auth/service.go:43-69 | A short password, then a taken email, is refused; else the user is added. |
| `Identity.SignUpIff` | internal/auth/service.go:43-94 | An account is made exactly if the password has 8 characters, the email is free and the id new; from then on that password logs in and no other does. |
| `Identity.Service.Login` | internal/auth/service.go:74-94 | Only the right password opens a session, valid for 30 days. |
| `Identity.LoginIff` | internal/auth/service.go:74-94 | A login opens one session, of that account, exactly if the account is there, the password is its own and the token is new. |
| `Identity.Service.ValidateSession` | internal/auth/service.go:98-118 | Accepts a session of an existing user up to and including its expiry. |
| `Identity.Service.Logout` | internal/auth/service.go:121-128 | Deletes that session only. |
| `Identity.Service.RevokeAllSessions` | internal/auth/service.go:247-253 | Deletes exactly the user's sessions. |
| `Identity.LogoutEndsSession` | internal/auth/service.go:121-128 | A session logged out of is never accepted again, whatever follows, short of its token being issued anew. |
| `Identity.LogoutEndsOnlyOne` | internal/auth/service.go:121-128 | Every other session is answered as before. |
| `Identity.RevokeEndsSessions` | internal/auth/service.go:247-253 | After a revocation none of the user's sessions is ever accepted again, short of reissue. |
| `Identity.OthersKeepTheirs` | internal/auth/service.go:43-400 | A request about one user changes, removes and adds nothing of another's: account, sessions, reset tokens. |
| `Identity.RefusedChangesNothing` | internal/auth/service.go:43-400 | A request that is refused or fails has changed nothing. |
| `Identity.Service.CreateResetToken` | internal/auth/service.go:299-320 | Issues an unused token for one hour if the account exists. |
| `Identity.Service.ResetPassword` | internal/auth/service.go:337-400 | One transaction sets the password, marks all the user's tokens used and deletes all sessions; a failing statement undoes the ones before it. |
| `Identity.Service.PurgeExpiredSessions` | internal/auth/service.go:261-267 | Deletes exactly the sessions with expiry at or before now. |
| `Identity.Service.PurgeExpiredResetTokens` | internal/auth/service.go:278-284 | Deletes exactly the reset tokens expired or used. |
| `Identity.PurgesTakeWhatIsDead` | internal/auth/service.go:261-284 | The purges take exactly the sessions that have run out, and the reset tokens that have or are used. |
| `Identity.Service.DeleteUser` | internal/auth/service.go:140-146 | Deletes the user and, by cascade, their sessions and reset tokens. |
| `Identity.RedeemedOncePerIssue` | internal/auth/service.go:337-400 | Over any run, successful redemptions of a token number at most its issues, plus one if it was live at the start. |
| `Identity.SingleUse` | internal/auth/service.go:322-400 | With tokens issued once, each redeems at most once. |
| `Identity.ResetKillsEarlierTokens` | internal/auth/service.go:378-395 | After a success none of that user's earlier sessions and reset tokens is ever accepted again, short of the same token being issued anew. |
| `Identity.PurgingIsInvisible` | internal/auth/service.go:255-284 | With purges left out of a run every other request gets the same answer, provided no validation falls in or before the second of an earlier session purge and no reset in that of an earlier reset-token purge; purges may share their instant with each other and with anything else. |
| `Identity.PurgesNeedNotRun` | internal/auth/service.go:255-284 | The same, starting from one database. |
| `Identity.PurgeShowsOnlyAtBoundary` | internal/auth/service.go:114-262 | A session purge changes an answer from then on if and only if expiry, purge and check fall in one instant. |
| `Identity.ResetPurgeShowsOnlyAtBoundary` | internal/auth/service.go:279-376 | The same for reset tokens. |
| `Identity.SessionLastsItsTtl` | internal/auth/service.go:74-118 | A session opened by a login validates as its user's for exactly 30 days of seconds, the last instant included. |
| `Identity.ResetTakesEffect` | internal/auth/service.go:299-400 | An issued token redeems for exactly an hour with a password of at least 8; from then on the new password logs in and no other does. |
| `Identity.NoOrphans` | internal/auth/service.go:130-146 | Over any run no session or reset token outlives its user, and user ids stay unique. |
| `FileStorage.FileServer.HandleUpload` | internal/storage/server.go:95-117 | Bytes, then row; if the row fails the bytes are taken back, if that works; the last look-up can fail with both stores written, and answers 500. |
| `FileStorage.FileServer.HandleDelete` | internal/storage/server.go:191-213 | Look-up, then bytes, then row, for the owner only; 204, 404 or 500. |
| `FileStorage.UploadSucceedsIff` | internal/storage/server.go:95-117 | 201 exactly if nothing fails and the key is new, and then row and bytes are both there; otherwise no row is added unless only the look-up failed, and no bytes unless the clean-up failed. |
| `FileStorage.DeleteSucceedsIff` | internal/storage/server.go:191-213 | 204 exactly if the file is the owner's and nothing fails, and then just its row and bytes are gone; 404 if it is not theirs; after a failure the row is still there. |
| `FileStorage.FileServer.DeleteOwned` | internal/storage/server.go:255-306 | The per-file loop, stopped after any number of its store operations. |
| `FileStorage.ErasureConverges` | internal/storage/server.go:283-305 | An erasure that fails anywhere leaves exactly as much to clean as there was, and one that succeeds leaves it clean. |
| `FileStorage.CleanIsExact` | internal/storage/server.go:253-306 | Clean means none of the subject's rows and bytes, and everything else as it was. |
| `FileStorage.OthersFilesStay` | internal/storage/server.go:253-306 | Even a failing erasure touches nobody else's files. |
| `FileStorage.DeleteUndoesUpload` | internal/storage/server.go:95-213 | What an upload that kept its row left, answered 201 or 500, its owner can delete, which leaves rows and bytes as before; nobody else can. |
| `FileStorage.FailedErasureStopsInOneFile` | internal/storage/server.go:283-305 | A failed erasure leaves earlier files wholly gone and later ones untouched; the file it stopped in may have lost its bytes and kept its row, where the comment says it is untouched. |
| `FileStorage.ErasureGoesInUploadOrder` | internal/storage/server.go:255-306 | As long as a file keeps its row, every one of the subject's uploaded after it is untouched, row and bytes. |
| `FileStorage.OrphansOnlyFromFailedCleanup` | internal/storage/server.go:95-109 | Bytes without a row arise in one case only: an upload whose insert and clean-up both fail. |
| `Erasure.AccountServer.HandleDeleteAccount` | internal/server/handlers_auth.go:225-261 | Rows, files, grants, then the account, stopping at the first failure; 204 exactly when all four succeeded, else 500. |
| `Erasure.StagesInOrder` | internal/server/handlers_auth.go:225-250 | Files are touched only once every owned row is gone, grants only once rows and files are, the account only once all are; it succeeds exactly if every stage gets to its end. |
| `Erasure.AttemptConverges` | internal/server/handlers_auth.go:225-261 | Whatever fails, a clean run of what is left ends as a clean run of what there was; a success leaves nothing to clean and a failure keeps the account. |
| `Erasure.ErasureConverges` | internal/server/handlers_auth.go:225-261 | Any number of attempts failing at any store operation, and one that succeeds, amount to one clean run. |
| `Erasure.AccountGoesLast` | internal/server/handlers_auth.go:231-250 | Over any attempts, either the account is whole or everything of the subject is gone. |
| `Erasure.GoneMeansClean` | internal/server/handlers_auth.go:231-250 | Once the account is gone the state is that of one clean run. |
| `Erasure.CleanLeavesNothing` | internal/server/handlers_auth.go:219-250 | A clean run leaves no owned row, no file or bytes of one, no grant, no account, session or reset token. |
| `Erasure.OthersAreUntouched` | internal/server/handlers_auth.go:225-261 | However many attempts fail, nobody else loses a row, a file, a grant, an account, a session or a reset token. |
| `ManagedBlock.DocFile.UpdateManagedBlock` | cmd/maubase/updateagentdocs.go:56-88 | Created, unchanged, updated, or one of the refusals, with the file as specified. |
| `ManagedBlock.MatchIff` | cmd/maubase/updateagentdocs.go:13 | A match is the leftmost begin marker up to the first end marker after it, and there is none exactly if there is no such span. |
| `ManagedBlock.StatusTellsWhatHappened` | cmd/maubase/updateagentdocs.go:56-88 | When each status is given; the file changes only when created, as rendered, or updated, and then only inside its blocks, each becoming the rendering's own. |
| `ManagedBlock.FoundIsBlock` | cmd/maubase/updateagentdocs.go:13 | What FindString returns starts with a begin marker and is ended by its first end marker. |
| `ManagedBlock.ReplaceKeepsOutside` | cmd/maubase/updateagentdocs.go:49-51 | After a rewrite the text around the blocks is what it was, piece by piece, and every block is the new one, as many as before, for any text. |
| `ManagedBlock.WeaveRestores` | cmd/maubase/updateagentdocs.go:13 | A text is its outside woven with its blocks. |
| `ManagedBlock.ReplaceIsIdempotent` | cmd/maubase/updateagentdocs.go:80 | Rewriting twice is rewriting once. |
| `ManagedBlock.SecondRunIsUnchanged` | cmd/maubase/updateagentdocs.go:56-88 | After updated or unchanged the second run is unchanged; after created it is so if and only if all blocks of the rendering are alike; a refusal repeats and writes nothing. |
| `ManagedBlock.RefreshIsFaithfulIff` | cmd/maubase/updateagentdocs.go:42-88 | For any document and any rendering, refreshing leaves exactly that rendering if and only if the two agree outside their blocks and all blocks of the rendering are alike; where it is refused, if and only if they were equal to begin with. |
| `ManagedBlock.InnerMarkerCuts` | cmd/maubase/skill.go:181 | A body that quotes the end marker is cut there: what follows the quotation is outside the block. |

## Left out

- HTTP routing, scopes, JSON decoding, pagination, templates, the admin pages, the WebSocket pumps and the SDKs: handlers start from a decoded body and a subject.
- Handlers of internal/restapi are atomic steps: another request's statement between an UPDATE and its re-fetch, or between the owner lookup and the DELETE, is not interleaved.
- Row keys are their printed values: a key column that is INTEGER compares "07" and "7" as equal, which is not modelled, nor is a key declared INT or BIGINT, which is not the rowid that LastInsertId returns.
- Column values are null, text or integers; an integer stored in an owner column becomes its decimal digits, and how other numbers are printed is not modelled.
- The AdminListRows ordering, AdminCreateTable and pagination: no property here needs them.
- AccessRules.RestServer.DeleteOwned: the order of the events of one erasure is not modelled, only which there are, because broker and queries give no order; collections come in the given order.
- AccessRules.RestServer.PublishAll: a publish that panics (Fanout) cuts the request short after its write, and a bulk erasure before its later events; the handlers here are those whose publishes return.
- Registry.Discover: collections are values, so a handler still holding a collection from before a reload is not modelled.
- Upper-casing of declared column types and the lower-casing in drift detection are over ASCII.
- Broker.Broker.PublishLocal: the method has no step between snapshot and sends; interleavings are in Fanout. Connections that one goroutine subscribes while another closes them are outside the class contracts.
- Fanout: a process that has gone down stays down; restarts, relay reconnects and a broker without a relay (the case in which no publish is relayed) are not separate cases. No order across publishes is claimed, as the code gives none.
- MigrationEngine.Database.MigrateDirDown: creation of schema_migrations and of its checksum column, and the failure of a query that lists the whole ledger, are not modelled; the "app:" prefix is a ledger of its own.
- MigrationEngine.Database.ApplyOneMigration: transaction control inside migration SQL is not modelled; a section runs as a whole or not at all.
- MigrationNumbers.NextMigrationNumber: the successor of the largest machine integer is not wrapped.
- RateLimiter.Limiter.Allow: the attempt count does not overflow.
- Status output, the CLI's printing, flags and slugs: presentation.
- RefreshRotation: authorization codes, PKCE and access tokens appear only as tables; fosite itself is not part of this model, nor is a storage transaction around a redemption.
- Identity.Service.SignUp: e-mail syntax and normalisation, and bcrypt, are not modelled; a password is compared as it is.
- Identity.Service.PurgeExpiredSessions: the number of rows removed is not part of the answer.
- Identity: social sign-in, account listing and user-supplied profile data are not modelled; a login's password check and its session insert are one step.
- Identity.Service.DeleteUser: consents and social identities cascade the same way and are not modelled; file rows are gone before, by erasure.
- FileStorage.FileServer.HandleUpload: sizes, names and content types are not modelled, nor a partly written file that cannot be removed.
- Erasure.AccountServer.HandleDeleteAccount: writes by anyone between two stages of an attempt are not interleaved; the audit record is left out.
- ManagedBlock.DocFile.UpdateManagedBlock: a write that fails leaves the file as it was, although a real one may be cut short; directories and file modes are left out.
- Role ranks, the last-owner guard, consent sets, auditing and configuration: one-branch or set-level claims.

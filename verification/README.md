# RetroBridge: a verified model

RetroBridge lets web users run programs and open terminals on vintage minicomputers behind serial lines. This project
models the parts of it that are algorithms or protocols, and proves what they promise:

- **Job output** (`OutputTail.dfy`, `JobEvents.dfy`): the reader that fetches the last lines of a log backwards in
  blocks, and the live stream that follows a log while a worker writes it.
- **Telnet transport** (`Telnet.dfy`, `TelnetTokens.dfy`, `SocketWrapper.dfy`, `TelnetTransport.dfy`): the chunk-fed
  negotiation decoder (RFC 854, "TELNET Command Structure"; RFC 855), and the buffered socket that takes over from it.
- **Rate limiting** (`RateLimit.dfy`, `RateLimitProofs.dfy`): the in-memory and the SQLite sliding-window stores against
  a rule stated on a history that forgets nothing.
- **Strict XMODEM receiver** (`Xmodem.dfy`, `XmodemLine.dfy`): the receiver, and the stop-and-wait system it forms with
  a sender and a lossy line.
- **Job scheduler** (`JobTable.dfy`, `JobStore.dfy`, `JobRun.dfy`, `JobRuns.dfy`, `JobOwnership.dfy`, `JobEffects.dfy`,
  `JobWitnesses.dfy`): one job table shared by web requests and any number of workers that claim, finish, crash and
  recover each other's jobs.
- **Interactive terminals** (`Terminal.dfy`, `TerminalServer.dfy`, `TerminalRuns.dfy`, `TerminalTheorems.dfy`,
  `TerminalPorts.dfy`, `TerminalHandlers.dfy`, `TerminalEffects.dfy`, `TerminalLapse.dfy`, `TerminalTime.dfy`): two
  in-memory bridge maps that must agree with session rows and a one-per-port lease table.

Classes and loops of the source are classes and loops here. Each method is proved against a function on values (or
against a property stated outright), and the protocol theorems are then proved about those functions, over every run.

## Findings

The proofs settle where the code does not do what its comments, or the standards, lead one to expect.

- A suspended terminal may live for the 600-second grace period, but only heartbeats of a connected browser renew its
  lease, which lasts 300 seconds. After that another user can be given the same port while the first bridge is still
  live (`TerminalLapse.SuspendedBridgeLosesItsPort`). The comment at retrobridge/terminal/utils.py:143-145 says the
  bridge re-acquires the port on its next heartbeat; the heartbeat is an UPDATE and cannot bring a deleted lease back.
  Two live bridges come to share a port exactly when a request is granted the first free port and a live bridge is on
  it; a whole run is free of that exactly when no request is granted such a port
  (`TerminalPorts.PortsStayUnsharedExactlyWhenNoneGrantedOccupied`). That every live bridge holds the lease on its port
  is more: a recovery keeps it exactly when no live bridge's lease has lapsed
  (`TerminalRuns.RecoverKeepsExclusivityExactlyWhenTimely`), and a whole run exactly when no request searches for a port
  while one has (`TerminalPorts.ExclusiveExactlyWhenNoLineIsTaken`). A bridge suspended for more than 300 seconds has
  lost its port to the next recovery (`TerminalLapse.SuspendedLeaseIsNeverRenewed`).
- When the line of a terminal fails, its bridge goes but its session row stays active. Whatever happens next, as long as
  the row stays active, the user's own requests for the device are refused before they reach the lease recovery that
  would end the session (`TerminalHandlers.FailedLineKeepsItsUserOut`). It ends exactly when an administrator
  disconnects it, the server restarts, or another request searches for a port after its lease has lapsed
  (`TerminalPorts.BridgelessSessionEndsExactlyBy`). If the lease was taken away before, only an administrator or a
  restart ever ends it (`TerminalPorts.StrandedUntilForced`), and such sessions occur
  (`TerminalLapse.FailedLineStrandsItsSession`).
- Telnet decoding depends on how the stream is cut into chunks. A cut is harmless for every continuation exactly when it
  falls outside any command or right after a leading IAC (`TelnetTokens.CutIsHarmlessExactlyWhenClean`); a cut before an
  option code has the wrong option answered and the right one taken for data (`TelnetTokens.CutOptionBecomesData`). A
  doubled 255 followed by 240 inside a subnegotiation ends it early (`TelnetTokens.EscapedIacSeLeaksPayload`).
- A socket error during a read that had already taken octets from the buffer drops them; once the wrapper has its
  octets, this is the only way they are lost from returned octets and buffer together
  (`SocketWrapper.FifoExactlyWhenLossFree`, `SocketWrapper.ErrorDropsTheBuffer`). A write that fails while octets are
  buffered leaves them out of reach: "closed" means that everything was handed over exactly when neither happened
  (`SocketWrapper.ClosedMeansDrainedExactlyWhen`). And a negotiation answer that fails gives up the data decoded so far
  (`TelnetTransport.NegotiatedDataComesFirst`).
- One pass of stale-job recovery is incomplete exactly when flagged and unflagged stale jobs coexist
  (`JobTable.OnePassSufficesExactlyWhenNotMixed`, `JobTable.OnePassLeavesAnExpiredJob`).
- A job's outcome is written by row id alone, so a worker that outlives its lease shares its job with the next claimant
  and can overwrite a finished status (`JobWitnesses.LapsedLeaseSharesTheJob`). Ownership holds throughout a run exactly
  when no recovery touches the job of a live worker (`JobOwnership.OwnershipHoldsExactlyWhenNoneTaken`). The worker's
  lease renewal (worker.py:547-552) compares elapsed seconds with an epoch reading and never fires, so it is not
  modelled.
- A cancellation reads the row (retrobridge/jobs/utils.py:263) and commits later, without a write lock in between. If it
  read "running" and the job has been requeued by then, the job is left queued and flagged; no other event does that
  (`JobRuns.OrphanAppearsExactlyWhenFlaggedTooLate`, `JobWitnesses.LateCancellationOrphansTheJob`). No worker claims it
  and no recovery reaches it, so the orphan sweep is needed (`JobRuns.OrphanLeavesExactlyBy`). If it read "queued" and a
  worker has claimed the job by then, the row says canceled while the worker runs it, and the outcome overwrites that
  (`JobWitnesses.LateCancellationIsOverwritten`). Such a row no longer counts against its port, so a second live worker
  can be sent to the same line (`JobWitnesses.LateCancellationDoublesAPort`). Otherwise, and while no recovery takes a
  live worker's job, no port is driven by more workers than it may serve (`JobOwnership.DriversAreBoundedInRuns`).
- A finished row stays as it is in every continuation exactly when nobody has the job in memory and no commit that would
  change it is on its way (`JobOwnership.FinishedIsFinalExactlyWhenSettled`).
- The SQLite store's sweep is harmless exactly when no effective window is longer than a day
  (`RateLimitProofs.SqliteStoreIsExactExactlyWhenPatient`).
- The strict XMODEM receiver asks for CRC mode with a "C" but verifies 8-bit checksums. Every single damaged octet is
  detected; altered data passes exactly when it adds up to the same modulo 256
  (`XmodemLine.AlteredDataPassesExactlyWhenSumsAgree`), and is then acknowledged and counted
  (`XmodemLine.UndetectedDamageIsCounted`).
- The strict XMODEM receiver stops at its first EOT. If that EOT's acknowledgement is lost, it has all blocks but never
  answers again, and the sender never finishes (`XmodemLine.LostAckNeverFinishes`); no other exchange makes a transfer
  impossible to complete (`XmodemLine.ChanceIsLostExactlyByLastAck`).

## Assumptions

- Every committed transaction, and every terminal handler in the single server process, is one atomic step that reads
  the clock once. A cancellation and the orphan sweep read a row in one step and commit what they decided in another.
  The clock is an integer that never runs backwards and is never 0, so a recorded suspension time is always truthy.
  Limits and ports are fixed during a run.
- `JobOwnership.OwnershipIsExclusive` and `TerminalTheorems.ExclusiveInEveryTimelyRun` assume timely runs: a live worker
  writes its outcome, and a live bridge's lease is renewed, before the lease lapses. The capacity, quota, rate,
  cancellation and map-consistency theorems assume nothing of the kind.
- Text is octets; a line or chunk is decoded only after the model ends. Octets below 128 never occur inside a multi-byte
  UTF-8 character, so line ends are the same before and after decoding.

## Model

| member | source | states |
|---|---|---|
| OutputTail.ReadOutputTail | retrobridge/jobs/utils.py:306-352 | For every file, tail and block size the reader returns the last `tail` lines that opening the whole file in text mode would yield; a tail below 1 asks for all of them and a missing file has none |
| OutputTail.ReadBlocks | retrobridge/jobs/utils.py:327-339 | Reading backwards loads a suffix that is the whole file or has more than `tail` line feeds, and no block is read once that many are loaded |
| OutputTail.LinesOf | retrobridge/jobs/utils.py:340-347 | Normalising, splitting, dropping a partial first and an empty last piece gives the text-mode lines of the suffix, without its first line if that was partial |
| OutputTail.NormalizeKeepsLines | retrobridge/jobs/utils.py:341-342 | The two replacement passes leave no CR and change no line |
| OutputTail.OnlyFirstLineIsPartial | retrobridge/jobs/utils.py:344-345 | Wherever a file is cut, also between a CR and its LF, all lines of the suffix but its first are last lines of the file |
| OutputTail.TailFromSuffix | retrobridge/jobs/utils.py:331-349 | More than `tail` line feeds are enough for the last `tail` lines after dropping the first |
| OutputTail.RecordsReadBack | worker.py:438-444 | Whatever octets the worker logs, no line runs across two log records: each record and its LF are read back as the record's own lines |
| OutputTail.PlainRecordsReadBack | worker.py:438-444 | Records without line ends of their own are read back one line each |
| Telnet.Negotiate | retrobridge/transport.py:163-250 | The decoder's output and answers over any chunks are those of a byte-at-a-time reference decoder that only forgets what the end of a chunk makes it forget |
| Telnet.DecodeChunk | retrobridge/transport.py:185-248 | One chunk, with or without a pending IAC, takes the reference decoder from before to after the chunk |
| Telnet.SkipSubnegotiation | retrobridge/transport.py:203-209 | The inner scan stops right after the first IAC SE or at the end of the chunk, as the reference decoder does |
| TelnetTokens.DecodeInvertsEncode | retrobridge/transport.py:163-250 | Any stream of well-formed tokens, cut between tokens or right after leading IACs, decodes to exactly its data octets and is answered, in order, 255 254 opt for each 255 251 opt and 255 252 opt for each 255 253 opt, and nothing else |
| TelnetTokens.FeedTokens | retrobridge/transport.py:217-248 | The same for one piece of stream, from any decoder position outside a command |
| TelnetTokens.CleanCutsDoNotMatter | retrobridge/transport.py:188-215 | If every cut is outside a command or right after a leading IAC, any chunking equals the single-chunk run |
| TelnetTokens.CutIsHarmlessExactlyWhenClean | retrobridge/transport.py:197-221 | After any received chunks, a cut leaves output and answers unchanged for every continuation, itself cut in any way, if and only if the decoder stands outside a command or right after a leading IAC there |
| TelnetTokens.CutOptionBecomesData | retrobridge/transport.py:217-221 | A chunk that ends between WILL and its option has option 0 answered and the option taken for data |
| TelnetTokens.CutOptionIsAnsweredAsZero | retrobridge/transport.py:198-202 | Whatever came before, a chunk that ends before an option answers 255 254 0 to WILL, 255 252 0 to DO and nothing to the others |
| TelnetTokens.EmptyChunkEndsTheStream | retrobridge/transport.py:179-184 | An empty chunk ends negotiation; nothing after it counts |
| TelnetTokens.PayloadStaysInsideExactlyWhenFree | retrobridge/transport.py:229-237 | A subnegotiation is not left before its terminator if and only if its payload has no IAC SE |
| TelnetTokens.EscapedIacSeLeaksPayload | retrobridge/transport.py:229-237 | An RFC 855 payload with a doubled 255 before 240 leaks its remaining octets into the data |
| SocketWrapper.Wrapper.constructor | retrobridge/transport.py:282-289 | A wrapper starts open with the octets handed over and nothing received |
| SocketWrapper.Wrapper.InWaiting | retrobridge/transport.py:299-327 | The property acts as the corresponding transition on the model, whatever the socket does |
| SocketWrapper.Wrapper.Read | retrobridge/transport.py:329-357 | Likewise for read, including partial reads, end of stream and errors |
| SocketWrapper.Wrapper.Write | retrobridge/transport.py:359-369 | Likewise for write |
| SocketWrapper.ReadServesTheBuffer | retrobridge/transport.py:332-337 | A read whose size is buffered returns exactly the first octets of the buffer and does not touch the socket |
| SocketWrapper.ReadAsksTheSocketOnce | retrobridge/transport.py:338-357 | Any other read returns the whole buffer followed by the next octets of the socket, up to the size, and fails exactly if the socket fails, or ends with nothing in hand |
| SocketWrapper.InWaitingCountsTheBuffer | retrobridge/transport.py:299-327 | The count is the number of octets buffered afterwards; only an empty buffer is filled, with at most 4096; "closed" is reported exactly at the noted end, a failure or an end with nothing in hand |
| SocketWrapper.WriteKeepsTheBuffer | retrobridge/transport.py:359-369 | A write changes nothing, or closes the wrapper with its buffer as it is |
| SocketWrapper.StepConserves | retrobridge/transport.py:299-369 | A call returns and keeps exactly what was kept before plus what it received, in order, except that a socket error during a partly served read drops the buffer |
| SocketWrapper.FifoExactlyWhenLossFree | retrobridge/transport.py:274-357 | Over every run, what was returned followed by the buffer equals the initial buffer followed by what was received, if and only if no read met an error with octets in hand |
| SocketWrapper.ErrorDropsTheBuffer | retrobridge/transport.py:338-357 | A wrapper with one octet in hand loses it to a read that wants two and meets a socket error |
| SocketWrapper.ClosedMeansDrainedExactlyWhen | retrobridge/transport.py:291-369 | When "closed" is reported, every octet was returned if and only if no read met an error, and no write failed, with octets in the buffer |
| SocketWrapper.ReadIsBounded | retrobridge/transport.py:329-351 | No read returns more than its size |
| SocketWrapper.FailedWriteStrandsBuffer | retrobridge/transport.py:359-369 | After a failed write buffered octets cannot be read any more |
| TelnetTransport.OpenTelnet | retrobridge/transport.py:253-268 | The wrapper starts with the data decoded during negotiation, or with nothing if answering failed |
| TelnetTransport.NegotiatedDataComesFirst | retrobridge/transport.py:253-268 | End to end, a reader gets the negotiation phase's data and then the socket's, once and in order, if and only if no read is cut short by an error and no failed answer gave up decoded data |
| RateLimit.MemoryStore.Check | retrobridge/security.py:64-78 | The in-place list store acts as the transition the exactness lemmas are about |
| RateLimit.SqliteStore.Check | retrobridge/security.py:128-155 | Likewise for the table store, sweep included |
| RateLimit.SqliteStore.Sweep | retrobridge/security.py:114-126 | A sweep is due at most every interval, failed or not, and deletes only rows older than the age |
| RateLimitProofs.MemoryStoreIsExact | retrobridge/security.py:64-78 | On every history with a non-decreasing clock the memory store denies exactly when max_req requests of the key were allowed in [now - window, now], forgetting nothing |
| RateLimitProofs.SqliteStoreIsExactExactlyWhenPatient | retrobridge/security.py:84-155 | Any number of processes that share the table, each with its own last sweep, decide so on every history, whichever sweeps fail, if and only if no window that can allow anything exceeds MAX_AGE |
| RateLimitProofs.AnyScheduleIsExact | retrobridge/security.py:114-155 | With such windows the table decides so whenever, and however often, it is swept |
| RateLimitProofs.ProcessesKeepASchedule | retrobridge/security.py:114-126 | The sweeps of any number of processes are one of those schedules |
| RateLimitProofs.ImpatientSweepForgets | retrobridge/security.py:84-124 | With a longer window a full burst followed by a request a day later is wrongly allowed |
| RateLimitProofs.SweepsExactlyWhenDue | retrobridge/security.py:114-126 | A process sweeps if and only if its last sweep is at least 300 seconds ago, and a sweep that works removes exactly the rows older than 86400 seconds |
| RateLimitProofs.FewRequestsAreAllowed | retrobridge/security.py:64-78 | Whoever makes fewer than max_req requests in a window is not refused |
| RateLimitProofs.NoWindowExceedsLimit | retrobridge/security.py:64-78 | In any closed interval as long as the window at most max_req requests of a key are allowed |
| Xmodem.StrictReceive | retrobridge/simulation.py:423-485 | Replies and expected number are those of the receiver function, for every sequence of line events |
| Xmodem.ReadBlockBytes | retrobridge/simulation.py:278-295 | Returns the first n octets that arrive before an error or end of file, or nothing if fewer do |
| Xmodem.BadBlockIsRefused | retrobridge/simulation.py:470-478 | A damaged block, or one whose number is neither the expected one nor the one before, is answered by one NAK and changes nothing else |
| Xmodem.RepetitionIsAcknowledged | retrobridge/simulation.py:473-485 | A sound repetition of the last block is answered by one ACK and counts nothing |
| Xmodem.NextBlockIsCounted | retrobridge/simulation.py:473-485 | The expected sound block is answered by one ACK, its data counted and the expected number advanced modulo 256 |
| Xmodem.OtherEvents | retrobridge/simulation.py:433-460 | EOT is acknowledged and ends reception, a failed read ends it silently, everything else is passed over |
| XmodemLine.AcceptedIsAPrefix | retrobridge/simulation.py:465-485 | In every run over a line that loses or detectably damages blocks and loses replies, the blocks counted as new are a prefix of the sender's, once and in order, and all of them when EOT is acknowledged |
| XmodemLine.CleanExchangeAdvances | retrobridge/simulation.py:473-485 | An undisturbed exchange is never refused and moves the sender on |
| XmodemLine.CleanLineCompletes | retrobridge/simulation.py:428-485 | From any reachable state in which the receiver has not stopped, as many clean exchanges as blocks are missing plus one complete the transfer |
| XmodemLine.FinishesExactlyWhenNotStopped | retrobridge/simulation.py:423-485 | From a reachable state some continuation completes the transfer if and only if it is complete or the receiver has not stopped |
| XmodemLine.ChanceIsLostExactlyByLastAck | retrobridge/simulation.py:448-452 | Of all exchanges, only an EOT whose acknowledgement is lost makes a transfer impossible to complete |
| XmodemLine.LostAckNeverFinishes | retrobridge/simulation.py:448-452 | A concrete run after which no exchanges ever let the sender finish |
| XmodemLine.SingleOctetDamageIsDetected | retrobridge/simulation.py:465-481 | A block with any single damaged octet is refused by one NAK and nothing is counted |
| XmodemLine.AlteredDataPassesExactlyWhenSumsAgree | retrobridge/simulation.py:470-478 | A block whose data alone was altered is accepted if and only if the data adds up to the same modulo 256 |
| XmodemLine.UndetectedDamageIsCounted | retrobridge/simulation.py:470-485 | The system then ends up with the altered block acknowledged and counted in place of the sent one |
| XmodemLine.ExchangedOctetsPass | retrobridge/simulation.py:470-478 | Two different data octets that trade places are such an alteration |
| JobEvents.Generate | retrobridge/api/routes.py:397-436 | The generator sends the messages of the stream function for every sequence of polls |
| JobEvents.SentIsAPrefixOfTheLog | retrobridge/api/routes.py:409-425 | At every point the text sent is a prefix of the append-only log |
| JobEvents.PollCompletesExactlyWhenReadable | retrobridge/api/routes.py:409-429 | The last poll completes the log if and only if it can read it or nothing is missing |
| JobEvents.DoneExactlyOnceAndLast | retrobridge/api/routes.py:427-433 | The stream closes at the first poll that sees a finished job or the lifetime limit, and "done" is its one last message |
| JobEvents.EveryChangeIsAnnounced | retrobridge/api/routes.py:404-407 | Every change of the polled status is announced once, in order, and nothing else is |
| JobEvents.EachPollEndsWithOneMessage | retrobridge/api/routes.py:427-435 | Each poll ends with one "done", with the status seen and whether it is the lifetime that ended, or one heartbeat |
| JobStore.Store.ClaimJob | worker.py:300-382 | After one recovery pass, a claim takes a job no eligible job precedes, for the first listed port with room; it takes none exactly when the device is missing or disabled, nothing is eligible, or every enabled job port is full |
| JobStore.Store.PickNext | worker.py:331-347 | The query yields nothing exactly when nothing is eligible, else a job that sorts first by priority and age |
| JobStore.Store.RecoverStaleJobs | worker.py:236-297 | The table after one recovery pass is the one the recovery lemmas describe |
| JobStore.Store.CreateJob | retrobridge/jobs/utils.py:176-259 | Refuses for the first failing check and then changes nothing; else adds one queued row |
| JobStore.Store.DecideCancel | retrobridge/jobs/utils.py:263-287 | Reply for every combination of owner, administrator, status and flag of the row as read |
| JobStore.Store.CommitCancel | retrobridge/jobs/utils.py:275-285 | Sets flag and status, or the flag alone, on the row as it is at the commit |
| JobStore.Store.Cancel | retrobridge/jobs/utils.py:262-287 | With nothing in between: reply and table, and no job is left queued and flagged that was not before |
| JobStore.Store.SweepOrphans | worker.py:659-670 | Exactly the flagged queued rows of the device become canceled |
| JobEffects.TierOnlyRaisesTheLimit | retrobridge/jobs/utils.py:136-156 | The limit is the user's own or the supporter tier's, and at least as high as either |
| JobEffects.RefusalNamesTheFirstCheck | retrobridge/jobs/utils.py:176-259 | A creation is accepted if and only if no check objects; each refusal names the first that does, counted on the rows themselves |
| JobEffects.CreateAddsAQueuedRow | retrobridge/jobs/utils.py:233-246 | One row is added: queued, unclaimed, unflagged, with the priority asked for and the time |
| JobEffects.NextIsHighestThenOldest | worker.py:331-347 | The claimed job is eligible, none eligible has a higher priority, and none of the same priority is older |
| JobEffects.ClaimNeedsARoomyPort | worker.py:308-347 | A claim is possible if and only if the device and the job port are enabled and fewer jobs run on the port than it may run |
| JobEffects.ClaimStartsTheJob | worker.py:348-358 | The job runs under the worker's claim for 300 seconds; no other row changes |
| JobEffects.OutcomeSetsTheStatus | worker.py:688-691 | An outcome sets one row's status and nothing else; a crash changes no row |
| JobEffects.RecoveryCancelsOrRequeues | worker.py:236-297 | If a flagged job's lease has ended, exactly those are canceled, otherwise exactly the jobs whose lease has ended are requeued; they lose their claim and nothing else |
| JobEffects.CancellationIsGrantedExactlyWhen | retrobridge/jobs/utils.py:263-287 | A cancellation is granted to the owner of a queued job and to an administrator of a queued or running one, once; each refusal has its condition on the row |
| JobEffects.ReadPlansExactlyWhatIsGranted | retrobridge/jobs/utils.py:263-285 | A cancellation's read leaves a write to commit if and only if it is granted |
| JobEffects.CommitWritesItsColumns | retrobridge/jobs/utils.py:275-285 | A commit writes flag and status, the flag or the status, and nothing else of the row as it is by then |
| JobEffects.SweepPicksExactlyTheOrphans | worker.py:659-670 | The sweep picks the queued, flagged jobs of its device and no others |
| JobEffects.EveryPlanHasAnOrigin | retrobridge/jobs/utils.py:262-287 | In every run, every write waiting to be committed was decided on by a read of somebody entitled to it, or by the sweep |
| JobEffects.FlaggedOnlyByThoseWhoMay | retrobridge/jobs/utils.py:267-285 | In every run, a job is flagged only if its owner or an administrator asked while it was queued, or an administrator while it ran |
| JobTable.NextExistsExactlyWhenEligible | worker.py:335-343 | There is a job to claim if and only if an eligible one exists |
| JobTable.RecoverTouchesOnly | worker.py:240-289 | A pass changes expired running rows of the device only, canceling flagged and requeueing unflagged ones with their claims cleared |
| JobTable.OnePassSufficesExactlyWhenNotMixed | worker.py:240-289 | One pass leaves no expired running job if and only if flagged and unflagged ones do not coexist |
| JobTable.OnePassLeavesAnExpiredJob | worker.py:240-266 | A table with a flagged and an unflagged expired job, of which one pass leaves the unflagged one running |
| JobTable.TwoPassesRecoverAll | worker.py:240-289 | Two passes at one instant recover every expired job and nothing else |
| JobRun.RunJobOnDevice | worker.py:385-609 | Every path leaves a finished status; canceled if and only if a look at the flag finds it set before anything broke, completed if and only if opening, commands, transfer and capture all went well and nobody asked to cancel |
| JobRun.FdWrite | worker.py:175-183 | Writes the data in order, as much as is taken before a write takes nothing, and returns if and only if that is all of it |
| JobRuns.ClaimJobIsARun | worker.py:300-377 | A successful claim is a recovery event followed by a claim event at one instant |
| JobRuns.LimitsHoldInEveryRun | worker.py:316-366 | In every interleaving of creations, claims, outcomes, crashes, recoveries, cancellation reads and late commits no port exceeds its capacity, no user the quota or, in any hour, the creation limit; queued rows carry no claim |
| JobRuns.CapacityStep | worker.py:326-347 | Every single transaction keeps every port within max_concurrent_jobs |
| JobRuns.QuotaStep | retrobridge/jobs/utils.py:136-156 | Every single transaction keeps every user's queued and running jobs within the limit |
| JobRuns.RateStep | retrobridge/jobs/utils.py:159-173 | Every single transaction keeps every closed hour within the hourly limit |
| JobRuns.RowsStep | worker.py:645-691 | No event but a claim makes a job run, none brings a finished job back to the queue, and a flag is never taken back |
| JobRuns.CancellationIsSticky | retrobridge/jobs/utils.py:276-285 | Once flagged, a job stays flagged and is never claimable again in any continuation |
| JobRuns.OrphanAppearsExactlyWhenFlaggedTooLate | retrobridge/jobs/utils.py:282-285 | A step makes a job queued and flagged if and only if it commits a cancellation that read the job as running and that finds it queued |
| JobRuns.OrphanLeavesExactlyBy | worker.py:659-670 | Such a job leaves the queue only by the sweep's commit or by a write by row id that was on its way already |
| JobRuns.NoOrphansExactlyWhenNoneFlaggedTooLate | worker.py:659-670 | A run never has such a job for the sweep to find if and only if no cancellation in it commits too late |
| JobOwnership.OwnershipIsLostExactlyWhenTaken | worker.py:236-297 | Of all events, only a recovery pass that touches the job of a live worker takes a job from its worker |
| JobOwnership.OwnershipHoldsExactlyWhenNoneTaken | worker.py:236-366 | Every live worker's own claim is on its job throughout a run if and only if no recovery in it touches the job of a live worker |
| JobOwnership.OwnershipIsExclusive | worker.py:331-366 | In every timely run no two live workers own one job, and each owner's own claim is on its job |
| JobOwnership.RunningIsLostExactlyWhen | worker.py:236-297 | Live workers keep jobs that are theirs and running, except when a recovery takes one or a late cancellation or sweep cancels one under its worker |
| JobOwnership.DriversAreBoundedInRuns | worker.py:316-366 | In every run without such an event no port is driven by more live workers than its max_concurrent_jobs |
| JobOwnership.FinishedChangesExactlyBy | worker.py:688-691 | A step changes a finished row if and only if a worker that has the job in memory reports another outcome, or a cancellation or sweep that read it earlier commits and is not already reflected |
| JobOwnership.FinishedIsFinalExactlyWhenSettled | worker.py:688-691 | A finished row is the same after every continuation if and only if nobody has the job in memory and no such commit is on its way |
| JobOwnership.FinishedIsFinal | worker.py:688-691 | In every timely run a job that completed or failed keeps its row in every continuation, unless a cancellation that read it earlier has still to commit |
| JobWitnesses.LapsedLeaseSharesTheJob | worker.py:547-552 | Without timely outcomes two workers run one job and the later outcome overwrites the earlier |
| JobWitnesses.LateCancellationOrphansTheJob | retrobridge/jobs/utils.py:282-285 | A run in which a cancellation commits after the requeue: the job is queued and flagged until the sweep cancels it |
| JobWitnesses.LateCancellationIsOverwritten | retrobridge/jobs/utils.py:276-280 | A run in which a cancellation that was granted on a queued job is overwritten by the outcome of the worker that claimed it meanwhile |
| JobWitnesses.LateCancellationDoublesAPort | retrobridge/jobs/utils.py:276-280 | A timely run, at one instant, that ends with two live workers on a port for one job |
| TerminalServer.Process.HandleRequestSession | retrobridge/terminal/events.py:58-186 | Answer and new state for resume, refusal, quota, port search and start, as the request function the theorems are about |
| TerminalServer.Process.FindPort | retrobridge/terminal/events.py:143-157 | The search stops at the first port without an unexpired lease; failed attempts leave no row behind |
| TerminalServer.Process.AcquirePortLease | retrobridge/terminal/utils.py:164-187 | After recovery the lease is taken exactly when the port has none |
| TerminalServer.Process.RecoverStaleLeases | retrobridge/terminal/utils.py:133-161 | The loop over expired leases, in whatever order, amounts to one simultaneous recovery |
| TerminalServer.Process.StartBridge | retrobridge/terminal/utils.py:439-513 | A bridge starts exactly when the socket has none and the line opens, with a fresh budget |
| TerminalServer.Process.SuspendBridge | retrobridge/terminal/utils.py:516-534 | The bridge moves to the suspended map under its session id |
| TerminalServer.Process.ResumeBridge | retrobridge/terminal/utils.py:537-574 | The bridge moves back with its start time shifted by the suspended time, or its session ends if the grace period is over |
| TerminalServer.Process.StopBridge | retrobridge/terminal/utils.py:676-709 | The bridge goes and its session ends |
| TerminalServer.Process.CheckTimeouts | retrobridge/terminal/utils.py:774-792 | Exactly the overdue bridges are stopped, each once, each for its own reason |
| TerminalServer.Process.CleanupSuspended | retrobridge/terminal/utils.py:629-648 | Exactly the bridges past the grace period are dropped |
| TerminalServer.Process.Restart | retrobridge/__init__.py:193-235 | A new process has no bridges, ends every active row with the reason server restart and deletes every lease |
| TerminalServer.Process.ForceDisconnectSession | retrobridge/terminal/utils.py:722-750 | Whatever bridge the session has goes, and the session ends even without one |
| TerminalServer.Process.HandleHeartbeat | retrobridge/terminal/events.py:199-219 | A live bridge counts as active and its lease, if still there, is extended |
| TerminalServer.Process.RemoveBridge | retrobridge/terminal/utils.py:427-436 | The session's one bridge goes, running or not; row and lease stay |
| TerminalServer.Process.CloseFailedLine | retrobridge/terminal/utils.py:396-414 | A failed line marks its bridge as not running and removes it; the session row and its lease are untouched |
| TerminalHandlers.CheckTimeoutsIsARun | retrobridge/terminal/utils.py:774-792 | Deciding for all bridges and then stopping the overdue ones is the same as that many single timeout events, each deciding afresh |
| TerminalHandlers.CleanupSuspendedIsARun | retrobridge/terminal/utils.py:629-648 | Likewise for the bridges past the grace period |
| TerminalHandlers.AnswerToReturningUser | retrobridge/terminal/events.py:87-116 | A user with an active session on the device is resumed if and only if its bridge is suspended within the grace period, and refused with nothing changed if and only if it has no suspended bridge |
| TerminalEffects.DroppedSocketLeavesItsBridgeWaiting | retrobridge/terminal/utils.py:516-534 | The dropped socket's bridge waits under its session with the time noted and its budgets as they were; nothing else changes |
| TerminalEffects.ReturningUserGetsTheBridgeBack | retrobridge/terminal/utils.py:537-574 | Within 600 seconds a returning user finds that session's bridge under the new socket, with the same port and budgets, active now, its start moved by the suspended time; nothing else changes |
| TerminalEffects.LateReturnEndsTheSession | retrobridge/terminal/events.py:107-116 | After that the request is as if the session had been cleaned up before |
| TerminalEffects.LeavingEndsTheSession | retrobridge/terminal/utils.py:676-709 | The bridge goes, its row ends with the reason and its lease goes; no other bridge, row or lease changes |
| TerminalEffects.MonitorStopsExactlyTheOverdue | retrobridge/terminal/utils.py:774-792 | A bridge is stopped if and only if it ran or idled for longer than it may, for the first reason that applies, and nothing else changes |
| TerminalEffects.CleanupEndsExactlyTheLate | retrobridge/terminal/utils.py:629-648 | A suspended session is ended if and only if more than 600 seconds have passed |
| TerminalEffects.AdministratorEndsAnySession | retrobridge/terminal/utils.py:722-750 | The session's bridge goes wherever it is, its row ends and its lease goes, with or without a bridge, and nothing else changes |
| TerminalEffects.FailedLineTakesOnlyTheBridge | retrobridge/terminal/utils.py:396-414 | The session's bridge goes wherever it is; every row and lease stays |
| TerminalEffects.RestartEndsEverySession | retrobridge/__init__.py:193-235 | No bridge and no lease is left, exactly the active rows end, for that reason |
| TerminalEffects.HeartbeatTouchesAndRenews | retrobridge/terminal/events.py:199-219 | The bridge is active now, its session's lease runs for 300 more seconds, and nothing else changes |
| TerminalEffects.TrafficTouches | retrobridge/terminal/utils.py:379-393 | Traffic counts as activity of the session's bridge, active or suspended, and renews no lease |
| TerminalEffects.RecoveryEndsExactlyTheLapsed | retrobridge/terminal/utils.py:133-161 | Exactly the lapsed leases go, and exactly the active rows end that held one and have no bridge |
| TerminalEffects.SearchTakesTheFirstPort | retrobridge/terminal/events.py:143-174 | The first port without a current lease gets the new row, a lease for 300 seconds and a bridge with the port's budgets or the defaults |
| TerminalEffects.SearchNotesAFailedLine | retrobridge/terminal/events.py:167-174 | If the line of that port does not open, an ended row is all that is added |
| TerminalEffects.SearchFindsNoPort | retrobridge/terminal/events.py:159-166 | If every port has a current lease, recovery is all that happens |
| TerminalEffects.ConnectedSocketIsRefused | retrobridge/terminal/events.py:79-85 | A request on a socket that already has a bridge is refused and changes nothing |
| TerminalEffects.NewcomerIsAdmittedExactlyWithinTheLimit | retrobridge/terminal/events.py:79-134 | A user without a session on the device is refused, with nothing changed, for a bridge on this socket or too many active sessions; otherwise the search decides |
| TerminalHandlers.FailedLineKeepsItsUserOut | retrobridge/terminal/events.py:87-116 | In every run, after the line of an active or suspended bridge fails and whatever happens next, its user is refused on the device, and nothing changes, as long as the row stays active |
| TerminalHandlers.GrantGetsFirstFreePort | retrobridge/terminal/events.py:143-157 | A granted session has the first listed port that no unexpired lease covers, and holds its lease |
| TerminalHandlers.HeartbeatRenewsItsOwnLease | retrobridge/terminal/utils.py:190-203 | A heartbeat gives its own session's lease a full term and no other lease, and creates none |
| TerminalTheorems.ConsistentInEveryRun | retrobridge/terminal/utils.py:439-750 | In every run each session has at most one bridge, keys match sockets and sessions, bridges run on active rows, leases belong to active rows, a user has one active session per device and never more than the limit |
| TerminalTheorems.ExclusiveInEveryTimelyRun | retrobridge/terminal/utils.py:133-213 | In every run with timely renewal each live bridge holds the one lease on its port |
| Terminal.ExclusiveMeansNoSharedPort | retrobridge/terminal/utils.py:164-187 | Then no two live bridges, active or suspended, share a port |
| TerminalPorts.ExclusiveIsLostExactlyWhenTaken | retrobridge/terminal/utils.py:133-213 | Of all events, only a request that searches for a port while a live bridge's lease has lapsed takes a live bridge's lease away |
| TerminalPorts.ExclusiveExactlyWhenNoLineIsTaken | retrobridge/terminal/events.py:143-157 | Every live bridge holds its lease throughout a run if and only if the run has no such request |
| TerminalPorts.PortIsSharedExactlyWhenGrantedOccupied | retrobridge/terminal/events.py:143-174 | Of all events, only a request granted a first free port that is occupied by a live bridge puts two live bridges on one port |
| TerminalPorts.PortsStayUnsharedExactlyWhenNoneGrantedOccupied | retrobridge/terminal/events.py:143-174 | No two live bridges share a port throughout a run if and only if no request in it is granted an occupied port |
| TerminalPorts.NoTwoBridgesShareAPort | retrobridge/terminal/utils.py:164-187 | In every timely run, and every run in which no request searches while a live bridge's lease has lapsed, no two live bridges share a port |
| TerminalPorts.BridgelessSessionEndsExactlyBy | retrobridge/terminal/utils.py:139-161 | A step ends an active session without a bridge if and only if it is an administrator's disconnect of it, a server restart, or a request that searches for a port after its lease has lapsed |
| TerminalPorts.StrandedUntilForced | retrobridge/terminal/utils.py:142-147 | A session with neither bridge nor lease stays active in every continuation without an administrator's disconnect of it or a restart |
| TerminalTheorems.StepKeepsConsistency | retrobridge/terminal/utils.py:516-750 | Every event keeps the maps consistent, and exclusive if leases are current |
| TerminalTheorems.StepKeepsRows | retrobridge/terminal/events.py:87-134 | Every event keeps one session per user and device and the session quota |
| TerminalRuns.RecoverKeepsExclusivityExactlyWhenTimely | retrobridge/terminal/utils.py:139-147 | Recovery keeps every live bridge's lease if and only if none has lapsed |
| TerminalRuns.RecoverKeeps | retrobridge/terminal/utils.py:133-161 | Recovery never ends a session this process drives and leaves no expired lease |
| TerminalRuns.NotOpenedSpendsOneRow | retrobridge/terminal/events.py:167-174 | A line that does not open leaves every lease as before |
| TerminalLapse.SuspendedBridgeLosesItsPort | retrobridge/terminal/utils.py:34-35 | A concrete run: a bridge suspended for 301 seconds shares its port with another user's |
| TerminalLapse.SuspendedLeaseIsNeverRenewed | retrobridge/terminal/utils.py:133-213 | In every run the lease of a suspended bridge expires at most 300 seconds after the suspension, and a recovery later than that takes it away |
| TerminalLapse.FailedLineStrandsItsSession | retrobridge/terminal/utils.py:396-414 | A concrete run that leaves a session active with neither bridge nor lease |
| TerminalTime.ActiveTimeIsConserved | retrobridge/terminal/utils.py:566-574 | In every run now - start_time of an active bridge is the total time it was active |
| TerminalTime.TimeoutExactlyWhenActiveTimeExceeds | retrobridge/terminal/utils.py:774-788 | "timeout" is reported if and only if active time exceeds max_runtime |

## Left out

- Flask routes, forms, templates, scripts, administration, configuration, mail, Patreon and backups: plumbing or easy
  filter-and-sort claims.
- Sockets, ptys, threads, `select` and wall clocks appear as scripts of results and a clock reading per step.
- UTF-8 decoding; in the tail reader only the dropped first piece can decode differently, and in the event stream a
  character cut by a poll boundary becomes replacement characters.
- JobEvents.Generate: the stream opens the log in text mode, which translates line ends; the model sends octets. A poll
  is atomic, so asking for as many characters as there are new octets reaches the end of the log.
- Telnet.Negotiate: a failing answer is modelled where the connection is opened, not inside the loop.
- SocketWrapper: `close` and reads after it, and the names and descriptors of sockets.
- RateLimit: choosing limits and client addresses, and SQLite errors, which propagate to the caller.
- XmodemLine.AcceptedIsAPrefix: the leading octet arrives alone and undamaged or not at all, since the receiver takes
  the first octet of whatever it reads as a block start; CRC frames and the lenient receiver are not part of this model.
- Xmodem.StrictReceive: the text the simulated program prints after EOT, and the loop around the receiver, which starts
  a new one only on a line end; a sender that repeats EOT sends none.
- JobRun.RunJobOnDevice: log text, timing and the XMODEM library; a failure before the first check (creating the output
  directory) is the crash event.
- JobStore.Store.CreateJob: file validation and upload size are one verdict, and row ids are supplied.
- JobRuns: deleting jobs, users, devices or ports is not an event. An administrator's bulk cancellation is that many
  reads and commits.
- TerminalServer.Process.HandleRequestSession: authentication, maintenance mode and device lookup come first and change
  nothing; bridges owned by another server process are not part of this model.
- TerminalServer.Process.Restart: a cleanup that meets a database error is logged and skipped by the code; here it
  succeeds.
- TerminalServer: a bridge is a value in its map, so the reader thread's shared reference to it is not captured; serial
  data, session logs, byte counters and the bridge registry columns are omitted.

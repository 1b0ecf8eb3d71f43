# pam-certauth, verified

A Dafny model of the parts of pam-certauth with the most state, branching and arithmetic, and proofs of what they guarantee:

- **The monitor daemon.** `Registry` models the active-session registry (a map by session id and a reverse index by uid). `Monitor` models the state manager and the grace timers it spawns as a transition system, `MonitorRuns`, `MonitorHistory`, `SuspendHistory` and `SessionHistory` prove properties of whole runs of it, restarts included, and `StateManager` models the event handlers as a class whose methods are proved to take exactly the transitions of `Monitor`.
- **The audit rate limiter.** `RateLimiter` compares the 256-entry cache with the unbounded limiter it stands for.
- **Byte streams.** `PipeReader` models the capture of hook output, `Frames` the newline-delimited wire format and the server's bounded reader, `Label` the DER codec of integrity labels, `PemCount` the marker count of a trust file.
- **The credential search.** `CandidateSearch` models the loop over USB partitions with its mount guards.
- **Hooks.** `Template` models the placeholder parser and renderer, `HookEnv` the validation of a hook and the building of its environment (`HookExports` says what each variable holds), `HookWait` the supervision of its process.
- **Time stamps.** `Calendar` models the conversion of epoch seconds to a UTC date, `Stamp` the compact text stamp made of it.

Code that updates fields or loops is a class or a method here, proved against a specification function; the theorems are about those functions. `dafny verify dfyconfig.toml` checks everything.

## How the environment appears

- Clock readings, the answer of the udev presence query, the answers of `waitpid` and `killpg`, the outcome of mounting, probing, unmounting and removing, the lossy decoding of log text, and whether a message body deserialises are parameters. The sleeps between polls have no effect of their own.
- Choices the code leaves open (the iteration order of a hash map, which of several equally old cache entries goes) are resolved by the transition's label, so every theorem holds for each choice.
- A run is a sequence of states with the labels between them. A timer's `select!` is one transition: it fires once due, or notices its cancellation; a cancelled token does not fire.
- Between events the daemon's file equals its registry: persisting is taken to succeed, and a restart happens at an event boundary. `opened_at` is a number of seconds.

## What turned out not to hold as one might expect

- `epoch_to_utc` truncates the year to 32 bits: it is exact if and only if the second is below 67767976233532800 (`YearFits`, `EpochToUtcIsExact`, `EpochToUtcOverflows`).
- Compact stamps sort like instants exactly up to the end of the year 9999 (`StampsSortExactlyBefore10000`).
- Loading a snapshot does not look for stale uid entries: the index is sound exactly for the settled listings (`RestoreSoundExactly`). The daemon only writes such listings (`RestoreInverts`). A file with two different sessions under one id starts it outside the invariant (`InitialInv`).
- A restart forgets a suspend, so removals in the middle of it are acted on (`RestartForgetsSuspend`).
- A grace timer keeps the sessions bound at the removal. Closing a session does not stop its dispatch, and the token stays after the timer fired, so a second removal without a plug in between starts nothing (`OneBatchPerRemoval`, `RemovalsActedOn`).
- "One audit record a minute" fails (`FloodReadmits`): if no other fingerprint was admitted at the very instant of the last admission, a repeat is let through exactly when 256 others were admitted since (`ReadmissionExactly`).
- `crates/pam_certauth_proto/src/wire.rs:9` says that the frame limit excludes the newline; the server's reader counts it. A body of exactly the limit is encoded but not read back (`RoundTripExactly`). The model follows the code.
- The label decoder ignores how many unused bits a BIT STRING declares (`UnusedBitsAreIgnored`).
- A failed mount leaves its directory behind (`OutstandingExactly`), and mount points repeat after 2^32 attempts (`AttemptsReuseExactly`).
- The environment read back from its entries is the one built exactly when no key of the hook holds `=` (`ChildReadsBack`).

## Model

| member | source | states |
|---|---|---|
| `Registry.ReplaySound` | crates/pam_certauth_cli/src/registry.rs:112-183 | after any sequence of additions, removals and retargetings every index entry points at a tracked session with that nonzero uid |
| `Registry.IndexIsHistory` | crates/pam_certauth_cli/src/registry.rs:112-143 | the index maps a uid to a session if and only if that session was the last one added under the uid and was since neither removed nor added again |
| `Registry.SessionsAreHistory` | crates/pam_certauth_cli/src/registry.rs:112-183 | a session is tracked if and only if its last addition was not undone, and it is that addition with the last target pushed since |
| `Registry.RestoreDistinct` | crates/pam_certauth_cli/src/registry.rs:98-109 | loading sessions with distinct ids tracks exactly those, with a sound index that has an entry for every nonzero uid |
| `Registry.RestoreInverts` | crates/pam_certauth_cli/src/registry.rs:98-109 | loading any listing of a registry's sessions gives the same sessions back |
| `Registry.RestoreSoundExactly` | crates/pam_certauth_cli/src/registry.rs:98-109 | the loaded index is sound if and only if no session that is last for its uid is replaced under its id by one of another uid |
| `Registry.RestoreKeepsExactly` | crates/pam_certauth_cli/src/registry.rs:98-109 | loading keeps all listed sessions if and only if entries that share an id are the same session |
| `Registry.RestoreIndexExactly` | crates/pam_certauth_cli/src/registry.rs:98-109 | after loading a uid is indexed with a session if and only if that is the last listed one with the uid |
| `Registry.RepeatedIdIsUnsound` | crates/pam_certauth_cli/src/registry.rs:98-109 | a two-element listing for which a lookup by the old uid hits a session of another uid |
| `Registry.SessionRegistry.FromSnapshot` | crates/pam_certauth_cli/src/registry.rs:98-109 | the loop computes the specified load of any listing, and starts a valid registry if and only if the listing is settled |
| `Registry.SessionRegistry.AddSession` | crates/pam_certauth_cli/src/registry.rs:112-133 | extends the history by the addition, displacing the session's former uid entry; keeps the maps equal to the replayed history |
| `Registry.SessionRegistry.RemoveSession` | crates/pam_certauth_cli/src/registry.rs:136-143 | extends the history by the removal, returns the removed session or none |
| `Registry.SessionRegistry.SetTarget` | crates/pam_certauth_cli/src/registry.rs:170-183 | extends the history by the retargeting; reports whether the session was tracked; never creates one |
| `Registry.SessionRegistry.FindByUid` | crates/pam_certauth_cli/src/registry.rs:188-195 | returns the indexed session; a hit is tracked, has that nonzero uid and is the session the history gives; a miss if and only if the history gives none |
| `Registry.SessionRegistry.FindBySerial` | crates/pam_certauth_cli/src/registry.rs:198-206 | lists exactly the sessions bound to the serial, each once |
| `Registry.SessionRegistry.Snapshot` | crates/pam_certauth_cli/src/registry.rs:210-212 | lists exactly the tracked sessions, each once |
| `Monitor.StepKeepsInv` | crates/pam_certauth_cli/src/state.rs:230-428 | every event keeps the registry sound, the file equal to it, and tokens and live timers in one-to-one agreement |
| `Monitor.RunKeepsInv` | crates/pam_certauth_cli/src/state.rs:186-207 | the invariant holds in every state of every run, across restarts |
| `Monitor.InitialInv` | crates/pam_certauth_cli/src/daemon/mod.rs:194-196 | the daemon starts in the invariant if and only if its file lists no two different sessions under one id |
| `Monitor.DisarmAllKeepsTokens` | crates/pam_certauth_cli/src/state.rs:400-402 | draining the tokens leaves no live timer and keeps the agreement |
| `SuspendHistory.ClockIsHistory` | crates/pam_certauth_cli/src/state.rs:60-70 | in every run the clock is that of the start plus the time that passed |
| `SuspendHistory.SuspendIsHistory` | crates/pam_certauth_cli/src/state.rs:396-406 | in every run the suspend state is the one that the last suspend, resume or restart gives, with its instant |
| `SuspendHistory.AttentiveExactly` | crates/pam_certauth_cli/src/state.rs:60-70 | removals count if and only if the last word on sleep is a restart, or a resume at least the suspend grace ago, from labels and clock readings |
| `SessionHistory.TrackedIsHistory` | crates/pam_certauth_cli/src/state.rs:262-325 | in every run a session is tracked, and in the file, if and only if its last accepted opening or its listing at the start was not ended since, and it is that session with the last target pushed since |
| `MonitorRuns.OneLiveTimerPerSerial` | crates/pam_certauth_cli/src/state.rs:352-357 | in every reachable state a serial has at most one live timer, the one its stored token names |
| `MonitorRuns.RestartRestores` | crates/pam_certauth_cli/src/daemon/mod.rs:194-196 | at every point of every run the file holds the registry's sessions, and a restart there tracks the same sessions under a sound index with every nonzero uid |
| `MonitorRuns.SessionsWereOpened` | crates/pam_certauth_cli/src/state.rs:262-278 | in every run a tracked session was there at the start or was opened while its device was present, and only its target can have changed |
| `MonitorRuns.ClosingIsExact` | crates/pam_certauth_cli/src/state.rs:279-426 | closing a session, or the end of its logind session, removes exactly the sessions it names |
| `MonitorRuns.UnplugStartsTimer` | crates/pam_certauth_cli/src/state.rs:339-378 | a removal starts a timer for exactly the bound sessions, due after the grace period, if and only if there is no suspend, the suspend grace is over, sessions exist and no token is pending; otherwise nothing changes |
| `MonitorRuns.SuspendSilencesTimers` | crates/pam_certauth_cli/src/state.rs:396-406 | from a suspend until the suspend grace after its resume, whatever arrives, no timer is live and nothing is dispatched |
| `MonitorRuns.RestartForgetsSuspend` | crates/pam_certauth_cli/src/state.rs:187-188 | after a restart a removal starts a timer if and only if the serial has sessions, whatever the suspend state was |
| `MonitorRuns.ShutDownSilencesTimers` | crates/pam_certauth_cli/src/state.rs:203-205 | from a shutdown until a restart no timer is live and nothing is dispatched |
| `MonitorRuns.OneBatchPerRemoval` | crates/pam_certauth_cli/src/state.rs:348-383 | after a removal that starts a timer, until a plug, suspend, shutdown or restart, either the timer is pending and its serial dispatched nothing, or it fired once, when due, and dispatched exactly one request per session bound at the removal |
| `MonitorRuns.DispatchesHaveOrigins` | crates/pam_certauth_cli/src/state.rs:339-378 | in every run each dispatch goes back to an earlier removal, while removals counted, of the serial that its tracked session was bound to, at least the grace period before |
| `MonitorRuns.CallsHaveOrigins` | crates/pam_certauth_cli/src/actions.rs:39-57 | each lock or terminate call names the logind target of a session with such an origin |
| `MonitorRuns.CallsPerRemoval` | crates/pam_certauth_cli/src/actions.rs:39-75 | the calls made for a serial between a removal that starts a timer and the next interruption are the configured action on each session bound at the removal, once each, if the timer fired, and none otherwise |
| `MonitorRuns.CallsObeyPolicy` | crates/pam_certauth_cli/src/actions.rs:39-75 | once the timer of a removal has fired, the new calls are one per session bound at it: under Lock exactly a lock of the logind session it is on, if any, and under Logout a termination; the hook with its path; or a power-off |
| `MonitorHistory.TokensAreHistory` | crates/pam_certauth_cli/src/state.rs:348-383 | in every run a serial has a token if and only if an unplug of it found sessions while removals counted, and no plug, suspend, shutdown or restart came since, from labels and clock readings |
| `MonitorHistory.LiveUntilFired` | crates/pam_certauth_cli/src/state.rs:356-377 | the timer of a held token is live if and only if it has not fired |
| `MonitorHistory.RemovalsActedOn` | crates/pam_certauth_cli/src/state.rs:339-378 | a removal that finds sessions outside the suspend window starts their timer if and only if no earlier such removal is outstanding; otherwise it is dropped, even if the earlier timer has fired |
| `MonitorHistory.ResumeEndsSilence` | crates/pam_certauth_cli/src/state.rs:404-406 | a removal that finds sessions, no sooner than the suspend grace after the last resume and with no suspend since, leaves its serial with a token |
| `MonitorHistory.NoRemovalNoCalls` | crates/pam_certauth_cli/src/state.rs:339-378 | for a serial without a token nothing is dispatched until a removal of it finds sessions |
| `MonitorHistory.LookupsAreHistory` | crates/pam_certauth_cli/src/state.rs:246-261 | over whole runs, logind removals and restarts included, a uid lookup finds a session if and only if it holds the last claim on the uid that was not ended since |
| `MonitorHistory.LookupsAreSound` | crates/pam_certauth_cli/src/state.rs:246-261 | what a lookup finds in any run is tracked and has that nonzero uid |
| `StateManager.Manager.constructor` | crates/pam_certauth_cli/src/state.rs:186-188 | starts in the initial state over any loaded listing; the invariant holds if and only if the listing has no two different sessions under one id |
| `StateManager.Manager.Persist` | crates/pam_certauth_cli/src/state.rs:212-228 | the file then holds exactly the registry's sessions |
| `StateManager.Manager.HandleIpc` | crates/pam_certauth_cli/src/state.rs:230-328 | takes the IPC transition, keeps the invariant, and replies as the request and the presence of the device demand; a lookup gives five fields of the session indexed for the uid, or reports none |
| `StateManager.Manager.HandleUdev` | crates/pam_certauth_cli/src/state.rs:330-386 | takes the udev transition for some listing of the bound sessions and keeps the invariant |
| `StateManager.Manager.HandlePrepareForSleep` | crates/pam_certauth_cli/src/state.rs:396-406 | takes the suspend or resume transition and keeps the invariant |
| `StateManager.Manager.HandleSessionRemoved` | crates/pam_certauth_cli/src/state.rs:407-426 | the removal loop takes the transition that drops all sessions of the logind id at once |
| `StateManager.Manager.TimerExpires` | crates/pam_certauth_cli/src/state.rs:362-377 | the dispatch loop of a due timer takes the firing transition |
| `StateManager.Manager.StopLoop` | crates/pam_certauth_cli/src/state.rs:203-205 | draining all tokens takes the shutdown transition |
| `RateLimiter.CacheIsBounded` | crates/pam_certauth_core/src/mac/audit.rs:226-249 | in every history the cache holds at most 256 entries |
| `RateLimiter.EntriesAreAdmissions` | crates/pam_certauth_core/src/mac/audit.rs:247-248 | every entry is an earlier admission of that fingerprint at that time |
| `RateLimiter.SuppressionIsJustified` | crates/pam_certauth_core/src/mac/audit.rs:235-239 | a suppressed call repeats a fingerprint admitted less than a minute before |
| `RateLimiter.ReadmissionNeedsCrowd` | crates/pam_certauth_core/src/mac/audit.rs:241-245 | two admissions of a fingerprint within a minute have at least 256 others admitted in between |
| `RateLimiter.CrowdReadmits` | crates/pam_certauth_core/src/mac/audit.rs:241-245 | once 256 others were admitted strictly later, a repeat is admitted |
| `RateLimiter.ReadmissionExactly` | crates/pam_certauth_core/src/mac/audit.rs:226-249 | with no other fingerprint admitted at the very instant of the last admission, a repeat within a minute is admitted if and only if 256 others were admitted since |
| `RateLimiter.FloodReadmits` | crates/pam_certauth_core/src/mac/audit.rs:226-249 | a run of 258 calls within a microsecond in which one fingerprint is admitted twice |
| `RateLimiter.AgreesWithUnbounded` | crates/pam_certauth_core/src/mac/audit.rs:226-249 | if no minute has more than 256 admissions by a limiter with unbounded memory, both give the same answers |
| `RateLimiter.ParseFailLimiter.ShouldEmit` | crates/pam_certauth_core/src/mac/audit.rs:226-249 | each call takes a step of the specified limiter, evicting some oldest entry of a full cache |
| `RateLimiter.ParseFailLimiter.OldestKey` | crates/pam_certauth_core/src/mac/audit.rs:242 | the scan finds an entry no other is older than |
| `PipeReader.SplitRebuilds` | crates/pam_certauth_core/src/hooks/pipe_reader.rs:193-200 | the newline split loses no byte and its parts hold no newline |
| `PipeReader.SplitIsUnique` | crates/pam_certauth_core/src/hooks/pipe_reader.rs:193-200 | it is the only such split |
| `PipeReader.CapturedRejoins` | crates/pam_certauth_core/src/hooks/pipe_reader.rs:169-218 | the captured lines with their newlines are the whole output if it is at most 1 MiB, and otherwise its first 1 MiB but for an unterminated end |
| `PipeReader.LoggedLine` | crates/pam_certauth_core/src/hooks/pipe_reader.rs:225-260 | standard output is logged as information and standard error as a warning; a line of more than 4096 bytes is cut and says so |
| `PipeReader.Reader.EmitLine` | crates/pam_certauth_core/src/hooks/pipe_reader.rs:225-260 | logs the lossy text of the first 4096 bytes of a line, with the truncation marker if some were cut, at the level of its stream, and counts it |
| `PipeReader.Reader.ProcessChunk` | crates/pam_certauth_core/src/hooks/pipe_reader.rs:179-218 | the reader's fields depend on the bytes read so far only, however they were cut into chunks |
| `PipeReader.Reader.ReadAvailable` | crates/pam_certauth_core/src/hooks/pipe_reader.rs:142-153 | one read extends the stream by its bytes and reports their number; no data and no-data-yet are both zero |
| `PipeReader.Reader.Drain` | crates/pam_certauth_core/src/hooks/pipe_reader.rs:169-177 | in the end the log is the newline split of the first bytes up to the cap, with a nonempty unterminated tail if and only if the output is within the cap; a failed read changes nothing |
| `Frames.EncodesExactly` | crates/pam_certauth_proto/src/wire.rs:39-51 | a body is encoded if and only if it holds no newline and at most 64 KiB, as itself and one newline |
| `Frames.DecodeBytes` | crates/pam_certauth_proto/src/wire.rs:75-84 | rejects an oversize frame, otherwise trims it |
| `Frames.TrimIsMaximal` | crates/pam_certauth_proto/src/wire.rs:75-84 | trimming removes line ends only, and all trailing ones |
| `Frames.ReadFrameConserves` | crates/pam_certauth_cli/src/server.rs:192-222 | one read takes a frame within the limit and without inner newline off the front of the input; only an oversize one drops a byte |
| `Frames.ReadLoopConserves` | crates/pam_certauth_cli/src/server.rs:307-371 | for every input the frames read, at most one dropped byte and the unread rest make up the input, and the bodies are the trimmed frames |
| `Frames.RoundTrip` | crates/pam_certauth_proto/src/wire.rs:39-51 | reading the concatenated encodings of any bodies that survive the wire returns them in order, then the end of file |
| `Frames.RoundTripExactly` | crates/pam_certauth_proto/src/wire.rs:39-51 | an encoded body comes back as sent if and only if it is shorter than the limit, does not end in a carriage return and deserialises |
| `Frames.Connection.ReadFrameBounded` | crates/pam_certauth_cli/src/server.rs:192-222 | the byte loop computes the specified read and terminates |
| `Frames.Connection.Serve` | crates/pam_certauth_cli/src/server.rs:307-371 | the loop computes the specified sequence of bodies, reason for closing and unread rest |
| `Label.AcceptsExactly` | crates/pam_certauth_core/src/mac/label.rs:117-182 | the decoder accepts exactly the byte strings of the stated grammar, with exactly that meaning; the level is the two's complement of its byte (section 8.3 of X.690) |
| `Label.DecodedBytes` | crates/pam_certauth_core/src/mac/label.rs:142-175 | in every accepted byte string the content byte is congruent to the level modulo 256 and the payload is the categories byte for byte |
| `Label.OutOfRangeExactly` | crates/pam_certauth_core/src/mac/label.rs:117-141 | the level is called out of range if and only if a well-framed SEQUENCE starts with an INTEGER of more than one byte |
| `Label.EncoderNeverFails` | crates/pam_certauth_core/src/mac/label.rs:81-110 | encoding succeeds for every label |
| `Label.EncodesAs` | crates/pam_certauth_core/src/mac/label.rs:81-110 | the encoding spells out the label with no unused bits and no leading zero byte |
| `Label.DecodeInvertsEncode` | crates/pam_certauth_core/src/mac/label.rs:81-182 | every label survives encoding and decoding |
| `Label.EncodingIsCanonical` | crates/pam_certauth_core/src/mac/label.rs:81-182 | re-encoding keeps the meaning; among accepted encodings with a BIT STRING it is the shortest, and the only one of its length without unused bits |
| `Label.UnusedBitsAreIgnored` | crates/pam_certauth_core/src/mac/label.rs:165-175 | changing the declared number of unused bits never changes the decoded label |
| `PemCount.Count` | crates/pam_certauth_cli/src/startup_check/trust.rs:87-101 | the scan finds the maximum number of disjoint occurrences, for any nonempty needle |
| `PemCount.CountPemBlocks` | crates/pam_certauth_cli/src/startup_check/trust.rs:87-101 | the same for the certificate marker |
| `PemCount.MarkerText` | crates/pam_certauth_cli/src/startup_check/trust.rs:87-101 | the marker is the PEM certificate header in ASCII |
| `CandidateSearch.VerdictWhenStopped` | crates/pam_certauth/src/flow.rs:485-578 | candidate i is bound if and only if it has a valid envelope and only skippable ones come before; a mount or probe failure there aborts with its error |
| `CandidateSearch.VerdictWhenExhausted` | crates/pam_certauth/src/flow.rs:566-578 | if all candidates are skipped, an envelope error is reported if and only if one occurred, and then the last; otherwise the last missing file, or the pattern |
| `CandidateSearch.SearchOneAtATime` | crates/pam_certauth/src/flow.rs:499-565 | for every candidate list, before a mount everything mounted earlier was to be unmounted and then removed, and so was everything but a bound mount in the end |
| `CandidateSearch.OutstandingExactly` | crates/pam_certauth/src/flow.rs:485-578 | a device is left mounted if and only if it was bound or its last unmount failed or it was there before and not tried; a directory likewise, or if mounting on it failed |
| `CandidateSearch.CleanSearch` | crates/pam_certauth/src/flow.rs:485-578 | where unmounting works and nothing was mounted, exactly the bound mount is outstanding on success and none on any error |
| `CandidateSearch.PathsDiffer` | crates/pam_certauth/src/flow.rs:1283-1293 | two counter values give the same mount point if and only if they are equal |
| `CandidateSearch.AttemptsReuseExactly` | crates/pam_certauth/src/flow.rs:1283-1293 | two attempts share a mount point if and only if they are a multiple of 2^32 apart |
| `CandidateSearch.MountPointText` | crates/pam_certauth/src/flow.rs:1283-1293 | the mount point is named by the bare session id at first and then with the counter in decimal, which reads back |
| `CandidateSearch.FlowIo.Mount` | crates/pam_certauth/src/flow.rs:1283-1301 | mounts at the next mount point, or fails with nothing more mounted; a failed mount keeps its directory |
| `CandidateSearch.MountGuard.Adopt` | crates/pam_certauth_core/src/mount_guard.rs:71-77 | the guard owns the mount |
| `CandidateSearch.MountGuard.Drop` | crates/pam_certauth_core/src/mount_guard.rs:112-123 | unmounts first, then removes the directory, going on whether or not either works |
| `CandidateSearch.Try` | crates/pam_certauth/src/flow.rs:499-564 | one attempt binds, skips or aborts as its outcome says, and leaves what the specification of that attempt says |
| `CandidateSearch.Search` | crates/pam_certauth/src/flow.rs:485-578 | from whatever was mounted before, the loop returns the specified verdict and leaves the mounts, directories and trace the specification gives |
| `Template.Parse` | crates/pam_certauth_core/src/hooks/placeholder.rs:71-116 | the character loop computes the specified parse |
| `Template.ReadPlaceholder` | crates/pam_certauth_core/src/hooks/placeholder.rs:90-107 | reads the name up to the closing brace, or fails as specified |
| `Template.Render` | crates/pam_certauth_core/src/hooks/placeholder.rs:124-140 | the loop computes the specified rendering, and stops at the first unresolved variable |
| `Template.RenderIsConcat` | crates/pam_certauth_core/src/hooks/placeholder.rs:124-140 | rendering succeeds if and only if every variable has a value, and then gives the literals and values one after the other |
| `Template.RenderParsed` | crates/pam_certauth_core/src/hooks/placeholder.rs:71-140 | from text to text: a template of legal tokens renders if and only if its placeholders have values, to its characters, one dollar per doubled one, and the values, in order |
| `Template.ParseIsNormal` | crates/pam_certauth_core/src/hooks/placeholder.rs:71-116 | whatever parses is in normal form: no two literals in a row, an empty literal only alone |
| `Template.ParseInvertsPrint` | crates/pam_certauth_core/src/hooks/placeholder.rs:71-116 | printing any normal template and parsing it gives it back |
| `Template.EscapedRendersBack` | crates/pam_certauth_core/src/hooks/placeholder.rs:71-140 | any text with its dollar signs doubled parses and renders to itself |
| `Template.ParsesExactly` | crates/pam_certauth_core/src/hooks/placeholder.rs:71-116 | any text parses to a template if and only if it is a sequence of plain characters, doubled dollars and known placeholders with that meaning, and the template is in normal form |
| `Template.FailsExactly` | crates/pam_certauth_core/src/hooks/placeholder.rs:71-116 | any text fails with an error if and only if such a sequence leads up to a placeholder that is unclosed, empty or unknown, as the error says |
| `HookEnv.ValidateHook` | crates/pam_certauth_core/src/hooks/validator.rs:67-107 | an accepted hook has an absolute command, a timeout of 1 to 120 seconds and templates that parse and use only variables its stage offers; a refused one gets its first fault |
| `HookEnv.AcceptedOrRejected` | crates/pam_certauth_core/src/hooks/validator.rs:67-107 | no hook is both acceptable and refusable, so validation accepts exactly the acceptable ones |
| `HookEnv.AcceptedOnce` | crates/pam_certauth_core/src/hooks/validator.rs:67-107 | a hook is accepted in one way only |
| `HookEnv.CheckTemplate` | crates/pam_certauth_core/src/hooks/validator.rs:81-93 | accepts a text that parses with all its variables offered by the stage; otherwise reports the parse error or the first variable not offered |
| `HookEnv.AllowedExactly` | crates/pam_certauth_core/src/hooks/validator.rs:48-64 | a stage allows a variable if and only if its values have a place for it |
| `HookEnv.FailureModes` | crates/pam_certauth_core/src/hooks/validator.rs:109-115 | which setting gives which failure mode at which stage |
| `HookEnv.PreAuthAlwaysResolves` | crates/pam_certauth_core/src/hooks/vars.rs:134-148 | a hook accepted for pre-auth never fails there for want of a value when its environment is built |
| `HookEnv.SessionResolvesAllButOptional` | crates/pam_certauth_core/src/hooks/vars.rs:172-194 | at the session stages rendering fails if and only if an entry uses a certificate or USB value that is missing, and names the first |
| `HookEnv.RenderAllFailsOnMissing` | crates/pam_certauth_core/src/hooks/env.rs:97-109 | rendering fails if and only if some entry uses a variable without a value, and names the first |
| `HookEnv.BuildEnvVector` | crates/pam_certauth_core/src/hooks/env.rs:34-131 | one entry for each key, in the order of the keys, none with a control character; or the first unresolved variable, or the error of the first key at fault |
| `Text.TextLessMeans` | crates/pam_certauth_core/src/hooks/env.rs:116-117 | the order in which keys are gone through is that of the first difference, a proper prefix first |
| `HookEnv.ForbiddenControl` | crates/pam_certauth_core/src/hooks/env.rs:137-151 | a reason is given if and only if some character is a control character, and it is that of the first |
| `HookEnv.LastWriterWins` | crates/pam_certauth_core/src/hooks/env.rs:46-108 | a key is in the environment if and only if it was written, and then with its last value, so custom entries override fixed ones |
| `HookExports.ExportsAgreeWithPlaceholders` | crates/pam_certauth_core/src/hooks/env.rs:46-95 | unless overridden, each exported variable in the vector holds what its placeholder renders to, and is empty where that has no value |
| `HookExports.ExportsAreNamedAfterPlaceholders` | crates/pam_certauth_core/src/hooks/env.rs:55-95 | each exported variable is named after its placeholder, in upper case |
| `HookExports.PreAuthEnvironment` | crates/pam_certauth_core/src/hooks/env.rs:34-131 | what the vector holds under each fixed key before authentication, in terms of the caller's arguments |
| `HookExports.SessionEnvironment` | crates/pam_certauth_core/src/hooks/env.rs:34-131 | the same for the later stages, in terms of the stored context |
| `HookExports.CustomExport` | crates/pam_certauth_core/src/hooks/env.rs:97-131 | each key the hook sets holds the text of its last template for it |
| `HookEnv.SplitRecovers` | crates/pam_certauth_core/src/hooks/env.rs:124 | splitting an entry at its first `=` recovers key and value if and only if the key holds none |
| `HookEnv.ChildReadsBack` | crates/pam_certauth_core/src/hooks/env.rs:46-131 | what is read back from the whole vector is the map of last writers if and only if no key of the hook holds `=` |
| `HookWait.SafeMeans` | crates/pam_certauth_core/src/hooks/wait.rs:82-166 | in a safe trace each signal goes out at most once, SIGTERM before SIGKILL, and none after the child was reaped |
| `HookWait.RunsAreSafe` | crates/pam_certauth_core/src/hooks/wait.rs:82-166 | in every run of the protocol signals go out only after their deadlines and before any reap, and whenever due; a verdict agrees with what happened, and reports a timeout if and only if SIGTERM was sent |
| `HookWait.OneRun` | crates/pam_certauth_core/src/hooks/wait.rs:82-166 | the system's answers determine the run: two complete runs on the same answers are equal, verdict included |
| `HookWait.WaitWithTimeout` | crates/pam_certauth_core/src/hooks/wait.rs:82-112 | against any answers of the system: the calls made and answers used are those of the protocol, the verdict is the one it ends with, and the supervisor only falls silent where the very answer it asks for is missing |
| `HookWait.Escalate` | crates/pam_certauth_core/src/hooks/wait.rs:114-143 | the same from the passed deadline on |
| `HookWait.ForceKill` | crates/pam_certauth_core/src/hooks/wait.rs:145-149 | the same from the second deadline on |
| `HookWait.ReapBlocking` | crates/pam_certauth_core/src/hooks/wait.rs:151-165 | the same after SIGKILL, retrying interrupted waits |
| `Calendar.CivilRanges` | crates/pam_certauth_cli/src/dump_host_id.rs:291-308 | every intermediate value is in its range and no step leaves 64 bits |
| `Calendar.CivilDate` | crates/pam_certauth_cli/src/dump_host_id.rs:291-308 | for every day number the date is real, and adding up year and month lengths gives the day number back |
| `Calendar.YearFits` | crates/pam_certauth_cli/src/dump_host_id.rs:291-308 | the year fits 32 bits if and only if the second is below the overflow second |
| `Calendar.EpochToUtcIsExact` | crates/pam_certauth_cli/src/dump_host_id.rs:291-308 | below it the result is valid and counting its seconds gives the input back |
| `Calendar.EpochToUtcWraps` | crates/pam_certauth_cli/src/dump_host_id.rs:291-308 | for every second the result is the real date and time but for the year, which is the real one modulo 2^32 |
| `Calendar.EpochToUtcOverflows` | crates/pam_certauth_cli/src/dump_host_id.rs:291-308 | from it on the year comes out wrong |
| `Calendar.EpochToUtcIsMonotone` | crates/pam_certauth_cli/src/dump_host_id.rs:291-308 | later instants give later dates, and only those |
| `Calendar.EpochToUtcIsOnto` | crates/pam_certauth_cli/src/dump_host_id.rs:291-308 | every valid date and time is the result for its count of seconds |
| `Stamp.StampsSortLikeInstants` | crates/pam_certauth_cli/src/dump_host_id.rs:266-272 | stamps of equal length sort as text in the order of the instants |
| `Stamp.StampsSortExactlyBefore10000` | crates/pam_certauth_cli/src/dump_host_id.rs:266-272 | all stamps below a bound sort so if and only if the bound is no later than the year 10000 |
| `Stamp.StampHasSixteenCharacters` | crates/pam_certauth_cli/src/dump_host_id.rs:266-272 | a stamp has sixteen characters if and only if its year is at most 9999 |
| `Stamp.StampReadsBack` | crates/pam_certauth_cli/src/dump_host_id.rs:266-272 | every stamp reads back as the date and time it was made of, with `T` and `Z` in their places |
| `Stamp.StampOrderBreaksAtYear10000` | crates/pam_certauth_cli/src/dump_host_id.rs:266-272 | the last second of the year 9999 sorts after the next one |

## Left out

- Simultaneous readiness of a timer's sleep and its cancellation, a failed persist, and a crash between a registry change and its persist.
- Failures of the logind backend and of the removal hook; the model stops at the call that is made.
- Registry.SessionRegistry.FindByUid: an older session of the same uid is not indexed again when the newer one goes, as in the source; nothing promises that every uid with a session is found during a run.
- PipeReader.Reader.EmitLine: the lossy conversion to UTF-8 text is a parameter, not modelled.
- The guard of a temporary file system.
- HookWait.WaitWithTimeout: a run that never ends appears as one whose scripted answers run out.
- The handshake of the server with its read-ahead, the idle timeout, and the dispatch of decoded messages.
- JSON and TOML, certificates, trust chains and all cryptography, PKCS#11, and the PAM, libpdp and OpenSSL bindings.
- The PIN loop and the later steps of the authentication flow, configuration validation and error tables.
- Fork, exec, resource limits and user lookup of hooks; the D-Bus and udev threads; the wallpaper; host-id normalisation.
- Intersection and ordering of integrity labels and the notice about wide category masks: short comparisons.
- The ISO 8601 stamp, which prints the same fields as the compact one.

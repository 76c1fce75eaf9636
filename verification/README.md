# nixnet: verification model

A Dafny model of the failover daemon `nixnetd` and of the packet-filter controller beside it, with
machine-checked proofs of what they promise. `dafny verify dfyconfig.toml` checks all of it.

The daemon probes every transport of every group from a worker thread of its own, selects a winner per
group, and publishes: peers into a managed block of the hosts file, uplinks as metrics of default routes.
What it knows survives restarts in `state.json`. The firewall's scripts load one table per generation and
keep a dead-man switch that puts the previous table back unless an operator confirms.

| file | content |
|---|---|
| `Health.dfy`, `Groups.dfy`, `Persistence.dfy` | the pure meaning of one transport, one decision, one save and restore |
| `GroupObject.dfy` | the group as the engine holds it, fields updated in place, proved equal to that meaning |
| `GroupRuns.dfy`, `Damping.dfy` | whole runs of one group: crashes, restarts, expiry, hold windows |
| `Workers.dfy`, `WorkerRuns.dfy`, `WorkerFacts.dfy`, `WorkerDamping.dfy` | any number of workers interleaved at every lock and every file write |
| `Routes.dfy` | route metrics against a kernel table whose commands may fail |
| `Text.dfy`, `TextFacts.dfy` | the library's string functions and the equations that determine them |
| `HostsBlock.dfy`, `HostsProofs.dfy`, `HostsFormat.dfy`, `HostsReading.dfy`, `HostsPublisher.dfy` | the hosts block: split, render, compare, parse, publish |
| `Firewall.dfy`, `FirewallRuns.dfy`, `FirewallScripts.dfy` | the firewall's scripts as atomic commands under crashes, reboots and foreign actors, and again as methods updating fields in place |
| `Icmp.dfy`, `Confinement.dfy` | the Internet checksum and echo codec; the CIDR cover of octet bands |
| `Runs.dfy`, `Arithmetic.dfy`, `Wrappers.dfy` | induction over runs, ordering of multiples, `Option` |

Conventions and assumptions:

- Instants are integers in nanoseconds; a clock reading, a probe result, the outcome of a write or of a
  command is a parameter of its step or a nondeterministic choice. `GroupRuns` and `Damping` assume a clock
  that never runs backwards where their statements say so; nothing else does.
- A file replacement through a temporary file, sync and rename is one atomic durable step, and so is an
  `nft -f` transaction. A command that fails under `set -e` is a crash before the next one.
- The route model takes the assumption of src/publish/route.rs:6-15: a table maps (interface, metric) to an
  optional gateway, `replace` writes that key and `del` removes it. A failed command may or may not have acted.
- A section of the engine under its state lock is one step, since nothing blocks inside it. The workers and the
  firewall are step relations because interleaving and crashing between their steps is the point; the methods of
  `GroupObject`, `HostsPublisher` and `FirewallScripts` tie the same functions to the code's statements.
- The firewall is modelled with `autoRevert` enabled. Reading the kernel's table is truthful, and the revert
  service, once started, is stopped only by the scripts themselves or a reboot.
- Configuration validation is used for distinct non-empty identities, a positive metric step, single-token host
  names and the two values of `onAllDown`; each statement that needs one of them requires it.
- The checksum is modelled with the wrap-around of a release build; a debug build panics where
  `Icmp.AccumulatorCannotOverflow` does not apply.

Where code and documentation disagree the model follows the code: docs/providers.md:170-186 matches saved
transports by position, src/engine/state.rs:213-233 by identity; the comment at modules/firewall.nix:558-561
promises that the next boot can still arm a revert, the branch at 575-576 discards the snapshot when the table
is gone (`FirewallRuns.RevertCanBeArmedExactly` says when a
revert can be armed, `FirewallRuns.SnapshotSurvivesExactly` when the recorded snapshot itself survives).

## Model

| member | source | states |
|---|---|---|
| Health.MachineRefinesWindow | src/engine/mod.rs:598-614 | A transport is Up (Down) exactly when the latest moment that closed a full window of equal results closed a healthy (failing) one, and Unknown exactly when no window was ever full; any thresholds, any history |
| Health.StateAfterLast | src/engine/mod.rs:598-614 | Each result either closes a full window and decides the state, or leaves it alone |
| Health.CountersAreStreaks | src/engine/mod.rs:593-608 | The two capped counters are the capped lengths of the latest uninterrupted streaks |
| Health.ObservedIsMachine | src/engine/mod.rs:592-614 | From a cold start, state and counters depend on the health bits of the probe history alone, with the declared thresholds or 2 and 3 |
| Health.AddressOfHistory | src/engine/mod.rs:579-623 | After any probe history from a cold start the address is the literal of the latest healthy result that carried one, before any such result the configured one, and none before any result; the last success is the instant of the latest healthy result |
| GroupObject.Group.RecordProbe | src/engine/mod.rs:579-623 | One probe result recorded in place: sanitized, counted, a healthy literal, and nothing else, replaces a known address; the returned flags say what moved; nothing else of the group changes |
| Groups.BestUp | src/engine/mod.rs:702-712 | The chosen candidate is Up, of least priority among all Up transports, and first in the list among equals; none is chosen only when none is Up |
| Groups.WinnerInvariant | src/engine/mod.rs:797-873 | After any decision: degraded iff nothing is Up, else the winner is Up. One of least priority is never displaced; one that is Up but not least stays exactly while it has waited less than max(0, minHoldMs) milliseconds, and then gives way, as does one that is not Up, to the first listed of least priority. A peer publishes a new winner's address, and a standing winner's if it has one |
| Groups.DownInvariant | src/engine/mod.rs:714-787 | With nothing Up: an uplink keeps its winner, an unpublish peer selects nothing, a last-known-good peer keeps winner and value exactly when there is no positive bound or the confirmation is at most maxAgeSec seconds old |
| Groups.PassiveExactly | src/engine/mod.rs:714-873 | A peer publication is passive exactly when neither winner nor published address changed, and uplinks never ask for one, so skipping an empty passive one loses nothing and an empty active one withdraws something |
| Groups.UplinkAsserts | src/engine/mod.rs:687-697 | An uplink decision asserts its ranking at its configured metrics exactly when it has a winner, route publication is on and some interface is named |
| Groups.OthersSorted | src/engine/mod.rs:1217-1221 | The losers are ranked healthy first, then by priority, then by position |
| Groups.PublishableContents | src/engine/mod.rs:1224-1243 | The published ranking names every named interface once, and counts it healthy iff some transport over it is Up |
| Groups.RankingInvariant | src/engine/mod.rs:1211-1246 | Winner's interface first, all named interfaces exactly once, healthy before unhealthy |
| Groups.RankingOrder | src/engine/mod.rs:1217-1221 | Behind the winner's, interfaces follow one another by their best transports: Up first, then the smaller priority number, then the earlier in the list |
| GroupObject.Group.Ranking | src/engine/mod.rs:1211-1246 | The in-place loop over the sorted order computes the specified ranking |
| GroupObject.Group.UplinkIntent | src/engine/mod.rs:687-697 | The uplink action is the ranking, or nothing when there is no opinion to assert |
| GroupObject.Group.Candidates | src/engine/mod.rs:702-712 | Collects exactly the Up transports; the head of the stable sort is the specified best candidate |
| GroupObject.Group.DecideAction | src/engine/mod.rs:679-873 | The branching method updates the group's fields exactly as the specified decision and returns its action |
| Persistence.RestoreIsSafe | src/engine/state.rs:206-328 | From an arbitrary record: the winner is in range and is the recorded transport, nothing is published without a winner, and no expired last-known-good survives |
| Persistence.RestoreTransportRoundTrip | src/engine/state.rs:223-265 | A saved transport restores health, counters, last success and address onto its own declaration, unless its static address was redeclared |
| Persistence.RoundTrip | src/engine/state.rs:206-292 | Restoring a dump on the same list is the identity on winner, published value and confirmation exactly when the value is unbounded or at most maxAgeSec seconds old and the winner's address was not redeclared |
| Persistence.RestoreCases | src/engine/state.rs:206-328 | Every group field after restoring any record: an aged value is dropped with its winner alone; an undeclared but published winner, or one whose static address was redeclared, takes confirmation and hold start with it and leaves the group degraded; otherwise the record stands |
| Persistence.NamesOnDisk | src/engine/state.rs:234-238 | The persisted state names, and that an unfamiliar one is read as Unknown |
| Persistence.RestoreFollowsIdentity | src/engine/state.rs:223-265 | On any other list, however reordered, extended or cut, each identity gets its own record back wherever it stands: last success and effective address always, health and counters unless a static address was redeclared, which resets them; an unknown identity stays cold |
| Persistence.RestoreSelectsByIdentity | src/engine/state.rs:213-222 | Two lists that agree about the recorded winner restore the same selected transport, published value, confirmation and degraded flag |
| Persistence.RemovedWinnerIsWithdrawn | src/engine/state.rs:267-278 | A list that no longer declares the winner restores to nothing selected and nothing published |
| Persistence.SavedByIdLooksUp | src/engine/state.rs:223-228 | The record index returns the last record of each non-empty identity |
| Persistence.FindKey | src/engine/state.rs:213-217 | The position found is the first transport with the key; none is found only when none has it |
| GroupObject.Group.ExpireRestoredValue | src/engine/state.rs:307-328 | The age bound applied in place to a restored group |
| GroupObject.Group.IndexSaved | src/engine/state.rs:223-228 | The loop builds the specified index of saved transports |
| GroupObject.Group.RestoreOne | src/engine/state.rs:234-264 | One transport overwritten from its record; reports a redeclared static address |
| GroupObject.Group.RestoreTransportList | src/engine/state.rs:229-265 | The loop restores every transport from its own record and reports whether the winner's address was redeclared |
| GroupObject.Group.RestoreFrom | src/engine/state.rs:206-292 | Restoring in place is the specified restore |
| GroupObject.Group.Save | src/engine/state.rs:330-358 | The saved record is the specified dump of the group |
| GroupObject.Group.constructor | src/engine/mod.rs:261-372 | A group starts cold: every transport Unknown, nothing selected, nothing published |
| GroupRuns.RunsAreConfirmed | src/engine/mod.rs:839-842 | Over every run of probes, decisions, saves, crashes and restarts from any earlier save, in memory and in every save: a confirmation is absent or the instant of a real healthy probe, of the selected transport whenever one is selected |
| GroupRuns.LastKnownGoodBound | src/engine/mod.rs:729-774 | Over every such run: after each decision something is Up, nothing is published, or the confirmation is within the bound; after each restart one of the last two |
| GroupRuns.RestartBringsBack | src/engine/state.rs:206-292 | Saving, crashing and restarting on the same declaration brings the group and every transport back, short of an aged value and a redeclared address |
| GroupRuns.DecisionsKeepWinnerInvariant | src/engine/mod.rs:797-873 | The winner invariant, hold time included, after every decision of every run |
| GroupRuns.PublishedAddressProvenance | src/engine/mod.rs:615-623 | Over every run with a fixed configuration, whatever is published is a configured address or a literal a healthy probe returned |
| Damping.NoSwitchWithinHold | src/engine/mod.rs:810-829 | No healthy winner is left before its hold window has passed |
| Damping.SwitchesAreSpaced | src/engine/mod.rs:810-829 | Consecutive departures from a healthy winner lie at least the hold window apart |
| Damping.DampingBound | src/engine/mod.rs:810-829 | At most 1 + floor(T / minHold) departures from a healthy winner in a span T, minHold being minHoldMs milliseconds |
| Routes.MinByMetric | src/publish/route.rs:206 | The route the kernel uses: listed, and of least metric |
| Routes.DeleteOthers | src/publish/route.rs:262-282 | Deletes every other default of the interface, going on past failures; the kept route stays through every command |
| Routes.Supersede | src/publish/route.rs:243-283 | Installs before it deletes: through every command and any pattern of failures no interface loses its last default route; failure-free it leaves exactly the intended table |
| Routes.Reprioritize | src/publish/route.rs:194-283 | The same from the read-back on; issues no command exactly when the interface is in place; reports only a healthy interface without default |
| Routes.Apply | src/publish/route.rs:167-179 | A whole pass: at every intermediate command of any starting table and any pattern of failures an interface that had a default has one and unranked interfaces have the routes they had; failure-free it yields the intended table, exactly the moves made and the first missing route |
| Routes.UntouchedSoFar | src/publish/route.rs:167-179 | Unranked interfaces keep all their routes and gateways |
| Routes.RankSettles | src/publish/route.rs:167-179 | Each ranked interface that had a default ends with exactly one, at base + rank * step, via its previously cheapest gateway |
| Routes.SecondPassIsSilent | src/publish/route.rs:231-241 | After a pass every interface is in place, so a second pass issues no command |
| Routes.UplinkEndToEnd | src/engine/mod.rs:687-697 | Decision to kernel table for any uplink group: rank r at metricBase + r * metricStep, ascending, Up interfaces cheaper than the others, the winner cheapest, undeclared interfaces untouched, every interface in place for a silent second pass |
| HostsBlock.FindBlockEnd | src/publish/hosts.rs:237-246 | The loop finds the end of the END line after BEGIN, or nothing for an unterminated block |
| HostsBlock.ParseNixHosts | src/publish/hosts.rs:267-308 | The loop over lines computes the specified parse |
| HostsProofs.ByAddressSorts | src/publish/hosts.rs:122-123 | The published order is ascending by address, a permutation, and stable among equal addresses |
| HostsFormat.LessIsLexicographic | src/publish/hosts.rs:123 | The order is lexicographic by character |
| HostsFormat.NormalisedIs | src/publish/hosts.rs:221-232 | A text and its trailing newlines become the text and one newline, or nothing where there is no text |
| HostsFormat.SplitUnmarked | src/publish/hosts.rs:219-232 | A file without BEGIN is all prefix |
| HostsFormat.SplitAround | src/publish/hosts.rs:200-233 | A file with a terminated block is the text before BEGIN closed by one newline, and everything after the END line |
| HostsFormat.SplitUnterminated | src/publish/hosts.rs:210-216 | A block without END line carries nothing over from BEGIN on |
| HostsFormat.BlockEndIsFirst | src/publish/hosts.rs:237-246 | The block ends with the first line from BEGIN on that is END when trimmed; what is taken is exactly the lines up to it |
| HostsFormat.BlockIsText | src/publish/hosts.rs:129-144 | The rendered block, character by character |
| HostsFormat.SignificantOne | src/publish/hosts.rs:177-185 | The comparison leaves out exactly the lines whose trimmed start is the daemon's mark |
| HostsFormat.ConfirmedExactly | src/publish/hosts.rs:251-259 | A comment confirms an address exactly when it has the published shape |
| HostsReading.ParseFinds | src/publish/hosts.rs:267-308 | Whatever the file holds, its entries are those of the lines inside a block that are no comments and have two words, in order, each confirmed by the latest comment before it if that names its address and no entry stands between |
| HostsProofs.SplitOfTerminated | src/publish/hosts.rs:200-233 | A file made of a prefix, a terminated block and a suffix splits into exactly them, up to the prefix's trailing newlines |
| HostsProofs.SplitOfRender | src/publish/hosts.rs:200-233 | A published file splits into exactly the prefix and suffix it was rendered from |
| HostsProofs.RewriteKeepsStatic | src/publish/hosts.rs:109-150 | Rewriting any file at all is a fixed point of splitting: the new file splits into the same regions |
| HostsProofs.ParseOfRender | src/publish/hosts.rs:122-150 | Parsing undoes rendering: exactly the entries, each with its own confirmation |
| HostsProofs.ConfirmLineFacts | src/publish/hosts.rs:251-259 | A rendered confirmation comment parses back to its address and time |
| HostsProofs.SameMeansSameEntries | src/publish/hosts.rs:177-185 | Files equal but for freshness comments parse to the same addresses and names |
| HostsProofs.RepublishIsQuiet | src/publish/hosts.rs:152-156 | Renderings of entries that differ in confirmations only compare equal |
| HostsPublisher.Publisher.Publish | src/publish/hosts.rs:102-161 | Writes the wanted file exactly when it differs in substance; a declined or failed publication leaves the file as it was |
| HostsPublisher.Publisher.constructor | src/publish/hosts.rs:65-80 | The fallback regions are those of the file at start |
| HostsPublisher.RenderText | src/publish/hosts.rs:129-150 | The buffer built piece by piece is the specified text |
| HostsPublisher.WrittenFile | src/publish/hosts.rs:109-150 | What is written over a file without block, with a terminated or an unterminated one, and over a vanished file |
| HostsPublisher.PublishedFileParses | src/publish/hosts.rs:102-161 | Written or declined, the live file then parses to the published addresses and names in order, whoever wrote it |
| HostsPublisher.ForeignTextSurvives | src/publish/hosts.rs:109-150 | Over any sequence of publications and foreign edits outside the block the suffix survives byte for byte, and the prefix as the same text with only its trailing newlines changed |
| HostsPublisher.RepublicationIsQuiet | src/publish/hosts.rs:152-156 | Publishing the same addresses and names right after never writes, in any foreign surroundings |
| HostsPublisher.DeclinesExactly | src/publish/hosts.rs:152-156 | Around a normalised prefix a publication declines exactly when the block already says its addresses and names |
| HostsPublisher.RepublicationStaysQuiet | src/publish/hosts.rs:152-156 | Nor after any foreign edits outside the block and republications in between, if the last foreign prefix is normalised |
| Workers.LocksHold | src/engine/mod.rs:935-936 | Every interleaving keeps each of the three locks with exactly the worker inside its section |
| Workers.StepNeverRegresses | src/engine/state.rs:161-175 | No step replaces a JSON file by an older snapshot, and every snapshot in flight lies between file and memory |
| Workers.StepCatchesUp | src/engine/state.rs:161-175 | Whenever a throttled file with a successful latest write differs from memory in what it must show, some worker owes a snapshot it cannot be throttled out of, or one that agrees is in flight |
| Workers.UpdateOwes | src/engine/mod.rs:618-655 | A record or decision that changes what a file must show forces that worker's write of it |
| Workers.ReportOwes | src/engine/mod.rs:975-1009 | A publication whose outcome differs from the reported one forces the status file |
| Workers.CaughtStep | src/engine/state.rs:161-175 | A step that leaves the file owing, takes a snapshot, or lands one keeps the file caught up |
| WorkerRuns.HostsAgreeWhenIoIsFree | src/engine/mod.rs:935-1009 | In every interleaving of any number of workers, with the latest hosts publication successful, whenever io_lock is free the live file shows exactly the entries of the in-memory groups at once |
| WorkerFacts.HostsListThePeers | src/engine/mod.rs:935-1009 | Said of the groups: the file then holds exactly one entry for each peer group that publishes an address, with that address and that group's host names, and no other |
| WorkerFacts.EntriesListGroups | src/engine/mod.rs:1166-1181 | The entries belong one to one to the publishing peer groups, with address, host names and rendered confirmation |
| WorkerFacts.PublicationLists | src/engine/mod.rs:975-985 | The file any publication leaves lists the groups so, and one it wrote carries their confirmations |
| WorkerFacts.StartupPublishes | src/engine/mod.rs:1030-1036 | Startup publishes exactly when some peer has something to publish, and then lists every one |
| WorkerFacts.RecordExactly | src/engine/mod.rs:585-655 | A record touches its transport alone and forces state.json exactly on a change of state or address, the status file exactly on a change of state |
| WorkerFacts.DecideExactly | src/engine/mod.rs:938-974 | A decision touches its group alone, forces both files exactly on a change of winner, degraded flag or published address, and publishes hosts or routes exactly when the code does |
| WorkerFacts.HostsWrittenExactly | src/engine/mod.rs:975-985 | A publication that fails, or finds the file saying the same but for freshness, leaves it alone, and any other replaces it by the wanted one |
| WorkerFacts.ReportsExactly | src/engine/mod.rs:975-1003 | A publication forces the files exactly when its outcome differs from the last |
| WorkerFacts.StateThrottledExactly | src/engine/state.rs:161-166 | state.json is written unless unforced and within 15 s of its latest write |
| WorkerFacts.StatusThrottledExactly | src/engine/mod.rs:1109-1115 | The status file is written unless unforced and within one second of its latest write |
| WorkerFacts.WritesLand | src/engine/state.rs:167-174 | A snapshot is memory as it is; only a successful write replaces the file and restarts the window |
| WorkerFacts.GroupStepsMatch | src/engine/mod.rs:561-640 | Seen by one group, a worker's record or decision is a step of that group's own runs |
| WorkerRuns.FilesNeverRegress | src/engine/mod.rs:1109-1140 | In every interleaving neither state.json nor the status file goes back to an older snapshot |
| WorkerRuns.QuietStateIsSaved | src/engine/state.rs:161-175 | Every worker idle after a tick, latest write successful: state.json agrees with memory on winner and since when, degraded flag, published address, transport states and addresses, despite the throttle |
| WorkerRuns.QuietStatusIsCurrent | src/engine/mod.rs:1109-1140 | Likewise the status file, the one written before the workers start included, was rendered from a state with winner and since when, degraded flag, transport states and publication outcomes as they now are |
| WorkerRuns.EmptyBlockIsAWithdrawal | src/engine/mod.rs:970-974 | An empty block is only ever published by a decision that withdrew something, so an unchanged tick never overwrites the boot seed |
| WorkerRuns.SomeoneCanStep | src/engine/mod.rs:935-936 | No deadlock: while a worker is inside a tick, some worker inside a tick can step |
| WorkerRuns.DecideFollows | src/engine/mod.rs:938-968 | A decision that skips the publication leaves the published entries as they were, and one that publishes snapshots all groups as they are |
| WorkerRuns.PublicationShows | src/engine/mod.rs:1030-1036 | A publication from any file leaves one that shows all the entries, at startup as in a tick |
| WorkerRuns.EntriesAreValid | src/engine/mod.rs:1166-1181 | The entries of clean groups are renderable: literal-like addresses, host names, timestamps |
| WorkerDamping.WorkersAreDamped | src/engine/mod.rs:810-829 | The damping bound for a group under any interleaving of any number of workers |
| Firewall.CommandHolds | modules/firewall.nix:289-635 | What each command of each script can rely on about files and countdown, kept by every command: timer and service never both active, a countdown only over a whole snapshot outside a finishing revert |
| Firewall.StepKeepsInv | modules/firewall.nix:289-635 | The same kept by crashes at any command, reboots, the timer and foreign tables |
| FirewallRuns.ScriptsEndAsPromised | modules/firewall.nix:346-635 | Whatever happened before: an apply or reconcile that ends well leaves the countdown running exactly when a snapshot of its own is pending, and revert, confirm and teardown leave no snapshot |
| FirewallRuns.RejectedStaysOut | modules/firewall.nix:474-542 | Once the rejection of a generation is on disk it stays, and no script's transaction, a restore included, puts the generation in the table, over any run of any scripts, crashes, reboots and foreign tables other than the generation itself, until a confirm or teardown completes, another generation's apply, repair or revert reaches its own record, or a revert withdraws after a failed restore |
| FirewallRuns.RejectionStands | modules/firewall.nix:374-391 | With foreign hands loading the generation as well, the rejection still stands, and a script's step loads the generation exactly when it restores a snapshot that carries it |
| FirewallRuns.ForeignLoadComesBack | modules/firewall.nix:374-391 | Such a run exists: loaded by a foreign hand between apply's check and its snapshot, the rejected generation is restored over an absent table |
| FirewallRuns.SnapshotsAreRestorable | modules/firewall.nix:549-583 | Killed at any command, with foreign actors never loading the generation: a pending snapshot of it is of a table that existed and is another; a revert that ends well never leaves it in force, and withdraws only after a failed transaction |
| FirewallRuns.RestoreLoadsTheSnapshot | modules/firewall.nix:374-391 | A successful restore transaction leaves the snapshot loaded, never the rejected generation, with the rejection already on disk |
| FirewallRuns.CommandsProgress | modules/firewall.nix:289-635 | Every script ends: each command brings it strictly nearer |
| FirewallRuns.ApplyOutcome | modules/firewall.nix:527-608 | An undisturbed apply: in force and recorded or refused; a restart keeps an open window open; otherwise a snapshot of exactly the replaced table under countdown, or neither |
| FirewallRuns.ReconcileOutcome | modules/firewall.nix:464-522 | An undisturbed reconcile repairs, counts the repair, takes no snapshot and opens no window of its own |
| FirewallRuns.RevertOutcome | modules/firewall.nix:366-398 | An undisturbed revert restores exactly the snapshot and stands down |
| FirewallRuns.FailureOutcome | modules/firewall.nix:379-386 | A failed transaction leaves table, applied and rejected records alone; a failed restore keeps its snapshot and withdraws its intent |
| FirewallRuns.ChecksNotice | modules/firewall.nix:585-594 | The checks behind the transactions notice what happened in between, and then nothing is recorded |
| FirewallRuns.DeadManSwitch | modules/firewall.nix:366-608 | Apply, expiry, refusal and confirm composed: the old table comes back, the rejected generation is refused by apply and reconcile, and a confirm lets it be repaired |
| FirewallRuns.RevertCanBeArmedExactly | modules/firewall.nix:554-579 | The comment says the next boot can still arm a revert; an undisturbed apply leaves a matching snapshot under countdown exactly when the kernel still has a table |
| FirewallRuns.SnapshotSurvivesExactly | modules/firewall.nix:554-579 | And the recorded snapshot itself survives it exactly when the generation is in force, or the table about to be replaced is the one it holds |
| FirewallRuns.RebootForgetsTheSnapshot | modules/firewall.nix:554-579 | After a reboot the next apply discards the snapshot and leaves the unconfirmed generation without countdown |
| FirewallScripts.Machine.ApplyScript | modules/firewall.nix:527-608 | The script over fields updated in place, undisturbed, has the effect of its sequence of commands |
| FirewallScripts.Machine.ReconcileScript | modules/firewall.nix:464-522 | The same for the reconcile script |
| FirewallScripts.Machine.RevertScript | modules/firewall.nix:366-398 | The same for the revert script |
| Icmp.FoldKeepsResidue | src/probe/icmp.rs:254-256 | The fold loop ends in 16 bits with the sum modulo 65535 preserved, zero apart from 65535 |
| Icmp.AccumulatorCannotOverflow | src/probe/icmp.rs:246-253 | No 32-bit overflow up to 131074 bytes |
| Icmp.SafeLenIsTight | src/probe/icmp.rs:246-253 | Every longer all-ones buffer overflows |
| Icmp.ChecksumIsOnesComplement | src/probe/icmp.rs:244-258 | Within that length the routine is the complement of the one's complement sum of section 1 of RFC 1071 |
| Icmp.InternetChecksum | src/probe/icmp.rs:245-258 | The accumulator loops compute the specified checksum |
| Icmp.RequestVerifies | src/probe/icmp.rs:229-242 | For every identifier, sequence and payload the built request's checksum verifies to 0, even where the accumulator wraps |
| Icmp.BuildEchoRequest | src/probe/icmp.rs:229-242 | The patched buffer is an echo request for its pair and verifies to 0 |
| Icmp.ReplyMatchesOnlyItsRequest | src/probe/icmp.rs:197-227 | Behind a header of any length, a reply is accepted for its own (identifier, sequence) pair and no other, and a request never |
| Icmp.AcceptedIsAReply | src/probe/icmp.rs:218-227 | Whatever is accepted is a reply message for that pair |
| Confinement.LargestBlockBest | lib/ruleset.nix:44-48 | The fold picks the largest aligned size that fits |
| Confinement.CoverIsAligned | lib/ruleset.nix:67-76 | The cover consists of aligned, ascending, disjoint blocks inside the band |
| Confinement.CoverIsExact | lib/ruleset.nix:67-76 | It covers exactly the band's octets |
| Confinement.CoverIsShortest | lib/ruleset.nix:67-76 | It is as short as any exact aligned cover, for a size list of any power-of-two width |
| Confinement.PrefixOfBlock | lib/ruleset.nix:31-41 | Every block size has a prefix length, and that prefix matches exactly the block |
| Confinement.CidrsCoverTheRange | lib/ruleset.nix:67-76 | The rendered CIDRs match exactly the band |
| Confinement.CidrsAreShortest | lib/ruleset.nix:44-76 | No exact cover by aligned blocks of up to 256 addresses is shorter than the rendered one |
| Confinement.ConfinementIsExact | modules/firewall.nix:122-126 | For every list of bands, the ranges derived for a name match exactly the octets lying in some band of that name |
| Confinement.BandOfFirstMatch | modules/netbird-group-reconcile.nix:54-56 | The reconciler's band function answers with the first band that holds the octet |
| Confinement.AssignedIsConfined | modules/netbird-group-reconcile.nix:138-142 | Every octet the reconciler assigns to the confined name is covered |
| Confinement.AgreementAt | modules/netbird-group-reconcile.nix:138-142 | Firewall and reconciler agree about an octet exactly when no earlier band of another name takes it before every band of the confined name |
| Confinement.ConfinementAgreesWithReconciler | modules/netbird-group-reconcile.nix:138-142 | They draw the very same boundary exactly when that holds of every octet |
| Confinement.DisjointBandsAgree | modules/netbird-group-reconcile.nix:138-142 | In particular when no two bands of different names overlap |
| Confinement.OverlapConfinesMore | modules/netbird-group-reconcile.nix:138-142 | A witness of the other case: an octet confined that the reconciler assigns elsewhere |

## Left out

- Sockets, DNS resolution, subprocesses and their timeouts, signals, readiness and watchdog notification, thread start and shutdown: a probe is its result, a command its success.
- JSON and RFC 3339: saved state is a datatype, instants are integers, a timestamp in the hosts file is an opaque token; a missing or corrupt file is a restart without a record.
- src/atomic.rs: assumed as one atomic step.
- src/config.rs, src/status.rs and the command line: only the facts validation guarantees are used.
- Log lines, probe detail texts and the rendered fields of the status file.
- Saturation of the consecutive counters and the 64-bit width of metrics: the counters are capped right after the addition, and metrics are unbounded integers here.
- Encoding: text is a sequence of characters, so offsets count characters where Rust counts bytes.
- WorkerRuns.QuietStatusIsCurrent: says nothing about the transports' addresses, which the status file does not show, nor about confirmation times and probe details, whose changes do not force it.
- WorkerRuns.HostsAgreeWhenIoIsFree: assumes no foreign edit of the hosts file while the daemon runs; foreign edits between publications are the subject of HostsPublisher.ForeignTextSurvives and PublishedFileParses.
- HostsPublisher.PublishedFileParses: requires that the foreign suffix holds no second BEGIN line, which the parser would take for another block.
- Groups.WinnerInvariant: an Up winner without an address leaves the previously published value or publishes an empty one, as the code does; the address clause therefore needs a non-empty address.
- The firewall with `autoRevert` disabled, its metrics file and its repair counter file beyond the count.
- The text of the nftables rules: only the table's presence and its generation marker are modelled.
- `flock` and waiting scripts: at most one script runs, and one that waits for the lock has no effect but the active revert service.
- Whether a script eventually gets the lock, a worker its turn or a timer its expiry: nothing is claimed about fairness.
- Overlay, ingress, mesh gateway, access model, wireless and provider modules, package tables: rendering and wiring only.

# WardOS: verified core

A Dafny model of the parts of WardOS whose correctness cannot be read off one function: delegated
authority and its revocation, the seccomp profile compiler, the PID 1 supervisor, the egress
relay's connection slots, `ward init`'s acceptance of a verification boundary, and a few small
codecs and calculations. `dafny verify dfyconfig.toml` checks all of it.

The model follows the form of the code. Pure code is functions. Loops are methods with invariants.
Objects that are changed in place (the revocation ledger, the supervisor, the accept thread, the
files `ward init` writes) are classes. Concurrent and long-running parts are step systems: a state,
a `Next` function and theorems over every list of steps; the classes return the trace of steps they
took, so the theorems apply to the code as it runs.

| file | what it models |
|---|---|
| `Grants`, `Leases`, `Lineage`, `Revocation` | grant sets, leases and delegation, lineages, the revocation ledger |
| `AuthorityRuns`, `Admission` | whole runs over those; admission of a signed lineage on a node |
| `Seccomp` | profile compilation into stacked filters, and what the kernel makes of them |
| `Supervisor` | PID 1 against a kernel with children, zombies and coalescing signals |
| `Relay`, `RelayAccept` | the slot counter under every interleaving of accept and connection threads |
| `CommandLines`, `VerifierConfig`, `Wording`, `ConfigWriter`, `ConfigReading`, `Gitignore`, `InitRuns`, `InitFiles` | `ward init` |
| `Calendar`, `Timestamp`, `Percentile` | the benchmark report's dates, timestamps and percentiles |
| `Summary`, `ContractVersion` | the hook's summary text, the adapter contract version |
| `Wrappers`, `Ordering`, `Decimal`, `Utf8`, `Text` | the standard-library notions the rest relies on |

Where a promise turned out not to hold of the code, the model keeps the code and states when it
does hold:

- The usability check never looks at an ancestor's expiry or grants. That is safe exactly when every
  parent that can be offered for a lease confines it (`SafeExactlyWhen`). Runs that never reuse a
  lease identity are safe (`FreshRunsAreSafe`); nothing in the code enforces that, and some runs that
  reuse one are not (`SomeRunsAreUnsafe`).
- `civil_from_days` is documented for every 64-bit day number; its first addition overflows on the
  last 719468 of them and nowhere else (`OverflowsExactlyAtTheTop`).
- Stacking one filter per action is equivalent to one multi-action filter exactly when the default
  is Allow, or there are rules and every action names the same syscalls
  (`StackingIsEquivalentExactlyWhen`).
- `reap` keeps the exit of the last process it waited for under the child's pid. That process is the
  main child exactly when no adopted process was waited for under the recycled pid
  (`ReturnsTheMainExit`, `RecycledPidOverrides`). The comment that forwarding may find no such process
  describes a case that cannot arise (`NoWakeUpIsLost`).
- A relay slot is given back only after both directions ended wherever a panic ends the process,
  which is what the release profile sets (Cargo.toml:64-67; `ReleasedAfterBothDirections`). In builds that unwind it is
  given back early exactly when the outbound pump panicked and the slot was dropped before the
  inbound pump ended (`ReleasedEarlyExactlyWhen`).
- An unaccepted `ward init` is meant to write no active command. It writes one exactly when a string
  it quotes from the project's own files carries a line break with a `command:` line behind it
  (`SuggestionsAreActiveExactlyWhen`); a protected path can (`BrokenPathBecomesActive`), and later
  runs then leave that file alone (`BrokenPathSettlesUnaccepted`).
- A dry run of `ward init` predicts the real run exactly unless a directory refuses a file that must
  be created, or that run would ask and be answered yes (`DryRunPredictsExactlyWhen`,
  `RefusedDirectoryIsNotForeseen`).
- The file written when nothing can be proposed waits for acceptance exactly when a quoted reason
  contains the proposal marker and none carries a command line (`BlankSettlesExactlyWhen`).
- Timestamps sort as text exactly before the year 10000; the percentile is the nearest-rank one
  exactly for 0 < q <= 1.

## Model

| member | source | states |
|---|---|---|
| `Grants.New` | crates/ward-authority/src/lib.rs:171-180 | accepts exactly the lists in which no two grants agree on both the capability and the resource, though only sorted neighbours are compared; the result is the sorted permutation |
| `Grants.Decode` | crates/ward-authority/src/lib.rs:195-207 | decodes exactly the canonical lists, unchanged, and reports a repeated scope as such even when the order is wrong too |
| `Grants.NeighboursSuffice` | crates/ward-authority/src/lib.rs:171-180 | in a sorted list without equal neighbours no two grants anywhere share a scope |
| `Grants.GrantsOrderByFields` | crates/ward-authority/src/lib.rs:155-180 | the canonical order is decided by the capability, then the resource, then non-delegable before delegable |
| `Grants.NewIgnoresOrder` | crates/ward-authority/src/lib.rs:155-180 | every arrival order of the same grants has the same outcome |
| `Grants.OneWireOrderPerSet` | crates/ward-authority/src/lib.rs:195-207 | two decodable encodings of one multiset of grants are identical, and one exists whenever scopes are distinct |
| `Leases.DelegateByLoop` | crates/ward-authority/src/lib.rs:375-435 | the header checks and the early-returning loop over grants compute `Delegate`, error for error |
| `Leases.NoRefusalMeansDelegable` | crates/ward-authority/src/lib.rs:408-420 | first-match search refuses nothing exactly when, for every wanted grant, the parent holds the same capability and resource as delegable |
| `Leases.GrantRefusalNamed` | crates/ward-authority/src/lib.rs:408-420 | a refusal is for the first grant that cannot be passed on: a widening if the parent holds nothing for its capability and resource, otherwise not delegable |
| `Leases.HeaderRefusalNamed` | crates/ward-authority/src/lib.rs:382-407 | the first of eleven checks on the fields of parent and child that fails names the refusal |
| `Leases.GrantsDecide` | crates/ward-authority/src/lib.rs:382-435 | once those pass, delegation succeeds exactly when every capability and resource asked for is held as delegable, and the first that is not names the refusal |
| `Leases.RootRefusalNamed` | crates/ward-authority/src/lib.rs:340-366 | the first failed check of a root names its refusal |
| `Leases.DelegationIsExact` | crates/ward-authority/src/lib.rs:375-435 | delegation succeeds exactly for active contractions of an active parent that the empty-set policy admits |
| `Leases.ValidationIsExact` | crates/ward-authority/src/lib.rs:515-551 | a wire value is accepted exactly when it reads as such a contraction under the expected identity, and is returned unaltered |
| `Leases.PromotionIsExact` | crates/ward-authority/src/lib.rs:681-704 | a wire root is accepted exactly when it reads as an active parentless lease, and is returned unaltered |
| `Leases.RoutesAreDisjoint` | crates/ward-authority/src/lib.rs:515-704 | no wire value is accepted both as a child and as a root, at any instants and policies |
| `Leases.IssuedLeasesRevalidate` | crates/ward-authority/src/lib.rs:615-631 | every delegated child and every root, sent over the wire, validates to itself |
| `Lineages.ForLease` | crates/ward-authority/src/revocation.rs:97-148 | the loop accepts exactly the contiguous, repetition-free parent chain ending at a root, with each refusal named |
| `Lineages.AcceptedExactly` | crates/ward-authority/src/revocation.rs:97-148 | the refusal walk accepts exactly the lineages, defined without reference to it |
| `Lineages.FirstFaultIsNamed` | crates/ward-authority/src/revocation.rs:97-148 | a list is refused for its first fault, each kind of fault defined on the list alone |
| `Lineages.LineageIsUnique` | crates/ward-authority/src/revocation.rs:97-148 | where identities determine leases, a lease has at most one accepted lineage |
| `Lineages.SuffixIsLineage` | crates/ward-authority/src/revocation.rs:97-148 | the rest of an accepted list is the lineage of each ancestor in it |
| `Revocations.AuthorityRevocations.Record` | crates/ward-authority/src/revocation.rs:215-232 | the ledger after one fact; errs exactly when the lease ends conflicted; touches no other lease and never un-revokes |
| `Revocations.LedgerReflectsFacts` | crates/ward-authority/src/revocation.rs:215-232 | after any records: no fact means absent, one distinct fact known, two or more conflict |
| `Revocations.LedgerIgnoresOrderAndRepetition` | crates/ward-authority/src/revocation.rs:215-232 | equal sets of facts give equal ledgers, whatever the order and repetition |
| `Revocations.RecordingOnlyWithdraws` | crates/ward-authority/src/revocation.rs:215-232 | no further record makes an identity usable at an instant at which it was not |
| `Revocations.UsableInterval` | crates/ward-authority/src/revocation.rs:239-279 | a lease is usable exactly from its issue to the least of its expiry and the revocations on its chain; never with a conflict there |
| `AuthorityRuns.RunsAreGrounded` | crates/ward-authority/src/lib.rs:340-435 | in every run each lease is a root or a contraction of a lease of that run |
| `AuthorityRuns.RunsAddUp` | crates/ward-authority/src/lib.rs:340-435 | after any run the ledger holds every recorded fact, all the time has passed, and the leases are those of the start and those granted |
| `AuthorityRuns.FreshRunsDetermineIds` | crates/ward-authority/src/lib.rs:384-389 | runs that never reuse an identity keep identities unambiguous |
| `AuthorityRuns.SafeExactlyWhen` | crates/ward-authority/src/revocation.rs:248-279 | for every world of leases: that holds for every lineage, ledger and instant if and only if every parent that can be offered for a lease confines it |
| `AuthorityRuns.DeterminedParentsConfine` | crates/ward-authority/src/revocation.rs:97-148 | where an identity names one lease, the parent found by identity is the one that delegated, so it confines |
| `AuthorityRuns.FreshRunsAreSafe` | crates/ward-authority/src/lib.rs:340-435 | every run of issues, delegations, validations, records and time that never reuses an identity is safe in that sense |
| `AuthorityRuns.UsableOnlyUnderUsableAncestors` | crates/ward-authority/src/revocation.rs:248-279 | in every run whose parents confine, a usable lease has only ancestors usable under their own lineages, shares issuer and task with them, lives within their lifetimes and holds only scopes each of them holds as delegable; the last ancestor is a root |
| `AuthorityRuns.EveryLeaseHasOneLineage` | crates/ward-authority/src/revocation.rs:97-148 | in runs in which an identity names one lease, every lease has exactly one acceptable lineage among the run's leases |
| `AuthorityRuns.DelegationChainExists` | crates/ward-authority/src/revocation.rs:97-148 | in every run each lease has a chain of contractions behind it, up to a root, and that chain is accepted as its lineage exactly when no identity occurs twice on it |
| `AuthorityRuns.LinkedAcceptedExactlyWhen` | crates/ward-authority/src/lib.rs:384-389 | a linked chain, which delegation checks for reuse against the direct parent only, is refused as a lineage exactly when an identity repeats on it, and for that reason |
| `AuthorityRuns.UnusableForever` | crates/ward-authority/src/revocation.rs:239-279 | an unusable lease stays unusable after any further issues, delegations, records and time |
| `AuthorityRuns.ReusedIdsDefeatTheCheck` | crates/ward-authority/src/revocation.rs:248-262 | a run with a reused identity in which a usable lease has an expired accepted ancestor that does not confine it |
| `AuthorityRuns.SomeRunsAreUnsafe` | crates/ward-authority/src/revocation.rs:248-262 | so some runs are not safe |
| `Admission.PromoteAuthority` | crates/ward-node/src/admit.rs:527-558 | promotes exactly the wire chains that read, root first, as active non-empty contractions, and returns them as they stand |
| `Admission.PromotedLineage` | crates/ward-node/src/admit.rs:360-362 | after promotion the lineage check adds exactly the distinctness of identities |
| `Admission.AdmittedUnderUsableAncestors` | crates/ward-node/src/admit.rs:527-558 | what passes promotion, lineage and usability has usable, confining ancestors, whoever chose the identities |
| `Seccomp.ResolveNames` | crates/ward-agent/src/seccomp.rs:116-124 | adds exactly a rule's native numbers to its group, lists its non-native names in order, and fails exactly on a name no declared architecture has |
| `Seccomp.GroupRules` | crates/ward-agent/src/seccomp.rs:111-125 | the groups hold, action by action, exactly the numbers the rules give to it |
| `Seccomp.BuildPrograms` | crates/ward-agent/src/seccomp.rs:127-131 | one filter per action used, in key order, failing exactly when the default is among the actions |
| `Seccomp.Compile` | crates/ward-agent/src/seccomp.rs:93-136 | succeeds exactly on well-formed profiles, and a refusal names a real fault; its filters and unreachable names are exactly the profile's; over a default of allowing, a call is killed exactly when a killing rule names it, otherwise fails exactly when an errno rule does; over a default of killing, it survives exactly when every action used names it |
| `Seccomp.KeyIsInjective` | crates/ward-agent/src/seccomp.rs:111-115 | no two actions share the printed key their groups are filed under |
| `Seccomp.StackChoosesExactlyWhen` | crates/ward-agent/src/seccomp.rs:138-147 | the stack's verdict is the overriding matched action, for every number, exactly when the default is Allow or there are filters and all match the same numbers |
| `Seccomp.StackingIsEquivalentExactlyWhen` | crates/ward-agent/src/seccomp.rs:11-14 | the installed filters mean what the profile means as one multi-action filter, exactly under that condition |
| `Seccomp.NothingDroppedNothingAdded` | crates/ward-agent/src/seccomp.rs:111-136 | every native name of a rule is matched by its rule's action, only numbers that rules name are matched, and the unreachable names are exactly the rules' names that are not native |
| `Seccomp.ReportedIsKnownElsewhere` | crates/ward-agent/src/seccomp.rs:116-124 | a name a compiled profile reports unreachable is known to another declared architecture |
| `Seccomp.MeaningIsUnique` | crates/ward-agent/src/seccomp.rs:11-14 | a profile means one verdict per number |
| `Supervisor.NoWakeUpIsLost` | crates/ward-agent/src/supervise.rs:28-67 | in every interleaving a zombie means SIGCHLD is pending or the supervisor is reaping; every forwarded signal reached the main child and nothing else |
| `Supervisor.ForwardsWhatItTook` | crates/ward-agent/src/supervise.rs:53-66 | in every interleaving the signals forwarded are those `sigwait` returned, once each and in order, up to one on its way |
| `Supervisor.ReturnsTheMainExit` | crates/ward-agent/src/supervise.rs:20-84 | in every interleaving the code returned is the exit code of the last process waited for under the child's pid, or 128 plus the signal that ended it, and that process is the child exactly when no adopted process was waited for under it |
| `Supervisor.UnrecycledIsNeverWaited` | crates/ward-agent/src/supervise.rs:71-84 | if the pid is never handed to an orphan, no adopted process is waited for under it |
| `Supervisor.ReturnsTheLastExitUnderThePid` | crates/ward-agent/src/supervise.rs:71-84 | from waiting or from the start of `reap`, in every interleaving, the code found is that of the last process waited for under the pid |
| `Supervisor.RecycledPidOverrides` | crates/ward-agent/src/supervise.rs:71-84 | from every state of `reap` in which the pid is free, an orphan that gets it and ends at once decides the code returned |
| `Supervisor.RecycledPidReturnsAnotherCode` | crates/ward-agent/src/supervise.rs:71-84 | a run in which an adopted orphan under the recycled pid gives the code |
| `Supervisor.ExitIsNeverMissed` | crates/ward-agent/src/supervise.rs:39-84 | once the child has ended the supervisor is never stuck and returns within a bounded number of its own steps, in any order |
| `Supervisor.Pid1.Reap` | crates/ward-agent/src/supervise.rs:71-84 | leaves no zombie under any schedule of events, as a run of the step system; yields a code whenever the child was a zombie at the start, and that of the last process waited for under its pid |
| `Supervisor.Pid1.HandleSignal` | crates/ward-agent/src/supervise.rs:53-66 | one turn of the loop: takes one pending signal; SIGCHLD is answered by draining every zombie, any other signal by forwarding that very signal once |
| `Supervisor.Pid1.Run` | crates/ward-agent/src/supervise.rs:39-67 | under every schedule the code relayed is that of the last process waited for under the child's pid, which is the child exactly when no adopted process was, as when none gets the pid; the call still waits only when every scheduled event has happened, no signal is pending and the child is alive |
| `Relay.CounterIsLiveSlots` | crates/ward-agent/src/relay.rs:105-196 | in every interleaving the counter is the number of slots held, at most 256, and clients are refused only at 256 |
| `Relay.CounterMovesWithSlots` | crates/ward-agent/src/relay.rs:183-196 | each step moves the counter by the slots it takes or gives back, at most one, so the decrement never wraps |
| `Relay.ReleasedOnce` | crates/ward-agent/src/relay.rs:192-196 | a slot given back is never given back again |
| `Relay.SlotComesBack` | crates/ward-agent/src/relay.rs:124-154 | from the moment a slot is taken, whatever the other threads do, its connection can be taken on until the slot is back, after at most six steps of its own |
| `Relay.FailedServeGivesBack` | crates/ward-agent/src/relay.rs:124-154 | when `serve` fails before pumping, exactly one drop is left; until it happens it can, and it lowers the counter by one |
| `Relay.LeavingGivesBack` | crates/ward-agent/src/relay.rs:124-154 | the same once `serve` has returned |
| `Relay.PumpedGivesBack` | crates/ward-agent/src/relay.rs:142-154 | once the pumps have started and both have ended, at most the join and the drop are left |
| `Relay.EarlyIsWhatWasSeen` | crates/ward-agent/src/relay.rs:142-154 | a slot is recorded as given back early exactly when, in the run so far, pumping had begun and a direction had not ended |
| `Relay.ReleasedAfterBothDirections` | crates/ward-agent/src/relay.rs:142-154 | where a panic ends the process, a step of any run gives a slot back only when no pumping had begun or both directions had ended |
| `Relay.ReleasedEarlyExactlyWhen` | crates/ward-agent/src/relay.rs:142-154 | where a panic unwinds, a slot is given back while a direction runs exactly when the outbound pump panicked and the slot was dropped before the inbound pump ended |
| `Relay.UnwindingReleasesEarly` | crates/ward-agent/src/relay.rs:142-154 | there are such runs in builds that unwind |
| `RelayAccept.AcceptThread.Take` | crates/ward-agent/src/relay.rs:183-190 | the load and compare-and-swap loop ends, under interference and spurious failures, with a slot or a refusal at 256, unless a panic ends the process |
| `RelayAccept.AcceptThread.AcceptLoop` | crates/ward-agent/src/relay.rs:105-136 | serving any clients is a run of the step system in which each client becomes a connection or a refusal, and the spawn outcomes are those of the clients that got a slot, in order, until a panic ends the process |
| `Calendar.CivilHasItsNumber` | crates/ward-bench/src/lib.rs:131-152 | for every integer the result is a real proleptic Gregorian date with that day number |
| `Calendar.CivilInvertsDayNumber` | crates/ward-bench/src/lib.rs:131-152 | the conversion inverts the day count on every date, and the next number is the next calendar day |
| `Calendar.CivilStepsByDay` | crates/ward-bench/src/lib.rs:131-152 | consecutive numbers are consecutive days |
| `Calendar.IntermediateBounds` | crates/ward-bench/src/lib.rs:141-152 | every bound noted beside an intermediate value holds |
| `Calendar.OverflowsExactlyAtTheTop` | crates/ward-bench/src/lib.rs:131-152 | the signed arithmetic stays in 64 bits exactly up to i64::MAX - 719468 |
| `Timestamps.LaterReadsLater` | crates/ward-bench/src/lib.rs:115-129 | before the year 10000 a later second has a later text |
| `Timestamps.TextOrderIsTimeOrderExactlyBefore` | crates/ward-bench/src/lib.rs:115-129 | text order is time order below a bound exactly when the bound is at most the year 10000 |
| `Timestamps.TimestampRoundTrip` | crates/ward-bench/src/lib.rs:115-129 | the fields of the text recombine to the same second |
| `Percentiles.Percentile` | crates/ward-bench/src/stats.rs:112-122 | returns a sample, none exactly for no samples, and the nearest-rank one for 0 < q <= 1 |
| `Percentiles.NearestRankExactlyWhen` | crates/ward-bench/src/stats.rs:112-122 | at least the wanted count at or below it and fewer strictly below, exactly for 0 < q <= 1 |
| `Percentiles.PercentileIgnoresOrder` | crates/ward-bench/src/stats.rs:112-122 | the order of the samples does not matter |
| `Percentiles.PercentileIsMonotone` | crates/ward-bench/src/stats.rs:112-122 | a larger fraction gives no smaller sample |
| `Percentiles.ReportedFiguresAreOrdered` | crates/ward-bench/src/stats.rs:43-81 | minimum, median, 99th percentile and maximum are samples and in order |
| `Summary.Sanitise` | crates/ward-agent/src/hook.rs:109-117 | the backward loop yields the longest whole-character prefix of the visible text within 256 bytes, giving up at most three |
| `Summary.VisibleByParts` | crates/ward-agent/src/hook.rs:109-117 | the visible text is that of its parts, and of one character it is the character exactly unless that is a control character |
| `Summary.SanitisedIsFixed` | crates/ward-agent-adapter/src/wire.rs:75-79 | the result passes the summary check, a text is left alone exactly when it passes, and sanitising is idempotent |
| `Utf8.BoundariesAreCharEnds` | crates/ward-agent/src/hook.rs:109-117 | one byte decides whether whole characters end at a position |
| `Utf8.EncodedSpellsTheCharacter` | crates/ward-agent/src/hook.rs:109-117 | the bytes counted for a character spell its code point and are as few as that allows |
| `ContractVersions.ParseIsInverseOfPrint` | crates/ward-agent-adapter/src/contract.rs:64-88 | a text parses to a version exactly when it is that version printed |
| `ContractVersions.PrintShowsMajorFirst` | crates/ward-agent-adapter/src/contract.rs:64-88 | the number before the first dot is the major version and the one behind it the minor |
| `ConfigWriter.BuildConfig` | crates/ward-cli/src/init.rs:698-767 | appending line by line, branch by branch, produces the rendered list of entries |
| `ConfigWriter.WidestPath` | crates/ward-cli/src/init.rs:662-669 | the loop computes the column width |
| `ConfigWriter.WidthIsWidest` | crates/ward-cli/src/init.rs:662-669 | that width is the greatest byte length among the paths |
| `ConfigWriter.Writer.ProtectedItems` | crates/ward-cli/src/init.rs:662-669 | appends one aligned item per protected input, in order |
| `ConfigWriter.Writer.Inputs` | crates/ward-cli/src/init.rs:674-689 | appends the read-only inputs and the gaps as comments |
| `CommandLines.ActiveByPosition` | crates/ward-cli/src/init.rs:397-400 | a text has an active line exactly when, behind a line break, it has a break, then only blanks, then the key |
| `CommandLines.ActiveByEntry` | crates/ward-cli/src/init.rs:397-400 | a text written entry by entry is active exactly when an entry begins with the key or carries it behind a break of its own |
| `VerifierConfig.SuggestionsAreActiveExactlyWhen` | crates/ward-cli/src/init.rs:698-767 | an unaccepted config is active exactly when a string of the survey that the text quotes carries a command line behind a line break, said field by field |
| `VerifierConfig.BrokenPathBecomesActive` | crates/ward-cli/src/init.rs:734-747 | every proposal whose first protected path has a line break with `command:` behind it is written active without acceptance |
| `VerifierConfig.UnbrokenSurveysAreInert` | crates/ward-cli/src/init.rs:698-767 | a survey without line breaks has no such string |
| `VerifierConfig.AcceptedIsActive` | crates/ward-cli/src/init.rs:709-723 | an accepted config is always active, whatever the command text |
| `ConfigReading.AcceptedRunsItsCommand` | crates/ward-cli/src/init.rs:709-723 | read back from its lines, an accepted config has exactly one active line, and behind its key and one blank stands the accepted command, less a final carriage return; for proposals without line breaks |
| `ConfigReading.AcceptedProtectsItsPaths` | crates/ward-cli/src/init.rs:709-723 | read back, the list between `tests:` and `verify:` is exactly the proposal's paths, in order, for paths that read back from a list item |
| `ConfigReading.ItemLineReadsBackExactlyWhen` | crates/ward-cli/src/init.rs:662-669 | a path reads back from its list item exactly when it has no blank before a number sign and does not end in a blank |
| `ConfigReading.AcceptedShowsReasons` | crates/ward-cli/src/init.rs:662-669 | each protected path stands beside its reason |
| `ConfigReading.AcceptedShowsGapsAndInputs` | crates/ward-cli/src/init.rs:674-689 | each gap and each read-only input has its line |
| `ConfigReading.AcceptedNamesItsEvidence` | crates/ward-cli/src/init.rs:716-721 | each piece of evidence is named on a line |
| `ConfigReading.SuggestedCommandsAreShown` | crates/ward-cli/src/init.rs:734-764 | every proposal nobody accepted has its command on a line, commented out |
| `ConfigReading.SuggestedPathsAreShown` | crates/ward-cli/src/init.rs:734-764 | and each path it would protect |
| `ConfigReading.ReasonsAreShown` | crates/ward-cli/src/init.rs:724-733 | when nothing can be proposed every reason has its line |
| `ConfigReading.EndsWithTheBudget` | crates/ward-cli/src/init.rs:765-766 | every config ends by setting the budget to 600 seconds |
| `VerifierConfig.ProposalsAreMarked` | crates/ward-cli/src/init.rs:734-764 | every proposal, one or several, contains the marker a later run looks for |
| `VerifierConfig.BlankIsMarkedExactlyWhen` | crates/ward-cli/src/init.rs:724-733 | the blank contains the marker exactly when a reason it quotes does |
| `Wording.WordingIsProse` | crates/ward-cli/src/init.rs:674-767 | the comment lines as worded are single comment lines without the proposal marker, which is all the theorems ask of them |
| `InitRuns.ConfigChangesExactlyWhen` | crates/ward-cli/src/init.rs:405-556 | a run changes the boundary exactly when the policy and `.gitignore` steps are not refused and it is absent in a directory that admits it, or it is init's own single-linked writable proposal and the only proposal is accepted |
| `InitRuns.DryRunWritesNothing` | crates/ward-cli/src/init.rs:223-264 | a dry run leaves all three files as they are |
| `InitRuns.ReportTells` | crates/ward-cli/src/init.rs:223-264 | a successful run's report says of each file what was done, and of the boundary how it ended up, in terms of the files and the options |
| `InitRuns.DryRunPredictsExactlyWhen` | crates/ward-cli/src/init.rs:348-382 | a dry run reports what the real run would, errors and their places included, exactly unless a directory refuses a file that must be created or that run would ask and hear yes |
| `InitRuns.RefusedDirectoryIsNotForeseen` | crates/ward-cli/src/init.rs:491-532 | with a symlink or other node in the place of `.ward` and no policy behind it, the dry run announces the policy and the real run is refused before it writes anything |
| `InitRuns.SettledForever` | crates/ward-cli/src/init.rs:405-422 | a user's own, an accepted or a non-plain boundary never changes, over any runs |
| `InitRuns.AtMostTwoChanges` | crates/ward-cli/src/init.rs:405-466 | over any runs the boundary changes at most twice, each time moving on from absent to proposed to settled |
| `InitRuns.WrittenByOneRun` | crates/ward-cli/src/init.rs:417-466 | a changed boundary is the whole text of one of the runs that were not dry |
| `InitRuns.ActiveExactlyWhen` | crates/ward-cli/src/init.rs:348-466 | over any runs a command becomes active exactly when some run that wrote the boundary was accepted, or had a quoted survey string that carries a command line behind a line break |
| `InitRuns.ActiveOnlyByAcceptance` | crates/ward-cli/src/init.rs:348-382 | over runs whose surveys have no such string, an active command is the accepted boundary of a run in which the only proposal was accepted |
| `InitRuns.BrokenPathSettlesUnaccepted` | crates/ward-cli/src/init.rs:405-422 | one run with such a path, nobody accepting, writes an active command that no later run changes |
| `InitRuns.AcceptedForever` | crates/ward-cli/src/init.rs:405-466 | once written, an accepted boundary is what every later run leaves there; for a proposal without line breaks it runs the accepted command and no other and, where its paths read back from list items, protects exactly those |
| `InitRuns.ProposalWaits` | crates/ward-cli/src/init.rs:405-422 | an existing boundary is unchanged for as long as nobody accepts |
| `InitRuns.ProposalAwaitsExactlyWhen` | crates/ward-cli/src/init.rs:405-412 | a freshly written proposal is recognised as awaiting acceptance exactly unless it is active already |
| `InitRuns.BlankSettlesExactlyWhen` | crates/ward-cli/src/init.rs:405-412 | the blank is final exactly unless a quoted reason carries the marker and none carries a command line |
| `InitRuns.PolicyWrittenOnce` | crates/ward-cli/src/init.rs:526-556 | the policy file is left alone or, when absent, written once as the template |
| `InitRuns.AddSessionsIsIdempotent` | crates/ward-cli/src/init.rs:580-647 | after one success the second run reports kept, or skipped, and changes nothing |
| `InitRuns.GitignoreGrowsOnce` | crates/ward-cli/src/init.rs:580-647 | over any runs `.gitignore` is left alone or gains its lines once, behind all that was there |
| `InitFiles.File.WriteNew` | crates/ward-cli/src/init.rs:526-556 | creates only where nothing is and the directory admits it, and only when not dry; otherwise nothing changes and a refusal is named |
| `InitFiles.File.OpenRealDir` | crates/ward-cli/src/init.rs:491-515 | creates a missing directory, and refuses a symlink or any other node in its place |
| `InitFiles.File.ReplaceProposed` | crates/ward-cli/src/init.rs:429-466 | cut and rewritten only if it is init's own unaccepted proposal; each refusal named |
| `InitFiles.File.Boundary` | crates/ward-cli/src/init.rs:417-422 | replacement on acceptance of an existing node, creation otherwise; nothing changes when dry, when refused or when an existing node is not accepted |
| `InitFiles.File.IgnoreSessions` | crates/ward-cli/src/init.rs:580-647 | writing the longer text's bytes from the start, without truncation, leaves exactly that text; the file is left alone or grows behind what was there |
| `InitFiles.Project.Init` | crates/ward-cli/src/init.rs:223-264 | one run changes the three files and their directories and reports as the step function says, errors included |
| `InitFiles.Project.InitAll` | crates/ward-cli/src/init.rs:223-264 | any number of runs is the history the theorems speak about |
| `Gitignore.RecognisedExactly` | crates/ward-cli/src/init.rs:651-658 | the lines recognised are exactly the two names between slashes and trailing globs, spelled out |
| `Gitignore.AddsToTheText` | crates/ward-cli/src/init.rs:622-627 | the old text is a proper prefix of the new one, which is recognised as covering the session state |
| `Gitignore.KeepsTheLines` | crates/ward-cli/src/init.rs:622-627 | no earlier line is lost, and none is changed exactly unless the text ended in a bare carriage return |
| `Gitignore.OverwriteIsExact` | crates/ward-cli/src/init.rs:628-635 | in bytes, writing the new text over the old one leaves no remainder |

## Left out

- EveryLeaseHasOneLineage: states uniqueness only for runs in which an identity names one lease; the code accepts others, for which `DelegationChainExists` states what remains.
- Percentile: ranks are computed over the reals; floating-point rounding and the conversion to milliseconds are not modelled.
- Compile: BPF generation, its size limit and the masking of errno values are not modelled; syscall tables are arbitrary maps.
- `ward init`: creation of the project directory itself, races between runs, failures while a file already opened is being written, the TamperWard step and its own policy file, and the rendering of the report are not modelled.
- The policy template's text is a parameter.
- Panics outside the two pumps of the relay.
- Sorting uses a function specified as the sorted permutation; the library's in-place unstable sort is not modelled.
- Character validators of capability, resource and other names, and canonical lists of semantic events, which would only repeat the grant-set theorems.
- JSON encoding of wire values; signatures; clocks, sockets and thread I/O.
- How a survey reads the project's files; any strings may come out of it.
- Choosing the field that is summarised in the hook client; only the sanitising of the chosen text is modelled.
- The daemon, proxy, node transport, desktop and event-log crates.

# Assisted installer agent: a verified model

The agent runs on a host that is about to be installed. It asks the service for steps, carries them out
and posts the replies. This project models the parts of it where many things have to go right at once,
and proves what they keep:

- **Free addresses** (`BigEndian`, `DottedQuad`, `FreeAddresses`, `WholeSpace`, `AddressRequests`).
  In-place arithmetic on big-endian buffers; a network scanned chunk by chunk, proved to be a plain
  filter over its addresses; the scan of 0.0.0.0/0, which may go round for ever.
- **Connectivity check** (`FanIn`, `StableSort`, `Gathering`, `ConnectivityJobs`, `ConnectivityReport`,
  `ConnectivityCheck`). Goroutines, a wait group and a bounded channel as a transition system with every
  schedule; the checks a host is due, what they report, and the answer over all hosts: exactly when it
  does not depend on the schedules.
- **Disk speed check** (`DiskSpeed`). The same transition system with a collector that waits first.
- **Step replies** (`ReplyCache`, `StepRunner`). The cache that suppresses replies the service already
  has, under every interleaving of lookup, post and store; the semaphores around the upgrade and image
  availability actions; when a step makes the agent restart.
- **Logs** (`LogsSender`). The gatherer and the collector of partial logs as two processes.
- **Boot artifacts** (`BootArtifacts`). Copying into the boot folder with failures, kills and power
  losses between any two system calls, and with stats that fail on files that exist.
- **Image availability** (`ImageAvailability`). Many pulls under one deadline.
- **Data cores** (`DiskIds`, `LastLease`, `V6Prefixes`). Identifiers of disks, the last lease of a lease
  file, and IPv6 prefix lengths rewritten in place.

Concurrent code is a transition system: a state, the steps that are enabled in it, and what a step does.
A run is a sequence of enabled steps from the initial state, and the theorems speak of every run. Code
that updates a buffer, an object or a list is a method, proved against a function of the old state; the
theorems are about that function.

Eight properties one might expect are false of the code. Each has a concrete case that shows it and a
theorem that says exactly when the property holds:

| expected | holds exactly when | shown by |
|---|---|---|
| the report of a host, and the whole answer, is the same for every schedule | no two results of a host hold different entries with one sort key, and hosts with one identifier have the same entries | `ReportDeterminedIff` and `RunDeterminedIff`; `TwoNicsTie` |
| suppressing replies is invisible to the service | sends of a type do not overlap and no acknowledgement is lost | `InvisibleIff`; `OverlapShows`, `LostAckShows` |
| the scan of 0.0.0.0/0 ends | some nmap run fails or, over all passes together, 8000 answers are "not up"; in a network that does not change: some address is not up | `WholeSpaceScanStopsIff`, `StableScanStopsIff`; `FullNetworkScanNeverStops`, `FreeOnceIsNotEnough` |
| a bootloader entry exists only beside a complete kernel and initrd, so that the "already present" shortcut is safe | no stat of an existing file fails | `OrderHoldsIff`; `MisreadBreaksOrder` |
| the boot artifacts that a run finds already present include a complete bootloader entry | the run that created the entry wrote all of it, the power not failing before it had synced it | `EntryCompleteIff`; `TornEntryStays`, `ShakenEntryIsAnything` |
| no pull of a request that obeys its timeout ends after the deadline | no image that may still have a second left spends time before its pull, the first one no more than the fraction of a second that rounding drops | `NeverLateIff`; `DeadlineCanPass` |
| disks get different identifiers | they do not share a device path without a link or bus path that tells them apart | `SameIdIff`; `SharedBusPathClashes` |
| a lease block at the end of a text is extracted | it starts the text or follows white space | `AppendedIsExtracted`; `GluedIsNotExtracted` |

Two things the code does that its names do not say: the limit of 8000 free addresses is checked between
chunks only, so up to 9023 are returned (`ChunkedScanRefinesFilter`); and IPv4-mapped IPv6 addresses with a route come out of the prefix rewriting
as dotted IPv4 text (`V6Prefixes.WithPrefix`).

## Model

| member | source | states |
|---|---|---|
| `BigEndian.Carry` | src/free_addresses/free_addresses.go:58-65 | increments the bytes before a position in place, leaves the rest alone |
| `BigEndian.Inc` | src/free_addresses/free_addresses.go:35-42 | the new buffer is the incremented old one |
| `BigEndian.IncrementedValue` | src/free_addresses/free_addresses.go:35-42 | incrementing adds 1 to the big-endian value modulo 2^(8n), for every length n |
| `BigEndian.IncSubnet` | src/free_addresses/free_addresses.go:50-66 | the new buffer is the old one stepped by one subnet; mask 0 changes nothing |
| `BigEndian.SubnetBitWeight` | src/free_addresses/free_addresses.go:53-56 | the bit that is added has weight 2^(8n - mask) in the whole buffer |
| `BigEndian.SubnetIncrementedValue` | src/free_addresses/free_addresses.go:44-66 | stepping by a subnet adds 2^(8n - mask) modulo 2^(8n), for every mask from 1 to 8n |
| `BigEndian.SubnetIsIteratedInc` | src/free_addresses/free_addresses.go:35-66 | stepping by a subnet equals incrementing 2^(8n - mask) times |
| `DottedQuad.DottedInjective` | src/free_addresses/free_addresses.go:115-119 | different addresses have different texts, so looking names up in the occupied set confuses none |
| `DottedQuad.DottedIs` | src/free_addresses/free_addresses.go:116-118 | the text of an address is its four bytes as decimal numerals without leading zeros, first byte first, with dots between |
| `FreeAddresses.CollectOccupied` | src/free_addresses/free_addresses.go:103-113 | the loops over hosts and addresses collect the set of occupied names |
| `FreeAddresses.OccupiedExact` | src/free_addresses/free_addresses.go:103-113 | a name is occupied if and only if it is the first IPv4 address of a host that is up |
| `FreeAddresses.FirstIpv4Iff` | src/free_addresses/free_addresses.go:107-111 | the address taken for a host is the first of its addresses of type "ipv4" |
| `FreeAddresses.UpIff` | src/free_addresses/free_addresses.go:103-118 | an address is up if and only if the run over its chunk succeeded and lists an up host whose first IPv4 address is the text of the address |
| `FreeAddresses.NameIs` | src/free_addresses/free_addresses.go:116-118 | the name of address number v is v in dotted decimal, most significant byte first |
| `FreeAddresses.FreeValuesExact` | src/free_addresses/free_addresses.go:114-120 | the reference filter holds exactly the addresses that are not up, each once, ascending |
| `FreeAddresses.ListFree` | src/free_addresses/free_addresses.go:114-120 | the loop over one chunk lists exactly the free addresses of the chunk, and ends although the last increment may wrap |
| `FreeAddresses.ScanSubNetwork` | src/free_addresses/free_addresses.go:80-122 | a subnet with host bits is rejected; otherwise the free addresses or the failure of nmap |
| `FreeAddresses.StepWraps` | src/free_addresses/free_addresses.go:114-158 | on 4-byte buffers both increments add 1 or the chunk size and wrap at 2^32 |
| `FreeAddresses.NetworkFits` | src/free_addresses/free_addresses.go:158 | a network of prefix length at least 1 lies inside the address space, and if it ends it, 0.0.0.0 is outside the network |
| `FreeAddresses.ChunksTile` | src/free_addresses/free_addresses.go:145-159 | chunks are aligned, of at most 1024 addresses, and tile the network exactly |
| `FreeAddresses.ChunkPosition` | src/free_addresses/free_addresses.go:158 | the loop test holds exactly for the chunks of the network, also when the last chunk wraps to zero |
| `FreeAddresses.AllFreeIs` | src/free_addresses/free_addresses.go:114-120 | the reference list of a network names exactly the addresses of its range that are not up, ascending |
| `FreeAddresses.ScanChunks` | src/free_addresses/free_addresses.go:158-166 | the loop stops at the limit, at the end or at a failure, having listed the chunks before; no chunk is rejected as non-canonical |
| `FreeAddresses.ChunkedScanRefinesFilter` | src/free_addresses/free_addresses.go:124-167 | the answer is a duplicate-free prefix of all free addresses, all of them if fewer than 8000, and at most 9023 |
| `WholeSpace.CursorAt` | src/free_addresses/free_addresses.go:158-165 | with prefix length 0 the cursor after k chunks is chunk k modulo 2^22, for ever |
| `WholeSpace.ScanWholeSpace` | src/free_addresses/free_addresses.go:158-166 | wherever the loop over 0.0.0.0/0 ends at all, it ends at the first chance with all it has found, or the failure |
| `WholeSpace.FoundExact` | src/free_addresses/free_addresses.go:158-165 | after k chunks the loop has found each answer "not up" of every pass so far, once |
| `WholeSpace.AnswerBound` | src/free_addresses/free_addresses.go:158-166 | at most 9023 addresses are returned for 0.0.0.0/0 too |
| `WholeSpace.WholeSpaceScanStopsIff` | src/free_addresses/free_addresses.go:158-165 | for an nmap that may answer differently on every pass, the scan ends if and only if some run fails or at least 8000 answers over all passes are "not up" |
| `WholeSpace.StableScanStopsIff` | src/free_addresses/free_addresses.go:158-165 | in a network that does not change, the scan ends if and only if some address is not reported up |
| `WholeSpace.FullNetworkScanNeverStops` | src/free_addresses/free_addresses.go:158-165 | if every address is up, the loop goes round for ever |
| `WholeSpace.FreeOnceIsNotEnough` | src/free_addresses/free_addresses.go:158-165 | so it does if 1024 addresses are free on the first pass and none later |
| `AddressRequests.ScanNetwork` | src/free_addresses/free_addresses.go:124-167 | every kind of request text: malformed, non-canonical, IPv6, 0.0.0.0/0 where its scan ends, and the other IPv4 networks with the chunked scan |
| `AddressRequests.GetFreeAddresses` | src/free_addresses/free_addresses.go:169-191 | one record per network in request order, or the first failure with all networks before it scanned |
| `FanIn.ControlKept` | src/connectivity_check/connectivity_runner.go:73-139 | every step keeps the wait-group count, closing and channel bounds consistent with the jobs |
| `FanIn.InvKept` | src/connectivity_check/connectivity_runner.go:73-139 | every step keeps every result in exactly one place: unsent, in the channel or received |
| `FanIn.RunsAreSafe` | src/connectivity_check/connectivity_runner.go:73-139 | no run sends on a closed channel or makes the wait group negative; a finished run has received each result exactly once |
| `FanIn.NoDeadlock` | src/connectivity_check/connectivity_runner.go:73-139 | until the collection is finished, some step is enabled |
| `FanIn.StepWorks` | src/connectivity_check/connectivity_runner.go:73-139 | every step decreases the remaining work |
| `FanIn.EveryScheduleFinishes` | src/connectivity_check/connectivity_runner.go:73-139 | no schedule of n jobs has more than 5n + 3 steps, and one that cannot go on is finished |
| `FanIn.ConcurrentDrainNeverBlocks` | src/connectivity_check/connectivity_runner.go:129-138 | collecting while jobs are at work never blocks, however many jobs, with any buffered channel (or nobody sending) |
| `FanIn.WaitThenDrainBlocksIff` | src/disk_speed_check/disk_speed_check.go:49-91 | waiting first never blocks if and only if the channel has room for every result |
| `FanIn.ArrivalOrders` | src/connectivity_check/connectivity_runner.go:133-137 | the orders in which results can arrive are exactly the orderings of the jobs that report |
| `StableSort.SortInPlace` | src/connectivity_check/connectivity_runner.go:157-159 | the array becomes the stably sorted old one |
| `StableSort.SortCorrect` | src/connectivity_check/connectivity_runner.go:157-159 | sorted, a permutation, and equal keys in their old order |
| `StableSort.LeqIff` | src/connectivity_check/connectivity_runner.go:157-159 | the order of strings: a prefix comes first, otherwise the first difference decides |
| `StableSort.SortedAlike` | src/connectivity_check/ping_checker.go:40-45 | permutations of a list are sorted to lists that differ in ties only, and equal ones if there are none |
| `Gathering.SchedulesAgree` | src/connectivity_check/connectivity_runner.go:133-138 | gathered in any two arrival orders and sorted, lists agree up to ties, and are equal without ties |
| `Gathering.DeterminedIff` | src/connectivity_check/connectivity_runner.go:133-138 | all arrival orders give one sorted list if and only if there are no ties |
| `ConnectivityJobs.SpawnCheckers` | src/connectivity_check/connectivity_runner.go:104-126 | one job per checker of the wanted kind, in order |
| `ConnectivityJobs.SpawnForAddress` | src/connectivity_check/connectivity_runner.go:105-126 | the jobs for one address of a NIC |
| `ConnectivityJobs.SpawnForHost` | src/connectivity_check/connectivity_runner.go:102-128 | the jobs of the nested loops over NICs and addresses |
| `ConnectivityJobs.HostJobsIff` | src/connectivity_check/connectivity_runner.go:102-128 | a job is started if and only if it is for a non-empty address of a NIC, by a listed checker, with an outgoing NIC if and only if the checker asks for one |
| `ConnectivityJobs.NicJobsCount` | src/connectivity_check/connectivity_runner.go:104-126 | the number of jobs is the number of non-empty addresses times the checks per address |
| `ConnectivityJobs.HostJobsCount` | src/connectivity_check/connectivity_runner.go:103-128 | the number of jobs of a host is the number of its non-empty addresses times the checks per address |
| `ConnectivityJobs.AddressOfIs` | src/connectivity_check/util.go:102-108 | the address is what stands before the first slash, or all of the text |
| `ConnectivityReport.ResultingHost.constructor` | src/connectivity_check/connectivity_runner.go:88-100 | an empty report for the host |
| `ConnectivityReport.ResultingHost.Report` | src/connectivity_check/ping_checker.go:51-54 | appends to the list of its layer and leaves the other lists alone |
| `ConnectivityReport.ResultingHost.Finalize` | src/connectivity_check/ipv4_arping_checker.go:103-116 | sorts all three lists in place by their keys |
| `ConnectivityReport.Deduplicate` | src/connectivity_check/ipv4_arping_checker.go:67-92 | one entry per answering MAC address, ignoring case, with its flag |
| `ConnectivityReport.Emit` | src/connectivity_check/ipv4_arping_checker.go:93-97 | every value of the map once, in any order of iteration |
| `ConnectivityReport.EmissionsAlike` | src/connectivity_check/ipv4_arping_checker.go:93-112 | any two orders of iteration give the same entries, no two of them with one sort key |
| `ConnectivityReport.LowerIs` | src/connectivity_check/ipv4_arping_checker.go:76 | lower-casing maps A-Z to a-z and leaves everything else |
| `ConnectivityReport.ProcessArrivals` | src/connectivity_check/connectivity_runner.go:132-139 | the report after collecting results in an order of arrival and finalizing |
| `ConnectivityReport.HostSteps` | src/connectivity_check/connectivity_runner.go:129-138 | in every run the host changes only by reporting each result as it is received and by finalizing, once, after the last |
| `ConnectivityReport.ProcessHostSafe` | src/connectivity_check/connectivity_runner.go:73-139 | for every schedule of any results: no panic of channel or wait group, no deadlock, each non-empty result received once |
| `ConnectivityReport.HostReportsAgree` | src/connectivity_check/connectivity_runner.go:133-138 | two schedules with the same results report the same up to ties, and identically without ties, even if arping lists its entries differently |
| `ConnectivityReport.ReportEntries` | src/connectivity_check/connectivity_runner.go:133-138 | the report of a host holds exactly the entries of all its results, as multisets |
| `ConnectivityReport.ReportCounts` | src/connectivity_check/connectivity_runner.go:133-138 | in every finished run the report has each entry of each layer exactly as often as the results have it |
| `ConnectivityReport.ReportHolds` | src/connectivity_check/ping_checker.go:51-54 | an entry is in the report if and only if some result is it, or lists it |
| `ConnectivityReport.ReportSorted` | src/connectivity_check/mtu_checker.go:87-92 | in every finished run layer 2 is sorted by address and MAC, layer 3 and MTU by address |
| `ConnectivityReport.EntriesDecide` | src/connectivity_check/connectivity_runner.go:133-138 | without ties, the entries alone determine the report, whatever checks and schedules they came from |
| `ConnectivityReport.ReportDeterminedIff` | src/connectivity_check/connectivity_runner.go:133-138 | the report is the same for every schedule if and only if there are no ties |
| `ConnectivityReport.RunNeverBlocks` | src/connectivity_check/connectivity_runner.go:141-156 | the counted collection over all hosts never blocks |
| `ConnectivityReport.RunKeysAgree` | src/connectivity_check/connectivity_runner.go:141-163 | any two runs list the same host identifiers in the same places |
| `ConnectivityReport.RunOrder` | src/connectivity_check/connectivity_runner.go:149-159 | a run lists the hosts sorted by identifier, hosts with one identifier in order of arrival |
| `ConnectivityReport.RunSorted` | src/connectivity_check/connectivity_runner.go:157-159 | every run returns each host's report once, sorted by identifier |
| `ConnectivityReport.RunsAgree` | src/connectivity_check/connectivity_runner.go:141-163 | any two schedules of the hosts list them in orders that differ in ties only, and in one order if identifiers are distinct |
| `ConnectivityCheck.FindNetwork` | src/connectivity_check/ipv4_arping_checker.go:28-38 | arping is tried if and only if some network of the NIC contains the address and none before it fails to parse |
| `ConnectivityCheck.PingAddresses` | src/connectivity_check/mtu_checker.go:47-84 | the loop over local addresses computes that |
| `ConnectivityCheck.MtuOverIs` | src/connectivity_check/mtu_checker.go:47-84 | the first local address of the family that does not fit decides: no report if nothing came back, failure otherwise; without one the MTU fits |
| `ConnectivityCheck.Check` | src/connectivity_check/ipv4_arping_checker.go:23-101 | for each of the four checkers, whether its command is tried and what is reported for what it finds |
| `ConnectivityCheck.ChecksAlike` | src/connectivity_check/ipv4_arping_checker.go:93-97 | the same findings lead to the same result up to the order of arping's entries, and no result has two entries with one sort key |
| `ConnectivityCheck.RunChecks` | src/connectivity_check/connectivity_runner.go:73-128 | a result for every check started for the host |
| `ConnectivityCheck.ChecksStarted` | src/connectivity_check/connectivity_runner.go:102-128 | every non-empty address is pinged once, and asked for by arping, nmap and the MTU check through every outgoing NIC; there are no other checks |
| `ConnectivityCheck.ProcessHostReports` | src/connectivity_check/connectivity_runner.go:88-139 | for every host and schedule: the checks started are exactly those due, no panic of channel or wait group, no deadlock, each non-empty result of each check reported once |
| `ConnectivityCheck.HostRunsAgree` | src/connectivity_check/connectivity_runner.go:88-139 | any two ways to process a host with the same findings report the same up to ties, and identically without ties |
| `ConnectivityCheck.HostReportSays` | src/connectivity_check/connectivity_runner.go:88-139 | in every way to process a host, its report says exactly what its checks found: address, success, time and loss of every ping, NIC, addresses and MAC of every reply, and every MTU result |
| `ConnectivityCheck.ArpingTies` | src/connectivity_check/ipv4_arping_checker.go:103-112 | at any host, one address that answers with one MAC through two outgoing NICs makes the report depend on the schedule |
| `ConnectivityCheck.TwoNicsTie` | src/connectivity_check/ipv4_arping_checker.go:103-112 | such a host: one address, two outgoing NICs, all its checks started |
| `ConnectivityCheck.RunsReturnAlike` | src/connectivity_check/connectivity_runner.go:141-163 | any two runs of the whole check, with any schedules of the checks and of the hosts, return the same up to ties; identically if identifiers are distinct and no host has ties |
| `ConnectivityCheck.CheckReturns` | src/connectivity_check/connectivity_runner.go:141-163 | whatever the checks find, the whole check can return, with any order of arrival of the hosts |
| `ConnectivityCheck.RunDeterminedIff` | src/connectivity_check/connectivity_runner.go:141-163 | the answer of the whole check is the same for all schedules if and only if what the checks find has no ties within a host and hosts with one identifier have the same entries; the condition mentions no schedule and no report |
| `DiskSpeed.Drain` | src/disk_speed_check/disk_speed_check.go:53-76 | the greatest successful latency, or the last error if there is none |
| `DiskSpeed.LastErrorIs` | src/disk_speed_check/disk_speed_check.go:55-61 | the error named is the last one to arrive |
| `DiskSpeed.VerdictIs` | src/disk_speed_check/disk_speed_check.go:49-76 | for every finished run with non-negative latencies: the greatest latency any job measured, and an error if and only if every job failed |
| `DiskSpeed.VerdictsAgree` | src/disk_speed_check/disk_speed_check.go:49-76 | any two completion orders reach the same verdict, up to which error is named |
| `DiskSpeed.FioJobsNeverBlock` | src/disk_speed_check/disk_speed_check.go:49-51 | with one constant for the jobs and the capacity, waiting before draining never blocks |
| `DiskSpeed.WaitingIsSafeIff` | src/disk_speed_check/disk_speed_check.go:79-91 | the margin of that: waiting never blocks if and only if the channel has room for all jobs |
| `DiskSpeed.WorstOfAllJobs` | src/disk_speed_check/disk_speed_check.go:49-76 | for every completion order the responses drained are those of all jobs and have their maximum |
| `DiskSpeed.FailsIffAllFailed` | src/disk_speed_check/disk_speed_check.go:69-76 | with non-negative latencies, an error if and only if every job failed |
| `ReplyCache.Cache.constructor` | src/commands/reply_cache.go:12-14 | an empty cache |
| `ReplyCache.Cache.AlreadyExistsInService` | src/commands/reply_cache.go:16-19 | a hit if and only if the type is cached with this value |
| `ReplyCache.Cache.StoreInCache` | src/commands/reply_cache.go:21-23 | the value of one type is replaced, the others stay |
| `ReplyCache.Cache.InvalidateCache` | src/commands/reply_cache.go:25-27 | nothing is cached any more |
| `ReplyCache.SendStepReply` | src/commands/step_processor.go:62-92 | posted unless successful and cached; cached afterwards if successful and acknowledged |
| `ReplyCache.SendAloneMatches` | src/commands/step_processor.go:62-92 | the events of an undisturbed send do to the cache what the method does |
| `ReplyCache.CacheComesFrom` | src/commands/reply_cache.go:16-27 | what is cached was stored since, or was cached before and neither flushed nor expired |
| `ReplyCache.ForgottenIsPosted` | src/commands/step_processor.go:232-252 | after a flush, or the expiry of its type, a reply is suppressed only if one like it was stored since |
| `ReplyCache.ServiceHoldsLast` | src/commands/step_processor.go:78-91 | in every run the service holds for each type the output of the last success it accepted |
| `ReplyCache.HonestKept` | src/commands/step_processor.go:62-92 | every event keeps cached and suppressed replies backed by accepted successes |
| `ReplyCache.SuppressionIsHonest` | src/commands/step_processor.go:62-92 | in every interleaving a suppressed reply has exit code 0 and equals an earlier accepted success of its type; failures are never cached |
| `ReplyCache.AgreementKept` | src/commands/step_processor.go:62-92 | without overlap and lost acknowledgements every event keeps cache and service in agreement |
| `ReplyCache.CacheAgrees` | src/commands/step_processor.go:62-92 | then the service's last successes are what they would be without a cache |
| `ReplyCache.OverlapShows` | src/commands/step_processor.go:132-158 | with overlapping sends of a type some run leaves the service with another last success than without a cache |
| `ReplyCache.LostAckShows` | src/commands/step_processor.go:78-90 | with lost acknowledgements some run does the same |
| `ReplyCache.InvisibleIff` | src/commands/step_processor.go:62-92 | suppression is invisible in every run if and only if neither can happen |
| `StepRunner.Semaphore.TryAcquire` | src/upgrade_agent/upgrade_agent.go:67-74 | succeeds if and only if the semaphore is free; held afterwards |
| `StepRunner.Semaphore.Release` | src/upgrade_agent/upgrade_agent.go:75 | free afterwards |
| `StepRunner.Upgrade` | src/upgrade_agent/upgrade_agent.go:34-96 | the answer and exit code on every path, and the semaphore as it was before |
| `StepRunner.GuardedKept` | src/upgrade_agent/upgrade_agent.go:30-75 | every step keeps each semaphore held exactly while a goroutine is inside |
| `StepRunner.ConsistentKept` | src/commands/step_processor.go:122-158 | every step keeps what a goroutine will do about cancelling decided by whether it pulled |
| `StepRunner.MutualExclusion` | src/commands/actions/image_availability_cmd.go:12-39 | in every run at most one step is in each guarded section, and a semaphore is free if and only if nobody is inside |
| `StepRunner.CancelsIffUpgraded` | src/commands/step_processor.go:132-158 | over the events of every run: a step cancels only if its pull exited 0, and has cancelled when it ends if it did; the processor is cancelled if and only if some step did so |
| `StepRunner.RepliesAreExplained` | src/commands/step_processor.go:104-158 | in every run a reply says what the step's own action answered: the upgrade result follows the exit code of its pull, and only a failing reply has its exit code replaced by a problem found afterwards |
| `StepRunner.UpgradeRuns` | src/upgrade_agent/upgrade_agent.go:66-96 | an upgrade step pulls unless another is pulling, answers "success" or "failure" by the exit code, and frees the semaphore |
| `StepRunner.ImagesRun` | src/commands/actions/image_availability_cmd.go:28-39 | an image availability step checks unless another is checking, and frees the semaphore |
| `StepRunner.NeverStuck` | src/commands/step_processor.go:132-158 | a step can always move until it has ended |
| `StepRunner.MovesAdvance` | src/commands/step_processor.go:132-158 | every move brings its own step closer to its end and leaves the others alone |
| `LogsSender.InvKept` | src/logs_sender/send_logs.go:135-189 | every step of either process keeps the log of events in shape and the wait group consistent |
| `LogsSender.FinalLogsAreLast` | src/logs_sender/send_logs.go:331-436 | in every interleaving nothing partial follows the beginning of the final upload; "completed" comes after a successful final upload and is the last event |
| `LogsSender.FinalUploadWaits` | src/logs_sender/send_logs.go:183-189 | on the bootstrap host with installer gathering, in every run the final upload begins only after the collector was started, cancelled and has left |
| `LogsSender.LogIsOrdered` | src/logs_sender/send_logs.go:135-168 | in every run the log is the request, whole rounds of the collector (archive, report, archive, upload, cut short only by a failure) and the final upload in the same order |
| `LogsSender.PartialUploadsHappen` | src/logs_sender/send_logs.go:135-189 | for every n some run has n successful partial uploads before a successful final one |
| `LogsSender.FolderFails` | src/logs_sender/send_logs.go:371-374 | if the working folder cannot be created nothing more is reported |
| `LogsSender.CrashIsSilent` | src/logs_sender/send_logs.go:135-189 | a crash of the collector comes before the final upload and lets nothing follow |
| `LogsSender.NeverStuck` | src/logs_sender/send_logs.go:170-189 | the two processes never deadlock, and after the cancellation the collector can always leave |
| `LogsSender.EveryRunEnds` | src/logs_sender/send_logs.go:135-189 | a run with t ticks has at most 15 + 5t steps, and one that cannot go on has returned or crashed |
| `LogsSender.WaitIsBounded` | src/logs_sender/send_logs.go:183-186 | the gatherer waits for at most 6 steps, and 5 more per tick |
| `LogsSender.NoCollector` | src/logs_sender/send_logs.go:405-418 | without bootstrap gathering there is no collector and no crash |
| `BootArtifacts.InvKept` | src/commands/actions/download_boot_artifacts_cmd.go:361-407 | every system call, failure, kill and power loss keeps the order of the copies, if no stat of an existing file fails |
| `BootArtifacts.EntryInvKept` | src/commands/actions/download_boot_artifacts_cmd.go:378-407 | every event, failing stats included, keeps the entry a prefix of its source as long as the run that created it wrote |
| `BootArtifacts.EntryComesLast` | src/commands/actions/download_boot_artifacts_cmd.go:361-407 | in every run without failing stats of existing files, whenever the bootloader entry exists, kernel and initrd are complete and synced, from the run that created the entry |
| `BootArtifacts.ShortcutIsSafe` | src/commands/actions/download_boot_artifacts_cmd.go:127-141 | in every such run the shortcut is taken if and only if the entry exists, and skips no incomplete kernel or initrd |
| `BootArtifacts.MisreadBreaksOrder` | src/commands/actions/download_boot_artifacts_cmd.go:127-141 | one failing stat and a kill leave an entry beside an empty kernel, which the next run accepts |
| `BootArtifacts.OrderHoldsIff` | src/commands/actions/download_boot_artifacts_cmd.go:127-141 | the entry comes last in every run if and only if no stat of an existing file fails |
| `BootArtifacts.CopyFile` | src/commands/actions/download_boot_artifacts_cmd.go:378-407 | an undisturbed copy leaves the whole source synced and no other file changed |
| `BootArtifacts.RunInstalls` | src/commands/actions/download_boot_artifacts_cmd.go:83-125 | an undisturbed run that does not take the shortcut installs its payload whatever earlier runs left |
| `BootArtifacts.ShortcutTaken` | src/commands/actions/download_boot_artifacts_cmd.go:89-92 | a run that finds all three files ends with everything as it was |
| `BootArtifacts.InterruptedCanRetry` | src/commands/actions/download_boot_artifacts_cmd.go:94-120 | a run that fails or is killed leaves the folder as it is, and before it has created the entry a later run can install its payload |
| `BootArtifacts.RecordsMean` | src/commands/actions/download_boot_artifacts_cmd.go:361-407 | over the events of a run: the origin of the entry is a payload whose run was started, and the entry is shaken only if the power failed while it was there unsynced |
| `BootArtifacts.EntryFreezesFolder` | src/commands/actions/download_boot_artifacts_cmd.go:83-141 | with an entry and no failing stat, no later run changes the folder |
| `BootArtifacts.RunInstallsIff` | src/commands/actions/download_boot_artifacts_cmd.go:83-141 | a run can leave its payload in the folder if and only if there was no entry, or the payload was there already, or a stat of an existing file may fail |
| `BootArtifacts.EntryCompleteIff` | src/commands/actions/download_boot_artifacts_cmd.go:378-407 | failing stats or not, the entry is what the run that created it wrote of its source, so complete if and only if that run wrote all of it, unless the power failed before it had synced it |
| `BootArtifacts.TornEntryStays` | src/commands/actions/download_boot_artifacts_cmd.go:378-407 | a run killed after creating the entry leaves its own kernel and initrd complete and its entry empty, and, unless a stat fails, no later run changes the folder |
| `BootArtifacts.ShakenEntryIsAnything` | src/commands/actions/download_boot_artifacts_cmd.go:385-405 | if the power fails before the entry is synced, it may come back with any content |
| `ImageAvailability.Handle` | src/container_image_availability/container_image_availability.go:102-147 | the answer for one image: success if and only if there is time left, the pull exits 0 and the size of a new image can be read; size, time and rate of a new image, zeros otherwise |
| `ImageAvailability.Run` | src/container_image_availability/container_image_availability.go:149-175 | one answer per image in order, under the seconds left for each; exit code 2 if and only if one failed, -1 for an unreadable request |
| `ImageAvailability.PullTimeBounded` | src/container_image_availability/container_image_availability.go:160-167 | pulls that obey their timeouts take no longer together than the time left |
| `ImageAvailability.RequestTimeoutHolds` | src/container_image_availability/container_image_availability.go:149-168 | all pulls together take no longer than the timeout of the request |
| `ImageAvailability.GrantsDecrease` | src/container_image_availability/container_image_availability.go:160-167 | the seconds granted never increase |
| `ImageAvailability.PullEndsBy` | src/container_image_availability/container_image_availability.go:102-168 | a pull ends after the deadline by no more than the time spent before it |
| `ImageAvailability.NeverLateIff` | src/container_image_availability/container_image_availability.go:102-168 | for a whole request: no obedient choice of pull times makes any image late if and only if every image that may still have a second left is prompt, a condition without pull times |
| `ImageAvailability.PromptWithoutLag` | src/container_image_availability/container_image_availability.go:160-162 | if the first timeout is granted at once, prompt means no time at all before the pull |
| `ImageAvailability.DeadlineCanPass` | src/container_image_availability/container_image_availability.go:102-168 | a pull that obeys its timeout can end after the deadline |
| `DiskIds.CollectLinks` | src/inventory/disks.go:45-84 | the link of a path is that of the last matching entry that leads to it, and lies in the by-id directory if entry names are plain |
| `DiskIds.LinkForIs` | src/inventory/disks.go:53-83 | the link of a path is that of the last symbolic link named wwn- or nvme-eui that leads to it |
| `DiskIds.NoLinkFor` | src/inventory/disks.go:53-83 | a path to which no such entry leads has no link |
| `DiskIds.BusPath` | src/inventory/disks.go:516-531 | the by-path link if the bus path is known, shared with no other disk and linked |
| `DiskIds.ByPathIff` | src/inventory/disks.go:516-531 | a disk has its by-path link if and only if the bus path is known, no other disk has it and it is linked |
| `DiskIds.ByPathInjective` | src/inventory/disks.go:106-115 | no two disks have one by-path link |
| `DiskIds.LinksInjective` | src/inventory/disks.go:66-83 | different device paths have different by-id links |
| `DiskIds.GetDisks` | src/inventory/disks.go:428-510 | an appliance device is reported alone, without an identifier; otherwise the listing below |
| `DiskIds.ListDisks` | src/inventory/disks.go:446-510 | one record per disk that is to be returned, in order; with plain names and device paths outside the link directories, two records have one identifier if and only if nothing tells them apart |
| `DiskIds.SameIdIff` | src/inventory/disks.go:499-505 | whatever mix of by-id, by-path and path is used, identifiers are equal if and only if the paths are and nothing tells the disks apart |
| `DiskIds.SharedBusPathClashes` | src/inventory/disks.go:86-104 | two disks without device nodes on one bus path get one identifier |
| `LastLease.ExtractLastLease` | src/dhcp_lease_allocate/lease.go:81-92 | the group of every match there is, and an error for an unreadable file or a text without a match |
| `LastLease.MatchUnique` | src/dhcp_lease_allocate/lease.go:86 | a text matches the pattern in at most one way |
| `LastLease.ExtractIff` | src/dhcp_lease_allocate/lease.go:86-91 | a lease is extracted if and only if it is the group of a match |
| `LastLease.AppendedIsExtracted` | src/dhcp_lease_allocate/lease.go:86-91 | a lease block at the end, with white space after it, is extracted if and only if it starts the text or follows white space; otherwise nothing is |
| `LastLease.Idempotent` | src/dhcp_lease_allocate/lease.go:86-91 | an extracted lease is a lease block and is extracted from itself |
| `LastLease.TrailingSpace` | src/dhcp_lease_allocate/lease.go:86-91 | white space at the end changes nothing |
| `V6Prefixes.GetUsableRoutes` | src/util/network.go:80-97 | the usable routes in order |
| `V6Prefixes.Search` | src/util/network.go:68-74 | the first route of the list that contains the address |
| `V6Prefixes.SetV6Prefixes` | src/util/network.go:40-78 | every address is rewritten in place; on an error, and for an empty list, nothing changes |
| `V6Prefixes.FilterKeepsFirst` | src/util/network.go:51-74 | filtering the routes first does not change which one is found |
| `V6Prefixes.CoversIff` | src/util/network.go:99-115 | a route is used for an address if and only if it has an IPv6 destination, is advertised by a router, and address and destination lie in one block of its prefix length |
| `V6Prefixes.RewritingIs` | src/util/network.go:56-75 | the IP is kept; an address becomes itself with the prefix length of the first route that applies (IPv4-mapped: its low 32 bits and the part of the length beyond 96), and stays as it is if there is none |
| `V6Prefixes.RewritingIdempotent` | src/util/network.go:56-75 | rewriting twice is rewriting once |
| `V6Prefixes.ContainsIff` | src/util/network.go:68-71 | containment compares the leading bits, for IPv4-mapped addresses too, and never mixes mapped with unmapped |

## Left out

- ScanNetwork: where the scan of 0.0.0.0/0 never ends there is no result to state; `WholeSpaceScanStopsIff` says exactly where.
- DiskIds.GetDisks: how a name with separators or dot entries joins to a directory is an oracle.
- ProcessHostReports: panics inside a checker are not modelled; arping's cast of the error of a command that could not be started is one.
- ConnectivityCheck.Check: the parsing of addresses, networks and command output is part of the oracle.
- Finalize: the library's stable sort is modelled by insertion sort; `SortedUnique` and `SortCorrect` leave no other result.
- Upgrade: encoding the answer as JSON is taken to succeed.
- V6Prefixes.SetV6Prefixes: what the standard library parses and prints is a datatype, and masks of routes are contiguous.
- HTTP, TLS, retries of sessions, JSON and XML: requests, answers and nmap output are datatypes.
- External commands (nmap, ping, arping, fio, podman, dhclient, tar) and the parsing of their output are oracles.
- Errors of reporters, their aggregation and the dry-run checkers of the connectivity check.
- A collector of partial logs that returns before the wait group counts it is a crash of the whole program.
- Download retries and the free-space check of boot artifacts succeed or fail as one step; overlapping runs, and the durability of directory entries apart from file contents, are not modelled.
- Back-off, fairness and whether every step gets a reply in the main loop of the step processor.
- Overflow of 64-bit durations and rounding of floating-point seconds in the image availability check.
- Disk eligibility, drive types and the other fields of a disk; the other inventory collectors.
- Configuration, logging, and the remaining step actions, which are lookups and plumbing.

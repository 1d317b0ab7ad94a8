# Verified model of DockerSim's message passing, request splitting and network management

DockerSim is a discrete-event simulator of cloud systems. This project models the parts of it that
have algorithms and state of their own, in Dafny, and proves what they promise.

- **MPI and the master/worker application.** A process matches incoming calls against the one call it
  is blocked in (`MpiMatching`, `MatchingRuns`, `MpiEndpoint`), runs a centralised barrier (`Barrier`,
  `BarrierEndpoint`), and, in the HPC application, drives one master and its workers through
  iterations of reading, delivering, collecting and writing. `HpcProcess` gives what a process does
  between two points at which it waits; `HpcSet` puts a worker set together with a network that may
  delay and reorder everything, one event handler being one atomic step; `HpcSafety` and
  `HpcTermination` prove what holds over whole runs, `HpcWork` which local requests every member has
  answered in each iteration, and `HpcMessages` what the messages are and which connections they use. `ApplicationHpc` is the state machine of the program itself, with
  its recursive state function, proved to do exactly those steps. `Ranks` is the arithmetic of masters,
  workers and connections.
- **Splitting requests.** `Raid0` deals the sectors of a branch list (`BlockFile`) out over disks,
  `Raid0Striping` says what that means and `Raid0Sizes` where the stripes are cut; `MainMemory` cuts
  requests into memory blocks; `Nfs` cuts them into chunks. `Arrivals` is the table that tracks which sub-requests have come back, as a
  function of the operations on it, and `SplittingMessages` the objects that keep it in place.
- **The message trace.** `Trace` is the stack of nodes, modules and request numbers, its printed form
  and the comparison with a parent's printed form; `TraceFit` says which messages that comparison
  accepts; `TracePacking` sends a trace through a buffer; `Routing` shows that responses retrace
  requests.
- **The network manager.** `PortLookup` (bisection over a partial order), `PortTable` (two-level port
  table), `VirtualIps` and `NetworkManager` (address counter, printer, reader, allocation, searches).
- **Gates.** `Gates` is the allocator of module gates.

`Wrappers`, `Arith` and `Text` hold options and results, numbers and sets, and numbers and fields as text.

Objects that the program updates in place are classes whose methods are proved against functions on
values; the main results are about those functions and about runs of them. History fields (`tag`,
`accepted`, `rounds`, `entered`, `left`, `log`, `sent`) only record what happened. `MatchingIgnoresTags` proves
that no decision reads the tags.

Where the program does not do what it seems meant to do, the model follows the program and the exact
condition is proved:

- A worker set finishes if and only if it has at least two members
  (`HpcTermination.FinishesIffItHasWorkers`); the other results on runs of a set are for such sets.
- An empty branch can send a stripe to the wrong disk (`Raid0Striping.StripedIffEmptiesHarmless`,
  `Raid0Striping.EmptyBranchMisleads`).
- A RAID-0 sub-request gets the byte size of its last piece. All are right if and only if branches end
  between stripes (`Raid0Sizes.SizesRightIffBoundariesBetweenStripes`, `Raid0Sizes.HalfStripeSizeIsWrong`).
- Duplicate arrivals can complete a parent too early (`Arrivals.CompletionIsExact`,
  `Arrivals.DuplicateCompletes`).
- A trace survives packing only if it meets a condition (`TracePacking.RoundTrip`).
- The port lookup takes a single node unchecked (`PortLookup.PortDirectory.GetNodeFromPortsTable`).
- NFS chunks keep the size of the whole request, which is right if and only if there is one chunk
  (`Nfs.SizesRightIffUnsplit`, `Nfs.SplitSizesAreWrong`).
- A message from a host with an '@' in its name can fit a parent it does not come from
  (`TraceFit.FitsExactly`, `TraceFit.HostWithAtMisleads`).
- A user's addresses run out without an error (`NetworkManager.RunsOutAtCapacity`).
- When all linked sub-requests are responses, the last one is handed out again
  (`SplittingMessages.IcancloudRequest.PopNextSubRequest`).

Inputs from outside are parameters or events: the order of deliveries and local answers, the results
of file calls, whether a request is pending, the gate paired with an arrival gate, pointers (as
numbers), and what the variables of a reader hold before `sscanf` reads text that is no address.

Verify with `dafny verify dfyconfig.toml`.

## Model

| member | source | states |
|---|---|---|
| `HpcSafety.StepKeeps` | src/Applications/Apps/ApplicationHPC/ApplicationHPC.cc:276-755 | one atomic event handler of any member (start, local answer, message arrival) keeps the invariant of the whole worker set |
| `HpcSafety.ReachableInv` | src/Applications/Apps/ApplicationHPC/ApplicationHPC.cc:276-755 | the invariant holds after every run, under every order of deliveries and local answers |
| `HpcSafety.WorkersKeepUp` | src/Applications/Apps/ApplicationHPC/ApplicationHPC.cc:522-553 | in every reachable state a worker's iteration is the master's or one more |
| `HpcSafety.RoundsAreExact` | src/Applications/Apps/ApplicationHPC/ApplicationHPC.cc:351-381 | although the master receives from any sender and messages name no iteration, round k consists of exactly one result of every worker, each produced in iteration k |
| `HpcSafety.InputsAreExact` | src/Applications/Apps/ApplicationHPC/ApplicationHPC.cc:659-666 | iteration k of a worker always works on the input that was delivered for iteration k |
| `HpcSafety.CounterNeverWraps` | src/Applications/Apps/ApplicationHPC/ApplicationHPC.cc:284-895 | in every run, whenever any member waits for a response that the unsigned counter counts (a file created, a slice read or written, results collected), the counter is between 1 and the set size; while the master collects it is the number of results not yet accepted |
| `HpcSafety.AcceptKeeps` | src/Applications/Apps/ApplicationHPC/ApplicationHPC.cc:351-381 | a result that reaches the master, the last of a round or not, keeps the invariant |
| `HpcSet.AcceptedCoverWorkers` | src/Applications/Apps/ApplicationHPC/ApplicationHPC.cc:339-361 | n-1 accepted results of one iteration come from all n-1 workers; fewer miss one |
| `HpcTermination.NeverStuck` | src/Applications/Apps/ApplicationHPC/ApplicationHPC.cc:276-755 | while some member has not passed its last iteration, a delivery, a start or a local answer is enabled |
| `HpcTermination.EveryEventWorks` | src/Applications/Apps/ApplicationHPC/ApplicationHPC.cc:276-755 | every event leaves strictly less work, a measure over iterations, phases, counters and messages in flight |
| `HpcTermination.LegalRunsAreBounded` | src/Applications/Apps/ApplicationHPC/ApplicationHPC.cc:276-755 | the length of any run is bounded by the work there was at the start |
| `HpcTermination.RunsAreShort` | src/Applications/Apps/ApplicationHPC/ApplicationHPC.cc:276-755 | an explicit bound on the number of events of any run, in members and iterations |
| `HpcTermination.StuckMeansComplete` | src/Applications/Apps/ApplicationHPC/ApplicationHPC.cc:540-552 | a run that cannot go on is complete: all finished, all rounds counted, no message or queued call left |
| `HpcTermination.CanComplete` | src/Applications/Apps/ApplicationHPC/ApplicationHPC.cc:276-755 | every legal run can be extended to one in which all members have finished |
| `HpcTermination.StarvedForEver` | src/Applications/Apps/ApplicationHPC/ApplicationHPC.cc:336-349 | with a set size of 0 or 1 no member ever passes the first iteration: the counter wraps or nobody answers |
| `HpcTermination.FinishesIffItHasWorkers` | src/Applications/Apps/ApplicationHPC/ApplicationHPC.cc:276-755 | exact condition: a worker set can finish if and only if its size is at least two |
| `HpcWork.LogIsExact` | src/Applications/Apps/ApplicationHPC/ApplicationHPC.cc:276-553 | in every run each member has, in each iteration it is past, had exactly the requests of that iteration answered, in order; in the current one exactly those in front of what is left; none of a later one |
| `HpcWork.MasterReadsEverySlice` | src/Applications/Apps/ApplicationHPC/ApplicationHPC.cc:309-333 | in every run the master has exactly one read answered for each member of the set in an iteration whose inputs it has delivered, or none when the workers read |
| `HpcWork.MasterWritesEverySlice` | src/Applications/Apps/ApplicationHPC/ApplicationHPC.cc:384-399 | in every run the master has exactly one write answered for each member in every iteration it is past, or none when the workers write, and none while it collects |
| `HpcWork.WorkersDoTheirChores` | src/Applications/Apps/ApplicationHPC/ApplicationHPC.cc:433-504 | when the master has completed round k, every worker has had exactly its requests of iteration k answered, in order: a read if the workers read, memory, CPU, a write if they write, and before the first iteration the creation of its file |
| `HpcWork.MasterDoesItsChores` | src/Applications/Apps/ApplicationHPC/ApplicationHPC.cc:279-401 | in every iteration it is past, the master has created its file first if it writes and the iteration is the first, then read and then written slice by slice, as the flags say |
| `HpcMessages.MessagesAreSlices` | src/Applications/Apps/ApplicationHPC/ApplicationHPC.cc:628-755 | in every run, every message from the master goes to a worker and has the size of the slice the master read, modulo 2^32, or 64 bytes when the workers read; every other message goes from a worker to the master and has the size of the slice the master writes, or 64 bytes when the workers write |
| `HpcMessages.TakenCallsAreSlices` | src/Applications/Apps/ApplicationHPC/ApplicationHPC.cc:650-666 | the inputs that a worker has worked on and the results that the master has counted have those sizes |
| `HpcMessages.MessagesUseConnections` | src/Applications/Apps/ApplicationHPC/ApplicationHPC.cc:643-755 | in every run, every message goes to a process that is in the list of connections its sender made from the machines file, if that file lists the set |
| `ApplicationHpc.ApplicationHPC.CalculateNextState` | src/Applications/Apps/ApplicationHPC/ApplicationHPC.cc:276-520 | the recursive state function ends in the phase, and sends the messages, that the phase model gives for the state it is called in |
| `ApplicationHpc.ApplicationHPC.CalculateMaster` | src/Applications/Apps/ApplicationHPC/ApplicationHPC.cc:279-401 | the master's half of the state function, to the same end |
| `ApplicationHpc.ApplicationHPC.CalculateWorker` | src/Applications/Apps/ApplicationHPC/ApplicationHPC.cc:404-519 | the worker's half of the state function, to the same end |
| `ApplicationHpc.ApplicationHPC.NextIteration` | src/Applications/Apps/ApplicationHPC/ApplicationHPC.cc:522-553 | advances the iteration and either finishes or begins the next one as the phase model does |
| `ApplicationHpc.ApplicationHPC.ContinueExecution` | src/Applications/Apps/ApplicationHPC/ApplicationHPC.cc:555-558 | a process whose blocking call has been matched resumes its state function |
| `ApplicationHpc.ApplicationHPC.ReadInputData` | src/Applications/Apps/ApplicationHPC/ApplicationHPC.cc:560-587 | issues a read, or goes on to delivering when the workers read |
| `ApplicationHpc.ApplicationHPC.DeliverData` | src/Applications/Apps/ApplicationHPC/ApplicationHPC.cc:628-648 | sends one message to every rank of the set, in order, and then collects |
| `ApplicationHpc.ApplicationHPC.ReceivingResults` | src/Applications/Apps/ApplicationHPC/ApplicationHPC.cc:650-657 | receives from any sender and takes the results that are already queued |
| `ApplicationHpc.ApplicationHPC.ReceiveInputData` | src/Applications/Apps/ApplicationHPC/ApplicationHPC.cc:659-666 | a worker waits for its master's input, or takes it from the queue |
| `ApplicationHpc.ApplicationHPC.ReadInputDataWorkers` | src/Applications/Apps/ApplicationHPC/ApplicationHPC.cc:589-621 | a worker reads its input itself, or goes on to allocating |
| `ApplicationHpc.ApplicationHPC.WrittingData` | src/Applications/Apps/ApplicationHPC/ApplicationHPC.cc:676-702 | issues a write, or goes on to the next iteration when the workers write |
| `ApplicationHpc.ApplicationHPC.WrittingDataWorkers` | src/Applications/Apps/ApplicationHPC/ApplicationHPC.cc:704-736 | a worker writes its results, or sends them back |
| `ApplicationHpc.ApplicationHPC.SendResults` | src/Applications/Apps/ApplicationHPC/ApplicationHPC.cc:738-755 | sends one result to the worker's master and advances the worker's iteration |
| `ApplicationHpc.ApplicationHPC.WaitToExecute` | src/Applications/Apps/ApplicationHPC/ApplicationHPC.cc:185-192 | the start event is the start step of the phase model |
| `ApplicationHpc.ApplicationHPC.ProcessIOCallResponse` | src/Applications/Apps/ApplicationHPC/ApplicationHPC.cc:776-900 | a good answer takes the counter that the phase model gives down by one and is the local step of that model; a read or write answer in a state that expects another, or any result but success, is an error and changes nothing |
| `ApplicationHpc.ApplicationHPC.ProcessLocalResponse` | src/Applications/Apps/ApplicationHPC/ApplicationHPC.cc:904-916 | a CPU or memory answer is the local step of the phase model |
| `ApplicationHpc.ApplicationHPC.ProcessMPIMessage` | src/Applications/Libraries_API/MPI_Base/MPI_Base.cc:119-133 | any message that is queued, broadcasts and scatters included, is the arrival step of the phase model |
| `ApplicationHpc.ApplicationHPC.Matched` | src/Applications/Libraries_API/MPI_Base/MPI_Base.cc:771-786 | the process whose call was matched goes on: the master counts one more result, the worker works on the input |
| `MpiMatching.OldestFit` | src/Applications/Libraries_API/MPI_Base/MPI_Base.cc:814-848 | the position found is that of the oldest call that fits the operation, the sender (or any) and the size; no earlier call fits |
| `MpiMatching.MatchingIgnoresTags` | src/Applications/Libraries_API/MPI_Base/MPI_Base.cc:703-786 | erasing the history tags commutes with matching, so no decision depends on them |
| `MpiMatching.SentIsTaken` | src/Applications/Libraries_API/MPI_Base/MPI_Base.cc:703-848 | a message that was sent is taken by the call that is meant for it: a receive of its size from its sender or from anybody, or a broadcast or scatter of its kind and size with its sender as root |
| `MpiMatching.WhatCallsTake` | src/Applications/Libraries_API/MPI_Base/MPI_Base.cc:703-848 | which waiting calls fit a blocked one, by operation, size and sender, and no others |
| `MatchingRuns.TakenIsChannelHead` | src/Applications/Libraries_API/MPI_Base/MPI_Base.cc:814-854 | the oldest fit is the head of its own channel, and removing it leaves every channel in order |
| `MatchingRuns.StepKeeps` | src/Applications/Libraries_API/MPI_Base/MPI_Base.cc:703-854 | an arrival, an issued call or a release keeps: no lost wake-up, channel order, conservation |
| `MatchingRuns.MatchingIsSound` | src/Applications/Libraries_API/MPI_Base/MPI_Base.cc:703-854 | over any run a blocked process has no matching call in its list, every channel is first in first out, and arrived calls are consumed plus queued calls as multisets |
| `MatchingRuns.ArrivalWakes` | src/Applications/Libraries_API/MPI_Base/MPI_Base.cc:121-133 | a blocked process leaves its call at the very arrival that fits it, and takes that call |
| `MatchingRuns.IssueTakesOldest` | src/Applications/Libraries_API/MPI_Base/MPI_Base.cc:360-374 | in any run a call that is issued takes the oldest waiting call that fits, which leaves the list, and is over; when none fits the process is blocked in it and the list stays |
| `MpiEndpoint.MpiBase.SearchMpiCall` | src/Applications/Libraries_API/MPI_Base/MPI_Base.cc:814-848 | the scan returns the oldest fitting call or none |
| `MpiEndpoint.MpiBase.InsertMpiCall` | src/Applications/Libraries_API/MPI_Base/MPI_Base.cc:789-811 | the incoming call is appended; a collective one names its source as root |
| `MpiEndpoint.MpiBase.Synchronize` | src/Applications/Libraries_API/MPI_Base/MPI_Base.cc:703-786 | the current call and the list change exactly as one matching attempt of the model, and the process resumes exactly when a call was consumed |
| `MpiEndpoint.MpiBase.ProcessMpiCallRequest` | src/Applications/Libraries_API/MPI_Base/MPI_Base.cc:119-133 | queueing and matching an incoming call is one arrival step of the run model |
| `MpiEndpoint.MpiBase.MpiRecv` | src/Applications/Libraries_API/MPI_Base/MPI_Base.cc:360-374 | issuing a receive and matching it at once is one matching attempt with the new call |
| `MpiEndpoint.MpiBase.MpiSend` | src/Applications/Libraries_API/MPI_Base/MPI_Base.cc:286-324 | one message with the rank, receiver and size; the current call is idle again |
| `MpiEndpoint.MpiBase.MpiCollective` | src/Applications/Libraries_API/MPI_Base/MPI_Base.cc:530-636 | the root sends to every other rank in order and goes on; any other process waits for the root |
| `Barrier.StepKeeps` | src/Applications/Libraries_API/MPI_Base/MPI_Base.cc:393-527 | entering, a DOWN or an UP arriving keeps the barrier invariant, and the marks are never all down between events |
| `Barrier.ReachableInv` | src/Applications/Libraries_API/MPI_Base/MPI_Base.cc:393-527 | the barrier invariant holds after every run of any number of processes |
| `Barrier.BarrierIsSafe` | src/Applications/Libraries_API/MPI_Base/MPI_Base.cc:393-527 | nobody leaves its k-th barrier before all have entered their k-th; barrier counts differ by at most one |
| `Barrier.SlaveHasOneToken` | src/Applications/Libraries_API/MPI_Base/MPI_Base.cc:393-527 | a slave inside a barrier has exactly one of a DOWN in flight, a mark at the master or an UP in flight, also when its DOWN is ahead of the master; a slave outside has none |
| `Barrier.ReleaseFindsAllInside` | src/Applications/Libraries_API/MPI_Base/MPI_Base.cc:476-527 | whenever the master goes past a barrier, every process is inside it |
| `Barrier.IdleNetworkMeansReleased` | src/Applications/Libraries_API/MPI_Base/MPI_Base.cc:393-527 | when all have called the k-th barrier and nothing is in flight, all are past it |
| `Barrier.BarrierNeverStuck` | src/Applications/Libraries_API/MPI_Base/MPI_Base.cc:393-527 | in every reachable state a process may call the barrier or a message can be delivered |
| `BarrierEndpoint.BarrierProcess.InitBarriers` | src/Applications/Libraries_API/MPI_Base/MPI_Base.cc:467-473 | clears every mark of the array |
| `BarrierEndpoint.BarrierProcess.CheckBarriers` | src/Applications/Libraries_API/MPI_Base/MPI_Base.cc:476-527 | releases everybody and clears the marks exactly when every process is marked; otherwise changes nothing |
| `BarrierEndpoint.BarrierProcess.MpiBarrier` | src/Applications/Libraries_API/MPI_Base/MPI_Base.cc:393-427 | calling the barrier is the enter step of the system model, for the master with its marks and the UPs it sends and for a slave with the DOWN it sends |
| `BarrierEndpoint.BarrierProcess.MpiBarrierDown` | src/Applications/Libraries_API/MPI_Base/MPI_Base.cc:443-464 | an arriving DOWN is the delivery step of the system model; a rank outside the configuration is an error |
| `BarrierEndpoint.BarrierProcess.MpiBarrierUp` | src/Applications/Libraries_API/MPI_Base/MPI_Base.cc:430-440 | an arriving UP lets the slave go on, as the delivery step of the system model does |
| `Ranks.MemberOfSet` | src/Applications/Libraries_API/MPI_Base/MPI_Base.cc:233-259 | member j of a set has the set's first rank as master, and only member 0 is a master |
| `Ranks.MasterIsUnique` | src/Applications/Libraries_API/MPI_Base/MPI_Base.cc:233-283 | the master function is idempotent and always yields a master; the ranges of the masters hold every other rank exactly once |
| `Ranks.SetsAreComplete` | src/Applications/Libraries_API/MPI_Base/MPI_Base.cc:213-216 | when the process count is a multiple of the set size no set is cut off |
| `Ranks.ConnectionsAreMutual` | src/Applications/Libraries_API/MPI_Base/MPI_Base.cc:218-221 | two ranks connect exactly when one is the other's master, and then both sides do |
| `Ranks.SendsUseConnections` | src/Applications/Apps/ApplicationHPC/ApplicationHPC.cc:643-644 | the targets of a master's deliveries are exactly its connected workers, and results go to a connected master |
| `Ranks.ParseMachinesFile` | src/Applications/Libraries_API/MPI_Base/MPI_Base.cc:157-230 | the connections set up are the lines of the machines file that the process connects to, in the order of the file; or the configuration error, exactly when the file is empty, the set is larger than the file, or there is another process and the set size does not divide the number of lines |
| `Ranks.ConnectionsAreExact` | src/Applications/Libraries_API/MPI_Base/MPI_Base.cc:205-228 | each of those connections is there as often as in the file, and nothing else is |
| `Ranks.PeersAreExact` | src/Applications/Libraries_API/MPI_Base/MPI_Base.cc:205-283 | a process of the machines file is connected to if and only if it is another one and, with sets, is the own master or has the process as its master; without sets, if and only if everybody connects to everybody |
| `Ranks.MasterAndWorkerConnect` | src/Applications/Libraries_API/MPI_Base/MPI_Base.cc:205-283 | a worker and its master are in each other's list of connections when both are in the file |
| `Ranks.WithoutSets` | src/Applications/Libraries_API/MPI_Base/MPI_Base.cc:233-283 | without sets rank 0 is the only master, everybody's, with everybody in its range |
| `BlockFile.File.GetTotalSectors` | src/Base/Messages/icancloud_File.cc:87-100 | the sum of the branch sizes is the length of the sector sequence |
| `BlockFile.BranchIsPlaced` | src/Base/Messages/icancloud_File.cc:40-56 | what offset and size of a branch mean: the sectors of branch k come behind those of the branches in front of it, consecutively from its offset |
| `BlockFile.File.AddBranch` | src/Base/Messages/icancloud_File.cc:59-69 | appends a branch and keeps the byte size equal to the sectors held |
| `BlockFile.File.AddBlock` | src/Base/Messages/icancloud_File.cc:72-84 | appends the aligned block that holds the sector |
| `BlockFile.File.ContainThisSector` | src/Base/Messages/icancloud_File.cc:103-122 | true exactly when the sector is in the sector sequence |
| `Raid0.CutSubRequest` | src/Base/Messages/SMS/SMS_RAID_0.cc:60-88 | the inner loop collects exactly the next stripe of the parent's sectors, or what is left, cut where branches end and nowhere else, with a last piece that is not empty, and ends with the cursor behind it |
| `Raid0.SplitRequest` | src/Base/Messages/SMS/SMS_RAID_0.cc:33-98 | the sub-requests cut the parent's sector sequence into slices of a stripe, cut at branch ends only, numbered in order, each sent to the disk of the cursor at its start; an empty branch list is an error |
| `Raid0.SmsRaid0.Split` | src/Base/Messages/SMS/SMS_RAID_0.cc:33-107 | the sub-requests are also entered in the table by the events of its model: a request that was not there gets a row with every sub-request in its slot; what the table refuses is an error |
| `Raid0.SlotsHoldTheirSubRequests` | src/Base/Messages/SMS/SMS_RAID_0.cc:90-107 | slot i of that row holds sub-request i, whose trace ends with the number i |
| `Raid0Striping.SplitIsExact` | src/Base/Messages/SMS/SMS_RAID_0.cc:43-98 | the sub-requests one after the other are the parent's sectors, none lost or reordered; their number is the size over the stripe length, rounded up |
| `Raid0Striping.FullStripes` | src/Base/Messages/SMS/SMS_RAID_0.cc:61-76 | every sub-request but the last holds exactly one stripe of sectors |
| `Raid0Striping.SectorFindsItsPiece` | src/Base/Messages/SMS/SMS_RAID_0.cc:61-76 | the parent's p-th sector is sector p mod b of sub-request p div b |
| `Raid0Striping.SliceOnOneStripe` | src/Base/Messages/SMS/SMS_RAID_0.cc:48-76 | in an aligned request all sectors of one sub-request lie on one stripe of the volume |
| `Raid0Striping.StripedIffEmptiesHarmless` | src/Base/Messages/SMS/SMS_RAID_0.cc:48-86 | exact condition for aligned requests: every sector s goes to disk (s div b) mod n if and only if no empty branch at a stripe boundary points to another disk than the sector behind it |
| `Raid0Striping.AlignedIsStriped` | src/Base/Messages/SMS/SMS_RAID_0.cc:48-86 | without empty branches aligned requests always go to the right disks |
| `Raid0Striping.FirstSectorDecides` | src/Base/Messages/SMS/SMS_RAID_0.cc:48-52 | without empty branches every sub-request, of aligned requests or not, goes to the disk (s div b) mod n of its first sector s |
| `Raid0Striping.EmptyBranchMisleads` | src/Base/Messages/SMS/SMS_RAID_0.cc:79-86 | a branch list with an empty branch that sends a stripe to the wrong disk |
| `Raid0Sizes.SplitIsDetermined` | src/Base/Messages/SMS/SMS_RAID_0.cc:33-98 | what the splitter promises leaves nothing open: two results for the same request are equal |
| `Raid0Sizes.SizeRightIffUncut` | src/Base/Messages/SMS/SMS_RAID_0.cc:60-91 | the byte size of a sub-request, that of its last piece, is right if and only if no branch boundary lies inside its stripe |
| `Raid0Sizes.SizesRightIffBoundariesBetweenStripes` | src/Base/Messages/SMS/SMS_RAID_0.cc:33-98 | exact condition on the request: all sub-requests get the right byte size if and only if every branch boundary with sectors on both sides falls between two stripes |
| `Raid0Sizes.HalfStripeSizeIsWrong` | src/Base/Messages/SMS/SMS_RAID_0.cc:90-91 | two branches of half a stripe each, whose one sub-request gets half its size |
| `MainMemory.CountBlocks` | src/Base/Messages/SMS/SMS_MainMemory.cc:46-53 | the formula over the bytes behind the first block counts the blocks touched, (o+s-1)/B - o/B + 1, and one block for an empty request |
| `MainMemory.SmsMainMemory.SplitRequest` | src/Base/Messages/SMS/SMS_MainMemory.cc:33-158 | a read queues whole blocks, a write the parts in each block, a memory request itself; the parent gets as many empty slots; any other message is an error |
| `MainMemory.SmsMainMemory.QueueReads` | src/Base/Messages/SMS/SMS_MainMemory.cc:62-88 | n whole blocks in sequence from the block of the offset |
| `MainMemory.SmsMainMemory.QueueWrites` | src/Base/Messages/SMS/SMS_MainMemory.cc:97-135 | the i-th piece is the part of the request that lies in its i-th block |
| `MainMemory.SmsMainMemory.PopSubRequest` | src/Base/Messages/SMS/SMS_MainMemory.cc:202-214 | takes the oldest queued sub-request, or none |
| `MainMemory.WritesPartition` | src/Base/Messages/SMS/SMS_MainMemory.cc:91-136 | write pieces are not empty, lie in one block each, and every requested byte and no other is in exactly one of them |
| `MainMemory.ReadsAreBlocks` | src/Base/Messages/SMS/SMS_MainMemory.cc:60-89 | read pieces are whole consecutive blocks, as many as are touched plus the read-ahead |
| `MainMemory.SinglePieces` | src/Base/Messages/SMS/SMS_MainMemory.cc:33-158 | a write of no bytes is one empty piece, a read of none one block and the read-ahead, a memory request one piece, any other message none |
| `MainMemory.CoverIsMinimal` | src/Base/Messages/SMS/SMS_MainMemory.cc:46-56 | a block is among those asked for, without read-ahead, if and only if it holds a requested byte |
| `MainMemory.AnsweredWhenBytesAreThere` | src/Base/Messages/SMS/SMS_MainMemory.cc:164-190 | for a read the required blocks are reported there exactly when the block of every requested byte has arrived |
| `Arrivals.OthersStay` | src/Base/Messages/SMS/SplittingMessageSystem.cc:52-187 | an operation for one parent leaves the rows of all other parents as they are |
| `Arrivals.OwnStep` | src/Base/Messages/SMS/SplittingMessageSystem.cc:52-187 | an operation does to the rows of its parent what it does to the whole table, errors included |
| `Arrivals.ParentsAreIndependent` | src/Base/Messages/SMS/SplittingMessageSystem.cc:52-187 | over any run what became of a parent follows from that parent's operations alone |
| `Arrivals.FailuresAreLocal` | src/Base/Messages/SMS/SplittingMessageSystem.cc:52-187 | a run fails if and only if it fails for some parent by itself |
| `Arrivals.CounterCounts` | src/Base/Messages/SMS/icancloud_Request.cc:153-174 | the counter is the number of arrivals of the parent, all in range, whatever is linked, popped or happens to others meanwhile |
| `Arrivals.CompletionIsExact` | src/Base/Messages/SMS/SplittingMessageSystem.cc:52-65 | exact condition in both modes: the table says that all arrived when and only when all indices have, at every moment, if and only if no index arrives twice before completion and none afterwards |
| `Arrivals.DuplicateCompletes` | src/Base/Messages/SMS/icancloud_Request.cc:159-174 | a parent of two that is taken for complete after its first index arrived twice |
| `Arrivals.SlotsToggle` | src/Base/Messages/SMS/icancloud_Request.cc:163-168 | a slot goes between empty and filled with every arrival of its index |
| `Arrivals.RequiredIsExact` | src/Base/Messages/SMS/SMS_MainMemory.cc:164-190 | with slots queued empty and no duplicates, all but the last e slots are filled exactly when all indices but the last e have arrived |
| `Arrivals.LinkedAreAwaited` | src/Base/Messages/SMS/icancloud_Request.cc:159-174 | with slots linked beforehand and no duplicates, the filled slots are those still awaited |
| `Arrivals.SentSlots` | src/Base/Messages/SMS/icancloud_Request.cc:97-174 | over any run in which a parent's linked sub-requests are each popped before they come back, and come back at most once, a slot holds what was linked until it is popped, then nothing, and from its arrival on the message that arrived |
| `Arrivals.PoppedSlotsAreArrivals` | src/Base/Messages/SMS/icancloud_Request.cc:97-174 | once all are popped, the filled slots are exactly those of the indices that have arrived, and the counter is their number |
| `Arrivals.PopTwice` | src/Base/Messages/SMS/icancloud_Request.cc:97-113 | a popped slot is empty, and a second pop changes nothing |
| `Arrivals.OwnRowsChange` | src/Base/Messages/SMS/SplittingMessageSystem.cc:68-187 | a new row goes behind the rows of its parent, removing takes the first of them, and for a parent without a row everything but a pop is an error |
| `SplittingMessages.IcancloudRequest.constructor` | src/Base/Messages/SMS/icancloud_Request.cc:16-26 | one empty slot for each sub-request and nothing arrived |
| `SplittingMessages.IcancloudRequest.SetSubRequest` | src/Base/Messages/SMS/icancloud_Request.cc:65-72 | links the slot, or reports an index out of bounds and changes nothing |
| `SplittingMessages.IcancloudRequest.PopSubRequest` | src/Base/Messages/SMS/icancloud_Request.cc:97-113 | hands out the slot and empties it, and leaves the other slots and the counter, or reports an index out of bounds |
| `SplittingMessages.IcancloudRequest.PopNextSubRequest` | src/Base/Messages/SMS/icancloud_Request.cc:116-150 | none if and only if nothing is linked; a sub-request that is no response if there is one, the first of those; otherwise the last of the linked responses |
| `SplittingMessages.IcancloudRequest.ArrivesSubRequest` | src/Base/Messages/SMS/icancloud_Request.cc:159-174 | for any index, toggles the slot and counts, or reports an index out of bounds |
| `SplittingMessages.SplittingMessageSystem.SearchRequest` | src/Base/Messages/SMS/SplittingMessageSystem.cc:7-34 | the position of the first row of the parent, or not found |
| `SplittingMessages.SplittingMessageSystem.GetNumberOfSubRequest` | src/Base/Messages/SMS/SplittingMessageSystem.cc:37-49 | the number of slots of the parent's row, or an error |
| `SplittingMessages.SplittingMessageSystem.ArrivesAllSubRequest` | src/Base/Messages/SMS/SplittingMessageSystem.cc:52-65 | the answer of the model table, or an error |
| `SplittingMessages.SplittingMessageSystem.AddRequest` | src/Base/Messages/SMS/SplittingMessageSystem.cc:68-74 | appends an empty row and leaves all others as they are |
| `SplittingMessages.SplittingMessageSystem.RemoveRequest` | src/Base/Messages/SMS/SplittingMessageSystem.cc:77-95 | removes exactly the first row of the parent, or an error |
| `SplittingMessages.SplittingMessageSystem.SetSubRequest` | src/Base/Messages/SMS/SplittingMessageSystem.cc:98-113 | links one slot of the parent's row in place, or an error |
| `SplittingMessages.SplittingMessageSystem.PopSubRequest` | src/Base/Messages/SMS/SplittingMessageSystem.cc:116-133 | empties one slot of the parent's row; an unknown parent is no error here |
| `SplittingMessages.SplittingMessageSystem.ArrivesSubRequest` | src/Base/Messages/SMS/SplittingMessageSystem.cc:156-187 | the arrival step of the model table, by the last number of the sub-request's trace, or an error |
| `SplittingMessages.SplittingMessageSystem.ArrivesRequiredBlocks` | src/Base/Messages/SMS/SMS_MainMemory.cc:164-190 | the scan says whether all but the last e slots are filled; false for an unknown parent |
| `SplittingMessages.SplittingMessageSystem.Register` | src/Base/Messages/SMS/SMS_RAID_0.cc:101-107 | for any parent, new or not, the effect on the table is that of a row added and the links made one after the other; the first that fails ends it |
| `SplittingMessages.NewParentIsLinked` | src/Base/Messages/SMS/SMS_RAID_0.cc:101-107 | for a parent that had no row these events give one row with every sub-request in its slot, in order |
| `Nfs.SmsNfs.SplitData` | src/Base/Messages/SMS/SMS_NFS.cc:32-90 | reads and writes become the chunks of the model, and the table changes by the events that link each in the slot of its number; the first that fails ends it |
| `Nfs.SmsNfs.SplitRequest` | src/Base/Messages/SMS/SMS_NFS.cc:9-118 | chunks for reads and writes, one message for the other file calls, an empty slot for anything else, for any parent, new or not |
| `Nfs.NewRequestIsEntered` | src/Base/Messages/SMS/SMS_NFS.cc:9-118 | for a parent that had no row every chunk ends up in the slot of its number |
| `Nfs.RoundUp` | src/Base/Messages/SMS/SMS_NFS.cc:42-44 | the number of chunks is the size over the chunk size, rounded up |
| `Nfs.ChunksAreContiguous` | src/Base/Messages/SMS/SMS_NFS.cc:61-89 | chunk i starts where chunk i-1 ends, from the parent's offset to its end; all but the last are full; it carries number i and still the parent's size |
| `Nfs.SizesRightIffUnsplit` | src/Base/Messages/SMS/SMS_NFS.cc:61-89 | exact condition: the size that a chunk carries is its own if and only if the request is not longer than one chunk |
| `Nfs.SplitSizesAreWrong` | src/Base/Messages/SMS/SMS_NFS.cc:61-89 | a request of two chunks, each of which carries the size of both |
| `Nfs.ChunkMessages` | src/Base/Messages/SMS/SMS_NFS.cc:44-89 | each chunk is a message of the request's operation with 44 bytes for a read, or 52 and the chunk's data for a write, and carries its number |
| `Nfs.OtherCallsAreOneMessage` | src/Base/Messages/SMS/SMS_NFS.cc:91-118 | a create, delete, open or close is one message, the call itself with 68 bytes for a create and 36 otherwise; any other operation is none |
| `Nfs.SlotsHoldTheirMessages` | src/Base/Messages/SMS/SMS_NFS.cc:32-118 | the row of a new parent has one slot for each message, and slot i holds message i with the number i |
| `Nfs.WritesCarryTheirBytes` | src/Base/Messages/SMS/SMS_NFS.cc:84-85 | the wire length of all messages of a write is its size plus 52 for each |
| `Trace.IcancloudMessage.AddModuleToTrace` | src/Base/Messages/icancloud_Message.cc:180-192 | pushes a module with its first request number on the last node; an error for an empty trace |
| `Trace.IcancloudMessage.RemoveLastModuleFromTrace` | src/Base/Messages/icancloud_Message.cc:195-203 | pops the last module of the last node; an error for an empty trace |
| `Trace.IcancloudMessage.AddNodeToTrace` | src/Base/Messages/icancloud_Message.cc:206-212 | pushes a node without modules |
| `Trace.IcancloudMessage.RemoveLastNodeFromTrace` | src/Base/Messages/icancloud_Message.cc:215-223 | pops the last node; an error for an empty trace |
| `Trace.IcancloudMessage.AddRequestToTrace` | src/Base/Messages/icancloud_Message.cc:226-234 | appends the number, converted from int, to the last module; an error for an empty trace |
| `Trace.IcancloudMessage.RemoveLastRequestFromTrace` | src/Base/Messages/icancloud_Message.cc:237-245 | removes the last number of the last module; an error for an empty trace |
| `Trace.RecordsAreReadBack` | src/Base/Messages/icancloud_Message.cc:180-281 | the module, the gate, the first number and an added number that are read are those recorded last, and removing them gives back the trace before |
| `Trace.IcancloudMessage.TraceToString` | src/Base/Messages/icancloud_Message.cc:294-343 | the nested loops print nodes, modules and numbers with their separators between them |
| `Trace.IcancloudMessage.FitWithParent` | src/Base/Messages/icancloud_Message.cc:545-580 | the cut at the last dot behind the last colon accepts exactly texts that are the parent's plus a dot and a tail without dots and colons |
| `Trace.IcancloudMessage.AddNodeTrace` | src/Base/Messages/icancloud_Message.cc:583-612 | the copied node is the same |
| `Trace.IcancloudMessage.Dup` | src/Base/Messages/icancloud_Message.cc:125-128 | the trace of a duplicate is the same |
| `Trace.FitsByPositions` | src/Base/Messages/icancloud_Message.cc:562-577 | comparing positions of the last dot and colon is the same as the relation between the two texts |
| `TraceFit.SubRequestFits` | src/Base/Messages/icancloud_Message.cc:545-580 | for any host names, a duplicate with one more number fits its parent exactly if the parent's last module has a number; an unchanged duplicate never does |
| `TraceFit.FitsExactly` | src/Base/Messages/icancloud_Message.cc:545-580 | a message whose trace is the parent's with one more number in the last module, possibly followed by nodes that have no module yet, fits the parent; and when no host has an '@' in its name no other message does |
| `TraceFit.HostWithAtMisleads` | src/Base/Messages/icancloud_Message.cc:545-580 | a message from a host with an '@' in its name that fits a parent it does not come from |
| `TraceFit.PrintIsInjective` | src/Base/Messages/icancloud_Message.cc:294-343 | when no host has an '@' in its name two traces that print alike are the same |
| `TraceFit.PrintWithRequest` | src/Base/Messages/icancloud_Message.cc:226-343 | a further request number prints as a dot and the number |
| `TraceFit.PrintWithModule` | src/Base/Messages/icancloud_Message.cc:180-343 | a further module prints as a slash, if it is not the node's first, and its number, gate and first request number |
| `TraceFit.PrintWithNode` | src/Base/Messages/icancloud_Message.cc:206-343 | a further node prints as a bar, if it is not the first, and its host with an '@' |
| `TracePacking.ParsimPack` | src/Base/Messages/icancloud_Message.cc:642-688 | the nested loops write the packed form of the trace |
| `TracePacking.ParsimUnpack` | src/Base/Messages/icancloud_Message.cc:727-783 | unpacking what was packed appends the received trace and leaves the rest of the buffer |
| `TracePacking.PackedForm` | src/Base/Messages/icancloud_Message.cc:642-688 | the packed form of a node with one module: counts in front, then host, module, gate and numbers in this order |
| `TracePacking.UnpackModule` | src/Base/Messages/icancloud_Message.cc:751-781 | the first number comes with the module at full width, the others as ints; a module without numbers is lost |
| `TracePacking.RoundTrip` | src/Base/Messages/icancloud_Message.cc:625-784 | the rebuilt trace is identical if and only if every module has numbers, those behind the first fit an int, and no host has a NUL |
| `TracePacking.StackKeepsIt` | src/Base/Messages/icancloud_Message.cc:180-234 | pushing nodes, modules and int numbers, and popping nodes and modules, keep that condition |
| `TracePacking.PopRequestKeepsIt` | src/Base/Messages/icancloud_Message.cc:237-245 | popping a number keeps it exactly while another one is left |
| `Routing.IcancloudBase.UpdateMessageTrace` | src/Base/icancloud_Base.cc:868-884 | pushes the module with the gate paired with the arrival gate, or -5 without one, and with the module's next number; without that entry the trace is the one before |
| `Routing.IcancloudBase.HandleMessage` | src/Base/icancloud_Base.cc:134-170 | a request is entered in its trace with the gate paired with the one it came by and with the module's number, which goes up, and queued last, and the oldest of the queue is handed on unless one is pending; a response goes to the module's handler unchanged; a request without a trace is an error and changes nothing |
| `Routing.IcancloudBase.ProcessCurrentRequestMessage` | src/Base/icancloud_Base.cc:928-950 | takes the oldest queued request, unless one is being processed |
| `Routing.IcancloudBase.SendRequestMessage` | src/Base/icancloud_Base.cc:179-192 | an empty trace is started with the node, the module and its number, which goes up; another one stays; the message is sent by the gate and the next request handed on |
| `Routing.IcancloudBase.SendResponseMessage` | src/Base/icancloud_Base.cc:195-210 | the response is sent by the last gate of the trace, without the module's entry, and the next request handed on; an empty trace is an error and nothing is sent |
| `Routing.AnswerGoesBack` | src/Base/icancloud_Base.cc:195-210 | a request that came by a gate and was entered leaves as a response by the gate paired with it, with the trace it came with |
| `Routing.ResponsesRetrace` | src/Base/icancloud_Base.cc:134-210 | along any chain whose arrival gates are paired with gates that lead to the module before, the response visits the chain in reverse order, and is at each module exactly what that module had passed on |
| `Routing.OriginatorIsLast` | src/Base/icancloud_Base.cc:179-210 | the last visit is the originator, with nothing but its own entry left |
| `Routing.SubRequestComesBack` | src/Base/icancloud_Base.cc:195-210 | a sub-request numbered i comes back with number i and fits the parent that was kept |
| `PortLookup.MajorIsPartialOrder` | src/Management/NetworkManager/NetworkManager.cc:491-514 | the comparison is a partial order, and not a total one |
| `PortLookup.MajorIsByParts` | src/Management/NetworkManager/NetworkManager.cc:491-514 | an address reaches another exactly if none of its parts is smaller; of an address and its successor neither reaches the other when a digit is carried |
| `PortLookup.RightAnswerIsUnique` | src/Management/NetworkManager/NetworkManager.cc:516-575 | with different IPs a lookup has one right answer |
| `PortLookup.WindowNeverEmpty` | src/Management/NetworkManager/NetworkManager.cc:538-556 | the bisected window never becomes empty |
| `PortLookup.PortDirectory.RegisterNode` | src/Management/NetworkManager/NetworkManager.cc:357-384 | inserts a fresh table in front of the first node the new address does not reach, the others in their order |
| `PortLookup.PortDirectory.GetNodeFromPortsTable` | src/Management/NetworkManager/NetworkManager.cc:516-575 | every probe is in range, there are at most as many as nodes, the empty-window branch is never taken, and the result is what a scan of all nodes gives; a single node is returned unchecked, so the result is right if and only if there is not just one node with another IP |
| `PortTable.NodePorts.RegisterPort` | src/Management/NetworkManager/PortTable.cc:36-78 | one more registration at the end of the ordered multimap that the table represents |
| `PortTable.NodePorts.GetRealPort` | src/Management/NetworkManager/PortTable.cc:80-124 | the port of the earliest surviving registration for port, VM and user, or not found |
| `PortTable.NodePorts.GetOpenRealPort` | src/Management/NetworkManager/PortTable.cc:126-177 | that port exactly when the registration is open |
| `PortTable.NodePorts.FreeVMPorts` | src/Management/NetworkManager/PortTable.cc:179-211 | removes the registrations of the VM, in place, and keeps the order of the rest |
| `PortTable.FirstIsEarliest` | src/Management/NetworkManager/PortTable.cc:80-124 | searching the list of one virtual port finds the earliest registration of all |
| `PortTable.WithoutIsExact` | src/Management/NetworkManager/PortTable.cc:179-211 | removing leaves nothing of the VM and everything else |
| `PortTable.WithoutKeepsOrder` | src/Management/NetworkManager/PortTable.cc:179-211 | what is left is in the order of the registrations |
| `PortTable.RegisterKeeps` | src/Management/NetworkManager/PortTable.cc:36-78 | registering in the nested table is appending to the multimap; virtual ports stay unique |
| `PortTable.FreeKeeps` | src/Management/NetworkManager/PortTable.cc:179-211 | erasing from every port's list is removing from the multimap; virtual ports stay unique |
| `VirtualIps.VirtualIPs.SetVirtualIP` | src/Management/NetworkManager/VirtualIPs.cc:31-40 | the four fields are the numbers that can be read, up to the first that cannot, and behind them what the reader's variables held |
| `VirtualIps.VirtualIPs.GetVirtualIP` | src/Management/NetworkManager/VirtualIPs.cc:42-44 | the printed form of the four fields |
| `VirtualIps.VirtualIPs.IncVirtualIP` | src/Management/NetworkManager/VirtualIPs.cc:46-82 | the next address and its text, or an empty text and no change |
| `VirtualIps.IncrementIsSuccessor` | src/Management/NetworkManager/VirtualIPs.cc:46-82 | counting up is the exact successor of a four-digit number in base 257 and ends only at the last one |
| `VirtualIps.ParsePrinted` | src/Management/NetworkManager/VirtualIPs.cc:108-138 | printing and reading back is the identity |
| `VirtualIps.PrintIsInjective` | src/Management/NetworkManager/VirtualIPs.cc:108-118 | different addresses print differently |
| `VirtualIps.PrintedFits` | src/Management/NetworkManager/VirtualIPs.cc:120-138 | a printed address fits the reader's buffer of 16 bytes |
| `VirtualIps.ShortTextSetsFirstFields` | src/Management/NetworkManager/VirtualIPs.cc:120-138 | a text with fewer than four numbers sets only the first fields |
| `VirtualIps.OtherNumberForms` | src/Management/NetworkManager/VirtualIPs.cc:129 | how `sscanf` reads blanks and signs, hexadecimal and octal numbers, and text that is no number |
| `NetworkManager.NetworkManager.CreateNewUser` | src/Management/NetworkManager/NetworkManager.cc:63-76 | a new user without addresses, whose last address is the basis |
| `NetworkManager.NetworkManager.NewVIP` | src/Management/NetworkManager/NetworkManager.cc:463-489 | a freed address as it stands, or the text of the successor of the last one; an empty text, also kept as the last address, when there is no successor |
| `NetworkManager.NetworkManager.AllocateVirtualIP` | src/Management/NetworkManager/NetworkManager.cc:101-124 | the first user with the number gets one more cell with what is read from the new text; other users are untouched; the text is returned |
| `NetworkManager.NetworkManager.SearchNodeIP` | src/Management/NetworkManager/NetworkManager.cc:192-233 | the node of the first cell with the address, or an empty text |
| `NetworkManager.NetworkManager.GetVMid` | src/Management/NetworkManager/NetworkManager.cc:424-460 | the VM of the first cell with the address, or -1 |
| `NetworkManager.NetworkManager.SearchVMIP` | src/Management/NetworkManager/NetworkManager.cc:317-353 | the address of the first cell with the VM, or an empty text |
| `NetworkManager.NetworkManager.ChangeNodeIP` | src/Management/NetworkManager/NetworkManager.cc:235-272 | of the first cell with the address only the node changes; returns the last address compared |
| `NetworkManager.MoveIsFound` | src/Management/NetworkManager/NetworkManager.cc:192-272 | after a VM has moved, a search for its address finds the new node; every other address keeps its node, and all addresses and VMs are where they were |
| `NetworkManager.AddressIsFound` | src/Management/NetworkManager/NetworkManager.cc:192-460 | the searches by address give what the first cell with it says, or the empty text or -1 when there is none |
| `NetworkManager.VmIsSearched` | src/Management/NetworkManager/NetworkManager.cc:317-353 | the search by VM gives the address of the first cell of the VM, or an empty text |
| `NetworkManager.FirstUserIsSearched` | src/Management/NetworkManager/NetworkManager.cc:192-460 | the searches look at the cells of the first user with the number, or at none |
| `NetworkManager.FreedComesFirst` | src/Management/NetworkManager/NetworkManager.cc:463-489 | freed addresses are given out before new ones, the oldest first, and the last address stays |
| `NetworkManager.RunCountsUp` | src/Management/NetworkManager/NetworkManager.cc:101-124 | in an allocation-only run below capacity every allocation succeeds and the i-th gets the i-th address after the basis |
| `NetworkManager.RunsOutAtCapacity` | src/Management/NetworkManager/NetworkManager.cc:101-124 | the allocation behind the last address returns an empty text, and its cell holds what the reader's variables held |
| `NetworkManager.LookupsInvert` | src/Management/NetworkManager/NetworkManager.cc:192-460 | all addresses of such a run differ, and with different VM numbers the searches by address undo the search by VM |
| `Gates.NewIsFresh` | src/Base/cGateManager.cc:55-80 | a new gate is never live, is the first of the holes if there are any, which then are the rest in their order, and linking it is never refused |
| `Gates.FreeKeeps` | src/Base/cGateManager.cc:95-112 | a freed live gate goes behind the holes there are |
| `Gates.LinkIsExact` | src/Base/cGateManager.cc:25-53 | a position can be linked if and only if it is the next one or one that is not live; then it is live, and no other gate and no hole changes |
| `Gates.LongestFreeIsNext` | src/Base/cGateManager.cc:55-112 | over any run, a gate that is used again was freed before every other gate that is free; only when none is free is one used that was never freed |
| `Gates.VectorIsPeak` | src/Base/cGateManager.cc:25-112 | over any run the holes are exactly the unlinked positions, each once, and the vector is as long as the peak of live gates |
| `Gates.OnlyBadFreesFail` | src/Base/cGateManager.cc:25-112 | a run can fail only by freeing a gate that is not live |
| `Gates.GateManager.LinkGate` | src/Base/cGateManager.cc:25-53 | links the position, or refuses one beyond the end, one already linked or one that the module has no gate for, and then changes nothing |
| `Gates.GateManager.NewGate` | src/Base/cGateManager.cc:55-80 | takes the first hole and leaves the others in their order, or extends the vector by one; without error |
| `Gates.GateManager.FreeGate` | src/Base/cGateManager.cc:95-112 | the freeing step of the run model, or an error for a position that is not linked |

## Left out

- TraceFit.FitsExactly: that nothing else fits is stated for hosts without an '@' only, because with one it is false (`TraceFit.HostWithAtMisleads`); that sub-requests fit holds for all hosts.
- MpiEndpoint.MpiBase.ProcessMpiCallRequest: covers sends, broadcasts and scatters; barrier messages are handled in `BarrierEndpoint`, and the error message for unknown operations is not modelled.
- Raid0.SplitRequest: needs a stripe of at least one sector and one disk; with less the program divides by zero.
- VirtualIps.VirtualIPs.SetVirtualIP: needs text that fits the reader's 16-byte buffer, and so do `NetworkManager.NetworkManager.NewVIP` and `NetworkManager.NetworkManager.AllocateVirtualIP`; the program copies longer text beyond the buffer.
- ApplicationHpc.ApplicationHPC.ProcessIOCallResponse: an answer that a file was created comes only when a creation is pending; the program does not look at its state then.
- Arrivals.RequiredIsExact: is about slots being filled or empty. In queued mode the program stores the pointer of an arrived sub-request and deletes the message at once (`src/Base/Messages/SMS/SplittingMessageSystem.cc:177-179`), so that what a filled slot points to is not to be used; the model says nothing of its contents.
- Routing.IcancloudBase.HandleMessage: self messages and messages of other classes, which go to hooks of the module or only to the log; what the module does with the request or response it is handed is its own code.
- Simulated time, the time totals, logging and debug text, and file names and file offsets of the HPC application: they decide nothing in the parts modelled.
- The iteration counter of the HPC application is unbounded here; a program with 2^32 - 1 iterations would see it wrap.
- `mpi_irecv`, `mpi_gather` and the byte sizes of broadcasts: the waiting process blocked in a gather appears only as a call that is released later.
- The call record is a value: its file name, offset and pending acknowledgements are not modelled, and removing a call from the list is by position, not by pointer.
- Sizes of messages are converted from unsigned to int by the program when a call is made; the model keeps the unsigned value modulo 2^32 on both sides, which compares the same.
- Offsets and sizes of requests, numbers of sub-requests, sizes of traces and the arrival counter are natural numbers without an upper bound; block, stripe and chunk sizes are positive. Request numbers are 64 bits and ints 32 bits wide, because the conversions between them matter.
- Message objects are freed by the program when they have arrived or when a row is removed; the model has no deallocation.
- Nested loops of the program appear as one method for each level: `Raid0.NextPiece` and `Raid0.MoveCursor` within `Raid0.CutSubRequest`, `Nfs.SmsNfs.LinkChunks`, `Trace.IcancloudMessage.PrintModules`, `TracePacking.UnpackNode`, `PortTable.NodePorts.FreeOfPort`, `NetworkManager.NetworkManager.ScanCells`.
- Rows of a port table and the cells and users of the network manager are values in a field that is reassigned; the program reaches them through pointers.
- `strcmp` stops at a NUL character; the model compares whole texts in the network manager. Only packing, where it matters, models the C string.
- `sscanf` in `VirtualIps.Scan` skips only blanks, tabs and line breaks, and values beyond an int are not cut.
- `freePort`, `deleteVirtualIP_by_VIP` and `deleteVirtualIP_by_VMID`: the first need not end, the inner loop of the second never runs, and both deletions store freed addresses relative to the basis.
- `linkGate` called from outside on a free position, and the connection calls of the gate manager: the results on runs are about `newGate` and `freeGate`.
- The message base class, the parent pointer and the fields before the trace in packing; unpacking reads only what packing wrote.
- The modules that forward messages between nodes, and the virtual `getOutGate`: `Routing` takes the gates noted on the way as given, wired to the module before.
- `SMS_PFS` and `SMS_Branch` (weaker repeats of the splitters), job queues, energy meters, data-centre booking and the single-process applications.

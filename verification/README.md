# CAN addressing, health, streaming and simulation in elp, verified

This project models the parts of elp that keep state across steps, and proves what they keep.

* **Address allocation** (`PoolConfig`, `PoolSpec`, `CanPool`, `Detectors`, `Allocation`, `DetectorProtocol`, `PoolChoice`, `Hazards`, `Liveness`, `Reconciler`).
  A pool holds two maps, owner to address and address to owner. Every reconcile of a CANDetector throws the pool away, rebuilds it from the stored records, decides, and writes spec and status separately. `CanPool.Pool` and `Reconciler.ApiServer` are the mutable objects; `DetectorProtocol` is the step relation whose runs the safety and progress theorems quantify over.
* **The gateway and the modules** (`Wire`, `SimRegistry`, `Discovery`, `Gateway`).
  The gateway polls the modules, records what they report and pushes desired addresses to them; the simulator's CAN handlers are the hardware.
* **Both controllers in turn** (`EndToEnd`, `Adoption`): from a discovery, through reconciles, to modules on distinct addresses, kept where nobody disputes them.
* **Simulated detectors** (`Simulation`): from API request to stored simulation to simulator registry, last writer wins.
* **Health tracking** (`Health`): hysteresis over probe results with wrapping 32-bit counters.
* **Device event streaming** (`Sse`, `StreamHub`, `ClientStream`): the frame writer, the client's line scanner, the fan-out hub with its two-step cancel, and the way of an event through all three.
* **Track power** (`TrackPower`, `SimServer`): how the simulator keeps its clients informed.

Classes model the source's mutable objects; each method is proved to make the transition a function describes, and the properties of runs are proved of those functions. Errors are enumerations instead of texts. Iteration over a Go map is an arbitrary choice of element, so nothing depends on its order.

## Hypotheses

Runs of the allocation protocol assume that reconciles run one at a time; that devices, their pool references and the pool configurations stay fixed during a run; that namespaces contain no `/`; that only the controller writes desired and assigned addresses; and that an update made from an outdated copy of the record being written is refused. `PresetAddressExact` and `OwnerKeyInjective` show what the fourth and the third are for. A touch step may change anything else of a record, so it covers the gateways and users.

The runs of `AddressesStayUnique` and of the progress theorems see fresh listings. Nothing in the deployment arranges that, so how fresh a listing must be is settled separately: exactly for one reconcile (`ListingSafeExactly`), and for whole runs whose listings leave out no address held in the pool (`TolerableRunKeepsStoreInv`).

A reconcile's second write is made from the record in hand, or, as the client library does it, from that record with the server's answer to the first write read over it; the safety and progress theorems cover both.

## Findings

* The reconciler lists through the manager's cached client (operators/z21-device/cmd/main.go:72), so a second reconcile can work from the listing the first one saw. Two detectors then get the same address exactly if neither holds one and one address is due to both: the one its module reports if it may adopt that, else the least that is free and not reserved (`SharedListingExact`; `StaleListingClashes` for two newcomers), and one whose module reports an address the listing does not yet show takes it from its holder (`UncoveredAddressClashes`). Once listed, the duplicate ends all allocation from the pool (`SpoiltPoolServesNobody`).
* When the spec write's answer is read back over the record in hand, the stored phase displaces the new one: the reconcile that assigns an address leaves a Pending detector Pending, and it is the next one that makes it Allocated (`RefreshedSettlesExactly`). Addresses settle in one pass, phases in two (`PassAllocatesAll`).
* One of the device's records whose module does not answer ends the gateway's apply pass; those after it in the listing, which has no fixed order, wait (`PassSucceedsExactly`, `FailedPass`).
* The bundled default pool (addresses 10 to 200, with 1, 2 and 3 reserved) does not pass the pool's own validation, so a detector whose device names no pool never gets an address (`BundledPoolServesNobody`).
* `record` reports a change on every call, so every probe patches the device (`RecordProbe`, `Run`). The reported failure count is true up to 2^31 - 1 failures in a row, while the verdicts never suffer from the wrap.
* The requester of a power change is spared the XpressNet broadcast but not the system-state broadcast of its own change (`RequesterHearsSystemState`).
* A stream frame whose JSON is 2^20 - 6 bytes or longer ends the client's read with an error; everything before it arrives, and nothing of it (`RoundTrip`, `RoundTripExact`). The event type collected by the client is cleared before it is used, so no result depends on it.
* Every application of a simulation puts its modules back at their posted addresses, whatever the gateway commanded before (`PostedDetectorsAreDiscovered`).
* The comment on `DesiredAddress` allows setting it by hand when adopting; this is safe exactly when the address lies in the pool and is free, and otherwise no detector of the pool is allocated anything any more (`PresetAddressExact`).

## Model

| member | source | states |
|---|---|---|
| PoolConfig.AcceptsExactlyValid | packages/canpool/config.go:19-44 | the checks, made one by one, accept exactly the ranges within 1..255 whose reserved addresses lie inside and are distinct |
| PoolConfig.Validate | packages/canpool/config.go:19-44 | names the first complaint, and none exactly for a valid configuration |
| PoolConfig.ReservedErrorIsFirst | packages/canpool/config.go:30-43 | the complaint about reserved addresses is that about some entry, with none about the entries before it |
| PoolConfig.ComplaintsSay | packages/canpool/config.go:19-43 | each complaint is made exactly when what it says is so |
| CanPool.Pool.New | packages/canpool/pool.go:36-46 | a pool exactly for a valid configuration, empty and with its invariant established |
| CanPool.Pool.Rebuild | packages/canpool/pool.go:54-78 | from any state, keeps the maps inverse; succeeds exactly on valid lists and then holds exactly the list |
| CanPool.Pool.Allocate | packages/canpool/pool.go:82-102 | the wrapping 16-bit scan terminates and allocates as specified, keeping the invariant |
| CanPool.Pool.Claim | packages/canpool/pool.go:106-129 | claims as specified, keeping the invariant |
| CanPool.Pool.Release | packages/canpool/pool.go:132-143 | releases as specified, keeping the invariant |
| CanPool.Pool.ReleaseAddress | packages/canpool/pool.go:146-152 | releases whoever holds the address, keeping the invariant |
| CanPool.Pool.Available | packages/canpool/pool.go:181-189 | the ascending list of allocatable addresses |
| CanPool.Pool.Assignments | packages/canpool/pool.go:192-199 | the bindings strictly ascending by address, whatever the map order |
| CanPool.Pool.Stats | packages/canpool/pool.go:202-215 | counts that conserve the range |
| PoolSpec.RunKeepsInv | packages/canpool/pool.go:54-152 | after any sequence of operations the two maps are mutual inverses within the range |
| PoolSpec.AvailableFromCorrect | packages/canpool/pool.go:176-189 | Available is ascending and holds exactly the free, unreserved addresses of the range |
| PoolSpec.AllocateTakesHeadOfAvailable | packages/canpool/pool.go:82-102 | a fresh owner gets the head of Available, which shrinks by that one; refusal exactly when Available is empty |
| PoolSpec.AllocateAgain | packages/canpool/pool.go:86-88 | a second allocation for an owner returns the address it has and changes nothing |
| PoolSpec.ClaimGranted | packages/canpool/pool.go:106-129 | when a claim is granted, and that it binds that pair and nothing else |
| PoolSpec.ClaimRefused | packages/canpool/pool.go:106-129 | which complaint a claim meets, exactly, and whom it names |
| PoolSpec.ReleaseExactly | packages/canpool/pool.go:132-152 | why a release is refused, and exactly which binding it otherwise removes |
| PoolSpec.ReleaseUndoesBinding | packages/canpool/pool.go:132-152 | releasing, by owner or by address, restores the pool from before a claim or allocation |
| PoolSpec.RebuildLoadsLongestValidPrefix | packages/canpool/pool.go:54-78 | Rebuild stops at the first entry spoiling the list, having loaded exactly the entries before it |
| PoolSpec.LoadRefused | packages/canpool/pool.go:58-75 | which complaint an assignment meets, exactly, and whom it names |
| PoolSpec.RebuildExact | packages/canpool/pool.go:54-78 | Rebuild succeeds exactly if owners are named, addresses in range, and both pairwise distinct |
| PoolSpec.RebuildOfAssignments | packages/canpool/pool.go:192-199 | rebuilding from a pool's own assignments restores both maps |
| PoolSpec.AssignmentsOfRebuild | packages/canpool/pool.go:192-199 | the assignments after a rebuild are the list itself, permuted, without NetIDs |
| PoolSpec.StatsConserved | packages/canpool/pool.go:202-215 | range size = available + allocated + reserved and unassigned |
| PoolSpec.RunConserves | packages/canpool/pool.go:202-215 | the same after any sequence of operations |
| Detectors.OwnerKeyInjective | operators/z21-device/api/v1alpha1/candetector_types.go:104-106 | owner identities are distinct when no namespace contains a slash |
| Allocation.AllocateDetectorAddress | operators/z21-device/internal/controller/candetector_allocate.go:19-66 | the imperative decision equals the specified one |
| Allocation.ChooseAddress | operators/z21-device/internal/controller/candetector_allocate.go:40-65 | the branch for a failing claim is never taken |
| Allocation.AssignedValid | operators/z21-device/internal/controller/candetector_allocate.go:77-101 | the list built from records loads exactly if held addresses are in range and pairwise different |
| Allocation.DecisionCharacterised | operators/z21-device/internal/controller/candetector_allocate.go:32-65 | held address kept, else observed one adopted (reserved or not), else the least free unreserved one, else failure |
| Allocation.FailsExactlyWhen | operators/z21-device/internal/controller/candetector_allocate.go:24-64 | failure exactly for an invalid pool, contradictory records, or nothing to keep, adopt or choose |
| Allocation.GivenExactly | operators/z21-device/internal/controller/candetector_allocate.go:44-65 | a detector without address gets exactly the observed address it may adopt, else the least free unreserved one |
| Allocation.RecordedAddressKept | operators/z21-device/internal/controller/candetector_allocate.go:93-101 | the assigned address of a record, or the desired one if none is assigned, is what it is given |
| Allocation.AdoptionExactly | operators/z21-device/api/v1alpha1/candetector_types.go:95-101 | a record without an address adopts a free reported one in range unless its flag is set to false, and then gets the least free one |
| DetectorProtocol.TargetOnFreshListing | operators/z21-device/internal/controller/candetector_controller.go:67-88 | on a fresh listing a held address is kept and a new one is in range and held by nobody else in the pool |
| DetectorProtocol.StepKeepsInv | operators/z21-device/internal/controller/candetector_controller.go:33-103 | every step, reconciles in any mode included, keeps addresses in range and unique per pool |
| DetectorProtocol.RebuildNeverFails | operators/z21-device/internal/controller/candetector_controller.go:67-72 | in such a store no listing of a validly configured pool makes Rebuild fail |
| DetectorProtocol.AddressesStayUnique | operators/z21-device/internal/controller/candetector_controller.go:67-103 | in every state reachable from no detectors, distinct detectors of a pool hold distinct addresses in its range, and Rebuild succeeds |
| DetectorProtocol.AddressIsSticky | operators/z21-device/internal/controller/candetector_allocate.go:93-101 | a held address survives every run that does not delete the detector, and stays unavailable to the rest of the pool |
| DetectorProtocol.CrashRecovery | operators/z21-device/internal/controller/candetector_controller.go:80-103 | an address chosen by a reconcile that died after its spec write is the one recorded by the next reconcile to make both writes |
| Hazards.PresetAddressExact | operators/z21-device/api/v1alpha1/candetector_types.go:32-35 | a record created with an address of its own keeps the invariant exactly if the address is in its pool and free; if not, every decision of that pool fails |
| Hazards.SpoiltPoolServesNobody | operators/z21-device/internal/controller/candetector_allocate.go:29-38 | one address out of range or held twice fails every decision of the pool |
| DetectorProtocol.NewAddressExactly | operators/z21-device/internal/controller/candetector_controller.go:67-88 | the address newly given is the one due to the record as the listing shows its pool |
| DetectorProtocol.ListingSafeExactly | operators/z21-device/internal/controller/candetector_controller.go:67-103 | on any listing that shows the record itself, a reconcile keeps the invariant if and only if nobody else in the pool holds the address the listing makes due to it |
| DetectorProtocol.CoveringListingIsSafe | operators/z21-device/internal/controller/candetector_controller.go:147-170 | a listing that shows every address held by others in the pool is fresh enough |
| DetectorProtocol.TolerableRunKeepsStoreInv | operators/z21-device/internal/controller/candetector_controller.go:67-103 | uniqueness and range hold through every run on stale listings that leave out no held address |
| Hazards.UncoveredAddressClashes | operators/z21-device/internal/controller/candetector_allocate.go:44-56 | an address missing from the listing is taken from its holder by a detector whose module reports it |
| Hazards.SharedListingExact | operators/z21-device/internal/controller/candetector_controller.go:67-72 | two reconciles from one listing lose the invariant exactly if both draw on one pool and one address is due to both |
| Hazards.StaleListingClashes | operators/z21-device/internal/controller/candetector_controller.go:67-72 | so they do for two detectors without address or report |
| DetectorProtocol.BundledPoolServesNobody | operators/z21-device/api/v1alpha1/z21device_types.go:304-320 | the bundled pool fails every decision, and nobody in it ever holds an address |
| PoolChoice.PoolListsExactly | operators/z21-device/api/v1alpha1/z21device_types.go:422-436 | a pool's records are those of devices naming it from its own namespace, and for elp/default also of devices naming none |
| PoolChoice.ListedTogetherExactly | operators/z21-device/api/v1alpha1/z21device_types.go:422-436 | when records of two devices compete for addresses, in terms of the devices' fields |
| PoolChoice.ServedFromItsPool | operators/z21-device/internal/controller/candetector_controller.go:54-72 | a held address lies in the range of the pool the device names in its own namespace, or of elp/default |
| PoolChoice.FailuresSayWhy | operators/z21-device/internal/controller/candetector_controller.go:44-65 | what a reconcile without reference, device, pool or valid configuration writes |
| Liveness.SomeAddressLeft | operators/z21-device/internal/controller/candetector_allocate.go:58-64 | a pool with no more members than unreserved addresses has one left for a member without |
| Liveness.PassAllocatesAll | operators/z21-device/internal/controller/candetector_allocate.go:40-65 | in a large enough pool a pass of reconciles in any order, with crashes and other writers in between, gives every member it reaches an address, records those of the reconciles it completes, and leaves untouched members Allocated after one whole or two refreshed reconciles, all on different addresses |
| Liveness.RefreshedSettlesExactly | operators/z21-device/internal/controller/candetector_controller.go:90-103 | one refreshed reconcile settles a member exactly if an address is already desired and the device label right, or the stored phase and message do not displace its own |
| Liveness.SecondPassChangesNothing | operators/z21-device/internal/controller/candetector_controller.go:90-103 | reconciles of settled detectors, in any number, order and mode, change nothing, whatever the rest of their pools |
| Reconciler.ApiServer.Reconcile | operators/z21-device/internal/controller/candetector_controller.go:33-118 | the imperative reconcile, cut, whole or refreshed between its writes, performs the protocol step and publishes the usage |
| Reconciler.ApiServer.ListPoolDetectors | operators/z21-device/internal/controller/candetector_controller.go:147-170 | exactly the listed records drawing on the pool, in listing order |
| Reconciler.ListingOrderIrrelevant | operators/z21-device/internal/controller/candetector_controller.go:147-170 | the order of a fresh listing does not affect the record written |
| Reconciler.PublishedUsage | operators/z21-device/internal/controller/candetector_controller.go:172-180 | the figures published under the pool's key count the addresses held in the resulting store and conserve the range; other pools' figures stay |
| Wire.ReportRoundTrip | apps/z21-sim/internal/server/can.go:275-284 | a detector report is read back as written |
| Wire.ReportLayout | apps/z21-sim/internal/server/can.go:275-284 | which bytes of a report hold which field |
| Wire.Put32Get32 | apps/z21-sim/internal/server/server.go:138-147 | four bytes read as a number are written back the same, least significant first |
| Wire.LittleEndian | apps/z21-sim/internal/server/can.go:268-284 | numbers are laid out least significant byte first |
| Wire.FlagDigits | apps/z21-sim/internal/server/broadcast.go:81-93 | which binary digit of a client's flags subscribes it to what |
| Wire.AppendLANXXOR | apps/z21-sim/internal/server/xpressnet.go:95-104 | the data with one byte appended, each bit of which is the parity of that bit over the data |
| Wire.ChecksumDetectsChange | apps/z21-sim/internal/server/xpressnet.go:95-104 | changing any one byte changes the checksum |
| SimRegistry.RegistriesAreSound | apps/z21-sim/internal/server/can.go:71-79 | in every registry that can arise devices sit under their own ids and detectors have ports |
| SimRegistry.DescriptionRoundTrip | apps/z21-sim/internal/server/can.go:268-293 | a description is read back exactly if it fits and has no zero byte |
| SimRegistry.NameReadBack | apps/z21-sim/internal/server/can.go:116-152 | a name set or registered is what a request returns; naming keeps kind, address, ports and all other devices |
| SimRegistry.LongNamesAreCut | apps/z21-sim/internal/server/can.go:268-293 | a longer name is read back cut to its field |
| SimRegistry.BuiltDetector | apps/z21-sim/internal/server/can.go:296-308 | id, name, address, ports and occupancy of a detector in terms of the control plane's parameters |
| SimRegistry.ReportsSay | apps/z21-sim/internal/server/can.go:241-256 | one report per port, in order, byte by byte |
| SimRegistry.Simulator.Poll | apps/z21-sim/internal/server/can.go:154-178 | a poll is answered by each report of each polled detector and nothing else |
| SimRegistry.Simulator.Maintain | apps/z21-sim/internal/server/can.go:180-193 | a maintenance command readdresses a known detector and nothing else |
| SimRegistry.CommandExactly | apps/z21-sim/internal/server/can.go:180-193 | a command changes the address of the detector it names and nothing else |
| Discovery.SummarizeDiscovery | apps/z21-gateway/internal/detector/manager.go:234-265 | lists each entry of the summary once; fails exactly if a report is unreadable |
| Discovery.SummaryOf | apps/z21-gateway/internal/detector/manager.go:234-265 | of any readable messages, an entry per module heard from, with the first address reported that is not 0 and every port; none at all if one is unreadable |
| Discovery.DiscoveryIsExact | apps/z21-gateway/internal/detector/manager.go:234-265 | the answers to a poll-all, in any order and multiplicity, give exactly one entry per detector with its address and ports |
| Gateway.DetectorNameRoundTrip | apps/z21-gateway/internal/detector/manager.go:267-295 | the network id can be read back off a detector's name |
| Gateway.NamesLookLike | apps/z21-gateway/internal/detector/manager.go:267-269 | four lower-case hexadecimal digits after the prefix, most significant first |
| Gateway.UpsertIsProtocolStep | apps/z21-gateway/internal/detector/manager.go:173-232 | an upsert is a creation or a touch of the allocation protocol |
| Gateway.Manager.SyncDiscovery | apps/z21-gateway/internal/detector/manager.go:62-83 | a discovery pass records every detector of the simulator and changes nothing else |
| Gateway.DiscoveredRecord | apps/z21-gateway/internal/detector/manager.go:173-232 | field by field, what a discovery writes of a new module and of one with a record |
| Gateway.Manager.PollModuleAddress | apps/z21-gateway/internal/detector/manager.go:146-161 | the address the polled module has, or nothing if there is none; an unreadable report would be an error |
| Gateway.Manager.ReconcileOne | apps/z21-gateway/internal/detector/manager.go:103-144 | one record: untouched, marked, or commanded and re-read, failing if the module does not answer |
| Gateway.AppliedRecordSays | apps/z21-gateway/internal/detector/manager.go:131-144 | Applied exactly if the module answered the desired address, else which one it still has |
| Gateway.Manager.ReconcileAddresses | apps/z21-gateway/internal/detector/manager.go:86-101 | the apply pass over a listing, from any store, stopping at the first failure |
| Gateway.PassSucceedsExactly | apps/z21-gateway/internal/detector/manager.go:86-101 | the pass succeeds exactly if every record of ours that needs a command has a module to answer it |
| Gateway.ReachedIsInForce | apps/z21-gateway/internal/detector/manager.go:103-144 | a record reached, alone for its module and not mistaken about it, ends Applied with module, observed and desired address in agreement, however the pass ends |
| Gateway.FailedPass | apps/z21-gateway/internal/detector/manager.go:96-98 | a failing pass stops at an unanswered record: those before it are in force, it and those after it as they were |
| Gateway.Manager.Pass | apps/z21-gateway/internal/detector/manager.go:62-144 | discovery then apply, from any store |
| Gateway.PassPutsInForce | apps/z21-gateway/internal/detector/manager.go:62-144 | if our records bear the gateway's names and the modules of those with a desired address exist, such a pass succeeds and leaves every one in force |
| Gateway.ModulesDoNotShareAddresses | apps/z21-gateway/internal/detector/manager.go:62-144 | after such a pass the allocation invariant holds and no two of our records in force share a module address |
| EndToEnd.OnePass | apps/z21-gateway/internal/detector/manager.go:62-144 | a gateway pass over records that are the gateway's, about modules that answer, succeeds and leaves them so, in force |
| EndToEnd.RecordGetsAddress | operators/z21-device/internal/controller/candetector_controller.go:67-103 | in a large enough pool a record of the gateway's device has its address assigned once a reconcile of it went through |
| EndToEnd.BecomesOurs | apps/z21-gateway/internal/detector/manager.go:173-232 | a discovered module's record is the device's afterwards, exactly unless another device's record had its name |
| EndToEnd.UpsertInPass | apps/z21-gateway/internal/gateway/gateway.go:228-232 | what the gateway records of broadcasts between the passes is a touch they allow |
| EndToEnd.DiscoveredModulesEndUpApart | apps/z21-gateway/internal/detector/manager.go:62-144 | a gateway pass, a pass of reconciles, with records touched in between as long as they stay about their modules, and a second gateway pass succeed and leave every discovered module Applied at its assigned in-range address, no two sharing one |
| EndToEnd.DiscoveredOnceEndUpApart | apps/z21-gateway/internal/gateway/gateway.go:182-221 | so do one discovery, reconciles with true reports recorded in between, and one apply pass |
| Adoption.NextReconcileAdopts | apps/z21-gateway/internal/detector/manager.go:183-197 | a module found for the first time, at an address in range held by nobody, is given that address by its next reconcile |
| Adoption.WishesHold | operators/z21-device/internal/controller/candetector_allocate.go:44-56 | in a pool where every member stands for an address of its own, reconciles in any order give each the one it stood for |
| Adoption.UpsertKeepsWish | apps/z21-gateway/internal/detector/manager.go:214-231 | recording a report that is no news leaves what a record stands for |
| Adoption.ModulesKeepTheirAddresses | apps/z21-gateway/internal/gateway/gateway.go:182-221 | through discovery, reconciles and the apply pass, new modules whose addresses nobody disputes end Applied at the addresses they reported |
| Simulation.DetectorsFromAPI | apps/api/internal/api/simulations.go:101-123 | refuses exactly requests with a missing id; else each entry keeps id, name, address and port count, 1 and 8 where none is given |
| Simulation.MergeCANDetectors | apps/api/internal/api/simulations.go:125-144 | merges as specified, strictly ascending by id |
| Simulation.LatestOfMerge | apps/api/internal/api/simulations.go:125-144 | a merge holds exactly the latest entry for each id |
| Simulation.MergeLaws | apps/api/internal/api/simulations.go:125-144 | merging is associative and idempotent in the request |
| Simulation.ApplyCANDevices | operators/z21-sim-controller/internal/controller/simulation_controller.go:112-155 | registers detectors and then boosters in order up to the first refusal, counting |
| Simulation.AppliedDevice | operators/z21-sim-controller/internal/controller/simulation_controller.go:115-135 | the device left for an id has the name, address and ports of the last entry for it |
| Simulation.BoosterStays | operators/z21-sim-controller/internal/controller/simulation_controller.go:137-153 | the last booster for an id is the device left for it |
| Simulation.BoostersComeLast | operators/z21-sim-controller/internal/controller/simulation_controller.go:137-153 | boosters take over any id they share, leave all other devices as applied, and are all applied exactly if each has an id |
| Simulation.ApplyKeepsLatest | operators/z21-sim-controller/internal/controller/simulation_controller.go:112-135 | applying a list leaves the device of the last entry for each id |
| Simulation.ApplyOfMerge | apps/api/internal/api/simulations.go:125-144 | applying a merge equals applying the stored list and then the request |
| Simulation.MergeWithZeroAppliesNothing | operators/z21-sim-controller/internal/controller/simulation_controller.go:131-133 | why the API and the schema refuse a missing id: a merge would apply nothing exactly if an entry had none |
| Simulation.PostedDetectorsAreDiscovered | apps/api/internal/api/simulations.go:25-99 | under any interleaving of requests, applications and address commands, discovery finds exactly the detectors posted by the last application, at the address posted or else commanded since, with as many ports as posted |
| Simulation.PostedAddressIsFound | apps/api/internal/api/simulations.go:107-121 | a detector posted at an address of its own is found there after an application |
| Health.HealthTracker.RecordProbe | apps/z21-gateway/internal/status/healthloop.go:119-169 | one probe, and that a change is reported every time |
| Health.HealthTracker.Run | apps/z21-gateway/internal/status/healthloop.go:45-94 | without thresholds no probe is made; every verdict that can be stored is |
| Health.StoredVerdictIsCurrent | apps/z21-gateway/internal/status/healthloop.go:71-94 | a stored verdict speaks for the whole probe history, whatever publications were lost before, and carries the time of a success |
| Health.WrappingIsInvisible | apps/z21-gateway/internal/status/healthloop.go:135-152 | verdicts with wrapping counters are those of unbounded ones, for any probes and thresholds |
| Health.VerdictsMatchHistory | apps/z21-gateway/internal/status/healthloop.go:119-169 | reachable and degraded read off the probe history and the thresholds' own fields; never both; what the failure count means |
| Health.FailuresDegrade | apps/z21-gateway/internal/status/healthloop.go:145-152 | under one failure threshold (3 unless set) a reachable device outlasts exactly that many failures in a row less one |
| Health.SuccessesRecover | apps/z21-gateway/internal/status/healthloop.go:135-142 | under one success threshold (1 unless set) it takes exactly that many successes in a row to recover |
| Sse.ResponseWriter.Stream | apps/api/internal/api/stream.go:111-129 | the handler's loop writes the frames' text in order until it is told to stop or the connection breaks |
| Sse.ReadSSE | apps/elpctl/internal/client/client.go:145-196 | the scanner loop delivers as specified; the event type plays no part |
| Sse.RoundTrip | apps/api/internal/api/stream.go:163-173 | what is read back of any written frames and keepalives: all payloads before the first line too long for the scanner, or up to and including the first one refused, and which error |
| Sse.RoundTripExact | apps/elpctl/internal/client/client.go:145-196 | all payloads arrive and the read ends cleanly exactly if every line fits the scanner's buffer and every payload is accepted |
| Sse.CutAnywhere | apps/elpctl/internal/client/client.go:145-196 | any frames cut at any byte, oversized and refused ones included, give whole payloads in order and at most one non-empty prefix of the next |
| Sse.CutExactly | apps/elpctl/internal/client/client.go:145-196 | exactly what is handed over of any frames cut at any byte |
| Sse.CRLFReadsAlike | apps/elpctl/internal/client/client.go:172-195 | either line ending reads the same |
| Sse.ManyDataLines | apps/elpctl/internal/client/client.go:154-195 | a payload of several lines, one data line each, is handed over whole |
| Sse.BrokenStreamIsTruncated | apps/api/internal/api/stream.go:111-129 | so is what is read of a stream whose writer failed anywhere |
| StreamHub.DeviceStreamHub.PublishTo | apps/api/internal/api/stream.go:63-73 | a publish reaches each subscriber of the namespace once, dropping on a full buffer |
| StreamHub.DeviceStreamHub.CancelDetach | apps/api/internal/api/stream.go:48-56 | the first half of a cancel unregisters the channel, and the namespace with its last one |
| StreamHub.SubscribersSeeTheirEvents | apps/api/internal/api/stream.go:38-73 | under any interleaving a subscriber has a subsequence of its namespace's events, all of them exactly if no publication found its 32 slots taken |
| StreamHub.PanicsOnlyOnDoubleCancel | apps/api/internal/api/stream.go:48-59 | nothing is sent on a closed channel; a panic happens exactly if a cancel ran to its end twice |
| ClientStream.ClientSeesItsEvents | apps/api/internal/api/stream.go:75-129 | through hub, handler, a connection that may break and reader, a client is handed the snapshot and then a subsequence of the events offered to its subscription, the last thing perhaps in part |
| ClientStream.NothingLost | apps/elpctl/internal/client/client.go:145-196 | with nothing dropped or left over and no break, the client gets the snapshot and every event exactly if each fits and is accepted |
| TrackPower.SetPowerTells | apps/z21-sim/internal/server/broadcast.go:32-39 | exactly which messages a change of power sends to each client, and that it informs every watcher but the requester |
| TrackPower.StateBroadcastTells | apps/z21-sim/internal/server/broadcast.go:18-22 | a system state sent on demand reaches exactly its subscribers |
| TrackPower.RequesterGetsItsReplies | apps/z21-sim/internal/server/xpressnet.go:40-49 | a requester gets its replies last, and meanwhile only system states |
| TrackPower.RequesterHearsSystemState | apps/z21-sim/internal/server/broadcast.go:38-38 | a requester registered for system states is sent one about its own change |
| TrackPower.PowerBytes | apps/z21-sim/internal/server/xpressnet.go:40-49 | which bytes switch the power, and the bytes that answer |
| TrackPower.LanXAnswered | apps/z21-sim/internal/server/xpressnet.go:26-38 | status and firmware requests are answered with the power and the version, and change nothing |
| TrackPower.QuestionsAnswered | apps/z21-sim/internal/server/server.go:129-149 | serial number, code, hardware, flags and system state are answered truly, and nothing changes |
| TrackPower.FlagsReadBack | apps/z21-sim/internal/server/server.go:138-147 | flags set in a packet are what a request for them returns, byte for byte |
| TrackPower.StateLayout | apps/z21-sim/internal/server/systemstate.go:19-37 | the sixteen bytes of a system state |
| TrackPower.SessionAfterPacket | apps/z21-sim/internal/server/server.go:125-145 | a packet that logs off leaves no session, even if it sets flags afterwards; otherwise the last flags set hold |
| TrackPower.WatchersAgree | apps/z21-sim/internal/server/broadcast.go:24-93 | for a client registered throughout for either kind of announcement, the last power value that reached it is the server's power after every packet and call; if none reached it, the power never changed |
| SimServer.Server.BroadcastMany | apps/z21-sim/internal/server/broadcast.go:45-79 | one datagram to each subscriber but the excepted one, counted; nothing for no messages |
| SimServer.Server.SetTrackPowerAndNotify | apps/z21-sim/internal/server/broadcast.go:24-30 | switches and announces as specified, telling whether the power changed |
| SimServer.Server.HandlePacket | apps/z21-sim/internal/server/server.go:114-174 | a packet's messages over shared sessions, as specified; a malformed packet changes nothing, not even the client table |

## Left out

- The Kubernetes client, its watches, caches and retries: the store is an atomic map with separate spec and status writes. What a stale cache does is modelled as a stale listing, and the client's reading of the server's answer over the record in hand as a mode of the reconcile.
- Deleting or recreating devices, changing pool references or pool configurations during a run: held fixed, because the listing skips detectors whose device is missing.
- Stability of the phase Applied: the allocator's next reconcile writes Allocated again.
- Interleavings inside one gateway pass, and lost or late answers of modules: every pass is atomic towards the allocator and every answer arrives.
- The z21.go library is not part of this model. Layouts the repository does not show: maintenance commands are kept in parsed form, and a report is taken to parse if it has ten bytes. Its constants are fixed: the poll-all id (0xD000), the length of a description's name (16) and the broadcast flags. Marshalling of replies, and of maintenance commands for any address, is taken to succeed.
- CAN boosters' track power and output ports, and the CAN messages inside a packet of `SimServer` with the replies they add to it: they do not touch the track power; `SimRegistry` models detectors and descriptions on their own.
- Concurrency between a packet and a control call: handled one at a time.
- A reader that returns the last bytes together with end of file: the scanner model sees end of file separately, which matters only to an unterminated last line of exactly 2^20 bytes.
- JSON coding of stream payloads: whether a payload decodes and the callback accepts it is a parameter. Trimming of the event type: it is dropped unused.
- Events between the taking of the snapshot and the subscription: they are not delivered.
- Channels of `StreamHub` are named by creation order rather than held as references; blocking receives are not modelled. Overlapping publishes are not: the one publisher is an informer's handler, called for one event at a time.
- Timers, probes, contexts, and defaults of intervals and timeouts of the health loop.
- Detector labels other than the device label survive a reconcile and are dropped by an upsert, as in the source, but nothing further is said of them.

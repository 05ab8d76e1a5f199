# NFVCL: a model of its stateful cores

NFVCL deploys and manages "blueprints": virtual machines, Helm charts and physical devices that form
a 5G network or a Kubernetes cluster. This project models the parts of it that keep state and states
what they promise, for every input and every run.

| module | what it models |
|---|---|
| `Ipam` | the list of free IPv4 ranges of a network and the first-fit allocator |
| `NetworkModels`, `TopologyBook` | the reservations of a network, and the topology that reserves and releases them |
| `Values`, `References`, `Schemas`, `Persistence` | saving a blueprint with every resource replaced by `REF=<id>`, and loading it back |
| `Pdus` | PDUs and the locks that blueprints hold on them |
| `Core5g`, `EdgeAreas`, `ChildCalls`, `Generic5g` | the configuration of a 5G blueprint, its day-2 operations, and the reconciliation of edge areas, RAN areas and child blueprints with it |
| `SdcoreUpf` | one UPF virtual machine per data network |
| `SdcoreValues` | the SD-Core values made of a 5G configuration |
| `Lifecycle` | the blueprint manager and the recursive destroy |
| `Worker` | the message loop of a blueprint |
| `Performance` | the indexes of running operations |
| `K8sWorkers` | the numbers and names of Kubernetes workers |
| `Wrappers`, `Seqs`, `Text` | option and result types, sequences, decimal text |

Objects that the source updates in place are classes here; their methods are proved against
specification functions (`FreeRanges`, `SavedOf`, `AfterReserve`, `Translate`, `After`, ...), and the
lemmas speak about those functions. IPv4 addresses are integers, and a network is its base and its
size. Uuids are numbers in the order in which they are drawn, or a parameter. A call to the
virtualisation provider, to another blueprint or to a configurator succeeds or fails
nondeterministically. An exception is an `Err`, a `None` or a `false`.

Results that the code does not meet in general are stated with their exact condition:
the allocator for disjoint reservations that were not all made by itself (`Ipam.SafeExactlyWhen`), lengths of 0
and negative lengths (`Ipam.AllocationKeepsInv`, `TopologyBook.StepKeepsInv`,
`TopologyBook.NegativeLengthBlocksNetwork`), overlapping ranges that the check lets pass
(`NetworkModels.PassesExactlyWhen`), a release without the name of the network
(`TopologyBook.ReleaseWithoutName`) or of everything an owner holds (`TopologyBook.OneReleaseRemovesAll`),
requests that repeat an area (`Core5g.RequestKeepsWellFormed`), subscribers that name a slice twice
(`SdcoreValues.AddThenDelete`, `SdcoreValues.DeleteIsRetranslation`), callbacks that raise
(`Worker.CallbackOnceExactlyWhen`), a blueprint whose metrics are added again
(`Performance.AddKeepsExactlyWhen`), a state that holds a changed copy of a resource (`Persistence.RoundTrip`), a
PDU that joins with a lock (`Pdus.StepKeepsAgreement`), a delete (`Lifecycle.BlueprintManager.DeleteBlueprint`), a
UPF whose networks have changed (`SdcoreUpf.SdCoreUpfBlueprint.AddDnn`), and a cluster that loses all its workers
(`K8sWorkers.NoWorkerLeftExactlyWhen`).

What a failure half way leaves behind for good is stated too: an edge area without a router or a UPF blocks
every later slice or area operation, and a child may be out of account (`Generic5g.Generic5GBlueprint.DayTwo`); a
worker number is lost, and no later operation gives it out or releases it (`K8sWorkers.K8sBlueprint.DeployWorker`,
`K8sWorkers.K8sBlueprint.AddWorker`, `K8sWorkers.K8sBlueprint.DelWorkers`); resources of a UPF stay registered, or in
the maps, for no deployed network (`SdcoreUpf.SdCoreUpfBlueprint.UpdateDeployments`); and a destroy that raises
leaves a dead worker on which every later delete waits for ever (`Lifecycle.BlueprintManager.DeleteBlueprint`).

Where the documentation and the code differ the model follows the code:

- `del_workers` says that the number of nodes cannot become lower than 2; it only looks at the number
  before, so that naming all of two or more workers leaves the controller alone
  (src/nfvcl/blueprints_ng/modules/k8s/k8s_blueprint.py:361, 370).
- The destroy of a Kubernetes blueprint says that it removes all reserved ranges; `release_ranges`
  removes one (src/nfvcl/blueprints_ng/modules/k8s/k8s_blueprint.py:428-429).
  `TopologyBook.OneReleaseRemovesAll` says when that is all, `TopologyBook.DrainRemovesAllOfOwner` what it
  takes otherwise.
- A reservation for a VIM is said to fail if the VIM does not have the network; that is only logged
  (src/nfvcl/topology/topology.py:306-308, src/nfvcl/models/vim/vim_models.py:97-102).
- Reserved ranges are said to be equal if some of their addresses overlap; a range strictly inside another is
  not equal to it (src/nfvcl/models/network/network_models.py:69, 71-73).
- The comments on subscribers of the SD-Core values want exactly one slice and one group to match; the first is taken
  (src/nfvcl/blueprints_ng/modules/sdcore/sdcore_values_model.py:303-309).

## Model

| member | source | states |
|---|---|---|
| `Ipam.CutAround` | src/nfvcl/utils/ipam.py:78-98 | the inner loop with its append and remove cuts exactly the open tail around a reservation, when the other ranges end before it |
| `Ipam.GetAvailableNetworkIp` | src/nfvcl/utils/ipam.py:56-101 | the loops compute `FreeRanges` for every network and every list of reservations, networks without a window included |
| `Ipam.FreeListInOrder` | src/nfvcl/utils/ipam.py:56-101 | under Inv the list never fails, its ranges lie in order and apart inside `cidr[4]..cidr[-2]`, only the last may be empty, and every other ends right before a reservation |
| `Ipam.FreeListExact` | src/nfvcl/utils/ipam.py:56-101 | under Inv an address is in the list iff it is in the window, not reserved, and not a one-address gap directly before a reservation |
| `Ipam.GetRangeInCidr` | src/nfvcl/utils/ipam.py:116-136 | the search loop takes the first free range that is long enough and raises iff there is none |
| `Ipam.AllocatesLowestRun` | src/nfvcl/utils/ipam.py:104-136 | under Inv, for every length of at least 1, the result is the lowest run of length + 1 free addresses, and it raises exactly when no such run exists |
| `Ipam.AllocatesLowestAddress` | src/nfvcl/utils/ipam.py:104-136 | for length 0 the result is the lowest free address that is not a one-address gap before a reservation, and it raises exactly when there is none |
| `Ipam.NegativeLength` | src/nfvcl/utils/ipam.py:104-136 | for a negative length the result ends before it starts, even when nothing is free; it raises exactly for length -1 with nothing offered and a reservation reaching the end of the network |
| `Ipam.AllocationKeepsInv` | src/nfvcl/utils/ipam.py:116-136 | for every length: what is allocated can be reserved with Inv still holding iff the length is at least 1, or it is 0 and an address other than the last of the window is offered |
| `Ipam.SingleAddressGivenTwice` | src/nfvcl/utils/ipam.py:104-136 | the witness for length 0: on a /29 the same address is given out again after it was reserved |
| `Ipam.SafeExactlyWhen` | src/nfvcl/utils/ipam.py:56-101 | for disjoint reservations wherever they come from, every address handed out is free and in the window iff no reservation starts at `cidr[-2]` and each that ends before `cidr[3]` is followed by another within two addresses |
| `NetworkModels.NetworkModel.AddReservedRange` | src/nfvcl/models/network/network_models.py:133-146 | the range is appended iff no element passes the asymmetric overlap test, otherwise nothing changes |
| `NetworkModels.PassesExactlyWhen` | src/nfvcl/models/network/network_models.py:65-74 | the overlap check lets a range pass iff each range there is apart from it or strictly around it |
| `NetworkModels.NetworkModel.ReleaseRange` | src/nfvcl/models/network/network_models.py:148-176 | by owner the first range of the owner is found, by range the first with an end between those of the given one; list.remove then takes the first range equal to that; another owner than that of the given range is an error, unless there is no reservation at all |
| `NetworkModels.ReservationsApart` | src/nfvcl/models/network/network_models.py:65-74 | under Inv two reservations share no address and are never equal to one another |
| `NetworkModels.RemovesItself` | src/nfvcl/models/network/network_models.py:65-74 | so removing a reservation from the list removes that one, in spite of the overlap equality |
| `NetworkModels.FreeRangePasses` | src/nfvcl/models/network/network_models.py:133-146 | a range of free addresses is never rejected by the overlap check |
| `NetworkModels.ReleaseKeepsInv` | src/nfvcl/models/network/network_models.py:148-176 | no release, failing ones included, breaks Inv |
| `NetworkModels.ReserveReleaseRestores` | src/nfvcl/models/network/network_models.py:133-176 | reserving any range that passes the check and releasing it gives the same list back |
| `NetworkModels.ReleaseByOwner` | src/nfvcl/models/network/network_models.py:161-167 | it takes exactly one range of the owner, leaves all others in their order, and finds nothing iff the owner holds nothing |
| `TopologyBook.Topology.ReserveRange` | src/nfvcl/topology/topology.py:673-717 | a success appends one range of the owner to the first network of that name, which is not external; a failure changes nothing; unknown and external networks and unknown VIMs are refused; the network objects are updated in place |
| `TopologyBook.Topology.ReleaseRanges` | src/nfvcl/topology/topology.py:719-749 | book and result after a release on one network or on the first that answers |
| `TopologyBook.ReserveFailsOnlyForSpace` | src/nfvcl/topology/topology.py:673-717 | under Inv, for every length from 0 on, a reservation on an internal network takes the lowest run that can be granted and fails only when there is none; the overlap check never rejects it |
| `TopologyBook.NegativeLengthBlocksNetwork` | src/nfvcl/topology/topology.py:673-749 | a reservation of negative length that succeeds makes every later reservation on that network raise, and releasing it by its addresses finds nothing |
| `TopologyBook.StepKeepsInv` | src/nfvcl/topology/topology.py:673-749 | a step keeps Inv iff it is a release, a refused reservation, one of length at least 1, or one of length 0 while an address other than the last is offered |
| `TopologyBook.RunsStayApart` | src/nfvcl/topology/topology.py:673-749 | after every run of such steps no two ranges of a network share an address, whoever owns them |
| `TopologyBook.PositiveIsSound` | src/nfvcl/topology/topology.py:673-749 | runs whose lengths are all at least 1 are such runs |
| `TopologyBook.ReserveThenRelease` | src/nfvcl/topology/topology.py:673-749 | reserving and releasing that range on that network restores the whole book iff the length is not negative |
| `TopologyBook.ReleaseWithoutName` | src/nfvcl/topology/topology.py:736-749 | without the name of the network it does so iff, besides, no earlier network holds a range that passes for it |
| `TopologyBook.ReleaseWithoutNameHitsAnother` | src/nfvcl/topology/topology.py:736-749 | the witness: two networks with the same addresses, where the release takes another owner's range |
| `TopologyBook.OneFromSomewhere` | src/nfvcl/topology/topology.py:736-749 | a release by owner over all networks takes exactly one range of the owner while there is one, and nobody else's |
| `TopologyBook.OneReleaseRemovesAll` | src/nfvcl/topology/topology.py:736-749 | one release by owner removes all ranges of the owner iff there is at most one |
| `TopologyBook.DrainRemovesAllOfOwner` | src/nfvcl/topology/topology.py:736-749 | repeated until nothing is found, it ends, removes all ranges of the owner and leaves the others in order |
| `Values.Found` | src/nfvcl/blueprints_ng/blueprint_ng.py:479-508 | the search returns exactly the paths at which the tree has a hit, nested hits included |
| `Values.FoundOnce` | src/nfvcl/blueprints_ng/blueprint_ng.py:479-508 | no path is returned twice |
| `Values.StillReachable` | src/nfvcl/blueprints_ng/blueprint_ng.py:520-531 | longest first, when the turn of a path comes nothing above it has been overwritten |
| `References.RefIdOfRef` | src/nfvcl/blueprints_ng/blueprint_ng.py:527-539 | a reference splits back into its id, for ids without the separator in them |
| `References.Document.OverrideVariables` | src/nfvcl/blueprints_ng/blueprint_ng.py:510-531 | the in-place loop over nested dictionaries computes `Overridden`, including where it stops at an unregistered resource |
| `References.Document.OverrideReferences` | src/nfvcl/blueprints_ng/blueprint_ng.py:533-539 | the in-place loop computes `Resolved`, including where it stops at an unknown reference |
| `References.OverriddenIsCut` | src/nfvcl/blueprints_ng/blueprint_ng.py:510-531 | the loop ends iff every resource, nested ones included, is registered, and then equals the structural rewrite that cuts each branch at its outermost resource |
| `References.ResolvedIsResolve` | src/nfvcl/blueprints_ng/blueprint_ng.py:533-539 | resolution in place ends iff every reference is known, and then equals the structural substitution |
| `Schemas.ResolveCutIsThaw` | src/nfvcl/blueprints_ng/blueprint_ng.py:510-539 | resolving what was cut puts the registered object at every outermost resource and changes nothing else |
| `Schemas.ValidateThaw` | src/nfvcl/blueprints_ng/blueprint_ng.py:593-626 | validating that tree gives the original object, linked to the registered resources |
| `Persistence.Blueprint.RegisterResource` | src/nfvcl/blueprints_ng/blueprint_ng.py:369-385 | it succeeds iff an id the resource has is not in use and a deployable's area has a VIM, else nothing changes; the entry appended stands under the resource's own id, or the new uuid if it had none, and then the resource has that id and is otherwise the same; a registry under own ids stays one |
| `Persistence.RegisterMeans` | src/nfvcl/blueprints_ng/blueprint_ng.py:369-385 | a registration as that condition and that entry, key by key |
| `Persistence.RegisterKeepsOwnIds` | src/nfvcl/blueprints_ng/blueprint_ng.py:369-385 | every registered resource still has the id it is registered under, and ids stay different |
| `Persistence.Blueprint.SerializeContent` | src/nfvcl/blueprints_ng/blueprint_ng.py:541-556 | the saved document is `SavedOf`: state first, then the configurations; even one that is flagged corrupted keeps every entry under its id and class, and all but the configurations in full |
| `Persistence.FromDb` | src/nfvcl/blueprints_ng/blueprint_ng.py:593-626 | loading computes `LoadedFrom`, with its exceptions and the corrupted flag |
| `Persistence.LoadsExactlyWhen` | src/nfvcl/blueprints_ng/blueprint_ng.py:593-626 | once the registry is read, loading raises iff the state holds a reference to nothing registered; a state that is not valid gives way to the empty one and the blueprint is flagged |
| `Persistence.CorruptedExactlyWhen` | src/nfvcl/blueprints_ng/blueprint_ng.py:541-556 | a save is flagged corrupted iff the blueprint was, or some occurrence, nested ones included, is not registered; otherwise it is the structural rewrite of state and configurations |
| `Persistence.GoodIsRegistered` | src/nfvcl/blueprints_ng/blueprint_ng.py:541-556 | a blueprint whose resources, nested ones included, have registered ids meets that condition |
| `Persistence.LinkedIsGood` | src/nfvcl/blueprints_ng/blueprint_ng.py:510-531 | in particular one whose state holds the very registered objects, and these are no changed copies |
| `Persistence.RegistryComesBack` | src/nfvcl/blueprints_ng/blueprint_ng.py:599-618 | the two loading passes rebuild the registry, whatever the order of the saved entries, every entry as a new object linked to the new registry |
| `Persistence.StateComesBack` | src/nfvcl/blueprints_ng/blueprint_ng.py:619-626 | the state comes back with each reference leading to the one object registered under that id; up to identity it is the state saved iff each outermost resource in it looked like the one registered under its id |
| `Persistence.RoundTrip` | src/nfvcl/blueprints_ng/blueprint_ng.py:541-626 | loading a saved blueprint gives the same registry and flag, all occurrences of an id being one shared object; the state is the same iff it holds no copy of a resource that differs from the one registered under its id, otherwise the registered one takes its place |
| `Pdus.PduList.AddPdu` | src/nfvcl/models/topology/topology_models.py:113-125 | a PDU is appended iff its name is new |
| `Pdus.PduList.UpdPdu` | src/nfvcl/models/topology/topology_models.py:138-152 | the PDU of the same name is replaced where it stands, or it raises |
| `Pdus.PduList.DelPdu` | src/nfvcl/models/topology/topology_models.py:127-136 | the PDU of that name goes and the others keep their order, or it raises |
| `Pdus.FoundIffOnlyMatch` | src/nfvcl/blueprints_ng/providers/pdu/pdu_provider.py:28-56 | the chain of filters returns a PDU iff it is the only match; none and several are told apart |
| `Pdus.PduProvider.FindPdu` | src/nfvcl/blueprints_ng/providers/pdu/pdu_provider.py:28-56 | the search returns or raises as `FoundPdu` says |
| `Pdus.PduProvider.LockPdu` | src/nfvcl/blueprints_ng/providers/pdu/pdu_provider.py:86-102 | a PDU that is free according to the copy passed replaces the first of its name in the topology, locked, and joins the own list, which it does even if the topology has none of that name; else nothing changes |
| `Pdus.PduProvider.UnlockPdu` | src/nfvcl/blueprints_ng/providers/pdu/pdu_provider.py:104-124 | the three refusals in their order, which change nothing; otherwise the first of that name leaves the own list, and the copy passed, unlocked, replaces the one in the topology, if there is one |
| `Pdus.PduProvider.FinalCleanup` | src/nfvcl/blueprints_ng/providers/pdu/pdu_provider.py:139-146 | topology and own list after the cleanup, which goes over a copy and skips what fails |
| `Pdus.LockKeeps` | src/nfvcl/blueprints_ng/providers/pdu/pdu_provider.py:86-102 | a lock of a current PDU succeeds iff it is free, changes that PDU alone, and lists and topology still agree |
| `Pdus.UnlockKeeps` | src/nfvcl/blueprints_ng/providers/pdu/pdu_provider.py:104-124 | an unlock of a current PDU succeeds iff the blueprint holds it, and the agreement holds |
| `Pdus.CleanupReleasesAll` | src/nfvcl/blueprints_ng/providers/pdu/pdu_provider.py:139-146 | after the cleanup no PDU of the topology is locked by the blueprint and no other lock has changed, even if some PDU was removed meanwhile |
| `Pdus.CleanupKeepsLeft` | src/nfvcl/blueprints_ng/providers/pdu/pdu_provider.py:139-146 | what the own list keeps are exactly the PDUs that have left the topology, in their order |
| `Pdus.AddKeepsExactlyWhen` | src/nfvcl/models/topology/topology_models.py:113-125 | a PDU can join the topology without breaking the agreement iff its lock is what the lists say under its name |
| `Pdus.StepKeepsAgreement` | src/nfvcl/blueprints_ng/providers/pdu/pdu_provider.py:86-146 | a lock, unlock, cleanup, addition or removal keeps the agreement iff it is no addition under a new name whose lock the lists contradict |
| `Pdus.RunsAgree` | src/nfvcl/blueprints_ng/providers/pdu/pdu_provider.py:86-146 | over every run of many blueprints, PDUs joining with whatever lock the lists say included, a PDU is in a blueprint's list iff the topology says so, at most one blueprint holds it, and a blueprint gets a configurator for it exactly when its own list names it |
| `Core5g.NoDuplicateIsDistinct` | src/nfvcl/blueprints_ng/modules/generic_5g/generic_5g.py:99-110 | the comparison of lengths in the feasibility check means that no DNN is in two slice profiles |
| `Core5g.RefusedExactlyWhen` | src/nfvcl/blueprints_ng/modules/generic_5g/generic_5g.py:435-734 | for each of the eight operations the exact condition on request and configuration under which it is refused |
| `Core5g.RequestedIs` | src/nfvcl/blueprints_ng/modules/generic_5g/generic_5g.py:435-734 | what an accepted operation changes: an addition appends just that element, a deletion keeps exactly those with another key in their order, a new slice joins the first area of each named id once for each naming, a deleted one leaves every area; every other field is as before |
| `Core5g.AddSliceExactlyWhen` | src/nfvcl/blueprints_ng/modules/generic_5g/generic_5g.py:558-594 | an accepted new slice keeps the configuration well formed iff no area is named twice |
| `Core5g.AddTacExactlyWhen` | src/nfvcl/blueprints_ng/modules/generic_5g/generic_5g.py:682-703 | an accepted new area keeps it well formed iff its slices are distinct and have profiles |
| `Core5g.RequestKeepsWellFormed` | src/nfvcl/blueprints_ng/modules/generic_5g/generic_5g.py:435-734 | every accepted operation keeps it well formed iff the request meets those two conditions |
| `Core5g.RunsStayWellFormed` | src/nfvcl/blueprints_ng/modules/generic_5g/generic_5g.py:435-734 | over every run of reasonable operations, refused and failed ones included, DNNs, slice ids, IMSIs and area ids stay unique and every slice of an area has a profile |
| `EdgeAreas.AccountedIsMultiset` | src/nfvcl/blueprints_ng/modules/generic_5g/generic_5g.py:139-196 | the account of children means that, as a multiset, they are the internal routers and the UPFs of the areas |
| `EdgeAreas.AccountedGrows` | src/nfvcl/blueprints_ng/blueprint_ng.py:425-434 | registering the new children of a new area keeps the account |
| `EdgeAreas.AccountedShrinks` | src/nfvcl/blueprints_ng/blueprint_ng.py:436-445 | deregistering the children of an area that goes keeps the account of the others |
| `EdgeAreas.FailedDeploymentStrays` | src/nfvcl/blueprints_ng/modules/generic_5g/generic_5g.py:139-226 | a deployment that fails leaves what the area records registered, and at most one child that belongs to no area |
| `EdgeAreas.FailedRemovalMisses` | src/nfvcl/blueprints_ng/modules/generic_5g/generic_5g.py:228-239 | a removal that fails half way leaves the router recorded, but registered no more |
| `EdgeAreas.UpfConfigExactlyWhen` | src/nfvcl/blueprints_ng/modules/generic_5g/generic_5g.py:260-287 | a UPF can be configured iff mgt, wan, n3, n6 and the area are there, each slice of the area has a profile, and each data network it asks for that there is has a pool; unknown ones are left out silently; slice by slice the result lists exactly the first pools of the others, in the order of the networks |
| `ChildCalls.RouterCreatedExactlyWhen` | src/nfvcl/blueprints_ng/modules/generic_5g/generic_5g.py:139-226 | in an update of the edge areas a router blueprint is created for an area that is new iff the area names no external router, with the networks of the area and the core; recorded is what that blueprint answered, or the external router named, which has no blueprint |
| `ChildCalls.UpfCreated` | src/nfvcl/blueprints_ng/modules/generic_5g/generic_5g.py:289-327 | such an area gets a UPF blueprint of its type, and its configuration and answer are recorded |
| `ChildCalls.ChangeIsTold` | src/nfvcl/blueprints_ng/modules/generic_5g/generic_5g.py:139-196 | where the record of an area that was there has changed, its UPF blueprint was given the configuration now recorded |
| `ChildCalls.PoolsAreRouted` | src/nfvcl/blueprints_ng/modules/generic_5g/generic_5g.py:241-258 | on an internal router the pool of every data network that is served is routed through the UPF that serves it |
| `ChildCalls.DeletedExactlyWhen` | src/nfvcl/blueprints_ng/modules/generic_5g/generic_5g.py:139-196 | a blueprint is deleted iff it is the router or the UPF of an area that is configured no more |
| `ChildCalls.QuietUpdate` | src/nfvcl/blueprints_ng/modules/generic_5g/generic_5g.py:139-196 | where nothing changes, nothing but routes is set |
| `Generic5g.Generic5GBlueprint.GetSlicesProfilesForArea` | src/nfvcl/models/blueprint_ng/core5g/common.py:155-161 | the nested loops list the profile, or None, of each slice of each area of that id |
| `Generic5g.Generic5GBlueprint.CreateUpfConfig` | src/nfvcl/blueprints_ng/modules/generic_5g/generic_5g.py:260-287 | the loop gives that configuration, and raises iff the area has no router or the condition fails |
| `Generic5g.Generic5GBlueprint.DeployRouter` | src/nfvcl/blueprints_ng/modules/generic_5g/generic_5g.py:198-226 | an internal router is a new blueprint with the networks of the area and the core; it is registered as a child, and the network recorded is its answer |
| `Generic5g.Generic5GBlueprint.DeployUpf` | src/nfvcl/blueprints_ng/modules/generic_5g/generic_5g.py:289-324 | a new child blueprint of that type with the configuration computed afresh, its answer and the address of the router on record |
| `Generic5g.Generic5GBlueprint.DeployArea` | src/nfvcl/blueprints_ng/modules/generic_5g/generic_5g.py:139-196 | the router of a new area is the external one it names, else a new blueprint; exactly the calls for it and for a UPF are made; the area is up to date and its children are accounted for; a failure leaves the area without a router or a UPF, all others as they were, and at most one registered child that belongs to no area |
| `Generic5g.Generic5GBlueprint.RefreshArea` | src/nfvcl/blueprints_ng/modules/generic_5g/generic_5g.py:139-196 | a deployed area keeps router and UPF blueprint; the UPF gets a new configuration only if it differs, and the area is then up to date |
| `Generic5g.Generic5GBlueprint.UndeployArea` | src/nfvcl/blueprints_ng/modules/generic_5g/generic_5g.py:228-239 | an area goes together with its children, which are deleted, and nobody else's; after a failure it is still there, and at most its router is a child no more |
| `Generic5g.Generic5GBlueprint.UpdateEdgeAreas` | src/nfvcl/blueprints_ng/modules/generic_5g/generic_5g.py:139-196 | a success from any state makes the deployed areas the configured ones, each with the configuration computed afresh; a new area has the router it asks for, the others keep router and UPF blueprint; exactly these calls are made on children, in this order: creation or new configuration and routes area by area, then the deletions; it keeps the account of children; where all was so already nothing but routes is set; it cannot succeed while an area lacks a router or a UPF, and never mends one; a failure leaves at most one child out of account, registered without an area or recorded but not registered |
| `Generic5g.Generic5GBlueprint.GetUpfsForSlice` | src/nfvcl/blueprints_ng/modules/generic_5g/generic_5g.py:338-344 | it raises iff some area has no UPF, and otherwise lists, area by area in some order of the areas, the UPFs that serve the slice in their order there |
| `Generic5g.FoundIffServes` | src/nfvcl/blueprints_ng/modules/generic_5g/generic_5g.py:338-344 | so a UPF is listed iff it is deployed in some area and serves the slice |
| `Generic5g.Generic5GBlueprint.GetGnbPdus` | src/nfvcl/blueprints_ng/modules/generic_5g/generic_5g.py:354-370 | one gNB per configured area, standing in it and locked by this blueprint; only free PDUs were locked |
| `Generic5g.Generic5GBlueprint.UpdateGnbConfig` | src/nfvcl/blueprints_ng/modules/generic_5g/generic_5g.py:385-430 | the RAN areas become the configured ones, the gNB of each is locked by this blueprint and was told its area and slices, a UPF that serves the first slice and the route to the UPFs of its area; those of removed areas are unlocked |
| `Generic5g.Generic5GBlueprint.DayTwo` | src/nfvcl/blueprints_ng/modules/generic_5g/generic_5g.py:435-734 | a refused operation changes nothing and a failed one leaves the configuration as it was; an accepted one changes the configuration as `RequestedIs` says and pushes it to the core, which happens only once edge areas and RAN areas agree with it; a success keeps the account of children and a failure leaves at most one out of it; after a successful slice or area operation edge areas, RAN areas and configured areas have the same keys, all up to date by exactly the calls this takes, and gNBs and locks are right; the other operations touch none of these; once an area was left without a router or a UPF no slice or area operation succeeds again |
| `SdcoreUpf.PoolIsUnanimous` | src/nfvcl/blueprints_ng/modules/sdcore_upf/sdcore_upf_blueprint.py:107-125 | a data network has an IP pool iff some slice lists it and all that do give the same one |
| `SdcoreUpf.SdCoreUpfBlueprint.GetDnnIpPool` | src/nfvcl/blueprints_ng/modules/sdcore_upf/sdcore_upf_blueprint.py:107-125 | the nested loops find that pool or raise |
| `SdcoreUpf.SdCoreUpfBlueprint.DeployUpfVm` | src/nfvcl/blueprints_ng/modules/sdcore_upf/sdcore_upf_blueprint.py:120-177 | a success creates one VM on the current networks and configures it with the pool, adds both under new ids to maps and registry, and records exactly the slices that list the network; a failure leaves the maps alone and nothing, the VM or both registered, unless it comes after both are in the maps, which it does only if the networks of the request that created the blueprint are not all current ones; in that case no deployment succeeds |
| `SdcoreUpf.SdCoreUpfBlueprint.AddDnn` | src/nfvcl/blueprints_ng/modules/sdcore_upf/sdcore_upf_blueprint.py:96-100 | from a sound state it leaves a sound one; a success leaves nothing more in vain; a failure leaves either up to two registered ids that nothing records, or, only when the creating request's networks are not all current ones, a VM and a configurator in the maps that no deployed network has; so list and maps still tell the same iff the maps were not written; list and deployed networks are as before |
| `SdcoreUpf.SdCoreUpfBlueprint.UndeployUpfVm` | src/nfvcl/blueprints_ng/modules/sdcore_upf/sdcore_upf_blueprint.py:179-189 | a success destroys the VM and takes the recorded ids out of maps and registry |
| `SdcoreUpf.SdCoreUpfBlueprint.UpdateDeployments` | src/nfvcl/blueprints_ng/modules/sdcore_upf/sdcore_upf_blueprint.py:91-105 | after a success the deployed networks are those of the configured slices, kept ones are untouched, a VM was created and configured for each new one and then destroyed for each that went, and no other call was made; from a consistent state list, maps and registry again hold exactly one VM and one configurator per network; after a failure list and maps still tell the same if the creating request's networks are current ones, and in any case the list is that of the deployed networks and the maps hold theirs; what was registered or written in vain is never taken off |
| `SdcoreUpf.SdCoreUpfBlueprint.Update` | src/nfvcl/blueprints_ng/modules/generic_5g/generic_5g_upf.py:59-77 | the same after a new configuration with other networks; once the creating request's networks are not all there, no update that asks for a network without a UPF succeeds |
| `SdcoreUpf.ChangedNetworkUncovered` | src/nfvcl/blueprints_ng/modules/sdcore_upf/sdcore_upf_blueprint.py:169-176 | the witness: with a new name for n3 alone they are not all there |
| `SdcoreUpf.NothingLostIsOnePer` | src/nfvcl/blueprints_ng/modules/sdcore_upf/sdcore_upf_blueprint.py:91-105 | the maps hold nothing in vain iff there is exactly one VM and one configurator per deployed network |
| `SdcoreUpf.AgreeAdds` | src/nfvcl/blueprints_ng/modules/sdcore_upf/sdcore_upf_blueprint.py:127-168 | writing a new VM and configurator into the maps keeps list, deployed networks and maps in agreement; they are in the maps in vain unless their network is entered, too |
| `SdcoreUpf.AgreeDrops` | src/nfvcl/blueprints_ng/modules/sdcore_upf/sdcore_upf_blueprint.py:170-189 | undeploying one network keeps the agreement, and what is in the maps in vain |
| `SdcoreValues.SimAppConfiguration.FromGeneric5gModel` | src/nfvcl/blueprints_ng/modules/sdcore/sdcore_values_model.py:274-291 | it succeeds iff every profile fits SD-Core and subscribers list known slices; then the incremental loops give the direct translation `Translate`, which means a row per subscriber and, position by position, the slice and the group of `AddSlice`; lists stay paired even when it fails |
| `SdcoreValues.SimAppConfiguration.AddSlice` | src/nfvcl/blueprints_ng/modules/sdcore/sdcore_values_model.py:323-404 | iff the profile fits, one slice and its group are appended, else nothing changes: the slice has the id, the number of the type, the plmn cut after three characters and the gNB of the area given; the group has the pool, DNS, rates and unit of the first network of the only DNN; both name the same site |
| `SdcoreValues.FitsExactlyWhen` | src/nfvcl/blueprints_ng/modules/sdcore/sdcore_values_model.py:323-404 | a profile fits iff such a group exists |
| `SdcoreValues.TranslatableExactlyWhen` | src/nfvcl/blueprints_ng/modules/sdcore/sdcore_values_model.py:274-309 | a configuration can be translated iff every profile has such a group and every slice that a subscriber lists has a profile |
| `SdcoreValues.TranslationMeans` | src/nfvcl/blueprints_ng/modules/sdcore/sdcore_values_model.py:274-404 | the translation position by position, in terms of the configuration alone |
| `SdcoreValues.SimAppConfiguration.AddSubscriber` | src/nfvcl/blueprints_ng/modules/sdcore/sdcore_values_model.py:293-309 | it fails at the first slice id that is unknown, and what was added before stays |
| `SdcoreValues.SimAppConfiguration.DeleteSubscriber` | src/nfvcl/blueprints_ng/modules/sdcore/sdcore_values_model.py:311-321 | what the loops leave that remove from the lists they read |
| `SdcoreValues.SimAppConfiguration.DeleteSlice` | src/nfvcl/blueprints_ng/modules/sdcore/sdcore_values_model.py:406-415 | slice and group at the same position go, so that the lists stay paired |
| `SdcoreValues.SimAppConfiguration.SetUpfIp` | src/nfvcl/blueprints_ng/modules/sdcore/sdcore_values_model.py:268-272 | the first slice of that id gets the address and nothing else changes |
| `SdcoreValues.SubscriptionKept` | src/nfvcl/blueprints_ng/modules/sdcore/sdcore_values_model.py:274-309 | slices and groups correspond by position, and an IMSI is in a slice's group exactly as often as its subscriber lists the slice |
| `SdcoreValues.GnbExactlyWhen` | src/nfvcl/blueprints_ng/modules/sdcore/sdcore_values_model.py:259-288 | a slice has the gNB of an area iff exactly one entry of that area and of all areas carries it |
| `SdcoreValues.SweepIs` | src/nfvcl/blueprints_ng/modules/sdcore/sdcore_values_model.py:316-319 | the loop that shrinks its own list takes every copy iff no two are neighbours, and then keeps the rest in order |
| `SdcoreValues.SweepLeavesHalf` | src/nfvcl/blueprints_ng/modules/sdcore/sdcore_values_model.py:316-319 | of n copies at the end it leaves n / 2 |
| `SdcoreValues.AddThenDelete` | src/nfvcl/blueprints_ng/modules/sdcore/sdcore_values_model.py:293-321 | adding and deleting a fresh subscriber restores every list iff the subscriber names no slice twice |
| `SdcoreValues.AddIsRetranslation` | src/nfvcl/blueprints_ng/modules/sdcore/sdcore_values_model.py:274-309 | adding a subscriber gives what translating the larger configuration anew would |
| `SdcoreValues.DeleteIsRetranslation` | src/nfvcl/blueprints_ng/modules/sdcore/sdcore_values_model.py:274-321 | deleting one does so iff the subscriber names no slice twice |
| `SdcoreValues.DeleteSliceIsRetranslation` | src/nfvcl/blueprints_ng/modules/sdcore/sdcore_values_model.py:406-415 | deleting a slice does so iff nobody lists it; otherwise there is no translation any more |
| `Lifecycle.BlueprintManager.CreateBlueprint` | src/nfvcl/blueprints_ng/lcm/blueprint_manager.py:128-166 | a new id, a worker for it, a record that its parent's provider has noted, and the database is still a forest |
| `Lifecycle.BlueprintManager.RegisterChild` | src/nfvcl/blueprints_ng/blueprint_ng.py:425-434 | a child noted by the provider is registered once, and the database is still a forest |
| `Lifecycle.BlueprintManager.DeleteBlueprint` | src/nfvcl/blueprints_ng/lcm/blueprint_manager.py:168-188 | it returns or waits for ever, and does not loop; in a forest whose protected blueprints are registered children it succeeds iff nothing in the subtree is protected, has a dead worker, or has VMs or charts that cannot be destroyed, and then removes from database and workers exactly the blueprint and its descendants; otherwise the caller waits for ever, the worker is dead, so that every later delete waits too, and nothing outside the subtree has changed; if only its own VMs or charts are to blame, its registered children and all below them are gone, and no other; either way a forest is left; unknown and protected blueprints change nothing else |
| `Lifecycle.BlueprintManager.ProtectBlueprint` | src/nfvcl/blueprints_ng/lcm/blueprint_worker.py:98-109 | protection changes at any time, also for a blueprint with a dead worker, and the database is still a forest |
| `Lifecycle.BlueprintManager.Destroy` | src/nfvcl/blueprints_ng/blueprint_ng.py:451-465 | the same for the destroy in the worker, its provider step included, even if children were deleted directly before |
| `Lifecycle.BlueprintManager.FinalCleanup` | src/nfvcl/blueprints_ng/providers/blueprint/blueprint_provider.py:52-60 | the leftovers of the provider go with their subtrees and the list is empty afterwards, unless a worker below is dead or cannot destroy its resources: then the cleanup waits for ever and nothing outside the subtree has changed |
| `Lifecycle.ChildStops` | src/nfvcl/blueprints_ng/blueprint_ng.py:451-465 | a child that is refused or stuck stops the destroy of its parent: the reason lies in the parent's subtree, and nothing outside it has changed |
| `Lifecycle.CreationKeepsForest` | src/nfvcl/blueprints_ng/lcm/blueprint_manager.py:128-166 | a new blueprint under an existing parent leaves a forest |
| `Lifecycle.PruneKeepsForest` | src/nfvcl/blueprints_ng/blueprint_ng.py:451-465 | taking a whole subtree leaves no blueprint whose parent is gone |
| `Lifecycle.AllGone` | src/nfvcl/blueprints_ng/blueprint_ng.py:451-465 | when a blueprint has no child and no leftover any more, all its descendants are gone and nobody else is |
| `Worker.BlueprintWorker.HandleOperation` | src/nfvcl/blueprints_ng/lcm/blueprint_worker.py:118-179 | the operation is run; its callback is told a success after a success, a failure after a failure, and after a success on which it raises both; history, status in memory and in the database, for operations that fail and callbacks that raise |
| `Worker.BlueprintWorker.HandleStop` | src/nfvcl/blueprints_ng/lcm/blueprint_worker.py:180-191 | the destroy is run; the callback gets the id after a successful one and nothing otherwise; a failing destroy or callback ends the thread |
| `Worker.BlueprintWorker.Listen` | src/nfvcl/blueprints_ng/lcm/blueprint_worker.py:111-195 | messages leave the queue in order up to the first that ends the thread, every one before was settled, and the operation of each was run; callbacks that are all different are told the outcomes, each that of its own message |
| `Worker.RanMeans` | src/nfvcl/blueprints_ng/lcm/blueprint_worker.py:111-195 | after every settled message the saved status is that in memory, and is idle without error iff the handler succeeded; only the last can be a STOP or end the thread by an exception |
| `Worker.ProcessesUpToStop` | src/nfvcl/blueprints_ng/lcm/blueprint_worker.py:111-195 | when no callback raises and no destroy fails, exactly the messages up to the first STOP are processed, in their order |
| `Worker.ToldExactlyWhen` | src/nfvcl/blueprints_ng/lcm/blueprint_worker.py:118-191 | over a whole run a callback is told a success iff its operation succeeded, a failure iff it failed or the callback raised on the success, and then after it, and the end iff the blueprint was destroyed for its message |
| `Worker.OnlyCallbacksFired` | src/nfvcl/blueprints_ng/lcm/blueprint_worker.py:118-191 | nobody is called but the callbacks of the messages |
| `Worker.CallbackOnceExactlyWhen` | src/nfvcl/blueprints_ng/lcm/blueprint_worker.py:118-191 | over a whole run a processed message's callback is called exactly once iff it does not raise after a success (or, for STOP, iff the destroy succeeds) |
| `Performance.PerformanceManager.AddBlueprint` | src/nfvcl/blueprints_ng/lcm/performance_manager.py:109-117 | the blueprint has an empty list, also if it was there before, and the indexes agree iff no operation had been started for it |
| `Performance.AddKeepsExactlyWhen` | src/nfvcl/blueprints_ng/lcm/performance_manager.py:109-117 | adding a blueprint keeps the indexes in agreement iff no started operation is listed for it and none is pending |
| `Performance.PerformanceManager.StartOperation` | src/nfvcl/blueprints_ng/lcm/performance_manager.py:119-140 | the new operation is one object reachable through both indexes and pending; blueprints without metrics are passed over |
| `Performance.PerformanceManager.EndOperation` | src/nfvcl/blueprints_ng/lcm/performance_manager.py:142-162 | the nested search marks the operation of that id and no other; only its blueprint's pending entry goes, and a missing one raises |
| `Performance.PerformanceManager.StartProviderCall` | src/nfvcl/blueprints_ng/lcm/performance_manager.py:164-182 | the call is noted in that operation and no other, or skipped when the operation is unknown |
| `Performance.FinishClearsItsOwn` | src/nfvcl/blueprints_ng/lcm/performance_manager.py:142-162 | ending a running operation clears the pending entry that it made: never a missing one and never another's |
| `Performance.RunsStayTracked` | src/nfvcl/blueprints_ng/lcm/blueprint_worker.py:124-186 | over every run with one worker per blueprint, failing handlers included, the indexes agree and pending are exactly the running operations and the last failed ones |
| `Performance.OverlapRaises` | src/nfvcl/blueprints_ng/lcm/performance_manager.py:119-162 | with two operations of one blueprint at a time the second end call raises |
| `K8sWorkers.WorkerNamesDiffer` | src/nfvcl/blueprints_ng/modules/k8s/k8s_blueprint.py:219-221 | workers with different numbers have different names |
| `K8sWorkers.K8sBlueprint.ReserveWorkerNumber` | src/nfvcl/blueprints_ng/modules/k8s/k8s_blueprint.py:108-118 | the least free number is taken, or it raises and changes nothing |
| `K8sWorkers.FullExactlyWhen` | src/nfvcl/blueprints_ng/modules/k8s/k8s_blueprint.py:108-118 | numbers run out exactly when the workers with a configurator and the lost numbers together are 18 |
| `K8sWorkers.NothingLost` | src/nfvcl/blueprints_ng/modules/k8s/k8s_blueprint.py:108-129 | no number is lost iff a number is taken exactly when a configurator has it, and then every worker has one |
| `K8sWorkers.K8sBlueprint.RemoveWorker` | src/nfvcl/blueprints_ng/modules/k8s/k8s_blueprint.py:75-97 | exactly the worker of that name goes, with its configurator and number, if it has them; the number is never found free, although the loop removes from the list it reads |
| `K8sWorkers.K8sBlueprint.DeployWorker` | src/nfvcl/blueprints_ng/modules/k8s/k8s_blueprint.py:216-239 | one worker with the least free number; after a failed registration or provider call that number is lost: taken without a configurator, with its VM in the list; names, numbers, configurators and registry agree in any case |
| `K8sWorkers.K8sBlueprint.DeployArea` | src/nfvcl/blueprints_ng/modules/k8s/k8s_blueprint.py:215-239 | the workers of an area take the least free numbers in turn; it raises for numbers iff too few are left beside the lost ones; any other failure loses exactly one number |
| `K8sWorkers.K8sBlueprint.AddWorker` | src/nfvcl/blueprints_ng/modules/k8s/k8s_blueprint.py:341-356 | the same over several areas, with numbers lost before or not: the VMs are created area by area, then the configurators that wait are run, those left from an earlier failure first, after which none is left to be run; lost numbers are never given out again |
| `K8sWorkers.K8sBlueprint.DelWorkers` | src/nfvcl/blueprints_ng/modules/k8s/k8s_blueprint.py:358-392 | with one worker or none nothing happens; otherwise exactly the named workers go, out of the cluster and then VM by VM in the order of their names; names, numbers, configurators and registry agree afterwards, failures included; it fails for registration iff one is named twice or its VM was never registered; lost numbers stay lost, even if their VMs go |
| `K8sWorkers.RemovalBits` | src/nfvcl/blueprints_ng/modules/k8s/k8s_blueprint.py:120-129 | the number of a worker is set when it is released; then numbers and configurators agree again and the same numbers are lost |
| `K8sWorkers.NoWorkerLeftExactlyWhen` | src/nfvcl/blueprints_ng/modules/k8s/k8s_blueprint.py:358-374 | no worker is left iff there was none or all of two or more were named |
| `K8sWorkers.BothWorkersGone` | src/nfvcl/blueprints_ng/modules/k8s/k8s_blueprint.py:358-374 | a cluster of two workers can lose both in one call |

## Left out

- REST routers, Redis events, MongoDB, logging, SSH, Ansible, Helm, OpenStack, Proxmox and Kubernetes clients: they are steps that succeed or fail.
- Interleavings of topology reads outside the lock with writes, and deletes that are not waited for: each topology operation is one step, each delete is waited for.
- `References.Document.OverrideVariables`: the nested dictionary is a tree value held by the object and updated through paths; a dictionary reached through two paths is not captured, and `model_dump` makes none.
- `Schemas.ValidateThaw`: `model_validate` is modelled for scalars, lists, dictionaries, optional fields, models and resources; other validators and coercions are not.
- `Persistence.RoundTrip`: resources that are neither deployables nor configurations are not saved back by either loading pass, so a good registry has none; the field `additional_networks`, rebuilt through a set, is a list in which only the contents are compared; base-model fields other than registry, state and corrupted flag are not modelled.
- `TopologyBook.Topology.ReserveRange`: saving to the database and the event are not modelled; addresses at either end of the 32-bit space are not either.
- `Ipam.SafeExactlyWhen`: it is stated for networks of at least eight addresses, which every network given by a prefix has if it has a window.
- `Generic5g.Generic5GBlueprint.DayTwo`: the `"*"` wildcard of add_slice, absent slice profiles, the padding of slice ids, and the PLMN, tracking area code and AMF in gNB configurations are not modelled; the core's own update is one step that may fail.
- `Generic5g.Generic5GBlueprint.GetUpfsForSlice`: the order of the areas, that of their insertion, is not modelled; the order within an area is.
- `SdcoreUpf.SdCoreUpfBlueprint.UpdateDeployments`: the slices served by a network that was deployed before are not refreshed by the code, so only new ones are stated to serve the current slices.
- `SdcoreValues.SimAppConfiguration.FromGeneric5gModel`: keys, OPC and the constants of the values (rules, traffic class, MTU, ports) are not modelled; a rate is a number and a unit already split, absent when it cannot be read.
- `Lifecycle.BlueprintManager.DeleteBlueprint`: where a protected blueprint is a leftover of the provider and not a registered child, the code drops it from the list, and of what then happens only the order of ids and the older blueprints are stated; a restart of the manager, which gives every blueprint a new worker, is not modelled, and whose resources cannot be destroyed does not change.
- `Worker.BlueprintWorker.Listen`: publishing an event does not raise, and a message of an unknown kind does not exist.
- `Performance.PerformanceManager.EndOperation`: times and durations, reading metrics from the database and writing them there are not modelled.
- `K8sWorkers.K8sBlueprint.DeployArea`: the attached networks and the area list are not modelled.
- `Topology.delete`, the deletion of routers from a VIM, Prometheus targets and plugin files: they iterate a list that they change, search the wrong list or compare versions as floats, and have no invariant to state.
- OAI helpers, Athonet, Free5GC, VyOS, DNS, Ubuntu and UERANSIM blueprints, default configurations and migrations: they are not modelled.

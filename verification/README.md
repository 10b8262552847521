# KubeMacPool: allocator, MAC map and collision index

A Dafny model of KubeMacPool's in-memory MAC bookkeeping. It has four parts.

1. **The range allocator** (`Addresses`, `RangeAllocator`): a 6-octet cursor edited in place walks
   cyclically through the configured range; its meaning is 48-bit arithmetic.
2. **The MAC map and its two-phase commit** (`MacMaps`, `Transactions`, `VmOperations`, `Failures`,
   `Healing`, `PoolManager`, `PodPool`, `Protocol`, `Witnesses`, and the laws in `AdmissionLaws` and
   `LifecycleLaws`): admission records and stamps tentative entries, the API server keeps or drops
   the object, reconciles commit what was persisted, a loop heals what expired. `Protocol` puts the
   operations together as a step relation and proves safety over all runs.
3. **The collision index** (`Collisions`, `Detection`, `Convergence`, `ReportLaws`, `Controllers`):
   per-object reconciles edit a shared map and a gauge, compared with a brute-force scan of the
   cluster.
4. **The start-up rebuild** of the map (`Healing`, `PoolManager`, `LifecycleLaws`).

Code that edits objects in place is modelled by classes and methods with the source's loops
(`RangeAllocator`, `MacPool`, `PoolManager`, `CollisionIndex`, `Controllers`). Each method is proved
equal to a specification function of the old state, and the properties are lemmas about those
functions. The table names both. `AdmissionLaws`, `LifecycleLaws` and `ReportLaws` say what the
operations do on the fields of requests, entries and objects alone, without the intermediate notions
of the specification functions.

Conventions:

- A map key is the octet sequence of an address. A written address is `Blank`, `Garbled` (it does
  not parse) or `Written` with its octets and a spelling number, 0 being the canonical spelling: the
  update compares texts with the canonical spelling of the new request, as the code does.
- Go's map order is an arbitrary `order`; the allocator's answers inside one admission are an
  arbitrary list, each free when given. Since the list is arbitrary, UpdateRanges may fall between
  any two answers.
- Time is an integer clock. The stamp annotation is read back exactly as written.
- The hidden invariant is `MacMaps.WellFormed`: no empty lists, no repeated (instance, interface)
  pair at an address, among one instance's entries at an address only the first may be pending, and
  pending entries have VM names.

What `Protocol` takes for granted, as guards of its steps:

- an update persists only if its base is still the current version, a create only if the name is free;
- a request that touched the map persists within the waiting time of its stamp or never;
- a create admitted before the last deletion of its name was reconciled never persists;
- while pairs of a VM are at stake (the VM is live, or a request of it may still persist), a granted
  request of it is stamped after every version of the VM and not before another request of it that
  may still persist (`InOrder`);
- in that case, too, a request that fails in its loop names no address the VM already held
  (`UpdateHarmless`, `CreateHarmless`);
- an instance that is released shares no address with another (`Unshared`).

Nothing else is assumed of admissions: the webhook's read may be of any age, the API server may
update any version, stamps of different VMs are unrelated, a stamp may be older than the moment its
request takes the lock, and a client may send any stamp annotation with a request that does not
reach the pool. `LateStampLoses`, `FailedUpdateLoses` and `ReleaseTakesSharers` show what happens without
the last three; `LateStampRun`, `FailedUpdateStepLoses` and `FailedUpdateEmpties` are inputs.

Where the code is weaker than one would expect, the exact condition is proved: `UpdateFailsIff`,
`AllocateFailsIff`, `CreatedDistinctIff`, `FailedPodRestoresIff`, `FailedNewPodRestoresIff`,
`NamelessPodRestoresIff`, `RejectedCreateHealsIff`, `HealFailsIff`, `RebuildFailsIff`, `RangeTestExact`,
`ConvergesIff`. Conditions on a failed admission speak of
the request, the map before the call and the first interface the range cannot serve.

Check everything with `dafny verify dfyconfig.toml`.

## Model

| member | source | states |
|---|---|---|
| `Protocol.RunSafety` | pkg/pool-manager/virtualmachine_pool.go:130-212 | Whole-run safety: in every state of every run of admit (from webhook reads of any age, for taken, nameless and unknown names, granted, failing or rejected), persist, reject, reconcile (from any lagging version), delete, heal and pod steps, each recorded interface of a persisted VM that is not being deleted stands on the VM and has its (VM, interface) entry at its address |
| `Protocol.NeverReissued` | pkg/pool-manager/pool.go:296-335 | In every reachable state no call of getFreeMac, on any range and cursor, issues an address recorded for a live VM |
| `Protocol.StepKeepsInv` | pkg/controller/virtualmachine/virtualmachine_controller.go:89-146 | Every step keeps the inductive invariant: each granted pair, of a persisted version or of a request that may still persist, has an entry that no reconcile of a readable version and no healing pass can drop |
| `Protocol.InitHasInv` | pkg/pool-manager/virtualmachine_pool.go:332-359 | The map rebuilt at start-up satisfies the invariant for every VM of the cluster |
| `Witnesses.CreateTakesOn` | pkg/pool-manager/virtualmachine_pool.go:75-104 | What the pool answers for after a granted create: exactly the masquerade and Multus interfaces, each at the address asked for or given |
| `Witnesses.UpdateTakesOn` | pkg/pool-manager/virtualmachine_pool.go:149-192 | After a granted update: exactly the interfaces that are new or changed and those the base version had on record |
| `Witnesses.StartTakesOn` | pkg/pool-manager/virtualmachine_pool.go:332-359 | After a start: exactly the masquerade and Multus interfaces with an address |
| `Protocol.RunKeepsMapWellFormed` | pkg/pool-manager/virtualmachine_pool.go:585-592 | In every reachable state a pending entry is the first of its instance at its address, so first-match lookups hit it, and its instance name splits into the three parts getvmInstance indexes |
| `Protocol.AdmitCreateStep` | pkg/webhook/virtualmachine/virtualmachine.go:175-204 | Admitting a create keeps the invariant, even when the name is taken by the time the lock is; only while pairs of the name are at stake need it be in order and, failing, harmless |
| `Protocol.AdmitNamelessStep` | pkg/webhook/virtualmachine/virtualmachine.go:175-204 | Admitting a VM without a name, recorded under the empty name and persisted under a generated one, keeps the invariant |
| `Protocol.AdmitUpdateStep` | pkg/webhook/virtualmachine/virtualmachine.go:207-229 | Admitting an update keeps the invariant for the old and the new version at once, whatever interfaces the webhook read and whichever version the API server updates; only while pairs of the VM are at stake need it be in order and, failing, harmless |
| `Protocol.AdmitUntouchedStep` | pkg/webhook/virtualmachine/virtualmachine.go:201-228 | A request that the webhook lets through without touching the map, from any version, to any interfaces and any stamp annotation, keeps the invariant |
| `Protocol.MarkReadyStep` | pkg/controller/virtualmachine/virtualmachine_controller.go:120-134 | Committing from any readable version of the VM, however old, keeps the invariant |
| `Protocol.HealStep` | pkg/pool-manager/virtualmachine_pool.go:539-583 | A healing pass keeps the invariant as long as requests are decided within the waiting time |
| `Protocol.ReconcileGoneStep` | pkg/controller/virtualmachine/virtualmachine_controller.go:96-104 | Releasing a deleted VM keeps the invariant for all others |
| `Protocol.AdmitPodStep` | pkg/pool-manager/pod_pool.go:36-104 | A pod admission, live or dry, failing or not, under the placeholder name or its own, keeps the invariant |
| `Witnesses.GrantingRun` | pkg/webhook/virtualmachine/virtualmachine.go:175-204 | Some run grants any VM any address it asks for: admitted, persisted, committed, with the entry confirmed at the end |
| `Protocol.PodIsNoVm` | pkg/pool-manager/pod_pool.go:318-320 | A pod instance name is never a VM instance name |
| `Witnesses.FailedUpdateLoses` | pkg/pool-manager/virtualmachine_pool.go:168-200 | A failed update whose request names, before the loop ends, an address the VM already held always drops the VM's first entry there: why the safety theorem excludes it |
| `Witnesses.LateStampLoses` | pkg/pool-manager/transaction.go:38-44 | Within one VM: when an entry is stamped at or before a version that lacks its pair, a reconcile of that version drops it, and a request granting the pair may persist right after: why stamps of one VM must be in order |
| `Witnesses.LateStampRun` | pkg/pool-manager/transaction.go:38-44 | A run from start-up on which that happens, but for the order of stamps: a client sets the stamp annotation of a live VM ahead, an update adds an interface, a reconcile drops its entry, the update persists |
| `Witnesses.FailedUpdateStepLoses` | pkg/pool-manager/virtualmachine_pool.go:168-200 | A step from a start-up state, but for the condition on failing updates: the update is rejected and the map of a live VM is empty |
| `Witnesses.ReleaseTakesSharers` | pkg/pool-manager/virtualmachine_pool.go:120-122 | A release keeps all entries of the other instances exactly when the instance shares no address: why the safety theorem excludes sharing |
| `MacMaps.FirstIsThePending` | pkg/pool-manager/macpoolmap.go:30-45 | Under the invariant the first-match lookup returns exactly the pending entry it was called for |
| `MacMaps.CreateOrUpdateOk` | pkg/pool-manager/macpoolmap.go:82-102 | Recording a pair keeps the invariant: no empty list, no repeated (instance, interface) pair, only the first entry of an instance pending, pending entries have VM names |
| `MacMaps.CreateOrUpdateIn` | pkg/pool-manager/macpoolmap.go:82-102 | After recording a pair exactly that entry is confirmed or appended; every other entry is there if and only if it was |
| `MacMaps.RemoveInstanceOk` | pkg/pool-manager/macpoolmap.go:49-66 | Removing an instance's first entry keeps the invariant and never leaves an empty list |
| `MacMaps.StampOk` | pkg/pool-manager/macpoolmap.go:105-116 | Stamping an instance's first entry keeps the invariant |
| `MacMaps.RewriteOk` | pkg/pool-manager/macpoolmap.go:143-166 | Any rewrite that confirms or drops selected entries keeps the invariant when it selects every pending entry it passes over |
| `MacMaps.AlignIsRewrite` | pkg/pool-manager/macpoolmap.go:143-166 | Under the invariant the first-match alignment is the rewrite that confirms the instance's pending entry if its address and interface are on the VM and drops it otherwise |
| `MacMaps.RemoveIsRewrite` | pkg/pool-manager/macpoolmap.go:49-66 | Removing by first match is the rewrite that drops the selected entry |
| `MacMaps.RewriteTwice` | pkg/pool-manager/transaction.go:38-44 | Two rewrites with the same keep test, one after the other, are the rewrite of the union of their selections |
| `MacMaps.VmNameRebuilt` | pkg/pool-manager/virtualmachine_pool.go:585-592 | A name that splits into "vm" and two more parts is the one VmNamespaced builds from them |
| `MacMaps.SplitVmName` | pkg/pool-manager/virtualmachine_pool.go:614-616 | Splitting a VM name at slashes gives back namespace and name |
| `PoolManagement.MacPool.FindByMacAddressAndInstanceName` | pkg/pool-manager/macpoolmap.go:30-45 | The loop returns the index of the instance's first entry at the address, and an error exactly when there is none |
| `PoolManagement.MacPool.ClearMacTransactionFromMacEntry` | pkg/pool-manager/macpoolmap.go:13-23 | Clears the stamp of the instance's first entry, and nothing else |
| `PoolManagement.MacPool.RemoveInstanceFromMac` | pkg/pool-manager/macpoolmap.go:49-66 | Removes the instance's first entry in place and the address with its last entry |
| `PoolManagement.MacPool.CreateOrUpdateEntry` | pkg/pool-manager/macpoolmap.go:82-102 | The in-place update confirms the existing pair or appends it at the end |
| `PoolManagement.MacPool.UpdateMacTransactionTimestamps` | pkg/pool-manager/macpoolmap.go:105-116 | In some order stamps the addresses up to the first unknown one, and reports success exactly when all were known |
| `PoolManagement.MacPool.FilterInByInstanceName` | pkg/pool-manager/macpoolmap.go:69-80 | The sub-map of the instance's entries, in their order, without empty lists |
| `PoolManagement.MacPool.FilterMacsThatRequireCommit` | pkg/pool-manager/macpoolmap.go:118-140 | Keeps exactly the entries whose stamp is not later than the persisted time |
| `PoolManagement.MacPool.AlignMacEntryAccordingToVmInterface` | pkg/pool-manager/macpoolmap.go:143-166 | Confirms the instance's first entry when one interface has both its address and its name, else removes it |
| `Transactions.StampAllExact` | pkg/pool-manager/macpoolmap.go:105-116 | The sequential stamping is declarative: exactly the addresses before the first unknown one get their first entry of the instance stamped, all other lists are identical |
| `Transactions.StampAllAdvances` | pkg/pool-manager/macpoolmap.go:105-116 | Stamping removes no entry, touches no other instance and keeps the invariant |
| `PoolManagement.PoolManager.AllocateVirtualMachineMac` | pkg/pool-manager/virtualmachine_pool.go:39-107 | The imperative create equals the specification: the checks, the interface loop, the revert and the stamping, for the answers the allocator gave, each free when given |
| `VmOperations.AllocateSucceeds` | pkg/pool-manager/virtualmachine_pool.go:75-107 | A successful create removes nothing, leaves other instances alone and records every supported interface at the address it returns, confirmed or stamped with this transaction |
| `AdmissionLaws.CreateStamps` | pkg/pool-manager/virtualmachine_pool.go:99-101 | After a successful live create the VM's first entry at the address of every masquerade or Multus interface carries this transaction's stamp |
| `AdmissionLaws.CreateStampsOnly` | pkg/pool-manager/virtualmachine_pool.go:75-101 | Where the VM held nothing before and no other of its interfaces ends up, its entries are exactly one: the interface's, with this transaction's stamp |
| `AdmissionLaws.CreateElsewhere` | pkg/pool-manager/virtualmachine_pool.go:75-107 | At the addresses of no such interface a successful create changes nothing |
| `AdmissionLaws.CreateReturns` | pkg/pool-manager/virtualmachine_pool.go:75-104 | Live or dry: a blank interface that is masquerade or a Multus attachment comes back with the range's answer, every other interface as it came |
| `AdmissionLaws.CreateOkIff` | pkg/pool-manager/virtualmachine_pool.go:39-107 | On the fields of the request and the answers: exactly when a create succeeds, live or dry |
| `LifecycleLaws.RejectedCreateHealsIff` | pkg/pool-manager/virtualmachine_pool.go:539-583 | A create of a new VM that is granted, rejected by the API server and left to expire: one pass of healing that finds the VM gone gives back the old map if and only if no two of its interfaces were given the same address |
| `Failures.AllocateOkIff` | pkg/pool-manager/virtualmachine_pool.go:75-107 | A live create succeeds exactly when it has nothing to allocate, or passes both checks and the range serves every blank supported interface |
| `Failures.AllocateFailsIff` | pkg/pool-manager/virtualmachine_pool.go:488-498 | A failed create that passed the checks restores the map exactly, list order included and for any revert order, if and only if the VM held no address requested before the first blank interface the range cannot serve |
| `Failures.CreatedDistinctIff` | pkg/pool-manager/virtualmachine_pool.go:299-302 | The check sees requested addresses only: a successful create gives its supported interfaces pairwise different addresses exactly when no pool answer is the requested address of a later one |
| `VmOperations.FailedCreateOfNewVm` | pkg/pool-manager/virtualmachine_pool.go:75-97 | So for a VM without earlier entries a failed create restores the map exactly, even when a pool address equals a later requested one |
| `VmOperations.CreateIssuesFree` | pkg/pool-manager/virtualmachine_pool.go:235-247 | Every blank supported interface of a create gets an address that no instance held before |
| `VmOperations.AllocateDryRun` | pkg/pool-manager/virtualmachine_pool.go:235-264 | A dry-run create, succeeding or failing anywhere, leaves the map identical |
| `Transactions.RevertRestoresIff` | pkg/pool-manager/virtualmachine_pool.go:488-498 | For every order of the revert: a run of recordings is undone exactly if and only if the instance held none of the allocated addresses |
| `Transactions.RecordingsRevertedIff` | pkg/pool-manager/pod_pool.go:302-311 | A run that recorded any set of pairs, newAllocations keeping one per name, is undone exactly if and only if every kept pair stands where the instance held nothing and every forgotten one was recorded before |
| `Transactions.RevertedElsewhereIff` | pkg/pool-manager/pod_pool.go:302-311 | A revert under another name undoes a run exactly when nothing new was recorded and the other name holds none of the allocations |
| `Transactions.RevertAllExact` | pkg/pool-manager/virtualmachine_pool.go:488-498 | A revert takes at each address as many first entries of the instance as the address is listed, and keeps the others in order |
| `Transactions.RevertDropsFirst` | pkg/pool-manager/virtualmachine_pool.go:488-498 | The first entry the instance had at an allocated address never survives a revert |
| `PoolManagement.PoolManager.RevertAllocation` | pkg/pool-manager/virtualmachine_pool.go:488-498 | The loop removes one entry per allocation in some order, and does nothing on a dry run |
| `PoolManagement.CheckIntraVMDuplicateMACs` | pkg/pool-manager/virtualmachine_pool.go:296-316 | Accepts exactly the interface lists whose requested addresses are valid and pairwise different; addresses from the pool are not looked at |
| `PoolManagement.CheckVmForInterfaceDuplication` | pkg/pool-manager/virtualmachine_pool.go:222-233 | Accepts exactly the lists without a repeated interface name |
| `PoolManagement.PoolManager.UpdateMacAddressesForVirtualMachine` | pkg/pool-manager/virtualmachine_pool.go:130-212 | The imperative update equals the specification: checks, loop over old and new interfaces, revert, and the three stampings with errors ignored |
| `PoolManagement.PoolManager.UpdateInterface` | pkg/pool-manager/virtualmachine_pool.go:149-192 | One round of the update loop, branch by branch |
| `VmOperations.UpdateSucceeds` | pkg/pool-manager/virtualmachine_pool.go:149-212 | A successful update covers both versions: it removes no entry, leaves other instances identical, and every new or changed interface of the new VM is recorded, confirmed or stamped with this transaction |
| `AdmissionLaws.UpdateStampsGivenUp` | pkg/pool-manager/virtualmachine_pool.go:175-206 | After a successful live update of a VM whose addresses are on record, the VM's first entry carries this transaction's stamp at every address of a previous interface that is gone or was asked at another address |
| `AdmissionLaws.UpdateStampsTakenUp` | pkg/pool-manager/virtualmachine_pool.go:204-206 | And at every address a new, changed or blank interface ends up with |
| `AdmissionLaws.UpdateElsewhere` | pkg/pool-manager/virtualmachine_pool.go:149-212 | At all other addresses such an update changes nothing |
| `AdmissionLaws.CommittedUpdateLeavesNone` | pkg/pool-manager/virtualmachine_pool.go:501-524 | Once it is committed with the time it persisted, no entry is left of a previous interface that gave up its address, where that was the VM's one entry and the new version does not carry the pair |
| `AdmissionLaws.UpdateReturns` | pkg/pool-manager/virtualmachine_pool.go:149-210 | Live or dry: a blank interface comes back with what the previous VM had, or else with the range's answer, every other one as it came |
| `AdmissionLaws.UpdateOkIff` | pkg/pool-manager/virtualmachine_pool.go:130-212 | On the previous and the requested interfaces and the answers: exactly when an update succeeds, live or dry |
| `VmOperations.UpdateIssuesFree` | pkg/pool-manager/virtualmachine_pool.go:163-192 | A blank request keeps the old address of its interface, or gets one that no instance held |
| `Failures.UpdateOkIff` | pkg/pool-manager/virtualmachine_pool.go:165-200 | A live update succeeds exactly when it passes both checks and the range serves every new blank interface |
| `Failures.UpdateFailsIff` | pkg/pool-manager/virtualmachine_pool.go:168-200 | A failed update that passed the checks leaves the map as it was if and only if, before the first new blank interface the range cannot serve, the VM held neither the current address of a blank interface nor the requested address of a new or changed one |
| `Failures.FailedUpdateEmpties` | pkg/pool-manager/virtualmachine_pool.go:168-200 | The failing input, for every VM and address: a blank request for a recorded interface and one the range cannot serve; the update is rejected and its revert takes the live address out of the map |
| `VmOperations.UpdateDryRun` | pkg/pool-manager/virtualmachine_pool.go:130-212 | A dry-run update leaves the map identical |
| `PoolManagement.PoolManager.MarkVMAsReady` | pkg/pool-manager/virtualmachine_pool.go:501-524 | Filter, filter, align: the loops over sub-maps compute exactly the rewrite of the VM's ready entries |
| `Healing.MarkReadyExact` | pkg/pool-manager/transaction.go:38-44 | Exactly the VM's entries stamped at or before the persisted time change: those on the VM are confirmed, the others are gone |
| `Healing.MarkReadyStable` | pkg/pool-manager/virtualmachine_pool.go:501-524 | Commit adds nothing, keeps other instances in order, leaves none of the VM's entries ready, and a second call does nothing |
| `LifecycleLaws.CommitLaw` | pkg/pool-manager/virtualmachine_pool.go:501-524 | On interfaces and stamps: of the VM's entries stamped no later than the persisted time, one whose name and address are those of an interface is confirmed, one whose are not goes; every other entry stays |
| `PoolManagement.PoolManager.ReleaseAllMacs` | pkg/pool-manager/virtualmachine_pool.go:109-128 | Deletes exactly the addresses where the instance has an entry, other holders included; also the pod release |
| `LifecycleLaws.ReleaseLaw` | pkg/pool-manager/virtualmachine_pool.go:109-128 | An entry is left after a release exactly when it was there and no entry at its address is the instance's |
| `PoolManagement.PoolManager.HealStaleMacEntries` | pkg/pool-manager/virtualmachine_pool.go:539-583 | Scan, then removals, then alignments: the map becomes the declarative pass, or stays as it is exactly when the lookup of some expired entry fails |
| `PoolManagement.PoolManager.ScanAddress` | pkg/pool-manager/virtualmachine_pool.go:547-566 | One address of the scan: fails exactly on a failing lookup of an expired entry; the last vanished instance overwrites earlier ones; expired entries with a VM are listed in order |
| `Healing.HealAddressExact` | pkg/pool-manager/virtualmachine_pool.go:572-580 | The first-match removals and alignments at one address, in the code's order, equal the declarative rewrite of the picked entries |
| `Healing.HealExact` | pkg/pool-manager/virtualmachine_pool.go:539-583 | Only expired entries are touched; one still on its VM is kept and confirmed, one that left its VM goes |
| `Healing.HealDrains` | pkg/pool-manager/virtualmachine_pool.go:539-583 | Every error-free pass strictly lowers the number of expired entries while there are any, and keeps the invariant |
| `Healing.HealingTerminates` | pkg/pool-manager/virtualmachine_pool.go:528-537 | As many passes as there are expired entries leave none |
| `LifecycleLaws.HealLeavesYoung` | pkg/pool-manager/macentry.go:34-42 | With the expiry time spelled out: no pass touches an entry without a stamp, or not yet later than its stamp plus the waiting time |
| `LifecycleLaws.HealSettles` | pkg/pool-manager/virtualmachine_pool.go:553-580 | An error-free pass settles every entry later than its stamp plus the waiting time whose VM is found: confirmed when the VM has the interface at the address, gone when not |
| `LifecycleLaws.HealRemovesVictim` | pkg/pool-manager/virtualmachine_pool.go:555-575 | Of the overdue entries at an address whose VM is gone a pass takes out the one listed last |
| `LifecycleLaws.HealingEndsOverdue` | pkg/pool-manager/virtualmachine_pool.go:528-537 | After as many error-free passes as there are entries later than their stamp plus the waiting time, no entry is |
| `LifecycleLaws.HealFailsIff` | pkg/pool-manager/virtualmachine_pool.go:549-563 | A pass fails exactly when some overdue entry names a VM with an empty name or namespace, or one the API server fails on; then it changes nothing |
| `Healing.NamelessVmBlocksHealing` | pkg/pool-manager/virtualmachine_pool.go:589-591 | An expired entry of a VM admitted without a name makes every pass fail and change nothing |
| `PoolManagement.PoolManager.InitMacMapFromCluster` | pkg/pool-manager/virtualmachine_pool.go:332-359 | The start-up loop computes the specification, stopping at the first invalid address |
| `PoolManagement.PoolManager.RebuildInterface` | pkg/pool-manager/virtualmachine_pool.go:333-354 | One interface of the start-up scan: counts a duplicate when the address has entries and none is this pair, then records the pair regardless |
| `Healing.RebuildConserves` | pkg/pool-manager/virtualmachine_pool.go:332-359 | Start-up conservation: total entries minus distinct addresses grows by exactly the number of counted duplicates, nothing recorded is lost, and every supported interface with an address is recorded |
| `LifecycleLaws.RebuildFailsIff` | pkg/pool-manager/virtualmachine_pool.go:332-359 | A start-up fails exactly on an address that does not parse, of a masquerade or Multus interface of a VM with networks; duplicates do not make it fail |
| `LifecycleLaws.RebuildLaw` | pkg/pool-manager/virtualmachine_pool.go:332-359 | One that does not fail counts exactly the interfaces that come upon an address with entries, none of them their own pair; the pairs on record afterwards are those of the map it started from and those of the interfaces with an address, and no entry comes in but confirmed |
| `Healing.SurplusOfUpsert` | pkg/pool-manager/virtualmachine_pool.go:266-294 | Recording a pair adds a surplus entry exactly when the address is known and the pair is not |
| `PodPool.AllocatePodMac` | pkg/pool-manager/pod_pool.go:36-104 | The pod admission equals the specification, with its early exits and the name used for the revert |
| `PodPool.PodOkIff` | pkg/pool-manager/pod_pool.go:74-95 | An admission succeeds exactly when every requested address parses and every network without a request gets an answer |
| `PodPool.PodReturns` | pkg/pool-manager/pod_pool.go:74-104 | Then every network comes back with its request or, without one, the answer |
| `PodPool.GrantedPodIsRecorded` | pkg/pool-manager/pod_pool.go:134-187 | A granted admission leaves a confirmed entry for every network at its address, under the pod's name or the placeholder; nothing else is recorded and no other instance touched |
| `PodPool.FailedPodRestoresIff` | pkg/pool-manager/pod_pool.go:74-95 | A failed admission of a named pod, repeated network names and earlier entries included, leaves the map as it was, for any revert order, if and only if every round before the failure is undone: its address is the last of its name and the pod held nothing there, or the pair was recorded before |
| `PodPool.FailedNewPodRestoresIff` | pkg/pool-manager/pod_pool.go:74-95 | For a pod without earlier entries: exactly when no network name was recorded at two different addresses before the failure |
| `PodPool.FailedDistinctPodRestoresIff` | pkg/pool-manager/pod_pool.go:74-95 | For distinct network names: exactly when the pod held none of the addresses recorded before the failure |
| `PodPool.NamelessPodRestoresIff` | pkg/pool-manager/pod_pool.go:142-150 | A nameless pod is recorded under the placeholder and reverted under another name: the map is as it was if and only if every pair was recorded there already and the other name holds nothing at an address the revert names |
| `PodPool.RepeatedNetworkLeaks` | pkg/pool-manager/pod_pool.go:302-311 | A pod that repeats a network name, as a witness: its failed admission leaves the earlier of the two addresses in the map |
| `PodPool.PodDryRun` | pkg/pool-manager/pod_pool.go:134-187 | A dry-run pod allocation leaves the map identical |
| `RangeAllocation.RangeAllocator.GetFreeMac` | pkg/pool-manager/pool.go:296-335 | The in-place cursor loop refines the simple specification: the cyclically first free address at or after the cursor, in a fresh array, cursor just past it; nothing exactly when all addresses are held, cursor back at the start; the range arrays keep their octets; it is a step of the cursor relation |
| `RangeAllocation.FreeMacResultUnique` | pkg/pool-manager/pool.go:296-335 | That specification determines the issued address and the new cursor |
| `RangeAllocation.NoEarlyReuse` | pkg/pool-manager/pool.go:296-335 | In any run of calls with arbitrary map changes in between, when an address is issued twice every other address of the range was issued or found held between the two, across wrap-around and ErrFull resets |
| `RangeAllocation.RangeAllocator.UpdateRanges` | pkg/pool-manager/pool.go:485-526 | Succeeds exactly when both first octets are even, start is numerically below end and the random source answers; otherwise start, end and cursor are unchanged; from a configured range it is a step of the cursor relation |
| `RangeAllocation.CursorStaysInRange` | pkg/pool-manager/pool.go:485-526 | Over every interleaving of the steps that getFreeMac and UpdateRanges take, start stays below end and the cursor inside the range |
| `RangeAllocation.RangeTestExact` | pkg/pool-manager/pool.go:275-277 | checkRange together with a positive pool size means exactly start below end |
| `RangeAllocation.CheckRangeAcceptsReversed` | pkg/pool-manager/pool.go:240-248 | checkRange alone accepts some range that runs backwards |
| `RangeAllocation.CheckRange` | pkg/pool-manager/pool.go:240-248 | Accepts exactly when some octet of the start is below the same octet of the end, which every forward range satisfies |
| `RangeAllocation.GetMacPoolSize` | pkg/pool-manager/pool.go:250-268 | Fails exactly when checkRange does, else gives the numeric end - start + 1, which may be negative |
| `RangeAllocation.GenerateRandomMac` | pkg/pool-manager/pool.go:270-294 | For every offset below the pool size gives the address start + offset, inside the range; fails exactly on a source failure or when start is not below end |
| `Addresses.GetNextMac` | pkg/pool-manager/pool.go:347-356 | The in-place carry is + 1 modulo 2^48 on the numeric value |
| `Addresses.ConvertHwAddrToInt64` | pkg/utils/utils.go:45-57 | Printing every octet as two hex digits, joining and parsing gives the positional value; every 6-octet address parses |
| `Addresses.EncodeValue` | pkg/pool-manager/pool.go:290-293 | Decoding the last six octets of the big-endian 64-bit encoding gives back every number below 2^48 |
| `Addresses.ValueEncode` | pkg/pool-manager/pool.go:290-293 | Encoding the numeric value of a 6-octet address gives back the address |
| `Addresses.OctetOrderIsNumeric` | pkg/pool-manager/pool.go:240-248 | Octet-wise lexicographic order is numeric order |
| `Collisions.CollisionIndex.UpdateCollisionsMap` | pkg/pool-manager/vmi_collision.go:36-56 | The in-place update equals the specification on map and gauge, and keeps them in agreement when the report is proper |
| `Collisions.CollisionIndex.RemoveObjectFromAllMACs` | pkg/pool-manager/vmi_collision.go:58-73 | The loop takes the object out of every list and deletes lists of fewer than two |
| `Collisions.CollisionIndex.UpdateCollisionGauge` | pkg/pool-manager/vmi_collision.go:83-93 | The two loops set the gauge on the listed addresses and delete it on those that went |
| `Collisions.GaugeAlwaysAgrees` | pkg/pool-manager/vmi_collision.go:36-93 | From empty, after every sequence of proper reports the gauge shows exactly the map, and every list has at least two distinct objects |
| `Collisions.KeyInjective` | pkg/pool-manager/vmi_collision.go:32-34 | Objects with slash-free namespaces and equal keys are equal |
| `Detection.ReportsIff` | pkg/controller/maccollision/vmi_controller.go:180-228 | One live object reports another at an address exactly when both have it, they differ and no shared migration excuses them |
| `Detection.ReportsSymmetric` | pkg/controller/maccollision/migration.go:27-91 | Collision reports are symmetric across VMIs and pods, through the UID, phase, migration and cached-namespace filters |
| `ReportLaws.VmisReportEachOther` | pkg/controller/maccollision/migration.go:57-91 | On the fields: one running managed VMI reports another at an address exactly when both have it and there is no non-empty migration UID that is the source of both or the target of both |
| `ReportLaws.VmiReportLaw` | pkg/controller/maccollision/vmi_controller.go:180-228 | On the fields, in any cluster, failing answers included: exactly which VMIs and pods a VMI's report names at an address |
| `ReportLaws.PodReportLaw` | pkg/controller/maccollision/pod_controller.go:173-218 | The same for a pod's report |
| `ReportLaws.VmiMacsIff` | pkg/controller/maccollision/cache.go:92-118 | A VMI has an address exactly when its status shows it under the name of an interface that is masquerade or a Multus attachment |
| `ReportLaws.PushLaw` | pkg/pool-manager/vmi_collision.go:36-73 | After a push a reported address lists the object in front of its report; elsewhere the object is gone, the others stay, and the list with them exactly if two are left |
| `ReportLaws.ReconcileForgets` | pkg/controller/maccollision/vmi_controller.go:142-178 | After a reconcile of an object that is not in the cluster, of a managed VMI that is not running or has no addresses, or of a managed pod that is not running, no list mentions it and every list keeps its others |
| `ReportLaws.ReconcileLeaves` | pkg/controller/maccollision/pod_controller.go:133-186 | A reconcile of an unmanaged object, of one of unknown management, of a virt-launcher pod or of a running pod without addresses leaves the map as it is |
| `ReportLaws.ReconcileLists` | pkg/controller/maccollision/vmi_controller.go:180-228 | A reconcile of a running managed object with an address puts it in front of what it reports and takes it out of every other list |
| `ReportLaws.DroppedIff` | pkg/controller/maccollision/predicates.go:34-84 | The event filter drops exactly the updates that keep the phase, the addresses and the migration UIDs |
| `Convergence.ConvergesIff` | pkg/controller/maccollision/vmi_controller.go:142-228 | Order-independent convergence, with KubeVirt or without: after reconciling all live objects and all listed ones, in any order, the map is the brute-force one if and only if no uncrowded address began with two or more skipped objects |
| `Convergence.SweepResult` | pkg/pool-manager/vmi_collision.go:36-73 | The whole map after a sweep: a crowded address lists exactly its holders, each once; any other keeps just its skipped objects, in order, when there are two or more |
| `Convergence.HolderFixes` | pkg/pool-manager/vmi_collision.go:50-53 | One reconcile of a holder of a crowded address makes the list there exact, whatever it was |
| `Convergence.PodsWithoutAddressesStay` | pkg/controller/maccollision/pod_controller.go:181-184 | Two running pods that lost their addresses stay listed: a map that does not converge |
| `Convergence.ReconcileAgrees` | pkg/controller/maccollision/pod_controller.go:173-218 | Every reconcile of either controller keeps map and gauge in agreement: its reports are non-empty, unrepeated and omit the object |
| `Convergence.FilteredUpdateChangesNothing` | pkg/controller/maccollision/predicates.go:34-84 | When the event filter drops an update, then in every cluster every VMI and pod reconcile pushes the same with the new VMI as with the old one |
| `Controllers.SupportedMACsFromVMI` | pkg/controller/maccollision/cache.go:92-118 | Collects exactly the valid status addresses of supported interfaces |
| `Controllers.IndexPodByMAC` | pkg/controller/maccollision/cache.go:148-182 | Collects each valid requested address once; nothing without a network status or on a malformed annotation |
| `Controllers.FilterOutDecentralizedMigrations` | pkg/controller/maccollision/migration.go:27-55 | Keeps, in order, exactly the candidates for which no non-empty migration UID is the source of both or the target of both |
| `Controllers.FilterManagedVMIs` | pkg/controller/maccollision/vmi_candidates.go:76-108 | The growing namespace cache does not show: the result is that of asking for every candidate, with failing answers admitted |
| `Controllers.FilterCollisionCandidatePods` | pkg/controller/maccollision/pod_candidates.go:59-94 | Keeps, in order, the pods that are not virt-launcher's and are in the reconciled namespace or one not known to be unmanaged; the growing cache does not show |
| `Controllers.ListRunningVMIsByMACWithExcludeUID` | pkg/controller/maccollision/vmi_candidates.go:55-74 | Exactly the running VMIs with the address and another UID, in order |
| `Controllers.ListRunningVMIsByMAC` | pkg/controller/maccollision/vmi_candidates.go:37-53 | Exactly the running VMIs with the address, in order |
| `Controllers.ListRunningPodsWithMAC` | pkg/controller/maccollision/pod_candidates.go:30-46 | Exactly the running pods with the address, in order |
| `Controllers.ExcludePodUID` | pkg/controller/maccollision/pod_candidates.go:48-57 | Exactly the pods with another UID, in order |
| `Controllers.VmiRefsAt` | pkg/controller/maccollision/vmi_controller.go:198-216 | The chain of filters yields exactly the colliders of one address, VMIs before pods |
| `Controllers.PodRefsAt` | pkg/controller/maccollision/pod_controller.go:188-207 | The same for a pod, pods before VMIs, and no VMIs without KubeVirt |
| `Controllers.ReconcileVmi` | pkg/controller/maccollision/vmi_controller.go:142-228 | Index and gauge become the specified reconcile's; on a failing managed answer nothing changes |
| `Controllers.ReconcilePod` | pkg/controller/maccollision/pod_controller.go:133-218 | Index and gauge become the specified reconcile's; launcher pods, unmanaged ones and running pods without addresses are skipped |

## Left out

- The Kubernetes client, informers, watches, pagination, admission decoding and patch building: the cluster is a snapshot value, API answers are functions that may fail, persisting is an explicit step. A failing Get or List in the collision controllers returns before any change and is not modelled.
- net.ParseMAC and the text form of addresses: keys are octets; addresses of other lengths than six are not modelled.
- The wall clock and the RFC 3339 text of the stamp: an integer clock.
- The random source: any offset below the pool size, or failure.
- Opt-mode and namespace selectors: "managed" is a function of the namespace that may fail. Whether a webhook is called for a namespace is not modelled.
- Mutexes: each locked method is one atomic step.
- Events, logging, Prometheus registration and the TLS, certificate and process set-up: no state worth proving.
- Cross-type enqueueing (mapPodToVMIs, mapVMIToPods) and the pod event filter: the sweep of the convergence theorem takes any order of reconciles instead.
- The start-up scan of pods (initPodMap): it records with the same createOrUpdateEntry; the protocol starts from any well-formed map the pods may have left.
- Labels, finalizers, cache stripping, the vulnerability-report tool and the test helpers.
- Convergence.ConvergesIff: for clusters without shared migrations; a shared migration makes holders leave each other out, so that the list depends on who was reconciled last.
- Protocol.RunSafety: promises nothing for the addresses a VM got while it had no name; they are recorded under an empty name that no later step refers to (NamelessVmBlocksHealing shows the effect on healing).

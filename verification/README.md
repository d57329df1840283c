# SLTV, modelled and proved in Dafny

SLTV is a storage controller for libvirt/QEMU hypervisors.  It keeps three
separately failing systems in step: a catalog of disks and attachments (in
memory, bolt or etcd), LVM, and libvirt.  Many nodes do so at the same time,
under one lock per volume group and one global name space of disks.

`dafny verify dfyconfig.toml` checks everything.

| file | what it holds |
|---|---|
| `Records.dfy` | records, errors, `uint64` wrap-around, device paths, normalisation of create requests |
| `Ordering.dfy` | the order of names, sorting, uniqueness of sorted listings |
| `Protocol.dfy` | create, delete and extend by any number of nodes as a step protocol; its inductive invariant; agreement of catalog and LVM |
| `ProtocolSizes.dfy` | exactly when a record states no more than the size of its LV, over all interleavings |
| `ProtocolIsolation.dfy` | runs in which extends do not overlap a deletion, and runs without deletes |
| `ProtocolExact.dfy` | exactly when record and LV state the same size |
| `ProtocolProgress.dfy` | what one operation does, call by call, and what is left when a call fails |
| `ProtocolRaces.dfy` | the runs that show why the conditions on sizes are needed |
| `Locking.dfy` | the etcd lock and the release closure of `Acquire` |
| `Lifecycle.dfy` | the disk service as a class, run sequentially, with a fault at any external call |
| `Growth.dfy` | repeated percent extends and the feedback loop of one thin disk |
| `Thin.dfy` | the auto-extend manager as a class: one pass, and many |
| `Stores.dfy` | the three catalog backends over their flat key spaces |
| `Domstats.dfy`, `DomstatsLines.dfy`, `DomstatsRoundTrip.dfy` | the `virsh domstats` parser; which lines count and what they say; printing and parsing back |

## How external systems are modelled

- **Protocol.** A state has the catalog, the LVs, the lock owners and one
  program counter per node with the locals the operation carries.  A schedule
  names, step by step, a node and what the environment decides: the call
  answers, fails without effect, or leaves an LV of some size.  Any call may
  fail.  Delete and extend read the record before they take the lock
  (internal/disk/disk.go:267, 429, 478), so stale copies are part of the model.
  A name is `damaged` once the rollback `lvremove` of one of its creates or the
  catalog delete at the end of one of its deletes has failed; LVs that were
  there before the catalog are kept apart as `foreign`.
- **`lvextend`** fails, or leaves the LV at least as large as requested; an
  absolute size that is not above the current one fails.
- **Lifecycle.** Which external call fails is an arbitrary function of the kind of
  call and of the number of calls made before it.  Theorems name the calls they
  assume not to fail.
- **libvirt** takes a device at a free target.  At an occupied target a *strict*
  libvirt refuses every device; an *idempotent* one (internal/libvirtx/libvirtx.go:88-91,
  internal/libvirtx/fake.go:75-79) accepts the source that is there already and
  changes nothing.
- **etcd's lock** is the queue of the keys the sessions have under the lock's
  prefix; the lease of a live holder does not expire.
- **Time of day, identifiers and map iteration order** are arbitrary.

## What turned out not to hold

- *Catalog and LVM agree whenever the lock is free* fails for a name whose
  rollback or final catalog delete has failed, and only for such names:
  `LvsMatchCatalog`, `FailedCleanupDisagrees`.
- *A record never overstates its LV* fails when an extend carries a copy of a
  record across a delete and a new create of the same name: the run in
  `StaleExtendOverstates` ends with a record of 105 bytes over an LV of 15, and
  the record is the deleted disk's (internal/disk/disk.go:429-456, 478-496).
  `CoveredRunIff` says exactly which runs keep an LV covered: those in which
  every `lvextend` of it reaches the size about to be recorded.  An extend by a
  delta or a percentage does so whenever its copy is not larger than the LV
  (`RecordNeverOverstates`), and over an exact tool only then (`ExtendSizesIff`).
- *Record and LV have the same size* also fails when two extends of one disk
  overlap: the second update overwrites the first (`RacingExtendsLoseUpdate`).
  `ExactRunIff` and `ExtendSizesIff` are the exact conditions.
- *A failed attach leaves catalog and libvirt as they were* fails for an
  idempotent libvirt and an attachment that is asked for again at its own target:
  the rollback of the refused insert (internal/disk/disk.go:364-368) unplugs the
  earlier device.  `AttachKeepsSyncIff` proves that this is the only case.
- *The three stores agree* fails for disks of which one is called like the other
  followed by a bar and more, names that `normaliseCreate` accepts
  (internal/disk/disk.go:159): memory and bolt refuse an attachment that etcd
  takes (`NestedNamesDisagree`).  Two disks can collide only if they are so
  nested (`KeysCollideIff`); each backend answers as the catalog does exactly
  unless another attachment has the key in question.
- *The lock excludes* holds between nodes and not within one: two acquisitions
  of one node share its session's key (`SharedSessionBreaksExclusion`).
  `ExclusionIff` says that this is the only way to break it.
- *The visiting order of the VMs does not matter to a pass* fails for a disk
  attached to two VMs: one order can leave 1210 bytes and the other 1100
  (`VisitingOrderMatters`, and `SharedDiskOrderMattersIff` for exactly when).
- *Auto-extend reaches its threshold* needs size * step >= 100: below that a
  percent extend adds no byte (`ConvergesIff`).

## Model

| member | source | states |
|---|---|---|
| Protocol.StepKeepsInv | internal/disk/disk.go:203-296 | Every step of every node, from any state that satisfies it and with any call failing, keeps the invariant: lock ownership, LV presence by the holder's program counter for undamaged names, no claim on foreign LVs, a create never beside a record of its own LV, history in step with the catalog |
| Protocol.RunKeepsInv | internal/disk/disk.go:203-296 | Every state of every schedule from every initial state satisfies the invariant |
| Protocol.LvsMatchCatalog | internal/disk/disk.go:203-296 | In every interleaving with any failures, whenever a volume group's lock is free, an LV of an undamaged name exists exactly when a committed record names it or it was there from the start, and never both |
| Protocol.DamagedIff | internal/disk/disk.go:229-252 | A name is damaged exactly if the rollback of one of its creates or the last call of one of its deletes failed in the run |
| Protocol.FailedCleanupDisagrees | internal/disk/disk.go:289-294 | The first such failure of a name leaves an LV without a record or a record without an LV once the lock is free |
| Protocol.ForeignLvsUntouched | internal/disk/disk.go:215-252 | LVs that were there before the catalog are never removed or resized, whatever names are created, deleted and extended |
| Protocol.MutualExclusion | internal/cluster/cluster.go:31-38 | At every reachable state at most one node is between acquire and release on a volume group |
| Protocol.OnlyHolderChangesLv | internal/disk/disk.go:209-213 | Every step that creates, resizes or removes an LV is taken by the holder of its volume group's lock, on the LV of its own job |
| Protocol.RemovalIsJustified | internal/disk/disk.go:215-252 | With any calls failing, the rollback of a create removes an LV only while no committed record names it, so a create that loses the name race harms nobody; a delete removes an LV only while a committed record names it or after an earlier cleanup of the name failed |
| Protocol.DeletedInBetween | internal/store/etcd.go:49-66 | A name inserted at one point of the history and free at a later one was deleted in between |
| Protocol.CreatesAlternateWithDeletes | internal/store/etcd.go:49-66 | Between two successful creates of a name there is a delete of it, in every interleaving and across volume groups |
| ProtocolSizes.StepCoversIff | internal/disk/disk.go:429-456 | From a state in which record and pending record stay within the LV, a step keeps that if and only if it is no `lvextend` of this LV that falls short of the size to be recorded |
| ProtocolSizes.CoveredRunIff | internal/disk/disk.go:425-496 | For every interleaving with any failures, an LV covers its record and the one about to be written at all times if and only if every `lvextend` of it reached the size to be recorded |
| ProtocolSizes.RecordFitsRunIff | internal/disk/disk.go:425-496 | For every interleaving with any failures, an LV covers its record at all times if and only if no record update that commits writes more than the LV has at that time |
| ProtocolSizes.RecordNeverOverstates | internal/disk/disk.go:429-456 | In every run in which each delta or percent extend of this LV found it at least as large as the copy of the record it goes by, the record never exceeds the LV; other disks are unconstrained |
| ProtocolIsolation.IsolatedNeverOverstates | internal/disk/disk.go:429-456 | If no delete of a disk commits while an extend of it carries a copy, every extend of it is of that kind |
| ProtocolIsolation.NoDeletesIsolates | internal/disk/disk.go:266-296 | Runs in which nobody asks for a delete meet that condition for every disk |
| ProtocolIsolation.WithoutDeletesNeverOverstates | internal/disk/disk.go:425-496 | In every run without deletes, with any failures, every record's LV exists and is at least as large as the record states |
| ProtocolExact.StepExactIff | internal/disk/disk.go:429-456 | From a state in which record or pending record states the LV's size, a step keeps that if and only if it is exact on this LV: `lvcreate` and `lvextend` reach the size to be recorded, and a record update does not fail unless it changes nothing |
| ProtocolExact.ExactRunIff | internal/disk/disk.go:425-496 | For every interleaving, one LV's record, or the one about to be written, states its size at all times if and only if every step on that LV is exact, whatever happens to other disks |
| ProtocolExact.RecordStatesExactSize | internal/disk/disk.go:429-456 | If the steps on one LV are exact, its record states its size whenever its lock is free, and the LV exists if its name is undamaged |
| ProtocolExact.SoloRunIsExact | internal/disk/disk.go:429-456 | With byte-exact tools and no failing update on one disk, and no extend or delete of it committing between another extend's read and update of it, every step on it is exact |
| ProtocolExact.ExtendSizesIff | internal/disk/disk.go:474-496 | From every reachable state, an extend over an exact tool that commits leaves its record within its LV if and only if it is absolute or its copy is no larger than the LV, and equal to it if and only if it is absolute or its copy is equal |
| ProtocolProgress.CreateProgress | internal/disk/disk.go:203-252 | A create whose calls all succeed, after every number of calls: the lock is held from the second to the last, the LV is there from the fourth on, and the record from the last but one on, two calls later for a thin disk than for a thick one |
| ProtocolProgress.CreateCompletes | internal/disk/disk.go:203-252 | Such a create ends with the lock free, the LV at the allotted size, and a record whose name, group, mode, sizes, device path and node are what was asked for or defaulted; nothing else changes |
| ProtocolProgress.ReachableCreateReady | internal/disk/disk.go:215-222 | From every reachable state an undamaged free name can be created wherever no foreign LV of that name was from the start |
| ProtocolProgress.FailedCreateChangesNothing | internal/disk/disk.go:203-252 | Whichever call of a create fails, lock, check, `lvcreate`, image, dd or insert, the whole state is as before the request |
| ProtocolProgress.TakenNameChangesNothing | internal/disk/disk.go:215-219 | A create that finds its name taken gives the lock back and changes nothing else |
| ProtocolProgress.LostRaceRemovesOwnLv | internal/disk/disk.go:247-251 | A create whose insert is refused removes its own LV, gives the lock back and changes nothing else |
| ProtocolProgress.DeleteProgress | internal/disk/disk.go:266-296 | A delete whose calls all succeed, after every number of calls: the lock is held from the third to the last, the LV goes with the fifth and the record with the sixth, and nothing else changes |
| ProtocolProgress.ReachableDeleteReady | internal/disk/disk.go:266-296 | From every reachable state a record of an undamaged name whose lock is free can be deleted so |
| ProtocolProgress.FailedDelete | internal/disk/disk.go:266-296 | A delete that fails at reading, locking, detaching or `lvremove` changes nothing; one that fails at the record's deletion leaves the record without its LV |
| ProtocolProgress.DeleteNeedsLv | internal/disk/disk.go:289-291 | A delete whose LV is missing keeps the record |
| ProtocolProgress.ExtendProgress | internal/disk/disk.go:425-456 | An absolute, delta or percent extend whose calls all succeed, after every number of calls: the lock is held from the third to the last, the LV grows with the fourth and the record follows with the fifth, in size only |
| ProtocolProgress.ExtendCompletes | internal/disk/disk.go:425-496 | It ends with the lock free, the LV at the size `lvextend` gave it and the record at its new size, and nothing else changed |
| ProtocolProgress.ReachableExtendReady | internal/disk/disk.go:425-496 | From every reachable state a record of an undamaged name whose lock is free can be extended so |
| ProtocolProgress.FailedExtend | internal/disk/disk.go:425-456 | An extend that fails at reading, locking or `lvextend` changes nothing; one that fails at the record's update leaves only the LV grown |
| ProtocolProgress.ExtendFinishes | internal/disk/disk.go:433-456 | From its pre-lock read on, an extend grows the LV as it is now and overwrites the record with what it read and the new size |
| ProtocolProgress.RefusedRequestsChangeNothing | internal/disk/disk.go:266-270 | Deletes and extends of unknown names and requests that are refused change nothing |
| ProtocolRaces.StaleExtendOverstates | internal/disk/disk.go:429-456 | There is a run of two nodes, all calls succeeding, that ends with a record of 105 bytes over an LV of 15 |
| ProtocolRaces.RacingExtendsLoseUpdate | internal/disk/disk.go:429-456 | There is a run without deletes that ends with a record of 105 bytes over an LV of 112: one extend's update is lost |
| Locking.ExclusionIff | internal/cluster/cluster.go:31-38 | The lock excludes throughout a run if and only if no session is granted or gives up an acquisition while another of its own is open |
| Locking.LeaveIs | internal/cluster/cluster.go:242-253 | Deleting a session's key leaves the others in their order |
| Locking.ReleaseNeverFreesAnother | internal/cluster/cluster.go:240-254 | In every such run, calling any other closure, fired before or not, leaves the lock and the open acquisition as they are |
| Locking.SharedSessionBreaksExclusion | internal/cluster/cluster.go:150-150 | Two acquisitions of one node and one of another can all be granted so that two are open at once |
| Locking.Mutex.TryLock | internal/cluster/cluster.go:236-239 | A session gets at most one key, behind all others, and has the lock exactly when no key is before its own |
| Locking.Mutex.Acquire | internal/cluster/cluster.go:232-254 | The holder, and nobody else, gets a closure that has not fired, for the acquisition just granted |
| Locking.Release.Call | internal/cluster/cluster.go:242-253 | The closure with its flag does what firing its acquisition does: the first call ends the acquisition and deletes the session's key, every later one changes nothing |
| Locking.Release.CallMany | internal/cluster/cluster.go:242-253 | Any number of calls has the effect of one |
| Locking.Replay | internal/cluster/cluster.go:232-254 | For every sequence of asks, grants, cancellations and closure calls, repeated calls included, the lock and closure objects end in the state of the abstract run, each flag telling whether its acquisition is over |
| Records.NormaliseCreate | internal/disk/disk.go:155-198 | Exactly which requests are accepted, and how volume group, mode and sizes follow from the request and the defaults |
| Records.ValidNameIff | internal/disk/disk.go:156-161 | A name is valid if and only if it is not empty and holds no blank, slash, backslash, tab or newline |
| Records.AsksForNothingIff | internal/disk/disk.go:426-428 | Exactly the amounts of zero are refused |
| Records.NewSizeIs | internal/disk/disk.go:439-451 | The recorded size is the absolute size, or the old size plus the delta or the rounded-down percentage, in `uint64` arithmetic |
| Records.NormaliseIdempotent | internal/disk/disk.go:155-198 | A normalised request is normalised to itself under any defaults |
| Records.DevicePathInjective | internal/lvm/lvm.go:155-157 | LVs with slash-free names have different device paths |
| Lifecycle.Service.CreateDisk | internal/disk/disk.go:203-262 | For every failure pattern: success leaves LV, header of a thin disk and record, all new, with every field of the record given; failure leaves the catalog, and LVM if the rollback works, as found; the temporary image never outlives the call if its removal works; without faults it succeeds exactly on valid input and free names, and the error says which |
| Lifecycle.Service.DeleteDisk | internal/disk/disk.go:266-296 | Success removes the record, the LV, exactly the disk's attachments and exactly the devices in their places; failure keeps the record and has detached exactly a prefix of the VM-sorted attachments, plus the next one's device if only the deletion of its record failed, and keeps the LV unless only the disk record's deletion failed; without force nothing is detached |
| Lifecycle.Service.DetachAll | internal/disk/disk.go:284-288 | The detach loop stops at the first failure with exactly the attachments before it detached in catalog and libvirt |
| Lifecycle.DetachSparesOthers | internal/disk/disk.go:284-288 | In step, detaching a disk's attachments takes all of its devices and none of any other disk |
| Lifecycle.ClearedFields | internal/disk/disk.go:284-288 | Clearing a listing removes exactly the disk's attachments and the devices in their places |
| Lifecycle.Service.AttachDisk | internal/disk/disk.go:320-370 | Success adds the attachment, recorded for this node, and at a free target the device with the disk's path and its mode's format; failure keeps the catalog, and libvirt too if the rollback works, unless an occupied target was accepted; without faults it succeeds exactly for a known disk and domain not attached yet at a target that is free or has that device |
| Lifecycle.AttachedIs | internal/disk/disk.go:320-370 | The faultless outcome, field by field |
| Lifecycle.TargetIs | internal/disk/disk.go:333-343 | The target is the one asked for, or the first of vdb to vdz that no attachment of the VM has, or vdaa if all are taken |
| Lifecycle.Service.PickTargetDev | internal/disk/disk.go:373-382 | The loop computes the first free letter, or vdaa |
| Lifecycle.FirstFreeIsFree | internal/disk/disk.go:373-382 | The picked name is the first free letter whenever one of b to z is free, and vdaa otherwise |
| Lifecycle.AutoReattachOnlyWhenFull | internal/disk/disk.go:333-343 | An attach without a target can hit its own earlier attachment only at vdaa with all letters used |
| Lifecycle.OccupiedMeansReattach | internal/libvirtx/fake.go:75-81 | In step, libvirt accepts an occupied target only if it is idempotent and this very attachment is asked for again |
| Lifecycle.AttachKeepsSyncIff | internal/disk/disk.go:364-368 | Without faults an attach keeps attachments and devices in one-to-one correspondence if and only if libvirt is strict, the domain does not exist or the attachment is not there already |
| Lifecycle.RepeatedAttachLosesDevice | internal/disk/disk.go:364-368 | Attaching any disk twice at vdb to an idempotent libvirt leaves an attachment without a device |
| Lifecycle.Service.DetachDisk | internal/disk/disk.go:385-409 | Success removes exactly the attachment and its device; failure keeps the attachment, and the device unless only the record's deletion failed |
| Lifecycle.DetachKeepsSync | internal/disk/disk.go:401-409 | Detaching any part of the attachments, each with its device, keeps the one-to-one correspondence |
| Lifecycle.DeleteKeepsSync | internal/disk/disk.go:277-295 | Deleting a disk with all its attachments keeps referential integrity and the correspondence |
| Lifecycle.Service.Extend | internal/disk/disk.go:425-502 | Success grows an existing LV, writes the record's own new size and nothing else, and tells only guests of this disk; without faults every guest that has the disk is told the new size once, in the order of the VMs; failure keeps every record, and every LV unless only the record's update failed; without faults it succeeds exactly on a non-zero amount for an existing record and LV that `lvextend` takes, and the error says why not |
| Lifecycle.NoticesTellAll | internal/disk/disk.go:459-470 | The notices for a listing hold one entry for each attachment of the disk, with its target and the size, in dictionary order of the VMs |
| Lifecycle.Service.Serve | internal/disk/disk.go:203-502 | After any sequence of operations with any failures every attachment names an existing disk; if rollback detaches and attachment deletes work and libvirt is strict or no attachment is asked for at its own target while it is there, attachments and devices correspond one to one and no two attachments share VM and target; if rollback removals and record deletes work, every record has its LV and every thin one its header |
| Lifecycle.NoRepeatsNoReattach | internal/disk/disk.go:320-370 | A sequence of operations that names no disk and VM twice, nor one attached at the start, asks for no attachment that is there |
| Growth.GrowthUpperBound | internal/disk/disk.go:491-492 | After k extends by p percent, 100^k * size_k <= size_0 * (100+p)^k |
| Growth.GrowthShortfall | internal/disk/disk.go:491-492 | The shortfall is at most 99 hundredths of a byte per extend, carried forward: p * (size_0 (100+p)^k - 100^k size_k) <= 99 * ((100+p)^k - 100^k) |
| Growth.NoWrap | internal/config/config.go:183-185 | For a step `Validate` accepts and a size up to (2^64-1)/1000 a percent extend gives size + size * step / 100 and never wraps |
| Growth.TargetIsThreshold | internal/libvirtx/libvirtx.go:75-84 | Free space is below the threshold exactly when the size is below the target size |
| Growth.BelowThresholdIff | internal/libvirtx/libvirtx.go:75-84 | Too little is free if and only if the device has a physical size and (100 - T) * physical < 100 * allocation |
| Growth.TicksNeededIs | internal/thin/manager.go:159-186 | The stated number of ticks is the least number of first extends that reach the threshold |
| Growth.Converges | internal/thin/manager.go:159-186 | With fixed allocation and size * step >= 100, after an explicit number of ticks the threshold is free and nothing changes any more |
| Growth.ConvergesGeometrically | internal/thin/manager.go:159-186 | A number of ticks logarithmic in target/size suffices |
| Growth.TooSmallIsStuck | internal/disk/disk.go:491-492 | A disk with size * step < 100 never grows |
| Growth.ConvergesIff | internal/thin/manager.go:159-186 | The loop reaches the threshold if and only if it is free already or size * step >= 100 |
| Growth.Overshoot | internal/thin/manager.go:159-186 | If any extend changed the size, finalSize * (100 - T) < allocation * (100 + step) |
| Growth.SharedDiskOrderIff | internal/thin/manager.go:150-186 | Two ticks of a disk on two allocations commute exactly unless the first extend satisfies the smaller allocation and not the larger |
| Thin.New | internal/thin/manager.go:72-80 | A manager is made exactly for a threshold in (0, 100), a positive step and a node id |
| Thin.Manager.GroupByVm | internal/thin/manager.go:142-149 | An attachment is in the group of a VM if and only if it is listed, of that VM, and has no host or this node as its host |
| Thin.IndexByName | internal/thin/manager.go:156-159 | The map has exactly the names that occur, each with the last entry of that name |
| Thin.NamedIff | internal/thin/manager.go:156-159 | The lookup by name finds the last entry of the name, and nothing only for a name without entries |
| Thin.Manager.ExtendByPercent | internal/disk/disk.go:474-502 | Success grows the record and resizes every attachment of the disk whose resize works; failure, or an unknown disk, changes nothing |
| Thin.Manager.Tick | internal/thin/manager.go:135-188 | For any attachments and failures a pass visits each of this node's VMs once and does what that order says; if every disk is attached at most once, a disk grows by the step if and only if it is thin, its attachment has no host or this node as its host, its VM's statistics can be read and their last entry for the target is below the threshold, and the extend succeeds; and nothing else changes |
| Thin.Manager.DiskAfter | internal/thin/manager.go:150-186 | What one disk is after a pass, from the fields of its attachment and statistics before |
| Thin.Manager.OrderLeavesNoTrace | internal/thin/manager.go:150-188 | If every disk is attached at most once, every visiting order extends the disks read off the state before the pass |
| Thin.Manager.OrdersAgree | internal/thin/manager.go:150-188 | Then any two visiting orders end in the same state |
| Thin.Manager.SharedDiskOrders | internal/thin/manager.go:150-188 | For a disk attached to two VMs the two orders tick it on the two allocations in turn |
| Thin.Manager.SharedDiskOrderMattersIff | internal/thin/manager.go:150-188 | The two orders end with different sizes if and only if the first extend satisfies the smaller allocation and not the larger |
| Thin.VisitingOrderMatters | internal/thin/manager.go:150-188 | A disk of 1000 bytes used to 810 and 900 ends at 1210 bytes in one order and at 1100 in the other |
| Thin.AfterHitsUnique | internal/thin/manager.go:150-188 | The extended disks and the state before a pass determine the state after it |
| Thin.Manager.TickTracked | internal/thin/manager.go:159-186 | A pass without faults takes every tracked disk one step of the feedback loop and keeps it tracked |
| Thin.Manager.Ticks | internal/thin/manager.go:96-115 | If every disk is attached at most once, n passes bring every tracked disk to its threshold once n is large enough, and never above (100 + step) percent of the need |
| Ordering.SortedUnique | internal/store/memory.go:117-122 | A strictly sorted listing is determined by its elements |
| Ordering.LessIff | internal/store/memory.go:68-68 | One name is listed before another if and only if it is a proper prefix or has the smaller character at the first difference |
| Ordering.Sort | internal/store/memory.go:117-122 | Elements with different keys come out sorted and unchanged |
| Ordering.Collect | internal/store/memory.go:58-70 | Whatever the map order, the kept entries come out, each once and sorted |
| Stores.ServesDeterministic | internal/store/store.go:9-38 | The abstract catalog gives each operation one reply and one new state, listings included |
| Stores.ListingsInOrder | internal/store/memory.go:58-124 | Every listing holds exactly the disks or attachments asked for, neighbours in dictionary order of names, or of disks and then VMs |
| Stores.CatalogLaws | internal/store/store.go:10-23 | A disk can be created exactly when its name is free and updated exactly when it is there; it is then read back; after a delete it is not found; other names and all attachments are unaffected |
| Stores.AttachmentLaws | internal/store/store.go:25-34 | The same for attachments by disk and VM |
| Stores.KeyTexts | internal/store/etcd.go:32-46 | The keys, written out |
| Stores.KeyInjective | internal/store/types.go:70-72 | For both key formats, disk names of which neither is the other followed by the separator and more give different keys to different pairs |
| Stores.KeysCollideIff | internal/store/types.go:70-72 | Two different disks can get attachments with one key if and only if one is called like the other followed by the separator and more |
| Stores.PlainNamesApart | internal/disk/disk.go:159-161 | Names without the separator are never so nested |
| Stores.AcceptedNamesCollide | internal/disk/disk.go:159-161 | Names nested by a bar are accepted |
| Stores.NestedNamesDisagree | internal/store/types.go:70-72 | For every two names nested by a bar there are two attachments of which memory refuses the second and etcd takes both; nested by a slash it is the other way round |
| Stores.KeyRangesDisjoint | internal/store/etcd.go:32-46 | No disk key lies in the attachment range and no attachment key in the disk range, whatever the names |
| Stores.PrefixScanIsFilter | internal/store/etcd.go:168-195 | A prefix scan finds an attachment if and only if filtering by disk would, for any VM name and disk names of which neither is the other followed by a slash and more |
| Stores.CollectDisks | internal/store/memory.go:58-70 | The listing is the matching records, sorted by name, for every map order |
| Stores.CollectAttachments | internal/store/memory.go:104-124 | The listing is the matching attachments, sorted by disk and VM, for every map order |
| Stores.MemoryStore.Do | internal/store/memory.go:25-132 | For any names, an operation answers and changes state as the abstract catalog does if and only if no other attachment has the key it looks up |
| Stores.BoltStore.Do | internal/store/bolt.go:65-202 | The same, and unless a disk with an empty name is created |
| Stores.BoltStore.PutDisk | internal/store/bolt.go:65-92 | A record is put under its name; the empty key is refused |
| Stores.EtcdStore.Do | internal/store/etcd.go:49-201 | The same for the flat key space with lock and membership keys, and for a listing if and only if no attachment of another disk strays into the scanned range |
| Stores.EtcdStore.ScanDisks | internal/store/etcd.go:105-123 | The prefix scan lists exactly the catalog's disks of the volume group, sorted |
| Stores.EtcdStore.ScanAttachments | internal/store/etcd.go:168-195 | The prefix scan lists exactly the catalog's attachments of the disk and VM, sorted, if and only if there are no strays |
| Stores.Lockstep | internal/store/store.go:9-38 | Any sequence of operations gets the same replies, errors and listings from all three backends, if no disk name in use is another followed by a bar or slash and more, and no created disk has an empty name; VM names are arbitrary |
| Domstats.FoldKeys | internal/libvirtx/libvirtx.go:286-294 | A device is in the table exactly when some line mentions its index |
| Domstats.LastLineWins | internal/libvirtx/libvirtx.go:295-306 | A field has the value of the last line that sets it |
| Domstats.UnsetIsBlank | internal/libvirtx/libvirtx.go:290-293 | A text no line sets is empty and a number no line sets is 0 |
| Domstats.AllHitsIffDense | internal/libvirtx/libvirtx.go:311-318 | n hits in n probes occur if and only if the indices are 0 to n-1 |
| Domstats.SortInts | internal/libvirtx/libvirtx.go:337-344 | The array ends sorted and is a permutation of what it was |
| Domstats.ProbeDense | internal/libvirtx/libvirtx.go:311-316 | A probe of 0 to n-1 that found n devices is the full listing |
| Domstats.WalkSorted | internal/libvirtx/libvirtx.go:318-328 | The walk over the sorted keys is the full listing |
| Domstats.ListsUnique | internal/libvirtx/libvirtx.go:311-329 | A table has one listing, so both paths agree |
| Domstats.ParseDomstatsBlocks | internal/libvirtx/libvirtx.go:267-330 | Each mentioned index once, in strictly increasing order, with its last values; an over-long line fails the parse |
| Domstats.TooLongIff | internal/libvirtx/libvirtx.go:268-269 | A line is over-long from one mebibyte on |
| DomstatsLines.ParseLineIff | internal/libvirtx/libvirtx.go:271-306 | A line counts if and only if, trimmed, it reads block.<num>.<key>=<val> with a signed decimal within int64 for <num>; it then says what key and value say about that index |
| DomstatsLines.FieldForIs | internal/libvirtx/libvirtx.go:295-306 | The five keys that set a field, and which; every other key sets none |
| DomstatsLines.ShortKeysIgnored | internal/libvirtx/libvirtx.go:282-285 | A key of fewer than three parts, such as block.count, is ignored |
| DomstatsLines.OtherLinesIgnored | internal/libvirtx/libvirtx.go:272-274 | A line that does not begin with block. is ignored |
| DomstatsLines.HeaderMakesNoDevice | internal/libvirtx/libvirtx.go:254-265 | The header and the count of a domain make no device |
| DomstatsLines.AtoiIff | internal/libvirtx/libvirtx.go:286-289 | Exactly the signed decimals within int64 are indices, and their value |
| DomstatsLines.ValueOfConcat | internal/libvirtx/libvirtx.go:332-335 | Decimal place value |
| DomstatsLines.ParseUintIs | internal/libvirtx/libvirtx.go:332-335 | A number is its value, saturated at 2^64-1; anything else makes it 0 unless the digits before it overflow |
| DomstatsLines.TrimIs | internal/libvirtx/libvirtx.go:271-271 | Trimming removes exactly the spaces at both ends |
| DomstatsLines.RawLinesAre | internal/libvirtx/libvirtx.go:268-271 | The lines are what the newlines separate, with a last one only if text follows the last newline |
| DomstatsRoundTrip.ParsePrinted | internal/libvirtx/libvirtx.go:254-306 | A printed line parses to the device's index and field |
| DomstatsRoundTrip.DescribedTable | internal/libvirtx/libvirtx.go:286-306 | Updates that describe a list of devices, in any order, build exactly that list |
| DomstatsRoundTrip.DropCrHarmless | internal/libvirtx/libvirtx.go:271-272 | The carriage return the scanner drops makes no difference |
| DomstatsRoundTrip.PrintParseRoundTrip | internal/libvirtx/libvirtx.go:254-330 | Printing devices with distinct indices and trimmed values, in any line order, with repetitions and with lines between that lack the documented shape or have another key, with or without a last newline, and parsing back gives the same devices sorted by index |

## Left out

- gRPC server, CLI, Go client, TLS, listeners and daemon wiring: plumbing without hard properties.
- Running `lvm`, `virsh`, `qemu-img` and `dd`, XML and LVM's JSON reports: foreign tools, represented by what a call may do.
- etcd's client, lease keep-alive, membership and `ListNodes`: the model assumes that a live holder's lease does not expire.
- Concurrency under `NoopLocker`, and attach or detach racing a delete: the code serialises neither, so attachments are modelled in sequential runs only.
- Time stamps and logging, YAML and environment loading, JSON encoding of records; `ParseSize` and `humanSize`.
- Floating point in `FreePercent`: the comparison with the threshold is exact integer arithmetic.
- Strings are sequences of characters; Go's work on bytes, and UTF-8, are not distinguished from that.
- The spelling of temporary file names: a create is given a name that is new.
- The failure of the manager's own listing of attachments, which ends a pass without effect.
- Thin.Manager.ExtendByPercent: the LV is not in this model; that its size covers the record, and that a failed record update leaves the LV grown, is the protocol's and the service's business.
- Thin.Manager.Ticks: says nothing of disks attached more than once, for which the outcome depends on the visiting order.
- Stores.Lockstep: for other names the backends differ as `NestedNamesDisagree` states; bolt alone refuses an empty disk name.

# Verification of the algorithms in edpm-ansible's Python code

Seven Python files of the collection compute something whose meaning is not obvious from one
reading.  This project models them in Dafny and proves what they promise.

| file of the collection | modules |
|---|---|
| `plugins/modules/edpm_derive_pci_passthrough_devicespec.py` | `PciAddress`, `PciDerive`, `PciDeriveTheorems`, `PciEntries`, `PciDeriveProgram` |
| `roles/edpm_nova/files/nova_statedir_ownership.py` | `Statedir`, `StatedirTheorems`, `StatedirCrash`, `StatedirOwners`, `StatedirProgram` |
| `plugins/modules/edpm_container_manage.py` | `ContainerBatches`, `ContainerManage` |
| `roles/edpm_network_config/files/edpm_derived_nic_mapping.py` | `NaturalOrder`, `NicMapping`, `NicNumbering`, `NicMappingProgram` |
| `plugins/filter/edpm_nmstate_nic_aliases.py` | `NicAliases` |
| `plugins/modules/container_config_hash.py` | `ConfigBase`, `ConfigHash`, `ConfigHashMeaning` |
| `plugins/filter/helpers.py` | `CpuMask`, `CpuLists`, `NeedsDelete` |

`Wrappers`, `Strings`, `Hex`, `Sequences` and `Sorting` hold what several of them share.

The host is a value where it does not change during a run (sysfs, the listing of interfaces), a map
inside a class where the program changes it (the state directory, the staged files, the mapping
file), and an oracle where it decides something from outside (which system call fails, whether a
container starts, the checksum of a directory, what a label reads as).  Loops of the Python code are
methods with loops, proved against functions; what the code promises is proved of those functions.
Exceptions are `Result` values.

## Device specs

A user's list of device specs is reduced by the virtual functions that the host keeps for itself.
An address text is parsed, zero-padded and turned into a pattern, and the pattern is matched
against the name of a device; the theorem `TextAgreesWithNumbers` says this is the same as
comparing four numbers.  `ClosedForm` says which addresses a spec derives.  `DerivedIsSafe`,
`DerivationIsIdempotent`, `Conservation` and `ListingOrderIrrelevant` are about whole lists.  Module
`PciEntries` says what becomes of each kind of entry in the entry's own fields and the host's: an entry by
devname of a partitioned function gives one spec for each spare VF of this function, an entry by
network goes to the interface first mapped to the network.

One promise of the documentation does not hold.  The docstring of `generate_combined_configuration`
says that virtual functions used by the host are removed from the user's list.  Derived specs never
name one (`DerivedIsSafe`), but entries that are kept may:

- An entry without a devname that matches an allocated VF, be it by an exact address, by wildcards, by
  a dictionary of regular expressions or by having no address, is kept if and only if no
  NIC-partitioned function claims it (`KeptOverAllocatedIff`).  A function claims an entry if the
  entry asks for no product or for that of its VFs, and it is matched itself or has a free VF; or if
  it is matched itself and its own product is asked for.
- An entry with a devname that is no partitioned function is kept whatever it names (`StaysIff`).

`AllocatedRemovedIff` puts this together for a whole list: what a run leaves names no allocated VF if
and only if each entry that does has no devname and is claimed.  For exact addresses the condition
comes down to a spare VF of a compatible product (`ExactAllocatedDroppedIff`); `AllocatedVfCanStay` is
a host without one.

The theorems assume what `ValidHost` says: configured physical functions have addresses of their
own, a VF has one parent and is no physical function, and the host allocates VFs only.  The loops
need only `Readable`: the links below each configured function exist.  In particular the
substring test `phyfn in pf_name` needs no assumption: `AvailableVfs` shows that it only adds
entries that are never looked up.

## The state directory

A run of the ownership walk is known by its effects in order (chown, label, unlink), so that a
crash is a prefix of the effects.  Faults are an oracle per path and per system call.
`FaultIsolation` and `Frame` say what one run does under any faults; `CrashAndResume` says that a
complete run after any crash, while the marker exists, ends where an uninterrupted run ends;
`FurtherRunChangesNothing` that later runs change nothing.  Module `StatedirOwners` says who owns what in
terms of the settings, the marker's owner and the owners before: a file changes hands only where it had
the marker's owner, so files of root or qemu are left alone.

The limit of this is a run that completes, and removes the marker, although the walk swallowed
failures.  `CompletedDespiteFaultsIff` says exactly when such a run leaves what a run without failures
leaves: when nothing that was to be changed was missed.  A file that was missed is repaired by no
later run (`SwallowedFailureStays`), and such runs exist (`SwallowedFailureExists`).

The label of the directory itself is attempted first, but whether it is supported there is not
passed on: the walk below starts with labels wanted whenever a target context exists.  The model
follows the code in this.

## Starting containers

The thread pool of one batch is a transition system: waiting workers are taken up in order while
fewer than `concurrency` are active, active ones go on in any order, and the batch closes when all
have returned.  Theorems are about every sequence of actions.  `ContainerManage` holds the
program; `Run` takes some schedule and returns, as a ghost, the complete run of the transition system
that it made, so that every theorem about runs is one about the program.

## NIC mapping and aliases

The derived mapping is written to the file that the next run reads.  `FixpointIff` gives the exact
condition, on the first run's entries and the host, under which that run derives the same mapping
again, and `FixpointOnOrdinaryHosts` a condition on the host alone; `ActiveNic1BreaksFixpoint` is a
host where the next run fails.
`NicNumbering` says which interfaces count, in what order, and which alias each gets, by their names: eth2
comes before eth10, and the lower number gets the lower alias.
Substitution of aliases in a document is proved against one recursive reference, of which
composition and inversion are consequences of `RewriteTwice`; `TextAt` says place by place what the result holds.

## Configuration hashes, CPU masks, removal of containers

The upward search for a configuration directory does not always end.  `SearchEndsIff` says when: it
goes on for ever if and only if the prefix is empty or nothing but slashes and the volume is an
absolute path that starts with it.  In the model such a search has the result `Endless`; methods
require that it does not occur, and nothing else of the prefix.  `SearchExact` is the closed form on
paths `base/c1/.../cn` for a prefix with another character: with at most one slash at the end of the
prefix it finds the directory, with more of them it finds nothing there, because such paths do not
start with the prefix.

`ConfigHashMeaning` says what a hash holds: the checksums of exactly the directories found for what the file
mounts, in ascending order, so that it changes if and only if one of them does.

`CpuMask` proves the mask against bits, `NeedsDelete` the three loops against a
characterisation by container.  `CpuLists` says which CPUs a text of numbers and ranges lists.

The docstring of `cpu_mask` calls its argument a list; the code splits a text at commas.

## Model

| member | source | states |
|---|---|---|
| PciAddress.AcceptedIffWellFormed | plugins/modules/edpm_derive_pci_passthrough_devicespec.py:123-151 | an address text is accepted if and only if it has at most three colon-separated fields and each field, `*` when left out or blank, is a wildcard or in range; the parsed form is then those fields |
| PciAddress.TextAgreesWithNumbers | plugins/modules/edpm_derive_pci_passthrough_devicespec.py:108-191 | the pattern built from a well-formed text matches a device's name exactly when each field is a wildcard or numerically equal |
| PciAddress.PrintParseRoundTrip | plugins/modules/edpm_derive_pci_passthrough_devicespec.py:123-151 | printing a parsed address with `*` and parsing again gives the same form |
| PciAddress.ExactAddress | plugins/modules/edpm_derive_pci_passthrough_devicespec.py:123-191 | a device's own name, as address, matches this device and no other |
| PciAddress.NoAddressHitsAll | plugins/modules/edpm_derive_pci_passthrough_devicespec.py:412-414 | the pattern for a spec without address matches every device |
| PciAddress.FullAddressNames | plugins/modules/edpm_derive_pci_passthrough_devicespec.py:123-151 | the four parts of a full address are domain, bus, slot and function; blanks around them do not matter |
| PciAddress.PartialAddressNames | plugins/modules/edpm_derive_pci_passthrough_devicespec.py:137-145 | parts left out from the left, and a function left blank, stand for any number |
| PciAddress.FieldInAnyCase | plugins/modules/edpm_derive_pci_passthrough_devicespec.py:108-120 | upper-case digits of a part mean what lower-case ones mean |
| Hex.ParseHexInAnyCase | plugins/modules/edpm_derive_pci_passthrough_devicespec.py:114-115 | a hexadecimal text has the value of its lower-case form |
| PciAddress.DictAgreesWithNumbers | plugins/modules/edpm_derive_pci_passthrough_devicespec.py:154-191 | a dictionary of numbers, padded or not, and of `*` and `.*` matches exactly the devices with these numbers |
| PciAddress.DictOutOfRange | plugins/modules/edpm_derive_pci_passthrough_devicespec.py:170-175 | a dictionary with a number out of range is refused, whatever its other fields hold |
| PciDeriveTheorems.ConfiguredExact | plugins/modules/edpm_derive_pci_passthrough_devicespec.py:221-246 | partitioned functions are those a VF entry points at, the others those a PF entry names and no VF entry points at, each once |
| PciDeriveTheorems.AllocatedExact | plugins/modules/edpm_derive_pci_passthrough_devicespec.py:289-297 | an address is allocated exactly when some configuration carries it |
| PciDeriveTheorems.SelectClosed | plugins/modules/edpm_derive_pci_passthrough_devicespec.py:317-476 | at one physical function: each address at most once; which addresses it gives and when it asks for deletion, by cases of hit, product and partitioning |
| PciDeriveTheorems.ClosedForm | plugins/modules/edpm_derive_pci_passthrough_devicespec.py:425-509 | a spec derives exactly what partitioned functions give and, only if these derived or deleted something, what the others give; it is dropped exactly when nothing was derived and a partitioned function asks for it |
| PciDeriveTheorems.ListingOrderIrrelevant | plugins/modules/edpm_derive_pci_passthrough_devicespec.py:274-285 | another listing order of the devices gives the same rewritten input, the same kept specs and the same multiset of derived ones |
| PciDeriveTheorems.DerivedIsSafe | plugins/modules/edpm_derive_pci_passthrough_devicespec.py:431-509 | no derived spec carries the address of an allocated VF or of a partitioned physical function, for any user list |
| PciDeriveTheorems.KeptOverAllocatedIff | plugins/modules/edpm_derive_pci_passthrough_devicespec.py:425-509 | an entry without devname that matches an allocated VF, however its address is written, is kept if and only if no partitioned function claims it, by its product and by being matched or having a free VF |
| PciDeriveTheorems.StaysIff | plugins/modules/edpm_derive_pci_passthrough_devicespec.py:555-578 | an entry that names an allocated VF is kept if and only if it has a devname or is claimed by no partitioned function |
| PciDeriveTheorems.AllocatedRemovedIff | plugins/modules/edpm_derive_pci_passthrough_devicespec.py:525-579 | what a run leaves names no allocated VF if and only if every rewritten entry that does has no devname and is claimed |
| PciDeriveTheorems.KeptIsSafe | plugins/modules/edpm_derive_pci_passthrough_devicespec.py:452-471 | while a compatible spare VF exists, a kept spec matches no allocated VF |
| PciDeriveTheorems.ExactAllocatedDroppedIff | plugins/modules/edpm_derive_pci_passthrough_devicespec.py:452-476 | the case of an exact address: an entry that names an allocated VF exactly is dropped if and only if a partitioned function of compatible product has a free VF, and is kept otherwise |
| PciDeriveTheorems.AllocatedVfCanStay | plugins/modules/edpm_derive_pci_passthrough_devicespec.py:527-532 | a valid host on which such an entry stays, against the docstring |
| PciDeriveTheorems.DerivedAgain | plugins/modules/edpm_derive_pci_passthrough_devicespec.py:417-509 | deriving from the exact address of something derived gives just it back, or nothing, and never deletes it |
| PciDeriveTheorems.DerivationIsIdempotent | plugins/modules/edpm_derive_pci_passthrough_devicespec.py:546-579 | a run on what a run left succeeds and leaves the same multiset; from the second run on, the same list |
| PciDeriveTheorems.FateReplaces | plugins/modules/edpm_derive_pci_passthrough_devicespec.py:300-314 | a replaced entry has at least one replacement, and each equals it but for address and devname |
| PciDeriveTheorems.Conservation | plugins/modules/edpm_derive_pci_passthrough_devicespec.py:546-609 | every entry has one fate; the copy is the kept entries in order, the derived list the replacements in order; the change test is true iff some entry was not kept, and when it is false nothing was derived |
| PciEntries.ConfiguredIff | plugins/modules/edpm_derive_pci_passthrough_devicespec.py:221-246 | a function is partitioned when an entry whose type has vf in it points at it; the others are named by an entry whose type has pf in it and not pointed at |
| PciEntries.ProductByLastFour | plugins/modules/edpm_derive_pci_passthrough_devicespec.py:331-353 | a product is compared by its last four characters, so with or without 0x; no product allows the VFs and is not the function's own |
| PciEntries.DevnameRewritten | plugins/modules/edpm_derive_pci_passthrough_devicespec.py:557-560 | an entry by devname of a partitioned function becomes the exact address of just that function, without devname |
| PciEntries.NetworkRewritten | plugins/modules/edpm_derive_pci_passthrough_devicespec.py:512-555 | an entry with none of address, product and devname becomes the exact address of the interface in the first pair for its network, if there is one with a device |
| PciEntries.OthersUnchanged | plugins/modules/edpm_derive_pci_passthrough_devicespec.py:547-564 | any other entry stays as it is, unless it has address and devname both, or nothing to go by |
| PciEntries.DevnameFate | plugins/modules/edpm_derive_pci_passthrough_devicespec.py:547-578 | an entry by devname, with no product or that of the function's VFs, is dropped if the function has no spare VF, and otherwise replaced by exactly one spec for each spare VF |
| PciEntries.DevnameAlone | plugins/modules/edpm_derive_pci_passthrough_devicespec.py:525-579 | a run over that entry alone leaves exactly these specs |
| PciEntries.DevnameDerives | plugins/modules/edpm_derive_pci_passthrough_devicespec.py:525-579 | in any list such an entry makes the run derive the exact address of each spare VF of the function |
| PciEntries.FateOfAddress | plugins/modules/edpm_derive_pci_passthrough_devicespec.py:377-509 | an entry by address is replaced by exactly one spec for each address given, and if there is none dropped or kept as the partitioned functions ask |
| PciDeriveProgram.NicPartitionPfs | plugins/modules/edpm_derive_pci_passthrough_devicespec.py:221-231 | the loop gives the first mentions, in order |
| PciDeriveProgram.NonNicPartitionPfs | plugins/modules/edpm_derive_pci_passthrough_devicespec.py:234-246 | the loop and the filter give the other functions |
| PciDeriveProgram.AllocatedPci | plugins/modules/edpm_derive_pci_passthrough_devicespec.py:289-297 | the loop gives the allocated addresses in order |
| PciDeriveProgram.AvailableVfs | plugins/modules/edpm_derive_pci_passthrough_devicespec.py:266-286 | the dictionary holds, for each name that is a part of the function's name and has free VFs, exactly those in listing order; so the substring test never mixes two functions |
| PciDeriveProgram.PassthroughConfig | plugins/modules/edpm_derive_pci_passthrough_devicespec.py:377-476 | the branches and loops compute the selection at one function |
| PciDeriveProgram.PassthroughForAll | plugins/modules/edpm_derive_pci_passthrough_devicespec.py:479-509 | both loops over functions compute the selection of a spec, or fail on its address |
| PciDeriveProgram.RewriteInPlace | plugins/modules/edpm_derive_pci_passthrough_devicespec.py:547-560 | the user's dictionary is changed in place as the rewriting says, and not changed when it raises |
| PciDeriveProgram.DecideFate | plugins/modules/edpm_derive_pci_passthrough_devicespec.py:562-578 | what the branches decide for a rewritten entry is its fate |
| PciDeriveProgram.ProcessInPlace | plugins/modules/edpm_derive_pci_passthrough_devicespec.py:546-578 | one dictionary: it is rewritten in place and its fate decided, or the error is the one specified |
| PciDeriveProgram.ProcessAt | plugins/modules/edpm_derive_pci_passthrough_devicespec.py:546-578 | one turn on the list: only the dictionary at hand changes; the copy grows by the dictionary itself if it is kept, the derived list by what replaces it |
| PciDeriveProgram.GenerateCombined | plugins/modules/edpm_derive_pci_passthrough_devicespec.py:525-579 | the loop gives the combined configuration of the list as it was, or the first error |
| PciDeriveProgram.RunDerivePci | plugins/modules/edpm_derive_pci_passthrough_devicespec.py:582-610 | `changed` is true iff some entry was not kept, and the specs written are the kept and the derived ones |
| StatedirTheorems.WalkOutcome | roles/edpm_nova/files/nova_statedir_ownership.py:179-212 | after a walk under any faults each entry below has exactly the outcome that its own operations and the directories on its way decide; nothing else changes |
| StatedirTheorems.WalkedOutcome | roles/edpm_nova/files/nova_statedir_ownership.py:221-229 | the same for the directory itself and everything below, or only the directory when it cannot be processed |
| StatedirTheorems.ReachedEntry | roles/edpm_nova/files/nova_statedir_ownership.py:179-206 | an entry is reached only past no excluded path, and a label is wanted there iff every directory strictly between supports labels |
| StatedirTheorems.FaultIsolation | roles/edpm_nova/files/nova_statedir_ownership.py:186-212 | an entry whose own operations and whose ancestors' did not fail ends with its final owner and, where wanted and supported, its label |
| StatedirTheorems.Frame | roles/edpm_nova/files/nova_statedir_ownership.py:179-229 | under any faults, excluded subtrees and paths outside are untouched, each part of an owner is old or final, and a context changes only to the target's and only below directories that support labels |
| StatedirCrash.WalkEffectsServe | roles/edpm_nova/files/nova_statedir_ownership.py:179-206 | under any faults every effect of a walk is a part of what a faultless run wants of that entry |
| StatedirCrash.BeforeUnlink | roles/edpm_nova/files/nova_statedir_ownership.py:229-234 | while the marker exists, the effects so far are a prefix of the walk: it is unlinked last |
| StatedirCrash.CompleteRun | roles/edpm_nova/files/nova_statedir_ownership.py:214-234 | a faultless run gives every reached entry its final owner and context and removes the marker only |
| StatedirCrash.CrashAndResume | roles/edpm_nova/files/nova_statedir_ownership.py:149-234 | after any prefix of a run under any faults, while the marker exists, a complete run leaves what an uninterrupted run leaves |
| StatedirCrash.FurtherRunChangesNothing | roles/edpm_nova/files/nova_statedir_ownership.py:166-234 | after a complete run, no further run, however faulty or cut short, changes an owner or a context |
| StatedirCrash.WithoutMarkerFilesStay | roles/edpm_nova/files/nova_statedir_ownership.py:166-206 | without the marker a run changes directories only, so files missed by a completed upgrade stay as they are |
| StatedirCrash.CompletedDespiteFaultsIff | roles/edpm_nova/files/nova_statedir_ownership.py:186-234 | a run that completes under faults leaves what a faultless run leaves if and only if no wrong owner and no wanted wrong label was missed, by not being reached or by a failing call |
| StatedirCrash.SwallowedFailureStays | roles/edpm_nova/files/nova_statedir_ownership.py:207-234 | a file whose needed chown failed in a run that completed keeps its owner, the marker is gone, and no later run changes the file |
| StatedirCrash.SwallowedFailureExists | roles/edpm_nova/files/nova_statedir_ownership.py:196-234 | a directory and faults under which an upgrade completes with a file of the old owner left, where a faultless run would have changed it |
| StatedirOwners.OwnersAfterRun | roles/edpm_nova/files/nova_statedir_ownership.py:149-212 | after a complete run a directory has the target's owner; a file has the target's user where the marker existed and the file had the marker's user, else the user it had, likewise its group; labels are set on directories, and on files where the owner moves, as far as supported; excluded and outside paths are as before |
| StatedirOwners.OwnersDuringRun | roles/edpm_nova/files/nova_statedir_ownership.py:149-234 | under any faults and after any part of a run: a user or group changes only to the target's, on a file only from the marker's; a label only to the target's where one is to be set; excluded and outside paths not at all |
| StatedirOwners.OwnersDespiteFaults | roles/edpm_nova/files/nova_statedir_ownership.py:186-212 | in a walk that comes to its end an entry on whose way nothing failed has just the owner and label of a complete run |
| StatedirProgram.PathManager.Update | roles/edpm_nova/files/nova_statedir_ownership.py:44-53 | the cached fields are the path's current ones unless a call raises |
| StatedirProgram.PathManager.ChownTo | roles/edpm_nova/files/nova_statedir_ownership.py:69-94 | only the differing part of the owner is changed, nothing when it is right; afterwards the cache is current |
| StatedirProgram.PathManager.Chcon | roles/edpm_nova/files/nova_statedir_ownership.py:96-115 | sets the label; not supported is success without recursion for a directory, failure for a file |
| StatedirProgram.OwnershipManager.constructor | roles/edpm_nova/files/nova_statedir_ownership.py:139-171 | an upgrade exactly when the marker exists, with its owner as the previous one, and the marker excluded |
| StatedirProgram.OwnershipManager.Process | roles/edpm_nova/files/nova_statedir_ownership.py:186-206 | the operations on one entry have exactly the effects specified, in order, and whether they ended without exception |
| StatedirProgram.OwnershipManager.WalkEntry | roles/edpm_nova/files/nova_statedir_ownership.py:186-212 | an entry and what is below it have exactly the effects specified; an exception ends this entry only |
| StatedirProgram.OwnershipManager.Walk | roles/edpm_nova/files/nova_statedir_ownership.py:179-212 | the recursive loop has exactly the effects specified, in order |
| StatedirProgram.OwnershipManager.WalkAll | roles/edpm_nova/files/nova_statedir_ownership.py:221-229 | the directory, then the walk; an exception outside the walk's handler ends the run |
| StatedirProgram.OwnershipManager.Run | roles/edpm_nova/files/nova_statedir_ownership.py:214-236 | the whole run has exactly the effects specified, the marker's removal last |
| ContainerBatches.AttemptsExact | plugins/modules/edpm_container_manage.py:351-371 | between 1 and max(retries, 0) + 1 attempts, ending at the first success; failure only when all are used up |
| ContainerBatches.EveryRunKeepsInv | plugins/modules/edpm_container_manage.py:390-408 | after every sequence of actions each container's events are what its state says, in order, and the failures so far are those of the closed batches |
| ContainerBatches.ConcurrencyBound | plugins/modules/edpm_container_manage.py:406-407 | never more than `concurrency` workers at once |
| ContainerBatches.Barrier | plugins/modules/edpm_container_manage.py:405-408 | in every interleaving, before any event of a batch each container of an earlier batch has made all its attempts, and none afterwards |
| ContainerBatches.CompleteRun | plugins/modules/edpm_container_manage.py:390-413 | in every complete run each container makes its sequence of attempts exactly once and the reported failures are decided by the outcomes alone |
| ContainerBatches.EveryRunCounts | plugins/modules/edpm_container_manage.py:351-408 | every run ends, and all complete runs take equally many steps |
| ContainerBatches.Progress | plugins/modules/edpm_container_manage.py:405-408 | an incomplete run can always go on: neither a failed container nor a failed batch stops it |
| ContainerManage.OrdersAscend | plugins/modules/edpm_container_manage.py:405 | start orders are run strictly ascending, each once, and every container's order is among them |
| ContainerManage.BatchesConserve | plugins/modules/edpm_container_manage.py:381-388 | the batches together hold exactly the configured containers |
| ContainerManage.BatchKeepsOrder | plugins/modules/edpm_container_manage.py:381-388 | two containers of one start order keep their order in the batch |
| ContainerManage.FailuresInOrder | plugins/modules/edpm_container_manage.py:373-379 | failures are listed in the order of the containers, and a container is one exactly when none of its permitted attempts succeeds |
| ContainerManage.FailuresOfBatches | plugins/modules/edpm_container_manage.py:405-408 | the failures of all batches are those of the batches put one behind the other |
| ContainerManage.StartOrderBarrier | plugins/modules/edpm_container_manage.py:381-408 | before any event of a container, each container of smaller start order has made all its attempts, and none afterwards |
| ContainerManage.BatchStartOrder | plugins/modules/edpm_container_manage.py:381-388 | the dictionary maps each start order to its containers in configuration order |
| ContainerManage.RunContainer | plugins/modules/edpm_container_manage.py:351-371 | takes the retry settings out of the configuration, tries exactly as often as specified, and reports whether the last attempt succeeded |
| ContainerManage.RunBatch | plugins/modules/edpm_container_manage.py:406-407 | under any schedule the steps taken continue the run of the system until the batch is through, and the results are each container's outcome, in order of submission |
| ContainerManage.CheckFailures | plugins/modules/edpm_container_manage.py:373-379 | the names with a false result, in order, for any list of results |
| ContainerManage.FailedNamesExact | plugins/modules/edpm_container_manage.py:373-379 | a name is among the failed as often as a result of that name is false |
| ContainerManage.Run | plugins/modules/edpm_container_manage.py:390-413 | reports the failures of all batches in order, whatever failed before, and makes a complete run of the transition system, to which the barrier and all other statements about runs apply |
| NaturalOrder.KeysAlternate | roles/edpm_network_config/files/edpm_derived_nic_mapping.py:34-36 | a sort key begins and ends with text and alternates text and numbers |
| NaturalOrder.KindsAgree | roles/edpm_network_config/files/edpm_derived_nic_mapping.py:34-36 | comparing two keys never compares a text with a number |
| NaturalOrder.NaturalOrderIsTotal | roles/edpm_network_config/files/edpm_derived_nic_mapping.py:34-36 | natural order is a total preorder, and names of equal rank have equal keys |
| NaturalOrder.NumbersAscend | roles/edpm_network_config/files/edpm_derived_nic_mapping.py:34-36 | of two names that differ in a number, the one with the smaller number comes strictly first, whatever follows |
| NaturalOrder.CharactersAscend | roles/edpm_network_config/files/edpm_derived_nic_mapping.py:34-36 | of two names that differ at two non-digits, the one with the smaller character comes strictly first |
| NaturalOrder.EndComesFirst | roles/edpm_network_config/files/edpm_derived_nic_mapping.py:34-36 | a name that ends, or goes on with a number, comes strictly before one that goes on with a non-digit |
| NicMapping.OrderedNicsExact | roles/edpm_network_config/files/edpm_derived_nic_mapping.py:129-142 | the ordered interfaces are exactly the available ones, each once, embedded ones first, each part sorted |
| NicMapping.DiscoveryOrderIrrelevant | roles/edpm_network_config/files/edpm_derived_nic_mapping.py:129-142 | when no two names share a key the order of discovery does not matter |
| NicMapping.DerivedExact | roles/edpm_network_config/files/edpm_derived_nic_mapping.py:150-218 | a derived mapping covers every user alias with what its value stands for, adds exactly `nic(i+1)` for each active interface left over whose alias is free, and is injective |
| NicMapping.EntriesAccepted | roles/edpm_network_config/files/edpm_derived_nic_mapping.py:150-204 | entries that resolve injectively to a mapping, no alias being active, are accepted with that mapping |
| NicMapping.FixpointIff | roles/edpm_network_config/files/edpm_derived_nic_mapping.py:145-222 | a derived mapping read back in any order derives itself if and only if each interface mapped or left over either does not read as a MAC or is the first interface with that MAC, and no alias given to a left-over interface is an active one |
| NicMapping.FixpointOnOrdinaryHosts | roles/edpm_network_config/files/edpm_derived_nic_mapping.py:145-222 | it does on every host where no name reads as a MAC and no active interface is called nic<k> |
| NicMapping.ActiveNic1BreaksFixpoint | roles/edpm_network_config/files/edpm_derived_nic_mapping.py:187-191 | a host whose derived mapping is refused when read back |
| NicNumbering.CountsIff | roles/edpm_network_config/files/edpm_derived_nic_mapping.py:84-126 | which listed interfaces count: not the loopback, with an address, a device or called dummy, no virtual function, and up if asked for |
| NicNumbering.OnBoardFirst | roles/edpm_network_config/files/edpm_derived_nic_mapping.py:49-50 | interfaces called em, eno or eth come before all others |
| NicNumbering.NumbersInOrder | roles/edpm_network_config/files/edpm_derived_nic_mapping.py:129-142 | among those of one kind the smaller number in the same place of the name comes first: eth2 before eth10 |
| NicNumbering.CharactersInOrder | roles/edpm_network_config/files/edpm_derived_nic_mapping.py:129-142 | so does the smaller character where both are no digits |
| NicNumbering.MacRead | roles/edpm_network_config/files/edpm_derived_nic_mapping.py:39-46 | six pairs of hexadecimal digits with any separator read as the MAC in small letters with colons |
| NicNumbering.ShortIsNoMac | roles/edpm_network_config/files/edpm_derived_nic_mapping.py:44-45 | fewer than twelve characters are no MAC |
| NicNumbering.ResolvesIff | roles/edpm_network_config/files/edpm_derived_nic_mapping.py:154-180 | a value that reads as a MAC stands for the first available interface with this permanent address, or address where there is none; any other for the available interface of that name |
| NicNumbering.AcceptedIff | roles/edpm_network_config/files/edpm_derived_nic_mapping.py:150-204 | the user's entries are accepted if and only if every value stands for an interface, no two for the same, and no alias is an active interface |
| NicNumbering.FreshMapping | roles/edpm_network_config/files/edpm_derived_nic_mapping.py:206-218 | without user entries the k-th active interface has the alias nic<k>, and there is nothing else |
| NicNumbering.LowerNumberLowerAlias | roles/edpm_network_config/files/edpm_derived_nic_mapping.py:129-218 | of two active interfaces of one kind the one with the smaller number gets the alias with the smaller number |
| NicNumbering.TwoInterfaces | roles/edpm_network_config/files/edpm_derived_nic_mapping.py:206-218 | with just eth0 and eth1 active, in whatever order they are listed, the mapping is nic1 to eth0 and nic2 to eth1 |
| NicMappingProgram.ListOrderedNics | roles/edpm_network_config/files/edpm_derived_nic_mapping.py:129-142 | the loop and the two sorts give the ordered interfaces |
| NicMappingProgram.ResolveMapping | roles/edpm_network_config/files/edpm_derived_nic_mapping.py:150-204 | the loop over user entries resolves them all, or fails with the first duplicate or overlap, else because some did not resolve |
| NicMappingProgram.DeriveNicMapping | roles/edpm_network_config/files/edpm_derived_nic_mapping.py:145-222 | the result is the same for every iteration order of the set of left-over interfaces |
| NicMappingProgram.MappingFile.Load | roles/edpm_network_config/files/edpm_derived_nic_mapping.py:225-243 | the entries of `interface_mapping`, else of `mapped_nics`, else none |
| NicMappingProgram.MappingFile.Save | roles/edpm_network_config/files/edpm_derived_nic_mapping.py:246-263 | written unless the file already holds this mapping; holds it afterwards |
| NicMappingProgram.Run | roles/edpm_network_config/files/edpm_derived_nic_mapping.py:286-301 | one run: on success the file holds the mapping derived from what it held, and a change is reported iff it did not hold it |
| NicMappingProgram.RunTwice | roles/edpm_network_config/files/edpm_derived_nic_mapping.py:246-256 | on an ordinary host a second run reports no change |
| NicAliases.SubstValue | plugins/filter/edpm_nmstate_nic_aliases.py:63-86 | the value of a key is rewritten as the reference says, with names replaced iff the key is a name key |
| NicAliases.WalkAny | plugins/filter/edpm_nmstate_nic_aliases.py:89-94 | any node outside name positions is rewritten as the reference says |
| NicAliases.WalkDict | plugins/filter/edpm_nmstate_nic_aliases.py:97-101 | a dictionary is rewritten entry by entry, keys and order kept |
| NicAliases.SubstituteNicAliases | plugins/filter/edpm_nmstate_nic_aliases.py:108-124 | the filter computes the substitution |
| NicAliases.TextAt | plugins/filter/edpm_nmstate_nic_aliases.py:63-124 | wherever the document holds a text, the result holds in the same place the mapped interface if the last key on the way is a name key and the text an alias, else the text itself |
| NicAliases.KeysAlike | plugins/filter/edpm_nmstate_nic_aliases.py:23-26 | keys that differ only in case and in dashes for underscores are treated alike |
| NicAliases.NameKeysExact | plugins/filter/edpm_nmstate_nic_aliases.py:33-60 | which keys are name keys, one by one |
| NicAliases.SubstituteIsRewrite | plugins/filter/edpm_nmstate_nic_aliases.py:118-124 | the short cuts for an empty mapping and for scalars agree with the reference |
| NicAliases.SubstitutionKeepsShape | plugins/filter/edpm_nmstate_nic_aliases.py:63-124 | nothing but texts in name positions changes |
| NicAliases.RewriteTwice | plugins/filter/edpm_nmstate_nic_aliases.py:59-101 | two rewritings equal one if and only if they do on every text in a name position |
| NicAliases.SubstitutionComposes | plugins/filter/edpm_nmstate_nic_aliases.py:63-124 | two passes are one pass with the composed mapping |
| NicAliases.InverseUndoesIff | plugins/filter/edpm_nmstate_nic_aliases.py:63-124 | the inverse of an injective mapping undoes the substitution iff every target found in a name position is itself an alias |
| NicAliases.OwnNameComesBackAsAlias | plugins/filter/edpm_nmstate_nic_aliases.py:70-71 | a document and mapping for which it does not |
| ConfigBase.DirnameShorter | plugins/modules/container_config_hash.py:290-295 | going up from a path that is not slashes only makes it a shorter prefix of itself |
| ConfigBase.SearchEndsIff | plugins/modules/container_config_hash.py:284-298 | the loop comes to an end if and only if the prefix has a character that is no slash, or the volume does not start with it, or the volume is not absolute |
| ConfigBase.StuckForever | plugins/modules/container_config_hash.py:290-295 | otherwise, after any number of turns, the guard holds and the body does not return |
| ConfigBase.RootPrefixIsStuck | plugins/modules/container_config_hash.py:290-295 | the case of prefix `/` and any absolute volume |
| ConfigBase.SearchFindsFirst | plugins/modules/container_config_hash.py:284-298 | the result is the path at which the loop first stops, or a failure if that path has left the prefix |
| ConfigBase.NamelessFinds | plugins/modules/container_config_hash.py:284-298 | with a prefix that is empty or slashes only, a volume that starts with it gives no failure: absolute ones do not end, others find a directory |
| ConfigBase.GetConfigBase | plugins/modules/container_config_hash.py:277-298 | wherever the search ends, the loop gives its result |
| ConfigBase.SearchIdempotent | plugins/modules/container_config_hash.py:277-298 | searching from what was found finds it again |
| ConfigBase.FoundIsBelowBase | plugins/modules/container_config_hash.py:277-298 | what is found is on the way to the volume and strictly below the base, so sharing only the prefix's text is rejected |
| ConfigBase.SearchExact | plugins/modules/container_config_hash.py:284-298 | on `base/c1/.../cn` the result is `base/c1/c2` for a shared namespace c1 and n >= 2, else `base/c1`, iff the prefix has at most one slash at its end; nothing is found otherwise |
| ConfigHash.BasesExact | plugins/modules/container_config_hash.py:163-168 | the bases are those of the volumes under the prefix; the search fails iff it fails for one of them, and how depends on the prefix alone |
| ConfigHash.HashDependsOnVolumeSet | plugins/modules/container_config_hash.py:160-177 | reordering or repeating volumes changes neither the bases nor the hash |
| ConfigHash.HashDependsOnVolumeLines | plugins/modules/container_config_hash.py:151-188 | two files with a placeholder and the same set of `Volume=` lines, in any order and number, get the same hash or fail alike |
| ConfigHash.ProcessingIsIdempotent | plugins/modules/container_config_hash.py:151-183 | only hash lines change, and processing the result changes nothing and gives the same hash |
| ConfigHash.UpdateExact | plugins/modules/container_config_hash.py:142-190 | a run without error leaves each named file processed once from what it was, however often named, reports its hash, and touches no other |
| ConfigHash.UpdateIsIdempotent | plugins/modules/container_config_hash.py:142-190 | a further run rewrites nothing and reports the same hashes |
| ConfigHash.ProcessorIsIdempotent | plugins/modules/container_config_hash.py:151-183 | processing one file meets the condition of the two statements above |
| ConfigHash.MatchConfigVolumes | plugins/modules/container_config_hash.py:300-320 | the sorted bases of the volumes, for any iteration order of the set |
| ConfigHashMeaning.HashOfFile | plugins/modules/container_config_hash.py:160-183 | the parts of the hash between dashes are the checksums of exactly the directories found for what the file mounts, each once and in ascending order; the hash is empty iff there is none; it stands behind the mark in each line that begins with it, and other lines are kept |
| ConfigHashMeaning.HashChangesIff | plugins/modules/container_config_hash.py:163-177 | two checksum functions give a file the same hash if and only if they agree on every directory found for it |
| ConfigHashMeaning.ProcessedIff | plugins/modules/container_config_hash.py:153-168 | a file is processed unless it has no mark or the search fails for a path that it mounts |
| ConfigHashMeaning.NamedFiles | plugins/modules/container_config_hash.py:142-190 | after a run the file edpm_<name>.container of each name is the processed one, and no other file is touched |
| ConfigHash.EndlessRunIsNameless | plugins/modules/container_config_hash.py:142-188 | a run can come to a search without end only with a prefix that is empty or slashes only |
| ConfigHash.HashContent | plugins/modules/container_config_hash.py:151-183 | the content and hash of one file, or the error |
| ConfigHash.Staging.UpdateFile | plugins/modules/container_config_hash.py:143-188 | one named file is rewritten in place and its hash recorded, or the error given |
| ConfigHash.Staging.UpdateHashFromQuadlet | plugins/modules/container_config_hash.py:130-190 | the files are rewritten in place up to the first error; the hashes are set only when there is none |
| CpuMask.ExpandCpus | plugins/filter/helpers.py:203-209 | the loop expands the list, or fails when an item is no number |
| CpuMask.ListedCpus | plugins/filter/helpers.py:203-209 | a CPU is in the expanded list iff some item lists it |
| CpuLists.NumberRead | plugins/filter/helpers.py:209 | a decimal number is read, with or without blanks around it |
| CpuLists.OneListed | plugins/filter/helpers.py:209 | a number lists this CPU |
| CpuLists.RangeListed | plugins/filter/helpers.py:205-207 | a range lists exactly the CPUs from the first to the last one |
| CpuLists.ListListed | plugins/filter/helpers.py:203-209 | a text of numbers and ranges between commas lists exactly the CPUs that one of them lists |
| CpuLists.MaskOfList | plugins/filter/helpers.py:196-221 | bit k of the mask of such a text is set iff k is one of the numbers or within one of the ranges |
| CpuLists.MaskOfItems | plugins/filter/helpers.py:196-221 | on such a text the mask is returned, and it fails only if no CPU is listed at all |
| CpuLists.DocumentedExample | plugins/filter/helpers.py:196-201 | the mask of 1,13 is 2002 |
| CpuMask.SetBits | plugins/filter/helpers.py:214-217 | every index is in bounds, and the bits set are exactly the listed CPUs, repeated ones harmless |
| CpuMask.BitOfBytes | plugins/filter/helpers.py:219-221 | a bit of the printed number is that bit of the byte that holds it |
| CpuMask.MarkedGivesMask | plugins/filter/helpers.py:219-221 | reversed, printed and stripped of zeros, the bytes give a numeral whose bit k is set iff k is listed, with max/4 + 1 digits and a non-zero first one |
| CpuMask.MaskOf | plugins/filter/helpers.py:210-221 | for a non-empty list of CPUs the bytes, reversed and printed, are their mask |
| CpuMask.CpuMask | plugins/filter/helpers.py:196-221 | succeeds iff every item is a number or range and some CPU is listed, and returns the mask |
| CpuMask.MaskIsUnique | plugins/filter/helpers.py:196-221 | the mask of a list of CPUs is one number |
| NeedsDelete.TagInstalled | plugins/filter/helpers.py:52-75 | the names to delete, to skip and installed, after the first loop |
| NeedsDelete.TagDiffering | plugins/filter/helpers.py:93-112 | the entries that one configured container adds |
| NeedsDelete.TagChanged | plugins/filter/helpers.py:77-112 | the names to delete after the second loop |
| NeedsDelete.NeedsDeleteFilter | plugins/filter/helpers.py:33-119 | the three loops give the result |
| NeedsDelete.ListedOncePerReason | plugins/filter/helpers.py:48-119 | a container is listed once for being broken, once for being changed, once for being orphaned |
| NeedsDelete.NeedsDeleteExact | plugins/filter/helpers.py:48-119 | with unique names: listed iff eligible and orphaned, without config_data, or changed; never more than twice, and twice iff an orphan without config_data |
| NeedsDelete.DeletedIff | plugins/filter/helpers.py:33-119 | in the labels' own fields: a name is returned iff its container is managed by edpm in any case, of this configuration id, and, when orphans are cleaned, unconfigured or without config_data, or, when checked, configured differently; twice iff unconfigured and without config_data |

## Left out

- Reading sysfs, podman, systemd, SELinux, YAML and JSON: values, maps and oracles stand for them.
- Regular expressions that a user writes in an address dictionary: the engine is represented by the set of devices it would match; fixed fields, `*` and `.*` are modelled exactly.
- What Python's `int(text, 16)` and `int(text)` accept beyond digits (signs, `0x`, underscores), and the characters beyond ASCII that `lower`, `strip` and `isdigit` know.
- The splitting of the sriov phydev mapping text into pairs, and malformed mappings that make it raise.
- The crash when a configured physical function has no `virtfn0` or no link: `Readable` excludes it.
- Derived device specs are values; that each is a fresh dictionary, not shared with the user's, is not stated.
- Symbolic links, hard links and files that appear or vanish during the ownership walk; the tree is finite and fixed, and the names in a directory differ.
- The reading of the second marker that holds the target context, and a failing stat of the upgrade marker in the manager's constructor.
- Joining and normalising exclude paths in the manager's constructor: they are given as absolute paths.
- Exceptions other than `ExecFailure` inside a container worker, sleeping times, and the translation of container options; an attempt has a boolean outcome.
- When the workers of a pool take their steps: the schedule of a run is any that the pool allows.
- The SHA-256 of a directory: an oracle from path to text, about which nothing is assumed, so different contents may share a hash; it does not depend on the staged files.
- `_update_hashes`, which injects hashes into container startup files in YAML or JSON.
- `literal_eval` of container labels: an oracle from text to a configuration; the attempt to read a configuration that is not text as a dictionary is part of it.
- `needs_delete` when two containers have the same name: the program is modelled, the characterisation needs names to differ.
- Floating-point division in `cpu_mask`, which is exact below 2^53: integer division is used.
- The other filters of `helpers.py`, the remaining plugins and modules, and all roles and playbooks in YAML and Jinja: file plumbing, sequences of remote calls, or merges without a law of their own.

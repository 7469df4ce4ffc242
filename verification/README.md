# A verified model of the P4 DPDK target's driver core

This project models, in Dafny, the parts of the p4-dpdk-target repository that hold
real algorithms and state, and proves what they are relied on for.

* **Range expansion** (`tools/range.c`). An interval of values is split into rows of
  per-nibble ranges, as a TCAM holds them. The model is generic in the nibble width `b`
  and the number of nibbles `n`; the program has `n = 4` and `b = 2` or `4`. Modules
  `Arith`, `Bits`, `Nibbles`, `RangeRows`, `RangeLimits`, `RangeExpand`.
* **Client registry** (`src/dvm/dvm_clients.c`). Two fixed arrays, changed in place,
  that hand out handles and keep clients in priority order. Modules `Clients`,
  `Registry`, `ClientRegistry`.
* **Device life cycle** (`src/dvm/dvm.c`). Adding, removing and warm-restarting devices,
  with callbacks to every client and rollback. A callback may answer anything. Modules
  `PipeScope`, `Devices`, `DeviceRuns`, `DeviceOrder`, `DeviceOutcomes`, `DeviceModes`,
  `DeviceManager`;
  `DriverRuns` and `InterleavedRuns` for registry and devices together.
* **The daemon's layer** (`bf_switchd/bf_switchd.c`): locks, ready flags and the init
  mode over the driver's own state. Modules `Switchd`, `DaemonOutcomes`, `SwitchDaemon`.
* **Layouts and names**: match keys and action parameters (`KeyLayout`, `MatchSpec`),
  hexadecimal strings (`HexStream`), port names (`PortStrings`, `PortMap`) and field
  buffers (`FieldBuffer`).

Code that changes things step by step is modelled by methods and classes, each proved
against a function on values; the theorems are about those functions. State machines
are followed over every finite sequence of operations. Memory, callback answers and
the outcome of building a profile are parameters, so the results hold for all of them.

Some promises do not hold of the code as it stands. For these the model keeps the code,
states exactly when they hold, and gives a run or an input on which they fail:

* registering a handle a second time lists it twice when a client before it has a lower
  priority than the new one, and deregistering a handle that is not allocated makes the
  client counter wrong: `Registry.InvIffCareful`, with the runs
  `Registry.RepeatedRegistration` and `Registry.DeregisteredUnallocated`. A client listed
  twice is told twice of one device (`DriverRuns.RepeatedRegistrationTellsTwice`);
* a client with `device_add` but no `device_del` is told twice of a device that is
  removed and added again (`DeviceRuns.NeverToldTwiceIffPaired`);
* a client registered after a device was added is not told of it, and the handle of a
  client that leaves before the device is removed is told of the device twice once it is
  handed out again: `InterleavedRuns.SoundIffNoneHarmful`, with the runs
  `InterleavedRuns.LateRun`, `InterleavedRuns.EarlyRun` and
  `InterleavedRuns.ReusedHandleToldTwice`;
* a warm restart begun with the cold mode stays in progress after its end
  (`DeviceModes.WarmIffNoColdBegin`, `DeviceModes.ColdRestartRun`), and the daemon can
  unlock a device whose restart the driver has not ended (`Switchd.LayersAgreeIff`,
  `Switchd.EarlyEndRun`);
* a port name whose numbers exceed their bits can resolve to a port
  (`PortMap.NamesItsPortIff`, `PortMap.OversizedConnectionAliases`,
  `PortMap.OversizedChannelAliases`);
* the check that a profile asks for no pipe the device lacks comes after its lists are cut
  to the number of pipes: a missing pipe goes unnoticed once as many others as the device
  has pipes are asked for, and a negative count is refused for entries nobody asked for
  (`PipeScope.ChecksRequestIff`, with the input `PipeScope.MissingPipeUnnoticed`). The pipe
  count that `bf_device_add` uses is still zero, so that it refuses no profile at all and
  leaves no pipe in scope (`PipeScope.NoPipesNoRefusal`);
* `start_bit` of the field buffers is used as a byte index: a field lies where its bit
  offset says only at offset zero (`FieldBuffer.LandsOnBitOffsetIff`), though fields that
  share no bit still do not disturb each other (`FieldBuffer.BitFieldsStayApart`).

The expansion into rows is the smallest among rows that match intervals, which are the
rows it emits. Nothing promises more, and more would be wrong:
`RangeLimits.SmallerCoverWithoutIntervals` covers one interval with fewer rows of another
kind, which do not even overlap.

`dafny verify dfyconfig.toml` checks the project.

## Model

| member | source | states |
|---|---|---|
| Bits.CtzDivides | tools/range.c:40-48 | the trailing-zero count is the largest power of two that divides a non-zero value |
| Bits.OrMask | tools/range.c:161 | or-ing k one bits into a value moves it to the end of its block of 2^k |
| Nibbles.ContiguousIffBlock | tools/range.c:160-178 | a row of nibble ranges matches exactly an interval if and only if it is a block: nibbles above one level fixed, nibbles below it free |
| Nibbles.ZeroNibble | tools/range.c:160-171 | below the level of a row every nibble of its start is zero |
| Nibbles.FullNibble | tools/range.c:160-171 | and every nibble of its end is all ones |
| RangeRows.RowsMeanInterval | tools/range.c:152-186 | every value of the interval is matched, nibble by nibble, by exactly one emitted row, and every other value by none |
| RangeRows.RowsTile | tools/range.c:152-186 | the rows abut from start to end, and each matches exactly the interval from its first to its last value |
| RangeRows.FallingRows | tools/range.c:160-186 | once a whole unit of level l no longer fits, the rows are blocks of strictly falling levels below l, so at most l of them |
| RangeRows.RisingRows | tools/range.c:160-186 | from a start aligned to level l the rows are blocks of strictly rising levels from l on and then of strictly falling ones, at most 2n-1-l in all |
| RangeRows.RowBound | tools/range.c:143-185 | no interval needs more than 2n-1 rows, and with nibbles of one bit none more than 2n-2, so the count assertion never fails and the arrays are large enough |
| RangeRows.BlockInOneRow | tools/range.c:152-186 | no block inside the interval crosses any boundary between emitted rows |
| RangeRows.CoverRefinesRows | tools/range.c:152-186 | every row that matches an interval inside [start, end] lies in one emitted row, so every cover or partition by such rows refines the expansion |
| RangeRows.RowsAreMinimal | tools/range.c:152-186 | every cover of the interval by rows that match intervals inside it, overlapping or not and in any order, has at least as many rows as the expansion |
| RangeLimits.RowBoundIsReached | tools/range.c:143-185 | for every nibble size and number the bound is the maximum: the interval of all values but the first and last needs that many rows |
| RangeLimits.SmallerCoverWithoutIntervals | tools/range.c:152-186 | an interval each of whose values exactly one of two rows matches, and no other value either, while the expansion has three |
| RangeExpand.StartNibble | tools/range.c:153-159 | the start nibble is below n and is the highest level the start is aligned to |
| RangeExpand.StepDown | tools/range.c:161-170 | stepping down from the block end stops inside the interval exactly when the level fits, and then at the widest row |
| RangeExpand.FindRow | tools/range.c:152-171 | the level search ends, with the widest row of the highest level that fits |
| RangeExpand.ComposeSplit | tools/range.c:100-178 | recomposing the nibbles of a value gives the value back |
| RangeExpand.RecomposeNibbles | tools/range.c:100-107 | shifting in 32 bits and or-ing gives the positional value of entries that are nibbles |
| RangeExpand.RecomposeFits | tools/range.c:100-107 | of any 32-bit entries the value has 32 bits |
| RangeExpand.SplitInto | tools/range.c:173-178 | one array row becomes the nibbles of a value and no other row changes |
| RangeExpand.ComposeRow | tools/range.c:100-107 | the loop shifts in 32 bits and ors any entries of a row together |
| RangeExpand.MarkRange | tools/range.c:113-116 | marks the values of an interval, and notices exactly when one was marked before |
| RangeExpand.CheckRange | tools/range.c:88-128 | for any entries, nibbles or not: no assertion fails if and only if the recomposed intervals are non-empty, lie in [start, end] and cover each of its values exactly once and nothing else |
| RangeExpand.RowsPartition | tools/range.c:188-190 | the expansion satisfies what the check demands |
| RangeExpand.ExpandInto | tools/range.c:142-186 | the loop ends, and the arrays hold the nibbles of exactly the rows of the expansion |
| RangeExpand.Expand | tools/range.c:130-191 | with arrays of 2n-1 rows all writes are in bounds and every assertion of the check holds |
| RangeExpand.HeldRowsMatch | tools/range.c:173-178 | arrays that hold the expansion match each value of the interval nibble by nibble in exactly one row, and no other value |
| RangeExpand.ExpandMode | tools/range.c:26-191 | in both modes of the program seven rows of four nibbles suffice, exactly one of them matches each value of the interval nibble by nibble and none any other value, and the recomposed rows contain each value once |
| Clients.StableSortUnique | src/dvm/dvm_clients.c:127-138 | a list of clients has at most one stable sort by descending priority |
| Clients.StableSortPermutes | src/dvm/dvm_clients.c:127-164 | the stable sort lists the same clients, each as often |
| Clients.InsertKeepsSort | src/dvm/dvm_clients.c:127-164 | inserting where the scan stops gives the stable sort of the registrations with the new one last |
| Clients.RemoveKeepsSort | src/dvm/dvm_clients.c:90-107 | removing a handle from a table of distinct handles gives the stable sort of the remaining registrations |
| Clients.RoomForOneMore | src/dvm/dvm_clients.c:140-144 | distinct handles from 1 to n, none of them h, fill fewer than n places |
| Registry.RegistrationFindsRoom | src/dvm/dvm_clients.c:113-167 | in a sound state a registration that is not careless always succeeds: the assertion on missing space is unreachable, and nothing is shifted out |
| Registry.StepKeepsInv | src/dvm/dvm_clients.c:42-167 | every careful operation keeps: distinct handles, all allocated and from 1 to 15, the table the stable sort of the live registrations, the counter the number of allocated handles |
| Registry.CarelessBreaksInv | src/dvm/dvm_clients.c:84-138 | a careless call lists a handle twice, or leaves the counter one too low |
| Registry.InvIffCareful | src/dvm/dvm_clients.c:42-167 | over every run of legal operations the invariant holds throughout if and only if no call is careless |
| Registry.RepeatedRegistration | src/dvm/dvm_clients.c:127-138 | a careful run from the start, and a call after it that lists client 2 twice |
| Registry.DeregisteredUnallocated | src/dvm/dvm_clients.c:77-110 | deregistering any handle at the start is accepted and leaves the counter at -1 |
| Registry.RegisterOutcome | src/dvm/dvm_clients.c:42-74 | in any state: the least free handle from 1 to 15, the first 49 characters of the name, one more on the counter; refused with its own status if and only if there is none |
| Registry.DeregisterOutcome | src/dvm/dvm_clients.c:77-110 | in any state: the handle is cleared, the counter drops and exactly the first entry of the handle leaves the table |
| Registry.RegisterCallbacksOutcome | src/dvm/dvm_clients.c:113-167 | in any state, by the place where the scan stops: refused without callbacks, nothing at the handle itself, no room at the sixteenth place, and otherwise the new entry there with the rest moved on |
| Registry.RunWellFormed | src/dvm/dvm_clients.c:42-167 | careless or not, every run leaves a table sorted by priority whose entries are all valid, handle 0 unused and freed handles cleared |
| Registry.CarefulRunSortsTable | src/dvm/dvm_clients.c:42-167 | after every careful run the table is the only stable sort of the live registrations, a permutation of them, and leaves a place empty |
| Registry.RegisterRefusedIffFull | src/dvm/dvm_clients.c:52-68 | a new client is refused exactly when the counter stands at fifteen |
| Registry.DeregisterUndoesRegistration | src/dvm/dvm_clients.c:42-167 | registering a client, then its callbacks, then deregistering it restores the whole state |
| ClientRegistry.ShiftUp | src/dvm/dvm_clients.c:97-104 | the in-place move drops one entry, keeps the order of the rest and zeroes the last |
| ClientRegistry.ShiftDown | src/dvm/dvm_clients.c:146-152 | the in-place move opens a gap and keeps the order of the rest |
| ClientRegistry.Db.constructor | src/dvm/dvm_clients.c:29-39 | zeroed arrays hold the initial state |
| ClientRegistry.Db.Register | src/dvm/dvm_clients.c:42-74 | the array code does the register step of the state machine, with its status and handle |
| ClientRegistry.Db.Deregister | src/dvm/dvm_clients.c:77-110 | the array code does the deregister step |
| ClientRegistry.Db.FindPlace | src/dvm/dvm_clients.c:127-138 | the scan stops at the handle, at a lower priority, or behind the last client, and says which |
| ClientRegistry.Db.RegisterCallbacks | src/dvm/dvm_clients.c:113-167 | the array code with its shifts does the register-callbacks step, with its status |
| PipeScope.ExchangeSort | src/dvm/dvm.c:99-106 | the in-place exchange sort gives the ascending order |
| PipeScope.SortIsSorted | src/dvm/dvm.c:99-106 | the ascending order is sorted and a permutation |
| PipeScope.AscendingUnique | src/dvm/dvm.c:99-106 | a list has only one ascending order |
| PipeScope.SanitizePipeline | src/dvm/dvm.c:97-126 | the local copy gets sorted and cut, and the error is reported exactly when a kept entry, as 32-bit unsigned, is not below the pipe count |
| PipeScope.SanitizeProfile | src/dvm/dvm.c:89-130 | the same over all programs and pipelines of a profile |
| PipeScope.FindRefusedInProfile | src/dvm/dvm.c:93-129 | a profile is only refused for some pipeline that is refused |
| PipeScope.RefusedInProfile | src/dvm/dvm.c:93-129 | one refused pipeline refuses the profile |
| PipeScope.KeptAreSmallest | src/dvm/dvm.c:99-112 | what is kept are the smallest of the entries asked for, as many as asked for or as the device has, and the entries are permuted only |
| PipeScope.CleanProfileHolds | src/dvm/dvm.c:89-130 | the copy handed to the clients has every program and pipeline in its own place, with the entries asked for in ascending order, the rest of the list unchanged and the count cut to the pipes of the device |
| PipeScope.RefusedIff | src/dvm/dvm.c:97-126 | for every list and count of 32-bit ints: with v the number of device pipes among the entries asked for, the error is reported if and only if some entry is none and v falls short of the device's pipes, or one is negative and the device has pipes; a negative count checks the first entries of the list instead |
| PipeScope.ChecksRequestIff | src/dvm/dvm.c:89-125 | the error means exactly that a missing pipe was asked for, if and only if the cut neither hides the missing ones nor, on a negative count, brings in others |
| PipeScope.MissingPipeUnnoticed | src/dvm/dvm.c:108-114 | pipes 0, 1 and 7 asked for, two pipes on the device, no error |
| PipeScope.ProfileRefusedIff | src/dvm/dvm.c:89-130 | a profile is refused if and only if one of its pipelines makes a request that is |
| PipeScope.NoPipesNoRefusal | src/dvm/dvm.c:56-130 | with the pipe count of zero that is coded nothing is refused and no pipe is left in scope |
| Devices.ToldTwiceOf | src/dvm/dvm_clients.c:182-212 | one more callback makes a client told twice exactly when it repeats a device_add with no device_del since |
| DeviceRuns.RollbackSettles | src/dvm/dvm.c:133-147 | a failed round of device_add followed by device_del for all leaves no paired client believing in the device and none told twice |
| DeviceRuns.StepSettles | src/dvm/dvm.c:51-258 | every operation keeps a paired client settled |
| DeviceRuns.RunSettles | src/dvm/dvm.c:51-302 | over every run with arbitrary answers no paired client gets device_add twice without device_del between, and it was last told of an add, successfully, exactly while the device is completely added |
| DeviceRuns.NeverToldTwiceIffPaired | src/dvm/dvm_clients.c:182-213 | a client is never told twice in any run if and only if it has device_del or lacks device_add |
| DeviceOrder.AddTellsInOrder | src/dvm/dvm_clients.c:177-198 | a successful add records the device and tells every client that wants it, once, in table order, of that device, in its slot's mode and with the cleaned copy of the profile |
| DeviceOrder.FailedAddRollsBack | src/dvm/dvm.c:133-147 | a failed add reaches a prefix of the table, returns the status of the last one reached, and undoes those told in exactly the reverse order; the slot ends empty |
| DeviceOrder.RemoveTellsInReverse | src/dvm/dvm.c:157-178 | a removal calls device_del of every client that wants it, for that device and in reverse table order, empties the slot whatever they answer and returns the first failure |
| DeviceOutcomes.AddOutcome | src/dvm/dvm.c:51-152 | from slot, memory, profile and answers: the status of every path and the slot left; an add that reaches the clients succeeds if and only if none that wants device_add refuses, and otherwise returns the answer of the first in the table that does and empties the slot |
| DeviceOutcomes.AddCalls | src/dvm/dvm_clients.c:169-235 | which table places are called, in which order and up to which one, that each call records the answer of its own place, and that a refusal is followed by device_del to all places from the end |
| DeviceOutcomes.RemoveOutcome | src/dvm/dvm.c:157-178 | an empty slot is not found; otherwise all places that want device_del are called from the end, each recording its own answer, and the status is the first failure among them, or success if and only if there is none |
| DeviceOutcomes.BeginOutcome | src/dvm/dvm.c:212-258 | other than quick: a client's failure and an empty slot if and only if a complete device is removed and a client fails, lack of memory and an empty slot, or else exactly a new slot of that mode in progress; quick: an occupied slot gets mode and progress and keeps all else, an empty one is refused |
| DeviceOutcomes.BeginCalls | src/dvm/dvm.c:223-234 | a begin on a complete device calls device_del as a removal does |
| DeviceOutcomes.EndOutcome | src/dvm/dvm.c:265-302 | only a complete device is found, and only its progress changes, unless its mode is cold |
| DeviceModes.ModeIsLatestBegin | src/dvm/dvm.c:67-251 | an occupied slot holds the mode of the latest successful begin since it was last empty, or cold |
| DeviceModes.ClientsGetLatestMode | src/dvm/dvm.c:67-136 | every device_add call of every run carries that mode |
| DeviceModes.WarmIffNoColdBegin | src/dvm/dvm.c:223-297 | a restart in progress has a warm mode throughout a run if and only if no begin succeeded with the cold mode |
| DeviceModes.EndClearsProgress | src/dvm/dvm.c:265-302 | then ending the restart of a complete device always clears the flag |
| DeviceModes.ColdBeginIsNeverEnded | src/dvm/dvm.c:265-302 | over every run after a successful cold begin, with any number of ends, the restart stays in progress until the slot is emptied or begun again |
| DeviceModes.ColdRestartRun | src/dvm/dvm.c:281-284 | begin cold, add, end: the device is complete and still in the restart |
| DeviceManager.Manager.NotifyAdd | src/dvm/dvm_clients.c:169-199 | the loop over the array tells the clients in table order until one fails and returns its status |
| DeviceManager.Manager.NotifyDel | src/dvm/dvm_clients.c:202-235 | the loop tells all clients in reverse order and returns the first failure |
| DeviceManager.Manager.DeviceAdd | src/dvm/dvm.c:51-152 | the method does the add step of the device state machine, calls and status included |
| DeviceManager.Manager.DeviceRemove | src/dvm/dvm.c:157-178 | the method does the remove step |
| DeviceManager.Manager.WarmInitBegin | src/dvm/dvm.c:212-258 | the method does the begin step |
| DeviceManager.Manager.WarmInitEnd | src/dvm/dvm.c:265-302 | the method does the end step |
| DriverRuns.NoneToldTwiceIffDistinct | src/dvm/dvm_clients.c:127-198 | of clients with both callbacks none is told twice in any run if and only if no handle is listed twice |
| DriverRuns.CarefulRegistryInformsClients | src/dvm/dvm_clients.c:42-235 | after every careful registry run and every device run over its table, clients are told by priority and every paired client is settled |
| DriverRuns.CarelessRegistrationTellsTwice | src/dvm/dvm_clients.c:127-138 | from any sound state, registering a handle again past a client of lower priority gets that client told twice of one device |
| DriverRuns.RepeatedRegistrationTellsTwice | src/dvm/dvm_clients.c:113-198 | a run of the registry from its start after which adding a device tells client 2 twice |
| InterleavedRuns.DeviceCallInforms | src/dvm/dvm.c:51-302 | over whatever table stands, a device operation keeps a handle told exactly while the device is added and its client wants to know, listed or not |
| InterleavedRuns.RegistryCallInforms | src/dvm/dvm_clients.c:42-167 | a careful registry call keeps this if and only if it neither registers a new client while the device is added nor deregisters one |
| InterleavedRuns.SoundIffNoneHarmful | src/dvm/dvm_clients.c:42-235 | over every run of registry and device calls in any order, with arbitrary answers: the registry is sound and the handle rightly told throughout, if and only if no call is careless and none of its clients comes late or leaves early |
| InterleavedRuns.LateRun | src/dvm/dvm_clients.c:113-167 | add a device, register a client: it has not heard of the device |
| InterleavedRuns.EarlyRun | src/dvm/dvm_clients.c:77-110 | register a client, add a device, deregister the client: its handle was told last that the device is there |
| InterleavedRuns.ReusedHandleToldTwice | src/dvm/dvm_clients.c:42-235 | after that the reused handle is told a second time with no device_del between |
| Switchd.StartupEndsCold | bf_switchd/bf_switchd.c:1814-1849 | start-up ends in the cold mode if and only if it was not asked for the quick mode |
| Switchd.InitModeIsOpenBegin | bf_switchd/bf_switchd.c:1032-1203 | over every run from a cold state the init mode is that of the latest accepted begin until an end follows, and cold otherwise; while it stands the device of that begin is locked |
| Switchd.EndUnlocks | bf_switchd/bf_switchd.c:1169-1203 | the end leaves the device unlocked and the daemon cold, and reports the driver's failure only for virtual and software-model devices |
| Switchd.LayersAgreeIff | bf_switchd/bf_switchd.c:1032-1203 | a restart in progress in the driver belongs to a locked device throughout a run if and only if no end comes before the device is added again in a warm mode |
| Switchd.BringUpAgrees | bf_switchd/bf_switchd.c:1814-1841 | start-up in any mode leaves the two layers in agreement |
| Switchd.AfterStartup | bf_switchd/bf_switchd.c:1032-1849 | for every run after start-up: a warm init mode means that the device begun last, in that mode, is locked, and the layers agree if and only if no end comes too early |
| Switchd.WarmRestartCompletes | bf_switchd/bf_switchd.c:510-1203 | from any state with the device ready, begin, add and end without failures leave it ready, unlocked, added and the daemon cold; the driver is out of the restart if and only if it was not begun cold |
| Switchd.EndWithoutAdd | bf_switchd/bf_switchd.c:1032-1203 | from any state with the device ready, begin other than quick and end with no add between leave the device unlocked and the driver in the restart |
| Switchd.EarlyEndRun | bf_switchd/bf_switchd.c:1032-1849 | start-up of one device and those two calls: the layers disagree |
| DaemonOutcomes.StartupOutcome | bf_switchd/bf_switchd.c:1812-1849 | for every device after start-up, from its own board and supply: locked if and only if configured and the mode is one of the two warm ones; ready and complete if and only if configured and nothing fails; in the restart, in that mode, if and only if it was begun and no client refused |
| DaemonOutcomes.CleanStartup | bf_switchd/bf_switchd.c:1812-1849 | with no failure anywhere every configured device is ready and complete, and locked and in the restart if and only if the mode is one of the two warm ones |
| DaemonOutcomes.BeginCallOutcome | bf_switchd/bf_switchd.c:1032-1083 | the status of every path, and for a ready device mode, lock and the slot that the driver is left with, success being reported whatever the driver says |
| DaemonOutcomes.AddCallOutcome | bf_switchd/bf_switchd.c:510-561 | the device becomes ready if and only if the profile is built where it is needed and the driver's add succeeds, which is told from slot, memory, profile and answers |
| DaemonOutcomes.EndCallOutcome | bf_switchd/bf_switchd.c:1169-1203 | mode and lock are set back; the driver is reached only for a locked device and ends the restart of a complete one that is not cold |
| SwitchDaemon.Context.WarmInitBegin | bf_switchd/bf_switchd.c:1032-1083 | the method does the daemon's begin step |
| SwitchDaemon.Context.DeviceAdd | bf_switchd/bf_switchd.c:510-561 | the method does the daemon's add step |
| SwitchDaemon.Context.WarmInitEnd | bf_switchd/bf_switchd.c:1169-1203 | the method does the daemon's end step |
| SwitchDaemon.Context.Boot | bf_switchd/bf_switchd.c:1812-1849 | the start-up loop gives the start-up state of the state machine |
| KeyLayout.SlotsDistinct | src/ctx_json/ctx_json_utils.c:879-891 | after dropping repeated names every name has one slot |
| KeyLayout.SlotsCover | src/ctx_json/ctx_json_utils.c:737-779 | the slots cover exactly the bits of the key |
| KeyLayout.SlotsDisjoint | src/ctx_json/ctx_json_utils.c:737-779 | no bit of the key lies in two slots |
| KeyLayout.PlaceFillsSlot | src/ctx_json/ctx_json_utils.c:839-851 | a match field ends on the byte boundary of its slot and lies inside the key, whatever slices follow; up to a byte it takes the slot, beyond that its own width |
| KeyLayout.PlacesDisjoint | src/ctx_json/ctx_json_utils.c:816-892 | match fields of different names share no bit |
| KeyLayout.ActionStartsLikeKey | src/ctx_json/ctx_json_utils.c:695-720 | laid out as action parameters a name starts where it does in a key if and only if no repeated name before it takes bits |
| KeyLayout.DistinctLayoutsAgree | src/ctx_json/ctx_json_utils.c:672-734 | with distinct names both layouts end on the same boundary |
| MatchSpec.KeyLength | src/ctx_json/ctx_json_utils.c:737-779 | succeeds exactly when every field has name and width, and eight times its result is the size of the slots |
| MatchSpec.SpecDetails | src/ctx_json/ctx_json_utils.c:794-906 | the walk finds the place and type of a field, or fails, exactly as the specification of the lookup says, with every error path |
| MatchSpec.FieldTypeIsFirstOther | src/ctx_json/ctx_json_utils.c:853-875 | the type of a sliced field is that of its first slice that is not exact, or exact |
| MatchSpec.LookupOutcome | src/ctx_json/ctx_json_utils.c:805-899 | names that start with "$" or "--" give no bits and the invalid type; any other is found if and only if every field has name, type and width and one has the name |
| MatchSpec.FirstOtherDecides | src/ctx_json/ctx_json_utils.c:853-875 | the first slice that is not exact decides the type whatever slices follow: "lpm", "ternary" and "range" give those types, and the lookup fails if and only if it says anything else |
| MatchSpec.ExactSlicesAreExact | src/ctx_json/ctx_json_utils.c:853-858 | a field all of whose slices say "exact" is exact |
| MatchSpec.ActionSpecDetails | src/ctx_json/ctx_json_utils.c:672-734 | the walk over action parameters stops at the first of the name and gives its bits, or fails, as specified |
| MatchSpec.ParameterOutcome | src/ctx_json/ctx_json_utils.c:672-734 | by where the walk stops: at a parameter of the name, its own width ending behind the padded widths of all up to it; at a malformed one, behind the last or without a list, a failure; made-up names give no bits |
| MatchSpec.ParameterPlace | src/ctx_json/ctx_json_utils.c:698-730 | a parameter has its own width, ends on a byte boundary behind all that precede it, and with distinct names ends where the match field would |
| MatchSpec.LookupEndsInKey | src/ctx_json/ctx_json_utils.c:840-851 | a successful lookup gives bits that end on a byte boundary inside the key |
| MatchSpec.LookupsDisjoint | src/ctx_json/ctx_json_utils.c:840-892 | successful lookups of different names give bits that do not meet |
| HexStream.PairIsByte | src/ctx_json/ctx_json_utils.c:151-156 | the k-th pair of digits from the back is byte k of the value |
| HexStream.HexToStream | src/ctx_json/ctx_json_utils.c:142-162 | the last bytes of the buffer, as many as there are digits for, become the low-order bytes of the value, all others stay, and the string ends as it began |
| HexStream.LowBytesHoldValue | src/ctx_json/ctx_json_utils.c:151-156 | bytes that are the low-order bytes of a value hold it modulo 256 to their number |
| HexStream.HexRoundTrip | src/ctx_json/ctx_json_utils.c:151-156 | a number written in hexadecimal, in either case, has that value |
| HexStream.HexToZeroedStream | src/ctx_json/ctx_json_utils.c:142-162 | on a zeroed buffer the stream's big-endian value is the hexadecimal value modulo 256 to the length |
| PortStrings.StrToInfo | src/bf_pal/bf_pal_port_intf.c:40-82 | the scan splits at the first slash and reads both parts, or reports that there is none |
| PortStrings.ParseOfName | src/bf_pal/bf_pal_port_intf.c:56-77 | two 32-bit numbers written in decimal with a slash between are read back |
| PortStrings.StrtoulReads | src/bf_pal/bf_pal_port_intf.c:68-77 | spaces, sign, digits and a rest are read as the number, saturated at 64 bits and taken from 2^64 after a minus |
| PortMap.KeyParts | src/bf_pal/bf_pal_port_intf.c:87-91 | for all 32-bit parts the key is in base 16: the channel's low four bits, above them the low 28 bits of the connection or-ed with the rest of the channel |
| PortMap.KeyIsSum | src/bf_pal/bf_pal_port_intf.c:87-91 | for parts that fit their bits the key is 16 times the connection plus the channel |
| PortMap.UptoKeys | src/bf_pal/bf_pal_port_intf.c:124-143 | the keys added before a port are exactly the smaller keys of ports, so no key comes twice |
| PortMap.PortDb.CreatePortInfo | src/bf_pal/bf_pal_port_intf.c:117-145 | the nested loops add the entries before the first that cannot be added, with its status, or the whole table |
| PortMap.PortDb.StrToDevPort | src/bf_pal/bf_pal_port_intf.c:177-191 | a name resolves to what the table holds under its key, or gives the unexpected-error status |
| PortMap.NameResolves | src/bf_pal/bf_pal_port_intf.c:117-191 | the decimal name of any numbers that fit their bits resolves if and only if they are a connection 1 to 64 and a channel 0 to 4, and then to device port (connection - 1) * 4 + channel |
| PortMap.BadNameRefused | src/bf_pal/bf_pal_port_intf.c:58-77 | a name without a slash, or with a dash in front of a part, resolves to nothing |
| PortMap.ResolvesIff | src/bf_pal/bf_pal_port_intf.c:40-191 | what every string resolves to, from the two numbers read: with c the low 28 bits of the connection or-ed with channel/16, the port (c, channel mod 16) if 1 <= c <= 64 and channel mod 16 <= 4, and otherwise nothing |
| PortMap.NamesItsPortIff | src/bf_pal/bf_pal_port_intf.c:40-191 | a string resolves exactly when its numbers are a port's, and to that port, if and only if it has no part beyond its bits whose key is a port's nevertheless |
| PortMap.OversizedConnectionAliases | src/bf_pal/bf_pal_port_intf.c:87-91 | every port also answers to all connections that are a multiple of 2^28 higher |
| PortMap.OversizedChannelAliases | src/bf_pal/bf_pal_port_intf.c:87-91 | every port also answers to connection 0 with its key as channel |
| PortMap.PortsNamedOnce | src/bf_pal/bf_pal_port_intf.c:124-126 | channels 0 to 3 name each device port from 0 to 255 exactly once |
| PortMap.FifthChannelAliases | src/bf_pal/bf_pal_port_intf.c:125-126 | channel 4 names the first port of the next connection once more |
| FieldBuffer.OrderIsIrrelevant | src/fixed_function/fixed_function_init.c:77-113 | fields that agree where they overlap, disjoint ones in particular, give the same buffer in any order and any number of times |
| FieldBuffer.CommuteIffAgree | src/fixed_function/fixed_function_init.c:92 | two fields can be encoded in either order if and only if they agree where they overlap |
| FieldBuffer.DecodeReturnsField | src/fixed_function/fixed_function_init.c:115-151 | every encoded field decodes to its bytes |
| FieldBuffer.UncoveredByte | src/fixed_function/fixed_function_init.c:92-111 | a byte in no field keeps its value |
| FieldBuffer.LandsOnBitOffsetIff | src/fixed_function/fixed_function_init.c:77-113 | in every buffer the bytes go where the start taken as a bit offset would put them, if and only if the start is zero or there are none |
| FieldBuffer.BitFieldsStayApart | src/fixed_function/fixed_function_init.c:77-151 | fields that share no bit as configured share no byte as encoded, and each decodes to its bytes |
| FieldBuffer.Encode | src/fixed_function/fixed_function_init.c:77-113 | the error cases, and otherwise the buffer with exactly the field's bytes replaced |
| FieldBuffer.Decode | src/fixed_function/fixed_function_init.c:115-151 | the error cases, and otherwise the field's bytes copied out and nothing else changed |

## Left out

- Loading of libraries, sockets, threads, signals, shells and option parsing of the daemon: plumbing over code that is not part of the repository.
- `bf_switchd_device_add_with_p4`: it loads libraries and then does what `SwitchDaemon.Context.DeviceAdd` models.
- `bf_switchd/switch_config.c`, `src/fixed_function/fixed_function_ctx.c` and the rest of the JSON reading: copying of values with assertions.
- `bf_drv_notify_clients_dev_log`, logging, version strings, `print` in `tools/range.c`: output only.
- `src/port_mgr`, `src/pipe_mgr` and the run-time interfaces: wrappers over foreign maps and libraries.
- InterleavedRuns.SoundIffNoneHarmful: speaks of handles whose clients have device_del or no device_add; what the others meet is `DeviceRuns.NeverToldTwiceIffPaired`.
- Port tables of several devices: each is a map of its own; one is modelled.
- Concurrency of the daemon's mutex: operations are taken one after the other.
- RangeExpand.CheckRange: an end at or beyond the number of values is excluded, since the code would leave its array; its only caller asserts as much.
- RangeExpand.Expand: takes values of at most 32 bits, as the program's are; the search for rows is on unbounded integers, which stay below 2^(b n), so its arithmetic does not wrap.
- Registry.Legal: handles below zero, which the code's assertions let through except -1, are taken as excluded, since they index outside the arrays.
- DeviceManager.Manager.DeviceAdd: the device id and the pipe counts of a profile are taken to lie inside their arrays, which the code does not check; of the profile only the pipe lists are modelled.
- DeviceManager.Manager.NotifyAdd: the device family, which is passed on to device_add unchanged, is not recorded with the calls.
- HexStream.HexToStream: the string is "0x" and hexadecimal digits, as the code assumes; what `sscanf` does on other text is not modelled.
- MatchSpec.SpecDetails: widths are not negative and sums do not overflow; the list of names met so far is a sequence instead of a fixed array.
- PortStrings.Strtoul: the standard library's conversion, in the C locale with a 64-bit unsigned long.
- FieldBuffer.Encode: start and width are not negative and the source and target memory do not overlap, since the code would otherwise leave its buffers; the key and the data functions are the same code and modelled once.

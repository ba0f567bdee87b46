# Proofs about the data structures and protocols of HDF

The Hardware Driver Foundation (HDF) keeps its drivers running on a handful of small data structures and on
state machines built over them. This project models those parts in Dafny, pointer by pointer or step by step as
the C code does, and proves what the rest of the framework relies on.

- `SList`, `SListTraversal`: the singly linked list and its iterator, with edits during a traversal.
- `MessageOrder`, `MessageQueue`, `LooperRuns`, `LooperOrder`: the timed message queue, the looper that consumes
  it, and all interleavings of senders and looper.
- `PriorityOrder`, `DeviceBoot`, `ConfigOrder`: ordered insertion, and the order in which hosts start and drivers load,
  down to the configuration.
- `DList`, `PowerOrder`, `PowerTree`, `PowerManager`: the circular doubly linked list, and the three nested lists
  of hosts, devices and device nodes that a power change visits.
- `StartRuns`, `BootRuns`, `LoadRuns`, `HostStart`: a whole boot, from the configuration to the tree of nodes.
- `HashTable`, `MapRuns`, `HashMap`: the chained hash map with rehashing in place, and what runs of it cost.
- `SbufFormat`, `Sbuf`, `SbufMemory`, `SbufQueue`, `SbufLayout`, `EventFrames`, `EventHub`: the serialization buffer, its
  typed reads and writes, when they succeed, where the bytes stand, and the frames of input events assembled in it.
- `Esd`: display power, and the worker that recovers a panel from electrostatic discharge.
- `Observer`: publishing services to subscribers.
- `WakeLock`: the reference count of a wake lock and the power state that follows it.

Lists, tables and buffers are heap objects whose methods change links, arrays and positions in place. Ghost
sequences name the nodes in order, and every method states the new sequence, so that the results about runs are
stated on sequences and hold of the heap. `verify` with `dfyconfig.toml` covers all files.

Several results say that the code does not keep a promise in every case. Each comes with a run or an input that shows
it, and with the condition under which the promise is kept:

- The looper waits without a time limit, so that a message that is due can stay behind: this can happen if and only if
  the message has a delay (`DelayedMessageStaysBehind`, `LeftBehindIffDelayed`). The delay is the value that its owner
  has left in the field `timeStamp`, to which the clock is added: the argument `delayed` of `HdfMessageQueueEnqueue`
  is not used, and `HdfMessageObtain` leaves 0 there.
- Time stamps that wrap break the order of messages (`WrapBreaksOrder`): a run is in order if and only if no message
  is stamped earlier than one already taken (`OrderedIffTimely`), which is so at least as long as no sum of delay and
  clock wraps (`TimelyUnlessItWraps`, `InOrderWithoutWraps`).
- The discharge check can be switched off without any recovery (`SwitchedOffTooEarly`): ten are sure if and only if
  the panel is switched on with nothing left to count (`TenInAPeriod`), which depends on where the worker stood when the
  panel was switched off (`NextPeriodIsClean`).
- A driver that fails to load takes other nodes of its device with it (`FailedLoadTakesOthers`): it leaves the power
  change as it was if and only if there is none with a power token (`FailedLoadIsHarmless`).
- A private service can reach a subscriber of another device (`PrivateServiceGivenAway`): it is kept from it if and
  only if the subscription came before the publish, or there was none before the publish (`PrivateServices`).
- Merging an empty circular list destroys the other (`Merge`, `NoWayToAStrayNode`), and so does linking a node of a
  singly linked list twice, unless an iterator has passed it (`Add`, `Insert`).
- The reference count of a wake lock can overflow (`CountCanOverflow`): the count stays non-negative, and the power
  state follows it, if and only if no acquire meets a full counter (`NegativeMeansOverflow`, `FollowsUnlessOverflow`).

## Model

| member | source | states |
|---|---|---|
| SList.ChainIsDistinct | utils/src/hdf_slist.c:26-54 | Nodes linked by `next` up to null contain no node twice, so the loops over the list end |
| SList.List.IsEmpty | utils/src/hdf_slist.c:21-24 | True exactly when no node is linked |
| SList.List.GetLast | utils/src/hdf_slist.c:42-54 | The last linked node, or null |
| SList.List.Count | utils/src/hdf_slist.c:149-161 | The number of linked nodes |
| SList.List.Add | utils/src/hdf_slist.c:56-63 | The node becomes the first and the others keep their order; if it was linked already, no walk along the list ends any more |
| SList.List.AddTail | utils/src/hdf_slist.c:65-80 | The node becomes the last, unless it is linked already, in which case nothing changes |
| SList.List.Remove | utils/src/hdf_slist.c:117-130 | Exactly the given node is unlinked, wherever it is; a node that is not linked changes nothing; the node keeps its own `next` |
| SList.List.AddOrder | utils/src/hdf_slist.c:82-115 | Refuses a node that is linked; otherwise links it at the position that the three-way search finds and nothing else moves |
| SList.OrderPosMeans | utils/src/hdf_slist.c:82-115 | For every list and comparer: in front if the first item allows it, else between the first two neighbours that do, else at the end |
| SList.List.Pop | utils/src/hdf_slist.c:181-190 | Unlinks and returns the first node, or null |
| SList.Iterator.constructor | utils/src/hdf_slist.c:192-205 | Starts before the first node |
| SList.Iterator.HasNext | utils/src/hdf_slist.c:207-224 | True exactly when a node is left, also when the current node was unlinked behind the iterator's back |
| SList.Iterator.Next | utils/src/hdf_slist.c:226-245 | Returns the next node that has not been visited, after any removal of the current one |
| SList.Iterator.Remove | utils/src/hdf_slist.c:247-256 | Unlinks the current node, once |
| SList.Iterator.Insert | utils/src/hdf_slist.c:258-267 | Links a node before the current one; a current node that `HdfSListRemove` had unlinked is linked again. A node that is linked already cuts out what stands between it and the current node, if it stands before the previous one, and otherwise closes a circle |
| SListTraversal.Search | utils/src/hdf_slist.c:26-40 | The first node that the comparer accepts, or null when none is accepted |
| SListTraversal.BodyOutcome | utils/src/hdf_slist.c:117-130 | What any permitted sequence of insertions and removals of the current node, by either function, leaves behind the iterator and ahead of it |
| SListTraversal.OutcomeMeans | utils/src/hdf_slist.c:117-267 | A node stays unless it was removed through the iterator, or by `HdfSListRemove` without an insertion through the iterator afterwards |
| SListTraversal.RunOutcomes | utils/src/hdf_slist.c:192-267 | After any number of rounds, what is behind the iterator is the outcome of the rounds so far and what is ahead are the original nodes not yet visited |
| SListTraversal.Traverse | utils/src/hdf_slist.c:192-267 | A whole loop with edits: every original node is visited exactly once, in order; the list ends as the original sequence with each node replaced by what its round inserted and, if it survives, itself |
| SListTraversal.Flush | utils/src/hdf_slist.c:132-147 | Every node is deleted once, in order, and the list is empty |
| PriorityOrder.PositionSplits | utils/src/hdf_slist.c:82-115 | With a total preorder and a sorted list, the position that the search finds separates the items that must come before from all those that must come after |
| PriorityOrder.InsertKeepsSorted | utils/src/hdf_slist.c:82-115 | Insertion keeps the list sorted and adds exactly the one item |
| PriorityOrder.TiesAfterInsert | utils/src/hdf_slist.c:82-115 | The new item goes before all equal ones, whose order is kept |
| PriorityOrder.AddAllSortsReversingTies | utils/src/hdf_slist.c:82-115 | Inserting a whole configuration gives a sorted permutation of it with equal items in reverse order |
| PriorityOrder.AddAllInOrder | utils/src/hdf_slist.c:82-115 | Where each item of the configuration stands: by priority, and for equal ones in reverse order of the configuration |
| MessageOrder.StampIsNotEarly | utils/src/osal_msg_queue.c:40-42 | The time stamp is not before the clock if and only if the value left in the field plus the clock does not wrap around |
| MessageOrder.DueIsFirst | utils/src/osal_msg_queue.c:64-72 | In a queue in time order only the first message can be the one found due |
| MessageOrder.InsertKeepsOrder | utils/src/osal_msg_queue.c:43-51 | Insertion keeps what was taken and what is queued ordered by time and, for equal times, by arrival |
| MessageQueue.InsertBeforeFirst | utils/src/osal_msg_queue.c:43-51 | The node is linked before the first later message, or at the end; a node that is in the list already stays last, cuts out what stands between it and that message, or closes a circle |
| MessageQueue.TakeFirst | utils/src/osal_msg_queue.c:64-72 | The first due message is unlinked, or nothing |
| MessageQueue.Queue.Enqueue | utils/src/osal_msg_queue.c:31-55 | On the linked list: the stamped message is inserted after all messages that are not later, and the semaphore is posted once; for a message that is queued already, which messages are left, or that a circle is closed |
| MessageQueue.Queue.TakeDue | utils/src/osal_msg_queue.c:57-77 | On the linked list: the first message that is due leaves the queue, the others stay as they are |
| MessageQueue.Queue.Destroy | utils/src/osal_msg_queue.c:22-29 | Every queued message is deleted once, in order |
| MessageQueue.Looper.Stop | utils/src/hdf_message_looper.c:32-43 | Enqueues an undelayed stop message without a target, or nothing if memory cannot be allocated |
| MessageQueue.Looper.Handle | utils/src/hdf_message_looper.c:13-30 | A stop message ends the loop and flushes the queue; any other is delivered if it has a target, and only then |
| MessageQueue.Looper.OnePass | utils/src/hdf_message_looper.c:13-30 | On the heap: the first due message is taken and delivered, or ends the loop; if none is due, one unit of the semaphore is taken and the loop goes on, or the looper blocks at zero; this is the pass of the step machine |
| MessageQueue.Looper.Start | utils/src/hdf_message_looper.c:13-30 | Over any rising readings of the clock: the loop ends before the last one only after a stop message, or at a zero semaphore with nothing due; each reading took a message or a unit of the semaphore, which is lowered by exactly the latter; the whole loop is a sequence of passes of the step machine |
| LooperRuns.PassIsRun | utils/src/hdf_message_looper.c:17-29 | A pass of the loop is a run of single steps (read the clock, look, wait), so every result about runs applies to it |
| LooperRuns.PassMeans | utils/src/hdf_message_looper.c:17-29 | What a pass does to queue, semaphore, taken and flushed messages, whether something is due or not |
| LooperRuns.StepKeepsInv | utils/src/osal_msg_queue.c:31-77 | Every step of a sender or of the looper keeps the invariant from which the absence of lost wake-ups follows |
| LooperRuns.NoLostWakeUp | utils/src/osal_msg_queue.c:31-77 | For any number of senders and every interleaving of stamp, insert, post, clock, look and wait: when the looper is blocked and the semaphore is zero, a message in the queue belongs to a sender that has yet to post, or was delayed and not due at the last look |
| LooperRuns.DelayedMessageStaysBehind | utils/src/osal_msg_queue.c:57-77 | For every positive delay left in the message a run leaves it overdue in the queue, with the looper blocked without a time limit and no step enabled but the clock and new messages |
| LooperRuns.LeftBehindIffDelayed | utils/src/osal_msg_queue.c:31-77 | Over all runs from the start: a message that was enqueued with a given delay in its time stamp field can be left behind, posted and due, by a blocked looper if and only if that delay is positive |
| LooperOrder.ConservationAndOrder | utils/src/osal_msg_queue.c:31-77 | In every run with enqueues as one step, wrapping time stamps included: every message is taken, flushed or queued, exactly one of these; the queue is in order of time, and of arrival for equal times; nothing is taken before its time |
| LooperOrder.SendAndOrder | utils/src/osal_msg_queue.c:31-55 | A message leaves what was taken, is queued and was flushed in order if and only if it was in order before and no message taken so far has a later time stamp |
| LooperOrder.OrderedIffTimely | utils/src/osal_msg_queue.c:31-77 | In every run: all messages are taken and flushed in order of time and arrival if and only if no message was sent with a time stamp earlier than one already taken |
| LooperOrder.TimelyUnlessItWraps | utils/src/osal_msg_queue.c:40-42 | A message is sent in time if and only if delay plus clock does not wrap around, or wraps to no earlier than everything taken so far |
| LooperOrder.InOrderWithoutWraps | utils/src/osal_msg_queue.c:40-42 | In every run in which no sum of delay and clock wraps around when a message is sent, all messages are taken and flushed in order of time and arrival |
| LooperOrder.LookTakesHead | utils/src/osal_msg_queue.c:57-77 | In every run the looper takes the head of the queue exactly when it is due, and otherwise waits |
| LooperOrder.StopSplitsLine | utils/src/hdf_message_looper.c:13-43 | When the loop has ended, everything ordered before the stop message was taken, and nothing else if all messages were taken in order |
| LooperOrder.ProcessedBeforeStop | utils/src/hdf_message_looper.c:13-43 | In every run, every undelayed message enqueued before the stop message is processed before the loop ends, unless the delay of the stop message wraps around |
| LooperOrder.WrapBreaksOrder | utils/src/osal_msg_queue.c:40-51 | A run from the start in which a message is taken after one with a later time stamp, since its delay wraps around |
| DeviceBoot.GetHostList | core/common/src/hdf_attribute.c:101-139 | The list holds the properly configured hosts, numbered in the order of the configuration, inserted one by one by priority; it is empty if there is no manager node or an allocation fails, and the result says so |
| DeviceBoot.GetHostNode | core/common/src/hdf_attribute.c:153-177 | The devices of the first host with the name, or none |
| ConfigOrder.FirstOfName | core/common/src/hdf_attribute.c:153-177 | The result is that of a host with the name that no earlier host has, and there is none exactly if no host has it |
| DeviceBoot.DeviceIdIsCut | core/common/src/hdf_attribute.c:289 | Of the id that is made for a device, the 16-bit field keeps only the low eight bits of the position of the device, for every host |
| DeviceBoot.GetDeviceList | core/common/src/hdf_attribute.c:247-300 | The list holds the properly configured drivers of all devices, inserted one by one by priority; there is none if the host is not configured, an allocation fails, or no driver is configured properly |
| DeviceBoot.HostDriversMean | core/common/src/hdf_attribute.c:247-300 | There are drivers only if the configuration has the host and all memory can be had; then they are those of the first host of the name, by priority |
| DeviceBoot.HostsStartByPriority | core/common/src/hdf_attribute.c:101-139 | The list of hosts to start is in nondecreasing priority, a permutation of the properly configured hosts, with equal priorities in reverse order of the configuration |
| ConfigOrder.HostsInOrder | core/common/src/hdf_attribute.c:84-139 | Over the configuration: exactly the hosts with a name and a priority of at most 200 are listed, each once, with their own names, priorities and numbers, by these priorities, equal ones in reverse order |
| DeviceBoot.DriversLoadByPriority | core/manager/src/devhost_service_clnt.c:34-49 | The drivers that a host tries to load come in nondecreasing priority, equal priorities in reverse order of the configuration |
| ConfigOrder.DriversInOrder | core/common/src/hdf_attribute.c:179-300 | Over the configuration: exactly the drivers that are described completely and within the bounds, not disabled, and in a quick boot not left for the second step, are attempted, each once, by their priorities, equal ones in reverse order |
| DeviceBoot.ActiveDevice | core/manager/src/devmgr_service.c:21-42 | Which of the two calls is made, none without a host service, and how the preload mark follows its result |
| DeviceBoot.LoadLeftDriver | core/manager/src/devmgr_service.c:67-90 | Over all hosts: tries exactly the drivers marked for the second step of the hosts that have attached, in order, and marks those that load |
| DeviceBoot.AfterHostMeans | core/manager/src/devmgr_service.c:21-42 | Exactly the drivers of the second step that AddDevice accepts, below a host with a service, are marked as enabled, and nothing else changes |
| DeviceBoot.TwoPhasesEqualOne | core/common/src/devmgr_service_start.c:128-137 | Quick load and then the second step try exactly the drivers that slow load tries, each once, and never a disabled one |
| DeviceBoot.Step2Again | core/manager/src/devmgr_service.c:67-90 | A second call of the second step tries exactly the drivers that failed in the first |
| HostStart.StartDeviceHosts | core/manager/src/devmgr_service.c:211-246 | On the iterator over the list of hosts and the ring of clients: the run is the start of each host of the list in turn, in which a client that cannot be allocated is skipped and a host whose service cannot is unlinked again |
| BootRuns.BootGivesIdentities | core/manager/src/devmgr_service.c:211-246 | After that run the manager lists, behind the hosts it had, exactly those that started, in the order of the list |
| BootRuns.StartedFrom | core/manager/src/devmgr_service.c:226-243 | Exactly the hosts start whose client and whose service can be allocated, in the order of the list |
| BootRuns.ResumeByPriority | core/manager/src/devmgr_service.c:211-295 | After a boot of an empty manager, and any later attaching of services and loading of drivers, the hosts are those that started, by priority, and a resume visits the nodes of hosts with a smaller priority number first |
| LoadRuns.NodesOfLoads | core/host/src/devhost_service.c:62-109 | Over any sequence of loads below a new service: there is a node for a load if and only if that load succeeded and no later one of the same device failed |
| LoadRuns.DevicesByMiddle | core/host/src/devhost_service.c:62-77 | Two nodes are below the same device if and only if the middle 16 bits of their ids are the same |
| PowerOrder.DeviceIdOfParts | core/host/include/hdf_device.h:31-36 | Of an id made of a host, 16 bits for the device and 8 for the node, `DEVICEID` is the device |
| LoadRuns.BootFollowsAttempts | core/manager/src/devhost_service_clnt.c:34-49 | After a boot of an empty manager, whatever can be allocated and launched: a host has a service if and only if it is the first with its 16-bit id; below it there are exactly the nodes of its configured drivers that passed the filters and lasted, and they were added in nondecreasing priority |
| DList.IsEmpty | include/utils/hdf_dlist.h:69-72 | True exactly when the ring is the head alone |
| DList.InsertHead | include/utils/hdf_dlist.h:99-106 | The entry becomes the first; `next` and `prev` stay inverse to each other around the ring |
| DList.InsertTail | include/utils/hdf_dlist.h:117-124 | The entry becomes the last; `next` and `prev` stay inverse to each other around the ring |
| DList.Remove | include/utils/hdf_dlist.h:81-88 | Exactly this entry leaves the ring, and its links are null |
| DList.Merge | include/utils/hdf_dlist.h:135-144 | All nodes of a non-empty list come to the front of the other, in order, and the list is empty; an empty list leaves the head pointing at the other list |
| DList.NoWayToAStrayNode | include/utils/hdf_dlist.h:135-144 | A head that points at a node pointing at itself, as after merging an empty list, is the head of no ring |
| DList.GetCount | include/utils/hdf_dlist.h:147-156 | The loop ends and counts the nodes |
| DList.Forward | include/utils/hdf_dlist.h:203-206 | The forward traversal visits every node once, in order |
| DList.Backward | include/utils/hdf_dlist.h:209-212 | The backward traversal visits the nodes of the forward one in reverse |
| PowerOrder.SuspendReversesResume | core/manager/src/devmgr_service.c:258-295 | For every tree the visits of a suspend are those of a resume in reverse, through all three levels |
| PowerOrder.StepKeepsOrder | core/manager/src/devmgr_service.c:211-246 | Host start, failed start, service attach and driver load, successful or not, keep every level listed in the order of creation |
| PowerOrder.PowerFollowsTheRun | core/manager/src/devmgr_service.c:258-295 | After every run of these steps, a resume visits exactly the nodes with a power token below an attached host, each once, ordered by host start, then device creation, then node attach; a suspend visits them in reverse |
| PowerOrder.FailedLoadIsHarmless | core/host/src/devhost_service.c:105-109 | A driver that fails to load leaves the power change as it was if and only if no node with a power token had been added to the same device before; otherwise these nodes are no longer visited |
| PowerOrder.FailedLoadTakesOthers | core/host/src/devhost_service.c:62-109 | A run from the start in which a loaded node is visited, until a second driver of its device is not found, and no more after that |
| PowerTree.HdfDevice.Attach | core/host/src/hdf_device.c:21-37 | Returns what the launch returned; a launched node becomes the last of its device, and one that fails to launch is not listed |
| PowerTree.HdfDevice.ApplyPowerState | core/host/src/devhost_service.c:163-191 | On the ring: the nodes with a token are called in order for the states 0 and 2, and in reverse for any other, whatever the callbacks return, and the result is success |
| PowerTree.DevHostService.FindDevice | core/host/src/devhost_service.c:22-36 | The device with the id, or null when there is none |
| PowerTree.DevHostService.QueryOrAddDevice | core/host/src/devhost_service.c:46-60 | An existing device is returned; a new one becomes the last created, or null is returned if it cannot be allocated |
| PowerTree.DevHostService.FreeDevice | core/host/src/devhost_service.c:38-44 | Exactly this device leaves the list, and the others stay as they are |
| PowerTree.DevHostService.AddDevice | core/host/src/devhost_service.c:62-109 | Every outcome with its code: the node is attached to the device of its id, which is created if need be; after any failure that device is unlinked, with all nodes it had; every other device stays as it is |
| PowerTree.DevHostService.PmNotify | core/host/src/devhost_service.c:193-219 | On the ring, which lists the newest device first: for the states 0 and 2 devices are woken in order of creation, for any other put to sleep in reverse |
| PowerManager.DevmgrService.StartHost | core/manager/src/devmgr_service.c:231-236 | The host is listed last, before its service exists |
| PowerManager.DevmgrService.StartFailed | core/manager/src/devmgr_service.c:238-242 | A host that could not be started leaves the list, and the others stay as they are |
| PowerManager.DevmgrService.FindDeviceHost | core/manager/src/devmgr_service.c:102-118 | The first host with the id, or null when there is none |
| PowerManager.DevmgrService.InstallDriver | core/manager/src/devhost_service_clnt.c:19-51 | The loop over the linked list loads, below its host, exactly the drivers that are not disabled and, in quick load, not left for the second step, in order, and goes on after a failure |
| PowerManager.DevmgrService.AttachDeviceHost | core/manager/src/devmgr_service.c:188-209 | The first host with the id gets its service, and the drivers that its configuration lists for it are loaded one after the other, by priority; without such a host or without a service nothing changes and the call fails |
| PowerManager.DevmgrService.StartDeviceHost | core/manager/src/hdf_driver_installer.c:17-31 | The service attaches itself to the manager and loads its drivers, or cannot be allocated and the start fails |
| PowerManager.DevmgrService.StartOne | core/manager/src/devmgr_service.c:229-243 | One round of the start loop on the ring is the run of its steps |
| PowerManager.DevmgrService.AddDevice | core/host/src/devhost_service.c:62-109 | A driver loaded below one host, successfully or not, changes that host as specified and leaves the other hosts as they are |
| PowerManager.DevmgrService.PowerStateChange | core/manager/src/devmgr_service.c:258-295 | On the nested rings: the states 0 and 2 call the callbacks of a resume, 1 and 3 those of a suspend, in its order, and the result is success whatever they return; a state from 4 on is refused without a call |
| HashTable.MapHash | utils/src/hdf_map.c:34-43 | The loop computes the seed-131 hash modulo 2^32 and clears the top bit, for either signedness of characters |
| HashTable.HashIsPolynomial | utils/src/hdf_map.c:34-43 | The hash is the polynomial in 131 over the characters, signed or not, modulo 2^32 and with the top bit cleared |
| HashTable.MaskIsRemainder | utils/src/hdf_map.c:45-48 | Masking with a power of two less one is the remainder |
| HashTable.TableSizeIsPower | utils/src/hdf_map.c:153-156 | Every table size is a power of two, at least 8 |
| HashTable.NextIsTableSize | utils/src/hdf_map.c:153-156 | The next size is four times the last, until it leaves 32 bits and becomes zero, exactly after 2^31 |
| HashTable.MapAddNode | utils/src/hdf_map.c:50-55 | The node is in the chain of its hash; no other node moves to another bucket, is lost or doubled |
| HashTable.Rehash | utils/src/hdf_map.c:74-86 | All nodes are in the new table, each in the bucket of its hash, none lost or doubled, and each was moved once |
| HashMap.Map.MapResize | utils/src/hdf_map.c:57-92 | The represented map and the set of nodes stay the same, as many nodes are relinked as there are, and the table has the new size; a failed allocation changes nothing |
| HashMap.Map.Find | utils/src/hdf_map.c:133-152 | Finds the node of a key if and only if the map binds it |
| HashMap.Map.MapSet | utils/src/hdf_map.c:119-167 | Refines the finite map and the account of what a run costs, and with numbers: refusals above 1000 bytes, size mismatch, update in place, insertion, growth, and failed allocations; all invariants of the table are kept |
| MapRuns.SetInNumbers | utils/src/hdf_map.c:119-167 | The codes of a set, its effect on the bindings, when the table grows, to 8 buckets or fourfold, and what that relinks |
| HashMap.Map.MapGet | utils/src/hdf_map.c:169-192 | Finds the value bound to the key, if and only if there is one |
| HashMap.Map.MapErase | utils/src/hdf_map.c:194-226 | Removes exactly this binding; the two failure codes tell an empty map from a missing key |
| HashMap.Map.MapDelete | utils/src/hdf_map.c:239-263 | The map is empty and has no table; every node it held is freed exactly once |
| HashTable.FreeAll | utils/src/hdf_map.c:247-256 | The nested loops free every node of every chain once, in order |
| HashMap.Map.PerformAll | utils/src/hdf_map.c:119-263 | Over every sequence of set, get, erase and delete, every answer is that of the finite map, and table size, relinked nodes and insertions are those that the operations determine; if every table asked for is allocated, there are no more nodes than buckets, and 3 times the relinked nodes is at most 4 times the inserted keys |
| MapRuns.BooksAreRight | utils/src/hdf_map.c:153-164 | The two counts are the number of operations that bound a new key and the sum of the table's nodes over the operations that grew it |
| MapRuns.AmortisedGrowth | utils/src/hdf_map.c:153-164 | In every run from an empty map in which every table asked for is allocated, after every operation: no more nodes than buckets, and 3 times the relinked nodes is at most 4 times the inserted keys |
| MapRuns.GrowthIsPaidFor | utils/src/hdf_map.c:153-156 | A resize keeps the bound on relinked nodes and makes room |
| SbufFormat.NumberComesBack | utils/src/hdf_sbuf_impl_raw.c:248-286 | The bytes of a number give the number back |
| SbufFormat.AlignIsMultiple | utils/src/hdf_sbuf_impl_raw.c:44-47 | Sizes are rounded up to the next multiple of four, below the wrap at 64 bits |
| SbufFormat.AppendHolds | utils/src/hdf_sbuf_impl_raw.c:183-221 | What one write adds to the memory adds one chunk to what it decodes to, whatever the padding holds |
| SbufFormat.QueueGrows | utils/src/hdf_sbuf_impl_raw.c:288-317 | What a typed write adds to the memory adds one item to the queue |
| SbufFormat.QueueFront | utils/src/hdf_sbuf_impl_raw.c:359-416 | The first item is at the front of the memory, and behind it is the rest of the queue |
| SbufLayout.QueueLayout | utils/src/hdf_sbuf_impl_raw.c:183-317 | Every item starts at four times the number of words before it: a number lowest byte first, a buffer behind its length, a string behind its length and before its NUL |
| SbufLayout.QueueSize | utils/src/hdf_sbuf_impl_raw.c:183-317 | A queue fills four bytes for each of its words |
| SbufLayout.WriteInWords | utils/src/hdf_sbuf_impl_raw.c:183-317 | A write that succeeds moves the position by four times the words of its item; it succeeds if that much is left, and in memory of somebody else only then |
| SbufLayout.RoomMeans | utils/src/hdf_sbuf_impl_raw.c:144-211 | When a chunk finds room in memory of up to 512 KB, and to how many bytes the memory grows for it |
| SbufLayout.NoRoomAbove | utils/src/hdf_sbuf_impl_raw.c:144-211 | Memory above 512 KB never grows |
| SbufLayout.LengthMeans | utils/src/hdf_sbuf_impl_raw.c:359-416 | A length is a 32-bit number with a sign, lowest byte first |
| SbufLayout.ReadingMeans | utils/src/hdf_sbuf_impl_raw.c:319-416 | What every typed read returns and consumes for any bytes, matching or not, negative and oversized lengths included |
| Sbuf.RoomFits | utils/src/hdf_sbuf_impl_raw.c:183-211 | Although sizes are cut to 32 bits on the way, whatever passes the checks fits, and owned memory stays within its limit |
| Sbuf.RoomWhenAllowed | utils/src/hdf_sbuf_impl_raw.c:183-211 | A write has room when it fits behind what was written, or when owned memory may grow by it and by the default step within 512 KB |
| Sbuf.HdfSBufRaw.constructor | utils/src/hdf_sbuf_impl_raw.c:509-534 | An empty owned buffer within the limit |
| Sbuf.HdfSBufRaw.Bind | utils/src/hdf_sbuf_impl_raw.c:545-569 | The bytes of the caller, all unread |
| Sbuf.HdfSBufRaw.Grow | utils/src/hdf_sbuf_impl_raw.c:144-181 | Succeeds exactly under the checks; what was written stays; owned memory stays within 512 KB |
| Sbuf.HdfSBufRaw.Write | utils/src/hdf_sbuf_impl_raw.c:183-221 | Succeeds exactly when there is room; then the bytes follow what was written, and the position moves by their number rounded up to a multiple of four; a failure changes nothing that was written; the capacity afterwards is determined in both cases |
| Sbuf.HdfSBufRaw.Read | utils/src/hdf_sbuf_impl_raw.c:223-246 | Takes the next bytes and moves by their number rounded up to a multiple of four, or fails and leaves the position |
| Sbuf.HdfSBufRaw.WriteNumber | utils/src/hdf_sbuf_impl_raw.c:248-286 | A typed write of a number is atomic and adds its bytes |
| Sbuf.HdfSBufRaw.ReadNumber | utils/src/hdf_sbuf_impl_raw.c:319-357 | A typed read of a number takes its bytes or nothing |
| Sbuf.HdfSBufRaw.WriteBuffer | utils/src/hdf_sbuf_impl_raw.c:288-307 | Atomic: the length and the bytes, or, if either fails, everything as before; succeeds exactly when both fit |
| Sbuf.HdfSBufRaw.WriteString | utils/src/hdf_sbuf_impl_raw.c:309-317 | As a buffer with the NUL, whose length is cut to 32 bits |
| Sbuf.HdfSBufRaw.ReadBuffer | utils/src/hdf_sbuf_impl_raw.c:359-389 | Finds the place and size of a buffer, or restores the position when it reaches out of range |
| Sbuf.HdfSBufRaw.ReadString | utils/src/hdf_sbuf_impl_raw.c:391-416 | Finds a string of at most 32767 bytes and ends it with a NUL; a longer one restores the position; a length that is not positive is consumed |
| Sbuf.HdfSBufRaw.SetDataSize | utils/src/hdf_sbuf_impl_raw.c:111-121 | Truncates what was written, within the capacity only |
| Sbuf.HdfSBufRaw.Flush | utils/src/hdf_sbuf_impl_raw.c:123-130 | Nothing is written and nothing to read |
| Sbuf.HdfSBufRaw.Copy | utils/src/hdf_sbuf_impl_raw.c:418-439 | An independent buffer with the same written bytes, read from the start |
| Sbuf.HdfSBufRaw.Move | utils/src/hdf_sbuf_impl_raw.c:441-464 | The memory changes hands; the old buffer has none left |
| Sbuf.HdfSBufRaw.TransDataOwnership | utils/src/hdf_sbuf_impl_raw.c:466-474 | The limit of owned memory holds afterwards if and only if the bound memory was within it |
| SbufQueue.ReadingTheFront | utils/src/hdf_sbuf_impl_raw.c:359-416 | A read that matches the first item of the queue returns that item and leaves the others |
| SbufQueue.Perform | utils/src/hdf_sbuf_impl_raw.c:183-416 | One typed operation on the memory is one operation on the queue; a write succeeds exactly when capacity, fill, ownership and allocator let it |
| SbufQueue.PerformAll | utils/src/hdf_sbuf_impl_raw.c:183-416 | Over every sequence of typed writes and matching reads, every write succeeds exactly when there is room after those before it, every read returns the oldest item not yet read, and the memory holds exactly the others, across any number of growths; positions that were multiples of four stay so over every sequence, matching or not |
| EventFrames.PackageComesBack | model/input/driver/event_hub.c:27-40 | A package in memory gives its four fields back |
| EventFrames.PackageLayout | model/input/driver/event_hub.h:22-27 | Type, code and value in the first three words, and the time from byte 16 on, lowest byte first |
| EventFrames.ReportEndsFrame | model/input/driver/event_hub.c:54 | Only a synchronisation with the report code ends a frame; one with the code of a contact report does not |
| EventHub.InputDevice.WriteOrFlush | model/input/driver/event_hub.c:40-44 | A buffer is written exactly when it fits; otherwise the memory is emptied, with the write position at zero, and the frame marked as bad |
| EventHub.InputDevice.PushOnePackage | model/input/driver/event_hub.c:25-70 | One push changes the current frame, the failure flag and the frames sent as specified, where the outcome of each write is what the buffer and the allocator give; counter, flag and buffer after it in numbers, and exactly when a frame is sent; the next frame starts clean |
| EventFrames.PiecesMakeTheRun | model/input/driver/event_hub.c:54-68 | The pieces between reports partition what was pushed |
| EventFrames.PiecesEndWithReports | model/input/driver/event_hub.c:54-68 | Every piece ends with a report and has no other, and since the last report there has been none |
| EventFrames.ViewIsPieces | model/input/driver/event_hub.c:25-70 | Over every run the frames sent are exactly the pieces that end with a report, had no failed write, and are shorter than the limit |
| EventFrames.OnlyLongFramesAreLost | model/input/driver/event_hub.c:37-68 | While allocations succeed, for every buffer and every limit: a device sends a frame if and only if it has fewer packages than the limit and fits, with its end, into what the buffer can become |
| EventFrames.OwnedLimit | utils/src/hdf_sbuf_impl_raw.c:144-181 | Owned memory can become as large as 512 KB, up to one step of 256 bytes and the alignment |
| EventFrames.LimitInSteps | utils/src/hdf_sbuf_impl_raw.c:144-181 | From a capacity in whole words the memory can grow to the last step of 256 bytes within 512 KB |
| EventHub.InputDevice.PushAll | model/input/driver/event_hub.c:25-70 | On the buffer, for every run and every answer of the allocator: the frames sent are exactly the good pieces, where a write counts as failed exactly when it has no room; each holds the packages of its piece and a terminator, and a receiver that reads it gets exactly these packages, and nothing is left |
| EventHub.ReadFrame | model/input/driver/event_hub.c:15-23 | A receiver that reads buffers until one that is no package gets what the memory decodes to, for any memory |
| EventFrames.FrameIsReceived | model/input/driver/event_hub.c:15-48 | From a memory that holds a frame and its terminator, the receiver gets the packages of the frame, and nothing is left |
| Esd.StepKeepsInv | model/display/driver/hdf_disp.c:157-202 | Every power call and every step of the worker, split at the lock, keeps the invariant |
| Esd.TimerAndRecoverySafety | model/display/driver/hdf_disp.c:410-494 | In every interleaving a timer exists exactly while the check runs, which is only while the panel is on; no timer is created twice or deleted when absent; recoveries happen only while the panel is on |
| Esd.AtMostTenRecoveries | model/display/driver/hdf_disp.c:431-458 | At most ten recoveries happen in one power-on period, and the counter never passes ten, although it is read and written outside the lock |
| Esd.SwitchedOffAfterTen | model/display/driver/hdf_disp.c:445-458 | When the worker is about to switch the check off it has cleared the counter, and in a period that started clean ten recoveries have happened; the switch-off deletes the timer |
| Esd.RecoveriesInAPeriod | model/display/driver/hdf_disp.c:410-459 | When the panel is switched on in any reachable state, the check is switched off later in the period only after ten recoveries less what the counter and the worker carry over, and that can come about |
| Esd.TenInAPeriod | model/display/driver/hdf_disp.c:410-459 | The check is sure to be switched off only after ten recoveries of the period if and only if the panel is switched on with a zero counter and the worker idle, past a failed check, or before the comparison |
| Esd.SwitchOffClears | model/display/driver/hdf_disp.c:481-494 | In every reachable state a successful switch-off of a panel with support leaves the counter at zero, the check ended and no timer |
| Esd.NextPeriodIsClean | model/display/driver/hdf_disp.c:410-494 | After a switch-off and until the worker moves, the next period is sure to be switched off only after ten recoveries if and only if the worker was idle, past a failed check, or before the comparison |
| Esd.OnlyTheWorkerEndsIt | model/display/driver/hdf_disp.c:445-458 | While the panel is not switched off, only the last step of the worker ends the check |
| Esd.TenRecoveries | model/display/driver/hdf_disp.c:431-443 | The bound is reached |
| Esd.SwitchedOffTooEarly | model/display/driver/hdf_disp.c:445-458 | A run from the initial state that switches the check off in a period without any recovery |
| Esd.Panel.SetDispPower | model/display/driver/hdf_disp.c:157-202 | The section under the lock, and its result code, field by field: what a switch-on and a switch-off do to state, timer and counter, and that any other call changes nothing |
| Esd.Panel.RecoverPanel | model/display/driver/hdf_disp.c:433-441 | The section under the lock recovers only while the check is running |
| Esd.Panel.DisableCheck | model/display/driver/hdf_disp.c:447-457 | The section under the lock deletes the timer only while the check is running |
| Observer.BeforeThePublish | core/host/src/hdf_service_observer.c:38-83 | Since the record was removed last, if ever, and before a publish every subscriber is pending and has been called by nobody |
| Observer.SinceIsTheEnd | core/host/src/hdf_service_observer.c:115-131 | What is kept of a run is its end, behind the last removal of the record |
| Observer.RemovalForgets | core/host/src/hdf_service_observer.c:115-131 | In every run the record of a key depends only on what has happened since it was removed last |
| Observer.AfterThePublish | core/host/src/hdf_service_observer.c:85-113 | After one publish since the last removal, which subscribers are ready and what each was given, for every order and policy |
| Observer.OrderDoesNotMatter | core/host/src/hdf_service_observer.c:38-113 | A service published once since the last removal and not private is given exactly once to every subscriber since then with a callback, who ends ready, whether it subscribed before or after |
| Observer.EverySubscriberIsGiven | core/host/src/hdf_service_observer.c:38-113 | In every run, however often the key is published: which services each subscriber since the last removal has been given, in order |
| Observer.PrivateServices | core/host/src/hdf_service_observer.c:108-111 | A private service is kept from a subscriber of another device if and only if it subscribed before the publish or nobody had |
| Observer.PrivateServiceGivenAway | core/host/src/hdf_service_observer.c:38-113 | A run in which a subscriber of another device is given a private service, since it subscribes after the publish and somebody had before |
| Observer.HdfServiceObserver.Search | core/host/src/hdf_observer_record.c:43-54 | The first record with the key |
| Observer.HdfServiceObserver.SubscribeService | core/host/src/hdf_service_observer.c:38-83 | The record of the key gets the subscriber, ready and called at once if there is a service and its record lets it; the records of other keys stay as they are; failures change nothing |
| Observer.HdfServiceObserver.NotifySubscribers | core/host/src/hdf_observer_record.c:56-78 | Exactly the subscribers that match are ready and called, once each |
| Observer.HdfServiceObserver.PublishService | core/host/src/hdf_service_observer.c:85-113 | The record of the key is created with device and policy, or gets the service and its subscribers are notified while device and policy stay; the records of other keys stay as they are |
| Observer.HdfServiceObserver.RemoveRecord | core/host/src/hdf_service_observer.c:115-131 | Exactly the record of the key is gone |
| WakeLock.StepKeepsInv | utils/src/hdf_sref.c:14-56 | Every acquire, release and change of mode keeps the invariant, unless it counts past 32 bits, which makes the count negative |
| WakeLock.NegativeMeansOverflow | utils/src/hdf_sref.c:14-56 | The count stays non-negative in a run if and only if no acquire counts past 32 bits |
| WakeLock.FollowsUnlessOverflow | core/host/src/power_state_token.c:16-57 | From every state that satisfies the invariant: the device follows its references at every point of a run if and only if no acquire counts past 32 bits |
| WakeLock.WakeLockTraces | core/host/src/power_state_token.c:16-57 | In every run resumes and suspends take turns, unmatched releases included; the device is active exactly while there are references, at every point of the run, if and only if no acquire counts past 32 bits |
| WakeLock.CountIsLargestExcess | utils/src/hdf_sref.c:14-56 | In every run that cannot overflow: the count is the largest excess of acquires over releases in dynamic mode, over all ends of the run |
| WakeLock.EdgeOfStep | core/host/src/power_state_token.c:16-124 | In such a run, which steps resume and suspend: an acquire when nothing is held, and a release after which nothing is held, unless a suspend was the last call |
| WakeLock.BoundedMeansFits | utils/src/hdf_sref.c:14-29 | No acquire counts past 32 bits if and only if no excess is more than the counter can hold |
| WakeLock.HeardInTurns | core/host/src/power_state_token.c:16-57 | A listener with both callbacks hears them in turns |
| WakeLock.CountCanOverflow | utils/src/hdf_sref.c:14-29 | A run that makes the count negative |
| WakeLock.PowerStateToken.AcquireWakeLock | core/host/src/power_state_token.c:93-104 | The acquire of the token is the acquire step; in numbers, one reference more in dynamic mode, and a resume at the first one |
| WakeLock.PowerStateToken.ReleaseWakeLock | core/host/src/power_state_token.c:106-124 | The release of the token is the release step; in numbers, one reference less in dynamic mode, never below zero from zero, and a suspend at zero unless inactive |
| WakeLock.PowerStateToken.HdfPmSetMode | core/host/src/hdf_device_object.c:106-120 | Changes the mode only to a valid one, and nothing else |
| WakeLock.PowerStateToken.PerformAll | core/host/src/power_state_token.c:16-124 | A sequence of calls is the run of its steps; from a new token the count is the largest excess of acquires over releases |

## Left out

- LooperOrder.ConservationAndOrder: an enqueue is one step here; `LooperRuns` has the runs in which senders are interrupted between stamping, inserting and posting.
- LooperRuns.StepKeepsInv: a message is enqueued once in a run; `MessageQueue.Queue.Enqueue` says what becomes of the queue when it is enqueued again while it is queued.
- LooperRuns.NoLostWakeUp: says nothing about steps of senders after the looper has destroyed the queue, when the C code works on freed memory.
- SListTraversal.Traverse: the loop body is a script of insertions and removals of the current node; a node that is linked already is not inserted again, which `SList.Iterator.Insert` covers for one insertion.
- SListTraversal.Flush: a deleted node is not modelled as freed, and the delete callback as a sequence of the nodes it gets.
- PowerTree.DevHostService.AddDevice: the memory of a device that is unlinked after a failure is not modelled as freed.
- PowerManager.DevmgrService.AttachDeviceHost: what a driver, its launch and the allocator answer to each load is an argument, and so is whether its node has a power token; a service that attaches has no devices yet. The number of drivers that a client notes is left out.
- PowerOrder.PowerFollowsTheRun: detaching a node on request, and removing a host while the system runs, are not steps of the runs.
- PowerTree.HdfDevice.ApplyPowerState: the callbacks themselves are values; they do not change the lists while these are traversed.
- DeviceBoot.ActiveDevice: the lookup by service name is left out.
- HashMap.Map.MapSet: requires that a table can be allocated when there is none and a node is, because the C code ignores the failure and follows a null pointer; nodes are counted without the wrap at 2^32 of them.
- HostStart.StartDeviceHosts: which clients and services can be had is an argument; the process of a host is started in place, as `hdf_driver_installer.c` does, and other installers are left out.
- DeviceBoot.LoadLeftDriver: the list of drivers of a host without any, which is null, and on which the C code starts no iterator, is left out; the hosts are a sequence, and their ring is `PowerManager`.
- HashMap.Map.MapGet: returns the value; the C code returns a pointer through which the caller could change it.
- Sbuf.HdfSBufRaw.Write: sizes have 64 bits, of which addresses use 63; numbers are stored lowest byte first; what a refused `memcpy_s` leaves behind the write position is not modelled, and memory of size zero is never allocated.
- Sbuf.HdfSBufRaw.ReadBuffer: a negative length between -3 and -1 is accepted as in the C code, with a size outside the memory; the queue results cover reads that match what was written.
- SbufQueue.PerformAll: strings have at most 32767 bytes with their NUL and no other NUL, and a null buffer is the empty one, since both are written alike.
- EventHub.InputDevice.PushOnePackage: the time of a package is an argument, and `HdfDeviceSendEvent` is a note of the bytes it gets. `EventHub.ReadFrame` stands for a receiver, which is not in the file.
- Esd.TimerAndRecoverySafety: creating and starting a timer succeeds, as the C code supposes by ignoring the results; several panels share only the lock.
- Observer.OrderDoesNotMatter: each call is one step, and a key stands for all names with the same hash.
- WakeLock.StepKeepsInv: an acquire is one step, although the C code reads the counter after it has counted; callbacks do not acquire or release.
- Arguments that the C code compares with null and refuses are left out wherever a null has no meaning of its own.
- Allocation failures are flags that the callers of the model choose.
- Mutexes appear as sections that nothing interrupts, semaphores as counters, threads as the interleaving of steps.
- The blocking queue, the ordered list, the object allocator and the block buffer of `utils/src` are not part of this model.
- The platform, audio, network and sensor interfaces, the HCS compiler, and the user-space side are not part of this model.

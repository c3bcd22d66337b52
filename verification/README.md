# FINS-Framework: a Dafny model of its core

FINS is a user-space network stack. A kernel module, the *wedge*, catches socket calls, sends them over
netlink to the *daemon* of the stack, parks the calling thread and hands it the daemon's reply. The stack
itself is a set of modules that exchange *frames* along configured links. This project models the parts of
that machinery on which everything else rests and proves what they promise, for every interleaving, every
run or every input. `dafny verify dfyconfig.toml` checks it.

| files | what is modelled |
|---|---|
| `WedgeProtocol`, `WedgeProofs`, `WedgeTheorems`, `WedgeReturns`, `WedgeWakes`, `WedgeSockets`, `WedgeThreads`, `WedgeRaces`, `WedgeCodes`, `WedgeRollover`, `WedgeAttribution` | the call table and the socket table of the wedge as a transition system in which callers, signals, the daemon and the delivery of replies interleave at every access of shared memory; its invariants and main theorems |
| `WedgeTables` | the two tables as arrays changed in place, proved against the steps of that system |
| `Netlink`, `NetlinkProofs` | `nl_send`, the daemon's reassembly loop, and the two together |
| `Iovec`, `Sendmsg` | gathering a message from the caller's buffers, reading the request in the daemon, and scattering a reply into the buffers |
| `ThreadPool`, `ThreadPoolProofs`, `ThreadPoolTheorems`, `ThreadPoolShutdown` | the thread pool as a transition system, its invariants and main theorems |
| `ThreadPoolObjects` | the pool, its workers and its two linked lists as objects, proved against the steps of that system |
| `ListOrder`, `LinkedLists` | the doubly linked list library, on the heap |
| `Frames`, `FrameQueue` | frames, the ring buffer behind every queue, and its teardown |
| `Routing`, `RoutingRuns`, `StackConfig` | flow tables, table updates, sending along a flow, and start-up from a configuration |
| `Interfaces` | the ordered interface list of libpcap and the default device |

Transition systems have the same shape everywhere: `State`, `Action`, `Enabled`, `Apply`, and
`IsRun(trace, acts)` for a finite schedule. An invariant is proved for one step and then along every run.
The classes and methods beside them are the imperative code; their contracts say that they take exactly the
steps of the system.

## Where the code and its intent differ

The model does what the code does. Each place below where that is not what the surrounding code or comments
intend has a lemma or method with a concrete run or input, and one that says exactly when the intended
property holds.

* A caller reads its reply without holding `wedge_calls_sem`, so a signal can wake it in the middle of a
  fill. `MisledIffAtRisk` says at which moments it can then see something other than the reply,
  `WrongCodeIffAtRisk` at which moments its return value can be wrong; `RefusedCallReturnsSuccess` is a run
  in which a refused `socket()` returns 0.
* `call_count` wraps, takes the value that marks a free slot, and then hands out call_ids again.
  `InsertKeepsOwnershipIff` and `InsertKeepsAttributedIff` say which insertions keep slots exclusive and
  replies with the caller they are for, `RunIsAttributedIff` says it for whole runs; `RolloverSharesASlot` and
  `LateReplyReachesNewCall` are the runs in which it goes wrong.
* `wedge_sockets_insert` zeroes the counters of an entry that a purge freed while calls were in flight on it.
  `OpenKeepsCountsIff`, `RestartMiscounts`.
* `pool_shutdown` can lose accepted jobs, loaded or queued, and can make the branch marked "shouldn't be
  possible" reachable. `StoppedJobFate`, `AfterShutdown`, `IdleWorkersAreFound`; `ShutdownCanLoseAcceptedJob`,
  `QueuedJobNeverRuns`, `ShutdownReachesImpossibleBranch`.
* The daemon starts its buffer afresh at every part 0, so parts that came before are lost.
  `OrderDeliversIff`, `EarlyPartIsLost`.
* After a send that broke off, the daemon ignores every message of another length. `AfterBrokenSend`,
  `ShortMessageIsLost`.
* The branch of `list_join` in which only some nodes fit does not raise `len`. `Join`, `JoinMiscounts`.
* `list_split` computes index + 1 in 32 bits. `Split`, `SplitRunsOff`.
* `Prev` leaves the array at 0, because C rounds towards zero. `PrevWrapsIff`, `EnqueueFront`,
  `SecondEnqueueFrontLeavesArray`.
* `Dequeue` leaves the pointer in its cell, where the teardown of the then empty queue finds it, and a frame
  queued twice is freed twice. `TeardownFreesQueuedIff`, `DequeuedFrameIsFreed`, `QueuedTwiceFreedTwice`.
* `fins_sendmsg` writes a negative name length without a name, and the daemon then reads outside the message.
  `DaemonReadsWhatWedgeWrote` has both cases, every negative length and every other.
* The scatter loop of `fins_recvmsg` stops short of the control length when the data did not fit. `Scatter`,
  `OneByteTooMany`.
* `module_set_param_flows` searches the link list even if there is none. `SetParamFlows`, `ServeAll`,
  `FlowsBeforeLinks`.
* `module_set_param_dual` takes over whatever records the message caches. `SetParamDual`,
  `ForeignRecordIsCached`.

## Model

| member | source | states |
|---|---|---|
| `WedgeTheorems.CallerSeesItsOwnReply` | trunk/execs/wedge/fins_stack_wedge.c:1035-1126 | In every interleaving a caller that ends with an answer got the ret, msg and buf of the daemon's reply to the request it sent itself, unless it read while its slot was at risk; no two callers have the same call_id |
| `WedgeTheorems.SentWasAnswered` | trunk/execs/wedge/fins_stack_wedge.c:667-708 | Whatever reply is on record for a call_id was given by an earlier step of the daemon to a request with that call_id |
| `WedgeTheorems.ReplyReachesOnlyItsCaller` | trunk/execs/wedge/fins_stack_wedge.c:667-708 | A reply in flight names a slot of the table; it is filled in if and only if the caller that sent the request still holds that slot, which has no reply yet; a late reply changes no slot, even if someone else holds it by then |
| `WedgeTheorems.SlotsAreExclusive` | trunk/execs/wedge/fins_stack_wedge.c:89-115 | In every interleaving an occupied slot has exactly one caller behind it, records that caller's call type and socket, and has a call_id of its own, and an insertion fails if and only if MAX_CALLS callers hold slots |
| `WedgeReturns.ReturnsWhatWasAnswered` | trunk/execs/wedge/fins_stack_wedge.c:334-356 | In every interleaving a call that ended with an answer it did not read while its slot was at risk returns what the daemon's answer to its own request calls for: msg (as a signed 32-bit number) on ACK without data, -1 on ACK with data, minus msg on NACK, -1 on any other ret |
| `WedgeReturns.ReturnsWithoutAnswer` | trunk/execs/wedge/fins_stack_wedge.c:1035-1126 | In every interleaving a call that ended without an answer returned -12 after it met a full table, -1 after its request was not sent, or -4 after it woke and found its reply flag clear |
| `WedgeReturns.RetIsClearUntilWritten` | trunk/execs/wedge/fins_stack_wedge.c:667-708 | In every interleaving ret in a caller's slot is 0 until the fill of its own reply writes it |
| `WedgeWakes.DeliveredReplyWakes` | trunk/execs/wedge/fins_stack_wedge.c:667-708 | In every interleaving a waiting caller whose reply flag is set and whose slot is not being filled can pass its semaphore |
| `WedgeWakes.EndOfFillWakes` | trunk/execs/wedge/fins_stack_wedge.c:703-703 | In every interleaving the end of a fill lets the waiting caller of the slot pass its semaphore, also when kmalloc failed |
| `WedgeWakes.WakeLasts` | trunk/execs/wedge/fins_stack_wedge.c:1097-1113 | A caller that can wake still can after any steps of anybody else |
| `WedgeWakes.WokenByItsReply` | trunk/execs/wedge/fins_stack_wedge.c:1097-1113 | On a run without removals a caller can wake only after the daemon answered it and the fill of the answer ended |
| `WedgeSockets.InUseIff` | trunk/execs/wedge/fins_stack_wedge.c:186-268 | In every interleaving an entry is in use for a socket if and only if it was opened for it and not freed since, by a purge, by the end of a release or by the end of a socket() whose answer was not success; it is open to calls if and only if, besides, no release of it has begun |
| `WedgeSockets.RegistersOnOpenEntry` | trunk/execs/wedge/fins_stack_wedge.c:1019-1033 | In every interleaving a call finds its socket if and only if some entry is open for it in that sense, and registers on the first such entry |
| `WedgeProofs.StepKeeps` | trunk/execs/wedge/fins_stack_wedge.c:984-1127 | Every step of a caller, of the daemon, of a fill, of a signal and of the socket table keeps the invariant that ties slots, callers, requests, replies and the fill in progress to each other |
| `WedgeProofs.RunKeeps` | trunk/execs/wedge/fins_stack_wedge.c:984-1127 | Hence the invariant holds in every state of every schedule in which at most 2^32 - 1 call_ids have been handed out |
| `WedgeProofs.CallStepKeepsOther` | trunk/execs/wedge/fins_stack_wedge.c:1035-1126 | A step of one caller leaves what every other caller knows about the table true |
| `WedgeProofs.TableStepKeepsCaller` | trunk/execs/wedge/fins_stack_wedge.c:667-708 | No answer, fill step or spurious wake-up makes what a caller knows about the table false |
| `WedgeThreads.ThreadsCountCallsInFlight` | trunk/execs/wedge/fins_stack_wedge.c:1019-1033 | In every interleaving in which sockets are opened on quiet entries, threads[t] of every entry in use is the number of calls of type t in flight on it |
| `WedgeThreads.OpenKeepsCountsIff` | trunk/execs/wedge/fins_stack_wedge.c:186-213 | Opening a socket keeps those counters right if and only if no call is in flight on the entry chosen |
| `WedgeThreads.RestartMiscounts` | trunk/execs/wedge/fins_stack_wedge.c:270-311 | A run with a purge during a socket call and a second socket call ends with a wrong counter |
| `WedgeRaces.MisledIffAtRisk` | trunk/execs/wedge/fins_stack_wedge.c:1097-1113 | A woken caller that sees its reply flag can come to read something other than the daemon's reply, by some continuation, if and only if its slot is then in a fill whose outstanding writes matter |
| `WedgeRaces.SafeStep` | trunk/execs/wedge/fins_stack_wedge.c:1097-1113 | A woken caller whose answer is settled, or that read its reply flag when it was, stays so under every step of anybody |
| `WedgeCodes.WrongCodeIffAtRisk` | trunk/execs/wedge/fins_stack_wedge.c:334-356 | A woken caller that sees its reply flag can come to return something other than the daemon's answer calls for, by some continuation, if and only if its slot is in a fill and ret, len and msg read at some later moments of that fill, in the order of checkConfirmation, give another code |
| `WedgeCodes.StaysOnCourse` | trunk/execs/wedge/fins_stack_wedge.c:667-708 | For a caller that is not at risk every step of anybody keeps it certain which code it will return |
| `WedgeRaces.RefusedCallReturnsSuccess` | trunk/execs/wedge/fins_stack_wedge.c:817-982 | For every errno there is a run in which the daemon refuses a socket call with it and the call returns 0 |
| `WedgeRollover.InsertKeepsOwnershipIff` | trunk/execs/wedge/fins_stack_wedge.c:89-115 | An insertion keeps slots and callers in one-to-one correspondence if and only if the table is full or no slot, free ones included, carries the next call_id |
| `WedgeRollover.RolloverSharesASlot` | trunk/execs/wedge/fins_stack_wedge.c:1035-1046 | There is a run, past 2^32 - 1 calls, at whose end two callers hold the same slot |
| `WedgeAttribution.InsertKeepsAttributedIff` | trunk/execs/wedge/fins_stack_wedge.c:89-115 | An insertion keeps slots exclusive and messages with their callers if and only if the table is full or no slot, request or reply in flight carries the next call_id |
| `WedgeAttribution.RunIsAttributedIff` | trunk/execs/wedge/fins_stack_wedge.c:1035-1126 | On a run of any length this holds in every state if and only if no insertion reuses a call_id that something carries |
| `WedgeAttribution.ReplyIsToItsSender` | trunk/execs/wedge/fins_stack_wedge.c:667-708 | On such a run of any length a reply that nl_data_ready is about to write into a slot is the daemon's answer to the request the holder of the slot sent, given after it was sent |
| `WedgeAttribution.LateReplyReachesNewCall` | trunk/execs/wedge/fins_stack_wedge.c:667-708 | A run on which a reply that stayed in flight for 2^32 calls is written into the slot of a caller that did not exist when the daemon gave it |
| `WedgeTables.CallArray.constructor` | trunk/execs/wedge/fins_stack_wedge.c:75-87 | All slots are free and zero and call_count is 0: the initial state of the system |
| `WedgeTables.CallArray.Insert` | trunk/execs/wedge/fins_stack_wedge.c:89-115 | The first free slot is taken, msg and buf in it staying as they were, and nothing else changes; -1 and no change if there is none |
| `WedgeTables.CallArray.NewCall` | trunk/execs/wedge/fins_stack_wedge.c:1035-1046 | Taking call_count, raising it with wrap-around and inserting is the Insert step of the system, on the table and on the caller |
| `WedgeTables.CallArray.Find` | trunk/execs/wedge/fins_stack_wedge.c:117-132 | The first slot of this socket and call type, or -1 if there is none |
| `WedgeTables.CallArray.Deliver` | trunk/execs/wedge/fins_stack_wedge.c:667-708 | The body under wedge_calls_sem is the fill steps of the system one after the other; with a slot that carries the call_id this sets the body, raises the semaphore by one and sets the flag, or, when kmalloc fails, leaves the buffer NULL and the flag clear; any other reply changes nothing |
| `WedgeTables.SocketArray.constructor` | trunk/execs/wedge/fins_stack_wedge.c:173-184 | All entries are free: the initial state of the system |
| `WedgeTables.SocketArray.Insert` | trunk/execs/wedge/fins_stack_wedge.c:186-213 | The first free entry is taken with all counters zero; -1 and no change if there is none |
| `WedgeTables.SocketArray.Find` | trunk/execs/wedge/fins_stack_wedge.c:215-229 | The first entry with this id that is not being released, or -1 if there is none |
| `Netlink.NlSend` | trunk/execs/wedge/fins_stack_wedge.c:503-561 | The loop sends the parts of the message in order, all of them and 0, or those before the first that fails and -1 |
| `NetlinkProofs.PartsTile` | trunk/execs/wedge/fins_stack_wedge.c:503-547 | The parts are numbered from 0, fit the receive buffer, carry the bytes they say, cover every position of the message exactly once, and only the last has the NLMSG_DONE type of section 2.3.2 of RFC 3549 |
| `Netlink.DaemonLoop` | trunk/modules/daemon/daemon.c:1086-1226 | The loop with its variables computes the receiver function on every stream of parts and of netlink's own NOOP, ERROR and OVERRUN messages |
| `NetlinkProofs.AnyOrderRebuilds` | trunk/modules/daemon/daemon.c:1185-1192 | Placing the parts by their positions, in any order and any number of times, gives the message once every part has been placed |
| `NetlinkProofs.ArrivalOutcome` | trunk/modules/daemon/daemon.c:1086-1226 | Whatever arrives of a message before its last part, in whatever order and number, the daemon delivers the message with zeros for the parts that did not arrive after the last arrival of part 0, and nothing without part 0 |
| `NetlinkProofs.OrderDeliversIff` | trunk/modules/daemon/daemon.c:1086-1226 | An order that ends with the only arrival of the last part delivers every message of that many parts if and only if every other part arrives after the last arrival of part 0 |
| `NetlinkProofs.EarlyPartIsLost` | trunk/modules/daemon/daemon.c:1176-1192 | In the order 1, 0, 2 the message is delivered with zeros in place of part 1 |
| `NetlinkProofs.DaemonReceivesWhatWedgeSent` | trunk/modules/daemon/daemon.c:1086-1226 | For every list of messages sent one after the other the daemon hands on exactly these, in order, and ends idle |
| `NetlinkProofs.NoiseIsIgnored` | trunk/modules/daemon/daemon.c:1086-1226 | A NOOP, ERROR or OVERRUN message anywhere in the stream changes neither the messages handed on nor the receiver's final state |
| `NetlinkProofs.AfterBrokenSend` | trunk/execs/wedge/fins_stack_wedge.c:523-532 | After a send that broke off within a message the next one gets through if and only if it has the same length; otherwise the receiver does not change at all |
| `NetlinkProofs.ShortMessageIsLost` | trunk/modules/daemon/daemon.c:1145-1152 | After a message of two parts broken off after the first, a message that fits one part is lost and the daemon stays as it is |
| `Iovec.DataLength` | trunk/execs/wedge/fins_stack_wedge.c:1879-1883 | The sum of the lengths modulo 2^32 |
| `Iovec.CopyData` | trunk/execs/wedge/fins_stack_wedge.c:1930-1947 | The buffers' bytes follow the header in order, as many as the lengths say; refused if and only if some buffer with a length is NULL |
| `Iovec.BuildSendmsg` | trunk/execs/wedge/fins_stack_wedge.c:1879-1958 | Refused if and only if a buffer with a length is NULL; write error if and only if none is and the true size does not fit 32 bits; otherwise header, fields and the gathered data |
| `Sendmsg.DaemonReadsWhatWedgeWrote` | trunk/modules/daemon/daemon_out.c:818-861 | sendmsg_out reads out of the bytes of a request exactly the flags, name, control and data that fins_sendmsg wrote if the name length is not negative, and reads outside the message if it is |
| `Iovec.PiecesArePrefix` | trunk/execs/wedge/fins_stack_wedge.c:2226-2262 | The pieces given to the buffers make up the longest prefix of the data that fits |
| `Iovec.ScatterUndoesGather` | trunk/execs/wedge/fins_stack_wedge.c:2226-2262 | Scattering gathered data into buffers of the same lengths gives the original buffers |
| `Iovec.GatheredIsJoin` | trunk/execs/wedge/fins_stack_wedge.c:1930-1947 | Gathering from non-NULL buffers is their concatenation |
| `Iovec.FillBuffers` | trunk/execs/wedge/fins_stack_wedge.c:2226-2262 | The loop gives each buffer its piece in order and stops when the data or the buffers are used up |
| `Iovec.Scatter` | trunk/execs/wedge/fins_stack_wedge.c:2226-2262 | Each buffer starts with its piece and is otherwise as it was; the pointer moves past all of the data if and only if it fits the buffers |
| `Iovec.OneByteTooMany` | trunk/execs/wedge/fins_stack_wedge.c:2257-2269 | With one byte more than the buffers take, the pointer is one byte short of the control length |
| `ThreadPoolTheorems.EveryJobInOnePlace` | trunk/libs/common/finsthreads.c:234-276 | At every moment of every schedule an accepted job is in exactly one of the queue, one worker's hands, the finished and the dropped jobs, any other job nowhere; workers get jobs in the order of acceptance; none is dropped while no worker has been stopped |
| `ThreadPoolTheorems.AcceptedIff` | trunk/libs/common/finsthreads.c:234-276 | In every schedule pool_execute accepts if and only if some worker is running and inactive, whose first then gets the job, or no worker is inactive and the queue is shorter than its limit, whose end it then joins; otherwise nothing changes |
| `ThreadPoolTheorems.GivenWorkerWakes` | trunk/libs/common/finsthreads.c:14-36 | In every schedule a waiting worker can pass its semaphore if and only if it has a job in hand or has been posted by shutdown |
| `ThreadPoolTheorems.TurnAtTheTop` | trunk/libs/common/finsthreads.c:14-36 | In every schedule a worker at the top of its loop is counted inactive and waits on an empty queue, takes the oldest job if it runs, and exits with the queue as it was if not |
| `ThreadPoolTheorems.IdleWorkersAreFound` | trunk/libs/common/finsthreads.c:234-276 | inactive_num counts the flagged workers and is positive only with an empty queue; a job goes only to a parked worker with empty hands; the branch marked impossible is taken if and only if some worker is flagged and all flagged ones have been stopped |
| `ThreadPoolTheorems.StoppedWorkerExits` | trunk/libs/common/finsthreads.c:72-80 | From the post of worker_shutdown on a worker takes at most five more steps, enters at most the call it was committed to, and at each moment has exited or can step; it never blocks on activate_sem |
| `ThreadPoolShutdown.StoppedJobFate` | trunk/libs/common/finsthreads.c:72-80 | When worker_shutdown is called on a worker with a job in hand and the worker has exited, the job was dropped if and only if the worker was then waiting or just woken, and was run if and only if it was past the test of running |
| `ThreadPoolShutdown.FateOfLoaded` | trunk/libs/common/finsthreads.c:10-47 | At every moment of every schedule a job is dropped, or held by a stopped worker that will drop it, if and only if a worker loaded with it was stopped before |
| `ThreadPoolShutdown.AfterShutdown` | trunk/libs/common/finsthreads.c:303-311 | When all workers have exited, an accepted job was run if and only if it is not in the queue and no worker loaded with it was stopped; what is in the queue is what was accepted last |
| `ThreadPoolShutdown.QueuedJobNeverRuns` | trunk/libs/common/finsthreads.c:303-311 | A run after which an accepted job is neither run nor dropped but left in the queue, all workers having exited |
| `ThreadPoolShutdown.ShutdownCanLoseAcceptedJob` | trunk/libs/common/finsthreads.c:72-80 | A run in which an accepted job is dropped and its worker exits |
| `ThreadPoolShutdown.ShutdownReachesImpossibleBranch` | trunk/libs/common/finsthreads.c:303-311 | A run after which pool_execute takes the branch marked impossible |
| `ThreadPoolProofs.StepKeeps` | trunk/libs/common/finsthreads.c:10-47 | Every step of workers, pool_execute and shutdown keeps the invariant on flags, semaphore counts, queue, histories and the place of every job |
| `ThreadPoolProofs.RunKeeps` | trunk/libs/common/finsthreads.c:196-228 | It holds after pool_create and pool_start and so in every state of every schedule |
| `ThreadPoolObjects.PoolCreate` | trunk/libs/common/finsthreads.c:196-228 | A started pool, its workers in the linked list in order, is the initial state of the system |
| `ThreadPoolObjects.Pool.FindInactive` | trunk/libs/common/finsthreads.c:230-240 | The walk along the worker list finds the first worker that is running and inactive, if any |
| `ThreadPoolObjects.Pool.Execute` | trunk/libs/common/finsthreads.c:234-276 | pool_execute on the two linked lists is the Execute step; it reports success if and only if this job became the last accepted one, and otherwise nothing changed |
| `ThreadPoolObjects.Pool.WorkerTop` | trunk/libs/common/finsthreads.c:14-36 | The block under inactive_sem is the Top step: park, take the front of the request list, or exit |
| `ThreadPoolObjects.Pool.CallWork` | trunk/libs/common/finsthreads.c:42-42 | The function and argument called are those that pool_execute was given for the job in the worker's hand |
| `ThreadPoolObjects.Pool.WorkerShutdown` | trunk/libs/common/finsthreads.c:72-80 | Clearing running and posting activate_sem are the two shutdown steps |
| `LinkedLists.ChainedDistinct` | trunk/libs/common/finstypes.c:137-149 | Nodes linked by next with prev as its mirror form no cycle: no node occurs twice |
| `LinkedLists.LinkedList.constructor` | trunk/libs/common/finstypes.c:137-149 | A new list is empty and well formed |
| `LinkedLists.LinkedList.Prepend` | trunk/libs/common/finstypes.c:152-170 | One new node in front, the old nodes unchanged behind it; well formed unless the length wraps |
| `LinkedLists.LinkedList.Append` | trunk/libs/common/finstypes.c:173-192 | One new node at the end, the old nodes unchanged before it; well formed unless the length wraps |
| `LinkedLists.LinkedList.RemoveFront` | trunk/libs/common/finstypes.c:330-356 | The first node goes and its data is returned; NULL on an empty list |
| `LinkedLists.LinkedList.Remove` | trunk/libs/common/finstypes.c:359-401 | The node of the first occurrence goes, all other nodes stay in order; no change if there is none |
| `LinkedLists.LinkedList.Find` | trunk/libs/common/finstypes.c:797-838 | The first data the test accepts, or NULL |
| `LinkedLists.LinkedList.FilterClone` | trunk/libs/common/finstypes.c:1069-1110 | A new list with the clones of exactly the accepted data, in order |
| `LinkedLists.PickedByPosition` | trunk/libs/common/finstypes.c:1069-1110 | The data copied are those at the positions at which the test holds, all of them and in order |
| `LinkedLists.LinkedList.Clone` | trunk/libs/common/finstypes.c:580-597 | A new list with the clones of all data, in order |
| `LinkedLists.LinkedList.RemoveAll` | trunk/libs/common/finstypes.c:407-454 | In place: the list keeps the nodes the test rejects, the result has the nodes it accepts, both in order and well formed |
| `LinkedLists.ChosenInterleave` | trunk/libs/common/finstypes.c:407-454 | The two lists interleaved by the test's answers are the original list, node for node |
| `LinkedLists.LinkedList.Join` | trunk/libs/common/finstypes.c:600-663 | Exactly the nodes that fit move, in order; the result says whether all did; the list is well formed afterwards if and only if all fitted and their number fits 32 bits, or there was no space at all |
| `LinkedLists.JoinMiscounts` | trunk/libs/common/finstypes.c:627-656 | A list of maximum 2 with one node, joined with two, ends with two nodes and length 1 |
| `LinkedLists.LinkedList.Split` | trunk/libs/common/finstypes.c:666-696 | The nodes after the index move to the result, the others stay, both lists well formed; it runs off the end if and only if the index is 2^32 - 1 and the list not empty |
| `LinkedLists.SplitRunsOff` | trunk/libs/common/finstypes.c:671-682 | It does so on a list with one node |
| `LinkedLists.LinkedList.SplitThenJoin` | trunk/libs/common/finstypes.c:600-696 | Splitting anywhere and joining again gives back the list node for node if it respected its maximum |
| `LinkedLists.LinkedList.Add` | trunk/libs/common/finstypes.c:703-791 | The pointer code puts, refuses or gives up exactly as the specification on sequences does, for any comparer; well formed unless the length wraps |
| `ListOrder.AddIsScan` | trunk/libs/common/finstypes.c:703-791 | On a sorted list the shortcuts at front and end give what a plain scan gives |
| `ListOrder.AddKeepsSorted` | trunk/libs/common/finstypes.c:703-791 | A sorted list stays sorted and gains exactly the new element, or is unchanged when an equal one is there |
| `ListOrder.NoPlaceIff` | trunk/libs/common/finstypes.c:703-791 | The exit for an unreachable place is taken if and only if the comparer answers -1 or 0 nowhere and something other than 1 at the end, on sorted and unsorted lists |
| `Frames.CloneFinsFrame` | trunk/libs/common/finstypes.c:1348-1392 | The clone has the same kind, destination, metadata and payload bytes and shares no memory |
| `FrameQueue.SuccWraps` | trunk/libs/data_structure/queue.c:73-80 | Succ goes round the ring |
| `FrameQueue.PrevWrapsIff` | trunk/libs/data_structure/queue.c:82-89 | Prev stays in the array if and only if it does not start at 0 |
| `FrameQueue.Queue.constructor` | trunk/libs/data_structure/queue.c:36-60 | An empty ring, all cells NULL |
| `FrameQueue.Queue.Enqueue` | trunk/libs/data_structure/queue.c:91-102 | The frame goes behind the last, or nothing changes on a full queue; cells outside the window stay NULL if they were |
| `FrameQueue.Queue.EnqueueFront` | trunk/libs/data_structure/queue.c:104-115 | The frame goes before the first; nothing changes on a full queue; the index is outside the array if and only if the queue is not full and front is 0; cells outside the window stay NULL if they were |
| `FrameQueue.Queue.FrontAndDequeue` | trunk/libs/data_structure/queue.c:137-153 | The first frame is taken out and its cell cleared; NULL on an empty queue; cells outside the window stay NULL if they were |
| `FrameQueue.Queue.Dequeue` | trunk/libs/data_structure/queue.c:127-135 | The first frame leaves the window but stays in its cell |
| `FrameQueue.Queue.TerminateFinsQueue` | trunk/libs/data_structure/finsqueue.c:26-123 | Wrapped or not, the frames in the cells from front to rear are freed in order, which on an empty queue is the whole ring; 1 if and only if their number is the queue's size |
| `FrameQueue.TeardownFreesQueuedIff` | trunk/libs/data_structure/finsqueue.c:26-123 | Exactly the queued frames are freed, each exactly once, if and only if no frame is queued twice and the queue is not empty or no cell holds a pointer left behind |
| `FrameQueue.BuildAndTerminate` | trunk/libs/data_structure/finsqueue.c:26-123 | After any operations on a new queue the teardown frees exactly the frames of the bounded double-ended sequence, in order, and returns 1, in both layouts; each once if and only if they are distinct; the operations stay in the array if and only if EnqueueFront is called only with front not 0 or a full queue |
| `FrameQueue.QueuedTwiceFreedTwice` | trunk/libs/data_structure/finsqueue.c:26-123 | A frame queued twice is freed twice, and the result is 1 |
| `FrameQueue.SecondEnqueueFrontLeavesArray` | trunk/libs/data_structure/queue.c:104-115 | The second EnqueueFront on a new queue computes the index -1 |
| `FrameQueue.DequeuedFrameIsFreed` | trunk/libs/data_structure/queue.c:127-135 | Enqueue, Dequeue and teardown free a frame that was no longer queued and return 0 |
| `Routing.FinsModule.SetParamFlows` | trunk/libs/data_structure/finsmodule.c:286-319 | Each flow in use gets the id asked for and the record a search of the current list finds; no change if there are too many; the search is made on NULL if and only if there are flows to set and no list |
| `Routing.FinsModule.SetParamLinks` | trunk/libs/data_structure/finsmodule.c:321-347 | The list is replaced, the old one freed, and every flow in use keeps its id and caches what the new list holds for it |
| `Routing.FinsModule.SetParamDual` | trunk/libs/data_structure/finsmodule.c:349-389 | List and flows are taken over and the old list is lost unfreed; the flows are coherent afterwards if and only if they were in the message |
| `Routing.FinsModule.ReadParamDual` | trunk/libs/data_structure/finsmodule.c:447-487 | A fresh copy of the list, and flows that cache records of the copy and lead where the module's flows lead |
| `Routing.FinsModule.SendFlow` | trunk/libs/data_structure/finsmodule.c:241-284 | One frame per destination is enqueued in the ring buffer, second to last and then first, equal in content to the original, the copies fresh and no two sharing a payload; the record followed is in the current list and not freed; nothing on a flow that leads nowhere |
| `RoutingRuns.Serve` | trunk/libs/data_structure/finsmodule.c:286-389 | Any one table update keeps every flow in use on the record a search of the current list finds, and says when the module has a list |
| `RoutingRuns.ServeAll` | trunk/libs/data_structure/finsmodule.c:286-389 | Any sequence of updates from a new module on runs into a search on NULL if and only if flows are set before the first list; otherwise every flow in use then caches what a search of the current list finds, and no cached record has been freed |
| `RoutingRuns.ServeThenSend` | trunk/libs/data_structure/finsmodule.c:241-389 | A send after any such sequence goes to the destinations of the first record of the current list with the flow's id, which has not been freed, and nowhere if there is none |
| `RoutingRuns.FlowsBeforeLinks` | trunk/libs/data_structure/finsmodule.c:286-302 | Setting a flow on a new module searches NULL |
| `RoutingRuns.ForeignRecordIsCached` | trunk/libs/data_structure/finsmodule.c:360-369 | A dual message with an empty list and a flow that caches some other record is accepted, and the flow leads to that record's destinations |
| `RoutingRuns.CopyTable` | trunk/libs/data_structure/finsmodule.c:447-487 | A table read from a module and set in a module makes every flow lead where it led; it is accepted if and only if there was a list and the second has enough flows |
| `StackConfig.FindModule` | trunk/execs/core/core.c:815-824 | The loop leaves the greatest index at which a module has the id, or none if no module has it |
| `StackConfig.ModuleIndexUnique` | trunk/execs/core/core.c:815-824 | With unique ids the index found for an id is i if and only if module i has that id |
| `StackConfig.ResolveLink` | trunk/execs/core/core.c:780-859 | A link is refused if and only if its source or one of its destinations is the id of no module; otherwise its ids are replaced by indices of modules with these ids, in order |
| `StackConfig.BuildLinks` | trunk/execs/core/core.c:780-859 | The link list, in order, if and only if every id named is that of some module and the links are not too many |
| `StackConfig.ResolveAllIff` | trunk/execs/core/core.c:780-859 | The links resolve if and only if every source and destination id is that of some module, and then link by link to indices of modules with these ids |
| `StackConfig.IndicesNameModules` | trunk/execs/core/core.c:826-839 | The indices a link gets are those of modules with the ids it names, in order |
| `StackConfig.RoutedAsConfigured` | trunk/execs/core/core.c:870-914 | Searching a module's own list for a flow's link finds the destinations of the first configured link with that id and this source, or none |
| `StackConfig.FirstLinkById` | trunk/execs/core/core.c:870-914 | With unique ids that link is the first in the configuration with this id and this module's id as source |
| `StackConfig.ConfiguredByIds` | trunk/execs/core/core.c:870-914 | With unique ids a flow leads to the modules that the first link with its id and this module as source names, in order, and nowhere without such a link |
| `StackConfig.ForeignLinkLeadsNowhere` | trunk/execs/core/core.c:870-914 | With unique ids a flow that names only other modules' links leads nowhere |
| `StackConfig.StartModule` | trunk/execs/core/core.c:870-914 | A module's table leads each of its flows where the links of this source say |
| `StackConfig.StartUp` | trunk/execs/core/core.c:727-914 | Start-up succeeds if and only if flows and links are not too many and every id the links name is that of some module, and then every module follows the configuration |
| `StackConfig.SendAsConfigured` | trunk/libs/data_structure/finsmodule.c:241-284 | A send on a flow of a started module puts out one frame per destination of the configured link, in the order second to last and then first, with no shared payload; nothing if there is no such link |
| `Interfaces.GetInstance` | trunk/libs/pcap/inet.c:103-127 | The loop finds the number that starts at the first digit of the name, 0 without a digit, and the largest int for the name any |
| `Interfaces.InstanceIsNumber` | trunk/libs/pcap/inet.c:103-127 | For a name of non-digits, digits and anything the number is the one the digits denote in decimal, 0 without digits, and the largest int for any |
| `Interfaces.IfList.AddOrFind` | trunk/libs/pcap/inet.c:140-353 | The pointer code puts in one new entry with this device, the others staying in order, if the name is not listed and the device can be opened; otherwise it leaves the list alone |
| `Interfaces.NameListedIff` | trunk/libs/pcap/inet.c:140-208 | After any additions to an empty list a name is listed if and only if some addition of that name could be opened |
| `Interfaces.ListedIff` | trunk/libs/pcap/inet.c:140-208 | A device is listed if and only if it is that of the first addition of its name that could be opened |
| `Interfaces.NamesOnce` | trunk/libs/pcap/inet.c:140-208 | No name is listed twice |
| `Interfaces.InOrderOfAdding` | trunk/libs/pcap/inet.c:255-353 | Devices of the same kind and number are listed in the order in which they were added |
| `Interfaces.AddedKeepsOrder` | trunk/libs/pcap/inet.c:255-353 | An addition keeps the list ordered: no loopback before another device, by instance number within each kind |
| `Interfaces.IfList.LookupDev` | trunk/libs/pcap/inet.c:562-583 | The first entry's name, or failure on an empty list or a loopback in front |
| `Interfaces.LookupFindsLeast` | trunk/libs/pcap/inet.c:562-583 | After any additions to an empty list the default device is missing if and only if no non-loopback device is listed, and otherwise has the least instance number of these |
| `Interfaces.LookupAfter` | trunk/libs/pcap/inet.c:562-583 | After any additions the look-up fails if and only if every first openable addition of a name is a loopback; otherwise it names the other one with the least number, and of several with this number the one added first |

## How the wedge is modelled

* `wedge_calls_sem` and `wedge_sockets_sem` sections are split where other threads look without the lock: a
  fill is six steps (reply flag, ret, msg, len, buf, release), a caller's read is five.
  Sections nobody looks into are one step.
* A wait on a slot can end by the post of a fill or by a signal; an extra post of any slot is a step of the
  system, which is also what the socket removals do to the calls they wake.
* `down_interruptible` on the two table semaphores is taken to succeed; the code ignores its failure.
* The daemon may answer any request at any time, with any body, at most once, and may never answer.
* kmalloc failure for a reply's buffer and failure to send a request are nondeterministic.

## Left out

- WedgeTheorems.CallerSeesItsOwnReply: holds while at most 2^32 - 1 call_ids have been handed out since the module was loaded; for longer runs `WedgeAttribution` says exactly when replies still go only to the callers they are for, but not what a caller reads of them.
- WedgeTheorems.ReplyReachesOnlyItsCaller: the bound check on call_index in nl_data_ready lets MAX_CALLS through; replies outside the table are excluded because every reply in flight is proved to be inside it.
- WedgeThreads.ThreadsCountCallsInFlight: only for schedules that open sockets on quiet entries, which `OpenKeepsCountsIff` shows to be needed.
- Netlink.DaemonLoop: parts whose header contradicts their contents, and messages that NLMSG_OK rejects, are not modelled.
- NetlinkProofs.AfterBrokenSend: a failed send makes the wedge forget the daemon's pid, so there is a next message only once the daemon has registered again; the registration itself is not modelled.
- Iovec.BuildSendmsg: bytes written past the allocated size before the write error is noticed are not modelled.
- Sendmsg.DaemonReadsWhatWedgeWrote: a name longer than the daemon's address buffer is not distinguished, and what is read outside the message is not modelled.
- Iovec.Scatter: the user's buffers are distinct and copy_to_user succeeds.
- LinkedLists.LinkedList.Join: in the branch where only some nodes fit, the model cuts them off before it hangs them behind the list, where the code does it the other way round.
- FrameQueue.Queue.constructor: capacity below 2 is excluded; CreateQueue then complains but goes on, with a front outside the array.
- FrameQueue.Queue.EnqueueFront: what the write outside the array does is not modelled.
- Routing.FinsModule.SetParamFlows: nothing after a search on NULL is modelled.
- Routing.FinsModule.SendFlow: -1 stands for the exit of the process on a full queue.
- StackConfig.StartUp: the update messages that carry the tables are taken as delivered; destination and flow counts are within the arrays that hold them.
- Interfaces.GetInstance: atoi on a number too large for an int is not modelled.
- The removal loops over calls and sockets in the wedge as they stand: their lock is not balanced on all paths, so only their effects, freeing entries and waking callers without a reply, are steps of the system.
- fins_ioctl and fins_getsockopt return early on some paths without freeing the slot; fins_poll, fins_accept's second socket and fins_socketpair are not modelled, nor are the kernel's own locks and reference counts.
- controller_thread of the pool, which is never started, and pool_free.
- list_insert, list_find_last, list_check and the list_free functions.
- serializeCtrlFrame and unserializeCtrlFrame; metadata is a map.
- Capturer, console, configuration files, dynamic loading of modules, timers, the protocol modules and the prototypes.

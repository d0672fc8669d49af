# oac-tree-server: publishing, user input, names and event forwarding

oac-tree-server runs sequencer jobs and shows them to remote clients as named values. This
project models, in Dafny, the part of it where things can go wrong quietly:

* **Names** (`Naming`, `ValueSets`, `Namespace`, `Automation`). Names of values are composed on the
  server from a prefix, a job index and a kind, and parsed again on the client. The parser is
  characterised exactly, composed names can be taken apart again, and a whole server with any
  number of jobs and shared managers never registers a name twice, which is why its code can drop
  the results of all registrations.
* **Publishing** (`UpdateQueue`, `ValueManager`, `UpdateMachine`, `PublishMachine`). A growing index of
  names over many servers, each with a queue, a worker that swaps out whole batches, and an exit
  command. As classes the operations are proved against functions on command sequences; as
  machines the interleavings are shown to refine one plain map.
* **User input** (`InputRequests`, `InputMachine`, `InputCalls`, `ReplyDelegator`, `DelegatorMachine`). Threads that
  ask for input, clients that reply and threads that interrupt, over condition variables that are
  notified after unlocking.
* **Forwarding** (`Codecs`, `IndexGeneration`, `ClientManager`, `Forwarding`, `ServerJob`, `EntryMachine`,
  `Callers`, `Convergence`, `ManyThreads`). A job's events are named, encoded and handed to a value manager; what the
  client's job interface sees is determined exactly, both with the client's manager directly behind
  the job and for a client that reads what many jobs on one EPICS manager publish. The link is the
  job's program: the requests that construction and calls lead to, which `ServerJob` proves the manager
  to receive from the job and which the callers in `Convergence` make in the concurrent manager.
  `ManyThreads` lets several threads report on each job.

The machines are labelled transition systems. A step is one critical section, one notification or
one action of a thread on its own data; the set of threads is unbounded, unlocking and notifying
are separate steps and wake-ups may be spurious. A run is a sequence of labels, and `Exec` gives the
state it leads to if every step was possible; the theorems are about all runs. The classes and the
machines share the functions that describe one critical section (`Replied`, `Interrupted`, `Taking`,
`UntilExit`, `Apply` and so on), so that both talk about the same behaviour. Where a class method
stands for a loop around a condition variable, it is one pass of that loop and reports whether the
caller sleeps.

Three statements in the headers do not hold of the code, and the model follows the code:

* `AddAnyValues` of the client's manager is not all-or-nothing (`i_anyvalue_io.h:57-63`).
  `ClientManager.RepeatedNameStaysRegistered` is a list on which it is not, and
  `ClientManager.FailureLeavesPrefix` says when a failure does leave everything unchanged.
* `AddInputHandler` of the EPICS manager can fail and keep the handler (`i_anyvalue_io.h:65-71`).
  `ValueManager.TakenChannelKeepsHandler` is a call that does so, and the contract of
  `ValueManager.EPICSAnyValueManager.AddInputHandler` says exactly when it happens.
* An interrupt that comes before the initialisation of its request is lost
  (`i_anyvalue_manager.h:81-82`). `InputMachine.EarlyInterruptIsLost` is a run that shows it, and
  `InputMachine.WaitOutcome` says that interrupts work if and only if they come later.

## Model

| member | source | states |
|---|---|---|
| `Naming.EndsWithExact` | src/lib/sup/oac-tree-server/base/oac_tree_protocol.cpp:352-356 | the search from the right finds the end of the string exactly when the string ends with the given text |
| `Naming.ToString` | src/lib/sup/oac-tree-server/base/oac_tree_protocol.cpp:130-148 | the decimal numeral of a number has digits only and no leading zero |
| `Naming.ToStringOfDigitsValue` | src/lib/sup/oac-tree-server/base/oac_tree_protocol.cpp:369-372 | a numeral without superfluous zeros is what its value is printed as |
| `Naming.ParseIndexExact` | src/lib/sup/oac-tree-server/base/oac_tree_protocol.cpp:358-379 | an index is accepted if and only if the text is what that 32 bit number is printed as, however lenient the library's number parser is about signs, spaces, zeros and trailing text |
| `Naming.ParseIndexNumeral` | src/lib/sup/oac-tree-server/base/oac_tree_protocol.cpp:358-379 | an index is accepted if and only if the text is a non-empty string of digits, zero not in front of others, with that value |
| `Naming.NamesOnTheWire` | src/lib/sup/oac-tree-server/base/oac_tree_protocol.cpp:130-178 | each of the names that appear on the network for a job, spelled out |
| `Naming.PostfixesExclusive` | src/lib/sup/oac-tree-server/base/oac_tree_protocol.cpp:230-248 | no name ends in two of the five postfixes, so their order in the table does not matter |
| `Naming.ParseInvertsPrint` | src/lib/sup/oac-tree-server/base/oac_tree_protocol.cpp:135-178 | parsing inverts all seven name builders for every prefix that is not empty; with an empty prefix it yields the unknown name |
| `Naming.KnownNameIsPrinted` | src/lib/sup/oac-tree-server/base/oac_tree_protocol.cpp:228-270 | every name that parses as known is a builder's output behind some non-empty prefix |
| `Naming.ParseExact` | src/lib/sup/oac-tree-server/base/oac_tree_protocol.cpp:228-270 | a name parses as a kind and index if and only if it is that kind's printed name behind a non-empty prefix |
| `Naming.InputNamesAreUnknown` | src/lib/sup/oac-tree-server/base/oac_tree_protocol.cpp:150-158 | input servers and their request channels never parse as a value of a job |
| `Naming.RecoverInverts` | src/lib/sup/oac-tree-server/base/oac_tree_protocol.cpp:130-178 | server prefix, job index, kind and index can be read back from any composed name by splitting at the last colon and then at the last dash, whatever the server prefix contains |
| `Naming.ComposedNamesInjective` | src/lib/sup/oac-tree-server/base/oac_tree_protocol.cpp:130-178 | two composed names coincide only if server prefix, job index, kind and index coincide |
| `Naming.NameInInjective` | src/lib/sup/oac-tree-server/base/oac_tree_protocol.cpp:135-178 | under one prefix, the empty one included, different values, input server and request channel have different names |
| `IndexGeneration.IndexGenerator.NewIndex` | src/lib/sup/oac-tree-server/base/index_generator.cpp:43-51 | the k-th call returns ((k - 1) mod (2^64 - 1)) + 1, zero being skipped on wrap-around; up to 2^64 - 1 that is k |
| `IndexGeneration.FirstIndices` | src/lib/sup/oac-tree-server/base/index_generator.cpp:43-51 | the first 2^64 - 1 indices are 1, 2, 3 and so on, and then they start again |
| `IndexGeneration.IndicesDistinct` | src/lib/sup/oac-tree-server/base/index_generator.cpp:43-51 | indices are never zero and coincide exactly when issued a multiple of 2^64 - 1 apart |
| `ValueSets.GetNames` | src/lib/sup/oac-tree-server/base/i_anyvalue_io.cpp:38-47 | the set of all names that occur in the list |
| `ValueSets.GetInitialValueSet` | src/lib/sup/oac-tree-server/base/i_anyvalue_io.cpp:49-72 | the loop builds the five fixed values and one per variable, in order |
| `ValueSets.GetInstructionValueSet` | src/lib/sup/oac-tree-server/base/i_anyvalue_io.cpp:74-84 | the loop builds one value per instruction, in order |
| `ValueSets.InitialNames` | src/lib/sup/oac-tree-server/base/i_anyvalue_io.cpp:49-72 | the initial names are pairwise different and are exactly the names of the fixed kinds and of the variables below the count |
| `ValueSets.InstructionNames` | src/lib/sup/oac-tree-server/base/i_anyvalue_io.cpp:74-84 | instruction names are pairwise different and are exactly those of the indices below the count |
| `ValueSets.NameCount` | src/lib/sup/oac-tree-server/epics/epics_anyvalue_manager.cpp:147-151 | comparing the number of different names with the number of pairs detects exactly the duplicates |
| `ValueManager.EPICSAnyValueManager.ValidateNameValueSet` | src/lib/sup/oac-tree-server/epics/epics_anyvalue_manager.cpp:145-161 | accepts a set if and only if its names are pairwise different and none of them is known |
| `ValueManager.EPICSAnyValueManager.AddAnyValues` | src/lib/sup/oac-tree-server/epics/epics_anyvalue_manager.cpp:127-143 | all or nothing, with the exact condition; on success one new server owns exactly the new names, and the servers keep partitioning the index |
| `ValueManager.EPICSAnyValueManager.RegisterHandler` | src/lib/sup/oac-tree-server/epics/epics_anyvalue_manager.cpp:56-66 | the first critical section: a handler that is new is there at once, and a known one changes nothing |
| `ValueManager.EPICSAnyValueManager.RegisterChannel` | src/lib/sup/oac-tree-server/epics/epics_anyvalue_manager.cpp:67-76 | the second critical section: it succeeds if and only if the channel's name is free by then, and then adds exactly that name with the idle value |
| `ValueManager.EPICSAnyValueManager.AddInputHandler` | src/lib/sup/oac-tree-server/epics/epics_anyvalue_manager.cpp:54-78 | with nothing in between: the exact condition of success, the names and handlers afterwards, and when a failure leaves the handler behind |
| `ValueManager.EPICSAnyValueManager.AddInputHandlerInterleaved` | src/lib/sup/oac-tree-server/epics/epics_anyvalue_manager.cpp:54-78 | with any registration by another thread between the critical sections: the exact condition of success, and that the handler stays whenever the channel's name was taken before or in between |
| `ValueManager.TakenChannelKeepsHandler` | src/lib/sup/oac-tree-server/epics/epics_anyvalue_manager.cpp:63-75 | on a manager that has the request channel's name as a value the call fails and the handler stays |
| `ValueManager.EPICSAnyValueManager.UpdateAnyValue` | src/lib/sup/oac-tree-server/epics/epics_anyvalue_manager.cpp:80-90 | succeeds if and only if the name is known; the one server that has the name gets the encoded update at the end of its queue and no other queue changes |
| `ValueManager.EPICSAnyValueManager.StartUserInput` | src/lib/sup/oac-tree-server/epics/epics_anyvalue_manager.cpp:92-107 | with handler and channel present the handler's monitor is initialised for the id and the encoded request is queued on the request channel; otherwise nothing changes |
| `ValueManager.EPICSAnyValueManager.FinishUserInput` | src/lib/sup/oac-tree-server/epics/epics_anyvalue_manager.cpp:108-116 | when the wait is over the idle value is queued on the request channel and the accepted reply or the invalid one is returned; otherwise nothing changes |
| `ValueManager.EPICSAnyValueManager.Interrupt` | src/lib/sup/oac-tree-server/epics/epics_anyvalue_manager.cpp:118-125 | only the monitor of the named input server changes, and an unknown name changes nothing |
| `UpdateQueue.AnyValueUpdateQueue.Push` | src/lib/sup/oac-tree-server/epics/anyvalue_update_queue.cpp:38-45 | one update more at the end of the queue |
| `UpdateQueue.AnyValueUpdateQueue.PushExit` | src/lib/sup/oac-tree-server/epics/anyvalue_update_queue.cpp:47-54 | one exit command more at the end of the queue |
| `UpdateQueue.AnyValueUpdateQueue.PopCommands` | src/lib/sup/oac-tree-server/epics/anyvalue_update_queue.cpp:65-73 | returns the whole queue in order and leaves it empty |
| `UpdateQueue.ProcessCommandQueue` | src/lib/sup/oac-tree-server/epics/anyvalue_update_queue.cpp:75-89 | publishes exactly the commands in front of the first exit, in order, tells whether there was an exit and leaves what is behind it |
| `UpdateQueue.EPICSServer.UpdateAnyValue` | src/lib/sup/oac-tree-server/epics/epics_server.cpp:46-50 | queues the update in its wire form |
| `UpdateQueue.EPICSServer.UpdateLoop` | src/lib/sup/oac-tree-server/epics/epics_server.cpp:52-70 | for every sequence of arrivals and every way of cutting it into batches, the served values are the initial ones updated by what precedes the first exit, and the loop exits if and only if an exit arrived |
| `UpdateMachine.StepView` | src/lib/sup/oac-tree-server/epics/epics_server.cpp:46-70 | batch in progress and queue folded over the served values change only by a push in front of any exit; all steps of the worker are stutters |
| `UpdateMachine.Conservation` | src/lib/sup/oac-tree-server/epics/anyvalue_update_queue.cpp:38-89 | in every run the commands consumed, the batch and the queue strung together are the commands pushed, and the served values are the initial ones updated by the consumed ones |
| `UpdateMachine.DrainingShutdown` | src/lib/sup/oac-tree-server/epics/epics_server.cpp:41-44 | in every run what was applied is a prefix of what was pushed in front of the first exit, and all of it once the worker has exited |
| `UpdateMachine.WorkerTerminates` | src/lib/sup/oac-tree-server/epics/epics_server.cpp:60-69 | once an exit is queued the worker takes at most a computed number of further steps, whatever is pushed meanwhile |
| `UpdateMachine.WorkerDrains` | src/lib/sup/oac-tree-server/epics/epics_server.cpp:64-69 | without further pushes the worker has caught up after at most a computed number of its own steps, wherever it was, and it stays so |
| `UpdateMachine.WorkerProgress` | src/lib/sup/oac-tree-server/epics/anyvalue_update_queue.cpp:56-63 | until it has caught up or exited, exit queued or not, some step brings the worker closer; asleep on a non-empty queue it is owed a notification, so no wake-up is lost |
| `PublishMachine.StepRefines` | src/lib/sup/oac-tree-server/epics/epics_anyvalue_manager.cpp:80-90 | every step of the concurrent manager keeps the invariant and is a step, or a stutter, of one map from names to values |
| `PublishMachine.Refinement` | src/lib/sup/oac-tree-server/epics/epics_anyvalue_manager.cpp:127-172 | in every interleaving the owning server's batch and queue folded over its served values give the one map's value for each name, and the servers partition the names |
| `PublishMachine.DrainedServesLatest` | src/lib/sup/oac-tree-server/epics/epics_server.cpp:46-70 | a server that has caught up or exited serves exactly the last update of each of its names, or the value it was registered with |
| `PublishMachine.CallsArePossible` | src/lib/sup/oac-tree-server/epics/epics_anyvalue_manager.cpp:47-90 | in every reachable state of an open manager an idle caller can register any set, update any name with any value and look any channel up |
| `PublishMachine.CallAdvances` | src/lib/sup/oac-tree-server/epics/epics_anyvalue_manager.cpp:88-110 | a caller that has found a server can always push there, once it has given the notification it owes |
| `PublishMachine.ClosingAdvances` | src/lib/sup/oac-tree-server/epics/epics_server.cpp:41-44 | an open manager without calls under way can be closed, and each of its servers can then be told to exit, whatever it still has to publish |
| `InputRequests.InputRequestServer.InitNewRequest` | src/lib/sup/oac-tree-server/base/input_request_server.cpp:47-53 | the monitor holds the new id, no reply and no interrupt |
| `InputRequests.InputRequestServer.SetClientReply` | src/lib/sup/oac-tree-server/base/input_request_server.cpp:55-73 | accepts if and only if the reply is valid, its id is not zero and is the current one, and there is no reply yet; changes the monitor only then |
| `InputRequests.InputRequestServer.TryWaitForReply` | src/lib/sup/oac-tree-server/base/input_request_server.cpp:75-92 | one pass of the wait: done if and only if the id is zero, a reply for it is there or an interrupt is; a retrieved reply is valid and not interrupted |
| `InputRequests.InputRequestServer.Interrupt` | src/lib/sup/oac-tree-server/base/input_request_server.cpp:94-105 | sets the flag if and only if the id is the current one and changes nothing else |
| `InputMachine.Invariant` | src/lib/sup/oac-tree-server/epics/epics_anyvalue_manager.cpp:92-116 | in every run: mutual exclusion of transactions, the monitors as read off the log, each waiter's request being the last one initialised on its server, no lost wake-up, alternating channels |
| `InputMachine.AcceptedReply` | src/lib/sup/oac-tree-server/base/input_request_server.cpp:62-72 | an accepted reply is valid, answers the request last initialised on its server and is the only one accepted for it |
| `InputMachine.FirstValidReplyIsAccepted` | src/lib/sup/oac-tree-server/base/input_request_server.cpp:55-73 | in every run a reply is accepted if and only if it is the first valid one to the request last initialised on the server; replies to older requests are refused |
| `InputMachine.WaitOutcome` | src/lib/sup/oac-tree-server/base/input_request_server.cpp:75-105 | a wait returns false if and only if an interrupt for its own id came after its initialisation, even if a reply was accepted; otherwise it returns the first valid reply to its own request |
| `InputMachine.ReturnedReply` | src/lib/sup/oac-tree-server/epics/epics_anyvalue_manager.cpp:92-116 | a valid reply returned from GetUserInput was the first valid one given to this very call's request after its initialisation, with no other initialisation on that server and no interrupt for it in between |
| `InputCalls.CallAnswers` | src/lib/sup/oac-tree-server/epics/epics_anyvalue_manager.cpp:92-116 | for every return of GetUserInput in every run: the call initialised a request under its own server and id if and only if both lookups found something; it answers with the invalid reply if and only if it did not, its id is zero or an interrupt for the id came between initialisation and the end of its wait; in all other cases it answers with the first valid reply to the id after the initialisation |
| `InputCalls.PublishedRequest` | src/lib/sup/oac-tree-server/epics/epics_anyvalue_manager.cpp:105-107 | what is announced on a request channel is the request, id and server of the call itself, after its initialisation |
| `InputCalls.InterruptHasCall` | src/lib/sup/oac-tree-server/epics/epics_anyvalue_manager.cpp:118-125 | an interrupt reaches the monitor under the server and the id it was called with |
| `InputCalls.CallsArePossible` | src/lib/sup/oac-tree-server/base/input_request_server.cpp:55-105 | in every reachable state what is not registered can be, and an idle thread can ask for input with any id and request, give any reply to a known server and interrupt any id |
| `InputCalls.NobodyIsStuck` | src/lib/sup/oac-tree-server/epics/epics_anyvalue_manager.cpp:92-125 | a thread inside a call can always make its next step unless it sleeps in its wait or waits for the mutex that another call holds |
| `InputMachine.ServedIsStable` | src/lib/sup/oac-tree-server/base/input_request_server.cpp:81-91 | once what a waiter waits for is there, no step of any thread takes it away or moves the transaction further from its end |
| `InputMachine.ServedTerminates` | src/lib/sup/oac-tree-server/epics/epics_anyvalue_manager.cpp:105-116 | over whole runs: however a run goes on, a transaction that has been served takes at most as many own steps as it was away from returning |
| `InputMachine.ServedAdvances` | src/lib/sup/oac-tree-server/base/input_request_server.cpp:62-71 | a served transaction can always be advanced by its own step or, asleep, by a notification that is already owed and can only wake this thread |
| `InputMachine.OneWaiter` | src/lib/sup/oac-tree-server/epics/epics_anyvalue_manager.cpp:96-109 | at most one thread waits at any time, so waking one suffices |
| `InputMachine.ChannelAlternates` | src/lib/sup/oac-tree-server/epics/epics_anyvalue_manager.cpp:105-110 | the values on each request channel are (request, idle) pairs with at most one request left over, which is there exactly while its transaction is between its two publications, on at most one channel |
| `InputMachine.SleeperCanBeInterrupted` | src/lib/sup/oac-tree-server/epics/epics_anyvalue_manager.cpp:118-125 | from every state in which a thread sleeps in its wait any idle thread can interrupt it, and the wait then returns false |
| `InputMachine.EarlyInterruptIsLost` | src/lib/sup/oac-tree-server/base/input_request_server.cpp:50-52 | a run in which an interrupt comes before its request's initialisation and the requesting thread sleeps with nothing to wake it |
| `ReplyDelegator.ClientReplyDelegator.QueueReply` | src/lib/sup/oac-tree-server/base/client_reply_delegator.cpp:49-56 | one reply more at the end of the queue, nothing else changes |
| `ReplyDelegator.ClientReplyDelegator.InterruptAll` | src/lib/sup/oac-tree-server/base/client_reply_delegator.cpp:58-70 | the queue is empty and the interrupt function was called once with the active id, or not at all if that is zero |
| `ReplyDelegator.ClientReplyDelegator.TryTake` | src/lib/sup/oac-tree-server/base/client_reply_delegator.cpp:79-86 | one pass of the worker's wait: takes the first reply and makes its id active, or stops if halted with an empty queue, or sleeps |
| `ReplyDelegator.ClientReplyDelegator.Close` | src/lib/sup/oac-tree-server/base/client_reply_delegator.cpp:88-94 | no reply is active any more, and the loop ends if and only if halted |
| `ReplyDelegator.EPICSIOClientImpl.HandleUserInput` | src/lib/sup/oac-tree-server/epics/epics_io_client.cpp:152-166 | for a value that is a request the user is asked, for the channel's server, with its id and its request, and the answer is queued under that id; anything else empties the queue and interrupts the active reply |
| `ReplyDelegator.RequestsSurviveTheChannel` | src/lib/sup/oac-tree-server/epics/epics_io_client.cpp:152-166 | the client reads a published request back exactly, unless its type is the invalid one, and the idle value as no request |
| `DelegatorMachine.Conservation` | src/lib/sup/oac-tree-server/base/client_reply_delegator.cpp:49-96 | in every run each queued reply has one fate: taken, cleared or still queued, in order; delivered and in-flight replies are the taken ones, each once and in order |
| `DelegatorMachine.NothingLost` | src/lib/sup/oac-tree-server/base/client_reply_delegator.cpp:49-96 | without an InterruptAll, delivered, in flight and queued are exactly what was queued |
| `DelegatorMachine.InterruptAllIsBarrier` | src/lib/sup/oac-tree-server/base/client_reply_delegator.cpp:58-70 | nothing queued before an InterruptAll is taken after it, and the interrupt function is called exactly with the id of the reply being delivered |
| `DelegatorMachine.AtMostOneAfterHalt` | src/lib/sup/oac-tree-server/base/client_reply_delegator.cpp:91-105 | after a halt at most one further reply is taken, and none if the worker was already delivering |
| `DelegatorMachine.OneAfterHalt` | src/lib/sup/oac-tree-server/base/client_reply_delegator.cpp:77-95 | a worker that waits with replies queued when it is halted takes exactly one of them before it exits, unless an InterruptAll comes |
| `DelegatorMachine.ExitsOnlyWhenHalted` | src/lib/sup/oac-tree-server/base/client_reply_delegator.cpp:91-105 | the worker ends only after a halt, and with no reply active |
| `DelegatorMachine.CallsArePossible` | src/lib/sup/oac-tree-server/base/client_reply_delegator.cpp:49-70 | in every reachable state a thread that owes no notification can queue any reply, interrupt all and halt |
| `DelegatorMachine.HaltedWorkerTerminates` | src/lib/sup/oac-tree-server/base/client_reply_delegator.cpp:72-96 | once halted the worker takes at most as many steps as it is away from its end, whatever other threads do |
| `DelegatorMachine.WorkerSettles` | src/lib/sup/oac-tree-server/base/client_reply_delegator.cpp:72-96 | without further replies and halts the worker has delivered everything and waits, or has exited, after at most a computed number of its own steps |
| `DelegatorMachine.WorkerAdvances` | src/lib/sup/oac-tree-server/base/client_reply_delegator.cpp:43-47 | as long as there is something to deliver or a halt to obey the worker can advance; asleep it is owed a notification, so after a halt the destructor's join returns if deliveries do |
| `ClientManager.ClientAnyValueManager.AddAnyValues` | src/lib/sup/oac-tree-server/base/client_anyvalue_manager.cpp:61-84 | pairs are registered and notified one by one up to the first known or repeated name; success if and only if there is none; then the number of instructions is announced if it is above zero |
| `ClientManager.CountExact` | src/lib/sup/oac-tree-server/base/client_anyvalue_manager.cpp:63-74 | the counter of instructions is the number of instruction names modulo 2^32 |
| `ClientManager.FailureLeavesPrefix` | src/lib/sup/oac-tree-server/base/client_anyvalue_manager.cpp:64-78 | registration is complete if and only if the names are new and different; a failure changes nothing if and only if the first name was known already |
| `ClientManager.RepeatedNameStaysRegistered` | src/lib/sup/oac-tree-server/base/client_anyvalue_manager.cpp:64-78 | on an empty client a list with one name twice fails and leaves the name registered and notified |
| `ClientManager.ClientAnyValueManager.UpdateAnyValue` | src/lib/sup/oac-tree-server/base/client_anyvalue_manager.cpp:92-101 | the callback of a known name makes its calls and no others; an unknown name makes none |
| `Codecs.EntriesExact` | src/lib/sup/oac-tree-server/base/output_entry_helper.cpp:37-148 | a log, message or output entry decodes exactly from structures that have all its fields with the right types, and to just those |
| `Codecs.StatesExact` | src/lib/sup/oac-tree-server/base/oac_tree_protocol.cpp:195-226 | job states, breakpoints and variables decode exactly from structures with their fields of the right types |
| `Codecs.InputRequestExact` | src/lib/sup/oac-tree-server/base/input_request_helper.cpp:56-71 | an input request decodes exactly from structures with its four fields of the right types |
| `Codecs.InitialValuesExact` | src/lib/sup/oac-tree-server/base/oac_tree_protocol.cpp:53-84 | the values that names are registered with, field by field |
| `Forwarding.CallbackDecodes` | src/lib/sup/oac-tree-server/base/client_anyvalue_manager.cpp:191-263 | each callback recovers the event that was encoded, with all its arguments; only empty variable values are dropped |
| `Forwarding.EventSurvives` | src/lib/sup/oac-tree-server/base/client_anyvalue_manager.cpp:143-183 | naming, encoding, parsing and decoding an event yields that event again if the prefix is not empty, nothing otherwise or for an empty variable value |
| `Forwarding.RegisterInstructions` | src/lib/sup/oac-tree-server/base/anyvalue_io_helper.cpp:40-46 | on a client where a job is registered without instructions the set of instructions is acceptable, and the callbacks are afterwards exactly those of all published values |
| `Forwarding.InitialNotifications` | src/lib/sup/oac-tree-server/base/client_anyvalue_manager.cpp:61-84 | registering the initial set notifies the five fixed initial events in order and nothing for variables |
| `Forwarding.InstructionNotifications` | src/lib/sup/oac-tree-server/base/client_anyvalue_manager.cpp:64-82 | registering instructions notifies one initial state per instruction, in order, and counts all of them |
| `Forwarding.InterruptsAreForwarded` | src/lib/sup/oac-tree-server/base/client_anyvalue_manager.cpp:137-141 | the interrupts that the client's job interface sees are those of the calls, one by one and in order |
| `Forwarding.InterruptsOfProgram` | src/lib/sup/oac-tree-server/base/server_job_info_io.cpp:129-133 | a job asks its manager for exactly the interrupts it is called with, in order, each at the composed name of the input server for which it registered a handler |
| `ServerJob.InitializeJobAndVariables` | src/lib/sup/oac-tree-server/base/anyvalue_io_helper.cpp:32-38 | on a client that knows none of the job's values, whatever else it knows, exactly the job's values are added and exactly the fixed initial events are seen; otherwise registration goes up to the first clash |
| `ServerJob.InitializeInstructions` | src/lib/sup/oac-tree-server/base/anyvalue_io_helper.cpp:40-46 | on a client on which the job is registered, whatever else it knows, the first non-empty registration adds and shows the instructions and every later one nothing; otherwise registration goes up to the first clash |
| `ServerJob.ServerJobInfoIO.constructor` | src/lib/sup/oac-tree-server/base/server_job_info_io.cpp:40-50 | on a client that knows none of the job's values the client is told the initial events of an empty history; in any case the manager receives exactly the requests for the initial values and the request channel |
| `ServerJob.ServerJobInfoIO.InitNumberOfInstructions` | src/lib/sup/oac-tree-server/base/server_job_info_io.cpp:54-57 | the client has seen what the history with this call amounts to |
| `ServerJob.ServerJobInfoIO.PutValue` | src/lib/sup/oac-tree-server/base/server_job_info_io.cpp:88-94 | the manager receives the value with the next index of its own generator and the client has seen the call |
| `ServerJob.ServerJobInfoIO.Log` | src/lib/sup/oac-tree-server/base/server_job_info_io.cpp:143-149 | the manager receives the entry with the next index of its own generator and the client has seen the call |
| `ServerJob.RunJob` | src/lib/sup/oac-tree-server/base/server_job_info_io.cpp:40-153 | for every prefix, number of variables and sequence of calls the client sees the fixed initial notifications and then exactly the calls, same arguments and order, without ticks, indices out of range and empty variable values; the requests that the manager receives on the way are exactly the job's program |
| `Convergence.SpecIsLastPush` | src/lib/sup/oac-tree-server/epics/epics_anyvalue_manager.cpp:80-90 | in every run the one map holds for each name its last push, or what it was registered with |
| `Callers.Separation` | src/lib/sup/oac-tree-server/epics/epics_anyvalue_manager.cpp:127-161 | however the requests of several callers on one manager are interleaved, if each keeps to names of its own then what has become of a caller's names is what its requests alone would have led to |
| `Callers.AsIfAlone` | src/lib/sup/oac-tree-server/epics/epics_anyvalue_manager.cpp:80-90 | in every run of the concurrent manager with such callers every registration and every lookup has the result it would have if its caller were alone |
| `Callers.SpecIsFold` | src/lib/sup/oac-tree-server/epics/epics_anyvalue_manager.cpp:82-89 | in every run the one map holds the last value in the history of a name that one caller uses, or the one before it while that caller is between lookup and push |
| `Convergence.ProgramHistory` | src/lib/sup/oac-tree-server/base/server_job_info_io.cpp:40-149 | a job's requests make known exactly the values it publishes, and give each its initial value and then, from its registration on, the value of every event for it |
| `Convergence.ConstructionIsRunOf` | src/lib/sup/oac-tree-server/base/server_job_info_io.cpp:40-50 | on a new manager the registrations of a job's construction both succeed and begin a run of the kind that the following rows are about |
| `Convergence.JobsAreSeparate` | src/lib/sup/oac-tree-server/base/automation_server.cpp:49-59 | jobs with different indices never ask a manager for each other's names |
| `Convergence.LastValue` | src/lib/sup/oac-tree-server/base/server_job_info_io.cpp:59-149 | the last value a job gives to a slot encodes the last event that reached it, whatever else it reports |
| `Convergence.EntryIndicesDistinct` | src/lib/sup/oac-tree-server/base/server_job_info_io.cpp:88-149 | the k-th log, message or output entry of a job carries the k-th index whatever events come in between; indices are not zero and 2^64 - 1 consecutive ones are different |
| `EntryMachine.EachIndexOnce` | src/lib/sup/oac-tree-server/base/server_job_info_io.cpp:88-149 | with any number of reporting threads, taking an index and publishing being separate steps, in every interleaving entries carry different ones of the indices 1, 2, 3 and so on, and all of them once no thread is in between |
| `EntryMachine.ThreadsAdvance` | src/lib/sup/oac-tree-server/base/server_job_info_io.cpp:88-149 | in every reachable state any thread can take an index or publish the entry whose index it holds |
| `Convergence.ServedValueTellsLastEvent` | src/lib/sup/oac-tree-server/base/client_anyvalue_manager.cpp:143-183 | for any number of jobs on one manager, each making the requests of its construction and its calls, in every interleaving with each other, with user input and with the workers: a value has a server exactly if its job publishes it, and once no push to it is under way and its server has drained, the callback chosen by parsing the name and run on the served value reports the last event for that value, or the initial notification if there was none |
| `ManyThreads.PushHasLookup` | src/lib/sup/oac-tree-server/epics/epics_anyvalue_manager.cpp:80-90 | in every run a push carries the name and the value of an earlier successful lookup by the same thread |
| `ManyThreads.ServedValueTellsLastPush` | src/lib/sup/oac-tree-server/base/client_anyvalue_manager.cpp:143-183 | with any number of threads reporting on each of any number of jobs: once the server that owns a value has drained, the callback chosen by parsing the name and run on the served value reports the event whose push came last, or the initial notification if there was none |
| `Namespace.TakenOnlyByOwner` | src/lib/sup/oac-tree-server/base/oac_tree_protocol.cpp:130-178 | a name is taken on a manager if and only if the job, kind and index it was made from were registered with that manager |
| `Namespace.JobTakes` | src/lib/sup/oac-tree-server/base/i_anyvalue_io.cpp:49-72 | a new job adds exactly its names to its manager, and none of them was taken on any manager |
| `Namespace.JobIsFree` | src/lib/sup/oac-tree-server/base/anyvalue_io_helper.cpp:32-38 | both registrations of a job succeed if and only if its index is not registered, and then add exactly its names; otherwise both fail and change nothing |
| `Namespace.InstructionsAreFree` | src/lib/sup/oac-tree-server/base/anyvalue_io_helper.cpp:40-46 | the names of a job's instructions are free if and only if there are none or the job has none yet |
| `Automation.InitializeJobAndVariables` | src/lib/sup/oac-tree-server/base/anyvalue_io_helper.cpp:32-38 | the results that the code drops and the names that the manager knows afterwards, for any manager and prefix |
| `Automation.InitializeInstructions` | src/lib/sup/oac-tree-server/base/anyvalue_io_helper.cpp:40-46 | the result that the code drops and the names that the manager knows afterwards |
| `Automation.AutomationServer.AddJob` | src/lib/sup/oac-tree-server/base/automation_server.cpp:49-59 | both registrations succeed if fewer than 2^32 jobs were added before, and both fail otherwise; the job gets the prefix of its index modulo 2^32 and the manager at the remainder of that; afterwards each manager knows exactly the names of its jobs |
| `Automation.AutomationServer.InitNumberOfInstructions` | src/lib/sup/oac-tree-server/base/server_job_info_io.cpp:54-57 | succeeds if and only if there are no instructions or the job had none; afterwards each manager knows exactly the names of its jobs |
| `Automation.NewRegistry` | src/lib/sup/oac-tree-server/epics/epics_anyvalue_manager_registry.cpp:32-40 | so many separate managers that know no names |
| `Automation.AllSucceed` | src/lib/sup/oac-tree-server/base/anyvalue_io_helper.cpp:32-46 | if at most 2^32 jobs are added and each announces its instructions at most once, every registration succeeds |
| `Automation.JobsAreSpread` | src/lib/sup/oac-tree-server/epics/epics_anyvalue_manager_registry.cpp:44-48 | two jobs share a manager if and only if the number of managers divides the difference of their indices, the first ones get one each in order, and with enough managers no two share one |
| `Automation.Serve` | src/lib/sup/oac-tree-server/epics/epics_anyvalue_manager_registry.cpp:44-48 | for every prefix, every number of managers above zero and every sequence of calls on a server's jobs, the result of each registration and the names that each manager knows in the end are those determined by the calls, with their variable and instruction counts; for calls in order all results are true |

## Left out

- PvAccess servers and clients, RPC stacks, network timeouts and monitor delivery: not part of this repository. What a server serves is a map, and a reply from a client is a step that can happen at any time.
- Base64 text, the AnyValue library and oac-tree's codec for instruction states: other repositories. Encoding is an injective wrapper, all encodings succeed, structures are maps from field names to values, and type names and the order of fields are not kept. The exception for values that cannot be encoded is therefore not modelled.
- Constants of other repositories are assumed: the index field is called "index", the invalid instruction index is 0xFFFFFFFF, the initial job state, the initial instruction status and the invalid input request type are 0, and `unsigned long` has 64 bits.
- UpdateQueue.EPICSServer.UpdateLoop: takes the commands that arrive between two swaps as a parameter and ends with them; the loop without end and its interleaving with producers are in `UpdateMachine`.
- InputRequests.InputRequestServer.TryWaitForReply: is one pass of the wait; sleeping, waking and notifying are in `InputMachine`.
- ReplyDelegator.ClientReplyDelegator.TryTake: is one pass of the worker's loop up to the delivery; sleeping, delivering outside the lock and notifying are in `DelegatorMachine`.
- ValueManager.EPICSAnyValueManager.AddInputHandler: is the two critical sections with nothing in between; `AddInputHandlerInterleaved` has one registration there, and `InputMachine` any steps.
- Convergence.ServedValueTellsLastEvent: a job's calls come one after the other, as in `ServerJob`; `ManyThreads` drops that, and then the last push decides. `EntryMachine`, which numbers the entries of simultaneous threads, is a machine of its own.
- Interrupts and answers to user input between a job and the concurrent manager: the request channels take part in the runs of `Convergence`, the replies are in `InputMachine` and not joined with them.
- Fairness: termination is stated as a bound on a worker's own steps together with a step that is always possible, not over infinite runs.
- GetUserValue and GetUserChoice of both ends and the helpers that create and parse user input requests and replies: the model passes requests and replies through as they are.
- The rest of `EPICSIOClientImpl` (monitors and replacing its input client), the callbacks as closures (a callback is determined by the parsed name it was made for) and `CurrentIndex` of the index generator: they would only add easy members.
- Local jobs, procedures and their execution, info and control protocols, client jobs, command line and configuration: plumbing around the modelled core, or code of other repositories.
- C++ object lifetime, references used after unlocking and everything below the level of mutexes.

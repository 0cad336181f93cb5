# A verified model of the core services of the firmware

This project models, in Dafny, the parts of the firmware whose correctness is hardest to see from
the code, and proves what their callers rely on. Each part stands on a small stated model of the
primitive below it (mutex, event group, bounded queue, task notification, timer command queue, NOR
flash array, EEPROM page latch).

Four concurrent protocols are step systems. A state holds every thread, queue and object, a step is
one stretch of code that nobody can interrupt, and a property is proved of every state that any
interleaving of any number of clients can reach. Beside each of them a class holds the same state on
the heap and has the code's methods, each proved to have the effect of its steps.

| module | models |
|---|---|
| `RecordProtocol`, `RecordInvariant`, `RecordRuns`, `RecordStore` | the named-record registry: open waits for create, holders are counted, destroy is refused while a record is used |
| `ThreadLife`, `ThreadRuns`, `ThreadKernel` | thread objects from start to join and free, the queue of exited threads and the scrubber |
| `FlagBits`, `ThreadFlags`, `ThreadFlagsBits`, `ThreadFlagsPromises` | the wait for notification bits, bit by bit, its timeout arithmetic, and what its documentation promises |
| `TimerTeardown`, `TimerRuns`, `TimerFirings`, `TimerService` | the handshake of freeing a software timer with the timer daemon, and when timers fire |
| `NetListeners`, `NetEffects`, `NetProtocol`, `NetRuns`, `NetWorker` | the network worker, its synchronous calls and its listener list |
| `Bytes`, `ModbusBits`, `ModbusPdu`, `ModbusWire`, `ModbusFraming`, `ModbusServer` | the Modbus TCP server: framing, replies, bit tables, the meaning of each byte (MODBUS Application Protocol Specification V1.1b3; MODBUS Messaging on TCP/IP Implementation Guide V1.0b, section 3.1.3) |
| `Calendar`, `UnixTime` | seconds to date and back, against the Gregorian next-day step |
| `PagedMemory`, `FlashEx`, `Eeprom` | splitting one write into page-bounded device commands |
| `LcgRandom` | the software random generator, its period and its buffer filler |
| `NetUtils` | the IPv4 text parser and printer |
| `Runs` | runs and reachable states of a step system, for the four protocols |
| `Words`, `Wrappers` | fixed-width arithmetic, `Option` |

## What turned out not to hold

- Converting seconds to a date is one day short late in leap years: exactly when the year is leap and
  the leap days since 1970 and the day of the year add up to 365 or more (`UnixTime.RoundTrip`,
  first on 1972-12-31, `UnixTime.WindowStartsIn1972`).
- A wait for thread flags can give up too early: after each wake-up the
  code subtracts all the time since the call from what was left, so that earlier waits are subtracted
  again. `ThreadFlagsPromises.GivesUpEarly` is such a call, `ThreadFlagsPromises.UsesWholeTimeoutIff`
  says exactly when a call that times out has used its whole timeout. A call that is to wait without
  end times out as well once it was woken after a tick (`ThreadFlagsPromises.ForeverTimesOut`, with the
  exact condition in `ThreadFlagsPromises.ForeverEndsIff`).
- The wait can also take too long: a task that reads the tick counter late after a wake-up may see it
  gone a full round. No call with a finite timeout blocks longer exactly when that lag and the timeout
  together stay below 2^32 ticks (`ThreadFlagsPromises.NeverBlocksLongerIff`); at the largest finite
  timeout two ticks are enough (`ThreadFlagsPromises.LateReading`).
- The documented wait for all flags at the same time (core/base.h:27-34) is what callers get exactly
  when they ask not to clear the flags or wait for at most one flag
  (`ThreadFlagsPromises.AllAtOnceIff`); otherwise the code collects the flags over several wake-ups
  (`ThreadFlagsPromises.BitsCollected`).
- A timer callback that frees a timer, or sends a command while the command queue is full, halts the
  timer daemon for good, and with it every free call. `TimerRuns.DaemonRunsIff` and
  `TimerRuns.NeverHalts` say that nothing else can, `TimerRuns.FreeInCallbackHalts` and `TimerRuns.PutInCallbackHalts` are runs that do.
- Stopping a listener closes every endpoint on its port but unregisters one entry;
  `NetEffects.ResetInStepIff` says exactly when list and endpoints stay in step.
- An event handler on the network worker's own thread that calls the API halts the worker for good
  when the queue is full, or when it starts an HTTP listener, and callers queued behind a stop message
  are never released: `NetRuns.StuckIff` and `NetRuns.StuckForever`, with the runs
  `NetRuns.FullQueueHalts`, `NetRuns.HttpInHandlerHalts`, `NetRuns.InnerRoundHalts` and
  `NetRuns.BehindStopHalts`. Everywhere else a blocked caller comes nearer to its return with every
  step the worker takes for a message (`NetRuns.ReturnComesNearer`).
- A block erase from an unaligned address does not always cover the range
  (`FlashEx.EraseCoversIff`; `FlashEx.EraseMisses` is an example), and one of no bytes erases a
  subsector (`FlashEx.NothingErasesSubsector`).
- The byte count of a bit reply and of a function 15 request is compared in 8 bits, which is too
  short for more than 2040 entries. `ModbusPdu.LeavesBufferIff` says exactly which reads are accepted
  and leave the reply buffer (2041 entries is the smallest, `ModbusPdu.LeavesBuffer`).
  `ModbusPdu.DataInFrameIff` says when an accepted function 15 stays inside its frame: for at most
  2040 coils, or in a frame of at least 269 bytes, because the index of a byte is held in 8 bits too
  (`ModbusPdu.DataLeavesFrame` is an input on which it does not).
- The buffer filler does not end for the last three buffer lengths of 32 bits
  (`LcgRandom.FillLoopExits`).

## Model

| member | source | states |
|---|---|---|
| RecordInvariant.StepKeepsInv | core/record.c:51-163 | every lock-protected step, the unlocked wait and the read after it keep the whole invariant, for any number of threads |
| RecordInvariant.StepKeepsCounts | core/record.c:51-163 | each holders_count stays the number of waits and holds on that entry, whoever opens, closes or destroys |
| RecordInvariant.StepKeepsEntry | core/record.c:119-123 | an entry somebody uses is neither erased nor emptied by any step |
| RecordRuns.EntriesAreConsistent | core/record.c:51-163 | in every reachable state holders_count is the number of waits and holds; ready implies data, and conversely with the mutex free; an entry without data then has a waiting opener |
| RecordRuns.OpenReturnsCreated | core/record.c:130-149 | every open returned the pointer that an earlier create gave to that same entry, the only one given to it, and before any destroy of it |
| RecordRuns.HeldSurvives | core/record.c:119-123 | until the holder closes it, an opened record stays in the registry with the pointer the open returned |
| RecordRuns.DestroyIffUnused | core/record.c:108-128 | destroy removes the entry exactly when no thread waits on it or holds it |
| RecordRuns.EntryStillThere | core/record.c:130-163 | the entry open, create and close work on is always still there: close's assertion holds and nothing freed is used |
| RecordRuns.CallerAssertions | core/record.c:100-103 | create's assertion holds exactly when no create gave this entry a pointer before, destroy's exactly when the name exists |
| RecordRuns.WakesIffCreated | core/record.c:142-146 | with the mutex free, a blocked open can go on exactly when its entry was given a pointer |
| RecordStore.Registry.GetOrCreate | core/record.c:51-65 | the entry of the name, made empty and without holders if there was none; every other entry unchanged |
| RecordStore.Registry.Create | core/record.c:91-106 | stores the pointer and sets the flag of exactly that entry |
| RecordStore.Registry.OpenSection | core/record.c:130-140 | counts one more holder of exactly that entry |
| RecordStore.Awaited | core/record.c:142-149 | once the wait has returned in a run of the protocol, open returns the pointer that create gave this entry, never NULL |
| RecordRuns.WokenHasPointer | core/record.c:142-149 | whenever the wait has returned, the entry exists and has the pointer of its create |
| RecordStore.Registry.Destroy | core/record.c:108-128 | removes the entry and returns true exactly when it has no holders |
| RecordStore.Registry.Close | core/record.c:151-163 | counts one holder less of exactly that entry |
| RecordStore.Registry.Exists | core/record.c:77-89 | tells whether the name is registered and changes nothing |
| ThreadLife.StepKeepsInv | core/thread.c:83-108 | every step of owners, tasks and scrubber keeps each thread in a consistent phase |
| ThreadRuns.AssertionsHold | core/thread.c:83-108 | in every run the assertions at lines 89, 94, 100, 196 and 460 hold, and the scrubber never works on a freed thread |
| ThreadRuns.LifeGoesRound | core/thread.c:192-210 | the state of a thread only moves Stopped, Starting, Running, Stopping, Stopped, one place at a time |
| ThreadRuns.NamedOnce | core/thread.c:102-104 | a thread is at most once in the scrub queue or the scrubber's hand, exactly while it is Stopping and has put itself there |
| ThreadRuns.JoinedIsQuiet | core/thread.c:212-229 | when join returns the task is deleted, its local storage cleared and no queue entry names it, so it may be freed or started again |
| ThreadRuns.ScrubberRuns | core/thread.c:447-467 | while an exited thread is queued the scrubber is never stuck |
| ThreadRuns.ScrubCountsDown | core/thread.c:447-467 | each scrubber step brings an exited thread one nearer to Stopped and nothing delays it: at most 35 steps after it entered the queue |
| ThreadKernel.Kernel.Start | core/thread.c:192-210 | start sets Starting, then creates the task |
| ThreadKernel.Kernel.BodyEnter | core/thread.c:83-95 | the body sets its local storage, then Running; its assertions hold |
| ThreadKernel.Kernel.BodyExit | core/thread.c:97-107 | the body sets Stopping, then puts its address at the end of the queue |
| ThreadKernel.Kernel.ScrubOne | core/thread.c:447-467 | one round takes the first queued thread, deletes its task, clears its local storage and sets Stopped; its assertion holds |
| ThreadKernel.Kernel.JoinLook | core/thread.c:223-226 | join returns exactly when it sees Stopped |
| ThreadFlags.Task.FlagsWait | core/thread.c:347-445 | for every sequence of wake-ups: how often it was woken, how it ended, which value or error it returned, and which bits remain |
| ThreadFlags.Task.WaitLoop | core/thread.c:375-440 | the loop, with the tick counter wrapping at 32 bits |
| ThreadFlags.NeverBlocksLonger | core/thread.c:417-427 | however it ends, the call was blocked no longer in total than the timeout, if it takes less than a full round of the tick counter, or if the timeout and the longest lag before a reading together are less than that |
| ThreadFlagsPromises.NeverBlocksLongerIff | core/thread.c:417-427 | for every finite timeout and bound on the lags, all calls keep to the timeout exactly when both together are below 2^32 |
| ThreadFlags.NeverLonger | core/thread.c:417-427 | at each wake-up the time blocked so far and the remaining budget stay within the timeout |
| ThreadFlags.BudgetExactIff | core/thread.c:417-427 | the recomputed budget is at most what truly remains, and equal exactly when nothing remains or no time had passed before |
| ThreadFlags.SmallLags | core/thread.c:417-427 | with such lags, elapsed time and remaining budget stay within the timeout while any is left, however long the call takes |
| ThreadFlagsPromises.GivesUpEarly | core/thread.c:417-427 | a call with a timeout of 10 times out after 7 blocked ticks although its flag arrives at tick 9 |
| ThreadFlagsPromises.UsesWholeTimeoutIff | core/thread.c:417-427 | a call that times out has used its whole timeout exactly when it was never woken, was woken last at the very end, or no time had passed before |
| ThreadFlagsPromises.LateReading | core/thread.c:417-427 | for every finite timeout, a wake-up at its end that is read when the counter has gone a full round since the call makes it block twice as long |
| ThreadFlagsPromises.AllAtOnceIff | core/base.h:27-34 | for all timeouts and wake-ups, a returning wait for all flags finds them all in its last value exactly when the flags are not cleared or are at most one |
| ThreadFlagsPromises.BitsCollected | core/thread.c:382-392 | a wait for two flags returns although no value it saw held both |
| ThreadFlags.ForeverIff | core/thread.c:417-427 | the budget of a wait without end stays endless exactly while the counter shows no time at any wake-up |
| ThreadFlagsPromises.ForeverEndsIff | core/thread.c:347-445 | a call that is to wait without end and gets no flags does so exactly when the counter showed no time at any wake-up; otherwise it times out |
| ThreadFlagsPromises.ForeverTimesOut | core/thread.c:347-445 | a call that is to wait without end times out after one wake-up at tick 1 |
| ThreadFlags.TestIsOfUnion | core/thread.c:382-414 | the test of rflags is a test of all bits received so far, for wait-all and wait-any |
| ThreadFlagsBits.WaitAnyIff | core/thread.c:399-414 | a wait for any flag returns exactly at the first delivered wake-up whose value has a bit in common with the flags, and returns that value |
| ThreadFlagsBits.WaitAllIff | core/thread.c:379-398 | a wait for all flags returns exactly at the first wake-up by which every single bit of them was in some value, with the bits of the last value and the flags of the earlier ones |
| ThreadFlagsBits.NotMet | core/thread.c:386-441 | a call that returns no flags did not get them; with no timeout it looks once and reports a missing resource, with a finite one a timeout |
| ThreadFlagsBits.Left | core/thread.c:363-378 | the task is left with the last value without the flags, or with all of it if they are not to be cleared |
| ThreadFlags.RecomputedIs | core/thread.c:418-427 | the difference of two tick readings is the elapsed time even across the wrap of the counter |
| ThreadFlags.OneEnding | core/thread.c:347-445 | the wake-ups determine when and how the call ends |
| TimerTeardown.StepKeepsInv | core/timer.c:48-75 | every step of callers, free calls and daemon keeps each timer's commands and the daemon's work on it in order |
| TimerRuns.WaitMeansLetGo | core/timer.c:59-75 | after the event wait, and until the address is allocated again, the timer is inactive, its callback does not run, no queued command names it and the epilogue is done with the event group |
| TimerRuns.NothingDangles | core/timer.c:23-28 | no daemon step works on a timer or an event group that was freed |
| TimerRuns.DaemonRunsIff | core/timer.c:23-28 | while a free call waits for its event, or the daemon is at work, it has a next step exactly when its own callback does not wait in a free or in a put into the full queue |
| TimerRuns.NeverHalts | core/timer.c:23-28 | as long as no callback frees a timer or sends into the full queue, the daemon never halts |
| TimerRuns.FreeInCallbackNeverReturns | core/timer.c:59-75 | a free call made by a callback never returns, and the daemon runs out of steps exactly when it is halted |
| TimerRuns.HaltedForever | core/timer.c:23-28 | a daemon halted that way stays so, and every waiting free call waits for good |
| TimerRuns.FreeInCallbackHalts | core/timer.c:59-71 | a callback that frees its timer brings the daemon there |
| TimerRuns.PutInCallbackHalts | core/timer.c:77-86 | so does a callback that sends a command into a queue others have filled |
| TimerRuns.EpilogueComesNearer | core/timer.c:69-71 | each command the daemon takes brings the pending epilogue one place nearer, nothing overtakes it |
| TimerFirings.ActiveAfter | core/timer.c:23-46 | only an active timer or one being started fires; then exactly a periodic one stays active; otherwise starts and stops decide |
| TimerFirings.StopSilences | core/timer.c:119-129 | along every run after a processed stop or delete the callback does not run until the next processed start or reset |
| TimerFirings.OneShotFiresOnce | core/timer.c:30-46 | along every run a one-shot timer fires at most once for each processed start or reset |
| TimerFirings.OneShotFires | core/timer.c:77-96 | an active timer that is neither stopped nor freed fires or stays active |
| TimerFirings.PeriodicGoesOn | core/timer.c:30-46 | an active periodic timer stays active however often it fires, until it is stopped or freed |
| TimerService.Service.FreeBegin | core/timer.c:64-69 | queues the delete command, then the epilogue |
| TimerService.Service.FreeEnd | core/timer.c:71-74 | passes the wait and frees the timer |
| TimerService.Service.Epilogue | core/timer.c:48-57 | sets the event bit between suspending and resuming the scheduler |
| TimerService.Service.Restart | core/timer.c:98-117 | Ok means a new period and then a reset were queued; otherwise nothing, or the period only |
| TimerService.Service.Start | core/timer.c:77-96 | queues a new period and returns Ok, or neither |
| TimerService.Service.Stop | core/timer.c:119-129 | queues a stop, which the assertion wants to get through |
| NetListeners.List.Add | applications/services/net/net_listeners/net_listeners.c:6-46 | the heap list is extended by the new entry at its tail |
| NetListeners.List.Remove | applications/services/net/net_listeners/net_listeners.c:48-91 | the heap list loses its first entry of that uri, and the result tells whether there was one |
| NetListeners.RemoveFirstAt | applications/services/net/net_listeners/net_listeners.c:61-88 | removal takes out exactly the first matching entry |
| NetListeners.RemoveAbsent | applications/services/net/net_listeners/net_listeners.c:90-90 | without a match nothing changes |
| NetProtocol.StepKeepsInv | applications/services/net/net.c:98-161 | every step of callers and worker keeps the history, the locks and the worker's state consistent |
| NetRuns.BlockedIsNamedOnce | applications/services/net/net.c:98-119 | a caller blocked on its lock is named by exactly one pending message, its own; nobody else is named |
| NetRuns.UnlocksTheWaiting | applications/services/net/net.c:296-297 | the worker only unlocks a lock that somebody still waits for |
| NetRuns.ReturnsAfterEffect | applications/services/net/net.c:114-118 | a call returns only after its message was handled; the worker's state is the effect of all handled messages in order |
| NetRuns.HistoryConserved | applications/services/net/net.c:193-299 | messages are handled in the order they were put, none lost or repeated; the listener list is the fold of the handled ones, and in the middle of a message has the first part of its effect as well |
| NetRuns.OpenAfterRestart | applications/services/net/net.c:258-289 | after a restart, while only registrations follow and no message is half done, the open endpoints are the registered listeners in order |
| NetRuns.AddressesOfLastRestart | applications/services/net/net.c:258-268 | in every reachable state the interface has the address, mask and gateway that the three texts of the last handled restart denote, a text that denotes nothing having left its own field as it was |
| NetRuns.AddressesOfHalfRestart | applications/services/net/net.c:258-272 | the same already in the middle of a restart |
| NetRuns.AddressesBeforeRestart | applications/services/net/net.c:258-268 | no other message changes an address |
| NetRuns.RegistrationsInOrder | applications/services/net/net.c:199-222 | the registrations handled last are the last entries of the list and of the endpoints, once each and in order |
| NetRuns.ReturnComesNearer | applications/services/net/net.c:193-298 | every step the worker takes for a message brings a blocked caller one nearer to its release, the last of at most 15 releases it, and no other step pushes it back |
| NetRuns.WorkerGoesOn | applications/services/net/net.c:193-298 | with a message pending and the worker not stuck, it has a next step |
| NetRuns.StuckIff | applications/services/net/net.c:98-119 | the worker has no step at all exactly when it ended, or a handler on its thread waits for its lock or puts into the full queue |
| NetRuns.StuckForever | applications/services/net/net.c:290-294 | from then on nothing is handled and no blocked caller returns |
| NetRuns.FullQueueHalts | applications/services/net/net.c:98-119 | a run in which a handler's third call finds the queue full while a caller is blocked |
| NetRuns.HttpInHandlerHalts | applications/services/net/net.c:88-96 | a run in which a handler starts an HTTP listener while a caller is blocked |
| NetRuns.InnerRoundHalts | applications/services/net/net.c:269-272 | a run in which a handler called in the middle of a restart halts the worker with the caller's message at hand |
| NetRuns.BehindStopHalts | applications/services/net/net.c:290-294 | a run that leaves a caller blocked behind a stop |
| NetEffects.RestartRestores | applications/services/net/net.c:269-288 | each restart makes the open endpoints equal the list and leaves the list alone |
| NetEffects.InParts | applications/services/net/net.c:223-289 | the parts before and after the inner round of the event loop make up a message's effect |
| NetEffects.ResetInStepIff | applications/services/net/net.c:223-252 | stopping a listener keeps endpoints and list in step exactly when the host is no address, the port has no endpoint, or only the one unregistered |
| NetEffects.AddressesAfterRestart | applications/services/net/net.c:258-268 | after a restart and any messages that are no restarts each of the three texts has set its own address and no other |
| NetEffects.RegistrationsAppend | applications/services/net/net.c:199-222 | a list of registrations is appended to the list and to the endpoints, in order |
| NetEffects.ResetCloses | applications/services/net/net.c:230-245 | stopping a listener closes an endpoint exactly if it is on the port, and keeps the others in order; a host that is no address changes nothing |
| NetEffects.ResetOutOfStep | applications/services/net/net.c:233-248 | with two endpoints on a port, stopping one leaves the other registered but closed |
| NetWorker.Worker.HandleMessage | applications/services/net/net.c:199-297 | the message's effect on the linked list, the endpoints and the interface; false for a stop |
| NetWorker.Worker.HandleRestart | applications/services/net/net.c:258-289 | addresses that parse are set, the others kept; every registered listener is opened again |
| NetWorker.Worker.CompleteRestart | applications/services/net/net.c:274-288 | the walk along the linked list opens the listeners in its order |
| NetWorker.Worker.HandleReset | applications/services/net/net.c:223-257 | closes the endpoints on the port and unregisters the first entry of the uri, unless the host is no address |
| ModbusFraming.RunIsGreedy | applications/services/net/modbus_tcp/modbus_tcp.c:333-349 | for every split into read events, handled frames and buffer are all bytes received, at most one frame per event, and the handled frames begin the greedy decomposition of any continuation |
| ModbusFraming.SplitsAgree | applications/services/net/modbus_tcp/modbus_tcp.c:333-349 | two splits of one stream hand over lists of frames of which one is a prefix of the other |
| ModbusFraming.RepliesAgree | applications/services/net/modbus_tcp/modbus_tcp.c:333-349 | so are the lists of replies |
| ModbusFraming.RequestsAreFrames | applications/services/net/modbus_tcp/modbus_tcp.c:333-349 | a stream of requests whose bytes 4 and 5 count what follows them is cut into exactly these requests, whatever comes after |
| ModbusFraming.OnlyRequestsHandled | applications/services/net/modbus_tcp/modbus_tcp.c:333-349 | every split of such a stream, or of a beginning of it, hands over a prefix of the requests |
| ModbusFraming.EventsHandleRequests | applications/services/net/modbus_tcp/modbus_tcp.c:333-349 | once they have all arrived every later read event handles one more until none is left, whatever it brings |
| ModbusFraming.RepliesAreFrames | applications/services/net/modbus_tcp/modbus_tcp.c:320-330 | the stream of replies is cut into exactly the replies by their own length fields |
| ModbusPdu.ReplyShape | applications/services/net/modbus_tcp/modbus_tcp.c:12-330 | every reply fits 260 bytes, echoes transaction, protocol and unit, has the right length field; a refusal has the high bit, code 4, and changes no table |
| ModbusPdu.ReplyLength | applications/services/net/modbus_tcp/modbus_tcp.c:320-329 | bytes 4 and 5 of every reply, the first counting 256 times, count what follows them |
| ModbusWire.SingleCoil | applications/services/net/modbus_tcp/modbus_tcp.c:133-171 | function 5 with FF 00 stores 1 at the address in bytes 8 and 9, with 00 00 it stores 0, and bytes 8 to 11 come back; anything else is refused |
| ModbusWire.SingleCoilReadsBack | applications/services/net/modbus_tcp/modbus_tcp.c:85-171 | function 1 on that coil then answers 1 or 0 as was sent |
| ModbusWire.BitsRead | applications/services/net/modbus_tcp/modbus_tcp.c:33-132 | function 1 answers from the coils and function 2 from the inputs: byte count and packed bits, refused exactly outside the table or when the byte count in 8 bits is over 250 |
| ModbusWire.RegistersRead | applications/services/net/modbus_tcp/modbus_tcp.c:256-298 | function 3 answers from the holding registers: byte count 2n, then each register as high byte and low byte; refused exactly outside the table or over 125 registers |
| ModbusWire.MultipleCoils | applications/services/net/modbus_tcp/modbus_tcp.c:184-222 | function 15 stores bit i of the data in coil s + i, changes nothing else, and bytes 8 to 11 come back |
| ModbusWire.MultipleCoilsRefused | applications/services/net/modbus_tcp/modbus_tcp.c:223-235 | otherwise it is refused and changes nothing |
| ModbusWire.OthersRefused | applications/services/net/modbus_tcp/modbus_tcp.c:172-328 | function 4 answers an empty read of no registers, every other function is refused; no table changes |
| ModbusPdu.OnlyAddressedCoilsChange | applications/services/net/modbus_tcp/modbus_tcp.c:133-235 | a request changes at most the coils it addresses |
| ModbusPdu.WriteThenRead | applications/services/net/modbus_tcp/modbus_tcp.c:85-132 | function 15 followed by function 1 on the range returns the written bits, unused high bits zero, whole bytes identical |
| ModbusPdu.WriteSingleThenRead | applications/services/net/modbus_tcp/modbus_tcp.c:133-171 | function 5 followed by function 1 on the coil reads the value written |
| ModbusPdu.PackingFitsIff | applications/services/net/modbus_tcp/modbus_tcp.c:38-65 | for a table of any size, the bytes an accepted bit read touches lie in the buffer exactly when it asks for at most 2000 entries |
| ModbusPdu.LeavesBufferIff | applications/services/net/modbus_tcp/modbus_tcp.c:38-65 | a read is accepted and leaves the buffer exactly when its range lies in the table, it asks for more than 2040 entries, and their byte count modulo 256 is at most 250 |
| ModbusPdu.DataInFrameIff | applications/services/net/modbus_tcp/modbus_tcp.c:184-208 | for a table of any size, an accepted function 15 reads inside its frame exactly for at most 2040 coils or a frame of at least 269 bytes |
| ModbusPdu.SupportedIff | applications/services/net/modbus_tcp/modbus_tcp.c:33-235 | the requests the model covers are exactly those on which the bit loops of functions 1, 2 and 15 stay inside the buffer and the frame |
| ModbusPdu.UsuallySupported | applications/services/net/modbus_tcp/modbus_tcp.c:33-235 | among them every request for at most 2040 entries, and every request on tables of at most 2040 |
| ModbusPdu.ReadShowsTable | applications/services/net/modbus_tcp/modbus_tcp.c:33-132 | bit j of data byte k is the entry 8k+j of the range, zero past its end |
| ModbusPdu.ReadShowsRegisters | applications/services/net/modbus_tcp/modbus_tcp.c:256-298 | function 3 returns the registers of the range, high byte first |
| ModbusBits.PackUnpack | applications/services/net/modbus_tcp/modbus_tcp.c:196-212 | unpacking bits to coils and packing them again gives back the used bits and zeros |
| ModbusServer.Server.HandlePdu | applications/services/net/modbus_tcp/modbus_tcp.c:12-330 | exactly one reply for a frame of at least 12 bytes, none below, with all buffer accesses in range |
| ModbusServer.Server.OnReadEvent | applications/services/net/modbus_tcp/modbus_tcp.c:333-349 | one read event on the receive buffer is one framing step, and its frame is served |
| ModbusServer.Server.WriteMultipleInto | applications/services/net/modbus_tcp/modbus_tcp.c:184-235 | stores exactly the addressed coils in place, or leaves the table and refuses |
| ModbusServer.Server.WriteSingleInto | applications/services/net/modbus_tcp/modbus_tcp.c:133-171 | stores the addressed coil in place, or leaves the table and refuses |
| ModbusServer.ReadBitsInto | applications/services/net/modbus_tcp/modbus_tcp.c:85-132 | the loop of ORs builds the packed bits of the range |
| ModbusServer.ReadRegistersInto | applications/services/net/modbus_tcp/modbus_tcp.c:256-298 | the loop builds the register bytes of the range |
| ModbusServer.Finish | applications/services/net/modbus_tcp/modbus_tcp.c:320-329 | anything but a success becomes the exception reply, and the length field is set |
| Calendar.EveryDateReached | hal/rhs_hal_rtc/unixtime/unixtime.c:70-100 | every valid date from 1970 on is reached by next-day steps, and their number is its day count |
| Calendar.OrdinalMonotone | hal/rhs_hal_rtc/unixtime/unixtime.c:70-100 | day counts follow the calendar order |
| UnixTime.ToUnixCountsDays | hal/rhs_hal_rtc/unixtime/unixtime.c:70-100 | the closed formula is 86400 times the number of next-day steps since the epoch plus the time of day, modulo 2^32 |
| UnixTime.ToUnixExact | hal/rhs_hal_rtc/unixtime/unixtime.c:70-100 | exact for every civil time whose result fits 32 bits |
| UnixTime.ToUnixMonotone | hal/rhs_hal_rtc/unixtime/unixtime.c:70-100 | there strictly increasing in both directions, hence injective |
| UnixTime.FromUnixIsCalendar | hal/rhs_hal_rtc/unixtime/unixtime.c:3-68 | time of day and weekday are right, and the date is right exactly outside the window, where it is that of the day before |
| UnixTime.CorrectionFindsYear | hal/rhs_hal_rtc/unixtime/unixtime.c:32-44 | the guessed and corrected year is always the true one; the day of the year is one short in the window |
| UnixTime.RoundTrip | hal/rhs_hal_rtc/unixtime/unixtime.c:3-100 | for every 32-bit time, to a date and back is the identity outside the window and exactly 86400 less inside |
| UnixTime.RoundTripOfDate | hal/rhs_hal_rtc/unixtime/unixtime.c:3-100 | a civil time survives the other round trip exactly outside the window |
| UnixTime.WindowStartsIn1972 | hal/rhs_hal_rtc/unixtime/unixtime.c:42-44 | all of 1972-12-31 is reported as the day before |
| UnixTime.LeapCounterFits | hal/rhs_hal_rtc/unixtime/unixtime.c:34-40 | the 8-bit leap counter does not wrap before the year 3000 |
| UnixTime.Converter.ConvertUnixTimeToDate | hal/rhs_hal_rtc/unixtime/unixtime.c:3-68 | the result depends on the argument alone, whatever earlier calls left in the static table |
| UnixTime.Converter.FindMonth | hal/rhs_hal_rtc/unixtime/unixtime.c:56-66 | the table loop finds the month that contains the day, and the day in it |
| UnixTime.Converter.CountLeapDays | hal/rhs_hal_rtc/unixtime/unixtime.c:34-40 | the loop counts the leap years before the guessed one, in 8 bits |
| PagedMemory.PageWriteIsLinear | hal/rhs_hal_flash_ex/mt25ql128aba/mt25ql128aba.c:466-532 | inside one page the part's rolling write is a linear write |
| PagedMemory.PageWriteRolls | hal/rhs_hal_flash_ex/mt25ql128aba/mt25ql128aba.c:466-532 | across a page end it is not: the byte lands at the page's start |
| Eeprom.WrittenReadsBack | drivers/eeprom/eeprom.c:34-154 | a write and a read of its range called one after the other return the data when both succeed; on an idle healthy part they do exactly for a non-empty range inside it |
| FlashEx.Flash.Write | hal/rhs_hal_flash_ex/rhs_hal_flash_ex.c:290-347 | refines one linear AND-program and changes no cell outside its range; a healthy part always succeeds, an error follows a negative answer and busy two; on failure all before the current chunk is programmed, all after it untouched, only that chunk undecided; every program command is accepted, the mutex released once |
| FlashEx.Flash.BlockErase | hal/rhs_hal_flash_ex/rhs_hal_flash_ex.c:349-392 | erases exactly ceil(size / 4096) subsectors, at least one, from the aligned-down address, or a prefix of them with one undecided; every other cell keeps its value; a healthy part always succeeds; commands accepted, mutex released once |
| FlashEx.Flash.EraseChip | hal/rhs_hal_flash_ex/rhs_hal_flash_ex.c:254-288 | erases the whole array, always on a healthy part; the command is accepted, the mutex released once on every path |
| FlashEx.Flash.Read | hal/rhs_hal_flash_ex/rhs_hal_flash_ex.c:227-252 | returns the range, always on a healthy part, and leaves no stale indirect read behind on any path |
| FlashEx.Flash.WaitReady | hal/rhs_hal_flash_ex/rhs_hal_flash_ex.c:206-215 | success means the part is not busy; failure means two negative polls |
| FlashEx.EraseCoversIff | hal/rhs_hal_flash_ex/rhs_hal_flash_ex.c:364-387 | the erase stays inside the device and covers the range exactly when addr mod 4096 + size is at most the erased span |
| FlashEx.AlignedIsCovered | hal/rhs_hal_flash_ex/rhs_hal_flash_ex.c:364-387 | from an aligned address the erase covers every size, with less than one subsector more |
| FlashEx.EraseMisses | hal/rhs_hal_flash_ex/rhs_hal_flash_ex.c:364-387 | an erase of 4096 bytes from address 1 leaves its last byte as it was |
| FlashEx.NothingErasesSubsector | hal/rhs_hal_flash_ex/rhs_hal_flash_ex.c:362-387 | an erase of size 0 erases exactly the subsector of its address |
| FlashEx.StoredReadsBack | hal/rhs_hal_flash_ex/rhs_hal_flash_ex.c:227-392 | block erase, write and read called one after the other return the data when all succeed, as they do on a healthy part, from every aligned address and wherever the erase covers the range |
| Eeprom.Part.Write | drivers/eeprom/eeprom.c:73-154 | ends for every page size and refines one linear update that changes no cell outside its range; an idle healthy part always succeeds and an error follows a failed transfer; on failure one chunk is undecided; no transfer is sent to a part that is still writing |
| Eeprom.Part.Read | drivers/eeprom/eeprom.c:34-71 | returns the range, always from an idle healthy part, or refuses an empty one or one past the part |
| Eeprom.PageEndWrapIsHarmless | drivers/eeprom/eeprom.c:92-95 | the 16-bit difference is the distance to the page end even when page_end wraps at 65536 |
| Eeprom.AddressFitsIff | drivers/eeprom/eeprom.c:100-114 | the part sees the driver's address exactly when it fits the address bytes |
| Eeprom.AddressBytes | drivers/eeprom/eeprom.c:100-114 | two address bytes go out high byte first, one is the address itself |
| LcgRandom.FullPeriod | hal/rhs_hal_random/rhs_hal_random.c:100-106 | from every seed the states after i and j draws are equal exactly when i and j agree modulo 2^32 |
| LcgRandom.LowBitsPeriod | hal/rhs_hal_random/rhs_hal_random.c:100-106 | the low k bits have period exactly 2^k |
| LcgRandom.EveryValueOnce | hal/rhs_hal_random/rhs_hal_random.c:100-106 | each 32-bit value is drawn exactly once in a round of 2^32 draws |
| LcgRandom.Generator.ReadRng | hal/rhs_hal_random/rhs_hal_random.c:102-106 | one draw returns the new state |
| LcgRandom.Generator.FillBuf | hal/rhs_hal_random/rhs_hal_random.c:118-129 | writes exactly the first len bytes of the little-endian concatenation of ceil(len / 4) consecutive states |
| LcgRandom.ByteStreamAt | hal/rhs_hal_random/rhs_hal_random.c:123-128 | byte p of the stream is byte p mod 4 of draw p / 4 + 1 |
| LcgRandom.FillLoopExits | hal/rhs_hal_random/rhs_hal_random.c:123-123 | the loop index reaches the length exactly when the length is at most 2^32 - 4 |
| NetUtils.StringToIp | applications/services/net/net_utils/net_utils.c:42-77 | accepts exactly blanks, four decimal runs of value at most 255 separated by dots, then the end or white space, and returns their values |
| NetUtils.ParseOctet | applications/services/net/net_utils/net_utils.c:10-31 | accepts exactly a non-empty run of digits of value at most 255 |
| NetUtils.DenotesUnique | applications/services/net/net_utils/net_utils.c:42-77 | a text denotes at most one address |
| NetUtils.AcceptsIff | applications/services/net/net_utils/net_utils.c:42-77 | blanks, four numbers with a character after each of the first three, and a tail denote these numbers exactly when each is at most 255, the characters are dots, and the tail is empty or starts with a space, tab, return or newline; they denote nothing else |
| NetUtils.PrintDenotes | applications/services/net/net_utils/net_utils.c:94-110 | the printed text of any four octets parses to these octets |
| NetUtils.PrintFits | applications/services/net/net_utils/net_utils.c:94-110 | the printed text and its terminator fit 16 bytes |
| NetUtils.NormalForm | applications/services/net/net_utils/net_utils.c:42-110 | printing what was parsed is a normal form: parsing and printing it again changes nothing |
| NetUtils.IpToString | applications/services/net/net_utils/net_utils.c:94-110 | refuses octets above 255 without touching the buffer, otherwise stores the text and its terminator and nothing else |

## Left out

- FreeRTOS, Mongoose, the M*LIB dictionary and the STM32 drivers are not part of this model. Assumed of them: mutual exclusion of a mutex, first-in first-out queues, a wait that returns when its bit is set, no other task running while the scheduler is suspended, a notification wait that returns within its limit, a static task's memory left alone by its deletion, task creation that returns the address of the thread object (the assertion at core/thread.c:203).
- Records: threads close only what they opened; that a pointer into the dictionary stays valid while other entries are added or removed is taken for granted; the width of holders_count is not modelled; a caller that breaks an assertion (second create of an entry, destroy of a missing name) stops the system there.
- Threads: each thread object has one owner who starts, joins and frees it, so two concurrent starts of one object do not occur; the assertions about service threads and about joining oneself are duties of the caller; stack and name handling is left out.
- ThreadFlags.Task.FlagsWait: the values notifications find are arbitrary; that others only set bits while the task waits is used where it matters, in ThreadFlagsPromises.AllAtOnceIff.
- Timers: nobody sends commands for a timer after its free call queued the delete command; the time at which a timer expires is arbitrary; functions pended by others, which run on the daemon as callbacks do, are left out.
- Network: listening is taken to succeed; mDNS, the command line, non-listening connections and the loop after the stop message are left out; NULL pointers are not modelled.
- Modbus: user callbacks are absent; requests on which a bit loop would leave the reply buffer or the frame are excluded (exactly those: `ModbusPdu.SupportedIff`); the coils share no memory with the inputs or the registers; the byte count of a function 15 frame of 12 bytes is arbitrary, as the code reads past the frame; functions 4, 6 and 16 only as far as the reply they prepare. The exception code is always 4, where section 7 of the MODBUS Application Protocol Specification V1.1b3 has others.
- UnixTime.FromUnixIsCalendar: stated while the 8-bit leap counter does not wrap, which covers all 32-bit times; the mseconds field, which the code leaves unset, is left out.
- UnixTime.ToUnixExact: years before 1970, for which the formula wraps, are left out.
- FlashEx.Flash.Write: a size of zero, for which a program command without data would be sent, is excluded, and so are, as for the block erase, an address at the end of the device and sums of address and size that wrap at 32 bits; times of erasing and programming are left out.
- Eeprom.Part.Write: the part's size fits its address bytes, address and size together stay below 2^32, and the configured delay is at least the write cycle; the header asks callers not to cross a page, the code splits the write.
- LcgRandom.Generator.FillBuf: for lengths up to 2^32 - 4, the ones for which the loop ends; seeding from the system timer is left out.
- NetUtils.StringToIp: NULL arguments, and what the out-parameters hold after a refusal, are left out.
- I2C transfers, register and clock setup, USB, CANopen, the command line, logging and the thin wrappers around kernel objects.

# ESP8266 non-OS SDK: models and proofs of its stateful cores

This project models the parts of the SDK's visible C and Python that keep state over time,
each as the machine it is and as the in-place code that runs it:

- the plug's timer scheduler (`TimerText`, `TimerSchedule`, `PlatformTimer`): a text list of
  timers, a virtual clock, waits, sleeps in chunks of an hour, batches of actions;
- the UART ring buffers with their interrupt protocol (`UartRing`, `UartProtocol`, `UartDriver`);
- the bit-banged I2C master and the sensor's burst read, against an independent decoder of the
  two lines (`I2cDecoder`, `I2cMaster`);
- the intrusive lists: tail queues, TCP control block lists, the scan result list (`TailQueue`,
  `TcpPcbLists`, `ScanList`);
- the light's fade engine and current limiter (`LightFade`, `LightEngine`, `LightDevice`,
  `CurrentLimit`);
- the key debouncer (`KeyProtocol`, `KeyDriver`);
- the firmware image writer, against an independent reader (`AppImage`, `AppImageWriter`), and
  the local upgrade download (`UpgradeProtocol`, `LocalUpgrade`).

`Arithmetic` holds the machine integers and remainders that several of them share.

The pattern is the same throughout. A class or method holds the code in its own form, with
arrays, counters and timers changed in place, and its postcondition equates the new state with
one step of a small machine. The lemmas are about that machine: an invariant of every step,
what holds over every run, and that what is promised is reached. Timers and interrupts are
events, and runs are arbitrary sequences of them. The builds modelled are `PLUG_DEVICE`,
`SENSOR_DEVICE` with `HUMITURE_SUB_DEVICE`, `UART_BUFF_EN`, and `LIGHT_CURRENT_LIMIT` for the
limiter.

## What the proofs found

Where the code does less than its comments or its callers expect, the exact condition is proved:

- The scheduler stops for good at the first second at which a fixed timer is due: computing the
  round then finds a wait of zero and returns. An entry that starts with none of the letters
  f, l and w has a wait of zero, too: with one in the list, even the empty piece behind a
  trailing separator, nothing is ever armed (`TimerSchedule.StopsExactly`,
  `TimerSchedule.TrailingSeparatorNeverArms`).
- An unknown action ends its batch: whatever is due behind it in the list at the same second is
  dropped. If it starts with 0 the scheduler goes on, otherwise it stops for good. The list
  `l5=0;l5=on_switch` never switches anything (`TimerSchedule.ZeroActionDrops`). Exactly what is
  executed, for lists with any actions, is `TimerSchedule.FiredAtExactly`; with known actions
  only, nothing due is missed or done twice up to the first fixed instant
  (`TimerSchedule.KnownFiredAtExactly`).
- A weekly wait can be a week too long while the clock is before the reference Monday, 1388937600
  (`TimerSchedule.WeeklyWaitExact`).
- A first `tx_buff_enq` that has to create the buffer skips the room test. It delivers all data
  of a given length exactly when that is at most 256 bytes, and writes outside the buffer beyond
  512 (`UartProtocol.LazyCreateExact`). Single data of 257 to 512 bytes get through exactly when
  the bytes behind the 256th repeat the first ones (`UartProtocol.LazyDeliversExactly`), and the
  room test of the next call is blind (`UartProtocol.LazyBlindsRoomTest`).
- The receive ring works only because it never becomes full (`UartRing.DeqOfFullOverruns`).
- `TCP_RMV` on a list that does not hold the block cuts the list that does, unless the block is
  its last one (`TcpPcbLists.RmvHarmlessExactly`).
- The fade never ends when the duty cache already holds a target that the PWM does not have and
  that is one tick away: after boot exactly for saved duties 1 to 20, and after the
  single-channel setters, which start no fade themselves (`LightEngine.BootFadeFinishesExactly`,
  `LightEngine.FadeAfterSetterExactly`). A duty of 2^28 already wraps in the filter, and a target
  from 0x10000013 on, which a single-channel setter can give a running fade, is never reached
  from another duty (`LightFade.OneTickAwayExactly`, `LightEngine.FadeToUnreachable`).
- The I2C initialisation frees the bus from a slave that holds SDA low exactly when the slave
  lets go at the last of the 28 clock pulses (`I2cMaster.Bus.Init`).
- From a period of 8505 the current estimates can wrap, and for every such period up to 10000
  some allowed request exceeds the budget unscaled (`CurrentLimit.BudgetKeptExactly`). Longer
  periods are clipped to 10000 while their duties are clipped by the limit of the longer one;
  the same theorem covers them.
- The image header always counts three sections (`AppImage.WrittenAtMost`). With one empty
  section the image is readable exactly when the other two, padded, come to 8 or 12 modulo 16,
  and then the padding is read as a third section at address 0, whatever address was given;
  with two or three empty ones it is unreadable (`AppImage.ReadableExactly`,
  `AppImage.RoundTripExactly`). Behind an irom part without text the flash part is not aligned
  and cannot be read back (`AppImage.IromAlignsExactly`, `AppImageWriter.BehindIromExactly`).
- In the upgrade the end is flagged exactly when a packet ends where the announced length is
  reached, whatever still follows (`UpgradeProtocol.UploadFlagsExactly`): a body that goes on
  inside that packet is never flagged, and without an announcement an empty first packet flags
  an end (`UpgradeProtocol.OverrunNeverFlags`, `UpgradeProtocol.StrayPacketsFlagExactly`). A
  rest of exactly 65535 bytes is requested with the value that also stands for 64 KiB, so the
  model records with each request what it was meant for.

## Assumptions

- Closed libraries are small abstract state: `system_os_post` fails only when the queue of 10
  events is full; the PWM driver stores and returns duties and periods; flash erase requests
  cover whole sectors of 4096 bytes, one behind the other; memory is granted or refused by a
  parameter.
- A routine is one atomic step of its machine; between steps interrupts and timers come in any
  order.
- The sizes of fixed C buffers are preconditions (100 and 32 characters, 20 timers).
- The wall clock of the scheduler stays below 2^31 seconds, and no loop timer has the period 0,
  by which the source would divide.
- The I2C slave is a level for each bit asked of it, and changes SDA only while SCL is low.
- A section file without a start address counts as empty, and image fields are bytes or words.
- Constants (0xFFFFFFF, 604800, 1388937600, 128, 256, 40, 450000 and so on) stand as literals.

## Model

| member | source | states |
|---|---|---|
| TimerText.IndexOf | examples/IoT_Demo/user/user_esp_platform_timer.c:91-100 | the first place of the pattern at or behind the start, or -1 when it occurs nowhere there |
| TimerText.JoinOfPieces | examples/IoT_Demo/user/user_esp_platform_timer.c:56-82 | for every text and separator the pieces join back to the text, none holds the separator, and there is one more than there are separators; empty and trailing pieces included |
| TimerText.PiecesOfJoin | examples/IoT_Demo/user/user_esp_platform_timer.c:56-82 | cutting undoes joining, for any list of texts without the separator |
| TimerText.Split | examples/IoT_Demo/user/user_esp_platform_timer.c:56-82 | the loop ends with exactly the pieces in the result array and nothing behind them touched |
| TimerText.FirstPiece | examples/IoT_Demo/user/user_esp_platform_timer.c:61-74 | one round of the loop cuts off exactly the first piece, or finds that only one is left |
| TimerText.PiecesOfTrailing | examples/IoT_Demo/user/user_esp_platform_timer.c:56-82 | a separator at the end makes one more piece, an empty one |
| TimerText.AtoiOfDecimal | examples/IoT_Demo/user/user_esp_platform_timer.c:147-149 | reading a number back from its decimal digits |
| TimerText.ParseOfFormat | examples/IoT_Demo/user/user_esp_platform_timer.c:138-186 | one timer formatted, cut at `=` and read gives the timer back, and the text stays within the buffers |
| TimerText.FirstLetterDecides | examples/IoT_Demo/user/user_esp_platform_timer.c:141-165 | an entry is a fixed, loop or weekly timer exactly if it starts with f, l or w |
| TimerText.TimerListRoundTrip | examples/IoT_Demo/user/user_esp_platform_timer.c:338-342 | a list of timers formatted, joined with `;`, cut and read gives the list back |
| TimerSchedule.PhaseIsRemainder | examples/IoT_Demo/user/user_esp_platform_timer.c:162-174 | the recursive remainders are the mathematical one for every dividend, and C's truncating one for negative dividends |
| TimerSchedule.DueMeans | examples/IoT_Demo/user/user_esp_platform_timer.c:154-182 | when a loop or weekly timer is due, as a congruence |
| TimerSchedule.LoopWait | examples/IoT_Demo/user/user_esp_platform_timer.c:162-162 | the wait of a loop timer is the least positive one that leads to an instant divisible by the period |
| TimerSchedule.WeeklyWaitExact | examples/IoT_Demo/user/user_esp_platform_timer.c:174-182 | the wait of a weekly timer is the least positive one to its instant if and only if the clock has reached the reference Monday, or stands at the start of a week, or at the offset or behind it within the week |
| TimerSchedule.WeeklyWaitBeforeMonday | examples/IoT_Demo/user/user_esp_platform_timer.c:174-182 | a clock just before the reference Monday makes the wait miss the due instant by a week |
| TimerSchedule.WaitIsRight | examples/IoT_Demo/user/user_esp_platform_timer.c:138-186 | for all three kinds: no due instant lies before the computed wait, the wait ends at one, and it is not positive only for a fixed timer that is due or past |
| TimerSchedule.MinWaitBelow | examples/IoT_Demo/user/user_esp_platform_timer.c:110-120 | the minimum is below every wait that is not negative |
| TimerSchedule.MinWaitReached | examples/IoT_Demo/user/user_esp_platform_timer.c:110-120 | a minimum below its starting value is some timer's wait |
| TimerSchedule.BatchIsDue | examples/IoT_Demo/user/user_esp_platform_timer.c:279-285 | the jobs whose wait equals the minimum are exactly those due at the instant the sleep ends, in list order |
| TimerSchedule.QuietBeforeMinWait | examples/IoT_Demo/user/user_esp_platform_timer.c:110-120 | no timer is due strictly inside the sleep |
| TimerSchedule.MinWaitZero | examples/IoT_Demo/user/user_esp_platform_timer.c:189-192 | the early return happens if and only if a fixed timer is due at this very second or an entry is unrecognised |
| TimerSchedule.ExecuteAll | examples/IoT_Demo/user/user_esp_platform_timer.c:214-231 | the whole batch runs and the next round is computed if and only if every action is a known one |
| TimerSchedule.ExecuteEndsAt | examples/IoT_Demo/user/user_esp_platform_timer.c:214-231 | a batch ends at the first action that is not a known one, and the next round is computed if and only if there is none or it starts with 0 |
| TimerSchedule.ExecuteIs | examples/IoT_Demo/user/user_esp_platform_timer.c:214-231 | whatever the relay, a batch executes the jobs in front of its first unknown action, and the next round follows if and only if there is none or it starts with 0 |
| TimerSchedule.RanMembers | examples/IoT_Demo/user/user_esp_platform_timer.c:214-231 | a job is executed at a second if and only if its timer is due and every timer due in front of it in the list has a known action |
| TimerSchedule.GoesOnMeans | examples/IoT_Demo/user/user_esp_platform_timer.c:214-231 | the round behind a second is computed if and only if the first unknown action due at it, if there is one, starts with 0 |
| TimerSchedule.GivenUpStays | examples/IoT_Demo/user/user_esp_platform_timer.c:227-231 | after any other unknown action the scheduler is stopped for good |
| TimerSchedule.RelayOfBatch | examples/IoT_Demo/user/user_esp_platform_timer.c:214-230 | behind a batch the relay is on or off as the last executed on_switch or off_switch says, or as before if there is none, flipped once by each on_off_switch behind that |
| TimerSchedule.DueJobsAscend | examples/IoT_Demo/user/user_esp_platform_timer.c:279-285 | a batch holds every due timer once, in list order, each with the action of its own entry |
| TimerSchedule.FirstStartKeepsInv | examples/IoT_Demo/user/user_esp_platform_timer.c:129-195 | computing a round keeps the invariant of the scheduler, for lists with any actions: the log is what the batches so far execute, the sleep ends at the next due second, the device timer is armed unless a fixed timer is due |
| TimerSchedule.ExpireKeepsInv | examples/IoT_Demo/user/user_esp_platform_timer.c:205-260 | every expiry of the device timer, hourly recheck or action, keeps that invariant, also the one whose batch is given up at an unknown action |
| TimerSchedule.AllDueMembers | examples/IoT_Demo/user/user_esp_platform_timer.c:205-233 | a firing is in the log of everything due if and only if its jobs are the non-empty set due at its second |
| TimerSchedule.AllRanMembers | examples/IoT_Demo/user/user_esp_platform_timer.c:205-233 | a firing is in the reference log if and only if its jobs are what is executed of the jobs due at its second, and not empty |
| TimerSchedule.AllRanAscends | examples/IoT_Demo/user/user_esp_platform_timer.c:205-233 | the reference log is strictly ascending in time, so nothing is in it twice |
| TimerSchedule.AllOfKnownIsDue | examples/IoT_Demo/user/user_esp_platform_timer.c:205-233 | with known actions only the reference log is everything due |
| TimerSchedule.FiredExactlyRan | examples/IoT_Demo/user/user_esp_platform_timer.c:110-290 | safety over every run of any length, for lists with any actions: what was executed is exactly the reference log up to the second reached, each batch once and in order; the real clock lies between that second and the next firing, with nothing due in between |
| TimerSchedule.RelayFollowsTheLog | examples/IoT_Demo/user/user_esp_platform_timer.c:110-290 | over every run of any list the relay is what all jobs executed so far, in order, make of its state at the start |
| TimerSchedule.FiredExactlyDue | examples/IoT_Demo/user/user_esp_platform_timer.c:110-290 | the same with known actions only: the batches fired are exactly the due ones between the start and the virtual clock |
| TimerSchedule.StopsExactly | examples/IoT_Demo/user/user_esp_platform_timer.c:138-231 | in every run of every list the scheduler is idle if and only if an entry is unrecognised, a fixed timer is due at the second reached, or the first unknown action due at it does not start with 0; it never passes the instant of a fixed timer nor such a second |
| TimerSchedule.StopsExactlyAtFixed | examples/IoT_Demo/user/user_esp_platform_timer.c:138-192 | with known actions only: idle if and only if a fixed timer is due at the clock or an entry is unrecognised |
| TimerSchedule.UnrecognisedNeverArms | examples/IoT_Demo/user/user_esp_platform_timer.c:138-192 | with an entry that starts with none of the three letters nothing is ever armed |
| TimerSchedule.TrailingSeparatorNeverArms | examples/IoT_Demo/user/user_esp_platform_timer.c:56-82 | a list text that ends in the separator has such an entry, the empty one |
| TimerSchedule.NothingAfterFixed | examples/IoT_Demo/user/user_esp_platform_timer.c:189-192 | nothing fires behind the first fixed instant, whatever the actions |
| TimerSchedule.RoundEnds | examples/IoT_Demo/user/user_esp_platform_timer.c:243-260 | from any state of any run that sleeps, finitely many expiries end the sleep at the planned second, with the real clock there too |
| TimerSchedule.EveryDueIsFired | examples/IoT_Demo/user/user_esp_platform_timer.c:110-290 | liveness, for lists with any actions: whatever is due with nothing unknown in front of it, and with nothing to stop the scheduler before, is executed by some run, at its own second |
| TimerSchedule.FiredAtExactly | examples/IoT_Demo/user/user_esp_platform_timer.c:110-290 | a timer of a list with any actions is executed at a second, by some run, if and only if it is due then, every timer due then in front of it has a known action, no fixed instant lies between the start and that second, and no second between them is given up at an unknown action |
| TimerSchedule.KnownFiredAtExactly | examples/IoT_Demo/user/user_esp_platform_timer.c:110-290 | with known actions only: if and only if it is due then and no fixed instant lies between |
| TimerSchedule.ZeroActionDrops | examples/IoT_Demo/user/user_esp_platform_timer.c:214-214 | of two timers due together the second one is never executed when the action of the first starts with 0, although nothing stops the scheduler |
| TimerSchedule.ChunkedSleep | examples/IoT_Demo/user/user_esp_platform_timer.c:243-260 | a sleep of m seconds takes m/3600 hourly expiries and one shorter one, arms exactly 1000*m milliseconds in all and runs the actions once at the end |
| PlatformTimer.Scheduler.constructor | examples/IoT_Demo/user/user_esp_platform_timer.c:129-136 | the scheduler at power-up: no timer armed, clock at zero |
| PlatformTimer.Scheduler.FindMinTime | examples/IoT_Demo/user/user_esp_platform_timer.c:110-120 | the minimum loop computes the minimum of the waits that are not negative |
| PlatformTimer.Scheduler.OverflowCheck | examples/IoT_Demo/user/user_esp_platform_timer.c:243-260 | arms an hour or the rest and takes an hour off the backup, wrapping as uint32 |
| PlatformTimer.Scheduler.TimerAction | examples/IoT_Demo/user/user_esp_platform_timer.c:270-290 | collects the minimisers into a new parameter block and arms the timer |
| PlatformTimer.Scheduler.ReadEntry | examples/IoT_Demo/user/user_esp_platform_timer.c:138-186 | reads wait and action of one entry by cutting its text |
| PlatformTimer.Scheduler.ReadEntries | examples/IoT_Demo/user/user_esp_platform_timer.c:138-187 | reads every entry of the list, in order |
| PlatformTimer.Scheduler.ComputeWaits | examples/IoT_Demo/user/user_esp_platform_timer.c:136-189 | the new clock value, every wait and action, and their minimum |
| PlatformTimer.Scheduler.StartRound | examples/IoT_Demo/user/user_esp_platform_timer.c:129-195 | one round on the globals is the step of the schedule machine; with a zero minimum the block stays the old one |
| PlatformTimer.Scheduler.RunBatchActions | examples/IoT_Demo/user/user_esp_platform_timer.c:214-230 | the loop over the batch switches the relay as the machine's execution does and reports where it stopped; RelayOfBatch says what that makes of the relay |
| PlatformTimer.Scheduler.RunActions | examples/IoT_Demo/user/user_esp_platform_timer.c:205-230 | runs the batch and logs what was executed |
| PlatformTimer.Scheduler.Expired | examples/IoT_Demo/user/user_esp_platform_timer.c:205-260 | whichever callback the timer was armed with, one expiry is one step of the machine on the list as it stood, and the list text stays |
| PlatformTimer.Scheduler.TimerStart | examples/IoT_Demo/user/user_esp_platform_timer.c:300-344 | a new list is cut, read and scheduled; an empty list disarms the timer |
| UartRing.CpyAppends | app/user/uart.c:425-446 | with room for the data the copy appends it to the queue, whether it goes round the end or not |
| UartRing.DeqTakesOldest | app/user/uart.c:464-492 | on a ring that is not full all three cases return the oldest min(want, stored) bytes in order and leave the rest; the copies stay inside the buffer |
| UartRing.DeqOfFullOverruns | app/user/uart.c:470-473 | on a full ring that does not start at the first byte, asking for everything reads past the buffer |
| UartRing.EnqAppends | app/user/uart.c:510-519 | the byte loop appends what the FIFO held |
| UartRing.InsertTakesOldest | app/user/uart.c:562-573 | the bytes pushed to the FIFO are the oldest ones, in order, and the rest stays queued |
| UartProtocol.RxTaskKeepsInv | app/user/uart.c:501-526 | the receive task keeps the receive invariant |
| UartProtocol.RxDequeueKeepsInv | app/user/uart.c:464-497 | a read by the application keeps the receive invariant |
| UartProtocol.RxDequeueWakes | app/user/uart.c:493-495 | a read that leaves room for a full FIFO re-enables reception |
| UartProtocol.RxTaskExactly | app/user/uart.c:501-526 | a task with an event pending moves the whole FIFO behind the ring's contents exactly if fewer bytes wait than are free, otherwise nothing, and reception comes back exactly if half the ring is free then |
| UartProtocol.RxDequeueExactly | app/user/uart.c:464-497 | a read hands over the oldest bytes, as many as are asked for or stored, the rest stays, and reception comes back exactly if half the ring is free then |
| UartProtocol.RxInterruptExactly | app/user/uart.c:233-242 | the interrupt switches reception off and leaves one event more, unless ten are pending |
| UartProtocol.RxStepKeepsInv | app/user/uart.c:233-242 | every step of arrival, interrupt, task and read keeps it |
| UartProtocol.RxRun | app/user/uart.c:213-526 | every run of any events from a good state ends in a good state |
| UartProtocol.RxEveryRun | app/user/uart.c:213-526 | over every run: the ring is never full, delivered bytes, ring and FIFO are the received bytes in order, and reception is enabled, an event is pending or at most 128 bytes of room are left |
| UartProtocol.RxDelivers | app/user/uart.c:284-300 | liveness: from every reachable state read, interrupt, task and read deliver everything received |
| UartProtocol.TxDrainMoves | app/user/uart.c:582-603 | a drain moves the oldest bytes, as many as are stored or fit, never over 128, and re-enables the interrupt if and only if bytes stay behind; the uint8 narrowing loses nothing |
| UartProtocol.TxEnqueueKeepsInv | app/user/uart.c:531-557 | an enqueue of the application keeps the transmit invariant |
| UartProtocol.TxStepKeepsInv | app/user/uart.c:243-255 | every step of enqueue, empty interrupt and FIFO output keeps it |
| UartProtocol.TxRun | app/user/uart.c:531-603 | every allowed run from a good state ends in a good state |
| UartProtocol.TxEveryRun | app/user/uart.c:531-603 | over every run: sent bytes, FIFO and ring are the accepted bytes in order, and whenever the ring holds something the empty interrupt is enabled |
| UartProtocol.TxEnqueueExactly | app/user/uart.c:531-557 | an enqueue takes its data in whole, behind what is queued, exactly if there is room for them and a buffer or heap for one, otherwise nothing; the empty interrupt is enabled either way |
| UartProtocol.TxRunTakes | app/user/uart.c:531-603 | over every run, what was sent, stands in the FIFO and waits in the ring is what was there at the start and the data of those enqueues that found room, in order; which ones did is computed from the events by counting |
| UartProtocol.TxFlushes | app/user/uart.c:582-603 | liveness: two rounds of interrupt and output send everything accepted |
| UartProtocol.TxSendsTaken | app/user/uart.c:531-603 | from initialisation, two rounds behind any run, the line has carried exactly the data of those enqueues that found room |
| UartProtocol.LazyCreateExact | app/user/uart.c:535-539 | for every length: an enqueue that creates the buffer stays inside it and sends the data unchanged, whatever they are, if and only if it brings at most 256 bytes; beyond 512 it writes outside |
| UartProtocol.LazyOverwrites | app/user/uart.c:535-539 | longer data are not delivered whenever the 257th byte differs from the first |
| UartProtocol.LazyDeliversExactly | app/user/uart.c:535-539 | data given to an enqueue that creates the buffer are sent unchanged if and only if they are at most 256 bytes, or at most 512 of which those behind the 256th repeat the first ones |
| UartProtocol.LazyBlindsRoomTest | app/user/uart.c:535-547 | behind a creation with 257 to 512 bytes the count of free bytes has wrapped, and the room test of the next enqueue accepts data that do not fit |
| UartDriver.UartBuffer.constructor | app/user/uart.c:402-421 | a new buffer is an empty ring, whatever its memory holds |
| UartDriver.UartBuffer.BufCpy | app/user/uart.c:425-446 | the copy in one or two parts on the heap is the ring function |
| UartDriver.UartBuffer.Dequeue | app/user/uart.c:464-492 | the read in place is the ring function |
| UartDriver.UartBuffer.Take | app/user/uart.c:470-492 | the three copy cases of the read |
| UartDriver.UartBuffer.Enqueue | app/user/uart.c:510-519 | the byte loop in place is the ring function |
| UartDriver.UartBuffer.FifoInsert | app/user/uart.c:562-573 | the output loop in place is the ring function |
| UartDriver.Uart.constructor | app/user/uart.c:312-326 | after initialisation both invariants hold, with or without a transmit buffer |
| UartDriver.Uart.RxInterrupt | app/user/uart.c:233-242 | the full and timeout arms are one step of the receive machine |
| UartDriver.Uart.ReceiveTask | app/user/uart.c:284-300 | the task is one step of the receive machine and leaves transmission alone |
| UartDriver.Uart.RxDequeue | app/user/uart.c:464-497 | the read is one step of the receive machine, and what it returns is what was delivered |
| UartDriver.Uart.TxEnqueue | app/user/uart.c:531-557 | the enqueue, lazy creation included, is one step of the transmit machine and leaves reception alone; the invariants survive whatever fits; TxEnqueueExactly says what is taken in |
| UartDriver.Uart.TxStartBuffer | app/user/uart.c:582-603 | the drain in place is the machine's drain |
| UartDriver.Uart.TxEmptyInterrupt | app/user/uart.c:243-255 | the empty arm is one step of the transmit machine |
| I2cDecoder.HighMovesAreConditions | examples/IoT_Demo/driver/i2c_master.c:131-158 | in any trace the moves of SDA under a high SCL are exactly the starts and stops an observer decodes |
| I2cMaster.Bus.constructor | examples/IoT_Demo/driver/i2c_master.c:103-117 | the open-drain lines start high and idle |
| I2cMaster.Bus.SetDC | examples/IoT_Demo/driver/i2c_master.c:29-45 | drives both lines; the observer sees one more level, and at most one line moves |
| I2cMaster.Bus.StartCondition | examples/IoT_Demo/driver/i2c_master.c:131-139 | the observer sees exactly a start |
| I2cMaster.Bus.StopCondition | examples/IoT_Demo/driver/i2c_master.c:148-158 | the observer sees exactly a stop, and both lines end high |
| I2cMaster.Bus.WriteByte | examples/IoT_Demo/driver/i2c_master.c:292-316 | the observer has read the eight bits of the byte, most significant first, and no condition |
| I2cMaster.Bus.GetAck | examples/IoT_Demo/driver/i2c_master.c:188-204 | returns the slave's answer and completes the byte with it |
| I2cMaster.Bus.ReadByte | examples/IoT_Demo/driver/i2c_master.c:252-283 | returns the number made of the slave's eight answers, and the observer reads the same one |
| I2cMaster.Bus.SetAck | examples/IoT_Demo/driver/i2c_master.c:167-179 | completes the byte with the master's own answer |
| I2cMaster.Bus.Init | examples/IoT_Demo/driver/i2c_master.c:69-93 | whatever frame was open and whether or not the slave held SDA low: the bus ends idle if and only if the slave lets go at the last of the 28 pulses, and otherwise SDA stays low |
| I2cMaster.Bus.Address | examples/IoT_Demo/user/user_sensor.c:60-62 | a start and an address byte with the slave's answer |
| I2cMaster.Bus.ReadAnswered | examples/IoT_Demo/user/user_sensor.c:71-73 | one round of the data loop |
| I2cMaster.Bus.ReadData | examples/IoT_Demo/user/user_sensor.c:70-74 | the loop puts byte after byte into the buffer and nothing behind it, acknowledging all but the last |
| I2cMaster.Bus.ReadFrom | examples/IoT_Demo/user/user_sensor.c:60-79 | the second half: address, data, stop, or a stop right after a refused address |
| I2cMaster.Bus.BurstRead | examples/IoT_Demo/user/user_sensor.c:42-79 | for every address, length and slave: the trace decodes to exactly the intended transaction, each step moves at most one line, both lines end high on every return path, and the bytes are the slave's; true if and only if both addresses were acknowledged |
| TailQueue.ChainParts | include/queue.h:104-202 | a chain of nodes splits at every place into two chains |
| TailQueue.Queue.Init | include/queue.h:127-130 | an empty queue whose last-pointer addresses the head's own slot |
| TailQueue.Queue.IsEmpty | include/queue.h:112-112 | true if and only if the queue has no element |
| TailQueue.Queue.Last | include/queue.h:150-154 | the last element, or nothing |
| TailQueue.Queue.Concat | include/queue.h:104-110 | concatenation; the second queue is empty afterwards |
| TailQueue.Queue.InsertHead | include/queue.h:138-142 | cons |
| TailQueue.Queue.InsertTail | include/queue.h:144-148 | snoc |
| TailQueue.Queue.InsertAfter | include/queue.h:132-136 | the element stands right behind the given one, also at the end |
| TailQueue.Queue.Remove | include/queue.h:158-170 | exactly that element leaves, the order of the rest stays, and the walk ends |
| TailQueue.Queue.RemoveHead | include/queue.h:172-176 | the first element leaves |
| TailQueue.Queue.RemoveAfter | include/queue.h:178-182 | the element behind the given one leaves |
| TailQueue.Queue.Swap | include/queue.h:184-195 | the queues exchange their elements, with either one empty and also with itself |
| TailQueue.Queue.InsertChainHead | include/queue.h:197-202 | a whole chain comes in front |
| TcpPcbLists.PcbLists.Reg | examples/lwip_open_src_template_proj/include/lwip/tcp_impl.h:372-377 | a block in no list becomes the first of this one; the others stay |
| TcpPcbLists.PcbLists.Unlink | examples/lwip_open_src_template_proj/include/lwip/tcp_impl.h:381-393 | the walk ends and takes the block out of this list if it is there |
| TcpPcbLists.PcbLists.ClearLink | examples/lwip_open_src_template_proj/include/lwip/tcp_impl.h:394-394 | clearing the link cuts every list behind the block |
| TcpPcbLists.PcbLists.Rmv | examples/lwip_open_src_template_proj/include/lwip/tcp_impl.h:379-395 | removal in place, for every block, listed here, elsewhere or nowhere |
| TcpPcbLists.RmvOfListed | examples/lwip_open_src_template_proj/include/lwip/tcp_impl.h:379-395 | a block of this list, or of none, is the only thing removed; all lists stay acyclic and disjoint, and it is in none afterwards |
| TcpPcbLists.RemovedKeepsRest | examples/lwip_open_src_template_proj/include/lwip/tcp_impl.h:388-391 | nothing else is lost |
| TcpPcbLists.RmvHarmlessExactly | examples/lwip_open_src_template_proj/include/lwip/tcp_impl.h:379-395 | removing from the wrong list leaves the other lists whole if and only if the block ends every list it is in |
| TcpPcbLists.RegThenRmv | examples/lwip_open_src_template_proj/include/lwip/tcp_impl.h:372-395 | removal undoes registration |
| TcpPcbLists.EveryRunStaysApart | examples/lwip_open_src_template_proj/include/lwip/tcp_impl.h:372-395 | over every sequence that registers only unlisted blocks, with removals of any block from any list, the lists stay acyclic and disjoint |
| TcpPcbLists.EveryRunLocates | examples/lwip_open_src_template_proj/include/lwip/tcp_impl.h:372-395 | when removals, too, name the right list, each block is in the list of its last registration, or in none after its removal |
| ScanList.ScanResult.FreeAll | examples/IoT_Demo/user/user_webserver.c:1235-1241 | every node of the old list is freed once, in order, its link being read before |
| ScanList.ScanResult.Extend | examples/IoT_Demo/user/user_webserver.c:1244-1250 | a zeroed node becomes the last one, or the head |
| ScanList.BssInfo.CopyInfo | examples/IoT_Demo/user/user_webserver.c:1255-1259 | bssid, ssid, authmode, rssi and channel are copied, and nothing else |
| ScanList.ScanResult.CopyFrom | examples/IoT_Demo/user/user_webserver.c:1242-1262 | a fresh, terminated list has bssid, ssid, authmode, rssi and channel of the driver's, element by element, up to the first failed allocation, and zeros elsewhere |
| ScanList.ScanResult.ScanCallback | examples/IoT_Demo/user/user_webserver.c:1235-1263 | both loops: the old list freed once, the new one a copy or a prefix of it, the driver's list untouched |
| ScanList.GrantedAll | examples/IoT_Demo/user/user_webserver.c:1251-1253 | the copy is complete if and only if every allocation succeeds |
| LightFade.BlendExact | examples/IoT_Demo/user/user_light_adj.c:133-133 | the 32-bit filter is the intended one if and only if 15*now+target fits 32 bits |
| LightFade.BlendWrapsAt2To28 | examples/IoT_Demo/user/user_light_adj.c:133-135 | a duty of 2^28 that is already reached is thrown to zero |
| LightFade.OneTickAwayExactly | examples/IoT_Demo/user/user_light_adj.c:133-135 | a target is one tick away from some duty if and only if it is at most 18 beyond 2^28 |
| LightFade.TickShrinks | examples/IoT_Demo/user/user_light_adj.c:133-135 | a tick stays between old value and target; a gap that does not snap shrinks strictly and by the factor 15/16 above 15; it snaps exactly at gaps up to 20 from below and 21 from above |
| LightFade.SyncedSettles | examples/IoT_Demo/user/user_light_adj.c:129-137 | a channel whose cache tells the truth reaches its target within as many ticks as the gap is wide |
| LightFade.SettlesUnlessStuck | examples/IoT_Demo/user/user_light_adj.c:129-137 | so does every channel that is not stuck, two ticks later |
| LightFade.StuckStays | examples/IoT_Demo/user/user_light.c:44-51 | a stuck channel, whose cache already holds the target while the PWM does not, never moves its PWM |
| LightFade.NeverAtUnreachable | examples/IoT_Demo/user/user_light_adj.c:129-137 | a PWM that is not at a target from 0x10000013 on never gets there |
| LightFade.FadeEndsExactly | examples/IoT_Demo/user/user_light_adj.c:129-154 | the ticks reach all targets if and only if no channel is stuck |
| LightFade.BootRestoreStuckExactly | examples/IoT_Demo/user/user_light.c:98-128 | a dark channel whose cache holds the saved duty is stuck if and only if that duty is 1 to 20 |
| LightEngine.RingInvIsModular | examples/IoT_Demo/user/user_light_adj.c:35-56 | the free index is the used one plus the requests in between, modulo 40 |
| LightEngine.AdjOfNone | examples/IoT_Demo/user/user_light_adj.c:129-156 | with an empty ring one call ends at rest, finished if and only if the tick reached every target |
| LightEngine.SetAimTakesLatest | examples/IoT_Demo/user/user_light_adj.c:250-330 | every request is taken at once: the ring is empty again, the clipped duties are the targets, a running fade goes on, otherwise one starts |
| LightEngine.SetAimClips | examples/IoT_Demo/user/user_light_adj.c:254-261 | each target behind a request is the duty asked for if 45 times it is at most 1000 times the period, taken modulo 2^32, and otherwise the greatest duty for which that holds |
| LightEngine.ExpireKeepsRest | examples/IoT_Demo/user/user_light_adj.c:129-156 | so does every expiry, without changing the targets |
| LightEngine.SetAimOfStartsNoFade | examples/IoT_Demo/user/user_light_adj.c:80-112 | the single-channel setters move no PWM and start no fade; at rest they put the new duty into the cache |
| LightEngine.EveryRunRests | examples/IoT_Demo/user/user_light_adj.c:80-330 | over every run of requests, single-channel setters and expiries: no request waits between steps, the timer runs exactly while a fade does, and every channel aims at the latest duty it was given |
| LightEngine.StepPeriodAndSleep | examples/IoT_Demo/user/user_light_adj.c:171-198 | a step leaves the PWM at the period last asked for, and lets the radio sleep exactly if it ends with the fade over and every PWM dark |
| LightEngine.EveryRunPeriod | examples/IoT_Demo/user/user_light_adj.c:254-254 | over every run the PWM's period is the one last asked for, at most 10000, and the saved one |
| LightEngine.StepKeepsSynced | examples/IoT_Demo/user/user_light_adj.c:129-198 | requests and expiries keep cache and PWM equal, duties in range, and a finished fade settled |
| LightEngine.Run | examples/IoT_Demo/user/user_light_adj.c:129-330 | over every run of requests and expiries cache and PWM agree, duties stay in range and a finished fade is settled |
| LightEngine.ExpiryShrinks | examples/IoT_Demo/user/user_light_adj.c:129-148 | an expiry during a fade ends it or shrinks the widest gap |
| LightEngine.FadeConverges | examples/IoT_Demo/user/user_light_adj.c:129-330 | after any run of requests and expiries, expiries alone bring every PWM to the latest target and stop the timer |
| LightEngine.FadeConvergesFromDark | examples/IoT_Demo/user/user_light_adj.c:129-330 | from power-up with nothing saved, too, expiries bring every PWM to the duty last asked for, and stop |
| LightEngine.FadeToUnreachable | examples/IoT_Demo/user/user_light_adj.c:129-156 | a fade in which some PWM is not yet at a target from 0x10000013 on never ends |
| LightEngine.FadeFinishesExactly | examples/IoT_Demo/user/user_light_adj.c:129-156 | from any cache and PWM contents a fade ends if and only if no channel is stuck |
| LightEngine.SetAimOfStuckExactly | examples/IoT_Demo/user/user_light_adj.c:80-112 | a single-channel setter at rest leaves its channel stuck if and only if the duty is new and one tick away |
| LightEngine.RequestFinishesExactly | examples/IoT_Demo/user/user_light_adj.c:129-330 | from any state at rest or in a fade, a request is faded to the end if and only if none of its channels is stuck |
| LightEngine.BootFadeFinishesExactly | examples/IoT_Demo/user/user_light.c:98-136 | from the engine as booted, the fade to the saved duties ends if and only if none of them is 1 to 20 |
| LightEngine.FadeAfterSetterExactly | examples/IoT_Demo/user/user_light_adj.c:80-330 | after a single-channel setter, the fade of a request for the same duty ends if and only if that duty was clipped, was there already, or is more than one tick away |
| LightDevice.Light.UserLightSetDuty | examples/IoT_Demo/user/user_light.c:44-51 | skips the PWM when the cache has the value, and touches no other channel |
| LightDevice.Light.UserLightSetPeriod | examples/IoT_Demo/user/user_light.c:72-79 | skips the PWM when the period is the saved one |
| LightDevice.Light.TickChannels | examples/IoT_Demo/user/user_light_adj.c:132-137 | the loop over the channels is the tick of each |
| LightDevice.Light.DutyDiffers | examples/IoT_Demo/user/user_light_adj.c:115-126 | true if and only if some PWM differs from its target |
| LightDevice.Light.DutyZero | examples/IoT_Demo/user/user_light_adj.c:159-168 | true if and only if every PWM is dark |
| LightDevice.Light.SaveTargetDuty | examples/IoT_Demo/user/user_light_adj.c:63-76 | the cache takes the targets and the driver's period |
| LightDevice.Light.AdjProc | examples/IoT_Demo/user/user_light_adj.c:129-156 | in place, the engine's tick procedure; the mutual recursion ends |
| LightDevice.Light.TakeRequest | examples/IoT_Demo/user/user_light_adj.c:174-181 | the oldest request leaves the ring and becomes the target |
| LightDevice.Light.SmoothProc | examples/IoT_Demo/user/user_light_adj.c:171-198 | in place, the engine's smoothing procedure |
| LightDevice.Light.TimerExpired | examples/IoT_Demo/user/user_light_adj.c:143-147 | an expiry is one step of the engine and leaves it at rest |
| LightDevice.Light.EvtMalloc | examples/IoT_Demo/user/user_light_adj.c:35-50 | the next slot of the ring, or none when 40 are in use |
| LightDevice.Light.ClipRequest | examples/IoT_Demo/user/user_light_adj.c:254-261 | the request written into the slot is the engine's |
| LightDevice.Light.LightSetAim | examples/IoT_Demo/user/user_light_adj.c:250-330 | a request in place is the engine's request |
| LightDevice.Light.LightSetAimOf | examples/IoT_Demo/user/user_light_adj.c:80-112 | a single-channel setter in place is the engine's |
| CurrentLimit.NoWrapExactly | examples/IoT_Demo/user/user_light_adj.c:205-206 | up to the duty limit the 32-bit product does not wrap if and only if the period is at most 8504 |
| CurrentLimit.EstimateIsMeant | examples/IoT_Demo/user/user_light_adj.c:203-243 | for those periods the estimate is the one meant, at most full scale |
| CurrentLimit.MeantIs | examples/IoT_Demo/user/user_light_adj.c:205-233 | the current meant, written out with each channel's full scale |
| CurrentLimit.ReadIsPlain | examples/IoT_Demo/user/user_light_adj.c:205-233 | the current estimated, written out, with the product modulo 2^32 |
| CurrentLimit.ReadIs | examples/IoT_Demo/user/user_light_adj.c:203-243 | for every period and every duty clipped by it, the function returns a value within full scale, and the one meant where the product does not wrap |
| CurrentLimit.RemainIsPositive | examples/IoT_Demo/user/user_light_adj.c:271-276 | for every request the colours never use up the budget, so the unsigned rest does not underflow |
| CurrentLimit.ReadCurrent | examples/IoT_Demo/user/user_light_adj.c:203-243 | the 32-bit calculation returns the estimate, for every duty light_set_aim can pass |
| CurrentLimit.ScaleOnce | examples/IoT_Demo/user/user_light_adj.c:310-313 | one round scales the whites to nine tenths, rounding down, and reads their currents |
| CurrentLimit.ScaleWhites | examples/IoT_Demo/user/user_light_adj.c:309-314 | the loop ends with what the scaling function makes of the whites, with the colours unchanged |
| CurrentLimit.WhitesAreLeast | examples/IoT_Demo/user/user_light_adj.c:309-314 | the whites are scaled by the least number of rounds that makes their estimates fit |
| CurrentLimit.ScaledStep | examples/IoT_Demo/user/user_light_adj.c:310-311 | a round takes nine tenths, rounded down |
| CurrentLimit.LimitedIsLeastEstimate | examples/IoT_Demo/user/user_light_adj.c:263-314 | for every period the limiter scales the whites by the least number of rounds after which all estimates and the margin of 80000 are at most 450000 |
| CurrentLimit.LimitedIsLeast | examples/IoT_Demo/user/user_light_adj.c:263-314 | where no product wraps, the same of the currents meant |
| CurrentLimit.UnchangedExactly | examples/IoT_Demo/user/user_light_adj.c:263-314 | where no product wraps, a request is left alone if and only if the currents meant and the margin fit the budget |
| CurrentLimit.LimitCurrent | examples/IoT_Demo/user/user_light_adj.c:253-314 | for every period: the duties are those of the limiting function; where no product wraps, the total meant and the margin of 80000 are at most 450000 |
| CurrentLimit.LargeDutyExceeds | examples/IoT_Demo/user/user_light_adj.c:203-314 | for every period whose products can wrap, an allowed request that the limiter lets through unscaled although the currents meant exceed the budget |
| CurrentLimit.BudgetKeptExactly | examples/IoT_Demo/user/user_light_adj.c:203-314 | for every period: all allowed requests end within the budget if and only if the product at the duty limit does not wrap; up to 10000, if and only if the period is at most 8504 |
| CurrentLimit.WrapDefeatsLimiter | examples/IoT_Demo/user/user_light_adj.c:203-314 | in numbers: at period 10000 with full duties the wrapped estimates ask for no scaling although the budget is exceeded |
| KeyProtocol.PressesBalance | examples/IoT_Demo/driver/key.c:88-161 | in a log of the right form, presses are releases plus the one under way, and a press has at most one long press |
| KeyProtocol.LongPressesAreApart | examples/IoT_Demo/driver/key.c:89-99 | between two long presses lie a release and a new press |
| KeyProtocol.StepKeepsInv | examples/IoT_Demo/driver/key.c:89-161 | each handler keeps: up exactly with a falling-edge trigger, debounce timer armed exactly while the interrupt is off, long-press timer only while down, and the log in step |
| KeyProtocol.KeysAreIndependent | examples/IoT_Demo/driver/key.c:138-160 | in any run a key ends as if only its own events had happened |
| KeyProtocol.RunMeans | examples/IoT_Demo/driver/key.c:89-161 | over every run from initialisation, level, trigger, timers and log are what the events say: presses are the interrupts that find the key up, releases exactly the expiries of the armed 50 ms timer with the pin high, long presses exactly the expiries of the armed 5 s timer with the pin low; a 50 ms expiry with the pin low leaves the key down with a rising-edge trigger |
| KeyProtocol.DownMeans | examples/IoT_Demo/driver/key.c:88-161 | the key is down exactly if some interrupt has no confirmed release behind it |
| KeyProtocol.EveryRun | examples/IoT_Demo/driver/key.c:53-161 | for any number of keys and any run: the invariant, presses are releases plus one exactly while the key is down, and the log is what the key's own events say |
| KeyDriver.SingleKey.constructor | examples/IoT_Demo/driver/key.c:33-44 | a new record holds its pin and callbacks, no timer armed |
| KeyDriver.KeyPad.constructor | examples/IoT_Demo/driver/key.c:53-80 | initialisation leaves every key up, on a falling edge, with no pending interrupt |
| KeyDriver.KeyPad.InitKey | examples/IoT_Demo/driver/key.c:62-76 | initialises one key and no other |
| KeyDriver.KeyPad.HandleKey | examples/IoT_Demo/driver/key.c:139-159 | the step of one key whose bit is set, with no other key touched |
| KeyDriver.KeyPad.IntrHandler | examples/IoT_Demo/driver/key.c:133-161 | each key whose bit was set takes the interrupt step, every other one none, and the handled bits are cleared |
| KeyDriver.KeyPad.Key50msCb | examples/IoT_Demo/driver/key.c:108-124 | the debounce expiry is one step of its key, with its callback, if installed, called once per confirmed release; RunMeans says what the step decides |
| KeyDriver.KeyPad.Key5sCb | examples/IoT_Demo/driver/key.c:89-99 | the long-press expiry is one step of its key, with its callback, if installed, called once per long press; RunMeans says what the step decides |
| AppImage.Le32RoundTrip | tools/gen_appbin.py:75-75 | a word survives packing and unpacking |
| AppImage.Pad4Is | tools/gen_appbin.py:72-72 | padding appends the zeros to the next multiple of four |
| AppImage.Pad16Is | tools/gen_appbin.py:74-74 | padding appends the zeros to the next multiple of sixteen |
| AppImage.XorAllPadded | tools/gen_appbin.py:85-91 | padding does not change the checksum |
| AppImage.XorBits | tools/gen_appbin.py:81-82 | the exclusive or is taken bit by bit |
| AppImage.XorAllDetects | tools/gen_appbin.py:81-82 | the checksum changes with every change of one byte |
| AppImage.ReadsRecords | tools/gen_appbin.py:70-92 | the records of non-empty sections are read back in order, each padded |
| AppImage.FlashPartFillsLines | tools/gen_appbin.py:241-247 | with padding and checksum the file is a whole number of 16-byte lines |
| AppImage.ReaderRoundTrip | tools/gen_appbin.py:226-247 | an independent reader gets header fields, start addresses and padded sections back from the flash part at any 16-aligned place, and accepts its checksum |
| AppImage.WrittenAtMost | tools/gen_appbin.py:224-238 | the section count packed into the header is right if and only if no section is empty |
| AppImage.ReaderOnAnySections | tools/gen_appbin.py:226-247 | what the reader makes of any three sections: all of them if none is empty; with exactly one empty and enough padding, the other two and a third one without bytes at address 0; nothing otherwise |
| AppImage.ReadableExactly | tools/gen_appbin.py:226-247 | an image is readable if and only if no section is empty, or exactly one is and the other two, padded, come to 8 or 12 modulo 16 |
| AppImage.RoundTripExactly | tools/gen_appbin.py:226-247 | the sections read are those written if and only if none is empty, or the last one is, its address is 0, and the padding supplies it |
| AppImage.IromAlignsExactly | tools/gen_appbin.py:214-222 | the flash part behind the irom part is 16-aligned if and only if there is irom text |
| AppImage.ReadBackExactly | tools/gen_appbin.py:226-247 | a flash part with three non-empty sections is read back if and only if it stands at a 16-aligned place |
| AppImageWriter.Writer.constructor | tools/gen_appbin.py:38-41 | a new file, checksum at 0xEF |
| AppImageWriter.Writer.AddToChecksum | tools/gen_appbin.py:81-82 | the loop folds the bytes into the checksum |
| AppImageWriter.Writer.WriteChecked | tools/gen_appbin.py:79-91 | bytes are appended and, if asked for, run into the checksum |
| AppImageWriter.Writer.CombineBin | tools/gen_appbin.py:57-92 | appends one record with its padding and runs the section into the checksum; an empty section leaves no trace |
| AppImageWriter.Writer.Finish | tools/gen_appbin.py:241-247 | padding and checksum byte |
| AppImageWriter.Writer.WriteIrom | tools/gen_appbin.py:214-222 | the irom part of boot mode 2 leaves the checksum alone |
| AppImageWriter.Writer.WriteSections | tools/gen_appbin.py:230-238 | the three sections, their checksum and their count |
| AppImageWriter.Writer.WriteFlash | tools/gen_appbin.py:223-247 | header, sections, padding and checksum make up the flash part |
| AppImageWriter.Writer.GenAppbin | tools/gen_appbin.py:211-247 | the whole file in the three boot modes |
| AppImageWriter.FullImageReads | tools/gen_appbin.py:211-247 | in every boot mode the reader finds the entry point and the padded sections at a 16-aligned place of the written file; in mode 2 the file begins with the 0xEA header and the irom text, at address 0 and with zeros up to a multiple of 16 |
| AppImageWriter.BehindIromExactly | tools/gen_appbin.py:211-247 | in boot mode 2 the file begins with the 0xEA header and the irom text, if any, and the flash part behind it is read back if and only if there is some |
| AppImageWriter.FlashPartEnds | tools/gen_appbin.py:247-247 | the last byte is 0xEF exclusive-or every section byte |
| UpgradeProtocol.HeadIsRead | examples/IoT_Demo/user/user_webserver.c:1327-1337 | a request head with the length on its own line, followed by any bytes, is taken for a first packet of that length and exactly that body |
| UpgradeProtocol.HeaderExactly | examples/IoT_Demo/user/user_webserver.c:1327-1328 | a packet passes for a header if and only if an empty line and the key both stand in front of its first NUL |
| UpgradeProtocol.OtherHeaders | examples/IoT_Demo/user/user_webserver.c:1329-1364 | a header that announces zero is forgotten; one without a readable number goes on with the length announced before |
| UpgradeProtocol.FirstPacket | examples/IoT_Demo/user/user_webserver.c:1350-1364 | the first packet starts a download in progress, or ends it when the body is complete |
| UpgradeProtocol.LaterPacket | examples/IoT_Demo/user/user_webserver.c:1366-1376 | a later packet goes on with it, or ends it: one request of at most 64 KiB a packet until the length is reached, no sector more than the requests take, and writing stays inside what was erased |
| UpgradeProtocol.EverySplitProgresses | examples/IoT_Demo/user/user_webserver.c:1317-1388 | for every split of a body shorter than announced: the bytes passed on are the body in order, never ahead of the erased span, n packets have asked for 64n KiB or the whole length, exactly the sectors of that are erased, and the end is not flagged |
| UpgradeProtocol.EverySplitFinishes | examples/IoT_Demo/user/user_webserver.c:1317-1388 | for every split of the whole body: the end is flagged at the last packet and not before, everything was requested and written, exactly the sectors of the length are erased, and the counters are ready again |
| UpgradeProtocol.FlagsWhereCountersMeet | examples/IoT_Demo/user/user_webserver.c:1366-1387 | from any counters, over any run of packets that are no headers: the end is flagged if and only if some packet ends where the counters meet |
| UpgradeProtocol.UploadFlagsExactly | examples/IoT_Demo/user/user_webserver.c:1327-1387 | over any run behind a first packet, with however many bytes: the end is flagged if and only if some packet ends where exactly the announced length has come |
| UpgradeProtocol.OverrunNeverFlags | examples/IoT_Demo/user/user_webserver.c:1366-1387 | a body that passes the announced length inside a packet is never flagged, however many packets follow |
| UpgradeProtocol.StrayPacketsFlagExactly | examples/IoT_Demo/user/user_webserver.c:1366-1387 | with no upload announced, a run of packets flags an end if and only if the first of them is empty |
| LocalUpgrade.LocalUpgrade.constructor | examples/IoT_Demo/user/user_webserver.c:1322-1324 | the static counters start at zero |
| LocalUpgrade.LocalUpgrade.ReadLength | examples/IoT_Demo/user/user_webserver.c:1329-1349 | the announced length, with an early return for zero |
| LocalUpgrade.LocalUpgrade.EraseFirst | examples/IoT_Demo/user/user_webserver.c:1350-1358 | the erase request of the first packet |
| LocalUpgrade.LocalUpgrade.EraseNext | examples/IoT_Demo/user/user_webserver.c:1368-1374 | the erase request of a later packet |
| LocalUpgrade.LocalUpgrade.CheckEnd | examples/IoT_Demo/user/user_webserver.c:1378-1387 | the end test |
| LocalUpgrade.LocalUpgrade.FirstPacket | examples/IoT_Demo/user/user_webserver.c:1327-1364 | the arm for a packet with a header |
| LocalUpgrade.LocalUpgrade.UpgradeDownload | examples/IoT_Demo/user/user_webserver.c:1317-1388 | one packet, from its text, is one step of the download machine |

## Left out

- UART: baud rate, pin and register setup, frame-error and overflow arms, `uart_buf_free`, printing.
- UartDriver.Uart.TxEnqueue: excludes a lazy creation with more than 512 bytes, which writes past the buffer.
- UART: interrupts inside a routine; each routine is a single step.
- I2C: waits, pin setup, clock stretching by the slave, and `i2c_master_checkAck` and its like, which nothing here calls.
- I2C: `retVal |= k` is an addition of disjoint bits.
- Scheduler: finding the timer list in the server's message, overflow of the signed waits, freeing of the texts, and `ESP_DBG`.
- Scheduler: the parameter block is on the heap; in the source it is a local variable whose address outlives it.
- Scheduler: after a list whose first round finds a wait of zero, an older armed timer stays armed; `PlatformTimer.Scheduler.TimerStart` states this, the run lemmas start without one.
- Lists: the singly linked SLIST macros and the FOREACH walks, which would only add easy members.
- Lists: TCP states, `tcp_timer_needed` and the debugging variants of the macros.
- Scan list: the JSON tree and the reply; fields that are not copied are one field that stays zero.
- Light: saving to flash, the sleep-type call, and the PWM start; the limiter is proved on its own and is not part of `LightDevice.Light.LightSetAim`.
- Keys: pin functions and the callbacks' bodies; calls of installed callbacks are counted.
- Image: the fill to 64 KiB and the appended irom text of boot mode 1, the CRC trailer, the symbol table and its parsing.
- Upgrade: the timers around the download, `upgrade_check_func`, the replies and the flag's other values.
- UpgradeProtocol.UploadFlagsExactly: bounds a run to fewer than 2^32 bytes, where the byte counter itself comes round.
- LocalUpgrade.LocalUpgrade.UpgradeDownload: a number whose digits overflow `atoi` is read as its value modulo 2^32.
- The AT and smart-config examples, wps, certificate scripts and the remaining lwIP headers.

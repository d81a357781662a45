# Net-Test packet hold buffer and countdown timer, in Dafny

This project models the two controllers behind Net-Test's VPN service.

**PacketController** is a bounded FIFO of raw packets, each stamped with the
wall-clock time it was enqueued.
- While the controller is active, `enqueuePacket` appends a packet. When the
  buffer is full, it first evicts the oldest entry.
- `releaseInstantBurst` drains every entry held at least `holdDurationMs`
  at one `now` snapshot. It hands their payloads to the sink in one call, and
  makes no call when nothing is eligible.
- `releaseSequentialBurst` drains the same way. It then calls the sink once
  per packet, in buffer order.
- `stop` deactivates the controller and empties the buffer.

**TimerController** is a restartable countdown.
- `start(durationMs)` first stops any earlier run. It then launches a run
  that waits in ticks of at most 250 ms, recomputes
  `durationMs - (clock - startAt)` after each tick, and calls the expiry
  callback once that value is no longer positive.
- `stop` cancels the run and forgets it.

Modules:
- `PacketBuffer` (`packet_buffer.dfy`) holds the value-level specification:
  - `Select`, the stable split of a buffer into the entries eligible at
    `now` and the rest;
  - `Enqueued`, the bounded insert, and `Newest`, "the last n entries";
  - `InstantTrace` and `SequentialTrace`, the sink calls each release mode
    makes;
  - and the lemmas about them.
- `PacketControl` (`packet_controller.dfy`) holds the class
  `PacketController`, with its imperative methods and ghost accounting.
  Every entry ever accepted has been released, discarded (evicted or
  cleared), or is still buffered, so no packet reaches the sink twice. The
  sink log flattens to exactly the released payloads, in order.
- `Countdown` (`countdown.dfy`) holds the tick arithmetic of the timer over
  an abstract clock, and the termination bound.
- `TimerControl` (`timer_controller.dfy`) holds the class `TimerController`.
  A run consumes a sequence of clock readings, one per tick. The callback is
  the log `expirations` of the ids of the runs that fired.
- `Wrappers` (`wrappers.dfy`) holds `Option`.

Each public operation is one atomic step. The wall clock is a `now`
parameter. The timer's clock is the sequence of readings a run observes. The
sink is the log `sinkCalls` of the batches it received. Payloads are a type
parameter, because the controller never inspects them.

The source's `stop` schedules the buffer clear asynchronously and does not
wait for it. That lets a later `start` and `enqueuePacket` race with the
clear. The model performs the clear before `Stop` returns, so that `stop`
followed by `start` is deterministic.

## Model

| member | source | states |
|---|---|---|
| PacketControl.PacketController.constructor | app/src/main/java/com/example/nettest/vpn/PacketController.kt:20-30 | a new controller is inactive, with an empty buffer and no sink calls, and its configuration is fixed |
| PacketControl.PacketController.Start | app/src/main/java/com/example/nettest/vpn/PacketController.kt:32-34 | the controller becomes active and nothing else changes |
| PacketControl.PacketController.Stop | app/src/main/java/com/example/nettest/vpn/PacketController.kt:36-42 | the controller becomes inactive and the buffer empty; every entry that was buffered counts as discarded, so none can reach the sink later |
| PacketControl.PacketController.EnqueuePacket | app/src/main/java/com/example/nettest/vpn/PacketController.kt:44-54 | when inactive, nothing changes; when active, the buffer becomes the bounded insert of the packet stamped with `now`, the packet is accepted and exactly the entry the insert evicts is appended to the discarded ones, so the accounting invariant and the capacity bound are kept |
| PacketControl.PacketController.Insert | app/src/main/java/com/example/nettest/vpn/PacketController.kt:47-52 | the locked section leaves the buffer equal to `Enqueued` of the old buffer: evict the oldest entry when full, then append |
| PacketControl.PacketController.DrainEligiblePackets | app/src/main/java/com/example/nettest/vpn/PacketController.kt:84-96 | the returned payloads are those of the entries eligible at one `now` snapshot, in buffer order; the buffer keeps exactly the others, in order |
| PacketControl.PacketController.ReleaseInstantBurst | app/src/main/java/com/example/nettest/vpn/PacketController.kt:62-67 | the eligible entries leave the buffer and reach the sink as one batch, with no call when there are none; the accounting invariant is kept |
| PacketControl.PacketController.ReleaseSequentialBurst | app/src/main/java/com/example/nettest/vpn/PacketController.kt:76-82 | the eligible entries leave the buffer and reach the sink as singleton batches in buffer order; the accounting invariant is kept |
| PacketControl.PacketController.EmitSequentially | app/src/main/java/com/example/nettest/vpn/PacketController.kt:78-81 | the emission loop makes one sink call per drained packet, in order, and nothing else |
| PacketControl.PacketController.ClearBuffer | app/src/main/java/com/example/nettest/vpn/PacketController.kt:98-102 | the buffer becomes empty and its entries count as discarded |
| PacketControl.EnqueueAccounting | app/src/main/java/com/example/nettest/vpn/PacketController.kt:47-52 | an insert conserves packets: the accepted entries still equal the released, discarded and buffered ones together, as multisets |
| PacketControl.ReleaseAccounting | app/src/main/java/com/example/nettest/vpn/PacketController.kt:62-96 | a release conserves packets and keeps the sink log equal to the payloads of the released entries, in release order |
| PacketBuffer.BufferedPacket | app/src/main/java/com/example/nettest/vpn/PacketController.kt:104-107 | a buffered entry is its payload and the wall-clock time in ms at which it was enqueued |
| PacketBuffer.Eligible | app/src/main/java/com/example/nettest/vpn/PacketController.kt:90 | an entry may be released at `now` exactly when `now - enqueuedAtMs >= holdDurationMs` |
| PacketBuffer.Select | app/src/main/java/com/example/nettest/vpn/PacketController.kt:87-94 | the drain filter: the entries whose eligibility at `now` equals the requested flag, in buffer order, never more than the buffer holds; `true` gives what a drain returns and `false` what it keeps |
| PacketBuffer.SequentialTrace | app/src/main/java/com/example/nettest/vpn/PacketController.kt:78-81 | the sink calls of a sequential release: one singleton batch per ready payload, in order |
| Countdown.RemainingAt | app/src/main/java/com/example/nettest/vpn/TimerController.kt:31 | the remaining time computed after a tick: `durationMs - (now - startAt)` |
| TimerControl.Job | app/src/main/java/com/example/nettest/vpn/TimerController.kt:22-34 | one launched run: its id, duration, start reading, current remaining time and whether it has fired |
| PacketBuffer.SelectAppend | app/src/main/java/com/example/nettest/vpn/PacketController.kt:87-94 | the drain filter distributes over concatenation, so it treats each entry on its own, in order |
| PacketBuffer.SelectCounts | app/src/main/java/com/example/nettest/vpn/PacketController.kt:88-93 | every entry is drained exactly as often as it occurs when it is eligible at `now`, and never otherwise; the same holds for the kept part with eligibility negated |
| PacketBuffer.SelectSound | app/src/main/java/com/example/nettest/vpn/PacketController.kt:88-93 | anything drained was in the buffer and is eligible; anything kept was in the buffer and is not |
| PacketBuffer.SelectPartition | app/src/main/java/com/example/nettest/vpn/PacketController.kt:84-96 | the drained and kept parts together are a permutation of the buffer, and their lengths add up |
| PacketBuffer.SelectUniform | app/src/main/java/com/example/nettest/vpn/PacketController.kt:88-93 | when every entry has the same eligibility, the drain takes all of them or none |
| PacketBuffer.DrainTwice | app/src/main/java/com/example/nettest/vpn/PacketController.kt:84-96 | a second drain at the same `now` releases nothing and leaves the buffer as it was |
| PacketBuffer.EligibilityBoundary | app/src/main/java/com/example/nettest/vpn/PacketController.kt:90 | an entry from time t is still held at t + hold - 1 and eligible at t + hold (inclusive bound) |
| PacketBuffer.Enqueued | app/src/main/java/com/example/nettest/vpn/PacketController.kt:48-51 | the insert keeps the buffer within capacity |
| PacketBuffer.EnqueueConserves | app/src/main/java/com/example/nettest/vpn/PacketController.kt:48-51 | the old buffer plus the new packet is exactly the new buffer plus what was evicted, as multisets |
| PacketBuffer.EnqueuedKeepsNewest | app/src/main/java/com/example/nettest/vpn/PacketController.kt:48-51 | one insert leaves the newest `capacity` entries of the old buffer followed by the packet |
| PacketBuffer.EnqueueAllKeepsNewest | app/src/main/java/com/example/nettest/vpn/PacketController.kt:44-54 | after any series of inserts, the buffer holds exactly the last `capacity` entries, oldest evicted first |
| PacketBuffer.NewestAppend | app/src/main/java/com/example/nettest/vpn/PacketController.kt:48-51 | trimming to the newest n entries before or after appending gives the same result |
| PacketBuffer.EnqueueAsWritten | app/src/main/java/com/example/nettest/vpn/PacketController.kt:48-51 | the insert as written fails exactly when the buffer is empty and the capacity is not positive; with a positive capacity it agrees with `Enqueued` |
| PacketBuffer.ZeroCapacityInsertThrows | app/src/main/java/com/example/nettest/vpn/PacketController.kt:48-49 | with capacity 0 the first insert throws as written, while the corrected insert drops the packet |
| PacketBuffer.FlattenAppend | app/src/main/java/com/example/nettest/vpn/PacketController.kt:62-82 | the payloads delivered by two stretches of sink calls are those of the first followed by those of the second |
| PacketBuffer.InstantTrace | app/src/main/java/com/example/nettest/vpn/PacketController.kt:64-66 | an instant release makes one sink call when something is ready and none otherwise, and delivers exactly the ready payloads |
| PacketBuffer.SequentialTraceDelivers | app/src/main/java/com/example/nettest/vpn/PacketController.kt:78-81 | a sequential release makes one call per ready payload, each a singleton holding that payload in order, and delivers exactly the ready payloads |
| PacketBuffer.EvictionScenario | app/src/main/java/com/example/nettest/vpn/PacketController.kt:44-67 | with capacity 3 and hold 250 ms, enqueuing a, b, c and d at one instant keeps b, c and d; an instant release 260 ms later sends [b, c, d] in one call and empties the buffer |
| PacketBuffer.SequentialScenario | app/src/main/java/com/example/nettest/vpn/PacketController.kt:76-82 | two packets released sequentially after their hold reach the sink as [p] then [q] |
| Countdown.TickWait | app/src/main/java/com/example/nettest/vpn/TimerController.kt:30 | each wait is positive, at most TICK_GRANULARITY_MS (250) and at most the remaining time, and equals one of the two |
| Countdown.ExpiresWithin | app/src/main/java/com/example/nettest/vpn/TimerController.kt:29-31 | when the clock honours every wait, a run with positive remaining time sees a non-positive remaining time within ceil(remaining / 250) ticks, so the loop terminates |
| TimerControl.StopsBy | app/src/main/java/com/example/nettest/vpn/TimerController.kt:29-33 | a loop that exits at the first non-positive remaining time, or when it runs out of readings, has fired by the first tick whose reading shows expiry |
| TimerControl.TimerController.constructor | app/src/main/java/com/example/nettest/vpn/TimerController.kt:17-22 | a new timer has no active run and has fired nothing |
| TimerControl.TimerController.Stop | app/src/main/java/com/example/nettest/vpn/TimerController.kt:37-40 | afterwards there is no active run; a run that had not fired is cancelled and can never fire; with no active run, or after a finished one, nothing else changes |
| TimerControl.TimerController.Start | app/src/main/java/com/example/nettest/vpn/TimerController.kt:24-28 | the previous run is stopped first, so at most one run can still fire; the new run starts at `now` with the full duration remaining |
| TimerControl.TimerController.RunActiveJob | app/src/main/java/com/example/nettest/vpn/TimerController.kt:27-34 | after every tick the remaining time is `durationMs - (reading - startAt)`; each wait is `TickWait` of the remaining time before it; the run fires exactly when the remaining time is no longer positive, immediately when `durationMs <= 0`, at most once, and only for the active uncancelled run; with honoured waits and enough readings it fires within ceil(remaining / 250) ticks |

## Left out

- Concurrency: the coroutine scopes, the mutex and `@Volatile` are not modelled. Each public operation is one atomic step. So the model does not capture interleavings of an `enqueuePacket` coroutine that was launched but has not yet run with other operations.
- PacketControl.PacketController.Stop: `cancelChildren` is not modelled. The clear is synchronous rather than fire-and-forget, so the model does not show the race between the clear and a following `start` and `enqueuePacket`.
- PacketControl.PacketController.ReleaseSequentialBurst: cancelling an emission that is already in flight is not modelled. The whole emission loop is one step.
- PacketControl.PacketController.EmitSequentially: the `delay(fastSequentialDelayMs)` pause between sink calls is not modelled. `fastSequentialDelayMs` is kept only as configuration.
- Clocks: `System.currentTimeMillis` and `SystemClock.elapsedRealtime` become a `now` parameter and a sequence of clock readings, and `delay` becomes a tick. Wall-clock timestamps are not assumed to be ordered.
- Integer width: `Long` and `Int` overflow of the clock arithmetic (`now - enqueuedAtMs`, `durationMs - elapsed`) is not modelled. The model uses unbounded integers.
- Payload bytes: payloads are a type parameter, since the controller never reads them.
- The sink and the expiry callback are logs (`sinkCalls`, `expirations`). Their own behaviour, and any exception they throw, is not modelled.
- TimerControl.TimerController.RunActiveJob: there is no upper bound on the wall-clock time of firing. That would need a bound on how far the clock overshoots each delay, which the scheduler does not promise. Only the tick count is bounded.
- TimerControl.TimerController.Stop: a callback that races with `cancel` on another thread, after the last `delay` has returned, is not modelled.
- MyVpnService.kt is not part of this model. It is the Android VPN plumbing that calls these controllers.

## Findings

| source | as written | input that shows it | evidently intended | confidence | as-written member | corrected member |
|---|---|---|---|---|---|---|
| app/src/main/java/com/example/nettest/vpn/PacketController.kt:48-49 | when `buffer.size >= maxBufferedPackets`, `removeFirst()` runs even on an empty deque, which throws `NoSuchElementException` | `maxBufferedPackets = 0` (or negative), controller active, first `enqueuePacket` | a capacity of zero drops every packet without failing | not executed | PacketBuffer.ZeroCapacityInsertThrows | PacketBuffer.Enqueued |

# event_bus: subscriber table, worker slot pool and latency statistics

A Dafny model of three pieces of in-place state in a FreeRTOS publish/subscribe
event bus:

- the **subscriber table** of `struct event_bus_ctx` (`src/event_bus.c`): a fixed
  array of `MAX_NB_SUBSCRIBERS` (16) entries and a count `sub_nb`, filled by
  `event_bus_subscribe` and reset by `event_bus_init`; `event_bus_publish` packs a
  message and hands it to the worker pool;
- the **worker slot pool** (`src/event_bus_worker.c`): a static array of
  `MAX_NB_WORKERS` (4) slots, free while their thread handle is NULL.
  `event_worker_start` claims the lowest free slot; the worker thread calls the
  matching subscribers in slot order and then frees its slot;
- the **latency statistics** (`src/event_bus_stats.c`): a ring of
  `EB_STAT_HIST_DEPTH` samples with running min, max, max-holder name and the
  halving average `(avg + lat) / 2`.

Files and modules:

| file | module | models |
|---|---|---|
| `common.dfy` | `Common` | `uint32_t`, opaque pointers (0 is NULL), capacities, error codes, C strings (`CString`, `StrCpy`) |
| `bus_state.dfy` | `BusState` | `struct event_bus_sub`, `struct event_bus_msg`, `struct event_bus_ctx` as class `Bus` |
| `event_bus_worker.dfy` | `EventWorker` | `workers[]` as class `WorkerPool` and its three functions |
| `event_bus.dfy` | `EventBus` | `event_bus_init`, `event_bus_subscribe`, `event_bus_publish` |
| `event_bus_stats.dfy` | `EventBusStats` | `stats` and `stat_hist[]` as class `Stats` |

Modelling choices:

- Pointers and callbacks are opaque identities (`Ptr = nat`, 0 is NULL). Callback
  bodies are not modelled. The worker thread returns the slot indices it calls,
  in call order.
- `xTaskCreate` is an input `created: Option<nat>`. `Some(t)` means it returned
  `pdPASS` and stored handle `Task(t)`. `None` means it failed and left the
  handle NULL.
- `EVT_SUB_NAME_MAX_LEN` and `EB_STAT_HIST_DEPTH` have no default in
  `includes/event_bus_dflt_cfg.h`, which takes them from the application's
  `event_bus_cfg.h`. They are positive constructor parameters (`nameMaxLen`,
  `depth`).
  Name buffers are `seq<char>` of exactly that size, and a C string argument is
  a `seq<char>` without NUL.
- `event_bus.c` writes `sub->name` and calls `event_worker_start` with four
  arguments. The header's `struct event_bus_sub` has no name field, and
  `event_worker_start` is defined with three parameters. The model follows the
  `.c` files: `name` is a field of the record, and start takes `(bus, msg, wait)`.
- `event_bus_init` and `event_bus_subscribe` change the bus through their `bus`
  pointer, and `event_bus_publish` only reads its `app_ctx`; the model passes
  the `Bus` object. The worker
  and statistics functions change the file-static `workers[]`
  (`src/event_bus_worker.c:33`), `stats` and `stat_hist[]`
  (`src/event_bus_stats.c:33-34`), which the model makes the `WorkerPool` and
  `Stats` objects. `event_bus_init` and `event_bus_publish` also receive the
  pool object, for the static `workers[]` they reach through
  `event_worker_init` and `event_worker_start`. The unused `bus` argument is
  dropped from `eb_stats_init` and `eb_stats_add`; `WorkerPool.Init` keeps it
  unused, as `event_worker_init` does.
- `Bus.constructor` only allocates the 16-slot table of `struct event_bus_ctx`,
  whose storage the application provides; it models no source function, and
  `EventBus.Init` establishes the bus invariant.
- Each mutating method states its whole new state in terms of a pure function of
  the old state (`SubscribeOn`, `StartOn`, `MatchingSlots`, `Record`,
  `NextAggregates`). The lemmas about those functions carry the properties: no
  change on a capacity error, idempotent re-subscription, lowest free slot,
  in-order delivery, index wrap, monotone min and max.
- The first sample after the aggregates are zero (all of min, avg and max 0) sets
  all three to the latency and leaves `lat_max_name` as it was
  (`FirstSampleKeepsMaxName`). So after samples 50 then 10, the max is 50 but no
  holder name was ever recorded. The model keeps this behaviour as written.

Three behaviours of the code that a reader of the bus's interface might not
expect, and which the model keeps:

- Duplicates are rejected by callback alone, over the whole table, not per event
  id. The same callback cannot be registered for two events.
- When no worker slot is free, `event_worker_start` returns 0 and the delivery
  is dropped without an error code. `event_bus_publish` returns 0 in every case.
- `src/` has no per-event tables, no direct or wildcard subscribers, no queue
  and no unsubscribe. The worker thread calls every matching slot of the single
  table.

## Model

| member | source | states |
|---|---|---|
| `Common.CString` | src/event_bus_stats.c:92 | A buffer's C string is its longest NUL-free prefix, followed in the buffer by a NUL or the buffer's end |
| `Common.StrCpy` | src/event_bus_stats.c:46 | `strcpy` into a large enough buffer: the buffer's size is kept, it then holds exactly the source string, and the bytes after the terminator are untouched |
| `EventBus.Init` | src/event_bus.c:36-52 | `sub_nb` becomes 0, every one of the 16 slots is zeroed, the application context is recorded, every worker slot is zeroed and so free, the invariant holds, and the result is 0 because `event_worker_init` cannot fail |
| `EventBus.SubscribeOn` | src/event_bus.c:59-86 | `EVT_BUS_MEM_ERR` exactly when the table is full, otherwise 0. The table either stays the same or gains the new entry at its end, and it grows exactly when there is room and the callback is not yet registered. An already-registered callback leaves the table unchanged whatever its event id. Size bound and distinct callbacks are preserved |
| `EventBus.SubscribeIdempotent` | src/event_bus.c:62-70 | Subscribing the same callback again, with any event id, argument or name, leaves the table unchanged, and succeeds exactly when the table is not full |
| `EventBus.Subscribe` | src/event_bus.c:54-87 | The result and new registered entries are those of `SubscribeOn`. On a capacity error or a duplicate, `sub_nb` and all 16 slots are unchanged. Otherwise only slot `sub_nb` is written, with `(event_id, arg, cb, stored name)`, `sub_nb` grows by one, and the invariant (count bound, distinct callbacks, zeroed tail) is preserved |
| `EventBus.NameCopyAsWritten` | src/event_bus.c:79-82 | The copy as written writes past the name buffer exactly when the name has `EVT_SUB_NAME_MAX_LEN` characters. A longer name gets its first MAX_LEN-1 characters, and a shorter one is copied exactly |
| `EventBus.NameOverflowAsWritten` | src/event_bus.c:79-82 | For every buffer size there is a name that makes the as-written copy write MAX_LEN+1 bytes |
| `EventBus.StoreName` | src/event_bus.c:77-82 | The corrected name buffer is zero-filled, always NUL-terminated, and holds the exact name when it is shorter than the buffer, otherwise its first MAX_LEN-1 characters |
| `EventBus.StoreNameAgreesAsWritten` | src/event_bus.c:77-82 | For every name the as-written copy handles without overflow, the corrected buffer equals what the as-written copy leaves in a zero-filled buffer |
| `EventBus.Publish` | src/event_bus.c:89-103 | The pool changes as `event_worker_start` does for the message `(event_id, bus app_ctx, data)`, and the result is 0 even when the start fails or finds no free slot |
| `EventWorker.WorkerPool.constructor` | src/event_bus_worker.c:33 | The static `workers[]` starts with all four slots zeroed |
| `EventWorker.Released` | src/event_bus_worker.c:50-52 | A released slot is free and all 16 bytes of its name are zeroed, so it reads as the empty C string; its bus and message copy are kept |
| `EventWorker.WorkerName` | src/event_bus_worker.c:80 | The thread name `worker_<k>_th` has 11 characters and no NUL, so it fits the 16-byte name buffer with its terminator |
| `EventWorker.WorkerPool.Init` | src/event_bus_worker.c:56-66 | All four slots are zeroed, slot 0 is the first free one, and the result is 0 |
| `EventWorker.FirstFree` | src/event_bus_worker.c:73-77 | Gives the lowest-index slot whose thread handle is NULL, and none exactly when every slot is busy |
| `EventWorker.StartOn` | src/event_bus_worker.c:68-93 | With no free slot the result is 0 and nothing changes. Otherwise only the lowest free slot changes: it receives the bus, the message copy and the name `worker_<k>_th`. The result is -1 exactly when thread creation fails and 0 exactly when it succeeds, and the slot is busy exactly on success |
| `EventWorker.WorkerPool.Start` | src/event_bus_worker.c:68-93 | The result and the new slots are those of `StartOn` on the old slots |
| `EventWorker.MatchingSlots` | src/event_bus_worker.c:42-48 | Lists every slot whose event id matches the message's, in strictly ascending order, so each matching slot appears exactly once |
| `EventWorker.WorkerPool.Run` | src/event_bus_worker.c:35-54 | Calls exactly `MatchingSlots` of all 16 subscriber slots. Afterwards only this worker's slot has changed: its handle is NULL and its name zeroed, so it is free |
| `EventWorker.MatchingIgnoresEmptySlots` | src/event_bus_worker.c:42-48 | For a non-zero event id, scanning all 16 slots calls the same slots as scanning only the first `sub_nb`, because the tail stays zeroed |
| `EventWorker.ZeroEventReachesEmptySlot` | src/event_bus_worker.c:42-48 | For event id 0 with `sub_nb < 16`, the scan reaches slot `sub_nb`, whose callback is NULL |
| `EventWorker.WorkerPool.RunRegistered` | src/event_bus_worker.c:42-52 | The corrected worker thread calls exactly the matching entries among the first `sub_nb`, so it calls only registered entries, then frees its slot |
| `EventWorker.ReleaseMakesSlotAvailable` | src/event_bus_worker.c:50-52 | After a slot is released, a free slot exists and the lowest free slot is at or below it |
| `EventBusStats.NextIndex` | src/event_bus_stats.c:69-73 | The ring index moves to `(index + 1) mod depth` and stays below the depth |
| `EventBusStats.Record` | src/event_bus_stats.c:46-48 | The entry at the index receives the name, event id and latency, every other entry is unchanged, and the index advances with wrap |
| `EventBusStats.RecordAll` | src/event_bus_stats.c:46-73 | Recording a sequence of samples keeps the ring well-formed and its depth unchanged |
| `EventBusStats.RecordAllAppend` | src/event_bus_stats.c:46-73 | Recording one more sample after a sequence is one further `Record` step |
| `EventBusStats.RecordAllKeepsLatest` | src/event_bus_stats.c:46-73 | From index 0, after any number `n` of samples the index is `n mod depth`, and each of the last `depth` samples (all of them while `n <= depth`) sits in entry `k mod depth` for its position `k`, with its name as a C string, its event id and its latency: the ring holds the latest `depth` samples |
| `EventBusStats.RecordAllInOrder` | src/event_bus_stats.c:46-73 | Samples recorded while the ring has room are stored in insertion order from the starting index, the other entries are unchanged, and the index ends one past the last sample, or at 0 when it reaches the depth |
| `EventBusStats.FullRingOverwritesOldest` | src/event_bus_stats.c:46-73 | Once a ring filled from index 0 is full, its index is back at 0, where the oldest sample sits with its name, event id and latency. The next sample replaces exactly that entry with its own name, event id and latency, and leaves the others |
| `EventBusStats.HalvedSum` | src/event_bus_stats.c:66 | When `avg + lat` fits in uint32, the result is half of it rounded down; otherwise it is half of the wrapped sum `avg + lat - 2^32`, rounded down |
| `EventBusStats.NextAggregates` | src/event_bus_stats.c:50-66 | From all-zero aggregates, min, avg and max become the latency and the max name is untouched. Otherwise min becomes the smaller of min and latency, max the larger of max and latency, and avg `(avg + lat) / 2` on uint32. Max never decreases. The max name changes only when the latency strictly exceeds the old max, and then it holds the sample's name |
| `EventBusStats.OrderPreserved` | src/event_bus_stats.c:50-66 | `min <= avg <= max` is preserved by every sample whose sum with the average does not overflow uint32 |
| `EventBusStats.WrapBreaksOrder` | src/event_bus_stats.c:66 | With min, avg and max all at `0xFFFFFFFF`, a sample of `0xFFFFFFFF` makes the sum wrap, so the new average falls below the min |
| `EventBusStats.TenFiftyFive` | src/event_bus_stats.c:50-66 | From zeroed aggregates, samples 10, 50 and 5 give min 5, max 50, and the 50 sample's subscriber as max holder |
| `EventBusStats.FirstSampleKeepsMaxName` | src/event_bus_stats.c:50-55 | A first non-zero sample sets max but leaves the max-holder name unchanged |
| `EventBusStats.Stats.constructor` | src/event_bus_stats.c:33-34 | The static `stat_hist[]` and `stats` start zeroed: min, avg, max and index 0, an all-NUL max name, every history entry zeroed |
| `EventBusStats.Stats.Init` | src/event_bus_stats.c:36-42 | Sets min, avg, max and index to 0, zeroes the max name, zeroes every history entry, and returns 0 |
| `EventBusStats.Stats.Add` | src/event_bus_stats.c:44-76 | The ring changes by `Record`, the aggregates by `NextAggregates`, the index stays below the depth, and the result is 0 |
| `EventBusStats.Stats.Report` | src/event_bus_stats.c:78-94 | Reads only: returns min, max, avg and the max-holder name, and all `depth` history entries in index order, names read as C strings |

## Findings

| source | as written | input that shows it | evidently intended | confidence | as-written member | corrected member |
|---|---|---|---|---|---|---|
| src/event_bus.c:79-82 | `strlen(name) > EVT_SUB_NAME_MAX_LEN` chooses `strcpy` for a name of exactly MAX_LEN characters, which then writes MAX_LEN+1 bytes into the MAX_LEN-byte name buffer | a name of exactly `EVT_SUB_NAME_MAX_LEN` characters | `>=`: truncate to MAX_LEN-1 characters so the terminator always fits | not executed; high | `EventBus.NameCopyAsWritten`, `EventBus.NameOverflowAsWritten` | `EventBus.StoreName` (used by `EventBus.Subscribe`) |
| src/event_bus_worker.c:42-48 | the worker thread scans all `MAX_NB_SUBSCRIBERS` slots and calls every slot whose event id matches. Init leaves unused slots with event id 0 and a NULL callback | publish event id 0 while `sub_nb < 16`: slot `sub_nb` matches, and its NULL callback is called | scan only the `sub_nb` registered entries | not executed; high | `EventWorker.WorkerPool.Run`, `EventWorker.ZeroEventReachesEmptySlot` | `EventWorker.WorkerPool.RunRegistered` |

## Left out

- Real concurrency: the race between a slot's free check and its claim in
  `event_worker_start`, preemption and `vTaskDelete`. The worker thread is a
  separate method run later.
- `WorkerPool.Run`: assumes the callbacks touch neither the bus nor the pool. A
  callback that publishes re-enters `event_worker_start` during the scan at
  `src/event_bus_worker.c:46` and changes `workers[]`, which `Run`'s frame
  does not allow.
- Callback bodies and their return values. The worker passes `msg->arg`, but
  `struct event_bus_msg` (`includes/event_bus.h:45-50`) has no `arg` field. Invocations are
  recorded only as slot indices.
- Logging (`printf` in `event_bus_subscribe`, `event_bus_publish` and
  `eb_stats_print`). `eb_stats_print` is modelled as `Stats.Report`, which
  returns the values it prints. The version line is left out because
  `EVENT_BUS_MAJOR_REV` and `EVENT_BUS_MINOR_REV` are defined in neither
  `includes/` nor `src/`.
- `Stats.Add`: the caller's name must fit the history name buffer with its
  terminator (`strlen(name) < EVT_SUB_NAME_MAX_LEN`). The source copies it with
  an unchecked `strcpy`, and a longer name would overflow.
- The `queue` field of `struct event_bus_ctx`: nothing in the modelled files
  uses it.
- `port/eb_freertos.c` and `src/event_bus_supv.c`: thin wrappers over FreeRTOS
  mutex, task, tick and timer calls. The cancel and hand-off fields of
  `includes/event_bus_worker.h` (`index`, `running`, `cancelled`,
  `timer_enabled`) and `eb_worker_post`/`eb_worker_timeout`, declared at
  `includes/event_bus_worker.h:44-53`, are defined nowhere in `src/` or
  `port/`.
- `WorkerName`: models `sprintf("worker_%d_th", k)` for one-digit `k` only,
  which covers all four slots.

# DataBuf: a latest-value ring buffer with timestamped slots

This project models `hnurm::Wrapped` and `hnurm::DataBuf` from
`RM_Vision/Desktop/DataBuf/DataBuf/DataBuf.hpp` and proves properties of the model.

- `Wrapped<RawDataType>` pairs a payload with a 16-bit `short` stamp. The stamp
  comes from a counter shared by all values of that payload type. The counter
  starts at 0 and is pre-incremented by every auto-stamped construction; a
  caller may also give the stamp explicitly.
- `DataBuf<DataType>` is a ring of `size` slots with `head_idx`, `tail_idx` and
  `latest_time_stamp`. `update` writes the slot after the head and publishes it
  as the new head, moving the tail on when the new head lands on it. `get`
  hands out the head slot unless its stamp equals the stamp handed out last.

Two modules:

- `TimeStamp` (`timestamp.dfy`) holds the things below.
  - The `Short` newtype and `ToShort`, the 16-bit two's-complement truncation.
  - `Next`, the effect of `++clock_time`, and `ClockAfter`, `k` increments in a row.
  - The class `Clock`, the static `clock_time` as an object with `Tick` (`clock()`).
  - The datatype `Wrapped<T>` with `Assign` (`operator=`) and `Wrap` (`wrap`).
  - `NewWrapped`, the auto-stamped constructors.
- `DataBuffer` (`databuf.dfy`) holds the buffer.
  - A value `State` (slots, head, tail, latest stamp) with the pure
    specifications `InitState`, `UpdateState` and `GetState`, and the lemmas about them.
  - The class `DataBuf`, with an `array<Wrapped<T>>` and the three index fields.
    Its constructor and its methods `Update` and `Get` work in place. Each one is
    proved to produce exactly the state its specification function gives.

How the model represents the parts of the source that depend on the outside:

- Each `try_lock_for(Ms(2))` becomes the boolean input `lockAcquired`.
- The validator becomes `Option<Wrapped<T> -> bool>`, where `None` stands for `nullptr`.
- A default-constructed payload becomes the parameter `raw`, the same value in every default slot.
- The static counter becomes a `Clock` object passed explicitly.

Slot type: `DataType` is `Wrapped<T>`, because `get` reads a `time_stamp` member of it.

Wrapped is a value type here, not a class. Copies of it go into and out of slots,
so a datatype gives the C++ copy semantics without aliasing.

The two-argument constructor with an explicit stamp is the datatype constructor
`Wrapped(raw, stamp)` itself. It keeps both arguments and cannot advance any clock.

Construction stamps. `std::vector<DataType>(size)` default-constructs every slot,
and each default construction calls `clock()`. The model takes these calls in
index order. So, from a clock reading `c0`, slot `i` gets stamp `ClockAfter(c0, i + 1)`,
and the clock ends at `ClockAfter(c0, size)`.
`latest_time_stamp` starts at 0. That is why a `get` before any `update` normally
succeeds and returns the default slot 0 (`FreshGet`).

Stamp width. A stamp past 32767 wraps to -32768. This is modular conversion back
to `short`: C++20 defines it; before C++20 it is implementation-defined, and GCC, Clang and MSVC wrap modulo 2^16. Stamps
strictly increase only up to that point (`StampsIncrease`), and every stamp
recurs after 65536 increments (`StampsRecur`).

Two consequences of the code are worth stating:

- A successful `get` only promises a stamp different from the last one handed
  out, not a newer one: the test at line 99 is `!=`. `OlderStampRedelivered`
  shows a value with an older stamp being handed out after a newer one.
- `update` stores `data` verbatim and does not re-stamp it (line 135, `UpdateCommits`).

## Model

| member | source | states |
|---|---|---|
| `TimeStamp.ToShort` | RM_Vision/Desktop/DataBuf/DataBuf/DataBuf.hpp:45-49 | the result is the input itself when it fits in a `short`, and is congruent to the input modulo 2^16 in every case |
| `TimeStamp.Next` | RM_Vision/Desktop/DataBuf/DataBuf/DataBuf.hpp:46-49 | `++clock_time` adds one below 32767 and wraps 32767 to -32768 |
| `TimeStamp.ClockAfter` | RM_Vision/Desktop/DataBuf/DataBuf/DataBuf.hpp:31 | `k` successive `clock()` calls (as the `size` default constructions of `data_buf(size)` at line 81 make) leave the counter at `c + k` as long as it stays below 32768 |
| `TimeStamp.ClockAfterIsTruncatedSum` | RM_Vision/Desktop/DataBuf/DataBuf/DataBuf.hpp:45-53 | `k` pre-increments from `c` leave the counter at `c + k` truncated to 16 bits |
| `TimeStamp.FreshClockCounts` | RM_Vision/Desktop/DataBuf/DataBuf/DataBuf.hpp:52-53 | a counter starting at its initial 0 holds exactly `k` after `k` increments (`k <= 32767`), so the first stamp issued is 1 |
| `TimeStamp.StampsIncrease` | RM_Vision/Desktop/DataBuf/DataBuf/DataBuf.hpp:46-49 | stamps issued later are strictly larger, as long as the counter has not passed 32767 |
| `TimeStamp.StampsRecur` | RM_Vision/Desktop/DataBuf/DataBuf/DataBuf.hpp:45-49 | after 65536 further increments the counter repeats every earlier stamp, so monotonicity is bounded |
| `TimeStamp.Clock.constructor` | RM_Vision/Desktop/DataBuf/DataBuf/DataBuf.hpp:52-53 | the shared counter starts at 0 |
| `TimeStamp.Clock.Tick` | RM_Vision/Desktop/DataBuf/DataBuf/DataBuf.hpp:46-49 | `clock()` advances the counter by `Next` and returns the new value |
| `TimeStamp.NewWrapped` | RM_Vision/Desktop/DataBuf/DataBuf/DataBuf.hpp:30-38 | an auto-stamped construction keeps the payload, advances the counter once and takes the counter's new value as its stamp |
| `TimeStamp.Wrapped.Assign` | RM_Vision/Desktop/DataBuf/DataBuf/DataBuf.hpp:24-29 | assignment copies both the payload and the stamp of the source |
| `TimeStamp.Wrapped.Wrap` | RM_Vision/Desktop/DataBuf/DataBuf/DataBuf.hpp:40-43 | `wrap` replaces the payload and leaves the stamp as it was |
| `DataBuffer.Accepts` | RM_Vision/Desktop/DataBuf/DataBuf/DataBuf.hpp:96 | the validator convention of lines 96 and 129: a null validator accepts every value, a given one decides by its own answer |
| `DataBuffer.NextIndex` | RM_Vision/Desktop/DataBuf/DataBuf/DataBuf.hpp:131 | `(i + 1) % size` stays in the ring and is the next slot, with the last slot followed by slot 0 |
| `DataBuffer.InitState` | RM_Vision/Desktop/DataBuf/DataBuf/DataBuf.hpp:76-85 | construction gives `size` slots with the default payload, slot `i` stamped by the `(i + 1)`-th clock call, head and tail 0 and `latest_time_stamp` 0 |
| `DataBuffer.UpdateState` | RM_Vision/Desktop/DataBuf/DataBuf/DataBuf.hpp:126-150 | update succeeds exactly when the validator accepts and the lock is taken. On failure nothing changes. On success the indices stay inside the ring, the head moves to the next slot, that slot holds `data`, every other slot and the stamp cursor are unchanged |
| `DataBuffer.GetState` | RM_Vision/Desktop/DataBuf/DataBuf/DataBuf.hpp:88-121 | get never changes slots, head or tail. It succeeds exactly when the lock is taken, the validator accepts the head slot and that slot's stamp differs from the last one handed out. On success it hands out the head slot and records its stamp. On failure the out-parameter and the cursor stay as they were |
| `DataBuffer.UpdateRejected` | RM_Vision/Desktop/DataBuf/DataBuf/DataBuf.hpp:129 | a value the validator rejects makes update return false with the whole state unchanged, whatever the lock would do |
| `DataBuffer.UpdateLockFailed` | RM_Vision/Desktop/DataBuf/DataBuf/DataBuf.hpp:133-144 | a failed lock attempt makes update return false with the whole state unchanged |
| `DataBuffer.UpdateCommits` | RM_Vision/Desktop/DataBuf/DataBuf/DataBuf.hpp:131-142 | a successful update writes `data` verbatim into exactly slot `(head + 1) % size`, sets the head to it and advances the tail by one exactly when it equalled the new head |
| `DataBuffer.UpdateAll` | RM_Vision/Desktop/DataBuf/DataBuf/DataBuf.hpp:131-142 | any run of successful updates keeps both indices inside the ring, the capacity and the stamp cursor |
| `DataBuffer.UpdatesMoveHead` | RM_Vision/Desktop/DataBuf/DataBuf/DataBuf.hpp:131-140 | after `k` successful updates the head is `k` slots further on, modulo the capacity |
| `DataBuffer.UpdatesFromStart` | RM_Vision/Desktop/DataBuf/DataBuf/DataBuf.hpp:131-140 | from head = tail = 0, after `k` updates the head is `k % N`, and the tail is 0 while `k < N` and `(k + 1) % N` afterwards |
| `DataBuffer.UpdatesKeepLast` | RM_Vision/Desktop/DataBuf/DataBuf/DataBuf.hpp:131-140 | after a run of updates, each of the last `N` values written is still in the slot it was written to |
| `DataBuffer.DuplicateSuppressed` | RM_Vision/Desktop/DataBuf/DataBuf/DataBuf.hpp:99-102 | after a successful get, a second get with no update in between fails and changes nothing, whatever its lock outcome and validator |
| `DataBuffer.UpdateThenGet` | RM_Vision/Desktop/DataBuf/DataBuf/DataBuf.hpp:99-102 | after a successful `update(x)` where `x`'s stamp differs from the last one handed out, a get whose lock and validator succeed returns exactly `x` and records its stamp |
| `DataBuffer.GetAfterUpdates` | RM_Vision/Desktop/DataBuf/DataBuf/DataBuf.hpp:91-102 | after any run of updates, a get returns the last value written, provided its stamp is new to the reader |
| `DataBuffer.FreshGet` | RM_Vision/Desktop/DataBuf/DataBuf/DataBuf.hpp:77-85 | on a freshly built buffer a get succeeds and returns the default slot 0 (stamp `Next(c0)`), unless the clock read -1 beforehand |
| `DataBuffer.RewrappedIsStale` | RM_Vision/Desktop/DataBuf/DataBuf/DataBuf.hpp:40-43 | since `wrap` keeps the stamp, a value handed out by get, re-wrapped with any payload and written back by a successful update, is refused by the next get whatever its lock outcome and validator |
| `DataBuffer.OlderStampRedelivered` | RM_Vision/Desktop/DataBuf/DataBuf/DataBuf.hpp:99 | duplicate suppression compares for inequality only, so a value with an older stamp can be handed out after a newer one |
| `DataBuffer.DataBuf.constructor` | RM_Vision/Desktop/DataBuf/DataBuf/DataBuf.hpp:76-85 | one `clock()` call per slot, in index order, builds the slots; the new buffer's fields equal `InitState` for the clock's reading, and the clock has advanced once per slot |
| `DataBuffer.DataBuf.Update` | RM_Vision/Desktop/DataBuf/DataBuf/DataBuf.hpp:126-150 | the in-place update changes the slot array and the two indices exactly as `UpdateState` says, returns its success flag and keeps the indices inside the ring |
| `DataBuffer.DataBuf.Get` | RM_Vision/Desktop/DataBuf/DataBuf/DataBuf.hpp:88-121 | the in-place get may change only `latest_time_stamp`. Its flag, out-parameter and new state are those of `GetState` |

## Left out

- Locking and timing: `std::timed_mutex`, `try_lock_for(Ms(2))` and `unlock`. Only the boolean outcome of each lock attempt is modelled, as an input.
- Concurrency: the unsynchronised reads and writes of `head_idx`, `latest_time_stamp` and the non-atomic static `clock_time`. The model is sequential and cannot express these races.
- Exceptions and debug output: the `try`/`catch` blocks and the `#ifdef DEBUG` output. The catch path ends a `bool` function without returning, which is undefined behaviour. Both operations are modelled as exception-free and total.
- Construction with `size <= 0`: the constructor requires `size > 0`. With `size == 0` every later `% data_buf.size()` divides by zero; a negative `size` converts to a huge `size_t`, so `data_buf(size)` at line 81 throws `std::length_error` before any operation runs. Neither case is modelled.
- The default capacity `size = 16` (line 64): Dafny's constructor always takes `size` explicitly; a caller that wants the default passes 16.
- `std::vector` machinery, templates, and the defaulted destructors. They have no behaviour to model.
- The validator's signature: it is modelled as a total pure predicate on `Wrapped<T>`. A validator with side effects or exceptions is not captured.
- Construction order of slots: `vector(size)` is assumed to default-construct its elements in index order. Only the order in which slots receive their stamps depends on this.
- DataBuffer.InitState, TimeStamp.NewWrapped, DataBuffer.FreshGet: one parameter `raw` stands for the payload of every default-constructed `Wrapped()`. That is deterministic only for a class payload with a default constructor. For a scalar `RawDataType` such as `int`, `raw_data` is left indeterminate (lines 30-32 do not initialise it, and `vector(size)` calls the user-provided constructor without zero-initialising first). That indeterminate payload, which may differ between slots, is not modelled; the stamps are modelled exactly.

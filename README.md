# tools_box core, modelled in Dafny

`tools_box` is a C++ utility library built around a thread pool. Its parts are:

- a decimal/binary big-number converter;
- two file schedulers that cut a buffer into chunk tasks for the pool;
- two lock-free queues and a reentrant ownership box;
- a bit-flag array;
- a time formatter;
- the instruction decoder of a small virtual machine;
- an error list;
- a set of size constants.

This project models each of these as sequential Dafny and proves the properties the code promises. Each file is one module and mirrors one source file:

| Dafny file | module | source |
|---|---|---|
| wrappers.dfy | `Wrappers` | (`Option`, `Result`) |
| numerals.dfy | `Numerals` | the text form of numbers as `std::to_string` and `ostream <<` print them |
| size.dfy | `Size` | tools/base/size.hpp, plus the `u8`…`u64` widths |
| big_number.dfy | `BigNumber` | tools/module/big_number/input_out.cpp |
| bit_flag.dfy | `BitFlags` | tools/module/data/bit_flag.hpp |
| thread_data.dfy | `ThreadData` | tools/module/thread/thread_data.hpp |
| data_box.dfy | `DataBox` | tools/module/thread/data_box.hpp |
| pool.dfy | `ThreadPool` | tools/module/thread/pool.hpp |
| file_store.dfy | `FileStore` | the file system as a map from path to bytes; `std::vector<u8>` buffers |
| file.dfy | `FileScheduler` | tools/module/file/file.cpp and file.hpp |
| file_data.dfy | `FileThreads` | tools/module/file/file_data.hpp |
| time.dfy | `Time` | tools/module/time/time.cpp |
| virtual_machine.dfy | `VirtualMachine` | tools/module/virtual_machine/virtual_machine_interpreter.hpp |
| error.dfy | `Errors` | tools/base/error.hpp |

## How each part is modelled

**Big numbers.** `decimal_to_binary` and `binary_to_decimal` are methods over `seq<U64>` / `seq<U32>` limbs. Their loops are the source's loops, and the loop invariants tie the limbs to their value. Every intermediate is typed `U64`, so each step the source does in `u64` carries the obligation that it does not overflow:

- `remainder * BASE + block` is below 2·10^9;
- `carry + block * 2^32` is below 2^64.

**Objects that change state.** Classes update fields the way the source updates members:

- `ThreadData.Queue` and `DataBox.Queue` are FIFO `seq`s. `ThreadData.Queue` also keeps the pop counter and the bounded garbage count;
- `DataBox.Box` has an owner, a lock count and the data;
- `BitFlags.BitFlag` wraps an `array<bv8>`;
- `ThreadPool.Pool` has a stop flag, a task queue and an active-task count;
- `FileScheduler.FileTaskPool` and `FileThreads.FileThread` hold a task counter and a pool;
- `VirtualMachine.Memory` holds a byte array;
- `Errors.BaseError` holds the record list.

**Running tasks.** Tasks are values. Running a popped task is the scheduler's `Execute`, applied to an abstract file store (`FileStore.Disk`).

**The worker's idle behaviour.** This is a step function over `(current_spin, current_delay)`. It comes in two forms:

- the corrected step, which never lets the spin counter leave `[0, 100]`; the pool's `Poll` uses this one;
- the step as written, with 32-bit wrap-around.

**Time formatting.** Formatting is a pure function. The arguments are:

- the startup clock readings, with the length of a `system_clock` tick (1 ns with libstdc++, 100 ns with the MSVC library, 1 µs with libc++);
- the steady-clock time point, in nanoseconds;
- the mode;
- `localtime` as a function parameter.

Each mode is a list of suffixes, and the output interleaves the printed fields with those suffixes.

## Model

| member | source | states |
|---|---|---|
| BigNumber.SplitDecimal | tools/module/big_number/input_out.cpp:14-17 | digit string cut from the right into 9-digit blocks, each below 10^9, whose base-10^9 value is the string's decimal value; (len+8)/9 blocks |
| BigNumber.SplitStep | tools/module/big_number/input_out.cpp:14-17 | one more 9-digit block extends the value of the suffix already split |
| BigNumber.HalveBlocks | tools/module/big_number/input_out.cpp:29-33 | dividing every block by 2 with the remainder carried down halves the value: old = 2·new + remainder, remainder < 2, blocks stay below 10^9 |
| BigNumber.HalvingStep | tools/module/big_number/input_out.cpp:29-33 | one block of the halving loop keeps old = 2·new + remainder on the processed suffix |
| BigNumber.PopZeroBlocks | tools/module/big_number/input_out.cpp:47-49 | popping zero top blocks keeps a prefix with the same value and no zero top block |
| BigNumber.EmitBit | tools/module/big_number/input_out.cpp:36-37 | or-ing the remainder in at `current_bit_count` and counting it keeps pending·2^bits + emitted value unchanged |
| BigNumber.FlushWord | tools/module/big_number/input_out.cpp:40-44 | pushing a full 32-bit word and restarting at bit 0 keeps the accounted value |
| BigNumber.ExtractBit | tools/module/big_number/input_out.cpp:25-50 | one outer iteration: value halves, exactly one bit is emitted, earlier words kept, accounted value unchanged |
| BigNumber.ShiftOutBits | tools/module/big_number/input_out.cpp:25-50 | all bits emitted: emitted words and partial word equal the value, bit count is the bit length; zero value leaves no words |
| BigNumber.FlushLastWord | tools/module/big_number/input_out.cpp:53-55 | appending the partial word adds it at weight 2^(32·words) |
| BigNumber.StoreLastWord | tools/module/big_number/input_out.cpp:53-55 | the last partial word is pushed only when bits remain; word value equals the accounted value |
| BigNumber.DecimalToBinary | tools/module/big_number/input_out.cpp:8-58 | little-endian 32-bit words whose value is the decimal value; "" gives []; a nonempty all-zero string gives [0]; a nonzero value gives ceil(bitlength/32) words with nonzero top word |
| BigNumber.WordCount | tools/module/big_number/input_out.cpp:53-55 | the word count is the full words plus one when bits remain |
| BigNumber.TopWordNonzero | tools/module/big_number/input_out.cpp:25-55 | ceil(bitlength/32) words of a positive value end in a nonzero word |
| BigNumber.ScaleStep | tools/module/big_number/input_out.cpp:72-76 | one block of `block·2^32 + carry` split into `% BASE` and `/ BASE` keeps the scaled value |
| BigNumber.ScaleBlocks | tools/module/big_number/input_out.cpp:72-76 | multiplying the decimal blocks by 2^32 and adding the next word: new value + 10^(9·len)·carry = old·2^32 + word, carry < 2^32 |
| BigNumber.PushCarry | tools/module/big_number/input_out.cpp:79-82 | pushing the carry as base-10^9 blocks adds carry·10^(9·len) and leaves no zero top block |
| BigNumber.DecimalBlocks | tools/module/big_number/input_out.cpp:68-83 | base-10^9 blocks with the value of the words, no zero top block; empty exactly when the value is 0 |
| BigNumber.JoinStep | tools/module/big_number/input_out.cpp:86-90 | prefixing a higher part to a 9-digit zero-padded block prints the combined value |
| BigNumber.JoinBlocks | tools/module/big_number/input_out.cpp:86-90 | top block unpadded, inner blocks padded to 9 digits, prints the canonical decimal numeral of the value |
| BigNumber.BinaryToDecimal | tools/module/big_number/input_out.cpp:61-93 | the canonical decimal numeral of the words' value; [] and all-zero words give "0" |
| BigNumber.BinaryToDecimalAsWritten | tools/module/big_number/input_out.cpp:79-86 | as written: undefined (None) exactly for a nonempty all-zero input, otherwise the canonical numeral |
| BigNumber.ZeroRoundTripAsWritten | tools/module/big_number/input_out.cpp:79-86 | converting "0" gives [0], on which the as-written conversion back is undefined |
| BigNumber.RoundTrip | tools/module/big_number/input_out.cpp:127-147 | back-conversion gives the canonical numeral of the value, and equals the input exactly when the input has no leading zero |
| Numerals.NatToString | tools/module/big_number/input_out.cpp:86-90 | the numeral printed for a natural number is canonical (no leading zero, "0" for zero) |
| Numerals.DecimalValueOfNatToString | tools/module/big_number/input_out.cpp:86-90 | reading a printed number gives it back |
| Numerals.NatToStringOfDecimalValue | tools/module/big_number/input_out.cpp:147 | printing the value of a canonical numeral gives the numeral back |
| Numerals.FixedWidthIsPadded | tools/module/big_number/input_out.cpp:88-89 | `std::string(9 - block.size(), '0') + block` is the unpadded numeral with leading zeros up to width 9 |
| Numerals.NatToStringShift | tools/module/big_number/input_out.cpp:87-90 | printing x·10^k + d is printing x followed by d padded to k digits |
| Numerals.IntToString | tools/module/time/time.cpp:67-147 | a printed int is nonempty and starts with '-' exactly when negative |
| Numerals.IntToStringInjective | tools/module/time/time.cpp:67-147 | different ints print differently |
| Numerals.IntToStringIsNumeral | tools/module/time/time.cpp:67-147 | a printed int holds only digits and '-' |
| Size.MaxU64 | tools/base/size.hpp:9-11 | `max<u64>()` is the largest u64, 2^64 - 1 |
| Size.MinU64 | tools/base/size.hpp:14-16 | `min<u64>()` is below every u64 |
| Size.Mul64 | tools/base/size.hpp:18-31 | u64 multiplication: the exact product when it fits, otherwise congruent modulo 2^64 |
| Size.DecimalConstants | tools/base/size.hpp:18-28 | m, g, t, p, e are 10^6, 10^9, 10^12, 10^15, 10^18 |
| Size.BinaryConstants | tools/base/size.hpp:19-29 | ki, mi, gi, ti, pi, ei are 2^10 … 2^60; 16·mi = 16777216 |
| Size.ZettaWraps | tools/base/size.hpp:30 | z = e·k exceeds u64 and wraps to 10^21 mod 2^64 = 3875820019684212736 |
| Size.ZebiWraps | tools/base/size.hpp:31 | zi = ei·ki is 2^70, which wraps to 0 |
| BitFlags.MaskTestsBit | tools/module/data/bit_flag.hpp:57 | `byte & (1 << offset)` is nonzero exactly when bit `offset` of the byte is set |
| BitFlags.UpdateByte | tools/module/data/bit_flag.hpp:30-35 | or-ing/and-not-ing the mask sets bit `offset` to the flag and leaves the other 7 bits |
| BitFlags.MaskAfterUpdate | tools/module/data/bit_flag.hpp:26-35 | after the update, the mask test at `offset` reads the flag and at every other bit reads as before |
| BitFlags.UpdateFlags | tools/module/data/bit_flag.hpp:26-35 | updating byte bit/8 at bit%8 changes flag `bit` to the value and no other flag |
| BitFlags.ZeroBytesClear | tools/module/data/bit_flag.hpp:68-72 | zero bytes hold no set bit |
| BitFlags.BitFlag.constructor | tools/module/data/bit_flag.hpp:16 | a new flag array has the given byte size and every bit false |
| BitFlags.BitFlag.Get | tools/module/data/bit_flag.hpp:46-58 | out of range (bit ≥ 8·size) is the range error; otherwise the stored bit |
| BitFlags.BitFlag.Set | tools/module/data/bit_flag.hpp:19-36 | out of range is an error and changes nothing; otherwise bit `bit` reads the flag and every other bit is unchanged |
| BitFlags.BitFlag.Clear | tools/module/data/bit_flag.hpp:68-72 | every bit reads false afterwards |
| ThreadData.Queue.constructor | tools/module/thread/thread_data.hpp:35-40 | a new queue is empty with no garbage |
| ThreadData.Queue.Size | tools/module/thread/thread_data.hpp:119-121 | the counter equals the number of queued values |
| ThreadData.Queue.Empty | tools/module/thread/thread_data.hpp:123-125 | empty exactly when no value is queued |
| ThreadData.Queue.Push | tools/module/thread/thread_data.hpp:52-84 | the value is appended at the back, the counter rises with it |
| ThreadData.Queue.Pop | tools/module/thread/thread_data.hpp:86-117 | empty: None and nothing changes; otherwise the oldest value, removed; garbage grows by one and is flushed past 64 |
| ThreadData.Queue.Drain | tools/module/thread/thread_data.hpp:42-50 | popping until empty yields the values in FIFO order |
| DataBox.Queue.constructor | tools/module/thread/data_box.hpp:36-41 | a new queue is empty |
| DataBox.Queue.Empty | tools/module/thread/data_box.hpp:103-106 | empty exactly when no value follows the sentinel |
| DataBox.Queue.Push | tools/module/thread/data_box.hpp:51-76 | the value is appended at the back |
| DataBox.Queue.Pop | tools/module/thread/data_box.hpp:79-100 | empty: None and unchanged; otherwise the front value, removed |
| DataBox.Queue.Drain | tools/module/thread/data_box.hpp:44-48 | popping until empty yields the values in FIFO order |
| DataBox.Box.constructor | tools/module/thread/data_box.hpp:120-123 | a new box is free, count 0, holding the value |
| DataBox.Box.Get | tools/module/thread/data_box.hpp:137-155 | owner: data, count + 1; free: data, caller becomes owner with count 1; other owner: None, nothing changes |
| DataBox.Box.Release | tools/module/thread/data_box.hpp:158-170 | non-owner: error, nothing changes; owner: count - 1, freed when it reaches 0; owner set exactly when count > 0 |
| DataBox.Box.Set | tools/module/thread/data_box.hpp:130-134 | on a free box, the data is replaced and the box stays free |
| DataBox.Box.Write | tools/module/thread/data_box.hpp:137-150 | a store through the pointer `get()` returns, made by the owner: the data is replaced, owner and count unchanged |
| ThreadPool.IdleStep | tools/module/thread/pool.hpp:98-108 | corrected: the spin counter is held at 0 instead of decrementing past it; spin exactly while spin > 1; spin stays ≥ 0; a sleep lasts the current delay; delay stays in [100, 1000] |
| ThreadPool.SleepDelayStep | tools/module/thread/pool.hpp:107-108 | each sleep doubles the delay, capped at 1000 |
| ThreadPool.SleepDelays | tools/module/thread/pool.hpp:104-108 | the sleeps last 100, 200, 400, 800, then 1000 for ever |
| ThreadPool.SpinPhase | tools/module/thread/pool.hpp:98-101 | from a reset, n < 100 empty polls leave spin 100 - n, delay 100 |
| ThreadPool.SleepPhase | tools/module/thread/pool.hpp:98-108 | from a reset, 100 + j empty polls leave spin 0 and the (j+1)-th delay |
| ThreadPool.IdlePollFromReset | tools/module/thread/pool.hpp:98-108 | the first 99 empty polls spin; poll k ≥ 100 sleeps for the (k-100)-th delay |
| ThreadPool.NeverSpinsAgain | tools/module/thread/pool.hpp:98-108 | corrected: after 99 empty polls every later one sleeps |
| ThreadPool.WrapI32 | tools/module/thread/pool.hpp:98 | 32-bit signed wrap-around: in range, congruent mod 2^32, identity on i32 values |
| ThreadPool.IdleStepAsWritten | tools/module/thread/pool.hpp:98-108 | as written: the counter decrements by one (wrapping) and the worker spins exactly when the wrapped counter is positive |
| ThreadPool.SpinCountsDownAsWritten | tools/module/thread/pool.hpp:98-105 | as written: after 100 + j empty polls the counter is -j |
| ThreadPool.AsWrittenAgreesDuringSpin | tools/module/thread/pool.hpp:98-101 | for the first 100 polls the as-written and corrected steps agree |
| ThreadPool.SpinResumesAsWritten | tools/module/thread/pool.hpp:98-101 | as written: after 100 + 2^31 empty polls the counter wraps and the worker spins again |
| ThreadPool.Pool.constructor | tools/module/thread/pool.hpp:16-21 | a new pool: empty queue, not stopped, count 0, thread count as given |
| ThreadPool.Pool.Insert | tools/module/thread/pool.hpp:23-38 | stopped: false, nothing queued; otherwise true and exactly the task appended |
| ThreadPool.Pool.TaskCount | tools/module/thread/pool.hpp:40-42 | the number of queued tasks |
| ThreadPool.Pool.ThreadCount | tools/module/thread/pool.hpp:59-61 | the thread count given at construction |
| ThreadPool.Pool.Wait | tools/module/thread/pool.hpp:44-57 | stop is set exactly when the queue is empty and no task runs |
| ThreadPool.Pool.Join | tools/module/thread/pool.hpp:63-71 | stop is set at once |
| ThreadPool.Pool.Poll | tools/module/thread/pool.hpp:84-108 | stopped: exit, nothing changes; a task queued: pop the oldest, count + 1; empty: the corrected idle step `ThreadPool.IdleStep` |
| ThreadPool.Pool.Finish | tools/module/thread/pool.hpp:87-94 | after a task: count - 1 and spin/delay reset to 100 |
| FileStore.Overwrite | tools/module/file/file.cpp:166-167 | writing at an offset: bytes there replaced, others kept, the gap past the end zero-filled, length max(old, end) |
| FileStore.OverwriteAtEnd | tools/module/file/file.cpp:166-167 | writing at the file's end appends |
| FileStore.OverwriteExtend | tools/module/file/file.cpp:166-167 | writing a, then b right after it, is writing a + b |
| FileStore.OverwriteStart | tools/module/file/file.cpp:166-167 | writing at 0 yields the data, followed by the old tail if the file was longer |
| FileStore.OverwritesCommute | tools/module/file/file.cpp:166-167 | writes to disjoint ranges commute |
| FileStore.Available | tools/module/file/file.cpp:197-198 | a read returns the bytes in range, cut at the end of file |
| FileStore.CopyInto | tools/module/file/file.cpp:197-198 | copying into a buffer replaces the target range and keeps the rest |
| FileStore.ByteBuffer.Resize | tools/module/file/file.cpp:126 | `resize(n)` truncates, or pads with zeros |
| FileScheduler.EffectiveBlockSize | tools/module/file/file.cpp:14-17 | the block is the request when above 16 MiB, otherwise 16 MiB; never below either |
| FileScheduler.DefaultBlockIsOneChunk | tools/module/file/file.hpp:47 | with the default `max<u64>()` block a non-empty buffer is exactly one chunk |
| FileScheduler.ChunksFrom | tools/module/file/file.cpp:87-97 | no chunk exactly when the cursor has reached the end |
| FileScheduler.ChunksInRange | tools/module/file/file.cpp:87-97 | every chunk is nonempty, at most one block, inside [cursor, n) |
| FileScheduler.ChunksStep | tools/module/file/file.cpp:93-96 | one loop turn emits min(block, rest) at the cursor and advances it by that |
| FileScheduler.ChunkCount | tools/module/file/file.cpp:87-97 | ceil((n - cursor)/block) chunks |
| FileScheduler.ChunkAt | tools/module/file/file.cpp:90-96 | chunk i covers [cursor + i·block, min(cursor + (i+1)·block, n)) |
| FileScheduler.Chunking | tools/module/file/file.cpp:87-97 | ceil(n/block) chunks, chunk i covering [i·block, min((i+1)·block, n)) |
| FileScheduler.ChunksDisjoint | tools/module/file/file.cpp:87-97 | earlier chunks end before later ones begin |
| FileScheduler.Tasks | tools/module/file/file.cpp:90-95 | task i is chunk i, at file offset base + buffer offset |
| FileScheduler.TasksInBuffer | tools/module/file/file.cpp:90-95 | every task stays inside the buffer |
| FileScheduler.WriteStep | tools/module/file/file.cpp:166-167 | one chunk written at base + offset extends the written prefix |
| FileScheduler.WritesFrom | tools/module/file/file.cpp:87-97 | the remaining write tasks complete prefix + data |
| FileScheduler.WriteAll | tools/module/file/file.cpp:87-97 | all write tasks give old ++ data (append at base = old size) or data (cover, base 0) |
| FileScheduler.ReadStep | tools/module/file/file.cpp:197-198 | one read chunk extends the copied prefix |
| FileScheduler.ReadsFrom | tools/module/file/file.cpp:136-146 | the remaining read tasks complete the copy |
| FileScheduler.ReadAll | tools/module/file/file.cpp:136-146 | all read tasks leave the buffer equal to the file |
| FileScheduler.FileTaskPool.constructor | tools/module/file/file.cpp:4-18 | count 0, running, block floor applied; a null pool is created and owned, a given one is used and not owned |
| FileScheduler.FileTaskPool.Stop | tools/module/file/file.cpp:34-39 | no longer running; the counter is untouched |
| FileScheduler.FileTaskPool.EmitChunks | tools/module/file/file.cpp:87-97 | counter + ceil(n/block); the chunk tasks queued in order unless the pool is stopped |
| FileScheduler.FileTaskPool.EmitChunk | tools/module/file/file.cpp:88-96 | one chunk counted and offered to the pool |
| FileScheduler.FileTaskPool.AddWrite | tools/module/file/file.cpp:49-103 | stopped or I/O failure: nothing changes; cover empties the file, append keeps it (creating it if missing); one counted task per chunk at base + offset |
| FileScheduler.FileTaskPool.TaskCount | tools/module/file/file.cpp:29-32 | the number of chunk tasks queued and not yet finished |
| FileScheduler.FileTaskPool.AddRead | tools/module/file/file.cpp:105-152 | stopped or missing file: buffer emptied, nothing queued; otherwise `resize` to the file size (cut, or extended with zero bytes) and one counted read task per chunk |
| FileScheduler.FileTaskPool.Execute | tools/module/file/file.cpp:154-214 | counter - 1 in every case; when running, I/O ok and the file present, the write or read effect of the chunk |
| FileThreads.Halve | tools/module/file/file_data.hpp:107-109 | the halving loop's result is between 1 and its start |
| FileThreads.OptimalThreads | tools/module/file/file_data.hpp:103-113 | between 1 and the hardware thread count |
| FileThreads.HalveSteps | tools/module/file/file_data.hpp:107-109 | result is t halved k times; it is 1 or gives parts ≥ min block; every earlier count gave parts too small |
| FileThreads.OptimalThreadsChoice | tools/module/file/file_data.hpp:103-113 | 1 for an empty file; otherwise the first halving of hc that is 1 or gives parts ≥ min block |
| FileThreads.CalculateOptimalThreads | tools/module/file/file_data.hpp:103-113 | the loop computes the halving choice |
| FileThreads.Parts | tools/module/file/file_data.hpp:51-53 | exactly t parts |
| FileThreads.PartsTile | tools/module/file/file_data.hpp:45-53 | parts start at 0, each begins where the previous ends, the last ends at the total |
| FileThreads.PartNext | tools/module/file/file_data.hpp:52-53 | part i+1 starts at the end of part i |
| FileThreads.LastPartEnd | tools/module/file/file_data.hpp:45-53 | the last part, which takes the remainder, ends at the total |
| FileThreads.PartInRange | tools/module/file/file_data.hpp:52-53 | every part ends inside the file |
| FileThreads.ReadTasks | tools/module/file/file_data.hpp:51-61 | one read task per part, at the part's offset and size |
| FileThreads.WriteTasks | tools/module/file/file_data.hpp:82-91 | one write task per part over the snapshot |
| FileThreads.QueuedTasks | tools/module/file/file_data.hpp:51-61 | the first i tasks are those of parts 0 … i-1 |
| FileThreads.WritePartsPrefix | tools/module/file/file_data.hpp:132-153 | the first i parts written give the data prefix up to part i's end |
| FileThreads.WritePartStep | tools/module/file/file_data.hpp:146-147 | writing the next part at its offset extends the written prefix |
| FileThreads.WriteAllParts | tools/module/file/file_data.hpp:76-91 | all parts written give the data, followed by the old tail if the file was longer |
| FileThreads.ReadPartsPrefix | tools/module/file/file_data.hpp:115-125 | the first i parts read give the file prefix up to part i's end |
| FileThreads.ReadPartStep | tools/module/file/file_data.hpp:122-125 | reading the next part extends the copied prefix |
| FileThreads.ReadAllParts | tools/module/file/file_data.hpp:45-61 | all parts read leave the buffer equal to the file |
| FileThreads.FileThread.constructor | tools/module/file/file_data.hpp:22-28 | count 0; a null pool is created and owned, a given one used |
| FileThreads.FileThread.QueuePart | tools/module/file/file_data.hpp:55-60 | one more part's task counted and offered |
| FileThreads.FileThread.QueueParts | tools/module/file/file_data.hpp:51-61 | all t parts' tasks counted and offered in order |
| FileThreads.FileThread.AddRead | tools/module/file/file_data.hpp:34-66 | size unreadable: nothing changes; otherwise `resize` to the file size (cut, or extended with zero bytes), count + t, the t read tasks queued |
| FileThreads.FileThread.AddWrite | tools/module/file/file_data.hpp:68-93 | count + t, t write tasks over a snapshot of the buffer queued |
| FileThreads.FileThread.Execute | tools/module/file/file_data.hpp:115-153 | count - 1 in every case; on success the part's write or read effect |
| Time.SteadyToSystem | tools/module/time/time.cpp:28-38 | system time = system start + (tp - steady start) cut towards zero to whole `system_clock` ticks; exact with 1 ns ticks; the steady start maps to the system start |
| Time.TruncateToTick | tools/module/time/time.cpp:34 | `duration_cast` keeps whole ticks only: a multiple of the tick, of the same sign, less than a tick nearer zero; the identity for 1 ns ticks |
| Time.TruncateMonotone | tools/module/time/time.cpp:34 | cutting to whole ticks keeps the order of durations |
| Time.CoarseTickMergesTimePoints | tools/module/time/time.cpp:34 | with 100 ns ticks, steady time points 0 and 99 ns after the start map to the same system time |
| Time.SteadyToSystemKeepsDistances | tools/module/time/time.cpp:28-38 | order between time points is kept with any tick; with 1 ns ticks distances are kept too |
| Time.SplitSubSecond | tools/module/time/time.cpp:46-52 | ms, us, ns each in [0, 1000) and floor seconds + ms·10^6 + us·10^3 + ns is the time |
| Time.SplitSubSecondUnique | tools/module/time/time.cpp:48-52 | that split is the only one |
| Time.ToTimeT | tools/module/time/time.cpp:55 | from the epoch on, `to_time_t` is the floor seconds |
| Time.ClockSeconds | tools/module/time/time.cpp:47 | the floor seconds: s·10^9 ≤ d < (s+1)·10^9 |
| Time.ClockSecondsRecombine | tools/module/time/time.cpp:47-52 | seconds and sub-second parts recombine to the time |
| Time.FormatTimePointAgreesAfterEpoch | tools/module/time/time.cpp:55 | from the epoch on, the as-written and corrected formats agree |
| Time.FormatTimePointAsWrittenConfuses | tools/module/time/time.cpp:47-55 | as written: -0.5 s and +0.5 s print the same text in every mode |
| Time.FormatTimePointDeterminesTimePoint | tools/module/time/time.cpp:137-147 | corrected: with an injective localtime, the mode-255 text determines the system time, and with 1 ns ticks the time point |
| Time.UnknownModeIsModeZero | tools/module/time/time.cpp:149-156 | a mode other than 0-3, 10-12, 255 prints the mode-0 text |
| Time.ModeZeroText | tools/module/time/time.cpp:67-74 | mode 0 is `year+1900/mon+1/mday hour:min:sec` |
| Time.ModeOneExtendsModeZero | tools/module/time/time.cpp:67-84 | mode 1 is mode 0 followed by `.` and the milliseconds |
| Time.ModeTwoText | tools/module/time/time.cpp:86-94 | mode 2 is `year/mon/mday ` then hour `h:`, minute `m:`, second `s:`, milliseconds `ms` |
| Time.ModeThreeExtendsModeTwo | tools/module/time/time.cpp:86-105 | mode 3 is mode 2 followed by `:`, the microseconds and `us` |
| Time.ModeTenText | tools/module/time/time.cpp:107-114 | mode 10 puts 年 月 日 时 分 秒 after the fields |
| Time.ChineseModesExtend | tools/module/time/time.cpp:107-135 | mode 11 adds ms and 毫秒 to mode 10; mode 12 adds us and 微秒 to mode 11 |
| Time.FullModeText | tools/module/time/time.cpp:137-147 | mode 255 is every field followed by Y M D h m s ms us ns |
| Time.FormatStartsWithYearAndMonth | tools/module/time/time.cpp:66-157 | `Time.Format`, the `switch (mode)`: every mode starts with year + 1900, its separator and month + 1 |
| Time.FormatTimePoint | tools/module/time/time.cpp:41-157 | corrected: for every split of the system time into whole seconds and three digit groups below 1000, the text is the mode's layout of localtime(those seconds) and those digits |
| Time.FormatTimePointAsWritten | tools/module/time/time.cpp:41-157 | as written: the same, except that before the epoch a time with a nonzero fraction takes its date and time from the next second up (`to_time_t` cuts towards zero) |
| Time.SplitIsClockSplit | tools/module/time/time.cpp:47-52 | seconds and digit groups below 1000 that add up to a time are its floor seconds and `duration_cast` digits |
| Time.ToTimeTRoundsUpBeforeEpoch | tools/module/time/time.cpp:55 | `to_time_t` is the floor second, plus one before the epoch when the fraction is nonzero |
| Time.SuffixesSeparate | tools/module/time/time.cpp:66-157 | every mode's suffixes start with a non-numeral character |
| Time.RenderInjective | tools/module/time/time.cpp:66-157 | unpadded numerals interleaved with separating suffixes can be read back |
| Time.FormatInjective | tools/module/time/time.cpp:66-157 | equal texts in a mode mean equal printed fields |
| Time.FullModeDeterminesTime | tools/module/time/time.cpp:137-147 | the mode-255 text determines all nine fields |
| VirtualMachine.DataTypeOf | tools/module/virtual_machine/virtual_machine_interpreter.hpp:8-20 | defined exactly for codes 0-9, and inverse to the code |
| VirtualMachine.AsmOf | tools/module/virtual_machine/virtual_machine_interpreter.hpp:22-67 | defined exactly for codes 0-28, and inverse to the code |
| VirtualMachine.EnumRoundTrips | tools/module/virtual_machine/virtual_machine_interpreter.hpp:8-67 | decoding an enum's code gives the enum back |
| VirtualMachine.EnumCodesDistinct | tools/module/virtual_machine/virtual_machine_interpreter.hpp:8-67 | distinct enumerators have distinct codes |
| VirtualMachine.ArithmeticAsm | tools/module/virtual_machine/virtual_machine_interpreter.hpp:24-30 | codes 0-6 are the arithmetic opcodes |
| VirtualMachine.LogicAsm | tools/module/virtual_machine/virtual_machine_interpreter.hpp:33-36 | codes 7-10 are the logic opcodes |
| VirtualMachine.ComparisonAsm | tools/module/virtual_machine/virtual_machine_interpreter.hpp:39-44 | codes 11-16 are the comparisons |
| VirtualMachine.MemoryAsm | tools/module/virtual_machine/virtual_machine_interpreter.hpp:47-53 | codes 17-21 are the memory opcodes |
| VirtualMachine.ControlAsm | tools/module/virtual_machine/virtual_machine_interpreter.hpp:56-60 | codes 22-26 are the control opcodes |
| VirtualMachine.OtherAsm | tools/module/virtual_machine/virtual_machine_interpreter.hpp:65-66 | codes 27-28 are nop and halt |
| VirtualMachine.Store | tools/module/virtual_machine/virtual_machine_interpreter.hpp:105-111 | a little-endian store keeps the memory size |
| VirtualMachine.StoreOutside | tools/module/virtual_machine/virtual_machine_interpreter.hpp:105-111 | a store changes no byte outside its range |
| VirtualMachine.LoadStore | tools/module/virtual_machine/virtual_machine_interpreter.hpp:105-109 | loading what was stored gives the value modulo 256^width |
| VirtualMachine.LoadOutside | tools/module/virtual_machine/virtual_machine_interpreter.hpp:105-109 | a store does not change a load of a disjoint range |
| VirtualMachine.InfoOf | tools/module/virtual_machine/virtual_machine_interpreter.hpp:72-93 | the `info` header holds the 24 registers |
| VirtualMachine.DecodeEncode | tools/module/virtual_machine/virtual_machine_interpreter.hpp:105-109 | an encoded 16-byte command decodes to itself |
| VirtualMachine.NextCommandEffect | tools/module/virtual_machine/virtual_machine_interpreter.hpp:100-113 | decoding keeps the memory size |
| VirtualMachine.NextCommandFrame | tools/module/virtual_machine/virtual_machine_interpreter.hpp:103-111 | only the six decode fields of `info` can change |
| VirtualMachine.NextCommandInfo | tools/module/virtual_machine/virtual_machine_interpreter.hpp:100-113 | `info` afterwards: the command at text_now_up in the now_* fields, text_now_up + 16 (mod 2^32), all else kept |
| VirtualMachine.OtherFieldsKept | tools/module/virtual_machine/virtual_machine_interpreter.hpp:72-93 | region bounds, levels and registers are untouched |
| VirtualMachine.EffectReadsOriginal | tools/module/virtual_machine/virtual_machine_interpreter.hpp:105-111 | each field is read from the instruction as it was before the write-backs |
| VirtualMachine.FieldsOfEffect | tools/module/virtual_machine/virtual_machine_interpreter.hpp:105-111 | now_asm, now_data_type, now_out, now_in1, now_in2 come from pc, pc+2, pc+4, pc+8, pc+12 |
| VirtualMachine.WriteDecodedTextNowUp | tools/module/virtual_machine/virtual_machine_interpreter.hpp:111 | text_now_up advances by 2 + 2 + 3·4 = 16 |
| VirtualMachine.Memory.constructor | tools/module/virtual_machine/virtual_machine_interpreter.hpp:98 | the memory holds the given image |
| VirtualMachine.Memory.StoreAt | tools/module/virtual_machine/virtual_machine_interpreter.hpp:105-111 | an in-place store is the little-endian store on the bytes |
| VirtualMachine.Memory.NextCommand | tools/module/virtual_machine/virtual_machine_interpreter.hpp:100-113 | returns true and leaves the memory as decoding the command at text_now_up specifies |
| Errors.MessageAt | tools/base/error.hpp:29-33 | code, message and time stored as given |
| Errors.ErrorAt | tools/base/error.hpp:19-23 | code and time as given, empty message |
| Errors.MessageNow | tools/base/error.hpp:24-28 | code and message as given, time read from the clock |
| Errors.ErrorNow | tools/base/error.hpp:14-18 | code as given, empty message, the clock's time |
| Errors.ConstructorsAgree | tools/base/error.hpp:14-33 | the four constructors agree when given the same time; a record has no message exactly when the message is empty |
| Errors.CodesAppend | tools/base/error.hpp:50-53 | appending a record appends its code |
| Errors.BaseError.constructor | tools/base/error.hpp:42-44 | a new list is empty, so `error_num()` is 0 |
| Errors.BaseError.Add | tools/base/error.hpp:50-53 | exactly one record appended, with the code, no message and the clock's time |
| Errors.BaseError.Clear | tools/base/error.hpp:55-58 | no record left |
| Errors.BaseError.Get | tools/base/error.hpp:60-62 | the records, oldest first |
| Errors.BaseError.ErrorNum | tools/base/error.hpp:64-66 | the number of records |
| Errors.AddsReportCodes | tools/base/error.hpp:50-66 | a run of adds keeps the earlier records and lists the new codes after them, in order |

## Left out

- Threads, atomics, memory orders and compare-and-swap retry loops. Every structure is single-threaded, and a CAS is a plain assignment. This drops worker spawning and joining, and the time the pool and scheduler `wait` loops spend polling.
- Operating-system file I/O (`fstream`, `fs::exists`, `fs::file_size`, `is_regular_file`). The file system is a map from path to bytes (`FileStore.Disk`). An I/O failure is the `ioOk` parameter.
- Node allocation and freeing in the two queues. The destructor's own `thread_local` garbage vector is also left out; it never sees pop's garbage. The pop garbage buffer is kept as a count.
- Reading the clocks, the lazily built startup singleton and the time-zone conversion of `localtime_r` / `localtime_s`. The startup readings are the `Startup` parameter, and `localtime` is a function parameter.
- The `f64` duration aliases in tools/base/time.hpp: floating point.
- big_int.cpp / big_int.hpp: stubs. `operator+` returns nothing, and a constructor is defined that the header does not declare. The assertions of test.hpp about them describe no behaviour.
- `is_valid_number`: declared and never defined.
- `print_binary` and the `test()` drivers (input_out.cpp:96-157): console output, `rand` and timing. Their round-trip comparison is `BigNumber.RoundTrip`.
- tools/module/net/base.hpp, the Windows timer singleton under tools/module/platform and test.cpp: not part of this model.
- `memory_static` and the commented-out interpreter loop of the virtual machine.
- The layout of the virtual machine's `info` header. The model assumes its natural alignment and little-endian byte order. The enum fields are raw `u16` codes, decoded by `VirtualMachine.AsmOf` / `VirtualMachine.DataTypeOf`.
- Characters: the Chinese unit texts are Dafny characters, not their UTF-8 bytes.
- `std::thread::hardware_concurrency()` is a parameter, required to be at least 1.
- The task wrapping of `pool::insert` (`std::function`, `shared_ptr`): a task is an opaque value.
- The generic `set<Bit>` overload of `bit_flag`: it forwards to `set`.
- `file_thread::wait` and `file_task_pool::wait`: polling loops over the counter.
- VirtualMachine.NextCommandEffect: the source re-reads `info.text_now_up` in every statement; the model reads it once, which is the same because the stores never touch those four bytes.
- VirtualMachine.Memory.NextCommand: requires the 16 command bytes to lie inside the memory, because the source does no bounds check there.
- FileScheduler.FileTaskPool.Stop: does not wait for queued tasks; the source's `wait` loop is left out, as above.
- DataBox.Box.Set: requires the box to be free, instead of blocking in `wait_for_unlock` until it is.
- ThreadPool.Pool.Wait: one test of the loop condition. Stop is set when the queue is empty and nothing runs, and otherwise the caller polls again.
- ThreadPool.Pool.Poll: one pass of the worker loop up to running the task. `ThreadPool.Pool.Finish` is the part after the task returns. The idle branch runs the corrected `ThreadPool.IdleStep`, which holds `current_spin` at 0; the decrement of pool.hpp:98 as written, which goes negative and wraps, is `ThreadPool.IdleStepAsWritten` (second Findings row).
- ThreadData.Queue.Pop: the garbage buffer is kept per queue. In the source it is a function-local `static thread_local` vector, shared by every `queue<T>` popped on the same thread, so its flush past 64 counts the pops of all those queues together.
- DataBox.Box.Get: returns the data by value. The source returns `&data_`; the owner's stores through that pointer are `DataBox.Box.Write`. Aliasing of the pointer, and a store after the box was released, are not modelled.
- Time.SteadyToSystem: the tick of `system_clock` is a parameter of the startup readings, not taken from a particular standard library.
- BigNumber.DecimalToBinary: requires every character to be a digit. `stoull` on a block also skips leading white space, accepts a sign and stops at the first non-digit ("1+2" reads as 1), and throws `invalid_argument` only for a block without digits; these inputs are not modelled.
- FileThreads.FileThread.AddRead / AddWrite: the `std::ios::openmode` parameter is fixed to its default, binary read or binary write.

## Findings

| source | as written | input that shows it | evidently intended | confidence | as-written member | corrected member |
|---|---|---|---|---|---|---|
| tools/module/big_number/input_out.cpp:79-86 | a nonempty all-zero word vector leaves `decimal_blocks` empty and `back()` is called on it | `[0]`, which is what `decimal_to_binary("0")` returns | `"0"`, as for the empty vector | medium; not executed | BigNumber.ZeroRoundTripAsWritten | BigNumber.RoundTrip |
| tools/module/thread/pool.hpp:98-105 | the signed spin counter keeps decrementing while the worker sleeps | 100 + 2^31 consecutive empty polls: the counter wraps to a large positive value and the worker busy-spins again | once the spin budget is spent, every later idle poll sleeps until a task resets it | medium; not executed | ThreadPool.SpinResumesAsWritten | ThreadPool.NeverSpinsAgain |
| tools/module/time/time.cpp:55 | `to_time_t` truncates toward zero, while the sub-second part uses the floor | time points -0.5 s and +0.5 s from the epoch print the same date, time and milliseconds | the floor seconds, consistent with the sub-second split at lines 47-52 | medium; not executed | Time.FormatTimePointAsWrittenConfuses | Time.FormatTimePointDeterminesTimePoint |

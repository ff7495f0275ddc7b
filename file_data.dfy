/**
 * `tools::file::file_thread` (tools/module/file/file_data.hpp): a file
 * scheduler that splits a transfer into one part per worker thread, at most
 * as many parts as the machine has hardware threads and each of at least
 * 64 MiB where possible.  `std::thread::hardware_concurrency()` is the
 * parameter `hc`.  A queued task is a `PartTask` value; the pool hands it
 * out through `Poll` and the caller runs it with `Execute`.
 */
module FileThreads {
  import opened Numerals
  import opened FileStore
  import ThreadPool

  /** The smallest part `add_read` and `add_write` aim for: `64ull * 1024 * 1024`. */
  const MIN_PART: nat := 64 * 1024 * 1024

  /**
   * The closure `add_read` or `add_write` queues.  A read part fills `size`
   * bytes of the caller's buffer from `offset` on; a write part writes
   * `size` bytes of `snapshot`, the copy of the data taken when the part was
   * queued.  Buffer offset and file offset are the same.
   */
  datatype PartTask =
    | ReadPart(path: Path, buffer: ByteBuffer, offset: nat, size: nat)
    | WritePart(path: Path, snapshot: seq<Byte>, offset: nat, size: nat)

  /** The loop of `calculate_optimal_threads`: halve while parts would be under `minBlock` and more than one thread is left. */
  function Halve(total: nat, minBlock: nat, t: nat): (r: nat)
    requires t >= 1
    ensures 1 <= r <= t
  {
    if total / t < minBlock && t > 1 then Halve(total, minBlock, t / 2) else t
  }

  /** `t` halved `k` times with integer division. */
  function HalveTimes(t: nat, k: nat): nat
  {
    if k == 0 then t else HalveTimes(t / 2, k - 1)
  }

  /** What `calculate_optimal_threads` returns. */
  function OptimalThreads(total: nat, minBlock: nat, hc: nat): (r: nat)
    requires hc >= 1
    ensures 1 <= r <= hc
  {
    if total == 0 then 1 else Halve(total, minBlock, hc)
  }

  /** Halving from `t` stops after `k` steps, at the first value that is 1 or gives parts of at least `minBlock`. */
  lemma {:induction false} HalveSteps(total: nat, minBlock: nat, t: nat) returns (k: nat)
    requires t >= 1
    ensures Halve(total, minBlock, t) == HalveTimes(t, k)
    ensures Halve(total, minBlock, t) == 1 || total / Halve(total, minBlock, t) >= minBlock
    ensures forall j :: 0 <= j < k ==> HalveTimes(t, j) > 1 && total / HalveTimes(t, j) < minBlock
    decreases t
  {
    if total / t < minBlock && t > 1 {
      var k' := HalveSteps(total, minBlock, t / 2);
      k := k' + 1;
      forall j | 0 <= j < k
        ensures HalveTimes(t, j) > 1 && total / HalveTimes(t, j) < minBlock
      {
        if j > 0 {
          assert HalveTimes(t, j) == HalveTimes(t / 2, j - 1);
        }
      }
    } else {
      k := 0;
    }
  }

  /**
   * The thread count `calculate_optimal_threads` picks: 1 for an empty
   * transfer, otherwise `hc` halved `k` times, where each earlier value was
   * above 1 and gave parts under `minBlock`; it is between 1 and `hc`, and
   * it is 1 or gives parts of at least `minBlock`.
   */
  lemma OptimalThreadsChoice(total: nat, minBlock: nat, hc: nat) returns (k: nat)
    requires hc >= 1
    ensures 1 <= OptimalThreads(total, minBlock, hc) <= hc
    ensures total == 0 ==> OptimalThreads(total, minBlock, hc) == 1
    ensures OptimalThreads(total, minBlock, hc) == 1 || total / OptimalThreads(total, minBlock, hc) >= minBlock
    ensures total > 0 ==> OptimalThreads(total, minBlock, hc) == HalveTimes(hc, k)
                          && forall j :: 0 <= j < k ==> HalveTimes(hc, j) > 1 && total / HalveTimes(hc, j) < minBlock
  {
    k := HalveSteps(total, minBlock, hc);
  }

  /** `calculate_optimal_threads(total_size, min_block_size)` with `hardware_concurrency()` returning `hc`. */
  method CalculateOptimalThreads(total: nat, minBlock: nat, hc: nat) returns (r: nat)
    requires hc >= 1
    ensures r == OptimalThreads(total, minBlock, hc)
  {
    var threads := hc;
    while total / threads < minBlock && threads > 1
      invariant 1 <= threads <= hc
      invariant Halve(total, minBlock, threads) == Halve(total, minBlock, hc)
      decreases threads
    {
      threads := threads / 2;
    }
    r := if total == 0 then 1 else Max(1, threads);
  }

  /** The part `i` of `t`: `total / t` bytes at `i * (total / t)`, the last one also taking `total % t`. */
  function Part(total: nat, t: nat, i: nat): (c: Chunk)
    requires t >= 1
  {
    Chunk(i * (total / t), total / t + if i == t - 1 then total % t else 0)
  }

  /** The `t` parts of a `total`-byte transfer, in the order the `for` loop queues them. */
  function Parts(total: nat, t: nat): (r: seq<Chunk>)
    requires t >= 1
    ensures |r| == t
    ensures forall i :: 0 <= i < t ==> r[i] == Part(total, t, i)
  {
    seq(t, i requires 0 <= i < t => Part(total, t, i))
  }

  /** The parts tile [0, total): the first starts at 0, each starts where the one before ends, and the last ends at `total`. */
  lemma PartsTile(total: nat, t: nat)
    requires t >= 1
    ensures Parts(total, t)[0].offset == 0
    ensures forall i :: 0 <= i < t - 1 ==> Parts(total, t)[i + 1].offset == Parts(total, t)[i].offset + Parts(total, t)[i].size
    ensures Parts(total, t)[t - 1].offset + Parts(total, t)[t - 1].size == total
  {
    forall i | 0 <= i < t - 1
      ensures Parts(total, t)[i + 1].offset == Parts(total, t)[i].offset + Parts(total, t)[i].size
    {
      PartNext(total, t, i);
    }
    LastPartEnd(total, t);
  }

  /** Part `i` + 1 starts where part `i` ends. */
  lemma PartNext(total: nat, t: nat, i: nat)
    requires i + 1 < t
    ensures Part(total, t, i + 1).offset == PartEnd(total, t, i)
  {
    MulStep(i, total / t);
  }

  /** The last part ends at `total`. */
  lemma LastPartEnd(total: nat, t: nat)
    requires t >= 1
    ensures PartEnd(total, t, t - 1) == total
  {
    MulStep(t - 1, total / t);
    DivMod(total, t);
  }

  /** The end of part `i`. */
  function PartEnd(total: nat, t: nat, i: nat): nat
    requires t >= 1
  {
    Part(total, t, i).offset + Part(total, t, i).size
  }

  /** Euclidean division: `total` is `t` times its quotient plus its remainder. */
  lemma DivMod(total: nat, t: nat)
    requires t >= 1
    ensures t * (total / t) + total % t == total
  {
  }

  /** (i + 1) * q <= t * q for i < t. */
  lemma MulBelow(i: nat, t: nat, q: nat)
    requires i < t
    ensures i * q + q <= t * q
  {
    MulStep(i, q);
    MulMonotone(i + 1, t, q);
  }

  /** Every part lies within the transfer. */
  lemma PartInRange(total: nat, t: nat, i: nat)
    requires t >= 1 && i < t
    ensures PartEnd(total, t, i) <= total
  {
    var q := total / t;
    DivMod(total, t);
    MulBelow(i, t, q);
    if i == t - 1 {
      assert PartEnd(total, t, i) == i * q + q + total % t;
    } else {
      MulBelow(i + 1, t, q);
      assert PartEnd(total, t, i) == i * q + q;
    }
  }

  /** The read tasks for `parts`, into `buffer`. */
  function ReadTasks(path: Path, buffer: ByteBuffer, parts: seq<Chunk>): (r: seq<PartTask>)
    ensures |r| == |parts|
    ensures forall i :: 0 <= i < |parts| ==> r[i] == ReadPart(path, buffer, parts[i].offset, parts[i].size)
  {
    seq(|parts|, i requires 0 <= i < |parts| => ReadPart(path, buffer, parts[i].offset, parts[i].size))
  }

  /** The write tasks for `parts`, each holding the same copy of the data. */
  function WriteTasks(path: Path, snapshot: seq<Byte>, parts: seq<Chunk>): (r: seq<PartTask>)
    ensures |r| == |parts|
    ensures forall i :: 0 <= i < |parts| ==> r[i] == WritePart(path, snapshot, parts[i].offset, parts[i].size)
  {
    seq(|parts|, i requires 0 <= i < |parts| => WritePart(path, snapshot, parts[i].offset, parts[i].size))
  }

  /** The tasks queued for parts 0 to `i` - 1 of `t`. */
  function QueuedTasks(mk: Chunk -> PartTask, total: nat, t: nat, i: nat): (r: seq<PartTask>)
    requires t >= 1 && i <= t
    ensures |r| == i
    ensures forall j :: 0 <= j < i ==> r[j] == mk(Part(total, t, j))
  {
    seq(i, j requires 0 <= j < i => mk(Part(total, t, j)))
  }

  /**
   * `write_impl`, then `read_impl`, on the file once it opens: the default
   * open mode neither truncates nor appends, so a write overwrites its range.
   */
  function WritePartEffect(file: seq<Byte>, snapshot: seq<Byte>, c: Chunk): seq<Byte>
    requires c.offset + c.size <= |snapshot|
  {
    Overwrite(file, c.offset, snapshot[c.offset..c.offset + c.size])
  }

  function ReadPartEffect(buffer: seq<Byte>, file: seq<Byte>, c: Chunk): (r: seq<Byte>)
    requires c.offset + c.size <= |buffer|
    ensures |r| == |buffer|
  {
    CopyInto(buffer, c.offset, Available(file, c.offset, c.size))
  }

  /** The file after parts 0 to `i` - 1 of `data` have been written one after the other. */
  function WriteParts(file: seq<Byte>, data: seq<Byte>, t: nat, i: nat): seq<Byte>
    requires t >= 1 && i <= t
  {
    if i == 0 then file
    else
      PartInRange(|data|, t, i - 1);
      WritePartEffect(WriteParts(file, data, t, i - 1), data, Part(|data|, t, i - 1))
  }

  /** The buffer after parts 0 to `i` - 1 of the file have been read one after the other. */
  function ReadParts(buffer: seq<Byte>, file: seq<Byte>, t: nat, i: nat): (r: seq<Byte>)
    requires t >= 1 && i <= t && |buffer| == |file|
    ensures |r| == |buffer|
  {
    if i == 0 then buffer
    else
      PartInRange(|file|, t, i - 1);
      ReadPartEffect(ReadParts(buffer, file, t, i - 1), file, Part(|file|, t, i - 1))
  }

  /** After the first `i` parts the data is written over the start of the file up to the end of part `i` - 1. */
  lemma {:induction false} WritePartsPrefix(file: seq<Byte>, data: seq<Byte>, t: nat, i: nat)
    requires t >= 1 && 0 < i <= t
    ensures PartEnd(|data|, t, i - 1) <= |data|
    ensures WriteParts(file, data, t, i) == Overwrite(file, 0, data[..PartEnd(|data|, t, i - 1)])
  {
    PartInRange(|data|, t, i - 1);
    var c := Part(|data|, t, i - 1);
    if i == 1 {
      WritePartStep(file, data, 0, c);
      assert Overwrite(file, 0, data[..0]) == file;
    } else {
      WritePartsPrefix(file, data, t, i - 1);
      PartNext(|data|, t, i - 2);
      WritePartStep(file, data, PartEnd(|data|, t, i - 2), c);
    }
  }

  /** A write of the part that starts where the written prefix of the data ends extends that prefix. */
  lemma WritePartStep(file: seq<Byte>, data: seq<Byte>, end: nat, c: Chunk)
    requires c.offset == end && end + c.size <= |data|
    ensures WritePartEffect(Overwrite(file, 0, data[..end]), data, c) == Overwrite(file, 0, data[..end + c.size])
  {
    OverwriteExtend(file, data[..end], data[end..end + c.size]);
    assert data[..end] + data[end..end + c.size] == data[..end + c.size];
  }

  /**
   * Running every write part of `add_write` leaves the data over the start
   * of the file: the file is the data when it was no longer, and otherwise
   * keeps its bytes past the data's end, since nothing truncates it.
   */
  lemma WriteAllParts(file: seq<Byte>, data: seq<Byte>, t: nat)
    requires t >= 1
    ensures WriteParts(file, data, t, t) == Overwrite(file, 0, data)
    ensures |file| <= |data| ==> WriteParts(file, data, t, t) == data
    ensures |file| > |data| ==> WriteParts(file, data, t, t) == data + file[|data|..]
  {
    WritePartsPrefix(file, data, t, t);
    PartsTile(|data|, t);
    assert data[..|data|] == data;
    OverwriteStart(file, data);
  }

  /** After the first `i` parts the buffer holds the file up to the end of part `i` - 1. */
  lemma {:induction false} ReadPartsPrefix(buffer: seq<Byte>, file: seq<Byte>, t: nat, i: nat)
    requires t >= 1 && 0 < i <= t && |buffer| == |file|
    ensures PartEnd(|file|, t, i - 1) <= |file|
    ensures ReadParts(buffer, file, t, i) == file[..PartEnd(|file|, t, i - 1)] + buffer[PartEnd(|file|, t, i - 1)..]
  {
    PartInRange(|file|, t, i - 1);
    var c := Part(|file|, t, i - 1);
    var prev := ReadParts(buffer, file, t, i - 1);
    var start: nat;
    if i == 1 {
      start := 0;
      NothingRead(buffer, file);
    } else {
      ReadPartsPrefix(buffer, file, t, i - 1);
      PartNext(|file|, t, i - 2);
      start := PartEnd(|file|, t, i - 2);
    }
    ReadPartStep(buffer, file, c, prev, start, PartEnd(|file|, t, i - 1));
  }

  /** Before any part is read the buffer holds none of the file. */
  lemma NothingRead(buffer: seq<Byte>, file: seq<Byte>)
    ensures buffer == file[..0] + buffer[0..]
  {
    assert file[..0] == [] && buffer[0..] == buffer;
  }

  /** Reading one part into a buffer holding the file up to the part's start extends that prefix to the part's end. */
  lemma ReadPartStep(buffer: seq<Byte>, file: seq<Byte>, c: Chunk, before: seq<Byte>, start: nat, end: nat)
    requires c.offset + c.size <= |file| == |buffer|
    requires start == c.offset && end == c.offset + c.size
    requires before == file[..start] + buffer[start..]
    ensures ReadPartEffect(before, file, c) == file[..end] + buffer[end..]
  {
    var after := file[..end] + buffer[end..];
    assert Available(file, c.offset, c.size) == file[c.offset..c.offset + c.size];
    forall k | 0 <= k < |after|
      ensures ReadPartEffect(before, file, c)[k] == after[k]
    {
    }
  }


  /** Running every read part of `add_read` leaves the resized buffer equal to the file. */
  lemma ReadAllParts(buffer: seq<Byte>, file: seq<Byte>, t: nat)
    requires t >= 1 && |buffer| == |file|
    ensures ReadParts(buffer, file, t, t) == file
  {
    ReadPartsPrefix(buffer, file, t, t);
    PartsTile(|file|, t);
    assert file[..|file|] + buffer[|file|..] == file;
  }

  class FileThread {
    /** `pool_` */
    const pool: ThreadPool.Pool<PartTask>
    /** `owner_pool_` is set: the scheduler created the pool and destroys it. */
    const ownsPool: bool
    /** `task_count_`: parts queued and not yet finished. */
    var taskCount: nat

    ghost predicate Valid()
      reads this, pool, pool.taskQueue
    {
      pool.Valid()
    }

    /** `file_thread(thread_pool)`: with no pool, one of `hc` workers is created and owned; no part is counted. */
    constructor (threadPool: ThreadPool.Pool?<PartTask>, hc: nat)
      requires threadPool != null ==> threadPool.Valid()
      ensures Valid() && ownsPool == (threadPool == null) && taskCount == 0
      ensures threadPool != null ==> pool == threadPool
      ensures threadPool == null ==> fresh(pool) && fresh(pool.taskQueue) && pool.taskQueue.values == []
                                     && !pool.stop && pool.threadCount == hc
    {
      if threadPool == null {
        pool := new ThreadPool.Pool<PartTask>(hc);
        ownsPool := true;
      } else {
        pool := threadPool;
        ownsPool := false;
      }
      taskCount := 0;
    }

    /**
     * Since `count0` and the queue `queue0`, the first `i` parts of `t` have
     * been counted, and queued as `mk` makes them unless the pool is stopped.
     */
    ghost predicate Queued(mk: Chunk -> PartTask, total: nat, t: nat, i: nat, count0: nat, queue0: seq<PartTask>)
      requires t >= 1 && i <= t
      reads this, pool, pool.taskQueue
    {
      taskCount == count0 + i
      && pool.taskQueue.values == queue0 + (if pool.stop then [] else QueuedTasks(mk, total, t, i))
    }

    /** One turn of the `for` loop: count the part and `insert` its task, which a stopped pool refuses. */
    method QueuePart(mk: Chunk -> PartTask, total: nat, t: nat, i: nat, ghost count0: nat, ghost queue0: seq<PartTask>)
      requires Valid() && t >= 1 && i < t && Queued(mk, total, t, i, count0, queue0)
      modifies this, pool.taskQueue
      ensures Valid() && pool.stop == old(pool.stop) && Queued(mk, total, t, i + 1, count0, queue0)
    {
      taskCount := taskCount + 1;
      var _ := pool.Insert(mk(Part(total, t, i)));
      assert QueuedTasks(mk, total, t, i + 1) == QueuedTasks(mk, total, t, i) + [mk(Part(total, t, i))];
    }

    /** The `for` loop of `add_read` and `add_write`: `t` parts, each counted, queued unless the pool is stopped. */
    method QueueParts(mk: Chunk -> PartTask, total: nat, t: nat)
      requires Valid() && t >= 1
      modifies this, pool.taskQueue
      ensures Valid() && pool.stop == old(pool.stop)
      ensures Queued(mk, total, t, t, old(taskCount), old(pool.taskQueue.values))
    {
      for i := 0 to t
        invariant Valid() && pool.stop == old(pool.stop)
        invariant Queued(mk, total, t, i, old(taskCount), old(pool.taskQueue.values))
      {
        QueuePart(mk, total, t, i, old(taskCount), old(pool.taskQueue.values));
      }
    }

    /**
     * `add_read(data, path)`: a path whose size cannot be read (not a regular
     * file) leaves the buffer and the counter as they were; otherwise the
     * buffer is resized to the file's size and one read part per thread is
     * counted and queued, reading file offset `o` into buffer offset `o`.
     */
    method AddRead(data: ByteBuffer, path: Path, disk: Disk, hc: nat)
      requires Valid() && hc >= 1
      modifies this, pool.taskQueue, data
      ensures Valid() && pool.stop == old(pool.stop)
      ensures path !in disk.files ==>
                data.bytes == old(data.bytes) && taskCount == old(taskCount)
                && pool.taskQueue.values == old(pool.taskQueue.values)
      ensures path in disk.files ==>
                var t := OptimalThreads(|disk.files[path]|, MIN_PART, hc);
                |data.bytes| == |disk.files[path]|
                && data.bytes == (if |data.bytes| <= |old(data.bytes)| then old(data.bytes)[..|data.bytes|]
                                  else old(data.bytes) + ZeroBytes(|data.bytes| - |old(data.bytes)|))
                && taskCount == old(taskCount) + t
                && pool.taskQueue.values == old(pool.taskQueue.values)
                     + (if pool.stop then [] else ReadTasks(path, data, Parts(|data.bytes|, t)))
    {
      if path !in disk.files {
        return;
      }
      var fileSize := |disk.files[path]|;
      data.Resize(fileSize);
      var t := CalculateOptimalThreads(fileSize, MIN_PART, hc);
      ghost var k := OptimalThreadsChoice(fileSize, MIN_PART, hc);
      var mk := (c: Chunk) => ReadPart(path, data, c.offset, c.size);
      QueueParts(mk, fileSize, t);
      assert QueuedTasks(mk, fileSize, t, t) == ReadTasks(path, data, Parts(fileSize, t));
    }

    /**
     * `add_write(data, path)`: one write part per thread is counted and
     * queued, each holding the same copy of the data as it is now.
     */
    method AddWrite(data: ByteBuffer, path: Path, hc: nat)
      requires Valid() && hc >= 1
      modifies this, pool.taskQueue
      ensures Valid() && pool.stop == old(pool.stop)
      ensures var t := OptimalThreads(|data.bytes|, MIN_PART, hc);
              taskCount == old(taskCount) + t
              && pool.taskQueue.values == old(pool.taskQueue.values)
                   + (if pool.stop then [] else WriteTasks(path, data.bytes, Parts(|data.bytes|, t)))
    {
      var total := |data.bytes|;
      var snapshot := data.bytes;
      var t := CalculateOptimalThreads(total, MIN_PART, hc);
      ghost var k := OptimalThreadsChoice(total, MIN_PART, hc);
      var mk := (c: Chunk) => WritePart(path, snapshot, c.offset, c.size);
      QueueParts(mk, total, t);
      assert QueuedTasks(mk, total, t, t) == WriteTasks(path, snapshot, Parts(total, t));
    }

    /**
     * A queued part run by a worker, then `task_count_.fetch_sub(1)`.  A read
     * needs the file to open (`path` present and `ioOk`) and stores what the
     * file has of its range; a write opens the file, creating it when missing,
     * and writes its range of the snapshot, unless the open fails (`ioOk`
     * false).  The buffer the caller passed to `add_write` plays no part.
     */
    method Execute(task: PartTask, disk: Disk, ioOk: bool)
      requires Valid() && taskCount > 0
      requires task.ReadPart? ==> task.offset + task.size <= |task.buffer.bytes|
      requires task.WritePart? ==> task.offset + task.size <= |task.snapshot|
      modifies this, disk, if task.ReadPart? then {task.buffer} else {}
      ensures Valid() && taskCount == old(taskCount) - 1
      ensures task.WritePart? ==>
                disk.files == if ioOk then
                                old(disk.files)[task.path := WritePartEffect(if task.path in old(disk.files) then old(disk.files)[task.path] else [],
                                                                             task.snapshot, Chunk(task.offset, task.size))]
                              else old(disk.files)
      ensures task.ReadPart? ==>
                disk.files == old(disk.files)
                && task.buffer.bytes == if ioOk && task.path in old(disk.files) then
                                          ReadPartEffect(old(task.buffer.bytes), old(disk.files)[task.path], Chunk(task.offset, task.size))
                                        else old(task.buffer.bytes)
    {
      var c := Chunk(task.offset, task.size);
      if task.WritePart? {
        if ioOk {
          var file := if task.path in disk.files then disk.files[task.path] else [];
          disk.files := disk.files[task.path := WritePartEffect(file, task.snapshot, c)];
        }
      } else if ioOk && task.path in disk.files {
        task.buffer.bytes := ReadPartEffect(task.buffer.bytes, disk.files[task.path], c);
      }
      taskCount := taskCount - 1;
    }
  }
}

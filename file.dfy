/**
 * `tools::file::file_task_pool` (tools/module/file/file.hpp, file.cpp): a
 * file scheduler that cuts a byte vector into blocks and queues one write or
 * read task per block on a thread pool.  A queued task is a `FileTask` value;
 * the pool hands it out through `Poll` and the caller runs it with `Execute`.
 */
module FileScheduler {
  import opened Numerals
  import opened Size
  import opened Wrappers
  import opened FileStore
  import ThreadPool

  /** `mode`: `cover` truncates the file first, `addend` appends to it. */
  datatype Mode = Cover | Addend

  /** The mode `add_write` uses when none is given. */
  const DEFAULT_MODE: Mode := Cover

  /** The smallest block the scheduler uses: `mi * 16`. */
  const BLOCK_FLOOR: nat := 16 * MI

  datatype Kind = Write | Read

  /**
   * The closure a scheduler queues: the `kind` of I/O on `path`, over
   * `size` bytes of `buffer` from `offset` on, at byte `fileOffset` of the
   * file.  The buffer is held by reference, as the source's `&data`.
   */
  datatype FileTask = FileTask(kind: Kind, path: Path, buffer: ByteBuffer, offset: nat, size: nat, fileOffset: nat)

  /** The block size the constructor keeps: requests up to 16 MiB are raised to 16 MiB. */
  function EffectiveBlockSize(requested: U64): (r: U64)
    ensures r >= BLOCK_FLOOR && r >= requested
    ensures r == requested || r == BLOCK_FLOOR
  {
    BinaryConstants();
    if requested <= BLOCK_FLOOR then BLOCK_FLOOR else requested
  }

  /**
   * The blocks the loop `while (now_data < data_size)` visits from `now` on:
   * each one as long as the block size, except a shorter last one.
   */
  function ChunksFrom(now: nat, n: nat, block: nat): (r: seq<Chunk>)
    requires block > 0
    ensures r == [] <==> now >= n
    decreases n - now
  {
    if now >= n then []
    else
      var size := Min(block, n - now);
      [Chunk(now, size)] + ChunksFrom(now + size, n, block)
  }

  /** The tasks queued for the blocks `cs`, at file offset `base` plus the buffer offset. */
  function Tasks(kind: Kind, path: Path, buffer: ByteBuffer, cs: seq<Chunk>, base: nat): (r: seq<FileTask>)
    ensures |r| == |cs|
    ensures forall i :: 0 <= i < |cs| ==> r[i] == FileTask(kind, path, buffer, cs[i].offset, cs[i].size, cs[i].offset + base)
  {
    seq(|cs|, i requires 0 <= i < |cs| => FileTask(kind, path, buffer, cs[i].offset, cs[i].size, cs[i].offset + base))
  }

  /** Every block from `now` on is non-empty, at most `block` long, and lies between `now` and `n`. */
  lemma {:induction false} ChunksInRange(now: nat, n: nat, block: nat)
    requires block > 0
    ensures forall i :: 0 <= i < |ChunksFrom(now, n, block)| ==>
              now <= ChunksFrom(now, n, block)[i].offset && 0 < ChunksFrom(now, n, block)[i].size <= block
              && ChunksFrom(now, n, block)[i].offset + ChunksFrom(now, n, block)[i].size <= n
    decreases n - now
  {
    if now < n {
      ChunksStep(now, n, block);
      ChunksInRange(now + Min(block, n - now), n, block);
    }
  }

  /** The first block from `now` on, and the blocks after it. */
  lemma ChunksStep(now: nat, n: nat, block: nat)
    requires block > 0 && now < n
    ensures ChunksFrom(now, n, block) == [Chunk(now, Min(block, n - now))] + ChunksFrom(now + Min(block, n - now), n, block)
  {
  }

  /** Taking the first block from `now` on moves it to the blocks already visited. */
  lemma EmittedStep(emitted: seq<Chunk>, now: nat, n: nat, block: nat)
    requires block > 0 && now < n
    requires emitted + ChunksFrom(now, n, block) == ChunksFrom(0, n, block)
    ensures (emitted + [Chunk(now, Min(block, n - now))]) + ChunksFrom(now + Min(block, n - now), n, block) == ChunksFrom(0, n, block)
  {
    ChunksStep(now, n, block);
  }

  lemma TasksAppend(kind: Kind, path: Path, buffer: ByteBuffer, cs: seq<Chunk>, c: Chunk, base: nat)
    ensures Tasks(kind, path, buffer, cs + [c], base)
         == Tasks(kind, path, buffer, cs, base) + [FileTask(kind, path, buffer, c.offset, c.size, c.offset + base)]
  {
  }

  lemma TasksCons(kind: Kind, path: Path, buffer: ByteBuffer, cs: seq<Chunk>, base: nat)
    requires cs != []
    ensures Tasks(kind, path, buffer, cs, base)
         == [FileTask(kind, path, buffer, cs[0].offset, cs[0].size, cs[0].offset + base)] + Tasks(kind, path, buffer, cs[1..], base)
  {
  }

  /** Every task stays within the first `n` bytes of its buffer. */
  predicate InBuffer(ts: seq<FileTask>, n: nat)
  {
    forall i :: 0 <= i < |ts| ==> ts[i].offset + ts[i].size <= n
  }

  /** What `_write_` does to the file once it is open: this task's bytes of `data` at `fileOffset`. */
  function WriteEffect(file: seq<Byte>, data: seq<Byte>, t: FileTask): seq<Byte>
    requires t.offset + t.size <= |data|
  {
    Overwrite(file, t.fileOffset, data[t.offset..t.offset + t.size])
  }

  /** What `_read_` does to the buffer once the file is open: the bytes the file has, at `offset`. */
  function ReadEffect(buffer: seq<Byte>, file: seq<Byte>, t: FileTask): seq<Byte>
    requires t.offset + t.size <= |buffer|
  {
    CopyInto(buffer, t.offset, Available(file, t.fileOffset, t.size))
  }

  /** The file after the write tasks `ts` have run one after the other. */
  function ApplyWrites(file: seq<Byte>, data: seq<Byte>, ts: seq<FileTask>): seq<Byte>
    requires InBuffer(ts, |data|)
    decreases |ts|
  {
    if ts == [] then file else ApplyWrites(WriteEffect(file, data, ts[0]), data, ts[1..])
  }

  /** The buffer after the read tasks `ts` have run one after the other. */
  function ApplyReads(buffer: seq<Byte>, file: seq<Byte>, ts: seq<FileTask>): (r: seq<Byte>)
    requires InBuffer(ts, |buffer|)
    ensures |r| == |buffer|
    decreases |ts|
  {
    if ts == [] then buffer else ApplyReads(ReadEffect(buffer, file, ts[0]), file, ts[1..])
  }

  /** There are ceil((n - now) / block) blocks: the fewest that, `block` bytes each, cover the bytes from `now` to `n`. */
  lemma {:induction false} ChunkCount(now: nat, n: nat, block: nat)
    requires block > 0 && now <= n
    ensures |ChunksFrom(now, n, block)| * block >= n - now
    ensures |ChunksFrom(now, n, block)| > 0 ==> (|ChunksFrom(now, n, block)| - 1) * block < n - now
    decreases n - now
  {
    if now < n {
      var size := Min(block, n - now);
      var rest := ChunksFrom(now + size, n, block);
      assert ChunksFrom(now, n, block) == [Chunk(now, size)] + rest;
      ChunkCount(now + size, n, block);
      MulStep(|rest|, block);
      if rest != [] {
        MulStep(|rest| - 1, block);
      }
    }
  }

  /** Block `i` from `now` on starts `i` block sizes after `now` and ends one block size later, or at `n`. */
  lemma {:induction false} ChunkAt(now: nat, n: nat, block: nat, i: nat)
    requires block > 0 && i < |ChunksFrom(now, n, block)|
    ensures ChunksFrom(now, n, block)[i].offset == now + i * block
    ensures ChunksFrom(now, n, block)[i].offset + ChunksFrom(now, n, block)[i].size == Min(now + (i + 1) * block, n)
    decreases i
  {
    var size := Min(block, n - now);
    var rest := ChunksFrom(now + size, n, block);
    assert ChunksFrom(now, n, block) == [Chunk(now, size)] + rest;
    MulStep(i, block);
    if i > 0 {
      assert ChunksFrom(now, n, block)[i] == rest[i - 1];
      assert size == block;
      ChunkAt(now + block, n, block, i - 1);
      MulStep(i - 1, block);
    }
  }

  /**
   * The blocks of an `n`-byte buffer: ceil(n / block) of them, and block `i`
   * covers bytes [i * block, min((i + 1) * block, n)).
   */
  lemma Chunking(n: nat, block: nat)
    requires block > 0
    ensures |ChunksFrom(0, n, block)| * block >= n
    ensures |ChunksFrom(0, n, block)| > 0 ==> (|ChunksFrom(0, n, block)| - 1) * block < n
    ensures forall i :: 0 <= i < |ChunksFrom(0, n, block)| ==>
              ChunksFrom(0, n, block)[i].offset == i * block
              && ChunksFrom(0, n, block)[i].offset + ChunksFrom(0, n, block)[i].size == Min((i + 1) * block, n)
  {
    ChunkCount(0, n, block);
    forall i | 0 <= i < |ChunksFrom(0, n, block)|
      ensures ChunksFrom(0, n, block)[i].offset == i * block
      ensures ChunksFrom(0, n, block)[i].offset + ChunksFrom(0, n, block)[i].size == Min((i + 1) * block, n)
    {
      ChunkAt(0, n, block, i);
    }
  }

  /** Distinct blocks do not overlap: each ends before the next begins. */
  lemma ChunksDisjoint(n: nat, block: nat, i: nat, j: nat)
    requires block > 0 && i < j < |ChunksFrom(0, n, block)|
    ensures ChunksFrom(0, n, block)[i].offset + ChunksFrom(0, n, block)[i].size <= ChunksFrom(0, n, block)[j].offset
  {
    ChunkAt(0, n, block, i);
    ChunkAt(0, n, block, j);
    MulMonotone(i + 1, j, block);
  }

  /** With the default block size of `max<u64>()`, a non-empty buffer is one block. */
  lemma DefaultBlockIsOneChunk(n: nat)
    requires 0 < n <= MaxU64()
    ensures ChunksFrom(0, n, EffectiveBlockSize(MaxU64())) == [Chunk(0, n)]
  {
    assert EffectiveBlockSize(MaxU64()) == MaxU64() by {
      BinaryConstants();
      U64LimitIsPow();
    }
  }

  /** The tasks for the blocks from `now` on stay within the first `n` bytes of the buffer. */
  lemma TasksInBuffer(kind: Kind, path: Path, buffer: ByteBuffer, now: nat, n: nat, block: nat, base: nat)
    requires block > 0
    ensures InBuffer(Tasks(kind, path, buffer, ChunksFrom(now, n, block), base), n)
  {
    ChunksInRange(now, n, block);
  }

  /** One write task at the end of the file appends its block. */
  lemma WriteStep(prefix: seq<Byte>, data: seq<Byte>, now: nat, t: FileTask)
    requires t.offset == now && now + t.size <= |data| && t.fileOffset == |prefix| + now
    ensures WriteEffect(prefix + data[..now], data, t) == prefix + data[..now + t.size]
  {
    var file := prefix + data[..now];
    OverwriteAtEnd(file, data[now..now + t.size]);
    assert data[..now] + data[now..now + t.size] == data[..now + t.size];
    assert file + data[now..now + t.size] == prefix + data[..now + t.size];
  }

  /** Writing the blocks from `now` on to a file holding `prefix` and the bytes before `now` appends the rest. */
  lemma {:induction false} WritesFrom(path: Path, buffer: ByteBuffer, prefix: seq<Byte>, data: seq<Byte>, now: nat, block: nat)
    requires block > 0 && now <= |data|
    ensures InBuffer(Tasks(Write, path, buffer, ChunksFrom(now, |data|, block), |prefix|), |data|)
    ensures ApplyWrites(prefix + data[..now], data, Tasks(Write, path, buffer, ChunksFrom(now, |data|, block), |prefix|))
         == prefix + data
    decreases |data| - now
  {
    TasksInBuffer(Write, path, buffer, now, |data|, block, |prefix|);
    var ts := Tasks(Write, path, buffer, ChunksFrom(now, |data|, block), |prefix|);
    if now < |data| {
      var size := Min(block, |data| - now);
      var rest := ChunksFrom(now + size, |data|, block);
      assert ChunksFrom(now, |data|, block) == [Chunk(now, size)] + rest;
      TasksCons(Write, path, buffer, ChunksFrom(now, |data|, block), |prefix|);
      assert ts[1..] == Tasks(Write, path, buffer, rest, |prefix|);
      WritesFrom(path, buffer, prefix, data, now + size, block);
      WriteStep(prefix, data, now, ts[0]);
      assert ApplyWrites(prefix + data[..now], data, ts) == ApplyWrites(prefix + data[..now + size], data, ts[1..]);
    } else {
      assert data[..now] == data;
    }
  }

  /**
   * Running every write task of `add_write`, in order, leaves the file as the
   * old contents followed by the buffer (append mode, `base` the old size), or
   * as just the buffer (cover mode: the file was truncated, `base` is 0).
   */
  lemma WriteAll(path: Path, buffer: ByteBuffer, file: seq<Byte>, data: seq<Byte>, block: nat)
    requires block > 0
    ensures InBuffer(Tasks(Write, path, buffer, ChunksFrom(0, |data|, block), |file|), |data|)
    ensures ApplyWrites(file, data, Tasks(Write, path, buffer, ChunksFrom(0, |data|, block), |file|)) == file + data
    ensures ApplyWrites([], data, Tasks(Write, path, buffer, ChunksFrom(0, |data|, block), 0)) == data
  {
    WritesFrom(path, buffer, file, data, 0, block);
    WritesFrom(path, buffer, [], data, 0, block);
    assert file + data[..0] == file;
    assert [] + data[..0] == [] && [] + data == data;
  }

  /** One read task whose block lies in the file copies the file's bytes of that block. */
  lemma ReadStep(buffer: seq<Byte>, file: seq<Byte>, now: nat, t: FileTask)
    requires t.offset == now && t.fileOffset == now && now + t.size <= |file| == |buffer|
    ensures ReadEffect(file[..now] + buffer[now..], file, t) == file[..now + t.size] + buffer[now + t.size..]
  {
    var before := file[..now] + buffer[now..];
    var after := file[..now + t.size] + buffer[now + t.size..];
    assert Available(file, now, t.size) == file[now..now + t.size];
    forall k | 0 <= k < |after|
      ensures ReadEffect(before, file, t)[k] == after[k]
    {
    }
  }

  /** Reading the blocks from `now` on into a buffer that already holds the file's bytes before `now` completes it. */
  lemma {:induction false} ReadsFrom(path: Path, target: ByteBuffer, buffer: seq<Byte>, file: seq<Byte>, now: nat, block: nat)
    requires block > 0 && now <= |file| == |buffer|
    ensures InBuffer(Tasks(Read, path, target, ChunksFrom(now, |file|, block), 0), |buffer|)
    ensures ApplyReads(file[..now] + buffer[now..], file, Tasks(Read, path, target, ChunksFrom(now, |file|, block), 0)) == file
    decreases |file| - now
  {
    TasksInBuffer(Read, path, target, now, |file|, block, 0);
    var ts := Tasks(Read, path, target, ChunksFrom(now, |file|, block), 0);
    if now < |file| {
      var size := Min(block, |file| - now);
      var rest := ChunksFrom(now + size, |file|, block);
      assert ChunksFrom(now, |file|, block) == [Chunk(now, size)] + rest;
      TasksCons(Read, path, target, ChunksFrom(now, |file|, block), 0);
      assert ts[1..] == Tasks(Read, path, target, rest, 0);
      ReadsFrom(path, target, buffer, file, now + size, block);
      ReadStep(buffer, file, now, ts[0]);
      assert ApplyReads(file[..now] + buffer[now..], file, ts)
          == ApplyReads(file[..now + size] + buffer[now + size..], file, ts[1..]);
    } else {
      assert file[..now] + buffer[now..] == file;
    }
  }

  /** Running every read task of `add_read`, in order, leaves the resized buffer equal to the file. */
  lemma ReadAll(path: Path, target: ByteBuffer, buffer: seq<Byte>, file: seq<Byte>, block: nat)
    requires block > 0 && |buffer| == |file|
    ensures InBuffer(Tasks(Read, path, target, ChunksFrom(0, |file|, block), 0), |buffer|)
    ensures ApplyReads(buffer, file, Tasks(Read, path, target, ChunksFrom(0, |file|, block), 0)) == file
  {
    ReadsFrom(path, target, buffer, file, 0, block);
    assert file[..0] + buffer[0..] == buffer;
  }

  class FileTaskPool {
    /** `thread_pool_` */
    const pool: ThreadPool.Pool<FileTask>
    /** `owner_pool_`: the scheduler created the pool and deletes it. */
    const ownerPool: bool
    /** `block_size_` */
    const blockSize: nat
    /** `task_count_`: tasks queued and not yet finished. */
    var taskCount: nat
    /** `is_running_` */
    var isRunning: bool

    ghost predicate Valid()
      reads this, pool, pool.taskQueue
    {
      pool.Valid() && blockSize > 0
    }

    /**
     * `file_task_pool(thread_pool, block_size)`: with no pool, one of
     * `hardwareThreads` workers is created and owned; the block size is
     * raised to 16 MiB; no task is counted and the scheduler runs.
     */
    constructor (threadPool: ThreadPool.Pool?<FileTask>, requestedBlock: U64, hardwareThreads: nat)
      requires threadPool != null ==> threadPool.Valid()
      ensures Valid() && ownerPool == (threadPool == null)
      ensures threadPool != null ==> pool == threadPool
      ensures threadPool == null ==> fresh(pool) && fresh(pool.taskQueue) && pool.taskQueue.values == []
                                     && !pool.stop && pool.threadCount == hardwareThreads
      ensures blockSize == EffectiveBlockSize(requestedBlock)
      ensures taskCount == 0 && isRunning
    {
      if threadPool == null {
        pool := new ThreadPool.Pool<FileTask>(hardwareThreads);
        ownerPool := true;
      } else {
        pool := threadPool;
        ownerPool := false;
      }
      blockSize := EffectiveBlockSize(requestedBlock);
      taskCount := 0;
      isRunning := true;
    }

    /** `get_task_count()`: how many queued chunk tasks have not finished yet. */
    function TaskCount(): (r: nat)
      reads this
      ensures r == taskCount
    {
      taskCount
    }

    /** `stop()`: clear the running flag; the wait for the counter to drain is not modelled. */
    method Stop()
      requires Valid()
      modifies this
      ensures Valid() && !isRunning && taskCount == old(taskCount)
    {
      isRunning := false;
    }

    /**
     * Starting from `count0` and the queue `queue0`, the tasks for the blocks
     * `emitted` have been counted, and queued unless the pool is stopped.
     */
    ghost predicate Emitted(kind: Kind, path: Path, data: ByteBuffer, base: nat,
                            count0: nat, queue0: seq<FileTask>, emitted: seq<Chunk>)
      reads this, pool, pool.taskQueue
    {
      taskCount == count0 + |emitted|
      && pool.taskQueue.values == queue0 + (if pool.stop then [] else Tasks(kind, path, data, emitted, base))
    }

    /**
     * The loop `while (now_data < data_size)`: one task per block, each one
     * counted whether or not the pool accepts it.
     */
    method EmitChunks(kind: Kind, path: Path, data: ByteBuffer, n: nat, base: nat)
      requires Valid()
      modifies this, pool.taskQueue
      ensures Valid() && isRunning == old(isRunning) && pool.stop == old(pool.stop)
      ensures taskCount == old(taskCount) + |ChunksFrom(0, n, blockSize)|
      ensures pool.taskQueue.values
           == old(pool.taskQueue.values) + (if pool.stop then [] else Tasks(kind, path, data, ChunksFrom(0, n, blockSize), base))
    {
      var now := 0;
      ghost var emitted: seq<Chunk> := [];
      while now < n
        invariant Valid() && isRunning == old(isRunning) && pool.stop == old(pool.stop)
        invariant emitted + ChunksFrom(now, n, blockSize) == ChunksFrom(0, n, blockSize)
        invariant Emitted(kind, path, data, base, old(taskCount), old(pool.taskQueue.values), emitted)
        decreases n - now
      {
        var size := Min(blockSize, n - now);
        EmittedStep(emitted, now, n, blockSize);
        EmitChunk(kind, path, data, Chunk(now, size), base, old(taskCount), old(pool.taskQueue.values), emitted);
        emitted := emitted + [Chunk(now, size)];
        now := now + size;
      }
      assert ChunksFrom(now, n, blockSize) == [];
      assert emitted == ChunksFrom(0, n, blockSize);
    }

    /** One turn of that loop: `task_count_` goes up, and `insert` queues the block's task unless the pool is stopped. */
    method EmitChunk(kind: Kind, path: Path, data: ByteBuffer, c: Chunk, base: nat,
                     ghost count0: nat, ghost queue0: seq<FileTask>, ghost emitted: seq<Chunk>)
      requires Valid() && Emitted(kind, path, data, base, count0, queue0, emitted)
      modifies this, pool.taskQueue
      ensures Valid() && isRunning == old(isRunning) && pool.stop == old(pool.stop)
      ensures Emitted(kind, path, data, base, count0, queue0, emitted + [c])
    {
      taskCount := taskCount + 1;
      var _ := pool.Insert(FileTask(kind, path, data, c.offset, c.size, c.offset + base));
      TasksAppend(kind, path, data, emitted, c, base);
    }

    /**
     * `add_write(path, data, mode)`: nothing once stopped, nor when the first
     * filesystem call fails (`ioOk` false); otherwise cover mode truncates the
     * file and append mode creates it when missing and writes after its end,
     * and one write task per block is queued and counted.
     */
    method AddWrite(path: Path, data: ByteBuffer, mode: Mode, disk: Disk, ioOk: bool)
      requires Valid()
      modifies this, pool.taskQueue, disk
      ensures Valid() && isRunning == old(isRunning)
      ensures !old(isRunning) || !ioOk ==>
                taskCount == old(taskCount) && pool.taskQueue.values == old(pool.taskQueue.values)
                && disk.files == old(disk.files)
      ensures old(isRunning) && ioOk ==>
                var base := if mode == Addend && path in old(disk.files) then |old(disk.files)[path]| else 0;
                disk.files == old(disk.files)[path := if base == 0 then [] else old(disk.files)[path]]
                && taskCount == old(taskCount) + |ChunksFrom(0, |data.bytes|, blockSize)|
                && pool.taskQueue.values == old(pool.taskQueue.values)
                     + (if pool.stop then [] else Tasks(Write, path, data, ChunksFrom(0, |data.bytes|, blockSize), base))
    {
      if !isRunning || !ioOk {
        return;
      }
      var base := 0;
      if mode == Addend {
        if path !in disk.files {
          disk.files := disk.files[path := []];
        }
        base := |disk.files[path]|;
      }
      if mode == Cover {
        disk.files := disk.files[path := []];
      }
      EmitChunks(Write, path, data, |data.bytes|, base);
    }

    /**
     * `add_read(path, data)`: once stopped, or for a path that is not a
     * regular file, the buffer is emptied; otherwise it is resized to the
     * file's size and one read task per block is queued and counted, reading
     * file offset `o` into buffer offset `o`.
     */
    method AddRead(path: Path, data: ByteBuffer, disk: Disk)
      requires Valid()
      modifies this, pool.taskQueue, data
      ensures Valid() && isRunning == old(isRunning)
      ensures !old(isRunning) || path !in disk.files ==>
                data.bytes == [] && taskCount == old(taskCount) && pool.taskQueue.values == old(pool.taskQueue.values)
      ensures old(isRunning) && path in disk.files ==>
                |data.bytes| == |disk.files[path]|
                && data.bytes == (if |data.bytes| <= |old(data.bytes)| then old(data.bytes)[..|data.bytes|]
                                  else old(data.bytes) + ZeroBytes(|data.bytes| - |old(data.bytes)|))
                && taskCount == old(taskCount) + |ChunksFrom(0, |data.bytes|, blockSize)|
                && pool.taskQueue.values == old(pool.taskQueue.values)
                     + (if pool.stop then [] else Tasks(Read, path, data, ChunksFrom(0, |data.bytes|, blockSize), 0))
    {
      if !isRunning || path !in disk.files {
        data.Resize(0);
        return;
      }
      var fileSize := |disk.files[path]|;
      data.Resize(fileSize);
      EmitChunks(Read, path, data, fileSize, 0);
    }

    /**
     * A queued task run by a worker (`_write_` or `_read_`): while the
     * scheduler runs and the file opens (`path` present and `ioOk`), the I/O
     * is done; in every case the task stops counting.
     */
    method Execute(task: FileTask, disk: Disk, ioOk: bool)
      requires Valid() && taskCount > 0
      requires task.offset + task.size <= |task.buffer.bytes|
      modifies this, disk, task.buffer
      ensures Valid() && isRunning == old(isRunning) && taskCount == old(taskCount) - 1
      ensures var done := isRunning && ioOk && task.path in old(disk.files);
              if task.kind == Write then
                task.buffer.bytes == old(task.buffer.bytes)
                && disk.files == if done then old(disk.files)[task.path := WriteEffect(old(disk.files)[task.path], old(task.buffer.bytes), task)]
                                 else old(disk.files)
              else
                disk.files == old(disk.files)
                && task.buffer.bytes == if done then ReadEffect(old(task.buffer.bytes), old(disk.files)[task.path], task)
                                        else old(task.buffer.bytes)
    {
      if isRunning && ioOk && task.path in disk.files {
        if task.kind == Write {
          var file := disk.files[task.path];
          disk.files := disk.files[task.path := WriteEffect(file, task.buffer.bytes, task)];
        } else {
          task.buffer.bytes := ReadEffect(task.buffer.bytes, disk.files[task.path], task);
        }
      }
      taskCount := taskCount - 1;
    }
  }
}

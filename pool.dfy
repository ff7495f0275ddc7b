/**
 * `tools::thread::pool` (tools/module/thread/pool.hpp): a task queue served
 * by worker threads, a stop flag and a counter of running tasks.  Threads are
 * not modelled: each worker is its loop state (`current_spin`,
 * `current_delay`), advanced one poll at a time by `Poll`, and the task a
 * poll hands out is run by the caller, which then calls `Finish`.  A task is
 * an opaque value of type `T`.
 */
module ThreadPool {
  import opened Numerals
  import opened Wrappers
  import opened ThreadData

  /** `max_spin`: idle polls a worker spends spinning before it starts to sleep. */
  const MAX_SPIN: nat := 100
  /** `base_delay`: the first sleep, in microseconds. */
  const BASE_DELAY: int := 100
  /** The cap on the sleep, `std::min(current_delay * 2, 1000)`. */
  const MAX_DELAY: int := 1000

  /** The `int` range of `current_spin`. */
  const I32_MIN: int := -0x8000_0000
  const I32_MAX: int := 0x7fff_ffff

  /** A worker's loop state: `current_spin` and `current_delay`. */
  datatype Worker = Worker(spin: int, delay: int)

  /** The state a worker starts in and returns to after every task. */
  const RESET: Worker := Worker(MAX_SPIN, BASE_DELAY)

  /** What an idle poll does: continue at once, or sleep for the given microseconds. */
  datatype IdleAction = Spin | Sleep(micros: int)

  /** What one turn of the worker loop does. */
  datatype WorkerAction<T> = Exit | Run(task: T) | Idle(action: IdleAction)

  function Min(a: int, b: int): int { if a <= b then a else b }

  /** The sleep before the `j`-th doubling: 100 * 2^j microseconds, capped at 1000. */
  function SleepDelay(j: nat): int
  {
    Min(BASE_DELAY * Pow(2, j), MAX_DELAY)
  }

  /** An idle poll after a failed `pop`, lines 98-108, with `current_spin` held at 0 once spinning is over. */
  function IdleStep(w: Worker): (r: (Worker, IdleAction))
    ensures r.1 == Spin <==> w.spin > 1
    ensures w.spin >= 0 ==> r.0.spin >= 0
    ensures r.1.Sleep? ==> r.1.micros == w.delay
    ensures BASE_DELAY <= w.delay <= MAX_DELAY ==> BASE_DELAY <= r.0.delay <= MAX_DELAY
  {
    var spin := if w.spin > 0 then w.spin - 1 else 0;
    if spin > 0 then
      (Worker(spin, w.delay), Spin)
    else
      (Worker(spin, Min(w.delay * 2, MAX_DELAY)), Sleep(w.delay))
  }

  /** The worker state after `n` consecutive idle polls. */
  function IdlePolls(w: Worker, n: nat): Worker
  {
    if n == 0 then w else IdleStep(IdlePolls(w, n - 1)).0
  }

  /** The capped doubling of lines 107-108 follows the closed form. */
  lemma SleepDelayStep(j: nat)
    ensures BASE_DELAY <= SleepDelay(j) <= MAX_DELAY
    ensures SleepDelay(j + 1) == Min(SleepDelay(j) * 2, MAX_DELAY)
  {
    assert Pow(2, j + 1) == 2 * Pow(2, j);
  }

  /** The sleeps come out as 100, 200, 400, 800, then 1000 for ever. */
  lemma SleepDelays(j: nat)
    ensures SleepDelay(0) == 100 && SleepDelay(1) == 200 && SleepDelay(2) == 400 && SleepDelay(3) == 800
    ensures j >= 4 ==> SleepDelay(j) == 1000
  {
    if j >= 4 {
      PowMonotone(2, 4, j);
    }
  }

  /** During the first 99 idle polls after a reset the worker only counts down. */
  lemma {:induction false} SpinPhase(n: nat)
    requires n < MAX_SPIN
    ensures IdlePolls(RESET, n) == Worker(MAX_SPIN - n, BASE_DELAY)
  {
    if n > 0 {
      SpinPhase(n - 1);
    }
  }

  /** From the 100th idle poll on, the spin count stays at 0 and the delay doubles up to its cap. */
  lemma {:induction false} SleepPhase(j: nat)
    ensures IdlePolls(RESET, MAX_SPIN + j) == Worker(0, SleepDelay(j + 1))
  {
    if j == 0 {
      SpinPhase(MAX_SPIN - 1);
    } else {
      SleepPhase(j - 1);
      SleepDelayStep(j);
    }
    SleepDelayStep(j);
  }

  /**
   * The `k`-th consecutive idle poll after a reset spins for k = 1..99,
   * and from k = 100 on sleeps 100, 200, 400, 800, 1000, 1000, ... microseconds.
   */
  lemma IdlePollFromReset(k: nat)
    requires k >= 1
    ensures k < MAX_SPIN ==> IdleStep(IdlePolls(RESET, k - 1)).1 == Spin
    ensures k >= MAX_SPIN ==> IdleStep(IdlePolls(RESET, k - 1)).1 == Sleep(SleepDelay(k - MAX_SPIN))
  {
    if k < MAX_SPIN {
      SpinPhase(k - 1);
    } else if k == MAX_SPIN {
      SpinPhase(k - 1);
    } else {
      SleepPhase(k - 1 - MAX_SPIN);
    }
  }

  /** `int` arithmetic as it behaves on a two's-complement machine: reduced into [-2^31, 2^31). */
  function WrapI32(x: int): (r: int)
    ensures I32_MIN <= r <= I32_MAX
    ensures I32_MIN <= x <= I32_MAX ==> r == x
    ensures (r - x) % 0x1_0000_0000 == 0
  {
    (x - I32_MIN) % 0x1_0000_0000 + I32_MIN
  }

  /** Lines 98-108 as written: `--current_spin` keeps decreasing through the sleeping phase. */
  function IdleStepAsWritten(w: Worker): (r: (Worker, IdleAction))
    ensures I32_MIN < w.spin <= I32_MAX ==> r.0.spin == w.spin - 1
    ensures r.1 == Spin <==> WrapI32(w.spin - 1) > 0
  {
    var spin := WrapI32(w.spin - 1);
    if spin > 0 then
      (Worker(spin, w.delay), Spin)
    else
      (Worker(spin, Min(w.delay * 2, MAX_DELAY)), Sleep(w.delay))
  }

  function IdlePollsAsWritten(w: Worker, n: nat): Worker
  {
    if n == 0 then w else IdleStepAsWritten(IdlePollsAsWritten(w, n - 1)).0
  }

  /** As written, `current_spin` reaches -j after 100 + j idle polls, down to the `int` minimum. */
  lemma {:induction false} SpinCountsDownAsWritten(j: nat)
    requires j <= -I32_MIN
    ensures IdlePollsAsWritten(RESET, MAX_SPIN + j) == Worker(-(j as int), SleepDelay(j + 1))
  {
    if j == 0 {
      AsWrittenAgreesDuringSpin(MAX_SPIN + j);
      SleepPhase(j);
    } else {
      SpinCountsDownAsWritten(j - 1);
      var before := IdlePollsAsWritten(RESET, MAX_SPIN + j - 1);
      assert WrapI32(before.spin - 1) == -(j as int);
      SleepDelayStep(j);
      assert IdlePollsAsWritten(RESET, MAX_SPIN + j) == IdleStepAsWritten(before).0;
    }
  }

  /** Before `current_spin` goes negative, the code as written and the model agree. */
  lemma {:induction false} AsWrittenAgreesDuringSpin(n: nat)
    requires n <= MAX_SPIN
    ensures IdlePollsAsWritten(RESET, n) == IdlePolls(RESET, n)
  {
    if n > 0 {
      AsWrittenAgreesDuringSpin(n - 1);
      if n - 1 < MAX_SPIN {
        SpinPhase(n - 1);
      }
    }
  }

  /**
   * After 100 + 2^31 idle polls, `--current_spin` overflows `int` (undefined
   * behaviour; it wraps to 2^31 - 1 on usual machines) and the worker spins
   * again, without sleeping, for about 2^31 more polls.
   */
  lemma SpinResumesAsWritten()
    ensures IdleStepAsWritten(IdlePollsAsWritten(RESET, MAX_SPIN - I32_MIN)).1 == Spin
  {
    SpinCountsDownAsWritten(-I32_MIN);
  }

  /** With `current_spin` held at 0, a worker that has started to sleep never spins again until a task arrives. */
  lemma {:induction false} NeverSpinsAgain(n: nat)
    requires n >= MAX_SPIN - 1
    ensures IdleStep(IdlePolls(RESET, n)).1.Sleep?
  {
    IdlePollFromReset(n + 1);
  }

  class Pool<T> {
    /** `task_queue` */
    const taskQueue: Queue<T>
    /** `threads.size()`: one worker per thread started by the constructor. */
    const threadCount: nat
    /** `stop` */
    var stop: bool
    /** `count`: tasks taken by a worker and still running. */
    var count: nat

    ghost predicate Valid()
      reads this, taskQueue
    {
      taskQueue.Valid()
    }

    /** `pool(thread_count)`: an empty queue, not stopped, nothing running. */
    constructor (threads: nat)
      ensures Valid() && fresh(taskQueue) && taskQueue.values == []
      ensures threadCount == threads && !stop && count == 0
    {
      taskQueue := new Queue<T>();
      threadCount := threads;
      stop := false;
      count := 0;
    }

    /** `insert(f, args...)`: refused once `stop` is set; otherwise the task joins the back of the queue. */
    method Insert(task: T) returns (ok: bool)
      requires Valid()
      modifies taskQueue
      ensures Valid() && ok == !stop
      ensures ok ==> taskQueue.values == old(taskQueue.values) + [task]
      ensures !ok ==> taskQueue.values == old(taskQueue.values)
    {
      if stop {
        return false;
      }
      taskQueue.Push(task);
      ok := true;
    }

    /** `task_count()`: the number of queued tasks. */
    function TaskCount(): (r: nat)
      requires Valid()
      reads this, taskQueue
      ensures r == |taskQueue.values|
    {
      taskQueue.Size()
    }

    /** `thread_count()`: the number of workers the pool was built with. */
    function ThreadCount(): (r: nat)
      reads this
      ensures r == threadCount
    {
      threadCount
    }

    /**
     * One test of the loop condition of `wait()`: the pool stops once the
     * queue is empty and no task is running, and otherwise nothing changes.
     */
    method Wait() returns (stopped: bool)
      requires Valid()
      modifies this
      ensures Valid() && count == old(count)
      ensures stopped <==> TaskCount() == 0 && count == 0
      ensures stop == (old(stop) || stopped)
    {
      stopped := TaskCount() == 0 && count == 0;
      if stopped {
        stop := true;
      }
    }

    /** `join()`: stop at once, whatever is still queued. */
    method Join()
      requires Valid()
      modifies this
      ensures Valid() && stop && count == old(count)
    {
      stop := true;
    }

    /**
     * One turn of `worker()`'s loop: leave once `stop` is set; otherwise hand
     * out the oldest queued task and count it as running; otherwise an idle
     * poll.
     */
    method Poll(w: Worker) returns (w': Worker, action: WorkerAction<T>)
      requires Valid()
      modifies this, taskQueue
      ensures Valid() && stop == old(stop)
      ensures old(stop) ==> action == Exit && w' == w && count == old(count) && taskQueue.values == old(taskQueue.values)
      ensures !old(stop) && old(taskQueue.values) != [] ==>
                action == Run(old(taskQueue.values)[0]) && taskQueue.values == old(taskQueue.values)[1..]
                && count == old(count) + 1 && w' == w
      ensures !old(stop) && old(taskQueue.values) == [] ==>
                action == Idle(IdleStep(w).1) && w' == IdleStep(w).0
                && count == old(count) && taskQueue.values == []
    {
      if stop {
        return w, Exit;
      }
      var task := taskQueue.Pop();
      if task.Some? {
        count := count + 1;
        return w, Run(task.value);
      }
      var step := IdleStep(w);
      w', action := step.0, Idle(step.1);
    }

    /** After a handed-out task has run: it no longer counts, and the worker is reset (lines 89-93). */
    method Finish() returns (w': Worker)
      requires Valid() && count > 0
      modifies this
      ensures Valid() && stop == old(stop) && count == old(count) - 1 && w' == RESET
    {
      count := count - 1;
      w' := RESET;
    }
  }
}

/**
 * tools/module/thread/data_box.hpp, run by one thread at a time: the
 * sentinel-node linked `queue<T>` and the reentrant ownership `box<T>`.
 * Compare-and-swap always succeeds on its first try.  The calling thread's
 * id, `std::this_thread::get_id()` in the source, is an explicit parameter.
 */
module DataBox {
  import opened Wrappers

  /** The id of a running thread.  `std::thread::id()`, the id of no thread, is `None` below. */
  type ThreadId = nat

  /** The message of the `std::runtime_error` that `release` throws. */
  const NOT_OWNER: string := "Release called by a thread that doesn't own the lock"

  class Queue<T> {
    /**
     * The data of the nodes after the sentinel `head`, oldest first.  A popped
     * node becomes the new sentinel; its data is not read again.
     */
    var values: seq<T>

    /** `queue()`: a single sentinel node. */
    constructor ()
      ensures values == []
    {
      values := [];
    }

    /** `empty()`: the sentinel has no successor. */
    function Empty(): (r: bool)
      reads this
      ensures r <==> |values| == 0
    {
      values == []
    }

    /** `push(value)`: link a new node holding `value` after the tail. */
    method Push(value: T)
      modifies this
      ensures values == old(values) + [value]
    {
      values := values + [value];
    }

    /** `pop()`: nothing from an empty queue; otherwise the oldest value, which leaves the queue. */
    method Pop() returns (r: Option<T>)
      modifies this
      ensures old(values) == [] ==> r == None && values == old(values)
      ensures old(values) != [] ==> r == Some(old(values)[0]) && values == old(values)[1..]
    {
      if values == [] {
        return None;
      }
      r := Some(values[0]);
      values := values[1..];
    }

    /** The destructor's `while (pop().has_value());`: pops every value, oldest first. */
    method Drain() returns (popped: seq<T>)
      modifies this
      ensures values == [] && popped == old(values)
    {
      popped := [];
      while true
        invariant popped + values == old(values)
        decreases |values|
      {
        ghost var before := values;
        var r := Pop();
        if r == None {
          assert popped == old(values);
          return;
        }
        popped := popped + [r.value];
        assert popped + values == (popped[..|popped| - 1] + [before[0]]) + before[1..];
      }
    }
  }

  /**
   * `box<T>`: at most one thread owns the data at a time; the owner may take
   * it again, and must release it as often as it took it.
   */
  class Box<T> {
    /** `lock_`: the owning thread, or `None` for `std::thread::id()`. */
    var owner: Option<ThreadId>
    /** `lock_count_`: how many times the owner has taken the box. */
    var lockCount: nat
    /** `data_` */
    var data: T

    /** A box is owned exactly when its count is positive. */
    ghost predicate Valid()
      reads this
    {
      owner.None? <==> lockCount == 0
    }

    /** `box(data)`: free, with count 0. */
    constructor (value: T)
      ensures Valid() && owner == None && lockCount == 0 && data == value
    {
      owner := None;
      lockCount := 0;
      data := value;
    }

    /**
     * `get()`: the owner takes the box once more; a thread finding it free
     * becomes its owner with count 1; any other thread gets nothing and
     * changes nothing.
     */
    method Get(caller: ThreadId) returns (r: Option<T>)
      requires Valid()
      modifies this
      ensures Valid() && data == old(data)
      ensures old(owner) == Some(caller) ==> r == Some(data) && owner == old(owner) && lockCount == old(lockCount) + 1
      ensures old(owner) == None ==> r == Some(data) && owner == Some(caller) && lockCount == 1
      ensures old(owner) != None && old(owner) != Some(caller) ==>
                r == None && owner == old(owner) && lockCount == old(lockCount)
    {
      if owner == Some(caller) {
        lockCount := lockCount + 1;
        return Some(data);
      }
      if owner == None {
        owner := Some(caller);
        lockCount := 1;
        return Some(data);
      }
      r := None;
    }

    /**
     * `release()`: throws and changes nothing unless the caller owns the box;
     * otherwise the count drops by one and the box is freed when it reaches 0.
     */
    method Release(caller: ThreadId) returns (r: Result<(), string>)
      requires Valid()
      modifies this
      ensures Valid() && data == old(data)
      ensures r.Err? <==> old(owner) != Some(caller)
      ensures r.Err? ==> r.error == NOT_OWNER && owner == old(owner) && lockCount == old(lockCount)
      ensures r.Ok? ==> lockCount == old(lockCount) - 1 && owner == (if lockCount == 0 then None else old(owner))
    {
      if owner != Some(caller) {
        return Err(NOT_OWNER);
      }
      lockCount := lockCount - 1;
      if lockCount == 0 {
        owner := None;
      }
      r := Ok(());
    }

    /**
     * A store through the `T*` that `get()` handed out: only the owner holds
     * that pointer, and writing through it changes the data and nothing else.
     */
    method Write(caller: ThreadId, value: T)
      requires Valid() && owner == Some(caller)
      modifies this
      ensures Valid() && data == value && owner == old(owner) && lockCount == old(lockCount)
    {
      data := value;
    }

    /** `set(data)`, once `wait_for_unlock` has seen the box free: the data is replaced. */
    method Set(value: T)
      requires Valid() && owner == None
      modifies this
      ensures Valid() && owner == None && lockCount == 0 && data == value
    {
      data := value;
    }
  }
}

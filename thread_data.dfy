/**
 * `tools::thread::data::queue<T>` (tools/module/thread/thread_data.hpp), run
 * by one thread at a time: a singly linked list that starts with a sentinel
 * node, a counter of the queued values, and a buffer of popped nodes whose
 * deletion is deferred.  Every compare-and-swap succeeds on its first try, so
 * the retry loops of `push` and `pop` run their body once and become plain
 * assignments.
 */
module ThreadData {
  import opened Wrappers

  /** A popped node goes to the deferred-garbage buffer, which is emptied once it holds more than this. */
  const GARBAGE_LIMIT: nat := 64

  class Queue<T> {
    /**
     * The data of the nodes after the sentinel `head`, up to `tail`, oldest
     * first.  The sentinel's own data is never read again, so it is not kept.
     */
    var values: seq<T>
    /** `count`: the number of values pushed and not yet popped. */
    var count: nat
    /** The number of old head nodes waiting in the `garbage` vector. */
    var garbage: nat

    ghost predicate Valid()
      reads this
    {
      count == |values| && garbage <= GARBAGE_LIMIT
    }

    /** `queue()`: one sentinel node, head and tail both on it. */
    constructor ()
      ensures Valid() && values == [] && garbage == 0
    {
      values := [];
      count := 0;
      garbage := 0;
    }

    /** `size()`: the counter, which always equals the number of queued values. */
    function Size(): (r: nat)
      requires Valid()
      reads this
      ensures r == |values|
    {
      count
    }

    /** `empty()`: `size() == 0`, that is, no value is queued. */
    function Empty(): (r: bool)
      requires Valid()
      reads this
      ensures r <==> values == []
    {
      Size() == 0
    }

    /** `push(value)`: link a new node after the tail and count it. */
    method Push(value: T)
      requires Valid()
      modifies this
      ensures Valid() && values == old(values) + [value] && garbage == old(garbage)
    {
      values := values + [value];
      count := count + 1;
    }

    /**
     * `pop()`: nothing when no node follows the sentinel; otherwise the next
     * node becomes the sentinel, its value is returned, and the old head goes
     * to the garbage buffer, which is emptied once it holds more than 64
     * nodes.
     */
    method Pop() returns (r: Option<T>)
      requires Valid()
      modifies this
      ensures Valid()
      ensures old(values) == [] ==> r == None && values == old(values) && count == old(count) && garbage == old(garbage)
      ensures old(values) != [] ==>
                r == Some(old(values)[0]) && values == old(values)[1..]
                && garbage == (if old(garbage) + 1 > GARBAGE_LIMIT then 0 else old(garbage) + 1)
    {
      if values == [] {
        return None;
      }
      var result := values[0];
      values := values[1..];
      count := count - 1;
      garbage := garbage + 1;
      if garbage > GARBAGE_LIMIT {
        garbage := 0;
      }
      r := Some(result);
    }

    /** The destructor's `while (pop().has_value());`: pops every value, oldest first. */
    method Drain() returns (popped: seq<T>)
      requires Valid()
      modifies this
      ensures Valid() && values == [] && popped == old(values)
    {
      popped := [];
      while true
        invariant Valid() && popped + values == old(values)
        decreases |values|
      {
        ghost var before := values;
        var r := Pop();
        if r == None {
          assert popped == old(values);
          return;
        }
        popped := popped + [r.value];
        assert popped + values == (popped[..|popped| - 1] + [before[0]]) + before[1..];
      }
    }
  }
}

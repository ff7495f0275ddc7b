/**
 * tools/base/error.hpp: `base_error`, a list of error records, each an error
 * code with a message and the steady-clock time it was raised.  The clock is
 * not read here: what `time::time_now()` would return is passed in as `now`.
 */
module Errors {
  import opened Size

  /** A `steady_clock::time_point`, in nanoseconds since the clock's epoch. */
  type TimePoint = int

  /** `base_error::error_code`: `error_code_`, `error_message_` and `error_time_`. */
  datatype ErrorCode = ErrorCode(code: U64, message: string, time: TimePoint)

  /** `error_code(code, error_message, time_point)`: every field as given. */
  function MessageAt(code: U64, message: string, time: TimePoint): (e: ErrorCode)
    ensures e.code == code && e.message == message && e.time == time
  {
    ErrorCode(code, message, time)
  }

  /** `error_code(code, time_point)`: no message. */
  function ErrorAt(code: U64, time: TimePoint): (e: ErrorCode)
    ensures e.code == code && e.message == "" && e.time == time
  {
    MessageAt(code, "", time)
  }

  /** `error_code(code, error_message)`, raised when the clock reads `now`. */
  function MessageNow(code: U64, message: string, now: TimePoint): (e: ErrorCode)
    ensures e.code == code && e.message == message && e.time == now
  {
    MessageAt(code, message, now)
  }

  /** `error_code(code)`, raised when the clock reads `now`. */
  function ErrorNow(code: U64, now: TimePoint): (e: ErrorCode)
    ensures e.code == code && e.message == "" && e.time == now
  {
    ErrorAt(code, now)
  }

  /** The four constructors agree wherever their arguments do: an absent message is the empty one, an absent time the clock's. */
  lemma ConstructorsAgree(code: U64, message: string, now: TimePoint)
    ensures ErrorNow(code, now) == ErrorAt(code, now) == MessageAt(code, "", now)
    ensures MessageNow(code, message, now) == MessageAt(code, message, now)
    ensures MessageAt(code, message, now) == ErrorAt(code, now) <==> message == ""
  {
  }

  /** The codes of a list of records, in order. */
  function Codes(entries: seq<ErrorCode>): (r: seq<U64>)
    ensures |r| == |entries|
    ensures forall i :: 0 <= i < |entries| ==> r[i] == entries[i].code
  {
    if entries == [] then [] else Codes(entries[..|entries| - 1]) + [entries[|entries| - 1].code]
  }

  /** Appending a record appends its code. */
  lemma CodesAppend(entries: seq<ErrorCode>, e: ErrorCode)
    ensures Codes(entries + [e]) == Codes(entries) + [e.code]
  {
    assert (entries + [e])[..|entries|] == entries;
  }

  /** `base_error`: the records `add` has collected since the last `clear`. */
  class BaseError {
    /** `error_code_` */
    var entries: seq<ErrorCode>

    /** `base_error()`: no records, so `error_num()` is 0. */
    constructor ()
      ensures entries == []
    {
      entries := [];
    }

    /**
     * `add(code)`: one record at the end, holding `code`, no message and the
     * time the clock reads; the earlier records stay as and where they were.
     */
    method Add(code: U64, now: TimePoint)
      modifies this
      ensures entries == old(entries) + [ErrorNow(code, now)]
      ensures Codes(entries) == Codes(old(entries)) + [code]
      ensures |entries| == |old(entries)| + 1
      ensures entries == AfterAdds(old(entries), [code], [now])
    {
      CodesAppend(entries, ErrorNow(code, now));
      entries := entries + [ErrorNow(code, now)];
    }

    /** `clear()`: no records left. */
    method Clear()
      modifies this
      ensures entries == []
    {
      entries := [];
    }

    /** `get()`: a copy of the records, oldest first. */
    method Get() returns (r: seq<ErrorCode>)
      ensures r == entries
    {
      r := entries;
    }

    /** `error_num()`: how many records there are. */
    method ErrorNum() returns (n: nat)
      ensures n == |entries|
    {
      n := |entries|;
    }
  }

  /** The records after one `add` per code, the `k`th at clock reading `times[k]`. */
  function AfterAdds(entries: seq<ErrorCode>, codes: seq<U64>, times: seq<TimePoint>): (r: seq<ErrorCode>)
    requires |times| == |codes|
    decreases |codes|
  {
    if codes == [] then entries
    else AfterAdds(entries + [ErrorNow(codes[0], times[0])], codes[1..], times[1..])
  }

  /**
   * A run of `add` calls keeps the earlier records and reports the new codes
   * after them, in call order; starting from a new or cleared list, `get()`
   * lists exactly the codes added and `error_num()` counts them.
   */
  lemma {:induction false} AddsReportCodes(entries: seq<ErrorCode>, codes: seq<U64>, times: seq<TimePoint>)
    requires |times| == |codes|
    ensures var r := AfterAdds(entries, codes, times);
            |r| == |entries| + |codes| && r[..|entries|] == entries && Codes(r) == Codes(entries) + codes
    decreases |codes|
  {
    if codes != [] {
      var e := ErrorNow(codes[0], times[0]);
      AddsReportCodes(entries + [e], codes[1..], times[1..]);
      CodesAppend(entries, e);
      var r := AfterAdds(entries, codes, times);
      assert r[..|entries|] == r[..|entries| + 1][..|entries|];
      assert Codes(entries) + [codes[0]] + codes[1..] == Codes(entries) + codes;
    }
  }
}

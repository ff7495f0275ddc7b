/**
 * tools/module/time/time.cpp: turning a `steady_clock` time point into a
 * `system_clock` time point through the two clock readings taken at program
 * start, and printing it in one of eight layouts.  Time points are integer
 * nanoseconds since each clock's epoch.  `system_clock` counts in ticks of a
 * platform-dependent length (1 ns with libstdc++, 100 ns with the MSVC
 * library, 1 us with libc++), which is part of the startup readings here.
 * `localtime_r`, which depends on the time zone database, is a function
 * parameter from seconds since the epoch to a broken-down time.
 */
module Time {
  import opened Size
  import opened Numerals

  const NS_PER_S: int := 1_000_000_000
  const NS_PER_MS: int := 1_000_000
  const NS_PER_US: int := 1_000

  /** The length of one `system_clock::duration` tick, in nanoseconds. */
  type Tick = t: int | t >= 1 witness 1

  /**
   * `program_startup_time_point`: `system_clock::now()` and `steady_clock::now()`,
   * read once, and the tick of `system_clock` on the platform.
   */
  datatype Startup = Startup(systemStart: int, steadyStart: int, tick: Tick)

  /** `std::tm` as `localtime_r` fills it: years since 1900, months from 0. */
  datatype Tm = Tm(year: int, mon: int, mday: int, hour: int, min: int, sec: int)

  /** The digits printed after the seconds. */
  datatype SubSecond = SubSecond(ms: int, us: int, ns: int)

  /** A whole number of ticks leaves no remainder. */
  lemma WholeTicksNoRemainder(k: int, q: Tick)
    ensures (k * q) % q == 0
  {
    var m := (k * q) % q;
    var d := (k * q) / q;
    assert k * q == d * q + m;
    assert (k - d) * q == m;
    if k - d > 0 {
      MulMonotone(1, k - d, q);
    } else if k - d < 0 {
      MulMonotone(1, d - k, q);
    }
  }

  /** The whole ticks in a non-negative duration: at most it, and less than a tick short of it. */
  lemma WholeTicks(x: nat, q: Tick)
    ensures 0 <= (x / q) * q <= x && x - (x / q) * q < q
    ensures ((x / q) * q) % q == 0 && (-((x / q) * q)) % q == 0
  {
    assert x == (x / q) * q + x % q;
    WholeTicksNoRemainder(x / q, q);
    assert -((x / q) * q) == (-(x / q)) * q;
    WholeTicksNoRemainder(-(x / q), q);
  }

  /** `duration_cast` to a coarser tick: whole ticks only, cut off towards zero. */
  function TruncateToTick(x: int, tick: Tick): (r: int)
    ensures r % tick == 0
    ensures x >= 0 ==> 0 <= r <= x && x - r < tick
    ensures x < 0 ==> x <= r <= 0 && r - x < tick
    ensures tick == 1 ==> r == x
  {
    if x >= 0 then
      WholeTicks(x, tick);
      (x / tick) * tick
    else
      WholeTicks(-x, tick);
      -(((-x) / tick) * tick)
  }

  /** Multiplying by a tick keeps strict order, so it can be cancelled. */
  lemma MulLessCancel(i: nat, j: nat, q: Tick)
    requires i * q < j * q
    ensures i < j
  {
    if j <= i {
      MulMonotone(j, i, q);
    }
  }

  /** Whole ticks are division with the remainder dropped, so a larger duration never gets fewer ticks. */
  lemma DivMonotone(x: nat, y: nat, q: Tick)
    requires x <= y
    ensures (x / q) * q <= (y / q) * q
  {
    WholeTicks(x, q);
    WholeTicks(y, q);
    var a, b := x / q, y / q;
    assert (b + 1) * q == b * q + q;
    MulLessCancel(a, b + 1, q);
    MulMonotone(a, b, q);
  }

  /** Truncation towards zero keeps the order of durations. */
  lemma TruncateMonotone(x: int, y: int, tick: Tick)
    requires x <= y
    ensures TruncateToTick(x, tick) <= TruncateToTick(y, tick)
  {
    if 0 <= x {
      DivMonotone(x, y, tick);
    } else if y < 0 {
      DivMonotone(-y, -x, tick);
    }
  }

  /**
   * `steady_clock_to_system_clock(tp)`: the elapsed steady time since the
   * start, cut to whole system ticks, added to the system start.  With 1 ns
   * ticks the system time is exactly as far from the system start as `tp` is
   * from the steady start.
   */
  function SteadyToSystem(base: Startup, tp: int): (r: int)
    ensures r - base.systemStart == TruncateToTick(tp - base.steadyStart, base.tick)
    ensures base.tick == 1 ==> r - base.systemStart == tp - base.steadyStart
    ensures tp == base.steadyStart ==> r == base.systemStart
  {
    var elapsed := tp - base.steadyStart;
    base.systemStart + TruncateToTick(elapsed, base.tick)
  }

  /**
   * Conversion keeps the order of time points; with 1 ns ticks it keeps their
   * distance too, so it is one-to-one.
   */
  lemma SteadyToSystemKeepsDistances(base: Startup, t1: int, t2: int)
    ensures t1 <= t2 ==> SteadyToSystem(base, t1) <= SteadyToSystem(base, t2)
    ensures base.tick == 1 ==> SteadyToSystem(base, t1) - SteadyToSystem(base, t2) == t1 - t2
    ensures base.tick == 1 ==> (t1 <= t2 <==> SteadyToSystem(base, t1) <= SteadyToSystem(base, t2))
  {
    if t1 <= t2 {
      TruncateMonotone(t1 - base.steadyStart, t2 - base.steadyStart, base.tick);
    }
  }

  /** With coarser ticks, two time points less than a tick apart can land on the same system time. */
  lemma CoarseTickMergesTimePoints()
    ensures SteadyToSystem(Startup(0, 0, 100), 0) == SteadyToSystem(Startup(0, 0, 100), 99)
  {
  }

  /** `floor<seconds>(d)`: the whole seconds at or before `d`, in nanoseconds. */
  function FloorSeconds(d: int): int
  {
    (d / NS_PER_S) * NS_PER_S
  }

  /** Lines 47-52: the nanoseconds past the last whole second, cut into milli-, micro- and nanoseconds. */
  function SplitSubSecond(d: int): (r: SubSecond)
    ensures 0 <= r.ms < 1000 && 0 <= r.us < 1000 && 0 <= r.ns < 1000
    ensures FloorSeconds(d) + r.ms * NS_PER_MS + r.us * NS_PER_US + r.ns == d
  {
    var total := d - FloorSeconds(d);
    SubSecond(total / NS_PER_MS, (total / NS_PER_US) % 1000, total % 1000)
  }

  /** The split is the only one: any three digit groups below 1000 that add up to the fraction are it. */
  lemma SplitSubSecondUnique(d: int, ms: int, us: int, ns: int)
    requires 0 <= ms < 1000 && 0 <= us < 1000 && 0 <= ns < 1000
    requires FloorSeconds(d) + ms * NS_PER_MS + us * NS_PER_US + ns == d
    ensures SplitSubSecond(d) == SubSecond(ms, us, ns)
  {
    var r := SplitSubSecond(d);
    var x := (r.ms - ms) * NS_PER_MS + (r.us - us) * NS_PER_US + (r.ns - ns);
    assert x == 0;
    if r.ms != ms {
      assert false;
    }
    if r.us != us {
      assert false;
    }
  }

  /** `system_clock::to_time_t`: whole seconds since the epoch, the rest cut off (towards zero, as libstdc++ and the MSVC library do). */
  function ToTimeT(d: int): (r: int)
    ensures d >= 0 ==> r * NS_PER_S == FloorSeconds(d)
  {
    if d >= 0 then d / NS_PER_S else -((-d) / NS_PER_S)
  }

  /** The seconds the date and time fields are computed from: the whole seconds at or before `d`. */
  function ClockSeconds(d: int): (r: int)
    ensures r * NS_PER_S == FloorSeconds(d)
    ensures r * NS_PER_S <= d < (r + 1) * NS_PER_S
  {
    d / NS_PER_S
  }

  /** The whole seconds and the sub-second digits together give back the time point exactly. */
  lemma ClockSecondsRecombine(d: int)
    ensures ClockSeconds(d) * NS_PER_S + SplitSubSecond(d).ms * NS_PER_MS + SplitSubSecond(d).us * NS_PER_US + SplitSubSecond(d).ns == d
  {
  }

  /** The printed numbers, in the order `operator<<` writes them. */
  function Fields(tm: Tm, sub: SubSecond): (r: seq<int>)
    ensures |r| == 9
  {
    [tm.year + 1900, tm.mon + 1, tm.mday, tm.hour, tm.min, tm.sec, sub.ms, sub.us, sub.ns]
  }

  /** The numbers as `operator<<` prints them, in decimal without padding. */
  function Printed(values: seq<int>): (r: seq<string>)
    ensures |r| == |values| && forall i :: 0 <= i < |values| ==> r[i] == IntToString(values[i])
  {
    seq(|values|, i requires 0 <= i < |values| => IntToString(values[i]))
  }

  /** The first |suffixes| printed numbers, each followed by its suffix. */
  function Render(texts: seq<string>, suffixes: seq<string>): (r: string)
    requires |suffixes| <= |texts|
  {
    if suffixes == [] then "" else texts[0] + suffixes[0] + Render(texts[1..], suffixes[1..])
  }

  /** The modes `format_time_point` knows. */
  predicate KnownMode(mode: U8)
  {
    mode in {0, 1, 2, 3, 10, 11, 12, 255}
  }

  /** The separators of the date and the time in modes 0 and 1. */
  const CLOCK: seq<string> := ["/", "/", " ", ":", ":"]
  /** The separators of the date and the time in modes 2 and 3. */
  const UNITS: seq<string> := ["/", "/", " ", "h:", "m:", "s:"]
  /** Year, month, day, hour, minute and second characters of modes 10 to 12. */
  const CHINESE: seq<string> := ["\U{5E74}", "\U{6708}", "\U{65E5} ", "\U{65F6}", "\U{5206}", "\U{79D2}"]
  /** "毫秒", milliseconds. */
  const MILLI_CN: string := "\U{6BEB}\U{79D2}"
  /** "微秒", microseconds. */
  const MICRO_CN: string := "\U{5FAE}\U{79D2}"

  /** What follows each printed number in each mode; an unknown mode prints as mode 0. */
  function Suffixes(mode: U8): (r: seq<string>)
    ensures 6 <= |r| <= 9
  {
    match mode
    case 1 => CLOCK + [".", ""]
    case 2 => UNITS + ["ms"]
    case 3 => UNITS + ["ms:", "us"]
    case 10 => CHINESE
    case 11 => CHINESE + [MILLI_CN]
    case 12 => CHINESE + [MILLI_CN, MICRO_CN]
    case 255 => ["Y", "M", "D", "h", "m", "s", "ms", "us", "ns"]
    case _ => CLOCK + [""]
  }

  /** The `switch (mode)` of lines 66-157: the first |Suffixes(mode)| fields, each with its suffix. */
  function Format(tm: Tm, sub: SubSecond, mode: U8): string
  {
    Render(Printed(Fields(tm, sub)), Suffixes(mode))
  }

  /**
   * `d` written as whole seconds `secs` and three digit groups below 1000,
   * the way `format_time_point` prints a time point.
   */
  predicate SplitsInto(d: int, secs: int, sub: SubSecond)
  {
    0 <= sub.ms < 1000 && 0 <= sub.us < 1000 && 0 <= sub.ns < 1000
    && secs * NS_PER_S + sub.ms * NS_PER_MS + sub.us * NS_PER_US + sub.ns == d
  }

  /** Flooring to the second and splitting the rest is the only such split. */
  lemma SplitIsClockSplit(d: int, secs: int, sub: SubSecond)
    requires SplitsInto(d, secs, sub)
    ensures secs == ClockSeconds(d) && sub == SplitSubSecond(d)
  {
    var c := ClockSeconds(d);
    var frac := sub.ms * NS_PER_MS + sub.us * NS_PER_US + sub.ns;
    assert 0 <= frac < NS_PER_S;
    SplitSubSecondUnique(d, sub.ms, sub.us, sub.ns);
  }

  /** Every split of `d` is the clock split. */
  lemma SplitsAreClockSplit(d: int)
    ensures SplitsInto(d, ClockSeconds(d), SplitSubSecond(d))
    ensures forall secs, sub | SplitsInto(d, secs, sub) :: secs == ClockSeconds(d) && sub == SplitSubSecond(d)
  {
    ClockSecondsRecombine(d);
    forall secs, sub | SplitsInto(d, secs, sub)
      ensures secs == ClockSeconds(d) && sub == SplitSubSecond(d)
    {
      SplitIsClockSplit(d, secs, sub);
    }
  }

  /** `to_time_t` cuts towards zero: before the epoch, a time with a fraction lands on the next second up. */
  lemma ToTimeTRoundsUpBeforeEpoch(d: int)
    ensures ToTimeT(d) == if d < 0 && SplitSubSecond(d) != SubSecond(0, 0, 0) then ClockSeconds(d) + 1 else ClockSeconds(d)
  {
    ClockSecondsRecombine(d);
    if d < 0 {
      var q := (-d) / NS_PER_S;
      assert q * NS_PER_S <= -d < q * NS_PER_S + NS_PER_S;
      var c := ClockSeconds(d);
      if SplitSubSecond(d) == SubSecond(0, 0, 0) {
        assert d == c * NS_PER_S;
      } else {
        assert c * NS_PER_S < d < (c + 1) * NS_PER_S;
      }
    }
  }

  /**
   * `format_time_point(tp, mode)` as written, with `localtime_r` given as
   * `localtime`: the date and time come from `to_time_t`, the sub-second
   * digits from `floor<seconds>`.
   */
  function FormatTimePointAsWritten(base: Startup, tp: int, mode: U8, localtime: int -> Tm): (r: string)
    ensures forall secs, sub | SplitsInto(SteadyToSystem(base, tp), secs, sub) ::
              r == Format(localtime(if SteadyToSystem(base, tp) < 0 && sub != SubSecond(0, 0, 0) then secs + 1 else secs), sub, mode)
  {
    var d := SteadyToSystem(base, tp);
    SplitsAreClockSplit(d);
    ToTimeTRoundsUpBeforeEpoch(d);
    Format(localtime(ToTimeT(d)), SplitSubSecond(d), mode)
  }

  /** `format_time_point(tp, mode)` with the date and time taken from the same whole second as the sub-second digits. */
  function FormatTimePoint(base: Startup, tp: int, mode: U8, localtime: int -> Tm): (r: string)
    ensures forall secs, sub | SplitsInto(SteadyToSystem(base, tp), secs, sub) :: r == Format(localtime(secs), sub, mode)
  {
    var d := SteadyToSystem(base, tp);
    SplitsAreClockSplit(d);
    Format(localtime(ClockSeconds(d)), SplitSubSecond(d), mode)
  }

  /** From the epoch on, the two agree. */
  lemma FormatTimePointAgreesAfterEpoch(base: Startup, tp: int, mode: U8, localtime: int -> Tm)
    requires SteadyToSystem(base, tp) >= 0
    ensures FormatTimePointAsWritten(base, tp, mode, localtime) == FormatTimePoint(base, tp, mode, localtime)
  {
    var d := SteadyToSystem(base, tp);
    assert ToTimeT(d) == ClockSeconds(d);
  }

  /** As written, half a second before and half a second after the epoch print the same text in every mode. */
  lemma FormatTimePointAsWrittenConfuses(mode: U8, localtime: int -> Tm)
    ensures FormatTimePointAsWritten(Startup(0, 0, 1), -NS_PER_S / 2, mode, localtime)
            == FormatTimePointAsWritten(Startup(0, 0, 1), NS_PER_S / 2, mode, localtime)
  {
    SplitSubSecondUnique(-NS_PER_S / 2, 500, 0, 0);
    SplitSubSecondUnique(NS_PER_S / 2, 500, 0, 0);
  }

  /**
   * With a `localtime` that gives different seconds different broken-down
   * times, the mode 255 text of `FormatTimePoint` determines the time point.
   */
  lemma FormatTimePointDeterminesTimePoint(base: Startup, t1: int, t2: int, localtime: int -> Tm)
    requires forall x, y :: localtime(x) == localtime(y) ==> x == y
    requires FormatTimePoint(base, t1, 255, localtime) == FormatTimePoint(base, t2, 255, localtime)
    ensures SteadyToSystem(base, t1) == SteadyToSystem(base, t2)
    ensures base.tick == 1 ==> t1 == t2
  {
    var d1, d2 := SteadyToSystem(base, t1), SteadyToSystem(base, t2);
    FullModeDeterminesTime(localtime(ClockSeconds(d1)), SplitSubSecond(d1), localtime(ClockSeconds(d2)), SplitSubSecond(d2));
    ClockSecondsRecombine(d1);
    ClockSecondsRecombine(d2);
  }

  /** One more suffix renders one more text, followed by that suffix. */
  lemma {:induction false} RenderSnoc(texts: seq<string>, suffixes: seq<string>, x: string)
    requires |suffixes| < |texts|
    ensures Render(texts, suffixes + [x]) == Render(texts, suffixes) + texts[|suffixes|] + x
  {
    var n := |suffixes|;
    if suffixes == [] {
      assert suffixes + [x] == [x];
      AppendEmpty(texts[0] + x);
      AppendEmpty(texts[0]);
    } else {
      var head := texts[0] + suffixes[0];
      var tail := Render(texts[1..], suffixes[1..]);
      TailSnoc(suffixes, x);
      calc {
        Render(texts, suffixes + [x]);
        head + Render(texts[1..], suffixes[1..] + [x]);
        == { RenderSnoc(texts[1..], suffixes[1..], x); }
        head + (tail + texts[1..][n - 1] + x);
        == { assert texts[1..][n - 1] == texts[n]; AppendAssoc(head, tail, texts[n], x); }
        head + tail + texts[n] + x;
      }
    }
  }

  /** The empty sequence is a unit of concatenation. */
  lemma AppendEmpty<T>(a: seq<T>)
    ensures [] + a == a && a + [] == a
  {
  }

  /** Dropping the first element commutes with appending one. */
  lemma TailSnoc<T>(s: seq<T>, x: T)
    requires s != []
    ensures (s + [x])[1..] == s[1..] + [x]
  {
  }

  /** Appending two elements is appending them one at a time. */
  lemma SnocTwice<T>(s: seq<T>, x: T, y: T)
    ensures s + [x, y] == (s + [x]) + [y]
  {
  }

  /** Dropping two elements is dropping one twice. */
  lemma TailTwice<T>(s: seq<T>)
    requires |s| >= 2
    ensures s[1..][1..] == s[2..]
  {
  }

  /** Regrouping a concatenation of four strings. */
  lemma AppendAssoc(a: string, b: string, c: string, d: string)
    ensures a + (b + c + d) == a + b + c + d
  {
  }

  /** The `default:` branch prints exactly what mode 0 prints. */
  lemma UnknownModeIsModeZero(tm: Tm, sub: SubSecond, mode: U8)
    requires !KnownMode(mode)
    ensures Format(tm, sub, mode) == Format(tm, sub, 0)
  {
  }

  /** Two more suffixes render two more texts, each followed by its suffix. */
  lemma RenderTwoMore(texts: seq<string>, common: seq<string>, x: string, y: string)
    requires |common| + 2 <= |texts|
    ensures Render(texts, common + [x, y])
            == Render(texts, common) + texts[|common|] + x + texts[|common| + 1] + y
  {
    SnocTwice(common, x, y);
    RenderSnoc(texts, common + [x], y);
    RenderSnoc(texts, common, x);
  }

  /** Mode 1 is mode 0 followed by a point and the milliseconds. */
  lemma ModeOneExtendsModeZero(tm: Tm, sub: SubSecond)
    ensures Format(tm, sub, 1) == Format(tm, sub, 0) + "." + IntToString(sub.ms)
  {
    var f := Printed(Fields(tm, sub));
    RenderSnoc(f, CLOCK, "");
    RenderTwoMore(f, CLOCK, ".", "");
    AppendEmpty(Render(f, CLOCK) + f[5]);
    AppendEmpty(Render(f, CLOCK) + f[5] + "." + f[6]);
  }

  /** Mode 3 is mode 2 followed by a colon and the microseconds with their unit. */
  lemma ModeThreeExtendsModeTwo(tm: Tm, sub: SubSecond)
    ensures Format(tm, sub, 3) == Format(tm, sub, 2) + ":" + IntToString(sub.us) + "us"
  {
    var f := Printed(Fields(tm, sub));
    RenderSnoc(f, UNITS, "ms");
    RenderTwoMore(f, UNITS, "ms:", "us");
    assert Render(f, UNITS) + f[6] + "ms:" == Render(f, UNITS) + f[6] + "ms" + ":";
  }

  /** Mode 11 is mode 10 followed by the milliseconds, and mode 12 is mode 11 followed by the microseconds. */
  lemma ChineseModesExtend(tm: Tm, sub: SubSecond)
    ensures Format(tm, sub, 11) == Format(tm, sub, 10) + IntToString(sub.ms) + MILLI_CN
    ensures Format(tm, sub, 12) == Format(tm, sub, 11) + IntToString(sub.us) + MICRO_CN
  {
    var f := Printed(Fields(tm, sub));
    RenderSnoc(f, CHINESE, MILLI_CN);
    RenderSnoc(f, CHINESE + [MILLI_CN], MICRO_CN);
    SnocTwice(CHINESE, MILLI_CN, MICRO_CN);
  }

  /** Appending one element to a display of length 1 gives the longer display. */
  lemma SnocOne<T>(a: T, b: T)
    ensures [a] + [b] == [a, b]
  {
  }

  /** Appending one element to a display of length 2 gives the longer display. */
  lemma SnocTwo<T>(a: T, b: T, c: T)
    ensures [a, b] + [c] == [a, b, c]
  {
  }

  /** Appending one element to a display of length 3 gives the longer display. */
  lemma SnocThree<T>(a: T, b: T, c: T, d: T)
    ensures [a, b, c] + [d] == [a, b, c, d]
  {
  }

  /** Appending one element to a display of length 4 gives the longer display. */
  lemma SnocFour<T>(a: T, b: T, c: T, d: T, e: T)
    ensures [a, b, c, d] + [e] == [a, b, c, d, e]
  {
  }

  /** Appending one element to a display of length 5 gives the longer display. */
  lemma SnocFive<T>(a: T, b: T, c: T, d: T, e: T, g: T)
    ensures [a, b, c, d, e] + [g] == [a, b, c, d, e, g]
  {
  }

  /** Appending one element to a display of length 6 gives the longer display. */
  lemma SnocSix<T>(a: T, b: T, c: T, d: T, e: T, g: T, h: T)
    ensures [a, b, c, d, e, g] + [h] == [a, b, c, d, e, g, h]
  {
  }

  /** Appending one element to a display of length 7 gives the longer display. */
  lemma SnocSeven<T>(a: T, b: T, c: T, d: T, e: T, g: T, h: T, j: T)
    ensures [a, b, c, d, e, g, h] + [j] == [a, b, c, d, e, g, h, j]
  {
  }

  /** Appending one element to a display of length 8 gives the longer display. */
  lemma SnocEight<T>(a: T, b: T, c: T, d: T, e: T, g: T, h: T, j: T, k: T)
    ensures [a, b, c, d, e, g, h, j] + [k] == [a, b, c, d, e, g, h, j, k]
  {
  }

  /** One suffix renders the first text followed by it. */
  lemma RenderOne(texts: seq<string>, a: string)
    requires 1 <= |texts|
    ensures Render(texts, [a]) == texts[0] + a
  {
    AppendEmpty([a]);
    RenderSnoc(texts, [], a);
    AppendEmpty(texts[0]);
  }

  /** Two suffixes render the first two texts, each followed by its suffix. */
  lemma RenderTwo(texts: seq<string>, a: string, b: string)
    requires 2 <= |texts|
    ensures Render(texts, [a, b])
            == texts[0] + a + texts[1] + b
  {
    RenderOne(texts, a);
    SnocOne(a, b);
    RenderSnoc(texts, [a], b);
  }

  /** Three suffixes render the first three texts, each followed by its suffix. */
  lemma RenderThree(texts: seq<string>, a: string, b: string, c: string)
    requires 3 <= |texts|
    ensures Render(texts, [a, b, c])
            == texts[0] + a + texts[1] + b + texts[2] + c
  {
    RenderTwo(texts, a, b);
    SnocTwo(a, b, c);
    RenderSnoc(texts, [a, b], c);
  }

  /** Four suffixes render the first four texts, each followed by its suffix. */
  lemma RenderFour(texts: seq<string>, a: string, b: string, c: string, d: string)
    requires 4 <= |texts|
    ensures Render(texts, [a, b, c, d])
            == texts[0] + a + texts[1] + b + texts[2] + c + texts[3] + d
  {
    RenderThree(texts, a, b, c);
    SnocThree(a, b, c, d);
    RenderSnoc(texts, [a, b, c], d);
  }

  /** Five suffixes render the first five texts, each followed by its suffix. */
  lemma RenderFive(texts: seq<string>, a: string, b: string, c: string, d: string, e: string)
    requires 5 <= |texts|
    ensures Render(texts, [a, b, c, d, e])
            == texts[0] + a + texts[1] + b + texts[2] + c + texts[3] + d + texts[4] + e
  {
    RenderFour(texts, a, b, c, d);
    SnocFour(a, b, c, d, e);
    RenderSnoc(texts, [a, b, c, d], e);
  }

  /** Six suffixes render the first six texts, each followed by its suffix. */
  lemma RenderSix(texts: seq<string>, a: string, b: string, c: string, d: string, e: string, g: string)
    requires 6 <= |texts|
    ensures Render(texts, [a, b, c, d, e, g])
            == texts[0] + a + texts[1] + b + texts[2] + c + texts[3] + d + texts[4] + e + texts[5] + g
  {
    RenderFive(texts, a, b, c, d, e);
    SnocFive(a, b, c, d, e, g);
    RenderSnoc(texts, [a, b, c, d, e], g);
  }

  /** Seven suffixes render the first seven texts, each followed by its suffix. */
  lemma RenderSeven(texts: seq<string>, a: string, b: string, c: string, d: string, e: string, g: string, h: string)
    requires 7 <= |texts|
    ensures Render(texts, [a, b, c, d, e, g, h])
            == texts[0] + a + texts[1] + b + texts[2] + c + texts[3] + d + texts[4] + e + texts[5] + g + texts[6] + h
  {
    RenderSix(texts, a, b, c, d, e, g);
    SnocSix(a, b, c, d, e, g, h);
    RenderSnoc(texts, [a, b, c, d, e, g], h);
  }

  /** Eight suffixes render the first eight texts, each followed by its suffix. */
  lemma RenderEight(texts: seq<string>, a: string, b: string, c: string, d: string, e: string, g: string, h: string, j: string)
    requires 8 <= |texts|
    ensures Render(texts, [a, b, c, d, e, g, h, j])
            == texts[0] + a + texts[1] + b + texts[2] + c + texts[3] + d + texts[4] + e + texts[5] + g + texts[6] + h + texts[7] + j
  {
    RenderSeven(texts, a, b, c, d, e, g, h);
    SnocSeven(a, b, c, d, e, g, h, j);
    RenderSnoc(texts, [a, b, c, d, e, g, h], j);
  }

  /** Nine suffixes render the first nine texts, each followed by its suffix. */
  lemma RenderNine(texts: seq<string>, a: string, b: string, c: string, d: string, e: string, g: string, h: string, j: string, k: string)
    requires 9 <= |texts|
    ensures Render(texts, [a, b, c, d, e, g, h, j, k])
            == texts[0] + a + texts[1] + b + texts[2] + c + texts[3] + d + texts[4] + e + texts[5] + g + texts[6] + h + texts[7] + j + texts[8] + k
  {
    RenderEight(texts, a, b, c, d, e, g, h, j);
    SnocEight(a, b, c, d, e, g, h, j, k);
    RenderSnoc(texts, [a, b, c, d, e, g, h, j], k);
  }

  /** Mode 0, and every unknown mode: `year/month/day hour:minute:second`. */
  lemma ModeZeroText(tm: Tm, sub: SubSecond)
    ensures Format(tm, sub, 0)
            == IntToString(tm.year + 1900) + "/" + IntToString(tm.mon + 1) + "/" + IntToString(tm.mday) + " "
               + IntToString(tm.hour) + ":" + IntToString(tm.min) + ":" + IntToString(tm.sec)
  {
    var f := Printed(Fields(tm, sub));
    RenderSnoc(f, CLOCK, "");
    RenderFive(f, "/", "/", " ", ":", ":");
    AppendEmpty(Render(f, CLOCK) + f[5]);
  }

  /** Mode 2: the time fields with their units `h:`, `m:`, `s:`, then the milliseconds and `ms`. */
  lemma ModeTwoText(tm: Tm, sub: SubSecond)
    ensures Format(tm, sub, 2)
            == IntToString(tm.year + 1900) + "/" + IntToString(tm.mon + 1) + "/" + IntToString(tm.mday) + " "
               + IntToString(tm.hour) + "h:" + IntToString(tm.min) + "m:" + IntToString(tm.sec) + "s:"
               + IntToString(sub.ms) + "ms"
  {
    var f := Printed(Fields(tm, sub));
    RenderSnoc(f, UNITS, "ms");
    RenderSix(f, "/", "/", " ", "h:", "m:", "s:");
  }

  /** Mode 10: each date and time field followed by its Chinese unit character. */
  lemma ModeTenText(tm: Tm, sub: SubSecond)
    ensures Format(tm, sub, 10)
            == IntToString(tm.year + 1900) + "\U{5E74}" + IntToString(tm.mon + 1) + "\U{6708}" + IntToString(tm.mday) + "\U{65E5} "
               + IntToString(tm.hour) + "\U{65F6}" + IntToString(tm.min) + "\U{5206}" + IntToString(tm.sec) + "\U{79D2}"
  {
    var f := Printed(Fields(tm, sub));
    RenderSix(f, "\U{5E74}", "\U{6708}", "\U{65E5} ", "\U{65F6}", "\U{5206}", "\U{79D2}");
  }

  /** Mode 255: every field, each followed by its unit letter, down to the nanoseconds. */
  lemma FullModeText(tm: Tm, sub: SubSecond)
    ensures Format(tm, sub, 255)
            == IntToString(tm.year + 1900) + "Y" + IntToString(tm.mon + 1) + "M" + IntToString(tm.mday) + "D"
               + IntToString(tm.hour) + "h" + IntToString(tm.min) + "m" + IntToString(tm.sec) + "s"
               + IntToString(sub.ms) + "ms" + IntToString(sub.us) + "us" + IntToString(sub.ns) + "ns"
  {
    var f := Printed(Fields(tm, sub));
    RenderNine(f, "Y", "M", "D", "h", "m", "s", "ms", "us", "ns");
  }

  /** The text begins with the first two numbers and their suffixes. */
  lemma RenderFirstTwo(texts: seq<string>, suffixes: seq<string>)
    requires 2 <= |suffixes| <= |texts|
    ensures Render(texts, suffixes) == texts[0] + suffixes[0] + (texts[1] + suffixes[1] + Render(texts[2..], suffixes[2..]))
  {
    TailTwice(texts);
    TailTwice(suffixes);
  }

  /** Every mode starts with the year, its separator and the month. */
  lemma FormatStartsWithYearAndMonth(tm: Tm, sub: SubSecond, mode: U8)
    ensures var p := IntToString(tm.year + 1900) + Suffixes(mode)[0] + IntToString(tm.mon + 1);
            |p| <= |Format(tm, sub, mode)| && Format(tm, sub, mode)[..|p|] == p
  {
    var s := Suffixes(mode);
    var f := Printed(Fields(tm, sub));
    RenderFirstTwo(f, s);
    assert f[0] == IntToString(tm.year + 1900) && f[1] == IntToString(tm.mon + 1);
  }

  /** A suffix that cannot be read as part of the number before it. */
  predicate Separates(s: string)
  {
    s != [] && !IsNumeralChar(s[0])
  }

  /** All suffixes but the last start with a character no number contains. */
  predicate Separating(suffixes: seq<string>)
  {
    forall i :: 0 <= i < |suffixes| - 1 ==> Separates(suffixes[i])
  }

  /** The length of the run of numeral characters a string starts with. */
  function NumeralPrefix(s: string): (r: nat)
    ensures r <= |s|
  {
    if s == [] || !IsNumeralChar(s[0]) then 0 else 1 + NumeralPrefix(s[1..])
  }

  /** A text made of numeral characters only. */
  predicate IsNumeral(a: string)
  {
    forall k :: 0 <= k < |a| ==> IsNumeralChar(a[k])
  }

  /** Every text is made of numeral characters only. */
  predicate AllNumerals(texts: seq<string>)
  {
    forall i :: 0 <= i < |texts| ==> IsNumeral(texts[i])
  }

  /** A number followed by a separator: the numeral run is exactly the number. */
  lemma {:induction false} NumeralLength(a: string, x: string)
    requires IsNumeral(a) && Separates(x)
    ensures NumeralPrefix(a + x) == |a|
  {
    if a == [] {
      assert a + x == x;
    } else {
      assert (a + x)[0] == a[0];
      assert (a + x)[1..] == a[1..] + x;
      NumeralLength(a[1..], x);
    }
  }

  /** Where a printed number ends is where the first non-numeral character is. */
  lemma SplitAtSeparator(a: string, x: string, b: string, y: string)
    requires IsNumeral(a) && IsNumeral(b)
    requires Separates(x) && Separates(y)
    requires a + x == b + y
    ensures a == b && x == y
  {
    NumeralLength(a, x);
    NumeralLength(b, y);
    assert a == (a + x)[..|a|] == (b + y)[..|b|] == b;
    assert x == (a + x)[|a|..] == (b + y)[|b|..] == y;
  }

  /** Two numbers, each followed by the same suffix and then by text: the numbers and the texts agree. */
  lemma ReadNumber(a: string, b: string, s: string, r1: string, r2: string)
    requires IsNumeral(a) && IsNumeral(b)
    requires (r1 == [] && r2 == []) || Separates(s)
    requires a + s + r1 == b + s + r2
    ensures a == b && r1 == r2
  {
    if r1 == [] && r2 == [] {
      assert a + s == a + s + r1 == b + s + r2 == b + s;
      assert a == (a + s)[..|a|] == (b + s)[..|b|] == b;
    } else {
      assert a + (s + r1) == a + s + r1 == b + s + r2 == b + (s + r2);
      assert (s + r1)[0] == s[0] == (s + r2)[0];
      SplitAtSeparator(a, s + r1, b, s + r2);
      assert r1 == (s + r1)[|s|..];
      assert r2 == (s + r2)[|s|..];
    }
  }

  /** The first number and the text after its suffix can be read off a rendered text. */
  lemma RenderHead(t1: seq<string>, t2: seq<string>, suffixes: seq<string>)
    requires |suffixes| <= |t1| && |suffixes| <= |t2| && suffixes != []
    requires AllNumerals(t1) && AllNumerals(t2) && Separating(suffixes)
    requires Render(t1, suffixes) == Render(t2, suffixes)
    ensures t1[0] == t2[0]
    ensures Render(t1[1..], suffixes[1..]) == Render(t2[1..], suffixes[1..])
  {
    var s := suffixes[0];
    var r1, r2 := Render(t1[1..], suffixes[1..]), Render(t2[1..], suffixes[1..]);
    assert Render(t1, suffixes) == t1[0] + s + r1;
    assert Render(t2, suffixes) == t2[0] + s + r2;
    if |suffixes| > 1 {
      assert Separates(suffixes[0]);
    }
    assert IsNumeral(t1[0]) && IsNumeral(t2[0]);
    ReadNumber(t1[0], t2[0], s, r1, r2);
  }

  /** Dropping the first suffix keeps the rest separating. */
  lemma SeparatingTail(suffixes: seq<string>)
    requires suffixes != [] && Separating(suffixes)
    ensures Separating(suffixes[1..])
  {
    forall i | 0 <= i < |suffixes[1..]| - 1
      ensures Separates(suffixes[1..][i])
    {
      assert suffixes[1..][i] == suffixes[i + 1];
    }
  }

  /** Dropping the first text keeps the rest numerals. */
  lemma NumeralsTail(texts: seq<string>)
    requires texts != [] && AllNumerals(texts)
    ensures AllNumerals(texts[1..])
  {
    forall i | 0 <= i < |texts[1..]|
      ensures IsNumeral(texts[1..][i])
    {
      assert texts[1..][i] == texts[i + 1];
    }
  }

  /** With separating suffixes, the rendered text determines every rendered number's text. */
  lemma {:induction false} RenderInjective(t1: seq<string>, t2: seq<string>, suffixes: seq<string>)
    requires |suffixes| <= |t1| && |suffixes| <= |t2|
    requires AllNumerals(t1) && AllNumerals(t2) && Separating(suffixes)
    requires Render(t1, suffixes) == Render(t2, suffixes)
    ensures forall i :: 0 <= i < |suffixes| ==> t1[i] == t2[i]
  {
    if suffixes != [] {
      RenderHead(t1, t2, suffixes);
      SeparatingTail(suffixes);
      NumeralsTail(t1);
      NumeralsTail(t2);
      RenderInjective(t1[1..], t2[1..], suffixes[1..]);
      forall i | 0 < i < |suffixes|
        ensures t1[i] == t2[i]
      {
        assert t1[1..][i - 1] == t1[i] && t2[1..][i - 1] == t2[i];
      }
    }
  }

  /** Printed numbers are numerals. */
  lemma PrintedNumerals(values: seq<int>)
    ensures AllNumerals(Printed(values))
  {
    forall i | 0 <= i < |values|
      ensures IsNumeral(Printed(values)[i])
    {
      IntToStringIsNumeral(values[i]);
    }
  }

  /** In every mode, each suffix but the last starts with a separator character. */
  lemma SuffixesSeparate(mode: U8)
    ensures Separating(Suffixes(mode))
  {
    var s := Suffixes(mode);
    forall i | 0 <= i < |s| - 1
      ensures Separates(s[i])
    {
      if mode == 1 || mode == 2 || mode == 3 {
        assert s[i][0] in {'/', ' ', ':', 'h', 'm', 's', '.'};
      } else if mode == 10 || mode == 11 || mode == 12 {
        assert s[i][0] in {'\U{5E74}', '\U{6708}', '\U{65E5}', '\U{65F6}', '\U{5206}', '\U{79D2}', '\U{6BEB}'};
      } else if mode == 255 {
        assert s[i][0] in {'Y', 'M', 'D', 'h', 'm', 's', 'u'};
      } else {
        assert s[i][0] in {'/', ' ', ':'};
      }
    }
  }

  /** In every mode, two equal texts show the same numbers: the text can be read back. */
  lemma FormatInjective(tm1: Tm, sub1: SubSecond, tm2: Tm, sub2: SubSecond, mode: U8)
    requires Format(tm1, sub1, mode) == Format(tm2, sub2, mode)
    ensures Fields(tm1, sub1)[..|Suffixes(mode)|] == Fields(tm2, sub2)[..|Suffixes(mode)|]
  {
    var s := Suffixes(mode);
    var k := |s|;
    var f1, f2 := Fields(tm1, sub1), Fields(tm2, sub2);
    SuffixesSeparate(mode);
    PrintedNumerals(f1);
    PrintedNumerals(f2);
    RenderInjective(Printed(f1), Printed(f2), s);
    forall i | 0 <= i < k
      ensures f1[i] == f2[i]
    {
      IntToStringInjective(f1[i], f2[i]);
    }
  }

  /** Mode 255 prints every field, so its text determines the broken-down time and the sub-second digits. */
  lemma FullModeDeterminesTime(tm1: Tm, sub1: SubSecond, tm2: Tm, sub2: SubSecond)
    requires Format(tm1, sub1, 255) == Format(tm2, sub2, 255)
    ensures tm1 == tm2 && sub1 == sub2
  {
    FormatInjective(tm1, sub1, tm2, sub2, 255);
    var f1, f2 := Fields(tm1, sub1), Fields(tm2, sub2);
    assert f1[..9] == f1 && f2[..9] == f2;
    assert f1[0] == f2[0] && f1[1] == f2[1];
  }
}

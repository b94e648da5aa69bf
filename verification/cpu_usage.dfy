/** The tray's system probes (cpu_usage.c): CPU busy and iowait fractions from
    the counters of the kernel's CPU statistics line, the current clock frequency
    with its observed range, the temperature, and the memory summary. Each probe
    keeps state between calls; the values its files yield are inputs here. */
module CpuUsage {
  import opened Wrappers
  import opened Machine

  // ---------------------------------------------------------------- busy and iowait fractions

  /** The first statistics line as scanned: `count` conversions of up to seven
      counters. Counters past `count` among the last three stay at their 0 start. */
  datatype StatCounters = StatCounters(count: nat, user: uint64, nice: uint64, system: uint64, idle: uint64,
                                       iowait: uint64, irq: uint64, softirq: uint64)

  function IowaitOf(c: StatCounters): uint64 { if c.count > 4 then c.iowait else 0 }
  function IrqOf(c: StatCounters): uint64 { if c.count > 5 then c.irq else 0 }
  function SoftirqOf(c: StatCounters): uint64 { if c.count > 6 then c.softirq else 0 }

  /** Busy time: user, nice, system, irq and softirq, summed in 64 bits. */
  function Busy(c: StatCounters): (b: uint64)
    ensures (b - (c.user + c.nice + c.system + IrqOf(c) + SoftirqOf(c))) % UINT64_LIMIT == 0
  {
    Wrap64(c.user + c.nice + c.system + IrqOf(c) + SoftirqOf(c))
  }

  /** Total time: busy plus idle plus iowait, summed in 64 bits. */
  function Total(c: StatCounters): (t: uint64)
    ensures (t - (Busy(c) + c.idle + IowaitOf(c))) % UINT64_LIMIT == 0
  {
    Wrap64(Busy(c) + c.idle + IowaitOf(c))
  }

  /** The counters kept between calls. */
  datatype CpuPrev = CpuPrev(busy: uint64, iowait: uint64, total: uint64)

  const INITIAL_PREV: CpuPrev := CpuPrev(0, 0, 0)

  datatype CpuFractions = CpuFractions(usage: int32, iowait: int32)

  /** Fewer than four counters, or an unreadable file, ends the program; a zero
      total delta with a grown counter is a division by zero. */
  datatype CpuError = StatUnreadable | DivisionByZero

  /** One fraction: `scale` times the counter's growth over the total's growth,
      all in unsigned 64-bit arithmetic, stored into an `int`; 0 when the counter
      did not grow. */
  function Fraction(scale: int32, cur: uint64, prev: uint64, dt: uint64): (r: Result<int32, CpuError>)
    ensures cur <= prev ==> r == Success(0)
    ensures cur > prev && dt == 0 ==> r == Failure(DivisionByZero)
    ensures cur > prev && dt != 0 ==>
      r.Success? && (r.value - Wrap64(Wrap64(scale) * (cur - prev)) / dt) % UINT32_LIMIT == 0
  {
    if cur <= prev then Success(0)
    else if dt == 0 then Failure(DivisionByZero)
    else Success(ToInt32(Wrap64(Wrap64(scale) * (cur - prev)) / dt))
  }

  /** `cpu_usage`: both fractions of this interval, and the counters of this call
      become the previous ones. */
  function SampleCpu(prev: CpuPrev, c: StatCounters, scale: int32): (r: Result<(CpuFractions, CpuPrev), CpuError>)
    ensures c.count < 4 ==> r == Failure(StatUnreadable)
    ensures r.Success? ==> r.value.1 == CpuPrev(Busy(c), IowaitOf(c), Total(c))
    ensures r.Success? ==> Success(r.value.0.usage) == Fraction(scale, Busy(c), prev.busy, Wrap64(Total(c) - prev.total))
    ensures r.Success? ==> Success(r.value.0.iowait) == Fraction(scale, IowaitOf(c), prev.iowait, Wrap64(Total(c) - prev.total))
    ensures c.count >= 4 && r.Failure? ==> r.error == DivisionByZero
    ensures r.Success? <==>
      && c.count >= 4
      && Fraction(scale, Busy(c), prev.busy, Wrap64(Total(c) - prev.total)).Success?
      && Fraction(scale, IowaitOf(c), prev.iowait, Wrap64(Total(c) - prev.total)).Success?
  {
    if c.count < 4 then Failure(StatUnreadable)
    else
      var dt := Wrap64(Total(c) - prev.total);
      match Fraction(scale, Busy(c), prev.busy, dt)
      case Failure(e) => Failure(e)
      case Success(u) =>
        match Fraction(scale, IowaitOf(c), prev.iowait, dt)
        case Failure(e) => Failure(e)
        case Success(w) => Success((CpuFractions(u, w), CpuPrev(Busy(c), IowaitOf(c), Total(c))))
  }

  /** `s * a / b` lies in `[0, s]` when `a` is at most `b`, and brackets `s * a`. */
  lemma ScaledFraction(s: nat, a: nat, b: nat)
    requires a <= b && 0 < b
    ensures 0 <= s * a / b <= s
    ensures (s * a / b) * b <= s * a < (s * a / b + 1) * b
  {
    var n := s * a;
    var q := n / b;
    assert n == q * b + n % b && 0 <= n % b < b;
    assert (q + 1) * b == q * b + b;
    MulLeMono(s, a, b);
    assert (s + 1) * b == s * b + b;
    MulLtCancel(q, s + 1, b);
  }

  /** A fraction with no wrap-around is the plain scaled quotient. */
  lemma FractionWithoutWrap(scale: int32, cur: uint64, prev: uint64, dt: uint64)
    requires 0 <= scale && prev < cur && cur - prev <= dt
    requires scale * dt < UINT64_LIMIT
    ensures Fraction(scale, cur, prev, dt) == Success(scale * (cur - prev) / dt)
    ensures 0 <= scale * (cur - prev) / dt <= scale
    ensures (scale * (cur - prev) / dt) * dt <= scale * (cur - prev) < (scale * (cur - prev) / dt + 1) * dt
  {
    var d := cur - prev;
    ScaledFraction(scale, d, dt);
    MulLeMono(scale, d, dt);
    assert Wrap64(scale) == scale;
    assert Wrap64(scale * d) == scale * d;
    assert ToInt32(scale * d / dt) == scale * d / dt;
  }

  /** Without wrap-around, with every counter grown and the scaled busy time
      small enough, the busy fraction is `scale` times the busy share of the
      elapsed time, rounded down, so it lies in `[0, scale]`. */
  lemma UsageIsShareOfScale(prev: CpuPrev, c: StatCounters, scale: int32)
    requires c.count >= 4 && scale >= 0
    requires c.user + c.nice + c.system + IrqOf(c) + SoftirqOf(c) < UINT64_LIMIT
    requires c.user + c.nice + c.system + IrqOf(c) + SoftirqOf(c) + c.idle + IowaitOf(c) < UINT64_LIMIT
    requires prev.busy < Busy(c) && prev.total < Total(c)
    requires Busy(c) - prev.busy <= Total(c) - prev.total
    requires scale * (Total(c) - prev.total) < UINT64_LIMIT
    ensures var r := SampleCpu(prev, c, scale);
      && r.Success?
      && var db, dt := Busy(c) - prev.busy, Total(c) - prev.total;
      && r.value.0.usage == scale * db / dt
      && 0 <= r.value.0.usage <= scale
      && r.value.0.usage * dt <= scale * db < (r.value.0.usage + 1) * dt
  {
    var dt := Total(c) - prev.total;
    assert Wrap64(Total(c) - prev.total) == dt;
    FractionWithoutWrap(scale, Busy(c), prev.busy, dt);
    if IowaitOf(c) > prev.iowait {
      assert Fraction(scale, IowaitOf(c), prev.iowait, dt).Success?;
    }
  }

  /** The counters of a call are the baseline of the next: two calls on the same
      counters give a zero usage the second time. */
  lemma SameCountersGiveZero(prev: CpuPrev, c: StatCounters, scale: int32)
    requires SampleCpu(prev, c, scale).Success?
    ensures var r := SampleCpu(prev, c, scale);
      SampleCpu(r.value.1, c, scale) == Success((CpuFractions(0, 0), r.value.1))
  {
  }

  // ---------------------------------------------------------------- frequency

  /** The frequencies in MHz kept between calls (`cur < 0` once reading failed),
      and whether the current-frequency file is open. */
  datatype FreqState = FreqState(min: int32, cur: int32, max: int32, fileOpen: bool)

  const INITIAL_FREQ: FreqState := FreqState(0, 0, 0, false)

  /** What `fscanf(fp, "%d")` on a range file gave: a number, no match, end of
      input (which is nonzero, so the untouched variable is returned), or no file. */
  datatype IntRead = IntOk(v: int32) | IntNoMatch | IntEof(garbage: int32) | IntNoFile

  /** `file_read_int`: the number read, or `onError`, except that end of input
      returns whatever the local variable held. */
  function FileReadInt(r: IntRead, onError: int32): (v: int32)
    ensures r.IntOk? ==> v == r.v
    ensures r.IntNoMatch? || r.IntNoFile? ==> v == onError
    ensures r.IntEof? ==> v == r.garbage
  {
    match r
    case IntOk(v) => v
    case IntEof(g) => g
    case _ => onError
  }

  /** One call's inputs: whether the current-frequency file opens (when it is not
      open yet), the kHz value `%u` reads from it, and the two range files. */
  datatype FreqInput = FreqInput(opens: bool, reading: Option<uint32>, minFile: IntRead, maxFile: IntRead)

  /** kHz to MHz with C's truncating `/ 1000`. */
  function ToMhz(khz: int32): (mhz: int32)
    ensures khz >= 0 ==> 0 <= mhz && (mhz as int) * 1000 <= khz < (mhz as int) * 1000 + 1000
    ensures khz < 0 ==> mhz <= 0 && -((mhz as int) * 1000) <= -(khz as int) < -((mhz as int) * 1000) + 1000
  {
    DivT(khz, 1000)
  }

  /** `cpu_freq`: gives up for good once the current frequency is negative; a
      failed open or read sets it to -1 and returns 0. Otherwise the reading in
      MHz is returned; the first time (while `max` is 0) the range comes from the
      range files, falling back to the reading itself, and afterwards the range
      only widens to take in each reading. */
  function CpuFreq(st: FreqState, input: FreqInput): (r: (int32, FreqState))
    ensures st.cur < 0 ==> r == (0, st)
    ensures st.cur >= 0 && (!(st.fileOpen || input.opens) || input.reading.None?) ==>
      r.0 == 0 && r.1.cur == -1 && r.1.min == st.min && r.1.max == st.max
    ensures st.cur >= 0 && (st.fileOpen || input.opens) && input.reading.Some? ==>
      && r.0 == r.1.cur == ToMhz(ToInt32(input.reading.value))
      && r.1.fileOpen
    ensures st.cur >= 0 && (st.fileOpen || input.opens) && input.reading.Some? && st.max != 0 ==>
      && r.1.min <= r.0 <= r.1.max
      && r.1.min <= st.min && st.max <= r.1.max
      && (r.1.min == st.min || r.1.min == r.0)
      && (r.1.max == st.max || r.1.max == r.0)
    ensures st.cur >= 0 && (st.fileOpen || input.opens) && input.reading.Some? && st.max == 0 ==>
      var k := ToInt32(input.reading.value);
      r.1.min == ToMhz(FileReadInt(input.minFile, k)) && r.1.max == ToMhz(FileReadInt(input.maxFile, k))
  {
    if st.cur < 0 then (0, st)
    else if !(st.fileOpen || input.opens) then (0, st.(cur := -1))
    else match input.reading
      case None => (0, st.(cur := -1, fileOpen := false))
      case Some(raw) =>
        var k := ToInt32(raw);
        var cur := ToMhz(k);
        if st.max != 0 then
          var lo := if cur < st.min then cur else st.min;
          var hi := if cur > st.max then cur else st.max;
          (cur, FreqState(lo, cur, hi, true))
        else
          (cur, FreqState(ToMhz(FileReadInt(input.minFile, k)), cur, ToMhz(FileReadInt(input.maxFile, k)), true))
  }

  /** A failed read is never retried: every later call returns 0 and changes nothing. */
  lemma FreqFailureLatches(st: FreqState, input: FreqInput, later: FreqInput)
    requires st.cur >= 0 && input.reading.None?
    ensures var st' := CpuFreq(st, input).1;
      CpuFreq(st', later) == (0, st')
  {
  }

  /** On the first successful read, an unreadable range file makes that end of
      the range the reading itself. */
  lemma RangeFallsBackToReading(input: FreqInput)
    requires input.opens && input.reading.Some?
    requires input.minFile.IntNoFile? && input.maxFile.IntNoFile?
    ensures var (f, st) := CpuFreq(INITIAL_FREQ, input);
      st.min == f == st.max
  {
  }

  // ---------------------------------------------------------------- temperature

  /** The scan format: the ACPI text "temperature: %d C" until it fails to match
      on the first read, then a bare integer. */
  datatype TempFormat = AcpiText | PlainInt

  datatype TempState = TempState(unavailable: bool, fileOpen: bool, format: TempFormat)

  const INITIAL_TEMP: TempState := TempState(false, false, AcpiText)

  /** One call's inputs: whether one of the candidate files opens (when none is
      open yet), whether the ACPI format matched that file, and the value read
      with the format in force after the rewind. */
  datatype TempInput = TempInput(opens: bool, acpiMatches: bool, reading: Option<int32>)

  /** Values above 1000 are millidegrees and are rounded to whole degrees. */
  function Degrees(t: int32): (d: int32)
    ensures t <= 1000 ==> d == t
    ensures t > 1000 ==> 0 < d && d * 1000 - 500 <= t < d * 1000 + 500
  {
    if t > 1000 then DivT(t + 500, 1000) else t
  }

  /** `cpu_temperature`: 0 forever once unavailable; no candidate file, or a read
      that does not match, makes it unavailable. */
  function CpuTemperature(st: TempState, input: TempInput): (r: (int32, TempState))
    ensures st.unavailable ==> r == (0, st)
    ensures !st.unavailable && !st.fileOpen && !input.opens ==> r.0 == 0 && r.1.unavailable
    ensures !st.unavailable && (st.fileOpen || input.opens) ==>
      && r.1.fileOpen
      && (input.reading.Some? ==> r.0 == Degrees(input.reading.value) && !r.1.unavailable)
      && (input.reading.None? ==> r.0 == 0 && r.1.unavailable)
    ensures !st.unavailable && !st.fileOpen && input.opens ==>
      r.1.format == (if input.acpiMatches then st.format else PlainInt)
    ensures st.fileOpen ==> r.1.format == st.format
  {
    if st.unavailable then (0, st)
    else if !st.fileOpen && !input.opens then (0, st.(unavailable := true))
    else
      var format := if !st.fileOpen && !input.acpiMatches then PlainInt else st.format;
      var held := st.(fileOpen := true, format := format);
      match input.reading
      case Some(t) => (Degrees(t), held)
      case None => (0, held.(unavailable := true))
  }

  /** Once unavailable, later calls return 0 without looking at any file. */
  lemma TemperatureLatches(st: TempState, input: TempInput, later: TempInput)
    requires !st.unavailable && input.reading.None?
    ensures var st' := CpuTemperature(st, input).1;
      CpuTemperature(st', later) == (0, st')
  {
  }

  // ---------------------------------------------------------------- memory

  datatype MemInfo = MemInfo(totalMb: int32, freeMb: int32, availableMb: int32)

  datatype MemState = MemState(unavailable: bool, fileOpen: bool, info: MemInfo)

  const INITIAL_MEM: MemState := MemState(false, false, MemInfo(0, 0, 0))

  /** One call's inputs: whether the file opens (when not yet open), the
      MemTotal/MemFree pair in kB if both lines matched, and MemAvailable if present. */
  datatype MemInput = MemInput(opens: bool, totalFree: Option<(int32, int32)>, available: Option<int32>)

  /** kB to MB with an arithmetic shift right by 10 (a floor division). */
  function KbToMb(kb: int32): (mb: int32)
    ensures mb * 1024 <= kb < mb * 1024 + 1024
  {
    kb / 1024
  }

  /** `mem_info`: the cached summary once unavailable; a failed open or scan makes
      it unavailable and returns the cached summary unchanged; otherwise the three
      sizes in MB, with Available falling back to Free. */
  function ReadMemInfo(st: MemState, input: MemInput): (r: (MemInfo, MemState))
    ensures r.0 == r.1.info
    ensures st.unavailable ==> r == (st.info, st)
    ensures !st.unavailable && ((st.fileOpen || input.opens) && input.totalFree.Some?) ==>
      && !r.1.unavailable
      && r.0.totalMb == KbToMb(input.totalFree.value.0)
      && r.0.freeMb == KbToMb(input.totalFree.value.1)
      && r.0.availableMb == (if input.available.Some? then KbToMb(input.available.value) else r.0.freeMb)
    ensures !st.unavailable && !((st.fileOpen || input.opens) && input.totalFree.Some?) ==>
      r.1.unavailable && r.0 == st.info
  {
    if st.unavailable then (st.info, st)
    else if (st.fileOpen || input.opens) && input.totalFree.Some? then
      var (total, free) := input.totalFree.value;
      var freeMb := KbToMb(free);
      var info := MemInfo(KbToMb(total), freeMb,
                          if input.available.Some? then KbToMb(input.available.value) else freeMb);
      (info, MemState(false, true, info))
    else (st.info, st.(unavailable := true, fileOpen := st.fileOpen || input.opens))
  }

  /** After a failure the summary is frozen: every later call returns the same one. */
  lemma MemInfoLatches(st: MemState, input: MemInput, later: MemInput)
    requires !st.unavailable
    requires !((st.fileOpen || input.opens) && input.totalFree.Some?)
    ensures var (m, st') := ReadMemInfo(st, input);
      ReadMemInfo(st', later) == (m, st')
  {
  }
}

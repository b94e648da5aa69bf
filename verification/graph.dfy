/** The tray icon's history graph (gatotray.c): the per-tick ageing that blends
    every column with its newer neighbour using a fixed-point persistence, the
    fresh sample written at the head, history growth on resize, and the indices
    into the colour gradients that the drawing uses. */
module TrayGraph {
  import opened Wrappers
  import opened Machine
  import opened CpuUsage

  /** Fixed-point one (10 bits) and the constants of the persistence curve
      `P = A - B*ONE/(x+C)`. */
  const ONE: int := 1024
  const C: int := ONE / 4
  const A: int := C + ONE
  const B: int := A * C / ONE

  /** The scale of the CPU fractions and of the normalised frequency. */
  const SCALE: int := 0x10_0000

  /** One column of the graph. */
  datatype Status = Status(usage: int, iowait: int, freq: int, temp: int)

  /** The position of column `i` of `n` on the fixed-point time axis. */
  function Position(i: nat, n: nat): (x: int)
    requires i < n
    ensures 0 <= x < ONE
  {
    ONE * i / n
  }

  /** The persistence of a column at position `x`. */
  function Persistence(x: int): int
    requires 0 <= x
  {
    A - B * ONE / (x + C)
  }

  /** Dividing by a larger positive number never gives more. */
  lemma DivAntitone(a: nat, d1: int, d2: int)
    requires 0 < d1 <= d2
    ensures a / d2 <= a / d1
  {
    var q, q1 := a / d2, a / d1;
    MulLeMono(q, d1, d2);
    assert q * d2 <= a;
    assert a < (q1 + 1) * d1 by {
      assert a == q1 * d1 + a % d1;
      assert (q1 + 1) * d1 == q1 * d1 + d1;
    }
    MulLtCancel(q, q1 + 1, d1);
  }

  /** Persistence grows (weakly) with the distance from the newest column. */
  lemma PersistenceMonotone(x: int, y: int)
    requires 0 <= x <= y
    ensures Persistence(x) <= Persistence(y)
  {
    DivAntitone(B * ONE, x + C, y + C);
  }

  /** The newest point has persistence 0 and every position of the axis has a
      persistence in `[0, ONE]`. */
  lemma PersistenceRange(x: int)
    requires 0 <= x < ONE
    ensures Persistence(0) == 0
    ensures 0 <= Persistence(x) <= ONE
  {
    assert B * ONE == 327680;
    assert Persistence(0) == 1280 - 327680 / 256 == 0;
    assert Persistence(ONE - 1) == 1280 - 327680 / 1279 == ONE;
    PersistenceMonotone(0, x);
    PersistenceMonotone(x, ONE - 1);
  }

  /** `blend(dst, src)`: the weighted mean `(P*dst + (ONE-P)*src) / ONE` with C's
      truncating division. */
  function Blend(p: int, dst: int, src: int): (r: int)
    requires 0 <= p <= ONE
    ensures p == ONE ==> r == dst
    ensures p == 0 ==> r == src
    ensures dst <= src ==> dst <= r <= src
    ensures src <= dst ==> src <= r <= dst
  {
    var n := p * dst + (ONE - p) * src;
    WeightedBetween(p, dst, src);
    TruncateBetween(n, if dst <= src then dst else src, if dst <= src then src else dst);
    DivT(n, ONE)
  }

  lemma WeightedBetween(p: int, dst: int, src: int)
    requires 0 <= p <= ONE
    ensures dst <= src ==> ONE * dst <= p * dst + (ONE - p) * src <= ONE * src
    ensures src <= dst ==> ONE * src <= p * dst + (ONE - p) * src <= ONE * dst
  {
    var n := p * dst + (ONE - p) * src;
    assert n - ONE * dst == (ONE - p) * (src - dst);
    assert ONE * src - n == p * (src - dst);
    if dst <= src {
      MulLeMono(ONE - p, dst, src);
      MulLeMono(p, dst, src);
    } else {
      MulLeMono(ONE - p, src, dst);
      MulLeMono(p, src, dst);
    }
  }

  /** Truncating `n / ONE` stays within integer bounds that `n / ONE` lies within. */
  lemma TruncateBetween(n: int, lo: int, hi: int)
    requires ONE * lo <= n <= ONE * hi
    ensures lo <= DivT(n, ONE) <= hi
  {
    if n >= 0 {
      assert n / ONE <= hi;
      assert lo <= n / ONE;
    } else {
      var m := -n;
      assert -ONE * hi <= m <= -ONE * lo;
      assert -hi <= m / ONE <= -lo;
    }
  }

  /** A column blended with its newer neighbour, field by field. */
  function BlendStatus(p: int, dst: Status, src: Status): (r: Status)
    requires 0 <= p <= ONE
    ensures r.usage == Blend(p, dst.usage, src.usage) && r.iowait == Blend(p, dst.iowait, src.iowait)
    ensures r.freq == Blend(p, dst.freq, src.freq) && r.temp == Blend(p, dst.temp, src.temp)
  {
    Status(Blend(p, dst.usage, src.usage), Blend(p, dst.iowait, src.iowait),
           Blend(p, dst.freq, src.freq), Blend(p, dst.temp, src.temp))
  }

  /** The value column `i` takes in one ageing pass. */
  function Aged(h: seq<Status>, i: nat): Status
    requires 0 < i < |h|
  {
    var x := Position(i, |h|);
    PersistenceRange(x);
    BlendStatus(Persistence(x), h[i], h[i - 1])
  }

  /** The ageing loop of `timeout_cb`: columns from the oldest down to 1, each
      blended with the value its newer neighbour had BEFORE the pass, since the
      neighbour is only updated afterwards; column 0 is left alone. */
  method AgeHistory(h: seq<Status>) returns (h': seq<Status>)
    ensures |h'| == |h|
    ensures 0 < |h| ==> h'[0] == h[0]
    ensures forall i :: 0 < i < |h| ==> h'[i] == Aged(h, i)
  {
    h' := h;
    var i := |h| - 1;
    while i > 0
      invariant 0 <= i < |h| || (i == -1 && |h| == 0)
      invariant |h'| == |h|
      invariant forall j :: 0 <= j <= i ==> h'[j] == h[j]
      invariant forall j :: i < j < |h| ==> h'[j] == Aged(h, j)
    {
      var x := Position(i, |h|);
      PersistenceRange(x);
      h' := h'[i := BlendStatus(Persistence(x), h'[i], h'[i - 1])];
      i := i - 1;
    }
  }

  /** Values in `[lo, hi]` stay there through an ageing pass. */
  predicate AllWithin(h: seq<Status>, lo: int, hi: int) {
    forall i :: 0 <= i < |h| ==>
      && lo <= h[i].usage <= hi && lo <= h[i].iowait <= hi
      && lo <= h[i].freq <= hi && lo <= h[i].temp <= hi
  }

  lemma AgeingKeepsBounds(h: seq<Status>, lo: int, hi: int, i: nat)
    requires AllWithin(h, lo, hi) && 0 < i < |h|
    ensures AllWithin([Aged(h, i)], lo, hi)
  {
  }

  /** The blend is computed in a 32-bit `int`: for values in `[0, SCALE]`, the
      range every graph quantity is normalised to, neither product nor their sum
      exceeds `INT32_MAX`, so the unbounded `Blend` is exact. */
  lemma BlendFitsInt(p: int, dst: int, src: int)
    requires 0 <= p <= ONE && 0 <= dst <= SCALE && 0 <= src <= SCALE
    ensures 0 <= p * dst <= ONE * SCALE && 0 <= (ONE - p) * src <= ONE * SCALE
    ensures p * dst + (ONE - p) * src <= ONE * SCALE < 0x8000_0000
  {
    MulLeMono(p, 0, dst);
    MulLeMono(ONE - p, 0, src);
    MulLeMono(p, dst, SCALE);
    MulLeMono(ONE - p, src, SCALE);
    assert p * SCALE + (ONE - p) * SCALE == ONE * SCALE;
    MulLeMono(p, SCALE, SCALE);
    MulLeMono(SCALE, p, ONE);
  }

  // ---------------------------------------------------------------- the new head

  /** The frequency as the code normalises it: `(freq - min) * SCALE` computed in
      a 32-bit `int` (wrapping, as the compiler does), divided by `max - min`. The
      division traps on a zero divisor, and also on `INT_MIN / -1`, whose quotient
      does not fit in an `int`; both are `None`. */
  function NormalizeFreqAsWritten(freq: int32, min: int32, max: int32): (r: Option<int32>)
    ensures max as int - min as int == 0 ==> r.None?
    ensures r.None? <==>
      || ToInt32(max as int - min as int) == 0
      || (ToInt32(max as int - min as int) == -1 && ToInt32(ToInt32(freq as int - min as int) * SCALE) == INT32_MIN)
  {
    var range := ToInt32(max as int - min as int);
    var product := ToInt32(ToInt32(freq as int - min as int) * SCALE);
    if range == 0 || (range == -1 && product == INT32_MIN) then None
    else Some(ToInt32(DivT(product, range)))
  }

  /** When nothing overflows, the normalisation as written is the intended one. */
  lemma NormalizeAsWrittenWithoutOverflow(freq: int32, min: int32, max: int32)
    requires min < max && max as int - min as int <= INT32_MAX
    requires min <= freq && (freq as int - min as int) * SCALE <= INT32_MAX
    ensures NormalizeFreqAsWritten(freq, min, max) == Some(NormalizeFreq(freq as int, min as int, max as int))
  {
    var range := max as int - min as int;
    var d := freq as int - min as int;
    var p := d * SCALE;
    assert ToInt32(d) == d by { MulLeMono(d, 1, SCALE); }
    var q := DivT(p, range);
    assert 0 <= q <= p by { QuotientBelow(p, range); }
    assert NormalizeFreqAsWritten(freq, min, max) == Some(q) by {
      assert ToInt32(range) == range;
      assert ToInt32(p) == p;
      assert ToInt32(q) == q;
    }
  }

  /** Truncating division by a positive divisor shrinks a non-negative number. */
  lemma QuotientBelow(p: int, b: int)
    requires 0 <= p && 0 < b
    ensures 0 <= DivT(p, b) <= p
  {
    MulLeMono(p / b, 1, b);
  }

  /** A range read back as 0..-1 (the range files are taken as read) with the clock
      2048 MHz above its bottom makes the product INT_MIN, and `INT_MIN / -1` traps. */
  lemma IntMinOverMinusOneTraps()
    ensures NormalizeFreqAsWritten(2048, 0, -1).None?
  {
    assert 2048 * SCALE == 0x8000_0000;
    assert ToInt32(0x8000_0000) == INT32_MIN;
  }

  /** A machine whose clock ranges from 800 to 3400 MHz and runs at 3000 MHz gets a
      negative frequency value, far outside `[0, SCALE]`. */
  lemma FreqNormalisationOverflows()
    ensures NormalizeFreqAsWritten(3000, 800, 3400) == Some(-764653)
  {
    assert 2200 * SCALE == 2306867200;
    assert ToInt32(2306867200) == -1988100096;
    assert DivT(-1988100096, 2600) == -(1988100096 / 2600) == -764653;
  }

  /** Without a frequency driver the probe returns 0 and the range stays `[0, 0]`:
      the normalisation divides by zero. */
  lemma FreqNormalisationWithoutDriver()
    ensures NormalizeFreqAsWritten(0, 0, 0).None?
  {
  }

  /** The normalisation as intended: the position of `freq` in `[min, max]` on the
      `[0, SCALE]` axis, computed without overflow, and 0 for an empty range. */
  function NormalizeFreq(freq: int, min: int, max: int): (r: int)
    ensures max <= min ==> r == 0
    ensures min < max && min <= freq <= max ==> 0 <= r <= SCALE
    ensures min < max && freq == min ==> r == 0
    ensures min < max && freq == max ==> r == SCALE
  {
    if max <= min then 0
    else
      NormalizedBounds(freq - min, max - min);
      DivT((freq - min) * SCALE, max - min)
  }

  lemma NormalizedBounds(a: int, b: int)
    requires 0 < b
    ensures 0 <= a <= b ==> 0 <= DivT(a * SCALE, b) <= SCALE
    ensures a == 0 ==> DivT(a * SCALE, b) == 0
    ensures a == b ==> DivT(a * SCALE, b) == SCALE
  {
    if 0 <= a <= b {
      ScaledUpper(a, b);
    }
    if a == b {
      MulDivExact(SCALE, b);
      assert a * SCALE == SCALE * b;
    }
  }

  lemma ScaledUpper(a: int, b: int)
    requires 0 <= a <= b && 0 < b
    ensures 0 <= a * SCALE / b <= SCALE
  {
    var q := a * SCALE / b;
    assert q * b <= a * SCALE;
    MulLeMono(SCALE, a, b);
    assert (SCALE + 1) * b == SCALE * b + b;
    MulLtCancel(q, SCALE + 1, b);
  }

  /** The state of the tray's sampling side between ticks. */
  datatype Probes = Probes(cpu: CpuPrev, freq: FreqState, temp: TempState, mem: MemState)

  datatype TickInput = TickInput(stat: StatCounters, freq: FreqInput, temp: TempInput, mem: MemInput)

  /** Why a tick ends the program: the CPU sample failed, or the frequency
      normalisation's division trapped. */
  datatype TickError = CpuFailed(cause: CpuError) | FreqDivisionTrap

  /** One tick of `timeout_cb` as written: age the graph, then write the fresh
      sample at column 0 (fractions, the frequency normalised in 32-bit
      arithmetic, temperature) and read the memory summary for the tooltip. A
      failed CPU sample ends the program, and so does a trapping frequency
      division; otherwise the tick succeeds. */
  method Tick(h: seq<Status>, probes: Probes, input: TickInput) returns (r: Result<(seq<Status>, Probes), TickError>)
    requires |h| > 0
    ensures var cpu := SampleCpu(probes.cpu, input.stat, SCALE);
      cpu.Failure? ==> r == Failure(CpuFailed(cpu.error))
    ensures var cpu := SampleCpu(probes.cpu, input.stat, SCALE);
      var (f, fs) := CpuFreq(probes.freq, input.freq);
      cpu.Success? && NormalizeFreqAsWritten(f, fs.min, fs.max).None? ==> r == Failure(FreqDivisionTrap)
    ensures var (f, fs) := CpuFreq(probes.freq, input.freq);
      r.Success? <==> SampleCpu(probes.cpu, input.stat, SCALE).Success? && NormalizeFreqAsWritten(f, fs.min, fs.max).Some?
    ensures r.Success? ==> |r.value.0| == |h|
    ensures r.Success? ==> forall i :: 0 < i < |h| ==> r.value.0[i] == Aged(h, i)
    ensures r.Success? ==>
      var cpu := SampleCpu(probes.cpu, input.stat, SCALE);
      var (f, fs) := CpuFreq(probes.freq, input.freq);
      && cpu.Success? && NormalizeFreqAsWritten(f, fs.min, fs.max).Some?
      && r.value.0[0] == Status(cpu.value.0.usage, cpu.value.0.iowait,
                                NormalizeFreqAsWritten(f, fs.min, fs.max).value,
                                CpuTemperature(probes.temp, input.temp).0)
    ensures r.Success? ==> r.value.1 == Probes(
      SampleCpu(probes.cpu, input.stat, SCALE).value.1, CpuFreq(probes.freq, input.freq).1,
      CpuTemperature(probes.temp, input.temp).1, ReadMemInfo(probes.mem, input.mem).1)
  {
    var aged := AgeHistory(h);
    var cpu := SampleCpu(probes.cpu, input.stat, SCALE);
    if cpu.Failure? {
      return Failure(CpuFailed(cpu.error));
    }
    var freq := CpuFreq(probes.freq, input.freq);
    var norm := NormalizeFreqAsWritten(freq.0, freq.1.min, freq.1.max);
    if norm.None? {
      return Failure(FreqDivisionTrap);
    }
    var temp := CpuTemperature(probes.temp, input.temp);
    var mem := ReadMemInfo(probes.mem, input.mem);
    var head := Status(cpu.value.0.usage, cpu.value.0.iowait, norm.value, temp.0);
    r := Success((aged[0 := head], Probes(cpu.value.1, freq.1, temp.1, mem.1)));
  }

  /** The tick with the frequency normalisation corrected: it fails exactly when
      the CPU sample does, and column 0 holds the frequency's position in its
      range on the `[0, SCALE]` axis. */
  method TickCorrected(h: seq<Status>, probes: Probes, input: TickInput) returns (r: Result<(seq<Status>, Probes), CpuError>)
    requires |h| > 0
    ensures SampleCpu(probes.cpu, input.stat, SCALE).Failure? <==> r.Failure?
    ensures r.Success? ==> |r.value.0| == |h|
    ensures r.Success? ==> forall i :: 0 < i < |h| ==> r.value.0[i] == Aged(h, i)
    ensures r.Success? ==> r.value.0[0] == Status(
      SampleCpu(probes.cpu, input.stat, SCALE).value.0.usage,
      SampleCpu(probes.cpu, input.stat, SCALE).value.0.iowait,
      NormalizeFreq(CpuFreq(probes.freq, input.freq).0,
                    CpuFreq(probes.freq, input.freq).1.min, CpuFreq(probes.freq, input.freq).1.max),
      CpuTemperature(probes.temp, input.temp).0)
    ensures r.Success? ==> r.value.1 == Probes(
      SampleCpu(probes.cpu, input.stat, SCALE).value.1, CpuFreq(probes.freq, input.freq).1,
      CpuTemperature(probes.temp, input.temp).1, ReadMemInfo(probes.mem, input.mem).1)
  {
    var aged := AgeHistory(h);
    var cpu := SampleCpu(probes.cpu, input.stat, SCALE);
    if cpu.Failure? {
      return Failure(cpu.error);
    }
    var freq := CpuFreq(probes.freq, input.freq);
    var temp := CpuTemperature(probes.temp, input.temp);
    var mem := ReadMemInfo(probes.mem, input.mem);
    var head := Status(cpu.value.0.usage, cpu.value.0.iowait, NormalizeFreq(freq.0, freq.1.min, freq.1.max), temp.0);
    r := Success((aged[0 := head], Probes(cpu.value.1, freq.1, temp.1, mem.1)));
  }

  /** The start-up sample of `main`: a one-column history holding the first CPU
      fractions (against an all-zero baseline), frequency 0 and the first
      temperature; the frequency and memory probes are still untouched. */
  function Start(stat: StatCounters, temp: TempInput): (r: Result<(seq<Status>, Probes), CpuError>)
    ensures SampleCpu(INITIAL_PREV, stat, SCALE).Failure? <==> r.Failure?
    ensures r.Success? ==>
      && |r.value.0| == 1
      && r.value.0[0].freq == 0
      && r.value.0[0].usage == SampleCpu(INITIAL_PREV, stat, SCALE).value.0.usage
      && r.value.0[0].iowait == SampleCpu(INITIAL_PREV, stat, SCALE).value.0.iowait
      && r.value.0[0].temp == CpuTemperature(INITIAL_TEMP, temp).0
      && r.value.1.freq == INITIAL_FREQ && r.value.1.mem == INITIAL_MEM
      && r.value.1.cpu == SampleCpu(INITIAL_PREV, stat, SCALE).value.1
      && r.value.1.temp == CpuTemperature(INITIAL_TEMP, temp).1
  {
    match SampleCpu(INITIAL_PREV, stat, SCALE)
    case Failure(e) => Failure(e)
    case Success((fractions, prev)) =>
      var (t, ts) := CpuTemperature(INITIAL_TEMP, temp);
      Success(([Status(fractions.usage, fractions.iowait, 0, t)], Probes(prev, INITIAL_FREQ, ts, INITIAL_MEM)))
  }

  // ---------------------------------------------------------------- resize and drawing

  /** `resize_cb`: a larger size grows the history by copies of its oldest column;
      a smaller one keeps it; the drawn width becomes the new size either way. */
  function Resize(h: seq<Status>, newSize: int): (r: (seq<Status>, int))
    requires |h| > 0
    ensures r.1 == newSize
    ensures |r.0| == if newSize > |h| then newSize else |h|
    ensures r.0[..|h|] == h
    ensures forall i :: |h| <= i < |r.0| ==> r.0[i] == h[|h| - 1]
    ensures r.1 <= |r.0|
  {
    if newSize > |h| then (h + seq(newSize - |h|, _ => h[|h| - 1]), newSize)
    else (h, newSize)
  }

  /** History is never lost: after any sequence of resizes every original column
      is still in place. */
  lemma {:induction false} ResizesKeepHistory(h: seq<Status>, sizes: seq<int>)
    requires |h| > 0
    ensures var r := ResizeAll(h, sizes); |h| <= |r| && r[..|h|] == h
    decreases |sizes|
  {
    if |sizes| > 0 {
      var h1 := Resize(h, sizes[0]).0;
      ResizesKeepHistory(h1, sizes[1..]);
      var r := ResizeAll(h, sizes);
      assert r[..|h|] == r[..|h1|][..|h|];
    }
  }

  function ResizeAll(h: seq<Status>, sizes: seq<int>): (r: seq<Status>)
    requires |h| > 0
    ensures |r| > 0
    decreases |sizes|
  {
    if |sizes| == 0 then h else ResizeAll(Resize(h, sizes[0]).0, sizes[1..])
  }

  /** The gradient index of a column's frequency, `unsigned shade = freq * 99 /
      SCALE`: the product in 32-bit `int`, C's truncating division, and the
      conversion to `unsigned`, so a negative frequency gives a huge index. */
  function Shade(freq: int32): (s: uint32)
    ensures 0 <= freq <= SCALE ==> s <= 99 && s == freq * 99 / SCALE
    ensures freq == SCALE ==> s == 99
    ensures freq < 0 && freq * 99 > -SCALE ==> s == 0
    ensures INT32_MIN <= freq * 99 <= -SCALE ==> UINT32_LIMIT - 0x800 <= s
  {
    var q := DivT(ToInt32(freq * 99), SCALE);
    assert 0 <= freq <= SCALE ==> freq * 99 <= SCALE * 99;
    assert INT32_MIN <= freq * 99 <= -SCALE ==> -0x800 <= q <= -1;
    Wrap32(q)
  }

  /** Within `[0, SCALE]` a higher frequency never gives a lower shade. */
  lemma ShadeMonotone(f1: int32, f2: int32)
    requires 0 <= f1 <= f2 <= SCALE
    ensures Shade(f1) <= Shade(f2)
  {
    MulLeMono(99, f1, f2);
  }

  /** The column the overflowing normalisation leaves behind indexes far past
      the 100-entry gradient. */
  lemma ShadeOfOverflowedFreq()
    ensures Shade(-764653) == 4294967224
  {
    assert -764653 * 99 == -75700647;
    assert DivT(-75700647, SCALE) == -72;
  }

  /** The thermometer: hidden when the temperature is 0 (unreadable) and on the
      even ticks of a temperature at or above the alarm (blinking); otherwise the
      gradient index `T - 5` clamped to `[0, 99]`. */
  function ThermometerLevel(t: int, alarm: int, timer: int): (r: Option<int>)
    ensures r.None? <==> t == 0 || (t >= alarm && timer % 2 == 0)
    ensures r.Some? ==> 0 <= r.value <= 99
    ensures r.Some? ==> r.value == (if t < 5 then 0 else if t > 104 then 99 else t - 5)
  {
    if t == 0 || (t >= alarm && timer % 2 == 0) then None
    else
      var level := DivT((t - 5) * 100, 100);
      Some(if level < 0 then 0 else if level > 99 then 99 else level)
  }

  /** A hotter reading never shows a lower thermometer. */
  lemma ThermometerMonotone(t1: int, t2: int, alarm: int, timer: int)
    requires t1 <= t2
    requires ThermometerLevel(t1, alarm, timer).Some? && ThermometerLevel(t2, alarm, timer).Some?
    ensures ThermometerLevel(t1, alarm, timer).value <= ThermometerLevel(t2, alarm, timer).value
  {
  }
}

/** The collector's in-memory process table (collector/collector.c): one record
    per pid, created on first sight and recomputed on every later sample, plus
    the sampling pass that feeds it from the entries of the process directory. */
module ProcessTable {
  import opened Wrappers
  import opened Machine
  import opened Text

  /** `comm` is a 256-byte array in the C struct, so at most 255 bytes and a NUL. */
  const COMM_MAX: nat := 255

  datatype ProcessRecord = ProcessRecord(
    pid: uint32,
    rssKb: uint32,
    utime: uint64,
    stime: uint64,
    prevUtime: uint64,
    prevStime: uint64,
    prevTotal: uint64,
    cpuPercent: real,
    comm: string)

  /** What one sampling pass read for one process: its pid, name and CPU ticks
      from the per-process stat record and its resident size from the status summary. */
  datatype ProcSample = ProcSample(pid: uint32, comm: string, utime: uint64, stime: uint64, rssKb: uint32)

  /** `strncpy` into the 256-byte `comm` field followed by a forced NUL. */
  function TruncateComm(s: string): (r: string)
    ensures |r| <= COMM_MAX
    ensures HasPrefix(s, r)
    ensures |s| <= COMM_MAX ==> r == s
    ensures |s| > COMM_MAX ==> |r| == COMM_MAX
  {
    if |s| <= COMM_MAX then s else s[..COMM_MAX]
  }

  /** No two records share a pid. */
  predicate PidUnique(table: seq<ProcessRecord>) {
    forall i, j :: 0 <= i < j < |table| ==> table[i].pid != table[j].pid
  }

  function Pids(table: seq<ProcessRecord>): set<uint32> {
    set i | 0 <= i < |table| :: table[i].pid
  }

  /** `find_process`: the position of the first record with this pid, if any. */
  function Find(table: seq<ProcessRecord>, pid: uint32): (r: Option<nat>)
    ensures r.Some? ==> r.value < |table| && table[r.value].pid == pid
    ensures r.Some? ==> forall j :: 0 <= j < r.value ==> table[j].pid != pid
    ensures r.None? <==> pid !in Pids(table)
    decreases |table|
  {
    if |table| == 0 then None
    else if table[0].pid == pid then Some(0)
    else
      match Find(table[1..], pid)
      case None =>
        assert Pids(table) == {table[0].pid} + Pids(table[1..]) by {
          assert forall i :: 0 < i < |table| ==> table[i] == table[1..][i - 1];
          assert forall i :: 0 <= i < |table| - 1 ==> table[1..][i] == table[i + 1];
        }
        None
      case Some(k) => Some(k + 1)
  }

  /** The CPU percentage of a known process: tick delta over system-total delta,
      both computed in wrapping 64-bit unsigned arithmetic; only the total delta
      is checked, and a zero total delta yields 0. */
  function CpuPercent(rec: ProcessRecord, s: ProcSample, total: uint64): (p: real)
    ensures p >= 0.0
    ensures Wrap64(total - rec.prevTotal) == 0 ==> p == 0.0
    ensures Wrap64(total - rec.prevTotal) > 0 ==>
      p * Wrap64(total - rec.prevTotal) as real ==
      100.0 * Wrap64(s.utime + s.stime - (rec.prevUtime + rec.prevStime)) as real
  {
    var deltaTime := Wrap64(s.utime + s.stime - (rec.prevUtime + rec.prevStime));
    var deltaTotal := Wrap64(total - rec.prevTotal);
    if deltaTotal > 0 then (100.0 * deltaTime as real) / deltaTotal as real else 0.0
  }

  /** The record a newly seen pid gets: the sample is its own baseline and its CPU% is 0. */
  function NewRecord(s: ProcSample, total: uint64): ProcessRecord {
    ProcessRecord(s.pid, s.rssKb, s.utime, s.stime, s.utime, s.stime, total, 0.0, TruncateComm(s.comm))
  }

  /** A known record after a new sample: CPU% from the deltas, then the new baseline. */
  function Resample(rec: ProcessRecord, s: ProcSample, total: uint64): ProcessRecord {
    rec.(cpuPercent := CpuPercent(rec, s, total),
         prevUtime := s.utime, prevStime := s.stime, prevTotal := total,
         utime := s.utime, stime := s.stime, rssKb := s.rssKb,
         comm := TruncateComm(s.comm))
  }

  /** `update_process`: an unknown pid is appended with a zero CPU% baseline; a
      known pid is recomputed in place; nothing else in the table changes. */
  function UpdateProcess(table: seq<ProcessRecord>, s: ProcSample, total: uint64): (t: seq<ProcessRecord>)
    ensures s.pid !in Pids(table) ==>
      && |t| == |table| + 1
      && t[..|table|] == table
      && t[|table|].pid == s.pid
      && t[|table|].cpuPercent == 0.0
      && t[|table|].prevUtime == s.utime && t[|table|].prevStime == s.stime
      && t[|table|].utime == s.utime && t[|table|].stime == s.stime
      && t[|table|].prevTotal == total
      && t[|table|].rssKb == s.rssKb
      && t[|table|].comm == TruncateComm(s.comm)
    ensures s.pid in Pids(table) ==>
      && |t| == |table|
      && exists i :: 0 <= i < |table| && table[i].pid == s.pid && t == table[i := Resample(table[i], s, total)]
           && forall j :: 0 <= j < i ==> table[j].pid != s.pid
    ensures Pids(t) == Pids(table) + {s.pid}
    ensures forall i :: 0 <= i < |table| ==> t[i].pid == table[i].pid
  {
    match Find(table, s.pid)
    case None =>
      var t := table + [NewRecord(s, total)];
      assert Pids(t) == Pids(table) + {s.pid} by {
        forall x | x in Pids(t) ensures x in Pids(table) + {s.pid} {
          var j :| 0 <= j < |t| && t[j].pid == x;
          if j < |table| { assert table[j].pid == x; }
        }
        forall x | x in Pids(table) ensures x in Pids(t) {
          var j :| 0 <= j < |table| && table[j].pid == x;
          assert t[j].pid == x;
        }
        assert t[|table|].pid == s.pid;
      }
      t
    case Some(i) =>
      var t := table[i := Resample(table[i], s, total)];
      assert Pids(t) == Pids(table) + {s.pid} by {
        forall x | x in Pids(t) ensures x in Pids(table) {
          var j :| 0 <= j < |t| && t[j].pid == x;
          assert table[j].pid == x;
        }
        forall x | x in Pids(table) ensures x in Pids(t) {
          var j :| 0 <= j < |table| && table[j].pid == x;
          assert t[j].pid == x;
        }
        assert table[i].pid in Pids(table);
      }
      t
  }

  /** Updating keeps pids unique. */
  lemma UpdateKeepsPidsUnique(table: seq<ProcessRecord>, s: ProcSample, total: uint64)
    requires PidUnique(table)
    ensures PidUnique(UpdateProcess(table, s, total))
  {
    var t := UpdateProcess(table, s, total);
    if s.pid !in Pids(table) {
      forall i, j | 0 <= i < j < |t| ensures t[i].pid != t[j].pid {
        if j == |table| {
          assert t[i].pid == table[i].pid;
          assert table[i].pid in Pids(table);
        }
      }
    }
  }

  /** With no wrap-around,
      CPU% is 100 times the tick delta over the system-total delta. */
  lemma CpuPercentWithoutWrap(rec: ProcessRecord, s: ProcSample, total: uint64)
    requires rec.prevTotal < total
    requires rec.prevUtime + rec.prevStime <= s.utime + s.stime < UINT64_LIMIT
    ensures CpuPercent(rec, s, total) * (total - rec.prevTotal) as real ==
            100.0 * ((s.utime + s.stime) - (rec.prevUtime + rec.prevStime)) as real
  {
  }

  /** Only the total delta is guarded: when a pid's ticks go backwards (the pid was
      reused by a younger process), the unsigned tick delta wraps around and the
      reported CPU% is enormous rather than 0. */
  lemma TickRegressionWraps(rec: ProcessRecord, s: ProcSample, total: uint64)
    requires rec.prevTotal < total
    requires s.utime + s.stime < rec.prevUtime + rec.prevStime < UINT64_LIMIT
    ensures CpuPercent(rec, s, total) * (total - rec.prevTotal) as real ==
            100.0 * (UINT64_LIMIT - ((rec.prevUtime + rec.prevStime) - (s.utime + s.stime))) as real
  {
    var d := s.utime + s.stime - (rec.prevUtime + rec.prevStime);
    assert 0 < d + UINT64_LIMIT < UINT64_LIMIT;
    assert Wrap64(d) == d + UINT64_LIMIT;
  }

  // ---------------------------------------------------------------- sampling pass

  /** The first line of the system statistics file: eight tick counters. */
  datatype CpuLine = CpuLine(user: uint64, nice: uint64, system: uint64, idle: uint64,
                             iowait: uint64, irq: uint64, softirq: uint64, steal: uint64)

  /** `read_total_jiffies`: the wrapping sum of the eight counters, or 0 when the
      file cannot be opened or does not hold eight counters. */
  function TotalJiffies(line: Option<CpuLine>): (t: uint64)
    ensures line.None? ==> t == 0
    ensures line.Some? ==> (t - (line.value.user + line.value.nice + line.value.system + line.value.idle
                               + line.value.iowait + line.value.irq + line.value.softirq + line.value.steal))
                           % UINT64_LIMIT == 0
  {
    match line
    case None => 0
    case Some(c) => Wrap64(c.user + c.nice + c.system + c.idle + c.iowait + c.irq + c.softirq + c.steal)
  }

  const ULONG_MAX: nat := UINT64_LIMIT - 1

  /** Where the digits `strtoul` reads begin: past leading whitespace and one
      optional `+` or `-`. */
  function DigitsStart(s: string): (d: nat)
    ensures d <= |s|
    ensures AllSpace(s[..LeadingSpaces(s)])
    ensures d == LeadingSpaces(s) || (d == LeadingSpaces(s) + 1 && (s[d - 1] == '+' || s[d - 1] == '-'))
  {
    var w := LeadingSpaces(s);
    if w < |s| && (s[w] == '+' || s[w] == '-') then w + 1 else w
  }

  /** `strtoul(s, &end, 10)` in the C library: the value and the offset `end`
      is left at. With no digits after the whitespace and sign nothing is
      consumed and the value is 0; a value above `ULONG_MAX` gives `ULONG_MAX`
      whatever the sign; otherwise a `-` negates the value modulo 2^64. */
  function Strtoul(s: string): (r: (uint64, nat))
    ensures r.1 <= |s|
    ensures r.1 == 0 ==> r.0 == 0
    ensures r.1 > 0 ==> var d := DigitsStart(s);
      && d < r.1 && AllDigits(s[d..r.1]) && (r.1 < |s| ==> !IsDigit(s[r.1]))
  {
    var d := DigitsStart(s);
    var digits := LeadingDigits(s[d..]);
    if |digits| == 0 then (0, 0)
    else
      assert s[d..][..|digits|] == s[d..d + |digits|];
      var v := DecimalValue(digits);
      var neg := d == LeadingSpaces(s) + 1 && s[d - 1] == '-';
      (if v > ULONG_MAX then ULONG_MAX else if neg then Sub64(0, v) else v, d + |digits|)
  }

  /** A name `strtoul` can consume whole: whitespace, an optional sign, then
      one or more decimal digits to the end. */
  predicate PidShaped(name: string) {
    var d := DigitsStart(name);
    d < |name| && AllDigits(name[d..])
  }

  /** The pid-name filter of `scan_processes`: a name is a pid when `strtoul`
      consumes all of it and yields a nonzero value, which is then cast to
      `unsigned int`. */
  function ParsePidName(name: string): (r: Option<uint32>)
    ensures r.Some? ==> PidShaped(name)
    ensures 0 < |name| && AllDigits(name) && 0 < DecimalValue(name) < UINT32_LIMIT ==>
              r == Some(DecimalValue(name))
    ensures 0 < |name| && AllDigits(name) && DecimalValue(name) == 0 ==> r.None?
  {
    var (v, end) := Strtoul(name);
    assert 0 < |name| && AllDigits(name) ==> DigitsStart(name) == 0 && LeadingDigits(name) == name by {
      if 0 < |name| && AllDigits(name) {
        assert !IsSpace(name[0]);
        LeadingDigitsOfDigits(name);
      }
    }
    if end == |name| && v != 0 then
      assert PidShaped(name) by {
        assert name[DigitsStart(name)..end] == name[DigitsStart(name)..];
      }
      Some(Wrap32(v))
    else
      None
  }

  /** Every pid the kernel lists is accepted back from its decimal directory name. */
  lemma PidNameRoundTrip(pid: uint32)
    requires pid != 0
    ensures ParsePidName(NatToDecimal(pid)) == Some(pid)
  {
    DecimalRoundTrip(pid);
  }

  /** A name holding a character that is neither whitespace, a sign nor a
      digit is never a pid. */
  lemma NonDigitNameRejected(name: string, i: nat)
    requires i < |name| && !IsDigit(name[i]) && !IsSpace(name[i]) && name[i] != '+' && name[i] != '-'
    ensures ParsePidName(name).None?
  {
    var d := DigitsStart(name);
    if i >= d && d < |name| {
      assert name[d..][i - d] == name[i];
      assert !PidShaped(name);
    }
  }

  /** The value of `strtoul` for whitespace, a sign and digits, consuming all. */
  function SignedValue(sign: string, ds: string): uint64
    requires AllDigits(ds)
  {
    var v := DecimalValue(ds);
    if v > ULONG_MAX then ULONG_MAX else if sign == "-" && v > 0 then UINT64_LIMIT - v else v
  }

  lemma SignedShape(sp: string, sign: string, ds: string)
    requires AllSpace(sp) && (sign == "" || sign == "+" || sign == "-")
    requires 0 < |ds| && AllDigits(ds)
    ensures var name := sp + sign + ds;
      && LeadingSpaces(name) == |sp|
      && DigitsStart(name) == |sp| + |sign|
      && name[|sp| + |sign|..] == ds
      && ((|sign| == 1 && name[|sp|] == '-') <==> sign == "-")
  {
    var name := sp + sign + ds;
    var c := if |sign| > 0 then sign[0] else ds[0];
    assert name[|sp|] == c by {
      assert name == sp + (sign + ds);
    }
    assert LeadingSpaces(name) == |sp| by {
      LeadingSpacesOf(sp, sign + ds);
      assert name == sp + (sign + ds);
    }
    assert name[|sp| + |sign|..] == ds;
  }

  lemma StrtoulSigned(sp: string, sign: string, ds: string)
    requires AllSpace(sp) && (sign == "" || sign == "+" || sign == "-")
    requires 0 < |ds| && AllDigits(ds)
    ensures Strtoul(sp + sign + ds) == (SignedValue(sign, ds), |sp + sign + ds|)
  {
    SignedShape(sp, sign, ds);
    LeadingDigitsOfDigits(ds);
  }

  /** Every name `strtoul` consumes whole, whitespace, sign and digits, and the
      pid it yields: the digits' value saturated at `ULONG_MAX`, negated modulo
      2^64 after a `-`, then cast to 32 bits; a zero result rejects the name. */
  lemma ParseSignedName(sp: string, sign: string, ds: string)
    requires AllSpace(sp) && (sign == "" || sign == "+" || sign == "-")
    requires 0 < |ds| && AllDigits(ds)
    ensures var u := SignedValue(sign, ds);
      ParsePidName(sp + sign + ds) == if u == 0 then None else Some(Wrap32(u))
  {
    StrtoulSigned(sp, sign, ds);
  }

  /** A negative name passes the filter with its 64-bit wrap-around cast to
      32 bits: "-5" is pid 4294967291. */
  lemma NegativePidNameWraps()
    ensures ParsePidName("-5") == Some(UINT32_LIMIT - 5)
  {
    assert SignedValue("-", "5") == UINT64_LIMIT - 5 by {
      assert "5"[..0] == "";
    }
    ParseSignedName("", "-", "5");
    assert "" + "-" + "5" == "-5";
    assert UINT64_LIMIT - 5 == 0xFFFF_FFFF * UINT32_LIMIT + (UINT32_LIMIT - 5);
    Wrap32Shift(0xFFFF_FFFF, UINT32_LIMIT - 5);
  }

  /** A trailing character rejects the name. */
  lemma TrailingSpaceRejected()
    ensures ParsePidName("5 ") == None
  {
    assert DigitsStart("5 ") == 0 && "5 "[0..] == "5 ";
    assert "5 "[1..] == " " && LeadingDigits(" ") == "";
  }

  /** The per-process stat record as parsed: name and user/system ticks. */
  datatype StatLine = StatLine(comm: string, utime: uint64, stime: uint64)

  /** One entry of the process directory and what reading its files gave:
      `None` where the file could not be opened or parsed (the process vanished). */
  datatype ProcEntry = ProcEntry(name: string, isDir: bool, stat: Option<StatLine>, vmRss: Option<Option<uint32>>)

  /** The sample an entry contributes, if any: directories only, pid names only,
      both files readable; a status summary without a `VmRSS:` line gives 0 kB. */
  function Accepted(e: ProcEntry): (r: Option<ProcSample>)
    ensures r.Some? <==> e.isDir && ParsePidName(e.name).Some? && e.stat.Some? && e.vmRss.Some?
    ensures r.Some? ==> r.value.pid == ParsePidName(e.name).value
  {
    if !e.isDir then None
    else match ParsePidName(e.name)
      case None => None
      case Some(pid) =>
        if e.stat.None? || e.vmRss.None? then None
        else Some(ProcSample(pid, e.stat.value.comm, e.stat.value.utime, e.stat.value.stime,
                             e.vmRss.value.GetOr(0)))
  }

  /** Feed every accepted entry to `UpdateProcess`, in directory order. */
  function UpdateAll(table: seq<ProcessRecord>, entries: seq<ProcEntry>, total: uint64): (t: seq<ProcessRecord>)
    ensures |table| <= |t|
    ensures forall i :: 0 <= i < |table| ==> t[i].pid == table[i].pid
    ensures Pids(t) == Pids(table) + set e | e in entries && Accepted(e).Some? :: Accepted(e).value.pid
    decreases |entries|
  {
    if |entries| == 0 then table
    else
      var e := entries[0];
      var next := match Accepted(e) case None => table case Some(s) => UpdateProcess(table, s, total);
      var t := UpdateAll(next, entries[1..], total);
      assert forall x :: x in entries <==> x == e || x in entries[1..];
      t
  }

  lemma {:induction false} UpdateAllKeepsPidsUnique(table: seq<ProcessRecord>, entries: seq<ProcEntry>, total: uint64)
    requires PidUnique(table)
    ensures PidUnique(UpdateAll(table, entries, total))
    decreases |entries|
  {
    if |entries| > 0 {
      match Accepted(entries[0])
      case None =>
        UpdateAllKeepsPidsUnique(table, entries[1..], total);
      case Some(s) =>
        UpdateKeepsPidsUnique(table, s, total);
        UpdateAllKeepsPidsUnique(UpdateProcess(table, s, total), entries[1..], total);
    }
  }

  /** `scan_processes`: a pass with an unreadable system total (0) or an
      unopenable process directory (`None`) changes nothing; otherwise every
      accepted entry updates the table and the total becomes the snapshot's
      total. Records of vanished pids are never removed. */
  function ScanProcesses(table: seq<ProcessRecord>, prevTotal: uint64, total: uint64, dir: Option<seq<ProcEntry>>)
    : (r: (seq<ProcessRecord>, uint64))
    ensures total == 0 || dir.None? ==> r == (table, prevTotal)
    ensures total != 0 && dir.Some? ==> r.1 == total && r.0 == UpdateAll(table, dir.value, total)
  {
    if total == 0 then (table, prevTotal)
    else match dir
      case None => (table, prevTotal)
      case Some(entries) => (UpdateAll(table, entries, total), total)
  }

  /** After a pass, the table holds every pid it held before plus every pid the
      pass accepted, still one record per pid. */
  lemma ScanTableContents(table: seq<ProcessRecord>, prevTotal: uint64, total: uint64, entries: seq<ProcEntry>)
    requires PidUnique(table)
    requires total != 0
    ensures var t := ScanProcesses(table, prevTotal, total, Some(entries)).0;
      && PidUnique(t)
      && Pids(t) == Pids(table) + set e | e in entries && Accepted(e).Some? :: Accepted(e).value.pid
  {
    UpdateAllKeepsPidsUnique(table, entries, total);
  }
}

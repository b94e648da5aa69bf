/** The tray's own process tracker (top_procs.c): a pid-ordered list refreshed
    from a scan of the process directory, each node's CPU usage recomputed from
    the growth of its CPU time over the growth of the system tick counter, and
    the heaviest memory and CPU consumers of the pass remembered. */
module TopProcs {
  import opened Wrappers
  import opened Machine
  import opened Text

  /** `comm` is a 32-byte array: at most 31 bytes and a NUL. */
  const COMM_CAP: nat := 31

  /** A C `double` as far as this code can produce one: the quotient of two
      tick counts (kept exact, as numerator and denominator), or the infinity or
      NaN that dividing by a zero tick delta gives. */
  datatype FloatVal = Quotient(num: nat, den: nat) | PosInf | NaN
  {
    /** The number a finite value stands for. */
    function Value(): real
      requires Quotient? && den > 0
    {
      num as real / den as real
    }
  }

  /** The usage a freshly scanned node starts with. */
  const ZERO_USAGE: FloatVal := Quotient(0, 1)

  /** One node of the list; the `next` link is the node's position in the sequence. */
  datatype ProcessInfo = ProcessInfo(pid: uint32, rss: uint32, cpuUsage: FloatVal,
                                     cpuTime: uint64, sampleTime: uint64, comm: string)

  /** The usage `ProcessInfo_update` computes: 0 for a different process, else
      100 times the wrapped CPU-time growth over the wrapped sample-time growth,
      which is infinite or NaN when no ticks elapsed. */
  function Usage(pi: ProcessInfo, u: ProcessInfo): (r: FloatVal)
    ensures pi.pid != u.pid ==> r == ZERO_USAGE
    ensures pi.pid == u.pid && u.sampleTime != pi.sampleTime ==> r.Quotient? && r.den > 0
    ensures pi.pid == u.pid && u.sampleTime == pi.sampleTime ==>
      r == (if u.cpuTime == pi.cpuTime then NaN else PosInf)
  {
    if pi.pid != u.pid then ZERO_USAGE
    else
      var dc := Sub64(u.cpuTime, pi.cpuTime);
      var ds := Sub64(u.sampleTime, pi.sampleTime);
      if ds == 0 then (if dc == 0 then NaN else PosInf)
      else Quotient(100 * dc, ds)
  }

  /** The usage is a rate: times the elapsed ticks it gives back 100 times the
      CPU ticks spent, both deltas taken modulo 2^64. */
  lemma UsageIsRate(pi: ProcessInfo, u: ProcessInfo)
    requires pi.pid == u.pid && u.sampleTime != pi.sampleTime
    ensures Usage(pi, u).Quotient? && Usage(pi, u).den > 0
    ensures Usage(pi, u).Value() * (Wrap64(u.sampleTime - pi.sampleTime) as real)
            == (100 * Wrap64(u.cpuTime - pi.cpuTime)) as real
  {
    Sub64IsWrap(u.cpuTime, pi.cpuTime);
    Sub64IsWrap(u.sampleTime, pi.sampleTime);
    var ds := Wrap64(u.sampleTime - pi.sampleTime);
    var n := (100 * Wrap64(u.cpuTime - pi.cpuTime)) as real;
    assert Usage(pi, u) == Quotient(100 * Wrap64(u.cpuTime - pi.cpuTime), ds);
    assert (n / ds as real) * ds as real == n;
  }

  /** `ProcessInfo_update`: the node takes every field of the fresh scan, with the
      usage recomputed against the node's previous values. */
  function Update(pi: ProcessInfo, u: ProcessInfo): (r: ProcessInfo)
    ensures r.pid == u.pid && r.rss == u.rss && r.comm == u.comm
    ensures r.cpuTime == u.cpuTime && r.sampleTime == u.sampleTime
    ensures r.cpuUsage == Usage(pi, u)
  {
    u.(cpuUsage := Usage(pi, u))
  }

  /** Without wrap-around the usage is the plain percentage of ticks spent. */
  lemma UsageWithoutWrap(pi: ProcessInfo, u: ProcessInfo)
    requires pi.pid == u.pid
    requires pi.cpuTime <= u.cpuTime && pi.sampleTime < u.sampleTime
    ensures Usage(pi, u).Quotient? && Usage(pi, u).den > 0
    ensures Usage(pi, u).Value() == (100 * (u.cpuTime - pi.cpuTime)) as real / (u.sampleTime - pi.sampleTime) as real
  {
  }

  // ---------------------------------------------------------------- scanning one process

  /** The bytes of a stat record as read (at most 255) and what the field scan
      after the name matched: `count` conversions and their values. */
  datatype StatFields = StatFields(count: nat, utime: uint64, stime: uint64, cutime: uint64,
                                   cstime: uint64, rss: uint32)
  datatype StatRead = StatRead(data: string, fields: StatFields)

  /** The name scan needs a `(` with at least one byte after it; a stat record
      always has one ("pid (comm) state ..."). */
  predicate NamePlaced(data: string) {
    IndexOf(data, '(') + 2 <= |data|
  }

  /** The backward search for `)`: from offset `n` after the `(` down to offset 1;
      offset 0 is never examined. */
  function CloseOffset(data: string, base: nat, n: nat): (k: nat)
    requires base + n < |data|
    ensures k <= n
    ensures k > 0 ==> data[base + k] == ')'
    ensures forall j :: base + k < j <= base + n ==> data[j] != ')'
  {
    if n == 0 || data[base + n] == ')' then n else CloseOffset(data, base, n - 1)
  }

  /** The name of a stat record: the bytes after the first `(` up to the last `)`
      of the whole record (or nothing when no `)` follows at offset 1 or more),
      cut to 31 bytes. */
  function ExtractComm(data: string): (comm: string)
    requires NamePlaced(data)
    ensures |comm| <= COMM_CAP
    ensures IndexOf(data, '(') + 1 + |comm| <= |data|
  {
    var open := IndexOf(data, '(');
    var n := CloseOffset(data, open + 1, |data| - open - 2);
    data[open + 1 .. open + 1 + Min(n, COMM_CAP)]
  }

  /** The name is the run of bytes right after the first `(`; unless it was cut
      at 31 bytes it stops at the last `)` of the record (or is empty when no
      `)` follows at offset 1 or more). */
  lemma CommBetweenParentheses(data: string)
    requires NamePlaced(data)
    ensures var start := IndexOf(data, '(') + 1;
      var comm := ExtractComm(data);
      && comm == data[start .. start + |comm|]
      && (0 < |comm| < COMM_CAP ==> data[start + |comm|] == ')')
      && (|comm| < COMM_CAP ==> forall j :: start + |comm| < j < |data| ==> data[j] != ')')
  {
  }

  /** The name runs to the LAST closing parenthesis, so names that hold
      parentheses themselves keep them ("1 ((sd-pam)) S" names "(sd-pam)"): with
      the first `(` at `open` and the last `)` at `close`, the name is everything
      between the two whenever that is shorter than 31 bytes. */
  lemma NestedParentheses(data: string, open: nat, close: nat)
    requires open < close < |data| && data[open] == '(' && data[close] == ')'
    requires forall j :: 0 <= j < open ==> data[j] != '('
    requires forall j :: close < j < |data| ==> data[j] != ')'
    requires close - open - 1 < COMM_CAP
    ensures NamePlaced(data)
    ensures ExtractComm(data) == data[open + 1 .. close]
  {
    assert IndexOf(data, '(') == open;
    assert CloseOffset(data, open + 1, |data| - open - 2) == close - open - 1 by {
      LastClose(data, open + 1, close - open - 1);
    }
  }

  /** The backward search stops at the last `)` when it lies past offset 0. */
  lemma LastClose(data: string, base: nat, m: nat)
    requires base + m < |data| && data[base + m] == ')'
    requires forall j :: base + m < j < |data| ==> data[j] != ')'
    ensures CloseOffset(data, base, |data| - base - 1) == m
  {
  }

  /** `cpu_time` is the wrapping sum of the four tick counters; with fewer than
      five conversions both it and `rss` are forced to 0. */
  function CpuTimeAndRss(f: StatFields): (r: (uint64, uint32))
    ensures f.count < 5 ==> r == (0, 0)
    ensures f.count >= 5 ==> r.1 == f.rss
    ensures f.count >= 5 ==> (r.0 - (f.utime + f.stime + f.cutime + f.cstime)) % UINT64_LIMIT == 0
    ensures f.count >= 5 && f.utime + f.stime + f.cutime + f.cstime < UINT64_LIMIT ==>
      r.0 == f.utime + f.stime + f.cutime + f.cstime
  {
    if f.count < 5 then (0, 0) else (Wrap64(f.utime + f.stime + f.cutime + f.cstime), f.rss)
  }

  /** `atoi` on a directory name that starts with a digit, stored as `unsigned`. */
  function Atoi(name: string): (pid: uint32)
    requires 0 < |name| && IsDigit(name[0])
    ensures DecimalValue(LeadingDigits(name)) < UINT32_LIMIT ==> pid == DecimalValue(LeadingDigits(name))
  {
    Wrap32(DecimalValue(LeadingDigits(name)))
  }

  const DEFUNCT: string := "(defunct)"

  /** `ProcessInfo_scan` for one pid directory: an unreadable stat record gives
      the name "(defunct)" and nothing else; otherwise the name, ticks and rss of
      the record, stamped with the system tick count. */
  function Scan(name: string, stat: Option<StatRead>, ticks: uint64): (pi: ProcessInfo)
    requires 0 < |name| && IsDigit(name[0])
    requires stat.Some? ==> NamePlaced(stat.value.data)
    ensures pi.pid == Atoi(name)
    ensures stat.None? ==> pi.comm == DEFUNCT && pi.cpuTime == 0 && pi.rss == 0
    ensures stat.Some? ==>
      && pi.comm == ExtractComm(stat.value.data)
      && (pi.cpuTime, pi.rss) == CpuTimeAndRss(stat.value.fields)
      && pi.sampleTime == ticks
    ensures pi.cpuUsage == ZERO_USAGE
  {
    match stat
    case None => ProcessInfo(Atoi(name), 0, ZERO_USAGE, 0, 0, DEFUNCT)
    case Some(s) =>
      var (t, rss) := CpuTimeAndRss(s.fields);
      ProcessInfo(Atoi(name), rss, ZERO_USAGE, t, ticks, ExtractComm(s.data))
  }

  /** Every pid is read back from its decimal directory name. */
  lemma AtoiRoundTrip(pid: uint32)
    ensures Atoi(NatToDecimal(pid)) == pid
  {
    var s := NatToDecimal(pid);
    LeadingDigitsOfDigits(s);
    DecimalRoundTrip(pid);
  }

  // ---------------------------------------------------------------- the refresh pass

  /** An entry of the process directory, with its stat record if it could be read. */
  datatype DirEntry = DirEntry(name: string, stat: Option<StatRead>)

  /** A directory entry is scanned when its first character is a digit. */
  predicate IsPidName(name: string) {
    0 < |name| && IsDigit(name[0])
  }

  predicate EntriesReadable(entries: seq<DirEntry>) {
    forall i :: 0 <= i < |entries| && entries[i].stat.Some? ==> NamePlaced(entries[i].stat.value.data)
  }

  /** The scans of one pass, in directory order, skipping non-pid names. */
  function ScanAll(entries: seq<DirEntry>, ticks: uint64): (scans: seq<ProcessInfo>)
    requires EntriesReadable(entries)
    ensures |scans| <= |entries|
    decreases |entries|
  {
    if |entries| == 0 then []
    else
      var e := entries[0];
      assert EntriesReadable(entries[1..]) by {
        forall i | 0 <= i < |entries| - 1 ensures entries[1..][i] == entries[i + 1] { }
      }
      (if IsPidName(e.name) then [Scan(e.name, e.stat, ticks)] else []) + ScanAll(entries[1..], ticks)
  }

  /** One pass's scans are the scans of its parts, one per pid-named entry:
      scanning a split directory listing is scanning each part in turn, and a
      single entry gives its scan exactly when its name starts with a digit. */
  lemma {:induction false} ScanAllSplits(a: seq<DirEntry>, b: seq<DirEntry>, ticks: uint64)
    requires EntriesReadable(a + b)
    ensures EntriesReadable(a) && EntriesReadable(b)
    ensures ScanAll(a + b, ticks) == ScanAll(a, ticks) + ScanAll(b, ticks)
    decreases |a|
  {
    assert EntriesReadable(a) && EntriesReadable(b) by {
      assert forall i :: 0 <= i < |a| ==> (a + b)[i] == a[i];
      assert forall i :: 0 <= i < |b| ==> (a + b)[|a| + i] == b[i];
    }
    if |a| > 0 {
      assert (a + b)[0] == a[0];
      assert (a + b)[1..] == a[1..] + b;
      ScanAllSplits(a[1..], b, ticks);
    } else {
      assert a + b == b;
    }
  }

  lemma ScanAllOne(e: DirEntry, ticks: uint64)
    requires e.stat.Some? ==> NamePlaced(e.stat.value.data)
    ensures EntriesReadable([e])
    ensures IsPidName(e.name) ==> ScanAll([e], ticks) == [Scan(e.name, e.stat, ticks)]
    ensures !IsPidName(e.name) ==> ScanAll([e], ticks) == []
  {
    assert [e][1..] == [];
  }

  /** Position of the first node with this pid at or after the cursor, or `|s|`. */
  function FindPid(s: seq<ProcessInfo>, pid: uint32): (k: nat)
    ensures k <= |s|
    ensures k < |s| ==> s[k].pid == pid
  {
    if |s| == 0 || s[0].pid == pid then 0 else 1 + FindPid(s[1..], pid)
  }

  /** Every node the deletion loop passes over has another pid. */
  lemma {:induction false} FindPidIsFirst(s: seq<ProcessInfo>, pid: uint32)
    ensures forall j :: 0 <= j < FindPid(s, pid) ==> s[j].pid != pid
    decreases |s|
  {
    if |s| > 0 && s[0].pid != pid {
      FindPidIsFirst(s[1..], pid);
      forall j | 1 <= j < FindPid(s, pid) ensures s[j].pid != pid {
        assert s[1..][j - 1] == s[j];
      }
    }
  }

  /** The node a scan becomes once the cursor has moved `k` nodes on: the
      matching old node updated, or the scan itself appended at the end. */
  function Placed(rest: seq<ProcessInfo>, k: nat, scan: ProcessInfo): ProcessInfo
    requires k <= |rest|
  {
    if k < |rest| then Update(rest[k], scan) else scan
  }

  /** The old nodes the pass continues from after placing a scan at `k`. */
  function After(rest: seq<ProcessInfo>, k: nat): (t: seq<ProcessInfo>)
    requires k <= |rest|
    ensures t == rest[if k < |rest| then k + 1 else |rest|..]
  {
    if k < |rest| then rest[k + 1..] else []
  }

  /** The merge loop of `top_procs_refresh`, from the cursor `rest` onward: nodes
      whose pid differs from the scanned one are deleted until one matches; a
      match is updated, and reaching the end appends the scan. */
  function Merge(rest: seq<ProcessInfo>, scans: seq<ProcessInfo>): (r: seq<ProcessInfo>)
    ensures |scans| <= |r|
    decreases |scans|
  {
    if |scans| == 0 then rest
    else
      var k := FindPid(rest, scans[0].pid);
      [Placed(rest, k, scans[0])] + Merge(After(rest, k), scans[1..])
  }

  /** `node` holds the fields of `scan`, with either the scan's own usage or one
      computed against an old node of the same pid found in `rest`. */
  predicate FromScan(rest: seq<ProcessInfo>, node: ProcessInfo, scan: ProcessInfo) {
    && node == scan.(cpuUsage := node.cpuUsage)
    && (node.cpuUsage == scan.cpuUsage ||
        exists prior :: prior in rest && prior.pid == scan.pid && node.cpuUsage == Usage(prior, scan))
  }

  /** After a pass the list starts with one node per scan, in scan order, each
      holding that scan's fields; a node carries a computed usage only when it
      was matched with an old node of the same pid. */
  lemma {:induction false} MergeFollowsScans(rest: seq<ProcessInfo>, scans: seq<ProcessInfo>, i: nat)
    requires i < |scans|
    ensures FromScan(rest, Merge(rest, scans)[i], scans[i])
    decreases |scans|
  {
    var k := FindPid(rest, scans[0].pid);
    var tail := After(rest, k);
    var r := Merge(rest, scans);
    var r' := Merge(tail, scans[1..]);
    assert r == [Placed(rest, k, scans[0])] + r';
    if i == 0 {
      PlacedFromScan(rest, k, scans[0]);
    } else {
      assert r[i] == r'[i - 1];
      assert scans[1..][i - 1] == scans[i];
      MergeFollowsScans(tail, scans[1..], i - 1);
      FromScanSuffix(rest, |rest| - |tail|, r[i], scans[i]);
    }
  }

  lemma PlacedFromScan(rest: seq<ProcessInfo>, k: nat, scan: ProcessInfo)
    requires k <= |rest| && (k < |rest| ==> rest[k].pid == scan.pid)
    ensures FromScan(rest, Placed(rest, k, scan), scan)
  {
    if k < |rest| {
      var prior := rest[k];
      assert prior in rest;
    }
  }

  lemma FromScanSuffix(rest: seq<ProcessInfo>, m: nat, node: ProcessInfo, scan: ProcessInfo)
    requires m <= |rest| && FromScan(rest[m..], node, scan)
    ensures FromScan(rest, node, scan)
  {
    if node.cpuUsage != scan.cpuUsage {
      var prior :| prior in rest[m..] && prior.pid == scan.pid && node.cpuUsage == Usage(prior, scan);
      var j :| 0 <= j < |rest| - m && rest[m..][j] == prior;
      assert rest[m + j] == prior;
    }
  }

  /** Where, in the old list, the nodes a pass leaves alone begin. */
  function TailStart(rest: seq<ProcessInfo>, scans: seq<ProcessInfo>): (j: nat)
    ensures j <= |rest|
    decreases |scans|
  {
    if |scans| == 0 then 0
    else
      var k := FindPid(rest, scans[0].pid);
      var start := if k < |rest| then k + 1 else |rest|;
      start + TailStart(After(rest, k), scans[1..])
  }

  lemma DropAfterHead<T>(x: T, s: seq<T>, n: nat)
    requires n <= |s|
    ensures ([x] + s)[n + 1..] == s[n..]
  {
  }

  lemma DropOfDrop<T>(s: seq<T>, a: nat, b: nat)
    requires a <= |s| && b <= |s| - a
    ensures s[a..][b..] == s[a + b..]
  {
  }

  /** Past the first scanned node, a pass continues as the pass over what
      follows the cursor. */
  lemma MergeDropsFirst(rest: seq<ProcessInfo>, scans: seq<ProcessInfo>)
    requires |scans| > 0
    ensures var k := FindPid(rest, scans[0].pid);
      Merge(rest, scans)[|scans|..] == Merge(After(rest, k), scans[1..])[|scans| - 1..]
  {
    var k := FindPid(rest, scans[0].pid);
    DropAfterHead(Placed(rest, k, scans[0]), Merge(After(rest, k), scans[1..]), |scans| - 1);
  }

  lemma {:induction false} MergeTailAt(rest: seq<ProcessInfo>, scans: seq<ProcessInfo>)
    ensures Merge(rest, scans)[|scans|..] == rest[TailStart(rest, scans)..]
    decreases |scans|
  {
    if |scans| != 0 {
      var k := FindPid(rest, scans[0].pid);
      var start := if k < |rest| then k + 1 else |rest|;
      var tail := After(rest, k);
      var later := scans[1..];
      var j := TailStart(tail, later);
      var m := Merge(tail, later);
      assert Merge(rest, scans)[|scans|..] == m[|later|..] by {
        MergeDropsFirst(rest, scans);
      }
      assert m[|later|..] == tail[j..] by {
        MergeTailAt(tail, later);
      }
      assert tail[j..] == rest[start + j..] by {
        DropOfDrop(rest, start, j);
      }
      assert TailStart(rest, scans) == start + j;
    }
  }

  /** What follows the scanned nodes is an untouched tail of the old list: the
      old nodes after the last match survive, and nothing else does. */
  lemma MergeKeepsTail(rest: seq<ProcessInfo>, scans: seq<ProcessInfo>)
    ensures exists j :: 0 <= j <= |rest| && Merge(rest, scans)[|scans|..] == rest[j..]
  {
    MergeTailAt(rest, scans);
  }

  /** When the pass sees exactly the processes already listed, in the same
      order, every node is updated in place and none is added or deleted. */
  lemma {:induction false} SameProcessesUpdateInPlace(list: seq<ProcessInfo>, scans: seq<ProcessInfo>)
    requires |list| == |scans|
    requires forall i :: 0 <= i < |list| ==> list[i].pid == scans[i].pid
    ensures |Merge(list, scans)| == |list|
    ensures forall i :: 0 <= i < |list| ==> Merge(list, scans)[i] == Update(list[i], scans[i])
    decreases |list|
  {
    if |list| > 0 {
      assert FindPid(list, scans[0].pid) == 0;
      SameProcessesUpdateInPlace(list[1..], scans[1..]);
      var r := Merge(list, scans);
      assert r == [Update(list[0], scans[0])] + Merge(list[1..], scans[1..]);
      forall i | 1 <= i < |list| ensures r[i] == Update(list[i], scans[i]) {
        assert list[1..][i - 1] == list[i] && scans[1..][i - 1] == scans[i];
      }
    }
  }

  /** The merge relies on pids arriving in the list's order: a pass that meets
      two listed pids in the opposite order deletes the second and re-creates it
      with a fresh (zero) usage. */
  lemma OutOfOrderScanRecreates(a: ProcessInfo, b: ProcessInfo, sa: ProcessInfo, sb: ProcessInfo)
    requires a.pid != b.pid && sa.pid == a.pid && sb.pid == b.pid
    ensures Merge([a, b], [sb, sa]) == [Update(b, sb), sa]
  {
    assert FindPid([a, b], sb.pid) == 1;
    assert [a, b][2..] == [];
    assert Merge([], [sa]) == [sa] + Merge([], []);
  }

  // ---------------------------------------------------------------- top consumers

  /** The `top_mem`/`top_cpu` pointers over one pass. `keys` are the pass's
      keys (`rss` or `cpu_time` of each scan) in order; `init` is the key of the
      node pointed to before the pass, if any, and `rescan` the scan, if any, that
      updates that node in this pass. */
  predicate PointeeKnown(keys: seq<int>, init: Option<int>, rescan: Option<nat>) {
    rescan.Some? ==> init.Some? && rescan.value < |keys|
  }

  /** The key of the node pointed to before the pass, as read at step `i`: the
      update at line 133 precedes the comparison, so from its own rescan on it is
      the fresh key. */
  function PointeeKey(keys: seq<int>, init: int, rescan: Option<nat>, i: nat): int
    requires rescan.Some? ==> rescan.value < |keys|
  {
    if rescan.Some? && rescan.value <= i then keys[rescan.value] else init
  }

  /** Step `i` moves a pointer that has not moved yet in this pass. */
  predicate Beats(keys: seq<int>, init: Option<int>, rescan: Option<nat>, i: nat)
    requires PointeeKnown(keys, init, rescan) && i < |keys|
  {
    init.None? || keys[i] > PointeeKey(keys, init.value, rescan, i)
  }

  /** The first step of the pass that moves the pointer, or `|keys|`. */
  function FirstMove(keys: seq<int>, init: Option<int>, rescan: Option<nat>, from: nat): (k: nat)
    requires PointeeKnown(keys, init, rescan) && from <= |keys|
    ensures from <= k <= |keys|
    ensures forall j :: from <= j < k ==> !Beats(keys, init, rescan, j)
    ensures k < |keys| ==> Beats(keys, init, rescan, k)
    decreases |keys| - from
  {
    if from == |keys| || Beats(keys, init, rescan, from) then from
    else FirstMove(keys, init, rescan, from + 1)
  }

  /** The rule of lines 142-145 over one pass: the pointer moves to a node when
      there is none yet or the node's key is strictly greater than the key of
      the node pointed to, read as it is at that step. The result is the
      position the pointer ends on, or `None` when it never moved. Until the
      first move nothing beats the old pointee; from then on the pointer holds
      the first largest key. */
  method TrackTop(keys: seq<int>, init: Option<int>, rescan: Option<nat>) returns (r: Option<nat>)
    requires PointeeKnown(keys, init, rescan)
    ensures r.None? <==> FirstMove(keys, init, rescan, 0) == |keys|
    ensures r.Some? ==> FirstMove(keys, init, rescan, 0) <= r.value < |keys|
    ensures r.Some? ==> forall j :: FirstMove(keys, init, rescan, 0) <= j < r.value ==> keys[j] < keys[r.value]
    ensures r.Some? ==> forall j :: r.value < j < |keys| ==> keys[j] <= keys[r.value]
  {
    var first := FirstMove(keys, init, rescan, 0);
    r := None;
    for i := 0 to |keys|
      invariant r.None? <==> first >= i
      invariant r.Some? ==> first <= r.value < i
      invariant r.Some? ==> forall j :: first <= j < r.value ==> keys[j] < keys[r.value]
      invariant r.Some? ==> forall j :: r.value < j < i ==> keys[j] <= keys[r.value]
    {
      if r.None? {
        if Beats(keys, init, rescan, i) {
          r := Some(i);
        }
      } else if keys[i] > keys[r.value] {
        r := Some(i);
      }
    }
  }

  /** Without an earlier pointee the pointer ends on the first largest key. */
  lemma FirstPassTracksMaximum(keys: seq<int>)
    requires |keys| > 0
    ensures FirstMove(keys, None, None, 0) == 0
  {
  }

  /** A pointee rescanned with a smaller key no longer holds the pointer: with
      the old node at 100 rescanned at 50 and a node at 60 following, the
      pointer moves to the 60 even though nothing beat 100. */
  lemma RescannedPointeeCanLose()
    ensures FirstMove([50, 60], Some(100), Some(0), 0) == 1
  {
    assert Beats([50, 60], Some(100), Some(0), 1);
  }
}

/** Top-N snapshots (collector/collector.c, `build_snapshot`): the process table
    ranked by CPU% and cut to the first ten records. */
module Snapshots {
  import opened Machine
  import opened ProcessTable

  const TOP_N: nat := 10

  datatype TopEntry = TopEntry(pid: uint32, rssKb: uint32, cpuPercent: real, comm: string)

  /** One ring-buffer slot. A timestamp of 0 marks a slot never written. */
  datatype Snapshot = Snapshot(timestamp: int, totalJiffies: uint64, entries: seq<TopEntry>)

  /** What an all-zero slot of a freshly created cache file reads as. */
  const EMPTY_SNAPSHOT: Snapshot := Snapshot(0, 0, [])

  /** A snapshot fits the C record: at most `TOP_N` entries. */
  predicate WellFormed(s: Snapshot) {
    |s.entries| <= TOP_N
  }

  /** Non-increasing CPU%, the order `compare_by_cpu` asks `qsort` for. */
  predicate SortedByCpu(s: seq<ProcessRecord>) {
    forall i, j :: 0 <= i < j < |s| ==> s[i].cpuPercent >= s[j].cpuPercent
  }

  /** Insert a record into a CPU-ranked table, before the first record it outranks. */
  function InsertByCpu(r: ProcessRecord, s: seq<ProcessRecord>): (t: seq<ProcessRecord>)
    requires SortedByCpu(s)
    ensures SortedByCpu(t)
    ensures multiset(t) == multiset(s) + multiset{r}
    ensures forall k :: 0 <= k < |t| ==> t[k] == r || t[k] in s
    decreases |s|
  {
    if |s| == 0 then [r]
    else if r.cpuPercent >= s[0].cpuPercent then [r] + s
    else
      assert s == [s[0]] + s[1..];
      [s[0]] + InsertByCpu(r, s[1..])
  }

  /** Rank a table by CPU%. `qsort` leaves the order of equal CPU% unspecified;
      this is one of the orders it may produce. */
  function SortByCpu(s: seq<ProcessRecord>): (t: seq<ProcessRecord>)
    ensures SortedByCpu(t)
    ensures multiset(t) == multiset(s)
    decreases |s|
  {
    if |s| == 0 then []
    else
      assert s == [s[0]] + s[1..];
      InsertByCpu(s[0], SortByCpu(s[1..]))
  }

  /** The entry a record becomes: its `comm` is copied with `strncpy` into 256 bytes. */
  function ToEntry(rec: ProcessRecord): TopEntry {
    TopEntry(rec.pid, rec.rssKb, rec.cpuPercent, TruncateComm(rec.comm))
  }

  /** `build_snapshot`: stamp the time and the last system total, sort the table in
      place by CPU%, and copy its first `min(count, 10)` records. Returns the
      snapshot and the reordered table. */
  function BuildSnapshot(table: seq<ProcessRecord>, total: uint64, now: int)
    : (r: (Snapshot, seq<ProcessRecord>))
    ensures r.0.timestamp == now && r.0.totalJiffies == total
    ensures multiset(r.1) == multiset(table)
    ensures SortedByCpu(r.1)
    ensures |r.0.entries| == Min(|table|, TOP_N)
    ensures forall i :: 0 <= i < |r.0.entries| ==> r.0.entries[i] == ToEntry(r.1[i])
    ensures forall i, j :: 0 <= i < j < |r.0.entries| ==> r.0.entries[i].cpuPercent >= r.0.entries[j].cpuPercent
    ensures WellFormed(r.0)
  {
    var sorted := SortByCpu(table);
    assert |sorted| == |multiset(sorted)| == |table|;
    var count := Min(|table|, TOP_N);
    (Snapshot(now, total, seq(count, i requires 0 <= i < count => ToEntry(sorted[i]))), sorted)
  }

  /** The snapshot really is the top of the table: any record ranked strictly above
      the last entry is among the entries, and a table of at most ten records is
      copied whole. */
  lemma SnapshotHoldsTheTop(table: seq<ProcessRecord>, total: uint64, now: int, x: ProcessRecord)
    requires x in table
    ensures var snap := BuildSnapshot(table, total, now).0;
      && 0 < |snap.entries|
      && (x.cpuPercent > snap.entries[|snap.entries| - 1].cpuPercent ==> ToEntry(x) in snap.entries)
      && (|table| <= TOP_N ==> ToEntry(x) in snap.entries)
  {
    var (snap, sorted) := BuildSnapshot(table, total, now);
    assert x in multiset(table);
    assert x in multiset(sorted);
    var j :| 0 <= j < |sorted| && sorted[j] == x;
    var count := |snap.entries|;
    if j < count {
      assert snap.entries[j] == ToEntry(x);
    } else {
      assert sorted[count - 1].cpuPercent >= x.cpuPercent;
    }
  }
}

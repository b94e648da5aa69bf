/** The text protocol of the collector (collector/collector.c,
    `send_snapshot_to_client` and `handle_client_command`): rendering a snapshot
    as a TIMESTAMP / ENTRIES / rows / END block and dispatching one command line. */
module Protocol {
  import opened Machine
  import opened Text
  import opened Snapshots
  import opened RingCache

  /** The sending side of one client socket. `failing` says which write attempts
      (numbered from 0 over the connection's life) the socket rejects, so that a
      write's outcome is an input rather than an effect; `writes` counts attempts. */
  datatype Conn = Conn(sent: string, writes: nat, failing: set<nat>)

  /** One `write` call: all of `data` is sent, or nothing is and the call fails. */
  function Write(c: Conn, data: string): (r: (Conn, bool))
    ensures r.1 <==> c.writes !in c.failing
    ensures r.0.writes == c.writes + 1 && r.0.failing == c.failing
    ensures r.0.sent == if r.1 then c.sent + data else c.sent
  {
    if c.writes in c.failing then (c.(writes := c.writes + 1), false)
    else (c.(sent := c.sent + data, writes := c.writes + 1), true)
  }

  function Concat(lines: seq<string>): string
    decreases |lines|
  {
    if |lines| == 0 then "" else lines[0] + Concat(lines[1..])
  }

  lemma {:induction false} ConcatAppend(a: seq<string>, b: seq<string>)
    ensures Concat(a + b) == Concat(a) + Concat(b)
    decreases |a|
  {
    if |a| == 0 {
      assert a + b == b;
    } else {
      assert (a + b)[1..] == a[1..] + b;
      ConcatAppend(a[1..], b);
    }
  }

  /** The first of the next `n` write attempts that will fail, or `n` when none will. */
  function FirstFailure(c: Conn, n: nat): (k: nat)
    ensures k <= n
    ensures k < n ==> c.writes + k in c.failing
    decreases n
  {
    if n == 0 then 0
    else if c.writes in c.failing then 0
    else 1 + FirstFailure(c.(writes := c.writes + 1), n - 1)
  }

  /** Only the attempt count and the failing set decide where the first failure is. */
  lemma {:induction false} FirstFailureIgnoresSent(c: Conn, d: Conn, n: nat)
    requires c.writes == d.writes && c.failing == d.failing
    ensures FirstFailure(c, n) == FirstFailure(d, n)
    decreases n
  {
    if n > 0 && c.writes !in c.failing {
      FirstFailureIgnoresSent(c.(writes := c.writes + 1), d.(writes := d.writes + 1), n - 1);
    }
  }

  /** No attempt before the first failure fails. */
  lemma {:induction false} FirstFailureIsFirst(c: Conn, n: nat)
    ensures forall a :: c.writes <= a < c.writes + FirstFailure(c, n) ==> a !in c.failing
    decreases n
  {
    if n > 0 && c.writes !in c.failing {
      FirstFailureIsFirst(c.(writes := c.writes + 1), n - 1);
    }
  }

  lemma TakeAfterHead<T>(s: seq<T>, k: nat)
    requires 0 < k <= |s|
    ensures s[..k] == [s[0]] + s[1..][..k - 1]
  {
  }

  /** Write lines one call each, giving up at the first failed call. */
  function SendLines(c: Conn, lines: seq<string>): (r: (Conn, bool))
    ensures var k := FirstFailure(c, |lines|);
      && (r.1 <==> k == |lines|)
      && r.0.sent == c.sent + Concat(lines[..k])
      && r.0.writes == c.writes + (if k < |lines| then k + 1 else |lines|)
      && r.0.failing == c.failing
    decreases |lines|
  {
    if |lines| == 0 then (c, true)
    else
      var (c1, ok) := Write(c, lines[0]);
      if !ok then (c1, false)
      else
        var r := SendLines(c1, lines[1..]);
        var k := FirstFailure(c1, |lines| - 1);
        FirstFailureIgnoresSent(c1, c.(writes := c.writes + 1), |lines| - 1);
        TakeAfterHead(lines, k + 1);
        ConcatAppend([lines[0]], lines[1..][..k]);
        r
  }

  // ---------------------------------------------------------------- rendering

  /** The digits of a count of hundredths with a decimal point before the last two. */
  function CentsText(cents: nat): (s: string)
    ensures |s| >= 4 && s[|s| - 3] == '.'
    ensures AllDigits(s[..|s| - 3]) && AllDigits(s[|s| - 2..])
    ensures DecimalValue(s[..|s| - 3] + s[|s| - 2..]) == cents
  {
    var units := NatToDecimal(cents / 100);
    var d1, d2 := DigitChar(cents % 100 / 10), DigitChar(cents % 10);
    PointedValue(units, d1, d2);
    DecimalRoundTrip(cents / 100);
    units + "." + [d1, d2]
  }

  /** The digits around the point of `units.d1d2` read as one number. */
  lemma PointedValue(units: string, d1: char, d2: char)
    requires 1 <= |units| && AllDigits(units) && IsDigit(d1) && IsDigit(d2)
    ensures var s := units + "." + [d1, d2];
      && |s| >= 4 && s[|s| - 3] == '.'
      && AllDigits(s[..|s| - 3]) && AllDigits(s[|s| - 2..])
      && DecimalValue(s[..|s| - 3] + s[|s| - 2..]) == (DecimalValue(units) * 10 + DigitValue(d1)) * 10 + DigitValue(d2)
  {
    var s := units + "." + [d1, d2];
    assert s[..|s| - 3] == units;
    assert s[|s| - 2..] == [d1, d2];
    assert units + [d1, d2] == units + [d1] + [d2];
    DecimalAppend(units, d1);
    DecimalAppend(units + [d1], d2);
  }

  /** `printf("%.2f")` of a non-negative value: the nearest hundredth, halves
      rounded up. (The C value is a `float`; exact reals stand in for it.) */
  function Fixed2(x: real): (s: string)
    requires x >= 0.0
    ensures |s| >= 4 && s[|s| - 3] == '.'
    ensures AllDigits(s[..|s| - 3]) && AllDigits(s[|s| - 2..])
    ensures var hundredths := DecimalValue(s[..|s| - 3] + s[|s| - 2..]) as real;
      -0.5 < hundredths - 100.0 * x <= 0.5
  {
    var cents := (100.0 * x + 0.5).Floor;
    CentsText(cents)
  }

  /** CPU% as the row prints it; a negative value (which the model never produces)
      gets a leading minus. */
  function FormatCpu(x: real): string {
    if x >= 0.0 then Fixed2(x) else "-" + Fixed2(-x)
  }

  /** `"%d %.2f %u %s"`: the unsigned pid is printed through `%d`, and `%s`
      stops at the first NUL of the name. */
  function EntryRow(e: TopEntry): string {
    IntToDecimal(ToInt32(e.pid)) + " " + FormatCpu(e.cpuPercent) + " " + NatToDecimal(e.rssKb)
      + " " + BeforeNul(e.comm)
  }

  function TimestampRow(t: int): string {
    "TIMESTAMP " + IntToDecimal(t)
  }

  function EntriesRow(n: nat): string {
    "ENTRIES " + IntToDecimal(n)
  }

  /** One row per entry, in snapshot order. */
  function EntryRows(entries: seq<TopEntry>): (rows: seq<string>)
    ensures |rows| == |entries|
    ensures forall i :: 0 <= i < |entries| ==> rows[i] == EntryRow(entries[i])
  {
    seq(|entries|, i requires 0 <= i < |entries| => EntryRow(entries[i]))
  }

  /** The rows of a block without their newlines: TIMESTAMP, ENTRIES, one row
      per entry, END. */
  function BlockRows(s: Snapshot): (rows: seq<string>)
    ensures |rows| == |s.entries| + 3
    ensures rows[0] == TimestampRow(s.timestamp)
    ensures rows[1] == EntriesRow(|s.entries|)
    ensures rows[2..|rows| - 1] == EntryRows(s.entries)
    ensures rows[|rows| - 1] == "END"
  {
    var head := [TimestampRow(s.timestamp), EntriesRow(|s.entries|)];
    var rows := head + EntryRows(s.entries) + ["END"];
    assert rows[2..|rows| - 1] == EntryRows(s.entries);
    rows
  }

  function Terminated(rows: seq<string>): (lines: seq<string>)
    ensures |lines| == |rows|
    ensures forall i :: 0 <= i < |rows| ==> lines[i] == rows[i] + [NEWLINE]
  {
    seq(|rows|, i requires 0 <= i < |rows| => rows[i] + [NEWLINE])
  }

  const END_LINE: string := "END\n"

  /** The lines of a block before its END marker, one `write` each. */
  function BodyLines(s: Snapshot): (lines: seq<string>)
    ensures |lines| == |s.entries| + 2
  {
    Terminated(BlockRows(s))[..|s.entries| + 2]
  }

  /** The whole block a snapshot renders to when every write succeeds. */
  function BlockText(s: Snapshot): string {
    Concat(BodyLines(s)) + END_LINE
  }

  /** Body lines one call each up to the first failed call, then END only if
      none failed; END's own outcome is ignored. */
  function SendBlock(c: Conn, lines: seq<string>): (c': Conn)
    ensures c'.failing == c.failing
    ensures var n := |lines|; var k := FirstFailure(c, n);
      && (k < n ==> c'.sent == c.sent + Concat(lines[..k]) && c'.writes == c.writes + k + 1)
      && (k == n ==> c'.writes == c.writes + n + 1)
      && (k == n && c.writes + n !in c.failing ==> c'.sent == c.sent + Concat(lines) + END_LINE)
      && (k == n && c.writes + n in c.failing ==> c'.sent == c.sent + Concat(lines))
  {
    var r := SendLines(c, lines);
    assert lines[..|lines|] == lines;
    if r.1 then Write(r.0, END_LINE).0 else r.0
  }

  /** `send_snapshot_to_client`: the block of one snapshot, sent as `SendBlock`
      describes; every block attempts at least one write. */
  function SendSnapshot(c: Conn, s: Snapshot): (c': Conn)
    ensures c'.failing == c.failing
    ensures c'.writes > c.writes
  {
    SendBlock(c, BodyLines(s))
  }

  /** HISTORY's sending loop: one block per snapshot, back to back. */
  function SendAll(c: Conn, snaps: seq<Snapshot>): (c': Conn)
    ensures c'.failing == c.failing
    ensures c'.writes >= c.writes
    decreases |snaps|
  {
    if |snaps| == 0 then c else SendAll(SendSnapshot(c, snaps[0]), snaps[1..])
  }

  // ---------------------------------------------------------------- dispatch

  datatype Command = Top | HistoryCmd | Quit | Unknown

  /** `strncmp` against "TOP", "HISTORY" and "QUIT" over 3, 7 and 4 bytes, in
      that order: a line is recognised by its prefix alone. */
  function Classify(line: string): (cmd: Command)
    ensures cmd == Top <==> HasPrefix(line, "TOP")
    ensures cmd == HistoryCmd <==> !HasPrefix(line, "TOP") && HasPrefix(line, "HISTORY")
    ensures cmd == Quit <==> !HasPrefix(line, "TOP") && !HasPrefix(line, "HISTORY") && HasPrefix(line, "QUIT")
  {
    if HasPrefix(line, "TOP") then Top
    else if HasPrefix(line, "HISTORY") then HistoryCmd
    else if HasPrefix(line, "QUIT") then Quit
    else Unknown
  }

  const ERROR_LINE: string := "ERROR Unknown command\n"

  /** `handle_client_command`: TOP sends the slot before the cursor, HISTORY every
      live slot oldest first, QUIT does nothing at all, and anything else gets one
      error line (outcome ignored) with no END marker. */
  function HandleCommand(cache: Cache, c: Conn, line: string): (c': Conn)
    requires Valid(cache)
    ensures c'.failing == c.failing
    ensures Classify(line) == Quit ==> c' == c
    ensures Classify(line) == Unknown ==>
      && c'.writes == c.writes + 1
      && c'.sent == c.sent + (if c.writes in c.failing then "" else ERROR_LINE)
  {
    match Classify(line)
    case Top => SendSnapshot(c, Latest(cache))
    case HistoryCmd => SendAll(c, History(cache))
    case Quit => c
    case Unknown => Write(c, ERROR_LINE).0
  }

  // ---------------------------------------------------------------- properties

  /** A connection none of whose writes fail. */
  predicate Healthy(c: Conn) {
    c.failing == {}
  }

  /** The text of HISTORY's reply on a healthy connection. */
  function BlocksText(snaps: seq<Snapshot>): string
    decreases |snaps|
  {
    if |snaps| == 0 then "" else BlockText(snaps[0]) + BlocksText(snaps[1..])
  }

  lemma HealthySnapshot(c: Conn, s: Snapshot)
    requires Healthy(c)
    ensures SendSnapshot(c, s).sent == c.sent + BlockText(s)
    ensures Healthy(SendSnapshot(c, s))
  {
    assert FirstFailure(c, |BodyLines(s)|) == |BodyLines(s)|;
  }

  lemma {:induction false} HealthySendAll(c: Conn, snaps: seq<Snapshot>)
    requires Healthy(c)
    ensures SendAll(c, snaps).sent == c.sent + BlocksText(snaps)
    decreases |snaps|
  {
    if |snaps| > 0 {
      HealthySnapshot(c, snaps[0]);
      HealthySendAll(SendSnapshot(c, snaps[0]), snaps[1..]);
    }
  }

  /** On a healthy connection TOP appends exactly the newest slot's block, and
      HISTORY appends one block per live slot, oldest first and at most 60. */
  lemma HealthyReplies(cache: Cache, c: Conn, line: string)
    requires Valid(cache) && Healthy(c)
    ensures Classify(line) == Top ==> HandleCommand(cache, c, line).sent == c.sent + BlockText(Latest(cache))
    ensures Classify(line) == HistoryCmd ==>
      HandleCommand(cache, c, line).sent == c.sent + BlocksText(History(cache))
    ensures Classify(line) == Unknown ==> HandleCommand(cache, c, line).sent == c.sent + ERROR_LINE
  {
    if Classify(line) == Top {
      HealthySnapshot(c, Latest(cache));
    } else if Classify(line) == HistoryCmd {
      HealthySendAll(c, History(cache));
    }
  }

  lemma {:induction false} ConcatTerminated(rows: seq<string>)
    ensures Concat(Terminated(rows)) == JoinLines(rows)
    decreases |rows|
  {
    if |rows| > 0 {
      assert Terminated(rows)[1..] == Terminated(rows[1..]);
      ConcatTerminated(rows[1..]);
    }
  }

  /** The block is its rows, each followed by a newline. */
  lemma BlockTextIsRows(s: Snapshot)
    ensures BlockText(s) == JoinLines(BlockRows(s))
  {
    var t := Terminated(BlockRows(s));
    var n := |s.entries| + 2;
    assert |t| == n + 1;
    assert t[n] == BlockRows(s)[n] + [NEWLINE] == END_LINE;
    assert t == t[..n] + [END_LINE];
    ConcatAppend(t[..n], [END_LINE]);
    ConcatTerminated(BlockRows(s));
  }

  lemma DecimalHasNoNewline(n: nat)
    ensures NEWLINE !in NatToDecimal(n) && NEWLINE !in IntToDecimal(n) && NEWLINE !in IntToDecimal(-(n as int))
  {
    var d := NatToDecimal(n);
    assert forall i :: 0 <= i < |d| ==> IsDigit(d[i]);
  }

  lemma CpuHasNoNewline(x: real)
    ensures NEWLINE !in FormatCpu(x)
  {
    var f := Fixed2(if x >= 0.0 then x else -x);
    forall i | 0 <= i < |f| ensures f[i] != NEWLINE {
      if i < |f| - 3 {
        assert f[i] == f[..|f| - 3][i];
      } else if i > |f| - 3 {
        assert f[i] == f[|f| - 2..][i - (|f| - 2)];
      }
    }
  }

  lemma RowHasNoNewline(e: TopEntry)
    requires NEWLINE !in e.comm
    ensures NEWLINE !in EntryRow(e)
  {
    DecimalHasNoNewline(Abs(ToInt32(e.pid)));
    assert NEWLINE !in IntToDecimal(ToInt32(e.pid));
    DecimalHasNoNewline(e.rssKb);
    CpuHasNoNewline(e.cpuPercent);
    var b := BeforeNul(e.comm);
    assert forall i :: 0 <= i < |b| ==> b[i] == e.comm[i];
    assert NEWLINE !in b;
  }

  /** A reader that splits the reply on newlines gets back exactly the rows: the
      TIMESTAMP row, the ENTRIES row, one row per entry and END, provided no
      process name contains a newline. */
  lemma BlockSplitsIntoRows(s: Snapshot)
    requires forall i :: 0 <= i < |s.entries| ==> NEWLINE !in s.entries[i].comm
    ensures CompleteLines(BlockText(s)) == BlockRows(s)
  {
    var rows := BlockRows(s);
    assert forall i :: 0 <= i < |rows| ==> NEWLINE !in rows[i] by {
      forall i | 0 <= i < |rows| ensures NEWLINE !in rows[i] {
        if i == 0 {
          DecimalHasNoNewline(Abs(s.timestamp));
        } else if i == 1 {
          DecimalHasNoNewline(|s.entries|);
        } else if i < |rows| - 1 {
          RowHasNoNewline(s.entries[i - 2]);
        }
      }
    }
    assert BlockText(s) == JoinLines(rows) by { BlockTextIsRows(s); }
    assert CompleteLines(JoinLines(rows) + "") == rows by {
      SplitJoin(rows, "");
    }
    assert JoinLines(rows) + "" == JoinLines(rows);
  }

  /** The reply to TOP before anything was sampled (a new, zero-filled cache file). */
  lemma TopBeforeFirstSample(s: Snapshot)
    requires s.timestamp == 0 && s.entries == []
    ensures BlockText(s) == "TIMESTAMP 0\nENTRIES 0\nEND\n"
  {
    EmptyBlockText(s);
    assert TimestampRow(0) == "TIMESTAMP 0" by { assert IntToDecimal(0) == "0"; }
  }

  /** A block without entries is its TIMESTAMP row, `ENTRIES 0` and END. */
  lemma EmptyBlockText(s: Snapshot)
    requires s.entries == []
    ensures BlockText(s) == TimestampRow(s.timestamp) + "\nENTRIES 0\nEND\n"
  {
    var rows := BlockRows(s);
    assert rows == [TimestampRow(s.timestamp), "ENTRIES 0", "END"] by {
      assert IntToDecimal(0) == "0";
      assert EntriesRow(0) == "ENTRIES 0";
      assert rows[2] == "END";
    }
    BlockTextIsRows(s);
    ThreeRows(TimestampRow(s.timestamp), "ENTRIES 0", "END");
  }

  lemma ThreeRows(a: string, b: string, c: string)
    ensures JoinLines([a, b, c]) == a + "\n" + b + "\n" + c + "\n"
  {
    assert [a, b, c][1..] == [b, c] && [b, c][1..] == [c] && [c][1..] == [];
    assert JoinLines([c]) == c + [NEWLINE];
    assert JoinLines([b, c]) == b + [NEWLINE] + c + [NEWLINE];
  }

  /** Commands are matched on prefixes only. */
  lemma PrefixMatching()
    ensures Classify("TOPX") == Top
    ensures Classify("HISTORYX") == HistoryCmd
    ensures Classify("QUITTING") == Quit
    ensures Classify("TO") == Unknown
    ensures Classify("top") == Unknown
  {
    assert HasPrefix("TOPX", "TOP");
    assert !HasPrefix("TO", "HISTORY");
    assert "top"[..3][0] != "TOP"[0];
  }

  /** A failed header write ends the block: nothing after it is attempted. */
  lemma FailedTimestampStopsBlock(c: Conn, s: Snapshot)
    requires c.writes in c.failing
    ensures SendSnapshot(c, s).sent == c.sent
    ensures SendSnapshot(c, s).writes == c.writes + 1
  {
    assert BodyLines(s)[..0] == [];
  }

  function Abs(x: int): nat {
    if x < 0 then -x else x
  }
}

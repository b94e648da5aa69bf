/** The connection server and the sampling step of the daemon loop
    (collector/collector.c, `accept_client`, `process_clients`, `scan_processes`
    followed by `build_snapshot` and `write_snapshot_to_cache`). Each poll gives
    every client exactly one `read`; its outcome is an input. */
module Server {
  import opened Machine
  import opened Wrappers
  import opened Text
  import opened ProcessTable
  import opened Snapshots
  import opened RingCache
  import opened Protocol
  import opened Sequences

  const MAX_CLIENTS: nat := 10

  datatype Client = Client(fd: int, conn: Conn)

  /** What one non-blocking `read` returned. */
  datatype ReadResult = Data(bytes: string) | EndOfFile | ReadError(wouldBlock: bool)

  /** The value `read` returns: the byte count, 0 at end of file, -1 on any error
      including "would block". A `Data` with no bytes is a return of 0. */
  function BytesRead(r: ReadResult): int {
    match r
    case Data(b) => |b|
    case EndOfFile => 0
    case ReadError(_) => -1
  }

  function Fds(clients: seq<Client>): seq<int> {
    seq(|clients|, i requires 0 <= i < |clients| => clients[i].fd)
  }

  /** Open descriptors are distinct. */
  predicate FdsUnique(clients: seq<Client>) {
    forall i, j :: 0 <= i < j < |clients| ==> clients[i].fd != clients[j].fd
  }

  /** `accept_client`: with ten clients nothing is accepted; otherwise at most one
      pending connection (the descriptor `accept` returns, if any) is appended,
      with nothing sent on it yet. `failing` says which of the new socket's
      writes, counted from 0, will fail. */
  function AcceptClient(clients: seq<Client>, accepted: Option<int>, failing: set<nat>): (r: seq<Client>)
    requires accepted.Some? ==> accepted.value !in Fds(clients)
    ensures |clients| >= MAX_CLIENTS || accepted.None? ==> r == clients
    ensures |clients| < MAX_CLIENTS && accepted.Some? ==>
      && |r| == |clients| + 1 && r[..|clients|] == clients
      && r[|clients|] == Client(accepted.value, Conn("", 0, failing))
    ensures |clients| <= MAX_CLIENTS ==> |r| <= MAX_CLIENTS
    ensures FdsUnique(clients) ==> FdsUnique(r)
  {
    if |clients| >= MAX_CLIENTS then clients
    else match accepted
      case None => clients
      case Some(fd) =>
        var r := clients + [Client(fd, Conn("", 0, failing))];
        assert forall i :: 0 <= i < |clients| ==> clients[i].fd in Fds(clients) by {
          assert forall i :: 0 <= i < |clients| ==> Fds(clients)[i] == clients[i].fd;
        }
        r
  }

  /** The commands of one successful read in order: the buffer as a C string (up to
      its first NUL), cut at each newline; a trailing fragment is dropped. */
  function ReadCommands(bytes: string): seq<string> {
    CompleteLines(BeforeNul(bytes))
  }

  function HandleLines(cache: Cache, c: Conn, lines: seq<string>): (c': Conn)
    requires Valid(cache)
    ensures c'.failing == c.failing
    decreases |lines|
  {
    if |lines| == 0 then c else HandleLines(cache, HandleCommand(cache, c, lines[0]), lines[1..])
  }

  datatype PollOutcome = PollOutcome(clients: seq<Client>, closed: seq<int>)

  /** A client after its successful read has been dispatched. */
  function Served(cache: Cache, c: Client, bytes: string): (c': Client)
    requires Valid(cache)
    ensures c'.fd == c.fd
  {
    Client(c.fd, HandleLines(cache, c.conn, ReadCommands(bytes)))
  }

  /** Every client after its read: served when the read returned bytes, else as it was. */
  function ServeAll(cache: Cache, clients: seq<Client>, outcomes: seq<ReadResult>): (served: seq<Client>)
    requires Valid(cache)
    requires |outcomes| == |clients|
    ensures SameFds(clients, served)
  {
    seq(|clients|, i requires 0 <= i < |clients| =>
      if BytesRead(outcomes[i]) > 0 then Served(cache, clients[i], outcomes[i].bytes) else clients[i])
  }

  /** `served` holds one client per client, on the same descriptor. */
  predicate SameFds(clients: seq<Client>, served: seq<Client>) {
    |served| == |clients| && forall i :: 0 <= i < |clients| ==> served[i].fd == clients[i].fd
  }

  /** Where each client goes after its read: closed (its descriptor recorded)
      when the read returned 0 or less, otherwise kept in its served form. */
  function Route(clients: seq<Client>, outcomes: seq<ReadResult>, served: seq<Client>): (r: PollOutcome)
    requires |outcomes| == |clients| == |served|
    ensures |r.clients| + |r.closed| == |clients|
    decreases |clients|
  {
    if |clients| == 0 then PollOutcome([], [])
    else
      var rest := Route(clients[1..], outcomes[1..], served[1..]);
      if BytesRead(outcomes[0]) <= 0 then PollOutcome(rest.clients, [clients[0].fd] + rest.closed)
      else PollOutcome([served[0]] + rest.clients, rest.closed)
  }

  /** `process_clients`: a client whose read returns 0 or less (end of file, an
      error, or a read that would block) is closed and removed, the others keep
      their order; every complete line of a successful read is dispatched. */
  function ProcessClients(cache: Cache, clients: seq<Client>, outcomes: seq<ReadResult>): (r: PollOutcome)
    requires Valid(cache)
    requires |outcomes| == |clients|
    ensures |r.clients| + |r.closed| == |clients|
  {
    Route(clients, outcomes, ServeAll(cache, clients, outcomes))
  }

  lemma {:induction false} RouteKeepsOrder(clients: seq<Client>, outcomes: seq<ReadResult>, served: seq<Client>)
    requires |outcomes| == |clients| && SameFds(clients, served)
    ensures IsSubsequence(Fds(Route(clients, outcomes, served).clients), Fds(clients))
    decreases |clients|
  {
    if |clients| > 0 {
      var rest := Route(clients[1..], outcomes[1..], served[1..]);
      RouteKeepsOrder(clients[1..], outcomes[1..], served[1..]);
      FdsOfTail(clients);
      if BytesRead(outcomes[0]) > 0 {
        assert Fds([served[0]] + rest.clients) == [clients[0].fd] + Fds(rest.clients);
      }
    }
  }

  /** The survivors keep their relative order. */
  lemma SurvivorsKeepOrder(cache: Cache, clients: seq<Client>, outcomes: seq<ReadResult>)
    requires Valid(cache) && |outcomes| == |clients|
    ensures IsSubsequence(Fds(ProcessClients(cache, clients, outcomes).clients), Fds(clients))
  {
    RouteKeepsOrder(clients, outcomes, ServeAll(cache, clients, outcomes));
  }

  lemma {:induction false} RouteSends(clients: seq<Client>, outcomes: seq<ReadResult>, served: seq<Client>, i: nat)
    requires |outcomes| == |clients| == |served| && i < |clients|
    ensures var r := Route(clients, outcomes, served);
      && (BytesRead(outcomes[i]) <= 0 ==> clients[i].fd in r.closed)
      && (BytesRead(outcomes[i]) > 0 ==> served[i] in r.clients)
    decreases i
  {
    if i > 0 {
      RouteSends(clients[1..], outcomes[1..], served[1..], i - 1);
      assert clients[1..][i - 1] == clients[i] && outcomes[1..][i - 1] == outcomes[i];
      assert served[1..][i - 1] == served[i];
    }
  }

  /** Each client ends up exactly where its read sends it: closed when the read
      returned 0 or less, served with its commands otherwise. */
  lemma ProcessClientsRoutes(cache: Cache, clients: seq<Client>, outcomes: seq<ReadResult>, i: nat)
    requires Valid(cache) && |outcomes| == |clients| && i < |clients|
    ensures var r := ProcessClients(cache, clients, outcomes);
      && (BytesRead(outcomes[i]) <= 0 ==> clients[i].fd in r.closed)
      && (BytesRead(outcomes[i]) > 0 ==> Served(cache, clients[i], outcomes[i].bytes) in r.clients)
  {
    RouteSends(clients, outcomes, ServeAll(cache, clients, outcomes), i);
  }

  lemma {:induction false} RouteFromClients(clients: seq<Client>, outcomes: seq<ReadResult>, served: seq<Client>)
    requires |outcomes| == |clients| && SameFds(clients, served)
    ensures forall k :: 0 <= k < |Route(clients, outcomes, served).clients| ==>
      Route(clients, outcomes, served).clients[k].fd in Fds(clients)
    ensures forall k :: 0 <= k < |Route(clients, outcomes, served).closed| ==>
      Route(clients, outcomes, served).closed[k] in Fds(clients)
    decreases |clients|
  {
    if |clients| > 0 {
      var r := Route(clients, outcomes, served);
      var rest := Route(clients[1..], outcomes[1..], served[1..]);
      RouteFromClients(clients[1..], outcomes[1..], served[1..]);
      FdsOfTail(clients);
      assert Fds(clients)[0] == clients[0].fd;
      if BytesRead(outcomes[0]) <= 0 {
        assert r.clients == rest.clients;
        forall k | 1 <= k < |r.closed| ensures r.closed[k] in Fds(clients) {
          assert r.closed[k] == rest.closed[k - 1];
        }
      } else {
        assert r.closed == rest.closed;
        forall k | 1 <= k < |r.clients| ensures r.clients[k].fd in Fds(clients) {
          assert r.clients[k] == rest.clients[k - 1];
        }
      }
    }
  }

  /** Nothing is invented: every survivor and every closed descriptor was a client. */
  lemma ProcessClientsFromClients(cache: Cache, clients: seq<Client>, outcomes: seq<ReadResult>)
    requires Valid(cache) && |outcomes| == |clients|
    ensures forall k :: 0 <= k < |ProcessClients(cache, clients, outcomes).clients| ==>
      ProcessClients(cache, clients, outcomes).clients[k].fd in Fds(clients)
    ensures forall k :: 0 <= k < |ProcessClients(cache, clients, outcomes).closed| ==>
      ProcessClients(cache, clients, outcomes).closed[k] in Fds(clients)
  {
    RouteFromClients(clients, outcomes, ServeAll(cache, clients, outcomes));
  }

  lemma FdsOfTail(clients: seq<Client>)
    requires |clients| > 0
    ensures Fds(clients) == [clients[0].fd] + Fds(clients[1..])
    ensures forall x :: x in Fds(clients[1..]) ==> x in Fds(clients)
  {
    assert Fds(clients) == [clients[0].fd] + Fds(clients[1..]);
  }

  lemma {:induction false} RouteRemovesFailed(clients: seq<Client>, outcomes: seq<ReadResult>, served: seq<Client>, i: nat)
    requires |outcomes| == |clients| && SameFds(clients, served) && FdsUnique(clients)
    requires i < |clients| && BytesRead(outcomes[i]) <= 0
    ensures clients[i].fd !in Fds(Route(clients, outcomes, served).clients)
    decreases |clients|
  {
    var r := Route(clients, outcomes, served);
    var rest := Route(clients[1..], outcomes[1..], served[1..]);
    RouteFromClients(clients[1..], outcomes[1..], served[1..]);
    if i == 0 {
      forall k | 0 <= k < |rest.clients| ensures rest.clients[k].fd != clients[0].fd {
        var fd := rest.clients[k].fd;
        assert fd in Fds(clients[1..]);
        var j :| 0 <= j < |clients[1..]| && Fds(clients[1..])[j] == fd;
        assert clients[j + 1].fd == fd;
      }
      assert Fds(r.clients) == Fds(rest.clients);
    } else {
      RouteRemovesFailed(clients[1..], outcomes[1..], served[1..], i - 1);
      assert clients[1..][i - 1] == clients[i];
      if BytesRead(outcomes[0]) > 0 {
        assert Fds(r.clients) == [served[0].fd] + Fds(rest.clients);
      } else {
        assert Fds(r.clients) == Fds(rest.clients);
      }
    }
  }

  /** A removed client is gone for good: with distinct descriptors, a client
      whose read failed is not among the survivors. */
  lemma FailedReadRemoves(cache: Cache, clients: seq<Client>, outcomes: seq<ReadResult>, i: nat)
    requires Valid(cache) && |outcomes| == |clients| && FdsUnique(clients)
    requires i < |clients| && BytesRead(outcomes[i]) <= 0
    ensures clients[i].fd !in Fds(ProcessClients(cache, clients, outcomes).clients)
  {
    RouteRemovesFailed(clients, outcomes, ServeAll(cache, clients, outcomes), i);
  }

  /** Closing on "would block" is what the code does: a client with nothing to
      say in this poll is disconnected. */
  lemma WouldBlockCloses(cache: Cache, c: Client)
    requires Valid(cache)
    ensures ProcessClients(cache, [c], [ReadError(true)]) == PollOutcome([], [c.fd])
  {
  }

  /** QUIT neither replies nor closes: the client stays connected and unchanged. */
  lemma QuitKeepsClient(cache: Cache, c: Client)
    requires Valid(cache)
    ensures ProcessClients(cache, [c], [Data("QUIT\n")]) == PollOutcome([c], [])
  {
    assert ReadCommands("QUIT\n") == ["QUIT"] by {
      assert BeforeNul("QUIT\n") == "QUIT\n";
      SplitJoin(["QUIT"], "");
      assert JoinLines(["QUIT"]) == "QUIT\n";
    }
    assert HasPrefix("QUIT", "QUIT") && !HasPrefix("QUIT", "TOP") && !HasPrefix("QUIT", "HISTORY");
  }

  /** A command split across two outcomes is lost: "TO" then "P\n" dispatches only
      the line "P", which is answered with the error line. */
  lemma SplitCommandIsLost()
    ensures ReadCommands("TO") == []
    ensures ReadCommands("P\n") == ["P"]
    ensures Classify("P") == Unknown
  {
    SplitJoin([], "TO");
    SplitJoin(["P"], "");
    assert JoinLines(["P"]) == "P\n";
    assert BeforeNul("TO") == "TO" && BeforeNul("P\n") == "P\n";
  }

  // ---------------------------------------------------------------- sampling step

  /** The daemon's state between ticks. */
  datatype Daemon = Daemon(table: seq<ProcessRecord>, prevTotal: uint64, cache: Cache, clients: seq<Client>)

  predicate Good(d: Daemon) {
    Valid(d.cache) && PidUnique(d.table)
  }

  /** One sampling tick: scan, build the snapshot from the (re-sorted) table,
      write it to the cache. A scan with an unreadable total leaves the table as
      it is (as does an unopenable process directory), but a snapshot is still
      built and written. */
  function SampleTick(d: Daemon, total: uint64, dir: Option<seq<ProcEntry>>, now: int): (d': Daemon)
    requires Good(d)
    ensures Good(d')
    ensures d'.clients == d.clients
    ensures d'.prevTotal == (if total == 0 || dir.None? then d.prevTotal else total)
    ensures multiset(d'.table) == multiset(ScanProcesses(d.table, d.prevTotal, total, dir).0)
    ensures Ordered(d'.cache) == Ordered(d.cache)[1..] + [Latest(d'.cache)]
    ensures Latest(d'.cache).timestamp == now && WellFormed(Latest(d'.cache))
    ensures SortedByCpu(d'.table)
    ensures Latest(d'.cache).totalJiffies == d'.prevTotal
    ensures |Latest(d'.cache).entries| == Min(|d'.table|, TOP_N)
    ensures forall i :: 0 <= i < |Latest(d'.cache).entries| ==> Latest(d'.cache).entries[i] == ToEntry(d'.table[i])
  {
    var (table1, total1) := ScanProcesses(d.table, d.prevTotal, total, dir);
    ScanKeepsPidsUnique(d.table, d.prevTotal, total, dir);
    var (snap, sorted) := BuildSnapshot(table1, total1, now);
    SortKeepsPidsUnique(table1, sorted);
    var cache' := RingCache.Write(d.cache, snap);
    WriteRotates(d.cache, snap);
    LatestAfterWrite(d.cache, snap);
    Daemon(sorted, total1, cache', d.clients)
  }

  lemma ScanKeepsPidsUnique(table: seq<ProcessRecord>, prevTotal: uint64, total: uint64, dir: Option<seq<ProcEntry>>)
    requires PidUnique(table)
    ensures PidUnique(ScanProcesses(table, prevTotal, total, dir).0)
  {
    if total != 0 && dir.Some? { ScanTableContents(table, prevTotal, total, dir.value); }
  }

  /** Reordering a table keeps its pids unique. */
  lemma SortKeepsPidsUnique(a: seq<ProcessRecord>, b: seq<ProcessRecord>)
    requires PidUnique(a) && multiset(a) == multiset(b)
    ensures PidUnique(b)
  {
    forall i, j | 0 <= i < j < |b| ensures b[i].pid != b[j].pid {
      assert b[i] in multiset(a) && b[j] in multiset(a);
      var i' :| 0 <= i' < |a| && a[i'] == b[i];
      var j' :| 0 <= j' < |a| && a[j'] == b[j];
      if i' == j' {
        TwoCopies(b, i, j);
        UniqueCountsOnce(a, i');
      }
    }
  }

  lemma TwoCopies<T>(s: seq<T>, i: nat, j: nat)
    requires i < j < |s|
    ensures s[i] == s[j] ==> multiset(s)[s[i]] >= 2
  {
    assert s == s[..i] + [s[i]] + s[i + 1..j] + [s[j]] + s[j + 1..];
  }

  lemma UniqueCountsOnce(a: seq<ProcessRecord>, i: nat)
    requires PidUnique(a) && i < |a|
    ensures multiset(a)[a[i]] == 1
  {
    assert a == a[..i] + [a[i]] + a[i + 1..];
    assert a[i] !in a[..i] by {
      forall k | 0 <= k < i ensures a[k] != a[i] { assert a[k].pid != a[i].pid; }
    }
    assert a[i] !in a[i + 1..] by {
      forall k | i + 1 <= k < |a| ensures a[k] != a[i] { assert a[i].pid != a[k].pid; }
    }
    assert multiset(a) == multiset(a[..i]) + multiset{a[i]} + multiset(a[i + 1..]);
  }

  /** After a tick, TOP on a healthy connection sends the block of the snapshot
      just built. */
  lemma TopAfterTick(d: Daemon, total: uint64, dir: Option<seq<ProcEntry>>, now: int, c: Conn)
    requires Good(d) && Healthy(c)
    ensures var d' := SampleTick(d, total, dir, now);
      HandleCommand(d'.cache, c, "TOP").sent == c.sent + BlockText(Latest(d'.cache))
  {
    var d' := SampleTick(d, total, dir, now);
    assert HasPrefix("TOP", "TOP");
    HealthyReplies(d'.cache, c, "TOP");
  }
}

/** The snapshot cache (collector/collector.c, `init_cache` and
    `write_snapshot_to_cache`, and the slot arithmetic of `handle_client_command`):
    a header plus a ring of 60 snapshot slots with a cursor at the next slot to
    overwrite. The memory-mapped file is modelled as the header and the slots. */
module RingCache {
  import opened Machine
  import opened Wrappers
  import opened Snapshots
  import opened Sequences

  const CACHE_MAGIC: uint32 := 0x47415443
  const CACHE_VERSION: uint32 := 1
  const RING_SLOTS: nat := 60
  /** `sizeof(Snapshot)` on an LP64 target: 8 (time_t) + 8 + 4 + 10 * 268 bytes,
      padded to a multiple of 8. */
  const SLOT_SIZE: uint32 := 2704

  datatype CacheHeader = CacheHeader(magic: uint32, version: uint32, slotSize: uint32,
                                     numSlots: uint32, writeIndex: uint32)

  datatype Cache = Cache(header: CacheHeader, slots: seq<Snapshot>)

  /** The shape every cache the daemon works with has after `init_cache`. */
  predicate Valid(c: Cache) {
    && c.header.numSlots as nat == RING_SLOTS
    && |c.slots| == RING_SLOTS
    && c.header.writeIndex as nat < RING_SLOTS
  }

  // ---------------------------------------------------------------- init_cache

  /** The backing file as `init_cache` finds it: whether each system call would
      fail, and the snapshots its bytes already hold. */
  datatype BackingFile = BackingFile(openFails: bool, resizeFails: bool, mapFails: bool,
                                     contents: seq<Snapshot>)

  datatype InitError = OpenFailed | ResizeFailed | MapFailed

  /** `ftruncate` to the ring's size: slots beyond the ring are cut off and
      missing slots read as zero bytes, i.e. as empty snapshots. */
  function ResizeSlots(contents: seq<Snapshot>): (slots: seq<Snapshot>)
    ensures |slots| == RING_SLOTS
    ensures forall i :: 0 <= i < RING_SLOTS ==>
      slots[i] == (if i < |contents| then contents[i] else EMPTY_SNAPSHOT)
  {
    seq(RING_SLOTS, i requires 0 <= i < RING_SLOTS => if i < |contents| then contents[i] else EMPTY_SNAPSHOT)
  }

  /** `init_cache`: fail on the first failing system call; otherwise always write
      a fresh header with the cursor at 0, whatever the file held, and keep the
      slot contents the file already had. */
  function InitCache(f: BackingFile): (r: Result<Cache, InitError>)
    ensures r.Failure? <==> f.openFails || f.resizeFails || f.mapFails
    ensures f.openFails ==> r == Failure(OpenFailed)
    ensures r.Success? ==>
      && Valid(r.value)
      && r.value.header == CacheHeader(CACHE_MAGIC, CACHE_VERSION, SLOT_SIZE, RING_SLOTS as uint32, 0)
      && r.value.slots == ResizeSlots(f.contents)
  {
    if f.openFails then Failure(OpenFailed)
    else if f.resizeFails then Failure(ResizeFailed)
    else if f.mapFails then Failure(MapFailed)
    else Success(Cache(CacheHeader(CACHE_MAGIC, CACHE_VERSION, SLOT_SIZE, RING_SLOTS as uint32, 0),
                       ResizeSlots(f.contents)))
  }

  /** Restarting the daemon on a cache file of the right size keeps every old
      snapshot but rewinds the cursor to slot 0. */
  lemma RestartKeepsSlots(f: BackingFile)
    requires !f.openFails && !f.resizeFails && !f.mapFails
    requires |f.contents| == RING_SLOTS
    ensures InitCache(f).Success?
    ensures InitCache(f).value.slots == f.contents
    ensures InitCache(f).value.header.writeIndex == 0
  {
  }

  // ---------------------------------------------------------------- writing and reading

  /** `write_snapshot_to_cache`: overwrite the slot under the cursor, then advance
      the cursor modulo the slot count. Nothing else changes. */
  function Write(c: Cache, snap: Snapshot): (c': Cache)
    requires Valid(c)
    ensures Valid(c')
    ensures c'.header == c.header.(writeIndex := c'.header.writeIndex)
    ensures c'.slots[c.header.writeIndex] == snap
    ensures forall i :: 0 <= i < RING_SLOTS && i != c.header.writeIndex as nat ==> c'.slots[i] == c.slots[i]
    ensures c'.header.writeIndex as nat == (c.header.writeIndex as nat + 1) % RING_SLOTS
  {
    var wi := c.header.writeIndex;
    Cache(c.header.(writeIndex := (wi + 1) % c.header.numSlots), c.slots[wi := snap])
  }

  /** The slot TOP reads: the one just before the cursor, computed in `unsigned int`. */
  function LatestIndex(c: Cache): (i: nat)
    requires Valid(c)
    ensures i < RING_SLOTS
    ensures (i + 1) % RING_SLOTS == c.header.writeIndex as nat
  {
    Wrap32(c.header.writeIndex + c.header.numSlots - 1) % c.header.numSlots
  }

  function Latest(c: Cache): Snapshot
    requires Valid(c)
  {
    c.slots[LatestIndex(c)]
  }

  /** The slots from the oldest (under the cursor) to the newest (just before it). */
  function Ordered(c: Cache): (s: seq<Snapshot>)
    requires Valid(c)
    ensures |s| == RING_SLOTS
  {
    seq(RING_SLOTS, i requires 0 <= i < RING_SLOTS => c.slots[(c.header.writeIndex as nat + i) % RING_SLOTS])
  }

  /** The snapshots HISTORY sends: slots whose timestamp is positive, kept in order. */
  function Live(s: seq<Snapshot>): (r: seq<Snapshot>)
    ensures |r| <= |s|
    ensures forall k :: 0 <= k < |r| ==> r[k].timestamp > 0 && r[k] in s
    decreases |s|
  {
    if |s| == 0 then []
    else (if s[0].timestamp > 0 then [s[0]] else []) + Live(s[1..])
  }

  /** `Live` keeps exactly the written slots: every slot with a positive
      timestamp as often as it occurs, and no other slot. */
  lemma {:induction false} LiveIsWrittenSlots(s: seq<Snapshot>)
    ensures forall x: Snapshot :: x.timestamp > 0 ==> multiset(Live(s))[x] == multiset(s)[x]
    ensures forall x: Snapshot :: x.timestamp <= 0 ==> multiset(Live(s))[x] == 0
    decreases |s|
  {
    if |s| > 0 {
      LiveIsWrittenSlots(s[1..]);
      LiveCountStep(s);
    }
  }

  /** One step of the walk: the first slot is counted once if it was written. */
  lemma LiveCountStep(s: seq<Snapshot>)
    requires |s| > 0
    ensures multiset(s) == multiset{s[0]} + multiset(s[1..])
    ensures multiset(Live(s)) == (if s[0].timestamp > 0 then multiset{s[0]} else multiset{}) + multiset(Live(s[1..]))
  {
    var head := if s[0].timestamp > 0 then [s[0]] else [];
    assert multiset(Live(s)) == multiset(head) + multiset(Live(s[1..])) by {
      assert Live(s) == head + Live(s[1..]);
    }
    MultisetOfCons(s);
  }

  /** `Live` keeps the slots in the order it walks them. */
  lemma {:induction false} LiveKeepsOrder(s: seq<Snapshot>)
    ensures IsSubsequence(Live(s), s)
    decreases |s|
  {
    if |s| > 0 {
      var t := Live(s[1..]);
      LiveKeepsOrder(s[1..]);
      if s[0].timestamp > 0 {
        assert Live(s) == [s[0]] + t;
        assert Live(s)[1..] == t;
      } else {
        assert Live(s) == t;
      }
    }
  }

  /** HISTORY's walk: `num_slots` steps from the cursor, skipping slots whose
      timestamp is not positive. */
  function History(c: Cache): (h: seq<Snapshot>)
    requires Valid(c)
    ensures |h| <= RING_SLOTS
    ensures forall k :: 0 <= k < |h| ==> h[k].timestamp > 0 && h[k] in c.slots
    ensures h == Live(Ordered(c))
    ensures forall i :: 0 <= i < RING_SLOTS ==> Ordered(c)[i] == c.slots[(c.header.writeIndex as nat + i) % RING_SLOTS]
  {
    var o := Ordered(c);
    assert forall k :: 0 <= k < |o| ==> o[k] in c.slots;
    Live(o)
  }

  /** The slot before the cursor is the last of the oldest-first order. */
  lemma LatestIsNewest(c: Cache)
    requires Valid(c)
    ensures Latest(c) == Ordered(c)[RING_SLOTS - 1]
  {
    var wi := c.header.writeIndex as nat;
    assert (wi + RING_SLOTS - 1) % RING_SLOTS == LatestIndex(c);
  }

  /** Writing drops the oldest slot from the front of the order and appends the
      new snapshot at the back. */
  lemma WriteRotates(c: Cache, snap: Snapshot)
    requires Valid(c)
    ensures Ordered(Write(c, snap)) == Ordered(c)[1..] + [snap]
  {
    var c' := Write(c, snap);
    var wi := c.header.writeIndex as nat;
    var o, o' := Ordered(c), Ordered(c');
    forall i | 0 <= i < RING_SLOTS
      ensures o'[i] == (o[1..] + [snap])[i]
    {
      var k := (wi + 1 + i) % RING_SLOTS;
      assert o'[i] == c'.slots[k];
      if i < RING_SLOTS - 1 {
        assert k != wi;
        assert o[i + 1] == c.slots[k];
      } else {
        assert k == wi;
      }
    }
  }

  /** TOP right after a write sends the snapshot just written. */
  lemma LatestAfterWrite(c: Cache, snap: Snapshot)
    requires Valid(c)
    ensures Latest(Write(c, snap)) == snap
  {
    WriteRotates(c, snap);
    LatestIsNewest(Write(c, snap));
  }

  /** Writing a sequence of snapshots one after the other. */
  function WriteAll(c: Cache, ws: seq<Snapshot>): (c': Cache)
    requires Valid(c)
    ensures Valid(c')
    decreases |ws|
  {
    if |ws| == 0 then c else WriteAll(Write(c, ws[0]), ws[1..])
  }

  /** The ring always holds the last 60 snapshots of everything ever written,
      oldest first. */
  lemma {:induction false} WriteAllKeepsLastSlots(c: Cache, ws: seq<Snapshot>)
    requires Valid(c)
    ensures Ordered(WriteAll(c, ws)) == (Ordered(c) + ws)[|ws|..]
    decreases |ws|
  {
    if |ws| > 0 {
      var c1 := Write(c, ws[0]);
      WriteRotates(c, ws[0]);
      WriteAllKeepsLastSlots(c1, ws[1..]);
      assert Ordered(c1) + ws[1..] == (Ordered(c) + ws)[1..];
    }
  }

  lemma {:induction false} LiveAppend(a: seq<Snapshot>, b: seq<Snapshot>)
    ensures Live(a + b) == Live(a) + Live(b)
    decreases |a|
  {
    if |a| > 0 {
      var head := if a[0].timestamp > 0 then [a[0]] else [];
      var tail := Live(a[1..] + b);
      assert Live(a + b) == head + tail by {
        assert (a + b)[0] == a[0];
        assert (a + b)[1..] == a[1..] + b;
      }
      assert tail == Live(a[1..]) + Live(b) by { LiveAppend(a[1..], b); }
      assert Live(a) == head + Live(a[1..]);
      ConcatAssoc(head, Live(a[1..]), Live(b));
    } else {
      assert a + b == b;
    }
  }

  lemma {:induction false} LiveOfWritten(s: seq<Snapshot>)
    requires forall k :: 0 <= k < |s| ==> s[k].timestamp > 0
    ensures Live(s) == s
    decreases |s|
  {
    if |s| > 0 {
      LiveOfWritten(s[1..]);
    }
  }

  lemma {:induction false} LiveOfUnwritten(s: seq<Snapshot>)
    requires forall k :: 0 <= k < |s| ==> s[k].timestamp <= 0
    ensures Live(s) == []
    decreases |s|
  {
    if |s| > 0 {
      LiveOfUnwritten(s[1..]);
    }
  }

  /** A cache holding no snapshot yet (every timestamp 0, as a new file reads).
      The cursor may be anywhere. */
  predicate Unwritten(c: Cache) {
    forall i :: 0 <= i < |c.slots| ==> c.slots[i].timestamp <= 0
  }

  lemma OrderedOfUnwritten(c: Cache)
    requires Valid(c) && Unwritten(c)
    ensures forall k :: 0 <= k < RING_SLOTS ==> Ordered(c)[k].timestamp <= 0
  {
    var o := Ordered(c);
    forall k | 0 <= k < RING_SLOTS ensures o[k].timestamp <= 0 {
      assert o[k] == c.slots[(c.header.writeIndex as nat + k) % RING_SLOTS];
    }
  }

  /** HISTORY after writing `ws` (all stamped with positive times) into a cache
      that held nothing: exactly the last `min(|ws|, 60)` of them, in write order;
      anything written 60 writes ago or earlier is gone. */
  lemma HistoryIsLastWrites(c: Cache, ws: seq<Snapshot>)
    requires Valid(c) && Unwritten(c)
    requires forall k :: 0 <= k < |ws| ==> ws[k].timestamp > 0
    ensures |ws| <= RING_SLOTS ==> History(WriteAll(c, ws)) == ws
    ensures |ws| > RING_SLOTS ==> History(WriteAll(c, ws)) == ws[|ws| - RING_SLOTS..]
  {
    WriteAllKeepsLastSlots(c, ws);
    OrderedOfUnwritten(c);
    assert History(WriteAll(c, ws)) == Live((Ordered(c) + ws)[|ws|..]);
    if |ws| <= RING_SLOTS {
      FewWritesAllLive(Ordered(c), ws);
    } else {
      var kept := (Ordered(c) + ws)[|ws|..];
      assert kept == ws[|ws| - RING_SLOTS..];
      LiveOfWritten(kept);
    }
  }

  /** Fewer writes than slots: the stale zero slots drop out, the writes stay. */
  lemma FewWritesAllLive(o: seq<Snapshot>, ws: seq<Snapshot>)
    requires |ws| <= |o|
    requires forall k :: 0 <= k < |o| ==> o[k].timestamp <= 0
    requires forall k :: 0 <= k < |ws| ==> ws[k].timestamp > 0
    ensures Live((o + ws)[|ws|..]) == ws
  {
    var stale := o[|ws|..];
    assert (o + ws)[|ws|..] == stale + ws;
    LiveAppend(stale, ws);
    LiveOfUnwritten(stale);
    LiveOfWritten(ws);
  }
}

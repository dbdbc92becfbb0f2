/** From a live heap to a decoded report. */
module EndToEnd {
  import opened Words
  import opened Options
  import opened AllocTable
  import opened TrackerState
  import opened TrackerRuns
  import opened KeyHistory
  import opened Mts1Format
  import opened Mts1Decoder
  import opened Snapshot
  import opened Sorting
  import F = Frames
  import R = FrameReader
  import T = Tracker
  import P = Replay
  import V = ViewerModel

  function StatsOf(c: Core, fragAvailable: bool): Stats {
    Stats(c.current, c.peak, c.totalAllocs, c.totalFrees, c.seqNo, fragAvailable, c.drops)
  }

  /** The snapshot of a tracker's own table. */
  method SnapshotWrite(t: T.Tracker, fragAvailable: bool, out: array<Byte>) returns (written: nat, ghost rs: seq<Rec>)
    requires t.Ready() && t.allocs.Length < TWO_32
    modifies out
    ensures |rs| <= t.allocs.Length && Listing(t.Now().core.slots, rs)
    ensures rs == SortedUsed(t.Now().core.slots) <==> IndicesFit(t.Now().core.slots)
    ensures written == 0 <==> out.Length < 36
    ensures written <= out.Length && forall k | written <= k < out.Length :: out[k] == old(out[k])
    ensures written > 0 ==>
              out[..written] == SnapshotBytes(StatsOf(t.Now().core, fragAvailable), rs, out.Length)
  {
    RunWellFormed(t.hash, t.allocs.Length, t.events);
    var st := Stats(t.current, t.peak, t.totalAllocs, t.totalFrees, t.seqNo, fragAvailable, t.drops);
    assert t.Fields() == t.Now().core;
    written, rs := Write(t.allocs, st, out);
  }

  lemma {:induction false} SortedUsedSize(slots: seq<Rec>)
    ensures |SortedUsed(slots)| == Sum(slots, UsedWeight)
  {
    if slots != [] {
      SortedUsedSize(slots[..|slots| - 1]);
      InsertSize(SortedUsed(slots[..|slots| - 1]), slots[|slots| - 1]);
    }
  }

  lemma {:induction false} InsertSize(rs: seq<Rec>, r: Rec)
    ensures |InsertByPtr(rs, r)| == |rs| + 1
  {
    if rs != [] {
      InsertSize(rs[1..], r);
    }
  }

  /** A sealed snapshot verifies, parses to what was put in, and satisfies the Python decoder. */
  lemma SnapshotDecodes(st: Stats, rs: seq<Rec>, cap: nat)
    requires HEADER_SIZE <= cap < TWO_32 && |rs| < TWO_32
    ensures var b, hdr, ws := SnapshotBytes(st, rs, cap), SnapshotHeader(st, rs, cap), SnapshotRecords(rs, cap);
            && 36 <= |b| <= cap
            && Parse(b) == Some(Snap(hdr, ws))
            && CrcVerified(b, hdr)
            && PyDecode(b).Valid? && PyDecode(b).hdr == hdr
  {
    var b, hdr, ws := SnapshotBytes(st, rs, cap), SnapshotHeader(st, rs, cap), SnapshotRecords(rs, cap);
    assert b + [] == b;
    WrittenIsParsed(Snap(hdr, ws), []);
    SealedVerifies(Unsealed(st, HEADER_SIZE + |rs| * RECORD_SIZE > cap, FinalCount(|rs|, cap)), ws);
    DecodersAgree(b);
  }

  lemma SealedVerifies(h: Header, ws: seq<WireRec>)
    ensures CrcVerified(PutSnapshot(Seal(h, ws), ws), Seal(h, ws))
  {
    var b := PutSnapshot(Seal(h, ws), ws);
    assert b[..32] == PutFields(Seal(h, ws)) == PutFields(h);
    assert b[36..] == PutRecords(ws);
  }

  /** What a decoded snapshot says of a tracker whose USED records are rs by ascending pointer. */
  ghost predicate Reports(s: Snap, c: Core, fragAvailable: bool, rs: seq<Rec>, cap: nat) {
    var h, n := s.hdr, |s.records|;
    && h.version == 1 && h.count == n <= |rs|
    && h.current == c.current && h.peak == c.peak
    && h.totalAllocs == c.totalAllocs % TWO_32 && h.totalFrees == c.totalFrees % TWO_32
    && h.seqNo == c.seqNo % TWO_32
    && 36 + 24 * n <= cap && (n < |rs| ==> 36 + 24 * (n + 1) > cap)
    && (h.flags % 2 == 1 <==> n < |rs|)
    && (h.flags / 2 % 2 == 1 <==> !fragAvailable)
    && (h.flags / 4 % 2 == 1 <==> c.drops > 0)
    && h.flags / 8 == 1
    && forall i :: 0 <= i < n ==>
         s.records[i] == WireRec(rs[i].ptr, rs[i].size, rs[i].fileId, rs[i].line, 1, 0, rs[i].seqNo % TWO_32)
  }

  lemma FlagBits(st: Stats, overflow: bool)
    ensures var f := FlagsOf(st, overflow);
            && (f % 2 == 1 <==> overflow) && (f / 2 % 2 == 1 <==> !st.fragAvailable)
            && (f / 4 % 2 == 1 <==> st.drops > 0) && f / 8 == 1
  {
  }

  lemma SnapshotReports(c: Core, fragAvailable: bool, rs: seq<Rec>, cap: nat)
    requires HEADER_SIZE <= cap && |rs| < TWO_32
    ensures var st := StatsOf(c, fragAvailable);
            Reports(Snap(SnapshotHeader(st, rs, cap), SnapshotRecords(rs, cap)), c, fragAvailable, rs, cap)
  {
    var st := StatsOf(c, fragAvailable);
    FlagBits(st, HEADER_SIZE + |rs| * RECORD_SIZE > cap);
  }

  /** For every reachable tracker, the records rs its snapshot lists, every buffer the sender can carry, any
      garbage without the magic before it and anything after it: the frame read back is sound and its payload
      decodes, both checksums passing and both decoders accepting, to the tracker's statistics and as many of
      rs as fit, from the smallest pointer. These are the USED records exactly when none lies past slot 65535. */
  lemma HeapToReport(hash: Hash, n: nat, es: seq<Event>, fragAvailable: bool, rs: seq<Rec>, cap: nat,
                     seqNo: U32, garbage: seq<Byte>, rest: seq<Byte>)
    requires 0 < n < TWO_32 && LegalRun(hash, n, es) && 36 <= cap <= F.TX_MAX_PAYLOAD
    requires Listing(Run(hash, n, es).core.slots, rs) && R.MagicFree(garbage)
    ensures var core := Run(hash, n, es).core;
            && |rs| <= n && Sorted(rs, PtrBefore) && (Lists(rs, core.slots) <==> IndicesFit(core.slots))
            && var b := SnapshotBytes(StatsOf(core, fragAvailable), rs, cap);
               var o := R.ReadFrame(garbage + F.FrameBytes(F.TYPE_SNAPSHOT, seqNo, b) + rest);
               && o.Got? && o.resync == |garbage| && o.frame.crcOk
               && o.frame.hdr.seqNo == seqNo && o.frame.hdr.kind == F.TYPE_SNAPSHOT
               && |o.frame.payload| <= cap && Parse(o.frame.payload).Some?
               && var s := Parse(o.frame.payload).value;
                  && CrcVerified(o.frame.payload, s.hdr) && PyDecode(o.frame.payload).Valid?
                  && Reports(s, core, fragAvailable, rs, cap)
  {
    RunWellFormed(hash, n, es);
    var core := Run(hash, n, es).core;
    var st := StatsOf(core, fragAvailable);
    ListingSize(core.slots, rs);
    ListingListsIff(core.slots, rs);
    SnapshotDelivers(st, rs, cap, seqNo, garbage, rest);
    SnapshotReports(core, fragAvailable, rs, cap);
  }

  lemma ListingListsIff(slots: seq<Rec>, rs: seq<Rec>)
    requires Distinct(slots) && Listing(slots, rs)
    ensures Sorted(rs, PtrBefore) && (Lists(rs, slots) <==> IndicesFit(slots))
  {
    ListingExactIff(slots, rs);
    SortedUsedLists(slots);
    if Lists(rs, slots) {
      ListingUnique(rs, slots);
    }
  }

  lemma SnapshotDelivers(st: Stats, rs: seq<Rec>, cap: nat, seqNo: U32, garbage: seq<Byte>, rest: seq<Byte>)
    requires 36 <= cap <= F.TX_MAX_PAYLOAD && |rs| < TWO_32 && R.MagicFree(garbage)
    ensures var b := SnapshotBytes(st, rs, cap);
            var o := R.ReadFrame(garbage + F.FrameBytes(F.TYPE_SNAPSHOT, seqNo, b) + rest);
            && o.Got? && o.resync == |garbage| && o.frame.crcOk && o.frame.payload == b
            && o.frame.hdr.seqNo == seqNo && o.frame.hdr.kind == F.TYPE_SNAPSHOT
            && |b| <= cap && Parse(b) == Some(Snap(SnapshotHeader(st, rs, cap), SnapshotRecords(rs, cap)))
            && CrcVerified(b, SnapshotHeader(st, rs, cap)) && PyDecode(b).Valid?
  {
    SnapshotDecodes(st, rs, cap);
    R.DeliversFirst(R.Item(garbage, F.TYPE_SNAPSHOT, seqNo, SnapshotBytes(st, rs, cap)), rest);
  }

  lemma ListedAreLive(w: World, i: nat)
    requires Lists(SortedUsed(w.core.slots), w.core.slots) && RecordsLive(w.core.slots, w.live)
    requires i < |SortedUsed(w.core.slots)|
    ensures var r := SortedUsed(w.core.slots)[i]; r.ptr in w.live && Tells(r, w.live[r.ptr])
  {
    var r := SortedUsed(w.core.slots)[i];
    assert UsedIn(w.core.slots, r);
    var k :| 0 <= k < |w.core.slots| && w.core.slots[k] == r;
  }

  lemma TrackedAreListed(slots: seq<Rec>, p: U64) returns (i: nat)
    requires Lists(SortedUsed(slots), slots) && Tracked(slots, p)
    ensures i < |SortedUsed(slots)| && SortedUsed(slots)[i].ptr == p
  {
    var r := slots[IndexOf(slots, p).value];
    assert UsedIn(slots, r);
    i :| 0 <= i < |SortedUsed(slots)| && SortedUsed(slots)[i] == r;
  }

  /** The records of a tracker that has dropped nothing are the live heap. */
  lemma ListedIsHeap(hash: Hash, w: World)
    requires Inv(hash, w) && w.core.drops == 0
    ensures var rs := SortedUsed(w.core.slots);
            && |rs| == |w.live| && Ascending(rs, PtrBefore)
            && (forall i :: 0 <= i < |rs| ==> rs[i].ptr in w.live && Tells(rs[i], w.live[rs[i].ptr]))
            && (forall p :: p in w.live ==> exists i :: 0 <= i < |rs| && rs[i].ptr == p)
  {
    var slots, rs := w.core.slots, SortedUsed(w.core.slots);
    SortedUsedLists(slots);
    SortedUsedSize(slots);
    CountUsedPtrs(slots);
    UsedAreLive(w);
    assert UsedPtrs(slots) == w.live.Keys;
    forall i | 0 <= i < |rs|
      ensures rs[i].ptr in w.live && Tells(rs[i], w.live[rs[i].ptr])
    {
      ListedAreLive(w, i);
    }
    forall p | p in w.live
      ensures exists i :: 0 <= i < |rs| && rs[i].ptr == p
    {
      var i := TrackedAreListed(slots, p);
    }
  }

  lemma AllFit(rs: seq<Rec>, cap: nat)
    requires 36 + 24 * |rs| <= cap
    ensures SnapshotRecords(rs, cap) == WireAll(rs)
  {
    assert rs[..|rs|] == rs;
  }

  /** The wire record shows the block: size, call site, sequence number. */
  predicate Shows(r: WireRec, b: Block) {
    && ShowsSize(r.size, b.size, b.resized) && r.fileId == b.fileId && ShowsLine(r.line, b.line)
    && r.seqNo == b.stamp % 0x1_0000_0000
  }

  lemma WireShows(rs: seq<Rec>, i: nat, b: Block)
    requires i < |rs| && Tells(rs[i], b)
    ensures WireAll(rs)[i].ptr == rs[i].ptr && Shows(WireAll(rs)[i], b)
  {
    assert WireAll(rs)[i] == WireOf(rs[i]);
  }

  /** With room for all of them, never more than n blocks live at once and no record past slot 65535, the
      records are the live heap: each live block once, by ascending address, with its size, call site and
      sequence number. */
  lemma ReportIsHeap(hash: Hash, n: nat, es: seq<Event>, rs: seq<Rec>, cap: nat)
    requires 0 < n < TWO_32 && LegalRun(hash, n, es) && MaxLive(hash, n, es) <= n
    requires Listing(Run(hash, n, es).core.slots, rs) && IndicesFit(Run(hash, n, es).core.slots)
    requires 36 + 24 * |Run(hash, n, es).live| <= cap
    ensures var w := Run(hash, n, es); var ws := SnapshotRecords(rs, cap);
            && |ws| == |w.live|
            && (forall i, j :: 0 <= i < j < |ws| ==> ws[i].ptr < ws[j].ptr)
            && (forall i :: 0 <= i < |ws| ==> ws[i].ptr in w.live && Shows(ws[i], w.live[ws[i].ptr]))
            && (forall p :: p in w.live ==> exists i :: 0 <= i < |ws| && ws[i].ptr == p)
  {
    RunKeepsInv(hash, n, es);
    DropsIffOverCapacity(hash, n, es);
    ListingFits(Run(hash, n, es).core.slots, rs);
    ListedIsHeap(hash, Run(hash, n, es));
    AllFit(rs, cap);
    WiredHeap(rs, Run(hash, n, es).live);
  }

  const TO_65536: Hash := _ => 65536

  lemma LateRun(n: nat, a: U64)
    requires n > 65536 && a != 0
    ensures var es := [Malloc(8, 0, 0, a)]; var w := Run(TO_65536, n, es);
            && LegalRun(TO_65536, n, es) && w.live.Keys == {a}
            && w.core.slots == Lone(n, 65536, Rec(a, 8, 0, 0, Used, 1)) && w.core.drops == 0
  {
    var e := Malloc(8, 0, 0, a);
    assert [] + [e] == [e];
    RunExtends(TO_65536, n, [], e);
    InsertIsFirstFree(Start(n).core.slots, 65536, 0);
  }

  /** In any table of more than 65536 slots a first block that hashes to slot 65536 is reported as one block at
      address zero, from slot 0, and OVERFLOW does not tell. */
  lemma LateSlotExample(n: nat, a: U64, rs: seq<Rec>, st: Stats, cap: nat)
    requires n > 65536 && a != 0 && cap >= 60
    requires Listing(Run(TO_65536, n, [Malloc(8, 0, 0, a)]).core.slots, rs)
    ensures var es := [Malloc(8, 0, 0, a)]; var w := Run(TO_65536, n, es);
            && LegalRun(TO_65536, n, es) && w.live.Keys == {a} && w.core.drops == 0 && rs == [ZERO_REC]
            && SnapshotRecords(rs, cap) == [WireRec(0, 0, 0, 0, 1, 0, 0)]
            && SnapshotHeader(st, rs, cap).flags % 2 == 0
  {
    LateRun(n, a);
    LoneListing(Lone(n, 65536, Rec(a, 8, 0, 0, Used, 1)), rs, 65536);
    EmptyReport(rs, cap);
    OverflowFlag(st, rs, cap);
  }

  lemma EmptyReport(rs: seq<Rec>, cap: nat)
    requires rs == [ZERO_REC] && cap >= 60
    ensures FinalCount(|rs|, cap) == 1 && SnapshotRecords(rs, cap) == [WireRec(0, 0, 0, 0, 1, 0, 0)]
  {
    assert rs[..1] == rs;
  }

  // ---- Two runs with one heap ----

  /** Two runs of one tracker end with the same USED records and the same statistics. */
  ghost predicate Alike(hash: Hash, n: nat, es: seq<Event>, es': seq<Event>)
    requires n > 0
  {
    var c, c' := Run(hash, n, es).core, Run(hash, n, es').core;
    && LegalRun(hash, n, es) && LegalRun(hash, n, es')
    && SameUsed(c.slots, c'.slots) && StatsOf(c, true) == StatsOf(c', true)
  }

  const TO_65535: Hash := _ => 65535

  /** First x, then a in the next slot, then x goes. */
  function Lower(x: U64, a: U64): seq<Event> {
    [Malloc(0, 0, 0, x), Malloc(8, 0, 0, a), Free(x)]
  }

  /** x goes first, and a takes its slot. */
  function Reused(x: U64, a: U64): seq<Event> {
    [Malloc(0, 0, 0, x), Free(x), Malloc(8, 0, 0, a)]
  }

  lemma FirstAt65535(n: nat, x: U64)
    requires n > 65536 && x != 0
    ensures var w := Run(TO_65535, n, [Malloc(0, 0, 0, x)]);
            && LegalRun(TO_65535, n, [Malloc(0, 0, 0, x)]) && w.live.Keys == {x}
            && w.core == InitialCore(n).(slots := Lone(n, 65535, Rec(x, 0, 0, 0, Used, 1)),
                                         seqNo := 2, usedCount := 1, totalAllocs := 1)
  {
    var e := Malloc(0, 0, 0, x);
    assert [] + [e] == [e];
    RunExtends(TO_65535, n, [], e);
    InsertIsFirstFree(Start(n).core.slots, 65535, 0);
  }

  lemma SecondAt65536(n: nat, x: U64, a: U64)
    requires n > 65536 && x != 0 && a != 0 && a != x
    ensures var es := [Malloc(0, 0, 0, x), Malloc(8, 0, 0, a)]; var w := Run(TO_65535, n, es);
            && LegalRun(TO_65535, n, es) && w.live.Keys == {x, a}
            && w.core == InitialCore(n).(
                           slots := Lone(n, 65535, Rec(x, 0, 0, 0, Used, 1))[65536 := Rec(a, 8, 0, 0, Used, 2)],
                           seqNo := 3, usedCount := 2, totalAllocs := 2, current := 8, peak := 8)
  {
    FirstAt65535(n, x);
    var e0, e := Malloc(0, 0, 0, x), Malloc(8, 0, 0, a);
    assert [e0] + [e] == [e0, e];
    RunExtends(TO_65535, n, [e0], e);
    InsertIsFirstFree(Run(TO_65535, n, [e0]).core.slots, 65535, 1);
  }

  lemma LowerRun(n: nat, x: U64, a: U64)
    requires n > 65536 && x != 0 && a != 0 && a != x
    ensures var w := Run(TO_65535, n, Lower(x, a));
            && LegalRun(TO_65535, n, Lower(x, a))
            && w.core.slots == Lone(n, 65535, Rec(x, 0, 0, 0, Tombstone, 1))[65536 := Rec(a, 8, 0, 0, Used, 2)]
            && StatsOf(w.core, true) == Stats(8, 8, 2, 1, 3, true, 0)
  {
    SecondAt65536(n, x, a);
    var es := [Malloc(0, 0, 0, x), Malloc(8, 0, 0, a)];
    assert es + [Free(x)] == Lower(x, a);
    RunExtends(TO_65535, n, es, Free(x));
    var slots := Run(TO_65535, n, es).core.slots;
    assert Holds(slots[65535], x);
    TrackedAt(slots, x, 65535);
  }

  lemma FreedAt65535(n: nat, x: U64)
    requires n > 65536 && x != 0
    ensures var es := [Malloc(0, 0, 0, x), Free(x)]; var w := Run(TO_65535, n, es);
            && LegalRun(TO_65535, n, es) && w.live.Keys == {}
            && w.core == InitialCore(n).(slots := Lone(n, 65535, Rec(x, 0, 0, 0, Tombstone, 1)),
                                         seqNo := 2, tombstones := 1, totalAllocs := 1, totalFrees := 1)
  {
    FirstAt65535(n, x);
    var e0 := Malloc(0, 0, 0, x);
    assert [e0] + [Free(x)] == [e0, Free(x)];
    RunExtends(TO_65535, n, [e0], Free(x));
    var slots := Run(TO_65535, n, [e0]).core.slots;
    assert Holds(slots[65535], x);
    TrackedAt(slots, x, 65535);
  }

  lemma ReusedRun(n: nat, x: U64, a: U64)
    requires n > 65536 && x != 0 && a != 0 && a != x
    ensures var w := Run(TO_65535, n, Reused(x, a));
            && LegalRun(TO_65535, n, Reused(x, a))
            && w.core.slots == Lone(n, 65535, Rec(a, 8, 0, 0, Used, 2))
            && StatsOf(w.core, true) == Stats(8, 8, 2, 1, 3, true, 0)
  {
    FreedAt65535(n, x);
    var es, e := [Malloc(0, 0, 0, x), Free(x)], Malloc(8, 0, 0, a);
    assert es + [e] == Reused(x, a);
    RunExtends(TO_65535, n, es, e);
    InsertIsFirstFree(Run(TO_65535, n, es).core.slots, 65535, 0);
  }

  lemma LayoutAlike(n: nat, x: U64, a: U64)
    requires n > 65536 && x != 0 && a != 0 && a != x
    ensures Alike(TO_65535, n, Lower(x, a), Reused(x, a))
  {
    LowerRun(n, x, a);
    ReusedRun(n, x, a);
    var r := Rec(a, 8, 0, 0, Used, 2);
    BesideTombstone(n, Rec(x, 0, 0, 0, Tombstone, 1), r, Run(TO_65535, n, Lower(x, a)).core.slots);
    LoneUsed(n, 65535, r);
  }

  lemma BesideTombstone(n: nat, t: Rec, r: Rec, slots: seq<Rec>)
    requires n > 65536 && t.state == Tombstone && r.state == Used && slots == Lone(n, 65535, t)[65536 := r]
    ensures forall y :: UsedIn(slots, y) <==> y == r
  {
    OnlyOneUsed(slots, 65536);
  }

  lemma LowerListing(n: nat, x: U64, a: U64, rs: seq<Rec>)
    requires n > 65536 && x != 0 && a != 0 && a != x && Listing(Run(TO_65535, n, Lower(x, a)).core.slots, rs)
    ensures rs == [ZERO_REC]
  {
    LowerRun(n, x, a);
    LoneListing(Run(TO_65535, n, Lower(x, a)).core.slots, rs, 65536);
  }

  lemma ReusedListing(n: nat, x: U64, a: U64, rs: seq<Rec>)
    requires n > 65536 && x != 0 && a != 0 && a != x && Listing(Run(TO_65535, n, Reused(x, a)).core.slots, rs)
    ensures rs == [Rec(a, 8, 0, 0, Used, 2)]
  {
    ReusedRun(n, x, a);
    LoneListing(Run(TO_65535, n, Reused(x, a)).core.slots, rs, 65535);
  }

  /** In any table of more than 65536 slots these two runs of one tracker leave the same USED record and the same
      statistics; one is reported as an empty record, the other as the block it is. */
  lemma LayoutExample(n: nat, x: U64, a: U64, rs: seq<Rec>, rs': seq<Rec>, st: Stats)
    requires n > 65536 && x != 0 && a != 0 && a != x
    requires Listing(Run(TO_65535, n, Lower(x, a)).core.slots, rs)
    requires Listing(Run(TO_65535, n, Reused(x, a)).core.slots, rs')
    ensures Alike(TO_65535, n, Lower(x, a), Reused(x, a))
    ensures rs == [ZERO_REC] && rs' == [Rec(a, 8, 0, 0, Used, 2)]
    ensures SnapshotBytes(st, rs, 60) != SnapshotBytes(st, rs', 60)
  {
    LayoutAlike(n, x, a);
    LowerListing(n, x, a, rs);
    ReusedListing(n, x, a, rs');
    LoneBytesDiffer(st, ZERO_REC, Rec(a, 8, 0, 0, Used, 2));
  }

  /** Listings of two runs that ended alike give the same bytes. */
  ghost predicate SameReport(hash: Hash, n: nat, es: seq<Event>, es': seq<Event>, rs: seq<Rec>, rs': seq<Rec>,
                             cap: nat, fragAvailable: bool)
    requires n > 0
  {
    var c, c' := Run(hash, n, es).core, Run(hash, n, es').core;
    && Alike(hash, n, es, es') && Listing(c.slots, rs) && Listing(c'.slots, rs')
    && |rs| < TWO_32 && |rs'| < TWO_32 && cap >= HEADER_SIZE
    ==> SnapshotBytes(StatsOf(c, fragAvailable), rs, cap) == SnapshotBytes(StatsOf(c', fragAvailable), rs', cap)
  }

  lemma LowTablesAgree(hash: Hash, n: nat, es: seq<Event>, es': seq<Event>, rs: seq<Rec>, rs': seq<Rec>,
                       cap: nat, fragAvailable: bool)
    requires 0 < n <= 65536
    ensures SameReport(hash, n, es, es', rs, rs', cap, fragAvailable)
  {
    var c, c' := Run(hash, n, es).core, Run(hash, n, es').core;
    if && Alike(hash, n, es, es') && Listing(c.slots, rs) && Listing(c'.slots, rs')
       && |rs| < TWO_32 && |rs'| < TWO_32 && cap >= HEADER_SIZE {
      RunWellFormed(hash, n, es);
      RunWellFormed(hash, n, es');
      SameBytes(StatsOf(c, fragAvailable), c.slots, c'.slots, rs, rs', cap);
    }
  }

  lemma HighTablesDiffer(n: nat, fragAvailable: bool) returns (rs: seq<Rec>, rs': seq<Rec>)
    requires n > 65536
    ensures !SameReport(TO_65535, n, Lower(1, 2), Reused(1, 2), rs, rs', 60, fragAvailable)
  {
    rs := ListingExists(Run(TO_65535, n, Lower(1, 2)).core.slots);
    rs' := ListingExists(Run(TO_65535, n, Reused(1, 2)).core.slots);
    LayoutExample(n, 1, 2, rs, rs', StatsOf(Run(TO_65535, n, Lower(1, 2)).core, fragAvailable));
  }

  /** Over reachable trackers: whatever two runs did, equal USED records and statistics give byte-identical
      snapshots, exactly for tables of at most 65536 slots. */
  lemma LayoutIndependentIff(n: nat, fragAvailable: bool)
    requires n > 0
    ensures (forall hash: Hash, es, es', rs, rs', cap: nat ::
               SameReport(hash, n, es, es', rs, rs', cap, fragAvailable)) <==> n <= 65536
  {
    if n <= 65536 {
      forall hash: Hash, es, es', rs, rs', cap: nat {
        LowTablesAgree(hash, n, es, es', rs, rs', cap, fragAvailable);
      }
    } else {
      var rs, rs' := HighTablesDiffer(n, fragAvailable);
    }
  }

  lemma WiredHeap(rs: seq<Rec>, live: map<U64, Block>)
    requires Ascending(rs, PtrBefore)
    requires forall i :: 0 <= i < |rs| ==> rs[i].ptr in live && Tells(rs[i], live[rs[i].ptr])
    requires forall p :: p in live ==> exists i :: 0 <= i < |rs| && rs[i].ptr == p
    ensures var ws := WireAll(rs);
            && (forall i, j :: 0 <= i < j < |ws| ==> ws[i].ptr < ws[j].ptr)
            && (forall i :: 0 <= i < |ws| ==> ws[i].ptr in live && Shows(ws[i], live[ws[i].ptr]))
            && (forall p :: p in live ==> exists i :: 0 <= i < |ws| && ws[i].ptr == p)
  {
    var ws := WireAll(rs);
    forall i | 0 <= i < |ws|
      ensures ws[i].ptr == rs[i].ptr && ws[i].ptr in live && Shows(ws[i], live[ws[i].ptr])
    {
      WireShows(rs, i, live[rs[i].ptr]);
    }
    forall i, j | 0 <= i < j < |ws|
      ensures ws[i].ptr < ws[j].ptr
    {
      assert PtrBefore(rs[i], rs[j]);
    }
    forall p | p in live
      ensures exists i :: 0 <= i < |ws| && ws[i].ptr == p
    {
      var i :| 0 <= i < |rs| && rs[i].ptr == p;
      assert ws[i].ptr == p;
    }
  }

  // ---- A recorded session ----

  /** One snapshot on its way: some tracker's run, the records its snapshot lists, the buffer, the frame's
      number and the garbage in front of it. */
  datatype Sending = Sending(
    hash: Hash, n: nat, es: seq<Event>, fragAvailable: bool, rs: seq<Rec>, cap: nat, seqNo: U32, garbage: seq<Byte>)

  ghost predicate Sendable(x: Sending) {
    && 0 < x.n < TWO_32 && LegalRun(x.hash, x.n, x.es)
    && |x.rs| <= x.n && Listing(CoreOf(x).slots, x.rs)
    && 36 <= x.cap <= F.TX_MAX_PAYLOAD && R.MagicFree(x.garbage)
  }

  ghost function CoreOf(x: Sending): Core
    requires x.n > 0
  {
    Run(x.hash, x.n, x.es).core
  }

  ghost function SnapOf(x: Sending): Snap
    requires Sendable(x)
  {
    var st := StatsOf(CoreOf(x), x.fragAvailable);
    Snap(SnapshotHeader(st, x.rs, x.cap), SnapshotRecords(x.rs, x.cap))
  }

  ghost function ItemOf(x: Sending): R.Item
    requires Sendable(x)
  {
    R.Item(x.garbage, F.TYPE_SNAPSHOT, x.seqNo, SnapshotBytes(StatsOf(CoreOf(x), x.fragAvailable), x.rs, x.cap))
  }

  ghost function Items(xs: seq<Sending>): (items: seq<R.Item>)
    requires forall i :: 0 <= i < |xs| ==> Sendable(xs[i])
    ensures |items| == |xs| && forall i :: 0 <= i < |xs| ==> items[i] == ItemOf(xs[i])
  {
    seq(|xs|, i requires 0 <= i < |xs| => ItemOf(xs[i]))
  }

  ghost function Snaps(xs: seq<Sending>): (snaps: seq<Snap>)
    requires forall i :: 0 <= i < |xs| ==> Sendable(xs[i])
    ensures |snaps| == |xs| && forall i :: 0 <= i < |xs| ==> snaps[i] == SnapOf(xs[i])
  {
    seq(|xs|, i requires 0 <= i < |xs| => SnapOf(xs[i]))
  }

  /** A snapshot frame carries its snapshot. */
  lemma SnapshotCarried(st: Stats, rs: seq<Rec>, cap: nat, seqNo: U32, garbage: seq<Byte>)
    requires 36 <= cap <= F.TX_MAX_PAYLOAD && |rs| < TWO_32
    ensures P.Carries(R.Delivered(R.Item(garbage, F.TYPE_SNAPSHOT, seqNo, SnapshotBytes(st, rs, cap))),
                      Snap(SnapshotHeader(st, rs, cap), SnapshotRecords(rs, cap)))
  {
    SnapshotDecodes(st, rs, cap);
  }

  lemma SendingCarried(x: Sending)
    requires Sendable(x)
    ensures P.Carries(R.Delivered(ItemOf(x)), SnapOf(x))
    ensures R.Clean(ItemOf(x)) && ItemOf(x).kind == F.TYPE_SNAPSHOT && ItemOf(x).seqNo == x.seqNo
    ensures Reports(SnapOf(x), CoreOf(x), x.fragAvailable, x.rs, x.cap)
  {
    SnapshotCarried(StatsOf(CoreOf(x), x.fragAvailable), x.rs, x.cap, x.seqNo, x.garbage);
    SnapshotReports(CoreOf(x), x.fragAvailable, x.rs, x.cap);
  }

  /** Replaying a recorded session of snapshots of any legal runs, with garbage between the frames, pushes into
      the viewer exactly what those trackers reported, in order and under the frames' own numbers. */
  lemma RunsReplayed(xs: seq<Sending>, tail: seq<Byte>, t: P.Tally)
    requires R.MagicFree(tail) && forall i :: 0 <= i < |xs| ==> Sendable(xs[i])
    ensures var u := P.TakeAll(t, P.Played(R.Wire(Items(xs)) + tail));
            && u.frames == t.frames + |xs| && u.crcFails == t.crcFails
            && u.resyncs == t.resyncs + P.Garbled(Items(xs))
            && |u.pushed| == |t.pushed| + |xs| && t.pushed <= u.pushed
            && forall i :: 0 <= i < |xs| ==>
                 && u.pushed[|t.pushed| + i] == V.Push(xs[i].seqNo, SnapOf(xs[i]))
                 && Reports(SnapOf(xs[i]), CoreOf(xs[i]), xs[i].fragAvailable, xs[i].rs, xs[i].cap)
  {
    forall i | 0 <= i < |xs|
      ensures P.Carries(R.Delivered(Items(xs)[i]), Snaps(xs)[i])
      ensures R.Clean(Items(xs)[i]) && Items(xs)[i].kind == F.TYPE_SNAPSHOT && Items(xs)[i].seqNo == xs[i].seqNo
      ensures Reports(SnapOf(xs[i]), CoreOf(xs[i]), xs[i].fragAvailable, xs[i].rs, xs[i].cap)
    {
      SendingCarried(xs[i]);
    }
    P.SessionReplayed(Items(xs), Snaps(xs), tail, t);
  }

  /** The hotspot table accounts for every allocation the tracker saw, tracked or dropped. */
  lemma HotspotsAccountForAllocations(hash: Hash, n: nat, es: seq<Event>, capacity: nat)
    requires n > 0 && LegalRun(hash, n, es)
    ensures var w := Run(hash, n, es); var ks := Kept(w.calls, capacity);
            TotalAllocs(Summaries(w.calls, ks)) + Missed(w.calls, ks) == w.core.totalAllocs + w.core.drops
  {
    var w := Run(hash, n, es);
    CountersConserved(hash, n, es);
    KeysDistinct(w.calls);
    ReportsConserved(w.calls, Kept(w.calls, capacity));
  }
}

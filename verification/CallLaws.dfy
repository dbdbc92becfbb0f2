/** What the table, the counters and the reports of a run say of its calls, in numbers. */
module CallLaws {
  import opened Words
  import opened AllocTable
  import opened TrackerState
  import opened TrackerRuns

  // ---- The heap as the calls make it ----

  /** A block a client holds: the size it last asked for, the call site it was first allocated from, and whether
      the last call left it in place. */
  datatype Grant = Grant(size: nat, fileId: U32, line: int, resized: bool)

  function Granted(heap: map<U64, Grant>, e: Event): map<U64, Grant> {
    match e
    case Malloc(size, fileId, line, a) => if a == 0 then heap else heap[a := Grant(size, fileId, line, false)]
    case Free(p) => heap - {p}
    case Realloc(p, size, fileId, line, a) =>
      if p == 0 then if a == 0 then heap else heap[a := Grant(size, fileId, line, false)]
      else if size == 0 then heap - {p}
      else if a == 0 then heap
      else
        var was := if p in heap then heap[p] else Grant(0, 0, 0, false);
        (heap - {p})[a := Grant(size, was.fileId, was.line, a == p)]
  }

  function ClientHeap(es: seq<Event>): map<U64, Grant> {
    if es == [] then map[] else Granted(ClientHeap(es[..|es| - 1]), es[|es| - 1])
  }

  ghost predicate SameSizes(live: map<U64, Block>, heap: map<U64, Grant>) {
    live.Keys == heap.Keys && forall p :: p in live ==> live[p].size == heap[p].size
  }

  ghost predicate SameSites(live: map<U64, Block>, heap: map<U64, Grant>) {
    forall p :: p in live && p in heap ==>
      live[p].fileId == heap[p].fileId && live[p].line == heap[p].line && live[p].resized == heap[p].resized
  }

  lemma SameAfterGive(live: map<U64, Block>, heap: map<U64, Grant>, p: U64)
    requires SameSizes(live, heap)
    ensures SameSizes(live - {p}, heap - {p})
    ensures SameSites(live, heap) ==> SameSites(live - {p}, heap - {p})
  {
    assert (live - {p}).Keys == live.Keys - {p} == (heap - {p}).Keys;
  }

  lemma SameAfterGrant(live: map<U64, Block>, heap: map<U64, Grant>, a: U64, b: Block, g: Grant)
    requires SameSizes(live, heap) && b.size == g.size
    ensures SameSizes(live[a := b], heap[a := g])
    ensures SameSites(live, heap) && b.fileId == g.fileId && b.line == g.line && b.resized == g.resized
            ==> SameSites(live[a := b], heap[a := g])
  {
    assert live[a := b].Keys == live.Keys + {a} == heap[a := g].Keys;
  }

  lemma FreeLive(w: World, p: U64)
    requires HeapOn(w.core.slots, w.live) && (p == 0 || p in w.live || !Forwards(w.core, p))
    ensures DoFree(w, p).live == w.live - {p}
  {
    assert p in w.live && Buried(w.core.slots, p) ==> Tracked(w.core.slots, p);
    if p !in w.live {
      assert w.live - {p} == w.live;
    }
  }

  lemma MallocGrants(hash: Hash, w: World, heap: map<U64, Grant>, size: nat, fileId: U32, line: int, a: U64)
    requires |w.core.slots| > 0 && SameSizes(w.live, heap) && a != 0
    ensures var live' := DoMalloc(hash, w, size, fileId, line, a).live;
            var heap' := heap[a := Grant(size, fileId, line, false)];
            SameSizes(live', heap') && (SameSites(w.live, heap) ==> SameSites(live', heap'))
  {
    var b := Block(size, fileId, line, false, w.core.seqNo);
    assert DoMalloc(hash, w, size, fileId, line, a).live == w.live[a := b];
    SameAfterGrant(w.live, heap, a, b, Grant(size, fileId, line, false));
  }

  lemma FreeGrants(w: World, heap: map<U64, Grant>, p: U64)
    requires HeapOn(w.core.slots, w.live) && (p == 0 || p in w.live || !Forwards(w.core, p)) && SameSizes(w.live, heap)
    ensures var live', heap' := DoFree(w, p).live, heap - {p};
            SameSizes(live', heap') && (SameSites(w.live, heap) ==> SameSites(live', heap'))
  {
    FreeLive(w, p);
    SameAfterGive(w.live, heap, p);
  }

  lemma ResizeGrants(hash: Hash, w: World, heap: map<U64, Grant>, p: U64, size: nat, fileId: U32, line: int, a: U64)
    requires |w.core.slots| > 0 && SameSizes(w.live, heap) && p in w.live && p != 0 && size != 0 && a != 0
    ensures var live', heap' := DoRealloc(hash, w, p, size, fileId, line, a).live,
                                (heap - {p})[a := Grant(size, heap[p].fileId, heap[p].line, a == p)];
            && SameSizes(live', heap')
            && (SameSites(w.live, heap) && Tracked(w.core.slots, p) ==> SameSites(live', heap'))
  {
    var live' := DoRealloc(hash, w, p, size, fileId, line, a).live;
    assert live' == (w.live - {p})[a := live'[a]];
    SameAfterGive(w.live, heap, p);
    SameAfterGrant(w.live - {p}, heap - {p}, a, live'[a], Grant(size, heap[p].fileId, heap[p].line, a == p));
  }

  lemma StepGrants(hash: Hash, w: World, heap: map<U64, Grant>, e: Event)
    requires |w.core.slots| > 0 && HeapOn(w.core.slots, w.live) && Legal(w, e) && SameSizes(w.live, heap)
    ensures var live', heap' := Step(hash, w, e).live, Granted(heap, e);
            && SameSizes(live', heap')
            && (SameSites(w.live, heap) && Covered(w.core.slots, w.live) ==> SameSites(live', heap'))
  {
    match e
    case Malloc(size, fileId, line, a) =>
      if a != 0 {
        MallocGrants(hash, w, heap, size, fileId, line, a);
      }
    case Free(p) => FreeGrants(w, heap, p);
    case Realloc(p, size, fileId, line, a) =>
      if p != 0 && size == 0 {
        FreeGrants(w, heap, p);
      } else if a != 0 {
        if p == 0 {
          MallocGrants(hash, w, heap, size, fileId, line, a);
        } else {
          ResizeGrants(hash, w, heap, p, size, fileId, line, a);
        }
      }
  }

  /** The blocks really out are those the calls granted, with the size last asked for; and until something is
      dropped every one still shows the call site it was first allocated from. */
  lemma {:induction false} HeapFollowsCalls(hash: Hash, n: nat, es: seq<Event>)
    requires n > 0 && LegalRun(hash, n, es)
    ensures var w := Run(hash, n, es);
            SameSizes(w.live, ClientHeap(es)) && (w.core.drops == 0 ==> SameSites(w.live, ClientHeap(es)))
  {
    if es != [] {
      var w, e := Run(hash, n, es[..|es| - 1]), es[|es| - 1];
      HeapFollowsCalls(hash, n, es[..|es| - 1]);
      RunKeepsInv(hash, n, es[..|es| - 1]);
      StepGrants(hash, w, ClientHeap(es[..|es| - 1]), e);
      StepDrops(hash, w, e);
    }
  }

  /** A record shows what the calls say of its block: the size last asked for, when it fits 32 bits; and in a run
      that has dropped nothing the size in any case, and the file and line of the malloc that first gave it out,
      for each block held. */
  lemma TableTellsCalls(hash: Hash, n: nat, es: seq<Event>)
    requires n > 0 && LegalRun(hash, n, es)
    ensures var c, heap := Run(hash, n, es).core, ClientHeap(es);
            && (forall k | 0 <= k < n && c.slots[k].state == Used ::
                  var r := c.slots[k];
                  && r.ptr in heap && (heap[r.ptr].size <= 0xFFFF_FFFF ==> r.size == heap[r.ptr].size)
                  && (c.drops == 0 ==>
                        && ShowsSize(r.size, heap[r.ptr].size, heap[r.ptr].resized)
                        && r.fileId == heap[r.ptr].fileId && ShowsLine(r.line, heap[r.ptr].line)))
            && (c.drops == 0 ==> forall p :: p in heap ==> Tracked(c.slots, p))
  {
    HeapFollowsCalls(hash, n, es);
    RunKeepsInv(hash, n, es);
  }

  // ---- The event counters ----

  /** A free or a realloc to nothing. */
  predicate Gives(e: Event) {
    e.Free? || (e.Realloc? && e.p != 0 && e.size == 0)
  }

  /** A realloc that succeeded. */
  predicate Resizes(e: Event) {
    e.Realloc? && e.p != 0 && e.size != 0 && e.answer != 0
  }

  /** How many successful reallocs left a record of what they gave out. */
  function Renewals(hash: Hash, n: nat, es: seq<Event>): nat
    requires n > 0
  {
    if es == [] then 0
    else
      var e := es[|es| - 1];
      Renewals(hash, n, es[..|es| - 1])
      + if Resizes(e) && Tracked(Run(hash, n, es).core.slots, e.answer) then 1 else 0
  }

  /** How many frees took a record out of the table. */
  function Removals(hash: Hash, n: nat, es: seq<Event>): nat
    requires n > 0
  {
    if es == [] then 0
    else
      var e := es[|es| - 1];
      Removals(hash, n, es[..|es| - 1])
      + if Gives(e) && e.p != 0 && Tracked(Run(hash, n, es[..|es| - 1]).core.slots, e.p) then 1 else 0
  }

  /** How many reallocs succeeded, and how many frees gave up a block then held: from the calls alone. */
  function Resizings(es: seq<Event>): nat {
    if es == [] then 0 else Resizings(es[..|es| - 1]) + if Resizes(es[|es| - 1]) then 1 else 0
  }

  function Releases(es: seq<Event>): nat {
    if es == [] then 0
    else
      var e := es[|es| - 1];
      Releases(es[..|es| - 1]) + if Gives(e) && e.p in ClientLive(es[..|es| - 1]) then 1 else 0
  }

  /** What a successful realloc counts, against whether it left a record. */
  ghost predicate CountsRealloc(c: Core, c': Core, p: U64, a: U64) {
    && c'.totalReallocs == c.totalReallocs + (if Tracked(c'.slots, a) then 1 else 0)
    && c'.totalFrees == c.totalFrees && (Tracked(c.slots, p) ==> Tracked(c'.slots, a))
  }

  lemma InPlaceCounts(hash: Hash, c: Core, p: U64, size: nat)
    requires |c.slots| > 0 && Tracked(c.slots, p)
    ensures CountsRealloc(c, ReallocCore(hash, c, p, size, p), p, p)
  {
    var k := IndexOf(c.slots, p).value;
    TrackedAfterTouch(c.slots, k, c.slots[k].(size := size % TWO_32, seqNo := c.seqNo));
  }

  lemma MovedCounts(hash: Hash, c: Core, p: U64, size: nat, a: U64)
    requires |c.slots| > 0 && Tracked(c.slots, p) && a != p
    ensures CountsRealloc(c, ReallocCore(hash, c, p, size, a), p, a)
  {
    var k, j, r := MovedCore(hash, c, p, size, a);
    MovedShape(Vacate(c, k), j, r, c.slots[k].size, size);
  }

  lemma MovedShape(v: Core, j: nat, r: Rec, was: U32, size: nat)
    requires j < |v.slots| && r.state == Used
    ensures var c' := Resize(Reinsert(v, j, r), was, size);
            c'.totalReallocs == v.totalReallocs + 1 && c'.totalFrees == v.totalFrees && Tracked(c'.slots, r.ptr)
  {
    var slots' := Resize(Reinsert(v, j, r), was, size).slots;
    assert Holds(slots'[j], r.ptr);
  }

  lemma AdoptedCore(hash: Hash, c: Core, p: U64, size: nat, a: U64)
    requires |c.slots| > 0 && !Tracked(c.slots, p)
    ensures var at, c' := InsertAt(c.slots, Home(hash, a, |c.slots|)), ReallocCore(hash, c, p, size, a);
            && (at.None? ==> c' == c)
            && (at.Some? ==>
                  && at.value < |c.slots| && c.slots[at.value].state != Used
                  && c'.slots == c.slots[at.value := Rec(a, Clamp(size), 0, 0, Used, c.seqNo)]
                  && c'.totalReallocs == c.totalReallocs + 1 && c'.totalFrees == c.totalFrees)
  {
    InsertFailsIffFull(c.slots, Home(hash, a, |c.slots|));
  }

  lemma AdoptedCounts(hash: Hash, c: Core, p: U64, size: nat, a: U64)
    requires |c.slots| > 0 && !Tracked(c.slots, p) && !Tracked(c.slots, a)
    ensures CountsRealloc(c, ReallocCore(hash, c, p, size, a), p, a)
  {
    AdoptedCore(hash, c, p, size, a);
    var at := InsertAt(c.slots, Home(hash, a, |c.slots|));
    if at.Some? {
      var r := Rec(a, Clamp(size), 0, 0, Used, c.seqNo);
      TrackedAfterFill(c.slots, at.value, r);
      assert Tracked(c.slots[at.value := r], r.ptr);
    }
  }

  lemma ReallocCounts(hash: Hash, w: World, e: Event)
    requires Inv(hash, w) && Legal(w, e) && Resizes(e)
    ensures CountsRealloc(w.core, ReallocCore(hash, w.core, e.p, e.size, e.answer), e.p, e.answer)
  {
    if !Tracked(w.core.slots, e.p) {
      UsedAreLive(w);
      AdoptedCounts(hash, w.core, e.p, e.size, e.answer);
    } else if e.answer == e.p {
      InPlaceCounts(hash, w.core, e.p, e.size);
    } else {
      MovedCounts(hash, w.core, e.p, e.size, e.answer);
    }
  }

  lemma StepCounts(hash: Hash, w: World, e: Event)
    requires Inv(hash, w) && Legal(w, e)
    ensures var c, c' := w.core, Step(hash, w, e).core;
            && c'.totalReallocs
               == c.totalReallocs + (if Resizes(e) && Tracked(c'.slots, e.answer) then 1 else 0)
            && c'.totalFrees
               == c.totalFrees + (if Gives(e) && e.p != 0 && Tracked(c.slots, e.p) then 1 else 0)
            && (Resizes(e) && Tracked(c.slots, e.p) ==> Tracked(c'.slots, e.answer))
  {
    StepCore(hash, w, e);
    if Resizes(e) {
      ReallocCounts(hash, w, e);
    } else if Allocates(e) {
      InsertFailsIffFull(w.core.slots, Home(hash, e.answer, |w.core.slots|));
    }
  }

  lemma StepTallies(hash: Hash, n: nat, es: seq<Event>)
    requires n > 0 && LegalRun(hash, n, es) && es != []
    ensures var w, e, w' := Run(hash, n, es[..|es| - 1]), es[|es| - 1], Run(hash, n, es);
            && w'.core.totalReallocs
               == w.core.totalReallocs + (if Resizes(e) && Tracked(w'.core.slots, e.answer) then 1 else 0)
            && w'.core.totalFrees
               == w.core.totalFrees + (if Gives(e) && e.p != 0 && Tracked(w.core.slots, e.p) then 1 else 0)
            && (Resizes(e) && Tracked(w.core.slots, e.p) ==> Tracked(w'.core.slots, e.answer))
            && w.core.drops <= w'.core.drops
  {
    RunKeepsInv(hash, n, es[..|es| - 1]);
    StepCounts(hash, Run(hash, n, es[..|es| - 1]), es[|es| - 1]);
    StepDrops(hash, Run(hash, n, es[..|es| - 1]), es[|es| - 1]);
  }

  /** What the event counters count, over every legal run. A realloc that fails counts nowhere. */
  lemma {:induction false} EventsCounted(hash: Hash, n: nat, es: seq<Event>)
    requires n > 0 && LegalRun(hash, n, es)
    ensures var c := Run(hash, n, es).core;
            && c.totalAllocs + c.drops == |Allocations(es)|
            && c.totalReallocs == Renewals(hash, n, es) && c.totalFrees == Removals(hash, n, es)
            && c.seqNo == 1 + c.totalAllocs + c.totalReallocs
  {
    if es != [] {
      EventsCounted(hash, n, es[..|es| - 1]);
      StepTallies(hash, n, es);
    }
    CountersConserved(hash, n, es);
    CallsReported(hash, n, es);
  }

  lemma HeldIsTracked(hash: Hash, n: nat, es: seq<Event>, p: U64)
    requires n > 0 && LegalRun(hash, n, es) && Run(hash, n, es).core.drops == 0
    ensures p != 0 && Tracked(Run(hash, n, es).core.slots, p) <==> p in ClientLive(es)
  {
    EachBlockReturnedOnce(hash, n, es);
    TableRefinesHeap(hash, n, es);
    assert p in UsedPtrs(Run(hash, n, es).core.slots) <==> Tracked(Run(hash, n, es).core.slots, p);
  }

  /** In a run that has dropped nothing the counters can be told from the calls alone. */
  lemma {:induction false} CallsCounted(hash: Hash, n: nat, es: seq<Event>)
    requires n > 0 && LegalRun(hash, n, es) && Run(hash, n, es).core.drops == 0
    ensures var c := Run(hash, n, es).core;
            c.totalReallocs == Resizings(es) && c.totalFrees == Releases(es) && c.totalAllocs == |Allocations(es)|
  {
    if es != [] {
      var e := es[|es| - 1];
      StepTallies(hash, n, es);
      CallsCounted(hash, n, es[..|es| - 1]);
      if e.Free? || e.Realloc? {
        HeldIsTracked(hash, n, es[..|es| - 1], e.p);
        LegalResize(hash, n, es);
      }
    }
    EventsCounted(hash, n, es);
  }

  lemma LegalResize(hash: Hash, n: nat, es: seq<Event>)
    requires n > 0 && LegalRun(hash, n, es) && es != []
    ensures Resizes(es[|es| - 1]) ==> es[|es| - 1].p in ClientLive(es[..|es| - 1])
  {
    EachBlockReturnedOnce(hash, n, es[..|es| - 1]);
  }

  /** A realloc that fails leaves everything as it was. */
  lemma FailedReallocIdle(hash: Hash, w: World, p: U64, size: nat, fileId: U32, line: int)
    requires |w.core.slots| > 0 && p != 0 && size != 0
    ensures Step(hash, w, Realloc(p, size, fileId, line, 0)) == w
  {
  }

  /** A report of an allocation bears the sequence number the record of the block gets, the next one due. */
  lemma ReportStamped(hash: Hash, w: World, e: Event)
    requires Inv(hash, w) && Legal(w, e) && Allocates(e)
    ensures var w' := Step(hash, w, e);
            && |w'.calls| == |w.calls| + 1 && w'.calls[..|w.calls|] == w.calls
            && Reports(w'.calls[|w.calls|], e)
            && w'.calls[|w.calls|].seqNo == 1 + w.core.totalAllocs + w.core.totalReallocs
            && (!Full(w.core.slots) ==>
                  var k := IndexOf(w'.core.slots, e.answer);
                  k.Some? && w'.core.slots[k.value].seqNo == 1 + w.core.totalAllocs + w.core.totalReallocs)
  {
    StepCore(hash, w, e);
    StepCalls(hash, w, e);
    var slots := w.core.slots;
    var home := Home(hash, e.answer, |slots|);
    InsertFailsIffFull(slots, home);
    UsedAreLive(w);
    match InsertAt(slots, home) {
      case None =>
      case Some(k) =>
        var r := Rec(e.answer, Clamp(e.size), e.fileId, ClampLine(e.line), Used, w.core.seqNo);
        InsertKeeps(slots, hash, k, r);
        TrackedAt(slots[k := r], e.answer, k);
    }
  }

  // ---- The byte counter at its top ----

  lemma MallocSaturates(hash: Hash, c: Core, a: U64, size: nat, fileId: U32, line: int)
    requires |c.slots| > 0 && c.current == Sum(c.slots, SizeWeight)
    requires Sum(MallocCore(hash, c, a, size, fileId, line).slots, SizeWeight) > 0xFFFF_FFFF
    ensures MallocCore(hash, c, a, size, fileId, line).current == 0xFFFF_FFFF
  {
    var home := Home(hash, a, |c.slots|);
    InsertFailsIffFull(c.slots, home);
    match InsertAt(c.slots, home) {
      case None =>
      case Some(k) =>
        SumUpdate(c.slots, SizeWeight, k, Rec(a, Clamp(size), fileId, ClampLine(line), Used, c.seqNo));
    }
  }

  lemma FreeSinks(c: Core, p: U64)
    ensures Sum(FreeCore(c, p).slots, SizeWeight) <= Sum(c.slots, SizeWeight)
  {
    if Tracked(c.slots, p) {
      var k := IndexOf(c.slots, p).value;
      SumUpdate(c.slots, SizeWeight, k, c.slots[k].(state := Tombstone));
    }
  }

  lemma ReallocSaturates(hash: Hash, c: Core, p: U64, size: nat, a: U64)
    requires |c.slots| > 0 && c.current == Sum(c.slots, SizeWeight) && size <= 0xFFFF_FFFF
    requires Sum(ReallocCore(hash, c, p, size, a).slots, SizeWeight) > 0xFFFF_FFFF
    ensures ReallocCore(hash, c, p, size, a).current == 0xFFFF_FFFF
  {
    ReallocSums(hash, c, p, size, a);
    if Tracked(c.slots, p) {
      GrowthSaturates(c, c.slots[IndexOf(c.slots, p).value].size, size, Sum(c.slots, SizeWeight));
    }
  }

  lemma GrowthSaturates(c: Core, was: U32, size: nat, total: nat)
    requires was <= total == c.current && size <= 0xFFFF_FFFF && total - was + size > 0xFFFF_FFFF
    ensures Resize(c, was, size).current == 0xFFFF_FFFF
  {
  }

  /** The step on which the recorded sizes first pass 32 bits leaves the byte counter at its top. */
  lemma StepSaturates(hash: Hash, w: World, e: Event)
    requires |w.core.slots| > 0 && w.core.current == Sum(w.core.slots, SizeWeight)
    requires Sum(Step(hash, w, e).core.slots, SizeWeight) > 0xFFFF_FFFF
    requires e.Realloc? ==> e.size <= 0xFFFF_FFFF
    ensures Step(hash, w, e).core.current == 0xFFFF_FFFF
  {
    StepCore(hash, w, e);
    if Allocates(e) {
      MallocSaturates(hash, w.core, e.answer, e.size, e.fileId, e.line);
    } else if Resizes(e) {
      ReallocSaturates(hash, w.core, e.p, e.size, e.answer);
    } else if Gives(e) {
      FreeSinks(w.core, e.p);
    }
  }

  function Least(a: nat, b: nat): nat {
    if a < b then a else b
  }

  /** With realloc sizes of at most 32 bits the peak is the largest sum of recorded sizes the run has seen, held
      at UINT32_MAX: the counter saturates and never wraps. */
  lemma {:induction false} PeakExact(hash: Hash, n: nat, es: seq<Event>)
    requires n > 0 && LegalRun(hash, n, es) && SizesFit(es)
    ensures Run(hash, n, es).core.peak == Least(MaxRecorded(hash, n, es), 0xFFFF_FFFF)
  {
    if es != [] {
      var m := |es| - 1;
      var w, e := Run(hash, n, es[..m]), es[m];
      assert forall i :: 0 <= i < m ==> es[..m][i] == es[i];
      PeakExact(hash, n, es[..m]);
      RunKeepsInv(hash, n, es[..m]);
      BytesExact(hash, n, es[..m]);
      BytesExact(hash, n, es);
      PeakIsMaximum(hash, n, es[..m]);
      PeakBounds(hash, n, es[..m]);
      StepPeak(hash, w, e);
      if MaxRecorded(hash, n, es[..m]) <= 0xFFFF_FFFF && Sum(Run(hash, n, es).core.slots, SizeWeight) > 0xFFFF_FFFF {
        StepSaturates(hash, w, e);
      }
    }
  }
}

/** Whole runs of the tracker against an allocator it does not control. */
module TrackerRuns {
  import opened Words
  import opened Options
  import opened AllocTable
  import opened TrackerState
  import opened KeyHistory

  /** One call, with the real allocator's answer (0 is NULL) where it is asked for one. */
  datatype Event =
    | Malloc(size: nat, fileId: U32, line: int, answer: U64)
    | Free(p: U64)
    | Realloc(p: U64, size: nat, fileId: U32, line: int, answer: U64)

  /** A live block: its requested size, the call site as it was passed in, whether the last call resized it in
      place under the tracker's eyes, and the sequence number its record should show. */
  datatype Block = Block(size: nat, fileId: U32, line: int, resized: bool, stamp: nat)

  /** The tracker beside what really happened.
      live: every block the allocator has handed out and not taken back;
      acquired, released: every address ever handed out, ever taken back;
      calls: the allocations reported to the hotspot table;
      recycled: mallocs that reused a tombstone; adoptions: records inserted for untracked blocks;
      truncated: some in-place realloc stored a size cut to 32 bits;
      overflowed: the USED sizes have summed to more than UINT32_MAX at some point. */
  datatype World = World(
    core: Core,
    live: map<U64, Block>,
    acquired: multiset<U64>,
    released: multiset<U64>,
    calls: seq<Hit>,
    recycled: nat,
    adoptions: nat,
    truncated: bool,
    overflowed: bool)

  function Start(n: nat): World {
    World(InitialCore(n), map[], multiset{}, multiset{}, [], 0, 0, false, false)
  }

  function Note(w: World): World {
    w.(overflowed := w.overflowed || Sum(w.core.slots, SizeWeight) > UINT32_MAX)
  }

  function DoMalloc(hash: Hash, w: World, size: nat, fileId: U32, line: int, a: U64): World
    requires |w.core.slots| > 0
  {
    if a == 0 then w
    else
      var slots := w.core.slots;
      var k := InsertAt(slots, Home(hash, a, |slots|));
      InsertFailsIffFull(slots, Home(hash, a, |slots|));
      Note(w.(core := MallocCore(hash, w.core, a, size, fileId, line),
              live := w.live[a := Block(size, fileId, line, false, w.core.seqNo)],
              acquired := w.acquired + multiset{a},
              calls := w.calls + [Hit(Key(fileId, ClampLine(line)), size % TWO_32, w.core.seqNo)],
              recycled := w.recycled + if k.Some? && slots[k.value].state == Tombstone then 1 else 0))
  }

  function DoFree(w: World, p: U64): World {
    if p == 0 || !Forwards(w.core, p) then w
    else w.(core := FreeCore(w.core, p), live := w.live - {p}, released := w.released + multiset{p})
  }

  function DoRealloc(hash: Hash, w: World, p: U64, size: nat, fileId: U32, line: int, a: U64): World
    requires |w.core.slots| > 0
  {
    if p == 0 then DoMalloc(hash, w, size, fileId, line, a)
    else if size == 0 then DoFree(w, p)
    else if a == 0 then w
    else
      var slots := w.core.slots;
      var core := ReallocCore(hash, w.core, p, size, a);
      var inPlace := a == p;
      var was := if Tracked(slots, p) && p in w.live then w.live[p] else Block(0, 0, 0, false, 0);
      Note(w.(core := core,
              live := (w.live - {p})[a := Block(size, was.fileId, was.line, Tracked(slots, p) && inPlace, w.core.seqNo)],
              acquired := if inPlace then w.acquired else w.acquired + multiset{a},
              released := if inPlace then w.released else w.released + multiset{p},
              adoptions := w.adoptions + if !Tracked(slots, p) && Tracked(core.slots, a) then 1 else 0,
              truncated := w.truncated || (Tracked(slots, p) && inPlace && size % TWO_32 != Clamp(size))))
  }

  function Step(hash: Hash, w: World, e: Event): World
    requires |w.core.slots| > 0
  {
    match e
    case Malloc(size, fileId, line, a) => DoMalloc(hash, w, size, fileId, line, a)
    case Free(p) => DoFree(w, p)
    case Realloc(p, size, fileId, line, a) => DoRealloc(hash, w, p, size, fileId, line, a)
  }

  /** What the client and the allocator owe: the allocator never answers with a live address, and
      the client passes on only NULL, live blocks, or a repeated free the tracker swallows. */
  predicate Legal(w: World, e: Event) {
    match e
    case Malloc(_, _, _, a) => a !in w.live
    case Free(p) => p == 0 || p in w.live || !Forwards(w.core, p)
    case Realloc(p, size, _, _, a) =>
      if p == 0 then a !in w.live
      else if size == 0 then p in w.live || !Forwards(w.core, p)
      else p in w.live && (a == p || a !in w.live)
  }

  // ---- Invariants ----

  /** The 32-bit size a record shows: the nearest one, except that an in-place resize keeps the low 32 bits. */
  predicate ShowsSize(stored: U32, size: nat, resized: bool) {
    && (size <= 0xFFFF_FFFF ==> stored == size)
    && (size > 0xFFFF_FFFF && !resized ==> stored == 0xFFFF_FFFF)
    && (size > 0xFFFF_FFFF && resized ==> stored == size % 0x1_0000_0000)
  }

  /** The 16-bit line a record or report shows: the nearest one. */
  predicate ShowsLine(stored: U16, line: int) {
    && (line < 0 ==> stored == 0)
    && (0 <= line <= 65535 ==> stored == line)
    && (line > 65535 ==> stored == 65535)
  }

  /** A record tells its block's size, call site and sequence number. */
  predicate Tells(r: Rec, b: Block) {
    && ShowsSize(r.size, b.size, b.resized) && r.fileId == b.fileId && ShowsLine(r.line, b.line)
    && r.seqNo == b.stamp
  }

  ghost predicate RecordsLive(slots: seq<Rec>, live: map<U64, Block>) {
    forall k | 0 <= k < |slots| && slots[k].state == Used ::
      slots[k].ptr in live && Tells(slots[k], live[slots[k].ptr])
  }

  /** No live block without a record has its address in a tombstone. */
  ghost predicate TombstonesDead(slots: seq<Rec>, live: map<U64, Block>) {
    forall k | 0 <= k < |slots| && slots[k].state == Tombstone && slots[k].ptr in live ::
      Tracked(slots, slots[k].ptr)
  }

  ghost predicate Covered(slots: seq<Rec>, live: map<U64, Block>) {
    forall p :: p in live ==> Tracked(slots, p)
  }

  ghost predicate HeapOn(slots: seq<Rec>, live: map<U64, Block>) {
    0 !in live && RecordsLive(slots, live) && TombstonesDead(slots, live)
  }

  ghost predicate HeapInv(w: World) {
    && HeapOn(w.core.slots, w.live)
    && (w.core.drops == 0 ==> Covered(w.core.slots, w.live))
    && w.acquired == w.released + multiset(w.live.Keys)
  }

  /** Occupied slots carry distinct sequence numbers already handed out. */
  ghost predicate Stamped(slots: seq<Rec>, next: nat) {
    && (forall k | 0 <= k < |slots| && slots[k].state != Empty :: 1 <= slots[k].seqNo < next)
    && (forall i, j | 0 <= i < j < |slots| && slots[i].state != Empty && slots[j].state != Empty ::
          slots[i].seqNo != slots[j].seqNo)
  }

  /** The table counters against the table itself. */
  ghost predicate Tallied(c: Core, recycled: nat) {
    && c.usedCount == Sum(c.slots, UsedWeight)
    && c.tombstones == Sum(c.slots, TombstoneWeight) + recycled
    && Stamped(c.slots, c.seqNo)
  }

  ghost predicate CountInv(w: World) {
    var c := w.core;
    && Tallied(c, w.recycled)
    && c.usedCount + c.totalFrees == c.totalAllocs + w.adoptions
    && c.seqNo == 1 + c.totalAllocs + c.totalReallocs
    && |w.calls| == c.totalAllocs + c.drops
  }

  ghost predicate ByteInv(w: World) {
    var total := Sum(w.core.slots, SizeWeight);
    && (total > UINT32_MAX ==> w.overflowed)
    && (!w.truncated ==> w.core.current <= total)
    && (!w.truncated && !w.overflowed ==> w.core.current == total)
  }

  ghost predicate Inv(hash: Hash, w: World) {
    WellFormed(w.core.slots, hash) && HeapInv(w) && CountInv(w) && ByteInv(w)
  }

  lemma StartInv(hash: Hash, n: nat)
    requires n > 0
    ensures Inv(hash, Start(n))
  {
    ZeroSums(InitialCore(n).slots);
  }

  lemma {:induction false} ZeroSums(slots: seq<Rec>)
    requires forall k :: 0 <= k < |slots| ==> slots[k].state == Empty
    ensures Sum(slots, UsedWeight) == Sum(slots, TombstoneWeight) == Sum(slots, SizeWeight) == 0
  {
    if slots != [] {
      ZeroSums(slots[..|slots| - 1]);
    }
  }

  // ---- How lookup answers after one slot changes ----

  lemma TrackedAfterFill(slots: seq<Rec>, k: nat, r: Rec)
    requires k < |slots| && slots[k].state != Used && r.state == Used
    ensures forall p :: Tracked(slots[k := r], p) <==> p == r.ptr || Tracked(slots, p)
  {
    var slots' := slots[k := r];
    assert Holds(slots'[k], r.ptr);
    forall p | Tracked(slots, p)
      ensures Tracked(slots', p)
    {
      var i := IndexOf(slots, p).value;
      assert Holds(slots'[i], p);
    }
    forall p | Tracked(slots', p) && p != r.ptr
      ensures Tracked(slots, p)
    {
      var i := IndexOf(slots', p).value;
      assert Holds(slots[i], p);
    }
  }

  lemma TrackedAfterVacate(slots: seq<Rec>, k: nat, r: Rec)
    requires k < |slots| && Distinct(slots) && slots[k].state == Used && r.state != Used
    ensures forall p :: Tracked(slots[k := r], p) <==> p != slots[k].ptr && Tracked(slots, p)
  {
    var slots' := slots[k := r];
    forall p | Tracked(slots, p) && p != slots[k].ptr
      ensures Tracked(slots', p)
    {
      var i := IndexOf(slots, p).value;
      assert Holds(slots'[i], p);
    }
    forall p | Tracked(slots', p)
      ensures Tracked(slots, p) && p != slots[k].ptr
    {
      var i := IndexOf(slots', p).value;
      assert Holds(slots[i], p);
    }
  }

  lemma TrackedAfterTouch(slots: seq<Rec>, k: nat, r: Rec)
    requires k < |slots| && Holds(slots[k], r.ptr) && r.state == Used
    ensures forall p :: Tracked(slots[k := r], p) <==> Tracked(slots, p)
  {
    var slots' := slots[k := r];
    forall p
      ensures Tracked(slots', p) <==> Tracked(slots, p)
    {
      if Tracked(slots, p) {
        assert Holds(slots'[IndexOf(slots, p).value], p);
      }
      if Tracked(slots', p) {
        assert Holds(slots[IndexOf(slots', p).value], p);
      }
    }
  }

  // ---- The heap relation under one change of a slot or of the heap ----

  lemma FillHeap(slots: seq<Rec>, live: map<U64, Block>, k: nat, r: Rec, b: Block)
    requires HeapOn(slots, live) && k < |slots| && slots[k].state != Used
    requires r.state == Used && r.ptr != 0 && !Tracked(slots, r.ptr) && Tells(r, b)
    ensures HeapOn(slots[k := r], live[r.ptr := b])
    ensures Covered(slots, live) ==> Covered(slots[k := r], live[r.ptr := b])
  {
    TrackedAfterFill(slots, k, r);
  }

  lemma VacateHeap(slots: seq<Rec>, live: map<U64, Block>, k: nat)
    requires HeapOn(slots, live) && Distinct(slots) && k < |slots| && slots[k].state == Used
    ensures var slots' := slots[k := slots[k].(state := Tombstone)];
            && HeapOn(slots', live - {slots[k].ptr}) && !Tracked(slots', slots[k].ptr)
            && (Covered(slots, live) ==> Covered(slots', live - {slots[k].ptr}))
  {
    TrackedAfterVacate(slots, k, slots[k].(state := Tombstone));
  }

  lemma TouchHeap(slots: seq<Rec>, live: map<U64, Block>, k: nat, r: Rec, b: Block)
    requires HeapOn(slots, live) && Distinct(slots) && k < |slots| && Holds(slots[k], r.ptr)
    requires r.state == Used && r.ptr != 0 && Tells(r, b)
    ensures HeapOn(slots[k := r], live[r.ptr := b])
    ensures Covered(slots, live) ==> Covered(slots[k := r], live[r.ptr := b])
  {
    TrackedAfterTouch(slots, k, r);
  }

  lemma FullHeap(slots: seq<Rec>, live: map<U64, Block>, a: U64, b: Block)
    requires HeapOn(slots, live) && !Tracked(slots, a) && a != 0
    requires forall k :: 0 <= k < |slots| ==> slots[k].state == Used
    ensures HeapOn(slots, live[a := b])
  {
  }

  lemma DropHeap(slots: seq<Rec>, live: map<U64, Block>, p: U64)
    requires HeapOn(slots, live) && !Tracked(slots, p)
    ensures HeapOn(slots, live - {p})
    ensures Covered(slots, live) ==> Covered(slots, live - {p})
  {
  }

  lemma AcquireOne(acquired: multiset<U64>, released: multiset<U64>, live: map<U64, Block>, a: U64, b: Block)
    requires acquired == released + multiset(live.Keys) && a !in live
    ensures acquired + multiset{a} == released + multiset(live[a := b].Keys)
  {
    assert live[a := b].Keys == live.Keys + {a};
  }

  lemma ReleaseOne(acquired: multiset<U64>, released: multiset<U64>, live: map<U64, Block>, p: U64)
    requires acquired == released + multiset(live.Keys) && p in live
    ensures acquired == released + multiset{p} + multiset((live - {p}).Keys)
  {
    assert (live - {p}).Keys == live.Keys - {p};
    assert multiset(live.Keys) == multiset{p} + multiset(live.Keys - {p});
  }

  // ---- malloc ----

  lemma MallocHeap(hash: Hash, w: World, size: nat, fileId: U32, line: int, a: U64)
    requires WellFormed(w.core.slots, hash) && HeapInv(w) && a != 0 && a !in w.live
    ensures WellFormed(DoMalloc(hash, w, size, fileId, line, a).core.slots, hash)
    ensures HeapInv(DoMalloc(hash, w, size, fileId, line, a))
  {
    var w' := DoMalloc(hash, w, size, fileId, line, a);
    var slots := w.core.slots;
    var home := Home(hash, a, |slots|);
    InsertFailsIffFull(slots, home);
    AcquireOne(w.acquired, w.released, w.live, a, w'.live[a]);
    match InsertAt(slots, home) {
      case None => FullHeap(slots, w.live, a, w'.live[a]);
      case Some(k) =>
        var r := w'.core.slots[k];
        InsertKeeps(slots, hash, k, r);
        FillHeap(slots, w.live, k, r, w'.live[a]);
    }
  }

  lemma MallocCount(hash: Hash, w: World, size: nat, fileId: U32, line: int, a: U64)
    requires |w.core.slots| > 0 && CountInv(w) && a != 0
    ensures CountInv(DoMalloc(hash, w, size, fileId, line, a))
  {
    var w' := DoMalloc(hash, w, size, fileId, line, a);
    var slots := w.core.slots;
    var home := Home(hash, a, |slots|);
    InsertFailsIffFull(slots, home);
    match InsertAt(slots, home) {
      case None =>
      case Some(k) =>
        SumUpdate(slots, UsedWeight, k, w'.core.slots[k]);
        SumUpdate(slots, TombstoneWeight, k, w'.core.slots[k]);
    }
  }

  lemma MallocBytes(hash: Hash, w: World, size: nat, fileId: U32, line: int, a: U64)
    requires |w.core.slots| > 0 && ByteInv(w) && a != 0
    ensures ByteInv(DoMalloc(hash, w, size, fileId, line, a))
  {
    var w' := DoMalloc(hash, w, size, fileId, line, a);
    var slots := w.core.slots;
    var home := Home(hash, a, |slots|);
    InsertFailsIffFull(slots, home);
    match InsertAt(slots, home) {
      case None =>
      case Some(k) =>
        SumUpdate(slots, SizeWeight, k, w'.core.slots[k]);
    }
  }

  // ---- free ----

  lemma FreeHeap(hash: Hash, w: World, p: U64)
    requires WellFormed(w.core.slots, hash) && HeapInv(w) && (p in w.live || !Forwards(w.core, p))
    ensures WellFormed(DoFree(w, p).core.slots, hash) && HeapInv(DoFree(w, p))
  {
    var slots := w.core.slots;
    if p != 0 && Forwards(w.core, p) {
      ReleaseOne(w.acquired, w.released, w.live, p);
      match IndexOf(slots, p) {
        case None => DropHeap(slots, w.live, p);
        case Some(k) =>
          TouchKeeps(slots, hash, k, slots[k].(state := Tombstone));
          VacateHeap(slots, w.live, k);
      }
    }
  }

  lemma FreeCount(w: World, p: U64)
    requires CountInv(w)
    ensures CountInv(DoFree(w, p))
  {
    var w' := DoFree(w, p);
    var slots := w.core.slots;
    if p != 0 && Tracked(slots, p) {
      var k := IndexOf(slots, p).value;
      SumUpdate(slots, UsedWeight, k, w'.core.slots[k]);
      SumUpdate(slots, TombstoneWeight, k, w'.core.slots[k]);
    }
  }

  lemma FreeBytes(w: World, p: U64)
    requires ByteInv(w)
    ensures ByteInv(DoFree(w, p))
  {
    var w' := DoFree(w, p);
    var slots := w.core.slots;
    if p != 0 && Tracked(slots, p) {
      var k := IndexOf(slots, p).value;
      SumUpdate(slots, SizeWeight, k, w'.core.slots[k]);
    }
  }

  // ---- realloc ----

  /** Once a slot has just been vacated, insertion cannot fail. */
  lemma RoomAfterVacate(hash: Hash, c: Core, k: nat, a: U64) returns (j: nat)
    requires k < |c.slots|
    ensures InsertAt(Vacate(c, k).slots, Home(hash, a, |c.slots|)) == Some(j)
    ensures j < |c.slots| && Vacate(c, k).slots[j].state != Used
  {
    var v := Vacate(c, k);
    InsertFailsIffFull(v.slots, Home(hash, a, |c.slots|));
    assert v.slots[k].state == Tombstone;
    j := InsertAt(v.slots, Home(hash, a, |c.slots|)).value;
  }

  lemma InPlaceHeap(hash: Hash, w: World, p: U64, size: nat, fileId: U32, line: int)
    requires WellFormed(w.core.slots, hash) && HeapInv(w) && p in w.live && size != 0
    requires Tracked(w.core.slots, p)
    ensures var w' := DoRealloc(hash, w, p, size, fileId, line, p);
            WellFormed(w'.core.slots, hash) && HeapInv(w')
  {
    var w' := DoRealloc(hash, w, p, size, fileId, line, p);
    var slots := w.core.slots;
    var k := IndexOf(slots, p).value;
    TouchKeeps(slots, hash, k, w'.core.slots[k]);
    TouchHeap(slots, w.live, k, w'.core.slots[k], w'.live[p]);
    assert w'.live == w.live[p := w'.live[p]];
    assert w'.live.Keys == w.live.Keys;
  }

  lemma MovedTable(hash: Hash, slots: seq<Rec>, live: map<U64, Block>, k: nat, j: nat, r: Rec, b: Block)
    requires WellFormed(slots, hash) && HeapOn(slots, live) && k < |slots| && slots[k].state == Used
    requires r.state == Used && r.ptr != 0 && r.ptr !in live && Tells(r, b)
    requires InsertAt(slots[k := slots[k].(state := Tombstone)], Home(hash, r.ptr, |slots|)) == Some(j)
    requires j < |slots| && slots[k := slots[k].(state := Tombstone)][j].state != Used
    ensures var slots' := slots[k := slots[k].(state := Tombstone)][j := r];
            var live' := (live - {slots[k].ptr})[r.ptr := b];
            && WellFormed(slots', hash) && HeapOn(slots', live')
            && (Covered(slots, live) ==> Covered(slots', live'))
  {
    var v := slots[k := slots[k].(state := Tombstone)];
    TouchKeeps(slots, hash, k, v[k]);
    VacateHeap(slots, live, k);
    assert !Tracked(v, r.ptr);
    InsertKeeps(v, hash, j, r);
    FillHeap(v, live - {slots[k].ptr}, j, r, b);
  }

  lemma MovedHeap(hash: Hash, w: World, p: U64, size: nat, fileId: U32, line: int, a: U64)
    requires WellFormed(w.core.slots, hash) && HeapInv(w) && p in w.live && size != 0
    requires Tracked(w.core.slots, p) && a != 0 && a !in w.live
    ensures var w' := DoRealloc(hash, w, p, size, fileId, line, a);
            WellFormed(w'.core.slots, hash) && HeapInv(w')
  {
    var w' := DoRealloc(hash, w, p, size, fileId, line, a);
    var slots := w.core.slots;
    var k := IndexOf(slots, p).value;
    var j := RoomAfterVacate(hash, w.core, k, a);
    var r := w'.core.slots[j];
    assert w'.core.slots == Vacate(w.core, k).slots[j := r];
    MovedTable(hash, slots, w.live, k, j, r, w'.live[a]);
    ReleaseOne(w.acquired, w.released, w.live, p);
    AcquireOne(w.acquired, w'.released, w.live - {p}, a, w'.live[a]);
  }

  lemma UntrackedHeap(hash: Hash, w: World, p: U64, size: nat, fileId: U32, line: int, a: U64)
    requires WellFormed(w.core.slots, hash) && HeapInv(w) && p in w.live && size != 0
    requires !Tracked(w.core.slots, p) && a != 0 && (a == p || a !in w.live)
    ensures var w' := DoRealloc(hash, w, p, size, fileId, line, a);
            WellFormed(w'.core.slots, hash) && HeapInv(w')
  {
    var w' := DoRealloc(hash, w, p, size, fileId, line, a);
    var slots := w.core.slots;
    var home := Home(hash, a, |slots|);
    InsertFailsIffFull(slots, home);
    DropHeap(slots, w.live, p);
    assert !Tracked(slots, a);
    if a == p {
      assert w'.live.Keys == w.live.Keys;
    } else {
      ReleaseOne(w.acquired, w.released, w.live, p);
      AcquireOne(w.acquired, w'.released, w.live - {p}, a, w'.live[a]);
    }
    match InsertAt(slots, home) {
      case None => FullHeap(slots, w.live - {p}, a, w'.live[a]);
      case Some(k) =>
        InsertKeeps(slots, hash, k, w'.core.slots[k]);
        FillHeap(slots, w.live - {p}, k, w'.core.slots[k], w'.live[a]);
    }
  }

  /** The moved case never reaches the fall-through: a record is always written. */
  lemma MovedCore(hash: Hash, c: Core, p: U64, size: nat, a: U64) returns (k: nat, j: nat, r: Rec)
    requires |c.slots| > 0 && Tracked(c.slots, p) && a != p
    ensures IndexOf(c.slots, p) == Some(k) && k < |c.slots| && j < |c.slots|
    ensures Vacate(c, k).slots[j].state != Used
    ensures r == Rec(a, Clamp(size), c.slots[k].fileId, c.slots[k].line, Used, c.seqNo)
    ensures ReallocCore(hash, c, p, size, a) == Resize(Reinsert(Vacate(c, k), j, r), c.slots[k].size, size)
  {
    k := IndexOf(c.slots, p).value;
    j := RoomAfterVacate(hash, c, k, a);
    r := Rec(a, Clamp(size), c.slots[k].fileId, c.slots[k].line, Used, c.seqNo);
  }

  lemma VacateTallied(c: Core, recycled: nat, k: nat)
    requires Tallied(c, recycled) && k < |c.slots| && c.slots[k].state == Used
    ensures Tallied(Vacate(c, k), recycled)
  {
    var r := c.slots[k].(state := Tombstone);
    SumUpdate(c.slots, UsedWeight, k, r);
    SumUpdate(c.slots, TombstoneWeight, k, r);
  }

  /** The guard on the tombstone counter never blocks. */
  lemma ReinsertTallied(c: Core, recycled: nat, j: nat, r: Rec)
    requires Tallied(c, recycled) && j < |c.slots| && c.slots[j].state != Used
    requires r.state == Used && r.seqNo == c.seqNo && c.seqNo >= 1
    ensures Tallied(Reinsert(c, j, r), recycled)
  {
    SumUpdate(c.slots, UsedWeight, j, r);
    SumUpdate(c.slots, TombstoneWeight, j, r);
    WeightAtMostSum(c.slots, TombstoneWeight, j);
  }

  /** Restamping a USED record. */
  lemma TouchTallied(c: Core, recycled: nat, k: nat, r: Rec)
    requires Tallied(c, recycled) && k < |c.slots| && c.slots[k].state == Used && c.seqNo >= 1
    requires r.state == Used && r.seqNo == c.seqNo
    ensures Tallied(c.(slots := c.slots[k := r], seqNo := c.seqNo + 1), recycled)
  {
    SumUpdate(c.slots, UsedWeight, k, r);
    SumUpdate(c.slots, TombstoneWeight, k, r);
  }

  lemma InPlaceCount(hash: Hash, w: World, p: U64, size: nat, fileId: U32, line: int)
    requires |w.core.slots| > 0 && CountInv(w) && p != 0 && size != 0 && Tracked(w.core.slots, p)
    ensures CountInv(DoRealloc(hash, w, p, size, fileId, line, p))
  {
    var c := w.core;
    var k := IndexOf(c.slots, p).value;
    var r := c.slots[k].(size := size % TWO_32, seqNo := c.seqNo);
    TouchTallied(c, w.recycled, k, r);
    var c' := ReallocCore(hash, c, p, size, p);
    assert c'.slots == c.slots[k := r] && c'.seqNo == c.seqNo + 1 && c'.totalReallocs == c.totalReallocs + 1;
  }

  lemma MovedCount(hash: Hash, w: World, p: U64, size: nat, fileId: U32, line: int, a: U64)
    requires |w.core.slots| > 0 && CountInv(w) && Tracked(w.core.slots, p)
    requires p != 0 && size != 0 && a != 0 && a != p
    ensures CountInv(DoRealloc(hash, w, p, size, fileId, line, a))
  {
    var k, j, r := MovedCore(hash, w.core, p, size, a);
    VacateTallied(w.core, w.recycled, k);
    ReinsertTallied(Vacate(w.core, k), w.recycled, j, r);
  }

  lemma AdoptedCount(hash: Hash, w: World, p: U64, size: nat, fileId: U32, line: int, a: U64)
    requires WellFormed(w.core.slots, hash) && HeapInv(w) && CountInv(w) && !Tracked(w.core.slots, p)
    requires p != 0 && size != 0 && a != 0 && (a == p || a !in w.live)
    ensures CountInv(DoRealloc(hash, w, p, size, fileId, line, a))
  {
    var slots := w.core.slots;
    InsertFailsIffFull(slots, Home(hash, a, |slots|));
    assert !Tracked(slots, a);
    match InsertAt(slots, Home(hash, a, |slots|)) {
      case None =>
      case Some(k) =>
        var r := Rec(a, Clamp(size), 0, 0, Used, w.core.seqNo);
        ReinsertTallied(w.core, w.recycled, k, r);
        TrackedAfterFill(slots, k, r);
    }
  }

  /** Adjusting the byte counter by the change of one record follows the sum, from below. */
  lemma ResizeLaw(c: Core, was: U32, size: nat, total: nat)
    requires was <= total && c.current <= total
    ensures Resize(c, was, size).current <= total - was + Clamp(size)
    ensures c.current == total && total - was + Clamp(size) <= UINT32_MAX
            ==> Resize(c, was, size).current == total - was + Clamp(size)
  {
  }

  /** The three shapes a successful realloc gives the byte counter and the sum it tracks. */
  lemma ReallocSums(hash: Hash, c: Core, p: U64, size: nat, a: U64)
    requires |c.slots| > 0
    ensures var c', k := ReallocCore(hash, c, p, size, a), IndexOf(c.slots, p);
            var total, total' := Sum(c.slots, SizeWeight), Sum(c'.slots, SizeWeight);
            match k
            case Some(k) =>
              && c.slots[k].size <= total
              && c'.current == Resize(c, c.slots[k].size, size).current
              && total' == total - c.slots[k].size + if a == p then size % TWO_32 else Clamp(size)
            case None =>
              || (c'.current == c.current && total' == total)
              || (c'.current == AddUsed(c, Clamp(size)).current && total' == total + Clamp(size))
  {
    if Tracked(c.slots, p) {
      var k := IndexOf(c.slots, p).value;
      WeightAtMostSum(c.slots, SizeWeight, k);
      if a == p {
        SumUpdate(c.slots, SizeWeight, k, c.slots[k].(size := size % TWO_32, seqNo := c.seqNo));
      } else {
        var k', j, r := MovedCore(hash, c, p, size, a);
        SumUpdate(c.slots, SizeWeight, k, c.slots[k].(state := Tombstone));
        SumUpdate(Vacate(c, k).slots, SizeWeight, j, r);
      }
    } else {
      InsertFailsIffFull(c.slots, Home(hash, a, |c.slots|));
      match InsertAt(c.slots, Home(hash, a, |c.slots|)) {
        case None =>
        case Some(k) => SumUpdate(c.slots, SizeWeight, k, Rec(a, Clamp(size), 0, 0, Used, c.seqNo));
      }
    }
  }

  lemma ReallocBytes(hash: Hash, w: World, p: U64, size: nat, fileId: U32, line: int, a: U64)
    requires WellFormed(w.core.slots, hash) && ByteInv(w)
    requires p != 0 && size != 0 && a != 0
    ensures ByteInv(DoRealloc(hash, w, p, size, fileId, line, a))
  {
    var c := w.core;
    var total := Sum(c.slots, SizeWeight);
    ReallocSums(hash, c, p, size, a);
    if Tracked(c.slots, p) && c.current <= total {
      ResizeLaw(c, c.slots[IndexOf(c.slots, p).value].size, size, total);
    }
  }

  // ---- Every step, every run ----

  lemma StepKeepsInv(hash: Hash, w: World, e: Event)
    requires Inv(hash, w) && Legal(w, e)
    ensures Inv(hash, Step(hash, w, e))
  {
    match e
    case Malloc(size, fileId, line, a) => MallocInv(hash, w, size, fileId, line, a);
    case Free(p) => FreeInv(hash, w, p);
    case Realloc(p, size, fileId, line, a) =>
      if p == 0 {
        MallocInv(hash, w, size, fileId, line, a);
      } else if size == 0 {
        FreeInv(hash, w, p);
      } else if a != 0 {
        ReallocBytes(hash, w, p, size, fileId, line, a);
        if !Tracked(w.core.slots, p) {
          UntrackedHeap(hash, w, p, size, fileId, line, a);
          AdoptedCount(hash, w, p, size, fileId, line, a);
        } else if a == p {
          InPlaceHeap(hash, w, p, size, fileId, line);
          InPlaceCount(hash, w, p, size, fileId, line);
        } else {
          MovedHeap(hash, w, p, size, fileId, line, a);
          MovedCount(hash, w, p, size, fileId, line, a);
        }
      }
  }

  lemma MallocInv(hash: Hash, w: World, size: nat, fileId: U32, line: int, a: U64)
    requires Inv(hash, w) && a !in w.live
    ensures Inv(hash, DoMalloc(hash, w, size, fileId, line, a))
  {
    if a != 0 {
      MallocHeap(hash, w, size, fileId, line, a);
      MallocCount(hash, w, size, fileId, line, a);
      MallocBytes(hash, w, size, fileId, line, a);
    }
  }

  lemma FreeInv(hash: Hash, w: World, p: U64)
    requires Inv(hash, w) && (p == 0 || p in w.live || !Forwards(w.core, p))
    ensures Inv(hash, DoFree(w, p))
  {
    if p != 0 {
      FreeHeap(hash, w, p);
      FreeCount(w, p);
      FreeBytes(w, p);
    }
  }

  // ---- Runs ----

  function Run(hash: Hash, n: nat, es: seq<Event>): (w: World)
    requires n > 0
    ensures |w.core.slots| == n
  {
    if es == [] then Start(n)
    else
      var w := Run(hash, n, es[..|es| - 1]);
      StepSize(hash, w, es[|es| - 1]);
      Step(hash, w, es[|es| - 1])
  }

  lemma ReallocSize(hash: Hash, c: Core, p: U64, size: nat, a: U64)
    requires |c.slots| > 0
    ensures |ReallocCore(hash, c, p, size, a).slots| == |c.slots|
  {
    if a != p && Tracked(c.slots, p) {
      var k, j, r := MovedCore(hash, c, p, size, a);
    }
  }

  lemma StepSize(hash: Hash, w: World, e: Event)
    requires |w.core.slots| > 0
    ensures |Step(hash, w, e).core.slots| == |w.core.slots|
  {
    StepCore(hash, w, e);
    if e.Realloc? {
      ReallocSize(hash, w.core, e.p, e.size, e.answer);
    }
  }

  predicate LegalRun(hash: Hash, n: nat, es: seq<Event>)
    requires n > 0
  {
    es == [] ||
    (LegalRun(hash, n, es[..|es| - 1]) && Legal(Run(hash, n, es[..|es| - 1]), es[|es| - 1]))
  }

  lemma {:induction false} RunKeepsInv(hash: Hash, n: nat, es: seq<Event>)
    requires n > 0 && LegalRun(hash, n, es)
    ensures Inv(hash, Run(hash, n, es))
  {
    if es == [] {
      StartInv(hash, n);
    } else {
      RunKeepsInv(hash, n, es[..|es| - 1]);
      StepKeepsInv(hash, Run(hash, n, es[..|es| - 1]), es[|es| - 1]);
    }
  }

  lemma RunExtends(hash: Hash, n: nat, es: seq<Event>, e: Event)
    requires n > 0
    ensures Run(hash, n, es + [e]) == Step(hash, Run(hash, n, es), e)
    ensures LegalRun(hash, n, es + [e]) <==> LegalRun(hash, n, es) && Legal(Run(hash, n, es), e)
  {
    assert (es + [e])[..|es|] == es;
  }

  /** One more malloc. */
  lemma MallocEffect(hash: Hash, n: nat, es: seq<Event>, size: nat, fileId: U32, line: int, a: U64)
    requires n > 0 && LegalRun(hash, n, es) && a !in Run(hash, n, es).live
    ensures var e, w := Malloc(size, fileId, line, a), Run(hash, n, es); var w' := Run(hash, n, es + [e]);
            && LegalRun(hash, n, es + [e])
            && w'.core == (if a == 0 then w.core else MallocCore(hash, w.core, a, size, fileId, line))
            && w'.calls == w.calls + (if a == 0 then []
                                      else [Hit(Key(fileId, ClampLine(line)), size % TWO_32, w.core.seqNo)])
  {
    RunExtends(hash, n, es, Malloc(size, fileId, line, a));
  }

  /** One more legal call, as its effect on the core and on what the hotspot table has been told. */
  lemma RunEffect(hash: Hash, n: nat, es: seq<Event>, e: Event)
    requires n > 0 && LegalRun(hash, n, es) && Legal(Run(hash, n, es), e)
    ensures LegalRun(hash, n, es + [e])
    ensures Run(hash, n, es + [e]).core == NextCore(hash, Run(hash, n, es).core, e)
    ensures Run(hash, n, es + [e]).calls == Run(hash, n, es).calls + NewCalls(Run(hash, n, es).core, e)
  {
    RunExtends(hash, n, es, e);
    StepCore(hash, Run(hash, n, es), e);
    StepCalls(hash, Run(hash, n, es), e);
  }

  lemma RunWellFormed(hash: Hash, n: nat, es: seq<Event>)
    requires n > 0 && LegalRun(hash, n, es)
    ensures WellFormed(Run(hash, n, es).core.slots, hash)
  {
    RunKeepsInv(hash, n, es);
  }

  // ---- What the invariants say of every legal run ----

  /** The table is a sub-map of the live heap, one record a block, and the whole heap until something is dropped. */
  lemma TableRefinesHeap(hash: Hash, n: nat, es: seq<Event>)
    requires n > 0 && LegalRun(hash, n, es)
    ensures var w := Run(hash, n, es); var slots := w.core.slots;
            && (forall k | 0 <= k < n && slots[k].state == Used ::
                  && IndexOf(slots, slots[k].ptr) == Some(k)
                  && slots[k].ptr in w.live
                  && var b := w.live[slots[k].ptr];
                     && ShowsSize(slots[k].size, b.size, b.resized)
                     && slots[k].fileId == b.fileId && ShowsLine(slots[k].line, b.line)
                     && slots[k].seqNo == b.stamp)
            && UsedPtrs(slots) <= w.live.Keys
            && (w.core.drops == 0 ==> UsedPtrs(slots) == w.live.Keys)
  {
    RunKeepsInv(hash, n, es);
    var w := Run(hash, n, es);
    forall k | 0 <= k < n && w.core.slots[k].state == Used
      ensures IndexOf(w.core.slots, w.core.slots[k].ptr) == Some(k)
    {
      TrackedAt(w.core.slots, w.core.slots[k].ptr, k);
    }
    UsedAreLive(w);
  }

  // ---- The client's side, from the calls alone ----

  /** The blocks a client holds after one more call: a free or a move gives one up whatever the tracker does. */
  function Held(mine: set<U64>, e: Event): set<U64> {
    match e
    case Malloc(_, _, _, a) => if a == 0 then mine else mine + {a}
    case Free(p) => mine - {p}
    case Realloc(p, size, _, _, a) =>
      if p != 0 && size == 0 then mine - {p}
      else if a == 0 then mine
      else mine - {p} + {a}
  }

  function ClientLive(es: seq<Event>): set<U64> {
    if es == [] then {} else Held(ClientLive(es[..|es| - 1]), es[|es| - 1])
  }

  /** The held block one call gives up, if any. */
  function Surrendered(mine: set<U64>, e: Event): multiset<U64> {
    match e
    case Malloc(_, _, _, _) => multiset{}
    case Free(p) => if p in mine then multiset{p} else multiset{}
    case Realloc(p, size, _, _, a) =>
      if p in mine && (size == 0 || (a != 0 && a != p)) then multiset{p} else multiset{}
  }

  /** Every held block ever given up, as often as it was. */
  function GivenUp(es: seq<Event>): multiset<U64> {
    if es == [] then multiset{}
    else GivenUp(es[..|es| - 1]) + Surrendered(ClientLive(es[..|es| - 1]), es[|es| - 1])
  }

  /** The address one call hands out, if any. */
  function HandedBy(e: Event): multiset<U64> {
    if e.Free? || e.answer == 0 then multiset{}
    else if e.Realloc? && e.p != 0 && (e.size == 0 || e.answer == e.p) then multiset{}
    else multiset{e.answer}
  }

  function HandedOut(es: seq<Event>): multiset<U64> {
    if es == [] then multiset{} else HandedOut(es[..|es| - 1]) + HandedBy(es[|es| - 1])
  }

  lemma FreeClient(w: World, p: U64)
    requires HeapOn(w.core.slots, w.live) && (p == 0 || p in w.live || !Forwards(w.core, p))
    ensures var w' := DoFree(w, p);
            && w'.live.Keys == w.live.Keys - {p} && w'.acquired == w.acquired
            && w'.released == w.released + if p in w.live then multiset{p} else multiset{}
  {
    assert p in w.live && Buried(w.core.slots, p) ==> Tracked(w.core.slots, p);
    assert (w.live - {p}).Keys == w.live.Keys - {p};
  }

  lemma MallocClient(hash: Hash, w: World, size: nat, fileId: U32, line: int, a: U64)
    requires |w.core.slots| > 0 && a != 0
    ensures var w' := DoMalloc(hash, w, size, fileId, line, a);
            && w'.live.Keys == w.live.Keys + {a} && w'.acquired == w.acquired + multiset{a} && w'.released == w.released
  {
  }

  lemma MoveClient(hash: Hash, w: World, p: U64, size: nat, fileId: U32, line: int, a: U64)
    requires |w.core.slots| > 0 && p != 0 && size != 0 && a != 0
    ensures var w' := DoRealloc(hash, w, p, size, fileId, line, a);
            && w'.live.Keys == w.live.Keys - {p} + {a}
            && w'.acquired == (if a == p then w.acquired else w.acquired + multiset{a})
            && w'.released == (if a == p then w.released else w.released + multiset{p})
  {
    assert (w.live - {p}).Keys == w.live.Keys - {p};
  }

  ghost predicate Follows(w: World, w': World, e: Event) {
    && w'.live.Keys == Held(w.live.Keys, e)
    && w'.released == w.released + Surrendered(w.live.Keys, e)
    && w'.acquired == w.acquired + HandedBy(e)
  }

  lemma ReallocClient(hash: Hash, w: World, p: U64, size: nat, fileId: U32, line: int, a: U64)
    requires |w.core.slots| > 0 && HeapOn(w.core.slots, w.live) && Legal(w, Realloc(p, size, fileId, line, a))
    ensures Follows(w, DoRealloc(hash, w, p, size, fileId, line, a), Realloc(p, size, fileId, line, a))
  {
    if p != 0 && size == 0 {
      FreeClient(w, p);
    } else if a != 0 {
      if p == 0 {
        MallocClient(hash, w, size, fileId, line, a);
      } else {
        MoveClient(hash, w, p, size, fileId, line, a);
      }
    }
  }

  /** What really becomes of blocks in one call is what the client asked for: nothing it frees is swallowed. */
  lemma StepClient(hash: Hash, w: World, e: Event)
    requires |w.core.slots| > 0 && HeapOn(w.core.slots, w.live) && Legal(w, e)
    ensures Follows(w, Step(hash, w, e), e)
  {
    match e
    case Malloc(size, fileId, line, a) =>
      if a != 0 {
        MallocClient(hash, w, size, fileId, line, a);
      }
    case Free(p) => FreeClient(w, p);
    case Realloc(p, size, fileId, line, a) => ReallocClient(hash, w, p, size, fileId, line, a);
  }

  /** Over every legal run: what the allocator still has out is what the client holds, and what went back to
      it is what the client gave up, as often as it did. So each block given up reaches it exactly once. */
  lemma {:induction false} EachBlockReturnedOnce(hash: Hash, n: nat, es: seq<Event>)
    requires n > 0 && LegalRun(hash, n, es)
    ensures var w := Run(hash, n, es);
            && w.live.Keys == ClientLive(es) && w.released == GivenUp(es) && w.acquired == HandedOut(es)
            && 0 !in ClientLive(es) && HandedOut(es) == GivenUp(es) + multiset(ClientLive(es))
  {
    if es != [] {
      EachBlockReturnedOnce(hash, n, es[..|es| - 1]);
      RunKeepsInv(hash, n, es[..|es| - 1]);
      StepClient(hash, Run(hash, n, es[..|es| - 1]), es[|es| - 1]);
    }
    RunKeepsInv(hash, n, es);
  }

  // ---- Single frees ----

  /** Among the frees a client may make, exactly those of live blocks are forwarded. */
  lemma ForwardsIffLive(hash: Hash, n: nat, es: seq<Event>, p: U64)
    requires n > 0 && LegalRun(hash, n, es) && p != 0 && Legal(Run(hash, n, es), Free(p))
    ensures Forwards(Run(hash, n, es).core, p) <==> p in Run(hash, n, es).live
  {
    RunKeepsInv(hash, n, es);
    var w := Run(hash, n, es);
    assert p in w.live && Buried(w.core.slots, p) ==> Tracked(w.core.slots, p);
  }

  /** Freeing forwards a live block and swallows the rest. */
  lemma FreeForwardsLive(hash: Hash, n: nat, es: seq<Event>, p: U64)
    requires n > 0 && LegalRun(hash, n, es + [Free(p)]) && p != 0
    ensures var w, w' := Run(hash, n, es), Run(hash, n, es + [Free(p)]);
            && p !in w'.live
            && (p in w.live ==> w'.released == w.released + multiset{p})
            && (p !in w.live ==> w' == w)
  {
    assert (es + [Free(p)])[..|es|] == es;
    RunKeepsInv(hash, n, es);
  }

  lemma CountersConserved(hash: Hash, n: nat, es: seq<Event>)
    requires n > 0 && LegalRun(hash, n, es)
    ensures var w := Run(hash, n, es); var c := w.core;
            && c.usedCount == Sum(c.slots, UsedWeight) == |UsedPtrs(c.slots)|
            && c.usedCount == c.totalAllocs + w.adoptions - c.totalFrees
            && c.tombstones == Sum(c.slots, TombstoneWeight) + w.recycled
            && c.seqNo == 1 + c.totalAllocs + c.totalReallocs
            && |w.calls| == c.totalAllocs + c.drops
            && Stamped(c.slots, c.seqNo)
  {
    RunKeepsInv(hash, n, es);
    CountUsedPtrs(Run(hash, n, es).core.slots);
  }

  /** The byte counter against the sum of the recorded sizes. */
  lemma BytesAccounted(hash: Hash, n: nat, es: seq<Event>)
    requires n > 0 && LegalRun(hash, n, es)
    ensures var w := Run(hash, n, es); var total := Sum(w.core.slots, SizeWeight);
            && (!w.truncated ==> w.core.current <= total)
            && (!w.truncated && !w.overflowed ==> w.core.current == total)
  {
    RunKeepsInv(hash, n, es);
  }

  /** The largest sum of recorded sizes at any point of the run. */
  function MaxRecorded(hash: Hash, n: nat, es: seq<Event>): nat
    requires n > 0
  {
    if es == [] then 0
    else
      var before, now := MaxRecorded(hash, n, es[..|es| - 1]), Sum(Run(hash, n, es).core.slots, SizeWeight);
      if now > before then now else before
  }

  /** The overflow flag tells that the recorded sizes once summed to more than UINT32_MAX. */
  lemma {:induction false} OverflowedIff(hash: Hash, n: nat, es: seq<Event>)
    requires n > 0 && LegalRun(hash, n, es)
    ensures Run(hash, n, es).overflowed <==> MaxRecorded(hash, n, es) > UINT32_MAX
  {
    if es != [] {
      OverflowedIff(hash, n, es[..|es| - 1]);
      RunKeepsInv(hash, n, es);
      StepOverflowed(hash, Run(hash, n, es[..|es| - 1]), es[|es| - 1]);
    }
  }

  lemma StepOverflowed(hash: Hash, w: World, e: Event)
    requires |w.core.slots| > 0
    ensures var w' := Step(hash, w, e);
            && (w.overflowed ==> w'.overflowed)
            && (w'.overflowed ==> w.overflowed || Sum(w'.core.slots, SizeWeight) > UINT32_MAX)
  {
  }

  /** Every realloc asks for a size of at most 32 bits. */
  predicate SizesFit(es: seq<Event>) {
    forall i | 0 <= i < |es| && es[i].Realloc? :: es[i].size <= UINT32_MAX
  }

  lemma {:induction false} NeverTruncated(hash: Hash, n: nat, es: seq<Event>)
    requires n > 0 && SizesFit(es)
    ensures !Run(hash, n, es).truncated
  {
    if es != [] {
      var m := |es| - 1;
      assert forall i :: 0 <= i < m ==> es[..m][i] == es[i];
      NeverTruncated(hash, n, es[..m]);
      StepTruncated(hash, Run(hash, n, es[..m]), es[m]);
    }
  }

  lemma StepTruncated(hash: Hash, w: World, e: Event)
    requires |w.core.slots| > 0 && (e.Realloc? ==> e.size <= UINT32_MAX)
    ensures Step(hash, w, e).truncated == w.truncated
  {
  }

  /** Said of the calls: with realloc sizes of at most 32 bits the byte counter never exceeds the recorded
      sizes, and equals them unless they have at some point summed to more than UINT32_MAX. */
  lemma BytesExact(hash: Hash, n: nat, es: seq<Event>)
    requires n > 0 && LegalRun(hash, n, es) && SizesFit(es)
    ensures var c := Run(hash, n, es).core; var total := Sum(c.slots, SizeWeight);
            c.current <= total && (MaxRecorded(hash, n, es) <= UINT32_MAX ==> c.current == total)
  {
    BytesAccounted(hash, n, es);
    NeverTruncated(hash, n, es);
    OverflowedIff(hash, n, es);
  }

  /** The largest value the byte counter has had at any point of the run. */
  function MaxCurrent(hash: Hash, n: nat, es: seq<Event>): nat
    requires n > 0
  {
    if es == [] then 0
    else
      var before, now := MaxCurrent(hash, n, es[..|es| - 1]), Run(hash, n, es).core.current;
      if now > before then now else before
  }

  lemma {:induction false} PeakIsMaximum(hash: Hash, n: nat, es: seq<Event>)
    requires n > 0
    ensures Run(hash, n, es).core.peak == MaxCurrent(hash, n, es)
  {
    if es != [] {
      PeakIsMaximum(hash, n, es[..|es| - 1]);
      StepPeak(hash, Run(hash, n, es[..|es| - 1]), es[|es| - 1]);
      PeakBounds(hash, n, es[..|es| - 1]);
    }
  }

  lemma {:induction false} PeakBounds(hash: Hash, n: nat, es: seq<Event>)
    requires n > 0
    ensures Run(hash, n, es).core.current <= MaxCurrent(hash, n, es)
  {
  }

  /** Which of the three bookkeeping functions one event runs. */
  function NextCore(hash: Hash, c: Core, e: Event): Core
    requires |c.slots| > 0
  {
    if Allocates(e) then MallocCore(hash, c, e.answer, e.size, e.fileId, e.line)
    else if e.Free? || (e.Realloc? && e.p != 0 && e.size == 0) then (if e.p == 0 then c else FreeCore(c, e.p))
    else if e.Realloc? && e.p != 0 && e.answer != 0 then ReallocCore(hash, c, e.p, e.size, e.answer)
    else c
  }

  lemma StepCore(hash: Hash, w: World, e: Event)
    requires |w.core.slots| > 0
    ensures Step(hash, w, e).core == NextCore(hash, w.core, e)
  {
  }

  lemma StepCalls(hash: Hash, w: World, e: Event)
    requires |w.core.slots| > 0
    ensures Step(hash, w, e).calls == w.calls + NewCalls(w.core, e)
  {
  }

  /** What one event reports to the hotspot table. */
  function NewCalls(c: Core, e: Event): seq<Hit> {
    if Allocates(e) then [Hit(Key(e.fileId, ClampLine(e.line)), e.size % TWO_32, c.seqNo)] else []
  }

  lemma ReallocCorePeak(hash: Hash, c: Core, p: U64, size: nat, a: U64)
    requires |c.slots| > 0 && c.current <= c.peak
    ensures var c' := ReallocCore(hash, c, p, size, a);
            c'.peak == if c'.current > c.peak then c'.current else c.peak
  {
    if a != p && Tracked(c.slots, p) {
      var k, j, r := MovedCore(hash, c, p, size, a);
    }
  }

  lemma StepPeak(hash: Hash, w: World, e: Event)
    requires |w.core.slots| > 0 && w.core.current <= w.core.peak
    ensures var c, c' := w.core, Step(hash, w, e).core;
            c'.peak == if c'.current > c.peak then c'.current else c.peak
  {
    StepCore(hash, w, e);
    if e.Realloc? && e.answer != 0 {
      ReallocCorePeak(hash, w.core, e.p, e.size, e.answer);
    }
  }

  // ---- What the hotspot table is told ----

  /** A report shows a successful allocation: call site, low 32 bits of the size. */
  predicate Reports(x: Hit, e: Event) {
    Allocates(e) && x.key.fileId == e.fileId && ShowsLine(x.key.line, e.line) && x.size == e.size % 0x1_0000_0000
  }

  /** The successful allocations among the calls, in order. */
  function Allocations(es: seq<Event>): seq<Event> {
    if es == [] then []
    else Allocations(es[..|es| - 1]) + if Allocates(es[|es| - 1]) then [es[|es| - 1]] else []
  }

  /** Every successful malloc, tracked or dropped, is reported once, in order, with its own call site and size. */
  lemma {:induction false} CallsReported(hash: Hash, n: nat, es: seq<Event>)
    requires n > 0
    ensures var calls, asked := Run(hash, n, es).calls, Allocations(es);
            |calls| == |asked| && forall i :: 0 <= i < |calls| ==> Reports(calls[i], asked[i])
  {
    if es != [] {
      CallsReported(hash, n, es[..|es| - 1]);
      StepCalls(hash, Run(hash, n, es[..|es| - 1]), es[|es| - 1]);
    }
  }

  /** One more free. */
  lemma FreeEffect(hash: Hash, n: nat, es: seq<Event>, p: U64)
    requires n > 0 && LegalRun(hash, n, es) && Legal(Run(hash, n, es), Free(p))
    ensures var w, w' := Run(hash, n, es), Run(hash, n, es + [Free(p)]);
            && WellFormed(w.core.slots, hash) && LegalRun(hash, n, es + [Free(p)])
            && w'.core == (if p == 0 then w.core else FreeCore(w.core, p)) && w'.calls == w.calls
            && (p != 0 && Forwards(w.core, p) <==> p in w.live) && (p in w.live <==> p in ClientLive(es))
  {
    RunExtends(hash, n, es, Free(p));
    RunWellFormed(hash, n, es);
    EachBlockReturnedOnce(hash, n, es);
    if p != 0 {
      ForwardsIffLive(hash, n, es, p);
    }
  }

  // ---- Capacity ----

  /** The largest number of blocks live at once at any point of the run. */
  function MaxLive(hash: Hash, n: nat, es: seq<Event>): nat
    requires n > 0
  {
    if es == [] then 0
    else
      var before, now := MaxLive(hash, n, es[..|es| - 1]), |Run(hash, n, es).live|;
      if now > before then now else before
  }

  /** Something has been dropped exactly when more than n blocks were once live together. */
  lemma {:induction false} DropsIffOverCapacity(hash: Hash, n: nat, es: seq<Event>)
    requires n > 0 && LegalRun(hash, n, es)
    ensures Run(hash, n, es).core.drops > 0 <==> MaxLive(hash, n, es) > n
  {
    if es != [] {
      var w, e, w' := Run(hash, n, es[..|es| - 1]), es[|es| - 1], Run(hash, n, es);
      DropsIffOverCapacity(hash, n, es[..|es| - 1]);
      RunKeepsInv(hash, n, es[..|es| - 1]);
      RunKeepsInv(hash, n, es);
      StepDrops(hash, w, e);
      if w'.core.drops == 0 {
        TableRefinesHeap(hash, n, es);
        CountUsedPtrs(w'.core.slots);
        SumBounds(w'.core.slots);
        assert w'.live.Keys == UsedPtrs(w'.core.slots);
      }
    }
  }

  lemma UsedAreLive(w: World)
    requires RecordsLive(w.core.slots, w.live)
    ensures UsedPtrs(w.core.slots) <= w.live.Keys
    ensures |UsedPtrs(w.core.slots)| <= |w.live|
  {
    forall p | p in UsedPtrs(w.core.slots)
      ensures p in w.live
    {
      assert Holds(w.core.slots[IndexOf(w.core.slots, p).value], p);
    }
    SubsetSize(UsedPtrs(w.core.slots), w.live.Keys);
  }

  predicate Full(slots: seq<Rec>) {
    forall k :: 0 <= k < |slots| ==> slots[k].state == Used
  }

  predicate Allocates(e: Event) {
    (e.Malloc? || (e.Realloc? && e.p == 0)) && e.answer != 0
  }

  lemma MallocLive(hash: Hash, w: World, size: nat, fileId: U32, line: int, a: U64)
    requires |w.core.slots| > 0 && a != 0 && a !in w.live
    ensures |DoMalloc(hash, w, size, fileId, line, a).live| == |w.live| + 1
  {
    var live' := DoMalloc(hash, w, size, fileId, line, a).live;
    assert live' == w.live[a := live'[a]];
    assert live'.Keys == w.live.Keys + {a};
  }

  lemma MallocDrops(hash: Hash, w: World, size: nat, fileId: U32, line: int, a: U64)
    requires Inv(hash, w) && a != 0 && a !in w.live
    ensures var w' := DoMalloc(hash, w, size, fileId, line, a);
            if Full(w.core.slots) then w'.core.drops == w.core.drops + 1 && |w'.live| > |w.core.slots|
            else w'.core.drops == w.core.drops
  {
    var slots := w.core.slots;
    InsertFailsIffFull(slots, Home(hash, a, |slots|));
    if Full(slots) {
      UsedAreLive(w);
      CountUsedPtrs(slots);
      SumBounds(slots);
      MallocLive(hash, w, size, fileId, line, a);
    }
  }

  lemma ReallocDrops(hash: Hash, c: Core, p: U64, size: nat, a: U64)
    requires |c.slots| > 0
    ensures ReallocCore(hash, c, p, size, a).drops == c.drops
  {
    if a != p && Tracked(c.slots, p) {
      var k, j, r := MovedCore(hash, c, p, size, a);
    }
  }

  /** One call drops exactly when it allocates while every slot is USED, and then over n blocks are live. */
  lemma StepDrops(hash: Hash, w: World, e: Event)
    requires Inv(hash, w) && Legal(w, e)
    ensures var w' := Step(hash, w, e);
            if Allocates(e) && Full(w.core.slots)
            then w'.core.drops == w.core.drops + 1 && |w'.live| > |w.core.slots|
            else w'.core.drops == w.core.drops
  {
    StepCore(hash, w, e);
    if Allocates(e) {
      MallocDrops(hash, w, e.size, e.fileId, e.line, e.answer);
    } else if e.Realloc? && e.answer != 0 {
      ReallocDrops(hash, w.core, e.p, e.size, e.answer);
    }
  }

  lemma {:induction false} SubsetSize(a: set<U64>, b: set<U64>)
    requires a <= b
    ensures |a| <= |b|
    decreases |a|
  {
    if a != {} {
      var x :| x in a;
      SubsetSize(a - {x}, b - {x});
    }
  }

  // ---- Freeing twice ----

  predicate Grave(slots: seq<Rec>, k: nat, p: U64) {
    k < |slots| && slots[k].state == Tombstone && slots[k].ptr == p
  }

  function Slots(r: Option<nat>): set<nat> {
    if r.Some? then {r.value} else {}
  }

  /** The slot a call takes the record of p out of, if any. */
  function Vacates(c: Core, e: Event, p: U64): set<nat> {
    var gone := match e
      case Malloc(_, _, _, _) => false
      case Free(q) => q == p
      case Realloc(q, size, _, _, a) => q == p && (size == 0 || (a != 0 && a != p));
    if gone && p != 0 then Slots(IndexOf(c.slots, p)) else {}
  }

  /** The slot a call writes a new record into, if any. */
  function Fills(hash: Hash, c: Core, e: Event): set<nat>
    requires |c.slots| > 0
  {
    if Allocates(e) then Slots(InsertAt(c.slots, Home(hash, e.answer, |c.slots|)))
    else if e.Realloc? && e.p != 0 && e.size != 0 && e.answer != 0 then
      match IndexOf(c.slots, e.p)
      case None => Slots(InsertAt(c.slots, Home(hash, e.answer, |c.slots|)))
      case Some(k) =>
        if e.answer == e.p then {} else Slots(InsertAt(Vacate(c, k).slots, Home(hash, e.answer, |c.slots|)))
    else {}
  }

  /** From the history: the slots p was ever taken out of and nothing has been written into since. */
  function Graves(hash: Hash, n: nat, es: seq<Event>, p: U64): set<nat>
    requires n > 0
  {
    if es == [] then {}
    else
      var c, e := Run(hash, n, es[..|es| - 1]).core, es[|es| - 1];
      Graves(hash, n, es[..|es| - 1], p) + Vacates(c, e, p) - Fills(hash, c, e)
  }

  lemma MallocGraves(hash: Hash, c: Core, a: U64, size: nat, fileId: U32, line: int, k: nat, p: U64)
    requires |c.slots| > 0
    ensures Grave(MallocCore(hash, c, a, size, fileId, line).slots, k, p) <==>
            Grave(c.slots, k, p) && k !in Slots(InsertAt(c.slots, Home(hash, a, |c.slots|)))
  {
    InsertFailsIffFull(c.slots, Home(hash, a, |c.slots|));
  }

  lemma MovedGraves(hash: Hash, c: Core, q: U64, size: nat, a: U64, k: nat, p: U64)
    requires |c.slots| > 0 && Tracked(c.slots, q) && a != q
    ensures var i := IndexOf(c.slots, q).value;
            Grave(ReallocCore(hash, c, q, size, a).slots, k, p) <==>
            && (Grave(c.slots, k, p) || (k == i && q == p))
            && k !in Slots(InsertAt(Vacate(c, i).slots, Home(hash, a, |c.slots|)))
  {
    var i := IndexOf(c.slots, q).value;
    var v := Vacate(c, i);
    var j := RoomAfterVacate(hash, c, i, a);
    var r := Rec(a, Clamp(size), c.slots[i].fileId, c.slots[i].line, Used, c.seqNo);
    assert ReallocCore(hash, c, q, size, a).slots == v.slots[j := r];
    assert Grave(v.slots, k, p) <==> Grave(c.slots, k, p) || (k == i && q == p);
  }

  lemma AdoptedGraves(hash: Hash, c: Core, q: U64, size: nat, a: U64, k: nat, p: U64)
    requires |c.slots| > 0 && !Tracked(c.slots, q)
    ensures Grave(ReallocCore(hash, c, q, size, a).slots, k, p) <==>
            Grave(c.slots, k, p) && k !in Slots(InsertAt(c.slots, Home(hash, a, |c.slots|)))
  {
    InsertFailsIffFull(c.slots, Home(hash, a, |c.slots|));
  }

  lemma ResizedGraves(hash: Hash, c: Core, q: U64, size: nat, k: nat, p: U64)
    requires |c.slots| > 0 && Tracked(c.slots, q)
    ensures Grave(ReallocCore(hash, c, q, size, q).slots, k, p) <==> Grave(c.slots, k, p)
  {
  }

  lemma ReallocGraves(hash: Hash, c: Core, e: Event, k: nat, p: U64)
    requires |c.slots| > 0 && e.Realloc? && e.p != 0 && e.size != 0 && e.answer != 0
    ensures Grave(ReallocCore(hash, c, e.p, e.size, e.answer).slots, k, p) <==>
            (Grave(c.slots, k, p) || k in Vacates(c, e, p)) && k !in Fills(hash, c, e)
  {
    if !Tracked(c.slots, e.p) {
      AdoptedGraves(hash, c, e.p, e.size, e.answer, k, p);
    } else if e.answer == e.p {
      ResizedGraves(hash, c, e.p, e.size, k, p);
    } else {
      MovedGraves(hash, c, e.p, e.size, e.answer, k, p);
    }
  }

  lemma FreeGraves(c: Core, q: U64, k: nat, p: U64)
    requires q != 0
    ensures Grave(FreeCore(c, q).slots, k, p) <==>
            Grave(c.slots, k, p) || (q == p && k in Slots(IndexOf(c.slots, p)))
  {
  }

  lemma StepGraves(hash: Hash, w: World, e: Event, k: nat, p: U64)
    requires |w.core.slots| > 0
    ensures Grave(Step(hash, w, e).core.slots, k, p) <==>
            (Grave(w.core.slots, k, p) || k in Vacates(w.core, e, p)) && k !in Fills(hash, w.core, e)
  {
    StepCore(hash, w, e);
    if Allocates(e) {
      MallocGraves(hash, w.core, e.answer, e.size, e.fileId, e.line, k, p);
    } else if e.Realloc? && e.p != 0 && e.size != 0 && e.answer != 0 {
      ReallocGraves(hash, w.core, e, k, p);
    } else if !e.Malloc? && e.p != 0 {
      FreeGraves(w.core, e.p, k, p);
    }
  }

  /** The tombstones bearing p are the slots it was taken out of that no insertion has recycled. */
  lemma {:induction false} GravesAre(hash: Hash, n: nat, es: seq<Event>, p: U64, k: nat)
    requires n > 0
    ensures k in Graves(hash, n, es, p) <==> Grave(Run(hash, n, es).core.slots, k, p)
  {
    if es != [] {
      GravesAre(hash, n, es[..|es| - 1], p, k);
      StepGraves(hash, Run(hash, n, es[..|es| - 1]), es[|es| - 1], k, p);
    }
  }

  lemma DeadUntracked(hash: Hash, n: nat, es: seq<Event>, p: U64)
    requires n > 0 && LegalRun(hash, n, es) && p !in Run(hash, n, es).live
    ensures !Tracked(Run(hash, n, es).core.slots, p)
  {
    RunKeepsInv(hash, n, es);
    UsedAreLive(Run(hash, n, es));
  }

  /** A dead block's second free reaches the allocator exactly when every slot it was ever taken out of has had
      a new record written into it since. */
  lemma RepeatedFree(hash: Hash, n: nat, es: seq<Event>, p: U64)
    requires n > 0 && LegalRun(hash, n, es) && p !in Run(hash, n, es).live
    ensures Forwards(Run(hash, n, es).core, p) <==> Graves(hash, n, es, p) == {}
  {
    DeadUntracked(hash, n, es, p);
    var slots := Run(hash, n, es).core.slots;
    if Buried(slots, p) {
      var k :| 0 <= k < |slots| && slots[k].state == Tombstone && slots[k].ptr == p;
      GravesAre(hash, n, es, p, k);
    }
    if Graves(hash, n, es, p) != {} {
      var k :| k in Graves(hash, n, es, p);
      GravesAre(hash, n, es, p, k);
    }
  }

  /** Events that write no new record: frees, failures, and resizing a tracked block in place. */
  predicate Quiet(w: World, e: Event) {
    match e
    case Malloc(_, _, _, a) => a == 0
    case Free(_) => true
    case Realloc(p, size, _, _, a) =>
      if p == 0 then a == 0 else size == 0 || a == 0 || (a == p && Tracked(w.core.slots, p))
  }

  lemma StepKeepsBuried(hash: Hash, w: World, e: Event, p: U64)
    requires |w.core.slots| > 0 && Quiet(w, e) && Buried(w.core.slots, p)
    ensures Buried(Step(hash, w, e).core.slots, p)
  {
    var k :| 0 <= k < |w.core.slots| && w.core.slots[k].state == Tombstone && w.core.slots[k].ptr == p;
    assert Step(hash, w, e).core.slots[k] == w.core.slots[k];
  }

  predicate QuietSince(hash: Hash, n: nat, es: seq<Event>, more: seq<Event>)
    requires n > 0
  {
    more == [] ||
    (QuietSince(hash, n, es, more[..|more| - 1]) && Quiet(Run(hash, n, es + more[..|more| - 1]), more[|more| - 1]))
  }

  lemma {:induction false} BuriedStays(hash: Hash, n: nat, es: seq<Event>, more: seq<Event>, p: U64)
    requires n > 0 && QuietSince(hash, n, es, more) && Buried(Run(hash, n, es).core.slots, p)
    ensures Buried(Run(hash, n, es + more).core.slots, p)
  {
    if more == [] {
      assert es + more == es;
    } else {
      var m := |more| - 1;
      BuriedStays(hash, n, es, more[..m], p);
      assert (es + more)[..|es + more| - 1] == es + more[..m];
      StepKeepsBuried(hash, Run(hash, n, es + more[..m]), more[m], p);
    }
  }

  /** An address is handed out only by a call that writes a record or is dropped, so a quiet call gives none. */
  lemma StepKeepsDead(hash: Hash, w: World, e: Event, p: U64)
    requires |w.core.slots| > 0 && Quiet(w, e) && Legal(w, e) && p !in w.live
    ensures p !in Step(hash, w, e).live
  {
  }

  lemma {:induction false} DeadStays(hash: Hash, n: nat, es: seq<Event>, more: seq<Event>, p: U64)
    requires n > 0 && LegalRun(hash, n, es + more) && QuietSince(hash, n, es, more)
    requires p !in Run(hash, n, es).live
    ensures p !in Run(hash, n, es + more).live
  {
    if more == [] {
      assert es + more == es;
    } else {
      var m := |more| - 1;
      assert (es + more)[..|es + more| - 1] == es + more[..m];
      DeadStays(hash, n, es, more[..m], p);
      StepKeepsDead(hash, Run(hash, n, es + more[..m]), more[m], p);
    }
  }

  lemma {:induction false} LegalPrefix(hash: Hash, n: nat, es: seq<Event>, more: seq<Event>)
    requires n > 0 && LegalRun(hash, n, es + more)
    ensures LegalRun(hash, n, es)
    decreases |more|
  {
    if more == [] {
      assert es + more == es;
    } else {
      assert (es + more)[..|es + more| - 1] == es + more[..|more| - 1];
      LegalPrefix(hash, n, es, more[..|more| - 1]);
    }
  }

  /** Freeing a tracked block again, with no insertion in between, is swallowed. */
  lemma DoubleFreeSwallowed(hash: Hash, n: nat, es: seq<Event>, p: U64, more: seq<Event>)
    requires n > 0 && p != 0 && Tracked(Run(hash, n, es).core.slots, p)
    requires LegalRun(hash, n, es + [Free(p)] + more) && QuietSince(hash, n, es + [Free(p)], more)
    ensures var w := Run(hash, n, es + [Free(p)] + more);
            !Forwards(w.core, p) && Legal(w, Free(p)) && Step(hash, w, Free(p)) == w
  {
    assert (es + [Free(p)])[..|es|] == es;
    var slots := Run(hash, n, es).core.slots;
    var k := IndexOf(slots, p).value;
    var after := Run(hash, n, es + [Free(p)]).core.slots;
    assert after[k].state == Tombstone && after[k].ptr == p;
    BuriedStays(hash, n, es + [Free(p)], more, p);
    LegalPrefix(hash, n, es + [Free(p)], more);
    FreeForwardsLive(hash, n, es, p);
    DeadStays(hash, n, es + [Free(p)], more, p);
    DeadUntracked(hash, n, es + [Free(p)] + more, p);
  }

  // ---- Where the documented counters and the forwarding of double frees give way ----

  lemma OneSlotMalloc(hash: Hash, w: World, a: U64)
    requires |w.core.slots| == 1 && w.core.slots[0].state != Used && a != 0
    ensures var w' := Step(hash, w, Malloc(8, 0, 0, a));
            && w'.core.slots == [Rec(a, 8, 0, 0, Used, w.core.seqNo)]
            && w'.core.tombstones == w.core.tombstones && w'.core.seqNo == w.core.seqNo + 1
            && w'.live.Keys == w.live.Keys + {a}
  {
    InsertFailsIffFull(w.core.slots, 0);
  }

  lemma OneSlotFree(hash: Hash, w: World, a: U64)
    requires |w.core.slots| == 1 && Holds(w.core.slots[0], a) && a != 0
    ensures var w' := Step(hash, w, Free(a));
            && w'.core.slots == [w.core.slots[0].(state := Tombstone)]
            && w'.core.tombstones == w.core.tombstones + 1 && w'.core.seqNo == w.core.seqNo
            && w'.live.Keys == w.live.Keys - {a}
  {
    assert w.core.slots[..0] == [];
    assert IndexOf(w.core.slots, a) == Some(0);
  }

  /** In a one-slot table, a malloc that recycles the tombstone leaves the tombstone counter one too
      high and lets a second free of the first block through. */
  lemma RecyclingExample(hash: Hash, a: U64, b: U64)
    requires a != 0 && b != 0 && a != b
    ensures var es := [Malloc(8, 0, 0, a), Free(a), Malloc(8, 0, 0, b)]; var w := Run(hash, 1, es);
            && LegalRun(hash, 1, es)
            && w.core.tombstones == 1 && Sum(w.core.slots, TombstoneWeight) == 0
            && a !in w.live && Forwards(w.core, a)
  {
    var e0, e1, e2 := Malloc(8, 0, 0, a), Free(a), Malloc(8, 0, 0, b);
    assert [] + [e0] == [e0] && [e0] + [e1] == [e0, e1] && [e0, e1] + [e2] == [e0, e1, e2];
    RunExtends(hash, 1, [], e0);
    OneSlotMalloc(hash, Start(1), a);
    RunExtends(hash, 1, [e0], e1);
    OneSlotFree(hash, Run(hash, 1, [e0]), a);
    RunExtends(hash, 1, [e0, e1], e2);
    OneSlotMalloc(hash, Run(hash, 1, [e0, e1]), b);
    OneUsedSlot(Run(hash, 1, [e0, e1, e2]).core.slots, a);
  }

  lemma OneUsedSlot(slots: seq<Rec>, a: U64)
    requires |slots| == 1 && slots[0].state == Used && slots[0].ptr != a
    ensures Sum(slots, TombstoneWeight) == 0 && !Buried(slots, a)
  {
    assert slots[..0] == [];
  }

  /** An in-place resize stores the clamped size exactly when the request fits 32 bits or cuts to the clamp. */
  lemma InPlaceSizeIff(hash: Hash, w: World, p: U64, size: nat, fileId: U32, line: int)
    requires |w.core.slots| > 0 && p != 0 && size != 0 && Tracked(w.core.slots, p)
    ensures var k := IndexOf(w.core.slots, p).value; var w' := DoRealloc(hash, w, p, size, fileId, line, p);
            w'.core.slots[k].size == Clamp(size) <==> size <= UINT32_MAX || size % TWO_32 == UINT32_MAX
  {
  }

  /** From an exact state, an in-place resize keeps the byte counter within the recorded sizes exactly
      when the request fits 32 bits or what is recorded afterwards still reaches UINT32_MAX. */
  lemma InPlaceBytesIff(hash: Hash, w: World, p: U64, size: nat, fileId: U32, line: int)
    requires |w.core.slots| > 0 && ByteInv(w) && !w.truncated && !w.overflowed
    requires p != 0 && size != 0 && Tracked(w.core.slots, p)
    ensures var was := w.core.slots[IndexOf(w.core.slots, p).value].size;
            var total := Sum(w.core.slots, SizeWeight);
            var w' := DoRealloc(hash, w, p, size, fileId, line, p);
            w'.core.current <= Sum(w'.core.slots, SizeWeight) <==>
            size <= UINT32_MAX || total - was + size % TWO_32 >= UINT32_MAX
  {
    var k := IndexOf(w.core.slots, p).value;
    ReallocSums(hash, w.core, p, size, p);
    ResizeLaw(w.core, w.core.slots[k].size, size, Sum(w.core.slots, SizeWeight));
  }

  /** Resizing a block in place to 4 GiB records size zero and leaves the byte counter at its top. */
  lemma TruncationExample(hash: Hash, a: U64)
    requires a != 0
    ensures var es := [Malloc(8, 0, 0, a), Realloc(a, TWO_32, 0, 0, a)]; var w := Run(hash, 1, es);
            LegalRun(hash, 1, es) && w.core.current == UINT32_MAX && Sum(w.core.slots, SizeWeight) == 0
  {
    var e0, e1 := Malloc(8, 0, 0, a), Realloc(a, TWO_32, 0, 0, a);
    assert [] + [e0] == [e0] && [e0] + [e1] == [e0, e1];
    RunExtends(hash, 1, [], e0);
    OneSlotMalloc(hash, Start(1), a);
    RunExtends(hash, 1, [e0], e1);
    var w := Run(hash, 1, [e0]);
    RunKeepsInv(hash, 1, [e0]);
    OneSlotSum(w.core.slots);
    assert Tracked(w.core.slots, a) by {
      assert Holds(w.core.slots[0], a);
    }
    ReallocSums(hash, w.core, a, TWO_32, a);
  }

  lemma OneSlotSum(slots: seq<Rec>)
    requires |slots| == 1
    ensures Sum(slots, SizeWeight) == SizeWeight(slots[0])
  {
    assert slots[..0] == [];
  }
}

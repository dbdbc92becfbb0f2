/** The tracker as the program keeps it: one array of records and a set of counters, changed in place. */
module Tracker {
  import opened Words
  import opened Options
  import opened AllocTable
  import opened TrackerState
  import opened TrackerRuns
  import opened KeyHistory
  import opened Hotspots

  class Tracker {
    const bits: nat
    const hash: Hash
    const allocs: array<Rec>
    const hotspots: HotspotTable
    var seqNo: nat
    var usedCount: int
    var tombstones: int
    var drops: nat
    var totalAllocs: nat
    var totalFrees: nat
    var totalReallocs: nat
    var current: U32
    var peak: U32
    var initialized: bool
    ghost var events: seq<Event>

    ghost function Fields(): Core
      reads this, allocs
    {
      Core(allocs[..], seqNo, usedCount, tombstones, drops, totalAllocs, totalFrees, totalReallocs, current, peak)
    }

    ghost predicate Shaped()
      reads this
    {
      allocs.Length == Pow2(bits) > 0
    }

    /** The world specified by the calls made so far. */
    ghost function Now(): World
      requires Shaped()
      reads this
    {
      Run(hash, allocs.Length, events)
    }

    ghost predicate Ready()
      reads this, allocs, hotspots, hotspots.table
    {
      && Shaped() && initialized
      && LegalRun(hash, allocs.Length, events)
      && Fields() == Now().core
      && hotspots.Valid() && hotspots.history == Now().calls
    }

    /** Before the first call every field is a zeroed static. */
    ghost predicate Valid()
      reads this, allocs, hotspots, hotspots.table
    {
      if initialized then Ready()
      else Shaped() && events == [] && forall k :: 0 <= k < allocs.Length ==> allocs[k] == ZERO_REC
    }

    constructor (bits: nat, hash: Hash, hotspotCapacity: nat)
      ensures Valid() && events == [] && fresh(allocs) && fresh(hotspots) && fresh(hotspots.table)
      ensures allocs.Length == Pow2(bits) && this.hash == hash && !initialized
    {
      this.bits, this.hash := bits, hash;
      allocs := new Rec[Pow2(bits)](_ => ZERO_REC);
      hotspots := new HotspotTable(hotspotCapacity);
      seqNo, usedCount, tombstones, drops := 0, 0, 0, 0;
      totalAllocs, totalFrees, totalReallocs, current, peak := 0, 0, 0, 0, 0;
      initialized := false;
      events := [];
    }

    /** Sets the tracker up once; a later call changes nothing. */
    method Init()
      requires Valid()
      modifies this, allocs, hotspots, hotspots.table
      ensures Ready() && events == old(events)
      ensures old(initialized) ==> Fields() == old(Fields())
    {
      if initialized {
        return;
      }
      ResetCore();
      hotspots.Init();
      initialized := true;
    }

    method ResetCore()
      requires Shaped() && forall k :: 0 <= k < allocs.Length ==> allocs[k] == ZERO_REC
      modifies this, allocs
      ensures Fields() == InitialCore(allocs.Length) && unchanged(this`initialized, this`events)
    {
      ClearSlots();
      seqNo, usedCount, tombstones, drops := 1, 0, 0, 0;
      totalAllocs, totalFrees, totalReallocs, current, peak := 0, 0, 0, 0, 0;
    }

    method ClearSlots()
      requires forall k :: 0 <= k < allocs.Length ==> allocs[k] == ZERO_REC
      modifies allocs
      ensures allocs[..] == InitialCore(allocs.Length).slots
    {
      for i := 0 to allocs.Length
        invariant forall k :: 0 <= k < allocs.Length ==> allocs[k] == ZERO_REC
      {
        allocs[i] := allocs[i].(state := Empty, ptr := 0);
      }
    }

    // ---- Probing ----

    method NextIndex(ghost home: nat, ghost i: nat, idx: nat) returns (next: nat)
      requires Shaped() && home < allocs.Length && i < allocs.Length && idx == Slot(home, i, allocs.Length)
      ensures next == if i + 1 < allocs.Length then Slot(home, i + 1, allocs.Length) else home
    {
      next := And(idx + 1, allocs.Length - 1);
      MaskIsMod(idx + 1, bits);
      NextSlot(home, i, allocs.Length);
    }

    method HomeIndex(ptr: U64) returns (home: nat)
      requires Shaped()
      ensures home == Home(hash, ptr, allocs.Length)
    {
      home := And(hash(ptr), allocs.Length - 1);
      MaskIsMod(hash(ptr), bits);
    }

    /** Probing finds the record of ptr exactly when some USED slot holds it, full table or not. */
    method FindSlot(ptr: U64) returns (found: bool, idx: nat)
      requires Shaped() && WellFormed(allocs[..], hash)
      ensures found <==> exists k :: 0 <= k < allocs.Length && Holds(allocs[k], ptr)
      ensures IndexOf(allocs[..], ptr) == if found then Some(idx) else None
    {
      ghost var n, slots := allocs.Length, allocs[..];
      var home := HomeIndex(ptr);
      idx := home;
      for i := 0 to allocs.Length
        invariant idx == if i < n then Slot(home, i, n) else home
        invariant forall d :: 0 <= d < i ==> !Holds(slots[Slot(home, d, n)], ptr)
      {
        if allocs[idx].state == Empty {
          ProbeMisses(slots, hash, ptr, i);
          return false, idx;
        }
        if allocs[idx].state == Used && allocs[idx].ptr == ptr {
          TrackedAt(slots, ptr, idx);
          return true, idx;
        }
        idx := NextIndex(home, i, idx);
      }
      ProbeMisses(slots, hash, ptr, n);
      return false, idx;
    }

    method FindInsertSlot(ptr: U64) returns (found: bool, idx: nat)
      requires Shaped()
      ensures InsertAt(allocs[..], Home(hash, ptr, allocs.Length)) == if found then Some(idx) else None
      ensures found ==> idx < allocs.Length && allocs[idx].state != Used
    {
      ghost var n, slots := allocs.Length, allocs[..];
      var home := HomeIndex(ptr);
      idx := home;
      var tombstoneIdx := allocs.Length;
      ghost var t := 0;
      for i := 0 to allocs.Length
        invariant idx == if i < n then Slot(home, i, n) else home
        invariant forall d :: 0 <= d < i ==> slots[Slot(home, d, n)].state != Empty
        invariant t <= i && forall d :: 0 <= d < t ==> slots[Slot(home, d, n)].state != Tombstone
        invariant t < i ==> tombstoneIdx == Slot(home, t, n) && slots[tombstoneIdx].state == Tombstone
        invariant t == i ==> tombstoneIdx == n
      {
        if allocs[idx].state == Empty {
          ScanChooses(slots, home, i, t);
          if tombstoneIdx != allocs.Length {
            return true, tombstoneIdx;
          }
          return true, idx;
        }
        if allocs[idx].state == Tombstone && tombstoneIdx == allocs.Length {
          tombstoneIdx := idx;
        }
        t := if t < i || slots[idx].state == Tombstone then t else t + 1;
        idx := NextIndex(home, i, idx);
      }
      ScanChooses(slots, home, n, t);
      if tombstoneIdx != allocs.Length {
        return true, tombstoneIdx;
      }
      return false, idx;
    }

    // ---- Counters ----

    method AddUsed(delta: U32)
      modifies this`current, this`peak
      ensures Fields() == TrackerState.AddUsed(old(Fields()), delta)
    {
      if UINT32_MAX - current < delta {
        current := UINT32_MAX;
      } else {
        current := current + delta;
      }
      if current > peak {
        peak := current;
      }
    }

    method SubUsed(delta: U32)
      modifies this`current
      ensures Fields() == TrackerState.SubUsed(old(Fields()), delta)
    {
      if current < delta {
        current := 0;
      } else {
        current := current - delta;
      }
    }

    method Resize(oldSize: U32, size: nat)
      modifies this`current, this`peak
      ensures Fields() == TrackerState.Resize(old(Fields()), oldSize, size)
    {
      if size > oldSize {
        AddUsed(Clamp(size - oldSize));
      } else {
        SubUsed(Clamp(oldSize - size));
      }
    }

    method SlotFree(idx: nat)
      requires idx < allocs.Length
      modifies allocs, this`usedCount, this`tombstones
      ensures Fields() == if old(allocs[idx]).state == Used then Vacate(old(Fields()), idx) else old(Fields())
    {
      if allocs[idx].state == Used {
        allocs[idx] := allocs[idx].(state := Tombstone);
        usedCount := usedCount - 1;
        tombstones := tombstones + 1;
      }
    }

    // ---- The bookkeeping of each entry point ----

    method Track(ptr: U64, size: nat, fileId: U32, line: int)
      requires Shaped()
      modifies this, allocs
      ensures Fields() == MallocCore(hash, old(Fields()), ptr, size, fileId, line)
      ensures unchanged(this`initialized, this`events)
    {
      var lineNum: U16 := if line < 0 then 0 else if line > 65535 then 65535 else line;
      var found, idx := FindInsertSlot(ptr);
      if !found {
        drops := drops + 1;
        return;
      }
      allocs[idx] := Rec(ptr, Clamp(size), fileId, lineNum, Used, seqNo);
      usedCount := usedCount + 1;
      totalAllocs := totalAllocs + 1;
      seqNo := seqNo + 1;
      AddUsed(allocs[idx].size);
    }

    /** `forwarded` tells whether the pointer goes on to the real allocator. */
    method Untrack(ptr: U64) returns (forwarded: bool)
      requires Shaped() && WellFormed(allocs[..], hash)
      modifies this, allocs
      ensures Fields() == FreeCore(old(Fields()), ptr) && forwarded == Forwards(old(Fields()), ptr)
      ensures unchanged(this`initialized, this`events)
    {
      var found, idx := FindSlot(ptr);
      if found {
        SubUsed(allocs[idx].size);
        totalFrees := totalFrees + 1;
        SlotFree(idx);
        return true;
      }
      for i := 0 to allocs.Length
        invariant unchanged(this, allocs)
        invariant forall k :: 0 <= k < i ==> !(allocs[..][k].state == Tombstone && allocs[..][k].ptr == ptr)
      {
        if allocs[i].state == Tombstone && allocs[i].ptr == ptr {
          assert allocs[..][i].state == Tombstone && allocs[..][i].ptr == ptr;
          return false;
        }
      }
      return true;
    }

    /** The record-writing block both insertion paths of realloc share. */
    method Reinsert(idx: nat, r: Rec)
      requires idx < allocs.Length
      modifies allocs, this`seqNo, this`usedCount, this`tombstones, this`totalReallocs
      ensures Fields() == TrackerState.Reinsert(old(Fields()), idx, r) && allocs[idx] == r
    {
      var reuse := allocs[idx].state == Tombstone;
      allocs[idx] := r;
      seqNo := seqNo + 1;
      if reuse && tombstones > 0 {
        tombstones := tombstones - 1;
      }
      usedCount := usedCount + 1;
      totalReallocs := totalReallocs + 1;
    }

    /** The block came back at another address: its record moves, call site kept. */
    method Move(idx: nat, ptr: U64, size: nat, newPtr: U64)
      requires Shaped() && IndexOf(allocs[..], ptr) == Some(idx) && newPtr != ptr
      modifies this, allocs
      ensures Fields() == ReallocCore(hash, old(Fields()), ptr, size, newPtr)
      ensures unchanged(this`initialized, this`events)
    {
      ghost var k, j, r := MovedCore(hash, Fields(), ptr, size, newPtr);
      var oldSize, oldFileId, oldLine := allocs[idx].size, allocs[idx].fileId, allocs[idx].line;
      SlotFree(idx);
      var found, newIdx := FindInsertSlot(newPtr);
      ghost var room := RoomAfterVacate(hash, old(Fields()), idx, newPtr);
      Reinsert(newIdx, Rec(newPtr, Clamp(size), oldFileId, oldLine, Used, seqNo));
      Resize(oldSize, size);
    }

    method Retrack(tracked: bool, idx: nat, ptr: U64, size: nat, newPtr: U64)
      requires Shaped() && IndexOf(allocs[..], ptr) == if tracked then Some(idx) else None
      modifies this, allocs
      ensures Fields() == ReallocCore(hash, old(Fields()), ptr, size, newPtr)
      ensures unchanged(this`initialized, this`events)
    {
      if tracked && newPtr == ptr {
        ResizeInPlace(idx, ptr, size);
      } else if tracked {
        Move(idx, ptr, size, newPtr);
      } else {
        Adopt(ptr, size, newPtr);
      }
    }

    /** The block stayed where it was. */
    method ResizeInPlace(idx: nat, ptr: U64, size: nat)
      requires Shaped() && IndexOf(allocs[..], ptr) == Some(idx)
      modifies this, allocs
      ensures Fields() == ReallocCore(hash, old(Fields()), ptr, size, ptr)
      ensures unchanged(this`initialized, this`events)
    {
      var oldSize := allocs[idx].size;
      allocs[idx] := allocs[idx].(size := size % TWO_32, seqNo := seqNo);
      Resize(oldSize, size);
      seqNo := seqNo + 1;
      totalReallocs := totalReallocs + 1;
    }

    /** The block was not tracked: it gets a record if there is room. */
    method Adopt(ptr: U64, size: nat, newPtr: U64)
      requires Shaped() && !Tracked(allocs[..], ptr)
      modifies this, allocs
      ensures Fields() == ReallocCore(hash, old(Fields()), ptr, size, newPtr)
      ensures unchanged(this`initialized, this`events)
    {
      InsertFailsIffFull(allocs[..], Home(hash, newPtr, allocs.Length));
      var found, newIdx := FindInsertSlot(newPtr);
      if found {
        Reinsert(newIdx, Rec(newPtr, Clamp(size), 0, 0, Used, seqNo));
        AddUsed(allocs[newIdx].size);
      }
    }

    /** The body of malloc; realloc of NULL runs it too. */
    method Allocate(size: nat, fileId: U32, line: int, answer: U64)
      requires Shaped() && hotspots.Valid()
      modifies this, allocs, hotspots, hotspots.table
      ensures hotspots.Valid() && unchanged(this`initialized, this`events)
      ensures Fields() == if answer == 0 then old(Fields())
                          else MallocCore(hash, old(Fields()), answer, size, fileId, line)
      ensures hotspots.history == old(hotspots.history) + (if answer == 0 then []
                                     else [Hit(Key(fileId, ClampLine(line)), size % TWO_32, old(seqNo))])
    {
      if answer == 0 {
        return;
      }
      var currentSeq := seqNo;
      Track(answer, size, fileId, line);
      hotspots.Record(fileId, ClampLine(line), size % TWO_32, currentSeq);
    }

    /** The body of realloc. */
    method Reallocate(ptr: U64, size: nat, fileId: U32, line: int, answer: U64) returns (newPtr: U64)
      requires Shaped() && hotspots.Valid() && WellFormed(allocs[..], hash)
      modifies this, allocs, hotspots, hotspots.table
      ensures hotspots.Valid() && unchanged(this`initialized, this`events)
      ensures newPtr == if ptr != 0 && size == 0 then 0 else answer
      ensures Fields() == NextCore(hash, old(Fields()), Event.Realloc(ptr, size, fileId, line, answer))
      ensures hotspots.history
           == old(hotspots.history) + NewCalls(old(Fields()), Event.Realloc(ptr, size, fileId, line, answer))
    {
      newPtr := answer;
      if ptr == 0 {
        Allocate(size, fileId, line, answer);
      } else if size == 0 {
        var forwarded := Untrack(ptr);
        newPtr := 0;
      } else {
        var tracked, idx := FindSlot(ptr);
        if newPtr != 0 {
          Retrack(tracked, idx, ptr, size, newPtr);
        }
      }
    }

    // ---- Entry points; `answer` is what the real allocator returned ----

    method Malloc(size: nat, fileId: U32, line: int, answer: U64) returns (ptr: U64)
      requires Valid() && Legal(Now(), Event.Malloc(size, fileId, line, answer))
      modifies this, allocs, hotspots, hotspots.table
      ensures Ready() && ptr == answer
      ensures events == old(events) + [Event.Malloc(size, fileId, line, answer)]
    {
      Init();
      MallocEffect(hash, allocs.Length, events, size, fileId, line, answer);
      Allocate(size, fileId, line, answer);
      events := events + [Event.Malloc(size, fileId, line, answer)];
      ptr := answer;
    }

    /** The blocks the client holds, and only those, go on to the real allocator. */
    method Free(ptr: U64) returns (forwarded: bool)
      requires Valid() && Legal(Now(), Event.Free(ptr))
      modifies this, allocs, hotspots, hotspots.table
      ensures Ready() && events == old(events) + [Event.Free(ptr)]
      ensures forwarded <==> ptr in old(Now()).live
      ensures forwarded <==> ptr in ClientLive(old(events))
    {
      Init();
      FreeEffect(hash, allocs.Length, events, ptr);
      forwarded := false;
      if ptr != 0 {
        forwarded := Untrack(ptr);
      }
      events := events + [Event.Free(ptr)];
    }

    method Realloc(ptr: U64, size: nat, fileId: U32, line: int, answer: U64) returns (newPtr: U64)
      requires Valid() && Legal(Now(), Event.Realloc(ptr, size, fileId, line, answer))
      modifies this, allocs, hotspots, hotspots.table
      ensures Ready() && newPtr == if ptr != 0 && size == 0 then 0 else answer
      ensures events == old(events) + [Event.Realloc(ptr, size, fileId, line, answer)]
    {
      Init();
      ghost var e := Event.Realloc(ptr, size, fileId, line, answer);
      RunEffect(hash, allocs.Length, events, e);
      RunWellFormed(hash, allocs.Length, events);
      newPtr := Reallocate(ptr, size, fileId, line, answer);
      events := events + [e];
    }
  }
}

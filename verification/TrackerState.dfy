/** The tracker's counters and the effect of one entry point on table and counters together. */
module TrackerState {
  import opened Words
  import opened AllocTable

  /** Every global of the tracker except the lock flag. Event counters are unbounded. */
  datatype Core = Core(
    slots: seq<Rec>,
    seqNo: nat,
    usedCount: int,
    tombstones: int,
    drops: nat,
    totalAllocs: nat,
    totalFrees: nat,
    totalReallocs: nat,
    current: U32,
    peak: U32)

  function InitialCore(n: nat): (c: Core)
    ensures |c.slots| == n
  {
    Core(seq(n, _ => ZERO_REC), 1, 0, 0, 0, 0, 0, 0, 0, 0)
  }

  function Clamp(size: nat): U32 {
    if size > UINT32_MAX then UINT32_MAX else size
  }

  function ClampLine(line: int): U16 {
    if line < 0 then 0 else if line > 65535 then 65535 else line
  }

  function AddUsed(c: Core, delta: U32): Core {
    var total: U32 := if UINT32_MAX - c.current < delta then UINT32_MAX else c.current + delta;
    c.(current := total, peak := if total > c.peak then total else c.peak)
  }

  function SubUsed(c: Core, delta: U32): Core {
    c.(current := if c.current < delta then 0 else c.current - delta)
  }

  function Resize(c: Core, oldSize: U32, size: nat): Core {
    if size > oldSize then AddUsed(c, Clamp(size - oldSize)) else SubUsed(c, Clamp(oldSize - size))
  }

  function Vacate(c: Core, k: nat): Core
    requires k < |c.slots|
  {
    c.(slots := c.slots[k := c.slots[k].(state := Tombstone)],
       usedCount := c.usedCount - 1,
       tombstones := c.tombstones + 1)
  }

  /** malloc: the tombstone counter is left alone even when a tombstone is reused. */
  function MallocCore(hash: Hash, c: Core, p: U64, size: nat, fileId: U32, line: int): Core
    requires |c.slots| > 0
  {
    match InsertAt(c.slots, Home(hash, p, |c.slots|))
    case None => c.(drops := c.drops + 1)
    case Some(k) =>
      InsertFailsIffFull(c.slots, Home(hash, p, |c.slots|));
      AddUsed(c.(slots := c.slots[k := Rec(p, Clamp(size), fileId, ClampLine(line), Used, c.seqNo)],
                 seqNo := c.seqNo + 1,
                 usedCount := c.usedCount + 1,
                 totalAllocs := c.totalAllocs + 1),
              Clamp(size))
  }

  function FreeCore(c: Core, p: U64): Core {
    match IndexOf(c.slots, p)
    case None => c
    case Some(k) => Vacate(SubUsed(c, c.slots[k].size).(totalFrees := c.totalFrees + 1), k)
  }

  predicate Buried(slots: seq<Rec>, p: U64) {
    exists k :: 0 <= k < |slots| && slots[k].state == Tombstone && slots[k].ptr == p
  }

  /** Whether free hands the pointer on to the real allocator. */
  predicate Forwards(c: Core, p: U64) {
    Tracked(c.slots, p) || !Buried(c.slots, p)
  }

  /** Insertion on behalf of realloc: a reused tombstone is counted off. */
  function Reinsert(c: Core, k: nat, r: Rec): Core
    requires k < |c.slots|
  {
    c.(slots := c.slots[k := r],
       seqNo := c.seqNo + 1,
       usedCount := c.usedCount + 1,
       tombstones := if c.slots[k].state == Tombstone && c.tombstones > 0 then c.tombstones - 1 else c.tombstones,
       totalReallocs := c.totalReallocs + 1)
  }

  /** A successful realloc of p to size, answered with address a. */
  function ReallocCore(hash: Hash, c: Core, p: U64, size: nat, a: U64): Core
    requires |c.slots| > 0
  {
    match IndexOf(c.slots, p)
    case Some(k) =>
      var was := c.slots[k];
      if a == p then
        Resize(c.(slots := c.slots[k := was.(size := size % TWO_32, seqNo := c.seqNo)],
                  seqNo := c.seqNo + 1,
                  totalReallocs := c.totalReallocs + 1),
               was.size, size)
      else
        var v := Vacate(c, k);
        InsertFailsIffFull(v.slots, Home(hash, a, |v.slots|));
        (match InsertAt(v.slots, Home(hash, a, |v.slots|))
         case None => v
         case Some(j) =>
           Resize(Reinsert(v, j, Rec(a, Clamp(size), was.fileId, was.line, Used, v.seqNo)), was.size, size))
    case None =>
      InsertFailsIffFull(c.slots, Home(hash, a, |c.slots|));
      match InsertAt(c.slots, Home(hash, a, |c.slots|))
      case None => c
      case Some(j) =>
        AddUsed(Reinsert(c, j, Rec(a, Clamp(size), 0, 0, Used, c.seqNo)), Clamp(size))
  }
}

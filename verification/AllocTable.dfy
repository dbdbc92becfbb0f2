/** The open-addressed allocation table: linear probing, tombstones, tombstone-first insertion. */
module AllocTable {
  import opened Words
  import opened Options

  datatype State = Empty | Used | Tombstone

  datatype Rec = Rec(ptr: U64, size: U32, fileId: U32, line: U16, state: State, seqNo: nat)

  const ZERO_REC := Rec(0, 0, 0, 0, Empty, 0)

  type Hash = U64 -> U32

  // ---- Probe order ----

  /** The slot visited at probe step i from a home slot, in a table of n slots. */
  function Slot(home: nat, i: nat, n: nat): (k: nat)
    requires home < n && i < n
    ensures k < n && k == (home + i) % n
  {
    if home + i < n then home + i else home + i - n
  }

  /** One index on, modulo n, is the slot of the next probe step. */
  lemma NextSlot(home: nat, i: nat, n: nat)
    requires home < n && i < n
    ensures (Slot(home, i, n) + 1) % n == if i + 1 < n then Slot(home, i + 1, n) else home
  {
    var idx := Slot(home, i, n);
    if idx + 1 == n {
      ModUnique(n, n, 1, 0);
    } else {
      ModUnique(idx + 1, n, 0, idx + 1);
    }
  }

  /** The probe step at which slot k is visited. */
  function Dist(home: nat, k: nat, n: nat): (i: nat)
    requires home < n && k < n
    ensures i < n && Slot(home, i, n) == k
  {
    if k >= home then k - home else k + n - home
  }

  function Home(hash: Hash, p: U64, n: nat): (h: nat)
    requires n > 0
    ensures h < n
  {
    hash(p) % n
  }

  /** The first probe step from i on that meets the given state, or n. */
  function First(slots: seq<Rec>, home: nat, st: State, i: nat): (r: nat)
    requires home < |slots| && i <= |slots|
    ensures i <= r <= |slots|
    ensures forall d :: i <= d < r ==> slots[Slot(home, d, |slots|)].state != st
    ensures r < |slots| ==> slots[Slot(home, r, |slots|)].state == st
    decreases |slots| - i
  {
    if i == |slots| || slots[Slot(home, i, |slots|)].state == st then i
    else First(slots, home, st, i + 1)
  }

  /** Insertion policy: the first tombstone met before the first empty slot, else that empty slot. */
  function InsertAt(slots: seq<Rec>, home: nat): (r: Option<nat>)
    requires home < |slots|
  {
    var e, t := First(slots, home, Empty, 0), First(slots, home, Tombstone, 0);
    if t < e then Some(Slot(home, t, |slots|))
    else if e < |slots| then Some(Slot(home, e, |slots|))
    else None
  }

  /** Preferring a tombstone over the EMPTY slot that ends the scan picks the first slot not USED. */
  lemma InsertIsFirstFree(slots: seq<Rec>, home: nat, d: nat)
    requires home < |slots| && d < |slots|
    ensures InsertAt(slots, home) == Some(Slot(home, d, |slots|)) <==>
            && slots[Slot(home, d, |slots|)].state != Used
            && forall j :: 0 <= j < d ==> slots[Slot(home, j, |slots|)].state == Used
  {
    var n := |slots|;
    var e, t := First(slots, home, Empty, 0), First(slots, home, Tombstone, 0);
    var f := if t < e then t else e;
    assert forall j :: 0 <= j < f ==> slots[Slot(home, j, n)].state == Used;
    if f < n {
      assert slots[Slot(home, f, n)].state != Used;
      if d != f {
        assert Slot(home, d, n) != Slot(home, f, n);
      }
    }
  }

  /** Tombstones never cost an insertion: it fails exactly when every slot is USED. */
  lemma InsertFailsIffFull(slots: seq<Rec>, home: nat)
    requires home < |slots|
    ensures InsertAt(slots, home).None? <==> forall k :: 0 <= k < |slots| ==> slots[k].state == Used
    ensures InsertAt(slots, home).Some? ==>
              var k := InsertAt(slots, home).value; k < |slots| && slots[k].state != Used
  {
    var n := |slots|;
    if InsertAt(slots, home).None? {
      forall k | 0 <= k < n
        ensures slots[k].state == Used
      {
        assert slots[Slot(home, Dist(home, k, n), n)].state !in {Empty, Tombstone};
      }
    }
  }

  lemma FirstIs(slots: seq<Rec>, home: nat, st: State, r: nat)
    requires home < |slots| && r <= |slots|
    requires forall d :: 0 <= d < r ==> slots[Slot(home, d, |slots|)].state != st
    requires r < |slots| ==> slots[Slot(home, r, |slots|)].state == st
    ensures First(slots, home, st, 0) == r
  {
  }

  /** A scan that met no EMPTY slot before step i, and its first tombstone at step t (none if t == i). */
  lemma ScanChooses(slots: seq<Rec>, home: nat, i: nat, t: nat)
    requires home < |slots| && t <= i <= |slots|
    requires forall d :: 0 <= d < i ==> slots[Slot(home, d, |slots|)].state != Empty
    requires i < |slots| ==> slots[Slot(home, i, |slots|)].state == Empty
    requires forall d :: 0 <= d < t ==> slots[Slot(home, d, |slots|)].state != Tombstone
    requires t < i ==> slots[Slot(home, t, |slots|)].state == Tombstone
    ensures InsertAt(slots, home)
         == if t < |slots| then Some(Slot(home, t, |slots|)) else None
  {
    FirstIs(slots, home, Empty, i);
    if t < i {
      FirstIs(slots, home, Tombstone, t);
    } else if i == |slots| {
      FirstIs(slots, home, Tombstone, i);
    }
  }

  // ---- Lookup ----

  predicate Holds(r: Rec, p: U64) {
    r.state == Used && r.ptr == p
  }

  /** The lowest slot holding a live record of p: lookup by plain scan, without hashing. */
  function IndexOf(slots: seq<Rec>, p: U64): (r: Option<nat>)
    ensures r.Some? ==> r.value < |slots| && Holds(slots[r.value], p)
    ensures r.None? ==> forall k :: 0 <= k < |slots| ==> !Holds(slots[k], p)
  {
    if slots == [] then None
    else
      var r := IndexOf(slots[..|slots| - 1], p);
      if r.Some? then r else if Holds(slots[|slots| - 1], p) then Some(|slots| - 1) else None
  }

  predicate Tracked(slots: seq<Rec>, p: U64) {
    IndexOf(slots, p).Some?
  }

  lemma TrackedAt(slots: seq<Rec>, p: U64, k: nat)
    requires k < |slots| && Holds(slots[k], p) && Distinct(slots)
    ensures IndexOf(slots, p) == Some(k)
  {
  }

  // ---- Invariants of the table ----

  /** No pointer has two USED records. */
  ghost predicate Distinct(slots: seq<Rec>) {
    forall i, j | 0 <= i < j < |slots| && slots[i].state == Used && slots[j].state == Used ::
      slots[i].ptr != slots[j].ptr
  }

  /** Every slot probed before k, starting from home, is occupied. */
  ghost predicate Reaches(slots: seq<Rec>, home: nat, k: nat)
    requires home < |slots| && k < |slots|
  {
    forall d :: 0 <= d < Dist(home, k, |slots|) ==> slots[Slot(home, d, |slots|)].state != Empty
  }

  /** No EMPTY slot interrupts the probe chain of a USED record. */
  ghost predicate Chained(slots: seq<Rec>, hash: Hash) {
    forall k | 0 <= k < |slots| && slots[k].state == Used ::
      Reaches(slots, Home(hash, slots[k].ptr, |slots|), k)
  }

  ghost predicate WellFormed(slots: seq<Rec>, hash: Hash) {
    |slots| > 0 && Distinct(slots) && Chained(slots, hash)
  }

  /** A probe may stop at an EMPTY slot, or after n steps: ptr is nowhere else. */
  lemma ProbeMisses(slots: seq<Rec>, hash: Hash, p: U64, i: nat)
    requires WellFormed(slots, hash) && i <= |slots|
    requires var h := Home(hash, p, |slots|);
             && (forall d :: 0 <= d < i ==> !Holds(slots[Slot(h, d, |slots|)], p))
             && (i < |slots| ==> slots[Slot(h, i, |slots|)].state == Empty)
    ensures !Tracked(slots, p)
  {
    var n, h := |slots|, Home(hash, p, |slots|);
    forall j | 0 <= j < n
      ensures !Holds(slots[j], p)
    {
      assert Slot(h, Dist(h, j, n), n) == j;
      assert Holds(slots[j], p) ==> Reaches(slots, h, j);
    }
  }

  lemma InsertKeeps(slots: seq<Rec>, hash: Hash, k: nat, r: Rec)
    requires WellFormed(slots, hash) && !Tracked(slots, r.ptr) && r.state == Used
    requires InsertAt(slots, Home(hash, r.ptr, |slots|)) == Some(k)
    ensures k < |slots| && WellFormed(slots[k := r], hash)
  {
    var n := |slots|;
    InsertFailsIffFull(slots, Home(hash, r.ptr, n));
    var slots' := slots[k := r];
    forall j | 0 <= j < n && slots'[j].state == Used
      ensures Reaches(slots', Home(hash, slots'[j].ptr, n), j)
    {
      if j != k {
        assert Reaches(slots, Home(hash, slots[j].ptr, n), j);
      } else {
        var h := Home(hash, r.ptr, n);
        assert Reaches(slots, h, k);
      }
    }
  }

  /** Overwriting a USED slot without making it EMPTY or giving it another pointer. */
  lemma TouchKeeps(slots: seq<Rec>, hash: Hash, k: nat, r: Rec)
    requires WellFormed(slots, hash) && k < |slots| && slots[k].state == Used
    requires r.state != Empty && r.ptr == slots[k].ptr
    ensures WellFormed(slots[k := r], hash)
  {
    var n := |slots|;
    var slots' := slots[k := r];
    forall j | 0 <= j < n && slots'[j].state == Used
      ensures Reaches(slots', Home(hash, slots'[j].ptr, n), j)
    {
      assert Reaches(slots, Home(hash, slots[j].ptr, n), j);
    }
  }

  // ---- Counting ----

  /** Total weight of the slots. */
  function Sum(slots: seq<Rec>, weight: Rec -> nat): nat {
    if slots == [] then 0 else Sum(slots[..|slots| - 1], weight) + weight(slots[|slots| - 1])
  }

  function UsedWeight(r: Rec): nat { if r.state == Used then 1 else 0 }

  function TombstoneWeight(r: Rec): nat { if r.state == Tombstone then 1 else 0 }

  function SizeWeight(r: Rec): nat { if r.state == Used then r.size else 0 }

  lemma {:induction false} SumUpdate(slots: seq<Rec>, weight: Rec -> nat, k: nat, r: Rec)
    requires k < |slots|
    ensures Sum(slots[k := r], weight) + weight(slots[k]) == Sum(slots, weight) + weight(r)
  {
    var m := |slots| - 1;
    if k == m {
      assert slots[k := r][..m] == slots[..m];
    } else {
      assert slots[k := r][..m] == slots[..m][k := r];
      SumUpdate(slots[..m], weight, k, r);
    }
  }

  lemma {:induction false} SumBounds(slots: seq<Rec>)
    ensures Sum(slots, UsedWeight) <= |slots|
    ensures Sum(slots, UsedWeight) == |slots| <==> forall k :: 0 <= k < |slots| ==> slots[k].state == Used
  {
    if slots != [] {
      SumBounds(slots[..|slots| - 1]);
    }
  }

  lemma {:induction false} WeightAtMostSum(slots: seq<Rec>, weight: Rec -> nat, k: nat)
    requires k < |slots|
    ensures weight(slots[k]) <= Sum(slots, weight)
  {
    if k < |slots| - 1 {
      WeightAtMostSum(slots[..|slots| - 1], weight, k);
    }
  }

  // ---- Pointers ----

  function UsedPtrs(slots: seq<Rec>): (s: set<U64>)
    ensures forall p :: p in s <==> Tracked(slots, p)
  {
    if slots == [] then {}
    else
      var r := slots[|slots| - 1];
      UsedPtrs(slots[..|slots| - 1]) + if r.state == Used then {r.ptr} else {}
  }

  lemma {:induction false} CountUsedPtrs(slots: seq<Rec>)
    requires Distinct(slots)
    ensures |UsedPtrs(slots)| == Sum(slots, UsedWeight)
  {
    if slots != [] {
      var m := |slots| - 1;
      CountUsedPtrs(slots[..m]);
      if slots[m].state == Used && slots[m].ptr in UsedPtrs(slots[..m]) {
        assert false;
      }
    }
  }
}

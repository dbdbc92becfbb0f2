/** Writing the binary snapshot: collect, sort, truncate, serialise, checksum. */
module Snapshot {
  import opened ByteWriter
  import opened Words
  import opened Crc32
  import opened AllocTable
  import opened Sorting
  import opened Mts1Format

  const FLAG_OVERFLOW := 1
  const FLAG_FRAG_NA := 2
  const FLAG_DROPS := 4
  const FLAG_CRC_OK := 8

  /** The statistics a snapshot carries; event counters go out modulo 2^32. */
  datatype Stats = Stats(
    current: U32, peak: U32, totalAllocs: nat, totalFrees: nat, seqNo: nat, fragAvailable: bool, drops: nat)

  // ---- The records of a snapshot ----

  predicate PtrBefore(a: Rec, b: Rec) {
    a.ptr < b.ptr
  }

  function InsertByPtr(rs: seq<Rec>, r: Rec): seq<Rec> {
    if rs == [] || r.ptr < rs[0].ptr then [r] + rs else [rs[0]] + InsertByPtr(rs[1..], r)
  }

  /** The USED records by ascending pointer. */
  function SortedUsed(slots: seq<Rec>): seq<Rec> {
    if slots == [] then []
    else
      var r, rs := slots[|slots| - 1], SortedUsed(slots[..|slots| - 1]);
      if r.state == Used then InsertByPtr(rs, r) else rs
  }

  predicate UsedIn(slots: seq<Rec>, r: Rec) {
    r.state == Used && r in slots
  }

  ghost predicate Lists(rs: seq<Rec>, slots: seq<Rec>) {
    Ascending(rs, PtrBefore) && forall r :: r in rs <==> UsedIn(slots, r)
  }

  lemma {:induction false} InsertMembers(rs: seq<Rec>, r: Rec)
    ensures forall x :: x in InsertByPtr(rs, r) <==> x in rs || x == r
  {
    if rs != [] && !(r.ptr < rs[0].ptr) {
      InsertMembers(rs[1..], r);
      assert rs == [rs[0]] + rs[1..];
    }
  }

  lemma {:induction false} InsertAscends(rs: seq<Rec>, r: Rec)
    requires Ascending(rs, PtrBefore) && forall x :: x in rs ==> x.ptr != r.ptr
    ensures Ascending(InsertByPtr(rs, r), PtrBefore)
  {
    if rs != [] && !(r.ptr < rs[0].ptr) {
      InsertAscends(rs[1..], r);
      InsertMembers(rs[1..], r);
      assert forall x :: x in rs[1..] ==> PtrBefore(rs[0], x);
    } else if rs != [] {
      assert forall j :: 0 <= j < |rs| ==> rs[0].ptr <= rs[j].ptr;
    }
  }

  lemma UsedInSnoc(slots: seq<Rec>, last: Rec, r: Rec)
    ensures UsedIn(slots + [last], r) <==> UsedIn(slots, r) || (last.state == Used && r == last)
  {
  }

  lemma LastIsNew(slots: seq<Rec>, r: Rec)
    requires slots != [] && Distinct(slots) && slots[|slots| - 1].state == Used
    requires UsedIn(slots[..|slots| - 1], r)
    ensures r.ptr != slots[|slots| - 1].ptr
  {
    var k :| 0 <= k < |slots| - 1 && slots[..|slots| - 1][k] == r;
    assert slots[k] == r;
  }

  lemma {:induction false} SortedUsedLists(slots: seq<Rec>)
    requires Distinct(slots)
    ensures Lists(SortedUsed(slots), slots)
  {
    if slots != [] {
      var m := |slots| - 1;
      var rs := SortedUsed(slots[..m]);
      SortedUsedLists(slots[..m]);
      assert slots == slots[..m] + [slots[m]];
      forall x {
        UsedInSnoc(slots[..m], slots[m], x);
      }
      if slots[m].state == Used {
        forall x | x in rs
          ensures x.ptr != slots[m].ptr
        {
          LastIsNew(slots, x);
        }
        InsertMembers(rs, slots[m]);
        InsertAscends(rs, slots[m]);
      }
    }
  }

  lemma PtrOrder()
    ensures StrictOrder(PtrBefore)
  {
  }

  /** There is one ascending listing of the USED records, whatever slots they lie in. */
  lemma ListingUnique(rs: seq<Rec>, slots: seq<Rec>)
    requires Distinct(slots) && Lists(rs, slots)
    ensures rs == SortedUsed(slots)
  {
    SortedUsedLists(slots);
    PtrOrder();
    forall x
      ensures x in rs <==> x in SortedUsed(slots)
    {
    }
    AscendingUnique(rs, SortedUsed(slots), PtrBefore);
  }

  // ---- The bytes of a snapshot ----

  function WireOf(r: Rec): WireRec {
    WireRec(r.ptr, r.size, r.fileId, r.line, 1, 0, r.seqNo % TWO_32)
  }

  function WireAll(rs: seq<Rec>): (ws: seq<WireRec>)
    ensures |ws| == |rs|
  {
    seq(|rs|, i requires 0 <= i < |rs| => WireOf(rs[i]))
  }

  function FinalCount(n: nat, cap: nat): (k: nat)
    requires cap >= HEADER_SIZE
    ensures k <= n && 36 + 24 * k <= cap
    ensures k < n <==> 36 + 24 * n > cap
  {
    if HEADER_SIZE + n * RECORD_SIZE > cap then (cap - HEADER_SIZE) / RECORD_SIZE else n
  }

  function FlagsOf(st: Stats, overflow: bool): U16 {
    (if overflow then FLAG_OVERFLOW else 0) + (if st.fragAvailable then 0 else FLAG_FRAG_NA)
    + (if st.drops > 0 then FLAG_DROPS else 0) + FLAG_CRC_OK
  }

  function Unsealed(st: Stats, overflow: bool, count: U32): Header {
    Header(1, FlagsOf(st, overflow), count, st.current, st.peak,
           st.totalAllocs % TWO_32, st.totalFrees % TWO_32, st.seqNo % TWO_32, 0)
  }

  function Seal(h: Header, ws: seq<WireRec>): Header {
    ChecksumWidth(PutFields(h) + PutRecords(ws));
    h.(crc := Checksum(PutFields(h) + PutRecords(ws)))
  }

  function SnapshotRecords(rs: seq<Rec>, cap: nat): (ws: seq<WireRec>)
    requires cap >= HEADER_SIZE
  {
    WireAll(rs[..FinalCount(|rs|, cap)])
  }

  function SnapshotHeader(st: Stats, rs: seq<Rec>, cap: nat): Header
    requires cap >= HEADER_SIZE && |rs| < TWO_32
  {
    Seal(Unsealed(st, HEADER_SIZE + |rs| * RECORD_SIZE > cap, FinalCount(|rs|, cap)), SnapshotRecords(rs, cap))
  }

  function SnapshotBytes(st: Stats, rs: seq<Rec>, cap: nat): (b: seq<Byte>)
    requires cap >= HEADER_SIZE && |rs| < TWO_32
    ensures 36 <= |b| <= cap
  {
    PutSnapshot(SnapshotHeader(st, rs, cap), SnapshotRecords(rs, cap))
  }

  /** Two tables with the same USED records give the same bytes, as far as these are the records listed. */
  lemma SnapshotCanonical(st: Stats, slots: seq<Rec>, slots': seq<Rec>, cap: nat)
    requires Distinct(slots) && Distinct(slots') && cap >= HEADER_SIZE
    requires forall r :: UsedIn(slots, r) <==> UsedIn(slots', r)
    requires |SortedUsed(slots)| < TWO_32
    ensures SortedUsed(slots) == SortedUsed(slots')
    ensures SnapshotBytes(st, SortedUsed(slots), cap) == SnapshotBytes(st, SortedUsed(slots'), cap)
  {
    SortedUsedLists(slots);
    forall r
      ensures r in SortedUsed(slots) <==> UsedIn(slots', r)
    {
    }
    ListingUnique(SortedUsed(slots), slots');
  }

  /** The bytes tell the records they carry. */
  lemma BytesTellRecords(st: Stats, rs: seq<Rec>, rs': seq<Rec>, cap: nat)
    requires cap >= HEADER_SIZE && |rs| < TWO_32 && |rs'| < TWO_32
    requires SnapshotBytes(st, rs, cap) == SnapshotBytes(st, rs', cap)
    ensures SnapshotRecords(rs, cap) == SnapshotRecords(rs', cap)
  {
    var b := SnapshotBytes(st, rs, cap);
    RecordsBack(st, rs, cap);
    RecordsBack(st, rs', cap);
    BytesAfterHeader(st, rs, cap);
    BytesAfterHeader(st, rs', cap);
  }

  lemma RecordsBack(st: Stats, rs: seq<Rec>, cap: nat)
    requires cap >= HEADER_SIZE && |rs| < TWO_32
    ensures var b, ws := SnapshotBytes(st, rs, cap), SnapshotRecords(rs, cap);
            |b| == 36 + 24 * |ws| && GetRecords(b, 36, |ws|) == ws
  {
    var b, ws := SnapshotBytes(st, rs, cap), SnapshotRecords(rs, cap);
    BytesAfterHeader(st, rs, cap);
    RecordsRead(ws, b[..36], []);
    assert b == b[..36] + PutRecords(ws) + [];
  }

  lemma {:induction false} RecordsConcat(x: seq<WireRec>, y: seq<WireRec>)
    ensures PutRecords(x + y) == PutRecords(x) + PutRecords(y)
  {
    if x == [] {
      assert x + y == y;
    } else {
      assert (x + y)[1..] == x[1..] + y;
      RecordsConcat(x[1..], y);
    }
  }

  lemma BodyIsPrefix(rs: seq<Rec>, k: nat)
    requires k <= |rs|
    ensures PutRecords(WireAll(rs[..k])) == PutRecords(WireAll(rs))[..24 * k]
  {
    assert WireAll(rs) == WireAll(rs[..k]) + WireAll(rs[k..]);
    RecordsConcat(WireAll(rs[..k]), WireAll(rs[k..]));
  }

  lemma BytesAfterHeader(st: Stats, rs: seq<Rec>, cap: nat)
    requires HEADER_SIZE <= cap && |rs| < TWO_32
    ensures var b := SnapshotBytes(st, rs, cap);
            |b| == 36 + 24 * FinalCount(|rs|, cap) && b[36..] == PutRecords(SnapshotRecords(rs, cap))
  {
  }

  lemma OverflowFlag(st: Stats, rs: seq<Rec>, cap: nat)
    requires HEADER_SIZE <= cap && |rs| < TWO_32
    ensures SnapshotHeader(st, rs, cap).flags % 2 == 1 <==> FinalCount(|rs|, cap) < |rs|
  {
    var overflow := HEADER_SIZE + |rs| * RECORD_SIZE > cap;
    assert FlagsOf(st, overflow) % 2 == 1 <==> overflow;
    assert SnapshotHeader(st, rs, cap).flags == FlagsOf(st, overflow);
  }

  /** A short buffer gets the header and the records of smallest pointer, and says so. */
  lemma TruncationExact(st: Stats, rs: seq<Rec>, cap: nat)
    requires HEADER_SIZE <= cap && |rs| < TWO_32
    ensures var b, all := SnapshotBytes(st, rs, cap), PutRecords(WireAll(rs));
            && |b| <= cap && b[36..] <= all
            && (SnapshotHeader(st, rs, cap).flags % 2 == 1 <==> |b| < 36 + |all|)
            && (|b| < 36 + |all| ==> |b| + 24 > cap)
  {
    BytesAfterHeader(st, rs, cap);
    BodyIsPrefix(rs, FinalCount(|rs|, cap));
    OverflowFlag(st, rs, cap);
  }

  // ---- Collecting the indices ----

  /** The slots holding USED records, in slot order. */
  function UsedIndices(slots: seq<Rec>): (ks: seq<nat>)
    ensures |ks| <= |slots|
    ensures forall i :: 0 <= i < |ks| ==> ks[i] < |slots| && slots[ks[i]].state == Used
  {
    if slots == [] then []
    else
      var m := |slots| - 1;
      UsedIndices(slots[..m]) + if slots[m].state == Used then [m] else []
  }

  /** What the collecting loop stores: indices cut to 16 bits. */
  function Collected(slots: seq<Rec>): (ks: seq<nat>)
    ensures |ks| == |UsedIndices(slots)|
    ensures forall i :: 0 <= i < |ks| ==> ks[i] < |slots| && ks[i] < 65536
  {
    var ks := UsedIndices(slots);
    seq(|ks|, i requires 0 <= i < |ks| => ks[i] % 65536)
  }

  predicate IndicesFit(slots: seq<Rec>) {
    forall k :: 65536 <= k < |slots| ==> slots[k].state != Used
  }

  lemma {:induction false} AllUsedIndexed(slots: seq<Rec>, k: nat)
    requires k < |slots| && slots[k].state == Used
    ensures k in UsedIndices(slots)
  {
    if k < |slots| - 1 {
      AllUsedIndexed(slots[..|slots| - 1], k);
    }
  }

  /** The 16-bit indices name the USED slots exactly when no USED slot lies past 65535. */
  lemma CollectedExactIff(slots: seq<Rec>)
    ensures Collected(slots) == UsedIndices(slots) <==> IndicesFit(slots)
  {
    if !IndicesFit(slots) {
      var k :| 65536 <= k < |slots| && slots[k].state == Used;
      AllUsedIndexed(slots, k);
      var i :| 0 <= i < |UsedIndices(slots)| && UsedIndices(slots)[i] == k;
      assert Collected(slots)[i] < 65536;
    }
  }

  /** ks is what the sort may leave of the collected indices. */
  ghost predicate SortsCollected(slots: seq<Rec>, ks: seq<nat>) {
    && multiset(ks) == multiset(Collected(slots))
    && (forall i :: 0 <= i < |ks| ==> ks[i] < |slots|)
    && Sorted(Select(slots, ks), PtrBefore)
  }

  /** The records a snapshot of this table is made of: those at the collected indices, sorted by pointer. */
  ghost predicate Listing(slots: seq<Rec>, rs: seq<Rec>) {
    exists ks: seq<nat> :: SortsCollected(slots, ks) && rs == Select(slots, ks)
  }

  lemma SelectionMembers(slots: seq<Rec>, ks: seq<nat>, r: Rec)
    requires forall i :: 0 <= i < |ks| ==> ks[i] < |slots|
    requires forall k :: k in ks <==> k in UsedIndices(slots)
    ensures r in Select(slots, ks) <==> UsedIn(slots, r)
  {
    var rs := Select(slots, ks);
    if r in rs {
      var i :| 0 <= i < |rs| && rs[i] == r;
      assert ks[i] in UsedIndices(slots);
    }
    if UsedIn(slots, r) {
      var k :| 0 <= k < |slots| && slots[k] == r;
      AllUsedIndexed(slots, k);
      var i :| 0 <= i < |ks| && ks[i] == k;
      assert rs[i] == r;
    }
  }

  lemma SelectionOrdered(slots: seq<Rec>, ks: seq<nat>, i: nat, j: nat)
    requires Distinct(slots) && i < j < |ks| && ks[i] != ks[j]
    requires ks[i] in UsedIndices(slots) && ks[j] in UsedIndices(slots)
    ensures ks[i] < |slots| && ks[j] < |slots|
    ensures PtrBefore(slots[ks[i]], slots[ks[j]]) || PtrBefore(slots[ks[j]], slots[ks[i]])
  {
    assert slots[ks[i]].state == Used && slots[ks[j]].state == Used;
  }

  lemma SelectionPair(slots: seq<Rec>, ks: seq<nat>, i: nat, j: nat)
    requires Distinct(slots) && multiset(ks) == multiset(UsedIndices(slots)) && i < j < |ks|
    ensures ks[i] < |slots| && ks[j] < |slots|
    ensures PtrBefore(slots[ks[i]], slots[ks[j]]) || PtrBefore(slots[ks[j]], slots[ks[i]])
  {
    IndicesDistinct(slots);
    NoRepeats(ks, UsedIndices(slots), i, j);
    SamePlaces(ks, UsedIndices(slots), ks[i]);
    SamePlaces(ks, UsedIndices(slots), ks[j]);
    SelectionOrdered(slots, ks, i, j);
  }

  lemma SelectionAscends(slots: seq<Rec>, ks: seq<nat>)
    requires Distinct(slots) && multiset(ks) == multiset(UsedIndices(slots))
    requires forall i :: 0 <= i < |ks| ==> ks[i] < |slots|
    requires Sorted(Select(slots, ks), PtrBefore)
    ensures Ascending(Select(slots, ks), PtrBefore)
  {
    var rs := Select(slots, ks);
    forall i, j | 0 <= i < j < |rs|
      ensures PtrBefore(rs[i], rs[j]) || PtrBefore(rs[j], rs[i])
    {
      SelectionPair(slots, ks, i, j);
    }
    SortedDistinctAscends(rs, PtrBefore);
  }

  /** A sorted permutation of the USED slots selects the canonical listing. */
  lemma SortedSelection(slots: seq<Rec>, ks: seq<nat>)
    requires Distinct(slots) && multiset(ks) == multiset(UsedIndices(slots))
    requires forall i :: 0 <= i < |ks| ==> ks[i] < |slots|
    requires Sorted(Select(slots, ks), PtrBefore)
    ensures Select(slots, ks) == SortedUsed(slots)
  {
    SelectionAscends(slots, ks);
    forall r
      ensures r in Select(slots, ks) <==> UsedIn(slots, r)
    {
      forall k
        ensures k in ks <==> k in UsedIndices(slots)
      {
        SamePlaces(ks, UsedIndices(slots), k);
      }
      SelectionMembers(slots, ks, r);
    }
    ListingUnique(Select(slots, ks), slots);
  }

  lemma {:induction false} IndicesDistinct(slots: seq<Rec>)
    ensures forall i, j :: 0 <= i < j < |UsedIndices(slots)| ==> UsedIndices(slots)[i] < UsedIndices(slots)[j]
  {
    if slots != [] {
      IndicesDistinct(slots[..|slots| - 1]);
    }
  }

  // ---- What the listing says of the table ----

  lemma ListingSize(slots: seq<Rec>, rs: seq<Rec>)
    requires Listing(slots, rs)
    ensures |rs| == |UsedIndices(slots)| <= |slots|
  {
    var ks :| SortsCollected(slots, ks) && rs == Select(slots, ks);
    assert |ks| == |multiset(ks)| == |multiset(Collected(slots))| == |Collected(slots)|;
  }

  lemma ListingFits(slots: seq<Rec>, rs: seq<Rec>)
    requires Distinct(slots) && Listing(slots, rs) && IndicesFit(slots)
    ensures rs == SortedUsed(slots)
  {
    var ks :| SortsCollected(slots, ks) && rs == Select(slots, ks);
    CollectedExactIff(slots);
    SortedSelection(slots, ks);
  }

  /** A USED record past slot 65535 is never listed. */
  lemma LateSlotCut(slots: seq<Rec>, rs: seq<Rec>, k: nat)
    requires Distinct(slots) && Listing(slots, rs) && 65536 <= k < |slots| && slots[k].state == Used
    ensures slots[k] !in rs
  {
    var ks :| SortsCollected(slots, ks) && rs == Select(slots, ks);
    forall i | 0 <= i < |rs|
      ensures rs[i] != slots[k]
    {
      SamePlaces(ks, Collected(slots), ks[i]);
      assert ks[i] < 65536;
    }
  }

  /** A snapshot lists the USED records by pointer exactly when no USED slot lies past 65535. */
  lemma ListingExactIff(slots: seq<Rec>, rs: seq<Rec>)
    requires Distinct(slots) && Listing(slots, rs)
    ensures rs == SortedUsed(slots) <==> IndicesFit(slots)
  {
    if IndicesFit(slots) {
      ListingFits(slots, rs);
    } else {
      var k :| 65536 <= k < |slots| && slots[k].state == Used;
      LateSlotCut(slots, rs, k);
      SortedUsedLists(slots);
      assert UsedIn(slots, slots[k]);
    }
  }

  /** Every table has a listing. */
  lemma ListingExists(slots: seq<Rec>) returns (rs: seq<Rec>)
    ensures Listing(slots, rs)
  {
    PtrOrder();
    var ks := SortedExists(slots, Collected(slots), PtrBefore);
    assert SortsCollected(slots, ks);
    rs := Select(slots, ks);
  }

  // ---- One USED record ----

  lemma {:induction false} OnlyUsed(slots: seq<Rec>, k: nat)
    requires k < |slots| && slots[k].state == Used
    requires forall j :: 0 <= j < |slots| && j != k ==> slots[j].state != Used
    ensures UsedIndices(slots) == [k]
  {
    var m := |slots| - 1;
    if k == m {
      NoneUsed(slots[..m]);
    } else {
      OnlyUsed(slots[..m], k);
    }
  }

  lemma {:induction false} NoneUsed(slots: seq<Rec>)
    requires forall j :: 0 <= j < |slots| ==> slots[j].state != Used
    ensures UsedIndices(slots) == []
  {
    if slots != [] {
      NoneUsed(slots[..|slots| - 1]);
    }
  }

  /** The listing of a table with one USED record, in slot k: the record at k cut to 16 bits. */
  lemma LoneListing(slots: seq<Rec>, rs: seq<Rec>, k: nat)
    requires k < |slots| && slots[k].state == Used && Listing(slots, rs)
    requires forall j :: 0 <= j < |slots| && j != k ==> slots[j].state != Used
    ensures rs == [slots[k % 65536]]
  {
    OnlyUsed(slots, k);
    var ks :| SortsCollected(slots, ks) && rs == Select(slots, ks);
    assert Collected(slots) == [k % 65536];
    assert |ks| == |multiset(ks)| == 1;
    assert ks == [ks[0]] && ks[0] in multiset([k % 65536]);
  }

  // ---- When the bytes depend on the USED records only ----

  ghost predicate SameUsed(slots: seq<Rec>, slots': seq<Rec>) {
    forall r :: UsedIn(slots, r) <==> UsedIn(slots', r)
  }

  /** Whatever two tables of n slots hold beside the same USED records, their snapshots agree byte for byte. */
  ghost predicate Canonical(n: nat, st: Stats)
    requires n < TWO_32
  {
    forall slots, slots', rs, rs', cap
      | && |slots| == |slots'| == n && Distinct(slots) && Distinct(slots') && SameUsed(slots, slots')
        && Listing(slots, rs) && Listing(slots', rs') && |rs| < TWO_32 && |rs'| < TWO_32 && cap >= HEADER_SIZE ::
      SnapshotBytes(st, rs, cap) == SnapshotBytes(st, rs', cap)
  }

  lemma SameBytes(st: Stats, slots: seq<Rec>, slots': seq<Rec>, rs: seq<Rec>, rs': seq<Rec>, cap: nat)
    requires Distinct(slots) && Distinct(slots') && SameUsed(slots, slots') && cap >= HEADER_SIZE
    requires IndicesFit(slots) && IndicesFit(slots') && Listing(slots, rs) && Listing(slots', rs') && |rs| < TWO_32
    ensures rs == rs' && SnapshotBytes(st, rs, cap) == SnapshotBytes(st, rs', cap)
  {
    ListingFits(slots, rs);
    ListingFits(slots', rs');
    SnapshotCanonical(st, slots, slots', cap);
  }

  lemma OnlyOneUsed(slots: seq<Rec>, k: nat)
    requires k < |slots| && slots[k].state == Used
    requires forall j :: 0 <= j < |slots| && j != k ==> slots[j].state != Used
    ensures Distinct(slots) && forall x :: UsedIn(slots, x) <==> x == slots[k]
  {
    forall x | UsedIn(slots, x)
      ensures x == slots[k]
    {
      var j :| 0 <= j < |slots| && slots[j] == x;
    }
  }

  /** A table with one USED record. */
  function Lone(n: nat, k: nat, r: Rec): (slots: seq<Rec>)
    requires k < n
    ensures |slots| == n && slots[k] == r && forall j :: 0 <= j < n && j != k ==> slots[j] == ZERO_REC
  {
    seq(n, _ => ZERO_REC)[k := r]
  }

  lemma LoneUsed(n: nat, k: nat, r: Rec)
    requires k < n && r.state == Used
    ensures Distinct(Lone(n, k, r)) && forall x :: UsedIn(Lone(n, k, r), x) <==> x == r
  {
    OnlyOneUsed(Lone(n, k, r), k);
  }

  lemma LoneRecord(x: Rec)
    ensures SnapshotRecords([x], 60) == [WireOf(x)]
  {
    assert FinalCount(1, 60) == 1 && [x][..1] == [x];
  }

  lemma LoneBytesDiffer(st: Stats, x: Rec, y: Rec)
    requires x.ptr != y.ptr
    ensures SnapshotBytes(st, [x], 60) != SnapshotBytes(st, [y], 60)
  {
    LoneRecord(x);
    LoneRecord(y);
    if SnapshotBytes(st, [x], 60) == SnapshotBytes(st, [y], 60) {
      BytesTellRecords(st, [x], [y], 60);
    }
  }

  lemma LateNotCanonical(n: nat, st: Stats)
    requires 65536 < n < TWO_32
    ensures !Canonical(n, st)
  {
    var r := Rec(1, 0, 0, 0, Used, 1);
    var slots, slots' := Lone(n, 65536, r), Lone(n, 0, r);
    LoneUsed(n, 65536, r);
    LoneUsed(n, 0, r);
    var rs := ListingExists(slots);
    var rs' := ListingExists(slots');
    LoneListing(slots, rs, 65536);
    LoneListing(slots', rs', 0);
    LoneBytesDiffer(st, ZERO_REC, r);
    assert SameUsed(slots, slots');
  }

  /** Equal USED records give byte-identical snapshots, whatever else the tables hold and wherever, exactly for
      tables of at most 65536 slots. */
  lemma CanonicalIff(n: nat, st: Stats)
    requires n < TWO_32
    ensures Canonical(n, st) <==> n <= 65536
  {
    if n > 65536 {
      LateNotCanonical(n, st);
    } else {
      forall slots, slots', rs, rs', cap
        | && |slots| == |slots'| == n && Distinct(slots) && Distinct(slots') && SameUsed(slots, slots')
          && Listing(slots, rs) && Listing(slots', rs') && |rs| < TWO_32 && |rs'| < TWO_32 && cap >= HEADER_SIZE
        ensures SnapshotBytes(st, rs, cap) == SnapshotBytes(st, rs', cap)
      {
        SameBytes(st, slots, slots', rs, rs', cap);
      }
    }
  }

  // ---- What OVERFLOW tells of the table ----

  /** Some USED record of the table is not among the records written. */
  ghost predicate Missing(slots: seq<Rec>, written: seq<Rec>) {
    exists r :: UsedIn(slots, r) && r !in written
  }

  lemma AllListed(slots: seq<Rec>, rs: seq<Rec>)
    requires Distinct(slots) && Listing(slots, rs)
    ensures Missing(slots, rs) <==> !IndicesFit(slots)
  {
    if IndicesFit(slots) {
      ListingFits(slots, rs);
      SortedUsedLists(slots);
    } else {
      var k :| 65536 <= k < |slots| && slots[k].state == Used;
      LateSlotCut(slots, rs, k);
      assert UsedIn(slots, slots[k]);
    }
  }

  lemma ShortMisses(slots: seq<Rec>, rs: seq<Rec>, k: nat)
    requires Distinct(slots) && Listing(slots, rs) && k < |rs|
    ensures Missing(slots, rs[..k])
  {
    if IndicesFit(slots) {
      ListingFits(slots, rs);
      SortedUsedLists(slots);
      assert rs[k] in rs && rs[k] !in rs[..k];
    } else {
      AllListed(slots, rs);
      var r :| UsedIn(slots, r) && r !in rs;
      assert r !in rs[..k];
    }
  }

  /** OVERFLOW says that a USED record of the table is missing, exactly when no record lies past slot 65535 or
      the buffer is too short anyway. */
  lemma OverflowExactIff(st: Stats, slots: seq<Rec>, rs: seq<Rec>, cap: nat)
    requires Distinct(slots) && Listing(slots, rs) && HEADER_SIZE <= cap && |rs| < TWO_32
    ensures (SnapshotHeader(st, rs, cap).flags % 2 == 1 <==> Missing(slots, rs[..FinalCount(|rs|, cap)])) <==>
            IndicesFit(slots) || 36 + 24 * |rs| > cap
  {
    OverflowFlag(st, rs, cap);
    var k := FinalCount(|rs|, cap);
    if k < |rs| {
      ShortMisses(slots, rs, k);
    } else {
      assert rs[..k] == rs;
      AllListed(slots, rs);
    }
  }

  // ---- The writer ----

  lemma CollectedSnoc(slots: seq<Rec>, i: nat)
    requires i < |slots|
    ensures Collected(slots[..i + 1]) == Collected(slots[..i]) + if slots[i].state == Used then [i % 65536] else []
  {
    assert slots[..i + 1][..i] == slots[..i];
  }

  method CollectUsed(allocs: array<Rec>, used: array<nat>) returns (count: nat)
    requires used.Length == allocs.Length
    modifies used
    ensures count <= used.Length && used[..count] == Collected(allocs[..])
  {
    ghost var slots := allocs[..];
    count := 0;
    for i := 0 to allocs.Length
      invariant count <= i && used[..count] == Collected(slots[..i])
    {
      CollectedSnoc(slots, i);
      if allocs[i].state == Used {
        assert slots[i].state == Used;
        used[count] := i % 65536;
        count := count + 1;
        assert used[..count] == used[..count - 1] + [i % 65536];
      }
    }
    assert slots[..allocs.Length] == slots;
  }

  method WriteFields(out: array<Byte>, h: Header)
    requires out.Length >= 36
    modifies out
    ensures out[..32] == PutFields(h)
    ensures forall k | 36 <= k < out.Length :: out[k] == old(out[k])
  {
    for i := 0 to 4
      invariant out[..i] == MAGIC[..i]
      invariant forall k | 4 <= k < out.Length :: out[k] == old(out[k])
    {
      WriteByte(out, i, MAGIC[i]);
    }
    Write16(out, 4, h.version);
    Write16(out, 6, h.flags);
    WriteWords(out, 8, [h.count, h.current, h.peak, h.totalAllocs, h.totalFrees, h.seqNo]);
    Write32(out, 32, 0);
    assert out[..32] == out[..36][..32];
  }

  method WriteRecord(out: array<Byte>, at: nat, rec: Rec)
    requires at + 24 <= out.Length
    modifies out
    ensures out[..at + 24] == old(out[..at]) + PutRecord(WireOf(rec))
    ensures forall k | at + 24 <= k < out.Length :: out[k] == old(out[k])
  {
    Write64(out, at, rec.ptr);
    WriteWords(out, at + 8, [rec.size, rec.fileId]);
    Write16(out, at + 16, rec.line);
    WriteByte(out, at + 18, 1);
    WriteByte(out, at + 19, 0);
    WriteWords(out, at + 20, [rec.seqNo % TWO_32]);
  }

  function Body(rs: seq<Rec>): (s: seq<Byte>)
    ensures |s| == 24 * |rs|
  {
    PutRecords(WireAll(rs))
  }

  lemma BodySnoc(rs: seq<Rec>, i: nat)
    requires i < |rs|
    ensures Body(rs[..i + 1]) == Body(rs[..i]) + PutRecord(WireOf(rs[i]))
  {
    assert WireAll(rs[..i + 1]) == WireAll(rs[..i]) + [WireOf(rs[i])];
    RecordsConcat(WireAll(rs[..i]), [WireOf(rs[i])]);
    assert PutRecords([WireOf(rs[i])]) == PutRecord(WireOf(rs[i]));
  }

  method WriteRecords(out: array<Byte>, allocs: array<Rec>, used: array<nat>, count: nat, ghost rs: seq<Rec>)
    requires 36 + 24 * count <= out.Length && count <= used.Length && count == |rs|
    requires forall i :: 0 <= i < count ==> used[i] < allocs.Length && allocs[used[i]] == rs[i]
    modifies out
    ensures out[..36 + 24 * count] == old(out[..36]) + Body(rs)
    ensures forall k | 36 + 24 * count <= k < out.Length :: out[k] == old(out[k])
  {
    ghost var head := out[..36];
    for i := 0 to count
      invariant out[..36 + 24 * i] == head + Body(rs[..i])
      invariant forall k | 36 + 24 * i <= k < out.Length :: out[k] == old(out[k])
    {
      WriteRecord(out, 36 + 24 * i, allocs[used[i]]);
      BodySnoc(rs, i);
      Regroup(head, Body(rs[..i]), PutRecord(WireOf(rs[i])));
    }
    assert rs[..count] == rs;
  }

  lemma Regroup(a: seq<Byte>, b: seq<Byte>, c: seq<Byte>)
    ensures (a + b) + c == a + (b + c)
  {
  }

  /** Checksums bytes 0..31 and 36..end, and stores the result between them. */
  method SealBytes(out: array<Byte>, end: nat, ghost h: Header, ghost ws: seq<WireRec>)
    requires 36 <= end <= out.Length && out[..32] == PutFields(h) && out[36..end] == PutRecords(ws)
    modifies out
    ensures out[..end] == PutSnapshot(Seal(h, ws), ws)
    ensures forall k | end <= k < out.Length :: out[k] == old(out[k])
  {
    var crc := Update(out[..32], SEED);
    crc := Update(out[36..end], crc);
    Chaining(SEED, out[..32], out[36..end]);
    XorWidth(crc, SEED);
    crc := Xor(crc, SEED);
    ghost var body := out[36..end];
    Write32(out, 32, crc);
    assert out[36..end] == body;
    assert out[..end] == out[..36] + out[36..end];
  }

  /** Collects the USED slots and sorts them by pointer; rs are the records in that order. */
  method SortUsed(allocs: array<Rec>, used: array<nat>) returns (count: nat, ghost rs: seq<Rec>)
    requires used.Length == allocs.Length
    modifies used
    ensures count == |rs| <= used.Length && Listing(allocs[..], rs)
    ensures forall i :: 0 <= i < count ==> used[i] < allocs.Length && allocs[used[i]] == rs[i]
    ensures Distinct(allocs[..]) ==> (rs == SortedUsed(allocs[..]) <==> IndicesFit(allocs[..]))
  {
    count := CollectUsed(allocs, used);
    PtrOrder();
    assert forall i :: 0 <= i < count ==> used[..count][i] < allocs.Length;
    ExchangeSort(used, count, allocs[..], PtrBefore);
    rs := Select(allocs[..], used[..count]);
    assert SortsCollected(allocs[..], used[..count]);
    assert forall i :: 0 <= i < count ==> rs[i] == allocs[..][used[..count][i]];
    if Distinct(allocs[..]) {
      ListingExactIff(allocs[..], rs);
    }
  }

  /** Header, records and checksum into a buffer with room for them. */
  method Emit(allocs: array<Rec>, used: array<nat>, h: Header, out: array<Byte>, count: nat, ghost rs: seq<Rec>)
    requires 36 + 24 * count <= out.Length && count <= used.Length && count == |rs|
    requires forall i :: 0 <= i < count ==> used[i] < allocs.Length && allocs[used[i]] == rs[i]
    modifies out
    ensures out[..36 + 24 * count] == PutSnapshot(Seal(h, WireAll(rs)), WireAll(rs))
    ensures forall k | 36 + 24 * count <= k < out.Length :: out[k] == old(out[k])
  {
    WriteFields(out, h);
    ghost var head := out[..36];
    assert head[..32] == out[..32];
    WriteRecords(out, allocs, used, count, rs);
    var end := 36 + 24 * count;
    assert out[..32] == out[..end][..32] == head[..32];
    assert out[36..end] == out[..end][36..];
    SealBytes(out, end, h, WireAll(rs));
  }

  /** Writes the snapshot of a table into `out`; returns the number of bytes written, and the listed records. */
  method Write(allocs: array<Rec>, st: Stats, out: array<Byte>) returns (written: nat, ghost rs: seq<Rec>)
    requires allocs.Length < TWO_32
    modifies out
    ensures |rs| <= allocs.Length && Listing(allocs[..], rs)
    ensures Distinct(allocs[..]) ==> (rs == SortedUsed(allocs[..]) <==> IndicesFit(allocs[..]))
    ensures written == 0 <==> out.Length < 36
    ensures written <= out.Length && forall k | written <= k < out.Length :: out[k] == old(out[k])
    ensures written > 0 ==> out[..written] == SnapshotBytes(st, rs, out.Length)
  {
    var used := new nat[allocs.Length];
    var count;
    count, rs := SortUsed(allocs, used);
    written := 0;
    if out.Length < 36 {
      return;
    }
    var needed := HEADER_SIZE + count * RECORD_SIZE;
    var finalCount, overflow := count, false;
    if needed > out.Length {
      finalCount := (out.Length - HEADER_SIZE) / RECORD_SIZE;
      overflow := true;
    }
    Emit(allocs, used, Unsealed(st, overflow, finalCount), out, finalCount, rs[..finalCount]);
    written := 36 + 24 * finalCount;
  }
}

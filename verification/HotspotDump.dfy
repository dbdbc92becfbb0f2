/** The order of the hotspot dump. */
module HotspotDump {
  import opened KeyHistory
  import opened Sorting
  import opened Hotspots

  /** More allocations first, then more bytes, then lower file id, then lower line. */
  predicate Precedes(a: Entry, b: Entry) {
    if a.allocs != b.allocs then a.allocs > b.allocs
    else if a.bytes != b.bytes then a.bytes > b.bytes
    else if a.key.fileId != b.key.fileId then a.key.fileId < b.key.fileId
    else a.key.line < b.key.line
  }

  lemma PrecedesIsStrict()
    ensures StrictOrder(Precedes)
  {
  }

  /** Entries of different call sites are always ordered, so no tie is left to slot order. */
  lemma PrecedesIsTotal(a: Entry, b: Entry)
    requires a.key != b.key
    ensures Precedes(a, b) || Precedes(b, a)
  {
  }

  ghost predicate DistinctKeys(t: seq<Entry>) {
    forall i, j :: 0 <= i < j < |t| ==> t[i].key != t[j].key
  }

  lemma SortedAscends(xs: seq<Entry>)
    requires Sorted(xs, Precedes) && DistinctKeys(xs)
    ensures Ascending(xs, Precedes)
  {
    forall i, j | 0 <= i < j < |xs|
      ensures Precedes(xs[i], xs[j]) || Precedes(xs[j], xs[i])
    {
      PrecedesIsTotal(xs[i], xs[j]);
    }
    SortedDistinctAscends(xs, Precedes);
  }

  /** Any two sorted listings of the same entries agree, whatever slots the entries lay in. */
  lemma DumpOrderCanonical(xs: seq<Entry>, ys: seq<Entry>)
    requires Sorted(xs, Precedes) && Sorted(ys, Precedes) && DistinctKeys(xs) && DistinctKeys(ys)
    requires forall e :: e in xs <==> e in ys
    ensures xs == ys
  {
    PrecedesIsStrict();
    SortedAscends(xs);
    SortedAscends(ys);
    AscendingUnique(xs, ys, Precedes);
  }

  // ---- What a dump lists ----

  /** The slots 0 to n - 1 as the collecting loop stores them: cut to 16 bits. */
  function CutSlots(n: nat): (ks: seq<nat>)
    ensures |ks| == n && forall i :: 0 <= i < n ==> ks[i] == i % 65536 <= i
  {
    seq(n, i => i % 65536)
  }

  /** ks is what the sort may leave of the collected slots of t. */
  ghost predicate SortsSlots(t: seq<Entry>, ks: seq<nat>) {
    multiset(ks) == multiset(CutSlots(|t|)) && Names(t, ks) && Sorted(Select(t, ks), Precedes)
  }

  /** The entries a dump lists, in its order, when t are the entries in use. */
  ghost predicate Dumped(t: seq<Entry>, es: seq<Entry>) {
    exists ks: seq<nat> :: SortsSlots(t, ks) && es == Select(t, ks)
  }

  lemma DumpExists(t: seq<Entry>) returns (es: seq<Entry>)
    ensures Dumped(t, es)
  {
    PrecedesIsStrict();
    var ks := SortedExists(t, CutSlots(|t|), Precedes);
    assert SortsSlots(t, ks);
    es := Select(t, ks);
  }

  /** Every entry of t once, in dump order. */
  ghost predicate ListsOnce(es: seq<Entry>, t: seq<Entry>) {
    Ascending(es, Precedes) && forall e :: e in es <==> e in t
  }

  /** The order of a dump, on the fields: counts do not increase; among equal counts bytes do not; among equal
      bytes file ids do not decrease; among equal file ids lines do not. */
  ghost predicate HeaviestFirst(es: seq<Entry>) {
    forall i, j :: 0 <= i < j < |es| ==>
      && es[i].allocs >= es[j].allocs
      && (es[i].allocs == es[j].allocs ==>
            && es[i].bytes >= es[j].bytes
            && (es[i].bytes == es[j].bytes ==>
                  && es[i].key.fileId <= es[j].key.fileId
                  && (es[i].key.fileId == es[j].key.fileId ==> es[i].key.line <= es[j].key.line)))
  }

  /** The heaviest call sites come first, so the ten lines a dump prints are of the heaviest. */
  lemma DumpHeaviestFirst(t: seq<Entry>, es: seq<Entry>)
    requires Dumped(t, es)
    ensures HeaviestFirst(es)
  {
    var ks :| SortsSlots(t, ks) && es == Select(t, ks);
    forall i, j | 0 <= i < j < |es|
      ensures !Precedes(es[j], es[i])
    {
    }
  }

  /** An entry past slot 65535 is in no dump. */
  lemma LateEntryCut(t: seq<Entry>, es: seq<Entry>, k: nat)
    requires DistinctKeys(t) && Dumped(t, es) && 65536 <= k < |t|
    ensures t[k] !in es
  {
    var ks :| SortsSlots(t, ks) && es == Select(t, ks);
    forall i | 0 <= i < |es|
      ensures es[i] != t[k]
    {
      SamePlaces(ks, CutSlots(|t|), ks[i]);
      assert ks[i] < 65536;
    }
  }

  /** The entry of a slot below 65536 is in every dump. */
  lemma EarlyEntryListed(t: seq<Entry>, es: seq<Entry>, k: nat)
    requires Dumped(t, es) && k < |t| && k < 65536
    ensures t[k] in es
  {
    var ks :| SortsSlots(t, ks) && es == Select(t, ks);
    assert CutSlots(|t|)[k] == k;
    SamePlaces(ks, CutSlots(|t|), k);
    var i :| 0 <= i < |ks| && ks[i] == k;
    assert es[i] == t[k];
  }

  lemma ShortDumpDistinct(t: seq<Entry>, ks: seq<nat>)
    requires DistinctKeys(t) && SortsSlots(t, ks) && |t| <= 65536
    ensures DistinctKeys(Select(t, ks))
  {
    var es, us := Select(t, ks), CutSlots(|t|);
    assert forall i :: 0 <= i < |us| ==> us[i] == i;
    forall i, j | 0 <= i < j < |es|
      ensures es[i].key != es[j].key
    {
      NoRepeats(ks, us, i, j);
    }
  }

  /** A dump lists every entry in use once exactly when there are at most 65536. */
  lemma DumpExactIff(t: seq<Entry>, es: seq<Entry>)
    requires DistinctKeys(t) && Dumped(t, es)
    ensures ListsOnce(es, t) <==> |t| <= 65536
  {
    if |t| <= 65536 {
      var ks :| SortsSlots(t, ks) && es == Select(t, ks);
      ShortDumpDistinct(t, ks);
      SortedAscends(es);
      forall e | e in t
        ensures e in es
      {
        var k :| 0 <= k < |t| && t[k] == e;
        EarlyEntryListed(t, es, k);
      }
    } else {
      LateEntryCut(t, es, 65536);
      assert t[65536] in t;
    }
  }

  /** Dumps of tables of m entries with the same entries in use agree. */
  ghost predicate SameDump(m: nat, t: seq<Entry>, t': seq<Entry>, es: seq<Entry>, es': seq<Entry>) {
    && |t| == |t'| == m && DistinctKeys(t) && DistinctKeys(t') && (forall e :: e in t <==> e in t')
    && Dumped(t, es) && Dumped(t', es')
    ==> es == es'
  }

  lemma ShortDumpsAgree(m: nat, t: seq<Entry>, t': seq<Entry>, es: seq<Entry>, es': seq<Entry>)
    requires m <= 65536
    ensures SameDump(m, t, t', es, es')
  {
    if && |t| == |t'| == m && DistinctKeys(t) && DistinctKeys(t') && (forall e :: e in t <==> e in t')
       && Dumped(t, es) && Dumped(t', es') {
      DumpExactIff(t, es);
      DumpExactIff(t', es');
      PrecedesIsStrict();
      AscendingUnique(es, es', Precedes);
    }
  }

  /** One allocation at each of the first m call sites. */
  function Plain(m: nat): (t: seq<Entry>)
    requires m <= SITES
    ensures |t| == m && forall i :: 0 <= i < m ==> t[i] == Entry(Site(i), true, 1, 0, 0)
  {
    seq(m, i requires 0 <= i < m => Entry(Site(i), true, 1, 0, 0))
  }

  lemma PlainDistinct(m: nat)
    requires m <= SITES
    ensures DistinctKeys(Plain(m))
  {
    forall i, j | 0 <= i < j < m
      ensures Plain(m)[i].key != Plain(m)[j].key
    {
      SiteInjective(i, j);
    }
  }

  lemma Swapped(t: seq<Entry>, k: nat)
    requires DistinctKeys(t) && 0 < k < |t|
    ensures var t' := t[0 := t[k]][k := t[0]]; DistinctKeys(t') && forall e :: e in t <==> e in t'
  {
    var t' := t[0 := t[k]][k := t[0]];
    forall e
      ensures e in t <==> e in t'
    {
      assert t'[0] == t[k] && t'[k] == t[0];
      if e in t {
        var i :| 0 <= i < |t| && t[i] == e;
        assert i != 0 && i != k ==> t'[i] == e;
      }
    }
  }

  lemma LongDumpsDiffer(m: nat) returns (t: seq<Entry>, t': seq<Entry>, es: seq<Entry>, es': seq<Entry>)
    requires 65536 < m <= SITES
    ensures !SameDump(m, t, t', es, es')
  {
    t := Plain(m);
    t' := t[0 := t[65536]][65536 := t[0]];
    PlainDistinct(m);
    Swapped(t, 65536);
    es := DumpExists(t);
    es' := DumpExists(t');
    LateEntryCut(t, es, 65536);
    EarlyEntryListed(t', es', 0);
  }

  /** The dump depends only on the set of entries in use, not on their slots, exactly for at most 65536 entries;
      there are no more than 2^48 call sites. */
  lemma DumpCanonicalIff(m: nat)
    requires m <= SITES
    ensures (forall t, t', es, es' :: SameDump(m, t, t', es, es')) <==> m <= 65536
  {
    if m <= 65536 {
      forall t, t', es, es' {
        ShortDumpsAgree(m, t, t', es, es');
      }
    } else {
      var t, t', es, es' := LongDumpsDiffer(m);
    }
  }

  /** After a report of each of more than 65536 call sites, with room for all, the dump leaves out the 65537th. */
  lemma DumpMissesSite(m: nat, es: seq<Entry>)
    requires 65536 < m <= SITES
    requires Dumped(Summaries(SiteHits(m), Kept(SiteHits(m), m)), es)
    ensures var h := SiteHits(m); var t := Summaries(h, Kept(h, m));
            |t| == m == |es| && t[65536].key == Site(65536) && t[65536] !in es
  {
    var h := SiteHits(m);
    TourKeys(m);
    KeysDistinct(h);
    var t := Summaries(h, Kept(h, m));
    DumpSize(t, es);
    LateEntryCut(t, es, 65536);
  }

  lemma DumpSize(t: seq<Entry>, es: seq<Entry>)
    requires Dumped(t, es)
    ensures |es| == |t|
  {
    var ks :| SortsSlots(t, ks) && es == Select(t, ks);
    assert |ks| == |multiset(ks)| == |multiset(CutSlots(|t|))|;
  }

  // ---- Writing the dump ----

  method SortHotspots(indices: array<nat>, count: nat, table: seq<Entry>)
    requires count <= indices.Length
    requires forall i :: 0 <= i < count ==> indices[i] < |table|
    modifies indices
    ensures multiset(indices[..count]) == multiset(old(indices[..count]))
    ensures forall i :: 0 <= i < count ==> indices[i] < |table|
    ensures Sorted(Select(table, indices[..count]), Precedes)
    ensures indices[count..] == old(indices[count..])
  {
    PrecedesIsStrict();
    ExchangeSort(indices, count, table, Precedes);
  }

  /** The slots of used entries, cut to 16 bits. */
  method CollectSlots(t: HotspotTable) returns (order: array<nat>, count: nat)
    requires t.Valid()
    ensures fresh(order) && count == t.used <= order.Length && order[..count] == CutSlots(t.used)
  {
    order := new nat[t.table.Length](_ => 0);
    count := 0;
    for i := 0 to t.used
      invariant count == i
      invariant order[..i] == CutSlots(i)
    {
      assert t.table[..t.used][i].used;
      if t.table[i].used {
        order[count] := i % 65536;
        count := count + 1;
      }
    }
  }

  lemma OrderedIsDumped(table: seq<Entry>, used: nat, ks: seq<nat>)
    requires used <= |table| && multiset(ks) == multiset(CutSlots(used))
    requires Names(table, ks) && Sorted(Select(table, ks), Precedes)
    ensures Dumped(table[..used], Select(table, ks))
  {
    forall i | 0 <= i < |ks|
      ensures ks[i] < used
    {
      SamePlaces(ks, CutSlots(used), ks[i]);
    }
    assert Select(table[..used], ks) == Select(table, ks);
    assert SortsSlots(table[..used], ks);
  }

  lemma SlotsExactIff(used: nat, ks: seq<nat>)
    requires multiset(ks) == multiset(CutSlots(used))
    ensures multiset(ks) == multiset(seq(used, i => i)) <==> used <= 65536
  {
    var us := seq(used, i => i);
    if used <= 65536 {
      assert CutSlots(used) == us;
    } else {
      assert us[65536] in multiset(us);
      SamePlaces(ks, CutSlots(used), 65536);
    }
  }

  /** The slots in dump order: the collected ones, sorted. Every slot in use is there once, and every entry in
      use listed once, exactly when there are at most 65536. */
  method DumpOrder(t: HotspotTable) returns (order: array<nat>, count: nat)
    requires t.Valid()
    ensures fresh(order) && count == t.used <= order.Length
    ensures multiset(order[..count]) == multiset(CutSlots(t.used))
    ensures multiset(order[..count]) == multiset(seq(t.used, i => i)) <==> t.used <= 65536
    ensures Names(t.table[..], order[..count])
    ensures var es := Select(t.table[..], order[..count]);
            && Dumped(t.table[..t.used], es) && (ListsOnce(es, t.table[..t.used]) <==> t.used <= 65536)
            && HeaviestFirst(es)
  {
    order, count := CollectSlots(t);
    assert forall i :: 0 <= i < count ==> order[..count][i] < t.table.Length;
    SortHotspots(order, count, t.table[..]);
    OrderedIsDumped(t.table[..], t.used, order[..count]);
    SlotsExactIff(t.used, order[..count]);
    KeysDistinct(t.history);
    DumpExactIff(t.table[..t.used], Select(t.table[..], order[..count]));
    DumpHeaviestFirst(t.table[..t.used], Select(t.table[..], order[..count]));
  }
}

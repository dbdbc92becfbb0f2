/** What a per-call-site table should hold, as a function of everything that was ever reported to it. */
module KeyHistory {
  import opened Words

  datatype Key = Key(fileId: U32, line: U16)

  /** One report: a call site, a size and a sequence number. */
  datatype Hit = Hit(key: Key, size: U32, seqNo: nat)

  datatype Entry = Entry(key: Key, used: bool, allocs: nat, bytes: U32, lastSeq: nat)

  const ZERO_ENTRY := Entry(Key(0, 0), false, 0, 0, 0)

  /** The distinct keys, in order of first appearance. */
  function Keys(h: seq<Hit>): seq<Key> {
    if h == [] then []
    else
      var ks, k := Keys(h[..|h| - 1]), h[|h| - 1].key;
      if k in ks then ks else ks + [k]
  }

  function Count(h: seq<Hit>, k: Key): nat {
    if h == [] then 0 else Count(h[..|h| - 1], k) + if h[|h| - 1].key == k then 1 else 0
  }

  function Bytes(h: seq<Hit>, k: Key): nat {
    if h == [] then 0 else Bytes(h[..|h| - 1], k) + if h[|h| - 1].key == k then h[|h| - 1].size else 0
  }

  function LastSeq(h: seq<Hit>, k: Key): nat {
    if h == [] then 0 else if h[|h| - 1].key == k then h[|h| - 1].seqNo else LastSeq(h[..|h| - 1], k)
  }

  /** The entry of a key: full-history count, bytes modulo 2^32, last sequence number. */
  function Summary(h: seq<Hit>, k: Key): Entry {
    Entry(k, true, Count(h, k), Bytes(h, k) % TWO_32, LastSeq(h, k))
  }

  function Summaries(h: seq<Hit>, ks: seq<Key>): (t: seq<Entry>)
    ensures |t| == |ks|
  {
    seq(|ks|, i requires 0 <= i < |ks| => Summary(h, ks[i]))
  }

  /** The keys a table of the given capacity keeps: the first ones seen. */
  function Kept(h: seq<Hit>, cap: nat): (ks: seq<Key>)
    ensures |ks| <= cap && ks <= Keys(h) && (|ks| < cap ==> ks == Keys(h))
  {
    if |Keys(h)| <= cap then Keys(h) else Keys(h)[..cap]
  }

  /** The number of reports whose key is not among the given ones. */
  function Missed(h: seq<Hit>, ks: seq<Key>): nat {
    if h == [] then 0 else Missed(h[..|h| - 1], ks) + if h[|h| - 1].key in ks then 0 else 1
  }

  function Bump(e: Entry, x: Hit): Entry {
    e.(allocs := e.allocs + 1, bytes := (e.bytes + x.size) % TWO_32, lastSeq := x.seqNo)
  }

  lemma {:induction false} KeysDistinct(h: seq<Hit>)
    ensures forall i, j :: 0 <= i < j < |Keys(h)| ==> Keys(h)[i] != Keys(h)[j]
    ensures forall i :: 0 <= i < |h| ==> h[i].key in Keys(h)
  {
    if h != [] {
      KeysDistinct(h[..|h| - 1]);
      forall i | 0 <= i < |h|
        ensures h[i].key in Keys(h)
      {
        if i < |h| - 1 {
          assert h[..|h| - 1][i] == h[i];
        }
      }
    }
  }

  // ---- One more report ----

  lemma KeysSnoc(h: seq<Hit>, x: Hit)
    ensures Keys(h + [x]) == if x.key in Keys(h) then Keys(h) else Keys(h) + [x.key]
  {
    assert (h + [x])[..|h|] == h;
  }

  lemma CountSnoc(h: seq<Hit>, x: Hit, k: Key)
    ensures Count(h + [x], k) == Count(h, k) + if x.key == k then 1 else 0
  {
    assert (h + [x])[..|h|] == h;
  }

  lemma BytesSnoc(h: seq<Hit>, x: Hit, k: Key)
    ensures Bytes(h + [x], k) == Bytes(h, k) + if x.key == k then x.size else 0
  {
    assert (h + [x])[..|h|] == h;
  }

  lemma LastSeqSnoc(h: seq<Hit>, x: Hit, k: Key)
    ensures LastSeq(h + [x], k) == if x.key == k then x.seqNo else LastSeq(h, k)
  {
    assert (h + [x])[..|h|] == h;
  }

  lemma MissedSnoc(h: seq<Hit>, x: Hit, ks: seq<Key>)
    ensures Missed(h + [x], ks) == Missed(h, ks) + if x.key in ks then 0 else 1
  {
    assert (h + [x])[..|h|] == h;
  }

  lemma SumMod(a: nat, b: nat)
    ensures (a + b) % TWO_32 == (a % TWO_32 + b) % TWO_32
  {
    var q, s := a / TWO_32, a % TWO_32 + b;
    assert a + b == (q + s / TWO_32) * TWO_32 + s % TWO_32;
    ModUnique(a + b, TWO_32, q + s / TWO_32, s % TWO_32);
  }

  /** A report bumps the summary of its own key and no other. */
  lemma SummarySnoc(h: seq<Hit>, x: Hit, k: Key)
    ensures Summary(h + [x], k) == if x.key == k then Bump(Summary(h, k), x) else Summary(h, k)
  {
    CountSnoc(h, x, k);
    BytesSnoc(h, x, k);
    LastSeqSnoc(h, x, k);
    if x.key == k {
      SumMod(Bytes(h, k), x.size);
    }
  }

  lemma {:induction false} AbsentIsZero(h: seq<Hit>, k: Key)
    requires k !in Keys(h)
    ensures Count(h, k) == 0 && Bytes(h, k) == 0
  {
    if h != [] {
      AbsentIsZero(h[..|h| - 1], k);
    }
  }

  lemma {:induction false} AbsentNotMissed(h: seq<Hit>, ks: seq<Key>, k: Key)
    requires k !in Keys(h)
    ensures Missed(h, ks + [k]) == Missed(h, ks)
  {
    if h != [] {
      AbsentNotMissed(h[..|h| - 1], ks, k);
    }
  }

  /** A report of a listed key bumps its entry and no other. */
  lemma HitListed(h: seq<Hit>, x: Hit, ks: seq<Key>, i: nat)
    requires i < |ks| && ks[i] == x.key
    requires forall j :: 0 <= j < |ks| && j != i ==> ks[j] != x.key
    ensures Summaries(h + [x], ks) == Summaries(h, ks)[i := Bump(Summaries(h, ks)[i], x)]
    ensures Missed(h + [x], ks) == Missed(h, ks)
  {
    MissedSnoc(h, x, ks);
    var t, t' := Summaries(h, ks), Summaries(h + [x], ks);
    forall j | 0 <= j < |ks|
      ensures t'[j] == t[i := Bump(t[i], x)][j]
    {
      SummarySnoc(h, x, ks[j]);
    }
  }

  lemma HitUnlisted(h: seq<Hit>, x: Hit, ks: seq<Key>)
    requires x.key !in ks
    ensures Summaries(h + [x], ks) == Summaries(h, ks)
    ensures Missed(h + [x], ks) == Missed(h, ks) + 1
  {
    MissedSnoc(h, x, ks);
    forall j | 0 <= j < |ks|
      ensures Summary(h + [x], ks[j]) == Summary(h, ks[j])
    {
      SummarySnoc(h, x, ks[j]);
    }
  }

  lemma FirstSummary(h: seq<Hit>, x: Hit)
    requires x.key !in Keys(h)
    ensures Summary(h + [x], x.key) == Entry(x.key, true, 1, x.size, x.seqNo)
  {
    AbsentIsZero(h, x.key);
    SummarySnoc(h, x, x.key);
  }

  lemma HitNew(h: seq<Hit>, x: Hit, ks: seq<Key>)
    requires x.key !in Keys(h) && x.key !in ks
    ensures Summaries(h + [x], ks + [x.key])
         == Summaries(h, ks) + [Entry(x.key, true, 1, x.size, x.seqNo)]
    ensures Missed(h + [x], ks + [x.key]) == Missed(h, ks)
  {
    AbsentNotMissed(h, ks, x.key);
    MissedSnoc(h, x, ks + [x.key]);
    FirstSummary(h, x);
    HitUnlisted(h, x, ks);
    assert Summaries(h + [x], ks + [x.key]) == Summaries(h + [x], ks) + [Summary(h + [x], x.key)];
  }

  // ---- What the summaries mean ----

  /** The count is the number of reports of the key. */
  lemma {:induction false} CountIs(h: seq<Hit>, k: Key)
    ensures Count(h, k) == |set i | 0 <= i < |h| && h[i].key == k|
  {
    var all := set i | 0 <= i < |h| && h[i].key == k;
    if h != [] {
      var m := |h| - 1;
      CountIs(h[..m], k);
      var most := set i | 0 <= i < m && h[..m][i].key == k;
      assert all == most + if h[m].key == k then {m} else {};
    }
  }

  /** The last sequence number is that of the latest report of the key. */
  lemma {:induction false} LastSeqIs(h: seq<Hit>, k: Key, i: nat)
    requires i < |h| && h[i].key == k && forall j :: i < j < |h| ==> h[j].key != k
    ensures LastSeq(h, k) == h[i].seqNo
  {
    if i < |h| - 1 {
      LastSeqIs(h[..|h| - 1], k, i);
    }
  }

  /** Keys keep the place they were first given. */
  lemma {:induction false} KeysGrow(h: seq<Hit>, g: seq<Hit>)
    ensures Keys(h) <= Keys(h + g)
    decreases |g|
  {
    if g == [] {
      assert h + g == h;
    } else {
      var m := |g| - 1;
      KeysGrow(h, g[..m]);
      assert h + g == (h + g[..m]) + [g[m]];
      KeysSnoc(h + g[..m], g[m]);
    }
  }

  // ---- One report against a table of limited capacity ----

  /** What one report makes of the keys kept, their entries and the reports missed. */
  lemma KeptListed(h: seq<Hit>, x: Hit, cap: nat, i: nat)
    requires i < |Kept(h, cap)| && Kept(h, cap)[i] == x.key
    ensures Kept(h + [x], cap) == Kept(h, cap)
    ensures Summaries(h + [x], Kept(h, cap)) == Summaries(h, Kept(h, cap))[i := Bump(Summaries(h, Kept(h, cap))[i], x)]
    ensures Missed(h + [x], Kept(h, cap)) == Missed(h, Kept(h, cap))
  {
    assert Keys(h)[i] == x.key;
    KeysDistinct(h);
    KeysSnoc(h, x);
    HitListed(h, x, Kept(h, cap), i);
  }

  lemma KeptNew(h: seq<Hit>, x: Hit, cap: nat)
    requires x.key !in Kept(h, cap) && |Kept(h, cap)| < cap
    ensures Kept(h + [x], cap) == Kept(h, cap) + [x.key]
    ensures Summaries(h + [x], Kept(h, cap) + [x.key])
         == Summaries(h, Kept(h, cap)) + [Entry(x.key, true, 1, x.size, x.seqNo)]
    ensures Missed(h + [x], Kept(h, cap) + [x.key]) == Missed(h, Kept(h, cap))
  {
    KeysSnoc(h, x);
    HitNew(h, x, Kept(h, cap));
  }

  lemma KeptFull(h: seq<Hit>, x: Hit, cap: nat)
    requires x.key !in Kept(h, cap) && |Kept(h, cap)| == cap
    ensures Kept(h + [x], cap) == Kept(h, cap)
    ensures Summaries(h + [x], Kept(h, cap)) == Summaries(h, Kept(h, cap))
    ensures Missed(h + [x], Kept(h, cap)) == Missed(h, Kept(h, cap)) + 1
  {
    KeysSnoc(h, x);
    HitUnlisted(h, x, Kept(h, cap));
  }

  // ---- A history that meets many call sites ----

  const SITES := 0x1_0000_0000_0000

  /** The i-th of the 2^48 possible call sites. */
  function Site(i: nat): Key
    requires i < SITES
  {
    Key(i / 0x1_0000, i % 0x1_0000)
  }

  lemma SiteInjective(i: nat, j: nat)
    requires i < SITES && j < SITES
    ensures Site(i) == Site(j) <==> i == j
  {
  }

  /** One report of each of the first m call sites. */
  function SiteHits(m: nat): (h: seq<Hit>)
    requires m <= SITES
  {
    if m == 0 then [] else SiteHits(m - 1) + [Hit(Site(m - 1), 0, 0)]
  }

  /** The call sites are met in order */
  lemma {:induction false} TourKeys(m: nat)
    requires m <= SITES
    ensures |Keys(SiteHits(m))| == m && forall i :: 0 <= i < m ==> Keys(SiteHits(m))[i] == Site(i)
  {
    if m > 0 {
      TourKeys(m - 1);
      SiteIsNew(m);
      KeysSnoc(SiteHits(m - 1), Hit(Site(m - 1), 0, 0));
    }
  }

  lemma SiteIsNew(m: nat)
    requires 0 < m <= SITES && |Keys(SiteHits(m - 1))| == m - 1
    requires forall i :: 0 <= i < m - 1 ==> Keys(SiteHits(m - 1))[i] == Site(i)
    ensures Site(m - 1) !in Keys(SiteHits(m - 1))
  {
    if Site(m - 1) in Keys(SiteHits(m - 1)) {
      var i :| 0 <= i < m - 1 && Keys(SiteHits(m - 1))[i] == Site(m - 1);
      SiteInjective(i, m - 1);
    }
  }

  /** And each once. */
  lemma {:induction false} TourCounts(m: nat, i: nat)
    requires i < SITES && m <= SITES
    ensures Count(SiteHits(m), Site(i)) == if i < m then 1 else 0
  {
    if m > 0 {
      TourCounts(m - 1, i);
      CountSnoc(SiteHits(m - 1), Hit(Site(m - 1), 0, 0), Site(i));
      SiteInjective(i, m - 1);
    }
  }

  lemma LastKeys(m: nat)
    requires 0 < m <= SITES
    ensures var ks := Keys(SiteHits(m) + [Hit(Site(m - 1), 0, 0)]);
            |ks| == m && ks[0] == Site(0) && ks[m - 1] == Site(m - 1)
  {
    TourKeys(m);
    assert Keys(SiteHits(m))[m - 1] == Site(m - 1);
    KeysSnoc(SiteHits(m), Hit(Site(m - 1), 0, 0));
  }

  lemma LastCount(m: nat, i: nat)
    requires i < m <= SITES
    ensures Count(SiteHits(m) + [Hit(Site(m - 1), 0, 0)], Site(i)) == if i == m - 1 then 2 else 1
  {
    TourCounts(m, i);
    SiteInjective(i, m - 1);
    CountSnoc(SiteHits(m), Hit(Site(m - 1), 0, 0), Site(i));
  }

  // ---- Conservation ----

  function TotalAllocs(t: seq<Entry>): nat {
    if t == [] then 0 else TotalAllocs(t[..|t| - 1]) + t[|t| - 1].allocs
  }

  lemma {:induction false} TotalAfterBump(t: seq<Entry>, i: nat, x: Hit)
    requires i < |t|
    ensures TotalAllocs(t[i := Bump(t[i], x)]) == TotalAllocs(t) + 1
  {
    var m := |t| - 1;
    if i == m {
      assert t[i := Bump(t[i], x)][..m] == t[..m];
    } else {
      assert t[i := Bump(t[i], x)][..m] == t[..m][i := Bump(t[i], x)];
      TotalAfterBump(t[..m], i, x);
    }
  }

  lemma {:induction false} EmptyTotals(ks: seq<Key>)
    ensures TotalAllocs(Summaries([], ks)) == 0
  {
    if ks != [] {
      assert Summaries([], ks)[..|ks| - 1] == Summaries([], ks[..|ks| - 1]);
      EmptyTotals(ks[..|ks| - 1]);
    }
  }

  /** Counted in the table or missed by it: every report exactly once. */
  lemma {:induction false} ReportsConserved(h: seq<Hit>, ks: seq<Key>)
    requires forall i, j :: 0 <= i < j < |ks| ==> ks[i] != ks[j]
    ensures TotalAllocs(Summaries(h, ks)) + Missed(h, ks) == |h|
  {
    if h == [] {
      EmptyTotals(ks);
    } else {
      var g, x := h[..|h| - 1], h[|h| - 1];
      assert h == g + [x];
      ReportsConserved(g, ks);
      if x.key in ks {
        var i :| 0 <= i < |ks| && ks[i] == x.key;
        HitListed(g, x, ks, i);
        TotalAfterBump(Summaries(g, ks), i, x);
      } else {
        HitUnlisted(g, x, ks);
      }
    }
  }

  /** Sizes reported in all. */
  function Sizes(h: seq<Hit>): nat {
    if h == [] then 0 else Sizes(h[..|h| - 1]) + h[|h| - 1].size
  }

  /** Sizes reported of keys not among the given ones. */
  function MissedSizes(h: seq<Hit>, ks: seq<Key>): nat {
    if h == [] then 0 else MissedSizes(h[..|h| - 1], ks) + if h[|h| - 1].key in ks then 0 else h[|h| - 1].size
  }

  function BytesOf(h: seq<Hit>, ks: seq<Key>): nat {
    if ks == [] then 0 else BytesOf(h, ks[..|ks| - 1]) + Bytes(h, ks[|ks| - 1])
  }

  function TotalBytes(t: seq<Entry>): nat {
    if t == [] then 0 else TotalBytes(t[..|t| - 1]) + t[|t| - 1].bytes
  }

  lemma {:induction false} BytesOfSnoc(h: seq<Hit>, x: Hit, ks: seq<Key>)
    requires forall i, j :: 0 <= i < j < |ks| ==> ks[i] != ks[j]
    ensures BytesOf(h + [x], ks) == BytesOf(h, ks) + if x.key in ks then x.size else 0
  {
    if ks != [] {
      var m := |ks| - 1;
      BytesOfSnoc(h, x, ks[..m]);
      BytesSnoc(h, x, ks[m]);
      assert ks[m] !in ks[..m];
    }
  }

  lemma {:induction false} BytesOfNothing(ks: seq<Key>)
    ensures BytesOf([], ks) == 0
  {
    if ks != [] {
      BytesOfNothing(ks[..|ks| - 1]);
    }
  }

  lemma {:induction false} SizesSplit(h: seq<Hit>, ks: seq<Key>)
    requires forall i, j :: 0 <= i < j < |ks| ==> ks[i] != ks[j]
    ensures BytesOf(h, ks) + MissedSizes(h, ks) == Sizes(h)
  {
    if h == [] {
      BytesOfNothing(ks);
    } else {
      var g, x := h[..|h| - 1], h[|h| - 1];
      assert h == g + [x];
      SizesSplit(g, ks);
      BytesOfSnoc(g, x, ks);
    }
  }

  lemma {:induction false} TotalBytesMod(h: seq<Hit>, ks: seq<Key>)
    ensures TotalBytes(Summaries(h, ks)) % TWO_32 == BytesOf(h, ks) % TWO_32
  {
    if ks != [] {
      var m := |ks| - 1;
      TotalBytesMod(h, ks[..m]);
      assert Summaries(h, ks)[..m] == Summaries(h, ks[..m]);
      var t, b, x := TotalBytes(Summaries(h, ks[..m])), BytesOf(h, ks[..m]), Bytes(h, ks[m]);
      SumMod(t, x % TWO_32);
      SumMod(b, x);
      SumMod(x, t % TWO_32);
    }
  }

  /** The bytes in the table and those it missed are all the bytes reported, modulo 2^32. */
  lemma BytesConserved(h: seq<Hit>, ks: seq<Key>)
    requires forall i, j :: 0 <= i < j < |ks| ==> ks[i] != ks[j]
    ensures (TotalBytes(Summaries(h, ks)) + MissedSizes(h, ks)) % 0x1_0000_0000 == Sizes(h) % 0x1_0000_0000
  {
    SizesSplit(h, ks);
    TotalBytesMod(h, ks);
    SumMod(TotalBytes(Summaries(h, ks)), MissedSizes(h, ks));
    SumMod(BytesOf(h, ks), MissedSizes(h, ks));
  }
}

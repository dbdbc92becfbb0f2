/** The viewer's in-memory model of one run, and the difference of two runs. */
module ViewerModel {
  import opened Words
  import opened Options
  import opened KeyHistory
  import opened Mts1Format
  import opened Mts1Decoder
  import F = Frames

  datatype Tick = Tick(frameSeq: U32, current: U32, peak: U32, totalAllocs: U32, totalFrees: U32, seqNo: U32)

  /** A parsed snapshot with the sequence number of the frame that carried it. */
  datatype Push = Push(frameSeq: U32, snap: Snap)

  // ---- What the model should hold, from everything pushed ----

  function TickOf(p: Push): Tick {
    var h := p.snap.hdr;
    Tick(p.frameSeq, h.current, h.peak, h.totalAllocs, h.totalFrees, h.seqNo)
  }

  function Ticks(ps: seq<Push>): (ts: seq<Tick>)
    ensures |ts| == |ps|
  {
    if ps == [] then [] else Ticks(ps[..|ps| - 1]) + [TickOf(ps[|ps| - 1])]
  }

  function HitOf(r: WireRec, seqNo: U32): Hit {
    Hit(Key(r.fileId, r.line), r.size, seqNo)
  }

  function RecordHits(rs: seq<WireRec>, seqNo: U32): seq<Hit> {
    if rs == [] then [] else RecordHits(rs[..|rs| - 1], seqNo) + [HitOf(rs[|rs| - 1], seqNo)]
  }

  /** Every record of every snapshot, in order. */
  function AllHits(ps: seq<Push>): seq<Hit> {
    if ps == [] then []
    else
      var p := ps[|ps| - 1];
      AllHits(ps[..|ps| - 1]) + RecordHits(p.snap.records, p.snap.hdr.seqNo)
  }

  function MaxPeak(ps: seq<Push>): U32 {
    if ps == [] then 0
    else
      var m, p := MaxPeak(ps[..|ps| - 1]), ps[|ps| - 1].snap.hdr.peak;
      if p > m then p else m
  }

  // ---- What these say of the snapshots pushed ----

  /** One timeline entry for each push, field by field. */
  lemma {:induction false} TimelineTells(ps: seq<Push>, i: nat)
    requires i < |ps|
    ensures var t, h := Ticks(ps)[i], ps[i].snap.hdr;
            && t.frameSeq == ps[i].frameSeq && t.current == h.current && t.peak == h.peak
            && t.totalAllocs == h.totalAllocs && t.totalFrees == h.totalFrees && t.seqNo == h.seqNo
  {
    if i < |ps| - 1 {
      TimelineTells(ps[..|ps| - 1], i);
    }
  }

  /** The largest peak is a bound of all peaks pushed, and one of them (or zero). */
  lemma {:induction false} PeakTells(ps: seq<Push>)
    ensures forall i :: 0 <= i < |ps| ==> ps[i].snap.hdr.peak <= MaxPeak(ps)
    ensures MaxPeak(ps) == 0 || exists i :: 0 <= i < |ps| && ps[i].snap.hdr.peak == MaxPeak(ps)
  {
    if ps != [] {
      var m := |ps| - 1;
      PeakTells(ps[..m]);
      if MaxPeak(ps) != ps[m].snap.hdr.peak && MaxPeak(ps) != 0 {
        var i :| 0 <= i < m && ps[..m][i].snap.hdr.peak == MaxPeak(ps);
        assert ps[i].snap.hdr.peak == MaxPeak(ps);
      }
    }
  }

  /** One hit for each record of a snapshot: its call site and size, under the snapshot's sequence number. */
  lemma {:induction false} RecordsTell(rs: seq<WireRec>, seqNo: U32)
    ensures var h := RecordHits(rs, seqNo);
            && |h| == |rs|
            && forall j :: 0 <= j < |rs| ==>
                 && h[j].key.fileId == rs[j].fileId && h[j].key.line == rs[j].line
                 && h[j].size == rs[j].size && h[j].seqNo == seqNo
  {
    if rs != [] {
      RecordsTell(rs[..|rs| - 1], seqNo);
    }
  }

  /** How many records of the snapshots pushed are of one call site. */
  function Sightings(rs: seq<WireRec>, fileId: U32, line: U16): nat {
    if rs == [] then 0
    else Sightings(rs[1..], fileId, line) + if rs[0].fileId == fileId && rs[0].line == line then 1 else 0
  }

  function AllSightings(ps: seq<Push>, fileId: U32, line: U16): nat {
    if ps == [] then 0 else Sightings(ps[0].snap.records, fileId, line) + AllSightings(ps[1..], fileId, line)
  }

  lemma {:induction false} SightingsConcat(x: seq<WireRec>, y: seq<WireRec>, fileId: U32, line: U16)
    ensures Sightings(x + y, fileId, line) == Sightings(x, fileId, line) + Sightings(y, fileId, line)
  {
    if x == [] {
      assert x + y == y;
    } else {
      assert (x + y)[1..] == x[1..] + y;
      SightingsConcat(x[1..], y, fileId, line);
    }
  }

  lemma {:induction false} AllSightingsConcat(x: seq<Push>, y: seq<Push>, fileId: U32, line: U16)
    ensures AllSightings(x + y, fileId, line) == AllSightings(x, fileId, line) + AllSightings(y, fileId, line)
  {
    if x == [] {
      assert x + y == y;
    } else {
      assert (x + y)[1..] == x[1..] + y;
      AllSightingsConcat(x[1..], y, fileId, line);
    }
  }

  lemma {:induction false} CountConcat(x: seq<Hit>, y: seq<Hit>, k: Key)
    ensures Count(x + y, k) == Count(x, k) + Count(y, k)
    decreases |y|
  {
    if y == [] {
      assert x + y == x;
    } else {
      var m := |y| - 1;
      assert x + y == (x + y[..m]) + [y[m]];
      CountConcat(x, y[..m], k);
      CountSnoc(x + y[..m], y[m], k);
    }
  }

  lemma {:induction false} RecordsCounted(rs: seq<WireRec>, seqNo: U32, fileId: U32, line: U16)
    ensures Count(RecordHits(rs, seqNo), Key(fileId, line)) == Sightings(rs, fileId, line)
  {
    if rs != [] {
      var m := |rs| - 1;
      RecordsCounted(rs[..m], seqNo, fileId, line);
      CountSnoc(RecordHits(rs[..m], seqNo), HitOf(rs[m], seqNo), Key(fileId, line));
      SightingsConcat(rs[..m], [rs[m]], fileId, line);
      assert rs == rs[..m] + [rs[m]] && [rs[m]][1..] == [];
    }
  }

  /** The count of a call site is the number of records pushed that show it. */
  lemma {:induction false} CountsTell(ps: seq<Push>, fileId: U32, line: U16)
    ensures Count(AllHits(ps), Key(fileId, line)) == AllSightings(ps, fileId, line)
  {
    if ps != [] {
      var m := |ps| - 1;
      CountsTell(ps[..m], fileId, line);
      RecordsCounted(ps[m].snap.records, ps[m].snap.hdr.seqNo, fileId, line);
      CountConcat(AllHits(ps[..m]), RecordHits(ps[m].snap.records, ps[m].snap.hdr.seqNo), Key(fileId, line));
      AllSightingsConcat(ps[..m], [ps[m]], fileId, line);
      assert ps == ps[..m] + [ps[m]] && [ps[m]][1..] == [];
    }
  }

  /** What realloc to twice the capacity leaves: a longer array with the old contents in front. */
  method Doubled<T>(a: array<T>, n: nat, fill: T) returns (b: array<T>)
    requires n <= a.Length
    ensures fresh(b) && b.Length == 2 * a.Length && b[..n] == a[..n]
  {
    b := new T[2 * a.Length](_ => fill);
    for i := 0 to n
      invariant b[..i] == a[..i]
    {
      b[i] := a[i];
    }
  }

  const ZERO_TICK := Tick(0, 0, 0, 0, 0, 0)

  class Model {
    var timeline: array<Tick>
    var timelineLen: nat
    var hotspots: array<Entry>
    var hotspotCount: nat
    var last: Option<Snap>
    var peakEver: U32
    var totalFrames: nat
    ghost var pushed: seq<Push>

    /** The hotspot table counts every record of the given history, one entry a key. */
    ghost predicate Counts(h: seq<Hit>)
      reads this, hotspots
    {
      && hotspots.Length > 0 && hotspotCount <= hotspots.Length
      && hotspots[..hotspotCount] == Summaries(h, Keys(h))
    }

    ghost predicate Timed(ps: seq<Push>)
      reads this, timeline
    {
      && timeline.Length > 0 && timelineLen <= timeline.Length
      && timeline[..timelineLen] == Ticks(ps)
    }

    ghost predicate Valid()
      reads this, timeline, hotspots
    {
      && Timed(pushed) && Counts(AllHits(pushed))
      && last == (if pushed == [] then None else Some(pushed[|pushed| - 1].snap))
      && peakEver == MaxPeak(pushed) && totalFrames == |pushed|
    }

    constructor ()
      ensures Valid() && pushed == [] && fresh(timeline) && fresh(hotspots)
    {
      timeline := new Tick[64](_ => ZERO_TICK);
      hotspots := new Entry[64](_ => ZERO_ENTRY);
      timelineLen, hotspotCount, last, peakEver, totalFrames, pushed := 0, 0, None, 0, 0, [];
    }

    method AddTick(p: Push)
      requires Timed(pushed)
      modifies this`timeline, this`timelineLen, timeline
      ensures Timed(old(pushed) + [p]) && (timeline == old(timeline) || fresh(timeline))
    {
      if timelineLen >= timeline.Length {
        timeline := Doubled(timeline, timelineLen, ZERO_TICK);
      }
      timeline[timelineLen] := TickOf(p);
      timelineLen := timelineLen + 1;
      assert (pushed + [p])[..|pushed|] == pushed;
    }

    /** An entry for a call site not seen before, growing the array first when it is full. */
    method AddEntry(rec: WireRec, seqNo: U32, ghost h: seq<Hit>)
      requires Counts(h) && HitOf(rec, seqNo).key !in Keys(h)
      modifies this`hotspots, this`hotspotCount, hotspots
      ensures Counts(h + [HitOf(rec, seqNo)]) && (hotspots == old(hotspots) || fresh(hotspots))
    {
      ghost var x := HitOf(rec, seqNo);
      KeysSnoc(h, x);
      HitNew(h, x, Keys(h));
      if hotspotCount >= hotspots.Length {
        hotspots := Doubled(hotspots, hotspotCount, ZERO_ENTRY);
      }
      hotspots[hotspotCount] := Entry(Key(rec.fileId, rec.line), true, 1, rec.size, seqNo);
      hotspotCount := hotspotCount + 1;
    }

    method BumpEntry(j: nat, rec: WireRec, seqNo: U32, ghost h: seq<Hit>)
      requires Counts(h) && j < hotspotCount && Keys(h)[j] == HitOf(rec, seqNo).key
      modifies hotspots
      ensures Counts(h + [HitOf(rec, seqNo)])
    {
      ghost var x := HitOf(rec, seqNo);
      KeysDistinct(h);
      KeysSnoc(h, x);
      HitListed(h, x, Keys(h), j);
      Raise(j, rec.size, seqNo);
      assert old(hotspots[..hotspotCount])[j] == old(hotspots[j]);
    }

    method Raise(j: nat, size: U32, seqNo: U32)
      requires j < hotspotCount <= hotspots.Length
      modifies hotspots
      ensures hotspots[..hotspotCount]
           == old(hotspots[..hotspotCount])[j := Bump(old(hotspots[j]), Hit(old(hotspots[j]).key, size, seqNo))]
    {
      hotspots[j] := hotspots[j].(allocs := hotspots[j].allocs + 1,
                                  bytes := (hotspots[j].bytes + size) % TWO_32,
                                  lastSeq := seqNo);
    }

    /** Finds or creates the entry of a record's call site and counts the record. */
    method AddRecord(rec: WireRec, seqNo: U32, ghost h: seq<Hit>)
      requires Counts(h)
      modifies this`hotspots, this`hotspotCount, hotspots
      ensures Counts(h + [HitOf(rec, seqNo)]) && (hotspots == old(hotspots) || fresh(hotspots))
    {
      ghost var key := HitOf(rec, seqNo).key;
      for j := 0 to hotspotCount
        invariant forall k :: 0 <= k < j ==> Keys(h)[k] != key
      {
        assert hotspots[..hotspotCount][j].key == Keys(h)[j];
        if hotspots[j].key.fileId == rec.fileId && hotspots[j].key.line == rec.line {
          BumpEntry(j, rec, seqNo, h);
          return;
        }
      }
      AddEntry(rec, seqNo, h);
    }

    method AddRecords(snap: Snap, ghost h: seq<Hit>)
      requires Counts(h) && snap.hdr.count == |snap.records|
      modifies this`hotspots, this`hotspotCount, hotspots
      ensures Counts(h + RecordHits(snap.records, snap.hdr.seqNo))
      ensures hotspots == old(hotspots) || fresh(hotspots)
    {
      assert h + RecordHits(snap.records[..0], snap.hdr.seqNo) == h;
      for i := 0 to snap.hdr.count
        invariant Counts(h + RecordHits(snap.records[..i], snap.hdr.seqNo))
        invariant hotspots == old(hotspots) || fresh(hotspots)
      {
        ghost var sofar := h + RecordHits(snap.records[..i], snap.hdr.seqNo);
        AddRecord(snap.records[i], snap.hdr.seqNo, sofar);
        assert snap.records[..i + 1][..i] == snap.records[..i];
        assert sofar + [HitOf(snap.records[i], snap.hdr.seqNo)]
            == h + RecordHits(snap.records[..i + 1], snap.hdr.seqNo);
      }
      assert snap.records[..snap.hdr.count] == snap.records;
    }

    method PushSnapshot(frameSeq: U32, snap: Snap)
      requires Valid() && snap.hdr.count == |snap.records|
      modifies this, timeline, hotspots
      ensures Valid() && pushed == old(pushed) + [Push(frameSeq, snap)]
      ensures (timeline == old(timeline) || fresh(timeline)) && (hotspots == old(hotspots) || fresh(hotspots))
    {
      ghost var before := pushed;
      var p := Push(frameSeq, snap);
      assert (before + [p])[..|before|] == before;
      AddTick(p);
      if snap.hdr.peak > peakEver {
        peakEver := snap.hdr.peak;
      }
      last := Some(snap);
      AddRecords(snap, AllHits(before));
      totalFrames := totalFrames + 1;
      pushed := before + [p];
      assert pushed[..|before|] == before;
    }
  }

  // ---- Top hotspots ----

  /** Entries by descending count. */
  predicate Descending(es: seq<Entry>) {
    forall i, j :: 0 <= i < j < |es| ==> es[i].allocs >= es[j].allocs
  }

  /** No entry beyond the first n outweighs one of them. */
  predicate TrulyTop(es: seq<Entry>, n: nat) {
    forall i, j :: 0 <= i < n <= j < |es| ==> es[i].allocs >= es[j].allocs
  }

  /** What "top" promises of a selection: nothing left out of it outweighs anything in it. */
  ghost predicate Tops(chosen: seq<Entry>, es: seq<Entry>) {
    forall x, y :: x in chosen && y in es && y !in chosen ==> x.allocs >= y.allocs
  }

  lemma SameMembers(xs: seq<Entry>, ys: seq<Entry>, x: Entry)
    requires multiset(xs) == multiset(ys)
    ensures x in xs <==> x in ys
  {
    assert x in xs <==> x in multiset(xs);
    assert x in ys <==> x in multiset(ys);
  }

  lemma FirstTops(es: seq<Entry>, k: nat, n: nat)
    requires k == if |es| < n then |es| else n
    requires forall i, j :: 0 <= i < j < |es| ==> es[i] != es[j]
    ensures Tops(es[..k], es) <==> TrulyTop(es, n)
  {
    var xs := es[..k];
    if TrulyTop(es, n) {
      forall x, y | x in xs && y in es && y !in xs
        ensures x.allocs >= y.allocs
      {
        var i :| 0 <= i < k && xs[i] == x;
        var j :| 0 <= j < |es| && es[j] == y;
        assert y in xs || j >= k;
      }
    }
    if Tops(xs, es) {
      forall i, j | 0 <= i < n <= j < |es|
        ensures es[i].allocs >= es[j].allocs
      {
        assert xs[i] == es[i];
        assert es[j] !in xs;
      }
    }
  }

  lemma TopsIff(chosen: seq<Entry>, es: seq<Entry>, k: nat, n: nat)
    requires k == if |es| < n then |es| else n
    requires multiset(chosen) == multiset(es[..k])
    requires forall i, j :: 0 <= i < j < |es| ==> es[i] != es[j]
    ensures Tops(chosen, es) <==> TrulyTop(es, n)
  {
    forall x {
      SameMembers(chosen, es[..k], x);
    }
    FirstTops(es, k, n);
  }

  /** The first n entries found, sorted by count: later entries are never looked at. */
  method TopHotspots(m: Model, n: nat) returns (out: array<Entry>, count: nat)
    requires m.Valid()
    ensures fresh(out) && count == out.Length == if m.hotspotCount < n then m.hotspotCount else n
    ensures multiset(out[..]) == multiset(m.hotspots[..count])
    ensures forall i, j :: 0 <= i < j < count ==> out[i].allocs >= out[j].allocs
    ensures Tops(out[..], m.hotspots[..m.hotspotCount]) <==> TrulyTop(m.hotspots[..m.hotspotCount], n)
    ensures m.hotspotCount <= n ==>
              multiset(out[..]) == multiset(m.hotspots[..m.hotspotCount]) && Tops(out[..], m.hotspots[..m.hotspotCount])
  {
    count := if m.hotspotCount < n then m.hotspotCount else n;
    out := new Entry[count](i requires 0 <= i < count <= m.hotspots.Length reads m, m.hotspots => m.hotspots[i]);
    assert out[..] == m.hotspots[..count];
    SortDescending(out);
    ghost var table := m.hotspots[..m.hotspotCount];
    KeysDistinct(AllHits(m.pushed));
    assert m.hotspots[..count] == table[..count];
    TopsIff(out[..], table, count, n);
  }

  /** The insertion sort. */
  method SortDescending(out: array<Entry>)
    modifies out
    ensures multiset(out[..]) == multiset(old(out[..])) && Descending(out[..])
  {
    var i := 1;
    while i < out.Length
      invariant 1 <= i && (i <= out.Length || out.Length == 0)
      invariant Descending(out[..if i < out.Length then i else out.Length])
      invariant multiset(out[..]) == multiset(old(out[..]))
    {
      InsertDown(out, i);
      i := i + 1;
    }
    assert out[..out.Length] == out[..];
  }

  /** `now` is `was` with entry i taken out and put back at j. */
  ghost predicate MovedDown(was: seq<Entry>, now: seq<Entry>, j: nat, i: nat) {
    && j <= i < |was| == |now|
    && now == was[..j] + [was[i]] + was[j..i] + was[i + 1..]
  }

  /** Entries j to i - 1 moved up by one, entry j still in its old place. */
  function Shifted(was: seq<Entry>, j: nat, i: nat): (now: seq<Entry>)
    requires j <= i < |was|
    ensures |now| == |was| && now[j] == was[j] && (j > 0 ==> now[j - 1] == was[j - 1])
  {
    was[..j + 1] + was[j..i] + was[i + 1..]
  }

  lemma ShiftOne(was: seq<Entry>, j: nat, i: nat)
    requires 0 < j <= i < |was|
    ensures Shifted(was, j, i)[j := was[j - 1]] == Shifted(was, j - 1, i)
  {
  }

  lemma MovedSameEntries(was: seq<Entry>, now: seq<Entry>, j: nat, i: nat)
    requires MovedDown(was, now, j, i)
    ensures multiset(now) == multiset(was)
  {
    assert was == was[..j] + was[j..i] + [was[i]] + was[i + 1..];
  }

  /** An entry put between heavier and lighter ones. */
  lemma PutDescends(front: seq<Entry>, x: Entry, back: seq<Entry>)
    requires Descending(front + back)
    requires forall k :: 0 <= k < |front| ==> front[k].allocs >= x.allocs
    requires forall k :: 0 <= k < |back| ==> x.allocs >= back[k].allocs
    ensures Descending(front + [x] + back)
  {
    var u, v := front + back, front + [x] + back;
    forall a, b | 0 <= a < b < |v|
      ensures v[a].allocs >= v[b].allocs
    {
      assert a < |front| ==> v[a] == u[a];
      assert a > |front| ==> v[a] == u[a - 1];
      assert b < |front| ==> v[b] == u[b];
      assert b > |front| ==> v[b] == u[b - 1];
    }
  }

  lemma MovedDescends(was: seq<Entry>, now: seq<Entry>, j: nat, i: nat)
    requires MovedDown(was, now, j, i) && Descending(was[..i])
    requires forall k :: j <= k < i ==> was[k].allocs < was[i].allocs
    requires j > 0 ==> was[j - 1].allocs >= was[i].allocs
    ensures Descending(now[..i + 1])
  {
    assert was[..i] == was[..j] + was[j..i];
    assert forall k :: 0 <= k < j ==> was[..i][k].allocs >= was[..i][j - 1].allocs;
    PutDescends(was[..j], was[i], was[j..i]);
    assert now[..i + 1] == was[..j] + [was[i]] + was[j..i];
  }

  lemma PutIsMoved(was: seq<Entry>, j: nat, i: nat)
    requires j <= i < |was|
    ensures MovedDown(was, Shifted(was, j, i)[j := was[i]], j, i)
  {
  }

  /** Moves the entries lighter than entry i up by one, from i down; j is the place they leave. */
  method ShiftUp(out: array<Entry>, i: nat) returns (j: nat)
    requires 0 < i < out.Length
    modifies out
    ensures j <= i && out[..] == Shifted(old(out[..]), j, i)
    ensures forall k :: j <= k < i ==> old(out[..])[k].allocs < old(out[..])[i].allocs
    ensures j > 0 ==> old(out[..])[j - 1].allocs >= old(out[..])[i].allocs
  {
    var key := out[i];
    ghost var was := out[..];
    j := i;
    while j > 0 && out[j - 1].allocs < key.allocs
      invariant j <= i && out[..] == Shifted(was, j, i)
      invariant forall k :: j <= k < i ==> was[k].allocs < key.allocs
    {
      ShiftOne(was, j, i);
      assert out[..][j - 1] == was[j - 1];
      out[j] := out[j - 1];
      j := j - 1;
    }
    assert j > 0 ==> out[..][j - 1] == was[j - 1];
  }

  /** One round of the insertion sort: moves entry i down among the sorted entries before it. */
  method InsertDown(out: array<Entry>, i: nat)
    requires 0 < i < out.Length && Descending(out[..i])
    modifies out
    ensures Descending(out[..i + 1]) && multiset(out[..]) == multiset(old(out[..]))
  {
    var key := out[i];
    ghost var was := out[..];
    assert was[..i] == out[..i];
    var j := ShiftUp(out, i);
    out[j] := key;
    PutIsMoved(was, j, i);
    MovedSameEntries(was, out[..], j, i);
    MovedDescends(was, out[..], j, i);
    assert out[..][..i + 1] == out[..i + 1];
  }

  // ---- When the first entries found are the top ones ----

  /** A snapshot the decoder can hand over from one frame. */
  predicate Pushable(p: Push) {
    && p.snap.hdr.version == 1 && p.snap.hdr.count == |p.snap.records|
    && HEADER_SIZE + RECORD_SIZE * |p.snap.records| <= F.RX_MAX_PAYLOAD
  }

  ghost predicate Received(ps: seq<Push>) {
    forall i :: 0 <= i < |ps| ==> Pushable(ps[i])
  }

  /** The hotspot table after a history of pushes: what `Valid` says the model holds. */
  function TableOf(ps: seq<Push>): seq<Entry> {
    Summaries(AllHits(ps), Keys(AllHits(ps)))
  }

  function RecordOf(k: Key): WireRec {
    WireRec(0, 0, k.fileId, k.line, 1, 0, 0)
  }

  /** A snapshot of one record per given call site. */
  function Showing(ks: seq<Key>): Push
    requires |ks| < TWO_32
  {
    Push(1, Snap(Header(1, 8, |ks|, 0, 0, 0, 0, 0, 0), seq(|ks|, i requires 0 <= i < |ks| => RecordOf(ks[i]))))
  }

  /** One snapshot for each of the first m call sites. */
  function Tour(m: nat): (ps: seq<Push>)
    requires m <= SITES
    ensures |ps| == m
  {
    if m == 0 then [] else Tour(m - 1) + [Showing([Site(m - 1)])]
  }

  lemma HitsOfOne(ps: seq<Push>, k: Key)
    ensures AllHits(ps + [Showing([k])]) == AllHits(ps) + [Hit(k, 0, 0)]
  {
    var p := Showing([k]);
    var rs := p.snap.records;
    assert (ps + [p])[..|ps|] == ps;
    assert rs == [RecordOf(k)] && rs[..0] == [];
    assert RecordHits(rs, 0) == [] + [HitOf(RecordOf(k), 0)];
  }

  lemma {:induction false} TourHits(m: nat)
    requires m <= SITES
    ensures AllHits(Tour(m)) == SiteHits(m) && Received(Tour(m))
  {
    if m > 0 {
      TourHits(m - 1);
      HitsOfOne(Tour(m - 1), Site(m - 1));
    }
  }

  lemma EntryAt(ps: seq<Push>, i: nat)
    requires i < |Keys(AllHits(ps))|
    ensures TableOf(ps)[i].allocs == Count(AllHits(ps), Keys(AllHits(ps))[i])
  {
  }

  /** A tour that comes back to its last call site: the entry found last weighs most. */
  lemma LastOutweighs(m: nat) returns (ps: seq<Push>)
    requires 2 <= m <= SITES
    ensures Received(ps) && |Keys(AllHits(ps))| == m
    ensures TableOf(ps)[0].allocs < TableOf(ps)[m - 1].allocs
  {
    ps := Tour(m) + [Showing([Site(m - 1)])];
    TourHits(m);
    HitsOfOne(Tour(m), Site(m - 1));
    LastKeys(m);
    LastCount(m, 0);
    LastCount(m, m - 1);
    EntryAt(ps, 0);
    EntryAt(ps, m - 1);
  }

  /** The first n of m call sites found are the top n, whatever the viewer has received, exactly when there are
      no others. */
  lemma TopIffAllFit(m: nat, n: nat)
    requires 0 < n && m <= SITES
    ensures (forall ps :: Received(ps) && |Keys(AllHits(ps))| == m ==> TrulyTop(TableOf(ps), n)) <==> m <= n
  {
    if m > n {
      var ps := LastOutweighs(m);
      assert !TrulyTop(TableOf(ps), n);
    }
  }

  /** One snapshot with a record of one call site and then two of another: the "top 1" is the lighter one. */
  lemma TopMissesHeavier(a: Key, b: Key)
    requires a != b
    ensures var p := Showing([a, b, b]);
            && Pushable(p)
            && TableOf([p]) == [Entry(a, true, 1, 0, 0), Entry(b, true, 2, 0, 0)] && !TrulyTop(TableOf([p]), 1)
  {
    var p := Showing([a, b, b]);
    var x, y := Hit(a, 0, 0), Hit(b, 0, 0);
    HitsOfThree(p, a, b);
    assert [] + [x] == [x] && [x] + [y] == [x, y] && [x, y] + [y] == [x, y, y];
    KeysSnoc([], x);
    KeysSnoc([x], y);
    KeysSnoc([x, y], y);
    FirstSummary([], x);
    SummarySnoc([x], y, a);
    FirstSummary([x], y);
    SummarySnoc([x, y], y, a);
    SummarySnoc([x, y], y, b);
    var t := TableOf([p]);
    assert t[0].allocs == 1 && t[1].allocs == 2;
  }

  lemma HitsOfThree(p: Push, a: Key, b: Key)
    requires p == Showing([a, b, b])
    ensures AllHits([p]) == [Hit(a, 0, 0), Hit(b, 0, 0), Hit(b, 0, 0)]
  {
    var rs := p.snap.records;
    assert rs == [RecordOf(a), RecordOf(b), RecordOf(b)];
    assert rs[..2] == [RecordOf(a), RecordOf(b)] && rs[..2][..1] == [RecordOf(a)] && rs[..2][..1][..0] == [];
    assert RecordHits(rs[..2][..1], 0) == [Hit(a, 0, 0)];
    assert RecordHits(rs[..2], 0) == [Hit(a, 0, 0), Hit(b, 0, 0)];
    assert AllHits([p]) == AllHits([p][..0]) + RecordHits(rs, 0);
  }

  // ---- Differences ----

  /** How many of the keys are not among the others. */
  function Absent(ks: seq<Key>, others: seq<Key>): nat {
    if ks == [] then 0
    else Absent(ks[..|ks| - 1], others) + if ks[|ks| - 1] in others then 0 else 1
  }

  function KeySet(ks: seq<Key>): set<Key> {
    set k | k in ks
  }

  method CountAbsent(a: Model, b: Model) returns (count: nat)
    requires a.Valid() && b.Valid()
    ensures count == Absent(Keys(AllHits(b.pushed)), Keys(AllHits(a.pushed)))
  {
    ghost var ka, kb := Keys(AllHits(a.pushed)), Keys(AllHits(b.pushed));
    count := 0;
    for i := 0 to b.hotspotCount
      invariant count == Absent(kb[..i], ka)
    {
      assert b.hotspots[..b.hotspotCount][i].key == kb[i];
      var found := false;
      for j := 0 to a.hotspotCount
        invariant !found && forall k :: 0 <= k < j ==> ka[k] != kb[i]
      {
        assert a.hotspots[..a.hotspotCount][j].key == ka[j];
        if a.hotspots[j].key.fileId == b.hotspots[i].key.fileId && a.hotspots[j].key.line == b.hotspots[i].key.line {
          found := true;
          break;
        }
      }
      if !found {
        count := count + 1;
      }
      assert kb[..i + 1][..i] == kb[..i];
    }
    assert kb[..|kb|] == kb;
  }

  method DiffCompute(a: Model, b: Model) returns (newCount: nat, resolvedCount: nat)
    requires a.Valid() && b.Valid()
    ensures newCount == |KeySet(Keys(AllHits(b.pushed))) - KeySet(Keys(AllHits(a.pushed)))|
    ensures resolvedCount == |KeySet(Keys(AllHits(a.pushed))) - KeySet(Keys(AllHits(b.pushed)))|
    ensures a.hotspotCount + newCount == b.hotspotCount + resolvedCount
  {
    newCount := CountAbsent(a, b);
    resolvedCount := CountAbsent(b, a);
    ghost var ka, kb := Keys(AllHits(a.pushed)), Keys(AllHits(b.pushed));
    KeysDistinct(AllHits(a.pushed));
    KeysDistinct(AllHits(b.pushed));
    AbsentIsDifference(ka, kb);
    AbsentIsDifference(kb, ka);
    DifferencesBalance(ka, kb);
  }

  lemma {:induction false} DistinctCount(ks: seq<Key>)
    requires forall i, j :: 0 <= i < j < |ks| ==> ks[i] != ks[j]
    ensures |KeySet(ks)| == |ks|
  {
    if ks != [] {
      var m := |ks| - 1;
      DistinctCount(ks[..m]);
      assert KeySet(ks) == KeySet(ks[..m]) + {ks[m]};
      assert ks[m] !in ks[..m];
    }
  }

  lemma {:induction false} AbsentIsDifference(ks: seq<Key>, others: seq<Key>)
    requires forall i, j :: 0 <= i < j < |ks| ==> ks[i] != ks[j]
    ensures Absent(ks, others) == |KeySet(ks) - KeySet(others)|
  {
    if ks != [] {
      var m := |ks| - 1;
      AbsentIsDifference(ks[..m], others);
      assert ks[m] !in ks[..m];
      var rest := KeySet(ks[..m]) - KeySet(others);
      assert KeySet(ks) - KeySet(others) == if ks[m] in others then rest else rest + {ks[m]};
    }
  }

  /** Keys of one run plus the new ones are the keys of the other plus the resolved ones. */
  lemma DifferencesBalance(ka: seq<Key>, kb: seq<Key>)
    requires forall i, j :: 0 <= i < j < |ka| ==> ka[i] != ka[j]
    requires forall i, j :: 0 <= i < j < |kb| ==> kb[i] != kb[j]
    ensures |ka| + |KeySet(kb) - KeySet(ka)| == |kb| + |KeySet(ka) - KeySet(kb)|
  {
    DistinctCount(ka);
    DistinctCount(kb);
    var a, b := KeySet(ka), KeySet(kb);
    assert a == (a - b) + (a * b) && b == (b - a) + (a * b);
  }
}

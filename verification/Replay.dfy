/** Replaying a recorded stream into the viewer's model. */
module Replay {
  import opened Words
  import opened Options
  import opened Frames
  import opened FrameReader
  import opened Mts1Decoder
  import opened ViewerModel

  /** The frames the replay loop takes: rejected headers are passed over, and an END frame is the last. */
  function Played(s: seq<Byte>): seq<Taken>
    decreases |s|
  {
    var o := ReadFrame(s);
    if o.Eof? then []
    else if o.Bad? then Played(s[o.used..])
    else if o.frame.hdr.kind == TYPE_END then [o]
    else [o] + Played(s[o.used..])
  }

  datatype Tally = Tally(frames: nat, resyncs: nat, crcFails: nat, pushed: seq<Push>)

  datatype Counters = Counters(frames: nat, resyncs: nat, crcFails: nat)

  function TallyOf(t: Counters, pushed: seq<Push>): Tally {
    Tally(t.frames, t.resyncs, t.crcFails, pushed)
  }

  /** A frame the replay loop takes. */
  type Taken = o: Outcome | o.Got? && |o.frame.payload| <= RX_MAX_PAYLOAD
    witness Got(Frame(FrameHdr(1, 4, 0, 0, 0, 0), [], false), 0, 20)

  /** The snapshot a frame carries, when it parses: pushed whether sound or not. */
  function SnapshotIn(o: Taken): Option<Snap> {
    if o.frame.hdr.kind == TYPE_SNAPSHOT then Parse(o.frame.payload) else None
  }

  function Pushes(o: Taken): seq<Push> {
    match SnapshotIn(o)
    case None => []
    case Some(snap) => [Push(o.frame.hdr.seqNo, snap)]
  }

  function Fails(o: Taken): nat {
    match SnapshotIn(o)
    case None => 0
    case Some(snap) => if CrcVerified(o.frame.payload, snap.hdr) then 0 else 1
  }

  /** What one taken frame adds. */
  function Take(t: Tally, o: Taken): Tally {
    Tally(t.frames + 1, t.resyncs + (if o.resync > 0 then 1 else 0), t.crcFails + Fails(o), t.pushed + Pushes(o))
  }

  function TakeAll(t: Tally, os: seq<Taken>): Tally
    decreases |os|
  {
    if os == [] then t else TakeAll(Take(t, os[0]), os[1..])
  }

  function Counted(t: Counters, resynced: bool, failed: bool): Counters {
    Counters(t.frames + 1, if resynced then t.resyncs + 1 else t.resyncs, if failed then t.crcFails + 1 else t.crcFails)
  }

  lemma CountedTakes(t: Counters, pushed: seq<Push>, o: Taken, failed: bool)
    requires Fails(o) == if failed then 1 else 0
    ensures TallyOf(Counted(t, o.resync > 0, failed), pushed + Pushes(o)) == Take(TallyOf(t, pushed), o)
  {
  }

  lemma ParsedCount(p: seq<Byte>, snap: Snap)
    requires |p| < TWO_32 && Parse(p) == Some(snap)
    ensures snap.hdr.count == |snap.records|
  {
  }

  method TakeFrame(model: Model, o: Taken) returns (failed: bool)
    requires model.Valid()
    modifies model, model.timeline, model.hotspots
    ensures model.Valid()
    ensures model.pushed == old(model.pushed) + Pushes(o) && Fails(o) == if failed then 1 else 0
    ensures model.timeline == old(model.timeline) || fresh(model.timeline)
    ensures model.hotspots == old(model.hotspots) || fresh(model.hotspots)
  {
    failed := false;
    if o.frame.hdr.kind == TYPE_SNAPSHOT {
      var ok, hdr, records := ParseSnapshot(o.frame.payload);
      if ok {
        var snap := Snap(hdr, records[..]);
        ParsedCount(o.frame.payload, snap);
        var crcOk := VerifyCrc(o.frame.payload, hdr);
        failed := !crcOk;
        model.PushSnapshot(o.frame.hdr.seqNo, snap);
      }
    }
  }

  method Absorb(model: Model, t: Counters, o: Taken) returns (t': Counters)
    requires model.Valid()
    modifies model, model.timeline, model.hotspots
    ensures model.Valid() && TallyOf(t', model.pushed) == Take(TallyOf(t, old(model.pushed)), o)
    ensures model.timeline == old(model.timeline) || fresh(model.timeline)
    ensures model.hotspots == old(model.hotspots) || fresh(model.hotspots)
  {
    ghost var before := model.pushed;
    var failed := TakeFrame(model, o);
    t' := Counted(t, o.resync > 0, failed);
    CountedTakes(t, before, o, failed);
  }

  /** One pass of the loop body; `done` when the stream ended or an END frame came. */
  method Pass(src: ByteSource, model: Model, t: Counters) returns (t': Counters, done: bool)
    requires model.Valid() && src.Valid()
    modifies model, model.timeline, model.hotspots, src
    ensures model.Valid() && src.Valid() && src.pos >= old(src.pos)
    ensures !done ==> src.pos > old(src.pos)
    ensures TakeAll(TallyOf(t', model.pushed), if done then [] else Played(src.data[src.pos..]))
         == TakeAll(TallyOf(t, old(model.pushed)), Played(src.data[old(src.pos)..]))
    ensures model.timeline == old(model.timeline) || fresh(model.timeline)
    ensures model.hotspots == old(model.hotspots) || fresh(model.hotspots)
  {
    ghost var s := src.data[src.pos..];
    var o := FrameRead(src);
    ghost var rest := src.data[src.pos..];
    assert !o.Eof? ==> s[o.used..] == rest;
    t', done := Digest(model, t, o, s, rest);
  }

  /** What the loop body makes of one answer of the reader. */
  method Digest(model: Model, t: Counters, o: Outcome, ghost s: seq<Byte>, ghost rest: seq<Byte>)
    returns (t': Counters, done: bool)
    requires model.Valid() && o == ReadFrame(s) && (!o.Eof? ==> rest == s[o.used..])
    modifies model, model.timeline, model.hotspots
    ensures model.Valid() && (!done ==> !o.Eof?)
    ensures TakeAll(TallyOf(t', model.pushed), if done then [] else Played(rest))
         == TakeAll(TallyOf(t, old(model.pushed)), Played(s))
    ensures model.timeline == old(model.timeline) || fresh(model.timeline)
    ensures model.hotspots == old(model.hotspots) || fresh(model.hotspots)
  {
    if !o.Got? {
      PlayedBad(s, o);
      return t, o.Eof?;
    }
    PlayedGot(TallyOf(t, model.pushed), s, o);
    t' := Absorb(model, t, o);
    done := o.frame.hdr.kind == TYPE_END;
  }

  /** The replay loop; every pass that does not end it consumes at least a header. */
  method Run(src: ByteSource, model: Model) returns (t: Counters)
    requires model.Valid() && src.Valid()
    modifies model, model.timeline, model.hotspots, src
    ensures model.Valid()
    ensures TallyOf(t, model.pushed)
         == TakeAll(Tally(0, 0, 0, old(model.pushed)), Played(src.data[old(src.pos)..]))
  {
    t := Counters(0, 0, 0);
    var done := false;
    ghost var goal := TakeAll(TallyOf(t, model.pushed), Played(src.data[src.pos..]));
    while !done
      invariant model.Valid() && src.Valid()
      invariant TakeAll(TallyOf(t, model.pushed), if done then [] else Played(src.data[src.pos..])) == goal
      invariant model.timeline == old(model.timeline) || fresh(model.timeline)
      invariant model.hotspots == old(model.hotspots) || fresh(model.hotspots)
      decreases !done, |src.data| - src.pos
    {
      t, done := Pass(src, model, t);
    }
  }

  lemma PlayedBad(s: seq<Byte>, o: Outcome)
    requires o == ReadFrame(s) && !o.Got?
    ensures Played(s) == if o.Bad? then Played(s[o.used..]) else []
  {
  }

  lemma PlayedGot(t: Tally, s: seq<Byte>, o: Outcome)
    requires o == ReadFrame(s) && o.Got?
    ensures TakeAll(t, Played(s))
         == TakeAll(Take(t, o), if o.frame.hdr.kind == TYPE_END then [] else Played(s[o.used..]))
  {
    var rest := if o.frame.hdr.kind == TYPE_END then [] else Played(s[o.used..]);
    assert Played(s) == [o] + rest;
    assert ([o] + rest)[1..] == rest;
  }

  // ---- Replaying what a stream sent ----

  lemma PlayedFirst(it: Item, rest: seq<Byte>)
    requires Clean(it)
    ensures Played(WireOf(it) + rest) == [Delivered(it)] + if it.kind == TYPE_END then [] else Played(rest)
  {
    DeliversFirst(it, rest);
    assert (WireOf(it) + rest)[Delivered(it).used..] == rest;
  }

  /** The frames of a stream are played one for one. */
  lemma {:induction false} StreamPlayed(items: seq<Item>, tail: seq<Byte>)
    requires MagicFree(tail) && forall i :: 0 <= i < |items| ==> Clean(items[i]) && items[i].kind != TYPE_END
    ensures Played(Wire(items) + tail) == AllDelivered(items)
    decreases |items|
  {
    if items == [] {
      assert Wire(items) + tail == tail;
      assert FirstMagic(tail, 0).None?;
    } else {
      var rest := Wire(items[1..]) + tail;
      assert Wire(items) + tail == WireOf(items[0]) + rest;
      PlayedFirst(items[0], rest);
      StreamPlayed(items[1..], tail);
    }
  }

  /** Nothing behind an END frame is played. */
  lemma EndStops(it: Item, rest: seq<Byte>)
    requires Clean(it) && it.kind == TYPE_END
    ensures Played(WireOf(it) + rest) == [Delivered(it)]
  {
    PlayedFirst(it, rest);
  }

  /** The frame carries this snapshot, with a checksum that verifies. */
  predicate Carries(o: Taken, snap: Snap) {
    SnapshotIn(o) == Some(snap) && Fails(o) == 0
  }

  /** The tally after a session of carried snapshots: each pushed under its frame's number. */
  function Total(t: Tally, os: seq<Taken>, snaps: seq<Snap>): Tally
    requires |os| == |snaps|
    decreases |os|
  {
    if os == [] then t
    else
      var u := Tally(t.frames + 1, t.resyncs + (if os[0].resync > 0 then 1 else 0), t.crcFails,
                     t.pushed + [Push(os[0].frame.hdr.seqNo, snaps[0])]);
      Total(u, os[1..], snaps[1..])
  }

  lemma {:induction false} CarriedTaken(t: Tally, os: seq<Taken>, snaps: seq<Snap>)
    requires |os| == |snaps| && forall i :: 0 <= i < |os| ==> Carries(os[i], snaps[i])
    ensures TakeAll(t, os) == Total(t, os, snaps)
    decreases |os|
  {
    if os != [] {
      assert Carries(os[0], snaps[0]);
      assert forall i :: 0 <= i < |os[1..]| ==> Carries(os[1..][i], snaps[1..][i]);
      CarriedTaken(Take(t, os[0]), os[1..], snaps[1..]);
    }
  }

  /** How many frames have garbage in front of them. */
  function Garbled(items: seq<Item>): nat {
    if items == [] then 0 else (if |items[0].garbage| > 0 then 1 else 0) + Garbled(items[1..])
  }

  function Resynced(os: seq<Taken>): nat {
    if os == [] then 0 else (if os[0].resync > 0 then 1 else 0) + Resynced(os[1..])
  }

  lemma {:induction false} TotalResyncs(t: Tally, os: seq<Taken>, snaps: seq<Snap>)
    requires |os| == |snaps|
    ensures Total(t, os, snaps).resyncs == t.resyncs + Resynced(os)
    decreases |os|
  {
    if os != [] {
      var u := Tally(t.frames + 1, t.resyncs + (if os[0].resync > 0 then 1 else 0), t.crcFails,
                     t.pushed + [Push(os[0].frame.hdr.seqNo, snaps[0])]);
      TotalResyncs(u, os[1..], snaps[1..]);
    }
  }

  lemma {:induction false} GarbledIs(items: seq<Item>, os: seq<Taken>)
    requires |os| == |items| && forall i :: 0 <= i < |items| ==> os[i].resync == |items[i].garbage|
    ensures Resynced(os) == Garbled(items)
    decreases |items|
  {
    if items != [] {
      GarbledIs(items[1..], os[1..]);
    }
  }

  lemma {:induction false} TotalIs(t: Tally, os: seq<Taken>, snaps: seq<Snap>)
    requires |os| == |snaps|
    ensures var u := Total(t, os, snaps);
            && u.frames == t.frames + |os| && u.crcFails == t.crcFails
            && |u.pushed| == |t.pushed| + |os| && t.pushed <= u.pushed
            && forall i :: 0 <= i < |os| ==> u.pushed[|t.pushed| + i] == Push(os[i].frame.hdr.seqNo, snaps[i])
    decreases |os|
  {
    if os != [] {
      var p := t.pushed + [Push(os[0].frame.hdr.seqNo, snaps[0])];
      var u := Tally(t.frames + 1, t.resyncs + (if os[0].resync > 0 then 1 else 0), t.crcFails, p);
      TotalIs(u, os[1..], snaps[1..]);
      var r := Total(t, os, snaps);
      assert r.pushed[..|p|] == p;
      forall i | 0 <= i < |os|
        ensures r.pushed[|t.pushed| + i] == Push(os[i].frame.hdr.seqNo, snaps[i])
      {
        if i == 0 {
          assert p[|t.pushed|] == r.pushed[|t.pushed|];
        } else {
          assert os[1..][i - 1] == os[i] && snaps[1..][i - 1] == snaps[i];
          assert r.pushed[|p| + (i - 1)] == Push(os[i].frame.hdr.seqNo, snaps[i]);
        }
      }
    }
  }

  /** Replaying a recorded session of snapshot frames pushes every snapshot sent, in order and under its own
      number, and counts one resynchronisation for each run of garbage and no checksum failure. */
  lemma SessionReplayed(items: seq<Item>, snaps: seq<Snap>, tail: seq<Byte>, t: Tally)
    requires |items| == |snaps| && MagicFree(tail)
    requires forall i :: 0 <= i < |items| ==> Clean(items[i]) && items[i].kind == TYPE_SNAPSHOT
    requires forall i :: 0 <= i < |items| ==> Carries(Delivered(items[i]), snaps[i])
    ensures var u := TakeAll(t, Played(Wire(items) + tail));
            && u.frames == t.frames + |items| && u.crcFails == t.crcFails && u.resyncs == t.resyncs + Garbled(items)
            && |u.pushed| == |t.pushed| + |items| && t.pushed <= u.pushed
            && forall i :: 0 <= i < |items| ==> u.pushed[|t.pushed| + i] == Push(items[i].seqNo, snaps[i])
  {
    var os := AllDelivered(items);
    StreamPlayed(items, tail);
    CarriedTaken(t, os, snaps);
    TotalIs(t, os, snaps);
    TotalResyncs(t, os, snaps);
    forall i | 0 <= i < |items|
      ensures os[i].frame.hdr.seqNo == items[i].seqNo && os[i].resync == |items[i].garbage|
    {
      assert os[i] == Delivered(items[i]);
    }
    GarbledIs(items, os);
  }
}

/** What replaying any recorded stream leaves, in terms of what is on the wire. */
module ReplayLaws {
  import opened Words
  import opened Options
  import opened Crc32
  import opened Frames
  import opened FrameReader
  import opened Mts1Decoder
  import opened ViewerModel
  import opened Replay

  /** A header on the wire behind a run of garbage, and the payload it announces when it is acceptable. */
  datatype Piece = Piece(garbage: seq<Byte>, hdr: FrameHdr, payload: seq<Byte>)

  /** A frame of version 1, a known type and a payload the reader takes; any flags, any checksum. */
  predicate Whole(x: Piece) {
    x.hdr.version == 1 && x.hdr.kind <= 4 && x.hdr.len <= 65536
  }

  ghost predicate Recorded(x: Piece) {
    MagicFree(x.garbage) && |x.payload| == if Whole(x) then x.hdr.len else 0
  }

  function Laid(x: Piece): seq<Byte> {
    x.garbage + PutHdr(x.hdr) + x.payload
  }

  function LaidAll(xs: seq<Piece>): seq<Byte> {
    if xs == [] then [] else Laid(xs[0]) + LaidAll(xs[1..])
  }

  predicate Ends(x: Piece) {
    Whole(x) && x.hdr.kind == 4
  }

  // ---- What is on the wire, counted ----

  function Wholes(xs: seq<Piece>): nat {
    if xs == [] then 0 else (if Whole(xs[0]) then 1 else 0) + Wholes(xs[1..])
  }

  /** Frames with garbage in front of them; garbage in front of a broken header is not reported. */
  function Resyncs(xs: seq<Piece>): nat {
    if xs == [] then 0 else (if Whole(xs[0]) && xs[0].garbage != [] then 1 else 0) + Resyncs(xs[1..])
  }

  /** The snapshot in a snapshot frame whose payload parses, sound or not. */
  function Snapshot(x: Piece): Option<Snap> {
    if Whole(x) && x.hdr.kind == 1 && |x.payload| <= 65536 then Parse(x.payload) else None
  }

  /** Such a snapshot whose stored checksum is not that of its other bytes. */
  predicate Unsound(x: Piece) {
    && Snapshot(x).Some? && |x.payload| >= 36
    && Checksum(x.payload[..32] + x.payload[36..]) != Get32(x.payload, 32)
  }

  function Unsounds(xs: seq<Piece>): nat {
    if xs == [] then 0 else (if Unsound(xs[0]) then 1 else 0) + Unsounds(xs[1..])
  }

  function PushOf(x: Piece): seq<Push> {
    if Snapshot(x).Some? then [Push(x.hdr.seqNo, Snapshot(x).value)] else []
  }

  function Snapshots(xs: seq<Piece>): seq<Push> {
    if xs == [] then [] else PushOf(xs[0]) + Snapshots(xs[1..])
  }

  // ---- Reading one piece ----

  lemma BrokenBody(s: seq<Byte>, i: nat, h: FrameHdr)
    requires i + 20 <= |s| && (h.version != 1 || h.kind > 4 || h.len > 65536)
    ensures ReadBody(s, i, h) == Bad(i, i + 20)
  {
  }

  lemma LaidStarts(x: Piece, rest: seq<Byte>)
    ensures (PutHdr(x.hdr) + x.payload + rest)[..4] == MAGIC
  {
    assert PutHdr(x.hdr)[..4] == MAGIC;
  }

  /** A whole frame is delivered with its fields, its checksum verdict and its garbage counted; a broken header is
      an error that consumes the garbage and twenty bytes. */
  lemma PieceRead(x: Piece, rest: seq<Byte>)
    requires Recorded(x)
    ensures ReadFrame(Laid(x) + rest)
         == if Whole(x)
            then Got(Frame(x.hdr, x.payload, Sound(x.hdr, x.payload)), |x.garbage|, |x.garbage| + 20 + |x.payload|)
            else Bad(|x.garbage|, |x.garbage| + 20)
  {
    var f := PutHdr(x.hdr) + x.payload + rest;
    LaidStarts(x, rest);
    NoStraddle(x.garbage, f);
    assert Laid(x) + rest == x.garbage + f;
    assert x.garbage + f == x.garbage + PutHdr(x.hdr) + (x.payload + rest);
    PieceReadAt(x, rest);
  }

  lemma PieceReadAt(x: Piece, rest: seq<Byte>)
    requires Recorded(x)
    ensures ReadAt(x.garbage + PutHdr(x.hdr) + (x.payload + rest), |x.garbage|)
         == if Whole(x)
            then Got(Frame(x.hdr, x.payload, Sound(x.hdr, x.payload)), |x.garbage|, |x.garbage| + 20 + |x.payload|)
            else Bad(|x.garbage|, |x.garbage| + 20)
  {
    if Whole(x) {
      ReadsBack(x.hdr, x.payload, x.garbage, rest);
    } else {
      HdrRead(x.hdr, x.garbage, x.payload + rest);
      BrokenBody(x.garbage + PutHdr(x.hdr) + (x.payload + rest), |x.garbage|, x.hdr);
    }
  }

  // ---- Playing one piece ----

  /** What one piece adds to a tally. */
  function Added(t: Tally, x: Piece): Tally {
    Tally(t.frames + (if Whole(x) then 1 else 0),
          t.resyncs + (if Whole(x) && x.garbage != [] then 1 else 0),
          t.crcFails + (if Unsound(x) then 1 else 0),
          t.pushed + PushOf(x))
  }

  lemma FailsIff(o: Taken, x: Piece)
    requires Whole(x) && |x.payload| <= 65536 && o.frame.hdr == x.hdr && o.frame.payload == x.payload
    ensures SnapshotIn(o) == Snapshot(x)
    ensures Fails(o) == if Unsound(x) then 1 else 0
  {
    if Snapshot(x).Some? {
      ParsedHeader(x.payload);
      assert Covered(x.payload) == x.payload[..32] + x.payload[36..];
    }
  }

  lemma ParsedHeader(p: seq<Byte>)
    requires |p| < TWO_32 && Parse(p).Some?
    ensures |p| >= 36 && Parse(p).value.hdr.crc == Get32(p, 32)
  {
  }

  lemma TakenAdds(t: Tally, o: Taken, x: Piece)
    requires Whole(x) && |x.payload| <= 65536 && o.frame.hdr == x.hdr && o.frame.payload == x.payload
    requires o.resync == |x.garbage|
    ensures Take(t, o) == Added(t, x)
  {
    FailsIff(o, x);
  }

  lemma WholePlayed(t: Tally, x: Piece, s: seq<Byte>, o: Taken, rest: seq<Byte>)
    requires Whole(x) && |x.payload| <= 65536 && o == ReadFrame(s) && o.resync == |x.garbage|
    requires o.frame.hdr == x.hdr && o.frame.payload == x.payload && s[o.used..] == rest
    ensures TakeAll(t, Played(s)) == TakeAll(Added(t, x), if Ends(x) then [] else Played(rest))
  {
    PlayedGot(t, s, o);
    TakenAdds(t, o, x);
  }

  lemma BrokenPlayed(t: Tally, x: Piece, s: seq<Byte>, o: Outcome, rest: seq<Byte>)
    requires !Whole(x) && o == ReadFrame(s) && o.Bad? && s[o.used..] == rest
    ensures TakeAll(t, Played(s)) == TakeAll(Added(t, x), Played(rest))
  {
    PlayedBad(s, o);
    BrokenAdds(t, x);
  }

  lemma BrokenAdds(t: Tally, x: Piece)
    requires !Whole(x)
    ensures Added(t, x) == t
  {
    assert t.pushed + [] == t.pushed;
  }

  lemma AfterPiece(x: Piece, rest: seq<Byte>)
    ensures (Laid(x) + rest)[|x.garbage| + 20 + |x.payload|..] == rest
  {
  }

  lemma PiecePlayed(t: Tally, x: Piece, rest: seq<Byte>)
    requires Recorded(x)
    ensures TakeAll(t, Played(Laid(x) + rest))
         == TakeAll(Added(t, x), if Ends(x) then [] else Played(rest))
  {
    PieceRead(x, rest);
    AfterPiece(x, rest);
    if Whole(x) {
      WholePlayed(t, x, Laid(x) + rest, ReadFrame(Laid(x) + rest), rest);
    } else {
      BrokenPlayed(t, x, Laid(x) + rest, ReadFrame(Laid(x) + rest), rest);
    }
  }

  // ---- Playing a recording ----

  /** The tally after a recording. */
  function Tallied(t: Tally, xs: seq<Piece>): Tally {
    Tally(t.frames + Wholes(xs), t.resyncs + Resyncs(xs), t.crcFails + Unsounds(xs), t.pushed + Snapshots(xs))
  }

  lemma AddedAll(t: Tally, xs: seq<Piece>)
    requires xs != []
    ensures Tallied(Added(t, xs[0]), xs[1..]) == Tallied(t, xs)
  {
    Regrouped(t.pushed, PushOf(xs[0]), Snapshots(xs[1..]));
    CountsAdd(xs);
  }

  lemma Regrouped(a: seq<Push>, b: seq<Push>, c: seq<Push>)
    ensures (a + b) + c == a + (b + c)
  {
  }

  lemma CountsAdd(xs: seq<Piece>)
    requires xs != []
    ensures Wholes(xs) == (if Whole(xs[0]) then 1 else 0) + Wholes(xs[1..])
    ensures Resyncs(xs) == (if Whole(xs[0]) && xs[0].garbage != [] then 1 else 0) + Resyncs(xs[1..])
    ensures Unsounds(xs) == (if Unsound(xs[0]) then 1 else 0) + Unsounds(xs[1..])
    ensures Snapshots(xs) == PushOf(xs[0]) + Snapshots(xs[1..])
  {
  }

  lemma TailPlayed(t: Tally, tail: seq<Byte>)
    requires MagicFree(tail)
    ensures TakeAll(t, Played(tail)) == t
  {
    assert FirstMagic(tail, 0).None?;
    PlayedBad(tail, ReadFrame(tail));
  }

  /** The exact tally of a recording, up to its END frame if it has one: each frame counted, whatever its type;
      each frame behind garbage a resynchronisation; each parsing snapshot pushed under its frame's number, sound
      or not; each of these whose checksum is wrong a failure. Broken headers only cost their bytes. */
  lemma {:induction false} RecordingTallied(xs: seq<Piece>, tail: seq<Byte>, t: Tally)
    requires forall i :: 0 <= i < |xs| ==> Recorded(xs[i]) && (i < |xs| - 1 ==> !Ends(xs[i]))
    requires xs == [] || !Ends(xs[|xs| - 1]) ==> MagicFree(tail)
    ensures TakeAll(t, Played(LaidAll(xs) + tail)) == Tallied(t, xs)
    decreases |xs|
  {
    if xs == [] {
      assert LaidAll(xs) + tail == tail;
      TailPlayed(t, tail);
    } else {
      FirstPlayed(xs, tail, t);
      AddedAll(t, xs);
      if !Ends(xs[0]) {
        RecordingTallied(xs[1..], tail, Added(t, xs[0]));
      }
    }
  }

  lemma FirstPlayed(xs: seq<Piece>, tail: seq<Byte>, t: Tally)
    requires xs != [] && Recorded(xs[0])
    ensures TakeAll(t, Played(LaidAll(xs) + tail))
         == if Ends(xs[0]) then Added(t, xs[0])
            else TakeAll(Added(t, xs[0]), Played(LaidAll(xs[1..]) + tail))
  {
    assert LaidAll(xs) + tail == Laid(xs[0]) + (LaidAll(xs[1..]) + tail);
    PiecePlayed(t, xs[0], LaidAll(xs[1..]) + tail);
  }
}

/** Reading frames off an arbitrary byte stream. */
module FrameReader {
  import opened Words
  import opened Options
  import opened Crc32
  import opened Frames

  // ---- Searching for the magic ----

  predicate MagicAt(s: seq<Byte>, i: nat) {
    i + 4 <= |s| && s[i..i + 4] == MAGIC
  }

  ghost predicate MagicFree(s: seq<Byte>) {
    forall i: nat :: !MagicAt(s, i)
  }

  function FirstMagic(s: seq<Byte>, from: nat): (r: Option<nat>)
    requires from <= |s|
    ensures r.Some? ==> from <= r.value && MagicAt(s, r.value) && forall j: nat :: from <= j < r.value ==> !MagicAt(s, j)
    ensures r.None? ==> forall j: nat :: from <= j ==> !MagicAt(s, j)
    decreases |s| - from
  {
    if |s| - from < 4 then None
    else if MagicAt(s, from) then Some(from)
    else FirstMagic(s, from + 1)
  }

  lemma FirstMagicIs(s: seq<Byte>, i: nat)
    requires MagicAt(s, i) && forall j: nat :: j < i ==> !MagicAt(s, j)
    ensures FirstMagic(s, 0) == Some(i)
  {
  }

  // ---- One read ----

  /** The reader's answer; on Eof everything has been consumed, otherwise `used` bytes. */
  datatype Outcome =
    | Eof(resync: nat)
    | Bad(resync: nat, used: nat)
    | Got(frame: Frame, resync: nat, used: nat)

  predicate Acceptable(h: FrameHdr) {
    h.version == 1 && h.kind <= 4 && h.len <= RX_MAX_PAYLOAD
  }

  /** The stored checksum is that of the header and payload. */
  predicate Sound(h: FrameHdr, payload: seq<Byte>) {
    FrameChecksum(h, payload) == h.crc
  }

  /** What follows a header h read at i. */
  function ReadBody(s: seq<Byte>, i: nat, h: FrameHdr): (o: Outcome)
    requires i + 20 <= |s|
    ensures o.resync == i
    ensures o.Bad? ==> o.used == i + 20
    ensures o.Got? ==> o.used == i + 20 + h.len <= |s| && o.frame.hdr == h
    ensures o.Got? ==> o.frame.payload == s[i + 20..i + 20 + h.len]
    ensures o.Got? ==> |o.frame.payload| <= RX_MAX_PAYLOAD
  {
    if !Acceptable(h) then Bad(i, i + 20)
    else if |s| < i + 20 + h.len then Eof(i)
    else
      var payload := s[i + 20..i + 20 + h.len];
      Got(Frame(h, payload, Sound(h, payload)), i, i + 20 + h.len)
  }

  /** The frame whose magic stands at i. */
  function ReadAt(s: seq<Byte>, i: nat): (o: Outcome)
    ensures o.resync == i
    ensures !o.Eof? ==> i + 20 <= o.used <= |s|
    ensures o.Got? ==> |o.frame.payload| <= RX_MAX_PAYLOAD
  {
    if |s| < i + 20 then Eof(i) else ReadBody(s, i, GetHdr(s, i))
  }

  function ReadFrame(s: seq<Byte>): (o: Outcome)
    ensures !o.Eof? ==> o.resync + 20 <= o.used <= |s|
    ensures o.Got? ==> |o.frame.payload| <= RX_MAX_PAYLOAD
  {
    match FirstMagic(s, 0)
    case None => Eof(0)
    case Some(i) => ReadAt(s, i)
  }

  class ByteSource {
    const data: seq<Byte>
    var pos: nat

    ghost predicate Valid()
      reads this
    {
      pos <= |data|
    }

    constructor (data: seq<Byte>)
      ensures Valid() && this.data == data && pos == 0
    {
      this.data, pos := data, 0;
    }

    method ReadByte() returns (b: int)
      requires Valid()
      modifies this
      ensures Valid()
      ensures if old(pos) < |data| then b == data[old(pos)] && pos == old(pos) + 1 else b == -1 && pos == old(pos)
    {
      if pos < |data| {
        b := data[pos];
        pos := pos + 1;
      } else {
        b := -1;
      }
    }
  }

  /** The four bytes before position k, zeros before the start. */
  ghost predicate WindowAt(window: seq<Byte>, s: seq<Byte>, k: nat) {
    |window| == 4 && k <= |s|
    && forall m :: 0 <= m < 4 ==> window[m] == if k + m >= 4 then s[k + m - 4] else 0
  }

  lemma WindowShows(window: seq<Byte>, s: seq<Byte>, k: nat)
    requires WindowAt(window, s, k)
    ensures window == MAGIC <==> k >= 4 && MagicAt(s, k - 4)
  {
    if k >= 4 {
      assert s[k - 4..k] == window;
    } else {
      assert window[0] == 0 && MAGIC[0] == 0x4D;
    }
  }

  /** Takes in one byte; tells whether the window now shows the magic. */
  method Slide(window: array<Byte>, b: Byte, ghost s: seq<Byte>, ghost k: nat) returns (hit: bool)
    requires WindowAt(window[..], s, k) && k < |s| && b == s[k]
    modifies window
    ensures WindowAt(window[..], s, k + 1)
    ensures hit <==> k >= 3 && MagicAt(s, k - 3)
  {
    window[0], window[1], window[2] := window[1], window[2], window[3];
    window[3] := b;
    WindowShows(window[..], s, k + 1);
    hit := window[0] == 0x4D && window[1] == 0x54 && window[2] == 0x56 && window[3] == 0x31;
    assert hit <==> window[..] == MAGIC;
  }

  /** Scans for the first magic; `skipped` counts the bytes before it. */
  method FindMagic(src: ByteSource) returns (found: bool, skipped: nat)
    requires src.Valid()
    modifies src
    ensures src.Valid()
    ensures FirstMagic(src.data[old(src.pos)..], 0) == if found then Some(skipped) else None
    ensures src.pos == if found then old(src.pos) + skipped + 4 else |src.data|
  {
    ghost var start := src.pos;
    ghost var s := src.data[start..];
    var window := new Byte[4](_ => 0);
    var before := 0;
    while true
      invariant src.Valid() && src.pos == start + before
      invariant WindowAt(window[..], s, before)
      invariant forall j: nat :: j + 4 <= before ==> !MagicAt(s, j)
      decreases |src.data| - src.pos
    {
      var b := src.ReadByte();
      if b < 0 {
        return false, 0;
      }
      var hit := Slide(window, b, s, before);
      if hit {
        FirstMagicIs(s, before - 3);
        return true, if before > 3 then before - 3 else 0;
      }
      before := before + 1;
    }
  }

  /** Fills buf[at..at + n] from the source, unless it ends first. */
  method ReadBlock(src: ByteSource, buf: array<Byte>, at: nat, n: nat) returns (ok: bool)
    requires src.Valid() && at + n <= buf.Length
    modifies src, buf
    ensures src.Valid()
    ensures ok <==> old(src.pos) + n <= |src.data|
    ensures ok ==> src.pos == old(src.pos) + n
    ensures ok ==> buf[..at + n] == old(buf[..at]) + src.data[old(src.pos)..old(src.pos) + n]
    ensures !ok ==> src.pos == |src.data|
  {
    for i := 0 to n
      invariant src.Valid() && src.pos == old(src.pos) + i
      invariant buf[..at + i] == old(buf[..at]) + src.data[old(src.pos)..old(src.pos) + i]
    {
      var b := src.ReadByte();
      if b < 0 {
        return false;
      }
      buf[at + i] := b;
      assert buf[..at + i + 1] == buf[..at + i] + [buf[at + i]];
    }
    ok := true;
  }

  lemma HdrAt(s: seq<Byte>, i: nat, b: seq<Byte>)
    requires |b| == 20 && i + 20 <= |s| && b == s[i..i + 20]
    ensures GetHdr(b, 0) == GetHdr(s, i)
  {
    assert forall k :: 0 <= k < 20 ==> b[k] == s[i + k];
  }

  method VerifyFrame(h: FrameHdr, payload: seq<Byte>) returns (ok: bool)
    ensures ok <==> Sound(h, payload)
  {
    var copy := new Byte[20](_ => 0);
    WriteHdr(copy, h.(crc := 0));
    assert copy[..] == copy[..20];
    var crc := Update(copy[..], SEED);
    crc := Update(payload, crc);
    Chaining(SEED, copy[..], payload);
    XorWidth(crc, SEED);
    crc := Xor(crc, SEED);
    ok := crc == h.crc;
  }

  /** Reads the 16 header bytes that follow a magic just consumed. */
  method ReadHdr(src: ByteSource, ghost start: nat, ghost i: nat) returns (ok: bool, h: FrameHdr)
    requires src.Valid() && start + i + 4 == src.pos && MagicAt(src.data[start..], i)
    modifies src
    ensures src.Valid()
    ensures ok <==> i + 20 <= |src.data[start..]|
    ensures ok ==> src.pos == start + i + 20 && h == GetHdr(src.data[start..], i)
    ensures !ok ==> src.pos == |src.data|
  {
    var buf := new Byte[20](k requires 0 <= k < 20 => if k < 4 then MAGIC[k] else 0);
    assert buf[..4] == MAGIC;
    ok := ReadBlock(src, buf, 4, 16);
    h := GetHdr(buf[..], 0);
    if ok {
      MagicThen(src.data[start..], i, src.data[start + i + 4..start + i + 20]);
      assert buf[..] == buf[..20] == MAGIC + src.data[start + i + 4..start + i + 20];
      HdrAt(src.data[start..], i, buf[..]);
    }
  }

  lemma MagicThen(s: seq<Byte>, i: nat, more: seq<Byte>)
    requires MagicAt(s, i) && i + 20 <= |s| && more == s[i + 4..i + 20]
    ensures MAGIC + more == s[i..i + 20]
  {
    assert s[i..i + 20] == s[i..i + 4] + s[i + 4..i + 20];
  }

  method ReadPayload(src: ByteSource, len: nat) returns (ok: bool, payload: array<Byte>)
    requires src.Valid()
    modifies src
    ensures src.Valid()
    ensures ok <==> old(src.pos) + len <= |src.data|
    ensures ok ==> src.pos == old(src.pos) + len && payload[..] == src.data[old(src.pos)..src.pos]
    ensures !ok ==> src.pos == |src.data|
  {
    payload := new Byte[len](_ => 0);
    ok := ReadBlock(src, payload, 0, len);
    assert payload[..] == payload[..len];
  }

  method ReadChecked(src: ByteSource, ghost start: nat, i: nat, h: FrameHdr) returns (o: Outcome)
    requires src.Valid() && start + i + 20 == src.pos
    modifies src
    ensures src.Valid() && o == ReadBody(src.data[start..], i, h)
    ensures src.pos == if o.Eof? then |src.data| else start + o.used
  {
    if h.version != 1 || h.kind > 4 || h.len > RX_MAX_PAYLOAD {
      return Bad(i, i + 20);
    }
    var more, payload := ReadPayload(src, h.len);
    if !more {
      return Eof(i);
    }
    assert payload[..] == src.data[start..][i + 20..i + 20 + h.len];
    var crcOk := VerifyFrame(h, payload[..]);
    o := Got(Frame(h, payload[..], crcOk), i, i + 20 + h.len);
  }

  /** Everything after the magic. */
  method ReadRest(src: ByteSource, ghost start: nat, i: nat) returns (o: Outcome)
    requires src.Valid() && start + i + 4 == src.pos && MagicAt(src.data[start..], i)
    modifies src
    ensures src.Valid() && o == ReadAt(src.data[start..], i)
    ensures src.pos == if o.Eof? then |src.data| else start + o.used
  {
    var ok, h := ReadHdr(src, start, i);
    if ok {
      o := ReadChecked(src, start, i, h);
    } else {
      o := Eof(i);
    }
  }

  method FrameRead(src: ByteSource) returns (o: Outcome)
    requires src.Valid()
    modifies src
    ensures src.Valid() && o == ReadFrame(src.data[old(src.pos)..])
    ensures src.pos == if o.Eof? then |src.data| else old(src.pos) + o.used
  {
    ghost var start := src.pos;
    var found, resync := FindMagic(src);
    if found {
      o := ReadRest(src, start, resync);
    } else {
      o := Eof(0);
    }
  }

  // ---- Conservation: what was read is what was there ----

  lemma HdrWritten(s: seq<Byte>, i: nat)
    requires MagicAt(s, i) && i + 20 <= |s|
    ensures PutHdr(GetHdr(s, i)) == s[i..i + 20]
    ensures PutHdr(GetHdr(s, i).(crc := 0)) == s[i..i + 16] + [0, 0, 0, 0]
  {
    var h := GetHdr(s, i);
    Written16(s, i + 6);
    Written32(s, i + 8);
    Written32(s, i + 12);
    Written32(s, i + 16);
    assert PutWords([h.seqNo, h.len]) == Put32(h.seqNo) + Put32(h.len);
    assert s[i..i + 16]
        == s[i..i + 4] + ([s[i + 4], s[i + 5]] + s[i + 6..i + 8]) + (s[i + 8..i + 12] + s[i + 12..i + 16]);
    assert s[i..i + 20] == s[i..i + 16] + s[i + 16..i + 20];
    assert Put32(0) == [0, 0, 0, 0];
  }

  lemma CheckedBytes(s: seq<Byte>, i: nat, h: FrameHdr, payload: seq<Byte>)
    requires MagicAt(s, i) && i + 20 <= |s| && h == GetHdr(s, i)
    ensures FrameChecksum(h, payload) == Checksum(s[i..i + 16] + [0, 0, 0, 0] + payload)
  {
    HdrWritten(s, i);
  }

  lemma BodyConserved(s: seq<Byte>, i: nat)
    requires MagicAt(s, i) && ReadAt(s, i).Got?
    ensures var o := ReadAt(s, i);
            && PutHdr(o.frame.hdr) + o.frame.payload == s[i..o.used]
            && o.used == i + 20 + |o.frame.payload|
            && (o.frame.crcOk <==> FrameChecksum(GetHdr(s, i), s[i + 20..o.used]) == Get32(s, i + 16))
  {
    var o := ReadAt(s, i);
    HdrWritten(s, i);
    assert s[i..o.used] == s[i..i + 20] + s[i + 20..o.used];
  }

  lemma BodyVerdict(s: seq<Byte>, i: nat, h: FrameHdr)
    requires i + 20 <= |s|
    ensures var o := ReadBody(s, i, h);
            && (o.Bad? <==> h.version != 1 || h.kind > 4 || h.len > 65536)
            && (o.Eof? <==> !o.Bad? && |s| < i + 20 + h.len)
  {
  }

  /** The fields of a frame, where they belong on the wire. */
  ghost predicate FieldsAt(s: seq<Byte>, i: nat, o: Outcome)
    requires i + 20 <= |s| && o.Got?
  {
    && o.used == i + 20 + Get32(s, i + 12) <= |s| && o.frame.payload == s[i + 20..o.used]
    && o.frame.hdr.version == s[i + 4] && o.frame.hdr.kind == s[i + 5] && o.frame.hdr.flags == Get16(s, i + 6)
    && o.frame.hdr.seqNo == Get32(s, i + 8)
  }

  lemma FieldsRead(s: seq<Byte>, i: nat)
    requires i + 20 <= |s| && ReadBody(s, i, GetHdr(s, i)).Got?
    ensures FieldsAt(s, i, ReadBody(s, i, GetHdr(s, i)))
  {
    var o := ReadBody(s, i, GetHdr(s, i));
    assert o.frame.hdr == GetHdr(s, i);
  }

  /** The reader's answer from the wire bytes, when the first magic of s stands at i and its header is complete:
      an error exactly for a version other than 1, a type above 4 or a payload above 65536 bytes; the end exactly
      when the payload of an acceptable frame is cut off; and otherwise a frame with its fields where they belong. */
  lemma ReadVerdict(s: seq<Byte>, i: nat)
    requires FirstMagic(s, 0) == Some(i) && i + 20 <= |s|
    ensures var o := ReadFrame(s);
            && o.resync == i
            && (o.Bad? <==> s[i + 4] != 1 || s[i + 5] > 4 || Get32(s, i + 12) > 65536)
            && (o.Eof? <==> !o.Bad? && |s| < i + 20 + Get32(s, i + 12))
            && (o.Bad? ==> o.used == i + 20)
            && (o.Got? ==> FieldsAt(s, i, o))
  {
    BodyVerdict(s, i, GetHdr(s, i));
    if ReadBody(s, i, GetHdr(s, i)).Got? {
      FieldsRead(s, i);
    }
  }

  /** Without a magic, or with its header cut off, the reader meets the end. */
  lemma CutIsEnd(s: seq<Byte>)
    ensures FirstMagic(s, 0).None? ==> ReadFrame(s) == Eof(0)
    ensures FirstMagic(s, 0).Some? && |s| < FirstMagic(s, 0).value + 20 ==> ReadFrame(s) == Eof(FirstMagic(s, 0).value)
    ensures FirstMagic(s, 0).Some? ==>
              var i := FirstMagic(s, 0).value; i + 4 <= |s| && s[i..i + 4] == [0x4D, 0x54, 0x56, 0x31]
  {
  }

  /** An accepted frame re-serialises to its wire bytes, starts at the first magic, and is marked sound
      exactly when its stored checksum is that of the wire bytes with the checksum field zeroed. */
  lemma FrameConserved(s: seq<Byte>)
    requires ReadFrame(s).Got?
    ensures var o := ReadFrame(s); var i := o.resync;
            && o.used == i + 20 + |o.frame.payload| <= |s|
            && PutHdr(o.frame.hdr) + o.frame.payload == s[i..o.used]
            && MagicAt(s, i) && (forall j: nat :: j < i ==> !MagicAt(s, j))
            && (o.frame.crcOk <==> Get32(s, i + 16) == Checksum(s[i..i + 16] + [0, 0, 0, 0] + s[i + 20..o.used]))
  {
    var i := FirstMagic(s, 0).value;
    BodyConserved(s, i);
    CheckedBytes(s, i, GetHdr(s, i), s[i + 20..ReadAt(s, i).used]);
  }

  /** Each read that does not meet the end consumes exactly what it reports, and at least a header. */
  lemma ConsumesExactly(s: seq<Byte>)
    ensures var o := ReadFrame(s);
            && (o.Bad? ==> o.used == o.resync + 20 <= |s|)
            && (o.Got? ==> o.used == o.resync + 20 + o.frame.hdr.len <= |s| && o.frame.hdr.len <= RX_MAX_PAYLOAD)
            && (o.Eof? && FirstMagic(s, 0).Some? ==> o.resync == FirstMagic(s, 0).value)
  {
  }

  /** The wire bytes a frame's checksum is of: the frame from i up to j with the checksum field zeroed. */
  function Image(s: seq<Byte>, i: nat, j: nat): seq<Byte>
    requires i + 20 <= j <= |s|
  {
    s[i..i + 16] + [0, 0, 0, 0] + s[i + 20..j]
  }

  /** t has s's bytes up to and including the magic at i, and its length field. */
  predicate SameUpToLength(s: seq<Byte>, t: seq<Byte>, i: nat) {
    i + 20 <= |s| == |t| && s[..i + 4] == t[..i + 4] && s[i + 12..i + 16] == t[i + 12..i + 16]
  }

  lemma SameMagicAt(s: seq<Byte>, t: seq<Byte>, m: nat, j: nat)
    requires j + 4 <= m <= |s| == |t| && s[..m] == t[..m]
    ensures MagicAt(s, j) <==> MagicAt(t, j)
  {
    assert s[..m][j..j + 4] == s[j..j + 4];
    assert t[..m][j..j + 4] == t[j..j + 4];
  }

  lemma SameMagic(s: seq<Byte>, t: seq<Byte>, i: nat)
    requires FirstMagic(s, 0) == Some(i) && i + 4 <= |s| == |t| && s[..i + 4] == t[..i + 4]
    ensures FirstMagic(t, 0) == Some(i)
  {
    SameMagicAt(s, t, i + 4, i);
    forall j: nat | j < i
      ensures !MagicAt(t, j)
    {
      SameMagicAt(s, t, i + 4, j);
    }
    FirstMagicIs(t, i);
  }

  lemma SameField(s: seq<Byte>, t: seq<Byte>, k: nat)
    requires k + 4 <= |s| == |t| && s[k..k + 4] == t[k..k + 4]
    ensures Get32(s, k) == Get32(t, k)
  {
    var a, b := s[k..k + 4], t[k..k + 4];
    assert a[0] == s[k] && a[1] == s[k + 1] && a[2] == s[k + 2] && a[3] == s[k + 3];
    assert b[0] == t[k] && b[1] == t[k + 1] && b[2] == t[k + 2] && b[3] == t[k + 3];
  }

  /** A frame read at i passes exactly when its stored checksum is that of its image. */
  lemma ReadAtSound(s: seq<Byte>, i: nat)
    requires MagicAt(s, i) && ReadAt(s, i).Got?
    ensures var o := ReadAt(s, i);
            && o.used == i + 20 + Get32(s, i + 12) <= |s|
            && (o.frame.crcOk <==> Checksum(Image(s, i, o.used)) == Get32(s, i + 16))
  {
    var o := ReadAt(s, i);
    BodyConserved(s, i);
    CheckedBytes(s, i, GetHdr(s, i), s[i + 20..o.used]);
  }

  lemma CorruptedAt(s: seq<Byte>, t: seq<Byte>, i: nat, at: nat, n: nat)
    requires MagicAt(s, i) && MagicAt(t, i) && SameUpToLength(s, t, i)
    requires ReadAt(s, i).Got? && ReadAt(s, i).frame.crcOk && s[i + 16..i + 20] == t[i + 16..i + 20] && n <= 32
    requires var j := ReadAt(s, i).used; var x, y := Image(s, i, j), Image(t, i, j);
             x != y && DifferInWindow(Bits(x), Bits(y), at, n)
    ensures var o := ReadAt(t, i); o.Bad? || (o.Got? && !o.frame.crcOk && o.used == ReadAt(s, i).used)
  {
    var j := ReadAt(s, i).used;
    SameField(s, t, i + 12);
    SameField(s, t, i + 16);
    ReadAtSound(s, i);
    BurstDetected(Image(s, i, j), Image(t, i, j), at, n);
    if ReadAt(t, i).Got? {
      ReadAtSound(t, i);
    }
  }

  /** On the wire: if a sound frame's bytes are corrupted within 32 consecutive bits, magic, length and checksum
      fields aside, the reader still locks on to it and reports a bad header or a failed checksum, and goes on
      right behind the frame in the latter case. */
  lemma FrameCorruptionCaught(s: seq<Byte>, t: seq<Byte>, at: nat, n: nat)
    requires ReadFrame(s).Got? && ReadFrame(s).frame.crcOk && n <= 32
    requires var i := ReadFrame(s).resync; SameUpToLength(s, t, i) && s[i + 16..i + 20] == t[i + 16..i + 20]
    requires var o := ReadFrame(s); var x, y := Image(s, o.resync, o.used), Image(t, o.resync, o.used);
             x != y && DifferInWindow(Bits(x), Bits(y), at, n)
    ensures var o, o' := ReadFrame(s), ReadFrame(t);
            o'.resync == o.resync && (o'.Bad? || (o'.Got? && !o'.frame.crcOk && o'.used == o.used))
  {
    var i := ReadFrame(s).resync;
    SameMagic(s, t, i);
    CorruptedAt(s, t, i, at, n);
  }

  // ---- Streams of frames ----

  /** Everything the reader returns before the end of the stream. */
  function Outcomes(s: seq<Byte>): seq<Outcome>
    decreases |s|
  {
    var o := ReadFrame(s);
    if o.Eof? then [] else [o] + Outcomes(s[o.used..])
  }

  type Payload = p: seq<Byte> | |p| <= RX_MAX_PAYLOAD

  /** A frame on the wire behind a run of garbage. */
  datatype Item = Item(garbage: seq<Byte>, kind: Byte, seqNo: U32, payload: Payload)

  ghost predicate Clean(it: Item) {
    it.kind <= 4 && MagicFree(it.garbage)
  }

  function WireOf(it: Item): seq<Byte> {
    it.garbage + FrameBytes(it.kind, it.seqNo, it.payload)
  }

  function Wire(items: seq<Item>): seq<Byte> {
    if items == [] then [] else WireOf(items[0]) + Wire(items[1..])
  }

  function Delivered(it: Item): Outcome {
    Got(Frame(SentHdr(it.kind, it.seqNo, it.payload), it.payload, true),
        |it.garbage|, |it.garbage| + 20 + |it.payload|)
  }

  lemma HdrRead(h: FrameHdr, pre: seq<Byte>, post: seq<Byte>)
    ensures GetHdr(pre + PutHdr(h) + post, |pre|) == h
    ensures MagicAt(pre + PutHdr(h) + post, |pre|)
  {
    var s := pre + PutHdr(h) + post;
    var b := PutHdr(h);
    assert forall k :: 0 <= k < 20 ==> s[|pre| + k] == b[k];
    var lead, words, crc := MAGIC + ([h.version, h.kind] + Put16(h.flags)), PutWords([h.seqNo, h.len]), Put32(h.crc);
    assert b == lead + words + crc;
    Read16(h.flags);
    WordAt([h.seqNo, h.len], 0, lead, crc);
    WordAt([h.seqNo, h.len], 1, lead, crc);
    Read32(h.crc);
    Get32Of(lead + words, crc, []);
    assert b == (lead + words) + crc + [];
    HdrAt(s, |pre|, b);
    assert s[|pre|..|pre| + 4] == b[..4];
  }

  /** "MTV1" overlaps no shift of itself, so garbage without it creates none in front of a frame. */
  lemma NoStraddle(g: seq<Byte>, rest: seq<Byte>)
    requires MagicFree(g) && |rest| >= 4 && rest[..4] == MAGIC
    ensures FirstMagic(g + rest, 0) == Some(|g|)
  {
    var s := g + rest;
    assert s[|g|..|g| + 4] == rest[..4];
    forall j: nat | j < |g|
      ensures !MagicAt(s, j)
    {
      assert !MagicAt(g, j);
      if j + 4 <= |g| {
        assert s[j..j + 4] == g[j..j + 4];
      } else {
        assert s[j..j + 4][|g| - j] == rest[0] == 0x4D;
        assert MAGIC[|g| - j] != 0x4D;
      }
    }
    FirstMagicIs(s, |g|);
  }

  lemma BodyReadsBack(s: seq<Byte>, i: nat, h: FrameHdr, payload: seq<Byte>)
    requires Acceptable(h) && h.len == |payload| && i + 20 + |payload| <= |s|
    requires s[i + 20..i + 20 + |payload|] == payload
    ensures ReadBody(s, i, h) == Got(Frame(h, payload, Sound(h, payload)), i, i + 20 + |payload|)
  {
    var q := s[i + 20..i + 20 + h.len];
    assert q == payload;
  }

  /** Any acceptable header and payload laid out at |pre| read back as themselves. */
  lemma ReadsBack(h: FrameHdr, payload: seq<Byte>, pre: seq<Byte>, rest: seq<Byte>)
    requires Acceptable(h) && h.len == |payload|
    ensures ReadAt(pre + PutHdr(h) + (payload + rest), |pre|)
         == Got(Frame(h, payload, Sound(h, payload)), |pre|, |pre| + 20 + |payload|)
  {
    var s := pre + PutHdr(h) + (payload + rest);
    HdrRead(h, pre, payload + rest);
    assert s[|pre| + 20..|pre| + 20 + |payload|] == payload;
    BodyReadsBack(s, |pre|, h, payload);
  }

  lemma LaidOut(pre: seq<Byte>, hdr: seq<Byte>, payload: seq<Byte>, rest: seq<Byte>)
    ensures pre + (hdr + payload) + rest == pre + hdr + (payload + rest)
  {
  }

  lemma ReadsSent(it: Item, pre: seq<Byte>, rest: seq<Byte>)
    requires it.kind <= 4 && |pre| == |it.garbage|
    ensures ReadAt(pre + FrameBytes(it.kind, it.seqNo, it.payload) + rest, |pre|) == Delivered(it)
  {
    var h := SentHdr(it.kind, it.seqNo, it.payload);
    LaidOut(pre, PutHdr(h), it.payload, rest);
    ReadsBack(h, it.payload, pre, rest);
    SentIsSound(it.kind, it.seqNo, it.payload);
  }

  lemma SentIsSound(kind: Byte, seqNo: U32, payload: Payload)
    ensures Sound(SentHdr(kind, seqNo, payload), payload)
  {
  }

  lemma FrameStarts(it: Item)
    ensures FrameBytes(it.kind, it.seqNo, it.payload)[..4] == MAGIC
  {
  }

  lemma DeliversFirst(it: Item, rest: seq<Byte>)
    requires Clean(it)
    ensures ReadFrame(WireOf(it) + rest) == Delivered(it)
  {
    var f := FrameBytes(it.kind, it.seqNo, it.payload);
    FrameStarts(it);
    assert (f + rest)[..4] == MAGIC;
    NoStraddle(it.garbage, f + rest);
    assert WireOf(it) + rest == it.garbage + (f + rest);
    ReadsSent(it, it.garbage, rest);
  }

  lemma DeliveredThen(it: Item, rest: seq<Byte>)
    requires Clean(it)
    ensures Outcomes(WireOf(it) + rest) == [Delivered(it)] + Outcomes(rest)
  {
    DeliversFirst(it, rest);
    assert (WireOf(it) + rest)[Delivered(it).used..] == rest;
  }

  function AllDelivered(items: seq<Item>): (os: seq<Outcome>)
    ensures |os| == |items| && forall i :: 0 <= i < |os| ==> os[i] == Delivered(items[i])
  {
    if items == [] then [] else [Delivered(items[0])] + AllDelivered(items[1..])
  }

  /** The reader returns exactly the frames sent, in order, sound, with each run of garbage counted;
      payloads may contain the magic. */
  lemma {:induction false} StreamRoundTrip(items: seq<Item>, tail: seq<Byte>)
    requires MagicFree(tail) && forall i :: 0 <= i < |items| ==> Clean(items[i])
    ensures Outcomes(Wire(items) + tail) == AllDelivered(items)
    decreases |items|
  {
    if items == [] {
      assert Wire(items) + tail == tail;
      assert FirstMagic(tail, 0).None?;
    } else {
      var rest := Wire(items[1..]) + tail;
      assert Wire(items) + tail == WireOf(items[0]) + rest;
      DeliveredThen(items[0], rest);
      StreamRoundTrip(items[1..], tail);
    }
  }

  lemma LocksEarlier(g: seq<Byte>, rest: seq<Byte>, i: nat)
    requires MagicAt(g, i)
    ensures ReadFrame(g + rest).resync < |g|
  {
    assert (g + rest)[i..i + 4] == g[i..i + 4];
    assert MagicAt(g + rest, i);
  }

  /** Garbage in front of a frame leaves it readable exactly when the garbage holds no magic. */
  lemma LocksOnIff(it: Item, rest: seq<Byte>)
    requires it.kind <= 4
    ensures ReadFrame(WireOf(it) + rest) == Delivered(it) <==> MagicFree(it.garbage)
  {
    if MagicFree(it.garbage) {
      DeliversFirst(it, rest);
    } else {
      var i: nat :| MagicAt(it.garbage, i);
      LocksEarlier(it.garbage, FrameBytes(it.kind, it.seqNo, it.payload) + rest, i);
      assert WireOf(it) + rest == it.garbage + (FrameBytes(it.kind, it.seqNo, it.payload) + rest);
    }
  }

  lemma OutcomesStep(s: seq<Byte>)
    ensures Outcomes(s) == if ReadFrame(s).Eof? then [] else [ReadFrame(s)] + Outcomes(s[ReadFrame(s).used..])
  {
  }

  lemma FirstDelivered(items: seq<Item>, rest: seq<Byte>)
    requires items != [] && items[0].kind <= 4 && Outcomes(WireOf(items[0]) + rest) == AllDelivered(items)
    ensures MagicFree(items[0].garbage) && Outcomes(rest) == AllDelivered(items[1..])
  {
    var s := WireOf(items[0]) + rest;
    OutcomesStep(s);
    assert ReadFrame(s) == Outcomes(s)[0] == Delivered(items[0]);
    LocksOnIff(items[0], rest);
    assert s[Delivered(items[0]).used..] == rest;
    assert Outcomes(rest) == Outcomes(s)[1..] == AllDelivered(items[1..]);
  }

  lemma FirstClean(items: seq<Item>, tail: seq<Byte>)
    requires items != [] && items[0].kind <= 4 && Outcomes(Wire(items) + tail) == AllDelivered(items)
    ensures MagicFree(items[0].garbage) && Outcomes(Wire(items[1..]) + tail) == AllDelivered(items[1..])
  {
    WireSplit(items, tail);
    FirstDelivered(items, Wire(items[1..]) + tail);
  }

  predicate SentKinds(items: seq<Item>) {
    forall i :: 0 <= i < |items| ==> items[i].kind <= 4
  }

  /** What holds of a list shows its first garbage clean and holds of its tail. */
  ghost predicate Inherited(good: seq<Item> -> bool) {
    forall items: seq<Item> {:trigger MagicFree(items[0].garbage)} | items != [] && good(items) ::
      MagicFree(items[0].garbage) && good(items[1..])
  }

  lemma {:induction false} CleanThroughout(items: seq<Item>, good: seq<Item> -> bool, i: nat)
    requires i < |items| && good(items) && Inherited(good)
    ensures MagicFree(items[i].garbage)
    decreases |items|
  {
    assert MagicFree(items[0].garbage);
    if i > 0 {
      CleanThroughout(items[1..], good, i - 1);
    }
  }

  /** The lists a stream ending in tail delivers whole. */
  ghost function Delivering(tail: seq<Byte>): seq<Item> -> bool {
    items => SentKinds(items) && Outcomes(Wire(items) + tail) == AllDelivered(items)
  }

  lemma DeliveryInherited(tail: seq<Byte>)
    ensures Inherited(Delivering(tail))
  {
    forall items: seq<Item> | items != [] && Delivering(tail)(items)
      ensures MagicFree(items[0].garbage) && Delivering(tail)(items[1..])
    {
      FirstClean(items, tail);
    }
  }

  lemma DeliveredIsClean(items: seq<Item>, tail: seq<Byte>, i: nat)
    requires i < |items| && Delivering(tail)(items)
    ensures MagicFree(items[i].garbage)
  {
    DeliveryInherited(tail);
    CleanThroughout(items, Delivering(tail), i);
  }

  lemma WireSplit(items: seq<Item>, tail: seq<Byte>)
    requires items != []
    ensures Wire(items) + tail == WireOf(items[0]) + (Wire(items[1..]) + tail)
  {
  }

  /** A stream is read back frame for frame, garbage counted, exactly when no run of garbage holds the magic. */
  lemma StreamLocksIff(items: seq<Item>, tail: seq<Byte>)
    requires MagicFree(tail) && SentKinds(items)
    ensures Outcomes(Wire(items) + tail) == AllDelivered(items) <==>
            forall i :: 0 <= i < |items| ==> MagicFree(items[i].garbage)
  {
    if forall i :: 0 <= i < |items| ==> MagicFree(items[i].garbage) {
      StreamRoundTrip(items, tail);
    }
    if Outcomes(Wire(items) + tail) == AllDelivered(items) {
      forall i | 0 <= i < |items|
        ensures MagicFree(items[i].garbage)
      {
        DeliveredIsClean(items, tail, i);
      }
    }
  }

  /** A stray magic swallows an END frame right behind it: nothing is delivered. */
  lemma StrayMagicSwallows(seqNo: U32)
    ensures ReadFrame(MAGIC + FrameBytes(TYPE_END, seqNo, [])) == Bad(0, 20)
    ensures forall o :: o in Outcomes(MAGIC + FrameBytes(TYPE_END, seqNo, [])) ==> !o.Got?
  {
    var f := FrameBytes(TYPE_END, seqNo, []);
    var s := MAGIC + f;
    assert s[0..4] == MAGIC;
    FirstMagicIs(s, 0);
    assert f[..4] == MAGIC;
    assert s[4] == f[0] == 0x4D;
    assert ReadFrame(s) == Bad(0, 20);
    assert ReadFrame(s[20..]).Eof?;
    assert Outcomes(s[20..]) == [];
  }
}

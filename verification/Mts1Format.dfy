/** The MTS1 snapshot layout: a 36-byte header and 24 bytes a record, little-endian. */
module Mts1Format {
  import opened Words

  const HEADER_SIZE := 36
  const RECORD_SIZE := 24

  /** "MTS1" */
  const MAGIC: seq<Byte> := [0x4D, 0x54, 0x53, 0x31]

  datatype Header = Header(
    version: U16, flags: U16, count: U32, current: U32, peak: U32,
    totalAllocs: U32, totalFrees: U32, seqNo: U32, crc: U32)

  datatype WireRec = WireRec(
    ptr: U64, size: U32, fileId: U32, line: U16, state: Byte, pad: Byte, seqNo: U32)

  /** Header bytes 0..31, the part under the checksum. */
  function PutFields(h: Header): (s: seq<Byte>)
    ensures |s| == 32
  {
    MAGIC + Put16(h.version) + Put16(h.flags)
    + PutWords([h.count, h.current, h.peak, h.totalAllocs, h.totalFrees, h.seqNo])
  }

  function PutRecord(r: WireRec): (s: seq<Byte>)
    ensures |s| == 24
  {
    Put64(r.ptr) + PutWords([r.size, r.fileId]) + (Put16(r.line) + [r.state, r.pad]) + PutWords([r.seqNo])
  }

  function PutRecords(rs: seq<WireRec>): (s: seq<Byte>)
    ensures |s| == 24 * |rs|
  {
    if rs == [] then [] else PutRecord(rs[0]) + PutRecords(rs[1..])
  }

  function PutSnapshot(h: Header, rs: seq<WireRec>): (s: seq<Byte>)
    ensures |s| == 36 + 24 * |rs|
  {
    PutFields(h) + Put32(h.crc) + PutRecords(rs)
  }

  /** Where everything is in a snapshot. */
  lemma HeaderLayout(h: Header, rs: seq<WireRec>)
    ensures var b := PutSnapshot(h, rs);
            && b[0..4] == [0x4D, 0x54, 0x53, 0x31] && b[4..6] == Put16(h.version) && b[6..8] == Put16(h.flags)
            && b[8..12] == Put32(h.count) && b[12..16] == Put32(h.current) && b[16..20] == Put32(h.peak)
            && b[20..24] == Put32(h.totalAllocs) && b[24..28] == Put32(h.totalFrees) && b[28..32] == Put32(h.seqNo)
            && b[32..36] == Put32(h.crc) && b[36..] == PutRecords(rs)
  {
    FieldsLayout(h);
    var b, f := PutSnapshot(h, rs), PutFields(h);
    assert b[..32] == f;
    assert forall i, j :: 0 <= i <= j <= 32 ==> b[i..j] == f[i..j];
  }

  lemma FieldsLayout(h: Header)
    ensures var b := PutFields(h);
            && b[0..4] == [0x4D, 0x54, 0x53, 0x31] && b[4..6] == Put16(h.version) && b[6..8] == Put16(h.flags)
            && b[8..12] == Put32(h.count) && b[12..16] == Put32(h.current) && b[16..20] == Put32(h.peak)
            && b[20..24] == Put32(h.totalAllocs) && b[24..28] == Put32(h.totalFrees) && b[28..32] == Put32(h.seqNo)
  {
    var lead := MAGIC + Put16(h.version) + Put16(h.flags);
    SixWords(h.count, h.current, h.peak, h.totalAllocs, h.totalFrees, h.seqNo);
    assert PutFields(h)[..8] == lead;
    assert PutFields(h)[8..] == PutWords([h.count, h.current, h.peak, h.totalAllocs, h.totalFrees, h.seqNo]);
  }

  lemma SixWords(a: U32, b: U32, c: U32, d: U32, e: U32, f: U32)
    ensures PutWords([a, b, c, d, e, f]) == Put32(a) + Put32(b) + Put32(c) + Put32(d) + Put32(e) + Put32(f)
  {
    ThreeWords(d, e, f);
    assert [c, d, e, f][1..] == [d, e, f] && [b, c, d, e, f][1..] == [c, d, e, f];
    assert [a, b, c, d, e, f][1..] == [b, c, d, e, f];
    assert PutWords([c, d, e, f]) == Put32(c) + PutWords([d, e, f]);
    assert PutWords([b, c, d, e, f]) == Put32(b) + PutWords([c, d, e, f]);
  }

  lemma ThreeWords(a: U32, b: U32, c: U32)
    ensures PutWords([a, b, c]) == Put32(a) + Put32(b) + Put32(c)
  {
    assert [a, b, c][1..] == [b, c] && [b, c][1..] == [c] && [c][1..] == [];
    assert PutWords([c]) == Put32(c) + PutWords([]);
    assert PutWords([b, c]) == Put32(b) + PutWords([c]);
  }

  lemma RecordLayout(r: WireRec)
    ensures var b := PutRecord(r);
            && b[0..8] == Put64(r.ptr) && b[8..12] == Put32(r.size) && b[12..16] == Put32(r.fileId)
            && b[16..18] == Put16(r.line) && b[18] == r.state && b[19] == r.pad && b[20..24] == Put32(r.seqNo)
  {
    assert PutWords([r.size, r.fileId]) == Put32(r.size) + Put32(r.fileId);
    assert PutWords([r.seqNo]) == Put32(r.seqNo);
  }

  // ---- Reading fields back ----

  function GetHeader(p: seq<Byte>): Header
    requires |p| >= 36
  {
    Header(Get16(p, 4), Get16(p, 6), Get32(p, 8), Get32(p, 12), Get32(p, 16),
           Get32(p, 20), Get32(p, 24), Get32(p, 28), Get32(p, 32))
  }

  function GetRecord(p: seq<Byte>, at: nat): WireRec
    requires at + 24 <= |p|
  {
    WireRec(Get64(p, at), Get32(p, at + 8), Get32(p, at + 12), Get16(p, at + 16),
            p[at + 18], p[at + 19], Get32(p, at + 20))
  }

  function GetRecords(p: seq<Byte>, at: nat, n: nat): (rs: seq<WireRec>)
    requires at + 24 * n <= |p|
    ensures |rs| == n
    decreases n
  {
    if n == 0 then [] else [GetRecord(p, at)] + GetRecords(p, at + 24, n - 1)
  }

  lemma Get16Of(pre: seq<Byte>, s: seq<Byte>, post: seq<Byte>)
    requires |s| == 2
    ensures Get16(pre + s + post, |pre|) == Get16(s, 0)
  {
    assert forall k :: 0 <= k < 2 ==> (pre + s + post)[|pre| + k] == s[k];
  }

  lemma HeaderRead(h: Header, rest: seq<Byte>)
    ensures GetHeader(PutFields(h) + Put32(h.crc) + rest) == h
  {
    var p := PutFields(h) + Put32(h.crc) + rest;
    var ws := [h.count, h.current, h.peak, h.totalAllocs, h.totalFrees, h.seqNo];
    var body := PutWords(ws);
    var tail := Put32(h.crc) + rest;
    Get16Of(MAGIC, Put16(h.version), Put16(h.flags) + body + tail);
    assert p == MAGIC + Put16(h.version) + (Put16(h.flags) + body + tail);
    Get16Of(MAGIC + Put16(h.version), Put16(h.flags), body + tail);
    assert p == MAGIC + Put16(h.version) + Put16(h.flags) + (body + tail);
    var pre := MAGIC + Put16(h.version) + Put16(h.flags);
    assert p == pre + body + tail;
    WordAt(ws, 0, pre, tail);
    WordAt(ws, 1, pre, tail);
    WordAt(ws, 2, pre, tail);
    WordAt(ws, 3, pre, tail);
    WordAt(ws, 4, pre, tail);
    WordAt(ws, 5, pre, tail);
    Get32Of(PutFields(h), Put32(h.crc), rest);
    Read16(h.version);
    Read16(h.flags);
    Read32(h.crc);
  }

  lemma Get64Of(pre: seq<Byte>, s: seq<Byte>, post: seq<Byte>)
    requires |s| == 8
    ensures Get64(pre + s + post, |pre|) == Get64(s, 0)
  {
    assert forall k :: 0 <= k < 8 ==> (pre + s + post)[|pre| + k] == s[k];
  }

  lemma RecordRead(r: WireRec, pre: seq<Byte>, post: seq<Byte>)
    ensures GetRecord(pre + PutRecord(r) + post, |pre|) == r
  {
    var p := pre + PutRecord(r) + post;
    var a, b, c, d := Put64(r.ptr), PutWords([r.size, r.fileId]), Put16(r.line) + [r.state, r.pad], PutWords([r.seqNo]);
    Get64Of(pre, a, b + c + d + post);
    assert p == pre + a + (b + c + d + post);
    Read64(r.ptr);
    WordAt([r.size, r.fileId], 0, pre + a, c + d + post);
    WordAt([r.size, r.fileId], 1, pre + a, c + d + post);
    assert p == (pre + a) + b + (c + d + post);
    Get16Of(pre + a + b, Put16(r.line), [r.state, r.pad] + d + post);
    assert p == (pre + a + b) + Put16(r.line) + ([r.state, r.pad] + d + post);
    Read16(r.line);
    WordAt([r.seqNo], 0, pre + a + b + c, post);
    assert p == (pre + a + b + c) + d + post;
  }

  lemma {:induction false} RecordsRead(rs: seq<WireRec>, pre: seq<Byte>, post: seq<Byte>)
    ensures GetRecords(pre + PutRecords(rs) + post, |pre|, |rs|) == rs
    decreases |rs|
  {
    if rs != [] {
      var p := pre + PutRecords(rs) + post;
      var rest := PutRecords(rs[1..]);
      RecordRead(rs[0], pre, rest + post);
      assert p == pre + PutRecord(rs[0]) + (rest + post);
      RecordsRead(rs[1..], pre + PutRecord(rs[0]), post);
      assert p == (pre + PutRecord(rs[0])) + rest + post;
    }
  }

  lemma FieldsWritten(p: seq<Byte>)
    requires |p| >= 36 && p[..4] == MAGIC
    ensures PutFields(GetHeader(p)) == p[..32] && Put32(GetHeader(p).crc) == p[32..36]
  {
    Written16(p, 4);
    Written16(p, 6);
    SixWordsWritten(p);
    Written32(p, 32);
    assert p[..32] == p[..4] + p[4..6] + p[6..8] + p[8..32];
  }

  lemma SixWordsWritten(p: seq<Byte>)
    requires |p| >= 32
    ensures PutWords([Get32(p, 8), Get32(p, 12), Get32(p, 16), Get32(p, 20), Get32(p, 24), Get32(p, 28)]) == p[8..32]
  {
    WordsWritten(p, 8, 6);
    assert [Get32(p, 8), Get32(p, 12), Get32(p, 16), Get32(p, 20), Get32(p, 24), Get32(p, 28)] == GetWords(p, 8, 6);
  }

  function GetWords(p: seq<Byte>, at: nat, n: nat): (ws: seq<U32>)
    requires at + 4 * n <= |p|
    ensures |ws| == n
    decreases n
  {
    if n == 0 then [] else [Get32(p, at)] + GetWords(p, at + 4, n - 1)
  }

  lemma {:induction false} WordsWritten(p: seq<Byte>, at: nat, n: nat)
    requires at + 4 * n <= |p|
    ensures PutWords(GetWords(p, at, n)) == p[at..at + 4 * n]
    decreases n
  {
    if n > 0 {
      Written32(p, at);
      WordsWritten(p, at + 4, n - 1);
      assert p[at..at + 4 * n] == p[at..at + 4] + p[at + 4..at + 4 * n];
    }
  }

  /** Size and file id. */
  lemma TwoWordsWritten(p: seq<Byte>, at: nat)
    requires at + 8 <= |p|
    ensures PutWords([Get32(p, at), Get32(p, at + 4)]) == p[at..at + 8]
  {
    WordsWritten(p, at, 2);
    assert GetWords(p, at, 2) == [Get32(p, at), Get32(p, at + 4)];
  }

  /** Line, state and padding. */
  lemma LineWritten(p: seq<Byte>, at: nat)
    requires at + 4 <= |p|
    ensures Put16(Get16(p, at)) + [p[at + 2], p[at + 3]] == p[at..at + 4]
  {
    Written16(p, at);
    assert p[at..at + 4] == p[at..at + 2] + [p[at + 2], p[at + 3]];
  }

  lemma OneWordWritten(p: seq<Byte>, at: nat)
    requires at + 4 <= |p|
    ensures PutWords([Get32(p, at)]) == p[at..at + 4]
  {
    WordsWritten(p, at, 1);
    assert GetWords(p, at, 1) == [Get32(p, at)];
  }

  lemma FourPieces(p: seq<Byte>, at: nat)
    requires at + 24 <= |p|
    ensures p[at..at + 24] == p[at..at + 8] + p[at + 8..at + 16] + p[at + 16..at + 20] + p[at + 20..at + 24]
  {
  }

  lemma RecordWritten(p: seq<Byte>, at: nat)
    requires at + 24 <= |p|
    ensures PutRecord(GetRecord(p, at)) == p[at..at + 24]
  {
    Written64(p, at);
    TwoWordsWritten(p, at + 8);
    LineWritten(p, at + 16);
    OneWordWritten(p, at + 20);
    FourPieces(p, at);
  }

  lemma {:induction false} RecordsWritten(p: seq<Byte>, at: nat, n: nat)
    requires at + 24 * n <= |p|
    ensures PutRecords(GetRecords(p, at, n)) == p[at..at + 24 * n]
    decreases n
  {
    if n > 0 {
      RecordWritten(p, at);
      RecordsWritten(p, at + 24, n - 1);
      assert p[at..at + 24 * n] == p[at..at + 24] + p[at + 24..at + 24 * n];
    }
  }
}

/** The viewer's snapshot decoder in 32-bit arithmetic, and the unbounded Python one beside it. */
module Mts1Decoder {
  import opened Words
  import opened Options
  import opened Crc32
  import opened Mts1Format

  datatype Snap = Snap(hdr: Header, records: seq<WireRec>)

  // ---- The viewer ----

  /** The viewer's size check, in 32-bit arithmetic that may wrap. */
  predicate Fits32(len: nat, count: U32) {
    count <= (UINT32_MAX - 36) / 24 && (36 + count * 24) % TWO_32 <= len
  }

  lemma FitsExactly(len: nat, count: U32)
    requires len < TWO_32
    ensures Fits32(len, count) <==> 36 + 24 * count <= len
  {
  }

  /** Acceptance as the viewer computes it; lengths are 32-bit. */
  function Parse(p: seq<Byte>): (r: Option<Snap>)
    requires |p| < TWO_32
    ensures r.Some? ==> 36 + 24 * r.value.hdr.count <= |p|
                        && r.value.records == GetRecords(p, 36, r.value.hdr.count)
  {
    if |p| < 36 || p[..4] != MAGIC then None
    else
      var hdr := GetHeader(p);
      FitsExactly(|p|, hdr.count);
      if hdr.version != 1 || !Fits32(|p|, hdr.count) then None
      else Some(Snap(hdr, GetRecords(p, 36, hdr.count)))
  }

  method ParseSnapshot(payload: seq<Byte>) returns (ok: bool, hdr: Header, records: array<WireRec>)
    requires |payload| < TWO_32
    ensures fresh(records)
    ensures Parse(payload) == if ok then Some(Snap(hdr, records[..])) else None
  {
    ok, hdr, records := false, ZERO_HEADER, new WireRec[0];
    if |payload| < 36 {
      return;
    }
    if payload[0] != 0x4D || payload[1] != 0x54 || payload[2] != 0x53 || payload[3] != 0x31 {
      return;
    }
    assert payload[..4] == MAGIC;
    hdr := GetHeader(payload);
    if hdr.version != 1 {
      return;
    }
    if hdr.count > (UINT32_MAX - 36) / 24 {
      return;
    }
    var expectedSize := (36 + hdr.count * 24) % TWO_32;
    if |payload| < expectedSize {
      return;
    }
    FitsExactly(|payload|, hdr.count);
    records := ReadRecords(payload, hdr.count);
    ok := true;
  }

  method ReadRecords(payload: seq<Byte>, count: nat) returns (records: array<WireRec>)
    requires 36 + 24 * count <= |payload|
    ensures fresh(records) && records[..] == GetRecords(payload, 36, count)
  {
    records := new WireRec[count](_ => ZERO_RECORD);
    var at := 36;
    for i := 0 to count
      invariant at == 36 + 24 * i
      invariant records[..i] == GetRecords(payload, 36, i)
    {
      records[i] := WireRec(Get64(payload, at), Get32(payload, at + 8), Get32(payload, at + 12),
                            Get16(payload, at + 16), payload[at + 18], payload[at + 19], Get32(payload, at + 20));
      RecordsSnoc(payload, 36, i);
      at := at + 24;
    }
    assert records[..count] == records[..];
  }

  const ZERO_HEADER := Header(0, 0, 0, 0, 0, 0, 0, 0, 0)
  const ZERO_RECORD := WireRec(0, 0, 0, 0, 0, 0, 0)

  lemma {:induction false} RecordsSnoc(p: seq<Byte>, at: nat, n: nat)
    requires at + 24 * (n + 1) <= |p|
    ensures GetRecords(p, at, n + 1) == GetRecords(p, at, n) + [GetRecord(p, at + 24 * n)]
    decreases n
  {
    if n > 0 {
      RecordsSnoc(p, at + 24, n - 1);
    }
  }

  predicate Serialises(s: Snap, p: seq<Byte>) {
    s.hdr.version == 1 && s.hdr.count == |s.records| && PutSnapshot(s.hdr, s.records) <= p
  }

  lemma ParsedIsWritten(p: seq<Byte>)
    requires |p| < TWO_32 && Parse(p).Some?
    ensures Serialises(Parse(p).value, p)
  {
    SnapshotWritten(p, GetHeader(p).count);
  }

  /** Header and n records read from p serialise to its first bytes. */
  lemma SnapshotWritten(p: seq<Byte>, n: nat)
    requires 36 + 24 * n <= |p| && p[..4] == MAGIC
    ensures PutSnapshot(GetHeader(p), GetRecords(p, 36, n)) == p[..36 + 24 * n]
  {
    FieldsWritten(p);
    RecordsWritten(p, 36, n);
    ThreePieces(p, 36 + 24 * n);
  }

  lemma ThreePieces(p: seq<Byte>, end: nat)
    requires 36 <= end <= |p|
    ensures p[..end] == p[..32] + p[32..36] + p[36..end]
  {
  }

  lemma HeaderOfWritten(s: Snap, tail: seq<Byte>)
    ensures var p := PutSnapshot(s.hdr, s.records) + tail; GetHeader(p) == s.hdr && p[..4] == MAGIC
  {
    var p, rest := PutSnapshot(s.hdr, s.records) + tail, PutRecords(s.records) + tail;
    assert p == PutFields(s.hdr) + Put32(s.hdr.crc) + rest;
    HeaderRead(s.hdr, rest);
    assert p[..4] == PutFields(s.hdr)[..4] == MAGIC;
  }

  lemma RecordsOfWritten(s: Snap, tail: seq<Byte>)
    ensures GetRecords(PutSnapshot(s.hdr, s.records) + tail, 36, |s.records|) == s.records
  {
    var head := PutFields(s.hdr) + Put32(s.hdr.crc);
    RecordsRead(s.records, head, tail);
  }

  lemma WrittenIsParsed(s: Snap, tail: seq<Byte>)
    requires s.hdr.version == 1 && s.hdr.count == |s.records|
    requires |PutSnapshot(s.hdr, s.records) + tail| < TWO_32
    ensures Parse(PutSnapshot(s.hdr, s.records) + tail) == Some(s)
  {
    HeaderOfWritten(s, tail);
    RecordsOfWritten(s, tail);
    FitsExactly(|PutSnapshot(s.hdr, s.records) + tail|, s.hdr.count);
  }

  /** The decoder accepts exactly the extensions of a serialised version-1 snapshot, and gives that snapshot back. */
  lemma ParseIff(p: seq<Byte>, s: Snap)
    requires |p| < TWO_32
    ensures Parse(p) == Some(s) <==> Serialises(s, p)
  {
    if Parse(p) == Some(s) {
      ParsedIsWritten(p);
    }
    if Serialises(s, p) {
      var tail := p[|PutSnapshot(s.hdr, s.records)|..];
      assert p == PutSnapshot(s.hdr, s.records) + tail;
      WrittenIsParsed(s, tail);
    }
  }

  /** The bytes under a snapshot's checksum. */
  function Covered(p: seq<Byte>): seq<Byte>
    requires |p| >= 36
  {
    p[..32] + p[36..]
  }

  predicate CrcVerified(p: seq<Byte>, hdr: Header) {
    |p| >= 36 && Checksum(Covered(p)) == hdr.crc
  }

  method VerifyCrc(payload: seq<Byte>, hdr: Header) returns (ok: bool)
    ensures ok == CrcVerified(payload, hdr)
  {
    if |payload| < 36 {
      return false;
    }
    var crc := Update(payload[..32], SEED);
    crc := Update(payload[36..], crc);
    Chaining(SEED, payload[..32], payload[36..]);
    XorWidth(crc, SEED);
    crc := Xor(crc, SEED);
    ok := crc == hdr.crc;
  }

  lemma CoveredInjective(p: seq<Byte>, q: seq<Byte>)
    requires 36 <= |p| == |q| && p[32..36] == q[32..36] && Covered(p) == Covered(q)
    ensures p == q
  {
    assert p[..32] == Covered(p)[..32] && q[..32] == Covered(q)[..32];
    assert p[36..] == Covered(p)[32..] && q[36..] == Covered(q)[32..];
    assert p == p[..32] + p[32..36] + p[36..] && q == q[..32] + q[32..36] + q[36..];
  }

  lemma CrcField(p: seq<Byte>)
    requires |p| >= 36
    ensures GetHeader(p).crc == Get32(p[32..36], 0)
  {
  }

  /** Corruption of the covered bytes within 32 consecutive bits never verifies. */
  lemma CorruptionCaught(p: seq<Byte>, q: seq<Byte>, at: nat, n: nat)
    requires 36 <= |p| == |q| < TWO_32 && n <= 32
    requires CrcVerified(p, GetHeader(p)) && p[32..36] == q[32..36]
    requires p != q && DifferInWindow(Bits(Covered(p)), Bits(Covered(q)), at, n)
    ensures !CrcVerified(q, GetHeader(q))
  {
    CrcField(p);
    CrcField(q);
    if Covered(p) == Covered(q) {
      CoveredInjective(p, q);
    }
    BurstDetected(Covered(p), Covered(q), at, n);
  }

  // ---- The Python decoder ----

  datatype PyRecord = PyRecord(ptr: U64, size: U32, fileId: U32, line: U16, state: Byte, seqNo: U32)

  datatype PyResult =
    | Rejected
    | Mismatch(hdr: Header, records: seq<PyRecord>)
    | Valid(hdr: Header, records: seq<PyRecord>)

  /** The little-endian value of the n bytes from i on, as struct.unpack reads a slice. */
  function Unpack(data: seq<Byte>, i: nat, n: nat): (v: nat)
    requires i + n <= |data|
    decreases n
  {
    if n == 0 then 0 else data[i] + 0x100 * Unpack(data, i + 1, n - 1)
  }

  // The widths struct.unpack is asked for.
  const SIZE_H := 2
  const SIZE_I := 4
  const SIZE_Q := 8

  function PyU16(data: seq<Byte>, offset: nat): (v: U16)
    requires offset + 2 <= |data|
  {
    UnpackIs(data, offset);
    Unpack(data, offset, SIZE_H)
  }

  function PyU32(data: seq<Byte>, offset: nat): (v: U32)
    requires offset + 4 <= |data|
  {
    UnpackIs(data, offset);
    Unpack(data, offset, SIZE_I)
  }

  function PyU64(data: seq<Byte>, offset: nat): (v: U64)
    requires offset + 8 <= |data|
  {
    UnpackIs(data, offset);
    Unpack(data, offset, SIZE_Q)
  }

  lemma PyWordsAre(data: seq<Byte>, offset: nat)
    ensures offset + 2 <= |data| ==> PyU16(data, offset) == Get16(data, offset)
    ensures offset + 4 <= |data| ==> PyU32(data, offset) == Get32(data, offset)
    ensures offset + 8 <= |data| ==> PyU64(data, offset) == Get64(data, offset)
  {
    UnpackIs(data, offset);
  }

  /** Unpacking a slice is what the viewer's byte-by-byte readers compute at its offset. */
  lemma UnpackIs(data: seq<Byte>, i: nat)
    ensures i + 2 <= |data| ==> Unpack(data, i, 2) == Get16(data, i)
    ensures i + 4 <= |data| ==> Unpack(data, i, 4) == Get32(data, i)
    ensures i + 8 <= |data| ==> Unpack(data, i, 8) == Get64(data, i)
  {
    if i + 2 <= |data| {
      UnpackTwo(data, i, 2);
    }
    if i + 4 <= |data| {
      UnpackTwo(data, i, 4);
      UnpackTwo(data, i + 2, 2);
    }
    if i + 8 <= |data| {
      UnpackTwo(data, i, 8);
      UnpackTwo(data, i + 2, 6);
      UnpackTwo(data, i + 4, 4);
      UnpackTwo(data, i + 6, 2);
    }
  }

  lemma UnpackTwo(data: seq<Byte>, i: nat, n: nat)
    requires n >= 2 && i + n <= |data|
    ensures Unpack(data, i, n) == At(data, i) + 0x100 * At(data, i + 1) + 0x1_0000 * Unpack(data, i + 2, n - 2)
    ensures n == 2 ==> Unpack(data, i + 2, n - 2) == 0
  {
    assert Unpack(data, i + 1, n - 1) == At(data, i + 1) + 0x100 * Unpack(data, i + 2, n - 2);
  }

  function PyHeader(data: seq<Byte>): Option<Header> {
    if |data| < HEADER_SIZE then None
    else if data[0..4] != MAGIC then None
    else Some(Header(PyU16(data, 4), PyU16(data, 6), PyU32(data, 8), PyU32(data, 12), PyU32(data, 16),
                     PyU32(data, 20), PyU32(data, 24), PyU32(data, 28), PyU32(data, 32)))
  }

  lemma PyHeaderIs(data: seq<Byte>)
    requires |data| >= HEADER_SIZE && data[..4] == MAGIC
    ensures PyHeader(data) == Some(GetHeader(data))
  {
    forall k: nat {
      PyWordsAre(data, k);
    }
    assert data[0..4] == data[..4];
  }

  function PyRecordAt(data: seq<Byte>, offset: nat): (r: PyRecord)
    requires offset + RECORD_SIZE <= |data|
  {
    PyRecord(PyU64(data, offset), PyU32(data, offset + 8), PyU32(data, offset + 12),
             PyU16(data, offset + 16), data[offset + 18], PyU32(data, offset + 20))
  }

  function PyParseRecord(data: seq<Byte>, offset: nat): Option<PyRecord> {
    if |data| < offset + RECORD_SIZE then None else Some(PyRecordAt(data, offset))
  }

  lemma PyRecordIs(data: seq<Byte>, offset: nat)
    requires offset + 24 <= |data|
    ensures PyRecordAt(data, offset) == Unpadded(GetRecord(data, offset))
  {
    PyWordsAre(data, offset);
    PyWordsAre(data, offset + 8);
    PyWordsAre(data, offset + 12);
    PyWordsAre(data, offset + 16);
    PyWordsAre(data, offset + 20);
  }

  function Listed(r: Option<PyRecord>): seq<PyRecord> {
    if r.Some? then [r.value] else []
  }

  /** The first n records, skipping any that do not fit. */
  function PyRecords(data: seq<Byte>, n: nat): seq<PyRecord> {
    if n == 0 then []
    else
      var r := PyParseRecord(data, HEADER_SIZE + (n - 1) * RECORD_SIZE);
      PyRecords(data, n - 1) + Listed(r)
  }

  /** The Python size check, in unbounded arithmetic. */
  predicate FitsPy(len: nat, count: U32) {
    count <= UINT32_MAX / RECORD_SIZE && HEADER_SIZE + count * RECORD_SIZE <= len
  }

  /** The bytes Python checksums: the header's first 32 and the counted records, nothing behind them. */
  function PyChecked(data: seq<Byte>, hdr: Header): seq<Byte>
    requires FitsPy(|data|, hdr.count)
  {
    data[..HEADER_SIZE - 4] + data[HEADER_SIZE..HEADER_SIZE + hdr.count * RECORD_SIZE]
  }

  /** The checks and reads after the header. */
  function PyBody(data: seq<Byte>, hdr: Header): PyResult {
    if hdr.version != 1 || !FitsPy(|data|, hdr.count) then Rejected
    else
      var records := PyRecords(data, hdr.count);
      if Checksum(PyChecked(data, hdr)) == hdr.crc then Valid(hdr, records) else Mismatch(hdr, records)
  }

  function PyDecode(data: seq<Byte>): PyResult {
    match PyHeader(data)
    case None => Rejected
    case Some(hdr) => PyBody(data, hdr)
  }

  lemma PyDecodeIs(data: seq<Byte>)
    ensures PyDecode(data) ==
            if |data| < HEADER_SIZE || data[..4] != MAGIC then Rejected else PyBody(data, GetHeader(data))
  {
    if |data| >= HEADER_SIZE {
      assert data[0..4] == data[..4];
      if data[..4] == MAGIC {
        PyHeaderIs(data);
      }
    }
  }

  method PyReadRecords(data: seq<Byte>, count: nat) returns (records: seq<PyRecord>)
    ensures records == PyRecords(data, count)
  {
    records := [];
    for i := 0 to count
      invariant records == PyRecords(data, i)
    {
      var rec := PyParseRecord(data, HEADER_SIZE + i * RECORD_SIZE);
      if rec.Some? {
        records := records + [rec.value];
      }
    }
  }

  method PyChecksum(headerData: seq<Byte>, recordsData: seq<Byte>) returns (crc: U32)
    ensures crc == Checksum(headerData + recordsData)
  {
    crc := Update(headerData, SEED);
    crc := Update(recordsData, crc);
    Chaining(SEED, headerData, recordsData);
    XorWidth(crc, SEED);
    crc := Xor(crc, SEED);
  }

  method PyMain(data: seq<Byte>) returns (r: PyResult)
    ensures r == PyDecode(data)
  {
    var header := PyHeader(data);
    if header.None? {
      return Rejected;
    }
    var hdr := header.value;
    if hdr.version != 1 {
      return Rejected;
    }
    if hdr.count > UINT32_MAX / RECORD_SIZE {
      return Rejected;
    }
    var expectedLen := HEADER_SIZE + hdr.count * RECORD_SIZE;
    if |data| < expectedLen {
      return Rejected;
    }
    var records := PyReadRecords(data, hdr.count);
    var crc := PyChecksum(data[..HEADER_SIZE - 4], data[HEADER_SIZE..expectedLen]);
    r := if crc == hdr.crc then Valid(hdr, records) else Mismatch(hdr, records);
  }

  function Unpadded(r: WireRec): PyRecord {
    PyRecord(r.ptr, r.size, r.fileId, r.line, r.state, r.seqNo)
  }

  function UnpaddedAll(rs: seq<WireRec>): (ps: seq<PyRecord>)
    ensures |ps| == |rs| && forall i :: 0 <= i < |rs| ==> ps[i] == Unpadded(rs[i])
  {
    if rs == [] then [] else UnpaddedAll(rs[..|rs| - 1]) + [Unpadded(rs[|rs| - 1])]
  }

  lemma {:induction false} RecordAt(p: seq<Byte>, at: nat, n: nat, i: nat)
    requires at + 24 * n <= |p| && i < n
    ensures GetRecords(p, at, n)[i] == GetRecord(p, at + 24 * i)
    decreases n
  {
    if i > 0 {
      RecordAt(p, at + 24, n - 1, i - 1);
    }
  }

  lemma PyRecordsStep(p: seq<Byte>, n: nat, at: nat)
    requires n > 0 && at == 36 + 24 * (n - 1) && at + 24 <= |p|
    ensures PyRecords(p, n) == PyRecords(p, n - 1) + [PyRecordAt(p, at)]
  {
  }

  lemma {:induction false} PyRecordsAt(p: seq<Byte>, n: nat, i: nat)
    requires 36 + 24 * n <= |p| && i < n
    ensures |PyRecords(p, n)| == n && PyRecords(p, n)[i] == PyRecordAt(p, 36 + 24 * i)
  {
    PyRecordsLength(p, n);
    PyRecordsStep(p, n, 36 + 24 * (n - 1));
    if i < n - 1 {
      PyRecordsAt(p, n - 1, i);
    }
  }

  lemma {:induction false} PyRecordsLength(p: seq<Byte>, n: nat)
    requires 36 + 24 * n <= |p|
    ensures |PyRecords(p, n)| == n
  {
    if n > 0 {
      PyRecordsLength(p, n - 1);
    }
  }

  lemma RecordsAgree(p: seq<Byte>, n: nat)
    requires 36 + 24 * n <= |p|
    ensures PyRecords(p, n) == UnpaddedAll(GetRecords(p, 36, n))
  {
    PyRecordsLength(p, n);
    forall i | 0 <= i < n
      ensures PyRecords(p, n)[i] == UnpaddedAll(GetRecords(p, 36, n))[i]
    {
      PyRecordsAt(p, n, i);
      RecordAt(p, 36, n, i);
      PyRecordIs(p, 36 + 24 * i);
    }
  }

  /** The 32-bit bound with its wrapping sum and the unbounded one cut off the same counts. */
  lemma BoundsAgree(len: nat, count: U32)
    requires len < TWO_32
    ensures Fits32(len, count) <==> FitsPy(len, count)
  {
  }

  lemma AcceptanceAgrees(p: seq<Byte>)
    requires |p| < TWO_32
    ensures Parse(p).None? <==> PyDecode(p).Rejected?
    ensures Parse(p).Some? ==>
              var hdr := Parse(p).value.hdr;
              && PyDecode(p) == PyBody(p, hdr) && hdr.version == 1 && FitsPy(|p|, hdr.count)
  {
    PyDecodeIs(p);
    if |p| >= 36 {
      BoundsAgree(|p|, GetHeader(p).count);
    }
  }

  lemma PyChecksCovered(p: seq<Byte>, hdr: Header)
    requires FitsPy(|p|, hdr.count) && |p| == 36 + 24 * hdr.count
    ensures PyChecked(p, hdr) == Covered(p)
  {
  }

  lemma VerdictsAgree(p: seq<Byte>, hdr: Header)
    requires hdr.version == 1 && FitsPy(|p|, hdr.count) && |p| == 36 + 24 * hdr.count
    ensures PyBody(p, hdr).Valid? <==> CrcVerified(p, hdr)
  {
    PyChecksCovered(p, hdr);
  }

  /** The two decoders accept the same payloads with the same fields, whatever their count bounds. */
  lemma DecodersAgree(p: seq<Byte>)
    requires |p| < TWO_32
    ensures Parse(p).None? <==> PyDecode(p).Rejected?
    ensures Parse(p).Some? ==>
              var s, r := Parse(p).value, PyDecode(p);
              && r.hdr == s.hdr && r.records == UnpaddedAll(s.records)
              && (|p| == 36 + 24 * s.hdr.count ==> (r.Valid? <==> CrcVerified(p, s.hdr)))
  {
    AcceptanceAgrees(p);
    if Parse(p).Some? {
      var hdr := Parse(p).value.hdr;
      PyRecordsAre(p);
      if |p| == 36 + 24 * hdr.count {
        VerdictsAgree(p, hdr);
      }
    }
  }

  /** On one more byte the verdicts part: Python ignores it, the viewer verifies at most one value of it. */
  lemma TrailingByteSplits(p: seq<Byte>, a: Byte, b: Byte)
    requires |p| + 1 < TWO_32 && a != b && PyDecode(p).Valid?
    ensures PyDecode(p + [a]) == PyDecode(p) == PyDecode(p + [b])
    ensures !(CrcVerified(p + [a], GetHeader(p)) && CrcVerified(p + [b], GetHeader(p)))
  {
    TrailingIgnored(p, [a]);
    TrailingIgnored(p, [b]);
    CoveredExtension(p, a);
    CoveredExtension(p, b);
    LastByteMatters(Covered(p), a, b);
  }

  lemma CoveredExtension(p: seq<Byte>, a: Byte)
    requires |p| >= 36
    ensures Covered(p + [a]) == Covered(p) + [a]
  {
  }

  lemma HeaderOfExtension(p: seq<Byte>, tail: seq<Byte>)
    requires |p| >= 36
    ensures GetHeader(p + tail) == GetHeader(p)
  {
    assert forall k :: 0 <= k < 36 ==> (p + tail)[k] == p[k];
  }

  lemma AcceptsExtension(p: seq<Byte>, tail: seq<Byte>)
    requires |p + tail| < TWO_32 && Parse(p).Some?
    ensures Parse(p + tail) == Parse(p)
  {
    ParseIff(p, Parse(p).value);
    ParseIff(p + tail, Parse(p).value);
  }

  lemma PyRecordsAre(p: seq<Byte>)
    requires |p| < TWO_32 && Parse(p).Some?
    ensures PyRecords(p, Parse(p).value.hdr.count) == UnpaddedAll(Parse(p).value.records)
  {
    RecordsAgree(p, Parse(p).value.hdr.count);
  }

  lemma RecordsOfExtension(p: seq<Byte>, tail: seq<Byte>)
    requires |p + tail| < TWO_32 && Parse(p).Some?
    ensures PyRecords(p + tail, Parse(p).value.hdr.count) == PyRecords(p, Parse(p).value.hdr.count)
  {
    AcceptsExtension(p, tail);
    PyRecordsAre(p);
    PyRecordsAre(p + tail);
  }

  lemma CheckedOfExtension(p: seq<Byte>, tail: seq<Byte>, hdr: Header)
    requires FitsPy(|p|, hdr.count)
    ensures PyChecked(p + tail, hdr) == PyChecked(p, hdr)
  {
  }

  lemma BodyOfExtension(p: seq<Byte>, tail: seq<Byte>, hdr: Header)
    requires hdr.version == 1 && FitsPy(|p|, hdr.count)
    requires PyRecords(p + tail, hdr.count) == PyRecords(p, hdr.count)
    ensures PyBody(p + tail, hdr) == PyBody(p, hdr)
  {
    CheckedOfExtension(p, tail, hdr);
  }

  lemma TrailingIgnored(p: seq<Byte>, tail: seq<Byte>)
    requires |p + tail| < TWO_32 && PyDecode(p).Valid?
    ensures PyDecode(p + tail) == PyDecode(p) && GetHeader(p + tail) == GetHeader(p) == PyDecode(p).hdr
  {
    AcceptanceAgrees(p);
    PyDecodeIs(p);
    PyDecodeIs(p + tail);
    HeaderOfExtension(p, tail);
    assert (p + tail)[..4] == p[..4];
    RecordsOfExtension(p, tail);
    BodyOfExtension(p, tail, GetHeader(p));
  }

  /** Some tail of any positive length fails in the viewer. */
  lemma SomeTailFails(p: seq<Byte>, k: nat) returns (tail: seq<Byte>)
    requires |p| + k < TWO_32 && k > 0 && PyDecode(p).Valid?
    ensures |tail| == k && !CrcVerified(p + tail, GetHeader(p + tail))
  {
    var zeros := seq(k - 1, _ => 0);
    TrailingIgnored(p, zeros);
    var b := SomeByteFails(p + zeros);
    tail := zeros + [b];
    assert p + tail == p + zeros + [b];
  }

  lemma SomeByteFails(q: seq<Byte>) returns (b: Byte)
    requires |q| + 1 < TWO_32 && PyDecode(q).Valid?
    ensures !CrcVerified(q + [b], GetHeader(q + [b]))
  {
    TrailingByteSplits(q, 0, 1);
    b := if CrcVerified(q + [0], GetHeader(q)) then 1 else 0;
    TrailingIgnored(q, [b]);
  }

  /** Behind a payload that Python finds valid and that ends with its records, the two decoders keep agreeing,
      whatever k bytes follow, exactly when none do. */
  lemma VerdictsAgreeIff(p: seq<Byte>, k: nat)
    requires |p| + k < TWO_32 && PyDecode(p).Valid? && |p| == 36 + 24 * PyDecode(p).hdr.count
    ensures forall tail: seq<Byte> :: |tail| == k ==> PyDecode(p + tail) == PyDecode(p)
    ensures (forall tail: seq<Byte> :: |tail| == k ==> CrcVerified(p + tail, GetHeader(p + tail))) <==> k == 0
  {
    forall tail: seq<Byte> | |tail| == k
      ensures PyDecode(p + tail) == PyDecode(p)
    {
      TrailingIgnored(p, tail);
    }
    if k == 0 {
      forall tail: seq<Byte> | |tail| == k
        ensures CrcVerified(p + tail, GetHeader(p + tail))
      {
        assert p + tail == p;
        ValidIsVerified(p);
      }
    } else {
      var tail := SomeTailFails(p, k);
      assert |tail| == k && !CrcVerified(p + tail, GetHeader(p + tail));
    }
  }

  lemma ValidIsVerified(p: seq<Byte>)
    requires |p| < TWO_32 && PyDecode(p).Valid? && |p| == 36 + 24 * PyDecode(p).hdr.count
    ensures CrcVerified(p, GetHeader(p))
  {
    AcceptanceAgrees(p);
    PyDecodeIs(p);
    VerdictsAgree(p, GetHeader(p));
  }
}

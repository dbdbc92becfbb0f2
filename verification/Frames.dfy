/** MTV1 frames: the sender, and the reader that scans for the magic and resynchronises. */
module Frames {
  import opened Words
  import opened Crc32
  import opened ByteWriter

  /** "MTV1" */
  const MAGIC: seq<Byte> := [0x4D, 0x54, 0x56, 0x31]

  const TX_MAX_PAYLOAD := 512
  const RX_MAX_PAYLOAD := 65536
  const TYPE_SNAPSHOT := 1
  const TYPE_END := 4

  datatype FrameHdr = FrameHdr(version: Byte, kind: Byte, flags: U16, seqNo: U32, len: U32, crc: U32)

  datatype Frame = Frame(hdr: FrameHdr, payload: seq<Byte>, crcOk: bool)

  // ---- Layout ----

  /** Header bytes 0..15. */
  function PutLead(h: FrameHdr): (s: seq<Byte>)
    ensures |s| == 16
  {
    MAGIC + ([h.version, h.kind] + Put16(h.flags)) + PutWords([h.seqNo, h.len])
  }

  function PutHdr(h: FrameHdr): (s: seq<Byte>)
    ensures |s| == 20
  {
    PutLead(h) + Put32(h.crc)
  }

  /** Checksum of a frame: its header with the checksum bytes zeroed, then its payload. */
  function FrameChecksum(h: FrameHdr, payload: seq<Byte>): U32 {
    ChecksumWidth(PutHdr(h.(crc := 0)) + payload);
    Checksum(PutHdr(h.(crc := 0)) + payload)
  }

  function SentHdr(kind: Byte, seqNo: U32, payload: seq<Byte>): FrameHdr
    requires |payload| < TWO_32
  {
    var h := FrameHdr(1, kind, 0, seqNo, |payload|, 0);
    h.(crc := FrameChecksum(h, payload))
  }

  function FrameBytes(kind: Byte, seqNo: U32, payload: seq<Byte>): (s: seq<Byte>)
    requires |payload| < TWO_32
    ensures |s| == 20 + |payload|
  {
    PutHdr(SentHdr(kind, seqNo, payload)) + payload
  }

  function GetHdr(s: seq<Byte>, at: nat): FrameHdr
    requires at + 20 <= |s|
  {
    FrameHdr(s[at + 4], s[at + 5], Get16(s, at + 6), Get32(s, at + 8), Get32(s, at + 12), Get32(s, at + 16))
  }

  /** Where everything is in a frame on the wire. */
  lemma FrameLayout(kind: Byte, seqNo: U32, payload: seq<Byte>)
    requires |payload| < TWO_32
    ensures var b := FrameBytes(kind, seqNo, payload);
            && b[0..4] == [0x4D, 0x54, 0x56, 0x31] && b[4] == 1 && b[5] == kind && b[6] == b[7] == 0
            && b[8..12] == Put32(seqNo) && b[12..16] == Put32(|payload|) && b[20..] == payload
            && Checksum(b[..16] + [0, 0, 0, 0] + payload) < TWO_32
            && b[16..20] == Put32(Checksum(b[..16] + [0, 0, 0, 0] + payload))
  {
    var h := SentHdr(kind, seqNo, payload);
    LeadLayout(h);
    SentCrc(kind, seqNo, payload);
    ThreePieces(PutLead(h), Put32(h.crc), payload);
  }

  lemma ThreePieces(lead: seq<Byte>, crc: seq<Byte>, payload: seq<Byte>)
    requires |lead| == 16 && |crc| == 4
    ensures var b := (lead + crc) + payload;
            && b[..16] == lead && b[16..20] == crc && b[20..] == payload
            && (forall i, j :: 0 <= i <= j <= 16 ==> b[i..j] == lead[i..j]) && forall i :: 0 <= i < 16 ==> b[i] == lead[i]
  {
  }

  lemma SentCrc(kind: Byte, seqNo: U32, payload: seq<Byte>)
    requires |payload| < TWO_32
    ensures var h := SentHdr(kind, seqNo, payload); var image := PutLead(h) + [0, 0, 0, 0] + payload;
            Checksum(image) < TWO_32 && h.crc == Checksum(image)
  {
    var h := SentHdr(kind, seqNo, payload);
    assert Put32(0) == [0, 0, 0, 0];
    ChecksumWidth(PutLead(h) + [0, 0, 0, 0] + payload);
  }

  lemma LeadLayout(h: FrameHdr)
    ensures var b := PutLead(h);
            && b[0..4] == [0x4D, 0x54, 0x56, 0x31] && b[4] == h.version && b[5] == h.kind && b[6..8] == Put16(h.flags)
            && b[8..12] == Put32(h.seqNo) && b[12..16] == Put32(h.len)
  {
    assert PutWords([h.seqNo, h.len]) == Put32(h.seqNo) + Put32(h.len);
  }

  // ---- The sender ----

  function NextSeq(counter: U32): (n: U32)
    ensures 1 <= n
  {
    if counter == UINT32_MAX then 1 else counter + 1
  }

  function SeqAfter(k: nat): U32 {
    if k == 0 then 0 else NextSeq(SeqAfter(k - 1))
  }

  /** Frame numbers run 1, 2, ..., UINT32_MAX and start over; zero is never sent. */
  lemma {:induction false} SeqCycle(k: nat)
    ensures SeqAfter(k + 1) == k % 0xFFFF_FFFF + 1
  {
    if k > 0 {
      SeqCycle(k - 1);
      ModStep(k, UINT32_MAX);
    }
  }

  lemma ModStep(k: nat, m: nat)
    requires k > 0 && m > 1
    ensures k % m == if (k - 1) % m == m - 1 then 0 else (k - 1) % m + 1
  {
    var q, r := (k - 1) / m, (k - 1) % m;
    assert k - 1 == q * m + r;
    if r == m - 1 {
      assert k == (q + 1) * m;
      ModUnique(k, m, q + 1, 0);
    } else {
      ModUnique(k, m, q, r + 1);
    }
  }

  class Stream {
    var seqCounter: U32
    /** Everything handed to the transmit callback. */
    var sent: seq<Byte>

    constructor ()
      ensures seqCounter == 0 && sent == []
    {
      seqCounter, sent := 0, [];
    }

    method NextSeqNo() returns (n: U32)
      modifies this`seqCounter
      ensures n == seqCounter == NextSeq(old(seqCounter))
    {
      if seqCounter == UINT32_MAX {
        seqCounter := 0;
      }
      seqCounter := seqCounter + 1;
      n := seqCounter;
    }

    /** `accepted` is how many bytes the transmit callback reports written. */
    method SendFrame(kind: Byte, payload: seq<Byte>, accepted: int) returns (ok: bool)
      modifies this
      ensures |payload| > 512 ==> !ok && unchanged(this)
      ensures |payload| <= 512 ==>
                && seqCounter == NextSeq(old(seqCounter))
                && sent == old(sent) + FrameBytes(kind, seqCounter, payload)
                && (ok <==> accepted == 20 + |payload|)
    {
      if |payload| > TX_MAX_PAYLOAD {
        return false;
      }
      var buf := new Byte[20 + TX_MAX_PAYLOAD](_ => 0);
      var seqNo := NextSeqNo();
      BuildFrame(buf, kind, seqNo, payload);
      var total := 20 + |payload|;
      sent := sent + buf[..total];
      ok := accepted == total;
    }

    method SendSnapshot(snapshot: seq<Byte>, accepted: int) returns (ok: bool)
      modifies this
      ensures |snapshot| < 36 || |snapshot| > 512 ==> !ok && unchanged(this)
      ensures 36 <= |snapshot| <= 512 ==>
                && seqCounter == NextSeq(old(seqCounter))
                && sent == old(sent) + FrameBytes(1, seqCounter, snapshot)
                && (ok <==> accepted == 20 + |snapshot|)
    {
      if |snapshot| < 36 {
        return false;
      }
      ok := SendFrame(TYPE_SNAPSHOT, snapshot, accepted);
    }
  }

  method WriteHdr(buf: array<Byte>, h: FrameHdr)
    requires buf.Length >= 20
    modifies buf
    ensures buf[..20] == PutHdr(h)
    ensures forall k | 20 <= k < buf.Length :: buf[k] == old(buf[k])
  {
    for i := 0 to 4
      invariant buf[..i] == MAGIC[..i]
      invariant forall k | 4 <= k < buf.Length :: buf[k] == old(buf[k])
    {
      WriteByte(buf, i, MAGIC[i]);
    }
    WriteByte(buf, 4, h.version);
    WriteByte(buf, 5, h.kind);
    Write16(buf, 6, h.flags);
    WriteWords(buf, 8, [h.seqNo, h.len]);
    Write32(buf, 16, h.crc);
  }

  method BuildFrame(buf: array<Byte>, kind: Byte, seqNo: U32, payload: seq<Byte>)
    requires 20 + |payload| <= buf.Length && |payload| < TWO_32
    modifies buf
    ensures buf[..20 + |payload|] == FrameBytes(kind, seqNo, payload)
  {
    var h := FrameHdr(1, kind, 0, seqNo, |payload|, 0);
    WriteHdr(buf, h);
    WritePayload(buf, PutHdr(h), payload);
    assert buf[..20] == buf[..20 + |payload|][..20];
    assert buf[20..20 + |payload|] == buf[..20 + |payload|][20..];
    SealFrame(buf, h, payload);
  }

  method WritePayload(buf: array<Byte>, ghost hdr: seq<Byte>, payload: seq<Byte>)
    requires 20 + |payload| <= buf.Length && buf[..20] == hdr
    modifies buf
    ensures buf[..20 + |payload|] == hdr + payload
  {
    for i := 0 to |payload|
      invariant buf[..20 + i] == hdr + payload[..i]
    {
      WriteByte(buf, 20 + i, payload[i]);
    }
    assert payload[..|payload|] == payload;
  }

  /** Checksums the frame, whose checksum field is still zero, and stores the result in it. */
  method SealFrame(buf: array<Byte>, ghost h: FrameHdr, payload: seq<Byte>)
    requires h.crc == 0 && 20 + |payload| <= buf.Length
    requires buf[..20] == PutHdr(h) && buf[20..20 + |payload|] == payload
    modifies buf
    ensures buf[..20 + |payload|] == PutHdr(h.(crc := FrameChecksum(h, payload))) + payload
  {
    var crc := Update(buf[..20], SEED);
    crc := Update(buf[20..20 + |payload|], crc);
    Chaining(SEED, PutHdr(h), payload);
    XorWidth(crc, SEED);
    crc := Xor(crc, SEED);
    assert buf[..16] == buf[..20][..16] == PutLead(h);
    Write32(buf, 16, crc);
    assert buf[20..20 + |payload|] == payload;
    assert buf[..20 + |payload|] == buf[..20] + buf[20..20 + |payload|];
  }
}

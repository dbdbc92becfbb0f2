/** Little-endian stores into a byte buffer. */
module ByteWriter {
  import opened Words

  method Write16(dst: array<Byte>, at: nat, v: U16)
    requires at + 2 <= dst.Length
    modifies dst
    ensures dst[..at + 2] == old(dst[..at]) + Put16(v)
    ensures forall k | at + 2 <= k < dst.Length :: dst[k] == old(dst[k])
  {
    dst[at] := v % 256;
    dst[at + 1] := v / 0x100;
    assert dst[..at] == old(dst[..at]);
  }

  method Write32(dst: array<Byte>, at: nat, v: U32)
    requires at + 4 <= dst.Length
    modifies dst
    ensures dst[..at + 4] == old(dst[..at]) + Put32(v)
    ensures forall k | at + 4 <= k < dst.Length :: dst[k] == old(dst[k])
  {
    dst[at] := v % 256;
    dst[at + 1] := v / 0x100 % 256;
    dst[at + 2] := v / 0x1_0000 % 256;
    dst[at + 3] := v / 0x100_0000;
    assert dst[..at] == old(dst[..at]);
  }

  method Write64(dst: array<Byte>, at: nat, v: U64)
    requires at + 8 <= dst.Length
    modifies dst
    ensures dst[..at + 8] == old(dst[..at]) + Put64(v)
    ensures forall k | at + 8 <= k < dst.Length :: dst[k] == old(dst[k])
  {
    Write32(dst, at, v % TWO_32);
    Write32(dst, at + 4, v / TWO_32);
  }

  method WriteByte(dst: array<Byte>, at: nat, b: Byte)
    requires at < dst.Length
    modifies dst
    ensures dst[..at + 1] == old(dst[..at]) + [b]
    ensures forall k | at + 1 <= k < dst.Length :: dst[k] == old(dst[k])
  {
    dst[at] := b;
    assert dst[..at] == old(dst[..at]);
  }

  /** Stores consecutive 32-bit fields. */
  method WriteWords(dst: array<Byte>, at: nat, ws: seq<U32>)
    requires at + 4 * |ws| <= dst.Length
    modifies dst
    ensures dst[..at + 4 * |ws|] == old(dst[..at]) + PutWords(ws)
    ensures forall k | at + 4 * |ws| <= k < dst.Length :: dst[k] == old(dst[k])
  {
    for i := 0 to |ws|
      invariant dst[..at + 4 * i] == old(dst[..at]) + PutWords(ws[..i])
      invariant forall k | at + 4 * i <= k < dst.Length :: dst[k] == old(dst[k])
    {
      Write32(dst, at + 4 * i, ws[i]);
      PutWordsSnoc(ws[..i], ws[i]);
      assert ws[..i + 1] == ws[..i] + [ws[i]];
    }
    assert ws[..|ws|] == ws;
  }

  lemma {:induction false} PutWordsSnoc(ws: seq<U32>, w: U32)
    ensures PutWords(ws + [w]) == PutWords(ws) + Put32(w)
  {
    if ws == [] {
      assert ws + [w] == [w];
    } else {
      assert (ws + [w])[1..] == ws[1..] + [w];
      PutWordsSnoc(ws[1..], w);
    }
  }
}

/** Fixed-width unsigned values and their little-endian byte images. */
module Words {

  type Byte = b: int | 0 <= b < 256
  type U16 = v: int | 0 <= v < 0x1_0000
  type U32 = v: int | 0 <= v < 0x1_0000_0000
  type U64 = v: int | 0 <= v < 0x1_0000_0000_0000_0000

  const UINT32_MAX := 0xFFFF_FFFF
  const TWO_32 := 0x1_0000_0000

  // The writers store `(v >> 8 * k) & 0xFF` at offset k.

  function Put16(v: U16): (s: seq<Byte>)
    ensures |s| == 2
  {
    [v % 256, v / 256]
  }

  function Put32(v: U32): (s: seq<Byte>)
    ensures |s| == 4
  {
    [v % 256, v / 0x100 % 256, v / 0x1_0000 % 256, v / 0x100_0000]
  }

  function Put64(v: U64): (s: seq<Byte>)
    ensures |s| == 8
  {
    Put32(v % TWO_32) + Put32(v / TWO_32)
  }

  // The readers, applied at an offset of a longer buffer.

  function At(s: seq<Byte>, i: nat): (v: int)
    requires i < |s|
    ensures 0 <= v < 256
  {
    s[i]
  }

  function Get16(s: seq<Byte>, at: nat): U16
    requires at + 2 <= |s|
  {
    At(s, at) + 0x100 * At(s, at + 1)
  }

  function Get32(s: seq<Byte>, at: nat): U32
    requires at + 4 <= |s|
  {
    At(s, at) + 0x100 * At(s, at + 1) + 0x1_0000 * At(s, at + 2) + 0x100_0000 * At(s, at + 3)
  }

  function Get64(s: seq<Byte>, at: nat): U64
    requires at + 8 <= |s|
  {
    Get32(s, at) + TWO_32 * Get32(s, at + 4)
  }

  /** Consecutive 32-bit fields. */
  function PutWords(ws: seq<U32>): (s: seq<Byte>)
    ensures |s| == 4 * |ws|
  {
    if ws == [] then [] else Put32(ws[0]) + PutWords(ws[1..])
  }

  lemma Read16(v: U16)
    ensures Get16(Put16(v), 0) == v
  {
  }

  /** The byte order, by example: least significant byte first. */
  lemma LittleEndian()
    ensures Put16(0x0201) == [1, 2] && Put32(0x0403_0201) == [1, 2, 3, 4]
    ensures Put64(0x0807_0605_0403_0201) == [1, 2, 3, 4, 5, 6, 7, 8]
    ensures Get16([1, 2], 0) == 0x0201 && Get32([1, 2, 3, 4], 0) == 0x0403_0201
    ensures Get64([1, 2, 3, 4, 5, 6, 7, 8], 0) == 0x0807_0605_0403_0201
  {
  }

  lemma DivTwice(v: nat)
    ensures v / 0x1_0000 == v / 0x100 / 0x100 && v / 0x100_0000 == v / 0x100 / 0x100 / 0x100
  {
  }

  lemma Digit(b: Byte, rest: nat)
    ensures (b + 0x100 * rest) % 0x100 == b && (b + 0x100 * rest) / 0x100 == rest
  {
  }

  lemma Read32(v: U32)
    ensures Get32(Put32(v), 0) == v
  {
    DivTwice(v);
  }

  lemma Read64(c: U64)
    ensures Get64(Put64(c), 0) == c
  {
    Read32(c % TWO_32);
    Read32(c / TWO_32);
    Get32Of(Put32(c % TWO_32), Put32(c / TWO_32), []);
    Get32Of([], Put32(c % TWO_32), Put32(c / TWO_32));
    assert Put64(c) == [] + Put32(c % TWO_32) + Put32(c / TWO_32);
    assert Put64(c) == Put32(c % TWO_32) + Put32(c / TWO_32) + [];
  }

  /** Reading inside a concatenation reads the piece. */
  lemma Get32Of(pre: seq<Byte>, s: seq<Byte>, post: seq<Byte>)
    requires |s| == 4
    ensures Get32(pre + s + post, |pre|) == Get32(s, 0)
  {
    assert forall k :: 0 <= k < 4 ==> (pre + s + post)[|pre| + k] == s[k];
  }

  /** Writing back what was read restores the bytes. */
  lemma Written16(s: seq<Byte>, at: nat)
    requires at + 2 <= |s|
    ensures Put16(Get16(s, at)) == s[at..at + 2]
  {
  }

  lemma Written32(s: seq<Byte>, at: nat)
    requires at + 4 <= |s|
    ensures Put32(Get32(s, at)) == s[at..at + 4]
  {
    var a, b, c, d := At(s, at), At(s, at + 1), At(s, at + 2), At(s, at + 3);
    Digit(c, d);
    Digit(b, c + 0x100 * d);
    Digit(a, b + 0x100 * (c + 0x100 * d));
    var v := Get32(s, at);
    assert v == a + 0x100 * (b + 0x100 * (c + 0x100 * d));
    DivTwice(v);
    assert Put32(v) == [a, b, c, d];
  }

  lemma Written64(s: seq<Byte>, at: nat)
    requires at + 8 <= |s|
    ensures Put64(Get64(s, at)) == s[at..at + 8]
  {
    Written32(s, at);
    Written32(s, at + 4);
    var v := Get64(s, at);
    assert v % TWO_32 == Get32(s, at) && v / TWO_32 == Get32(s, at + 4);
    assert s[at..at + 8] == s[at..at + 4] + s[at + 4..at + 8];
  }

  lemma {:induction false} WordAt(ws: seq<U32>, i: nat, pre: seq<Byte>, post: seq<Byte>)
    requires i < |ws|
    ensures Get32(pre + PutWords(ws) + post, |pre| + 4 * i) == ws[i]
  {
    var rest := PutWords(ws[1..]);
    if i == 0 {
      Get32Of(pre, Put32(ws[0]), rest + post);
      Read32(ws[0]);
      assert pre + PutWords(ws) + post == pre + Put32(ws[0]) + (rest + post);
    } else {
      WordAt(ws[1..], i - 1, pre + Put32(ws[0]), post);
      assert pre + PutWords(ws) + post == pre + Put32(ws[0]) + rest + post;
    }
  }

  // ---- Powers of two ----

  function Pow2(n: nat): (p: nat)
    ensures p >= 1
  {
    if n == 0 then 1 else 2 * Pow2(n - 1)
  }

  lemma Pow2Facts()
    ensures Pow2(8) == 256 && Pow2(31) == 0x8000_0000 && Pow2(32) == TWO_32
  {
    assert Pow2(4) == 16;
    assert Pow2(8) == 256;
    assert Pow2(12) == 0x1000;
    assert Pow2(16) == 0x1_0000;
    assert Pow2(20) == 0x10_0000;
    assert Pow2(24) == 0x100_0000;
    assert Pow2(28) == 0x1000_0000;
    assert Pow2(32) == TWO_32;
  }

  lemma {:induction false} Pow2Monotone(m: nat, n: nat)
    requires m <= n
    ensures Pow2(m) <= Pow2(n)
    decreases n
  {
    if m < n { Pow2Monotone(m, n - 1); }
  }

  lemma Halves(r: nat, h: nat)
    requires r < 2
    ensures (r + 2 * h) % 2 == r && (r + 2 * h) / 2 == h
  {
  }

  /** Bitwise and of two unsigned integers. */
  function And(a: nat, b: nat): nat
    decreases a
  {
    if a == 0 then 0 else (if a % 2 == 1 && b % 2 == 1 then 1 else 0) + 2 * And(a / 2, b / 2)
  }

  lemma ModDouble(h: nat, m: nat)
    requires m > 0
    ensures h % (2 * m) == h % 2 + 2 * (h / 2 % m)
  {
    var q, r := h / 2 / m, h / 2 % m;
    assert h / 2 == q * m + r;
    assert h == q * (2 * m) + (h % 2 + 2 * r);
    ModUnique(h, 2 * m, q, h % 2 + 2 * r);
  }

  lemma AtLeastOne(a: int, n: nat)
    requires a >= 1
    ensures a * n >= n
  {
    assert a * n == (a - 1) * n + n;
  }

  lemma ModUnique(h: nat, n: nat, q: nat, r: nat)
    requires h == q * n + r && r < n
    ensures h % n == r
  {
    var q' := h / n;
    assert h == q' * n + h % n;
    assert (q' - q) * n == r - h % n && (q - q') * n == h % n - r;
    if q' > q {
      AtLeastOne(q' - q, n);
    } else if q' < q {
      AtLeastOne(q - q', n);
    }
  }

  lemma AndOdd(h: nat, m: nat)
    requires m > 0
    ensures And(h, 2 * m - 1) == h % 2 + 2 * And(h / 2, m - 1)
  {
    Halves(1, m - 1);
    assert 2 * m - 1 == 1 + 2 * (m - 1);
  }

  /** Masking with a power of two less one takes the remainder. */
  lemma {:induction false} MaskIsMod(h: nat, k: nat)
    ensures And(h, Pow2(k) - 1) == h % Pow2(k)
    decreases k
  {
    if k == 0 {
      AndZero(h);
    } else {
      ghost var m := Pow2(k - 1);
      MaskIsMod(h / 2, k - 1);
      calc {
        And(h, Pow2(k) - 1);
        { AndOdd(h, m); }
        h % 2 + 2 * (h / 2 % m);
        { ModDouble(h, m); }
        h % Pow2(k);
      }
    }
  }

  lemma {:induction false} AndZero(h: nat)
    ensures And(h, 0) == 0
  {
    if h > 0 { AndZero(h / 2); }
  }
}

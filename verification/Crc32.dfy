/** The reflected CRC-32 with polynomial 0xEDB88320 (section 3.2.9 of IEEE 802.3).
    Registers are unsigned integers: `c >> 1` is `c / 2`, `c & 1` is `c % 2`. */
module Crc32 {
  import opened Words

  const POLY: U32 := 0xEDB8_8320
  const SEED: U32 := 0xFFFF_FFFF

  type Bit = b: int | 0 <= b < 2

  /** Bitwise exclusive or of two unsigned integers. */
  function Xor(a: nat, b: nat): nat
    decreases a + b
  {
    if a == 0 && b == 0 then 0 else (a + b) % 2 + 2 * Xor(a / 2, b / 2)
  }

  /** One clock of the shift register. */
  function Clock(c: nat): nat {
    if c % 2 == 1 then Xor(c / 2, POLY) else c / 2
  }

  function Clocks(c: nat, n: nat): nat
    decreases n
  {
    if n == 0 then c else Clocks(Clock(c), n - 1)
  }

  // ---- Reference definition: the register fed one message bit at a time ----

  function Serial(c: nat, bits: seq<Bit>): nat
    decreases |bits|
  {
    if bits == [] then c else Serial(Clock(Xor(c, bits[0])), bits[1..])
  }

  /** The n low bits of v, least significant first. */
  function BitsOf(v: nat, n: nat): (s: seq<Bit>)
    ensures |s| == n
    decreases n
  {
    if n == 0 then [] else [v % 2] + BitsOf(v / 2, n - 1)
  }

  function Bits(data: seq<Byte>): (s: seq<Bit>)
    ensures |s| == 8 * |data|
  {
    if data == [] then [] else BitsOf(data[0], 8) + Bits(data[1..])
  }

  function Pack(bits: seq<Bit>): nat {
    if bits == [] then 0 else bits[0] + 2 * Pack(bits[1..])
  }

  /** The raw register after a message (no final inversion). */
  function Raw(seed: nat, data: seq<Byte>): nat {
    Serial(seed, Bits(data))
  }

  function Checksum(data: seq<Byte>): nat {
    Xor(Raw(SEED, data), SEED)
  }

  // ---- Exclusive or ----

  lemma XorParts(a: nat, b: nat)
    ensures Xor(a, b) % 2 == (a + b) % 2
    ensures Xor(a, b) / 2 == Xor(a / 2, b / 2)
  {
    Halves((a + b) % 2, Xor(a / 2, b / 2));
  }

  lemma {:induction false} XorZero(a: nat)
    ensures Xor(a, 0) == a && Xor(0, a) == a
  {
    if a > 0 { XorZero(a / 2); }
  }

  lemma SameHalves(x: nat, y: nat)
    requires x % 2 == y % 2 && x / 2 == y / 2
    ensures x == y
  {
  }

  lemma ParityOfSum(x: nat, a: nat, b: nat, c: nat)
    requires x % 2 == (a + b) % 2
    ensures (x + c) % 2 == (c + x) % 2 == (a + b + c) % 2
  {
  }

  /** The low bit of a three-fold exclusive or is the parity of the three low bits. */
  lemma XorParity(a: nat, b: nat, c: nat)
    ensures Xor(Xor(a, b), c) % 2 == (a + b + c) % 2
    ensures Xor(c, Xor(a, b)) % 2 == (a + b + c) % 2
  {
    XorParts(a, b);
    XorParts(Xor(a, b), c);
    XorParts(c, Xor(a, b));
    ParityOfSum(Xor(a, b), a, b, c);
  }

  lemma {:induction false} XorAssoc(a: nat, b: nat, c: nat)
    ensures Xor(Xor(a, b), c) == Xor(a, Xor(b, c))
    decreases a + b + c
  {
    if a + b + c > 0 {
      XorAssoc(a / 2, b / 2, c / 2);
      XorParity(a, b, c);
      XorParity(b, c, a);
      XorParts(a, b);
      XorParts(b, c);
      XorParts(Xor(a, b), c);
      XorParts(a, Xor(b, c));
      SameHalves(Xor(Xor(a, b), c), Xor(a, Xor(b, c)));
    }
  }

  lemma {:induction false} XorComm(a: nat, b: nat)
    ensures Xor(a, b) == Xor(b, a)
    decreases a + b
  {
    if a + b > 0 { XorComm(a / 2, b / 2); }
  }

  lemma {:induction false} XorSelf(a: nat)
    ensures Xor(a, a) == 0
  {
    if a > 0 { XorSelf(a / 2); }
  }

  lemma XorCancel(a: nat, b: nat, c: nat)
    requires Xor(a, c) == Xor(b, c)
    ensures a == b
  {
    XorAssoc(a, c, c);
    XorAssoc(b, c, c);
    XorSelf(c);
    XorZero(a);
    XorZero(b);
  }

  /** Below the top bit of b nothing can clear it. */
  lemma {:induction false} XorBounds(a: nat, b: nat, n: nat)
    requires a < Pow2(n)
    ensures b < Pow2(n) ==> Xor(a, b) < Pow2(n)
    ensures Pow2(n) <= b < Pow2(n + 1) ==> Pow2(n) <= Xor(a, b) < Pow2(n + 1)
    decreases n
  {
    if n > 0 {
      XorBounds(a / 2, b / 2, n - 1);
    } else {
      assert Pow2(1) == 2;
      XorZero(b);
    }
  }

  // ---- The clock is a bijection of 32-bit registers ----

  lemma ClockWidth(c: nat)
    requires c < TWO_32
    ensures Clock(c) < TWO_32
    ensures Clock(c) >= 0x8000_0000 <==> c % 2 == 1
  {
    Pow2Facts();
    XorBounds(c / 2, POLY, 31);
  }

  lemma ClockInjective(a: U32, b: U32)
    requires Clock(a) == Clock(b)
    ensures a == b
  {
    ClockWidth(a);
    ClockWidth(b);
    if a % 2 == 1 {
      XorCancel(a / 2, b / 2, POLY);
    }
  }

  lemma {:induction false} ClocksInjective(a: U32, b: U32, n: nat)
    requires Clocks(a, n) == Clocks(b, n)
    ensures a == b
    decreases n
  {
    if n > 0 {
      ClockWidth(a);
      ClockWidth(b);
      ClocksInjective(Clock(a), Clock(b), n - 1);
      ClockInjective(a, b);
    }
  }

  lemma XorWidth(a: U32, b: U32)
    ensures Xor(a, b) < TWO_32
  {
    Pow2Facts();
    XorBounds(a, b, 32);
  }

  lemma {:induction false} SerialWidth(c: U32, bits: seq<Bit>)
    ensures Serial(c, bits) < TWO_32
    decreases |bits|
  {
    if bits != [] {
      XorWidth(c, bits[0]);
      ClockWidth(Xor(c, bits[0]));
      SerialWidth(Clock(Xor(c, bits[0])), bits[1..]);
    }
  }

  lemma ChecksumWidth(data: seq<Byte>)
    ensures Checksum(data) < TWO_32
  {
    SerialWidth(SEED, Bits(data));
    XorWidth(Raw(SEED, data), SEED);
  }

  /** Two registers that differ stay different under the same message bits. */
  lemma {:induction false} SerialInjective(a: U32, b: U32, bits: seq<Bit>)
    requires Serial(a, bits) == Serial(b, bits)
    ensures a == b
    decreases |bits|
  {
    if bits != [] {
      XorWidth(a, bits[0]);
      XorWidth(b, bits[0]);
      ClockWidth(Xor(a, bits[0]));
      ClockWidth(Xor(b, bits[0]));
      SerialInjective(Clock(Xor(a, bits[0])), Clock(Xor(b, bits[0])), bits[1..]);
      ClockInjective(Xor(a, bits[0]), Xor(b, bits[0]));
      XorCancel(a, b, bits[0]);
    }
  }

  // ---- Feeding bits one by one is loading them at once ----

  lemma XorHalves(c: nat, b: Bit, p: nat)
    ensures Xor(c, b + 2 * p) / 2 == Xor(c / 2, p)
    ensures Xor(c, b + 2 * p) % 2 == (c + b) % 2
  {
    Halves(b, p);
    XorParts(c, b + 2 * p);
    assert c + (b + 2 * p) == c + b + 2 * p;
  }

  /** Everything above the bit shifted out just moves down. */
  lemma ClockLoad(c: nat, b: Bit, p: nat)
    ensures Clock(Xor(c, b + 2 * p)) == Xor(Clock(Xor(c, b)), p)
  {
    XorHalves(c, b, p);
    XorHalves(c, b, 0);
    XorZero(c / 2);
    XorAssoc(c / 2, p, POLY);
    XorComm(p, POLY);
    XorAssoc(c / 2, POLY, p);
  }

  /** Flipping the bit shifted out flips the feedback. */
  lemma ClockFlip(c: nat)
    ensures Clock(Xor(c, 1)) == Xor(Clock(c), POLY)
  {
    assert Xor(c, 1) % 2 != c % 2 && Xor(c, 1) / 2 == c / 2 by {
      XorParts(c, 1);
      XorZero(c / 2);
    }
    XorAssoc(c / 2, POLY, POLY);
    XorSelf(POLY);
    XorZero(c / 2);
  }

  lemma {:induction false} Load(c: nat, bits: seq<Bit>)
    ensures Serial(c, bits) == Clocks(Xor(c, Pack(bits)), |bits|)
    decreases |bits|
  {
    if bits == [] {
      XorZero(c);
    } else {
      ClockLoad(c, bits[0], Pack(bits[1..]));
      Load(Clock(Xor(c, bits[0])), bits[1..]);
    }
  }

  lemma {:induction false} PackBitsOf(v: nat, n: nat)
    requires v < Pow2(n)
    ensures Pack(BitsOf(v, n)) == v
    decreases n
  {
    if n > 0 { PackBitsOf(v / 2, n - 1); }
  }

  lemma {:induction false} PackWidth(bits: seq<Bit>)
    ensures Pack(bits) < Pow2(|bits|)
  {
    if bits != [] { PackWidth(bits[1..]); }
  }

  lemma {:induction false} PackInjective(x: seq<Bit>, y: seq<Bit>)
    requires |x| == |y| && Pack(x) == Pack(y)
    ensures x == y
    decreases |x|
  {
    if x != [] {
      PackInjective(x[1..], y[1..]);
      assert x == [x[0]] + x[1..] && y == [y[0]] + y[1..];
    }
  }

  /** XOR a whole byte in and clock eight times: what the inner loop does. */
  lemma ByteStep(c: nat, b: Byte)
    ensures Clocks(Xor(c, b), 8) == Serial(c, BitsOf(b, 8))
  {
    Pow2Facts();
    PackBitsOf(b, 8);
    Load(c, BitsOf(b, 8));
  }

  // ---- Chaining ----

  lemma {:induction false} SerialConcat(c: nat, x: seq<Bit>, y: seq<Bit>)
    ensures Serial(c, x + y) == Serial(Serial(c, x), y)
    decreases |x|
  {
    if x == [] {
      assert x + y == y;
    } else {
      assert (x + y)[1..] == x[1..] + y;
      SerialConcat(Clock(Xor(c, x[0])), x[1..], y);
    }
  }

  lemma {:induction false} BitsConcat(x: seq<Byte>, y: seq<Byte>)
    ensures Bits(x + y) == Bits(x) + Bits(y)
  {
    if x == [] {
      assert x + y == y;
    } else {
      assert (x + y)[1..] == x[1..] + y;
      BitsConcat(x[1..], y);
    }
  }

  /** Passing the raw result of one call as the seed of the next checksums the concatenation. */
  lemma Chaining(seed: nat, x: seq<Byte>, y: seq<Byte>)
    ensures Raw(Raw(seed, x), y) == Raw(seed, x + y)
  {
    BitsConcat(x, y);
    SerialConcat(seed, Bits(x), Bits(y));
  }

  // ---- Error detection ----

  /** x and y have one length and agree outside the bits [at, at + n). */
  ghost predicate DifferInWindow(x: seq<Bit>, y: seq<Bit>, at: nat, n: nat) {
    && |x| == |y|
    && at + n <= |x|
    && x[..at] == y[..at]
    && x[at + n..] == y[at + n..]
  }

  lemma SuffixWindow(x: seq<Bit>, u: seq<Bit>, v: seq<Bit>)
    requires |u| == |v|
    ensures DifferInWindow(x + u, x + v, |x|, |u|)
  {
  }

  lemma WindowDetected(seed: U32, x: seq<Bit>, y: seq<Bit>, at: nat, n: nat)
    requires DifferInWindow(x, y, at, n) && n <= 32 && x != y
    ensures Serial(seed, x) != Serial(seed, y)
  {
    var u, v, post := x[at..at + n], y[at..at + n], x[at + n..];
    assert x == x[..at] + u + post && y == x[..at] + v + post;
    var c := Serial(seed, x[..at]);
    SerialWidth(seed, x[..at]);
    SerialConcat(seed, x[..at], u);
    SerialConcat(seed, x[..at], v);
    SerialConcat(seed, x[..at] + u, post);
    SerialConcat(seed, x[..at] + v, post);
    SerialWidth(c, u);
    SerialWidth(c, v);
    if Serial(c, u) == Serial(c, v) {
      LoadInjective(c, u, v);
    } else if Serial(seed, x) == Serial(seed, y) {
      SerialInjective(Serial(c, u), Serial(c, v), post);
    }
  }

  lemma LoadInjective(c: U32, u: seq<Bit>, v: seq<Bit>)
    requires |u| == |v| <= 32 && Serial(c, u) == Serial(c, v)
    ensures u == v
  {
    Load(c, u);
    Load(c, v);
    Pow2Facts();
    Pow2Monotone(|u|, 32);
    PackWidth(u);
    PackWidth(v);
    XorWidth(c, Pack(u));
    XorWidth(c, Pack(v));
    ClocksInjective(Xor(c, Pack(u)), Xor(c, Pack(v)), |u|);
    XorComm(c, Pack(u));
    XorComm(c, Pack(v));
    XorCancel(Pack(u), Pack(v), c);
    PackInjective(u, v);
  }

  lemma BitsHead(x: seq<Byte>)
    requires x != []
    ensures Bits(x)[..8] == BitsOf(x[0], 8) && Bits(x)[8..] == Bits(x[1..])
    ensures Pack(Bits(x)[..8]) == x[0]
  {
    Pow2Facts();
    PackBitsOf(x[0], 8);
  }

  lemma {:induction false} BitsInjective(x: seq<Byte>, y: seq<Byte>)
    requires |x| == |y| && Bits(x) == Bits(y)
    ensures x == y
    decreases |x|
  {
    if x != [] {
      BitsHead(x);
      BitsHead(y);
      BitsInjective(x[1..], y[1..]);
      assert x == [x[0]] + x[1..] && y == [y[0]] + y[1..];
    }
  }

  /** Any corruption confined to 32 consecutive bits of a message changes its checksum. */
  lemma BurstDetected(x: seq<Byte>, y: seq<Byte>, at: nat, n: nat)
    requires x != y && DifferInWindow(Bits(x), Bits(y), at, n) && n <= 32
    ensures Checksum(x) != Checksum(y)
  {
    if Bits(x) == Bits(y) {
      BitsInjective(x, y);
    }
    WindowDetected(SEED, Bits(x), Bits(y), at, n);
    if Checksum(x) == Checksum(y) {
      XorCancel(Raw(SEED, x), Raw(SEED, y), SEED);
    }
  }

  /** The last byte of a message always matters. */
  lemma LastByteMatters(x: seq<Byte>, a: Byte, b: Byte)
    requires a != b
    ensures Checksum(x + [a]) != Checksum(x + [b])
  {
    BitsConcat(x, [a]);
    BitsConcat(x, [b]);
    SuffixWindow(Bits(x), Bits([a]), Bits([b]));
    assert (x + [a])[|x|] != (x + [b])[|x|];
    BurstDetected(x + [a], x + [b], |Bits(x)|, 8);
  }

  /** 32 is the exact bound: the 33 bits of the generator, in place of 33 zeros
      anywhere in a message, go unseen from every seed. */
  lemma BurstOf33Undetected(seed: U32, pre: seq<Bit>, post: seq<Bit>)
    ensures var x, y := pre + BitsOf(1 + 2 * POLY, 33) + post, pre + BitsOf(0, 33) + post;
            x != y && DifferInWindow(x, y, |pre|, 33) && Serial(seed, x) == Serial(seed, y)
  {
    var u, v := BitsOf(1 + 2 * POLY, 33), BitsOf(0, 33);
    var x, y := pre + u + post, pre + v + post;
    assert x[..|pre|] == pre == y[..|pre|] && x[|pre| + 33..] == post == y[|pre| + 33..];
    assert x[|pre|] == u[0] == 1 && y[|pre|] == v[0] == 0;
    var c := Serial(seed, pre);
    GeneratorVanishes(c);
    SerialConcat(seed, pre, u);
    SerialConcat(seed, pre, v);
    SerialConcat(seed, pre + u, post);
    SerialConcat(seed, pre + v, post);
  }

  lemma GeneratorVanishes(c: nat)
    ensures Serial(c, BitsOf(1 + 2 * POLY, 33)) == Serial(c, BitsOf(0, 33))
  {
    Pow2Facts();
    assert Pow2(33) == 2 * Pow2(32);
    PackBitsOf(1 + 2 * POLY, 33);
    PackBitsOf(0, 33);
    Load(c, BitsOf(1 + 2 * POLY, 33));
    Load(c, BitsOf(0, 33));
    ClockLoad(c, 1, POLY);
    ClockFlip(c);
    XorAssoc(Clock(c), POLY, POLY);
    XorSelf(POLY);
    XorZero(Clock(c));
    XorZero(c);
  }

  // ---- The table-free loops ----

  /** Raw update over a buffer; the tracker, the viewer and the Python decoder run these same loops. */
  method Update(data: seq<Byte>, seed: U32) returns (crc: U32)
    ensures crc == Raw(seed, data)
  {
    crc := seed;
    for i := 0 to |data|
      invariant crc == Raw(seed, data[..i])
    {
      crc := UpdateByte(data[i], crc);
      RawSnoc(seed, data, i);
    }
    assert data[..|data|] == data;
  }

  lemma RawSnoc(seed: nat, data: seq<Byte>, i: nat)
    requires i < |data|
    ensures Raw(seed, data[..i + 1]) == Raw(Raw(seed, data[..i]), [data[i]])
  {
    Chaining(seed, data[..i], [data[i]]);
    assert data[..i + 1] == data[..i] + [data[i]];
  }

  lemma BitsOfOne(b: Byte)
    ensures Bits([b]) == BitsOf(b, 8)
  {
  }

  /** The inner loop: one byte, eight clocks. */
  method UpdateByte(b: Byte, before: U32) returns (crc: U32)
    ensures crc == Raw(before, [b])
  {
    XorWidth(before, b);
    crc := Xor(before, b);
    for bit := 0 to 8
      invariant Clocks(crc, 8 - bit) == Clocks(Xor(before, b), 8)
    {
      ClockWidth(crc);
      if crc % 2 == 1 {
        crc := Xor(crc / 2, POLY);
      } else {
        crc := crc / 2;
      }
    }
    ByteStep(before, b);
    BitsOfOne(b);
  }

  /** One buffer, seeded, finally inverted. */
  method Full(data: seq<Byte>) returns (crc: U32)
    ensures crc == Checksum(data)
  {
    crc := Update(data, SEED);
    XorWidth(crc, SEED);
    crc := Xor(crc, SEED);
  }
}

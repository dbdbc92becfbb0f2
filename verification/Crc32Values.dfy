/** Which checksum it is: the residue and the generator of the standard, as numbers. */
module Crc32Values {
  import opened Words
  import opened Crc32

  lemma ClocksMore(c: nat, m: nat, n: nat)
    ensures Clocks(c, m + n) == Clocks(Clocks(c, m), n)
    decreases m
  {
    if m > 0 {
      ClocksMore(Clock(c), m - 1, n);
    }
  }

  lemma {:induction false} PackSplit(x: seq<Bit>, k: nat)
    requires k <= |x|
    ensures Pack(x) == Pack(x[..k]) + Pow2(k) * Pack(x[k..])
    decreases k
  {
    if k > 0 {
      PackSplit(x[1..], k - 1);
      assert x[1..][..k - 1] == x[..k][1..] && x[1..][k - 1..] == x[k..];
      Doubled(Pow2(k - 1), Pack(x[k..]));
    }
  }

  lemma Doubled(p: nat, q: nat)
    ensures 2 * p * q == 2 * (p * q)
  {
  }

  lemma PackBytes(data: seq<Byte>)
    requires data != []
    ensures Pack(Bits(data)) == data[0] + 256 * Pack(Bits(data[1..]))
  {
    BitsHead(data);
    PackSplit(Bits(data), 8);
    Pow2Facts();
  }

  /** Bytes in little-endian order load as the word they store. */
  lemma PackWord(v: U32)
    ensures Pack(Bits(Put32(v))) == v && |Bits(Put32(v))| == 32
  {
    var s := Put32(v);
    PackBytes(s);
    PackBytes(s[1..]);
    PackBytes(s[2..]);
    PackBytes(s[3..]);
    assert s[1..][1..] == s[2..] && s[2..][1..] == s[3..] && s[3..][1..] == [];
    Read32(v);
  }

  // A register as eight hexadecimal digits of four bits, most significant first, to clock one through by hand.

  datatype Nibble = Nibble(a: bool, b: bool, c: bool, d: bool)

  datatype Reg = Reg(
    n7: Nibble, n6: Nibble, n5: Nibble, n4: Nibble, n3: Nibble, n2: Nibble, n1: Nibble, n0: Nibble)

  const X0 := Nibble(false, false, false, false)
  const X1 := Nibble(false, false, false, true)
  const X2 := Nibble(false, false, true, false)
  const X3 := Nibble(false, false, true, true)
  const X4 := Nibble(false, true, false, false)
  const X5 := Nibble(false, true, false, true)
  const X6 := Nibble(false, true, true, false)
  const X7 := Nibble(false, true, true, true)
  const X8 := Nibble(true, false, false, false)
  const X9 := Nibble(true, false, false, true)
  const XA := Nibble(true, false, true, false)
  const XB := Nibble(true, false, true, true)
  const XC := Nibble(true, true, false, false)
  const XD := Nibble(true, true, false, true)
  const XE := Nibble(true, true, true, false)
  const XF := Nibble(true, true, true, true)

  function Int(b: bool): Bit {
    if b then 1 else 0
  }

  function Two(x: bool, y: bool): (v: nat)
    ensures v < 4
  {
    2 * Int(x) + Int(y)
  }

  function Val(n: Nibble): (v: nat)
    ensures v < 16
  {
    4 * Two(n.a, n.b) + Two(n.c, n.d)
  }

  function Half(x: Nibble, y: Nibble, z: Nibble, w: Nibble): nat {
    0x1000 * Val(x) + 0x100 * Val(y) + 0x10 * Val(z) + Val(w)
  }

  function Num(r: Reg): nat {
    0x1_0000 * Half(r.n7, r.n6, r.n5, r.n4) + Half(r.n3, r.n2, r.n1, r.n0)
  }

  /** A digit shifted right, with the bit that falls out of the digit above. */
  function Turn(above: Nibble, n: Nibble): Nibble {
    Nibble(above.d, n.a, n.b, n.c)
  }

  function Flip(x: Nibble, y: Nibble): Nibble {
    Nibble(x.a != y.a, x.b != y.b, x.c != y.c, x.d != y.d)
  }

  function Shifted(r: Reg): Reg {
    Reg(Turn(X0, r.n7), Turn(r.n7, r.n6), Turn(r.n6, r.n5), Turn(r.n5, r.n4),
        Turn(r.n4, r.n3), Turn(r.n3, r.n2), Turn(r.n2, r.n1), Turn(r.n1, r.n0))
  }

  function Flipped(r: Reg): Reg {
    Reg(Flip(r.n7, XE), Flip(r.n6, XD), Flip(r.n5, XB), Flip(r.n4, X8),
        Flip(r.n3, X8), Flip(r.n2, X3), Flip(r.n1, X2), Flip(r.n0, X0))
  }

  function ClockReg(r: Reg): Reg {
    if r.n0.d then Flipped(Shifted(r)) else Shifted(r)
  }

  /** Exclusive or with one more bit at the low end. */
  lemma XorBit(a: nat, b: nat, c: nat, x: bool, y: bool, a': nat, b': nat)
    requires Xor(a, b) == c && a' == 2 * a + Int(x) && b' == 2 * b + Int(y)
    ensures Xor(a', b') == 2 * c + Int(x != y)
  {
    Halves(Int(x), a);
    Halves(Int(y), b);
    SumParity(a, b, x, y, a' + b');
    XorParts(a', b');
    Halves(Int(x != y), c);
    SameHalves(Xor(a', b'), 2 * c + Int(x != y));
  }

  lemma SumParity(a: nat, b: nat, x: bool, y: bool, sum: nat)
    requires sum == 2 * a + Int(x) + 2 * b + Int(y)
    ensures sum % 2 == Int(x != y)
  {
    if x && y {
      Halves(0, a + b + 1);
    } else {
      Halves(Int(x) + Int(y), a + b);
    }
  }

  lemma XorPair(a: nat, b: nat, c: nat, x: bool, x': bool, y: bool, y': bool, a': nat, b': nat)
    requires Xor(a, b) == c && a' == 4 * a + Two(x, x') && b' == 4 * b + Two(y, y')
    ensures Xor(a', b') == 4 * c + Two(x != y, x' != y')
  {
    var a1, b1 := 2 * a + Int(x), 2 * b + Int(y);
    XorBit(a, b, c, x, y, a1, b1);
    XorBit(a1, b1, 2 * c + Int(x != y), x', y', a', b');
  }

  /** Two pairs of bits at once; the numbers u to w' stand for the pairs. */
  lemma XorPairs(a: nat, b: nat, c: nat, x: Nibble, y: Nibble, u: nat, v: nat, w: nat, a': nat, b': nat)
    requires Xor(a, b) == c && u == Two(x.a, x.b) && v == Two(y.a, y.b) && w == Two(x.a != y.a, x.b != y.b)
    requires a' == 4 * (4 * a + u) + Two(x.c, x.d) && b' == 4 * (4 * b + v) + Two(y.c, y.d)
    ensures Xor(a', b') == 4 * (4 * c + w) + Two(x.c != y.c, x.d != y.d)
  {
    XorPair(a, b, c, x.a, x.b, y.a, y.b, 4 * a + u, 4 * b + v);
    XorPair(4 * a + u, 4 * b + v, 4 * c + w, x.c, x.d, y.c, y.d, a', b');
  }

  lemma XorNibble(a: nat, b: nat, c: nat, x: Nibble, y: Nibble, a': nat, b': nat)
    requires Xor(a, b) == c && a' == 16 * a + Val(x) && b' == 16 * b + Val(y)
    ensures Xor(a', b') == 16 * c + Val(Flip(x, y))
  {
    var u, v, w := Two(x.a, x.b), Two(y.a, y.b), Two(x.a != y.a, x.b != y.b);
    assert a' == 4 * (4 * a + u) + Two(x.c, x.d);
    assert b' == 4 * (4 * b + v) + Two(y.c, y.d);
    XorPairs(a, b, c, x, y, u, v, w, a', b');
  }

  function FlipAll(r: Reg, p: Reg): Reg {
    Reg(Flip(r.n7, p.n7), Flip(r.n6, p.n6), Flip(r.n5, p.n5), Flip(r.n4, p.n4),
        Flip(r.n3, p.n3), Flip(r.n2, p.n2), Flip(r.n1, p.n1), Flip(r.n0, p.n0))
  }

  lemma XorByte(a: nat, b: nat, c: nat, x: Nibble, x': Nibble, y: Nibble, y': Nibble, a': nat, b': nat)
    requires Xor(a, b) == c && a' == 256 * a + 16 * Val(x) + Val(x') && b' == 256 * b + 16 * Val(y) + Val(y')
    ensures Xor(a', b') == 256 * c + 16 * Val(Flip(x, y)) + Val(Flip(x', y'))
  {
    var a1, b1 := 16 * a + Val(x), 16 * b + Val(y);
    XorNibble(a, b, c, x, y, a1, b1);
    XorNibble(a1, b1, 16 * c + Val(Flip(x, y)), x', y', a', b');
  }

  /** Exclusive or with four digits more. */
  lemma XorFour(a: nat, b: nat, c: nat, x: Reg, y: Reg, a': nat, b': nat)
    requires Xor(a, b) == c && a' == 0x1_0000 * a + Low(x) && b' == 0x1_0000 * b + Low(y)
    ensures Xor(a', b') == 0x1_0000 * c + Low(FlipAll(x, y))
  {
    var a1, b1 := 256 * a + 16 * Val(x.n3) + Val(x.n2), 256 * b + 16 * Val(y.n3) + Val(y.n2);
    var c1 := 256 * c + 16 * Val(Flip(x.n3, y.n3)) + Val(Flip(x.n2, y.n2));
    XorByte(a, b, c, x.n3, x.n2, y.n3, y.n2, a1, b1);
    XorByte(a1, b1, c1, x.n1, x.n0, y.n1, y.n0, a', b');
  }

  function Low(r: Reg): nat {
    Half(r.n3, r.n2, r.n1, r.n0)
  }

  function Upper(r: Reg): Reg {
    Reg(X0, X0, X0, X0, r.n7, r.n6, r.n5, r.n4)
  }

  lemma UpperXor(r: Reg, p: Reg, a: nat, b: nat)
    requires a == Low(Upper(r)) && b == Low(Upper(p))
    ensures Xor(a, b) == Low(FlipAll(Upper(r), Upper(p)))
  {
    XorZero(0);
    XorFour(0, 0, 0, Upper(r), Upper(p), a, b);
  }

  lemma FlipAllIs(r: Reg, p: Reg, a: nat, b: nat)
    requires a == Num(r) && b == Num(p)
    ensures Xor(a, b) == Num(FlipAll(r, p))
  {
    UpperXor(r, p, Low(Upper(r)), Low(Upper(p)));
    XorFour(Low(Upper(r)), Low(Upper(p)), Low(FlipAll(Upper(r), Upper(p))), r, p, a, b);
  }

  lemma PolyReg(p: Reg)
    requires p == Reg(XE, XD, XB, X8, X8, X3, X2, X0)
    ensures Num(p) == POLY
  {
  }

  lemma FlippedIs(r: Reg, p: Reg, a: nat, b: nat)
    requires p == Reg(XE, XD, XB, X8, X8, X3, X2, X0) && a == Num(r) && b == Num(p)
    ensures Xor(a, b) == Num(Flipped(r))
  {
    FlipAllIs(r, p, a, b);
    FlippedAll(r, p);
  }

  lemma FlippedAll(r: Reg, p: Reg)
    requires p == Reg(XE, XD, XB, X8, X8, X3, X2, X0)
    ensures FlipAll(r, p) == Flipped(r)
  {
  }

  lemma TurnIs(above: Nibble, n: Nibble)
    ensures 2 * Val(Turn(above, n)) + Int(n.d) == 16 * Int(above.d) + Val(n)
  {
  }

  lemma ShiftedIs(r: Reg)
    ensures Num(Shifted(r)) == Num(r) / 2 && Num(r) % 2 == Int(r.n0.d)
  {
    TurnIs(X0, r.n7);
    TurnIs(r.n7, r.n6);
    TurnIs(r.n6, r.n5);
    TurnIs(r.n5, r.n4);
    TurnIs(r.n4, r.n3);
    TurnIs(r.n3, r.n2);
    TurnIs(r.n2, r.n1);
    TurnIs(r.n1, r.n0);
    assert 2 * Num(Shifted(r)) + Int(r.n0.d) == Num(r);
  }

  lemma ClockOdd(c: nat, h: nat, v: nat)
    requires c % 2 == 1 && c / 2 == h && Xor(h, POLY) == v
    ensures Clock(c) == v
  {
  }

  lemma ShiftedXor(r: Reg, h: nat)
    requires h == Num(Shifted(r))
    ensures Xor(h, POLY) == Num(Flipped(Shifted(r)))
  {
    var p := Reg(XE, XD, XB, X8, X8, X3, X2, X0);
    PolyReg(p);
    FlippedIs(Shifted(r), p, h, POLY);
  }

  lemma ClockRegIs(r: Reg, c: nat)
    requires c == Num(r)
    ensures Clock(c) == Num(ClockReg(r))
  {
    ShiftedIs(r);
    if r.n0.d {
      ShiftedXor(r, c / 2);
      ClockOdd(c, c / 2, Num(Flipped(Shifted(r))));
    }
  }

  function ClocksReg(r: Reg, n: nat): Reg
    decreases n
  {
    if n == 0 then r else ClocksReg(ClockReg(r), n - 1)
  }

  lemma {:induction false} ClocksRegIs(r: Reg, c: nat, n: nat)
    requires c == Num(r)
    ensures Clocks(c, n) == Num(ClocksReg(r, n))
    decreases n
  {
    if n > 0 {
      ClockRegIs(r, c);
      ClocksRegIs(ClockReg(r), Clock(c), n - 1);
    }
  }

  /** Eight clocks at once. */
  function EightMore(r: Reg): Reg {
    ClockReg(ClockReg(ClockReg(ClockReg(ClockReg(ClockReg(ClockReg(ClockReg(r))))))))
  }

  lemma EightClocked(r: Reg, n: nat)
    requires n >= 8
    ensures ClocksReg(r, n) == ClocksReg(EightMore(r), n - 8)
  {
    FourClocked(r, n);
    FourClocked(ClockReg(ClockReg(ClockReg(ClockReg(r)))), n - 4);
  }

  lemma FourClocked(r: Reg, n: nat)
    requires n >= 4
    ensures ClocksReg(r, n) == ClocksReg(ClockReg(ClockReg(ClockReg(ClockReg(r)))), n - 4)
  {
    var r1 := ClockReg(r);
    var r2 := ClockReg(r1);
    var r3 := ClockReg(r2);
    assert ClocksReg(r, n) == ClocksReg(r1, n - 1);
    assert ClocksReg(r1, n - 1) == ClocksReg(r2, n - 2);
    assert ClocksReg(r2, n - 2) == ClocksReg(r3, n - 3);
    assert ClocksReg(r3, n - 3) == ClocksReg(ClockReg(r3), n - 4);
  }

  lemma SeedRegister(r: Reg)
    requires r == Reg(XF, XF, XF, XF, XF, XF, XF, XF)
    ensures EightMore(EightMore(EightMore(EightMore(r)))) == Reg(XD, XE, XB, XB, X2, X0, XE, X3)
  {
    assert EightMore(r) == Reg(X2, XD, XF, XD, X1, X0, X7, X2);
    assert EightMore(EightMore(r)) == Reg(XB, XE, X2, X6, XE, XD, X0, X0);
    assert EightMore(EightMore(EightMore(r))) == Reg(X0, X0, XB, XE, X2, X6, XE, XD);
  }

  lemma ThirtyTwo(r: Reg, n: nat)
    requires n == 32
    ensures ClocksReg(r, n) == EightMore(EightMore(EightMore(EightMore(r))))
  {
    EightClocked(r, n);
    EightClocked(EightMore(r), n - 8);
    EightClocked(EightMore(EightMore(r)), n - 16);
    EightClocked(EightMore(EightMore(EightMore(r))), n - 24);
  }

  lemma SeedClocked(c: nat, n: nat)
    requires c == 0xFFFF_FFFF && n == 32
    ensures Clocks(c, n) == 0xDEBB_20E3
  {
    var r, q := Reg(XF, XF, XF, XF, XF, XF, XF, XF), Reg(XD, XE, XB, XB, X2, X0, XE, X3);
    SeedNum(r, q);
    SeedRegister(r);
    ThirtyTwo(r, n);
    ClocksRegIs(r, c, n);
  }

  lemma SeedNum(r: Reg, q: Reg)
    requires r == Reg(XF, XF, XF, XF, XF, XF, XF, XF) && q == Reg(XD, XE, XB, XB, X2, X0, XE, X3)
    ensures Num(r) == 0xFFFF_FFFF && Num(q) == 0xDEBB_20E3
  {
  }

  /** The residue of the standard: every message followed by its own checksum in little-endian order leaves the
      register at one constant. */
  lemma Residue(x: seq<Byte>)
    ensures Checksum(x) < 0x1_0000_0000
    ensures Raw(0xFFFF_FFFF, x + Put32(Checksum(x))) == 0xDEBB_20E3
  {
    ChecksumWidth(x);
    var r, c := Raw(SEED, x), Checksum(x);
    Chaining(SEED, x, Put32(c));
    Load(r, Bits(Put32(c)));
    PackWord(c);
    XorAssoc(r, r, SEED);
    XorSelf(r);
    XorZero(SEED);
    SeedClocked(SEED, 32);
  }

  /** One byte, from a zero register: the generator itself. */
  lemma GeneratorSeen()
    ensures Raw(0, [0x80]) == 0xEDB8_8320
  {
    ByteStep(0, 0x80);
    BitsOfOne(0x80);
    XorZero(0x80);
    EightClocks(0x80, 8);
  }

  lemma TopBit(r: Reg, p: Reg)
    requires r == Reg(X0, X0, X0, X0, X0, X0, X8, X0) && p == Reg(XE, XD, XB, X8, X8, X3, X2, X0)
    ensures EightMore(r) == p
  {
    assert ClockReg(ClockReg(ClockReg(ClockReg(r)))) == Reg(X0, X0, X0, X0, X0, X0, X0, X8);
  }

  lemma TopBitNum(r: Reg)
    requires r == Reg(X0, X0, X0, X0, X0, X0, X8, X0)
    ensures Num(r) == 0x80
  {
  }

  lemma EightClocks(c: nat, n: nat)
    requires c == 0x80 && n == 8
    ensures Clocks(c, n) == 0xEDB8_8320
  {
    var r := Reg(X0, X0, X0, X0, X0, X0, X8, X0);
    var p := Reg(XE, XD, XB, X8, X8, X3, X2, X0);
    TopBit(r, p);
    TopBitNum(r);
    PolyReg(p);
    EightClocked(r, n);
    ClocksRegIs(r, c, n);
  }
}

/** Fixed-point heap fragmentation, and its packing into one word. */
module Fragmentation {
  import opened Words

  datatype Health = Ok | Warn | Critical | NotAvailable

  const FRAG_OK_MAX := 200
  const FRAG_WARN_MAX := 500

  /** largest * 1000 / total in 32-bit arithmetic: the product may wrap, the quotient stays below 1000. */
  function Ratio(totalFree: U32, largestFree: U32): (q: nat)
    requires largestFree < totalFree
    ensures q < 1000
  {
    RatioBelow(largestFree * 1000, totalFree);
    (largestFree * 1000) % TWO_32 / totalFree
  }

  lemma RatioBelow(product: nat, total: nat)
    requires total > 0 && product < 1000 * total
    ensures product % TWO_32 / total < 1000
  {
    var x := product % TWO_32;
    assert x <= product;
    DivBelow(x, total, 1000);
  }

  /** Permille, wrapped product or not. */
  function Calc(totalFree: U32, largestFree: U32): (permille: U16)
    ensures permille <= 1000
    ensures permille == 0 <==> totalFree == 0 || largestFree >= totalFree
  {
    if totalFree == 0 then 0
    else if largestFree >= totalFree then 0
    else 1000 - Ratio(totalFree, largestFree)
  }

  lemma DivBelow(x: nat, d: nat, q: nat)
    requires d > 0 && x < q * d
    ensures x / d < q
  {
    if x / d >= q {
      MulMono(q, x / d, d);
    }
  }

  lemma MulMono(a: nat, b: nat, c: nat)
    requires a <= b
    ensures a * c <= b * c
  {
    assert b * c == a * c + (b - a) * c;
  }

  /** The documented ratio, without a word size. */
  function Exact(totalFree: nat, largestFree: nat): int {
    if totalFree == 0 || largestFree >= totalFree then 0 else 1000 - largestFree * 1000 / totalFree
  }

  lemma DropOne(x: nat, d: nat, k: nat)
    requires d > 0 && x >= k && k >= d
    ensures (x - k) / d < x / d
  {
    var q := x / d;
    assert x == q * d + x % d;
    DivBelow(x - k, d, q);
  }

  lemma WrapLoses(x: nat, d: nat)
    requires 0 < d < TWO_32 <= x
    ensures x % TWO_32 / d < x / d
  {
    var k := x - x % TWO_32;
    assert x == x / TWO_32 * TWO_32 + x % TWO_32;
    DropOne(x, d, k);
  }

  /** The computed permille is the documented one exactly when the product fits 32 bits or is not formed. */
  lemma CalcExactIff(totalFree: U32, largestFree: U32)
    ensures Calc(totalFree, largestFree) == Exact(totalFree, largestFree) <==>
            totalFree == 0 || largestFree >= totalFree || largestFree * 1000 < TWO_32
  {
    if totalFree > 0 && largestFree < totalFree {
      var x := largestFree * 1000;
      if x < TWO_32 {
        assert x % TWO_32 == x;
      } else {
        WrapLoses(x, totalFree);
      }
    }
  }

  lemma DivMono(x: nat, y: nat, d: nat)
    requires d > 0 && x <= y
    ensures x / d <= y / d
  {
    assert y == y / d * d + y % d;
    if x / d > y / d {
      MulMono(y / d + 1, x / d, d);
    }
  }

  /** A larger largest block never means more fragmentation, while its product fits or is not formed. */
  lemma CalcAntitone(totalFree: U32, small: U32, large: U32)
    requires small <= large && (large * 1000 < TWO_32 || large >= totalFree)
    ensures Calc(totalFree, large) <= Calc(totalFree, small)
  {
    if totalFree > 0 && large < totalFree {
      var x, y := small * 1000, large * 1000;
      DivMono(x, y, totalFree);
      var q, r := x / totalFree, y / totalFree;
      assert x % TWO_32 == x && y % TWO_32 == y;
      assert Calc(totalFree, small) == 1000 - q && Calc(totalFree, large) == 1000 - r;
    }
  }

  /** Every product is a multiple of 8 short of 2^32, so a total within 8 of 2^32 divides every one to zero. */
  lemma HugeTotal(totalFree: U32, largestFree: U32)
    requires totalFree > 4294967288
    ensures Calc(totalFree, largestFree) == if largestFree < totalFree then 1000 else 0
  {
    EightsCut(125 * largestFree);
    DivBelow(largestFree * 1000 % TWO_32, totalFree, 1);
  }

  lemma EightsCut(y: nat)
    ensures (8 * y) % TWO_32 <= 4294967288
  {
    var q := 8 * y / TWO_32;
    var m := y - q * 0x2000_0000;
    assert (8 * y) % TWO_32 == 8 * m;
  }

  /** A pair of neighbours whose larger one reads as more fragmented. */
  lemma Inversion(totalFree: U32) returns (small: U32)
    requires 4294968 < totalFree <= 4294967288
    ensures small < UINT32_MAX && Calc(totalFree, small + 1) > Calc(totalFree, small)
  {
    small := if totalFree <= 4294967000 then 4294967 else 420906795;
    var low, high := small * 1000 % TWO_32, (small + 1) * 1000 % TWO_32;
    DivBelow(high, totalFree, 1);
    DivMono(totalFree, low, totalFree);
  }

  /** For a given total, more in one piece never reads as more fragmented exactly when the total is small
      enough for every product to fit 32 bits, or so large that every quotient is zero. */
  lemma CalcAntitoneIff(totalFree: U32)
    ensures (forall small: U32, large: U32 :: small <= large ==> Calc(totalFree, large) <= Calc(totalFree, small))
            <==> totalFree <= 4294968 || totalFree > 4294967288
  {
    if totalFree <= 4294968 || totalFree > 4294967288 {
      forall small: U32, large: U32 | small <= large
        ensures Calc(totalFree, large) <= Calc(totalFree, small)
      {
        if totalFree <= 4294968 {
          CalcAntitone(totalFree, small, large);
        } else {
          HugeTotal(totalFree, small);
          HugeTotal(totalFree, large);
        }
      }
    } else {
      var small := Inversion(totalFree);
      var large: U32 := small + 1;
      assert small <= large;
    }
  }

  /** Beyond that it may: a product just past the word reads as no large free block at all. */
  lemma CalcWrapExample()
    ensures Calc(5000000, 4294967) == 142 && Calc(5000000, 4294968) == 1000 && Exact(5000000, 4294968) == 142
  {
  }

  function Classify(permille: U16, available: bool): Health {
    if !available then NotAvailable
    else if permille < FRAG_OK_MAX then Ok
    else if permille < FRAG_WARN_MAX then Warn
    else Critical
  }

  function HealthCode(h: Health): nat {
    match h case Ok => 0 case Warn => 1 case Critical => 2 case NotAvailable => 3
  }

  /** Permille in bits 0..15, health in 16..17, availability in bit 19: the fields do not overlap, so or-ing adds. */
  function Pack(permille: U16, h: Health, available: bool): U32 {
    permille % 0x1_0000 + HealthCode(h) % 4 * 0x1_0000 + if available then 0x8_0000 else 0
  }

  function HealthOf(packed: U32): nat {
    packed / 0x1_0000 % 4
  }

  function PermilleOf(packed: U32): U16 {
    packed % 0x1_0000
  }

  function AvailableOf(packed: U32): nat {
    packed / 0x8_0000 % 2
  }

  /** Unpacking recovers every field. */
  lemma UnpackPacked(permille: U16, h: Health, available: bool)
    ensures var p := Pack(permille, h, available);
            && PermilleOf(p) == permille && HealthOf(p) == HealthCode(h)
            && AvailableOf(p) == if available then 1 else 0
  {
  }

  /** `walk` is the platform's heap walk, if it has one: total and largest free bytes. */
  method GetFragmentation(walk: bool, walkTotal: U32, walkLargest: U32)
    returns (packed: U32, totalFree: U32, largestFree: U32)
    ensures AvailableOf(packed) == if walk then 1 else 0
    ensures !walk ==> totalFree == largestFree == 0 && PermilleOf(packed) == 0 && HealthOf(packed) == 3
    ensures packed == PermilleOf(packed) + 0x1_0000 * HealthOf(packed) + 0x8_0000 * AvailableOf(packed)
    ensures walk ==>
              && totalFree == walkTotal && largestFree == walkLargest
              && PermilleOf(packed) == Calc(walkTotal, walkLargest) <= 1000
              && (HealthOf(packed) == 0 <==> PermilleOf(packed) < 200)
              && (HealthOf(packed) == 1 <==> 200 <= PermilleOf(packed) < 500)
              && (HealthOf(packed) == 2 <==> 500 <= PermilleOf(packed))
  {
    totalFree, largestFree := 0, 0;
    var health, permille := NotAvailable, 0;
    if walk {
      totalFree := walkTotal;
      largestFree := walkLargest;
      permille := Calc(totalFree, largestFree);
      health := Classify(permille, true);
    }
    packed := Pack(permille, health, walk);
    UnpackPacked(permille, health, walk);
  }
}

/**
 The CRC as the remainder of a division of polynomials over two elements: bit i of a number
 stands for a power that falls as i grows, so that data enters with its lowest bit first and
 a remainder is what is left above the bits of the data (section 8 of RFC 1952).
 */
module CrcDivision {
  import opened Bytes
  import opened Crc32

  /** The generator, all 33 bits of it. */
  const GENERATOR: nat := 0x1_DB71_0641

  /** The number of the polynomial with these powers, each at most 32. */
  function FromPowers(powers: seq<nat>): nat {
    if powers == [] then 0
    else (if powers[0] <= 32 then Pow2(32 - powers[0]) else 0) + FromPowers(powers[1..])
  }

  /** It is the CRC-32 polynomial. */
  lemma GeneratorPowers()
    ensures GENERATOR == FromPowers([32, 26, 23, 22, 16, 12, 11, 10, 8, 7, 5, 4, 2, 1, 0])
  {
    hide Pow2;
    LowPowers();
    HighPowers();
    assert FromPowers([8, 7, 5, 4, 2, 1, 0]) ==
      Pow2(24) + Pow2(25) + Pow2(27) + Pow2(28) + Pow2(30) + Pow2(31) + Pow2(32);
  }

  lemma LowPowers()
    ensures Pow2(0) == 1 && Pow2(6) == 0x40 && Pow2(9) == 0x200 && Pow2(10) == 0x400 && Pow2(16) == 0x1_0000
    ensures Pow2(20) == 0x10_0000 && Pow2(21) == 0x20_0000 && Pow2(22) == 0x40_0000
  {
  }

  lemma HighPowers()
    ensures Pow2(24) == 0x100_0000 && Pow2(25) == 0x200_0000 && Pow2(27) == 0x800_0000 && Pow2(28) == 0x1000_0000
    ensures Pow2(30) == 0x4000_0000 && Pow2(31) == 0x8000_0000 && Pow2(32) == 0x1_0000_0000
  {
    Pow2Of32();
    assert Pow2(16) == 0x1_0000;
    assert Pow2(24) == 0x100_0000;
  }

  /** The product of the generator and another polynomial. */
  function Times(q: nat): nat {
    if q == 0 then 0 else Xor(if q % 2 == 1 then GENERATOR else 0, 2 * Times(q / 2))
  }

  lemma TimesStep(q: nat, odd: bool)
    ensures var n: nat := 2 * q + (if odd then 1 else 0);
      Times(n) == Xor(if odd then GENERATOR else 0, 2 * Times(q))
  {
    var n: nat := 2 * q + (if odd then 1 else 0);
    assert n / 2 == q;
    if n == 0 {
      XorZero(0);
    }
  }

  lemma XorDouble(a: nat, b: nat)
    ensures Xor(2 * a, 2 * b) == 2 * Xor(a, b)
  {
    XorStep(2 * a, 2 * b);
  }

  /** (a + b) + (c + d) == (a + c) + (b + d) */
  lemma XorSwap(a: nat, b: nat, c: nat, d: nat)
    ensures Xor(Xor(a, b), Xor(c, d)) == Xor(Xor(a, c), Xor(b, d))
  {
    XorAssociative(a, b, Xor(c, d));
    XorAssociative(b, c, d);
    XorCommutative(b, c);
    XorAssociative(c, b, d);
    XorAssociative(a, c, Xor(b, d));
  }

  lemma {:induction false} TimesXor(a: nat, b: nat)
    ensures Times(Xor(a, b)) == Xor(Times(a), Times(b))
    decreases a + b
  {
    hide Xor, Times;
    if a + b == 0 {
      XorZero(0);
      NothingTimes();
    } else {
      TimesXor(a / 2, b / 2);
      TimesSplit(a);
      TimesSplit(b);
      TimesSplit(Xor(a, b));
      XorStep(a, b);
      XorDouble(Times(a / 2), Times(b / 2));
      XorSwap(Low(a), 2 * Times(a / 2), Low(b), 2 * Times(b / 2));
      LowXor(a, b);
    }
  }

  function Low(q: nat): nat {
    if q % 2 == 1 then GENERATOR else 0
  }

  lemma NothingTimes()
    ensures Times(0) == 0
  {
  }

  lemma TimesSplit(q: nat)
    ensures Times(q) == Xor(Low(q), 2 * Times(q / 2))
  {
    TimesStep(q / 2, q % 2 == 1);
  }

  lemma LowXor(a: nat, b: nat)
    ensures Low(Xor(a, b)) == Xor(Low(a), Low(b))
  {
    hide Xor;
    XorStep(a, b);
    XorZero(GENERATOR);
    XorZero(0);
    XorSelf(GENERATOR);
  }

  lemma {:induction false} TimesShl(q: nat, k: nat)
    ensures Times(Shl(q, k)) == Shl(Times(q), k)
  {
    hide Xor, Times;
    if k > 0 {
      TimesShl(q, k - 1);
      TimesStep(Shl(q, k - 1), false);
      XorZero(2 * Times(Shl(q, k - 1)));
    }
  }

  lemma {:induction false} ShlXor(a: nat, b: nat, k: nat)
    ensures Shl(Xor(a, b), k) == Xor(Shl(a, k), Shl(b, k))
  {
    hide Xor;
    if k > 0 {
      ShlXor(a, b, k - 1);
      XorDouble(Shl(a, k - 1), Shl(b, k - 1));
    }
  }

  // ---- Steps of the register ----

  /** q divides v up to the remainder r above k bits. */
  predicate Divides(v: nat, q: nat, r: nat, k: nat) {
    q < Pow2(k) && Xor(v, Times(q)) == Shl(r, k)
  }

  /** One turn of the bit loop takes the generator off when the lowest bit is set. */
  lemma StepDivides(x: u32)
    ensures 2 * ShiftStep(x) == Xor(x, Low(x))
  {
    XorStep(x, Low(x));
    XorZero(x);
    XorZero(x / 2);
    assert GENERATOR / 2 == POLYNOMIAL;
  }

  lemma {:induction false} StepsDivide(x: u32, n: nat) returns (q: nat)
    ensures Divides(x, q, ShiftSteps(x, n), n)
    decreases n
  {
    hide Xor, Times, ShiftStep;
    if n == 0 {
      q := 0;
      NothingTimes();
      XorZero(x);
    } else {
      var y := ShiftStep(x);
      var p := StepsDivide(y, n - 1);
      OneStep(x);
      ShiftStepsAdd(x, 1, n - 1);
      StepDivides(x);
      q := 2 * p + (if x % 2 == 1 then 1 else 0);
      TimesStep(p, x % 2 == 1);
      XorDouble(y, Times(p));
      XorAssociative(x, Low(x), 2 * Times(p));
    }
  }

  lemma OneStep(x: u32)
    ensures ShiftSteps(x, 1) == ShiftStep(x)
  {
    assert ShiftSteps(x, 0) == x;
  }

  // ---- Whole blocks ----

  lemma {:induction false} ShlAdd(a: nat, j: nat, k: nat)
    ensures Shl(Shl(a, j), k) == Shl(a, j + k)
  {
    if k > 0 {
      ShlAdd(a, j, k - 1);
    }
  }

  lemma {:induction false} ShlBound(a: nat, j: nat, k: nat)
    requires a < Pow2(j)
    ensures Shl(a, k) < Pow2(j + k)
  {
    if k > 0 {
      ShlBound(a, j, k - 1);
    }
  }

  lemma {:induction false} UpdateDivides(crc: u32, data: seq<byte>) returns (q: nat)
    ensures Divides(Xor(crc, LeValue(data)), q, CrcUpdate(crc, data), 8 * |data|)
    decreases |data|
  {
    hide Xor, Times, Shl, LeValue, CrcUpdate, ShiftSteps;
    if data == [] {
      q := 0;
      NothingAbsorbed(crc);
    } else {
      var b, rest := data[0], data[1..];
      var p1 := StepsDivide(Xor32(crc, b), 8);
      var p2 := UpdateDivides(CrcByte(crc, b), rest);
      CrcUpdateHead(crc, data);
      q := Xor(p1, Shl(p2, 8));
      BlockStep(crc, b, LeValue(rest), p1, p2, CrcByte(crc, b), CrcUpdate(crc, data), 8 * |rest|);
      LeHead(data);
    }
  }

  lemma NothingAbsorbed(crc: u32)
    ensures Divides(Xor(crc, LeValue([])), 0, CrcUpdate(crc, []), 0)
  {
    XorZero(crc);
  }

  lemma LeHead(data: seq<byte>)
    requires data != []
    ensures LeValue(data) == Xor(data[0], Shl(LeValue(data[1..]), 8))
  {
    ShlByte(LeValue(data[1..]));
    assert Pow2(8) == 0x100;
    XorDisjoint(data[0], LeValue(data[1..]), 8);
  }

  lemma BlockStep(crc: u32, b: byte, v: nat, p1: nat, p2: nat, middle: nat, r: nat, k: nat)
    requires Divides(Xor(crc, b), p1, middle, 8) && Divides(Xor(middle, v), p2, r, k)
    ensures Divides(Xor(crc, Xor(b, Shl(v, 8))), Xor(p1, Shl(p2, 8)), r, 8 + k)
  {
    hide Xor, Times, Shl, Pow2;
    var q := Xor(p1, Shl(p2, 8));
    TimesXor(p1, Shl(p2, 8));
    TimesShl(p2, 8);
    ShlXor(Xor(middle, v), Times(p2), 8);
    ShlXor(middle, v, 8);
    ShlAdd(r, k, 8);
    // Shl(r, 8 + k) is (Shl(middle, 8) + Shl(v, 8)) + Shl(Times(p2), 8)
    XorAssociative(Xor(crc, b), Times(p1), Shl(v, 8));
    XorCommutative(Times(p1), Shl(v, 8));
    XorAssociative(Xor(crc, b), Shl(v, 8), Times(p1));
    XorAssociative(Xor(Xor(crc, b), Shl(v, 8)), Times(p1), Shl(Times(p2), 8));
    XorAssociative(crc, b, Shl(v, 8));
    QuotientBound(p1, p2, k);
  }

  lemma QuotientBound(p1: nat, p2: nat, k: nat)
    requires p1 < Pow2(8) && p2 < Pow2(k)
    ensures Xor(p1, Shl(p2, 8)) < Pow2(8 + k)
  {
    ShlBound(p2, k, 8);
    Pow2Grows(8, 8 + k);
    XorBound(p1, Shl(p2, 8), 8 + k);
  }

  // ---- There is one remainder ----

  /** The generator is odd, so a product has no more zero bits at its end than the other factor. */
  lemma {:induction false} TimesLow(q: nat, c: nat, k: nat)
    requires q < Pow2(k) && Times(q) == Shl(c, k)
    ensures q == 0
    decreases k
  {
    hide Xor, Times;
    if k > 0 {
      TimesSplit(q);
      XorStep(Low(q), 2 * Times(q / 2));
      assert Shl(c, k) == 2 * Shl(c, k - 1);
      XorStep(0, 2 * Times(q / 2));
      XorZero(2 * Times(q / 2));
      TimesLow(q / 2, c, k - 1);
    }
  }

  lemma {:induction false} ShlInjective(a: nat, b: nat, k: nat)
    requires Shl(a, k) == Shl(b, k)
    ensures a == b
  {
    if k > 0 {
      ShlInjective(a, b, k - 1);
    }
  }

  lemma RemainderUnique(v: nat, p: nat, a: nat, q: nat, b: nat, k: nat)
    requires Divides(v, p, a, k) && Divides(v, q, b, k)
    ensures a == b
  {
    hide Xor, Times, Shl;
    TimesXor(p, q);
    XorSwap(v, Times(p), v, Times(q));
    XorSelf(v);
    XorZero(Xor(Times(p), Times(q)));
    ShlXor(a, b, k);
    XorBound(p, q, k);
    TimesLow(Xor(p, q), Xor(a, b), k);
    XorZero(q);
    XorSelf(q);
    XorCancel(p, q, q);
    ShlInjective(a, b, k);
  }

  /** The register after a block is the remainder of the block, with the register before it added to its first bits. */
  lemma RegisterIsRemainder(crc: u32, data: seq<byte>, r: nat)
    ensures r == CrcUpdate(crc, data) <==> exists q :: Divides(Xor(crc, LeValue(data)), q, r, 8 * |data|)
  {
    hide Divides;
    var p := UpdateDivides(crc, data);
    if q :| Divides(Xor(crc, LeValue(data)), q, r, 8 * |data|) {
      RemainderUnique(Xor(crc, LeValue(data)), p, CrcUpdate(crc, data), q, r, 8 * |data|);
    }
  }

  /** The checksum of a block: complement the first 32 bits, divide, complement the remainder. */
  lemma CrcIsRemainder(data: seq<byte>, c: u32)
    ensures c == Crc(data) <==>
      exists q :: Divides(Xor(0xFFFF_FFFF, LeValue(data)), q, Xor(c, 0xFFFF_FFFF), 8 * |data|)
  {
    hide Divides, Xor, LeValue, CrcUpdate;
    RegisterIsRemainder(0xFFFF_FFFF, data, Xor(c, 0xFFFF_FFFF));
    var r := CrcUpdate(INITIAL, data);
    XorAssociative(r, 0xFFFF_FFFF, 0xFFFF_FFFF);
    XorAssociative(c, 0xFFFF_FFFF, 0xFFFF_FFFF);
    XorSelf(0xFFFF_FFFF);
    XorZero(r);
    XorZero(c);
  }
}
